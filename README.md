# dfufile — a Dafny model of the DFU file parser

This project models the parsing core of `dfufile`, a Rust crate that reads
firmware files in the USB Device Firmware Upgrade (DFU) format and in
STMicroelectronics' DfuSe extension of it.

- **Standard layer** (`src/lib.rs`). Every DFU file ends in a 16-byte
  suffix: device, product and vendor ids, the DFU specification number
  `bcdDFU`, the reversed signature `"UFD"`, the suffix length and a CRC-32 of
  everything before the last four bytes. `DfuFile::open` checks the file size,
  asks `detect` which variant the file is, parses the DfuSe content if there
  is one, then reads the suffix. `DfuFile::calc_crc` streams the file in
  1024-byte chunks into the CRC-32 update function.
- **DfuSe layer** (`src/dfuse.rs`). A DfuSe file starts with an 11-byte
  prefix (signature `"DfuSe"`, version, image size, number of targets). The
  prefix is followed by that many images. Each image is a 274-byte target
  prefix (signature `"Target"`, alternate setting, a NUL-terminated 255-byte
  name, target size, number of elements) followed by that many image
  elements. Each element is an 8-byte descriptor (address, size) followed by
  its data. Parsing threads a file cursor `file_pos` through all of these.

## How the model is built

- The open file is an immutable byte sequence `file: seq<u8>`.
- A seek to an absolute offset followed by `read_exact` is the slice
  `file[pos..pos + n]` (`Binary.ReadExact`). A read past the end is the I/O
  error `Io`.
- Each parser is written twice:
  - a **method** that follows the Rust step by step, with the same reads, the
    same early returns through `?` (Dafny's `:-`) and the same loops;
  - a **function** that states what the method computes. Each method's
    `ensures` ties it to its function.
- The properties are proved about the functions:
  - the decode/encode round trips of each fixed-size record;
  - an if-and-only-if between "the parser returns this value" and "the value
    is laid out in the file at these offsets";
  - the exact movement of the cursor;
  - the set of errors each stage can return.
- The `&mut u64 file_pos` cursor is an in-parameter plus an out-parameter
  `filePos'`. The specification functions return both the result and the
  cursor (`Errors.Parsed`), including the cursor a failed step leaves behind.
- The two counted loops (targets of a DfuSe file, elements of an image) share
  one generic reader, `Repeat.ParseMany`. Its layout, cursor and error lemmas
  are proved once and then applied to both loops.
- Both error enums of the crate, and the I/O errors `anyhow` carries next to
  them, are `Errors.Error`.
- The CRC-32 update function `crc32::crc32(bytes, acc)` is a function
  parameter. Its source is not part of this model. The one-shot equivalence
  of the chunked loop is proved under two stated hypotheses on that
  parameter: `Dfu.Resumable` and `Dfu.EmptyNeutral`.

Files: `errors.dfy` (error kinds, `Result`), `binary.dfy` (bytes,
little-endian integers, positioned reads), `suffix.dfy` (`Suffix`),
`repeat.dfy` (the counted read loop), `dfuse.dfy` (`detect`, `Prefix`,
`TargetPrefix`, `ImageElement`, `Image`, `Content`), `dfu.dfy` (`DfuFile`,
`open`, `calc_crc`).

## Model

| member | source | states |
|---|---|---|
| Binary.U16Le | src/lib.rs:204-207 | the two bytes it produces decode back to the value (`u16::from_le_bytes` inverts it) |
| Binary.U32Le | src/lib.rs:210 | the four bytes it produces decode back to the value (`u32::from_le_bytes` inverts it) |
| Binary.LeU16Bytes | src/lib.rs:204-207 | two bytes are determined by the u16 they encode |
| Binary.LeU32Bytes | src/lib.rs:210 | four bytes are determined by the u32 they encode |
| Binary.ReadExact | src/dfuse.rs:299-301 | seek + `read_exact` of n bytes succeeds iff the bytes exist, yields exactly `file[pos..pos+n]`, and otherwise fails with an I/O error |
| Binary.IndexOf | src/dfuse.rs:279 | `find('\x00')`: None iff the byte does not occur; otherwise an index holding it with no earlier occurrence |
| Binary.IndexOfFirst | src/dfuse.rs:279 | the first occurrence of the byte is the one reported |
| DfuSuffix.SuffixFromBytes | src/lib.rs:202-212 | decodes a 3-byte signature field |
| DfuSuffix.SuffixToBytes | src/lib.rs:202-212 | the encoding of a suffix is exactly 16 bytes |
| DfuSuffix.SuffixRoundTrip | src/lib.rs:202-212 | decoding the 16 encoded bytes of a suffix gives back every field |
| DfuSuffix.SuffixBytesRoundTrip | src/lib.rs:202-212 | encoding the decoded fields gives back the 16 bytes: the decoder loses nothing |
| DfuSuffix.ParseSuffix | src/lib.rs:215-227 | succeeds iff the file has 16 bytes and bytes −8..−5 are "UFD"; a shorter file is an I/O error (the seek before the start); otherwise `InvalidSuffixSignature`; on success the suffix re-encodes to the file's last 16 bytes |
| DfuSuffix.SuffixFromFile | src/lib.rs:215-227 | the seek/read/check sequence returns what ParseSuffix describes |
| DfuSuffix.ParseSuffixOfTrailer | src/lib.rs:216 | only the last 16 bytes of a file decide its suffix |
| DfuSuffix.DefaultSuffix | src/lib.rs:164-177 | `Suffix::default` passes the suffix check: its 16 bytes are read back as itself (partner: DefaultSuffixAccepted, after any body) |
| DfuSuffix.DefaultSuffixAccepted | src/lib.rs:164-177 | the default suffix, written after any bytes, is read back unchanged |
| Dfuse.IsDfuSe | src/dfuse.rs:14-22 | `detect` fails exactly when reading the suffix fails, with that error; otherwise it returns true iff the file starts with "DfuSe" and the suffix's `bcdDFU` is 0x011A |
| Dfuse.Detect | src/dfuse.rs:14-22 | the rewind/read/suffix sequence returns what IsDfuSe describes |
| Dfuse.PrefixFromBytes | src/dfuse.rs:131-139 | decodes a 5-byte signature field |
| Dfuse.PrefixToBytes | src/dfuse.rs:131-139 | the encoding of a prefix is exactly 11 bytes |
| Dfuse.PrefixRoundTrip | src/dfuse.rs:131-139 | decoding the encoded prefix gives back every field |
| Dfuse.PrefixBytesRoundTrip | src/dfuse.rs:131-139 | encoding the decoded prefix gives back the 11 bytes |
| Dfuse.ParsePrefix | src/dfuse.rs:141-153 | succeeds iff the file has 11 bytes starting with "DfuSe"; the error is I/O for a short file and `InvalidPrefixSignature` otherwise; on success the prefix re-encodes to the first 11 bytes |
| Dfuse.PrefixFromFile | src/dfuse.rs:141-153 | the rewind/read/check sequence returns what ParsePrefix describes |
| Dfuse.TargetName | src/dfuse.rs:277-288 | the name is the longest NUL-free start of the 255-byte field: a prefix of it, with no NUL inside, followed by a NUL unless it fills the field |
| Dfuse.TargetPrefixFromBytes | src/dfuse.rs:274-292 | for every 274-byte buffer, whatever follows the name's NUL and whatever bytes 8..11 hold: the signature is bytes 0..6, the alternate setting byte 6, the named flag byte 7, the name the field at 11..266 up to its first NUL (at most 255 bytes, NUL-free), and the target size and element count the little-endian u32s at 266..270 and 270..274 |
| Dfuse.TargetPrefixToBytes | src/dfuse.rs:274-292 | the encoding of a target prefix is exactly 274 bytes |
| Dfuse.TargetNameOfPadded | src/dfuse.rs:277-288 | a NUL-free name padded with NULs to 255 bytes is read back as the name |
| Dfuse.TargetPrefixLayout | src/dfuse.rs:274-292 | signature at 0..6, alternate setting at 6, named flag at 7, padded name at 11..266, target size at 266..270, element count at 270..274 |
| Dfuse.TargetPrefixRoundTrip | src/dfuse.rs:274-292 | every target prefix with a NUL-free name of at most 255 bytes is decoded back from its encoding |
| Dfuse.ParseTargetPrefix | src/dfuse.rs:298-312 | the cursor never moves back; the only errors are I/O and `InvalidTargetPrefixSignature` |
| Dfuse.ParseTargetPrefixSpec | src/dfuse.rs:298-312 | succeeds iff 274 bytes exist at the cursor and start with "Target"; the cursor advances by 274 whenever the read succeeds, also when the signature is then rejected; the value is the decoding of those bytes |
| Dfuse.TargetPrefixFromFile | src/dfuse.rs:298-312 | the method returns the result and the updated cursor ParseTargetPrefix describes |
| Dfuse.ElementFromBytes | src/dfuse.rs:358-365 | the element carries the data position given, and its descriptor re-encodes to the 8 bytes read: address and size are decoded without loss |
| Dfuse.ElementToBytes | src/dfuse.rs:359-365 | the encoding of an element descriptor is exactly 8 bytes |
| Dfuse.ElementRoundTrip | src/dfuse.rs:359-365 | decoding an encoded descriptor at its data position gives back the element |
| Dfuse.ElementBytesRoundTrip | src/dfuse.rs:359-365 | encoding a decoded descriptor gives back the 8 bytes |
| Dfuse.ParseElement | src/dfuse.rs:371-383 | the cursor never moves back; the only error is I/O; on success the cursor is the data position plus the element size |
| Dfuse.ParseElementSpec | src/dfuse.rs:371-383 | succeeds iff 8 bytes exist at the cursor; a failure leaves the cursor unchanged; on success the data starts right after the descriptor, the descriptor re-encodes to those 8 bytes, and the cursor skips descriptor and data |
| Dfuse.ElementFromFile | src/dfuse.rs:371-383 | the method returns the result and the updated cursor ParseElement describes |
| Dfuse.ReadAt | src/dfuse.rs:391-404 | whatever the OS read returns, the count reported is that count clipped to the bytes left in the element; the buffer holds the file bytes from `data_position + position` up to the count; the bytes past the read are untouched |
| Dfuse.ParseImage | src/dfuse.rs:194-206 | a parsed image holds exactly as many elements as its target prefix declares |
| Dfuse.ElementsFromFile | src/dfuse.rs:198-201 | the element loop returns the result and cursor ParseElements describes |
| Dfuse.ImageFromFile | src/dfuse.rs:194-206 | the method returns the result and the updated cursor ParseImage describes |
| Dfuse.ImagesFromFile | src/dfuse.rs:54-59 | the target loop returns the result and cursor ParseImages describes |
| Dfuse.ParseContent | src/dfuse.rs:43-64 | a file under 27 bytes is rejected with `InsufficientFileSize`; otherwise a wrong prefix signature gives `InvalidPrefixSignature`; on success the prefix is the decoding of the first 11 bytes and there are exactly `bTargets` images |
| Dfuse.ContentFromFile | src/dfuse.rs:43-64 | the size check, prefix read and target loop return what ParseContent describes |
| Dfuse.ElementStepReads | src/dfuse.rs:371-383 | reading an element accepts exactly the element stored at the cursor and moves the cursor past its descriptor and data; it fails only with I/O |
| Dfuse.ParseElementsLayout | src/dfuse.rs:198-201 | the element loop returns `es` iff there are `count` of them, each descriptor stored right after the previous element's data |
| Dfuse.ParseElementsCursor | src/dfuse.rs:198-201 | the element loop never moves the cursor back and fails only with I/O; on success it advances by exactly the bytes of the elements |
| Dfuse.ParseImageLayout | src/dfuse.rs:194-206 | an image is read iff it is laid out at the cursor: a valid target prefix, then the declared number of elements stored back to back |
| Dfuse.ParseImageCursor | src/dfuse.rs:194-206 | reading an image never moves the cursor back and fails only with I/O or a bad target signature; on success the cursor advances by exactly the image's bytes |
| Dfuse.ImageStepReads | src/dfuse.rs:194-206 | reading an image accepts exactly the image stored at the cursor and moves the cursor past it |
| Dfuse.ParseImagesLayout | src/dfuse.rs:54-59 | the target loop returns `images` iff there are `count` of them stored one after another |
| Dfuse.ParseImagesCursor | src/dfuse.rs:54-59 | the target loop never moves the cursor back, fails only with I/O or a bad target signature, and on success advances by exactly the images' bytes |
| Dfuse.ParseContentLayout | src/dfuse.rs:43-64 | DfuSe content `c` is read iff the file has 27 bytes, starts with "DfuSe", `c.prefix` decodes the first 11 bytes, and `bTargets` images are stored one after another from offset 11; the final cursor is 11 plus their bytes |
| Dfuse.ContentImageAt | src/dfuse.rs:54-59 | the k-th image of parsed content lies at offset 11 plus the bytes of the images before it |
| Dfuse.ImageElementAt | src/dfuse.rs:198-201 | the j-th element of an image lies 274 bytes plus the preceding elements past the image; its data position is right after its descriptor; its descriptor re-encodes to the file bytes there |
| Dfuse.FirstMatch | src/dfuse.rs:67-78 | `Iterator::find`: the index returned is the first matching image; None iff no image matches |
| Dfuse.FindImageByAlt | src/dfuse.rs:67-71 | returns the first image with the given alternate setting; None iff there is none |
| Dfuse.FindImageByName | src/dfuse.rs:74-78 | returns the first image with the given name; None iff there is none |
| Dfuse.FindImageByNameUnreadable | src/dfuse.rs:74-78 | in parsed content, a name containing NUL or longer than 255 bytes is never found |
| Repeat.ParseMany | src/dfuse.rs:198-201 | a counted read loop that succeeds returns exactly `count` values |
| Repeat.ParseManyStep | src/dfuse.rs:198-201 | one loop iteration: with values read so far, the outcome is the first step's error, or the loop continued with its value appended |
| Repeat.ParseManyDone | src/dfuse.rs:198-201 | when the loop ends, its outcome is the values pushed, in order |
| Repeat.ParseManyLayout | src/dfuse.rs:54-59 | for a step that accepts exactly the stored records and skips them, the loop returns `xs` iff `count` records are stored one after another |
| Repeat.ParseManySpan | src/dfuse.rs:54-59 | on success the loop advances the cursor by exactly the records' sizes |
| Repeat.ParseManyForward | src/dfuse.rs:54-59 | the loop never moves the cursor back when no step does |
| Repeat.ParseManyErrors | src/dfuse.rs:54-59 | the loop fails only with errors its steps fail with |
| Repeat.StoredAtOffsets | src/dfuse.rs:54-59 | records stored one after another are exactly those each found at the start offset plus the sizes of the ones before |
| Dfu.Open | src/lib.rs:51-75 | the size check, detection, DfuSe parsing and suffix read return what ParseOpen describes |
| Dfu.OpenTooSmall | src/lib.rs:54-59 | a file under 16 bytes is rejected with `InsufficientFileSize` before anything is read |
| Dfu.OpenSpec | src/lib.rs:51-75 | for a file of at least 16 bytes: a suffix error is returned as is; otherwise the result is Plain or the parsed DfuSe content (or its error) as `detect` decides, with the file's own suffix |
| Dfu.OpenVariant | src/lib.rs:61-65 | an opened file is DfuSe iff `detect` returned true, and Plain iff it returned false |
| Dfu.OpenWithDefaultSuffix | src/lib.rs:51-75 | any bytes followed by the default suffix open as a Plain file with that suffix |
| Dfu.CalcCrc | src/lib.rs:79-102 | the chunked loop returns the checksum: the bytes before the last four folded in chunks from accumulator 0, inverted |
| Dfu.ChunksCover | src/lib.rs:87-100 | the chunks read cover the body exactly and in order; every chunk but the last has 1024 bytes, and the last has 1 to 1024 |
| Dfu.ChunkedCrcFolds | src/lib.rs:87-100 | the loop feeds exactly those chunks, in order, into the CRC update |
| Dfu.ChunkedCrcOneShot | src/lib.rs:87-100 | for a resumable CRC update, chunked reading gives the CRC of the whole data in one call |
| Dfu.ChecksumOneShot | src/lib.rs:79-102 | for such an update, the checksum is `crc32(file[..size-4], 0) ^ 0xFFFFFFFF` |
| Dfu.ChecksumIgnoresStoredCrc | src/lib.rs:77-78 | files that differ only in their last four bytes have the same checksum |
| Dfu.ChecksumSkipsStoredCrc | src/lib.rs:77-78 | when the suffix is valid, the four bytes left out are exactly its `dwCRC` field |

## Left out

- The body of the crate's CRC-32 module. `crc32` is a parameter. The one-shot results hold under the stated hypotheses `Dfu.Resumable` and `Dfu.EmptyNeutral`; they are not proved for the table-driven CRC-32.
- `String::from_utf8_lossy` is not modelled. Signatures and target names are kept as bytes. Comparing a lossily decoded 3-, 5- or 6-byte field with an ASCII literal is equivalent to comparing the bytes, so the accept/reject decisions are exact.
- Dfuse.TargetName: for a name field with non-UTF-8 bytes, the crate finds the NUL in the lossily decoded string and slices that string. The stored name then differs from the bytes. A field with no NUL and a multi-byte replacement character across byte 255 makes the slice panic. The model keeps the raw bytes up to the first NUL (or all 255).
- Opening by path, the `std::fs::File` handle and the stored `PathBuf`. Any I/O failure other than a read past the end or a seek before the start is not modelled.
- `Display`, `Debug` and the `anyhow` context. Errors are compared by kind.
- The `new` constructors and the `Default` implementations of the DfuSe records. Only `Suffix::default` is modelled.
- u64 arithmetic overflow of the cursor. Offsets are unbounded naturals, and a file cannot reach 2^64 bytes.
- Dfuse.ReadAt requires `position <= dwElementSize`. For a larger `position` the u32 subtraction in the crate underflows: it panics in a debug build and wraps in a release build. The OS read may fill any amount up to the buffer length, and that amount is a choice of the environment.
- Dfu.CalcCrc requires at least four bytes, since `file_size - 4` underflows otherwise. An opened file always has at least 16. Its `Result` is never an error in the model, because every read it makes lies inside the file.
- The two loops of the DfuSe parser (`Content::from_file`, `Image::from_file`) are written as separate methods `Dfuse.ImagesFromFile` and `Dfuse.ElementsFromFile` called from the method that holds them in the crate.
- The command-line inspection tool under `src/bin` is not part of this model.
