/**
 * A DFU file as the crate opens it: the raw bytes, the content variant
 * (plain DFU, or DfuSe with its parsed prefix and images) and the 16-byte
 * suffix; and the checksum computed over everything but the stored CRC.
 *
 * The file handle and its path become the immutable byte sequence `file`.
 */
module Dfu {
  import opened Binary
  import opened Errors
  import opened DfuSuffix
  import Dfuse

  /** The content variants: a standard file with raw content, or a DfuSe
      file with the extensions of STMicroelectronics. */
  datatype Content = Plain | DfuSe(content: Dfuse.Content)

  /** An opened file: its bytes, its content variant and its suffix. */
  datatype DfuFile = DfuFile(file: seq<u8>, content: Content, suffix: Suffix)

  // ---------------------------------------------------------------------------
  // Opening a file

  /** The content variant `detect` selected: DfuSe content is parsed from
      the file, plain content is not parsed at all. */
  function ParseVariant(file: seq<u8>, isDfuSe: bool): Result<Content> {
    if isDfuSe then
      var content :- Dfuse.ParseContent(file);
      Ok(DfuSe(content))
    else
      Ok(Plain)
  }

  /**
   * `DfuFile::open` as a function of the file: reject a file smaller than
   * the suffix, then detect the format, parse the DfuSe content when
   * detected, and finally read the suffix.
   */
  function ParseOpen(file: seq<u8>): Result<DfuFile> {
    if |file| < SUFFIX_LENGTH then Err(Dfu(DfuError.InsufficientFileSize))
    else
      var isDfuSe :- Dfuse.IsDfuSe(file);
      var content :- ParseVariant(file, isDfuSe);
      var suffix :- ParseSuffix(file);
      Ok(DfuFile(file, content, suffix))
  }

  /** `DfuFile::open`: measure the file, detect the format, read the
      content, read the suffix. */
  method Open(file: seq<u8>) returns (r: Result<DfuFile>)
    ensures r == ParseOpen(file)
  {
    var fileSize := |file|;
    if fileSize < SUFFIX_LENGTH {
      return Err(Dfu(DfuError.InsufficientFileSize));
    }
    var isDfuSe :- Dfuse.Detect(file);
    var content;
    if isDfuSe {
      var dfuse :- Dfuse.ContentFromFile(file);
      content := DfuSe(dfuse);
    } else {
      content := Plain;
    }
    var suffix :- SuffixFromFile(file);
    return Ok(DfuFile(file, content, suffix));
  }

  /** A file smaller than the suffix is rejected before anything else is
      looked at, whatever its bytes. */
  lemma OpenTooSmall(file: seq<u8>)
    requires |file| < SUFFIX_LENGTH
    ensures ParseOpen(file) == Err(Dfu(DfuError.InsufficientFileSize))
  {
  }

  /**
   * What opening a file of at least 16 bytes gives: the suffix signature is
   * checked first (by `detect`); the content is DfuSe exactly when
   * `detect` says so, and then only if the DfuSe content parses; the
   * suffix returned is the file's own last 16 bytes, and the file kept is
   * the file read.
   */
  lemma OpenSpec(file: seq<u8>)
    requires |file| >= SUFFIX_LENGTH
    ensures ParseSuffix(file).Err? ==> ParseOpen(file) == Err(ParseSuffix(file).error)
    ensures ParseSuffix(file).Ok? && Dfuse.IsDfuSe(file) == Ok(false) ==>
      ParseOpen(file) == Ok(DfuFile(file, Plain, ParseSuffix(file).value))
    ensures ParseSuffix(file).Ok? && Dfuse.IsDfuSe(file) == Ok(true) ==>
      match Dfuse.ParseContent(file)
      case Ok(c) => ParseOpen(file) == Ok(DfuFile(file, DfuSe(c), ParseSuffix(file).value))
      case Err(e) => ParseOpen(file) == Err(e)
  {
  }

  /** The content of an opened file is DfuSe exactly when `detect`
      returned true, and Plain exactly when it returned false. */
  lemma OpenVariant(file: seq<u8>)
    requires ParseOpen(file).Ok?
    ensures ParseOpen(file).value.content.DfuSe? <==> Dfuse.IsDfuSe(file) == Ok(true)
    ensures ParseOpen(file).value.content.Plain? <==> Dfuse.IsDfuSe(file) == Ok(false)
  {
  }

  /** Any bytes followed by the default suffix open as a plain file with
      that suffix: the default suffix declares a standard DFU file. */
  lemma OpenWithDefaultSuffix(body: seq<u8>)
    ensures ParseOpen(body + SuffixToBytes(DefaultSuffix()))
      == Ok(DfuFile(body + SuffixToBytes(DefaultSuffix()), Plain, DefaultSuffix()))
  {
    var file := body + SuffixToBytes(DefaultSuffix());
    DefaultSuffixAccepted(body);
    var trailer := file[|file| - SUFFIX_LENGTH..];
    assert trailer == SuffixToBytes(DefaultSuffix());
    assert file[|file| - 10..|file| - 8] == trailer[6..8] == U16Le(0x0100);
  }

  // ---------------------------------------------------------------------------
  // The checksum

  /** Bytes `calc_crc` reads at a time. */
  const CHUNK_SIZE: nat := 1024

  /** Bytes at the end of the file that hold the stored checksum and are
      left out of the computed one. */
  const CRC_LENGTH: nat := 4

  /**
   * The accumulator after folding `data` into `crc32` in chunks of
   * CHUNK_SIZE bytes, the last one shorter; `crc32(bytes, acc)` is the
   * update function of the crate's CRC-32 module, whose body is not part of
   * this model.
   */
  function ChunkedCrc(data: seq<u8>, crc: bv32, crc32: (seq<u8>, bv32) -> bv32): bv32
    decreases |data|
  {
    if |data| == 0 then crc
    else
      var n := Min(CHUNK_SIZE, |data|);
      ChunkedCrc(data[n..], crc32(data[..n], crc), crc32)
  }

  /** The checksum of a file: its bytes without the stored CRC, folded from
      accumulator 0, inverted at the end. */
  function Checksum(file: seq<u8>, crc32: (seq<u8>, bv32) -> bv32): bv32
    requires |file| >= CRC_LENGTH
  {
    ChunkedCrc(file[..|file| - CRC_LENGTH], 0, crc32) ^ 0xFFFF_FFFF
  }

  /**
   * `DfuFile::calc_crc`: rewind, read the file up to its last four bytes
   * chunk by chunk, feeding each chunk into `crc32`, and invert the final
   * accumulator. The stream position after the rewind is `filePos`, since
   * every read advances it by exactly the bytes read.
   */
  method CalcCrc(dfu: DfuFile, crc32: (seq<u8>, bv32) -> bv32) returns (r: bv32)
    requires |dfu.file| >= CRC_LENGTH
    ensures r == Checksum(dfu.file, crc32)
  {
    var file := dfu.file;
    var fileSize := |file|;
    ghost var body := file[..fileSize - CRC_LENGTH];
    var filePos: nat := 0;
    var crc: bv32 := 0;
    while true
      invariant filePos <= fileSize - CRC_LENGTH
      invariant ChunkedCrc(body, 0, crc32) == ChunkedCrc(file[filePos..fileSize - CRC_LENGTH], crc, crc32)
      decreases fileSize - CRC_LENGTH - filePos
    {
      var readSize := Min(CHUNK_SIZE, fileSize - CRC_LENGTH - filePos);
      if readSize == 0 {
        break;
      }
      ghost var rest := file[filePos..fileSize - CRC_LENGTH];
      var buffer := file[filePos..filePos + readSize];
      assert buffer == rest[..readSize];
      assert file[filePos + readSize..fileSize - CRC_LENGTH] == rest[readSize..];
      crc := crc32(buffer, crc);
      filePos := filePos + readSize;
    }
    assert file[filePos..fileSize - CRC_LENGTH] == [];
    return crc ^ 0xFFFF_FFFF;
  }

  /** The chunks `calc_crc` reads, in order. */
  function Chunks(data: seq<u8>): seq<seq<u8>>
    decreases |data|
  {
    if |data| == 0 then []
    else
      var n := Min(CHUNK_SIZE, |data|);
      [data[..n]] + Chunks(data[n..])
  }

  /** The bytes of a sequence of chunks, one after another. */
  function Flatten(chunks: seq<seq<u8>>): seq<u8>
    decreases |chunks|
  {
    if |chunks| == 0 then [] else chunks[0] + Flatten(chunks[1..])
  }

  /** The accumulator after feeding each chunk into `crc32`, in order. */
  function FoldCrc(chunks: seq<seq<u8>>, crc: bv32, crc32: (seq<u8>, bv32) -> bv32): bv32
    decreases |chunks|
  {
    if |chunks| == 0 then crc else FoldCrc(chunks[1..], crc32(chunks[0], crc), crc32)
  }

  /** The chunks cover the data exactly, in order; each holds CHUNK_SIZE
      bytes except the last, which holds between 1 and CHUNK_SIZE. */
  lemma {:induction false} ChunksCover(data: seq<u8>)
    ensures Flatten(Chunks(data)) == data
    ensures forall k :: 0 <= k < |Chunks(data)| ==>
      0 < |Chunks(data)[k]| <= CHUNK_SIZE && (k < |Chunks(data)| - 1 ==> |Chunks(data)[k]| == CHUNK_SIZE)
    decreases |data|
  {
    if |data| > 0 {
      var n := Min(CHUNK_SIZE, |data|);
      var cs := Chunks(data);
      ChunksCover(data[n..]);
      assert cs[1..] == Chunks(data[n..]);
      assert data == data[..n] + data[n..];
      if n < CHUNK_SIZE {
        assert data[n..] == [];
      }
    }
  }

  /** The checksum loop feeds exactly those chunks into `crc32`, in order. */
  lemma {:induction false} ChunkedCrcFolds(data: seq<u8>, crc: bv32, crc32: (seq<u8>, bv32) -> bv32)
    ensures ChunkedCrc(data, crc, crc32) == FoldCrc(Chunks(data), crc, crc32)
    decreases |data|
  {
    if |data| > 0 {
      var n := Min(CHUNK_SIZE, |data|);
      assert Chunks(data)[1..] == Chunks(data[n..]);
      ChunkedCrcFolds(data[n..], crc32(data[..n], crc), crc32);
    }
  }

  /** A CRC update that can be resumed: feeding two pieces one after the
      other gives the accumulator of feeding them at once. */
  ghost predicate Resumable(crc32: (seq<u8>, bv32) -> bv32) {
    forall a: seq<u8>, b: seq<u8>, crc: bv32 {:trigger crc32(b, crc32(a, crc))} ::
      crc32(a + b, crc) == crc32(b, crc32(a, crc))
  }

  /** A CRC update that leaves the accumulator alone when fed nothing. */
  ghost predicate EmptyNeutral(crc32: (seq<u8>, bv32) -> bv32) {
    forall crc: bv32 :: crc32([], crc) == crc
  }

  /** For a resumable update, reading non-empty data in chunks computes the
      CRC of the whole data in one go. */
  lemma {:induction false} ChunkedCrcOneShot(data: seq<u8>, crc: bv32, crc32: (seq<u8>, bv32) -> bv32)
    requires Resumable(crc32) && data != []
    ensures ChunkedCrc(data, crc, crc32) == crc32(data, crc)
    decreases |data|
  {
    var n := Min(CHUNK_SIZE, |data|);
    var head, tail := data[..n], data[n..];
    if tail == [] {
      assert head == data;
    } else {
      ChunkedCrcOneShot(tail, crc32(head, crc), crc32);
      assert head + tail == data;
    }
  }

  /** For a resumable update that ignores empty input, the checksum is the
      inverted CRC of everything but the last four bytes. */
  lemma ChecksumOneShot(file: seq<u8>, crc32: (seq<u8>, bv32) -> bv32)
    requires Resumable(crc32) && EmptyNeutral(crc32) && |file| >= CRC_LENGTH
    ensures Checksum(file, crc32) == crc32(file[..|file| - CRC_LENGTH], 0) ^ 0xFFFF_FFFF
  {
    var body := file[..|file| - CRC_LENGTH];
    if body != [] {
      ChunkedCrcOneShot(body, 0, crc32);
    }
  }

  /** The stored CRC does not take part in the checksum: files that differ
      only in their last four bytes have the same checksum. */
  lemma ChecksumIgnoresStoredCrc(body: seq<u8>, a: seq<u8>, b: seq<u8>, crc32: (seq<u8>, bv32) -> bv32)
    requires |a| == CRC_LENGTH && |b| == CRC_LENGTH
    ensures Checksum(body + a, crc32) == Checksum(body + b, crc32)
  {
    assert (body + a)[..|body|] == body == (body + b)[..|body|];
  }

  /** In a file with a valid suffix, the four bytes the checksum leaves out
      are exactly the suffix's `dwCRC` field, little-endian. */
  lemma ChecksumSkipsStoredCrc(file: seq<u8>)
    requires ParseSuffix(file).Ok?
    ensures file == file[..|file| - CRC_LENGTH] + U32Le(ParseSuffix(file).value.dwCRC)
  {
    var trailer := file[|file| - SUFFIX_LENGTH..];
    assert SuffixToBytes(ParseSuffix(file).value) == trailer;
    assert file[|file| - CRC_LENGTH..] == trailer[12..16];
    assert file == file[..|file| - CRC_LENGTH] + file[|file| - CRC_LENGTH..];
  }
}
