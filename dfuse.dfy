/**
 * The DfuSe extension of STMicroelectronics (document UM0391, Revision 1):
 * an 11-byte file prefix (UM0391 section 2.1) followed by `bTargets` images
 * (section 2.3.1). Each image is a 274-byte target prefix (section 2.3.2)
 * followed by `dwNbElements` image elements (section 2.3.3); an element is an
 * 8-byte descriptor followed by `dwElementSize` bytes of firmware.
 *
 * The parse threads an explicit file cursor through the nested loops: every
 * target prefix advances it by 274 bytes, every element by 8 bytes plus its
 * declared size, without reading the payload.
 */
module Dfuse {
  import opened Binary
  import opened Errors
  import opened DfuSuffix
  import opened Repeat

  /** Length of the file prefix in bytes. */
  const PREFIX_LENGTH: nat := 11

  /** Length of the target prefix in bytes. */
  const TARGET_PREFIX_LENGTH: nat := 274

  /** Length of the image element descriptor (without data) in bytes. */
  const IMAGE_ELEMENT_LENGTH: nat := 8

  /** Length of the target name field, bytes 11..266 of a target prefix. */
  const TARGET_NAME_LENGTH: nat := 255

  /** "DfuSe" */
  const DFUSE_SIGNATURE: seq<u8> := [0x44, 0x66, 0x75, 0x53, 0x65]

  /** "Target" */
  const TARGET_SIGNATURE: seq<u8> := [0x54, 0x61, 0x72, 0x67, 0x65, 0x74]

  /** The `bcdDFU` value of the suffix of a DfuSe file. */
  const DFUSE_BCD_DFU: u16 := 0x011A

  // ---------------------------------------------------------------------------
  // Format detection

  /**
   * `detect` as a function of the file: a DfuSe file starts with "DfuSe" and
   * its suffix declares `bcdDFU == 0x011A`. A suffix that cannot be read or
   * has a bad signature is an error, not a "no".
   */
  function IsDfuSe(file: seq<u8>): (r: Result<bool>)
    ensures r.Ok? <==> ParseSuffix(file).Ok?
    ensures r.Err? ==> r == Err(ParseSuffix(file).error)
    ensures r.Ok? ==>
      (r.value <==> file[..5] == DFUSE_SIGNATURE && LeU16(file[|file| - 10..|file| - 8]) == DFUSE_BCD_DFU)
  {
    var signature :- ReadExact(file, 0, |DFUSE_SIGNATURE|);
    var suffix :- ParseSuffix(file);
    var trailer := file[|file| - SUFFIX_LENGTH..];
    assert trailer[6..8] == file[|file| - 10..|file| - 8];
    SuffixRoundTrip(suffix);
    Ok(signature == DFUSE_SIGNATURE && suffix.bcdDFU == DFUSE_BCD_DFU)
  }

  /** `detect`: rewind, read the 5 signature bytes, then read the suffix. */
  method Detect(file: seq<u8>) returns (r: Result<bool>)
    ensures r == IsDfuSe(file)
  {
    var signature :- ReadExact(file, 0, |DFUSE_SIGNATURE|);
    var suffix :- SuffixFromFile(file);
    return Ok(signature == DFUSE_SIGNATURE && suffix.bcdDFU == DFUSE_BCD_DFU);
  }

  // ---------------------------------------------------------------------------
  // File prefix (UM0391 section 2.1)

  datatype Prefix = Prefix(
    szSignature: seq<u8>,  // "DfuSe"
    bVersion: u8,          // format revision, usually 1
    DFUImageSize: u32,     // total file length including the suffix
    bTargets: u8)          // number of images

  /** `Prefix::from_bytes`. */
  function PrefixFromBytes(buffer: seq<u8>): (p: Prefix)
    requires |buffer| == PREFIX_LENGTH
    ensures |p.szSignature| == |DFUSE_SIGNATURE|
  {
    Prefix(buffer[0..5], buffer[5], LeU32(buffer[6..10]), buffer[10])
  }

  /** The 11 bytes that decode to `p`; the partner of PrefixFromBytes. */
  function PrefixToBytes(p: Prefix): (b: seq<u8>)
    requires |p.szSignature| == |DFUSE_SIGNATURE|
    ensures |b| == PREFIX_LENGTH
  {
    p.szSignature + [p.bVersion] + U32Le(p.DFUImageSize) + [p.bTargets]
  }

  /** Encoding a prefix and decoding it gives back the same fields. */
  lemma PrefixRoundTrip(p: Prefix)
    requires |p.szSignature| == |DFUSE_SIGNATURE|
    ensures PrefixFromBytes(PrefixToBytes(p)) == p
  {
    var b := PrefixToBytes(p);
    assert b[0..5] == p.szSignature;
    assert b[6..10] == U32Le(p.DFUImageSize);
  }

  /** The 11 prefix bytes are determined by the decoded fields. */
  lemma PrefixBytesRoundTrip(buffer: seq<u8>)
    requires |buffer| == PREFIX_LENGTH
    ensures PrefixToBytes(PrefixFromBytes(buffer)) == buffer
  {
    LeU32Bytes(buffer[6..10]);
    assert buffer == buffer[0..5] + [buffer[5]] + buffer[6..10] + [buffer[10]];
  }

  /** `Prefix::from_file` as a function of the file: the first 11 bytes,
      accepted exactly when they start with "DfuSe". */
  function ParsePrefix(file: seq<u8>): (r: Result<Prefix>)
    ensures r.Ok? <==> |file| >= PREFIX_LENGTH && file[..5] == DFUSE_SIGNATURE
    ensures r.Err? ==> r.error == if |file| < PREFIX_LENGTH then Io else Dfuse(InvalidPrefixSignature)
    ensures r.Ok? ==> r.value.szSignature == DFUSE_SIGNATURE && PrefixToBytes(r.value) == file[..PREFIX_LENGTH]
  {
    var buffer :- ReadExact(file, 0, PREFIX_LENGTH);
    assert buffer[..5] == file[..5];
    PrefixBytesRoundTrip(buffer);
    var data := PrefixFromBytes(buffer);
    if data.szSignature != DFUSE_SIGNATURE then Err(Dfuse(InvalidPrefixSignature)) else Ok(data)
  }

  /** `Prefix::from_file`: rewind, read 11 bytes, check the signature. */
  method PrefixFromFile(file: seq<u8>) returns (r: Result<Prefix>)
    ensures r == ParsePrefix(file)
  {
    var buffer :- ReadExact(file, 0, PREFIX_LENGTH);
    var data := PrefixFromBytes(buffer);
    if data.szSignature != DFUSE_SIGNATURE {
      return Err(Dfuse(InvalidPrefixSignature));
    }
    return Ok(data);
  }

  // ---------------------------------------------------------------------------
  // Target prefix (UM0391 section 2.3.2)

  datatype TargetPrefix = TargetPrefix(
    szSignature: seq<u8>,   // "Target"
    bAlternateSetting: u8,  // alternate setting the image is meant for
    bTargetNamed: u8,       // 0 or 1
    szTargetName: seq<u8>,  // name, trimmed at its first zero byte
    dwTargetSize: u32,      // size of the image without its target prefix
    dwNbElements: u32)      // number of image elements

  /**
   * The target name held in the 255-byte name field. The field is a
   * zero-terminated C string, but what follows the terminator is often
   * garbage: the name is the field up to its first zero byte, or the whole
   * field when it holds no zero byte.
   */
  function TargetName(field: seq<u8>): (name: seq<u8>)
    requires |field| == TARGET_NAME_LENGTH
    ensures |name| <= TARGET_NAME_LENGTH && name == field[..|name|]
    ensures 0 !in name
    ensures |name| < TARGET_NAME_LENGTH ==> field[|name|] == 0
  {
    field[..IndexOf(field, 0).GetOr(TARGET_NAME_LENGTH)]
  }

  /** `TargetPrefix::from_bytes`: every field comes from its fixed offset,
      integers little-endian; bytes 8..11 are not read, and the name is the
      field at 11..266 up to its first zero byte, whatever follows it. */
  function TargetPrefixFromBytes(buffer: seq<u8>): (t: TargetPrefix)
    requires |buffer| == TARGET_PREFIX_LENGTH
    ensures t.szSignature == buffer[0..6]
    ensures t.bAlternateSetting == buffer[6] && t.bTargetNamed == buffer[7]
    ensures t.szTargetName == TargetName(buffer[11..266])
    ensures |t.szTargetName| <= TARGET_NAME_LENGTH && 0 !in t.szTargetName
    ensures U32Le(t.dwTargetSize) == buffer[266..270]
    ensures U32Le(t.dwNbElements) == buffer[270..274]
  {
    LeU32Bytes(buffer[266..270]);
    LeU32Bytes(buffer[270..274]);
    TargetPrefix(
      buffer[0..6],
      buffer[6],
      buffer[7],
      TargetName(buffer[11..266]),
      LeU32(buffer[266..270]),
      LeU32(buffer[270..274]))
  }

  /** `n` zero bytes. */
  function Zeros(n: nat): (z: seq<u8>)
    ensures |z| == n
  {
    seq(n, _ => 0)
  }

  /** The target prefix record a writer would produce for `t`: the name
      padded with zero bytes, bytes 8..11 zero. */
  function TargetPrefixToBytes(t: TargetPrefix): (b: seq<u8>)
    requires |t.szSignature| == |TARGET_SIGNATURE| && |t.szTargetName| <= TARGET_NAME_LENGTH
    ensures |b| == TARGET_PREFIX_LENGTH
  {
    t.szSignature + [t.bAlternateSetting, t.bTargetNamed] + Zeros(3)
      + t.szTargetName + Zeros(TARGET_NAME_LENGTH - |t.szTargetName|)
      + U32Le(t.dwTargetSize) + U32Le(t.dwNbElements)
  }

  /** A name without zero bytes, padded with zero bytes to the field
      length, is read back unchanged. */
  lemma TargetNameOfPadded(name: seq<u8>)
    requires |name| <= TARGET_NAME_LENGTH && 0 !in name
    ensures TargetName(name + Zeros(TARGET_NAME_LENGTH - |name|)) == name
  {
    var field := name + Zeros(TARGET_NAME_LENGTH - |name|);
    assert field[..|name|] == name;
    if |name| < TARGET_NAME_LENGTH {
      // The first padding byte terminates the name.
      IndexOfFirst(field, 0, |name|);
    } else {
      assert field == name;
    }
  }

  /** Where each field of a target prefix lands in its 274 bytes. */
  lemma TargetPrefixLayout(t: TargetPrefix)
    requires |t.szSignature| == |TARGET_SIGNATURE| && |t.szTargetName| <= TARGET_NAME_LENGTH
    ensures var b := TargetPrefixToBytes(t);
      && b[0..6] == t.szSignature
      && b[6] == t.bAlternateSetting && b[7] == t.bTargetNamed
      && b[11..266] == t.szTargetName + Zeros(TARGET_NAME_LENGTH - |t.szTargetName|)
      && b[266..270] == U32Le(t.dwTargetSize)
      && b[270..274] == U32Le(t.dwNbElements)
  {
    var head := t.szSignature + [t.bAlternateSetting, t.bTargetNamed] + Zeros(3);
    var field := t.szTargetName + Zeros(TARGET_NAME_LENGTH - |t.szTargetName|);
    var tail := U32Le(t.dwTargetSize) + U32Le(t.dwNbElements);
    assert TargetPrefixToBytes(t) == head + field + tail;
  }

  /** A target prefix whose name has no zero byte survives writing and
      reading back; a name of 255 bytes needs no terminator. */
  lemma TargetPrefixRoundTrip(t: TargetPrefix)
    requires |t.szSignature| == |TARGET_SIGNATURE|
    requires |t.szTargetName| <= TARGET_NAME_LENGTH && 0 !in t.szTargetName
    ensures TargetPrefixFromBytes(TargetPrefixToBytes(t)) == t
  {
    TargetPrefixLayout(t);
    TargetNameOfPadded(t.szTargetName);
  }

  /**
   * `TargetPrefix::from_file` as a function of the file and the cursor: the
   * 274 bytes at `pos`, accepted exactly when they start with "Target". The
   * cursor moves by 274 as soon as the bytes are read, even when the
   * signature is then rejected; a failed read leaves it where it was.
   */
  function ParseTargetPrefix(file: seq<u8>, pos: nat): (p: Parsed<TargetPrefix>)
    ensures p.pos >= pos
    ensures p.result.Err? ==> p.result.error in {Io, Dfuse(InvalidTargetPrefixSignature)}
  {
    match ReadExact(file, pos, TARGET_PREFIX_LENGTH)
    case Err(e) => Parsed(Err(e), pos)
    case Ok(buffer) =>
      var data := TargetPrefixFromBytes(buffer);
      var result := if data.szSignature != TARGET_SIGNATURE then Err(Dfuse(InvalidTargetPrefixSignature)) else Ok(data);
      Parsed(result, pos + TARGET_PREFIX_LENGTH)
  }

  /** What ParseTargetPrefix reads, accepts and rejects, and where it
      leaves the cursor. */
  lemma ParseTargetPrefixSpec(file: seq<u8>, pos: nat)
    ensures var p := ParseTargetPrefix(file, pos);
      && p.pos == (if pos + TARGET_PREFIX_LENGTH <= |file| then pos + TARGET_PREFIX_LENGTH else pos)
      && (p.result.Ok? <==> pos + TARGET_PREFIX_LENGTH <= |file| && file[pos..pos + 6] == TARGET_SIGNATURE)
      && (p.result.Err? ==>
            p.result.error == if pos + TARGET_PREFIX_LENGTH <= |file| then Dfuse(InvalidTargetPrefixSignature) else Io)
      && (p.result.Ok? ==> p.result.value == TargetPrefixFromBytes(file[pos..pos + TARGET_PREFIX_LENGTH]))
  {
    if pos + TARGET_PREFIX_LENGTH <= |file| {
      assert file[pos..pos + TARGET_PREFIX_LENGTH][0..6] == file[pos..pos + 6];
    }
  }

  /** `TargetPrefix::from_file`: seek to the cursor, read 274 bytes, advance
      the cursor, check the signature. */
  method TargetPrefixFromFile(file: seq<u8>, filePos: nat) returns (r: Result<TargetPrefix>, filePos': nat)
    ensures Parsed(r, filePos') == ParseTargetPrefix(file, filePos)
  {
    filePos' := filePos;
    var read := ReadExact(file, filePos', TARGET_PREFIX_LENGTH);
    if read.Err? {
      return Err(read.error), filePos';
    }
    var buffer := read.value;
    filePos' := filePos' + TARGET_PREFIX_LENGTH;
    var data := TargetPrefixFromBytes(buffer);
    if data.szSignature != TARGET_SIGNATURE {
      return Err(Dfuse(InvalidTargetPrefixSignature)), filePos';
    }
    return Ok(data), filePos';
  }

  // ---------------------------------------------------------------------------
  // Image element (UM0391 section 2.3.3)

  datatype ImageElement = ImageElement(
    dwElementAddress: u32,  // start address of the data on the device
    dwElementSize: u32,     // number of data bytes
    dataPosition: nat)      // file offset of the first data byte

  /** `ImageElement::from_bytes`: the address and size fields, little-endian,
      at the data position given; no descriptor byte is lost. */
  function ElementFromBytes(buffer: seq<u8>, dataPosition: nat): (e: ImageElement)
    requires |buffer| == IMAGE_ELEMENT_LENGTH
    ensures e.dataPosition == dataPosition && ElementToBytes(e) == buffer
  {
    LeU32Bytes(buffer[0..4]);
    LeU32Bytes(buffer[4..8]);
    assert buffer == buffer[0..4] + buffer[4..8];
    ImageElement(LeU32(buffer[0..4]), LeU32(buffer[4..8]), dataPosition)
  }

  /** The 8-byte descriptor of `e`; the partner of ElementFromBytes. */
  function ElementToBytes(e: ImageElement): (b: seq<u8>)
    ensures |b| == IMAGE_ELEMENT_LENGTH
  {
    U32Le(e.dwElementAddress) + U32Le(e.dwElementSize)
  }

  /** Writing a descriptor and reading it back at the same data position
      gives back the element. */
  lemma ElementRoundTrip(e: ImageElement)
    ensures ElementFromBytes(ElementToBytes(e), e.dataPosition) == e
  {
    var b := ElementToBytes(e);
    assert b[0..4] == U32Le(e.dwElementAddress);
    assert b[4..8] == U32Le(e.dwElementSize);
  }

  /** The 8 descriptor bytes are determined by the decoded fields. */
  lemma ElementBytesRoundTrip(buffer: seq<u8>, dataPosition: nat)
    requires |buffer| == IMAGE_ELEMENT_LENGTH
    ensures ElementToBytes(ElementFromBytes(buffer, dataPosition)) == buffer
  {
  }

  /**
   * `ImageElement::from_file` as a function of the file and the cursor: the
   * descriptor is the 8 bytes at `pos`, its data starts right after them, and
   * the cursor skips the descriptor and the declared data without reading
   * the data.
   */
  function ParseElement(file: seq<u8>, pos: nat): (p: Parsed<ImageElement>)
    ensures p.pos >= pos
    ensures p.result.Err? ==> p.result.error == Io
    ensures p.result.Ok? ==> p.pos == p.result.value.dataPosition + p.result.value.dwElementSize
  {
    match ReadExact(file, pos, IMAGE_ELEMENT_LENGTH)
    case Err(e) => Parsed(Err(e), pos)
    case Ok(buffer) =>
      var dataPosition := pos + IMAGE_ELEMENT_LENGTH;
      var data := ElementFromBytes(buffer, dataPosition);
      Parsed(Ok(data), dataPosition + data.dwElementSize)
  }

  /** What ParseElement reads and where it leaves the cursor: the
      descriptor is the 8 bytes at `pos`, the data starts right after them,
      and the cursor skips the data. */
  lemma ParseElementSpec(file: seq<u8>, pos: nat)
    ensures var p := ParseElement(file, pos);
      && (p.result.Ok? <==> pos + IMAGE_ELEMENT_LENGTH <= |file|)
      && (p.result.Err? ==> p == Parsed(Err(Io), pos))
      && (p.result.Ok? ==>
            && p.result.value.dataPosition == pos + IMAGE_ELEMENT_LENGTH
            && ElementToBytes(p.result.value) == file[pos..pos + IMAGE_ELEMENT_LENGTH]
            && p.pos == pos + IMAGE_ELEMENT_LENGTH + p.result.value.dwElementSize)
  {
    if pos + IMAGE_ELEMENT_LENGTH <= |file| {
      ElementBytesRoundTrip(file[pos..pos + IMAGE_ELEMENT_LENGTH], pos + IMAGE_ELEMENT_LENGTH);
    }
  }

  /** `ImageElement::from_file`: seek to the cursor, read the descriptor,
      advance the cursor past it, then past the data. */
  method ElementFromFile(file: seq<u8>, filePos: nat) returns (r: Result<ImageElement>, filePos': nat)
    ensures Parsed(r, filePos') == ParseElement(file, filePos)
  {
    filePos' := filePos;
    var read := ReadExact(file, filePos', IMAGE_ELEMENT_LENGTH);
    if read.Err? {
      return Err(read.error), filePos';
    }
    var buffer := read.value;
    filePos' := filePos' + IMAGE_ELEMENT_LENGTH;
    var data := ElementFromBytes(buffer, filePos');
    filePos' := filePos' + data.dwElementSize;
    return Ok(data), filePos';
  }

  /**
   * `ImageElement::read_at`: seek to `position` bytes into the element's
   * data and read once into `buffer`. The operating system may return fewer
   * bytes than asked (`raw`, any count up to the buffer length and the bytes
   * left in the file); the count reported is clipped so that it never reaches
   * past the element's data, although the buffer may hold bytes beyond it.
   *
   * The source computes `dwElementSize - position` in `u32`, which underflows
   * unless `position <= dwElementSize`.
   */
  method ReadAt(element: ImageElement, file: seq<u8>, position: u32, buffer: array<u8>)
    returns (count: nat, ghost raw: nat)
    requires position <= element.dwElementSize
    modifies buffer
    ensures raw <= buffer.Length
    ensures raw == 0 || element.dataPosition + position + raw <= |file|
    ensures forall i :: 0 <= i < raw ==> buffer[i] == file[element.dataPosition + position + i]
    ensures buffer[raw..] == old(buffer[raw..])
    ensures count == Min(raw, element.dwElementSize - position)
    ensures count <= element.dwElementSize - position && count <= buffer.Length
    ensures forall i :: 0 <= i < count ==> buffer[i] == file[element.dataPosition + position + i]
  {
    var filePos := element.dataPosition + position;
    var left := if filePos <= |file| then |file| - filePos else 0;
    var readSize: nat :| readSize <= buffer.Length && readSize <= left;
    forall i | 0 <= i < readSize {
      buffer[i] := file[filePos + i];
    }
    raw := readSize;
    count := Min(readSize, element.dwElementSize - position);
  }

  // ---------------------------------------------------------------------------
  // Images (UM0391 section 2.3.1) and the content of a DfuSe file

  datatype Image = Image(targetPrefix: TargetPrefix, imageElements: seq<ImageElement>)

  datatype Content = Content(prefix: Prefix, images: seq<Image>)

  /** Bytes of the file an element occupies: descriptor plus data. */
  function ElementSize(e: ImageElement): nat {
    IMAGE_ELEMENT_LENGTH + e.dwElementSize
  }

  /** Bytes of the file an image occupies: target prefix plus elements. */
  function ImageSize(image: Image): nat {
    TARGET_PREFIX_LENGTH + Span(ElementSize, image.imageElements)
  }

  /** ImageElement::from_file as a record reader of the element loop. */
  function ElementStep(file: seq<u8>): nat -> Parsed<ImageElement> {
    (pos: nat) => ParseElement(file, pos)
  }

  /** The loop of `Image::from_file` as a function: `count` elements read
      one after another from `pos`, stopping at the first error. */
  function ParseElements(file: seq<u8>, pos: nat, count: nat): Parsed<seq<ImageElement>> {
    ParseMany(ElementStep(file), pos, count)
  }

  /** `Image::from_file` as a function: a target prefix, then as many
      elements as it declares, right after it. */
  function ParseImage(file: seq<u8>, pos: nat): (p: Parsed<Image>)
    ensures p.result.Ok? ==> |p.result.value.imageElements| == p.result.value.targetPrefix.dwNbElements
  {
    var target := ParseTargetPrefix(file, pos);
    match target.result
    case Err(e) => Parsed(Err(e), target.pos)
    case Ok(targetPrefix) =>
      var elements := ParseElements(file, target.pos, targetPrefix.dwNbElements);
      match elements.result
      case Err(e) => Parsed(Err(e), elements.pos)
      case Ok(imageElements) => Parsed(Ok(Image(targetPrefix, imageElements)), elements.pos)
  }

  /** Image::from_file as a record reader of the image loop. */
  function ImageStep(file: seq<u8>): nat -> Parsed<Image> {
    (pos: nat) => ParseImage(file, pos)
  }

  /** The loop of `Content::from_file` as a function: `count` images read
      one after another from `pos`, stopping at the first error. */
  function ParseImages(file: seq<u8>, pos: nat, count: nat): Parsed<seq<Image>> {
    ParseMany(ImageStep(file), pos, count)
  }

  /**
   * `Content::from_file` as a function: a file too small for a prefix and a
   * suffix is rejected before anything is read; otherwise the prefix, then
   * `bTargets` images starting right after it.
   */
  function ParseContent(file: seq<u8>): (r: Result<Content>)
    ensures |file| < PREFIX_LENGTH + SUFFIX_LENGTH ==> r == Err(Dfuse(DfuseError.InsufficientFileSize))
    ensures |file| >= PREFIX_LENGTH + SUFFIX_LENGTH && file[..5] != DFUSE_SIGNATURE ==>
      r == Err(Dfuse(InvalidPrefixSignature))
    ensures r.Ok? ==> r.value.prefix == PrefixFromBytes(file[..PREFIX_LENGTH]) && r.value.prefix.szSignature == DFUSE_SIGNATURE
    ensures r.Ok? ==> |r.value.images| == r.value.prefix.bTargets
  {
    if |file| < PREFIX_LENGTH + SUFFIX_LENGTH then Err(Dfuse(DfuseError.InsufficientFileSize))
    else
      var prefix :- ParsePrefix(file);
      PrefixRoundTrip(prefix);
      var images :- ParseImages(file, PREFIX_LENGTH, prefix.bTargets).result;
      Ok(Content(prefix, images))
  }

  /** The element loop of `Image::from_file`: push `count` elements read
      one after another, stopping at the first error. */
  method ElementsFromFile(file: seq<u8>, filePos: nat, count: nat) returns (r: Result<seq<ImageElement>>, filePos': nat)
    ensures Parsed(r, filePos') == ParseElements(file, filePos, count)
  {
    filePos' := filePos;
    ghost var whole := ParseElements(file, filePos, count);
    var imageElements := [];
    PrependNothing(whole);
    for i := 0 to count
      invariant whole == Prepend(imageElements, ParseMany(ElementStep(file), filePos', count - i))
    {
      ParseManyStep(ElementStep(file), filePos', count - i, imageElements);
      var element;
      element, filePos' := ElementFromFile(file, filePos');
      if element.Err? {
        return Err(element.error), filePos';
      }
      imageElements := imageElements + [element.value];
    }
    ParseManyDone(imageElements, filePos');
    return Ok(imageElements), filePos';
  }

  /** `Image::from_file`: read the target prefix, then its `dwNbElements`
      elements, threading the caller's cursor. */
  method ImageFromFile(file: seq<u8>, filePos: nat) returns (r: Result<Image>, filePos': nat)
    ensures Parsed(r, filePos') == ParseImage(file, filePos)
  {
    var target;
    target, filePos' := TargetPrefixFromFile(file, filePos);
    if target.Err? {
      return Err(target.error), filePos';
    }
    var targetPrefix := target.value;
    var elements;
    elements, filePos' := ElementsFromFile(file, filePos', targetPrefix.dwNbElements);
    if elements.Err? {
      return Err(elements.error), filePos';
    }
    return Ok(Image(targetPrefix, elements.value)), filePos';
  }

  /** The image loop of `Content::from_file`: push `count` images read one
      after another, stopping at the first error. */
  method ImagesFromFile(file: seq<u8>, filePos: nat, count: nat) returns (r: Result<seq<Image>>, filePos': nat)
    ensures Parsed(r, filePos') == ParseImages(file, filePos, count)
  {
    filePos' := filePos;
    ghost var whole := ParseImages(file, filePos, count);
    var images := [];
    PrependNothing(whole);
    for i := 0 to count
      invariant whole == Prepend(images, ParseMany(ImageStep(file), filePos', count - i))
    {
      ParseManyStep(ImageStep(file), filePos', count - i, images);
      var image;
      image, filePos' := ImageFromFile(file, filePos');
      if image.Err? {
        return Err(image.error), filePos';
      }
      images := images + [image.value];
    }
    ParseManyDone(images, filePos');
    return Ok(images), filePos';
  }

  /** `Content::from_file`: check the file size, read the prefix, then
      `bTargets` images starting right after it. */
  method ContentFromFile(file: seq<u8>) returns (r: Result<Content>)
    ensures r == ParseContent(file)
  {
    var fileSize := |file|;
    if fileSize < PREFIX_LENGTH + SUFFIX_LENGTH {
      return Err(Dfuse(DfuseError.InsufficientFileSize));
    }
    var prefix :- PrefixFromFile(file);
    var images, _ := ImagesFromFile(file, PREFIX_LENGTH, prefix.bTargets);
    if images.Err? {
      return Err(images.error);
    }
    return Ok(Content(prefix, images.value));
  }

  // ---------------------------------------------------------------------------
  // Where the records of a DfuSe file lie

  /** The element `e` is stored at `pos`: its 8-byte descriptor is there
      and its data follows the descriptor. */
  predicate ElementAt(file: seq<u8>, pos: nat, e: ImageElement) {
    pos + IMAGE_ELEMENT_LENGTH <= |file|
    && e == ElementFromBytes(file[pos..pos + IMAGE_ELEMENT_LENGTH], pos + IMAGE_ELEMENT_LENGTH)
  }

  function ElementPlacement(file: seq<u8>): (nat, ImageElement) -> bool {
    (pos: nat, e: ImageElement) => ElementAt(file, pos, e)
  }

  /** The elements `es` are stored one after another from `pos`, each
      descriptor right after the previous element's data. */
  predicate ElementsAt(file: seq<u8>, pos: nat, es: seq<ImageElement>) {
    StoredAt(ElementPlacement(file), ElementSize, pos, es)
  }

  /** The image `image` is stored at `pos`: a target prefix with the
      "Target" signature, then its declared number of elements. */
  predicate ImageAt(file: seq<u8>, pos: nat, image: Image) {
    && pos + TARGET_PREFIX_LENGTH <= |file|
    && file[pos..pos + 6] == TARGET_SIGNATURE
    && image.targetPrefix == TargetPrefixFromBytes(file[pos..pos + TARGET_PREFIX_LENGTH])
    && |image.imageElements| == image.targetPrefix.dwNbElements
    && ElementsAt(file, pos + TARGET_PREFIX_LENGTH, image.imageElements)
  }

  function ImagePlacement(file: seq<u8>): (nat, Image) -> bool {
    (pos: nat, image: Image) => ImageAt(file, pos, image)
  }

  /** The images `images` are stored one after another from `pos`. */
  predicate ImagesAt(file: seq<u8>, pos: nat, images: seq<Image>) {
    StoredAt(ImagePlacement(file), ImageSize, pos, images)
  }

  /** ImageElement::from_file reads exactly the element stored at the
      cursor and moves the cursor past its descriptor and data. */
  lemma ElementStepReads(file: seq<u8>)
    ensures Accepts(ElementStep(file), ElementPlacement(file))
    ensures Advances(ElementStep(file), ElementSize)
    ensures forall pos: nat :: ElementStep(file)(pos).pos >= pos
    ensures forall pos: nat :: ElementStep(file)(pos).result.Err? ==> ElementStep(file)(pos).result.error == Io
  {
    forall pos: nat, e: ImageElement
      ensures ElementStep(file)(pos).result == Ok(e) <==> ElementPlacement(file)(pos, e)
    {
      ParseElementSpec(file, pos);
    }
  }

  /** The element loop reads `es` exactly when `count` elements are stored
      one after another from `pos`. */
  lemma ParseElementsLayout(file: seq<u8>, pos: nat, count: nat, es: seq<ImageElement>)
    ensures ParseElements(file, pos, count).result == Ok(es) <==> |es| == count && ElementsAt(file, pos, es)
  {
    ElementStepReads(file);
    ParseManyLayout(ElementStep(file), ElementPlacement(file), ElementSize, pos, count, es);
  }

  /** The element loop fails only with an I/O error, never moves the
      cursor backwards, and on success moves it past the descriptors and
      the data of all elements read. */
  lemma ParseElementsCursor(file: seq<u8>, pos: nat, count: nat)
    ensures var p := ParseElements(file, pos, count);
      && p.pos >= pos
      && (p.result.Err? ==> p.result.error == Io)
      && (p.result.Ok? ==> p.pos == pos + Span(ElementSize, p.result.value))
  {
    ElementStepReads(file);
    ParseManyForward(ElementStep(file), pos, count);
    ParseManyErrors(ElementStep(file), pos, count, {Io});
    ParseManySpan(ElementStep(file), ElementSize, pos, count);
  }

  /** Image::from_file reads `image` exactly when it is stored at the
      cursor: a valid target prefix, then its declared number of elements. */
  lemma ParseImageLayout(file: seq<u8>, pos: nat, image: Image)
    ensures ParseImage(file, pos).result == Ok(image) <==> ImageAt(file, pos, image)
  {
    ParseTargetPrefixSpec(file, pos);
    var target := ParseTargetPrefix(file, pos);
    if target.result.Ok? {
      ParseElementsLayout(file, target.pos, target.result.value.dwNbElements, image.imageElements);
    }
  }

  /** Image::from_file fails only with an I/O error or a bad target
      signature, never moves the cursor backwards, and on success moves it
      past the whole image. */
  lemma ParseImageCursor(file: seq<u8>, pos: nat)
    ensures var p := ParseImage(file, pos);
      && p.pos >= pos
      && (p.result.Err? ==> p.result.error in {Io, Dfuse(InvalidTargetPrefixSignature)})
      && (p.result.Ok? ==> p.pos == pos + ImageSize(p.result.value))
  {
    ParseTargetPrefixSpec(file, pos);
    var target := ParseTargetPrefix(file, pos);
    if target.result.Ok? {
      ParseElementsCursor(file, target.pos, target.result.value.dwNbElements);
    }
  }

  /** Image::from_file reads exactly the image stored at the cursor and
      moves the cursor past it. */
  lemma ImageStepReads(file: seq<u8>)
    ensures Accepts(ImageStep(file), ImagePlacement(file))
    ensures Advances(ImageStep(file), ImageSize)
    ensures forall pos: nat :: ImageStep(file)(pos).pos >= pos
    ensures forall pos: nat :: ImageStep(file)(pos).result.Err? ==>
      ImageStep(file)(pos).result.error in {Io, Dfuse(InvalidTargetPrefixSignature)}
  {
    forall pos: nat, image: Image
      ensures ImageStep(file)(pos).result == Ok(image) <==> ImagePlacement(file)(pos, image)
    {
      ParseImageLayout(file, pos, image);
    }
    forall pos: nat
      ensures ImageStep(file)(pos).pos >= pos
      ensures ImageStep(file)(pos).result.Err? ==>
        ImageStep(file)(pos).result.error in {Io, Dfuse(InvalidTargetPrefixSignature)}
      ensures ImageStep(file)(pos).result.Ok? ==>
        ImageStep(file)(pos).pos == pos + ImageSize(ImageStep(file)(pos).result.value)
    {
      ParseImageCursor(file, pos);
    }
  }

  /** The image loop reads `images` exactly when `count` images are stored
      one after another from `pos`. */
  lemma ParseImagesLayout(file: seq<u8>, pos: nat, count: nat, images: seq<Image>)
    ensures ParseImages(file, pos, count).result == Ok(images) <==> |images| == count && ImagesAt(file, pos, images)
  {
    ImageStepReads(file);
    ParseManyLayout(ImageStep(file), ImagePlacement(file), ImageSize, pos, count, images);
  }

  /** The image loop fails only with an I/O error or a bad target
      signature, never moves the cursor backwards, and on success moves it
      past all images read. */
  lemma ParseImagesCursor(file: seq<u8>, pos: nat, count: nat)
    ensures var p := ParseImages(file, pos, count);
      && p.pos >= pos
      && (p.result.Err? ==> p.result.error in {Io, Dfuse(InvalidTargetPrefixSignature)})
      && (p.result.Ok? ==> p.pos == pos + Span(ImageSize, p.result.value))
  {
    ImageStepReads(file);
    ParseManyForward(ImageStep(file), pos, count);
    ParseManyErrors(ImageStep(file), pos, count, {Io, Dfuse(InvalidTargetPrefixSignature)});
    ParseManySpan(ImageStep(file), ImageSize, pos, count);
  }

  /** Content::from_file succeeds with `c` exactly when the file is large
      enough, starts with a "DfuSe" prefix whose fields are `c.prefix`, and
      holds `bTargets` images one after another right after the prefix; the
      image loop then ends past the last image. */
  lemma ParseContentLayout(file: seq<u8>, c: Content)
    ensures ParseContent(file) == Ok(c) <==>
      && |file| >= PREFIX_LENGTH + SUFFIX_LENGTH
      && file[..5] == DFUSE_SIGNATURE
      && c.prefix == PrefixFromBytes(file[..PREFIX_LENGTH])
      && |c.images| == c.prefix.bTargets
      && ImagesAt(file, PREFIX_LENGTH, c.images)
    ensures ParseContent(file) == Ok(c) ==>
      ParseImages(file, PREFIX_LENGTH, c.prefix.bTargets).pos == PREFIX_LENGTH + Span(ImageSize, c.images)
  {
    if |file| >= PREFIX_LENGTH + SUFFIX_LENGTH && file[..5] == DFUSE_SIGNATURE {
      var prefix := PrefixFromBytes(file[..PREFIX_LENGTH]);
      ParseImagesLayout(file, PREFIX_LENGTH, prefix.bTargets, c.images);
      ParseImagesCursor(file, PREFIX_LENGTH, prefix.bTargets);
    }
  }

  /** In a parsed DfuSe file the `k`-th image lies right after the prefix
      and the images before it. */
  lemma ContentImageAt(file: seq<u8>, c: Content, k: nat)
    requires ParseContent(file) == Ok(c) && k < |c.images|
    ensures ImageAt(file, PREFIX_LENGTH + Span(ImageSize, c.images[..k]), c.images[k])
  {
    ParseContentLayout(file, c);
    StoredAtEach(ImagePlacement(file), ImageSize, PREFIX_LENGTH, c.images, k);
  }

  /** In an image stored at `pos`, the `j`-th element's descriptor lies
      after the target prefix and the elements before it, and its data
      right after the descriptor. */
  lemma ImageElementAt(file: seq<u8>, pos: nat, image: Image, j: nat)
    requires ImageAt(file, pos, image) && j < |image.imageElements|
    ensures var offset := pos + TARGET_PREFIX_LENGTH + Span(ElementSize, image.imageElements[..j]);
      && ElementAt(file, offset, image.imageElements[j])
      && image.imageElements[j].dataPosition == offset + IMAGE_ELEMENT_LENGTH
      && ElementToBytes(image.imageElements[j]) == file[offset..offset + IMAGE_ELEMENT_LENGTH]
  {
    var es := image.imageElements;
    StoredAtEach(ElementPlacement(file), ElementSize, pos + TARGET_PREFIX_LENGTH, es, j);
    var offset := pos + TARGET_PREFIX_LENGTH + Span(ElementSize, es[..j]);
    ElementBytesRoundTrip(file[offset..offset + IMAGE_ELEMENT_LENGTH], offset + IMAGE_ELEMENT_LENGTH);
  }

  // ---------------------------------------------------------------------------
  // Lookups

  /** `Iterator::find` over the images, as an index: the first image that
      satisfies `matches`, or None when none does. */
  function FirstMatch(images: seq<Image>, matches: Image -> bool): (r: Option<nat>)
    ensures r.Some? ==> r.value < |images| && matches(images[r.value])
    ensures r.Some? ==> forall j :: 0 <= j < r.value ==> !matches(images[j])
    ensures r.None? <==> forall j :: 0 <= j < |images| ==> !matches(images[j])
    decreases |images|
  {
    if images == [] then None
    else if matches(images[0]) then Some(0)
    else
      match FirstMatch(images[1..], matches)
      case None => None
      case Some(i) => Some(i + 1)
  }

  /** `Content::find_image_by_alt`: the first image meant for the alternate
      setting `altSetting`. */
  function FindImageByAlt(content: Content, altSetting: u8): (r: Option<Image>)
    ensures r.Some? ==> exists k :: 0 <= k < |content.images| && content.images[k] == r.value
                               && content.images[k].targetPrefix.bAlternateSetting == altSetting
                               && forall j :: 0 <= j < k ==> content.images[j].targetPrefix.bAlternateSetting != altSetting
    ensures r.None? <==> forall j :: 0 <= j < |content.images| ==>
      content.images[j].targetPrefix.bAlternateSetting != altSetting
  {
    match FirstMatch(content.images, (image: Image) => image.targetPrefix.bAlternateSetting == altSetting)
    case None => None
    case Some(k) => Some(content.images[k])
  }

  /** `Content::find_image_by_name`: the first image whose target name is
      `name`. */
  function FindImageByName(content: Content, name: seq<u8>): (r: Option<Image>)
    ensures r.Some? ==> exists k :: 0 <= k < |content.images| && content.images[k] == r.value
                               && content.images[k].targetPrefix.szTargetName == name
                               && forall j :: 0 <= j < k ==> content.images[j].targetPrefix.szTargetName != name
    ensures r.None? <==> forall j :: 0 <= j < |content.images| ==>
      content.images[j].targetPrefix.szTargetName != name
  {
    match FirstMatch(content.images, (image: Image) => image.targetPrefix.szTargetName == name)
    case None => None
    case Some(k) => Some(content.images[k])
  }

  /** The names read from a file are trimmed at their first zero byte, so a
      name holding a zero byte or longer than the name field is never found
      in a parsed DfuSe file. */
  lemma FindImageByNameUnreadable(file: seq<u8>, c: Content, name: seq<u8>)
    requires ParseContent(file) == Ok(c)
    requires 0 in name || |name| > TARGET_NAME_LENGTH
    ensures FindImageByName(c, name) == None
  {
    forall k | 0 <= k < |c.images|
      ensures c.images[k].targetPrefix.szTargetName != name
    {
      ContentImageAt(file, c, k);
    }
  }
}
