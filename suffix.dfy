/**
 * The 16-byte DFU file suffix of the USB Device Firmware Upgrade class
 * specification, Revision 1.1, which every DFU file carries as its last
 * 16 bytes.
 *
 * Layout (all integers little-endian):
 *   0..2 bcdDevice, 2..4 idProduct, 4..6 idVendor, 6..8 bcdDFU,
 *   8..11 ucDFUSignature ("UFD"), 11 bLength, 12..16 dwCRC.
 */
module DfuSuffix {
  import opened Binary
  import opened Errors

  /** Length of the file suffix in bytes. */
  const SUFFIX_LENGTH: nat := 16

  /** "UFD": the letters of "DFU" in reversed order. */
  const SUFFIX_SIGNATURE: seq<u8> := [0x55, 0x46, 0x44]

  /** The suffix fields. The signature is kept as its three raw bytes. */
  datatype Suffix = Suffix(
    bcdDevice: u16,
    idProduct: u16,
    idVendor: u16,
    bcdDFU: u16,
    ucDFUSignature: seq<u8>,
    bLength: u8,
    dwCRC: u32)

  /** `Suffix::default`: no device, product or vendor restriction, a
      standard (non-DfuSe) file, no checksum yet; its 16 bytes pass the
      suffix check and read back as itself. */
  function DefaultSuffix(): (d: Suffix)
    ensures |d.ucDFUSignature| == 3 && ParseSuffix(SuffixToBytes(d)) == Ok(d)
  {
    var d := Suffix(0xFFFF, 0xFFFF, 0xFFFF, 0x0100, SUFFIX_SIGNATURE, SUFFIX_LENGTH as u8, 0);
    SuffixRoundTrip(d);
    assert SuffixToBytes(d)[8..11] == SUFFIX_SIGNATURE;
    d
  }

  /** `Suffix::from_bytes`: decodes the fields at their fixed offsets. */
  function SuffixFromBytes(buffer: seq<u8>): (s: Suffix)
    requires |buffer| == SUFFIX_LENGTH
    ensures |s.ucDFUSignature| == 3
  {
    Suffix(
      LeU16(buffer[0..2]),
      LeU16(buffer[2..4]),
      LeU16(buffer[4..6]),
      LeU16(buffer[6..8]),
      buffer[8..11],
      buffer[11],
      LeU32(buffer[12..16]))
  }

  /** The 16 bytes that decode to `s`; the partner of SuffixFromBytes. */
  function SuffixToBytes(s: Suffix): (b: seq<u8>)
    requires |s.ucDFUSignature| == 3
    ensures |b| == SUFFIX_LENGTH
  {
    U16Le(s.bcdDevice) + U16Le(s.idProduct) + U16Le(s.idVendor) + U16Le(s.bcdDFU)
      + s.ucDFUSignature + [s.bLength] + U32Le(s.dwCRC)
  }

  /** Encoding the fields and decoding them gives back the same values. */
  lemma SuffixRoundTrip(s: Suffix)
    requires |s.ucDFUSignature| == 3
    ensures SuffixFromBytes(SuffixToBytes(s)) == s
  {
    var b := SuffixToBytes(s);
    assert b[0..2] == U16Le(s.bcdDevice);
    assert b[2..4] == U16Le(s.idProduct);
    assert b[4..6] == U16Le(s.idVendor);
    assert b[6..8] == U16Le(s.bcdDFU);
    assert b[8..11] == s.ucDFUSignature;
    assert b[12..16] == U32Le(s.dwCRC);
  }

  /** Decoding loses nothing: the 16 bytes are determined by the fields. */
  lemma SuffixBytesRoundTrip(buffer: seq<u8>)
    requires |buffer| == SUFFIX_LENGTH
    ensures SuffixToBytes(SuffixFromBytes(buffer)) == buffer
  {
    LeU16Bytes(buffer[0..2]);
    LeU16Bytes(buffer[2..4]);
    LeU16Bytes(buffer[4..6]);
    LeU16Bytes(buffer[6..8]);
    LeU32Bytes(buffer[12..16]);
    assert buffer == buffer[0..2] + buffer[2..4] + buffer[4..6] + buffer[6..8]
      + buffer[8..11] + [buffer[11]] + buffer[12..16];
  }

  /**
   * `Suffix::from_file` as a function of the file: the last 16 bytes,
   * accepted exactly when their bytes 8..11 are "UFD". A file shorter than
   * the suffix cannot be seeked to 16 bytes before its end.
   */
  function ParseSuffix(file: seq<u8>): (r: Result<Suffix>)
    ensures r.Ok? <==> |file| >= SUFFIX_LENGTH && file[|file| - 8..|file| - 5] == SUFFIX_SIGNATURE
    ensures |file| < SUFFIX_LENGTH ==> r == Err(Io)
    ensures |file| >= SUFFIX_LENGTH && r.Err? ==> r.error == Dfu(InvalidSuffixSignature)
    ensures r.Ok? ==> r.value.ucDFUSignature == SUFFIX_SIGNATURE
    ensures r.Ok? ==> SuffixToBytes(r.value) == file[|file| - SUFFIX_LENGTH..]
  {
    if |file| < SUFFIX_LENGTH then Err(Io)
    else
      var trailer := file[|file| - SUFFIX_LENGTH..];
      assert trailer[8..11] == file[|file| - 8..|file| - 5];
      var data := SuffixFromBytes(trailer);
      SuffixBytesRoundTrip(trailer);
      if data.ucDFUSignature != SUFFIX_SIGNATURE then Err(Dfu(InvalidSuffixSignature))
      else Ok(data)
  }

  /** `Suffix::from_file`: seek to 16 bytes before the end, read the
      suffix, check its signature. */
  method SuffixFromFile(file: seq<u8>) returns (r: Result<Suffix>)
    ensures r == ParseSuffix(file)
  {
    if |file| < SUFFIX_LENGTH {
      // SeekFrom::End(-16) would land before the start of the file.
      return Err(Io);
    }
    // The seek succeeded, so the 16-byte read_exact cannot run short.
    var buffer := file[|file| - SUFFIX_LENGTH..];
    var data := SuffixFromBytes(buffer);
    if data.ucDFUSignature != SUFFIX_SIGNATURE {
      return Err(Dfu(InvalidSuffixSignature));
    }
    return Ok(data);
  }

  /** The suffix parse depends on the last 16 bytes of the file only. */
  lemma ParseSuffixOfTrailer(body: seq<u8>, trailer: seq<u8>)
    requires |trailer| == SUFFIX_LENGTH
    ensures ParseSuffix(body + trailer) == ParseSuffix(trailer)
  {
    var file := body + trailer;
    assert file[|file| - SUFFIX_LENGTH..] == trailer;
  }

  /** A file ending in the default suffix passes the suffix check, and the
      suffix read back is the default one. */
  lemma DefaultSuffixAccepted(body: seq<u8>)
    ensures ParseSuffix(body + SuffixToBytes(DefaultSuffix())) == Ok(DefaultSuffix())
  {
    var trailer := SuffixToBytes(DefaultSuffix());
    ParseSuffixOfTrailer(body, trailer);
    SuffixRoundTrip(DefaultSuffix());
    assert trailer[8..11] == SUFFIX_SIGNATURE;
  }
}
