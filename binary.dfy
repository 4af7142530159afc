/**
 * Bytes, fixed-width unsigned integers, their little-endian encoding and the
 * positioned read through which every parser sees the file.
 *
 * A DFU file is modelled as an immutable byte sequence. A `seek` to an
 * absolute offset followed by `read_exact` of `n` bytes becomes the slice
 * `file[pos..pos + n]`, which fails when it would run past the end.
 */
module Binary {
  import opened Errors

  type u8 = x: int | 0 <= x < 0x100
  type u16 = x: int | 0 <= x < 0x1_0000
  type u32 = x: int | 0 <= x < 0x1_0000_0000

  /** `u16::from_le_bytes`. */
  function LeU16(b: seq<u8>): u16
    requires |b| == 2
  {
    b[0] as int + 0x100 * b[1] as int
  }

  /** `u32::from_le_bytes`. */
  function LeU32(b: seq<u8>): u32
    requires |b| == 4
  {
    b[0] as int + 0x100 * (b[1] as int + 0x100 * (b[2] as int + 0x100 * b[3] as int))
  }

  /** `u16::to_le_bytes`: the inverse of LeU16. */
  function U16Le(x: u16): (b: seq<u8>)
    ensures |b| == 2 && LeU16(b) == x
  {
    [x % 0x100, x / 0x100]
  }

  /** `u32::to_le_bytes`: the inverse of LeU32. */
  function U32Le(x: u32): (b: seq<u8>)
    ensures |b| == 4 && LeU32(b) == x
  {
    var q1 := x / 0x100;
    var q2 := q1 / 0x100;
    var q3 := q2 / 0x100;
    [x % 0x100, q1 % 0x100, q2 % 0x100, q3]
  }

  /** Two bytes are determined by the value they encode. */
  lemma LeU16Bytes(b: seq<u8>)
    requires |b| == 2
    ensures U16Le(LeU16(b)) == b
  {
  }

  /** Four bytes are determined by the value they encode. */
  lemma LeU32Bytes(b: seq<u8>)
    requires |b| == 4
    ensures U32Le(LeU32(b)) == b
  {
  }

  /**
   * Seek to the absolute offset `pos` and `read_exact` `n` bytes. A seek
   * past the end succeeds, the read then fails with an unexpected end of
   * file: both are the I/O error of the model.
   */
  function ReadExact(file: seq<u8>, pos: nat, n: nat): (r: Result<seq<u8>>)
    ensures r.Ok? <==> pos + n <= |file|
    ensures r.Ok? ==> |r.value| == n && r.value == file[pos..pos + n]
    ensures r.Err? ==> r.error == Io
  {
    if pos + n <= |file| then Ok(file[pos..pos + n]) else Err(Io)
  }

  /** Index of the first occurrence of `x` in `s`, as `Iterator::position`
      or `str::find` of a single byte report it. */
  function IndexOf(s: seq<u8>, x: u8): (r: Option<nat>)
    ensures r.None? <==> x !in s
    ensures r.Some? ==> r.value < |s| && s[r.value] == x && x !in s[..r.value]
  {
    if |s| == 0 then None
    else if s[0] == x then Some(0)
    else
      match IndexOf(s[1..], x)
      case None => None
      case Some(i) =>
        assert s[..i + 1] == [s[0]] + s[1..][..i];
        Some(i + 1)
  }

  /** An occurrence of `x` with no earlier one is the one IndexOf reports. */
  lemma {:induction false} IndexOfFirst(s: seq<u8>, x: u8, n: nat)
    requires n < |s| && s[n] == x && x !in s[..n]
    ensures IndexOf(s, x) == Some(n)
  {
    if n > 0 {
      assert s[0] in s[..n];
      assert s[1..][..n - 1] == s[..n][1..];
      IndexOfFirst(s[1..], x, n - 1);
    }
  }

  /** `std::cmp::min`. */
  function Min(a: nat, b: nat): nat {
    if a <= b then a else b
  }

  datatype Option<+T> = None | Some(value: T) {
    function GetOr(default: T): T {
      match this
      case Some(v) => v
      case None => default
    }
  }
}
