/**
  Byte-level vocabulary: the archive is a sequence of bytes, and the
  fixed-size C structures are read field by field as little-endian
  integers (the layout an fread into a struct relies on, on the x86
  targets the program is built for).
 */
module Bytes {

  type Byte = b: int | 0 <= b < 256

  const TWO_16: int := 0x1_0000
  const TWO_31: int := 0x8000_0000
  const TWO_32: int := 0x1_0000_0000

  /** The uint16_t stored little-endian at a[p..p+2]. */
  function U16At(a: seq<Byte>, p: nat): (v: nat)
    requires p + 2 <= |a|
    ensures v < TWO_16
    ensures v % 0x100 == a[p] && v / 0x100 == a[p + 1]
  {
    a[p] as int + 0x100 * (a[p + 1] as int)
  }

  /** The uint32_t stored little-endian at a[p..p+4]. */
  function U32At(a: seq<Byte>, p: nat): (v: nat)
    requires p + 4 <= |a|
    ensures v < TWO_32
  {
    a[p] as int + 0x100 * (a[p + 1] as int) + 0x1_0000 * (a[p + 2] as int) + 0x100_0000 * (a[p + 3] as int)
  }

  /** The value a 32-bit pattern has when read as an int32_t (two's complement). */
  function Int32Of(u: nat): (i: int)
    requires u < TWO_32
    ensures -TWO_31 <= i < TWO_31
    ensures i % TWO_32 == u
  {
    if u < TWO_31 then u else u - TWO_32
  }

  /** The int32_t stored little-endian at a[p..p+4]. */
  function I32At(a: seq<Byte>, p: nat): (i: int)
    requires p + 4 <= |a|
    ensures -TWO_31 <= i < TWO_31
    ensures i % TWO_32 == U32At(a, p)
  {
    Int32Of(U32At(a, p))
  }

  /** Little-endian encoding of a uint16_t. */
  function U16Bytes(v: nat): (r: seq<Byte>)
    requires v < TWO_16
    ensures |r| == 2 && U16At(r, 0) == v
  {
    [v % 0x100, v / 0x100]
  }

  /** Little-endian encoding of a uint32_t. */
  function U32Bytes(v: nat): (r: seq<Byte>)
    requires v < TWO_32
    ensures |r| == 4 && U32At(r, 0) == v
  {
    var q1 := v / 0x100;
    var q2 := q1 / 0x100;
    var q3 := q2 / 0x100;
    assert v == v % 0x100 + 0x100 * (q1 % 0x100) + 0x1_0000 * (q2 % 0x100) + 0x100_0000 * q3;
    [v % 0x100, q1 % 0x100, q2 % 0x100, q3]
  }

  /** Little-endian two's-complement encoding of an int32_t. */
  function I32Bytes(i: int): (r: seq<Byte>)
    requires -TWO_31 <= i < TWO_31
    ensures |r| == 4 && I32At(r, 0) == i
  {
    U32Bytes(i % TWO_32)
  }

  /** Decoding four bytes and encoding the value again gives the same four bytes. */
  lemma U32BytesOfU32At(a: seq<Byte>, p: nat)
    requires p + 4 <= |a|
    ensures U32Bytes(U32At(a, p)) == a[p..p + 4]
  {
    var v := U32At(a, p);
    var x := a[p + 2] as int + 0x100 * (a[p + 3] as int);
    var w := a[p + 1] as int + 0x100 * x;
    assert v == a[p] as int + 0x100 * w;
    assert v / 0x100 == w && v % 0x100 == a[p];
    assert w / 0x100 == x && w % 0x100 == a[p + 1];
    assert x / 0x100 == a[p + 3] && x % 0x100 == a[p + 2];
  }

  /** A field read from inside a larger buffer reads the bytes of that buffer. */
  lemma U32AtShift(a: seq<Byte>, b: seq<Byte>, p: nat, q: nat)
    requires p + 4 <= |a| && q + 4 <= |b|
    requires a[p..p + 4] == b[q..q + 4]
    ensures U32At(a, p) == U32At(b, q)
  {
    assert a[p] == a[p..p + 4][0] == b[q..q + 4][0] == b[q];
    assert a[p + 1] == a[p..p + 4][1] == b[q..q + 4][1] == b[q + 1];
    assert a[p + 2] == a[p..p + 4][2] == b[q..q + 4][2] == b[q + 2];
    assert a[p + 3] == a[p..p + 4][3] == b[q..q + 4][3] == b[q + 3];
  }

  /** A field read from a slice of the archive is the field at the matching archive position. */
  lemma U32AtSlice(a: seq<Byte>, lo: nat, hi: nat, k: nat)
    requires lo + k + 4 <= hi <= |a|
    ensures U32At(a[lo..hi], k) == U32At(a, lo + k)
  {
    var s := a[lo..hi];
    assert s[k] == a[lo + k] && s[k + 1] == a[lo + k + 1];
    assert s[k + 2] == a[lo + k + 2] && s[k + 3] == a[lo + k + 3];
  }

  /** Consecutive uint32_t fields, each encoded little-endian. */
  function U32Seq(fs: seq<nat>): (r: seq<Byte>)
    requires forall k | 0 <= k < |fs| :: fs[k] < TWO_32
    ensures |r| == 4 * |fs|
  {
    if fs == [] then [] else U32Bytes(fs[0]) + U32Seq(fs[1..])
  }

  /** Field k of an encoded run of fields is read back at byte 4k. */
  lemma {:induction false} U32SeqAt(fs: seq<nat>, k: nat)
    requires forall j | 0 <= j < |fs| :: fs[j] < TWO_32
    requires k < |fs|
    ensures U32At(U32Seq(fs), 4 * k) == fs[k]
  {
    var r := U32Seq(fs);
    if k == 0 {
      assert r[0..4] == U32Bytes(fs[0])[0..4];
      U32AtShift(r, U32Bytes(fs[0]), 0, 0);
    } else {
      U32SeqAt(fs[1..], k - 1);
      assert r[4 * k..4 * k + 4] == U32Seq(fs[1..])[4 * (k - 1)..4 * (k - 1) + 4];
      U32AtShift(r, U32Seq(fs[1..]), 4 * k, 4 * (k - 1));
    }
  }

  /**
    The contents of a fixed char[N] name field as C string functions see
    it: the bytes before the first NUL, or the whole field when it holds
    none.
   */
  function CString(field: seq<Byte>): (s: seq<Byte>)
    ensures |s| <= |field| && s == field[..|s|]
    ensures forall i | 0 <= i < |s| :: s[i] != 0
    ensures |s| < |field| ==> field[|s|] == 0
  {
    if field == [] || field[0] == 0 then [] else [field[0]] + CString(field[1..])
  }

  /** A byte sequence seen as the C chars it holds. */
  function Chars(bs: seq<Byte>): (s: string)
    ensures |s| == |bs| && forall i | 0 <= i < |bs| :: s[i] as int == bs[i]
  {
    seq(|bs|, i requires 0 <= i < |bs| => bs[i] as char)
  }

  predicate IsAscii(s: string) {
    forall i | 0 <= i < |s| :: s[i] as int < 128
  }

  /** The bytes of an ASCII text. */
  function Ascii(s: string): (r: seq<Byte>)
    requires IsAscii(s)
    ensures |r| == |s| && forall i | 0 <= i < |s| :: r[i] == s[i] as int
  {
    seq(|s|, i requires 0 <= i < |s| => s[i] as int)
  }
}
