/**
  The output side of the extractor (wad3xtract.c:130-137): the name of the
  .ppm file written for a texture and the text header "P6 <w> <h> 255\n"
  that precedes its RGB bytes. The width and height are uint32_t values
  handed to a %d conversion, so they are printed as the int32_t with the
  same bit pattern.
 */
module Ppm {
  import opened Bytes

  const ZERO: Byte := 0x30
  const MINUS: Byte := 0x2D
  const SPACE: Byte := 0x20

  predicate IsDigit(b: Byte) {
    ZERO <= b < ZERO + 10
  }

  predicate AllDigits(s: seq<Byte>) {
    forall i | 0 <= i < |s| :: IsDigit(s[i])
  }

  // --------------------------------------------------------------- numbers

  /**
    The decimal digits of n, most significant first: never empty, and
    beginning with '0' only for n == 0.
   */
  function Digits(n: nat): (r: seq<Byte>)
    ensures |r| > 0 && AllDigits(r)
    ensures r[0] == ZERO <==> n == 0
    ensures r[0] == ZERO ==> r == [ZERO]
    decreases n
  {
    if n < 10 then [ZERO + n] else Digits(n / 10) + [ZERO + n % 10]
  }

  /** The number a run of decimal digits denotes. */
  function DigitsValue(s: seq<Byte>): (n: nat)
    requires AllDigits(s)
  {
    if s == [] then 0 else 10 * DigitsValue(s[..|s| - 1]) + (s[|s| - 1] - ZERO)
  }

  /** Reading the digits of n back gives n. */
  lemma {:induction false} DigitsRoundTrip(n: nat)
    ensures DigitsValue(Digits(n)) == n
    decreases n
  {
    var r := Digits(n);
    if n >= 10 {
      DigitsRoundTrip(n / 10);
      assert r[..|r| - 1] == Digits(n / 10);
    }
  }

  /** Digits with a nonzero first digit denote a positive number. */
  lemma {:induction false} LeadingDigitPositive(s: seq<Byte>)
    requires |s| > 0 && AllDigits(s) && s[0] != ZERO
    ensures DigitsValue(s) > 0
    decreases |s|
  {
    if |s| > 1 {
      LeadingDigitPositive(s[..|s| - 1]);
    }
  }

  /**
    The digits of n are the only text without a superfluous leading '0'
    that reads back as n: what %d prints is determined by the number.
   */
  lemma {:induction false} DigitsUnique(s: seq<Byte>, n: nat)
    requires |s| > 0 && AllDigits(s) && DigitsValue(s) == n
    requires s[0] == ZERO ==> s == [ZERO]
    ensures s == Digits(n)
    decreases |s|
  {
    if |s| > 1 {
      var init := s[..|s| - 1];
      LeadingDigitPositive(init);
      assert n / 10 == DigitsValue(init) && n % 10 == s[|s| - 1] - ZERO;
      DigitsUnique(init, n / 10);
      assert s == init + [s[|s| - 1]];
    }
  }

  /** %d: an optional '-' and the digits of the magnitude. */
  function Decimal(i: int): (r: seq<Byte>)
    ensures |r| > 0
    ensures i < 0 <==> r[0] == MINUS
    ensures i >= 0 ==> AllDigits(r)
    ensures i < 0 ==> |r| > 1 && AllDigits(r[1..])
    ensures i < 0 ==> r[1] != ZERO
  {
    if i < 0 then [MINUS] + Digits(-i) else Digits(i)
  }

  /** The integer a %d conversion denotes. */
  function DecimalValue(s: seq<Byte>): int
    requires |s| > 0
    requires s[0] == MINUS ==> AllDigits(s[1..])
    requires s[0] != MINUS ==> AllDigits(s)
  {
    if s[0] == MINUS then -(DigitsValue(s[1..]) as int) else DigitsValue(s)
  }

  lemma DecimalRoundTrip(i: int)
    ensures DecimalValue(Decimal(i)) == i
  {
    if i < 0 {
      assert Decimal(i)[1..] == Digits(-i);
      DigitsRoundTrip(-i);
    } else {
      DigitsRoundTrip(i);
    }
  }

  /**
    Any text in the form %d prints (an optional '-' then digits, with no
    superfluous leading '0' and no "-0") that denotes i is Decimal(i).
   */
  lemma DecimalUnique(s: seq<Byte>, i: int)
    requires |s| > 0
    requires s[0] == MINUS ==> |s| > 1 && AllDigits(s[1..]) && s[1] != ZERO
    requires s[0] != MINUS ==> AllDigits(s) && (s[0] == ZERO ==> s == [ZERO])
    requires DecimalValue(s) == i
    ensures s == Decimal(i)
  {
    if s[0] == MINUS {
      LeadingDigitPositive(s[1..]);
      DigitsUnique(s[1..], -i);
      assert s == [MINUS] + s[1..];
    } else {
      DigitsUnique(s, i);
    }
  }

  // ---------------------------------------------------------------- header

  /** fprintf(fd, "P6 %d %d 255\n", width, height). */
  function PpmHeader(w: nat, h: nat): (r: seq<Byte>)
    requires w < TWO_32 && h < TWO_32
  {
    Ascii("P6 ") + Decimal(Int32Of(w)) + [SPACE] + Decimal(Int32Of(h)) + Ascii(" 255\n")
  }

  /** s up to the first occurrence of c, and what follows that occurrence; all of s and nothing when c does not occur. */
  function SplitAt(s: seq<Byte>, c: Byte): (r: (seq<Byte>, seq<Byte>))
    ensures |r.0| <= |s| && r.0 == s[..|r.0|]
    ensures forall i | 0 <= i < |r.0| :: r.0[i] != c
    ensures |r.0| < |s| ==> s[|r.0|] == c && r.1 == s[|r.0| + 1..]
  {
    if s == [] then ([], [])
    else if s[0] == c then ([], s[1..])
    else
      var t := SplitAt(s[1..], c);
      ([s[0]] + t.0, t.1)
  }

  /** Splitting at the first c of x + [c] + y gives x and y when x holds no c. */
  lemma {:induction false} SplitAtFirst(x: seq<Byte>, c: Byte, y: seq<Byte>)
    requires forall i | 0 <= i < |x| :: x[i] != c
    ensures SplitAt(x + [c] + y, c) == (x, y)
  {
    var s := x + [c] + y;
    if x == [] {
      assert s[1..] == y;
    } else {
      assert s[0] == x[0] && s[1..] == x[1..] + [c] + y;
      SplitAtFirst(x[1..], c, y);
      assert [x[0]] + x[1..] == x;
    }
  }

  /** A %d conversion holds no space. */
  lemma DecimalHasNoSpace(i: int)
    ensures forall k | 0 <= k < |Decimal(i)| :: Decimal(i)[k] != SPACE
  {
    var r := Decimal(i);
    forall k | 0 <= k < |r|
      ensures r[k] != SPACE
    {
      if i < 0 && k > 0 {
        assert r[k] == r[1..][k - 1];
      }
    }
  }

  /** The first four space-separated fields of s, the last one running to the end. */
  function Fields(s: seq<Byte>): (seq<Byte>, seq<Byte>, seq<Byte>, seq<Byte>) {
    var (f0, r1) := SplitAt(s, SPACE);
    var (f1, r2) := SplitAt(r1, SPACE);
    var (f2, r3) := SplitAt(r2, SPACE);
    (f0, f1, f2, r3)
  }

  /** The proof step of PpmHeaderFields that splits the header at its spaces. */
  lemma PpmHeaderSplits(w: nat, h: nat)
    requires w < TWO_32 && h < TWO_32
    ensures Fields(PpmHeader(w, h)) == (Ascii("P6"), Decimal(Int32Of(w)), Decimal(Int32Of(h)), Ascii("255\n"))
  {
    var dw, dh := Decimal(Int32Of(w)), Decimal(Int32Of(h));
    var tail := Ascii("255\n");
    DecimalHasNoSpace(Int32Of(w));
    DecimalHasNoSpace(Int32Of(h));
    assert PpmHeader(w, h) == Ascii("P6") + [SPACE] + (dw + [SPACE] + (dh + [SPACE] + tail));
    SplitAtFirst(Ascii("P6"), SPACE, dw + [SPACE] + (dh + [SPACE] + tail));
    SplitAtFirst(dw, SPACE, dh + [SPACE] + tail);
    SplitAtFirst(dh, SPACE, tail);
  }

  /**
    A reader of the header finds the magic "P6", then the int32_t values
    of the width and the height (the dimensions themselves below 2^31),
    then the maximum colour value 255.
   */
  lemma PpmHeaderFields(w: nat, h: nat)
    requires w < TWO_32 && h < TWO_32
    ensures var (magic, ws, hs, rest) := Fields(PpmHeader(w, h));
            && magic == Ascii("P6") && rest == Ascii("255\n")
            && ws == Decimal(Int32Of(w)) && hs == Decimal(Int32Of(h))
    ensures DecimalValue(Decimal(Int32Of(w))) == Int32Of(w) && DecimalValue(Decimal(Int32Of(h))) == Int32Of(h)
    ensures w < TWO_31 ==> DecimalValue(Decimal(Int32Of(w))) == w
    ensures h < TWO_31 ==> DecimalValue(Decimal(Int32Of(h))) == h
  {
    PpmHeaderSplits(w, h);
    DecimalRoundTrip(Int32Of(w));
    DecimalRoundTrip(Int32Of(h));
  }

  // ------------------------------------------------------------- file name

  /**
    strcpy/strcat: the output directory, then the entry's name up to its
    first NUL (all 16 bytes when it holds none), then ".ppm".
   */
  function TargetFile(dir: string, name: seq<Byte>): (r: string)
    ensures |r| == |dir| + |CString(name)| + 4
    ensures r[..|dir|] == dir && r[|r| - 4..] == ".ppm"
    ensures forall k | 0 <= k < |CString(name)| :: r[|dir| + k] as int == name[k] && name[k] != 0
  {
    dir + Chars(CString(name)) + ".ppm"
  }

  // ---------------------------------------------------------- an instance

  /** A name field whose first NUL is at k contributes its first k bytes. */
  lemma CStringStopsAtNul(name: seq<Byte>, k: nat)
    requires k < |name| && name[k] == 0
    requires forall i | 0 <= i < k :: name[i] != 0
    ensures CString(name) == name[..k]
  {
  }

  /** The name field "TEST", padded with NULs. */
  const TEST_NAME: seq<Byte> := [0x54, 0x45, 0x53, 0x54, 0, 0, 0, 0, 0, 0, 0, 0, 0, 0, 0, 0]

  /** The file written for the entry named TEST. */
  lemma TestFileName(dir: string)
    ensures TargetFile(dir, TEST_NAME) == dir + "TEST.ppm"
  {
    var name := TEST_NAME;
    assert name[4] == 0 && name[..4] == [0x54, 0x45, 0x53, 0x54];
    CStringStopsAtNul(name, 4);
    assert Chars([0x54, 0x45, 0x53, 0x54]) == "TEST";
  }

  /** The header of a 2 x 1 image. */
  lemma TwoByOneHeader()
    ensures PpmHeader(2, 1) == Ascii("P6 2 1 255\n")
  {
    assert Int32Of(2) == 2 && Int32Of(1) == 1;
    assert Decimal(2) == [0x32] && Decimal(1) == [0x31];
  }
}
