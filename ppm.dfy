/** The text header of the plain PPM image written before any pixel:
    `P3`, then `<width> <height>`, then the maximum channel value `255`, each
    on its own line.  A reader of the format recovers the width and height
    from it, and whatever follows the header is left for the pixel lines. */
module Ppm {

  datatype Option<T> = None | Some(value: T)

  predicate IsDigit(c: char) { '0' <= c <= '9' }

  predicate AllDigits(t: string) { forall k :: 0 <= k < |t| ==> IsDigit(t[k]) }

  function DigitChar(d: nat): (c: char)
    requires d < 10
    ensures IsDigit(c)
  {
    ['0','1','2','3','4','5','6','7','8','9'][d]
  }

  function DigitValue(c: char): (d: nat)
    requires IsDigit(c)
    ensures d < 10
  {
    (c as int - '0' as int) as nat
  }

  /** The decimal text `operator<<` writes for a non-negative int. */
  function Decimal(n: nat): (t: string)
    ensures |t| > 0 && AllDigits(t)
  {
    if n < 10 then [DigitChar(n)] else Decimal(n / 10) + [DigitChar(n % 10)]
  }

  /** The number a run of decimal digits denotes. */
  function Value(t: string): nat
    requires AllDigits(t)
  {
    if |t| == 0 then 0 else Value(t[..|t| - 1]) * 10 + DigitValue(t[|t| - 1])
  }

  lemma DigitRoundTrip(d: nat)
    requires d < 10
    ensures DigitValue(DigitChar(d)) == d
  {
  }

  /** Decimal text reads back as the number it was written from. */
  lemma {:induction false} DecimalValue(n: nat)
    ensures Value(Decimal(n)) == n
  {
    DigitRoundTrip(n % 10);
    if n >= 10 {
      var t := Decimal(n);
      assert t[..|t| - 1] == Decimal(n / 10);
      DecimalValue(n / 10);
    }
  }

  /** Length of the run of digits at the front of t. */
  function DigitRun(t: string): (k: nat)
    ensures k <= |t| && AllDigits(t[..k])
    ensures k < |t| ==> !IsDigit(t[k])
  {
    if |t| > 0 && IsDigit(t[0]) then
      var k := 1 + DigitRun(t[1..]);
      assert t[..k] == [t[0]] + t[1..][..k - 1];
      k
    else 0
  }

  /** Reads a non-empty run of digits at the front of t and returns its
      value with the text after it; None when t does not start with a digit. */
  function ReadNat(t: string): Option<(nat, string)>
  {
    var k := DigitRun(t);
    if k == 0 then None else Some((Value(t[..k]), t[k..]))
  }

  lemma {:induction false} DigitRunAppend(ds: string, rest: string)
    requires AllDigits(ds)
    requires rest == [] || !IsDigit(rest[0])
    ensures DigitRun(ds + rest) == |ds|
    decreases |ds|
  {
    if |ds| > 0 {
      assert (ds + rest)[1..] == ds[1..] + rest;
      DigitRunAppend(ds[1..], rest);
    } else {
      assert ds + rest == rest;
    }
  }

  /** The digits of n followed by text that does not start with a digit read
      back as n and that text. */
  lemma ReadDecimal(n: nat, rest: string)
    requires rest == [] || !IsDigit(rest[0])
    ensures ReadNat(Decimal(n) + rest) == Some((n, rest))
  {
    var t := Decimal(n);
    DigitRunAppend(t, rest);
    assert (t + rest)[..|t|] == t;
    assert (t + rest)[|t|..] == rest;
    DecimalValue(n);
  }

  /** The header line block `P3\n<width> <height>\n255\n`. */
  function Header(width: nat, height: nat): string
  {
    "P3\n" + Decimal(width) + " " + Decimal(height) + "\n255\n"
  }

  datatype Parsed = Parsed(width: nat, height: nat, body: string)

  /** A reader of the header: the magic line, the two dimensions separated
      by one space, and the maximum value 255; None for anything else. */
  function ParseHeader(t: string): Option<Parsed>
  {
    if |t| < 3 || t[..3] != "P3\n" then None
    else match ReadNat(t[3..])
      case None => None
      case Some((w, r1)) =>
        if |r1| == 0 || r1[0] != ' ' then None
        else match ReadNat(r1[1..])
          case None => None
          case Some((h, r2)) =>
            if |r2| < 5 || r2[..5] != "\n255\n" then None
            else Some(Parsed(w, h, r2[5..]))
  }

  lemma ParseHeaderParts(t: string, w: nat, r1: string, h: nat, r2: string)
    requires |t| >= 3 && t[..3] == "P3\n" && ReadNat(t[3..]) == Some((w, r1))
    requires |r1| > 0 && r1[0] == ' ' && ReadNat(r1[1..]) == Some((h, r2))
    requires |r2| >= 5 && r2[..5] == "\n255\n"
    ensures ParseHeader(t) == Some(Parsed(w, h, r2[5..]))
  {
  }

  lemma ConcatSplit(a: string, b: string)
    ensures (a + b)[..|a|] == a && (a + b)[|a|..] == b
  {
  }

  /** The header written for a width and height parses back to exactly that
      width and height, and leaves whatever follows it untouched. */
  lemma HeaderRoundTrip(width: nat, height: nat, body: string)
    ensures ParseHeader(Header(width, height) + body) == Some(Parsed(width, height, body))
  {
    var magic, maxval := "P3\n", "\n255\n";
    var dw, dh := Decimal(width), Decimal(height);
    var tail := maxval + body;
    var r1 := [' '] + (dh + tail);
    var t := Header(width, height) + body;
    assert t == magic + (dw + r1);
    ConcatSplit(magic, dw + r1);
    ReadDecimal(width, r1);
    ConcatSplit([' '], dh + tail);
    ReadDecimal(height, tail);
    ConcatSplit(maxval, body);
    ParseHeaderParts(t, width, r1, height, tail);
  }

  /** The header of the default 400 x 225 image. */
  lemma DefaultHeader()
    ensures Header(400, 225) == "P3\n400 225\n255\n"
  {
    assert Decimal(400) == "400" by {
      assert Decimal(4) == "4" && Decimal(40) == "40";
    }
    assert Decimal(225) == "225" by {
      assert Decimal(2) == "2" && Decimal(22) == "22";
    }
  }

  /** Distinct image sizes give distinct headers. */
  lemma HeaderInjective(w1: nat, h1: nat, w2: nat, h2: nat)
    requires Header(w1, h1) == Header(w2, h2)
    ensures w1 == w2 && h1 == h2
  {
    HeaderRoundTrip(w1, h1, []);
    HeaderRoundTrip(w2, h2, []);
  }
}
