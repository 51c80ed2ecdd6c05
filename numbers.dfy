/**
 * Numbers as the pages see them. Amounts are whole numbers of cents. `CentsText` is what
 * JavaScript prints for such a number (template literals, `join`, `String(x)`), `Fixed2` is
 * `x.toFixed(2)`, and `ParseNumber` is `Number(s)` on the decimal forms the forms produce.
 */
module Numbers {
  import opened Wrappers
  import Text
  import Seqs

  predicate IsDigit(c: char)
  {
    '0' <= c <= '9'
  }

  predicate AllDigits(s: string)
  {
    forall k :: 0 <= k < |s| ==> IsDigit(s[k])
  }

  /** The characters a printed number is made of. */
  predicate IsNumeral(s: string)
  {
    forall k :: 0 <= k < |s| ==> IsDigit(s[k]) || s[k] == '-' || s[k] == '.'
  }

  function DigitValue(c: char): nat
    requires IsDigit(c)
  {
    c as int - '0' as int
  }

  function DigitChar(d: nat): (c: char)
    requires d < 10
    ensures IsDigit(c) && DigitValue(c) == d
  {
    ('0' as int + d) as char
  }

  /** Decimal digits of `n`, without leading zeros. */
  function NatText(n: nat): (r: string)
    ensures |r| >= 1 && AllDigits(r)
    ensures r[0] == '0' ==> n == 0
  {
    if n < 10 then [DigitChar(n)] else NatText(n / 10) + [DigitChar(n % 10)]
  }

  /** The number a string of decimal digits denotes. */
  function DigitsValue(s: string): nat
    requires AllDigits(s)
  {
    if s == [] then 0 else DigitsValue(s[..|s| - 1]) * 10 + DigitValue(s[|s| - 1])
  }

  lemma {:induction false} NatTextRoundTrip(n: nat)
    ensures DigitsValue(NatText(n)) == n
  {
    if n >= 10 {
      NatTextRoundTrip(n / 10);
      var r := NatText(n);
      assert r[..|r| - 1] == NatText(n / 10);
    }
  }

  /** `String(n)` for an integer `n`. */
  function IntText(n: int): string
  {
    if n < 0 then "-" + NatText(-n) else NatText(n)
  }

  function Magnitude(c: int): nat
  {
    if c < 0 then -c else c
  }

  function SignText(c: int): string
  {
    if c < 0 then "-" else ""
  }

  /** The fractional part `.d` or `.dd` of a cent remainder `f`, trailing zeros dropped. */
  function ShortFraction(f: nat): string
    requires f < 100
  {
    if f == 0 then ""
    else if f % 10 == 0 then ['.', DigitChar(f / 10)]
    else ['.', DigitChar(f / 10), DigitChar(f % 10)]
  }

  /** `String(c / 100)`: the shortest decimal form, as JavaScript prints a number. */
  function CentsText(c: int): (r: string)
    ensures IsNumeral(r) && r != []
  {
    SignText(c) + NatText(Magnitude(c) / 100) + ShortFraction(Magnitude(c) % 100)
  }

  /** `(c / 100).toFixed(2)`: always exactly two digits after the point. */
  function Fixed2(c: int): (r: string)
    ensures IsNumeral(r) && |r| >= 4 && r[|r| - 3] == '.'
  {
    var f := Magnitude(c) % 100;
    SignText(c) + NatText(Magnitude(c) / 100) + ['.', DigitChar(f / 10), DigitChar(f % 10)]
  }

  /** Position of the first `c` in `s`, or `|s|` when there is none. */
  function IndexOf(s: string, c: char): (k: nat)
    ensures k <= |s| && c !in s[..k]
    ensures k < |s| ==> s[k] == c
  {
    if s == [] then 0
    else if s[0] == c then 0
    else
      assert s[..1 + IndexOf(s[1..], c)] == [s[0]] + s[1..][..IndexOf(s[1..], c)];
      1 + IndexOf(s[1..], c)
  }

  /** The cents a fraction of at most two digits stands for: "" is 0, "5" is 50, "05" is 5. */
  function FractionCents(f: string): nat
    requires AllDigits(f) && |f| <= 2
  {
    if f == [] then 0
    else if |f| == 1 then 10 * DigitValue(f[0])
    else 10 * DigitValue(f[0]) + DigitValue(f[1])
  }

  /** An unsigned decimal `ddd`, `ddd.`, `.d`, `ddd.dd`, in cents; `None` for anything else. */
  function ParseUnsigned(b: string): Option<nat>
  {
    var k := IndexOf(b, '.');
    var whole := b[..k];
    var frac := if k < |b| then b[k + 1..] else [];
    if |whole| + |frac| == 0 || !AllDigits(whole) || !AllDigits(frac) || |frac| > 2 then None
    else Some(DigitsValue(whole) * 100 + FractionCents(frac))
  }

  /**
   * `Number(s)` in cents, with `None` for `NaN`: surrounding white space is ignored, an empty
   * or blank string is 0, and an optional sign may precede the unsigned decimal.
   */
  function ParseNumber(s: string): Option<int>
  {
    var t := Text.Trim(s);
    if t == [] then Some(0)
    else if t[0] == '-' then
      match ParseUnsigned(t[1..])
      case Some(v) => Some(0 - v as int)
      case None => None
    else if t[0] == '+' then
      match ParseUnsigned(t[1..])
      case Some(v) => Some(v)
      case None => None
    else
      match ParseUnsigned(t)
      case Some(v) => Some(v)
      case None => None
  }

  /** `Number(s)` where a whole number is expected (an id); `None` also for a fractional value. */
  function WholeNumber(s: string): Option<int>
  {
    match ParseNumber(s)
    case Some(v) => if v % 100 == 0 then Some(v / 100) else None
    case None => None
  }

  lemma {:induction false} IndexOfAfterPrefix(a: string, b: string, c: char)
    requires c !in a
    requires b == [] || b[0] == c
    ensures IndexOf(a + b, c) == |a|
  {
    if a == [] {
      assert a + b == b;
    } else {
      assert (a + b)[1..] == a[1..] + b;
      IndexOfAfterPrefix(a[1..], b, c);
    }
  }

  /** Whole digits, a point and at most two fraction digits read back as their cents. */
  lemma ParseUnsignedParts(d: string, frac: string)
    requires AllDigits(d) && d != [] && AllDigits(frac) && |frac| <= 2
    ensures ParseUnsigned(d + (['.'] + frac)) == Some(DigitsValue(d) * 100 + FractionCents(frac))
  {
    Seqs.ConcatAssoc(d, ['.'], frac);
    var body := d + ['.'] + frac;
    assert body == d + (['.'] + frac);
    assert '.' !in d by {
      assert forall k :: 0 <= k < |d| ==> IsDigit(d[k]);
    }
    IndexOfAfterPrefix(d, ['.'] + frac, '.');
    assert body[..|d|] == d;
    assert body[|d| + 1..] == frac;
  }

  /** Whole digits alone read back as whole units. */
  lemma ParseUnsignedWhole(d: string)
    requires AllDigits(d) && d != []
    ensures ParseUnsigned(d) == Some(DigitsValue(d) * 100)
  {
    assert '.' !in d by {
      assert forall k :: 0 <= k < |d| ==> IsDigit(d[k]);
    }
    IndexOfAfterPrefix(d, [], '.');
    assert d + [] == d;
    assert d[..|d|] == d;
  }

  /** A digit string followed by a printed fraction reads back as the cents it was made from. */
  lemma UnsignedRoundTrip(w: nat, f: nat)
    requires f < 100
    ensures ParseUnsigned(NatText(w) + ShortFraction(f)) == Some(w * 100 + f)
  {
    var d := NatText(w);
    NatTextRoundTrip(w);
    if f == 0 {
      assert d + ShortFraction(f) == d;
      ParseUnsignedWhole(d);
    } else {
      var frac := ShortFractionDigits(f);
      ParseUnsignedParts(d, frac);
    }
  }

  /** A nonzero fraction prints as a point and the one or two digits that read back as it. */
  lemma ShortFractionDigits(f: nat) returns (frac: string)
    requires 0 < f < 100
    ensures ShortFraction(f) == ['.'] + frac
    ensures AllDigits(frac) && |frac| <= 2 && FractionCents(frac) == f
  {
    if f % 10 == 0 {
      frac := [DigitChar(f / 10)];
    } else {
      frac := [DigitChar(f / 10), DigitChar(f % 10)];
    }
  }

  /** A strictly two-digit fraction reads back as its cents. */
  lemma FixedUnsignedRoundTrip(w: nat, f: nat)
    requires f < 100
    ensures ParseUnsigned(NatText(w) + ['.', DigitChar(f / 10), DigitChar(f % 10)]) == Some(w * 100 + f)
  {
    var d := NatText(w);
    var frac := [DigitChar(f / 10), DigitChar(f % 10)];
    NatTextRoundTrip(w);
    assert ['.', DigitChar(f / 10), DigitChar(f % 10)] == ['.'] + frac;
    assert FractionCents(frac) == f;
    ParseUnsignedParts(d, frac);
  }

  /** A printed number has no white space to trim. */
  lemma TrimNumeral(s: string)
    requires IsNumeral(s) && s != []
    ensures Text.Trim(s) == s
  {
    assert IsDigit(s[0]) || s[0] == '-' || s[0] == '.';
    assert IsDigit(s[|s| - 1]) || s[|s| - 1] == '-' || s[|s| - 1] == '.';
    Text.TrimNoEdgeSpace(s);
  }

  /** Reading back a sign followed by an unsigned decimal that reads as `m` gives the signed value. */
  lemma ParseSigned(c: int, body: string, s: string)
    requires body != [] && IsDigit(body[0])
    requires s == SignText(c) + body && IsNumeral(s)
    requires ParseUnsigned(body) == Some(Magnitude(c))
    ensures ParseNumber(s) == Some(c)
  {
    TrimNumeral(s);
    if c < 0 {
      assert s[0] == '-' && s[1..] == body;
      assert ParseNumber(s) == Some(0 - Magnitude(c));
    } else {
      assert s == body && s[0] != '-' && s[0] != '+';
      assert ParseNumber(s) == ParseUnsigned(body);
    }
  }

  /** What JavaScript prints for an amount, `Number` reads back as that amount. */
  lemma ParsePrinted(c: int)
    ensures ParseNumber(CentsText(c)) == Some(c)
  {
    var m := Magnitude(c);
    var w, f := m / 100, m % 100;
    assert w * 100 + f == m;
    UnsignedRoundTrip(w, f);
    var d, frac := NatText(w), ShortFraction(f);
    Seqs.ConcatAssoc(SignText(c), d, frac);
    assert d + frac != [] && (d + frac)[0] == d[0];
    ParseSigned(c, d + frac, CentsText(c));
  }

  /** What `toFixed(2)` prints, `Number` reads back as the same amount. */
  lemma ParseFixed(c: int)
    ensures ParseNumber(Fixed2(c)) == Some(c)
  {
    var m := Magnitude(c);
    var w, f := m / 100, m % 100;
    assert w * 100 + f == m;
    FixedUnsignedRoundTrip(w, f);
    var d, tail := NatText(w), ['.', DigitChar(f / 10), DigitChar(f % 10)];
    Seqs.ConcatAssoc(SignText(c), d, tail);
    assert (d + tail)[0] == d[0];
    ParseSigned(c, d + tail, Fixed2(c));
  }

  /** An amount as a page displays it with `toFixed(2)`; `Number` reads it back as the same amount. */
  function Money(c: int): (r: string)
    ensures ParseNumber(r) == Some(c)
  {
    ParseFixed(c);
    Fixed2(c)
  }

  /** `Number(String(n))` is `n` for every integer `n`. */
  lemma WholeNumberOfIntText(n: int)
    ensures WholeNumber(IntText(n)) == Some(n)
  {
    ParseIntText(n);
    WholeOfHundredths(IntText(n), n);
  }

  /** A text `Number` reads as `n` hundreds of hundredths is the whole number `n`. */
  lemma WholeOfHundredths(s: string, n: int)
    requires ParseNumber(s) == Some(100 * n)
    ensures WholeNumber(s) == Some(n)
  {
    Hundreds(n);
  }

  lemma Hundreds(n: int)
    ensures (100 * n) % 100 == 0 && (100 * n) / 100 == n
  {
  }

  /** `Number(String(n))` is `n`, in hundredths. */
  lemma ParseIntText(n: int)
    ensures ParseNumber(IntText(n)) == Some(100 * n)
  {
    WholeCents(n);
    ParsePrinted(100 * n);
  }

  /** A whole number of units prints as the integer. */
  lemma WholeCents(n: int)
    ensures CentsText(100 * n) == IntText(n)
  {
    var c := 100 * n;
    assert Magnitude(c) == 100 * Magnitude(n);
    assert Magnitude(c) / 100 == Magnitude(n) && Magnitude(c) % 100 == 0;
    assert ShortFraction(0) == [];
    if n < 0 {
      assert SignText(c) == "-";
    } else {
      assert SignText(c) + NatText(n) == NatText(n);
    }
  }

  /** An empty or blank field counts as 0, as `Number("")` does. */
  lemma ParseBlank(s: string)
    requires Text.IsBlank(s)
    ensures ParseNumber(s) == Some(0)
  {
  }
}
