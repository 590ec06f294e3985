/** Decimal numerals: how Python writes an integer, groups thousands, and reads a float back.
    Arithmetic is exact. */
module Numerals {
  import opened Prelude
  import opened PyText

  predicate AllDigits(s: string) {
    forall k :: 0 <= k < |s| ==> IsDigit(s[k])
  }

  function DigitChar(d: nat): (c: char)
    requires d < 10
    ensures IsDigit(c) && c as int == 48 + d
  {
    (48 + d) as char
  }

  /** `str(n)` for a natural number. */
  function Dec(n: nat): (s: string)
    ensures s != "" && AllDigits(s)
    ensures n < 10 <==> |s| == 1
  {
    if n < 10 then [DigitChar(n)] else Dec(n / 10) + [DigitChar(n % 10)]
  }

  /** The number a string of digits denotes. */
  function ValueOf(s: string): nat
    requires AllDigits(s)
  {
    if s == "" then 0 else 10 * ValueOf(s[..|s| - 1]) + (s[|s| - 1] as int - 48)
  }

  lemma {:induction false} DecDenotes(n: nat)
    ensures ValueOf(Dec(n)) == n
  {
    if n < 10 {
      assert Dec(n)[..0] == "";
      assert ValueOf("") == 0;
    } else {
      DecDenotes(n / 10);
      assert Dec(n)[..|Dec(n)| - 1] == Dec(n / 10);
    }
  }

  lemma DecInjective(m: nat, n: nat)
    requires Dec(m) == Dec(n)
    ensures m == n
  {
    DecDenotes(m);
    DecDenotes(n);
  }

  lemma ValueSnoc(s: string, c: char)
    requires AllDigits(s) && IsDigit(c)
    ensures AllDigits(s + [c]) && ValueOf(s + [c]) == 10 * ValueOf(s) + (c as int - 48)
  {
    assert (s + [c])[..|s|] == s;
  }

  /** The fraction that digits after a point denote. */
  function FractionOf(s: string): real
    requires AllDigits(s)
  {
    if s == "" then 0.0 else ((s[0] as int - 48) as real + FractionOf(s[1..])) / 10.0
  }

  /** The number a run of digits with an optional point denotes, if `float()` accepts it. */
  function ParseUnsigned(s: string): Option<real> {
    match FindFrom(s, ".", 0)
    case None => if s != "" && AllDigits(s) then Some(ValueOf(s) as real) else None
    case Some(k) =>
      var w, f := s[..k], s[k + 1..];
      if AllDigits(w) && AllDigits(f) && |w| + |f| > 0
      then Some(ValueOf(w) as real + FractionOf(f))
      else None
  }

  /** `float(s)` for a string of digits, points and minus signs. */
  function ParseFloat(s: string): Option<real> {
    if s != "" && s[0] == '-' then
      match ParseUnsigned(s[1..])
      case None => None
      case Some(r) => Some(-r)
    else ParseUnsigned(s)
  }

  predicate IsNumeric(c: char) {
    IsDigit(c) || c == '.' || c == '-'
  }

  function IfNumeric(c: char): string {
    if IsNumeric(c) then [c] else ""
  }

  /** `re.sub(r"[^\d.\-]", "", s)`. */
  function KeepNumeric(s: string): string {
    if s == "" then "" else IfNumeric(s[0]) + KeepNumeric(s[1..])
  }

  lemma {:induction false} KeepNumericAppend(a: string, b: string)
    ensures KeepNumeric(a + b) == KeepNumeric(a) + KeepNumeric(b)
  {
    if a == "" {
      assert a + b == b;
    } else {
      HeadOfAppend(a, b);
      KeepNumericAppend(a[1..], b);
      Associate(IfNumeric(a[0]), KeepNumeric(a[1..]), KeepNumeric(b));
    }
  }

  lemma {:induction false} KeepNumericKeeps(s: string)
    requires forall k :: 0 <= k < |s| ==> IsNumeric(s[k])
    ensures KeepNumeric(s) == s
  {
    if s != "" {
      KeepNumericKeeps(s[1..]);
    }
  }

  // ------------------------------------------------------------------ dollars and cents

  function Pad2(n: nat): (s: string)
    requires n < 100
    ensures |s| == 2 && AllDigits(s)
  {
    [DigitChar(n / 10), DigitChar(n % 10)]
  }

  function Pad3(n: nat): (s: string)
    requires n < 1000
    ensures |s| == 3 && AllDigits(s)
  {
    [DigitChar(n / 100)] + Pad2(n % 100)
  }

  /** `format(n, ",")`: thousands separated by commas. */
  function Grouped(n: nat): string {
    if n < 1000 then Dec(n) else Grouped(n / 1000) + "," + Pad3(n % 1000)
  }

  /** `f"${x:,.2f}"` of an amount in whole cents. */
  function Dollars(cents: int): string {
    var a := if cents < 0 then -cents else cents;
    "$" + (if cents < 0 then "-" else "") + Grouped(a / 100) + "." + Pad2(a % 100)
  }

  lemma Pad3IsThreeMoreDigits(s: string, n: nat)
    requires AllDigits(s) && n < 1000
    ensures AllDigits(s + Pad3(n)) && ValueOf(s + Pad3(n)) == 1000 * ValueOf(s) + n
  {
    var p := Pad3(n);
    ValueSnoc(s, p[0]);
    ValueSnoc(s + [p[0]], p[1]);
    ValueSnoc(s + [p[0]] + [p[1]], p[2]);
    assert s + p == s + [p[0]] + [p[1]] + [p[2]];
  }

  /** Dropping the separators leaves the number's own digits, for any number of groups. */
  lemma {:induction false} GroupedDenotes(n: nat)
    ensures AllDigits(KeepNumeric(Grouped(n))) && KeepNumeric(Grouped(n)) != ""
    ensures ValueOf(KeepNumeric(Grouped(n))) == n
  {
    if n < 1000 {
      KeepNumericKeeps(Dec(n));
      DecDenotes(n);
    } else {
      var g, p := Grouped(n / 1000), Pad3(n % 1000);
      GroupedDenotes(n / 1000);
      KeepNumericAppend(g + ",", p);
      KeepNumericAppend(g, ",");
      KeepNumericKeeps(p);
      assert KeepNumeric(",") == "";
      assert KeepNumeric(g + ",") == KeepNumeric(g);
      Pad3IsThreeMoreDigits(KeepNumeric(g), n % 1000);
    }
  }

  /** Counted from the end, every fourth character is a comma, and all the others are digits, the first
      one among them. */
  predicate InThrees(s: string) {
    && s != "" && IsDigit(s[0])
    && forall i :: 0 <= i < |s| ==> if (|s| - i) % 4 == 0 then s[i] == ',' else IsDigit(s[i])
  }

  lemma {:induction false} GroupedInThrees(n: nat)
    ensures InThrees(Grouped(n))
  {
    if n < 1000 {
      AtMostThree(n);
    } else {
      GroupedInThrees(n / 1000);
      OneMoreGroup(Grouped(n / 1000), Pad3(n % 1000));
    }
  }

  lemma OneMoreGroup(g: string, p: string)
    requires InThrees(g) && |p| == 3 && AllDigits(p)
    ensures InThrees(g + "," + p)
  {
    var s := g + "," + p;
    forall i | 0 <= i < |g| ensures if (|s| - i) % 4 == 0 then s[i] == ',' else IsDigit(s[i]) {
      assert s[i] == g[i] && |s| - i == |g| - i + 4;
    }
  }

  lemma AtMostThree(n: nat)
    requires n < 1000
    ensures |Dec(n)| <= 3
  {
    assert n >= 10 ==> |Dec(n)| == |Dec(n / 10)| + 1;
    assert n >= 100 ==> |Dec(n / 10)| == |Dec(n / 100)| + 1;
  }

  lemma Pad2Denotes(n: nat)
    requires n < 100
    ensures FractionOf(Pad2(n)) == n as real / 100.0
  {
    var p := Pad2(n);
    assert p[1..] == [p[1]] && [p[1]][1..] == "";
    assert FractionOf([p[1]]) == (n % 10) as real / 10.0;
  }

  /** A point followed by two digits is read as hundredths. */
  lemma ParseCents(w: string, cents: nat)
    requires AllDigits(w) && w != "" && cents < 100
    ensures ParseUnsigned(w + "." + Pad2(cents)) == Some(ValueOf(w) as real + cents as real / 100.0)
  {
    PointAfter(w, Pad2(cents));
    Pad2Denotes(cents);
  }

  lemma PointAfter(w: string, f: string)
    requires AllDigits(w)
    ensures var s := w + "." + f;
            FindFrom(s, ".", 0) == Some(|w|) && s[..|w|] == w && s[|w| + 1..] == f
  {
    var s := w + "." + f;
    assert HasAt(s, ".", |w|);
    forall k: nat | k < |w| ensures !HasAt(s, ".", k) {
      assert s[k] == w[k] && IsDigit(w[k]);
    }
  }

  /** The ungrouped dollars and cents of an amount. */
  function UnsignedDollars(a: nat): string {
    KeepNumeric(Grouped(a / 100)) + "." + Pad2(a % 100)
  }

  /** Cleaning a printed amount leaves its sign, its ungrouped dollars and its cents. */
  lemma DollarsCleaned(cents: int)
    ensures var a: nat := if cents < 0 then -cents else cents;
            KeepNumeric(Dollars(cents)) ==
              if cents < 0 then "-" + UnsignedDollars(a) else UnsignedDollars(a)
  {
    var a: nat := if cents < 0 then -cents else cents;
    var sign := if cents < 0 then "-" else "";
    var g, p := Grouped(a / 100), Pad2(a % 100);
    SignCleaned(sign, g);
    CentsCleaned("$" + sign + g, p);
    Associate(sign, KeepNumeric(g), "." + p);
    Associate(KeepNumeric(g), ".", p);
    Associate("$" + sign + g, ".", p);
  }

  lemma CentsCleaned(s: string, p: string)
    requires AllDigits(p)
    ensures KeepNumeric(s + ("." + p)) == KeepNumeric(s) + ("." + p)
  {
    KeepNumericAppend(s, "." + p);
    KeepNumericKeeps("." + p);
  }

  lemma SignCleaned(sign: string, g: string)
    requires sign == "" || sign == "-"
    ensures KeepNumeric("$" + sign + g) == sign + KeepNumeric(g)
  {
    KeepNumericAppend("$" + sign, g);
    KeepNumericAppend("$", sign);
    KeepNumericKeeps(sign);
    assert KeepNumeric("$") == "";
  }

  lemma HundredthsAddUp(a: nat)
    ensures (a / 100) as real + (a % 100) as real / 100.0 == a as real / 100.0
  {
    assert a == 100 * (a / 100) + a % 100;
  }

  lemma UnsignedDollarsDenote(a: nat)
    ensures ParseUnsigned(UnsignedDollars(a)) == Some(a as real / 100.0)
    ensures UnsignedDollars(a)[0] != '-'
  {
    var w := KeepNumeric(Grouped(a / 100));
    GroupedDenotes(a / 100);
    ParseCents(w, a % 100);
    HundredthsAddUp(a);
    assert UnsignedDollars(a)[0] == w[0];
  }

  lemma SignedFloat(u: string)
    requires u != "" && u[0] != '-'
    ensures ParseFloat(u) == ParseUnsigned(u)
    ensures ParseUnsigned(u).Some? ==> ParseFloat("-" + u) == Some(-ParseUnsigned(u).value)
  {
    assert ("-" + u)[1..] == u;
  }

  /** Printing an amount and reading it back gives the amount. */
  lemma DollarsRoundTrip(cents: int)
    ensures ParseFloat(KeepNumeric(Dollars(cents))) == Some(cents as real / 100.0)
  {
    DollarsCleaned(cents);
    if cents < 0 {
      UnsignedDollarsDenote(-cents);
      SignedFloat(UnsignedDollars(-cents));
    } else {
      UnsignedDollarsDenote(cents);
      SignedFloat(UnsignedDollars(cents));
    }
  }

  /** The whole cents nearest to an amount. */
  function NearestCents(x: real): int {
    (100.0 * x + 0.5).Floor
  }

  /** Printing goes through a float: as long as the float is less than half a cent off the amount, the
      same text is printed, and reading it gives the amount. */
  lemma PrintedThroughFloat(cents: int, f: real)
    requires -0.005 < f - cents as real / 100.0 < 0.005
    ensures NearestCents(f) == cents
    ensures ParseFloat(KeepNumeric(Dollars(NearestCents(f)))) == Some(cents as real / 100.0)
  {
    assert cents as real < 100.0 * f + 0.5 < cents as real + 1.0;
    DollarsRoundTrip(cents);
  }
}
