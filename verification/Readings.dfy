/** How texts are read: which of them are numbers, what they denote, and what normalizing a name does. */
module Readings {
  import opened Prelude
  import opened PyText
  import opened Numerals
  import opened Splitter
  import opened Scoring

  // ------------------------------------------------------------------ characters

  /** The ten characters `\s` and `str.strip()` take for white space. */
  predicate IsWhite(c: char) {
    c as int in {9, 10, 11, 12, 13, 28, 29, 30, 31, 32}
  }

  predicate AllWhite(s: string) {
    forall k :: 0 <= k < |s| ==> IsWhite(s[k])
  }

  lemma WhiteIsSpace(c: char)
    ensures IsWhite(c) <==> IsSpace(c)
  {
  }

  /** A text that is not white space throughout says something. */
  predicate Says(v: Value) {
    match v
    case Null => false
    case Num(_, _) => true
    case Text(text) => !AllWhite(text)
  }

  lemma SaysIsPresent(v: Value)
    ensures Says(v) <==> Present(v)
  {
    if v.Text? {
      var s := v.text;
      var i, j := SkipLead(s, 0), SkipTail(s, |s|);
      if i < |s| {
        assert !IsWhite(s[i]);
        assert j > i;
      }
    }
  }

  // ------------------------------------------------------------------ numbers

  /** 10 to the power n. */
  function PowerOfTen(n: nat): (p: nat)
    ensures p > 0
  {
    if n == 0 then 1 else 10 * PowerOfTen(n - 1)
  }

  /** Digits with at most one point before, among or after them. */
  predicate IsUnsigned(s: string, w: string, f: string) {
    && AllDigits(w) && AllDigits(f) && w + f != ""
    && (s == w + "." + f || (s == w && f == ""))
  }

  /** The number with digits w before and f after the point. */
  function Denoted(w: string, f: string): real
    requires AllDigits(w) && AllDigits(f)
  {
    ValueOf(w + f) as real / PowerOfTen(|f|) as real
  }

  lemma {:induction false} ValueAppend(a: string, b: string)
    requires AllDigits(a) && AllDigits(b)
    ensures ValueOf(a + b) == ValueOf(a) * PowerOfTen(|b|) + ValueOf(b)
  {
    if b == "" {
      assert a + b == a;
    } else {
      var init, last := b[..|b| - 1], b[|b| - 1];
      ValueAppend(a, init);
      assert (a + b)[..|a + b| - 1] == a + init;
      TimesTen(ValueOf(a), PowerOfTen(|init|), ValueOf(init));
    }
  }

  lemma TimesTen(a: nat, p: nat, b: nat)
    ensures 10 * (a * p + b) == a * (10 * p) + 10 * b
  {
  }

  /** The fraction digits denote is their value over a power of ten. */
  lemma {:induction false} FractionIsOverPower(f: string)
    requires AllDigits(f)
    ensures FractionOf(f) == ValueOf(f) as real / PowerOfTen(|f|) as real
  {
    if f != "" {
      var d, p, v := f[0] as int - 48, PowerOfTen(|f| - 1), ValueOf(f[1..]);
      FractionIsOverPower(f[1..]);
      ValueAppend([f[0]], f[1..]);
      assert [f[0]] + f[1..] == f;
      ValueSnoc("", f[0]);
      assert "" + [f[0]] == [f[0]];
      TenthOf(d, v, p);
    }
  }

  lemma TenthOf(d: nat, v: nat, p: nat)
    requires p > 0
    ensures (d as real + v as real / p as real) / 10.0 == (d * p + v) as real / (10 * p) as real
  {
    assert (d * p) as real == d as real * p as real;
    assert (10 * p) as real == 10.0 * p as real;
    assert d as real + v as real / p as real == (d as real * p as real + v as real) / p as real;
  }

  lemma DenotedParts(w: string, f: string)
    requires AllDigits(w) && AllDigits(f)
    ensures Denoted(w, f) == ValueOf(w) as real + FractionOf(f)
  {
    ValueAppend(w, f);
    FractionIsOverPower(f);
    WholeAndRest(ValueOf(w), ValueOf(f), PowerOfTen(|f|));
  }

  lemma WholeAndRest(a: nat, b: nat, p: nat)
    requires p > 0
    ensures (a * p + b) as real / p as real == a as real + b as real / p as real
  {
    assert (a * p) as real == a as real * p as real;
    assert (a * p + b) as real / p as real == (a as real * p as real) / p as real + b as real / p as real;
  }

  /** Which texts are read as a number without sign, and as which. */
  lemma UnsignedExactly(s: string)
    ensures ParseUnsigned(s).Some? <==> exists w, f :: IsUnsigned(s, w, f)
    ensures forall w, f :: IsUnsigned(s, w, f) ==> ParseUnsigned(s) == Some(Denoted(w, f))
  {
    forall w, f | IsUnsigned(s, w, f) ensures ParseUnsigned(s) == Some(Denoted(w, f)) {
      ReadUnsigned(s, w, f);
    }
    if ParseUnsigned(s).Some? {
      match FindFrom(s, ".", 0)
      case None => assert s + "" == s; assert IsUnsigned(s, s, "");
      case Some(k) =>
        assert s == s[..k] + s[k..k + 1] + s[k + 1..];
        assert IsUnsigned(s, s[..k], s[k + 1..]);
    }
  }

  lemma ReadUnsigned(s: string, w: string, f: string)
    requires IsUnsigned(s, w, f)
    ensures ParseUnsigned(s) == Some(Denoted(w, f))
  {
    DenotedParts(w, f);
    if s == w + "." + f {
      PointAfter(w, f);
    } else {
      NoPoint(s);
      assert w + f == w;
    }
  }

  lemma NoPoint(s: string)
    requires AllDigits(s)
    ensures FindFrom(s, ".", 0).None?
  {
    forall k: nat ensures !HasAt(s, ".", k) {
      if HasAt(s, ".", k) {
        OccurrenceStarts(s, ".", k);
      }
    }
  }

  /** A sign or none, digits, and at most one point. */
  predicate IsFloat(s: string, negative: bool, w: string, f: string) {
    if negative then s != "" && s[0] == '-' && IsUnsigned(s[1..], w, f) else IsUnsigned(s, w, f)
  }

  function Signed(negative: bool, x: real): real {
    if negative then -x else x
  }

  lemma NoSignInside(s: string, w: string, f: string)
    requires IsUnsigned(s, w, f)
    ensures s != "" && s[0] != '-'
  {
    if w != "" {
      assert s[0] == w[0];
    }
  }

  /** Which texts of digits, points and minus signs are numbers, and which numbers they are. */
  lemma FloatExactly(s: string)
    ensures ParseFloat(s).Some? <==> exists negative, w, f :: IsFloat(s, negative, w, f)
    ensures forall negative, w, f :: IsFloat(s, negative, w, f) ==>
              ParseFloat(s) == Some(Signed(negative, Denoted(w, f)))
  {
    UnsignedExactly(s);
    if s != "" {
      UnsignedExactly(s[1..]);
    }
    forall negative, w, f | IsFloat(s, negative, w, f)
      ensures ParseFloat(s) == Some(Signed(negative, Denoted(w, f)))
    {
      if !negative {
        NoSignInside(s, w, f);
      }
    }
    if ParseFloat(s).Some? {
      if s != "" && s[0] == '-' {
        var w, f :| IsUnsigned(s[1..], w, f);
        assert IsFloat(s, true, w, f);
      } else {
        var w, f :| IsUnsigned(s, w, f);
        assert IsFloat(s, false, w, f);
      }
    }
  }

  /** A digit, a point or a minus sign. */
  predicate MakesNumbers(c: char) {
    48 <= c as int <= 57 || c == '.' || c == '-'
  }

  /** What a text reads as: any other character may be taken out, and what is left is read as above. */
  lemma TextsRead(a: string, c: char, b: string)
    ensures !MakesNumbers(c) ==> ParseNumber(Text(a + ([c] + b))) == ParseNumber(Text(a + b))
    ensures (forall k :: 0 <= k < |a| ==> MakesNumbers(a[k])) ==> ParseNumber(Text(a)) == ParseFloat(a)
  {
    KeepNumericAppend(a, [c] + b);
    KeepNumericAppend([c], b);
    KeepNumericAppend(a, b);
    if !MakesNumbers(c) {
      assert KeepNumeric([c]) == "" && "" + KeepNumeric(b) == KeepNumeric(b);
    }
    if forall k :: 0 <= k < |a| ==> MakesNumbers(a[k]) {
      KeepNumericKeeps(a);
    }
  }

  /** An amount in whole cents, as a number or as printed dollars. */
  predicate IsAmount(v: Value, cents: int) {
    v == Text(Dollars(cents)) || (v.Num? && v.value == cents as real / 100.0)
  }

  lemma AmountReads(v: Value, cents: int)
    requires IsAmount(v, cents)
    ensures ParseNumber(v) == Some(cents as real / 100.0) && Says(v)
  {
    DollarsRoundTrip(cents);
    if v.Text? {
      assert v.text[0] == '$';
    }
  }

  /** A text without digits is no number. */
  lemma WithoutDigits(text: string)
    requires forall k :: 0 <= k < |text| ==> !(48 <= text[k] as int <= 57)
    ensures ParseNumber(Text(text)).None?
  {
    KeptWithoutDigits(text);
    var s := KeepNumeric(text);
    FloatExactly(s);
    forall negative, w, f ensures !IsFloat(s, negative, w, f) {
      if IsFloat(s, negative, w, f) {
        HasDigit(s, negative, w, f);
      }
    }
  }

  lemma HasDigit(s: string, negative: bool, w: string, f: string)
    requires IsFloat(s, negative, w, f)
    ensures exists k :: 0 <= k < |s| && IsDigit(s[k])
  {
    var u := if negative then s[1..] else s;
    if w != "" {
      assert u[0] == w[0];
    } else {
      assert u[1] == f[0];
    }
  }

  lemma {:induction false} KeptWithoutDigits(text: string)
    requires forall k :: 0 <= k < |text| ==> !IsDigit(text[k])
    ensures forall k :: 0 <= k < |KeepNumeric(text)| ==> !IsDigit(KeepNumeric(text)[k])
  {
    if text != "" {
      KeptWithoutDigits(text[1..]);
    }
  }

  // ------------------------------------------------------------------ names

  /** w is u with its capitals made small. */
  predicate IsLowered(u: string, w: string) {
    |u| == |w| && forall k :: 0 <= k < |u| ==>
      w[k] as int == u[k] as int + if 65 <= u[k] as int <= 90 then 32 else 0
  }

  /** A non-empty run of characters that are not white space. */
  predicate IsSolid(w: string) {
    w != "" && forall k :: 0 <= k < |w| ==> !IsWhite(w[k])
  }

  /** Words with the given runs of white space between them. */
  function Line(words: seq<string>, gaps: seq<string>): string
    requires |words| == |gaps| + 1
  {
    if gaps == [] then words[0] else words[0] + (gaps[0] + Line(words[1..], gaps[1..]))
  }

  predicate AreWords(words: seq<string>, gaps: seq<string>) {
    && |words| == |gaps| + 1
    && (forall k :: 0 <= k < |words| ==> IsSolid(words[k]))
    && forall k :: 0 <= k < |gaps| ==> AllWhite(gaps[k]) && gaps[k] != ""
  }

  predicate AreLowered(words: seq<string>, lows: seq<string>) {
    |words| == |lows| && forall k :: 0 <= k < |words| ==> IsLowered(words[k], lows[k])
  }

  lemma {:induction false} LineEnds(words: seq<string>, gaps: seq<string>)
    requires AreWords(words, gaps)
    ensures var s := Line(words, gaps); s != "" && !IsWhite(s[0]) && !IsWhite(s[|s| - 1])
  {
    if gaps != [] {
      LineEnds(words[1..], gaps[1..]);
    }
  }

  lemma LoweredText(u: string, w: string)
    requires IsLowered(u, w)
    ensures Lower(u) == w && (IsSolid(u) ==> IsSolid(w))
  {
    forall k | 0 <= k < |u| ensures Lower(u)[k] == w[k] && (IsWhite(w[k]) ==> IsWhite(u[k])) {
      LoweredChar(u[k], w[k]);
    }
  }

  lemma LoweredChar(c: char, d: char)
    requires d as int == c as int + if 65 <= c as int <= 90 then 32 else 0
    ensures LowerChar(c) == d && (IsWhite(d) ==> IsWhite(c))
  {
    assert LowerChar(c) as int == d as int;
  }

  lemma WhiteStays(gap: string)
    requires AllWhite(gap)
    ensures Lower(gap) == gap
  {
  }

  lemma LowerAppend(a: string, b: string)
    ensures Lower(a + b) == Lower(a) + Lower(b)
  {
  }

  lemma {:induction false} LowerOfLine(words: seq<string>, gaps: seq<string>, lows: seq<string>)
    requires AreWords(words, gaps) && AreLowered(words, lows)
    ensures Lower(Line(words, gaps)) == Line(lows, gaps) && AreWords(lows, gaps)
  {
    LoweredText(words[0], lows[0]);
    if gaps != [] {
      LowerOfLine(words[1..], gaps[1..], lows[1..]);
      LowerAppend(gaps[0], Line(words[1..], gaps[1..]));
      LowerAppend(words[0], gaps[0] + Line(words[1..], gaps[1..]));
      WhiteStays(gaps[0]);
      AreWordsCons(lows, gaps);
    }
  }

  lemma AreWordsCons(words: seq<string>, gaps: seq<string>)
    requires gaps != [] && |words| == |gaps| + 1 && IsSolid(words[0]) && AllWhite(gaps[0]) && gaps[0] != ""
    requires AreWords(words[1..], gaps[1..])
    ensures AreWords(words, gaps)
  {
    assert forall k :: 1 <= k < |words| ==> words[k] == words[1..][k - 1];
    assert forall k :: 1 <= k < |gaps| ==> gaps[k] == gaps[1..][k - 1];
  }

  lemma {:induction false} CollapseWord(w: string, rest: string, afterSpace: bool)
    requires IsSolid(w)
    ensures Collapse(w + rest, afterSpace) == w + Collapse(rest, false)
  {
    HeadOfAppend(w, rest);
    WhiteIsSpace(w[0]);
    if |w| == 1 {
      assert w[1..] + rest == rest;
    } else {
      CollapseWord(w[1..], rest, false);
    }
    HeadBack(w, Collapse(rest, false));
  }

  lemma HeadBack(w: string, rest: string)
    requires w != ""
    ensures [w[0]] + (w[1..] + rest) == w + rest
  {
  }

  lemma {:induction false} CollapseGap(gap: string, rest: string, afterSpace: bool)
    requires AllWhite(gap)
    ensures gap != "" ==> Collapse(gap + rest, afterSpace) == (if afterSpace then "" else " ") + Collapse(rest, true)
  {
    if gap != "" {
      HeadOfAppend(gap, rest);
      WhiteIsSpace(gap[0]);
      if |gap| == 1 {
        assert gap[1..] + rest == rest;
      } else {
        CollapseGap(gap[1..], rest, true);
      }
    }
  }

  lemma {:induction false} CollapseLine(words: seq<string>, gaps: seq<string>, afterSpace: bool)
    requires AreWords(words, gaps)
    ensures Collapse(Line(words, gaps), afterSpace) == Join(words, " ")
  {
    if gaps == [] {
      CollapseWord(words[0], "", afterSpace);
      assert words[0] + "" == words[0];
    } else {
      var rest := Line(words[1..], gaps[1..]);
      CollapseLine(words[1..], gaps[1..], true);
      CollapseGap(gaps[0], rest, false);
      CollapseWord(words[0], gaps[0] + rest, afterSpace);
      Associate(words[0], " ", Join(words[1..], " "));
    }
  }

  /** Normalizing keeps the words of a text, in small letters and with one blank between two of them,
      however they were spaced; of white space alone it leaves nothing. */
  lemma NormIsWords(lead: string, words: seq<string>, gaps: seq<string>, tail: string, lows: seq<string>)
    requires AllWhite(lead) && AllWhite(tail) && AreWords(words, gaps) && AreLowered(words, lows)
    ensures Norm(lead + Line(words, gaps) + tail) == Join(lows, " ") && Norm(lead) == ""
  {
    LineEnds(words, gaps);
    StripAround(lead, Line(words, gaps), tail);
    LowerOfLine(words, gaps, lows);
    CollapseLine(lows, gaps, false);
    SaysIsPresent(Text(lead));
  }
}
