/** However a term is spelled: the blanks, marks and braces it may be written with, and what is read. */
module Spellings {
  import opened Prelude
  import opened PyText
  import opened Payload
  import opened Grammar
  import opened Annotations

  // ------------------------------------------------------------------ the backticked token

  /** A token between backticks, with what stands before it and after it. */
  function Ticked(pre: string, token: string, annotation: string): string {
    pre + (['`'] + (token + (['`'] + annotation)))
  }

  lemma TickedParts(pre: string, token: string, annotation: string)
    ensures var s, i, n := Ticked(pre, token, annotation), |pre|, |token|;
            && |s| == i + n + 2 + |annotation| && s[..i] == pre && s[i] == '`'
            && s[i + 1..] == token + (['`'] + annotation)
            && s[i + 1..i + 1 + n] == token && s[i + n + 2..] == annotation
  {
  }

  lemma IndexIs(s: string, c: char, i: nat)
    requires i < |s| && s[i] == c && Lacks(s[..i], c)
    ensures IndexOf(s, c) == i
  {
    assert forall k :: 0 <= k < i ==> s[..i][k] == s[k];
  }

  lemma TickedAt(s: string, i: nat, n: nat)
    requires i < |s| && i == IndexOf(s, '`') && n == IndexOf(s[i + 1..], '`') && 0 < n < |s| - i - 1
    ensures FirstTicked(s) == Some((s[i + 1..i + 1 + n], s[i + n + 2..]))
  {
  }

  lemma TickIndex(token: string, annotation: string)
    requires Lacks(token, '`')
    ensures IndexOf(token + (['`'] + annotation), '`') == |token|
  {
    var s := token + (['`'] + annotation);
    assert s[..|token|] == token && s[|token|] == '`';
    IndexIs(s, '`', |token|);
  }

  /** The first pair of backticks with something between them delimits the token; what stands before it
      does not matter, and what follows it is the annotation. */
  lemma TokenRead(pre: string, token: string, annotation: string)
    requires Lacks(pre, '`') && Lacks(token, '`') && token != ""
    ensures FirstTicked(Ticked(pre, token, annotation)) == Some((token, annotation))
  {
    TickedParts(pre, token, annotation);
    IndexIs(Ticked(pre, token, annotation), '`', |pre|);
    TickIndex(token, annotation);
    TickedAt(Ticked(pre, token, annotation), |pre|, |token|);
  }

  /** Two backticks with nothing between them delimit nothing: the second may start a token. */
  lemma EmptyTicks(pre: string, rest: string)
    requires Lacks(pre, '`')
    ensures FirstTicked(pre + (['`'] + (['`'] + rest))) == FirstTicked(['`'] + rest)
  {
    var s := pre + (['`'] + (['`'] + rest));
    assert s == pre + ['`'] + (['`'] + rest);
    CutAtFirst(pre, '`', ['`'] + rest);
    assert ['`'] + rest == "" + ['`'] + rest;
    CutAtFirst("", '`', rest);
  }

  /** Without a second backtick there is no token. */
  lemma NoToken(pre: string, rest: string)
    requires Lacks(pre, '`') && Lacks(rest, '`')
    ensures FirstTicked(pre).None? && FirstTicked(pre + (['`'] + rest)).None?
  {
    assert pre + (['`'] + rest) == pre + ['`'] + rest;
    CutAtFirst(pre, '`', rest);
    IndexAfter(pre, '`', "");
    IndexAfter(rest, '`', "");
  }

  // ------------------------------------------------------------------ optionality marks

  function Marks(m: nat): string {
    seq(m, k => '?')
  }

  lemma MarksOff(c: string, m: nat)
    requires c == "" || LastOf(c) != '?'
    ensures DropMarks(c + Marks(m)) == c
  {
    var s := c + Marks(m);
    assert forall k :: |c| <= k < |s| ==> s[k] == '?';
    assert c != "" ==> s[|c| - 1] == LastOf(c);
    assert SkipTailOf(s, '?', '?', |s|) == |c|;
    assert s[..|c|] == c;
  }

  lemma BlankEnd(c: string, gap: string)
    requires Blank(gap) && c != "" && (LastOf(c) == '?' ==> gap != "")
    ensures c + gap != "" && LastOf(c + gap) != '?'
  {
    if gap == "" {
      assert c + gap == c;
    } else {
      LastOfAppend(c, gap);
    }
  }

  /** A declaration between backticks: its core, question marks, and blanks. */
  function TokenOf(lead: string, c: string, gap: string, m: nat, tail: string): string {
    lead + (c + gap + Marks(m)) + tail
  }

  /** The core of a declaration: no blanks around it, and no question mark at its end unless a blank
      keeps it apart from the ones after it. */
  predicate IsCore(c: string, gap: string, m: nat) {
    c != "" && Trimmed(c) && Lacks(c, '`') && Lacks(c, '|') && (LastOf(c) == '?' ==> gap != "" && m > 0)
  }

  /** A token without its blanks and question marks, of which any number make it optional. */
  lemma CoreRead(lead: string, c: string, gap: string, m: nat, tail: string)
    requires IsCore(c, gap, m) && Blank(lead) && Blank(gap) && Blank(tail)
    ensures var d := Strip(TokenOf(lead, c, gap, m, tail));
            (IsOptional(d) <==> m > 0) && Strip(DropMarks(d)) == c && d == if m > 0 then c + gap + Marks(m) else c
  {
    if m > 0 {
      MarkedRead(lead, c, gap, m, tail);
    } else {
      UnmarkedRead(lead, c, gap, tail);
    }
  }

  lemma MarkedRead(lead: string, c: string, gap: string, m: nat, tail: string)
    requires IsCore(c, gap, m) && Blank(lead) && Blank(gap) && Blank(tail) && m > 0
    ensures var d := c + gap + Marks(m);
            Strip(TokenOf(lead, c, gap, m, tail)) == d && IsOptional(d) && Strip(DropMarks(d)) == c
  {
    var d := c + gap + Marks(m);
    LastOfAppend(c + gap, Marks(m));
    assert d[0] == c[0];
    StripAround(lead, d, tail);
    BlankEnd(c, gap);
    MarksOff(c + gap, m);
    StripAround("", c, gap);
    assert "" + c + gap == c + gap;
  }

  lemma UnmarkedRead(lead: string, c: string, gap: string, tail: string)
    requires IsCore(c, gap, 0) && Blank(lead) && Blank(gap) && Blank(tail)
    ensures Strip(TokenOf(lead, c, gap, 0, tail)) == c && !IsOptional(c) && Strip(DropMarks(c)) == c
  {
    assert lead + (c + gap + Marks(0)) + tail == lead + c + (gap + tail);
    StripAround(lead, c, gap + tail);
    StripTrims(c);
    MarksOff(c, 0);
    assert c + Marks(0) == c;
  }

  lemma LacksAppend(a: string, b: string, c: char)
    ensures Lacks(a + b, c) <==> Lacks(a, c) && Lacks(b, c)
  {
    assert forall k :: 0 <= k < |a| ==> (a + b)[k] == a[k];
    assert forall k :: 0 <= k < |b| ==> (a + b)[|a| + k] == b[k];
  }

  lemma CoreLacks(c: string, gap: string, m: nat, x: char)
    requires IsCore(c, gap, m) && Blank(gap) && (x == '`' || x == '|')
    ensures Lacks(c + gap + Marks(m), x) && Lacks(gap, x)
  {
    LacksAppend(c, gap, x);
    LacksAppend(c + gap, Marks(m), x);
  }

  lemma TokenIsClean(lead: string, c: string, gap: string, m: nat, tail: string)
    requires IsCore(c, gap, m) && Blank(lead) && Blank(gap) && Blank(tail)
    ensures var token := TokenOf(lead, c, gap, m, tail);
            token != "" && Lacks(token, '`') && Lacks(Strip(token), '|')
  {
    CoreRead(lead, c, gap, m, tail);
    CoreLacks(c, gap, m, '|');
    CoreLacks(c, gap, m, '`');
    LacksAppend(lead, c + gap + Marks(m), '`');
    LacksAppend(lead + (c + gap + Marks(m)), tail, '`');
  }

  // ------------------------------------------------------------------ names, brackets and bounds

  /** A small letter followed by small letters, digits and underscores. */
  predicate IsFieldName(s: string) {
    && s != "" && 'a' <= s[0] <= 'z'
    && forall k :: 0 <= k < |s| ==> 'a' <= s[k] <= 'z' || '0' <= s[k] <= '9' || s[k] == '_'
  }

  lemma FieldNameIsName(s: string)
    ensures IsFieldName(s) <==> IsName(s)
  {
  }

  /** What may follow the name: nothing, an enum after `∈`, or a value after `=`. */
  datatype Bound = Unbounded | InSet(text: string) | EqualTo(text: string)

  function BoundText(b: Bound): string {
    match b
    case Unbounded => ""
    case InSet(text) => ['∈'] + text
    case EqualTo(text) => ['='] + text
  }

  function Brackets(listed: bool): string {
    if listed then "[]" else ""
  }

  /** x is the name n, with brackets or without, and blanks wherever one likes. */
  ghost predicate SpellsBase(x: string, n: string, listed: bool, g1: string, g2: string, g3: string) {
    && x == g1 + (n + g2 + Brackets(listed)) + g3 && Blank(g1) && Blank(g2) && Blank(g3) && Trimmed(n)
    && (!listed ==> g2 == "" && !IsListed(n))
  }

  lemma BaseRead(x: string, n: string, listed: bool, g1: string, g2: string, g3: string)
    requires SpellsBase(x, n, listed, g1, g2, g3)
    ensures IsListed(Strip(x)) == listed && NameOf(Strip(x)) == n
  {
    var b := n + g2 + Brackets(listed);
    if listed {
      ListedRead(x, n, g1, g2, g3);
    } else {
      assert b == n;
      if n == "" {
        BlankStrips(g1 + g3);
        assert x == g1 + g3;
      } else {
        StripAround(g1, n, g3);
      }
    }
  }

  lemma BlankStrips(s: string)
    requires Blank(s)
    ensures Strip(s) == ""
  {
  }

  lemma ListedRead(x: string, n: string, g1: string, g2: string, g3: string)
    requires x == g1 + (n + g2 + "[]") + g3 && Blank(g1) && Blank(g2) && Blank(g3) && Trimmed(n)
    ensures IsListed(Strip(x)) && NameOf(Strip(x)) == n
  {
    var b := n + g2 + "[]";
    if n != "" {
      StripAround(g1, b, g3);
      assert b[..|b| - 2] == n + g2;
      StripAround("", n, g2);
      assert "" + n + g2 == n + g2;
    } else {
      assert x == (g1 + g2) + "[]" + g3;
      StripAround(g1 + g2, "[]", g3);
      assert "[]"[..0] == "";
      BlankStrips("");
    }
  }

  /** c is a base x and a bound: the first `∈` starts it, and without one the first `=`. */
  predicate SpellsBound(c: string, x: string, b: Bound) {
    && c == x + BoundText(b) && Lacks(x, '∈')
    && (b.Unbounded? ==> Lacks(x, '='))
    && (b.EqualTo? ==> Lacks(x, '=') && Lacks(b.text, '∈'))
  }

  lemma BoundRead(c: string, x: string, b: Bound)
    requires SpellsBound(c, x, b) && Trimmed(c)
    ensures BaseOf(c) == Strip(x)
    ensures DeclaredEnum(c) == if b.InSet? then Some(Values(TrimOf(Strip(b.text), '{', '}'))) else None
    ensures DeclaredFixed(c) == if b.EqualTo? then Some(Strip(b.text)) else None
  {
    match b
    case Unbounded =>
      assert c == x;
      StripTrims(x);
      FreeRead(x);
    case InSet(text) => EnumBoundRead(c, x, text);
    case EqualTo(text) => FixedBoundRead(c, x, text);
  }

  lemma EnumBoundRead(c: string, x: string, text: string)
    requires c == x + (['∈'] + text) && Lacks(x, '∈')
    ensures BaseOf(c) == Strip(x) && DeclaredFixed(c) == None
    ensures DeclaredEnum(c) == Some(Values(TrimOf(Strip(text), '{', '}')))
  {
    assert c == x + ['∈'] + text;
    CutAtFirst(x, '∈', text);
  }

  lemma FixedBoundRead(c: string, x: string, text: string)
    requires c == x + (['='] + text) && Lacks(x, '∈') && Lacks(x, '=') && Lacks(text, '∈')
    ensures BaseOf(c) == Strip(x) && DeclaredEnum(c) == None && DeclaredFixed(c) == Some(Strip(text))
  {
    assert c == x + ['='] + text;
    CutAtFirst(x, '=', text);
    IndexAfter(c, '∈', "");
  }

  // ------------------------------------------------------------------ a spelled field

  /** The values an enum's text comes to, its braces aside. */
  ghost predicate SpellsValues(text: string, inner: string, g1: string, open: nat, close: nat, g2: string) {
    && text == g1 + (Braces('{', open) + inner + Braces('}', close)) + g2 && Blank(g1) && Blank(g2)
    && Trimmed(Braces('{', open) + inner + Braces('}', close))
    && (inner != "" ==> !IsBrace(inner[0]) && !IsBrace(LastOf(inner)))
  }

  function Braces(c: char, n: nat): string {
    seq(n, k => c)
  }

  lemma BracesOff(inner: string, open: nat, close: nat)
    requires inner != "" ==> !IsBrace(inner[0]) && !IsBrace(LastOf(inner))
    ensures TrimOf(Braces('{', open) + inner + Braces('}', close), '{', '}') == inner
  {
    var s := Braces('{', open) + inner + Braces('}', close);
    assert forall k :: 0 <= k < open ==> s[k] == '{';
    assert forall k :: open + |inner| <= k < |s| ==> s[k] == '}';
    if inner != "" {
      assert s[open] == inner[0] && s[open + |inner| - 1] == LastOf(inner);
      assert SkipLeadOf(s, '{', '}', 0) == open && SkipTailOf(s, '{', '}', |s|) == open + |inner|;
      assert s[open..open + |inner|] == inner;
    }
  }

  /** Any number of braces on either side, and blanks around them, come off. */
  lemma ValuesSpelled(text: string, inner: string, g1: string, open: nat, close: nat, g2: string)
    requires SpellsValues(text, inner, g1, open, close, g2)
    ensures Values(TrimOf(Strip(text), '{', '}')) == Values(inner)
  {
    var s := Braces('{', open) + inner + Braces('}', close);
    if s == "" {
      BlankStrips(text);
    } else {
      StripAround(g1, s, g2);
    }
    BracesOff(inner, open, close);
  }

  /** Which values a list holds: a comma separates, blanks around a value come off, and what is blank
      is no value. */
  lemma ValuesExactly(lead: string, v: string, tail: string, rest: string)
    requires Blank(lead) && Blank(tail) && Trimmed(v) && Lacks(v, ',')
    ensures Values(lead + v + tail) == if v == "" then [] else [v]
    ensures Values(lead + v + tail + [','] + rest) == Values(lead + v + tail) + Values(rest)
  {
    var s := lead + v + tail;
    if v == "" {
      BlankStrips(s);
    } else {
      StripAround(lead, v, tail);
    }
    SplitOnLacks(s, ',');
    SplitOnAt(s, ',', rest);
    FlatMapOne(NonBlank, s);
    FlatMapCons(NonBlank, s, SplitOn(rest, ','));
  }

  /** The field a declaration spells, if what stands where its name should is a name. */
  function SpelledField(n: string, m: nat, listed: bool, b: Bound, annotation: string): TermMeaning {
    if !IsFieldName(n) then Nothing
    else AField(Field(n, m == 0, listed,
                      if b.InSet? then Some(Values(TrimOf(Strip(b.text), '{', '}'))) else MarkedEnum(annotation),
                      if b.EqualTo? then Some(Strip(b.text)) else MarkedFixed(annotation)))
  }

  /** However it is spelled, a declaration without bars is read as the field it spells: prose before its
      backticks and blanks within them do not matter, any question mark at its end makes it optional,
      brackets after its name make it a list, and its bound is an enum or else a fixed value. */
  lemma FieldSpelled(pre: string, lead: string, c: string, gap: string, m: nat, tail: string, annotation: string,
                     x: string, b: Bound, n: string, listed: bool, g1: string, g2: string, g3: string)
    requires Lacks(pre, '`') && Blank(lead) && Blank(gap) && Blank(tail)
    requires IsCore(c, gap, m) && SpellsBound(c, x, b) && SpellsBase(x, n, listed, g1, g2, g3)
    ensures ParseTerm(Ticked(pre, TokenOf(lead, c, gap, m, tail), annotation)) ==
              SpelledField(n, m, listed, b, annotation)
  {
    var token := TokenOf(lead, c, gap, m, tail);
    CoreRead(lead, c, gap, m, tail);
    TokenIsClean(lead, c, gap, m, tail);
    TokenRead(pre, token, annotation);
    TermIsField(Ticked(pre, token, annotation), token, annotation);
    FieldRead(Strip(token), c, m, x, b, n, listed, annotation, g1, g2, g3);
  }

  /** Every declaration without bars that is more than blanks and question marks is spelled so. */
  lemma EveryDeclaration(token: string)
    returns (lead: string, c: string, gap: string, m: nat, tail: string,
             x: string, b: Bound, n: string, listed: bool, g1: string, g2: string, g3: string)
    requires Lacks(token, '`') && Lacks(token, '|') && Strip(DropMarks(Strip(token))) != ""
    ensures token == TokenOf(lead, c, gap, m, tail) && Blank(lead) && Blank(gap) && Blank(tail)
    ensures IsCore(c, gap, m) && SpellsBound(c, x, b) && SpellsBase(x, n, listed, g1, g2, g3)
  {
    lead, c, gap, m, tail := CoreOf(token);
    x, b := BoundOf(c);
    n, listed, g1, g2, g3 := BaseOfText(x);
  }

  /** What is stripped off a text is blank. */
  lemma StripParts(s: string) returns (g1: string, g2: string)
    ensures s == g1 + Strip(s) + g2 && Blank(g1) && Blank(g2)
  {
    var i, j := SkipLead(s, 0), SkipTail(s, |s|);
    if i < j {
      g1, g2 := s[..i], s[j..];
      ThreeParts(s, i, j);
    } else {
      g1, g2 := s, "";
    }
  }

  lemma ThreeParts(s: string, i: nat, j: nat)
    requires i <= j <= |s|
    ensures s == s[..i] + s[i..j] + s[j..]
  {
  }

  /** A text that does not start with a blank is what stripping leaves of it, and blanks. */
  lemma StartsStripped(s: string) returns (gap: string)
    requires s != "" && !IsSpace(s[0])
    ensures s == Strip(s) + gap && Blank(gap) && Strip(s) != ""
  {
    var j := SkipTail(s, |s|);
    assert SkipLead(s, 0) == 0 && j > 0;
    gap := s[j..];
  }

  lemma MarksBack(d: string)
    ensures d == DropMarks(d) + Marks(|d| - |DropMarks(d)|)
    ensures DropMarks(d) != "" ==> LastOf(DropMarks(d)) != '?'
  {
  }

  lemma PartsLack(lead: string, c: string, gap: string, m: nat, tail: string, x: char)
    requires Lacks(TokenOf(lead, c, gap, m, tail), x)
    ensures Lacks(c, x)
  {
    LacksAppend(lead + (c + gap + Marks(m)), tail, x);
    LacksAppend(lead, c + gap + Marks(m), x);
    LacksAppend(c + gap, Marks(m), x);
    LacksAppend(c, gap, x);
  }

  lemma CoreOf(token: string) returns (lead: string, c: string, gap: string, m: nat, tail: string)
    requires Lacks(token, '`') && Lacks(token, '|') && Strip(DropMarks(Strip(token))) != ""
    ensures token == TokenOf(lead, c, gap, m, tail) && Blank(lead) && Blank(gap) && Blank(tail) && IsCore(c, gap, m)
  {
    var d := Strip(token);
    lead, tail := StripParts(token);
    StripTrims(token);
    c, gap, m := CoreOfTrimmed(d);
    PartsLack(lead, c, gap, m, tail, '`');
    PartsLack(lead, c, gap, m, tail, '|');
  }

  lemma CoreOfTrimmed(d: string) returns (c: string, gap: string, m: nat)
    requires Trimmed(d) && Strip(DropMarks(d)) != ""
    ensures d == c + gap + Marks(m) && Blank(gap) && c != "" && Trimmed(c)
    ensures LastOf(c) == '?' ==> gap != "" && m > 0
  {
    var e := DropMarks(d);
    MarksBack(d);
    m := |d| - |e|;
    if e == "" {
      BlankStrips(e);
      assert false;
    }
    assert e[0] == d[0];
    c := Strip(e);
    StripTrims(e);
    gap := StartsStripped(e);
    if m == 0 {
      assert e == d;
      StripTrims(d);
      assert gap == "";
    }
    if gap == "" {
      assert e == c;
    }
  }

  lemma BoundOf(c: string) returns (x: string, b: Bound)
    ensures SpellsBound(c, x, b)
  {
    var e, q := IndexOf(c, '∈'), IndexOf(c, '=');
    if e < |c| {
      x, b := c[..e], InSet(c[e + 1..]);
    } else if q < |c| {
      x, b := c[..q], EqualTo(c[q + 1..]);
    } else {
      x, b := c, Unbounded;
    }
  }

  lemma BaseOfText(x: string) returns (n: string, listed: bool, g1: string, g2: string, g3: string)
    ensures SpellsBase(x, n, listed, g1, g2, g3)
  {
    var b := Strip(x);
    StripTrims(x);
    g1, g3 := StripParts(x);
    listed := IsListed(b);
    if listed {
      n, g2 := ListedParts(b);
    } else {
      n, g2 := b, "";
      assert b == n + g2 + Brackets(false);
    }
  }

  lemma ListedParts(b: string) returns (n: string, gap: string)
    requires Trimmed(b) && IsListed(b)
    ensures b == n + gap + Brackets(true) && Blank(gap) && Trimmed(n)
  {
    var most := b[..|b| - 2];
    n, gap := "", "";
    if most != "" {
      assert most[0] == b[0];
      StripTrims(most);
      gap := StartsStripped(most);
      n := Strip(most);
    }
    assert b == most + "[]" && most == n + gap;
  }

  lemma TermIsField(term: string, token: string, annotation: string)
    requires FirstTicked(term) == Some((token, annotation)) && Lacks(Strip(token), '|')
    ensures ParseTerm(term) == ParseField(Strip(token), annotation)
  {
  }

  lemma FieldRead(d: string, c: string, m: nat, x: string, b: Bound, n: string, listed: bool, annotation: string,
                  g1: string, g2: string, g3: string)
    requires Strip(DropMarks(d)) == c && Trimmed(c) && (IsOptional(d) <==> m > 0)
    requires SpellsBound(c, x, b) && SpellsBase(x, n, listed, g1, g2, g3)
    ensures ParseField(d, annotation) == SpelledField(n, m, listed, b, annotation)
  {
    BoundRead(c, x, b);
    BaseRead(x, n, listed, g1, g2, g3);
    FieldNameIsName(n);
  }
}
