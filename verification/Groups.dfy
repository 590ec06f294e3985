/** However a one-of group is spelled: names between bars, and what else may stand there. */
module Groups {
  import opened Prelude
  import opened PyText
  import opened Payload
  import opened Grammar
  import opened Annotations
  import opened Spellings

  // ------------------------------------------------------------------ between the bars

  /** A bar, with a backslash before it or without. */
  function BarText(escaped: bool): string {
    if escaped then ['\\', '|'] else ['|']
  }

  function Barred(pieces: seq<string>, bars: seq<bool>): string
    requires |pieces| == |bars| + 1
  {
    if bars == [] then pieces[0] else pieces[0] + (BarText(bars[0]) + Barred(pieces[1..], bars[1..]))
  }

  /** What may stand before such a bar: no bar, and no backslash that would belong to it. */
  predicate StandsBefore(p: string, escaped: bool) {
    Lacks(p, '|') && (escaped || p == "" || LastOf(p) != '\\')
  }

  predicate ArePieces(pieces: seq<string>, bars: seq<bool>) {
    && |pieces| == |bars| + 1 && Lacks(pieces[|bars|], '|')
    && forall k :: 0 <= k < |bars| ==> StandsBefore(pieces[k], bars[k])
  }

  lemma {:induction false} SplitAtBar(a: string, escaped: bool, b: string)
    requires StandsBefore(a, escaped)
    ensures SplitBars(a + (BarText(escaped) + b)) == [a] + SplitBars(b)
  {
    var rest := BarText(escaped) + b;
    if a == "" {
      assert a + rest == rest;
      assert escaped ==> rest[2..] == b;
      assert !escaped ==> rest[1..] == b;
    } else {
      HeadOfAppend(a, rest);
      if |a| == 1 {
        assert (a + rest)[1] == rest[0];
      } else {
        assert (a + rest)[1] == a[1] && LastOf(a[1..]) == LastOf(a);
      }
      SplitAtBar(a[1..], escaped, b);
      assert [a[0]] + a[1..] == a;
    }
  }

  lemma {:induction false} BarsSplit(pieces: seq<string>, bars: seq<bool>)
    requires ArePieces(pieces, bars)
    ensures SplitBars(Barred(pieces, bars)) == pieces
  {
    if bars == [] {
      SplitBarsPlain(pieces[0]);
    } else {
      assert StandsBefore(pieces[0], bars[0]);
      assert forall k :: 0 <= k < |bars| - 1 ==> pieces[1..][k] == pieces[k + 1] && bars[1..][k] == bars[k + 1];
      BarsSplit(pieces[1..], bars[1..]);
      SplitAtBar(pieces[0], bars[0], Barred(pieces[1..], bars[1..]));
    }
  }

  // ------------------------------------------------------------------ one member

  /** Backticks and question marks. */
  predicate IsDecoration(s: string) {
    forall k :: 0 <= k < |s| ==> s[k] == '`' || s[k] == '?'
  }

  ghost predicate Decorates(p: string, n: string, g1: string, m1: string, m2: string, g2: string) {
    && p == g1 + (m1 + n + m2) + g2 && Blank(g1) && Blank(g2) && IsDecoration(m1) && IsDecoration(m2)
  }

  /** The piece is a field name, with decoration around it and blanks around that. */
  ghost predicate SpellsMember(p: string, n: string) {
    IsFieldName(n) && exists g1, m1, m2, g2 :: Decorates(p, n, g1, m1, m2, g2)
  }

  /** What the piece contributes: the name it spells, or nothing if it spells none. */
  ghost predicate Reads(p: string, name: Option<string>) {
    match name
    case Some(n) => SpellsMember(p, n)
    case None => forall n :: !SpellsMember(p, n)
  }

  lemma DecorationOff(m1: string, n: string, m2: string)
    requires IsDecoration(m1) && IsDecoration(m2) && n != ""
    requires n[0] !in {'`', '?'} && LastOf(n) !in {'`', '?'}
    ensures TrimOf(m1 + n + m2, '`', '?') == n
  {
    var s := m1 + n + m2;
    assert s[|m1|] == n[0] && s[|m1| + |n| - 1] == LastOf(n);
    assert forall k :: 0 <= k < |m1| ==> s[k] == m1[k];
    assert forall k :: |m1| + |n| <= k < |s| ==> s[k] == m2[k - |m1| - |n|];
    assert SkipLeadOf(s, '`', '?', 0) == |m1| && SkipTailOf(s, '`', '?', |s|) == |m1| + |n|;
    assert s[|m1|..|m1| + |n|] == n;
  }

  lemma MemberRead(p: string, n: string)
    requires SpellsMember(p, n)
    ensures CleanMember(p) == [n] && IsName(n)
  {
    var g1, m1, m2, g2 :| Decorates(p, n, g1, m1, m2, g2);
    var s := m1 + n + m2;
    assert s[0] == if m1 == "" then n[0] else m1[0];
    assert s[|s| - 1] == if m2 == "" then n[|n| - 1] else m2[|m2| - 1];
    StripAround(g1, s, g2);
    DecorationOff(m1, n, m2);
    FieldNameIsName(n);
  }

  lemma TrimParts(s: string) returns (m1: string, m2: string)
    requires TrimOf(s, '`', '?') != ""
    ensures s == m1 + TrimOf(s, '`', '?') + m2 && IsDecoration(m1) && IsDecoration(m2)
  {
    var i, j := SkipLeadOf(s, '`', '?', 0), SkipTailOf(s, '`', '?', |s|);
    m1, m2 := s[..i], s[j..];
    ThreeParts(s, i, j);
  }

  lemma NothingRead(p: string)
    requires Reads(p, None)
    ensures FlatMap(IfName, CleanMember(p)) == []
  {
    if Strip(p) != "" {
      var n := TrimOf(Strip(p), '`', '?');
      FlatMapOne(IfName, n);
      if IsName(n) {
        var g1, g2 := StripParts(p);
        FieldNameIsName(n);
        var m1, m2 := TrimParts(Strip(p));
        assert Decorates(p, n, g1, m1, m2, g2);
        assert SpellsMember(p, n);
      }
    }
  }

  // ------------------------------------------------------------------ the group

  function Given(name: Option<string>): seq<string> {
    match name case None => [] case Some(n) => [n]
  }

  lemma PieceRead(p: string, name: Option<string>)
    requires Reads(p, name)
    ensures FlatMap(IfName, CleanMember(p)) == Given(name)
  {
    match name
    case None => NothingRead(p);
    case Some(n) =>
      MemberRead(p, n);
      FlatMapOne(IfName, n);
  }

  lemma {:induction false} PiecesRead(pieces: seq<string>, names: seq<Option<string>>)
    requires |pieces| == |names| && forall k :: 0 <= k < |pieces| ==> Reads(pieces[k], names[k])
    ensures FlatMap(IfName, FlatMap(CleanMember, pieces)) == FlatMap(Given, names)
  {
    if pieces != [] {
      PieceRead(pieces[0], names[0]);
      assert forall k :: 0 <= k < |pieces| - 1 ==> pieces[1..][k] == pieces[k + 1] && names[1..][k] == names[k + 1];
      PiecesRead(pieces[1..], names[1..]);
      FlatMapAppend(IfName, CleanMember(pieces[0]), FlatMap(CleanMember, pieces[1..]));
    }
  }

  /** Between bars, escaped or not, stand the names of a group, with blanks and decoration around them;
      what spells no name is left out. Two names make a group, required unless a question mark stands
      anywhere in it; fewer make nothing. */
  lemma GroupSpelled(pre: string, lead: string, tail: string, annotation: string,
                     pieces: seq<string>, bars: seq<bool>, names: seq<Option<string>>)
    requires ArePieces(pieces, bars) && bars != [] && |names| == |pieces|
    requires forall k :: 0 <= k < |pieces| ==> Reads(pieces[k], names[k])
    requires Lacks(pre, '`') && Blank(lead) && Blank(tail)
    requires Trimmed(Barred(pieces, bars)) && Lacks(Barred(pieces, bars), '`')
    ensures ParseTerm(Ticked(pre, lead + Barred(pieces, bars) + tail, annotation)) ==
              if |FlatMap(Given, names)| >= 2
              then AGroup(OneOf(FlatMap(Given, names), Lacks(Barred(pieces, bars), '?')))
              else Nothing
  {
    var g := Barred(pieces, bars);
    HasBar(pieces, bars);
    StripAround(lead, g, tail);
    LacksAppend(lead, g, '`');
    LacksAppend(lead + g, tail, '`');
    TokenRead(pre, lead + g + tail, annotation);
    TermIsGroup(Ticked(pre, lead + g + tail, annotation), lead + g + tail, annotation);
    BarsSplit(pieces, bars);
    PiecesRead(pieces, names);
  }

  lemma HasBar(pieces: seq<string>, bars: seq<bool>)
    requires |pieces| == |bars| + 1 && bars != []
    ensures var g := Barred(pieces, bars); g != "" && !Lacks(g, '|')
  {
    var g := Barred(pieces, bars);
    assert g[|pieces[0]| + if bars[0] then 1 else 0] == '|';
  }

  lemma TermIsGroup(term: string, token: string, annotation: string)
    requires FirstTicked(term) == Some((token, annotation)) && !Lacks(Strip(token), '|')
    ensures ParseTerm(term) == ParseGroup(Strip(token))
  {
  }
}
