/** Markdown emphasis in a payload cell: it declares nothing, wherever it stands. */
module Emphasis {
  import opened Prelude
  import opened PyText
  import opened Payload
  import opened Grammar

  /** A stretch of text without asterisks and hashes, or one of the two marks. */
  datatype Piece = Plain(text: string) | Hashes | Stars

  predicate ValidPieces(ps: seq<Piece>) {
    forall k :: 0 <= k < |ps| && ps[k].Plain? ==> Lacks(ps[k].text, '*') && Lacks(ps[k].text, '#')
  }

  function Show(p: Piece): string {
    match p
    case Plain(text) => text
    case Hashes => "###"
    case Stars => "**"
  }

  function ShowStars(p: Piece): string {
    if p.Hashes? then "" else Show(p)
  }

  function ShowPlain(p: Piece): string {
    if p.Plain? then p.text else ""
  }

  // ------------------------------------------------------------------ dropping a mark

  /** The text with every occurrence of the mark taken out, from the left. */
  function Without(s: string, mark: string): string
    requires mark != ""
  {
    if |s| < |mark| then s
    else if s[..|mark|] == mark then Without(s[|mark|..], mark)
    else [s[0]] + Without(s[1..], mark)
  }

  lemma ReplaceHere(s: string, mark: string, i: nat)
    requires mark != "" && HasAt(s, mark, i)
    ensures ReplaceFrom(s, mark, "", i) == ReplaceFrom(s, mark, "", i + |mark|)
  {
    assert FindFrom(s, mark, i) == Some(i);
    ReplaceFound(s, mark, i, i);
  }

  lemma ReplaceLater(s: string, mark: string, i: nat)
    requires mark != "" && i < |s| && !HasAt(s, mark, i)
    ensures ReplaceFrom(s, mark, "", i) == [s[i]] + ReplaceFrom(s, mark, "", i + 1)
  {
    FindLater(s, mark, i);
    match FindFrom(s, mark, i)
    case None => LaterKept(s, mark, i);
    case Some(k) => LaterFound(s, mark, i, k);
  }

  lemma FindLater(s: string, mark: string, i: nat)
    requires !HasAt(s, mark, i)
    ensures FindFrom(s, mark, i) == FindFrom(s, mark, i + 1)
  {
  }

  lemma LaterKept(s: string, mark: string, i: nat)
    requires mark != "" && i < |s| && FindFrom(s, mark, i).None? && FindFrom(s, mark, i + 1).None?
    ensures ReplaceFrom(s, mark, "", i) == [s[i]] + ReplaceFrom(s, mark, "", i + 1)
  {
    TailAt(s, i);
  }

  lemma LaterFound(s: string, mark: string, i: nat, k: nat)
    requires mark != "" && i < |s| && FindFrom(s, mark, i) == Some(k) && FindFrom(s, mark, i + 1) == Some(k)
    ensures ReplaceFrom(s, mark, "", i) == [s[i]] + ReplaceFrom(s, mark, "", i + 1)
  {
    ReplaceFound(s, mark, i, k);
    ReplaceFound(s, mark, i + 1, k);
    OneMore(s, i, k, ReplaceFrom(s, mark, "", k + |mark|));
  }

  lemma ReplaceFound(s: string, mark: string, i: nat, k: nat)
    requires mark != "" && i <= |s| && FindFrom(s, mark, i) == Some(k)
    ensures ReplaceFrom(s, mark, "", i) == s[i..k] + ReplaceFrom(s, mark, "", k + |mark|)
  {
    assert s[i..k] + "" == s[i..k];
  }

  lemma OneMore(s: string, i: nat, k: nat, rest: string)
    requires i < k <= |s|
    ensures s[i..k] + rest == [s[i]] + (s[i + 1..k] + rest)
  {
  }

  lemma ReplaceNever(s: string, mark: string, i: nat)
    requires mark != "" && i <= |s| < i + |mark|
    ensures ReplaceFrom(s, mark, "", i) == s[i..]
  {
  }

  lemma {:induction false} ReplaceIsWithout(s: string, mark: string, i: nat)
    requires mark != "" && i <= |s|
    ensures ReplaceFrom(s, mark, "", i) == Without(s[i..], mark)
    decreases |s| - i
  {
    if |s| < i + |mark| {
      ReplaceNever(s, mark, i);
    } else {
      assert s[i..][..|mark|] == s[i..i + |mark|];
      if HasAt(s, mark, i) {
        ReplaceHere(s, mark, i);
        ReplaceIsWithout(s, mark, i + |mark|);
        assert s[i..][|mark|..] == s[i + |mark|..];
      } else {
        ReplaceLater(s, mark, i);
        ReplaceIsWithout(s, mark, i + 1);
        TailAt(s, i);
      }
    }
  }

  lemma ReplaceAll(s: string, mark: string)
    requires mark != ""
    ensures ReplaceFrom(s, mark, "", 0) == Without(s, mark)
  {
    ReplaceIsWithout(s, mark, 0);
    assert s[0..] == s;
  }

  /** A prefix without the mark's character is kept. */
  lemma {:induction false} PrefixKept(x: string, y: string, mark: string)
    requires mark != "" && Lacks(x, mark[0])
    ensures Without(x + y, mark) == x + Without(y, mark)
  {
    if x == "" {
      assert x + y == y && x + Without(y, mark) == Without(y, mark);
    } else {
      HeadOfAppend(x, y);
      PrefixKept(x[1..], y, mark);
      HeadKept(x + y, mark);
      assert [x[0]] + x[1..] == x;
      Associate([x[0]], x[1..], Without(y, mark));
    }
  }

  lemma HeadKept(s: string, mark: string)
    requires s != "" && mark != "" && s[0] != mark[0]
    ensures Without(s, mark) == [s[0]] + Without(s[1..], mark)
  {
    if |s| >= |mark| {
      assert s[..|mark|][0] == s[0];
    } else {
      assert s == [s[0]] + s[1..];
    }
  }

  /** A leading mark is dropped. */
  lemma MarkDropped(mark: string, y: string)
    requires mark != ""
    ensures Without(mark + y, mark) == Without(y, mark)
  {
    assert (mark + y)[..|mark|] == mark && (mark + y)[|mark|..] == y;
  }

  function Text(show: Piece -> string, ps: seq<Piece>): string {
    FlatMap(show, ps)
  }

  lemma {:induction false} HashesDropped(ps: seq<Piece>)
    requires ValidPieces(ps)
    ensures Without(Text(Show, ps), "###") == Text(ShowStars, ps)
  {
    if ps != [] {
      HashesDropped(ps[1..]);
      var rest := Text(Show, ps[1..]);
      match ps[0]
      case Hashes =>
        MarkDropped("###", rest);
        assert "" + Text(ShowStars, ps[1..]) == Text(ShowStars, ps[1..]);
      case Stars =>
        assert "**"[0] == '*' && "**"[1] == '*';
        PrefixKept("**", rest, "###");
      case Plain(text) => PrefixKept(text, rest, "###");
    }
  }

  lemma {:induction false} StarsDropped(ps: seq<Piece>)
    requires ValidPieces(ps)
    ensures Without(Text(ShowStars, ps), "**") == Text(ShowPlain, ps)
  {
    if ps != [] {
      StarsDropped(ps[1..]);
      var rest := Text(ShowStars, ps[1..]);
      match ps[0]
      case Hashes =>
        assert "" + rest == rest && "" + Text(ShowPlain, ps[1..]) == Text(ShowPlain, ps[1..]);
      case Stars =>
        MarkDropped("**", rest);
        assert "" + Text(ShowPlain, ps[1..]) == Text(ShowPlain, ps[1..]);
      case Plain(text) => PrefixKept(text, rest, "**");
    }
  }

  // ------------------------------------------------------------------ what emphasis means

  lemma {:induction false} PlainIsPlain(ps: seq<Piece>)
    requires ValidPieces(ps)
    ensures Lacks(Text(ShowPlain, ps), '*') && Lacks(Text(ShowPlain, ps), '#')
  {
    if ps != [] {
      PlainIsPlain(ps[1..]);
    }
  }

  /** Emphasis declares nothing: a cell with the two marks written anywhere in it, any number of times,
      means what it means without them. */
  lemma EmphasisDeclaresNothing(ps: seq<Piece>)
    requires ValidPieces(ps)
    ensures Meaning(Text(Show, ps)) == Meaning(Text(ShowPlain, ps))
  {
    ReplaceAll(Text(Show, ps), "###");
    HashesDropped(ps);
    ReplaceAll(Text(ShowStars, ps), "**");
    StarsDropped(ps);
    PlainIsPlain(ps);
    NothingToStrip(Text(ShowPlain, ps));
    SameTerms(Text(Show, ps), Text(ShowPlain, ps));
  }

  /** Nothing but the two marks is dropped: single asterisks and pairs of hashes stay. */
  lemma OnlyMarksAreDropped(s: string)
    requires !Contains(s, "###") && !Contains(s, "**")
    ensures StripEmphasis(s) == Strip(s)
  {
    assert s[0..] == s;
  }

  lemma SameTerms(a: string, b: string)
    requires StripEmphasis(a) == StripEmphasis(b)
    ensures Terms(a) == Terms(b) && Meaning(a) == Meaning(b)
  {
  }
}
