/** Expanding a list of producing transitions in which a repeated machine prefix is abbreviated. */
module Producers {
  import opened Prelude
  import opened PyText
  import opened Splitter

  predicate IsSeparator(c: char) { c == '/' || c == ',' || IsSpace(c) }

  // ------------------------------------------------------------------ tokens

  function Pieces(s: string): (ps: seq<string>)
    ensures ps != []
  {
    if s == "" then [""]
    else
      var rest := Pieces(s[1..]);
      if IsSeparator(s[0]) then [""] + rest else [[s[0]] + rest[0]] + rest[1..]
  }

  function NonEmpty(t: string): seq<string> {
    if t == "" then [] else [t]
  }

  /** The non-empty pieces between runs of separators. */
  function Tokens(s: string): seq<string> {
    FlatMap(NonEmpty, Pieces(s))
  }

  function Digits(s: string): (n: nat)
    ensures n <= |s| && forall k :: 0 <= k < n ==> IsDigit(s[k])
    ensures n < |s| ==> !IsDigit(s[n])
  {
    if s != "" && IsDigit(s[0]) then 1 + Digits(s[1..]) else 0
  }

  function Lowers(s: string): (n: nat)
    ensures n <= |s| && forall k :: 0 <= k < n ==> IsLower(s[k])
    ensures n < |s| ==> !IsLower(s[n])
  {
    if s != "" && IsLower(s[0]) then 1 + Lowers(s[1..]) else 0
  }

  /** How much of the start of s matches digits followed by lower-case letters; 0 without a digit. */
  function NumberLength(s: string): (n: nat)
    ensures n <= |s|
  {
    var d := Digits(s);
    if d == 0 then 0 else d + Lowers(s[d..])
  }

  /** `[0-9]+[a-z]*` in full. */
  predicate IsNumber(s: string) {
    s != "" && NumberLength(s) == |s|
  }

  predicate IsPrefix(p: string) {
    |p| == 2 && IsUpper(p[0]) && IsUpper(p[1])
  }

  function Id(prefix: string, number: string): string {
    prefix + "-" + number
  }

  /** `[A-Z]{2}-[0-9]+[a-z]*` in full. */
  predicate IsTransitionId(t: string) {
    |t| >= 4 && IsPrefix(t[..2]) && t[2] == '-' && IsNumber(t[3..])
  }

  /** The prefix and number a token starts with, if it starts like a transition id. */
  function Leading(token: string): Option<(string, string)> {
    if |token| >= 4 && IsPrefix(token[..2]) && token[2] == '-' && NumberLength(token[3..]) > 0
    then Some((token[..2], token[3..3 + NumberLength(token[3..])]))
    else None
  }

  // ------------------------------------------------------------------ expansion

  /** The ids the tokens stand for, given the prefix in force before them. */
  function Expanded(prefix: Option<string>, tokens: seq<string>): seq<string>
    decreases tokens
  {
    if tokens == [] then [] else
      match Leading(tokens[0])
      case Some((p, n)) => [Id(p, n)] + Expanded(Some(p), tokens[1..])
      case None =>
        if IsNumber(tokens[0]) && prefix.Some? then [Id(prefix.value, tokens[0])] + Expanded(prefix, tokens[1..])
        else Expanded(prefix, tokens[1..])
  }

  /** A global rule has the shape of a transition but is not one. */
  predicate IsGlobalRule(t: string) {
    |t| >= 3 && t[..3] == "GR-"
  }

  /** The ids worth keeping, each where it is first seen. */
  function Kept(ids: seq<string>, seen: seq<string>): seq<string> {
    if ids == [] then seen
    else if !IsTransitionId(ids[0]) || ids[0] in seen || IsGlobalRule(ids[0]) then Kept(ids[1..], seen)
    else Kept(ids[1..], seen + [ids[0]])
  }

  function Expand(raw: string): seq<string> {
    Kept(Expanded(None, Tokens(Strip(raw))), [])
  }

  /** The tokens' ids, read from left to right with the last prefix remembered. */
  method ExpandTokens(tokens: seq<string>) returns (out: seq<string>)
    ensures out == Expanded(None, tokens)
  {
    var prefix: Option<string> := None;
    out := [];
    assert tokens[0..] == tokens;
    for i := 0 to |tokens|
      invariant Expanded(None, tokens) == out + Expanded(prefix, tokens[i..])
    {
      var token := tokens[i];
      assert tokens[i..][0] == token && tokens[i..][1..] == tokens[i + 1..];
      var m := Leading(token);
      if m.Some? {
        prefix := Some(m.value.0);
        Reassociate(out, Id(m.value.0, m.value.1), Expanded(prefix, tokens[i + 1..]));
        out := out + [Id(m.value.0, m.value.1)];
      } else if IsNumber(token) && prefix.Some? {
        Reassociate(out, Id(prefix.value, token), Expanded(prefix, tokens[i + 1..]));
        out := out + [Id(prefix.value, token)];
      }
    }
    assert tokens[|tokens|..] == [];
  }

  lemma Reassociate(a: seq<string>, x: string, b: seq<string>)
    ensures a + ([x] + b) == (a + [x]) + b
  {
  }

  lemma NothingExpands()
    ensures Expand("") == []
  {
    assert Strip("") == "" && Pieces("") == [""];
    FlatMapCons(NonEmpty, "", []);
    assert [""] + [] == [""];
  }

  method ExpandProducers(raw: string) returns (ids: seq<string>)
    ensures ids == Expand(raw)
  {
    if raw == "" {
      NothingExpands();
      return [];
    }
    var out := ExpandTokens(Tokens(Strip(raw)));
    ids := [];
    assert out[0..] == out;
    for i := 0 to |out|
      invariant Kept(out, []) == Kept(out[i..], ids)
    {
      assert out[i..][0] == out[i] && out[i..][1..] == out[i + 1..];
      if IsTransitionId(out[i]) && out[i] !in ids && !IsGlobalRule(out[i]) {
        ids := ids + [out[i]];
      }
    }
    assert out[|out|..] == [];
  }

  // ------------------------------------------------------------------ what comes out

  predicate Worth(t: string) {
    IsTransitionId(t) && !IsGlobalRule(t)
  }

  /** ids[i] is the first occurrence of t. */
  ghost predicate FirstAt(t: string, ids: seq<string>, i: nat) {
    i < |ids| && ids[i] == t && forall k :: 0 <= k < i ==> ids[k] != t
  }

  /** at lists, in increasing order, where each element of r first occurs in ids. */
  ghost predicate FirstSeenAt(r: seq<string>, ids: seq<string>, at: seq<nat>) {
    |at| == |r| && (forall k :: 0 <= k < |r| ==> FirstAt(r[k], ids, at[k])) &&
    forall j, k :: 0 <= j < k < |r| ==> at[j] < at[k]
  }

  lemma {:induction false} KeptFacts(ids: seq<string>, seen: seq<string>)
    requires Distinct(seen) && forall t :: t in seen ==> Worth(t)
    ensures var r := Kept(ids, seen);
            && Distinct(r) && |seen| <= |r| && r[..|seen|] == seen
            && (forall t :: t in r <==> t in seen || (t in ids && Worth(t)))
  {
    if ids != [] {
      var t := ids[0];
      assert forall x :: x in ids <==> x == t || x in ids[1..];
      if Worth(t) && t !in seen {
        KeptFacts(ids[1..], seen + [t]);
        assert Kept(ids, seen)[..|seen|] == Kept(ids, seen)[..|seen| + 1][..|seen|];
      } else {
        KeptFacts(ids[1..], seen);
      }
    }
  }

  /** The result lists exactly the transition ids among the expanded ones, none twice and no GR id. */
  lemma ExpansionIsClean(raw: string)
    ensures var r, ids := Expand(raw), Expanded(None, Tokens(Strip(raw)));
            && Distinct(r)
            && (forall t :: t in r ==> IsTransitionId(t) && !IsGlobalRule(t))
            && (forall t :: t in r <==> t in ids && !IsGlobalRule(t))
  {
    var ids := Expanded(None, Tokens(Strip(raw)));
    KeptFacts(ids, []);
    ExpandedAreIds(None, Tokens(Strip(raw)));
  }

  lemma {:induction false} KeptInOrder(all: seq<string>, n: nat, seen: seq<string>, at: seq<nat>) returns (r: seq<nat>)
    requires n <= |all| && FirstSeenAt(seen, all, at) && forall k :: 0 <= k < |at| ==> at[k] < n
    requires forall k :: 0 <= k < n && Worth(all[k]) ==> all[k] in seen
    ensures FirstSeenAt(Kept(all[n..], seen), all, r)
    decreases |all| - n
  {
    if n == |all| {
      r := at;
    } else {
      var t := all[n];
      assert all[n..][0] == t && all[n..][1..] == all[n + 1..];
      if Worth(t) && t !in seen {
        assert FirstAt(t, all, n);
        r := KeptInOrder(all, n + 1, seen + [t], at + [n]);
      } else {
        r := KeptInOrder(all, n + 1, seen, at);
      }
    }
  }

  /** The result keeps the order in which its ids are first seen. */
  lemma ExpansionKeepsOrder(raw: string)
    ensures exists at :: FirstSeenAt(Expand(raw), Expanded(None, Tokens(Strip(raw))), at)
  {
    var ids := Expanded(None, Tokens(Strip(raw)));
    assert ids[0..] == ids;
    var at := KeptInOrder(ids, 0, [], []);
    assert FirstSeenAt(Expand(raw), ids, at);
  }

  lemma IdShape(p: string, n: string)
    requires IsPrefix(p) && IsNumber(n)
    ensures IsTransitionId(Id(p, n)) && Id(p, n)[..2] == p && Id(p, n)[3..] == n
    ensures Leading(Id(p, n)) == Some((p, n))
  {
    var t := Id(p, n);
    assert |t| == 3 + |n| && t[2] == '-';
    assert t[..2] == p && t[3..] == n;
    assert t[3..3 + |n|] == n;
  }

  /** What NumberLength accepts is itself a number. */
  lemma NumberPrefix(s: string)
    requires NumberLength(s) > 0
    ensures IsNumber(s[..NumberLength(s)])
  {
    var n, d := NumberLength(s), Digits(s);
    var m := s[..n];
    assert m[d..] == s[d..][..n - d];
    DigitsAre(m, d);
    LowersAre(m[d..], n - d);
  }

  lemma {:induction false} DigitsAre(s: string, n: nat)
    requires n <= |s| && (forall k :: 0 <= k < n ==> IsDigit(s[k])) && (n < |s| ==> !IsDigit(s[n]))
    ensures Digits(s) == n
  {
    if n > 0 {
      DigitsAre(s[1..], n - 1);
    }
  }

  lemma {:induction false} LowersAre(s: string, n: nat)
    requires n <= |s| && (forall k :: 0 <= k < n ==> IsLower(s[k])) && (n < |s| ==> !IsLower(s[n]))
    ensures Lowers(s) == n
  {
    if n > 0 {
      LowersAre(s[1..], n - 1);
    }
  }

  lemma LeadingIsId(token: string, p: string, n: string)
    requires Leading(token) == Some((p, n))
    ensures IsPrefix(p) && IsNumber(n)
  {
    var rest := token[3..];
    NumberPrefix(rest);
    assert rest[..NumberLength(rest)] == token[3..3 + NumberLength(rest)];
  }

  lemma {:induction false} ExpandedAreIds(prefix: Option<string>, tokens: seq<string>)
    requires prefix.Some? ==> IsPrefix(prefix.value)
    ensures forall t :: t in Expanded(prefix, tokens) ==> IsTransitionId(t)
    decreases tokens
  {
    if tokens != [] {
      match Leading(tokens[0]) {
        case Some((p, n)) =>
          LeadingIsId(tokens[0], p, n);
          IdShape(p, n);
          ExpandedAreIds(Some(p), tokens[1..]);
        case None =>
          if IsNumber(tokens[0]) && prefix.Some? {
            IdShape(prefix.value, tokens[0]);
          }
          ExpandedAreIds(prefix, tokens[1..]);
      }
    }
  }

  // ------------------------------------------------------------------ abbreviation

  datatype Producer = Producer(prefix: string, number: string)

  predicate ValidProducers(ps: seq<Producer>) {
    forall k :: 0 <= k < |ps| ==> IsPrefix(ps[k].prefix) && IsNumber(ps[k].number)
  }

  /** Which prefixes are left out: only ones that repeat the prefix just before. */
  predicate ValidOmissions(ps: seq<Producer>, omit: seq<bool>) {
    |omit| == |ps| &&
    forall k :: 0 <= k < |ps| && omit[k] ==> k > 0 && ps[k].prefix == ps[k - 1].prefix
  }

  function Full(ps: seq<Producer>): (ids: seq<string>)
    ensures |ids| == |ps| && forall k :: 0 <= k < |ps| ==> ids[k] == Id(ps[k].prefix, ps[k].number)
  {
    seq(|ps|, k requires 0 <= k < |ps| => Id(ps[k].prefix, ps[k].number))
  }

  function Abbreviated(ps: seq<Producer>, omit: seq<bool>): (ts: seq<string>)
    requires |omit| == |ps|
    ensures |ts| == |ps|
    ensures forall k :: 0 <= k < |ps| ==> ts[k] == if omit[k] then ps[k].number else Id(ps[k].prefix, ps[k].number)
  {
    seq(|ps|, k requires 0 <= k < |ps| => if omit[k] then ps[k].number else Id(ps[k].prefix, ps[k].number))
  }

  lemma NumbersDoNotLead(n: string)
    requires IsNumber(n)
    ensures Leading(n) == None
  {
    assert IsDigit(n[0]);
    if |n| >= 4 {
      assert n[..2][0] == n[0];
    }
  }

  /** A token standing for a producer whose prefix it spells out, or inherits, expands to its id. */
  lemma ExpandedHead(prefix: Option<string>, p: Producer, omit: bool, tokens: seq<string>)
    requires IsPrefix(p.prefix) && IsNumber(p.number) && (omit ==> prefix == Some(p.prefix))
    requires tokens != [] && tokens[0] == if omit then p.number else Id(p.prefix, p.number)
    ensures Expanded(prefix, tokens) == [Id(p.prefix, p.number)] + Expanded(Some(p.prefix), tokens[1..])
  {
    if omit {
      NumbersDoNotLead(p.number);
    } else {
      IdShape(p.prefix, p.number);
    }
  }

  lemma {:induction false} ExpandedAbbreviated(ps: seq<Producer>, omit: seq<bool>, k: nat, prefix: Option<string>)
    requires ValidProducers(ps) && ValidOmissions(ps, omit) && k <= |ps|
    requires k > 0 ==> prefix == Some(ps[k - 1].prefix)
    ensures Expanded(prefix, Abbreviated(ps, omit)[k..]) == Full(ps)[k..]
    decreases |ps| - k
  {
    if k < |ps| {
      var ts, ids := Abbreviated(ps, omit), Full(ps);
      ExpandedAbbreviated(ps, omit, k + 1, Some(ps[k].prefix));
      TailAt(ts, k);
      TailAt(ids, k);
      ExpandedHead(prefix, ps[k], omit[k], ts[k..]);
    }
  }

  predicate IsToken(t: string) {
    t != "" && forall k :: 0 <= k < |t| ==> !IsSeparator(t[k])
  }

  lemma {:induction false} PiecesOfToken(t: string)
    requires forall k :: 0 <= k < |t| ==> !IsSeparator(t[k])
    ensures Pieces(t) == [t]
  {
    if t != "" {
      PiecesOfToken(t[1..]);
      assert [t[0]] + t[1..] == t;
    }
  }

  lemma {:induction false} PiecesAfterToken(t: string, rest: string)
    requires forall k :: 0 <= k < |t| ==> !IsSeparator(t[k])
    ensures Pieces(t + "/" + rest) == [t] + Pieces(rest)
  {
    var s := t + "/" + rest;
    if t == "" {
      assert s[0] == '/' && s[1..] == rest;
    } else {
      assert s[0] == t[0] && s[1..] == t[1..] + "/" + rest;
      PiecesAfterToken(t[1..], rest);
      assert [t[0]] + t[1..] == t;
    }
  }

  lemma {:induction false} TokensOfJoin(ts: seq<string>)
    requires forall k :: 0 <= k < |ts| ==> IsToken(ts[k])
    ensures Tokens(Join(ts, "/")) == ts
  {
    if ts == [] {
      FlatMapCons(NonEmpty, "", []);
      assert [""] + [] == [""];
    } else if |ts| == 1 {
      PiecesOfToken(ts[0]);
      FlatMapSingles(NonEmpty, [ts[0]], ts);
    } else {
      PiecesAfterToken(ts[0], Join(ts[1..], "/"));
      TokensOfJoin(ts[1..]);
      FlatMapCons(NonEmpty, ts[0], Pieces(Join(ts[1..], "/")));
    }
  }

  lemma {:induction false} JoinHasNoSpace(ts: seq<string>)
    requires forall k :: 0 <= k < |ts| ==> IsToken(ts[k])
    ensures forall k :: 0 <= k < |Join(ts, "/")| ==> !IsSpace(Join(ts, "/")[k])
  {
    if |ts| > 1 {
      JoinHasNoSpace(ts[1..]);
    }
  }

  lemma ExpandOfJoin(ts: seq<string>)
    requires forall k :: 0 <= k < |ts| ==> IsToken(ts[k])
    ensures Expand(Join(ts, "/")) == Kept(Expanded(None, ts), [])
  {
    TokensOfJoin(ts);
    JoinHasNoSpace(ts);
    StripTrims(Join(ts, "/"));
  }

  lemma NumberIsToken(n: string)
    requires IsNumber(n)
    ensures IsToken(n)
  {
    var d := Digits(n);
    forall k | 0 <= k < |n| ensures !IsSeparator(n[k]) {
      if k >= d {
        assert n[d..][k - d] == n[k];
      }
    }
  }

  lemma IdIsToken(p: string, n: string)
    requires IsPrefix(p) && IsNumber(n)
    ensures IsToken(Id(p, n))
  {
    NumberIsToken(n);
  }

  /** Leaving out repeated prefixes, wherever one likes, expands to the fully prefixed list. */
  lemma AbbreviationExpands(ps: seq<Producer>, omit: seq<bool>)
    requires ValidProducers(ps) && ValidOmissions(ps, omit)
    ensures Expand(Join(Abbreviated(ps, omit), "/")) == Expand(Join(Full(ps), "/"))
    ensures Expand(Join(Full(ps), "/")) == Kept(Full(ps), [])
  {
    forall k | 0 <= k < |ps| ensures IsToken(Abbreviated(ps, omit)[k]) && IsToken(Full(ps)[k]) {
      NumberIsToken(ps[k].number);
      IdIsToken(ps[k].prefix, ps[k].number);
    }
    ExpandOfJoin(Abbreviated(ps, omit));
    ExpandOfJoin(Full(ps));
    ExpandedAbbreviated(ps, omit, 0, None);
    assert Abbreviated(ps, omit)[0..] == Abbreviated(ps, omit) && Full(ps)[0..] == Full(ps);
    var none := seq(|ps|, k => false);
    assert Abbreviated(ps, none) == Full(ps);
    ExpandedAbbreviated(ps, none, 0, None);
  }

  // ------------------------------------------------------------------ any separators

  predicate AllSeparators(s: string) {
    forall k :: 0 <= k < |s| ==> IsSeparator(s[k])
  }

  /** A separator cuts a list in two. */
  lemma {:induction false} PiecesAtSeparator(a: string, c: char, b: string)
    requires IsSeparator(c)
    ensures Pieces(a + ([c] + b)) == Pieces(a) + Pieces(b)
  {
    if a == "" {
      assert a + ([c] + b) == [c] + b && ([c] + b)[1..] == b;
    } else {
      HeadOfAppend(a, [c] + b);
      PiecesAtSeparator(a[1..], c, b);
      var rest := Pieces(a[1..]);
      HeadOfAppend(rest, Pieces(b));
      if !IsSeparator(a[0]) {
        Associate([[a[0]] + rest[0]], rest[1..], Pieces(b));
      } else {
        Associate([""], rest, Pieces(b));
      }
    }
  }

  lemma TokensAtSeparator(a: string, c: char, b: string)
    requires IsSeparator(c)
    ensures Tokens(a + ([c] + b)) == Tokens(a) + Tokens(b)
  {
    PiecesAtSeparator(a, c, b);
    FlatMapAppend(NonEmpty, Pieces(a), Pieces(b));
  }

  lemma NoTokens()
    ensures Tokens("") == []
  {
    FlatMapOne(NonEmpty, "");
  }

  lemma {:induction false} SeparatorsBefore(sep: string, s: string)
    requires AllSeparators(sep)
    ensures Tokens(sep + s) == Tokens(s)
  {
    if sep == "" {
      assert sep + s == s;
    } else {
      SeparatorsBefore(sep[1..], s);
      assert sep + s == "" + ([sep[0]] + (sep[1..] + s));
      TokensAtSeparator("", sep[0], sep[1..] + s);
      NoTokens();
    }
  }

  lemma SeparatorsAfter(s: string, sep: string)
    requires AllSeparators(sep)
    ensures Tokens(s + sep) == Tokens(s)
  {
    if sep == "" {
      assert s + sep == s;
    } else {
      assert s + sep == s + ([sep[0]] + sep[1..]);
      TokensAtSeparator(s, sep[0], sep[1..]);
      SeparatorsBefore(sep[1..], "");
      NoTokens();
      assert sep[1..] + "" == sep[1..];
    }
  }

  /** Stripping cuts off separators only. */
  lemma TokensOfStrip(s: string)
    ensures Tokens(Strip(s)) == Tokens(s)
  {
    var i, j := SkipLead(s, 0), SkipTail(s, |s|);
    if i < j {
      TokensBetween(s, i, j);
    } else {
      SeparatorsBefore(s, "");
      assert s + "" == s;
    }
  }

  lemma TokensBetween(s: string, i: nat, j: nat)
    requires i <= j <= |s| && AllSeparators(s[..i]) && AllSeparators(s[j..])
    ensures Tokens(s[i..j]) == Tokens(s)
  {
    SeparatorsBefore(s[..i], s[i..j] + s[j..]);
    SeparatorsAfter(s[i..j], s[j..]);
    assert s == s[..i] + (s[i..j] + s[j..]);
  }

  /** A list of tokens with the given runs of separators before, between and after them. */
  function Spread(ts: seq<string>, seps: seq<string>): string
    requires |seps| == |ts| + 1
  {
    if ts == [] then seps[0] else seps[0] + (ts[0] + Spread(ts[1..], seps[1..]))
  }

  /** Runs of slashes, commas and white space, none between two tokens empty. */
  predicate ValidSeparators(seps: seq<string>) {
    && (forall k :: 0 <= k < |seps| ==> AllSeparators(seps[k]))
    && forall k :: 0 < k < |seps| - 1 ==> seps[k] != ""
  }

  lemma OneToken(t: string)
    requires IsToken(t)
    ensures Tokens(t) == [t]
  {
    PiecesOfToken(t);
    FlatMapOne(NonEmpty, t);
  }

  lemma {:induction false} TokensOfSpread(ts: seq<string>, seps: seq<string>)
    requires |seps| == |ts| + 1 && ValidSeparators(seps) && forall k :: 0 <= k < |ts| ==> IsToken(ts[k])
    ensures Tokens(Spread(ts, seps)) == ts
  {
    if ts == [] {
      SeparatorsBefore(seps[0], "");
      NoTokens();
      assert seps[0] + "" == seps[0];
    } else {
      var t, rest := ts[0], Spread(ts[1..], seps[1..]);
      ValidTail(seps);
      TokensOfSpread(ts[1..], seps[1..]);
      SeparatorsBefore(seps[0], t + rest);
      OneToken(t);
      if |ts| == 1 {
        SeparatorsAfter(t, rest);
      } else {
        SpreadStarts(ts[1..], seps[1..]);
        TokenBefore(t, rest);
      }
      assert [t] + ts[1..] == ts;
    }
  }

  lemma ValidTail(seps: seq<string>)
    requires |seps| > 1 && ValidSeparators(seps)
    ensures ValidSeparators(seps[1..])
  {
    assert forall k :: 0 <= k < |seps[1..]| ==> seps[1..][k] == seps[k + 1];
  }

  lemma SpreadStarts(ts: seq<string>, seps: seq<string>)
    requires |seps| == |ts| + 1 && ts != [] && AllSeparators(seps[0]) && seps[0] != ""
    ensures Spread(ts, seps) != "" && IsSeparator(Spread(ts, seps)[0])
  {
    HeadOfAppend(seps[0], ts[0] + Spread(ts[1..], seps[1..]));
  }

  lemma TokenBefore(t: string, s: string)
    requires s != "" && IsSeparator(s[0])
    ensures Tokens(t + s) == Tokens(t) + Tokens(s)
  {
    assert s == [s[0]] + s[1..] && "" + s == s;
    TokensAtSeparator(t, s[0], s[1..]);
    TokensAtSeparator("", s[0], s[1..]);
    NoTokens();
  }

  /** However a list is separated, by slashes, commas or white space in any mixture, leaving out
      repeated prefixes expands to the full ids, filtered. */
  lemma AbbreviationInAnyList(ps: seq<Producer>, omit: seq<bool>, seps: seq<string>)
    requires ValidProducers(ps) && ValidOmissions(ps, omit)
    requires |seps| == |ps| + 1 && ValidSeparators(seps)
    ensures Expand(Spread(Abbreviated(ps, omit), seps)) == Kept(Full(ps), [])
  {
    var ts := Abbreviated(ps, omit);
    forall k | 0 <= k < |ps| ensures IsToken(ts[k]) {
      NumberIsToken(ps[k].number);
      IdIsToken(ps[k].prefix, ps[k].number);
    }
    TokensOfStrip(Spread(ts, seps));
    TokensOfSpread(ts, seps);
    ExpandedAbbreviated(ps, omit, 0, None);
    assert ts[0..] == ts && Full(ps)[0..] == Full(ps);
  }

  // ------------------------------------------------------------------ idempotence

  lemma {:induction false} KeptOfClean(ids: seq<string>, seen: seq<string>)
    requires Distinct(seen + ids) && forall t :: t in ids ==> Worth(t)
    ensures Kept(ids, seen) == seen + ids
    decreases ids
  {
    if ids == [] {
      assert seen + ids == seen;
    } else {
      assert (seen + ids)[|seen|] == ids[0] && Worth(ids[0]) by {
        assert ids[0] in ids;
      }
      assert ids[0] !in seen by {
        forall k | 0 <= k < |seen| ensures seen[k] != ids[0] {
          assert (seen + ids)[k] != (seen + ids)[|seen|];
        }
      }
      assert (seen + [ids[0]]) + ids[1..] == seen + ids;
      KeptOfClean(ids[1..], seen + [ids[0]]);
    }
  }

  function AsProducers(ids: seq<string>): (ps: seq<Producer>)
    requires forall k :: 0 <= k < |ids| ==> IsTransitionId(ids[k])
    ensures |ps| == |ids| && forall k :: 0 <= k < |ids| ==> ps[k] == AsProducer(ids[k])
  {
    seq(|ids|, k requires 0 <= k < |ids| && IsTransitionId(ids[k]) => AsProducer(ids[k]))
  }

  function AsProducer(t: string): Producer
    requires IsTransitionId(t)
  {
    Producer(t[..2], t[3..])
  }

  lemma AsProducersFull(ids: seq<string>)
    requires forall k :: 0 <= k < |ids| ==> IsTransitionId(ids[k])
    ensures ValidProducers(AsProducers(ids)) && Full(AsProducers(ids)) == ids
  {
    var ps := AsProducers(ids);
    forall k | 0 <= k < |ids| ensures Id(ps[k].prefix, ps[k].number) == ids[k] {
      assert ids[k] == ids[k][..2] + [ids[k][2]] + ids[k][3..];
    }
  }

  /** Expanding what expansion produced changes nothing. */
  lemma ExpandIsIdempotent(raw: string)
    ensures Expand(Join(Expand(raw), "/")) == Expand(raw)
  {
    var r := Expand(raw);
    ExpansionIsClean(raw);
    assert forall k :: 0 <= k < |r| ==> r[k] in r;
    var ps := AsProducers(r);
    AsProducersFull(r);
    AbbreviationExpands(ps, seq(|ps|, k => false));
    assert [] + r == r;
    KeptOfClean(r, []);
  }
}
