/** Any producer cell at all: ids, which may go on in prose, bare numbers, and prose. */
module Mentions {
  import opened Prelude
  import opened PyText
  import opened Producers
  import opened Readings

  // ------------------------------------------------------------------ what a token mentions

  /** A transition id and what is written right after it, a bare number, or neither. */
  datatype Mention = Whole(prefix: string, number: string, tail: string) | Bare(number: string) | Prose(text: string)

  predicate IsMachine(p: string) {
    |p| == 2 && 'A' <= p[0] <= 'Z' && 'A' <= p[1] <= 'Z'
  }

  /** The first d characters of s are digits and the others small letters. */
  predicate SplitsAt(s: string, d: nat) {
    && 0 < d <= |s|
    && (forall k :: 0 <= k < d ==> '0' <= s[k] <= '9')
    && forall k :: d <= k < |s| ==> 'a' <= s[k] <= 'z'
  }

  ghost predicate IsNumeral(s: string) {
    exists d: nat :: SplitsAt(s, d)
  }

  /** The tail does not go on with the number: it starts neither with a small letter nor, right after a
      digit, with a digit. */
  predicate CanFollow(number: string, tail: string) {
    number != "" &&
    (tail != "" ==> !('a' <= tail[0] <= 'z') && ('0' <= number[|number| - 1] <= '9' ==> !('0' <= tail[0] <= '9')))
  }

  predicate StartsLikeId(t: string) {
    |t| >= 4 && IsMachine(t[..2]) && t[2] == '-' && '0' <= t[3] <= '9'
  }

  /** A slash, a comma or white space. */
  predicate Separates(c: char) {
    c == '/' || c == ',' || IsWhite(c)
  }

  predicate Unseparated(s: string) {
    forall k :: 0 <= k < |s| ==> !Separates(s[k])
  }

  /** Runs of separators before, between and after tokens: none between two tokens is empty. */
  predicate AreRuns(seps: seq<string>) {
    && (forall i, k :: 0 <= i < |seps| && 0 <= k < |seps[i]| ==> Separates(seps[i][k]))
    && forall i :: 0 < i < |seps| - 1 ==> seps[i] != ""
  }

  ghost predicate Valid(m: Mention) {
    match m
    case Whole(p, n, tail) => IsMachine(p) && IsNumeral(n) && CanFollow(n, tail) && Unseparated(tail)
    case Bare(n) => IsNumeral(n)
    case Prose(t) => t != "" && Unseparated(t) && !StartsLikeId(t) && !IsNumeral(t)
  }

  function Text(m: Mention): string {
    match m
    case Whole(p, n, tail) => p + "-" + n + tail
    case Bare(n) => n
    case Prose(t) => t
  }

  ghost predicate AllValid(ms: seq<Mention>) {
    forall k :: 0 <= k < |ms| ==> Valid(ms[k])
  }

  function Texts(ms: seq<Mention>): (ts: seq<string>)
    ensures |ts| == |ms| && forall k :: 0 <= k < |ms| ==> ts[k] == Text(ms[k])
  {
    seq(|ms|, k requires 0 <= k < |ms| => Text(ms[k]))
  }

  // ------------------------------------------------------------------ which ids that makes

  /** The prefix in force at position k: that of the last whole id before it. */
  function PrefixAt(ms: seq<Mention>, k: nat): Option<string>
    requires k <= |ms|
  {
    if k == 0 then None
    else if ms[k - 1].Whole? then Some(ms[k - 1].prefix)
    else PrefixAt(ms, k - 1)
  }

  /** The id the mention at position k stands for: a bare number takes the prefix in force. */
  function IdAt(ms: seq<Mention>, k: nat): seq<string>
    requires k < |ms|
  {
    match ms[k]
    case Whole(p, n, _) => [p + "-" + n]
    case Bare(n) => if PrefixAt(ms, k).Some? then [PrefixAt(ms, k).value + "-" + n] else []
    case Prose(_) => []
  }

  function IdsFrom(ms: seq<Mention>, k: nat): seq<string>
    requires k <= |ms|
    decreases |ms| - k
  {
    if k == |ms| then [] else IdAt(ms, k) + IdsFrom(ms, k + 1)
  }

  // ------------------------------------------------------------------ reading one token

  lemma NumeralIsNumber(s: string, d: nat)
    requires SplitsAt(s, d)
    ensures IsNumber(s) && Digits(s) == d && (d < |s| ==> Lowers(s[d..]) == |s| - d)
  {
    DigitsAre(s, d);
    LowersAre(s[d..], |s| - d);
  }

  lemma NumberIsNumeral(s: string)
    requires IsNumber(s)
    ensures IsNumeral(s)
  {
    var d := Digits(s);
    forall k | d <= k < |s| ensures 'a' <= s[k] <= 'z' {
      assert s[d..][k - d] == s[k];
    }
    assert SplitsAt(s, d);
  }

  lemma NumberStops(n: string, tail: string)
    requires IsNumeral(n) && CanFollow(n, tail)
    ensures NumberLength(n + tail) == |n|
  {
    var d: nat :| SplitsAt(n, d);
    var s := n + tail;
    assert d < |n| ==> s[d] == n[d] && !IsDigit(n[d]);
    DigitsAre(s, d);
    assert s[d..] == n[d..] + tail;
    LowersAre(s[d..], |n| - d);
  }

  lemma WholeLeads(p: string, n: string, tail: string)
    requires IsMachine(p) && IsNumeral(n) && CanFollow(n, tail)
    ensures Leading(p + "-" + n + tail) == Some((p, n))
  {
    var t := p + "-" + n + tail;
    NumberStops(n, tail);
    assert t[..2] == p && t[2] == '-' && t[3..] == n + tail;
    assert t[3..3 + |n|] == n;
  }

  lemma LeadsLikeId(t: string)
    ensures Leading(t).Some? <==> StartsLikeId(t)
  {
    if |t| >= 4 {
      assert t[3..][0] == t[3];
    }
  }

  /** One token adds its mention's id, and a whole id sets the prefix. */
  lemma ExpandedMention(ms: seq<Mention>, k: nat, tokens: seq<string>)
    requires k < |ms| && Valid(ms[k]) && tokens != [] && tokens[0] == Text(ms[k])
    ensures Expanded(PrefixAt(ms, k), tokens) == IdAt(ms, k) + Expanded(PrefixAt(ms, k + 1), tokens[1..])
  {
    match ms[k]
    case Whole(p, n, tail) => WholeLeads(p, n, tail);
    case Bare(n) =>
      var d: nat :| SplitsAt(n, d);
      NumeralIsNumber(n, d);
      NumbersDoNotLead(n);
    case Prose(t) =>
      LeadsLikeId(t);
      if IsNumber(t) {
        NumberIsNumeral(t);
      }
  }

  lemma {:induction false} ExpandedMentions(ms: seq<Mention>, k: nat)
    requires k <= |ms| && AllValid(ms)
    ensures Expanded(PrefixAt(ms, k), Texts(ms)[k..]) == IdsFrom(ms, k)
    decreases |ms| - k
  {
    if k < |ms| {
      TailAt(Texts(ms), k);
      ExpandedMention(ms, k, Texts(ms)[k..]);
      ExpandedMentions(ms, k + 1);
    }
  }

  // ------------------------------------------------------------------ whole cells

  lemma MentionIsToken(m: Mention)
    requires Valid(m)
    ensures IsToken(Text(m))
  {
    match m
    case Whole(p, n, tail) =>
      var d: nat :| SplitsAt(n, d);
      NumeralIsNumber(n, d);
      IdIsToken(p, n);
    case Bare(n) =>
      var d: nat :| SplitsAt(n, d);
      NumeralIsNumber(n, d);
      NumberIsToken(n);
    case Prose(t) =>
  }

  /** Whatever a cell mentions, separated by slashes, commas or white space in any mixture, it expands to
      the ids of its mentions, filtered. */
  lemma CellExpands(ms: seq<Mention>, seps: seq<string>)
    requires AllValid(ms) && |seps| == |ms| + 1 && AreRuns(seps)
    ensures Expand(Spread(Texts(ms), seps)) == Kept(IdsFrom(ms, 0), [])
  {
    var ts := Texts(ms);
    forall k | 0 <= k < |ms| ensures IsToken(ts[k]) {
      MentionIsToken(ms[k]);
    }
    TokensOfStrip(Spread(ts, seps));
    TokensOfSpread(ts, seps);
    ExpandedMentions(ms, 0);
    assert ts[0..] == ts;
  }

  /** Every token is a mention. */
  lemma Classify(t: string) returns (m: Mention)
    requires IsToken(t)
    ensures Valid(m) && Text(m) == t
  {
    LeadsLikeId(t);
    if StartsLikeId(t) {
      m := ClassifyWhole(t);
    } else if IsNumber(t) {
      NumberIsNumeral(t);
      m := Bare(t);
    } else {
      if d: nat :| SplitsAt(t, d) {
        NumeralIsNumber(t, d);
      }
      m := Prose(t);
    }
  }

  lemma ClassifyWhole(t: string) returns (m: Mention)
    requires IsToken(t) && Leading(t).Some?
    ensures Valid(m) && Text(m) == t
  {
    var rest := t[3..];
    var n, tail := rest[..NumberLength(rest)], rest[NumberLength(rest)..];
    NumberPrefix(rest);
    NumberIsNumeral(n);
    StopsFollow(rest);
    m := Whole(t[..2], n, tail);
    TokenParts(t, n, tail);
  }

  lemma TokenParts(t: string, n: string, tail: string)
    requires |t| >= 3 && t[2] == '-' && t[3..] == n + tail
    ensures t[..2] + "-" + n + tail == t && forall k :: 0 <= k < |tail| ==> tail[k] == t[3 + |n| + k]
  {
    assert forall k :: 0 <= k < |tail| ==> t[3..][|n| + k] == tail[k];
    Associate(t[..2] + "-", n, tail);
    assert t == t[..2] + "-" + t[3..];
  }

  lemma StopsFollow(s: string)
    requires NumberLength(s) > 0
    ensures CanFollow(s[..NumberLength(s)], s[NumberLength(s)..])
  {
    var d, n := Digits(s), NumberLength(s);
    if n < |s| {
      assert s[n..][0] == s[n];
      assert s[d..][n - d] == s[n];
      if n > d {
        assert s[d..][n - 1 - d] == s[n - 1];
        assert s[..n][n - 1] == s[n - 1];
      }
    }
  }

  lemma {:induction false} PiecesAreUnseparated(s: string)
    ensures forall k :: 0 <= k < |Pieces(s)| ==> Unseparated(Pieces(s)[k])
  {
    if s != "" {
      PiecesAreUnseparated(s[1..]);
    }
  }

  lemma TokensAreTokens(s: string)
    ensures forall k :: 0 <= k < |Tokens(s)| ==> IsToken(Tokens(s)[k])
  {
    PiecesAreUnseparated(s);
    forall k | 0 <= k < |Tokens(s)| ensures IsToken(Tokens(s)[k]) {
      var t := Tokens(s)[k];
      InFlatMap(NonEmpty, Pieces(s), t);
      var i :| 0 <= i < |Pieces(s)| && t in NonEmpty(Pieces(s)[i]);
      assert Unseparated(Pieces(s)[i]);
    }
  }

  lemma {:induction false} ClassifyAll(ts: seq<string>) returns (ms: seq<Mention>)
    requires forall k :: 0 <= k < |ts| ==> IsToken(ts[k])
    ensures AllValid(ms) && Texts(ms) == ts
  {
    ms := [];
    for k := 0 to |ts|
      invariant |ms| == k && AllValid(ms) && forall j :: 0 <= j < k ==> Text(ms[j]) == ts[j]
    {
      var m := Classify(ts[k]);
      ms := ms + [m];
    }
  }

  /** Global rules are numbered under GR. */
  predicate IsRule(t: string) {
    |t| >= 2 && t[..2] == "GR"
  }

  lemma RuleShape(t: string)
    requires IsTransitionId(t)
    ensures IsGlobalRule(t) <==> IsRule(t)
  {
    assert t[..3] == t[..2] + [t[2]];
  }

  lemma FilteredExactly(raw: string)
    ensures Distinct(Expand(raw))
    ensures forall t :: t in Expand(raw) <==> t in Expanded(None, Tokens(Strip(raw))) && !IsRule(t)
  {
    ExpansionIsClean(raw);
    ExpandedAreIds(None, Tokens(Strip(raw)));
    forall t | IsTransitionId(t) ensures IsGlobalRule(t) <==> IsRule(t) {
      RuleShape(t);
    }
  }

  /** Every cell is of this kind: it expands to the ids of what its tokens mention, each once, but
      for the global rules. */
  lemma EveryCellExpands(raw: string) returns (ms: seq<Mention>)
    ensures AllValid(ms) && Texts(ms) == Tokens(raw) && Expand(raw) == Kept(IdsFrom(ms, 0), [])
    ensures Distinct(Expand(raw))
    ensures forall t :: t in Expand(raw) <==> t in IdsFrom(ms, 0) && !IsRule(t)
  {
    FilteredExactly(raw);
    TokensOfStrip(raw);
    TokensAreTokens(raw);
    ms := ClassifyAll(Tokens(raw));
    ExpandedMentions(ms, 0);
    assert Texts(ms)[0..] == Texts(ms);
  }

  // ------------------------------------------------------------------ an instance

  function Named(m: Mention): string
    requires m.Whole?
  {
    m.prefix + "-" + m.number
  }

  lemma WholeIds(a: Mention, b: Mention, c: Mention)
    requires a.Whole? && b.Whole? && c.Whole?
    ensures IdsFrom([a, b, c], 0) == [Named(a), Named(b), Named(c)]
  {
    var ms := [a, b, c];
    assert IdsFrom(ms, 3) == [];
    assert IdsFrom(ms, 2) == IdAt(ms, 2) + [];
    assert IdsFrom(ms, 1) == IdAt(ms, 1) + IdsFrom(ms, 2);
  }

  lemma SlashSpread(x: string, y: string, z: string)
    ensures Spread([x, y, z], ["", "/", "/", ""]) == x + "/" + y + "/" + z
  {
    assert [x, y, z][1..] == [y, z] && [y, z][1..] == [z] && [z][1..] == [];
    assert ["", "/", "/", ""][1..] == ["/", "/", ""] && ["/", "/", ""][1..] == ["/", ""] && ["/", ""][1..] == [""];
    assert Spread([], [""]) == "";
    assert Spread([z], ["/", ""]) == "/" + (z + "");
    assert Spread([y, z], ["/", "/", ""]) == "/" + (y + ("/" + (z + "")));
  }

  lemma KeptIfWorth(x: string, y: string, z: string)
    requires Worth(x) && Worth(y) && Worth(z) && x != y && x != z && y != z
    ensures Kept([x, y, z], []) == [x, y, z]
  {
    KeptOfClean([x, y, z], []);
    assert [] + [x, y, z] == [x, y, z];
  }

  lemma ThreeWhole(a: Mention, b: Mention, c: Mention)
    requires Valid(a) && Valid(b) && Valid(c) && a.Whole? && b.Whole? && c.Whole?
    ensures Expand(Text(a) + "/" + Text(b) + "/" + Text(c)) == Kept([Named(a), Named(b), Named(c)], [])
  {
    var ms, seps := [a, b, c], ["", "/", "/", ""];
    CellExpands(ms, seps);
    assert Texts(ms) == [Text(a), Text(b), Text(c)];
    SlashSpread(Text(a), Text(b), Text(c));
    WholeIds(a, b, c);
  }

  /** m mentions the transition id, and is written so. */
  ghost predicate Names(m: Mention, id: string, text: string) {
    Valid(m) && m.Whole? && Named(m) == id && Text(m) == text && Worth(id)
  }

  lemma ThreeNamed(a: Mention, b: Mention, c: Mention, x: string, y: string, z: string,
                   s: string, t: string, u: string)
    requires Names(a, x, s) && Names(b, y, t) && Names(c, z, u) && x != y && x != z && y != z
    ensures Expand(s + "/" + t + "/" + u) == [x, y, z]
  {
    ThreeWhole(a, b, c);
    KeptIfWorth(x, y, z);
  }

  lemma WholeNames(p: string, n: string, d: nat, tail: string, id: string, text: string)
    requires IsMachine(p) && SplitsAt(n, d) && p != "GR" && p + "-" + n == id
    requires CanFollow(n, tail) && Unseparated(tail) && id + tail == text
    ensures Names(Whole(p, n, tail), id, text)
  {
    NumeralIsNumber(n, d);
    IdShape(p, n);
    assert id[..2] == p;
    if IsGlobalRule(id) {
      GlobalPrefix(id);
    }
  }

  lemma GlobalPrefix(t: string)
    requires IsGlobalRule(t)
    ensures t[..2] == "GR"
  {
    assert t[..3][..2] == t[..2];
  }

  /** The registry's own producers of a raised conflict: the third id goes on in prose, and is kept. */
  lemma ConflictProducers()
    ensures Expand("CF-1" + "/" + "IB-6" + "/" + "EF-4c-conflict") == ["CF-1", "IB-6", "EF-4c"]
  {
    FirstConflictProducer();
    SecondConflictProducer();
    ThirdConflictProducer();
    assert "CF-1"[0] != "IB-6"[0] && "CF-1"[0] != "EF-4c"[0] && "IB-6"[0] != "EF-4c"[0];
    ThreeNamed(Whole("CF", "1", ""), Whole("IB", "6", ""), Whole("EF", "4c", "-conflict"),
               "CF-1", "IB-6", "EF-4c", "CF-1", "IB-6", "EF-4c-conflict");
  }

  lemma FirstConflictProducer()
    ensures Names(Whole("CF", "1", ""), "CF-1", "CF-1")
  {
    assert "CF"[0] == 'C' && "GR"[0] == 'G';
    WholeNames("CF", "1", 1, "", "CF-1", "CF-1");
  }

  lemma SecondConflictProducer()
    ensures Names(Whole("IB", "6", ""), "IB-6", "IB-6")
  {
    assert "IB"[0] == 'I' && "GR"[0] == 'G';
    WholeNames("IB", "6", 1, "", "IB-6", "IB-6");
  }

  lemma ThirdConflictProducer()
    ensures Names(Whole("EF", "4c", "-conflict"), "EF-4c", "EF-4c-conflict")
  {
    assert "EF"[0] == 'E' && "GR"[0] == 'G';
    WholeNames("EF", "4c", 1, "-conflict", "EF-4c", "EF-4c-conflict");
  }
}
