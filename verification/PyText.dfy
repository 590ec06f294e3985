/** The Python string operations the scripts use, over ASCII text. */
module PyText {
  import opened Prelude

  // ------------------------------------------------------------------ searching

  predicate HasAt(s: string, sub: string, k: nat) {
    k + |sub| <= |s| && s[k..k + |sub|] == sub
  }

  /** `s.find(sub, i)`: the leftmost occurrence at or after i. */
  function FindFrom(s: string, sub: string, i: nat): (r: Option<nat>)
    ensures r.Some? ==> i <= r.value && HasAt(s, sub, r.value)
    ensures r.Some? ==> forall k: nat :: i <= k < r.value ==> !HasAt(s, sub, k)
    ensures r.None? ==> forall k: nat :: i <= k ==> !HasAt(s, sub, k)
    decreases |s| - i
  {
    if i + |sub| > |s| then None
    else if s[i..i + |sub|] == sub then Some(i)
    else FindFrom(s, sub, i + 1)
  }

  /** `sub in s`. */
  predicate Contains(s: string, sub: string) {
    FindFrom(s, sub, 0).Some?
  }

  lemma ContainsPiece(a: string, sub: string, b: string)
    ensures Contains(a + sub + b, sub)
  {
    assert HasAt(a + sub + b, sub, |a|);
  }

  lemma OccurrenceStarts(s: string, sub: string, k: nat)
    requires HasAt(s, sub, k) && sub != ""
    ensures s[k] == sub[0]
  {
    assert s[k..k + |sub|][0] == sub[0];
  }

  lemma SliceOfSlice(s: string, i: nat, n: nat, j: nat, m: nat)
    requires i + n <= |s| && j + m <= n
    ensures s[i..i + n][j..j + m] == s[i + j..i + j + m]
  {
    var part, whole := s[i..i + n][j..j + m], s[i + j..i + j + m];
    assert |part| == |whole| && forall k :: 0 <= k < m ==> part[k] == whole[k];
  }

  /** What is inside a part is inside the whole. */
  lemma ContainsTransitive(s: string, part: string, sub: string)
    requires Contains(s, part) && Contains(part, sub)
    ensures Contains(s, sub)
  {
    var i, j := FindFrom(s, part, 0).value, FindFrom(part, sub, 0).value;
    SliceOfSlice(s, i, |part|, j, |sub|);
    assert HasAt(s, sub, i + j);
  }

  /** The non-overlapping occurrences from i on, taken from the left. */
  function CountFrom(s: string, sub: string, i: nat): nat
    requires i <= |s| && sub != ""
    decreases |s| - i
  {
    match FindFrom(s, sub, i)
    case None => 0
    case Some(k) => 1 + CountFrom(s, sub, k + |sub|)
  }

  /** `s.count(sub)`. */
  function CountOf(s: string, sub: string): nat {
    if sub == "" then |s| + 1 else CountFrom(s, sub, 0)
  }

  /** `s.replace(old, new, 1)`. */
  function ReplaceFirst(s: string, before: string, after: string): string {
    match FindFrom(s, before, 0)
    case None => s
    case Some(k) => s[..k] + after + s[k + |before|..]
  }

  /** `s.replace(old, new)` from position i on, for a non-empty old. */
  function ReplaceFrom(s: string, before: string, after: string, i: nat): string
    requires i <= |s| && before != ""
    decreases |s| - i
  {
    match FindFrom(s, before, i)
    case None => s[i..]
    case Some(k) => s[i..k] + after + ReplaceFrom(s, before, after, k + |before|)
  }

  // ------------------------------------------------------------------ anchors

  /** sub occurs in s at one position only, overlapping occurrences included. */
  ghost predicate OccursOnce(s: string, sub: string) {
    exists k: nat :: HasAt(s, sub, k) && forall j: nat :: HasAt(s, sub, j) ==> j == k
  }

  /** Some proper part of sub is both a beginning and an end of it. */
  ghost predicate OverlapsItself(sub: string) {
    exists d :: 0 < d < |sub| && sub[d..] == sub[..|sub| - d]
  }

  /** `count` skips over what it has found, so an anchor counted once may still occur twice. For a
      given anchor that cannot happen exactly when the anchor does not overlap itself. */
  lemma CountedOnceIsUniqueExactlyWithoutOverlap(sub: string)
    requires sub != ""
    ensures (forall s :: CountOf(s, sub) == 1 ==> OccursOnce(s, sub)) <==> !OverlapsItself(sub)
  {
    if OverlapsItself(sub) {
      var d :| 0 < d < |sub| && sub[d..] == sub[..|sub| - d];
      OverlapIsCountedOnce(sub, d);
    } else {
      forall s | CountOf(s, sub) == 1 ensures OccursOnce(s, sub) {
        CountedOnceIsUnique(s, sub);
      }
    }
  }

  /** What a count of one means: all occurrences start within the first one. An empty anchor counts once
      in the empty text only. */
  lemma CountedOnceExactly(s: string, sub: string)
    ensures sub != "" ==>
              (CountOf(s, sub) == 1 <==>
               exists k: nat :: HasAt(s, sub, k) && forall j: nat :: HasAt(s, sub, j) ==> k <= j < k + |sub|)
    ensures sub == "" ==> (CountOf(s, sub) == 1 <==> s == "")
  {
    if sub != "" {
      match FindFrom(s, sub, 0) {
        case None =>
        case Some(k) =>
          NoneFrom(s, sub, k + |sub|);
          if i: nat :| HasAt(s, sub, i) && forall j: nat :: HasAt(s, sub, j) ==> i <= j < i + |sub| {
            assert i == k;
          }
      }
    }
  }

  lemma NoneFrom(s: string, sub: string, i: nat)
    requires i <= |s| && sub != ""
    ensures CountFrom(s, sub, i) == 0 <==> forall j: nat :: HasAt(s, sub, j) ==> j < i
  {
  }

  lemma OverlapIsCountedOnce(sub: string, d: nat)
    requires 0 < d < |sub| && sub[d..] == sub[..|sub| - d]
    ensures CountOf(sub[..d] + sub, sub) == 1 && !OccursOnce(sub[..d] + sub, sub)
  {
    var s := sub[..d] + sub;
    assert s[0..0 + |sub|] == sub[..d] + sub[d..] == sub;
    assert s[d..d + |sub|] == sub;
    assert HasAt(s, sub, 0) && HasAt(s, sub, d);
    assert FindFrom(s, sub, 0) == Some(0);
    assert FindFrom(s, sub, |sub|).None?;
    assert CountFrom(s, sub, |sub|) == 0;
  }

  lemma ShiftedOccurrence(s: string, sub: string, k: nat, j: nat)
    requires HasAt(s, sub, k) && HasAt(s, sub, j) && k < j < k + |sub|
    ensures OverlapsItself(sub)
  {
    assert sub[j - k..] == s[j..k + |sub|] == sub[..|sub| - (j - k)];
  }

  lemma CountedOnceIsUnique(s: string, sub: string)
    requires sub != "" && CountOf(s, sub) == 1 && !OverlapsItself(sub)
    ensures OccursOnce(s, sub)
  {
    assert CountFrom(s, sub, 0) == 1;
    var k := FindFrom(s, sub, 0).value;
    assert CountFrom(s, sub, k + |sub|) == 0;
    assert FindFrom(s, sub, k + |sub|).None?;
    forall j: nat | HasAt(s, sub, j) ensures j == k {
      if k < j < k + |sub| {
        ShiftedOccurrence(s, sub, k, j);
      }
    }
  }

  /** A text in which `count` finds the anchor once is cut there, and only there, by `replace`. */
  lemma ReplaceFirstAtAnchor(s: string, before: string, after: string) returns (k: nat)
    requires CountOf(s, before) == 1
    ensures HasAt(s, before, k)
    ensures ReplaceFirst(s, before, after) == s[..k] + after + s[k + |before|..]
    ensures Contains(ReplaceFirst(s, before, after), after)
  {
    if before == "" {
      assert s == "" && s[0..0] == before;
      assert HasAt(s, before, 0);
    }
    k := FindFrom(s, before, 0).value;
    ContainsPiece(s[..k], after, s[k + |before|..]);
  }

  /** A replacement that changes the text leaves the new text in it. */
  lemma ReplacementShows(s: string, before: string, after: string)
    requires ReplaceFirst(s, before, after) != s
    ensures Contains(ReplaceFirst(s, before, after), after)
  {
    var k := FindFrom(s, before, 0).value;
    ContainsPiece(s[..k], after, s[k + |before|..]);
  }

  // ------------------------------------------------------------------ characters

  predicate IsDigit(c: char) {
    '0' <= c <= '9'
  }

  predicate IsLower(c: char) {
    'a' <= c <= 'z'
  }

  predicate IsUpper(c: char) {
    'A' <= c <= 'Z'
  }

  // ------------------------------------------------------------------ trimming and case

  /** What both `str.strip()` and the pattern `\s` take for white space. */
  predicate IsSpace(c: char) {
    c == ' ' || 9 <= c as int <= 13 || 28 <= c as int <= 31
  }

  /** The first position from i on that is not white space. */
  function SkipLead(s: string, i: nat): (r: nat)
    requires i <= |s|
    ensures i <= r <= |s| && (r < |s| ==> !IsSpace(s[r]))
    ensures forall k :: i <= k < r ==> IsSpace(s[k])
    decreases |s| - i
  {
    if i < |s| && IsSpace(s[i]) then SkipLead(s, i + 1) else i
  }

  /** The end of the text before position j once white space is dropped from its end. */
  function SkipTail(s: string, j: nat): (r: nat)
    requires j <= |s|
    ensures r <= j && (r > 0 ==> !IsSpace(s[r - 1]))
    ensures forall k :: r <= k < j ==> IsSpace(s[k])
  {
    if j > 0 && IsSpace(s[j - 1]) then SkipTail(s, j - 1) else j
  }

  /** `s.strip()`. */
  function Strip(s: string): string {
    var i, j := SkipLead(s, 0), SkipTail(s, |s|);
    if i < j then s[i..j] else ""
  }

  /** No white space at either end. */
  predicate Trimmed(s: string) {
    s != "" ==> !IsSpace(s[0]) && !IsSpace(s[|s| - 1])
  }

  lemma StripTrims(s: string)
    ensures Trimmed(Strip(s))
    ensures Trimmed(s) ==> Strip(s) == s
  {
    if s != "" && Trimmed(s) {
      assert SkipLead(s, 0) == 0 && SkipTail(s, |s|) == |s|;
    }
  }

  /** White space around a trimmed, non-empty text is stripped. */
  lemma StripAround(lead: string, s: string, tail: string)
    requires s != "" && Trimmed(s)
    requires forall k :: 0 <= k < |lead| ==> IsSpace(lead[k])
    requires forall k :: 0 <= k < |tail| ==> IsSpace(tail[k])
    ensures Strip(lead + s + tail) == s
  {
    var t := lead + s + tail;
    assert t[|lead|] == s[0] && t[|lead| + |s| - 1] == s[|s| - 1];
    assert forall k :: 0 <= k < |lead| ==> t[k] == lead[k];
    assert forall k :: |lead| + |s| <= k < |t| ==> t[k] == tail[k - |lead| - |s|];
    assert SkipLead(t, 0) == |lead| && SkipTail(t, |t|) == |lead| + |s|;
  }

  function LowerChar(c: char): (r: char)
    ensures !('A' <= r <= 'Z') && (IsSpace(r) <==> IsSpace(c)) && (IsSpace(c) ==> r == c)
    ensures !('A' <= c <= 'Z') ==> r == c
  {
    if 'A' <= c <= 'Z' then c + 32 as char else c
  }

  /** `s.lower()`. */
  function Lower(s: string): (r: string)
    ensures |r| == |s| && forall k :: 0 <= k < |s| ==> r[k] == LowerChar(s[k])
  {
    seq(|s|, k requires 0 <= k < |s| => LowerChar(s[k]))
  }

  /** `re.sub(r"\s+", " ", s)`; afterSpace says whether the run before s was already written. */
  function Collapse(s: string, afterSpace: bool): string {
    if s == "" then ""
    else if !IsSpace(s[0]) then [s[0]] + Collapse(s[1..], false)
    else if afterSpace then Collapse(s[1..], true)
    else " " + Collapse(s[1..], true)
  }

  /** No upper case, white space only as single blanks, not two in a row. */
  predicate Tidy(s: string) {
    forall k :: 0 <= k < |s| ==>
      && !('A' <= s[k] <= 'Z')
      && (IsSpace(s[k]) ==> s[k] == ' ')
      && (IsSpace(s[k]) && k + 1 < |s| ==> !IsSpace(s[k + 1]))
  }

  lemma {:induction false} CollapseTidies(s: string, afterSpace: bool)
    requires forall k :: 0 <= k < |s| ==> !('A' <= s[k] <= 'Z')
    ensures var r := Collapse(s, afterSpace);
            && Tidy(r)
            && (afterSpace && r != "" ==> !IsSpace(r[0]))
            && (s != "" && !IsSpace(s[0]) ==> r != "" && r[0] == s[0])
            && (s != "" && !IsSpace(s[|s| - 1]) ==> r != "" && r[|r| - 1] == s[|s| - 1])
  {
    if s != "" {
      CollapseTidies(s[1..], IsSpace(s[0]));
      assert |s| > 1 ==> s[1..][|s| - 2] == s[|s| - 1];
    }
  }

  lemma {:induction false} CollapseKeepsTidy(s: string, afterSpace: bool)
    requires Tidy(s) && (afterSpace && s != "" ==> !IsSpace(s[0]))
    ensures Collapse(s, afterSpace) == s
  {
    if s != "" {
      CollapseKeepsTidy(s[1..], IsSpace(s[0]));
    }
  }
}
