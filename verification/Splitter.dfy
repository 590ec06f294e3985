/** Splitting a table cell at its top-level separators: the ones outside parentheses, braces and
    backticks. */
module Splitter {
  import opened Prelude
  import opened PyText

  datatype Scanner = Scanner(paren: nat, brace: nat, tick: bool)

  const START: Scanner := Scanner(0, 0, false)

  function Step(s: Scanner, c: char): Scanner {
    if c == '`' then s.(tick := !s.tick)
    else if s.tick then s
    else if c == '(' then s.(paren := s.paren + 1)
    else if c == ')' then s.(paren := if s.paren > 0 then s.paren - 1 else 0)
    else if c == '{' then s.(brace := s.brace + 1)
    else if c == '}' then s.(brace := if s.brace > 0 then s.brace - 1 else 0)
    else s
  }

  /** The scanner after reading a text. */
  function Scan(s: Scanner, text: string): Scanner
    decreases text
  {
    if text == "" then s else Scan(Step(s, text[0]), text[1..])
  }

  /** c, just read, ends a part: it is the separator and the scanner is outside everything. */
  predicate Cuts(s: Scanner, c: char, sep: char) {
    c == sep && Step(s, c) == START
  }

  /** The unstripped parts: the text between the cuts. */
  function RawParts(s: Scanner, text: string, sep: char): (parts: seq<string>)
    ensures parts != []
    decreases text
  {
    if text == "" then [""] else
      var rest := RawParts(Step(s, text[0]), text[1..], sep);
      if Cuts(s, text[0], sep) then [""] + rest
      else [[text[0]] + rest[0]] + rest[1..]
  }

  function Stripped(p: string): seq<string> {
    if Strip(p) == "" then [] else [Strip(p)]
  }

  function Split(text: string, sep: char): seq<string> {
    FlatMap(Stripped, RawParts(START, text, sep))
  }

  /** The parts read so far, the part being read, and the parts of what is still to be read. */
  ghost function Assembled(raw: seq<string>, current: string, rest: seq<string>): seq<string>
    requires rest != []
  {
    raw + [current + rest[0]] + rest[1..]
  }

  lemma AssembleAll(rest: seq<string>)
    requires rest != []
    ensures Assembled([], "", rest) == rest
  {
    assert "" + rest[0] == rest[0];
  }

  lemma AssembleCut(raw: seq<string>, current: string, rest: seq<string>)
    requires rest != []
    ensures Assembled(raw, current, [""] + rest) == Assembled(raw + [current], "", rest)
  {
    assert current + "" == current && "" + rest[0] == rest[0];
    assert [rest[0]] + rest[1..] == rest;
  }

  lemma AssembleKeep(raw: seq<string>, current: string, c: char, rest: seq<string>)
    requires rest != []
    ensures Assembled(raw, current, [[c] + rest[0]] + rest[1..]) == Assembled(raw, current + [c], rest)
  {
    assert current + ([c] + rest[0]) == (current + [c]) + rest[0];
  }

  /** The scan of the source: depth counters, a tick flag, and a buffer for the part being read. */
  method ScanParts(text: string, sep: char) returns (raw: seq<string>)
    ensures raw == RawParts(START, text, sep)
  {
    raw := [];
    var depthParen, depthBrace, inTick := 0, 0, false;
    var current := "";
    assert text[0..] == text;
    AssembleAll(RawParts(START, text, sep));
    for i := 0 to |text|
      invariant depthParen >= 0 && depthBrace >= 0
      invariant RawParts(START, text, sep) ==
                  Assembled(raw, current, RawParts(Scanner(depthParen, depthBrace, inTick), text[i..], sep))
    {
      var c := text[i];
      ghost var s := Scanner(depthParen, depthBrace, inTick);
      PartsStep(s, text, i, sep, raw, current);
      if c == '`' {
        inTick := !inTick;
      } else if !inTick {
        if c == '(' {
          depthParen := depthParen + 1;
        } else if c == ')' {
          depthParen := if depthParen - 1 > 0 then depthParen - 1 else 0;
        } else if c == '{' {
          depthBrace := depthBrace + 1;
        } else if c == '}' {
          depthBrace := if depthBrace - 1 > 0 then depthBrace - 1 else 0;
        }
      }
      assert Step(s, c) == Scanner(depthParen, depthBrace, inTick);
      if c == sep && !inTick && depthParen == 0 && depthBrace == 0 {
        raw := raw + [current];
        current := "";
      } else {
        current := current + [c];
      }
    }
    assert text[|text|..] == "" && current + "" == current;
    raw := raw + [current];
  }

  lemma PartsStep(s: Scanner, text: string, i: nat, sep: char, raw: seq<string>, current: string)
    requires i < |text|
    ensures var c := text[i];
            var rest := RawParts(Step(s, c), text[i + 1..], sep);
            Assembled(raw, current, RawParts(s, text[i..], sep)) ==
              if Cuts(s, c, sep) then Assembled(raw + [current], "", rest) else Assembled(raw, current + [c], rest)
  {
    assert text[i..][0] == text[i] && text[i..][1..] == text[i + 1..];
    var rest := RawParts(Step(s, text[i]), text[i + 1..], sep);
    AssembleCut(raw, current, rest);
    AssembleKeep(raw, current, text[i], rest);
  }

  /** Scans the text into parts and keeps the ones that are not blank, stripped. */
  method SplitTopLevel(text: string, sep: char) returns (parts: seq<string>)
    ensures parts == Split(text, sep)
  {
    var raw := ScanParts(text, sep);
    parts := [];
    for k := 0 to |raw|
      invariant parts == FlatMap(Stripped, raw[..k])
    {
      FlatMapStep(Stripped, raw, k);
      if Strip(raw[k]) != "" {
        parts := parts + [Strip(raw[k])];
      }
    }
    assert raw[..|raw|] == raw;
  }

  // ------------------------------------------------------------------ laws

  function Join(parts: seq<string>, sep: string): string {
    if parts == [] then ""
    else if |parts| == 1 then parts[0]
    else parts[0] + sep + Join(parts[1..], sep)
  }

  /** Nothing is lost: the raw parts joined by the separator are the text. */
  lemma {:induction false} JoinOfRawParts(s: Scanner, text: string, sep: char)
    ensures Join(RawParts(s, text, sep), [sep]) == text
    decreases text
  {
    if text != "" {
      var rest := RawParts(Step(s, text[0]), text[1..], sep);
      JoinOfRawParts(Step(s, text[0]), text[1..], sep);
      if Cuts(s, text[0], sep) {
        assert ([""] + rest)[1..] == rest;
      } else {
        var parts := [[text[0]] + rest[0]] + rest[1..];
        assert parts[1..] == rest[1..];
        assert Join(parts, [sep]) == [text[0]] + Join(rest, [sep]);
      }
    }
  }

  /** No separator in the text is at top level when scanning starts from s. */
  ghost predicate Uncut(s: Scanner, text: string, sep: char) {
    forall i :: 0 <= i < |text| ==> !Cuts(Scan(s, text[..i]), text[i], sep)
  }

  lemma {:induction false} UncutTail(s: Scanner, text: string, sep: char)
    requires text != ""
    ensures Uncut(s, text, sep) <==> !Cuts(s, text[0], sep) && Uncut(Step(s, text[0]), text[1..], sep)
  {
    var t := text[1..];
    assert text[..0] == "" && Scan(s, "") == s;
    forall i | 0 <= i < |t| ensures Scan(Step(s, text[0]), t[..i]) == Scan(s, text[..i + 1]) && t[i] == text[i + 1] {
      assert text[..i + 1][0] == text[0] && text[..i + 1][1..] == t[..i];
    }
    if !Cuts(s, text[0], sep) && Uncut(Step(s, text[0]), t, sep) {
      forall i | 0 <= i < |text| ensures !Cuts(Scan(s, text[..i]), text[i], sep) {
        if i > 0 {
          assert t[i - 1] == text[i];
        }
      }
    }
  }

  /** A text is one part exactly when it has no top-level separator. */
  lemma {:induction false} OnePartIffUncut(s: Scanner, text: string, sep: char)
    ensures |RawParts(s, text, sep)| == 1 <==> Uncut(s, text, sep)
    ensures Uncut(s, text, sep) ==> RawParts(s, text, sep) == [text]
    decreases text
  {
    if text != "" {
      UncutTail(s, text, sep);
      OnePartIffUncut(Step(s, text[0]), text[1..], sep);
      assert [text[0]] + text[1..] == text;
    }
  }

  lemma {:induction false} ScanAppend(s: Scanner, a: string, b: string)
    ensures Scan(s, a + b) == Scan(Scan(s, a), b)
    decreases a
  {
    if a == "" {
      assert a + b == b;
    } else {
      assert (a + b)[1..] == a[1..] + b;
      ScanAppend(Step(s, a[0]), a[1..], b);
    }
  }

  /** The positions before n at which the text is cut. */
  ghost function CutsBefore(s: Scanner, text: string, sep: char, n: nat): set<nat>
    requires n <= |text|
  {
    set i: nat | i < n && Cuts(Scan(s, text[..i]), text[i], sep)
  }

  /** There is one part more than there are separators met outside everything. */
  lemma {:induction false} PartsCountCuts(s: Scanner, text: string, sep: char)
    ensures |RawParts(s, text, sep)| == 1 + |CutsBefore(s, text, sep, |text|)|
  {
    PartsOfPrefix(s, text, sep, |text|);
    assert text[..|text|] == text;
  }

  lemma {:induction false} PartsOfPrefix(s: Scanner, text: string, sep: char, n: nat)
    requires n <= |text|
    ensures |RawParts(s, text[..n], sep)| == 1 + |CutsBefore(s, text, sep, n)|
  {
    if n == 0 {
      assert CutsBefore(s, text, sep, 0) == {};
    } else {
      PartsOfPrefix(s, text, sep, n - 1);
      assert text[..n] == text[..n - 1] + [text[n - 1]];
      OneMoreCharacter(s, text[..n - 1], text[n - 1], sep);
      OneMoreCut(s, text, sep, n - 1);
    }
  }

  lemma OneMoreCut(s: Scanner, text: string, sep: char, n: nat)
    requires n < |text|
    ensures |CutsBefore(s, text, sep, n + 1)| ==
              |CutsBefore(s, text, sep, n)| + if Cuts(Scan(s, text[..n]), text[n], sep) then 1 else 0
  {
    var before := CutsBefore(s, text, sep, n);
    if Cuts(Scan(s, text[..n]), text[n], sep) {
      assert CutsBefore(s, text, sep, n + 1) == before + {n};
    } else {
      assert CutsBefore(s, text, sep, n + 1) == before;
    }
  }

  lemma {:induction false} OneMoreCharacter(s: Scanner, a: string, c: char, sep: char)
    ensures |RawParts(s, a + [c], sep)| == |RawParts(s, a, sep)| + if Cuts(Scan(s, a), c, sep) then 1 else 0
    decreases a
  {
    if a == "" {
      assert a + [c] == [c] && [c][1..] == "";
    } else {
      HeadOfAppend(a, [c]);
      OneMoreCharacter(Step(s, a[0]), a[1..], c, sep);
    }
  }

  /** Splitting is a homomorphism wherever scanning the left piece ends outside everything, for any
      separator that does not itself open anything. */
  lemma {:induction false} RawPartsAppend(s: Scanner, a: string, sep: char, b: string)
    requires Scan(s, a) == START && sep !in {'(', '{', '`'}
    ensures RawParts(s, a + [sep] + b, sep) == RawParts(s, a, sep) + RawParts(START, b, sep)
    decreases a
  {
    var text := a + [sep] + b;
    if a == "" {
      assert text[0] == sep && text[1..] == b;
    } else {
      HeadOfAppend(a, [sep]);
      HeadOfAppend(a + [sep], b);
      RawPartsAppend(Step(s, a[0]), a[1..], sep, b);
      LeadAppend(Cuts(s, a[0], sep), a[0], RawParts(Step(s, a[0]), a[1..], sep), RawParts(START, b, sep));
    }
  }

  lemma LeadAppend(cut: bool, c: char, x: seq<string>, y: seq<string>)
    requires x != []
    ensures (if cut then [""] + (x + y) else [[c] + (x + y)[0]] + (x + y)[1..]) ==
              (if cut then [""] + x else [[c] + x[0]] + x[1..]) + y
  {
  }

  lemma SplitAppend(a: string, sep: char, b: string)
    requires Scan(START, a) == START && sep !in {'(', '{', '`'}
    ensures Split(a + [sep] + b, sep) == Split(a, sep) + Split(b, sep)
  {
    RawPartsAppend(START, a, sep, b);
    FlatMapAppend(Stripped, RawParts(START, a, sep), RawParts(START, b, sep));
  }

  /** Each part was scanned from the outside and holds no top-level separator. */
  lemma {:induction false} PartsAreUncut(s: Scanner, text: string, sep: char)
    ensures var parts := RawParts(s, text, sep);
            Uncut(s, parts[0], sep) && forall k :: 1 <= k < |parts| ==> Uncut(START, parts[k], sep)
    decreases text
  {
    if text != "" {
      PartsAreUncut(Step(s, text[0]), text[1..], sep);
      var rest := RawParts(Step(s, text[0]), text[1..], sep);
      if !Cuts(s, text[0], sep) {
        var first := [text[0]] + rest[0];
        assert first[1..] == rest[0];
        UncutTail(s, first, sep);
      }
    }
  }

  lemma {:induction false} SpacesDoNotMove(s: Scanner, spaces: string)
    requires forall k :: 0 <= k < |spaces| ==> IsSpace(spaces[k])
    ensures Scan(s, spaces) == s
    decreases spaces
  {
    if spaces != "" {
      SpacesDoNotMove(s, spaces[1..]);
    }
  }

  lemma UncutMiddle(text: string, i: nat, j: nat, sep: char)
    requires i <= j <= |text| && Uncut(START, text, sep)
    requires forall k :: 0 <= k < i ==> IsSpace(text[k])
    ensures Uncut(START, text[i..j], sep)
  {
    var m := text[i..j];
    SpacesDoNotMove(START, text[..i]);
    forall k | 0 <= k < |m| ensures !Cuts(Scan(START, m[..k]), m[k], sep) {
      assert text[..i + k] == text[..i] + m[..k];
      ScanAppend(START, text[..i], m[..k]);
      assert m[k] == text[i + k];
    }
  }

  lemma StripIsMiddle(s: string) returns (i: nat, j: nat)
    ensures i <= j <= |s| && Strip(s) == s[i..j]
    ensures forall k :: 0 <= k < i ==> IsSpace(s[k])
  {
    i, j := SkipLead(s, 0), SkipTail(s, |s|);
    if j <= i {
      j := i;
    }
  }

  /** Every part that comes out splits again into itself alone. */
  lemma PartsAreStable(text: string, sep: char)
    ensures forall p :: p in Split(text, sep) ==> Split(p, sep) == [p]
  {
    var raw := RawParts(START, text, sep);
    forall p | p in Split(text, sep) ensures Split(p, sep) == [p] {
      InFlatMap(Stripped, raw, p);
      var k :| 0 <= k < |raw| && p in Stripped(raw[k]);
      PartsAreUncut(START, text, sep);
      UncutIsStable(raw[k], p, sep);
    }
  }

  lemma UncutIsStable(raw: string, p: string, sep: char)
    requires Uncut(START, raw, sep) && p in Stripped(raw)
    ensures Split(p, sep) == [p]
  {
    var i, j := StripIsMiddle(raw);
    UncutMiddle(raw, i, j, sep);
    StripTrims(raw);
    WholeTerm(p, sep);
  }

  /** A trimmed, non-empty text without top-level separators is its own only part. */
  lemma WholeTerm(p: string, sep: char)
    requires p != "" && Trimmed(p) && Uncut(START, p, sep)
    ensures Split(p, sep) == [p]
  {
    OnePartIffUncut(START, p, sep);
    StripTrims(p);
    assert FlatMap(Stripped, [p]) == Stripped(p) + [];
  }

  /** A term of a list: trimmed, non-empty, balanced, and with its separators inside something. */
  ghost predicate IsTerm(p: string, sep: char) {
    p != "" && Trimmed(p) && Uncut(START, p, sep) && Scan(START, p) == START
  }

  /** Splitting what was joined by the separator and a blank gives the terms back. */
  lemma {:induction false} SplitOfJoin(terms: seq<string>)
    requires forall k :: 0 <= k < |terms| ==> IsTerm(terms[k], ',')
    ensures Split(Join(terms, ", "), ',') == terms
  {
    if terms == [] {
      assert RawParts(START, "", ',') == [""] && Strip("") == "";
      assert FlatMap(Stripped, [""]) == Stripped("") + FlatMap(Stripped, []);
    } else if |terms| == 1 {
      WholeTerm(terms[0], ',');
    } else {
      var rest := Join(terms[1..], ", ");
      assert ", " == [','] + " ";
      assert terms[0] + ", " + rest == terms[0] + [','] + (" " + rest);
      SplitAppend(terms[0], ',', " " + rest);
      WholeTerm(terms[0], ',');
      SplitOfJoin(terms[1..]);
      LeadingBlank(rest);
    }
  }

  lemma StripOfBlank(s: string)
    requires forall k :: 0 <= k < |s| ==> IsSpace(s[k])
    ensures Strip(s) == ""
  {
    assert SkipTail(s, |s|) == 0;
  }

  lemma StripLeadingBlank(s: string)
    ensures Strip(" " + s) == Strip(s)
  {
    var i, j := SkipLead(s, 0), SkipTail(s, |s|);
    if i < j {
      var m := s[i..j];
      assert " " + s == (" " + s[..i]) + m + s[j..];
      StripAround(" " + s[..i], m, s[j..]);
    } else {
      StripOfBlank(s);
      StripOfBlank(" " + s);
    }
  }

  /** A blank before a list does not change how it splits. */
  lemma LeadingBlank(text: string)
    ensures Split(" " + text, ',') == Split(text, ',')
  {
    var t := " " + text;
    var rest := RawParts(START, text, ',');
    assert t[0] == ' ' && t[1..] == text;
    assert RawParts(START, t, ',') == [" " + rest[0]] + rest[1..];
    FlatMapAppend(Stripped, [" " + rest[0]], rest[1..]);
    FlatMapAppend(Stripped, [rest[0]], rest[1..]);
    assert [rest[0]] + rest[1..] == rest;
    StripLeadingBlank(rest[0]);
    assert FlatMap(Stripped, [" " + rest[0]]) == Stripped(" " + rest[0]) + [];
    assert FlatMap(Stripped, [rest[0]]) == Stripped(rest[0]) + [];
  }
}
