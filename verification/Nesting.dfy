/** Where a text is cut, counted out: at a separator met outside backticks, with neither an unclosed
    parenthesis nor an unclosed brace before it. */
module Nesting {
  import opened Prelude
  import opened PyText
  import opened Splitter

  /** The characters of a text that stand outside backticks, the backticks themselves left out. */
  function Outside(text: string): string {
    if text == "" then "" else
      var rest, c := text[..|text| - 1], text[|text| - 1];
      if c == '`' || Odd(rest) then Outside(rest) else Outside(rest) + [c]
  }

  function Ticks(text: string): nat {
    if text == "" then 0 else Ticks(text[..|text| - 1]) + if text[|text| - 1] == '`' then 1 else 0
  }

  /** The text ends inside backticks. */
  predicate Odd(text: string) {
    Ticks(text) % 2 == 1
  }

  /** How many more of the one character there are than of the other. */
  function Excess(s: string, open: char, close: char): int {
    if s == "" then 0 else
      Excess(s[..|s| - 1], open, close) +
      if s[|s| - 1] == open then 1 else if s[|s| - 1] == close then -1 else 0
  }

  /** n is the greatest excess among the endings of s, the empty one included: how many are open. */
  ghost predicate IsOpen(n: nat, s: string, open: char, close: char) {
    && (exists k :: 0 <= k <= |s| && Excess(s[k..], open, close) == n)
    && forall k :: 0 <= k <= |s| ==> Excess(s[k..], open, close) <= n
  }

  lemma ExcessSnoc(s: string, c: char, k: nat, open: char, close: char)
    requires k <= |s|
    ensures Excess((s + [c])[k..], open, close) ==
              Excess(s[k..], open, close) + if c == open then 1 else if c == close then -1 else 0
    ensures Excess((s + [c])[|s| + 1..], open, close) == 0
  {
    var t := (s + [c])[k..];
    assert t[..|t| - 1] == s[k..] && t[|t| - 1] == c;
  }

  /** One more character opens, closes unless nothing is open, or changes nothing. */
  lemma OpenSnoc(n: nat, s: string, c: char, open: char, close: char)
    requires IsOpen(n, s, open, close) && open != close
    ensures IsOpen(if c == open then n + 1 else if c == close then (if n > 0 then n - 1 else 0) else n,
                   s + [c], open, close)
  {
    var t := s + [c];
    var m: nat := if c == open then n + 1 else if c == close then (if n > 0 then n - 1 else 0) else n;
    forall k | 0 <= k <= |t| ensures Excess(t[k..], open, close) <= m {
      ExcessSnoc(s, c, if k <= |s| then k else 0, open, close);
    }
    var k :| 0 <= k <= |s| && Excess(s[k..], open, close) == n;
    ExcessSnoc(s, c, k, open, close);
    if m == 0 {
      assert Excess(t[|t|..], open, close) == m;
    } else {
      assert Excess(t[k..], open, close) == m;
    }
  }

  /** The scanner's state after a text: inside backticks after an odd number of them, and of the
      characters outside, as many parentheses and braces open as have not been closed since. */
  lemma {:induction false} ScanCounts(text: string)
    ensures var s := Scan(START, text);
            && (s.tick <==> Odd(text))
            && IsOpen(s.paren, Outside(text), '(', ')')
            && IsOpen(s.brace, Outside(text), '{', '}')
  {
    if text == "" {
      assert Excess(""[0..], '(', ')') == 0 && Excess(""[0..], '{', '}') == 0;
    } else {
      var rest, c := text[..|text| - 1], text[|text| - 1];
      ScanCounts(rest);
      assert text == rest + [c] && [c][1..] == "";
      ScanAppend(START, rest, [c]);
      assert Scan(START, text) == Step(Scan(START, rest), c);
      if c != '`' && !Odd(rest) {
        OpenSnoc(Scan(START, rest).paren, Outside(rest), c, '(', ')');
        OpenSnoc(Scan(START, rest).brace, Outside(rest), c, '{', '}');
      }
    }
  }

  /** Nothing opened is still open at the end: no ending holds more of the one than of the other. */
  ghost predicate AllClosed(s: string, open: char, close: char) {
    forall k :: 0 <= k <= |s| ==> Excess(s[k..], open, close) <= 0
  }

  /** A comma cuts the text exactly when the backticks before it are even in number and neither
      parentheses nor braces are open among the characters outside them. */
  lemma CutsExactly(text: string, i: nat)
    requires i < |text|
    ensures Cuts(Scan(START, text[..i]), text[i], ',') <==>
              && text[i] == ',' && !Odd(text[..i])
              && AllClosed(Outside(text[..i]), '(', ')') && AllClosed(Outside(text[..i]), '{', '}')
  {
    var s, before := Scan(START, text[..i]), Outside(text[..i]);
    ScanCounts(text[..i]);
    OpenOrClosed(s.paren, before, '(', ')');
    OpenOrClosed(s.brace, before, '{', '}');
  }

  lemma OpenOrClosed(n: nat, s: string, open: char, close: char)
    requires IsOpen(n, s, open, close)
    ensures n == 0 <==> AllClosed(s, open, close)
  {
    var k :| 0 <= k <= |s| && Excess(s[k..], open, close) == n;
    if AllClosed(s, open, close) {
      assert Excess(s[k..], open, close) <= 0;
    }
  }
}
