/** Annotations: the text after a declaration. What in it counts as a marked value, exactly, and that
    it declares nothing otherwise. */
module Annotations {
  import opened Prelude
  import opened PyText
  import opened Splitter
  import opened Payload
  import opened Grammar

  // ------------------------------------------------------------------ blanks and words

  predicate Blank(s: string) {
    forall k :: 0 <= k < |s| ==> IsSpace(s[k])
  }

  lemma {:induction false} SpacesAreSkipped(blank: string, rest: string)
    requires Blank(blank) && (rest == "" || !IsSpace(rest[0]))
    ensures SkipSpaces(blank + rest) == rest
  {
    if blank == "" {
      assert blank + rest == rest;
    } else {
      assert (blank + rest)[0] == blank[0] && (blank + rest)[1..] == blank[1..] + rest;
      SpacesAreSkipped(blank[1..], rest);
    }
  }

  /** What is skipped is blank, and what is left does not start with a blank. */
  lemma {:induction false} SkippedSpaces(s: string) returns (blank: string)
    ensures s == blank + SkipSpaces(s) && Blank(blank)
    ensures SkipSpaces(s) == "" || !IsSpace(SkipSpaces(s)[0])
  {
    if s != "" && IsSpace(s[0]) {
      var rest := SkippedSpaces(s[1..]);
      blank := [s[0]] + rest;
      Reattach(s, rest, SkipSpaces(s));
    } else {
      blank := "";
    }
  }

  lemma Reattach(s: string, a: string, b: string)
    requires s != "" && s[1..] == a + b
    ensures s == ([s[0]] + a) + b
  {
    HeadAndTail(s);
  }

  predicate WordChars(s: string) {
    forall k :: 0 <= k < |s| ==> IsWordChar(s[k])
  }

  lemma {:induction false} WordIsSkipped(word: string, rest: string)
    requires WordChars(word) && rest != "" && !IsWordChar(rest[0])
    ensures SkipWord(word + rest) == rest
  {
    if word == "" {
      assert word + rest == rest;
    } else {
      assert (word + rest)[0] == word[0] && (word + rest)[1..] == word[1..] + rest;
      WordIsSkipped(word[1..], rest);
    }
  }

  lemma {:induction false} SkippedWord(s: string) returns (word: string)
    ensures s == word + SkipWord(s) && WordChars(word)
    ensures s != "" && IsWordChar(s[0]) ==> word != "" && word[0] == s[0]
  {
    if s != "" && IsWordChar(s[0]) {
      var rest := SkippedWord(s[1..]);
      word := [s[0]] + rest;
      Reattach(s, rest, SkipWord(s));
    } else {
      word := "";
    }
  }

  // ------------------------------------------------------------------ what counts as a mark

  /** A letter, and after it letters, digits and underscores. */
  predicate IsValueWord(w: string) {
    && w != "" && ('a' <= w[0] <= 'z' || 'A' <= w[0] <= 'Z')
    && forall k :: 0 <= k < |w| ==>
         'a' <= w[k] <= 'z' || 'A' <= w[k] <= 'Z' || '0' <= w[k] <= '9' || w[k] == '_'
  }

  /** Blanks, `=`, blanks, a word starting with a letter, blanks, a backtick, anything. */
  predicate FixedForm(t: string, b1: string, b2: string, word: string, b3: string, post: string) {
    && t == b1 + (['='] + (b2 + (word + (b3 + (['`'] + post)))))
    && Blank(b1) && Blank(b2) && Blank(b3)
    && IsValueWord(word)
  }

  /** Blanks, an opening brace, anything without a closing brace, a closing brace, anything. */
  predicate EnumForm(t: string, blank: string, inner: string, post: string) {
    t == blank + (['{'] + (inner + (['}'] + post))) && Blank(blank) && Lacks(inner, '}')
  }

  lemma FixedFormIsRead(t: string, b1: string, b2: string, word: string, b3: string, post: string)
    requires FixedForm(t, b1, b2, word, b3, post)
    ensures FixedAfterTick(t) == Some(word)
  {
    var after := ['`'] + post;
    var tail := b3 + after;
    var eq := ['='] + (b2 + (word + tail));
    SpacesAreSkipped(b1, eq);
    assert eq[1..] == b2 + (word + tail);
    assert (word + tail)[0] == word[0] && !IsSpace(word[0]);
    SpacesAreSkipped(b2, word + tail);
    assert tail[0] == if b3 == "" then '`' else b3[0];
    WordIsSkipped(word, tail);
    SpacesAreSkipped(b3, after);
    assert (word + tail)[..|word|] == word;
  }

  lemma HeadAndTail(s: string)
    requires s != ""
    ensures s == [s[0]] + s[1..]
  {
  }

  lemma WordInFront(word: string, tail: string)
    ensures (word + tail)[..|word + tail| - |tail|] == word
  {
  }

  lemma ReadIsFixedForm(t: string) returns (b1: string, b2: string, word: string, b3: string, post: string)
    requires FixedAfterTick(t).Some?
    ensures FixedForm(t, b1, b2, word, b3, post) && FixedAfterTick(t) == Some(word)
  {
    b1 := SkippedSpaces(t);
    var eq := SkipSpaces(t);
    b2 := SkippedSpaces(eq[1..]);
    var rest := SkipSpaces(eq[1..]);
    word := SkippedWord(rest);
    var tail := SkipWord(rest);
    b3 := SkippedSpaces(tail);
    post := SkipSpaces(tail)[1..];
    HeadAndTail(eq);
    HeadAndTail(SkipSpaces(tail));
    WordInFront(word, tail);
  }

  lemma EnumFormIsRead(t: string, blank: string, inner: string, post: string)
    requires EnumForm(t, blank, inner, post)
    ensures EnumAfterSign(t) == Some(Values(inner))
  {
    var rest := ['{'] + (inner + (['}'] + post));
    SpacesAreSkipped(blank, rest);
    assert rest == (['{'] + inner) + ['}'] + post;
    CutAtFirst(['{'] + inner, '}', post);
    assert rest[1..|inner| + 1] == inner;
  }

  lemma BracesAt(rest: string, i: nat)
    requires 0 < i < |rest| && rest[0] == '{' && rest[i] == '}'
    ensures rest == ['{'] + (rest[1..i] + (['}'] + rest[i + 1..]))
  {
  }

  lemma ReadIsEnumForm(t: string) returns (blank: string, inner: string, post: string)
    requires EnumAfterSign(t).Some?
    ensures EnumForm(t, blank, inner, post) && EnumAfterSign(t) == Some(Values(inner))
  {
    blank := SkippedSpaces(t);
    var rest := SkipSpaces(t);
    var i := IndexOf(rest, '}');
    inner, post := rest[1..i], rest[i + 1..];
    BracesAt(rest, i);
    assert forall k :: 0 <= k < |inner| ==> inner[k] == rest[k + 1];
  }

  lemma SignBetween(pre: string, sign: char, t: string)
    ensures var a := pre + ([sign] + t); |pre| < |a| && a[|pre|] == sign && a[|pre| + 1..] == t
  {
  }

  ghost predicate StartsFixed(t: string, word: string) {
    exists b1, b2, b3, post :: FixedForm(t, b1, b2, word, b3, post)
  }

  ghost predicate StartsEnum(t: string, inner: string) {
    exists blank, post :: EnumForm(t, blank, inner, post)
  }

  lemma StartsFixedExactly(t: string, word: string)
    ensures FixedAfterTick(t) == Some(word) <==> StartsFixed(t, word)
  {
    if FixedAfterTick(t) == Some(word) {
      var b1, b2, w, b3, post := ReadIsFixedForm(t);
    }
    if StartsFixed(t, word) {
      var b1, b2, b3, post :| FixedForm(t, b1, b2, word, b3, post);
      FixedFormIsRead(t, b1, b2, word, b3, post);
    }
  }

  lemma StartsEnumExactly(t: string)
    ensures EnumAfterSign(t).Some? <==> exists inner :: StartsEnum(t, inner)
    ensures EnumAfterSign(t).Some? ==>
              exists inner :: StartsEnum(t, inner) && EnumAfterSign(t).value == Values(inner)
  {
    if EnumAfterSign(t).Some? {
      var blank, inner, post := ReadIsEnumForm(t);
      assert StartsEnum(t, inner);
    }
    if inner :| StartsEnum(t, inner) {
      var blank, post :| EnumForm(t, blank, inner, post);
      EnumFormIsRead(t, blank, inner, post);
    }
  }

  // ------------------------------------------------------------------ the leftmost search

  predicate ReadsAt<T>(sign: char, read: string -> Option<T>, s: string, j: nat) {
    j < |s| && s[j] == sign && read(s[j + 1..]).Some?
  }

  /** A search that finds something finds it at the first sign after which there is something. */
  lemma {:induction false} FoundAt<T>(sign: char, read: string -> Option<T>, s: string, i: nat) returns (j: nat)
    requires i <= |s| && FirstRead(sign, read, s, i).Some?
    ensures i <= j && ReadsAt(sign, read, s, j) && FirstRead(sign, read, s, i) == read(s[j + 1..])
    ensures forall k :: i <= k < j ==> !ReadsAt(sign, read, s, k)
    decreases |s| - i
  {
    if s[i] == sign && read(s[i + 1..]).Some? {
      j := i;
    } else {
      j := FoundAt(sign, read, s, i + 1);
    }
  }

  /** A search misses nothing that lies ahead. */
  lemma {:induction false} NotMissed<T>(sign: char, read: string -> Option<T>, s: string, i: nat, j: nat)
    requires i <= j && ReadsAt(sign, read, s, j)
    ensures FirstRead(sign, read, s, i).Some?
    decreases j - i
  {
    if i < j {
      NotMissed(sign, read, s, i + 1, j);
    }
  }

  lemma NotReadAt<T>(sign: char, read: string -> Option<T>, s: string, i: nat)
    requires i < |s| && !ReadsAt(sign, read, s, i)
    ensures FirstRead(sign, read, s, i) == FirstRead(sign, read, s, i + 1)
  {
  }

  lemma {:induction false} SkipsTo<T>(sign: char, read: string -> Option<T>, s: string, i: nat, j: nat)
    requires i <= j <= |s| && forall k :: i <= k < j ==> !ReadsAt(sign, read, s, k)
    ensures FirstRead(sign, read, s, i) == FirstRead(sign, read, s, j)
    decreases j - i
  {
    if i < j {
      NotReadAt(sign, read, s, i);
      SkipsTo(sign, read, s, i + 1, j);
    }
  }

  // ------------------------------------------------------------------ marks are read, and only marks

  /** The word is marked at position i: a backtick there is followed by `= word` and a backtick. */
  ghost predicate FixedAt(a: string, i: nat, word: string) {
    i < |a| && a[i] == '`' && StartsFixed(a[i + 1..], word)
  }

  /** An enum is marked at position i: a `∈` there is followed by braces around inner. */
  ghost predicate EnumAt(a: string, i: nat, inner: string) {
    i < |a| && a[i] == '∈' && StartsEnum(a[i + 1..], inner)
  }

  ghost predicate MarksFixed(a: string, word: string) {
    exists i :: FixedAt(a, i, word)
  }

  ghost predicate MarksEnum(a: string, inner: string) {
    exists i :: EnumAt(a, i, inner)
  }

  /** No fixed value is marked before position i. */
  ghost predicate NoFixedBefore(a: string, i: nat) {
    forall j: nat, word :: j < i ==> !FixedAt(a, j, word)
  }

  ghost predicate NoEnumBefore(a: string, i: nat) {
    forall j: nat, inner :: j < i ==> !EnumAt(a, j, inner)
  }

  /** The word is that of the leftmost mark. */
  ghost predicate FirstFixed(a: string, word: string) {
    exists i: nat :: FixedAt(a, i, word) && NoFixedBefore(a, i)
  }

  ghost predicate FirstEnum(a: string, inner: string) {
    exists i: nat :: EnumAt(a, i, inner) && NoEnumBefore(a, i)
  }

  lemma ReadFixedIsFirst(a: string)
    requires MarkedFixed(a).Some?
    ensures FirstFixed(a, MarkedFixed(a).value)
  {
    var i := FoundAt('`', FixedAfterTick, a, 0);
    StartsFixedExactly(a[i + 1..], MarkedFixed(a).value);
    forall j: nat, word | j < i ensures !FixedAt(a, j, word) {
      if FixedAt(a, j, word) {
        StartsFixedExactly(a[j + 1..], word);
        assert ReadsAt('`', FixedAfterTick, a, j);
      }
    }
    assert FixedAt(a, i, MarkedFixed(a).value) && NoFixedBefore(a, i);
  }

  /** A fixed value is read from an annotation exactly when the annotation marks one, and then it is
      the word of the leftmost mark. */
  lemma FixedMarkedExactly(a: string)
    ensures MarkedFixed(a).Some? <==> exists word :: MarksFixed(a, word)
    ensures MarkedFixed(a).Some? ==> FirstFixed(a, MarkedFixed(a).value)
  {
    if MarkedFixed(a).Some? {
      ReadFixedIsFirst(a);
      assert MarksFixed(a, MarkedFixed(a).value);
    }
    if word :| MarksFixed(a, word) {
      var i :| FixedAt(a, i, word);
      StartsFixedExactly(a[i + 1..], word);
      NotMissed('`', FixedAfterTick, a, 0, i);
    }
  }

  lemma ReadEnumIsFirst(a: string) returns (inner: string)
    requires MarkedEnum(a).Some?
    ensures FirstEnum(a, inner) && MarkedEnum(a).value == Values(inner)
  {
    var i := FoundAt('∈', EnumAfterSign, a, 0);
    StartsEnumExactly(a[i + 1..]);
    inner :| StartsEnum(a[i + 1..], inner) && EnumAfterSign(a[i + 1..]).value == Values(inner);
    forall j: nat, other | j < i ensures !EnumAt(a, j, other) {
      if EnumAt(a, j, other) {
        StartsEnumExactly(a[j + 1..]);
        assert ReadsAt('∈', EnumAfterSign, a, j);
      }
    }
    assert EnumAt(a, i, inner) && NoEnumBefore(a, i);
  }

  /** An enum is read from an annotation exactly when the annotation marks one, and then it is the
      values of the leftmost mark. */
  lemma EnumMarkedExactly(a: string)
    ensures MarkedEnum(a).Some? <==> exists inner :: MarksEnum(a, inner)
    ensures MarkedEnum(a).Some? ==> exists inner :: FirstEnum(a, inner) && MarkedEnum(a).value == Values(inner)
  {
    if MarkedEnum(a).Some? {
      var inner := ReadEnumIsFirst(a);
      assert MarksEnum(a, inner);
    }
    if inner :| MarksEnum(a, inner) {
      var i :| EnumAt(a, i, inner);
      StartsEnumExactly(a[i + 1..]);
      NotMissed('∈', EnumAfterSign, a, 0, i);
    }
  }

  /** No fixed value and no enum is marked anywhere in the annotation. */
  ghost predicate Unmarked(a: string) {
    (forall word :: !MarksFixed(a, word)) && forall inner :: !MarksEnum(a, inner)
  }

  lemma UnmarkedIsUnread(a: string)
    ensures Unmarked(a) <==> MarkedFixed(a) == None && MarkedEnum(a) == None
  {
    FixedMarkedExactly(a);
    EnumMarkedExactly(a);
  }

  /** Prose marks nothing, whatever names it quotes and whatever formulas it spells out, as long as it
      does not do both: without `∈`, a text without `=` is unmarked, and so is one without backticks. */
  lemma ProseIsUnmarked(a: string)
    requires Lacks(a, '∈') && (Lacks(a, '=') || Lacks(a, '`'))
    ensures Unmarked(a)
  {
    UnmarkedIsUnread(a);
    if MarkedFixed(a).Some? {
      var i := FoundAt('`', FixedAfterTick, a, 0);
      SignInTail(a, i + 1);
    }
    if MarkedEnum(a).Some? {
      var i := FoundAt('∈', EnumAfterSign, a, 0);
    }
  }

  /** What is left after skipping blanks is a part of the text. */
  lemma {:induction false} SkippedIsTail(s: string) returns (j: nat)
    ensures j <= |s| && SkipSpaces(s) == s[j..]
  {
    if s != "" && IsSpace(s[0]) {
      var k := SkippedIsTail(s[1..]);
      j := k + 1;
    } else {
      j := 0;
    }
  }

  lemma SignInTail(a: string, i: nat)
    requires i <= |a| && FixedAfterTick(a[i..]).Some?
    ensures !Lacks(a, '=')
  {
    var j := SkippedIsTail(a[i..]);
    assert a[i..][j] == a[i + j];
  }

  // ------------------------------------------------------------------ formulas read as values

  /** An annotation that relates two quoted names by a formula. */
  function Formula(left: string, word: string, right: string): string {
    "(`" + (left + (['`'] + Between(word, right)))
  }

  function Between(word: string, right: string): string {
    " " + (['='] + (" " + (word + (" " + (['`'] + (right + "`)"))))))
  }

  /** The formula's word is read as a fixed value, although its equals sign stands outside the
      backticks: the closing backtick of one name and the opening one of the next enclose it. */
  lemma FormulaIsReadAsValue(left: string, word: string, right: string)
    requires IsName(left) && IsValueWord(word)
    ensures MarkedFixed(Formula(left, word, right)) == Some(word)
  {
    BetweenIsForm(word, right);
    FixedFormIsRead(Between(word, right), " ", " ", word, " ", right + "`)");
    ClosingTickReads(left, Between(word, right));
  }

  lemma ClosingTickReads(left: string, t: string)
    requires IsName(left) && FixedAfterTick(t).Some?
    ensures MarkedFixed("(`" + (left + (['`'] + t))) == FixedAfterTick(t)
  {
    var a, i := "(`" + (left + (['`'] + t)), |left| + 2;
    OpenedName(left, t);
    forall k | 0 <= k < i ensures !ReadsAt('`', FixedAfterTick, a, k) {
      if k == 1 {
        NameIsNoMark(left, ['`'] + t);
      } else if k > 1 {
        assert a[k] == left[k - 2];
      }
    }
    SkipsTo('`', FixedAfterTick, a, 0, i);
  }

  lemma OpenedName(left: string, t: string)
    ensures var a, i := "(`" + (left + (['`'] + t)), |left| + 2;
            && i < |a| && a[0] == '(' && a[1] == '`' && a[2..] == left + (['`'] + t)
            && a[i] == '`' && a[i + 1..] == t
            && forall k :: 2 <= k < i ==> a[k] == left[k - 2]
  {
    SignBetween("(`" + left, '`', t);
    assert "(`" + (left + (['`'] + t)) == ("(`" + left) + (['`'] + t);
  }

  lemma BetweenIsForm(word: string, right: string)
    requires IsValueWord(word)
    ensures FixedForm(Between(word, right), " ", " ", word, " ", right + "`)")
  {
  }

  /** A backtick that opens a name marks no value. */
  lemma NameIsNoMark(name: string, rest: string)
    requires IsName(name)
    ensures FixedAfterTick(name + rest).None?
  {
    assert (name + rest)[0] == name[0];
  }

  // ------------------------------------------------------------------ markers are read

  /** An annotation's `∈ {…}` is read with all its values. */
  lemma EnumMarkerRead(prefix: string, blank: string, values: seq<string>, suffix: string)
    requires Lacks(prefix, '∈') && Blank(blank)
    requires forall k :: 0 <= k < |values| ==> IsValue(values[k]) && Lacks(values[k], '}')
    ensures var t := blank + (['{'] + (Join(values, ",") + (['}'] + suffix)));
            MarkedEnum(prefix + (['∈'] + t)) == Some(values)
  {
    var inner := Join(values, ",");
    var t := blank + (['{'] + (inner + (['}'] + suffix)));
    JoinLacks(values, ",", '}');
    EnumFormIsRead(t, blank, inner, suffix);
    ValuesOfJoin(values);
    FirstSignRead(prefix, '∈', EnumAfterSign, t);
  }

  /** An annotation's first backticked `= X` is read. */
  lemma FixedMarkerRead(prefix: string, b1: string, b2: string, word: string, b3: string, suffix: string)
    requires Lacks(prefix, '`') && Blank(b1) && Blank(b2) && Blank(b3) && IsValueWord(word)
    ensures var t := b1 + (['='] + (b2 + (word + (b3 + (['`'] + suffix)))));
            MarkedFixed(prefix + (['`'] + t)) == Some(word)
  {
    var t := b1 + (['='] + (b2 + (word + (b3 + (['`'] + suffix)))));
    FixedFormIsRead(t, b1, b2, word, b3, suffix);
    FirstSignRead(prefix, '`', FixedAfterTick, t);
  }

  /** A search that meets its sign first where the reader succeeds returns what the reader does. */
  lemma FirstSignRead<T>(prefix: string, sign: char, read: string -> Option<T>, t: string)
    requires Lacks(prefix, sign) && read(t).Some?
    ensures FirstRead(sign, read, prefix + ([sign] + t), 0) == read(t)
  {
    var s := prefix + ([sign] + t);
    SignBetween(prefix, sign, t);
    SkipsTo(sign, read, s, 0, |prefix|);
  }

  // ------------------------------------------------------------------ annotations declare nothing

  lemma IndexInPrefix(s: string, a: string, c: char)
    requires IndexOf(s, c) < |s|
    ensures IndexOf(s + a, c) == IndexOf(s, c)
  {
    var i := IndexOf(s, c);
    assert forall k :: 0 <= k <= i ==> (s + a)[k] == s[k];
  }

  /** Text after a term's first backticked token only lengthens what follows the token. */
  lemma {:induction false} FirstTickedAppend(s: string, a: string)
    requires FirstTicked(s).Some?
    ensures FirstTicked(s + a) == Some((FirstTicked(s).value.0, FirstTicked(s).value.1 + a))
    decreases |s|
  {
    var i := IndexOf(s, '`');
    var t := s[i + 1..];
    var n := IndexOf(t, '`');
    IndexInPrefix(s, a, '`');
    IndexInPrefix(t, a, '`');
    assert (s + a)[i + 1..] == t + a;
    if n > 0 {
      assert (s + a)[i + 1..i + 1 + n] == s[i + 1..i + 1 + n] && (s + a)[i + n + 2..] == s[i + n + 2..] + a;
    } else {
      FirstTickedAppend(t, a);
    }
  }

  /** An annotation for a term: balanced, and leaving what follows the term's token unmarked. A term of
      prose, without a token, may only be lengthened by prose. */
  ghost predicate Annotates(term: string, a: string) {
    ValidAnnotation(a) &&
    if FirstTicked(term).Some? then Unmarked(FirstTicked(term).value.1 + a)
    else a == "" || Lacks(term + a, '`')
  }

  lemma FixedFormLengthens(t: string, b1: string, b2: string, word: string, b3: string, post: string, a: string)
    requires FixedForm(t, b1, b2, word, b3, post)
    ensures FixedForm(t + a, b1, b2, word, b3, post + a)
  {
  }

  lemma EnumFormLengthens(t: string, blank: string, inner: string, post: string, a: string)
    requires EnumForm(t, blank, inner, post)
    ensures EnumForm(t + a, blank, inner, post + a)
  {
    Lengthen(inner, ['}'], post, a);
    Lengthen(blank, ['{'], inner + (['}'] + post), a);
  }

  lemma FixedMarkStays(s: string, a: string, word: string)
    requires MarksFixed(s, word)
    ensures MarksFixed(s + a, word)
  {
    var i :| FixedAt(s, i, word);
    var b1, b2, b3, post :| FixedForm(s[i + 1..], b1, b2, word, b3, post);
    FixedFormLengthens(s[i + 1..], b1, b2, word, b3, post, a);
    assert (s + a)[i + 1..] == s[i + 1..] + a;
    assert FixedAt(s + a, i, word);
  }

  lemma EnumMarkStays(s: string, a: string, inner: string)
    requires MarksEnum(s, inner)
    ensures MarksEnum(s + a, inner)
  {
    var i :| EnumAt(s, i, inner);
    var blank, post :| EnumForm(s[i + 1..], blank, inner, post);
    EnumFormLengthens(s[i + 1..], blank, inner, post, a);
    assert (s + a)[i + 1..] == s[i + 1..] + a;
    assert EnumAt(s + a, i, inner);
  }

  lemma Lengthen(x: string, y: string, z: string, a: string)
    ensures (x + (y + z)) + a == x + (y + (z + a))
  {
  }

  /** A mark in a text is a mark in any longer one. */
  lemma MarksStay(s: string, a: string)
    requires Unmarked(s + a)
    ensures Unmarked(s)
  {
    if word :| MarksFixed(s, word) {
      FixedMarkStays(s, a, word);
      assert false;
    }
    if inner :| MarksEnum(s, inner) {
      EnumMarkStays(s, a, inner);
      assert false;
    }
  }

  lemma SameMarksSameField(declaration: string, a: string, b: string)
    requires MarkedEnum(a) == MarkedEnum(b) && MarkedFixed(a) == MarkedFixed(b)
    ensures ParseField(declaration, a) == ParseField(declaration, b)
  {
  }

  lemma SameTermMeaning(s: string, t: string, token: string, a: string, b: string)
    requires FirstTicked(s) == Some((token, a)) && FirstTicked(t) == Some((token, b))
    requires MarkedEnum(a) == MarkedEnum(b) && MarkedFixed(a) == MarkedFixed(b)
    ensures ParseTerm(s) == ParseTerm(t)
  {
    SameMarksSameField(Strip(token), a, b);
  }

  lemma ProseDeclaresNothing(term: string)
    requires Lacks(term, '`')
    ensures ParseTerm(term) == Nothing
  {
    IndexAfter(term, '`', "");
  }

  /** An annotation does not change what its term declares. */
  lemma AnnotatedTerm(term: string, a: string)
    requires Annotates(term, a)
    ensures ParseTerm(term + a) == ParseTerm(term)
  {
    if FirstTicked(term).Some? {
      TickedTerm(term, a);
    } else if a == "" {
      assert term + a == term;
    } else {
      assert forall k :: 0 <= k < |term| ==> (term + a)[k] == term[k];
      ProseDeclaresNothing(term + a);
      ProseDeclaresNothing(term);
    }
  }

  lemma TickedTerm(term: string, a: string)
    requires FirstTicked(term).Some? && Annotates(term, a)
    ensures ParseTerm(term + a) == ParseTerm(term)
  {
    var rest := FirstTicked(term).value.1;
    FirstTickedAppend(term, a);
    MarksStay(rest, a);
    UnmarkedIsUnread(rest);
    UnmarkedIsUnread(rest + a);
    SameTermMeaning(term + a, term, FirstTicked(term).value.0, rest + a, rest);
  }

  lemma AnnotatedIsTerm(term: string, a: string)
    requires IsPlainTerm(term) && ValidAnnotation(a)
    ensures IsPlainTerm(term + a)
  {
    var s := term + a;
    if a == "" {
      assert s == term;
    } else {
      ScanAppend(START, term, a);
      UncutAppend(START, term, a, ',');
      assert s[0] == term[0] && s[|s| - 1] == a[|a| - 1];
    }
  }

  function Annotated(terms: seq<string>, notes: seq<string>): (ss: seq<string>)
    requires |terms| == |notes|
    ensures |ss| == |terms| && forall k :: 0 <= k < |terms| ==> ss[k] == terms[k] + notes[k]
  {
    seq(|terms|, k requires 0 <= k < |terms| => terms[k] + notes[k])
  }

  lemma AnnotatedTail(terms: seq<string>, notes: seq<string>)
    requires |terms| == |notes| > 0
    ensures Annotated(terms, notes) == [terms[0] + notes[0]] + Annotated(terms[1..], notes[1..])
    ensures Annotated(terms, notes)[1..] == Annotated(terms[1..], notes[1..])
  {
  }

  lemma {:induction false} AnnotatedTerms(terms: seq<string>, notes: seq<string>)
    requires |terms| == |notes| && forall k :: 0 <= k < |terms| ==> Annotates(terms[k], notes[k])
    ensures FlatMap(FieldIn, Annotated(terms, notes)) == FlatMap(FieldIn, terms)
    ensures FlatMap(GroupIn, Annotated(terms, notes)) == FlatMap(GroupIn, terms)
  {
    if terms != [] {
      AnnotatedTerm(terms[0], notes[0]);
      AnnotatedTerms(terms[1..], notes[1..]);
      AnnotatedTail(terms, notes);
      SameMeaning(terms[0] + notes[0], terms[0]);
    }
  }

  lemma SameMeaning(s: string, t: string)
    ensures ParseTerm(s) == ParseTerm(t) ==> FieldIn(s) == FieldIn(t) && GroupIn(s) == GroupIn(t)
  {
  }

  /** A cell means what its terms do, also when it is one of the dashes that stand for no payload. */
  lemma MeaningOfTerms(terms: seq<string>)
    requires forall k :: 0 <= k < |terms| ==> IsPlainTerm(terms[k])
    ensures FlatMap(FieldIn, Terms(Join(terms, ", "))) == FlatMap(FieldIn, terms)
    ensures FlatMap(GroupIn, Terms(Join(terms, ", "))) == FlatMap(GroupIn, terms)
  {
    var cell := Join(terms, ", ");
    if IsDash(cell) {
      DashIsOneTerm(terms);
      ProseDeclaresNothing(cell);
      FlatMapOne(FieldIn, cell);
      FlatMapOne(GroupIn, cell);
      DashHasNoTerms(cell);
    } else {
      TermsOfJoin(terms);
    }
  }

  lemma DashIsOneTerm(terms: seq<string>)
    requires forall k :: 0 <= k < |terms| ==> IsPlainTerm(terms[k])
    requires IsDash(Join(terms, ", "))
    ensures terms == [Join(terms, ", ")] && Lacks(Join(terms, ", "), '`')
  {
    if |terms| > 1 {
      TwoTermsAreLong(terms);
    }
  }

  lemma TwoTermsAreLong(terms: seq<string>)
    requires |terms| > 1
    ensures |Join(terms, ", ")| >= 2
  {
    assert |", "| == 2;
  }

  lemma DashHasNoTerms(cell: string)
    requires IsDash(cell)
    ensures Terms(cell) == []
  {
    NothingToStrip(cell);
    StripTrims(cell);
  }

  /** Annotations declare nothing: writing balanced annotations after the terms of a cell, with
      whatever names, commas and formulas inside, does not change what the cell means unless one of
      them marks a value. */
  lemma AnnotationsDeclareNothing(terms: seq<string>, notes: seq<string>)
    requires |terms| == |notes|
    requires forall k :: 0 <= k < |terms| ==> IsPlainTerm(terms[k]) && Annotates(terms[k], notes[k])
    ensures Meaning(Join(Annotated(terms, notes), ", ")) == Meaning(Join(terms, ", "))
  {
    var ss := Annotated(terms, notes);
    forall k | 0 <= k < |terms| ensures IsPlainTerm(ss[k]) {
      AnnotatedIsTerm(terms[k], notes[k]);
    }
    MeaningOfTerms(terms);
    MeaningOfTerms(ss);
    AnnotatedTerms(terms, notes);
  }
}
