/** Reading a payload cell: which fields it declares, how they are constrained, and which groups need
    exactly one member. */
module Payload {
  import opened Prelude
  import opened PyText
  import opened Splitter

  datatype Field = Field(name: string, required: bool, listed: bool, enum: Option<seq<string>>, fixed: Option<string>)
  datatype OneOf = OneOf(members: seq<string>, required: bool)

  /** A parsed cell, or the refusal of one that declares a name twice. */
  datatype Parsed = Parsed(fields: seq<Field>, oneOf: seq<OneOf>) | Duplicated

  // ------------------------------------------------------------------ characters

  predicate IsLetter(c: char) {
    IsLower(c) || IsUpper(c)
  }

  predicate IsWordChar(c: char) {
    IsLetter(c) || IsDigit(c) || c == '_'
  }

  /** `[a-z][a-z0-9_]*` in full. */
  predicate IsName(s: string) {
    s != "" && IsLower(s[0]) &&
    forall k :: 0 <= k < |s| ==> IsLower(s[k]) || IsDigit(s[k]) || s[k] == '_'
  }

  function IndexFrom(s: string, c: char, i: nat): (r: nat)
    requires i <= |s|
    ensures i <= r <= |s| && (r < |s| ==> s[r] == c)
    ensures forall k :: i <= k < r ==> s[k] != c
    decreases |s| - i
  {
    if i == |s| || s[i] == c then i else IndexFrom(s, c, i + 1)
  }

  /** The position of the first c, or the length. */
  function IndexOf(s: string, c: char): nat {
    IndexFrom(s, c, 0)
  }

  predicate Lacks(s: string, c: char) {
    forall k :: 0 <= k < |s| ==> s[k] != c
  }

  lemma IndexAfter(a: string, c: char, b: string)
    requires Lacks(a, c)
    ensures IndexOf(a + [c] + b, c) == |a|
    ensures IndexOf(a, c) == |a|
  {
    var s := a + [c] + b;
    assert s[|a|] == c;
    assert forall k :: 0 <= k < |a| ==> s[k] == a[k];
  }

  /** The first position from i on, up to j, that is neither x nor y. */
  function SkipLeadOf(s: string, x: char, y: char, i: nat): (r: nat)
    requires i <= |s|
    ensures i <= r <= |s| && (r < |s| ==> s[r] !in {x, y})
    ensures forall k :: i <= k < r ==> s[k] in {x, y}
    decreases |s| - i
  {
    if i < |s| && s[i] in {x, y} then SkipLeadOf(s, x, y, i + 1) else i
  }

  function SkipTailOf(s: string, x: char, y: char, j: nat): (r: nat)
    requires j <= |s|
    ensures r <= j && (r > 0 ==> s[r - 1] !in {x, y})
    ensures forall k :: r <= k < j ==> s[k] in {x, y}
  {
    if j > 0 && s[j - 1] in {x, y} then SkipTailOf(s, x, y, j - 1) else j
  }

  /** `s.strip(chars)` for a set of two characters. */
  function TrimOf(s: string, x: char, y: char): string {
    var i, j := SkipLeadOf(s, x, y, 0), SkipTailOf(s, x, y, |s|);
    if i < j then s[i..j] else ""
  }

  /** `s.rstrip("?")`. */
  function DropMarks(s: string): string {
    s[..SkipTailOf(s, '?', '?', |s|)]
  }

  /** `s.split(c)`. */
  function SplitOn(s: string, c: char): (parts: seq<string>)
    ensures parts != []
  {
    if s == "" then [""]
    else if s[0] == c then [""] + SplitOn(s[1..], c)
    else
      var rest := SplitOn(s[1..], c);
      [[s[0]] + rest[0]] + rest[1..]
  }

  /** `re.split(r"\\?\|", s)`: at bars, each with the backslash before it if there is one. */
  function SplitBars(s: string): (parts: seq<string>)
    ensures parts != []
  {
    if s == "" then [""]
    else if s[0] == '|' then [""] + SplitBars(s[1..])
    else if s[0] == '\\' && |s| > 1 && s[1] == '|' then [""] + SplitBars(s[2..])
    else
      var rest := SplitBars(s[1..]);
      [[s[0]] + rest[0]] + rest[1..]
  }

  // ------------------------------------------------------------------ the parser

  /** Markdown emphasis is dropped. */
  function StripEmphasis(s: string): string {
    var t := ReplaceFrom(s, "###", "", 0);
    Strip(ReplaceFrom(t, "**", "", 0))
  }

  /** The first backticked token, and what follows it: the leftmost backtick, a run of other
      characters, and another backtick. */
  function FirstTicked(s: string): Option<(string, string)> {
    var i := IndexOf(s, '`');
    if i == |s| then None else
      var n := IndexOf(s[i + 1..], '`');
      if i + 1 + n == |s| then None
      else if n > 0 then Some((s[i + 1..i + 1 + n], s[i + n + 2..]))
      else FirstTicked(s[i + 1..])
  }

  function SkipSpaces(s: string): (r: string)
    ensures |r| <= |s|
  {
    if s != "" && IsSpace(s[0]) then SkipSpaces(s[1..]) else s
  }

  function SkipWord(s: string): (r: string)
    ensures |r| <= |s|
  {
    if s != "" && IsWordChar(s[0]) then SkipWord(s[1..]) else s
  }

  function NonBlank(v: string): seq<string> {
    if Strip(v) == "" then [] else [Strip(v)]
  }

  /** The values of a comma-separated list, stripped, blank ones dropped. */
  function Values(s: string): seq<string> {
    FlatMap(NonBlank, SplitOn(s, ','))
  }

  /** What read makes of the text after the first sign, from position i on, after which it makes
      anything of it: a leftmost search for a pattern that starts with the sign. */
  function FirstRead<T>(sign: char, read: string -> Option<T>, s: string, i: nat): Option<T>
    requires i <= |s|
    decreases |s| - i
  {
    if i == |s| then None
    else if s[i] == sign && read(s[i + 1..]).Some? then read(s[i + 1..])
    else FirstRead(sign, read, s, i + 1)
  }

  /** The values in the braces a text starts with, blanks aside. */
  function EnumAfterSign(t: string): Option<seq<string>> {
    var rest := SkipSpaces(t);
    if rest != "" && rest[0] == '{' && IndexOf(rest, '}') < |rest|
    then Some(Values(rest[1..IndexOf(rest, '}')]))
    else None
  }

  /** The values of the first `∈ {…}` in an annotation. */
  function MarkedEnum(s: string): Option<seq<string>> {
    FirstRead('∈', EnumAfterSign, s, 0)
  }

  /** The word of the `= X` and backtick a text starts with, blanks aside. */
  function FixedAfterTick(t: string): Option<string> {
    var eq := SkipSpaces(t);
    if eq == "" || eq[0] != '=' then None else
      var word := SkipSpaces(eq[1..]);
      var after := SkipSpaces(SkipWord(word));
      if word != "" && IsLetter(word[0]) && after != "" && after[0] == '`'
      then Some(word[..|word| - |SkipWord(word)|])
      else None
  }

  /** The value of the first backticked `= X` in an annotation. */
  function MarkedFixed(s: string): Option<string> {
    FirstRead('`', FixedAfterTick, s, 0)
  }

  datatype TermMeaning = Nothing | AField(field: Field) | AGroup(group: OneOf)

  function CleanMember(p: string): seq<string> {
    if Strip(p) == "" then [] else [TrimOf(Strip(p), '`', '?')]
  }

  function IfName(p: string): seq<string> {
    if IsName(p) then [p] else []
  }

  function ParseGroup(declaration: string): TermMeaning {
    var members := FlatMap(IfName, FlatMap(CleanMember, SplitBars(declaration)));
    if |members| >= 2 then AGroup(OneOf(members, Lacks(declaration, '?'))) else Nothing
  }

  /** The enum written in the declaration itself, after its first `∈`. */
  function DeclaredEnum(d: string): Option<seq<string>> {
    var e := IndexOf(d, '∈');
    if e < |d| then Some(Values(TrimOf(Strip(d[e + 1..]), '{', '}'))) else None
  }

  /** The fixed value written in the declaration itself, after its first `=`, if it has no enum. */
  function DeclaredFixed(d: string): Option<string> {
    var q := IndexOf(d, '=');
    if IndexOf(d, '∈') == |d| && q < |d| then Some(Strip(d[q + 1..])) else None
  }

  /** The declaration before its constraint. */
  function BaseOf(d: string): string {
    var e, q := IndexOf(d, '∈'), IndexOf(d, '=');
    if e < |d| then Strip(d[..e]) else if q < |d| then Strip(d[..q]) else d
  }

  predicate IsListed(base: string) {
    |base| >= 2 && base[|base| - 2..] == "[]"
  }

  function NameOf(base: string): string {
    if IsListed(base) then Strip(base[..|base| - 2]) else base
  }

  predicate IsOptional(declaration: string) {
    declaration != "" && declaration[|declaration| - 1] == '?'
  }

  /** The field a declaration and its annotation describe, if its name is one. */
  function ParseField(declaration: string, annotation: string): TermMeaning {
    var d := Strip(DropMarks(declaration));
    var name, enum, fixed := NameOf(BaseOf(d)), DeclaredEnum(d), DeclaredFixed(d);
    if !IsName(name) then Nothing
    else AField(Field(name, !IsOptional(declaration), IsListed(BaseOf(d)),
                      if enum.Some? then enum else MarkedEnum(annotation),
                      if fixed.Some? then fixed else MarkedFixed(annotation)))
  }

  function ParseTerm(term: string): TermMeaning {
    match FirstTicked(term)
    case None => Nothing
    case Some((token, annotation)) =>
      var declaration := Strip(token);
      if Lacks(declaration, '|') then ParseField(declaration, annotation) else ParseGroup(declaration)
  }

  function FieldIn(term: string): seq<Field> {
    match ParseTerm(term) case AField(f) => [f] case _ => []
  }

  function GroupIn(term: string): seq<OneOf> {
    match ParseTerm(term) case AGroup(g) => [g] case _ => []
  }

  ghost predicate DistinctNames(fields: seq<Field>) {
    forall i, j :: 0 <= i < j < |fields| ==> fields[i].name != fields[j].name
  }

  predicate IsDash(s: string) {
    s == "—" || s == "-" || s == "–"
  }

  function Terms(cell: string): seq<string> {
    var text := StripEmphasis(cell);
    if text == "" || IsDash(text) then [] else Split(text, ',')
  }

  /** What a cell means: its terms' fields and groups in order, unless a name comes twice. */
  ghost function Meaning(cell: string): Parsed {
    var fields := FlatMap(FieldIn, Terms(cell));
    if DistinctNames(fields) then Parsed(fields, FlatMap(GroupIn, Terms(cell))) else Duplicated
  }

  /** The name of the field a term declares, if it declares one. */
  function NameIn(term: string): Option<string> {
    match ParseTerm(term) case AField(f) => Some(f.name) case _ => None
  }

  function NamesIn(terms: seq<string>): (names: seq<Option<string>>)
    ensures |names| == |terms| && forall k :: 0 <= k < |terms| ==> names[k] == NameIn(terms[k])
  {
    seq(|terms|, k requires 0 <= k < |terms| => NameIn(terms[k]))
  }

  /** Some name is given twice. */
  ghost predicate Twice(names: seq<Option<string>>) {
    exists i, j :: 0 <= i < j < |names| && names[i].Some? && names[i] == names[j]
  }

  lemma TwiceCons(n: Option<string>, rest: seq<Option<string>>)
    ensures Twice([n] + rest) <==> Twice(rest) || (n.Some? && n in rest)
  {
    var all := [n] + rest;
    if i, j :| 0 <= i < j < |all| && all[i].Some? && all[i] == all[j] {
      assert i > 0 ==> rest[i - 1] == all[i];
      assert rest[j - 1] == all[j];
    }
    if i, j :| 0 <= i < j < |rest| && rest[i].Some? && rest[i] == rest[j] {
      assert all[i + 1] == all[j + 1];
    }
    if n.Some? && n in rest {
      var j :| 0 <= j < |rest| && rest[j] == n;
      assert all[0] == all[j + 1];
    }
  }

  /** The fields have these names, in order, where there are names. */
  ghost predicate AreNamed(fields: seq<Field>, names: seq<Option<string>>)
    decreases |names|
  {
    if names == [] then fields == []
    else if names[0].None? then AreNamed(fields, names[1..])
    else fields != [] && fields[0].name == names[0].value && AreNamed(fields[1..], names[1..])
  }

  ghost predicate HasNamed(fields: seq<Field>, name: string) {
    exists k :: 0 <= k < |fields| && fields[k].name == name
  }

  lemma HasNamedCons(f: Field, fields: seq<Field>, name: string)
    ensures HasNamed([f] + fields, name) <==> f.name == name || HasNamed(fields, name)
  {
    if k :| 0 <= k < |fields| && fields[k].name == name {
      assert ([f] + fields)[k + 1].name == name;
    }
    if f.name == name {
      assert ([f] + fields)[0].name == name;
    }
  }

  lemma DistinctCons(f: Field, fields: seq<Field>)
    ensures DistinctNames([f] + fields) <==> DistinctNames(fields) && !HasNamed(fields, f.name)
  {
    var all := [f] + fields;
    if DistinctNames(all) {
      forall i, j | 0 <= i < j < |fields| ensures fields[i].name != fields[j].name {
        assert all[i + 1].name != all[j + 1].name;
      }
      forall k | 0 <= k < |fields| ensures fields[k].name != f.name {
        assert all[0].name != all[k + 1].name;
      }
    }
  }

  lemma {:induction false} NamedExactly(fields: seq<Field>, names: seq<Option<string>>)
    requires AreNamed(fields, names)
    ensures forall name :: HasNamed(fields, name) <==> Some(name) in names
    ensures DistinctNames(fields) <==> !Twice(names)
    decreases |names|
  {
    if names != [] {
      var n, rest := names[0], names[1..];
      assert names == [n] + rest;
      TwiceCons(n, rest);
      if n.None? {
        NamedExactly(fields, rest);
      } else {
        var f, others := fields[0], fields[1..];
        assert fields == [f] + others;
        NamedExactly(others, rest);
        DistinctCons(f, others);
        forall name ensures HasNamed(fields, name) <==> f.name == name || HasNamed(others, name) {
          HasNamedCons(f, others, name);
        }
      }
    }
  }

  lemma {:induction false} TermsAreNamed(terms: seq<string>)
    ensures AreNamed(FlatMap(FieldIn, terms), NamesIn(terms))
  {
    if terms != [] {
      TermsAreNamed(terms[1..]);
      assert NamesIn(terms)[1..] == NamesIn(terms[1..]);
      OneTermNamed(terms[0], FlatMap(FieldIn, terms[1..]), NamesIn(terms[1..]));
      assert NamesIn(terms) == [NameIn(terms[0])] + NamesIn(terms[1..]);
    }
  }

  lemma OneTermNamed(term: string, fields: seq<Field>, names: seq<Option<string>>)
    requires AreNamed(fields, names)
    ensures AreNamed(FieldIn(term) + fields, [NameIn(term)] + names)
  {
    assert ([NameIn(term)] + names)[1..] == names;
    match ParseTerm(term)
    case AField(f) => assert ([f] + fields)[1..] == fields;
    case AGroup(_) => assert [] + fields == fields;
    case Nothing => assert [] + fields == fields;
  }

  /** A cell is refused exactly when two of its terms declare fields of one name, whatever else they say. */
  lemma RefusedExactly(cell: string)
    ensures Meaning(cell) == Duplicated <==> Twice(NamesIn(Terms(cell)))
  {
    TermsAreNamed(Terms(cell));
    NamedExactly(FlatMap(FieldIn, Terms(cell)), NamesIn(Terms(cell)));
  }

  method ParsePayload(cell: string) returns (r: Parsed)
    ensures r == Meaning(cell)
  {
    var text := StripEmphasis(cell);
    if text == "" || IsDash(text) {
      return Parsed([], []);
    }
    var terms := SplitTopLevel(text, ',');
    var fields: seq<Field>, oneOf: seq<OneOf> := [], [];
    for k := 0 to |terms|
      invariant fields == FlatMap(FieldIn, terms[..k]) && oneOf == FlatMap(GroupIn, terms[..k])
    {
      FlatMapStep(FieldIn, terms, k);
      FlatMapStep(GroupIn, terms, k);
      match ParseTerm(terms[k])
      case Nothing =>
      case AField(f) => fields := fields + [f];
      case AGroup(g) => oneOf := oneOf + [g];
    }
    assert terms[..|terms|] == terms;
    var twice := DeclaredTwice(fields);
    r := if twice then Duplicated else Parsed(fields, oneOf);
  }

  method DeclaredTwice(fields: seq<Field>) returns (twice: bool)
    ensures twice <==> !DistinctNames(fields)
  {
    for i := 0 to |fields|
      invariant forall a, b :: 0 <= a < b < |fields| && a < i ==> fields[a].name != fields[b].name
    {
      for j := i + 1 to |fields|
        invariant forall b :: i < b < j ==> fields[i].name != fields[b].name
      {
        if fields[i].name == fields[j].name {
          return true;
        }
      }
    }
    twice := false;
  }
}
