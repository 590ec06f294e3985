/** The documented payload grammar, as a printer, and the proof that the parser inverts it. */
module Grammar {
  import opened Prelude
  import opened PyText
  import opened Splitter
  import opened Payload

  datatype Constraint = Free | Enumerated(values: seq<string>) | Fixed(value: string)

  datatype Declaration =
    | FieldDecl(name: string, required: bool, listed: bool, constraint: Constraint)
    | GroupDecl(members: seq<string>, required: bool)

  /** A declaration together with the annotation written after it. */
  datatype Term = Term(decl: Declaration, annotation: string)

  /** Text free of backticks and of emphasis marks. */
  predicate Quiet(s: string) {
    Lacks(s, '`') && Lacks(s, '*') && Lacks(s, '#')
  }

  /** One value of a comma-separated list. */
  predicate IsValue(v: string) {
    v != "" && Trimmed(v) && Lacks(v, ',')
  }

  predicate IsBrace(c: char) {
    c == '{' || c == '}'
  }

  /** Values that survive being written between braces: the outermost characters are not braces. */
  predicate ValidValues(values: seq<string>) {
    && (forall k :: 0 <= k < |values| ==> IsValue(values[k]) && Quiet(values[k]) && Lacks(values[k], '|'))
    && (values != [] ==> !IsBrace(values[0][0]) && !IsBrace(LastOf(values[|values| - 1])))
  }

  function LastOf(s: string): char
    requires s != ""
  {
    s[|s| - 1]
  }

  /** A fixed value, possibly empty: it must not read as an enum, a group or an optionality mark. */
  predicate ValidFixed(v: string) {
    && Trimmed(v) && Quiet(v) && Lacks(v, '|') && Lacks(v, '∈')
    && (v != "" ==> LastOf(v) != '?')
  }

  predicate ValidConstraint(c: Constraint) {
    match c
    case Free => true
    case Enumerated(values) => ValidValues(values)
    case Fixed(value) => ValidFixed(value)
  }

  predicate ValidDecl(d: Declaration) {
    match d
    case FieldDecl(name, _, _, constraint) => IsName(name) && ValidConstraint(constraint)
    case GroupDecl(members, _) => |members| >= 2 && forall k :: 0 <= k < |members| ==> IsName(members[k])
  }

  /** Any text after the declaration, such as a parenthesis, that is balanced, keeps its commas inside
      something, does not end in white space, and is free of emphasis marks. It may hold any backticked
      names. */
  ghost predicate ValidAnnotation(a: string) {
    a != "" ==>
      !IsSpace(a[|a| - 1]) && Uncut(START, a, ',') && Scan(START, a) == START && Lacks(a, '*') && Lacks(a, '#')
  }

  ghost predicate ValidTerm(t: Term) {
    ValidDecl(t.decl) && ValidAnnotation(t.annotation)
  }

  // ------------------------------------------------------------------ printing

  function NamePart(d: Declaration): string
    requires d.FieldDecl?
  {
    d.name + if d.listed then "[]" else ""
  }

  function ConstraintPart(c: Constraint): string {
    match c
    case Free => ""
    case Enumerated(values) => "∈" + "{" + Join(values, ",") + "}"
    case Fixed(value) => "=" + value
  }

  function Mark(required: bool): string {
    if required then "" else "?"
  }

  function PrintDecl(d: Declaration): string {
    match d
    case FieldDecl(_, required, _, constraint) => NamePart(d) + ConstraintPart(constraint) + Mark(required)
    case GroupDecl(members, required) => Join(members, " \\| ") + Mark(required)
  }

  function PrintTerm(t: Term): string {
    "`" + PrintDecl(t.decl) + "`" + t.annotation
  }

  function PrintAll(ts: seq<Term>): (ss: seq<string>)
    ensures |ss| == |ts| && forall k :: 0 <= k < |ts| ==> ss[k] == PrintTerm(ts[k])
  {
    seq(|ts|, k requires 0 <= k < |ts| => PrintTerm(ts[k]))
  }

  function PrintCell(ts: seq<Term>): string {
    Join(PrintAll(ts), ", ")
  }

  // ------------------------------------------------------------------ intended meaning

  /** The field a term declares; a constraint its own declaration lacks may come from the annotation. */
  function FieldOf(t: Term): seq<Field> {
    match t.decl
    case GroupDecl(_, _) => []
    case FieldDecl(name, required, listed, constraint) =>
      [Field(name, required, listed,
             if constraint.Enumerated? then Some(constraint.values) else MarkedEnum(t.annotation),
             if constraint.Fixed? then Some(constraint.value) else MarkedFixed(t.annotation))]
  }

  function GroupOf(t: Term): seq<OneOf> {
    match t.decl
    case GroupDecl(members, required) => [OneOf(members, required)]
    case FieldDecl(_, _, _, _) => []
  }

  ghost function Intended(ts: seq<Term>): Parsed {
    if DistinctNames(FlatMap(FieldOf, ts)) then Parsed(FlatMap(FieldOf, ts), FlatMap(GroupOf, ts)) else Duplicated
  }

  // ------------------------------------------------------------------ the characters of a declaration

  lemma {:induction false} JoinLacks(parts: seq<string>, sep: string, c: char)
    requires Lacks(sep, c) && forall k :: 0 <= k < |parts| ==> Lacks(parts[k], c)
    ensures Lacks(Join(parts, sep), c)
  {
    if |parts| > 1 {
      JoinLacks(parts[1..], sep, c);
    }
  }

  lemma JoinQuiet(parts: seq<string>, sep: string)
    requires Quiet(sep) && forall k :: 0 <= k < |parts| ==> Quiet(parts[k])
    ensures Quiet(Join(parts, sep))
  {
    JoinLacks(parts, sep, '`');
    JoinLacks(parts, sep, '*');
    JoinLacks(parts, sep, '#');
  }

  lemma NameIsQuiet(s: string)
    requires IsName(s)
    ensures Quiet(s) && Trimmed(s)
  {
  }

  /** A joined list begins like its first part and ends like its last. */
  lemma {:induction false} JoinEnds(parts: seq<string>, sep: string)
    requires parts != [] && forall k :: 0 <= k < |parts| ==> parts[k] != ""
    ensures var s := Join(parts, sep);
            s != "" && s[0] == parts[0][0] && LastOf(s) == LastOf(parts[|parts| - 1])
  {
    if |parts| > 1 {
      JoinEnds(parts[1..], sep);
      var rest := Join(parts[1..], sep);
      LastOfAppend(parts[0] + sep, rest);
      assert Join(parts, sep)[0] == parts[0][0];
    }
  }

  lemma LastOfAppend(a: string, b: string)
    requires b != ""
    ensures LastOf(a + b) == LastOf(b)
  {
  }

  /** An optionality mark does not disturb the shape of what it follows. */
  lemma MarkShape(b: string, required: bool)
    requires b != "" && Quiet(b) && !IsSpace(b[0]) && !IsSpace(LastOf(b))
    ensures var s := b + Mark(required); s != "" && s[0] == b[0] && Quiet(s) && Trimmed(s)
  {
    if required {
      assert b + "" == b;
    } else {
      LastOfAppend(b, "?");
      assert (b + "?")[0] == b[0];
    }
  }

  lemma MembersShape(members: seq<string>, sep: string, required: bool)
    requires Quiet(sep) && members != [] && forall k :: 0 <= k < |members| ==> IsName(members[k])
    ensures var s := Join(members, sep) + Mark(required); s != "" && IsLower(s[0]) && Quiet(s) && Trimmed(s)
  {
    forall k | 0 <= k < |members| ensures Quiet(members[k]) && Trimmed(members[k]) {
      NameIsQuiet(members[k]);
    }
    assert IsName(members[0]) && IsName(members[|members| - 1]);
    JoinQuiet(members, sep);
    JoinEnds(members, sep);
    MarkShape(Join(members, sep), required);
  }

  lemma BarIsQuiet()
    ensures Quiet(" \\| ") && Lacks(" \\| ", '?')
  {
    var bar := " \\| ";
    assert |bar| == 4 && bar[0] == ' ' && bar[1] == '\\' && bar[2] == '|' && bar[3] == ' ';
  }

  lemma GroupShape(members: seq<string>, required: bool)
    requires |members| >= 2 && forall k :: 0 <= k < |members| ==> IsName(members[k])
    ensures var s := Join(members, " \\| ") + Mark(required);
            s != "" && IsLower(s[0]) && Quiet(s) && Trimmed(s)
  {
    BarIsQuiet();
    MembersShape(members, " \\| ", required);
  }

  lemma ConstraintShape(c: Constraint)
    requires ValidConstraint(c)
    ensures var s := ConstraintPart(c);
            Quiet(s) && Lacks(s, '|') && (s != "" ==> !IsSpace(LastOf(s)) && LastOf(s) != '?')
  {
    match c
    case Free =>
    case Enumerated(values) =>
      JoinQuiet(values, ",");
      JoinLacks(values, ",", '|');
      assert LastOf(ConstraintPart(c)) == '}';
    case Fixed(value) =>
      if value != "" {
        LastOfAppend("=", value);
      }
  }

  /** The declaration without its optionality mark. */
  function Body(d: Declaration): string
    requires d.FieldDecl?
  {
    NamePart(d) + ConstraintPart(d.constraint)
  }

  lemma NamePartShape(d: Declaration)
    requires d.FieldDecl? && IsName(d.name)
    ensures var s := NamePart(d);
            && s != "" && s[0] == d.name[0] && Quiet(s) && Lacks(s, '|')
            && !IsSpace(LastOf(s)) && LastOf(s) != '?'
  {
    NameIsQuiet(d.name);
    assert d.name + "" == d.name;
  }

  lemma BodyShape(d: Declaration)
    requires d.FieldDecl? && ValidDecl(d)
    ensures var b := Body(d);
            && b != "" && b[0] == d.name[0] && Quiet(b) && Lacks(b, '|')
            && !IsSpace(LastOf(b)) && LastOf(b) != '?'
  {
    var nm, c := NamePart(d), ConstraintPart(d.constraint);
    NamePartShape(d);
    ConstraintShape(d.constraint);
    if c == "" {
      assert Body(d) == nm;
    } else {
      LastOfAppend(nm, c);
      assert Body(d)[0] == nm[0];
    }
  }

  lemma FieldShape(d: Declaration)
    requires d.FieldDecl? && ValidDecl(d)
    ensures var s := PrintDecl(d);
            s == Body(d) + Mark(d.required) && s != "" && IsLower(s[0]) && Quiet(s) && Trimmed(s) && Lacks(s, '|')
  {
    BodyShape(d);
    MarkShape(Body(d), d.required);
  }

  /** A printed declaration starts with a lower-case letter, does not end in white space, and holds
      neither backticks nor emphasis. */
  lemma DeclShape(d: Declaration)
    requires ValidDecl(d)
    ensures var s := PrintDecl(d); s != "" && IsLower(s[0]) && Quiet(s) && Trimmed(s)
  {
    match d
    case FieldDecl(_, _, _, _) => FieldShape(d);
    case GroupDecl(members, required) => GroupShape(members, required);
  }

  // ------------------------------------------------------------------ a printed term is one term

  lemma {:induction false} InsideTicks(s: string, sep: char)
    requires Lacks(s, '`')
    ensures Scan(Scanner(0, 0, true), s) == Scanner(0, 0, true)
    ensures Uncut(Scanner(0, 0, true), s, sep)
  {
    if s != "" {
      InsideTicks(s[1..], sep);
      UncutTail(Scanner(0, 0, true), s, sep);
    }
  }

  lemma {:induction false} UncutAppend(s: Scanner, a: string, b: string, sep: char)
    requires Uncut(s, a, sep) && Uncut(Scan(s, a), b, sep)
    ensures Uncut(s, a + b, sep)
    decreases a
  {
    if a == "" {
      assert a + b == b;
    } else {
      assert (a + b)[0] == a[0] && (a + b)[1..] == a[1..] + b;
      UncutTail(s, a, sep);
      UncutAppend(Step(s, a[0]), a[1..], b, sep);
      UncutTail(s, a + b, sep);
    }
  }

  lemma TickedIsNeutral(s: string)
    requires Lacks(s, '`')
    ensures Scan(START, "`" + s + "`") == START && Uncut(START, "`" + s + "`", ',')
  {
    var inside := Scanner(0, 0, true);
    InsideTicks(s, ',');
    assert Scan(START, "`") == inside && Scan(inside, "`") == START by {
      assert "`"[1..] == "";
    }
    UncutTail(START, "`", ',');
    UncutTail(inside, "`", ',');
    assert "`"[1..] == "";
    ScanAppend(START, "`", s);
    ScanAppend(START, "`" + s, "`");
    UncutAppend(START, "`", s, ',');
    UncutAppend(START, "`" + s, "`", ',');
  }

  lemma PrintedIsTerm(t: Term)
    requires ValidTerm(t)
    ensures IsTerm(PrintTerm(t), ',')
  {
    var head := "`" + PrintDecl(t.decl) + "`";
    DeclShape(t.decl);
    TickedIsNeutral(PrintDecl(t.decl));
    var s := PrintTerm(t);
    assert s == head + t.annotation;
    if t.annotation == "" {
      assert s == head;
    } else {
      ScanAppend(START, head, t.annotation);
      UncutAppend(START, head, t.annotation, ',');
      assert s[|s| - 1] == t.annotation[|t.annotation| - 1];
    }
    assert s[0] == '`';
  }

  lemma PrintedTicked(t: Term)
    requires ValidTerm(t)
    ensures FirstTicked(PrintTerm(t)) == Some((PrintDecl(t.decl), t.annotation))
  {
    var d, s := PrintDecl(t.decl), PrintTerm(t);
    DeclShape(t.decl);
    assert IndexOf(s, '`') == 0;
    assert s[1..] == d + ['`'] + t.annotation;
    IndexAfter(d, '`', t.annotation);
    assert s[1..1 + |d|] == d && s[|d| + 2..] == t.annotation;
  }

  // ------------------------------------------------------------------ reading a field back

  lemma NameTrims(s: string)
    requires IsName(s)
    ensures Strip(s) == s && Strip(s + "[]") == s + "[]"
  {
    StripTrims(s);
    StripTrims(s + "[]");
  }

  lemma {:induction false} SplitOnLacks(s: string, c: char)
    requires Lacks(s, c)
    ensures SplitOn(s, c) == [s]
  {
    if s != "" {
      SplitOnLacks(s[1..], c);
      assert [s[0]] + s[1..] == s;
    }
  }

  lemma {:induction false} SplitOnAt(a: string, c: char, b: string)
    requires Lacks(a, c)
    ensures SplitOn(a + [c] + b, c) == [a] + SplitOn(b, c)
  {
    var s := a + [c] + b;
    if a == "" {
      assert s[0] == c && s[1..] == b;
    } else {
      assert s[0] == a[0] && s[1..] == a[1..] + [c] + b;
      SplitOnAt(a[1..], c, b);
      assert [a[0]] + a[1..] == a;
    }
  }

  lemma {:induction false} ValuesOfJoin(values: seq<string>)
    requires forall k :: 0 <= k < |values| ==> IsValue(values[k])
    ensures Values(Join(values, ",")) == values
  {
    if values == [] {
      FlatMapOne(NonBlank, "");
    } else {
      ValueKept(values[0]);
      if |values| == 1 {
        SplitOnLacks(values[0], ',');
        FlatMapOne(NonBlank, values[0]);
      } else {
        ValuesOfJoin(values[1..]);
        ValuesOfCons(values[0], Join(values[1..], ","));
        assert Join(values, ",") == values[0] + [','] + Join(values[1..], ",");
      }
    }
  }

  lemma ValueKept(v: string)
    requires IsValue(v)
    ensures NonBlank(v) == [v]
  {
    StripTrims(v);
  }

  lemma ValuesOfCons(v: string, rest: string)
    requires IsValue(v)
    ensures Values(v + [','] + rest) == [v] + Values(rest)
  {
    ValueKept(v);
    SplitOnAt(v, ',', rest);
    FlatMapCons(NonBlank, v, SplitOn(rest, ','));
  }

  lemma TrimBraces(j: string)
    requires j != "" ==> j[0] !in {'{', '}'} && j[|j| - 1] !in {'{', '}'}
    ensures TrimOf("{" + j + "}", '{', '}') == j
  {
    var s := "{" + j + "}";
    if j != "" {
      assert s[1] == j[0] && s[|j|] == j[|j| - 1];
      assert SkipLeadOf(s, '{', '}', 0) == 1 && SkipTailOf(s, '{', '}', |s|) == |j| + 1;
      assert s[1..|j| + 1] == j;
    }
  }

  lemma BracesComeOff(values: seq<string>)
    requires ValidValues(values)
    ensures var j := Join(values, ",");
            Strip("{" + j + "}") == "{" + j + "}" && TrimOf("{" + j + "}", '{', '}') == j
  {
    var j := Join(values, ",");
    StripTrims("{" + j + "}");
    if values != [] {
      JoinEnds(values, ",");
    }
    TrimBraces(j);
  }

  lemma DropOneMark(b: string)
    requires b != "" && b[|b| - 1] != '?'
    ensures DropMarks(b) == b && DropMarks(b + "?") == b
  {
    assert (b + "?")[|b| - 1] == b[|b| - 1];
    assert SkipTailOf(b, '?', '?', |b|) == |b| && SkipTailOf(b + "?", '?', '?', |b| + 1) == |b|;
    assert (b + "?")[..|b|] == b && b[..|b|] == b;
  }

  lemma BodyReadBack(d: Declaration)
    requires d.FieldDecl? && ValidDecl(d)
    ensures Strip(Body(d)) == Body(d)
    ensures DropMarks(PrintDecl(d)) == Body(d)
    ensures IsOptional(PrintDecl(d)) <==> !d.required
  {
    var b := Body(d);
    BodyShape(d);
    FieldShape(d);
    StripTrims(b);
    DropOneMark(b);
    assert b + "" == b;
  }

  lemma NamePartLacks(d: Declaration)
    requires d.FieldDecl? && IsName(d.name)
    ensures Strip(NamePart(d)) == NamePart(d) && Lacks(NamePart(d), '∈') && Lacks(NamePart(d), '=')
  {
    NameTrims(d.name);
    assert d.name + "" == d.name;
  }

  /** The name part of a body is read back. */
  lemma NamePartRead(d: Declaration)
    requires d.FieldDecl? && IsName(d.name)
    ensures IsListed(NamePart(d)) == d.listed && NameOf(NamePart(d)) == d.name
  {
    var nm := NamePart(d);
    NameTrims(d.name);
    if d.listed {
      assert nm[..|nm| - 2] == d.name && nm[|nm| - 2..] == "[]";
    } else {
      assert nm == d.name;
      assert |nm| >= 2 ==> nm[|nm| - 2..][1] == nm[|nm| - 1];
    }
  }

  lemma FreeRead(nm: string)
    requires Lacks(nm, '∈') && Lacks(nm, '=')
    ensures BaseOf(nm) == nm && DeclaredEnum(nm) == None && DeclaredFixed(nm) == None
  {
    IndexAfter(nm, '∈', "");
    IndexAfter(nm, '=', "");
  }

  lemma EnumRead(nm: string, values: seq<string>)
    requires Strip(nm) == nm && Lacks(nm, '∈') && ValidValues(values)
    ensures var b := nm + ConstraintPart(Enumerated(values));
            BaseOf(b) == nm && DeclaredEnum(b) == Some(values) && DeclaredFixed(b) == None
  {
    var rest := "{" + Join(values, ",") + "}";
    EnumPrinted(nm, values);
    CutAtFirst(nm, '∈', rest);
    BracesRead(values);
  }

  lemma EnumPrinted(nm: string, values: seq<string>)
    ensures nm + ConstraintPart(Enumerated(values)) == nm + ['∈'] + ("{" + Join(values, ",") + "}")
  {
    Associate(nm, ['∈'], "{" + Join(values, ",") + "}");
    Associate(['∈'], "{" + Join(values, ","), "}");
    Associate(['∈'], "{", Join(values, ","));
  }

  lemma BracesRead(values: seq<string>)
    requires ValidValues(values)
    ensures Values(TrimOf(Strip("{" + Join(values, ",") + "}"), '{', '}')) == values
  {
    BracesComeOff(values);
    ValuesOfJoin(values);
  }

  /** Where a text is cut at the first occurrence of c. */
  lemma CutAtFirst(a: string, c: char, b: string)
    requires Lacks(a, c)
    ensures var s := a + [c] + b; IndexOf(s, c) == |a| < |s| && s[..|a|] == a && s[|a| + 1..] == b
  {
    IndexAfter(a, c, b);
    AroundMark(a, c, b);
  }

  lemma AroundMark(a: string, c: char, b: string)
    ensures var s := a + [c] + b;
            |a| < |s| && s[..|a|] == a && s[|a| + 1..] == b
  {
  }

  lemma FixedRead(nm: string, value: string)
    requires Strip(nm) == nm && Lacks(nm, '∈') && Lacks(nm, '=') && ValidFixed(value)
    ensures var b := nm + ("=" + value);
            BaseOf(b) == nm && DeclaredEnum(b) == None && DeclaredFixed(b) == Some(value)
  {
    var b := nm + ("=" + value);
    assert b == nm + ['='] + value;
    CutAtFirst(nm, '=', value);
    IndexAfter(b, '∈', "");
    StripTrims(value);
  }

  lemma ConstraintRead(d: Declaration)
    requires d.FieldDecl? && ValidDecl(d)
    ensures var b := Body(d);
            && BaseOf(b) == NamePart(d)
            && DeclaredEnum(b) == (if d.constraint.Enumerated? then Some(d.constraint.values) else None)
            && DeclaredFixed(b) == (if d.constraint.Fixed? then Some(d.constraint.value) else None)
  {
    var nm := NamePart(d);
    NamePartLacks(d);
    match d.constraint
    case Free => FreeRead(nm); assert Body(d) == nm;
    case Enumerated(values) => EnumRead(nm, values);
    case Fixed(value) => FixedRead(nm, value);
  }

  lemma DeclReadBack(d: Declaration, annotation: string)
    requires d.FieldDecl? && ValidDecl(d)
    ensures ParseField(PrintDecl(d), annotation) == AField(FieldOf(Term(d, annotation))[0])
  {
    BodyReadBack(d);
    NamePartRead(d);
    ConstraintRead(d);
  }

  lemma FieldReadBack(t: Term)
    requires ValidTerm(t) && t.decl.FieldDecl?
    ensures FieldIn(PrintTerm(t)) == FieldOf(t) && GroupIn(PrintTerm(t)) == []
  {
    PrintedTicked(t);
    FieldShape(t.decl);
    StripTrims(PrintDecl(t.decl));
    DeclReadBack(t.decl, t.annotation);
  }

  // ------------------------------------------------------------------ reading a group back

  lemma {:induction false} SplitBarsPlain(s: string)
    requires Lacks(s, '|')
    ensures SplitBars(s) == [s]
  {
    if s != "" {
      SplitBarsPlain(s[1..]);
      assert [s[0]] + s[1..] == s;
    }
  }

  lemma {:induction false} SplitBarsAt(a: string, b: string)
    requires Lacks(a, '|') && Lacks(a, '\\')
    ensures SplitBars(a + "\\|" + b) == [a] + SplitBars(b)
  {
    var s := a + "\\|" + b;
    if a == "" {
      assert s[0] == '\\' && s[1] == '|' && s[2..] == b;
    } else {
      assert s[0] == a[0] && s[1..] == a[1..] + "\\|" + b;
      SplitBarsAt(a[1..], b);
      assert [a[0]] + a[1..] == a;
    }
  }

  /** One member with the blanks around it, and perhaps the mark after it, cleans up to itself. */
  lemma MemberCleans(lead: string, m: string, tail: string)
    requires IsName(m) && (lead == "" || lead == " ") && (tail == "" || tail == " " || tail == "?")
    ensures CleanMember(lead + m + tail) == [m]
  {
    MarkComesOff(m);
    if tail == "?" {
      assert lead + m + tail == lead + (m + "?") + "";
      StripAround(lead, m + "?", "");
    } else {
      StripAround(lead, m, tail);
    }
  }

  lemma MarkComesOff(m: string)
    requires IsName(m)
    ensures TrimOf(m + "?", '`', '?') == m && TrimOf(m, '`', '?') == m
  {
    var s := m + "?";
    assert s[0] == m[0] && s[|m| - 1] == m[|m| - 1];
    assert SkipLeadOf(s, '`', '?', 0) == 0 && SkipTailOf(s, '`', '?', |s|) == |m|;
    assert s[..|m|] == m;
  }

  lemma MemberIsPlain(lead: string, m: string, tail: string)
    requires IsName(m) && (lead == "" || lead == " ") && (tail == "" || tail == " " || tail == "?")
    ensures Lacks(lead + m + tail, '|') && Lacks(lead + m + tail, '\\')
  {
  }

  /** What lies between the bars of a printed group. */
  function Pieces(members: seq<string>, lead: string, mark: string): (ps: seq<string>)
    ensures |ps| == |members|
  {
    seq(|members|, k requires 0 <= k < |members| =>
      (if k == 0 then lead else " ") + members[k] + if k == |members| - 1 then mark else " ")
  }

  lemma {:induction false} GroupSplits(members: seq<string>, lead: string, mark: string)
    requires members != [] && forall k :: 0 <= k < |members| ==> IsName(members[k])
    requires (lead == "" || lead == " ") && (mark == "" || mark == "?")
    ensures SplitBars(lead + Join(members, " \\| ") + mark) == Pieces(members, lead, mark)
  {
    if |members| == 1 {
      MemberIsPlain(lead, members[0], mark);
      SplitBarsPlain(lead + members[0] + mark);
    } else {
      FirstMemberSplits(members, lead, mark);
      assert forall k :: 0 <= k < |members[1..]| ==> members[1..][k] == members[k + 1];
      GroupSplits(members[1..], " ", mark);
      FirstPiece(members, lead, mark);
    }
  }

  lemma FirstPiece(members: seq<string>, lead: string, mark: string)
    requires |members| > 1
    ensures Pieces(members, lead, mark) == [lead + members[0] + " "] + Pieces(members[1..], " ", mark)
  {
  }

  lemma PiecesClean(members: seq<string>, lead: string, mark: string)
    requires members != [] && forall k :: 0 <= k < |members| ==> IsName(members[k])
    requires (lead == "" || lead == " ") && (mark == "" || mark == "?")
    ensures FlatMap(CleanMember, Pieces(members, lead, mark)) == members
  {
    forall k | 0 <= k < |members| ensures CleanMember(Pieces(members, lead, mark)[k]) == [members[k]] {
      MemberCleans(if k == 0 then lead else " ", members[k], if k == |members| - 1 then mark else " ");
    }
    FlatMapSingles(CleanMember, Pieces(members, lead, mark), members);
  }

  lemma FirstMemberSplits(members: seq<string>, lead: string, mark: string)
    requires |members| > 1 && IsName(members[0]) && (lead == "" || lead == " ")
    ensures SplitBars(lead + Join(members, " \\| ") + mark) ==
              [lead + members[0] + " "] + SplitBars(" " + Join(members[1..], " \\| ") + mark)
  {
    var m, rest := members[0], Join(members[1..], " \\| ");
    assert " \\| " == " " + "\\|" + " ";
    assert lead + (m + " \\| " + rest) + mark == (lead + m + " ") + "\\|" + (" " + rest + mark);
    MemberIsPlain(lead, m, " ");
    SplitBarsAt(lead + m + " ", " " + rest + mark);
  }

  lemma {:induction false} NamesSurvive(members: seq<string>)
    requires forall k :: 0 <= k < |members| ==> IsName(members[k])
    ensures FlatMap(IfName, members) == members
  {
    if members != [] {
      NamesSurvive(members[1..]);
    }
  }

  lemma GroupMembers(members: seq<string>, mark: string)
    requires |members| >= 2 && forall k :: 0 <= k < |members| ==> IsName(members[k])
    requires mark == "" || mark == "?"
    ensures FlatMap(CleanMember, SplitBars(Join(members, " \\| ") + mark)) == members
  {
    assert "" + Join(members, " \\| ") + mark == Join(members, " \\| ") + mark;
    GroupSplits(members, "", mark);
    PiecesClean(members, "", mark);
  }

  lemma OnlyMark(j: string, required: bool)
    requires Lacks(j, '?')
    ensures Lacks(j + Mark(required), '?') <==> required
  {
    if !required {
      assert (j + "?")[|j|] == '?';
    }
  }

  lemma GroupMarked(members: seq<string>, required: bool)
    requires forall k :: 0 <= k < |members| ==> IsName(members[k])
    ensures Lacks(Join(members, " \\| ") + Mark(required), '?') <==> required
  {
    BarIsQuiet();
    JoinLacks(members, " \\| ", '?');
    OnlyMark(Join(members, " \\| "), required);
  }

  lemma GroupParses(members: seq<string>, required: bool)
    requires |members| >= 2 && forall k :: 0 <= k < |members| ==> IsName(members[k])
    ensures ParseGroup(Join(members, " \\| ") + Mark(required)) == AGroup(OneOf(members, required))
  {
    GroupMembers(members, Mark(required));
    GroupMarked(members, required);
    NamesSurvive(members);
  }

  lemma GroupHasBar(members: seq<string>, mark: string)
    requires |members| >= 2
    ensures !Lacks(Join(members, " \\| ") + mark, '|')
  {
    assert (Join(members, " \\| ") + mark)[|members[0]| + 2] == '|';
  }

  lemma GroupReadBack(t: Term)
    requires ValidTerm(t) && t.decl.GroupDecl?
    ensures GroupIn(PrintTerm(t)) == GroupOf(t) && FieldIn(PrintTerm(t)) == []
  {
    PrintedTicked(t);
    DeclShape(t.decl);
    StripTrims(PrintDecl(t.decl));
    GroupParses(t.decl.members, t.decl.required);
    GroupHasBar(t.decl.members, Mark(t.decl.required));
  }

  // ------------------------------------------------------------------ the round trip

  lemma TermReadBack(t: Term)
    requires ValidTerm(t)
    ensures FieldIn(PrintTerm(t)) == FieldOf(t) && GroupIn(PrintTerm(t)) == GroupOf(t)
  {
    if t.decl.FieldDecl? {
      FieldReadBack(t);
    } else {
      GroupReadBack(t);
    }
  }

  lemma {:induction false} TermsReadBack(ts: seq<Term>)
    requires forall k :: 0 <= k < |ts| ==> ValidTerm(ts[k])
    ensures FlatMap(FieldIn, PrintAll(ts)) == FlatMap(FieldOf, ts)
    ensures FlatMap(GroupIn, PrintAll(ts)) == FlatMap(GroupOf, ts)
  {
    if ts != [] {
      TermReadBack(ts[0]);
      TermsReadBack(ts[1..]);
      assert PrintAll(ts)[1..] == PrintAll(ts[1..]);
    }
  }

  lemma NoMarkNoReplace(s: string, c: char, before: string)
    requires Lacks(s, c) && before != "" && before[0] == c
    ensures ReplaceFrom(s, before, "", 0) == s
  {
    forall k: nat ensures !HasAt(s, before, k) {
      if HasAt(s, before, k) {
        OccurrenceStarts(s, before, k);
      }
    }
    assert FindFrom(s, before, 0).None?;
    assert s[0..] == s;
  }

  lemma PrintedLacksEmphasis(t: Term)
    requires ValidTerm(t)
    ensures Lacks(PrintTerm(t), '*') && Lacks(PrintTerm(t), '#')
  {
    DeclShape(t.decl);
    LacksAround(PrintDecl(t.decl), t.annotation, '*');
    LacksAround(PrintDecl(t.decl), t.annotation, '#');
  }

  lemma LacksAround(token: string, rest: string, c: char)
    requires Lacks(token, c) && Lacks(rest, c) && c != '`'
    ensures Lacks("`" + token + "`" + rest, c)
  {
  }

  lemma {:induction false} JoinTrimmed(parts: seq<string>, sep: string)
    requires parts != [] && parts[0] != "" && forall k :: 0 <= k < |parts| ==> IsTerm(parts[k], ',')
    ensures var s := Join(parts, sep); s != "" && s[0] == parts[0][0] && Trimmed(s)
  {
    assert IsTerm(parts[0], ',');
    if |parts| > 1 {
      assert IsTerm(parts[1], ',');
      JoinTrimmed(parts[1..], sep);
      var rest := Join(parts[1..], sep);
      var s := parts[0] + sep + rest;
      assert s[|s| - 1] == rest[|rest| - 1];
    }
  }

  /** A term without emphasis. */
  ghost predicate IsPlainTerm(s: string) {
    IsTerm(s, ',') && Lacks(s, '*') && Lacks(s, '#')
  }

  /** The terms of a cell are the terms it was joined from. */
  lemma TermsOfJoin(terms: seq<string>)
    requires forall k :: 0 <= k < |terms| ==> IsPlainTerm(terms[k])
    requires !IsDash(Join(terms, ", "))
    ensures Terms(Join(terms, ", ")) == terms
  {
    CommaIsPlain();
    JoinIsPlain(terms, ", ");
    SplitOfJoin(terms);
    if terms == [] {
      assert Split("", ',') == [];
    }
  }

  lemma NothingToStrip(s: string)
    requires Lacks(s, '*') && Lacks(s, '#')
    ensures StripEmphasis(s) == Strip(s)
  {
    NoMarkNoReplace(s, '#', "###");
    NoMarkNoReplace(s, '*', "**");
  }

  lemma CommaIsPlain()
    ensures Lacks(", ", '*') && Lacks(", ", '#')
  {
    var comma := ", ";
    assert |comma| == 2 && comma[0] == ',' && comma[1] == ' ';
  }

  lemma JoinIsPlain(terms: seq<string>, sep: string)
    requires Lacks(sep, '*') && Lacks(sep, '#')
    requires forall k :: 0 <= k < |terms| ==> IsPlainTerm(terms[k])
    ensures StripEmphasis(Join(terms, sep)) == Join(terms, sep)
    ensures Join(terms, sep) == "" <==> terms == []
  {
    var cell := Join(terms, sep);
    JoinLacks(terms, sep, '*');
    JoinLacks(terms, sep, '#');
    NothingToStrip(cell);
    if terms != [] {
      assert IsPlainTerm(terms[0]);
      JoinTrimmed(terms, sep);
    }
    StripTrims(cell);
  }

  lemma PrintedIsPlainTerm(t: Term)
    requires ValidTerm(t)
    ensures IsPlainTerm(PrintTerm(t)) && PrintTerm(t)[0] == '`'
  {
    PrintedIsTerm(t);
    PrintedLacksEmphasis(t);
  }

  /** The terms of a printed cell are the printed terms. */
  lemma TermsOfCell(ts: seq<Term>)
    requires forall k :: 0 <= k < |ts| ==> ValidTerm(ts[k])
    ensures Terms(PrintCell(ts)) == PrintAll(ts)
  {
    var ss := PrintAll(ts);
    forall k | 0 <= k < |ts| ensures IsPlainTerm(ss[k]) && ss[k][0] == '`' {
      PrintedIsPlainTerm(ts[k]);
    }
    if ts != [] {
      assert IsPlainTerm(ss[0]);
      JoinTrimmed(ss, ", ");
      assert PrintCell(ts)[0] == '`';
    }
    TermsOfJoin(ss);
  }

  /** Printing declarations, each with any valid annotation, as one cell and parsing the cell gives
      back their fields and groups in order; a name declared twice is refused. */
  lemma PayloadRoundTrip(ts: seq<Term>)
    requires forall k :: 0 <= k < |ts| ==> ValidTerm(ts[k])
    ensures Meaning(PrintCell(ts)) == Intended(ts)
  {
    TermsOfCell(ts);
    TermsReadBack(ts);
  }
}
