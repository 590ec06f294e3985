/** Scoring one field of one document: scalars by type, accessorial charges by greedy pairing. */
module Scoring {
  import opened Prelude
  import opened PyText
  import opened Numerals
  import opened Matching

  // ------------------------------------------------------------------ values

  /** A JSON value: null, a number together with what `str()` makes of it, or text. */
  datatype Value = Null | Num(value: real, shown: string) | Text(text: string)

  /** The two library judgements the scorer relies on: `SequenceMatcher(None, a, b).ratio() >= 0.85`,
      which is not symmetric, and the first accepted `strptime` format. */
  datatype Oracle = Oracle(similar: (string, string) -> bool, parseDate: string -> Option<string>)

  function Show(v: Value): string {
    match v
    case Null => "None"
    case Num(_, shown) => shown
    case Text(text) => text
  }

  function ParseNumber(v: Value): Option<real> {
    match v
    case Null => None
    case Num(value, _) => Some(value)
    case Text(text) => ParseFloat(KeepNumeric(text))
  }

  function NormalizeDate(o: Oracle, v: Value): Option<string> {
    if v.Null? || Strip(Show(v)) == "" then None else o.parseDate(Strip(Show(v)))
  }

  function Norm(s: string): string {
    Collapse(Lower(Strip(s)), false)
  }

  datatype Match = Exact | Near | Different

  function StringMatch(o: Oracle, a: string, b: string): Match {
    var na, nb := Norm(a), Norm(b);
    if na == nb then Exact
    else if na != "" && nb != "" && (Contains(nb, na) || Contains(na, nb)) then Near
    else if na != "" && nb != "" && o.similar(na, nb) then Near
    else Different
  }

  /** Present means neither null nor blank; zero is present. */
  predicate Present(v: Value) {
    match v
    case Null => false
    case Num(_, _) => true
    case Text(text) => Strip(text) != ""
  }

  /** `0.01`, read as an exact decimal. */
  const NUMERIC_TOLERANCE: real := 0.01

  predicate Close(a: Option<real>, b: Option<real>) {
    a.Some? && b.Some? && -NUMERIC_TOLERANCE <= a.value - b.value <= NUMERIC_TOLERANCE
  }

  /** Reading a printed amount back gives the amount; equal amounts match, and amounts two or more
      cents apart do not. Exactly one cent is left open: whether it is within a tolerance of 0.01 depends
      on how floats round. */
  lemma PrintedMoney(a: int, b: int)
    ensures ParseNumber(Text(Dollars(a))) == Some(a as real / 100.0)
    ensures a == b ==> Close(ParseNumber(Text(Dollars(a))), ParseNumber(Text(Dollars(b))))
    ensures a - b >= 2 || b - a >= 2 ==> !Close(ParseNumber(Text(Dollars(a))), ParseNumber(Text(Dollars(b))))
  {
    DollarsRoundTrip(a);
    DollarsRoundTrip(b);
  }

  /** Normalizing twice is normalizing once: the scorer compares names one of which it has already
      normalized. */
  lemma NormIdempotent(s: string)
    ensures Norm(Norm(s)) == Norm(s)
  {
    var t := Strip(s);
    var l := Lower(t);
    var n := Norm(s);
    StripTrims(s);
    assert t != "" ==> !IsSpace(l[0]) && !IsSpace(l[|l| - 1]);
    CollapseTidies(l, false);
    if t == "" {
      assert l == "";
    }
    TidyIsNormal(n);
  }

  lemma TidyIsNormal(n: string)
    requires Tidy(n) && Trimmed(n)
    ensures Norm(n) == n
  {
    StripTrims(n);
    assert Lower(n) == n;
    CollapseKeepsTidy(n, false);
  }

  // ------------------------------------------------------------------ scalar fields

  datatype FieldType = StringType | DecimalType | IntegerType | DateType | ListType
  datatype Outcome = Correct | Incorrect | Missing | Extra
  datatype Category =
    LabelVariation | NotFound | WrongValue | FormatError | LayoutUnusual | MultiPageMiss | ModelError

  /** What the model returned for a scalar field; an absent entry is all nulls. */
  datatype ScalarField = ScalarField(value: Value, confidence: real, note: Option<string>)

  const ABSENT: ScalarField := ScalarField(Null, 0.0, None)

  datatype Charge = Charge(name: string, amount: Value)
  datatype Item = Item(name: string, amount: Value, confidence: real)

  datatype Content = Scalar(value: Value) | Charges(charges: seq<Charge>) | Items(items: seq<Item>)

  datatype FieldScore = FieldScore(filename: string, field: string, outcome: Outcome, confidence: real,
                                   truth: Content, extracted: Content, category: Option<Category>,
                                   note: Option<string>, asserted: bool)

  predicate Mentions(note: string, words: seq<string>) {
    exists k :: 0 <= k < |words| && Contains(note, words[k])
  }

  function Categorize(o: Oracle, fieldType: FieldType, outcome: Outcome, extracted: Value,
                      extractionNote: Option<string>): (c: Option<Category>)
    ensures c.None? <==> outcome == Correct
  {
    var note := Lower(if extractionNote.Some? then extractionNote.value else "");
    if outcome == Correct then None
    else if outcome == Missing then
      if Mentions(note, ["page", "attachment", "second page"]) then Some(MultiPageMiss) else Some(NotFound)
    else if fieldType in {DecimalType, IntegerType} && ParseNumber(extracted).None? && Present(extracted)
      then Some(FormatError)
    else if fieldType == DateType && NormalizeDate(o, extracted).None? && Present(extracted)
      then Some(FormatError)
    else if Mentions(note, ["label", "assumed", "guess", "non-standard", "unclear"])
      then Some(LabelVariation)
    else if Mentions(note, ["layout", "unusual", "format of"]) then Some(LayoutUnusual)
    else if Mentions(note, ["page", "attachment"]) then Some(MultiPageMiss)
    else Some(WrongValue)
  }

  const IDENTIFIER_FIELDS: set<string> := {"load_or_pro_number", "invoice_number"}

  /** The flag of a near match. */
  const NEAR: string := "near-match"

  function ScoreScalar(o: Oracle, filename: string, fieldType: FieldType, name: string,
                       extracted: ScalarField, truth: Value): FieldScore
  {
    var t, e := Present(truth), Present(extracted.value);
    var m := StringMatch(o, Show(truth), Show(extracted.value));
    var free := t && e && fieldType !in {DecimalType, IntegerType, DateType} && name !in IDENTIFIER_FIELDS;
    var outcome :=
      if !t && !e then Correct
      else if t && !e then Missing
      else if !t && e then Extra
      else if fieldType in {DecimalType, IntegerType} then
        if Close(ParseNumber(truth), ParseNumber(extracted.value)) then Correct else Incorrect
      else if fieldType == DateType then
        if NormalizeDate(o, truth) == NormalizeDate(o, extracted.value) then Correct else Incorrect
      else if name in IDENTIFIER_FIELDS then
        if m == Exact then Correct else Incorrect
      else
        if m in {Exact, Near} then Correct else Incorrect;
    var note :=
      if free && m == Near then
        Some((if extracted.note.Some? && extracted.note.value != "" then extracted.note.value + " | " else "")
             + NEAR)
      else extracted.note;
    FieldScore(filename, name, outcome, extracted.confidence, Scalar(truth), Scalar(extracted.value),
               Categorize(o, fieldType, outcome, extracted.value, note), note, e)
  }

  /** MISSING and EXTRA tell which side alone is present. For typed and identifier fields, exchanging
      truth and value exchanges these two and keeps CORRECT; free text has no such law, because the
      similarity of two names depends on their order. */
  lemma ScalarSymmetric(o: Oracle, filename: string, fieldType: FieldType, name: string,
                        e: ScalarField, t: ScalarField)
    requires fieldType in {DecimalType, IntegerType, DateType} || name in IDENTIFIER_FIELDS
    ensures var fs := ScoreScalar(o, filename, fieldType, name, e, t.value);
            var back := ScoreScalar(o, filename, fieldType, name, t, e.value);
            && (fs.outcome == Correct <==> back.outcome == Correct)
            && (fs.outcome == Missing <==> back.outcome == Extra)
            && (fs.outcome == Missing <==> Present(t.value) && !Present(e.value))
            && (fs.category.None? <==> fs.outcome == Correct)
  {
  }

  /** An identifier is never accepted on a near match, whatever the similarity measure says; a
      descriptive text accepted on one is flagged, and otherwise its note is left alone. */
  lemma TextFields(o: Oracle, filename: string, name: string, e: ScalarField, truth: Value)
    requires Present(truth) && Present(e.value)
    ensures var fs := ScoreScalar(o, filename, StringType, name, e, truth);
            var same := Norm(Show(truth)) == Norm(Show(e.value));
            && (name in IDENTIFIER_FIELDS ==> (fs.outcome == Correct <==> same))
            && (same ==> fs.outcome == Correct && fs.note == e.note)
            && (fs.outcome == Correct && !same ==> fs.note.Some? && EndsIn(fs.note.value, NEAR))
  {
    if e.note.Some? && e.note.value != "" {
      Ending(e.note.value + " | ", NEAR);
    } else {
      Ending("", NEAR);
    }
  }

  predicate EndsIn(s: string, ending: string) {
    |s| >= |ending| && s[|s| - |ending|..] == ending
  }

  lemma Ending(s: string, ending: string)
    ensures EndsIn(s + ending, ending)
  {
  }

  /** For instance "tbd" and "n/a", which are no dates in any of the source's formats. */
  lemma TwoUnreadableDates(o: Oracle, filename: string, name: string)
    requires o.parseDate("tbd").None? && o.parseDate("n/a").None?
    ensures var e := ScalarField(Text("n/a"), 0.99, None);
            ScoreScalar(o, filename, DateType, name, e, Text("tbd")).outcome == Correct
  {
    StripTrims("tbd");
    StripTrims("n/a");
    UnreadableDatesAgree(o, filename, name, ScalarField(Text("n/a"), 0.99, None), Text("tbd"));
  }

  /** Two dates that cannot be read compare equal, however different they are. */
  lemma UnreadableDatesAgree(o: Oracle, filename: string, name: string, e: ScalarField, truth: Value)
    requires Present(truth) && Present(e.value)
    ensures var fs := ScoreScalar(o, filename, DateType, name, e, truth);
            NormalizeDate(o, e.value).None? ==>
              (fs.outcome == Correct <==> NormalizeDate(o, truth).None?) &&
              (fs.outcome == Incorrect ==> fs.category == Some(FormatError))
  {
  }

  // ------------------------------------------------------------------ accessorial charges

  datatype Prediction = Prediction(confidence: real, correct: bool)

  function Compatible(o: Oracle): (Charge, Item) -> bool {
    (t: Charge, e: Item) =>
      StringMatch(o, e.name, Norm(t.name)) in {Exact, Near} &&
      Close(ParseNumber(t.amount), ParseNumber(e.amount))
  }

  function Right(h: (Charge, Item)): seq<Prediction> {
    [Prediction(h.1.confidence, true)]
  }

  function Wrong(e: Item): seq<Prediction> {
    [Prediction(e.confidence, false)]
  }

  /** The score and predictions a pairing gives rise to. */
  function PairingScore(filename: string, extracted: seq<Item>, truth: seq<Charge>,
                        r: Pairing<Charge, Item>): (FieldScore, seq<Prediction>)
  {
    var found, extra := |r.hits|, |r.remaining|;
    var outcome :=
      if truth == [] && extracted == [] then Correct
      else if truth != [] && extracted == [] then Missing
      else if found == |truth| && extra == 0 then Correct
      else Incorrect;
    var category :=
      if outcome == Missing then Some(NotFound)
      else if outcome == Incorrect then
        if r.missing != [] && extra == 0 then Some(LayoutUnusual) else Some(WrongValue)
      else None;
    var detail := "found " + Dec(found) + "/" + Dec(|truth|)
      + if extra > 0 then ", " + Dec(extra) + " extra" else "";
    (FieldScore(filename, "accessorials", outcome, 0.0, Charges(truth), Items(extracted), category,
                Some(detail), extracted != []),
     FlatMap(Right, r.hits) + FlatMap(Wrong, r.remaining))
  }

  function AccessorialScore(o: Oracle, filename: string, extracted: seq<Item>, truth: seq<Charge>)
    : (FieldScore, seq<Prediction>)
  {
    PairingScore(filename, extracted, truth, Greedy(Compatible(o), truth, extracted))
  }

  /** Python's `==` on two items: numbers compare by value however they were written. */
  predicate SameValue(a: Value, b: Value) {
    a == b || (a.Num? && b.Num? && a.value == b.value)
  }

  predicate SameItem(a: Item, b: Item) {
    a.name == b.name && SameValue(a.amount, b.amount) && a.confidence == b.confidence
  }

  /** The position of the first item equal to hit. */
  function FirstEqual(items: seq<Item>, hit: Item): (i: nat)
    requires hit in items
    ensures i < |items| && SameItem(items[i], hit)
    ensures forall k :: 0 <= k < i ==> !SameItem(items[k], hit)
  {
    if SameItem(items[0], hit) then 0 else 1 + FirstEqual(items[1..], hit)
  }

  /** `remaining.remove(hit)`: drops the first element equal to hit. */
  method RemoveItem(remaining: seq<Item>, hit: Item) returns (r: seq<Item>)
    requires hit in remaining
    ensures r == Without(remaining, FirstEqual(remaining, hit))
  {
    var i := 0;
    while !SameItem(remaining[i], hit)
      invariant i < |remaining|
      invariant forall k :: 0 <= k < i ==> !SameItem(remaining[k], hit)
      decreases |remaining| - i
    {
      assert i < FirstEqual(remaining, hit);
      i := i + 1;
    }
    r := remaining[..i] + remaining[i + 1..];
  }

  /** After the first k charges, what is left of the run is a greedy run on what is left. */
  ghost predicate PairedSoFar(c: (Charge, Item) -> bool, truth: seq<Charge>, extracted: seq<Item>, k: nat,
                              hits: seq<(Charge, Item)>, missing: seq<Charge>, remaining: seq<Item>)
  {
    k <= |truth| &&
    var rest := Greedy(c, truth[k..], remaining);
    Greedy(c, truth, extracted) == Pairing(hits + rest.hits, missing + rest.missing, rest.remaining)
  }

  lemma PairOneMore(c: (Charge, Item) -> bool, truth: seq<Charge>, extracted: seq<Item>, k: nat,
                    hits: seq<(Charge, Item)>, missing: seq<Charge>, remaining: seq<Item>)
    requires PairedSoFar(c, truth, extracted, k, hits, missing, remaining) && k < |truth|
    ensures var i := FirstHit(c, truth[k], remaining);
            if i < |remaining| then
              PairedSoFar(c, truth, extracted, k + 1, hits + [(truth[k], remaining[i])], missing,
                          Without(remaining, i))
            else
              PairedSoFar(c, truth, extracted, k + 1, hits, missing + [truth[k]], remaining)
  {
    assert truth[k..][0] == truth[k] && truth[k..][1..] == truth[k + 1..];
    var i := FirstHit(c, truth[k], remaining);
    if i < |remaining| {
      var next, h := Greedy(c, truth[k + 1..], Without(remaining, i)), (truth[k], remaining[i]);
      MoveOver(hits, h, next.hits);
    } else {
      MoveOver(missing, truth[k], Greedy(c, truth[k + 1..], remaining).missing);
    }
  }

  lemma MoveOver<T>(a: seq<T>, x: T, b: seq<T>)
    ensures a + ([x] + b) == (a + [x]) + b
  {
  }

  lemma AllPaired(c: (Charge, Item) -> bool, truth: seq<Charge>, extracted: seq<Item>,
                  hits: seq<(Charge, Item)>, missing: seq<Charge>, remaining: seq<Item>)
    requires PairedSoFar(c, truth, extracted, |truth|, hits, missing, remaining)
    ensures Greedy(c, truth, extracted) == Pairing(hits, missing, remaining)
  {
    assert truth[|truth|..] == [];
    assert hits + [] == hits && missing + [] == missing;
  }

  /** The search for a hit: the first item the charge is compatible with, if any. */
  method FindHit(c: (Charge, Item) -> bool, t: Charge, remaining: seq<Item>) returns (hit: Option<Item>)
    ensures var i := FirstHit(c, t, remaining);
            hit == if i < |remaining| then Some(remaining[i]) else None
  {
    for i := 0 to |remaining|
      invariant forall j :: 0 <= j < i ==> !c(t, remaining[j])
    {
      if c(t, remaining[i]) {
        return Some(remaining[i]);
      }
    }
    return None;
  }

  /** Compatibility cannot tell items apart that compare equal. */
  ghost predicate RespectsEquality(c: (Charge, Item) -> bool) {
    forall t, a, b :: SameItem(a, b) && c(t, a) ==> c(t, b)
  }

  lemma CompatibleRespectsEquality(o: Oracle)
    ensures RespectsEquality(Compatible(o))
  {
    forall t, a, b | SameItem(a, b) && Compatible(o)(t, a) ensures Compatible(o)(t, b) {
      assert ParseNumber(a.amount) == ParseNumber(b.amount);
    }
  }

  /** The matching loop: each true charge takes, and uses up, the first compatible item. */
  method PairUp(c: (Charge, Item) -> bool, extracted: seq<Item>, truth: seq<Charge>)
    returns (found: seq<Charge>, missing: seq<Charge>, remaining: seq<Item>, predictions: seq<Prediction>)
    requires RespectsEquality(c)
    ensures var g := Greedy(c, truth, extracted);
            && missing == g.missing && remaining == g.remaining
            && found == FlatMap(ChargeOf, g.hits) && predictions == FlatMap(Right, g.hits)
  {
    remaining, found, missing, predictions := extracted, [], [], [];
    ghost var hits: seq<(Charge, Item)> := [];
    assert truth[0..] == truth;
    for k := 0 to |truth|
      invariant PairedSoFar(c, truth, extracted, k, hits, missing, remaining)
      invariant found == FlatMap(ChargeOf, hits) && predictions == FlatMap(Right, hits)
    {
      var t := truth[k];
      var hit := FindHit(c, t, remaining);
      PairOneMore(c, truth, extracted, k, hits, missing, remaining);
      if hit.Some? {
        OneMoreHit(hits, (t, hit.value));
        hits := hits + [(t, hit.value)];
        assert FirstEqual(remaining, hit.value) == FirstHit(c, t, remaining);
        remaining := RemoveItem(remaining, hit.value);
        found := found + [t];
        predictions := predictions + [Prediction(hit.value.confidence, true)];
      } else {
        missing := missing + [t];
      }
    }
    AllPaired(c, truth, extracted, hits, missing, remaining);
  }

  function ChargeOf(h: (Charge, Item)): seq<Charge> {
    [h.0]
  }

  lemma OneMoreHit(hits: seq<(Charge, Item)>, h: (Charge, Item))
    ensures FlatMap(Right, hits + [h]) == FlatMap(Right, hits) + [Prediction(h.1.confidence, true)]
    ensures FlatMap(ChargeOf, hits + [h]) == FlatMap(ChargeOf, hits) + [h.0]
  {
    FlatMapAppend(Right, hits, [h]);
    FlatMapAppend(ChargeOf, hits, [h]);
    FlatMapOne(Right, h);
    FlatMapOne(ChargeOf, h);
  }

  lemma {:induction false} OneChargeEach(hits: seq<(Charge, Item)>)
    ensures |FlatMap(ChargeOf, hits)| == |hits|
  {
    if hits != [] {
      OneChargeEach(hits[1..]);
    }
  }

  /** Pairs the charges up, counts every item left over as a wrong prediction, and sums up. */
  method ScoreAccessorials(o: Oracle, filename: string, extracted: seq<Item>, truth: seq<Charge>)
    returns (fs: FieldScore, predictions: seq<Prediction>)
    ensures (fs, predictions) == AccessorialScore(o, filename, extracted, truth)
  {
    CompatibleRespectsEquality(o);
    ghost var hits := Greedy(Compatible(o), truth, extracted).hits;
    var found, missing, extra;
    found, missing, extra, predictions := PairUp(Compatible(o), extracted, truth);
    OneChargeEach(hits);
    for x := 0 to |extra|
      invariant predictions == FlatMap(Right, hits) + FlatMap(Wrong, extra[..x])
    {
      FlatMapStep(Wrong, extra, x);
      predictions := predictions + [Prediction(extra[x].confidence, false)];
    }
    assert extra[..|extra|] == extra;
    fs := SummarizePairing(filename, extracted, truth, |found|, missing, extra, hits);
  }

  /** The field score the source assembles after its loop. */
  method SummarizePairing(filename: string, extracted: seq<Item>, truth: seq<Charge>, found: nat,
                          missing: seq<Charge>, remaining: seq<Item>, ghost hits: seq<(Charge, Item)>)
    returns (fs: FieldScore)
    requires found == |hits|
    ensures fs == PairingScore(filename, extracted, truth, Pairing(hits, missing, remaining)).0
  {
    var outcome;
    if truth == [] && extracted == [] {
      outcome := Correct;
    } else if truth != [] && extracted == [] {
      outcome := Missing;
    } else if found == |truth| && remaining == [] {
      outcome := Correct;
    } else {
      outcome := Incorrect;
    }
    var detail := "found " + Dec(found) + "/" + Dec(|truth|);
    assert detail + "" == detail;
    if remaining != [] {
      detail := detail + (", " + Dec(|remaining|) + " extra");
    }
    var category := None;
    if outcome == Missing {
      category := Some(NotFound);
    } else if outcome == Incorrect {
      category := if missing != [] && remaining == [] then Some(LayoutUnusual) else Some(WrongValue);
    }
    fs := FieldScore(filename, "accessorials", outcome, 0.0, Charges(truth), Items(extracted), category,
                     Some(detail), extracted != []);
  }

  // ------------------------------------------------------------------ what the score means

  /** The accessorial field is CORRECT exactly when both lists are used up by the pairing, MISSING
      exactly when charges exist and nothing was extracted, never EXTRA; a category marks exactly
      the wrong ones; and there is one prediction per extracted item, right for the paired ones. */
  lemma AccessorialVerdict(o: Oracle, filename: string, extracted: seq<Item>, truth: seq<Charge>)
    ensures var r := Greedy(Compatible(o), truth, extracted);
            var (fs, ps) := AccessorialScore(o, filename, extracted, truth);
            && (fs.outcome == Correct <==> Perfect(r))
            && (fs.outcome == Missing <==> truth != [] && extracted == [])
            && fs.outcome != Extra
            && (fs.category.None? <==> fs.outcome == Correct)
            && |ps| == |extracted|
            && Count((p: Prediction) => p.correct, ps) == |r.hits|
  {
    var r := Greedy(Compatible(o), truth, extracted);
    GreedyLeavesNoPair(Compatible(o), truth, extracted);
    RightPredictions(r.hits);
    WrongPredictions(r.remaining);
    CountAppend((p: Prediction) => p.correct, FlatMap(Right, r.hits), FlatMap(Wrong, r.remaining));
  }

  lemma {:induction false} RightPredictions(hits: seq<(Charge, Item)>)
    ensures |FlatMap(Right, hits)| == |hits|
    ensures Count((p: Prediction) => p.correct, FlatMap(Right, hits)) == |hits|
  {
    if hits != [] {
      RightPredictions(hits[1..]);
      CountAppend((p: Prediction) => p.correct, Right(hits[0]), FlatMap(Right, hits[1..]));
    }
  }

  lemma {:induction false} WrongPredictions(extra: seq<Item>)
    ensures |FlatMap(Wrong, extra)| == |extra|
    ensures Count((p: Prediction) => p.correct, FlatMap(Wrong, extra)) == 0
  {
    if extra != [] {
      WrongPredictions(extra[1..]);
      CountAppend((p: Prediction) => p.correct, Wrong(extra[0]), FlatMap(Wrong, extra[1..]));
    }
  }

  /** No one-to-one compatible pairing of charges with items has more than twice as many pairs as
      the scorer finds. */
  lemma AccessorialsHalfOptimal(o: Oracle, extracted: seq<Item>, truth: seq<Charge>, m: map<nat, nat>)
    requires IsMatching(OnPositions(Compatible(o), truth, extracted), Iota(|truth|), Iota(|extracted|), m)
    ensures |m| <= 2 * |Greedy(Compatible(o), truth, extracted).hits|
    ensures Blocks(Compatible(o), truth, extracted) ==>
              |m| <= |Greedy(Compatible(o), truth, extracted).hits|
  {
    GreedyIsHalfOptimal(Compatible(o), truth, extracted, m);
    if Blocks(Compatible(o), truth, extracted) {
      GreedyIsOptimalOnBlocks(Compatible(o), truth, extracted, m);
    }
  }

  /** The outcome with the lists in the orders p and q. */
  function OutcomeIn(o: Oracle, filename: string, extracted: seq<Item>, truth: seq<Charge>,
                     p: seq<nat>, q: seq<nat>): Outcome
    requires IsOrder(p, |truth|) && IsOrder(q, |extracted|)
  {
    AccessorialScore(o, filename, Arrange(extracted, q), Arrange(truth, p)).0.outcome
  }

  ghost predicate CorrectInAll(o: Oracle, filename: string, extracted: seq<Item>, truth: seq<Charge>) {
    forall p, q :: IsOrder(p, |truth|) && IsOrder(q, |extracted|) ==>
      OutcomeIn(o, filename, extracted, truth, p, q) == Correct
  }

  /** No reordering of either list changes the outcome. */
  ghost predicate SameInAll(o: Oracle, filename: string, extracted: seq<Item>, truth: seq<Charge>) {
    forall p, q, p', q' ::
      IsOrder(p, |truth|) && IsOrder(q, |extracted|) && IsOrder(p', |truth|) && IsOrder(q', |extracted|) ==>
        OutcomeIn(o, filename, extracted, truth, p, q) == OutcomeIn(o, filename, extracted, truth, p', q')
  }

  lemma OutcomeOfOrder(o: Oracle, filename: string, extracted: seq<Item>, truth: seq<Charge>, p: seq<nat>, q: seq<nat>)
    requires IsOrder(p, |truth|) && IsOrder(q, |extracted|)
    ensures OutcomeIn(o, filename, extracted, truth, p, q) ==
              if Perfect(Greedy(Compatible(o), Arrange(truth, p), Arrange(extracted, q))) then Correct
              else if truth != [] && extracted == [] then Missing
              else Incorrect
  {
    AccessorialVerdict(o, filename, Arrange(extracted, q), Arrange(truth, p));
  }

  /** A list scores CORRECT in every order exactly when some one-to-one compatible pairing uses up both
      lists and compatibility falls into blocks. */
  lemma CorrectInEveryOrder(o: Oracle, filename: string, extracted: seq<Item>, truth: seq<Charge>)
    ensures CorrectInAll(o, filename, extracted, truth) <==>
              HasPerfectPairing(Compatible(o), truth, extracted) && Blocks(Compatible(o), truth, extracted)
  {
    CorrectInAllIsPerfect(o, filename, extracted, truth);
    OrderIndependentExactlyOnBlocks(Compatible(o), truth, extracted);
  }

  lemma CorrectIsPerfect(o: Oracle, filename: string, extracted: seq<Item>, truth: seq<Charge>,
                         p: seq<nat>, q: seq<nat>)
    requires IsOrder(p, |truth|) && IsOrder(q, |extracted|)
    ensures OutcomeIn(o, filename, extracted, truth, p, q) == Correct <==>
              Perfect(Greedy(Compatible(o), Arrange(truth, p), Arrange(extracted, q)))
  {
    OutcomeOfOrder(o, filename, extracted, truth, p, q);
  }

  lemma CorrectInAllIsPerfect(o: Oracle, filename: string, extracted: seq<Item>, truth: seq<Charge>)
    ensures CorrectInAll(o, filename, extracted, truth) <==> PerfectInEveryOrder(Compatible(o), truth, extracted)
  {
    if CorrectInAll(o, filename, extracted, truth) {
      forall p, q | IsOrder(p, |truth|) && IsOrder(q, |extracted|)
        ensures Perfect(Greedy(Compatible(o), Arrange(truth, p), Arrange(extracted, q)))
      {
        CorrectIsPerfect(o, filename, extracted, truth, p, q);
      }
    }
    if PerfectInEveryOrder(Compatible(o), truth, extracted) {
      forall p, q | IsOrder(p, |truth|) && IsOrder(q, |extracted|)
        ensures OutcomeIn(o, filename, extracted, truth, p, q) == Correct
      {
        CorrectIsPerfect(o, filename, extracted, truth, p, q);
      }
    }
  }

  /** What "regardless of order" comes to: the outcome is the same in every order of the two lists
      exactly when compatibility falls into blocks or no pairing uses up both lists anyway. */
  lemma RegardlessOfOrder(o: Oracle, filename: string, extracted: seq<Item>, truth: seq<Charge>)
    ensures SameInAll(o, filename, extracted, truth) <==>
              Blocks(Compatible(o), truth, extracted) || !HasPerfectPairing(Compatible(o), truth, extracted)
  {
    CorrectInEveryOrder(o, filename, extracted, truth);
    if HasPerfectPairing(Compatible(o), truth, extracted) {
      SomeOrderExactlyOnPairing(Compatible(o), truth, extracted);
      SameAndPairedIsCorrect(o, filename, extracted, truth);
    } else {
      UnpairedIsSame(o, filename, extracted, truth);
    }
  }

  lemma UnpairedIsSame(o: Oracle, filename: string, extracted: seq<Item>, truth: seq<Charge>)
    requires !HasPerfectPairing(Compatible(o), truth, extracted)
    ensures SameInAll(o, filename, extracted, truth)
  {
    SomeOrderExactlyOnPairing(Compatible(o), truth, extracted);
    forall p, q | IsOrder(p, |truth|) && IsOrder(q, |extracted|)
      ensures OutcomeIn(o, filename, extracted, truth, p, q) ==
                if truth != [] && extracted == [] then Missing else Incorrect
    {
      OutcomeOfOrder(o, filename, extracted, truth, p, q);
    }
  }

  lemma SameAndPairedIsCorrect(o: Oracle, filename: string, extracted: seq<Item>, truth: seq<Charge>)
    ensures SameInAll(o, filename, extracted, truth) && PerfectInSomeOrder(Compatible(o), truth, extracted) ==>
              CorrectInAll(o, filename, extracted, truth)
  {
    if SameInAll(o, filename, extracted, truth) && PerfectInSomeOrder(Compatible(o), truth, extracted) {
      var p0, q0 :| IsOrder(p0, |truth|) && IsOrder(q0, |extracted|) &&
        Perfect(Greedy(Compatible(o), Arrange(truth, p0), Arrange(extracted, q0)));
      OutcomeOfOrder(o, filename, extracted, truth, p0, q0);
      assert OutcomeIn(o, filename, extracted, truth, p0, q0) == Correct;
    }
  }

  /** Where compatibility falls into blocks, reordering either list changes neither the outcome, nor
      the category, nor the counts the note reports. */
  lemma OrderIrrelevantOnBlocks(o: Oracle, filename: string, extracted: seq<Item>, truth: seq<Charge>,
                                p: seq<nat>, q: seq<nat>)
    requires Blocks(Compatible(o), truth, extracted)
    requires IsOrder(p, |truth|) && IsOrder(q, |extracted|)
    ensures var a := AccessorialScore(o, filename, Arrange(extracted, q), Arrange(truth, p)).0;
            var b := AccessorialScore(o, filename, extracted, truth).0;
            a.outcome == b.outcome && a.category == b.category && a.note == b.note && a.asserted == b.asserted
  {
    var c := Compatible(o);
    BlocksMakeOrderIrrelevant(c, truth, extracted, p, q);
    GreedyLeavesNoPair(c, truth, extracted);
    GreedyLeavesNoPair(c, Arrange(truth, p), Arrange(extracted, q));
  }

  // ------------------------------------------------------------------ an order that matters

  const HUNDRED: Value := Num(100.0, "100.0")
  const SURCHARGE: Charge := Charge("fuel surcharge", HUNDRED)
  const FUEL: Charge := Charge("fuel", HUNDRED)
  const FUEL_ITEM: Item := Item("fuel", HUNDRED, 0.9)
  const SURCHARGE_ITEM: Item := Item("surcharge", HUNDRED, 0.9)

  /** The same two charges and the same two items score INCORRECT in one order and CORRECT in the
      other: "fuel surcharge" is a near-match of both items and takes the only one "fuel" can use. */
  lemma OrderCanMatter(o: Oracle, filename: string)
    requires !o.similar("surcharge", "fuel")
    ensures AccessorialScore(o, filename, [FUEL_ITEM, SURCHARGE_ITEM], [SURCHARGE, FUEL]).0.outcome == Incorrect
    ensures AccessorialScore(o, filename, [FUEL_ITEM, SURCHARGE_ITEM], [FUEL, SURCHARGE]).0.outcome == Correct
  {
    var c := Compatible(o);
    FuelCharges(o);
    TwoByTwo(c, SURCHARGE, FUEL, FUEL_ITEM, SURCHARGE_ITEM);
    AccessorialVerdict(o, filename, [FUEL_ITEM, SURCHARGE_ITEM], [SURCHARGE, FUEL]);
    AccessorialVerdict(o, filename, [FUEL_ITEM, SURCHARGE_ITEM], [FUEL, SURCHARGE]);
    GreedyLeavesNoPair(c, [SURCHARGE, FUEL], [FUEL_ITEM, SURCHARGE_ITEM]);
  }

  lemma FuelCharges(o: Oracle)
    requires !o.similar("surcharge", "fuel")
    ensures var c := Compatible(o);
            && c(SURCHARGE, FUEL_ITEM) && c(SURCHARGE, SURCHARGE_ITEM)
            && c(FUEL, FUEL_ITEM) && !c(FUEL, SURCHARGE_ITEM)
  {
    FuelNames(o);
    FuelIsNormal();
    SurchargeIsNormal();
    FuelSurchargeIsNormal();
  }

  /** Of two charges competing for the first item, the one that could also use the second must not
      choose first. */
  lemma TwoByTwo<T, E>(c: (T, E) -> bool, t: T, u: T, e: E, f: E)
    requires c(t, e) && c(t, f) && c(u, e) && !c(u, f)
    ensures |Greedy(c, [t, u], [e, f]).hits| == 1
    ensures Perfect(Greedy(c, [u, t], [e, f]))
  {
    assert FirstHit(c, t, [e, f]) == 0 && FirstHit(c, u, [e, f]) == 0;
    assert Without([e, f], 0) == [f];
    assert [t, u][1..] == [u] && [u, t][1..] == [t];
    assert FirstHit(c, u, [f]) == 1 && FirstHit(c, t, [f]) == 0;
    assert Without([f], 0) == [];
    assert Greedy(c, [u], [f]) == Pairing([], [u], [f]);
    assert Greedy(c, [t], [f]) == Pairing([(t, f)], [], []);
  }

  lemma MatchOfNormal(o: Oracle, a: string, b: string)
    requires Norm(a) == a && Norm(b) == b && a != "" && b != ""
    ensures StringMatch(o, a, b) ==
              if a == b then Exact
              else if Contains(b, a) || Contains(a, b) || o.similar(a, b) then Near
              else Different
  {
  }

  lemma FuelIsNormal()
    ensures Norm("fuel") == "fuel"
  {
    TidyIsNormal("fuel");
  }

  lemma SurchargeIsNormal()
    ensures Norm("surcharge") == "surcharge"
  {
    TidyIsNormal("surcharge");
  }

  lemma FuelSurchargeIsNormal()
    ensures Norm("fuel surcharge") == "fuel surcharge"
  {
    var s := "fuel surcharge";
    assert |s| == 14 && s[4] == ' ' && s[5] == 's';
    assert forall k :: 0 <= k < 14 && k != 4 ==> 'a' <= s[k] <= 'z';
    TidyIsNormal(s);
  }

  lemma FuelInSurcharge()
    ensures Contains("fuel surcharge", "fuel") && Contains("fuel surcharge", "surcharge")
    ensures !Contains("surcharge", "fuel") && !Contains("fuel", "surcharge")
  {
    assert HasAt("fuel surcharge", "fuel", 0);
    assert HasAt("fuel surcharge", "surcharge", 5);
    forall k: nat ensures !HasAt("surcharge", "fuel", k) {
      if HasAt("surcharge", "fuel", k) {
        OccurrenceStarts("surcharge", "fuel", k);
      }
    }
  }

  lemma FuelNames(o: Oracle)
    requires !o.similar("surcharge", "fuel")
    ensures StringMatch(o, "fuel", "fuel surcharge") == Near
    ensures StringMatch(o, "surcharge", "fuel surcharge") == Near
    ensures StringMatch(o, "fuel", "fuel") == Exact
    ensures StringMatch(o, "surcharge", "fuel") == Different
  {
    FuelIsNormal();
    SurchargeIsNormal();
    FuelSurchargeIsNormal();
    FuelInSurcharge();
    MatchOfNormal(o, "fuel", "fuel surcharge");
    MatchOfNormal(o, "surcharge", "fuel surcharge");
    MatchOfNormal(o, "fuel", "fuel");
    MatchOfNormal(o, "surcharge", "fuel");
  }
}
