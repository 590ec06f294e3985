/** The evaluation's self-test: injecting the truth itself as the model's answer. */
module Mock {
  import opened Prelude
  import opened PyText
  import opened Numerals
  import opened Matching
  import opened Scoring
  import opened Evaluation
  import opened Gate
  import Conservation

  const MOCK_SCALARS: set<string> :=
    {"invoice_number", "carrier_name", "load_or_pro_number", "linehaul_amount", "fuel_surcharge",
     "total_amount", "invoice_date"}

  const MOCK_CONFIDENCE: real := 0.99

  /** The schema built from the configuration: for a field's name and value, and for a charge's amount,
      the value it is coerced to, unless it is rejected. */
  datatype Validator = Validator(scalar: (string, Value) -> Option<Value>, amount: Value -> Option<Value>)

  function OrNull(v: Option<Value>): Value {
    match v case None => Null case Some(w) => w
  }

  function AsItem(val: Validator, c: Charge): Item {
    Item(c.name, OrNull(val.amount(c.amount)), MOCK_CONFIDENCE)
  }

  function AsItems(val: Validator, cs: seq<Charge>): (items: seq<Item>)
    ensures |items| == |cs| && forall k :: 0 <= k < |cs| ==> items[k] == AsItem(val, cs[k])
  {
    seq(|cs|, k requires 0 <= k < |cs| => AsItem(val, cs[k]))
  }

  /** The schema accepts the true value of a field. */
  predicate FieldAccepted(val: Validator, t: DocTruth, spec: FieldSpec) {
    if spec.fieldType == ListType then
      forall c :: c in Find(t.lists, spec.name, []) ==> val.amount(c.amount).Some?
    else val.scalar(spec.name, Find(t.scalars, spec.name, Null)).Some?
  }

  predicate Accepted(val: Validator, t: DocTruth, fields: seq<FieldSpec>) {
    forall spec :: spec in fields ==> FieldAccepted(val, t, spec)
  }

  /** The true values, each asserted with confidence 0.99, under the mock's own fixed keys, as the
      schema coerces them. */
  function MockData(val: Validator, name: string, t: DocTruth): Extraction {
    Extraction(name, "OK", "",
               map k | k in MOCK_SCALARS ::
                 ScalarField(OrNull(val.scalar(k, Find(t.scalars, k, Null))), MOCK_CONFIDENCE, None),
               map["accessorials" := AsItems(val, Find(t.lists, "accessorials", []))])
  }

  /** One of the seven scalar fields the mock answers for. */
  predicate IsMocked(k: string) {
    || k == "invoice_number" || k == "carrier_name" || k == "load_or_pro_number" || k == "linehaul_amount"
    || k == "fuel_surcharge" || k == "total_amount" || k == "invoice_date"
  }

  /** The mock states what the schema makes of the truth, always with confidence 0.99 and without a note:
      seven scalar fields and, in order, every true charge. */
  lemma MockStates(val: Validator, name: string, t: DocTruth)
    ensures var r := MockData(val, name, t);
            && r.Ok() && r.filename == name
            && (forall k :: k in r.scalars <==> IsMocked(k))
            && (forall k :: k in r.scalars ==>
                  var v := val.scalar(k, if k in t.scalars then t.scalars[k] else Null);
                  r.scalars[k] == ScalarField(if v.Some? then v.value else Null, 0.99, None))
            && r.lists.Keys == {"accessorials"}
            && MockCharges(val, if "accessorials" in t.lists then t.lists["accessorials"] else [],
                           r.lists["accessorials"])
  {
  }

  /** The items are the charges under their own names, with what the schema makes of their amounts. */
  predicate MockCharges(val: Validator, cs: seq<Charge>, items: seq<Item>) {
    |items| == |cs| && forall k :: 0 <= k < |cs| ==>
      && items[k].name == cs[k].name && items[k].confidence == 0.99
      && items[k].amount == (match val.amount(cs[k].amount) case None => Null case Some(v) => v)
  }

  /** A mock document the schema rejects is a failed extraction. */
  function AsMockExtraction(val: Validator, fields: seq<FieldSpec>, name: string, t: DocTruth): Extraction {
    if Accepted(val, t, fields) then MockData(val, name, t)
    else Extraction(name, "FAILED", "mock validation", map[], map[])
  }

  function MockOf(val: Validator, fields: seq<FieldSpec>, truth: map<string, DocTruth>): string -> seq<Extraction> {
    (name: string) => if name in truth then [AsMockExtraction(val, fields, name, truth[name])] else []
  }

  /** Mock results for the listed documents, skipping names the truth does not have. */
  function RunMock(val: Validator, fields: seq<FieldSpec>, truth: map<string, DocTruth>, names: seq<string>)
    : seq<Extraction>
  {
    FlatMap(MockOf(val, fields, truth), names)
  }

  /** The configured fields are ones the mock supplies. */
  predicate Supplied(fields: seq<FieldSpec>) {
    forall spec :: spec in fields ==>
      if spec.fieldType == ListType then spec.name == "accessorials" else spec.name in MOCK_SCALARS
  }

  /** A coerced value reads as the given one did: the same number for a numeric field, the same text
      otherwise, and present exactly when it was. */
  predicate SameReading(fieldType: FieldType, v: Value, w: Value) {
    && Present(w) == Present(v)
    && if fieldType in {DecimalType, IntegerType} then ParseNumber(w) == ParseNumber(v) else w == v
  }

  /** Coercion does not change how the document's own value of a field reads. */
  predicate FieldFaithful(val: Validator, t: DocTruth, spec: FieldSpec) {
    if spec.fieldType == ListType then
      forall c :: c in Find(t.lists, spec.name, []) && val.amount(c.amount).Some? ==>
        ParseNumber(val.amount(c.amount).value) == ParseNumber(c.amount)
    else
      var v := Find(t.scalars, spec.name, Null);
      val.scalar(spec.name, v).Some? ==> SameReading(spec.fieldType, v, val.scalar(spec.name, v).value)
  }

  predicate Faithful(val: Validator, t: DocTruth, fields: seq<FieldSpec>) {
    forall spec :: spec in fields ==> FieldFaithful(val, t, spec)
  }

  /** Coercion does not change how the values of the listed documents read. */
  predicate TruthFaithful(val: Validator, truth: map<string, DocTruth>, names: seq<string>, fields: seq<FieldSpec>) {
    forall k :: 0 <= k < |names| && names[k] in truth ==> Faithful(val, truth[names[k]], fields)
  }

  /** Every present numeric value, and every charge's amount, can be read as a number. */
  predicate Readable(t: DocTruth, spec: FieldSpec) {
    if spec.fieldType == ListType then
      forall c :: c in Find(t.lists, spec.name, []) ==> ParseNumber(c.amount).Some?
    else if spec.fieldType in {DecimalType, IntegerType} then
      Present(Find(t.scalars, spec.name, Null)) ==> ParseNumber(Find(t.scalars, spec.name, Null)).Some?
    else true
  }

  predicate AllReadable(t: DocTruth, fields: seq<FieldSpec>) {
    forall spec :: spec in fields ==> Readable(t, spec)
  }

  /** The schema accepts the document's true values, and they can be read. */
  predicate Sound(val: Validator, t: DocTruth, fields: seq<FieldSpec>) {
    Accepted(val, t, fields) && AllReadable(t, fields)
  }

  // ------------------------------------------------------------------ charges against themselves

  lemma OwnNameMatches(o: Oracle, name: string)
    ensures StringMatch(o, name, Norm(name)) == Exact
  {
    NormIdempotent(name);
    assert Norm(name) == Norm(Norm(name));
  }

  /** Each item carries its charge's name and reads as its charge's amount. */
  predicate OwnItems(cs: seq<Charge>, items: seq<Item>) {
    |items| == |cs| && forall k :: 0 <= k < |cs| ==>
      items[k].name == cs[k].name && ParseNumber(items[k].amount) == ParseNumber(cs[k].amount)
  }

  lemma OwnItemCompatible(o: Oracle, c: Charge, e: Item)
    requires e.name == c.name && ParseNumber(e.amount) == ParseNumber(c.amount)
    ensures Compatible(o)(c, e) <==> ParseNumber(c.amount).Some?
  {
    OwnNameMatches(o, c.name);
    assert Close(ParseNumber(c.amount), ParseNumber(e.amount)) <==> ParseNumber(c.amount).Some?;
  }

  /** Even where names are near-matches of one another, each charge takes its own item, because the
      items come in the same order and its own is the first one left. */
  lemma {:induction false} OwnItemsPairUp(c: (Charge, Item) -> bool, cs: seq<Charge>, items: seq<Item>)
    requires |items| == |cs| && forall k :: 0 <= k < |cs| ==> c(cs[k], items[k])
    ensures Perfect(Greedy(c, cs, items))
  {
    if cs != [] {
      assert FirstHit(c, cs[0], items) == 0;
      assert Without(items, 0) == items[1..];
      OwnItemsPairUp(c, cs[1..], items[1..]);
    }
  }

  /** A charge list scored against its own items is CORRECT exactly when every charge's amount can be
      read. */
  lemma OwnChargesCorrect(o: Oracle, name: string, cs: seq<Charge>, items: seq<Item>)
    requires OwnItems(cs, items)
    ensures AccessorialScore(o, name, items, cs).0.outcome == Correct <==>
              forall c :: c in cs ==> ParseNumber(c.amount).Some?
  {
    AccessorialVerdict(o, name, items, cs);
    if forall c :: c in cs ==> ParseNumber(c.amount).Some? {
      forall k | 0 <= k < |cs| ensures Compatible(o)(cs[k], items[k]) {
        OwnItemCompatible(o, cs[k], items[k]);
      }
      OwnItemsPairUp(Compatible(o), cs, items);
    }
    if Perfect(Greedy(Compatible(o), cs, items)) {
      forall c | c in cs ensures ParseNumber(c.amount).Some? {
        PairedIfPerfect(Compatible(o), cs, items, c);
        var e :| Compatible(o)(c, e);
      }
    }
  }

  /** The mock's charge list, once accepted, scores CORRECT exactly when every amount can be read. */
  lemma MockChargesCorrect(o: Oracle, val: Validator, name: string, cs: seq<Charge>)
    requires forall c :: c in cs ==>
               val.amount(c.amount).Some? && ParseNumber(val.amount(c.amount).value) == ParseNumber(c.amount)
    ensures AccessorialScore(o, name, AsItems(val, cs), cs).0.outcome == Correct <==>
              forall c :: c in cs ==> ParseNumber(c.amount).Some?
  {
    assert forall k :: 0 <= k < |cs| ==> cs[k] in cs;
    OwnChargesCorrect(o, name, cs, AsItems(val, cs));
  }

  lemma {:induction false} PairedIfPerfect<T, E(!new)>(c: (T, E) -> bool, ts: seq<T>, es: seq<E>, t: T)
    requires Perfect(Greedy(c, ts, es)) && t in ts
    ensures exists e :: c(t, e)
  {
    var j := FirstHit(c, ts[0], es);
    assert j < |es|;
    if t == ts[0] {
      assert c(t, es[j]);
    } else {
      PairedIfPerfect(c, ts[1..], Without(es, j), t);
    }
  }

  // ------------------------------------------------------------------ scalars against themselves

  lemma MockScalarCorrect(o: Oracle, val: Validator, name: string, t: DocTruth, spec: FieldSpec)
    requires FieldFaithful(val, t, spec) && FieldAccepted(val, t, spec)
    requires spec.fieldType != ListType && spec.name in MOCK_SCALARS
    ensures var fs := PlainScore(o, t, MockData(val, name, t), spec);
            fs.confidence == MOCK_CONFIDENCE && (fs.outcome == Correct <==> Readable(t, spec))
  {
    var v := Find(t.scalars, spec.name, Null);
    assert SameReading(spec.fieldType, v, val.scalar(spec.name, v).value);
  }

  /** One field of an accepted mock document: scored CORRECT exactly when it is readable, and then it
      adds only right predictions and no overconfidence. */
  lemma MockField(o: Oracle, val: Validator, fields: seq<FieldSpec>, name: string, t: DocTruth, spec: FieldSpec)
    requires Supplied(fields) && FieldFaithful(val, t, spec) && spec in fields && FieldAccepted(val, t, spec)
    ensures var r := MockData(val, name, t);
            && (SpecScore(o, t, r)(spec)[0].outcome == Correct <==> Readable(t, spec))
            && (Readable(t, spec) ==>
                  SpecOverconfidence(o, t, r)(spec) == [] &&
                  Count(Conservation.IsHighWrong, SpecPredictions(o, t, r)(spec)) == 0)
  {
    if spec.fieldType == ListType {
      MockList(o, val, name, t, spec);
    } else {
      MockScalarCorrect(o, val, name, t, spec);
    }
  }

  lemma MockList(o: Oracle, val: Validator, name: string, t: DocTruth, spec: FieldSpec)
    requires FieldFaithful(val, t, spec) && FieldAccepted(val, t, spec)
    requires spec.fieldType == ListType && spec.name == "accessorials"
    ensures var r := MockData(val, name, t);
            && (SpecScore(o, t, r)(spec)[0].outcome == Correct <==> Readable(t, spec))
            && (Readable(t, spec) ==>
                  SpecOverconfidence(o, t, r)(spec) == [] &&
                  Count(Conservation.IsHighWrong, SpecPredictions(o, t, r)(spec)) == 0)
  {
    var cs := Find(t.lists, "accessorials", []);
    var items := AsItems(val, cs);
    MockChargesCorrect(o, val, name, cs);
    AccessorialVerdict(o, name, items, cs);
    if Readable(t, spec) {
      GreedyLeavesNoPair(Compatible(o), cs, items);
      AllRightNoneWrong(AccessorialScore(o, name, items, cs).1);
    }
  }

  lemma {:induction false} AllRightNoneWrong(ps: seq<Prediction>)
    requires Count((p: Prediction) => p.correct, ps) == |ps|
    ensures Count(Conservation.IsHighWrong, ps) == 0
  {
    if ps != [] {
      AllRightNoneWrong(ps[1..]);
    }
  }

  // ------------------------------------------------------------------ the whole self-test

  /** Every field's score is among the document's, and nothing else is. */
  lemma ScoresOfSpecs(o: Oracle, t: DocTruth, r: Extraction, fields: seq<FieldSpec>)
    ensures AllCorrect(FlatMap(SpecScore(o, t, r), fields)) <==>
              forall spec :: spec in fields ==> SpecScore(o, t, r)(spec)[0].outcome == Correct
  {
    var scores := FlatMap(SpecScore(o, t, r), fields);
    forall spec | spec in fields ensures SpecScore(o, t, r)(spec)[0] in scores {
      var i :| 0 <= i < |fields| && fields[i] == spec;
      InFlatMap(SpecScore(o, t, r), fields, SpecScore(o, t, r)(spec)[0]);
    }
    forall s | s in scores ensures exists spec :: spec in fields && s == SpecScore(o, t, r)(spec)[0] {
      InFlatMap(SpecScore(o, t, r), fields, s);
      var i :| 0 <= i < |fields| && s in SpecScore(o, t, r)(fields[i]);
      assert fields[i] in fields;
    }
  }

  /** One mock document: every field is CORRECT exactly when the schema accepts the true values and
      they can be read. */
  lemma MockDocument(o: Oracle, val: Validator, name: string, t: DocTruth, fields: seq<FieldSpec>)
    requires Supplied(fields) && Faithful(val, t, fields)
    ensures AllCorrect(FlatMap(SpecScore(o, t, AsMockExtraction(val, fields, name, t)), fields)) <==>
              Sound(val, t, fields)
  {
    var r := AsMockExtraction(val, fields, name, t);
    ScoresOfSpecs(o, t, r, fields);
    if Accepted(val, t, fields) {
      forall spec | spec in fields ensures SpecScore(o, t, r)(spec)[0].outcome == Correct <==> Readable(t, spec) {
        MockField(o, val, fields, name, t, spec);
      }
    } else {
      var spec :| spec in fields && !FieldAccepted(val, t, spec);
      assert SpecScore(o, t, r)(spec)[0].outcome == Missing;
    }
  }

  lemma MockDocumentQuiet(o: Oracle, val: Validator, name: string, t: DocTruth, fields: seq<FieldSpec>)
    requires Supplied(fields) && Faithful(val, t, fields) && Sound(val, t, fields)
    ensures var r := AsMockExtraction(val, fields, name, t);
            && FlatMap(SpecOverconfidence(o, t, r), fields) == []
            && Count(Conservation.IsHighWrong, FlatMap(SpecPredictions(o, t, r), fields)) == 0
  {
    forall spec | spec in fields
      ensures SpecOverconfidence(o, t, MockData(val, name, t))(spec) == []
      ensures Count(Conservation.IsHighWrong, SpecPredictions(o, t, MockData(val, name, t))(spec)) == 0
    {
      MockField(o, val, fields, name, t, spec);
    }
    QuietFields(o, t, MockData(val, name, t), fields);
  }

  lemma {:induction false} QuietFields(o: Oracle, t: DocTruth, r: Extraction, fields: seq<FieldSpec>)
    requires forall spec :: spec in fields ==>
               SpecOverconfidence(o, t, r)(spec) == [] &&
               Count(Conservation.IsHighWrong, SpecPredictions(o, t, r)(spec)) == 0
    ensures FlatMap(SpecOverconfidence(o, t, r), fields) == []
    ensures Count(Conservation.IsHighWrong, FlatMap(SpecPredictions(o, t, r), fields)) == 0
  {
    if fields != [] {
      QuietFields(o, t, r, fields[1..]);
      CountAppend(Conservation.IsHighWrong, SpecPredictions(o, t, r)(fields[0]),
                  FlatMap(SpecPredictions(o, t, r), fields[1..]));
    }
  }

  /** Every listed document the truth knows is accepted and readable. */
  predicate TruthSound(val: Validator, truth: map<string, DocTruth>, names: seq<string>, fields: seq<FieldSpec>) {
    forall k :: 0 <= k < |names| && names[k] in truth ==> Sound(val, truth[names[k]], fields)
  }

  ghost predicate AllCorrect(scores: seq<FieldScore>) {
    forall s :: s in scores ==> s.outcome == Correct
  }

  lemma AllCorrectAppend(a: seq<FieldScore>, b: seq<FieldScore>)
    ensures AllCorrect(a + b) <==> AllCorrect(a) && AllCorrect(b)
  {
    forall s | s in a || s in b ensures s in a + b {
    }
    assert forall s :: s in a + b ==> s in a || s in b;
  }

  lemma MockNameCorrect(o: Oracle, val: Validator, truth: map<string, DocTruth>, name: string, fields: seq<FieldSpec>)
    requires Supplied(fields) && (name in truth ==> Faithful(val, truth[name], fields))
    ensures AllCorrect(FlatMap(DocScores(o, truth, fields), MockOf(val, fields, truth)(name)))
        <==> (name in truth ==> Sound(val, truth[name], fields))
  {
    if name in truth {
      var r, d := AsMockExtraction(val, fields, name, truth[name]), DocScores(o, truth, fields);
      FlatMapOne(d, r);
      assert MockOf(val, fields, truth)(name) == [r];
      MockDocument(o, val, name, truth[name], fields);
    }
  }

  lemma TruthFaithfulStep(val: Validator, truth: map<string, DocTruth>, names: seq<string>, fields: seq<FieldSpec>)
    requires names != [] && TruthFaithful(val, truth, names, fields)
    ensures names[0] in truth ==> Faithful(val, truth[names[0]], fields)
    ensures TruthFaithful(val, truth, names[1..], fields)
  {
    assert forall k :: 1 <= k < |names| ==> names[k] == names[1..][k - 1];
  }

  lemma TruthSoundStep(val: Validator, truth: map<string, DocTruth>, names: seq<string>, fields: seq<FieldSpec>)
    requires names != []
    ensures TruthSound(val, truth, names, fields) <==>
              (names[0] in truth ==> Sound(val, truth[names[0]], fields)) && TruthSound(val, truth, names[1..], fields)
  {
    assert forall k :: 1 <= k < |names| ==> names[k] == names[1..][k - 1];
  }

  lemma {:induction false} MockRunCorrect(o: Oracle, val: Validator, truth: map<string, DocTruth>, names: seq<string>,
                                          fields: seq<FieldSpec>)
    requires Supplied(fields) && TruthFaithful(val, truth, names, fields)
    ensures AllCorrect(FlatMap(DocScores(o, truth, fields), RunMock(val, fields, truth, names)))
        <==> TruthSound(val, truth, names, fields)
  {
    if names != [] {
      var d, rest := DocScores(o, truth, fields), RunMock(val, fields, truth, names[1..]);
      var first := MockOf(val, fields, truth)(names[0]);
      TruthFaithfulStep(val, truth, names, fields);
      MockRunCorrect(o, val, truth, names[1..], fields);
      MockNameCorrect(o, val, truth, names[0], fields);
      FlatMapAppend(d, first, rest);
      AllCorrectAppend(FlatMap(d, first), FlatMap(d, rest));
      TruthSoundStep(val, truth, names, fields);
    }
  }

  /** Scoring the truth against itself is perfect in every field exactly when, for every listed document,
      the schema accepts the true values and they can be read. */
  lemma MockIsPerfect(o: Oracle, val: Validator, truth: map<string, DocTruth>, names: seq<string>,
                      fields: seq<FieldSpec>)
    requires Supplied(fields) && TruthFaithful(val, truth, names, fields)
    ensures AllCorrect(TallyOf(o, RunMock(val, fields, truth, names), truth, fields).fieldScores) <==>
              TruthSound(val, truth, names, fields)
  {
    MockRunCorrect(o, val, truth, names, fields);
  }

  lemma MockNameQuiet(o: Oracle, val: Validator, truth: map<string, DocTruth>, name: string, fields: seq<FieldSpec>)
    requires Supplied(fields)
    requires name in truth ==> Faithful(val, truth[name], fields) && Sound(val, truth[name], fields)
    ensures FlatMap(DocOverconfidence(o, truth, fields), MockOf(val, fields, truth)(name)) == []
    ensures Count(Conservation.IsHighWrong,
                  FlatMap(DocPredictions(o, truth, fields), MockOf(val, fields, truth)(name))) == 0
  {
    if name in truth {
      var r := AsMockExtraction(val, fields, name, truth[name]);
      var p, v := DocPredictions(o, truth, fields), DocOverconfidence(o, truth, fields);
      FlatMapOne(p, r);
      FlatMapOne(v, r);
      assert MockOf(val, fields, truth)(name) == [r];
      MockDocumentQuiet(o, val, name, truth[name], fields);
    }
  }

  lemma {:induction false} MockRunQuiet(o: Oracle, val: Validator, truth: map<string, DocTruth>, names: seq<string>,
                                        fields: seq<FieldSpec>)
    requires Supplied(fields) && TruthFaithful(val, truth, names, fields) && TruthSound(val, truth, names, fields)
    ensures FlatMap(DocOverconfidence(o, truth, fields), RunMock(val, fields, truth, names)) == []
    ensures Count(Conservation.IsHighWrong,
                  FlatMap(DocPredictions(o, truth, fields), RunMock(val, fields, truth, names))) == 0
  {
    if names != [] {
      var p, v := DocPredictions(o, truth, fields), DocOverconfidence(o, truth, fields);
      var first, rest := MockOf(val, fields, truth)(names[0]), RunMock(val, fields, truth, names[1..]);
      TruthFaithfulStep(val, truth, names, fields);
      TruthSoundStep(val, truth, names, fields);
      MockNameQuiet(o, val, truth, names[0], fields);
      MockRunQuiet(o, val, truth, names[1..], fields);
      FlatMapAppend(p, first, rest);
      FlatMapAppend(v, first, rest);
      CountAppend(Conservation.IsHighWrong, FlatMap(p, first), FlatMap(p, rest));
    }
  }

  /** A configured scalar field is scored in every document of the run. */
  lemma FieldIsScored(o: Oracle, val: Validator, truth: map<string, DocTruth>, names: seq<string>,
                      fields: seq<FieldSpec>, spec: FieldSpec, k: nat)
    requires spec in fields && spec.fieldType != ListType && k < |names| && names[k] in truth
    ensures Count(OfField(spec.name), FlatMap(DocScores(o, truth, fields), RunMock(val, fields, truth, names))) > 0
  {
    var d, results := DocScores(o, truth, fields), RunMock(val, fields, truth, names);
    var t := truth[names[k]];
    var r := AsMockExtraction(val, fields, names[k], t);
    var s := SpecScore(o, t, r)(spec)[0];
    InFlatMap(MockOf(val, fields, truth), names, r);
    assert r in MockOf(val, fields, truth)(names[k]);
    var i :| 0 <= i < |results| && results[i] == r;
    var j :| 0 <= j < |fields| && fields[j] == spec;
    InFlatMap(SpecScore(o, t, r), fields, s);
    assert s in SpecScore(o, t, r)(fields[j]);
    InFlatMap(d, results, s);
    assert s in d(results[i]);
    CountZero(OfField(spec.name), FlatMap(d, results));
  }

  lemma PerfectAccuracy(correct: nat, total: nat)
    requires correct == total > 0
    ensures Accuracy(correct, total) == 1.0
  {
  }

  /** When every score is correct, each field that is scored at all has accuracy one. */
  lemma AllCorrectStats(f: string, scores: seq<FieldScore>)
    requires forall s :: s in scores ==> s.outcome == Correct
    ensures StatOf(f, scores).correct == StatOf(f, scores).total
    ensures Count(IsCorrect, scores) == |scores|
  {
    CountImplies(OfField(f), Scored(f, {Correct}), scores);
    CountImplies(Scored(f, {Correct}), OfField(f), scores);
    CountAll(IsCorrect, scores);
  }

  lemma PerfectTallyPasses(t: Tally)
    requires t.overconfidence == [] && t.highConfidence.correct == t.highConfidence.n
    requires t.overallCorrect == t.fieldsEvaluated > 0
    requires exists f :: f in REQUIRED_FIELDS && f in t.fieldStats
    requires forall f :: f in REQUIRED_FIELDS && f in t.fieldStats ==>
               t.fieldStats[f].correct == t.fieldStats[f].total > 0
    ensures ProductionReady(t)
  {
    var f :| f in REQUIRED_FIELDS && f in t.fieldStats;
    assert f in RequiredFieldPass(t);
    forall f | f in RequiredFieldPass(t) ensures RequiredFieldPass(t)[f] {
      PerfectAccuracy(t.fieldStats[f].correct, t.fieldStats[f].total);
    }
    PerfectAccuracy(t.overallCorrect, t.fieldsEvaluated);
    if t.highConfidence.n > 0 {
      PerfectAccuracy(t.highConfidence.correct, t.highConfidence.n);
    }
  }

  lemma MockConfidence(o: Oracle, val: Validator, truth: map<string, DocTruth>, names: seq<string>,
                       fields: seq<FieldSpec>)
    requires Supplied(fields) && TruthFaithful(val, truth, names, fields) && TruthSound(val, truth, names, fields)
    ensures var t := TallyOf(o, RunMock(val, fields, truth, names), truth, fields);
            t.overconfidence == [] && t.highConfidence.correct == t.highConfidence.n
  {
    MockRunQuiet(o, val, truth, names, fields);
    CountSplit(IsHigh, IsHighRight, Conservation.IsHighWrong,
               FlatMap(DocPredictions(o, truth, fields), RunMock(val, fields, truth, names)));
  }

  lemma MockAccuracy(o: Oracle, val: Validator, truth: map<string, DocTruth>, names: seq<string>,
                     fields: seq<FieldSpec>, spec: FieldSpec, k: nat)
    requires Supplied(fields) && TruthFaithful(val, truth, names, fields) && TruthSound(val, truth, names, fields)
    requires k < |names| && names[k] in truth && spec in fields && spec.name in REQUIRED_FIELDS
    ensures var t := TallyOf(o, RunMock(val, fields, truth, names), truth, fields);
            && t.fieldStats[spec.name].correct == t.fieldStats[spec.name].total > 0
            && t.overallCorrect == t.fieldsEvaluated > 0
  {
    MockIsPerfect(o, val, truth, names, fields);
    FieldIsScored(o, val, truth, names, fields, spec, k);
    AllCorrectStats(spec.name, FlatMap(DocScores(o, truth, fields), RunMock(val, fields, truth, names)));
  }

  /** Scoring sound truth against itself passes the gate with no overconfidence, as long as some
      listed document is in the truth and some required field is configured. */
  lemma MockPassesGate(o: Oracle, val: Validator, truth: map<string, DocTruth>, names: seq<string>,
                       fields: seq<FieldSpec>)
    requires Supplied(fields) && TruthFaithful(val, truth, names, fields) && TruthSound(val, truth, names, fields)
    requires exists k :: 0 <= k < |names| && names[k] in truth
    requires exists spec :: spec in fields && spec.name in REQUIRED_FIELDS
    ensures var t := TallyOf(o, RunMock(val, fields, truth, names), truth, fields);
            ProductionReady(t) && t.overconfidence == []
  {
    var t := TallyOf(o, RunMock(val, fields, truth, names), truth, fields);
    var k :| 0 <= k < |names| && names[k] in truth;
    MockConfidence(o, val, truth, names, fields);
    forall spec | spec in fields && spec.name in REQUIRED_FIELDS
      ensures t.fieldStats[spec.name].correct == t.fieldStats[spec.name].total > 0
      ensures t.overallCorrect == t.fieldsEvaluated > 0
    {
      MockAccuracy(o, val, truth, names, fields, spec, k);
    }
    PerfectTallyPasses(t);
  }

  // ------------------------------------------------------------------ a value read in two ways

  /** The assumption is needed: the schema takes "1e3" for 1000, the number parser for 13. */
  lemma ReadTwoWays(o: Oracle, val: Validator, name: string)
    requires val.scalar("total_amount", Text("1e3")) == Some(Num(1000.0, "1000.0"))
    ensures var t := DocTruth(map["total_amount" := Text("1e3")], map[]);
            var spec := FieldSpec("total_amount", DecimalType);
            && FieldAccepted(val, t, spec) && Readable(t, spec)
            && PlainScore(o, t, MockData(val, name, t), spec).outcome == Incorrect
  {
    ThousandReadAsThirteen();
    assert Present(Text("1e3")) by {
      StripTrims("1e3");
    }
  }

  lemma ThousandReadAsThirteen()
    ensures ParseNumber(Text("1e3")) == Some(13.0)
  {
    var s := "1e3";
    assert s[0] == '1' && s[1] == 'e' && s[2] == '3' && s == ['1'] + (['e'] + ['3']);
    KeepNumericAppend(['1'], ['e'] + ['3']);
    KeepNumericAppend(['e'], ['3']);
    KeepNumericKeeps(['1']);
    KeepNumericKeeps(['3']);
    assert KeepNumeric(['e']) == "";
    ThirteenRead();
  }

  lemma ThirteenRead()
    ensures ParseFloat(['1'] + ['3']) == Some(13.0)
  {
    ValueSnoc("", '1');
    ValueSnoc(['1'], '3');
    assert "" + ['1'] == ['1'];
    assert forall k: nat :: !HasAt(['1'] + ['3'], ".", k) by {
      forall k: nat | HasAt(['1'] + ['3'], ".", k) ensures false {
        OccurrenceStarts(['1'] + ['3'], ".", k);
      }
    }
  }
}
