/** Running the scorer over a set of documents and tallying what it says. */
module Evaluation {
  import opened Prelude
  import opened Scoring

  datatype FieldSpec = FieldSpec(name: string, fieldType: FieldType)

  /** One document's extraction: scalar fields and charge lists by field name. */
  datatype Extraction = Extraction(filename: string, status: string, error: string,
                                   scalars: map<string, ScalarField>, lists: map<string, seq<Item>>)
  {
    predicate Ok() { status == "OK" }
  }

  datatype DocTruth = DocTruth(scalars: map<string, Value>, lists: map<string, seq<Charge>>)

  datatype FieldStat = FieldStat(correct: nat, wrong: nat, missing: nat, total: nat, confSum: real, confN: nat)
  datatype Bucket = Bucket(title: string, lo: real, hi: real, n: nat, correct: nat)
  datatype ConfidenceStat = ConfidenceStat(n: nat, correct: nat)
  datatype Overconfident =
    Overconfident(filename: string, field: string, confidence: real, extracted: Content, truth: Content)
  datatype DocResult =
    DocResult(filename: string, status: string, correct: nat, total: nat, failures: seq<(string, Category)>)

  const HIGH_CONF: real := 0.85

  // ------------------------------------------------------------------ scoring one document

  function TruthOf(truth: map<string, DocTruth>, r: Extraction): DocTruth {
    if r.filename in truth then truth[r.filename] else DocTruth(map[], map[])
  }

  function Find<T>(m: map<string, T>, key: string, default: T): T {
    if key in m then m[key] else default
  }

  function TrueContent(t: DocTruth, spec: FieldSpec): Content {
    if spec.fieldType == ListType then Charges(Find(t.lists, spec.name, []))
    else Scalar(Find(t.scalars, spec.name, Null))
  }

  function FailedScore(t: DocTruth, r: Extraction, spec: FieldSpec): FieldScore {
    FieldScore(r.filename, spec.name, Missing, 0.0, TrueContent(t, spec), Scalar(Null),
               Some(ModelError), Some("extraction failed"), false)
  }

  function ListScore(o: Oracle, t: DocTruth, r: Extraction, spec: FieldSpec): (FieldScore, seq<Prediction>) {
    AccessorialScore(o, r.filename, Find(r.lists, spec.name, []), Find(t.lists, spec.name, []))
  }

  function PlainScore(o: Oracle, t: DocTruth, r: Extraction, spec: FieldSpec): FieldScore {
    ScoreScalar(o, r.filename, spec.fieldType, spec.name, Find(r.scalars, spec.name, ABSENT),
                Find(t.scalars, spec.name, Null))
  }

  function SpecScore(o: Oracle, t: DocTruth, r: Extraction): FieldSpec -> seq<FieldScore> {
    (spec: FieldSpec) =>
      [if !r.Ok() then FailedScore(t, r, spec)
       else if spec.fieldType == ListType then ListScore(o, t, r, spec).0
       else PlainScore(o, t, r, spec)]
  }

  function ScalarPrediction(fs: FieldScore): seq<Prediction> {
    if fs.asserted then [Prediction(fs.confidence, fs.outcome == Correct)] else []
  }

  function ScalarOverconfidence(fs: FieldScore): seq<Overconfident> {
    if fs.asserted && fs.confidence >= HIGH_CONF && fs.outcome != Correct
    then [Overconfident(fs.filename, fs.field, fs.confidence, fs.extracted, fs.truth)]
    else []
  }

  /** The predictions a field contributes to calibration: one per extracted charge, or one for an
      asserted scalar. */
  function SpecPredictions(o: Oracle, t: DocTruth, r: Extraction): FieldSpec -> seq<Prediction> {
    (spec: FieldSpec) =>
      if !r.Ok() then []
      else if spec.fieldType == ListType then ListScore(o, t, r, spec).1
      else ScalarPrediction(PlainScore(o, t, r, spec))
  }

  function SpecOverconfidence(o: Oracle, t: DocTruth, r: Extraction): FieldSpec -> seq<Overconfident> {
    (spec: FieldSpec) =>
      if !r.Ok() || spec.fieldType == ListType then []
      else ScalarOverconfidence(PlainScore(o, t, r, spec))
  }

  function ScoresOf(o: Oracle, truth: map<string, DocTruth>, fields: seq<FieldSpec>, r: Extraction): seq<FieldScore> {
    FlatMap(SpecScore(o, TruthOf(truth, r), r), fields)
  }

  function PredictionsOf(o: Oracle, truth: map<string, DocTruth>, fields: seq<FieldSpec>, r: Extraction)
    : seq<Prediction>
  {
    FlatMap(SpecPredictions(o, TruthOf(truth, r), r), fields)
  }

  function OverconfidenceOf(o: Oracle, truth: map<string, DocTruth>, fields: seq<FieldSpec>, r: Extraction)
    : seq<Overconfident>
  {
    FlatMap(SpecOverconfidence(o, TruthOf(truth, r), r), fields)
  }

  function DocScores(o: Oracle, truth: map<string, DocTruth>, fields: seq<FieldSpec>): Extraction -> seq<FieldScore> {
    (r: Extraction) => ScoresOf(o, truth, fields, r)
  }

  function DocPredictions(o: Oracle, truth: map<string, DocTruth>, fields: seq<FieldSpec>)
    : Extraction -> seq<Prediction>
  {
    (r: Extraction) => PredictionsOf(o, truth, fields, r)
  }

  function DocOverconfidence(o: Oracle, truth: map<string, DocTruth>, fields: seq<FieldSpec>)
    : Extraction -> seq<Overconfident>
  {
    (r: Extraction) => OverconfidenceOf(o, truth, fields, r)
  }

  predicate IsCorrect(s: FieldScore) {
    s.outcome == Correct
  }

  function FailureNote(s: FieldScore): seq<(string, Category)> {
    if s.category.Some? then [(s.field, s.category.value)] else []
  }

  function SummaryOf(r: Extraction, scores: seq<FieldScore>): DocResult {
    DocResult(r.filename, r.status, Count(IsCorrect, scores), |scores|, FlatMap(FailureNote, scores))
  }

  function DocSummary(o: Oracle, truth: map<string, DocTruth>, fields: seq<FieldSpec>): Extraction -> seq<DocResult> {
    (r: Extraction) => [SummaryOf(r, ScoresOf(o, truth, fields, r))]
  }

  function FailureLine(r: Extraction): seq<string> {
    if r.Ok() then [] else [r.filename + ": " + r.error]
  }

  // ------------------------------------------------------------------ what the tallies count

  function OfField(f: string): FieldScore -> bool {
    (s: FieldScore) => s.field == f
  }

  function Scored(f: string, outcomes: set<Outcome>): FieldScore -> bool {
    (s: FieldScore) => s.field == f && s.outcome in outcomes
  }

  function AssertedOf(f: string): FieldScore -> bool {
    (s: FieldScore) => s.field == f && s.asserted
  }

  function ConfidenceOf(f: string): FieldScore -> real {
    (s: FieldScore) => if s.field == f && s.asserted then s.confidence else 0.0
  }

  function StatOf(f: string, scores: seq<FieldScore>): FieldStat {
    FieldStat(Count(Scored(f, {Correct}), scores), Count(Scored(f, {Incorrect, Extra}), scores),
              Count(Scored(f, {Missing}), scores), Count(OfField(f), scores),
              Total(ConfidenceOf(f), scores), Count(AssertedOf(f), scores))
  }

  function Names(fields: seq<FieldSpec>): set<string> {
    set spec | spec in fields :: spec.name
  }

  function StatsOf(names: set<string>, scores: seq<FieldScore>): map<string, FieldStat> {
    map f | f in names :: StatOf(f, scores)
  }

  const BUCKET_COUNT: nat := 4
  const LABELS: seq<string> := ["0.90 - 1.00", "0.70 - 0.89", "0.50 - 0.69", "0.00 - 0.49"]
  const LOWS: seq<real> := [0.90, 0.70, 0.50, 0.0]
  const HIGHS: seq<real> := [1.01, 0.90, 0.70, 0.50]

  /** The first bucket whose range holds the confidence, or else the last one. */
  function BucketOf(confidence: real): (i: nat)
    ensures i < BUCKET_COUNT
  {
    if LOWS[0] <= confidence < HIGHS[0] then 0
    else if LOWS[1] <= confidence < HIGHS[1] then 1
    else if LOWS[2] <= confidence < HIGHS[2] then 2
    else 3
  }

  function InBucket(i: nat): Prediction -> bool {
    (p: Prediction) => BucketOf(p.confidence) == i
  }

  function RightInBucket(i: nat): Prediction -> bool {
    (p: Prediction) => BucketOf(p.confidence) == i && p.correct
  }

  function BucketsOf(predictions: seq<Prediction>): (b: seq<Bucket>)
    ensures |b| == BUCKET_COUNT
  {
    seq(BUCKET_COUNT, i requires 0 <= i < BUCKET_COUNT =>
      Bucket(LABELS[i], LOWS[i], HIGHS[i], Count(InBucket(i), predictions), Count(RightInBucket(i), predictions)))
  }

  predicate IsHigh(p: Prediction) {
    p.confidence >= HIGH_CONF
  }

  predicate IsHighRight(p: Prediction) {
    p.confidence >= HIGH_CONF && p.correct
  }

  function HighOf(predictions: seq<Prediction>): ConfidenceStat {
    ConfidenceStat(Count(IsHigh, predictions), Count(IsHighRight, predictions))
  }

  function Failing(c: Category, f: string): FieldScore -> bool {
    (s: FieldScore) => s.category == Some(c) && s.field == f
  }

  function CategoriesOf(scores: seq<FieldScore>): set<Category> {
    set s | s in scores && s.category.Some? :: s.category.value
  }

  function FieldsOf(c: Category, scores: seq<FieldScore>): set<string> {
    set s | s in scores && s.category == Some(c) :: s.field
  }

  function ModeOf(c: Category, scores: seq<FieldScore>): map<string, nat> {
    map f | f in FieldsOf(c, scores) :: Count(Failing(c, f), scores)
  }

  function ModesOf(scores: seq<FieldScore>): map<Category, map<string, nat>> {
    map c | c in CategoriesOf(scores) :: ModeOf(c, scores)
  }

  /** Everything a report holds. */
  datatype Tally = Tally(docsProcessed: nat, extractionFailures: seq<string>, fieldsEvaluated: nat,
                         overallCorrect: nat, fieldStats: map<string, FieldStat>, buckets: seq<Bucket>,
                         highConfidence: ConfidenceStat, overconfidence: seq<Overconfident>,
                         failureModes: map<Category, map<string, nat>>, docResults: seq<DocResult>,
                         fieldScores: seq<FieldScore>)

  /** The tally of the scores, predictions and records of all documents. */
  function Counted(names: set<string>, docs: nat, failures: seq<string>, scores: seq<FieldScore>,
                   predictions: seq<Prediction>, overconfidence: seq<Overconfident>, docResults: seq<DocResult>): Tally
  {
    Tally(docs, failures, |scores|, Count(IsCorrect, scores), StatsOf(names, scores), BucketsOf(predictions),
          HighOf(predictions), overconfidence, ModesOf(scores), docResults, scores)
  }

  /** What a run's report should hold: counts over what each document contributes on its own. */
  function TallyOf(o: Oracle, results: seq<Extraction>, truth: map<string, DocTruth>, fields: seq<FieldSpec>): Tally {
    Counted(Names(fields), |results|, FlatMap(FailureLine, results),
            FlatMap(DocScores(o, truth, fields), results), FlatMap(DocPredictions(o, truth, fields), results),
            FlatMap(DocOverconfidence(o, truth, fields), results), FlatMap(DocSummary(o, truth, fields), results))
  }

  // ------------------------------------------------------------------ the running report

  class EvalReport {
    const names: set<string>
    var docsProcessed: nat
    var extractionFailures: seq<string>
    var fieldsEvaluated: nat
    var overallCorrect: nat
    var fieldStats: map<string, FieldStat>
    var buckets: seq<Bucket>
    var highConfidence: ConfidenceStat
    var overconfidence: seq<Overconfident>
    var failureModes: map<Category, map<string, nat>>
    var docResults: seq<DocResult>
    var fieldScores: seq<FieldScore>
    ghost var predictions: seq<Prediction>

    /** The aggregates agree with the scores seen so far. */
    ghost predicate ScoresAgree()
      reads `fieldsEvaluated, `overallCorrect, `fieldStats, `fieldScores, `failureModes
    {
      && fieldsEvaluated == |fieldScores|
      && overallCorrect == Count(IsCorrect, fieldScores)
      && fieldStats == StatsOf(names, fieldScores)
      && failureModes == ModesOf(fieldScores)
    }

    /** The buckets and the high-confidence count agree with the predictions seen so far. */
    ghost predicate PredictionsAgree()
      reads `buckets, `highConfidence, `predictions
    {
      buckets == BucketsOf(predictions) && highConfidence == HighOf(predictions)
    }

    /** Every counter agrees with the scores and predictions seen so far. */
    ghost predicate Valid()
      reads `fieldsEvaluated, `overallCorrect, `fieldStats, `fieldScores
      reads `buckets, `highConfidence, `failureModes, `predictions
    {
      ScoresAgree() && PredictionsAgree()
    }

    function Snapshot(): Tally
      reads this
    {
      Tally(docsProcessed, extractionFailures, fieldsEvaluated, overallCorrect, fieldStats, buckets,
            highConfidence, overconfidence, failureModes, docResults, fieldScores)
    }

    constructor (fields: seq<FieldSpec>)
      ensures Valid() && names == Names(fields)
      ensures docsProcessed == 0 && extractionFailures == [] && overconfidence == [] && docResults == []
      ensures fieldScores == [] && predictions == []
    {
      names := Names(fields);
      docsProcessed, extractionFailures, fieldsEvaluated, overallCorrect := 0, [], 0, 0;
      fieldStats := map f | f in Names(fields) :: FieldStat(0, 0, 0, 0, 0.0, 0);
      buckets := [Bucket("0.90 - 1.00", 0.90, 1.01, 0, 0), Bucket("0.70 - 0.89", 0.70, 0.90, 0, 0),
                  Bucket("0.50 - 0.69", 0.50, 0.70, 0, 0), Bucket("0.00 - 0.49", 0.0, 0.50, 0, 0)];
      highConfidence := ConfidenceStat(0, 0);
      overconfidence, failureModes, docResults, fieldScores := [], map[], [], [];
      predictions := [];
    }

    /** One prediction goes to its bucket and, when confident enough, to the high-confidence count. */
    method Predict(p: Prediction)
      requires Valid()
      modifies this`buckets, this`highConfidence, this`predictions
      ensures Valid() && predictions == old(predictions) + [p]
    {
      BucketStep(predictions, p);
      HighStep(predictions, p);
      predictions := predictions + [p];
      var i := BucketOf(p.confidence);
      var b := buckets[i].(n := buckets[i].n + 1);
      if p.correct {
        b := b.(correct := b.correct + 1);
      }
      buckets := buckets[i := b];
      if p.confidence >= HIGH_CONF {
        highConfidence := highConfidence.(n := highConfidence.n + 1);
        if p.correct {
          highConfidence := highConfidence.(correct := highConfidence.correct + 1);
        }
      }
    }

    /** Folding one field score into the aggregates. */
    method Fold(fs: FieldScore)
      requires Valid() && fs.field in names
      modifies this`fieldScores, this`fieldsEvaluated, this`overallCorrect, this`fieldStats, this`failureModes
      ensures Valid() && fieldScores == old(fieldScores) + [fs]
    {
      FoldScore(fs);
    }

    method FoldScore(fs: FieldScore)
      requires ScoresAgree() && fs.field in names
      modifies this`fieldScores, this`fieldsEvaluated, this`overallCorrect, this`fieldStats, this`failureModes
      ensures ScoresAgree() && fieldScores == old(fieldScores) + [fs]
    {
      FoldStep(names, fieldScores, fs);
      fieldScores := fieldScores + [fs];
      fieldsEvaluated := fieldsEvaluated + 1;
      UpdateStat(fs);
      CountFailure(fs);
    }

    method UpdateStat(fs: FieldScore)
      requires fs.field in fieldStats
      modifies this`fieldStats, this`overallCorrect
      ensures fieldStats == NextStats(old(fieldStats), fs)
      ensures overallCorrect == old(overallCorrect) + if fs.outcome == Correct then 1 else 0
    {
      var stat := fieldStats[fs.field];
      stat := stat.(total := stat.total + 1);
      if fs.outcome == Correct {
        stat := stat.(correct := stat.correct + 1);
        overallCorrect := overallCorrect + 1;
      } else if fs.outcome == Missing {
        stat := stat.(missing := stat.missing + 1);
      } else {
        stat := stat.(wrong := stat.wrong + 1);
      }
      if fs.asserted {
        stat := stat.(confSum := stat.confSum + fs.confidence, confN := stat.confN + 1);
      }
      fieldStats := fieldStats[fs.field := stat];
    }

    /** `failure_modes[category][field] += 1` on nested default dictionaries. */
    method CountFailure(fs: FieldScore)
      modifies this`failureModes
      ensures failureModes == NextModes(old(failureModes), fs)
    {
      if fs.category.Some? {
        var c, f := fs.category.value, fs.field;
        var row := if c in failureModes then failureModes[c] else map[];
        ghost var before := row;
        if f !in row {
          row := row[f := 0];
        }
        row := row[f := row[f] + 1];
        assert row == BumpRow(before, f);
        failureModes := failureModes[c := row];
      }
    }

    method PredictAll(ps: seq<Prediction>)
      requires Valid()
      modifies this`buckets, this`highConfidence, this`predictions
      ensures Valid() && predictions == old(predictions) + ps
    {
      for i := 0 to |ps|
        invariant Valid() && predictions == old(predictions) + ps[..i]
      {
        Predict(ps[i]);
      }
    }

    /** Scores one configured field of a successful extraction, recording its predictions. */
    method ScoreField(o: Oracle, t: DocTruth, r: Extraction, spec: FieldSpec) returns (fs: FieldScore)
      requires Valid() && r.Ok()
      modifies this`buckets, this`highConfidence, this`predictions, this`overconfidence
      ensures Valid() && [fs] == SpecScore(o, t, r)(spec)
      ensures predictions == old(predictions) + SpecPredictions(o, t, r)(spec)
      ensures overconfidence == old(overconfidence) + SpecOverconfidence(o, t, r)(spec)
    {
      if spec.fieldType == ListType {
        var ps;
        fs, ps := ScoreAccessorials(o, r.filename, Find(r.lists, spec.name, []), Find(t.lists, spec.name, []));
        PredictAll(ps);
      } else {
        fs := PlainScore(o, t, r, spec);
        RecordScalar(fs);
        assert fs.filename == r.filename;
      }
    }

    /** What a scored scalar adds: a prediction if a value was asserted, and an overconfidence entry
        if it was asserted confidently and wrongly. */
    method RecordScalar(fs: FieldScore)
      requires Valid()
      modifies this`buckets, this`highConfidence, this`predictions, this`overconfidence
      ensures Valid()
      ensures predictions == old(predictions) + ScalarPrediction(fs)
      ensures overconfidence == old(overconfidence) + ScalarOverconfidence(fs)
    {
      if fs.asserted {
        Predict(Prediction(fs.confidence, fs.outcome == Correct));
        if fs.confidence >= HIGH_CONF && fs.outcome != Correct {
          overconfidence := overconfidence +
            [Overconfident(fs.filename, fs.field, fs.confidence, fs.extracted, fs.truth)];
        }
      }
    }

    /** Scores every configured field of a successful extraction. */
    method ScoreFields(o: Oracle, t: DocTruth, r: Extraction, fields: seq<FieldSpec>)
      returns (docScores: seq<FieldScore>)
      requires Valid() && r.Ok()
      modifies this`buckets, this`highConfidence, this`predictions, this`overconfidence
      ensures Valid() && docScores == FlatMap(SpecScore(o, t, r), fields)
      ensures predictions == old(predictions) + FlatMap(SpecPredictions(o, t, r), fields)
      ensures overconfidence == old(overconfidence) + FlatMap(SpecOverconfidence(o, t, r), fields)
    {
      ghost var f, g, h := SpecScore(o, t, r), SpecPredictions(o, t, r), SpecOverconfidence(o, t, r);
      ghost var p0, v0 := predictions, overconfidence;
      docScores := [];
      for i := 0 to |fields|
        invariant Valid() && docScores == FlatMap(f, fields[..i])
        invariant predictions == p0 + FlatMap(g, fields[..i])
        invariant overconfidence == v0 + FlatMap(h, fields[..i])
      {
        ghost var p1, v1 := predictions, overconfidence;
        var fs := ScoreField(o, t, r, fields[i]);
        docScores := docScores + [fs];
        FlatMapStep(f, fields, i);
        FlatMapRunning(g, fields, i, p0, p1, predictions);
        FlatMapRunning(h, fields, i, v0, v1, overconfidence);
      }
      assert fields[..|fields|] == fields;
    }

    /** A failed extraction misses every configured field. */
    static method ScoreFailure(ghost o: Oracle, t: DocTruth, r: Extraction, fields: seq<FieldSpec>)
      returns (docScores: seq<FieldScore>)
      requires !r.Ok()
      ensures docScores == FlatMap(SpecScore(o, t, r), fields)
    {
      docScores := [];
      for i := 0 to |fields|
        invariant docScores == FlatMap(SpecScore(o, t, r), fields[..i])
      {
        FlatMapStep(SpecScore(o, t, r), fields, i);
        docScores := docScores + [FailedScore(t, r, fields[i])];
      }
      assert fields[..|fields|] == fields;
    }

    /** Folds a document's scores into the aggregates, counting the correct ones. */
    method FoldAll(docScores: seq<FieldScore>) returns (correct: nat)
      requires Valid() && forall s :: s in docScores ==> s.field in names
      modifies this`fieldScores, this`fieldsEvaluated, this`overallCorrect, this`fieldStats, this`failureModes
      ensures Valid() && fieldScores == old(fieldScores) + docScores
      ensures correct == Count(IsCorrect, docScores)
    {
      correct := 0;
      for i := 0 to |docScores|
        invariant Valid() && fieldScores == old(fieldScores) + docScores[..i]
        invariant correct == Count(IsCorrect, docScores[..i])
      {
        assert docScores[..i + 1] == docScores[..i] + [docScores[i]];
        CountSnoc(IsCorrect, docScores[..i], docScores[i]);
        Fold(docScores[i]);
        if docScores[i].outcome == Correct {
          correct := correct + 1;
        }
      }
      assert docScores[..|docScores|] == docScores;
    }

    /** The field scores of one document, with whatever else scoring it records. */
    method ScoreDocument(o: Oracle, truth: map<string, DocTruth>, fields: seq<FieldSpec>, r: Extraction)
      returns (docScores: seq<FieldScore>)
      requires Valid() && Usable(fields)
      modifies this`extractionFailures, this`buckets, this`highConfidence, this`predictions, this`overconfidence
      ensures Valid() && docScores == ScoresOf(o, truth, fields, r)
      ensures forall s :: s in docScores ==> s.field in Names(fields)
      ensures extractionFailures == old(extractionFailures) + FailureLine(r)
      ensures predictions == old(predictions) + PredictionsOf(o, truth, fields, r)
      ensures overconfidence == old(overconfidence) + OverconfidenceOf(o, truth, fields, r)
    {
      var t := TruthOf(truth, r);
      ScoredFieldsAreKnown(o, t, r, fields);
      if !r.Ok() {
        extractionFailures := extractionFailures + [r.filename + ": " + r.error];
        docScores := ScoreFailure(o, t, r, fields);
        NothingFromFailure(o, t, r, fields);
      } else {
        docScores := ScoreFields(o, t, r, fields);
      }
    }

    /** One document: score it, fold the scores in, and note its own result. */
    method Process(o: Oracle, truth: map<string, DocTruth>, fields: seq<FieldSpec>, r: Extraction)
      requires Valid() && names == Names(fields) && Usable(fields)
      modifies this
      ensures Valid() && docsProcessed == old(docsProcessed) + 1
      ensures extractionFailures == old(extractionFailures) + FailureLine(r)
      ensures fieldScores == old(fieldScores) + ScoresOf(o, truth, fields, r)
      ensures predictions == old(predictions) + PredictionsOf(o, truth, fields, r)
      ensures overconfidence == old(overconfidence) + OverconfidenceOf(o, truth, fields, r)
      ensures docResults == old(docResults) + [SummaryOf(r, ScoresOf(o, truth, fields, r))]
    {
      var docScores := ScoreDocument(o, truth, fields, r);
      FoldDocument(r, docScores);
    }

    /** Folds a document's scores in and notes the document's own result. */
    method FoldDocument(r: Extraction, docScores: seq<FieldScore>)
      requires Valid() && forall s :: s in docScores ==> s.field in names
      modifies this`fieldScores, this`fieldsEvaluated, this`overallCorrect, this`fieldStats, this`failureModes
      modifies this`docsProcessed, this`docResults
      ensures Valid() && docsProcessed == old(docsProcessed) + 1 && fieldScores == old(fieldScores) + docScores
      ensures docResults == old(docResults) + [SummaryOf(r, docScores)]
    {
      docsProcessed := docsProcessed + 1;
      var correct := FoldAll(docScores);
      Note(r, docScores, correct);
    }

    method Note(r: Extraction, docScores: seq<FieldScore>, correct: nat)
      requires correct == Count(IsCorrect, docScores)
      modifies this`docResults
      ensures docResults == old(docResults) + [SummaryOf(r, docScores)]
    {
      docResults := docResults +
        [DocResult(r.filename, r.status, correct, |docScores|, FlatMap(FailureNote, docScores))];
    }
  }

  /** Charge lists are always reported under the field name "accessorials", which must be one of the
      configured names when any field is a list. */
  predicate Usable(fields: seq<FieldSpec>) {
    (exists spec :: spec in fields && spec.fieldType == ListType) ==> "accessorials" in Names(fields)
  }

  lemma NothingFromFailure(o: Oracle, t: DocTruth, r: Extraction, fields: seq<FieldSpec>)
    requires !r.Ok()
    ensures FlatMap(SpecPredictions(o, t, r), fields) == []
    ensures FlatMap(SpecOverconfidence(o, t, r), fields) == []
  {
    if fields != [] {
      NothingFromFailure(o, t, r, fields[1..]);
    }
  }

  lemma ScoredFieldsAreKnown(o: Oracle, t: DocTruth, r: Extraction, fields: seq<FieldSpec>)
    requires Usable(fields)
    ensures forall s :: s in FlatMap(SpecScore(o, t, r), fields) ==> s.field in Names(fields)
  {
    forall s | s in FlatMap(SpecScore(o, t, r), fields) ensures s.field in Names(fields) {
      InFlatMap(SpecScore(o, t, r), fields, s);
      var i :| 0 <= i < |fields| && s in SpecScore(o, t, r)(fields[i]);
      assert fields[i] in fields;
    }
  }

  lemma TallyStep(o: Oracle, truth: map<string, DocTruth>, fields: seq<FieldSpec>, results: seq<Extraction>, i: nat)
    requires i < |results|
    ensures var head, next, r := results[..i], results[..i + 1], results[i];
            && FlatMap(FailureLine, next) == FlatMap(FailureLine, head) + FailureLine(r)
            && FlatMap(DocScores(o, truth, fields), next) ==
                 FlatMap(DocScores(o, truth, fields), head) + ScoresOf(o, truth, fields, r)
            && FlatMap(DocPredictions(o, truth, fields), next) ==
                 FlatMap(DocPredictions(o, truth, fields), head) + PredictionsOf(o, truth, fields, r)
            && FlatMap(DocOverconfidence(o, truth, fields), next) ==
                 FlatMap(DocOverconfidence(o, truth, fields), head) + OverconfidenceOf(o, truth, fields, r)
            && FlatMap(DocSummary(o, truth, fields), next) ==
                 FlatMap(DocSummary(o, truth, fields), head) + [SummaryOf(r, ScoresOf(o, truth, fields, r))]
  {
    FlatMapStep(FailureLine, results, i);
    FlatMapStep(DocScores(o, truth, fields), results, i);
    FlatMapStep(DocPredictions(o, truth, fields), results, i);
    FlatMapStep(DocOverconfidence(o, truth, fields), results, i);
    FlatMapStep(DocSummary(o, truth, fields), results, i);
  }

  /** The report is valid and holds what these documents contribute. */
  ghost predicate Reports(report: EvalReport, o: Oracle, truth: map<string, DocTruth>, fields: seq<FieldSpec>,
                          results: seq<Extraction>)
    reads report
  {
    && report.Valid() && report.names == Names(fields)
    && report.docsProcessed == |results|
    && report.extractionFailures == FlatMap(FailureLine, results)
    && report.fieldScores == FlatMap(DocScores(o, truth, fields), results)
    && report.predictions == FlatMap(DocPredictions(o, truth, fields), results)
    && report.overconfidence == FlatMap(DocOverconfidence(o, truth, fields), results)
    && report.docResults == FlatMap(DocSummary(o, truth, fields), results)
  }

  /** Processes document number i. */
  method ProcessNext(report: EvalReport, o: Oracle, truth: map<string, DocTruth>, fields: seq<FieldSpec>,
                     results: seq<Extraction>, i: nat)
    requires i < |results| && Usable(fields) && Reports(report, o, truth, fields, results[..i])
    modifies report
    ensures Reports(report, o, truth, fields, results[..i + 1])
  {
    report.Process(o, truth, fields, results[i]);
    TallyStep(o, truth, fields, results, i);
  }

  /** The report of a run is the tally of its scores and predictions. */
  method Evaluate(o: Oracle, results: seq<Extraction>, truth: map<string, DocTruth>, fields: seq<FieldSpec>)
    returns (report: EvalReport)
    requires Usable(fields)
    ensures fresh(report) && report.Snapshot() == TallyOf(o, results, truth, fields)
  {
    report := new EvalReport(fields);
    for i := 0 to |results|
      invariant fresh(report) && Reports(report, o, truth, fields, results[..i])
    {
      ProcessNext(report, o, truth, fields, results, i);
    }
    assert results[..|results|] == results;
  }

  // ------------------------------------------------------------------ one step of each counter

  function NextBuckets(buckets: seq<Bucket>, p: Prediction): seq<Bucket>
    requires |buckets| == BUCKET_COUNT
  {
    var i := BucketOf(p.confidence);
    var b := buckets[i];
    buckets[i := b.(n := b.n + 1, correct := b.correct + if p.correct then 1 else 0)]
  }

  function NextHigh(h: ConfidenceStat, p: Prediction): ConfidenceStat {
    if p.confidence < HIGH_CONF then h
    else ConfidenceStat(h.n + 1, h.correct + if p.correct then 1 else 0)
  }

  lemma BucketStep(ps: seq<Prediction>, p: Prediction)
    ensures BucketsOf(ps + [p]) == NextBuckets(BucketsOf(ps), p)
  {
    forall i: nat | i < BUCKET_COUNT ensures BucketsOf(ps + [p])[i] == NextBuckets(BucketsOf(ps), p)[i] {
      CountSnoc(InBucket(i), ps, p);
      CountSnoc(RightInBucket(i), ps, p);
    }
  }

  lemma HighStep(ps: seq<Prediction>, p: Prediction)
    ensures HighOf(ps + [p]) == NextHigh(HighOf(ps), p)
  {
    CountSnoc(IsHigh, ps, p);
    CountSnoc(IsHighRight, ps, p);
  }

  function Bumped(s: FieldStat, fs: FieldScore): FieldStat {
    FieldStat(s.correct + (if fs.outcome == Correct then 1 else 0),
              s.wrong + (if fs.outcome in {Incorrect, Extra} then 1 else 0),
              s.missing + (if fs.outcome == Missing then 1 else 0),
              s.total + 1,
              s.confSum + (if fs.asserted then fs.confidence else 0.0),
              s.confN + (if fs.asserted then 1 else 0))
  }

  lemma OneStat(f: string, scores: seq<FieldScore>, fs: FieldScore)
    ensures StatOf(f, scores + [fs]) == if fs.field == f then Bumped(StatOf(f, scores), fs) else StatOf(f, scores)
  {
    CountSnoc(Scored(f, {Correct}), scores, fs);
    CountSnoc(Scored(f, {Incorrect, Extra}), scores, fs);
    CountSnoc(Scored(f, {Missing}), scores, fs);
    CountSnoc(OfField(f), scores, fs);
    CountSnoc(AssertedOf(f), scores, fs);
    TotalAppend(ConfidenceOf(f), scores, [fs]);
    assert [fs][1..] == [];
  }

  function NextStats(stats: map<string, FieldStat>, fs: FieldScore): map<string, FieldStat>
    requires fs.field in stats
  {
    stats[fs.field := Bumped(stats[fs.field], fs)]
  }

  lemma StatStep(names: set<string>, scores: seq<FieldScore>, fs: FieldScore)
    requires fs.field in names
    ensures StatsOf(names, scores + [fs]) == NextStats(StatsOf(names, scores), fs)
  {
    forall f | f in names
      ensures StatOf(f, scores + [fs]) == if fs.field == f then Bumped(StatOf(f, scores), fs) else StatOf(f, scores)
    {
      OneStat(f, scores, fs);
    }
  }

  /** Counting one more failure in field f. */
  function BumpRow(row: map<string, nat>, f: string): map<string, nat> {
    row[f := (if f in row then row[f] else 0) + 1]
  }

  function NextModes(modes: map<Category, map<string, nat>>, fs: FieldScore): map<Category, map<string, nat>> {
    if fs.category.None? then modes
    else
      var c := fs.category.value;
      modes[c := BumpRow(if c in modes then modes[c] else map[], fs.field)]
  }

  lemma FailingFieldsStep(c: Category, scores: seq<FieldScore>, fs: FieldScore)
    ensures FieldsOf(c, scores + [fs]) == FieldsOf(c, scores) + if fs.category == Some(c) then {fs.field} else {}
  {
    var more := scores + [fs];
    assert forall s :: s in more <==> s in scores || s == fs;
    if fs.category == Some(c) {
      assert fs in more;
    }
  }

  lemma FailingCategoriesStep(scores: seq<FieldScore>, fs: FieldScore)
    ensures CategoriesOf(scores + [fs]) ==
              CategoriesOf(scores) + if fs.category.Some? then {fs.category.value} else {}
  {
    var more := scores + [fs];
    assert forall s :: s in more <==> s in scores || s == fs;
    if fs.category.Some? {
      assert fs in more;
    }
  }

  lemma OtherMode(c: Category, scores: seq<FieldScore>, fs: FieldScore)
    requires fs.category != Some(c)
    ensures ModeOf(c, scores + [fs]) == ModeOf(c, scores)
  {
    FailingFieldsStep(c, scores, fs);
    forall f ensures Count(Failing(c, f), scores + [fs]) == Count(Failing(c, f), scores) {
      CountSnoc(Failing(c, f), scores, fs);
    }
  }

  lemma SameMode(c: Category, scores: seq<FieldScore>, fs: FieldScore)
    requires fs.category == Some(c)
    ensures ModeOf(c, scores + [fs]) == BumpRow(ModeOf(c, scores), fs.field)
  {
    FailingFieldsStep(c, scores, fs);
    var next, row := ModeOf(c, scores + [fs]), ModeOf(c, scores);
    forall f | f in FieldsOf(c, scores + [fs]) ensures next[f] == BumpRow(row, fs.field)[f] {
      FailingStep(c, f, scores, fs);
    }
  }

  lemma FailingStep(c: Category, f: string, scores: seq<FieldScore>, fs: FieldScore)
    requires fs.category == Some(c)
    ensures Count(Failing(c, f), scores + [fs]) ==
              (if f in FieldsOf(c, scores) then Count(Failing(c, f), scores) else 0) + if f == fs.field then 1 else 0
  {
    CountSnoc(Failing(c, f), scores, fs);
    if f !in FieldsOf(c, scores) {
      CountZero(Failing(c, f), scores);
    }
  }

  lemma NoModeYet(c: Category, scores: seq<FieldScore>)
    requires c !in CategoriesOf(scores)
    ensures ModeOf(c, scores) == map[]
  {
    assert FieldsOf(c, scores) == {};
  }

  /** One more score steps every counter. */
  lemma FoldStep(names: set<string>, scores: seq<FieldScore>, fs: FieldScore)
    requires fs.field in names
    ensures Count(IsCorrect, scores + [fs]) == Count(IsCorrect, scores) + if fs.outcome == Correct then 1 else 0
    ensures fs.field in StatsOf(names, scores)
    ensures StatsOf(names, scores + [fs]) == NextStats(StatsOf(names, scores), fs)
    ensures ModesOf(scores + [fs]) == NextModes(ModesOf(scores), fs)
  {
    CountSnoc(IsCorrect, scores, fs);
    StatStep(names, scores, fs);
    ModesStep(scores, fs);
  }

  lemma ModesStep(scores: seq<FieldScore>, fs: FieldScore)
    ensures ModesOf(scores + [fs]) == NextModes(ModesOf(scores), fs)
  {
    FailingCategoriesStep(scores, fs);
    forall c | c in CategoriesOf(scores) && fs.category != Some(c)
      ensures ModeOf(c, scores + [fs]) == ModeOf(c, scores)
    {
      OtherMode(c, scores, fs);
    }
    if fs.category.Some? {
      SameMode(fs.category.value, scores, fs);
      if fs.category.value !in CategoriesOf(scores) {
        NoModeYet(fs.category.value, scores);
      }
    }
  }
}
