/** The production-readiness gate over a tally, and what a passing gate guarantees. */
module Gate {
  import opened Prelude
  import opened Scoring
  import opened Evaluation
  import opened Calibration
  import Conservation

  const REQUIRED_FIELDS: set<string> := {"load_or_pro_number", "linehaul_amount", "total_amount"}
  const GATE_REQUIRED_FIELD_ACCURACY: real := 0.90
  const GATE_OVERALL_ACCURACY: real := 0.85
  const GATE_HIGH_CONF_ACCURACY: real := 0.85

  function Accuracy(correct: nat, total: nat): real {
    if total == 0 then 0.0 else correct as real / total as real
  }

  function RequiredFieldPass(t: Tally): map<string, bool> {
    map f | f in REQUIRED_FIELDS && f in t.fieldStats ::
      Accuracy(t.fieldStats[f].correct, t.fieldStats[f].total) >= GATE_REQUIRED_FIELD_ACCURACY
  }

  function IfRequired(x: Overconfident): seq<Overconfident> {
    if x.field in REQUIRED_FIELDS then [x] else []
  }

  function DangerousOverconfidence(t: Tally): seq<Overconfident> {
    FlatMap(IfRequired, t.overconfidence)
  }

  predicate ProductionReady(t: Tally) {
    var pass := RequiredFieldPass(t);
    && pass != map[] && (forall f :: f in pass ==> pass[f])
    && Accuracy(t.overallCorrect, t.fieldsEvaluated) >= GATE_OVERALL_ACCURACY
    && |DangerousOverconfidence(t)| == 0
    && (t.highConfidence.n == 0
        || Accuracy(t.highConfidence.correct, t.highConfidence.n) >= GATE_HIGH_CONF_ACCURACY)
  }

  /** The fields a load cannot do without. */
  ghost predicate IsGateField(f: string) {
    f == "load_or_pro_number" || f == "linehaul_amount" || f == "total_amount"
  }

  function ScoreOf(f: string): FieldScore -> bool {
    (s: FieldScore) => s.field == f
  }

  function RightOf(f: string): FieldScore -> bool {
    (s: FieldScore) => s.field == f && s.outcome == Correct
  }

  predicate IsRight(s: FieldScore) {
    s.outcome == Correct
  }

  /** No required field was asserted with a confidence of 0.85 or more and got wrong. */
  ghost predicate NoConfidentError(scores: seq<FieldScore>) {
    forall s :: s in scores && s.asserted && s.confidence >= 0.85 && IsGateField(s.field) ==> s.outcome == Correct
  }

  /** Of a field's scores, at least one and at least nine in ten are right. */
  predicate NineInTen(f: string, scores: seq<FieldScore>) {
    10 * Count(RightOf(f), scores) >= 9 * Count(ScoreOf(f), scores) > 0
  }

  /** Some required field is configured, and each that is was right nine times in ten. */
  ghost predicate RequiredFieldsRight(names: set<string>, scores: seq<FieldScore>) {
    (exists f :: f in names && IsGateField(f)) &&
    forall f :: f in names && IsGateField(f) ==> NineInTen(f, scores)
  }

  /** At least 17 in 20 of all, that is 85 percent. */
  predicate MostlyRight(right: nat, all: nat) {
    20 * right >= 17 * all
  }

  /** What it takes to pass: over the field scores of the run, and over what was claimed with 0.85 or
      more, by asserted scalars and by extracted charges. */
  ghost predicate Passes(o: Oracle, results: seq<Extraction>, truth: map<string, DocTruth>, fields: seq<FieldSpec>) {
    var scores := FlatMap(DocScores(o, truth, fields), results);
    var scalars := FlatMap(ScalarScores(o, truth, fields), results);
    var right := Count(RightScore(Confident), scalars) +
                 Count(Stating(Confident), FlatMap(PairedItems(o, truth, fields), results));
    var wrong := Count(WrongScore(Confident), scalars) +
                 Count(Stating(Confident), FlatMap(LeftItems(o, truth, fields), results));
    && NoConfidentError(scores)
    && RequiredFieldsRight(Names(fields), scores)
    && scores != [] && MostlyRight(Count(IsRight, scores), |scores|)
    && MostlyRight(right, right + wrong)
  }

  /** The exit code of an evaluation: 0 exactly when the run passes. */
  method RunGate(o: Oracle, results: seq<Extraction>, truth: map<string, DocTruth>, fields: seq<FieldSpec>)
    returns (code: int)
    requires Usable(fields)
    ensures code == if ProductionReady(TallyOf(o, results, truth, fields)) then 0 else 1
    ensures code == 0 <==> Passes(o, results, truth, fields)
  {
    var report := Evaluate(o, results, truth, fields);
    GatePassesExactly(o, results, truth, fields);
    code := if ProductionReady(report.Snapshot()) then 0 else 1;
  }

  // ------------------------------------------------------------------ what passing means

  lemma GatePassesExactly(o: Oracle, results: seq<Extraction>, truth: map<string, DocTruth>, fields: seq<FieldSpec>)
    ensures ProductionReady(TallyOf(o, results, truth, fields)) <==> Passes(o, results, truth, fields)
  {
    var t := TallyOf(o, results, truth, fields);
    RequiredPassExactly(t, Names(fields));
    OverallExactly(t);
    DangerExactly(o, results, truth, fields);
    ConfidentClaims(o, results, truth, fields);
    CalibrationExactly(t.highConfidence);
  }

  lemma CalibrationExactly(h: ConfidenceStat)
    requires h.correct <= h.n
    ensures (h.n == 0 || Accuracy(h.correct, h.n) >= GATE_HIGH_CONF_ACCURACY) <==> MostlyRight(h.correct, h.n)
  {
    AccuracyAtLeast(h.correct, h.n, GATE_HIGH_CONF_ACCURACY);
  }

  lemma OverallExactly(t: Tally)
    requires t.fieldsEvaluated == |t.fieldScores| && t.overallCorrect == Count(IsCorrect, t.fieldScores)
    ensures Accuracy(t.overallCorrect, t.fieldsEvaluated) >= GATE_OVERALL_ACCURACY <==>
              t.fieldScores != [] && MostlyRight(Count(IsRight, t.fieldScores), |t.fieldScores|)
  {
    CountSame(IsCorrect, IsRight, t.fieldScores);
    AccuracyAtLeast(t.overallCorrect, t.fieldsEvaluated, GATE_OVERALL_ACCURACY);
  }

  lemma RequiredPassExactly(t: Tally, names: set<string>)
    requires t.fieldStats == StatsOf(names, t.fieldScores)
    ensures var pass := RequiredFieldPass(t);
            pass != map[] && (forall f :: f in pass ==> pass[f]) <==> RequiredFieldsRight(names, t.fieldScores)
  {
    var pass := RequiredFieldPass(t);
    forall f ensures f in pass <==> f in names && IsGateField(f) {
    }
    forall f | f in pass ensures pass[f] <==> NineInTen(f, t.fieldScores) {
      FieldPassExactly(f, t.fieldScores);
    }
    assert pass.Keys == {} <==> pass == map[];
    if pass != map[] {
      var f :| f in pass.Keys;
      assert f in names && IsGateField(f);
    }
  }

  lemma FieldPassExactly(f: string, scores: seq<FieldScore>)
    ensures Accuracy(StatOf(f, scores).correct, StatOf(f, scores).total) >= GATE_REQUIRED_FIELD_ACCURACY <==>
              NineInTen(f, scores)
  {
    CountSame(Scored(f, {Correct}), RightOf(f), scores);
    CountSame(OfField(f), ScoreOf(f), scores);
    AccuracyAtLeast(Count(RightOf(f), scores), Count(ScoreOf(f), scores), GATE_REQUIRED_FIELD_ACCURACY);
  }

  /** A confident error in a required field. */
  predicate IsConfidentError(s: FieldScore) {
    s.asserted && s.confidence >= 0.85 && s.field in REQUIRED_FIELDS && s.outcome != Correct
  }

  lemma SpecDanger(o: Oracle, t: DocTruth, r: Extraction, spec: FieldSpec)
    ensures Count(IsDangerous, SpecOverconfidence(o, t, r)(spec)) == Count(IsConfidentError, SpecScore(o, t, r)(spec))
  {
    if r.Ok() && spec.fieldType != ListType {
      var s := PlainScore(o, t, r, spec);
      assert SpecScore(o, t, r)(spec) == [s] && [s][1..] == [];
      assert SpecOverconfidence(o, t, r)(spec) == ScalarOverconfidence(s);
    }
  }

  lemma {:induction false} SameCountThroughout<T, U, V>(p: U -> bool, f: T -> seq<U>, q: V -> bool, g: T -> seq<V>,
                                                        xs: seq<T>)
    requires forall x :: x in xs ==> Count(p, f(x)) == Count(q, g(x))
    ensures Count(p, FlatMap(f, xs)) == Count(q, FlatMap(g, xs))
  {
    if xs != [] {
      SameCountThroughout(p, f, q, g, xs[1..]);
      CountAppend(p, f(xs[0]), FlatMap(f, xs[1..]));
      CountAppend(q, g(xs[0]), FlatMap(g, xs[1..]));
    }
  }

  lemma DangerCounted(o: Oracle, results: seq<Extraction>, truth: map<string, DocTruth>, fields: seq<FieldSpec>)
    ensures Count(IsDangerous, FlatMap(DocOverconfidence(o, truth, fields), results)) ==
              Count(IsConfidentError, FlatMap(DocScores(o, truth, fields), results))
  {
    forall r | r in results
      ensures Count(IsDangerous, DocOverconfidence(o, truth, fields)(r)) ==
                Count(IsConfidentError, DocScores(o, truth, fields)(r))
    {
      var t := TruthOf(truth, r);
      forall spec | spec in fields
        ensures Count(IsDangerous, SpecOverconfidence(o, t, r)(spec)) ==
                  Count(IsConfidentError, SpecScore(o, t, r)(spec))
      {
        SpecDanger(o, t, r, spec);
      }
      SameCountThroughout(IsDangerous, SpecOverconfidence(o, t, r), IsConfidentError, SpecScore(o, t, r), fields);
    }
    SameCountThroughout(IsDangerous, DocOverconfidence(o, truth, fields),
                        IsConfidentError, DocScores(o, truth, fields), results);
  }

  /** Nothing recorded is dangerous exactly when no confident error was made in a required field. */
  lemma DangerExactly(o: Oracle, results: seq<Extraction>, truth: map<string, DocTruth>, fields: seq<FieldSpec>)
    ensures |DangerousOverconfidence(TallyOf(o, results, truth, fields))| == 0 <==>
              NoConfidentError(FlatMap(DocScores(o, truth, fields), results))
  {
    DangerousCounted(FlatMap(DocOverconfidence(o, truth, fields), results));
    DangerCounted(o, results, truth, fields);
    ErrorsCounted(FlatMap(DocScores(o, truth, fields), results));
  }

  lemma ErrorsCounted(scores: seq<FieldScore>)
    ensures Count(IsConfidentError, scores) == 0 <==> NoConfidentError(scores)
  {
    CountZero(IsConfidentError, scores);
    forall s ensures IsConfidentError(s) <==>
        s.asserted && s.confidence >= 0.85 && IsGateField(s.field) && s.outcome != Correct
    {
    }
  }

  // ------------------------------------------------------------------ accuracies

  lemma AccuracyAtLeast(correct: nat, total: nat, p: real)
    requires p > 0.0
    ensures Accuracy(correct, total) >= p <==> total > 0 && correct as real >= p * total as real
  {
    if total > 0 {
      var a, n := Accuracy(correct, total), total as real;
      assert a * n == correct as real;
      if a >= p {
        assert a * n >= p * n;
      } else {
        assert a * n < p * n;
      }
    }
  }

  lemma AccuracyGrows(c1: nat, c2: nat, total: nat)
    requires c1 <= c2
    ensures Accuracy(c1, total) <= Accuracy(c2, total)
  {
    if total > 0 {
      var n := total as real;
      assert c1 as real / n <= c2 as real / n;
    }
  }

  predicate IsDangerous(x: Overconfident) {
    x.field in REQUIRED_FIELDS
  }

  lemma {:induction false} DangerousCounted(s: seq<Overconfident>)
    ensures |FlatMap(IfRequired, s)| == Count(IsDangerous, s)
  {
    if s != [] {
      DangerousCounted(s[1..]);
    }
  }

  lemma SameCountersSameVerdict(s: Tally, t: Tally)
    requires s.fieldStats == t.fieldStats && s.highConfidence == t.highConfidence
    requires s.overallCorrect == t.overallCorrect && s.fieldsEvaluated == t.fieldsEvaluated
    requires multiset(s.overconfidence) == multiset(t.overconfidence)
    ensures ProductionReady(s) == ProductionReady(t)
  {
    DangerousCounted(s.overconfidence);
    DangerousCounted(t.overconfidence);
    CountReorder(IsDangerous, s.overconfidence, t.overconfidence);
    assert RequiredFieldPass(s) == RequiredFieldPass(t);
  }

  /** Reordering the documents never changes the verdict. */
  lemma GateIsOrderFree(o: Oracle, a: seq<Extraction>, b: seq<Extraction>, truth: map<string, DocTruth>,
                        fields: seq<FieldSpec>)
    requires multiset(a) == multiset(b)
    ensures ProductionReady(TallyOf(o, a, truth, fields)) == ProductionReady(TallyOf(o, b, truth, fields))
  {
    Conservation.OrderFree(o, a, b, truth, fields);
    SameCountersSameVerdict(TallyOf(o, a, truth, fields), TallyOf(o, b, truth, fields));
  }

  // ------------------------------------------------------------------ monotonicity

  /** b is the same document as a with some of its wrong scalar fields made right. */
  ghost predicate Repairs(o: Oracle, truth: map<string, DocTruth>, fields: seq<FieldSpec>,
                          a: Extraction, b: Extraction)
  {
    && a.filename == b.filename && a.status == b.status
    && (a.Ok() ==> forall spec :: spec in fields ==> RepairsField(o, TruthOf(truth, a), a, b, spec))
  }

  ghost predicate RepairsField(o: Oracle, t: DocTruth, a: Extraction, b: Extraction, spec: FieldSpec) {
    if spec.fieldType == ListType then Find(a.lists, spec.name, []) == Find(b.lists, spec.name, [])
    else
      var sa, sb := PlainScore(o, t, a, spec), PlainScore(o, t, b, spec);
      sa == sb || (sa.outcome != Correct && sb.outcome == Correct)
  }

  /** For one field: the same fields are scored, nothing right becomes wrong, no dangerous
      overconfidence appears, and confident predictions only turn from wrong to right. */
  lemma FieldRepaired(o: Oracle, t: DocTruth, a: Extraction, b: Extraction, spec: FieldSpec, f: string)
    requires a.filename == b.filename && a.status == b.status
    requires a.Ok() ==> RepairsField(o, t, a, b, spec)
    ensures Count(OfField(f), SpecScore(o, t, a)(spec)) == Count(OfField(f), SpecScore(o, t, b)(spec))
    ensures Count(Scored(f, {Correct}), SpecScore(o, t, a)(spec)) <=
              Count(Scored(f, {Correct}), SpecScore(o, t, b)(spec))
    ensures Count(IsCorrect, SpecScore(o, t, a)(spec)) <= Count(IsCorrect, SpecScore(o, t, b)(spec))
    ensures Count(IsDangerous, SpecOverconfidence(o, t, b)(spec)) <=
              Count(IsDangerous, SpecOverconfidence(o, t, a)(spec))
    ensures Count(IsHighRight, SpecPredictions(o, t, a)(spec)) <= Count(IsHighRight, SpecPredictions(o, t, b)(spec))
    ensures Count(Conservation.IsHighWrong, SpecPredictions(o, t, b)(spec)) <=
              Count(Conservation.IsHighWrong, SpecPredictions(o, t, a)(spec))
  {
  }

  lemma ScoresRepaired(o: Oracle, truth: map<string, DocTruth>, fields: seq<FieldSpec>,
                       a: Extraction, b: Extraction, f: string)
    requires Repairs(o, truth, fields, a, b)
    ensures Count(OfField(f), DocScores(o, truth, fields)(a)) == Count(OfField(f), DocScores(o, truth, fields)(b))
    ensures Count(Scored(f, {Correct}), DocScores(o, truth, fields)(a)) <=
              Count(Scored(f, {Correct}), DocScores(o, truth, fields)(b))
    ensures Count(IsCorrect, DocScores(o, truth, fields)(a)) <= Count(IsCorrect, DocScores(o, truth, fields)(b))
    ensures |DocScores(o, truth, fields)(a)| == |DocScores(o, truth, fields)(b)|
  {
    var t := TruthOf(truth, a);
    var fa, fb := SpecScore(o, t, a), SpecScore(o, t, b);
    forall i | 0 <= i < |fields|
      ensures Count(OfField(f), fa(fields[i])) == Count(OfField(f), fb(fields[i]))
      ensures Count(Scored(f, {Correct}), fa(fields[i])) <= Count(Scored(f, {Correct}), fb(fields[i]))
      ensures Count(IsCorrect, fa(fields[i])) <= Count(IsCorrect, fb(fields[i]))
    {
      FieldRepaired(o, t, a, b, fields[i], f);
    }
    CountFlatMapLe(OfField(f), fa, fields, OfField(f), fb, fields);
    CountFlatMapLe(OfField(f), fb, fields, OfField(f), fa, fields);
    CountFlatMapLe(Scored(f, {Correct}), fa, fields, Scored(f, {Correct}), fb, fields);
    CountFlatMapLe(IsCorrect, fa, fields, IsCorrect, fb, fields);
    OneScoreEach(o, t, a, fields);
    OneScoreEach(o, t, b, fields);
  }

  lemma {:induction false} OneScoreEach(o: Oracle, t: DocTruth, r: Extraction, fields: seq<FieldSpec>)
    ensures |FlatMap(SpecScore(o, t, r), fields)| == |fields|
  {
    if fields != [] {
      OneScoreEach(o, t, r, fields[1..]);
    }
  }

  lemma PredictionsRepaired(o: Oracle, truth: map<string, DocTruth>, fields: seq<FieldSpec>,
                            a: Extraction, b: Extraction)
    requires Repairs(o, truth, fields, a, b)
    ensures Count(IsDangerous, DocOverconfidence(o, truth, fields)(b)) <=
              Count(IsDangerous, DocOverconfidence(o, truth, fields)(a))
    ensures Count(IsHighRight, DocPredictions(o, truth, fields)(a)) <=
              Count(IsHighRight, DocPredictions(o, truth, fields)(b))
    ensures Count(Conservation.IsHighWrong, DocPredictions(o, truth, fields)(b)) <=
              Count(Conservation.IsHighWrong, DocPredictions(o, truth, fields)(a))
  {
    var t := TruthOf(truth, a);
    var pa, pb := SpecPredictions(o, t, a), SpecPredictions(o, t, b);
    var va, vb := SpecOverconfidence(o, t, a), SpecOverconfidence(o, t, b);
    forall i | 0 <= i < |fields|
      ensures Count(IsDangerous, vb(fields[i])) <= Count(IsDangerous, va(fields[i]))
      ensures Count(IsHighRight, pa(fields[i])) <= Count(IsHighRight, pb(fields[i]))
      ensures Count(Conservation.IsHighWrong, pb(fields[i])) <= Count(Conservation.IsHighWrong, pa(fields[i]))
    {
      FieldRepaired(o, t, a, b, fields[i], "");
    }
    CountFlatMapLe(IsDangerous, vb, fields, IsDangerous, va, fields);
    CountFlatMapLe(IsHighRight, pa, fields, IsHighRight, pb, fields);
    CountFlatMapLe(Conservation.IsHighWrong, pb, fields, Conservation.IsHighWrong, pa, fields);
  }

  ghost predicate RepairedRun(o: Oracle, truth: map<string, DocTruth>, fields: seq<FieldSpec>,
                              a: seq<Extraction>, b: seq<Extraction>)
  {
    |a| == |b| && forall i :: 0 <= i < |a| ==> Repairs(o, truth, fields, a[i], b[i])
  }

  lemma FieldStatsRepaired(o: Oracle, truth: map<string, DocTruth>, fields: seq<FieldSpec>,
                           a: seq<Extraction>, b: seq<Extraction>, f: string)
    requires RepairedRun(o, truth, fields, a, b)
    ensures var sa, sb := FlatMap(DocScores(o, truth, fields), a), FlatMap(DocScores(o, truth, fields), b);
            && Count(OfField(f), sa) == Count(OfField(f), sb)
            && Count(Scored(f, {Correct}), sa) <= Count(Scored(f, {Correct}), sb)
            && Count(IsCorrect, sa) <= Count(IsCorrect, sb)
            && |sa| == |sb|
  {
    var d, all := DocScores(o, truth, fields), (s: FieldScore) => true;
    forall i | 0 <= i < |a|
      ensures Count(OfField(f), d(a[i])) == Count(OfField(f), d(b[i]))
      ensures Count(Scored(f, {Correct}), d(a[i])) <= Count(Scored(f, {Correct}), d(b[i]))
      ensures Count(IsCorrect, d(a[i])) <= Count(IsCorrect, d(b[i]))
      ensures Count(all, d(a[i])) == Count(all, d(b[i]))
    {
      ScoresRepaired(o, truth, fields, a[i], b[i], f);
      CountAll(all, d(a[i]));
      CountAll(all, d(b[i]));
    }
    CountFlatMapLe(OfField(f), d, a, OfField(f), d, b);
    CountFlatMapLe(OfField(f), d, b, OfField(f), d, a);
    CountFlatMapLe(Scored(f, {Correct}), d, a, Scored(f, {Correct}), d, b);
    CountFlatMapLe(IsCorrect, d, a, IsCorrect, d, b);
    CountFlatMapLe(all, d, a, all, d, b);
    CountFlatMapLe(all, d, b, all, d, a);
    CountAll(all, FlatMap(d, a));
    CountAll(all, FlatMap(d, b));
  }

  lemma ConfidenceRepaired(o: Oracle, truth: map<string, DocTruth>, fields: seq<FieldSpec>,
                           a: seq<Extraction>, b: seq<Extraction>)
    requires RepairedRun(o, truth, fields, a, b)
    ensures var pa, pb := FlatMap(DocPredictions(o, truth, fields), a), FlatMap(DocPredictions(o, truth, fields), b);
            && Count(IsHighRight, pa) <= Count(IsHighRight, pb)
            && Count(Conservation.IsHighWrong, pb) <= Count(Conservation.IsHighWrong, pa)
    ensures Count(IsDangerous, FlatMap(DocOverconfidence(o, truth, fields), b)) <=
              Count(IsDangerous, FlatMap(DocOverconfidence(o, truth, fields), a))
  {
    var p, v := DocPredictions(o, truth, fields), DocOverconfidence(o, truth, fields);
    forall i | 0 <= i < |a|
      ensures Count(IsHighRight, p(a[i])) <= Count(IsHighRight, p(b[i]))
      ensures Count(Conservation.IsHighWrong, p(b[i])) <= Count(Conservation.IsHighWrong, p(a[i]))
      ensures Count(IsDangerous, v(b[i])) <= Count(IsDangerous, v(a[i]))
    {
      PredictionsRepaired(o, truth, fields, a[i], b[i]);
    }
    CountFlatMapLe(IsHighRight, p, a, IsHighRight, p, b);
    CountFlatMapLe(Conservation.IsHighWrong, p, b, Conservation.IsHighWrong, p, a);
    CountFlatMapLe(IsDangerous, v, b, IsDangerous, v, a);
  }

  /** More right and fewer wrong confident predictions never lower the calibration verdict. */
  lemma CalibrationGrows(right1: nat, wrong1: nat, right2: nat, wrong2: nat)
    requires right1 <= right2 && wrong2 <= wrong1
    requires right1 + wrong1 == 0 || Accuracy(right1, right1 + wrong1) >= GATE_HIGH_CONF_ACCURACY
    ensures right2 + wrong2 == 0 || Accuracy(right2, right2 + wrong2) >= GATE_HIGH_CONF_ACCURACY
  {
    AccuracyAtLeast(right1, right1 + wrong1, GATE_HIGH_CONF_ACCURACY);
    AccuracyAtLeast(right2, right2 + wrong2, GATE_HIGH_CONF_ACCURACY);
  }

  /** What the verdict depends on, and in which direction. */
  lemma VerdictGrows(s: Tally, t: Tally, wrong1: nat, wrong2: nat)
    requires ProductionReady(s)
    requires RequiredFieldPass(s).Keys == RequiredFieldPass(t).Keys
    requires forall f :: f in RequiredFieldPass(s) && RequiredFieldPass(s)[f] ==> RequiredFieldPass(t)[f]
    requires s.fieldsEvaluated == t.fieldsEvaluated && s.overallCorrect <= t.overallCorrect
    requires Count(IsDangerous, t.overconfidence) <= Count(IsDangerous, s.overconfidence)
    requires s.highConfidence.n == s.highConfidence.correct + wrong1
    requires t.highConfidence.n == t.highConfidence.correct + wrong2
    requires s.highConfidence.correct <= t.highConfidence.correct && wrong2 <= wrong1
    ensures ProductionReady(t)
  {
    AccuracyGrows(s.overallCorrect, t.overallCorrect, s.fieldsEvaluated);
    DangerousCounted(s.overconfidence);
    DangerousCounted(t.overconfidence);
    CalibrationGrows(s.highConfidence.correct, wrong1, t.highConfidence.correct, wrong2);
    assert RequiredFieldPass(t) != map[] by {
      assert RequiredFieldPass(s).Keys != {};
    }
  }

  /** The gate is monotone: making wrong scalar fields right, with whatever confidence, and changing
      nothing else cannot turn a passing run into a failing one. */
  lemma GateIsMonotone(o: Oracle, truth: map<string, DocTruth>, fields: seq<FieldSpec>,
                       a: seq<Extraction>, b: seq<Extraction>)
    requires RepairedRun(o, truth, fields, a, b)
    ensures ProductionReady(TallyOf(o, a, truth, fields)) ==> ProductionReady(TallyOf(o, b, truth, fields))
  {
    var pa, pb := FlatMap(DocPredictions(o, truth, fields), a), FlatMap(DocPredictions(o, truth, fields), b);
    RequiredFieldsStillPass(o, truth, fields, a, b);
    FieldStatsRepaired(o, truth, fields, a, b, "");
    ConfidenceRepaired(o, truth, fields, a, b);
    CountSplit(IsHigh, IsHighRight, Conservation.IsHighWrong, pa);
    CountSplit(IsHigh, IsHighRight, Conservation.IsHighWrong, pb);
    if ProductionReady(TallyOf(o, a, truth, fields)) {
      VerdictGrows(TallyOf(o, a, truth, fields), TallyOf(o, b, truth, fields),
                   Count(Conservation.IsHighWrong, pa), Count(Conservation.IsHighWrong, pb));
    }
  }

  lemma RequiredFieldsStillPass(o: Oracle, truth: map<string, DocTruth>, fields: seq<FieldSpec>,
                                a: seq<Extraction>, b: seq<Extraction>)
    requires RepairedRun(o, truth, fields, a, b)
    ensures var s := RequiredFieldPass(TallyOf(o, a, truth, fields));
            var t := RequiredFieldPass(TallyOf(o, b, truth, fields));
            s.Keys == t.Keys && forall f :: f in s && s[f] ==> t[f]
  {
    var s, t := TallyOf(o, a, truth, fields), TallyOf(o, b, truth, fields);
    forall f | f in REQUIRED_FIELDS && f in s.fieldStats
      ensures f in t.fieldStats && NoWorse(s.fieldStats[f], t.fieldStats[f])
    {
      FieldStatsRepaired(o, truth, fields, a, b, f);
    }
    NoWorseStillPasses(s, t);
  }

  /** As many scored, and at least as many right. */
  predicate NoWorse(s: FieldStat, t: FieldStat) {
    s.total == t.total && s.correct <= t.correct
  }

  lemma NoWorseStillPasses(s: Tally, t: Tally)
    requires s.fieldStats.Keys == t.fieldStats.Keys
    requires forall f :: f in REQUIRED_FIELDS && f in s.fieldStats ==> NoWorse(s.fieldStats[f], t.fieldStats[f])
    ensures RequiredFieldPass(s).Keys == RequiredFieldPass(t).Keys
    ensures forall f :: f in RequiredFieldPass(s) && RequiredFieldPass(s)[f] ==> RequiredFieldPass(t)[f]
  {
    forall f | f in RequiredFieldPass(s) && RequiredFieldPass(s)[f] ensures RequiredFieldPass(t)[f] {
      assert NoWorse(s.fieldStats[f], t.fieldStats[f]);
      AccuracyGrows(s.fieldStats[f].correct, t.fieldStats[f].correct, s.fieldStats[f].total);
    }
  }

  // ------------------------------------------------------------------ failed extractions

  function Named(f: string): FieldSpec -> bool {
    (spec: FieldSpec) => spec.name == f
  }

  /** One document scores a required field at most once per configured field of that name, and a
      failed one misses it every time. */
  lemma {:induction false} RequiredPerDocument(o: Oracle, t: DocTruth, r: Extraction, fields: seq<FieldSpec>, f: string)
    requires f != "accessorials"
    ensures var scores, k := FlatMap(SpecScore(o, t, r), fields), Count(Named(f), fields);
            && Count(OfField(f), scores) <= k
            && Count(Scored(f, {Correct}), scores) <= Count(OfField(f), scores)
            && (!r.Ok() ==> Count(OfField(f), scores) == k && Count(Scored(f, {Correct}), scores) == 0)
  {
    if fields != [] {
      RequiredPerDocument(o, t, r, fields[1..], f);
      CountAppend(OfField(f), SpecScore(o, t, r)(fields[0]), FlatMap(SpecScore(o, t, r), fields[1..]));
      CountAppend(Scored(f, {Correct}), SpecScore(o, t, r)(fields[0]), FlatMap(SpecScore(o, t, r), fields[1..]));
    }
  }

  lemma {:induction false} RequiredPerRun(o: Oracle, truth: map<string, DocTruth>, fields: seq<FieldSpec>,
                                          results: seq<Extraction>, f: string)
    requires f != "accessorials"
    ensures var scores, k := FlatMap(DocScores(o, truth, fields), results), Count(Named(f), fields);
            && Count(OfField(f), scores) <= k * |results|
            && Count(Scored(f, {Correct}), scores) + k * |FlatMap(FailureLine, results)| <= Count(OfField(f), scores)
  {
    if results != [] {
      var d, r, k := DocScores(o, truth, fields), results[0], Count(Named(f), fields);
      RequiredPerRun(o, truth, fields, results[1..], f);
      RequiredPerDocument(o, TruthOf(truth, r), r, fields, f);
      CountAppend(OfField(f), d(r), FlatMap(d, results[1..]));
      CountAppend(Scored(f, {Correct}), d(r), FlatMap(d, results[1..]));
      Distribute(k, |results[1..]|);
      Distribute(k, |FlatMap(FailureLine, results[1..])|);
    }
  }

  /** A run that passes the gate is not empty, and at most one document in ten failed extraction. */
  lemma GateBoundsFailures(o: Oracle, truth: map<string, DocTruth>, fields: seq<FieldSpec>, results: seq<Extraction>)
    ensures var t := TallyOf(o, results, truth, fields);
            ProductionReady(t) ==> t.docsProcessed > 0 && 10 * |t.extractionFailures| <= t.docsProcessed
  {
    var t := TallyOf(o, results, truth, fields);
    var k := (f: string) => Count(Named(f), fields);
    forall f | f in REQUIRED_FIELDS && f in t.fieldStats
      ensures MissedByFailures(t, f, k(f))
    {
      FailuresMissField(o, truth, fields, results, f);
    }
    PassingBoundsFailures(t, k);
  }

  /** A field scored at most k times per document, and missed k times by every failed one. */
  predicate MissedByFailures(t: Tally, f: string, k: nat)
    requires f in t.fieldStats
  {
    && t.fieldStats[f].total <= k * t.docsProcessed
    && t.fieldStats[f].correct + k * |t.extractionFailures| <= t.fieldStats[f].total
  }

  lemma PassingBoundsFailures(t: Tally, k: string -> nat)
    requires forall f :: f in REQUIRED_FIELDS && f in t.fieldStats ==> MissedByFailures(t, f, k(f))
    ensures ProductionReady(t) ==> t.docsProcessed > 0 && 10 * |t.extractionFailures| <= t.docsProcessed
  {
    if ProductionReady(t) {
      var f := SomeRequiredField(t);
      assert MissedByFailures(t, f, k(f));
      AtMostATenth(t.fieldStats[f].correct, t.fieldStats[f].total, k(f), t.docsProcessed, |t.extractionFailures|);
    }
  }

  lemma FailuresMissField(o: Oracle, truth: map<string, DocTruth>, fields: seq<FieldSpec>,
                          results: seq<Extraction>, f: string)
    requires f != "accessorials" && f in Names(fields)
    ensures MissedByFailures(TallyOf(o, results, truth, fields), f, Count(Named(f), fields))
  {
    RequiredPerRun(o, truth, fields, results, f);
  }

  lemma SomeRequiredField(t: Tally) returns (f: string)
    requires ProductionReady(t)
    ensures f in REQUIRED_FIELDS && f in t.fieldStats && t.fieldStats[f].total > 0
    ensures t.fieldStats[f].correct as real >= 0.90 * t.fieldStats[f].total as real
  {
    var pass := RequiredFieldPass(t);
    assert pass.Keys == {} ==> pass == map[];
    f :| f in pass.Keys;
    assert pass[f];
    AccuracyAtLeast(t.fieldStats[f].correct, t.fieldStats[f].total, GATE_REQUIRED_FIELD_ACCURACY);
  }

  lemma Distribute(k: nat, n: nat)
    ensures k * (n + 1) == k * n + k
  {
  }

  lemma CancelFactor(k: nat, x: nat, y: nat)
    requires k * x <= k * y && k > 0
    ensures x <= y
  {
  }

  lemma AtMostATenth(correct: nat, total: nat, k: nat, docs: nat, failures: nat)
    requires total > 0 && correct as real >= 0.90 * total as real
    requires total <= k * docs && correct + k * failures <= total
    ensures docs > 0 && 10 * failures <= docs
  {
    assert 10 * correct >= 9 * total;
    assert k > 0 && docs > 0;
    assert k * (10 * failures) == 10 * (k * failures);
    CancelFactor(k, 10 * failures, docs);
  }
}
