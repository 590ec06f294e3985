/** Laws every tally obeys: nothing is lost or counted twice, tallies of two runs merge, and the
    order of the documents does not matter. */
module Conservation {
  import opened Prelude
  import opened Scoring
  import opened Evaluation
  import opened Calibration

  // ------------------------------------------------------------------ sums over keys

  ghost function SumOver<K>(keys: set<K>, g: K -> nat): nat {
    if keys == {} then 0 else
      var k :| k in keys;
      g(k) + SumOver(keys - {k}, g)
  }

  /** Any key may be taken out first. */
  lemma {:induction false} SumTakeOut<K>(keys: set<K>, g: K -> nat, k: K)
    requires k in keys
    ensures SumOver(keys, g) == g(k) + SumOver(keys - {k}, g)
  {
    var j :| j in keys && SumOver(keys, g) == g(j) + SumOver(keys - {j}, g);
    if j != k {
      SumTakeOut(keys - {j}, g, k);
      SumTakeOut(keys - {k}, g, j);
      assert keys - {j} - {k} == keys - {k} - {j};
    }
  }

  lemma {:induction false} SumSame<K>(keys: set<K>, g: K -> nat, h: K -> nat)
    requires forall k :: k in keys ==> g(k) == h(k)
    ensures SumOver(keys, g) == SumOver(keys, h)
  {
    if k :| k in keys {
      SumTakeOut(keys, g, k);
      SumTakeOut(keys, h, k);
      SumSame(keys - {k}, g, h);
    }
  }

  lemma SumBump<K>(keys: set<K>, g: K -> nat, h: K -> nat, k: K)
    requires k in keys
    requires forall j :: j in keys ==> h(j) == g(j) + if j == k then 1 else 0
    ensures SumOver(keys, h) == SumOver(keys, g) + 1
  {
    SumTakeOut(keys, g, k);
    SumTakeOut(keys, h, k);
    SumSame(keys - {k}, g, h);
  }

  function Counts<K, T>(p: K -> (T -> bool), s: seq<T>): K -> nat {
    (k: K) => Count(p(k), s)
  }

  /** When every element q accepts is accepted under exactly one key, and no other element under
      any, the counts by key add up to the count of q. */
  lemma {:induction false} SumOfCounts<K, T>(keys: set<K>, p: K -> (T -> bool), q: T -> bool, s: seq<T>,
                                             keyOf: T -> K)
    requires forall x, k :: x in s && k in keys ==> (p(k)(x) <==> q(x) && k == keyOf(x))
    requires forall x :: x in s && q(x) ==> keyOf(x) in keys
    ensures SumOver(keys, Counts(p, s)) == Count(q, s)
  {
    if s == [] {
      NoCounts(keys, p);
    } else {
      SumOfCounts(keys, p, q, s[1..], keyOf);
      if q(s[0]) {
        SumBump(keys, Counts(p, s[1..]), Counts(p, s), keyOf(s[0]));
      } else {
        SumSame(keys, Counts(p, s), Counts(p, s[1..]));
      }
    }
  }

  lemma {:induction false} NoCounts<K, T>(keys: set<K>, p: K -> (T -> bool))
    ensures SumOver(keys, Counts(p, [])) == 0
  {
    if k :| k in keys {
      SumTakeOut(keys, Counts(p, []), k);
      NoCounts(keys - {k}, p);
    }
  }

  // ------------------------------------------------------------------ conservation

  /** Every score lands in exactly one of the three outcome counters of its field. */
  lemma OutcomesAddUp(f: string, scores: seq<FieldScore>)
    ensures var s := StatOf(f, scores); s.correct + s.wrong + s.missing == s.total
  {
    CountSplit(Scored(f, {Correct, Missing}), Scored(f, {Correct}), Scored(f, {Missing}), scores);
    forall s: FieldScore ensures s.outcome in {Correct, Missing} <==> s.outcome !in {Incorrect, Extra} {
      assert s.outcome.Correct? || s.outcome.Incorrect? || s.outcome.Missing? || s.outcome.Extra?;
    }
    CountSplit(OfField(f), Scored(f, {Correct, Missing}), Scored(f, {Incorrect, Extra}), scores);
  }

  function TotalIn(stats: map<string, FieldStat>): string -> nat {
    (f: string) => if f in stats then stats[f].total else 0
  }

  function CorrectIn(stats: map<string, FieldStat>): string -> nat {
    (f: string) => if f in stats then stats[f].correct else 0
  }

  function CorrectOf(f: string): FieldScore -> bool {
    Scored(f, {Correct})
  }

  lemma FieldsAddUp(names: set<string>, scores: seq<FieldScore>)
    requires forall s :: s in scores ==> s.field in names
    ensures SumOver(names, TotalIn(StatsOf(names, scores))) == |scores|
    ensures SumOver(names, CorrectIn(StatsOf(names, scores))) == Count(IsCorrect, scores)
  {
    SumOfCounts(names, OfField, (s: FieldScore) => true, scores, (s: FieldScore) => s.field);
    CountAll((s: FieldScore) => true, scores);
    SumSame(names, TotalIn(StatsOf(names, scores)), Counts(OfField, scores));
    SumOfCounts(names, CorrectOf, IsCorrect, scores, (s: FieldScore) => s.field);
    SumSame(names, CorrectIn(StatsOf(names, scores)), Counts(CorrectOf, scores));
  }

  /** The entries of the failure-mode table. */
  function Entries(modes: map<Category, map<string, nat>>): set<(Category, string)> {
    set c, f | c in modes && f in modes[c] :: (c, f)
  }

  function EntryOf(modes: map<Category, map<string, nat>>): ((Category, string)) -> nat {
    (e: (Category, string)) => if e.0 in modes && e.1 in modes[e.0] then modes[e.0][e.1] else 0
  }

  function FailingEntry(e: (Category, string)): FieldScore -> bool {
    Failing(e.0, e.1)
  }

  predicate Failed(s: FieldScore) {
    s.category.Some?
  }

  lemma FailureModesAddUp(scores: seq<FieldScore>)
    ensures SumOver(Entries(ModesOf(scores)), EntryOf(ModesOf(scores))) == Count(Failed, scores)
  {
    var modes := ModesOf(scores);
    var keyOf := (s: FieldScore) => (if s.category.Some? then s.category.value else NotFound, s.field);
    forall s | s in scores && Failed(s) ensures keyOf(s) in Entries(modes) {
      assert s.category.value in CategoriesOf(scores) && s.field in FieldsOf(s.category.value, scores);
    }
    SumOfCounts(Entries(modes), FailingEntry, Failed, scores, keyOf);
    SumSame(Entries(modes), EntryOf(modes), Counts(FailingEntry, scores));
  }

  function Correctly(d: DocResult): nat { d.correct }

  function Totally(d: DocResult): nat { d.total }

  lemma {:induction false} DocumentsAddUp(o: Oracle, results: seq<Extraction>, truth: map<string, DocTruth>,
                                          fields: seq<FieldSpec>)
    ensures var t := TallyOf(o, results, truth, fields);
            && Sum(Correctly, t.docResults) == t.overallCorrect
            && Sum(Totally, t.docResults) == t.fieldsEvaluated
            && |t.docResults| == t.docsProcessed
  {
    if results != [] {
      DocumentsAddUp(o, results[1..], truth, fields);
      CountAppend(IsCorrect, ScoresOf(o, truth, fields, results[0]),
                  FlatMap(DocScores(o, truth, fields), results[1..]));
      var summaries := FlatMap(DocSummary(o, truth, fields), results);
      assert summaries[0] == SummaryOf(results[0], ScoresOf(o, truth, fields, results[0]));
      assert summaries[1..] == FlatMap(DocSummary(o, truth, fields), results[1..]);
    }
  }

  lemma BucketsAddUp(ps: seq<Prediction>)
    ensures var b := BucketsOf(ps);
            && b[0].n + b[1].n + b[2].n + b[3].n == |ps|
            && forall i :: 0 <= i < 4 ==> b[i].correct <= b[i].n
  {
    var low := (p: Prediction) => BucketOf(p.confidence) >= 2;
    var mid := (p: Prediction) => BucketOf(p.confidence) >= 1;
    var all := (p: Prediction) => true;
    CountSplit(low, InBucket(2), InBucket(3), ps);
    CountSplit(mid, InBucket(1), low, ps);
    CountSplit(all, InBucket(0), mid, ps);
    CountAll(all, ps);
    forall i: nat | i < 4 ensures Count(RightInBucket(i), ps) <= Count(InBucket(i), ps) {
      CountImplies(RightInBucket(i), InBucket(i), ps);
    }
  }

  predicate IsHighWrong(p: Prediction) {
    p.confidence >= HIGH_CONF && !p.correct
  }

  /** Where f gives one element for each that q accepts in g, so it does over the whole. */
  lemma {:induction false} LengthIsCount<T, U, V>(f: T -> seq<U>, q: V -> bool, g: T -> seq<V>, xs: seq<T>)
    requires forall x :: x in xs ==> |f(x)| == Count(q, g(x))
    ensures |FlatMap(f, xs)| == Count(q, FlatMap(g, xs))
  {
    if xs != [] {
      LengthIsCount(f, q, g, xs[1..]);
      CountAppend(q, g(xs[0]), FlatMap(g, xs[1..]));
    }
  }

  lemma OverconfidentScalar(o: Oracle, t: DocTruth, r: Extraction, spec: FieldSpec)
    ensures |SpecOverconfidence(o, t, r)(spec)| == Count(WrongScore(Confident), ScalarIn(o, t, r)(spec))
  {
    if r.Ok() && spec.fieldType != ListType {
      var s := PlainScore(o, t, r, spec);
      assert ScalarIn(o, t, r)(spec) == [s] && [s][1..] == [];
      assert WrongScore(Confident)(s) <==> s.asserted && Confident(s.confidence) && s.outcome != Correct;
    }
  }

  /** The overconfidence entries are the scalars asserted with 0.85 or more that are not CORRECT. */
  lemma OverconfidenceCounted(o: Oracle, results: seq<Extraction>, truth: map<string, DocTruth>,
                              fields: seq<FieldSpec>)
    ensures |FlatMap(DocOverconfidence(o, truth, fields), results)| ==
              Count(WrongScore(Confident), FlatMap(ScalarScores(o, truth, fields), results))
  {
    forall r | r in results
      ensures |DocOverconfidence(o, truth, fields)(r)| ==
                Count(WrongScore(Confident), ScalarScores(o, truth, fields)(r))
    {
      var t := TruthOf(truth, r);
      forall spec | spec in fields
        ensures |SpecOverconfidence(o, t, r)(spec)| == Count(WrongScore(Confident), ScalarIn(o, t, r)(spec))
      {
        OverconfidentScalar(o, t, r, spec);
      }
      LengthIsCount(SpecOverconfidence(o, t, r), WrongScore(Confident), ScalarIn(o, t, r), fields);
    }
    LengthIsCount(DocOverconfidence(o, truth, fields), WrongScore(Confident), ScalarScores(o, truth, fields), results);
  }

  lemma AllFieldsKnown(o: Oracle, results: seq<Extraction>, truth: map<string, DocTruth>, fields: seq<FieldSpec>)
    requires Usable(fields)
    ensures forall s :: s in FlatMap(DocScores(o, truth, fields), results) ==> s.field in Names(fields)
  {
    forall s | s in FlatMap(DocScores(o, truth, fields), results) ensures s.field in Names(fields) {
      InFlatMap(DocScores(o, truth, fields), results, s);
      var i :| 0 <= i < |results| && s in DocScores(o, truth, fields)(results[i]);
      ScoredFieldsAreKnown(o, TruthOf(truth, results[i]), results[i], fields);
    }
  }

  /** A category marks exactly the scores that are not correct. */
  lemma FailedIsNotCorrect(o: Oracle, results: seq<Extraction>, truth: map<string, DocTruth>, fields: seq<FieldSpec>)
    ensures forall s :: s in FlatMap(DocScores(o, truth, fields), results) ==> (Failed(s) <==> !IsCorrect(s))
  {
    forall s | s in FlatMap(DocScores(o, truth, fields), results) ensures Failed(s) <==> !IsCorrect(s) {
      InFlatMap(DocScores(o, truth, fields), results, s);
      var i :| 0 <= i < |results| && s in DocScores(o, truth, fields)(results[i]);
      var r := results[i];
      var t := TruthOf(truth, r);
      InFlatMap(SpecScore(o, t, r), fields, s);
      var k :| 0 <= k < |fields| && s in SpecScore(o, t, r)(fields[k]);
      if r.Ok() && fields[k].fieldType == ListType {
        AccessorialVerdict(o, r.filename, Find(r.lists, fields[k].name, []), Find(t.lists, fields[k].name, []));
      }
    }
  }

  /** Nothing is lost and nothing is counted twice: by outcome, by field, by document, by failure
      mode, by confidence bucket, and among the confident predictions. */
  lemma Conserved(o: Oracle, results: seq<Extraction>, truth: map<string, DocTruth>, fields: seq<FieldSpec>)
    requires Usable(fields)
    ensures FieldsBalance(TallyOf(o, results, truth, fields), Names(fields))
    ensures DocumentsBalance(TallyOf(o, results, truth, fields))
    ensures PredictionsBalance(TallyOf(o, results, truth, fields),
                               |FlatMap(DocPredictions(o, truth, fields), results)|,
                               Count(Stating(Confident), FlatMap(LeftItems(o, truth, fields), results)))
  {
    var scores := FlatMap(DocScores(o, truth, fields), results);
    AllFieldsKnown(o, results, truth, fields);
    FailedIsNotCorrect(o, results, truth, fields);
    FieldsAddUp(Names(fields), scores);
    forall f | f in Names(fields)
      ensures var s := StatOf(f, scores); s.correct + s.wrong + s.missing == s.total
    {
      OutcomesAddUp(f, scores);
    }
    DocumentsAddUp(o, results, truth, fields);
    FailuresAddUp(scores);
    PredictionsAddUp(o, results, truth, fields);
  }

  /** Per field, correct, wrong and missing make up the total; over all fields, the totals make up the
      overall counters; the failure modes make up the fields that are not correct. */
  ghost predicate FieldsBalance(t: Tally, names: set<string>) {
    && t.fieldStats.Keys == names
    && (forall f :: f in t.fieldStats ==>
          t.fieldStats[f].correct + t.fieldStats[f].wrong + t.fieldStats[f].missing == t.fieldStats[f].total)
    && SumOver(names, TotalIn(t.fieldStats)) == t.fieldsEvaluated
    && SumOver(names, CorrectIn(t.fieldStats)) == t.overallCorrect
    && SumOver(Entries(t.failureModes), EntryOf(t.failureModes)) == t.fieldsEvaluated - t.overallCorrect
  }

  /** The per-document results make up the overall counters. */
  predicate DocumentsBalance(t: Tally) {
    && Sum(Totally, t.docResults) == t.fieldsEvaluated
    && Sum(Correctly, t.docResults) == t.overallCorrect
  }

  /** The buckets make up the predictions; the high-confidence errors are the recorded overconfident
      scalars and the charges left over that were extracted with 0.85 or more. */
  predicate PredictionsBalance(t: Tally, predictions: nat, wrongCharges: nat) {
    && |t.buckets| == BUCKET_COUNT
    && t.buckets[0].n + t.buckets[1].n + t.buckets[2].n + t.buckets[3].n == predictions
    && t.highConfidence.n - t.highConfidence.correct == |t.overconfidence| + wrongCharges
  }

  lemma FailuresAddUp(scores: seq<FieldScore>)
    requires forall s :: s in scores ==> (Failed(s) <==> !IsCorrect(s))
    ensures var modes := ModesOf(scores);
            SumOver(Entries(modes), EntryOf(modes)) == |scores| - Count(IsCorrect, scores)
  {
    FailureModesAddUp(scores);
    CountSplit((s: FieldScore) => true, Failed, IsCorrect, scores);
    CountAll((s: FieldScore) => true, scores);
  }

  lemma PredictionsAddUp(o: Oracle, results: seq<Extraction>, truth: map<string, DocTruth>, fields: seq<FieldSpec>)
    ensures PredictionsBalance(TallyOf(o, results, truth, fields),
                               |FlatMap(DocPredictions(o, truth, fields), results)|,
                               Count(Stating(Confident), FlatMap(LeftItems(o, truth, fields), results)))
  {
    var ps := FlatMap(DocPredictions(o, truth, fields), results);
    BucketsAddUp(ps);
    ConfidentClaims(o, results, truth, fields);
    OverconfidenceCounted(o, results, truth, fields);
  }

  // ------------------------------------------------------------------ merging two runs

  function MergeStat(a: FieldStat, b: FieldStat): FieldStat {
    FieldStat(a.correct + b.correct, a.wrong + b.wrong, a.missing + b.missing, a.total + b.total,
              a.confSum + b.confSum, a.confN + b.confN)
  }

  function MergeBucket(a: Bucket, b: Bucket): Bucket {
    a.(n := a.n + b.n, correct := a.correct + b.correct)
  }

  function MergeRow(a: map<string, nat>, b: map<string, nat>): map<string, nat> {
    map f | f in a.Keys + b.Keys :: (if f in a then a[f] else 0) + (if f in b then b[f] else 0)
  }

  function MergeModes(a: map<Category, map<string, nat>>, b: map<Category, map<string, nat>>)
    : map<Category, map<string, nat>>
  {
    map c | c in a.Keys + b.Keys :: MergeRow(RowIn(a, c), RowIn(b, c))
  }

  function RowIn(m: map<Category, map<string, nat>>, c: Category): map<string, nat> {
    if c in m then m[c] else map[]
  }

  function MergeStats(a: map<string, FieldStat>, b: map<string, FieldStat>): map<string, FieldStat>
    requires a.Keys == b.Keys
  {
    map f | f in a :: MergeStat(a[f], b[f])
  }

  function MergeBuckets(a: seq<Bucket>, b: seq<Bucket>): seq<Bucket>
    requires |a| == |b|
  {
    seq(|a|, i requires 0 <= i < |a| => MergeBucket(a[i], b[i]))
  }

  /** Two tallies over the same fields, put together counter by counter. */
  function Merge(a: Tally, b: Tally): Tally
    requires a.fieldStats.Keys == b.fieldStats.Keys && |a.buckets| == |b.buckets|
  {
    Tally(a.docsProcessed + b.docsProcessed, a.extractionFailures + b.extractionFailures,
          a.fieldsEvaluated + b.fieldsEvaluated, a.overallCorrect + b.overallCorrect,
          MergeStats(a.fieldStats, b.fieldStats), MergeBuckets(a.buckets, b.buckets),
          ConfidenceStat(a.highConfidence.n + b.highConfidence.n,
                         a.highConfidence.correct + b.highConfidence.correct),
          a.overconfidence + b.overconfidence, MergeModes(a.failureModes, b.failureModes),
          a.docResults + b.docResults, a.fieldScores + b.fieldScores)
  }

  lemma StatsMerge(names: set<string>, a: seq<FieldScore>, b: seq<FieldScore>)
    ensures StatsOf(names, a + b) == MergeStats(StatsOf(names, a), StatsOf(names, b))
  {
    forall f | f in names ensures StatOf(f, a + b) == MergeStat(StatOf(f, a), StatOf(f, b)) {
      StatMerge(f, a, b);
    }
  }

  lemma StatMerge(f: string, a: seq<FieldScore>, b: seq<FieldScore>)
    ensures StatOf(f, a + b) == MergeStat(StatOf(f, a), StatOf(f, b))
  {
    CountAppend(Scored(f, {Correct}), a, b);
    CountAppend(Scored(f, {Incorrect, Extra}), a, b);
    CountAppend(Scored(f, {Missing}), a, b);
    CountAppend(OfField(f), a, b);
    CountAppend(AssertedOf(f), a, b);
    TotalAppend(ConfidenceOf(f), a, b);
  }

  lemma BucketsMerge(a: seq<Prediction>, b: seq<Prediction>)
    ensures BucketsOf(a + b) == MergeBuckets(BucketsOf(a), BucketsOf(b))
  {
    forall i: nat | i < BUCKET_COUNT
      ensures BucketsOf(a + b)[i] == MergeBucket(BucketsOf(a)[i], BucketsOf(b)[i])
    {
      CountAppend(InBucket(i), a, b);
      CountAppend(RightInBucket(i), a, b);
    }
  }

  lemma FailingMerge(c: Category, f: string, a: seq<FieldScore>, b: seq<FieldScore>)
    ensures Count(Failing(c, f), a + b) ==
              (if f in ModeOf(c, a) then ModeOf(c, a)[f] else 0) + if f in ModeOf(c, b) then ModeOf(c, b)[f] else 0
  {
    CountAppend(Failing(c, f), a, b);
    if f !in FieldsOf(c, a) {
      CountZero(Failing(c, f), a);
    }
    if f !in FieldsOf(c, b) {
      CountZero(Failing(c, f), b);
    }
  }

  lemma FailingFieldsMerge(c: Category, a: seq<FieldScore>, b: seq<FieldScore>)
    ensures FieldsOf(c, a + b) == FieldsOf(c, a) + FieldsOf(c, b)
  {
    assert forall s :: s in a + b <==> s in a || s in b;
  }

  lemma RowMerge(c: Category, a: seq<FieldScore>, b: seq<FieldScore>)
    ensures ModeOf(c, a + b) == MergeRow(ModeOf(c, a), ModeOf(c, b))
  {
    FailingFieldsMerge(c, a, b);
    forall f | f in FieldsOf(c, a + b) ensures ModeOf(c, a + b)[f] == MergeRow(ModeOf(c, a), ModeOf(c, b))[f] {
      FailingMerge(c, f, a, b);
    }
  }

  lemma ModesMerge(a: seq<FieldScore>, b: seq<FieldScore>)
    ensures ModesOf(a + b) == MergeModes(ModesOf(a), ModesOf(b))
  {
    assert CategoriesOf(a + b) == CategoriesOf(a) + CategoriesOf(b) by {
      assert forall s :: s in a + b <==> s in a || s in b;
    }
    forall c | c in CategoriesOf(a + b) ensures ModesOf(a + b)[c] == MergeModes(ModesOf(a), ModesOf(b))[c] {
      RowMerge(c, a, b);
      if c !in CategoriesOf(a) {
        NoModeYet(c, a);
      }
      if c !in CategoriesOf(b) {
        NoModeYet(c, b);
      }
    }
  }

  /** Evaluating two batches together is evaluating each and merging the reports. */
  lemma Compositional(o: Oracle, a: seq<Extraction>, b: seq<Extraction>, truth: map<string, DocTruth>,
                      fields: seq<FieldSpec>)
    ensures TallyOf(o, a + b, truth, fields) == Merge(TallyOf(o, a, truth, fields), TallyOf(o, b, truth, fields))
  {
    FlatMapAppend(DocScores(o, truth, fields), a, b);
    FlatMapAppend(DocPredictions(o, truth, fields), a, b);
    FlatMapAppend(FailureLine, a, b);
    FlatMapAppend(DocOverconfidence(o, truth, fields), a, b);
    FlatMapAppend(DocSummary(o, truth, fields), a, b);
    var x, y := TallyOf(o, a, truth, fields), TallyOf(o, b, truth, fields);
    CountedMerges(Names(fields), x, y, FlatMap(DocPredictions(o, truth, fields), a),
                  FlatMap(DocPredictions(o, truth, fields), b));
  }

  /** A tally holds exactly what is counted over its own lists and the given predictions. */
  predicate Holds(names: set<string>, t: Tally, predictions: seq<Prediction>) {
    t == Counted(names, t.docsProcessed, t.extractionFailures, t.fieldScores, predictions, t.overconfidence,
                 t.docResults)
  }

  lemma CountedMerges(names: set<string>, a: Tally, b: Tally, pa: seq<Prediction>, pb: seq<Prediction>)
    requires Holds(names, a, pa) && Holds(names, b, pb)
    ensures Merge(a, b) ==
              Counted(names, a.docsProcessed + b.docsProcessed, a.extractionFailures + b.extractionFailures,
                      a.fieldScores + b.fieldScores, pa + pb, a.overconfidence + b.overconfidence,
                      a.docResults + b.docResults)
  {
    CountsMerge(a.fieldScores, b.fieldScores, pa, pb);
    StatsMerge(names, a.fieldScores, b.fieldScores);
  }

  lemma CountsMerge(sa: seq<FieldScore>, sb: seq<FieldScore>, pa: seq<Prediction>, pb: seq<Prediction>)
    ensures Count(IsCorrect, sa + sb) == Count(IsCorrect, sa) + Count(IsCorrect, sb)
    ensures HighOf(pa + pb) == ConfidenceStat(HighOf(pa).n + HighOf(pb).n, HighOf(pa).correct + HighOf(pb).correct)
    ensures BucketsOf(pa + pb) == MergeBuckets(BucketsOf(pa), BucketsOf(pb))
    ensures ModesOf(sa + sb) == MergeModes(ModesOf(sa), ModesOf(sb))
  {
    CountAppend(IsCorrect, sa, sb);
    CountAppend(IsHigh, pa, pb);
    CountAppend(IsHighRight, pa, pb);
    BucketsMerge(pa, pb);
    ModesMerge(sa, sb);
  }

  // ------------------------------------------------------------------ the order of the documents

  lemma StatsReorder(names: set<string>, a: seq<FieldScore>, b: seq<FieldScore>)
    requires multiset(a) == multiset(b)
    ensures StatsOf(names, a) == StatsOf(names, b)
  {
    forall f | f in names ensures StatOf(f, a) == StatOf(f, b) {
      CountReorder(Scored(f, {Correct}), a, b);
      CountReorder(Scored(f, {Incorrect, Extra}), a, b);
      CountReorder(Scored(f, {Missing}), a, b);
      CountReorder(OfField(f), a, b);
      CountReorder(AssertedOf(f), a, b);
      TotalReorder(ConfidenceOf(f), a, b);
    }
  }

  lemma ModesReorder(a: seq<FieldScore>, b: seq<FieldScore>)
    requires multiset(a) == multiset(b)
    ensures ModesOf(a) == ModesOf(b)
  {
    assert forall s :: s in a <==> s in multiset(a);
    assert forall s :: s in b <==> s in multiset(b);
    assert CategoriesOf(a) == CategoriesOf(b);
    forall c | c in CategoriesOf(a) ensures ModeOf(c, a) == ModeOf(c, b) {
      assert FieldsOf(c, a) == FieldsOf(c, b);
      forall f | f in FieldsOf(c, a) ensures Count(Failing(c, f), a) == Count(Failing(c, f), b) {
        CountReorder(Failing(c, f), a, b);
      }
    }
  }

  /** Reordering the documents changes no counter, and only reorders the lists a report keeps. */
  lemma OrderFree(o: Oracle, a: seq<Extraction>, b: seq<Extraction>, truth: map<string, DocTruth>,
                  fields: seq<FieldSpec>)
    requires multiset(a) == multiset(b)
    ensures var s, t := TallyOf(o, a, truth, fields), TallyOf(o, b, truth, fields);
            && s.docsProcessed == t.docsProcessed
            && s.fieldsEvaluated == t.fieldsEvaluated
            && s.overallCorrect == t.overallCorrect
            && s.fieldStats == t.fieldStats
            && s.buckets == t.buckets
            && s.highConfidence == t.highConfidence
            && s.failureModes == t.failureModes
            && multiset(s.extractionFailures) == multiset(t.extractionFailures)
            && multiset(s.overconfidence) == multiset(t.overconfidence)
            && multiset(s.docResults) == multiset(t.docResults)
            && multiset(s.fieldScores) == multiset(t.fieldScores)
  {
    FlatMapReorder(DocScores(o, truth, fields), a, b);
    FlatMapReorder(DocPredictions(o, truth, fields), a, b);
    FlatMapReorder(FailureLine, a, b);
    FlatMapReorder(DocOverconfidence(o, truth, fields), a, b);
    FlatMapReorder(DocSummary(o, truth, fields), a, b);
    var sa, sb := FlatMap(DocScores(o, truth, fields), a), FlatMap(DocScores(o, truth, fields), b);
    var pa, pb := FlatMap(DocPredictions(o, truth, fields), a), FlatMap(DocPredictions(o, truth, fields), b);
    assert |a| == |multiset(a)| && |sa| == |multiset(sa)| && |sb| == |multiset(sb)|;
    CountReorder(IsCorrect, sa, sb);
    StatsReorder(Names(fields), sa, sb);
    ModesReorder(sa, sb);
    BucketsReorder(pa, pb);
  }

  lemma BucketsReorder(a: seq<Prediction>, b: seq<Prediction>)
    requires multiset(a) == multiset(b)
    ensures BucketsOf(a) == BucketsOf(b) && HighOf(a) == HighOf(b)
  {
    forall i: nat | i < BUCKET_COUNT ensures BucketsOf(a)[i] == BucketsOf(b)[i] {
      CountReorder(InBucket(i), a, b);
      CountReorder(RightInBucket(i), a, b);
    }
    CountReorder(IsHigh, a, b);
    CountReorder(IsHighRight, a, b);
  }
}
