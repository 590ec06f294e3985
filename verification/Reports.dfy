/** What a report records, read off the documents it is about. */
module Reports {
  import opened Prelude
  import opened Scoring
  import opened Evaluation
  import opened Calibration
  import Gate

  // ------------------------------------------------------------------ one document

  /** The score a configured field of a document gets: a failed extraction misses it, a list is paired
      up, and a scalar is compared, what is not there being nothing. */
  function ExpectedScore(o: Oracle, truth: map<string, DocTruth>, r: Extraction, spec: FieldSpec): FieldScore {
    var scalars := if r.filename in truth then truth[r.filename].scalars else map[];
    var lists := if r.filename in truth then truth[r.filename].lists else map[];
    var value := if spec.name in scalars then scalars[spec.name] else Null;
    var charges := if spec.name in lists then lists[spec.name] else [];
    if r.status != "OK" then
      FieldScore(r.filename, spec.name, Missing, 0.0,
                 if spec.fieldType == ListType then Charges(charges) else Scalar(value),
                 Scalar(Null), Some(ModelError), Some("extraction failed"), false)
    else if spec.fieldType == ListType then
      AccessorialScore(o, r.filename, if spec.name in r.lists then r.lists[spec.name] else [], charges).0
    else
      ScoreScalar(o, r.filename, spec.fieldType, spec.name,
                  if spec.name in r.scalars then r.scalars[spec.name] else ScalarField(Null, 0.0, None), value)
  }

  lemma {:induction false} ScoredInOrder(o: Oracle, t: DocTruth, r: Extraction, fields: seq<FieldSpec>, k: nat)
    requires k < |fields|
    ensures var scores := FlatMap(SpecScore(o, t, r), fields);
            |scores| == |fields| && [scores[k]] == SpecScore(o, t, r)(fields[k])
  {
    Gate.OneScoreEach(o, t, r, fields);
    if k > 0 {
      ScoredInOrder(o, t, r, fields[1..], k - 1);
    }
  }

  /** A document is scored field by field, in order. */
  lemma DocumentScored(o: Oracle, truth: map<string, DocTruth>, fields: seq<FieldSpec>, r: Extraction, k: nat)
    requires k < |fields|
    ensures var scores := DocScores(o, truth, fields)(r);
            |scores| == |fields| && scores[k] == ExpectedScore(o, truth, r, fields[k])
  {
    ScoredInOrder(o, TruthOf(truth, r), r, fields, k);
    FieldScored(o, truth, r, fields[k]);
  }

  lemma FieldScored(o: Oracle, truth: map<string, DocTruth>, r: Extraction, spec: FieldSpec)
    ensures SpecScore(o, TruthOf(truth, r), r)(spec) == [ExpectedScore(o, truth, r, spec)]
  {
  }

  /** A document's own result: its name and status, how many of its fields are right, and exactly its
      wrong fields, each with its category. */
  ghost predicate Summarizes(d: DocResult, r: Extraction, scores: seq<FieldScore>) {
    && d.filename == r.filename && d.status == r.status && d.total == |scores|
    && d.correct == Count(Gate.IsRight, scores) && |d.failures| == Count(HasCategory, scores)
    && forall x :: x in d.failures <==> ListedIn(x, scores)
  }

  predicate HasCategory(s: FieldScore) {
    s.category.Some?
  }

  predicate ListedIn(x: (string, Category), scores: seq<FieldScore>) {
    exists k :: 0 <= k < |scores| && scores[k].field == x.0 && scores[k].category == Some(x.1)
  }

  lemma {:induction false} FailuresListed(scores: seq<FieldScore>)
    ensures |FlatMap(FailureNote, scores)| == Count(HasCategory, scores)
    ensures forall x :: x in FlatMap(FailureNote, scores) <==> ListedIn(x, scores)
  {
    if scores != [] {
      FailuresListed(scores[1..]);
      forall x ensures ListedIn(x, scores) <==> x in FailureNote(scores[0]) || ListedIn(x, scores[1..]) {
        if k :| 0 <= k < |scores| && scores[k].field == x.0 && scores[k].category == Some(x.1) {
          assert k > 0 ==> scores[1..][k - 1] == scores[k];
        }
        if k :| 0 <= k < |scores[1..]| && scores[1..][k].field == x.0 && scores[1..][k].category == Some(x.1) {
          assert scores[k + 1] == scores[1..][k];
        }
      }
    }
  }

  /** The report of a single document. Reports of more are put together from these, list by list. */
  lemma OneDocument(o: Oracle, truth: map<string, DocTruth>, fields: seq<FieldSpec>, r: Extraction)
    ensures var t, scores := TallyOf(o, [r], truth, fields), DocScores(o, truth, fields)(r);
            && t.docsProcessed == 1 && t.fieldScores == scores
            && t.extractionFailures == (if r.status == "OK" then [] else [r.filename + ": " + r.error])
            && |t.docResults| == 1 && Summarizes(t.docResults[0], r, scores)
  {
    var scores := DocScores(o, truth, fields)(r);
    FlatMapOne(FailureLine, r);
    FlatMapOne(DocScores(o, truth, fields), r);
    FlatMapOne(DocSummary(o, truth, fields), r);
    FailuresListed(scores);
    CountSame(IsCorrect, Gate.IsRight, scores);
  }

  // ------------------------------------------------------------------ overconfidence

  /** An entry about a wrong value asserted with 0.85 or more, with what was extracted and what is true. */
  predicate ReportsError(x: Overconfident, s: FieldScore) {
    && s.asserted && s.confidence >= 0.85 && s.outcome != Correct
    && x == Overconfident(s.filename, s.field, s.confidence, s.extracted, s.truth)
  }

  ghost predicate ReportsSome(x: Overconfident, scores: seq<FieldScore>) {
    exists s :: s in scores && ReportsError(x, s)
  }

  lemma SpecReports(o: Oracle, t: DocTruth, r: Extraction, spec: FieldSpec, x: Overconfident)
    ensures x in SpecOverconfidence(o, t, r)(spec) <==> ReportsSome(x, SpecScore(o, t, r)(spec))
  {
    var s := SpecScore(o, t, r)(spec)[0];
    assert SpecScore(o, t, r)(spec) == [s];
    assert ReportsSome(x, [s]) <==> ReportsError(x, s);
  }

  lemma {:induction false} ReportedThroughout<T>(f: T -> seq<Overconfident>, g: T -> seq<FieldScore>, xs: seq<T>,
                                                 x: Overconfident)
    requires forall y :: y in xs ==> (x in f(y) <==> ReportsSome(x, g(y)))
    ensures x in FlatMap(f, xs) <==> ReportsSome(x, FlatMap(g, xs))
  {
    if xs == [] {
      assert !ReportsSome(x, []);
    } else {
      ReportedThroughout(f, g, xs[1..], x);
      ReportsEither(x, g(xs[0]), FlatMap(g, xs[1..]));
    }
  }

  lemma ReportsEither(x: Overconfident, a: seq<FieldScore>, b: seq<FieldScore>)
    ensures ReportsSome(x, a + b) <==> ReportsSome(x, a) || ReportsSome(x, b)
  {
    assert forall s :: s in a + b <==> s in a || s in b;
  }

  /** The overconfidence entries are exactly the wrong values asserted with 0.85 or more. */
  lemma OverconfidenceExactly(o: Oracle, results: seq<Extraction>, truth: map<string, DocTruth>,
                              fields: seq<FieldSpec>, x: Overconfident)
    ensures var t := TallyOf(o, results, truth, fields);
            x in t.overconfidence <==> ReportsSome(x, t.fieldScores)
  {
    forall r | r in results
      ensures x in DocOverconfidence(o, truth, fields)(r) <==> ReportsSome(x, DocScores(o, truth, fields)(r))
    {
      var t := TruthOf(truth, r);
      forall spec | spec in fields
        ensures x in SpecOverconfidence(o, t, r)(spec) <==> ReportsSome(x, SpecScore(o, t, r)(spec))
      {
        SpecReports(o, t, r, spec, x);
      }
      ReportedThroughout(SpecOverconfidence(o, t, r), SpecScore(o, t, r), fields, x);
    }
    ReportedThroughout(DocOverconfidence(o, truth, fields), DocScores(o, truth, fields), results, x);
  }

  // ------------------------------------------------------------------ averages

  ghost predicate StatedBetween(f: string, scores: seq<FieldScore>, lo: real, hi: real) {
    forall s :: s in scores && s.field == f && s.asserted ==> lo <= s.confidence <= hi
  }

  /** What n values between lo and hi can sum up to. */
  predicate SumsBetween(total: real, n: nat, lo: real, hi: real) {
    lo * n as real <= total <= hi * n as real
  }

  lemma OneMoreValue(total: real, n: nat, w: real, lo: real, hi: real)
    requires SumsBetween(total, n, lo, hi) && lo <= w <= hi
    ensures SumsBetween(w + total, n + 1, lo, hi)
  {
    assert (n + 1) as real == n as real + 1.0;
    assert lo * (n as real + 1.0) == lo * n as real + lo;
    assert hi * (n as real + 1.0) == hi * n as real + hi;
  }

  /** A weight that lies between two bounds where p holds and is nothing elsewhere sums up between them. */
  lemma {:induction false} TotalBetween<T>(w: T -> real, p: T -> bool, s: seq<T>, lo: real, hi: real)
    requires forall x :: x in s ==> if p(x) then lo <= w(x) <= hi else w(x) == 0.0
    ensures SumsBetween(Total(w, s), Count(p, s), lo, hi)
  {
    if s != [] {
      TotalBetween(w, p, s[1..], lo, hi);
      assert s[0] in s;
      if p(s[0]) {
        OneMoreValue(Total(w, s[1..]), Count(p, s[1..]), w(s[0]), lo, hi);
      }
    }
  }

  /** A field's confidences add up to something between their number times the least and times the
      greatest stated for it, so its average lies between those. */
  lemma AverageBetween(f: string, scores: seq<FieldScore>, lo: real, hi: real)
    requires StatedBetween(f, scores, lo, hi)
    ensures SumsBetween(StatOf(f, scores).confSum, StatOf(f, scores).confN, lo, hi)
  {
    TotalBetween(ConfidenceOf(f), AssertedOf(f), scores, lo, hi);
  }
}
