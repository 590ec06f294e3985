/** What the predictions of a run are made of: its asserted scalars and its extracted charges, each with
    the confidence it was stated with. */
module Calibration {
  import opened Prelude
  import opened Matching
  import opened Scoring
  import opened Evaluation

  // ------------------------------------------------------------------ one charge list

  function Claimed(p: Prediction): seq<real> {
    [p.confidence]
  }

  function StatedBy(e: Item): seq<real> {
    [e.confidence]
  }

  /** A right claim for each paired item, with the item's confidence. */
  function RightClaims(hits: seq<(Charge, Item)>): (ps: seq<Prediction>)
    ensures |ps| == |hits|
    ensures forall k :: 0 <= k < |hits| ==> ps[k].correct && ps[k].confidence == hits[k].1.confidence
  {
    seq(|hits|, k requires 0 <= k < |hits| => Prediction(hits[k].1.confidence, true))
  }

  /** A wrong claim for each item left over, with the item's confidence. */
  function WrongClaims(extra: seq<Item>): (ps: seq<Prediction>)
    ensures |ps| == |extra|
    ensures forall k :: 0 <= k < |extra| ==> !ps[k].correct && ps[k].confidence == extra[k].confidence
  {
    seq(|extra|, k requires 0 <= k < |extra| => Prediction(extra[k].confidence, false))
  }

  lemma ClaimsMade(hits: seq<(Charge, Item)>, extra: seq<Item>)
    ensures FlatMap(Right, hits) == RightClaims(hits) && FlatMap(Wrong, extra) == WrongClaims(extra)
  {
    FlatMapSingles(Right, hits, RightClaims(hits));
    FlatMapSingles(Wrong, extra, WrongClaims(extra));
  }

  lemma {:induction false} RightsStated(hits: seq<(Charge, Item)>)
    ensures FlatMap(Claimed, FlatMap(Right, hits)) == FlatMap(StatedBy, Rights(hits))
  {
    if hits != [] {
      RightsStated(hits[1..]);
      FlatMapCons(Claimed, Prediction(hits[0].1.confidence, true), FlatMap(Right, hits[1..]));
      FlatMapCons(StatedBy, hits[0].1, Rights(hits[1..]));
    }
  }

  lemma {:induction false} WrongsStated(extra: seq<Item>)
    ensures FlatMap(Claimed, FlatMap(Wrong, extra)) == FlatMap(StatedBy, extra)
  {
    if extra != [] {
      WrongsStated(extra[1..]);
      FlatMapCons(Claimed, Prediction(extra[0].confidence, false), FlatMap(Wrong, extra[1..]));
    }
  }

  /** Every extracted item is predicted once, with its own confidence: right if it is paired, wrong if
      it is left over. */
  lemma ItemsArePredicted(o: Oracle, filename: string, extracted: seq<Item>, truth: seq<Charge>)
    ensures var r := Greedy(Compatible(o), truth, extracted);
            var ps := AccessorialScore(o, filename, extracted, truth).1;
            && ps == RightClaims(r.hits) + WrongClaims(r.remaining)
            && multiset(FlatMap(Claimed, ps)) == multiset(FlatMap(StatedBy, extracted))
  {
    var r := Greedy(Compatible(o), truth, extracted);
    ClaimsMade(r.hits, r.remaining);
    GreedyIsMaximal(Compatible(o), truth, extracted);
    ClaimsState(r.hits, r.remaining, extracted);
  }

  lemma ClaimsState(hits: seq<(Charge, Item)>, extra: seq<Item>, items: seq<Item>)
    requires multiset(Rights(hits)) + multiset(extra) == multiset(items)
    ensures multiset(FlatMap(Claimed, FlatMap(Right, hits) + FlatMap(Wrong, extra))) ==
              multiset(FlatMap(StatedBy, items))
  {
    RightsStated(hits);
    WrongsStated(extra);
    FlatMapAppend(Claimed, FlatMap(Right, hits), FlatMap(Wrong, extra));
    FlatMapAppend(StatedBy, Rights(hits), extra);
    FlatMapReorder(StatedBy, Rights(hits) + extra, items);
  }

  // ------------------------------------------------------------------ counting claims by confidence

  function Rightly(q: real -> bool): Prediction -> bool {
    (p: Prediction) => q(p.confidence) && p.correct
  }

  function Wrongly(q: real -> bool): Prediction -> bool {
    (p: Prediction) => q(p.confidence) && !p.correct
  }

  function Stating(q: real -> bool): Item -> bool {
    (e: Item) => q(e.confidence)
  }

  /** A value asserted with such a confidence and scored CORRECT. */
  function RightScore(q: real -> bool): FieldScore -> bool {
    (s: FieldScore) => s.asserted && q(s.confidence) && s.outcome == Correct
  }

  function WrongScore(q: real -> bool): FieldScore -> bool {
    (s: FieldScore) => s.asserted && q(s.confidence) && s.outcome != Correct
  }

  lemma {:induction false} RightsCounted(q: real -> bool, hits: seq<(Charge, Item)>)
    ensures Count(Rightly(q), FlatMap(Right, hits)) == Count(Stating(q), Rights(hits))
    ensures Count(Wrongly(q), FlatMap(Right, hits)) == 0
  {
    if hits != [] {
      var rest := FlatMap(Right, hits[1..]);
      RightsCounted(q, hits[1..]);
      CountAppend(Rightly(q), Right(hits[0]), rest);
      CountAppend(Wrongly(q), Right(hits[0]), rest);
    }
  }

  lemma {:induction false} WrongsCounted(q: real -> bool, extra: seq<Item>)
    ensures Count(Wrongly(q), FlatMap(Wrong, extra)) == Count(Stating(q), extra)
    ensures Count(Rightly(q), FlatMap(Wrong, extra)) == 0
  {
    if extra != [] {
      var rest := FlatMap(Wrong, extra[1..]);
      WrongsCounted(q, extra[1..]);
      CountAppend(Wrongly(q), Wrong(extra[0]), rest);
      CountAppend(Rightly(q), Wrong(extra[0]), rest);
    }
  }

  // ------------------------------------------------------------------ the claims of a run

  function PairingOf(o: Oracle, t: DocTruth, r: Extraction, spec: FieldSpec): Pairing<Charge, Item> {
    Greedy(Compatible(o), Find(t.lists, spec.name, []), Find(r.lists, spec.name, []))
  }

  /** The items of a successful extraction's charge list that are paired with a true charge. */
  function PairedIn(o: Oracle, t: DocTruth, r: Extraction): FieldSpec -> seq<Item> {
    (spec: FieldSpec) => if r.Ok() && spec.fieldType == ListType then Rights(PairingOf(o, t, r, spec).hits) else []
  }

  function LeftIn(o: Oracle, t: DocTruth, r: Extraction): FieldSpec -> seq<Item> {
    (spec: FieldSpec) => if r.Ok() && spec.fieldType == ListType then PairingOf(o, t, r, spec).remaining else []
  }

  function ScalarIn(o: Oracle, t: DocTruth, r: Extraction): FieldSpec -> seq<FieldScore> {
    (spec: FieldSpec) => if r.Ok() && spec.fieldType != ListType then [PlainScore(o, t, r, spec)] else []
  }

  /** The extracted charges of a document that are paired up. */
  function PairedItems(o: Oracle, truth: map<string, DocTruth>, fields: seq<FieldSpec>): Extraction -> seq<Item> {
    (r: Extraction) => FlatMap(PairedIn(o, TruthOf(truth, r), r), fields)
  }

  /** The extracted charges of a document that are left over. */
  function LeftItems(o: Oracle, truth: map<string, DocTruth>, fields: seq<FieldSpec>): Extraction -> seq<Item> {
    (r: Extraction) => FlatMap(LeftIn(o, TruthOf(truth, r), r), fields)
  }

  /** The scalar scores of a document that could be extracted. */
  function ScalarScores(o: Oracle, truth: map<string, DocTruth>, fields: seq<FieldSpec>)
    : Extraction -> seq<FieldScore>
  {
    (r: Extraction) => FlatMap(ScalarIn(o, TruthOf(truth, r), r), fields)
  }

  lemma SpecClaims(o: Oracle, t: DocTruth, r: Extraction, spec: FieldSpec, q: real -> bool)
    ensures Count(Rightly(q), SpecPredictions(o, t, r)(spec)) ==
              Count(RightScore(q), ScalarIn(o, t, r)(spec)) + Count(Stating(q), PairedIn(o, t, r)(spec))
    ensures Count(Wrongly(q), SpecPredictions(o, t, r)(spec)) ==
              Count(WrongScore(q), ScalarIn(o, t, r)(spec)) + Count(Stating(q), LeftIn(o, t, r)(spec))
  {
    if r.Ok() && spec.fieldType == ListType {
      ListClaims(PairingOf(o, t, r, spec), q);
    } else if r.Ok() {
      ScalarClaims(PlainScore(o, t, r, spec), q);
    }
  }

  lemma ListClaims(p: Pairing<Charge, Item>, q: real -> bool)
    ensures var ps := FlatMap(Right, p.hits) + FlatMap(Wrong, p.remaining);
            && Count(Rightly(q), ps) == Count(Stating(q), Rights(p.hits))
            && Count(Wrongly(q), ps) == Count(Stating(q), p.remaining)
  {
    var rights, wrongs := FlatMap(Right, p.hits), FlatMap(Wrong, p.remaining);
    RightsCounted(q, p.hits);
    WrongsCounted(q, p.remaining);
    CountAppend(Rightly(q), rights, wrongs);
    CountAppend(Wrongly(q), rights, wrongs);
  }

  lemma ScalarClaims(s: FieldScore, q: real -> bool)
    ensures Count(Rightly(q), ScalarPrediction(s)) == Count(RightScore(q), [s])
    ensures Count(Wrongly(q), ScalarPrediction(s)) == Count(WrongScore(q), [s])
  {
  }

  lemma DocClaims(o: Oracle, truth: map<string, DocTruth>, fields: seq<FieldSpec>, r: Extraction, q: real -> bool)
    ensures Count(Rightly(q), DocPredictions(o, truth, fields)(r)) ==
              Count(RightScore(q), ScalarScores(o, truth, fields)(r)) +
              Count(Stating(q), PairedItems(o, truth, fields)(r))
    ensures Count(Wrongly(q), DocPredictions(o, truth, fields)(r)) ==
              Count(WrongScore(q), ScalarScores(o, truth, fields)(r)) +
              Count(Stating(q), LeftItems(o, truth, fields)(r))
  {
    var t := TruthOf(truth, r);
    forall spec | spec in fields
      ensures Count(Rightly(q), SpecPredictions(o, t, r)(spec)) ==
                Count(RightScore(q), ScalarIn(o, t, r)(spec)) + Count(Stating(q), PairedIn(o, t, r)(spec))
      ensures Count(Wrongly(q), SpecPredictions(o, t, r)(spec)) ==
                Count(WrongScore(q), ScalarIn(o, t, r)(spec)) + Count(Stating(q), LeftIn(o, t, r)(spec))
    {
      SpecClaims(o, t, r, spec, q);
    }
    CountTwoParts(Rightly(q), SpecPredictions(o, t, r), RightScore(q), ScalarIn(o, t, r),
                  Stating(q), PairedIn(o, t, r), fields);
    CountTwoParts(Wrongly(q), SpecPredictions(o, t, r), WrongScore(q), ScalarIn(o, t, r),
                  Stating(q), LeftIn(o, t, r), fields);
  }

  /** Whatever range of confidences one looks at: the right predictions in it are the right asserted
      scalars and the paired items, and the wrong ones the wrong asserted scalars and the items left
      over. */
  lemma ClaimsAddUp(o: Oracle, results: seq<Extraction>, truth: map<string, DocTruth>, fields: seq<FieldSpec>,
                    q: real -> bool)
    ensures var ps, scalars := FlatMap(DocPredictions(o, truth, fields), results),
                               FlatMap(ScalarScores(o, truth, fields), results);
            && Count(Rightly(q), ps) ==
                 Count(RightScore(q), scalars) + Count(Stating(q), FlatMap(PairedItems(o, truth, fields), results))
            && Count(Wrongly(q), ps) ==
                 Count(WrongScore(q), scalars) + Count(Stating(q), FlatMap(LeftItems(o, truth, fields), results))
  {
    forall r | r in results
      ensures Count(Rightly(q), DocPredictions(o, truth, fields)(r)) ==
                Count(RightScore(q), ScalarScores(o, truth, fields)(r)) +
                Count(Stating(q), PairedItems(o, truth, fields)(r))
      ensures Count(Wrongly(q), DocPredictions(o, truth, fields)(r)) ==
                Count(WrongScore(q), ScalarScores(o, truth, fields)(r)) +
                Count(Stating(q), LeftItems(o, truth, fields)(r))
    {
      DocClaims(o, truth, fields, r, q);
    }
    CountTwoParts(Rightly(q), DocPredictions(o, truth, fields), RightScore(q), ScalarScores(o, truth, fields),
                  Stating(q), PairedItems(o, truth, fields), results);
    CountTwoParts(Wrongly(q), DocPredictions(o, truth, fields), WrongScore(q), ScalarScores(o, truth, fields),
                  Stating(q), LeftItems(o, truth, fields), results);
  }

  // ------------------------------------------------------------------ the buckets

  /** The confidences that bucket number i is for. */
  function Range(i: nat): real -> bool {
    (c: real) =>
      if i == 0 then 0.90 <= c < 1.01
      else if i == 1 then 0.70 <= c < 0.90
      else if i == 2 then 0.50 <= c < 0.70
      else c < 0.50 || c >= 1.01
  }

  /** The buckets hold what was claimed in their ranges, the last one also what lies outside them all,
      and the high-confidence count what was claimed with 0.85 or more. */
  lemma BucketsHoldClaims(o: Oracle, results: seq<Extraction>, truth: map<string, DocTruth>, fields: seq<FieldSpec>,
                          i: nat)
    requires i < 4
    ensures var b := TallyOf(o, results, truth, fields).buckets[i];
            var scalars := FlatMap(ScalarScores(o, truth, fields), results);
            && b.correct == Count(RightScore(Range(i)), scalars) +
                            Count(Stating(Range(i)), FlatMap(PairedItems(o, truth, fields), results))
            && b.n - b.correct == Count(WrongScore(Range(i)), scalars) +
                                  Count(Stating(Range(i)), FlatMap(LeftItems(o, truth, fields), results))
            && (i < 3 ==> forall c :: Range(i)(c) <==> b.lo <= c < b.hi)
  {
    ClaimsAddUp(o, results, truth, fields, Range(i));
    RangeCounted(FlatMap(DocPredictions(o, truth, fields), results), i);
  }

  lemma RangeCounted(ps: seq<Prediction>, i: nat)
    requires i < 4
    ensures var b := BucketsOf(ps)[i];
            b.correct == Count(Rightly(Range(i)), ps) && b.n - b.correct == Count(Wrongly(Range(i)), ps)
  {
    CountSame(RightInBucket(i), Rightly(Range(i)), ps);
    CountSplit(InBucket(i), Rightly(Range(i)), Wrongly(Range(i)), ps);
  }

  /** Stated with a confidence of 0.85 or more. */
  predicate Confident(c: real) {
    c >= 0.85
  }

  lemma ConfidentClaims(o: Oracle, results: seq<Extraction>, truth: map<string, DocTruth>, fields: seq<FieldSpec>)
    ensures var h := TallyOf(o, results, truth, fields).highConfidence;
            var scalars := FlatMap(ScalarScores(o, truth, fields), results);
            && h.correct == Count(RightScore(Confident), scalars) +
                            Count(Stating(Confident), FlatMap(PairedItems(o, truth, fields), results))
            && h.n - h.correct == Count(WrongScore(Confident), scalars) +
                                  Count(Stating(Confident), FlatMap(LeftItems(o, truth, fields), results))
  {
    ClaimsAddUp(o, results, truth, fields, Confident);
    ConfidentCounted(FlatMap(DocPredictions(o, truth, fields), results));
  }

  lemma ConfidentCounted(ps: seq<Prediction>)
    ensures HighOf(ps).correct == Count(Rightly(Confident), ps)
    ensures HighOf(ps).n - HighOf(ps).correct == Count(Wrongly(Confident), ps)
  {
    forall p: Prediction
      ensures Rightly(Confident)(p) <==> IsHighRight(p)
      ensures Wrongly(Confident)(p) <==> IsHigh(p) && !IsHighRight(p)
    {
      assert Confident(p.confidence) <==> p.confidence >= HIGH_CONF;
    }
    CountSame(IsHighRight, Rightly(Confident), ps);
    CountSplit(IsHigh, Rightly(Confident), Wrongly(Confident), ps);
  }
}
