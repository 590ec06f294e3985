/** What the score of a scalar field says, in terms of the values it compares. */
module Verdicts {
  import opened Prelude
  import opened PyText
  import opened Numerals
  import opened Matching
  import opened Scoring
  import opened Readings

  /** For every type of field: with only one side present the verdict is MISSING or EXTRA, with neither
      CORRECT, with both CORRECT or INCORRECT; and the score records what it was given. */
  lemma PresenceDecides(o: Oracle, filename: string, fieldType: FieldType, name: string, e: ScalarField, truth: Value)
    ensures var s := ScoreScalar(o, filename, fieldType, name, e, truth);
            && (s.outcome == Missing <==> Says(truth) && !Says(e.value))
            && (s.outcome == Extra <==> !Says(truth) && Says(e.value))
            && (!Says(truth) && !Says(e.value) ==> s.outcome == Correct)
            && (s.asserted <==> Says(e.value))
            && s.filename == filename && s.field == name && s.confidence == e.confidence
            && s.truth == Scalar(truth) && s.extracted == Scalar(e.value)
  {
    SaysIsPresent(truth);
    SaysIsPresent(e.value);
  }

  lemma NumbersDecide(o: Oracle, filename: string, fieldType: FieldType, name: string, e: ScalarField, truth: Value,
                      x: real, y: real)
    requires fieldType in {DecimalType, IntegerType} && Says(truth) && Says(e.value)
    requires ParseNumber(truth) == Some(x) && ParseNumber(e.value) == Some(y)
    ensures var s := ScoreScalar(o, filename, fieldType, name, e, truth);
            && (s.outcome == Correct <==> -0.01 <= x - y <= 0.01)
            && s.outcome in {Correct, Incorrect} && s.category != Some(FormatError)
  {
    SaysIsPresent(truth);
    SaysIsPresent(e.value);
  }

  /** Amounts in whole cents, written as numbers or as dollars: equal ones are CORRECT, ones two or more
      cents apart INCORRECT. */
  lemma AmountsDecide(o: Oracle, filename: string, fieldType: FieldType, name: string, e: ScalarField, truth: Value,
                      a: int, b: int)
    requires fieldType in {DecimalType, IntegerType} && IsAmount(truth, a) && IsAmount(e.value, b)
    ensures var s := ScoreScalar(o, filename, fieldType, name, e, truth);
            && (a == b ==> s.outcome == Correct)
            && (a - b >= 2 || b - a >= 2 ==> s.outcome == Incorrect)
  {
    AmountReads(truth, a);
    AmountReads(e.value, b);
    CentsDecide(o, filename, fieldType, name, e, truth, a, b);
  }

  lemma CentsDecide(o: Oracle, filename: string, fieldType: FieldType, name: string, e: ScalarField, truth: Value,
                    a: int, b: int)
    requires fieldType in {DecimalType, IntegerType} && Says(truth) && Says(e.value)
    requires ParseNumber(truth) == Some(a as real / 100.0) && ParseNumber(e.value) == Some(b as real / 100.0)
    ensures var s := ScoreScalar(o, filename, fieldType, name, e, truth);
            && (a == b ==> s.outcome == Correct)
            && (a - b >= 2 || b - a >= 2 ==> s.outcome == Incorrect)
  {
    NumbersDecide(o, filename, fieldType, name, e, truth, a as real / 100.0, b as real / 100.0);
    CentsApart(a, b);
  }

  lemma CentsApart(a: int, b: int)
    ensures var x, y := a as real / 100.0, b as real / 100.0;
            && (a == b ==> -0.01 <= x - y <= 0.01)
            && (a - b >= 2 || b - a >= 2 ==> !(-0.01 <= x - y <= 0.01))
  {
  }

  /** Where either side cannot be read as a number the verdict is INCORRECT, a format error when it is the
      extracted one. */
  lemma UnreadableAmount(o: Oracle, filename: string, fieldType: FieldType, name: string, e: ScalarField, truth: Value)
    requires fieldType in {DecimalType, IntegerType} && Says(truth) && Says(e.value)
    requires ParseNumber(truth).None? || ParseNumber(e.value).None?
    ensures var s := ScoreScalar(o, filename, fieldType, name, e, truth);
            s.outcome == Incorrect && (ParseNumber(e.value).None? ==> s.category == Some(FormatError))
  {
    SaysIsPresent(truth);
    SaysIsPresent(e.value);
  }

  /** Two dates are CORRECT exactly when the library reads the same date from both, or none from
      either; a value it cannot read is otherwise a format error. */
  lemma DatesDecide(o: Oracle, filename: string, name: string, e: ScalarField, truth: Value)
    requires Says(truth) && Says(e.value) && !AllWhite(Show(truth)) && !AllWhite(Show(e.value))
    ensures var s := ScoreScalar(o, filename, DateType, name, e, truth);
            var a, b := o.parseDate(Strip(Show(truth))), o.parseDate(Strip(Show(e.value)));
            && (s.outcome == Correct <==> a == b) && s.outcome in {Correct, Incorrect}
            && (s.outcome == Incorrect ==> (s.category == Some(FormatError) <==> b.None?))
  {
    SaysIsPresent(truth);
    SaysIsPresent(e.value);
    SaysIsPresent(Text(Show(truth)));
    SaysIsPresent(Text(Show(e.value)));
  }

  // ------------------------------------------------------------------ texts

  /** An identifier is CORRECT exactly when the normalized texts are equal, and its note is left alone. */
  lemma IdentifiersDecide(o: Oracle, filename: string, name: string, e: ScalarField, truth: Value)
    requires Says(truth) && Says(e.value) && (name == "load_or_pro_number" || name == "invoice_number")
    ensures var s := ScoreScalar(o, filename, StringType, name, e, truth);
            && (s.outcome == Correct <==> Norm(Show(truth)) == Norm(Show(e.value)))
            && s.outcome in {Correct, Incorrect} && s.note == e.note
  {
    SaysIsPresent(truth);
    SaysIsPresent(e.value);
  }

  /** a is written somewhere in b. */
  ghost predicate Within(a: string, b: string) {
    exists i, j :: 0 <= i <= j <= |b| && b[i..j] == a
  }

  lemma WithinIsContains(a: string, b: string)
    ensures Within(a, b) <==> Contains(b, a)
  {
    if Contains(b, a) {
      var k := FindFrom(b, a, 0).value;
      assert b[k..k + |a|] == a;
    }
    if i, j :| 0 <= i <= j <= |b| && b[i..j] == a {
      assert HasAt(b, a, i);
    }
  }

  /** Both normalized names say something, and one is written within the other, or the similarity
      measure accepts them in this order. */
  ghost predicate NearlySame(o: Oracle, a: string, b: string) {
    a != "" && b != "" && (Within(a, b) || Within(b, a) || o.similar(a, b))
  }

  lemma MatchExactly(o: Oracle, x: string, y: string)
    ensures var a, b, m := Norm(x), Norm(y), StringMatch(o, x, y);
            && (m == Exact <==> a == b)
            && (m == Near <==> a != b && NearlySame(o, a, b))
  {
    WithinIsContains(Norm(x), Norm(y));
    WithinIsContains(Norm(y), Norm(x));
  }

  /** A descriptive text is CORRECT exactly when the normalized texts are equal or nearly the same; in
      the latter case "near-match" is added to its note. */
  lemma DescriptionsDecide(o: Oracle, filename: string, name: string, e: ScalarField, truth: Value)
    requires Says(truth) && Says(e.value) && name != "load_or_pro_number" && name != "invoice_number"
    ensures var s := ScoreScalar(o, filename, StringType, name, e, truth);
            var a, b := Norm(Show(truth)), Norm(Show(e.value));
            && (s.outcome == Correct <==> a == b || NearlySame(o, a, b))
            && s.outcome in {Correct, Incorrect}
            && s.note == if a == b || !NearlySame(o, a, b) then e.note
                         else if e.note.None? || e.note == Some("") then Some("near-match")
                         else Some(e.note.value + " | " + "near-match")
  {
    SaysIsPresent(truth);
    SaysIsPresent(e.value);
    MatchExactly(o, Show(truth), Show(e.value));
    assert "" + NEAR == NEAR;
  }

  // ------------------------------------------------------------------ categories

  /** The note, in small letters, holds the word. */
  ghost predicate Notes(note: Option<string>, word: string) {
    note.Some? && Contains(Lower(note.value), word)
  }

  /** Neither an unreadable number for a numeric field, nor an unreadable date. */
  predicate IsReadable(o: Oracle, fieldType: FieldType, v: Value) {
    && (fieldType in {DecimalType, IntegerType} ==> ParseNumber(v).Some?)
    && (fieldType == DateType ==> NormalizeDate(o, v).Some?)
  }

  /** The note speaks of another page. */
  ghost predicate NotesPage(note: Option<string>) {
    Notes(note, "page") || Notes(note, "attachment")
  }

  ghost predicate NotesLabel(note: Option<string>) {
    Notes(note, "label") || Notes(note, "assumed") || Notes(note, "guess") || Notes(note, "non-standard") ||
    Notes(note, "unclear")
  }

  ghost predicate NotesLayout(note: Option<string>) {
    Notes(note, "layout") || Notes(note, "unusual") || Notes(note, "format of")
  }

  function LowerNote(note: Option<string>): string {
    Lower(if note.Some? then note.value else "")
  }

  lemma NoteHolds(note: Option<string>, word: string)
    requires word != ""
    ensures Contains(LowerNote(note), word) <==> Notes(note, word)
  {
    if note.None? {
      assert LowerNote(note) == "";
    }
  }

  lemma SecondPage(note: string)
    ensures Contains(note, "second page") ==> Contains(note, "page")
  {
    if Contains(note, "second page") {
      var s := "second page";
      assert |s| == 11 && s[7] == 'p' && s[8] == 'a' && s[9] == 'g' && s[10] == 'e';
      assert HasAt(s, "page", 7);
      ContainsTransitive(note, s, "page");
    }
  }

  lemma MentionsTwo(note: string, a: string, b: string)
    ensures Mentions(note, [a, b]) <==> Contains(note, a) || Contains(note, b)
  {
    assert [a, b][0] == a && [a, b][1] == b;
  }

  lemma MentionsThree(note: string, a: string, b: string, c: string)
    ensures Mentions(note, [a, b, c]) <==> Contains(note, a) || Contains(note, b) || Contains(note, c)
  {
    assert [a, b, c][0] == a && [a, b, c][1] == b && [a, b, c][2] == c;
  }

  lemma MentionsFive(note: string, a: string, b: string, c: string, d: string, e: string)
    ensures Mentions(note, [a, b, c, d, e]) <==>
              Contains(note, a) || Contains(note, b) || Contains(note, c) || Contains(note, d) || Contains(note, e)
  {
    var s := [a, b, c, d, e];
    assert s[0] == a && s[1] == b && s[2] == c && s[3] == d && s[4] == e;
  }

  lemma PageMentions(note: Option<string>)
    ensures Mentions(LowerNote(note), ["page", "attachment", "second page"]) <==> NotesPage(note)
    ensures Mentions(LowerNote(note), ["page", "attachment"]) <==> NotesPage(note)
  {
    var n := LowerNote(note);
    MentionsThree(n, "page", "attachment", "second page");
    MentionsTwo(n, "page", "attachment");
    SecondPage(n);
    NoteHolds(note, "page");
    NoteHolds(note, "attachment");
  }

  lemma LabelMentions(note: Option<string>)
    ensures Mentions(LowerNote(note), ["label", "assumed", "guess", "non-standard", "unclear"]) <==> NotesLabel(note)
  {
    MentionsFive(LowerNote(note), "label", "assumed", "guess", "non-standard", "unclear");
    NoteHolds(note, "label");
    NoteHolds(note, "assumed");
    NoteHolds(note, "guess");
    NoteHolds(note, "non-standard");
    NoteHolds(note, "unclear");
  }

  lemma LayoutMentions(note: Option<string>)
    ensures Mentions(LowerNote(note), ["layout", "unusual", "format of"]) <==> NotesLayout(note)
  {
    MentionsThree(LowerNote(note), "layout", "unusual", "format of");
    NoteHolds(note, "layout");
    NoteHolds(note, "unusual");
    NoteHolds(note, "format of");
  }

  /** Which category a wrong score gets: a missing one by whether its note speaks of a page; any other,
      in this order, by whether the value can be read for its type, and by what its note speaks of. */
  lemma CategoryExactly(o: Oracle, filename: string, fieldType: FieldType, name: string, e: ScalarField, truth: Value)
    ensures var s := ScoreScalar(o, filename, fieldType, name, e, truth);
            var readable := IsReadable(o, fieldType, e.value);
            var labelled, odd, paged := NotesLabel(s.note), NotesLayout(s.note), NotesPage(s.note);
            && (s.outcome == Missing ==>
                  s.category in {Some(MultiPageMiss), Some(NotFound)} && (s.category == Some(MultiPageMiss) <==> paged))
            && (s.outcome in {Incorrect, Extra} ==>
                  && s.category.Some?
                  && (s.category == Some(FormatError) <==> !readable)
                  && (s.category == Some(LabelVariation) <==> readable && labelled)
                  && (s.category == Some(LayoutUnusual) <==> readable && !labelled && odd)
                  && (s.category == Some(MultiPageMiss) <==> readable && !labelled && !odd && paged)
                  && (s.category == Some(WrongValue) <==> readable && !labelled && !odd && !paged))
  {
    var s := ScoreScalar(o, filename, fieldType, name, e, truth);
    CategoryByNote(o, fieldType, s.outcome, e.value, s.note);
    PresenceDecides(o, filename, fieldType, name, e, truth);
    SaysIsPresent(e.value);
  }

  lemma CategoryByNote(o: Oracle, fieldType: FieldType, outcome: Outcome, v: Value, note: Option<string>)
    ensures var c := Categorize(o, fieldType, outcome, v, note);
            && (outcome == Missing ==> c == Some(if NotesPage(note) then MultiPageMiss else NotFound))
            && (outcome in {Incorrect, Extra} && Present(v) ==>
                  c == Some(if !IsReadable(o, fieldType, v) then FormatError
                            else if NotesLabel(note) then LabelVariation
                            else if NotesLayout(note) then LayoutUnusual
                            else if NotesPage(note) then MultiPageMiss
                            else WrongValue))
  {
    PageMentions(note);
    LabelMentions(note);
    LayoutMentions(note);
  }

  // ------------------------------------------------------------------ charge lists

  /** A charge and an item are compatible exactly when both amounts are numbers at most a cent apart and
      the normalized names, item first, are equal or nearly the same. */
  lemma CompatibleExactly(o: Oracle, c: Charge, e: Item)
    ensures var a, b := Norm(e.name), Norm(c.name);
            var x, y := ParseNumber(c.amount), ParseNumber(e.amount);
            Compatible(o)(c, e) <==>
              (a == b || NearlySame(o, a, b)) && x.Some? && y.Some? && -0.01 <= x.value - y.value <= 0.01
  {
    NormIdempotent(c.name);
    MatchExactly(o, e.name, Norm(c.name));
  }

  /** Why a charge list is wrong: NOT_FOUND when it is MISSING, LAYOUT_UNUSUAL when charges are missing and
      every item was paired, WRONG_VALUE when items are left over. */
  ghost predicate ListCategorized(s: FieldScore, extracted: seq<Item>, truth: seq<Charge>, r: Pairing<Charge, Item>) {
    && (s.category == Some(NotFound) <==> truth != [] && extracted == [])
    && (s.category == Some(LayoutUnusual) <==> extracted != [] && r.missing != [] && r.remaining == [])
    && (s.category == Some(WrongValue) <==> r.remaining != [])
  }

  /** What the score of a charge list records: the lists, whether anything was extracted, and how many
      charges were found and items left over. */
  ghost predicate ListRecorded(s: FieldScore, filename: string, extracted: seq<Item>, truth: seq<Charge>,
                               found: nat, extra: nat)
  {
    && s.filename == filename && s.field == "accessorials" && s.confidence == 0.0
    && s.truth == Charges(truth) && s.extracted == Items(extracted) && (s.asserted <==> extracted != [])
    && s.note == Some("found " + Dec(found) + "/" + Dec(|truth|) +
                      if extra == 0 then "" else ", " + Dec(extra) + " extra")
  }

  lemma ListVerdict(o: Oracle, filename: string, extracted: seq<Item>, truth: seq<Charge>)
    ensures var r := Greedy(Compatible(o), truth, extracted);
            var s := AccessorialScore(o, filename, extracted, truth).0;
            ListCategorized(s, extracted, truth, r) &&
            ListRecorded(s, filename, extracted, truth, |r.hits|, |r.remaining|)
  {
    var r := Greedy(Compatible(o), truth, extracted);
    GreedyLeavesNoPair(Compatible(o), truth, extracted);
    PairingCategory(filename, extracted, truth, r);
    PairingRecord(filename, extracted, truth, r);
  }

  lemma PairingCategory(filename: string, extracted: seq<Item>, truth: seq<Charge>, r: Pairing<Charge, Item>)
    requires |r.hits| + |r.missing| == |truth| && |r.hits| + |r.remaining| == |extracted|
    ensures ListCategorized(PairingScore(filename, extracted, truth, r).0, extracted, truth, r)
  {
  }

  lemma PairingRecord(filename: string, extracted: seq<Item>, truth: seq<Charge>, r: Pairing<Charge, Item>)
    ensures ListRecorded(PairingScore(filename, extracted, truth, r).0, filename, extracted, truth,
                         |r.hits|, |r.remaining|)
  {
  }
}
