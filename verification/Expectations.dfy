/** What every load of the synthetic world holds, by its number. */
module Expectations {
  import opened Prelude
  import opened Numerals
  import opened Corpus

  /** The outcome a load is expected to have. */
  function ExpectedOutcome(i: nat): Outcome {
    match i % 9
    case 3 => Variance
    case 4 => Variance
    case 5 => Variance
    case 6 => NeedsReview
    case 7 => Duplicate
    case 8 => NeedsReview
    case _ => Matched
  }

  /** The accessorial charges on the invoice. */
  function Billed(i: nat): seq<Charge> {
    match i % 9
    case 3 => [Charge("detention", 30000, false, None)]
    case 6 => [Charge("lumper", 17500, true, None)]
    case 7 => [Charge("lumper", 17500, true, None)]
    case 0 => [Charge("stop-off", 12500, true, Some("rate_confirmation"))]
    case _ => []
  }

  /** The accessorial charges on the rate confirmation: neither the unauthorized one nor the copied one. */
  function Confirmed(i: nat): seq<Charge> {
    if i % 9 in {3, 7} then [] else Billed(i)
  }

  /** Why the load is expected to be caught. */
  function Reasons(i: nat): seq<Reason>
    requires i >= 1
  {
    match i % 9
    case 3 => [DetentionNotConfirmed]
    case 4 => [FuelTooHigh]
    case 5 => [LinehaulTooHigh]
    case 6 => [NoLumperReceipt]
    case 7 => [NumberDuplicates(Id("LD-", 560000 + i - 1))]
    case 8 => [NoPod]
    case _ => []
  }

  /** Fuel is the percentage of the line haul, rounded to the nearest cent, halves away from zero. */
  predicate IsFuel(fuel: int, draw: Draw) {
    var exact := draw.linehaul * draw.fuelPercent;
    if exact >= 0 then 100 * fuel - 50 <= exact < 100 * fuel + 50
    else 100 * fuel - 50 < exact <= 100 * fuel + 50
  }

  lemma HalfUpIsNearest(n: int)
    ensures var r := HalfUp(n, 100);
            if n >= 0 then 100 * r - 50 <= n < 100 * r + 50 else 100 * r - 50 < n <= 100 * r + 50
  {
  }

  /** The money of a load whose draw is d: line haul and fuel as drawn, billed with the planted excess. */
  predicate MoneyFrom(l: LoadRecord, d: Draw, i: nat) {
    && l.carrier == d.carrier && l.carrierMc == d.carrierMc
    && l.rateLinehaul == d.linehaul && IsFuel(l.rateFuel, d)
    && l.invoiceLinehaul == l.rateLinehaul + (if i % 9 == 5 then 20000 else 0)
    && l.invoiceFuel == l.rateFuel + if i % 9 == 4 then 12500 else 0
  }

  /** What a load is expected to come to, and the charges and reasons behind it. */
  predicate Labelled(l: LoadRecord, i: nat)
    requires i >= 1
  {
    && l.outcome == ExpectedOutcome(i) && l.reasons == Reasons(i)
    && l.invoiceAccessorials == Billed(i) && l.rateAccessorials == Confirmed(i)
    && Written(l.loadId) == "LD-" + Dec(560000 + i)
    && Written(l.invoiceNumber) == "INV-" + Dec(2026000 + if i % 9 == 7 then i - 1 else i)
  }

  function ScenarioBy(i: nat): Scenario {
    match i % 9
    case 3 => UnauthorizedDetention
    case 4 => FuelMismatch
    case 5 => LinehaulMismatch
    case 6 => MissingLumperBackup
    case 7 => DuplicateInvoice
    case 8 => MissingPod
    case 0 => ExtraStopoff
    case _ => CleanMatch
  }

  lemma ScenarioByNumber(i: nat, draw: Draw)
    requires i >= 1
    ensures Fresh(i, draw).scenario == ScenarioBy(i)
  {
    assert (i - 1) % 9 == if i % 9 == 0 then 8 else i % 9 - 1;
  }

  lemma PlayedByNumber(i: nat, f: LoadRecord, draw: Draw)
    requires i >= 1 && i % 9 != 7 && f == Fresh(i, draw)
    ensures MoneyFrom(Played(i, f), draw, i) && Labelled(Played(i, f), i)
  {
    ScenarioByNumber(i, draw);
    ThirdOfNinth(i);
    HalfUpIsNearest(draw.linehaul * draw.fuelPercent);
    assert forall c: Charge :: [] + [c] == [c];
    assert forall r: Reason :: [] + [r] == [r];
  }

  /** The draw a load's money comes from: its own, or for a duplicate the one before. */
  function DrawFor(draws: seq<Draw>, i: nat): Draw
    requires 1 <= i <= |draws|
  {
    draws[if i % 9 == 7 then i - 2 else i - 1]
  }

  /** For any run of draws, load number i: its expected outcome, charges, reasons and written numbers
      follow from i mod 9, and its money and carrier from its draw; a duplicate, 7 mod 9, has those and
      the invoice number of the load before. */
  lemma LoadByNumber(draws: seq<Draw>, i: nat)
    requires 1 <= i <= |draws|
    ensures Labelled(LoadAt(draws, i), i) && MoneyFrom(LoadAt(draws, i), DrawFor(draws, i), i)
  {
    if i % 9 == 7 {
      DuplicateByNumber(draws, i);
    } else {
      PlainByNumber(draws, i);
    }
  }

  lemma PlainByNumber(draws: seq<Draw>, i: nat)
    requires 1 <= i <= |draws| && i % 9 != 7
    ensures Labelled(LoadAt(draws, i), i) && MoneyFrom(LoadAt(draws, i), draws[i - 1], i)
  {
    PlainLoad(draws, i);
    PlayedByNumber(i, Fresh(i, draws[i - 1]), draws[i - 1]);
  }

  lemma DuplicateByNumber(draws: seq<Draw>, i: nat)
    requires 1 <= i <= |draws| && i % 9 == 7
    ensures Labelled(LoadAt(draws, i), i) && MoneyFrom(LoadAt(draws, i), draws[i - 2], i)
  {
    SixBeforeSeven(i);
    PlainByNumber(draws, i - 1);
    LoadIdIsOwn(draws, i - 1);
    DuplicateOf(draws, i);
    CopyByNumber(i, draws[i - 1], LoadAt(draws, i - 1), draws[i - 2]);
  }

  lemma CopyByNumber(i: nat, draw: Draw, source: LoadRecord, before: Draw)
    requires i > 1 && i % 9 == 7 && (i - 1) % 9 == 6
    requires MoneyFrom(source, before, i - 1) && Labelled(source, i - 1)
    requires source.loadId == LoadName(i - 1)
    ensures var l := Copied(Played(i, Fresh(i, draw)), source);
            Labelled(l, i) && MoneyFrom(l, before, i)
  {
    ScenarioByNumber(i, draw);
    ThirdOfNinth(i);
  }
}
