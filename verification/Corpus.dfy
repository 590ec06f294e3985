/** The synthetic freight world: loads built one after another, each given a scenario by its number,
    a duplicate invoice copying the load before it. Amounts are whole cents. */
module Corpus {
  import opened Prelude
  import opened Numerals

  datatype Charge = Charge(name: string, amount: int, authorized: bool, backup: Option<string>)

  datatype Scenario =
    | CleanMatch | UnauthorizedDetention | FuelMismatch | LinehaulMismatch | MissingLumperBackup
    | DuplicateInvoice | MissingPod | ExtraStopoff

  datatype Outcome = Matched | Variance | NeedsReview | Duplicate

  /** An identifier: a prefix and a serial number. */
  datatype Id = Id(prefix: string, number: nat)

  /** How an identifier is written. */
  function Written(id: Id): string {
    id.prefix + Dec(id.number)
  }

  /** Why a load is expected to be caught. */
  datatype Reason =
    | DetentionNotConfirmed | FuelTooHigh | LinehaulTooHigh | NoLumperReceipt | NoPod
    | NumberDuplicates(loadId: Id)

  datatype LoadRecord = LoadRecord(
    loadId: Id, invoiceNumber: Id, carrier: string, carrierMc: string,
    rateLinehaul: int, rateFuel: int, invoiceLinehaul: int, invoiceFuel: int,
    rateAccessorials: seq<Charge>, invoiceAccessorials: seq<Charge>,
    scenario: Scenario, outcome: Outcome, reasons: seq<Reason>)

  /** What the random generator chooses for one load: a carrier, a line haul, and a fuel percentage. */
  datatype Draw = Draw(carrier: string, carrierMc: string, linehaul: int, fuelPercent: nat)

  const SCENARIOS: seq<Scenario> :=
    [CleanMatch, CleanMatch, UnauthorizedDetention, FuelMismatch, LinehaulMismatch, MissingLumperBackup,
     DuplicateInvoice, MissingPod, ExtraStopoff]

  /** The quotient rounded to the nearest integer, halves away from zero. */
  function HalfUp(n: int, d: nat): int
    requires d > 0
  {
    if n >= 0 then (2 * n + d) / (2 * d) else -((2 * -n + d) / (2 * d))
  }

  function Amounts(cs: seq<Charge>): int {
    if cs == [] then 0 else cs[0].amount + Amounts(cs[1..])
  }

  function RateTotal(l: LoadRecord): int {
    l.rateLinehaul + l.rateFuel + Amounts(l.rateAccessorials)
  }

  function InvoiceTotal(l: LoadRecord): int {
    l.invoiceLinehaul + l.invoiceFuel + Amounts(l.invoiceAccessorials)
  }

  // ------------------------------------------------------------------ the loads

  function LoadName(i: nat): Id {
    Id("LD-", 560000 + i)
  }

  function InvoiceName(i: nat): Id {
    Id("INV-", 2026000 + i)
  }

  /** Load i before its scenario is played out. */
  function Fresh(i: nat, draw: Draw): LoadRecord
    requires i >= 1
  {
    var fuel := HalfUp(draw.linehaul * draw.fuelPercent, 100);
    LoadRecord(LoadName(i), InvoiceName(i), draw.carrier, draw.carrierMc,
               draw.linehaul, fuel, draw.linehaul, fuel, [], [], SCENARIOS[(i - 1) % 9], Matched, [])
  }

  const UNAUTHORIZED: Charge := Charge("detention", 30000, false, None)
  const LUMPER: Charge := Charge("lumper", 17500, true, None)
  const STOPOFF: Charge := Charge("stop-off", 12500, true, Some("rate_confirmation"))
  const DETENTION: Charge := Charge("detention", 15000, true, Some("rate_confirmation"))

  function Both(l: LoadRecord, c: Charge): LoadRecord {
    l.(rateAccessorials := l.rateAccessorials + [c], invoiceAccessorials := l.invoiceAccessorials + [c])
  }

  /** A fresh load with its scenario played out. */
  function Played(i: nat, l: LoadRecord): LoadRecord {
    match l.scenario
    case UnauthorizedDetention =>
      l.(invoiceAccessorials := l.invoiceAccessorials + [UNAUTHORIZED], outcome := Variance,
         reasons := l.reasons + [DetentionNotConfirmed])
    case FuelMismatch =>
      l.(invoiceFuel := l.rateFuel + 12500, outcome := Variance,
         reasons := l.reasons + [FuelTooHigh])
    case LinehaulMismatch =>
      l.(invoiceLinehaul := l.rateLinehaul + 20000, outcome := Variance,
         reasons := l.reasons + [LinehaulTooHigh])
    case MissingLumperBackup =>
      Both(l, LUMPER).(outcome := NeedsReview,
                       reasons := l.reasons + [NoLumperReceipt])
    case MissingPod =>
      l.(outcome := NeedsReview, reasons := l.reasons + [NoPod])
    case ExtraStopoff => Both(l, STOPOFF)
    case CleanMatch => if i % 3 == 0 then Both(l, DETENTION) else l
    case DuplicateInvoice => if i % 3 == 0 then Both(l, DETENTION) else l
  }

  /** What a duplicate takes over from the load before it: everything billed, but not the rate
      confirmation's accessorial charges. */
  function Copied(l: LoadRecord, source: LoadRecord): LoadRecord {
    l.(invoiceAccessorials := source.invoiceAccessorials,
       rateLinehaul := source.rateLinehaul, rateFuel := source.rateFuel,
       invoiceLinehaul := source.invoiceLinehaul, invoiceFuel := source.invoiceFuel,
       invoiceNumber := source.invoiceNumber, carrier := source.carrier, carrierMc := source.carrierMc,
       outcome := Duplicate, reasons := l.reasons + [NumberDuplicates(source.loadId)])
  }

  /** Load number i of a run of draws. */
  function LoadAt(draws: seq<Draw>, i: nat): LoadRecord
    requires 1 <= i <= |draws|
  {
    var l := Played(i, Fresh(i, draws[i - 1]));
    if l.scenario == DuplicateInvoice && i > 1 then Copied(l, LoadAt(draws, i - 1)) else l
  }

  /** The scenario's assignments to the record being built. */
  method PlayOut(i: nat, l: LoadRecord) returns (load: LoadRecord)
    ensures load == Played(i, l)
  {
    load := l;
    var scenario := load.scenario;
    if scenario == UnauthorizedDetention {
      load := load.(invoiceAccessorials := load.invoiceAccessorials + [UNAUTHORIZED]);
      load := load.(outcome := Variance);
      load := load.(reasons := load.reasons + [DetentionNotConfirmed]);
    } else if scenario == FuelMismatch {
      load := load.(invoiceFuel := load.rateFuel + 12500);
      load := load.(outcome := Variance);
      load := load.(reasons := load.reasons + [FuelTooHigh]);
    } else if scenario == LinehaulMismatch {
      load := load.(invoiceLinehaul := load.rateLinehaul + 20000);
      load := load.(outcome := Variance);
      load := load.(reasons := load.reasons + [LinehaulTooHigh]);
    } else if scenario == MissingLumperBackup {
      load := Both(load, LUMPER);
      load := load.(outcome := NeedsReview);
      load := load.(reasons := load.reasons + [NoLumperReceipt]);
    } else if scenario == MissingPod {
      load := load.(outcome := NeedsReview);
      load := load.(reasons := load.reasons + [NoPod]);
    } else if scenario == ExtraStopoff {
      load := Both(load, STOPOFF);
    } else if i % 3 == 0 {
      load := Both(load, DETENTION);
    }
  }

  /** What a load becomes among the loads before it: a duplicate takes over from the last of them. */
  function Placed(load: LoadRecord, loads: seq<LoadRecord>): LoadRecord {
    if load.scenario == DuplicateInvoice && loads != [] then Copied(load, loads[|loads| - 1]) else load
  }

  lemma PlacedIsLoadAt(draws: seq<Draw>, i: nat, loads: seq<LoadRecord>)
    requires 1 <= i <= |draws| && |loads| == i - 1
    requires i > 1 ==> loads[i - 2] == LoadAt(draws, i - 1)
    ensures LoadAt(draws, i) == Placed(Played(i, Fresh(i, draws[i - 1])), loads)
  {
  }

  /** Builds load number i: a fresh record, its scenario played out, the load before copied for a
      duplicate. */
  method BuildLoad(draws: seq<Draw>, i: nat, loads: seq<LoadRecord>) returns (load: LoadRecord)
    requires 1 <= i <= |draws| && |loads| == i - 1
    requires i > 1 ==> loads[i - 2] == LoadAt(draws, i - 1)
    ensures load == LoadAt(draws, i)
  {
    PlacedIsLoadAt(draws, i, loads);
    load := Fresh(i, draws[i - 1]);
    PlayedKeepsNames(i, load);
    var scenario := load.scenario;
    load := PlayOut(i, load);
    if scenario == DuplicateInvoice && loads != [] {
      load := Copied(load, loads[|loads| - 1]);
    }
  }

  /** The first loads of the run. */
  ghost predicate Built(draws: seq<Draw>, loads: seq<LoadRecord>) {
    |loads| <= |draws| && forall k :: 0 <= k < |loads| ==> loads[k] == LoadAt(draws, k + 1)
  }

  lemma {:induction false} OneMoreBuilt(draws: seq<Draw>, loads: seq<LoadRecord>, load: LoadRecord)
    requires Built(draws, loads) && |loads| < |draws| && load == LoadAt(draws, |loads| + 1)
    ensures Built(draws, loads + [load])
  {
  }

  /** The loop of the source: build a load, append it. */
  method BuildLoads(draws: seq<Draw>) returns (loads: seq<LoadRecord>)
    ensures |loads| == |draws| && forall k :: 0 <= k < |loads| ==> loads[k] == LoadAt(draws, k + 1)
  {
    loads := [];
    for i := 1 to |draws| + 1
      invariant |loads| == i - 1 && Built(draws, loads)
    {
      var load := BuildLoad(draws, i, loads);
      OneMoreBuilt(draws, loads, load);
      loads := loads + [load];
    }
  }

  // ------------------------------------------------------------------ what the world guarantees

  lemma ScenarioOf(i: nat, draw: Draw)
    requires i >= 1
    ensures var s := Fresh(i, draw).scenario;
            && (s == DuplicateInvoice <==> i % 9 == 7)
            && (s == MissingLumperBackup <==> i % 9 == 6)
            && (s == CleanMatch <==> i % 9 == 1 || i % 9 == 2)
  {
    assert (i - 1) % 9 == if i % 9 == 0 then 8 else i % 9 - 1;
  }

  lemma OneCharge(c: Charge)
    ensures Amounts([] + [c]) == c.amount && Amounts([]) == 0
  {
    assert [] + [c] == [c] && [c][1..] == [];
  }

  /** What a played-out load bills over its rate confirmation is fixed by its scenario. */
  lemma PlayedBills(i: nat, l: LoadRecord)
    requires l.rateAccessorials == l.invoiceAccessorials == [] && l.outcome == Matched
    requires l.invoiceFuel == l.rateFuel && l.invoiceLinehaul == l.rateLinehaul
    ensures var p := Played(i, l);
            && InvoiceTotal(p) - RateTotal(p) == Excess(l.scenario)
            && (p.outcome == Variance <==> l.scenario in {UnauthorizedDetention, FuelMismatch, LinehaulMismatch})
            && p.outcome != Duplicate
  {
    OneCharge(UNAUTHORIZED);
    OneCharge(LUMPER);
    OneCharge(STOPOFF);
    OneCharge(DETENTION);
  }

  /** The variance a scenario plants, in cents. */
  function Excess(s: Scenario): int {
    match s
    case UnauthorizedDetention => 30000
    case FuelMismatch => 12500
    case LinehaulMismatch => 20000
    case _ => 0
  }

  lemma PlayedDetention(i: nat, l: LoadRecord)
    requires l.invoiceAccessorials == [] && i % 3 != 0
    ensures DETENTION !in Played(i, l).invoiceAccessorials
  {
  }

  lemma DetentionOnlyByNumber(i: nat, l: LoadRecord)
    requires l.invoiceAccessorials == [] && l.scenario !in {CleanMatch, DuplicateInvoice}
    ensures DETENTION !in Played(i, l).invoiceAccessorials
  {
  }

  /** What holds of every load that is not a duplicate: what it bills over its rate confirmation is
      fixed by its scenario, its names are its own, and no authorized detention is charged. */
  predicate Ordinary(i: nat, l: LoadRecord) {
    && l.outcome != Duplicate && l.loadId == LoadName(i) && l.invoiceNumber == InvoiceName(i)
    && DETENTION !in l.invoiceAccessorials
    && InvoiceTotal(l) - RateTotal(l) == Excess(l.scenario)
    && (l.outcome == Variance <==> l.scenario in {UnauthorizedDetention, FuelMismatch, LinehaulMismatch})
  }

  lemma PlayedOrdinary(i: nat, f: LoadRecord)
    requires IsFresh(i, f)
    requires f.scenario == DuplicateInvoice || f.scenario == CleanMatch ==> i % 3 != 0
    ensures Ordinary(i, Played(i, f))
  {
    PlayedBills(i, f);
    PlayedKeepsNames(i, f);
    if f.scenario == DuplicateInvoice || f.scenario == CleanMatch {
      PlayedDetention(i, f);
    } else {
      DetentionOnlyByNumber(i, f);
    }
  }

  /** A fresh record: its own names, nothing but line haul and fuel, billed as agreed. */
  predicate IsFresh(i: nat, f: LoadRecord) {
    && f.loadId == LoadName(i) && f.invoiceNumber == InvoiceName(i) && f.outcome == Matched
    && f.rateAccessorials == f.invoiceAccessorials == []
    && f.invoiceFuel == f.rateFuel && f.invoiceLinehaul == f.rateLinehaul
  }

  lemma FreshIsFresh(i: nat, draw: Draw)
    requires i >= 1
    ensures IsFresh(i, Fresh(i, draw))
  {
  }

  /** The scenarios whose branch looks at the load's number never meet a multiple of three. */
  lemma NoDetentionDue(i: nat, draw: Draw)
    requires i >= 1
    ensures Fresh(i, draw).scenario in {CleanMatch, DuplicateInvoice} ==> i % 3 != 0
  {
    ScenarioOf(i, draw);
    ThirdOfNinth(i);
  }

  lemma ThirdOfNinth(i: nat)
    ensures i % 3 == (i % 9) % 3
  {
    var q, r := i / 9, i % 9;
    assert i == 3 * (3 * q + r / 3) + r % 3;
  }

  lemma PlayedFresh(i: nat, draw: Draw)
    requires i >= 1 && i % 9 != 7
    ensures Ordinary(i, Played(i, Fresh(i, draw)))
  {
    NoDetentionDue(i, draw);
    FreshIsFresh(i, draw);
    PlayedOrdinary(i, Fresh(i, draw));
  }

  lemma PlainLoad(draws: seq<Draw>, i: nat)
    requires 1 <= i <= |draws| && i % 9 != 7
    ensures LoadAt(draws, i) == Played(i, Fresh(i, draws[i - 1]))
  {
    var f := Fresh(i, draws[i - 1]);
    ScenarioOf(i, draws[i - 1]);
    PlayedKeepsNames(i, f);
  }

  lemma PlayedLoad(draws: seq<Draw>, i: nat)
    requires 1 <= i <= |draws| && i % 9 != 7
    ensures Ordinary(i, LoadAt(draws, i))
  {
    PlainLoad(draws, i);
    PlayedFresh(i, draws[i - 1]);
  }

  lemma SixBeforeSeven(i: nat)
    requires i % 9 == 7
    ensures i > 0 && (i - 1) % 9 == 6
  {
  }

  lemma DuplicateOf(draws: seq<Draw>, i: nat)
    requires 1 <= i <= |draws| && i % 9 == 7
    ensures LoadAt(draws, i) == Copied(Played(i, Fresh(i, draws[i - 1])), LoadAt(draws, i - 1))
  {
    var f := Fresh(i, draws[i - 1]);
    ScenarioOf(i, draws[i - 1]);
    PlayedKeepsNames(i, f);
  }

  /** Load l bills again what the source load billed, over its own rate by 175.00. */
  predicate BilledTwice(l: LoadRecord, source: LoadRecord) {
    && l.outcome == Duplicate && l.invoiceNumber == source.invoiceNumber
    && InvoiceTotal(l) == InvoiceTotal(source) && InvoiceTotal(l) - RateTotal(l) == 17500
    && l.invoiceAccessorials == [LUMPER]
  }

  lemma CopiedBills(i: nat, l: LoadRecord, source: LoadRecord)
    requires i % 3 != 0 && l.scenario == DuplicateInvoice && l.rateAccessorials == []
    requires source.outcome != Duplicate && source.scenario == MissingLumperBackup
    requires source.invoiceAccessorials == [LUMPER] && InvoiceTotal(source) == RateTotal(source)
    requires source.rateAccessorials == [LUMPER]
    ensures BilledTwice(Copied(Played(i, l), source), source)
  {
    OneCharge(LUMPER);
    assert [] + [LUMPER] == [LUMPER];
  }

  lemma LumperLoad(i: nat, draw: Draw)
    requires i % 9 == 6
    ensures var l := Played(i, Fresh(i, draw));
            l.scenario == MissingLumperBackup && l.rateAccessorials == l.invoiceAccessorials == [LUMPER]
  {
    ScenarioOf(i, draw);
    assert [] + [LUMPER] == [LUMPER];
  }

  lemma PlayedTwice(i: nat, before: Draw, draw: Draw)
    requires i % 9 == 7
    ensures var source := Played(i - 1, Fresh(i - 1, before));
            BilledTwice(Copied(Played(i, Fresh(i, draw)), source), source)
  {
    SixBeforeSeven(i);
    ThirdOfNinth(i);
    PlayedFresh(i - 1, before);
    LumperLoad(i - 1, before);
    ScenarioOf(i, draw);
    CopiedBills(i, Fresh(i, draw), Played(i - 1, Fresh(i - 1, before)));
  }

  /** A duplicate bills exactly what the load before it billed, under the same number; because the
      rate confirmation's lumper charge is not copied, it bills 175.00 more than its own rate. */
  lemma DuplicateLoad(draws: seq<Draw>, i: nat)
    requires 1 <= i <= |draws| && i % 9 == 7
    ensures BilledTwice(LoadAt(draws, i), LoadAt(draws, i - 1))
  {
    SixBeforeSeven(i);
    PlainLoad(draws, i - 1);
    DuplicateOf(draws, i);
    PlayedTwice(i, draws[i - 2], draws[i - 1]);
  }

  /** For every run of draws: a load expected to match, or to need review, bills exactly its rate; a
      variance is 300.00, 125.00 or 200.00 by scenario; a duplicate is over by 175.00. */
  lemma BilledAgainstRate(draws: seq<Draw>, i: nat)
    requires 1 <= i <= |draws|
    ensures var l := LoadAt(draws, i);
            InvoiceTotal(l) - RateTotal(l) ==
              (match l.outcome
               case Matched => 0
               case NeedsReview => 0
               case Duplicate => 17500
               case Variance =>
                 if l.scenario == UnauthorizedDetention then 30000
                 else if l.scenario == FuelMismatch then 12500 else 20000)
  {
    if i % 9 == 7 {
      DuplicateLoad(draws, i);
    } else {
      PlayedLoad(draws, i);
    }
  }

  /** The loop's authorized-detention branch is dead: such a charge is never billed. */
  lemma NoAuthorizedDetention(draws: seq<Draw>, i: nat)
    requires 1 <= i <= |draws|
    ensures DETENTION !in LoadAt(draws, i).invoiceAccessorials
  {
    if i % 9 == 7 {
      DuplicateLoad(draws, i);
    } else {
      PlayedLoad(draws, i);
    }
  }

  /** Identifiers of one kind are written alike exactly when they are the same. */
  lemma WrittenAlike(a: Id, b: Id)
    requires a.prefix == b.prefix
    ensures Written(a) == Written(b) <==> a == b
  {
    if Written(a) == Written(b) {
      assert Written(a)[|a.prefix|..] == Dec(a.number) && Written(b)[|b.prefix|..] == Dec(b.number);
      DecInjective(a.number, b.number);
    }
  }

  lemma PlayedKeepsNames(i: nat, l: LoadRecord)
    ensures Played(i, l).loadId == l.loadId && Played(i, l).invoiceNumber == l.invoiceNumber
    ensures Played(i, l).scenario == l.scenario
  {
  }

  lemma LoadIdIsOwn(draws: seq<Draw>, i: nat)
    requires 1 <= i <= |draws|
    ensures LoadAt(draws, i).loadId == LoadName(i)
  {
    PlayedKeepsNames(i, Fresh(i, draws[i - 1]));
  }

  /** Load ids are pairwise distinct. */
  lemma LoadIdsDistinct(draws: seq<Draw>, i: nat, j: nat)
    requires 1 <= i < j <= |draws|
    ensures Written(LoadAt(draws, i).loadId) != Written(LoadAt(draws, j).loadId)
  {
    LoadIdIsOwn(draws, i);
    LoadIdIsOwn(draws, j);
    WrittenAlike(LoadName(i), LoadName(j));
  }

  /** The number under which load i's invoice is issued. */
  function IssuedAs(i: nat): nat
    requires i >= 1
  {
    if i % 9 == 7 then i - 1 else i
  }

  lemma InvoiceNumberOf(draws: seq<Draw>, i: nat)
    requires 1 <= i <= |draws|
    ensures LoadAt(draws, i).invoiceNumber == InvoiceName(IssuedAs(i))
  {
    if i % 9 == 7 {
      DuplicateLoad(draws, i);
      PlayedLoad(draws, i - 1);
    } else {
      PlayedLoad(draws, i);
    }
  }

  lemma SameNumberWritten(m: nat, n: nat)
    ensures Written(InvoiceName(m)) == Written(InvoiceName(n)) <==> m == n
  {
    WrittenAlike(InvoiceName(m), InvoiceName(n));
  }

  lemma IssuedAlike(i: nat, j: nat)
    requires 1 <= i < j
    ensures IssuedAs(i) == IssuedAs(j) <==> i % 9 == 6 && j == i + 1
  {
  }

  /** Two loads share an invoice number exactly when they are numbers 9k + 6 and 9k + 7. */
  lemma InvoiceNumbersShared(draws: seq<Draw>, i: nat, j: nat)
    requires 1 <= i < j <= |draws|
    ensures var same := Written(LoadAt(draws, i).invoiceNumber) == Written(LoadAt(draws, j).invoiceNumber);
            same <==> i % 9 == 6 && j == i + 1
  {
    InvoiceNumberOf(draws, i);
    InvoiceNumberOf(draws, j);
    SameNumberWritten(IssuedAs(i), IssuedAs(j));
    IssuedAlike(i, j);
  }
}
