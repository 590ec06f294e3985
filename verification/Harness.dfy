/** Mutate, measure, restore: the loop every mutation battery runs over the files of a checkout. */
module Harness {
  import opened Prelude
  import opened PyText

  /** The text of each file that exists. */
  type Disk = map<string, string>

  /** How a guard run ends: the test passes, fails, or the attempt to run it raises. */
  datatype Answer = Green | Red | RuntimeFault | OtherFault

  datatype Edit = Replace(path: string, before: string, after: string) | Append(path: string, after: string)

  datatype Verdict = SetupFail | Caught | Miss | RestoreRed
  datatype Exit = Done(verdict: Verdict) | Raises

  datatype Case = Case(edits: seq<Edit>, guard: Disk -> Answer)

  // ------------------------------------------------------------------ what an edit list means

  predicate AnchorOk(text: string, e: Edit) {
    e.Replace? ==> CountOf(text, e.before) == 1
  }

  /** Every edited file exists and every anchor counts exactly once in the file as found. */
  predicate Applicable(disk: Disk, edits: seq<Edit>) {
    forall k :: 0 <= k < |edits| ==> edits[k].path in disk && AnchorOk(disk[edits[k].path], edits[k])
  }

  function Edited(text: string, e: Edit): string {
    match e
    case Replace(_, before, after) => ReplaceFirst(text, before, after)
    case Append(_, after) => text + after
  }

  /** The disk after applying the edits in order, or None when some edit changes nothing at its turn. */
  function Mutant(disk: Disk, edits: seq<Edit>): (r: Option<Disk>)
    requires forall k :: 0 <= k < |edits| ==> edits[k].path in disk
    ensures r.Some? ==> r.value.Keys == disk.Keys
  {
    if edits == [] then Some(disk) else
      var e := edits[0];
      var text := Edited(disk[e.path], e);
      if text == disk[e.path] then None else Mutant(disk[e.path := text], edits[1..])
  }

  /** What is reported when the guard gives this answer on the mutant and the files are restored. */
  function AfterRestore(answer: Answer): Exit {
    match answer
    case Green => Done(Miss)
    case Red => Done(Caught)
    case RuntimeFault => Done(SetupFail)
    case OtherFault => Raises
  }

  /** The outcome an edit list and a guard call for on a given disk. */
  function Measure(disk: Disk, edits: seq<Edit>, guard: Disk -> Answer): Exit {
    if !Applicable(disk, edits) then Done(SetupFail)
    else match guard(disk)
      case Red => Done(SetupFail)
      case RuntimeFault => Raises
      case OtherFault => Raises
      case Green =>
        var m := Mutant(disk, edits);
        if m.None? then Done(SetupFail) else AfterRestore(guard(m.value))
  }

  /** Every edited file exists, and what is to be replaced in it counts exactly once in it as found. */
  predicate CountsOnce(disk: Disk, edits: seq<Edit>) {
    && (forall k :: 0 <= k < |edits| ==> edits[k].path in disk)
    && forall k :: 0 <= k < |edits| && edits[k].Replace? ==> CountOf(disk[edits[k].path], edits[k].before) == 1
  }

  /** The mutant is written: every anchor counts once, the guard passes on the files as found, and no
      edit is a no-op at its turn. */
  predicate IsMutated(disk: Disk, edits: seq<Edit>, guard: Disk -> Answer) {
    CountsOnce(disk, edits) && guard(disk) == Green && Mutant(disk, edits).Some?
  }

  /** The mutant is written and fails its guard. */
  predicate TurnsRed(disk: Disk, edits: seq<Edit>, guard: Disk -> Answer) {
    IsMutated(disk, edits, guard) && guard(Mutant(disk, edits).value) == Red
  }

  /** CAUGHT and MISS mean exactly that the mutant is written and that the guard fails, or passes, on it.
      The run raises when the guard does on the files as found, or meets another than a run-time fault
      on the mutant. Whatever else happens is a failed setup. */
  ghost predicate Verdicts(disk: Disk, edits: seq<Edit>, guard: Disk -> Answer, exit: Exit) {
    && exit != Done(RestoreRed)
    && (exit == Done(Caught) <==> TurnsRed(disk, edits, guard))
    && (exit == Done(Miss) <==> IsMutated(disk, edits, guard) && guard(Mutant(disk, edits).value) == Green)
    && (exit == Raises <==>
          || (CountsOnce(disk, edits) && guard(disk) in {RuntimeFault, OtherFault})
          || (IsMutated(disk, edits, guard) && guard(Mutant(disk, edits).value) == OtherFault))
  }

  lemma MeasuredExactly(disk: Disk, edits: seq<Edit>, guard: Disk -> Answer)
    ensures Verdicts(disk, edits, guard, Measure(disk, edits, guard))
  {
  }

  /** Edits that undo one another are never caught. */
  lemma NetNothingIsNeverCaught(disk: Disk, edits: seq<Edit>, guard: Disk -> Answer)
    requires Applicable(disk, edits) && Mutant(disk, edits) == Some(disk)
    ensures Measure(disk, edits, guard) != Done(Caught)
  {
  }

  /** The text of every edited file, as found. */
  function Originals(disk: Disk, edits: seq<Edit>): Disk {
    map k | 0 <= k < |edits| && edits[k].path in disk :: edits[k].path := disk[edits[k].path]
  }

  // ------------------------------------------------------------------ states on the way

  /** The edited files, each where it is first edited: the order they are written and restored in. */
  function WriteOrder(edits: seq<Edit>): seq<string> {
    if edits == [] then [] else
      var order, p := WriteOrder(edits[..|edits| - 1]), edits[|edits| - 1].path;
      if p in order then order else order + [p]
  }

  ghost predicate IsEdited(p: string, edits: seq<Edit>) {
    exists k :: 0 <= k < |edits| && edits[k].path == p
  }

  lemma {:induction false} WriteOrderLists(edits: seq<Edit>)
    ensures Distinct(WriteOrder(edits)) && forall p :: p in WriteOrder(edits) <==> IsEdited(p, edits)
  {
    if edits != [] {
      var init, last := edits[..|edits| - 1], edits[|edits| - 1];
      WriteOrderLists(init);
      forall p ensures IsEdited(p, edits) <==> IsEdited(p, init) || p == last.path {
        if IsEdited(p, edits) {
          var k :| 0 <= k < |edits| && edits[k].path == p;
          assert k < |edits| - 1 ==> init[k].path == p;
        }
        if IsEdited(p, init) {
          var k :| 0 <= k < |init| && init[k].path == p;
          assert edits[k].path == p;
        }
        assert edits[|edits| - 1].path == last.path;
      }
    }
  }

  /** The disk with the listed files mutated and all the others as found. */
  function Overlay(start: Disk, m: Disk, ps: seq<string>): (d: Disk)
    ensures d.Keys == start.Keys
  {
    map p | p in start :: if p in ps && p in m then m[p] else start[p]
  }

  /** The disk after k of the files have been mutated. */
  function MutatedTo(start: Disk, m: Disk, order: seq<string>): nat -> Disk {
    (k: nat) => if k <= |order| then Overlay(start, m, order[..k]) else start
  }

  /** The disk after k of the files have been written back. */
  function MutatedFrom(start: Disk, m: Disk, order: seq<string>): nat -> Disk {
    (k: nat) => if k <= |order| then Overlay(start, m, order[k..]) else start
  }

  /** The disks while the mutant is written, one after each file. */
  function Forward(start: Disk, m: Disk, order: seq<string>): seq<Disk> {
    Running(MutatedTo(start, m, order), |order|)
  }

  /** The disks while the originals are written back, in the same order. */
  function Back(start: Disk, m: Disk, order: seq<string>): seq<Disk> {
    Running(MutatedFrom(start, m, order), |order|)
  }

  /** The disk a run mutates towards: the mutant, or the disk as found when no mutant is written. */
  function Aim(start: Disk, edits: seq<Edit>, guard: Disk -> Answer): (m: Disk)
    ensures m.Keys == start.Keys
  {
    if IsMutated(start, edits, guard) then Mutant(start, edits).value else start
  }

  /** The disks while the mutant is written, measured and written back; after a run-time fault the
      originals are written back once more. */
  function Phases(start: Disk, m: Disk, order: seq<string>, again: bool): seq<Disk> {
    Forward(start, m, order) + Back(start, m, order) + if again then Back(start, start, order) else []
  }

  /** The originals written back twice over themselves. */
  function Rewritten(start: Disk, order: seq<string>): seq<Disk> {
    Back(start, start, order) + Back(start, start, order)
  }

  /** Every disk a run goes through, one per write. Nothing is written unless the edits apply and the
      guard passes; a no-op only has the originals written back, twice. */
  function StatesOf(start: Disk, edits: seq<Edit>, guard: Disk -> Answer): seq<Disk> {
    if !Applicable(start, edits) || guard(start) != Green then []
    else match Mutant(start, edits)
      case None => Rewritten(start, WriteOrder(edits))
      case Some(m) => Phases(start, m, WriteOrder(edits), guard(m) == RuntimeFault)
  }

  /** A disk the run may leave behind if it is killed. */
  predicate CrashState(d: Disk, start: Disk, edits: seq<Edit>, guard: Disk -> Answer) {
    d == start || d in StatesOf(start, edits, guard)
  }

  /** Some of the files hold their mutated text and all the others are as found. */
  ghost predicate Between(d: Disk, start: Disk, mutant: Disk) {
    && d.Keys == start.Keys == mutant.Keys
    && forall p :: p in d ==> d[p] == start[p] || d[p] == mutant[p]
  }

  lemma OverlayIsBetween(start: Disk, m: Disk, ps: seq<string>)
    requires m.Keys == start.Keys
    ensures Between(Overlay(start, m, ps), start, m) && Overlay(start, start, ps) == start
  {
  }

  lemma InForward(d: Disk, start: Disk, m: Disk, order: seq<string>) returns (k: nat)
    requires d in Forward(start, m, order)
    ensures 0 < k <= |order| && d == Overlay(start, m, order[..k])
  {
    InRunning(d, MutatedTo(start, m, order), |order|);
    k :| 0 < k <= |order| && d == MutatedTo(start, m, order)(k);
  }

  lemma InBack(d: Disk, start: Disk, m: Disk, order: seq<string>) returns (k: nat)
    requires d in Back(start, m, order)
    ensures 0 < k <= |order| && d == Overlay(start, m, order[k..])
  {
    InRunning(d, MutatedFrom(start, m, order), |order|);
    k :| 0 < k <= |order| && d == MutatedFrom(start, m, order)(k);
  }

  lemma OnTheWay(start: Disk, m: Disk, order: seq<string>, k: nat)
    requires 0 < k <= |order|
    ensures Overlay(start, m, order[..k]) in Forward(start, m, order)
    ensures Overlay(start, m, order[k..]) in Back(start, m, order)
  {
    var f, g := MutatedTo(start, m, order), MutatedFrom(start, m, order);
    InRunning(f(k), f, |order|);
    InRunning(g(k), g, |order|);
  }

  lemma InPhasesIsBetween(d: Disk, start: Disk, m: Disk, order: seq<string>, again: bool)
    requires m.Keys == start.Keys && d in Phases(start, m, order, again)
    ensures Between(d, start, m)
  {
    if d in Forward(start, m, order) {
      var k := InForward(d, start, m, order);
      OverlayIsBetween(start, m, order[..k]);
    } else if d in Back(start, m, order) {
      var k := InBack(d, start, m, order);
      OverlayIsBetween(start, m, order[k..]);
    } else {
      InBackIsStart(d, start, order);
    }
  }

  /** Restoring an unmutated tree leaves it as found all the time. */
  lemma InBackIsStart(d: Disk, start: Disk, order: seq<string>)
    requires d in Back(start, start, order)
    ensures d == start
  {
    var k := InBack(d, start, start, order);
    OverlayIsBetween(start, start, order[k..]);
  }

  /** Whatever the run is killed in lies between the disk as found and the mutant. */
  lemma CrashStateIsBetween(d: Disk, start: Disk, edits: seq<Edit>, guard: Disk -> Answer)
    requires CrashState(d, start, edits, guard)
    ensures Between(d, start, Aim(start, edits, guard))
  {
    if d != start {
      match Mutant(start, edits) {
        case None => InBackIsStart(d, start, WriteOrder(edits));
        case Some(m) => InPhasesIsBetween(d, start, m, WriteOrder(edits), guard(m) == RuntimeFault);
      }
    }
  }

  /** One write of a listed text. */
  function Put(d: Disk, texts: Disk, p: string): Disk {
    if p in texts then d[p := texts[p]] else d
  }

  /** The disk after the first k of a list of writes. */
  function Written(d: Disk, texts: Disk, order: seq<string>, k: nat): Disk
    requires k <= |order|
  {
    if k == 0 then d else Put(Written(d, texts, order, k - 1), texts, order[k - 1])
  }

  function WrittenTo(d: Disk, texts: Disk, order: seq<string>): nat -> Disk {
    (k: nat) => if k <= |order| then Written(d, texts, order, k) else d
  }

  /** The disks after each write. */
  function Writes(d: Disk, texts: Disk, order: seq<string>): seq<Disk> {
    Running(WrittenTo(d, texts, order), |order|)
  }

  lemma {:induction false} WrittenAt(d: Disk, texts: Disk, order: seq<string>, k: nat)
    requires k <= |order| && forall p :: p in texts ==> p in d
    ensures Written(d, texts, order, k).Keys == d.Keys
    ensures forall p :: p in d ==>
              Written(d, texts, order, k)[p] == if p in order[..k] && p in texts then texts[p] else d[p]
  {
    if k > 0 {
      WrittenAt(d, texts, order, k - 1);
      assert order[..k] == order[..k - 1] + [order[k - 1]];
    } else {
      assert order[..0] == [];
    }
  }

  lemma WrittenAll(d: Disk, texts: Disk, order: seq<string>)
    requires (forall p :: p in order <==> p in texts) && forall p :: p in texts ==> p in d
    ensures Written(d, texts, order, |order|) == d + texts
  {
    WrittenAt(d, texts, order, |order|);
    assert order[..|order|] == order;
  }

  lemma SplitDistinct(order: seq<string>, k: nat)
    requires k <= |order| && Distinct(order)
    ensures forall p :: p in order ==> (p in order[..k] <==> p !in order[k..])
  {
    assert order == order[..k] + order[k..];
    assert forall i, j :: 0 <= i < k && 0 <= j < |order| - k ==> order[..k][i] != order[k..][j];
  }

  lemma IsOverlay(d: Disk, start: Disk, m: Disk, ps: seq<string>)
    requires d.Keys == start.Keys
    requires forall p :: p in start ==> d[p] == if p in ps && p in m then m[p] else start[p]
    ensures d == Overlay(start, m, ps)
  {
  }

  lemma ForwardAt(start: Disk, mutated: Disk, order: seq<string>, k: nat)
    requires k <= |order| && (forall p :: p in order <==> p in mutated) && forall p :: p in mutated ==> p in start
    ensures Written(start, mutated, order, k) == Overlay(start, start + mutated, order[..k])
  {
    WrittenAt(start, mutated, order, k);
    forall p | p in order[..k] ensures p in mutated {
      assert p in order;
    }
    IsOverlay(Written(start, mutated, order, k), start, start + mutated, order[..k]);
  }

  lemma BackAt(start: Disk, mutated: Disk, originals: Disk, order: seq<string>, k: nat)
    requires Restores(start, originals) && mutated.Keys == originals.Keys && Distinct(order)
    requires k <= |order| && forall p :: p in order <==> p in originals
    ensures Written(start + mutated, originals, order, k) == Overlay(start, start + mutated, order[k..])
  {
    var d := Written(start + mutated, originals, order, k);
    WrittenAt(start + mutated, originals, order, k);
    SplitDistinct(order, k);
    forall p | p in start
      ensures d[p] == if p in order[k..] && p in start + mutated then (start + mutated)[p] else start[p]
    {
      if p in order {
        assert p in order[..k] <==> p !in order[k..];
      } else {
        assert p !in order[k..] && p !in order[..k];
      }
    }
    IsOverlay(d, start, start + mutated, order[k..]);
  }

  /** Writing the mutated texts goes forward through the overlays. */
  lemma WritesForward(start: Disk, mutated: Disk, order: seq<string>)
    requires (forall p :: p in order <==> p in mutated) && forall p :: p in mutated ==> p in start
    ensures Writes(start, mutated, order) == Forward(start, start + mutated, order)
  {
    var f, g := WrittenTo(start, mutated, order), MutatedTo(start, start + mutated, order);
    forall k: nat | 0 < k <= |order| ensures f(k) == g(k) {
      ForwardAt(start, mutated, order, k);
    }
    SameRunning(f, g, |order|);
  }

  /** Writing the originals over the mutant goes back through them, in the same order. */
  lemma WritesBack(start: Disk, mutated: Disk, originals: Disk, order: seq<string>)
    requires Restores(start, originals) && mutated.Keys == originals.Keys && Distinct(order)
    requires forall p :: p in order <==> p in originals
    ensures Writes(start + mutated, originals, order) == Back(start, start + mutated, order)
  {
    var f, g := WrittenTo(start + mutated, originals, order), MutatedFrom(start, start + mutated, order);
    forall k: nat | 0 < k <= |order| ensures f(k) == g(k) {
      BackAt(start, mutated, originals, order, k);
    }
    SameRunning(f, g, |order|);
  }

  // ------------------------------------------------------------------ the checkout

  class Tree {
    var files: Disk
    /** Every disk there has been since the tree was opened, one per write or removal. */
    ghost var trace: seq<Disk>

    constructor (disk: Disk)
      ensures files == disk && trace == []
    {
      files, trace := disk, [];
    }

    /** One atomic file write. */
    method Write(path: string, text: string)
      modifies this
      ensures files == old(files)[path := text] && trace == old(trace) + [files]
    {
      files := files[path := text];
      trace := trace + [files];
    }

    method Remove(path: string)
      modifies this
      ensures files == old(files) - {path} && trace == old(trace) + [files]
    {
      files := files - {path};
      trace := trace + [files];
    }

    /** Snapshots each edited file once, checking that it exists. */
    method Snapshot(edits: seq<Edit>) returns (ok: bool, originals: Disk, order: seq<string>)
      ensures ok <==> forall k :: 0 <= k < |edits| ==> edits[k].path in files
      ensures ok ==> originals == Originals(files, edits)
      ensures ok ==> order == WriteOrder(edits)
    {
      originals, order := map[], [];
      for k := 0 to |edits|
        invariant forall j :: 0 <= j < k ==> edits[j].path in files
        invariant originals == Originals(files, edits[..k]) && order == WriteOrder(edits[..k])
      {
        var p := edits[k].path;
        if p !in files {
          return false, originals, order;
        }
        SnapshotStep(files, edits, k);
        if p !in originals {
          originals, order := originals[p := files[p]], order + [p];
        }
      }
      assert edits[..|edits|] == edits;
      ok := true;
    }

    /** Writes the given text to each listed file, in order. */
    method WriteAll(texts: Disk, order: seq<string>)
      requires forall p :: p in order <==> p in texts
      requires forall p :: p in texts ==> p in files
      modifies this
      ensures files == old(files) + texts && trace == old(trace) + Writes(old(files), texts, order)
    {
      ghost var was, before := files, trace;
      for k := 0 to |order|
        invariant files == Written(was, texts, order, k)
        invariant trace == before + Running(WrittenTo(was, texts, order), k)
      {
        assert order[k] in order;
        Write(order[k], texts[order[k]]);
      }
      WrittenAll(was, texts, order);
    }

    /** Whether every listed file holds its original text again. */
    method Unchanged(originals: Disk, order: seq<string>) returns (same: bool)
      requires forall p :: p in order <==> p in originals
      requires forall p :: p in order ==> p in files
      ensures same <==> forall p :: p in originals ==> files[p] == originals[p]
    {
      for k := 0 to |order|
        invariant forall j :: 0 <= j < k ==> files[order[j]] == originals[order[j]]
      {
        assert order[k] in order;
        if files[order[k]] != originals[order[k]] {
          return false;
        }
      }
      same := true;
    }

    /** Whether every anchor counts exactly once in its file's original text. */
    method CheckAnchors(originals: Disk, edits: seq<Edit>) returns (ok: bool)
      requires forall k :: 0 <= k < |edits| ==> edits[k].path in files
      requires originals == Originals(files, edits)
      ensures ok <==> Applicable(files, edits)
    {
      for k := 0 to |edits|
        invariant forall j :: 0 <= j < k ==> AnchorOk(files[edits[j].path], edits[j])
      {
        if edits[k].Replace? && CountOf(originals[edits[k].path], edits[k].before) != 1 {
          return false;
        }
      }
      ok := true;
    }

    /** Mutate, measure, restore. The files end as they began on every exit, the disk goes through
        exactly the states listed, and the outcome is the one called for: CAUGHT exactly when every
        anchor counts once, no edit is a no-op at its turn, and the guard passes on the files as found
        and fails on the mutant, so never for edits whose net effect is nothing; and never a failed
        restore. */
    method RunEdits(edits: seq<Edit>, guard: Disk -> Answer) returns (exit: Exit)
      modifies this
      ensures files == old(files) && exit == Measure(old(files), edits, guard)
      ensures Verdicts(old(files), edits, guard, exit)
      ensures Applicable(old(files), edits) && Mutant(old(files), edits) == Some(old(files)) ==> exit != Done(Caught)
      ensures trace == old(trace) + StatesOf(old(files), edits, guard)
    {
      MeasuredExactly(files, edits, guard);
      if Applicable(files, edits) && Mutant(files, edits) == Some(files) {
        NetNothingIsNeverCaught(files, edits, guard);
      }
      var ok, originals, order := Snapshot(edits);
      if ok {
        ok := CheckAnchors(originals, edits);
      }
      if !ok {
        return Done(SetupFail);
      }
      var answer := guard(files);
      if answer != Green {
        return if answer == Red then Done(SetupFail) else Raises;
      }
      exit := RunMutant(edits, originals, order, guard);
    }

    /** The run once the edits apply and the guard has passed. */
    method RunMutant(edits: seq<Edit>, originals: Disk, order: seq<string>, guard: Disk -> Answer)
      returns (exit: Exit)
      requires Applicable(files, edits) && guard(files) == Green
      requires originals == Originals(files, edits) && order == WriteOrder(edits)
      modifies this
      ensures files == old(files)
      ensures exit == match Mutant(old(files), edits)
                      case None => Done(SetupFail)
                      case Some(m) => AfterRestore(guard(m))
      ensures trace == old(trace) + StatesOf(old(files), edits, guard)
    {
      OrderCovers(files, edits);
      var mutated := MutateTexts(files, originals, edits);
      if mutated.None? {
        RestoreTwice(originals, order);
        return Done(SetupFail);
      }
      exit := RunTexts(mutated.value, originals, order, guard);
    }

    /** The run once the mutated texts are made. */
    method RunTexts(mutated: Disk, originals: Disk, order: seq<string>, guard: Disk -> Answer)
      returns (exit: Exit)
      requires Restores(files, originals) && mutated.Keys == originals.Keys && Distinct(order)
      requires (forall p :: p in order <==> p in originals) && guard(files) == Green
      modifies this
      ensures files == old(files) && exit == AfterRestore(guard(files + mutated))
      ensures trace == old(trace) + Phases(files, files + mutated, order, guard(files + mutated) == RuntimeFault)
    {
      var answer := MeasureMutant(mutated, originals, order, guard);
      if answer == RuntimeFault {
        return Done(SetupFail);
      }
      if answer == OtherFault {
        return Raises;
      }
      exit := Conclude(answer == Red, originals, order, guard);
    }

    /** The verdict once the files are restored: they are compared and the guard is run again. */
    method Conclude(caught: bool, originals: Disk, order: seq<string>, guard: Disk -> Answer) returns (exit: Exit)
      requires Restores(files, originals) && guard(files) == Green
      requires forall p :: p in order <==> p in originals
      ensures exit == Done(if caught then Caught else Miss)
    {
      var same := Unchanged(originals, order);
      var again := guard(files);
      exit :=
        if !same || again == Red then Done(RestoreRed)
        else if again != Green then Raises
        else if caught then Done(Caught)
        else Done(Miss);
    }

    /** Writes the mutated texts. */
    method WriteMutant(mutated: Disk, order: seq<string>)
      requires (forall p :: p in order <==> p in mutated) && forall p :: p in mutated ==> p in files
      modifies this
      ensures files == old(files) + mutated
      ensures trace == old(trace) + Forward(old(files), old(files) + mutated, order)
    {
      WritesForward(files, mutated, order);
      WriteAll(mutated, order);
    }

    /** Writes the originals back over a mutant of the start. */
    method WriteBack(originals: Disk, order: seq<string>, ghost start: Disk, ghost mutated: Disk)
      requires Restores(start, originals) && mutated.Keys == originals.Keys && Distinct(order)
      requires (forall p :: p in order <==> p in originals) && files == start + mutated
      modifies this
      ensures files == start && trace == old(trace) + Back(start, start + mutated, order)
    {
      WritesBack(start, mutated, originals, order);
      OverlayFacts(start, mutated, originals);
      WriteAll(originals, order);
    }

    /** After a no-op nothing has been written: the handler restores, and then so does the finalizer. */
    method RestoreTwice(originals: Disk, order: seq<string>)
      requires Restores(files, originals) && Distinct(order)
      requires forall p :: p in order <==> p in originals
      modifies this
      ensures files == old(files)
      ensures trace == old(trace) + Rewritten(files, order)
    {
      ghost var start, before, bs := files, trace, Back(files, files, order);
      NothingNew(start, originals);
      WriteBack(originals, order, start, originals);
      WriteBack(originals, order, start, originals);
      Associate(before, bs, bs);
    }

    /** Writes the mutant, runs the guard on it, and restores; a run-time fault is handled by one more
        restore before the finalizer's. */
    method MeasureMutant(mutated: Disk, originals: Disk, order: seq<string>, guard: Disk -> Answer)
      returns (answer: Answer)
      requires Restores(files, originals) && mutated.Keys == originals.Keys && Distinct(order)
      requires forall p :: p in order <==> p in originals
      modifies this
      ensures files == old(files) && answer == guard(files + mutated)
      ensures trace == old(trace) + Phases(files, files + mutated, order, answer == RuntimeFault)
    {
      ghost var start, m, before := files, files + mutated, trace;
      NothingNew(start, originals);
      WriteMutant(mutated, order);
      answer := guard(files);
      WriteBack(originals, order, start, mutated);
      if answer == RuntimeFault {
        WriteBack(originals, order, start, originals);
      }
      PhasesInTurn(before, Forward(start, m, order), Back(start, m, order), Back(start, start, order));
    }
  }

  lemma NothingNew(disk: Disk, originals: Disk)
    requires Restores(disk, originals)
    ensures disk + originals == disk
  {
  }

  lemma PhasesInTurn(before: seq<Disk>, fs: seq<Disk>, bs: seq<Disk>, again: seq<Disk>)
    ensures ((before + fs) + bs) + again == before + ((fs + bs) + again)
    ensures (before + fs) + bs == before + ((fs + bs) + [])
  {
    Associate(before, fs, bs);
    Associate(before, fs + bs, again);
    assert (fs + bs) + [] == fs + bs;
  }

  /** The originals are the texts of some of the files as they are. */
  predicate Restores(disk: Disk, originals: Disk) {
    forall p :: p in originals ==> p in disk && originals[p] == disk[p]
  }

  /** Writing over some files and then writing their originals back leaves the disk as it was. */
  lemma OverlayFacts(disk: Disk, mutated: Disk, originals: Disk)
    requires Restores(disk, originals) && mutated.Keys == originals.Keys
    ensures (disk + mutated) + originals == disk
  {
  }

  lemma InOrder(disk: Disk, edits: seq<Edit>, p: string)
    requires forall k :: 0 <= k < |edits| ==> edits[k].path in disk
    ensures p in WriteOrder(edits) <==> p in Originals(disk, edits)
  {
    WriteOrderLists(edits);
  }

  lemma SnapshottedAsFound(disk: Disk, edits: seq<Edit>, p: string)
    requires p in Originals(disk, edits)
    ensures p in disk && Originals(disk, edits)[p := disk[p]] == Originals(disk, edits)
  {
  }

  lemma OrderStep(edits: seq<Edit>, k: nat)
    requires k < |edits|
    ensures var order := WriteOrder(edits[..k]);
            WriteOrder(edits[..k + 1]) == if edits[k].path in order then order else order + [edits[k].path]
  {
    assert edits[..k + 1][..k] == edits[..k];
  }

  /** The files in the write order are the ones snapshotted. */
  lemma OrderCovers(disk: Disk, edits: seq<Edit>)
    requires forall k :: 0 <= k < |edits| ==> edits[k].path in disk
    ensures forall p :: p in WriteOrder(edits) <==> p in Originals(disk, edits)
    ensures Distinct(WriteOrder(edits)) && Restores(disk, Originals(disk, edits))
  {
    WriteOrderLists(edits);
  }

  /** A file is snapshotted, and takes its place in the order, when it is first edited. */
  lemma SnapshotStep(disk: Disk, edits: seq<Edit>, k: nat)
    requires k < |edits| && forall j :: 0 <= j <= k ==> edits[j].path in disk
    ensures var p, originals, order := edits[k].path, Originals(disk, edits[..k]), WriteOrder(edits[..k]);
            if p in originals then
              Originals(disk, edits[..k + 1]) == originals && WriteOrder(edits[..k + 1]) == order
            else
              Originals(disk, edits[..k + 1]) == originals[p := disk[p]] && WriteOrder(edits[..k + 1]) == order + [p]
  {
    OriginalsStep(disk, edits, k);
    OrderStep(edits, k);
    InOrder(disk, edits[..k], edits[k].path);
    if edits[k].path in Originals(disk, edits[..k]) {
      SnapshottedAsFound(disk, edits[..k], edits[k].path);
    }
  }

  lemma OriginalsStep(disk: Disk, edits: seq<Edit>, k: nat)
    requires k < |edits| && edits[k].path in disk
    ensures Originals(disk, edits[..k + 1]) == Originals(disk, edits[..k])[edits[k].path := disk[edits[k].path]]
  {
    assert edits[..k + 1] == edits[..k] + [edits[k]];
  }

  lemma OriginalsAreNothingNew(disk: Disk, edits: seq<Edit>)
    ensures disk + Originals(disk, edits) == disk
  {
  }

  /** Applies the edits to the snapshots in memory, stopping at one that changes nothing. */
  method MutateTexts(ghost disk: Disk, originals: Disk, edits: seq<Edit>) returns (mutated: Option<Disk>)
    requires forall k :: 0 <= k < |edits| ==> edits[k].path in disk
    requires originals == Originals(disk, edits)
    ensures mutated.None? <==> Mutant(disk, edits).None?
    ensures mutated.Some? ==>
              mutated.value.Keys == originals.Keys && disk + mutated.value == Mutant(disk, edits).value
  {
    OriginalsAreNothingNew(disk, edits);
    var texts := originals;
    assert edits[0..] == edits;
    for k := 0 to |edits|
      invariant texts.Keys == originals.Keys
      invariant Mutant(disk, edits) == Mutant(disk + texts, edits[k..])
    {
      var e := edits[k];
      EditInMemory(disk, originals, texts, edits, k);
      var text := Edited(texts[e.path], e);
      if text == texts[e.path] {
        return None;
      }
      texts := texts[e.path := text];
    }
    assert edits[|edits|..] == [];
    mutated := Some(texts);
  }

  lemma EditInMemory(disk: Disk, originals: Disk, texts: Disk, edits: seq<Edit>, k: nat)
    requires forall k :: 0 <= k < |edits| ==> edits[k].path in disk
    requires originals == Originals(disk, edits) && texts.Keys == originals.Keys && k < |edits|
    ensures edits[k].path in texts
    ensures var e := edits[k]; var text := Edited(texts[e.path], e);
            Mutant(disk + texts, edits[k..]) ==
              if text == texts[e.path] then None else Mutant(disk + texts[e.path := text], edits[k + 1..])
  {
    var e := edits[k];
    assert e.path in originals;
    assert edits[k..][0] == e && edits[k..][1..] == edits[k + 1..];
    var text := Edited(texts[e.path], e);
    assert (disk + texts)[e.path := text] == disk + texts[e.path := text];
  }
}
