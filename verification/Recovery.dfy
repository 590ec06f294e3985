/** The battery that survives being killed: recovering a checkout a previous run left mutated. */
module Recovery {
  import opened Prelude
  import opened PyText
  import opened Harness
  import opened Battery
  import opened Stranding

  const M10: string := "src/freight_recon/compensation.py"
  const MIG: string := "src/freight_recon/migrations/phase6_compensations.py"
  const SCHEMA: string := "src/freight_recon/schema.py"
  const SHADOW: string := "src/freight_recon/compensation_shadow.py"
  const TARGETS: seq<string> := [M10, MIG, SCHEMA]

  /** The re-export shim written over the machine; it carries the battery's mark. */
  const SHIM_TEXT: string :=
    "\"\"\"M10 relocated behind a re-export shim (" + "MUTANT" +
    " anti-vacuity control).\"\"\"\nfrom .compensation_shadow import *  # noqa: F401,F403\n"

  /** Carries one of the marks every mutant leaves. */
  predicate Poisoned(text: string) {
    Contains(text, "MUTANT") || Contains(text, "compensation_shadow")
  }

  datatype Healing = Healing(ok: bool, disk: Disk)

  /** For each target in turn: one that differs from its committed text is rewritten with it if it
      carries a mark, and otherwise stops the run. */
  function HealAll(d: Disk, head: Disk, targets: seq<string>): Healing {
    if targets == [] then Healing(true, d) else
      var t := targets[0];
      if t !in d || t !in head || d[t] == head[t] then HealAll(d, head, targets[1..])
      else if Poisoned(d[t]) then HealAll(d[t := head[t]], head, targets[1..])
      else Healing(false, d)
  }

  /** A target whose content differs from its committed text. */
  predicate Dirty(d: Disk, head: Disk, t: string) {
    t in d && t in head && d[t] != head[t]
  }

  /** From any disk: healing succeeds exactly when every dirty target carries a mark; it then leaves
      every known target at its committed text; and, whether or not it succeeds, it never touches a
      file that is not a dirty, marked target. */
  lemma {:induction false} HealingIsSafe(d: Disk, head: Disk, targets: seq<string>)
    requires Distinct(targets)
    ensures var h := HealAll(d, head, targets);
            && (h.ok <==> forall t :: t in targets && Dirty(d, head, t) ==> Poisoned(d[t]))
            && (h.ok ==> forall t :: t in targets ==> !Dirty(h.disk, head, t))
            && h.disk.Keys == d.Keys
            && (forall p :: p in d ==>
                  h.disk[p] == d[p] ||
                  (p in targets && Dirty(d, head, p) && Poisoned(d[p]) && h.disk[p] == head[p]))
  {
    if targets != [] {
      var t, rest := targets[0], targets[1..];
      assert t !in rest;
      assert forall x :: x in targets <==> x == t || x in rest;
      if t !in d || t !in head || d[t] == head[t] {
        HealingIsSafe(d, head, rest);
      } else if Poisoned(d[t]) {
        HealingIsSafe(d[t := head[t]], head, rest);
      } else {
        assert Dirty(d, head, t);
      }
    }
  }

  // ------------------------------------------------------------------ disks that can be recovered

  /** A checkout as committed, with no shadow module. */
  ghost predicate Clean(start: Disk, head: Disk) {
    SHADOW !in start && forall t :: t in TARGETS ==> !Dirty(start, head, t)
  }

  /** d differs from start at most by the shadow module and by marked, committed targets. */
  ghost predicate Stray(d: Disk, start: Disk, head: Disk) {
    && (forall p :: p != SHADOW ==> (p in d <==> p in start))
    && (forall p :: p in d && p != SHADOW && d[p] != start[p] ==> p in TARGETS && p in head && Poisoned(d[p]))
  }

  /** Purging the shadow and healing turns any such disk back into the clean start. */
  lemma StrayRecovers(d: Disk, start: Disk, head: Disk)
    requires Clean(start, head) && Stray(d, start, head)
    ensures HealAll(d - {SHADOW}, head, TARGETS) == Healing(true, start)
  {
    HealsTo(d - {SHADOW}, start, head, TARGETS);
  }

  lemma {:induction false} HealsTo(d: Disk, start: Disk, head: Disk, targets: seq<string>)
    requires Clean(start, head) && d.Keys == start.Keys
    requires forall t :: t in targets ==> t in TARGETS
    requires forall p :: p in d && d[p] != start[p] ==> p in targets && p in head && Poisoned(d[p])
    ensures HealAll(d, head, targets) == Healing(true, start)
  {
    if targets == [] {
      assert d == start;
    } else {
      var t := targets[0];
      assert forall x :: x in targets <==> x == t || x in targets[1..];
      assert t in start ==> !Dirty(start, head, t);
      HealsTo(if t in d && t in head && d[t] != head[t] then d[t := head[t]] else d, start, head, targets[1..]);
    }
  }

  /** Every edit is of a committed target and its new text carries a mark. */
  ghost predicate Marked(edits: seq<Edit>, head: Disk) {
    forall k :: 0 <= k < |edits| ==>
      edits[k].path in TARGETS && edits[k].path in head && Poisoned(edits[k].after)
  }

  lemma EditLeavesMark(text: string, e: Edit)
    requires Poisoned(e.after) && Edited(text, e) != text
    ensures Poisoned(Edited(text, e))
  {
    var r := Edited(text, e);
    match e {
      case Replace(_, before, after) => ReplacementShows(text, before, after);
      case Append(_, after) => ContainsPiece(text, after, ""); assert text + after + "" == r;
    }
    if Contains(e.after, "MUTANT") {
      ContainsTransitive(r, e.after, "MUTANT");
    } else {
      ContainsTransitive(r, e.after, "compensation_shadow");
    }
  }

  /** The mutant's changed files are marked: the last edit of each is still to be seen in it. */
  lemma {:induction false} MutantIsMarked(disk: Disk, edits: seq<Edit>, head: Disk)
    requires Marked(edits, head)
    requires forall k :: 0 <= k < |edits| ==> edits[k].path in disk
    requires Mutant(disk, edits).Some?
    ensures var m := Mutant(disk, edits).value;
            forall p :: p in m && m[p] != disk[p] ==> p in TARGETS && p in head && Poisoned(m[p])
  {
    if edits != [] {
      var e := edits[0];
      EditLeavesMark(disk[e.path], e);
      MutantIsMarked(disk[e.path := Edited(disk[e.path], e)], edits[1..], head);
    }
  }

  /** Every file a case would change is a committed target and holds a mark once changed. A case that
      never writes, because it does not apply, its guard does not pass on the
      files as found, or an edit is a no-op, changes nothing. */
  ghost predicate LeavesMarks(start: Disk, edits: seq<Edit>, guard: Disk -> Answer, head: Disk) {
    var m := Aim(start, edits, guard);
    forall p :: p in start && m[p] != start[p] ==> p in TARGETS && p in head && Poisoned(m[p])
  }

  /** Marks in the replacements are enough, though not needed: what counts is the mutant. */
  lemma MarkedLeavesMarks(start: Disk, edits: seq<Edit>, guard: Disk -> Answer, head: Disk)
    requires Marked(edits, head)
    ensures LeavesMarks(start, edits, guard, head)
  {
    if Applicable(start, edits) && Mutant(start, edits).Some? {
      MutantIsMarked(start, edits, head);
    }
  }

  /** Purging the shadow and healing recovers the clean start. */
  ghost predicate Recovers(d: Disk, start: Disk, head: Disk) {
    HealAll(d - {SHADOW}, head, TARGETS) == Healing(true, start)
  }

  /** Whatever state a case is killed in is a marked stray checkout, if the case leaves marks. */
  lemma CrashStatesAreStray(d: Disk, start: Disk, edits: seq<Edit>, guard: Disk -> Answer, head: Disk)
    requires Clean(start, head) && LeavesMarks(start, edits, guard, head) && CrashState(d, start, edits, guard)
    ensures Stray(d, start, head)
  {
    CrashStateIsBetween(d, start, edits, guard);
  }

  /** The mutant a case writes is one of the states it can be killed in. */
  lemma AimIsReached(start: Disk, edits: seq<Edit>, guard: Disk -> Answer)
    ensures CrashState(Aim(start, edits, guard), start, edits, guard)
  {
    var order, m, c := WriteOrder(edits), Aim(start, edits, guard), Case(edits, guard);
    if m != start {
      StatesWhenWritten(start, c, m);
      MutantIsOverlay(start, edits, m);
      assert order[0..|order|] == order;
      assert IsEnd(start, m, order, m, |order|);
      EndIsPhase(start, m, order, guard(m) == RuntimeFault, m, |order|);
    }
  }

  /** A mutant is the tree as found with all edited files mutated. */
  lemma MutantIsOverlay(start: Disk, edits: seq<Edit>, m: Disk)
    requires forall k :: 0 <= k < |edits| ==> edits[k].path in start
    requires Mutant(start, edits) == Some(m)
    ensures Overlay(start, m, WriteOrder(edits)) == m
  {
    WriteOrderLists(edits);
    forall p | p in start && p !in WriteOrder(edits) ensures m[p] == start[p] {
      assert !IsEdited(p, edits);
      UneditedStays(start, edits, p);
    }
    IsOverlay(m, start, m, WriteOrder(edits));
  }

  /** Every state a case can be killed in recovers the clean start exactly when each file its mutant
      changes is a committed target holding a mark. */
  lemma CrashStatesRecoverExactly(start: Disk, edits: seq<Edit>, guard: Disk -> Answer, head: Disk)
    requires Clean(start, head)
    ensures (forall d :: CrashState(d, start, edits, guard) ==> Recovers(d, start, head)) <==>
              LeavesMarks(start, edits, guard, head)
  {
    if LeavesMarks(start, edits, guard, head) {
      forall d | CrashState(d, start, edits, guard) ensures Recovers(d, start, head) {
        CrashStatesAreStray(d, start, edits, guard, head);
        StrayRecovers(d, start, head);
      }
    }
    if forall d :: CrashState(d, start, edits, guard) ==> Recovers(d, start, head) {
      var m := Aim(start, edits, guard);
      AimIsReached(start, edits, guard);
      assert Recovers(m, start, head);
      RecoveredWasMarked(m, start, head);
    }
  }

  /** Healing changes nothing but marked, committed targets. */
  lemma RecoveredWasMarked(m: Disk, start: Disk, head: Disk)
    requires Clean(start, head) && m.Keys == start.Keys && Recovers(m, start, head)
    ensures forall p :: p in start && m[p] != start[p] ==> p in TARGETS && p in head && Poisoned(m[p])
  {
    PathsDiffer();
    assert m - {SHADOW} == m;
    HealingIsSafe(m, head, TARGETS);
  }

  // ------------------------------------------------------------------ the battery

  /** The checkout can be recovered to the clean start now, and could after every write since `before`. */
  ghost predicate Tracked(tree: Tree, before: seq<Disk>, start: Disk, head: Disk)
    reads tree
  {
    && Clean(start, head) && Stray(tree.files, start, head)
    && |before| <= |tree.trace| && tree.trace[..|before|] == before
    && forall k :: |before| <= k < |tree.trace| ==> Stray(tree.trace[k], start, head)
  }

  /** A write that keeps the checkout recoverable keeps it tracked. */
  method WriteTracked(tree: Tree, path: string, text: string,
                      ghost before: seq<Disk>, ghost start: Disk, ghost head: Disk)
    modifies tree
    ensures tree.files == old(tree.files)[path := text]
    ensures old(Tracked(tree, before, start, head)) && Stray(tree.files, start, head) ==>
              Tracked(tree, before, start, head)
  {
    tree.Write(path, text);
  }

  method PurgeShadow(tree: Tree, ghost before: seq<Disk>, ghost start: Disk, ghost head: Disk)
    modifies tree
    ensures tree.files == old(tree.files) - {SHADOW}
    ensures old(Tracked(tree, before, start, head)) ==> Tracked(tree, before, start, head)
  {
    if SHADOW in tree.files {
      tree.Remove(SHADOW);
    }
  }

  /** Heals target by target, stopping at uncommitted work. */
  method Heal(tree: Tree, head: Disk, ghost before: seq<Disk>, ghost start: Disk) returns (ok: bool)
    modifies tree
    ensures var h := HealAll(old(tree.files), head, TARGETS); ok == h.ok && tree.files == h.disk
    ensures old(Tracked(tree, before, start, head)) ==> Tracked(tree, before, start, head)
  {
    ghost var d, tracked := tree.files, Tracked(tree, before, start, head);
    PathsDiffer();
    assert TARGETS[0..] == TARGETS;
    for k := 0 to |TARGETS|
      invariant HealAll(d, head, TARGETS) == HealAll(tree.files, head, TARGETS[k..])
      invariant tracked ==> Tracked(tree, before, start, head)
    {
      var t := TARGETS[k];
      assert TARGETS[k..][0] == t && TARGETS[k..][1..] == TARGETS[k + 1..];
      if t in tree.files && t in head && tree.files[t] != head[t] {
        if !Poisoned(tree.files[t]) {
          return false;
        }
        if tracked {
          HealedIsStray(tree.files, start, head, t);
        }
        WriteTracked(tree, t, head[t], before, start, head);
      }
    }
    assert TARGETS[|TARGETS|..] == [];
    ok := true;
  }

  lemma HealedIsStray(d: Disk, start: Disk, head: Disk, t: string)
    requires Clean(start, head) && Stray(d, start, head) && t in TARGETS && t in d && t in head && t != SHADOW
    ensures Stray(d[t := head[t]], start, head)
  {
    assert !Dirty(start, head, t);
  }

  // ------------------------------------------------------------------ the re-export shim

  /** The disk with the machine moved into the shadow module and a shim in its place. */
  function Shimmed(disk: Disk): Disk
    requires M10 in disk
  {
    disk[SHADOW := disk[M10]][M10 := SHIM_TEXT]
  }

  /** The outcome of the shim case; disk is already free of a stranded shadow. */
  function MeasureShim(disk: Disk, guard: Disk -> Answer): Exit {
    if M10 !in disk then Raises
    else match guard(disk)
      case Red => Done(SetupFail)
      case RuntimeFault => Raises
      case OtherFault => Raises
      case Green =>
        match guard(Shimmed(disk))
        case Green => Done(Miss)
        case Red => Done(Caught)
        case RuntimeFault => Raises
        case OtherFault => Raises
  }

  /** The control's verdict: CAUGHT when the guard passes without the shim and fails with the machine in
      the shadow module and the shim's text in its place, MISS when it passes both times. */
  ghost predicate ShimVerdict(disk: Disk, guard: Disk -> Answer, exit: Exit) {
    && exit != Done(RestoreRed)
    && (exit == Done(SetupFail) <==> M10 in disk && guard(disk) == Red)
    && (exit == Done(Caught) <==>
          M10 in disk && guard(disk) == Green && guard(disk[SHADOW := disk[M10]][M10 := SHIM_TEXT]) == Red)
    && (exit == Done(Miss) <==>
          M10 in disk && guard(disk) == Green && guard(disk[SHADOW := disk[M10]][M10 := SHIM_TEXT]) == Green)
  }

  lemma ShimIsPoisoned()
    ensures Poisoned(SHIM_TEXT)
  {
    var a, b := "\"\"\"M10 relocated behind a re-export shim (",
      " anti-vacuity control).\"\"\"\nfrom .compensation_shadow import *  # noqa: F401,F403\n";
    ContainsPiece(a, "MUTANT", b);
  }

  lemma PathsDiffer()
    ensures M10 != SHADOW && MIG != SHADOW && SCHEMA != SHADOW && M10 != MIG && M10 != SCHEMA && MIG != SCHEMA
    ensures SHADOW !in TARGETS && M10 in TARGETS && Distinct(TARGETS)
  {
    assert |M10| == 33 && |MIG| == 52 && |SCHEMA| == 27 && |SHADOW| == 40;
    assert TARGETS[0] == M10;
  }

  /** Moves the machine behind a shim, measures, and moves it back; the shadow never survives. */
  method RunShim(tree: Tree, guard: Disk -> Answer, ghost before: seq<Disk>, ghost start: Disk, ghost head: Disk)
    returns (exit: Exit)
    modifies tree
    ensures tree.files == if M10 in old(tree.files) then old(tree.files) - {SHADOW} else old(tree.files)
    ensures exit == MeasureShim(old(tree.files) - {SHADOW}, guard)
    ensures ShimVerdict(old(tree.files) - {SHADOW}, guard, exit)
    ensures old(Tracked(tree, before, start, head)) && M10 in head ==> Tracked(tree, before, start, head)
  {
    PathsDiffer();
    if M10 !in tree.files {
      return Raises;
    }
    var original := tree.files[M10];
    PurgeShadow(tree, before, start, head);
    var answer := guard(tree.files);
    if answer != Green {
      return if answer == Red then Done(SetupFail) else Raises;
    }
    answer := MeasureShimmed(tree, original, guard, before, start, head);
    if answer in {RuntimeFault, OtherFault} {
      return Raises;
    }
    var again := guard(tree.files);
    exit :=
      if tree.files[M10] != original || SHADOW in tree.files || again == Red then Done(RestoreRed)
      else if again != Green then Raises
      else if answer == Red then Done(Caught)
      else Done(Miss);
  }

  lemma ShimStatesAreStray(d: Disk, start: Disk, head: Disk)
    requires Stray(d, start, head) && M10 in d && M10 in head
    ensures Stray(d[SHADOW := d[M10]], start, head) && Stray(Shimmed(d), start, head)
  {
    PathsDiffer();
    ShimIsPoisoned();
  }

  /** Writes the shadow and the shim, runs the guard, and undoes both; an exception is handled by
      undoing them once more. */
  method MeasureShimmed(tree: Tree, original: string, guard: Disk -> Answer,
                        ghost before: seq<Disk>, ghost start: Disk, ghost head: Disk) returns (answer: Answer)
    requires M10 in tree.files && original == tree.files[M10] && SHADOW !in tree.files
    modifies tree
    ensures tree.files == old(tree.files) && answer == guard(Shimmed(old(tree.files)))
    ensures old(Tracked(tree, before, start, head)) && M10 in head ==> Tracked(tree, before, start, head)
  {
    PathsDiffer();
    ghost var d := tree.files;
    ghost var tracked := Tracked(tree, before, start, head) && M10 in head;
    if tracked {
      ShimStatesAreStray(d, start, head);
    }
    WriteTracked(tree, SHADOW, original, before, start, head);
    WriteTracked(tree, M10, SHIM_TEXT, before, start, head);
    answer := guard(tree.files);
    if answer in {RuntimeFault, OtherFault} {
      MoveBack(tree, original, d, before, start, head);
    }
    MoveBack(tree, original, d, before, start, head);
  }

  method MoveBack(tree: Tree, original: string, ghost d: Disk,
                  ghost before: seq<Disk>, ghost start: Disk, ghost head: Disk)
    requires M10 in d && original == d[M10] && M10 != SHADOW && SHADOW !in d
    requires M10 in tree.files && tree.files[M10 := original] - {SHADOW} == d
    modifies tree
    ensures tree.files == d
    ensures old(Tracked(tree, before, start, head)) && Stray(d, start, head) ==> Tracked(tree, before, start, head)
  {
    ghost var tracked := Tracked(tree, before, start, head) && Stray(d, start, head);
    assert tracked ==> Stray(tree.files[M10 := original], start, head);
    WriteTracked(tree, M10, original, before, start, head);
    PurgeShadow(tree, before, start, head);
  }

  // ------------------------------------------------------------------ start to finish

  ghost predicate AllLeaveMarks(start: Disk, cases: seq<Case>, head: Disk) {
    forall k :: 0 <= k < |cases| ==> LeavesMarks(start, cases[k].edits, cases[k].guard, head)
  }

  datatype MainEnd = Refused | Finished(end: End)

  /** The exit a run calls for on a checkout that has been purged and healed. */
  function MeasureAll(disk: Disk, cases: seq<Case>, shimGuard: Disk -> Answer): End {
    if SomeRaises(disk, cases) || MeasureShim(disk, shimGuard) == Raises then Broken
    else Code(if AllCaught(disk, cases) && MeasureShim(disk, shimGuard) == Done(Caught) then 0 else 1)
  }

  /** The mutant of every case turns its guard from passing to failing, and so does the shim. */
  ghost predicate AllTurnRed(disk: Disk, cases: seq<Case>, shimGuard: Disk -> Answer) {
    && (forall k :: 0 <= k < |cases| ==> TurnsRed(disk, cases[k].edits, cases[k].guard))
    && M10 in disk && shimGuard(disk) == Green && shimGuard(disk[SHADOW := disk[M10]][M10 := SHIM_TEXT]) == Red
  }

  lemma ZeroExactly(disk: Disk, cases: seq<Case>, shimGuard: Disk -> Answer)
    ensures MeasureAll(disk, cases, shimGuard) == Code(0) <==> AllTurnRed(disk, cases, shimGuard)
  {
    AllCaughtExactly(disk, cases);
  }

  /** p is one of the three files the battery mutates. */
  predicate IsMutable(p: string) {
    p == M10 || p == MIG || p == SCHEMA
  }

  /** One of the three files holds work of its own: it differs from its committed text and carries
      neither mark. */
  ghost predicate HoldsOwnWork(d: Disk, head: Disk) {
    exists p :: IsMutable(p) && Dirty(d, head, p) &&
      !Contains(d[p], "MUTANT") && !Contains(d[p], "compensation_shadow")
  }

  /** d with those of the three files that differ set back to their committed text. */
  ghost predicate SetBack(before: Disk, d: Disk, head: Disk) {
    && before.Keys == d.Keys
    && forall p :: p in d ==>
         d[p] == if IsMutable(p) && Dirty(before, head, p) then head[p] else before[p]
  }

  lemma TargetsAreMutable()
    ensures forall p :: p in TARGETS <==> IsMutable(p)
  {
    assert TARGETS[0] == M10 && TARGETS[1] == MIG && TARGETS[2] == SCHEMA;
  }

  /** Healing stops exactly at work of one's own, and otherwise sets back what differs. */
  lemma HealsExactly(d: Disk, head: Disk)
    ensures HealAll(d, head, TARGETS).ok <==> !HoldsOwnWork(d, head)
    ensures HealAll(d, head, TARGETS).ok ==> SetBack(d, HealAll(d, head, TARGETS).disk, head)
  {
    PathsDiffer();
    TargetsAreMutable();
    HealingIsSafe(d, head, TARGETS);
    var h := HealAll(d, head, TARGETS);
    assert h.ok <==> forall t :: t in TARGETS && Dirty(d, head, t) ==> Poisoned(d[t]);
    if h.ok {
      forall p | p in h.disk
        ensures h.disk[p] == if IsMutable(p) && Dirty(d, head, p) then head[p] else d[p]
      {
        if IsMutable(p) {
          assert !Dirty(h.disk, head, p);
        }
      }
    }
  }

  /** Running the cases keeps a clean checkout recoverable throughout. */
  lemma CasesKeepTracked(tree: Tree, before: seq<Disk>, newer: seq<Disk>, start: Disk, head: Disk, cases: seq<Case>)
    requires Clean(start, head) && AllLeaveMarks(start, cases, head) && tree.files == start
    requires |before| <= |newer| && newer[..|before|] == before
    requires forall k :: |before| <= k < |newer| ==> Stray(newer[k], start, head)
    requires FromCases(tree.trace, newer, start, cases)
    ensures Tracked(tree, before, start, head)
  {
    forall i | |before| <= i < |tree.trace| ensures Stray(tree.trace[i], start, head) {
      if i < |newer| {
        assert tree.trace[i] == newer[i];
      } else {
        var k :| 0 <= k < |cases| && CrashState(tree.trace[i], start, cases[k].edits, cases[k].guard);
        CrashStatesAreStray(tree.trace[i], start, cases[k].edits, cases[k].guard, head);
      }
    }
    assert tree.trace[..|before|] == before;
  }

  /** Purge, heal, run every case and the shim. From any checkout the files end as healing left them,
      and what is reported is what the healed checkout calls for. From any checkout a killed run may
      have left of a clean start, the files end clean again, and killing this run too, after whichever
      write, leaves a checkout that can still be recovered to the same start. */
  method CompensationMain(tree: Tree, head: Disk, cases: seq<Case>, shimGuard: Disk -> Answer, ghost start: Disk)
    returns (end: MainEnd)
    modifies tree
    ensures var h := HealAll(old(tree.files) - {SHADOW}, head, TARGETS);
            && tree.files == h.disk
            && end == (if h.ok then Finished(MeasureAll(h.disk, cases, shimGuard)) else Refused)
            && (end == Finished(Code(0)) <==> h.ok && AllTurnRed(h.disk, cases, shimGuard))
    ensures end == Refused <==> HoldsOwnWork(old(tree.files) - {SHADOW}, head)
    ensures end != Refused ==> SetBack(old(tree.files) - {SHADOW}, tree.files, head)
    ensures Clean(start, head) && Stray(old(tree.files), start, head) ==> tree.files == start && end != Refused
    ensures Clean(start, head) && Stray(old(tree.files), start, head) &&
            AllLeaveMarks(start, cases, head) && M10 in head ==>
              Tracked(tree, old(tree.trace), start, head)
  {
    ghost var before, d := tree.trace, tree.files;
    ghost var sound := Clean(start, head) && Stray(tree.files, start, head);
    if sound {
      StrayRecovers(tree.files, start, head);
    }
    HealsExactly(tree.files - {SHADOW}, head);
    ZeroExactly(HealAll(tree.files - {SHADOW}, head, TARGETS).disk, cases, shimGuard);
    PurgeShadow(tree, before, start, head);
    var ok := Heal(tree, head, before, start);
    if !ok {
      return Refused;
    }
    NoShadowAfterHealing(d, head);
    assert sound ==> tree.files == start && Tracked(tree, before, start, head);
    var ended := RunHealed(tree, cases, shimGuard, before, start, head);
    end := Finished(ended);
  }

  /** Runs every case and the shim on a healed checkout. */
  method RunHealed(tree: Tree, cases: seq<Case>, shimGuard: Disk -> Answer,
                   ghost before: seq<Disk>, ghost start: Disk, ghost head: Disk) returns (end: End)
    requires tree.files - {SHADOW} == tree.files
    modifies tree
    ensures tree.files == old(tree.files) && end == MeasureAll(old(tree.files), cases, shimGuard)
    ensures old(Tracked(tree, before, start, head)) && old(tree.files) == start &&
            AllLeaveMarks(start, cases, head) && M10 in head ==>
              Tracked(tree, before, start, head)
  {
    end := Broken;
    ghost var healed, newer := tree.files, tree.trace;
    ghost var tracked := Tracked(tree, before, start, head) && healed == start && AllLeaveMarks(start, cases, head);
    var verdicts, raised := RunCases(tree, cases);
    if tracked {
      CasesKeepTracked(tree, before, newer, start, head, cases);
    }
    if raised {
      return;
    }
    var shim := RunShim(tree, shimGuard, before, start, head);
    if shim == Raises {
      return;
    }
    AllCaughtCounted(healed, cases);
    var results := verdicts + [shim.verdict];
    CountSnoc(IsCaught, verdicts, shim.verdict);
    var caught := Count(IsCaught, results);
    end := Code(if caught == |results| then 0 else 1);
  }

  lemma NoShadowAfterHealing(d: Disk, head: Disk)
    ensures var h := HealAll(d - {SHADOW}, head, TARGETS); h.disk - {SHADOW} == h.disk
  {
    PathsDiffer();
    HealingIsSafe(d - {SHADOW}, head, TARGETS);
  }
}
