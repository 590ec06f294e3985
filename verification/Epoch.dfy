/** The policy-epoch battery: one loop that rewrites files edit by edit, counting each anchor in the
    text as it stands, and restores two fixed files after every case. */
module Epoch {
  import opened Prelude
  import opened PyText
  import opened Harness
  import opened Battery

  const POLICY: string := "src/freight_recon/policy.py"
  const MIGRATION: string := "src/freight_recon/migrations/phase8_policy_epochs.py"

  function Kept(disk: Disk): Disk
    requires POLICY in disk && MIGRATION in disk
  {
    map[POLICY := disk[POLICY], MIGRATION := disk[MIGRATION]]
  }

  predicate Known(cases: seq<Case>) {
    forall k, j :: 0 <= k < |cases| && 0 <= j < |cases[k].edits| ==>
      cases[k].edits[j].Replace? && cases[k].edits[j].path in {POLICY, MIGRATION}
  }

  /** The files after the edits, or None as soon as an anchor does not count exactly once. */
  function InTurn(disk: Disk, edits: seq<Edit>): (r: Option<Disk>)
    requires forall j :: 0 <= j < |edits| ==> edits[j].path in disk
    ensures r.Some? ==> r.value.Keys == disk.Keys
  {
    if edits == [] then Some(disk) else
      var e := edits[0];
      if !AnchorOk(disk[e.path], e) then None
      else InTurn(disk[e.path := Edited(disk[e.path], e)], edits[1..])
  }

  predicate ControlGreen(disk: Disk, cases: seq<Case>) {
    forall k :: 0 <= k < |cases| ==> cases[k].guard(disk) == Green
  }

  /** What the case's guard says on its mutant; a case that does not apply is not measured. */
  function CaseAnswer(disk: Disk, c: Case): Option<Answer>
    requires forall j :: 0 <= j < |c.edits| ==> c.edits[j].path in disk
  {
    match InTurn(disk, c.edits)
    case None => None
    case Some(m) => Some(c.guard(m))
  }

  /** A case counts when every edit applies in turn and the guard fails on the result. */
  predicate CaughtInTurn(disk: Disk, c: Case)
    requires forall j :: 0 <= j < |c.edits| ==> c.edits[j].path in disk
  {
    CaseAnswer(disk, c) == Some(Red)
  }

  /** Writes the kept files back. */
  method Restore(tree: Tree, originals: Disk)
    requires originals.Keys == {POLICY, MIGRATION}
    modifies tree
    ensures tree.files == old(tree.files) + originals
  {
    tree.Write(POLICY, originals[POLICY]);
    tree.Write(MIGRATION, originals[MIGRATION]);
  }

  /** Applies a case's edits to the files, stopping at an anchor that does not apply. */
  method Apply(tree: Tree, edits: seq<Edit>) returns (applied: bool)
    requires forall j :: 0 <= j < |edits| ==> edits[j].Replace? && edits[j].path in {POLICY, MIGRATION}
    requires POLICY in tree.files && MIGRATION in tree.files
    modifies tree
    ensures applied <==> InTurn(old(tree.files), edits).Some?
    ensures applied ==> tree.files == InTurn(old(tree.files), edits).value
    ensures tree.files.Keys == old(tree.files).Keys
    ensures forall p :: p in tree.files && p !in {POLICY, MIGRATION} ==> tree.files[p] == old(tree.files)[p]
  {
    ghost var start := tree.files;
    assert edits[0..] == edits;
    for j := 0 to |edits|
      invariant tree.files.Keys == start.Keys
      invariant forall p :: p in tree.files && p !in {POLICY, MIGRATION} ==> tree.files[p] == start[p]
      invariant InTurn(start, edits) == InTurn(tree.files, edits[j..])
    {
      assert edits[j..][0] == edits[j] && edits[j..][1..] == edits[j + 1..];
      var text := tree.files[edits[j].path];
      if CountOf(text, edits[j].before) != 1 {
        return false;
      }
      tree.Write(edits[j].path, ReplaceFirst(text, edits[j].before, edits[j].after));
    }
    assert edits[|edits|..] == [];
    applied := true;
  }

  /** The controls are the cases' guards, each at least once, in whatever order they were sorted. */
  ghost predicate AreControls(controls: seq<Disk -> Answer>, cases: seq<Case>) {
    && (forall k :: 0 <= k < |cases| ==> cases[k].guard in controls)
    && forall i :: 0 <= i < |controls| ==> exists k :: 0 <= k < |cases| && cases[k].guard == controls[i]
  }

  /** What the control comes to: the answer of the first guard that does not pass, if there is one. */
  function ControlAnswer(disk: Disk, controls: seq<Disk -> Answer>, i: nat): (answer: Answer)
    requires i <= |controls|
    ensures answer == Green <==> forall j :: i <= j < |controls| ==> controls[j](disk) == Green
    decreases |controls| - i
  {
    if i == |controls| then Green
    else if controls[i](disk) != Green then controls[i](disk)
    else ControlAnswer(disk, controls, i + 1)
  }

  lemma GreenControls(disk: Disk, controls: seq<Disk -> Answer>, cases: seq<Case>)
    requires AreControls(controls, cases)
    ensures ControlAnswer(disk, controls, 0) == Green <==> ControlGreen(disk, cases)
  {
    if ControlGreen(disk, cases) {
      forall i | 0 <= i < |controls| ensures controls[i](disk) == Green {
        var k :| 0 <= k < |cases| && cases[k].guard == controls[i];
        assert cases[k].guard(disk) == Green;
      }
    }
    if ControlAnswer(disk, controls, 0) == Green {
      forall k | 0 <= k < |cases| ensures cases[k].guard(disk) == Green {
        assert cases[k].guard in controls;
        var i :| 0 <= i < |controls| && controls[i] == cases[k].guard;
        assert controls[i](disk) == Green;
      }
    }
  }

  /** The control loop: every guard must pass on the files as found. */
  method CheckControl(disk: Disk, controls: seq<Disk -> Answer>) returns (answer: Answer)
    ensures answer == ControlAnswer(disk, controls, 0)
  {
    for i := 0 to |controls|
      invariant ControlAnswer(disk, controls, 0) == ControlAnswer(disk, controls, i)
    {
      answer := controls[i](disk);
      if answer != Green {
        return;
      }
    }
    answer := Green;
  }

  /** What each case's guard says on its mutant. */
  function AnswersOf(disk: Disk, cases: seq<Case>): (answers: seq<Option<Answer>>)
    requires forall k, j :: 0 <= k < |cases| && 0 <= j < |cases[k].edits| ==> cases[k].edits[j].path in disk
    ensures |answers| == |cases|
  {
    seq(|cases|, k requires 0 <= k < |cases| => CaseAnswer(disk, cases[k]))
  }

  predicate IsFault(answer: Option<Answer>) {
    answer in {Some(RuntimeFault), Some(OtherFault)}
  }

  /** How the battery ends on these answers, once the control has passed. */
  function EndOf(answers: seq<Option<Answer>>): End {
    if exists k :: 0 <= k < |answers| && IsFault(answers[k]) then Broken
    else Code(if forall k :: 0 <= k < |answers| ==> answers[k] == Some(Red) then 0 else 1)
  }

  function CasesEnd(disk: Disk, cases: seq<Case>): End
    requires forall k, j :: 0 <= k < |cases| && 0 <= j < |cases[k].edits| ==> cases[k].edits[j].path in disk
  {
    EndOf(AnswersOf(disk, cases))
  }

  /** Case k applies to files the disk has, and its answer is as listed. */
  ghost predicate AnswerAt(disk: Disk, cases: seq<Case>, answers: seq<Option<Answer>>, k: nat) {
    && k < |cases| == |answers|
    && (forall j :: 0 <= j < |cases[k].edits| ==>
          cases[k].edits[j].Replace? && cases[k].edits[j].path in {POLICY, MIGRATION} && cases[k].edits[j].path in disk)
    && answers[k] == CaseAnswer(disk, cases[k])
  }

  ghost predicate AllAnswers(disk: Disk, cases: seq<Case>, answers: seq<Option<Answer>>) {
    |cases| == |answers| &&
    forall k {:trigger AnswerAt(disk, cases, answers, k)} :: 0 <= k < |cases| ==> AnswerAt(disk, cases, answers, k)
  }

  /** One case: the mutant is measured and both files are written back, also when the guard raises. */
  method RunCase(tree: Tree, originals: Disk, c: Case) returns (answer: Option<Answer>)
    requires POLICY in tree.files && MIGRATION in tree.files && originals == Kept(tree.files)
    requires forall j :: 0 <= j < |c.edits| ==> c.edits[j].Replace? && c.edits[j].path in {POLICY, MIGRATION}
    modifies tree
    ensures tree.files == old(tree.files)
    ensures answer == CaseAnswer(old(tree.files), c)
  {
    var applied := Apply(tree, c.edits);
    answer := if applied then Some(c.guard(tree.files)) else None;
    PutBack(old(tree.files), tree.files);
    Restore(tree, originals);
  }

  lemma PutBack(start: Disk, d: Disk)
    requires POLICY in start && MIGRATION in start && d.Keys == start.Keys
    requires forall p :: p in d && p !in {POLICY, MIGRATION} ==> d[p] == start[p]
    ensures d + Kept(start) == start
  {
  }

  method RunNext(tree: Tree, originals: Disk, cases: seq<Case>, ghost answers: seq<Option<Answer>>, k: nat)
    returns (answer: Option<Answer>)
    requires POLICY in tree.files && MIGRATION in tree.files && originals == Kept(tree.files)
    requires k < |cases| && AllAnswers(tree.files, cases, answers)
    modifies tree
    ensures tree.files == old(tree.files) && answer == answers[k]
  {
    assert AnswerAt(tree.files, cases, answers, k);
    answer := RunCase(tree, originals, cases[k]);
  }

  /** Runs the cases after the control. */
  method RunBattery(tree: Tree, originals: Disk, cases: seq<Case>, ghost answers: seq<Option<Answer>>)
    returns (end: End)
    requires POLICY in tree.files && MIGRATION in tree.files && originals == Kept(tree.files)
    requires AllAnswers(tree.files, cases, answers)
    modifies tree
    ensures tree.files == old(tree.files) && end == EndOf(answers)
  {
    ghost var start := tree.files;
    var caught := 0;
    for k := 0 to |cases|
      invariant tree.files == start && 0 <= caught <= k
      invariant forall j :: 0 <= j < k ==> !IsFault(answers[j])
      invariant caught == k <==> forall j :: 0 <= j < k ==> answers[j] == Some(Red)
    {
      var answer := RunNext(tree, originals, cases, answers, k);
      if IsFault(answer) {
        return Broken;
      }
      if answer == Some(Red) {
        caught := caught + 1;
      }
    }
    end := Code(if caught == |cases| then 0 else 1);
  }

  lemma AnswersAreAnswers(disk: Disk, cases: seq<Case>)
    requires POLICY in disk && MIGRATION in disk && Known(cases)
    ensures AllAnswers(disk, cases, AnswersOf(disk, cases))
  {
  }

  /** The mutant is made, every anchor counting once at its turn, and fails its guard. */
  predicate TurnsRed(disk: Disk, c: Case)
    requires forall j :: 0 <= j < |c.edits| ==> c.edits[j].path in disk
  {
    InTurn(disk, c.edits).Some? && c.guard(InTurn(disk, c.edits).value) == Red
  }

  /** The mutant is made, and its guard raises on it. */
  predicate RaisesOnMutant(disk: Disk, c: Case)
    requires forall j :: 0 <= j < |c.edits| ==> c.edits[j].path in disk
  {
    InTurn(disk, c.edits).Some? && c.guard(InTurn(disk, c.edits).value) in {RuntimeFault, OtherFault}
  }

  /** Some guard raises on the files as found, and those before it in the control's order pass. */
  ghost predicate ControlRaises(disk: Disk, controls: seq<Disk -> Answer>) {
    exists i :: 0 <= i < |controls| && controls[i](disk) in {RuntimeFault, OtherFault} &&
      forall j :: 0 <= j < i ==> controls[j](disk) == Green
  }

  /** How the battery ends: 0 when every guard passes on the files as found and every mutant turns its
      guard red; by raising when the control does, or when it passes and a guard raises on a mutant; and
      otherwise 1. */
  ghost predicate Ends(disk: Disk, cases: seq<Case>, controls: seq<Disk -> Answer>, end: End)
    requires forall k, j :: 0 <= k < |cases| && 0 <= j < |cases[k].edits| ==> cases[k].edits[j].path in disk
  {
    && end in {Broken, Code(0), Code(1)}
    && (end == Code(0) <==> ControlGreen(disk, cases) && forall k :: 0 <= k < |cases| ==> TurnsRed(disk, cases[k]))
    && (end == Broken <==>
          || ControlRaises(disk, controls)
          || (ControlGreen(disk, cases) && exists k :: 0 <= k < |cases| && RaisesOnMutant(disk, cases[k])))
  }

  lemma {:induction false} ControlExactly(disk: Disk, controls: seq<Disk -> Answer>, i: nat)
    requires i <= |controls| && forall j :: 0 <= j < i ==> controls[j](disk) == Green
    ensures ControlAnswer(disk, controls, i) in {RuntimeFault, OtherFault} <==> ControlRaises(disk, controls)
    decreases |controls| - i
  {
    if i < |controls| && controls[i](disk) == Green {
      ControlExactly(disk, controls, i + 1);
    }
  }

  lemma CasesExactly(disk: Disk, cases: seq<Case>)
    requires forall k, j :: 0 <= k < |cases| && 0 <= j < |cases[k].edits| ==> cases[k].edits[j].path in disk
    ensures CasesEnd(disk, cases) in {Broken, Code(0), Code(1)}
    ensures CasesEnd(disk, cases) == Code(0) <==> forall k :: 0 <= k < |cases| ==> TurnsRed(disk, cases[k])
    ensures CasesEnd(disk, cases) == Broken <==> exists k :: 0 <= k < |cases| && RaisesOnMutant(disk, cases[k])
  {
    var answers := AnswersOf(disk, cases);
    forall k | 0 <= k < |cases|
      ensures answers[k] == Some(Red) <==> TurnsRed(disk, cases[k])
      ensures IsFault(answers[k]) <==> RaisesOnMutant(disk, cases[k])
    {
    }
  }

  lemma EndsExactly(disk: Disk, cases: seq<Case>, controls: seq<Disk -> Answer>)
    requires AreControls(controls, cases)
    requires forall k, j :: 0 <= k < |cases| && 0 <= j < |cases[k].edits| ==> cases[k].edits[j].path in disk
    ensures Ends(disk, cases, controls, MainEnd(disk, cases, controls))
  {
    GreenControls(disk, controls, cases);
    ControlExactly(disk, controls, 0);
    CasesExactly(disk, cases);
  }

  /** What the battery comes to, control first. */
  function MainEnd(disk: Disk, cases: seq<Case>, controls: seq<Disk -> Answer>): End
    requires forall k, j :: 0 <= k < |cases| && 0 <= j < |cases[k].edits| ==> cases[k].edits[j].path in disk
  {
    match ControlAnswer(disk, controls, 0)
    case Red => Code(1)
    case RuntimeFault => Broken
    case OtherFault => Broken
    case Green => CasesEnd(disk, cases)
  }

  /** The files are as found afterwards, whatever happened. The first guard that does not pass on them
      ends the run, with exit code 1 or by raising; otherwise a guard that raises on a mutant breaks it
      off, and otherwise the exit code is 0 exactly when every case applies and fails its guard. */
  method EpochMain(tree: Tree, cases: seq<Case>, controls: seq<Disk -> Answer>) returns (end: End)
    requires POLICY in tree.files && MIGRATION in tree.files && Known(cases) && AreControls(controls, cases)
    modifies tree
    ensures tree.files == old(tree.files)
    ensures end == MainEnd(old(tree.files), cases, controls)
    ensures Ends(old(tree.files), cases, controls, end)
  {
    EndsExactly(tree.files, cases, controls);
    var originals := Kept(tree.files);
    var answer := CheckControl(tree.files, controls);
    if answer == Red {
      return Code(1);
    }
    if answer != Green {
      return Broken;
    }
    AnswersAreAnswers(tree.files, cases);
    end := RunBattery(tree, originals, cases, AnswersOf(tree.files, cases));
  }

  /** The exit code is 0 exactly when every guard passes before any mutation and every case counts; so
      never with a case whose edits change nothing in the end, although no-ops are not checked for. */
  lemma ZeroExactly(disk: Disk, cases: seq<Case>, controls: seq<Disk -> Answer>)
    requires AreControls(controls, cases)
    requires forall k, j :: 0 <= k < |cases| && 0 <= j < |cases[k].edits| ==> cases[k].edits[j].path in disk
    ensures ControlAnswer(disk, controls, 0) == Green && CasesEnd(disk, cases) == Code(0) <==>
              ControlGreen(disk, cases) && forall k :: 0 <= k < |cases| ==> CaughtInTurn(disk, cases[k])
    ensures ControlAnswer(disk, controls, 0) == Green &&
            (exists k :: 0 <= k < |cases| && InTurn(disk, cases[k].edits) == Some(disk)) ==>
              CasesEnd(disk, cases) != Code(0)
  {
    GreenControls(disk, controls, cases);
    if k :| 0 <= k < |cases| && InTurn(disk, cases[k].edits) == Some(disk) && ControlGreen(disk, cases) {
      NoOpNeverCounts(disk, cases, k);
    }
    ZeroOnlyIfAllCaught(disk, cases);
  }

  lemma ZeroOnlyIfAllCaught(disk: Disk, cases: seq<Case>)
    requires forall k, j :: 0 <= k < |cases| && 0 <= j < |cases[k].edits| ==> cases[k].edits[j].path in disk
    ensures CasesEnd(disk, cases) == Code(0) <==> forall k :: 0 <= k < |cases| ==> CaughtInTurn(disk, cases[k])
  {
    var answers := AnswersOf(disk, cases);
    forall k | 0 <= k < |cases| ensures answers[k] == Some(Red) <==> CaughtInTurn(disk, cases[k]) {
    }
  }

  /** No no-op check is needed: a case whose edits change nothing in the end can never count once its
      guard has passed on the files as found. */
  lemma NoOpNeverCounts(disk: Disk, cases: seq<Case>, k: nat)
    requires k < |cases| && ControlGreen(disk, cases)
    requires forall j :: 0 <= j < |cases[k].edits| ==> cases[k].edits[j].path in disk
    requires InTurn(disk, cases[k].edits) == Some(disk)
    ensures !CaughtInTurn(disk, cases[k])
  {
    assert cases[k].guard(disk) == Green;
  }

  /** Where no file is edited twice, counting anchors in the current text or in the original is the
      same. */
  lemma {:induction false} InTurnIsMutant(disk: Disk, edits: seq<Edit>)
    requires forall i, j :: 0 <= i < j < |edits| ==> edits[i].path != edits[j].path
    requires forall j :: 0 <= j < |edits| ==> edits[j].path in disk
    ensures InTurn(disk, edits).Some? <==> Applicable(disk, edits)
    ensures InTurn(disk, edits).Some? && Mutant(disk, edits).Some? ==> InTurn(disk, edits) == Mutant(disk, edits)
  {
    if edits != [] {
      var e, rest := edits[0], edits[1..];
      var next := disk[e.path := Edited(disk[e.path], e)];
      InTurnIsMutant(next, rest);
      assert forall j :: 0 <= j < |rest| ==> rest[j] == edits[j + 1] && next[rest[j].path] == disk[rest[j].path];
      assert forall j :: 1 <= j < |edits| ==> edits[j] == rest[j - 1];
      assert Applicable(disk, edits) <==> AnchorOk(disk[e.path], e) && Applicable(next, rest);
    }
  }

  /** On such edits the snapshot-once battery reports CAUGHT exactly when this one counts the case and
      none of its edits is a no-op. */
  lemma AgreesWithSnapshotOnce(disk: Disk, c: Case)
    requires forall i, j :: 0 <= i < j < |c.edits| ==> c.edits[i].path != c.edits[j].path
    requires forall j :: 0 <= j < |c.edits| ==> c.edits[j].path in disk
    requires c.guard(disk) == Green
    ensures Measure(disk, c.edits, c.guard) == Done(Caught) <==>
              CaughtInTurn(disk, c) && Mutant(disk, c.edits).Some?
  {
    InTurnIsMutant(disk, c.edits);
  }
}
