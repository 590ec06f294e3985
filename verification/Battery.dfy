/** Whole batteries: running a list of cases over one checkout and turning verdicts into an exit code. */
module Battery {
  import opened Prelude
  import opened PyText
  import opened Harness

  /** How a battery ends: with an exit code, or by an exception escaping from a case. */
  datatype End = Code(n: int) | Broken

  /** How a battery ends whose cases end like this: an exception escapes, or the exit code is 0 for all
      CAUGHT and 1 otherwise. */
  function EndOf(exits: seq<Exit>): End {
    if Raises in exits then Broken
    else Code(if forall k :: 0 <= k < |exits| ==> exits[k] == Done(Caught) then 0 else 1)
  }

  predicate SomeRaises(disk: Disk, cases: seq<Case>) {
    exists k :: 0 <= k < |cases| && Measure(disk, cases[k].edits, cases[k].guard) == Raises
  }

  predicate AllCaught(disk: Disk, cases: seq<Case>) {
    forall k :: 0 <= k < |cases| ==> Measure(disk, cases[k].edits, cases[k].guard) == Done(Caught)
  }

  function VerdictsOf(disk: Disk, cases: seq<Case>): seq<Verdict>
    requires !SomeRaises(disk, cases)
  {
    seq(|cases|, k requires 0 <= k < |cases| =>
      match Measure(disk, cases[k].edits, cases[k].guard) case Done(v) => v case Raises => Miss)
  }

  predicate IsCaught(v: Verdict) { v == Caught }

  /** Everything added to a trace is a state some case may be killed in. */
  ghost predicate FromCases(trace: seq<Disk>, older: seq<Disk>, start: Disk, cases: seq<Case>) {
    |older| <= |trace| && trace[..|older|] == older &&
    forall i :: |older| <= i < |trace| ==>
      exists k :: 0 <= k < |cases| && CrashState(trace[i], start, cases[k].edits, cases[k].guard)
  }

  /** Runs every case; the files are as found before and after each of them. */
  method RunCases(tree: Tree, cases: seq<Case>) returns (verdicts: seq<Verdict>, raised: bool)
    modifies tree
    ensures tree.files == old(tree.files) && FromCases(tree.trace, old(tree.trace), old(tree.files), cases)
    ensures raised <==> SomeRaises(old(tree.files), cases)
    ensures !raised ==> verdicts == VerdictsOf(old(tree.files), cases)
  {
    ghost var start := tree.files;
    verdicts := [];
    for k := 0 to |cases|
      invariant tree.files == start && FromCases(tree.trace, old(tree.trace), start, cases)
      invariant |verdicts| == k && Finished(start, cases, verdicts)
    {
      ghost var before := tree.trace;
      var exit := tree.RunEdits(cases[k].edits, cases[k].guard);
      TraceGrows(tree.trace, old(tree.trace), before, start, cases, k);
      if exit == Raises {
        return verdicts, true;
      }
      verdicts := verdicts + [exit.verdict];
    }
    AllFinished(start, cases, verdicts);
    raised := false;
  }

  /** The first cases end with these verdicts. */
  predicate Finished(start: Disk, cases: seq<Case>, verdicts: seq<Verdict>) {
    |verdicts| <= |cases| &&
    forall j :: 0 <= j < |verdicts| ==> Measure(start, cases[j].edits, cases[j].guard) == Done(verdicts[j])
  }

  lemma AllFinished(start: Disk, cases: seq<Case>, verdicts: seq<Verdict>)
    requires |verdicts| == |cases| && Finished(start, cases, verdicts)
    ensures !SomeRaises(start, cases) && verdicts == VerdictsOf(start, cases)
  {
  }

  lemma TraceGrows(trace: seq<Disk>, older: seq<Disk>, newer: seq<Disk>, start: Disk, cases: seq<Case>, k: nat)
    requires k < |cases| && FromCases(newer, older, start, cases)
    requires trace == newer + StatesOf(start, cases[k].edits, cases[k].guard)
    ensures FromCases(trace, older, start, cases)
  {
    forall i | |older| <= i < |trace|
      ensures exists j :: 0 <= j < |cases| && CrashState(trace[i], start, cases[j].edits, cases[j].guard)
    {
      if i < |newer| {
        assert trace[i] == newer[i];
      } else {
        assert trace[i] == StatesOf(start, cases[k].edits, cases[k].guard)[i - |newer|];
        assert CrashState(trace[i], start, cases[k].edits, cases[k].guard);
      }
    }
    assert trace[..|older|] == older;
  }

  /** Every case is CAUGHT when every case's mutant is written and fails its guard. */
  lemma AllCaughtExactly(disk: Disk, cases: seq<Case>)
    ensures AllCaught(disk, cases) <==> forall k :: 0 <= k < |cases| ==> TurnsRed(disk, cases[k].edits, cases[k].guard)
    ensures AllCaught(disk, cases) ==> !SomeRaises(disk, cases)
  {
    forall k | 0 <= k < |cases|
      ensures Measure(disk, cases[k].edits, cases[k].guard) == Done(Caught) <==>
                TurnsRed(disk, cases[k].edits, cases[k].guard)
    {
      MeasuredExactly(disk, cases[k].edits, cases[k].guard);
    }
  }

  /** `caught == len(results)`. */
  lemma AllCaughtCounted(disk: Disk, cases: seq<Case>)
    requires !SomeRaises(disk, cases)
    ensures Count(IsCaught, VerdictsOf(disk, cases)) == |cases| <==> AllCaught(disk, cases)
  {
    var vs := VerdictsOf(disk, cases);
    CountFull(IsCaught, vs);
    forall k | 0 <= k < |cases|
      ensures IsCaught(vs[k]) <==> Measure(disk, cases[k].edits, cases[k].guard) == Done(Caught)
    {
      assert Measure(disk, cases[k].edits, cases[k].guard) != Raises;
    }
  }

  lemma {:induction false} CountFull<T>(p: T -> bool, s: seq<T>)
    ensures Count(p, s) == |s| <==> forall k :: 0 <= k < |s| ==> p(s[k])
  {
    if s != [] {
      CountFull(p, s[1..]);
      assert forall k :: 1 <= k < |s| ==> s[k] == s[1..][k - 1];
    }
  }

  /** The observation battery: exit code 0 exactly when every case is CAUGHT, of which an empty list
      is an instance. */
  method ObservationMain(tree: Tree, cases: seq<Case>) returns (end: End)
    modifies tree
    ensures tree.files == old(tree.files)
    ensures end == if SomeRaises(old(tree.files), cases) then Broken
                   else Code(if AllCaught(old(tree.files), cases) then 0 else 1)
  {
    var verdicts, raised := RunCases(tree, cases);
    if raised {
      return Broken;
    }
    AllCaughtCounted(tree.files, cases);
    var caught := Count(IsCaught, verdicts);
    end := Code(if caught == |verdicts| then 0 else 1);
  }

  /** The freight-domain battery: the same, but an empty list of cases is a failure. */
  method FreightMain(tree: Tree, cases: seq<Case>) returns (end: End)
    modifies tree
    ensures tree.files == old(tree.files)
    ensures end == if SomeRaises(old(tree.files), cases) then Broken
                   else Code(if AllCaught(old(tree.files), cases) && cases != [] then 0 else 1)
  {
    var verdicts, raised := RunCases(tree, cases);
    if raised {
      return Broken;
    }
    AllCaughtCounted(tree.files, cases);
    var caught := Count(IsCaught, verdicts);
    end := Code(if caught == |verdicts| && verdicts != [] then 0 else 1);
  }

  // ------------------------------------------------------------------ refusing a stranded tree

  const SENTINEL: string := "MUTANT"

  ghost predicate IsTarget(p: string, cases: seq<Case>) {
    exists k, j :: 0 <= k < |cases| && 0 <= j < |cases[k].edits| && cases[k].edits[j].path == p
  }

  function Targets(cases: seq<Case>): (ps: set<string>)
    ensures forall p :: p in ps <==> IsTarget(p, cases)
  {
    set k, j | 0 <= k < |cases| && 0 <= j < |cases[k].edits| :: cases[k].edits[j].path
  }

  /** Some target holds the mark every mutation is supposed to carry. */
  predicate Residue(disk: Disk, cases: seq<Case>) {
    exists p :: p in Targets(cases) && p in disk && Contains(disk[p], SENTINEL)
  }

  /** Reads every target: one may be missing, or hold the mark of an earlier mutation. */
  method AssertPristine(disk: Disk, cases: seq<Case>) returns (missing: bool, poisoned: bool)
    ensures missing <==> exists p :: p in Targets(cases) && p !in disk
    ensures !missing ==> (poisoned <==> Residue(disk, cases))
  {
    var left := Targets(cases);
    poisoned := false;
    while left != {}
      invariant left <= Targets(cases)
      invariant forall p :: p in Targets(cases) - left ==> p in disk
      invariant poisoned <==> exists p :: p in Targets(cases) - left && p in disk && Contains(disk[p], SENTINEL)
      decreases left
    {
      var p :| p in left;
      if p !in disk {
        return true, poisoned;
      }
      if Contains(disk[p], SENTINEL) {
        poisoned := true;
      }
      assert Targets(cases) - (left - {p}) == (Targets(cases) - left) + {p};
      left := left - {p};
    }
    assert Targets(cases) - left == Targets(cases);
    missing := false;
  }

  /** The rule battery: a missing target or a raising guard breaks it off, residue makes it refuse
      with code 2, and otherwise 0 means every case CAUGHT and the un-mutated control GREEN. */
  method RuleMain(tree: Tree, cases: seq<Case>, control: Disk -> Answer) returns (end: End)
    modifies tree
    ensures tree.files == old(tree.files)
    ensures var d := old(tree.files);
            end == if exists p :: p in Targets(cases) && p !in d then Broken
                   else if Residue(d, cases) then Code(2)
                   else if SomeRaises(d, cases) || control(d) in {RuntimeFault, OtherFault} then Broken
                   else Code(if AllCaught(d, cases) && control(d) == Green then 0 else 1)
    ensures end == Code(2) <==>
              (forall p :: IsTarget(p, cases) ==> p in old(tree.files)) &&
              exists p :: IsTarget(p, cases) && Contains(old(tree.files)[p], "MUTANT")
    ensures end == Code(0) <==>
              (forall p :: IsTarget(p, cases) ==> p in old(tree.files) && !Contains(old(tree.files)[p], "MUTANT")) &&
              control(old(tree.files)) == Green &&
              forall k :: 0 <= k < |cases| ==> TurnsRed(old(tree.files), cases[k].edits, cases[k].guard)
  {
    AllCaughtExactly(tree.files, cases);
    var missing, poisoned := AssertPristine(tree.files, cases);
    if missing {
      return Broken;
    }
    if poisoned {
      return Code(2);
    }
    var verdicts, raised := RunCases(tree, cases);
    if raised {
      return Broken;
    }
    AllCaughtCounted(tree.files, cases);
    var answer := control(tree.files);
    if answer in {RuntimeFault, OtherFault} {
      return Broken;
    }
    var caught := Count(IsCaught, verdicts);
    end := Code(if caught == |verdicts| && answer == Green then 0 else 1);
  }

  lemma {:induction false} UneditedStays(disk: Disk, edits: seq<Edit>, p: string)
    requires forall k :: 0 <= k < |edits| ==> edits[k].path in disk && edits[k].path != p
    requires Mutant(disk, edits).Some? && p in disk
    ensures Mutant(disk, edits).value[p] == disk[p]
  {
    if edits != [] {
      var e := edits[0];
      UneditedStays(disk[e.path := Edited(disk[e.path], e)], edits[1..], p);
    }
  }

  /** Some file that was left changed holds the mark. */
  ghost predicate ShowsMark(start: Disk, d: Disk) {
    exists p :: p in start && p in d && d[p] != start[p] && Contains(d[p], SENTINEL)
  }

  /** A tree stranded by a case is refused next time exactly when some file that was left changed holds
      the mark. */
  lemma RefusedExactly(start: Disk, cases: seq<Case>, c: Case, d: Disk)
    requires c in cases && !Residue(start, cases) && Between(d, start, Aim(start, c.edits, c.guard))
    ensures Residue(d, cases) <==> ShowsMark(start, d)
  {
    if ShowsMark(start, d) {
      var p :| p in start && p in d && d[p] != start[p] && Contains(d[p], SENTINEL);
      ChangedIsTarget(start, cases, c, p);
      assert p in Targets(cases);
    }
    if Residue(d, cases) {
      var p :| p in Targets(cases) && p in d && Contains(d[p], SENTINEL);
      assert d[p] != start[p];
    }
  }

  lemma ChangedIsTarget(start: Disk, cases: seq<Case>, c: Case, p: string)
    requires c in cases && p in start && Aim(start, c.edits, c.guard)[p] != start[p]
    ensures IsTarget(p, cases)
  {
    var k :| 0 <= k < |cases| && cases[k] == c;
    if forall j :: 0 <= j < |c.edits| ==> c.edits[j].path != p {
      UneditedStays(start, c.edits, p);
      assert false;
    }
    var j :| 0 <= j < |c.edits| && c.edits[j].path == p;
    assert cases[k].edits[j].path == p;
  }
}
