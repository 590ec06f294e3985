/** Which of the trees a killed run can leave behind the rule battery refuses to measure. */
module Stranding {
  import opened Prelude
  import opened PyText
  import opened Harness
  import opened Battery

  // ------------------------------------------------------------------ what a part of the order shows

  /** Position i of the write order holds a file the mutant changes. */
  predicate Changes(start: Disk, m: Disk, order: seq<string>, i: nat) {
    i < |order| && order[i] in start && order[i] in m && m[order[i]] != start[order[i]]
  }

  /** Position i holds a changed file whose mutated text holds the mark. */
  predicate Marks(start: Disk, m: Disk, order: seq<string>, i: nat) {
    Changes(start, m, order, i) && Contains(m[order[i]], SENTINEL)
  }

  /** Some position from i up to j holds a changed file. */
  ghost predicate ChangesWithin(start: Disk, m: Disk, order: seq<string>, i: nat, j: nat) {
    exists k: nat :: i <= k < j && Changes(start, m, order, k)
  }

  ghost predicate MarksWithin(start: Disk, m: Disk, order: seq<string>, i: nat, j: nat) {
    exists k: nat :: i <= k < j && Marks(start, m, order, k)
  }

  lemma OverlayAt(start: Disk, m: Disk, order: seq<string>, i: nat, j: nat, k: nat)
    requires i <= k < j <= |order| && Changes(start, m, order, k)
    ensures Overlay(start, m, order[i..j])[order[k]] == m[order[k]]
  {
    assert order[i..j][k - i] == order[k];
  }

  lemma OverlaidPosition(start: Disk, m: Disk, order: seq<string>, i: nat, j: nat, p: string) returns (k: nat)
    requires i <= j <= |order| && p in start && Overlay(start, m, order[i..j])[p] != start[p]
    ensures i <= k < j && Changes(start, m, order, k) && order[k] == p
    ensures Overlay(start, m, order[i..j])[p] == m[p]
  {
    var x :| 0 <= x < j - i && order[i..j][x] == p;
    k := i + x;
  }

  /** With the positions from i up to j mutated, the tree differs from the one as found when one of them
      holds a changed file. */
  lemma OverlayDiffers(start: Disk, m: Disk, order: seq<string>, i: nat, j: nat)
    requires i <= j <= |order|
    ensures Overlay(start, m, order[i..j]) != start <==> ChangesWithin(start, m, order, i, j)
  {
    var d := Overlay(start, m, order[i..j]);
    if d != start {
      var p :| p in start && d[p] != start[p];
      var k := OverlaidPosition(start, m, order, i, j, p);
    }
    if k: nat :| i <= k < j && Changes(start, m, order, k) {
      OverlayAt(start, m, order, i, j, k);
    }
  }

  /** And it shows the mark when one of the changed files does. */
  lemma OverlayShows(start: Disk, m: Disk, order: seq<string>, i: nat, j: nat)
    requires i <= j <= |order|
    ensures ShowsMark(start, Overlay(start, m, order[i..j])) <==> MarksWithin(start, m, order, i, j)
  {
    var d := Overlay(start, m, order[i..j]);
    if ShowsMark(start, d) {
      var p :| p in start && p in d && d[p] != start[p] && Contains(d[p], SENTINEL);
      var k := OverlaidPosition(start, m, order, i, j, p);
      assert Marks(start, m, order, k);
    }
    if k: nat :| i <= k < j && Marks(start, m, order, k) {
      OverlayAt(start, m, order, i, j, k);
    }
  }

  // ------------------------------------------------------------------ the first and the last change

  predicate FirstChanged(start: Disk, m: Disk, order: seq<string>, i: nat) {
    Changes(start, m, order, i) && forall j: nat :: j < i ==> !Changes(start, m, order, j)
  }

  predicate LastChanged(start: Disk, m: Disk, order: seq<string>, i: nat) {
    Changes(start, m, order, i) && forall j: nat :: i < j < |order| ==> !Changes(start, m, order, j)
  }

  /** The first and the last file that the mutant changes, in the order files are written, hold the
      mark. */
  ghost predicate EndsMarked(start: Disk, m: Disk, order: seq<string>) {
    forall i: nat :: FirstChanged(start, m, order, i) || LastChanged(start, m, order, i) ==>
      Marks(start, m, order, i)
  }

  lemma {:induction false} FindFirst(start: Disk, m: Disk, order: seq<string>, k: nat) returns (i: nat)
    requires Changes(start, m, order, k)
    ensures FirstChanged(start, m, order, i) && i <= k
  {
    if j: nat :| j < k && Changes(start, m, order, j) {
      i := FindFirst(start, m, order, j);
    } else {
      i := k;
    }
  }

  lemma {:induction false} FindLast(start: Disk, m: Disk, order: seq<string>, k: nat) returns (i: nat)
    requires Changes(start, m, order, k)
    ensures LastChanged(start, m, order, i) && k <= i
    decreases |order| - k
  {
    if j: nat :| k < j < |order| && Changes(start, m, order, j) {
      i := FindLast(start, m, order, j);
    } else {
      i := k;
    }
  }

  /** Every beginning of the order that holds a change shows the mark exactly when the first change
      does. */
  lemma BeginningsShow(start: Disk, m: Disk, order: seq<string>)
    ensures (forall k: nat :: k <= |order| && ChangesWithin(start, m, order, 0, k) ==>
               MarksWithin(start, m, order, 0, k))
        <==> forall i: nat :: FirstChanged(start, m, order, i) ==> Marks(start, m, order, i)
  {
    if forall i: nat :: FirstChanged(start, m, order, i) ==> Marks(start, m, order, i) {
      forall k: nat | k <= |order| && ChangesWithin(start, m, order, 0, k) ensures MarksWithin(start, m, order, 0, k) {
        var x: nat :| x < k && Changes(start, m, order, x);
        var i := FindFirst(start, m, order, x);
        assert Marks(start, m, order, i);
      }
    } else {
      var i: nat :| FirstChanged(start, m, order, i) && !Marks(start, m, order, i);
      assert Changes(start, m, order, i) && ChangesWithin(start, m, order, 0, i + 1);
      assert !MarksWithin(start, m, order, 0, i + 1);
    }
  }

  /** Every end of the order that holds a change shows the mark exactly when the last change does. */
  lemma EndsShow(start: Disk, m: Disk, order: seq<string>)
    ensures (forall k: nat :: k <= |order| && ChangesWithin(start, m, order, k, |order|) ==>
               MarksWithin(start, m, order, k, |order|))
        <==> forall i: nat :: LastChanged(start, m, order, i) ==> Marks(start, m, order, i)
  {
    if forall i: nat :: LastChanged(start, m, order, i) ==> Marks(start, m, order, i) {
      forall k: nat | k <= |order| && ChangesWithin(start, m, order, k, |order|)
        ensures MarksWithin(start, m, order, k, |order|)
      {
        var x: nat :| k <= x < |order| && Changes(start, m, order, x);
        var i := FindLast(start, m, order, x);
        assert Marks(start, m, order, i);
      }
    } else {
      var i: nat :| LastChanged(start, m, order, i) && !Marks(start, m, order, i);
      assert Changes(start, m, order, i) && ChangesWithin(start, m, order, i, |order|);
      assert !MarksWithin(start, m, order, i, |order|);
    }
  }

  // ------------------------------------------------------------------ the states of a written case

  /** The tree with a beginning, or with an end, of the write order mutated. */
  ghost predicate IsEnd(start: Disk, m: Disk, order: seq<string>, d: Disk, k: nat) {
    k <= |order| && (d == Overlay(start, m, order[0..k]) || d == Overlay(start, m, order[k..|order|]))
  }

  lemma PhaseIsEnd(start: Disk, m: Disk, order: seq<string>, again: bool, d: Disk) returns (k: nat)
    requires m.Keys == start.Keys && d in Phases(start, m, order, again) && d != start
    ensures IsEnd(start, m, order, d, k)
  {
    if d in Forward(start, m, order) {
      k := InForward(d, start, m, order);
      assert order[..k] == order[0..k];
    } else if d in Back(start, m, order) {
      k := InBack(d, start, m, order);
      assert order[k..] == order[k..|order|];
    } else {
      InBackIsStart(d, start, order);
      assert false;
    }
  }

  lemma EndIsPhase(start: Disk, m: Disk, order: seq<string>, again: bool, d: Disk, k: nat)
    requires IsEnd(start, m, order, d, k) && d != start
    ensures d in Phases(start, m, order, again)
  {
    var n := |order|;
    WholeAndNothing(start, m, order);
    if d == Overlay(start, m, order[0..k]) {
      OnTheWay(start, m, order, k);
      assert order[..k] == order[0..k];
    } else if k > 0 {
      OnTheWay(start, m, order, k);
      assert order[k..] == order[k..n];
    } else {
      OnTheWay(start, m, order, n);
    }
  }

  lemma WholeAndNothing(start: Disk, m: Disk, order: seq<string>)
    ensures Overlay(start, m, order[0..0]) == start
    ensures order[..|order|] == order[0..|order|] == order
    ensures |order| == 0 ==> Overlay(start, m, order[0..|order|]) == start
  {
    assert order[0..0] == [];
    IsOverlay(start, start, m, []);
  }

  /** Every state but the tree as found shows the mark exactly when both ends of the change do. */
  lemma PhasesShowExactly(start: Disk, m: Disk, order: seq<string>, again: bool)
    requires m.Keys == start.Keys
    ensures AllShow(start, m, order, again) <==> EndsMarked(start, m, order)
  {
    if EndsMarked(start, m, order) {
      forall d | d in Phases(start, m, order, again) && d != start ensures ShowsMark(start, d) {
        var k := PhaseIsEnd(start, m, order, again, d);
        EndShows(start, m, order, d, k);
      }
    }
    if AllShow(start, m, order, again) {
      forall i: nat | FirstChanged(start, m, order, i) || LastChanged(start, m, order, i)
        ensures Marks(start, m, order, i)
      {
        if FirstChanged(start, m, order, i) {
          ShownFirstIsMarked(start, m, order, again, i);
        } else {
          ShownLastIsMarked(start, m, order, again, i);
        }
      }
    }
  }

  lemma EndShows(start: Disk, m: Disk, order: seq<string>, d: Disk, k: nat)
    requires EndsMarked(start, m, order) && IsEnd(start, m, order, d, k) && d != start
    ensures ShowsMark(start, d)
  {
    BeginningsShow(start, m, order);
    EndsShow(start, m, order);
    if d == Overlay(start, m, order[0..k]) {
      OverlayDiffers(start, m, order, 0, k);
      OverlayShows(start, m, order, 0, k);
    } else {
      OverlayDiffers(start, m, order, k, |order|);
      OverlayShows(start, m, order, k, |order|);
    }
  }

  ghost predicate AllShow(start: Disk, m: Disk, order: seq<string>, again: bool) {
    forall d :: d in Phases(start, m, order, again) && d != start ==> ShowsMark(start, d)
  }

  /** The tree with the positions from i up to j mutated, if it is one of the states, shows the mark. */
  lemma EndIsShown(start: Disk, m: Disk, order: seq<string>, again: bool, i: nat, j: nat)
    requires AllShow(start, m, order, again) && i <= j <= |order| && (i == 0 || j == |order|)
    requires ChangesWithin(start, m, order, i, j)
    ensures MarksWithin(start, m, order, i, j)
  {
    var d := Overlay(start, m, order[i..j]);
    OverlayDiffers(start, m, order, i, j);
    var k := if i == 0 then j else i;
    assert IsEnd(start, m, order, d, k);
    EndIsPhase(start, m, order, again, d, k);
    OverlayShows(start, m, order, i, j);
  }

  lemma ShownFirstIsMarked(start: Disk, m: Disk, order: seq<string>, again: bool, i: nat)
    requires AllShow(start, m, order, again) && FirstChanged(start, m, order, i)
    ensures Marks(start, m, order, i)
  {
    assert Changes(start, m, order, i);
    EndIsShown(start, m, order, again, 0, i + 1);
    var k: nat :| k < i + 1 && Marks(start, m, order, k);
  }

  lemma ShownLastIsMarked(start: Disk, m: Disk, order: seq<string>, again: bool, i: nat)
    requires AllShow(start, m, order, again) && LastChanged(start, m, order, i)
    ensures Marks(start, m, order, i)
  {
    assert Changes(start, m, order, i);
    EndIsShown(start, m, order, again, i, |order|);
    var k: nat :| i <= k < |order| && Marks(start, m, order, k);
  }

  // ------------------------------------------------------------------ what is refused

  /** Every state the case can be killed in, other than the tree as found, is refused. */
  ghost predicate StrandingsRefused(start: Disk, cases: seq<Case>, c: Case) {
    forall d :: CrashState(d, start, c.edits, c.guard) && d != start ==> Residue(d, cases)
  }

  /** A condition on the case: if its mutant is written, the first and the last file it changes, in
      the order files are written, hold the mark. */
  ghost predicate EndsMarkedIfWritten(start: Disk, c: Case) {
    IsMutated(start, c.edits, c.guard) ==> EndsMarked(start, Mutant(start, c.edits).value, WriteOrder(c.edits))
  }

  lemma CrashRefusedExactly(start: Disk, cases: seq<Case>, c: Case, d: Disk)
    requires c in cases && !Residue(start, cases) && CrashState(d, start, c.edits, c.guard)
    ensures Residue(d, cases) <==> ShowsMark(start, d)
  {
    CrashStateIsBetween(d, start, c.edits, c.guard);
    RefusedExactly(start, cases, c, d);
  }

  lemma UnwrittenLeavesNothing(start: Disk, c: Case, d: Disk)
    requires !IsMutated(start, c.edits, c.guard) && CrashState(d, start, c.edits, c.guard)
    ensures d == start
  {
    CrashStateIsBetween(d, start, c.edits, c.guard);
  }

  lemma StatesWhenWritten(start: Disk, c: Case, d: Disk)
    requires IsMutated(start, c.edits, c.guard)
    ensures var m := Mutant(start, c.edits).value;
            m.Keys == start.Keys &&
            (CrashState(d, start, c.edits, c.guard) <==>
             d == start || d in Phases(start, m, WriteOrder(c.edits), c.guard(m) == RuntimeFault))
  {
  }

  /** From a pristine tree, every state a case can be killed in, other than the tree as found, is
      refused by the next run exactly when the mutant is never written, or the first and the last file
      it changes, in the order files are written, hold the mark. Files between them need not. */
  lemma StrandingsRefusedExactly(start: Disk, cases: seq<Case>, c: Case)
    requires c in cases && !Residue(start, cases)
    ensures StrandingsRefused(start, cases, c) <==> EndsMarkedIfWritten(start, c)
  {
    forall d | CrashState(d, start, c.edits, c.guard) ensures Residue(d, cases) <==> ShowsMark(start, d) {
      CrashRefusedExactly(start, cases, c, d);
    }
    if IsMutated(start, c.edits, c.guard) {
      var m := Mutant(start, c.edits).value;
      forall d ensures CrashState(d, start, c.edits, c.guard) <==>
          d == start || d in Phases(start, m, WriteOrder(c.edits), c.guard(m) == RuntimeFault)
      {
        StatesWhenWritten(start, c, d);
      }
      PhasesShowExactly(start, m, WriteOrder(c.edits), c.guard(m) == RuntimeFault);
    } else {
      forall d | CrashState(d, start, c.edits, c.guard) ensures d == start {
        UnwrittenLeavesNothing(start, c, d);
      }
    }
  }

  // ------------------------------------------------------------------ instances

  /** A case whose replacement does not carry the mark, on one file: killed after its write, it leaves
      a changed tree that the next run takes for pristine. */
  lemma UnmarkedIsMissed(guard: Disk -> Answer)
    requires guard(map["f" := "a"]) == Green
    ensures var start: Disk, stranded: Disk := map["f" := "a"], map["f" := "b"];
            var c := Case([Replace("f", "a", "b")], guard);
            && !Residue(start, [c]) && CrashState(stranded, start, c.edits, c.guard)
            && stranded != start && !Residue(stranded, [c])
  {
    var p, a, b := "f", "a", "b";
    OneLetterReplaced();
    ShortTextIsMissed(p, a, Replace(p, a, b), guard);
    assert map[p := a][p := b] == map[p := b];
  }

  /** An edit of the only file that leaves it too short to hold the mark. */
  lemma ShortTextIsMissed(p: string, text: string, e: Edit, guard: Disk -> Answer)
    requires e.path == p && AnchorOk(text, e) && Edited(text, e) != text && guard(map[p := text]) == Green
    requires |text| < |SENTINEL| && |Edited(text, e)| < |SENTINEL|
    ensures var start: Disk, stranded: Disk := map[p := text], map[p := Edited(text, e)];
            var c := Case([e], guard);
            && !Residue(start, [c]) && CrashState(stranded, start, c.edits, c.guard)
            && stranded != start && !Residue(stranded, [c])
  {
    var start: Disk, stranded: Disk := map[p := text], map[p := Edited(text, e)];
    ShortTextsAreUnmarked(text);
    ShortTextsAreUnmarked(Edited(text, e));
    assert stranded == start[p := Edited(text, e)] && stranded[p] != start[p];
    OneEdit(start, e, guard);
  }

  lemma ShortTextsAreUnmarked(s: string)
    requires |s| < |SENTINEL|
    ensures !Contains(s, SENTINEL)
  {
  }

  lemma OneLetterReplaced()
    ensures CountOf("a", "a") == 1 && ReplaceFirst("a", "a", "b") == "b" && "a" != "b"
  {
    assert "a"[0..1] == "a" && "a"[..0] + "b" + "a"[1..] == "b";
    assert CountFrom("a", "a", 1) == 0;
    assert "a"[0] != "b"[0];
  }

  lemma OneEdit(start: Disk, e: Edit, guard: Disk -> Answer)
    requires e.path in start && AnchorOk(start[e.path], e) && Edited(start[e.path], e) != start[e.path]
    requires guard(start) == Green
    ensures CrashState(start[e.path := Edited(start[e.path], e)], start, [e], guard)
  {
    var m, c := start[e.path := Edited(start[e.path], e)], Case([e], guard);
    OneEditMutant(start, e);
    StatesWhenWritten(start, c, m);
    assert [e.path][0..1] == [e.path];
    assert m[e.path] != start[e.path];
    IsOverlay(m, start, m, [e.path]);
    assert IsEnd(start, m, [e.path], m, 1);
    EndIsPhase(start, m, [e.path], guard(m) == RuntimeFault, m, 1);
  }

  lemma OneEditMutant(start: Disk, e: Edit)
    requires e.path in start && Edited(start[e.path], e) != start[e.path]
    ensures Mutant(start, [e]) == Some(start[e.path := Edited(start[e.path], e)]) && WriteOrder([e]) == [e.path]
  {
    assert [e][1..] == [] && [e][..0] == [];
    assert WriteOrder([]) == [];
  }
}
