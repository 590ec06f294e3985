/** The battery variant that captures a file's "original" anew at every edit, which is only right
    when no file is edited twice. */
module PerEdit {
  import opened Prelude
  import opened PyText
  import opened Harness
  import opened Battery

  predicate AllReplace(edits: seq<Edit>) {
    forall k :: 0 <= k < |edits| ==> edits[k].Replace?
  }

  /** The variant's own check: existing files, anchors counted once, and no edit that would change
      nothing in the file as found. */
  predicate Admissible(disk: Disk, edits: seq<Edit>) {
    Applicable(disk, edits) &&
    forall k :: 0 <= k < |edits| ==> Edited(disk[edits[k].path], edits[k]) != disk[edits[k].path]
  }

  /** The edits of one file, in order. */
  function EditsOf(p: string, edits: seq<Edit>): (es: seq<Edit>)
    ensures |es| <= |edits|
  {
    if edits == [] then []
    else if edits[|edits| - 1].path == p then EditsOf(p, edits[..|edits| - 1]) + [edits[|edits| - 1]]
    else EditsOf(p, edits[..|edits| - 1])
  }

  /** A text after the given edits, in order. */
  function TextAfter(text: string, es: seq<Edit>): string {
    if es == [] then text else Edited(TextAfter(text, es[..|es| - 1]), es[|es| - 1])
  }

  function AllButLast(es: seq<Edit>): seq<Edit> {
    if es == [] then [] else es[..|es| - 1]
  }

  function Applied(disk: Disk, edits: seq<Edit>): Disk {
    map p | p in disk :: TextAfter(disk[p], EditsOf(p, edits))
  }

  /** What the files hold once "restored": each file's text just before its last edit. */
  function Leftover(disk: Disk, edits: seq<Edit>): Disk {
    map p | p in disk :: TextAfter(disk[p], AllButLast(EditsOf(p, edits)))
  }

  function MeasurePerEdit(disk: Disk, edits: seq<Edit>, guard: Disk -> Answer): Exit {
    if !Admissible(disk, edits) then Done(SetupFail)
    else match guard(disk)
      case Red => Done(SetupFail)
      case RuntimeFault => Raises
      case OtherFault => Raises
      case Green =>
        var answer, again := guard(Applied(disk, edits)), guard(Leftover(disk, edits));
        if answer in {RuntimeFault, OtherFault} then Raises
        else match again
          case Red => Done(RestoreRed)
          case RuntimeFault => Raises
          case OtherFault => Raises
          case Green => if answer == Red then Done(Caught) else Done(Miss)
  }

  function FilesAfter(disk: Disk, edits: seq<Edit>, guard: Disk -> Answer): Disk {
    if Admissible(disk, edits) && guard(disk) == Green then Leftover(disk, edits) else disk
  }

  predicate IsFault(answer: Answer) {
    answer == RuntimeFault || answer == OtherFault
  }

  /** CAUGHT and MISS say how the guard ends on the edited files, provided it passes both on the files as
      found and on what it then holds for restored; a restored file it fails on is RESTORE-RED, and
      whatever it raises ends the run. */
  ghost predicate PerEditVerdicts(disk: Disk, edits: seq<Edit>, guard: Disk -> Answer, exit: Exit) {
    var runs := Admissible(disk, edits) && guard(disk) == Green;
    var answer, again := guard(Applied(disk, edits)), guard(Leftover(disk, edits));
    && (exit == Done(Caught) <==> runs && answer == Red && again == Green)
    && (exit == Done(Miss) <==> runs && answer == Green && again == Green)
    && (exit == Done(RestoreRed) <==> runs && answer in {Green, Red} && again == Red)
    && (exit == Raises <==>
          (Admissible(disk, edits) && IsFault(guard(disk))) || (runs && (IsFault(answer) || IsFault(again))))
  }

  lemma MeasuredPerEdit(disk: Disk, edits: seq<Edit>, guard: Disk -> Answer)
    ensures PerEditVerdicts(disk, edits, guard, MeasurePerEdit(disk, edits, guard))
  {
  }

  // ------------------------------------------------------------------ the run

  method CheckEdits(disk: Disk, edits: seq<Edit>) returns (ok: bool)
    requires AllReplace(edits)
    ensures ok <==> Admissible(disk, edits)
  {
    for k := 0 to |edits|
      invariant forall j :: 0 <= j < k ==> edits[j].path in disk && AnchorOk(disk[edits[j].path], edits[j])
      invariant forall j :: 0 <= j < k ==> Edited(disk[edits[j].path], edits[j]) != disk[edits[j].path]
    {
      var e := edits[k];
      if e.path !in disk {
        return false;
      }
      var text := disk[e.path];
      if CountOf(text, e.before) != 1 {
        return false;
      }
      if ReplaceFirst(text, e.before, e.after) == text {
        return false;
      }
    }
    ok := true;
  }

  /** The effect of one more edit on the edits of one file. */
  lemma OneMoreEdit(p: string, edits: seq<Edit>, k: nat)
    requires k < |edits|
    ensures edits[k].path != p ==> EditsOf(p, edits[..k + 1]) == EditsOf(p, edits[..k])
    ensures edits[k].path == p ==>
              EditsOf(p, edits[..k + 1]) == EditsOf(p, edits[..k]) + [edits[k]] &&
              AllButLast(EditsOf(p, edits[..k + 1])) == EditsOf(p, edits[..k])
  {
    assert edits[..k + 1][..k] == edits[..k];
    assert (EditsOf(p, edits[..k]) + [edits[k]])[..|EditsOf(p, edits[..k])|] == EditsOf(p, edits[..k]);
  }

  lemma AppliedStep(disk: Disk, edits: seq<Edit>, k: nat)
    requires k < |edits| && edits[k].path in disk
    ensures var now, p := Applied(disk, edits[..k]), edits[k].path;
            Applied(disk, edits[..k + 1]) == now[p := Edited(now[p], edits[k])]
  {
    forall q | q in disk
      ensures TextAfter(disk[q], EditsOf(q, edits[..k + 1])) ==
                if q == edits[k].path then Edited(Applied(disk, edits[..k])[q], edits[k])
                else Applied(disk, edits[..k])[q]
    {
      OneMoreEdit(q, edits, k);
    }
  }

  /** saved holds, for exactly the files edited so far, the text before their last edit. */
  ghost predicate Captured(disk: Disk, edits: seq<Edit>, saved: Disk) {
    forall p :: p in disk ==>
      if EditsOf(p, edits) == [] then p !in saved else p in saved && saved[p] == Leftover(disk, edits)[p]
  }

  lemma CapturedStep(disk: Disk, edits: seq<Edit>, k: nat, saved: Disk)
    requires k < |edits| && edits[k].path in disk && Captured(disk, edits[..k], saved)
    ensures Captured(disk, edits[..k + 1], saved[edits[k].path := Applied(disk, edits[..k])[edits[k].path]])
  {
    forall q | q in disk ensures
        var next := saved[edits[k].path := Applied(disk, edits[..k])[edits[k].path]];
        if EditsOf(q, edits[..k + 1]) == [] then q !in next
        else q in next && next[q] == Leftover(disk, edits[..k + 1])[q]
    {
      OneMoreEdit(q, edits, k);
    }
  }

  /** Captures and rewrites file by file, edit by edit. */
  method CaptureAndApply(tree: Tree, edits: seq<Edit>) returns (saved: Disk, order: seq<string>)
    requires forall k :: 0 <= k < |edits| ==> edits[k].path in tree.files
    modifies tree
    ensures tree.files == Applied(old(tree.files), edits)
    ensures Captured(old(tree.files), edits, saved) && saved.Keys <= tree.files.Keys
    ensures forall p :: p in order <==> p in saved
  {
    ghost var start := tree.files;
    saved, order := map[], [];
    for k := 0 to |edits|
      invariant tree.files == Applied(start, edits[..k])
      invariant Captured(start, edits[..k], saved) && saved.Keys <= start.Keys
      invariant forall p :: p in order <==> p in saved
    {
      AppliedStep(start, edits, k);
      CapturedStep(start, edits, k, saved);
      var p := edits[k].path;
      if p !in saved {
        order := order + [p];
      }
      saved := saved[p := tree.files[p]];
      tree.Write(p, Edited(saved[p], edits[k]));
    }
    assert edits[..|edits|] == edits;
  }

  method WriteBack(tree: Tree, saved: Disk, order: seq<string>)
    requires forall p :: p in order <==> p in saved
    modifies tree
    ensures tree.files == old(tree.files) + saved
  {
    ghost var start := tree.files;
    for k := 0 to |order|
      invariant forall p :: p in order[..k] ==> p in tree.files && tree.files[p] == saved[p]
      invariant forall p :: p !in order[..k] ==> (p in tree.files <==> p in start)
      invariant forall p :: p !in order[..k] && p in start ==> tree.files[p] == start[p]
    {
      assert order[..k + 1] == order[..k] + [order[k]] && order[k] in order;
      tree.Write(order[k], saved[order[k]]);
    }
    assert order[..|order|] == order;
  }

  /** The variant's run: what it leaves in the files and what it reports, for any edit list. */
  method RunEditsPerEdit(tree: Tree, edits: seq<Edit>, guard: Disk -> Answer) returns (exit: Exit)
    requires AllReplace(edits)
    modifies tree
    ensures tree.files == FilesAfter(old(tree.files), edits, guard)
    ensures exit == MeasurePerEdit(old(tree.files), edits, guard)
    ensures PerEditVerdicts(old(tree.files), edits, guard, exit)
  {
    ghost var start := tree.files;
    MeasuredPerEdit(start, edits, guard);
    var ok := CheckEdits(tree.files, edits);
    if !ok {
      return Done(SetupFail);
    }
    var answer := guard(tree.files);
    if answer != Green {
      return if answer == Red then Done(SetupFail) else Raises;
    }
    var saved, order := CaptureAndApply(tree, edits);
    answer := guard(tree.files);
    WriteBack(tree, saved, order);
    assert tree.files == Leftover(start, edits) by {
      SavedIsLeftover(start, edits, saved);
    }
    if answer in {RuntimeFault, OtherFault} {
      return Raises;
    }
    var same := true;
    for k := 0 to |order|
      invariant same
    {
      assert order[k] in order;
      same := same && tree.files[order[k]] == saved[order[k]];
    }
    var again := guard(tree.files);
    exit :=
      if !same || again == Red then Done(RestoreRed)
      else if again != Green then Raises
      else if answer == Red then Done(Caught)
      else Done(Miss);
  }

  lemma SavedIsLeftover(disk: Disk, edits: seq<Edit>, saved: Disk)
    requires Captured(disk, edits, saved) && saved.Keys <= disk.Keys
    ensures Applied(disk, edits) + saved == Leftover(disk, edits)
  {
  }

  // ------------------------------------------------------------------ when it restores

  lemma {:induction false} EditsOfMembers(p: string, edits: seq<Edit>)
    ensures forall e :: e in EditsOf(p, edits) <==> e in edits && e.path == p
  {
    if edits != [] {
      EditsOfMembers(p, edits[..|edits| - 1]);
      assert forall e :: e in edits <==> e in edits[..|edits| - 1] || e == edits[|edits| - 1];
    }
  }

  /** Of two edits the first one stays, because it is not a no-op on the file as found. */
  lemma TwoEditsLeaveOne(disk: Disk, edits: seq<Edit>, p: string)
    requires Admissible(disk, edits) && p in disk && |EditsOf(p, edits)| == 2
    ensures Leftover(disk, edits)[p] != disk[p]
  {
    var es := EditsOf(p, edits);
    EditsOfMembers(p, edits);
    assert es[0] in es && es[0] in edits;
    AllButSecond(disk[p], es);
  }

  /** A file edited exactly twice is never restored: its "original" is the text after the first edit. */
  lemma TwiceEditedIsNotRestored(disk: Disk, edits: seq<Edit>, guard: Disk -> Answer, p: string)
    requires Admissible(disk, edits) && guard(disk) == Green && p in disk
    requires |EditsOf(p, edits)| == 2
    ensures FilesAfter(disk, edits, guard)[p] != disk[p]
  {
    TwoEditsLeaveOne(disk, edits, p);
  }

  lemma AllButSecond(text: string, es: seq<Edit>)
    requires |es| == 2
    ensures TextAfter(text, AllButLast(es)) == Edited(text, es[0])
  {
    assert AllButLast(es) == [es[0]] && [es[0]][..0] == [];
  }

  ghost predicate DistinctPaths(edits: seq<Edit>) {
    forall i, j :: 0 <= i < j < |edits| ==> edits[i].path != edits[j].path
  }

  lemma {:induction false} NoEditsOf(p: string, edits: seq<Edit>)
    requires forall k :: 0 <= k < |edits| ==> edits[k].path != p
    ensures EditsOf(p, edits) == []
  {
    if edits != [] {
      NoEditsOf(p, edits[..|edits| - 1]);
    }
  }

  lemma {:induction false} AtMostOneEdit(p: string, edits: seq<Edit>)
    requires DistinctPaths(edits)
    ensures |EditsOf(p, edits)| <= 1
  {
    if edits != [] {
      AtMostOneEdit(p, edits[..|edits| - 1]);
      if edits[|edits| - 1].path == p {
        NoEditsOf(p, edits[..|edits| - 1]);
      }
    }
  }

  lemma DistinctPathsRestore(disk: Disk, edits: seq<Edit>)
    requires DistinctPaths(edits)
    ensures Leftover(disk, edits) == disk
  {
    forall p | p in disk ensures AllButLast(EditsOf(p, edits)) == [] {
      AtMostOneEdit(p, edits);
    }
  }

  lemma {:induction false} FirstEditOf(p: string, edits: seq<Edit>)
    requires edits != []
    ensures EditsOf(p, edits) == (if edits[0].path == p then [edits[0]] else []) + EditsOf(p, edits[1..])
  {
    if |edits| > 1 {
      FirstEditOf(p, edits[..|edits| - 1]);
      assert edits[..|edits| - 1][1..] == edits[1..][..|edits| - 2];
    }
  }

  lemma {:induction false} TextAfterFirst(text: string, e: Edit, es: seq<Edit>)
    ensures TextAfter(text, [e] + es) == TextAfter(Edited(text, e), es)
  {
    if es == [] {
      assert [e] + es == [e] && [e][..0] == [];
    } else {
      var all, most := [e] + es, es[..|es| - 1];
      TextAfterFirst(text, e, most);
      assert all[..|es|] == [e] + most && all[|es|] == es[|es| - 1];
    }
  }

  lemma AppliedFirst(disk: Disk, edits: seq<Edit>)
    requires edits != [] && edits[0].path in disk
    ensures var e := edits[0];
            Applied(disk, edits) == Applied(disk[e.path := Edited(disk[e.path], e)], edits[1..])
  {
    var e := edits[0];
    var next := disk[e.path := Edited(disk[e.path], e)];
    forall p | p in disk
      ensures TextAfter(disk[p], EditsOf(p, edits)) == TextAfter(next[p], EditsOf(p, edits[1..]))
    {
      FirstEditOf(p, edits);
      TextAfterFirst(disk[p], e, EditsOf(p, edits[1..]));
      assert [] + EditsOf(p, edits[1..]) == EditsOf(p, edits[1..]);
    }
  }

  /** Editing in memory file by file and rewriting the disk edit by edit build the same mutant. */
  lemma {:induction false} MutantIsApplied(disk: Disk, edits: seq<Edit>)
    requires forall k :: 0 <= k < |edits| ==> edits[k].path in disk
    requires Mutant(disk, edits).Some?
    ensures Mutant(disk, edits).value == Applied(disk, edits)
  {
    if edits != [] {
      var e := edits[0];
      MutantIsApplied(disk[e.path := Edited(disk[e.path], e)], edits[1..]);
      AppliedFirst(disk, edits);
    }
  }

  /** With each file edited once, an edit is a no-op at its turn exactly when it is one as found. */
  lemma {:induction false} NoOpsOnDistinctPaths(disk: Disk, edits: seq<Edit>)
    requires DistinctPaths(edits) && forall k :: 0 <= k < |edits| ==> edits[k].path in disk
    ensures Mutant(disk, edits).Some? <==>
              forall k :: 0 <= k < |edits| ==> Edited(disk[edits[k].path], edits[k]) != disk[edits[k].path]
  {
    if edits != [] {
      var e, rest := edits[0], edits[1..];
      var next := disk[e.path := Edited(disk[e.path], e)];
      NoOpsOnDistinctPaths(next, rest);
      assert forall k :: 0 <= k < |rest| ==> rest[k] == edits[k + 1] && next[rest[k].path] == disk[edits[k + 1].path];
      assert forall k :: 1 <= k < |edits| ==> edits[k] == rest[k - 1];
    }
  }

  /** With distinct paths both batteries accept the same edits, build the same mutant, and restore. */
  lemma SameMutant(disk: Disk, edits: seq<Edit>)
    requires DistinctPaths(edits)
    ensures Leftover(disk, edits) == disk
    ensures Admissible(disk, edits) <==> Applicable(disk, edits) && Mutant(disk, edits).Some?
    ensures Admissible(disk, edits) ==> Mutant(disk, edits).value == Applied(disk, edits)
  {
    DistinctPathsRestore(disk, edits);
    if Applicable(disk, edits) {
      NoOpsOnDistinctPaths(disk, edits);
      if Mutant(disk, edits).Some? {
        MutantIsApplied(disk, edits);
      }
    }
  }

  /** With at most one edit a file, a text is left as found; with two it is not; with more, it is when
      the edits before the last one cancel out. */
  predicate ComesBack(text: string, es: seq<Edit>) {
    |es| <= 1 || (|es| >= 3 && TextAfter(text, AllButLast(es)) == text)
  }

  lemma LeftAsFound(disk: Disk, edits: seq<Edit>, p: string)
    requires Admissible(disk, edits) && p in disk
    ensures Leftover(disk, edits)[p] == disk[p] <==> ComesBack(disk[p], EditsOf(p, edits))
  {
    if |EditsOf(p, edits)| == 2 {
      TwoEditsLeaveOne(disk, edits, p);
    }
  }

  /** For any edit list: a run that gets to write leaves the files as found exactly when each one's
      edits let it come back. */
  lemma RestoresExactly(disk: Disk, edits: seq<Edit>, guard: Disk -> Answer)
    ensures FilesAfter(disk, edits, guard) == disk <==>
              (Admissible(disk, edits) && guard(disk) == Green ==>
                 forall p :: p in disk ==> ComesBack(disk[p], EditsOf(p, edits)))
  {
    if Admissible(disk, edits) {
      forall p | p in disk ensures Leftover(disk, edits)[p] == disk[p] <==> ComesBack(disk[p], EditsOf(p, edits)) {
        LeftAsFound(disk, edits, p);
      }
      assert Leftover(disk, edits) == disk <==> forall p :: p in disk ==> Leftover(disk, edits)[p] == disk[p];
    }
  }

  lemma {:induction false} EditIsItsFiles(edits: seq<Edit>, i: nat)
    requires i < |edits|
    ensures |EditsOf(edits[i].path, edits)| >= 1
  {
    if i < |edits| - 1 {
      EditIsItsFiles(edits[..|edits| - 1], i);
    }
  }

  lemma TwoOfOneFile(edits: seq<Edit>, i: nat, j: nat)
    requires i < j < |edits| && edits[i].path == edits[j].path
    ensures |EditsOf(edits[i].path, edits)| >= 2
    decreases |edits|
  {
    if j < |edits| - 1 {
      TwoOfOneFile(edits[..|edits| - 1], i, j);
    } else {
      EditIsItsFiles(edits[..|edits| - 1], i);
    }
  }

  /** For edit lists with at most two edits a file: the files come back exactly when the run stops
      before writing or the edited paths are pairwise distinct. */
  lemma RestoresOnlyDistinctPaths(disk: Disk, edits: seq<Edit>, guard: Disk -> Answer)
    requires forall p :: |EditsOf(p, edits)| <= 2
    ensures FilesAfter(disk, edits, guard) == disk <==>
              (Admissible(disk, edits) && guard(disk) == Green ==> DistinctPaths(edits))
  {
    RestoresExactly(disk, edits, guard);
    if DistinctPaths(edits) {
      forall p | p in disk ensures ComesBack(disk[p], EditsOf(p, edits)) {
        AtMostOneEdit(p, edits);
      }
    } else if Admissible(disk, edits) {
      var i, j :| 0 <= i < j < |edits| && edits[i].path == edits[j].path;
      TwoOfOneFile(edits, i, j);
      assert !ComesBack(disk[edits[i].path], EditsOf(edits[i].path, edits));
    }
  }

  // ------------------------------------------------------------------ agreement with snapshot-once

  /** What the two batteries measure, told by the same mutant: the variant checks for no-ops before it
      runs the guard, and lets a run-time fault of the mutant's guard escape. */
  predicate Disagree(disk: Disk, edits: seq<Edit>, guard: Disk -> Answer) {
    && Applicable(disk, edits)
    && match Mutant(disk, edits)
       case None => guard(disk) in {RuntimeFault, OtherFault}
       case Some(m) => guard(disk) == Green && guard(m) == RuntimeFault
  }

  /** What the variant reports for a mutant, once it has been built and the files restore. */
  function Reported(now: Answer, mutated: Answer): Exit {
    match now
    case Red => Done(SetupFail)
    case RuntimeFault => Raises
    case OtherFault => Raises
    case Green =>
      match mutated
      case Green => Done(Miss)
      case Red => Done(Caught)
      case RuntimeFault => Raises
      case OtherFault => Raises
  }

  lemma MeasureOfMutant(disk: Disk, edits: seq<Edit>, guard: Disk -> Answer, m: Disk)
    requires Admissible(disk, edits) && Applied(disk, edits) == m && Leftover(disk, edits) == disk
    ensures MeasurePerEdit(disk, edits, guard) == Reported(guard(disk), guard(m))
  {
  }

  lemma MeasureOfRefused(disk: Disk, edits: seq<Edit>, guard: Disk -> Answer)
    requires !Admissible(disk, edits)
    ensures MeasurePerEdit(disk, edits, guard) == Done(SetupFail)
  {
  }

  /** What the snapshot-once battery reports, told the same way. */
  lemma MeasureOnce(disk: Disk, edits: seq<Edit>, guard: Disk -> Answer, m: Disk)
    requires Applicable(disk, edits) && Mutant(disk, edits) == Some(m)
    ensures Measure(disk, edits, guard) ==
              if guard(disk) == Green && guard(m) == RuntimeFault then Done(SetupFail)
              else Reported(guard(disk), guard(m))
  {
  }

  lemma MeasureNoOp(disk: Disk, edits: seq<Edit>, guard: Disk -> Answer)
    requires Applicable(disk, edits) && Mutant(disk, edits).None?
    ensures Measure(disk, edits, guard) == if guard(disk) in {Green, Red} then Done(SetupFail) else Raises
  {
  }

  /** Both reports, by what becomes of the edits. */
  lemma BothReports(disk: Disk, edits: seq<Edit>, guard: Disk -> Answer) returns (once: Exit, perEdit: Exit)
    requires DistinctPaths(edits)
    ensures once == Measure(disk, edits, guard) && perEdit == MeasurePerEdit(disk, edits, guard)
    ensures !Applicable(disk, edits) ==> once == perEdit == Done(SetupFail)
    ensures Applicable(disk, edits) && Mutant(disk, edits).None? ==>
              perEdit == Done(SetupFail) && once == if guard(disk) in {Green, Red} then Done(SetupFail) else Raises
    ensures Applicable(disk, edits) && Mutant(disk, edits).Some? ==>
              var now, mutated := guard(disk), guard(Mutant(disk, edits).value);
              && perEdit == Reported(now, mutated)
              && once == if now == Green && mutated == RuntimeFault then Done(SetupFail) else Reported(now, mutated)
  {
    once, perEdit := Measure(disk, edits, guard), MeasurePerEdit(disk, edits, guard);
    SameMutant(disk, edits);
    if Admissible(disk, edits) {
      var m := Mutant(disk, edits).value;
      MeasureOfMutant(disk, edits, guard, m);
      MeasureOnce(disk, edits, guard, m);
    } else {
      MeasureOfRefused(disk, edits, guard);
      if Applicable(disk, edits) {
        MeasureNoOp(disk, edits, guard);
      }
    }
  }

  lemma DistinctPathsRestoreFiles(disk: Disk, edits: seq<Edit>, guard: Disk -> Answer)
    requires DistinctPaths(edits)
    ensures FilesAfter(disk, edits, guard) == disk
  {
    DistinctPathsRestore(disk, edits);
  }

  /** On edits of pairwise distinct files, whatever the guard does, the variant restores, and it reports
      what the snapshot-once battery does exactly unless the guard raises on a no-op list or hits a
      run-time fault on the mutant. */
  lemma AgreesOnDistinctPaths(disk: Disk, edits: seq<Edit>, guard: Disk -> Answer)
    requires DistinctPaths(edits)
    ensures FilesAfter(disk, edits, guard) == disk
    ensures MeasurePerEdit(disk, edits, guard) == Measure(disk, edits, guard) <==> !Disagree(disk, edits, guard)
  {
    DistinctPathsRestoreFiles(disk, edits, guard);
    ReportsAgree(disk, edits, guard);
  }

  lemma ReportsAgree(disk: Disk, edits: seq<Edit>, guard: Disk -> Answer)
    requires DistinctPaths(edits)
    ensures MeasurePerEdit(disk, edits, guard) == Measure(disk, edits, guard) <==> !Disagree(disk, edits, guard)
  {
    var once, perEdit := BothReports(disk, edits, guard);
  }

  /** In particular both say CAUGHT for the same edits. */
  lemma CaughtAlike(disk: Disk, edits: seq<Edit>, guard: Disk -> Answer)
    requires DistinctPaths(edits)
    ensures FilesAfter(disk, edits, guard) == disk
    ensures MeasurePerEdit(disk, edits, guard) == Done(Caught) <==> Measure(disk, edits, guard) == Done(Caught)
  {
    DistinctPathsRestoreFiles(disk, edits, guard);
    var once, perEdit := BothReports(disk, edits, guard);
  }

  // ------------------------------------------------------------------ the whole battery

  /** The files case k starts from: what the cases before it left. */
  function Before(disk: Disk, cases: seq<Case>, k: nat): Disk
    requires k <= |cases|
  {
    if k == 0 then disk
    else FilesAfter(Before(disk, cases, k - 1), cases[k - 1].edits, cases[k - 1].guard)
  }

  /** How case k ends. */
  function ExitOf(disk: Disk, cases: seq<Case>, k: nat): Exit
    requires k < |cases|
  {
    MeasurePerEdit(Before(disk, cases, k), cases[k].edits, cases[k].guard)
  }

  /** How each case would end if none raised. */
  function ExitsOf(disk: Disk, cases: seq<Case>): (exits: seq<Exit>)
    ensures |exits| == |cases|
  {
    seq(|cases|, k requires 0 <= k < |cases| => ExitOf(disk, cases, k))
  }

  /** How many cases a run gets to: up to the first that raises. */
  function RanOf(exits: seq<Exit>, k: nat): (ran: nat)
    requires k <= |exits|
    ensures k <= ran <= |exits|
    decreases |exits| - k
  {
    if k == |exits| then k else if exits[k] == Raises then k + 1 else RanOf(exits, k + 1)
  }

  /** Case k takes the files from one state to the next and ends as listed. */
  ghost predicate Runs(states: seq<Disk>, exits: seq<Exit>, cases: seq<Case>, k: nat) {
    && |states| == |cases| + 1 && |exits| == |cases| && k < |cases|
    && states[k + 1] == FilesAfter(states[k], cases[k].edits, cases[k].guard)
    && exits[k] == MeasurePerEdit(states[k], cases[k].edits, cases[k].guard)
  }

  lemma StatesOf(disk: Disk, cases: seq<Case>) returns (states: seq<Disk>)
    ensures AllRun(states, ExitsOf(disk, cases), cases) && states[0] == disk
    ensures forall k :: 0 <= k <= |cases| ==> states[k] == Before(disk, cases, k)
  {
    states := seq(|cases| + 1, k requires 0 <= k <= |cases| => Before(disk, cases, k));
  }

  ghost predicate AllRun(states: seq<Disk>, exits: seq<Exit>, cases: seq<Case>) {
    && |states| == |cases| + 1 && |exits| == |cases|
    && forall k {:trigger Runs(states, exits, cases, k)} :: 0 <= k < |cases| ==> Runs(states, exits, cases, k)
  }

  method RunCase(tree: Tree, cases: seq<Case>, k: nat, ghost states: seq<Disk>, ghost exits: seq<Exit>)
    returns (exit: Exit)
    requires k < |cases| && AllRun(states, exits, cases) && AllReplace(cases[k].edits) && tree.files == states[k]
    modifies tree
    ensures tree.files == states[k + 1] && exit == exits[k]
  {
    assert Runs(states, exits, cases, k);
    exit := RunEditsPerEdit(tree, cases[k].edits, cases[k].guard);
  }

  method RunAllCases(tree: Tree, cases: seq<Case>, ghost states: seq<Disk>, ghost exits: seq<Exit>)
    returns (end: End)
    requires AllRun(states, exits, cases) && tree.files == states[0]
    requires forall k :: 0 <= k < |cases| ==> AllReplace(cases[k].edits)
    modifies tree
    ensures tree.files == states[RanOf(exits, 0)] && end == EndOf(exits)
  {
    var caught := 0;
    for k := 0 to |cases|
      invariant tree.files == states[k] && 0 <= caught <= k
      invariant RanOf(exits, 0) == RanOf(exits, k)
      invariant forall j :: 0 <= j < k ==> exits[j] != Raises
      invariant caught == k <==> forall j :: 0 <= j < k ==> exits[j] == Done(Caught)
    {
      var exit := RunCase(tree, cases, k, states, exits);
      if exit == Raises {
        return Broken;
      }
      if exit.verdict == Caught {
        caught := caught + 1;
      }
    }
    end := Code(if caught == |cases| then 0 else 1);
  }

  /** The whole battery, for any cases: each starts from what the one before it left, the first that
      raises ends it, and otherwise the exit code is 0 exactly when every case is CAUGHT. */
  method WorkItemMain(tree: Tree, cases: seq<Case>) returns (end: End)
    requires forall k :: 0 <= k < |cases| ==> AllReplace(cases[k].edits)
    modifies tree
    ensures var exits := ExitsOf(old(tree.files), cases);
            tree.files == Before(old(tree.files), cases, RanOf(exits, 0)) && end == EndOf(exits)
  {
    ghost var exits := ExitsOf(tree.files, cases);
    ghost var states := StatesOf(tree.files, cases);
    end := RunAllCases(tree, cases, states, exits);
  }

  /** Where no case edits a file twice, every case starts from the files as found. */
  lemma {:induction false} DistinctBefore(disk: Disk, cases: seq<Case>, k: nat)
    requires k <= |cases| && forall j :: 0 <= j < |cases| ==> DistinctPaths(cases[j].edits)
    ensures Before(disk, cases, k) == disk
  {
    if k > 0 {
      DistinctBefore(disk, cases, k - 1);
      DistinctPathsRestoreFiles(disk, cases[k - 1].edits, cases[k - 1].guard);
    }
  }

  /** Then a case is CAUGHT when the snapshot-once battery says so. */
  lemma DistinctCaseAgrees(disk: Disk, cases: seq<Case>, k: nat)
    requires k < |cases| && forall j :: 0 <= j < |cases| ==> DistinctPaths(cases[j].edits)
    ensures ExitOf(disk, cases, k) == Done(Caught) <==>
              Measure(disk, cases[k].edits, cases[k].guard) == Done(Caught)
  {
    DistinctBefore(disk, cases, k);
    CaughtAlike(disk, cases[k].edits, cases[k].guard);
  }

  lemma EndOfAlike(disk: Disk, cases: seq<Case>, exits: seq<Exit>)
    requires |exits| == |cases|
    requires forall k :: 0 <= k < |cases| ==>
               (exits[k] == Done(Caught) <==> Measure(disk, cases[k].edits, cases[k].guard) == Done(Caught))
    ensures EndOf(exits) == Code(0) <==> AllCaught(disk, cases)
  {
  }

  /** Where no case edits a file twice, the battery leaves the files as found and its exit code is 0
      exactly when the snapshot-once battery's is. */
  lemma DistinctBatteryAgrees(disk: Disk, cases: seq<Case>)
    requires forall j :: 0 <= j < |cases| ==> DistinctPaths(cases[j].edits)
    ensures Before(disk, cases, RanOf(ExitsOf(disk, cases), 0)) == disk
    ensures EndOf(ExitsOf(disk, cases)) == Code(0) <==> AllCaught(disk, cases)
  {
    DistinctBefore(disk, cases, RanOf(ExitsOf(disk, cases), 0));
    DistinctExitsAgree(disk, cases);
    EndOfAlike(disk, cases, ExitsOf(disk, cases));
  }

  lemma DistinctExitsAgree(disk: Disk, cases: seq<Case>)
    requires forall j :: 0 <= j < |cases| ==> DistinctPaths(cases[j].edits)
    ensures forall k :: 0 <= k < |cases| ==>
              (ExitsOf(disk, cases)[k] == Done(Caught) <==>
               Measure(disk, cases[k].edits, cases[k].guard) == Done(Caught))
  {
    forall k | 0 <= k < |cases|
      ensures ExitsOf(disk, cases)[k] == Done(Caught) <==>
                Measure(disk, cases[k].edits, cases[k].guard) == Done(Caught)
    {
      DistinctCaseAgrees(disk, cases, k);
    }
  }

  // ------------------------------------------------------------------ instances

  /** A guard that notices one particular state of the files and nothing else. */
  function RedOnly(m: Disk): Disk -> Answer {
    (d: Disk) => if d == m then Red else Green
  }

  lemma NoticedThenLeft(disk: Disk, edits: seq<Edit>, m: Disk, left: Disk)
    requires Admissible(disk, edits) && Applied(disk, edits) == m && Leftover(disk, edits) == left
    requires m != disk && m != left
    ensures MeasurePerEdit(disk, edits, RedOnly(m)) == Done(Caught)
    ensures FilesAfter(disk, edits, RedOnly(m)) == left
  {
    var guard := RedOnly(m);
    assert guard(disk) == Green && guard(m) == Red && guard(left) == Green;
  }

  lemma OnlyFile(d: Disk, p: string)
    requires d.Keys == {p}
    ensures d == map[p := d[p]]
  {
  }

  /** A disk with one file, all of whose edits are the given ones. */
  lemma OneFile(p: string, text: string, edits: seq<Edit>)
    requires EditsOf(p, edits) == edits
    ensures Applied(map[p := text], edits) == map[p := TextAfter(text, edits)]
    ensures Leftover(map[p := text], edits) == map[p := TextAfter(text, AllButLast(edits))]
  {
    OnlyFile(Applied(map[p := text], edits), p);
    OnlyFile(Leftover(map[p := text], edits), p);
  }

  lemma {:induction false} AllOfOneFile(p: string, edits: seq<Edit>)
    requires forall k :: 0 <= k < |edits| ==> edits[k].path == p
    ensures EditsOf(p, edits) == edits
  {
    if edits != [] {
      AllOfOneFile(p, edits[..|edits| - 1]);
      assert edits == edits[..|edits| - 1] + [edits[|edits| - 1]];
    }
  }

  lemma TextAfterOne(text: string, e: Edit)
    ensures TextAfter(text, [e]) == Edited(text, e)
  {
    assert [e][..0] == [];
  }

  lemma TextAfterTwo(text: string, e: Edit, f: Edit)
    ensures AllButLast([e, f]) == [e] && TextAfter(text, [e, f]) == Edited(Edited(text, e), f)
  {
    assert [e, f][..1] == [e];
    TextAfterOne(text, e);
  }

  /** The edit is one the variant accepts on this text. */
  predicate Accepts(text: string, e: Edit) {
    e.Replace? && CountOf(text, e.before) == 1 && Edited(text, e) != text
  }

  lemma AdmissibleOnOneFile(p: string, text: string, edits: seq<Edit>)
    requires forall k :: 0 <= k < |edits| ==> edits[k].path == p && Accepts(text, edits[k])
    ensures AllReplace(edits) && Admissible(map[p := text], edits)
  {
  }

  // Two-letter texts and edits of one of the letters.

  function Swap(p: string, before: char, after: char): Edit {
    Replace(p, [before], [after])
  }

  lemma FirstLetter(p: string, c: char, d: char, after: char)
    ensures Edited([c] + [d], Swap(p, c, after)) == [after] + [d]
  {
    var s := [c] + [d];
    assert s[0..1] == [c] && s[..0] == "" && s[1..] == [d];
  }

  lemma SecondLetter(p: string, c: char, d: char, after: char)
    requires c != d
    ensures Edited([c] + [d], Swap(p, d, after)) == [c] + [after]
  {
    var s := [c] + [d];
    assert s[0..1][0] != d && s[1..2] == [d] && s[..1] == [c] && s[2..] == "";
    assert FindFrom(s, [d], 0) == Some(1);
  }

  lemma CountLetters(c: char, d: char)
    requires c != d
    ensures CountOf([c] + [d], [c]) == 1 && CountOf([c] + [d], [d]) == 1
  {
    var s := [c] + [d];
    assert s[0..1] == [c] && s[1..2] == [d] && [c][0] != [d][0];
    assert FindFrom(s, [c], 0) == Some(0) && FindFrom(s, [d], 0) == Some(1);
    assert CountFrom(s, [c], 1) == 0 && CountFrom(s, [d], 2) == 0;
    assert CountFrom(s, [c], 0) == 1 + CountFrom(s, [c], 1) && CountFrom(s, [d], 0) == 1 + CountFrom(s, [d], 2);
  }

  lemma LettersDiffer(a: char, b: char, c: char, d: char)
    ensures [a] + [b] == [c] + [d] <==> a == c && b == d
  {
    assert ([a] + [b])[0] == a && ([a] + [b])[1] == b && ([c] + [d])[0] == c && ([c] + [d])[1] == d;
  }

  lemma AcceptsFirst(p: string, c: char, d: char, after: char)
    requires c != d && after != c
    ensures Accepts([c] + [d], Swap(p, c, after))
  {
    FirstLetter(p, c, d, after);
    CountLetters(c, d);
    LettersDiffer(after, d, c, d);
  }

  lemma AcceptsSecond(p: string, c: char, d: char, after: char)
    requires c != d && after != d
    ensures Accepts([c] + [d], Swap(p, d, after))
  {
    SecondLetter(p, c, d, after);
    CountLetters(c, d);
    LettersDiffer(c, after, c, d);
  }

  /** Both letters of a two-letter file changed, one edit each: the run can report CAUGHT, and the
      file keeps the first change. */
  lemma TwiceEditedEscapes(p: string, a: char, b: char, x: char, y: char)
    requires a != b && x != a && x != b && y != b
    ensures var disk: Disk, edits := map[p := [a] + [b]], [Swap(p, a, x), Swap(p, b, y)];
            && AllReplace(edits) && MeasurePerEdit(disk, edits, RedOnly(map[p := [x] + [y]])) == Done(Caught)
            && FilesAfter(disk, edits, RedOnly(map[p := [x] + [y]])) == map[p := [x] + [b]] != disk
  {
    var text, e, f := [a] + [b], Swap(p, a, x), Swap(p, b, y);
    var edits, disk: Disk, m: Disk, left: Disk := [e, f], map[p := text], map[p := [x] + [y]], map[p := [x] + [b]];
    AcceptsFirst(p, a, b, x);
    AcceptsSecond(p, a, b, y);
    AdmissibleOnOneFile(p, text, edits);
    TwoChanges(p, a, b, x, y);
    LettersDiffer(a, b, x, y);
    LettersDiffer(x, y, x, b);
    LettersDiffer(a, b, x, b);
    assert disk[p] == [a] + [b] && m[p] == [x] + [y] && left[p] == [x] + [b];
    NoticedThenLeft(disk, edits, m, left);
  }

  lemma TwoChanges(p: string, a: char, b: char, x: char, y: char)
    requires x != b
    ensures var disk: Disk, edits := map[p := [a] + [b]], [Swap(p, a, x), Swap(p, b, y)];
            Applied(disk, edits) == map[p := [x] + [y]] && Leftover(disk, edits) == map[p := [x] + [b]]
  {
    var text, e, f := [a] + [b], Swap(p, a, x), Swap(p, b, y);
    AllOfOneFile(p, [e, f]);
    OneFile(p, text, [e, f]);
    TextAfterOne(text, e);
    TextAfterTwo(text, e, f);
    FirstLetter(p, a, b, x);
    SecondLetter(p, x, b, y);
  }

  /** Editing one file twice can be reported CAUGHT while the file stays mutated. */
  lemma CaughtYetNotRestored() returns (disk: Disk, edits: seq<Edit>, guard: Disk -> Answer)
    ensures AllReplace(edits) && MeasurePerEdit(disk, edits, guard) == Done(Caught)
    ensures FilesAfter(disk, edits, guard) != disk
  {
    var p, m: Disk := "f", map["f" := ['x'] + ['y']];
    disk, edits, guard := map[p := ['a'] + ['b']], [Swap(p, 'a', 'x'), Swap(p, 'b', 'y')], RedOnly(m);
    TwiceEditedEscapes(p, 'a', 'b', 'x', 'y');
  }

  /** Three edits of one file can leave it as found: the second undoes the first, and it is the text
      before the third that is written back. */
  lemma ThriceEditedCanComeBack(p: string, a: char, b: char, x: char, guard: Disk -> Answer)
    requires a != b && x != a && guard(map[p := [a] + [b]]) == Green
    ensures var disk: Disk, edits := map[p := [a] + [b]], [Swap(p, a, b), Swap(p, b, a), Swap(p, a, x)];
            && Admissible(disk, edits) && |EditsOf(p, edits)| == 3
            && FilesAfter(disk, edits, guard) == disk
  {
    var text, e, f, g := [a] + [b], Swap(p, a, b), Swap(p, b, a), Swap(p, a, x);
    var edits := [e, f, g];
    AcceptsFirst(p, a, b, b);
    AcceptsSecond(p, a, b, a);
    AcceptsFirst(p, a, b, x);
    AdmissibleOnOneFile(p, text, edits);
    AllOfOneFile(p, edits);
    OneFile(p, text, edits);
    assert AllButLast(edits) == [e, f];
    TextAfterTwo(text, e, f);
    FirstLetter(p, a, b, b);
    FirstLetter(p, b, b, a);
  }
}
