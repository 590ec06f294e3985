/** The contract battery: a mutation of the deriving script only shows once the derived data file has
    been rewritten, so that file is regenerated while mutated and restored as well. */
module Regeneration {
  import opened Prelude
  import opened PyText
  import opened Harness
  import opened Battery

  const GEN: string := "scripts/generate_event_contracts.py"
  const DATA: string := "src/freight_recon/event_contracts_data.json"

  /** The files while the mutation is in place. */
  function Mutated(disk: Disk, rel: string, text: string, derive: Disk -> string): Disk {
    var d := disk[rel := text];
    if rel == GEN then d[DATA := derive(d)] else d
  }

  function MeasureText(disk: Disk, rel: string, before: string, after: string,
                       guard: Disk -> Answer, derive: Disk -> string): Exit
  {
    if rel !in disk || CountOf(disk[rel], before) != 1 then Done(SetupFail)
    else match guard(disk)
      case Red => Done(SetupFail)
      case RuntimeFault => Raises
      case OtherFault => Raises
      case Green =>
        var text := ReplaceFirst(disk[rel], before, after);
        if text == disk[rel] then Done(SetupFail)
        else if rel == GEN && DATA !in disk then Raises
        else match guard(Mutated(disk, rel, text, derive))
          case Green => Done(Miss)
          case Red => Done(Caught)
          case RuntimeFault => Raises
          case OtherFault => Raises
  }

  /** The anchor counts once and the guard passes on the files as found. */
  predicate Starts(disk: Disk, rel: string, before: string, guard: Disk -> Answer) {
    rel in disk && CountOf(disk[rel], before) == 1 && guard(disk) == Green
  }

  /** What a case comes to when the mutated text is put in place, and the data file, if the deriving
      script is what was mutated, is derived from it: CAUGHT and MISS say how the guard ends on that. */
  ghost predicate TextVerdict(disk: Disk, rel: string, before: string, after: string,
                              guard: Disk -> Answer, derive: Disk -> string, exit: Exit)
  {
    var text := if rel in disk then ReplaceFirst(disk[rel], before, after) else "";
    var written := disk[rel := text];
    var mutant := if rel == GEN then written[DATA := derive(written)] else written;
    var changes := Starts(disk, rel, before, guard) && text != disk[rel];
    var runs := changes && (rel == GEN ==> DATA in disk);
    && exit != Done(RestoreRed)
    && (exit == Done(Caught) <==> runs && guard(mutant) == Red)
    && (exit == Done(Miss) <==> runs && guard(mutant) == Green)
    && (exit == Raises <==>
          || (rel in disk && CountOf(disk[rel], before) == 1 && guard(disk) in {RuntimeFault, OtherFault})
          || (changes && !runs) || (runs && guard(mutant) in {RuntimeFault, OtherFault}))
  }

  lemma MeasuredExactly(disk: Disk, rel: string, before: string, after: string,
                        guard: Disk -> Answer, derive: Disk -> string)
    ensures TextVerdict(disk, rel, before, after, guard, derive, MeasureText(disk, rel, before, after, guard, derive))
  {
  }

  /** Both files are as found on every exit, and the verdict is the one called for. */
  method RunTextCase(tree: Tree, rel: string, before: string, after: string,
                     guard: Disk -> Answer, derive: Disk -> string) returns (exit: Exit)
    modifies tree
    ensures tree.files == old(tree.files)
    ensures exit == MeasureText(old(tree.files), rel, before, after, guard, derive)
    ensures TextVerdict(old(tree.files), rel, before, after, guard, derive, exit)
  {
    PathsDiffer();
    MeasuredExactly(tree.files, rel, before, after, guard, derive);
    if rel !in tree.files {
      return Done(SetupFail);
    }
    var original := tree.files[rel];
    if CountOf(original, before) != 1 {
      return Done(SetupFail);
    }
    var answer := guard(tree.files);
    if answer != Green {
      return if answer == Red then Done(SetupFail) else Raises;
    }
    var mutated := ReplaceFirst(original, before, after);
    if mutated == original {
      return Done(SetupFail);
    }
    var dataOriginal := None;
    if rel == GEN {
      if DATA !in tree.files {
        return Raises;
      }
      dataOriginal := Some(tree.files[DATA]);
    }
    tree.Write(rel, mutated);
    if rel == GEN {
      tree.Write(DATA, derive(tree.files));
    }
    answer := guard(tree.files);
    tree.Write(rel, original);
    if dataOriginal.Some? {
      tree.Write(DATA, dataOriginal.value);
    }
    if answer in {RuntimeFault, OtherFault} {
      return Raises;
    }
    var again := guard(tree.files);
    exit :=
      if tree.files[rel] != original then Done(RestoreRed)
      else if dataOriginal.Some? && tree.files[DATA] != dataOriginal.value then Done(RestoreRed)
      else if again == Red then Done(RestoreRed)
      else if again != Green then Raises
      else if answer == Red then Done(Caught)
      else Done(Miss);
  }

  lemma PathsDiffer()
    ensures GEN != DATA
  {
    assert |GEN| == 35 && |DATA| == 43;
  }

  datatype TextCase = TextCase(rel: string, before: string, after: string, guard: Disk -> Answer)

  function ExitOf(disk: Disk, c: TextCase, derive: Disk -> string): Exit {
    MeasureText(disk, c.rel, c.before, c.after, c.guard, derive)
  }

  ghost predicate ExitAt(disk: Disk, cases: seq<TextCase>, derive: Disk -> string, exits: seq<Exit>, k: nat) {
    k < |cases| == |exits| && exits[k] == ExitOf(disk, cases[k], derive)
  }

  ghost predicate AllExits(disk: Disk, cases: seq<TextCase>, derive: Disk -> string, exits: seq<Exit>) {
    |cases| == |exits| &&
    forall k {:trigger ExitAt(disk, cases, derive, exits, k)} ::
      0 <= k < |cases| ==> ExitAt(disk, cases, derive, exits, k)
  }

  function ExitsOf(disk: Disk, cases: seq<TextCase>, derive: Disk -> string): (exits: seq<Exit>)
    ensures |exits| == |cases|
  {
    seq(|cases|, k requires 0 <= k < |cases| => ExitOf(disk, cases[k], derive))
  }

  method RunNext(tree: Tree, cases: seq<TextCase>, derive: Disk -> string, ghost exits: seq<Exit>, k: nat)
    returns (exit: Exit)
    requires k < |cases| && AllExits(tree.files, cases, derive, exits)
    modifies tree
    ensures tree.files == old(tree.files) && exit == exits[k]
  {
    assert ExitAt(tree.files, cases, derive, exits, k);
    exit := RunTextCase(tree, cases[k].rel, cases[k].before, cases[k].after, cases[k].guard, derive);
  }

  method RunTextCases(tree: Tree, cases: seq<TextCase>, derive: Disk -> string, ghost exits: seq<Exit>)
    returns (end: End)
    requires AllExits(tree.files, cases, derive, exits)
    modifies tree
    ensures tree.files == old(tree.files) && end == EndOf(exits)
  {
    ghost var start := tree.files;
    var caught := 0;
    for k := 0 to |cases|
      invariant tree.files == start && 0 <= caught <= k
      invariant forall j :: 0 <= j < k ==> exits[j] != Raises
      invariant caught == k <==> forall j :: 0 <= j < k ==> exits[j] == Done(Caught)
    {
      var exit := RunNext(tree, cases, derive, exits, k);
      if exit == Raises {
        return Broken;
      }
      if exit.verdict == Caught {
        caught := caught + 1;
      }
    }
    end := Code(if caught == |cases| then 0 else 1);
  }

  lemma ExitsAreExits(disk: Disk, cases: seq<TextCase>, derive: Disk -> string)
    ensures AllExits(disk, cases, derive, ExitsOf(disk, cases, derive))
  {
  }

  lemma EndOfCases(disk: Disk, cases: seq<TextCase>, derive: Disk -> string)
    ensures var end := EndOf(ExitsOf(disk, cases, derive));
            && end in {Broken, Code(0), Code(1)}
            && (end == Broken <==> exists k :: 0 <= k < |cases| && ExitOf(disk, cases[k], derive) == Raises)
            && (end == Code(0) <==> forall k :: 0 <= k < |cases| ==> ExitOf(disk, cases[k], derive) == Done(Caught))
  {
    var exits := ExitsOf(disk, cases, derive);
    forall k | 0 <= k < |cases| ensures exits[k] == ExitOf(disk, cases[k], derive) {
    }
    if k :| 0 <= k < |cases| && ExitOf(disk, cases[k], derive) == Raises {
      assert exits[k] == Raises;
    }
    if forall k :: 0 <= k < |cases| ==> ExitOf(disk, cases[k], derive) == Done(Caught) {
      assert forall k :: 0 <= k < |cases| ==> exits[k] == Done(Caught);
    }
    if EndOf(exits) == Code(0) {
      assert forall k :: 0 <= k < |cases| ==> exits[k] == Done(Caught);
    }
  }

  /** The contract battery: the files, the data file among them, are as found at the end, and the exit
      code is 0 exactly when every case is CAUGHT. */
  method ContractsMain(tree: Tree, cases: seq<TextCase>, derive: Disk -> string) returns (end: End)
    modifies tree
    ensures tree.files == old(tree.files)
    ensures end in {Broken, Code(0), Code(1)}
    ensures end == Broken <==> exists k :: 0 <= k < |cases| && ExitOf(old(tree.files), cases[k], derive) == Raises
    ensures end == Code(0) <==>
              forall k :: 0 <= k < |cases| ==> ExitOf(old(tree.files), cases[k], derive) == Done(Caught)
  {
    EndOfCases(tree.files, cases, derive);
    ExitsAreExits(tree.files, cases, derive);
    end := RunTextCases(tree, cases, derive, ExitsOf(tree.files, cases, derive));
  }

  /** The guard reads nothing but the data file. */
  ghost predicate ReadsOnlyData(guard: Disk -> Answer) {
    forall d1, d2 :: DATA in d1 && DATA in d2 && d1[DATA] == d2[DATA] ==> guard(d1) == guard(d2)
  }

  /** Under such a guard only a mutation of the deriving script can be caught, and only one that makes
      the script derive different data. */
  lemma OnlyRegeneratedDataShows(disk: Disk, rel: string, before: string, after: string,
                                 guard: Disk -> Answer, derive: Disk -> string)
    requires ReadsOnlyData(guard) && DATA in disk && rel != DATA
    requires MeasureText(disk, rel, before, after, guard, derive) == Done(Caught)
    ensures rel == GEN
    ensures derive(disk[GEN := ReplaceFirst(disk[GEN], before, after)]) != disk[DATA]
  {
    PathsDiffer();
    var text := ReplaceFirst(disk[rel], before, after);
    var m := Mutated(disk, rel, text, derive);
    assert guard(m) != guard(disk);
    assert DATA in m && m[DATA] != disk[DATA];
  }
}
