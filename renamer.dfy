/**
 * `remove_string_from_filenames` (src/main.rs:101-112): every name of the
 * listing that contains the target is renamed to the name with all
 * occurrences of the target removed.  The rename itself is a file-system
 * call; here it is an entry of the plan, and whether it succeeds is an
 * outcome supplied from outside.
 */
module Renamer {
  import opened Strings
  import opened Replace

  /** One `fs::rename(from, to)` call. */
  datatype Rename = Rename(from: string, to: string)

  /** A rename attempted and whether it succeeded (else an error was reported). */
  datatype Report = Report(rename: Rename, succeeded: bool)

  /**
   * The renames the loop issues for a listing, in listing order: each
   * renames a name of the listing that contains the target to that name
   * with the target removed.
   */
  function RenamePlan(files: seq<string>, target: string): (plan: seq<Rename>)
    requires |target| > 0
    ensures |plan| <= |files|
    ensures forall k :: 0 <= k < |plan| ==>
      plan[k].from in files && Contains(plan[k].from, target) && plan[k].to == RemoveAll(plan[k].from, target)
  {
    if files == [] then []
    else
      var last := files[|files| - 1];
      RenamePlan(files[..|files| - 1], target)
        + (if Contains(last, target) then [Rename(last, RemoveAll(last, target))] else [])
  }

  /**
   * `idx` lists, in increasing order, the positions of the listing that
   * the plan renames: exactly those whose name contains the target, each
   * renamed to that name with the target removed.
   */
  ghost predicate SelectsInOrder(files: seq<string>, target: string, plan: seq<Rename>, idx: seq<nat>)
    requires |target| > 0
  {
    && |idx| == |plan|
    && (forall k :: 0 <= k < |idx| ==>
          idx[k] < |files| && plan[k] == Rename(files[idx[k]], RemoveAll(files[idx[k]], target)))
    && (forall j, k :: 0 <= j < k < |idx| ==> idx[j] < idx[k])
    && (forall i :: 0 <= i < |files| ==> (Contains(files[i], target) <==> i in idx))
  }

  /** One more name at the end of the listing extends the renamed positions by at most that one. */
  lemma RenamePlanIndicesStep(files: seq<string>, target: string, prev: seq<nat>) returns (idx: seq<nat>)
    requires |target| > 0 && |files| > 0
    requires SelectsInOrder(files[..|files| - 1], target, RenamePlan(files[..|files| - 1], target), prev)
    ensures SelectsInOrder(files, target, RenamePlan(files, target), idx)
  {
    var n := |files| - 1;
    var init := files[..n];
    var plan := RenamePlan(files, target);
    if Contains(files[n], target) {
      idx := prev + [n];
      assert plan == RenamePlan(init, target) + [Rename(files[n], RemoveAll(files[n], target))];
    } else {
      idx := prev;
      assert plan == RenamePlan(init, target);
    }
    forall i | 0 <= i < |files|
      ensures Contains(files[i], target) <==> i in idx
    {
      if i < n {
        assert files[i] == init[i];
        assert i in prev <==> i in idx;
      }
    }
  }

  /** The positions the plan renames, built alongside the plan. */
  lemma {:induction false} RenamePlanIndices(files: seq<string>, target: string) returns (idx: seq<nat>)
    requires |target| > 0
    ensures SelectsInOrder(files, target, RenamePlan(files, target), idx)
  {
    if files == [] {
      idx := [];
    } else {
      var prev := RenamePlanIndices(files[..|files| - 1], target);
      idx := RenamePlanIndicesStep(files, target, prev);
    }
  }

  /**
   * The plan renames exactly the names containing the target, in listing
   * order, and leaves the others alone.
   */
  lemma RenamePlanSelects(files: seq<string>, target: string)
    requires |target| > 0
    ensures exists idx :: SelectsInOrder(files, target, RenamePlan(files, target), idx)
  {
    var idx := RenamePlanIndices(files, target);
  }

  /** Each rename removes at least one occurrence, shortening the name by `|target|` per occurrence. */
  lemma RenamePlanShortens(files: seq<string>, target: string, k: nat)
    requires |target| > 0 && k < |RenamePlan(files, target)|
    ensures var r := RenamePlan(files, target)[k];
      Occurrences(r.from, target) >= 1 && |r.to| == |r.from| - Occurrences(r.from, target) * |target|
  {
    var idx := RenamePlanIndices(files, target);
    var r := RenamePlan(files, target)[k];
    assert Contains(files[idx[k]], target);
    ContainsIffOccurrences(r.from, target);
  }

  /** When every name contains the target, every name is renamed, in listing order. */
  lemma {:induction false} RenamePlanAll(files: seq<string>, target: string)
    requires |target| > 0
    requires forall i :: 0 <= i < |files| ==> Contains(files[i], target)
    ensures |RenamePlan(files, target)| == |files|
    ensures forall i :: 0 <= i < |files| ==> RenamePlan(files, target)[i] == Rename(files[i], RemoveAll(files[i], target))
  {
    if files != [] {
      var n := |files| - 1;
      var init := files[..n];
      RenamePlanAll(init, target);
      assert Contains(files[n], target);
      var plan := RenamePlan(files, target);
      assert plan == RenamePlan(init, target) + [Rename(files[n], RemoveAll(files[n], target))];
    }
  }

  /**
   * The loop of src/main.rs:102-111: one rename attempt per name that
   * contains the target, a failure reported and the loop carried on.
   */
  method RemoveStringFromFilenames(files: seq<string>, target: string, renameSucceeds: nat -> bool)
    returns (reports: seq<Report>)
    requires |target| > 0
    ensures |reports| == |RenamePlan(files, target)|
    ensures forall k :: 0 <= k < |reports| ==>
      reports[k].rename == RenamePlan(files, target)[k] && reports[k].succeeded == renameSucceeds(k)
  {
    reports := [];
    for i := 0 to |files|
      invariant |reports| == |RenamePlan(files[..i], target)|
      invariant forall k :: 0 <= k < |reports| ==>
        reports[k] == Report(RenamePlan(files[..i], target)[k], renameSucceeds(k))
    {
      assert files[..i + 1][..i] == files[..i];
      var file := files[i];
      if Contains(file, target) {
        var newName := RemoveAll(file, target);
        var succeeded := renameSucceeds(|reports|);
        reports := reports + [Report(Rename(file, newName), succeeded)];
      }
    }
    assert files[..|files|] == files;
  }
}
