/**
 * The branches of `main` (src/main.rs:20-46): which of printing the common
 * substring, renaming and listing happen for a given `--nameloop` flag and
 * `--remove` argument.  Argument parsing and the directory read are not
 * modelled: the listing and the parsed arguments are inputs.
 */
module Cli {
  import opened Optional
  import opened Strings
  import opened Extension
  import opened Lcs
  import opened Renamer

  /**
   * The parsed `--remove` argument: absent, or given with a value.  Given
   * without `=value` it carries the empty string (`default_missing_value("")`).
   */
  datatype RemoveArg = Absent | Given(value: string)

  /** What one run does, in order. */
  datatype Action =
    | PrintCommon(common: string)    // "Longest common substring: ..."
    | PrintNoCommon                  // "No common substring found."
    | RenameAll(target: string)      // remove_string_from_filenames(&files, target)
    | PrintListing                   // every name, one per line

  /** The stems the common substring is searched in: a prefix of each name. */
  function Stems(files: seq<string>): (stems: seq<string>)
    ensures |stems| == |files|
    ensures forall i :: 0 <= i < |files| ==> |stems[i]| <= |files[i]| && stems[i] == files[i][..|stems[i]|]
  {
    seq(|files|, i requires 0 <= i < |files| => RemoveExtension(files[i]))
  }

  /**
   * The actions of one run, given the flag, the `--remove` argument and the
   * answer of the common-substring search (consulted only with the flag).
   */
  function Dispatch(nameloop: bool, remove: RemoveArg, common: Option<string>): (actions: seq<Action>)
    // The renamer uses the common substring only with the flag and an empty `--remove`.
    ensures forall t :: RenameAll(t) in actions <==>
      (nameloop && remove == Given([]) && common == Some(t)) || (!nameloop && remove == Given(t) && t != [])
    // An explicit target together with the flag renames nothing.
    ensures nameloop && remove.Given? && remove.value != [] ==> forall a | a in actions :: !a.RenameAll?
    // Each action happens at most once.
    ensures forall i, j :: 0 <= i < j < |actions| ==> actions[i] != actions[j]
    // The renamer runs at most once.
    ensures forall i, j :: 0 <= i < j < |actions| ==> !(actions[i].RenameAll? && actions[j].RenameAll?)
    // The common substring is printed before the rename that uses it.
    ensures forall i, j :: 0 <= i < |actions| && 0 <= j < |actions| && actions[i].PrintCommon? && actions[j].RenameAll? ==> i < j
    // The listing is printed only when neither option is given.
    ensures PrintListing in actions <==> !nameloop && remove.Absent?
    // The search's answer is printed exactly when the flag is set.
    ensures forall c :: PrintCommon(c) in actions <==> nameloop && common == Some(c)
    ensures PrintNoCommon in actions <==> nameloop && common.None?
    // Given a non-empty answer, the renamer never receives an empty target.
    ensures (common.Some? ==> common.value != []) ==>
      forall a | a in actions :: a.RenameAll? ==> a.target != []
  {
    var search :=
      if !nameloop then []
      else match common
        case Some(c) => [PrintCommon(c)] + (if remove == Given([]) then [RenameAll(c)] else [])
        case None => [PrintNoCommon];
    var explicit := if remove.Given? && !nameloop && remove.value != [] then [RenameAll(remove.value)] else [];
    var listing := if !nameloop && remove.Absent? then [PrintListing] else [];
    search + explicit + listing
  }

  /**
   * With the flag and an empty `--remove`, the common substring of the
   * stems is contained in every name, so every name of the listing is
   * renamed.
   */
  lemma CommonRenamesEveryFile(files: seq<string>, c: string)
    requires LcsSpec(Stems(files), Some(c))
    ensures |c| > 0 && |RenamePlan(files, c)| == |files|
    ensures forall i :: 0 <= i < |files| ==> RenamePlan(files, c)[i].from == files[i]
  {
    var stems := Stems(files);
    LcsSomeIsLongestCommon(stems, c);
    forall i | 0 <= i < |files|
      ensures Contains(files[i], c)
    {
      assert Contains(stems[i], c);
      ContainsPrefix(files[i], |stems[i]|, c);
    }
    RenamePlanAll(files, c);
  }

  /**
   * One run of `main` on a listing: the actions it takes and the reports of
   * the renames it attempts.  `common` is the search's answer when the flag
   * is set.
   */
  method Run(files: seq<string>, nameloop: bool, remove: RemoveArg, renameSucceeds: nat -> bool)
    returns (actions: seq<Action>, reports: seq<Report>, ghost common: Option<string>)
    ensures nameloop ==> LcsSpec(Stems(files), common)
    ensures !nameloop ==> common == None
    ensures actions == Dispatch(nameloop, remove, common)
    ensures forall t :: RenameAll(t) in actions ==>
      && |t| > 0
      && |reports| == |RenamePlan(files, t)|
      && forall k :: 0 <= k < |reports| ==> reports[k] == Report(RenamePlan(files, t)[k], renameSucceeds(k))
    ensures (forall a | a in actions :: !a.RenameAll?) ==> reports == []
  {
    actions, reports, common := [], [], None;
    if nameloop {
      var found := LongestCommonSubstring(Stems(files));
      common := found;
      match found
      case Some(c) =>
        actions := actions + [PrintCommon(c)];
        if remove.Given? && remove.value == [] {
          actions := actions + [RenameAll(c)];
          reports := RemoveStringFromFilenames(files, c, renameSucceeds);
        }
      case None =>
        actions := actions + [PrintNoCommon];
    }
    if remove.Given? {
      if !nameloop && remove.value != [] {
        actions := actions + [RenameAll(remove.value)];
        reports := RemoveStringFromFilenames(files, remove.value, renameSucceeds);
      }
    }
    if !nameloop && remove.Absent? {
      actions := actions + [PrintListing];
    }
  }
}
