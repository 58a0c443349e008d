/**
 * `longest_common_substring` (src/main.rs): a brute-force search over the
 * slices of the first name, longest first and, within one length, leftmost
 * first, for a slice that every name contains.
 */
module Lcs {
  import opened Optional
  import opened Strings

  /** `t` is contained in every name of the listing. */
  predicate IsCommon(names: seq<string>, t: string) {
    forall i | 0 <= i < |names| :: Contains(names[i], t)
  }

  /** The slice of the first name at `start` of length `len` is common to all names. */
  predicate CommonSliceAt(names: seq<string>, start: int, len: int) {
    && |names| > 0
    && 0 <= start && 0 <= len && start + len <= |names[0]|
    && IsCommon(names, names[0][start..start + len])
  }

  /** No string longer than `n` is common to all names. */
  ghost predicate NoCommonLongerThan(names: seq<string>, n: nat) {
    forall t :: IsCommon(names, t) ==> |t| <= n
  }

  /** No slice of the first name longer than `n` is common to all names. */
  ghost predicate NoCommonSliceLongerThan(names: seq<string>, n: nat) {
    forall s, l :: n < l ==> !CommonSliceAt(names, s, l)
  }

  /**
   * The slice of the first name at `start` of length `len` is the answer:
   * it is non-empty and common, no longer slice is common, and no common
   * slice of the same length starts further left.
   */
  ghost predicate IsLeftmostLongest(names: seq<string>, start: nat, len: nat) {
    && 0 < len
    && CommonSliceAt(names, start, len)
    && NoCommonSliceLongerThan(names, len)
    && forall s :: s < start ==> !CommonSliceAt(names, s, len)
  }

  /**
   * What `longest_common_substring` returns: `None` for an empty listing
   * or when no non-empty slice of the first name is common to all names,
   * and otherwise the leftmost longest common slice of the first name.
   */
  ghost predicate LcsSpec(names: seq<string>, r: Option<string>) {
    if |names| == 0 then r == None
    else match r
      case None => NoCommonSliceLongerThan(names, 0)
      case Some(t) =>
        exists start: nat :: IsLeftmostLongest(names, start, |t|) && t == names[0][start..start + |t|]
  }

  /** If no slice of the first name longer than `n` is common, no string longer than `n` is. */
  lemma SlicesBoundCommon(names: seq<string>, n: nat)
    requires |names| > 0 && NoCommonSliceLongerThan(names, n)
    ensures NoCommonLongerThan(names, n)
  {
    forall t | IsCommon(names, t)
      ensures |t| <= n
    {
      assert Contains(names[0], t);
      var i :| 0 <= i <= |names[0]| && OccursAt(names[0], t, i);
      assert names[0][i..i + |t|] == t;
      assert CommonSliceAt(names, i, |t|);
    }
  }

  /** The search of src/main.rs:83-98, with its early return. */
  method LongestCommonSubstring(names: seq<string>) returns (r: Option<string>)
    ensures LcsSpec(names, r)
    ensures r.Some? ==> |r.value| > 0 && IsCommon(names, r.value)
  {
    if |names| == 0 {
      return None;
    }
    var first := names[0];
    var len := |first|;
    while len > 0
      invariant 0 <= len <= |first|
      invariant forall l, s :: len < l ==> !CommonSliceAt(names, s, l)
    {
      var start := 0;
      while start <= |first| - len
        invariant 0 <= start <= |first| - len + 1
        invariant forall s :: s < start ==> !CommonSliceAt(names, s, len)
      {
        var candidate := first[start..start + len];
        assert IsCommon(names, candidate) == CommonSliceAt(names, start, len);
        if IsCommon(names, candidate) {
          assert IsLeftmostLongest(names, start, len);
          return Some(candidate);
        }
        start := start + 1;
      }
      len := len - 1;
    }
    return None;
  }

  /** Two leftmost-longest slices of the first name are the same slice. */
  lemma LeftmostLongestUnique(names: seq<string>, s1: nat, l1: nat, s2: nat, l2: nat)
    requires |names| > 0
    requires IsLeftmostLongest(names, s1, l1) && IsLeftmostLongest(names, s2, l2)
    ensures s1 == s2 && l1 == l2
  {
    assert l1 == l2;
  }

  /** The start offset that witnesses a `Some` answer. */
  lemma LcsStart(names: seq<string>, t: string) returns (start: nat)
    requires LcsSpec(names, Some(t))
    ensures |names| > 0 && IsLeftmostLongest(names, start, |t|)
    ensures t == names[0][start..start + |t|] && IsCommon(names, t)
  {
    start :| IsLeftmostLongest(names, start, |t|) && t == names[0][start..start + |t|];
  }

  /** A `Some` answer and a `None` answer cannot both meet the specification. */
  lemma LcsSomeExcludesNone(names: seq<string>, t: string)
    requires LcsSpec(names, Some(t))
    ensures !LcsSpec(names, None)
  {
    var s := LcsStart(names, t);
    assert |t| > 0 && IsCommon(names, t);
  }

  /**
   * The specification leaves no choice: at most one result satisfies it,
   * so it states the search's answer exactly, tie-break included.
   */
  lemma LcsSpecUnique(names: seq<string>, r1: Option<string>, r2: Option<string>)
    requires LcsSpec(names, r1) && LcsSpec(names, r2)
    ensures r1 == r2
  {
    if r1.Some? && r2.Some? {
      var s1 := LcsStart(names, r1.value);
      var s2 := LcsStart(names, r2.value);
      LeftmostLongestUnique(names, s1, |r1.value|, s2, |r2.value|);
      assert r1.value == r2.value;
    } else if r1.Some? {
      LcsSomeExcludesNone(names, r1.value);
      assert false;
    } else if r2.Some? {
      LcsSomeExcludesNone(names, r2.value);
      assert false;
    }
  }

  /** The answer is `None` exactly when the listing is empty or has no non-empty common string. */
  lemma LcsNoneIff(names: seq<string>, r: Option<string>)
    requires LcsSpec(names, r)
    ensures r.None? <==> |names| == 0 || forall t :: |t| > 0 ==> !IsCommon(names, t)
  {
    if r.Some? {
      var s := LcsStart(names, r.value);
    } else if |names| > 0 {
      SlicesBoundCommon(names, 0);
    }
  }

  /** A `Some` answer is common to all names and at least as long as every common string. */
  lemma LcsSomeIsLongestCommon(names: seq<string>, t: string)
    requires LcsSpec(names, Some(t))
    ensures |t| > 0 && IsCommon(names, t)
    ensures forall u :: IsCommon(names, u) ==> |u| <= |t|
  {
    var s := LcsStart(names, t);
    SlicesBoundCommon(names, |t|);
  }

  /** A listing with an empty name has no common substring. */
  lemma LcsEmptyName(names: seq<string>, k: nat)
    requires k < |names| && names[k] == []
    ensures LcsSpec(names, None)
  {
  }

  /** A single non-empty name is its own longest common substring. */
  lemma LcsSingleName(name: string)
    requires |name| > 0
    ensures LcsSpec([name], Some(name))
  {
    var names := [name];
    assert name[0..|name|] == name;
    ContainsSlice(name, 0, |name|);
    assert IsLeftmostLongest(names, 0, |name|);
  }
}
