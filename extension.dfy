/**
 * `remove_extension` (src/main.rs): the stem of a directory entry's name,
 * as `Path::file_stem` computes it for a name without path separators.
 */
module Extension {
  import opened Optional

  /** Index of the last occurrence of `c` in `s`, if any. */
  function LastIndexOf(s: string, c: char): (r: Option<nat>)
    ensures r.None? <==> c !in s
    ensures r.Some? ==> r.value < |s| && s[r.value] == c
    ensures r.Some? ==> forall j :: r.value < j < |s| ==> s[j] != c
  {
    if |s| == 0 then None
    else if s[|s| - 1] == c then Some(|s| - 1)
    else
      var r := LastIndexOf(s[..|s| - 1], c);
      assert s == s[..|s| - 1] + [s[|s| - 1]];
      r
  }

  /**
   * Splits a name at its last dot into stem and extension.  A name with
   * no dot, or whose last dot is its first character (a hidden file such
   * as ".profile"), has no extension.
   */
  function SplitExtension(name: string): (r: (string, Option<string>))
    ensures r.1.None? ==> r.0 == name
    ensures r.1.None? <==> forall i :: 0 < i < |name| ==> name[i] != '.'
    ensures r.1.Some? ==> r.0 + ['.'] + r.1.value == name
    ensures r.1.Some? ==> |r.0| > 0 && '.' !in r.1.value
  {
    match LastIndexOf(name, '.')
    case None => (name, None)
    case Some(i) =>
      if i == 0 then (name, None)
      else
        assert name == name[..i] + ['.'] + name[i + 1..];
        (name[..i], Some(name[i + 1..]))
  }

  /** `remove_extension`: the name without its final extension. */
  function RemoveExtension(name: string): (stem: string)
    ensures |stem| <= |name| && stem == name[..|stem|]
    ensures |stem| < |name| ==> name[|stem|] == '.' && 0 < |stem|
    ensures |stem| < |name| ==> forall j :: |stem| < j < |name| ==> name[j] != '.'
    ensures stem == name <==> forall i :: 0 < i < |name| ==> name[i] != '.'
  {
    SplitExtension(name).0
  }
}
