/**
 * Substring occurrence, the meaning of Rust's `str::contains` on the
 * file names.  Names are sequences of characters, one character per
 * byte: names are assumed ASCII (see README, "Left out").
 */
module Strings {

  /** `t` occurs in `s` starting at offset `i`. */
  predicate OccursAt(s: string, t: string, i: int) {
    0 <= i && i + |t| <= |s| && s[i..i + |t|] == t
  }

  /**
   * `s.contains(t)`: `t` occurs somewhere in `s`.  Only strings no longer
   * than `s` can occur in it, and the empty string occurs in every string.
   */
  predicate Contains(s: string, t: string): (b: bool)
    ensures b ==> |t| <= |s|
    ensures |t| == 0 ==> b
  {
    assert |t| == 0 ==> OccursAt(s, t, 0);
    exists i | 0 <= i <= |s| :: OccursAt(s, t, i)
  }

  /** An occurrence in a prefix of `s` is an occurrence in `s`. */
  lemma ContainsPrefix(s: string, n: nat, t: string)
    requires n <= |s| && Contains(s[..n], t)
    ensures Contains(s, t)
  {
    var i :| 0 <= i <= n && OccursAt(s[..n], t, i);
    assert s[i..i + |t|] == s[..n][i..i + |t|];
    assert OccursAt(s, t, i);
  }

  /** Every string contains each of its own slices. */
  lemma ContainsSlice(s: string, i: nat, j: nat)
    requires i <= j <= |s|
    ensures Contains(s, s[i..j])
  {
    assert OccursAt(s, s[i..j], i);
  }
}
