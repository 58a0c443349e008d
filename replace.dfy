/**
 * `file.replace(remove_str, "")` (src/main.rs:104): Rust's `str::replace`
 * finds the occurrences of the pattern left to right, each search resuming
 * after the previous match, and copies the text between them.  `Split`
 * yields that text, piece by piece; removal concatenates the pieces.
 */
module Replace {
  import opened Strings

  /** The pieces of `s` between the leftmost non-overlapping occurrences of `t`. */
  function Split(s: string, t: string): (pieces: seq<string>)
    requires |t| > 0
    ensures |pieces| >= 1
    decreases |s|
  {
    if |s| < |t| then [s]
    else if s[..|t|] == t then [[]] + Split(s[|t|..], t)
    else
      var rest := Split(s[1..], t);
      [[s[0]] + rest[0]] + rest[1..]
  }

  /** The pieces glued back together with `t` between neighbours. */
  function Join(pieces: seq<string>, t: string): string
    requires |pieces| >= 1
  {
    if |pieces| == 1 then pieces[0] else pieces[0] + t + Join(pieces[1..], t)
  }

  /** The pieces glued back together with nothing between them. */
  function Concat(pieces: seq<string>): string {
    if pieces == [] then [] else pieces[0] + Concat(pieces[1..])
  }

  /**
   * `s.replace(t, "")`: `s` with every occurrence found by the scan
   * removed, which shortens it by `|t|` per occurrence.
   */
  function RemoveAll(s: string, t: string): (r: string)
    requires |t| > 0
    ensures |r| == |s| - Occurrences(s, t) * |t|
  {
    JoinSplit(s, t);
    JoinLength(Split(s, t), t);
    Concat(Split(s, t))
  }

  /** How many occurrences `s.replace(t, "")` removes. */
  function Occurrences(s: string, t: string): nat
    requires |t| > 0
  {
    |Split(s, t)| - 1
  }

  /** No occurrence of `t` starts inside `p` when `p` is followed by `tail`. */
  ghost predicate NoMatchStartsIn(p: string, tail: string, t: string) {
    forall i :: 0 <= i < |p| ==> !OccursAt(p + tail, t, i)
  }

  /**
   * The scan is leftmost: no occurrence of `t` starts inside a piece, given
   * that every piece but the last is followed by `t` in the original.
   */
  ghost predicate LeftmostPieces(pieces: seq<string>, t: string) {
    forall j :: 0 <= j < |pieces| ==> NoMatchStartsIn(pieces[j], if j + 1 < |pieces| then t else [], t)
  }

  /** Prepending a character to the first piece prepends it to the joined text. */
  lemma JoinPrepend(c: char, pieces: seq<string>, t: string)
    requires |pieces| >= 1
    ensures Join([[c] + pieces[0]] + pieces[1..], t) == [c] + Join(pieces, t)
  {
    var ps := [[c] + pieces[0]] + pieces[1..];
    if |pieces| > 1 {
      assert ps[1..] == pieces[1..];
    }
  }

  /** Round trip: putting `t` back between the pieces gives back `s`. */
  lemma {:induction false} JoinSplit(s: string, t: string)
    requires |t| > 0
    ensures Join(Split(s, t), t) == s
    decreases |s|
  {
    if |s| < |t| {
    } else if s[..|t|] == t {
      var rest := Split(s[|t|..], t);
      JoinSplit(s[|t|..], t);
      assert ([[]] + rest)[1..] == rest;
      assert s == t + s[|t|..];
    } else {
      var rest := Split(s[1..], t);
      JoinSplit(s[1..], t);
      JoinPrepend(s[0], rest, t);
      assert s == [s[0]] + s[1..];
    }
  }

  /** Gluing with `t` adds exactly `|t|` characters per gap. */
  lemma {:induction false} JoinLength(pieces: seq<string>, t: string)
    requires |pieces| >= 1
    ensures |Join(pieces, t)| == |Concat(pieces)| + (|pieces| - 1) * |t|
  {
    if |pieces| > 1 {
      JoinLength(pieces[1..], t);
    }
  }

  /** The occurrence at the front of a non-matching `s` is still absent one character on. */
  lemma ShiftMatch(c: char, p: string, tail: string, t: string, i: nat)
    requires 0 < i && OccursAt([c] + p + tail, t, i)
    ensures OccursAt(p + tail, t, i - 1)
  {
    assert ([c] + p + tail)[i..i + |t|] == (p + tail)[i - 1..i - 1 + |t|];
  }

  /** The first piece, followed by `t` unless it is the only piece, is a prefix of `s`. */
  lemma FirstPiecePrefix(s: string, t: string, rest: seq<string>)
    requires |t| > 0 && |s| > 0 && rest == Split(s[1..], t)
    ensures var first := [s[0]] + rest[0] + (if 1 < |rest| then t else []);
      |first| <= |s| && first == s[..|first|]
  {
    JoinSplit(s[1..], t);
    if 1 < |rest| {
      assert Join(rest, t) == rest[0] + t + Join(rest[1..], t);
    }
    assert s == [s[0]] + Join(rest, t);
  }

  /**
   * When `s` does not start with `t`, the scan's first piece is `s[0]`
   * followed by the first piece of the scan of `s[1..]`, and no occurrence
   * starts inside it.
   */
  lemma FirstPieceLeftmost(s: string, t: string, rest: seq<string>)
    requires |t| > 0 && |t| <= |s| && s[..|t|] != t
    requires rest == Split(s[1..], t) && LeftmostPieces(rest, t)
    ensures NoMatchStartsIn([s[0]] + rest[0], if 1 < |rest| then t else [], t)
  {
    var tail := if 1 < |rest| then t else [];
    var first := [s[0]] + rest[0];
    FirstPiecePrefix(s, t, rest);
    assert NoMatchStartsIn(rest[0], tail, t);
    forall i | 0 <= i < |first|
      ensures !OccursAt(first + tail, t, i)
    {
      if i == 0 && |t| <= |first + tail| {
        assert (first + tail)[..|t|] == s[..|t|];
      } else if 0 < i && OccursAt(first + tail, t, i) {
        assert first + tail == [s[0]] + rest[0] + tail;
        ShiftMatch(s[0], rest[0], tail, t, i);
      }
    }
  }

  /** The scan finds every occurrence that does not overlap an earlier match. */
  lemma {:induction false} SplitLeftmost(s: string, t: string)
    requires |t| > 0
    ensures LeftmostPieces(Split(s, t), t)
    decreases |s|
  {
    var pieces := Split(s, t);
    if |s| < |t| {
      assert pieces == [s];
      assert NoMatchStartsIn(s, [], t);
    } else if s[..|t|] == t {
      var rest := Split(s[|t|..], t);
      SplitLeftmost(s[|t|..], t);
      assert pieces == [[]] + rest;
      forall j | 0 <= j < |pieces|
        ensures NoMatchStartsIn(pieces[j], if j + 1 < |pieces| then t else [], t)
      {
        if j > 0 {
          assert pieces[j] == rest[j - 1];
        }
      }
    } else {
      var rest := Split(s[1..], t);
      SplitLeftmost(s[1..], t);
      FirstPieceLeftmost(s, t, rest);
      assert pieces == [[s[0]] + rest[0]] + rest[1..];
      forall j | 0 <= j < |pieces|
        ensures NoMatchStartsIn(pieces[j], if j + 1 < |pieces| then t else [], t)
      {
        if j > 0 {
          assert pieces[j] == rest[j];
        }
      }
    }
  }

  /** `s.contains(t)` exactly when the scan removes at least one occurrence. */
  lemma ContainsIffOccurrences(s: string, t: string)
    requires |t| > 0
    ensures Contains(s, t) <==> Occurrences(s, t) >= 1
  {
    var pieces := Split(s, t);
    JoinSplit(s, t);
    SplitLeftmost(s, t);
    if |pieces| > 1 {
      assert s == pieces[0] + t + Join(pieces[1..], t);
      assert OccursAt(s, t, |pieces[0]|);
    } else {
      assert s == pieces[0];
      assert NoMatchStartsIn(s, [], t);
      assert s + [] == s;
      forall i | 0 <= i <= |s|
        ensures !OccursAt(s, t, i)
      {
      }
    }
  }

  /** A name without the target is left as it is. */
  lemma RemoveAllNoMatch(s: string, t: string)
    requires |t| > 0 && !Contains(s, t)
    ensures RemoveAll(s, t) == s
  {
    ContainsIffOccurrences(s, t);
    JoinSplit(s, t);
    assert Split(s, t) == [s];
    assert Concat([s]) == s + Concat([]);
  }
}
