/**
 * The JavaScript string methods used on URLs: `split` on a one-character
 * separator, `pop()` / `[0]` of the resulting array, and `includes`.
 */
module JsString {

  /** The pieces of `s` joined back with `sep` between them (`Array.prototype.join`). */
  function Join(pieces: seq<string>, sep: char): string
    requires |pieces| >= 1
  {
    if |pieces| == 1 then pieces[0] else pieces[0] + [sep] + Join(pieces[1..], sep)
  }

  /**
   * `s.split(sep)` for a one-character separator: the maximal separator-free
   * pieces, in order; an empty string splits into one empty piece.
   */
  function Split(s: string, sep: char): (pieces: seq<string>)
    ensures |pieces| >= 1
    ensures forall i :: 0 <= i < |pieces| ==> sep !in pieces[i]
    ensures Join(pieces, sep) == s
  {
    if s == [] then [[]]
    else
      var rest := Split(s[1..], sep);
      if s[0] == sep then
        assert Join([[]] + rest, sep) == [] + [sep] + Join(rest, sep) by {
          assert ([[]] + rest)[1..] == rest;
        }
        [[]] + rest
      else
        var pieces := [[s[0]] + rest[0]] + rest[1..];
        assert Join(pieces, sep) == [s[0]] + Join(rest, sep) by {
          if |rest| > 1 {
            assert pieces[1..] == rest[1..];
          }
        }
        pieces
  }

  /** The prefix of `s` before its first `sep` (all of `s` when there is none). */
  function BeforeFirst(s: string, sep: char): string {
    if s == [] || s[0] == sep then [] else [s[0]] + BeforeFirst(s[1..], sep)
  }

  lemma {:induction false} BeforeFirstOf(a: string, b: string, sep: char)
    requires sep !in a
    ensures BeforeFirst(a, sep) == a
    ensures BeforeFirst(a + [sep] + b, sep) == a
  {
    if a != [] {
      assert (a + [sep] + b)[1..] == a[1..] + [sep] + b;
      BeforeFirstOf(a[1..], b, sep);
    } else {
      assert a + [sep] + b == [sep] + b;
    }
  }

  /** In a join of separator-free pieces the first piece ends at the first separator, and a separator occurs iff there are two pieces or more. */
  lemma JoinFirstPiece(p: seq<string>, sep: char)
    requires |p| >= 1
    requires forall i :: 0 <= i < |p| ==> sep !in p[i]
    ensures BeforeFirst(Join(p, sep), sep) == p[0]
    ensures sep in Join(p, sep) <==> |p| >= 2
  {
    if |p| == 1 {
      BeforeFirstOf(p[0], [], sep);
    } else {
      BeforeFirstOf(p[0], Join(p[1..], sep), sep);
      assert Join(p, sep)[|p[0]|] == sep;
    }
  }

  /** Separator-free pieces are determined by their join: `split` is the only way to cut a string. */
  lemma {:induction false} JoinInjective(p: seq<string>, q: seq<string>, sep: char)
    requires |p| >= 1 && |q| >= 1
    requires forall i :: 0 <= i < |p| ==> sep !in p[i]
    requires forall i :: 0 <= i < |q| ==> sep !in q[i]
    requires Join(p, sep) == Join(q, sep)
    ensures p == q
    decreases |p|
  {
    JoinFirstPiece(p, sep);
    JoinFirstPiece(q, sep);
    assert p[0] == q[0];
    if |p| >= 2 {
      assert |q| >= 2;
      var s := Join(p, sep);
      assert s == p[0] + [sep] + Join(p[1..], sep);
      assert s == q[0] + [sep] + Join(q[1..], sep);
      assert Join(p[1..], sep) == s[|p[0]| + 1..] == Join(q[1..], sep);
      JoinInjective(p[1..], q[1..], sep);
      assert p == [p[0]] + p[1..];
      assert q == [q[0]] + q[1..];
    }
  }

  /** Any separator-free decomposition of `s` is `s.split(sep)`. */
  lemma SplitUnique(s: string, sep: char, pieces: seq<string>)
    requires |pieces| >= 1
    requires forall i :: 0 <= i < |pieces| ==> sep !in pieces[i]
    requires Join(pieces, sep) == s
    ensures Split(s, sep) == pieces
  {
    JoinInjective(Split(s, sep), pieces, sep);
  }

  /** Joining one more piece appends a separator and that piece. */
  lemma {:induction false} JoinAppend(pieces: seq<string>, last: string, sep: char)
    requires |pieces| >= 1
    ensures Join(pieces + [last], sep) == Join(pieces, sep) + [sep] + last
    decreases |pieces|
  {
    if |pieces| > 1 {
      assert (pieces + [last])[1..] == pieces[1..] + [last];
      JoinAppend(pieces[1..], last, sep);
    } else {
      assert (pieces + [last])[1..] == [last];
    }
  }

  /** Whatever precedes the last separator, the last piece is what follows it. */
  lemma SplitLastPiece(front: string, last: string, sep: char)
    requires sep !in last
    ensures var pieces := Split(front + [sep] + last, sep);
      pieces[|pieces| - 1] == last
  {
    var pieces := Split(front, sep) + [last];
    JoinAppend(Split(front, sep), last, sep);
    SplitUnique(front + [sep] + last, sep, pieces);
  }

  /** Whatever follows the first separator, the first piece is what precedes it. */
  lemma SplitFirstPiece(first: string, rest: string, sep: char)
    requires sep !in first
    ensures Split(first + [sep] + rest, sep)[0] == first
  {
    var pieces := [first] + Split(rest, sep);
    assert pieces[1..] == Split(rest, sep);
    SplitUnique(first + [sep] + rest, sep, pieces);
  }

  /** The first piece is the prefix before the first separator (all of `s` if none). */
  lemma {:induction false} FirstPieceIsPrefix(pieces: seq<string>, sep: char)
    requires |pieces| >= 1
    ensures var s := Join(pieces, sep);
      |pieces[0]| <= |s| && s[..|pieces[0]|] == pieces[0]
      && (|pieces[0]| == |s| || s[|pieces[0]|] == sep)
  {
  }

  /** The last piece is the suffix after the last separator (all of `s` if none). */
  lemma {:induction false} LastPieceIsSuffix(pieces: seq<string>, sep: char)
    requires |pieces| >= 1
    ensures var s := Join(pieces, sep); var last := pieces[|pieces| - 1];
      |last| <= |s| && s[|s| - |last|..] == last
      && (|last| == |s| || s[|s| - |last| - 1] == sep)
    decreases |pieces|
  {
    if |pieces| > 1 {
      LastPieceIsSuffix(pieces[1..], sep);
      var s := Join(pieces, sep);
      var tail := Join(pieces[1..], sep);
      assert s == pieces[0] + [sep] + tail;
      var last := pieces[|pieces| - 1];
      assert last == pieces[1..][|pieces[1..]| - 1];
      assert s[|s| - |last|..] == tail[|tail| - |last|..];
      if |last| == |tail| {
        assert s[|s| - |last| - 1] == sep;
      } else {
        assert s[|s| - |last| - 1] == tail[|tail| - |last| - 1];
      }
    }
  }

  /** `t` occurs in `s` starting at index `i`. */
  predicate OccursAt(s: string, t: string, i: int) {
    0 <= i <= |s| - |t| && s[i..i + |t|] == t
  }

  /** `s.includes(t)`: `t` occurs in `s` as a contiguous substring. */
  function Includes(s: string, t: string): (b: bool)
    ensures b <==> exists i :: OccursAt(s, t, i)
  {
    if |s| < |t| then false
    else if s[..|t|] == t then assert OccursAt(s, t, 0); true
    else
      var b := Includes(s[1..], t);
      assert b ==> exists i :: OccursAt(s, t, i) by {
        if b {
          var j :| OccursAt(s[1..], t, j);
          assert s[j + 1..j + 1 + |t|] == s[1..][j..j + |t|];
          assert OccursAt(s, t, j + 1);
        }
      }
      assert (exists i :: OccursAt(s, t, i)) ==> b by {
        if exists i :: OccursAt(s, t, i) {
          var i :| OccursAt(s, t, i);
          assert i != 0;
          assert s[1..][i - 1..i - 1 + |t|] == s[i..i + |t|];
          assert OccursAt(s[1..], t, i - 1);
        }
      }
      b
  }
}
