/**
 * Python's `str.split(sep)` with a one-character separator, and the join that
 * undoes it. `Split` never drops an empty piece: `"".split(",")` is `[""]` and
 * `"a,".split(",")` is `["a", ""]`.
 */
module Text {

  /** Index of the first occurrence of `c` in `s`. */
  function IndexOf(s: string, c: char): (i: nat)
    requires c in s
    ensures i < |s| && s[i] == c
    ensures forall k :: 0 <= k < i ==> s[k] != c
  {
    if s[0] == c then 0 else 1 + IndexOf(s[1..], c)
  }

  /** The text before the first `c`, or all of `s` when `c` does not occur. */
  function Before(s: string, c: char): string
  {
    if c in s then s[..IndexOf(s, c)] else s
  }

  /** The text after the first `c`; empty when `c` does not occur. */
  function After(s: string, c: char): string
  {
    if c in s then s[IndexOf(s, c) + 1..] else ""
  }

  /** `s.split(c)`: the maximal runs of `s` between occurrences of `c`. */
  function Split(s: string, c: char): (r: seq<string>)
    ensures |r| >= 1
    ensures forall i :: 0 <= i < |r| ==> c !in r[i]
    decreases |s|
  {
    if |s| == 0 then [""]
    else
      var rest := Split(s[1..], c);
      if s[0] == c then [""] + rest else [[s[0]] + rest[0]] + rest[1..]
  }

  /** `c.join(ps)`. */
  function Join(ps: seq<string>, c: char): string
    requires |ps| >= 1
    decreases |ps|
  {
    if |ps| == 1 then ps[0] else ps[0] + [c] + Join(ps[1..], c)
  }

  /** Joining the pieces of a split gives back the original text. */
  lemma {:induction false} JoinSplit(s: string, c: char)
    ensures Join(Split(s, c), c) == s
    decreases |s|
  {
    if |s| > 0 {
      var rest := Split(s[1..], c);
      JoinSplit(s[1..], c);
      if s[0] == c {
        assert Split(s, c) == [""] + rest;
        assert ([""] + rest)[1..] == rest;
      } else {
        var ps := Split(s, c);
        assert ps == [[s[0]] + rest[0]] + rest[1..];
        if |rest| == 1 {
          assert ps == [[s[0]] + rest[0]];
        } else {
          assert ps[1..] == rest[1..];
          assert Join(rest, c) == rest[0] + [c] + Join(rest[1..], c);
        }
      }
    }
  }

  /** Splitting a join of separator-free pieces gives back the pieces. */
  lemma {:induction false} SplitJoin(ps: seq<string>, c: char)
    requires |ps| >= 1
    requires forall i :: 0 <= i < |ps| ==> c !in ps[i]
    ensures Split(Join(ps, c), c) == ps
    decreases |ps|, |ps[0]|
  {
    if |ps[0]| > 0 {
      // peel the first character off the first piece
      var ps' := [ps[0][1..]] + ps[1..];
      SplitJoin(ps', c);
      assert Join(ps, c) == [ps[0][0]] + Join(ps', c) by {
        if |ps| == 1 {
          assert ps[0] == [ps[0][0]] + ps[0][1..];
        } else {
          assert ps'[1..] == ps[1..];
          assert ps[0] == [ps[0][0]] + ps[0][1..];
        }
      }
      var s := Join(ps, c);
      assert s[1..] == Join(ps', c);
      assert s[0] == ps[0][0] && ps[0][0] != c;
      assert ps[0] == [ps[0][0]] + ps'[0];
      assert ps == [ps[0]] + ps'[1..];
    } else if |ps| > 1 {
      SplitJoin(ps[1..], c);
      var s := Join(ps, c);
      assert s == [c] + Join(ps[1..], c);
      assert s[1..] == Join(ps[1..], c);
      assert ps == [""] + ps[1..];
    }
  }

  /** The first piece is the text before the first separator. */
  lemma {:induction false} SplitHead(s: string, c: char)
    ensures Split(s, c)[0] == Before(s, c)
    decreases |s|
  {
    if |s| > 0 && s[0] != c {
      SplitHead(s[1..], c);
      if c in s {
        assert c in s[1..] by { assert s[IndexOf(s, c)] == c; }
        assert s[..IndexOf(s, c)] == [s[0]] + s[1..][..IndexOf(s[1..], c)];
      } else {
        assert s == [s[0]] + s[1..];
      }
    }
  }

  /** Past the first separator, the pieces are those of the remaining text. */
  lemma {:induction false} SplitTail(s: string, c: char)
    requires c in s
    ensures |Split(s, c)| >= 2
    ensures Split(s, c)[1..] == Split(After(s, c), c)
    decreases |s|
  {
    if s[0] != c {
      assert c in s[1..] by { assert s[IndexOf(s, c)] == c; }
      SplitTail(s[1..], c);
      assert s[1..][IndexOf(s[1..], c) + 1..] == s[IndexOf(s, c) + 1..];
    } else {
      assert Split(s, c) == [""] + Split(s[1..], c);
    }
  }

  /** A text without the separator splits into itself alone. */
  lemma {:induction false} SplitNoSeparator(s: string, c: char)
    requires c !in s
    ensures Split(s, c) == [s]
    decreases |s|
  {
    if |s| > 0 {
      SplitNoSeparator(s[1..], c);
      assert s == [s[0]] + s[1..];
    }
  }

  /** When `a` has no `c` and `b` starts with one, the first `c` of `a + b` is at `|a|`. */
  lemma IndexOfAfterPrefix(a: string, b: string, c: char)
    requires c !in a && |b| > 0 && b[0] == c
    ensures c in a + b && IndexOf(a + b, c) == |a|
  {
    var s := a + b;
    assert s[|a|] == c;
    assert forall k :: 0 <= k < |a| ==> s[k] == a[k];
  }

  /** A character found in no piece and distinct from the separator is absent from the join. */
  lemma {:induction false} JoinAvoids(ps: seq<string>, c: char, d: char)
    requires |ps| >= 1 && d != c
    requires forall i :: 0 <= i < |ps| ==> d !in ps[i]
    ensures d !in Join(ps, c)
    decreases |ps|
  {
    if |ps| > 1 {
      JoinAvoids(ps[1..], c, d);
    }
  }
}
