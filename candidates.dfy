/** Candidate strings: the value of one Sudoku cell, a string of the digits still
    possible there ("123456789" for an unknown cell, "5" once solved, "" on a
    contradiction). The solver only ever narrows such a string with Python's
    `str.replace(c, '')` or replaces it by a single character it contains. */
module Candidates {

  /** `s.replace(c, '')` for one character `c`: every occurrence of `c` is dropped. */
  function Remove(s: string, c: char): (r: string)
    ensures forall x :: x in r <==> x in s && x != c
    ensures |r| <= |s|
    ensures c !in s ==> r == s
  {
    if s == [] then []
    else (if s[0] == c then [] else [s[0]]) + Remove(s[1..], c)
  }

  /** `s.replace(pat, '')` for a pattern of at most one character, the only
      patterns the solver passes; `replace('', '')` leaves the string as it is. */
  function Replace(s: string, pat: string): (r: string)
    requires |pat| <= 1
    ensures pat == [] ==> r == s
    ensures forall x :: x in r <==> x in s && x !in pat
    ensures |r| <= |s|
  {
    if pat == [] then s else Remove(s, pat[0])
  }

  /** `for digit in xs: s = s.replace(digit, '')`. */
  function RemoveAll(s: string, xs: string): (r: string)
    ensures forall x :: x in r <==> x in s && x !in xs
    ensures |r| <= |s|
    decreases |xs|
  {
    if xs == [] then s else RemoveAll(Remove(s, xs[0]), xs[1..])
  }

  /** `t` holds no candidate that `s` does not hold, and is no longer than `s`:
      what every step of the solver does to a cell. */
  predicate Narrower(t: string, s: string)
  {
    |t| <= |s| && forall x :: x in t ==> x in s
  }

  /** The characters of `s` strictly increase: no repeats, in order. Every
      candidate string the solver builds has this shape. */
  predicate StrictlyAscending(s: string)
  {
    forall i, j :: 0 <= i < j < |s| ==> s[i] < s[j]
  }

  /** How many times `c` occurs in `s` (what `collections.Counter` counts). */
  function Occurrences(s: string, c: char): (n: nat)
    ensures n <= |s|
    ensures n == 0 <==> c !in s
  {
    if s == [] then 0
    else (if s[0] == c then 1 else 0) + Occurrences(s[1..], c)
  }

  /** The characters of `s` that occur in `all` exactly once, in the order they
      appear in `s`: the keys of `Counter(all)` whose count is 1. */
  function OnceIn(s: string, all: string): (r: string)
    ensures forall x :: x in r <==> x in s && Occurrences(all, x) == 1
  {
    if s == [] then []
    else (if Occurrences(all, s[0]) == 1 then [s[0]] else []) + OnceIn(s[1..], all)
  }

  lemma {:induction false} OccurrencesAppend(a: string, b: string, c: char)
    ensures Occurrences(a + b, c) == Occurrences(a, c) + Occurrences(b, c)
  {
    if a == [] {
      assert a + b == b;
    } else {
      assert (a + b)[1..] == a[1..] + b;
      OccurrencesAppend(a[1..], b, c);
    }
  }

  /** Narrowing a string of at most one candidate either keeps it or empties it. */
  lemma NarrowerSettled(t: string, s: string)
    requires Narrower(t, s) && |s| <= 1
    ensures t == s || t == []
  {
    if t != [] {
      assert t[0] in s;
    }
  }

  lemma NarrowerTransitive(t: string, s: string, r: string)
    requires Narrower(t, s) && Narrower(s, r)
    ensures Narrower(t, r)
  {
  }

  /** The tail of an ascending string is ascending and lies above its head. */
  lemma TailAscending(s: string)
    requires StrictlyAscending(s) && s != []
    ensures StrictlyAscending(s[1..])
    ensures forall x :: x in s[1..] ==> s[0] < x
  {
    var tail := s[1..];
    forall i, j | 0 <= i < j < |tail| ensures tail[i] < tail[j] {
      assert tail[i] == s[i + 1] && tail[j] == s[j + 1];
    }
    forall x | x in tail ensures s[0] < x {
      var k :| 0 <= k < |tail| && tail[k] == x;
      assert s[k + 1] == x;
    }
  }

  /** A character below every character of an ascending string can lead it. */
  lemma ConsAscending(x: char, t: string)
    requires StrictlyAscending(t) && forall y :: y in t ==> x < y
    ensures StrictlyAscending([x] + t)
  {
    var r := [x] + t;
    forall i, j | 0 <= i < j < |r| ensures r[i] < r[j] {
      if i == 0 {
        assert r[j] == t[j - 1] && t[j - 1] in t;
      } else {
        assert r[i] == t[i - 1] && r[j] == t[j - 1];
      }
    }
  }

  lemma {:induction false} RemoveAscending(s: string, c: char)
    requires StrictlyAscending(s)
    ensures StrictlyAscending(Remove(s, c))
    decreases |s|
  {
    if s != [] {
      TailAscending(s);
      RemoveAscending(s[1..], c);
      if s[0] != c {
        ConsAscending(s[0], Remove(s[1..], c));
      }
    }
  }

  lemma {:induction false} RemoveAllAscending(s: string, xs: string)
    requires StrictlyAscending(s)
    ensures StrictlyAscending(RemoveAll(s, xs))
    decreases |xs|
  {
    if xs != [] {
      RemoveAscending(s, xs[0]);
      RemoveAllAscending(Remove(s, xs[0]), xs[1..]);
    }
  }

  lemma ReplaceAscending(s: string, pat: string)
    requires |pat| <= 1 && StrictlyAscending(s)
    ensures StrictlyAscending(Replace(s, pat))
  {
    if pat != [] {
      RemoveAscending(s, pat[0]);
    }
  }

  /** The reason naked twins never empties a cell: a strictly ascending string of
      at least two candidates that differs from a strictly ascending value of at
      most two keeps a candidate outside that value. */
  lemma RemoveAllKeepsOne(s: string, xv: string)
    requires StrictlyAscending(s) && StrictlyAscending(xv)
    requires |s| >= 2 && |xv| <= 2 && s != xv
    ensures RemoveAll(s, xv) != []
  {
    var w: char;
    if |xv| < 2 || (s[0] == xv[0] && s[1] == xv[1]) {
      // either xv is too short to hold both s[0] and s[1], or it equals the
      // first two candidates of s, which then holds a third, larger one
      if |xv| == 2 {
        w := s[2];
      } else if s[0] in xv {
        w := s[1];
      } else {
        w := s[0];
      }
    } else if s[0] !in xv {
      w := s[0];
    } else {
      w := s[1];
    }
    assert w in s && w !in xv;
    assert w in RemoveAll(s, xv);
  }
}
