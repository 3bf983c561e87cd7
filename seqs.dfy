/** Sequence helpers that stand for JavaScript array and `Set` operations. */
module Seqs {

  /** No element occurs twice. */
  predicate NoDuplicates<T(==)>(s: seq<T>) {
    forall i, j :: 0 <= i < j < |s| ==> s[i] != s[j]
  }

  /** `Array.prototype.reverse`. */
  function Reversed<T>(s: seq<T>): (r: seq<T>)
    ensures |r| == |s|
    ensures forall k :: 0 <= k < |s| ==> r[k] == s[|s| - 1 - k]
  {
    if s == [] then [] else [s[|s| - 1]] + Reversed(s[..|s| - 1])
  }

  /** Pushing onto the end of a stack puts the element first in its reversal. */
  lemma ReversedPush<T>(q: seq<T>, x: T)
    ensures Reversed(q + [x]) == [x] + Reversed(q)
  {
    assert (q + [x])[..|q|] == q;
  }

  /** `Array.prototype.indexOf`: the first index of `x`, or -1 when `x` is absent. */
  function IndexOf<T(==)>(s: seq<T>, x: T): (r: int)
    ensures -1 <= r < |s|
    ensures r == -1 <==> x !in s
    ensures 0 <= r ==> s[r] == x && forall k :: 0 <= k < r ==> s[k] != x
  {
    if s == [] then -1
    else if s[0] == x then 0
    else
      var k := IndexOf(s[1..], x);
      if k == -1 then -1 else k + 1
  }

  /** Past a different first element, `indexOf` is one more than in the tail. */
  lemma IndexOfTail<T>(s: seq<T>, x: T)
    requires x in s && s[0] != x
    ensures x in s[1..] && IndexOf(s, x) == IndexOf(s[1..], x) + 1
  {
    assert s == [s[0]] + s[1..];
  }

  /** The iteration order of a JavaScript `Set` into which the elements of
      `seen` were inserted before those of `s`, restricted to the elements of
      `s`: each element once, where it first occurs (`DedupeFromMembers`,
      `DedupeFromOrder`). */
  function DedupeFrom<T(==)>(seen: set<T>, s: seq<T>): (r: seq<T>)
    decreases |s|
  {
    if s == [] then []
    else if s[0] in seen then DedupeFrom(seen, s[1..])
    else [s[0]] + DedupeFrom(seen + {s[0]}, s[1..])
  }

  /** The `Set` keeps each new element once and nothing else. */
  lemma {:induction false} DedupeFromMembers<T>(seen: set<T>, s: seq<T>)
    ensures NoDuplicates(DedupeFrom(seen, s))
    ensures forall i :: 0 <= i < |DedupeFrom(seen, s)| ==> DedupeFrom(seen, s)[i] in s && DedupeFrom(seen, s)[i] !in seen
    ensures forall i :: 0 <= i < |s| && s[i] !in seen ==> s[i] in DedupeFrom(seen, s)
  {
    DedupeFromSound(seen, s);
    DedupeFromComplete(seen, s);
  }

  lemma {:induction false} DedupeFromSound<T>(seen: set<T>, s: seq<T>)
    ensures NoDuplicates(DedupeFrom(seen, s))
    ensures forall x :: x in DedupeFrom(seen, s) ==> x in s && x !in seen
    decreases |s|
  {
    if s != [] {
      var tail := s[1..];
      assert forall x :: x in tail ==> x in s;
      if s[0] in seen {
        DedupeFromSound(seen, tail);
      } else {
        var rest := DedupeFrom(seen + {s[0]}, tail);
        DedupeFromSound(seen + {s[0]}, tail);
        var r := [s[0]] + rest;
        assert forall i :: 1 <= i < |r| ==> r[i] == rest[i - 1];
        assert forall x :: x in r ==> x == s[0] || x in rest;
      }
    }
  }

  lemma {:induction false} DedupeFromComplete<T>(seen: set<T>, s: seq<T>)
    ensures forall x :: x in s && x !in seen ==> x in DedupeFrom(seen, s)
    decreases |s|
  {
    if s != [] {
      var tail := s[1..];
      assert forall x :: x in s ==> x == s[0] || x in tail;
      if s[0] in seen {
        DedupeFromComplete(seen, tail);
      } else {
        DedupeFromComplete(seen + {s[0]}, tail);
      }
    }
  }

  /** The `Set` keeps the order of first occurrence. */
  lemma {:induction false} DedupeFromOrder<T>(seen: set<T>, s: seq<T>)
    ensures forall i, j :: 0 <= i < j < |DedupeFrom(seen, s)| ==>
      IndexOf(s, DedupeFrom(seen, s)[i]) < IndexOf(s, DedupeFrom(seen, s)[j])
    decreases |s|
  {
    if s != [] {
      var tail := s[1..];
      if s[0] in seen {
        var r := DedupeFrom(seen, tail);
        DedupeFromMembers(seen, tail);
        DedupeFromOrder(seen, tail);
        assert forall i :: 0 <= i < |r| ==> IndexOf(s, r[i]) == IndexOf(tail, r[i]) + 1;
      } else {
        var rest := DedupeFrom(seen + {s[0]}, tail);
        DedupeFromMembers(seen + {s[0]}, tail);
        DedupeFromOrder(seen + {s[0]}, tail);
        assert forall i :: 0 <= i < |rest| ==> IndexOf(s, rest[i]) == IndexOf(tail, rest[i]) + 1;
        var r := [s[0]] + rest;
        assert forall i :: 1 <= i < |r| ==> r[i] == rest[i - 1];
      }
    }
  }

  /** `Array.from(new Set(s))`. */
  function Dedupe<T(==)>(s: seq<T>): (r: seq<T>)
    ensures NoDuplicates(r)
    ensures forall i :: 0 <= i < |r| ==> r[i] in s
    ensures forall i :: 0 <= i < |s| ==> s[i] in r
    ensures forall i, j :: 0 <= i < j < |r| ==> IndexOf(s, r[i]) < IndexOf(s, r[j])
  {
    DedupeFromMembers({}, s);
    DedupeFromOrder({}, s);
    DedupeFrom({}, s)
  }

  /** A sequence that already has no duplicates comes out of a `Set` unchanged. */
  lemma {:induction false} DedupeFromDistinct<T>(seen: set<T>, s: seq<T>)
    requires NoDuplicates(s)
    requires forall i :: 0 <= i < |s| ==> s[i] !in seen
    ensures DedupeFrom(seen, s) == s
    decreases |s|
  {
    if s != [] {
      assert forall i :: 0 <= i < |s[1..]| ==> s[1..][i] !in seen + {s[0]} by {
        forall i | 0 <= i < |s[1..]| ensures s[1..][i] !in seen + {s[0]} {
          assert s[1..][i] == s[i + 1];
        }
      }
      DedupeFromDistinct(seen + {s[0]}, s[1..]);
    }
  }

  /** Elements already in the `Set` leave no trace when inserted again. */
  lemma {:induction false} DedupeFromSeen<T>(seen: set<T>, h: seq<T>, rest: seq<T>)
    requires forall i :: 0 <= i < |h| ==> h[i] in seen
    ensures DedupeFrom(seen, h + rest) == DedupeFrom(seen, rest)
    decreases |h|
  {
    if h != [] {
      assert (h + rest)[0] == h[0];
      assert (h + rest)[1..] == h[1..] + rest;
      DedupeFromSeen(seen, h[1..], rest);
    } else {
      assert h + rest == rest;
    }
  }
}
