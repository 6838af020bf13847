/** Facts about sequences used by several parts of the model: duplicate
    freedom, and how it relates to the size of the set of elements (the
    way the application detects duplicates). */
module Seqs {

  /** No element occurs twice. */
  predicate NoDuplicates<T(==)>(s: seq<T>) {
    forall i, j | 0 <= i < j < |s| :: s[i] != s[j]
  }

  /** The set of elements of `s`, as Python's `set(s)` would build it. */
  function Elements<T>(s: seq<T>): set<T> {
    set x | x in s
  }

  lemma {:induction false} ElementsBound<T>(s: seq<T>)
    ensures |Elements(s)| <= |s|
  {
    if |s| > 0 {
      var t := s[..|s| - 1];
      ElementsBound(t);
      assert Elements(s) == Elements(t) + {s[|s| - 1]};
    }
  }

  /** A sequence is duplicate-free exactly when its set of elements is as
      large as the sequence itself. */
  lemma {:induction false} NoDuplicatesIffFullSet<T>(s: seq<T>)
    ensures NoDuplicates(s) <==> |Elements(s)| == |s|
  {
    if |s| > 0 {
      var t := s[..|s| - 1];
      var x := s[|s| - 1];
      NoDuplicatesIffFullSet(t);
      ElementsBound(t);
      assert Elements(s) == Elements(t) + {x};
      if x in t {
        assert Elements(s) == Elements(t);
        var k :| 0 <= k < |t| && t[k] == x;
        assert s[k] == s[|s| - 1];
      } else {
        assert |Elements(s)| == |Elements(t)| + 1;
        if NoDuplicates(t) {
          forall i, j | 0 <= i < j < |s|
            ensures s[i] != s[j]
          {
            if j == |s| - 1 {
              assert t[i] == s[i];
            } else {
              assert t[i] == s[i] && t[j] == s[j];
            }
          }
        } else {
          var i, j :| 0 <= i < j < |t| && t[i] == t[j];
          assert s[i] == s[j];
        }
      }
    }
  }

  /** Two duplicate-free sequences with no element in common concatenate
      to a duplicate-free sequence. */
  lemma NoDuplicatesConcat<T>(a: seq<T>, b: seq<T>)
    requires NoDuplicates(a) && NoDuplicates(b)
    requires forall x | x in a :: x !in b
    ensures NoDuplicates(a + b)
  {
    forall i, j | 0 <= i < j < |a + b|
      ensures (a + b)[i] != (a + b)[j]
    {
      if j < |a| {
        assert (a + b)[i] == a[i] && (a + b)[j] == a[j];
      } else if i < |a| {
        assert (a + b)[i] == a[i] && (a + b)[j] == b[j - |a|];
        assert a[i] in a && b[j - |a|] in b;
      } else {
        assert (a + b)[i] == b[i - |a|] && (a + b)[j] == b[j - |a|];
      }
    }
  }

  /** The numbers below `n` that `keep` selects, largest first: a scan of
      an id column in the order `ORDER BY id DESC` gives. */
  function Below(n: nat, keep: nat -> bool): (r: seq<nat>)
    ensures forall k: nat :: k in r <==> k < n && keep(k)
    ensures forall i, j | 0 <= i < j < |r| :: r[i] > r[j]
    ensures NoDuplicates(r)
  {
    if n == 0 then []
    else
      var rest := Below(n - 1, keep);
      if keep(n - 1) then
        assert forall i | 0 <= i < |rest| :: rest[i] in rest;
        [n - 1] + rest
      else rest
  }
}
