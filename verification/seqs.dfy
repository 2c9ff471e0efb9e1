/** Generic sequence operations the Ruby code gets from `Enumerable`:
    `select`, `map`, and the facts about them the proofs share. */
module Seqs {
  ghost predicate NoDuplicates<T>(s: seq<T>) {
    forall i, j | 0 <= i < j < |s| :: s[i] != s[j]
  }

  /** `select`: the elements satisfying `keep`, in order. */
  function Filter<T>(s: seq<T>, keep: T -> bool): (r: seq<T>)
    ensures |r| <= |s|
    ensures forall i | 0 <= i < |r| :: r[i] in s && keep(r[i])
    ensures forall i | 0 <= i < |s| && keep(s[i]) :: s[i] in r
    ensures NoDuplicates(s) ==> NoDuplicates(r)
  {
    if |s| == 0 then []
    else
      var rest := Filter(s[1..], keep);
      assert forall i | 0 <= i < |rest| :: rest[i] in s;
      if keep(s[0]) then
        assert s[0] !in s[1..] ==> s[0] !in rest;
        [s[0]] + rest
      else rest
  }

  lemma {:induction false} FilterAppend<T>(a: seq<T>, b: seq<T>, keep: T -> bool)
    ensures Filter(a + b, keep) == Filter(a, keep) + Filter(b, keep)
  {
    if |a| > 0 {
      assert (a + b)[1..] == a[1..] + b;
      FilterAppend(a[1..], b, keep);
    } else {
      assert a + b == b;
    }
  }

  lemma {:induction false} FilterKeepsAll<T>(s: seq<T>, keep: T -> bool)
    ensures (forall i | 0 <= i < |s| :: keep(s[i])) ==> Filter(s, keep) == s
  {
    if |s| > 0 {
      FilterKeepsAll(s[1..], keep);
      if forall i | 0 <= i < |s| :: keep(s[i]) {
        assert forall i | 0 <= i < |s[1..]| :: keep(s[1..][i]) by {
          forall i | 0 <= i < |s[1..]|
            ensures keep(s[1..][i])
          {
            assert s[1..][i] == s[i + 1];
          }
        }
        assert [s[0]] + s[1..] == s;
      }
    }
  }

  /** `f` applied to every element, in order (`map`). */
  function Each<A, B>(s: seq<A>, f: A -> B): (r: seq<B>)
    ensures |r| == |s|
    ensures forall i | 0 <= i < |s| :: r[i] == f(s[i])
  {
    if |s| == 0 then [] else [f(s[0])] + Each(s[1..], f)
  }

  /** A sequence with no element is empty. Stated as an implication so that
      a caller can use it where the emptiness follows from other facts. */
  lemma NoElementMeansEmpty<T>(s: seq<T>)
    ensures (forall x :: x !in s) ==> s == []
  {
    if |s| > 0 {
      assert s[0] in s;
    }
  }

  /** Regrouping a concatenation, kept apart from large proof contexts where
      the solver would otherwise search for it. */
  lemma Regroup<T>(a: seq<T>, b: seq<T>, c: seq<T>, r: seq<T>)
    requires r == (a + b) + c
    ensures r == a + (b + c)
  {
  }
}
