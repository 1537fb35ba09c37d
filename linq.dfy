/** Sequence operators of the go-linq library as the core uses them.
    Each operator keeps the iteration order of go-linq: `Distinct` and
    `Union` keep the first occurrence of every element, `Except` and
    `Intersect` walk their first argument in order. */
module Linq {

  /** No element occurs twice. */
  predicate NoDup<T(==)>(s: seq<T>) {
    forall i, j :: 0 <= i < j < |s| ==> s[i] != s[j]
  }

  /** Index of the first occurrence of `x` in `s`. */
  function FirstIndex<T(==)>(s: seq<T>, x: T): (k: nat)
    requires x in s
    ensures k < |s| && s[k] == x
    ensures forall i :: 0 <= i < k ==> s[i] != x
  {
    if s[0] == x then 0 else 1 + FirstIndex(s[1..], x)
  }

  /** `Distinct()`: every element once, at the place of its first occurrence. */
  function Distinct<T(==,!new)>(s: seq<T>): (r: seq<T>)
    ensures NoDup(r)
    ensures forall x :: x in r <==> x in s
    ensures |r| <= |s|
  {
    if s == [] then []
    else
      var d := Distinct(s[..|s| - 1]);
      if s[|s| - 1] in d then d else d + [s[|s| - 1]]
  }

  /** `a.Union(b)`: the distinct elements of `a` followed by those of `b` not in `a`. */
  function Union<T(==,!new)>(a: seq<T>, b: seq<T>): (r: seq<T>)
    ensures NoDup(r)
    ensures forall x :: x in r <==> x in a || x in b
    ensures |Distinct(a)| <= |r| && r[..|Distinct(a)|] == Distinct(a)
  {
    DistinctPrefix(a, b);
    Distinct(a + b)
  }

  /** Appending elements never disturbs what `Distinct` has already produced. */
  lemma {:induction false} DistinctPrefix<T(!new)>(a: seq<T>, b: seq<T>)
    ensures |Distinct(a)| <= |Distinct(a + b)| && Distinct(a + b)[..|Distinct(a)|] == Distinct(a)
    decreases |b|
  {
    if b == [] {
      assert a + b == a;
    } else {
      var init := b[..|b| - 1];
      assert (a + b)[..|a + b| - 1] == a + init;
      DistinctPrefix(a, init);
    }
  }

  /** `a.Except(b)`: the elements of `a` (duplicates kept) that are not in `b`. */
  function Except<T(==,!new)>(a: seq<T>, b: seq<T>): (r: seq<T>)
    ensures forall x :: x in r <==> x in a && x !in b
    ensures forall x :: x !in b ==> multiset(r)[x] == multiset(a)[x]
    ensures |r| <= |a|
  {
    if a == [] then []
    else
      var e := Except(a[..|a| - 1], b);
      assert a == a[..|a| - 1] + [a[|a| - 1]];
      if a[|a| - 1] in b then e else e + [a[|a| - 1]]
  }

  /** `a.Intersect(b)`: the distinct elements of `a` that are also in `b`. */
  function Intersect<T(==,!new)>(a: seq<T>, b: seq<T>): (r: seq<T>)
    ensures NoDup(r)
    ensures forall x :: x in r <==> x in a && x in b
  {
    Distinct(Except(a, Except(a, b)))
  }

  /** Concatenation of a sequence of sequences, in order. */
  function Flatten<T>(ss: seq<seq<T>>): seq<T>
  {
    if ss == [] then [] else Flatten(ss[..|ss| - 1]) + ss[|ss| - 1]
  }

  lemma FlattenSnoc<T>(ss: seq<seq<T>>, t: seq<T>)
    ensures Flatten(ss + [t]) == Flatten(ss) + t
  {
    assert (ss + [t])[..|ss|] == ss;
  }

  /** An element of the flattening comes from one of the parts, and back. */
  lemma {:induction false} FlattenMember<T>(ss: seq<seq<T>>, x: T)
    ensures x in Flatten(ss) <==> exists i :: 0 <= i < |ss| && x in ss[i]
  {
    if ss != [] {
      var init := ss[..|ss| - 1];
      FlattenMember(init, x);
      assert forall i :: 0 <= i < |init| ==> init[i] == ss[i];
      if x in ss[|ss| - 1] {
        assert x in Flatten(ss);
      }
    }
  }

  /** A duplicate-free sequence is its own `Distinct`. */
  lemma {:induction false} DistinctOfNoDup<T(!new)>(s: seq<T>)
    requires NoDup(s)
    ensures Distinct(s) == s
  {
    if s != [] {
      var init := s[..|s| - 1];
      assert NoDup(init);
      DistinctOfNoDup(init);
      assert s[|s| - 1] !in init;
      assert init + [s[|s| - 1]] == s;
    }
  }

  /** Appending elements that are all new to a duplicate-free prefix: `Distinct`
      keeps the prefix as it is and deduplicates only the appended part. */
  lemma {:induction false} DistinctAppendFresh<T(!new)>(a: seq<T>, b: seq<T>)
    requires NoDup(a)
    requires forall x :: x in b ==> x !in a
    ensures Distinct(a + b) == a + Distinct(b)
  {
    if b == [] {
      assert a + b == a;
      DistinctOfNoDup(a);
    } else {
      var init := b[..|b| - 1];
      var x := b[|b| - 1];
      assert (a + b)[..|a + b| - 1] == a + init;
      DistinctAppendFresh(a, init);
      assert x in a + Distinct(init) <==> x in Distinct(init);
    }
  }

  /** `Distinct` is idempotent. */
  lemma DistinctIdempotent<T(!new)>(s: seq<T>)
    ensures Distinct(Distinct(s)) == Distinct(s)
  {
    DistinctOfNoDup(Distinct(s));
  }

  /** go-linq's `Distinct` keeps first-occurrence order: the elements of the
      result appear in the order of their first occurrences in the input. */
  lemma {:induction false} DistinctKeepsFirstOccurrenceOrder<T(!new)>(s: seq<T>)
    ensures forall i, j :: 0 <= i < j < |Distinct(s)| ==>
      FirstIndex(s, Distinct(s)[i]) < FirstIndex(s, Distinct(s)[j])
  {
    if s != [] {
      var init := s[..|s| - 1];
      var d := Distinct(init);
      DistinctKeepsFirstOccurrenceOrder(init);
      forall x | x in init ensures FirstIndex(s, x) == FirstIndex(init, x) {
        FirstIndexPrefix(init, s, x);
      }
      if s[|s| - 1] !in d {
        assert Distinct(s) == d + [s[|s| - 1]];
        forall i, j | 0 <= i < j < |Distinct(s)|
          ensures FirstIndex(s, Distinct(s)[i]) < FirstIndex(s, Distinct(s)[j])
        {
          if j == |d| {
            assert Distinct(s)[i] == d[i] && d[i] in init;
            assert FirstIndex(init, d[i]) < |init|;
            assert FirstIndex(s, s[|s| - 1]) == |s| - 1;
          } else {
            assert Distinct(s)[i] == d[i] && Distinct(s)[j] == d[j];
          }
        }
      }
    }
  }

  /** The first occurrence of an element of a prefix lies in that prefix. */
  lemma {:induction false} FirstIndexPrefix<T>(p: seq<T>, s: seq<T>, x: T)
    requires p <= s && x in p
    ensures FirstIndex(s, x) == FirstIndex(p, x)
  {
    if p[0] != x {
      assert p[1..] <= s[1..];
      FirstIndexPrefix(p[1..], s[1..], x);
    }
  }

  /** Nothing is left when every element is excluded. */
  lemma ExceptAllKnown<T(!new)>(a: seq<T>, b: seq<T>)
    requires forall x :: x in a ==> x in b
    ensures Except(a, b) == []
  {
  }

  /** Excluding nothing keeps everything. */
  lemma {:induction false} ExceptNothing<T(!new)>(a: seq<T>)
    ensures Except(a, []) == a
  {
    if a != [] {
      ExceptNothing(a[..|a| - 1]);
      assert a[..|a| - 1] + [a[|a| - 1]] == a;
    }
  }
}
