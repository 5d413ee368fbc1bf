/** Go's slices.Sort and slices.Compact on a []string, as the prefix
    normaliser uses them: both work in place on the caller's slice. */
module Slices {
  import opened StringOrder

  predicate Sorted(s: seq<string>)
  {
    forall i, j :: 0 <= i < j < |s| ==> LessEq(s[i], s[j])
  }

  /** Sorted and free of duplicates. */
  predicate StrictlySorted(s: seq<string>)
  {
    forall i, j :: 0 <= i < j < |s| ==> Less(s[i], s[j])
  }

  function Insert(x: string, s: seq<string>): (inserted: seq<string>)
  {
    if s == [] then [x]
    else if LessEq(x, s[0]) then [x] + s
    else [s[0]] + Insert(x, s[1..])
  }

  /** The sorted permutation of s (insertion sort as the reference). */
  function Sort(s: seq<string>): (sorted: seq<string>)
  {
    if s == [] then [] else Insert(s[0], Sort(s[1..]))
  }

  lemma {:induction false} InsertSorted(x: string, s: seq<string>)
    requires Sorted(s)
    ensures Sorted(Insert(x, s))
    ensures multiset(Insert(x, s)) == multiset(s) + multiset{x}
  {
    if s == [] {
    } else if LessEq(x, s[0]) {
      InsertFront(x, s);
    } else {
      SortedTail(s);
      InsertSorted(x, s[1..]);
      InsertAfterHead(x, s);
    }
  }

  /** x goes behind the first element of s, which is smaller than x. */
  lemma InsertAfterHead(x: string, s: seq<string>)
    requires Sorted(s) && s != [] && !LessEq(x, s[0])
    requires Sorted(Insert(x, s[1..]))
    requires multiset(Insert(x, s[1..])) == multiset(s[1..]) + multiset{x}
    ensures Sorted(Insert(x, s))
    ensures multiset(Insert(x, s)) == multiset(s) + multiset{x}
  {
    var rest := s[1..];
    LessEqTotal(x, s[0]);
    var t := Insert(x, rest);
    assert Insert(x, s) == [s[0]] + t;
    forall y | y in rest
      ensures LessEq(s[0], y)
    {
      var k :| 0 <= k < |rest| && rest[k] == y;
      assert s[k + 1] == y;
    }
    InsertBehind(x, s[0], rest, t);
    assert s == [s[0]] + rest;
    assert multiset([s[0]] + t) == multiset{s[0]} + multiset(t);
  }

  /** x goes in front of a sorted list whose first element is not smaller. */
  lemma InsertFront(x: string, s: seq<string>)
    requires Sorted(s) && s != [] && LessEq(x, s[0])
    ensures Sorted(Insert(x, s))
    ensures multiset(Insert(x, s)) == multiset(s) + multiset{x}
  {
    assert Insert(x, s) == [x] + s;
    var r := [x] + s;
    forall i, j | 0 <= i < j < |r|
      ensures LessEq(r[i], r[j])
    {
      if i == 0 && j > 1 {
        LessEqTransitive(x, s[0], s[j - 1]);
      }
    }
  }

  /** head stays in front of t, the sorted insertion of x into the rest. */
  lemma InsertBehind(x: string, head: string, rest: seq<string>, t: seq<string>)
    requires Sorted(t) && LessEq(head, x)
    requires forall y :: y in rest ==> LessEq(head, y)
    requires multiset(t) == multiset(rest) + multiset{x}
    ensures Sorted([head] + t)
  {
    var r := [head] + t;
    forall j | 0 < j < |r|
      ensures LessEq(head, r[j])
    {
      assert r[j] == t[j - 1];
      assert t[j - 1] in multiset(t);
      if t[j - 1] != x {
        assert t[j - 1] in multiset(rest);
      }
    }
    forall i, j | 0 <= i < j < |r|
      ensures LessEq(r[i], r[j])
    {
      if i > 0 {
        assert r[i] == t[i - 1] && r[j] == t[j - 1];
      }
    }
  }

  lemma {:induction false} SortSpec(s: seq<string>)
    ensures Sorted(Sort(s))
    ensures multiset(Sort(s)) == multiset(s)
  {
    if s != [] {
      SortSpec(s[1..]);
      InsertSorted(s[0], Sort(s[1..]));
      assert s == [s[0]] + s[1..];
    }
  }

  /** The first element of a sorted list is its least. */
  lemma SortedLeast(x: seq<string>, v: string)
    requires Sorted(x) && v in multiset(x)
    ensures x != [] && LessEq(x[0], v)
  {
    var k :| 0 <= k < |x| && x[k] == v;
    if k == 0 {
      LessEqReflexive(v);
    }
  }

  /** Dropping the first element keeps a list sorted and removes one
      occurrence of it. */
  lemma SortedTail(x: seq<string>)
    requires Sorted(x) && x != []
    ensures Sorted(x[1..])
    ensures multiset(x[1..]) == multiset(x) - multiset{x[0]}
  {
    assert x == [x[0]] + x[1..];
  }

  /** Two sorted permutations of each other start alike. */
  lemma SortedSameHead(x: seq<string>, y: seq<string>)
    requires Sorted(x) && Sorted(y)
    requires multiset(x) == multiset(y)
    ensures (x == []) == (y == [])
    ensures x != [] ==> x[0] == y[0]
  {
    assert |x| == |multiset(x)| == |multiset(y)| == |y|;
    if x != [] {
      assert x[0] in multiset(x) && y[0] in multiset(y);
      SortedLeast(y, x[0]);
      SortedLeast(x, y[0]);
      LessEqAntisymmetric(x[0], y[0]);
    }
  }

  /** A sorted permutation is unique: the order is total and antisymmetric. */
  lemma {:induction false} SortedUnique(x: seq<string>, y: seq<string>)
    requires Sorted(x) && Sorted(y)
    requires multiset(x) == multiset(y)
    ensures x == y
  {
    SortedSameHead(x, y);
    if x != [] {
      SortedTail(x);
      SortedTail(y);
      SortedUnique(x[1..], y[1..]);
      assert x == [x[0]] + x[1..] && y == [y[0]] + y[1..];
    }
  }

  /** A strictly sorted sequence is determined by its set of elements. */
  lemma {:induction false} StrictlySortedUnique(a: seq<string>, b: seq<string>)
    requires StrictlySorted(a) && StrictlySorted(b)
    requires forall x :: x in a <==> x in b
    ensures a == b
  {
    assert a != [] ==> a[0] in b;
    assert b != [] ==> b[0] in a;
    if a != [] {
      assert a[0] in b;
      assert b[0] in a;
      var i :| 0 <= i < |b| && b[i] == a[0];
      var j :| 0 <= j < |a| && a[j] == b[0];
      if a[0] != b[0] {
        assert i > 0 && j > 0;
        assert Less(b[0], a[0]) && Less(a[0], b[0]);
        LessEqAntisymmetric(a[0], b[0]);
      }
      forall x
        ensures x in a[1..] <==> x in b[1..]
      {
        if x in a[1..] {
          var k :| 1 <= k < |a| && a[k] == x;
          assert Less(a[0], a[k]);
          assert x in a && x in b;
          var m :| 0 <= m < |b| && b[m] == x;
          assert m != 0 && b[1..][m - 1] == x;
        }
        if x in b[1..] {
          var k :| 1 <= k < |b| && b[k] == x;
          assert Less(b[0], b[k]);
          assert x in b && x in a;
          var m :| 0 <= m < |a| && a[m] == x;
          assert m != 0 && a[1..][m - 1] == x;
        }
      }
      StrictlySortedUnique(a[1..], b[1..]);
      assert a == [a[0]] + a[1..];
      assert b == [b[0]] + b[1..];
    }
  }

  /** slices.Compact: each run of equal neighbours is kept once. */
  function Compact<T(==)>(s: seq<T>): (compacted: seq<T>)
  {
    if s == [] then []
    else
      var c := Compact(s[..|s| - 1]);
      if c != [] && c[|c| - 1] == s[|s| - 1] then c else c + [s[|s| - 1]]
  }

  /** Compacting keeps the elements and the last one. */
  lemma {:induction false} CompactElements<T>(s: seq<T>)
    ensures forall x :: x in Compact(s) <==> x in s
    ensures s != [] ==> Compact(s) != [] && Compact(s)[|Compact(s)| - 1] == s[|s| - 1]
  {
    if s != [] {
      var p := s[..|s| - 1];
      assert s == p + [s[|s| - 1]];
      CompactElements(p);
    }
  }

  /** Appending an element larger than all others keeps a list strictly
      sorted. */
  lemma AppendStrictlySorted(c: seq<string>, x: string)
    requires StrictlySorted(c)
    requires forall y :: y in c ==> Less(y, x)
    ensures StrictlySorted(c + [x])
  {
    var r := c + [x];
    forall i, j | 0 <= i < j < |r|
      ensures Less(r[i], r[j])
    {
      if j == |c| {
        assert r[i] in c;
      }
    }
  }

  /** In a strictly sorted list bounded by x whose last element is not x,
      every element is below x. */
  lemma BelowNext(c: seq<string>, x: string)
    requires StrictlySorted(c)
    requires forall y :: y in c ==> LessEq(y, x)
    requires c == [] || c[|c| - 1] != x
    ensures forall y :: y in c ==> Less(y, x)
  {
    forall y | y in c
      ensures y != x
    {
      if y == x {
        var i :| 0 <= i < |c| && c[i] == y;
        assert i != |c| - 1;
        assert Less(c[i], c[|c| - 1]);
        assert c[|c| - 1] in c;
        LessEqAntisymmetric(x, c[|c| - 1]);
        assert false;
      }
    }
  }

  /** Compacting a sorted sequence drops exactly the duplicates. */
  lemma {:induction false} CompactSorted(s: seq<string>)
    requires Sorted(s)
    ensures StrictlySorted(Compact(s))
    ensures forall x :: x in Compact(s) <==> x in s
    ensures s != [] ==> Compact(s) != [] && Compact(s)[|Compact(s)| - 1] == s[|s| - 1]
  {
    CompactElements(s);
    if s != [] {
      var n := |s| - 1;
      var p := s[..n];
      var x := s[n];
      assert Sorted(p);
      CompactSorted(p);
      var c := Compact(p);
      if !(c != [] && c[|c| - 1] == x) {
        forall y | y in c
          ensures LessEq(y, x)
        {
          var k :| 0 <= k < n && p[k] == y;
          assert LessEq(s[k], s[n]);
        }
        BelowNext(c, x);
        AppendStrictlySorted(c, x);
      }
    }
  }

  /** One step of compacting: the next element is dropped exactly when it
      equals the one before it. */
  lemma CompactStep<T>(s: seq<T>, i: nat)
    requires 0 < i < |s|
    ensures Compact(s[..i + 1]) ==
      (if s[i] == s[i - 1] then Compact(s[..i]) else Compact(s[..i]) + [s[i]])
  {
    assert s[..i + 1][..i] == s[..i];
    CompactElements(s[..i]);
  }

  method Swap(a: array<string>, i: int, j: int)
    requires 0 <= i < a.Length && 0 <= j < a.Length
    modifies a
    ensures a[..] == old(a[..])[i := old(a[j])][j := old(a[i])]
    ensures multiset(a[..]) == old(multiset(a[..]))
  {
    a[i], a[j] := a[j], a[i];
  }

  /** slices.Sort(a): a ends up holding the sorted permutation of its old
      contents. */
  method SortInPlace(a: array<string>)
    modifies a
    ensures a[..] == Sort(old(a[..]))
  {
    for i := 0 to a.Length
      invariant forall k, l :: 0 <= k < l < i ==> LessEq(a[k], a[l])
      invariant multiset(a[..]) == old(multiset(a[..]))
    {
      var j := i;
      while j > 0 && !LessEq(a[j - 1], a[j])
        invariant 0 <= j <= i
        invariant forall k, l :: 0 <= k < l <= i && k != j && l != j ==> LessEq(a[k], a[l])
        invariant forall l :: j < l <= i ==> LessEq(a[j], a[l])
        invariant multiset(a[..]) == old(multiset(a[..]))
        decreases j
      {
        LessEqTotal(a[j - 1], a[j]);
        forall l | j < l <= i
          ensures LessEq(a[j - 1], a[l])
        {
        }
        Swap(a, j - 1, j);
        j := j - 1;
      }
      forall k | 0 <= k < j
        ensures LessEq(a[k], a[j])
      {
        if k < j - 1 {
          LessEqTransitive(a[k], a[j - 1], a[j]);
        }
      }
    }
    SortSpec(old(a[..]));
    SortedUnique(a[..], Sort(old(a[..])));
  }

  /** slices.Compact(a): returns the length n of the compacted slice, whose
      elements are the first n slots of a. */
  method CompactInPlace<T(==)>(a: array<T>) returns (n: nat)
    modifies a
    ensures n <= a.Length
    ensures a[..n] == Compact(old(a[..]))
  {
    ghost var s := a[..];
    if a.Length == 0 {
      return 0;
    }
    n := 1;
    ghost var c := [s[0]];
    assert s[..1] == [s[0]];
    for i := 1 to a.Length
      invariant 1 <= n <= i
      invariant |c| == n && c == Compact(s[..i])
      invariant c[n - 1] == s[i - 1]
      invariant forall k :: 0 <= k < n ==> a[k] == c[k]
      invariant forall k :: i <= k < a.Length ==> a[k] == s[k]
    {
      CompactStep(s, i);
      var next := a[i];
      assert next == s[i] && a[n - 1] == s[i - 1];
      if next != a[n - 1] {
        a[n] := next;
        c := c + [next];
        n := n + 1;
      }
    }
    assert s[..a.Length] == s;
    assert a[..n] == c;
  }
}
