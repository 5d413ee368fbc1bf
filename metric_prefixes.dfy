/** The metric-type prefix logic of stackdriver_exporter.go: the start-up
    normaliser parseMetricTypePrefixes and the per-request selection done by
    filterMetricTypePrefixes. */
module MetricPrefixes {
  import opened StringOrder
  import opened Slices

  /** No element of s starts with another element of s. */
  ghost predicate PrefixFree(s: seq<string>)
  {
    forall x, y :: x in s && y in s && HasPrefix(x, y) ==> x == y
  }

  /** Some element of s is a prefix of x. */
  ghost predicate Covered(s: seq<string>, x: string)
  {
    exists y :: y in s && HasPrefix(x, y)
  }

  /** x occurs in input and no other element of input is a prefix of it. */
  ghost predicate Outermost(input: seq<string>, x: string)
  {
    x in input && forall y :: y in input && HasPrefix(x, y) ==> y == x
  }

  /** The walk of stackdriver_exporter.go:374-384 over the sorted, compacted
      prefixes: a prefix is kept unless it starts with the most recently
      kept one. */
  function Collapse(u: seq<string>): (collapsed: seq<string>)
  {
    if u == [] then []
    else
      var kept := Collapse(u[..|u| - 1]);
      var prefix := u[|u| - 1];
      if kept != [] && HasPrefix(prefix, kept[|kept| - 1]) then kept else kept + [prefix]
  }

  /** What parseMetricTypePrefixes returns for the given input. */
  function NormalizedPrefixes(input: seq<string>): (normalized: seq<string>)
  {
    Collapse(Compact(Sort(input)))
  }

  /** The walk keeps only input elements, and every input element starts
      with some kept prefix: a dropped candidate starts with the last kept
      one. */
  lemma {:induction false} CollapseCovers(u: seq<string>)
    ensures forall x :: x in Collapse(u) ==> x in u
    ensures forall x :: x in u ==> Covered(Collapse(u), x)
  {
    if u != [] {
      var p := u[..|u| - 1];
      var x := u[|u| - 1];
      assert u == p + [x];
      CollapseCovers(p);
      var c := Collapse(p);
      if c != [] && HasPrefix(x, c[|c| - 1]) {
        assert c[|c| - 1] in c;
      } else {
        var r := c + [x];
        assert Collapse(u) == r;
        assert HasPrefix(x, x);
        forall z | z in u
          ensures Covered(r, z)
        {
          if z != x {
            assert z in p;
            var w :| w in c && HasPrefix(z, w);
            assert w in r;
          } else {
            assert x in r;
          }
        }
      }
    }
  }

  /** The invariant of the walk: although each candidate is compared with the
      last kept prefix only, on strictly sorted input the kept prefixes are
      strictly sorted and pairwise prefix-free. */
  lemma {:induction false} CollapseNormalForm(u: seq<string>)
    requires StrictlySorted(u)
    ensures StrictlySorted(Collapse(u))
    ensures PrefixFree(Collapse(u))
  {
    if u != [] {
      var p := u[..|u| - 1];
      var x := u[|u| - 1];
      assert StrictlySorted(p);
      CollapseNormalForm(p);
      CollapseCovers(p);
      var c := Collapse(p);
      if !(c != [] && HasPrefix(x, c[|c| - 1])) {
        forall y | y in c
          ensures Less(y, x)
        {
          var k :| 0 <= k < |p| && p[k] == y;
          assert u[k] == y;
        }
        AppendKeepsNormalForm(c, x);
      }
    }
  }

  /** One step of the walk: appending a larger candidate that does not start
      with the last kept prefix keeps the list strictly sorted and
      prefix-free, by PrefixBetween. */
  lemma AppendKeepsNormalForm(c: seq<string>, x: string)
    requires StrictlySorted(c) && PrefixFree(c)
    requires forall y :: y in c ==> Less(y, x)
    requires c == [] || !HasPrefix(x, c[|c| - 1])
    ensures StrictlySorted(c + [x]) && PrefixFree(c + [x])
  {
    forall y | y in c
      ensures !HasPrefix(x, y)
    {
      if HasPrefix(x, y) {
        var last := c[|c| - 1];
        assert last in c && Less(last, x);
        var i :| 0 <= i < |c| && c[i] == y;
        if i < |c| - 1 {
          assert Less(y, last);
        } else {
          LessEqReflexive(y);
        }
        PrefixBetween(y, last, x);
        assert false;
      }
    }
    forall y | y in c
      ensures !HasPrefix(y, x)
    {
      if HasPrefix(y, x) {
        PrefixLessEq(y, x);
        LessEqAntisymmetric(x, y);
        assert false;
      }
    }
    AppendStrictlySorted(c, x);
  }

  /** Taken together, those properties pin down exactly which prefixes are
      kept: the outermost ones. */
  lemma OutermostKept(c: seq<string>, u: seq<string>)
    requires forall x :: x in c ==> x in u
    requires forall x :: x in u ==> Covered(c, x)
    requires PrefixFree(c)
    ensures forall x :: x in c <==> Outermost(u, x)
  {
    forall x
      ensures x in c <==> Outermost(u, x)
    {
      if x in c {
        forall y | y in u && HasPrefix(x, y)
          ensures y == x
        {
          var z :| z in c && HasPrefix(y, z);
          PrefixTransitive(x, y, z);
        }
      }
      if Outermost(u, x) {
        var z :| z in c && HasPrefix(x, z);
        assert z == x;
      }
    }
  }

  lemma NormalizedSpec(input: seq<string>)
    ensures StrictlySorted(NormalizedPrefixes(input))
    ensures PrefixFree(NormalizedPrefixes(input))
    ensures forall x :: x in NormalizedPrefixes(input) <==> Outermost(input, x)
    ensures forall x :: x in input ==> Covered(NormalizedPrefixes(input), x)
  {
    var sorted := Sort(input);
    SortSpec(input);
    CompactSorted(sorted);
    var u := Compact(sorted);
    assert forall x :: x in u <==> x in input by {
      forall x
        ensures x in u <==> x in input
      {
        assert x in sorted <==> x in multiset(sorted);
        assert x in input <==> x in multiset(input);
      }
    }
    CollapseCovers(u);
    CollapseNormalForm(u);
    OutermostKept(Collapse(u), u);
  }

  /** The normalised prefixes are sorted and free of duplicates. */
  lemma NormalizedStrictlySorted(input: seq<string>)
    ensures StrictlySorted(NormalizedPrefixes(input))
  {
    NormalizedSpec(input);
  }

  /** No normalised prefix starts with another one: this holds for every
      pair, not only for neighbours. */
  lemma NormalizedPrefixFree(input: seq<string>)
    ensures forall i, j :: 0 <= i < |NormalizedPrefixes(input)| && 0 <= j < |NormalizedPrefixes(input)| && i != j ==>
      !HasPrefix(NormalizedPrefixes(input)[i], NormalizedPrefixes(input)[j])
  {
    var r := NormalizedPrefixes(input);
    NormalizedSpec(input);
    forall i, j | 0 <= i < |r| && 0 <= j < |r| && i != j
      ensures !HasPrefix(r[i], r[j])
    {
      if i < j {
        assert Less(r[i], r[j]);
      } else {
        assert Less(r[j], r[i]);
      }
    }
  }

  /** Every kept prefix comes from the input; every input prefix that is not
      kept starts with a different, kept one. */
  lemma NormalizedLosesOnlyCovered(input: seq<string>)
    ensures forall x :: x in NormalizedPrefixes(input) ==> x in input
    ensures forall x :: x in input && x !in NormalizedPrefixes(input) ==>
      exists y :: y in NormalizedPrefixes(input) && y != x && HasPrefix(x, y)
  {
    NormalizedSpec(input);
  }

  /** The output holds exactly the input prefixes that no other input prefix
      is a prefix of. */
  lemma NormalizedKeepsOutermost(input: seq<string>)
    ensures forall x :: x in NormalizedPrefixes(input) <==>
      (x in input && forall y :: y in input && HasPrefix(x, y) ==> y == x)
  {
    NormalizedSpec(input);
  }

  /** Reference definition: the normalised list is THE strictly sorted list of
      outermost input prefixes; any list with those two properties equals it. */
  lemma NormalizedUnique(input: seq<string>, r: seq<string>)
    requires StrictlySorted(r)
    requires forall x :: x in r <==> Outermost(input, x)
    ensures r == NormalizedPrefixes(input)
  {
    NormalizedSpec(input);
    StrictlySortedUnique(r, NormalizedPrefixes(input));
  }

  /** Normalising an already normalised list changes nothing. */
  lemma NormalizedIdempotent(input: seq<string>)
    ensures NormalizedPrefixes(NormalizedPrefixes(input)) == NormalizedPrefixes(input)
  {
    var r := NormalizedPrefixes(input);
    NormalizedSpec(input);
    NormalizedSpec(r);
    assert forall x :: x in r <==> Outermost(r, x);
    StrictlySortedUnique(NormalizedPrefixes(r), r);
  }

  /** Empty input gives empty output; otherwise the least input prefix is
      always kept and comes first. */
  lemma NormalizedKeepsLeast(input: seq<string>)
    ensures NormalizedPrefixes(input) == [] <==> input == []
    ensures input != [] ==>
      NormalizedPrefixes(input)[0] in input &&
      forall x :: x in input ==> LessEq(NormalizedPrefixes(input)[0], x)
  {
    var r := NormalizedPrefixes(input);
    NormalizedSpec(input);
    if input != [] {
      var sorted := Sort(input);
      SortSpec(input);
      assert input[0] in multiset(sorted);
      var least := sorted[0];
      assert least in multiset(input);
      forall x | x in input
        ensures LessEq(least, x)
      {
        assert x in multiset(sorted);
        var k :| 0 <= k < |sorted| && sorted[k] == x;
        if k == 0 {
          LessEqReflexive(x);
        }
      }
      forall y | y in input && HasPrefix(least, y)
        ensures y == least
      {
        PrefixLessEq(least, y);
        LessEqAntisymmetric(least, y);
      }
      assert least in r;
      var k :| 0 <= k < |r| && r[k] == least;
      if k != 0 {
        assert r[0] in r && Outermost(input, r[0]);
        assert Less(r[0], least);
        LessEqAntisymmetric(r[0], least);
      }
    }
  }

  /** compute.googleapis.com/, compute.googleapis.com/instance/cpu and
      pubsub.googleapis.com/ normalise to compute.googleapis.com/ and
      pubsub.googleapis.com/: a prefix that starts with another configured
      prefix is dropped. */
  lemma NormalizedExample()
    ensures NormalizedPrefixes(["compute.googleapis.com/", "compute.googleapis.com/instance/cpu", "pubsub.googleapis.com/"])
      == ["compute.googleapis.com/", "pubsub.googleapis.com/"]
  {
    var compute, cpu, pubsub := "compute.googleapis.com/", "compute.googleapis.com/instance/cpu", "pubsub.googleapis.com/";
    var input := [compute, cpu, pubsub];
    var r := [compute, pubsub];
    assert Less(compute, pubsub);
    assert HasPrefix(cpu, compute);
    assert !HasPrefix(compute, cpu) && !HasPrefix(compute, pubsub);
    assert !HasPrefix(pubsub, compute) && !HasPrefix(pubsub, cpu);
    assert forall x :: x in r <==> Outermost(input, x);
    NormalizedUnique(input, r);
  }

  /** One step of the walk: the next candidate is dropped exactly when it
      starts with the last kept prefix. */
  lemma CollapseStep(u: seq<string>, i: nat)
    requires i < |u|
    ensures Collapse(u[..i + 1]) ==
      (if Collapse(u[..i]) != [] && HasPrefix(u[i], Collapse(u[..i])[|Collapse(u[..i])| - 1])
       then Collapse(u[..i]) else Collapse(u[..i]) + [u[i]])
    ensures i > 0 ==> Collapse(u[..i]) != []
  {
    assert u[..i + 1][..i] == u[..i];
    if i > 0 {
      assert u[..i][..i - 1] == u[..i - 1];
    }
  }

  /** parseMetricTypePrefixes(inputPrefixes).  The caller's slice is sorted
      and compacted in place, as slices.Sort and slices.Compact do. */
  method ParseMetricTypePrefixes(inputPrefixes: array<string>) returns (metricTypePrefixes: seq<string>)
    modifies inputPrefixes
    ensures metricTypePrefixes == NormalizedPrefixes(old(inputPrefixes[..]))
    ensures |Compact(Sort(old(inputPrefixes[..])))| <= inputPrefixes.Length
    ensures inputPrefixes[..|Compact(Sort(old(inputPrefixes[..])))|] == Compact(Sort(old(inputPrefixes[..])))
  {
    metricTypePrefixes := [];

    ghost var unique := Compact(Sort(old(inputPrefixes[..])));
    SortInPlace(inputPrefixes);
    var n := CompactInPlace(inputPrefixes);
    var uniquePrefixes := inputPrefixes[..n];
    assert uniquePrefixes == unique && n == |unique|;

    for i := 0 to |uniquePrefixes|
      invariant metricTypePrefixes == Collapse(uniquePrefixes[..i])
      invariant i > 0 ==> metricTypePrefixes != []
      invariant inputPrefixes[..n] == unique
    {
      var prefix := uniquePrefixes[i];
      CollapseStep(uniquePrefixes, i);
      if i != 0 {
        var previousIndex := |metricTypePrefixes| - 1;
        if HasPrefix(prefix, metricTypePrefixes[previousIndex]) {
          continue;
        }
      }
      metricTypePrefixes := metricTypePrefixes + [prefix];
    }
    assert uniquePrefixes[..|uniquePrefixes|] == uniquePrefixes;
  }

  /** The configured prefixes that are members of filters, in configured
      order (stackdriver_exporter.go:253-258). */
  function Selected(prefixes: seq<string>, filters: set<string>): (selected: seq<string>)
  {
    if prefixes == [] then []
    else
      var prefix := prefixes[|prefixes| - 1];
      Selected(prefixes[..|prefixes| - 1], filters) + (if prefix in filters then [prefix] else [])
  }

  /** a can be obtained from b by deleting elements. */
  predicate IsSubsequence(a: seq<string>, b: seq<string>)
    decreases |b|
  {
    if a == [] then true
    else if b == [] then false
    else if a[|a| - 1] == b[|b| - 1] then IsSubsequence(a[..|a| - 1], b[..|b| - 1])
    else IsSubsequence(a, b[..|b| - 1])
  }

  /** The selection keeps configured order and keeps every configured
      occurrence of a requested prefix, and nothing else. */
  lemma {:induction false} SelectedSpec(prefixes: seq<string>, filters: set<string>)
    ensures IsSubsequence(Selected(prefixes, filters), prefixes)
    ensures forall x ::
      multiset(Selected(prefixes, filters))[x] == (if x in filters then multiset(prefixes)[x] else 0)
  {
    if prefixes != [] {
      var p := prefixes[..|prefixes| - 1];
      var prefix := prefixes[|prefixes| - 1];
      assert prefixes == p + [prefix];
      SelectedSpec(p, filters);
      var s := Selected(p, filters);
      if prefix in filters {
        assert (s + [prefix])[..|s|] == s;
      } else if s != [] {
        assert s[|s| - 1] in multiset(s);
        assert s[|s| - 1] != prefix;
        assert prefixes[..|prefixes| - 1] == p;
        assert Selected(prefixes, filters) == s;
      }
    }
  }

  /** An element is selected exactly when it is configured and requested. */
  lemma SelectedMembers(prefixes: seq<string>, filters: set<string>)
    ensures forall x :: x in Selected(prefixes, filters) <==> x in prefixes && x in filters
  {
    SelectedSpec(prefixes, filters);
    forall x
      ensures x in Selected(prefixes, filters) <==> x in prefixes && x in filters
    {
      assert x in Selected(prefixes, filters) <==> x in multiset(Selected(prefixes, filters));
      assert x in prefixes <==> x in multiset(prefixes);
    }
  }

  /** Requested values that are not configured prefixes are ignored. */
  lemma {:induction false} SelectedIgnoresUnknown(prefixes: seq<string>, filters: set<string>)
    ensures Selected(prefixes, filters) == Selected(prefixes, filters * (set x | x in prefixes))
  {
    if prefixes != [] {
      var p := prefixes[..|prefixes| - 1];
      SelectedIgnoresUnknown(p, filters);
      SelectedSubset(p, filters * (set x | x in p), filters * (set x | x in prefixes));
    }
  }

  /** Selection only looks at the requested values among the prefixes. */
  lemma {:induction false} SelectedSubset(prefixes: seq<string>, small: set<string>, large: set<string>)
    requires small <= large
    requires forall x :: x in prefixes && x in large ==> x in small
    ensures Selected(prefixes, small) == Selected(prefixes, large)
  {
    if prefixes != [] {
      SelectedSubset(prefixes[..|prefixes| - 1], small, large);
    }
  }

  /** Selecting from a normalised list gives a normalised list. */
  lemma {:induction false} SelectedKeepsNormalForm(prefixes: seq<string>, filters: set<string>)
    requires StrictlySorted(prefixes) && PrefixFree(prefixes)
    ensures StrictlySorted(Selected(prefixes, filters)) && PrefixFree(Selected(prefixes, filters))
  {
    SelectedMembers(prefixes, filters);
    if prefixes != [] {
      var p := prefixes[..|prefixes| - 1];
      var prefix := prefixes[|prefixes| - 1];
      assert prefixes == p + [prefix];
      SelectedKeepsNormalForm(p, filters);
      SelectedMembers(p, filters);
      var s := Selected(p, filters);
      forall i | 0 <= i < |s|
        ensures Less(s[i], prefix)
      {
        assert s[i] in s && s[i] in p;
        var k :| 0 <= k < |p| && p[k] == s[i];
        assert prefixes[k] == s[i];
      }
    }
  }
}
