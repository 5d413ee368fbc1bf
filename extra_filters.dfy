/** parseMetricExtraFilters of stackdriver_exporter.go: each
    --monitoring.filters entry `prefix:query` becomes a MetricFilter.
    utils.SplitExtraFilter and strings.ToLower are not part of this model;
    they are passed in as the functions `split` and `toLower`. */
module ExtraFilters {

  /** collectors.MetricFilter. */
  datatype MetricFilter = MetricFilter(targetedMetricPrefix: string, filterQuery: string)

  /** The separator handed to utils.SplitExtraFilter. */
  const Separator: string := ":"

  /** The filters contributed by one entry: none when its prefix part is
      empty, otherwise one. */
  function FilterOf(ef: string, split: (string, string) -> (string, string), toLower: string -> string): (filters: seq<MetricFilter>)
  {
    var (targetedMetricPrefix, filterQuery) := split(ef, Separator);
    if targetedMetricPrefix != "" then [MetricFilter(toLower(targetedMetricPrefix), filterQuery)] else []
  }

  /** What parseMetricExtraFilters returns for the given entries. */
  function ParsedFilters(entries: seq<string>, split: (string, string) -> (string, string), toLower: string -> string): (parsed: seq<MetricFilter>)
  {
    if entries == [] then []
    else ParsedFilters(entries[..|entries| - 1], split, toLower) + FilterOf(entries[|entries| - 1], split, toLower)
  }

  /** The positions of the entries whose prefix part is non-empty, ascending. */
  function Kept(entries: seq<string>, split: (string, string) -> (string, string)): (positions: seq<nat>)
  {
    if entries == [] then []
    else
      var n := |entries| - 1;
      Kept(entries[..n], split) + (if split(entries[n], Separator).0 != "" then [n] else [])
  }

  /** The kept positions are ascending and name exactly the entries whose
      prefix part is non-empty. */
  lemma {:induction false} KeptSpec(entries: seq<string>, split: (string, string) -> (string, string))
    ensures forall k :: 0 <= k < |Kept(entries, split)| ==> Kept(entries, split)[k] < |entries|
    ensures forall k, l :: 0 <= k < l < |Kept(entries, split)| ==> Kept(entries, split)[k] < Kept(entries, split)[l]
    ensures forall i :: 0 <= i < |entries| ==> (i in Kept(entries, split) <==> split(entries[i], Separator).0 != "")
  {
    if entries != [] {
      var n := |entries| - 1;
      var front := entries[..n];
      KeptSpec(front, split);
      var kept, kept' := Kept(entries, split), Kept(front, split);
      assert kept == kept' + (if split(entries[n], Separator).0 != "" then [n] else []);
      forall i | 0 <= i < n
        ensures i in kept <==> i in kept'
      {
        assert i != n;
        assert entries[i] == front[i];
      }
    }
  }

  /** Exactly one filter per entry with a non-empty prefix part, in entry
      order: the k-th filter comes from the k-th such entry, with its prefix
      lowercased and its query verbatim. */
  lemma {:induction false} ExtraFiltersSpec(entries: seq<string>, split: (string, string) -> (string, string), toLower: string -> string)
    ensures |ParsedFilters(entries, split, toLower)| == |Kept(entries, split)|
    ensures forall k, l :: 0 <= k < l < |Kept(entries, split)| ==> Kept(entries, split)[k] < Kept(entries, split)[l]
    ensures forall i :: 0 <= i < |entries| ==> (i in Kept(entries, split) <==> split(entries[i], Separator).0 != "")
    ensures forall k :: 0 <= k < |Kept(entries, split)| ==>
      Kept(entries, split)[k] < |entries| &&
      ParsedFilters(entries, split, toLower)[k] ==
        MetricFilter(toLower(split(entries[Kept(entries, split)[k]], Separator).0),
                     split(entries[Kept(entries, split)[k]], Separator).1)
  {
    KeptSpec(entries, split);
    if entries != [] {
      var n := |entries| - 1;
      var front := entries[..n];
      ExtraFiltersSpec(front, split, toLower);
      var r, kept := ParsedFilters(entries, split, toLower), Kept(entries, split);
      var r', kept' := ParsedFilters(front, split, toLower), Kept(front, split);
      var (prefix, query) := split(entries[n], Separator);
      if prefix != "" {
        assert r == r' + [MetricFilter(toLower(prefix), query)];
        assert kept == kept' + [n];
      } else {
        assert r == r' && kept == kept';
      }
      forall k | 0 <= k < |kept'|
        ensures kept[k] == kept'[k] && r[k] == r'[k] && entries[kept[k]] == front[kept'[k]]
      {
      }
    }
  }

  /** Parsing distributes over concatenation of the entry list, so each
      entry is handled on its own. */
  lemma {:induction false} ExtraFiltersConcat(a: seq<string>, b: seq<string>, split: (string, string) -> (string, string), toLower: string -> string)
    ensures ParsedFilters(a + b, split, toLower) == ParsedFilters(a, split, toLower) + ParsedFilters(b, split, toLower)
  {
    if b != [] {
      var n := |b| - 1;
      assert (a + b)[..|a + b| - 1] == a + b[..n];
      assert (a + b)[|a + b| - 1] == b[n];
      ExtraFiltersConcat(a, b[..n], split, toLower);
      assert ParsedFilters(a + b, split, toLower) ==
        ParsedFilters(a + b[..n], split, toLower) + FilterOf(b[n], split, toLower);
    } else {
      assert a + b == a;
    }
  }

  /** If lowercasing keeps a non-empty string non-empty, as strings.ToLower
      does, every parsed filter targets a non-empty prefix. */
  lemma {:induction false} ExtraFiltersTargetsNonEmpty(entries: seq<string>, split: (string, string) -> (string, string), toLower: string -> string)
    requires forall s :: s != "" ==> toLower(s) != ""
    ensures forall f :: f in ParsedFilters(entries, split, toLower) ==> f.targetedMetricPrefix != ""
  {
    if entries != [] {
      ExtraFiltersTargetsNonEmpty(entries[..|entries| - 1], split, toLower);
      var (prefix, query) := split(entries[|entries| - 1], Separator);
      if prefix != "" {
        assert toLower(prefix) != "";
      }
    }
  }

  /** parseMetricExtraFilters, with the flag's values passed in. */
  method ParseMetricExtraFilters(monitoringMetricsExtraFilter: seq<string>, split: (string, string) -> (string, string), toLower: string -> string)
    returns (extraFilters: seq<MetricFilter>)
    ensures extraFilters == ParsedFilters(monitoringMetricsExtraFilter, split, toLower)
  {
    extraFilters := [];
    for i := 0 to |monitoringMetricsExtraFilter|
      invariant extraFilters == ParsedFilters(monitoringMetricsExtraFilter[..i], split, toLower)
    {
      var ef := monitoringMetricsExtraFilter[i];
      assert monitoringMetricsExtraFilter[..i + 1][..i] == monitoringMetricsExtraFilter[..i];
      var (targetedMetricPrefix, filterQuery) := split(ef, Separator);
      if targetedMetricPrefix != "" {
        var extraFilter := MetricFilter(toLower(targetedMetricPrefix), filterQuery);
        extraFilters := extraFilters + [extraFilter];
      }
    }
    assert monitoringMetricsExtraFilter[..|monitoringMetricsExtraFilter|] == monitoringMetricsExtraFilter;
  }
}
