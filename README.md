# stackdriver_exporter scrape pipeline, modelled in Dafny

The Prometheus Stackdriver exporter serves Google Cloud Monitoring metrics
over HTTP. This project models the list and string logic of
`stackdriver_exporter.go` that decides what a scrape collects:

- **Prefix normaliser** (`parseMetricTypePrefixes`). It sorts the configured
  metric-type prefixes in place, drops duplicates, and drops every prefix that
  starts with the last prefix it kept.
  - The model proves that the result is strictly sorted and that no element
    starts with another, for every pair.
  - It proves that the result holds exactly the input prefixes that have no
    other input prefix as a prefix, and that it is the only strictly sorted
    list with that property.
  - It proves idempotence and that the least input prefix is kept.
  - It proves that `compute…/`, `compute…/instance/cpu` and `pubsub…/`
    normalise to `compute…/` and `pubsub…/`.
  - The key fact is `StringOrder.PrefixBetween`: if a ≤ b ≤ c and c starts
    with a, then b starts with a.
- **Per-request selection** (`filterMetricTypePrefixes`). With no `collect`
  values it returns the configured list itself. Otherwise it returns the
  configured prefixes that are in the set, in configured order. Values that
  are not configured are ignored.
- **Extra-filter parser** (`parseMetricExtraFilters`). It yields one
  `MetricFilter` per entry whose split prefix is non-empty, in entry order.
  The prefix is lowercased and the query is kept verbatim.
- **Scrape dispatch** (`ServeHTTP`, `newHandler`, `innerHandler`).
  - `ServeHTTP` gathers the `collect` values into a set. A non-empty set
    builds a fresh plan; an empty set reuses the plan cached by `newHandler`.
  - Either way, the plan served equals the plan built for that set.
  - A plan has one collector per project, in project order, all with the same
    prefixes and extra filters. The additional gatherer, when present, comes
    before the request's registry.

Layout: `string_order.dfy` (Go string order and `strings.HasPrefix`),
`slices.dfy` (`slices.Sort`, `slices.Compact`), `metric_prefixes.dfy`
(normaliser and selection), `extra_filters.dfy`, `exporter.dfy` (the handler
struct as a class).

Modelling choices:
- Strings are Dafny strings, compared character by character. On valid UTF-8
  this is the same order as Go's byte order.
- The `filters map[string]bool` is a `set<string>`. Every value the program
  stores in it is `true`, and a nil map behaves as the empty set.
- The caller's `[]string` handed to `parseMetricTypePrefixes` is an `array`,
  because the function sorts and compacts it in place.
- `utils.SplitExtraFilter` and `strings.ToLower` are function parameters.
  Their code is not part of this model.
- Whether `collectors.NewMonitoringCollector` succeeds is a function stored in
  the handler. It stands for the monitoring service `h.m`.
- Where the program calls `os.Exit(1)` after a failed collector, the model
  returns the outcome `CollectorInitFailed(project)`.
- The failure is final: the code exits the process, and the model returns no
  partial plan.

## Model

| member | source | states |
|---|---|---|
| StringOrder.PrefixBetween | stackdriver_exporter.go:376-381 | in string order, if a ≤ b ≤ c and c starts with a, then b starts with a; this is why comparing only with the last kept prefix is enough |
| StringOrder.PrefixLessEq | stackdriver_exporter.go:369 | a prefix sorts no later than the string it starts |
| Slices.SortSpec | stackdriver_exporter.go:369 | the reference sort returns a sorted permutation of its input |
| Slices.SortedUnique | stackdriver_exporter.go:369 | two sorted permutations of the same strings are equal, so any correct in-place sort gives the same slice |
| Slices.SortInPlace | stackdriver_exporter.go:369 | slices.Sort leaves the caller's array holding the sorted permutation of its old contents |
| Slices.CompactElements | stackdriver_exporter.go:370 | compacting keeps exactly the elements of the list and its last element |
| Slices.CompactStep | stackdriver_exporter.go:370 | compacting one element more drops it exactly when it equals the element before it |
| Slices.CompactSorted | stackdriver_exporter.go:370 | compacting a sorted list gives a strictly sorted list with the same elements |
| Slices.CompactInPlace | stackdriver_exporter.go:370 | slices.Compact returns a length n whose first n slots hold the old contents with runs of equal neighbours collapsed |
| Slices.StrictlySortedUnique | stackdriver_exporter.go:369-370 | a strictly sorted list is determined by its set of elements |
| MetricPrefixes.CollapseCovers | stackdriver_exporter.go:374-384 | the walk keeps only input elements, and every input element starts with some kept prefix |
| MetricPrefixes.CollapseNormalForm | stackdriver_exporter.go:374-384 | on strictly sorted input, comparing each candidate with the last kept prefix only still gives a strictly sorted, pairwise prefix-free list |
| MetricPrefixes.AppendKeepsNormalForm | stackdriver_exporter.go:376-383 | appending a larger candidate that does not start with the last kept prefix keeps the list strictly sorted and prefix-free |
| MetricPrefixes.CollapseStep | stackdriver_exporter.go:374-383 | one more candidate is dropped exactly when it starts with the last kept prefix, and after the first candidate a kept prefix always exists |
| MetricPrefixes.OutermostKept | stackdriver_exporter.go:372-384 | a prefix-free list drawn from the input that covers every input element holds exactly the outermost input prefixes |
| MetricPrefixes.NormalizedSpec | stackdriver_exporter.go:365-387 | the normaliser's output is strictly sorted and prefix-free, holds exactly the outermost input prefixes, and covers every input prefix |
| MetricPrefixes.NormalizedStrictlySorted | stackdriver_exporter.go:369-384 | the output is strictly increasing: sorted and duplicate-free |
| MetricPrefixes.NormalizedPrefixFree | stackdriver_exporter.go:372-381 | no output element is a prefix of any other output element, for every pair and not only for neighbours |
| MetricPrefixes.NormalizedLosesOnlyCovered | stackdriver_exporter.go:374-384 | every output element occurs in the input; every input element missing from the output starts with a different output element |
| MetricPrefixes.NormalizedKeepsOutermost | stackdriver_exporter.go:372-384 | an input prefix is kept if and only if no other input prefix is a prefix of it |
| MetricPrefixes.NormalizedUnique | stackdriver_exporter.go:365-387 | any strictly sorted list of exactly the outermost input prefixes equals the normaliser's output |
| MetricPrefixes.NormalizedIdempotent | stackdriver_exporter.go:365-387 | normalising the output again returns it unchanged |
| MetricPrefixes.NormalizedKeepsLeast | stackdriver_exporter.go:366-386 | the output is empty exactly when the input is; otherwise its first element is the least input prefix |
| MetricPrefixes.NormalizedExample | stackdriver_exporter.go:372-384 | compute.googleapis.com/, compute.googleapis.com/instance/cpu and pubsub.googleapis.com/ normalise to compute.googleapis.com/ and pubsub.googleapis.com/ |
| MetricPrefixes.ParseMetricTypePrefixes | stackdriver_exporter.go:365-387 | the method returns the normalised prefixes of the old array contents, and leaves the sorted, compacted list at the front of the caller's array |
| MetricPrefixes.SelectedSpec | stackdriver_exporter.go:253-258 | the selection is a subsequence of the configured list; each requested prefix keeps all its configured occurrences, and nothing else is kept |
| MetricPrefixes.SelectedMembers | stackdriver_exporter.go:254-256 | a prefix is selected exactly when it is configured and requested |
| MetricPrefixes.SelectedIgnoresUnknown | stackdriver_exporter.go:254-256 | requested values that are not configured prefixes do not change the selection |
| MetricPrefixes.SelectedKeepsNormalForm | stackdriver_exporter.go:253-258 | selecting from a strictly sorted, prefix-free list gives a strictly sorted, prefix-free list |
| ExtraFilters.KeptSpec | stackdriver_exporter.go:391-395 | the positions of the entries that yield a filter are ascending, in range, and are exactly the entries whose split prefix is non-empty |
| ExtraFilters.ExtraFiltersSpec | stackdriver_exporter.go:391-399 | one filter per entry with a non-empty split prefix, in entry order; the k-th filter has the lowercased prefix and the verbatim query of the k-th such entry |
| ExtraFilters.ExtraFiltersConcat | stackdriver_exporter.go:391-400 | parsing a concatenation of entry lists concatenates the results, so each entry is handled on its own |
| ExtraFilters.ExtraFiltersTargetsNonEmpty | stackdriver_exporter.go:393-395 | if lowercasing keeps non-empty strings non-empty, every parsed filter targets a non-empty prefix |
| ExtraFilters.ParseMetricExtraFilters | stackdriver_exporter.go:389-402 | the loop returns the filters specified by ParsedFilters for the given entries |
| Exporter.CollectorsSpec | stackdriver_exporter.go:217-235 | collectors are built for all projects exactly when each one can be; they then come one per project, in order, with shared options; otherwise the first failing project is named |
| Exporter.CollectorsFailureSticks | stackdriver_exporter.go:230-233 | after a project's collector fails, the later projects are not looked at |
| Exporter.PlanSpec | stackdriver_exporter.go:214-246 | a plan exists exactly when every collector can be created; it then has one collector per project with the request's prefixes and the extra filters, and the additional gatherer comes before the request registry |
| Exporter.FullPlanCoversAllPrefixes | stackdriver_exporter.go:250-252 | with no filters, every collector gets the whole configured prefix list |
| Exporter.FilteredPlanSelects | stackdriver_exporter.go:219 | with filters, every collector gets a subsequence of the configured list holding exactly the configured prefixes that were requested |
| Exporter.EmptyCollectValueSelectsNothing | stackdriver_exporter.go:186-193 | a single empty `collect` value still means a filtered scrape, and unless the empty string is configured every collector gets no prefix |
| Exporter.Handler.constructor | stackdriver_exporter.go:200-212 | newHandler stores its arguments and caches the plan built with no filters |
| Exporter.Handler.ServeHTTP | stackdriver_exporter.go:185-198 | the filtered path is taken exactly when a `collect` value is present; the plan served is the plan for the set of values; otherwise the cached plan is reused |
| Exporter.Handler.InnerHandler | stackdriver_exporter.go:214-246 | the method returns the plan specified by Plan for the handler's fields and the filters |
| Exporter.Handler.FilterMetricTypePrefixes | stackdriver_exporter.go:250-261 | with no filters the configured list itself is returned; otherwise the configured prefixes in the set, in configured order; no field is modified |

## Left out

- Flag declarations and defaults (stackdriver_exporter.go:47-134) and `main` (263-362). This is configuration parsing and process wiring. The values they produce are parameters of the model.
- `getDefaultGCPProject`, `google.DefaultClient` and `utils.GetProjectIDsFromFilter`. These are credential and project discovery over the network.
- `createMonitoringService` and its retry/backoff transport. The code only passes configuration to the `rehttp` library, which is not part of this model. No retry or backoff behaviour is modelled.
- `collectors.NewMonitoringCollector`, `monitoring.NewService` and the `delta` counter and histogram stores. Their code is not part of this model. Only whether a collector can be created is kept.
- Delta stores across requests. `innerHandler` creates fresh delta stores on every call, so aggregated deltas persist across requests only for the cached full-scrape handler. The model does not represent stores at all.
- `registry.MustRegister` panicking on a duplicate registration. Registry and gatherer internals are library code. The model records which collectors are registered, not Prometheus's checks on them.
- promhttp serialisation, error logging, the landing page and `web.ListenAndServe`. This is HTTP and library plumbing.
- The concurrent HTTP server. Each call of `ServeHTTP` is modelled on its own.
- `os.Exit(1)` on collector failure is an outcome value. The model does not represent process termination.
- Exact `strings.ToLower` semantics and the splitting rule of `utils.SplitExtraFilter`. Both are uninterpreted parameters. No concrete splitting rule, such as splitting at the first `:`, is assumed, so no concrete entry is parsed in a proof.
- Slices.CompactInPlace: what the caller's slice holds after the compacted length is not stated. Depending on the Go version, `slices.Compact` leaves those slots as they were or clears them.
- Slices.SortInPlace: the sorting algorithm of `slices.Sort` (pattern-defeating quicksort) is not modelled. An insertion sort stands in for it. Sorted permutations are unique, so the resulting slice is the same.
- Exporter.Handler.ServeHTTP: the `filtered` result is not in the source. It makes the path taken observable. The response itself is not modelled.
- Exporter.Handler.ServeHTTP: `Valid()` admits a cached `CollectorInitFailed` plan, which a scrape without `collect` values then serves. The program never reaches that state: `newHandler` (stackdriver_exporter.go:210) reaches the `os.Exit(1)` of stackdriver_exporter.go:230-233 first.
