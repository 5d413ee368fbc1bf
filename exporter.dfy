/** The scrape handler of stackdriver_exporter.go: newHandler, ServeHTTP,
    innerHandler and filterMetricTypePrefixes.  What innerHandler gives to
    promhttp.HandlerFor is modelled as a ScrapePlan: the collectors of the
    request's fresh registry and the gatherers merged for the response.
    Collectors and gatherers are opaque values; whether
    collectors.NewMonitoringCollector succeeds is a function passed in. */
module Exporter {
  import opened MetricPrefixes
  import opened ExtraFilters

  datatype Option<T> = None | Some(value: T)

  /** A prometheus.Gatherer owned outside the handler (the process's
      default registry), known only by name. */
  datatype Gatherer = Gatherer(name: string)

  /** The request-dependent part of collectors.MonitoringCollectorOptions;
      the remaining options come from flags and are the same for every
      collector. */
  datatype CollectorOptions = CollectorOptions(metricTypePrefixes: seq<string>, extraFilters: seq<MetricFilter>)

  /** The collector built for one project. */
  datatype MonitoringCollector = MonitoringCollector(projectID: string, options: CollectorOptions)

  /** One member of the gatherers a response is built from: the additional
      gatherer, or the registry created for the request. */
  datatype GatherSource = Additional(gatherer: Gatherer) | RequestRegistry

  /** The collectors registered in the request's registry, and the gatherers
      (in order) that promhttp.HandlerFor serves. */
  datatype ScrapePlan = ScrapePlan(registry: seq<MonitoringCollector>, gatherers: seq<GatherSource>)

  /** The outcome of building a handler: a plan, or the project whose
      collector could not be created (where the program calls os.Exit). */
  datatype Outcome<T> = Ok(value: T) | CollectorInitFailed(projectID: string)

  /** The prefixes an individual request collects
      (filterMetricTypePrefixes). */
  function RequestPrefixes(prefixes: seq<string>, filters: set<string>): (requested: seq<string>)
  {
    if |filters| == 0 then prefixes else Selected(prefixes, filters)
  }

  /** One collector per project, in project order, or the first project
      whose collector cannot be created. */
  function Collectors(projects: seq<string>, options: CollectorOptions, newCollectorSucceeds: (string, CollectorOptions) -> bool)
    : (collectors: Outcome<seq<MonitoringCollector>>)
  {
    if projects == [] then Ok([])
    else
      match Collectors(projects[..|projects| - 1], options, newCollectorSucceeds)
      case CollectorInitFailed(p) => CollectorInitFailed(p)
      case Ok(registry) =>
        var project := projects[|projects| - 1];
        if newCollectorSucceeds(project, options) then Ok(registry + [MonitoringCollector(project, options)])
        else CollectorInitFailed(project)
  }

  /** The gatherers served: the additional one first, when there is one. */
  function Gatherers(additionalGatherer: Option<Gatherer>): (gatherers: seq<GatherSource>)
  {
    match additionalGatherer
    case Some(g) => [Additional(g), RequestRegistry]
    case None => [RequestRegistry]
  }

  /** What innerHandler(filters) builds for the given handler fields. */
  function Plan(projects: seq<string>, prefixes: seq<string>, extraFilters: seq<MetricFilter>,
                additionalGatherer: Option<Gatherer>, newCollectorSucceeds: (string, CollectorOptions) -> bool,
                filters: set<string>): (plan: Outcome<ScrapePlan>)
  {
    var options := CollectorOptions(RequestPrefixes(prefixes, filters), extraFilters);
    match Collectors(projects, options, newCollectorSucceeds)
    case CollectorInitFailed(p) => CollectorInitFailed(p)
    case Ok(registry) => Ok(ScrapePlan(registry, Gatherers(additionalGatherer)))
  }

  /** Collectors succeeds exactly when every project's collector can be
      created; it then holds one collector per project, in order, all with
      the same options; otherwise it names the first project that fails. */
  lemma {:induction false} CollectorsSpec(projects: seq<string>, options: CollectorOptions, newCollectorSucceeds: (string, CollectorOptions) -> bool)
    ensures Collectors(projects, options, newCollectorSucceeds).Ok? <==>
      forall i :: 0 <= i < |projects| ==> newCollectorSucceeds(projects[i], options)
    ensures Collectors(projects, options, newCollectorSucceeds).Ok? ==>
      var registry := Collectors(projects, options, newCollectorSucceeds).value;
      |registry| == |projects| &&
      forall i :: 0 <= i < |projects| ==> registry[i] == MonitoringCollector(projects[i], options)
    ensures Collectors(projects, options, newCollectorSucceeds).CollectorInitFailed? ==>
      exists i :: 0 <= i < |projects| &&
        projects[i] == Collectors(projects, options, newCollectorSucceeds).projectID &&
        !newCollectorSucceeds(projects[i], options) &&
        forall j :: 0 <= j < i ==> newCollectorSucceeds(projects[j], options)
  {
    if projects != [] {
      var n := |projects| - 1;
      var front := projects[..n];
      CollectorsSpec(front, options, newCollectorSucceeds);
      assert forall i :: 0 <= i < n ==> projects[i] == front[i];
      match Collectors(front, options, newCollectorSucceeds)
      case CollectorInitFailed(p) =>
        var i :| 0 <= i < n && front[i] == p && !newCollectorSucceeds(front[i], options) &&
          forall j :: 0 <= j < i ==> newCollectorSucceeds(front[j], options);
        assert projects[i] == p;
      case Ok(registry) =>
    }
  }

  /** Once a project's collector fails, later projects change nothing. */
  lemma {:induction false} CollectorsFailureSticks(projects: seq<string>, k: nat, options: CollectorOptions, newCollectorSucceeds: (string, CollectorOptions) -> bool)
    requires k <= |projects|
    requires Collectors(projects[..k], options, newCollectorSucceeds).CollectorInitFailed?
    ensures Collectors(projects, options, newCollectorSucceeds) == Collectors(projects[..k], options, newCollectorSucceeds)
  {
    if k < |projects| {
      var n := |projects| - 1;
      assert projects[..n][..k] == projects[..k];
      CollectorsFailureSticks(projects[..n], k, options, newCollectorSucceeds);
    } else {
      assert projects[..k] == projects;
    }
  }

  /** innerHandler builds one collector per project, in project order; all
      of them share the request's prefixes and the extra filters; the
      additional gatherer, when present, comes before the request's
      registry.  The plan exists exactly when every collector can be
      created. */
  lemma PlanSpec(projects: seq<string>, prefixes: seq<string>, extraFilters: seq<MetricFilter>,
                 additionalGatherer: Option<Gatherer>, newCollectorSucceeds: (string, CollectorOptions) -> bool,
                 filters: set<string>)
    ensures
      var options := CollectorOptions(RequestPrefixes(prefixes, filters), extraFilters);
      var plan := Plan(projects, prefixes, extraFilters, additionalGatherer, newCollectorSucceeds, filters);
      && (plan.Ok? <==> forall i :: 0 <= i < |projects| ==> newCollectorSucceeds(projects[i], options))
      && (plan.Ok? ==>
            && |plan.value.registry| == |projects|
            && (forall i :: 0 <= i < |projects| ==> plan.value.registry[i] == MonitoringCollector(projects[i], options))
            && plan.value.gatherers == (if additionalGatherer.Some? then [Additional(additionalGatherer.value), RequestRegistry] else [RequestRegistry]))
      && (plan.CollectorInitFailed? ==>
            exists i :: 0 <= i < |projects| && projects[i] == plan.projectID && !newCollectorSucceeds(projects[i], options))
  {
    var options := CollectorOptions(RequestPrefixes(prefixes, filters), extraFilters);
    CollectorsSpec(projects, options, newCollectorSucceeds);
  }

  /** A full scrape (no filters) gives every collector all configured
      prefixes. */
  lemma FullPlanCoversAllPrefixes(projects: seq<string>, prefixes: seq<string>, extraFilters: seq<MetricFilter>,
                                  additionalGatherer: Option<Gatherer>, newCollectorSucceeds: (string, CollectorOptions) -> bool)
    ensures
      var plan := Plan(projects, prefixes, extraFilters, additionalGatherer, newCollectorSucceeds, {});
      plan.Ok? ==> forall c :: c in plan.value.registry ==> c.options.metricTypePrefixes == prefixes
  {
    PlanSpec(projects, prefixes, extraFilters, additionalGatherer, newCollectorSucceeds, {});
  }

  /** A filtered scrape gives every collector exactly the configured
      prefixes that were requested, in configured order; requested values
      that are not configured are ignored. */
  lemma FilteredPlanSelects(projects: seq<string>, prefixes: seq<string>, extraFilters: seq<MetricFilter>,
                            additionalGatherer: Option<Gatherer>, newCollectorSucceeds: (string, CollectorOptions) -> bool,
                            filters: set<string>)
    requires |filters| > 0
    ensures
      var plan := Plan(projects, prefixes, extraFilters, additionalGatherer, newCollectorSucceeds, filters);
      plan.Ok? ==> forall c :: c in plan.value.registry ==>
        && IsSubsequence(c.options.metricTypePrefixes, prefixes)
        && forall x :: x in c.options.metricTypePrefixes <==> x in prefixes && x in filters
  {
    PlanSpec(projects, prefixes, extraFilters, additionalGatherer, newCollectorSucceeds, filters);
    SelectedSpec(prefixes, filters);
    SelectedMembers(prefixes, filters);
  }

  /** `?collect=` with an empty value is a filtered scrape: unless the empty
      string is a configured prefix, every collector gets no prefix at all. */
  lemma EmptyCollectValueSelectsNothing(projects: seq<string>, prefixes: seq<string>, extraFilters: seq<MetricFilter>,
                                        additionalGatherer: Option<Gatherer>, newCollectorSucceeds: (string, CollectorOptions) -> bool)
    requires "" !in prefixes
    ensures
      var plan := Plan(projects, prefixes, extraFilters, additionalGatherer, newCollectorSucceeds, {""});
      plan.Ok? ==> forall c, x :: c in plan.value.registry ==> x !in c.options.metricTypePrefixes
  {
    PlanSpec(projects, prefixes, extraFilters, additionalGatherer, newCollectorSucceeds, {""});
    SelectedMembers(prefixes, {""});
  }

  /** The handler struct.  Its configuration is fixed by newHandler; the
      cached full-scrape handler is set right after. */
  class Handler {
    const projectIDs: seq<string>
    const metricsPrefixes: seq<string>
    const metricsExtraFilters: seq<MetricFilter>
    const additionalGatherer: Option<Gatherer>
    /** Whether collectors.NewMonitoringCollector succeeds for a project and
        options; stands for the monitoring service h.m. */
    const newCollectorSucceeds: (string, CollectorOptions) -> bool
    /** h.handler: the plan built once with nil filters. */
    var handler: Outcome<ScrapePlan>

    ghost predicate Valid()
      reads this
    {
      handler == Plan(projectIDs, metricsPrefixes, metricsExtraFilters, additionalGatherer, newCollectorSucceeds, {})
    }

    /** newHandler. */
    constructor (projectIDs: seq<string>, metricPrefixes: seq<string>, metricExtraFilters: seq<MetricFilter>,
                 newCollectorSucceeds: (string, CollectorOptions) -> bool, additionalGatherer: Option<Gatherer>)
      ensures this.projectIDs == projectIDs && this.metricsPrefixes == metricPrefixes
      ensures this.metricsExtraFilters == metricExtraFilters && this.additionalGatherer == additionalGatherer
      ensures this.newCollectorSucceeds == newCollectorSucceeds
      ensures Valid()
    {
      this.projectIDs := projectIDs;
      this.metricsPrefixes := metricPrefixes;
      this.metricsExtraFilters := metricExtraFilters;
      this.additionalGatherer := additionalGatherer;
      this.newCollectorSucceeds := newCollectorSucceeds;
      new;
      handler := InnerHandler({});
    }

    /** ServeHTTP: the `collect` query values are gathered into a set; a
        non-empty set gets a freshly built handler, otherwise the cached one
        serves.  Either way the plan served is the one for the set of
        values, and `filtered` tells which path was taken. */
    method ServeHTTP(collectParams: seq<string>) returns (served: Outcome<ScrapePlan>, filtered: bool)
      requires Valid()
      ensures filtered <==> collectParams != []
      ensures served == Plan(projectIDs, metricsPrefixes, metricsExtraFilters, additionalGatherer, newCollectorSucceeds,
                             set p | p in collectParams)
      ensures !filtered ==> served == handler
    {
      var filters: set<string> := {};
      for i := 0 to |collectParams|
        invariant filters == set p | p in collectParams[..i]
      {
        assert collectParams[..i + 1] == collectParams[..i] + [collectParams[i]];
        filters := filters + {collectParams[i]};
      }
      assert collectParams[..|collectParams|] == collectParams;
      assert collectParams != [] ==> collectParams[0] in filters;

      if |filters| > 0 {
        served := InnerHandler(filters);
        filtered := true;
        return;
      }

      served := handler;
      filtered := false;
    }

    /** innerHandler(filters). */
    method InnerHandler(filters: set<string>) returns (h: Outcome<ScrapePlan>)
      ensures h == Plan(projectIDs, metricsPrefixes, metricsExtraFilters, additionalGatherer, newCollectorSucceeds, filters)
    {
      ghost var options := CollectorOptions(RequestPrefixes(metricsPrefixes, filters), metricsExtraFilters);
      var registry: seq<MonitoringCollector> := [];

      for i := 0 to |projectIDs|
        invariant Collectors(projectIDs[..i], options, newCollectorSucceeds) == Ok(registry)
      {
        var project := projectIDs[i];
        assert projectIDs[..i + 1][..i] == projectIDs[..i];
        var metricTypePrefixes := FilterMetricTypePrefixes(filters);
        var collectorOptions := CollectorOptions(metricTypePrefixes, metricsExtraFilters);
        if !newCollectorSucceeds(project, collectorOptions) {
          CollectorsFailureSticks(projectIDs, i + 1, options, newCollectorSucceeds);
          return CollectorInitFailed(project);
        }
        registry := registry + [MonitoringCollector(project, collectorOptions)];
      }
      assert projectIDs[..|projectIDs|] == projectIDs;

      var gatherers := [RequestRegistry];
      if additionalGatherer.Some? {
        gatherers := [Additional(additionalGatherer.value), RequestRegistry];
      }
      return Ok(ScrapePlan(registry, gatherers));
    }

    /** filterMetricTypePrefixes(filters): the configured list itself when
        there are no filters, otherwise the configured prefixes in the set,
        in configured order.  The configured list is not changed. */
    method FilterMetricTypePrefixes(filters: set<string>) returns (filteredPrefixes: seq<string>)
      ensures |filters| == 0 ==> filteredPrefixes == metricsPrefixes
      ensures |filters| > 0 ==> filteredPrefixes == Selected(metricsPrefixes, filters)
    {
      filteredPrefixes := metricsPrefixes;
      if |filters| > 0 {
        filteredPrefixes := [];
        for i := 0 to |metricsPrefixes|
          invariant filteredPrefixes == Selected(metricsPrefixes[..i], filters)
        {
          var prefix := metricsPrefixes[i];
          assert metricsPrefixes[..i + 1][..i] == metricsPrefixes[..i];
          if prefix in filters {
            filteredPrefixes := filteredPrefixes + [prefix];
          }
        }
        assert metricsPrefixes[..|metricsPrefixes|] == metricsPrefixes;
      }
    }
  }
}
