/** One simulation run (`run_simulation`, simulate.py): resolve the entrypoints, give every known
    service its reliability under the failure probability and the replica overlay, score every
    endpoint's path, and summarise. Reading and writing files, the optional refresh of the graph from
    a tracing backend and the timestamp are not part of this model. */
module Simulation {
  import opened Wrappers
  import opened Text
  import opened Graph
  import opened Entrypoints
  import opened Reliability
  import opened OrderedSets
  import Overlay

  datatype EndpointResult = EndpointResult(services: seq<string>, reliability: real, snapshot: map<string, real>)

  datatype Summary = Summary(pfail: real, replicasFile: string, minReliability: real,
                             maxReliability: real, entrypointCount: nat, mode: string)

  datatype SimulationResult = SimulationResult(metadata: map<string, string>, summary: Summary,
                                               serviceReliability: map<string, real>,
                                               endpoints: map<string, EndpointResult>)

  datatype SimError = NegativePfail | GraphFailed(graphError: GraphError) | OverlayFailed(overlayError: Overlay.OverlayError)

  // ---------------------------------------------------------------------------------------------
  // Entrypoints

  /** Explicit entrypoints when the graph has any, the derived ones otherwise. */
  function ChosenEntrypoints(g: LoadedGraph): map<string, seq<string>>
  {
    if |g.entrypoints| > 0 then g.entrypoints else Derived(g.dependencies)
  }

  // ---------------------------------------------------------------------------------------------
  // The service-reliability map

  /** `m.setdefault(k, v)`. */
  function SetDefault(m: map<string, real>, k: string, v: real): map<string, real>
  {
    if k in m then m else m[k := v]
  }

  /** The reliability of service `s` under the overlay: an unlisted service has one replica. */
  function ReliabilityUnder(overlay: map<string, int>, pfail: real, s: string): real
  {
    ServiceReliability(pfail, Get(overlay, s, 1))
  }

  /** The map after the edges have been visited in order: each named end, parent first, is given
      its reliability unless it already has one. */
  function EdgeReliabilities(edges: seq<Edge>, overlay: map<string, int>, pfail: real): map<string, real>
  {
    if edges == [] then map[]
    else
      var m := EdgeReliabilities(edges[..|edges| - 1], overlay, pfail);
      var e := edges[|edges| - 1];
      var m1 := if Present(e.parent) then SetDefault(m, e.parent.value, ReliabilityUnder(overlay, pfail, e.parent.value)) else m;
      if Present(e.child) then SetDefault(m1, e.child.value, ReliabilityUnder(overlay, pfail, e.child.value)) else m1
  }

  /** The map after the overlay keys in `keys` have been visited: each one still missing is given
      the reliability of its own replica count. */
  function WithOverlayKeys(m: map<string, real>, overlay: map<string, int>, keys: set<string>, pfail: real): map<string, real>
    requires keys <= overlay.Keys
  {
    map k | k in m.Keys + keys :: if k in m then m[k] else ServiceReliability(pfail, overlay[k])
  }

  /** The finished service-reliability map. */
  function ServiceMap(edges: seq<Edge>, overlay: map<string, int>, pfail: real): map<string, real>
  {
    WithOverlayKeys(EdgeReliabilities(edges, overlay, pfail), overlay, overlay.Keys, pfail)
  }

  /** Does edge `e` name service `s` at one of its present ends? */
  predicate Names(e: Edge, s: string)
  {
    (Present(e.parent) && e.parent.value == s) || (Present(e.child) && e.child.value == s)
  }

  predicate Mentioned(edges: seq<Edge>, s: string)
  {
    exists i :: 0 <= i < |edges| && Names(edges[i], s)
  }

  /** One more overlay key visited. */
  lemma WithOverlayKeysStep(m: map<string, real>, overlay: map<string, int>, keys: set<string>, pfail: real, s: string)
    requires keys <= overlay.Keys && s in overlay
    ensures WithOverlayKeys(m, overlay, keys + {s}, pfail) ==
              SetDefault(WithOverlayKeys(m, overlay, keys, pfail), s, ServiceReliability(pfail, overlay[s]))
  {
    var a := WithOverlayKeys(m, overlay, keys + {s}, pfail);
    var b := SetDefault(WithOverlayKeys(m, overlay, keys, pfail), s, ServiceReliability(pfail, overlay[s]));
    assert a.Keys == b.Keys;
    forall k | k in a ensures a[k] == b[k] {
    }
  }

  /** The first loop: every present end of every edge, parent first, with `setdefault`. */
  method FillFromEdges(edges: seq<Edge>, overlay: map<string, int>, pfail: real) returns (sm: map<string, real>)
    ensures sm == EdgeReliabilities(edges, overlay, pfail)
  {
    sm := map[];
    for i := 0 to |edges|
      invariant sm == EdgeReliabilities(edges[..i], overlay, pfail)
    {
      assert edges[..i + 1][..i] == edges[..i];
      var parent := edges[i].parent;
      var child := edges[i].child;
      if Present(parent) {
        sm := SetDefault(sm, parent.value, ServiceReliability(pfail, Get(overlay, parent.value, 1)));
      }
      if Present(child) {
        sm := SetDefault(sm, child.value, ServiceReliability(pfail, Get(overlay, child.value, 1)));
      }
    }
    assert edges[..|edges|] == edges;
  }

  /** The second loop: every overlay service still missing, with its own replica count. */
  method FillFromOverlay(fromEdges: map<string, real>, overlay: map<string, int>, pfail: real) returns (sm: map<string, real>)
    ensures sm == WithOverlayKeys(fromEdges, overlay, overlay.Keys, pfail)
  {
    sm := fromEdges;
    var rest := overlay.Keys;
    assert WithOverlayKeys(fromEdges, overlay, {}, pfail) == fromEdges;
    while rest != {}
      invariant rest <= overlay.Keys
      invariant sm == WithOverlayKeys(fromEdges, overlay, overlay.Keys - rest, pfail)
      decreases rest
    {
      var service :| service in rest;
      ghost var done := overlay.Keys - rest;
      WithOverlayKeysStep(fromEdges, overlay, done, pfail, service);
      sm := SetDefault(sm, service, ServiceReliability(pfail, overlay[service]));
      rest := rest - {service};
      assert overlay.Keys - rest == done + {service};
    }
    assert overlay.Keys - rest == overlay.Keys;
  }

  /** The two loops that fill the map: the edges with `setdefault`, then the overlay keys. */
  method FillServiceReliability(edges: seq<Edge>, overlay: map<string, int>, pfail: real) returns (sm: map<string, real>)
    ensures sm == ServiceMap(edges, overlay, pfail)
  {
    var fromEdges := FillFromEdges(edges, overlay, pfail);
    sm := FillFromOverlay(fromEdges, overlay, pfail);
  }

  /** First-occurrence-wins never matters: the map holds exactly the services the edges name and the
      overlay lists, each with the reliability of its own replica count (one when unlisted). */
  lemma {:induction false} EdgeReliabilitiesShape(edges: seq<Edge>, overlay: map<string, int>, pfail: real, s: string)
    ensures s in EdgeReliabilities(edges, overlay, pfail) <==> Mentioned(edges, s)
    ensures s in EdgeReliabilities(edges, overlay, pfail) ==>
              EdgeReliabilities(edges, overlay, pfail)[s] == ReliabilityUnder(overlay, pfail, s)
  {
    if edges != [] {
      var init, e := edges[..|edges| - 1], edges[|edges| - 1];
      EdgeReliabilitiesShape(init, overlay, pfail, s);
      assert forall i :: 0 <= i < |init| ==> init[i] == edges[i];
      if Mentioned(edges, s) && !Names(e, s) {
        var i :| 0 <= i < |edges| && Names(edges[i], s);
        assert Names(init[i], s);
      }
      if Names(e, s) {
        assert Names(edges[|edges| - 1], s);
      }
    }
  }

  lemma ServiceMapShape(edges: seq<Edge>, overlay: map<string, int>, pfail: real, s: string)
    ensures s in ServiceMap(edges, overlay, pfail) <==> Mentioned(edges, s) || s in overlay
    ensures s in ServiceMap(edges, overlay, pfail) ==>
              ServiceMap(edges, overlay, pfail)[s] == ReliabilityUnder(overlay, pfail, s)
  {
    EdgeReliabilitiesShape(edges, overlay, pfail, s);
  }

  // ---------------------------------------------------------------------------------------------
  // Endpoint results

  /** Each service of the list with its reliability, 1.0 when it has none. */
  function Snapshot(services: seq<string>, sm: map<string, real>): (r: map<string, real>)
    ensures forall s :: s in r <==> s in services
    ensures forall s :: s in r ==> r[s] == Get(sm, s, 1.0)
  {
    map s | s in services :: Get(sm, s, 1.0)
  }

  function EndpointOf(services: seq<string>, sm: map<string, real>): EndpointResult
  {
    EndpointResult(services, PathReliabilityOf(services, sm), Snapshot(services, sm))
  }

  /** Scoring one endpoint's path against the service map. */
  function EndpointFor(sm: map<string, real>): seq<string> -> EndpointResult
  {
    services => EndpointOf(services, sm)
  }

  function EndpointResults(eps: map<string, seq<string>>, sm: map<string, real>): map<string, EndpointResult>
  {
    MapValues(eps, eps.Keys, EndpointFor(sm))
  }

  /** One endpoint's record: its services, their path reliability and the snapshot of their
      reliabilities. */
  method ScoreEndpoint(services: seq<string>, sm: map<string, real>) returns (record: EndpointResult)
    ensures record == EndpointFor(sm)(services)
  {
    var reliability := PathReliability(services, sm);
    record := EndpointResult(services, reliability, Snapshot(services, sm));
  }

  /** The endpoint loop. The source visits the endpoints in ascending name order; the order only
      decides the insertion order of a map whose keys are sorted on output, so any order is taken. */
  method EvaluateEndpoints(eps: map<string, seq<string>>, sm: map<string, real>) returns (results: map<string, EndpointResult>)
    ensures results == EndpointResults(eps, sm)
  {
    results := map[];
    var rest := eps.Keys;
    while rest != {}
      invariant rest <= eps.Keys
      invariant results == MapValues(eps, eps.Keys - rest, EndpointFor(sm))
      decreases rest
    {
      var endpoint :| endpoint in rest;
      var record := ScoreEndpoint(eps[endpoint], sm);
      ghost var done := eps.Keys - rest;
      MapValuesStep(eps, done, EndpointFor(sm), endpoint);
      results := results[endpoint := record];
      rest := rest - {endpoint};
      assert eps.Keys - rest == done + {endpoint};
    }
    assert eps.Keys - rest == eps.Keys;
  }

  // ---------------------------------------------------------------------------------------------
  // Summary

  predicate IsMinimum(v: real, results: map<string, EndpointResult>)
  {
    if results == map[] then v == 1.0
    else (forall e :: e in results ==> v <= results[e].reliability) &&
         exists e :: e in results && v == results[e].reliability
  }

  predicate IsMaximum(v: real, results: map<string, EndpointResult>)
  {
    if results == map[] then v == 1.0
    else (forall e :: e in results ==> results[e].reliability <= v) &&
         exists e :: e in results && v == results[e].reliability
  }

  /** `min(...)` and `max(...)` over the endpoint reliabilities, both 1.0 when there is none. */
  method Extremes(results: map<string, EndpointResult>) returns (lo: real, hi: real)
    ensures IsMinimum(lo, results) && IsMaximum(hi, results)
  {
    lo, hi := 1.0, 1.0;
    var rest := results.Keys;
    while rest != {}
      invariant rest <= results.Keys
      invariant rest == results.Keys ==> lo == 1.0 && hi == 1.0
      invariant rest != results.Keys ==>
                  (forall e :: e in results.Keys - rest ==> lo <= results[e].reliability <= hi) &&
                  (exists e :: e in results.Keys - rest && lo == results[e].reliability) &&
                  (exists e :: e in results.Keys - rest && hi == results[e].reliability)
      decreases rest
    {
      var e :| e in rest;
      var v := results[e].reliability;
      if rest == results.Keys {
        lo, hi := v, v;
      } else {
        if v < lo {
          lo := v;
        }
        if v > hi {
          hi := v;
        }
      }
      rest := rest - {e};
    }
    if results != map[] {
      assert results.Keys - rest == results.Keys;
    }
  }

  /** The mode tag: `norepl` exactly when the overlay file's stem, lower-cased, starts with it. */
  function ModeTag(replicasPath: string): (tag: string)
    ensures tag == "norepl" <==> StartsWith(Lower(Stem(replicasPath)), "norepl")
    ensures tag == "norepl" || tag == "repl"
  {
    if StartsWith(Lower(Stem(replicasPath)), "norepl") then "norepl" else "repl"
  }

  /** What a run produces from a loaded graph and a loaded overlay. */
  predicate Produces(g: LoadedGraph, overlay: map<string, int>, replicasPath: string, pfail: real, res: SimulationResult)
  {
    var sm := ServiceMap(g.dependencies, overlay, pfail);
    && res.metadata == g.metadata
    && res.serviceReliability == sm
    && res.endpoints == EndpointResults(ChosenEntrypoints(g), sm)
    && res.summary.pfail == pfail
    && res.summary.replicasFile == replicasPath
    && IsMinimum(res.summary.minReliability, res.endpoints)
    && IsMaximum(res.summary.maxReliability, res.endpoints)
    && res.summary.entrypointCount == |res.endpoints|
    && res.summary.mode == ModeTag(replicasPath)
  }

  /** `run_simulation` without its file and network effects: a negative failure probability is
      rejected first, then an unsupported graph, then a malformed overlay; otherwise the run
      produces the service map, the endpoint results and the summary. */
  method RunSimulation(doc: GraphDoc, overlayLines: seq<string>, replicasPath: string, pfail: real)
    returns (r: Result<SimulationResult, SimError>)
    ensures pfail < 0.0 ==> r == Failure(NegativePfail)
    ensures pfail >= 0.0 && doc.Unsupported? ==> r == Failure(GraphFailed(UnsupportedFormat))
    ensures pfail >= 0.0 && !doc.Unsupported? && Overlay.Load(overlayLines).Failure? ==>
              r == Failure(OverlayFailed(Overlay.Load(overlayLines).error))
    ensures r.Success? <==> pfail >= 0.0 && !doc.Unsupported? && Overlay.Load(overlayLines).Success?
    ensures r.Success? ==> Produces(LoadGraph(doc).value, Overlay.Load(overlayLines).value, replicasPath, pfail, r.value)
  {
    if pfail < 0.0 {
      return Failure(NegativePfail);
    }
    var loaded := LoadGraph(doc);
    if loaded.Failure? {
      return Failure(GraphFailed(loaded.error));
    }
    var graph := loaded.value;
    var entrypoints := graph.entrypoints;
    if |entrypoints| == 0 {
      entrypoints := DeriveEntrypoints(graph.dependencies);
    }
    var replicas := Overlay.LoadSimpleYaml(overlayLines);
    if replicas.Failure? {
      return Failure(OverlayFailed(replicas.error));
    }
    var sm := FillServiceReliability(graph.dependencies, replicas.value, pfail);
    var endpoints := EvaluateEndpoints(entrypoints, sm);
    var lo, hi := Extremes(endpoints);
    var mode := ModeTag(replicasPath);
    var summary := Summary(pfail, replicasPath, lo, hi, |endpoints|, mode);
    r := Success(SimulationResult(graph.metadata, summary, sm, endpoints));
  }

  // ---------------------------------------------------------------------------------------------
  // Properties of a run

  /** The summary's minimum never exceeds its maximum, and both are probabilities. */
  lemma SummaryOrdered(lo: real, hi: real, results: map<string, EndpointResult>)
    requires IsMinimum(lo, results) && IsMaximum(hi, results)
    requires forall e :: e in results ==> 0.0 <= results[e].reliability <= 1.0
    ensures 0.0 <= lo <= hi <= 1.0
  {
    if results != map[] {
      var e :| e in results && lo == results[e].reliability;
    }
  }

  /** Every endpoint result is a probability, so the summary of any run is ordered. */
  lemma RunSummaryOrdered(g: LoadedGraph, overlay: map<string, int>, replicasPath: string, pfail: real, res: SimulationResult)
    requires Produces(g, overlay, replicasPath, pfail, res)
    ensures 0.0 <= res.summary.minReliability <= res.summary.maxReliability <= 1.0
  {
    SummaryOrdered(res.summary.minReliability, res.summary.maxReliability, res.endpoints);
  }

  /** Each endpoint's snapshot lists exactly its services with their reliabilities, and its score is
      the path reliability of its services. */
  lemma EndpointRecord(eps: map<string, seq<string>>, sm: map<string, real>, e: string)
    requires e in eps
    ensures e in EndpointResults(eps, sm)
    ensures EndpointResults(eps, sm)[e].services == eps[e]
    ensures EndpointResults(eps, sm)[e].reliability == PathReliabilityOf(eps[e], sm)
    ensures forall s :: s in EndpointResults(eps, sm)[e].snapshot <==> s in eps[e]
  {
  }

  /** One edge `A -> B`, two replicas of `B`, failure probability one half: `A` is up half the time,
      `B` three times in four, and the derived endpoint `/A` three times in eight. */
  lemma TwoServiceScenario()
    ensures var edges := [Edge(Some("A"), Some("B"))];
            var sm := ServiceMap(edges, map["A" := 1, "B" := 2], 0.5);
            && sm == map["A" := 0.5, "B" := 0.75]
            && Derived(edges) == map["/A" := ["A", "B"]]
            && PathReliabilityOf(["A", "B"], sm) == 0.375
  {
    var edges := [Edge(Some("A"), Some("B"))];
    ScenarioServiceMap(edges);
    assert edges[..0] == [];
    assert "/" + "A" == "/A";
    assert AppendNew([], "A") == ["A"];
    assert "B" != "A";
    assert AppendNew(["A"], "B") == ["A", "B"];
    assert Derived(edges) == map["/A" := ["A", "B"]];
    ScenarioPath(map["A" := 0.5, "B" := 0.75]);
  }

  lemma ScenarioServiceMap(edges: seq<Edge>)
    requires edges == [Edge(Some("A"), Some("B"))]
    ensures ServiceMap(edges, map["A" := 1, "B" := 2], 0.5) == map["A" := 0.5, "B" := 0.75]
  {
    var overlay := map["A" := 1, "B" := 2];
    var m := map["A" := 0.5, "B" := 0.75];
    HalfFailingService();
    assert edges[..0] == [];
    assert "B" != "A";
    assert Get(overlay, "A", 1) == 1 && Get(overlay, "B", 1) == 2;
    assert ReliabilityUnder(overlay, 0.5, "A") == 0.5;
    assert ReliabilityUnder(overlay, 0.5, "B") == 0.75;
    assert SetDefault(map[], "A", 0.5) == map["A" := 0.5];
    assert SetDefault(map["A" := 0.5], "B", 0.75) == m;
    assert EdgeReliabilities(edges, overlay, 0.5) == m;
    assert overlay.Keys == {"A", "B"} == m.Keys;
    assert WithOverlayKeys(m, overlay, {"A", "B"}, 0.5) == m;
  }

  lemma ScenarioPath(sm: map<string, real>)
    requires sm == map["A" := 0.5, "B" := 0.75]
    ensures PathReliabilityOf(["A", "B"], sm) == 0.375
  {
    var a, b: string := "A", "B";
    assert a != b;
    assert Get(sm, a, 1.0) == 0.5 && Get(sm, b, 1.0) == 0.75;
    ProductAppend([], a, sm);
    assert [] + [a] == [a];
    ProductAppend([a], b, sm);
    assert [a] + [b] == [a, b];
    DedupOfDistinct([a, b]);
  }
}
