/** The fallback entrypoints (`_derive_entrypoints`, simulate.py): when the graph names no
    entrypoints, every parent of a complete edge becomes a pseudo-endpoint `"/" + parent` whose
    service list collects, without repeats and in first-seen order, the parent and the children it
    calls. */
module Entrypoints {
  import opened Wrappers
  import opened OrderedSets
  import opened Graph

  /** An edge that names both ends; any other edge is skipped. */
  predicate ValidEdge(e: Edge)
  {
    Present(e.parent) && Present(e.child)
  }

  function EndpointKey(e: Edge): string
    requires e.parent.Some?
  {
    "/" + e.parent.value
  }

  /** The entrypoints map after the given edges have been visited in order. */
  function Derived(edges: seq<Edge>): map<string, seq<string>>
  {
    if edges == [] then map[]
    else
      var m := Derived(edges[..|edges| - 1]);
      var e := edges[|edges| - 1];
      if !ValidEdge(e) then m
      else
        var k := EndpointKey(e);
        m[k := AppendNew(AppendNew(Get(m, k, []), e.parent.value), e.child.value)]
  }

  /** `_derive_entrypoints`: one pass over the edges, growing the list of each endpoint with
      "append if not already present". */
  method DeriveEntrypoints(edges: seq<Edge>) returns (eps: map<string, seq<string>>)
    ensures eps == Derived(edges)
  {
    eps := map[];
    for i := 0 to |edges|
      invariant eps == Derived(edges[..i])
    {
      assert edges[..i + 1][..i] == edges[..i];
      var parent := edges[i].parent;
      var child := edges[i].child;
      if !Present(parent) || !Present(child) {
        continue;
      }
      var key := "/" + parent.value;
      if key !in eps {
        eps := eps[key := []];
      }
      if parent.value !in eps[key] {
        eps := eps[key := eps[key] + [parent.value]];
      }
      if child.value !in eps[key] {
        eps := eps[key := eps[key] + [child.value]];
      }
    }
    assert edges[..|edges|] == edges;
  }

  // ---------------------------------------------------------------------------------------------
  // What each endpoint collects

  /** Does edge `e` feed endpoint `k` with service `s`? */
  predicate Feeds(e: Edge, k: string, s: string)
  {
    ValidEdge(e) && EndpointKey(e) == k && (s == e.parent.value || s == e.child.value)
  }

  /** Every service that the edges offer to endpoint `k`, repeats included, in visiting order. */
  function Contributions(edges: seq<Edge>, k: string): seq<string>
  {
    if edges == [] then []
    else
      var e := edges[|edges| - 1];
      Contributions(edges[..|edges| - 1], k) + (if ValidEdge(e) && EndpointKey(e) == k then [e.parent.value, e.child.value] else [])
  }

  /** What is offered to `k` is exactly what the edges feeding `k` name. */
  lemma {:induction false} ContributionsMembers(edges: seq<Edge>, k: string, s: string)
    ensures s in Contributions(edges, k) <==> exists i :: 0 <= i < |edges| && Feeds(edges[i], k, s)
  {
    if edges != [] {
      var init, e := edges[..|edges| - 1], edges[|edges| - 1];
      ContributionsMembers(init, k, s);
      assert forall i :: 0 <= i < |init| ==> init[i] == edges[i];
      if exists i :: 0 <= i < |edges| && Feeds(edges[i], k, s) {
        var i :| 0 <= i < |edges| && Feeds(edges[i], k, s);
        if i < |init| {
          assert Feeds(init[i], k, s);
        }
      }
    }
  }

  /** One more edge, feeding endpoint `k`: its list grows by the parent, then the child. */
  lemma DerivedStep(edges: seq<Edge>, k: string)
    requires edges != [] && ValidEdge(edges[|edges| - 1]) && EndpointKey(edges[|edges| - 1]) == k
    requires Get(Derived(edges[..|edges| - 1]), k, []) == Dedup(Contributions(edges[..|edges| - 1], k))
    ensures k in Derived(edges) && Contributions(edges, k) != []
    ensures Derived(edges)[k] == Dedup(Contributions(edges, k))
  {
    var init, e := edges[..|edges| - 1], edges[|edges| - 1];
    var c0, p, c := Contributions(init, k), e.parent.value, e.child.value;
    assert Contributions(edges, k) == (c0 + [p]) + [c];
    DedupAppend(c0 + [p], c);
    DedupAppend(c0, p);
  }

  /** The list of endpoint `k` is the deduplication of everything offered to it, and the endpoint
      exists exactly when something was offered. */
  lemma {:induction false} DerivedIsDedup(edges: seq<Edge>, k: string)
    ensures k in Derived(edges) <==> Contributions(edges, k) != []
    ensures k in Derived(edges) ==> Derived(edges)[k] == Dedup(Contributions(edges, k))
  {
    if edges != [] {
      var init, e := edges[..|edges| - 1], edges[|edges| - 1];
      DerivedIsDedup(init, k);
      if ValidEdge(e) && EndpointKey(e) == k {
        DerivedStep(edges, k);
      } else {
        assert Contributions(edges, k) == Contributions(init, k);
        assert k in Derived(edges) <==> k in Derived(init);
        assert k in Derived(init) ==> Derived(edges)[k] == Derived(init)[k];
      }
    }
  }

  /** An endpoint exists exactly for the parents of complete edges. */
  lemma EndpointKeys(edges: seq<Edge>, k: string)
    ensures k in Derived(edges) <==> exists i :: 0 <= i < |edges| && ValidEdge(edges[i]) && EndpointKey(edges[i]) == k
  {
    DerivedIsDedup(edges, k);
    var c := Contributions(edges, k);
    if exists i :: 0 <= i < |edges| && ValidEdge(edges[i]) && EndpointKey(edges[i]) == k {
      var i :| 0 <= i < |edges| && ValidEdge(edges[i]) && EndpointKey(edges[i]) == k;
      ContributionsMembers(edges, k, edges[i].parent.value);
    }
    if c != [] {
      ContributionsMembers(edges, k, c[0]);
    }
  }

  /** The list of an endpoint is duplicate-free, holds exactly the parents and children of the
      complete edges that feed it (so each such edge's parent and child are both in it), and lists
      them in the order in which they were first offered. */
  lemma EndpointServices(edges: seq<Edge>, k: string)
    requires k in Derived(edges)
    ensures Derived(edges)[k] == Dedup(Contributions(edges, k))
    ensures NoDuplicates(Derived(edges)[k])
    ensures forall s :: s in Derived(edges)[k] <==> exists i :: 0 <= i < |edges| && Feeds(edges[i], k, s)
    ensures forall i, j :: 0 <= i < j < |Derived(edges)[k]| ==>
              IndexOf(Contributions(edges, k), Derived(edges)[k][i]) < IndexOf(Contributions(edges, k), Derived(edges)[k][j])
  {
    DerivedIsDedup(edges, k);
    DedupFirstSeenOrder(Contributions(edges, k));
    forall s ensures s in Derived(edges)[k] <==> exists i :: 0 <= i < |edges| && Feeds(edges[i], k, s) {
      ContributionsMembers(edges, k, s);
    }
  }

  /** No complete edge, no entrypoint; in particular no edges give an empty map. */
  lemma NoEdgesNoEndpoints(edges: seq<Edge>)
    ensures Derived(edges) == map[] <==> forall i :: 0 <= i < |edges| ==> !ValidEdge(edges[i])
  {
    if exists i :: 0 <= i < |edges| && ValidEdge(edges[i]) {
      var i :| 0 <= i < |edges| && ValidEdge(edges[i]);
      EndpointKeys(edges, EndpointKey(edges[i]));
    }
    if Derived(edges) != map[] {
      var k :| k in Derived(edges);
      EndpointKeys(edges, k);
    }
  }
}
