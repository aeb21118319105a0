/** The dependency graph as the simulator reads it (`_load_graph`, simulate.py): either a bare list
    of parent/child edges, or an object that carries the edges, optional explicit entrypoints and
    free-form metadata. JSON decoding is not modelled; documents arrive already decoded. */
module Graph {
  import opened Wrappers

  /** One dependency record. A field missing from the record is `None`. */
  datatype Edge = Edge(parent: Option<string>, child: Option<string>)

  /** Python truthiness of an optional name: present and not the empty string. */
  predicate Present(o: Option<string>)
  {
    o.Some? && o.value != ""
  }

  /** A decoded graph document. For an object, `dependencies` and `entrypoints` are its two
      structured members (`None` when absent) and `others` holds every top-level member, those two
      included, with its value kept as opaque text. `Unsupported` is any document that is neither a
      list nor an object. */
  datatype GraphDoc =
    | EdgeList(edges: seq<Edge>)
    | GraphObject(dependencies: Option<seq<Edge>>,
                  entrypoints: Option<map<string, seq<string>>>,
                  others: map<string, string>)
    | Unsupported

  datatype GraphError = UnsupportedFormat

  datatype LoadedGraph = LoadedGraph(dependencies: seq<Edge>,
                                     entrypoints: map<string, seq<string>>,
                                     metadata: map<string, string>)

  /** The two members of an object document that are not metadata. */
  predicate Reserved(k: string)
  {
    k == "dependencies" || k == "entrypoints"
  }

  /** `_load_graph` after decoding: a list is the edge list itself with no entrypoints and no
      metadata; an object contributes its edges (default none), its entrypoints (default none) and
      every other member as metadata; anything else is rejected. */
  function LoadGraph(doc: GraphDoc): (r: Result<LoadedGraph, GraphError>)
    ensures r.Failure? <==> doc.Unsupported?
    ensures r.Success? ==> forall k :: k in r.value.metadata ==> !Reserved(k)
    ensures doc.EdgeList? ==> r == Success(LoadedGraph(doc.edges, map[], map[]))
    ensures doc.GraphObject? ==>
              && r.value.dependencies == doc.dependencies.GetOr([])
              && r.value.entrypoints == doc.entrypoints.GetOr(map[])
              && (forall k :: k in r.value.metadata <==> k in doc.others && !Reserved(k))
              && forall k :: k in r.value.metadata ==> r.value.metadata[k] == doc.others[k]
  {
    match doc
    case EdgeList(edges) => Success(LoadedGraph(edges, map[], map[]))
    case GraphObject(deps, eps, others) =>
      var metadata := map k | k in others && !Reserved(k) :: others[k];
      Success(LoadedGraph(deps.GetOr([]), eps.GetOr(map[]), metadata))
    case Unsupported => Failure(UnsupportedFormat)
  }
}
