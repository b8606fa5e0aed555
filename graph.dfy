/**
  The graph that the benchmark's path checker queries. The real graph type lives
  in an external crate; the checker only ever asks whether a directed pair of
  vertex indices is an edge, so the graph is modelled by its vertex count and
  an edge relation over ordered pairs (no symmetry is assumed).
 */
module Graphs {

  datatype Graph = Graph(n: nat, edges: set<(nat, nat)>) {

    /** Edge query. A pair with an index outside 0 .. n-1 is never an edge. */
    predicate HasEdge(u: nat, v: nat) {
      u < n && v < n && (u, v) in edges
    }
  }

  /** The vertex indices 0 .. n-1 of a graph with n vertices. */
  ghost function Range(n: nat): (r: set<nat>)
    ensures forall v: nat :: v in r <==> v < n
    ensures |r| == n
  {
    if n == 0 then {} else Range(n - 1) + {n - 1}
  }
}
