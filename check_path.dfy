/**
  The benchmark's path checker. Given a graph, a candidate path (a vector of
  vertex indices), a start vertex, an end vertex and a target length (counted
  in vertices), it panics unless the path has that length, starts at `start`,
  ends at `end`, steps only along edges of the graph and repeats no vertex.
 */
module PathCheck {
  import opened Graphs
  import opened SortDedup

  /**
    The outcome of one run of the checker: `Accepted` when it returns normally,
    otherwise the assertion that panicked first.
   */
  datatype Verdict =
    | Accepted
    | LengthMismatch         // `path.len() != length`
    | EmptyPath              // `path.first().unwrap()` on an empty path
    | WrongStart             // first entry is not `start`
    | WrongEnd               // last entry is not `end`
    | MissingEdge(index: nat) // no edge from `path[index]` to `path[index + 1]`
    | RepeatedVertex         // the de-duplicated sorted copy is shorter than the path

  /** Consecutive entries are joined by an edge, in path order. */
  predicate StepsAreEdges(g: Graph, path: seq<nat>) {
    forall i :: 0 <= i < |path| - 1 ==> g.HasEdge(path[i], path[i + 1])
  }

  /** The path is non-empty and runs from `start` to `end`. */
  predicate Endpoints(path: seq<nat>, start: nat, end: nat) {
    |path| > 0 && path[0] == start && path[|path| - 1] == end
  }

  /** A simple path of exactly `length` vertices from `start` to `end` in `g`. */
  predicate ValidPath(g: Graph, path: seq<nat>, start: nat, end: nat, length: nat) {
    && |path| == length
    && Endpoints(path, start, end)
    && StepsAreEdges(g, path)
    && Distinct(path)
  }

  /**
    Runs the checks in the source's order. The path is only read (the method
    may modify nothing) and the uniqueness test runs on a fresh copy.
   */
  method CheckPath(g: Graph, path: array<nat>, start: nat, end: nat, length: nat)
    returns (r: Verdict)
    ensures r == Accepted <==> ValidPath(g, path[..], start, end, length)
    ensures r == LengthMismatch <==> path.Length != length
    ensures r == EmptyPath <==> path.Length == length == 0
    ensures r == WrongStart <==> path.Length == length > 0 && path[0] != start
    ensures r == WrongEnd <==>
      path.Length == length > 0 && path[0] == start && path[path.Length - 1] != end
    ensures r.MissingEdge? <==>
      path.Length == length && Endpoints(path[..], start, end) && !StepsAreEdges(g, path[..])
    ensures r.MissingEdge? ==>
      && r.index < path.Length - 1
      && !g.HasEdge(path[r.index], path[r.index + 1])
      && forall i :: 0 <= i < r.index ==> g.HasEdge(path[i], path[i + 1])
    ensures r == RepeatedVertex <==>
      && path.Length == length && Endpoints(path[..], start, end)
      && StepsAreEdges(g, path[..]) && !Distinct(path[..])
  {
    if path.Length != length {
      return LengthMismatch;
    }
    if path.Length == 0 {
      return EmptyPath;
    }
    if path[0] != start {
      return WrongStart;
    }
    if path[path.Length - 1] != end {
      return WrongEnd;
    }

    for index := 0 to path.Length - 1
      invariant forall i :: 0 <= i < index ==> g.HasEdge(path[i], path[i + 1])
    {
      if !g.HasEdge(path[index], path[index + 1]) {
        return MissingEdge(index);
      }
    }

    var unique := new nat[path.Length](i requires 0 <= i < path.Length reads path => path[i]);
    assert unique[..] == path[..];
    SortInPlace(unique);
    ghost var sorted := unique[..];
    var uniqueLen := Dedup(unique);
    UniqueLengthIffDistinct(path[..], sorted);
    if path.Length != uniqueLen {
      return RepeatedVertex;
    }
    return Accepted;
  }

  /**
    A path of two or more vertices that passes the checker uses only vertices
    of the graph, all different, so it cannot be longer than the vertex count.
   */
  lemma AcceptedPathFitsGraph(g: Graph, path: seq<nat>, start: nat, end: nat, length: nat)
    requires ValidPath(g, path, start, end, length) && length >= 2
    ensures length <= g.n
  {
    forall v | v in Elements(path) ensures v in Range(g.n) {
      var i :| 0 <= i < |path| && path[i] == v;
      if i < |path| - 1 {
        assert g.HasEdge(path[i], path[i + 1]);
      } else {
        assert g.HasEdge(path[i - 1], path[i]);
      }
    }
    ElementsCardIffDistinct(path);
    var used, all := Elements(path), Range(g.n);
    assert all == used + (all - used) && used * (all - used) == {};
  }

  /** The one-vertex path `[v]` needs no edge: it passes exactly when `start == end == v`. */
  lemma SingleVertexPath(g: Graph, v: nat, start: nat, end: nat)
    ensures ValidPath(g, [v], start, end, 1) <==> start == v && end == v
  {
  }
}
