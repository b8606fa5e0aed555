# fls-bench path checker

fls-bench compares two searches for a simple path of an exact length between
two vertices of a random graph. The searches are Yen's deviation search and a
pruned backtracking search called "fls". Before the benchmark uses a path that
either search returns, the path goes through the checker `check_path`. That
checker is what this project models.

`check_path(graph, path, start, end, length)` panics unless all of these hold:
- the path has `length` entries;
- it is non-empty, and its first entry is `start` and its last is `end`;
- each consecutive pair `(path[i], path[i+1])` is an edge according to
  `graph.has_edge`;
- no vertex repeats.

It tests the last point by cloning the path, sorting the clone and running
`dedup` on it. It then compares the length of the result with the path's length.

The project has three modules:

- `Graphs` (graph.dfy): the graph as a vertex count `n` and a set of ordered
  pairs. `HasEdge(u, v)` holds when both indices are below `n` and the pair is in
  the set. No symmetry is assumed, because the checker only asks about pairs in
  path order.
- `SortDedup` (sort_dedup.dfy): the in-place `sort` (an insertion sort on an
  array) and the in-place `dedup`. `dedup` compacts the array and returns the new
  length, which stands in for the vector's truncation. `DedupSeq` is the
  specification of `dedup`. The lemmas show that the length after sort and dedup
  equals the path's length exactly when the path's entries are pairwise distinct.
- `PathCheck` (check_path.dfy): the pure predicate `ValidPath` and the method
  `CheckPath`. The method follows the source's order of assertions and returns a
  `Verdict`. `Accepted` means the source returns normally. Every other value
  names the assertion that panics first.

The path is an `array<nat>` and `CheckPath` has no `modifies` clause, so the
verifier itself guarantees that the path is left unchanged. The graph is an
immutable value. The uniqueness test works on a freshly allocated copy, as the
source's `path.clone()` does.

Vertex indices and lengths are `usize` in the source and `nat` here. The only
arithmetic involved is `path.len() - 1` and `index + 1`. Both are guarded: the
path is known to be non-empty there, and `index` is below the length. So no
wrap-around can happen and none is modelled.

The external crate's behaviour for out-of-range indices in `has_edge` is not
known: it may return false or panic. Either way the checker's assertion fails.
So here `HasEdge` is simply false for such pairs, and the verdict is the same
under both policies.

## Model

| member | source | states |
|---|---|---|
| `PathCheck.CheckPath` | src/main.rs:16-40 | The checker accepts exactly when `ValidPath` holds: the length is `length`, the path is non-empty, it runs from `start` to `end`, every step is an edge, and no vertex repeats. When it rejects, the verdict names the first assertion that fails, and each failure kind is stated in both directions. `MissingEdge(i)` names the first step without an edge. The empty path is always rejected, as `EmptyPath` when `length == 0`. The path is not modified. |
| `PathCheck.AcceptedPathFitsGraph` | src/main.rs:23-39 | An accepted path with two or more vertices uses only vertices of the graph and repeats none, so its length is at most the vertex count. |
| `PathCheck.SingleVertexPath` | src/main.rs:27-30 | A one-vertex path needs no edge. `[v]` with length 1 is accepted exactly when `start == end == v`. |
| `SortDedup.SortInPlace` | src/main.rs:35 | After sorting, the array is in non-decreasing order and is a permutation of its old contents. |
| `SortDedup.Dedup` | src/main.rs:36 | The prefix that is kept, of the returned length, equals `DedupSeq` of the old contents. It is never longer than the array. |
| `SortDedup.DedupSeq` | src/main.rs:36 | Collapsing runs never makes a sequence longer, and it keeps the last entry of a non-empty sequence. |
| `SortDedup.DedupElements` | src/main.rs:36 | Dedup keeps exactly the set of entries it was given. |
| `SortDedup.DedupSortedIncreasing` | src/main.rs:34-36 | Dedup of a sorted sequence is strictly increasing. |
| `SortDedup.PermutationElements` | src/main.rs:33-35 | A permutation, such as the sorted clone, has the same length and the same set of entries as the original. |
| `SortDedup.SortDedupIsElementSet` | src/main.rs:33-36 | Sorting a copy of the path and then deduplicating it gives a strictly increasing sequence with the same set of entries as the path. |
| `SortDedup.ElementsCardIffDistinct` | src/main.rs:37-39 | A sequence has at most as many distinct entries as positions. The two numbers are equal exactly when the entries are pairwise distinct. |
| `SortDedup.UniqueLengthIffDistinct` | src/main.rs:32-39 | The deduplicated sorted copy has the path's length if and only if the path's entries are pairwise distinct. So the length comparison detects repeated vertices exactly. |

## Left out

- `main` (src/main.rs:42-155): benchmark orchestration. It does wall-clock timing, `test::black_box`, seeded shuffling of the algorithm order, float densities and time averages, and writes the results to files. All of that is I/O, clocks, randomness and floating point.
- `yen::yen` and `fls::fls`: their source files (src/yen.rs, src/fls.rs) are not part of this model. So nothing is claimed about the paths they return. This includes the fact that `yen` takes the graph by mutable reference.
- `Graph::new`, `fill_undirected`, `clear` and the internals of `has_edge`: they belong to the external `graphs` crate, whose source is not part of this model. `fill_undirected` is also a randomized fill driven by floats. Only the edge query is modelled, as a set of ordered pairs.
- `SortDedup.SortInPlace`: the standard library's `sort` is a stable merge sort, modelled here as an insertion sort. Only its result (sorted, and a permutation) is specified, and for plain integers that result is unique.
- Panic messages and the non-local control flow of a panic are not modelled. A panic is represented by the returned `Verdict`.
