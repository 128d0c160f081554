# grafo.c in Dafny: lists, Lex-BFS, chordality, cliques and matchings

This project models the core of `grafo.c`, a small C graph library. It covers:

- the generic singly linked list (`lista`);
- the graph record with its vertex and edge marks, and the operations that build it (`insert_vertex`, `insert_edge`, `busca_vertice`, `check_head_tail`) or read it (`vizinhanca`, `grau`, `are_neighbors`);
- the label comparisons (`lbl_g`, `lbl_ge`) and the array heap keyed by labels (`heap_push`, `heap_pop`, `heap_sort`, `heapify`);
- the lexicographic breadth-first search (`busca_largura_lexicografica`), the perfect-elimination test (`ordem_perfeita_eliminacao` with `nxt_neighbor_r`) and the chordality test built on both (`cordal`);
- `clique` and `simplicial`;
- the augmenting-path matching: `get_path`, `caminho_aumentante`, `xor` and `emparelhamento_maximo`.

The model keeps the C program's shape. Each part is described below.

**Lists.** `Lista.List` is a class whose `primeiro` field and `Node.proximo` links are real heap references. A ghost `nodes` sequence, head first, describes them.

**Graph.** `Grafo.Graph` is a class. The fields the algorithms write are per-vertex and per-edge sequences: `vVisit`, `vIndex`, `vCovered`, `vLbl`, `eVisit` and `eCovered`. The structure of the graph is a `Shape` value that the algorithms only read. It holds the vertex list, the names, the out- and in-lists as edge numbers (head first) and the edge endpoints.

**Heap.** `Heap.LabelHeap` is a class over an `array<nat>` of vertex numbers with a `pos` fill counter. The labels it compares are passed in.

**Loops.** Each C loop is a `while` loop with invariants. The algorithms are `method`s proved against ghost specification functions and predicates. Lemmas then relate those specifications to the graph-theoretic meaning:

- the `Lex-BFS` output is closed under steps and holds every vertex reachable from the first vertex;
- the test's answer is equivalent to a perfect elimination ordering;
- a recursive search yields a simple walk that ends at an uncovered vertex;
- xor flips exactly the path's edges.

**Differences between the code and its description.** Where they differ, the model follows the code:

- `insert_edge` increments the vertex counter `g_nvertices`, not the edge counter (`Graph.nvert`).
- `Lex-BFS` writes each new label entry one slot past the label's first 0. With the zeroed labels of a graph read from a file, every label therefore keeps a 0 in front, and all labels compare as equal.
- `heap_pop`'s loop computes `l = L_CHILD(r)` from the previous pass's `r` on every pass. On the first pass `r` is uninitialised. Only then does it set `r = R_CHILD(k)`. So after a step down to a left child `k`, the next pass compares positions `R_CHILD(k)` and `R_CHILD(k) + 1`, not the children of `k`. For example, with 7 entries and the root moving to position 1, the next pass compares positions 4 and 5, not 3 and 4. The model follows the code as written, with the first pass's `r` as a parameter. The entries are still only permuted, and that is all the model states about the loop.

## Model

| member | source | states |
|---|---|---|
| Lista.List.constructor | grafo.c:191-202 | constroi_lista: a valid empty list |
| Lista.List.Size | grafo.c:166 | tamanho_lista: the counter equals the number of nodes and of payloads |
| Lista.List.First | grafo.c:172 | primeiro_no: null exactly for the empty list, otherwise the head node with the first payload |
| Lista.List.Next | grafo.c:184 | proximo_no: the node after `n` in list order, null after the last |
| Lista.List.Insert | grafo.c:241-253 | insere_lista: a fresh node becomes the head; payloads gain `c` in front and the counter grows by one |
| Lista.List.Remove | grafo.c:262-285 | remove_no: a node not in the list leaves everything unchanged and returns 0; a listed node is unlinked at its position, the payloads lose that entry, the counter drops by one, and the result is destroi's verdict or 1 |
| Lista.List.RemoveFirst | grafo.c:263-271 | remove_no's head case: the list loses its first node, and the result is destroi's verdict on it or 1 |
| Lista.List.UnlinkNext | grafo.c:273-281 | remove_no's inner case: the node after `n` is unlinked, and the result is destroi's verdict on it or 1 |
| Lista.List.Destroy | grafo.c:215-233 | destroi_lista: every node is detached in order, leaving the head null; the counter and the nodes' payloads and links are not written; the result is 0 exactly when some payload's destroi result has a clear low bit (the `&=` fold), otherwise 1 |
| Labels.CompareGreater | grafo.c:969-980 | lbl_g decides Greater: lexicographic comparison up to the first 0 |
| Labels.CompareAtLeast | grafo.c:983-993 | lbl_ge decides AtLeast: Greater or equal up to and including the first 0 |
| Labels.GreaterIrreflexive | grafo.c:969-980 | no label is lbl_g itself |
| Labels.Trichotomy | grafo.c:969-993 | any two labels are ordered one way, the other, or tied, and exactly one of these holds |
| Labels.GreaterTransitive | grafo.c:969-980 | lbl_g is transitive |
| Labels.AtLeastTransitive | grafo.c:983-993 | lbl_ge is transitive |
| Labels.NotAtLeast | grafo.c:969-993 | failing lbl_ge(x, y) means lbl_g(y, x) |
| Labels.ZeroHeadTie | grafo.c:969-993 | labels starting with 0 are tied under both comparisons |
| Heap.LabelHeap.constructor | grafo.c:949-958 | heap_alloc: an empty heap of capacity `n` |
| Heap.LabelHeap.Push | grafo.c:996-1015 | heap_push: a full heap is unchanged; otherwise the multiset gains `data`, and max order under lbl_ge is preserved |
| Heap.LabelHeap.SiftUp | grafo.c:1005-1014 | the sift-up loop permutes the heap and, from an order broken only at `z`, restores max order |
| Heap.SiftUpStep | grafo.c:1005-1014 | one exchange with the parent moves the only order violation up to the parent |
| Heap.LabelHeap.Pop | grafo.c:1018-1044 | heap_pop: None exactly for an empty heap; otherwise the old root is returned, the size drops by one, and the rest of the multiset is kept |
| Heap.LabelHeap.PopSift | grafo.c:1027-1041 | heap_pop's sift-down loop, as written (left child taken from the previous pass's right-child index), ends and only permutes the heap, whatever the uninitialised index holds |
| Heap.LabelHeap.SiftDown | grafo.c:1047-1066 | heap_sort: permutes v[0..pos), leaves the rest alone, and changes nothing when all labels tie |
| Heap.LabelHeap.Heapify | grafo.c:1069-1072 | heapify: a permutation of the heap, the identity when all labels tie |
| Heap.Swap | grafo.c:1011-1013 | the three-assignment exchange swaps two array entries |
| Grafo.Graph.constructor | grafo.c:441-444 | an empty undirected, unweighted graph with unique (no) names |
| Grafo.Graph.InsertVertex | grafo.c:369-379 | insert_vertex: a new vertex numbered after the others heads the vertex list, with empty lists and cleared marks; the vertex counter grows, and a fresh name keeps the names unique |
| Grafo.Graph.BuscaVertice | grafo.c:897-918 | busca_vertice: a found tail or head carries that name; with unique names, each is the vertex of that name when there is one, and none otherwise |
| Grafo.Find | grafo.c:897-918 | the first vertex carrying a name |
| Grafo.Graph.InsertEdge | grafo.c:381-395 | insert_edge: a new edge from the tail's vertex to the head's heads both vertices' out-lists; the vertex counter, not the edge counter, grows by one |
| Grafo.Graph.AddEdge | grafo.c:388-394 | the edge is added as WithEdge describes, and the graph stays well formed |
| Grafo.NewEdgeWellFormed | grafo.c:381-395 | adding an edge between two distinct vertices keeps every structural invariant |
| Grafo.NewVertexWellFormed | grafo.c:369-379 | adding a vertex keeps every structural invariant |
| Grafo.CheckHeadTail | grafo.c:808-819 | check_head_tail: the pair is kept or swapped, and swapped exactly when the head does not carry the name but the tail does; afterwards the head carries it whenever either did |
| Grafo.CheckHeadTailIdempotent | grafo.c:808-819 | applying check_head_tail twice is applying it once |
| Grafo.Graph.Vizinhanca | grafo.c:708-715 | vizinhanca: the in-list for direction -1, the out-list otherwise; every listed edge has `v` as an end |
| Grafo.Graph.Grau | grafo.c:727-734 | grau: the length of the list that vizinhanca returns |
| Grafo.Graph.AreNeighbors | grafo.c:642-655 | are_neighbors: true exactly when some out-edge of `v1` joins `v1` and `v2` in either direction |
| Grafo.AdjacentIsStep | grafo.c:642-655 | being are_neighbors is being one step away through an out-list |
| Grafo.AdjacentSymmetric | grafo.c:642-655 | in an undirected graph are_neighbors is symmetric |
| Grafo.Graph.MarkVertex | grafo.c:483 | setting one v_visitado changes that mark only |
| Grafo.Graph.MarkEdge | grafo.c:500 | setting one a_visitada changes that mark only |
| Grafo.Graph.SetIndex | grafo.c:553 | setting one v_index changes that index only |
| Grafo.Graph.SetCovered | grafo.c:418-427 | the covered marks are replaced and nothing else changes |
| Grafo.Graph.SetNoneVertexes | grafo.c:527-530 | set_none_vertexes: every vertex mark is cleared, nothing else changes |
| Grafo.Graph.SetNoneArestas | grafo.c:517-523 | set_none_arestas: every edge mark is cleared, nothing else changes |
| Grafo.ClosedHoldsReachable | grafo.c:469-513 | a vertex set closed under steps holds the end of every walk starting in it |
| Grafo.CountUpdate | grafo.c:483 | changing one mark changes the count of a state by at most the two entries involved |
| LexBfs.AppendLabel | grafo.c:489-493 | the label append: writes `rank` one slot past the label's first 0 and changes nothing else |
| LexBfs.AppendKeepsTie | grafo.c:489-493 | on a zero-headed label the append leaves it tied with every zero-headed label |
| LexBfs.FreshAppend | grafo.c:489-493 | the append keeps every label zero-headed and of its length |
| LexBfs.FreshLabelled | grafo.c:478-479 | zeroed labels of the graph's length hold a 0 and all tie |
| LexBfs.LabelFarEnd | grafo.c:489-493 | labelling a far end keeps the heap bookkeeping and touches no mark |
| LexBfs.PushFarEnd | grafo.c:495-499 | pushing an unmarked far end marks it visited and keeps the heap holding exactly the visited vertices |
| LexBfs.BookkeptPush | grafo.c:495-499 | a push of an unmarked vertex, then its mark, keeps the heap bookkeeping |
| LexBfs.SeeFarEnd | grafo.c:488-499 | the far end of an unseen edge is labelled unless inserted, and pushed and marked visited if it was unmarked; only that mark changes, and the inserted vertices stay the same |
| LexBfs.VisitEdge | grafo.c:486-501 | one out-edge step: the edge becomes seen, its far end is marked, and the inserted vertices stay the same |
| LexBfs.ExploredEdge | grafo.c:486-501 | after that step one more out-edge of the busy vertex is seen |
| LexBfs.VisitNeighbours | grafo.c:485-502 | the inner loop: every out-edge of the popped vertex is seen and its far end marked |
| LexBfs.Rebuild | grafo.c:503 | heapify keeps the state between pops |
| LexBfs.Explore | grafo.c:484-503 | inserting the popped vertex and visiting its out-edges restores the state between pops |
| LexBfs.Popped | grafo.c:481-484 | popping a vertex that is not yet inserted and marking it inserted extends the output and keeps the bookkeeping |
| LexBfs.PoppedMark | grafo.c:481-482 | a popped vertex is visited, or is the start vertex before the first pop, and leaves the heap |
| LexBfs.Take | grafo.c:482-504 | one pass of the outer loop: a new vertex joins the output and the rank drops by one |
| LexBfs.Round | grafo.c:481-505 | one iteration of the outer loop: an empty heap ends the search with no visited vertex left; otherwise one more vertex is inserted |
| LexBfs.BetweenStart | grafo.c:477-480 | after pushing the first vertex the search state holds |
| LexBfs.Drain | grafo.c:477-505 | the whole outer loop: the output lists distinct vertices, ends with the start vertex, is closed under steps, and holds exactly the vertices reachable from the start |
| LexBfs.Finished | grafo.c:481-505 | with no visited vertex left the output is complete, and each of its vertices is reachable from the start |
| LexBfs.ReachedFarEnd | grafo.c:486-499 | marking the far end of an out-edge of a marked vertex keeps every marked vertex reachable from the start |
| LexBfs.ReachedMark | grafo.c:483 | marking a vertex reachable from the start keeps every marked vertex reachable |
| Grafo.ReachableSelf | grafo.c:477-478 | the start vertex is reachable from itself |
| Grafo.ReachableStep | grafo.c:486-488 | a step along an out-edge from a reachable vertex reaches its far end |
| LexBfs.FinalClosure | grafo.c:481-505 | the output is closed under steps and holds every vertex reachable from the start |
| LexBfs.BuscaLarguraLexicografica | grafo.c:469-513 | busca_largura_lexicografica: the same output properties from the first vertex of the vertex list (the output is exactly the vertices reachable from it), with all marks cleared at the end, the labels still zero-headed, and the structure unchanged |
| Chordal.NxtNeighborR | grafo.c:922-935 | nxt_neighbor_r: none for an empty list; otherwise a listed vertex of least v_index, the first such |
| Chordal.Member | grafo.c:575-577 | the scan of l2 finds `x` exactly when it is listed |
| Chordal.RightMembers | grafo.c:549-562 | neighbors_r of position `i` holds exactly the out-neighbours at later positions |
| Chordal.RightScanMembers | grafo.c:554-560 | after `k` out-edges, the list holds exactly the far ends of those edges not at or before `i` |
| Chordal.Collect | grafo.c:550-561 | one pass of phase 1: marks the vertex, sets its index, and stores its later neighbours |
| Chordal.ScanRight | grafo.c:554-560 | the out-edge loop of phase 1: the far ends of `v`'s out-edges that are not at or before position `i`, in neighbors_r order |
| Chordal.SplitRight | grafo.c:549-562 | phase 1: v_index holds each vertex's position, and neighbors_r every position's later neighbours |
| Chordal.AllListed | grafo.c:571-586 | the loop over v's later neighbours passes exactly when every entry other than v2 is in l2 |
| Chordal.CheckOne | grafo.c:566-587 | the test at one vertex passes exactly when every later neighbour other than the nearest one is a later neighbour of the nearest one |
| Chordal.CheckAll | grafo.c:565-588 | phase 2 passes exactly when the test passes at every position |
| Chordal.PerfectIffCheck | grafo.c:538-596 | passing the nearest-neighbour test at every position is equivalent to being a perfect elimination ordering |
| Chordal.CliqueFrom | grafo.c:565-588 | under the test, the later neighbours of every position are pairwise adjacent |
| Chordal.NearestExists | grafo.c:922-935 | a vertex with a later neighbour has a nearest one |
| Chordal.OrdemPerfeitaEliminacao | grafo.c:538-596 | ordem_perfeita_eliminacao: 1 exactly when the list is a perfect elimination ordering; the vertex marks are cleared again |
| Chordal.SearchOrdering | grafo.c:739-744 | a duplicate-free list holding every vertex reachable from the start, in a graph where every vertex is, lists every vertex exactly once |
| Chordal.SearchOrder | grafo.c:739-744 | cordal's call of busca_largura_lexicografica: on a graph whose every vertex is reachable from the first, the order lists every vertex once and ends with the first vertex; the marks are cleared again and the labels stay zero-headed |
| Chordal.Cordal | grafo.c:739-748 | cordal: the Lex-BFS order lists every vertex once, and the answer is whether it is a perfect elimination ordering; every vertex and edge mark is cleared again, the labels stay zero-headed and the counter is kept, so a second call meets the same preconditions |
| Cliques.Clique | grafo.c:658-672 | clique: true exactly when every vertex of the list is are_neighbors with every vertex after it; lists of at most one vertex are cliques |
| Cliques.CliqueBothWays | grafo.c:636-641 | in an undirected graph a clique's vertices are pairwise adjacent both ways |
| Cliques.Simplicial | grafo.c:680-695 | simplicial: true exactly when the far ends of the out-edges of `v` form a clique |
| Cliques.FarEndsMembers | grafo.c:686-689 | the built list holds exactly the far ends of `v`'s out-edges |
| Matching.GetPath | grafo.c:346-367 | get_path: marks only ever become visited; on failure the path is untouched; on success it gains a chain of edges from `v` along distinct vertices, unmarked on entry, to an uncovered one |
| Matching.Search | grafo.c:353-366 | the out-edge loop of get_path, from a marked `v`: the same, with at least one edge |
| Matching.ChainCons | grafo.c:358-362 | a step along an out-edge onto a successful search from the far end is a successful search |
| Matching.MarkedCount | grafo.c:346-367 | marking never increases the number of unmarked vertices, which bounds the recursion |
| Matching.CaminhoAumentante | grafo.c:397-416 | caminho_aumentante: a path found is a non-empty chain along distinct vertices between two uncovered vertices, and at least one more vertex is marked; when none is found every mark is cleared |
| Matching.ChainEdgesDistinct | grafo.c:397-416 | a chain along distinct vertices uses distinct edges |
| Matching.XorMarks | grafo.c:418-427 | the xor loop on the marks: an edge's covered mark flips once per occurrence in the path, and a vertex becomes covered when some path edge touches it |
| Matching.Xor | grafo.c:418-427 | xor: the same on the graph's marks, with nothing else changed |
| Matching.OddOnce | grafo.c:418-427 | in a duplicate-free path an edge occurs an odd number of times exactly when it occurs |
| Matching.Flipped | grafo.c:418-427 | on an augmenting path, xor flips exactly the path's edges |
| Matching.Augment | grafo.c:436-439 | the first loop of emparelhamento_maximo ends, with every vertex mark cleared and no covered vertex losing its cover |
| Matching.CopyVertices | grafo.c:445-448 | the second loop: the result has the names in vertex-list order, unique, with cleared marks |
| Matching.CopiedNames | grafo.c:445-448 | every vertex name is copied and distinct names stay distinct |
| Matching.CopyEdge | grafo.c:455 | one insert_edge into the result, named like the copied edge |
| Matching.CopyOut | grafo.c:452-457 | the inner loop: copies, in order, the covered out-edges that start at `v` |
| Matching.CopyEdges | grafo.c:450-458 | the third loop: copies exactly the covered edges in vertex-list order |
| Matching.PickedOnce | grafo.c:450-458 | each covered edge is copied exactly once, from its origin, and no other edge is copied |
| Matching.EmparelhamentoMaximo | grafo.c:429-461 | emparelhamento_maximo: the result has the original's name and vertex names, and the covered edges, named end to end, as its edges |

## Left out

- Reading and writing graphs (`le_grafo`, `BuildListOfEdges`, `BuildListOfArrows`, `escreve_grafo`, the cgraph library): file I/O and a foreign library. The Lex-BFS and cordal contracts instead assume the state such a read leaves: all marks cleared and labels zeroed.
- Freeing memory (`destroi_grafo`, `destroi_vertice`, `destroi_aresta`, `heap_free`, the `free` calls in `destroi_lista` and `remove_no`): Dafny has no deallocation. After `Lista.List.Destroy` the list object still exists with a null head and its old counter, and is not used again.
- Allocation failure (`malloc` returning NULL in `constroi_lista` and `insere_lista`; `mymalloc` and `heap_alloc` exiting): allocation always succeeds in the model.
- `busca_aresta` and the accessors `nome_grafo`, `nome_vertice`, `direcionado` and `ponderado`: no core operation uses them. The graph's name and flags are plain fields.
- Integer widths: the `UINT` counters and `int` labels are unbounded `nat` and `int`, so a counter that wraps past 2^32 is not modelled.
- The lists that the algorithms only read (vertex list, adjacency lists) are sequence values inside `Shape`, not linked nodes. The neighbors_r lists of `ordem_perfeita_eliminacao` are sequence values in an `array`. Their node-by-node construction and aliasing are not modelled; the order of their entries is.
- Heap.LabelHeap.Pop: the uninitialised `r` of `heap_pop` is a `nat` parameter; a negative value would make the first pass read before the array. LexBfs.Round passes 0, and its contracts hold for any value.
- LexBfs.Explore: prepends the popped vertex to the output after visiting its out-edges rather than before. Neither the heap nor the graph reads the output list, so the final list is the same.
- Grafo.Graph.SetNoneVertexes: computes the cleared marks on a copy and writes them back once, so the order of the individual stores is not modelled. The same holds for Grafo.Graph.SetNoneArestas and Matching.Xor.
- Grafo.Graph.InsertEdge: requires `tail != head`, because self-loops would be listed twice in one out-list. The source accepts them.
- Grafo.Graph.InsertEdge: requires both names to be present, and the names unique. `busca_vertice` returning NULL would make the source dereference NULL.
- Lista.List.Remove: requires a non-empty list. On an empty list the source's scan dereferences the NULL head (`n->proximo`).
- Labels.CompareGreater: requires both labels to hold a 0, which the source reads past the end without. The same holds for Labels.CompareAtLeast.
- LexBfs.BuscaLarguraLexicografica: requires the state a freshly read graph has (all marks cleared, zeroed labels of the graph's length, at least one vertex). It does not state the order of the output beyond its being a closed, duplicate-free list ending with the start vertex. With zeroed labels every label ties, so the heap only decides the order among ties.
- Chordal.OrdemPerfeitaEliminacao: requires the list to hold every vertex exactly once. The source also runs on other lists.
- Chordal.Cordal: requires every vertex to be reachable from the first vertex of the vertex list, so that the Lex-BFS order holds every vertex. On a disconnected graph the source tests only the first component's order.
- Matching.EmparelhamentoMaximo: requires unique vertex names so the copied edges can be told apart by name. It does not claim the matching is maximum. It states which edges are copied and their endpoints, not the order of out-lists in the result.
- Matching.PickedOnce: assumes no out-list lists an edge twice, as holds for graphs built without self-loops.
- Matching.CaminhoAumentante: does not state that the returned walk alternates between covered and uncovered edges. The source does not check this either.
