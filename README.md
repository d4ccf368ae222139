# personal-algorithm-codex, modelled in Dafny

A model of the algorithm implementations in *personal-algorithm-codex*, with proofs of what each one computes:

- **LRU cache**: a dictionary of nodes over a doubly linked list with sentinels.
- **Prefix tree**: the second `Trie` of `string-algorithms/trie.py`.
- **Sorting**: top-down merge sort with sentinels, randomized quicksort with the Lomuto partition, and least-significant-digit radix sort.
- **Kadane's maximum subarray sum**: four variants.
- **Rabin-Karp substring search**.
- **Weighted graph**: `Vertex`/`Graph` with `add_vertex` and `add_edge`.
- **Traversals**: breadth-first traversal in four variants, and Dijkstra's shortest distances and paths.

Each source file becomes one module:

| file | module |
|---|---|
| `lru_cache.dfy` | `LruCache` |
| `trie.dfy` | `Tries` |
| `merge_sort.dfy` | `MergeSorting` |
| `quick_sort.dfy` | `QuickSorting` |
| `radix_sort.dfy` | `RadixSorting` |
| `kadane.dfy` | `Kadane` |
| `rabin_karp.dfy` | `RabinKarpSearch` |
| `graph.dfy` | `Graphs` (the `Vertex`/`Graph` classes that both graph files define with the same behaviour) |
| `bfs.dfy` | `BreadthFirst` |
| `dijkstra.dfy` | `DijkstraSearch` |

Three further files hold shared helpers:

- `sorted.dfy` (`Sortedness`): sortedness, in-place range updates, swapping.
- `arithmetic.dfy` (`Arithmetic`): modular arithmetic facts.
- `wrappers.dfy` (`Wrappers`): `Option`.

## How the source is modelled

**Code that updates objects in place becomes a class.**

- **LRU cache.** Nodes are real heap objects linked by `prev`/`next` fields. The cache holds `cache: map<int, Node>` and the `head`/`tail` sentinels. Its methods are proved against an abstract state: the recency order and the stored values. `AbstractGet` and `AbstractPut` define that state's get and put.
- **Graph.** The `Graph` class updates its `vertices` dictionary and `num_vertices` counter.
- **Trie.** The `Trie` class replaces its root.
- **Array sorts.** Merge sort and quicksort work in place on an `array<int>`. Each method's new array content is tied to a specification function of the old content, for example `SortedIn` or `Splice`.

**Loops become methods with invariants:**

- the hash loops of Rabin-Karp;
- Kadane's running maxima;
- radix sort's passes;
- the queue loops of the traversals.

**Pure recursion becomes functions:**

- the trie helpers;
- the merge of two runs, and merge sort's recursion on index ranges;
- polynomial hashes.

**Graph representation.**

- A vertex is a value holding three fields:
  - its key;
  - its neighbour keys, in insertion order (the order in which Python iterates `neighbors`);
  - a weight per neighbour key.
- A neighbour `Vertex` object is identified by its key.
- Walks, reachability, hop distance and walk weight are ghost definitions in `Graphs`. The traversals are proved against them.

**Python constructs.**

- `float('inf')` becomes a datatype constructor:
  - `Inf` of `Dist` in Dijkstra;
  - `Inf` of `Card`, the merge sentinel;
  - `NegInf` of `Running`, the starting maximum of the brute force.
- A deque becomes a sequence: `popleft` takes the head and `append` adds at the end.
- `heapq` becomes a multiset of `(distance, key)` entries. Each pop takes out an entry of least distance.
- `random.randint` becomes an arbitrary choice (`:|`).
- An exception becomes a `None` result where the source's caller can observe it (`radix_sort` and `get_max_digits` on `[]`). Otherwise it becomes a precondition.

## Model

| member | source | states |
|---|---|---|
| LruCache.GetSpec | trees-data-structures/LRU_cache.py:105-109 | get of an absent key returns -1 and changes nothing; of a present key returns its value and makes it the most recently used, other keys keeping their order and values |
| LruCache.PutWellFormed | trees-data-structures/LRU_cache.py:112-131 | put keeps every key once in the recency order, the order and the dictionary over the same keys, and never more entries than the capacity |
| LruCache.PutExisting | trees-data-structures/LRU_cache.py:122-124 | put of a present key overwrites only its value, moves it to the front, evicts nothing |
| LruCache.PutEvicts | trees-data-structures/LRU_cache.py:126-131 | put of a new key into a full cache drops exactly the least recently used key and puts the new one in front |
| LruCache.PutFresh | trees-data-structures/LRU_cache.py:126-131 | put of a new key into a cache with room prepends it and evicts nothing |
| LruCache.PutThenGet | trees-data-structures/LRU_cache.py:112-131 | get right after put of the same key returns the value just put |
| LruCache.ExampleTrace | trees-data-structures/LRU_cache.py:136-154 | the capacity-2 walk-through returns 1, -1, -1, 3, 4, then 2 after an overwrite |
| LruCache.Fill | trees-data-structures/LRU_cache.py:112-131 | any run of puts into an empty cache leaves it well formed, so it never holds more than `capacity` keys |
| LruCache.FillOrder | trees-data-structures/LRU_cache.py:125-131 | at most `capacity` distinct keys put into an empty cache are all kept, none evicted, with the last one put the most recently used |
| LruCache.FillValues | trees-data-structures/LRU_cache.py:125-131 | after that fill every key holds the value put under it |
| LruCache.GetAllAnswers | trees-data-structures/LRU_cache.py:93-109 | a run of gets changes no stored value and answers each key's value, or -1 for an absent key |
| LruCache.FillRoundTrip | trees-data-structures/LRU_cache.py:93-131 | filling an empty cache with at most `capacity` distinct keys and then getting them in any order answers each key's value, nothing evicted |
| LruCache.FillThenEvict | trees-data-structures/LRU_cache.py:127-129 | once `capacity` distinct keys fill the cache, a new key evicts the first key put and only that one |
| LruCache.CapacityOne | trees-data-structures/LRU_cache.py:125-131 | with capacity 1, `put(1, 1)` then `put(2, 2)` evicts key 1: get answers -1 for it and 2 for key 2 |
| LruCache.Node.constructor | trees-data-structures/LRU_cache.py:26-30 | a node holding the key and value given, with no links |
| LruCache.LRUCache.StateWellFormed | trees-data-structures/LRU_cache.py:40-48 | the linked list between the sentinels and the `cache` dictionary together satisfy the abstract invariant |
| LruCache.LRUCache.constructor | trees-data-structures/LRU_cache.py:33-48 | an empty cache: sentinels linked to each other, empty dictionary, empty abstract state |
| LruCache.LRUCache.AddToHead | trees-data-structures/LRU_cache.py:50-60 | the node becomes the first of the chain, the rest unchanged and still doubly linked |
| LruCache.LRUCache.RemoveNode | trees-data-structures/LRU_cache.py:62-69 | the node at position `i` leaves the chain, the others keep their order and links |
| LruCache.LRUCache.MoveToHead | trees-data-structures/LRU_cache.py:71-78 | the node at position `i` moves to the front, the others keep their relative order |
| LruCache.LRUCache.RemoveTail | trees-data-structures/LRU_cache.py:81-91 | the last node of the chain is unlinked and returned |
| LruCache.LRUCache.Refresh | trees-data-structures/LRU_cache.py:108 | moving a present key's node to the front is the abstract get's new state |
| LruCache.LRUCache.SetValue | trees-data-structures/LRU_cache.py:123 | only the value under that key changes |
| LruCache.LRUCache.Evict | trees-data-structures/LRU_cache.py:127-129 | the abstract state loses its least recently used key |
| LruCache.LRUCache.RemoveLru | trees-data-structures/LRU_cache.py:128-129 | the last node leaves the chain and its key leaves the index and the stored values; the returned node is the old last one |
| LruCache.LRUCache.LinkNew | trees-data-structures/LRU_cache.py:125-131 | a fresh node with the key and value is first in the chain and indexed under its key |
| LruCache.LRUCache.Insert | trees-data-structures/LRU_cache.py:126-131 | with room, the new key is prepended to the abstract order with its value |
| LruCache.LRUCache.Get | trees-data-structures/LRU_cache.py:93-109 | the result and the new abstract state are those of the abstract get |
| LruCache.LRUCache.Update | trees-data-structures/LRU_cache.py:122-124 | put of a present key moves the abstract state as the abstract put does |
| LruCache.LRUCache.Add | trees-data-structures/LRU_cache.py:125-131 | put of a new key (evicting first when full) moves the abstract state as the abstract put does |
| LruCache.LRUCache.Put | trees-data-structures/LRU_cache.py:112-131 | the new abstract state is the abstract put's, and the structure stays valid |
| Tries.NewNodeEmpty | string-algorithms/trie.py:75-78 | a fresh node holds no word and only the empty prefix can be followed from it |
| Tries.InsertThenSearch | string-algorithms/trie.py:87-106 | after inserting `w`, `v` is found exactly when `v == w` or `v` was found before |
| Tries.InsertThenStartsWith | string-algorithms/trie.py:87-94 | after inserting `w`, `p` can be followed exactly when it is a prefix of `w` or could be followed before |
| Tries.InsertIdempotent | string-algorithms/trie.py:87-94 | inserting the same word twice gives the same trie as inserting it once |
| Tries.Trie.constructor | string-algorithms/trie.py:81-82 | the new trie holds no words |
| Tries.Trie.Insert | string-algorithms/trie.py:84-85 | the set of words grows by exactly `word`; `search` and `starts_with` keep their meaning |
| Tries.Trie.Search | string-algorithms/trie.py:96-97 | true exactly for the inserted words |
| Tries.Trie.StartsWith | string-algorithms/trie.py:108-109 | true exactly for the empty string and the prefixes of inserted words |
| Tries.OverlappingWords | string-algorithms/trie.py:133-139 | with "app" and "apple" inserted, both are found, "appl" is not, "appl" is a prefix |
| Tries.EmptyWord | string-algorithms/trie.py:157-160 | the empty string, once inserted, is found and is a prefix |
| MergeSorting.MergedPermutation | sorting-and-searching/merge_sort.py:38-55 | the merge holds exactly the elements of both runs |
| MergeSorting.MergedSorted | sorting-and-searching/merge_sort.py:38-55 | merging two sorted runs gives a sorted run, headed by the smaller head |
| MergeSorting.Merge | sorting-and-searching/merge_sort.py:38-55 | `arr[p..r]` becomes the stable merge of `arr[p..q]` and `arr[q+1..r]`; the rest of the array is unchanged |
| MergeSorting.Mid | sorting-and-searching/merge_sort.py:64 | `(p + r) // 2` splits a range of two or more into two nonempty halves |
| MergeSorting.SortedRangeSorted | sorting-and-searching/merge_sort.py:57-67 | the merge sort of a range is sorted |
| MergeSorting.SortedRangePermutation | sorting-and-searching/merge_sort.py:57-67 | the merge sort of a range is a permutation of it |
| MergeSorting.SortedRangeFrame | sorting-and-searching/merge_sort.py:57-67 | sorting a range depends on that range only |
| MergeSorting.SortHalvesThenMerge | sorting-and-searching/merge_sort.py:63-67 | sorting the halves in place and merging them sorts the whole range in place |
| MergeSorting.MergeSort | sorting-and-searching/merge_sort.py:57-67 | the inclusive range `[p, r]` is replaced by its merge sort; the rest is unchanged |
| MergeSorting.Sort | sorting-and-searching/merge_sort.py:34-36 | returns the same array, now sorted and a permutation of its old contents |
| Sortedness.Swapped | sorting-and-searching/quick_sort_randomized.py:57 | exchanging two positions keeps every other position and the multiset |
| Sortedness.Swap | sorting-and-searching/quick_sort_randomized.py:57 | the array becomes `Swapped` of its old contents |
| QuickSorting.ScanStep | sorting-and-searching/quick_sort_randomized.py:54-57 | one scan step keeps the invariant: `arr[p..i]` at most the pivot, `arr[i+1..j-1]` above it |
| QuickSorting.ScanFinish | sorting-and-searching/quick_sort_randomized.py:59-60 | the final swap puts the pivot between the two parts |
| QuickSorting.Partition | sorting-and-searching/quick_sort_randomized.py:34-60 | returns `q` in `[p, r]` holding the old `arr[r]`, everything before it in range at most it, everything after above it; the range is permuted, the rest untouched |
| QuickSorting.PartitionRandomized | sorting-and-searching/quick_sort_randomized.py:28-31 | the same partition around an element of the range chosen arbitrarily |
| QuickSorting.SortAroundPivot | sorting-and-searching/quick_sort_randomized.py:23-26 | sorting both sides of a partition sorts the range |
| QuickSorting.QuickSort | sorting-and-searching/quick_sort_randomized.py:14-26 | `arr[p..r]` ends sorted and permuted, whatever pivots are chosen; the rest untouched |
| QuickSorting.Sort | sorting-and-searching/quick_sort_randomized.py:10-12 | returns the same array, now sorted and a permutation of its old contents |
| RadixSorting.GetDigitIsDecimalDigit | sorting-and-searching/radix_sort.py:9-13 | `get_digit` is the decimal digit of `num` at `position` (floor division and modulo) |
| RadixSorting.Max | sorting-and-searching/radix_sort.py:2 | the maximum is an element and bounds every element |
| RadixSorting.GetMaxDigits | sorting-and-searching/radix_sort.py:1-7 | `None` exactly for the empty list (where `max` fails); otherwise the number of decimal digits of the maximum, 0 when it is not positive |
| RadixSorting.CountingSortByDigit | sorting-and-searching/radix_sort.py:15-25 | the result is the ten digit buckets concatenated in digit order |
| RadixSorting.ByDigitPermutation | sorting-and-searching/radix_sort.py:15-25 | a pass is a permutation of its input |
| RadixSorting.ByDigitOrdered | sorting-and-searching/radix_sort.py:15-25 | a pass orders by the digit at `position` |
| RadixSorting.ByDigitStable | sorting-and-searching/radix_sort.py:15-25 | a pass keeps the relative order of elements with equal digits |
| RadixSorting.RadixPass | sorting-and-searching/radix_sort.py:30-31 | ordered on the last `i` digits before the pass on digit `i`, ordered on the last `i + 1` after it |
| RadixSorting.AllDigitsSorted | sorting-and-searching/radix_sort.py:27-32 | a non-negative list ordered on as many digits as its maximum has is sorted |
| RadixSorting.RadixSort | sorting-and-searching/radix_sort.py:27-32 | `None` exactly for the empty list; otherwise a permutation of the input, sorted when the input is non-negative |
| Kadane.MaxSubarrayUnique | dynamic-programming/Kadanes-algorithm.py:26-112 | the maximum subarray sum is unique, so the four variants agree |
| Kadane.NaiveStep | dynamic-programming/Kadanes-algorithm.py:37-39 | adding one more sum to the running maximum keeps it the best of the enumerated subarrays |
| Kadane.NaiveApproach | dynamic-programming/Kadanes-algorithm.py:26-40 | 0 on an empty list, otherwise the maximum sum of a nonempty contiguous subarray |
| Kadane.ExtendEnding | dynamic-programming/Kadanes-algorithm.py:64 | `max(best_ending + x, x)` is the best sum ending at the next index |
| Kadane.ExtendWithin | dynamic-programming/Kadanes-algorithm.py:65 | the better of the best so far and the best ending here is the best so far one index on |
| Kadane.KadaneBasic | dynamic-programming/Kadanes-algorithm.py:42-66 | 0 on an empty list, otherwise the maximum subarray sum |
| Kadane.KadaneWithIndices | dynamic-programming/Kadanes-algorithm.py:68-95 | `(0, -1, -1)` on an empty list; otherwise the maximum subarray sum with inclusive bounds of a subarray that attains it |
| Kadane.SeqMax | dynamic-programming/Kadanes-algorithm.py:112 | `max` of a nonempty list is an element and bounds every element |
| Kadane.BestOfEndings | dynamic-programming/Kadanes-algorithm.py:109-112 | the largest of the best sums ending at each index is the maximum subarray sum |
| Kadane.KadaneDpTable | dynamic-programming/Kadanes-algorithm.py:97-112 | 0 on an empty list, otherwise the maximum subarray sum |
| Kadane.AllNegative | dynamic-programming/Kadanes-algorithm.py:123-124 | with all elements negative the answer is the largest element |
| RabinKarpSearch.Hash | string-algorithms/rabin-karp-rolling-hash-string-search.py:58-60 | the hash lies in `[0, 101)` |
| RabinKarpSearch.RabinKarp.constructor | string-algorithms/rabin-karp-rolling-hash-string-search.py:32-34 | records the radix and modulus given |
| RabinKarpSearch.RabinKarp.Search | string-algorithms/rabin-karp-rolling-hash-string-search.py:36-86 | `[]` for an empty or too long pattern; otherwise exactly the start indices of the pattern in the text, increasing |
| RabinKarpSearch.HashMismatch | string-algorithms/rabin-karp-rolling-hash-string-search.py:72-75 | a window whose hash differs from the pattern's is not an occurrence, so skipping it loses nothing |
| RabinKarpSearch.PolyAgree | string-algorithms/rabin-karp-rolling-hash-string-search.py:72-74 | equal strings have equal polynomial values |
| RabinKarpSearch.PolyFront | string-algorithms/rabin-karp-rolling-hash-string-search.py:62-66 | the leading character weighs `256^(n-1)` |
| RabinKarpSearch.RollHash | string-algorithms/rabin-karp-rolling-hash-string-search.py:78-85 | the rolled hash is the hash of the next window |
| Graphs.AddNeighbor | graph-algorithms/breadth_first_search.py:36-38 | sets the weight to the neighbour; a new neighbour is appended, old ones keep their places |
| Graphs.Graph.constructor | graph-algorithms/breadth_first_search.py:52-55 | an empty graph, count 0, with the direction given |
| Graphs.Graph.AddVertex | graph-algorithms/breadth_first_search.py:57-63 | `None` and no change for an existing key; otherwise a fresh vertex stored under the key and the count one higher |
| Graphs.Graph.AddEdge | graph-algorithms/breadth_first_search.py:65-78 | the vertices become `WithEdge` of the old ones, and the graph stays well formed with the count equal to the number of vertices |
| Graphs.WithEdgeSteps | graph-algorithms/breadth_first_search.py:65-78 | `WithEdge` is the sequence of updates: both endpoints present, then one or two `add_neighbor` calls |
| Graphs.WithEdgeVertices | graph-algorithms/breadth_first_search.py:67-71 | after `add_edge` the vertices are the old ones plus both endpoints |
| Graphs.WithEdgeEdges | graph-algorithms/breadth_first_search.py:73-78 | after `add_edge` the edges are the old ones plus `from -> to`, and `to -> from` when undirected |
| Graphs.WithEdgeWeights | graph-algorithms/breadth_first_search.py:73-78 | the new edge has the given weight (both ways when undirected); other weights are unchanged |
| Graphs.WithEdgeOrder | graph-algorithms/breadth_first_search.py:73-78 | every old neighbour keeps its place in its vertex's list |
| Graphs.WithKeyEdges | graph-algorithms/breadth_first_search.py:57-63 | adding a vertex adds no edge |
| Graphs.LinkEffect | graph-algorithms/breadth_first_search.py:74 | one `add_neighbor` call creates exactly the edge `a -> b` with its weight |
| Graphs.WalkWeightNonNegative | graph-algorithms/dijkstra.py:10 | with non-negative weights no walk weighs less than zero |
| BreadthFirst.BFSTraversal.constructor | graph-algorithms/breadth_first_search.py:89-90 | stores the graph |
| BreadthFirst.Occupancy | graph-algorithms/breadth_first_search.py:110 | the queued and finished vertices are distinct vertices, so the loop ends |
| BreadthFirst.Pop | graph-algorithms/breadth_first_search.py:111 | taking the head of the queue keeps the traversal invariant and moves at most one level on |
| BreadthFirst.ScanNew | graph-algorithms/breadth_first_search.py:113-116 | a first-seen neighbour is one hop further than the current vertex and may be queued |
| BreadthFirst.ScanSeen | graph-algorithms/breadth_first_search.py:114 | skipping an already visited neighbour keeps the invariant |
| BreadthFirst.NewDistance | graph-algorithms/breadth_first_search.py:176-180 | `current_distance + 1` is the hop distance of the first-seen neighbour |
| BreadthFirst.VisitNext | graph-algorithms/breadth_first_search.py:110-116 | one dequeue-and-scan step keeps the invariant and only appends to the queue |
| BreadthFirst.Finish | graph-algorithms/breadth_first_search.py:110-117 | with the queue empty, the finished vertices are exactly the reachable ones, each once, in order of hop distance |
| BreadthFirst.BFSTraversal.BfsBasic | graph-algorithms/breadth_first_search.py:92-117 | `[]` for an absent start; otherwise every reachable key once, the start first, in order of hop distance |
| BreadthFirst.VisitLevel | graph-algorithms/breadth_first_search.py:141-152 | one round of `level_size` dequeues produces the next level and queues exactly the level after it |
| BreadthFirst.LevelsFinish | graph-algorithms/breadth_first_search.py:140-154 | with the queue empty, level `i` holds exactly the vertices `i` hops away, and every reachable vertex is in a level |
| BreadthFirst.BFSTraversal.BfsWithLevels | graph-algorithms/breadth_first_search.py:121-154 | `[]` for an absent start; otherwise `levels[i]` holds exactly the vertices at hop distance `i`, `levels[0] == [start]`, every reachable vertex is listed, no level is empty and no vertex is listed twice |
| BreadthFirst.BFSTraversal.BfsShortestDistances | graph-algorithms/breadth_first_search.py:156-181 | `{}` for an absent start; otherwise exactly the reachable keys, each mapped to its hop distance |
| BreadthFirst.ParentsAdd | graph-algorithms/breadth_first_search.py:211-215 | recording `parent[w] = current` keeps every parent one hop closer to the start |
| BreadthFirst.BackwardWalk | graph-algorithms/breadth_first_search.py:203-208 | a chain of parents read backwards is a walk |
| BreadthFirst.TracePath | graph-algorithms/breadth_first_search.py:203-209 | following parents from the end key and reversing gives a walk from the start with hop distance + 1 keys |
| BreadthFirst.Found | graph-algorithms/breadth_first_search.py:202-209 | a walk as long as the hop distance has the fewest edges |
| BreadthFirst.BFSTraversal.ShortestPath | graph-algorithms/breadth_first_search.py:183-217 | `[start]` when the keys are equal; otherwise `None` exactly when the end is unreachable, else a walk from start to end with the fewest edges |
| DijkstraSearch.InitialDistances | graph-algorithms/dijkstra.py:97-98 | a distance for every vertex (and the start) |
| DijkstraSearch.Init | graph-algorithms/dijkstra.py:96-102 | the initial distances (`INF` but the start at 0), the queue `[(0, start)]` and the empty visited set satisfy the search invariant |
| DijkstraSearch.PopMin | graph-algorithms/dijkstra.py:105 | `heappop` removes one entry of least distance |
| DijkstraSearch.LeastEntry | graph-algorithms/dijkstra.py:105 | a nonempty queue has an entry of least distance |
| DijkstraSearch.ExactOnPop | graph-algorithms/dijkstra.py:105-113 | a least entry of an unvisited vertex carries its current distance |
| DijkstraSearch.LeaveBound | graph-algorithms/dijkstra.py:104-124 | a walk leaving the visited set weighs at least the least unvisited distance |
| DijkstraSearch.SettleOnPop | graph-algorithms/dijkstra.py:104-113 | no walk to the popped unvisited vertex weighs less than its entry |
| DijkstraSearch.PopStale | graph-algorithms/dijkstra.py:107-109 | popping an entry of a visited vertex and skipping it keeps the invariant |
| DijkstraSearch.PopFresh | graph-algorithms/dijkstra.py:105-113 | visiting the popped vertex fixes its distance and keeps the invariant, with all its edges pending |
| DijkstraSearch.RelaxVisited | graph-algorithms/dijkstra.py:118-119 | skipping a visited neighbour keeps the invariant |
| DijkstraSearch.RelaxNoGain | graph-algorithms/dijkstra.py:121-122 | a neighbour not improved on keeps the invariant |
| DijkstraSearch.RelaxGain | graph-algorithms/dijkstra.py:121-124 | storing and queuing the improved distance keeps the invariant, with a witnessing walk through the current vertex |
| DijkstraSearch.LoweredOne | graph-algorithms/dijkstra.py:122-123 | a relaxation never increases a distance and leaves visited vertices alone |
| DijkstraSearch.RelaxEdge | graph-algorithms/dijkstra.py:117-124 | one neighbour's relaxation keeps the invariant, increases no distance and keeps visited distances |
| DijkstraSearch.RelaxNeighbors | graph-algorithms/dijkstra.py:117-124 | relaxing every edge of the current vertex keeps the invariant, increases no distance and keeps visited distances |
| DijkstraSearch.FinishFinite | graph-algorithms/dijkstra.py:104-125 | with the queue empty, the visited vertices are those with finite distance, each the least walk weight |
| DijkstraSearch.FinishUnreached | graph-algorithms/dijkstra.py:104-125 | with the queue empty, a vertex left at `INF` is unreachable |
| DijkstraSearch.DijkstraTraversal.constructor | graph-algorithms/dijkstra.py:83-84 | stores the graph |
| DijkstraSearch.DijkstraTraversal.DijkstraDistances | graph-algorithms/dijkstra.py:86-125 | `{}` for an absent start; otherwise a distance per vertex, 0 at the start, the least walk weight when finite, `INF` exactly when unreachable; each vertex processed at most once, exactly those with finite distance |
| DijkstraSearch.ParentedVisit | graph-algorithms/dijkstra.py:160 | visiting a vertex keeps every parent link pointing to a visited vertex along a tight edge |
| DijkstraSearch.ParentedGain | graph-algorithms/dijkstra.py:168-170 | `parent[v] = current` on an improvement keeps the parent links tight |
| DijkstraSearch.RelaxEdgeWithParent | graph-algorithms/dijkstra.py:163-171 | as `RelaxEdge`, also keeping the parent links |
| DijkstraSearch.RelaxNeighborsWithParents | graph-algorithms/dijkstra.py:163-171 | as `RelaxNeighbors`, also keeping the parent links |
| DijkstraSearch.TraceStep | graph-algorithms/dijkstra.py:151-154 | one more parent step extends the reversed path by an edge whose weight accounts for the distance difference |
| DijkstraSearch.TracePath | graph-algorithms/dijkstra.py:148-154 | the reversed parent chain is a walk from start to end weighing `distances[end]`, and `[start]` when end is the start |
| DijkstraSearch.DijkstraTraversal.ShortestPath | graph-algorithms/dijkstra.py:127-175 | `None` when either key is absent; `([start], 0)` when they are equal; otherwise `None` exactly when the end is unreachable, else a walk from start to end whose cost is its weight and the least walk weight |

## Left out

- `sorting-and-searching/bucket_sort.py` is not part of this model.
- The `__main__` drivers and their printing are left out. Three of their scenarios are proved instead: `LruCache.ExampleTrace`, `Tries.OverlappingWords` and `Tries.EmptyWord`.
- The first `TrieNode`/`Trie` in `trie.py` is left out, because the second definition shadows it.
- These accessors are left out: `get_connections`, `get_weight`, `get_vertices`, `__iter__` and `__str__`. The model reads a vertex's neighbour list and weights directly.
- Python's default arguments (`key=0` and `value=0` of `Node`, `directed=False`, `weight=1`, `base=256`, `prime=101`) are explicit parameters.
- Edge weights and distances are integers. The source also accepts floats, and floating-point arithmetic is not modelled.
- `heapq`'s heap layout is left out. Its ties between entries of equal distance are an arbitrary choice in `DijkstraSearch.PopMin`, so which least entry comes first is not fixed.
- The pivot that `random.randint` picks is an arbitrary choice. The probability distribution of the pivot is not modelled.
- Graph algorithms:
  - DijkstraSearch.DijkstraTraversal.DijkstraDistances: proved only for non-negative edge weights, which the file's header says the algorithm needs. With a negative weight the model promises nothing.
  - DijkstraSearch.DijkstraTraversal.ShortestPath: the same non-negative-weight precondition as `DijkstraDistances`.
  - BreadthFirst.BFSTraversal.ShortestPath: requires the start key to be a vertex when the two keys differ. There the source indexes `self.graph.vertices[start_key]` and raises `KeyError`.
- LRU cache:
  - LruCache.LRUCache.constructor: requires a capacity of at least 1, and the model promises nothing for other capacities. With capacity 0, the first `put` removes the head sentinel and then dereferences `None`. With a negative capacity, the test `len(self.cache) == self.capacity` (line 127) never holds, so the cache never evicts and grows without bound.
  - LruCache.ExampleTrace: the walk-through is proved on the abstract state, not on the linked nodes. The methods' contracts connect the two one call at a time.
- Sorting:
  - RadixSorting.RadixSort: sortedness is proved only for non-negative input. For negative numbers the digits do not order the values, and the source does not sort them: `[-5, 3]` comes back as `[3, -5]`. Only the permutation is proved for every input.
  - MergeSorting.Sort and QuickSorting.Sort: work on integer arrays. The sources compare any ordered values, and the merge sentinel is `float('inf')`.
- Character codes (`ord`) are Dafny `char` values read as integers. Neither text encoding nor normalisation is modelled.
