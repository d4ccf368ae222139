/**
 * LRU cache: a key -> node index kept in lock-step with a doubly linked
 * recency list bounded by two sentinel nodes (`head` on the most recently
 * used side, `tail` on the least recently used side).
 *
 * The abstract state of a cache is a `CacheState`: the keys from most to
 * least recently used, and the stored values. `AbstractGet` and
 * `AbstractPut` say what the two public operations do to that state; the
 * class `LRUCache` implements them on linked nodes and is proved to refine
 * them.
 */
module LruCache {

  /** Abstract cache: keys in recency order (most recent first) and values. */
  datatype CacheState = CacheState(order: seq<int>, contents: map<int, int>)

  /** No key occurs twice in `s`: the first key is not among the rest, and
      the rest is again repetition-free. */
  predicate Distinct(s: seq<int>) {
    s == [] || (s[0] !in s[1..] && Distinct(s[1..]))
  }

  /** In a repetition-free sequence any two positions hold different keys. */
  lemma {:induction false} DistinctAt(s: seq<int>, i: int, j: int)
    requires Distinct(s) && 0 <= i < j < |s|
    ensures s[i] != s[j]
  {
    assert s[j] == s[1..][j - 1];
    if i > 0 {
      assert s[i] == s[1..][i - 1];
      DistinctAt(s[1..], i - 1, j - 1);
    }
  }

  /** A sequence whose positions pairwise hold different keys is
      repetition-free. */
  lemma {:induction false} PairwiseDistinct(s: seq<int>)
    requires forall i, j :: 0 <= i < j < |s| ==> s[i] != s[j]
    ensures Distinct(s)
  {
    if s != [] {
      var t := s[1..];
      forall m | 0 <= m < |t| ensures t[m] != s[0] {
        assert t[m] == s[m + 1];
      }
      forall a, b | 0 <= a < b < |t| ensures t[a] != t[b] {
        assert t[a] == s[a + 1] && t[b] == s[b + 1];
      }
      PairwiseDistinct(t);
    }
  }

  /** The abstract invariant: each stored key appears exactly once in the
      recency order (so the index and the order have the same size), and
      there are at most `capacity` of them. */
  ghost predicate WellFormed(st: CacheState, capacity: int) {
    && Distinct(st.order)
    && (forall k :: k in st.contents <==> k in st.order)
    && |st.contents| == |st.order| <= capacity
  }

  /** `s` with every occurrence of `k` dropped, the rest in their order. */
  function Without(s: seq<int>, k: int): (r: seq<int>)
    ensures forall x :: x in r <==> x in s && x != k
    ensures k !in s ==> r == s
  {
    if s == [] then []
    else if s[0] == k then Without(s[1..], k)
    else [s[0]] + Without(s[1..], k)
  }

  /** Dropping a key from a repetition-free sequence keeps it repetition-free
      and, when the key was present, shortens it by exactly one. */
  lemma {:induction false} WithoutDistinct(s: seq<int>, k: int)
    requires Distinct(s)
    ensures Distinct(Without(s, k))
    ensures k in s ==> |Without(s, k)| == |s| - 1
  {
    if s != [] {
      var t := s[1..];
      assert Distinct(t) && s[0] !in t;
      WithoutDistinct(t, k);
      if s[0] != k {
        var w := Without(t, k);
        assert s[0] !in w;
        assert ([s[0]] + w)[1..] == w;
      }
    }
  }

  /** When the key at position `j` occurs nowhere else, dropping that key
      cuts position `j` out and keeps every other position in order. */
  lemma {:induction false} WithoutAt(s: seq<int>, j: nat)
    requires j < |s| && forall m :: 0 <= m < |s| && m != j ==> s[m] != s[j]
    ensures |Without(s, s[j])| == |s| - 1
    ensures forall m :: 0 <= m < |s| - 1 ==> Without(s, s[j])[m] == s[if m < j then m else m + 1]
  {
    var t := s[1..];
    if j == 0 {
      assert s[0] !in t by {
        forall m | 0 <= m < |t| ensures t[m] != s[0] {
          assert t[m] == s[m + 1];
        }
      }
    } else {
      assert s[0] != s[j] && t[j - 1] == s[j];
      forall m | 0 <= m < |t| && m != j - 1 ensures t[m] != t[j - 1] {
        assert t[m] == s[m + 1];
      }
      WithoutAt(t, j - 1);
      var w := Without(s, s[j]);
      assert w == [s[0]] + Without(t, s[j]);
      forall m | 0 < m < |s| - 1 ensures w[m] == s[if m < j then m else m + 1] {
        assert w[m] == Without(t, s[j])[m - 1];
      }
    }
  }

  /** A repetition-free sequence has as many elements as its set. */
  lemma {:induction false} DistinctCard(s: seq<int>)
    requires Distinct(s)
    ensures |set x | x in s| == |s|
  {
    if s != [] {
      assert Distinct(s[1..]);
      DistinctCard(s[1..]);
      assert (set x | x in s) == {s[0]} + (set x | x in s[1..]);
      assert s[0] !in (set x | x in s[1..]);
    }
  }

  /** An index whose keys are exactly those of a repetition-free order holds
      as many keys as the order. */
  lemma SizeAgrees(order: seq<int>, contents: map<int, int>)
    requires Distinct(order) && forall k :: k in contents <==> k in order
    ensures |contents| == |order|
  {
    DistinctCard(order);
    assert contents.Keys == set x | x in order by {
      forall x ensures x in contents.Keys <==> x in order {
      }
    }
  }

  /** get(key): -1 for an absent key (nothing changes); otherwise the stored
      value, and the key becomes the most recently used. */
  function AbstractGet(st: CacheState, key: int): (int, CacheState) {
    if key !in st.contents then (-1, st)
    else (st.contents[key], CacheState([key] + Without(st.order, key), st.contents))
  }

  /** put(key, value): overwrite and refresh an existing key; otherwise evict
      the least recently used key when full, then insert as most recent. */
  function AbstractPut(st: CacheState, capacity: int, key: int, value: int): CacheState
    requires capacity >= 1 && |st.contents| == |st.order|
  {
    if key in st.contents then
      CacheState([key] + Without(st.order, key), st.contents[key := value])
    else if |st.contents| == capacity then
      var lru := st.order[|st.order| - 1];
      CacheState([key] + st.order[..|st.order| - 1], (st.contents - {lru})[key := value])
    else
      CacheState([key] + st.order, st.contents[key := value])
  }

  /** The state with its least recently used key evicted. */
  function DropLast(st: CacheState): CacheState
    requires st.order != []
  {
    var lru := st.order[|st.order| - 1];
    CacheState(st.order[..|st.order| - 1], st.contents - {lru})
  }

  /** Two maps over the same keys have the same size. */
  lemma SameSize<V, W>(m: map<int, V>, n: map<int, W>)
    requires m.Keys == n.Keys
    ensures |m| == |n|
  {
    assert |m| == |m.Keys|;
    assert |n| == |n.Keys|;
  }

  /** get on an absent key returns -1 and changes nothing; on a present key it
      returns the stored value, moves the key to the front, keeps every other
      key in the recency order and leaves the size and values alone. */
  lemma GetSpec(st: CacheState, capacity: int, key: int)
    requires WellFormed(st, capacity)
    ensures key !in st.contents ==> AbstractGet(st, key) == (-1, st)
    ensures key in st.contents ==>
      var (r, st') := AbstractGet(st, key);
      && r == st.contents[key]
      && st'.order[0] == key
      && |st'.order| == |st.order|
      && st'.contents == st.contents
      && (forall k :: k in st'.order <==> k in st.order)
      && WellFormed(st', capacity)
  {
    WithoutDistinct(st.order, key);
  }

  /** put keeps the abstract invariant, so the cache never holds more than
      `capacity` keys, and the key put is the most recently used one with the
      value just stored. */
  lemma {:induction false} PutWellFormed(st: CacheState, capacity: int, key: int, value: int)
    requires capacity >= 1 && WellFormed(st, capacity)
    ensures var st' := AbstractPut(st, capacity, key, value);
      && WellFormed(st', capacity)
      && |st'.contents| <= capacity
      && st'.order[0] == key
      && key in st'.contents && st'.contents[key] == value
  {
    var st' := AbstractPut(st, capacity, key, value);
    if key in st.contents {
      WithoutDistinct(st.order, key);
    } else if |st.contents| == capacity {
      var n := |st.order|;
      var kept := st.order[..n - 1];
      forall a, b | 0 <= a < b < |kept| ensures kept[a] != kept[b] {
        DistinctAt(st.order, a, b);
      }
      PairwiseDistinct(kept);
      assert st'.order[1..] == kept;
      forall k ensures k in st'.contents <==> k in st'.order {
        if k in kept {
          var j :| 0 <= j < n - 1 && kept[j] == k;
          DistinctAt(st.order, j, n - 1);
        }
      }
    } else {
      assert st'.order[1..] == st.order;
    }
    SizeAgrees(st'.order, st'.contents);
  }

  /** put on an existing key overwrites only that value, moves it to the front
      and leaves the size unchanged. */
  lemma PutExisting(st: CacheState, capacity: int, key: int, value: int)
    requires capacity >= 1 && WellFormed(st, capacity) && key in st.contents
    ensures var st' := AbstractPut(st, capacity, key, value);
      && st'.contents.Keys == st.contents.Keys
      && (forall k :: k in st.contents && k != key ==> st'.contents[k] == st.contents[k])
      && st'.order[0] == key
      && |st'.order| == |st.order|
  {
    WithoutDistinct(st.order, key);
  }

  /** put of a new key into a full cache evicts exactly the key at the least
      recently used end, from both the order and the index, and nothing else. */
  lemma PutEvicts(st: CacheState, capacity: int, key: int, value: int)
    requires capacity >= 1 && WellFormed(st, capacity)
    requires key !in st.contents && |st.contents| == capacity
    ensures st.order != []
    ensures var lru := st.order[|st.order| - 1];
      var st' := AbstractPut(st, capacity, key, value);
      && lru !in st'.contents
      && st'.contents.Keys == st.contents.Keys - {lru} + {key}
      && (forall k :: k in st.contents && k != lru ==> st'.contents[k] == st.contents[k])
      && st'.order == [key] + st.order[..|st.order| - 1]
  {
  }

  /** put followed by get of the same key returns the value just put. */
  lemma PutThenGet(st: CacheState, capacity: int, key: int, value: int)
    requires capacity >= 1 && WellFormed(st, capacity)
    ensures AbstractGet(AbstractPut(st, capacity, key, value), key).0 == value
  {
    PutWellFormed(st, capacity, key, value);
  }

  /** A new key put into a cache with room is prepended, nothing evicted. */
  lemma PutFresh(st: CacheState, capacity: int, key: int, value: int)
    requires capacity >= 1 && WellFormed(st, capacity)
    requires key !in st.contents && |st.order| < capacity
    ensures AbstractPut(st, capacity, key, value) == CacheState([key] + st.order, st.contents[key := value])
  {
  }

  /** `s` back to front. */
  function Reversed(s: seq<int>): (r: seq<int>)
    ensures |r| == |s| && forall i :: 0 <= i < |s| ==> r[i] == s[|s| - 1 - i]
  {
    if s == [] then [] else [s[|s| - 1]] + Reversed(s[..|s| - 1])
  }

  /** The state reached from an empty cache by putting `vals[i]` under
      `keys[i]`, one put after another. */
  function Fill(capacity: int, keys: seq<int>, vals: seq<int>): (st: CacheState)
    requires capacity >= 1 && |keys| == |vals|
    ensures WellFormed(st, capacity)
    decreases |keys|
  {
    if keys == [] then CacheState([], map[])
    else
      var n := |keys| - 1;
      var prev := Fill(capacity, keys[..n], vals[..n]);
      PutWellFormed(prev, capacity, keys[n], vals[n]);
      AbstractPut(prev, capacity, keys[n], vals[n])
  }

  /** The answers of a run of gets, one after another, and the final state. */
  function GetAll(st: CacheState, queries: seq<int>): (r: (seq<int>, CacheState))
    ensures |r.0| == |queries|
    decreases |queries|
  {
    if queries == [] then ([], st)
    else
      var (a, st') := AbstractGet(st, queries[0]);
      var (rest, st'') := GetAll(st', queries[1..]);
      ([a] + rest, st'')
  }

  /** Filling an empty cache with at most `capacity` distinct keys evicts
      nothing: the cache holds exactly the keys put, and the recency order is
      the order of the puts reversed. */
  lemma {:induction false} FillOrder(capacity: int, keys: seq<int>, vals: seq<int>)
    requires capacity >= 1 && |keys| == |vals| && |keys| <= capacity
    requires forall i, j :: 0 <= i < j < |keys| ==> keys[i] != keys[j]
    ensures Fill(capacity, keys, vals).order == Reversed(keys)
    ensures forall k :: k in Fill(capacity, keys, vals).contents <==> k in keys
    decreases |keys|
  {
    if keys != [] {
      var n := |keys| - 1;
      var ks, xs := keys[..n], vals[..n];
      FillOrder(capacity, ks, xs);
      var prev := Fill(capacity, ks, xs);
      assert keys[n] !in ks by {
        forall i | 0 <= i < n ensures ks[i] != keys[n] {
          assert ks[i] == keys[i];
        }
      }
      PutFresh(prev, capacity, keys[n], vals[n]);
      assert keys == ks + [keys[n]];
    }
  }

  /** Filling an empty cache with at most `capacity` distinct keys stores
      each key with the value put under it. */
  lemma {:induction false} FillValues(capacity: int, keys: seq<int>, vals: seq<int>)
    requires capacity >= 1 && |keys| == |vals| && |keys| <= capacity
    requires forall i, j :: 0 <= i < j < |keys| ==> keys[i] != keys[j]
    ensures forall i :: 0 <= i < |keys| ==>
      keys[i] in Fill(capacity, keys, vals).contents && Fill(capacity, keys, vals).contents[keys[i]] == vals[i]
    decreases |keys|
  {
    if keys != [] {
      var n := |keys| - 1;
      var ks, xs := keys[..n], vals[..n];
      FillValues(capacity, ks, xs);
      FillOrder(capacity, ks, xs);
      var prev := Fill(capacity, ks, xs);
      assert keys[n] !in prev.contents by {
        forall i | 0 <= i < n ensures ks[i] != keys[n] {
          assert ks[i] == keys[i];
        }
      }
      PutFresh(prev, capacity, keys[n], vals[n]);
      var m := prev.contents[keys[n] := vals[n]];
      assert Fill(capacity, keys, vals).contents == m;
      forall i | 0 <= i < n ensures keys[i] in m && m[keys[i]] == vals[i] {
        assert ks[i] == keys[i] && xs[i] == vals[i];
      }
    }
  }

  /** A run of gets changes no stored value, and each get answers the value
      stored under its key, or -1 for an absent key. */
  lemma {:induction false} GetAllAnswers(st: CacheState, queries: seq<int>)
    ensures GetAll(st, queries).1.contents == st.contents
    ensures forall j :: 0 <= j < |queries| ==>
      GetAll(st, queries).0[j] == if queries[j] in st.contents then st.contents[queries[j]] else -1
    decreases |queries|
  {
    if queries != [] {
      var st' := AbstractGet(st, queries[0]).1;
      GetAllAnswers(st', queries[1..]);
      forall j | 1 <= j < |queries|
        ensures GetAll(st, queries).0[j] == GetAll(st', queries[1..]).0[j - 1]
      {
      }
    }
  }

  /** Fill an empty cache of capacity `capacity` with at most that many
      distinct keys, then get them back in any order: every get answers the
      value put under its key, and nothing was evicted. */
  lemma FillRoundTrip(capacity: int, keys: seq<int>, vals: seq<int>, queries: seq<int>)
    requires capacity >= 1 && |keys| == |vals| && |keys| <= capacity
    requires forall i, j :: 0 <= i < j < |keys| ==> keys[i] != keys[j]
    ensures |Fill(capacity, keys, vals).contents| == |keys|
    ensures forall i, j :: 0 <= i < |keys| && 0 <= j < |queries| && queries[j] == keys[i] ==>
      GetAll(Fill(capacity, keys, vals), queries).0[j] == vals[i]
  {
    FillOrder(capacity, keys, vals);
    FillValues(capacity, keys, vals);
    GetAllAnswers(Fill(capacity, keys, vals), queries);
  }

  /** Once `capacity` distinct keys fill the cache, putting a new key evicts
      the first key put, and only that one. */
  lemma FillThenEvict(capacity: int, keys: seq<int>, vals: seq<int>, key: int, value: int)
    requires capacity >= 1 && |keys| == |vals| == capacity
    requires forall i, j :: 0 <= i < j < |keys| ==> keys[i] != keys[j]
    requires key !in keys
    ensures var st' := AbstractPut(Fill(capacity, keys, vals), capacity, key, value);
      && keys[0] !in st'.contents
      && (forall i :: 0 < i < |keys| ==> keys[i] in st'.contents)
      && key in st'.contents
  {
    FillOrder(capacity, keys, vals);
    var st := Fill(capacity, keys, vals);
    PutEvicts(st, capacity, key, value);
  }

  /** With capacity 1, putting key 2 after key 1 evicts key 1. */
  lemma CapacityOne()
    ensures var st := AbstractPut(AbstractPut(CacheState([], map[]), 1, 1, 1), 1, 2, 2);
      AbstractGet(st, 1).0 == -1 && AbstractGet(st, 2).0 == 2
  {
    var st := AbstractPut(AbstractPut(CacheState([], map[]), 1, 1, 1), 1, 2, 2);
    assert st == CacheState([2], map[2 := 2]);
  }

  /** The capacity-2 walk-through on the abstract cache: two puts, a get
      that refreshes key 1, a put that evicts key 2, a put that evicts key 1,
      then gets answering -1, 3 and 4; and a second cache where a put
      overwrites the value of key 2, so that a get answers 2. */
  lemma ExampleTrace()
    ensures var s2 := AbstractPut(AbstractPut(CacheState([], map[]), 2, 1, 1), 2, 2, 2);
            var (a, s3) := AbstractGet(s2, 1);
            var s4 := AbstractPut(s3, 2, 3, 3);
            var (b, s5) := AbstractGet(s4, 2);
            var s6 := AbstractPut(s5, 2, 4, 4);
            var (c, s7) := AbstractGet(s6, 1);
            var (d, s8) := AbstractGet(s7, 3);
            var (e, _) := AbstractGet(s8, 4);
            var (f, _) := AbstractGet(AbstractPut(AbstractPut(CacheState([], map[]), 2, 2, 1), 2, 2, 2), 2);
            [a, b, c, d, e, f] == [1, -1, -1, 3, 4, 2]
  {
    var s2 := AbstractPut(AbstractPut(CacheState([], map[]), 2, 1, 1), 2, 2, 2);
    assert s2 == CacheState([2, 1], map[1 := 1, 2 := 2]);
    var s3 := AbstractGet(s2, 1).1;
    assert s3 == CacheState([1, 2], map[1 := 1, 2 := 2]);
    var s4 := AbstractPut(s3, 2, 3, 3);
    assert s4 == CacheState([3, 1], map[1 := 1, 3 := 3]);
    var s6 := AbstractPut(s4, 2, 4, 4);
    assert s6 == CacheState([4, 3], map[3 := 3, 4 := 4]);
  }

  /** A doubly linked list node; `key` never changes once the node exists. */
  class Node {
    const key: int
    var value: int
    var prev: Node?
    var next: Node?

    constructor (key: int, value: int)
      ensures this.key == key && this.value == value
      ensures prev == null && next == null
    {
      this.key := key;
      this.value := value;
      prev := null;
      next := null;
    }
  }

  /** The keys of a run of nodes, in list order. */
  function KeysOf(ns: seq<Node>): (r: seq<int>)
    ensures |r| == |ns| && forall i :: 0 <= i < |ns| ==> r[i] == ns[i].key
  {
    seq(|ns|, i requires 0 <= i < |ns| => ns[i].key)
  }

  /** `cache` maps exactly the keys of `ns`, each to its own node. */
  ghost predicate Indexed(cache: map<int, Node>, ns: seq<Node>) {
    && (forall i :: 0 <= i < |ns| ==> ns[i].key in cache && cache[ns[i].key] == ns[i])
    && (forall k :: k in cache ==> k in KeysOf(ns))
  }

  /** Dropping the last node from the chain, and its key from the index,
      keeps the two in step. */
  lemma IndexedDropLast(cache: map<int, Node>, ns: seq<Node>)
    requires Indexed(cache, ns) && ns != []
    requires forall j :: 0 <= j < |ns| - 1 ==> ns[j] != ns[|ns| - 1]
    ensures Indexed(cache - {ns[|ns| - 1].key}, ns[..|ns| - 1])
    ensures KeysOf(ns[..|ns| - 1]) == KeysOf(ns)[..|ns| - 1]
    ensures forall j :: 0 <= j < |ns| - 1 ==> ns[j].key != ns[|ns| - 1].key
  {
    var n := |ns|;
    var last := ns[n - 1].key;
    var ks := KeysOf(ns);
    forall j | 0 <= j < n - 1 ensures ns[j].key != last {
      assert cache[ns[j].key] == ns[j];
    }
    forall k | k in cache - {last} ensures k in KeysOf(ns[..n - 1]) {
      assert k in ks;
      var p :| 0 <= p < n && ks[p] == k;
      assert KeysOf(ns[..n - 1])[p] == k;
    }
  }

  /** A new node in front, indexed under a key not yet present, keeps the
      chain and the index in step. */
  lemma IndexedCons(cache: map<int, Node>, ns: seq<Node>, node: Node)
    requires Indexed(cache, ns) && node.key !in cache
    ensures Indexed(cache[node.key := node], [node] + ns)
    ensures KeysOf([node] + ns) == [node.key] + KeysOf(ns)
  {
    var ns' := [node] + ns;
    forall j | 0 < j < |ns'| ensures ns'[j] == ns[j - 1] {
    }
    assert KeysOf(ns') == [node.key] + KeysOf(ns);
    forall k | k in cache[node.key := node] ensures k in KeysOf(ns') {
      if k != node.key {
        assert k in KeysOf(ns);
      }
    }
  }

  /** Moving position `i` of a key sequence to the front, when that key
      occurs nowhere else, is dropping the key and putting it in front. */
  lemma MoveToFront(ks: seq<int>, i: int, ks': seq<int>)
    requires 0 <= i < |ks| && forall m :: 0 <= m < |ks| && m != i ==> ks[m] != ks[i]
    requires |ks'| == |ks|
    requires forall j :: 0 <= j < |ks'| ==> ks'[j] == ks[if j == 0 then i else if j <= i then j - 1 else j]
    ensures ks' == [ks[i]] + Without(ks, ks[i])
  {
    WithoutAt(ks, i);
    var expected := [ks[i]] + Without(ks, ks[i]);
    forall j | 0 < j < |ks'| ensures ks'[j] == expected[j] {
      assert expected[j] == Without(ks, ks[i])[j - 1];
    }
  }

  /** Moving the node at position `i` of `ns` to the front, giving `ns'`,
      keeps the index in step and gives the key order that `AbstractGet`
      describes. */
  lemma IndexedMove(cache: map<int, Node>, ns: seq<Node>, i: int, ns': seq<Node>)
    requires 0 <= i < |ns| && Indexed(cache, ns)
    requires forall m :: 0 <= m < |ns| && m != i ==> ns[m] != ns[i]
    requires |ns'| == |ns|
    requires forall j :: 0 <= j < |ns'| ==> ns'[j] == ns[if j == 0 then i else if j <= i then j - 1 else j]
    ensures Indexed(cache, ns')
    ensures KeysOf(ns') == [ns[i].key] + Without(KeysOf(ns), ns[i].key)
  {
    var ks := KeysOf(ns);
    forall m | 0 <= m < |ks| && m != i ensures ks[m] != ks[i] {
      assert cache[ks[m]] == ns[m];
    }
    MoveToFront(ks, i, KeysOf(ns'));
    forall k | k in cache ensures k in KeysOf(ns') {
      assert k in ks;
      if k != ns[i].key {
        assert k in Without(ks, ns[i].key);
      }
    }
  }

  class LRUCache {
    const capacity: int
    var cache: map<int, Node>
    const head: Node
    const tail: Node

    /** The nodes strictly between the sentinels, most recently used first. */
    ghost var nodes: seq<Node>
    /** The stored values, by key. */
    ghost var contents: map<int, int>

    /** `head`, the nodes of `ns` and `tail` form a doubly linked chain: each
        node's `next` and `prev` point at its neighbours. */
    ghost predicate Linked(ns: seq<Node>)
      reads head`next, tail`prev, ns`next, ns`prev
    {
      && head != tail && head !in ns && tail !in ns
      && head.next == (if ns == [] then tail else ns[0])
      && tail.prev == (if ns == [] then head else ns[|ns| - 1])
      && (forall i {:trigger ns[i].next} :: 0 <= i < |ns| ==>
            ns[i].next == if i + 1 < |ns| then ns[i + 1] else tail)
      && (forall i {:trigger ns[i].prev} :: 0 <= i < |ns| ==>
            ns[i].prev == if i == 0 then head else ns[i - 1])
    }

    /** A chain never visits a node twice: following `next` from two
        different positions reaches `tail` after different numbers of steps. */
    lemma {:induction false} NoRepeat(ns: seq<Node>, i: int, j: int)
      requires Linked(ns) && 0 <= i < j < |ns|
      ensures ns[i] != ns[j]
      decreases |ns| - j
    {
      assert ns[i].next == ns[i + 1];
      if j + 1 < |ns| {
        NoRepeat(ns, i + 1, j + 1);
        assert ns[j].next == ns[j + 1];
      } else {
        assert ns[j].next == tail;
      }
    }

    /** The node at position `k` of a chain appears nowhere else in it. */
    lemma Unique(ns: seq<Node>, k: int)
      requires Linked(ns) && 0 <= k < |ns|
      ensures forall j :: 0 <= j < |ns| && j != k ==> ns[j] != ns[k]
    {
      forall j | 0 <= j < |ns| && j != k ensures ns[j] != ns[k] {
        if j < k { NoRepeat(ns, j, k); } else { NoRepeat(ns, k, j); }
      }
    }

    /** Keys from the most to the least recently used. */
    ghost function Order(): seq<int>
      reads this
    {
      KeysOf(nodes)
    }

    ghost function State(): CacheState
      reads this
    {
      CacheState(Order(), contents)
    }

    /** The index and the chain agree (a key is in `cache` iff its node lies
        between the sentinels, and each node holds the value stored under its
        key), and there are at most `capacity` entries. */
    ghost predicate Valid()
      reads this, head, tail, nodes
    {
      && capacity >= 1
      && Linked(nodes)
      && Indexed(cache, nodes)
      && cache.Keys == contents.Keys
      && (forall i :: 0 <= i < |nodes| ==> nodes[i].value == contents[nodes[i].key])
      && |nodes| <= capacity
    }

    /** The linked representation satisfies the abstract invariant: every
        stored key occurs exactly once in the recency order. */
    lemma StateWellFormed()
      requires Valid()
      ensures WellFormed(State(), capacity)
    {
      forall a, b | 0 <= a < b < |nodes| ensures Order()[a] != Order()[b] {
        NoRepeat(nodes, a, b);
        assert cache[Order()[a]] == nodes[a];
      }
      PairwiseDistinct(Order());
      SizeAgrees(Order(), contents);
    }

    constructor (capacity: int)
      requires capacity >= 1
      ensures Valid() && fresh(head) && fresh(tail)
      ensures this.capacity == capacity
      ensures cache == map[] && nodes == [] && head.next == tail && tail.prev == head
      ensures State() == CacheState([], map[])
    {
      this.capacity := capacity;
      cache := map[];
      var h := new Node(0, 0);
      var t := new Node(0, 0);
      h.next := t;
      t.prev := h;
      head, tail := h, t;
      nodes := [];
      contents := map[];
    }

    /** The position in the chain of the node stored under `key`. */
    lemma PositionOf(key: int) returns (i: int)
      requires Valid() && key in cache
      ensures 0 <= i < |nodes| && nodes[i] == cache[key]
    {
      var ks := KeysOf(nodes);
      assert key in ks;
      var j :| 0 <= j < |ks| && ks[j] == key;
      i := j;
    }

    /** Link `node` right after `head`. */
    method AddToHead(node: Node)
      requires Linked(nodes) && node !in nodes && node != head && node != tail
      modifies this`nodes, head`next, tail`prev, nodes`prev, node`prev, node`next
      ensures Linked(nodes)
      ensures nodes == [node] + old(nodes)
    {
      if nodes != [] { Unique(nodes, 0); }
      var first := head.next;
      node.prev := head;
      node.next := first;
      head.next := node;
      first.prev := node;
      nodes := [node] + nodes;
      forall j | 0 <= j < |nodes| - 1
        ensures nodes[j].next == nodes[j + 1]
      {
        if j > 0 { assert nodes[j] == old(nodes[j - 1]); }
      }
      forall j | 1 < j < |nodes|
        ensures nodes[j].prev == nodes[j - 1]
      {
        assert nodes[j] == old(nodes[j - 1]);
      }
    }

    /** Unlink the node at position `i` of the chain from its neighbours. */
    method RemoveNode(node: Node, ghost i: int)
      requires Linked(nodes) && 0 <= i < |nodes| && nodes[i] == node
      modifies this`nodes, head`next, tail`prev, nodes`next, nodes`prev
      ensures Linked(nodes)
      ensures nodes == old(nodes[..i] + nodes[i + 1..])
    {
      if i > 0 { Unique(nodes, i - 1); }
      if i + 1 < |nodes| { Unique(nodes, i + 1); }
      ghost var l := nodes[..i] + nodes[i + 1..];
      var before := node.prev;
      var after := node.next;
      before.next := after;
      after.prev := before;
      nodes := l;
      forall j | 0 <= j < |l|
        ensures l[j].next == (if j + 1 < |l| then l[j + 1] else tail)
      {
        if j < i - 1 {
          assert l[j] == old(nodes[j]) && l[j + 1] == old(nodes[j + 1]);
        } else if j >= i {
          assert l[j] == old(nodes[j + 1]);
        }
      }
      forall j | 0 <= j < |l|
        ensures l[j].prev == (if j == 0 then head else l[j - 1])
      {
        if j < i {
          assert l[j] == old(nodes[j]);
        } else {
          assert l[j] == old(nodes[j + 1]);
          if j > i { assert l[j - 1] == old(nodes[j]); }
        }
      }
    }

    /** Make the node at position `i` the most recently used. */
    method MoveToHead(node: Node, ghost i: int)
      requires Linked(nodes) && 0 <= i < |nodes| && nodes[i] == node
      modifies this`nodes, head`next, tail`prev, nodes`next, nodes`prev
      ensures Linked(nodes) && |nodes| == old(|nodes|)
      ensures forall j :: 0 <= j < |nodes| ==>
        nodes[j] == old(nodes[if j == 0 then i else if j <= i then j - 1 else j])
    {
      Unique(nodes, i);
      RemoveNode(node, i);
      assert node !in nodes by {
        forall j | 0 <= j < |nodes| ensures nodes[j] != node {
          assert nodes[j] == old(nodes[if j < i then j else j + 1]);
        }
      }
      AddToHead(node);
    }

    /** Unlink and return the node just before `tail`. */
    method RemoveTail() returns (removed: Node)
      requires Linked(nodes) && nodes != []
      modifies this`nodes, head`next, tail`prev, nodes`next, nodes`prev
      ensures Linked(nodes)
      ensures removed == old(nodes[|nodes| - 1])
      ensures nodes == old(nodes[..|nodes| - 1])
    {
      removed := tail.prev;
      RemoveNode(removed, |nodes| - 1);
    }

    /** Make the entry under `key` the most recently used, returning its node;
        the index and the stored values are untouched. */
    method Refresh(key: int) returns (node: Node)
      requires Valid() && key in cache
      modifies this`nodes, head`next, tail`prev, nodes`next, nodes`prev
      ensures Valid() && cache == old(cache)
      ensures node == cache[key] && node in old(nodes)
      ensures forall n :: n in nodes ==> n in old(nodes)
      ensures State() == AbstractGet(old(State()), key).1
    {
      ghost var ol := nodes;
      ghost var i := PositionOf(key);
      Unique(nodes, i);
      node := cache[key];
      MoveToHead(node, i);
      IndexedMove(cache, ol, i, nodes);
      forall j | 0 <= j < |nodes|
        ensures nodes[j] in ol && nodes[j].value == contents[nodes[j].key]
      {
        var k := if j == 0 then i else if j <= i then j - 1 else j;
        assert nodes[j] == ol[k];
      }
    }

    /** Overwrite the value stored under a key already in the cache. */
    method SetValue(node: Node, value: int)
      requires Valid() && node.key in cache && cache[node.key] == node
      modifies node`value, this`contents
      ensures Valid()
      ensures State() == CacheState(old(Order()), old(contents)[node.key := value])
    {
      node.value := value;
      contents := contents[node.key := value];
    }

    /** Unlink the least recently used node and drop its key from the index. */
    method RemoveLru() returns (removed: Node)
      requires Linked(nodes) && nodes != []
      modifies this`nodes, this`cache, this`contents, head`next, tail`prev, nodes`next, nodes`prev
      ensures Linked(nodes)
      ensures removed == old(nodes[|nodes| - 1]) && nodes == old(nodes[..|nodes| - 1])
      ensures cache == old(cache) - {removed.key} && contents == old(contents) - {removed.key}
    {
      removed := RemoveTail();
      cache, contents := cache - {removed.key}, contents - {removed.key};
    }

    /** Drop the least recently used entry from the chain and the index. */
    method Evict()
      requires Valid() && nodes != []
      modifies this`nodes, this`cache, this`contents, head`next, tail`prev, nodes`next, nodes`prev
      ensures Valid()
      ensures nodes == old(nodes[..|nodes| - 1])
      ensures State() == DropLast(old(State()))
    {
      ghost var ol := nodes;
      Unique(nodes, |nodes| - 1);
      IndexedDropLast(cache, ol);
      var removed := RemoveLru();
    }

    /** Link a fresh node for `key` right after `head` and index it. */
    method LinkNew(key: int, value: int) returns (node: Node)
      requires Linked(nodes)
      modifies this`nodes, this`cache, this`contents, head`next, tail`prev, nodes`prev
      ensures Linked(nodes) && fresh(node)
      ensures node.key == key && node.value == value
      ensures nodes == [node] + old(nodes)
      ensures cache == old(cache)[key := node] && contents == old(contents)[key := value]
    {
      node := new Node(key, value);
      AddToHead(node);
      cache, contents := cache[key := node], contents[key := value];
    }

    /** Add a new key as the most recently used entry. */
    method Insert(key: int, value: int)
      requires Valid() && key !in cache && |nodes| < capacity
      modifies this`nodes, this`cache, this`contents, head`next, tail`prev, nodes`prev
      ensures Valid()
      ensures nodes != [] && fresh(nodes[0]) && nodes[1..] == old(nodes)
      ensures State() == CacheState([key] + old(Order()), old(contents)[key := value])
    {
      ghost var ol := nodes;
      var node := LinkNew(key, value);
      IndexedCons(old(cache), ol, node);
    }

    /** get: the stored value (or -1), refreshing the key's recency. */
    method Get(key: int) returns (r: int)
      requires Valid()
      modifies this`nodes, head`next, tail`prev, nodes`next, nodes`prev
      ensures Valid()
      ensures forall n :: n in nodes ==> n in old(nodes)
      ensures (r, State()) == AbstractGet(old(State()), key)
    {
      if key !in cache {
        return -1;
      }
      var node := Refresh(key);
      r := node.value;
    }

    /** put on a key already present: store the new value in its node and
        make it the most recently used. */
    method Update(key: int, value: int)
      requires Valid() && key in cache
      modifies this`nodes, this`contents, head`next, tail`prev, nodes`next, nodes`prev, nodes`value
      ensures Valid()
      ensures forall n :: n in nodes ==> n in old(nodes)
      ensures |old(contents)| == |old(Order())|
      ensures State() == AbstractPut(old(State()), capacity, key, value)
    {
      StateWellFormed();
      ghost var i := PositionOf(key);
      var node := cache[key];
      SetValue(node, value);
      node := Refresh(key);
    }

    /** put on a new key: when the cache is full, evict the least recently
        used entry first; then link a new node in front. */
    method Add(key: int, value: int)
      requires Valid() && key !in cache
      modifies this`nodes, this`cache, this`contents, head`next, tail`prev, nodes`next, nodes`prev
      ensures Valid()
      ensures nodes != [] && fresh(nodes[0]) && nodes[1..] <= old(nodes)
      ensures |old(contents)| == |old(Order())|
      ensures State() == AbstractPut(old(State()), capacity, key, value)
    {
      ghost var before := State();
      assert |contents| == |nodes| && |cache| == |nodes| by {
        StateWellFormed();
        SameSize(cache, contents);
      }
      if |cache| == capacity {
        assert AbstractPut(before, capacity, key, value)
          == CacheState([key] + DropLast(before).order, DropLast(before).contents[key := value]);
        Evict();
      } else {
        assert AbstractPut(before, capacity, key, value)
          == CacheState([key] + before.order, before.contents[key := value]);
      }
      Insert(key, value);
    }

    /** put: overwrite and refresh an existing key, or add a new one. */
    method Put(key: int, value: int)
      requires Valid()
      modifies this, head`next, tail`prev, nodes`next, nodes`prev, nodes`value
      ensures Valid()
      ensures forall n :: n in nodes ==> n in old(nodes) || fresh(n)
      ensures |old(contents)| == |old(Order())|
      ensures State() == AbstractPut(old(State()), capacity, key, value)
    {
      if key in cache {
        Update(key, value);
      } else {
        ghost var before := nodes;
        Add(key, value);
        forall n | n in nodes
          ensures n in before || fresh(n)
        {
          var p :| 0 <= p < |nodes| && nodes[p] == n;
          if p > 0 {
            assert n == nodes[1..][p - 1];
          }
        }
      }
    }
  }
}
