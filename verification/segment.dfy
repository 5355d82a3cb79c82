/**
 One in-memory segment of a table index: every key owns a list of (time, data block)
 nodes kept newest first, a data counter tracks how many nodes were put, and data
 blocks shared between index dimensions carry a count of the dimensions still holding
 them. Garbage collection detaches the tail of a key's list and frees its nodes.
 */
module Segment {
  import opened Wrappers

  const TWO_64: int := 0x1_0000_0000_0000_0000

  type BlockId = nat

  /** The live data blocks and, for each, how many dimensions still hold it. */
  type Heap = map<BlockId, nat>

  datatype Node = Node(time: nat, block: BlockId)

  /** A key, its nodes newest first, and the number of readers currently holding it. */
  datatype KeyEntry = KeyEntry(key: string, entries: seq<Node>, refs: int)

  datatype Segment = Segment(keys: seq<KeyEntry>, dataCnt: nat, heap: Heap)

  // ---------------------------------------------------------------- time lists

  predicate NewestFirst(entries: seq<Node>) {
    forall i, j :: 0 <= i < j < |entries| ==> entries[i].time >= entries[j].time
  }

  /** The number of leading nodes newer than `ts`: where a list newest first is cut at `ts`. */
  function Above(entries: seq<Node>, ts: nat): (r: nat)
    ensures r <= |entries|
    ensures forall i :: 0 <= i < r ==> entries[i].time > ts
    ensures r < |entries| ==> entries[r].time <= ts
    decreases |entries|
  {
    if |entries| == 0 || entries[0].time <= ts then 0 else 1 + Above(entries[1..], ts)
  }

  /** In a list newest first, the nodes from the cut on are exactly those not newer than `ts`. */
  lemma AboveSplitsByTime(entries: seq<Node>, ts: nat, i: nat)
    requires NewestFirst(entries) && i < |entries|
    ensures i < Above(entries, ts) <==> entries[i].time > ts
  {
  }

  /** A node goes in front of the first node that is not newer than it. */
  function InsertTime(entries: seq<Node>, node: Node): (r: seq<Node>)
    ensures |r| == |entries| + 1
  {
    var k := Above(entries, node.time);
    entries[..k] + [node] + entries[k..]
  }

  /** Where each node of the list lands after an insertion at the cut. */
  lemma InsertAt(entries: seq<Node>, node: Node, x: nat)
    requires x <= |entries|
    ensures var k := Above(entries, node.time);
      InsertTime(entries, node)[x] == if x < k then entries[x] else if x == k then node else entries[x - 1]
  {
  }

  lemma InsertKeepsOrder(entries: seq<Node>, node: Node)
    requires NewestFirst(entries)
    ensures NewestFirst(InsertTime(entries, node))
  {
    var k := Above(entries, node.time);
    var r := InsertTime(entries, node);
    forall i, j | 0 <= i < j < |r|
      ensures r[i].time >= r[j].time
    {
      InsertAt(entries, node, i);
      InsertAt(entries, node, j);
    }
  }

  lemma InsertAddsNode(entries: seq<Node>, node: Node)
    ensures multiset(InsertTime(entries, node)) == multiset(entries) + multiset{node}
  {
    var k := Above(entries, node.time);
    assert entries == entries[..k] + entries[k..];
  }

  /** The block of the first node at time `time`, found where the list is cut at `time`. */
  function TimeGet(entries: seq<Node>, time: nat): (r: Option<BlockId>)
    ensures r.Some? ==> exists i :: 0 <= i < |entries| && entries[i] == Node(time, r.value)
  {
    var k := Above(entries, time);
    if k < |entries| && entries[k].time == time then Some(entries[k].block) else None
  }

  /** In a list newest first a time is found exactly when some node has it, and the first such node is the one found. */
  lemma TimeGetFindsFirst(entries: seq<Node>, time: nat)
    requires NewestFirst(entries)
    ensures TimeGet(entries, time).Some? <==> exists i :: 0 <= i < |entries| && entries[i].time == time
    ensures TimeGet(entries, time).Some? ==>
      exists i :: (0 <= i < |entries| && entries[i].time == time
                   && entries[i].block == TimeGet(entries, time).value
                   && forall j :: 0 <= j < i ==> entries[j].time != time)
  {
    var k := Above(entries, time);
    if exists i :: 0 <= i < |entries| && entries[i].time == time {
      var i :| 0 <= i < |entries| && entries[i].time == time;
      AboveSplitsByTime(entries, time, i);
    }
  }

  // ---------------------------------------------------------------- freeing nodes

  /**
   Free the nodes of a detached list: each node is counted; its block loses one holder, or
   is deleted when this list held its last one. A block already gone is left alone.
   */
  function FreeList(heap: Heap, nodes: seq<Node>): (r: (nat, Heap))
    ensures r.0 == |nodes|
    ensures r.1.Keys <= heap.Keys
    ensures forall b :: b in heap && b !in Blocks(nodes) ==> b in r.1 && r.1[b] == heap[b]
    decreases |nodes|
  {
    if |nodes| == 0 then (0, heap)
    else
      var b := nodes[0].block;
      var heap1 := if b !in heap then heap
                   else if heap[b] > 1 then heap[b := heap[b] - 1]
                   else heap - {b};
      var rest := FreeList(heap1, nodes[1..]);
      (rest.0 + 1, rest.1)
  }

  function Blocks(nodes: seq<Node>): (r: set<BlockId>)
    ensures forall i :: 0 <= i < |nodes| ==> nodes[i].block in r
    ensures forall b :: b in r ==> exists i :: 0 <= i < |nodes| && nodes[i].block == b
  {
    set i | 0 <= i < |nodes| :: nodes[i].block
  }

  /** A block on exactly one node of the list is deleted when its count was at most one, and otherwise loses one holder. */
  lemma {:induction false} FreeListBlock(heap: Heap, nodes: seq<Node>, i: nat)
    requires i < |nodes| && nodes[i].block in heap
    requires forall j :: 0 <= j < |nodes| && j != i ==> nodes[j].block != nodes[i].block
    ensures var b := nodes[i].block;
      && (b in FreeList(heap, nodes).1 <==> heap[b] > 1)
      && (b in FreeList(heap, nodes).1 ==> FreeList(heap, nodes).1[b] == heap[b] - 1)
    decreases |nodes|
  {
    var b := nodes[i].block;
    var heap1 := if nodes[0].block !in heap then heap
                 else if heap[nodes[0].block] > 1 then heap[nodes[0].block := heap[nodes[0].block] - 1]
                 else heap - {nodes[0].block};
    if i == 0 {
      assert b !in Blocks(nodes[1..]) by {
        forall j | 0 <= j < |nodes[1..]|
          ensures nodes[1..][j].block != b
        {
          assert nodes[1..][j] == nodes[j + 1];
        }
      }
    } else {
      FreeListBlock(heap1, nodes[1..], i - 1);
    }
  }

  // ---------------------------------------------------------------- the segment

  /** Position of the entry for `key`. */
  function Find(keys: seq<KeyEntry>, key: string): (r: Option<nat>)
    ensures r.Some? ==> r.value < |keys| && keys[r.value].key == key
    ensures r.None? ==> forall i :: 0 <= i < |keys| ==> keys[i].key != key
    decreases |keys|
  {
    if |keys| == 0 then None
    else if keys[0].key == key then Some(0)
    else match Find(keys[1..], key)
      case None => None
      case Some(i) => Some(i + 1)
  }

  /** The nodes of every key. */
  function TotalNodes(keys: seq<KeyEntry>): nat
    decreases |keys|
  {
    if |keys| == 0 then 0 else |keys[0].entries| + TotalNodes(keys[1..])
  }

  /** Each key at most once, lists newest first, and the data counter equal to the number of nodes. */
  predicate Valid(s: Segment) {
    && (forall i, j :: 0 <= i < j < |s.keys| ==> s.keys[i].key != s.keys[j].key)
    && (forall i :: 0 <= i < |s.keys| ==> NewestFirst(s.keys[i].entries))
    && s.dataCnt == TotalNodes(s.keys)
  }

  /** Put a data block under `key` at `time`: the key's list is created on first use and the counter moves by one (modulo 2^64). */
  function Put(s: Segment, key: string, time: nat, block: BlockId): (r: Segment)
    ensures r.dataCnt == (s.dataCnt + 1) % TWO_64
    ensures r.heap == s.heap
    ensures Find(r.keys, key).Some?
    ensures var i := Find(r.keys, key).value;
      r.keys[i].entries == InsertTime(if Find(s.keys, key).Some? then s.keys[Find(s.keys, key).value].entries else [], Node(time, block))
  {
    var cnt := (s.dataCnt + 1) % TWO_64;
    match Find(s.keys, key)
    case None =>
      var keys := s.keys + [KeyEntry(key, [Node(time, block)], 0)];
      FindAppended(s.keys, KeyEntry(key, [Node(time, block)], 0));
      Segment(keys, cnt, s.heap)
    case Some(i) =>
      var e := s.keys[i];
      var keys := s.keys[i := e.(entries := InsertTime(e.entries, Node(time, block)))];
      FindUpdated(s.keys, i, keys[i]);
      Segment(keys, cnt, s.heap)
  }

  /**
   Put a row's raw data: a fresh data block, held by one dimension, is allocated for it and
   put under `key` at `time`. `block` names the new allocation, so no live block has it.
   */
  function PutData(s: Segment, key: string, time: nat, block: BlockId): (r: Segment)
    requires block !in s.heap
    ensures r.heap == s.heap[block := 1]
    ensures r.dataCnt == (s.dataCnt + 1) % TWO_64
    ensures Find(r.keys, key).Some?
    ensures var i := Find(r.keys, key).value;
      r.keys[i].entries == InsertTime(if Find(s.keys, key).Some? then s.keys[Find(s.keys, key).value].entries else [], Node(time, block))
  {
    Put(s, key, time, block).(heap := s.heap[block := 1])
  }

  /**
   The block of a data put is held once: the key's list gains a node for it, and freeing a
   detached list on which that node is the only one with the block deletes the block.
   */
  lemma PutDataFreedOnce(s: Segment, key: string, time: nat, block: BlockId, nodes: seq<Node>, i: nat)
    requires block !in s.heap
    requires i < |nodes| && nodes[i].block == block
    requires forall j :: 0 <= j < |nodes| && j != i ==> nodes[j].block != block
    ensures var r := PutData(s, key, time, block);
      && Node(time, block) in r.keys[Find(r.keys, key).value].entries
      && block in r.heap && r.heap[block] == 1
      && block !in FreeList(r.heap, nodes).1
  {
    var r := PutData(s, key, time, block);
    var before := if Find(s.keys, key).Some? then s.keys[Find(s.keys, key).value].entries else [];
    InsertAddsNode(before, Node(time, block));
    assert Node(time, block) in multiset(r.keys[Find(r.keys, key).value].entries);
    FreeListBlock(r.heap, nodes, i);
  }

  lemma {:induction false} FindAppended(keys: seq<KeyEntry>, e: KeyEntry)
    requires Find(keys, e.key).None?
    ensures Find(keys + [e], e.key) == Some(|keys|)
    decreases |keys|
  {
    if |keys| > 0 {
      assert (keys + [e])[1..] == keys[1..] + [e];
      FindAppended(keys[1..], e);
    }
  }

  lemma {:induction false} FindUpdated(keys: seq<KeyEntry>, i: nat, e: KeyEntry)
    requires i < |keys| && Find(keys, keys[i].key) == Some(i) && e.key == keys[i].key
    ensures forall key :: Find(keys[i := e], key) == Find(keys, key)
    decreases |keys|
  {
    forall key
      ensures Find(keys[i := e], key) == Find(keys, key)
    {
      if i > 0 {
        assert keys[i := e][1..] == keys[1..][i - 1 := e];
        FindUpdated(keys[1..], i - 1, e);
      }
    }
  }

  /** The entries of any other key are the same after a put. */
  lemma PutKeepsOtherKeys(s: Segment, key: string, time: nat, block: BlockId, other: string)
    requires other != key
    ensures Find(Put(s, key, time, block).keys, other).Some? <==> Find(s.keys, other).Some?
    ensures Find(s.keys, other).Some? ==>
      Put(s, key, time, block).keys[Find(Put(s, key, time, block).keys, other).value] == s.keys[Find(s.keys, other).value]
  {
    var r := Put(s, key, time, block);
    match Find(s.keys, key)
    case None =>
      FindAppended(s.keys, KeyEntry(key, [Node(time, block)], 0));
      FindAppendOther(s.keys, KeyEntry(key, [Node(time, block)], 0), other);
    case Some(i) =>
      var e := s.keys[i];
      FindUpdated(s.keys, i, e.(entries := InsertTime(e.entries, Node(time, block))));
  }

  lemma {:induction false} FindAppendOther(keys: seq<KeyEntry>, e: KeyEntry, other: string)
    requires other != e.key
    ensures Find(keys + [e], other) == Find(keys, other)
    decreases |keys|
  {
    if |keys| > 0 {
      assert (keys + [e])[1..] == keys[1..] + [e];
      FindAppendOther(keys[1..], e, other);
    }
  }

  lemma {:induction false} TotalNodesAppend(keys: seq<KeyEntry>, e: KeyEntry)
    ensures TotalNodes(keys + [e]) == TotalNodes(keys) + |e.entries|
    decreases |keys|
  {
    if |keys| > 0 {
      assert (keys + [e])[1..] == keys[1..] + [e];
      TotalNodesAppend(keys[1..], e);
    }
  }

  lemma {:induction false} TotalNodesUpdate(keys: seq<KeyEntry>, i: nat, e: KeyEntry)
    requires i < |keys|
    ensures TotalNodes(keys[i := e]) + |keys[i].entries| == TotalNodes(keys) + |e.entries|
    decreases |keys|
  {
    if i > 0 {
      assert keys[i := e][1..] == keys[1..][i - 1 := e];
      TotalNodesUpdate(keys[1..], i - 1, e);
    }
  }

  /** Keys stay distinct: a put either renews an existing key or appends one that was missing. */
  lemma PutKeepsKeysDistinct(s: Segment, key: string, time: nat, block: BlockId)
    requires forall i, j :: 0 <= i < j < |s.keys| ==> s.keys[i].key != s.keys[j].key
    ensures var r := Put(s, key, time, block);
      forall i, j :: 0 <= i < j < |r.keys| ==> r.keys[i].key != r.keys[j].key
  {
    var r := Put(s, key, time, block);
    if Find(s.keys, key).None? {
      assert forall a :: 0 <= a < |s.keys| ==> r.keys[a] == s.keys[a];
    } else {
      assert forall a :: 0 <= a < |s.keys| ==> r.keys[a].key == s.keys[a].key;
    }
  }

  /** Lists stay newest first. */
  lemma PutKeepsOrder(s: Segment, key: string, time: nat, block: BlockId)
    requires forall i :: 0 <= i < |s.keys| ==> NewestFirst(s.keys[i].entries)
    ensures var r := Put(s, key, time, block);
      forall i :: 0 <= i < |r.keys| ==> NewestFirst(r.keys[i].entries)
  {
    match Find(s.keys, key)
    case None =>
    case Some(i) =>
      InsertKeepsOrder(s.keys[i].entries, Node(time, block));
  }

  /** The nodes of all keys grow by exactly one. */
  lemma PutAddsOneNode(s: Segment, key: string, time: nat, block: BlockId)
    ensures TotalNodes(Put(s, key, time, block).keys) == TotalNodes(s.keys) + 1
  {
    var node := Node(time, block);
    match Find(s.keys, key)
    case None =>
      TotalNodesAppend(s.keys, KeyEntry(key, [node], 0));
    case Some(i) =>
      var e := s.keys[i];
      TotalNodesUpdate(s.keys, i, e.(entries := InsertTime(e.entries, node)));
  }

  /** A put keeps a valid segment valid: keys stay distinct, lists stay newest first, and the counter still counts the nodes. */
  lemma PutKeepsValid(s: Segment, key: string, time: nat, block: BlockId)
    requires Valid(s) && s.dataCnt + 1 < TWO_64
    ensures Valid(Put(s, key, time, block))
  {
    PutKeepsKeysDistinct(s, key, time, block);
    PutKeepsOrder(s, key, time, block);
    PutAddsOneNode(s, key, time, block);
  }

  /** Look up the block at `time` under `key`; `hasOut` says whether the caller passed somewhere to put it. */
  function Get(s: Segment, key: string, time: nat, hasOut: bool): (r: (bool, Option<BlockId>))
    ensures r.0 <==> hasOut && Find(s.keys, key).Some?
    ensures r.0 ==> r.1 == TimeGet(s.keys[Find(s.keys, key).value].entries, time)
  {
    if !hasOut then (false, None)
    else match Find(s.keys, key)
      case None => (false, None)
      case Some(i) => (true, TimeGet(s.keys[i].entries, time))
  }

  /** Detach the nodes of `entry` not newer than `ts`, unless a reader holds the entry. */
  function SplitList(entry: KeyEntry, ts: nat): (r: (KeyEntry, seq<Node>))
    ensures r.0.key == entry.key && r.0.refs == entry.refs
    ensures r.0.entries + r.1 == entry.entries
    ensures entry.refs > 0 ==> r.1 == []
    ensures entry.refs <= 0 ==> forall i :: 0 <= i < |r.0.entries| ==> r.0.entries[i].time > ts
  {
    if entry.refs > 0 then (entry, [])
    else
      var k := Above(entry.entries, ts);
      assert entry.entries[..k] + entry.entries[k..] == entry.entries;
      (entry.(entries := entry.entries[..k]), entry.entries[k..])
  }

  /** In a list newest first, what is detached is exactly the nodes not newer than `ts`. */
  lemma SplitDetachesOld(entry: KeyEntry, ts: nat, node: Node)
    requires entry.refs <= 0 && NewestFirst(entry.entries)
    ensures node in SplitList(entry, ts).1 <==> node in entry.entries && node.time <= ts
  {
    var k := Above(entry.entries, ts);
    if node in entry.entries {
      var i :| 0 <= i < |entry.entries| && entry.entries[i] == node;
      AboveSplitsByTime(entry.entries, ts, i);
      if i >= k {
        assert entry.entries[k..][i - k] == node;
      }
    }
  }

  /** The result of collecting over a run of keys. */
  datatype Collected = Collected(keys: seq<KeyEntry>, count: nat, heap: Heap)

  /** Cut every key's list at `time` and free what was detached. */
  function ExpireKeys(keys: seq<KeyEntry>, time: nat, heap: Heap): (r: Collected)
    ensures |r.keys| == |keys|
    ensures forall i :: 0 <= i < |keys| ==> r.keys[i] == SplitList(keys[i], time).0
    decreases |keys|
  {
    if |keys| == 0 then Collected([], 0, heap)
    else
      var (kept, detached) := SplitList(keys[0], time);
      var (n, heap1) := FreeList(heap, detached);
      var rest := ExpireKeys(keys[1..], time, heap1);
      Collected([kept] + rest.keys, n + rest.count, rest.heap)
  }

  /** What collection frees is exactly what leaves the lists. */
  lemma {:induction false} ExpireCount(keys: seq<KeyEntry>, time: nat, heap: Heap)
    ensures ExpireKeys(keys, time, heap).count + TotalNodes(ExpireKeys(keys, time, heap).keys) == TotalNodes(keys)
    decreases |keys|
  {
    if |keys| > 0 {
      var (kept, detached) := SplitList(keys[0], time);
      var (n, heap1) := FreeList(heap, detached);
      ExpireCount(keys[1..], time, heap1);
      var r := ExpireKeys(keys, time, heap);
      assert r.keys[1..] == ExpireKeys(keys[1..], time, heap1).keys;
    }
  }

  /** Time-to-live collection: every key not held by a reader loses its nodes not newer than `time`. */
  function Gc4TTL(s: Segment, time: nat): (r: (Segment, nat))
    ensures |r.0.keys| == |s.keys|
    ensures forall i :: 0 <= i < |s.keys| ==> r.0.keys[i] == SplitList(s.keys[i], time).0
    ensures r.0.dataCnt == (s.dataCnt - r.1) % TWO_64
  {
    var c := ExpireKeys(s.keys, time, s.heap);
    (Segment(c.keys, (s.dataCnt - c.count) % TWO_64, c.heap), c.count)
  }

  /** The count returned is the number of nodes removed, and a valid segment stays valid. */
  lemma Gc4TTLKeepsCounter(s: Segment, time: nat)
    requires Valid(s) && s.dataCnt < TWO_64
    ensures Gc4TTL(s, time).1 == TotalNodes(s.keys) - TotalNodes(Gc4TTL(s, time).0.keys)
    ensures Valid(Gc4TTL(s, time).0)
  {
    ExpireCount(s.keys, time, s.heap);
    var r := Gc4TTL(s, time).0;
    forall i | 0 <= i < |r.keys|
      ensures NewestFirst(r.keys[i].entries)
    {
      assert r.keys[i].entries == s.keys[i].entries[..|r.keys[i].entries|];
    }
  }

  // ---------------------------------------------------------------- head collection

  /**
   Head collection of one key: a key with at most one node is left alone; otherwise it is
   cut at its second node's time and the detached nodes are freed and counted.
   */
  function CutKey(entry: KeyEntry, heap: Heap): (r: (KeyEntry, nat, Heap))
    ensures r.0.key == entry.key && r.0.refs == entry.refs
    ensures r.1 + |r.0.entries| == |entry.entries|
  {
    if |entry.entries| <= 1 then (entry, 0, heap)
    else
      var (kept, detached) := SplitList(entry, entry.entries[1].time);
      var (n, heap1) := FreeList(heap, detached);
      (kept, n, heap1)
  }

  /** Collect every key in turn, the blocks freed at one key passed on to the next. */
  function HeadKeys(keys: seq<KeyEntry>, heap: Heap): (r: Collected)
    ensures |r.keys| == |keys|
    decreases |keys|
  {
    if |keys| == 0 then Collected([], 0, heap)
    else
      var (kept, n, heap1) := CutKey(keys[0], heap);
      var rest := HeadKeys(keys[1..], heap1);
      Collected([kept] + rest.keys, n + rest.count, rest.heap)
  }

  /** Each key is left alone when it has at most one node, and otherwise cut at its second node's time. */
  lemma {:induction false} HeadKeysAt(keys: seq<KeyEntry>, heap: Heap, i: nat)
    requires i < |keys|
    ensures HeadKeys(keys, heap).keys[i] ==
      if |keys[i].entries| <= 1 then keys[i] else SplitList(keys[i], keys[i].entries[1].time).0
    decreases |keys|
  {
    if i > 0 {
      HeadKeysAt(keys[1..], CutKey(keys[0], heap).2, i - 1);
      assert keys[1..][i - 1] == keys[i];
    }
  }

  lemma {:induction false} HeadCount(keys: seq<KeyEntry>, heap: Heap)
    ensures HeadKeys(keys, heap).count + TotalNodes(HeadKeys(keys, heap).keys) == TotalNodes(keys)
    decreases |keys|
  {
    if |keys| > 0 {
      var r := HeadKeys(keys, heap);
      var heap1 := CutKey(keys[0], heap).2;
      HeadCount(keys[1..], heap1);
      assert r.keys[1..] == HeadKeys(keys[1..], heap1).keys;
    }
  }

  /** Head collection with keys of at most one node skipped, as the loop evidently intends. */
  function Gc4HeadSkipping(s: Segment): (r: (Segment, nat))
    ensures |r.0.keys| == |s.keys|
    ensures r.0.dataCnt == (s.dataCnt - r.1) % TWO_64
  {
    var c := HeadKeys(s.keys, s.heap);
    (Segment(c.keys, (s.dataCnt - c.count) % TWO_64, c.heap), c.count)
  }

  /**
   After head collection every key not held by a reader whose two newest nodes have
   different times keeps exactly its newest node; the count is the number of nodes removed.
   */
  lemma Gc4HeadKeepsNewest(s: Segment, i: nat)
    requires Valid(s) && i < |s.keys|
    requires s.keys[i].refs <= 0 && |s.keys[i].entries| >= 2
    requires s.keys[i].entries[0].time != s.keys[i].entries[1].time
    ensures Gc4HeadSkipping(s).0.keys[i].entries == [s.keys[i].entries[0]]
  {
    HeadKeysAt(s.keys, s.heap, i);
    var e := s.keys[i].entries;
    assert e[0].time >= e[1].time;
    var k := Above(e, e[1].time);
    assert k == 1 by {
      assert e[1..][0] == e[1];
    }
  }

  lemma Gc4HeadCount(s: Segment)
    requires Valid(s) && s.dataCnt < TWO_64
    ensures Gc4HeadSkipping(s).1 == TotalNodes(s.keys) - TotalNodes(Gc4HeadSkipping(s).0.keys)
    ensures Gc4HeadSkipping(s).0.dataCnt == TotalNodes(Gc4HeadSkipping(s).0.keys)
  {
    HeadCount(s.keys, s.heap);
  }

  /**
   The inner scan of head collection over a key's nodes from position `idx`: it counts
   nodes until one has been passed and then takes the time of the node it stands on.
   */
  function ScanSecond(entries: seq<Node>, idx: nat, cnt: nat, ts: nat): (r: (nat, nat))
    requires cnt <= 1
    ensures idx >= |entries| ==> r == (cnt, ts)
    ensures idx < |entries| && cnt == 1 ==> r == (1, entries[idx].time)
    ensures idx + 1 < |entries| && cnt == 0 ==> r == (1, entries[idx + 1].time)
    ensures idx + 1 == |entries| && cnt == 0 ==> r == (1, ts)
    decreases |entries| - idx
  {
    if idx >= |entries| then (cnt, ts)
    else if cnt == 1 then (cnt, entries[idx].time)
    else ScanSecond(entries, idx + 1, cnt + 1, ts)
  }

  /** The head collection loop's state: the key iterator's position, the keys, the count so far and the blocks. */
  datatype HeadState = HeadState(pos: nat, keys: seq<KeyEntry>, count: nat, heap: Heap)

  /** The key iterator's `Next`: move to the following key. */
  function Advance(st: HeadState): (r: HeadState)
    ensures r.pos == st.pos + 1 && r.keys == st.keys && r.count == st.count && r.heap == st.heap
  {
    st.(pos := st.pos + 1)
  }

  /**
   One pass of the head collection loop body at the iterator's key. A key of at most one
   node is skipped: as written (`skipAdvances` false) without moving the iterator, as
   intended with it. Otherwise the inner scan finds the second node's time, the key is cut
   there, the detached nodes are freed and counted, and the iterator moves on.
   */
  function HeadStep(st: HeadState, skipAdvances: bool): (r: HeadState)
    requires st.pos < |st.keys|
    ensures |r.keys| == |st.keys|
    ensures |st.keys[st.pos].entries| <= 1 ==> r == if skipAdvances then st.(pos := st.pos + 1) else st
    ensures |st.keys[st.pos].entries| >= 2 ==>
      var (kept, n, heap1) := CutKey(st.keys[st.pos], st.heap);
      r == HeadState(st.pos + 1, st.keys[st.pos := kept], st.count + n, heap1)
  {
    var entry := st.keys[st.pos];
    if |entry.entries| <= 1 then
      if skipAdvances then Advance(st) else st
    else
      var (cnt, ts) := ScanSecond(entry.entries, 0, 0, 0);
      // with two nodes or more the scan always passes the first one; the source still
      // advances the iterator on that path
      if cnt != 1 then assert false; Advance(st)
      else
        var (kept, detached) := SplitList(entry, ts);
        var (n, heap1) := FreeList(st.heap, detached);
        HeadState(st.pos + 1, st.keys[st.pos := kept], st.count + n, heap1)
  }

  /** A pass changes no key but the one at the iterator. */
  lemma HeadStepKeepsOthers(st: HeadState, skipAdvances: bool, j: nat)
    requires st.pos < |st.keys| && j < |st.keys| && j != st.pos
    ensures HeadStep(st, skipAdvances).keys[j] == st.keys[j]
  {
  }

  /** The loop run for at most `fuel` passes: the final state, or `None` when it has not ended by then. */
  function HeadLoop(st: HeadState, skipAdvances: bool, fuel: nat): (r: Option<HeadState>)
    requires st.pos <= |st.keys|
    ensures r.Some? ==> r.value.pos == |r.value.keys| == |st.keys|
    decreases fuel
  {
    if st.pos == |st.keys| then Some(st)
    else if fuel == 0 then None
    else HeadLoop(HeadStep(st, skipAdvances), skipAdvances, fuel - 1)
  }

  /** One pass over the first key of `rest`, when it is collected as the recursive collection does. */
  lemma HeadStepFirst(done: seq<KeyEntry>, rest: seq<KeyEntry>, count: nat, heap: Heap, skipAdvances: bool,
                      kept: KeyEntry, n: nat, heap1: Heap)
    requires |rest| > 0 && CutKey(rest[0], heap) == (kept, n, heap1)
    requires skipAdvances || |rest[0].entries| >= 2
    ensures HeadStep(HeadState(|done|, done + rest, count, heap), skipAdvances)
      == HeadState(|done + [kept]|, (done + [kept]) + rest[1..], count + n, heap1)
  {
    var st := HeadState(|done|, done + rest, count, heap);
    assert st.keys[st.pos] == rest[0];
    if |rest[0].entries| <= 1 {
      assert done + rest == (done + [kept]) + rest[1..];
    } else {
      assert st.keys[st.pos := kept] == (done + [kept]) + rest[1..];
    }
  }

  /** The recursive collection of a run of keys: its first key cut, then the rest from the blocks left. */
  lemma HeadKeysCons(rest: seq<KeyEntry>, heap: Heap, kept: KeyEntry, n: nat, heap1: Heap)
    requires |rest| > 0 && CutKey(rest[0], heap) == (kept, n, heap1)
    ensures HeadKeys(rest, heap) ==
      Collected([kept] + HeadKeys(rest[1..], heap1).keys, n + HeadKeys(rest[1..], heap1).count, HeadKeys(rest[1..], heap1).heap)
  {
  }

  /** The loop's passes run to the last key with skipped keys passed over: the end state it evidently intends. */
  function HeadRun(st: HeadState): (r: HeadState)
    requires st.pos <= |st.keys|
    ensures r.pos == |r.keys| == |st.keys|
    decreases |st.keys| - st.pos
  {
    if st.pos == |st.keys| then st else HeadRun(HeadStep(st, true))
  }

  /**
   The loop ends within one pass per remaining key, in the state `HeadRun` gives, whenever
   skipped keys advance the iterator or, as written, no remaining key has at most one node.
   */
  lemma {:induction false} HeadLoopRuns(st: HeadState, skipAdvances: bool, fuel: nat)
    requires st.pos <= |st.keys| && fuel >= |st.keys| - st.pos
    requires skipAdvances || forall j :: st.pos <= j < |st.keys| ==> |st.keys[j].entries| >= 2
    ensures HeadLoop(st, skipAdvances, fuel) == Some(HeadRun(st))
    decreases |st.keys| - st.pos
  {
    if st.pos < |st.keys| {
      var next := HeadStep(st, skipAdvances);
      assert next == HeadStep(st, true);
      if !skipAdvances {
        forall j | next.pos <= j < |next.keys|
          ensures |next.keys[j].entries| >= 2
        {
          HeadStepKeepsOthers(st, false, j);
        }
      }
      HeadLoopRuns(next, skipAdvances, fuel - 1);
    }
  }

  /**
   From a state whose keys are some done keys followed by `rest`, the intended run collects
   exactly what the recursive head collection of `rest` does.
   */
  lemma {:induction false} HeadRunCollects(done: seq<KeyEntry>, rest: seq<KeyEntry>, count: nat, heap: Heap)
    ensures var c := HeadKeys(rest, heap);
      HeadRun(HeadState(|done|, done + rest, count, heap)) == HeadState(|done| + |rest|, done + c.keys, count + c.count, c.heap)
    decreases |rest|
  {
    var st := HeadState(|done|, done + rest, count, heap);
    var c := HeadKeys(rest, heap);
    if |rest| == 0 {
      assert done + rest == done;
      assert c.keys == [];
      assert done + c.keys == done;
    } else {
      var (kept, n, heap1) := CutKey(rest[0], heap);
      var tail := rest[1..];
      HeadRunFirst(done, rest, count, heap, kept, n, heap1);
      var done1 := done + [kept];
      HeadRunCollects(done1, tail, count + n, heap1);
      var c1 := HeadKeys(tail, heap1);
      HeadKeysCons(rest, heap, kept, n, heap1);
      HeadCollectsJoin(HeadRun(st), done, rest, count, kept, n, c, c1);
    }
  }

  /** The intended run from a state is the run from the state after its first pass. */
  lemma HeadRunFirst(done: seq<KeyEntry>, rest: seq<KeyEntry>, count: nat, heap: Heap, kept: KeyEntry, n: nat, heap1: Heap)
    requires |rest| > 0 && CutKey(rest[0], heap) == (kept, n, heap1)
    ensures HeadRun(HeadState(|done|, done + rest, count, heap))
      == HeadRun(HeadState(|done + [kept]|, (done + [kept]) + rest[1..], count + n, heap1))
  {
    HeadStepFirst(done, rest, count, heap, true, kept, n, heap1);
    var st := HeadState(|done|, done + rest, count, heap);
    assert HeadRun(st) == HeadRun(HeadStep(st, true));
  }

  /** The bookkeeping of one inductive step of `HeadRunCollects`, over plain values. */
  lemma HeadCollectsJoin(r: HeadState, done: seq<KeyEntry>, rest: seq<KeyEntry>, count: nat,
                         kept: KeyEntry, n: nat, c: Collected, c1: Collected)
    requires |rest| > 0
    requires r == HeadState(|done + [kept]| + |rest[1..]|, (done + [kept]) + c1.keys, count + n + c1.count, c1.heap)
    requires c == Collected([kept] + c1.keys, n + c1.count, c1.heap)
    ensures r == HeadState(|done| + |rest|, done + c.keys, count + c.count, c.heap)
  {
    ConsAppend(done, kept, c1.keys);
  }

  lemma ConsAppend(a: seq<KeyEntry>, x: KeyEntry, b: seq<KeyEntry>)
    ensures (a + [x]) + b == a + ([x] + b)
  {
  }

  /**
   As written, once some key at or after the iterator has at most one node, the loop never
   ends: the keys before it are passed, and at it the loop body returns the state it was given.
   */
  lemma {:induction false} HeadLoopHangs(st: HeadState, fuel: nat, j: nat)
    requires st.pos <= j < |st.keys| && |st.keys[j].entries| <= 1
    ensures HeadLoop(st, false, fuel).None?
    decreases fuel
  {
    if fuel > 0 {
      var next := HeadStep(st, false);
      assert HeadLoop(st, false, fuel) == HeadLoop(next, false, fuel - 1);
      if |st.keys[st.pos].entries| <= 1 {
        assert next == st;
        HeadLoopHangs(st, fuel - 1, j);
      } else {
        HeadStepKeepsOthers(st, false, j);
        assert next.pos <= j < |next.keys| && |next.keys[j].entries| <= 1;
        HeadLoopHangs(next, fuel - 1, j);
      }
    }
  }

  /** The segment after a run of the loop from the first key, with the counter moved by the count. */
  function HeadFinish(s: Segment, r: Option<HeadState>): (f: Option<(Segment, nat)>)
    ensures f.Some? <==> r.Some?
  {
    match r
    case None => None
    case Some(st) => Some((Segment(st.keys, (s.dataCnt - st.count) % TWO_64, st.heap), st.count))
  }

  /**
   Head collection as written, run for at most `fuel` passes of its loop; `None` means the
   loop has not ended.
   */
  function Gc4HeadAsWritten(s: Segment, fuel: nat): (r: Option<(Segment, nat)>)
    ensures r.Some? ==> |r.value.0.keys| == |s.keys| && r.value.0.dataCnt == (s.dataCnt - r.value.1) % TWO_64
  {
    HeadFinish(s, HeadLoop(HeadState(0, s.keys, 0, s.heap), false, fuel))
  }

  /** As written, a segment with a key of at most one node makes head collection run forever. */
  lemma Gc4HeadAsWrittenHangs(s: Segment, fuel: nat)
    requires exists i :: 0 <= i < |s.keys| && |s.keys[i].entries| <= 1
    ensures Gc4HeadAsWritten(s, fuel).None?
  {
    var i :| 0 <= i < |s.keys| && |s.keys[i].entries| <= 1;
    HeadLoopHangs(HeadState(0, s.keys, 0, s.heap), fuel, i);
  }

  /** From the first key, the loop ends after one pass per key with what the recursive head collection gives. */
  lemma HeadLoopFromStart(keys: seq<KeyEntry>, heap: Heap, skipAdvances: bool)
    requires skipAdvances || forall j :: 0 <= j < |keys| ==> |keys[j].entries| >= 2
    ensures var c := HeadKeys(keys, heap);
      HeadLoop(HeadState(0, keys, 0, heap), skipAdvances, |keys|) == Some(HeadState(|keys|, c.keys, c.count, c.heap))
  {
    var c := HeadKeys(keys, heap);
    var st := HeadState(0, keys, 0, heap);
    HeadLoopRuns(st, skipAdvances, |keys|);
    HeadRunFromStart(st, keys, heap, c);
  }

  /** The loop's passes from the first key collect what the recursive head collection gives. */
  lemma HeadRunFromStart(st: HeadState, keys: seq<KeyEntry>, heap: Heap, c: Collected)
    requires st == HeadState(0, keys, 0, heap) && c == HeadKeys(keys, heap)
    ensures HeadRun(st) == HeadState(|keys|, c.keys, c.count, c.heap)
  {
    var empty: seq<KeyEntry> := [];
    assert empty + keys == keys;
    assert empty + c.keys == c.keys;
    HeadRunCollects(empty, keys, 0, heap);
  }

  /** As written, a segment whose every key has two nodes or more is collected as intended, in one pass per key. */
  lemma Gc4HeadAsWrittenAgrees(s: Segment)
    requires forall i :: 0 <= i < |s.keys| ==> |s.keys[i].entries| >= 2
    ensures Gc4HeadAsWritten(s, |s.keys|) == Some(Gc4HeadSkipping(s))
  {
    HeadLoopFromStart(s.keys, s.heap, false);
  }

  /** The loop with the iterator advanced on a skipped key ends after one pass per key with the intended result. */
  lemma Gc4HeadLoopCorrected(s: Segment)
    ensures HeadFinish(s, HeadLoop(HeadState(0, s.keys, 0, s.heap), true, |s.keys|)) == Some(Gc4HeadSkipping(s))
  {
    HeadLoopFromStart(s.keys, s.heap, true);
  }

  /** A segment with one key holding one node: as written no number of passes ends the loop, while the corrected one frees nothing. */
  lemma Gc4HeadHangsOnSingleNode(fuel: nat)
    ensures var s := Segment([KeyEntry("k", [Node(1, 7)], 0)], 1, map[7 := 1]);
      Gc4HeadAsWritten(s, fuel).None? && Gc4HeadSkipping(s) == (s, 0)
  {
    var s := Segment([KeyEntry("k", [Node(1, 7)], 0)], 1, map[7 := 1]);
    assert |s.keys[0].entries| <= 1;
    Gc4HeadAsWrittenHangs(s, fuel);
    assert HeadKeys(s.keys[1..], s.heap) == Collected([], 0, s.heap);
    assert HeadKeys(s.keys, s.heap) == Collected(s.keys, 0, s.heap);
  }

  // ---------------------------------------------------------------- release and readers

  /** Free every key's nodes and drop all keys. The data counter is left as it was. */
  function ReleaseKeys(keys: seq<KeyEntry>, heap: Heap): (r: (nat, Heap))
    ensures r.0 == TotalNodes(keys)
    ensures r.1.Keys <= heap.Keys
    decreases |keys|
  {
    if |keys| == 0 then (0, heap)
    else
      var (n, heap1) := FreeList(heap, keys[0].entries);
      var rest := ReleaseKeys(keys[1..], heap1);
      (n + rest.0, rest.1)
  }

  function Release(s: Segment): (r: (Segment, nat))
    ensures r.0.keys == [] && r.0.dataCnt == s.dataCnt
    ensures r.1 == TotalNodes(s.keys)
    ensures Valid(s) ==> r.1 == s.dataCnt
  {
    var (n, heap) := ReleaseKeys(s.keys, s.heap);
    (Segment([], s.dataCnt, heap), n)
  }

  /**
   A reader's iterator over a key's nodes. The key's entry is pushed on the reader's ticket,
   and the push takes a reference on the entry (`refs + 1`) that the ticket holds.
   */
  function NewIterator(s: Segment, key: string, ticket: seq<string>): (r: (Option<seq<Node>>, Segment, seq<string>))
    ensures r.0.None? <==> Find(s.keys, key).None?
    ensures r.0.None? ==> r.1 == s && r.2 == ticket
    ensures r.1.dataCnt == s.dataCnt && r.1.heap == s.heap && |r.1.keys| == |s.keys|
    ensures forall j :: 0 <= j < |s.keys| ==>
      r.1.keys[j].key == s.keys[j].key && r.1.keys[j].entries == s.keys[j].entries
    ensures r.0.Some? ==>
      var i := Find(s.keys, key).value;
      && r.0.value == s.keys[i].entries
      && r.2 == ticket + [key]
      && r.1.keys[i].refs == s.keys[i].refs + 1
      && forall j :: 0 <= j < |s.keys| && j != i ==> r.1.keys[j] == s.keys[j]
  {
    match Find(s.keys, key)
    case None => (None, s, ticket)
    case Some(i) =>
      var held := s.keys[i].(refs := s.keys[i].refs + 1);
      (Some(s.keys[i].entries), s.(keys := s.keys[i := held]), ticket + [key])
  }

  /**
   While a reader's iterator holds a key, time-to-live and head collection leave its nodes
   alone, and the segment stays valid.
   */
  lemma NewIteratorProtectsKey(s: Segment, key: string, ticket: seq<string>, time: nat)
    requires Valid(s)
    requires Find(s.keys, key).Some? && s.keys[Find(s.keys, key).value].refs >= 0
    ensures var held := NewIterator(s, key, ticket).1;
      var i := Find(s.keys, key).value;
      && Valid(held)
      && Gc4TTL(held, time).0.keys[i].entries == s.keys[i].entries
      && Gc4HeadSkipping(held).0.keys[i].entries == s.keys[i].entries
  {
    var held := NewIterator(s, key, ticket).1;
    TotalNodesSameEntries(s.keys, held.keys);
    HeadKeysAt(held.keys, held.heap, Find(s.keys, key).value);
  }

  /** The node count depends on the lists only. */
  lemma {:induction false} TotalNodesSameEntries(a: seq<KeyEntry>, b: seq<KeyEntry>)
    requires |a| == |b|
    requires forall j :: 0 <= j < |a| ==> a[j].entries == b[j].entries
    ensures TotalNodes(a) == TotalNodes(b)
    decreases |a|
  {
    if |a| > 0 {
      TotalNodesSameEntries(a[1..], b[1..]);
    }
  }
}
