/** The query-side dictionary. The compiled file is split into lines, one
    encoded node per line in arena order. A line is decoded only when the
    scan first needs its node, and the decoded nodes are kept in a cache
    whose size is bounded by a first-in-first-out queue. The JSON codec is
    not modelled: `encode` and `decode` are parameters. */
module LazyDictionary {
  import opened Options
  import opened Text
  import opened Nodes
  import opened Automaton
  import opened MatchOrder
  import AhoCorasick

  const Newline: byte := 10

  /** The decoded nodes by index, the indices in load order (used only when
      `cacheSize > 0`), the cache bound (zero or less means unbounded), and
      the undecoded lines. */
  datatype Dictionary = Dictionary(cache: map<int, Node>, queue: seq<int>, cacheSize: int, lines: seq<seq<byte>>)

  /** What `loadNode` hands back: the dictionary after the call and the node. */
  datatype Loaded = Loaded(dict: Dictionary, node: Node)

  /** The cache only holds what the lines decode to. With a positive bound,
      the queue never grows past the bound and every cached index is
      queued; with no bound, nothing is ever queued. */
  ghost predicate CacheOk(decode: seq<byte> -> Option<Node>, d: Dictionary) {
    && (forall i :: i in d.cache ==> 0 <= i < |d.lines| && decode(d.lines[i]) == Some(d.cache[i]))
    && (d.cacheSize > 0 ==> |d.queue| <= d.cacheSize && forall i :: i in d.cache ==> i in d.queue)
    && (d.cacheSize <= 0 ==> d.queue == [])
  }

  /** The node line `idx` stands for, independently of any cache: what it
      decodes to, or the blank node for a missing or unreadable line. */
  function LineNode(decode: seq<byte> -> Option<Node>, lines: seq<seq<byte>>, idx: int): Node
    requires idx >= 0
  {
    if idx < |lines| then decode(lines[idx]).GetOr(BlankNode) else BlankNode
  }

  /** `NewDictionary`: an empty cache with the given bound and no lines. */
  function NewDictionary(cacheSize: int): (d: Dictionary)
    ensures d.cacheSize == cacheSize && d.lines == [] && |d.cache| == 0
    ensures forall decode :: CacheOk(decode, d)
  {
    Dictionary(map[], [], cacheSize, [])
  }

  /** `LoadFromBytes`: one line per newline-separated piece of the file;
      the cache is left as it is. */
  function LoadFromBytes(d: Dictionary, content: seq<byte>): (d': Dictionary)
    ensures |d'.lines| >= 1 && JoinWith(d'.lines, Newline) == content
    ensures forall i :: 0 <= i < |d'.lines| ==> Newline !in d'.lines[i]
    ensures d'.cache == d.cache && d'.queue == d.queue && d'.cacheSize == d.cacheSize
  {
    JoinSplit(content, Newline);
    d.(lines := SplitOn(content, Newline))
  }

  /** `unloadOldestNodes`: once the queue is over a positive bound, forget
      the oldest queued index and keep the first `cacheSize` of the rest. */
  function UnloadOldest(d: Dictionary): (d': Dictionary)
    ensures d'.lines == d.lines && d'.cacheSize == d.cacheSize
    ensures d.cacheSize <= 0 || |d.queue| <= d.cacheSize ==> d' == d
    ensures forall i :: i in d'.cache ==> i in d.cache && d'.cache[i] == d.cache[i]
    ensures forall i :: i in d.cache && i !in d'.cache ==> d.queue != [] && i == d.queue[0]
    ensures |d.queue| == d.cacheSize + 1 && d.cacheSize > 0 ==>
      && d'.queue == d.queue[1..]
      && forall i :: i in d'.cache <==> i in d.cache && i != d.queue[0]
  {
    if |d.queue| <= d.cacheSize || d.cacheSize <= 0 then d
    else d.(cache := map i | i in d.cache && i != d.queue[0] :: d.cache[i],
            queue := d.queue[1..d.cacheSize + 1])
  }

  /** `loadNode`: a cached node is returned as is (a hit does not move it
      in the queue). Otherwise the index is queued (evicting the oldest
      entry if the bound is passed), the line is decoded, and the node is
      cached; an index past the last line, or a line that does not decode,
      gives the blank node and caches nothing. A negative index would make
      `loadNode` index the line slice out of range, hence `idx >= 0`. */
  function LoadNode(decode: seq<byte> -> Option<Node>, d: Dictionary, idx: int): (res: Loaded)
    requires idx >= 0
    ensures res.dict.lines == d.lines && res.dict.cacheSize == d.cacheSize
    ensures idx in d.cache ==> res.dict == d
    ensures CacheOk(decode, d) ==>
      && CacheOk(decode, res.dict)
      && res.node == LineNode(decode, d.lines, idx)
      && (idx in res.dict.cache <==> idx < |d.lines| && decode(d.lines[idx]).Some?)
      && (res.dict.cacheSize > 0 ==> |res.dict.cache| <= res.dict.cacheSize)
    ensures d.cacheSize <= 0 ==> forall i :: i in d.cache ==> i in res.dict.cache
    ensures forall i :: i in d.cache && i !in res.dict.cache ==> d.queue != [] && i == d.queue[0]
  {
    CacheFits(d);
    if idx in d.cache then Loaded(d, d.cache[idx])
    else
      EnqueueKeeps(decode, d, idx);
      var res := Store(decode, Enqueue(d, idx), idx);
      CacheFits(res.dict);
      res
  }

  /** On a miss with a positive bound, `loadNode` queues the index behind
      the others, dropping the oldest first when the queue is full; with
      no bound the queue stays as it is. */
  lemma LoadNodeQueue(decode: seq<byte> -> Option<Node>, d: Dictionary, idx: int)
    requires idx >= 0 && idx !in d.cache
    ensures d.cacheSize > 0 && |d.queue| <= d.cacheSize ==>
      LoadNode(decode, d, idx).dict.queue == (if |d.queue| == d.cacheSize then d.queue[1..] else d.queue) + [idx]
    ensures d.cacheSize <= 0 ==> LoadNode(decode, d, idx).dict.queue == d.queue
  {
  }

  /** After a miss with a positive bound: queue the index, evicting the
      oldest entry if that passes the bound. */
  function Enqueue(d: Dictionary, idx: int): (d1: Dictionary)
    ensures d1.lines == d.lines && d1.cacheSize == d.cacheSize
    ensures d.cacheSize <= 0 ==> d1 == d
    ensures forall i :: i in d1.cache ==> i in d.cache && d1.cache[i] == d.cache[i]
    ensures forall i :: i in d.cache && i !in d1.cache ==> d.queue != [] && i == d.queue[0]
    ensures d.cacheSize > 0 && |d.queue| < d.cacheSize ==> d1.queue == d.queue + [idx] && d1.cache == d.cache
    ensures d.cacheSize > 0 && |d.queue| == d.cacheSize ==>
      && d1.queue == d.queue[1..] + [idx]
      && forall i :: i in d1.cache <==> i in d.cache && i != d.queue[0]
  {
    if d.cacheSize > 0 then
      assert |d.queue| == d.cacheSize ==> (d.queue + [idx])[1..] == d.queue[1..] + [idx];
      UnloadOldest(d.(queue := d.queue + [idx]))
    else d
  }

  /** Then decode line `idx`, caching the node only when the line exists
      and decodes. */
  function Store(decode: seq<byte> -> Option<Node>, d: Dictionary, idx: int): (res: Loaded)
    requires idx >= 0
    ensures res.node == LineNode(decode, d.lines, idx)
    ensures res.dict == if idx < |d.lines| && decode(d.lines[idx]).Some? then d.(cache := d.cache[idx := res.node]) else d
  {
    if |d.lines| <= idx then Loaded(d, BlankNode)
    else match decode(d.lines[idx])
      case None => Loaded(d, BlankNode)
      case Some(n) => Loaded(d.(cache := d.cache[idx := n]), n)
  }

  /** Queueing a missed index under a positive bound, with the eviction it
      may cause, keeps the queue within the bound, queues the index, and
      only drops cached entries. */
  lemma EnqueueKeeps(decode: seq<byte> -> Option<Node>, d: Dictionary, idx: int)
    ensures CacheOk(decode, d) && idx !in d.cache && d.cacheSize > 0 ==>
      var d1 := Enqueue(d, idx);
      && |d1.queue| <= d1.cacheSize && idx in d1.queue
      && (forall i :: i in d1.cache ==> i in d.cache && i in d1.queue)
  {
    if CacheOk(decode, d) && idx !in d.cache && d.cacheSize > 0 {
      var q := d.queue + [idx];
      var d1 := Enqueue(d, idx);
      if |q| == d.cacheSize + 1 {
        assert d1.queue == q[1..];
        assert d1.queue[|d1.queue| - 1] == idx;
        forall i | i in d1.cache ensures i in d.cache && i in d1.queue {
          assert i in d.cache && i != q[0];
          assert i in d.queue;
          var k :| 0 <= k < |d.queue| && d.queue[k] == i;
          assert k != 0;
          assert d1.queue[k - 1] == i;
        }
      } else {
        assert q[|q| - 1] == idx;
      }
    }
  }

  /** With a positive bound, the cache holds at most `cacheSize` nodes. */
  lemma CacheFits(d: Dictionary)
    ensures d.cacheSize > 0 && |d.queue| <= d.cacheSize && (forall i :: i in d.cache ==> i in d.queue) ==>
      |d.cache| <= d.cacheSize
  {
    if d.cacheSize > 0 && |d.queue| <= d.cacheSize && (forall i :: i in d.cache ==> i in d.queue) {
      CoveredSize(d.cache.Keys, d.queue);
    }
  }

  /** A set whose elements all occur in `q` has at most `|q|` elements. */
  lemma {:induction false} CoveredSize(s: set<int>, q: seq<int>)
    requires forall i :: i in s ==> i in q
    ensures |s| <= |q|
  {
    if q == [] {
      assert forall i :: i !in s;
      assert s == {};
    } else {
      var s' := s - {q[0]};
      forall i | i in s' ensures i in q[1..] {
        var k :| 0 <= k < |q| && q[k] == i;
        assert q[1..][k - 1] == i;
      }
      CoveredSize(s', q[1..]);
    }
  }

  /** The lines hold the arena: line `i` decodes to node `i`. */
  ghost predicate Holds(decode: seq<byte> -> Option<Node>, lines: seq<seq<byte>>, nodes: seq<Node>) {
    |nodes| <= |lines| && forall i :: 0 <= i < |nodes| ==> decode(lines[i]) == Some(nodes[i])
  }

  /** A load from a consistent cache gives the arena's node. */
  method Fetch(decode: seq<byte> -> Option<Node>, d: Dictionary, ghost nodes: seq<Node>, x: int)
    returns (d': Dictionary, n: Node)
    requires CacheOk(decode, d) && Holds(decode, d.lines, nodes) && 0 <= x < |nodes|
    ensures n == nodes[x]
    ensures CacheOk(decode, d') && d'.lines == d.lines && d'.cacheSize == d.cacheSize
  {
    var got := LoadNode(decode, d, x);
    d', n := got.dict, got.node;
  }

  /** One code point of the lazy scan: fall back along failure links while
      the node has no edge for `r`, then take the edge if there is one. The
      node reached is the automaton's `Goto`. */
  method Advance(decode: seq<byte> -> Option<Node>, d: Dictionary, ghost nodes: seq<Node>, ghost paths: seq<string>, x: int, r: char)
    returns (y: int, d': Dictionary)
    requires Linked(nodes, paths) && 0 <= x < |nodes|
    requires CacheOk(decode, d) && Holds(decode, d.lines, nodes)
    ensures y == AhoCorasick.Goto(nodes, paths, x, r)
    ensures CacheOk(decode, d') && d'.lines == d.lines && d'.cacheSize == d.cacheSize
  {
    y := x;
    d' := d;
    var n: Node;
    while y != RootIdx
      invariant 0 <= y < |nodes| && CacheOk(decode, d') && d'.lines == d.lines && d'.cacheSize == d.cacheSize
      invariant AhoCorasick.Goto(nodes, paths, y, r) == AhoCorasick.Goto(nodes, paths, x, r)
      decreases |paths[y]|
    {
      d', n := Fetch(decode, d', nodes, y);
      if r in n.children {
        break;
      }
      d', n := Fetch(decode, d', nodes, y);
      FailShallower(nodes, paths, y);
      y := n.fail;
    }
    d', n := Fetch(decode, d', nodes, y);
    if r in n.children {
      y := n.children[r];
    }
  }

  /** `Search` over the lazy dictionary, loading nodes as the scan needs
      them, in the order the Go `Search` makes its `loadNode` calls. Its result
      is the result of the scan over the decoded arena, whatever the cache
      bound and whatever the cache held before. */
  method Search(decode: seq<byte> -> Option<Node>, d: Dictionary, ghost nodes: seq<Node>, ghost paths: seq<string>, text: string)
    returns (res: MatchesResult, d': Dictionary)
    requires Linked(nodes, paths) && CacheOk(decode, d) && Holds(decode, d.lines, nodes)
    ensures res == AhoCorasick.Search(nodes, paths, text)
    ensures CacheOk(decode, d') && d'.lines == d.lines && d'.cacheSize == d.cacheSize
  {
    var x := RootIdx;
    var found: seq<Match> := [];
    d' := d;
    for i := 0 to |text|
      invariant 0 <= x < |nodes|
      invariant CacheOk(decode, d') && d'.lines == d.lines && d'.cacheSize == d.cacheSize
      invariant found + AhoCorasick.ScanFrom(nodes, paths, text, i, x) == AhoCorasick.ScanFrom(nodes, paths, text, 0, RootIdx)
    {
      ghost var before := x;
      x, d' := Advance(decode, d', nodes, paths, x, text[i]);
      var n;
      d', n := Fetch(decode, d', nodes, x);
      var out := AhoCorasick.Emit(n.output, i);
      ghost var rest := AhoCorasick.ScanFrom(nodes, paths, text, i + 1, x);
      assert AhoCorasick.ScanFrom(nodes, paths, text, i, before) == out + rest;
      assert (found + out) + rest == found + (out + rest);
      found := found + out;
    }
    assert AhoCorasick.ScanFrom(nodes, paths, text, |text|, x) == [];
    assert found == AhoCorasick.ScanFrom(nodes, paths, text, 0, RootIdx);
    res := MatchesResult(text, SortStable(found));
  }

  /** `DictionaryBuilder.Save`: every node encoded and followed by a
      newline, in arena order. */
  function Save(encode: Node -> seq<byte>, nodes: seq<Node>): (content: seq<byte>)
    ensures |content| >= |nodes|
    decreases |nodes|
  {
    if nodes == [] then [] else encode(nodes[0]) + [Newline] + Save(encode, nodes[1..])
  }

  /** The encoded records of an arena, one per node. */
  function Records(encode: Node -> seq<byte>, nodes: seq<Node>): (rs: seq<seq<byte>>)
    ensures |rs| == |nodes| && forall i :: 0 <= i < |nodes| ==> rs[i] == encode(nodes[i])
  {
    seq(|nodes|, i requires 0 <= i < |nodes| => encode(nodes[i]))
  }

  /** Saved content is the records joined by newlines, with a final empty
      piece after the last newline. */
  lemma {:induction false} SaveIsJoin(encode: Node -> seq<byte>, nodes: seq<Node>)
    ensures Save(encode, nodes) == JoinWith(Records(encode, nodes) + [[]], Newline)
    decreases |nodes|
  {
    if nodes != [] {
      SaveIsJoin(encode, nodes[1..]);
      var rs := Records(encode, nodes) + [[]];
      assert rs[1..] == Records(encode, nodes[1..]) + [[]];
    }
  }

  /** Splitting saved content on newlines gives line `i` = node `i`'s
      record for every node, then one trailing empty line. */
  lemma SaveLines(encode: Node -> seq<byte>, nodes: seq<Node>)
    requires forall n :: Newline !in encode(n)
    ensures SplitOn(Save(encode, nodes), Newline) == Records(encode, nodes) + [[]]
  {
    SaveIsJoin(encode, nodes);
    var rs := Records(encode, nodes) + [[]];
    forall i | 0 <= i < |rs| ensures Newline !in rs[i] {
      if i < |nodes| {
        assert rs[i] == encode(nodes[i]);
      }
    }
    SplitJoin(rs, Newline);
  }

  /** A dictionary loaded from what `Save` wrote holds the saved arena, when
      decoding undoes encoding and records contain no newline. */
  lemma LoadSaved(encode: Node -> seq<byte>, decode: seq<byte> -> Option<Node>, nodes: seq<Node>, cacheSize: int)
    requires forall n :: Newline !in encode(n) && decode(encode(n)) == Some(n)
    ensures var d := LoadFromBytes(NewDictionary(cacheSize), Save(encode, nodes));
      && CacheOk(decode, d)
      && Holds(decode, d.lines, nodes)
      && |d.lines| == |nodes| + 1 && d.lines[|nodes|] == []
  {
    SaveLines(encode, nodes);
    var d := LoadFromBytes(NewDictionary(cacheSize), Save(encode, nodes));
    assert d.lines == Records(encode, nodes) + [[]];
    forall i | 0 <= i < |nodes| ensures decode(d.lines[i]) == Some(nodes[i]) {
      assert d.lines[i] == encode(nodes[i]);
    }
  }
}
