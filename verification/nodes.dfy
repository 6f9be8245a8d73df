/** The node arena shared by the dictionary builder and the lazy reader:
    words, nodes addressed by index (root 0, fail sentinel -1), walking the
    trie along its edges, and the shape a well-formed trie has. */
module Nodes {
  import opened Options
  import opened Text

  /** A dictionary entry: the text to look for and its transliteration. */
  datatype Word = Word(word: string, translit: string)

  /** One trie node: edges by code point, the failure link, and the words
      reported when the scan stands on this node. */
  datatype Node = Node(children: map<char, int>, fail: int, output: seq<Word>)

  const RootIdx: int := 0

  /** The failure link of the root, and of every node before `Build`. */
  const NoFail: int := -1

  /** What `NewDictionaryBuilder` and `AddWord` append, and what the lazy
      reader substitutes for a line it cannot read. */
  const BlankNode: Node := Node(map[], NoFail, [])

  /** Every edge points forward in the arena (`AddWord` appends the child
      after its parent) and stays inside it. */
  predicate EdgesForward(nodes: seq<Node>) {
    forall i, r :: 0 <= i < |nodes| && r in nodes[i].children ==>
      i < nodes[i].children[r] < |nodes|
  }

  /** Follow the edges spelling `s` from node `cur`. */
  function Walk(nodes: seq<Node>, cur: int, s: string): (r: Option<int>)
    requires EdgesForward(nodes) && 0 <= cur < |nodes|
    ensures r.Some? ==> 0 <= r.value < |nodes|
    decreases |s|
  {
    if s == [] then Some(cur)
    else if s[0] in nodes[cur].children then Walk(nodes, nodes[cur].children[s[0]], s[1..])
    else None
  }

  /** The node spelling `s` from the root, if any. */
  function Lookup(nodes: seq<Node>, s: string): (r: Option<int>)
    requires EdgesForward(nodes) && |nodes| > 0
    ensures r.Some? ==> 0 <= r.value < |nodes|
  {
    Walk(nodes, RootIdx, s)
  }

  function Init(s: string): string
    requires |s| > 0
  {
    s[..|s| - 1]
  }

  /** Node `n`'s text is not empty and its text minus the last code point
      is spelled by some node. Kept as a predicate of its own so that the
      membership it asserts is only unfolded on demand. */
  ghost predicate HasParent(paths: seq<string>, n: int)
    requires 0 <= n < |paths|
  {
    |paths[n]| > 0 && Init(paths[n]) in paths
  }

  /** `paths[i]` is the text node `i` spells from the root, and the arena is
      a tree over it: the root spells the empty text, each edge extends its
      parent's text by its code point, every non-root node hangs below the
      node spelling its text minus the last code point, every text of the
      trie that extends a node by one code point is an edge of that node,
      and no two nodes spell the same text. */
  ghost predicate Trie(nodes: seq<Node>, paths: seq<string>) {
    && |nodes| == |paths| && |nodes| >= 1
    && paths[0] == []
    && EdgesForward(nodes)
    && (forall i, r :: 0 <= i < |nodes| && r in nodes[i].children ==>
          paths[nodes[i].children[r]] == paths[i] + [r])
    && (forall n :: 0 < n < |nodes| ==> HasParent(paths, n))
    && (forall i, r :: 0 <= i < |nodes| && paths[i] + [r] in paths ==> r in nodes[i].children)
    && (forall i :: 0 <= i < |nodes| ==> UniqueAt(paths, i))
  }

  /** No other node spells node `i`'s text. A predicate of its own for the
      same reason as `HasParent`. */
  ghost predicate UniqueAt(paths: seq<string>, i: int)
    requires 0 <= i < |paths|
  {
    forall j :: 0 <= j < |paths| && j != i ==> paths[j] != paths[i]
  }

  /** Every word stored at a node spells that node's text (true of the
      builder before `Build` adds inherited words). */
  ghost predicate Spelled(nodes: seq<Node>, paths: seq<string>)
    requires |nodes| == |paths|
  {
    forall i, w :: 0 <= i < |nodes| && w in nodes[i].output ==> w.word == paths[i]
  }

  /** The index of the node spelling `s`. */
  ghost function IndexOf(paths: seq<string>, s: string): (i: int)
    requires s in paths
    ensures 0 <= i < |paths| && paths[i] == s
  {
    var i :| 0 <= i < |paths| && paths[i] == s; i
  }

  /** Two arenas of one size with the same edges at every node. */
  ghost predicate SameEdges(a: seq<Node>, b: seq<Node>) {
    |a| == |b| && forall i :: 0 <= i < |a| ==> a[i].children == b[i].children
  }

  /** Trie shape is a matter of edges only. */
  lemma TrieSameEdges(a: seq<Node>, b: seq<Node>, paths: seq<string>)
    requires Trie(a, paths) && SameEdges(a, b)
    ensures Trie(b, paths)
  {
    forall n | 0 < n < |b| ensures HasParent(paths, n) {
      assert HasParent(paths, n);
    }
  }

  /** Node texts are unique, so a text names its node. */
  lemma IndexOfUnique(nodes: seq<Node>, paths: seq<string>, i: int)
    requires Trie(nodes, paths) && 0 <= i < |paths|
    ensures IndexOf(paths, paths[i]) == i
  {
    assert UniqueAt(paths, i);
  }

  /** The texts of a trie are closed under taking prefixes. */
  lemma {:induction false} PrefixInTrie(nodes: seq<Node>, paths: seq<string>, t: string, k: nat)
    requires Trie(nodes, paths) && t in paths && k <= |t|
    ensures t[..k] in paths
    decreases |t| - k
  {
    if k < |t| {
      var n := IndexOf(paths, t);
      assert n != 0;
      assert HasParent(paths, n);
      PrefixInTrie(nodes, paths, Init(t), k);
      assert Init(t)[..k] == t[..k];
    } else {
      assert t[..k] == t;
    }
  }

  /** Walking follows exactly the texts of the trie: from node `m`, `s` leads
      to node `n` if and only if `n` spells `m`'s text followed by `s`. */
  lemma {:induction false} WalkSpells(nodes: seq<Node>, paths: seq<string>, m: int, s: string)
    requires Trie(nodes, paths) && 0 <= m < |nodes|
    ensures Walk(nodes, m, s).Some? <==> paths[m] + s in paths
    ensures Walk(nodes, m, s).Some? ==> paths[Walk(nodes, m, s).value] == paths[m] + s
    decreases |s|
  {
    if s == [] {
      assert paths[m] + s == paths[m];
    } else {
      var r := s[0];
      assert paths[m] + s == (paths[m] + [r]) + s[1..];
      if r in nodes[m].children {
        var c := nodes[m].children[r];
        WalkSpells(nodes, paths, c, s[1..]);
      } else if paths[m] + s in paths {
        PrefixInTrie(nodes, paths, paths[m] + s, |paths[m]| + 1);
        assert false;
      }
    }
  }

  /** From the root: `Lookup` finds `s` exactly when some node spells it. */
  lemma LookupSpells(nodes: seq<Node>, paths: seq<string>, s: string)
    requires Trie(nodes, paths)
    ensures Lookup(nodes, s).Some? <==> s in paths
    ensures Lookup(nodes, s).Some? ==> paths[Lookup(nodes, s).value] == s
  {
    WalkSpells(nodes, paths, RootIdx, s);
    assert paths[RootIdx] + s == s;
  }

  /** The node an edge leads to is the node spelling the extended text. */
  lemma ChildIsIndexOf(nodes: seq<Node>, paths: seq<string>, i: int, r: char)
    requires Trie(nodes, paths) && 0 <= i < |nodes| && r in nodes[i].children
    ensures paths[i] + [r] in paths
    ensures nodes[i].children[r] == IndexOf(paths, paths[i] + [r])
  {
    IndexOfUnique(nodes, paths, nodes[i].children[r]);
  }

  /** The trie's shape fixes the texts: two companions of one arena agree. */
  lemma {:induction false} PathsDetermined(nodes: seq<Node>, p1: seq<string>, p2: seq<string>, n: int)
    requires Trie(nodes, p1) && Trie(nodes, p2) && 0 <= n < |nodes|
    ensures p1[n] == p2[n]
    decreases |p1[n]|
  {
    if n != 0 {
      assert HasParent(p1, n);
      var s := p1[n];
      var par := IndexOf(p1, Init(s));
      var r := s[|s| - 1];
      assert p1[par] + [r] == s;
      assert r in nodes[par].children;
      IndexOfUnique(nodes, p1, n);
      ChildIsIndexOf(nodes, p1, par, r);
      PathsDetermined(nodes, p1, p2, par);
    }
  }
}
