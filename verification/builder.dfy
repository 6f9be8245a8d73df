/** `DictionaryBuilder` before `Build`: a fresh arena holding only the root,
    and `AddWord`, which walks the word's code points from the root,
    appending a blank node for every missing edge, and records the word at
    the node it ends on unless that exact (word, transliteration) pair is
    already there. */
module Builder {
  import opened Options
  import opened Text
  import opened Nodes

  /** `NewDictionaryBuilder`. */
  function NewBuilder(): (nodes: seq<Node>)
    ensures |nodes| == 1 && nodes[RootIdx].fail == NoFail
    ensures Trie(nodes, [[]]) && Spelled(nodes, [[]])
    ensures forall s :: Lookup(nodes, s).Some? <==> s == []
    ensures Lookup(nodes, []) == Some(RootIdx) && nodes[RootIdx].output == []
  {
    [BlankNode]
  }

  /** Edges of the old nodes survive, with the same targets. */
  ghost predicate KeepsEdges(before: seq<Node>, after: seq<Node>) {
    && |before| <= |after|
    && forall i, r :: 0 <= i < |before| && r in before[i].children ==>
         r in after[i].children && after[i].children[r] == before[i].children[r]
  }

  /** Failure links of the old nodes survive; appended nodes have none yet. */
  ghost predicate KeepsFails(before: seq<Node>, after: seq<Node>)
    requires |before| <= |after|
  {
    && (forall i :: 0 <= i < |before| ==> after[i].fail == before[i].fail)
    && (forall i :: |before| <= i < |after| ==> after[i].fail == NoFail)
  }

  /** The output a node had before the update (none for a node not there yet). */
  function OutputBefore(before: seq<Node>, i: int): seq<Word>
    requires 0 <= i
  {
    if i < |before| then before[i].output else []
  }

  /** Outputs are untouched. */
  ghost predicate KeepsOutputs(before: seq<Node>, after: seq<Node>) {
    forall i :: 0 <= i < |after| ==> after[i].output == OutputBefore(before, i)
  }

  /** Append one blank node as the child of `cur` along `r`. */
  function AddChild(nodes: seq<Node>, cur: int, r: char): (res: seq<Node>)
    requires EdgesForward(nodes) && 0 <= cur < |nodes| && r !in nodes[cur].children
    ensures EdgesForward(res) && |res| == |nodes| + 1
    ensures res[cur].children == nodes[cur].children[r := |nodes|]
    ensures KeepsEdges(nodes, res) && KeepsFails(nodes, res) && KeepsOutputs(nodes, res)
    ensures forall i :: 0 <= i < |nodes| && i != cur ==> res[i] == nodes[i]
    ensures res[|nodes|] == BlankNode
  {
    var n := nodes[cur];
    nodes[cur := n.(children := n.children[r := |nodes|])] + [BlankNode]
  }

  /** The node-creating walk of `AddWord`: from `cur`, follow or create the
      edges spelling `s`; answer the grown arena and the node reached. */
  function Insert(nodes: seq<Node>, cur: int, s: string): (res: (seq<Node>, int))
    requires EdgesForward(nodes) && 0 <= cur < |nodes|
    ensures EdgesForward(res.0) && |nodes| <= |res.0| <= |nodes| + |s|
    ensures KeepsEdges(nodes, res.0) && KeepsFails(nodes, res.0) && KeepsOutputs(nodes, res.0)
    ensures Walk(res.0, cur, s) == Some(res.1)
    decreases |s|
  {
    if s == [] then (nodes, cur)
    else if s[0] in nodes[cur].children then Insert(nodes, nodes[cur].children[s[0]], s[1..])
    else Insert(AddChild(nodes, cur, s[0]), |nodes|, s[1..])
  }

  /** Replace the output of node `e`, leaving every edge and link alone. */
  function SetOutput(nodes: seq<Node>, e: int, out: seq<Word>): (res: seq<Node>)
    requires 0 <= e < |nodes|
    ensures |res| == |nodes| && res[e].output == out
    ensures forall i :: 0 <= i < |nodes| ==> res[i].children == nodes[i].children && res[i].fail == nodes[i].fail
    ensures forall i :: 0 <= i < |nodes| && i != e ==> res[i] == nodes[i]
  {
    nodes[e := nodes[e].(output := out)]
  }

  /** `AddWord`. The word's node is found by `Lookup`; its output gains the
      pair at the end unless the identical pair is already there; no other
      output changes; old edges and failure links are kept, and at most one
      node per code point is appended. */
  function AddWord(nodes: seq<Node>, w: Word): (res: seq<Node>)
    requires EdgesForward(nodes) && |nodes| > 0
    ensures EdgesForward(res) && |nodes| <= |res| <= |nodes| + |w.word|
    ensures KeepsEdges(nodes, res) && KeepsFails(nodes, res)
    ensures SameEdges(Insert(nodes, RootIdx, w.word).0, res)
    ensures Lookup(res, w.word).Some?
    ensures var e := Lookup(res, w.word).value;
      && res[e].output == OutputBefore(nodes, e) + (if w in OutputBefore(nodes, e) then [] else [w])
      && forall i :: 0 <= i < |res| && i != e ==> res[i].output == OutputBefore(nodes, i)
  {
    var (ns, e) := Insert(nodes, RootIdx, w.word);
    if w in ns[e].output then ns
    else
      var res := SetOutput(ns, e, ns[e].output + [w]);
      SameEdgesSameWalk(ns, res, RootIdx, w.word);
      res
  }

  /** `Walk` only looks at edges. */
  lemma {:induction false} SameEdgesSameWalk(a: seq<Node>, b: seq<Node>, cur: int, s: string)
    requires EdgesForward(a) && 0 <= cur < |a| && SameEdges(a, b)
    ensures EdgesForward(b) && Walk(a, cur, s) == Walk(b, cur, s)
    decreases |s|
  {
    if s != [] && s[0] in a[cur].children {
      SameEdgesSameWalk(a, b, a[cur].children[s[0]], s[1..]);
    }
  }

  /** Kept edges keep every walk that succeeded. */
  lemma {:induction false} KeptWalk(a: seq<Node>, b: seq<Node>, cur: int, s: string)
    requires EdgesForward(a) && EdgesForward(b) && KeepsEdges(a, b) && 0 <= cur < |a|
    requires Walk(a, cur, s).Some?
    ensures Walk(b, cur, s) == Walk(a, cur, s)
    decreases |s|
  {
    if s != [] {
      KeptWalk(a, b, a[cur].children[s[0]], s[1..]);
    }
  }

  /** Inserting text that is already there creates nothing. */
  lemma {:induction false} InsertExisting(nodes: seq<Node>, cur: int, s: string)
    requires EdgesForward(nodes) && 0 <= cur < |nodes| && Walk(nodes, cur, s).Some?
    ensures Insert(nodes, cur, s) == (nodes, Walk(nodes, cur, s).value)
    decreases |s|
  {
    if s != [] {
      InsertExisting(nodes, nodes[cur].children[s[0]], s[1..]);
    }
  }

  /** Adding an identical (word, transliteration) pair again changes nothing. */
  lemma AddWordIdempotent(nodes: seq<Node>, w: Word)
    requires EdgesForward(nodes) && |nodes| > 0
    ensures AddWord(AddWord(nodes, w), w) == AddWord(nodes, w)
  {
    var once := AddWord(nodes, w);
    InsertExisting(once, RootIdx, w.word);
  }

  /** The same word with another transliteration lands on the same node,
      adds no node, and is appended as a second entry after the first. */
  lemma AddWordSecondTranslit(nodes: seq<Node>, w1: Word, w2: Word)
    requires EdgesForward(nodes) && |nodes| > 0
    requires w1.word == w2.word && w1 != w2
    ensures var once := AddWord(nodes, w1);
      var twice := AddWord(once, w2);
      && |twice| == |once|
      && Lookup(twice, w2.word) == Lookup(once, w1.word)
      && var e := Lookup(once, w1.word).value;
         twice[e].output == once[e].output + (if w2 in once[e].output then [] else [w2])
         && w1 in twice[e].output && w2 in twice[e].output
  {
    var once := AddWord(nodes, w1);
    InsertExisting(once, RootIdx, w1.word);
  }

  /** Words already in the dictionary stay where they were, and keep the
      entries they had, in order, when another word is added. */
  lemma AddWordKeepsWords(nodes: seq<Node>, w: Word, s: string)
    requires EdgesForward(nodes) && |nodes| > 0 && Lookup(nodes, s).Some?
    ensures var res := AddWord(nodes, w);
      && Lookup(res, s) == Lookup(nodes, s)
      && nodes[Lookup(nodes, s).value].output <= res[Lookup(nodes, s).value].output
  {
    KeptWalk(nodes, AddWord(nodes, w), RootIdx, s);
  }

  /** Appending a blank child keeps the arena a trie whose new node spells
      its parent's text plus the edge's code point. */
  lemma AddChildTrie(nodes: seq<Node>, paths: seq<string>, cur: int, r: char)
    requires Trie(nodes, paths) && 0 <= cur < |nodes| && r !in nodes[cur].children
    ensures Trie(AddChild(nodes, cur, r), paths + [paths[cur] + [r]])
  {
    var res := AddChild(nodes, cur, r);
    var p := paths[cur] + [r];
    var ps := paths + [p];
    assert p !in paths;
    assert HasParent(ps, |nodes|) by {
      assert Init(p) == ps[cur];
    }
    assert forall n :: 0 < n < |nodes| ==> HasParent(ps, n) by {
      forall n | 0 < n < |nodes| ensures HasParent(ps, n) {
        assert HasParent(paths, n);
        var q := IndexOf(paths, Init(paths[n]));
        assert ps[q] == Init(ps[n]);
      }
    }
    forall i | 0 <= i < |ps| ensures UniqueAt(ps, i) {
      if i < |nodes| {
        assert UniqueAt(paths, i);
      }
    }
    forall i, c | 0 <= i < |res| && ps[i] + [c] in ps
      ensures c in res[i].children
    {
      if ps[i] + [c] == p {
        assert ps[i] == paths[cur];
        assert i == cur by {
          if i < |nodes| && i != cur {
            IndexOfUnique(nodes, paths, i);
            IndexOfUnique(nodes, paths, cur);
          }
        }
      } else {
        assert ps[i] + [c] in paths;
        if i == |nodes| {
          PrefixInTrie(nodes, paths, ps[i] + [c], |p|);
          assert false;
        }
      }
    }
  }

  /** `Insert` keeps the arena a trie; old nodes keep their texts and the node
      reached spells `cur`'s text followed by `s`. */
  lemma {:induction false} InsertTrie(nodes: seq<Node>, paths: seq<string>, cur: int, s: string, res: (seq<Node>, int))
    returns (paths': seq<string>)
    requires Trie(nodes, paths) && 0 <= cur < |nodes|
    requires res == Insert(nodes, cur, s)
    ensures Trie(res.0, paths')
    ensures |paths| <= |paths'| && paths'[..|paths|] == paths
    ensures paths'[res.1] == paths[cur] + s
    decreases |s|, 1
  {
    if s == [] {
      paths' := paths;
      assert paths[cur] + s == paths[cur];
    } else if s[0] in nodes[cur].children {
      paths' := InsertTrie(nodes, paths, nodes[cur].children[s[0]], s[1..], res);
      AppendFirst(paths[cur], s);
    } else {
      paths' := InsertTrieGrow(nodes, paths, cur, s, res);
    }
  }

  /** The case of `InsertTrie` where the first edge is missing. */
  lemma {:induction false} InsertTrieGrow(nodes: seq<Node>, paths: seq<string>, cur: int, s: string, res: (seq<Node>, int))
    returns (paths': seq<string>)
    requires Trie(nodes, paths) && 0 <= cur < |nodes|
    requires s != [] && s[0] !in nodes[cur].children
    requires res == Insert(nodes, cur, s)
    ensures Trie(res.0, paths')
    ensures |paths| <= |paths'| && paths'[..|paths|] == paths
    ensures paths'[res.1] == paths[cur] + s
    decreases |s|, 0
  {
    var grown := AddChild(nodes, cur, s[0]);
    var ps := paths + [paths[cur] + [s[0]]];
    AddChildTrie(nodes, paths, cur, s[0]);
    paths' := InsertTrie(grown, ps, |nodes|, s[1..], res);
    PrefixOfPrefix(paths', paths, paths[cur] + [s[0]]);
    AppendFirst(paths[cur], s);
  }

  /** `AddWord` keeps the arena a trie whose stored words spell their nodes;
      old nodes keep their texts. */
  lemma AddWordTrie(nodes: seq<Node>, paths: seq<string>, w: Word) returns (paths': seq<string>)
    requires Trie(nodes, paths) && Spelled(nodes, paths)
    ensures Trie(AddWord(nodes, w), paths') && Spelled(AddWord(nodes, w), paths')
    ensures |paths| <= |paths'| && paths'[..|paths|] == paths
  {
    var ins := Insert(nodes, RootIdx, w.word);
    paths' := InsertTrie(nodes, paths, RootIdx, w.word, ins);
    var res := AddWord(nodes, w);
    TrieSameEdges(ins.0, res, paths');
    LookupSpells(res, paths', w.word);
    AddWordSpelled(nodes, paths, paths', w);
  }

  /** The words `AddWord` leaves spell their nodes when the added word
      spells the node `Lookup` finds for it. */
  lemma AddWordSpelled(nodes: seq<Node>, paths: seq<string>, paths': seq<string>, w: Word)
    requires EdgesForward(nodes) && |nodes| > 0 && |nodes| == |paths| && Spelled(nodes, paths)
    requires |AddWord(nodes, w)| == |paths'| && |paths| <= |paths'| && paths'[..|paths|] == paths
    requires paths'[Lookup(AddWord(nodes, w), w.word).value] == w.word
    ensures Spelled(AddWord(nodes, w), paths')
  {
    var res := AddWord(nodes, w);
    forall i, v | 0 <= i < |res| && v in res[i].output ensures v.word == paths'[i] {
      if i < |nodes| {
        assert paths'[..|paths|][i] == paths'[i];
      }
    }
  }
}
