/** What a finished Aho-Corasick automaton over the node arena is: failure
    links that name the longest proper suffix of a node's text that is also
    a text of the trie, and outputs that hold a node's own words followed by
    its failure target's. Also the facts about walking failure links that
    both `Build` and `Search` rely on. */
module Automaton {
  import opened Text
  import opened Nodes

  /** The longest suffix of `s` that some node spells (the root's empty
      text at worst). */
  ghost function LongestSuffixIn(paths: seq<string>, s: string): (t: string)
    requires [] in paths
    ensures t in paths && IsSuffix(t, s)
    decreases |s|
  {
    if s in paths then s else LongestSuffixIn(paths, s[1..])
  }

  /** No suffix of `s` spelled by a node is longer than `LongestSuffixIn`. */
  lemma {:induction false} LongestSuffixMax(paths: seq<string>, s: string, u: string)
    requires [] in paths && IsSuffix(u, s) && u in paths
    ensures |u| <= |LongestSuffixIn(paths, s)|
    decreases |s|
  {
    if s !in paths {
      assert u != s;
      assert |u| < |s|;
      SuffixOfTail(u, s);
      LongestSuffixMax(paths, s[1..], u);
    }
  }

  /** A suffix of `s` that some node spells and is at least as long as every
      other is `LongestSuffixIn`. */
  lemma LongestSuffixUnique(paths: seq<string>, s: string, t: string)
    requires [] in paths && IsSuffix(t, s) && t in paths
    requires |t| >= |LongestSuffixIn(paths, s)|
    ensures t == LongestSuffixIn(paths, s)
  {
    LongestSuffixMax(paths, s, t);
  }

  /** The failure link of non-root node `n` names the node spelling the
      longest proper suffix of `n`'s text that the trie holds. */
  ghost predicate FailLinked(nodes: seq<Node>, paths: seq<string>, n: int)
    requires Trie(nodes, paths) && 0 < n < |nodes|
  {
    assert HasParent(paths, n);
    && 0 <= nodes[n].fail < |nodes|
    && paths[nodes[n].fail] == LongestSuffixIn(paths, paths[n][1..])
  }

  /** A trie whose root keeps the -1 sentinel and whose every other node is
      failure-linked: what `Search` needs to walk. */
  ghost predicate Linked(nodes: seq<Node>, paths: seq<string>) {
    && Trie(nodes, paths)
    && nodes[RootIdx].fail == NoFail
    && forall n :: 0 < n < |nodes| ==> FailLinked(nodes, paths, n)
  }

  /** A failure link points to a strictly shallower node. */
  lemma FailShallower(nodes: seq<Node>, paths: seq<string>, n: int)
    requires Trie(nodes, paths) && 0 < n < |nodes| && FailLinked(nodes, paths, n)
    ensures |paths[nodes[n].fail]| < |paths[n]|
  {
    assert HasParent(paths, n);
  }

  /** The output of node `n` after `Build`: the root and the root's children
      keep their own words; deeper nodes have their own words followed by the
      final output of their failure target. */
  ghost predicate Inherits(pre: seq<Node>, post: seq<Node>, paths: seq<string>, n: int)
    requires |pre| == |post| == |paths| && 0 <= n < |post|
  {
    if n == RootIdx || |paths[n]| == 1 then post[n].output == pre[n].output
    else 0 <= post[n].fail < |post| && post[n].output == pre[n].output + post[post[n].fail].output
  }

  /** `post` is what `Build` makes of the builder arena `pre`: same edges,
      root untouched, every other node failure-linked, and outputs
      inherited along failure links. */
  ghost predicate Built(pre: seq<Node>, post: seq<Node>, paths: seq<string>) {
    && Trie(pre, paths)
    && |post| == |pre|
    && (forall i :: 0 <= i < |pre| ==> post[i].children == pre[i].children)
    && post[RootIdx] == pre[RootIdx]
    && Linked(post, paths)
    && forall n :: 0 <= n < |post| ==> Inherits(pre, post, paths, n)
  }

  /** Two automata built from the same arena agree at node `n`: the
      failure link names the one node spelling the longest proper suffix,
      and the output then follows by induction on the depth of `n`. */
  lemma {:induction false} BuiltNodeUnique(pre: seq<Node>, a: seq<Node>, b: seq<Node>, paths: seq<string>, n: int)
    requires Built(pre, a, paths) && Built(pre, b, paths) && 0 <= n < |pre|
    ensures a[n].fail == b[n].fail && a[n].output == b[n].output
    decreases |paths[n]|
  {
    if n != RootIdx {
      assert FailLinked(a, paths, n) && FailLinked(b, paths, n);
      assert UniqueAt(paths, a[n].fail);
      assert Inherits(pre, a, paths, n) && Inherits(pre, b, paths, n);
      if |paths[n]| != 1 {
        FailShallower(a, paths, n);
        BuiltNodeUnique(pre, a, b, paths, a[n].fail);
      }
    }
  }

  /** `Built` fixes the automaton: whatever order `Build` visits children
      in, the linked arena is the same. */
  lemma BuiltUnique(pre: seq<Node>, a: seq<Node>, b: seq<Node>, paths: seq<string>)
    requires Built(pre, a, paths) && Built(pre, b, paths)
    ensures a == b
  {
    forall n | 0 <= n < |a| ensures a[n] == b[n] {
      BuiltNodeUnique(pre, a, b, paths, n);
    }
  }

  /** `u` is a suffix of `t` whose extension by `r` is a text of the trie:
      a node whose text is `u` could continue a match along `r`. */
  ghost predicate Candidate(paths: seq<string>, t: string, r: char, u: string) {
    IsSuffix(u, t) && u + [r] in paths
  }

  /** While walking failure links to extend a match of `t` by `r`, node `x`
      spells a suffix of `t`, and no candidate is longer than that suffix. */
  ghost predicate WalkBound(nodes: seq<Node>, paths: seq<string>, t: string, r: char, x: int)
    requires |nodes| == |paths|
  {
    && 0 <= x < |nodes|
    && IsSuffix(paths[x], t)
    && forall u :: Candidate(paths, t, r, u) ==> |u| <= |paths[x]|
  }

  /** The walk starts well from the node spelling the longest suffix of `t`. */
  lemma WalkStart(nodes: seq<Node>, paths: seq<string>, t: string, r: char, x: int)
    requires Trie(nodes, paths) && 0 <= x < |nodes| && paths[x] == LongestSuffixIn(paths, t)
    ensures WalkBound(nodes, paths, t, r, x)
  {
    forall u | Candidate(paths, t, r, u) ensures |u| <= |paths[x]| {
      PrefixInTrie(nodes, paths, u + [r], |u|);
      assert (u + [r])[..|u|] == u;
      LongestSuffixMax(paths, t, u);
    }
  }

  /** A node without an edge for `r` spells no candidate. */
  lemma NoEdgeNoCandidate(nodes: seq<Node>, paths: seq<string>, t: string, r: char, x: int)
    requires Trie(nodes, paths) && 0 <= x < |nodes| && r !in nodes[x].children
    ensures !Candidate(paths, t, r, paths[x])
  {
  }

  /** Following the failure link of a non-root node without an edge for `r`
      keeps the walk's bound. */
  lemma WalkStep(nodes: seq<Node>, paths: seq<string>, t: string, r: char, x: int)
    requires Trie(nodes, paths) && WalkBound(nodes, paths, t, r, x)
    requires x != RootIdx && r !in nodes[x].children && FailLinked(nodes, paths, x)
    ensures WalkBound(nodes, paths, t, r, nodes[x].fail)
  {
    var f := nodes[x].fail;
    var px := paths[x];
    assert HasParent(paths, x);
    assert IsSuffix(paths[f], px[1..]);
    TailIsSuffix(px);
    SuffixTrans(paths[f], px[1..], px);
    SuffixTrans(paths[f], px, t);
    forall u | Candidate(paths, t, r, u) ensures |u| <= |paths[f]| {
      WalkStepCandidate(nodes, paths, t, r, x, u);
    }
  }

  /** One candidate at a time: it is no longer than the failure target. */
  lemma WalkStepCandidate(nodes: seq<Node>, paths: seq<string>, t: string, r: char, x: int, u: string)
    requires Trie(nodes, paths) && WalkBound(nodes, paths, t, r, x)
    requires x != RootIdx && r !in nodes[x].children && FailLinked(nodes, paths, x)
    requires Candidate(paths, t, r, u)
    ensures |u| <= |paths[nodes[x].fail]|
  {
    var px := paths[x];
    assert HasParent(paths, x);
    NoEdgeNoCandidate(nodes, paths, t, r, x);
    SuffixOfLonger(u, px, t);
    assert |u| < |px|;
    SuffixOfTail(u, px);
    PrefixInTrie(nodes, paths, u + [r], |u|);
    assert (u + [r])[..|u|] == u;
    LongestSuffixMax(paths, px[1..], u);
  }

  /** At the root without an edge for `r` there is no candidate at all. */
  lemma WalkRootNoEdge(nodes: seq<Node>, paths: seq<string>, t: string, r: char)
    requires Trie(nodes, paths) && WalkBound(nodes, paths, t, r, RootIdx)
    requires r !in nodes[RootIdx].children
    ensures forall u :: !Candidate(paths, t, r, u)
  {
    NoEdgeNoCandidate(nodes, paths, t, r, RootIdx);
    forall u | Candidate(paths, t, r, u) ensures false {
    }
  }

  /** With no candidate, the longest suffix of `t + [r]` in the trie is empty. */
  lemma NoCandidateEmpty(nodes: seq<Node>, paths: seq<string>, t: string, r: char)
    requires Trie(nodes, paths)
    requires forall u :: !Candidate(paths, t, r, u)
    ensures LongestSuffixIn(paths, t + [r]) == []
  {
    var v := LongestSuffixIn(paths, t + [r]);
    if v != [] {
      SuffixOfAppend(v, t, r);
      assert Candidate(paths, t, r, Init(v));
      assert false;
    }
  }

  /** The walk ends at a node with an edge for `r`: that edge leads to the
      node spelling the longest suffix of `t + [r]` in the trie. */
  lemma WalkExit(nodes: seq<Node>, paths: seq<string>, t: string, r: char, x: int)
    requires Trie(nodes, paths) && WalkBound(nodes, paths, t, r, x)
    requires r in nodes[x].children
    ensures paths[nodes[x].children[r]] == LongestSuffixIn(paths, t + [r])
  {
    var c := nodes[x].children[r];
    var v := LongestSuffixIn(paths, t + [r]);
    assert paths[c] == paths[x] + [r];
    SuffixAppend(paths[x], t, r);
    if v != [] {
      SuffixOfAppend(v, t, r);
      assert Candidate(paths, t, r, Init(v));
    }
    LongestSuffixUnique(paths, t + [r], paths[c]);
  }

  /** Some node of the builder arena stores `w`: `w` was added. */
  ghost predicate Stored(pre: seq<Node>, w: Word) {
    exists k :: 0 <= k < |pre| && w in pre[k].output
  }

  /** After `Build`, every word in a node's output was added and its text
      ends the node's text. */
  lemma {:induction false} OutputSound(pre: seq<Node>, post: seq<Node>, paths: seq<string>, n: int, w: Word)
    requires Built(pre, post, paths) && Spelled(pre, paths) && 0 <= n < |post|
    requires w in post[n].output
    ensures Stored(pre, w) && IsSuffix(w.word, paths[n])
    decreases |paths[n]|
  {
    assert Inherits(pre, post, paths, n);
    if w in pre[n].output {
      SuffixRefl(paths[n]);
    } else {
      var f := post[n].fail;
      assert FailLinked(post, paths, n);
      assert HasParent(paths, n);
      OutputSound(pre, post, paths, f, w);
      TailIsSuffix(paths[n]);
      SuffixTrans(paths[f], paths[n][1..], paths[n]);
      SuffixTrans(w.word, paths[f], paths[n]);
    }
  }

  /** After `Build`, a node's output holds every added non-empty word whose
      text ends the node's text. (The root's children do not inherit the
      root's output, so a word with the empty text is only guaranteed at
      the root.) */
  lemma {:induction false} OutputComplete(pre: seq<Node>, post: seq<Node>, paths: seq<string>, n: int, w: Word)
    requires Built(pre, post, paths) && Spelled(pre, paths) && 0 <= n < |post|
    requires Stored(pre, w) && w.word != [] && IsSuffix(w.word, paths[n])
    ensures w in post[n].output
    decreases |paths[n]|
  {
    var k :| 0 <= k < |pre| && w in pre[k].output;
    assert w.word == paths[k];
    assert Inherits(pre, post, paths, n);
    if |w.word| == |paths[n]| {
      assert paths[k] == paths[n];
      assert UniqueAt(paths, n);
    } else {
      var f := post[n].fail;
      assert FailLinked(post, paths, n);
      assert HasParent(paths, n);
      SuffixOfTail(w.word, paths[n]);
      LongestSuffixMax(paths, paths[n][1..], w.word);
      SuffixOfLonger(w.word, paths[f], paths[n][1..]);
      OutputComplete(pre, post, paths, f, w);
    }
  }

  /** Every word in a node's output was added and ends the node's text. */
  ghost predicate OutputsSound(pre: seq<Node>, post: seq<Node>, paths: seq<string>)
    requires |post| == |paths|
  {
    forall n, w :: 0 <= n < |post| && w in post[n].output ==>
      Stored(pre, w) && IsSuffix(w.word, paths[n])
  }

  /** Every added non-empty word that ends a node's text is in the node's
      output. */
  ghost predicate OutputsComplete(pre: seq<Node>, post: seq<Node>, paths: seq<string>)
    requires |post| == |paths|
  {
    forall n, w :: 0 <= n < |post| && Stored(pre, w) && w.word != [] && IsSuffix(w.word, paths[n]) ==>
      w in post[n].output
  }

  /** After `Build`, every node's output is exactly the added non-empty
      words that end its text (plus, at the root, a word with the empty
      text). */
  lemma BuiltOutputs(pre: seq<Node>, post: seq<Node>, paths: seq<string>)
    requires Built(pre, post, paths) && Spelled(pre, paths)
    ensures OutputsSound(pre, post, paths) && OutputsComplete(pre, post, paths)
  {
    forall n, w | 0 <= n < |post| && w in post[n].output
      ensures Stored(pre, w) && IsSuffix(w.word, paths[n])
    {
      OutputSound(pre, post, paths, n, w);
    }
    forall n, w | 0 <= n < |post| && Stored(pre, w) && w.word != [] && IsSuffix(w.word, paths[n])
      ensures w in post[n].output
    {
      OutputComplete(pre, post, paths, n, w);
    }
  }

  /** An added word spells some node of the trie. */
  lemma StoredSpelled(pre: seq<Node>, paths: seq<string>, w: Word)
    requires |pre| == |paths| && Spelled(pre, paths) && Stored(pre, w)
    ensures w.word in paths
  {
    var k :| 0 <= k < |pre| && w in pre[k].output;
    assert w.word == paths[k];
  }
}
