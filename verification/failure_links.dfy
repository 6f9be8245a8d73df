/** `DictionaryBuilder.Build`: a breadth-first pass over the trie that gives
    every node below the root its failure link and appends the failure
    target's output to its own. The root's children fail to the root and
    keep their output; every deeper child finds its link by walking the
    failure links of its parent. */
module FailureLinks {
  import opened Text
  import opened Nodes
  import opened Automaton
  import opened BuildState

  /** The failure-link walk of `Build` for the child of `cur` along `r`:
      follow failure links from `cur`'s target until a node has an edge for
      `r` or the walk falls off the root. The answer is the node spelling
      the longest proper suffix of the child's text that the trie holds. */
  method FailTarget(nodes: seq<Node>, ghost paths: seq<string>, cur: int, r: char) returns (f: int)
    requires Trie(nodes, paths) && nodes[RootIdx].fail == NoFail
    requires 0 < cur < |nodes| && FailLinked(nodes, paths, cur)
    requires forall x :: 0 < x < |nodes| && |paths[x]| < |paths[cur]| ==> FailLinked(nodes, paths, x)
    ensures 0 <= f < |nodes|
    ensures HasParent(paths, cur) && paths[f] == LongestSuffixIn(paths, paths[cur][1..] + [r])
  {
    assert HasParent(paths, cur);
    ghost var t := paths[cur][1..];
    var x := nodes[cur].fail;
    WalkStart(nodes, paths, t, r, x);
    while x != NoFail && r !in nodes[x].children
      invariant x == NoFail ==> forall u :: !Candidate(paths, t, r, u)
      invariant x != NoFail ==> WalkBound(nodes, paths, t, r, x)
      decreases if x == NoFail then 0 else |paths[x]| + 1
    {
      if x == RootIdx {
        WalkRootNoEdge(nodes, paths, t, r);
      } else {
        FailShallower(nodes, paths, x);
        WalkStep(nodes, paths, t, r, x);
      }
      x := nodes[x].fail;
    }
    if x != NoFail {
      f := nodes[x].children[r];
      WalkExit(nodes, paths, t, r, x);
    } else {
      f := RootIdx;
      NoCandidateEmpty(nodes, paths, t, r);
    }
  }

  /** The first loop of `Build`: every child of the root fails to the root
      and keeps its output, and is queued, in map order. */
  method LinkRootChildren(pre: seq<Node>, ghost paths: seq<string>)
    returns (nodes: seq<Node>, queue: seq<int>)
    requires Trie(pre, paths) && pre[RootIdx].fail == NoFail
    ensures Progress(pre, nodes, paths, queue, {RootIdx}, {}, 0)
  {
    nodes, queue := pre, [];
    var ch := nodes[RootIdx].children;
    var keys := ch.Keys;
    ghost var pending := ch.Values;
    SeedStart(pre, paths);
    AllChildren(ch);
    while keys != {}
      invariant Progress(pre, nodes, paths, queue, {RootIdx}, pending, 0)
      invariant ch == pre[RootIdx].children && keys <= ch.Keys
      invariant pending == ChildrenVia(ch, keys)
      decreases keys
    {
      var r :| r in keys;
      var c := ch[r];
      assert paths[c] == [] + [r] && paths[c][1..] == [];
      AssignStep(pre, nodes, paths, queue, {RootIdx}, pending, 0, c, RootIdx, nodes[c].output);
      nodes := nodes[c := nodes[c].(fail := RootIdx)];
      queue := queue + [c];
      ChildrenViaRemove(pre, paths, RootIdx, keys, r);
      keys := keys - {r};
      pending := pending - {c};
    }
    assert pending == {};
  }

  /** The body of `Build`'s second loop for the node `cur` just taken off
      the queue: each child, in map order, gets the target of the
      failure-link walk as its link, appends that target's output to its
      own, and is queued. */
  method LinkChildren(pre: seq<Node>, nodes: seq<Node>, ghost paths: seq<string>, queue: seq<int>,
                      ghost done: set<int>, ghost level: nat, cur: int)
    returns (nodes': seq<Node>, queue': seq<int>)
    requires 0 < cur < |nodes| && |paths| == |nodes| && |paths[cur]| == level
    requires Progress(pre, nodes, paths, queue, done, nodes[cur].children.Values, level)
    ensures Progress(pre, nodes', paths, queue', done, {}, level)
  {
    nodes', queue' := nodes, queue;
    var ch := nodes[cur].children;
    var keys := ch.Keys;
    ghost var pending := ch.Values;
    AllChildren(ch);
    assert HasParent(paths, cur);
    while keys != {}
      invariant Progress(pre, nodes', paths, queue', done, pending, level)
      invariant ch == pre[cur].children && keys <= ch.Keys
      invariant pending == ChildrenVia(ch, keys)
      decreases keys
    {
      var r :| r in keys;
      var c := ch[r];
      ShallowLinked(pre, nodes', paths, queue', done, pending, level);
      var f := FailTarget(nodes', paths, cur, r);
      var out := nodes'[c].output + nodes'[f].output;
      LinkStep(pre, nodes', paths, queue', done, pending, level, cur, keys, r, f, out);
      nodes' := nodes'[c := nodes'[c].(fail := f, output := out)];
      queue' := queue' + [c];
      keys := keys - {r};
      pending := pending - {c};
    }
    assert pending == {};
  }

  /** `Build`: link the root's children, then expand the queue front to
      back. Whatever order the maps are walked in, the result is the built
      automaton: same edges, root untouched, every other node linked to the
      longest proper suffix of its text that the trie holds, and outputs
      inherited along the links. */
  method Build(pre: seq<Node>, ghost paths: seq<string>) returns (nodes: seq<Node>)
    requires Trie(pre, paths) && pre[RootIdx].fail == NoFail
    ensures Built(pre, nodes, paths)
  {
    var queue;
    nodes, queue := LinkRootChildren(pre, paths);
    ghost var done: set<int> := {RootIdx};
    ghost var level: nat := 0;
    while |queue| > 0
      invariant Progress(pre, nodes, paths, queue, done, {}, level)
      decreases Indices(|pre|) - done
    {
      var cur := queue[0];
      PopStep(pre, nodes, paths, queue, done, level);
      queue := queue[1..];
      done := done + {cur};
      level := |paths[cur]|;
      nodes, queue := LinkChildren(pre, nodes, paths, queue, done, level, cur);
    }
    FinishBuilt(pre, nodes, paths, done, level);
  }
}
