/** The state of `Build`'s breadth-first pass and the steps that keep it:
    which nodes are reached, settled and done, what the queue holds, and
    why the pass ends with every node linked. */
module BuildState {
  import opened Text
  import opened Nodes
  import opened Automaton

  /** The node spelling node `n`'s text minus its last code point; -1 for
      the root. */
  ghost function Parent(paths: seq<string>, n: int): (p: int)
    requires 0 <= n < |paths|
    ensures -1 <= p < |paths|
    ensures p >= 0 ==> |paths[n]| > 0 && paths[p] == Init(paths[n])
  {
    if HasParent(paths, n) then IndexOf(paths, Init(paths[n])) else -1
  }

  /** In a trie, `p` is the parent of `n` exactly when `n` is one of `p`'s
      children. */
  lemma ParentIsChild(nodes: seq<Node>, paths: seq<string>, n: int, p: int)
    requires Trie(nodes, paths) && 0 <= n < |nodes| && 0 <= p < |nodes|
    ensures Parent(paths, n) == p <==> n in nodes[p].children.Values
  {
    if n in nodes[p].children.Values {
      var r :| r in nodes[p].children && nodes[p].children[r] == n;
      assert paths[n] == paths[p] + [r];
      assert Init(paths[n]) == paths[p] by {
        assert (paths[p] + [r])[..|paths[p]|] == paths[p];
      }
      assert HasParent(paths, n);
      IndexOfUnique(nodes, paths, p);
    }
    if Parent(paths, n) == p {
      var s := paths[n];
      var r := s[|s| - 1];
      assert paths[p] + [r] == s;
      IndexOfUnique(nodes, paths, n);
      ChildIsIndexOf(nodes, paths, p, r);
    }
  }

  /** Distinct edges of one node lead to distinct nodes. */
  lemma ChildrenDistinct(nodes: seq<Node>, paths: seq<string>, p: int, r1: char, r2: char)
    requires Trie(nodes, paths) && 0 <= p < |nodes|
    requires r1 in nodes[p].children && r2 in nodes[p].children && r1 != r2
    ensures nodes[p].children[r1] != nodes[p].children[r2]
  {
    assert (paths[p] + [r1])[|paths[p]|] != (paths[p] + [r2])[|paths[p]|];
  }

  /** The breadth-first pass has reached node `n`: it is the root, or its
      parent has been taken off the queue. */
  ghost predicate Reached(paths: seq<string>, done: set<int>, n: int)
    requires 0 <= n < |paths|
  {
    n == RootIdx || Parent(paths, n) in done
  }

  /** Node `n` has been reached and its link and output assigned. */
  ghost predicate Settled(paths: seq<string>, done: set<int>, pending: set<int>, n: int)
    requires 0 <= n < |paths|
  {
    Reached(paths, done, n) && n !in pending
  }

  /** Node `n` has its final failure link and output. */
  ghost predicate Finished(pre: seq<Node>, nodes: seq<Node>, paths: seq<string>, n: int)
    requires Trie(nodes, paths) && |pre| == |nodes| && 0 <= n < |nodes|
  {
    (n != RootIdx ==> FailLinked(nodes, paths, n)) && Inherits(pre, nodes, paths, n)
  }

  /** Edges as the builder left them, the root untouched. */
  ghost predicate Shape(pre: seq<Node>, nodes: seq<Node>, paths: seq<string>) {
    && Trie(pre, paths) && |nodes| == |pre|
    && (forall i :: 0 <= i < |pre| ==> nodes[i].children == pre[i].children)
    && Trie(nodes, paths)
    && nodes[RootIdx] == pre[RootIdx] && pre[RootIdx].fail == NoFail
  }

  /** `done` holds the root and reached nodes; `pending` holds reached
      nodes one level below `level` that are not done. */
  ghost predicate Marks(paths: seq<string>, done: set<int>, pending: set<int>, level: nat) {
    && |paths| > 0
    && RootIdx in done
    && (forall n :: n in done ==> 0 <= n < |paths|)
    && (forall n {:trigger Reached(paths, done, n)} :: 0 <= n < |paths| && n in done ==> Reached(paths, done, n))
    && (forall n :: n in pending ==>
          && 0 < n < |paths| && n !in done
          && Reached(paths, done, n) && |paths[n]| == level + 1)
  }

  /** Settled nodes are finished and fail to settled nodes; the others are
      as the builder left them. */
  ghost predicate Links(pre: seq<Node>, nodes: seq<Node>, paths: seq<string>, done: set<int>, pending: set<int>)
    requires Shape(pre, nodes, paths)
  {
    && (forall n {:trigger Finished(pre, nodes, paths, n)} ::
          0 <= n < |nodes| && Settled(paths, done, pending, n) ==>
          && Finished(pre, nodes, paths, n)
          && (n != RootIdx ==> Settled(paths, done, pending, nodes[n].fail)))
    && (forall n {:trigger Settled(paths, done, pending, n)} ::
          0 <= n < |nodes| && !Settled(paths, done, pending, n) ==> nodes[n] == pre[n])
  }

  /** The queue holds, without repetition and in order of depth, exactly
      the settled nodes not yet done, all at `level` or one below. */
  ghost predicate Queued(paths: seq<string>, queue: seq<int>, done: set<int>, pending: set<int>, level: nat) {
    && (forall i :: 0 <= i < |queue| ==>
          && 0 < queue[i] < |paths| && queue[i] !in done
          && Settled(paths, done, pending, queue[i])
          && level <= |paths[queue[i]]| <= level + 1)
    && (forall i, j :: 0 <= i < j < |queue| ==>
          queue[i] != queue[j] && |paths[queue[i]]| <= |paths[queue[j]]|)
    && (forall n {:trigger Settled(paths, done, pending, n)} ::
          0 <= n < |paths| && Settled(paths, done, pending, n) && n !in done ==> n in queue)
  }

  /** Every node above `level` is done, and every node down to `level` is
      settled. */
  ghost predicate Layers(paths: seq<string>, done: set<int>, pending: set<int>, level: nat) {
    && (forall n {:trigger n in done} :: 0 <= n < |paths| && |paths[n]| < level ==> n in done)
    && (forall n {:trigger Settled(paths, done, pending, n)} ::
          0 <= n < |paths| && |paths[n]| <= level ==> Settled(paths, done, pending, n))
  }

  /** The state of the pass: `done` holds the nodes taken off the queue,
      `pending` the children of the node being expanded that have not been
      linked yet, and `level` the depth of the node last taken off. */
  ghost predicate Progress(pre: seq<Node>, nodes: seq<Node>, paths: seq<string>,
                           queue: seq<int>, done: set<int>, pending: set<int>, level: nat)
  {
    && Shape(pre, nodes, paths)
    && Marks(paths, done, pending, level)
    && Links(pre, nodes, paths, done, pending)
    && Queued(paths, queue, done, pending, level)
    && Layers(paths, done, pending, level)
  }

  /** Before the root's children are linked only the root is settled, and
      they are all pending. */
  lemma SeedStart(pre: seq<Node>, paths: seq<string>)
    requires Trie(pre, paths) && pre[RootIdx].fail == NoFail
    ensures Progress(pre, pre, paths, [], {RootIdx}, pre[RootIdx].children.Values, 0)
  {
    var pending := pre[RootIdx].children.Values;
    forall n | 0 <= n < |pre|
      ensures Settled(paths, {RootIdx}, pending, n) <==> n == RootIdx
    {
      ParentIsChild(pre, paths, n, RootIdx);
    }
    forall n | n in pending
      ensures 0 < n < |pre| && Reached(paths, {RootIdx}, n) && |paths[n]| == 1
    {
      var r :| r in pre[RootIdx].children && pre[RootIdx].children[r] == n;
      ParentIsChild(pre, paths, n, RootIdx);
    }
  }

  /** Linking one pending child `c` to `f` and putting it on the queue
      keeps the pass's state. */
  lemma AssignStep(pre: seq<Node>, nodes: seq<Node>, paths: seq<string>, queue: seq<int>,
                   done: set<int>, pending: set<int>, level: nat, c: int, f: int, out: seq<Word>)
    requires Progress(pre, nodes, paths, queue, done, pending, level)
    requires c in pending && 0 <= f < |nodes|
    requires paths[f] == LongestSuffixIn(paths, paths[c][1..])
    requires out == if |paths[c]| == 1 then nodes[c].output else nodes[c].output + nodes[f].output
    ensures Progress(pre, nodes[c := Node(nodes[c].children, f, out)], paths,
                     queue + [c], done, pending - {c}, level)
  {
    var nodes' := nodes[c := Node(nodes[c].children, f, out)];
    TrieSameEdges(pre, nodes', paths);
    assert HasParent(paths, c);
    assert |paths[f]| < |paths[c]|;
    AssignLinks(pre, nodes, paths, done, pending, level, c, f, out);
    AssignQueued(paths, queue, done, pending, level, c);
    AssignLayers(paths, done, pending, level, c);
  }

  /** Removing `c` from `pending` settles `c` and nothing else. */
  lemma SettleOne(paths: seq<string>, done: set<int>, pending: set<int>, c: int, n: int)
    requires 0 <= n < |paths|
    ensures Settled(paths, done, pending - {c}, n) <==> Settled(paths, done, pending, n) || (n == c && Reached(paths, done, n))
  {
  }

  lemma AssignLinks(pre: seq<Node>, nodes: seq<Node>, paths: seq<string>, done: set<int>,
                    pending: set<int>, level: nat, c: int, f: int, out: seq<Word>)
    requires Shape(pre, nodes, paths) && Marks(paths, done, pending, level)
    requires Links(pre, nodes, paths, done, pending) && Layers(paths, done, pending, level)
    requires c in pending && 0 <= f < |nodes| && |paths[f]| < |paths[c]|
    requires paths[f] == LongestSuffixIn(paths, paths[c][1..])
    requires out == if |paths[c]| == 1 then nodes[c].output else nodes[c].output + nodes[f].output
    requires Shape(pre, nodes[c := Node(nodes[c].children, f, out)], paths)
    ensures Links(pre, nodes[c := Node(nodes[c].children, f, out)], paths, done, pending - {c})
  {
    var nodes' := nodes[c := Node(nodes[c].children, f, out)];
    var pending' := pending - {c};
    assert Settled(paths, done, pending, f);
    assert !Settled(paths, done, pending, c);
    forall n | 0 <= n < |nodes'| && Settled(paths, done, pending', n)
      ensures Finished(pre, nodes', paths, n)
      ensures n != RootIdx ==> Settled(paths, done, pending', nodes'[n].fail)
    {
      SettleOne(paths, done, pending, c, n);
      if n == c {
        FinishedNew(pre, nodes, nodes', paths, c, f, out);
        SettleOne(paths, done, pending, c, f);
      } else {
        assert Finished(pre, nodes, paths, n);
        if n != RootIdx {
          assert HasParent(paths, n);
          assert Settled(paths, done, pending, nodes[n].fail);
          SettleOne(paths, done, pending, c, nodes[n].fail);
        }
        FinishedFrame(pre, nodes, nodes', paths, n);
      }
    }
    forall n | 0 <= n < |nodes'| && !Settled(paths, done, pending', n)
      ensures nodes'[n] == pre[n]
    {
      SettleOne(paths, done, pending, c, n);
    }
  }

  /** Finishing a node depends only on its own link and output and on its
      failure target's output. */
  lemma FinishedFrame(pre: seq<Node>, a: seq<Node>, b: seq<Node>, paths: seq<string>, n: int)
    requires Trie(a, paths) && Trie(b, paths) && |pre| == |a| == |b| && 0 <= n < |a|
    requires Finished(pre, a, paths, n) && b[n] == a[n]
    requires n != RootIdx ==> b[a[n].fail] == a[a[n].fail]
    ensures Finished(pre, b, paths, n)
  {
    if n != RootIdx {
      assert HasParent(paths, n);
    }
  }

  /** The freshly linked child is finished. */
  lemma FinishedNew(pre: seq<Node>, nodes: seq<Node>, nodes': seq<Node>, paths: seq<string>, c: int, f: int, out: seq<Word>)
    requires Trie(nodes', paths) && |pre| == |nodes| == |nodes'| && 0 < c < |nodes| && 0 <= f < |nodes|
    requires nodes[c] == pre[c] && f != c && nodes'[f] == nodes[f]
    requires nodes'[c] == Node(nodes[c].children, f, out)
    requires paths[c] != []
    requires paths[f] == LongestSuffixIn(paths, paths[c][1..])
    requires out == if |paths[c]| == 1 then nodes[c].output else nodes[c].output + nodes[f].output
    ensures Finished(pre, nodes', paths, c)
  {
    assert HasParent(paths, c);
  }

  lemma AssignQueued(paths: seq<string>, queue: seq<int>, done: set<int>, pending: set<int>, level: nat, c: int)
    requires Marks(paths, done, pending, level) && Queued(paths, queue, done, pending, level)
    requires c in pending
    ensures Queued(paths, queue + [c], done, pending - {c}, level)
  {
    var queue' := queue + [c];
    assert !Settled(paths, done, pending, c);
    forall i | 0 <= i < |queue'|
      ensures Settled(paths, done, pending - {c}, queue'[i])
    {
      SettleOne(paths, done, pending, c, queue'[i]);
    }
    forall n | 0 <= n < |paths| && Settled(paths, done, pending - {c}, n) && n !in done
      ensures n in queue'
    {
      SettleOne(paths, done, pending, c, n);
    }
  }

  lemma AssignLayers(paths: seq<string>, done: set<int>, pending: set<int>, level: nat, c: int)
    requires Layers(paths, done, pending, level)
    ensures Layers(paths, done, pending - {c}, level)
  {
    forall n | 0 <= n < |paths| && |paths[n]| <= level
      ensures Settled(paths, done, pending - {c}, n)
    {
      SettleOne(paths, done, pending, c, n);
    }
  }

  /** Taking `cur` off the queue and marking its children pending settles
      no new node. */
  lemma PopSettled(nodes: seq<Node>, paths: seq<string>, done: set<int>, cur: int, n: int)
    requires Trie(nodes, paths) && 0 <= cur < |nodes| && cur !in done && 0 <= n < |nodes|
    ensures Settled(paths, done + {cur}, nodes[cur].children.Values, n) <==> Settled(paths, done, {}, n)
  {
    ParentIsChild(nodes, paths, n, cur);
    if n == RootIdx {
      assert !HasParent(paths, n);
    }
  }

  /** Taking the head of the queue off and marking its children pending
      keeps the pass's state, one level down when the head is. */
  lemma PopStep(pre: seq<Node>, nodes: seq<Node>, paths: seq<string>, queue: seq<int>, done: set<int>, level: nat)
    requires Progress(pre, nodes, paths, queue, done, {}, level) && |queue| > 0
    ensures Progress(pre, nodes, paths, queue[1..], done + {queue[0]},
                     nodes[queue[0]].children.Values, |paths[queue[0]]|)
  {
    var cur := queue[0];
    var done' := done + {cur};
    var pending' := nodes[cur].children.Values;
    var level' := |paths[cur]|;
    forall n | 0 <= n < |nodes|
      ensures Settled(paths, done', pending', n) <==> Settled(paths, done, {}, n)
    {
      PopSettled(nodes, paths, done, cur, n);
    }
    PopMarks(nodes, paths, done, level, cur);
    PopLinks(pre, nodes, paths, done, cur);
    PopQueued(nodes, paths, queue, done, level);
    PopLayers(nodes, paths, queue, done, level);
  }

  lemma PopMarks(nodes: seq<Node>, paths: seq<string>, done: set<int>, level: nat, cur: int)
    requires Trie(nodes, paths) && Marks(paths, done, {}, level)
    requires 0 < cur < |nodes| && cur !in done && Settled(paths, done, {}, cur)
    ensures Marks(paths, done + {cur}, nodes[cur].children.Values, |paths[cur]|)
  {
    var done' := done + {cur};
    forall n | n in nodes[cur].children.Values
      ensures 0 < n < |paths| && n !in done' && Reached(paths, done', n) && |paths[n]| == |paths[cur]| + 1
    {
      var r :| r in nodes[cur].children && nodes[cur].children[r] == n;
      ParentIsChild(nodes, paths, n, cur);
      assert !Reached(paths, done, n);
    }
    forall n | 0 <= n < |paths| && n in done'
      ensures Reached(paths, done', n)
    {
      if n in done {
        assert Reached(paths, done, n);
      }
    }
  }

  lemma PopLinks(pre: seq<Node>, nodes: seq<Node>, paths: seq<string>, done: set<int>, cur: int)
    requires Shape(pre, nodes, paths) && Links(pre, nodes, paths, done, {})
    requires 0 <= cur < |nodes| && cur !in done
    ensures Links(pre, nodes, paths, done + {cur}, nodes[cur].children.Values)
  {
    var done' := done + {cur};
    var pending' := nodes[cur].children.Values;
    forall n | 0 <= n < |nodes| && Settled(paths, done', pending', n)
      ensures Finished(pre, nodes, paths, n)
      ensures n != RootIdx ==> Settled(paths, done', pending', nodes[n].fail)
    {
      PopSettled(nodes, paths, done, cur, n);
      assert Finished(pre, nodes, paths, n);
      if n != RootIdx {
        assert HasParent(paths, n);
        PopSettled(nodes, paths, done, cur, nodes[n].fail);
      }
    }
    forall n | 0 <= n < |nodes| && !Settled(paths, done', pending', n)
      ensures nodes[n] == pre[n]
    {
      PopSettled(nodes, paths, done, cur, n);
    }
  }

  lemma PopQueued(nodes: seq<Node>, paths: seq<string>, queue: seq<int>, done: set<int>, level: nat)
    requires Trie(nodes, paths) && Queued(paths, queue, done, {}, level) && |queue| > 0
    ensures Queued(paths, queue[1..], done + {queue[0]}, nodes[queue[0]].children.Values, |paths[queue[0]]|)
  {
    var cur := queue[0];
    var done' := done + {cur};
    var pending' := nodes[cur].children.Values;
    var q' := queue[1..];
    forall i | 0 <= i < |q'|
      ensures 0 < q'[i] < |paths| && q'[i] !in done'
      ensures Settled(paths, done', pending', q'[i])
      ensures |paths[cur]| <= |paths[q'[i]]| <= |paths[cur]| + 1
    {
      assert q'[i] == queue[i + 1];
      PopSettled(nodes, paths, done, cur, q'[i]);
    }
    forall n | 0 <= n < |paths| && Settled(paths, done', pending', n) && n !in done'
      ensures n in q'
    {
      PopSettled(nodes, paths, done, cur, n);
      var k :| 0 <= k < |queue| && queue[k] == n;
      assert q'[k - 1] == n;
    }
  }

  lemma PopLayers(nodes: seq<Node>, paths: seq<string>, queue: seq<int>, done: set<int>, level: nat)
    requires Trie(nodes, paths) && Queued(paths, queue, done, {}, level)
    requires Layers(paths, done, {}, level) && |queue| > 0
    ensures Layers(paths, done + {queue[0]}, nodes[queue[0]].children.Values, |paths[queue[0]]|)
  {
    var cur := queue[0];
    var done' := done + {cur};
    var pending' := nodes[cur].children.Values;
    var level' := |paths[cur]|;
    forall n | 0 <= n < |paths| && |paths[n]| < level'
      ensures n in done'
    {
      if |paths[n]| >= level {
        assert Settled(paths, done, {}, n);
      }
    }
    forall n | 0 <= n < |paths| && |paths[n]| <= level'
      ensures Settled(paths, done', pending', n)
    {
      PopSettled(nodes, paths, done, cur, n);
      if |paths[n]| > level {
        assert HasParent(paths, n);
        var p := Parent(paths, n);
        assert |paths[p]| < level';
      }
    }
  }

  /** With the queue empty and nothing pending, every node is done: a node
      not done would have a done parent, so it would be settled and queued. */
  lemma {:induction false} DoneClosed(pre: seq<Node>, nodes: seq<Node>, paths: seq<string>,
                                      done: set<int>, level: nat, n: int)
    requires Progress(pre, nodes, paths, [], done, {}, level) && 0 <= n < |nodes|
    ensures n in done
    decreases |paths[n]|
  {
    if n != RootIdx {
      assert HasParent(paths, n);
      DoneClosed(pre, nodes, paths, done, level, Parent(paths, n));
      assert Settled(paths, done, {}, n);
    }
  }

  /** The end of the pass is a built automaton. */
  lemma FinishBuilt(pre: seq<Node>, nodes: seq<Node>, paths: seq<string>, done: set<int>, level: nat)
    requires Progress(pre, nodes, paths, [], done, {}, level)
    ensures Built(pre, nodes, paths)
  {
    forall n | 0 <= n < |nodes|
      ensures n != RootIdx ==> FailLinked(nodes, paths, n)
      ensures Inherits(pre, nodes, paths, n)
    {
      DoneClosed(pre, nodes, paths, done, level, n);
      assert Settled(paths, done, {}, n);
      assert Finished(pre, nodes, paths, n);
    }
    assert Linked(nodes, paths);
  }

  /** The indices of an arena of `n` nodes. */
  ghost function Indices(n: nat): (s: set<int>)
    ensures forall i :: i in s <==> 0 <= i < n
  {
    if n == 0 then {} else Indices(n - 1) + {n - 1}
  }

  /** The children of a node reached along the edges in `keys`. */
  ghost function ChildrenVia(ch: map<char, int>, keys: set<char>): set<int>
    requires keys <= ch.Keys
  {
    set r | r in keys :: ch[r]
  }

  lemma AllChildren(ch: map<char, int>)
    ensures ChildrenVia(ch, ch.Keys) == ch.Values
    ensures ChildrenVia(ch, {}) == {}
  {
    forall n | n in ch.Values ensures n in ChildrenVia(ch, ch.Keys) {
      var r :| r in ch && ch[r] == n;
    }
  }

  /** Linking the child along `r` removes exactly that child. */
  lemma ChildrenViaRemove(nodes: seq<Node>, paths: seq<string>, p: int, keys: set<char>, r: char)
    requires Trie(nodes, paths) && 0 <= p < |nodes|
    requires keys <= nodes[p].children.Keys && r in keys
    ensures ChildrenVia(nodes[p].children, keys) - {nodes[p].children[r]}
         == ChildrenVia(nodes[p].children, keys - {r})
  {
    var ch := nodes[p].children;
    forall r' | r' in keys && r' != r ensures ch[r'] != ch[r] {
      ChildrenDistinct(nodes, paths, p, r', r);
    }
  }

  /** Every node down to the current level is linked. */
  lemma ShallowLinked(pre: seq<Node>, nodes: seq<Node>, paths: seq<string>, queue: seq<int>,
                      done: set<int>, pending: set<int>, level: nat)
    requires Progress(pre, nodes, paths, queue, done, pending, level)
    ensures forall x :: 0 < x < |nodes| && |paths[x]| <= level ==> FailLinked(nodes, paths, x)
  {
    forall x | 0 < x < |nodes| && |paths[x]| <= level ensures FailLinked(nodes, paths, x) {
      assert Settled(paths, done, pending, x);
      assert Finished(pre, nodes, paths, x);
    }
  }

  /** One turn of the loop in `LinkChildren`: the child of `cur` along `r`
      gets the link `f` the walk found. */
  lemma LinkStep(pre: seq<Node>, nodes: seq<Node>, paths: seq<string>, queue: seq<int>,
                 done: set<int>, pending: set<int>, level: nat, cur: int, keys: set<char>,
                 r: char, f: int, out: seq<Word>)
    requires Progress(pre, nodes, paths, queue, done, pending, level)
    requires 0 < cur < |nodes| && |paths[cur]| == level
    requires keys <= pre[cur].children.Keys && r in keys
    requires pending == ChildrenVia(pre[cur].children, keys)
    requires 0 <= f < |nodes| && HasParent(paths, cur)
    requires paths[f] == LongestSuffixIn(paths, paths[cur][1..] + [r])
    requires out == nodes[pre[cur].children[r]].output + nodes[f].output
    ensures var c := pre[cur].children[r];
      && Progress(pre, nodes[c := nodes[c].(fail := f, output := out)], paths,
                  queue + [c], done, pending - {c}, level)
      && pending - {c} == ChildrenVia(pre[cur].children, keys - {r})
  {
    var c := pre[cur].children[r];
    assert paths[c] == paths[cur] + [r];
    TailAppend(paths[cur], r);
    AssignStep(pre, nodes, paths, queue, done, pending, level, c, f, out);
    ChildrenViaRemove(pre, paths, cur, keys, r);
  }
}
