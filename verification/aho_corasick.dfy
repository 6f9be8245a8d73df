/** `Dictionary.Search` over a fully loaded, built arena: scan the text
    code point by code point, following failure links while the current
    node has no edge for the next code point, report every word in the
    output of each node reached, and sort the reports. */
module AhoCorasick {
  import opened Text
  import opened Nodes
  import opened Automaton
  import opened MatchOrder

  /** The move on code point `r` from node `x`: while `x` is not the root
      and has no edge for `r`, fall back to its failure link; then take the
      edge for `r` if there is one, or stay at the root. */
  function Goto(nodes: seq<Node>, ghost paths: seq<string>, x: int, r: char): (y: int)
    requires Linked(nodes, paths) && 0 <= x < |nodes|
    ensures 0 <= y < |nodes|
    decreases |paths[x]|
  {
    if x != RootIdx && r !in nodes[x].children then
      FailShallower(nodes, paths, x);
      Goto(nodes, paths, nodes[x].fail, r)
    else if r in nodes[x].children then nodes[x].children[r]
    else RootIdx
  }

  /** The reports for the words in `out` when the scan stands on code point
      `i`: each word ends there. */
  function Emit(out: seq<Word>, i: int): (ms: seq<Match>)
    ensures |ms| == |out|
    ensures forall m :: m in ms <==> m.word in out && m.position == i - |m.word.word| + 1
  {
    if out == [] then []
    else [Match(out[0], i - |out[0].word| + 1)] + Emit(out[1..], i)
  }

  /** The reports come in the order of the node's output: report `k` is
      word `k` of the output, placed where it ends at `i`. */
  lemma {:induction false} EmitInOrder(out: seq<Word>, i: int)
    ensures forall k :: 0 <= k < |out| ==> Emit(out, i)[k] == Match(out[k], i - |out[k].word| + 1)
    decreases |out|
  {
    if out != [] {
      EmitInOrder(out[1..], i);
      var rest := Emit(out[1..], i);
      assert Emit(out, i) == [Match(out[0], i - |out[0].word| + 1)] + rest;
      forall k | 1 <= k < |out| ensures Emit(out, i)[k] == Match(out[k], i - |out[k].word| + 1) {
        assert out[k] == out[1..][k - 1];
        assert Emit(out, i)[k] == rest[k - 1];
      }
    }
  }

  /** The reports of the scan from code point `i` on, standing on node `x`,
      in the order the scan makes them. */
  function ScanFrom(nodes: seq<Node>, ghost paths: seq<string>, text: string, i: int, x: int): (ms: seq<Match>)
    requires Linked(nodes, paths) && 0 <= i <= |text| && 0 <= x < |nodes|
    decreases |text| - i
  {
    if i == |text| then []
    else
      var y := Goto(nodes, paths, x, text[i]);
      Emit(nodes[y].output, i) + ScanFrom(nodes, paths, text, i + 1, y)
  }

  /** `Search`: scan from the root, then sort the reports stably by start
      position, longer words first at one position. */
  function Search(nodes: seq<Node>, ghost paths: seq<string>, text: string): (res: MatchesResult)
    requires Linked(nodes, paths)
    ensures res.text == text && Sorted(res.matches)
    ensures multiset(res.matches) == multiset(ScanFrom(nodes, paths, text, 0, RootIdx))
    ensures forall k :: Keyed(res.matches, k) == Keyed(ScanFrom(nodes, paths, text, 0, RootIdx), k)
  {
    MatchesResult(text, SortStable(ScanFrom(nodes, paths, text, 0, RootIdx)))
  }

  /** `Goto` lands on the node spelling the longest suffix of the text read
      so far that the trie holds. */
  lemma {:induction false} GotoLongest(nodes: seq<Node>, paths: seq<string>, t: string, r: char, x: int)
    requires Linked(nodes, paths) && WalkBound(nodes, paths, t, r, x)
    ensures paths[Goto(nodes, paths, x, r)] == LongestSuffixIn(paths, t + [r])
    decreases |paths[x]|
  {
    if x != RootIdx && r !in nodes[x].children {
      FailShallower(nodes, paths, x);
      WalkStep(nodes, paths, t, r, x);
      GotoLongest(nodes, paths, t, r, nodes[x].fail);
    } else if r in nodes[x].children {
      WalkExit(nodes, paths, t, r, x);
    } else {
      WalkRootNoEdge(nodes, paths, t, r);
      NoCandidateEmpty(nodes, paths, t, r);
    }
  }

  /** The node the scan stands on after reading `s`. */
  ghost function StateAfter(paths: seq<string>, s: string): (x: int)
    requires |paths| > 0 && paths[0] == []
    ensures 0 <= x < |paths| && paths[x] == LongestSuffixIn(paths, s)
  {
    IndexOf(paths, LongestSuffixIn(paths, s))
  }

  /** `m` is reported when the scan stands on code point `j`. */
  ghost predicate ReportedAt(nodes: seq<Node>, paths: seq<string>, text: string, j: int, m: Match)
    requires Trie(nodes, paths) && 0 <= j < |text|
  {
    m in Emit(nodes[StateAfter(paths, text[..j + 1])].output, j)
  }

  /** One step of the scan keeps it on the node spelling the longest
      suffix of the text read so far. */
  lemma ScanStep(nodes: seq<Node>, paths: seq<string>, text: string, i: int, x: int)
    requires Linked(nodes, paths) && 0 <= i < |text| && 0 <= x < |nodes|
    requires paths[x] == LongestSuffixIn(paths, text[..i])
    ensures Goto(nodes, paths, x, text[i]) == StateAfter(paths, text[..i + 1])
  {
    assert text[..i] + [text[i]] == text[..i + 1];
    MovesToState(nodes, paths, text[..i], text[i], x);
  }

  /** The move on `r` from the node of the longest suffix of `t` is the
      scan state after `t + [r]`. */
  lemma MovesToState(nodes: seq<Node>, paths: seq<string>, t: string, r: char, x: int)
    requires Linked(nodes, paths) && 0 <= x < |nodes| && paths[x] == LongestSuffixIn(paths, t)
    ensures Goto(nodes, paths, x, r) == StateAfter(paths, t + [r])
  {
    LandsOnLongest(nodes, paths, t, r, x);
    var y := Goto(nodes, paths, x, r);
    IndexOfUnique(nodes, paths, y);
  }

  /** From the node spelling the longest suffix of `t` in the trie, the
      move on `r` lands on the node spelling the longest suffix of
      `t + [r]`. */
  lemma LandsOnLongest(nodes: seq<Node>, paths: seq<string>, t: string, r: char, x: int)
    requires Linked(nodes, paths) && 0 <= x < |nodes| && paths[x] == LongestSuffixIn(paths, t)
    ensures paths[Goto(nodes, paths, x, r)] == LongestSuffixIn(paths, t + [r])
  {
    WalkStart(nodes, paths, t, r, x);
    GotoLongest(nodes, paths, t, r, x);
  }

  /** Every report of the scan from `i` is made at some code point from
      `i` on. */
  lemma {:induction false} ScanSound(nodes: seq<Node>, paths: seq<string>, text: string, i: int, x: int, m: Match)
    returns (j: int)
    requires Linked(nodes, paths) && 0 <= i <= |text| && 0 <= x < |nodes|
    requires paths[x] == LongestSuffixIn(paths, text[..i])
    requires m in ScanFrom(nodes, paths, text, i, x)
    ensures i <= j < |text| && ReportedAt(nodes, paths, text, j, m)
    decreases |text| - i
  {
    var y := Goto(nodes, paths, x, text[i]);
    ScanStep(nodes, paths, text, i, x);
    if m in Emit(nodes[y].output, i) {
      j := i;
    } else {
      j := ScanSound(nodes, paths, text, i + 1, y, m);
    }
  }

  /** Whatever is reported at a code point from `i` on is a report of the
      scan from `i`. */
  lemma {:induction false} ScanComplete(nodes: seq<Node>, paths: seq<string>, text: string, i: int, x: int, j: int, m: Match)
    requires Linked(nodes, paths) && 0 <= i <= j < |text| && 0 <= x < |nodes|
    requires paths[x] == LongestSuffixIn(paths, text[..i])
    requires ReportedAt(nodes, paths, text, j, m)
    ensures m in ScanFrom(nodes, paths, text, i, x)
    decreases |text| - i
  {
    var y := Goto(nodes, paths, x, text[i]);
    ScanStep(nodes, paths, text, i, x);
    if j > i {
      ScanComplete(nodes, paths, text, i + 1, y, j, m);
    }
  }

  /** Every match `Search` reports is an added word that occurs in the text
      where the match says it starts. */
  lemma SearchSound(pre: seq<Node>, nodes: seq<Node>, paths: seq<string>, text: string, m: Match)
    requires Built(pre, nodes, paths) && Spelled(pre, paths)
    requires m in Search(nodes, paths, text).matches
    ensures Stored(pre, m.word) && Occurs(text, m.word.word, m.position)
  {
    BuiltOutputs(pre, nodes, paths);
    ReportsSound(pre, nodes, paths, text, m);
  }

  /** `SearchSound` for any linked arena whose outputs hold only added
      words ending their node's text. */
  lemma ReportsSound(pre: seq<Node>, nodes: seq<Node>, paths: seq<string>, text: string, m: Match)
    requires Linked(nodes, paths) && OutputsSound(pre, nodes, paths)
    requires m in Search(nodes, paths, text).matches
    ensures Stored(pre, m.word) && Occurs(text, m.word.word, m.position)
  {
    var raw := ScanFrom(nodes, paths, text, 0, RootIdx);
    assert m in multiset(raw);
    assert text[..0] == [];
    var j := ScanSound(nodes, paths, text, 0, RootIdx, m);
    var x := StateAfter(paths, text[..j + 1]);
    assert m.word in nodes[x].output;
    SuffixOccurs(text, m.word.word, paths[x], j);
  }

  /** Every occurrence of an added word with a non-empty text is reported,
      at the position it starts. */
  lemma SearchComplete(pre: seq<Node>, nodes: seq<Node>, paths: seq<string>, text: string, w: Word, p: int)
    requires Built(pre, nodes, paths) && Spelled(pre, paths)
    requires Stored(pre, w) && w.word != [] && Occurs(text, w.word, p)
    ensures Match(w, p) in Search(nodes, paths, text).matches
  {
    BuiltOutputs(pre, nodes, paths);
    StoredSpelled(pre, paths, w);
    ReportsComplete(pre, nodes, paths, text, w, p);
  }

  /** `SearchComplete` for any linked arena whose outputs hold every added
      non-empty word ending their node's text. */
  lemma ReportsComplete(pre: seq<Node>, nodes: seq<Node>, paths: seq<string>, text: string, w: Word, p: int)
    requires Linked(nodes, paths) && OutputsComplete(pre, nodes, paths)
    requires Stored(pre, w) && w.word in paths && w.word != [] && Occurs(text, w.word, p)
    ensures Match(w, p) in Search(nodes, paths, text).matches
  {
    var j := p + |w.word| - 1;
    var s := text[..j + 1];
    OccursIsSuffix(text, w.word, p);
    LongestHoldsWord(paths, s, w.word);
    assert ReportedAt(nodes, paths, text, j, Match(w, p)) by {
      assert w in nodes[StateAfter(paths, s)].output;
    }
    assert text[..0] == [];
    ScanComplete(nodes, paths, text, 0, RootIdx, j, Match(w, p));
    var raw := ScanFrom(nodes, paths, text, 0, RootIdx);
    assert Match(w, p) in multiset(raw);
  }

  /** A node text that ends the text read so far ends the text of the node
      the scan stands on. */
  lemma LongestHoldsWord(paths: seq<string>, s: string, u: string)
    requires |paths| > 0 && paths[0] == [] && u in paths && IsSuffix(u, s)
    ensures IsSuffix(u, paths[StateAfter(paths, s)])
  {
    var x := StateAfter(paths, s);
    LongestSuffixMax(paths, s, u);
    SuffixOfLonger(u, paths[x], s);
  }

  /** For words with a non-empty text, `Search` reports exactly the
      occurrences of added words. */
  lemma SearchExact(pre: seq<Node>, nodes: seq<Node>, paths: seq<string>, text: string, m: Match)
    requires Built(pre, nodes, paths) && Spelled(pre, paths) && m.word.word != []
    ensures m in Search(nodes, paths, text).matches <==> Stored(pre, m.word) && Occurs(text, m.word.word, m.position)
  {
    if m in Search(nodes, paths, text).matches {
      SearchSound(pre, nodes, paths, text, m);
    }
    if Stored(pre, m.word) && Occurs(text, m.word.word, m.position) {
      SearchComplete(pre, nodes, paths, text, m.word, m.position);
    }
  }
}
