/** `MatchesResult.Replace`: one left-to-right pass over the sorted matches
    that swaps each applicable word for its transliteration. A match is
    applicable when it starts at or after the end of the last replaced word
    and its word really is in the text there. A separator is put around a
    replacement unless the text next to it is empty or already has one. */
module Replacement {
  import opened Text
  import opened Nodes
  import opened Automaton
  import opened MatchOrder
  import AhoCorasick

  /** Every match that starts at a non-negative position ends inside the
      text. `Replace` slices its buffer at such a match without a bounds
      check, so a match past the end reads beyond the text (a panic past
      the buffer's capacity, stale runes before it); a negative position
      is always skipped. */
  predicate InText(text: string, ms: seq<Match>) {
    forall i :: 0 <= i < |ms| && ms[i].position >= 0 ==> ms[i].position + |ms[i].word.word| <= |text|
  }

  /** The separator between the text so far and a replacement: none at the
      very start or when the text so far already ends with it. */
  function SepBefore(before: string, sep: string): (s: string)
    ensures s == [] || s == sep
    ensures s != [] <==> before != [] && !HasSuffix(before, sep)
  {
    if before != [] && !HasSuffix(before, sep) then sep else []
  }

  /** The separator between a replacement and the rest of the text: none at
      the very end or when the rest already starts with it. */
  function SepAfter(after: string, sep: string): (s: string)
    ensures s == [] || s == sep
    ensures s != [] <==> after != [] && !HasPrefix(after, sep)
  {
    if after != [] && !HasPrefix(after, sep) then sep else []
  }

  /** Where the pass stands: `out` is the rewritten text for the
      original's code points before `next`. */
  datatype Cursor = Cursor(out: string, next: int)

  /** What one match does to the pass. It is skipped if it starts before
      `next` or its word is not at its position in the original; otherwise
      the gap up to it is copied, the word is replaced, and `next` moves past
      it. Either way the text produced so far is kept and `next` does not
      move back. */
  function Take(text: string, sep: string, m: Match, c: Cursor): (c': Cursor)
    requires 0 <= c.next <= |text| && (m.position >= 0 ==> m.position + |m.word.word| <= |text|)
    ensures c.next <= c'.next <= |text|
    ensures HasPrefix(c'.out, c.out)
  {
    var w := m.word.word;
    if m.position < c.next || !Occurs(text, w, m.position) then c
    else
      var a := Applied(text, sep, c.out, c.next, m);
      assert a[..|c.out|] == c.out;
      Cursor(a, m.position + |w|)
  }

  /** The reference reading of `Replace`, over the original text, from
      match `j` on: each match in turn is taken, and the rest of the
      original is copied at the end. */
  function Rewrite(text: string, sep: string, ms: seq<Match>, j: int, c: Cursor): string
    requires 0 <= j <= |ms| && 0 <= c.next <= |text| && InText(text, ms)
    decreases |ms| - j
  {
    if j == |ms| then c.out + text[c.next..]
    else Rewrite(text, sep, ms, j + 1, Take(text, sep, ms[j], c))
  }

  /** `Replace` as the Go code runs it: a working buffer `res` that is
      rebuilt for every applied match, the running difference `shift`
      between buffer and original positions, and `nextPos`, the end of the
      last replaced word in the original. It computes the reference
      rewrite; with no matches it gives the text back. */
  method Replace(m: MatchesResult, wordSep: string) returns (s: string)
    requires InText(m.text, m.matches)
    ensures s == Rewrite(m.text, wordSep, m.matches, 0, Cursor([], 0))
    ensures m.matches == [] ==> s == m.text
  {
    var text := m.text;
    var res := text;
    var shift := 0;
    var nextPos := 0;
    ghost var cur := Cursor([], 0);
    for j := 0 to |m.matches|
      invariant 0 <= nextPos <= |text| && nextPos == cur.next
      invariant res == cur.out + text[nextPos..] && shift == |cur.out| - nextPos
      invariant Rewrite(text, wordSep, m.matches, j, cur) == Rewrite(text, wordSep, m.matches, 0, Cursor([], 0))
    {
      res, shift, nextPos, cur := Step(text, wordSep, m.matches[j], res, shift, nextPos, cur);
    }
    s := res;
  }

  /** One match of the pass: skip it if it starts before `nextPos` or its
      word is not in the buffer at `position + shift`; otherwise rebuild the
      buffer around it, add the separators and the length change to
      `shift`, and move `nextPos` past the word. This is the reference's
      step `Take`, and the buffer stays the reference's rewritten prefix
      followed by the rest of the original. */
  method Step(text: string, wordSep: string, mt: Match, res: string, shift: int, nextPos: int, ghost cur: Cursor)
    returns (res': string, shift': int, nextPos': int, ghost cur': Cursor)
    requires 0 <= nextPos <= |text| && (mt.position >= 0 ==> mt.position + |mt.word.word| <= |text|)
    requires nextPos == cur.next && res == cur.out + text[nextPos..] && shift == |cur.out| - nextPos
    ensures cur' == Take(text, wordSep, mt, cur)
    ensures nextPos' == cur'.next && res' == cur'.out + text[nextPos'..] && shift' == |cur'.out| - nextPos'
  {
    res', shift', nextPos', cur' := res, shift, nextPos, cur;
    if mt.position < nextPos {
      return;
    }
    var w := mt.word.word;
    var pos := mt.position + shift;
    BufferCheck(res, cur.out, text, nextPos, shift, mt.position, w);
    if res[pos..pos + |w|] != w {
      return;
    }
    TakeApplies(text, wordSep, mt, cur);
    ghost var out';
    res', shift', nextPos', out' := Apply(text, wordSep, mt, res, shift, nextPos, cur.out);
    cur' := Cursor(out', nextPos');
  }

  /** Rebuild the buffer around a match whose word is in it: the buffer
      becomes the reference's prefix with the match applied, followed by
      the original after the word. */
  method Apply(text: string, wordSep: string, mt: Match, res: string, shift: int, nextPos: int, ghost out: string)
    returns (res': string, shift': int, nextPos': int, ghost out': string)
    requires 0 <= nextPos <= mt.position && Occurs(text, mt.word.word, mt.position)
    requires res == out + text[nextPos..] && shift == |out| - nextPos
    ensures out' == Applied(text, wordSep, out, nextPos, mt) && nextPos' == mt.position + |mt.word.word|
    ensures res' == out' + text[nextPos'..] && shift' == |out'| - nextPos'
  {
    var w := mt.word.word;
    var pos := mt.position + shift;
    BufferCheck(res, out, text, nextPos, shift, mt.position, w);
    var left, right := res[..pos], res[pos + |w|..];
    var buff, added := Splice(left, mt.word.translit, right, wordSep);
    AppliedIsJoined(text, wordSep, out, nextPos, mt, left, right);
    out' := Applied(text, wordSep, out, nextPos, mt);
    shift' := shift + added + |mt.word.translit| - |w|;
    nextPos' := mt.position + |w|;
    res' := buff;
  }

  /** The buffer rebuilt around one applied match, from the buffer before
      the word (`left`) and after it (`right`): `left`, a separator unless
      `left` is empty or already ends with one, the transliteration, a
      separator unless `right` is empty or already starts with one, then
      `right`. `added` counts the separator code points put in. */
  method Splice(left: string, tr: string, right: string, wordSep: string) returns (buff: string, added: int)
    ensures buff == Joined(left, wordSep, tr, right) + right
    ensures added == |Joined(left, wordSep, tr, right)| - |left| - |tr|
  {
    buff := left;
    added := 0;
    if |left| > 0 && !HasSuffix(left, wordSep) {
      buff := buff + wordSep;
      added := added + |wordSep|;
    }
    buff := buff + tr;
    if |right| > 0 && !HasPrefix(right, wordSep) {
      buff := buff + wordSep;
      added := added + |wordSep|;
    }
    buff := buff + right;
  }

  /** A replacement between `before` and `after`, with the separators it
      needs on either side (`after` itself not included). */
  function Joined(before: string, sep: string, tr: string, after: string): string {
    before + SepBefore(before, sep) + tr + SepAfter(after, sep)
  }

  /** The splice of the buffer pieces around a match is the applied
      prefix of the reference reading. */
  lemma AppliedIsJoined(text: string, sep: string, out: string, next: int, m: Match, left: string, right: string)
    requires 0 <= next <= m.position && m.position + |m.word.word| <= |text|
    requires left == out + text[next..m.position] && right == text[m.position + |m.word.word|..]
    ensures Joined(left, sep, m.word.translit, right) == Applied(text, sep, out, next, m)
  {
  }

  /** An applicable match extends the rewritten prefix by the gap before it,
      the separator if needed, its transliteration and the separator after
      it if needed; the pass resumes at its end. */
  lemma TakeApplies(text: string, sep: string, m: Match, c: Cursor)
    requires 0 <= c.next <= m.position && Occurs(text, m.word.word, m.position)
    ensures Take(text, sep, m, c) == Cursor(Applied(text, sep, c.out, c.next, m), m.position + |m.word.word|)
  {
  }

  /** The rewritten prefix once match `m` is applied: the prefix, the gap
      of the original up to `m`, the separator if needed, the
      transliteration, and the separator after it if needed. */
  function Applied(text: string, sep: string, out: string, next: int, m: Match): string
    requires 0 <= next <= m.position && m.position + |m.word.word| <= |text|
  {
    Joined(out + text[next..m.position], sep, m.word.translit, text[m.position + |m.word.word|..])
  }

  /** While the buffer is the rewritten prefix followed by the original
      from `next` on, a position `p >= next` of the original sits at
      `p + shift` in the buffer: the buffer before it is the prefix plus the
      original gap, and the buffer after the word is the original after the
      word. So the Go code's re-check of the word in the buffer succeeds
      exactly when the word occurs in the original at `p`. */
  lemma BufferCheck(res: string, out: string, text: string, next: int, shift: int, p: int, w: string)
    requires 0 <= next <= p && p + |w| <= |text|
    requires res == out + text[next..] && shift == |out| - next
    ensures 0 <= p + shift <= p + shift + |w| <= |res|
    ensures res[p + shift..p + shift + |w|] == w <==> Occurs(text, w, p)
    ensures res[..p + shift] == out + text[next..p]
    ensures res[p + shift + |w|..] == text[p + |w|..]
  {
    assert res[p + shift..p + shift + |w|] == text[p..p + |w|];
    assert res[..p + shift] == out + text[next..p];
    assert res[p + shift + |w|..] == text[p + |w|..];
  }

  /** `ms` without its `k`-th match. */
  function Drop(ms: seq<Match>, k: int): (r: seq<Match>)
    requires 0 <= k < |ms|
    ensures |r| == |ms| - 1
    ensures forall i :: 0 <= i < k ==> r[i] == ms[i]
    ensures forall i :: k <= i < |r| ==> r[i] == ms[i + 1]
  {
    ms[..k] + ms[k + 1..]
  }

  /** Dropping a match keeps every other match inside the text. */
  lemma DropInText(text: string, ms: seq<Match>, k: int)
    requires 0 <= k < |ms| && InText(text, ms)
    ensures InText(text, Drop(ms, k))
  {
    var r := Drop(ms, k);
    forall i | 0 <= i < |r| && r[i].position >= 0 ensures r[i].position + |r[i].word.word| <= |text| {
      if i >= k {
        assert r[i] == ms[i + 1];
      }
    }
  }

  /** The pass from `i1` over `ms1` and from `i2` over `ms2` agree when the
      remaining matches are the same. */
  lemma {:induction false} SameRest(text: string, sep: string, ms1: seq<Match>, i1: int, ms2: seq<Match>, i2: int, c: Cursor)
    requires 0 <= i1 <= |ms1| && 0 <= i2 <= |ms2| && 0 <= c.next <= |text|
    requires InText(text, ms1) && InText(text, ms2)
    requires ms1[i1..] == ms2[i2..]
    ensures Rewrite(text, sep, ms1, i1, c) == Rewrite(text, sep, ms2, i2, c)
    decreases |ms1| - i1
  {
    if i1 < |ms1| {
      assert ms1[i1] == ms1[i1..][0] == ms2[i2..][0] == ms2[i2];
      assert ms1[i1 + 1..] == ms1[i1..][1..] == ms2[i2..][1..] == ms2[i2 + 1..];
      SameRest(text, sep, ms1, i1 + 1, ms2, i2 + 1, Take(text, sep, ms1[i1], c));
    }
  }

  /** A match that starts before the current `next` is never applied, so
      removing it changes nothing: `next` only grows during the pass. */
  lemma {:induction false} DropStale(text: string, sep: string, ms: seq<Match>, k: int, i: int, c: Cursor)
    requires 0 <= i <= k < |ms| && 0 <= c.next <= |text| && InText(text, ms)
    requires ms[k].position < c.next
    ensures InText(text, Drop(ms, k))
    ensures Rewrite(text, sep, ms, i, c) == Rewrite(text, sep, Drop(ms, k), i, c)
    decreases k - i
  {
    var r := Drop(ms, k);
    DropInText(text, ms, k);
    if i == k {
      assert Take(text, sep, ms[k], c) == c;
      assert ms[k + 1..] == r[k..];
      SameRest(text, sep, ms, k + 1, r, k, c);
    } else {
      assert r[i] == ms[i];
      DropStale(text, sep, ms, k, i + 1, Take(text, sep, ms[i], c));
    }
  }

  /** Once a match is applied, no later match that starts inside its word
      has any effect on the result: the pass gives the same text without
      it. With the search's order (longer words first at one position) this
      is what makes the longest match win. */
  lemma OverlapIgnored(text: string, sep: string, ms: seq<Match>, j: int, k: int, c: Cursor)
    requires 0 <= j < k < |ms| && 0 <= c.next <= |text| && InText(text, ms)
    requires c.next <= ms[j].position && Occurs(text, ms[j].word.word, ms[j].position)
    requires ms[k].position < ms[j].position + |ms[j].word.word|
    ensures InText(text, Drop(ms, k))
    ensures Rewrite(text, sep, ms, j, c) == Rewrite(text, sep, Drop(ms, k), j, c)
  {
    var r := Drop(ms, k);
    DropInText(text, ms, k);
    assert r[j] == ms[j];
    var c' := Take(text, sep, ms[j], c);
    assert c'.next == ms[j].position + |ms[j].word.word|;
    DropStale(text, sep, ms, k, j + 1, c');
  }

  /** The pass only appends: what it has produced is never changed. */
  lemma {:induction false} OutputGrows(text: string, sep: string, ms: seq<Match>, j: int, c: Cursor)
    requires 0 <= j <= |ms| && 0 <= c.next <= |text| && InText(text, ms)
    ensures HasPrefix(Rewrite(text, sep, ms, j, c), c.out)
    decreases |ms| - j
  {
    if j == |ms| {
      assert (c.out + text[c.next..])[..|c.out|] == c.out;
    } else {
      var c' := Take(text, sep, ms[j], c);
      OutputGrows(text, sep, ms, j + 1, c');
      var r := Rewrite(text, sep, ms, j + 1, c');
      assert r[..|c.out|] == r[..|c'.out|][..|c.out|];
    }
  }

  /** When the first match replaces a word at the start of the text, the
      result starts with its transliteration and then the separator the
      rest needs. Nothing goes before the transliteration, so a separator
      comes first only when the transliteration is empty. */
  lemma StartsWithFirst(text: string, sep: string, ms: seq<Match>)
    requires InText(text, ms) && |ms| > 0
    requires ms[0].position == 0 && Occurs(text, ms[0].word.word, 0)
    ensures HasPrefix(Rewrite(text, sep, ms, 0, Cursor([], 0)), ms[0].word.translit)
    ensures HasPrefix(Rewrite(text, sep, ms, 0, Cursor([], 0)), ms[0].word.translit + SepAfter(AfterMatch(text, ms[0]), sep))
  {
    TakeApplies(text, sep, ms[0], Cursor([], 0));
    var out' := Applied(text, sep, [], 0, ms[0]);
    var tr := ms[0].word.translit;
    assert SepBefore([], sep) == [];
    assert out' == tr + SepAfter(text[|ms[0].word.word|..], sep) by {
      assert text[0..0] == [];
    }
    assert out'[..|tr|] == tr;
    OutputGrows(text, sep, ms, 1, Cursor(out', |ms[0].word.word|));
    var r := Rewrite(text, sep, ms, 1, Cursor(out', |ms[0].word.word|));
    assert r[..|tr|] == r[..|out'|][..|tr|];
    assert AfterMatch(text, ms[0]) == text[|ms[0].word.word|..];
  }

  /** The rewritten text before an applicable match: the output so far and
      the gap of the original up to the match. */
  function BeforeMatch(text: string, m: Match, c: Cursor): string
    requires 0 <= c.next <= m.position <= |text|
  {
    c.out + text[c.next..m.position]
  }

  /** The original after a match's word. */
  function AfterMatch(text: string, m: Match): string
    requires 0 <= m.position && m.position + |m.word.word| <= |text|
  {
    text[m.position + |m.word.word|..]
  }

  /** Before a replacement the separator is put exactly where it is
      missing and never doubled: none when the text before it is empty or
      already ends with the separator, one otherwise. */
  lemma SeparatorBefore(text: string, sep: string, m: Match, c: Cursor)
    requires 0 <= c.next <= m.position && Occurs(text, m.word.word, m.position)
    ensures BeforeMatch(text, m, c) == [] || HasSuffix(BeforeMatch(text, m, c), sep) ==>
      HasPrefix(Take(text, sep, m, c).out, BeforeMatch(text, m, c) + m.word.translit)
    ensures BeforeMatch(text, m, c) != [] && !HasSuffix(BeforeMatch(text, m, c), sep) ==>
      HasPrefix(Take(text, sep, m, c).out, BeforeMatch(text, m, c) + sep + m.word.translit)
  {
    TakeApplies(text, sep, m, c);
    var before := BeforeMatch(text, m, c);
    PartsOfJoined(before, SepBefore(before, sep), m.word.translit, SepAfter(AfterMatch(text, m), sep));
  }

  /** After a replacement likewise: no separator when the rest of the
      original is empty or already starts with one, one otherwise; and
      the pass resumes right after the word. */
  lemma SeparatorAfter(text: string, sep: string, m: Match, c: Cursor)
    requires 0 <= c.next <= m.position && Occurs(text, m.word.word, m.position)
    ensures Take(text, sep, m, c).next == m.position + |m.word.word|
    ensures AfterMatch(text, m) == [] || HasPrefix(AfterMatch(text, m), sep) ==>
      HasSuffix(Take(text, sep, m, c).out, m.word.translit)
    ensures AfterMatch(text, m) != [] && !HasPrefix(AfterMatch(text, m), sep) ==>
      HasSuffix(Take(text, sep, m, c).out, m.word.translit + sep)
  {
    TakeApplies(text, sep, m, c);
    var before := BeforeMatch(text, m, c);
    PartsOfJoined(before, SepBefore(before, sep), m.word.translit, SepAfter(AfterMatch(text, m), sep));
  }

  /** A text glued from four pieces starts with the first three and ends
      with the last two. */
  lemma PartsOfJoined(a: string, b: string, c: string, d: string)
    ensures HasPrefix(a + b + c + d, a + b + c)
    ensures HasSuffix(a + b + c + d, c + d)
    ensures HasSuffix(a + b + c + d, b + c + d)
  {
    assert (a + b + c + d)[..|a + b + c|] == a + b + c;
    assert (a + b + c + d)[|a + b + c + d| - |c + d|..] == c + d;
    assert (a + b + c + d)[|a + b + c + d| - |b + c + d|..] == b + c + d;
  }

  /** With every later match a non-empty word, a pass that has reached the
      end of the original copies nothing more. */
  lemma {:induction false} RestSkipped(text: string, sep: string, ms: seq<Match>, j: int, c: Cursor)
    requires 0 <= j <= |ms| && c.next == |text| && InText(text, ms)
    requires forall k :: j <= k < |ms| ==> ms[k].word.word != []
    ensures Rewrite(text, sep, ms, j, c) == c.out
    decreases |ms| - j
  {
    if j < |ms| {
      assert ms[j].position < c.next;
      RestSkipped(text, sep, ms, j + 1, c);
    } else {
      assert text[c.next..] == [];
    }
  }

  /** When an applied match ends the text and no later match is an empty
      word, the result ends with the separator the text before it needs
      and then its transliteration. Nothing follows the transliteration,
      so a separator comes last only when the transliteration is empty. */
  lemma NoTrailingSeparator(text: string, sep: string, ms: seq<Match>, j: int, c: Cursor)
    requires 0 <= j < |ms| && 0 <= c.next <= ms[j].position && InText(text, ms)
    requires Occurs(text, ms[j].word.word, ms[j].position) && ms[j].position + |ms[j].word.word| == |text|
    requires forall k :: j < k < |ms| ==> ms[k].word.word != []
    ensures HasSuffix(Rewrite(text, sep, ms, j, c), ms[j].word.translit)
    ensures HasSuffix(Rewrite(text, sep, ms, j, c), SepBefore(BeforeMatch(text, ms[j], c), sep) + ms[j].word.translit)
  {
    SeparatorAfter(text, sep, ms[j], c);
    var c' := Take(text, sep, ms[j], c);
    assert AfterMatch(text, ms[j]) == [];
    RestSkipped(text, sep, ms, j + 1, c');
    TakeApplies(text, sep, ms[j], c);
    var before := BeforeMatch(text, ms[j], c);
    var sb := SepBefore(before, sep);
    assert SepAfter(AfterMatch(text, ms[j]), sep) == [];
    PartsOfJoined(before, sb, ms[j].word.translit, []);
    assert sb + ms[j].word.translit + [] == sb + ms[j].word.translit;
  }

  /** The pass with plain substitution and no separators at all. */
  function Substitute(text: string, ms: seq<Match>, j: int, out: string, next: int): string
    requires 0 <= j <= |ms| && 0 <= next <= |text| && InText(text, ms)
    decreases |ms| - j
  {
    if j == |ms| then out + text[next..]
    else
      var m := ms[j];
      var w := m.word.word;
      if m.position < next || !Occurs(text, w, m.position) then Substitute(text, ms, j + 1, out, next)
      else Substitute(text, ms, j + 1, out + text[next..m.position] + m.word.translit, m.position + |w|)
  }

  /** With an empty separator nothing but the transliterations is put in:
      the pass is plain substitution. */
  lemma {:induction false} EmptySepSubstitutes(text: string, ms: seq<Match>, j: int, out: string, next: int)
    requires 0 <= j <= |ms| && 0 <= next <= |text| && InText(text, ms)
    ensures Rewrite(text, [], ms, j, Cursor(out, next)) == Substitute(text, ms, j, out, next)
    decreases |ms| - j
  {
    if j < |ms| {
      var m := ms[j];
      if m.position < next || !Occurs(text, m.word.word, m.position) {
        assert Take(text, [], m, Cursor(out, next)) == Cursor(out, next);
        EmptySepSubstitutes(text, ms, j + 1, out, next);
      } else {
        var before := out + text[next..m.position];
        assert SepBefore(before, []) == [] by {
          assert HasSuffix(before, []);
        }
        assert SepAfter(text[m.position + |m.word.word|..], []) == [];
        assert Applied(text, [], out, next, m) == before + m.word.translit;
        assert Take(text, [], m, Cursor(out, next)) == Cursor(before + m.word.translit, m.position + |m.word.word|);
        EmptySepSubstitutes(text, ms, j + 1, before + m.word.translit, m.position + |m.word.word|);
      }
    }
  }

  /** What `Search` reports over a built trie can be handed to `Replace`:
      every match lies inside the text, and its word is really there, so
      the re-check in the pass never rejects one. */
  lemma SearchFeedsReplace(pre: seq<Node>, nodes: seq<Node>, paths: seq<string>, text: string)
    requires Built(pre, nodes, paths) && Spelled(pre, paths)
    ensures var ms := AhoCorasick.Search(nodes, paths, text).matches;
      && InText(text, ms)
      && forall i :: 0 <= i < |ms| ==> Occurs(text, ms[i].word.word, ms[i].position)
  {
    var ms := AhoCorasick.Search(nodes, paths, text).matches;
    forall i | 0 <= i < |ms| ensures Occurs(text, ms[i].word.word, ms[i].position) {
      AhoCorasick.SearchSound(pre, nodes, paths, text, ms[i]);
    }
  }

  /** Two adjacent words with a space separator: a separator goes between
      the replacements and before the untouched tail, none at the start. */
  lemma SeparatorExample()
    ensures Rewrite("日本国民は", " ", [Match(Word("日本", "nihon"), 0), Match(Word("国民", "kokumin"), 2)], 0, Cursor([], 0))
      == "nihon kokumin は"
  {
    var text := "日本国民は";
    var ms := [Match(Word("日本", "nihon"), 0), Match(Word("国民", "kokumin"), 2)];
    FirstOfExample();
    SecondOfExample();
    assert text[4..] == "は";
    assert Rewrite(text, " ", ms, 2, Cursor("nihon kokumin ", 4)) == "nihon kokumin は";
    assert Rewrite(text, " ", ms, 1, Cursor("nihon ", 2)) == Rewrite(text, " ", ms, 2, Cursor("nihon kokumin ", 4));
  }

  /** The first match of `SeparatorExample`: no separator at the start. */
  lemma FirstOfExample()
    ensures Take("日本国民は", " ", Match(Word("日本", "nihon"), 0), Cursor([], 0)) == Cursor("nihon ", 2)
  {
    var text := "日本国民は";
    var m := Match(Word("日本", "nihon"), 0);
    assert Occurs(text, "日本", 0) by {
      assert text[0..2] == "日本";
    }
    TakeApplies(text, " ", m, Cursor([], 0));
    assert [] + text[0..0] == [];
    assert text[2..] == "国民は";
    assert SepAfter("国民は", " ") == " " by {
      assert "国民は"[..1][0] == '国';
    }
  }

  /** The second match of `SeparatorExample`: the text so far already ends
      with the separator. */
  lemma SecondOfExample()
    ensures Take("日本国民は", " ", Match(Word("国民", "kokumin"), 2), Cursor("nihon ", 2)) == Cursor("nihon kokumin ", 4)
  {
    var text := "日本国民は";
    var m := Match(Word("国民", "kokumin"), 2);
    assert Occurs(text, "国民", 2) by {
      assert text[2..4] == "国民";
    }
    TakeApplies(text, " ", m, Cursor("nihon ", 2));
    assert "nihon " + text[2..2] == "nihon ";
    assert SepBefore("nihon ", " ") == [] by {
      assert "nihon "[5..] == " ";
    }
    assert text[4..] == "は";
    assert SepAfter("は", " ") == " " by {
      assert "は"[..1][0] == 'は';
    }
  }

  /** Two words at the same position, as `Search` sorts them: the longer
      one applies, and the shorter one then lies before `nextPos` and is
      passed over. */
  lemma OverlapExample()
    ensures Rewrite("あい", [], [Match(Word("あい", "X"), 0), Match(Word("あ", "Y"), 0)], 0, Cursor([], 0)) == "X"
  {
    var text := "あい";
    var ms := [Match(Word("あい", "X"), 0), Match(Word("あ", "Y"), 0)];
    assert Occurs(text, "あい", 0) by {
      assert text[0..2] == "あい";
    }
    TakeApplies(text, [], ms[0], Cursor([], 0));
    assert Applied(text, [], [], 0, ms[0]) == "X" by {
      assert text[0..0] == [];
      assert text[2..] == [];
    }
    assert Take(text, [], ms[1], Cursor("X", 2)) == Cursor("X", 2);
    assert text[2..] == [];
  }

  /** A replacement with an empty transliteration at the start of the text
      still gets the separator after it, so the result starts with one. */
  lemma LeadingSeparatorExample()
    ensures Rewrite("っこ", " ", [Match(Word("っ", ""), 0)], 0, Cursor([], 0)) == " こ"
  {
    var text := "っこ";
    var ms := [Match(Word("っ", ""), 0)];
    assert Occurs(text, "っ", 0) by {
      assert text[0..1] == "っ";
    }
    TakeApplies(text, " ", ms[0], Cursor([], 0));
    assert Applied(text, " ", [], 0, ms[0]) == " " by {
      assert text[0..0] == [];
      assert text[1..] == "こ";
      assert !HasPrefix("こ", " ") by {
        assert "こ"[..1] == "こ";
      }
    }
    assert text[1..] == "こ";
  }

  /** A replacement with an empty transliteration at the end of the text
      still gets the separator before it, so the result ends with one. */
  lemma TrailingSeparatorExample()
    ensures Rewrite("こっ", " ", [Match(Word("っ", ""), 1)], 0, Cursor([], 0)) == "こ "
  {
    var text := "こっ";
    var ms := [Match(Word("っ", ""), 1)];
    assert Occurs(text, "っ", 1) by {
      assert text[1..2] == "っ";
    }
    TakeApplies(text, " ", ms[0], Cursor([], 0));
    assert Applied(text, " ", [], 0, ms[0]) == "こ " by {
      assert text[0..1] == "こ";
      assert [] + text[0..1] == "こ";
      assert !HasSuffix("こ", " ");
      assert text[2..] == [];
    }
    assert text[2..] == [];
  }

  /** An empty word matched at the end of the text, after a replacement
      that ended there, adds a separator after that replacement. */
  lemma EmptyWordSeparatorExample()
    ensures Rewrite("あ", " ", [Match(Word("あ", "a"), 0), Match(Word("", ""), 1)], 0, Cursor([], 0)) == "a "
  {
    var text := "あ";
    var ms := [Match(Word("あ", "a"), 0), Match(Word("", ""), 1)];
    assert Occurs(text, "あ", 0) by {
      assert text[0..1] == "あ";
    }
    TakeApplies(text, " ", ms[0], Cursor([], 0));
    assert Applied(text, " ", [], 0, ms[0]) == "a" by {
      assert text[0..0] == [];
      assert text[1..] == [];
    }
    assert Occurs(text, "", 1) by {
      assert text[1..1] == [];
    }
    TakeApplies(text, " ", ms[1], Cursor("a", 1));
    assert Applied(text, " ", "a", 1, ms[1]) == "a " by {
      assert text[1..1] == [];
      assert text[1..] == [];
      assert "a" + text[1..1] == "a";
      assert !HasSuffix("a", " ");
    }
    assert text[1..] == [];
  }

  /** An empty transliteration collapses its word, and with an empty
      separator nothing is put around either replacement. */
  lemma EmptyReplacementExample()
    ensures Rewrite("がっこう", [], [Match(Word("が", "ga"), 0), Match(Word("っ", ""), 1)], 0, Cursor([], 0)) == "gaこう"
  {
    var text := "がっこう";
    var ms := [Match(Word("が", "ga"), 0), Match(Word("っ", ""), 1)];
    assert Occurs(text, "が", 0) by {
      assert text[0..1] == "が";
    }
    TakeApplies(text, [], ms[0], Cursor([], 0));
    assert Applied(text, [], [], 0, ms[0]) == "ga" by {
      assert text[0..0] == [];
    }
    assert Occurs(text, "っ", 1) by {
      assert text[1..2] == "っ";
    }
    TakeApplies(text, [], ms[1], Cursor("ga", 1));
    assert Applied(text, [], "ga", 1, ms[1]) == "ga" by {
      assert text[1..1] == [];
    }
    assert text[2..] == "こう";
  }
}
