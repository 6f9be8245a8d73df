/** The dictionary generator: each line of a source dictionary becomes one
    or more (word, transliteration) pairs, place names are taken from the
    JMnedict entries, and everything is added to a builder, linked and
    saved. */
module Generate {
  import opened Options
  import opened Text
  import opened Nodes
  import Builder
  import Automaton
  import FailureLinks

  /** The kana that can follow a word whose transliteration ends in a
      lone romaji letter: the source dictionaries write such words with the
      romaji initial of the next syllable, and the generator expands each
      into one entry per kana, in this order. */
  const CLetters: map<char, seq<string>> := map[
    'a' := ["あ", "ぁ", "っ", "わ", "ゎ"],
    'i' := ["い", "ぃ", "っ", "ゐ"],
    'u' := ["う", "ぅ", "っ"],
    'e' := ["え", "ぇ", "っ", "ゑ"],
    'o' := ["お", "ぉ", "っ"],
    'k' := ["か", "ゕ", "き", "く", "け", "ゖ", "こ", "っ"],
    'g' := ["が", "ぎ", "ぐ", "げ", "ご", "っ"],
    's' := ["さ", "し", "す", "せ", "そ", "っ"],
    'z' := ["ざ", "じ", "ず", "ぜ", "ぞ", "っ"],
    'j' := ["ざ", "じ", "ず", "ぜ", "ぞ", "っ"],
    't' := ["た", "ち", "つ", "て", "と", "っ"],
    'd' := ["だ", "ぢ", "づ", "で", "ど", "っ"],
    'c' := ["ち", "っ"],
    'n' := ["な", "に", "ぬ", "ね", "の", "ん"],
    'h' := ["は", "ひ", "ふ", "へ", "ほ", "っ"],
    'b' := ["ば", "び", "ぶ", "べ", "ぼ", "っ"],
    'f' := ["ふ", "っ"],
    'p' := ["ぱ", "ぴ", "ぷ", "ぺ", "ぽ", "っ"],
    'm' := ["ま", "み", "む", "め", "も"],
    'y' := ["や", "ゃ", "ゆ", "ゅ", "よ", "ょ"],
    'r' := ["ら", "り", "る", "れ", "ろ"],
    'w' := ["わ", "ゐ", "ゑ", "ゎ", "を", "っ"],
    'v' := ["ゔ"]
  ]

  /** Every key of the table is a lower-case ASCII letter. */
  lemma CLettersKeys()
    ensures forall c :: c in CLetters ==> 'a' <= c <= 'z'
  {
  }

  /** Every entry of the table is a non-empty list of single kana. */
  lemma CLettersEntries()
    ensures forall c :: c in CLetters ==> |CLetters[c]| > 0
    ensures forall c, i :: c in CLetters && 0 <= i < |CLetters[c]| ==> |CLetters[c][i]| == 1
  {
  }

  /** The last byte of the UTF-8 encoding of `c`, read as a code point:
      what Go's `rune(s[len(s)-1])` gives for a string ending in `c`. An
      ASCII code point is its own encoding; any other ends in a
      continuation byte `10xxxxxx` holding its low six bits. */
  function LastByte(c: char): (b: char)
    ensures c as int < 0x80 ==> b == c
    ensures c as int >= 0x80 ==> 0x80 <= b as int < 0xC0
  {
    if c as int < 0x80 then c else (0x80 + c as int % 0x40) as char
  }

  /** The kana the generator expands a transliteration with: the table
      entry for its last byte, which is the entry for its last code point
      because the table's keys are ASCII. */
  function LettersFor(translit: string): (letters: seq<string>)
    requires translit != []
    ensures var c := translit[|translit| - 1];
      letters == if c in CLetters then CLetters[c] else []
  {
    CLettersKeys();
    var k := LastByte(translit[|translit| - 1]);
    if k in CLetters then CLetters[k] else []
  }

  /** The line is a comment. */
  predicate IsComment(line: string) {
    HasPrefix(line, ";;")
  }

  /** How an entry `w` can be read back from the line's transliteration
      `t` and word `wd`. Without expansion it is the pair itself. With it,
      `t` ends in a table key, and `w` is `wd` and `t` minus that key, each
      followed by the same single kana from the key's list. */
  ghost predicate FromLine(w: Word, t: string, wd: string, expand: bool) {
    if expand then
      && |t| > 0 && t[|t| - 1] in CLetters
      && |w.word| == |wd| + 1 && |w.translit| == |t|
      && w.word[..|wd|] == wd && w.translit[..|t| - 1] == t[..|t| - 1]
      && w.word[|wd|] == w.translit[|t| - 1]
      && [w.word[|wd|]] in CLetters[t[|t| - 1]]
    else w == Word(wd, t)
  }

  /** The transliteration of the line ends in a table key and the
      dictionary asks for expansion. */
  predicate Expands(t: string, decodeCLetters: bool) {
    decodeCLetters && t != [] && t[|t| - 1] in CLetters
  }

  /** The pairs a line with transliteration `t` and word `wd` adds, in
      order. When the dictionary asks for it and `t` ends in a table key,
      one pair per kana of the key's list; otherwise the pair itself.
      `None` where the generator fails: it reads the last byte of an empty
      transliteration when it expands. */
  function ExpandPair(t: string, wd: string, decodeCLetters: bool): (r: Option<seq<Word>>)
    ensures r.None? <==> decodeCLetters && t == []
    ensures r.Some? ==> r.value != []
    ensures r.Some? ==> |r.value| == (if Expands(t, decodeCLetters) then |CLetters[t[|t| - 1]]| else 1)
    ensures r.Some? ==> forall i :: 0 <= i < |r.value| ==> FromLine(r.value[i], t, wd, Expands(t, decodeCLetters))
    ensures r.Some? && Expands(t, decodeCLetters) ==> forall i :: 0 <= i < |r.value| ==>
      r.value[i] == Word(wd + CLetters[t[|t| - 1]][i], t[..|t| - 1] + CLetters[t[|t| - 1]][i])
    ensures r.Some? && !Expands(t, decodeCLetters) ==> r.value == [Word(wd, t)]
  {
    if decodeCLetters && t == [] then None
    else
      var letters := if decodeCLetters then LettersFor(t) else [];
      if |letters| == 0 then Some([Word(wd, t)])
      else
        CLettersEntries();
        var ws := seq(|letters|, i requires 0 <= i < |letters| =>
          Word(wd + letters[i], t[..|t| - 1] + letters[i]));
        assert forall i :: 0 <= i < |ws| ==> FromLine(ws[i], t, wd, true) by {
          forall i | 0 <= i < |ws| ensures FromLine(ws[i], t, wd, true) {
            ExpandedEntry(t, wd, letters[i]);
          }
        }
        Some(ws)
  }

  /** The pairs one line of a source dictionary adds, in order. A comment
      line or a line without a space adds none; otherwise the first
      space-separated field is the transliteration and the second the word,
      further fields are ignored, and the pair expands as `ExpandPair`
      says. `None` exactly for a line starting with a space when the
      dictionary asks for expansion. */
  function ExpandLine(line: string, decodeCLetters: bool): (r: Option<seq<Word>>)
    ensures r.None? <==> decodeCLetters && !IsComment(line) && |line| > 0 && line[0] == ' '
    ensures r == Some([]) <==> IsComment(line) || ' ' !in line
    ensures r.Some? && r.value != [] ==>
      |SplitOn(line, ' ')| >= 2 && r == ExpandPair(SplitOn(line, ' ')[0], SplitOn(line, ' ')[1], decodeCLetters)
  {
    SplitMany(line, ' ');
    SplitFirstEmpty(line, ' ');
    if IsComment(line) then Some([])
    else
      var parts := SplitOn(line, ' ');
      if |parts| < 2 then Some([])
      else ExpandPair(parts[0], parts[1], decodeCLetters)
  }

  /** One expanded pair read back: the word and the transliteration minus
      its last code point come first, the kana last. */
  lemma ExpandedEntry(t: string, wd: string, l: string)
    requires t != [] && t[|t| - 1] in CLetters && l in CLetters[t[|t| - 1]] && |l| == 1
    ensures FromLine(Word(wd + l, t[..|t| - 1] + l), t, wd, true)
  {
    assert (wd + l)[..|wd|] == wd;
    assert (t[..|t| - 1] + l)[..|t| - 1] == t[..|t| - 1];
    assert [(wd + l)[|wd|]] == l;
  }

  /** Every kana of the letter's list gives a pair: expansion loses
      nothing. */
  lemma ExpandPairComplete(t: string, wd: string, l: string)
    requires Expands(t, true) && l in CLetters[t[|t| - 1]]
    ensures ExpandPair(t, wd, true).Some? && Word(wd + l, t[..|t| - 1] + l) in ExpandPair(t, wd, true).value
  {
    var letters := LettersFor(t);
    var k :| 0 <= k < |letters| && letters[k] == l;
    assert ExpandPair(t, wd, true).value[k] == Word(wd + l, t[..|t| - 1] + l);
  }

  /** A JMnedict entry, as far as the generator reads it. */
  datatype Entry = Entry(kanji: string, kana: string, translation: string, nameType: string)

  /** A place name written in kanji. */
  predicate IsPlace(e: Entry) {
    e.kanji != [] && e.nameType == "(place)"
  }

  /** The (kanji, kana) pair of every place-name entry, in order; every
      other entry is ignored. */
  function PlaceWords(entries: seq<Entry>): (ws: seq<Word>)
    ensures |ws| <= |entries|
    ensures forall w :: w in ws <==> exists e :: e in entries && IsPlace(e) && w == Word(e.kanji, e.kana)
    ensures |entries| == 1 ==> ws == if IsPlace(entries[0]) then [Word(entries[0].kanji, entries[0].kana)] else []
    decreases |entries|
  {
    if entries == [] then []
    else
      var rest := PlaceWords(entries[1..]);
      var e := entries[0];
      assert forall x :: x in entries <==> x == e || x in entries[1..];
      if IsPlace(e) then [Word(e.kanji, e.kana)] + rest else rest
  }

  /** The pairs a whole source file adds, line after line; `None` if the
      generator fails on any line. */
  function ExpandLines(lines: seq<string>, decodeCLetters: bool): (r: Option<seq<Word>>)
    ensures r.None? <==> exists i :: 0 <= i < |lines| && ExpandLine(lines[i], decodeCLetters).None?
    ensures r.Some? ==> forall w :: w in r.value <==>
      exists i :: 0 <= i < |lines| && w in ExpandLine(lines[i], decodeCLetters).value
    ensures lines == [] ==> r == Some([])
    ensures |lines| == 1 ==> r == ExpandLine(lines[0], decodeCLetters)
    decreases |lines|
  {
    if lines == [] then Some([])
    else
      var first := ExpandLine(lines[0], decodeCLetters);
      var rest := ExpandLines(lines[1..], decodeCLetters);
      assert forall i :: 1 <= i < |lines| ==> lines[i] == lines[1..][i - 1];
      if first.None? then None
      else if rest.None? then
        var i :| 0 <= i < |lines[1..]| && ExpandLine(lines[1..][i], decodeCLetters).None?;
        assert lines[i + 1] == lines[1..][i];
        None
      else
        ExpandLinesSome(lines, decodeCLetters, first.value, rest.value);
        assert |lines| == 1 ==> lines[1..] == [] && rest.value == [] && first.value + rest.value == first.value;
        Some(first.value + rest.value)
  }

  /** The contents step of `ExpandLines`. */
  lemma ExpandLinesSome(lines: seq<string>, decodeCLetters: bool, first: seq<Word>, rest: seq<Word>)
    requires |lines| > 0 && ExpandLine(lines[0], decodeCLetters) == Some(first)
    requires forall i :: 0 <= i < |lines[1..]| ==> ExpandLine(lines[1..][i], decodeCLetters).Some?
    requires forall w :: w in rest <==> exists i :: 0 <= i < |lines[1..]| && w in ExpandLine(lines[1..][i], decodeCLetters).value
    ensures forall i :: 0 <= i < |lines| ==> ExpandLine(lines[i], decodeCLetters).Some?
    ensures forall w :: w in first + rest <==> exists i :: 0 <= i < |lines| && w in ExpandLine(lines[i], decodeCLetters).value
  {
    forall i | 1 <= i < |lines| ensures ExpandLine(lines[i], decodeCLetters).Some? {
      assert lines[i] == lines[1..][i - 1];
    }
    forall w | w in first + rest ensures exists i :: 0 <= i < |lines| && w in ExpandLine(lines[i], decodeCLetters).value {
      if w !in first {
        var i :| 0 <= i < |lines[1..]| && w in ExpandLine(lines[1..][i], decodeCLetters).value;
        assert lines[i + 1] == lines[1..][i];
      }
    }
    forall w | exists i :: 0 <= i < |lines| && w in ExpandLine(lines[i], decodeCLetters).value ensures w in first + rest {
      var i :| 0 <= i < |lines| && w in ExpandLine(lines[i], decodeCLetters).value;
      if i > 0 {
        assert lines[i] == lines[1..][i - 1];
      }
    }
  }

  /** The place words of two runs of entries are those of the first run
      followed by those of the second: entry order is kept. */
  lemma {:induction false} PlaceWordsAppend(a: seq<Entry>, b: seq<Entry>)
    ensures PlaceWords(a + b) == PlaceWords(a) + PlaceWords(b)
    decreases |a|
  {
    if a != [] {
      assert (a + b)[1..] == a[1..] + b;
      PlaceWordsAppend(a[1..], b);
    } else {
      assert a + b == b;
    }
  }

  /** Lines read one after another: the pairs of the first line, then the
      rest, failing when either fails. */
  function ConsWords(first: Option<seq<Word>>, rest: Option<seq<Word>>): (r: Option<seq<Word>>)
    ensures r.Some? <==> first.Some? && rest.Some?
  {
    if first.None? || rest.None? then None else Some(first.value + rest.value)
  }

  /** Reading a first line in front of two runs is the same as reading it
      in front of the first run and then the second. */
  lemma ConsJoin(first: Option<seq<Word>>, rest: Option<seq<Word>>, tail: Option<seq<Word>>)
    ensures ConsWords(first, ConsWords(rest, tail)) == ConsWords(ConsWords(first, rest), tail)
  {
    if first.Some? && rest.Some? && tail.Some? {
      assert first.value + (rest.value + tail.value) == (first.value + rest.value) + tail.value;
    }
  }

  /** The pairs of two runs of lines are those of the first run followed
      by those of the second, and reading fails when either run fails:
      line order is kept. */
  lemma {:induction false} ExpandLinesAppend(a: seq<string>, b: seq<string>, decodeCLetters: bool)
    ensures ExpandLines(a + b, decodeCLetters) == ConsWords(ExpandLines(a, decodeCLetters), ExpandLines(b, decodeCLetters))
    decreases |a|
  {
    if a != [] {
      assert (a + b)[1..] == a[1..] + b;
      assert (a + b)[0] == a[0];
      ExpandLinesAppend(a[1..], b, decodeCLetters);
      var first := ExpandLine(a[0], decodeCLetters);
      assert ExpandLines(a, decodeCLetters) == ConsWords(first, ExpandLines(a[1..], decodeCLetters));
      assert ExpandLines(a + b, decodeCLetters) == ConsWords(first, ExpandLines(a[1..] + b, decodeCLetters));
      ConsJoin(first, ExpandLines(a[1..], decodeCLetters), ExpandLines(b, decodeCLetters));
    } else {
      assert a + b == b;
      assert ExpandLines(a, decodeCLetters) == Some([]);
      if ExpandLines(b, decodeCLetters).Some? {
        assert [] + ExpandLines(b, decodeCLetters).value == ExpandLines(b, decodeCLetters).value;
      }
    }
  }

  /** The pairs of one compiled dictionary: every line of its source files
      in order, then, for the dictionary that has one, the JMnedict place
      names. */
  function DictWords(lines: seq<string>, decodeCLetters: bool, places: Option<seq<Entry>>): (r: Option<seq<Word>>)
    ensures r.None? <==> ExpandLines(lines, decodeCLetters).None?
    ensures r.Some? ==> forall w :: w in r.value <==>
      || (exists i :: 0 <= i < |lines| && w in ExpandLine(lines[i], decodeCLetters).value)
      || (places.Some? && exists e :: e in places.value && IsPlace(e) && w == Word(e.kanji, e.kana))
    ensures r.Some? ==> r.value == ExpandLines(lines, decodeCLetters).value + (if places.Some? then PlaceWords(places.value) else [])
  {
    var fromLines := ExpandLines(lines, decodeCLetters);
    if fromLines.None? then None
    else Some(fromLines.value + if places.Some? then PlaceWords(places.value) else [])
  }

  /** Add the pairs one after the other. */
  function AddAll(nodes: seq<Node>, words: seq<Word>): (res: seq<Node>)
    requires EdgesForward(nodes) && |nodes| > 0
    ensures EdgesForward(res) && |nodes| <= |res|
    ensures res[RootIdx].fail == nodes[RootIdx].fail
    decreases |words|
  {
    if words == [] then nodes else AddAll(Builder.AddWord(nodes, words[0]), words[1..])
  }

  /** A text already in the builder stays at its node, and the node keeps
      its entries, whatever is added after it. */
  lemma {:induction false} AddAllKeeps(nodes: seq<Node>, words: seq<Word>, s: string)
    requires EdgesForward(nodes) && |nodes| > 0 && Lookup(nodes, s).Some?
    ensures var res := AddAll(nodes, words);
      && Lookup(res, s) == Lookup(nodes, s)
      && nodes[Lookup(nodes, s).value].output <= res[Lookup(nodes, s).value].output
    decreases |words|
  {
    if words != [] {
      var next := Builder.AddWord(nodes, words[0]);
      Builder.AddWordKeepsWords(nodes, words[0], s);
      AddAllKeeps(next, words[1..], s);
    }
  }

  /** Every added pair can be looked up: its word leads to a node whose
      entries hold it. */
  lemma {:induction false} AddAllStores(nodes: seq<Node>, words: seq<Word>, w: Word)
    requires EdgesForward(nodes) && |nodes| > 0 && w in words
    ensures var res := AddAll(nodes, words);
      Lookup(res, w.word).Some? && w in res[Lookup(res, w.word).value].output
    decreases |words|
  {
    var next := Builder.AddWord(nodes, words[0]);
    if w == words[0] {
      var e := Lookup(next, w.word).value;
      assert w in next[e].output;
      AddAllKeeps(next, words[1..], w.word);
    } else {
      AddAllStores(next, words[1..], w);
    }
  }

  /** Nothing else is stored: an entry of the result was added or was there
      before. */
  lemma {:induction false} AddAllOnly(nodes: seq<Node>, words: seq<Word>, i: int, v: Word)
    requires EdgesForward(nodes) && |nodes| > 0
    requires 0 <= i < |AddAll(nodes, words)| && v in AddAll(nodes, words)[i].output
    ensures v in words || (i < |nodes| && v in nodes[i].output)
    decreases |words|
  {
    if words != [] {
      var next := Builder.AddWord(nodes, words[0]);
      AddAllOnly(next, words[1..], i, v);
      if v !in words[1..] {
        assert v in next[i].output;
        assert v in Builder.OutputBefore(nodes, i) || v == words[0];
      }
    }
  }

  /** Starting from an empty builder, a pair is stored exactly when it was
      added. */
  lemma CompiledStores(words: seq<Word>, v: Word)
    ensures Automaton.Stored(AddAll(Builder.NewBuilder(), words), v) <==> v in words
  {
    var pre := AddAll(Builder.NewBuilder(), words);
    if v in words {
      AddAllStores(Builder.NewBuilder(), words, v);
    }
    if Automaton.Stored(pre, v) {
      var k :| 0 <= k < |pre| && v in pre[k].output;
      AddAllOnly(Builder.NewBuilder(), words, k, v);
    }
  }

  /** The builder after the additions is a trie each of whose entries spells
      its node's text. */
  lemma {:induction false} AddAllTrie(nodes: seq<Node>, paths: seq<string>, words: seq<Word>) returns (paths': seq<string>)
    requires Trie(nodes, paths) && Spelled(nodes, paths)
    ensures Trie(AddAll(nodes, words), paths') && Spelled(AddAll(nodes, words), paths')
    decreases |words|
  {
    if words == [] {
      paths' := paths;
    } else {
      var next := Builder.AddWord(nodes, words[0]);
      var ps := Builder.AddWordTrie(nodes, paths, words[0]);
      paths' := AddAllTrie(next, ps, words[1..]);
    }
  }

  /** Add `words` to a new builder and link it: the built automaton over a
      builder that stores exactly `words`. */
  method BuildWords(words: seq<Word>) returns (nodes: seq<Node>)
    ensures exists paths ::
      Automaton.Built(AddAll(Builder.NewBuilder(), words), nodes, paths) && Spelled(AddAll(Builder.NewBuilder(), words), paths)
    ensures forall v :: Automaton.Stored(AddAll(Builder.NewBuilder(), words), v) <==> v in words
  {
    var pre := AddAll(Builder.NewBuilder(), words);
    ghost var paths := AddAllTrie(Builder.NewBuilder(), [[]], words);
    nodes := FailureLinks.Build(pre, paths);
    assert Automaton.Built(pre, nodes, paths) && Spelled(pre, paths);
    forall v ensures Automaton.Stored(pre, v) <==> v in words {
      CompiledStores(words, v);
    }
  }

  /** One dictionary of the generator, up to the save: add every pair of
      its sources to a new builder, then link it. `None` where the generator
      fails on a line. */
  method Compile(lines: seq<string>, decodeCLetters: bool, places: Option<seq<Entry>>)
    returns (res: Option<seq<Node>>)
    ensures res.None? <==> DictWords(lines, decodeCLetters, places).None?
    ensures res.Some? ==>
      var words := DictWords(lines, decodeCLetters, places).value;
      var pre := AddAll(Builder.NewBuilder(), words);
      && (exists paths :: Automaton.Built(pre, res.value, paths) && Spelled(pre, paths))
      && forall v :: Automaton.Stored(pre, v) <==> v in words
  {
    var words := DictWords(lines, decodeCLetters, places);
    if words.None? {
      res := None;
    } else {
      var nodes := BuildWords(words.value);
      res := Some(nodes);
    }
  }
}
