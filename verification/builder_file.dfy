/** `DictionaryBuilder.Load`: read a saved arena back by splitting the file
    on newlines and decoding every line. `Save` ends each record with a
    newline, so the split always ends in an empty line, and an empty line
    does not decode: as written, `Load` reports an error on every file
    `Save` writes, after decoding every record into the builder.
    `LoadSkippingLast` is the reading that was evidently meant, and it
    gives back the saved arena. */
module BuilderFile {
  import opened Options
  import opened Text
  import opened Nodes
  import LazyDictionary

  /** Decode every line in order; `None` as soon as one fails. */
  function DecodeAll(decode: seq<byte> -> Option<Node>, lines: seq<seq<byte>>): (r: Option<seq<Node>>)
    ensures r.Some? <==> forall i :: 0 <= i < |lines| ==> decode(lines[i]).Some?
    ensures r.Some? ==> |r.value| == |lines| && forall i :: 0 <= i < |lines| ==> decode(lines[i]) == Some(r.value[i])
    decreases |lines|
  {
    if lines == [] then Some([])
    else
      var rest := DecodeAll(decode, lines[1..]);
      assert forall i :: 1 <= i < |lines| ==> lines[i] == lines[1..][i - 1];
      match decode(lines[0])
      case None => None
      case Some(n) =>
        if rest.None? then
          var i :| 0 <= i < |lines[1..]| && !decode(lines[1..][i]).Some?;
          assert lines[i + 1] == lines[1..][i];
          None
        else Some([n] + rest.value)
  }

  /** The newline-separated lines of a file. */
  function Lines(content: seq<byte>): (lines: seq<seq<byte>>)
    ensures |lines| >= 1 && JoinWith(lines, LazyDictionary.Newline) == content
  {
    JoinSplit(content, LazyDictionary.Newline);
    SplitOn(content, LazyDictionary.Newline)
  }

  /** The builder's arena after `Load` returns, and whether it returned
      without an error. */
  datatype LoadState = LoadState(nodes: seq<Node>, ok: bool)

  /** Decode lines in order, appending each node, and stop at the first
      line that does not decode: the arena keeps every node decoded before
      it. */
  function DecodePrefix(decode: seq<byte> -> Option<Node>, lines: seq<seq<byte>>): (r: LoadState)
    ensures r.ok <==> forall i :: 0 <= i < |lines| ==> decode(lines[i]).Some?
    ensures |r.nodes| <= |lines| && forall i :: 0 <= i < |r.nodes| ==> decode(lines[i]) == Some(r.nodes[i])
    ensures r.ok ==> |r.nodes| == |lines|
    ensures !r.ok ==> |r.nodes| < |lines| && decode(lines[|r.nodes|]).None?
    decreases |lines|
  {
    if lines == [] then LoadState([], true)
    else
      assert forall i :: 1 <= i < |lines| ==> lines[i] == lines[1..][i - 1];
      match decode(lines[0])
      case None => LoadState([], false)
      case Some(n) =>
        var rest := DecodePrefix(decode, lines[1..]);
        if !rest.ok then
          var i :| 0 <= i < |lines[1..]| && !decode(lines[1..][i]).Some?;
          assert lines[i + 1] == lines[1..][i];
          LoadState([n] + rest.nodes, false)
        else LoadState([n] + rest.nodes, true)
  }

  /** What `Load` leaves in the builder: the arena is replaced by the nodes
      of the lines decoded before the first failing one, and the call
      reports an error when there is one. */
  function LoadInto(decode: seq<byte> -> Option<Node>, content: seq<byte>): (r: LoadState)
    ensures r.ok <==> forall i :: 0 <= i < |Lines(content)| ==> decode(Lines(content)[i]).Some?
    ensures |r.nodes| <= |Lines(content)|
    ensures forall i :: 0 <= i < |r.nodes| ==> decode(Lines(content)[i]) == Some(r.nodes[i])
  {
    DecodePrefix(decode, Lines(content))
  }

  /** `Load` as written: every newline-separated line must decode, and the
      arena it succeeds with is the one it leaves in the builder. */
  function Load(decode: seq<byte> -> Option<Node>, content: seq<byte>): (r: Option<seq<Node>>)
    ensures r.Some? <==> forall i :: 0 <= i < |Lines(content)| ==> decode(Lines(content)[i]).Some?
    ensures r.Some? <==> LoadInto(decode, content).ok
    ensures r.Some? ==> r.value == LoadInto(decode, content).nodes
  {
    var r := DecodeAll(decode, Lines(content));
    var st := LoadInto(decode, content);
    assert r.Some? ==> |r.value| == |st.nodes| && forall i :: 0 <= i < |r.value| ==> r.value[i] == st.nodes[i];
    r
  }

  /** Whatever `Save` wrote, `Load` fails on it when an empty line does not
      decode (a JSON decoder reports end of input for one). */
  lemma LoadOfSavedFails(encode: Node -> seq<byte>, decode: seq<byte> -> Option<Node>, nodes: seq<Node>)
    requires decode([]) == None
    ensures Load(decode, LazyDictionary.Save(encode, nodes)) == None
  {
    SaveEndsWithNewline(encode, nodes);
    LoadFailsOnFinalNewline(decode, LazyDictionary.Save(encode, nodes));
  }

  /** A file that is empty or ends with a newline splits into a last line
      that is empty, so `Load` fails on it when an empty line does not
      decode. */
  lemma LoadFailsOnFinalNewline(decode: seq<byte> -> Option<Node>, content: seq<byte>)
    requires decode([]) == None
    requires content == [] || content[|content| - 1] == LazyDictionary.Newline
    ensures Load(decode, content) == None
  {
    SplitLastEmpty(content, LazyDictionary.Newline);
    var lines := Lines(content);
    assert decode(lines[|lines| - 1]).None?;
  }

  /** On what `Save` wrote, `Load` decodes every record before it fails on
      the empty piece: it reports an error and leaves exactly the saved
      arena in the builder. */
  lemma LoadOfSavedLeavesArena(encode: Node -> seq<byte>, decode: seq<byte> -> Option<Node>, nodes: seq<Node>)
    requires forall n :: LazyDictionary.Newline !in encode(n) && decode(encode(n)) == Some(n)
    requires decode([]) == None
    ensures LoadInto(decode, LazyDictionary.Save(encode, nodes)) == LoadState(nodes, false)
  {
    var content := LazyDictionary.Save(encode, nodes);
    LazyDictionary.SaveLines(encode, nodes);
    var rs := LazyDictionary.Records(encode, nodes);
    var lines := Lines(content);
    assert lines == rs + [[]];
    DecodePrefixOfRecords(encode, decode, nodes, rs);
  }

  /** Decoding the records of `nodes` followed by an empty line gives
      `nodes` and stops with a failure on the empty line. */
  lemma {:induction false} DecodePrefixOfRecords(encode: Node -> seq<byte>, decode: seq<byte> -> Option<Node>, nodes: seq<Node>, rs: seq<seq<byte>>)
    requires forall n :: decode(encode(n)) == Some(n)
    requires decode([]) == None
    requires |rs| == |nodes| && forall i :: 0 <= i < |rs| ==> rs[i] == encode(nodes[i])
    ensures DecodePrefix(decode, rs + [[]]) == LoadState(nodes, false)
    decreases |rs|
  {
    if rs == [] {
      assert rs + [[]] == [[]];
    } else {
      assert (rs + [[]])[1..] == rs[1..] + [[]];
      assert (rs + [[]])[0] == encode(nodes[0]);
      DecodePrefixOfRecords(encode, decode, nodes[1..], rs[1..]);
      assert [nodes[0]] + nodes[1..] == nodes;
    }
  }

  /** Saved content is empty or ends with a newline. */
  lemma {:induction false} SaveEndsWithNewline(encode: Node -> seq<byte>, nodes: seq<Node>)
    ensures var c := LazyDictionary.Save(encode, nodes);
      c == [] || c[|c| - 1] == LazyDictionary.Newline
    decreases |nodes|
  {
    if nodes != [] {
      SaveEndsWithNewline(encode, nodes[1..]);
    }
  }

  /** The records of a file: its lines without the empty piece after a
      final newline. */
  function RecordLines(content: seq<byte>): (records: seq<seq<byte>>)
    ensures var lines := Lines(content);
      records == lines || (lines[|lines| - 1] == [] && records + [[]] == lines)
  {
    var lines := Lines(content);
    if lines[|lines| - 1] == [] then lines[..|lines| - 1] else lines
  }

  /** The corrected `Load`: the empty piece after the final newline is not
      a record. */
  function LoadSkippingLast(decode: seq<byte> -> Option<Node>, content: seq<byte>): (r: Option<seq<Node>>)
    ensures r.Some? <==> forall i :: 0 <= i < |RecordLines(content)| ==> decode(RecordLines(content)[i]).Some?
    ensures r.Some? ==> |r.value| == |RecordLines(content)|
  {
    DecodeAll(decode, RecordLines(content))
  }

  /** The corrected `Load` reads back exactly the arena `Save` wrote, when
      decoding undoes encoding and records contain no newline. */
  lemma LoadSkippingLastRoundTrip(encode: Node -> seq<byte>, decode: seq<byte> -> Option<Node>, nodes: seq<Node>)
    requires forall n :: LazyDictionary.Newline !in encode(n) && decode(encode(n)) == Some(n)
    ensures LoadSkippingLast(decode, LazyDictionary.Save(encode, nodes)) == Some(nodes)
  {
    LazyDictionary.SaveLines(encode, nodes);
    var rs := LazyDictionary.Records(encode, nodes);
    var lines := Lines(LazyDictionary.Save(encode, nodes));
    assert lines[..|lines| - 1] == rs;
    assert RecordLines(LazyDictionary.Save(encode, nodes)) == rs;
    var r := DecodeAll(decode, rs);
    assert forall i :: 0 <= i < |rs| ==> decode(rs[i]) == Some(nodes[i]);
    assert r.Some?;
    assert r.value == nodes;
  }
}
