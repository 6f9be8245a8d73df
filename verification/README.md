# Aho-Corasick dictionary of translit, in Dafny

This project models the dictionary core of `translit`, a Go library that
transliterates Japanese text with compiled dictionaries. The model covers:

- **Builder** (`internal/dict/builder.go`). `NewDictionaryBuilder` and `AddWord`
  grow a trie in a node arena. `Build` gives every node a failure link in
  breadth-first order and appends the failure target's words to each
  node's output. `Save` writes one encoded node per line. `Load` splits
  its content on newlines and decodes every piece, which fails on what
  `Save` wrote (see Findings).
- **Lazy dictionary** (`internal/dict/dictionary.go`). `LoadFromBytes` keeps
  the compiled file as raw lines. `loadNode`, `getNode` and
  `unloadOldestNodes` decode a line only when the scan first needs its
  node, and keep the decoded nodes in a cache bounded by a first-in,
  first-out queue. `Search` runs the Aho-Corasick scan and stably sorts the
  matches by start position, longer words first. `MatchesResult.Replace`
  rewrites the text in one left-to-right pass, putting a word separator
  around each replacement where the neighbouring text lacks one.
- **Generator** (`generate.go`). Each line of a source dictionary becomes one or
  more (word, transliteration) pairs: the `cLetters` table expands a
  transliteration that ends in a lone romaji letter. The JMnedict entries
  add place names, and the whole dictionary is added to a builder and
  linked.

Strings are sequences of code points, which is Go's `[]rune` view. This
hides one thing: Go turns each invalid UTF-8 byte into U+FFFD when it
makes the `[]rune`, and `string(res)` writes U+FFFD back out, so
`Replace` over invalid UTF-8 does not give the input back byte for byte
even when nothing matches.

The JSON codec of a node is not modelled: `encode` and `decode` are
parameters, and the round-trip lemmas assume that decoding undoes encoding
and that a record contains no newline.

Proofs about the trie carry a ghost companion `paths`, giving the text
each node spells from the root. `Trie(nodes, paths)` is the shape
`AddWord` keeps. `Built(pre, post, paths)` is what `Build` makes of a
builder arena. `Linked(nodes, paths)` is what `Search` needs.

Three facts about the code shape the model:

- **Storage.** The compiled dictionary is one file, and the words sit
  inside each node's output.
- **Running `Build` twice.** A second run appends the inherited words
  again, so the model links a freshly built arena once.
- **`Load`.** It reports an error on everything `Save` wrote, after decoding every record (see Findings).

## Model

| member | source | states |
|---|---|---|
| Nodes.LookupSpells | internal/dict/builder.go:24-36 | following edges from the root finds a text exactly when some node spells it, and lands on that node |
| Nodes.WalkSpells | internal/dict/builder.go:24-36 | from any node, a walk along `s` succeeds exactly when the node's text followed by `s` is spelled by a node, and lands there |
| Nodes.PathsDetermined | internal/dict/builder.go:24-36 | the arena's edges fix the text every node spells |
| Builder.NewBuilder | internal/dict/builder.go:17-21 | a new builder is the root alone, with the -1 failure sentinel, and only the empty text can be looked up |
| Builder.AddChild | internal/dict/builder.go:26-34 | a missing edge appends one blank node as the new child; nothing else changes |
| Builder.Insert | internal/dict/builder.go:24-36 | the walk of `AddWord` grows the arena by at most one node per code point, keeps old edges, failure links and outputs, and ends on the node the word leads to |
| Builder.InsertExisting | internal/dict/builder.go:25-36 | walking a text that is already in the trie creates no node |
| Builder.AddWord | internal/dict/builder.go:23-43 | the word's node gains the pair at the end of its output unless the identical pair is already there; every other output, every old edge and failure link stays |
| Builder.AddWordIdempotent | internal/dict/builder.go:38-40 | adding an identical (word, transliteration) pair twice is the same as adding it once |
| Builder.AddWordSecondTranslit | internal/dict/builder.go:38-42 | the same word with another transliteration reaches the same node, adds no node, and is appended after the first entry |
| Builder.AddWordKeepsWords | internal/dict/builder.go:23-43 | words already in the trie keep their node and their entries, in order, when another word is added |
| Builder.AddChildTrie | internal/dict/builder.go:27-33 | appending a child keeps the arena a trie, and the new node spells its parent's text plus the edge's code point |
| Builder.InsertTrie | internal/dict/builder.go:24-36 | the walk keeps the arena a trie, old nodes keep their texts, and the node reached spells the start node's text plus the walked text |
| Builder.AddWordTrie | internal/dict/builder.go:23-43 | `AddWord` keeps the arena a trie in which every stored word spells its own node |
| Builder.AddWordSpelled | internal/dict/builder.go:38-42 | the new entry is stored at the node that spells its word, so stored words keep spelling their nodes |
| Automaton.FailShallower | internal/dict/builder.go:61-68 | a failure link points to a strictly shallower node, so the failure walk ends |
| Automaton.WalkStep | internal/dict/builder.go:62-68 | following a failure link from a node without an edge for `r` skips no longer candidate suffix |
| Automaton.WalkExit | internal/dict/builder.go:63-71 | the first node on the failure walk with an edge for `r` leads to the node spelling the longest suffix the trie holds |
| Automaton.NoCandidateEmpty | internal/dict/builder.go:72-74 | when the walk falls off the root, the longest suffix the trie holds is empty, so the link goes to the root |
| Automaton.OutputSound | internal/dict/builder.go:76 | after linking, every word in a node's output was added and ends the node's text |
| Automaton.OutputComplete | internal/dict/builder.go:76 | after linking, every added non-empty word that ends a node's text is in that node's output |
| Automaton.BuiltOutputs | internal/dict/builder.go:45-80 | the two properties above for every node at once |
| Automaton.BuiltUnique | internal/dict/builder.go:45-80 | two arenas built from the same builder arena are equal: the failure links and inherited outputs leave no choice, so the order `Build` visits children in does not matter |
| FailureLinks.FailTarget | internal/dict/builder.go:61-74 | the failure walk for the child along `r` returns the node spelling the longest proper suffix of the child's text that the trie holds |
| FailureLinks.LinkRootChildren | internal/dict/builder.go:47-52 | every child of the root gets the root as its failure link, keeps its output, and is queued, in any map order |
| FailureLinks.LinkChildren | internal/dict/builder.go:58-78 | each child of the dequeued node gets its failure target, appends that target's output, and is queued |
| FailureLinks.Build | internal/dict/builder.go:45-80 | whatever order the maps are walked in: same edges, root untouched, every other node linked to its longest proper suffix in the trie, outputs inherited along the links |
| MatchOrder.InsertSorted | internal/dict/dictionary.go:147-157 | inserting into a sorted sequence keeps it sorted, adds exactly one match, and puts the new match first among the matches that compare equal to it |
| MatchOrder.SortStable | internal/dict/dictionary.go:147-157 | the sort's result is ordered by position with longer words first, is a permutation, and keeps matches that compare equal in their original order |
| MatchOrder.SortedByClasses | internal/dict/dictionary.go:147-157 | two sorted sequences with the same matches, in the same order within each equal-key class, are identical |
| MatchOrder.StableSortUnique | internal/dict/dictionary.go:147-157 | every stable sort under this comparison gives the same result, so the model's sort is the one `Search` gets from `slices.SortStableFunc` |
| AhoCorasick.Emit | internal/dict/dictionary.go:140-144 | one match per output word, starting where the word must start to end at the current code point |
| AhoCorasick.EmitInOrder | internal/dict/dictionary.go:140-144 | the matches come in the order of the node's output: match `k` is output word `k`, placed to end at the current code point |
| AhoCorasick.GotoLongest | internal/dict/dictionary.go:127-138 | the transition on `r` lands on the node spelling the longest suffix, held by the trie, of the text read so far followed by `r` |
| AhoCorasick.ScanStep | internal/dict/dictionary.go:126-138 | after each code point the scan stands on the node spelling the longest suffix of the text read so far that the trie holds |
| AhoCorasick.MovesToState | internal/dict/dictionary.go:127-138 | from the node of the longest held suffix of `t`, the move on `r` is the scan state after `t + [r]` |
| AhoCorasick.ScanSound | internal/dict/dictionary.go:126-145 | every report of the scan is made at a code point the scan reads, from the node it stands on there |
| AhoCorasick.ScanComplete | internal/dict/dictionary.go:126-145 | everything reported at a code point the scan reads is among the scan's reports |
| AhoCorasick.Search | internal/dict/dictionary.go:121-163 | the result keeps the text, is sorted, and is a stable permutation of the scan's reports |
| AhoCorasick.ReportsSound | internal/dict/dictionary.go:126-145 | if outputs hold only added words that end their node's text, every reported match is an added word occurring at its position |
| AhoCorasick.ReportsComplete | internal/dict/dictionary.go:126-145 | if outputs hold every added non-empty word ending their node's text, every occurrence of such a word is reported |
| AhoCorasick.SearchSound | internal/dict/dictionary.go:121-163 | over a built arena, every reported match is an added word that occurs in the text at the match's position |
| AhoCorasick.SearchComplete | internal/dict/dictionary.go:121-163 | over a built arena, every occurrence of an added word with non-empty text is reported at its start |
| AhoCorasick.SearchExact | internal/dict/dictionary.go:121-163 | for non-empty words, a match is reported if and only if it is an occurrence of an added word |
| LazyDictionary.NewDictionary | internal/dict/dictionary.go:107-118 | a new dictionary has an empty, consistent cache with the given bound and no lines |
| LazyDictionary.LoadFromBytes | internal/dict/dictionary.go:233-237 | the lines are newline-free pieces that join back into the file; the cache is left as it was |
| LazyDictionary.UnloadOldest | internal/dict/dictionary.go:165-180 | once the queue passes a positive bound, exactly the oldest queued index leaves the cache and the queue; otherwise nothing changes |
| LazyDictionary.Enqueue | internal/dict/dictionary.go:190-193 | with a positive bound a missed index joins the back of the queue; a full queue first loses its oldest index, whose node leaves the cache, and a queue with room keeps the cache as it is; without a bound nothing changes |
| LazyDictionary.LoadNode | internal/dict/dictionary.go:182-222 | a hit returns the cached node unchanged. Otherwise, with a consistent cache, the node is what the line decodes to, or blank; it is cached exactly when the line decodes; the cache stays consistent and within its bound; only the oldest queued entry can be evicted |
| LazyDictionary.LoadNodeQueue | internal/dict/dictionary.go:182-193 | on a miss with a positive bound the index joins the back of the queue, behind the others minus the oldest when the queue was full; without a bound the queue is untouched |
| LazyDictionary.EnqueueKeeps | internal/dict/dictionary.go:165-193 | queueing a miss keeps the queue within the bound, queues the index, and only drops cached entries |
| LazyDictionary.CacheFits | internal/dict/dictionary.go:165-180 | a cache whose indices are all queued holds at most `cacheSize` nodes |
| LazyDictionary.Fetch | internal/dict/dictionary.go:182-214 | when the lines hold the arena, a load gives the arena's node and keeps the cache consistent |
| LazyDictionary.Advance | internal/dict/dictionary.go:127-138 | the lazy fail-walk and edge step reach the same node as the automaton's transition, for any consistent cache (`CacheOk`: every cached node is what its line decodes to, and with a bound every cached index is queued) |
| LazyDictionary.Search | internal/dict/dictionary.go:121-163 | the lazy search returns exactly the search over the decoded arena, for any cache bound and any consistent cache (`CacheOk`) |
| LazyDictionary.SaveIsJoin | internal/dict/builder.go:95-106 | saved content is the node records joined by newlines, plus an empty piece after the last newline |
| LazyDictionary.SaveLines | internal/dict/builder.go:95-106 | splitting saved content on newlines gives node `i`'s record as line `i`, then one empty line |
| LazyDictionary.LoadSaved | internal/dict/dictionary.go:233-237 | a dictionary loaded from saved content has line `i` decoding to node `i`, and one extra empty line |
| Text.JoinSplit | internal/dict/dictionary.go:234 | splitting on the separator and joining again gives back the input |
| Text.SplitJoin | internal/dict/dictionary.go:234 | splitting separator-free fields joined by the separator gives back the fields |
| Text.SplitMany | generate.go:103-106 | a split gives at least two fields exactly when the separator occurs |
| Replacement.Take | internal/dict/dictionary.go:61-92 | one match never moves the pass backwards and never changes the text already produced |
| Replacement.Replace | internal/dict/dictionary.go:53-97 | the buffer-and-shift pass computes the reference rewrite over the original text; with no matches it returns the text |
| Replacement.Step | internal/dict/dictionary.go:61-93 | one loop iteration is the reference step, and the buffer stays the rewritten prefix followed by the rest of the original |
| Replacement.Apply | internal/dict/dictionary.go:73-93 | rebuilding the buffer around an applicable match gives the applied prefix, updates `shift` by the separators and the length change, and moves `nextPos` past the word |
| Replacement.BufferCheck | internal/dict/dictionary.go:68-71 | the buffer holds the word at `position + shift` exactly when the original holds it at `position` |
| Replacement.DropStale | internal/dict/dictionary.go:62-64 | a match that starts before `nextPos` can be removed without changing the result |
| Replacement.OverlapIgnored | internal/dict/dictionary.go:62-64 | once a match is applied, a later match starting inside its word can be removed without changing the result, so the longer match at a position wins |
| Replacement.OutputGrows | internal/dict/dictionary.go:61-94 | the pass only appends to what it has produced |
| Replacement.StartsWithFirst | internal/dict/dictionary.go:73-89 | when the first match applies at position 0, the result starts with its transliteration, followed by a separator exactly when the rest of the text is non-empty and lacks one: no leading separator for a non-empty transliteration, a leading separator for an empty one |
| Replacement.SeparatorBefore | internal/dict/dictionary.go:75-82 | before a replacement the separator is added exactly when the rewritten text so far is non-empty and does not already end with it, so it is never doubled |
| Replacement.SeparatorAfter | internal/dict/dictionary.go:82-92 | after a replacement the separator is added exactly when the rest of the original is non-empty and does not already start with it; the pass resumes right after the word |
| Replacement.NoTrailingSeparator | internal/dict/dictionary.go:73-94 | when an applied match ends at the end of the text and every later match is a non-empty word, the result ends with a separator exactly when the text before the match is non-empty and lacks one, then the transliteration: no trailing separator for a non-empty transliteration, a trailing one for an empty one |
| Replacement.EmptySepSubstitutes | internal/dict/dictionary.go:77-87 | with an empty separator the pass is plain substitution |
| Replacement.SearchFeedsReplace | internal/dict/dictionary.go:68-71 | every match `Search` reports over a built arena ends inside the text and passes the re-check |
| Replacement.SeparatorExample | internal/dict/dictionary.go:53-97 | "日本国民は" with 日本→nihon, 国民→kokumin and separator " " becomes "nihon kokumin は" |
| Replacement.EmptyReplacementExample | internal/dict/dictionary.go:73-91 | "がっこう" with が→ga, っ→"" and an empty separator becomes "gaこう" |
| Replacement.OverlapExample | internal/dict/dictionary.go:61-64 | "あい" with あい→X and あ→Y, both at 0 and sorted longer first, gives "X": the longer word applies and the shorter one is passed over |
| Replacement.LeadingSeparatorExample | internal/dict/dictionary.go:73-89 | "っこ" with っ→"" and separator " " gives " こ": an empty transliteration at the start leaves the separator first |
| Replacement.TrailingSeparatorExample | internal/dict/dictionary.go:73-89 | "こっ" with っ→"" at 1 and separator " " gives "こ ": an empty transliteration at the end leaves the separator last |
| Replacement.EmptyWordSeparatorExample | internal/dict/dictionary.go:61-92 | "あ" with あ→"a" at 0 and an empty word at 1 gives "a ": an empty word matched at the end adds a separator after the replacement before it |
| Generate.CLettersKeys | generate.go:27-51 | every key of the expansion table is a lower-case ASCII letter |
| Generate.CLettersEntries | generate.go:27-51 | every entry of the table is a non-empty list of single kana |
| Generate.LastByte | generate.go:114 | the last UTF-8 byte of an ASCII code point is itself; that of any other code point is a continuation byte |
| Generate.LettersFor | generate.go:111-115 | looking the table up by the last byte gives the entry for the last code point |
| Generate.ExpandPair | generate.go:108-123 | an expanding pair gives entry `i` as the word followed by kana `i` of its letter's list and the transliteration with its letter replaced by that kana, in the list's order; otherwise the pair itself alone. Expanding an empty transliteration fails |
| Generate.ExpandLine | generate.go:97-123 | comment lines and lines without a space add nothing; a line starting with a space fails when expanding; otherwise the first two fields expand as `ExpandPair` |
| Generate.ExpandedEntry | generate.go:122 | an expanded entry reads back as word plus kana and transliteration minus the letter plus kana |
| Generate.ExpandPairComplete | generate.go:121-123 | every kana of the letter's list gives an entry: expansion loses nothing |
| Generate.ExpandLines | generate.go:97-124 | a file fails exactly when one of its lines fails; otherwise its pairs are exactly those of its lines; no lines give no pairs and one line gives that line's pairs |
| Generate.ExpandLinesAppend | generate.go:97-124 | the pairs of two runs of lines are those of the first followed by those of the second, and reading fails when either run fails: line order is kept |
| Generate.PlaceWords | generate.go:140-146 | exactly the entries with kanji and name type "(place)" give a (kanji, kana) pair; a single entry gives its pair or nothing |
| Generate.PlaceWordsAppend | generate.go:140-146 | the place words of two runs of entries are those of the first followed by those of the second: entry order is kept |
| Generate.DictWords | generate.go:86-147 | a dictionary fails exactly when its source lines do; its pairs are those of its source lines, in line order, followed by its place names in entry order |
| Generate.AddAllKeeps | generate.go:97-147 | a text already in the builder stays at its node and keeps its entries, whatever is added afterwards |
| Generate.AddAllStores | generate.go:97-147 | every added pair can be looked up afterwards |
| Generate.AddAllOnly | generate.go:97-147 | every stored entry was added or was there before |
| Generate.CompiledStores | generate.go:97-147 | starting from a new builder, a pair is stored exactly when it was added |
| Generate.AddAllTrie | generate.go:97-147 | the builder stays a trie whose entries spell their nodes |
| Generate.BuildWords | generate.go:149 | linking the builder gives the built automaton over a builder that stores exactly the added pairs |
| Generate.Compile | generate.go:86-150 | one dictionary fails exactly when a line fails; otherwise it is the built automaton over exactly its pairs |
| BuilderFile.DecodeAll | internal/dict/builder.go:121-130 | decoding succeeds exactly when every line decodes, and gives one node per line |
| BuilderFile.Lines | internal/dict/builder.go:117 | the lines of a file join back into it |
| BuilderFile.DecodePrefix | internal/dict/builder.go:119-130 | decoding stops at the first line that does not decode and keeps every node decoded before it, in line order; it reports success exactly when every line decodes |
| BuilderFile.LoadInto | internal/dict/builder.go:111-133 | the arena `Load` leaves in the builder holds the nodes of the lines before the first failing one, and the call reports an error exactly when some line does not decode |
| BuilderFile.Load | internal/dict/builder.go:111-133 | loading succeeds exactly when every newline-separated line decodes, and then gives the arena it leaves in the builder |
| BuilderFile.SaveEndsWithNewline | internal/dict/builder.go:95-106 | saved content is empty or ends with a newline |
| BuilderFile.LoadOfSavedFails | internal/dict/builder.go:111-133 | as written, `Load` reports an error on everything `Save` writes |
| BuilderFile.LoadFailsOnFinalNewline | internal/dict/builder.go:117-127 | a file that is empty or ends with a newline makes `Load` fail when an empty line does not decode |
| BuilderFile.LoadOfSavedLeavesArena | internal/dict/builder.go:111-133 | on what `Save` wrote, `Load` decodes every record into the builder, leaving exactly the saved arena, and then reports an error on the empty last piece |
| BuilderFile.RecordLines | internal/dict/builder.go:117 | the records are the lines minus the empty piece after a final newline |
| BuilderFile.LoadSkippingLast | internal/dict/builder.go:111-133 | the corrected `Load` succeeds exactly when every record decodes, one node per record |
| BuilderFile.LoadSkippingLastRoundTrip | internal/dict/builder.go:111-133 | the corrected `Load` reads back exactly the arena `Save` wrote |

## Left out

- The JSON codec of nodes and words (`MarshalJSON`, `UnmarshalJSON`, `encoding/json`): foreign library code, modelled as the `encode`/`decode` parameters.
- File I/O (`os.OpenFile`, `os.ReadFile`, `Dictionary.Load`, the generator's `bufio.Scanner`) and the errors it can raise: the model starts from the bytes or lines read.
- The `sync.RWMutex` locking in `loadNode` and `getNode`: concurrency is not modelled, and a `getNode` hit is the cached branch of `LoadNode`.
- The JMnedict XML parser, `translit.go` and the embedded assets: outside the dictionary core; an `Entry` keeps only the fields the place filter reads.
- The list of dictionaries and their file paths in `compileDicts`: `Generate.Compile` takes one dictionary's lines, expansion flag and optional place entries as parameters.
- Replacement.Replace: requires that every match at a non-negative position ends inside the text. The Go code slices the buffer there without a bounds check, so such a match reads past the text's end (a panic past the capacity, stale runes before it); every result of `Search` meets it (`Replacement.SearchFeedsReplace`).
- Replacement.StartsWithFirst: "no leading separator" holds only for a non-empty transliteration. With an empty one, the Go code puts the separator first, as `Replacement.LeadingSeparatorExample` shows.
- Replacement.NoTrailingSeparator: requires every later match to be a non-empty word. A later empty word matched at the end adds a separator after the replacement, as `Replacement.EmptyWordSeparatorExample` shows. An empty word can enter the dictionary from a source line that ends in a space (`Generate.ExpandLine`). With an empty transliteration the result ends with the separator, as `Replacement.TrailingSeparatorExample` shows.
- LazyDictionary.LoadNode: requires a non-negative index. A negative index makes `loadNode` index its line slice out of range. The scan produces one only after a line it reaches fails to decode, or lies past the last line: `loadNode` then returns a blank node with failure link -1, and the next failure walk asks for node -1, which panics in Go. `LazyDictionary.Advance` and `LazyDictionary.Search` exclude such a dictionary by requiring that the lines decode, one by one, to a linked arena (`Holds` together with `Linked`).
- LazyDictionary.LoadFromBytes: reloading keeps the old cache, as `LoadFromBytes` does; nothing is proved about a dictionary reloaded with different content. A stale cache breaks `CacheOk`, and a cache hit then returns a node the new lines do not hold. `translit.go` loads each dictionary once, right after `NewDictionary`, so every search starts from a consistent cache.
- LazyDictionary.UnloadOldest: eviction is first-in, first-out by load order, as in `unloadOldestNodes`, not least-recently-used; a hit does not move the index in the queue.
- LazyDictionary.LoadNode: a miss is queued before the line is checked, as in `loadNode`, so an index that does not decode can evict a good node; the model keeps this.
- AhoCorasick.SearchComplete: stated for words with non-empty text only. The root's children do not inherit the root's output, so an added empty word is reported at some positions and not others.
- FailureLinks.Build: modelled for one run over a builder arena. A second run appends inherited outputs again; this is not modelled.
- Generate.LastByte: the generator looks the table up by the last byte of the transliteration, not its last code point. This only differs from a code-point lookup for non-ASCII code points, and the table's keys are all ASCII.
- Go's randomised map iteration order in `Build` is a nondeterministic choice of the next key. Every order yields an arena satisfying `Built` (`FailureLinks.Build`), and `Built` fixes the arena (`Automaton.BuiltUnique`), so every order yields the same automaton.
- Generate.Compile: the save that follows `Build` in the generator is `LazyDictionary.Save`, whose read-back is `LazyDictionary.LoadSaved`; the two are not chained into one member.

## Findings

| source | as written | input that shows it | evidently intended | confidence | as-written member | corrected member |
|---|---|---|---|---|---|---|
| internal/dict/builder.go:111-133 | `Load` splits the file on every newline and decodes each piece; `Save` ends every record with a newline, so the last piece is empty and does not decode | the file `Save` writes for the new builder `[BlankNode]`: its record, a newline, then an empty piece that fails to decode, after the record has been decoded into the builder | skip the empty piece after the final newline, so `Load` reads back what `Save` wrote | not executed | BuilderFile.LoadOfSavedFails | BuilderFile.LoadSkippingLastRoundTrip |
