# goban ban-list analyzer, modelled in Dafny

goban is a Go static-analysis pass. It reports every use of a forbidden import path, function or type. The forbidden symbols come from a newline-delimited config file (`.goban.cfg`). Each line has the form `SYMBOL[ # COMMENT]`. The file is read once per process into a map from symbol to message. For each compilation unit, the pass walks the imports, calls and selector expressions in preorder. It reports every node whose symbol is in the map.

The model has three parts, all in `goban/goban.go`.

- **Config parser** (`loadTrie`): `Config` in `config.dfy`. It uses Go's `strings` helpers, which are modelled in `GoStrings` (`gostrings.dfy`).
  - The file contents are read with the `bufio.ReadString('\n')` loop.
  - Each line is cut at its first `#`.
  - The key and the comment are trimmed with the cutset `" \n\t\r"`.
  - `" - " + comment` is stored under the key. It is stored again under the key with one trailing `"()"` removed.
  - The parser is given both as functions (`ParseLine`, `Fold`, `Load`) and as the Go read loop itself (the method `LoadTrie`). The method is proved to compute the functions.
- **Pattern store** (`getBannedPtsMap`): `PatternStore` in `store.dfy`. It is a one-shot cache with three phases: uninitialised, ready, and aborted (the `log.Fatal` outcome). It also keeps a count of how many times the file has been read.
- **Visitor** (the closure built by `run`): `Visitor` in `visitor.dfy`. A node is one of:
  - `Import(pathLiteral)`;
  - `Call(callee)`, where `callee` is `None` when the type checker resolves no `*types.Func`;
  - `Selector(typeString)`.

  A diagnostic's position is the node's index in the preorder sequence. `Analyze` runs the pass over several compilation units in one process.

`Goban` in `goban.dfy` states end-to-end facts: from config text, through the cache, to the diagnostics produced. `Wrappers` holds `Option` and `Result`.

A few behaviours of the code are easy to misread; the model keeps each as written:

- The message is `" - " + comment` even when there is no comment. A comment-less entry therefore reports `... is banned - `; one might expect the separator to be omitted when there is no comment, but line 121 always prepends it.
- Trimming uses exactly the cutset `" \n\t\r"`, not Unicode white space.
- A final segment with no `'\n'` after it is never parsed. `ReadString` returns it together with `io.EOF`, and the loop returns at once. So the last ban in a file without a trailing newline is silently ignored.
- The only load error is a file that cannot be opened. Nothing checks UTF-8. A path that opens but cannot be read (a directory, say) is not an error either: see the read-error line under "Left out".
- Only the `package` diagnostic puts quotes around the symbol. `func` and `type` diagnostics print the name bare.
- A line whose key is exactly `()` also registers the empty string as a key. This follows from how `TrimSuffix` is used.

## Model

| member | source | states |
|---|---|---|
| GoStrings.Index | goban/goban.go:109 | The result is -1 exactly when the character is absent. Otherwise it is a position holding the character, with no earlier occurrence. |
| GoStrings.FirstField | goban/goban.go:116 | `strings.Split(s, "#")[0]` is a prefix of `s` with no `#`. It ends just before the first `#` when there is one, and is all of `s` when there is none. |
| GoStrings.Trim | goban/goban.go:112 | `strings.Trim` with a cutset gives an empty result exactly when every character is in the cutset. A non-empty result starts and ends outside the cutset. |
| GoStrings.TrimLeft | goban/goban.go:112 | The result is a suffix of the input. The dropped prefix consists of cutset characters only. A non-empty result starts outside the cutset. |
| GoStrings.TrimRight | goban/goban.go:117 | The result is a prefix of the input. The dropped suffix consists of cutset characters only. A non-empty result ends outside the cutset. |
| GoStrings.TrimPadded | goban/goban.go:112-117 | Take a core that starts and ends outside the cutset, padded on both sides with cutset characters. Trimming gives back exactly that core, so the result of trimming is determined uniquely. |
| GoStrings.TrimIdempotent | goban/goban.go:117 | Trimming a trimmed key again changes nothing. |
| GoStrings.TrimKeepsOut | goban/goban.go:113-117 | Trimming never introduces a character, so a key cut before the first `#` holds no `#`. |
| GoStrings.TrimSuffix | goban/goban.go:123 | If the suffix is present, result + suffix is the input. Otherwise the input is returned unchanged. |
| GoStrings.TrimSuffixOfAppend | goban/goban.go:123 | Removing a `"()"` that was appended gives back the original name. |
| Config.ReadString | goban/goban.go:103-105 | One `ReadString('\n')` returns either a prefix of the unread input that ends in its only `'\n'`, or all of the remaining input, `'\n'`-free, together with EOF. |
| Config.ReadLines | goban/goban.go:102-106 | Every line the loop processes ends in its one and only `'\n'`. |
| Config.ReadLinesCover | goban/goban.go:102-106 | The processed lines, joined, form a prefix of the file. What is left after them holds no `'\n'`. |
| Config.ReadLinesOfConcat | goban/goban.go:102-106 | Splitting inverts joining. Take `'\n'`-terminated lines followed by a tail with no `'\n'`. Reading them back gives exactly those lines. |
| Config.TrailingSegmentIgnored | goban/goban.go:103-105 | Appending text with no `'\n'` to a file leaves the lines read unchanged. |
| Config.LoadIgnoresTrailingSegment | goban/goban.go:103-105 | Appending text with no `'\n'` to a file leaves the loaded map unchanged. |
| Config.ParseLine | goban/goban.go:108-121 | An entry's key is non-empty and has no `#`. Its first and last characters are outside `" \n\t\r"`. Its message starts with `" - "`. |
| Config.CommentPart | goban/goban.go:109-111 | The comment text is empty when the line has no `#`. Otherwise it is a proper suffix of the line (the part after the first `#`, as `LineSplitsAtFirstHash` fixes). |
| Config.SymbolPart | goban/goban.go:109-116 | The key text before trimming has no `#` and is a prefix of the line. |
| Config.LineSplitsAtFirstHash | goban/goban.go:109-116 | A line with a `#` is exactly key text + `#` + comment text. A line without one is all key text with an empty comment. |
| Config.ParseCommented | goban/goban.go:108-122 | For `before # after` where `before` has no `#`: the key is `before` trimmed and the message is `" - "` + `after` trimmed. Any later `#` belongs to the comment. There is no entry when the key trims to empty. |
| Config.ParseUncommented | goban/goban.go:108-122 | A line with no `#` stores its trimmed text with the message exactly `" - "`, or stores nothing if it trims to empty. |
| Config.BlankLineSkipped | goban/goban.go:116-120 | Blank lines and pure-comment lines yield no entry. |
| Config.Insert | goban/goban.go:121-124 | After storing an entry, the map's keys are the old keys plus the key and the key less one `"()"`. Both map to the message. Every other key keeps its value. |
| Config.InsertWithoutCallSuffix | goban/goban.go:122-124 | Without a trailing `"()"` the second assignment is redundant. The map is as if written once. |
| Config.InsertWithCallSuffix | goban/goban.go:122-124 | Storing `name()` maps both `name()` and `name` to the same message. |
| Config.Apply | goban/goban.go:118-124 | A skipped line leaves the map as it was. A parsed line adds exactly its target keys with its message and keeps all other values. |
| Config.MapSeq | goban/goban.go:102-106 | Each line is parsed on its own: element `i` of the result is the parse of line `i`, and there are as many results as lines. |
| Config.MapSeqAppend | goban/goban.go:102-125 | Parsing lines one by one commutes with joining line sequences. |
| Config.FoldAppend | goban/goban.go:102-125 | Loading the lines of two consecutive parts is loading the first part, then the second. |
| Config.FoldUntouched | goban/goban.go:122-124 | A key that no line writes keeps its earlier value, or stays absent. |
| Config.Fold | goban/goban.go:102-125 | The assignment loop only ever adds keys, and a run of skipped lines leaves the map unchanged. |
| Config.LastWriterWins | goban/goban.go:122-124 | Over a sequence of parsed lines, duplicate keys resolve to the message of the latest entry that writes them. |
| Config.LatestLineWins | goban/goban.go:102-124 | In a config file, a key written by several lines maps to the message of the latest of those lines. |
| Config.FoldKeys | goban/goban.go:118-124 | After a sequence of parsed lines, a key is present exactly when it was present before or some entry writes it. |
| Config.LoadKeys | goban/goban.go:102-124 | A key is in a file's patterns exactly when some complete line of the file writes it. |
| Config.Load | goban/goban.go:95-125 | The map `loadTrie` builds from a file's contents has no key containing `#`, and every message in it starts with `" - "`. `LatestLineWins` and `LoadKeys` pin down its contents. |
| Config.FoldWellStored | goban/goban.go:118-124 | Storing entries whose keys have no `#` and whose messages start with `" - "` keeps the whole map that way, including the keys shortened by `TrimSuffix`. |
| Config.SkippedLineIsNoOp | goban/goban.go:118-120 | Inserting a line that yields no entry anywhere in the file does not change the loaded map. |
| Config.LoadSingleLine | goban/goban.go:102-124 | A file of one complete line holds exactly that line's entry. |
| Config.LoadFile | goban/goban.go:94-99 | Loading fails exactly when the file cannot be opened. The error names the path. |
| Config.LoadTrie | goban/goban.go:94-126 | The Go read loop (read, stop at EOF, parse, assign twice) computes exactly the functional loader. |
| PatternStore.Get | goban/goban.go:39-50 | A ready cache answers with its map and ignores the path and the file system. An aborted cache stays aborted. A fresh cache reads the file once and becomes ready exactly when the load succeeds. One load at most is ever counted. |
| PatternStore.Serve | goban/goban.go:39-50 | A series of calls gives one answer per call and keeps the load count consistent with the phase. |
| PatternStore.SettledStoreIsConstant | goban/goban.go:42-49 | Once loaded (or aborted), the cache never reloads and never changes. Every later call gets the same answer. |
| PatternStore.LoadsOnce | goban/goban.go:39-50 | From a fresh process, any number of calls with any paths read the file exactly once. Every call observes the first call's outcome. |
| Visitor.Render | goban/goban.go:69-86 | Every diagnostic text ends in ` is banned` followed by the stored message verbatim. `RenderDeterminesCategory` shows the three prefixes never coincide. |
| Visitor.Report | goban/goban.go:63-87 | A node yields a diagnostic exactly when its symbol is banned. An unresolved call never does. The text is `package '<path>' is banned<msg>`, `func <name> is banned<msg>` or `type <t> is banned<msg>`, with the stored message appended verbatim. |
| Visitor.RenderDeterminesCategory | goban/goban.go:69-86 | The three formats never coincide, so a message's category can be read back from its text. |
| Visitor.Visit | goban/goban.go:62-88 | There is at most one diagnostic per node. Each one is the report of the node at its position. Positions strictly increase, so diagnostics come in preorder. |
| Visitor.VisitReportsExactlyBanned | goban/goban.go:62-88 | The reported positions are exactly the positions of banned nodes. |
| Visitor.IncreasingPositionsCount | goban/goban.go:62-88 | Diagnostics with strictly increasing positions all have distinct positions. |
| Visitor.VisitCount | goban/goban.go:62-88 | There is no deduplication: the number of diagnostics equals the number of banned nodes. |
| Visitor.RunPass | goban/goban.go:53-89 | A pass terminates with the load error exactly when the cache answers with one. Otherwise it reports the visit of its nodes: against the cached map when the cache is ready, and against the map just loaded from the file on the first pass. |
| Visitor.FirstPassLoads | goban/goban.go:42-54 | The first pass of a fresh process whose config opens loads the file once, becomes ready with its patterns, and visits its nodes against them. |
| Visitor.Analyze | goban/goban.go:52-91 | A process that completes yields one diagnostic list per compilation unit. |
| Visitor.AnalyzeFromInitial | goban/goban.go:39-54 | An unopenable config fails the whole run before any diagnostic. Otherwise every unit is matched against the one map loaded from the file. |
| Visitor.AnalyzeReady | goban/goban.go:49-54 | Once the map is loaded, every later unit is matched against it. |
| Goban.ConfigLineParses | goban/goban.go:108-121 | The line `SYMBOL # COMMENT` parses to the entry (`SYMBOL`, `" - COMMENT"`). |
| Goban.ConfigLineRegisters | goban/goban.go:102-124 | A config of one line `SYMBOL # COMMENT` maps `SYMBOL`, and `SYMBOL` less one `"()"`, to `" - COMMENT"`, and nothing else. |
| Goban.BannedCallReported | goban/goban.go:70-79 | With that config, a call of the symbol, or of the symbol without its `"()"`, yields exactly one diagnostic: `func <callee> is banned - <comment>`. |
| Goban.PrintlnExample | goban/goban.go:70-79 | Banning `fmt.Println # use logger instead` reports a call to it as `func fmt.Println is banned - use logger instead`. |
| Goban.NoDeduplication | goban/goban.go:62-88 | Two call sites of one banned function give two diagnostics. |
| Goban.MissingConfigIsFatal | goban/goban.go:43-46 | A missing config ends the run with an error, whatever the units contain. |

## Left out

- The `Analyzer` constructor and its `-cfg` flag (goban/goban.go:21-32). This is host-framework wiring with no logic. The config path is a plain parameter.
- `os.Open` and `bufio` I/O. The file system is a map from path to contents. A path not in the map is a file that cannot be opened.
- Read errors other than `io.EOF` inside the loop. The source treats such a line like a normal one, and the error is not meaningfully specified. One consequence is not modelled: `os.Open` accepts a directory, every read of it then fails with a non-EOF error and an empty line, the loop at goban/goban.go:102-119 skips that blank line and reads again, so a config path naming a directory hangs the pass instead of aborting it.
- `log.Fatal` as a process exit. It becomes the absorbing `Aborted` phase and the `Terminated` pass outcome. `loadTrie` has already set `bannedPatterns` to an empty map before the open fails. That state is never observed, because the process exits.
- `sync.Mutex` and concurrent first access. The model is the sequential one-shot cache. Concurrency itself is not modelled.
- `inspector.Preorder`, `typeutil.Callee`, `TypesInfo.TypeOf`, `types.Type.String()` and `types.Func.FullName()`. These are type-checker calls. Their results are given on the node datatype, already in preorder. A nil type at a selector, which would make the source panic, is not represented.
- `pass.Reportf` and source positions. A diagnostic carries the node's preorder index instead of a `token.Pos`.
- Byte versus character indexing. Strings are sequences of characters. Every separator and cut character is ASCII, so the model cuts at the same places as Go's byte indices.
