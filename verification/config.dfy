/**
 The ban-list parser (`loadTrie` in goban/goban.go). The config file is a
 sequence of '\n'-terminated lines `SYMBOL[ # COMMENT]`; each non-blank line
 maps its symbol, and the symbol with one trailing "()" removed, to
 " - " followed by the comment.
 */
module Config {
  import opened Wrappers
  import opened GoStrings

  /** The exact cutset handed to `strings.Trim` for both symbol and comment. */
  const Cutset: string := " \n\t\r"

  /** Prepended to every stored comment, even an empty one. */
  const Separator: string := " - "

  /** The call-suffix whose removal registers a second key. */
  const CallSuffix: string := "()"

  /** Symbol name -> text appended to a diagnostic. */
  type Patterns = map<string, string>

  /** What one config line contributes: a symbol and its stored message. */
  datatype Entry = Entry(key: string, message: string)

  /** Path -> file contents; a path absent from the map cannot be opened. */
  type FileSystem = map<string, string>

  /** The only error `loadTrie` reports: the file could not be opened. */
  datatype LoadError = OpenFailed(path: string)

  // ---------------------------------------------------------------------
  // Reading lines: bufio.Reader.ReadString('\n')
  // ---------------------------------------------------------------------

  /** A line as `ReadString('\n')` hands it over without error: it ends in
      its one and only '\n'. */
  predicate CompleteLine(line: string) {
    |line| > 0 && line[|line| - 1] == '\n' && '\n' !in line[..|line| - 1]
  }

  /** One call of `ReadString('\n')` on the unread input: either a full line
      including its '\n', or, when no '\n' is left, the partial data together
      with `io.EOF`. */
  datatype ReadOutcome = Line(text: string) | Eof(partial: string)

  function ReadString(rest: string): (r: ReadOutcome)
    ensures r.Line? ==> CompleteLine(r.text) && r.text <= rest
    ensures r.Eof? ==> r.partial == rest && '\n' !in rest
  {
    var i := Index(rest, '\n');
    if i == -1 then Eof(rest)
    else
      assert rest[..i + 1][..i] == rest[..i];
      Line(rest[..i + 1])
  }

  /** The lines the read loop processes, in file order: it stops at the first
      `io.EOF`, so a final segment without '\n' is never seen. */
  function ReadLines(text: string): (r: seq<string>)
    ensures forall i :: 0 <= i < |r| ==> CompleteLine(r[i])
    decreases |text|
  {
    match ReadString(text)
    case Eof(_) => []
    case Line(line) => [line] + ReadLines(text[|line|..])
  }

  /** The lines written back to back. */
  function Concat(lines: seq<string>): string {
    if lines == [] then [] else lines[0] + Concat(lines[1..])
  }

  /** Joining a line in front of more lines. */
  lemma ConcatCons(line: string, lines: seq<string>)
    ensures Concat([line] + lines) == line + Concat(lines)
  {
    assert ([line] + lines)[1..] == lines;
  }

  /** Putting the same text in front keeps a prefix a prefix, and keeps what follows it. */
  lemma PrefixExtend(a: string, b: string, s: string)
    requires b <= s
    ensures a + b <= a + s
    ensures (a + s)[|a + b|..] == s[|b|..]
  {
    assert (a + s)[..|a + b|] == a + s[..|b|];
  }

  lemma PrefixSplit(p: string, s: string)
    requires p <= s
    ensures s == p + s[|p|..]
  {
    assert s[..|p|] == p;
    assert s == s[..|p|] + s[|p|..];
  }

  /** A full line read from the front of the input is followed by the lines of the rest. */
  lemma ReadLinesStep(text: string, line: string)
    requires ReadString(text) == Line(line)
    ensures text == line + text[|line|..]
    ensures ReadLines(text) == [line] + ReadLines(text[|line|..])
  {
  }

  /** The lines read cover a prefix of the file, and what is left over holds no '\n'. */
  lemma {:induction false} ReadLinesCover(text: string)
    ensures Concat(ReadLines(text)) <= text
    ensures '\n' !in text[|Concat(ReadLines(text))|..]
    decreases |text|
  {
    match ReadString(text)
    case Eof(_) =>
      assert text[|Concat(ReadLines(text))|..] == text;
    case Line(line) =>
      var rest := text[|line|..];
      ReadLinesStep(text, line);
      ReadLinesCover(rest);
      ConcatCons(line, ReadLines(rest));
      PrefixExtend(line, Concat(ReadLines(rest)), rest);
  }

  /** Splitting is the inverse of joining: the lines of `Concat(lines) + tail`
      are `lines` whenever every line is terminated and `tail` holds no '\n'. */
  lemma {:induction false} ReadLinesOfConcat(lines: seq<string>, tail: string)
    requires forall i :: 0 <= i < |lines| ==> CompleteLine(lines[i])
    requires '\n' !in tail
    ensures ReadLines(Concat(lines) + tail) == lines
    decreases |lines|
  {
    var text := Concat(lines) + tail;
    if lines == [] {
      assert text == tail;
    } else {
      var line := lines[0];
      var rest := Concat(lines[1..]) + tail;
      assert text == line + rest;
      IndexIsFirst(text, '\n', |line| - 1);
      assert text[..|line|] == line;
      assert ReadString(text) == Line(line);
      assert text[|line|..] == rest;
      ReadLinesOfConcat(lines[1..], tail);
    }
  }

  /** A final segment without '\n' contributes no line, however long it is. */
  lemma TrailingSegmentIgnored(text: string, extra: string)
    requires '\n' !in extra
    ensures ReadLines(text + extra) == ReadLines(text)
  {
    var lines := ReadLines(text);
    var tail := LinesAndTail(text);
    ReadLinesOfConcat(lines, tail);
    assert text + extra == Concat(lines) + (tail + extra);
    ReadLinesOfConcat(lines, tail + extra);
  }

  /** The file is its lines followed by a tail without '\n'. */
  lemma LinesAndTail(text: string) returns (tail: string)
    ensures text == Concat(ReadLines(text)) + tail
    ensures '\n' !in tail
  {
    ReadLinesCover(text);
    var c := Concat(ReadLines(text));
    tail := text[|c|..];
    PrefixSplit(c, text);
  }

  // ---------------------------------------------------------------------
  // One line
  // ---------------------------------------------------------------------

  /** The text before the first '#' (all of it when there is none): the
      source cuts at the first '#' and then keeps the first field of a split
      on '#', which leaves the cut text as it is. */
  function SymbolPart(line: string): (r: string)
    ensures '#' !in r
    ensures r <= line
  {
    var hash := Index(line, '#');
    FirstField(if hash > -1 then line[..hash] else line, '#')
  }

  /** The text after the first '#', or nothing when there is none. */
  function CommentPart(line: string): (r: string)
    ensures '#' !in line ==> r == []
    ensures '#' in line ==> |r| < |line| && r == line[|line| - |r|..]
  {
    var hash := Index(line, '#');
    if hash > -1 then line[hash + 1..] else ""
  }

  /** A line cut at its first '#': the trimmed text before it is the key, the
      trimmed text after it the comment. A line whose key trims to nothing
      yields no entry. */
  function ParseLine(line: string): (r: Option<Entry>)
    ensures r.Some? ==> Separator <= r.value.message
    ensures r.Some? ==> r.value.key != [] && '#' !in r.value.key
    ensures r.Some? ==> r.value.key[0] !in Cutset && r.value.key[|r.value.key| - 1] !in Cutset
  {
    var key := Trim(SymbolPart(line), Cutset);
    TrimKeepsOut(SymbolPart(line), Cutset, '#');
    if key == "" then None else Some(Entry(key, Separator + Trim(CommentPart(line), Cutset)))
  }

  lemma SplitAtFirstHash(before: string, after: string)
    requires '#' !in before
    ensures SymbolPart(before + "#" + after) == before
    ensures CommentPart(before + "#" + after) == after
  {
    var line := before + "#" + after;
    IndexIsFirst(line, '#', |before|);
    assert line[..|before|] == before;
    assert line[|before| + 1..] == after;
  }

  /** Cutting at the first '#' loses nothing but that '#'. */
  lemma LineSplitsAtFirstHash(line: string)
    ensures '#' in line ==> line == SymbolPart(line) + "#" + CommentPart(line)
    ensures '#' !in line ==> SymbolPart(line) == line && CommentPart(line) == []
  {
    var hash := Index(line, '#');
    if hash > -1 {
      assert line[..hash] + "#" + line[hash + 1..] == line;
    }
  }

  /** A line with a '#': key and comment are the trimmed text on either side
      of the first '#', and later '#'s belong to the comment. */
  lemma ParseCommented(before: string, after: string)
    requires '#' !in before
    ensures var key := Trim(before, Cutset);
      ParseLine(before + "#" + after)
      == if key == [] then None else Some(Entry(key, Separator + Trim(after, Cutset)))
  {
    SplitAtFirstHash(before, after);
  }

  /** A line with no '#': the whole trimmed line is the key and the message is
      the bare separator. */
  lemma ParseUncommented(line: string)
    requires '#' !in line
    ensures var key := Trim(line, Cutset);
      ParseLine(line) == if key == [] then None else Some(Entry(key, Separator))
  {
    assert SymbolPart(line) == line;
    assert Trim(CommentPart(line), Cutset) == [];
    assert Separator + [] == Separator;
  }

  /** A line made of cutset characters before its first '#' (or altogether)
      adds no entry: blank and pure-comment lines are skipped. */
  lemma BlankLineSkipped(before: string, after: string)
    requires '#' !in before && AllIn(before, Cutset)
    ensures ParseLine(before) == None
    ensures ParseLine(before + "#" + after) == None
  {
    ParseCommented(before, after);
  }

  /** The two map assignments made for an entry. */
  function Insert(m: Patterns, e: Entry): (r: Patterns)
    ensures r.Keys == m.Keys + {e.key, TrimSuffix(e.key, CallSuffix)}
    ensures r[e.key] == e.message
    ensures HasSuffix(e.key, CallSuffix) ==> r[e.key[..|e.key| - |CallSuffix|]] == e.message
    ensures forall k :: k in m && k != e.key && k != TrimSuffix(e.key, CallSuffix) ==> r[k] == m[k]
  {
    m[e.key := e.message][TrimSuffix(e.key, CallSuffix) := e.message]
  }

  /** Without a trailing "()" the second assignment rewrites the same key with
      the same value: the map is as if it were written once. */
  lemma InsertWithoutCallSuffix(m: Patterns, e: Entry)
    requires !HasSuffix(e.key, CallSuffix)
    ensures Insert(m, e) == m[e.key := e.message]
  {
  }

  /** With a trailing "()" both the key and the key less exactly one "()" are
      mapped to the message. */
  lemma InsertWithCallSuffix(m: Patterns, name: string, message: string)
    ensures var r := Insert(m, Entry(name + CallSuffix, message));
      name + CallSuffix in r && name in r
      && r[name + CallSuffix] == message && r[name] == message
  {
    TrimSuffixOfAppend(name, CallSuffix);
  }

  /** The keys an entry is stored under: its key, and its key less one "()". */
  function Targets(entry: Option<Entry>): set<string> {
    match entry
    case None => {}
    case Some(e) => {e.key, TrimSuffix(e.key, CallSuffix)}
  }

  /** Stores a parsed line's entry, if it has one. */
  function Apply(m: Patterns, entry: Option<Entry>): (r: Patterns)
    ensures r.Keys == m.Keys + Targets(entry)
    ensures forall k :: k in Targets(entry) ==> r[k] == entry.value.message
    ensures forall k :: k in m && k !in Targets(entry) ==> r[k] == m[k]
  {
    match entry
    case None => m
    case Some(e) => Insert(m, e)
  }

  // ---------------------------------------------------------------------
  // The whole file
  // ---------------------------------------------------------------------

  /** `f` applied to each element, in order. */
  function MapSeq<A, B>(f: A -> B, s: seq<A>): (r: seq<B>)
    ensures |r| == |s|
    ensures forall i :: 0 <= i < |s| ==> r[i] == f(s[i])
    decreases |s|
  {
    if s == [] then [] else [f(s[0])] + MapSeq(f, s[1..])
  }

  lemma {:induction false} MapSeqAppend<A, B>(f: A -> B, a: seq<A>, b: seq<A>)
    ensures MapSeq(f, a + b) == MapSeq(f, a) + MapSeq(f, b)
    decreases |a|
  {
    if a == [] {
      assert a + b == b;
    } else {
      assert (a + b)[1..] == a[1..] + b;
      MapSeqAppend(f, a[1..], b);
    }
  }

  /** Each line parsed on its own, in file order. */
  function ParseLines(lines: seq<string>): seq<Option<Entry>> {
    MapSeq(ParseLine, lines)
  }

  lemma ParseLinesAppend(a: seq<string>, b: seq<string>)
    ensures ParseLines(a + b) == ParseLines(a) + ParseLines(b)
  {
    MapSeqAppend(ParseLine, a, b);
  }

  lemma ParseLinesCons(line: string, lines: seq<string>)
    ensures ParseLines([line] + lines) == [ParseLine(line)] + ParseLines(lines)
  {
    assert ([line] + lines)[1..] == lines;
  }

  /** The entries stored in order, starting from `m`: keys are only ever
      added, and entries that are all skipped lines change nothing. */
  function Fold(m: Patterns, entries: seq<Option<Entry>>): (r: Patterns)
    ensures m.Keys <= r.Keys
    ensures (forall i :: 0 <= i < |entries| ==> entries[i].None?) ==> r == m
    decreases |entries|
  {
    if entries == [] then m else Fold(Apply(m, entries[0]), entries[1..])
  }

  /** Every key is free of '#' and every message starts with the separator. */
  predicate WellStored(m: Patterns) {
    forall k :: k in m ==> '#' !in k && Separator <= m[k]
  }

  /** Every entry has a '#'-free key and a message starting with the separator. */
  predicate WellParsed(entries: seq<Option<Entry>>) {
    forall i :: 0 <= i < |entries| && entries[i].Some? ==>
      '#' !in entries[i].value.key && Separator <= entries[i].value.message
  }

  lemma ApplyWellStored(m: Patterns, entry: Option<Entry>)
    requires WellStored(m)
    requires entry.Some? ==> '#' !in entry.value.key && Separator <= entry.value.message
    ensures WellStored(Apply(m, entry))
  {
    if entry.Some? {
      var key := entry.value.key;
      var short := TrimSuffix(key, CallSuffix);
      if HasSuffix(key, CallSuffix) {
        assert short <= key;
      }
      assert '#' !in short;
    }
  }

  lemma {:induction false} FoldWellStored(m: Patterns, entries: seq<Option<Entry>>)
    requires WellStored(m) && WellParsed(entries)
    ensures WellStored(Fold(m, entries))
    decreases |entries|
  {
    if entries != [] {
      ApplyWellStored(m, entries[0]);
      var rest := entries[1..];
      assert WellParsed(rest) by {
        forall i | 0 <= i < |rest| && rest[i].Some?
          ensures '#' !in rest[i].value.key && Separator <= rest[i].value.message
        {
          assert rest[i] == entries[i + 1];
        }
      }
      FoldWellStored(Apply(m, entries[0]), rest);
    }
  }

  lemma ParseLinesWellParsed(lines: seq<string>)
    ensures WellParsed(ParseLines(lines))
  {
    var entries := ParseLines(lines);
    forall i | 0 <= i < |entries| && entries[i].Some?
      ensures '#' !in entries[i].value.key && Separator <= entries[i].value.message
    {
      assert entries[i] == ParseLine(lines[i]);
    }
  }

  /** The patterns a config file's contents produce: no key holds a '#', and
      every message starts with " - ". */
  function Load(text: string): (r: Patterns)
    ensures WellStored(r)
  {
    ParseLinesWellParsed(ReadLines(text));
    FoldWellStored(map[], ParseLines(ReadLines(text)));
    Fold(map[], ParseLines(ReadLines(text)))
  }

  /** `loadTrie`: fails when the file cannot be opened, else loads its contents. */
  function LoadFile(fs: FileSystem, path: string): (r: Result<Patterns, LoadError>)
    ensures r.Failure? <==> path !in fs
    ensures r.Failure? ==> r.error == OpenFailed(path)
  {
    if path in fs then Success(Load(fs[path])) else Failure(OpenFailed(path))
  }

  lemma {:induction false} FoldAppend(m: Patterns, a: seq<Option<Entry>>, b: seq<Option<Entry>>)
    ensures Fold(m, a + b) == Fold(Fold(m, a), b)
    decreases |a|
  {
    if a == [] {
      assert a + b == b;
    } else {
      assert (a + b)[1..] == a[1..] + b;
      FoldAppend(Apply(m, a[0]), a[1..], b);
    }
  }

  /** A key no entry targets keeps whatever it had before, or stays absent. */
  lemma {:induction false} FoldUntouched(m: Patterns, entries: seq<Option<Entry>>, k: string)
    requires forall i :: 0 <= i < |entries| ==> k !in Targets(entries[i])
    ensures k in Fold(m, entries) <==> k in m
    ensures k in m ==> Fold(m, entries)[k] == m[k]
    decreases |entries|
  {
    if entries != [] {
      var rest := entries[1..];
      forall j | 0 <= j < |rest|
        ensures k !in Targets(rest[j])
      {
        assert rest[j] == entries[j + 1];
      }
      FoldUntouched(Apply(m, entries[0]), rest, k);
    }
  }

  /** Duplicate keys resolve to the latest entry that targets them. */
  lemma {:induction false} LastWriterWins(m: Patterns, entries: seq<Option<Entry>>, k: string, i: nat)
    requires i < |entries| && k in Targets(entries[i])
    requires forall j :: i < j < |entries| ==> k !in Targets(entries[j])
    ensures k in Fold(m, entries) && Fold(m, entries)[k] == entries[i].value.message
    decreases |entries|
  {
    var rest := entries[1..];
    if i == 0 {
      forall j | 0 <= j < |rest|
        ensures k !in Targets(rest[j])
      {
        assert rest[j] == entries[j + 1];
      }
      FoldUntouched(Apply(m, entries[0]), rest, k);
    } else {
      forall j | i - 1 < j < |rest|
        ensures k !in Targets(rest[j])
      {
        assert rest[j] == entries[j + 1];
      }
      assert rest[i - 1] == entries[i];
      LastWriterWins(Apply(m, entries[0]), rest, k, i - 1);
    }
  }

  /** The keys of the result: those already there plus every key some entry targets. */
  lemma {:induction false} FoldKeys(m: Patterns, entries: seq<Option<Entry>>, k: string)
    ensures k in Fold(m, entries) <==> k in m || exists i :: 0 <= i < |entries| && k in Targets(entries[i])
    decreases |entries|
  {
    if entries != [] {
      var rest := entries[1..];
      FoldKeys(Apply(m, entries[0]), rest, k);
      if exists i :: 0 <= i < |rest| && k in Targets(rest[i]) {
        var i :| 0 <= i < |rest| && k in Targets(rest[i]);
        assert rest[i] == entries[i + 1];
      }
      if exists i :: 0 <= i < |entries| && k in Targets(entries[i]) {
        var i :| 0 <= i < |entries| && k in Targets(entries[i]);
        if i > 0 {
          assert rest[i - 1] == entries[i];
        }
      }
    }
  }

  /** Duplicate keys in a file resolve to the message of the latest line
      that writes them. */
  lemma LatestLineWins(text: string, k: string, i: nat)
    requires i < |ReadLines(text)| && k in Targets(ParseLine(ReadLines(text)[i]))
    requires forall j :: i < j < |ReadLines(text)| ==> k !in Targets(ParseLine(ReadLines(text)[j]))
    ensures k in Load(text) && Load(text)[k] == ParseLine(ReadLines(text)[i]).value.message
  {
    var lines := ReadLines(text);
    var entries := ParseLines(lines);
    assert entries[i] == ParseLine(lines[i]);
    forall j | i < j < |entries|
      ensures k !in Targets(entries[j])
    {
      assert entries[j] == ParseLine(lines[j]);
    }
    LastWriterWins(map[], entries, k, i);
  }

  /** A key is in a file's patterns exactly when some line of the file writes it. */
  lemma LoadKeys(text: string, k: string)
    ensures k in Load(text) <==>
      exists i :: 0 <= i < |ReadLines(text)| && k in Targets(ParseLine(ReadLines(text)[i]))
  {
    var lines := ReadLines(text);
    LinesKeys(lines, k);
    assert Load(text) == Fold(map[], ParseLines(lines));
  }

  lemma LinesKeys(lines: seq<string>, k: string)
    ensures k in Fold(map[], ParseLines(lines)) <==>
      exists i :: 0 <= i < |lines| && k in Targets(ParseLine(lines[i]))
  {
    var entries := ParseLines(lines);
    FoldKeys(map[], entries, k);
    if k in Fold(map[], entries) {
      var i :| 0 <= i < |entries| && k in Targets(entries[i]);
      assert entries[i] == ParseLine(lines[i]);
    }
    if exists i :: 0 <= i < |lines| && k in Targets(ParseLine(lines[i])) {
      var i :| 0 <= i < |lines| && k in Targets(ParseLine(lines[i]));
      assert entries[i] == ParseLine(lines[i]);
    }
  }

  /** A line that yields no entry, inserted anywhere in the file, changes nothing. */
  lemma SkippedLineIsNoOp(m: Patterns, a: seq<string>, line: string, b: seq<string>)
    requires ParseLine(line) == None
    ensures Fold(m, ParseLines(a + [line] + b)) == Fold(m, ParseLines(a + b))
  {
    var ea, eb := ParseLines(a), ParseLines(b);
    ParseLinesAppend(a + [line], b);
    ParseLinesAppend(a, [line]);
    ParseLinesAppend(a, b);
    assert ParseLines([line]) == [None];
    SkippedEntryIsNoOp(m, ea, eb);
  }

  lemma SkippedEntryIsNoOp(m: Patterns, a: seq<Option<Entry>>, b: seq<Option<Entry>>)
    ensures Fold(m, a + [None] + b) == Fold(m, a + b)
  {
    FoldAppend(m, a + [None], b);
    FoldAppend(m, a, [None]);
    var x := Fold(m, a);
    assert Fold(x, [None]) == Fold(x, []) == x;
    FoldAppend(m, a, b);
  }

  /** Anything after the last '\n' of the file leaves the patterns unchanged. */
  lemma LoadIgnoresTrailingSegment(text: string, extra: string)
    requires '\n' !in extra
    ensures Load(text + extra) == Load(text)
  {
    TrailingSegmentIgnored(text, extra);
  }

  /** A file of one complete line holds exactly that line's entry. */
  lemma LoadSingleLine(line: string)
    requires CompleteLine(line)
    ensures Load(line) == Apply(map[], ParseLine(line))
  {
    ReadLinesOfConcat([line], []);
    assert Concat([line]) + [] == line by {
      assert Concat([line]) == line + Concat([]);
    }
    ParseLinesCons(line, []);
    assert Fold(map[], [ParseLine(line)]) == Fold(Apply(map[], ParseLine(line)), []);
  }

  /** `loadTrie`'s read loop as written: read a line, stop at `io.EOF`
      (dropping the partial data), otherwise parse it and assign. */
  method LoadTrie(fs: FileSystem, path: string) returns (r: Result<Patterns, LoadError>)
    ensures r == LoadFile(fs, path)
  {
    var patterns: Patterns := map[];
    if path !in fs {
      return Failure(OpenFailed(path));
    }
    var rest := fs[path];
    while true
      invariant Fold(patterns, ParseLines(ReadLines(rest))) == Load(fs[path])
      decreases |rest|
    {
      var read := ReadString(rest);
      if read.Eof? {
        return Success(patterns);
      }
      var line := read.text;
      ghost var before := patterns;
      ghost var unread := rest;
      rest := rest[|line|..];
      var entry := ParseLine(line);
      if entry.Some? {
        patterns := patterns[entry.value.key := entry.value.message];
        var stripped := TrimSuffix(entry.value.key, CallSuffix);
        patterns := patterns[stripped := entry.value.message];
        assert patterns == Insert(before, entry.value);
      }
      assert ReadLines(unread) == [line] + ReadLines(rest);
      ParseLinesCons(line, ReadLines(rest));
    }
  }
}
