/**
 End-to-end consequences: from a config file's text, through the one-shot
 cache, to the diagnostics a compilation unit yields.
 */
module Goban {
  import opened Wrappers
  import opened GoStrings
  import opened Config
  import opened PatternStore
  import opened Visitor

  /** A well-formed config line `SYMBOL # COMMENT`: the symbol and comment
      carry no '#' or '\n' and no cutset characters at their ends. */
  predicate WellFormed(symbol: string, comment: string) {
    && symbol != [] && '#' !in symbol && '\n' !in symbol
    && symbol[0] !in Cutset && symbol[|symbol| - 1] !in Cutset
    && '\n' !in comment
    && (comment != [] ==> comment[0] !in Cutset && comment[|comment| - 1] !in Cutset)
  }

  function ConfigLine(symbol: string, comment: string): string {
    symbol + " # " + comment + "\n"
  }

  lemma ConfigLineIsComplete(symbol: string, comment: string)
    requires WellFormed(symbol, comment)
    ensures CompleteLine(ConfigLine(symbol, comment))
  {
    var line := ConfigLine(symbol, comment);
    assert line[..|line| - 1] == symbol + " # " + comment;
  }

  lemma SymbolTrimmed(symbol: string)
    requires symbol != [] && symbol[0] !in Cutset && symbol[|symbol| - 1] !in Cutset
    ensures Trim(symbol + " ", Cutset) == symbol
  {
    TrimPadded([], symbol, " ", Cutset);
    assert [] + symbol + " " == symbol + " ";
  }

  lemma CommentTrimmed(comment: string)
    requires comment != [] ==> comment[0] !in Cutset && comment[|comment| - 1] !in Cutset
    ensures Trim(" " + comment + "\n", Cutset) == comment
  {
    TrimPadded(" ", comment, "\n", Cutset);
  }

  lemma ConfigLineParses(symbol: string, comment: string)
    requires WellFormed(symbol, comment)
    ensures ParseLine(ConfigLine(symbol, comment)) == Some(Entry(symbol, Separator + comment))
  {
    var before, after := symbol + " ", " " + comment + "\n";
    assert ConfigLine(symbol, comment) == before + "#" + after;
    assert '#' !in before;
    SplitAtFirstHash(before, after);
    SymbolTrimmed(symbol);
    CommentTrimmed(comment);
    var line := before + "#" + after;
    assert SymbolPart(line) == before && CommentPart(line) == after;
    assert Trim(SymbolPart(line), Cutset) == symbol;
    assert Trim(CommentPart(line), Cutset) == comment;
  }

  /** One config line bans its symbol, and the symbol less one trailing "()",
      with the message " - " + comment, and nothing else. */
  lemma ConfigLineRegisters(symbol: string, comment: string)
    requires WellFormed(symbol, comment)
    ensures Load(ConfigLine(symbol, comment))
      == map[symbol := Separator + comment, TrimSuffix(symbol, CallSuffix) := Separator + comment]
  {
    var line := ConfigLine(symbol, comment);
    ConfigLineIsComplete(symbol, comment);
    ConfigLineParses(symbol, comment);
    LoadSingleLine(line);
  }

  lemma FuncMessage(callee: string, comment: string)
    ensures Render(Func, callee, Separator + comment) == "func " + callee + " is banned - " + comment
  {
  }

  /** From a fresh process, a single unit is matched against the loaded file. */
  lemma AnalyzeOneUnit(fs: FileSystem, path: string, unit: seq<Node>)
    requires path in fs
    ensures Analyze(Initial, fs, path, [unit]) == Success([Visit(unit, Load(fs[path]))])
  {
    var m := Load(fs[path]);
    AnalyzeFromInitial(fs, path, [unit]);
    var all := VisitAll([unit], m);
    assert |all| == 1 && all[0] == Visit(unit, m);
    assert all == [Visit(unit, m)];
  }

  /** A lone banned call yields one `func` diagnostic at position 0. */
  lemma LoneCallReported(m: Patterns, callee: string)
    requires callee in m
    ensures Visit([Call(Some(callee))], m) == [Diagnostic(0, Render(Func, callee, m[callee]))]
  {
    var nodes := [Call(Some(callee))];
    assert nodes[..0] == [];
  }

  /** With that line as the config, a call whose callee is the symbol (or
      the symbol less its "()") yields exactly one `func` diagnostic. */
  lemma BannedCallReported(path: string, symbol: string, comment: string, callee: string)
    requires WellFormed(symbol, comment)
    requires callee == symbol || callee == TrimSuffix(symbol, CallSuffix)
    ensures Analyze(Initial, map[path := ConfigLine(symbol, comment)], path, [[Call(Some(callee))]])
      == Success([[Diagnostic(0, "func " + callee + " is banned - " + comment)]])
  {
    var fs := map[path := ConfigLine(symbol, comment)];
    ConfigLineRegisters(symbol, comment);
    AnalyzeOneUnit(fs, path, [Call(Some(callee))]);
    LoneCallReported(Load(fs[path]), callee);
    FuncMessage(callee, comment);
  }

  /** The documented example: banning `fmt.Println` with a comment. */
  lemma PrintlnExample()
    ensures Analyze(Initial, map[".goban.cfg" := "fmt.Println # use logger instead\n"], ".goban.cfg",
                    [[Call(Some("fmt.Println"))]])
      == Success([[Diagnostic(0, "func " + "fmt.Println" + " is banned - " + "use logger instead")]])
  {
    assert WellFormed("fmt.Println", "use logger instead");
    assert ConfigLine("fmt.Println", "use logger instead") == "fmt.Println # use logger instead\n";
    BannedCallReported(".goban.cfg", "fmt.Println", "use logger instead", "fmt.Println");
  }

  /** Two call sites of the same banned function give two diagnostics. */
  lemma NoDeduplication(patterns: Patterns, f: string)
    requires f in patterns
    ensures |Visit([Call(Some(f)), Call(Some(f))], patterns)| == 2
  {
    var nodes := [Call(Some(f)), Call(Some(f))];
    VisitCount(nodes, patterns);
    assert BannedPositions(nodes, patterns) == {0, 1};
  }

  /** A config that cannot be opened ends the run before any diagnostic,
      whatever the units contain. */
  lemma MissingConfigIsFatal(fs: FileSystem, path: string, units: seq<seq<Node>>)
    requires path !in fs && units != []
    ensures Analyze(Initial, fs, path, units).Failure?
  {
    AnalyzeFromInitial(fs, path, units);
  }
}
