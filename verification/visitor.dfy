/**
 The per-node matching of the analyzer's `run` closure (goban/goban.go).
 The type checker's answers are taken as given: each node the inspector
 visits in preorder is abstracted to the one string it is matched by.
 */
module Visitor {
  import opened Wrappers
  import opened Config
  import opened PatternStore

  /** The three node kinds the inspector is filtered to. */
  datatype Node =
    | Import(pathLiteral: string)    // `ImportSpec`: the path literal as written, quotes included
    | Call(callee: Option<string>)   // `CallExpr`: the callee's `FullName()`, None when `typeutil.Callee` gives no `*types.Func`
    | Selector(typeString: string)   // `SelectorExpr`: `String()` of the expression's type

  /** The three diagnostic forms. */
  datatype Category = Package | Func | Type

  /** A reported finding; `pos` is the node's index in preorder. */
  datatype Diagnostic = Diagnostic(pos: nat, message: string)

  /** The node's symbol is in the ban list. */
  predicate Banned(n: Node, patterns: Patterns) {
    match n
    case Import(p) => p in patterns
    case Call(c) => c.Some? && c.value in patterns
    case Selector(t) => t in patterns
  }

  /** The string a node is looked up by, if it has one. */
  function Subject(n: Node): Option<string> {
    match n
    case Import(p) => Some(p)
    case Call(c) => c
    case Selector(t) => Some(t)
  }

  function CategoryOf(n: Node): Category {
    match n
    case Import(_) => Package
    case Call(_) => Func
    case Selector(_) => Type
  }

  /** The `Reportf` format for each category, with the stored comment appended verbatim. */
  function Render(c: Category, name: string, comment: string): (r: string)
    ensures |r| >= |name| + |" is banned"| + |comment|
    ensures r[|r| - |comment|..] == comment
    ensures r[|r| - |comment| - |" is banned"|..|r| - |comment|] == " is banned"
  {
    match c
    case Package => "package '" + name + "' is banned" + comment
    case Func => "func " + name + " is banned" + comment
    case Type => "type " + name + " is banned" + comment
  }

  /** The one diagnostic a node yields, if any. */
  function Report(n: Node, patterns: Patterns): (r: Option<string>)
    ensures r.Some? <==> Banned(n, patterns)
    ensures r.Some? && n.Import? ==>
      r.value == "package '" + n.pathLiteral + "' is banned" + patterns[n.pathLiteral]
    ensures r.Some? && n.Call? ==>
      r.value == "func " + n.callee.value + " is banned" + patterns[n.callee.value]
    ensures r.Some? && n.Selector? ==>
      r.value == "type " + n.typeString + " is banned" + patterns[n.typeString]
  {
    match Subject(n)
    case None => None
    case Some(name) =>
      if name in patterns then Some(Render(CategoryOf(n), name, patterns[name])) else None
  }

  /** The category can be read back from a diagnostic's text: the three
      formats never produce the same message. */
  lemma RenderDeterminesCategory(c1: Category, n1: string, m1: string, c2: Category, n2: string, m2: string)
    requires Render(c1, n1, m1) == Render(c2, n2, m2)
    ensures c1 == c2
  {
    var t := Render(c1, n1, m1);
    assert t[0] == (match c1 case Package => 'p' case Func => 'f' case Type => 't');
    assert t[0] == (match c2 case Package => 'p' case Func => 'f' case Type => 't');
  }

  /** The diagnostics for the nodes in preorder: one per banned node, in
      node order, with no deduplication. */
  function Visit(nodes: seq<Node>, patterns: Patterns): (r: seq<Diagnostic>)
    ensures |r| <= |nodes|
    ensures forall i :: 0 <= i < |r| ==>
      r[i].pos < |nodes| && Report(nodes[r[i].pos], patterns) == Some(r[i].message)
    ensures forall i, j :: 0 <= i < j < |r| ==> r[i].pos < r[j].pos
    decreases |nodes|
  {
    if nodes == [] then []
    else
      var last := |nodes| - 1;
      var init := Visit(nodes[..last], patterns);
      match Report(nodes[last], patterns)
      case None => init
      case Some(text) => init + [Diagnostic(last, text)]
  }

  /** The positions reported. */
  function Positions(ds: seq<Diagnostic>): set<nat> {
    set i | 0 <= i < |ds| :: ds[i].pos
  }

  /** The positions of the banned nodes. */
  function BannedPositions(nodes: seq<Node>, patterns: Patterns): set<nat> {
    set p: nat | p < |nodes| && Banned(nodes[p], patterns)
  }

  lemma PositionsSnoc(ds: seq<Diagnostic>, d: Diagnostic)
    ensures Positions(ds + [d]) == Positions(ds) + {d.pos}
  {
    var r := ds + [d];
    forall x | x in Positions(r)
      ensures x in Positions(ds) + {d.pos}
    {
      var i :| 0 <= i < |r| && r[i].pos == x;
      if i < |ds| {
        assert ds[i].pos == x;
      }
    }
    forall x | x in Positions(ds)
      ensures x in Positions(r)
    {
      var i :| 0 <= i < |ds| && ds[i].pos == x;
      assert r[i].pos == x;
    }
    assert r[|ds|].pos == d.pos;
  }

  lemma BannedPositionsSnoc(nodes: seq<Node>, patterns: Patterns)
    requires nodes != []
    ensures var last := |nodes| - 1;
      BannedPositions(nodes, patterns)
      == BannedPositions(nodes[..last], patterns) + (if Banned(nodes[last], patterns) then {last} else {})
  {
    var last := |nodes| - 1;
    assert forall p: nat :: p < last ==> nodes[..last][p] == nodes[p];
  }

  /** Every banned node is reported, and nothing else is. */
  lemma {:induction false} VisitReportsExactlyBanned(nodes: seq<Node>, patterns: Patterns)
    ensures Positions(Visit(nodes, patterns)) == BannedPositions(nodes, patterns)
    decreases |nodes|
  {
    if nodes != [] {
      var last := |nodes| - 1;
      var init := nodes[..last];
      VisitReportsExactlyBanned(init, patterns);
      BannedPositionsSnoc(nodes, patterns);
      var ri := Visit(init, patterns);
      if Banned(nodes[last], patterns) {
        var d := Diagnostic(last, Report(nodes[last], patterns).value);
        assert Visit(nodes, patterns) == ri + [d];
        PositionsSnoc(ri, d);
      } else {
        assert Visit(nodes, patterns) == ri;
      }
    }
  }

  /** Strictly increasing positions are pairwise distinct, so there are as
      many positions as diagnostics. */
  lemma {:induction false} IncreasingPositionsCount(ds: seq<Diagnostic>)
    requires forall i, j :: 0 <= i < j < |ds| ==> ds[i].pos < ds[j].pos
    ensures |Positions(ds)| == |ds|
    decreases |ds|
  {
    if ds != [] {
      var init := ds[..|ds| - 1];
      IncreasingPositionsCount(init);
      assert Positions(ds) == Positions(init) + {ds[|ds| - 1].pos};
      assert ds[|ds| - 1].pos !in Positions(init);
    }
  }

  /** No deduplication: there are exactly as many diagnostics as banned nodes. */
  lemma VisitCount(nodes: seq<Node>, patterns: Patterns)
    ensures |Visit(nodes, patterns)| == |BannedPositions(nodes, patterns)|
  {
    VisitReportsExactlyBanned(nodes, patterns);
    IncreasingPositionsCount(Visit(nodes, patterns));
  }

  /** The result of one analysis pass over a compilation unit. */
  datatype PassOutcome =
    | Reported(next: Store, diagnostics: seq<Diagnostic>)
    | Terminated(error: LoadError)   // `log.Fatal` inside `getBannedPtsMap`

  /** The `run` closure: fetch the patterns, then visit the unit's nodes. */
  function RunPass(s: Store, fs: FileSystem, path: string, nodes: seq<Node>): (r: PassOutcome)
    ensures r.Terminated? <==> Get(s, fs, path).answer.Failure?
    ensures r.Reported? ==> r.next == Get(s, fs, path).next
    ensures r.Reported? && s.phase.Ready? ==> r.diagnostics == Visit(nodes, s.phase.patterns)
    ensures r.Reported? && s.phase.Uninitialised? ==>
      path in fs && r.diagnostics == Visit(nodes, Load(fs[path]))
  {
    var reply := Get(s, fs, path);
    match reply.answer
    case Failure(e) => Terminated(e)
    case Success(patterns) => Reported(reply.next, Visit(nodes, patterns))
  }

  /** A whole process: one pass per compilation unit, all sharing the cache
      and the configured path. It ends at the first fatal load. */
  function Analyze(s: Store, fs: FileSystem, path: string, units: seq<seq<Node>>)
    : (r: Result<seq<seq<Diagnostic>>, LoadError>)
    ensures r.Success? ==> |r.value| == |units|
    decreases |units|
  {
    if units == [] then Success([])
    else
      match RunPass(s, fs, path, units[0])
      case Terminated(e) => Failure(e)
      case Reported(next, ds) =>
        match Analyze(next, fs, path, units[1..])
        case Failure(e) => Failure(e)
        case Success(rest) => Success([ds] + rest)
  }

  /** Every unit matched against the same patterns. */
  function VisitAll(units: seq<seq<Node>>, patterns: Patterns): (r: seq<seq<Diagnostic>>)
    ensures |r| == |units|
    ensures forall i :: 0 <= i < |units| ==> r[i] == Visit(units[i], patterns)
  {
    seq(|units|, i requires 0 <= i < |units| => Visit(units[i], patterns))
  }

  lemma VisitAllCons(units: seq<seq<Node>>, patterns: Patterns)
    requires units != []
    ensures VisitAll(units, patterns) == [Visit(units[0], patterns)] + VisitAll(units[1..], patterns)
  {
  }

  /** The first pass of a fresh process whose config opens. */
  lemma FirstPassLoads(fs: FileSystem, path: string, unit: seq<Node>)
    requires path in fs
    ensures RunPass(Initial, fs, path, unit)
      == Reported(Store(Ready(Load(fs[path])), 1), Visit(unit, Load(fs[path])))
  {
  }

  /** From a fresh process: an unopenable config ends the run before any
      diagnostic; otherwise every unit is matched against the one loaded map. */
  lemma AnalyzeFromInitial(fs: FileSystem, path: string, units: seq<seq<Node>>)
    requires units != []
    ensures path !in fs ==> Analyze(Initial, fs, path, units) == Failure(OpenFailed(path))
    ensures path in fs ==> Analyze(Initial, fs, path, units) == Success(VisitAll(units, Load(fs[path])))
  {
    if path in fs {
      var m := Load(fs[path]);
      var s := Store(Ready(m), 1);
      FirstPassLoads(fs, path, units[0]);
      AnalyzeReady(s, fs, path, units[1..]);
      VisitAllCons(units, m);
    }
  }

  /** With the map in place, each unit is matched against it. */
  lemma {:induction false} AnalyzeReady(s: Store, fs: FileSystem, path: string, units: seq<seq<Node>>)
    requires s.phase.Ready?
    ensures Analyze(s, fs, path, units) == Success(VisitAll(units, s.phase.patterns))
    decreases |units|
  {
    if units != [] {
      var m := s.phase.patterns;
      assert RunPass(s, fs, path, units[0]) == Reported(s, Visit(units[0], m));
      AnalyzeReady(s, fs, path, units[1..]);
      VisitAllCons(units, m);
    }
  }
}
