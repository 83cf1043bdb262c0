/**
 The process-wide pattern cache (`getBannedPtsMap` in goban/goban.go). The
 first call loads the config file; every later call returns the map that
 load produced, whatever path it is given. A failed load is fatal
 (`log.Fatal`): the phase it leads to is never left.
 */
module PatternStore {
  import opened Wrappers
  import opened Config

  /** The lifecycle of the shared `bannedPatterns` variable. */
  datatype Phase = Uninitialised | Ready(patterns: Patterns) | Aborted(error: LoadError)

  /** The cache together with the number of times it has read the config file. */
  datatype Store = Store(phase: Phase, loads: nat)

  /** The state of a fresh process. */
  const Initial: Store := Store(Uninitialised, 0)

  /** The file has been read once exactly when the cache has left its first phase. */
  predicate Valid(s: Store) {
    s.loads == if s.phase.Uninitialised? then 0 else 1
  }

  /** What one call hands back: the next state of the cache, and either the
      patterns or the error that ended the process. */
  datatype Reply = Reply(next: Store, answer: Result<Patterns, LoadError>)

  /** One call of `getBannedPtsMap(path)` against the file system `fs`. */
  function Get(s: Store, fs: FileSystem, path: string): (r: Reply)
    ensures s.phase.Ready? ==> r == Reply(s, Success(s.phase.patterns))
    ensures s.phase.Aborted? ==> r == Reply(s, Failure(s.phase.error))
    ensures s.phase.Uninitialised? ==> r.next.loads == s.loads + 1 && r.answer == LoadFile(fs, path)
    ensures r.answer.Success? <==> r.next.phase.Ready?
    ensures r.answer.Success? ==> r.answer.value == r.next.phase.patterns
    ensures r.answer.Failure? ==> r.next.phase == Aborted(r.answer.error)
    ensures Valid(s) ==> Valid(r.next)
  {
    match s.phase
    case Ready(m) => Reply(s, Success(m))
    case Aborted(e) => Reply(s, Failure(e))
    case Uninitialised =>
      var next := match LoadFile(fs, path)
        case Success(m) => Ready(m)
        case Failure(e) => Aborted(e);
      Reply(Store(next, s.loads + 1), LoadFile(fs, path))
  }

  /** What a cache that has left its first phase answers every caller. */
  function Outcome(s: Store): Result<Patterns, LoadError>
    requires !s.phase.Uninitialised?
  {
    if s.phase.Ready? then Success(s.phase.patterns) else Failure(s.phase.error)
  }

  /** The arguments of one call. */
  datatype Request = Request(fs: FileSystem, path: string)

  /** The cache's final state and every answer, for calls made one after another. */
  datatype Trace = Trace(final: Store, answers: seq<Result<Patterns, LoadError>>)

  function Serve(s: Store, requests: seq<Request>): (t: Trace)
    ensures |t.answers| == |requests|
    ensures Valid(s) ==> Valid(t.final)
    ensures requests == [] ==> t.final == s
    decreases |requests|
  {
    if requests == [] then Trace(s, [])
    else
      var r := Get(s, requests[0].fs, requests[0].path);
      var rest := Serve(r.next, requests[1..]);
      Trace(rest.final, [r.answer] + rest.answers)
  }

  /** Once the cache has left its first phase, it neither reads the file
      again nor changes, and every call gets the same answer. */
  lemma {:induction false} SettledStoreIsConstant(s: Store, requests: seq<Request>)
    requires !s.phase.Uninitialised?
    ensures Serve(s, requests).final == s
    ensures forall i :: 0 <= i < |requests| ==>
      Serve(s, requests).answers[i] == Outcome(s)
    decreases |requests|
  {
    if requests != [] {
      SettledStoreIsConstant(s, requests[1..]);
    }
  }

  /** From a fresh process, however many calls are made and whatever paths
      they pass, the file is read exactly once (by the first call) and every
      call observes that one outcome. */
  lemma LoadsOnce(requests: seq<Request>)
    requires requests != []
    ensures Serve(Initial, requests).final.loads == 1
    ensures forall i :: 0 <= i < |requests| ==>
      Serve(Initial, requests).answers[i] == LoadFile(requests[0].fs, requests[0].path)
  {
    var r := Get(Initial, requests[0].fs, requests[0].path);
    SettledStoreIsConstant(r.next, requests[1..]);
    var t := Serve(Initial, requests);
    forall i | 0 <= i < |requests|
      ensures t.answers[i] == LoadFile(requests[0].fs, requests[0].path)
    {
      if i > 0 {
        assert t.answers[i] == Serve(r.next, requests[1..]).answers[i - 1];
      }
    }
  }
}
