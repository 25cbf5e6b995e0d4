/** ParseFilesMulti: a feeder, a pool of workers, a closer and a collector over two unbuffered channels. */
module WorkerPool {
  import opened Domain
  import opened Ordering

  datatype Outcome = Parsed(graph: WorkflowGraph) | Failed(error: string)

  datatype FileParseResult = FileParseResult(Path: string, outcome: Outcome)

  // ----- The pool

  /** The primary worker, and siblings until the pool is full or one cannot be started. */
  method PoolSize(workers: int, paths: nat, canSpawn: bool, spawns: nat -> bool) returns (size: nat)
    requires paths > 0
    ensures 1 <= size && (size == 1 || size <= workers) && size <= paths
    ensures canSpawn && (forall k :: spawns(k)) ==>
              size == if workers < 1 then 1 else if workers < paths then workers else paths
  {
    var n := workers;
    if n < 1 {
      n := 1;
    }
    if n > paths {
      n := paths;
    }
    size := 1;
    if canSpawn {
      while size < n
        invariant 1 <= size <= n
        decreases n - size
      {
        if !spawns(size) {
          break;
        }
        size := size + 1;
      }
    }
  }

  datatype Worker = Waiting | Parsing(path: string) | Sending(result: FileParseResult) | Stopped

  /** `next` counts the paths handed out; the collector is ranging over the results while `collecting`. */
  datatype Pool = Pool(next: nat, jobsClosed: bool, workers: seq<Worker>, resultsClosed: bool,
                       out: seq<FileParseResult>, collecting: bool, panicked: bool)

  datatype Step =
    | Feed(w: nat)
    | CloseJobs
    | Parse(w: nat, outcome: Outcome)
    | Deliver(w: nat)
    | Stop(w: nat)
    | CloseResults
    | EndCollection

  /** A send on a closed channel panics; a send on an open unbuffered channel needs a waiting receiver. */
  ghost predicate Next(paths: seq<string>, s: Pool, step: Step, t: Pool) {
    match step
    case Feed(w) =>
      s.next < |paths| && w < |s.workers|
      && if s.jobsClosed then t == s.(panicked := true)
         else s.workers[w] == Waiting
              && t == s.(next := s.next + 1, workers := s.workers[w := Parsing(paths[s.next])])
    case CloseJobs => s.next >= |paths| && !s.jobsClosed && t == s.(jobsClosed := true)
    case Parse(w, outcome) =>
      w < |s.workers| && s.workers[w].Parsing?
      && t == s.(workers := s.workers[w := Sending(FileParseResult(s.workers[w].path, outcome))])
    case Deliver(w) =>
      w < |s.workers| && s.workers[w].Sending?
      && if s.resultsClosed then t == s.(panicked := true)
         else s.collecting && t == s.(workers := s.workers[w := Waiting], out := s.out + [s.workers[w].result])
    case Stop(w) =>
      s.jobsClosed && w < |s.workers| && s.workers[w] == Waiting && t == s.(workers := s.workers[w := Stopped])
    case CloseResults => AllStopped(s.workers) && !s.resultsClosed && t == s.(resultsClosed := true)
    case EndCollection => s.resultsClosed && s.collecting && t == s.(collecting := false)
  }

  ghost predicate AllStopped(workers: seq<Worker>) {
    forall i :: 0 <= i < |workers| ==> workers[i] == Stopped
  }

  ghost predicate Steps(paths: seq<string>, s: Pool, t: Pool) {
    exists step :: Next(paths, s, step, t)
  }

  function Initial(size: nat): Pool {
    Pool(0, false, seq(size, _ => Waiting), false, [], true, false)
  }

  ghost predicate IsRun(paths: seq<string>, size: nat, run: seq<Pool>) {
    && run != [] && run[0] == Initial(size)
    && forall i :: 0 <= i < |run| - 1 ==> Steps(paths, run[i], run[i + 1])
  }

  // ----- What every step keeps

  function PathsOf(results: seq<FileParseResult>): seq<string> {
    if results == [] then [] else PathsOf(results[..|results| - 1]) + [results[|results| - 1].Path]
  }

  function Held(w: Worker, p: string): nat {
    match w
    case Parsing(q) => if p == q then 1 else 0
    case Sending(r) => if p == r.Path then 1 else 0
    case _ => 0
  }

  /** How many workers hold the path. */
  function InFlight(workers: seq<Worker>, p: string): nat {
    if workers == [] then 0 else Held(workers[0], p) + InFlight(workers[1..], p)
  }

  ghost function Occurrences(paths: seq<string>, s: Pool, p: string): nat
    requires s.next <= |paths|
  {
    multiset(PathsOf(s.out))[p] + InFlight(s.workers, p) + multiset(paths[s.next..])[p]
  }

  /**
   * Every path is waiting, in a worker or reported, as often as it was given; channels close only when their senders
   * are done.
   */
  ghost predicate Invariant(paths: seq<string>, s: Pool) {
    && !s.panicked
    && s.next <= |paths|
    && (forall p :: Occurrences(paths, s, p) == multiset(paths)[p])
    && (s.jobsClosed ==> s.next == |paths|)
    && (forall i :: 0 <= i < |s.workers| && s.workers[i] == Stopped ==> s.jobsClosed)
    && (s.resultsClosed ==> AllStopped(s.workers) && s.jobsClosed)
    && (!s.collecting ==> s.resultsClosed)
    && |s.workers| >= 1
  }

  lemma {:induction false} InFlightUpdate(workers: seq<Worker>, w: nat, x: Worker, p: string)
    requires w < |workers|
    ensures InFlight(workers[w := x], p) + Held(workers[w], p) == InFlight(workers, p) + Held(x, p)
  {
    if w == 0 {
      assert workers[0 := x][1..] == workers[1..];
    } else {
      InFlightUpdate(workers[1..], w - 1, x, p);
      assert workers[w := x][1..] == workers[1..][w - 1 := x];
    }
  }

  lemma {:induction false} NothingInFlight(workers: seq<Worker>, p: string)
    requires forall i :: 0 <= i < |workers| ==> workers[i] in {Waiting, Stopped}
    ensures InFlight(workers, p) == 0
  {
    if workers != [] {
      NothingInFlight(workers[1..], p);
    }
  }

  lemma FeedConserves(paths: seq<string>, s: Pool, w: nat, t: Pool, p: string)
    requires Invariant(paths, s) && Next(paths, s, Feed(w), t)
    ensures t.next <= |paths| && Occurrences(paths, t, p) == Occurrences(paths, s, p)
  {
    InFlightUpdate(s.workers, w, Parsing(paths[s.next]), p);
    assert paths[s.next..] == [paths[s.next]] + paths[s.next + 1..];
  }

  lemma DeliverConserves(paths: seq<string>, s: Pool, w: nat, t: Pool, p: string)
    requires Invariant(paths, s) && Next(paths, s, Deliver(w), t)
    ensures t.next <= |paths| && Occurrences(paths, t, p) == Occurrences(paths, s, p)
  {
    InFlightUpdate(s.workers, w, Waiting, p);
    assert t.out[..|t.out| - 1] == s.out;
  }

  /** Handing out, reporting and moving on neither lose nor duplicate a path. */
  lemma StepConserves(paths: seq<string>, s: Pool, step: Step, t: Pool, p: string)
    requires Invariant(paths, s) && Next(paths, s, step, t)
    ensures t.next <= |paths| && Occurrences(paths, t, p) == Occurrences(paths, s, p)
  {
    match step
    case Feed(w) => FeedConserves(paths, s, w, t, p);
    case Parse(w, outcome) => InFlightUpdate(s.workers, w, t.workers[w], p);
    case Deliver(w) => DeliverConserves(paths, s, w, t, p);
    case Stop(w) => InFlightUpdate(s.workers, w, Stopped, p);
    case _ =>
  }

  lemma StepKeeps(paths: seq<string>, s: Pool, step: Step, t: Pool)
    requires Invariant(paths, s) && Next(paths, s, step, t)
    ensures Invariant(paths, t)
  {
    forall p ensures t.next <= |paths| && Occurrences(paths, t, p) == multiset(paths)[p] {
      StepConserves(paths, s, step, t, p);
    }
    assert AllStopped(s.workers) ==> s.workers[0] == Stopped;
  }

  lemma {:induction false} RunKeeps(paths: seq<string>, size: nat, run: seq<Pool>, i: nat)
    requires IsRun(paths, size, run) && size >= 1 && i < |run|
    ensures Invariant(paths, run[i])
  {
    if i == 0 {
      assert paths[0..] == paths;
      forall p ensures Occurrences(paths, Initial(size), p) == multiset(paths)[p] {
        NothingInFlight(Initial(size).workers, p);
      }
    } else {
      RunKeeps(paths, size, run, i - 1);
      assert Steps(paths, run[i - 1], run[i - 1 + 1]);
      var step :| Next(paths, run[i - 1], step, run[i]);
      StepKeeps(paths, run[i - 1], step, run[i]);
    }
  }

  // ----- Main results

  /** No reachable state has sent on a closed channel. */
  lemma NeverSendsOnClosedChannel(paths: seq<string>, size: nat, run: seq<Pool>, i: nat)
    requires IsRun(paths, size, run) && size >= 1 && i < |run|
    ensures !run[i].panicked
    ensures run[i].resultsClosed ==> forall w :: 0 <= w < |run[i].workers| ==> !run[i].workers[w].Sending?
  {
    RunKeeps(paths, size, run, i);
  }

  /** While the collector is still waiting, some goroutine can move. */
  lemma NeverDeadlocks(paths: seq<string>, size: nat, run: seq<Pool>, i: nat)
    requires IsRun(paths, size, run) && size >= 1 && i < |run| && run[i].collecting
    ensures exists t :: Steps(paths, run[i], t)
  {
    RunKeeps(paths, size, run, i);
    var s := run[i];
    if s.resultsClosed {
      var t := s.(collecting := false);
      assert Next(paths, s, EndCollection, t);
      assert Steps(paths, s, t);
    } else if w :| 0 <= w < |s.workers| && (s.workers[w].Parsing? || s.workers[w].Sending?) {
      BusyWorkerMoves(paths, s, w);
    } else if !s.jobsClosed {
      FeederMoves(paths, s);
    } else if w :| 0 <= w < |s.workers| && s.workers[w] == Waiting {
      var t := s.(workers := s.workers[w := Stopped]);
      assert Next(paths, s, Stop(w), t);
      assert Steps(paths, s, t);
    } else {
      var t := s.(resultsClosed := true);
      assert Next(paths, s, CloseResults, t);
      assert Steps(paths, s, t);
    }
  }

  lemma BusyWorkerMoves(paths: seq<string>, s: Pool, w: nat)
    requires w < |s.workers| && (s.workers[w].Parsing? || s.workers[w].Sending?) && !s.resultsClosed && s.collecting
    ensures exists t :: Steps(paths, s, t)
  {
    if s.workers[w].Parsing? {
      var t := s.(workers := s.workers[w := Sending(FileParseResult(s.workers[w].path, Failed("")))]);
      assert Next(paths, s, Parse(w, Failed("")), t);
      assert Steps(paths, s, t);
    } else {
      var t := s.(workers := s.workers[w := Waiting], out := s.out + [s.workers[w].result]);
      assert Next(paths, s, Deliver(w), t);
      assert Steps(paths, s, t);
    }
  }

  lemma FeederMoves(paths: seq<string>, s: Pool)
    requires Invariant(paths, s) && !s.jobsClosed && s.workers[0] in {Waiting, Stopped}
    ensures exists t :: Steps(paths, s, t)
  {
    if s.next < |paths| {
      var t := s.(next := s.next + 1, workers := s.workers[0 := Parsing(paths[s.next])]);
      assert Next(paths, s, Feed(0), t);
      assert Steps(paths, s, t);
    } else {
      var t := s.(jobsClosed := true);
      assert Next(paths, s, CloseJobs, t);
      assert Steps(paths, s, t);
    }
  }

  function WorkerWork(w: Worker): nat {
    match w
    case Stopped => 0
    case Waiting => 1
    case Sending(_) => 2
    case Parsing(_) => 3
  }

  function WorkersWork(ws: seq<Worker>): nat {
    if ws == [] then 0 else WorkerWork(ws[0]) + WorkersWork(ws[1..])
  }

  lemma {:induction false} WorkUpdate(ws: seq<Worker>, w: nat, x: Worker)
    requires w < |ws|
    ensures WorkersWork(ws[w := x]) + WorkerWork(ws[w]) == WorkersWork(ws) + WorkerWork(x)
  {
    if w == 0 {
      assert ws[0 := x][1..] == ws[1..];
    } else {
      WorkUpdate(ws[1..], w - 1, x);
      assert ws[w := x][1..] == ws[1..][w - 1 := x];
    }
  }

  ghost function Work(paths: seq<string>, s: Pool): int {
    3 * (|paths| - s.next) + WorkersWork(s.workers)
    + (if s.jobsClosed then 0 else 1) + (if s.resultsClosed then 0 else 1) + (if s.collecting then 1 else 0)
  }

  /** Every step uses up work, so every run ends. */
  lemma StepsRunOut(paths: seq<string>, s: Pool, step: Step, t: Pool)
    requires Invariant(paths, s) && Next(paths, s, step, t)
    ensures 0 <= Work(paths, t) < Work(paths, s)
  {
    StepKeeps(paths, s, step, t);
    match step
    case Feed(w) => WorkUpdate(s.workers, w, Parsing(paths[s.next]));
    case Parse(w, outcome) => WorkUpdate(s.workers, w, t.workers[w]);
    case Deliver(w) => WorkUpdate(s.workers, w, Waiting);
    case Stop(w) => WorkUpdate(s.workers, w, Stopped);
    case _ =>
  }

  /** When collection ends all workers have stopped and there is one result per input path, repeated paths included. */
  lemma OneResultPerPath(paths: seq<string>, size: nat, run: seq<Pool>)
    requires IsRun(paths, size, run) && size >= 1 && !run[|run| - 1].collecting
    ensures var last := run[|run| - 1];
            AllStopped(last.workers) && last.jobsClosed && multiset(PathsOf(last.out)) == multiset(paths)
  {
    RunKeeps(paths, size, run, |run| - 1);
    var last := run[|run| - 1];
    forall p ensures multiset(PathsOf(last.out))[p] == multiset(paths)[p] {
      NothingInFlight(last.workers, p);
      assert Occurrences(paths, last, p) == multiset(paths)[p];
    }
  }

  predicate PathLe(a: FileParseResult, b: FileParseResult) {
    StrLe(a.Path, b.Path)
  }

  lemma PathLeIsTotalPreorder()
    ensures TotalPreorder(PathLe)
  {
    StrLeIsTotalPreorder();
  }

  lemma {:induction false} PathsOfAt(results: seq<FileParseResult>)
    ensures |PathsOf(results)| == |results| && forall i :: 0 <= i < |results| ==> PathsOf(results)[i] == results[i].Path
  {
    if results != [] {
      PathsOfAt(results[..|results| - 1]);
    }
  }

  lemma PathsOfConcat(a: seq<FileParseResult>, b: seq<FileParseResult>)
    ensures PathsOf(a + b) == PathsOf(a) + PathsOf(b)
  {
    PathsOfAt(a);
    PathsOfAt(b);
    PathsOfAt(a + b);
  }

  lemma PathsWithout(l: seq<FileParseResult>, x: FileParseResult, r: seq<FileParseResult>)
    ensures multiset(PathsOf(l + [x] + r)) == multiset(PathsOf(l + r)) + multiset{x.Path}
  {
    PathsOfConcat(l, r);
    PathsOfConcat(l, [x]);
    PathsOfConcat(l + [x], r);
    assert PathsOf([x]) == [x.Path] by {
      assert [x][..0] == [];
    }
  }

  /** Taking out one result takes out its path. */
  lemma Without(s: seq<FileParseResult>, x: FileParseResult) returns (rest: seq<FileParseResult>)
    requires x in s
    ensures |rest| < |s| && multiset(rest) == multiset(s) - multiset{x}
    ensures multiset(PathsOf(s)) == multiset(PathsOf(rest)) + multiset{x.Path}
  {
    var j :| 0 <= j < |s| && s[j] == x;
    var l, r := s[..j], s[j + 1..];
    assert s == l + [x] + r;
    assert multiset(l + [x] + r) - multiset{x} == multiset(l + r);
    PathsWithout(l, x, r);
    rest := l + r;
  }

  lemma {:induction false} PathsOfPermuted(a: seq<FileParseResult>, b: seq<FileParseResult>)
    requires multiset(a) == multiset(b)
    ensures multiset(PathsOf(a)) == multiset(PathsOf(b))
    decreases |a|
  {
    if a == [] {
      assert |multiset(b)| == 0;
    } else {
      SameElements(a, b, a[0]);
      var a' := Without(a, a[0]);
      var b' := Without(b, a[0]);
      PathsOfPermuted(a', b');
    }
  }

  /** The closing sort of ParseFilesMulti: unstable, by path. */
  method SortResults(out: seq<FileParseResult>) returns (results: seq<FileParseResult>)
    ensures multiset(results) == multiset(out) && SortedBy(PathLe, results)
  {
    PathLeIsTotalPreorder();
    results := SortSlice(PathLe, out);
  }

  /**
   * Whatever the completion order, the sorted results list the input
   * paths in string order, each as often as it was given.
   */
  lemma ResultsListThePaths(paths: seq<string>, size: nat, run: seq<Pool>, results: seq<FileParseResult>)
    requires IsRun(paths, size, run) && size >= 1 && !run[|run| - 1].collecting
    requires multiset(results) == multiset(run[|run| - 1].out) && SortedBy(PathLe, results)
    ensures PathsOf(results) == Sorted(StrLe, paths)
  {
    OneResultPerPath(paths, size, run);
    PathsOfPermuted(results, run[|run| - 1].out);
    PathsOfAt(results);
    StrLeIsTotalPreorder();
    SortedMultiset(StrLe, paths);
    SortedIsSorted(StrLe, paths);
    forall i, j | 0 <= i < j < |results| ensures StrLe(PathsOf(results)[i], PathsOf(results)[j]) {
      assert PathLe(results[i], results[j]);
    }
    SortedStringsUnique(PathsOf(results), Sorted(StrLe, paths));
  }
}
