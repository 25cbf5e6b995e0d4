/** PythonWorker.Call as a step system: request ids, response matching, and poisoning on corruption. */
module WorkerProtocol {
  import opened Domain
  import opened Paths
  import opened FrameReader

  /** Request ids are 64-bit and wrap around. */
  const WIDTH: nat := 0x1_0000_0000_0000_0000

  type Payload = seq<byte>

  datatype Response = Response(id: nat, result: Payload, isError: bool)

  type Decoder = seq<byte> -> Option<Response>

  /** What ends a call that holds the lock. The frame read is whatever the worker sent. */
  datatype Event = MarshalFailed | WriteFailed | ReadEnded(read: ReadResult) | TimedOut

  datatype CallResult = Success(payload: Payload) | Failure

  /** The reader goroutine's result and whether it is marked as corruption. */
  function Judge(decode: Decoder, id: nat, read: ReadResult): (CallResult, bool) {
    match read
    case TooLarge => (Failure, true)
    case _ =>
      if read.Tail? && read.bytes == [] then (Failure, false)
      else
        match decode(read.bytes)
        case None => (Failure, true)
        case Some(resp) =>
          if resp.id != id then (Failure, true)
          else if resp.isError then (Failure, false)
          else (Success(resp.result), false)
  }

  function ResultOf(decode: Decoder, id: nat, event: Event): CallResult {
    if event.ReadEnded? then Judge(decode, id, event.read).0 else Failure
  }

  /** The call terminates the worker. */
  predicate Poisons(decode: Decoder, id: nat, event: Event) {
    event.TimedOut? || (event.ReadEnded? && Judge(decode, id, event.read).1)
  }

  /** The call read a frame: a terminated one, or a last one that is not empty. */
  predicate GotFrame(event: Event) {
    event.ReadEnded? && !event.read.TooLarge? && (event.read.Tail? ==> event.read.bytes != [])
  }

  /**
   * A call succeeds exactly when its frame decodes to a non-error response with its own id, and returns that payload.
   */
  lemma SuccessIsOwnFrame(decode: Decoder, id: nat, event: Event, payload: Payload)
    ensures ResultOf(decode, id, event) == Success(payload) <==>
            GotFrame(event) && decode(event.read.bytes) == Some(Response(id, payload, false))
  {}

  /**
   * Out of step with the worker: a timeout, an oversized frame, or one that does not decode to a response to this call.
   */
  predicate OutOfStep(decode: Decoder, id: nat, event: Event) {
    || event.TimedOut?
    || (event.ReadEnded? && event.read.TooLarge?)
    || (GotFrame(event) && !(decode(event.read.bytes).Some? && decode(event.read.bytes).value.id == id))
  }

  /** These and nothing else poison; a well-formed error addressed to the call does not. */
  lemma WhatPoisons(decode: Decoder, id: nat, event: Event)
    ensures Poisons(decode, id, event) <==> OutOfStep(decode, id, event)
  {}

  // ----- The worker and its callers

  /** A call checks `closed` before it queues for the lock; it gets its id with the lock. */
  datatype Phase = Refused | Queued | Running(id: nat) | Returned(id: nat, event: Event)

  /** `acquired` lists the calls in the order in which they got the lock; a call without a phase has not started. */
  datatype Worker = Worker(phases: map<nat, Phase>, closed: bool, holder: Option<nat>, nextID: nat, acquired: seq<nat>)

  const FRESH := Worker(map[], false, None, 0, [])

  datatype Step = Start(c: nat) | Acquire(c: nat) | Finish(c: nat, event: Event) | CloseWorker

  ghost predicate Next(decode: Decoder, s: Worker, step: Step, t: Worker) {
    match step
    case Start(c) =>
      c !in s.phases && t == s.(phases := s.phases[c := if s.closed then Refused else Queued])
    case Acquire(c) =>
      c in s.phases && s.phases[c] == Queued && s.holder.None?
      && var id := (s.nextID + 1) % WIDTH;
         t == s.(phases := s.phases[c := Running(id)], holder := Some(c), nextID := id, acquired := s.acquired + [c])
    case Finish(c, event) =>
      c in s.phases && s.phases[c].Running? && s.holder == Some(c)
      && var id := s.phases[c].id;
         t == s.(phases := s.phases[c := Returned(id, event)], holder := None,
                 closed := s.closed || Poisons(decode, id, event))
    case CloseWorker => t == s.(closed := true)
  }

  ghost predicate IsRun(decode: Decoder, run: seq<Worker>, steps: seq<Step>) {
    && |run| == |steps| + 1 && run[0] == FRESH
    && forall i :: 0 <= i < |steps| ==> Next(decode, run[i], steps[i], run[i + 1])
  }

  // ----- What every step keeps

  predicate HasID(s: Worker, c: nat) {
    c in s.phases && (s.phases[c].Running? || s.phases[c].Returned?)
  }

  function IDOf(s: Worker, c: nat): nat
    requires HasID(s, c)
  {
    s.phases[c].id
  }

  /** The k-th call to get the lock carries the id k+1, modulo the counter's width. */
  ghost predicate Invariant(s: Worker) {
    && Distinct(s.acquired)
    && s.nextID == |s.acquired| % WIDTH
    && (forall c :: c in s.acquired <==> HasID(s, c))
    && (forall k :: 0 <= k < |s.acquired| && HasID(s, s.acquired[k]) ==> IDOf(s, s.acquired[k]) == (k + 1) % WIDTH)
  }

  lemma StepKeeps(decode: Decoder, s: Worker, step: Step, t: Worker)
    requires Invariant(s) && Next(decode, s, step, t)
    ensures Invariant(t)
  {
    assert (|s.acquired| % WIDTH + 1) % WIDTH == (|s.acquired| + 1) % WIDTH;
    match step
    case Acquire(c) =>
      assert c !in s.acquired;
      forall x ensures x in t.acquired <==> HasID(t, x) {
        assert x in s.acquired <==> HasID(s, x);
      }
      forall k | 0 <= k < |t.acquired| && HasID(t, t.acquired[k])
        ensures IDOf(t, t.acquired[k]) == (k + 1) % WIDTH
      {
        if k < |s.acquired| {
          assert s.acquired[k] in s.acquired;
        }
      }
    case _ =>
      forall x ensures x in t.acquired <==> HasID(t, x) {
        assert x in s.acquired <==> HasID(s, x);
      }
  }

  lemma {:induction false} RunKeeps(decode: Decoder, run: seq<Worker>, steps: seq<Step>, i: nat)
    requires IsRun(decode, run, steps) && i < |run|
    ensures Invariant(run[i])
  {
    if i > 0 {
      RunKeeps(decode, run, steps, i - 1);
      assert Next(decode, run[i - 1], steps[i - 1], run[i - 1 + 1]);
      StepKeeps(decode, run[i - 1], steps[i - 1], run[i]);
    }
  }

  // ----- Main results

  /** The step ends a call out of step with the worker. */
  predicate PoisonedBy(decode: Decoder, s: Worker, step: Step) {
    step.Finish? && HasID(s, step.c) && OutOfStep(decode, IDOf(s, step.c), step.event)
  }

  /** Ids are not reused: two calls of one run share an id only if a multiple of 2^64 other calls lies between them. */
  lemma IDsAreNotReused(decode: Decoder, run: seq<Worker>, steps: seq<Step>, n: nat, i: nat, j: nat)
    requires IsRun(decode, run, steps) && n < |run| && i < j < |run[n].acquired|
    ensures run[n].acquired[i] != run[n].acquired[j]
    ensures HasID(run[n], run[n].acquired[i]) && HasID(run[n], run[n].acquired[j])
    ensures IDOf(run[n], run[n].acquired[i]) == IDOf(run[n], run[n].acquired[j]) <==> (j - i) % WIDTH == 0
  {
    RunKeeps(decode, run, steps, n);
    assert run[n].acquired[i] in run[n].acquired && run[n].acquired[j] in run[n].acquired;
    SameRemainder(i + 1, j + 1);
  }

  lemma SameRemainder(a: nat, b: nat)
    requires a <= b
    ensures a % WIDTH == b % WIDTH <==> (b - a) % WIDTH == 0
  {}

  lemma NoOtherCallHasTheID(s: Worker, c: nat)
    requires Invariant(s) && |s.acquired| <= WIDTH && HasID(s, c)
    ensures forall d :: d != c && HasID(s, d) ==> IDOf(s, d) != IDOf(s, c)
  {
    forall d | d != c && HasID(s, d) ensures IDOf(s, d) != IDOf(s, c) {
      assert c in s.acquired && d in s.acquired;
      var i: nat :| i < |s.acquired| && s.acquired[i] == c;
      var j: nat :| j < |s.acquired| && s.acquired[j] == d;
      SameRemainder(if i < j then i + 1 else j + 1, if i < j then j + 1 else i + 1);
    }
  }

  /**
   * Over any run of up to 2^64 calls, a call that returned a result read a frame that carries the call's own id and
   * that payload, and no other call of the run has that id.
   */
  lemma ResultBelongsToItsCall(decode: Decoder, run: seq<Worker>, steps: seq<Step>, n: nat, c: nat, payload: Payload)
    requires IsRun(decode, run, steps) && n < |run| && |run[n].acquired| <= WIDTH
    requires c in run[n].phases && run[n].phases[c].Returned?
    requires ResultOf(decode, run[n].phases[c].id, run[n].phases[c].event) == Success(payload)
    ensures decode(run[n].phases[c].event.read.bytes) == Some(Response(run[n].phases[c].id, payload, false))
    ensures forall d :: d != c && HasID(run[n], d) ==> IDOf(run[n], d) != run[n].phases[c].id
  {
    RunKeeps(decode, run, steps, n);
    SuccessIsOwnFrame(decode, run[n].phases[c].id, run[n].phases[c].event, payload);
    NoOtherCallHasTheID(run[n], c);
  }

  /** Someone closed the worker, or a call ended out of step with it, in one of the first n steps. */
  ghost predicate Ended(decode: Decoder, run: seq<Worker>, steps: seq<Step>, n: nat)
    requires |run| == |steps| + 1 && n <= |steps|
  {
    exists i :: 0 <= i < n && (steps[i].CloseWorker? || PoisonedBy(decode, run[i], steps[i]))
  }

  /** The worker is closed exactly when it was closed by a caller or poisoned by a call. */
  lemma {:induction false} ClosedExactlyByPoison(decode: Decoder, run: seq<Worker>, steps: seq<Step>, n: nat)
    requires IsRun(decode, run, steps) && n < |run|
    ensures run[n].closed <==> Ended(decode, run, steps, n)
  {
    if n > 0 {
      ClosedExactlyByPoison(decode, run, steps, n - 1);
      assert Next(decode, run[n - 1], steps[n - 1], run[n - 1 + 1]);
      if steps[n - 1].Finish? {
        WhatPoisons(decode, run[n - 1].phases[steps[n - 1].c].id, steps[n - 1].event);
      }
      if run[n].closed && !run[n - 1].closed {
        assert steps[n - 1].CloseWorker? || PoisonedBy(decode, run[n - 1], steps[n - 1]);
      }
    }
  }

  /**
   * A call is refused exactly when it starts after the worker was closed or poisoned; the answer never changes later.
   */
  lemma {:induction false} RefusedIff(decode: Decoder, run: seq<Worker>, steps: seq<Step>, j: nat, k: nat)
    requires IsRun(decode, run, steps) && j < k < |run| && steps[j].Start?
    ensures steps[j].c in run[k].phases
    ensures run[k].phases[steps[j].c].Refused? <==> Ended(decode, run, steps, j)
  {
    assert Next(decode, run[j], steps[j], run[j + 1]);
    if k == j + 1 {
      ClosedExactlyByPoison(decode, run, steps, j);
    } else {
      RefusedIff(decode, run, steps, j, k - 1);
      assert Next(decode, run[k - 1], steps[k - 1], run[k - 1 + 1]);
    }
  }

  /** The check comes before the lock: a call already queued still goes ahead on a worker closed in the meantime. */
  lemma QueuedCallOutlivesClose(decode: Decoder)
    ensures exists run: seq<Worker>, steps: seq<Step> :: IsRun(decode, run, steps)
              && run[|run| - 1].closed && run[|run| - 1].holder == Some(2)
  {
    var s0 := FRESH;
    var s1 := s0.(phases := map[1 := Queued]);
    var s2 := s1.(phases := map[1 := Queued, 2 := Queued]);
    var s3 := s2.(phases := map[1 := Running(1), 2 := Queued], holder := Some(1), nextID := 1, acquired := [1]);
    var s4 := s3.(phases := map[1 := Returned(1, TimedOut), 2 := Queued], holder := None, closed := true);
    var s5 := s4.(phases := map[1 := Returned(1, TimedOut), 2 := Running(2)], holder := Some(2), nextID := 2,
                  acquired := [1, 2]);
    var run := [s0, s1, s2, s3, s4, s5];
    var steps := [Start(1), Start(2), Acquire(1), Finish(1, TimedOut), Acquire(2)];
    assert Next(decode, s0, steps[0], s1);
    assert Next(decode, s1, steps[1], s2);
    assert Next(decode, s2, steps[2], s3);
    assert Next(decode, s3, steps[3], s4);
    assert Next(decode, s4, steps[4], s5);
    assert IsRun(decode, run, steps);
  }
}
