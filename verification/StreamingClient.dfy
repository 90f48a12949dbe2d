/** `StreamingHttpDeliveryClient`: one open/send.../finalize cycle as the
    interleaving of the caller's steps and the worker thread's steps. */
module StreamingClient {
  import opened Bytes
  import opened Options

  datatype Item = Chunk(bytes: Bytes) | Sentinel

  /** Where the caller is: feeding chunks, joining the thread, past the join,
      past the check of `_exc`, or back from finalize(). */
  datatype Caller =
    | Feeding | Joining | CheckingError | CheckingResponse
    | Finalized(status: int) | Raised

  /** The worker inside httpx.post: pulling from the queue, waiting for the
      answer to a fully drained body, or done. */
  datatype Worker = Pulling | Drained | Ended

  /** `sent` and `received` are observations: chunks passed to send_chunk(), and
      chunks the generator yielded into the request. */
  datatype State = State(
    queue: seq<Item>, caller: Caller, worker: Worker,
    response: Option<int>, exc: Option<string>,
    sent: seq<Bytes>, received: seq<Bytes>)

  /** Right after open() started the thread. */
  const OPENED := State([], Feeding, Pulling, None, None, [], [])

  datatype Step =
    | SendChunk(chunk: Bytes)       // caller: queue.put(chunk)
    | PutSentinel                   // caller: finalize() starts
    | JoinReturns                   // caller: thread ended, or the join timed out
    | ReadError                     // caller: tests self._exc
    | ReadResponse                  // caller: tests self._response
    | Pull                          // worker: queue.get()
    | Answer(status: int)           // worker: post() returns
    | PostFails(category: string)   // worker: post() raises

  /** `patient`: the server answers only once it has drained the body. */
  predicate Enabled(s: State, step: Step, patient: bool) {
    match step
    case SendChunk(_) => s.caller == Feeding
    case PutSentinel => s.caller == Feeding
    case JoinReturns => s.caller == Joining
    case ReadError => s.caller == CheckingError
    case ReadResponse => s.caller == CheckingResponse
    case Pull => s.worker == Pulling && s.queue != []
    case Answer(_) => s.worker == Drained || (s.worker == Pulling && !patient)
    case PostFails(_) => s.worker != Ended
  }

  function Next(s: State, step: Step): State
    requires Enabled(s, step, false)
  {
    match step
    case SendChunk(chunk) => s.(queue := s.queue + [Chunk(chunk)], sent := s.sent + [chunk])
    case PutSentinel => s.(queue := s.queue + [Sentinel], caller := Joining)
    case JoinReturns => s.(caller := CheckingError)
    case ReadError => s.(caller := if s.exc.Some? then Raised else CheckingResponse)
    case ReadResponse =>
      s.(caller := match s.response
           case None => Raised
           case Some(status) => if status >= 400 then Raised else Finalized(status))
    case Pull =>
      (match s.queue[0]
       case Sentinel => s.(queue := s.queue[1..], worker := Drained)
       case Chunk(bytes) => s.(queue := s.queue[1..], received := s.received + [bytes]))
    case Answer(status) => s.(response := Some(status), worker := Ended)
    case PostFails(category) => s.(exc := Some(category), worker := Ended)
  }

  /** Plays a schedule from the opened client; None if a step is not possible
      where the schedule asks for it. */
  function Execute(steps: seq<Step>, patient: bool): Option<State> {
    if steps == [] then Some(OPENED)
    else
      var before := Execute(steps[..|steps| - 1], patient);
      if before.Some? && Enabled(before.value, steps[|steps| - 1], patient)
      then Some(Next(before.value, steps[|steps| - 1]))
      else None
  }

  predicate Runs(steps: seq<Step>, patient: bool) { Execute(steps, patient).Some? }

  function After(steps: seq<Step>, patient: bool): State
    requires Runs(steps, patient)
  { Execute(steps, patient).value }

  lemma OneMoreStep(steps: seq<Step>, step: Step, patient: bool)
    requires Runs(steps, patient) && Enabled(After(steps, patient), step, patient)
    ensures Runs(steps + [step], patient)
    ensures After(steps + [step], patient) == Next(After(steps, patient), step)
  {
  }

  /** The chunks queued ahead of the sentinel. */
  function QueuedChunks(queue: seq<Item>): seq<Bytes> {
    if queue == [] || queue[0].Sentinel? then [] else [queue[0].bytes] + QueuedChunks(queue[1..])
  }

  ghost predicate ChunksOnly(queue: seq<Item>) { forall item :: item in queue ==> item.Chunk? }

  /** Chunks, and then a single sentinel. */
  ghost predicate Terminated(queue: seq<Item>) {
    queue != [] && queue[|queue| - 1].Sentinel? && ChunksOnly(queue[..|queue| - 1])
  }

  /** No chunk is lost, duplicated or reordered; the sentinel is where it has to
      be; the worker's verdict fields are written once, at its end. */
  ghost predicate Inv(s: State, patient: bool) {
    && s.sent == s.received + QueuedChunks(s.queue)
    && (s.caller == Feeding ==> ChunksOnly(s.queue) && s.worker != Drained)
    && (s.caller != Feeding && s.worker == Pulling ==> Terminated(s.queue))
    && (s.worker == Drained ==> s.queue == [])
    && (s.response.Some? ==> s.worker == Ended && s.exc.None?)
    && (s.exc.Some? ==> s.worker == Ended)
    && (patient && s.response.Some? ==> s.caller != Feeding && s.queue == [])
    && (s.caller.Finalized? ==> s.response == Some(s.caller.status) && s.caller.status < 400)
  }

  lemma {:induction false} QueuedChunksAppend(queue: seq<Item>, item: Item)
    requires ChunksOnly(queue)
    ensures QueuedChunks(queue + [item])
      == QueuedChunks(queue) + (if item.Chunk? then [item.bytes] else [])
  {
    if queue != [] {
      assert (queue + [item])[1..] == queue[1..] + [item];
      assert queue[0] in queue;
      forall x | x in queue[1..] ensures x.Chunk? { assert x in queue; }
      QueuedChunksAppend(queue[1..], item);
    }
  }

  lemma SendKeepsInv(s: State, chunk: Bytes, patient: bool)
    requires Inv(s, patient) && Enabled(s, SendChunk(chunk), patient)
    ensures Inv(Next(s, SendChunk(chunk)), patient)
  {
    QueuedChunksAppend(s.queue, Chunk(chunk));
  }

  lemma SentinelKeepsInv(s: State, patient: bool)
    requires Inv(s, patient) && Enabled(s, PutSentinel, patient)
    ensures Inv(Next(s, PutSentinel), patient)
  {
    QueuedChunksAppend(s.queue, Sentinel);
    assert (s.queue + [Sentinel])[..|s.queue|] == s.queue;
  }

  lemma PullKeepsInv(s: State, patient: bool)
    requires Inv(s, patient) && Enabled(s, Pull, patient)
    ensures Inv(Next(s, Pull), patient)
  {
  }

  /** The steps that leave the queue alone. */
  lemma OtherStepKeepsInv(s: State, step: Step, patient: bool)
    requires !step.SendChunk? && !step.PutSentinel? && !step.Pull?
    requires Inv(s, patient) && Enabled(s, step, patient)
    ensures Inv(Next(s, step), patient)
  {
  }

  lemma StepKeepsInv(s: State, step: Step, patient: bool)
    requires Inv(s, patient) && Enabled(s, step, patient)
    ensures Inv(Next(s, step), patient)
  {
    match step {
      case SendChunk(chunk) => SendKeepsInv(s, chunk, patient);
      case PutSentinel => SentinelKeepsInv(s, patient);
      case Pull => PullKeepsInv(s, patient);
      case _ => OtherStepKeepsInv(s, step, patient);
    }
  }

  lemma {:induction false} RunKeepsInv(steps: seq<Step>, patient: bool)
    requires Runs(steps, patient)
    ensures Inv(After(steps, patient), patient)
  {
    if steps != [] {
      var before := steps[..|steps| - 1];
      RunKeepsInv(before, patient);
      StepKeepsInv(After(before, patient), steps[|steps| - 1], patient);
    }
  }

  /** Under every interleaving: what the worker took, followed by what is queued
      ahead of the sentinel, is what was sent, in order. */
  lemma NothingIsLostInTransit(steps: seq<Step>, patient: bool)
    requires Runs(steps, patient)
    ensures var s := After(steps, patient);
      s.sent == s.received + QueuedChunks(s.queue)
  {
    RunKeepsInv(steps, patient);
  }

  /** The worker can wait on an empty queue only while the sentinel is still to come. */
  lemma WorkerBlocksOnlyBeforeSentinel(steps: seq<Step>, patient: bool)
    requires Runs(steps, patient)
    ensures var s := After(steps, patient);
      s.worker == Pulling && s.queue == [] ==> PutSentinel !in steps
  {
    RunKeepsInv(steps, patient);
    FeedingMeansNoSentinel(steps, patient);
  }

  lemma {:induction false} FeedingMeansNoSentinel(steps: seq<Step>, patient: bool)
    requires Runs(steps, patient)
    ensures After(steps, patient).caller == Feeding <==> PutSentinel !in steps
  {
    if steps != [] {
      FeedingMeansNoSentinel(steps[..|steps| - 1], patient);
      assert steps == steps[..|steps| - 1] + [steps[|steps| - 1]];
    }
  }

  function Pulls(n: nat): seq<Step> { seq(n, i => Pull) }

  /** ... and once it has come, the worker drains the body by its own steps
      alone: as many pulls as there are items. */
  lemma {:induction false} WorkerDrainsUnaided(steps: seq<Step>, patient: bool, n: nat)
    requires Runs(steps, patient) && PutSentinel in steps
    requires After(steps, patient).worker == Pulling && |After(steps, patient).queue| == n
    ensures Runs(steps + Pulls(n), patient)
    ensures var s := After(steps + Pulls(n), patient);
      s.worker == Drained && s.received == s.sent == After(steps, patient).sent
    decreases n
  {
    var s := After(steps, patient);
    RunKeepsInv(steps, patient);
    FeedingMeansNoSentinel(steps, patient);
    var more := steps + [Pull];
    OneMoreStep(steps, Pull, patient);
    StepKeepsInv(s, Pull, patient);
    if n == 1 {
      assert Pulls(1) == [Pull];
      assert s.queue[0] == s.queue[|s.queue| - 1];
    } else {
      assert s.queue[0] == s.queue[..n - 1][0] && s.queue[0] in s.queue[..n - 1];
      WorkerDrainsUnaided(more, patient, n - 1);
      assert more + Pulls(n - 1) == steps + Pulls(n);
    }
  }

  /** How many steps of a schedule are of one kind. */
  function Count(steps: seq<Step>, kind: Step -> bool): nat {
    if steps == [] then 0
    else Count(steps[..|steps| - 1], kind) + if kind(steps[|steps| - 1]) then 1 else 0
  }

  function Sends(steps: seq<Step>): nat { Count(steps, (step: Step) => step.SendChunk?) }

  function PullsIn(steps: seq<Step>): nat { Count(steps, (step: Step) => step.Pull?) }

  /** Every send step adds a chunk; every pull takes one, except for the pull
      that finds the sentinel, and by then the whole body has been taken. */
  lemma {:induction false} StepsAreCounted(steps: seq<Step>, patient: bool)
    requires Runs(steps, patient)
    ensures var s := After(steps, patient);
      && Sends(steps) == |s.sent|
      && (|| PullsIn(steps) == |s.received|
          || (PullsIn(steps) == |s.received| + 1 && s.caller != Feeding && s.queue == []))
  {
    if steps != [] {
      var before := steps[..|steps| - 1];
      StepsAreCounted(before, patient);
      RunKeepsInv(before, patient);
      if steps[|steps| - 1] == Pull {
        SentinelIsLast(After(before, patient), patient);
      }
    }
  }

  /** What the worker finds at the head of the queue. */
  lemma SentinelIsLast(s: State, patient: bool)
    requires Inv(s, patient) && Enabled(s, Pull, patient)
    ensures s.queue[0].Sentinel? ==> s.caller != Feeding && s.queue[1..] == []
  {
    assert s.queue[0] in s.queue;
    if s.caller != Feeding && |s.queue| > 1 {
      var chunks := s.queue[..|s.queue| - 1];
      assert chunks[0] in chunks;
    }
  }

  /** The server has the whole payload exactly when the schedule pulled at least
      as often as it sent: after a finalize() that returns, and at any time. */
  lemma DeliveredIffPulled(steps: seq<Step>, patient: bool)
    requires Runs(steps, patient)
    ensures var s := After(steps, patient);
      s.received == s.sent <==> PullsIn(steps) >= Sends(steps)
  {
    RunKeepsInv(steps, patient);
    StepsAreCounted(steps, patient);
  }

  // ---------------------------------------------------------------------
  // How finalize() ends
  // ---------------------------------------------------------------------

  /** The post has neither returned nor raised. */
  ghost predicate Unanswered(steps: seq<Step>) {
    forall step :: step in steps ==> !step.Answer? && !step.PostFails?
  }

  lemma StepsSnoc(steps: seq<Step>, step: Step)
    ensures forall x :: x in steps + [step] <==> x in steps || x == step
    ensures Unanswered(steps + [step]) <==> Unanswered(steps) && !step.Answer? && !step.PostFails?
  {
    assert forall x :: x in steps ==> x in steps + [step];
    assert step in steps + [step];
  }

  /** What the worker leaves behind is what its post came to: the status it
      returned, or that it raised; never both, and never twice. */
  ghost predicate LeavesOutcome(s: State, steps: seq<Step>) {
    && (s.worker != Ended <==> Unanswered(steps))
    && (forall status :: s.response == Some(status) <==> Answer(status) in steps)
    && (forall category :: s.exc == Some(category) <==> PostFails(category) in steps)
  }

  lemma StepLeavesOutcome(s: State, steps: seq<Step>, step: Step, patient: bool)
    requires Inv(s, patient) && LeavesOutcome(s, steps) && Enabled(s, step, patient)
    ensures LeavesOutcome(Next(s, step), steps + [step])
  {
    StepsSnoc(steps, step);
  }

  lemma {:induction false} PostEndsOnce(steps: seq<Step>, patient: bool)
    requires Runs(steps, patient)
    ensures LeavesOutcome(After(steps, patient), steps)
  {
    if steps != [] {
      var init, last := steps[..|steps| - 1], steps[|steps| - 1];
      PostEndsOnce(init, patient);
      RunKeepsInv(init, patient);
      assert steps == init + [last];
      StepLeavesOutcome(After(init, patient), init, last, patient);
    }
  }

  /** finalize() raises at its first test exactly when the post has raised by
      then. */
  lemma ErrorRaisesIff(steps: seq<Step>, patient: bool)
    requires Runs(steps, patient) && steps != [] && steps[|steps| - 1] == ReadError
    ensures var s := After(steps, patient);
      && (s.caller == Raised <==> exists category :: PostFails(category) in steps)
      && (s.caller == CheckingResponse <==> forall category :: PostFails(category) !in steps)
  {
    var init := steps[..|steps| - 1];
    PostEndsOnce(init, patient);
    assert steps == init + [ReadError];
    StepsSnoc(init, ReadError);
  }

  /** Past that test it returns a status exactly when the post has returned it and
      it is below 400, and raises otherwise: for a 4xx or 5xx, and for want of an
      answer. */
  lemma FinalizeReturnsIff(steps: seq<Step>, patient: bool)
    requires Runs(steps, patient) && steps != [] && steps[|steps| - 1] == ReadResponse
    ensures var s := After(steps, patient);
      && (forall status :: s.caller == Finalized(status) <==> status < 400 && Answer(status) in steps)
      && (s.caller == Raised <==> forall status :: Answer(status) in steps ==> status >= 400)
  {
    var init := steps[..|steps| - 1];
    PostEndsOnce(init, patient);
    assert steps == init + [ReadResponse];
    StepsSnoc(init, ReadResponse);
    var response := After(init, patient).response;
    if response.Some? { assert Answer(response.value) in steps; }
  }

  /** The run has come to a finalize() that returned. */
  ghost predicate Finalizes(steps: seq<Step>, patient: bool) {
    Runs(steps, patient) && After(steps, patient).caller.Finalized?
  }

  /** A finalize() that returns hands on the status of the answer; and if the
      server answers only a drained body, it has the whole payload, even after a
      join timeout. */
  lemma FinalizedMeansDelivered(steps: seq<Step>, patient: bool)
    requires Finalizes(steps, patient)
    ensures var s := After(steps, patient);
      && s.response == Some(s.caller.status) && s.caller.status < 400
      && (patient ==> s.received == s.sent)
  {
    RunKeepsInv(steps, patient);
  }

  /** Every finalize() that returns means delivery exactly when the server is one
      that answers only a drained body. */
  lemma EveryFinalizeDeliversIff(patient: bool)
    ensures patient <==>
      forall steps :: Finalizes(steps, patient) ==> After(steps, patient).received == After(steps, patient).sent
  {
    if patient {
      forall steps | Finalizes(steps, patient)
        ensures After(steps, patient).received == After(steps, patient).sent
      {
        FinalizedMeansDelivered(steps, patient);
      }
    } else {
      EarlyAnswerLosesChunks([]);
      assert Finalizes(EarlyAnswer([]), patient);
    }
  }

  function EarlyAnswer(chunk: Bytes): seq<Step> {
    [SendChunk(chunk), Answer(200), PutSentinel, JoinReturns, ReadError, ReadResponse]
  }

  /** The proviso is needed: an early answer lets finalize() return with a chunk
      the server never saw. */
  lemma EarlyAnswerLosesChunks(chunk: Bytes)
    ensures var steps := EarlyAnswer(chunk);
      && Runs(steps, false)
      && After(steps, false).caller == Finalized(200)
      && After(steps, false).received != After(steps, false).sent
  {
    var steps := EarlyAnswer(chunk);
    var s0 := Next(OPENED, SendChunk(chunk));
    assert s0.sent == [chunk];
    assert [] + [steps[0]] == [steps[0]] && [steps[0]] + [steps[1]] == steps[..2];
    assert steps[..2] + [steps[2]] == steps[..3] && steps[..3] + [steps[3]] == steps[..4];
    assert steps[..4] + [steps[4]] == steps[..5] && steps[..5] + [steps[5]] == steps;
    OneMoreStep([], steps[0], false);
    OneMoreStep([steps[0]], steps[1], false);
    OneMoreStep(steps[..2], steps[2], false);
    OneMoreStep(steps[..3], steps[3], false);
    OneMoreStep(steps[..4], steps[4], false);
    OneMoreStep(steps[..5], steps[5], false);
  }
}
