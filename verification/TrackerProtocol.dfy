/** The three threads of the Linux port tracker as one transition system: the
    seccomp dispatcher (SecCompDispatcher.cpp), the tracker's main loop and its
    refresh worker (GnsPortTracker.cpp). They meet in two one-place slots
    (waitablevalue.h) and in a promise that is replaced after every use. Library
    calls are atomic steps; any thread that can move may move next. */
module TrackerProtocol {
  import opened PortAllocations
  import opened Wrappers

  // ---------------------------------------------------------------- the slot

  /** WaitableValue: `post` and `get` as the attempts they make each time they hold the lock. */
  class WaitableValue<T> {
    var value: Option<T>

    constructor ()
      ensures value == None
    {
      value := None;
    }

    /** One pass of post's loop; it waits again while the slot is full. */
    method Post(v: T) returns (done: bool)
      modifies this
      ensures done <==> old(value).None?
      ensures value == if done then Some(v) else old(value)
    {
      if value.Some? {
        return false;
      }
      value := Some(v);
      return true;
    }

    /** One pass of get's or try_get's loop. */
    method Get() returns (taken: Option<T>)
      modifies this
      ensures taken == old(value) && value == None
    {
      taken := value;
      if value.Some? {
        value := None;
      }
    }
  }

  // ---------------------------------------------------------------- states

  /** `handled`: the tracker's handler is registered for the system call. */
  datatype Notification = Notification(id: nat, handled: bool)

  datatype Verdict = Verdict(notification: Notification, result: int)

  datatype Response = Response(id: nat, error: int, proceed: bool)

  /** The reply SecCompDispatcher::Run fills in. */
  function Respond(n: Notification, result: int): Response {
    Response(n.id, -result, result == 0)
  }

  datatype Dispatcher =
    | Receiving
    | Posting(call: Notification)
    | Awaiting(call: Notification)
    | Responding(call: Notification, result: int)

  datatype Main =
    | Starting                                      // before the first get_future
    | Reading                                       // ReadNextRequest
    | Handling(call: Notification)                  // HandleRequest
    | Replying(call: Notification, result: int)     // CompleteRequest
    | Checking                                      // is a snapshot ready?
    | Resetting                                     // taken; the future is dropped next
    | Renewing                                      // the promise is replaced next
    | Applying                                      // OnRefreshAllocatedPorts unless a bind was handled
    | Deciding                                      // is there anything to deallocate?
    | Resuming                                      // a new future is held; the worker is woken next
    | Clearing                                      // refreshResult.reset()

  datatype Worker =
    | Creating      // a new local promise `resume`
    | Listing       // ListAllocatedPorts
    | Publishing    // set_value on the shared promise
    | TakingFuture  // resume.get_future()
    | Waiting       // .wait()
    | Sleeping

  /** m_allocatedPortsRefresh: its shared state, by generation. The value is the round of the worker that set it. */
  datatype Shared = Shared(generation: nat, value: Option<nat>, futureTaken: bool)

  /** The worker's local promise of the current round. */
  datatype Resume = Resume(alive: bool, satisfied: bool, futureTaken: bool)

  /** What the C++ library answers with an exception or undefined behaviour. */
  datatype Fault = PromiseAlreadySatisfied | FutureAlreadyRetrieved | DanglingResume

  /** What the dispatcher and the main loop share, and its history. */
  datatype Desk = Desk(
    dispatcher: Dispatcher,
    request: Option<Notification>,
    reply: Option<int>,
    received: seq<Notification>,
    verdicts: seq<Verdict>,
    replies: seq<int>,
    responses: seq<Response>
  )

  /** What the main loop and the refresh worker share, and its history. */
  datatype Exchange = Exchange(
    future: Option<nat>,       // generation whose future main holds
    refresh: Option<nat>,      // round of the refreshResult main holds
    shared: Shared,
    worker: Worker,
    round: nat,
    resume: Resume,
    applied: seq<nat>,         // rounds whose snapshot was applied
    resumed: seq<nat>,         // rounds whose resume was called
    faults: set<Fault>
  )

  datatype System = System(
    main: Main,
    bound: bool,               // this iteration has a bind call
    judged: nat,               // verdicts given before this iteration
    tracking: bool,            // m_allocatedPorts is not empty
    desk: Desk,
    exchange: Exchange
  )

  ghost predicate Init(s: System) {
    s == System(Starting, false, 0, false,
                Desk(Receiving, None, None, [], [], [], []),
                Exchange(None, None, Shared(0, None, false), Creating, 0, Resume(false, false, false), [], [], {}))
  }

  // ---------------------------------------------------------------- steps

  /** A notification and an unhandled call's result come from outside. */
  ghost predicate DispatcherStep(d: Desk, d': Desk, n: Notification, result: int) {
    match d.dispatcher
    case Receiving =>
      && d' == d.(dispatcher := if n.handled then Posting(n) else Responding(n, result), received := d.received + [n])
    case Posting(call) =>
      && d.request == None
      && d' == d.(request := Some(call), dispatcher := Awaiting(call))
    case Awaiting(call) =>
      && d.reply.Some?
      && d' == d.(reply := None, replies := d.replies + [d.reply.value], dispatcher := Responding(call, d.reply.value))
    case Responding(call, r) =>
      && d' == d.(responses := d.responses + [Respond(call, r)], dispatcher := Receiving)
  }

  /** get_future on the shared promise. */
  function TakeFuture(x: Exchange): Exchange {
    x.(future := Some(x.shared.generation),
       shared := x.shared.(futureTaken := true),
       faults := if x.shared.futureTaken then x.faults + {FutureAlreadyRetrieved} else x.faults)
  }

  /** refreshResult->Resume(): set_value through a pointer to the worker's local. */
  function CallResume(x: Exchange, round: nat): Exchange {
    x.(resume := x.resume.(satisfied := true),
       resumed := x.resumed + [round],
       faults := x.faults
                 + (if !x.resume.alive || round != x.round then {DanglingResume} else {})
                 + (if x.resume.satisfied then {PromiseAlreadySatisfied} else {}))
  }

  /** The snapshot is in the shared state whose future main holds. */
  predicate SnapshotReady(x: Exchange) {
    x.future.Some? && x.future.value == x.shared.generation && x.shared.value.Some?
  }

  /** The part of the main loop that deals with bind calls. */
  ghost predicate BindStep(s: System, s': System, result: int, flag: bool) {
    var d := s.desk;
    match s.main
    case Reading =>
      // try_get may time out even if a request arrives meanwhile
      || (d.request.Some? && s' == s.(desk := d.(request := None), main := Handling(d.request.value),
                                    bound := true, judged := |d.verdicts|))
      || s' == s.(main := Checking, bound := false, judged := |d.verdicts|)
    case Handling(call) =>
      // a granted bind leaves something tracked
      s' == s.(desk := d.(verdicts := d.verdicts + [Verdict(call, result)]), main := Replying(call, result),
               tracking := s.tracking || flag)
    case Replying(call, r) =>
      && d.reply == None
      && s' == s.(desk := d.(reply := Some(r)), main := Checking)
    case _ => false
  }

  /** The part of the main loop that deals with snapshots. */
  ghost predicate SnapshotStep(s: System, s': System, flag: bool) {
    var x := s.exchange;
    match s.main
    case Starting =>
      s' == s.(exchange := TakeFuture(x), main := Reading)
    case Checking =>
      if SnapshotReady(x) then s' == s.(exchange := x.(refresh := x.shared.value), main := Resetting)
      else s' == s.(main := Deciding)
    case Resetting =>
      s' == s.(exchange := x.(future := None), main := Renewing)
    case Renewing =>
      s' == s.(exchange := x.(shared := Shared(x.shared.generation + 1, None, false)), main := Applying)
    case Applying =>
      if s.bound then s' == s.(main := Deciding)
      else
        && x.refresh.Some?
        && s' == s.(exchange := x.(applied := x.applied + [x.refresh.value]), main := Deciding, tracking := s.tracking && flag)
    case Deciding =>
      if x.refresh.Some? && s.tracking then s' == s.(exchange := TakeFuture(x), main := Resuming)
      else s' == s.(main := Reading)
    case Resuming =>
      && x.refresh.Some?
      && s' == s.(exchange := CallResume(x, x.refresh.value), main := Clearing)
    case Clearing =>
      s' == s.(exchange := x.(refresh := None), main := Reading)
    case _ => false
  }

  ghost predicate WorkerStep(x: Exchange, x': Exchange, flag: bool) {
    match x.worker
    case Creating =>
      x' == x.(round := x.round + 1, resume := Resume(true, false, false), worker := Listing)
    case Listing =>
      // a failed listing unwinds and destroys `resume`
      if flag then x' == x.(worker := Publishing)
      else x' == x.(resume := x.resume.(alive := false), worker := Sleeping)
    case Publishing =>
      x' == x.(shared := x.shared.(value := Some(x.round)),
               faults := if x.shared.value.Some? then x.faults + {PromiseAlreadySatisfied} else x.faults,
               worker := TakingFuture)
    case TakingFuture =>
      x' == x.(resume := x.resume.(futureTaken := true),
               faults := if x.resume.futureTaken then x.faults + {FutureAlreadyRetrieved} else x.faults,
               worker := Waiting)
    case Waiting =>
      && x.resume.satisfied
      && x' == x.(resume := x.resume.(alive := false), worker := Sleeping)
    case Sleeping =>
      x' == x.(worker := Creating)
  }

  datatype Label =
    | Dispatch(n: Notification, result: int)
    | Bind(result: int, flag: bool)
    | Snapshot(flag: bool)
    | Refresh(flag: bool)

  ghost predicate Step(s: System, s': System, l: Label) {
    match l
    case Dispatch(n, result) => DispatcherStep(s.desk, s'.desk, n, result) && s' == s.(desk := s'.desk)
    case Bind(result, flag) => BindStep(s, s', result, flag)
    case Snapshot(flag) => SnapshotStep(s, s', flag)
    case Refresh(flag) => WorkerStep(s.exchange, s'.exchange, flag) && s' == s.(exchange := s'.exchange)
  }

  // ---------------------------------------------------------------- the refresh invariant

  /** The worker has published its snapshot and has not been woken. */
  predicate Parked(x: Exchange) {
    (x.worker.TakingFuture? || x.worker.Waiting?) && !x.resume.satisfied
  }

  ghost predicate Increasing(q: seq<nat>) {
    forall i, j :: 0 <= i < j < |q| ==> q[i] < q[j]
  }

  ghost predicate Below(q: seq<nat>, n: nat) {
    forall i :: 0 <= i < |q| ==> q[i] < n
  }

  /** main holds a snapshot whose worker is still parked. */
  predicate Holding(main: Main, x: Exchange) {
    x.refresh.Some? && !main.Clearing?
  }

  ghost predicate WorkerInv(x: Exchange) {
    && x.faults == {}
    && (x.resume.alive <==> !x.worker.Creating? && !x.worker.Sleeping?)
    && (x.worker.Listing? || x.worker.Publishing? ==> !x.resume.satisfied && !x.resume.futureTaken)
    && (x.worker.TakingFuture? ==> !x.resume.futureTaken)
  }

  /** Where the published snapshot is while the worker is parked, and whose future main has. */
  ghost predicate HandoverInv(main: Main, x: Exchange) {
    && (x.shared.value.Some? ==> Parked(x) && x.shared.value == Some(x.round))
    && (Holding(main, x) ==> Parked(x) && x.refresh == Some(x.round))
    && (Parked(x) ==> x.shared.value.Some? || Holding(main, x))
    && (x.future.Some? ==> x.future == Some(x.shared.generation) && x.shared.futureTaken)
    && StageInv(main, x)
  }

  /** What main holds at each place of its loop. */
  ghost predicate StageInv(main: Main, x: Exchange) {
    match main
    case Starting => x.refresh == None && x.future == None && !x.shared.futureTaken
    case Resetting => x.refresh.Some? && x.future.Some? && x.shared.value.Some?
    case Renewing => x.refresh.Some? && x.future == None && x.shared.value.Some?
    case Applying => x.refresh.Some? && x.future == None && x.shared.value == None && !x.shared.futureTaken
    case Resuming => x.refresh.Some? && x.future.Some? && x.shared.value == None
    case Clearing => x.refresh.Some? && x.future.Some?
    case _ => if x.refresh.None? then x.future.Some?
              else x.future == None && x.shared.value == None && !x.shared.futureTaken
  }

  ghost predicate HistoryInv(main: Main, x: Exchange) {
    && Increasing(x.applied) && Increasing(x.resumed)
    && Below(x.applied, x.round + 1) && Below(x.resumed, x.round + 1)
    && (x.worker.Listing? || x.worker.Publishing? || x.shared.value.Some? ==> Below(x.applied, x.round))
    && (main.Applying? ==> Below(x.applied, x.round))
    && (x.worker.Listing? || x.worker.Publishing? || Parked(x) ==> Below(x.resumed, x.round))
  }

  ghost predicate RefreshInv(s: System) {
    WorkerInv(s.exchange) && HandoverInv(s.main, s.exchange) && HistoryInv(s.main, s.exchange)
  }

  lemma BindKeepsRefresh(s: System, s': System, result: int, flag: bool)
    requires RefreshInv(s) && BindStep(s, s', result, flag)
    ensures RefreshInv(s')
  {
  }

  lemma SnapshotKeepsWorker(s: System, s': System, flag: bool)
    requires WorkerInv(s.exchange) && HandoverInv(s.main, s.exchange) && SnapshotStep(s, s', flag)
    ensures WorkerInv(s'.exchange)
  {
  }

  lemma ResumedKeepsHandover(x: Exchange)
    requires HandoverInv(Resuming, x)
    ensures HandoverInv(Clearing, CallResume(x, x.round))
  {
  }

  lemma SnapshotKeepsHandover(s: System, s': System, flag: bool)
    requires WorkerInv(s.exchange) && HandoverInv(s.main, s.exchange) && SnapshotStep(s, s', flag)
    ensures HandoverInv(s'.main, s'.exchange)
  {
    hide CallResume, WorkerInv;
    if s.main.Resuming? {
      ResumedKeepsHandover(s.exchange);
    }
  }

  lemma IncreasingAppend(q: seq<nat>, n: nat)
    requires Increasing(q) && Below(q, n)
    ensures Increasing(q + [n]) && Below(q + [n], n + 1)
  {
  }

  lemma AppliedKeepsHistory(x: Exchange)
    requires HistoryInv(Applying, x) && Parked(x) && x.shared.value.None?
    ensures HistoryInv(Deciding, x.(applied := x.applied + [x.round]))
  {
    IncreasingAppend(x.applied, x.round);
  }

  lemma ResumedKeepsHistory(x: Exchange)
    requires HistoryInv(Resuming, x) && Parked(x) && x.shared.value.None?
    ensures HistoryInv(Clearing, CallResume(x, x.round))
  {
    IncreasingAppend(x.resumed, x.round);
  }

  lemma SnapshotKeepsHistory(s: System, s': System, flag: bool)
    requires RefreshInv(s) && SnapshotStep(s, s', flag)
    ensures HistoryInv(s'.main, s'.exchange)
  {
    hide Increasing, Below, WorkerInv;
    if s.main.Applying? && !s.bound {
      AppliedKeepsHistory(s.exchange);
    } else if s.main.Resuming? {
      ResumedKeepsHistory(s.exchange);
    }
  }

  lemma WorkerKeepsHandover(main: Main, x: Exchange, x': Exchange, flag: bool)
    requires WorkerInv(x) && HandoverInv(main, x) && WorkerStep(x, x', flag)
    ensures WorkerInv(x') && HandoverInv(main, x')
  {
  }

  lemma WorkerKeepsHistory(main: Main, x: Exchange, x': Exchange, flag: bool)
    requires WorkerInv(x) && HandoverInv(main, x) && HistoryInv(main, x) && WorkerStep(x, x', flag)
    ensures HistoryInv(main, x')
  {
  }

  lemma WorkerKeepsRefresh(s: System, s': System, flag: bool)
    requires RefreshInv(s) && Step(s, s', Refresh(flag))
    ensures RefreshInv(s')
  {
    hide WorkerInv, HandoverInv, HistoryInv, WorkerStep;
    WorkerKeepsHandover(s.main, s.exchange, s'.exchange, flag);
    WorkerKeepsHistory(s.main, s.exchange, s'.exchange, flag);
  }

  // ---------------------------------------------------------------- the verdict invariant

  /** The notifications that go to the tracker. */
  function Handled(q: seq<Notification>): seq<Notification> {
    if q == [] then [] else Handled(q[..|q| - 1]) + if q[|q| - 1].handled then [q[|q| - 1]] else []
  }

  function Calls(vs: seq<Verdict>): seq<Notification> {
    seq(|vs|, i requires 0 <= i < |vs| => vs[i].notification)
  }

  function Results(vs: seq<Verdict>): seq<int> {
    seq(|vs|, i requires 0 <= i < |vs| => vs[i].result)
  }

  /** The tracker is between taking a request and answering it. */
  predicate Busy(main: Main) {
    main.Handling? || main.Replying?
  }

  predicate LastIs(vs: seq<Verdict>, v: Verdict) {
    |vs| > 0 && vs[|vs| - 1] == v
  }

  /** Where the one outstanding request is, if there is one. */
  ghost predicate PlaceInv(main: Main, d: Desk) {
    match d.dispatcher
    case Awaiting(call) =>
      call.handled && (
      || (d.request == Some(call) && d.reply == None && !Busy(main))
      || (d.request == None && d.reply == None && main == Handling(call))
      || (d.request == None && d.reply == None && main.Replying? && main.call == call && LastIs(d.verdicts, Verdict(call, main.result)))
      || (d.request == None && d.reply.Some? && !Busy(main) && LastIs(d.verdicts, Verdict(call, d.reply.value))))
    case Posting(call) => call.handled && d.request == None && d.reply == None && !Busy(main)
    case _ => d.request == None && d.reply == None && !Busy(main)
  }

  /** The request has been judged and the judgement not yet read. */
  predicate Unread(main: Main, d: Desk) {
    d.dispatcher.Awaiting? && (main.Replying? || d.reply.Some?)
  }

  /** The request has been received and not yet judged. */
  predicate Unjudged(main: Main, d: Desk) {
    d.dispatcher.Posting? || (d.dispatcher.Awaiting? && !Unread(main, d))
  }

  /** Verdicts and replies, in step with the notifications that needed one. */
  ghost predicate TallyInv(main: Main, d: Desk) {
    && (Unread(main, d) ==> |d.verdicts| > 0)
    && Results(d.verdicts) == d.replies + (if Unread(main, d) then [d.verdicts[|d.verdicts| - 1].result] else [])
    && Handled(d.received) == Calls(d.verdicts) + (if Unjudged(main, d) then [d.dispatcher.call] else [])
  }

  /** A refused call fails with the result; one that is let through goes on. */
  predicate Carries(r: Response, result: int) {
    r.error == -result && (r.proceed <==> result == 0)
  }

  /** What was sent for notification `k`: the verdict on that very notification. */
  ghost predicate Answered(d: Desk, k: nat)
    requires k < |d.responses| <= |d.received|
  {
    d.received[k].handled ==>
      var i := |Handled(d.received[..k])|;
      && i < |d.verdicts|
      && d.verdicts[i].notification == d.received[k]
      && Carries(d.responses[k], d.verdicts[i].result)
  }

  ghost predicate ResponseInv(main: Main, d: Desk) {
    && (d.dispatcher.Receiving? ==> |d.responses| == |d.received|)
    && (!d.dispatcher.Receiving? ==>
          |d.responses| + 1 == |d.received| && d.received[|d.responses|] == d.dispatcher.call)
    && (d.dispatcher.Responding? && d.dispatcher.call.handled ==>
          LastIs(d.verdicts, Verdict(d.dispatcher.call, d.dispatcher.result)))
    && (forall k :: 0 <= k < |d.responses| ==> d.responses[k].id == d.received[k].id)
    && (forall k :: 0 <= k < |d.responses| ==> Answered(d, k))
  }

  ghost predicate VerdictInv(main: Main, d: Desk) {
    PlaceInv(main, d) && TallyInv(main, d) && ResponseInv(main, d)
  }

  lemma DispatcherKeepsPlace(main: Main, d: Desk, d': Desk, n: Notification, result: int)
    requires VerdictInv(main, d) && DispatcherStep(d, d', n, result)
    ensures PlaceInv(main, d') && TallyInv(main, d')
  {
    if d.dispatcher.Receiving? {
      assert d'.received[..|d.received|] == d.received;
    }
  }

  /** The response just sent carries the verdict on its own notification. */
  lemma NewResponse(main: Main, d: Desk)
    requires VerdictInv(main, d) && d.dispatcher.Responding?
    ensures var d' := d.(responses := d.responses + [Respond(d.dispatcher.call, d.dispatcher.result)], dispatcher := Receiving);
            Answered(d', |d.responses|)
  {
    var k := |d.responses|;
    assert d.received == d.received[..k] + [d.received[k]];
    assert d.received[..|d.received| - 1] == d.received[..k];
    if d.received[k].handled {
      assert Handled(d.received) == Handled(d.received[..k]) + [d.received[k]];
      assert |Calls(d.verdicts)| == |d.verdicts|;
    }
  }

  lemma DispatcherKeepsResponses(main: Main, d: Desk, d': Desk, n: Notification, result: int)
    requires VerdictInv(main, d) && DispatcherStep(d, d', n, result)
    ensures ResponseInv(main, d')
  {
    hide TallyInv, Handled, Calls;
    forall j | 0 <= j < |d.responses| ensures Answered(d', j) && d'.responses[j].id == d'.received[j].id {
      assert Answered(d, j);
      assert d'.received[..j] == d.received[..j];
    }
    if d.dispatcher.Responding? {
      NewResponse(main, d);
    }
  }

  lemma BindKeepsVerdicts(s: System, s': System, result: int, flag: bool)
    requires VerdictInv(s.main, s.desk) && BindStep(s, s', result, flag)
    ensures VerdictInv(s'.main, s'.desk)
  {
    var d, d' := s.desk, s'.desk;
    if s.main.Handling? {
      assert Calls(d'.verdicts) == Calls(d.verdicts) + [s.main.call];
      assert Results(d'.verdicts) == Results(d.verdicts) + [result];
    }
    forall j | 0 <= j < |d'.responses| ensures Answered(d', j) {
      assert Answered(d, j);
    }
  }

  /** Away from bind calls the main loop's position does not matter to the dispatcher. */
  lemma IdleMainKeepsVerdicts(main: Main, main': Main, d: Desk)
    requires VerdictInv(main, d) && !Busy(main) && !Busy(main')
    ensures VerdictInv(main', d)
  {
    assert Unread(main', d) <==> Unread(main, d);
    assert PlaceInv(main', d);
    assert TallyInv(main', d);
  }

  // ---------------------------------------------------------------- every interleaving

  /** `bound` says whether this iteration has given a verdict. */
  ghost predicate IterationInv(s: System) {
    match s.main
    case Starting => true
    case Reading => true
    case Handling(_) => s.bound && |s.desk.verdicts| == s.judged
    case _ => |s.desk.verdicts| == s.judged + if s.bound then 1 else 0
  }

  ghost predicate Inv(s: System) {
    RefreshInv(s) && VerdictInv(s.main, s.desk) && IterationInv(s)
  }

  lemma StepKeepsIteration(s: System, s': System, l: Label)
    requires IterationInv(s) && Step(s, s', l)
    ensures IterationInv(s')
  {
  }

  lemma StepKeepsInv(s: System, s': System, l: Label)
    requires Inv(s) && Step(s, s', l)
    ensures Inv(s')
  {
    hide WorkerInv, HandoverInv, HistoryInv, PlaceInv, TallyInv, ResponseInv, IterationInv, DispatcherStep, BindStep, WorkerStep;
    StepKeepsIteration(s, s', l);
    match l
    case Dispatch(n, result) =>
      DispatcherKeepsPlace(s.main, s.desk, s'.desk, n, result);
      DispatcherKeepsResponses(s.main, s.desk, s'.desk, n, result);
    case Bind(result, flag) =>
      BindKeepsRefresh(s, s', result, flag);
      BindKeepsVerdicts(s, s', result, flag);
    case Snapshot(flag) =>
      SnapshotKeepsWorker(s, s', flag);
      SnapshotKeepsHandover(s, s', flag);
      SnapshotKeepsHistory(s, s', flag);
      IdleMainKeepsVerdicts(s.main, s'.main, s.desk);
    case Refresh(flag) =>
      WorkerKeepsRefresh(s, s', flag);
  }

  /** States `run` passed through, one step of some thread at a time. */
  ghost predicate Execution(run: seq<System>, labels: seq<Label>) {
    && |run| == |labels| + 1
    && Init(run[0])
    && forall i :: 0 <= i < |labels| ==> Step(run[i], run[i + 1], labels[i])
  }

  lemma {:induction false} ExecutionKeepsInv(run: seq<System>, labels: seq<Label>, i: nat)
    requires Execution(run, labels) && i < |run|
    ensures Inv(run[i])
  {
    if i > 0 {
      ExecutionKeepsInv(run, labels, i - 1);
      StepKeepsInv(run[i - 1], run[i], labels[i - 1]);
    }
  }

  /** No promise is satisfied twice, no future taken twice, and no worker woken
      after its `resume` is gone; each round is resumed and applied at most once. */
  lemma RefreshIsSafe(run: seq<System>, labels: seq<Label>, i: nat)
    requires Execution(run, labels) && i < |run|
    ensures var x := run[i].exchange;
            && x.faults == {}
            && Increasing(x.resumed) && Increasing(x.applied)
            && (forall k :: 0 <= k < |x.applied| ==> x.applied[k] <= x.round)
  {
    ExecutionKeepsInv(run, labels, i);
  }

  /** A snapshot is applied only in an iteration that has given no verdict, and it is
      the one the worker has just published and still waits on. */
  lemma AppliedWithoutBind(run: seq<System>, labels: seq<Label>, i: nat)
    requires Execution(run, labels) && i < |labels|
    requires run[i + 1].exchange.applied != run[i].exchange.applied
    ensures run[i].main == Applying && |run[i].desk.verdicts| == run[i].judged
    ensures run[i].exchange.refresh == Some(run[i].exchange.round)
    ensures run[i + 1].exchange.applied == run[i].exchange.applied + [run[i].exchange.round]
  {
    hide VerdictInv, HistoryInv, WorkerInv, DispatcherStep;
    StepAt(run, labels, i);
  }

  /** The promise object is replaced only while the worker is parked, so the two
      threads never touch it at the same time. */
  lemma ReplacedWhileParked(run: seq<System>, labels: seq<Label>, i: nat)
    requires Execution(run, labels) && i < |run| && run[i].main == Renewing
    ensures Parked(run[i].exchange) && !run[i].exchange.worker.Publishing?
  {
    ExecutionKeepsInv(run, labels, i);
  }

  /** A worker that waits is never forgotten, wherever the main loop is: its snapshot is
      still to be taken, or main holds it and will wake the worker once something is tracked. */
  lemma WaitingWorkerIsKnown(run: seq<System>, labels: seq<Label>, i: nat)
    requires Execution(run, labels) && i < |run| && Parked(run[i].exchange)
    ensures var x := run[i].exchange;
            || (x.refresh == Some(x.round) && run[i].main != Clearing)
            || (x.shared.value == Some(x.round)
                && (run[i].main == Starting || SnapshotReady(x) || (run[i].main == Clearing && x.future.Some?)))
  {
    ExecutionKeepsInv(run, labels, i);
  }

  /** Neither post ever finds its slot full. */
  lemma PostsNeverWait(run: seq<System>, labels: seq<Label>, i: nat)
    requires Execution(run, labels) && i < |run|
    ensures run[i].desk.dispatcher.Posting? ==> run[i].desk.request == None
    ensures run[i].main.Replying? ==> run[i].desk.reply == None
  {
    ExecutionKeepsInv(run, labels, i);
  }

  /** The places a request or its verdict can be in: at most one is occupied. */
  function Outstanding(s: System): nat {
    (if s.desk.dispatcher.Posting? then 1 else 0) + (if s.desk.request.Some? then 1 else 0) +
    (if Busy(s.main) then 1 else 0) + (if s.desk.reply.Some? then 1 else 0)
  }

  lemma OneOutstanding(run: seq<System>, labels: seq<Label>, i: nat)
    requires Execution(run, labels) && i < |run|
    ensures Outstanding(run[i]) == if run[i].desk.dispatcher.Posting? || run[i].desk.dispatcher.Awaiting? then 1 else 0
  {
    ExecutionKeepsInv(run, labels, i);
  }

  /** The k-th reply read is the k-th verdict, which is on the k-th notification
      that needed one: nothing is lost, repeated or reordered. */
  lemma RepliesMatchRequests(run: seq<System>, labels: seq<Label>, i: nat, k: nat)
    requires Execution(run, labels) && i < |run| && k < |run[i].desk.replies|
    ensures var d := run[i].desk;
            && k < |d.verdicts| && k < |Handled(d.received)|
            && d.replies[k] == d.verdicts[k].result
            && d.verdicts[k].notification == Handled(d.received)[k]
  {
    ExecutionKeepsInv(run, labels, i);
    var d := run[i].desk;
    assert d.replies[k] == Results(d.verdicts)[k];
    assert Handled(d.received)[k] == Calls(d.verdicts)[k];
  }

  /** Step `j` received notification `k`. */
  ghost predicate Took(run: seq<System>, labels: seq<Label>, j: int, k: nat) {
    && 0 <= j < |labels| < |run|
    && labels[j].Dispatch? && run[j].desk.dispatcher.Receiving?
    && |run[j].desk.received| == k
  }

  /** A notification that is not for the tracker is answered with the result of its own step. */
  ghost predicate OwnResults(run: seq<System>, labels: seq<Label>, i: nat)
    requires i < |run|
  {
    var d := run[i].desk;
    && |d.responses| <= |d.received|
    && (forall k :: 0 <= k < |d.responses| && !d.received[k].handled ==>
          exists j :: 0 <= j < i && Took(run, labels, j, k) && Carries(d.responses[k], labels[j].result))
    && (d.dispatcher.Responding? && !d.dispatcher.call.handled ==>
          exists j :: 0 <= j < i && Took(run, labels, j, |d.responses|) && d.dispatcher.result == labels[j].result)
  }

  lemma {:induction false} ResultsAreOwn(run: seq<System>, labels: seq<Label>, i: nat)
    requires Execution(run, labels) && i < |run|
    ensures OwnResults(run, labels, i)
  {
    hide Execution, OwnResults, Step, VerdictInv;
    if i == 0 {
      NoResults(run, labels);
    } else {
      VerdictAt(run, labels, i - 1);
      ResultsAreOwn(run, labels, i - 1);
      OwnResultsNext(run, labels, i - 1);
    }
  }

  lemma NoResults(run: seq<System>, labels: seq<Label>)
    requires Execution(run, labels)
    ensures OwnResults(run, labels, 0)
  {
  }

  lemma VerdictAt(run: seq<System>, labels: seq<Label>, i: nat)
    requires Execution(run, labels) && i + 1 < |run|
    ensures |run| == |labels| + 1 && VerdictInv(run[i].main, run[i].desk) && Step(run[i], run[i + 1], labels[i])
  {
    StepAt(run, labels, i);
  }

  /** Only the dispatcher's own steps touch what it has received and sent. */
  lemma DeskKept(s: System, s': System, l: Label)
    requires Step(s, s', l) && !l.Dispatch?
    ensures s'.desk.received == s.desk.received && s'.desk.responses == s.desk.responses
    ensures s'.desk.dispatcher == s.desk.dispatcher
  {
  }

  lemma OwnResultsNext(run: seq<System>, labels: seq<Label>, i: nat)
    requires |run| == |labels| + 1 && i < |labels| && OwnResults(run, labels, i)
    requires Step(run[i], run[i + 1], labels[i]) && VerdictInv(run[i].main, run[i].desk)
    ensures OwnResults(run, labels, i + 1)
  {
    hide BindStep, SnapshotStep, WorkerStep, Answered, Carries, TallyInv;
    if !labels[i].Dispatch? {
      DeskKept(run[i], run[i + 1], labels[i]);
    } else {
      OwnResultsSent(run, labels, i);
      if run[i].desk.dispatcher.Receiving? {
        assert Took(run, labels, i, |run[i].desk.received|);
      }
    }
  }

  lemma OwnResultsSent(run: seq<System>, labels: seq<Label>, i: nat)
    requires |run| == |labels| + 1 && i < |labels| && OwnResults(run, labels, i)
    requires Step(run[i], run[i + 1], labels[i]) && VerdictInv(run[i].main, run[i].desk) && labels[i].Dispatch?
    ensures var d := run[i + 1].desk;
            && |d.responses| <= |d.received|
            && forall k :: 0 <= k < |d.responses| && !d.received[k].handled ==>
                 exists j :: 0 <= j < i + 1 && Took(run, labels, j, k) && Carries(d.responses[k], labels[j].result)
  {
    hide Answered, TallyInv, PlaceInv;
    var d, d' := run[i].desk, run[i + 1].desk;
    forall k | 0 <= k < |d'.responses| && !d'.received[k].handled
      ensures exists j :: 0 <= j < i + 1 && Took(run, labels, j, k) && Carries(d'.responses[k], labels[j].result)
    {
      if k < |d.responses| {
        var j :| 0 <= j < i && Took(run, labels, j, k) && Carries(d.responses[k], labels[j].result);
      } else {
        var j :| 0 <= j < i && Took(run, labels, j, |d.responses|) && d.dispatcher.result == labels[j].result;
        assert Carries(d'.responses[k], labels[j].result);
      }
    }
  }

  /** Every response carries its own notification's id and the verdict given on it: the
      negated result as the error, and leave to go on exactly if the result is 0. One that
      was not for the tracker carries its own result in the same way. */
  lemma ResponsesAnswerTheirCalls(run: seq<System>, labels: seq<Label>, i: nat, k: nat)
    requires Execution(run, labels) && i < |run| && k < |run[i].desk.responses|
    ensures var d := run[i].desk;
            && |d.responses| <= |d.received|
            && d.responses[k].id == d.received[k].id
            && (if d.received[k].handled then
                  var v := |Handled(d.received[..k])|;
                  && v < |d.verdicts| && d.verdicts[v].notification == d.received[k]
                  && d.responses[k].error == -d.verdicts[v].result
                  && (d.responses[k].proceed <==> d.verdicts[v].result == 0)
                else
                  exists j :: 0 <= j < i && Took(run, labels, j, k)
                              && d.responses[k].error == -labels[j].result
                              && (d.responses[k].proceed <==> labels[j].result == 0))
  {
    ExecutionKeepsInv(run, labels, i);
    ResultsAreOwn(run, labels, i);
    assert Answered(run[i].desk, k);
  }

  // ---------------------------------------------------------------- what main does next

  /** Main's next step from state `i` on is the one taken at `j`. */
  ghost predicate NextOfMain(labels: seq<Label>, i: nat, j: nat) {
    && i <= j < |labels| && (labels[j].Snapshot? || labels[j].Bind?)
    && forall k :: i <= k < j ==> labels[k].Dispatch? || labels[k].Refresh?
  }

  /** What main goes by when it deals with the snapshot of a parked worker. */
  ghost predicate SameForMain(s: System, t: System) {
    && t.main == s.main && t.bound == s.bound && t.tracking == s.tracking
    && t.exchange == s.exchange.(worker := t.exchange.worker, resume := t.exchange.resume)
    && t.exchange.resume.alive == s.exchange.resume.alive
    && Parked(t.exchange) && t.exchange.faults == s.exchange.faults
  }

  /** The other threads leave it alone. */
  lemma {:induction false} OthersWait(run: seq<System>, labels: seq<Label>, i: nat, j: nat)
    requires Execution(run, labels) && i <= j < |run| && Parked(run[i].exchange)
    requires forall k :: i <= k < j ==> labels[k].Dispatch? || labels[k].Refresh?
    ensures SameForMain(run[i], run[j])
  {
    if i < j {
      hide Execution, VerdictInv, IterationInv, HistoryInv, DispatcherStep;
      StepAt(run, labels, j - 1);
      OthersWait(run, labels, i, j - 1);
    }
  }

  /** A held snapshot, and something to deallocate: main's next two steps wake the worker
      of that very round. */
  lemma HeldSnapshotResumes(run: seq<System>, labels: seq<Label>, i: nat, j: nat, k: nat)
    requires Execution(run, labels) && NextOfMain(labels, i, j) && NextOfMain(labels, j + 1, k)
    requires run[i].main == Deciding && run[i].exchange.refresh.Some? && run[i].tracking
    ensures var x := run[k + 1].exchange;
            && x.resumed == run[i].exchange.resumed + [run[i].exchange.round]
            && x.round == run[i].exchange.round && x.resume.alive && x.resume.satisfied
            && run[i].exchange.refresh == Some(x.round)
  {
    ExecutionKeepsInv(run, labels, i);
    OthersWait(run, labels, i, j);
    assert Step(run[j], run[j + 1], labels[j]);
    OthersWait(run, labels, j + 1, k);
    assert Step(run[k], run[k + 1], labels[k]);
  }

  /** Without something to deallocate the snapshot is kept for the next iteration. */
  lemma HeldSnapshotIsKept(run: seq<System>, labels: seq<Label>, i: nat, j: nat)
    requires Execution(run, labels) && NextOfMain(labels, i, j)
    requires run[i].main == Deciding && run[i].exchange.refresh.Some? && !run[i].tracking
    ensures run[j + 1].main == Reading && run[j + 1].exchange.refresh == Some(run[j + 1].exchange.round)
    ensures Parked(run[j + 1].exchange) && run[j + 1].exchange.resumed == run[i].exchange.resumed
  {
    ExecutionKeepsInv(run, labels, i);
    OthersWait(run, labels, i, j);
    assert Step(run[j], run[j + 1], labels[j]);
  }

  /** A snapshot that is ready is taken, and its promise replaced, in main's next three
      steps; the fourth applies it exactly if no bind call was handled. */
  lemma ReadySnapshotIsApplied(run: seq<System>, labels: seq<Label>, i: nat, a: nat, b: nat, c: nat, d: nat)
    requires Execution(run, labels)
    requires NextOfMain(labels, i, a) && NextOfMain(labels, a + 1, b) && NextOfMain(labels, b + 1, c) && NextOfMain(labels, c + 1, d)
    requires run[i].main == Checking && SnapshotReady(run[i].exchange)
    ensures var s, t := run[i], run[d + 1];
            && t.main == Deciding && t.exchange.refresh == Some(s.exchange.round)
            && t.exchange.shared == Shared(s.exchange.shared.generation + 1, None, false)
            && t.exchange.applied == s.exchange.applied + (if s.bound then [] else [s.exchange.round])
            && (t.tracking ==> s.tracking)
  {
    assert |run| == |labels| + 1;
    hide Execution, Inv, WorkerStep, BindStep, DispatcherStep;
    ReadyIsParked(run, labels, i);
    OneOn(run, labels, i, a);
    OneOn(run, labels, a + 1, b);
    OneOn(run, labels, b + 1, c);
    OneOn(run, labels, c + 1, d);
  }

  lemma ReadyIsParked(run: seq<System>, labels: seq<Label>, i: nat)
    requires Execution(run, labels) && i < |run| && SnapshotReady(run[i].exchange)
    ensures Parked(run[i].exchange) && run[i].exchange.shared.value == Some(run[i].exchange.round)
  {
    ExecutionKeepsInv(run, labels, i);
  }

  /** One step of main while the worker is parked. */
  lemma OneOn(run: seq<System>, labels: seq<Label>, i: nat, j: nat)
    requires Execution(run, labels) && NextOfMain(labels, i, j) && i < |run| && Parked(run[i].exchange)
    ensures |run| == |labels| + 1 && SameForMain(run[i], run[j])
    ensures !Busy(run[i].main) && run[i].main != Reading ==> labels[j].Snapshot? && SnapshotStep(run[j], run[j + 1], labels[j].flag)
  {
    OthersWait(run, labels, i, j);
    StepAt(run, labels, j);
  }

  lemma StepAt(run: seq<System>, labels: seq<Label>, i: nat)
    requires Execution(run, labels) && i < |labels|
    ensures |run| == |labels| + 1 && Inv(run[i]) && Step(run[i], run[i + 1], labels[i])
  {
    ExecutionKeepsInv(run, labels, i);
  }

  /** The other threads leave a call in hand alone. */
  lemma {:induction false} OthersLeaveCall(run: seq<System>, labels: seq<Label>, i: nat, j: nat)
    requires Execution(run, labels) && i <= j < |run| && Busy(run[i].main)
    requires forall k :: i <= k < j ==> labels[k].Dispatch? || labels[k].Refresh?
    ensures run[j].main == run[i].main && run[j].desk == run[i].desk
  {
    if i < j {
      hide Execution, RefreshInv, IterationInv, WorkerStep, TallyInv, ResponseInv;
      StepAt(run, labels, j - 1);
      OthersLeaveCall(run, labels, i, j - 1);
    }
  }

  /** A call in hand gets its verdict in main's next step and its reply in the one after. */
  lemma CallIsAnswered(run: seq<System>, labels: seq<Label>, i: nat, j: nat, k: nat)
    requires Execution(run, labels) && NextOfMain(labels, i, j) && NextOfMain(labels, j + 1, k)
    requires run[i].main.Handling?
    ensures labels[j].Bind?
    ensures var call, result := run[i].main.call, labels[j].result;
            && run[k + 1].desk.verdicts == run[i].desk.verdicts + [Verdict(call, result)]
            && run[k + 1].desk.reply == Some(result)
            && run[k + 1].desk.dispatcher == Awaiting(call)
  {
    ExecutionKeepsInv(run, labels, i);
    OthersLeaveCall(run, labels, i, j);
    assert Step(run[j], run[j + 1], labels[j]);
    OthersLeaveCall(run, labels, j + 1, k);
    assert Step(run[k], run[k + 1], labels[k]);
  }

  // ---------------------------------------------------------------- nobody is stuck

  /** The dispatcher can move unless it waits for a reply that is not there yet. */
  lemma DispatcherCanMove(run: seq<System>, labels: seq<Label>, i: nat, n: Notification, result: int)
    requires Execution(run, labels) && i < |run|
    requires run[i].desk.dispatcher.Awaiting? ==> run[i].desk.reply.Some?
    ensures exists s' :: Step(run[i], s', Dispatch(n, result))
  {
    ExecutionKeepsInv(run, labels, i);
    var s, d := run[i], run[i].desk;
    var d' := match d.dispatcher
      case Receiving => d.(dispatcher := if n.handled then Posting(n) else Responding(n, result), received := d.received + [n])
      case Posting(call) => d.(request := Some(call), dispatcher := Awaiting(call))
      case Awaiting(call) => d.(reply := None, replies := d.replies + [d.reply.value], dispatcher := Responding(call, d.reply.value))
      case Responding(call, r) => d.(responses := d.responses + [Respond(call, r)], dispatcher := Receiving);
    assert Step(s, s.(desk := d'), Dispatch(n, result));
  }

  /** A call that has been posted can be taken at the next read, and a reply that is there
      is what the dispatcher sends. */
  lemma PostedCanBeTaken(run: seq<System>, labels: seq<Label>, i: nat, result: int)
    requires Execution(run, labels) && i < |run| && run[i].main == Reading && run[i].desk.request.Some?
    ensures exists s' :: Step(run[i], s', Bind(result, false)) && s'.main == Handling(run[i].desk.request.value)
  {
    var s, d := run[i], run[i].desk;
    var s' := s.(desk := d.(request := None), main := Handling(d.request.value), bound := true, judged := |d.verdicts|);
    assert Step(s, s', Bind(result, false));
  }

  /** The worker can move unless it waits to be woken. */
  lemma WorkerCanMove(s: System, flag: bool)
    requires s.exchange.worker.Waiting? ==> s.exchange.resume.satisfied
    ensures exists s' :: Step(s, s', Refresh(flag))
  {
    var x := s.exchange;
    var x' := match x.worker
      case Creating => x.(round := x.round + 1, resume := Resume(true, false, false), worker := Listing)
      case Listing => if flag then x.(worker := Publishing) else x.(resume := x.resume.(alive := false), worker := Sleeping)
      case Publishing =>
        x.(shared := x.shared.(value := Some(x.round)),
           faults := if x.shared.value.Some? then x.faults + {PromiseAlreadySatisfied} else x.faults, worker := TakingFuture)
      case TakingFuture =>
        x.(resume := x.resume.(futureTaken := true),
           faults := if x.resume.futureTaken then x.faults + {FutureAlreadyRetrieved} else x.faults, worker := Waiting)
      case Waiting => x.(resume := x.resume.(alive := false), worker := Sleeping)
      case Sleeping => x.(worker := Creating);
    assert Step(s, s.(exchange := x'), Refresh(flag));
  }

  /** Outside ReadNextRequest and the handling of a call, main can always move. */
  lemma MainCanMove(run: seq<System>, labels: seq<Label>, i: nat, flag: bool)
    requires Execution(run, labels) && i < |run| && !Busy(run[i].main) && run[i].main != Reading
    ensures exists s' :: Step(run[i], s', Snapshot(flag))
  {
    ExecutionKeepsInv(run, labels, i);
    var s := run[i];
    var x := s.exchange;
    var s' := match s.main
      case Starting => s.(exchange := TakeFuture(x), main := Reading)
      case Checking => if SnapshotReady(x) then s.(exchange := x.(refresh := x.shared.value), main := Resetting) else s.(main := Deciding)
      case Resetting => s.(exchange := x.(future := None), main := Renewing)
      case Renewing => s.(exchange := x.(shared := Shared(x.shared.generation + 1, None, false)), main := Applying)
      case Applying =>
        if s.bound then s.(main := Deciding)
        else s.(exchange := x.(applied := x.applied + [x.refresh.value]), main := Deciding, tracking := s.tracking && flag)
      case Deciding =>
        if x.refresh.Some? && s.tracking then s.(exchange := TakeFuture(x), main := Resuming) else s.(main := Reading)
      case Resuming => s.(exchange := CallResume(x, x.refresh.value), main := Clearing)
      case _ => s.(exchange := x.(refresh := None), main := Reading);
    assert Step(s, s', Snapshot(flag));
  }
}
