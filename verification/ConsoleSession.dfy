/** The life of one console session after forkpty (run_session in
    FreeBSD/hvbridge.c): when the child is signalled and reaped, and what is still
    said to the host. What poll finds, what waitpid answers and what time it is come
    from outside. */
module ConsoleSession {

  /** Seconds a child is given after SIGHUP. */
  const GRACE := 5

  /** What a session does, in order. */
  datatype Action =
    | Disconnected                          // the host is marked gone
    | Hangup                                // SIGHUP
    | Deadline(at: int)                     // when the child is to be killed
    | Escalation(now: int)                  // SIGKILL once the deadline has passed
    | Cleanup                               // SIGKILL on the way out
    | Reaped                                // waitpid returned the child
    | ExitStatus(code: int)                 // sent on the control channel
    | ControlMessage                        // a window size or a refusal sent there
    | Relayed                               // a child's interop request passed on there

  // ---------------------------------------------------------------- what is allowed

  predicate Signals(a: Action) {
    a.Hangup? || a.Escalation? || a.Cleanup?
  }

  /** Whether b may come anywhere after a. */
  predicate MayFollow(a: Action, b: Action) {
    && !(a.Reaped? && (b.Reaped? || Signals(b)))
    && !(a.Disconnected? && (b.Disconnected? || b.ExitStatus? || b.ControlMessage?))
    && !(a.Hangup? && b.Hangup?)
    && !(a.Deadline? && b.Deadline?)
    && !(a.Escalation? && b.Escalation?)
    && !(a.ExitStatus? && b.ExitStatus?)
  }

  ghost predicate Ordered(log: seq<Action>) {
    forall i, j :: 0 <= i < j < |log| ==> MayFollow(log[i], log[j])
  }

  /** An exit status comes after the reap, SIGHUP after the disconnect, and an
      escalation after a deadline that has passed. */
  ghost predicate Grounded(log: seq<Action>) {
    forall j :: 0 <= j < |log| ==>
      && (log[j].ExitStatus? ==> exists i :: 0 <= i < j && log[i] == Reaped)
      && (log[j].Hangup? ==> exists i :: 0 <= i < j && log[i] == Disconnected)
      && (log[j].Escalation? ==> exists i :: 0 <= i < j && log[i].Deadline? && log[i].at <= log[j].now)
  }

  // ------------------------------------------------------ the flags after some actions

  datatype Flags = Flags(gone: bool, hungUp: bool, timed: bool, deadline: int,
                         killed: bool, reaped: bool, told: bool, code: int)

  const FRESH := Flags(false, false, false, 0, false, false, false, -1)

  function After(f: Flags, a: Action): Flags {
    match a
    case Disconnected => f.(gone := true)
    case Hangup => f.(hungUp := true)
    case Deadline(at) => f.(timed := true, deadline := at)
    case Escalation(_) => f.(killed := true)
    case Reaped => f.(reaped := true)
    case ExitStatus(code) => f.(told := true, code := code)
    case _ => f
  }

  /** What may be done where the flags stand as in f. */
  predicate Allowed(f: Flags, a: Action) {
    match a
    case Disconnected => !f.gone
    case Hangup => f.gone && !f.hungUp && !f.reaped
    case Deadline(_) => !f.timed
    case Escalation(now) => f.timed && f.deadline <= now && !f.killed && !f.reaped
    case Cleanup => !f.reaped
    case Reaped => !f.reaped
    case ExitStatus(_) => f.reaped && !f.gone && !f.told
    case ControlMessage => !f.gone
    case Relayed => true
  }

  function Fold(log: seq<Action>): Flags {
    if log == [] then FRESH else After(Fold(log[..|log| - 1]), log[|log| - 1])
  }

  ghost predicate Stepwise(log: seq<Action>) {
    log == [] || (Stepwise(log[..|log| - 1]) && Allowed(Fold(log[..|log| - 1]), log[|log| - 1]))
  }

  lemma Grows(log: seq<Action>, a: Action)
    ensures Fold(log + [a]) == After(Fold(log), a)
    ensures Stepwise(log + [a]) <==> Stepwise(log) && Allowed(Fold(log), a)
  {
    assert (log + [a])[..|log|] == log;
  }

  /** What f says if a has been done. */
  predicate Shows(f: Flags, a: Action) {
    match a
    case Disconnected => f.gone
    case Hangup => f.hungUp
    case Deadline(_) => f.timed
    case Escalation(_) => f.killed
    case Reaped => f.reaped
    case ExitStatus(_) => f.told
    case _ => true
  }

  /** No action is forgotten, */
  lemma {:induction false} FlagsShow(log: seq<Action>)
    ensures forall a :: a in log ==> Shows(Fold(log), a)
  {
    if log != [] {
      var rest, last := log[..|log| - 1], log[|log| - 1];
      FlagsShow(rest);
      assert log == rest + [last];
    }
  }

  /** and no flag is set without one. */
  lemma {:induction false} FlagsRecord(log: seq<Action>)
    ensures Fold(log).gone ==> Disconnected in log
    ensures Fold(log).hungUp ==> Hangup in log
    ensures Fold(log).reaped ==> Reaped in log
  {
    if log != [] {
      var rest, last := log[..|log| - 1], log[|log| - 1];
      FlagsRecord(rest);
      assert log == rest + [last];
      assert last in log;
    }
  }

  lemma {:induction false} KillRecorded(log: seq<Action>)
    ensures Fold(log).killed ==> exists t :: Escalation(t) in log
  {
    if log != [] {
      var rest, last := log[..|log| - 1], log[|log| - 1];
      KillRecorded(rest);
      assert last in log && forall a :: a in rest ==> a in log;
      if Fold(rest).killed {
        var t :| Escalation(t) in rest;
        assert Escalation(t) in log;
      }
    }
  }

  /** The deadline and the code are those of the one action that set them. */
  lemma {:induction false} ValuesRecorded(log: seq<Action>)
    requires Stepwise(log)
    ensures forall i :: 0 <= i < |log| && log[i].Deadline? ==> Fold(log).timed && log[i].at == Fold(log).deadline
    ensures forall i :: 0 <= i < |log| && log[i].ExitStatus? ==> Fold(log).told && log[i].code == Fold(log).code
    ensures Fold(log).told ==> ExitStatus(Fold(log).code) in log
    ensures Fold(log).timed ==> Deadline(Fold(log).deadline) in log
    ensures !Fold(log).told ==> Fold(log).code == -1
  {
    if log != [] {
      var rest, a := log[..|log| - 1], log[|log| - 1];
      ValuesRecorded(rest);
      assert log == rest + [a];
      assert a in log;
      assert forall b :: b in rest ==> b in log;
    }
  }

  /** Actions allowed one by one are ordered as a whole. */
  lemma {:induction false} StepwiseIsOrdered(log: seq<Action>)
    requires Stepwise(log)
    ensures Ordered(log)
  {
    if log != [] {
      var rest := log[..|log| - 1];
      StepwiseIsOrdered(rest);
      FlagsShow(rest);
      forall i | 0 <= i < |rest| ensures MayFollow(log[i], log[|log| - 1]) {
        assert rest[i] == log[i];
        assert rest[i] in rest;
        assert Shows(Fold(rest), log[i]);
      }
      assert forall i, j :: 0 <= i < j < |rest| ==> log[i] == rest[i] && log[j] == rest[j];
    }
  }

  lemma {:induction false} StepwiseIsGrounded(log: seq<Action>)
    requires Stepwise(log)
    ensures Grounded(log)
  {
    if log != [] {
      hide Grounded;
      var rest := log[..|log| - 1];
      StepwiseIsGrounded(rest);
      FlagsRecord(rest);
      ValuesRecorded(rest);
      GroundedNext(rest, log[|log| - 1]);
      assert log == rest + [log[|log| - 1]];
    }
  }

  lemma GroundedNext(rest: seq<Action>, a: Action)
    requires Grounded(rest)
    requires a.ExitStatus? ==> Reaped in rest
    requires a.Hangup? ==> Disconnected in rest
    requires a.Escalation? ==> exists at :: at <= a.now && Deadline(at) in rest
    ensures Grounded(rest + [a])
  {
    var log := rest + [a];
    forall b | b in rest ensures exists i :: 0 <= i < |rest| && log[i] == b {
      var i :| 0 <= i < |rest| && rest[i] == b;
      assert log[i] == b;
    }
    assert forall i :: 0 <= i < |rest| ==> log[i] == rest[i];
  }

  /** What holds of a session's actions when it has returned exit, or is still running. */
  ghost predicate Lawful(log: seq<Action>, returned: bool, exit: int) {
    && Ordered(log)
    && Grounded(log)
    && (returned <==> Reaped in log)
    && (Disconnected in log ==> Hangup in log && exists at :: Deadline(at) in log)
    && (returned ==> Disconnected in log || Cleanup in log || ExitStatus(exit) in log)
    && (forall c :: ExitStatus(c) in log ==> c == exit)
    && (exit == -1 || ExitStatus(exit) in log)
  }

  lemma StepwiseIsLawful(log: seq<Action>)
    requires Stepwise(log) && Fold(log).gone == Fold(log).hungUp == Fold(log).timed
    requires Fold(log).reaped ==> Fold(log).gone || Fold(log).told || Cleanup in log
    ensures Lawful(log, Fold(log).reaped, Fold(log).code)
  {
    StepwiseIsOrdered(log);
    StepwiseIsGrounded(log);
    FlagsShow(log);
    FlagsRecord(log);
    ValuesRecorded(log);
    assert Fold(log).timed ==> Deadline(Fold(log).deadline) in log;
    assert Shows(Fold(log), Disconnected) == Fold(log).gone;
    assert Shows(Fold(log), Reaped) == Fold(log).reaped;
    forall c | ExitStatus(c) in log ensures c == Fold(log).code {
      var i :| 0 <= i < |log| && log[i] == ExitStatus(c);
      assert log[i].code == Fold(log).code;
    }
  }

  // ------------------------------------------------------------------ one wakeup

  /** What one poll of the control channel brings. */
  datatype Control = Silent | Closed | Terminate | Handled | Unknown

  /** One wakeup of the loop. The two answers waitpid would give for a child that is
      not reaped yet are dead (at the escalation) and exited (when SIGCHLD is seen). */
  datatype Wakeup =
    | Interrupted(terminate: bool)
    | Broken
    | Ready(terminate: bool, now: int, dead: bool, resized: bool, sigchld: bool, exited: bool,
            code: int, control: Control, later: int, local: bool)

  function Escalated(f: Flags, now: int, dead: bool): seq<Action> {
    if !f.gone || f.killed || now < f.deadline then []
    else if dead then [Escalation(now), Reaped]
    else [Escalation(now)]
  }

  function Notice(gone: bool, resized: bool): seq<Action> {
    if resized && !gone then [ControlMessage] else []
  }

  function Answered(gone: bool, control: Control, later: int): seq<Action> {
    if gone then []
    else match control
      case Closed => [Disconnected, Hangup, Deadline(later + GRACE)]
      case Terminate => [Disconnected, Hangup, Deadline(later + GRACE)]
      case Unknown => [ControlMessage]
      case _ => []
  }

  function Collected(gone: bool, code: int): seq<Action> {
    if gone then [Reaped] else [Reaped, ExitStatus(code)]
  }

  function Relay(local: bool): seq<Action> {
    if local then [Relayed] else []
  }

  function Early(log: seq<Action>, now: int, dead: bool, resized: bool): seq<Action> {
    log + Escalated(Fold(log), now, dead) + Notice(Fold(log).gone, resized)
  }

  function Late(log: seq<Action>, w: Wakeup): seq<Action>
    requires w.Ready?
  {
    var f := Fold(log);
    if w.sigchld && w.exited && !f.reaped then log + Collected(f.gone, w.code)
    else log + Answered(f.gone, w.control, w.later) + Relay(w.local)
  }

  /** All that has been done after one more wakeup. */
  function Reaction(log: seq<Action>, w: Wakeup): seq<Action> {
    match w
    case Interrupted(_) => log
    case Broken => log + [Cleanup, Reaped]
    case Ready(terminate, now, dead, resized, _, _, _, _, _, _) =>
      if terminate then log else Late(Early(log, now, dead, resized), w)
  }

  predicate Ends(w: Wakeup) {
    !w.Broken? && w.terminate
  }

  /** Whether the loop is left at the wakeup w. */
  predicate Leaves(log: seq<Action>, w: Wakeup) {
    Ends(w) || Fold(Reaction(log, w)).reaped
  }

  /** All that is done up to the end of the loop, wakeup after wakeup. */
  function Looped(log: seq<Action>, ws: seq<Wakeup>): seq<Action>
    decreases |ws|
  {
    if ws == [] then log
    else
      var next := Reaction(log, ws[0]);
      if Leaves(log, ws[0]) then next else Looped(next, ws[1..])
  }

  predicate Over(log: seq<Action>, ws: seq<Wakeup>)
    decreases |ws|
  {
    ws != [] && (Leaves(log, ws[0]) || Over(Reaction(log, ws[0]), ws[1..]))
  }

  /** All that is done up to the return. */
  function Whole(dead: bool, code: int, ws: seq<Wakeup>): seq<Action> {
    if dead then [Reaped, ExitStatus(code)]
    else
      var log := Looped([], ws);
      if Over([], ws) && !Fold(log).reaped then log + [Cleanup, Reaped] else log
  }

  // ------------------------------------------------------- what a wakeup must bring about

  /** The host has been gone for longer than the child was given, and it is not killed yet. */
  ghost predicate KillDue(log: seq<Action>, now: int) {
    && Disconnected in log && (exists at :: at <= now && Deadline(at) in log)
    && Reaped !in log && forall t :: Escalation(t) !in log
  }

  /** The child is reaped where it was killed, at the top of the iteration. */
  ghost predicate DeadAtKill(log: seq<Action>, w: Wakeup)
    requires w.Ready?
  {
    KillDue(log, w.now) && w.dead
  }

  /** The child is collected because it has exited, and the iteration ends there. */
  ghost predicate ExitSeen(log: seq<Action>, w: Wakeup)
    requires w.Ready?
  {
    w.sigchld && w.exited && !DeadAtKill(log, w)
  }

  ghost predicate Asked(log: seq<Action>, w: Wakeup)
    requires w.Ready?
  {
    Disconnected !in log && !ExitSeen(log, w)
  }

  /** SIGKILL comes first, exactly when it is due, and a child dead by then is reaped next. */
  ghost predicate KillsInTime(log: seq<Action>, added: seq<Action>, w: Wakeup)
    requires w.Ready?
  {
    && (KillDue(log, w.now) ==> |added| > 0 && added[0] == Escalation(w.now))
    && (DeadAtKill(log, w) ==> |added| > 1 && added[1] == Reaped)
    && (forall t :: Escalation(t) in added ==> KillDue(log, w.now))
  }

  /** A shutdown begun at `later` stands there. */
  predicate ShutdownAt(log: seq<Action>, k: int, later: int) {
    0 <= k <= |log| - 3 && log[k..k + 3] == [Disconnected, Hangup, Deadline(later + 5)]
  }

  /** A host that hangs up or asks for the end is taken as gone: SIGHUP, and five seconds. */
  ghost predicate HangsUpInTime(log: seq<Action>, added: seq<Action>, w: Wakeup)
    requires w.Ready?
  {
    if Asked(log, w) && (w.control.Closed? || w.control.Terminate?) then
      exists k :: ShutdownAt(added, k, w.later)
    else
      Disconnected !in added && Hangup !in added && forall at :: Deadline(at) !in added
  }

  /** The child is collected when it has exited, and a host that is still there is told. */
  ghost predicate TellsInTime(log: seq<Action>, added: seq<Action>, w: Wakeup)
    requires w.Ready?
  {
    && (Reaped in added <==> ExitSeen(log, w) || DeadAtKill(log, w))
    && (if ExitSeen(log, w) && Disconnected !in log then
          |added| > 1 && added[|added| - 2..] == [Reaped, ExitStatus(w.code)]
        else forall c :: ExitStatus(c) !in added)
    && (ControlMessage in added <==> Disconnected !in log && (w.resized || (w.control.Unknown? && !ExitSeen(log, w))))
    && (Relayed in added <==> w.local && !ExitSeen(log, w))
    && Cleanup !in added
  }

  /** What one wakeup must and may add to the log, by what the log says. */
  ghost predicate Prompt(log: seq<Action>, after: seq<Action>, w: Wakeup) {
    && log <= after
    && var added := after[|log|..];
       match w
       case Interrupted(_) => added == []
       case Broken => added == [Cleanup, Reaped]
       case Ready(terminate, _, _, _, _, _, _, _, _, _) =>
         if terminate then added == []
         else KillsInTime(log, added, w) && HangsUpInTime(log, added, w) && TellsInTime(log, added, w)
  }

  /** The log as the loop goes on: `logs[i]` is what was done before wakeup i. */
  ghost predicate Paced(logs: seq<seq<Action>>, ws: seq<Wakeup>) {
    && 1 <= |logs| <= |ws| + 1
    && (forall i :: 0 <= i < |logs| - 1 ==> Prompt(logs[i], logs[i + 1], ws[i]))
    && forall i :: 0 <= i < |logs| - 2 ==> !Stops(logs[i + 1], ws[i])
  }

  /** The loop ends when it is told to terminate or the child is reaped. */
  ghost predicate Stops(after: seq<Action>, w: Wakeup) {
    Reaped in after || (w.Interrupted? && w.terminate) || (w.Ready? && w.terminate)
  }

  lemma NonePaced(log: seq<Action>, ws: seq<Wakeup>)
    ensures Paced([log], ws)
  {
  }

  lemma PacedOn(logs: seq<seq<Action>>, after: seq<Action>, ws: seq<Wakeup>)
    requires Paced(logs, ws) && |logs| <= |ws|
    requires |logs| > 1 ==> !Stops(logs[|logs| - 1], ws[|logs| - 2])
    requires Prompt(logs[|logs| - 1], after, ws[|logs| - 1])
    ensures Paced(logs + [after], ws)
  {
  }

  lemma ReapedByFlags(log: seq<Action>)
    ensures Reaped in log <==> Fold(log).reaped
  {
    FlagsShow(log);
    FlagsRecord(log);
    assert Reaped in log ==> Shows(Fold(log), Reaped);
  }

  lemma StopsIsLeaves(log: seq<Action>, after: seq<Action>, w: Wakeup)
    requires after == Reaction(log, w)
    ensures Leaves(log, w) <==> Stops(after, w)
  {
    ReapedByFlags(after);
  }

  /** The flags know what is due. */
  lemma DueByFlags(log: seq<Action>, now: int)
    requires Stepwise(log) && Fold(log).gone == Fold(log).timed
    ensures KillDue(log, now) <==> Fold(log).gone && Fold(log).deadline <= now && !Fold(log).killed && !Fold(log).reaped
    ensures Disconnected in log <==> Fold(log).gone
    ensures Reaped in log <==> Fold(log).reaped
  {
    FlagsShow(log);
    FlagsRecord(log);
    KillRecorded(log);
    ValuesRecorded(log);
    assert Disconnected in log ==> Shows(Fold(log), Disconnected);
    assert Reaped in log ==> Shows(Fold(log), Reaped);
    assert forall t :: Escalation(t) in log ==> Shows(Fold(log), Escalation(t));
    forall at | Deadline(at) in log ensures at == Fold(log).deadline {
      var i :| 0 <= i < |log| && log[i] == Deadline(at);
      assert log[i].at == Fold(log).deadline;
    }
  }

  /** The start of an iteration changes no flag but those of the kill. */
  lemma EarlyFlags(log: seq<Action>, now: int, dead: bool, resized: bool)
    ensures |Escalated(Fold(log), now, dead)| <= 2
    ensures var f, e := Fold(log), Escalated(Fold(log), now, dead);
            Fold(Early(log, now, dead, resized)) ==
            f.(killed := f.killed || e != [], reaped := f.reaped || |e| == 2)
  {
    var f, e := Fold(log), Escalated(Fold(log), now, dead);
    if e != [] {
      Grows(log, e[0]);
      if |e| == 2 {
        Grows(log + [e[0]], e[1]);
        assert log + [e[0]] + [e[1]] == log + e;
      } else {
        assert log + [e[0]] == log + e;
      }
    } else {
      assert log + e == log;
    }
    if resized && !f.gone {
      Grows(log + e, ControlMessage);
    } else {
      assert log + e + [] == log + e;
    }
  }

  /** What is added, piece by piece. */
  lemma ReactionAdds(log: seq<Action>, w: Wakeup)
    requires w.Ready? && !w.terminate && !Fold(log).reaped
    ensures var f := Fold(log);
            var e, n := Escalated(f, w.now, w.dead), Notice(f.gone, w.resized);
            Reaction(log, w) == log + (e + n + if w.sigchld && w.exited && |e| < 2 then Collected(f.gone, w.code)
                                               else Answered(f.gone, w.control, w.later) + Relay(w.local))
  {
    EarlyFlags(log, w.now, w.dead, w.resized);
    hide Fold, Escalated, Notice, Answered, Collected, Relay;
    var f := Fold(log);
    var e, n := Escalated(f, w.now, w.dead), Notice(f.gone, w.resized);
    var early := Early(log, w.now, w.dead, w.resized);
    assert Fold(early).gone == f.gone && (Fold(early).reaped <==> |e| == 2);
    assert early == log + e + n;
    hide Early;
    Regrouped(log, e, n, Collected(f.gone, w.code), []);
    Regrouped(log, e, n, Answered(f.gone, w.control, w.later), Relay(w.local));
  }

  lemma Regrouped(log: seq<Action>, e: seq<Action>, n: seq<Action>, a: seq<Action>, r: seq<Action>)
    ensures log + e + n + a + r == log + (e + n + (a + r))
    ensures log + e + n + a == log + (e + n + a)
  {
  }

  lemma ReactionIsPrompt(log: seq<Action>, w: Wakeup)
    requires Stepwise(log) && Fold(log).gone == Fold(log).timed && !Fold(log).reaped
    ensures Prompt(log, Reaction(log, w), w)
  {
    if w.Ready? && !w.terminate {
      hide Fold, Stepwise, Reaction, KillDue;
      DueByFlags(log, w.now);
      ReactionAdds(log, w);
      PiecesArePrompt(log, Fold(log), w);
    }
  }

  /** What stands in each piece. */
  lemma PiecesHave(f: Flags, w: Wakeup)
    requires w.Ready?
    ensures forall a :: a in Notice(f.gone, w.resized) <==> a == ControlMessage && w.resized && !f.gone
    ensures forall a :: a in Relay(w.local) <==> a == Relayed && w.local
    ensures forall a :: a in Collected(f.gone, w.code) <==> a == Reaped || (!f.gone && a == ExitStatus(w.code))
    ensures forall a :: a in Answered(f.gone, w.control, w.later) <==>
              !f.gone && (if w.control.Closed? || w.control.Terminate? then a in {Disconnected, Hangup, Deadline(w.later + 5)}
                          else w.control.Unknown? && a == ControlMessage)
  {
  }

  lemma KillHas(f: Flags, now: int, dead: bool)
    ensures var e, due := Escalated(f, now, dead), f.gone && f.deadline <= now && !f.killed;
            && (forall a :: a in e <==> due && (a == Escalation(now) || (dead && a == Reaped)))
            && |e| == (if !due then 0 else if dead then 2 else 1)
            && (due ==> e[0] == Escalation(now)) && (due && dead ==> e[1] == Reaped)
  {
  }

  lemma InThree(a: seq<Action>, b: seq<Action>, c: seq<Action>)
    ensures forall x :: x in a + b + c <==> x in a || x in b || x in c
  {
  }

  lemma PiecesArePrompt(log: seq<Action>, f: Flags, w: Wakeup)
    requires w.Ready? && !w.terminate
    requires KillDue(log, w.now) <==> f.gone && f.deadline <= w.now && !f.killed
    requires Disconnected in log <==> f.gone
    ensures var e, n := Escalated(f, w.now, w.dead), Notice(f.gone, w.resized);
            var added := e + n + if w.sigchld && w.exited && |e| < 2 then Collected(f.gone, w.code)
                                 else Answered(f.gone, w.control, w.later) + Relay(w.local);
            Prompt(log, log + added, w)
  {
    hide KillDue, Escalated, Notice, Collected, Answered, Relay;
    var e, n := Escalated(f, w.now, w.dead), Notice(f.gone, w.resized);
    PiecesHave(f, w);
    KillHas(f, w.now, w.dead);
    if w.sigchld && w.exited && |e| < 2 {
      CollectedIsPrompt(log, f, w, e, n);
    } else {
      ServedIsPrompt(log, f, w, e, n);
    }
  }

  lemma CollectedIsPrompt(log: seq<Action>, f: Flags, w: Wakeup, e: seq<Action>, n: seq<Action>)
    requires w.Ready? && !w.terminate && ExitSeen(log, w) && (Disconnected in log <==> f.gone)
    requires forall a :: a in e <==> KillDue(log, w.now) && (a == Escalation(w.now) || (w.dead && a == Reaped))
    requires KillDue(log, w.now) ==> e != [] && e[0] == Escalation(w.now)
    requires forall a :: a in n <==> a == ControlMessage && w.resized && !f.gone
    ensures Prompt(log, log + (e + n + Collected(f.gone, w.code)), w)
  {
    hide KillDue;
    var last := Collected(f.gone, w.code);
    var added := e + n + last;
    assert (log + added)[|log|..] == added;
    assert added[|e + n|..] == last;
    PiecesHave(f, w);
    hide Collected;
    InThree(e, n, last);
    assert KillDue(log, w.now) ==> added[0] == e[0];
  }

  lemma ServedIsPrompt(log: seq<Action>, f: Flags, w: Wakeup, e: seq<Action>, n: seq<Action>)
    requires w.Ready? && !w.terminate && !ExitSeen(log, w) && (Disconnected in log <==> f.gone)
    requires forall a :: a in e <==> KillDue(log, w.now) && (a == Escalation(w.now) || (w.dead && a == Reaped))
    requires KillDue(log, w.now) ==> e != [] && e[0] == Escalation(w.now)
    requires DeadAtKill(log, w) ==> |e| == 2 && e[1] == Reaped
    requires forall a :: a in n <==> a == ControlMessage && w.resized && !f.gone
    ensures Prompt(log, log + (e + n + (Answered(f.gone, w.control, w.later) + Relay(w.local))), w)
  {
    hide KillDue;
    var a, r := Answered(f.gone, w.control, w.later), Relay(w.local);
    var added := e + n + (a + r);
    assert (log + added)[|log|..] == added;
    if Asked(log, w) && (w.control.Closed? || w.control.Terminate?) {
      assert added[|e + n|..|e + n| + 3] == a;
      assert ShutdownAt(added, |e + n|, w.later);
    }
    PiecesHave(f, w);
    hide Answered, Relay;
    InThree(e, n, a + r);
    assert forall x :: x in a + r <==> x in a || x in r;
    assert KillDue(log, w.now) ==> added[0] == e[0];
    assert DeadAtKill(log, w) ==> added[1] == e[1];
  }

  // ------------------------------------------------------------------ the session

  class Session {
    var hostDisconnected: bool
    var childReaped: bool
    var sighupSent: bool
    var sigkillSent: bool
    var sessionDone: bool
    var shutdownDeadline: int
    var exitCode: int
    ghost var log: seq<Action>

    /** The flags say what has happened. */
    ghost predicate Tracks()
      reads this
    {
      var f := Fold(log);
      && Stepwise(log)
      && hostDisconnected == f.gone
      && sighupSent == f.hungUp
      && shutdownDeadline == f.deadline
      && sigkillSent == f.killed
      && childReaped == f.reaped
      && exitCode == f.code
    }

    ghost predicate Valid()
      reads this
    {
      && Tracks()
      && Fold(log).timed == hostDisconnected == sighupSent
      && (Fold(log).told ==> sessionDone)
      && (sessionDone ==> childReaped && (hostDisconnected || Fold(log).told))
    }

    constructor ()
      ensures Valid() && log == [] && !sessionDone
    {
      hostDisconnected, childReaped, sighupSent, sigkillSent, sessionDone := false, false, false, false, false;
      shutdownDeadline, exitCode := 0, -1;
      log := [];
    }

    ghost method Record(a: Action)
      requires Stepwise(log) && Allowed(Fold(log), a)
      modifies this`log
      ensures log == old(log) + [a] && Stepwise(log) && Fold(log) == After(old(Fold(log)), a)
    {
      Grows(log, a);
      log := log + [a];
    }

    /** waitpid with WNOHANG: a child is returned at most once. */
    method TryReap(dead: bool) returns (reaped: bool)
      requires Tracks()
      modifies this`log, this`childReaped
      ensures Tracks() && reaped == (dead && !old(childReaped))
      ensures log == old(log) + if reaped then [Reaped] else []
      ensures Fold(log) == old(Fold(log)).(reaped := old(childReaped) || dead)
    {
      reaped := dead && !childReaped;
      if reaped {
        Record(Reaped);
        childReaped := true;
      }
    }

    /** kill(pid, SIGKILL) and a blocking waitpid. */
    method KillAndReap()
      requires Tracks() && !childReaped
      modifies this`log, this`childReaped
      ensures Tracks() && log == old(log) + [Cleanup, Reaped] && Cleanup in log
      ensures Fold(log) == old(Fold(log)).(reaped := true)
    {
      Record(Cleanup);
      Record(Reaped);
      childReaped := true;
      assert log[|log| - 2] == Cleanup;
    }

    /** The host is gone or asks for the end: hang up on the child and set its deadline. */
    method StartShutdown(now: int)
      requires Valid() && !hostDisconnected && !childReaped
      modifies this`log, this`hostDisconnected, this`sighupSent, this`shutdownDeadline
      ensures Valid() && hostDisconnected && !childReaped
      ensures log == old(log) + [Disconnected, Hangup, Deadline(now + GRACE)]
    {
      Record(Disconnected);
      hostDisconnected := true;
      if !sighupSent {
        Record(Hangup);
        sighupSent := true;
      }
      Record(Deadline(now + GRACE));
      shutdownDeadline := now + GRACE;
    }

    method SendExitStatus(code: int)
      requires Tracks() && childReaped && !hostDisconnected && !Fold(log).told
      modifies this`log, this`exitCode
      ensures Tracks() && log == old(log) + [ExitStatus(code)]
      ensures Fold(log) == old(Fold(log)).(told := true, code := code)
    {
      Record(ExitStatus(code));
      exitCode := code;
    }

    /** What goes to the host without changing the session. */
    method Say(a: Action)
      requires Valid() && (a.Relayed? || (a.ControlMessage? && !hostDisconnected))
      modifies this`log
      ensures Valid() && log == old(log) + [a] && Fold(log) == old(Fold(log))
    {
      Record(a);
    }

    /** The child has been collected: tell the host, if there still is one. */
    method Conclude(code: int)
      requires Tracks() && childReaped && !Fold(log).told
      modifies this`log, this`exitCode, this`sessionDone
      ensures Tracks() && sessionDone && Fold(log).told == !hostDisconnected
      ensures log == old(log) + if hostDisconnected then [] else [ExitStatus(code)]
      ensures Fold(log).timed == old(Fold(log)).timed
    {
      if !hostDisconnected {
        SendExitStatus(code);
      }
      sessionDone := true;
    }

    /** SIGKILL at the top of an iteration, once the deadline has passed. */
    method Escalate(now: int, dead: bool)
      requires Valid() && !childReaped
      modifies this`log, this`childReaped, this`sigkillSent, this`sessionDone
      ensures Valid() && childReaped == sessionDone && (childReaped ==> hostDisconnected)
      ensures log == old(log) + Escalated(old(Fold(log)), now, dead)
      ensures log == old(log) + if !KillDue(old(log), now) then [] else if dead then [Escalation(now), Reaped] else [Escalation(now)]
      ensures hostDisconnected == old(hostDisconnected)
    {
      DueByFlags(log, now);
      hide KillDue;
      if hostDisconnected && !childReaped && !sigkillSent {
        if now >= shutdownDeadline {
          Record(Escalation(now));
          sigkillSent := true;
          var reaped := TryReap(dead);
          if reaped {
            sessionDone := true;
          }
        }
      }
    }

    /** SIGCHLD was seen: a child that has exited ends the session. */
    method ChildExited(exited: bool, code: int) returns (ended: bool)
      requires Valid() && childReaped == sessionDone
      modifies this`log, this`childReaped, this`sessionDone, this`exitCode
      ensures Valid() && childReaped == sessionDone == (old(childReaped) || exited)
      ensures ended == (exited && !old(childReaped))
      ensures log == old(log) + if ended then Collected(hostDisconnected, code) else []
      ensures !ended ==> Fold(log) == old(Fold(log))
    {
      ended := TryReap(exited);
      if ended {
        Conclude(code);
      }
    }

    /** The control channel is readable. */
    method HandleControl(control: Control, later: int)
      requires Valid() && (childReaped ==> hostDisconnected)
      modifies this`log, this`hostDisconnected, this`sighupSent, this`shutdownDeadline
      ensures Valid() && log == old(log) + Answered(old(hostDisconnected), control, later)
    {
      if !hostDisconnected {
        match control
        case Silent =>
        case Handled =>
        case Unknown => Say(ControlMessage);
        case Closed => StartShutdown(later);
        case Terminate => StartShutdown(later);
      }
    }

    /** What is said at the end of an iteration. */
    method Answer(control: Control, later: int, local: bool)
      requires Valid() && (childReaped ==> hostDisconnected)
      modifies this`log, this`hostDisconnected, this`sighupSent, this`shutdownDeadline
      ensures Valid() && log == old(log) + Answered(old(hostDisconnected), control, later) + Relay(local)
    {
      HandleControl(control, later);
      if local {
        Say(Relayed);
      }
    }

    method NotifySize(resized: bool)
      requires Valid()
      modifies this`log
      ensures Valid() && log == old(log) + Notice(hostDisconnected, resized) && Fold(log) == old(Fold(log))
    {
      if !hostDisconnected && resized {
        Say(ControlMessage);
      }
    }

    /** What an iteration does before it looks at the events. */
    method Begin(now: int, dead: bool, resized: bool)
      requires Valid() && !childReaped
      modifies this`log, this`childReaped, this`sigkillSent, this`sessionDone
      ensures Valid() && childReaped == sessionDone && (childReaped ==> hostDisconnected)
      ensures log == Early(old(log), now, dead, resized)
    {
      Escalate(now, dead);
      NotifySize(resized);
    }

    /** The events of an iteration. */
    method React(w: Wakeup) returns (leave: bool)
      requires Valid() && childReaped == sessionDone && (childReaped ==> hostDisconnected) && w.Ready?
      modifies this
      ensures Valid() && log == Late(old(log), w)
      ensures childReaped == sessionDone && (leave ==> childReaped)
    {
      hide Stepwise, Collected, Answered, Relay;
      leave := false;
      if w.sigchld {
        leave := ChildExited(w.exited, w.code);
      }
      if !leave {
        Answer(w.control, w.later, w.local);
      }
    }

    /** One iteration of the poll loop. */
    method Wake(w: Wakeup) returns (leave: bool)
      requires Valid() && !childReaped && !sessionDone
      modifies this
      ensures Valid() && log == Reaction(old(log), w) && Prompt(old(log), log, w)
      ensures (leave || sessionDone) == Leaves(old(log), w) && (childReaped ==> sessionDone || Cleanup in log)
    {
      ReactionIsPrompt(log, w);
      match w
      case Interrupted(terminate) =>
        leave := terminate;
      case Broken =>
        KillAndReap();
        leave := true;
      case Ready(terminate, _, _, _, _, _, _, _, _, _) =>
        if terminate {
          leave := true;
        } else {
          Begin(w.now, w.dead, w.resized);
          leave := React(w);
        }
    }

    /** The poll loop over the wakeups to come: whether it was left by the last of them. */
    method Poll(ws: seq<Wakeup>) returns (left: bool, ghost logs: seq<seq<Action>>)
      requires Valid() && !childReaped && !sessionDone
      modifies this
      ensures Valid() && Looped(old(log), ws) == log && (childReaped ==> left && (sessionDone || Cleanup in log))
      ensures left == Over(old(log), ws)
      ensures Paced(logs, ws) && logs[0] == old(log) && logs[|logs| - 1] == log
      ensures if left then |logs| > 1 && Stops(log, ws[|logs| - 2]) else |logs| == |ws| + 1
    {
      hide Prompt, Fold, Stepwise, Reaction, Paced, Stops;
      NonePaced(log, ws);
      var i := 0;
      left, logs := false, [log];
      while i < |ws| && !left
        invariant 0 <= i <= |ws| && Valid() && (sessionDone ==> left)
        invariant childReaped ==> left && (sessionDone || Cleanup in log)
        invariant !left ==> Looped(old(log), ws) == Looped(log, ws[i..]) && Over(old(log), ws) == Over(log, ws[i..])
        invariant left ==> Looped(old(log), ws) == log && Over(old(log), ws)
        invariant |logs| == i + 1 && Paced(logs, ws) && logs[0] == old(log) && logs[i] == log
        invariant i > 0 ==> (left <==> Stops(log, ws[i - 1]))
        invariant left ==> i > 0
      {
        assert ws[i..][1..] == ws[i + 1..];
        ghost var before := log;
        var leave := Wake(ws[i]);
        left := leave || sessionDone;
        StopsIsLeaves(before, log, ws[i]);
        PacedOn(logs, log, ws);
        i, logs := i + 1, logs + [log];
      }
    }

    /** The whole session. It is still running if the wakeups run out before it ends.
        The loop's log is `logs`, wakeup after wakeup; a child that is left is killed. */
    method Run(dead: bool, code: int, ws: seq<Wakeup>) returns (returned: bool, exit: int, ghost logs: seq<seq<Action>>)
      requires Valid() && log == [] && !sessionDone
      modifies this
      ensures log == Whole(dead, code, ws) && returned == (dead || Over([], ws))
      ensures Lawful(log, returned, exit)
      ensures dead ==> log == [Reaped, ExitStatus(code)]
      ensures !dead ==>
                && Paced(logs, ws) && logs[0] == []
                && (if returned then |logs| > 1 && Stops(logs[|logs| - 1], ws[|logs| - 2]) else |logs| == |ws| + 1)
                && log == logs[|logs| - 1] + (if returned && Reaped !in logs[|logs| - 1] then [Cleanup, Reaped] else [])
    {
      hide Prompt, Paced, Stops, Lawful, Over, Looped, Reaction;
      logs := [];
      returned := TryReap(dead);
      if returned {
        Conclude(code);
      } else {
        returned, logs := Poll(ws);
        ReapedByFlags(log);
        if returned && !childReaped {
          KillAndReap();
        }
      }
      exit := exitCode;
      StepwiseIsLawful(log);
    }
  }
}
