/**
  Runs of the session seen from the actions: what has to have been done for the session to count as preluded, for a
  command to be written, and for the session to be dead; and runs in which a call comes to its end.
 */
module LeaseRuns {
  import opened Bytes
  import opened Lease
  import Drive

  // ---- what a step adds ----

  /** The log grows, by no written command of call `i`, and by a passed prelude only if `passed`. */
  ghost predicate Grows(s: Session, s': Session, i: nat, passed: bool) {
    && s.log <= s'.log
    && forall p :: |s.log| <= p < |s'.log| ==>
         (s'.log[p].PreludePassed? ==> passed) && s'.log[p] != CommandWritten(i)
  }

  lemma NoteGrows(s: Session, s': Session, e: Entry, i: nat, passed: bool)
    requires s'.log == s.log + [e] && (e.PreludePassed? ==> passed) && e != CommandWritten(i)
    ensures Grows(s, s', i, passed)
  {
  }

  lemma GrowsTwice(s: Session, t: Session, u: Session, i: nat, passed: bool)
    requires Grows(s, t, i, false) && Grows(t, u, i, passed)
    ensures Grows(s, u, i, passed)
  {
    assert forall p :: |s.log| <= p < |t.log| ==> u.log[p] == t.log[p];
  }

  lemma TurnedGrows(s: Session, i: nat, l: Drive.Loop, l': Drive.Loop, j: nat)
    ensures var s' := Turned(s, i, l, l');
            && Grows(s, s', j, false) && s'.calls == s.calls && s'.preluded == s.preluded
            && (s'.dead <==> s.dead || (l'.dead && !l.dead))
  {
    var s1 := Controlled(s, i, l, l');
    if |l'.control| > |l.control| {
      NoteGrows(s, s1, ControlSent(i, l'.control[|l'.control| - 1]), j, false);
    }
    if l'.dead && !l.dead {
      NoteGrows(s1, Die(s1), Died, j, false);
    }
    GrowsTwice(s, s1, DeadIfLoop(s1, l, l'), j, false);
  }

  /** The prelude was completed with exit code 0, not canceled. */
  predicate Passed(l': Drive.Loop, exitCode: int) {
    l'.exit == Some(Drive.Finished(false)) && exitCode == 0
  }

  lemma PreludeOutline(s: Session, i: nat, l: Drive.Loop, l': Drive.Loop, exitCode: int, j: nat)
    requires i < |s.calls| && s.calls[i].phase == InPrelude(l)
    ensures var s' := StepPrelude(s, i, l, l', exitCode);
            && (s'.preluded <==> s.preluded || Passed(l', exitCode))
            && (s'.dead <==> s.dead || (l'.dead && !l.dead))
            && Grows(s, s', j, Passed(l', exitCode))
            && |s'.calls| == |s.calls| && (j != i && j < |s.calls| ==> s'.calls[j] == s.calls[j])
            && (l'.exit.Some? && !Passed(l', exitCode) ==> s'.calls[i].phase == Leaving)
  {
    var s1, s' := Turned(s, i, l, l'), StepPrelude(s, i, l, l', exitCode);
    TurnedGrows(s, i, l, l', j);
    if l'.exit.Some? {
      var e := if Passed(l', exitCode) then PreludePassed(i) else Ending(i, l'.exit.value);
      NoteGrows(s1, s', e, j, Passed(l', exitCode));
      GrowsTwice(s, s1, s', j, Passed(l', exitCode));
    }
  }

  lemma CommandOutline(s: Session, i: nat, l: Drive.Loop, l': Drive.Loop, j: nat)
    requires i < |s.calls| && s.calls[i].phase == InCommand(l)
    ensures var s' := StepCommand(s, i, l, l');
            && s'.preluded == s.preluded && (s'.dead <==> s.dead || (l'.dead && !l.dead)) && Grows(s, s', j, false)
            && |s'.calls| == |s.calls| && (j != i && j < |s.calls| ==> s'.calls[j] == s.calls[j])
  {
    var s1, s' := Turned(s, i, l, l'), StepCommand(s, i, l, l');
    TurnedGrows(s, i, l, l', j);
    if l'.exit.Some? {
      NoteGrows(s1, s', Ending(i, l'.exit.value), j, false);
      GrowsTwice(s, s1, s', j, false);
    }
  }

  lemma PumpOutline(s: Session, i: nat, l: Drive.Loop, l': Drive.Loop, j: nat)
    requires i < |s.calls|
    ensures var s' := StepPump(s, i, l, l');
            && s'.preluded == s.preluded && (s'.dead <==> s.dead || (l'.dead && !l.dead)) && Grows(s, s', j, false)
            && |s'.calls| == |s.calls| && (j < |s.calls| ==> s'.calls[j].phase == s.calls[j].phase)
  {
    var s1, s' := Turned(s, i, l, l'), StepPump(s, i, l, l');
    TurnedGrows(s, i, l, l', j);
    if l'.exit.Some? {
      NoteGrows(s1, s', Ending(i, l'.exit.value), j, false);
      GrowsTwice(s, s1, s', j, false);
    }
  }

  predicate IsTurn(a: Action) {
    a.PreludeTurn? || a.CommandTurn? || a.PumpTurn?
  }

  /** Is the call on its way out? */
  predicate Out(c: Call) {
    c.phase == Leaving || c.phase == Returned
  }

  /** At most one entry more, no passed prelude, and a written command of call `j` only if that is ready to write. */
  ghost predicate AddsOne(s: Session, s': Session, j: nat) {
    || s'.log == s.log
    || exists e :: s'.log == s.log + [e] && !e.PreludePassed?
                   && (e == CommandWritten(j) ==> j < |s.calls| && s.calls[j].phase == Ready)
  }

  /** One entry more, which is not one of those. */
  lemma AddsPlain(s: Session, s': Session, e: Entry, j: nat)
    requires s'.log == s.log + [e] && !e.PreludePassed? && !e.CommandWritten?
    ensures AddsOne(s, s', j)
  {
  }

  lemma WriteOutline(s: Session, i: nat, text: Entry, started: bool, complete: bool, next: Phase, j: nat)
    requires i < |s.calls| && !text.PreludePassed?
    requires text == CommandWritten(j) ==> i == j && s.calls[j].phase == Ready
    ensures var s' := StepWrite(s, i, text, started, complete, next);
            s'.preluded == s.preluded && s'.dead == s.dead && AddsOne(s, s', j)
  {
    if started && !complete { AddsPlain(s, StepWrite(s, i, text, started, complete, next), TextCut(i), j); }
  }

  lemma LeaveOutline(s: Session, i: nat, j: nat)
    requires i < |s.calls|
    ensures StepLeave(s, i).preluded == s.preluded && StepLeave(s, i).dead == s.dead
    ensures AddsOne(s, StepLeave(s, i), j)
  {
    var c, s' := s.calls[i], StepLeave(s, i);
    if c.kind == RunFramed || !c.released {
      AddsPlain(s, s', if s.locked then Released(i) else Panicked(i), j);
    }
  }

  /** The other steps of callers. */
  lemma CallerOutline(s: Session, a: Action, j: nat)
    requires !a.Close? && a.i < |s.calls| && !IsPumpAction(a) && !IsTurn(a)
    ensures CallerStep(s, a).preluded == s.preluded && CallerStep(s, a).dead == s.dead
    ensures AddsOne(s, CallerStep(s, a), j)
  {
    var i, s' := a.i, CallerStep(s, a);
    match a {
      case Start(_) => if s'.log != s.log { AddsPlain(s, s', Started(i, s.dead), j); }
      case Lock(_) => if s'.log != s.log { AddsPlain(s, s', Acquired(i), j); }
      case BeginPrelude(_, started, complete) =>
        WriteOutline(s, i, PreludeWritten(i), started, complete, InPrelude(Drive.START), j);
      case WriteCommand(_, started, complete) =>
        if s.calls[i].phase == Ready {
          var next := if s.calls[i].kind == Pipe then Written else InCommand(Drive.START);
          WriteOutline(s, i, CommandWritten(i), started, complete, next, j);
        }
      case MarkReleased(_) =>
      case Spawn(_) => if s'.log != s.log { AddsPlain(s, s', HandedOff(i), j); }
      case Leave(_) => LeaveOutline(s, i, j);
    }
  }

  lemma CallerPhases(s: Session, a: Action, j: nat)
    requires !a.Close? && a.i < |s.calls| && !IsPumpAction(a) && !IsTurn(a) && j < |s.calls| && Out(s.calls[j])
    ensures |CallerStep(s, a).calls| == |s.calls| && Out(CallerStep(s, a).calls[j])
  {
  }

  /** The other steps of pumps. */
  lemma PumpStepOutline(s: Session, a: Action, j: nat)
    requires !a.Close? && a.i < |s.calls| && IsPumpAction(a) && !IsTurn(a)
    ensures PumpStep(s, a).preluded == s.preluded && PumpStep(s, a).dead == s.dead
    ensures AddsOne(s, PumpStep(s, a), j)
  {
  }

  lemma PumpPhases(s: Session, a: Action, j: nat)
    requires !a.Close? && a.i < |s.calls| && IsPumpAction(a) && !IsTurn(a) && j < |s.calls|
    ensures |PumpStep(s, a).calls| == |s.calls| && PumpStep(s, a).calls[j].phase == s.calls[j].phase
  {
  }

  /** All the steps that turn no loop and are not Close. */
  lemma OtherOutline(s: Session, a: Action, j: nat)
    requires !a.Close? && !IsTurn(a)
    ensures Step(s, a).preluded == s.preluded && Step(s, a).dead == s.dead && AddsOne(s, Step(s, a), j)
    ensures j < |s.calls| && Out(s.calls[j]) ==> |Step(s, a).calls| == |s.calls| && Out(Step(s, a).calls[j])
  {
    if a.i < |s.calls| {
      if IsPumpAction(a) {
        PumpStepOutline(s, a, j);
        if j < |s.calls| { PumpPhases(s, a, j); }
      } else {
        CallerOutline(s, a, j);
        if j < |s.calls| && Out(s.calls[j]) { CallerPhases(s, a, j); }
      }
    }
  }

  lemma AddsOneGrows(s: Session, s': Session, j: nat)
    requires AddsOne(s, s', j) && !(j < |s.calls| && s.calls[j].phase == Ready)
    ensures Grows(s, s', j, false)
  {
    if s'.log != s.log {
      var e :| s'.log == s.log + [e] && !e.PreludePassed?
               && (e == CommandWritten(j) ==> j < |s.calls| && s.calls[j].phase == Ready);
      NoteGrows(s, s', e, j, false);
    }
  }

  // ---- the loops ----

  /** The loop that an action turns, if it is running. */
  function LoopOf(s: Session, a: Action): Option<Drive.Loop> {
    if a.Close? || a.i >= |s.calls| then None
    else
      var c := s.calls[a.i];
      match a
      case PreludeTurn(_, _, _) => if c.phase.InPrelude? then Some(c.phase.loop) else None
      case CommandTurn(_, _) => if c.phase.InCommand? then Some(c.phase.loop) else None
      case PumpTurn(_, _) => if c.pump.Pumping? then Some(c.pump.loop) else None
      case _ => None
  }

  /** The turn loses the channel, fails to send a control byte, or has waited in vain after both. */
  predicate IsDeadly(l: Drive.Loop, e: Drive.Event) {
    match e
    case QueueClosed => true
    case ReadFailed(_) => true
    case ContextDone(sent) => l.ctxArmed && l.stage == 0 && !sent
    case TimerFired(sent) => l.timerArmed && (l.stage == 2 || (l.stage == 1 && !sent))
    case Fed(_) => false
  }

  lemma TurnOfLoop(l: Drive.Loop, e: Drive.Event)
    requires Running(l)
    ensures Drive.Step(l, e).dead <==> IsDeadly(l, e)
    ensures Drive.Step(l, e).exit == Some(Drive.Finished(false)) <==> e == Drive.Fed(Drive.Complete) && l.stage == 0
  {
  }

  /** This turn completes a prelude, with exit code 0 and before any cancellation. */
  predicate PassesPrelude(s: Session, a: Action) {
    && a.PreludeTurn? && LoopOf(s, a).Some?
    && a.e == Drive.Fed(Drive.Complete) && a.exitCode == 0 && LoopOf(s, a).value.stage == 0
  }

  predicate Kills(s: Session, a: Action) {
    a.Close? || (LoopOf(s, a).Some? && IsDeadly(LoopOf(s, a).value, a.e))
  }

  lemma TurnOutline(s: Session, a: Action, j: nat)
    requires Consistent(s) && IsTurn(a)
    ensures var s' := Step(s, a);
            && (s'.preluded <==> s.preluded || PassesPrelude(s, a)) && (s'.dead <==> s.dead || Kills(s, a))
            && Grows(s, s', j, PassesPrelude(s, a))
            && (j < |s.calls| && Out(s.calls[j]) ==> |s'.calls| == |s.calls| && Out(s'.calls[j]))
  {
    if LoopOf(s, a).Some? {
      var i, l := a.i, LoopOf(s, a).value;
      var l' := Drive.Step(l, a.e);
      assert WellShaped(s.calls[i]);
      TurnOfLoop(l, a.e);
      match a {
        case PreludeTurn(_, _, exitCode) => PreludeOutline(s, i, l, l', exitCode, j);
        case CommandTurn(_, _) => CommandOutline(s, i, l, l', j);
        case PumpTurn(_, _) => PumpOutline(s, i, l, l', j);
      }
    }
  }

  /** What a step does to the flags, and to the log. */
  lemma StepOutline(s: Session, a: Action, j: nat)
    requires Consistent(s)
    ensures Step(s, a).preluded <==> s.preluded || PassesPrelude(s, a)
    ensures Step(s, a).dead <==> s.dead || Kills(s, a)
    ensures (j < |s.calls| && s.calls[j].phase == Ready) || Grows(s, Step(s, a), j, PassesPrelude(s, a))
    ensures j < |s.calls| && Out(s.calls[j]) ==> |Step(s, a).calls| == |s.calls| && Out(Step(s, a).calls[j])
  {
    if a.Close? {
      NoteGrows(s, Die(s), Died, j, false);
    } else if IsTurn(a) {
      TurnOutline(s, a, j);
    } else {
      OtherOutline(s, a, j);
      if !(j < |s.calls| && s.calls[j].phase == Ready) { AddsOneGrows(s, Step(s, a), j); }
    }
  }

  // ---- runs ----

  /** The session before the `k`-th action. */
  function Before(kinds: seq<Kind>, actions: seq<Action>, k: nat): Session
    requires k <= |actions|
  {
    Run(Init(kinds), actions[..k])
  }

  lemma BeforeInit(kinds: seq<Kind>, actions: seq<Action>, k: nat)
    requires k < |actions|
    ensures var init := actions[..|actions| - 1];
            Before(kinds, actions, k) == Before(kinds, init, k) && (k < |init| ==> actions[k] == init[k])
  {
    assert actions[..k] == actions[..|actions| - 1][..k];
  }

  lemma LastStep(kinds: seq<Kind>, actions: seq<Action>)
    requires actions != []
    ensures var n := |actions| - 1;
            && Run(Init(kinds), actions) == Step(Before(kinds, actions, n), actions[n])
            && Before(kinds, actions, n) == Run(Init(kinds), actions[..n]) && Consistent(Before(kinds, actions, n))
  {
    LeaseSafety(kinds, actions[..|actions| - 1]);
  }

  /** The `k`-th action completes a prelude with exit code 0, not canceled. */
  ghost predicate PassesAt(kinds: seq<Kind>, actions: seq<Action>, k: int) {
    0 <= k < |actions| && PassesPrelude(Before(kinds, actions, k), actions[k])
  }

  /** The `k`-th action is Close or a deadly turn. */
  ghost predicate KillsAt(kinds: seq<Kind>, actions: seq<Action>, k: int) {
    0 <= k < |actions| && Kills(Before(kinds, actions, k), actions[k])
  }

  /** What a turn logs: the control byte it sent, and then nothing of the kind. */
  ghost predicate LogsControl(s: Session, s': Session, i: nat, l: Drive.Loop, l': Drive.Loop) {
    && s.log <= s'.log
    && if |l'.control| > |l.control|
       then |s'.log| > |s.log| && s'.log[|s.log|] == ControlSent(i, l'.control[|l'.control| - 1])
       else forall p :: |s.log| <= p < |s'.log| ==> !s'.log[p].ControlSent?
  }

  lemma TurnedLogs(s: Session, i: nat, l: Drive.Loop, l': Drive.Loop)
    ensures LogsControl(s, Turned(s, i, l, l'), i, l, l')
  {
  }

  lemma EndingLogs(s: Session, t: Session, s': Session, i: nat, l: Drive.Loop, l': Drive.Loop, e: Entry)
    requires LogsControl(s, t, i, l, l') && s'.log == t.log + [e] && !e.ControlSent?
    ensures LogsControl(s, s', i, l, l')
  {
  }

  /** A turn of a loop that sends a control byte puts it on the log first; a turn that sends none puts none there. */
  lemma ControlBytesAreLogged(s: Session, a: Action)
    requires LoopOf(s, a).Some? && IsTurn(a)
    ensures LogsControl(s, Step(s, a), a.i, LoopOf(s, a).value, Drive.Step(LoopOf(s, a).value, a.e))
  {
    var i, l := a.i, LoopOf(s, a).value;
    var l' := Drive.Step(l, a.e);
    TurnedLogs(s, i, l, l');
    if l'.exit.Some? {
      var e := if a.PreludeTurn? && Passed(l', a.exitCode) then PreludePassed(i) else Ending(i, l'.exit.value);
      LastLogged(s, a, l, l', e);
      EndingLogs(s, Turned(s, i, l, l'), Step(s, a), i, l, l', e);
    } else {
      NothingElseLogged(s, a, l, l');
    }
  }

  lemma LastLogged(s: Session, a: Action, l: Drive.Loop, l': Drive.Loop, e: Entry)
    requires LoopOf(s, a) == Some(l) && IsTurn(a) && l' == Drive.Step(l, a.e) && l'.exit.Some?
    requires e == if a.PreludeTurn? && Passed(l', a.exitCode) then PreludePassed(a.i) else Ending(a.i, l'.exit.value)
    ensures Step(s, a).log == Turned(s, a.i, l, l').log + [e]
  {
  }

  lemma NothingElseLogged(s: Session, a: Action, l: Drive.Loop, l': Drive.Loop)
    requires LoopOf(s, a) == Some(l) && IsTurn(a) && l' == Drive.Step(l, a.e) && l'.exit.None?
    ensures Step(s, a).log == Turned(s, a.i, l, l').log
  {
  }

  /** A write that stops half way is on the log as such, and its call goes no further. */
  lemma WritesAreLogged(s: Session, a: Action)
    requires a.BeginPrelude? || a.WriteCommand?
    requires a.i < |s.calls| && s.calls[a.i].phase == (if a.BeginPrelude? then Holding else Ready)
    ensures var s', text := Step(s, a), if a.BeginPrelude? then PreludeWritten(a.i) else CommandWritten(a.i);
            && s'.log == (if !a.started then s.log
                          else if a.complete then s.log + [text] else s.log + [TextCut(a.i)])
            && (s'.calls[a.i].phase == Leaving <==> !a.started || !a.complete)
  {
  }

  // ---- the prelude ----

  lemma PassesInit(kinds: seq<Kind>, actions: seq<Action>, k: nat)
    requires k < |actions| - 1
    ensures PassesAt(kinds, actions, k) <==> PassesAt(kinds, actions[..|actions| - 1], k)
  {
    BeforeInit(kinds, actions, k);
  }

  lemma PreludedByLast(kinds: seq<Kind>, actions: seq<Action>)
    requires actions != []
    ensures Run(Init(kinds), actions).preluded <==>
            Run(Init(kinds), actions[..|actions| - 1]).preluded || PassesAt(kinds, actions, |actions| - 1)
  {
    LastStep(kinds, actions);
    StepOutline(Before(kinds, actions, |actions| - 1), actions[|actions| - 1], 0);
  }

  lemma {:induction false} PreludedBy(kinds: seq<Kind>, actions: seq<Action>) returns (k: nat)
    requires Run(Init(kinds), actions).preluded
    ensures PassesAt(kinds, actions, k)
  {
    PreludedByLast(kinds, actions);
    k := |actions| - 1;
    if !PassesAt(kinds, actions, k) {
      k := PreludedBy(kinds, actions[..|actions| - 1]);
      PassesInit(kinds, actions, k);
    }
  }

  lemma {:induction false} PreludedFrom(kinds: seq<Kind>, actions: seq<Action>, k: nat)
    requires PassesAt(kinds, actions, k)
    ensures Run(Init(kinds), actions).preluded
  {
    PreludedByLast(kinds, actions);
    if k < |actions| - 1 {
      PassesInit(kinds, actions, k);
      PreludedFrom(kinds, actions[..|actions| - 1], k);
    }
  }

  /** The session counts as preluded exactly once some prelude has completed so. */
  lemma PreludedExactly(kinds: seq<Kind>, actions: seq<Action>)
    ensures Run(Init(kinds), actions).preluded <==> exists k :: PassesAt(kinds, actions, k)
  {
    if Run(Init(kinds), actions).preluded {
      var k := PreludedBy(kinds, actions);
    } else if k :| PassesAt(kinds, actions, k) {
      PreludedFrom(kinds, actions, k);
    }
  }

  lemma {:induction false} PassedAt(kinds: seq<Kind>, actions: seq<Action>, p: nat) returns (k: nat)
    requires p < |Run(Init(kinds), actions).log| && Run(Init(kinds), actions).log[p].PreludePassed?
    ensures PassesAt(kinds, actions, k) && |Before(kinds, actions, k).log| <= p
  {
    var init, n := actions[..|actions| - 1], |actions| - 1;
    var s := Before(kinds, actions, n);
    LastStep(kinds, actions);
    PassedNow(s, actions[n], p);
    if p < |s.log| {
      k := PassedAt(kinds, init, p);
      BeforeInit(kinds, actions, k);
    } else {
      k := n;
    }
  }

  /** An entry for a passed prelude comes of passing one. */
  lemma PassedNow(s: Session, a: Action, p: nat)
    requires Consistent(s) && p < |Step(s, a).log| && Step(s, a).log[p].PreludePassed?
    ensures s.log <= Step(s, a).log && (p < |s.log| || PassesPrelude(s, a))
  {
    if IsTurn(a) {
      TurnOutline(s, a, 0);
    } else if !a.Close? {
      OtherOutline(s, a, 0);
    }
  }

  /**
    In every run, before any user command is written a prelude has completed with exit code 0 and without having been
    canceled.
   */
  lemma NoCommandBeforePrelude(kinds: seq<Kind>, actions: seq<Action>, i: nat, q: nat)
    requires q < |Run(Init(kinds), actions).log| && Run(Init(kinds), actions).log[q] == CommandWritten(i)
    ensures exists k :: PassesAt(kinds, actions, k) && |Before(kinds, actions, k).log| < q
  {
    LeaseSafety(kinds, actions);
    var p := PassedBeforeCommand(Run(Init(kinds), actions).log, i, q);
    var k := PassedAt(kinds, actions, p);
  }

  /** The call is on its way out, and its command was never written. */
  ghost predicate Forgone(s: Session, i: nat) {
    i < |s.calls| && Out(s.calls[i]) && CommandWritten(i) !in s.log
  }

  lemma NotWritten(s: Session, s': Session, i: nat, passed: bool)
    requires Grows(s, s', i, passed) && CommandWritten(i) !in s.log
    ensures CommandWritten(i) !in s'.log
  {
    forall p | 0 <= p < |s'.log| ensures s'.log[p] != CommandWritten(i) {
      if p < |s.log| { assert s'.log[p] == s.log[p] && s.log[p] in s.log; }
    }
  }

  lemma StaysForgone(s: Session, i: nat, a: Action)
    requires Consistent(s) && Forgone(s, i)
    ensures Consistent(Step(s, a)) && Forgone(Step(s, a), i)
  {
    StepConsistent(s, a);
    StepOutline(s, a, i);
    NotWritten(s, Step(s, a), i, PassesPrelude(s, a));
  }

  lemma {:induction false} ForgoneForGood(s: Session, i: nat, actions: seq<Action>)
    requires Consistent(s) && Forgone(s, i)
    ensures Consistent(Run(s, actions)) && Forgone(Run(s, actions), i)
  {
    if actions != [] {
      ForgoneForGood(s, i, actions[..|actions| - 1]);
      StaysForgone(Run(s, actions[..|actions| - 1]), i, actions[|actions| - 1]);
    }
  }

  /** A turn that ends a prelude in any other way: another exit code, canceled, or not completed. */
  lemma EndsForgone(s: Session, a: Action)
    requires Consistent(s) && a.PreludeTurn? && LoopOf(s, a).Some? && !PassesPrelude(s, a)
    requires Drive.Step(LoopOf(s, a).value, a.e).exit.Some?
    ensures Consistent(Step(s, a)) && Step(s, a).preluded == s.preluded && Forgone(Step(s, a), a.i)
  {
    var i, l := a.i, LoopOf(s, a).value;
    assert WellShaped(s.calls[i]) && Fits(s.calls[i], i, s.log);
    TurnOfLoop(l, a.e);
    PreludeOutline(s, i, l, Drive.Step(l, a.e), a.exitCode, i);
    NotWritten(s, Step(s, a), i, false);
    StepConsistent(s, a);
  }

  /**
    A prelude that ends in any other way leaves `preluded` as it was, and the call never writes its command, whatever
    happens later.
   */
  lemma FailedPreludeWritesNothing(kinds: seq<Kind>, before: seq<Action>, a: Action, later: seq<Action>)
    requires var s := Run(Init(kinds), before);
             && a.PreludeTurn? && LoopOf(s, a).Some? && !PassesPrelude(s, a)
             && Drive.Step(LoopOf(s, a).value, a.e).exit.Some?
    ensures var s := Run(Init(kinds), before);
            && Step(s, a).preluded == s.preluded
            && CommandWritten(a.i) !in Run(Step(s, a), later).log
  {
    LeaseSafety(kinds, before);
    EndsForgone(Run(Init(kinds), before), a);
    ForgoneForGood(Step(Run(Init(kinds), before), a), a.i, later);
  }

  // ---- the dead flag ----

  lemma KillsInit(kinds: seq<Kind>, actions: seq<Action>, k: nat)
    requires k < |actions| - 1
    ensures KillsAt(kinds, actions, k) <==> KillsAt(kinds, actions[..|actions| - 1], k)
  {
    BeforeInit(kinds, actions, k);
  }

  lemma DeadByLast(kinds: seq<Kind>, actions: seq<Action>)
    requires actions != []
    ensures Run(Init(kinds), actions).dead <==>
            Run(Init(kinds), actions[..|actions| - 1]).dead || KillsAt(kinds, actions, |actions| - 1)
  {
    LastStep(kinds, actions);
    StepOutline(Before(kinds, actions, |actions| - 1), actions[|actions| - 1], 0);
  }

  lemma {:induction false} KilledBy(kinds: seq<Kind>, actions: seq<Action>) returns (k: nat)
    requires Run(Init(kinds), actions).dead
    ensures KillsAt(kinds, actions, k)
  {
    DeadByLast(kinds, actions);
    k := |actions| - 1;
    if !KillsAt(kinds, actions, k) {
      k := KilledBy(kinds, actions[..|actions| - 1]);
      KillsInit(kinds, actions, k);
    }
  }

  lemma {:induction false} DeadFrom(kinds: seq<Kind>, actions: seq<Action>, k: nat)
    requires KillsAt(kinds, actions, k)
    ensures Run(Init(kinds), actions).dead
  {
    DeadByLast(kinds, actions);
    if k < |actions| - 1 {
      KillsInit(kinds, actions, k);
      DeadFrom(kinds, actions[..|actions| - 1], k);
    }
  }

  /** In every run the session is dead exactly once something has killed it. */
  lemma DeadExactly(kinds: seq<Kind>, actions: seq<Action>)
    ensures Run(Init(kinds), actions).dead <==> exists k :: KillsAt(kinds, actions, k)
  {
    if Run(Init(kinds), actions).dead {
      var k := KilledBy(kinds, actions);
    } else if k :| KillsAt(kinds, actions, k) {
      DeadFrom(kinds, actions, k);
    }
  }

  // ---- calls that come to their end ----

  /** The calls with call `i` put to `c`, and the log with `e` after it. */
  function Moved(s: Session, i: nat, c: Call, e: Entry): Session
    requires i < |s.calls|
  {
    Note(With(s, i, c), e)
  }

  lemma MovedTwice(s: Session, i: nat, c: Call, d: Call)
    requires i < |s.calls|
    ensures With(With(s, i, c), i, d) == With(s, i, d)
  {
    assert s.calls[i := c][i := d] == s.calls[i := d];
  }

  /** Whoever gets the mutex of a preluded session writes its command at once, on a session that is dead or not. */
  lemma LockAndWrite(s: Session, i: nat)
    requires i < |s.calls| && s.calls[i].phase == AtLock && !s.locked && s.preluded
    ensures var c := s.calls[i];
            var next := if c.kind == Pipe then Written else InCommand(Drive.START);
            Step(Step(s, Lock(i)), WriteCommand(i, true, true)) ==
            With(s, i, c.(phase := next)).(locked := true, log := s.log + [Acquired(i)] + [CommandWritten(i)])
  {
    var c := s.calls[i];
    MovedTwice(s, i, c.(phase := Ready), c.(phase := if c.kind == Pipe then Written else InCommand(Drive.START)));
  }

  /** A command that completes gives the mutex back, and leaves the session as fit as it was. */
  lemma FramedCallCompletes(s: Session, i: nat)
    requires i < |s.calls| && s.calls[i].phase == AtLock && s.calls[i].kind == RunFramed && !s.locked && s.preluded
    ensures var t := Step(Step(Step(Step(s, Lock(i)), WriteCommand(i, true, true)),
                               CommandTurn(i, Drive.Fed(Drive.Complete))), Leave(i));
            && t.log == s.log + [Acquired(i)] + [CommandWritten(i)] + [Completed(i)] + [Released(i)]
            && t == With(s, i, s.calls[i].(phase := Returned)).(log := t.log)
  {
    LockAndWrite(s, i);
    var c := s.calls[i];
    var s2 := Step(Step(s, Lock(i)), WriteCommand(i, true, true));
    var s3 := Step(s2, CommandTurn(i, Drive.Fed(Drive.Complete)));
    MovedTwice(s, i, c.(phase := InCommand(Drive.START)), c.(phase := Leaving));
    assert s3 == With(s, i, c.(phase := Leaving)).(locked := true, log := s2.log + [Completed(i)]);
    MovedTwice(s, i, c.(phase := Leaving), c.(phase := Returned));
  }

  /** Pipe hands over and returns; its pump then sees END, ends the output cleanly, reports, closes and unlocks. */
  lemma PipeHandsOver(s: Session, i: nat)
    requires i < |s.calls| && s.calls[i].phase == AtLock && s.calls[i].kind == Pipe && s.calls[i].pump.NoPump?
    requires !s.locked && s.preluded
    ensures var t := Step(Step(Step(Step(Step(s, Lock(i)), WriteCommand(i, true, true)),
                                    MarkReleased(i)), Spawn(i)), Leave(i));
            t == With(s, i, s.calls[i].(phase := Returned, released := true, pump := Pumping(Drive.START)))
                   .(locked := true, log := s.log + [Acquired(i)] + [CommandWritten(i)] + [HandedOff(i)])
  {
    LockAndWrite(s, i);
    var c := s.calls[i];
    var s2 := Step(Step(s, Lock(i)), WriteCommand(i, true, true));
    var c3 := c.(phase := HandingOver, released := true);
    var s3 := Step(s2, MarkReleased(i));
    MovedTwice(s, i, c.(phase := Written), c3);
    assert s3 == With(s, i, c3).(locked := true, log := s2.log);
    var c4 := c3.(phase := Leaving, pump := Pumping(Drive.START));
    var s4 := Step(s3, Spawn(i));
    MovedTwice(s, i, c3, c4);
    assert s4 == With(s, i, c4).(locked := true, log := s2.log + [HandedOff(i)]);
    MovedTwice(s, i, c4, c4.(phase := Returned));
  }

  lemma PumpCompletes(s: Session, i: nat)
    requires i < |s.calls| && s.calls[i].pump == Pumping(Drive.START) && s.locked
    requires s.calls[i].results == 0 && !s.calls[i].closed
    ensures var t := Step(Step(Step(Step(Step(s, PumpTurn(i, Drive.Fed(Drive.Complete))),
                                         PumpFinalize(i)), PumpSend(i)), PumpClose(i)), PumpUnlock(i));
            && t.log == s.log + [Completed(i)] + [StdoutEnded(i, true)] + [ResultSent(i)] + [ResultClosed(i)]
                        + [Released(i)]
            && t == With(s, i, s.calls[i].(pump := Ended, results := 1, closed := true)).(locked := false, log := t.log)
  {
    var c, x := s.calls[i], Drive.Finished(false);
    var c1, c2 := c.(pump := Finalizing(x)), c.(pump := Sending(x));
    var c3, c4 := c.(pump := Sent, results := 1), c.(pump := Closed, results := 1, closed := true);
    var s1 := Step(s, PumpTurn(i, Drive.Fed(Drive.Complete)));
    assert s1 == Moved(s, i, c1, Completed(i));
    var s2 := Step(s1, PumpFinalize(i));
    MovedTwice(s, i, c1, c2);
    assert s2 == Moved(s1, i, c2, StdoutEnded(i, true));
    var s3 := Step(s2, PumpSend(i));
    MovedTwice(s, i, c2, c3);
    assert s3 == Moved(s2, i, c3, ResultSent(i));
    var s4 := Step(s3, PumpClose(i));
    MovedTwice(s, i, c3, c4);
    assert s4 == Moved(s3, i, c4, ResultClosed(i));
    MovedTwice(s, i, c4, c4.(pump := Ended));
  }
}
