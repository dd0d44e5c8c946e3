/**
  FramedSession as a protocol: calls, the pump goroutines of Pipe and Close, interleaved in any way. A Pipe call and
  its pump are two threads that share the duty to unlock; a flag in the call says which of them has it.
 */
module Lease {
  import opened Bytes
  import Drive

  datatype Kind = RunFramed | Pipe

  /** Where the calling goroutine is. */
  datatype Phase =
    | NotStarted
    | Rejected
    | AtLock
    | Holding
    | InPrelude(loop: Drive.Loop)
    | Ready
    | InCommand(loop: Drive.Loop)
    | Written
    | HandingOver
    | Leaving
    | Returned

  /** Where the pump goroutine is, if there is one. */
  datatype Pump =
    | NoPump
    | Pumping(loop: Drive.Loop)
    | Finalizing(exit: Drive.Exit)
    | Sending(exit: Drive.Exit)
    | Sent
    | Closed
    | Ended

  /** `released` is the flag that Pipe's deferred release looks at; `results` and `closed` are the result channel. */
  datatype Call = Call(kind: Kind, phase: Phase, released: bool, pump: Pump, results: nat, closed: bool)

  /** What an observer of the session sees, in order. */
  datatype Entry =
    | Started(id: nat, dead: bool)
    | Acquired(id: nat)
    | PreludeWritten(id: nat)
    | PreludePassed(id: nat)
    | CommandWritten(id: nat)
    | TextCut(id: nat)              // only part of a prelude or command could be written
    | HandedOff(id: nat)
    | ControlSent(id: nat, c: char)
    | Completed(id: nat)            // END was seen
    | Abandoned(id: nat)            // reading stopped before END was seen
    | StdoutEnded(id: nat, clean: bool)
    | ResultSent(id: nat)
    | ResultClosed(id: nat)
    | Released(id: nat)
    | StdinWritten(id: nat)
    | Panicked(id: nat)             // unlocking what is not locked, or using a closed channel
    | Died

  type Log = seq<Entry>

  datatype Session = Session(calls: seq<Call>, locked: bool, preluded: bool, dead: bool, log: Log)

  /** One step of one goroutine; the arguments are what the environment decides. */
  datatype Action =
    | Start(i: nat)
    | Lock(i: nat)
    | BeginPrelude(i: nat, started: bool, complete: bool)
    | PreludeTurn(i: nat, e: Drive.Event, exitCode: int)
    | WriteCommand(i: nat, started: bool, complete: bool)
    | CommandTurn(i: nat, e: Drive.Event)
    | MarkReleased(i: nat)
    | Spawn(i: nat)
    | Leave(i: nat)
    | PumpTurn(i: nat, e: Drive.Event)
    | PumpFinalize(i: nat)
    | PumpSend(i: nat)
    | PumpClose(i: nat)
    | PumpUnlock(i: nat)
    | StdinWrite(i: nat)
    | Close

  function Init(kinds: seq<Kind>): Session {
    Session(seq(|kinds|, i requires 0 <= i < |kinds| => Call(kinds[i], NotStarted, false, NoPump, 0, false)),
            false, false, false, [])
  }

  function With(s: Session, i: nat, c: Call): Session
    requires i < |s.calls|
  {
    s.(calls := s.calls[i := c])
  }

  function Note(s: Session, e: Entry): Session {
    s.(log := s.log + [e])
  }

  function Die(s: Session): Session {
    Note(s, Died).(dead := true)
  }

  /** The mutex has no owner: unlocking opens it whoever locked it, and panics when it is open. */
  function Unlock(s: Session, i: nat): Session {
    if s.locked then Note(s, Released(i)).(locked := false) else Note(s, Panicked(i))
  }

  /** The effects of one turn of a select loop that are visible outside it. */
  function Turned(s: Session, i: nat, l: Drive.Loop, l': Drive.Loop): Session {
    DeadIfLoop(Controlled(s, i, l, l'), l, l')
  }

  function Controlled(s: Session, i: nat, l: Drive.Loop, l': Drive.Loop): Session {
    if |l'.control| > |l.control| then Note(s, ControlSent(i, l'.control[|l'.control| - 1])) else s
  }

  function DeadIfLoop(s: Session, l: Drive.Loop, l': Drive.Loop): Session {
    if l'.dead && !l.dead then Die(s) else s
  }

  /** How a loop that returned leaves the text it was reading for. */
  function Ending(i: nat, x: Drive.Exit): Entry {
    if x.Finished? then Completed(i) else Abandoned(i)
  }

  /** One turn of the loop that reads for a prelude, from `l` to `l'`. */
  function StepPrelude(s: Session, i: nat, l: Drive.Loop, l': Drive.Loop, exitCode: int): Session
    requires i < |s.calls|
  {
    var c := s.calls[i];
    var s1 := Turned(s, i, l, l');
    if l'.exit.None? then With(s1, i, c.(phase := InPrelude(l')))
    else if l'.exit == Some(Drive.Finished(false)) && exitCode == 0
    then Note(With(s1, i, c.(phase := Ready)), PreludePassed(i)).(preluded := true)
    else Note(With(s1, i, c.(phase := Leaving)), Ending(i, l'.exit.value))
  }

  /** One turn of the loop of a RunFramed command. */
  function StepCommand(s: Session, i: nat, l: Drive.Loop, l': Drive.Loop): Session
    requires i < |s.calls|
  {
    var c := s.calls[i];
    var s1 := Turned(s, i, l, l');
    if l'.exit.None? then With(s1, i, c.(phase := InCommand(l')))
    else Note(With(s1, i, c.(phase := Leaving)), Ending(i, l'.exit.value))
  }

  /** One turn of a pump's loop. */
  function StepPump(s: Session, i: nat, l: Drive.Loop, l': Drive.Loop): Session
    requires i < |s.calls|
  {
    var c := s.calls[i];
    var s1 := Turned(s, i, l, l');
    if l'.exit.None? then With(s1, i, c.(pump := Pumping(l')))
    else Note(With(s1, i, c.(pump := Finalizing(l'.exit.value))), Ending(i, l'.exit.value))
  }

  /** A write that fails may have put part of the text on the channel. */
  function StepWrite(s: Session, i: nat, text: Entry, started: bool, complete: bool, next: Phase): Session
    requires i < |s.calls|
  {
    var c := s.calls[i];
    if !started then With(s, i, c.(phase := Leaving))
    else if complete then Note(With(s, i, c.(phase := next)), text)
    else Note(With(s, i, c.(phase := Leaving)), TextCut(i))
  }

  /** The deferred release: of RunFramed unconditional, of Pipe only if `released` is still false. */
  function StepLeave(s: Session, i: nat): Session
    requires i < |s.calls|
  {
    var c := s.calls[i];
    if c.kind == RunFramed then Unlock(With(s, i, c.(phase := Returned)), i)
    else if !c.released then Unlock(With(s, i, c.(phase := Returned, released := true)), i)
    else With(s, i, c.(phase := Returned))
  }

  /** The result channel takes one result; sending to it or closing it panics when it is closed. */
  function StepSend(s: Session, i: nat): Session
    requires i < |s.calls|
  {
    var c := s.calls[i];
    if c.closed then Note(s, Panicked(i))
    else if c.results > 0 then s
    else Note(With(s, i, c.(pump := Sent, results := 1)), ResultSent(i))
  }

  function StepClose(s: Session, i: nat): Session
    requires i < |s.calls|
  {
    var c := s.calls[i];
    if c.closed then Note(s, Panicked(i)) else Note(With(s, i, c.(pump := Closed, closed := true)), ResultClosed(i))
  }

  /** The steps of the calling goroutine. */
  function CallerStep(s: Session, a: Action): Session
    requires !a.Close? && a.i < |s.calls|
  {
    var i, c := a.i, s.calls[a.i];
    match a
    case Start(_) =>
      if c.phase == NotStarted
      then Note(With(s, i, c.(phase := if s.dead then Rejected else AtLock)), Started(i, s.dead)) else s
    case Lock(_) =>
      if c.phase == AtLock && !s.locked
      then Note(With(s, i, c.(phase := if s.preluded then Ready else Holding)), Acquired(i)).(locked := true) else s
    case BeginPrelude(_, started, complete) =>
      if c.phase == Holding then StepWrite(s, i, PreludeWritten(i), started, complete, InPrelude(Drive.START)) else s
    case PreludeTurn(_, e, exitCode) =>
      if c.phase.InPrelude? then StepPrelude(s, i, c.phase.loop, Drive.Step(c.phase.loop, e), exitCode) else s
    case WriteCommand(_, started, complete) =>
      if c.phase == Ready
      then StepWrite(s, i, CommandWritten(i), started, complete,
                     if c.kind == Pipe then Written else InCommand(Drive.START)) else s
    case CommandTurn(_, e) =>
      if c.phase.InCommand? then StepCommand(s, i, c.phase.loop, Drive.Step(c.phase.loop, e)) else s
    case MarkReleased(_) => if c.phase == Written then With(s, i, c.(phase := HandingOver, released := true)) else s
    case Spawn(_) =>
      if c.phase == HandingOver
      then Note(With(s, i, c.(phase := Leaving, pump := Pumping(Drive.START))), HandedOff(i)) else s
    case Leave(_) => if c.phase == Leaving then StepLeave(s, i) else s
    case _ => s
  }

  /** The steps of a pump, and of whoever holds the writer that Pipe returned. */
  function PumpStep(s: Session, a: Action): Session
    requires !a.Close? && a.i < |s.calls|
  {
    var i, c := a.i, s.calls[a.i];
    match a
    case PumpTurn(_, e) =>
      if c.pump.Pumping? then StepPump(s, i, c.pump.loop, Drive.Step(c.pump.loop, e)) else s
    case PumpFinalize(_) =>
      if c.pump.Finalizing?
      then Note(With(s, i, c.(pump := Sending(c.pump.exit))), StdoutEnded(i, c.pump.exit.Finished?)) else s
    case PumpSend(_) => if c.pump.Sending? then StepSend(s, i) else s
    case PumpClose(_) => if c.pump == Sent then StepClose(s, i) else s
    case PumpUnlock(_) => if c.pump == Closed then Unlock(With(s, i, c.(pump := Ended)), i) else s
    case StdinWrite(_) => if c.phase == Returned && HandedOff(i) in s.log then Note(s, StdinWritten(i)) else s
    case _ => s
  }

  predicate IsPumpAction(a: Action) {
    a.PumpTurn? || a.PumpFinalize? || a.PumpSend? || a.PumpClose? || a.PumpUnlock? || a.StdinWrite?
  }

  /** One atomic step; an action that is not possible changes nothing. */
  function Step(s: Session, a: Action): Session {
    if a.Close? then Die(s)
    else if a.i >= |s.calls| then s
    else if IsPumpAction(a) then PumpStep(s, a)
    else CallerStep(s, a)
  }

  function Run(s: Session, actions: seq<Action>): Session {
    if actions == [] then s else Step(Run(s, actions[..|actions| - 1]), actions[|actions| - 1])
  }

  // ---- the law of the log, which knows nothing of the calls ----

  /** Who locked the session's mutex last, unless it was unlocked since. */
  function Holder(log: Log): Option<nat> {
    if log == [] then None
    else HolderAfter(Holder(log[..|log| - 1]), log[|log| - 1])
  }

  function HolderAfter(h: Option<nat>, e: Entry): Option<nat> {
    match e
    case Acquired(i) => Some(i)
    case Released(_) => None
    case _ => h
  }

  /** Whose prelude or command is being read for. */
  function InFlight(log: Log): Option<nat> {
    if log == [] then None
    else FlightAfter(InFlight(log[..|log| - 1]), log[|log| - 1])
  }

  function FlightAfter(f: Option<nat>, e: Entry): Option<nat> {
    match e
    case PreludeWritten(i) => Some(i)
    case CommandWritten(i) => Some(i)
    case PreludePassed(_) => None
    case Completed(_) => None
    case Abandoned(_) => None
    case _ => f
  }

  predicate PreludeHasPassed(log: Log) { exists k :: 0 <= k < |log| && log[k].PreludePassed? }

  /** The entry `e` may follow `log`. */
  predicate Allowed(log: Log, e: Entry) {
    match e
    case Started(i, dead) => Started(i, true) !in log && Started(i, false) !in log && (dead <==> Died in log)
    case Acquired(i) => Holder(log) == None && Acquired(i) !in log && Started(i, false) in log
    case PreludeWritten(i) => Holder(log) == Some(i) && InFlight(log) == None && !PreludeHasPassed(log)
    case PreludePassed(i) => Holder(log) == Some(i) && InFlight(log) == Some(i)
    case CommandWritten(i) =>
      Holder(log) == Some(i) && InFlight(log) == None && PreludeHasPassed(log) && CommandWritten(i) !in log
    case TextCut(i) => Holder(log) == Some(i) && InFlight(log) == None
    case HandedOff(i) => Holder(log) == Some(i) && InFlight(log) == Some(i) && HandedOff(i) !in log
    case ControlSent(i, _) => Holder(log) == Some(i) && InFlight(log) == Some(i)
    case Completed(i) => Holder(log) == Some(i) && InFlight(log) == Some(i)
    case Abandoned(i) => Holder(log) == Some(i) && InFlight(log) == Some(i)
    case StdoutEnded(i, clean) =>
      && Holder(log) == Some(i) && HandedOff(i) in log && ResultSent(i) !in log
      && (clean <==> Completed(i) in log)
    case ResultSent(i) => Holder(log) == Some(i) && HandedOff(i) in log && ResultSent(i) !in log
    case ResultClosed(i) => Holder(log) == Some(i) && ResultSent(i) in log && ResultClosed(i) !in log
    case Released(i) =>
      Holder(log) == Some(i) && InFlight(log) == None && (HandedOff(i) in log ==> ResultClosed(i) in log)
    case StdinWritten(i) => HandedOff(i) in log
    case Panicked(_) => false
    case Died => true
  }

  predicate Lawful(log: Log) {
    log == [] || (Lawful(log[..|log| - 1]) && Allowed(log[..|log| - 1], log[|log| - 1]))
  }

  lemma Appended(log: Log, e: Entry)
    ensures Lawful(log + [e]) <==> Lawful(log) && Allowed(log, e)
    ensures Holder(log + [e]) == HolderAfter(Holder(log), e)
    ensures InFlight(log + [e]) == FlightAfter(InFlight(log), e)
    ensures PreludeHasPassed(log + [e]) <==> PreludeHasPassed(log) || e.PreludePassed?
  {
    assert (log + [e])[..|log|] == log;
    if k :| 0 <= k < |log| && log[k].PreludePassed? {
      assert (log + [e])[k] == log[k];
    }
    if e.PreludePassed? {
      assert (log + [e])[|log|] == e;
    }
  }

  // ---- what holds in every state ----

  predicate InLockedPart(p: Phase) {
    !p.NotStarted? && !p.Rejected? && !p.AtLock? && !p.Returned?
  }

  predicate PumpHolds(p: Pump) {
    !p.NoPump? && !p.Ended?
  }

  /** The call has the duty to unlock: its caller as long as `released` is false, then its pump. */
  predicate Owns(c: Call) {
    (InLockedPart(c.phase) && !c.released) || c.phase == HandingOver || PumpHolds(c.pump)
  }

  /** A prelude or command of the call has been written, and is being or about to be read for. */
  predicate Reads(c: Call) {
    c.phase.InPrelude? || c.phase.InCommand? || c.phase == Written || c.phase == HandingOver || c.pump.Pumping?
  }

  predicate HasSent(p: Pump) {
    p == Sent || p == Closed || p == Ended
  }

  /** A loop that has not returned. */
  predicate Running(l: Drive.Loop) {
    l.exit == None && !l.dead
  }

  /** How the fields of a call go together. */
  predicate WellShaped(c: Call) {
    && (c.phase.InPrelude? || c.phase.InCommand? ==> Running(c.phase.loop))
    && (c.pump.Pumping? ==> Running(c.pump.loop))
    && (c.released ==> c.kind == Pipe && (c.phase == HandingOver || c.phase == Leaving || c.phase == Returned))
    && (c.phase == HandingOver ==> c.released && c.pump.NoPump?)
    && (c.phase == Leaving ==> (c.released <==> !c.pump.NoPump?))
    && (!c.pump.NoPump? ==> c.released && (c.phase == Leaving || c.phase == Returned))
    && (c.phase == Returned && c.kind == Pipe ==> c.released)
    && (c.phase.InCommand? ==> c.kind == RunFramed)
    && (c.phase == Written ==> c.kind == Pipe)
    && c.results == (if HasSent(c.pump) then 1 else 0)
    && (c.closed <==> c.pump == Closed || c.pump == Ended)
  }

  /** What the log says of call `i`. */
  predicate Fits(c: Call, i: nat, log: Log) {
    && (c.phase.NotStarted? ==> Started(i, true) !in log && Started(i, false) !in log)
    && (c.phase.AtLock? ==> Started(i, false) in log)
    && (c.phase.Rejected? <==> Started(i, true) in log)
    && (c.phase.NotStarted? || c.phase.Rejected? || c.phase.AtLock? ==> Acquired(i) !in log)
    && (CommandWritten(i) in log ==>
          || c.phase.InCommand? || c.phase == Written || c.phase == HandingOver || c.phase == Leaving
          || c.phase == Returned)
    && (HandedOff(i) in log <==> !c.pump.NoPump?)
    && (ResultSent(i) in log <==> HasSent(c.pump))
    && (ResultClosed(i) in log <==> c.closed)
    && (Completed(i) in log ==> (c.phase == Leaving || c.phase == Returned) && !c.pump.Pumping?)
    && (c.pump.Finalizing? ==> (c.pump.exit.Finished? <==> Completed(i) in log))
  }

  /** What is known of the call that owns the mutex. */
  predicate FitsHolder(c: Call, i: nat, preluded: bool, flight: Option<nat>) {
    && (c.phase.Holding? || c.phase.InPrelude? ==> !preluded)
    && (c.phase.Ready? || c.phase.InCommand? || c.phase == Written || c.phase == HandingOver ==> preluded)
    && flight == if Reads(c) then Some(i) else None
  }

  ghost predicate Consistent(s: Session) {
    && Lawful(s.log)
    && (s.locked <==> Holder(s.log).Some?)
    && (s.preluded <==> PreludeHasPassed(s.log))
    && (s.dead <==> Died in s.log)
    && (forall i :: 0 <= i < |s.calls| ==> WellShaped(s.calls[i]) && Fits(s.calls[i], i, s.log))
    && (forall i :: 0 <= i < |s.calls| ==> (Holder(s.log) == Some(i) <==> Owns(s.calls[i])))
    && match Holder(s.log)
       case None => InFlight(s.log) == None
       case Some(h) => h < |s.calls| && FitsHolder(s.calls[h], h, s.preluded, InFlight(s.log))
  }

  /** Entries about call `i` leave the other calls as they were. */
  lemma OthersFit(c: Call, j: nat, log: Log, e: Entry)
    requires Fits(c, j, log) && (e.Died? || e.id != j)
    ensures Fits(c, j, log + [e])
  {
  }

  lemma DieConsistent(s: Session)
    requires Consistent(s)
    ensures Consistent(Die(s)) && Holder(Die(s).log) == Holder(s.log) && InFlight(Die(s).log) == InFlight(s.log)
  {
    Appended(s.log, Died);
    forall j | 0 <= j < |s.calls| ensures Fits(s.calls[j], j, s.log + [Died]) {
      OthersFit(s.calls[j], j, s.log, Died);
    }
  }

  /** A step of a call that shows nothing and leaves the duty to unlock with the same call. */
  lemma QuietConsistent(s: Session, i: nat, c: Call)
    requires Consistent(s) && i < |s.calls| && WellShaped(c) && Fits(c, i, s.log)
    requires Owns(c) <==> Owns(s.calls[i])
    requires Owns(c) ==> FitsHolder(c, i, s.preluded, InFlight(s.log))
    ensures Consistent(With(s, i, c))
  {
  }

  /** A step of the owner, of the call that becomes it, or of one that has nothing to do with the mutex. */
  lemma MoveConsistent(s: Session, i: nat, c: Call, e: Entry, s': Session)
    requires Consistent(s) && i < |s.calls| && !e.Died? && e.id == i && Allowed(s.log, e)
    requires s'.calls == s.calls[i := c] && s'.log == s.log + [e] && s'.dead == s.dead
    requires s'.preluded == (s.preluded || e.PreludePassed?)
    requires s'.locked == (if e.Acquired? then true else if e.Released? then false else s.locked)
    requires WellShaped(c) && Fits(c, i, s.log + [e])
    requires HolderAfter(Holder(s.log), e) == Some(i) <==> Owns(c)
    requires Owns(c) ==> FitsHolder(c, i, s'.preluded, FlightAfter(InFlight(s.log), e))
    requires !Owns(c) ==> e.Started? || e.Released?
    ensures Consistent(s')
  {
    Appended(s.log, e);
    OthersAllFit(s, i, e);
  }

  lemma OthersAllFit(s: Session, i: nat, e: Entry)
    requires Consistent(s) && !e.Died? && e.id == i
    ensures forall j :: 0 <= j < |s.calls| && j != i ==> Fits(s.calls[j], j, s.log + [e])
  {
    forall j | 0 <= j < |s.calls| && j != i ensures Fits(s.calls[j], j, s.log + [e]) {
      OthersFit(s.calls[j], j, s.log, e);
    }
  }

  /** An entry of the owner's that leaves it where it is. */
  lemma NoteConsistent(s: Session, i: nat, e: Entry)
    requires Consistent(s) && i < |s.calls| && Allowed(s.log, e)
    requires e == StdinWritten(i) || (e.ControlSent? && e.id == i)
    ensures Consistent(Note(s, e))
  {
    Appended(s.log, e);
    forall j | 0 <= j < |s.calls| ensures Fits(s.calls[j], j, s.log + [e]) {
      if j != i { OthersFit(s.calls[j], j, s.log, e); }
    }
  }

  lemma OwnerReads(s: Session, i: nat)
    requires Consistent(s) && i < |s.calls| && Reads(s.calls[i])
    ensures Owns(s.calls[i]) && Holder(s.log) == Some(i) && InFlight(s.log) == Some(i)
  {
    assert WellShaped(s.calls[i]);
  }

  lemma ControlConsistent(s: Session, i: nat, l: Drive.Loop, l': Drive.Loop)
    requires Consistent(s) && i < |s.calls| && Holder(s.log) == Some(i) && InFlight(s.log) == Some(i)
    ensures var s' := Controlled(s, i, l, l');
            Consistent(s') && Holder(s'.log) == Some(i) && InFlight(s'.log) == Some(i)
  {
    if |l'.control| > |l.control| {
      var e := ControlSent(i, l'.control[|l'.control| - 1]);
      NoteConsistent(s, i, e);
      Appended(s.log, e);
    }
  }

  lemma DeathConsistent(s: Session, l: Drive.Loop, l': Drive.Loop)
    requires Consistent(s)
    ensures var s' := DeadIfLoop(s, l, l');
            Consistent(s') && Holder(s'.log) == Holder(s.log) && InFlight(s'.log) == InFlight(s.log)
  {
    if l'.dead && !l.dead {
      DieConsistent(s);
    }
  }

  lemma TurnedConsistent(s: Session, i: nat, l: Drive.Loop, l': Drive.Loop)
    requires Consistent(s) && i < |s.calls| && Reads(s.calls[i])
    ensures var s' := Turned(s, i, l, l');
            && Consistent(s') && s'.calls == s.calls && s'.preluded == s.preluded && s'.locked == s.locked
            && Holder(s'.log) == Some(i) && InFlight(s'.log) == Some(i)
  {
    OwnerReads(s, i);
    ControlConsistent(s, i, l, l');
    DeathConsistent(Controlled(s, i, l, l'), l, l');
  }

  /** A loop that runs goes on running until it returns. */
  lemma RunsOn(l: Drive.Loop, e: Drive.Event)
    requires Running(l)
    ensures Drive.Step(l, e).exit == None ==> Running(Drive.Step(l, e))
  {
  }

  lemma PreludeConsistent(s: Session, i: nat, l: Drive.Loop, l': Drive.Loop, exitCode: int)
    requires Consistent(s) && i < |s.calls| && s.calls[i].phase == InPrelude(l)
    requires l'.exit == None ==> Running(l')
    ensures Consistent(StepPrelude(s, i, l, l', exitCode))
  {
    var c := s.calls[i];
    TurnedConsistent(s, i, l, l');
    var s1 := Turned(s, i, l, l');
    if l'.exit.None? {
      QuietConsistent(s1, i, c.(phase := InPrelude(l')));
    } else if l'.exit == Some(Drive.Finished(false)) && exitCode == 0 {
      MoveConsistent(s1, i, c.(phase := Ready), PreludePassed(i), StepPrelude(s, i, l, l', exitCode));
    } else {
      MoveConsistent(s1, i, c.(phase := Leaving), Ending(i, l'.exit.value), StepPrelude(s, i, l, l', exitCode));
    }
  }

  lemma CommandConsistent(s: Session, i: nat, l: Drive.Loop, l': Drive.Loop)
    requires Consistent(s) && i < |s.calls| && s.calls[i].phase == InCommand(l)
    requires l'.exit == None ==> Running(l')
    ensures Consistent(StepCommand(s, i, l, l'))
  {
    var c := s.calls[i];
    TurnedConsistent(s, i, l, l');
    var s1 := Turned(s, i, l, l');
    if l'.exit.None? {
      QuietConsistent(s1, i, c.(phase := InCommand(l')));
    } else {
      MoveConsistent(s1, i, c.(phase := Leaving), Ending(i, l'.exit.value), StepCommand(s, i, l, l'));
    }
  }

  lemma PumpingConsistent(s: Session, i: nat, l: Drive.Loop, l': Drive.Loop)
    requires Consistent(s) && i < |s.calls| && s.calls[i].pump == Pumping(l)
    requires l'.exit == None ==> Running(l')
    ensures Consistent(StepPump(s, i, l, l'))
  {
    var c := s.calls[i];
    TurnedConsistent(s, i, l, l');
    var s1 := Turned(s, i, l, l');
    if l'.exit.None? {
      QuietConsistent(s1, i, c.(pump := Pumping(l')));
    } else {
      MoveConsistent(s1, i, c.(pump := Finalizing(l'.exit.value)), Ending(i, l'.exit.value), StepPump(s, i, l, l'));
    }
  }

  lemma WriteConsistent(s: Session, i: nat, text: Entry, started: bool, complete: bool, next: Phase)
    requires Consistent(s) && i < |s.calls|
    requires var c := s.calls[i];
             || (c.phase == Holding && text == PreludeWritten(i) && next == InPrelude(Drive.START))
             || (c.phase == Ready && text == CommandWritten(i)
                 && next == if c.kind == Pipe then Written else InCommand(Drive.START))
    ensures Consistent(StepWrite(s, i, text, started, complete, next))
  {
    var c := s.calls[i];
    if !started {
      QuietConsistent(s, i, c.(phase := Leaving));
    } else if complete {
      MoveConsistent(s, i, c.(phase := next), text, StepWrite(s, i, text, started, complete, next));
    } else {
      MoveConsistent(s, i, c.(phase := Leaving), TextCut(i), StepWrite(s, i, text, started, complete, next));
    }
  }

  lemma StartConsistent(s: Session, i: nat)
    requires Consistent(s) && i < |s.calls| && s.calls[i].phase == NotStarted
    ensures Consistent(Step(s, Start(i)))
  {
    var c := s.calls[i].(phase := if s.dead then Rejected else AtLock);
    MoveConsistent(s, i, c, Started(i, s.dead), Step(s, Start(i)));
  }

  lemma LockConsistent(s: Session, i: nat)
    requires Consistent(s) && i < |s.calls| && s.calls[i].phase == AtLock && !s.locked
    ensures Consistent(Step(s, Lock(i)))
  {
    MoveConsistent(s, i, s.calls[i].(phase := if s.preluded then Ready else Holding), Acquired(i), Step(s, Lock(i)));
  }

  lemma SpawnConsistent(s: Session, i: nat)
    requires Consistent(s) && i < |s.calls| && s.calls[i].phase == HandingOver
    ensures Consistent(Step(s, Spawn(i)))
  {
    OwnerReads(s, i);
    MoveConsistent(s, i, s.calls[i].(phase := Leaving, pump := Pumping(Drive.START)), HandedOff(i), Step(s, Spawn(i)));
  }

  /** The race between a Pipe call that returns and its pump: the caller unlocks exactly if it never handed over. */
  lemma LeaveConsistent(s: Session, i: nat)
    requires Consistent(s) && i < |s.calls| && s.calls[i].phase == Leaving
    ensures Consistent(StepLeave(s, i))
  {
    var c := s.calls[i];
    assert WellShaped(c);
    if c.kind == RunFramed {
      MoveConsistent(s, i, c.(phase := Returned), Released(i), StepLeave(s, i));
    } else if !c.released {
      MoveConsistent(s, i, c.(phase := Returned, released := true), Released(i), StepLeave(s, i));
    } else {
      QuietConsistent(s, i, c.(phase := Returned));
    }
  }

  lemma FinalizeConsistent(s: Session, i: nat)
    requires Consistent(s) && i < |s.calls| && s.calls[i].pump.Finalizing?
    ensures Consistent(Step(s, PumpFinalize(i)))
  {
    var c := s.calls[i];
    assert Owns(c);
    var x := c.pump.exit;
    MoveConsistent(s, i, c.(pump := Sending(x)), StdoutEnded(i, x.Finished?), Step(s, PumpFinalize(i)));
  }

  lemma SendConsistent(s: Session, i: nat)
    requires Consistent(s) && i < |s.calls| && s.calls[i].pump.Sending?
    ensures Consistent(StepSend(s, i))
  {
    var c := s.calls[i];
    assert Owns(c) && WellShaped(c);
    MoveConsistent(s, i, c.(pump := Sent, results := 1), ResultSent(i), StepSend(s, i));
  }

  lemma CloseConsistent(s: Session, i: nat)
    requires Consistent(s) && i < |s.calls| && s.calls[i].pump == Sent
    ensures Consistent(StepClose(s, i))
  {
    var c := s.calls[i];
    assert Owns(c) && WellShaped(c);
    MoveConsistent(s, i, c.(pump := Closed, closed := true), ResultClosed(i), StepClose(s, i));
  }

  lemma PumpUnlockConsistent(s: Session, i: nat)
    requires Consistent(s) && i < |s.calls| && s.calls[i].pump == Closed
    ensures Consistent(Step(s, PumpUnlock(i)))
  {
    var c := s.calls[i];
    assert Owns(c) && WellShaped(c);
    MoveConsistent(s, i, c.(pump := Ended), Released(i), Step(s, PumpUnlock(i)));
  }

  lemma CallerStepConsistent(s: Session, a: Action)
    requires Consistent(s) && !a.Close? && a.i < |s.calls| && !IsPumpAction(a)
    ensures Consistent(Step(s, a))
  {
    var i, c := a.i, s.calls[a.i];
    match a {
      case Start(_) => if c.phase == NotStarted { StartConsistent(s, i); }
      case Lock(_) => if c.phase == AtLock && !s.locked { LockConsistent(s, i); }
      case BeginPrelude(_, started, complete) =>
        if c.phase == Holding { WriteConsistent(s, i, PreludeWritten(i), started, complete, InPrelude(Drive.START)); }
      case PreludeTurn(_, e, exitCode) =>
        if c.phase.InPrelude? {
          assert WellShaped(c);
          RunsOn(c.phase.loop, e);
          PreludeConsistent(s, i, c.phase.loop, Drive.Step(c.phase.loop, e), exitCode);
        }
      case WriteCommand(_, started, complete) =>
        if c.phase == Ready {
          WriteConsistent(s, i, CommandWritten(i), started, complete,
                          if c.kind == Pipe then Written else InCommand(Drive.START));
        }
      case CommandTurn(_, e) =>
        if c.phase.InCommand? {
          assert WellShaped(c);
          RunsOn(c.phase.loop, e);
          CommandConsistent(s, i, c.phase.loop, Drive.Step(c.phase.loop, e));
        }
      case MarkReleased(_) =>
        if c.phase == Written {
          OwnerReads(s, i);
          QuietConsistent(s, i, c.(phase := HandingOver, released := true));
        }
      case Spawn(_) => if c.phase == HandingOver { SpawnConsistent(s, i); }
      case Leave(_) => if c.phase == Leaving { LeaveConsistent(s, i); }
    }
  }

  lemma PumpStepConsistent(s: Session, a: Action)
    requires Consistent(s) && !a.Close? && a.i < |s.calls| && IsPumpAction(a)
    ensures Consistent(Step(s, a))
  {
    var i, c := a.i, s.calls[a.i];
    match a {
      case PumpTurn(_, e) =>
        if c.pump.Pumping? {
          assert WellShaped(c);
          RunsOn(c.pump.loop, e);
          PumpingConsistent(s, i, c.pump.loop, Drive.Step(c.pump.loop, e));
        }
      case PumpFinalize(_) => if c.pump.Finalizing? { FinalizeConsistent(s, i); }
      case PumpSend(_) => if c.pump.Sending? { SendConsistent(s, i); }
      case PumpClose(_) => if c.pump == Sent { CloseConsistent(s, i); }
      case PumpUnlock(_) => if c.pump == Closed { PumpUnlockConsistent(s, i); }
      case StdinWrite(_) =>
        if c.phase == Returned && HandedOff(i) in s.log { NoteConsistent(s, i, StdinWritten(i)); }
    }
  }

  lemma StepConsistent(s: Session, a: Action)
    requires Consistent(s)
    ensures Consistent(Step(s, a))
  {
    if a.Close? {
      DieConsistent(s);
    } else if a.i < |s.calls| {
      if IsPumpAction(a) { PumpStepConsistent(s, a); } else { CallerStepConsistent(s, a); }
    }
  }

  lemma InitConsistent(kinds: seq<Kind>)
    ensures Consistent(Init(kinds))
  {
  }

  /** Lease safety: in every interleaving of any number of calls, pumps and Close, the log obeys the law. */
  lemma {:induction false} LeaseSafety(kinds: seq<Kind>, actions: seq<Action>)
    ensures Consistent(Run(Init(kinds), actions))
    ensures Lawful(Run(Init(kinds), actions).log)
  {
    if actions == [] {
      InitConsistent(kinds);
    } else {
      LeaseSafety(kinds, actions[..|actions| - 1]);
      StepConsistent(Run(Init(kinds), actions[..|actions| - 1]), actions[|actions| - 1]);
    }
  }

  // ---- what the law means ----

  lemma {:induction false} LawfulAt(log: Log, k: nat)
    requires Lawful(log) && k < |log|
    ensures Allowed(log[..k], log[k]) && Lawful(log[..k])
  {
    if k < |log| - 1 {
      LawfulAt(log[..|log| - 1], k);
      assert log[..|log| - 1][..k] == log[..k];
    }
  }

  function Count(log: Log, e: Entry): nat {
    if log == [] then 0 else Count(log[..|log| - 1], e) + (if log[|log| - 1] == e then 1 else 0)
  }

  lemma {:induction false} CountIn(log: Log, e: Entry)
    ensures e in log <==> Count(log, e) > 0
  {
    if log != [] {
      CountIn(log[..|log| - 1], e);
      InitLast(log);
    }
  }

  /**
    Each call takes the mutex at most once, and it is given back exactly once for that, by the call or by its pump, or
    is still held; nobody unlocks a mutex that is not locked or uses a closed channel.
   */
  lemma {:induction false} ReleasedOncePerAcquisition(log: Log, i: nat)
    requires Lawful(log)
    ensures Count(log, Acquired(i)) <= 1
    ensures Count(log, Acquired(i)) - Count(log, Released(i)) == if Holder(log) == Some(i) then 1 else 0
    ensures Count(log, Panicked(i)) == 0
  {
    if log != [] {
      ReleasedOncePerAcquisition(log[..|log| - 1], i);
      CountIn(log[..|log| - 1], Acquired(i));
    }
  }

  /** As long as `i` has the mutex and has not released it, it has it. */
  lemma {:induction false} HeldUntilReleased(log: Log, i: nat, p: nat)
    requires Lawful(log) && p <= |log| && Holder(log[..p]) == Some(i)
    requires forall r :: p <= r < |log| ==> log[r] != Released(i)
    ensures Holder(log) == Some(i)
  {
    if p == |log| {
      assert log[..p] == log;
    } else {
      var init := log[..|log| - 1];
      assert init[..p] == log[..p];
      HeldUntilReleased(init, i, p);
    }
  }

  /** A prelude, a command, a part of one, or a control byte of call `i`. */
  predicate Writes(e: Entry, i: nat) {
    e == PreludeWritten(i) || e == CommandWritten(i) || e == TextCut(i) || (e.ControlSent? && e.id == i)
  }

  /** Two calls never write at the same time: between what one writes and what another does, the first has let go. */
  lemma CommandsDoNotOverlap(log: Log, i: nat, j: nat, p: nat, q: nat)
    requires Lawful(log) && p < q < |log| && Writes(log[p], i) && Writes(log[q], j) && i != j
    ensures exists r :: p < r < q && log[r] == Released(i)
  {
    LawfulAt(log, p);
    LawfulAt(log, q);
    if forall r :: p < r < q ==> log[r] != Released(i) {
      var init := log[..q];
      assert init[..p] == log[..p] && init[p] == log[p];
      HeldUntilReleased(init, i, p);
      assert false;
    }
  }

  // ---- on the remote ----

  predicate IsText(e: Entry) {
    e.PreludeWritten? || e.CommandWritten? || e.TextCut?
  }

  predicate GivesUp(e: Entry) {
    e.Abandoned? || e.TextCut?
  }

  /** How many of the texts written have not been seen to END; only END takes one away. */
  function Unfinished(log: Log): int {
    if log == [] then 0
    else
      var e := log[|log| - 1];
      Unfinished(log[..|log| - 1]) + (if IsText(e) then 1 else if e.Completed? || e.PreludePassed? then -1 else 0)
  }

  /** How many texts were given up on: cut while writing, or no longer read for. */
  function GivenUp(log: Log): nat {
    if log == [] then 0 else GivenUp(log[..|log| - 1]) + (if GivesUp(log[|log| - 1]) then 1 else 0)
  }

  lemma {:induction false} UnfinishedAreGivenUp(log: Log)
    requires Lawful(log)
    ensures Unfinished(log) == GivenUp(log) + (if InFlight(log).Some? then 1 else 0)
  {
    if log != [] {
      UnfinishedAreGivenUp(log[..|log| - 1]);
    }
  }

  /**
    When a text is written, an earlier one may still be running on the remote exactly when some earlier text was given
    up on; as long as every one is read to its END, at most one runs at a time.
   */
  lemma RemoteOverlapExactly(log: Log, q: nat)
    requires Lawful(log) && q < |log| && IsText(log[q])
    ensures Unfinished(log[..q]) > 0 <==> exists p :: 0 <= p < q && GivesUp(log[p])
    ensures Unfinished(log[..q]) >= 0
  {
    LawfulAt(log, q);
    UnfinishedAreGivenUp(log[..q]);
    GivenUpSomewhere(log[..q]);
    if p :| 0 <= p < q && GivesUp(log[p]) {
      assert log[..q][p] == log[p];
    }
    if p :| 0 <= p < |log[..q]| && GivesUp(log[..q][p]) {
      assert log[p] == log[..q][p];
    }
  }

  lemma {:induction false} GivenUpSomewhere(log: Log)
    ensures GivenUp(log) > 0 <==> exists p :: 0 <= p < |log| && GivesUp(log[p])
  {
    if log != [] {
      var init := log[..|log| - 1];
      GivenUpSomewhere(init);
      if p :| 0 <= p < |log| && GivesUp(log[p]) {
        assert p < |init| ==> init[p] == log[p];
      }
      if p :| 0 <= p < |init| && GivesUp(init[p]) {
        assert log[p] == init[p];
      }
    }
  }

  // ---- single calls ----

  /** In the log, a prelude has passed before any user command is written. */
  lemma PassedBeforeCommand(log: Log, i: nat, q: nat) returns (p: nat)
    requires Lawful(log) && q < |log| && log[q] == CommandWritten(i)
    ensures p < q && log[p].PreludePassed?
  {
    LawfulAt(log, q);
    p :| p < |log[..q]| && log[..q][p].PreludePassed?;
  }

  lemma EntryAt(log: Log, e: Entry) returns (k: nat)
    requires e in log
    ensures k < |log| && log[k] == e
  {
    k :| k < |log| && log[k] == e;
  }

  /** A pipe whose mutex was given back by anyone has sent exactly one result and then closed the channel. */
  lemma {:induction false} OneResultThenClosed(log: Log, i: nat)
    requires Lawful(log)
    ensures Count(log, ResultSent(i)) <= 1 && Count(log, ResultClosed(i)) <= Count(log, ResultSent(i))
    ensures HandedOff(i) in log && Released(i) in log ==>
            Count(log, ResultSent(i)) == 1 && Count(log, ResultClosed(i)) == 1
  {
    if log != [] {
      var init, e := log[..|log| - 1], log[|log| - 1];
      OneResultThenClosed(init, i);
      InitLast(log);
      CountIn(init, ResultSent(i));
      CountIn(init, ResultClosed(i));
      if e == HandedOff(i) {
        // the mutex is still held, so nothing has been released
        ReleasedOncePerAcquisition(init, i);
        CountIn(init, Released(i));
      }
    }
  }

  lemma {:induction false} StartedOnce(log: Log, i: nat)
    requires Lawful(log)
    ensures !(Started(i, true) in log && Started(i, false) in log)
    ensures Acquired(i) in log ==> Started(i, false) in log
  {
    if log != [] {
      StartedOnce(log[..|log| - 1], i);
      InitLast(log);
    }
  }

  /** Whatever a call puts on the channel, the stdin of a pipe included, it first acquired the mutex. */
  lemma {:induction false} WritesNeedMutex(log: Log, i: nat)
    requires Lawful(log)
    ensures Holder(log) == Some(i) ==> Acquired(i) in log
    ensures HandedOff(i) in log ==> Acquired(i) in log
    ensures (exists k :: 0 <= k < |log| && (Writes(log[k], i) || log[k] == StdinWritten(i))) ==> Acquired(i) in log
  {
    if log != [] {
      var init := log[..|log| - 1];
      WritesNeedMutex(init, i);
      InitLast(log);
      if k :| 0 <= k < |log| && (Writes(log[k], i) || log[k] == StdinWritten(i)) {
        if k < |init| { assert Writes(init[k], i) || init[k] == StdinWritten(i); }
      }
    }
  }

  /** A call is refused exactly when the session was dead before it started. */
  lemma RefusedIfDead(log: Log, q: nat)
    requires Lawful(log) && q < |log| && log[q].Started?
    ensures log[q].dead <==> exists p :: 0 <= p < q && log[p] == Died
  {
    LawfulAt(log, q);
    if Died in log[..q] {
      var p := EntryAt(log[..q], Died);
      assert log[p] == Died;
    }
    if p :| 0 <= p < q && log[p] == Died {
      assert log[..q][p] == Died;
    }
  }

  /** In every run a call is rejected exactly when the session died before the call started. */
  lemma RejectedExactly(kinds: seq<Kind>, actions: seq<Action>, i: nat)
    requires i < |Run(Init(kinds), actions).calls|
    ensures var s := Run(Init(kinds), actions);
            s.calls[i].phase.Rejected? <==>
            exists p, q :: 0 <= p < q < |s.log| && s.log[p] == Died && s.log[q].Started? && s.log[q].id == i
  {
    var s := Run(Init(kinds), actions);
    LeaseSafety(kinds, actions);
    assert Fits(s.calls[i], i, s.log);
    if Started(i, true) in s.log {
      var q := EntryAt(s.log, Started(i, true));
      RefusedIfDead(s.log, q);
    }
    if p, q :| 0 <= p < q < |s.log| && s.log[p] == Died && s.log[q].Started? && s.log[q].id == i {
      RefusedIfDead(s.log, q);
      assert s.log[q] == Started(i, true);
    }
  }

  /** A call started once the session is dead puts nothing on the channel, then or later, not even on a pipe's stdin. */
  lemma DeadSessionIsSilent(log: Log, i: nat, p: nat, q: nat, k: nat)
    requires Lawful(log) && p < q < |log| && k < |log|
    requires log[p] == Died && log[q].Started? && log[q].id == i
    ensures log[q] == Started(i, true) && !Writes(log[k], i) && log[k] != StdinWritten(i)
  {
    RefusedIfDead(log, q);
    StartedOnce(log, i);
    WritesNeedMutex(log, i);
    assert log[q] in log;
  }

  /** Bytes for a pipe's stdin are written under the pipe's own lease exactly when its pump has not yet released it. */
  lemma StdinWithinLease(log: Log, i: nat, q: nat)
    requires Lawful(log) && q < |log| && log[q] == StdinWritten(i)
    ensures Holder(log[..q]) == Some(i) <==> Released(i) !in log[..q]
  {
    LawfulAt(log, q);
    var before := log[..q];
    WritesNeedMutex(before, i);
    ReleasedOncePerAcquisition(before, i);
    CountIn(before, Acquired(i));
    CountIn(before, Released(i));
  }

  lemma StepStaysDead(s: Session, a: Action)
    requires s.dead
    ensures Step(s, a).dead
  {
  }

  /** The dead flag is never cleared. */
  lemma {:induction false} DeadIsSticky(s: Session, actions: seq<Action>)
    requires s.dead
    ensures Run(s, actions).dead
  {
    if actions != [] {
      DeadIsSticky(s, actions[..|actions| - 1]);
      StepStaysDead(Run(s, actions[..|actions| - 1]), actions[|actions| - 1]);
    }
  }

  lemma RunSnoc(s: Session, actions: seq<Action>, a: Action)
    ensures Run(s, actions + [a]) == Step(Run(s, actions), a)
  {
    assert (actions + [a])[..|actions|] == actions;
  }

  /** A call that passed the test of the dead flag is not stopped by it: it takes the mutex and writes all the same. */
  lemma WaitingCallGoesOn(s: Session, i: nat)
    requires i < |s.calls| && s.calls[i].phase == AtLock && !s.locked && s.dead
    ensures var s' := Step(s, Lock(i));
            var s'' := Step(s', if s.preluded then WriteCommand(i, true, true) else BeginPrelude(i, true, true));
            s''.log == s.log + [Acquired(i)] + [if s.preluded then CommandWritten(i) else PreludeWritten(i)]
  {
  }

  /** Such a state is reached: the session dies between a call's test of the flag and its locking of the mutex. */
  lemma WaitingCallIsReachable(kind: Kind)
    ensures var s := Run(Init([kind]), [Start(0)] + [Close] + [Lock(0)] + [BeginPrelude(0, true, true)]);
            s.dead && s.log == [Started(0, false)] + [Died] + [Acquired(0)] + [PreludeWritten(0)]
  {
    var s0 := Init([kind]);
    var s1 := Step(s0, Start(0));
    var s2 := Step(s1, Close);
    RunSnoc(s0, [], Start(0));
    RunSnoc(s0, [Start(0)], Close);
    RunSnoc(s0, [Start(0)] + [Close], Lock(0));
    RunSnoc(s0, [Start(0)] + [Close] + [Lock(0)], BeginPrelude(0, true, true));
    assert [] + [Start(0)] == [Start(0)] && [] + [Started(0, false)] == [Started(0, false)];
    assert s2.calls[0].phase == AtLock && s2.log == [Started(0, false)] + [Died];
    WaitingCallGoesOn(s2, 0);
  }
}
