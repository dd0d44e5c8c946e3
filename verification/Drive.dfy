/** The select loop of driveParser and pipePump: reading, and the escalation from ^C to ^\ to a dead session. */
module Drive {
  import opened Bytes
  import opened Framing
  import Sentinel
  import Streaming

  /** What parser.feed reports. */
  datatype FeedOutcome = More | Complete | Violation

  /** One choice of the select statement; `sent` says whether the control byte could be written. */
  datatype Event =
    | QueueClosed
    | ReadFailed(eof: bool)
    | Fed(outcome: FeedOutcome)
    | ContextDone(sent: bool)
    | TimerFired(sent: bool)
  {
    predicate IsRead() { !ContextDone? && !TimerFired? }
  }

  datatype Exit =
    | ChannelClosed
    | ReadError
    | ProtocolViolation
    | Finished(canceled: bool)
    | SendFailed(c: char)
    | DrainExpired

  const CTRL_C: char := '\U{03}'
  const CTRL_BACKSLASH: char := '\U{1C}'

  /** The loop's variables, the control bytes it has sent, whether it killed the session, and how it returned. */
  datatype Loop = Loop(ctxArmed: bool, stage: nat, timerArmed: bool, control: seq<char>, dead: bool, exit: Option<Exit>)

  const START: Loop := Loop(true, 0, false, [], false, None)

  predicate Enabled(l: Loop, e: Event) {
    && l.exit == None
    && match e
       case ContextDone(_) => l.ctxArmed
       case TimerFired(_) => l.timerArmed
       case _ => true
  }

  function Leave(l: Loop, x: Exit, dead: bool): Loop { l.(exit := Some(x), dead := l.dead || dead) }

  /** One turn of the loop; an event that cannot be chosen changes nothing. */
  function Step(l: Loop, e: Event): Loop {
    if !Enabled(l, e) then l
    else
      match e
      case QueueClosed => Leave(l, ChannelClosed, true)
      case ReadFailed(eof) => Leave(l, if eof then ChannelClosed else ReadError, true)
      case Fed(More) => l
      case Fed(Complete) => Leave(l, Finished(l.stage > 0), false)
      case Fed(Violation) => Leave(l, ProtocolViolation, false)
      case ContextDone(sent) =>
        var l := l.(ctxArmed := false);
        if l.stage != 0 then l
        else if !sent then Leave(l, SendFailed(CTRL_C), true)
        else l.(control := l.control + [CTRL_C], stage := 1, timerArmed := true)
      case TimerFired(sent) =>
        var l := l.(timerArmed := false);
        if l.stage == 1 then
          if !sent then Leave(l, SendFailed(CTRL_BACKSLASH), true)
          else l.(control := l.control + [CTRL_BACKSLASH], stage := 2, timerArmed := true)
        else if l.stage == 2 then Leave(l, DrainExpired, true)
        else l
  }

  function RunLoop(l: Loop, events: seq<Event>): Loop {
    if events == [] then l else Step(RunLoop(l, events[..|events| - 1]), events[|events| - 1])
  }

  /** How often a timer, or anything but a read, was chosen. */
  function Timers(l: Loop, events: seq<Event>): nat {
    if events == [] then 0
    else
      var init, e := events[..|events| - 1], events[|events| - 1];
      Timers(l, init) + (if Enabled(RunLoop(l, init), e) && e.TimerFired? then 1 else 0)
  }

  function NonReads(l: Loop, events: seq<Event>): nat {
    if events == [] then 0
    else
      var init, e := events[..|events| - 1], events[|events| - 1];
      NonReads(l, init) + (if Enabled(RunLoop(l, init), e) && !e.IsRead() then 1 else 0)
  }

  /** The variables' values at every point of every run. */
  predicate Reachable(l: Loop, timers: nat, nonReads: nat) {
    && l.stage <= 2
    && l.control == [CTRL_C, CTRL_BACKSLASH][..l.stage]
    && (l.ctxArmed ==> l.stage == 0 && nonReads == 0)
    && (l.exit == None ==> !l.dead && (l.timerArmed <==> l.stage > 0) && (l.ctxArmed <==> l.stage == 0)
                           && nonReads == l.stage && timers + 1 == Max(l.stage, 1))
    && nonReads <= 3 && timers <= 2
    && (l.exit != None ==> (l.dead <==> l.exit.value !in {ProtocolViolation, Finished(true), Finished(false)}))
    && (l.stage == 2 ==> timers >= 1)
    && (l.exit == Some(DrainExpired) ==> timers == 2 && l.stage == 2)
    && (l.exit.Some? && l.exit.value.Finished? ==> (l.exit.value.canceled <==> l.stage > 0))
  }

  lemma StepReachable(l: Loop, e: Event, timers: nat, nonReads: nat)
    requires Reachable(l, timers, nonReads)
    ensures Reachable(Step(l, e),
                      timers + (if Enabled(l, e) && e.TimerFired? then 1 else 0),
                      nonReads + (if Enabled(l, e) && !e.IsRead() then 1 else 0))
  {
    assert [CTRL_C, CTRL_BACKSLASH][..0] == [] && [CTRL_C, CTRL_BACKSLASH][..1] == [CTRL_C];
    assert [CTRL_C, CTRL_BACKSLASH][..2] == [CTRL_C] + [CTRL_BACKSLASH];
  }

  /**
    Cancel escalation, in every run: at most one ^C and then at most one ^\, the latter only after a timer; the
    session is declared dead for want of an answer only after two timers; at most three turns are not reads; a
    completion after a cancel is reported as canceled and does not kill the session.
   */
  lemma {:induction false} CancelEscalation(events: seq<Event>)
    ensures Reachable(RunLoop(START, events), Timers(START, events), NonReads(START, events))
  {
    if events != [] {
      CancelEscalation(events[..|events| - 1]);
      StepReachable(RunLoop(START, events[..|events| - 1]), events[|events| - 1],
                    Timers(START, events[..|events| - 1]), NonReads(START, events[..|events| - 1]));
    }
  }

  /**
    A control byte counts as sent, and the loop goes on, exactly when writing it succeeds; otherwise the session is
    dead. The first turn that is not a read sends ^C, the second ^\, and the third sends nothing and kills the session.
   */
  lemma SendDecides(events: seq<Event>, e: Event)
    requires var l := RunLoop(START, events); Enabled(l, e) && !e.IsRead()
    ensures var l, l' := RunLoop(START, events), RunLoop(START, events + [e]);
            var n := NonReads(START, events);
            && n <= 2 && (e.ContextDone? <==> n == 0)
            && (if n == 2 then l'.exit == Some(DrainExpired) && l'.dead && l'.control == l.control
                else
                  var c := if n == 0 then '\U{03}' else '\U{1C}';
                  if e.sent then l'.exit == None && !l'.dead && l'.control == l.control + [c]
                  else l'.exit == Some(SendFailed(c)) && l'.dead && l'.control == l.control)
  {
    CancelEscalation(events);
    RunLoopSnoc(START, events, e);
  }

  /** What a read leads to, at any point of a run that has not returned, and whether the session dies of it. */
  lemma ReadDecides(events: seq<Event>, e: Event)
    requires RunLoop(START, events).exit == None && e.IsRead()
    ensures var l, l' := RunLoop(START, events), RunLoop(START, events + [e]);
            match e
            case QueueClosed => l'.exit == Some(ChannelClosed) && l'.dead
            case ReadFailed(eof) => l'.exit == Some(if eof then ChannelClosed else ReadError) && l'.dead
            case Fed(More) => l' == l
            case Fed(Complete) => l'.exit == Some(Finished(l.control != [])) && !l'.dead
            case Fed(Violation) => l'.exit == Some(ProtocolViolation) && !l'.dead
  {
    CancelEscalation(events);
    RunLoopSnoc(START, events, e);
  }

  /** After the loop has returned nothing more happens: it is dead or not for good, and no byte is sent. */
  lemma {:induction false} ExitIsFinal(l: Loop, events: seq<Event>)
    requires l.exit != None
    ensures RunLoop(l, events) == l
  {
    if events != [] {
      ExitIsFinal(l, events[..|events| - 1]);
    }
  }

  // ---- the two loops ----

  /** What the select statement delivers. */
  datatype Input =
    | NoMore
    | Failure(eof: bool)
    | Chunk(b: Bytes)
    | Canceled(sent: bool)
    | Expired(sent: bool)

  function Chunks(inputs: seq<Input>): seq<Bytes> {
    if inputs == [] then []
    else
      var last := inputs[|inputs| - 1];
      Chunks(inputs[..|inputs| - 1]) + (if last.Chunk? then [last.b] else [])
  }

  /** `e` is `i` with the parser's answer in place of the bytes. */
  predicate Describes(e: Event, i: Input) {
    match i
    case NoMore => e == QueueClosed
    case Failure(eof) => e == ReadFailed(eof)
    case Chunk(_) => e.Fed?
    case Canceled(sent) => e == ContextDone(sent)
    case Expired(sent) => e == TimerFired(sent)
  }

  ghost predicate Describe(events: seq<Event>, inputs: seq<Input>) {
    |events| == |inputs| && forall k :: 0 <= k < |events| ==> Describes(events[k], inputs[k])
  }

  lemma RunLoopSnoc(l: Loop, events: seq<Event>, e: Event)
    ensures RunLoop(l, events + [e]) == Step(RunLoop(l, events), e)
  {
    assert (events + [e])[..|events|] == events;
  }

  lemma ChunksSnoc(inputs: seq<Input>, n: nat)
    requires n < |inputs|
    ensures Chunks(inputs[..n + 1]) == Chunks(inputs[..n]) + (if inputs[n].Chunk? then [inputs[n].b] else [])
  {
    assert inputs[..n + 1][..n] == inputs[..n];
  }

  lemma DescribeSnoc(events: seq<Event>, inputs: seq<Input>, e: Event)
    requires |events| < |inputs| && Describe(events, inputs[..|events|]) && Describes(e, inputs[|events|])
    ensures Describe(events + [e], inputs[..|events| + 1])
  {
  }

  /** The variables that both loops keep for cancellation, and the session's dead flag. */
  class Escalation {
    var ctxDone: bool
    var cancelStage: nat
    var phaseTimer: bool
    var sent: seq<char>
    var dead: bool

    constructor ()
      ensures View(None) == START
    {
      ctxDone, cancelStage, phaseTimer, sent, dead := true, 0, false, [], false;
    }

    function View(exit: Option<Exit>): Loop
      reads this
    {
      Loop(ctxDone, cancelStage, phaseTimer, sent, dead, exit)
    }

    method Die(x: Exit) returns (exit: Option<Exit>)
      modifies this`dead
      ensures exit == Some(x) && View(exit) == Leave(old(View(None)), x, true)
    {
      dead := true;
      return Some(x);
    }

    method OnContextDone(ok: bool) returns (exit: Option<Exit>)
      modifies this
      ensures View(exit) == Step(old(View(None)), ContextDone(ok))
    {
      exit := None;
      if ctxDone {
        ctxDone := false;
        if cancelStage == 0 {
          if !ok {
            dead := true;
            return Some(SendFailed(CTRL_C));
          }
          sent, cancelStage, phaseTimer := sent + [CTRL_C], 1, true;
        }
      }
    }

    method OnTimer(ok: bool) returns (exit: Option<Exit>)
      modifies this
      ensures View(exit) == Step(old(View(None)), TimerFired(ok))
    {
      exit := None;
      if phaseTimer {
        phaseTimer := false;
        if cancelStage == 1 {
          if !ok {
            dead := true;
            return Some(SendFailed(CTRL_BACKSLASH));
          }
          sent, cancelStage, phaseTimer := sent + [CTRL_BACKSLASH], 2, true;
        } else if cancelStage == 2 {
          dead := true;
          return Some(DrainExpired);
        }
      }
    }
  }

  ghost function FramedVerdict(p: Sentinel.SentinelParser): Verdict
    reads p
  {
    Sentinel.Run(p.begMarker, p.endMarker, p.maxOutput, p.fed)
  }

  /** The loop returns with a result or a protocol error just when the parser says so. */
  predicate Answers(outcome: FeedOutcome, exit: Option<Exit>) {
    match outcome
    case Complete => exit.Some? && exit.value.Finished?
    case Violation => exit == Some(ProtocolViolation)
    case More => exit.None? || (!exit.value.Finished? && !exit.value.ProtocolViolation?)
  }

  /** `outcome` is the verdict, and a result is the parser's. */
  predicate OutcomeOf(outcome: FeedOutcome, v: Verdict, output: Bytes, code: int) {
    match v
    case Done(o, c) => outcome == Complete && o == output && c == code
    case BadExitCode => outcome == Violation
    case TooLong => outcome == Violation
    case Pending => outcome == More
  }

  method FeedFramed(parser: Sentinel.SentinelParser, b: Bytes) returns (outcome: FeedOutcome)
    requires parser.Valid()
    modifies parser
    ensures parser.Valid() && parser.fed == old(parser.fed) + [b]
    ensures OutcomeOf(outcome, FramedVerdict(parser), parser.output, parser.exitCode)
  {
    var done, err := parser.Feed(b);
    return if err != None then Violation else if done then Complete else More;
  }

  /** One turn of the loop, the parser having answered `outcome` if the input is a chunk. */
  method Turn(esc: Escalation, input: Input, outcome: FeedOutcome) returns (exit: Option<Exit>, ghost e: Event)
    modifies esc
    ensures Describes(e, input) && (e.Fed? ==> e.outcome == outcome)
    ensures esc.View(exit) == Step(old(esc.View(None)), e)
    ensures Answers(if input.Chunk? then outcome else More, exit)
  {
    exit := None;
    match input {
      case NoMore =>
        e := QueueClosed;
        exit := esc.Die(ChannelClosed);
      case Failure(eof) =>
        e := ReadFailed(eof);
        exit := esc.Die(if eof then ChannelClosed else ReadError);
      case Chunk(b) =>
        e := Fed(outcome);
        if outcome == Violation {
          exit := Some(ProtocolViolation);
        } else if outcome == Complete {
          exit := Some(Finished(esc.cancelStage > 0));
        }
      case Canceled(ok) =>
        e := ContextDone(ok);
        exit := esc.OnContextDone(ok);
      case Expired(ok) =>
        e := TimerFired(ok);
        exit := esc.OnTimer(ok);
    }
  }

  /**
    driveParser: consumes inputs until it returns. It is a run of the loop above, with the framed parser's
    answers; the chunks it fed are the first ones received; and it completes only with that parser's result.
   */
  method DriveParser(parser: Sentinel.SentinelParser, inputs: seq<Input>)
    returns (l: Loop, used: nat, outcome: FeedOutcome, ghost events: seq<Event>)
    requires parser.Valid() && parser.fed == []
    modifies parser
    ensures used <= |inputs| && parser.Valid() && parser.fed == Chunks(inputs[..used])
    ensures Describe(events, inputs[..used]) && l == RunLoop(START, events)
    ensures l.exit == None ==> used == |inputs|
    ensures OutcomeOf(outcome, FramedVerdict(parser), parser.output, parser.exitCode) && Answers(outcome, l.exit)
    ensures l.exit.Some? && l.exit.value.Finished? <==> FramedVerdict(parser).Done?
    ensures FramedVerdict(parser).Done? ==> FramedVerdict(parser) == Done(parser.output, parser.exitCode)
    ensures l.exit == Some(ProtocolViolation) <==> FramedVerdict(parser) in {TooLong, BadExitCode}
  {
    var esc := new Escalation();
    used, events, outcome := 0, [], More;
    while used < |inputs|
      invariant fresh(esc) && parser.Valid() && used <= |inputs| && Describe(events, inputs[..used])
      invariant RunLoop(START, events) == esc.View(None)
      invariant parser.fed == Chunks(inputs[..used]) && outcome == More
      invariant OutcomeOf(outcome, FramedVerdict(parser), parser.output, parser.exitCode)
    {
      if inputs[used].Chunk? {
        outcome := FeedFramed(parser, inputs[used].b);
      }
      var exit;
      ghost var e;
      exit, e := Turn(esc, inputs[used], outcome);
      ChunksSnoc(inputs, used);
      RunLoopSnoc(START, events, e);
      DescribeSnoc(events, inputs, e);
      used, events := used + 1, events + [e];
      if exit != None {
        l := esc.View(exit);
        return;
      }
    }
    assert inputs[..used] == inputs;
    l := esc.View(None);
  }

  // ---- the pump ----

  /** What the result channel carries: the exit code, and the error if the loop did not end with a clean result. */
  datatype PipeResult = PipeResult(exitCode: int, err: Option<Exit>)

  ghost function StreamVerdict(p: Streaming.StreamingParser): Verdict
    reads p
  {
    Parse(p.begMarker, p.endMarker, Concat(p.fed))
  }

  method FeedStreamed(parser: Streaming.StreamingParser, b: Bytes) returns (outcome: FeedOutcome)
    requires parser.Valid() && !StreamVerdict(parser).Done?
    modifies parser, parser.out`data
    ensures parser.fed == old(parser.fed) + [b] && old(parser.out.data) <= parser.out.data
    ensures outcome != Violation ==> parser.Valid()
    ensures outcome == Complete ==> StreamVerdict(parser).Done? && StreamVerdict(parser).exitCode == parser.exitCode
    ensures outcome == More ==> !StreamVerdict(parser).Done?
    ensures outcome == Violation ==> parser.out.Full() || StreamVerdict(parser) == BadExitCode
  {
    var done, err := parser.Feed(b);
    return if err != None then Violation else if done then Complete else More;
  }

  /** The channel a pump reports on; it holds one result. */
  class ResultChannel {
    var sent: seq<PipeResult>
    var closed: bool

    constructor ()
      ensures sent == [] && !closed
    {
      sent, closed := [], false;
    }

    /** Sending blocks while the channel is full, and panics once it is closed. */
    method Send(r: PipeResult)
      requires !closed && sent == []
      modifies this`sent
      ensures sent == [r]
    {
      sent := sent + [r];
    }

    method Close()
      requires !closed
      modifies this`closed
      ensures closed
    {
      closed := true;
    }
  }

  /** The session's mutex, as far as a pump is concerned. */
  class Mutex {
    var locked: bool

    constructor ()
      ensures locked
    {
      locked := true;
    }

    method Unlock()
      requires locked
      modifies this
      ensures !locked
    {
      locked := false;
    }
  }

  /** A parser that has not finished. */
  ghost predicate Pumps(parser: Streaming.StreamingParser)
    reads parser, parser.out
  {
    parser.Valid() && !StreamVerdict(parser).Done?
  }

  /** The stream read is complete and all its output has been handed on. */
  ghost predicate AllDelivered(parser: Streaming.StreamingParser)
    reads parser, parser.out
  {
    && StreamVerdict(parser).Done? && StreamVerdict(parser).exitCode == parser.exitCode
    && parser.out.data == Streaming.ClosedOutput(parser.begMarker, parser.endMarker, parser.fed)
  }

  /**
    What a pump has reported: nothing, or one result and the end of the output with it. The result carries an error
    unless the loop ended with a completion that was not canceled, and the exit code of any completion.
   */
  ghost predicate Reported(exit: Option<Exit>, code: int, results: ResultChannel, out: Streaming.Sink)
    reads results, out
  {
    match exit
    case None => results.sent == [] && out.ended == None
    case Some(x) =>
      && |results.sent| == 1 && out.ended == Some(x.Finished?)
      && results.sent[0].exitCode == (if x.Finished? then code else 0)
      && results.sent[0].err == (if x == Finished(false) then None else exit)
  }

  /** The exit that every failing branch takes: the reader learns of the error, and so does the result channel. */
  method Finalize(out: Streaming.Sink, results: ResultChannel, r: PipeResult)
    requires !results.closed && results.sent == [] && out.ended == None
    modifies out`ended, results`sent
    ensures results.sent == [r] && out.ended == Some(false)
  {
    out.CloseWriter(false);
    results.Send(r);
  }

  /** A chunk: feeding it may complete the command, violate the protocol, or do neither. */
  method OnChunk(esc: Escalation, parser: Streaming.StreamingParser, results: ResultChannel, b: Bytes)
    returns (exit: Option<Exit>, ghost e: Event)
    requires Pumps(parser) && !results.closed && Reported(None, 0, results, parser.out)
    modifies parser, parser.out, results`sent
    ensures e.Fed? && esc.View(exit) == Step(old(esc.View(None)), e)
    ensures parser.fed == old(parser.fed) + [b] && Reported(exit, parser.exitCode, results, parser.out)
    ensures exit == None ==> Pumps(parser)
    ensures exit.Some? && exit.value.Finished? ==> AllDelivered(parser)
  {
    var outcome := FeedStreamed(parser, b);
    e := Fed(outcome);
    if outcome == Violation {
      exit := Some(ProtocolViolation);
      Finalize(parser.out, results, PipeResult(0, exit));
    } else if outcome == Complete {
      Delivered(parser);
      parser.out.CloseWriter(true);
      exit := Some(Finished(esc.cancelStage > 0));
      results.Send(PipeResult(parser.exitCode, if esc.cancelStage > 0 then exit else None));
    } else {
      exit := None;
    }
  }

  /** The other branches of the select statement. */
  method OnOther(esc: Escalation, parser: Streaming.StreamingParser, results: ResultChannel, input: Input)
    returns (exit: Option<Exit>, ghost e: Event)
    requires !input.Chunk? && Pumps(parser) && !results.closed && Reported(None, 0, results, parser.out)
    modifies esc, parser.out`ended, results`sent
    ensures Describes(e, input) && esc.View(exit) == Step(old(esc.View(None)), e)
    ensures Reported(exit, parser.exitCode, results, parser.out)
    ensures exit == None ==> Pumps(parser)
    ensures exit.Some? ==> !exit.value.Finished?
  {
    match input {
      case NoMore =>
        e := QueueClosed;
        exit := esc.Die(ChannelClosed);
        Finalize(parser.out, results, PipeResult(0, exit));
      case Failure(eof) =>
        e := ReadFailed(eof);
        exit := esc.Die(if eof then ChannelClosed else ReadError);
        Finalize(parser.out, results, PipeResult(0, exit));
      case Canceled(ok) =>
        e := ContextDone(ok);
        exit := esc.OnContextDone(ok);
        if exit != None {
          Finalize(parser.out, results, PipeResult(0, exit));
        }
      case Expired(ok) =>
        e := TimerFired(ok);
        exit := esc.OnTimer(ok);
        if exit != None {
          Finalize(parser.out, results, PipeResult(0, exit));
        }
    }
  }

  /** Where the pump's loop is: `events` are the turns so far, one for each input used. */
  ghost predicate PumpedTo(fed: seq<Bytes>, view: Loop, inputs: seq<Input>, used: nat, events: seq<Event>) {
    && used <= |inputs| && Describe(events, inputs[..used])
    && RunLoop(START, events) == view && fed == Chunks(inputs[..used])
  }

  lemma OneMoreTurn(fed: seq<Bytes>, view: Loop, inputs: seq<Input>, used: nat, events: seq<Event>, e: Event)
    requires PumpedTo(fed, view, inputs, used, events) && used < |inputs| && Describes(e, inputs[used])
    ensures PumpedTo(fed + (if inputs[used].Chunk? then [inputs[used].b] else []), Step(view, e), inputs, used + 1,
                     events + [e])
  {
    ChunksSnoc(inputs, used);
    RunLoopSnoc(START, events, e);
    DescribeSnoc(events, inputs, e);
  }

  /** The loop of pipePump: every branch that returns reports first. */
  method PumpLoop(parser: Streaming.StreamingParser, inputs: seq<Input>, results: ResultChannel)
    returns (l: Loop, used: nat, ghost events: seq<Event>)
    requires Pumps(parser) && parser.fed == [] && !results.closed && Reported(None, 0, results, parser.out)
    modifies parser, parser.out, results`sent
    ensures PumpedTo(parser.fed, l, inputs, used, events)
    ensures l.exit == None ==> used == |inputs|
    ensures Reported(l.exit, parser.exitCode, results, parser.out)
    ensures l.exit.Some? && l.exit.value.Finished? ==> AllDelivered(parser)
  {
    var esc := new Escalation();
    used, events := 0, [];
    while used < |inputs|
      invariant fresh(esc) && used <= |inputs| && Pumps(parser) && Reported(None, 0, results, parser.out)
      invariant PumpedTo(parser.fed, esc.View(None), inputs, used, events)
    {
      ghost var fed, view := parser.fed, esc.View(None);
      var exit;
      ghost var e;
      if inputs[used].Chunk? {
        exit, e := OnChunk(esc, parser, results, inputs[used].b);
      } else {
        exit, e := OnOther(esc, parser, results, inputs[used]);
      }
      OneMoreTurn(fed, view, inputs, used, events, e);
      used, events := used + 1, events + [e];
      if exit != None {
        l := esc.View(exit);
        return;
      }
    }
    l := esc.View(None);
  }

  /**
    pipePump: the same select loop over the streaming parser. If and only if it returns, exactly one result has been
    sent, the output is ended, cleanly only after a completion, the channel is closed and the mutex unlocked; a clean
    result carries the exit code of the stream read, all of whose output has been handed on.
   */
  method PipePump(parser: Streaming.StreamingParser, inputs: seq<Input>, results: ResultChannel, mu: Mutex)
    returns (l: Loop, used: nat, ghost events: seq<Event>)
    requires parser.Valid() && parser.fed == [] && parser.out.ended == None
    requires mu.locked && results.sent == [] && !results.closed
    modifies parser, parser.out, results, mu
    ensures PumpedTo(parser.fed, l, inputs, used, events)
    ensures l.exit == None ==> used == |inputs|
    ensures Reported(l.exit, parser.exitCode, results, parser.out)
    ensures l.exit.Some? ==>
              && |results.sent| == 1
              && (results.sent[0].err == None <==> l.exit == Some(Finished(false)))
              && (results.sent[0].err != None ==> results.sent[0].err == l.exit)
              && (l.exit.value.Finished? ==>
                    StreamVerdict(parser).Done? && results.sent[0].exitCode == StreamVerdict(parser).exitCode)
    ensures results.closed == l.exit.Some? && mu.locked == l.exit.None?
    ensures l.exit.Some? && l.exit.value.Finished? ==> AllDelivered(parser)
  {
    StartPending(parser);
    l, used, events := PumpLoop(parser, inputs, results);
    if l.exit != None {
      results.Close();
      mu.Unlock();
    }
  }

  lemma StartPending(parser: Streaming.StreamingParser)
    requires parser.Valid() && parser.fed == []
    ensures !StreamVerdict(parser).Done?
  {
  }

  lemma Delivered(parser: Streaming.StreamingParser)
    requires parser.Valid() && StreamVerdict(parser).Done?
    ensures parser.out.data == Streaming.ClosedOutput(parser.begMarker, parser.endMarker, parser.fed)
  {
  }
}
