/**
  The long-lived agent: concurrent callers share one request stream and one response stream, a mutex each call
  holds from its request to its response, and a flag that closes the streams for good.
 */
module Repl {
  import opened Bytes

  datatype Id = Number(n: nat) | Empty

  datatype Request = Ask(id: Id, body: Bytes) | Bye

  datatype Response = Response(id: Id, body: Bytes)

  type Handler = Bytes -> Bytes

  const BAD_PROTO := Response(Empty, "bad_proto")

  /** Every path of the agent's dispatch echoes the id. */
  function Dispatch(r: Request, answer: Handler): (resp: Response)
    ensures resp.id == if r.Ask? then r.id else Empty
  {
    if r.Ask? then Response(r.id, answer(r.body)) else Response(Empty, [])
  }

  // ---- the agent's side ----

  datatype Item = Good(request: Request) | Garbled

  /** The responses to a stream of requests: one each, in order, up to a bye or the first that cannot be decoded. */
  function Replies(input: seq<Item>, answer: Handler): (out: seq<Response>)
    ensures |out| <= |input|
  {
    if input == [] then []
    else if input[0].Garbled? then [BAD_PROTO]
    else
      [Dispatch(input[0].request, answer)]
      + (if input[0].request.Bye? then [] else Replies(input[1..], answer))
  }

  method RunRepl(input: seq<Item>, answer: Handler) returns (out: seq<Response>)
    ensures out == Replies(input, answer)
  {
    out := [];
    for i := 0 to |input|
      invariant out + Replies(input[i..], answer) == Replies(input, answer)
    {
      Assoc(out, [if input[i].Garbled? then BAD_PROTO else Dispatch(input[i].request, answer)],
            if input[i].Garbled? || input[i].request.Bye? then [] else Replies(input[i + 1..], answer));
      assert input[i..][1..] == input[i + 1..];
      if input[i].Garbled? {
        out := out + [BAD_PROTO];
        return;
      }
      out := out + [Dispatch(input[i].request, answer)];
      if input[i].request.Bye? { return; }
    }
  }

  /** The k-th response answers the k-th request with its id. */
  lemma {:induction false} RepliesInOrder(input: seq<Item>, answer: Handler, k: nat)
    requires k < |Replies(input, answer)|
    ensures Replies(input, answer)[k] ==
            match input[k]
            case Good(Ask(id, body)) => Response(id, answer(body))
            case Good(Bye) => Response(Empty, [])
            case Garbled => Response(Empty, "bad_proto")
    ensures forall i :: 0 <= i < k ==> input[i].Good? && input[i].request.Ask?
  {
    if k > 0 {
      RepliesInOrder(input[1..], answer, k - 1);
      forall i | 0 <= i < k ensures input[i].Good? && input[i].request.Ask? {
        assert i > 0 ==> input[i] == input[1..][i - 1];
      }
    }
  }

  /** A request is answered exactly if it exists and no bye and nothing undecodable comes before it. */
  lemma {:induction false} AnsweredExactly(input: seq<Item>, answer: Handler, k: nat)
    ensures k < |Replies(input, answer)| <==>
            k < |input| && forall i :: 0 <= i < k ==> input[i].Good? && input[i].request.Ask?
  {
    if k < |Replies(input, answer)| {
      RepliesInOrder(input, answer, k);
    } else if 0 < k < |input| && input[0].Good? && input[0].request.Ask? {
      AnsweredExactly(input[1..], answer, k - 1);
      assert forall i :: 0 <= i < k - 1 ==> input[1..][i] == input[i + 1];
    }
  }

  // ---- the callers' side ----

  datatype Result = Failed | Answered(body: Bytes, reply: Bytes) | Rejected | Mismatch | Ended

  datatype Phase =
    | Waiting(g: nat, body: Bytes)
    | Sending(g: nat, id: nat, body: Bytes)
    | Receiving(g: nat, id: nat, body: Bytes)
    | Closing(g: nat)
    | SayingBye(g: nat)
    | AwaitingBye(g: nat)
    | Done(result: Result)

  /** One agent process: what is on its way to and from it, and what its streams were used for. */
  datatype Stream = Stream(
    toAgent: seq<Request>,
    fromAgent: seq<Response>,
    alive: bool,
    closed: bool,
    holder: Option<nat>,
    sent: nat,
    taken: nat)

  datatype State = State(current: Option<nat>, streams: seq<Stream>, counter: nat, calls: map<nat, Phase>)

  datatype Action =
    | Begin(c: nat, body: Bytes)
    | Start(c: nat, body: Bytes, ok: bool)   // launch and warm-up, under the init mutex
    | Lock(c: nat)
    | MarshalFails(c: nat)
    | Write(c: nat, ok: bool)
    | Read(c: nat, ok: bool)
    | Close(c: nat)
    | LockToClose(c: nat)
    | WriteBye(c: nat, ok: bool)
    | ReadBye(c: nat, ok: bool)
    | Serve(s: nat)                          // the agent answers a request
    | Garble(s: nat)                         // the agent cannot decode a request, says so and exits
    | Die(s: nat)

  function Init(): State {
    State(None, [], 0, map[])
  }

  function StreamOf(p: Phase): nat {
    match p
    case Done(_) => 0
    case _ => p.g
  }

  predicate At(s: State, c: nat) {
    c in s.calls && (s.calls[c].Done? || StreamOf(s.calls[c]) < |s.streams|)
  }

  predicate Enabled(s: State, a: Action) {
    match a
    case Begin(c, _) => c !in s.calls && s.current.Some?
    case Start(c, _, _) => c !in s.calls && s.current.None?
    case Close(c) => c !in s.calls
    case Lock(c) => At(s, c) && s.calls[c].Waiting? && s.streams[s.calls[c].g].holder.None?
    case MarshalFails(c) => At(s, c) && s.calls[c].Sending?
    case Write(c, _) => At(s, c) && s.calls[c].Sending?
    case Read(c, ok) => At(s, c) && s.calls[c].Receiving? && (ok ==> s.streams[s.calls[c].g].fromAgent != [])
    case LockToClose(c) => At(s, c) && s.calls[c].Closing? && s.streams[s.calls[c].g].holder.None?
    case WriteBye(c, _) => At(s, c) && s.calls[c].SayingBye?
    case ReadBye(c, ok) => At(s, c) && s.calls[c].AwaitingBye? && (ok ==> s.streams[s.calls[c].g].fromAgent != [])
    case Serve(g) => g < |s.streams| && s.streams[g].alive && s.streams[g].toAgent != []
    case Garble(g) => g < |s.streams| && s.streams[g].alive && s.streams[g].toAgent != []
    case Die(g) => g < |s.streams|
  }

  function Move(s: State, c: nat, g: nat, stream: Stream, p: Phase): State
    requires g < |s.streams|
  {
    s.(streams := s.streams[g := stream], calls := s.calls[c := p])
  }

  /** What a call makes of the response it decodes. */
  function Judged(id: nat, body: Bytes, r: Response): Result {
    if r.id != Empty && r.id != Number(id) then Mismatch
    else if r.id == Empty then Rejected
    else Answered(body, r.body)
  }

  function Step(s: State, a: Action, answer: Handler): State
    requires Enabled(s, a)
  {
    match a
    case Begin(c, body) => s.(calls := s.calls[c := Waiting(s.current.value, body)])
    case Start(c, body, ok) =>
      if !ok then s.(calls := s.calls[c := Done(Failed)])
      else
        State(Some(|s.streams|), s.streams + [Stream([], [], true, false, None, 0, 0)], s.counter,
              s.calls[c := Waiting(|s.streams|, body)])
    case Close(c) =>
      s.(current := None,
         calls := s.calls[c := if s.current.Some? then Closing(s.current.value) else Done(Ended)])
    case Lock(c) =>
      var Waiting(g, body) := s.calls[c];
      var st := s.streams[g];
      if st.closed then s.(calls := s.calls[c := Done(Failed)])
      else Move(s, c, g, st.(holder := Some(c)), Sending(g, s.counter + 1, body)).(counter := s.counter + 1)
    case MarshalFails(c) =>
      var Sending(g, _, _) := s.calls[c];
      Move(s, c, g, s.streams[g].(holder := None), Done(Failed))
    case Write(c, ok) =>
      var Sending(g, id, body) := s.calls[c];
      var st := s.streams[g];
      if ok then
        Move(s, c, g, st.(toAgent := st.toAgent + [Ask(Number(id), body)], sent := st.sent + 1), Receiving(g, id, body))
      else Move(s, c, g, st.(closed := true, holder := None, sent := st.sent + 1), Done(Failed))
    case Read(c, ok) =>
      var Receiving(g, id, body) := s.calls[c];
      var st := s.streams[g];
      if ok then
        Move(s, c, g, st.(fromAgent := st.fromAgent[1..], holder := None, taken := st.taken + 1),
             Done(Judged(id, body, st.fromAgent[0])))
      else Move(s, c, g, st.(closed := true, holder := None), Done(Failed))
    case LockToClose(c) =>
      var Closing(g) := s.calls[c];
      var st := s.streams[g];
      if st.closed then s.(calls := s.calls[c := Done(Ended)])
      else Move(s, c, g, st.(holder := Some(c)), SayingBye(g))
    case WriteBye(c, ok) =>
      var SayingBye(g) := s.calls[c];
      var st := s.streams[g];
      Move(s, c, g, if ok then st.(toAgent := st.toAgent + [Bye], sent := st.sent + 1) else st.(sent := st.sent + 1),
           AwaitingBye(g))
    case ReadBye(c, ok) =>
      var AwaitingBye(g) := s.calls[c];
      var st := s.streams[g];
      Move(s, c, g,
           (if ok then st.(fromAgent := st.fromAgent[1..], taken := st.taken + 1) else st)
             .(closed := true, holder := None),
           Done(Ended))
    case Serve(g) =>
      var st := s.streams[g];
      s.(streams := s.streams[g := st.(toAgent := st.toAgent[1..],
                                       fromAgent := st.fromAgent + [Dispatch(st.toAgent[0], answer)],
                                       alive := !st.toAgent[0].Bye?)])
    case Garble(g) =>
      var st := s.streams[g];
      s.(streams := s.streams[g := st.(toAgent := st.toAgent[1..],
                                       fromAgent := st.fromAgent + [BAD_PROTO],
                                       alive := false)])
    case Die(g) => s.(streams := s.streams[g := s.streams[g].(alive := false)])
  }

  predicate CanRun(s: State, acts: seq<Action>, answer: Handler)
    decreases |acts|
  {
    acts == [] || (Enabled(s, acts[0]) && CanRun(Step(s, acts[0], answer), acts[1..], answer))
  }

  function Run(s: State, acts: seq<Action>, answer: Handler): State
    requires CanRun(s, acts, answer)
    decreases |acts|
  {
    if acts == [] then s else Run(Step(s, acts[0], answer), acts[1..], answer)
  }

  // ---- the invariant ----

  predicate HoldsLock(p: Phase) {
    p.Sending? || p.Receiving? || p.SayingBye? || p.AwaitingBye?
  }

  /** Nothing is in transit on a stream but the request of the call that holds it, or the response to that. */
  predicate Quiet(st: Stream, holder: Option<Phase>, answer: Handler) {
    match holder
    case Some(Receiving(_, id, body)) =>
      || (st.toAgent == [Ask(Number(id), body)] && st.fromAgent == [])
      || (st.toAgent == [] && st.fromAgent in {[Response(Number(id), answer(body))], [BAD_PROTO]})
    case Some(AwaitingBye(_)) => true
    case _ => st.toAgent == [] && st.fromAgent == []
  }

  predicate GoodStream(s: State, g: nat, answer: Handler)
    requires g < |s.streams|
  {
    var st := s.streams[g];
    && (st.closed ==> st.holder.None?)
    && (st.holder.Some? ==>
          st.holder.value in s.calls && HoldsLock(s.calls[st.holder.value]) && s.calls[st.holder.value].g == g)
    && (!st.closed ==> Quiet(st, if st.holder.Some? then Some(s.calls[st.holder.value]) else None, answer))
  }

  predicate GoodCall(s: State, c: nat, answer: Handler)
    requires c in s.calls
  {
    var p := s.calls[c];
    && At(s, c)
    && (HoldsLock(p) ==> s.streams[p.g].holder == Some(c))
    && (p.Sending? || p.Receiving? ==> p.id <= s.counter)
    && (p.Done? ==> p.result != Mismatch && (p.result.Answered? ==> p.result.reply == answer(p.result.body)))
  }

  ghost predicate Inv(s: State, answer: Handler) {
    && (s.current.Some? ==> s.current.value < |s.streams|)
    && (forall g: nat :: g < |s.streams| ==> GoodStream(s, g, answer))
    && (forall c: nat :: c in s.calls ==> GoodCall(s, c, answer))
    && (forall c: nat, d: nat :: c in s.calls && d in s.calls && c != d ==> DifferentIds(s.calls[c], s.calls[d]))
  }

  predicate DifferentIds(p: Phase, q: Phase) {
    (p.Sending? || p.Receiving?) && (q.Sending? || q.Receiving?) ==> p.id != q.id
  }

  lemma InitInv(answer: Handler)
    ensures Inv(Init(), answer)
  {
  }

  // ---- what a change to one stream and one call leaves alone ----

  lemma OtherStream(s: State, s': State, h: nat, answer: Handler)
    requires h < |s.streams| && h < |s'.streams| && s'.streams[h] == s.streams[h] && GoodStream(s, h, answer)
    requires s.streams[h].holder.Some? ==>
               s.streams[h].holder.value in s'.calls
               && s'.calls[s.streams[h].holder.value] == s.calls[s.streams[h].holder.value]
    ensures GoodStream(s', h, answer)
  {
  }

  lemma OtherCall(s: State, s': State, d: nat, answer: Handler)
    requires d in s.calls && d in s'.calls && s'.calls[d] == s.calls[d] && GoodCall(s, d, answer)
    requires |s.streams| <= |s'.streams| && s.counter <= s'.counter
    requires HoldsLock(s.calls[d]) ==> s'.streams[s.calls[d].g].holder == Some(d)
    ensures GoodCall(s', d, answer)
  {
  }

  /** A call takes, keeps or gives up the lock of its stream. */
  lemma MoveInv(s: State, c: nat, g: nat, st: Stream, p: Phase, counter: nat, answer: Handler)
    requires Inv(s, answer) && c in s.calls && g < |s.streams| && s.counter <= counter
    requires s.streams[g].holder in {None, Some(c)}
    requires HoldsLock(s.calls[c]) ==> s.calls[c].g == g
    requires var s' := Move(s, c, g, st, p).(counter := counter);
             GoodStream(s', g, answer) && GoodCall(s', c, answer)
    requires p.Sending? || p.Receiving? ==>
               p.id == s.counter + 1 || ((s.calls[c].Sending? || s.calls[c].Receiving?) && p.id == s.calls[c].id)
    ensures Inv(Move(s, c, g, st, p).(counter := counter), answer)
  {
    var s' := Move(s, c, g, st, p).(counter := counter);
    forall h: nat | h < |s'.streams| ensures GoodStream(s', h, answer) {
      assert GoodStream(s, h, answer);
      if h != g {
        OtherStream(s, s', h, answer);
      }
    }
    forall d: nat | d in s'.calls ensures GoodCall(s', d, answer) {
      if d != c {
        assert GoodCall(s, d, answer);
        OtherCall(s, s', d, answer);
      }
    }
    forall d: nat, e: nat | d in s'.calls && e in s'.calls && d != e ensures DifferentIds(s'.calls[d], s'.calls[e]) {
      assert DifferentIds(s.calls[d], s.calls[e]);
      assert GoodCall(s, d, answer) && GoodCall(s, e, answer);
    }
  }

  /** A call moves without touching a stream. */
  lemma CallInv(s: State, c: nat, p: Phase, answer: Handler)
    requires Inv(s, answer) && !HoldsLock(p)
    requires c in s.calls ==> !HoldsLock(s.calls[c])
    requires GoodCall(s.(calls := s.calls[c := p]), c, answer)
    ensures Inv(s.(calls := s.calls[c := p]), answer)
  {
    var s' := s.(calls := s.calls[c := p]);
    forall h: nat | h < |s'.streams| ensures GoodStream(s', h, answer) {
      assert GoodStream(s, h, answer);
      OtherStream(s, s', h, answer);
    }
    forall d: nat | d in s'.calls ensures GoodCall(s', d, answer) {
      if d != c {
        assert GoodCall(s, d, answer);
      }
    }
    forall d: nat, e: nat | d in s'.calls && e in s'.calls && d != e ensures DifferentIds(s'.calls[d], s'.calls[e]) {
      assert d != c && e != c ==> DifferentIds(s.calls[d], s.calls[e]);
    }
  }

  /** The agent moves: the stream changes, who holds it does not. */
  lemma AgentInv(s: State, g: nat, st: Stream, answer: Handler)
    requires Inv(s, answer) && g < |s.streams|
    requires st.holder == s.streams[g].holder && GoodStream(s.(streams := s.streams[g := st]), g, answer)
    ensures Inv(s.(streams := s.streams[g := st]), answer)
  {
    var s' := s.(streams := s.streams[g := st]);
    forall h: nat | h < |s'.streams| ensures GoodStream(s', h, answer) {
      assert GoodStream(s, h, answer);
    }
    forall d: nat | d in s'.calls ensures GoodCall(s', d, answer) {
      assert GoodCall(s, d, answer);
      OtherCall(s, s', d, answer);
    }
  }

  /** A new stream, and the call that started it. */
  lemma StartInv(s: State, c: nat, body: Bytes, answer: Handler)
    requires Inv(s, answer) && c !in s.calls && s.current.None?
    ensures Inv(Step(s, Start(c, body, true), answer), answer)
  {
    var s' := Step(s, Start(c, body, true), answer);
    forall h: nat | h < |s'.streams| ensures GoodStream(s', h, answer) {
      if h < |s.streams| {
        assert GoodStream(s, h, answer);
        OtherStream(s, s', h, answer);
      }
    }
    forall d: nat | d in s'.calls ensures GoodCall(s', d, answer) {
      if d != c {
        assert GoodCall(s, d, answer);
        OtherCall(s, s', d, answer);
      }
    }
    forall d: nat, e: nat | d in s'.calls && e in s'.calls && d != e ensures DifferentIds(s'.calls[d], s'.calls[e]) {
      assert d != c && e != c ==> DifferentIds(s.calls[d], s.calls[e]);
    }
  }

  // ---- every step keeps the invariant ----

  lemma AgentStepInv(s: State, a: Action, answer: Handler)
    requires Inv(s, answer) && Enabled(s, a) && (a.Serve? || a.Garble? || a.Die?)
    ensures Inv(Step(s, a, answer), answer)
  {
    var s' := Step(s, a, answer);
    var st := s.streams[a.s];
    assert GoodStream(s, a.s, answer);
    if st.holder.Some? {
      assert GoodCall(s, st.holder.value, answer);
    }
    if !a.Die? {
      var resp := if a.Serve? then Dispatch(st.toAgent[0], answer) else BAD_PROTO;
      assert |st.toAgent| == 1 ==> st.toAgent == [st.toAgent[0]] && st.toAgent[1..] == [];
      assert st.fromAgent == [] ==> st.fromAgent + [resp] == [resp];
    }
    AgentInv(s, a.s, s'.streams[a.s], answer);
  }

  lemma SimpleStepInv(s: State, a: Action, answer: Handler)
    requires Inv(s, answer) && Enabled(s, a) && (a.Begin? || a.Start? || a.Close?)
    ensures Inv(Step(s, a, answer), answer)
  {
    match a {
      case Begin(c, body) => CallInv(s, c, Waiting(s.current.value, body), answer);
      case Start(c, body, ok) =>
        if ok { StartInv(s, c, body, answer); } else { CallInv(s, c, Done(Failed), answer); }
      case Close(c) =>
        var s0 := s.(current := None);
        InvWithoutCurrent(s, answer);
        CallInv(s0, c, if s.current.Some? then Closing(s.current.value) else Done(Ended), answer);
    }
  }

  lemma InvWithoutCurrent(s: State, answer: Handler)
    requires Inv(s, answer)
    ensures Inv(s.(current := None), answer)
  {
    var s' := s.(current := None);
    forall h: nat | h < |s'.streams| ensures GoodStream(s', h, answer) {
      assert GoodStream(s, h, answer);
    }
    forall d: nat | d in s'.calls ensures GoodCall(s', d, answer) {
      assert GoodCall(s, d, answer);
    }
  }

  lemma LockStepInv(s: State, a: Action, answer: Handler)
    requires Inv(s, answer) && Enabled(s, a) && (a.Lock? || a.LockToClose?)
    ensures Inv(Step(s, a, answer), answer)
  {
    var g := s.calls[a.c].g;
    var st := s.streams[g];
    assert GoodStream(s, g, answer) && GoodCall(s, a.c, answer);
    if st.closed {
      CallInv(s, a.c, Done(if a.Lock? then Failed else Ended), answer);
    } else if a.Lock? {
      MoveInv(s, a.c, g, st.(holder := Some(a.c)), Sending(g, s.counter + 1, s.calls[a.c].body), s.counter + 1, answer);
    } else {
      MoveInv(s, a.c, g, st.(holder := Some(a.c)), SayingBye(g), s.counter, answer);
    }
  }

  lemma HolderStepInv(s: State, a: Action, answer: Handler)
    requires Inv(s, answer) && Enabled(s, a)
    requires a.MarshalFails? || a.Write? || a.Read? || a.WriteBye? || a.ReadBye?
    ensures Inv(Step(s, a, answer), answer)
  {
    var s' := Step(s, a, answer);
    var g := s.calls[a.c].g;
    assert GoodStream(s, g, answer) && GoodCall(s, a.c, answer);
    MoveInv(s, a.c, g, s'.streams[g], s'.calls[a.c], s.counter, answer);
  }

  lemma StepInv(s: State, a: Action, answer: Handler)
    requires Inv(s, answer) && Enabled(s, a)
    ensures Inv(Step(s, a, answer), answer)
  {
    match a {
      case Begin(_, _) => SimpleStepInv(s, a, answer);
      case Start(_, _, _) => SimpleStepInv(s, a, answer);
      case Close(_) => SimpleStepInv(s, a, answer);
      case Lock(_) => LockStepInv(s, a, answer);
      case LockToClose(_) => LockStepInv(s, a, answer);
      case Serve(_) => AgentStepInv(s, a, answer);
      case Garble(_) => AgentStepInv(s, a, answer);
      case Die(_) => AgentStepInv(s, a, answer);
      case _ => HolderStepInv(s, a, answer);
    }
  }

  lemma {:induction false} RunInv(s: State, acts: seq<Action>, answer: Handler)
    requires Inv(s, answer) && CanRun(s, acts, answer)
    ensures Inv(Run(s, acts, answer), answer)
    decreases |acts|
  {
    if acts != [] {
      StepInv(s, acts[0], answer);
      RunInv(Step(s, acts[0], answer), acts[1..], answer);
    }
  }

  // ---- consequences for every run ----

  /**
    For every interleaving of callers, Close and an agent that may die or fail to decode a request: no call ever
    decodes a response with another call's id, and a call that succeeds has the answer to its own request.
   */
  lemma ResponsesArePaired(acts: seq<Action>, answer: Handler, c: nat)
    requires CanRun(Init(), acts, answer) && c in Run(Init(), acts, answer).calls
    ensures var p := Run(Init(), acts, answer).calls[c];
            p.Done? ==>
              && p.result != Mismatch
              && (p.result.Answered? ==> p.result.reply == answer(p.result.body))
  {
    InitInv(answer);
    RunInv(Init(), acts, answer);
    assert GoodCall(Run(Init(), acts, answer), c, answer);
  }

  /**
    A call that can read a response gets its own: the answer to its request, or the refusal of an agent that could not
    decode it. Either way it gives the stream back, in order for the next call.
   */
  lemma ReadGetsOwnReply(s: State, c: nat, answer: Handler)
    requires Inv(s, answer) && Enabled(s, Read(c, true)) && !s.streams[s.calls[c].g].closed
    ensures var Receiving(g, id, body) := s.calls[c];
            var t, reply := Step(s, Read(c, true), answer), s.streams[g].fromAgent;
            && (reply == [Response(Number(id), answer(body))] || reply == [Response(Empty, "bad_proto")])
            && t.calls[c] == Done(if reply[0].id == Empty then Rejected else Answered(body, answer(body)))
            && t.streams[g].holder == None && !t.streams[g].closed && t.streams[g].fromAgent == []
  {
    assert GoodCall(s, c, answer);
    assert GoodStream(s, s.calls[c].g, answer);
  }

  /** A response with another call's id is never taken for an answer. */
  lemma OtherIdIsMismatch(id: nat, other: nat, body: Bytes, reply: Bytes)
    ensures Judged(id, body, Response(Number(other), reply)) ==
            if other == id then Answered(body, reply) else Mismatch
  {
  }

  /** Two calls in flight have different ids. */
  lemma IdsAreUnique(acts: seq<Action>, answer: Handler, c: nat, d: nat)
    requires CanRun(Init(), acts, answer) && c != d
    requires c in Run(Init(), acts, answer).calls && d in Run(Init(), acts, answer).calls
    ensures DifferentIds(Run(Init(), acts, answer).calls[c], Run(Init(), acts, answer).calls[d])
  {
    InitInv(answer);
    RunInv(Init(), acts, answer);
  }

  /** Once a stream is closed, by a failed write or read or by bye, nothing is written to it or read from it again. */
  lemma ClosedStreamStep(s: State, a: Action, answer: Handler, g: nat)
    requires Inv(s, answer) && Enabled(s, a) && g < |s.streams| && s.streams[g].closed
    ensures var t := Step(s, a, answer);
            && g < |t.streams| && t.streams[g].closed
            && t.streams[g].sent == s.streams[g].sent && t.streams[g].taken == s.streams[g].taken
  {
    assert GoodStream(s, g, answer);
    if a.MarshalFails? || a.Write? || a.Read? || a.WriteBye? || a.ReadBye? {
      assert GoodCall(s, a.c, answer);
    }
  }

  lemma {:induction false} ClosedStreamIsLeftAlone(s: State, acts: seq<Action>, answer: Handler, g: nat)
    requires Inv(s, answer) && CanRun(s, acts, answer) && g < |s.streams| && s.streams[g].closed
    ensures var t := Run(s, acts, answer);
            && g < |t.streams| && t.streams[g].closed
            && t.streams[g].sent == s.streams[g].sent && t.streams[g].taken == s.streams[g].taken
    decreases |acts|
  {
    if acts != [] {
      StepInv(s, acts[0], answer);
      ClosedStreamStep(s, acts[0], answer, g);
      ClosedStreamIsLeftAlone(Step(s, acts[0], answer), acts[1..], answer, g);
    }
  }

  /** After a failed write or read, or a finished bye, no call of any continuation touches the stream. */
  lemma NothingAfterFailure(s: State, a: Action, acts: seq<Action>, answer: Handler)
    requires Inv(s, answer) && Enabled(s, a) && CanRun(Step(s, a, answer), acts, answer)
    requires (a.Write? && !a.ok) || (a.Read? && !a.ok) || a.ReadBye?
    ensures var g, s', t := s.calls[a.c].g, Step(s, a, answer), Run(Step(s, a, answer), acts, answer);
            && g < |s'.streams| && g < |t.streams| && t.streams[g].closed
            && t.streams[g].sent == s'.streams[g].sent && t.streams[g].taken == s'.streams[g].taken
  {
    StepInv(s, a, answer);
    ClosedStreamIsLeftAlone(Step(s, a, answer), acts, answer, s.calls[a.c].g);
  }

  /** Calls that are not among `known` have to do with streams from `n` on only, and so will calls to come. */
  predicate UsesLater(s: State, known: set<nat>, n: nat) {
    && (s.current.Some? ==> s.current.value >= n) && |s.streams| >= n
    && known <= s.calls.Keys
    && forall c :: c in s.calls && c !in known ==> s.calls[c].Done? || StreamOf(s.calls[c]) >= n
  }

  lemma UsesLaterStep(s: State, a: Action, answer: Handler, known: set<nat>, n: nat)
    requires UsesLater(s, known, n) && Enabled(s, a)
    ensures UsesLater(Step(s, a, answer), known, n)
  {
  }

  lemma {:induction false} UsesLaterRun(s: State, acts: seq<Action>, answer: Handler, known: set<nat>, n: nat)
    requires UsesLater(s, known, n) && CanRun(s, acts, answer)
    ensures UsesLater(Run(s, acts, answer), known, n)
    decreases |acts|
  {
    if acts != [] {
      UsesLaterStep(s, acts[0], answer, known, n);
      UsesLaterRun(Step(s, acts[0], answer), acts[1..], answer, known, n);
    }
  }

  /** A call that begins after Close never touches an agent that was there before: the next one is launched afresh. */
  lemma FreshAgentAfterClose(s: State, c: nat, acts: seq<Action>, answer: Handler, d: nat)
    requires Enabled(s, Close(c)) && CanRun(Step(s, Close(c), answer), acts, answer)
    requires var t := Run(Step(s, Close(c), answer), acts, answer); d in t.calls && d !in s.calls && d != c
    ensures var t := Run(Step(s, Close(c), answer), acts, answer);
            t.calls[d].Done? || StreamOf(t.calls[d]) >= |s.streams|
  {
    UsesLaterRun(Step(s, Close(c), answer), acts, answer, s.calls.Keys + {c}, |s.streams|);
  }
}
