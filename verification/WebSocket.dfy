/**
  The websocket channel: a pump that fills a buffer and redials when the connection breaks, readers that drain
  the buffer, and Close, interleaved at the points where the source holds the read lock.
 */
module WebSocket {
  import opened Bytes

  datatype Error = Eof | Torn(code: int) | Undecodable(code: int)

  /** A byte and the connection it came over; the tag is not part of what the channel stores. */
  datatype Cell = Cell(byte: char, origin: nat)

  datatype Pump = Reading | Redialing(cause: Error) | Stopped

  datatype Config = Config(reconnect: bool, maxReconnects: int)

  /** The fields of the channel; connections are numbered from zero. */
  datatype State = State(
    conn: nat,
    buf: seq<Cell>,
    readErr: Option<Error>,
    pending: bool,
    remaining: int,
    attempts: nat,
    stopping: bool,
    closed: bool,
    pump: Pump)

  datatype Event =
    | Message(payload: Bytes)       // ReadMessage and Decode succeeded
    | BadPayload(code: int)         // Decode failed
    | Broken(clean: bool, code: int)  // ReadMessage failed
    | BackoffStopped                // the wait before a redial saw Close
    | Redial(dialed: bool)          // the redial returned
    | Read(n: nat)                  // a Read of n bytes returns
    | StopPing                      // Close, first half
    | MarkClosed                    // Close, second half

  datatype Out = Quiet | Got(cells: seq<Cell>) | Reconnected | ChannelClosed | Failed(err: Error)

  function Start(cfg: Config): State {
    State(0, [], None, false, cfg.maxReconnects, 0, false, false, Reading)
  }

  predicate ShouldTryReconnect(cfg: Config, s: State) {
    cfg.maxReconnects == 0 || s.remaining > 0
  }

  predicate CanReturn(s: State) {
    s.buf != [] || s.readErr.Some? || s.pending || s.closed
  }

  predicate Enabled(s: State, e: Event) {
    match e
    case Message(_) => s.pump.Reading?
    case BadPayload(_) => s.pump.Reading?
    case Broken(_, _) => s.pump.Reading?
    case BackoffStopped => s.pump.Redialing? && s.stopping
    case Redial(_) => s.pump.Redialing?
    case Read(n) => n == 0 || CanReturn(s)
    case StopPing => !s.stopping
    case MarkClosed => s.stopping && !s.closed
  }

  function Tagged(payload: Bytes, conn: nat): (cells: seq<Cell>)
    ensures |cells| == |payload|
    ensures forall i :: 0 <= i < |cells| ==> cells[i] == Cell(payload[i], conn)
  {
    seq(|payload|, i requires 0 <= i < |payload| => Cell(payload[i], conn))
  }

  function Terminate(s: State, err: Error): State {
    s.(readErr := Some(err), pump := Stopped)
  }

  function AfterRedial(cfg: Config, s: State, dialed: bool): State
    requires s.pump.Redialing?
  {
    if s.closed then Terminate(s, s.pump.cause)
    else if !dialed then Terminate(s.(attempts := s.attempts + 1), s.pump.cause)
    else
      s.(conn := s.conn + 1, buf := [], pending := true, attempts := s.attempts + 1, pump := Reading,
         remaining := if cfg.maxReconnects > 0 then s.remaining - 1 else s.remaining)
  }

  function AfterRead(s: State, n: nat): (State, Out)
    requires n == 0 || CanReturn(s)
  {
    if n == 0 then (s, Got([]))
    else if s.buf != [] then (s.(buf := s.buf[Min(n, |s.buf|)..]), Got(s.buf[..Min(n, |s.buf|)]))
    else if s.pending then (s.(pending := false), Reconnected)
    else if s.closed then (s, ChannelClosed)
    else (s, Failed(s.readErr.value))
  }

  function Step(cfg: Config, s: State, e: Event): (State, Out)
    requires Enabled(s, e)
  {
    match e
    case Message(payload) => (s.(buf := s.buf + Tagged(payload, s.conn)), Quiet)
    case BadPayload(code) => (Terminate(s, Undecodable(code)), Quiet)
    case Broken(clean, code) =>
      var cause := if clean then Eof else Torn(code);
      (if s.closed then s.(pump := Stopped)
       else if cfg.reconnect && ShouldTryReconnect(cfg, s) then s.(pump := Redialing(cause))
       else Terminate(s, cause), Quiet)
    case BackoffStopped => (Terminate(s, s.pump.cause), Quiet)
    case Redial(dialed) => (AfterRedial(cfg, s, dialed), Quiet)
    case Read(n) => AfterRead(s, n)
    case StopPing => (s.(stopping := true), Quiet)
    case MarkClosed => (s.(closed := true), Quiet)
  }

  /** A run: the channel, what each connection has delivered to the pump, and what each event returned. */
  datatype World = World(s: State, received: seq<Bytes>, outs: seq<Out>)

  function Received(w: World, e: Event, s': State): seq<Bytes> {
    if e.Message? && w.s.conn < |w.received| then w.received[w.s.conn := w.received[w.s.conn] + e.payload]
    else if s'.conn > w.s.conn then w.received + [[]]
    else w.received
  }

  function StepWorld(cfg: Config, w: World, e: Event): World
    requires Enabled(w.s, e)
  {
    var (s', out) := Step(cfg, w.s, e);
    World(s', Received(w, e, s'), w.outs + [out])
  }

  predicate CanRun(cfg: Config, w: World, es: seq<Event>)
    decreases |es|
  {
    es == [] || (Enabled(w.s, es[0]) && CanRun(cfg, StepWorld(cfg, w, es[0]), es[1..]))
  }

  function Run(cfg: Config, w: World, es: seq<Event>): World
    requires CanRun(cfg, w, es)
    decreases |es|
  {
    if es == [] then w else Run(cfg, StepWorld(cfg, w, es[0]), es[1..])
  }

  function Init(cfg: Config): World {
    World(Start(cfg), [[]], [])
  }

  // ---- what readers have seen ----

  function FromConn(cells: seq<Cell>, c: nat): (r: Bytes) {
    if cells == [] then []
    else FromConn(cells[..|cells| - 1], c) + (if cells[|cells| - 1].origin == c then [cells[|cells| - 1].byte] else [])
  }

  /** The bytes of connection `c` that reads returned, in order. */
  function ReadFrom(outs: seq<Out>, c: nat): (r: Bytes) {
    if outs == [] then []
    else
      var last := outs[|outs| - 1];
      ReadFrom(outs[..|outs| - 1], c) + (if last.Got? then FromConn(last.cells, c) else [])
  }

  function Signals(outs: seq<Out>): (n: nat)
    ensures n <= |outs|
  {
    if outs == [] then 0
    else Signals(outs[..|outs| - 1]) + (if outs[|outs| - 1].Reconnected? then 1 else 0)
  }

  lemma OutsSnoc(outs: seq<Out>, out: Out, c: nat)
    ensures ReadFrom(outs + [out], c) == ReadFrom(outs, c) + (if out.Got? then FromConn(out.cells, c) else [])
    ensures Signals(outs + [out]) == Signals(outs) + (if out.Reconnected? then 1 else 0)
  {
    assert (outs + [out])[..|outs|] == outs;
  }

  predicate AllFrom(cells: seq<Cell>, c: nat) {
    forall i :: 0 <= i < |cells| ==> cells[i].origin == c
  }

  lemma {:induction false} FromConnAppend(a: seq<Cell>, b: seq<Cell>, c: nat)
    ensures FromConn(a + b, c) == FromConn(a, c) + FromConn(b, c)
  {
    if b == [] {
      assert a + b == a;
    } else {
      assert (a + b)[..|a + b| - 1] == a + b[..|b| - 1];
      FromConnAppend(a, b[..|b| - 1], c);
    }
  }

  lemma {:induction false} FromOtherConn(cells: seq<Cell>, c: nat, d: nat)
    requires AllFrom(cells, d) && c != d
    ensures FromConn(cells, c) == []
  {
    if cells != [] {
      FromOtherConn(cells[..|cells| - 1], c, d);
    }
  }

  lemma {:induction false} FromTagged(payload: Bytes, c: nat)
    ensures FromConn(Tagged(payload, c), c) == payload
  {
    if payload != [] {
      var init := payload[..|payload| - 1];
      FromTagged(init, c);
      assert Tagged(payload, c)[..|payload| - 1] == Tagged(init, c);
      InitLast(payload);
    }
  }

  // ---- the invariant of every run ----

  /** What was read from connection `c`, with what is buffered if it is the current one, against what arrived. */
  predicate InOrder(c: nat, conn: nat, buf: seq<Cell>, received: seq<Bytes>, outs: seq<Out>)
    requires |received| == conn + 1
  {
    if c < conn then ReadFrom(outs, c) <= received[c]
    else if c == conn then received[c] == ReadFrom(outs, c) + FromConn(buf, c)
    else ReadFrom(outs, c) == []
  }

  /** The buffer holds current bytes only, and every connection's bytes are read in order. */
  ghost predicate Streams(w: World) {
    && |w.received| == w.s.conn + 1
    && AllFrom(w.s.buf, w.s.conn)
    && (forall c: nat :: InOrder(c, w.s.conn, w.s.buf, w.received, w.outs))
  }

  predicate Budget(cfg: Config, s: State) {
    && (cfg.maxReconnects > 0 ==> s.remaining + s.conn == cfg.maxReconnects && s.remaining >= 0)
    && (cfg.maxReconnects <= 0 ==> s.remaining == cfg.maxReconnects)
    && (cfg.maxReconnects < 0 || !cfg.reconnect ==> s.conn == 0 && !s.pump.Redialing?)
    && (cfg.maxReconnects > 0 && s.pump.Redialing? ==> s.remaining > 0)
    && s.conn <= s.attempts <= s.conn + 1
    && (s.attempts == s.conn + 1 ==> s.pump.Stopped?)
  }

  predicate Terminal(s: State) {
    && (s.readErr.Some? ==> s.pump.Stopped?)
    && (s.pump.Stopped? ==> s.readErr.Some? || s.closed)
    && (s.closed ==> s.stopping)
  }

  ghost predicate Inv(cfg: Config, w: World) {
    && Streams(w)
    && Budget(cfg, w.s)
    && Terminal(w.s)
    && Signals(w.outs) + (if w.s.pending then 1 else 0) <= w.s.conn
  }

  lemma InitInv(cfg: Config)
    ensures Inv(cfg, Init(cfg))
  {
  }

  lemma QuietInOrder(c: nat, conn: nat, buf: seq<Cell>, received: seq<Bytes>, outs: seq<Out>)
    requires |received| == conn + 1 && InOrder(c, conn, buf, received, outs)
    ensures InOrder(c, conn, buf, received, outs + [Quiet])
  {
    OutsSnoc(outs, Quiet, c);
  }

  /** Receiving bytes. */
  lemma MessageInOrder(c: nat, conn: nat, buf: seq<Cell>, received: seq<Bytes>, outs: seq<Out>, payload: Bytes)
    requires |received| == conn + 1 && InOrder(c, conn, buf, received, outs)
    ensures InOrder(c, conn, buf + Tagged(payload, conn), received[conn := received[conn] + payload], outs + [Quiet])
  {
    OutsSnoc(outs, Quiet, c);
    FromConnAppend(buf, Tagged(payload, conn), conn);
    FromTagged(payload, conn);
    Assoc(ReadFrom(outs, conn), FromConn(buf, conn), payload);
  }

  /** Reading bytes, if the read returns any. */
  lemma ReadInOrder(c: nat, conn: nat, got: seq<Cell>, rest: seq<Cell>, received: seq<Bytes>, outs: seq<Out>, out: Out)
    requires |received| == conn + 1 && AllFrom(got + rest, conn) && InOrder(c, conn, got + rest, received, outs)
    requires got == if out.Got? then out.cells else []
    ensures InOrder(c, conn, rest, received, outs + [out])
  {
    OutsSnoc(outs, out, c);
    SplitFrom(got, rest, conn);
    if c == conn {
      FromConnAppend(got, rest, c);
      Assoc(ReadFrom(outs, c), FromConn(got, c), FromConn(rest, c));
    } else {
      FromOtherConn(got, c, conn);
    }
  }

  lemma SplitFrom(a: seq<Cell>, b: seq<Cell>, c: nat)
    requires AllFrom(a + b, c)
    ensures AllFrom(a, c) && AllFrom(b, c)
  {
    assert (a + b)[..|a|] == a && (a + b)[|a|..] == b;
  }

  /** Redialing: the old connection's unread bytes are dropped, the new one starts empty. */
  lemma RedialInOrder(c: nat, conn: nat, buf: seq<Cell>, received: seq<Bytes>, outs: seq<Out>)
    requires |received| == conn + 1 && InOrder(c, conn, buf, received, outs)
    ensures InOrder(c, conn + 1, [], received + [[]], outs + [Quiet])
  {
    OutsSnoc(outs, Quiet, c);
  }

  lemma StepStreams(cfg: Config, w: World, e: Event)
    requires Streams(w) && Enabled(w.s, e)
    ensures Streams(StepWorld(cfg, w, e))
  {
    var w' := StepWorld(cfg, w, e);
    var conn, buf, out := w.s.conn, w.s.buf, Step(cfg, w.s, e).1;
    var got := if out.Got? then out.cells else [];
    assert e.Read? ==> buf == got + w'.s.buf;
    forall c: nat ensures InOrder(c, w'.s.conn, w'.s.buf, w'.received, w'.outs) {
      assert InOrder(c, conn, buf, w.received, w.outs);
      match e {
        case Message(payload) => MessageInOrder(c, conn, buf, w.received, w.outs, payload);
        case Read(n) => ReadInOrder(c, conn, got, w'.s.buf, w.received, w.outs, out);
        case _ =>
          QuietInOrder(c, conn, buf, w.received, w.outs);
          RedialInOrder(c, conn, buf, w.received, w.outs);
      }
    }
  }

  lemma StepCounts(cfg: Config, s: State, e: Event)
    requires Budget(cfg, s) && Terminal(s) && Enabled(s, e)
    ensures Budget(cfg, Step(cfg, s, e).0) && Terminal(Step(cfg, s, e).0)
  {
  }

  /** A signal uses up the pending mark; only a reconnect sets it. */
  lemma StepSignals(cfg: Config, s: State, e: Event)
    requires Enabled(s, e)
    ensures var (s', out) := Step(cfg, s, e);
            (if out.Reconnected? then 1 else 0) + (if s'.pending then 1 else 0) <=
            (if s.pending then 1 else 0) + (s'.conn - s.conn)
  {
  }

  lemma StepInv(cfg: Config, w: World, e: Event)
    requires Inv(cfg, w) && Enabled(w.s, e)
    ensures Inv(cfg, StepWorld(cfg, w, e))
  {
    StepStreams(cfg, w, e);
    StepCounts(cfg, w.s, e);
    StepSignals(cfg, w.s, e);
    OutsSnoc(w.outs, Step(cfg, w.s, e).1, 0);
  }

  lemma {:induction false} RunInv(cfg: Config, w: World, es: seq<Event>)
    requires Inv(cfg, w) && CanRun(cfg, w, es)
    ensures Inv(cfg, Run(cfg, w, es))
    decreases |es|
  {
    if es != [] {
      StepInv(cfg, w, es[0]);
      RunInv(cfg, StepWorld(cfg, w, es[0]), es[1..]);
    }
  }

  // ---- what holds of every run ----

  /**
    For every interleaving of the pump, readers and Close: the bytes read from each connection are a prefix of what
    it delivered, reads and buffer together hold all of the current one's and nothing else, there is at most one
    signal per reconnect, and with a positive limit what remains of it plus the reconnects made is the limit.
   */
  lemma EveryRun(cfg: Config, es: seq<Event>)
    requires CanRun(cfg, Init(cfg), es)
    ensures var w := Run(cfg, Init(cfg), es);
            && |w.received| == w.s.conn + 1
            && (forall c: nat :: c <= w.s.conn ==> ReadFrom(w.outs, c) <= w.received[c])
            && w.received[w.s.conn] == ReadFrom(w.outs, w.s.conn) + FromConn(w.s.buf, w.s.conn)
            && AllFrom(w.s.buf, w.s.conn)
            && Signals(w.outs) <= w.s.conn
            && (cfg.maxReconnects > 0 ==> w.s.remaining + w.s.conn == cfg.maxReconnects && w.s.remaining >= 0)
            && (cfg.maxReconnects < 0 || !cfg.reconnect ==> w.s.conn == 0)
  {
    InitInv(cfg);
    RunInv(cfg, Init(cfg), es);
    var w := Run(cfg, Init(cfg), es);
    forall c: nat | c <= w.s.conn ensures ReadFrom(w.outs, c) <= w.received[c] {
      assert InOrder(c, w.s.conn, w.s.buf, w.received, w.outs);
    }
    assert InOrder(w.s.conn, w.s.conn, w.s.buf, w.received, w.outs);
  }

  /**
    In every run: when the connection breaks, the pump goes on to redial exactly if the channel is not closed,
    reconnecting is enabled, and the limit, if there is one, has not been used up by reconnects.
   */
  lemma RedialsExactly(cfg: Config, es: seq<Event>, clean: bool, code: int)
    requires CanRun(cfg, Init(cfg), es) && Run(cfg, Init(cfg), es).s.pump.Reading?
    ensures var s := Run(cfg, Init(cfg), es).s;
            && Enabled(s, Broken(clean, code))
            && (Step(cfg, s, Broken(clean, code)).0.pump.Redialing? <==>
                  !s.closed && cfg.reconnect && (cfg.maxReconnects == 0 || s.conn < cfg.maxReconnects))
  {
    InitInv(cfg);
    RunInv(cfg, Init(cfg), es);
  }

  /**
    A redial brings a new connection exactly if dialing succeeds on a channel that is not closed; the buffer is then
    empty and the signal due. Otherwise the pump stops, with the error that broke the old connection.
   */
  lemma RedialOutcome(cfg: Config, s: State, dialed: bool)
    requires Enabled(s, Redial(dialed))
    ensures var s' := Step(cfg, s, Redial(dialed)).0;
            if dialed && !s.closed then s'.conn == s.conn + 1 && s'.pump.Reading? && s'.buf == [] && s'.pending
            else s'.conn == s.conn && s'.pump.Stopped? && s'.readErr == Some(s.pump.cause) && s'.buf == s.buf
  {
  }

  /** A payload that cannot be decoded ends the channel with that error; a readable one is buffered behind the rest. */
  lemma PayloadOutcome(cfg: Config, s: State, payload: Bytes, code: int)
    requires s.pump.Reading?
    ensures var t, u := Step(cfg, s, Message(payload)).0, Step(cfg, s, BadPayload(code)).0;
            && t.pump.Reading? && |t.buf| == |s.buf| + |payload| && s.buf == t.buf[..|s.buf|]
            && FromConn(t.buf, s.conn) == FromConn(s.buf, s.conn) + payload
            && u.pump.Stopped? && u.readErr == Some(Undecodable(code)) && u.buf == s.buf
  {
    FromConnAppend(s.buf, Tagged(payload, s.conn), s.conn);
    FromTagged(payload, s.conn);
  }

  /** A read takes as many bytes as it asks for and there are. */
  lemma ReadTakes(s: State, n: nat)
    requires n > 0 && s.buf != []
    ensures var (s', out) := AfterRead(s, n);
            out.Got? && out.cells + s'.buf == s.buf && (|out.cells| == n || (s'.buf == [] && |out.cells| < n))
  {
  }

  /** The connection's error is what the pump redials for, or what it has stopped with. */
  predicate Remembers(s: State, err: Error) {
    s.pump == Redialing(err) || (s.pump.Stopped? && s.readErr == Some(err))
  }

  /**
    The error that broke a connection of an open channel, end of file if the connection was closed cleanly, is kept
    through any number of events up to a redial that succeeds; once the pump has stopped, reads return it.
   */
  lemma {:induction false} BreakIsKept(cfg: Config, w: World, es: seq<Event>, err: Error)
    requires Remembers(w.s, err) && CanRun(cfg, w, es) && forall k :: 0 <= k < |es| ==> es[k] != Redial(true)
    ensures Remembers(Run(cfg, w, es).s, err)
    decreases |es|
  {
    if es != [] {
      assert es[0] != Redial(true);
      assert forall k :: 0 <= k < |es[1..]| ==> es[1..][k] == es[k + 1];
      BreakIsKept(cfg, StepWorld(cfg, w, es[0]), es[1..], err);
    }
  }

  lemma BreakIsReported(cfg: Config, w: World, clean: bool, code: int, es: seq<Event>, n: nat)
    requires Enabled(w.s, Broken(clean, code)) && !w.s.closed && n > 0
    requires CanRun(cfg, w, [Broken(clean, code)] + es) && forall k :: 0 <= k < |es| ==> es[k] != Redial(true)
    ensures var s := Run(cfg, w, [Broken(clean, code)] + es).s;
            s.pump.Stopped? && s.buf == [] && !s.pending && !s.closed ==>
              Enabled(s, Read(n)) && AfterRead(s, n).1 == Failed(if clean then Eof else Torn(code))
  {
    assert ([Broken(clean, code)] + es)[1..] == es;
    BreakIsKept(cfg, StepWorld(cfg, w, Broken(clean, code)), es, if clean then Eof else Torn(code));
  }

  /** Between two signals there is a reconnect. */
  lemma {:induction false} NoSignalWithoutReconnect(cfg: Config, w: World, es: seq<Event>)
    requires CanRun(cfg, w, es) && !w.s.pending
    ensures Run(cfg, w, es).s.conn >= w.s.conn
    ensures Run(cfg, w, es).s.conn == w.s.conn ==> Signals(Run(cfg, w, es).outs) == Signals(w.outs)
    decreases |es|
  {
    if es != [] {
      var w' := StepWorld(cfg, w, es[0]);
      OutsSnoc(w.outs, Step(cfg, w.s, es[0]).1, 0);
      if w'.s.conn == w.s.conn {
        NoSignalWithoutReconnect(cfg, w', es[1..]);
      } else {
        ConnGrows(cfg, w', es[1..]);
      }
    }
  }

  lemma {:induction false} ConnGrows(cfg: Config, w: World, es: seq<Event>)
    requires CanRun(cfg, w, es)
    ensures Run(cfg, w, es).s.conn >= w.s.conn
    decreases |es|
  {
    if es != [] {
      ConnGrows(cfg, StepWorld(cfg, w, es[0]), es[1..]);
    }
  }

  /** A redial succeeds while the signal of an earlier one has not been read. */
  predicate Overwrites(s: State, e: Event) {
    s.pending && e == Redial(true) && !s.closed
  }

  function Overwritten(cfg: Config, w: World, es: seq<Event>): nat
    requires CanRun(cfg, w, es)
    decreases |es|
  {
    if es == [] then 0
    else (if Overwrites(w.s, es[0]) then 1 else 0) + Overwritten(cfg, StepWorld(cfg, w, es[0]), es[1..])
  }

  /** The signals read and the one due. */
  function Told(w: World): nat {
    Signals(w.outs) + (if w.s.pending then 1 else 0)
  }

  lemma {:induction false} SignalBalance(cfg: Config, w: World, es: seq<Event>)
    requires CanRun(cfg, w, es)
    ensures Told(Run(cfg, w, es)) + Overwritten(cfg, w, es) + w.s.conn == Told(w) + Run(cfg, w, es).s.conn
    decreases |es|
  {
    if es != [] {
      SignalBalance(cfg, StepWorld(cfg, w, es[0]), es[1..]);
      OutsSnoc(w.outs, Step(cfg, w.s, es[0]).1, 0);
    }
  }

  /** In every run, one signal was read or is due for each reconnect, exactly when none succeeded while one was due. */
  lemma OneSignalPerReconnect(cfg: Config, es: seq<Event>)
    requires CanRun(cfg, Init(cfg), es)
    ensures var w := Run(cfg, Init(cfg), es);
            && w.s.conn - Told(w) == Overwritten(cfg, Init(cfg), es)
            && (Told(w) == w.s.conn <==> Overwritten(cfg, Init(cfg), es) == 0)
  {
    SignalBalance(cfg, Init(cfg), es);
  }

  /** An error or the end is reported only when every byte of the last connection was read and no signal is due. */
  lemma NothingLost(cfg: Config, w: World, n: nat)
    requires Inv(cfg, w) && Enabled(w.s, Read(n))
    ensures var out := AfterRead(w.s, n).1;
            (out.Failed? || out.ChannelClosed?) || out.Reconnected? ==>
              ReadFrom(w.outs, w.s.conn) == w.received[w.s.conn] && (w.s.pending <==> out.Reconnected?)
  {
    assert InOrder(w.s.conn, w.s.conn, w.s.buf, w.received, w.outs);
    assert w.s.buf == [] ==> FromConn(w.s.buf, w.s.conn) == [];
  }

  /** The signal marks the start of a connection's bytes exactly when none had arrived before it was read. */
  lemma SignalAtBoundary(cfg: Config, w: World, n: nat)
    requires Inv(cfg, w) && Enabled(w.s, Read(n)) && AfterRead(w.s, n).1.Reconnected?
    ensures ReadFrom(w.outs, w.s.conn) == [] <==> w.received[w.s.conn] == []
  {
    NothingLost(cfg, w, n);
  }

  /** What reads return once the pump has stopped and everything was read. */
  function Ending(closed: bool, err: Option<Error>, es: seq<Event>): seq<Out>
    requires closed || err.Some?
    decreases |es|
  {
    if es == [] then []
    else
      [if es[0].Read? then
         (if es[0].n == 0 then Got([]) else if closed then ChannelClosed else Failed(err.value))
       else Quiet] + Ending(closed || es[0].MarkClosed?, err, es[1..])
  }

  /** Then the same error is returned for ever, or, from Close on, that the channel is closed. */
  lemma {:induction false} TerminalErrorSticks(cfg: Config, w: World, es: seq<Event>)
    requires Inv(cfg, w) && CanRun(cfg, w, es)
    requires w.s.pump.Stopped? && w.s.buf == [] && !w.s.pending
    ensures w.s.closed || w.s.readErr.Some?
    ensures Run(cfg, w, es).outs == w.outs + Ending(w.s.closed, w.s.readErr, es)
    decreases |es|
  {
    if es == [] {
      assert w.outs + [] == w.outs;
    } else {
      var w' := StepWorld(cfg, w, es[0]);
      StepInv(cfg, w, es[0]);
      TerminalErrorSticks(cfg, w', es[1..]);
      Assoc(w.outs, [Step(cfg, w.s, es[0]).1], Ending(w'.s.closed, w'.s.readErr, es[1..]));
    }
  }

  /** A read for at least one byte. */
  predicate Asks(e: Event) {
    e.Read? && e.n > 0
  }

  predicate AnyAsks(es: seq<Event>) {
    exists k :: 0 <= k < |es| && Asks(es[k])
  }

  /** A non-empty message comes before some read. */
  predicate ArrivesBeforeRead(es: seq<Event>) {
    exists j, k :: 0 <= j < k < |es| && es[j].Message? && es[j].payload != [] && Asks(es[k])
  }

  /** Every read of the run reports that the channel is closed. */
  predicate ReportsClosed(es: seq<Event>, outs: seq<Out>)
    requires |outs| == |es|
  {
    forall k :: 0 <= k < |es| && Asks(es[k]) ==> outs[k] == ChannelClosed
  }

  /** What the events of a run return. */
  function Outs(cfg: Config, w: World, es: seq<Event>): (outs: seq<Out>)
    requires CanRun(cfg, w, es)
    ensures |outs| == |es|
    decreases |es|
  {
    if es == [] then []
    else [Step(cfg, w.s, es[0]).1] + Outs(cfg, StepWorld(cfg, w, es[0]), es[1..])
  }

  lemma {:induction false} OutsOfRun(cfg: Config, w: World, es: seq<Event>)
    requires CanRun(cfg, w, es)
    ensures Run(cfg, w, es).outs == w.outs + Outs(cfg, w, es)
    decreases |es|
  {
    if es == [] {
      assert w.outs + [] == w.outs;
    } else {
      var w' := StepWorld(cfg, w, es[0]);
      OutsOfRun(cfg, w', es[1..]);
      Assoc(w.outs, [Step(cfg, w.s, es[0]).1], Outs(cfg, w', es[1..]));
    }
  }

  lemma AsksTail(es: seq<Event>)
    requires es != []
    ensures AnyAsks(es) <==> Asks(es[0]) || AnyAsks(es[1..])
  {
    if k :| 0 <= k < |es| && Asks(es[k]) {
      assert k > 0 ==> es[1..][k - 1] == es[k];
    }
    if k :| 0 <= k < |es[1..]| && Asks(es[1..][k]) {
      assert es[k + 1] == es[1..][k];
    }
  }

  lemma ArrivesTail(es: seq<Event>)
    requires es != []
    ensures ArrivesBeforeRead(es) <==>
            (es[0].Message? && es[0].payload != [] && AnyAsks(es[1..])) || ArrivesBeforeRead(es[1..])
  {
    if j, k :| 0 <= j < k < |es| && es[j].Message? && es[j].payload != [] && Asks(es[k]) {
      assert es[1..][k - 1] == es[k] && (j > 0 ==> es[1..][j - 1] == es[j]);
    }
    if k :| 0 <= k < |es[1..]| && Asks(es[1..][k]) {
      assert es[k + 1] == es[1..][k];
    }
    if j, k :| 0 <= j < k < |es[1..]| && es[1..][j].Message? && es[1..][j].payload != [] && Asks(es[1..][k]) {
      assert es[j + 1] == es[1..][j] && es[k + 1] == es[1..][k];
    }
  }

  lemma ReportsTail(es: seq<Event>, out: Out, outs: seq<Out>)
    requires es != [] && |outs| == |es| - 1
    ensures ReportsClosed(es, [out] + outs) <==>
            (Asks(es[0]) ==> out == ChannelClosed) && ReportsClosed(es[1..], outs)
  {
    if ReportsClosed(es, [out] + outs) {
      forall k | 0 <= k < |es[1..]| && Asks(es[1..][k]) ensures outs[k] == ChannelClosed {
        assert es[k + 1] == es[1..][k] && ([out] + outs)[k + 1] == outs[k];
      }
    }
    if ReportsClosed(es[1..], outs) {
      forall k | 0 < k < |es| && Asks(es[k]) ensures ([out] + outs)[k] == ChannelClosed {
        assert es[1..][k - 1] == es[k];
      }
    }
  }

  /** With bytes in the buffer the next read returns some of them. */
  lemma {:induction false} BufferedIsRead(cfg: Config, w: World, es: seq<Event>)
    requires CanRun(cfg, w, es) && w.s.closed && w.s.buf != []
    ensures ReportsClosed(es, Outs(cfg, w, es)) <==> !AnyAsks(es)
    decreases |es|
  {
    if es != [] {
      var w' := StepWorld(cfg, w, es[0]);
      AsksTail(es);
      ReportsTail(es, Step(cfg, w.s, es[0]).1, Outs(cfg, w', es[1..]));
      if !Asks(es[0]) {
        BufferedIsRead(cfg, w', es[1..]);
      }
    }
  }

  lemma {:induction false} ClosedUntilArrival(cfg: Config, w: World, es: seq<Event>)
    requires CanRun(cfg, w, es) && w.s.closed && w.s.buf == [] && !w.s.pending
    ensures ReportsClosed(es, Outs(cfg, w, es)) <==> !ArrivesBeforeRead(es)
    decreases |es|
  {
    if es != [] {
      var w' := StepWorld(cfg, w, es[0]);
      ArrivesTail(es);
      ReportsTail(es, Step(cfg, w.s, es[0]).1, Outs(cfg, w', es[1..]));
      if es[0].Message? && es[0].payload != [] {
        BufferedIsRead(cfg, w', es[1..]);
        ArrivalNeedsRead(es[1..]);
      } else {
        ClosedUntilArrival(cfg, w', es[1..]);
      }
    }
  }

  /**
    Once the channel is closed and everything was read, every later read reports that it is closed exactly when no
    non-empty message still comes in before one of them.
   */
  lemma ClosedSticks(cfg: Config, w: World, es: seq<Event>)
    requires CanRun(cfg, w, es) && w.s.closed && w.s.buf == [] && !w.s.pending
    ensures |Run(cfg, w, es).outs| == |w.outs| + |es|
    ensures ReportsClosed(es, Run(cfg, w, es).outs[|w.outs|..]) <==> !ArrivesBeforeRead(es)
  {
    var outs := Outs(cfg, w, es);
    OutsOfRun(cfg, w, es);
    assert (w.outs + outs)[|w.outs|..] == outs;
    ClosedUntilArrival(cfg, w, es);
  }

  lemma ArrivalNeedsRead(es: seq<Event>)
    ensures ArrivesBeforeRead(es) ==> AnyAsks(es)
  {
  }

  // ---- where the documentation promises more ----

  /** Two reconnects between reads give one signal: not "exactly once after a reconnect". */
  lemma ReconnectsCoalesce(cfg: Config)
    requires cfg == Config(true, 0)
    ensures var es := [Broken(false, 0), Redial(true), Broken(false, 0), Redial(true), Read(1)];
            && CanRun(cfg, Init(cfg), es)
            && Run(cfg, Init(cfg), es).s.conn == 2
            && Run(cfg, Init(cfg), es).outs == [Quiet, Quiet, Quiet, Quiet, Reconnected]
            && !Enabled(Run(cfg, Init(cfg), es).s, Read(1))
  {
    var w0 := Init(cfg);
    var w1 := StepWorld(cfg, w0, Broken(false, 0));
    var w2 := StepWorld(cfg, w1, Redial(true));
    var w3 := StepWorld(cfg, w2, Broken(false, 0));
    var w4 := StepWorld(cfg, w3, Redial(true));
    var w5 := StepWorld(cfg, w4, Read(1));
    RunOne(cfg, w4, Read(1), []);
    RunOne(cfg, w3, Redial(true), [Read(1)]);
    RunOne(cfg, w2, Broken(false, 0), [Redial(true), Read(1)]);
    RunOne(cfg, w1, Redial(true), [Broken(false, 0), Redial(true), Read(1)]);
    RunOne(cfg, w0, Broken(false, 0), [Redial(true), Broken(false, 0), Redial(true), Read(1)]);
  }

  /** A byte of the new connection can be read before the signal that announces it. */
  lemma FreshBytesFirst(cfg: Config, b: char)
    requires cfg == Config(true, 0)
    ensures var es := [Broken(false, 0), Redial(true), Message([b]), Read(1), Read(1)];
            && CanRun(cfg, Init(cfg), es)
            && Run(cfg, Init(cfg), es).outs == [Quiet, Quiet, Quiet, Got([Cell(b, 1)]), Reconnected]
  {
    var w0 := Init(cfg);
    var w1 := StepWorld(cfg, w0, Broken(false, 0));
    var w2 := StepWorld(cfg, w1, Redial(true));
    var w3 := StepWorld(cfg, w2, Message([b]));
    var w4 := StepWorld(cfg, w3, Read(1));
    assert w3.s.buf == [Cell(b, 1)] && w3.s.buf[..1] == w3.s.buf;
    RunOne(cfg, w4, Read(1), []);
    RunOne(cfg, w3, Read(1), [Read(1)]);
    RunOne(cfg, w2, Message([b]), [Read(1), Read(1)]);
    RunOne(cfg, w1, Redial(true), [Message([b]), Read(1), Read(1)]);
    RunOne(cfg, w0, Broken(false, 0), [Redial(true), Message([b]), Read(1), Read(1)]);
  }

  /** A message in flight when Close is called is still handed out, after a read that reported the channel closed. */
  lemma MessageAfterClose(cfg: Config, b: char)
    ensures var es := [StopPing, MarkClosed, Read(1), Message([b]), Read(1)];
            && CanRun(cfg, Init(cfg), es)
            && Run(cfg, Init(cfg), es).outs == [Quiet, Quiet, ChannelClosed, Quiet, Got([Cell(b, 0)])]
  {
    var w0 := Init(cfg);
    var w1 := StepWorld(cfg, w0, StopPing);
    var w2 := StepWorld(cfg, w1, MarkClosed);
    var w3 := StepWorld(cfg, w2, Read(1));
    var w4 := StepWorld(cfg, w3, Message([b]));
    assert w4.s.buf == [Cell(b, 0)] && w4.s.buf[..1] == w4.s.buf;
    RunOne(cfg, w4, Read(1), []);
    RunOne(cfg, w3, Message([b]), [Read(1)]);
    RunOne(cfg, w2, Read(1), [Message([b]), Read(1)]);
    RunOne(cfg, w1, MarkClosed, [Read(1), Message([b]), Read(1)]);
    RunOne(cfg, w0, StopPing, [MarkClosed, Read(1), Message([b]), Read(1)]);
  }

  lemma RunOne(cfg: Config, w: World, e: Event, es: seq<Event>)
    requires Enabled(w.s, e) && CanRun(cfg, StepWorld(cfg, w, e), es)
    ensures CanRun(cfg, w, [e] + es) && Run(cfg, w, [e] + es) == Run(cfg, StepWorld(cfg, w, e), es)
  {
    assert ([e] + es)[1..] == es;
  }

  // ---- the channel itself ----

  /** The methods are the stretches of the source that hold the read lock. */
  class Channel {
    const cfg: Config
    var conn: nat
    var buf: seq<Cell>
    var readErr: Option<Error>
    var pendingReconnectErr: bool
    var reconnectsRemaining: int
    var reconnectAttemptCount: nat
    var stopPing: bool
    var closed: bool
    var pump: Pump

    ghost function Abs(): State
      reads this
    {
      State(conn, buf, readErr, pendingReconnectErr, reconnectsRemaining, reconnectAttemptCount, stopPing, closed, pump)
    }

    constructor (cfg: Config)
      ensures this.cfg == cfg && Abs() == Start(cfg)
    {
      this.cfg := cfg;
      conn, buf, readErr, pendingReconnectErr := 0, [], None, false;
      reconnectsRemaining, reconnectAttemptCount := cfg.maxReconnects, 0;
      stopPing, closed, pump := false, false, Reading;
    }

    method OnMessage(payload: Bytes)
      requires pump.Reading?
      modifies this
      ensures Abs() == Step(cfg, old(Abs()), Message(payload)).0
    {
      if |payload| > 0 {
        buf := buf + Tagged(payload, conn);
      } else {
        assert buf + Tagged(payload, conn) == buf;
      }
    }

    method OnDecodeError(code: int)
      requires pump.Reading?
      modifies this
      ensures Abs() == Step(cfg, old(Abs()), BadPayload(code)).0
    {
      readErr := Some(Undecodable(code));
      pump := Stopped;
    }

    /** True when the pump goes on to redial. */
    method OnConnectionError(clean: bool, code: int) returns (redial: bool)
      requires pump.Reading?
      modifies this
      ensures Abs() == Step(cfg, old(Abs()), Broken(clean, code)).0
      ensures redial <==> pump.Redialing?
    {
      var err := if clean then Eof else Torn(code);
      if closed {
        pump := Stopped;
        return false;
      }
      if cfg.reconnect && (cfg.maxReconnects == 0 || reconnectsRemaining > 0) {
        pump := Redialing(err);
        return true;
      }
      readErr := Some(err);
      pump := Stopped;
      return false;
    }

    /** The lock-holding end of a redial; false makes the pump give up with the error that broke the connection. */
    method AttemptReconnect(dialed: bool) returns (ok: bool)
      requires pump.Redialing?
      modifies this
      ensures Abs() == Step(cfg, old(Abs()), Redial(dialed)).0
      ensures ok <==> pump.Reading?
    {
      if closed {
        GiveUp();
        return false;
      }
      reconnectAttemptCount := reconnectAttemptCount + 1;
      if !dialed {
        GiveUp();
        return false;
      }
      if cfg.maxReconnects > 0 {
        reconnectsRemaining := reconnectsRemaining - 1;
      }
      buf := [];
      pendingReconnectErr := true;
      conn := conn + 1;
      pump := Reading;
      return true;
    }

    method GiveUp()
      requires pump.Redialing?
      modifies this
      ensures Abs() == Terminate(old(Abs()), old(pump.cause))
    {
      readErr := Some(pump.cause);
      pump := Stopped;
    }

    /** A Read that does not have to wait. */
    method Receive(n: nat) returns (out: Out)
      requires n == 0 || CanReturn(Abs())
      modifies this
      ensures (Abs(), out) == Step(cfg, old(Abs()), Read(n))
    {
      if n == 0 { return Got([]); }
      if |buf| > 0 {
        var k := Min(n, |buf|);
        out := Got(buf[..k]);
        buf := buf[k..];
        return;
      }
      if pendingReconnectErr {
        pendingReconnectErr := false;
        return Reconnected;
      }
      if closed { return ChannelClosed; }
      return Failed(readErr.value);
    }

    /** The first call closes, later ones do nothing. */
    method Close()
      modifies this
      ensures stopPing && Abs() == (if old(stopPing) then old(Abs()) else old(Abs()).(stopping := true, closed := true))
    {
      if !stopPing {
        stopPing := true;
        closed := true;
      }
    }
  }
}
