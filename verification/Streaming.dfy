/** The parser behind Pipe: it hands the output on as it arrives instead of keeping it. */
module Streaming {
  import opened Bytes
  import opened Decimal
  import opened Framing

  datatype State = BeforeBEG | Streaming | ReadingExitCode | Finished {
    function Rank(): nat {
      match this case BeforeBEG => 0 case Streaming => 1 case ReadingExitCode => 2 case Finished => 3
    }
  }

  datatype StreamError = WriteFailed | MalformedExitCode

  const NO_NEWLINE_HARD_LIMIT: nat := 65536

  /** bytes.LastIndexByte(s, '\n') */
  function LastNewline(s: Bytes): (r: int)
    ensures r < 0 ==> r == -1 && '\n' !in s
    ensures r >= 0 ==> r < |s| && s[r] == '\n' && '\n' !in s[r + 1..]
  {
    if s == [] then -1
    else if s[|s| - 1] == '\n' then |s| - 1
    else
      InitLast(s);
      var r := LastNewline(s[..|s| - 1]);
      assert r >= 0 ==> s[r + 1..] == s[..|s| - 1][r + 1..] + [s[|s| - 1]];
      r
  }

  lemma PrefixOfBody(emitted: Bytes, piece: Bytes, rest: Bytes, body: Bytes)
    requires body == emitted + (piece + rest)
    ensures emitted + piece <= body
  {
    Assoc(emitted, piece, rest);
  }

  lemma ChopIsPrefix(buf: Bytes, idx: nat)
    requires idx <= |buf|
    ensures var c := ChopNewline(buf[..idx]); c <= buf && buf == c + buf[|c|..]
  {
  }

  /** How much of a buffer without END is handed on. */
  function FlushEnd(end: Bytes, buf: Bytes): int {
    var last := LastNewline(buf);
    if last >= 0 then last + 1
    else if |buf| > NO_NEWLINE_HARD_LIMIT then |buf| - (|end| - 1)
    else -1
  }

  lemma FlushParts(end: Bytes, buf: Bytes)
    requires 0 < FlushEnd(end, buf) <= |buf|
    ensures buf == buf[..FlushEnd(end, buf)] + buf[FlushEnd(end, buf)..] && '\n' !in buf[FlushEnd(end, buf)..]
  {
  }

  // ---- what holds between BEG and END ----

  /** Some continuation of `s` may have `pat` at `i`. */
  predicate MayOccur(s: Bytes, pat: Bytes, i: nat) {
    forall k :: 0 <= k < |pat| && i + k < |s| ==> s[i + k] == pat[k]
  }

  /**
    The bytes after the BEG line are the ones handed on followed by the ones kept; no END marker, in any
    continuation, begins among those handed on; and a CR was not handed on without the LF after it.
   */
  ghost predicate Flowing(end: Bytes, body: Bytes, emitted: Bytes, buf: Bytes) {
    && body == emitted + buf
    && (forall p :: 0 <= p < |emitted| ==> !MayOccur(body, end, p))
    && (emitted == [] || emitted[|emitted| - 1] == '\n' || (buf != [] && buf[0] != '\n'))
  }

  lemma StartFlow(end: Bytes, body: Bytes)
    ensures Flowing(end, body, [], body)
  {
  }

  lemma FlowExtend(end: Bytes, body: Bytes, emitted: Bytes, buf: Bytes, chunk: Bytes)
    requires Flowing(end, body, emitted, buf)
    ensures Flowing(end, body + chunk, emitted, buf + chunk)
  {
    Assoc(emitted, buf, chunk);
    forall p | 0 <= p < |emitted| ensures !MayOccur(body + chunk, end, p) {
      assert !MayOccur(body, end, p);
      var k :| 0 <= k < |end| && p + k < |body| && body[p + k] != end[k];
      assert (body + chunk)[p + k] != end[k];
    }
  }

  /** END is found in the buffer exactly where it is in the whole body. */
  lemma FlowFindsEnd(end: Bytes, body: Bytes, emitted: Bytes, buf: Bytes)
    requires Flowing(end, body, emitted, buf)
    ensures Index(body, end) == if Index(buf, end) < 0 then -1 else |emitted| + Index(buf, end)
  {
    forall p | 0 <= p < |emitted| ensures !OccursAt(body, end, p) {
      assert !MayOccur(body, end, p);
    }
    IndexDropped(emitted, buf, end);
  }

  /** Whatever comes next, an END marker starts after everything handed on. */
  lemma MarkerNotHandedOn(end: Bytes, body: Bytes, emitted: Bytes, buf: Bytes, more: Bytes, i: nat)
    requires Flowing(end, body, emitted, buf) && OccursAt(body + more, end, i)
    ensures i >= |emitted|
  {
    OccurrenceMayOccur(body, more, end, i);
  }

  lemma OccurrenceMayOccur(s: Bytes, t: Bytes, pat: Bytes, i: nat)
    requires OccursAt(s + t, pat, i)
    ensures MayOccur(s, pat, i)
  {
    forall k | 0 <= k < |pat| && i + k < |s| ensures s[i + k] == pat[k] {
      assert (s + t)[i + k] == pat[k];
    }
  }

  lemma FlowFlush(end: Bytes, body: Bytes, emitted: Bytes, buf: Bytes)
    requires Flowing(end, body, emitted, buf) && Index(buf, end) < 0
    requires |end| >= 2 && '\n' !in end && FlushEnd(end, buf) > 0
    ensures FlushEnd(end, buf) <= |buf|
    ensures Flowing(end, body, emitted + buf[..FlushEnd(end, buf)], buf[FlushEnd(end, buf)..])
  {
    var f := FlushEnd(end, buf);
    var out, kept := emitted + buf[..f], buf[f..];
    assert buf == buf[..f] + kept;
    Assoc(emitted, buf[..f], kept);
    FlowFindsEnd(end, body, emitted, buf);
    assert LastNewline(buf) >= 0 ==> body[|out| - 1] == buf[f - 1] == '\n';
    forall p | |emitted| <= p < |out| ensures !MayOccur(body, end, p) {
      NoStart(end, body, p, |out| - 1);
    }
  }

  lemma NoStart(end: Bytes, body: Bytes, p: nat, q: nat)
    requires Index(body, end) < 0 && '\n' !in end
    requires p + |end| <= |body| || (p <= q < |body| && body[q] == '\n')
    ensures !MayOccur(body, end, p)
  {
    if p + |end| <= |body| {
      assert !OccursAt(body, end, p);
    } else {
      assert end[q - p] != '\n';
    }
  }

  /** What has been handed on when END is seen, `bodyBefore` being the body as it was one chunk earlier. */
  function FinalOutput(bodyBefore: Option<Bytes>, raw: Bytes): Bytes {
    if bodyBefore.Some? && |bodyBefore.value| >= |raw| then raw else ChopNewline(raw)
  }

  /** One chunk ago everything kept was a single unfinished line. */
  ghost predicate KeptLine(bodyBefore: Option<Bytes>, emitted: Bytes, buf: Bytes) {
    match bodyBefore
    case None => emitted == []
    case Some(b) => emitted <= b && b <= emitted + buf && '\n' !in b[|emitted|..]
  }

  /** Mid-feed, what is kept is the unfinished line and the latest chunk. */
  lemma KeptExtend(emitted: Bytes, line: Bytes, chunk: Bytes)
    requires '\n' !in line
    ensures KeptLine(Some(emitted + line), emitted, line + chunk)
  {
    Assoc(emitted, line, chunk);
    assert (emitted + line)[|emitted|..] == line;
  }

  lemma FlowClose(end: Bytes, body: Bytes, emitted: Bytes, buf: Bytes, bodyBefore: Option<Bytes>)
    requires Flowing(end, body, emitted, buf) && Index(buf, end) >= 0
    requires KeptLine(bodyBefore, emitted, buf)
    ensures SplitEnd(end, body) == Some((emitted + buf[..Index(buf, end)], buf[Index(buf, end) + |end|..]))
    ensures emitted + ChopNewline(buf[..Index(buf, end)]) ==
            FinalOutput(bodyBefore, emitted + buf[..Index(buf, end)])
  {
    FlowFindsEnd(end, body, emitted, buf);
    var idx := Index(buf, end);
    var line := buf[..idx];
    assert body[..|emitted| + idx] == emitted + line;
    assert body[|emitted| + idx + |end|..] == buf[idx + |end|..];
    ChopOfFlow(emitted, line, bodyBefore, buf);
  }

  lemma ChopOfFlow(emitted: Bytes, line: Bytes, bodyBefore: Option<Bytes>, buf: Bytes)
    requires line <= buf && KeptLine(bodyBefore, emitted, buf)
    requires emitted == [] || emitted[|emitted| - 1] == '\n' || (buf != [] && buf[0] != '\n')
    ensures emitted + ChopNewline(line) == FinalOutput(bodyBefore, emitted + line)
  {
    var raw := emitted + line;
    if bodyBefore.Some? && |bodyBefore.value| >= |raw| {
      if line != [] {
        assert bodyBefore.value[|emitted|..][|line| - 1] == (emitted + buf)[|raw| - 1] == line[|line| - 1];
      }
    } else if line != [] {
      assert line == "\n" ==> buf[0] == '\n';
      ChopAppend(emitted, line);
    }
  }

  lemma ChopAppend(a: Bytes, b: Bytes)
    requires b != [] && (b == "\n" && a != [] ==> a[|a| - 1] != '\r')
    ensures ChopNewline(a + b) == a + ChopNewline(b)
  {
    var s := a + b;
    assert s[|s| - 1] == b[|b| - 1] && s[..|s| - 1] == a + b[..|b| - 1];
    if |b| >= 2 {
      assert s[..|s| - 1][|s| - 2] == b[..|b| - 1][|b| - 2];
      assert s[..|s| - 1][..|s| - 2] == a + b[..|b| - 1][..|b| - 2];
    } else {
      assert b[..|b| - 1] == [] && (b[0] == '\n' ==> b == "\n");
      assert a != [] ==> s[..|s| - 1][|s| - 2] == a[|a| - 1];
    }
  }

  // ---- the parser ----

  /** What has been handed on once END is seen, from the chunks alone. */
  function ClosedOutput(beg: Bytes, end: Bytes, chunks: seq<Bytes>): Bytes {
    if chunks == [] then []
    else
      var earlier := chunks[..|chunks| - 1];
      if Split(beg, end, Concat(earlier)).Some? then ClosedOutput(beg, end, earlier)
      else
        match Split(beg, end, Concat(chunks))
        case None => []
        case Some((raw, _)) => FinalOutput(Body(beg, Concat(earlier)), raw)
  }

  lemma ClosedSnoc(beg: Bytes, end: Bytes, chunks: seq<Bytes>, c: Bytes)
    ensures Concat(chunks + [c]) == Concat(chunks) + c
    ensures ClosedOutput(beg, end, chunks + [c]) ==
      if Split(beg, end, Concat(chunks)).Some? then ClosedOutput(beg, end, chunks)
      else
        match Split(beg, end, Concat(chunks) + c)
        case None => []
        case Some((raw, _)) => FinalOutput(Body(beg, Concat(chunks)), raw)
  {
    ConcatSnoc(chunks, c);
    assert (chunks + [c])[..|chunks|] == chunks;
  }

  /** A BEG line whose body is longer than the latest chunk was complete before that chunk. */
  lemma BodyInPrefix(beg: Bytes, s: Bytes, chunk: Bytes)
    requires Body(beg, s + chunk).Some? && |Body(beg, s + chunk).value| > |chunk|
    ensures Body(beg, s).Some?
  {
    var i := Index(s + chunk, beg);
    OccursInLeft(s, chunk, beg, i);
    IndexStable(s, chunk, beg);
    SuffixOfAppend(s, chunk, i + |beg|);
    NewlineInPrefix(s[i + |beg|..], chunk);
  }

  /** The writing end of the pipe; its reader may take only so many bytes before it closes, even inside a write. */
  class Sink {
    const appetite: Option<nat>
    var data: Bytes
    var ended: Option<bool>  // the writer has closed its end, cleanly or with an error

    constructor (appetite: Option<nat>)
      ensures this.appetite == appetite && data == [] && ended == None
    {
      this.appetite, data, ended := appetite, [], None;
    }

    /** The first close counts. */
    method CloseWriter(clean: bool)
      modifies this`ended
      ensures ended == if old(ended) == None then Some(clean) else old(ended)
    {
      if ended == None { ended := Some(clean); }
    }

    /** The reader has taken all it will. */
    predicate Full()
      reads this
    {
      appetite.Some? && |data| >= appetite.value
    }

    /** A write that fails has handed on a first part of the bytes. */
    method Write(b: Bytes) returns (ok: bool)
      modifies this`data
      ensures ok <==> appetite.None? || |old(data)| + |b| <= appetite.value
      ensures ok ==> data == old(data) + b
      ensures !ok ==> Full() && old(data) <= data <= old(data) + b
    {
      if appetite.None? || |data| + |b| <= appetite.value {
        data := data + b;
        return true;
      }
      data := data + b[..Max(appetite.value - |data|, 0)];
      return false;
    }
  }

  class StreamingParser {
    const begMarker: Bytes
    const endMarker: Bytes
    const out: Sink
    var state: State
    var buf: Bytes
    var exitCode: int

    ghost var fed: seq<Bytes>

    constructor (nonce: Bytes, out: Sink)
      requires '\n' !in nonce && out.data == []
      ensures Valid() && fed == [] && this.out == out
      ensures begMarker == BegMarker(nonce) && endMarker == EndMarker(nonce)
    {
      begMarker := BegMarker(nonce);
      endMarker := EndMarker(nonce);
      this.out := out;
      state, buf, exitCode, fed := BeforeBEG, [], 0, [];
      new;
      MarkersOf(nonce);
      NothingYet(begMarker);
    }

    ghost predicate Valid()
      reads this, out
    {
      Settled(Concat(fed), ClosedOutput(begMarker, endMarker, fed))
    }

    /** The fields between feeds: `s` is everything received, `closed` what END leaves handed on. */
    ghost predicate Settled(s: Bytes, closed: Bytes)
      reads this, out
    {
      && |endMarker| >= 2 && '\n' !in endMarker
      && match state
         case BeforeBEG => TailOf(begMarker, s, buf) && Body(begMarker, s).None? && out.data == []
         case Streaming =>
           && Body(begMarker, s).Some? && SplitEnd(endMarker, Body(begMarker, s).value).None?
           && Flowing(endMarker, Body(begMarker, s).value, out.data, buf) && '\n' !in buf
         case ReadingExitCode =>
           && Split(begMarker, endMarker, s).Some? && Split(begMarker, endMarker, s).value.1 == buf
           && out.data == closed
           && !Parse(begMarker, endMarker, s).Done?
         case Finished =>
           && Parse(begMarker, endMarker, s).Done? && Parse(begMarker, endMarker, s).exitCode == exitCode
           && out.data == closed
    }

    /** The fields mid-feed, `chunk` having just come after `before`. */
    ghost predicate Holds(before: Bytes, chunk: Bytes, closed: Bytes)
      reads this, out
    {
      var now := before + chunk;
      && |endMarker| >= 2 && '\n' !in endMarker
      && (Split(begMarker, endMarker, before).None? && Split(begMarker, endMarker, now).Some? ==>
            closed == FinalOutput(Body(begMarker, before), Split(begMarker, endMarker, now).value.0))
      && match state
         case BeforeBEG => TailOf(begMarker, now, buf) && Body(begMarker, before).None? && out.data == []
         case Streaming =>
           && Body(begMarker, now).Some? && Split(begMarker, endMarker, before).None?
           && Flowing(endMarker, Body(begMarker, now).value, out.data, buf)
           && KeptLine(Body(begMarker, before), out.data, buf)
           && forall i :: 0 <= i < |buf| - |chunk| ==> buf[i] != '\n'
         case ReadingExitCode =>
           && Split(begMarker, endMarker, now).Some? && Split(begMarker, endMarker, now).value.1 == buf
           && out.data == closed
         case Finished =>
           && Parse(begMarker, endMarker, now).Done? && Parse(begMarker, endMarker, now).exitCode == exitCode
           && out.data == closed
    }

    /** What a feed reports, by the verdict on the whole stream; while streaming, little is kept. */
    ghost predicate Reports(now: Bytes, n: nat, done: bool, err: Option<StreamError>)
      reads this
    {
      var v := Parse(begMarker, endMarker, now);
      if v.Done? then done && err == None && exitCode == v.exitCode && state == Finished
      else if v == BadExitCode then !done && err == Some(MalformedExitCode) && state == ReadingExitCode
      else
        && !done && err == None && state != Finished
        && (state == Streaming ==> |buf| <= Max(65536, Max(n, |endMarker| - 1)))
    }

    /** The reader is gone; what it got is the beginning of the body. */
    ghost predicate GaveUp(now: Bytes)
      reads this, out
    {
      out.Full() && Body(begMarker, now).Some? && out.data <= Body(begMarker, now).value
    }

    method Feed(chunk: Bytes) returns (done: bool, err: Option<StreamError>)
      requires Valid()
      modifies this, out`data
      ensures fed == old(fed) + [chunk] && old(out.data) <= out.data
      ensures err == Some(WriteFailed) ==> !done && GaveUp(Concat(fed))
      ensures err != Some(WriteFailed) ==>
        Valid() && (old(state) != Finished ==> Reports(Concat(fed), |chunk|, done, err))
      ensures old(state) == Finished ==> done && err == None && out.data == old(out.data)
    {
      ghost var before := Concat(fed);
      ClosedSnoc(begMarker, endMarker, fed, chunk);
      if state == Finished {
        ParseStable(begMarker, endMarker, before, chunk);
        fed := fed + [chunk];
        return true, None;
      }
      ghost var closed := ClosedOutput(begMarker, endMarker, fed + [chunk]);
      Receive(chunk, before, ClosedOutput(begMarker, endMarker, fed), closed);
      fed := fed + [chunk];
      done, err := Drive(before, chunk, closed);
    }

    method Receive(chunk: Bytes, ghost before: Bytes, ghost closedBefore: Bytes, ghost closed: Bytes)
      requires Settled(before, closedBefore) && state != Finished
      requires Split(begMarker, endMarker, before).Some? ==> closed == closedBefore
      requires Split(begMarker, endMarker, before).None? && Split(begMarker, endMarker, before + chunk).Some? ==>
        closed == FinalOutput(Body(begMarker, before), Split(begMarker, endMarker, before + chunk).value.0)
      modifies this`buf
      ensures Holds(before, chunk, closed)
    {
      match state {
        case BeforeBEG => TailExtend(begMarker, before, buf, chunk);
        case Streaming =>
          BodyStable(begMarker, before, chunk);
          FlowExtend(endMarker, Body(begMarker, before).value, out.data, buf, chunk);
          KeptExtend(out.data, buf, chunk);
        case ReadingExitCode => SplitStable(begMarker, endMarker, before, chunk);
      }
      buf := buf + chunk;
    }

    method Drive(ghost before: Bytes, ghost chunk: Bytes, ghost closed: Bytes)
      returns (done: bool, err: Option<StreamError>)
      requires Holds(before, chunk, closed) && state != Finished
      modifies this`state, this`buf, this`exitCode, out`data
      ensures old(out.data) <= out.data
      ensures err == Some(WriteFailed) ==> !done && GaveUp(before + chunk)
      ensures err != Some(WriteFailed) ==>
        Settled(before + chunk, closed) && Reports(before + chunk, |chunk|, done, err)
    {
      while true
        invariant Holds(before, chunk, closed) && state != Finished
        invariant old(out.data) <= out.data
        invariant state.Rank() <= 1 ==> out.data == old(out.data)
        decreases 3 - state.Rank()
      {
        var progressed;
        progressed, done, err := Advance(before, chunk, closed);
        if err != None {
          return false, err;
        }
        if done {
          return true, None;
        }
        if !progressed {
          return false, None;
        }
      }
    }

    method Advance(ghost before: Bytes, ghost chunk: Bytes, ghost closed: Bytes)
      returns (progressed: bool, done: bool, err: Option<StreamError>)
      requires Holds(before, chunk, closed) && state != Finished
      modifies this`state, this`buf, this`exitCode, out`data
      ensures old(out.data) <= out.data
      ensures done <==> state == Finished
      ensures err != None ==> !progressed
      ensures err == Some(WriteFailed) ==> GaveUp(before + chunk) && old(state) == Streaming
      ensures progressed && !done ==> Holds(before, chunk, closed) && state.Rank() == old(state).Rank() + 1
      ensures progressed && state == Streaming ==> out.data == old(out.data)
      ensures err != Some(WriteFailed) && (!progressed || done) ==>
        Settled(before + chunk, closed) && Reports(before + chunk, |chunk|, done, err)
    {
      match state {
        case BeforeBEG =>
          progressed := FromBeforeBEG(before, chunk, closed);
          return progressed, false, None;
        case Streaming =>
          progressed, err := FromStreaming(before, chunk, closed);
          return progressed, false, err;
        case ReadingExitCode =>
          done, err := FromReadingExitCode(before, chunk, closed);
          return done, done, err;
      }
    }

    method FromBeforeBEG(ghost before: Bytes, ghost chunk: Bytes, ghost closed: Bytes) returns (progressed: bool)
      requires Holds(before, chunk, closed) && state == BeforeBEG
      modifies this`state, this`buf
      ensures progressed ==> state == Streaming && Holds(before, chunk, closed)
      ensures !progressed ==> state == BeforeBEG
      ensures !progressed ==> Settled(before + chunk, closed) && Reports(before + chunk, |chunk|, false, None)
    {
      progressed := AdvanceBeforeBEG(before + chunk);
      if progressed && |buf| > |chunk| { BodyInPrefix(begMarker, before, chunk); }
    }

    method FromStreaming(ghost before: Bytes, ghost chunk: Bytes, ghost closed: Bytes)
      returns (progressed: bool, err: Option<StreamError>)
      requires Holds(before, chunk, closed) && state == Streaming
      modifies this`state, this`buf, out`data
      ensures old(out.data) <= out.data
      ensures err != None ==> err == Some(WriteFailed) && !progressed && GaveUp(before + chunk)
      ensures progressed ==> state == ReadingExitCode && Holds(before, chunk, closed)
      ensures !progressed ==> state == Streaming
      ensures !progressed && err == None ==>
        Settled(before + chunk, closed) && Reports(before + chunk, |chunk|, false, None)
    {
      progressed, err := AdvanceStreaming(Body(begMarker, before + chunk).value, Body(begMarker, before));
    }

    method FromReadingExitCode(ghost before: Bytes, ghost chunk: Bytes, ghost closed: Bytes)
      returns (done: bool, err: Option<StreamError>)
      requires Holds(before, chunk, closed) && state == ReadingExitCode
      modifies this`state, this`buf, this`exitCode
      ensures Settled(before + chunk, closed) && Reports(before + chunk, |chunk|, done, err)
    {
      var nl := NewlineIndex(buf);
      if nl < 0 {
        return false, None;
      }
      var code := Atoi(TrimSpace(buf[..nl]));
      if code == None {
        return false, Some(MalformedExitCode);
      }
      exitCode, state, buf := code.value, Finished, [];
      return true, None;
    }

    method AdvanceBeforeBEG(ghost now: Bytes) returns (progressed: bool)
      requires state == BeforeBEG && TailOf(begMarker, now, buf) && out.data == []
      modifies this`state, this`buf
      ensures !progressed ==> state == BeforeBEG && TailOf(begMarker, now, buf) && Body(begMarker, now) == None
      ensures progressed ==>
        state == Streaming && Body(begMarker, now) == Some(buf) && Flowing(endMarker, buf, out.data, buf)
    {
      BodyOfTail(begMarker, now, buf);
      KeepIsTail(begMarker, now, buf);
      progressed, buf := ScanForBeg(begMarker, buf);
      if progressed {
        StartFlow(endMarker, buf);
        state := Streaming;
      }
    }

    /** No END in the buffer: hand on the complete lines, or all but a marker's worth of an overlong one. */
    method Flush(ghost body: Bytes) returns (err: Option<StreamError>)
      requires |endMarker| >= 2 && '\n' !in endMarker && Index(buf, endMarker) < 0
      requires Flowing(endMarker, body, out.data, buf)
      modifies this`buf, out`data
      ensures err != None ==> err == Some(WriteFailed) && out.Full() && buf == old(buf) && out.data <= body
      ensures err == None ==>
        && Flowing(endMarker, body, out.data, buf) && '\n' !in buf
        && |buf| == if LastNewline(old(buf)) >= 0 then |old(buf)| - LastNewline(old(buf)) - 1
                    else if |old(buf)| > Max(65536, |endMarker| - 1) then |endMarker| - 1
                    else |old(buf)|
      ensures old(out.data) <= out.data
    {
      var keep := |endMarker| - 1;
      var flushEnd := -1;
      var last := LastNewline(buf);
      if last >= 0 {
        flushEnd := last + 1;
      } else if |buf| > NO_NEWLINE_HARD_LIMIT {
        flushEnd := |buf| - keep;
      }
      if flushEnd > 0 {
        FlowFlush(endMarker, body, out.data, buf);
        FlushParts(endMarker, buf);
        var ok := HandOn(buf[..flushEnd], buf[flushEnd..], body);
        if !ok {
          return Some(WriteFailed);
        }
        buf := buf[flushEnd..];
      }
      return None;
    }

    /** Writes the piece, if there is anything in it. */
    method HandOn(piece: Bytes, ghost rest: Bytes, ghost body: Bytes) returns (ok: bool)
      requires body == out.data + (piece + rest)
      modifies out`data
      ensures ok ==> out.data == old(out.data) + piece
      ensures !ok ==> out.Full() && old(out.data) <= out.data <= body
    {
      PrefixOfBody(out.data, piece, rest, body);
      if |piece| == 0 {
        assert out.data + piece == out.data;
        return true;
      }
      ok := out.Write(piece);
    }

    method AdvanceStreaming(ghost body: Bytes, ghost bodyBefore: Option<Bytes>)
      returns (progressed: bool, err: Option<StreamError>)
      requires state == Streaming && |endMarker| >= 2 && '\n' !in endMarker
      requires Flowing(endMarker, body, out.data, buf) && KeptLine(bodyBefore, out.data, buf)
      modifies this`state, this`buf, out`data
      ensures err != None ==> err == Some(WriteFailed) && out.Full() && !progressed
      ensures err != None ==> state == Streaming && buf == old(buf) && out.data <= body
      ensures err == None && !progressed ==>
        && state == Streaming && SplitEnd(endMarker, body).None?
        && Flowing(endMarker, body, out.data, buf) && '\n' !in buf
        && |buf| == if LastNewline(old(buf)) >= 0 then |old(buf)| - LastNewline(old(buf)) - 1
                    else if |old(buf)| > Max(65536, |endMarker| - 1) then |endMarker| - 1
                    else |old(buf)|
      ensures progressed ==>
        && state == ReadingExitCode && SplitEnd(endMarker, body).Some?
        && SplitEnd(endMarker, body).value.1 == buf
        && out.data == FinalOutput(bodyBefore, SplitEnd(endMarker, body).value.0)
      ensures old(out.data) <= out.data
    {
      var idx := Index(buf, endMarker);
      if idx < 0 {
        FlowFindsEnd(endMarker, body, out.data, buf);
        err := Flush(body);
        return false, err;
      }
      FlowClose(endMarker, body, out.data, buf, bodyBefore);
      var outChunk := ChopNewline(buf[..idx]);
      ChopIsPrefix(buf, idx);
      var ok := HandOn(outChunk, buf[|outChunk|..], body);
      if !ok {
        return false, Some(WriteFailed);
      }
      buf := buf[idx + |endMarker|..];
      state := ReadingExitCode;
      return true, None;
    }
  }
}
