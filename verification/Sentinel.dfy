/** The incremental parser behind RunFramed. */
module Sentinel {
  import opened Bytes
  import opened Decimal
  import opened Framing

  datatype State = BeforeBEG | Capturing | ReadingExitCode | Finished {
    function Rank(): nat {
      match this case BeforeBEG => 0 case Capturing => 1 case ReadingExitCode => 2 case Finished => 3
    }
  }

  datatype ProtocolError = OutputExceeded | MalformedExitCode

  predicate OverLimit(maxOutput: int, n: int) {
    maxOutput > 0 && n > maxOutput
  }

  /** The verdict when the stream read so far grows from `before` to `now` by one chunk. */
  function Judge(beg: Bytes, end: Bytes, maxOutput: int, before: Bytes, now: Bytes): Verdict {
    if Split(beg, end, before).None? && Body(beg, now).Some? && OverLimit(maxOutput, |Body(beg, now).value|)
    then TooLong
    else Parse(beg, end, now)
  }

  /** The verdict after reading the chunks one by one; the first verdict reached is final. */
  function Run(beg: Bytes, end: Bytes, maxOutput: int, chunks: seq<Bytes>): Verdict {
    if chunks == [] then Pending
    else
      var earlier := chunks[..|chunks| - 1];
      var v := Run(beg, end, maxOutput, earlier);
      if v != Pending then v else Judge(beg, end, maxOutput, Concat(earlier), Concat(chunks))
  }

  lemma RunSnoc(beg: Bytes, end: Bytes, maxOutput: int, chunks: seq<Bytes>, c: Bytes)
    ensures Concat(chunks + [c]) == Concat(chunks) + c
    ensures Run(beg, end, maxOutput, chunks + [c]) ==
      var v := Run(beg, end, maxOutput, chunks);
      if v != Pending then v else Judge(beg, end, maxOutput, Concat(chunks), Concat(chunks) + c)
  {
    ConcatSnoc(chunks, c);
    assert (chunks + [c])[..|chunks|] == chunks;
  }

  class SentinelParser {
    const begMarker: Bytes
    const endMarker: Bytes
    const maxOutput: int
    var state: State
    var buf: Bytes
    var output: Bytes
    var exitCode: int

    ghost var fed: seq<Bytes>

    constructor (nonce: Bytes, maxOutput: int)
      ensures Valid() && fed == [] && this.maxOutput == maxOutput
      ensures begMarker == BegMarker(nonce) && endMarker == EndMarker(nonce)
    {
      begMarker := BegMarker(nonce);
      endMarker := EndMarker(nonce);
      this.maxOutput := maxOutput;
      state, buf, output, exitCode, fed := BeforeBEG, [], [], 0, [];
      new;
      MarkersOf(nonce);
      NothingYet(begMarker);
    }

    /** The fields, mid-feed, when `s` is everything received. */
    ghost predicate Holds(s: Bytes)
      reads this
    {
      match state
      case BeforeBEG => output == [] && TailOf(begMarker, s, buf)
      case Capturing => output == [] && Body(begMarker, s) == Some(buf)
      case ReadingExitCode =>
        && Split(begMarker, endMarker, s).Some?
        && Split(begMarker, endMarker, s).value.1 == buf
        && output == ChopNewline(CompleteLines(Split(begMarker, endMarker, s).value.0))
      case Finished => Parse(begMarker, endMarker, s) == Done(output, exitCode)
    }

    ghost predicate Valid()
      reads this
    {
      Settled(Concat(fed), Run(begMarker, endMarker, maxOutput, fed))
    }

    /** The fields between feeds: `s` is everything received, `v` the verdict so far. */
    ghost predicate Settled(s: Bytes, v: Verdict)
      reads this
    {
      && (state != Finished ==> Holds(s))
      && match state
         case BeforeBEG => v == Pending && Body(begMarker, s).None?
         case Capturing =>
           if OverLimit(maxOutput, |buf|) then v == TooLong else v == Pending && SplitEnd(endMarker, buf).None?
         case ReadingExitCode => v == ExitVerdict(output, buf) && !v.Done?
         case Finished => v == Done(output, exitCode)
    }

    /** Nothing more can be read off the stream. */
    ghost predicate Stuck(s: Bytes)
      reads this
    {
      match state
      case BeforeBEG => Body(begMarker, s).None?
      case Capturing => !OverLimit(maxOutput, |buf|) && SplitEnd(endMarker, buf).None?
      case ReadingExitCode => ExitVerdict(output, buf) == Pending
      case Finished => true
    }

    /** `w` is the verdict the current chunk must lead to. */
    ghost predicate Expects(before: Bytes, now: Bytes, w: Verdict)
      reads this
    {
      match state
      case ReadingExitCode => w == ExitVerdict(output, buf)
      case Capturing =>
        if OverLimit(maxOutput, |buf|) then w == TooLong
        else Split(begMarker, endMarker, before).None? && w == Judge(begMarker, endMarker, maxOutput, before, now)
      case BeforeBEG =>
        Split(begMarker, endMarker, before).None? && w == Judge(begMarker, endMarker, maxOutput, before, now)
      case Finished => w == Done(output, exitCode)
    }

    /** The verdict `w` is the one reported, and the fields agree with it. */
    ghost predicate Reports(now: Bytes, w: Verdict, done: bool, err: Option<ProtocolError>)
      reads this
    {
      match w
      case Pending => !done && err == None && state != Finished && Stuck(now)
      case Done(o, code) => done && err == None && output == o && exitCode == code && state == Finished
      case BadExitCode => !done && err == Some(MalformedExitCode) && state == ReadingExitCode
      case TooLong => !done && err == Some(OutputExceeded) && state == Capturing
    }

    method Feed(chunk: Bytes) returns (done: bool, err: Option<ProtocolError>)
      requires Valid()
      modifies this
      ensures Valid() && fed == old(fed) + [chunk]
      ensures Reports(Concat(fed), Run(begMarker, endMarker, maxOutput, fed), done, err)
    {
      ghost var before, v := Concat(fed), Run(begMarker, endMarker, maxOutput, fed);
      RunSnoc(begMarker, endMarker, maxOutput, fed, chunk);
      fed := fed + [chunk];
      if state == Finished {
        return true, None;
      }
      ghost var now, w := before + chunk, Run(begMarker, endMarker, maxOutput, fed);
      Receive(chunk, before, v, w);
      done, err := Drive(before, now, w);
    }

    /** Buffers the chunk; the verdict it must lead to is fixed from here on. */
    method Receive(chunk: Bytes, ghost before: Bytes, ghost v: Verdict, ghost w: Verdict)
      requires Settled(before, v) && state != Finished
      requires w == if v != Pending then v else Judge(begMarker, endMarker, maxOutput, before, before + chunk)
      modifies this`buf
      ensures Holds(before + chunk) && Expects(before, before + chunk, w)
    {
      match state {
        case BeforeBEG => TailExtend(begMarker, before, buf, chunk);
        case Capturing => BodyStable(begMarker, before, chunk);
        case ReadingExitCode =>
          SplitStable(begMarker, endMarker, before, chunk);
          if v != Pending { ExitStable(output, buf, chunk); }
      }
      buf := buf + chunk;
    }

    /** The loop of `Feed`: advance until nothing more can be read off the buffer. */
    method Drive(ghost before: Bytes, ghost now: Bytes, ghost w: Verdict)
      returns (done: bool, err: Option<ProtocolError>)
      requires Holds(now) && state != Finished && Expects(before, now, w)
      modifies this`state, this`buf, this`output, this`exitCode
      ensures Settled(now, w) && Reports(now, w, done, err)
    {
      while true
        invariant Holds(now) && state != Finished && Expects(before, now, w)
        decreases 3 - state.Rank()
      {
        var progressed;
        progressed, done, err := Advance(before, now, w);
        if err != None {
          return false, err;
        }
        if done {
          return true, None;
        }
        if !progressed {
          return false, None;
        }
      }
    }

    method AdvanceCapturing() returns (progressed: bool, err: Option<ProtocolError>)
      requires output == [] && state == Capturing
      modifies this`state, this`buf, this`output
      ensures err == if OverLimit(maxOutput, |old(buf)|) then Some(OutputExceeded) else None
      ensures progressed <==> err == None && SplitEnd(endMarker, old(buf)).Some?
      ensures !progressed ==> state == Capturing && buf == old(buf) && output == []
      ensures progressed ==> state == ReadingExitCode
      ensures progressed ==>
        var (raw, rest) := SplitEnd(endMarker, old(buf)).value;
        buf == rest && output == ChopNewline(CompleteLines(raw))
    {
      if maxOutput > 0 && |buf| > maxOutput {
        return false, Some(OutputExceeded);
      }
      var idx := Index(buf, endMarker);
      if idx < 0 {
        return false, None;
      }
      var outChunk := UserOutput(idx);
      var exceeded := AppendOutput(outChunk);
      assert !exceeded;  // the buffer was within the limit, so the chunk is
      buf := buf[idx + |endMarker|..];
      state := ReadingExitCode;
      return true, None;
    }

    /** The output that ends at the END marker at `idx`: complete lines, without the wrapper's newline. */
    method UserOutput(idx: nat) returns (outChunk: Bytes)
      requires idx <= |buf|
      ensures outChunk == ChopNewline(CompleteLines(buf[..idx])) && |outChunk| <= idx
    {
      var lineStart := idx;
      while lineStart > 0 && buf[lineStart - 1] != '\n'
        invariant 0 <= lineStart <= idx
        invariant CompleteLines(buf[..lineStart]) == CompleteLines(buf[..idx])
      {
        CompleteLinesStep(buf, lineStart);
        lineStart := lineStart - 1;
      }
      outChunk := buf[..lineStart];
      assert CompleteLines(buf[..idx]) == outChunk;
      var n := |outChunk|;
      if n > 0 && outChunk[n - 1] == '\n' {
        outChunk := outChunk[..n - 1];
        var m := |outChunk|;
        if m > 0 && outChunk[m - 1] == '\r' {
          outChunk := outChunk[..m - 1];
        }
      }
    }

    method AppendOutput(b: Bytes) returns (exceeded: bool)
      modifies this`output
      ensures exceeded == OverLimit(maxOutput, |old(output)| + |b|)
      ensures output == if exceeded then old(output) else old(output) + b
    {
      if maxOutput > 0 && |output| + |b| > maxOutput {
        return true;
      }
      output := output + b;
      return false;
    }

    method Advance(ghost before: Bytes, ghost now: Bytes, ghost w: Verdict)
      returns (progressed: bool, done: bool, err: Option<ProtocolError>)
      requires Holds(now) && state != Finished && Expects(before, now, w)
      modifies this`state, this`buf, this`output, this`exitCode
      ensures done <==> state == Finished
      ensures !done ==> Holds(now) && Expects(before, now, w)
      ensures err != None ==> !progressed
      ensures progressed ==> state.Rank() == old(state).Rank() + 1
      ensures !progressed || done ==> Settled(now, w) && Reports(now, w, done, err)
    {
      match state {
        case BeforeBEG =>
          BodyOfTail(begMarker, now, buf);
          KeepIsTail(begMarker, now, buf);
          progressed, buf := ScanForBeg(begMarker, buf);
          if progressed {
            state := Capturing;
          }
          return progressed, false, None;
        case Capturing =>
          progressed, err := AdvanceCapturing();
          return progressed, false, err;
        case ReadingExitCode =>
          var nl := NewlineIndex(buf);
          if nl < 0 {
            return false, false, None;
          }
          var code := Atoi(TrimSpace(buf[..nl]));
          if code == None {
            return false, false, Some(MalformedExitCode);
          }
          exitCode, state, buf := code.value, Finished, [];
          return true, true, None;
      }
    }
  }
}
