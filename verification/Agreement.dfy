/** Pipe and RunFramed read the same stream: how their outputs compare. */
module Agreement {
  import opened Bytes
  import opened Framing
  import Sentinel
  import Streaming
  import Chunking

  /** A stream is well formed when END begins a line. */
  predicate WellFormed(raw: Bytes) {
    raw == [] || raw[|raw| - 1] == '\n'
  }

  lemma ChopIsOneNewline(raw: Bytes)
    requires WellFormed(raw) && raw != []
    ensures raw in {ChopNewline(raw) + "\n", ChopNewline(raw) + "\r\n"}
  {
    InitLast(raw);
    var r := raw[..|raw| - 1];
    if r != [] && r[|r| - 1] == '\r' {
      InitLast(r);
      Assoc(r[..|r| - 1], "\r", "\n");
      assert "\r" + "\n" == "\r\n";
    }
  }

  /** The chunk during which END became visible is the `n`-th. */
  ghost predicate EndAppearsAt(beg: Bytes, end: Bytes, chunks: seq<Bytes>, n: int) {
    && 0 < n <= |chunks|
    && Split(beg, end, Concat(chunks[..n - 1])).None?
    && Split(beg, end, Concat(chunks[..n])).Some?
  }

  lemma {:induction false} ClosedAt(beg: Bytes, end: Bytes, chunks: seq<Bytes>, n: int)
    requires EndAppearsAt(beg, end, chunks, n)
    ensures Split(beg, end, Concat(chunks)).Some?
    ensures Split(beg, end, Concat(chunks)).value.0 == Split(beg, end, Concat(chunks[..n])).value.0
    ensures Streaming.ClosedOutput(beg, end, chunks) ==
            Streaming.FinalOutput(Body(beg, Concat(chunks[..n - 1])), Split(beg, end, Concat(chunks)).value.0)
  {
    var init, last := chunks[..|chunks| - 1], chunks[|chunks| - 1];
    InitLast(chunks);
    if n == |chunks| {
      assert chunks[..n] == chunks;
    } else {
      assert chunks[..n] == init[..n] && chunks[..n - 1] == init[..n - 1];
      ClosedAt(beg, end, init, n);
      SplitStable(beg, end, Concat(init), last);
    }
  }

  lemma {:induction false} EndAppears(beg: Bytes, end: Bytes, chunks: seq<Bytes>) returns (n: int)
    requires Split(beg, end, Concat(chunks)).Some?
    ensures EndAppearsAt(beg, end, chunks, n)
  {
    var init, last := chunks[..|chunks| - 1], chunks[|chunks| - 1];
    assert chunks[..|chunks|] == chunks;
    if Split(beg, end, Concat(init)).None? {
      return |chunks|;
    }
    n := EndAppears(beg, end, init);
    assert chunks[..n] == init[..n] && chunks[..n - 1] == init[..n - 1];
  }

  /**
    For any two chunkings of one stream, the framed parser and the streaming parser finish together with the
    same exit code, and the bytes streamed are the framed output, or that output and the wrapper's newline.
    The newline is there exactly when a chunk ended inside the END marker, after that newline.
   */
  lemma StreamingRefinesFramed(beg: Bytes, end: Bytes, framed: seq<Bytes>, streamed: seq<Bytes>, raw: Bytes,
                               rest: Bytes)
    returns (n: int)
    requires Concat(framed) == Concat(streamed)
    requires Split(beg, end, Concat(streamed)) == Some((raw, rest)) && WellFormed(raw)
    ensures EndAppearsAt(beg, end, streamed, n)
    ensures Sentinel.Run(beg, end, 0, framed) == Parse(beg, end, Concat(streamed))
    ensures Sentinel.Run(beg, end, 0, framed).Done? ==>
            var o, out := Sentinel.Run(beg, end, 0, framed).output, Streaming.ClosedOutput(beg, end, streamed);
            && out in {o, o + "\n", o + "\r\n"}
            && (raw != [] ==> (out != o <==> HasGrown(Body(beg, Concat(streamed[..n - 1])), |raw|)))
  {
    n := EndAppears(beg, end, streamed);
    Chunking.ChunkingInvariance(beg, end, 0, framed);
    ClosedAt(beg, end, streamed, n);
    if raw != [] {
      ChopIsOneNewline(raw);
    }
  }

  /** `body` has been found and is at least `n` bytes long. */
  predicate HasGrown(body: Option<Bytes>, n: nat) {
    body.Some? && |body.value| >= n
  }

  lemma ClosedMidLine(beg: Bytes, end: Bytes, chunks: seq<Bytes>, raw: Bytes)
    requires Split(beg, end, Concat(chunks)).Some? && Split(beg, end, Concat(chunks)).value.0 == raw && !WellFormed(raw)
    ensures Streaming.ClosedOutput(beg, end, chunks) == raw
  {
    var n := EndAppears(beg, end, chunks);
    ClosedAt(beg, end, chunks, n);
  }

  /** When END is in mid-line the framed output loses the partial line and the streamed output keeps it. */
  lemma {:induction false} MidLineEnd(beg: Bytes, end: Bytes, framed: seq<Bytes>, streamed: seq<Bytes>,
                                     raw: Bytes, rest: Bytes)
    requires Concat(framed) == Concat(streamed)
    requires Split(beg, end, Concat(streamed)) == Some((raw, rest)) && !WellFormed(raw)
    ensures Streaming.ClosedOutput(beg, end, streamed) == raw
    ensures Sentinel.Run(beg, end, 0, framed) == Parse(beg, end, Concat(streamed))
    ensures Sentinel.Run(beg, end, 0, framed).Done? ==>
            var o := Sentinel.Run(beg, end, 0, framed).output;
            o == ChopNewline(CompleteLines(raw)) && o <= raw && |o| < |raw|
  {
    Chunking.ChunkingInvariance(beg, end, 0, framed);
    ClosedMidLine(beg, end, streamed, raw);
    CompleteLinesIsPrefix(raw);
  }

  lemma {:induction false} CompleteLinesIsPrefix(raw: Bytes)
    ensures CompleteLines(raw) <= raw && (!WellFormed(raw) ==> |CompleteLines(raw)| < |raw|)
    ensures ChopNewline(CompleteLines(raw)) <= raw
    ensures WellFormed(CompleteLines(raw))
  {
    if raw != [] && raw[|raw| - 1] != '\n' {
      CompleteLinesIsPrefix(raw[..|raw| - 1]);
    }
  }

  // ---- what a pipe delivers ----

  /** What the reader of a pipe gets in all, and the exit code on its result channel. */
  function Streamed(beg: Bytes, end: Bytes, chunks: seq<Bytes>): Verdict {
    match Parse(beg, end, Concat(chunks))
    case Done(_, code) => Done(Streaming.ClosedOutput(beg, end, chunks), code)
    case v => v
  }

  /** Of a complete stream, however cut: the output, or that and the newline, if a chunk ended after it inside END. */
  lemma StreamedExactly(beg: Bytes, end: Bytes, chunks: seq<Bytes>, raw: Bytes, rest: Bytes, own: Verdict)
    returns (n: int)
    requires Parse(beg, end, Concat(chunks)) == own && own.Done?
    requires Split(beg, end, Concat(chunks)) == Some((raw, rest)) && WellFormed(raw)
    ensures EndAppearsAt(beg, end, chunks, n)
    ensures var grown := HasGrown(Body(beg, Concat(chunks[..n - 1])), |raw|);
            Streamed(beg, end, chunks) == Done(if grown then raw else own.output, own.exitCode)
  {
    n := EndAppears(beg, end, chunks);
    ClosedAt(beg, end, chunks, n);
  }

  /** Of the first part of a complete stream: that, or nothing yet. */
  lemma StreamedPart(beg: Bytes, end: Bytes, taken: seq<Bytes>, rest: seq<Bytes>, raw: Bytes, own: Verdict)
    requires Parse(beg, end, Concat(taken + rest)) == own && own.Done? && WellFormed(raw)
    requires Split(beg, end, Concat(taken + rest)).Some? && Split(beg, end, Concat(taken + rest)).value.0 == raw
    ensures var v := Streamed(beg, end, taken);
            && v in {own, Done(raw, own.exitCode), Pending} && (rest == [] ==> v != Pending)
  {
    ConcatAppend(taken, rest);
    assert rest == [] ==> taken + rest == taken;
    if Parse(beg, end, Concat(taken)) != Pending {
      ParseStable(beg, end, Concat(taken), Concat(rest));
      SplitStable(beg, end, Concat(taken), Concat(rest));
      var n := StreamedExactly(beg, end, taken, raw, Split(beg, end, Concat(taken)).value.1, own);
    }
  }
}
