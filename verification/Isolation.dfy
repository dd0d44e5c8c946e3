/**
  Commands one after another on one reader queue: each gets its own result, whatever the others showed, left behind,
  or did not wait for.
 */
module Isolation {
  import opened Bytes
  import opened Decimal
  import opened Framing
  import opened Wrapper
  import opened Sentinel
  import opened Terminal
  import opened EndToEnd
  import opened Freshness
  import Chunking
  import Agreement

  /**
    A command, run framed or piped, and what the terminal shows for it: the echo of its wrapper, other bytes, its frame
    or the first part of it, and other bytes again. `limit` is after how many chunks its caller stops reading without a
    verdict, be it canceled, short of a reader for its output, or never started reading at all.
   */
  datatype Command = Command(
    piped: bool,
    nonce: Bytes, cmd: Bytes, stdin: Bytes, output: Bytes, code: nat,
    echoCrlf: bool, onlcr: bool,
    between: Bytes, shown: nat, residue: Bytes,
    maxOutput: int, limit: nat)

  function Echo(c: Command): Bytes
    requires WrapCommand(c.cmd, c.stdin, c.nonce).Some?
  {
    Tty(WrapCommand(c.cmd, c.stdin, c.nonce).value, c.echoCrlf)
  }

  function FrameOf(c: Command): Bytes {
    Tty(Frame(c.nonce, c.output, c.code), c.onlcr)
  }

  function FrameShown(c: Command): Bytes {
    FrameOf(c)[..Min(c.shown, |FrameOf(c)|)]
  }

  /** What follows the echo. */
  function AfterEcho(c: Command): Bytes {
    c.between + FrameShown(c) + c.residue
  }

  function Shown(c: Command): Bytes
    requires WrapCommand(c.cmd, c.stdin, c.nonce).Some?
  {
    Echo(c) + AfterEcho(c)
  }

  function Own(c: Command): Verdict {
    Done(if c.onlcr then Crlf(c.output) else Reported(c.output), c.code)
  }

  /** What a command may report: its own output and exit code; a pipe may deliver the wrapper's newline as well. */
  function OwnResults(c: Command): set<Verdict> {
    if c.piped then {Own(c), Done(Tty(c.output + "\n", c.onlcr), c.code)} else {Own(c)}
  }

  /** A command with a nonce as the session draws it. */
  predicate Proper(c: Command) {
    IsNonce(c.nonce) && WrapCommand(c.cmd, c.stdin, c.nonce).Some? && c.code <= MAX_INT
  }

  /** The nonce, another command's, is in nothing that `c` brings in: not in its text, nor in what follows its echo. */
  ghost predicate Unseen(n: Bytes, c: Command) {
    n != c.nonce && !Contains(c.cmd, n) && !Contains(c.stdin, n) && !Contains(AfterEcho(c), n)
  }

  /**
    The nonce of command `k` is fresh: not in its own text, nor in anything sent or shown before. Its output may show
    the nonce, though not the whole END marker.
   */
  ghost predicate Fresh(noise: Bytes, cs: seq<Command>, k: nat)
    requires k < |cs|
  {
    var c := cs[k];
    && Proper(c) && !Contains(noise, c.nonce)
    && (forall i :: 0 <= i < k ==> Proper(cs[i]) && Unseen(c.nonce, cs[i]))
    && !Contains(c.cmd, c.nonce) && !Contains(c.stdin, c.nonce)
    && !Contains(c.between, BegMarker(c.nonce)) && !Contains(c.output, EndMarker(c.nonce))
  }

  /** Everything shown before command `k` was written. */
  function History(noise: Bytes, cs: seq<Command>, k: nat): Bytes
    requires k <= |cs| && forall i :: 0 <= i < k ==> Proper(cs[i])
  {
    if k == 0 then noise
    else
      assert Proper(cs[k - 1]);
      History(noise, cs, k - 1) + Shown(cs[k - 1])
  }

  // ---- the nonce of a command in what others make the terminal show ----

  lemma EchoEdges(c: Command)
    requires WrapCommand(c.cmd, c.stdin, c.nonce).Some?
    ensures Echo(c) != [] && Echo(c)[0] == '_' && Echo(c)[|Echo(c)| - 1] == '\n'
  {
    WrapperText(c.cmd, c.stdin, c.nonce);
    EchoShape(WrapperRest(c.cmd, c.stdin, c.nonce), c.echoCrlf);
    WrapperEnds(c);
  }

  lemma WrapperEnds(c: Command)
    requires WrapCommand(c.cmd, c.stdin, c.nonce).Some?
    ensures Echo(c) != [] && Echo(c)[|Echo(c)| - 1] == '\n'
  {
    var w := WrapCommand(c.cmd, c.stdin, c.nonce).value;
    assert w[|w| - 1] == '\n';
    CrlfEnds(w);
  }

  lemma CrlfEnds(s: Bytes)
    requires s != [] && s[|s| - 1] == '\n'
    ensures Crlf(s) != [] && Crlf(s)[|Crlf(s)| - 1] == '\n'
  {
    var a := s[..|s| - 1];
    InitLast(s);
    CrlfAppend(a, "\n");
    CrlfOfNewline([]);
  }

  lemma FrameEdges(c: Command)
    ensures FrameOf(c) != [] && !IsHexChar(FrameOf(c)[0]) && FrameOf(c)[|FrameOf(c)| - 1] == '\n'
  {
    var f := Frame(c.nonce, c.output, c.code);
    assert f[0] == '\n' && f[|f| - 1] == '\n';
    CrlfEnds(f);
  }

  /**
    What follows the echo holds another command's nonce only if the output or one of the other pieces does, for a frame
    that came whole, or was cut with no hex digit after it, and an exit code shorter than a nonce.
   */
  lemma UnseenInPieces(c: Command, n: Bytes)
    requires Proper(c) && IsNonce(n) && c.nonce != n && |Print(c.code)| < NONCE_LENGTH
    requires !Contains(c.between, n) && !Contains(c.output, n) && !Contains(c.residue, n)
    requires c.shown >= |FrameOf(c)| || c.residue == [] || !IsHexChar(c.residue[0])
    ensures !Contains(AfterEcho(c), n)
  {
    var f := FrameShown(c);
    FrameFree(c.nonce, c.output, c.code, c.onlcr, n);
    PartFree(FrameOf(c), Min(c.shown, |FrameOf(c)|), n);
    FrameEdges(c);
    Join(c.between, f, n);
    if c.shown >= |FrameOf(c)| {
      assert f == FrameOf(c);
      assert (c.between + f)[|c.between + f| - 1] == f[|f| - 1];
    }
    Join(c.between + f, c.residue, n);
  }

  /** Nothing of another command shows the nonce. */
  lemma ShownFree(c: Command, n: Bytes)
    requires Proper(c) && IsNonce(n) && Unseen(n, c)
    ensures !Contains(Shown(c), n) && Shown(c) != [] && Shown(c)[0] == '_'
  {
    EchoFree(c.cmd, c.stdin, c.nonce, c.echoCrlf, n);
    EchoEdges(c);
    Onto(Echo(c), AfterEcho(c), n);
  }

  lemma Onto(echo: Bytes, after: Bytes, n: Bytes)
    requires IsNonce(n) && !Contains(echo, n) && !Contains(after, n)
    requires echo != [] && echo[|echo| - 1] == '\n'
    ensures !Contains(echo + after, n) && echo + after != [] && (echo + after)[0] == echo[0]
  {
    Join(echo, after, n);
  }

  lemma {:induction false} HistoryFree(noise: Bytes, cs: seq<Command>, k: nat, n: Bytes)
    requires k <= |cs| && IsNonce(n) && !Contains(noise, n)
    requires forall i :: 0 <= i < k ==> Proper(cs[i]) && Unseen(n, cs[i])
    ensures !Contains(History(noise, cs, k), n)
  {
    if k > 0 {
      HistoryFree(noise, cs, k - 1, n);
      ShownFree(cs[k - 1], n);
      Join(History(noise, cs, k - 1), Shown(cs[k - 1]), n);
    }
  }

  /** No BEG marker of the command before its frame: not in what came earlier, not in its echo, not after that. */
  lemma NoMarkerBefore(past: Bytes, c: Command)
    requires Proper(c) && !Contains(past, c.nonce) && !Contains(c.cmd, c.nonce) && !Contains(c.stdin, c.nonce)
    requires !Contains(c.between, BegMarker(c.nonce))
    ensures !Contains(past + Echo(c) + c.between, BegMarker(c.nonce))
  {
    var beg := BegMarker(c.nonce);
    NoiseAndEchoHaveNoMarker(past, c.cmd, c.stdin, c.nonce, c.echoCrlf, beg);
    EchoEdges(c);
    MarkersAreLong(beg, c.nonce);
    NoMarkerAcross(past + Echo(c), c.between, beg);
  }

  lemma NoMarkerAcross(a: Bytes, b: Bytes, pat: Bytes)
    requires LongPattern(pat) && a != [] && a[|a| - 1] == '\n' && !Contains(a, pat) && !Contains(b, pat)
    ensures !Contains(a + b, pat)
  {
    var init := a[..|a| - 1];
    InitLast(a);
    PrefixContains(a, |a| - 1, pat);
    Assoc(init, ['\n'], b);
    ContainsAround(init, '\n', b, pat);
  }

  // ---- serving the queue ----

  function Verdict(c: Command, chunks: seq<Bytes>): Verdict {
    if c.piped then Agreement.Streamed(BegMarker(c.nonce), EndMarker(c.nonce), chunks)
    else Run(BegMarker(c.nonce), EndMarker(c.nonce), c.maxOutput, chunks)
  }

  /** The first number from `n` on that satisfies `p`, or `end`. */
  function FirstFrom(p: nat -> bool, n: nat, end: nat): (r: nat)
    requires n <= end
    ensures n <= r <= end && (r == end || p(r))
    decreases end - n
  {
    if n == end || p(n) then n else FirstFrom(p, n + 1, end)
  }

  lemma {:induction false} NoneBefore(p: nat -> bool, n: nat, end: nat, m: nat)
    requires n <= end && n <= m < FirstFrom(p, n, end)
    ensures !p(m)
    decreases m - n
  {
    if n < m {
      NoneBefore(p, n + 1, end, m);
    }
  }

  /** A command that started at chunk `start` and has read up to `n` has its verdict, or reaches its limit. */
  predicate Stops(c: Command, queue: seq<Bytes>, start: nat, n: nat) {
    start <= n <= |queue| && (n >= start + c.limit || Verdict(c, queue[start..n]) != Pending)
  }

  function Occasions(c: Command, queue: seq<Bytes>, start: nat): nat -> bool {
    (n: nat) => Stops(c, queue, start, n)
  }

  /** Where a command that starts at chunk `start` stops: a verdict, its limit, or the end. */
  function StopOf(c: Command, queue: seq<Bytes>, start: nat): (r: nat)
    requires start <= |queue|
    ensures start <= r <= |queue| && (r == |queue| || Stops(c, queue, start, r))
  {
    FirstFrom(Occasions(c, queue, start), start, |queue|)
  }

  /** It stops at the first occasion. */
  lemma StopsAtOnce(c: Command, queue: seq<Bytes>, start: nat, m: nat)
    requires start <= |queue| && start <= m < StopOf(c, queue, start)
    ensures m < start + c.limit && Verdict(c, queue[start..m]) == Pending
  {
    NoneBefore(Occasions(c, queue, start), start, |queue|, m);
  }

  /** How many chunks have been taken when command `k` starts: each starts where the one before stopped. */
  function StartOf(cs: seq<Command>, queue: seq<Bytes>, k: nat): (r: nat)
    requires k <= |cs|
    ensures r <= |queue|
  {
    if k == 0 then 0
    else
      var start := StartOf(cs, queue, k - 1);
      StopOf(cs[k - 1], queue, start)
  }

  /** What command `k` makes of the chunks it takes. */
  function VerdictOf(cs: seq<Command>, queue: seq<Bytes>, k: nat): Verdict
    requires k < |cs|
  {
    var start := StartOf(cs, queue, k);
    Verdict(cs[k], queue[start..StopOf(cs[k], queue, start)])
  }

  /** Reading part of a stream gives what the whole parses to, the limit error, or nothing yet. */
  lemma VerdictOfPart(beg: Bytes, end: Bytes, maxOutput: int, taken: seq<Bytes>, rest: seq<Bytes>, own: Verdict)
    requires Parse(beg, end, Concat(taken + rest)) == own && own.Done?
    ensures var v := Run(beg, end, maxOutput, taken);
            && v in {own, TooLong, Pending} && (maxOutput <= 0 ==> v != TooLong) && (rest == [] ==> v != Pending)
  {
    ConcatAppend(taken, rest);
    Chunking.CompletionIsExact(beg, end, maxOutput, taken);
    if maxOutput <= 0 {
      Chunking.ChunkingInvariance(beg, end, maxOutput, taken);
    }
    if Parse(beg, end, Concat(taken)) != Pending {
      ParseStable(beg, end, Concat(taken), Concat(rest));
    } else if rest == [] {
      assert taken + rest == taken;
    }
  }

  lemma CutAt<T>(s: seq<T>, n: nat)
    requires n <= |s|
    ensures s == s[..n] + s[n..]
  {
  }

  /** What a command may report while its frame is on the way. */
  ghost predicate Reports(c: Command, v: Verdict) {
    v in OwnResults(c) || v == Pending || (v == TooLong && !c.piped && c.maxOutput > 0)
  }

  /** What a command reports whose frame comes after bytes without its nonce, its echo, and more such bytes. */
  lemma OneCommand(c: Command, taken: seq<Bytes>, rest: seq<Bytes>, past: Bytes, tail: Bytes)
    requires Proper(c) && !Contains(past, c.nonce) && !Contains(c.cmd, c.nonce) && !Contains(c.stdin, c.nonce)
    requires !Contains(c.between, BegMarker(c.nonce)) && !Contains(c.output, EndMarker(c.nonce))
    requires Concat(taken + rest) == past + Echo(c) + c.between + FrameOf(c) + tail
    ensures Reports(c, Verdict(c, taken)) && (rest == [] ==> Verdict(c, taken) != Pending)
  {
    NoMarkerBefore(past, c);
    ParseTerminal(past + Echo(c) + c.between, c.nonce, c.output, c.code, c.onlcr, tail);
    if c.piped {
      EndsLine(c.output, c.onlcr);
      var raw := Tty(c.output + "\n", c.onlcr);
      Agreement.StreamedPart(BegMarker(c.nonce), EndMarker(c.nonce), taken, rest, raw, Own(c));
    } else {
      VerdictOfPart(BegMarker(c.nonce), EndMarker(c.nonce), c.maxOutput, taken, rest, Own(c));
    }
  }

  /**
    Command isolation. Any number of commands, framed and piped, share a queue. Whatever the earlier ones showed,
    whether their frames came whole, in part or not at all, and wherever each stopped reading: a command with a fresh
    nonce whose frame comes whole reports its own output and exit code, or the limit error if it has a limit, or
    nothing, and that only if it is abandoned. What was taken before a command starts was shown before it was written.
   */
  lemma CommandIsolation(noise: Bytes, cs: seq<Command>, queue: seq<Bytes>, k: nat, tail: Bytes)
    requires k < |cs| && Fresh(noise, cs, k)
    requires Concat(queue) == History(noise, cs, k) + (Echo(cs[k]) + cs[k].between + FrameOf(cs[k]) + tail)
    requires |Concat(queue[..StartOf(cs, queue, k)])| <= |History(noise, cs, k)|
    ensures Reports(cs[k], VerdictOf(cs, queue, k))
    ensures VerdictOf(cs, queue, k) == Pending ==> StartOf(cs, queue, k + 1) >= StartOf(cs, queue, k) + cs[k].limit
  {
    var c, n, past := cs[k], StartOf(cs, queue, k), History(noise, cs, k);
    var own := Echo(c) + c.between + FrameOf(c) + tail;
    var stop := StopOf(c, queue, n);
    HistoryFree(noise, cs, k, c.nonce);
    CutAt(queue, n);
    ConcatAppend(queue[..n], queue[n..]);
    var skip := |Concat(queue[..n])|;
    RestOfStream(past, own, Concat(queue[..n]), Concat(queue[n..]));
    PartFree(past, skip, c.nonce);
    Regroup(past[skip..], Echo(c), c.between, FrameOf(c), tail);
    CutBetween(queue, n, stop);
    OneCommand(c, queue[n..stop], queue[stop..], past[skip..], tail);
  }

  lemma CutBetween<T>(s: seq<T>, n: nat, m: nat)
    requires n <= m <= |s|
    ensures s[n..] == s[n..m] + s[m..]
  {
  }

  lemma RestOfStream(past: Bytes, own: Bytes, taken: Bytes, rest: Bytes)
    requires past + own == taken + rest && |taken| <= |past|
    ensures rest == past[|taken|..] + own
  {
    assert (taken + rest)[|taken|..] == rest;
    assert (past + own)[|taken|..] == past[|taken|..] + own;
  }

  lemma Regroup(p: Bytes, e: Bytes, b: Bytes, f: Bytes, t: Bytes)
    ensures p + (e + b + f + t) == p + e + b + f + t
  {
  }
}
