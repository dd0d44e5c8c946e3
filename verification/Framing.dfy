/** What one framed command's byte stream means, read as a whole. Both parsers are proved against this. */
module Framing {
  import opened Bytes
  import opened Decimal

  function BegMarker(nonce: Bytes): Bytes { "__PR_BEG_" + nonce + "__" }

  function EndMarker(nonce: Bytes): Bytes { "__PR_END_" + nonce + "__:" }

  datatype Verdict =
    | Pending
    | Done(output: Bytes, exitCode: int)
    | BadExitCode
    | TooLong

  /** What follows the line of the first BEG marker. */
  function Body(beg: Bytes, s: Bytes): Option<Bytes> {
    var i := Index(s, beg);
    if i < 0 then None
    else
      var line := s[i + |beg|..];
      var nl := NewlineIndex(line);
      if nl < 0 then None else Some(line[nl + 1..])
  }

  /** The bytes before and after the first END marker of a body. */
  function SplitEnd(end: Bytes, body: Bytes): Option<(Bytes, Bytes)> {
    var j := Index(body, end);
    if j < 0 then None else Some((body[..j], body[j + |end|..]))
  }

  function Split(beg: Bytes, end: Bytes, s: Bytes): Option<(Bytes, Bytes)> {
    match Body(beg, s)
    case None => None
    case Some(body) => SplitEnd(end, body)
  }

  /** The complete lines of `raw`. */
  function CompleteLines(raw: Bytes): Bytes {
    if raw == [] || raw[|raw| - 1] == '\n' then raw else CompleteLines(raw[..|raw| - 1])
  }

  /** `raw` without one final newline and an optional CR before it. */
  function ChopNewline(raw: Bytes): Bytes {
    if raw == [] || raw[|raw| - 1] != '\n' then raw
    else
      var r := raw[..|raw| - 1];
      if r != [] && r[|r| - 1] == '\r' then r[..|r| - 1] else r
  }

  function ExitVerdict(output: Bytes, rest: Bytes): Verdict {
    var nl := NewlineIndex(rest);
    if nl < 0 then Pending
    else
      match Atoi(TrimSpace(rest[..nl]))
      case None => BadExitCode
      case Some(code) => Done(output, code)
  }

  /** The verdict on a whole stream. */
  function Parse(beg: Bytes, end: Bytes, s: Bytes): Verdict {
    match Split(beg, end, s)
    case None => Pending
    case Some((raw, rest)) => ExitVerdict(ChopNewline(CompleteLines(raw)), rest)
  }

  lemma CompleteLinesStep(raw: Bytes, i: nat)
    requires 0 < i <= |raw| && raw[i - 1] != '\n'
    ensures CompleteLines(raw[..i]) == CompleteLines(raw[..i - 1])
  {
    assert raw[..i][..i - 1] == raw[..i - 1];
  }

  // ---- later bytes change nothing that is already decided ----

  lemma BodyStable(beg: Bytes, s: Bytes, t: Bytes)
    requires Body(beg, s).Some?
    ensures Body(beg, s + t) == Some(Body(beg, s).value + t)
  {
    var i := Index(s, beg);
    IndexStable(s, t, beg);
    var line := s[i + |beg|..];
    SuffixOfAppend(s, t, i + |beg|);
    NewlineStable(line, t);
    SuffixOfAppend(line, t, NewlineIndex(line) + 1);
  }

  lemma SplitEndStable(end: Bytes, body: Bytes, t: Bytes)
    requires SplitEnd(end, body).Some?
    ensures SplitEnd(end, body + t) == Some((SplitEnd(end, body).value.0, SplitEnd(end, body).value.1 + t))
  {
    IndexStable(body, t, end);
    var j := Index(body, end);
    assert (body + t)[..j] == body[..j];
    assert (body + t)[j + |end|..] == body[j + |end|..] + t;
  }

  lemma SplitStable(beg: Bytes, end: Bytes, s: Bytes, t: Bytes)
    requires Split(beg, end, s).Some?
    ensures Split(beg, end, s + t) == Some((Split(beg, end, s).value.0, Split(beg, end, s).value.1 + t))
  {
    BodyStable(beg, s, t);
    SplitEndStable(end, Body(beg, s).value, t);
  }

  lemma ExitStable(output: Bytes, rest: Bytes, t: Bytes)
    requires ExitVerdict(output, rest) != Pending
    ensures ExitVerdict(output, rest + t) == ExitVerdict(output, rest)
  {
    NewlineStable(rest, t);
    var nl := NewlineIndex(rest);
    assert (rest + t)[..nl] == rest[..nl];
  }

  /** A verdict, once reached, holds for every continuation of the stream. */
  lemma ParseStable(beg: Bytes, end: Bytes, s: Bytes, t: Bytes)
    requires Parse(beg, end, s) != Pending
    ensures Parse(beg, end, s + t) == Parse(beg, end, s)
  {
    SplitStable(beg, end, s, t);
    var (raw, rest) := Split(beg, end, s).value;
    ExitStable(ChopNewline(CompleteLines(raw)), rest, t);
  }

  /**
    A stream is malformed exactly when a complete line follows END that is not, blanks around it aside, a decimal number
    of 64 bits; it is complete exactly when such a number follows.
   */
  lemma ExitLineExactly(beg: Bytes, end: Bytes, s: Bytes)
    ensures var line := ExitLine(beg, end, s);
            && (Parse(beg, end, s) == Pending <==> line == None)
            && (Parse(beg, end, s) == BadExitCode <==>
                  line.Some? && !exists sign, digits :: Spells(TrimSpace(line.value), sign, digits))
            && (Parse(beg, end, s).Done? ==> Atoi(TrimSpace(line.value)) == Some(Parse(beg, end, s).exitCode))
  {
    if ExitLine(beg, end, s).Some? {
      AtoiExactly(TrimSpace(ExitLine(beg, end, s).value));
    }
  }

  /** The complete line after END. */
  function ExitLine(beg: Bytes, end: Bytes, s: Bytes): Option<Bytes> {
    match Split(beg, end, s)
    case None => None
    case Some((_, rest)) => if NewlineIndex(rest) < 0 then None else Some(rest[..NewlineIndex(rest)])
  }

  // ---- scanning for BEG with a trimmed buffer ----

  /** `buf` is the end of `s`, and no BEG marker can start in the part that was dropped. */
  ghost predicate TailOf(beg: Bytes, s: Bytes, buf: Bytes) {
    && |buf| <= |s|
    && buf == s[|s| - |buf|..]
    && (|buf| < |s| ==> |beg| <= |buf| + 1)
    && forall j :: 0 <= j < |s| - |buf| ==> !OccursAt(s, beg, j)
  }

  lemma MarkersOf(nonce: Bytes)
    ensures |BegMarker(nonce)| == |nonce| + 11 && |EndMarker(nonce)| == |nonce| + 12
    ensures '\n' !in nonce ==> '\n' !in BegMarker(nonce) && '\n' !in EndMarker(nonce)
  {
  }

  lemma NothingYet(beg: Bytes)
    requires beg != []
    ensures TailOf(beg, [], []) && Body(beg, []).None?
  {
    assert !OccursAt([], beg, 0);
  }

  lemma TailExtend(beg: Bytes, s: Bytes, buf: Bytes, chunk: Bytes)
    requires TailOf(beg, s, buf)
    ensures TailOf(beg, s + chunk, buf + chunk)
  {
    SuffixOfAppend(s, chunk, |s| - |buf|);
    forall j | 0 <= j < |s| - |buf| ensures !OccursAt(s + chunk, beg, j) {
      OccursInLeft(s, chunk, beg, j);
    }
  }

  /** The head of the buffer may go if no marker starts there and enough is kept for one to straddle. */
  lemma TailDrop(beg: Bytes, s: Bytes, buf: Bytes, k: nat)
    requires TailOf(beg, s, buf) && k <= |buf| && (k > 0 ==> |beg| <= |buf| - k + 1)
    requires forall j :: 0 <= j < k ==> !OccursAt(buf, beg, j)
    ensures TailOf(beg, s, buf[k..])
  {
    var d := |s| - |buf|;
    assert s == s[..d] + buf;
    forall j | d <= j < d + k ensures !OccursAt(s, beg, j) {
      OccursInRight(s[..d], buf, beg, j);
    }
  }

  /** What is kept of a buffer that holds no complete BEG line. */
  function KeepForBeg(beg: Bytes, buf: Bytes): Bytes {
    var i := Index(buf, beg);
    if i >= 0 then buf[i..] else buf[Max(0, |buf| - Max(|beg| - 1, 0))..]
  }

  lemma KeepIsTail(beg: Bytes, s: Bytes, buf: Bytes)
    requires TailOf(beg, s, buf)
    ensures TailOf(beg, s, KeepForBeg(beg, buf))
  {
    var i := Index(buf, beg);
    assert beg == [] ==> OccursAt(buf, beg, 0);
    TailDrop(beg, s, buf, if i >= 0 then i else Max(0, |buf| - Max(|beg| - 1, 0)));
  }

  /** The stateBeforeBEG case, which the two parsers share: the buffer's new contents. */
  method ScanForBeg(beg: Bytes, buf: Bytes) returns (found: bool, rest: Bytes)
    ensures found ==> Body(beg, buf) == Some(rest)
    ensures !found ==> Body(beg, buf) == None && rest == KeepForBeg(beg, buf)
  {
    var idx := Index(buf, beg);
    if idx < 0 {
      var keep := |beg| - 1;
      if keep < 0 {
        keep := 0;
      }
      if |buf| > keep {
        return false, buf[|buf| - keep..];
      }
      return false, buf;
    }
    var afterMarker := idx + |beg|;
    var nl := NewlineIndex(buf[afterMarker..]);
    if nl < 0 {
      return false, buf[idx..];
    }
    DropDrop(buf, afterMarker, nl + 1);
    return true, buf[afterMarker + nl + 1..];
  }

  /** The dropped head does not matter. */
  lemma BodyOfTail(beg: Bytes, s: Bytes, buf: Bytes)
    requires TailOf(beg, s, buf)
    ensures Body(beg, s) == Body(beg, buf)
  {
    var a := s[..|s| - |buf|];
    assert s == a + buf;
    BodyDropped(beg, a, buf);
  }

  lemma BodyDropped(beg: Bytes, a: Bytes, b: Bytes)
    requires forall j :: 0 <= j < |a| ==> !OccursAt(a + b, beg, j)
    ensures Body(beg, a + b) == Body(beg, b)
  {
    IndexDropped(a, b, beg);
    var i := Index(b, beg);
    if i >= 0 {
      DropOfAppend(a, b, i + |beg|);
    }
    SameAfterMarker(beg, a + b, b);
  }

  lemma SameAfterMarker(beg: Bytes, s: Bytes, t: Bytes)
    requires Index(s, beg) < 0 <==> Index(t, beg) < 0
    requires Index(s, beg) >= 0 ==> s[Index(s, beg) + |beg|..] == t[Index(t, beg) + |beg|..]
    ensures Body(beg, s) == Body(beg, t)
  {
  }
}
