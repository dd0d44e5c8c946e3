/** Writing to the channel in pieces no longer than it takes at once. */
module Writer {
  import opened Bytes

  /** How a channel takes a write: whole, a first part without saying so, or a first part and an error. */
  datatype Acceptance = Whole | Short(n: nat) | Failed(n: nat)

  function Next(script: seq<Acceptance>): Acceptance {
    if script == [] then Whole else script[0]
  }

  /** How many of `size` bytes are taken. */
  function Part(a: Acceptance, size: nat): (n: nat)
    ensures n <= size
  {
    if a.Whole? then size else Min(a.n, size)
  }

  /** A channel, the bytes it has accepted, those it has dropped in silence, and how it takes the writes to come. */
  class Channel {
    const maxWriteChunk: int
    var accepted: Bytes
    var dropped: nat
    var longest: nat
    var script: seq<Acceptance>

    constructor (maxWriteChunk: int, script: seq<Acceptance>)
      ensures this.maxWriteChunk == maxWriteChunk && this.script == script
      ensures accepted == [] && dropped == 0 && longest == 0
    {
      this.maxWriteChunk, this.script, accepted, dropped, longest := maxWriteChunk, script, [], 0, 0;
    }

    method Write(b: Bytes) returns (n: nat, ok: bool)
      modifies this
      ensures n == Part(Next(old(script)), |b|) && (ok <==> !Next(old(script)).Failed?)
      ensures accepted == old(accepted) + b[..n]
      ensures dropped == old(dropped) + (if ok then |b| - n else 0)
      ensures longest == Max(old(longest), |b|)
      ensures script == if old(script) == [] then [] else old(script)[1..]
    {
      var a := Next(script);
      n, ok := Part(a, |b|), !a.Failed?;
      accepted, longest := accepted + b[..n], Max(longest, |b|);
      dropped := dropped + (if ok then |b| - n else 0);
      script := if script == [] then [] else script[1..];
    }
  }

  predicate Reliable(script: seq<Acceptance>) {
    forall i :: 0 <= i < |script| ==> script[i].Whole?
  }

  /**
    The session's own writes. The count a write returns is not looked at: success means that all of `b` reached the
    channel, in order and in pieces it takes, exactly when no write was cut short in silence. An error means a first
    part of `b` did, if none was.
   */
  method WriteAll(ch: Channel, b: Bytes) returns (ok: bool)
    modifies ch
    ensures old(ch.dropped) <= ch.dropped
    ensures ok ==> |ch.accepted| + ch.dropped == |old(ch.accepted)| + old(ch.dropped) + |b|
    ensures ok ==> (ch.accepted == old(ch.accepted) + b <==> ch.dropped == old(ch.dropped))
    ensures ch.dropped == old(ch.dropped) ==> old(ch.accepted) <= ch.accepted <= old(ch.accepted) + b
    ensures Reliable(old(ch.script)) ==> ok && ch.dropped == old(ch.dropped)
    ensures ch.maxWriteChunk > 0 ==> ch.longest <= Max(old(ch.longest), ch.maxWriteChunk)
  {
    var chunk := ch.maxWriteChunk;
    var n;
    if chunk <= 0 || chunk >= |b| {
      n, ok := ch.Write(b);
      FirstPart(old(ch.accepted), b, 0, |b|, n);
      return;
    }
    var off := 0;
    while off < |b|
      invariant 0 <= off <= |b| && old(ch.dropped) <= ch.dropped
      invariant |ch.accepted| + ch.dropped == |old(ch.accepted)| + old(ch.dropped) + off
      invariant ch.dropped == old(ch.dropped) ==> ch.accepted == old(ch.accepted) + b[..off]
      invariant Reliable(old(ch.script)) ==> Reliable(ch.script) && ch.dropped == old(ch.dropped)
      invariant ch.longest <= Max(old(ch.longest), chunk)
    {
      var end := Min(off + chunk, |b|);
      n, ok := ch.Write(b[off..end]);
      FirstPart(old(ch.accepted), b, off, end, n);
      if !ok { return; }
      off := end;
    }
    ok := true;
    assert b[..off] == b;
  }

  /** The writer that Pipe returns for the command's input. */
  class ChannelWriter {
    const ch: Channel

    constructor (ch: Channel)
      ensures this.ch == ch
    {
      this.ch := ch;
    }

    /**
      Counts the bytes that reached the channel. It can report success with a count below the length of `b`, which a
      writer must not: exactly when some write was cut short in silence.
     */
    method Write(b: Bytes) returns (written: nat, ok: bool)
      modifies ch
      ensures |ch.accepted| == |old(ch.accepted)| + written && old(ch.dropped) <= ch.dropped
      ensures ok ==> written + (ch.dropped - old(ch.dropped)) == |b|
      ensures ok ==> (written < |b| <==> ch.dropped > old(ch.dropped))
      ensures ch.dropped == old(ch.dropped) ==> written <= |b| && ch.accepted == old(ch.accepted) + b[..written]
      ensures Reliable(old(ch.script)) ==> ok && written == |b|
      ensures ch.maxWriteChunk > 0 ==> ch.longest <= Max(old(ch.longest), ch.maxWriteChunk)
    {
      var chunk := ch.maxWriteChunk;
      if chunk <= 0 || chunk >= |b| {
        written, ok := ch.Write(b);
        return;
      }
      written := 0;
      var off := 0;
      while off < |b|
        invariant 0 <= off <= |b| && old(ch.dropped) <= ch.dropped
        invariant |ch.accepted| == |old(ch.accepted)| + written
        invariant written + (ch.dropped - old(ch.dropped)) == off
        invariant ch.dropped == old(ch.dropped) ==> ch.accepted == old(ch.accepted) + b[..off]
        invariant Reliable(old(ch.script)) ==> Reliable(ch.script) && ch.dropped == old(ch.dropped)
        invariant ch.longest <= Max(old(ch.longest), chunk)
      {
        var end := Min(off + chunk, |b|);
        var n;
        n, ok := ch.Write(b[off..end]);
        FirstPart(old(ch.accepted), b, off, end, n);
        written := written + n;
        if !ok { return; }
        off := end;
      }
      ok := true;
    }
  }

  lemma FirstPart(sofar: Bytes, b: Bytes, off: nat, end: nat, n: nat)
    requires off <= end <= |b| && n <= end - off
    ensures sofar + b[..off] + b[off..end][..n] == sofar + b[..off + n]
    ensures sofar + b[..off + n] <= sofar + b
  {
    NextPart(b, off, end, n);
    Assoc(sofar, b[..off], b[off..end][..n]);
    CutAt(b, off + n);
    Assoc(sofar, b[..off + n], b[off + n..]);
  }

  lemma NextPart(b: Bytes, off: nat, end: nat, n: nat)
    requires off <= end <= |b| && n <= end - off
    ensures b[..off] + b[off..end][..n] == b[..off + n]
  {
  }

  lemma CutAt(b: Bytes, n: nat)
    requires n <= |b|
    ensures b == b[..n] + b[n..]
  {
  }
}
