/** A nonce that is new appears in nothing that other commands make the terminal show. */
module Freshness {
  import opened Bytes
  import opened Decimal
  import opened Framing
  import opened Shell
  import opened Wrapper
  import opened Terminal
  import opened EndToEnd

  const NONCE_LENGTH: nat := 16

  predicate IsHexChar(c: char) { '0' <= c <= '9' || 'a' <= c <= 'f' }

  /** Eight bytes in hexadecimal. */
  predicate IsNonce(n: Bytes) { IsHex(n) && |n| == NONCE_LENGTH }

  lemma NonceIsLong(n: Bytes)
    requires IsNonce(n)
    ensures LongPattern(n) && '\n' !in n && '\r' !in n && '_' !in n
  {
  }

  /** Pieces that do not meet in two hex digits have no nonce across the edge. */
  lemma Join(a: Bytes, b: Bytes, n: Bytes)
    requires IsNonce(n) && !Contains(a, n) && !Contains(b, n)
    requires a == [] || b == [] || !IsHexChar(a[|a| - 1]) || !IsHexChar(b[0])
    ensures !Contains(a + b, n)
  {
    forall i ensures !OccursAt(a + b, n, i) {
      if OccursAt(a + b, n, i) {
        if i + |n| <= |a| {
          OccursInLeft(a, b, n, i);
        } else if i >= |a| {
          OccursInRight(a, b, n, i);
        } else {
          EdgeIsHex(a, b, n, i);
        }
        assert false;
      }
    }
  }

  lemma EdgeIsHex(a: Bytes, b: Bytes, n: Bytes, i: int)
    requires IsNonce(n) && OccursAt(a + b, n, i) && i < |a| < i + |n|
    ensures a != [] && b != [] && IsHexChar(a[|a| - 1]) && IsHexChar(b[0])
  {
    assert (a + b)[i + (|a| - 1 - i)] == n[|a| - 1 - i] && (a + b)[i + (|a| - i)] == n[|a| - i];
  }

  lemma SameIfPrefix(m: Bytes, n: Bytes)
    requires |m| == |n| && OccursAt(m, n, 0)
    ensures m == n
  {
    forall k | 0 <= k < |m| ensures m[k] == n[k] {
      assert m[0 + k] == n[k];
    }
  }

  lemma OtherNonce(m: Bytes, n: Bytes)
    requires IsNonce(m) && IsNonce(n) && m != n
    ensures !Contains(m, n)
  {
    if OccursAt(m, n, 0) {
      SameIfPrefix(m, n);
    }
  }

  lemma Framed(lead: Bytes, m: Bytes, trail: Bytes, n: Bytes)
    requires IsNonce(m) && IsNonce(n) && m != n && 0 < |lead| < |n| && 0 < |trail| < |n|
    requires lead[|lead| - 1] == '_' && trail[0] == '_'
    ensures !Contains(lead + m + trail, n)
  {
    TooShort(lead, n);
    TooShort(trail, n);
    OtherNonce(m, n);
    Join(lead, m, n);
    Join(lead + m, trail, n);
  }

  lemma MarkersFree(m: Bytes, n: Bytes)
    requires IsNonce(m) && IsNonce(n) && m != n
    ensures !Contains(BegMarker(m), n) && !Contains(EndMarker(m), n) && !Contains(StdinDelimiter(m), n)
  {
    Framed("__PR_BEG_", m, "__", n);
    Framed("__PR_END_", m, "__:", n);
    Framed("__PR_STDIN_", m, "__", n);
  }

  /** The echo of another command. */
  lemma EchoFree(cmd: Bytes, stdin: Bytes, m: Bytes, onlcr: bool, n: Bytes)
    requires IsNonce(m) && IsNonce(n) && m != n && WrapCommand(cmd, stdin, m).Some?
    requires !Contains(cmd, n) && !Contains(stdin, n)
    ensures !Contains(Tty(WrapCommand(cmd, stdin, m).value, onlcr), n)
  {
    NonceIsLong(n);
    MarkersFree(m, n);
    OtherNonce(m, n);
    var hd := StdinDelimiter(m);
    var group := BraceGroup(cmd, stdin, hd);
    GroupHasNoMarker(cmd, stdin, hd, n);
    PrintfsHaveNoRoom(n);
    SemicolonSeparates(BEG_PRINTF, group, n);
    SemicolonSeparates(m, BEG_PRINTF + ("; " + group), n);
    WrapperText(cmd, stdin, m);
    TooShort("__PR_N", n);
    ContainsAround("__PR_N", '=', WrapperRest(cmd, stdin, m), n);
    CrlfHasNoMarker(WrapCommand(cmd, stdin, m).value, n);
  }

  /** The frame of another command, as long as its exit code is shorter than a nonce. */
  lemma FrameFree(m: Bytes, x: Bytes, code: nat, onlcr: bool, n: Bytes)
    requires IsNonce(m) && IsNonce(n) && m != n && !Contains(x, n) && |Print(code)| < NONCE_LENGTH
    ensures !Contains(Tty(Frame(m, x, code), onlcr), n)
  {
    NonceIsLong(n);
    FrameTextFree(BegMarker(m), x, EndMarker(m), Print(code), n, m);
    CrlfHasNoMarker(Frame(m, x, code), n);
  }

  lemma FrameTextFree(beg: Bytes, x: Bytes, end: Bytes, code: Bytes, n: Bytes, m: Bytes)
    requires IsNonce(m) && IsNonce(n) && m != n && !Contains(x, n) && |code| < NONCE_LENGTH
    requires beg == BegMarker(m) && end == EndMarker(m)
    ensures !Contains("\n" + beg + "\n" + x + "\n" + end + code + "\n", n)
  {
    MarkersFree(m, n);
    TooShort("\n", n);
    TooShort(code, n);
    assert beg[0] == '_' && end[0] == '_' && end[|end| - 1] == ':';
    AfterNewline([], beg, n);
    AfterNewline("\n" + beg, x, n);
    AfterNewline("\n" + beg + "\n" + x, end, n);
    Join("\n" + beg + "\n" + x + "\n" + end, code, n);
    AfterNewline("\n" + beg + "\n" + x + "\n" + end + code, [], n);
  }

  lemma AfterNewline(a: Bytes, b: Bytes, n: Bytes)
    requires IsNonce(n) && !Contains(a, n) && !Contains(b, n)
    ensures !Contains(a + "\n" + b, n)
    ensures a == [] ==> a + "\n" + b == "\n" + b
    ensures b == [] ==> a + "\n" + b == a + "\n"
  {
    TooShort("\n", n);
    Join(a, "\n", n);
    Join(a + "\n", b, n);
  }

  lemma PartFree(s: Bytes, i: nat, n: Bytes)
    requires i <= |s| && !Contains(s, n)
    ensures !Contains(s[..i], n) && !Contains(s[i..], n)
  {
    PrefixContains(s, i, n);
    forall j ensures !OccursAt(s[i..], n, j) {
      if OccursAt(s[i..], n, j) {
        assert s == s[..i] + s[i..];
        OccursInRight(s[..i], s[i..], n, i + j);
        assert false;
      }
    }
  }
}
