/** Removing terminal control sequences from captured output (pkg/session/ansi.go). */
module Ansi {
  import opened Bytes

  const ESC: char := '\U{1B}'
  const BEL: char := '\U{07}'
  const BS: char := '\U{08}'

  /** A byte that ends a control sequence. */
  predicate IsFinal(c: char) {
    '@' <= c <= '~'
  }

  /** The second byte of a two-byte escape sequence. */
  predicate IsSecond(c: char) {
    '@' <= c <= '_' && c != '[' && c != ']'
  }

  /** The index of the final byte of a control sequence, or the length if there is none. */
  function CsiEnd(s: Bytes, j: nat): (k: nat)
    requires j <= |s|
    ensures j <= k <= |s|
    decreases |s| - j
  {
    if j == |s| || IsFinal(s[j]) then j else CsiEnd(s, j + 1)
  }

  predicate StartsSt(s: Bytes, j: nat) {
    j + 1 < |s| && s[j] == ESC && s[j + 1] == '\\'
  }

  /** The index of the last byte of an operating system command, or the length if it is not terminated. */
  function OscEnd(s: Bytes, j: nat): (k: nat)
    requires j <= |s|
    ensures j <= k <= |s|
    decreases |s| - j
  {
    if j == |s| || s[j] == BEL then j
    else if StartsSt(s, j) then j + 1
    else OscEnd(s, j + 1)
  }

  /** Two neighbouring bytes that are not both kept: the start of a sequence, or a CR before its LF. */
  predicate Forms(a: char, b: char) {
    (a == ESC && '@' <= b <= '_') || (a == '\r' && b == '\n')
  }

  /** What becomes of the front of the input: all is dropped, a sequence erased, a byte taken back, or one kept. */
  datatype Move = Truncated | Erased(n: nat) | Backspace | Kept(k: nat)

  function MoveOf(s: Bytes): (m: Move)
    requires s != []
    ensures m.Erased? ==> 2 <= m.n <= |s|
    ensures m.Kept? ==> m.k < |s| && s[m.k] != BS && (m.k + 1 < |s| ==> !Forms(s[m.k], s[m.k + 1]))
    ensures m == Kept(0) <==> s[0] != BS && !(|s| > 1 && Forms(s[0], s[1]))
    ensures 0 < Used(m, s) <= |s|
  {
    if s[0] == ESC && |s| > 1 then
      if s[1] == '[' then (if CsiEnd(s, 2) == |s| then Truncated else Erased(CsiEnd(s, 2) + 1))
      else if s[1] == ']' then (if OscEnd(s, 2) == |s| then Truncated else Erased(OscEnd(s, 2) + 1))
      else if IsSecond(s[1]) then Erased(2)
      else Kept(0)
    else if s[0] == BS then Backspace
    else if s[0] == '\r' && |s| > 1 && s[1] == '\n' then Kept(1)
    else Kept(0)
  }

  function Init<T>(s: seq<T>): seq<T> {
    if s == [] then [] else s[..|s| - 1]
  }

  /** How much of the input a move takes. */
  function Used(m: Move, s: Bytes): nat {
    match m
    case Truncated => |s|
    case Erased(n) => n
    case Backspace => 1
    case Kept(k) => k + 1
  }

  /** What a move makes of what was kept so far. */
  function After(m: Move, s: Bytes, out: Bytes): Bytes
    requires m.Kept? ==> m.k < |s|
  {
    match m
    case Backspace => Init(out)
    case Kept(k) => out + [s[k]]
    case _ => out
  }

  /** What remains of `s`, after what was kept so far. */
  function Strip(s: Bytes, out: Bytes): Bytes
    decreases |s|
  {
    if s == [] then out
    else
      var m := MoveOf(s);
      Strip(s[Used(m, s)..], After(m, s, out))
  }

  // ---- the loops ----

  method ScanCsi(s: Bytes, i: nat) returns (j: nat)
    requires i <= |s|
    ensures j == CsiEnd(s, i)
  {
    j := i;
    while j < |s|
      invariant i <= j <= |s| && CsiEnd(s, j) == CsiEnd(s, i)
    {
      if IsFinal(s[j]) { break; }
      j := j + 1;
    }
  }

  method ScanOsc(s: Bytes, i: nat) returns (j: nat)
    requires i <= |s|
    ensures j == OscEnd(s, i)
  {
    j := i;
    while j < |s|
      invariant i <= j <= |s| && OscEnd(s, j) == OscEnd(s, i)
    {
      if s[j] == BEL { break; }
      if s[j] == ESC && j + 1 < |s| && s[j + 1] == '\\' {
        j := j + 1;
        break;
      }
      j := j + 1;
    }
  }

  /** Scanning from an index is scanning the rest. */
  lemma {:induction false} CsiEndOfRest(s: Bytes, i: nat, j: nat)
    requires i + j <= |s|
    ensures CsiEnd(s, i + j) == i + CsiEnd(s[i..], j)
    decreases |s| - j
  {
    if i + j < |s| && !IsFinal(s[i + j]) {
      CsiEndOfRest(s, i, j + 1);
    }
  }

  lemma {:induction false} OscEndOfRest(s: Bytes, i: nat, j: nat)
    requires i + j <= |s|
    ensures OscEnd(s, i + j) == i + OscEnd(s[i..], j)
    decreases |s| - j
  {
    if i + j < |s| {
      assert StartsSt(s, i + j) == StartsSt(s[i..], j);
      if s[i + j] != BEL && !StartsSt(s, i + j) {
        OscEndOfRest(s, i, j + 1);
      }
    }
  }

  /** The switch of the loop: what becomes of the front of `s[i..]`. */
  method Classify(s: Bytes, i: nat) returns (m: Move)
    requires i < |s|
    ensures m == MoveOf(s[i..])
  {
    var b := s[i];
    if b == ESC && i + 1 < |s| {
      var next := s[i + 1];
      if next == '[' {
        var j := ScanCsi(s, i + 2);
        CsiEndOfRest(s, i, 2);
        return if j >= |s| then Truncated else Erased(j + 1 - i);
      } else if next == ']' {
        var j := ScanOsc(s, i + 2);
        OscEndOfRest(s, i, 2);
        return if j >= |s| then Truncated else Erased(j + 1 - i);
      } else if IsSecond(next) {
        return Erased(2);
      } else {
        return Kept(0);
      }
    } else if b == BS {
      return Backspace;
    } else if b == '\r' && i + 1 < |s| && s[i + 1] == '\n' {
      return Kept(1);
    } else {
      return Kept(0);
    }
  }

  /** One move, seen from the whole input. */
  lemma StripMove(s: Bytes, i: nat, out: Bytes, m: Move, j: nat, after: Bytes)
    requires i < |s| && m == MoveOf(s[i..]) && j == i + Used(m, s[i..])
    requires after == match m
                      case Backspace => Init(out)
                      case Kept(k) => out + [s[i + k]]
                      case _ => out
    ensures j <= |s| && Strip(s[i..], out) == Strip(s[j..], after)
  {
    DropDrop(s, i, Used(m, s[i..]));
  }

  method StripANSI(s: Bytes) returns (out: Bytes)
    ensures out == Strip(s, [])
  {
    out := [];
    var i := 0;
    assert s[0..] == s;
    while i < |s|
      invariant 0 <= i <= |s|
      invariant Strip(s[i..], out) == Strip(s, [])
    {
      var m := Classify(s, i);
      ghost var from, was := i, out;
      match m {
        case Truncated => i := |s|;
        case Erased(n) => i := i + n;
        case Backspace =>
          if |out| > 0 {
            out := out[..|out| - 1];
          }
          i := i + 1;
        case Kept(k) =>
          out := out + [s[i + k]];
          i := i + k + 1;
      }
      StripMove(s, from, was, m, i, out);
    }
  }

  // ---- it erases exactly the control sequences ----

  predicate IsCsi(q: Bytes) {
    && |q| >= 3 && q[0] == ESC && q[1] == '['
    && IsFinal(q[|q| - 1])
    && (forall i :: 2 <= i < |q| - 1 ==> !IsFinal(q[i]))
  }

  /** Nothing up to `n` ends the command. */
  predicate NoTerminator(q: Bytes, n: nat) {
    forall i :: 2 <= i < n && i < |q| ==> q[i] != BEL && !StartsSt(q, i)
  }

  predicate IsOsc(q: Bytes) {
    && |q| >= 3 && q[0] == ESC && q[1] == ']'
    && (if q[|q| - 1] == BEL then NoTerminator(q, |q| - 1)
        else |q| >= 4 && StartsSt(q, |q| - 2) && NoTerminator(q, |q| - 2))
  }

  predicate IsTwoByte(q: Bytes) {
    |q| == 2 && q[0] == ESC && IsSecond(q[1])
  }

  predicate IsSequence(q: Bytes) {
    IsCsi(q) || IsOsc(q) || IsTwoByte(q)
  }

  predicate IsPlainChar(c: char) {
    c != ESC && c != BS && c != '\r'
  }

  /** A control sequence, a CR LF, a backspace, or a byte that stands for itself. */
  datatype Token = Sequence(q: Bytes) | Newline | Back | Byte(c: char) {
    function Spelling(): Bytes {
      match this case Sequence(q) => q case Newline => ['\r', '\n'] case Back => [BS] case Byte(c) => [c]
    }

    predicate IsKept() { Newline? || Byte? }

    function Shown(): char
      requires IsKept()
    {
      if Byte? then c else '\n'
    }

    /** How many more bytes are kept after it than before. */
    function Weight(): int { if IsKept() then 1 else if Back? then -1 else 0 }
  }

  function Spell(ts: seq<Token>): Bytes {
    if ts == [] then [] else ts[0].Spelling() + Spell(ts[1..])
  }

  predicate WellFormed(ts: seq<Token>) {
    forall i :: 0 <= i < |ts| ==>
      match ts[i]
      case Byte(c) => IsPlainChar(c)
      case Sequence(q) => IsSequence(q)
      case _ => false
  }

  /** The text without the control sequences. */
  function Text(ts: seq<Token>): Bytes {
    if ts == [] then [] else (if ts[0].Byte? then [ts[0].c] else []) + Text(ts[1..])
  }

  lemma {:induction false} CsiEndsAt(q: Bytes, rest: Bytes, j: nat)
    requires IsCsi(q) && 2 <= j < |q|
    ensures CsiEnd(q + rest, j) == |q| - 1
    decreases |q| - j
  {
    assert (q + rest)[j] == q[j];
    if j < |q| - 1 {
      CsiEndsAt(q, rest, j + 1);
    }
  }

  lemma {:induction false} OscEndsAt(q: Bytes, rest: Bytes, j: nat)
    requires IsOsc(q) && 2 <= j < |q| && (q[|q| - 1] != BEL ==> j <= |q| - 2)
    ensures OscEnd(q + rest, j) == |q| - 1
    decreases |q| - j
  {
    assert (q + rest)[j] == q[j];
    assert j < |q| - 1 ==> StartsSt(q + rest, j) == StartsSt(q, j);
    if q[j] != BEL && !StartsSt(q, j) {
      OscEndsAt(q, rest, j + 1);
    }
  }

  lemma SequenceErased(q: Bytes, rest: Bytes, out: Bytes)
    requires IsSequence(q)
    ensures Strip(q + rest, out) == Strip(rest, out)
  {
    var s := q + rest;
    assert s[0] == q[0] && s[1] == q[1] && s[|q|..] == rest;
    if IsCsi(q) {
      CsiEndsAt(q, rest, 2);
    } else if IsOsc(q) {
      OscEndsAt(q, rest, 2);
    }
  }

  lemma KeepFirst(c: char, rest: Bytes, out: Bytes)
    requires c != BS && !(rest != [] && Forms(c, rest[0]))
    ensures Strip([c] + rest, out) == Strip(rest, out + [c])
  {
    assert ([c] + rest)[1..] == rest;
  }

  lemma PassParameters(s: Bytes, n: nat)
    requires 2 <= n <= |s| && forall i :: 2 <= i < n ==> !(0x40 <= s[i] as int <= 0x7E)
    ensures CsiEnd(s, 2) == CsiEnd(s, n)
  {
    if n > 2 {
      PassParameters(s, n - 1);
    }
  }

  /**
    After ESC [, everything up to the first byte of 0x40-0x7E goes, that byte included; without such a byte everything
    goes.
   */
  lemma CsiErasedExactly(p: Bytes, f: char, rest: Bytes, out: Bytes)
    requires forall i :: 0 <= i < |p| ==> !(0x40 <= p[i] as int <= 0x7E)
    requires 0x40 <= f as int <= 0x7E
    ensures Strip(['\U{1B}', '['] + p, out) == out
    ensures Strip(['\U{1B}', '['] + p + [f] + rest, out) == Strip(rest, out)
  {
    var cut, s := ['\U{1B}', '['] + p, ['\U{1B}', '['] + p + [f] + rest;
    PassParameters(cut, |cut|);
    assert cut[|cut|..] == [];
    forall i | 2 <= i < |cut| ensures !(0x40 <= s[i] as int <= 0x7E) {
      assert s[i] == p[i - 2];
    }
    PassParameters(s, |cut|);
    assert s[|cut|] == f && s[|cut| + 1..] == rest;
  }

  /** After ESC, a byte of 0x40-0x5F other than the two brackets goes with it; of any other the ESC is kept. */
  lemma EscapeExactly(c: char, rest: Bytes, out: Bytes)
    requires c != '[' && c != ']'
    ensures Strip(['\U{1B}', c] + rest, out) ==
            if 0x40 <= c as int <= 0x5F then Strip(rest, out) else Strip([c] + rest, out + ['\U{1B}'])
  {
    var s := ['\U{1B}', c] + rest;
    assert s[2..] == rest && s[1..] == [c] + rest;
  }

  /** Neither BEL nor ESC \ is in `p`. */
  predicate Unterminated(p: Bytes) {
    '\U{07}' !in p && forall i :: 0 <= i < |p| - 1 && p[i] == '\U{1B}' ==> p[i + 1] != '\\'
  }

  lemma PassText(s: Bytes, p: Bytes, n: nat)
    requires |p| + 2 <= |s| && s[2..|p| + 2] == p && Unterminated(p) && 2 <= n <= |p| + 2
    requires p != [] && p[|p| - 1] == '\U{1B}' && |p| + 2 < |s| ==> s[|p| + 2] != '\\'
    ensures OscEnd(s, 2) == OscEnd(s, n)
  {
    if n > 2 {
      PassText(s, p, n - 1);
      assert s[n - 1] == p[n - 3];
      assert n < |p| + 2 ==> s[n] == p[n - 2];
    }
  }

  /** After ESC ], everything up to the first BEL or ESC \ goes, that included; without one everything goes. */
  lemma OscErasedExactly(p: Bytes, rest: Bytes, out: Bytes)
    requires Unterminated(p)
    ensures Strip(['\U{1B}', ']'] + p, out) == out
    ensures Strip(['\U{1B}', ']'] + p + ['\U{07}'] + rest, out) == Strip(rest, out)
    ensures Strip(['\U{1B}', ']'] + p + ['\U{1B}', '\\'] + rest, out) == Strip(rest, out)
  {
    var cut := ['\U{1B}', ']'] + p;
    PassText(cut, p, |cut|);
    assert cut[|cut|..] == [];
    OscClosed(p, ['\U{07}'], rest, out);
    OscClosed(p, ['\U{1B}', '\\'], rest, out);
  }

  lemma OscClosed(p: Bytes, close: Bytes, rest: Bytes, out: Bytes)
    requires Unterminated(p) && (close == ['\U{07}'] || close == ['\U{1B}', '\\'])
    ensures Strip(['\U{1B}', ']'] + p + close + rest, out) == Strip(rest, out)
  {
    var s := ['\U{1B}', ']'] + p + close + rest;
    OscParts(p, close, rest);
    PassText(s, p, |p| + 2);
    OscStops(s, |p| + 2, |close|, out);
  }

  lemma OscParts(p: Bytes, close: Bytes, rest: Bytes)
    requires 1 <= |close| <= 2
    ensures var s, n := ['\U{1B}', ']'] + p + close + rest, |p| + 2;
            && |s| >= n + |close| && s[0] == '\U{1B}' && s[1] == ']' && s[2..n] == p
            && s[n] == close[0] && (|close| == 2 ==> s[n + 1] == close[1]) && s[n + |close|..] == rest
  {
  }

  lemma OscStops(s: Bytes, n: nat, k: nat, out: Bytes)
    requires 2 <= n < n + k <= |s| && s[0] == '\U{1B}' && s[1] == ']' && OscEnd(s, 2) == OscEnd(s, n)
    requires if k == 1 then s[n] == '\U{07}' else k == 2 && s[n] == '\U{1B}' && s[n + 1] == '\\'
    ensures Strip(s, out) == Strip(s[n + k..], out)
  {
  }

  /** Control sequences anywhere in a text leave just the text. */
  lemma {:induction false} StripsToText(ts: seq<Token>, out: Bytes)
    requires WellFormed(ts)
    ensures Strip(Spell(ts), out) == out + Text(ts)
  {
    if ts == [] {
      assert out + [] == out;
    } else {
      var rest := Spell(ts[1..]);
      match ts[0] {
        case Byte(c) =>
          KeepFirst(c, rest, out);
          StripsToText(ts[1..], out + [c]);
          Assoc(out, [c], Text(ts[1..]));
        case Sequence(q) =>
          SequenceErased(q, rest, out);
          StripsToText(ts[1..], out);
          assert [] + Text(ts[1..]) == Text(ts[1..]);
      }
    }
  }

  // ---- stripping twice ----

  /** A text that stripping leaves alone. */
  predicate Stable(t: Bytes) {
    t == [] || (t[0] != BS && !(|t| > 1 && Forms(t[0], t[1])) && Stable(t[1..]))
  }

  lemma {:induction false} StripShortens(t: Bytes, out: Bytes)
    ensures |Strip(t, out)| <= |out| + |t|
    decreases |t|
  {
    if t != [] {
      var m := MoveOf(t);
      StripShortens(t[Used(m, t)..], After(m, t, out));
    }
  }

  /** Stripping keeps a stable text and shortens every other. */
  lemma {:induction false} StableIsKept(t: Bytes, out: Bytes)
    ensures if Stable(t) then Strip(t, out) == out + t else |Strip(t, out)| < |out| + |t|
    decreases |t|
  {
    if t == [] {
      assert out + [] == out;
    } else {
      var m := MoveOf(t);
      if m == Kept(0) {
        StableIsKept(t[1..], out + [t[0]]);
        PushFirst(out, t);
      } else {
        StripShortens(t[Used(m, t)..], After(m, t, out));
      }
    }
  }

  lemma PushFirst(out: Bytes, t: Bytes)
    requires t != []
    ensures out + [t[0]] + t[1..] == out + t
  {
  }

  /** The k-th byte and the next one form a pair. */
  predicate Meet(t: Bytes, k: nat) {
    k + 1 < |t| && Forms(t[k], t[k + 1])
  }

  lemma {:induction false} StableIffNoneMeet(t: Bytes)
    requires BS !in t
    ensures Stable(t) <==> forall k: nat :: !Meet(t, k)
    decreases |t|
  {
    if t != [] {
      var rest := t[1..];
      StableIffNoneMeet(rest);
      forall k: nat ensures Meet(rest, k) == Meet(t, k + 1) {
      }
      if Stable(t) {
        forall k: nat ensures !Meet(t, k) {
          if k > 0 { assert Meet(rest, k - 1) == Meet(t, k); }
        }
      } else if Stable(rest) {
        assert Meet(t, 0);
      }
    }
  }

  lemma FixedIffNoneMeet(t: Bytes)
    requires BS !in t
    ensures Strip(t, []) == t <==> forall k: nat :: !Meet(t, k)
  {
    StableIsKept(t, []);
    assert [] + t == t;
    StableIffNoneMeet(t);
  }

  /** What stripping keeps holds no backspace. */
  lemma {:induction false} NoBackspaceLeft(s: Bytes, out: Bytes)
    requires BS !in out
    ensures BS !in Strip(s, out)
    decreases |s|
  {
    if s != [] {
      var m := MoveOf(s);
      NoBackspaceLeft(s[Used(m, s)..], After(m, s, out));
    }
  }

  // ---- what the input is made of ----

  /** The token can stand before `next`. */
  predicate Fits(t: Token, next: Bytes) {
    match t
    case Sequence(q) => IsSequence(q)
    case Byte(c) => c != BS && !(next != [] && Forms(c, next[0]))
    case _ => true
  }

  /** The beginning of a sequence that does not end. */
  predicate IsCut(s: Bytes) {
    && |s| >= 2 && s[0] == ESC
    && (if s[1] == '[' then forall i :: 2 <= i < |s| ==> !IsFinal(s[i]) else s[1] == ']' && NoTerminator(s, |s|))
  }

  /** Tokens, and at the end perhaps the beginning of a sequence. */
  predicate Reads(ts: seq<Token>, cut: Bytes) {
    if ts == [] then cut == [] || IsCut(cut)
    else Fits(ts[0], Spell(ts[1..]) + cut) && Reads(ts[1..], cut)
  }

  // ---- every input is made of tokens ----

  lemma {:induction false} CsiEndMeans(s: Bytes, j: nat)
    requires j <= |s|
    ensures forall i :: j <= i < CsiEnd(s, j) ==> !IsFinal(s[i])
    ensures CsiEnd(s, j) < |s| ==> IsFinal(s[CsiEnd(s, j)])
    decreases |s| - j
  {
    if j < |s| && !IsFinal(s[j]) {
      CsiEndMeans(s, j + 1);
    }
  }

  /** Nothing from `j` up to `n` ends the command. */
  predicate NoTerminatorFrom(s: Bytes, j: nat, n: nat) {
    forall i :: j <= i < n && i < |s| ==> s[i] != BEL && !StartsSt(s, i)
  }

  lemma {:induction false} OscEndMeans(s: Bytes, j: nat)
    requires j <= |s|
    ensures var k := OscEnd(s, j);
            if k == |s| then NoTerminatorFrom(s, j, k)
            else if s[k] == BEL then NoTerminatorFrom(s, j, k)
            else j < k && StartsSt(s, k - 1) && NoTerminatorFrom(s, j, k - 1)
    decreases |s| - j
  {
    if j < |s| && s[j] != BEL && !StartsSt(s, j) {
      OscEndMeans(s, j + 1);
    }
  }

  lemma ErasedIsSequence(s: Bytes)
    requires s != [] && MoveOf(s).Erased?
    ensures IsSequence(s[..MoveOf(s).n])
  {
    var q := s[..MoveOf(s).n];
    if s[1] == '[' {
      CsiEndMeans(s, 2);
    } else if s[1] == ']' {
      OscEndMeans(s, 2);
      assert forall i :: 0 <= i < |q| - 1 ==> StartsSt(q, i) == StartsSt(s, i);
    }
  }

  lemma TruncatedIsCut(s: Bytes)
    requires s != [] && MoveOf(s).Truncated?
    ensures IsCut(s)
  {
    CsiEndMeans(s, 2);
    OscEndMeans(s, 2);
  }

  function FirstToken(s: Bytes): Token
    requires s != [] && !MoveOf(s).Truncated?
  {
    match MoveOf(s)
    case Erased(n) => Sequence(s[..n])
    case Backspace => Back
    case Kept(k) => if k == 0 then Byte(s[0]) else Newline
  }

  lemma FirstTokenFits(s: Bytes)
    requires s != [] && !MoveOf(s).Truncated?
    ensures var t, rest := FirstToken(s), s[Used(MoveOf(s), s)..];
            Fits(t, rest) && s == t.Spelling() + rest
  {
    if MoveOf(s).Erased? {
      ErasedIsSequence(s);
    }
  }

  lemma {:induction false} Tokenize(s: Bytes) returns (ts: seq<Token>, cut: Bytes)
    ensures Reads(ts, cut) && s == Spell(ts) + cut
    decreases |s|
  {
    if s == [] {
      ts, cut := [], [];
    } else if MoveOf(s).Truncated? {
      TruncatedIsCut(s);
      ts, cut := [], s;
    } else {
      var t, rest := FirstToken(s), s[Used(MoveOf(s), s)..];
      FirstTokenFits(s);
      var ts';
      ts', cut := Tokenize(rest);
      ts := [t] + ts';
      assert ts[1..] == ts';
      Assoc(t.Spelling(), Spell(ts'), cut);
    }
  }

  // ---- stripping, token by token ----

  function Apply(t: Token, out: Bytes): Bytes {
    if t.IsKept() then out + [t.Shown()] else if t.Back? then Init(out) else out
  }

  function Fold(ts: seq<Token>, out: Bytes): Bytes {
    if ts == [] then out else Apply(ts[|ts| - 1], Fold(Init(ts), out))
  }

  lemma {:induction false} FoldFront(t: Token, ts: seq<Token>, out: Bytes)
    ensures Fold([t] + ts, out) == Fold(ts, Apply(t, out))
    decreases |ts|
  {
    var all := [t] + ts;
    if ts == [] {
      assert Init(all) == [];
    } else {
      assert Init(all) == [t] + Init(ts) && all[|all| - 1] == ts[|ts| - 1];
      FoldFront(t, Init(ts), out);
    }
  }

  lemma StripToken(t: Token, rest: Bytes, out: Bytes)
    requires Fits(t, rest)
    ensures Strip(t.Spelling() + rest, out) == Strip(rest, Apply(t, out))
  {
    match t {
      case Sequence(q) => SequenceErased(q, rest, out);
      case Newline => assert (['\r', '\n'] + rest)[2..] == rest;
      case Back => assert ([BS] + rest)[1..] == rest;
      case Byte(c) => KeepFirst(c, rest, out);
    }
  }

  lemma {:induction false} CsiNeverEnds(s: Bytes, j: nat)
    requires j <= |s| && forall i :: j <= i < |s| ==> !IsFinal(s[i])
    ensures CsiEnd(s, j) == |s|
    decreases |s| - j
  {
    if j < |s| {
      CsiNeverEnds(s, j + 1);
    }
  }

  lemma {:induction false} OscNeverEnds(s: Bytes, j: nat)
    requires 2 <= j <= |s| && NoTerminator(s, |s|)
    ensures OscEnd(s, j) == |s|
    decreases |s| - j
  {
    if j < |s| {
      OscNeverEnds(s, j + 1);
    }
  }

  lemma StripCut(s: Bytes, out: Bytes)
    requires IsCut(s)
    ensures Strip(s, out) == out
  {
    if s[1] == '[' {
      CsiNeverEnds(s, 2);
    } else {
      OscNeverEnds(s, 2);
    }
  }

  lemma {:induction false} StripTokens(ts: seq<Token>, cut: Bytes, out: Bytes)
    requires Reads(ts, cut)
    ensures Strip(Spell(ts) + cut, out) == Fold(ts, out)
  {
    if ts == [] {
      assert [] + cut == cut;
      if cut != [] { StripCut(cut, out); }
    } else {
      var rest := Spell(ts[1..]) + cut;
      Assoc(ts[0].Spelling(), Spell(ts[1..]), cut);
      StripToken(ts[0], rest, out);
      StripTokens(ts[1..], cut, Apply(ts[0], out));
      FoldFront(ts[0], ts[1..], out);
      assert [ts[0]] + ts[1..] == ts;
    }
  }

  // ---- which bytes come to stand next to each other ----

  function Depth(ts: seq<Token>): int {
    if ts == [] then 0 else Depth(Init(ts)) + ts[|ts| - 1].Weight()
  }

  /** Backspaces take back nothing from before these tokens. */
  predicate Spares(ts: seq<Token>) {
    ts == [] || (Spares(Init(ts)) && Depth(ts) >= 0)
  }

  /** Nothing is left of these tokens, and nothing from before them is taken back. */
  predicate Vanishes(ts: seq<Token>) {
    Spares(ts) && Depth(ts) == 0
  }

  lemma {:induction false} FoldSpares(ts: seq<Token>, out: Bytes)
    requires Spares(ts)
    ensures |Fold(ts, out)| == |out| + Depth(ts) && out <= Fold(ts, out)
  {
    if ts != [] {
      FoldSpares(Init(ts), out);
    }
  }

  lemma {:induction false} FoldAppend(a: seq<Token>, b: seq<Token>, out: Bytes)
    ensures Fold(a + b, out) == Fold(b, Fold(a, out))
    decreases |b|
  {
    var all := a + b;
    if b == [] {
      assert all == a;
    } else {
      assert Init(all) == a + Init(b) && all[|all| - 1] == b[|b| - 1];
      FoldAppend(a, Init(b), out);
    }
  }

  lemma ApplyKeeps(t: Token, was: Bytes, k: nat)
    requires k < |Apply(t, was)| && !(t.IsKept() && k == |was|)
    ensures k < |was| && Apply(t, was)[k] == was[k] && Apply(t, was)[..k] == was[..k]
    ensures |Apply(t, was)| == |was| + t.Weight()
  {
  }

  lemma OneMore(ts: seq<Token>, i: nat)
    requires i < |ts|
    ensures Depth(ts[i..]) == Depth(Init(ts)[i..]) + ts[|ts| - 1].Weight()
    ensures Spares(ts[i..]) <==> Spares(Init(ts)[i..]) && Depth(ts[i..]) >= 0
  {
    assert Init(ts)[i..] == Init(ts[i..]);
  }

  lemma KeptByLast(ts: seq<Token>)
    requires ts != [] && ts[|ts| - 1].IsKept()
    ensures var n, t := |ts| - 1, Fold(ts, []);
            |t| > 0 && ts[n].Shown() == t[|t| - 1] && Fold(ts[..n], []) == t[..|t| - 1] && ts[n + 1..] == []
  {
  }

  /** The token that a kept byte comes from: everything after it leaves what was kept up to there alone. */
  lemma {:induction false} KeptBy(ts: seq<Token>, k: nat) returns (j: nat)
    requires k < |Fold(ts, [])|
    ensures j < |ts| && ts[j].IsKept() && ts[j].Shown() == Fold(ts, [])[k]
    ensures Fold(ts[..j], []) == Fold(ts, [])[..k]
    ensures Spares(ts[j + 1..]) && Depth(ts[j + 1..]) == |Fold(ts, [])| - k - 1
  {
    var n, init := |ts| - 1, Init(ts);
    if ts[n].IsKept() && k == |Fold(init, [])| {
      j := n;
      KeptByLast(ts);
    } else {
      ApplyKeeps(ts[n], Fold(init, []), k);
      j := KeptBy(init, k);
      assert init[..j] == ts[..j];
      OneMore(ts, j + 1);
    }
  }

  /**
    The input has a byte `x` and a token `y` whose bytes form a pair, and what is between them vanishes: sequences, and
    bytes that are taken back. `x` and `y` themselves are not taken back.
   */
  ghost predicate Clash(s: Bytes, a: seq<Token>, x: char, g: seq<Token>, y: Token, b: seq<Token>, cut: Bytes) {
    && s == Spell(a + [Byte(x)] + g + [y] + b) + cut && Reads(a + [Byte(x)] + g + [y] + b, cut)
    && y.IsKept() && Forms(x, y.Shown()) && Vanishes(g) && Spares(b)
  }

  lemma FoldVanishes(g: seq<Token>, out: Bytes)
    requires Vanishes(g)
    ensures Fold(g, out) == out
  {
    FoldSpares(g, out);
  }

  lemma FoldOfClash(a: seq<Token>, x: char, g: seq<Token>, y: Token, b: seq<Token>)
    requires y.IsKept() && Vanishes(g) && Spares(b)
    ensures Fold(a, []) + [x] + [y.Shown()] <= Fold(a + [Byte(x)] + g + [y] + b, [])
  {
    var ox := Fold(a, []) + [x];
    var ag := a + [Byte(x)] + g;
    FoldOne(a, Byte(x), []);
    FoldAppend(a + [Byte(x)], g, []);
    FoldVanishes(g, ox);
    assert Fold(ag, []) == ox;
    FoldOne(ag, y, []);
    FoldAppend(ag + [y], b, []);
    FoldSpares(b, ox + [y.Shown()]);
  }

  lemma FoldOne(a: seq<Token>, t: Token, out: Bytes)
    ensures Fold(a + [t], out) == Apply(t, Fold(a, out))
  {
    assert Init(a + [t]) == a;
  }

  /** A clash makes a pair in the stripped text. */
  lemma ClashMeets(s: Bytes, a: seq<Token>, x: char, g: seq<Token>, y: Token, b: seq<Token>, cut: Bytes)
    requires Clash(s, a, x, g, y, b, cut)
    ensures Meet(Strip(s, []), |Fold(a, [])|)
  {
    StripTokens(a + [Byte(x)] + g + [y] + b, cut, []);
    FoldOfClash(a, x, g, y, b);
    var o, t := Fold(a, []), Strip(s, []);
    assert t[|o|] == (o + [x] + [y.Shown()])[|o|] && t[|o| + 1] == (o + [x] + [y.Shown()])[|o| + 1];
  }

  /** Every pair in the stripped text comes from a clash. */
  lemma MeetClashes(s: Bytes, k: nat)
    returns (a: seq<Token>, x: char, g: seq<Token>, y: Token, b: seq<Token>, cut: Bytes)
    requires Meet(Strip(s, []), k)
    ensures Clash(s, a, x, g, y, b, cut)
    ensures |Fold(a, [])| == k && x == Strip(s, [])[k] && y.Shown() == Strip(s, [])[k + 1]
  {
    var t := Strip(s, []);
    var ts;
    ts, cut := Tokenize(s);
    StripTokens(ts, cut, []);
    var j := KeptBy(ts, k + 1);
    var i := KeptBy(ts[..j], k);
    assert t[..k + 1][k] == t[k] && t[..k + 1][..k] == t[..k];
    assert ts[..j][i] == Byte(t[k]);
    a, x, g, y, b := ts[..j][..i], t[k], ts[..j][i + 1..], ts[j], ts[j + 1..];
    CutTwice(ts, i, j);
  }

  lemma CutTwice<T>(s: seq<T>, i: nat, j: nat)
    requires i < j < |s|
    ensures s == s[..j][..i] + [s[..j][i]] + s[..j][i + 1..] + [s[j]] + s[j + 1..]
  {
    assert s == s[..j] + [s[j]] + s[j + 1..];
  }

  /** Stripping twice is stripping once exactly when the input has no clash. */
  lemma IdempotentExactly(s: Bytes)
    ensures Strip(Strip(s, []), []) == Strip(s, []) <==>
            !exists a, x, g, y, b, cut :: Clash(s, a, x, g, y, b, cut)
  {
    NoBackspaceLeft(s, []);
    FixedIffNoneMeet(Strip(s, []));
    if k: nat :| Meet(Strip(s, []), k) {
      var a, x, g, y, b, cut := MeetClashes(s, k);
    }
    if a, x, g, y, b, cut :| Clash(s, a, x, g, y, b, cut) {
      ClashMeets(s, a, x, g, y, b, cut);
    }
  }

  lemma {:induction false} ReadsFrom(a: seq<Token>, ts: seq<Token>, cut: Bytes)
    requires Reads(a + ts, cut)
    ensures Reads(ts, cut)
  {
    if a == [] {
      assert a + ts == ts;
    } else {
      assert (a + ts)[1..] == a[1..] + ts;
      ReadsFrom(a[1..], ts, cut);
    }
  }

  lemma NotNeighbours(s: Bytes, a: seq<Token>, x: char, g: seq<Token>, y: Token, b: seq<Token>, cut: Bytes)
    requires Clash(s, a, x, g, y, b, cut)
    ensures g != [] || y == Newline
  {
    if g == [] && y != Newline {
      assert a + [Byte(x)] + g + [y] + b == a + ([Byte(x)] + ([y] + b));
      ReadsFrom(a, [Byte(x)] + ([y] + b), cut);
      assert ([Byte(x)] + ([y] + b))[1..] == [y] + b;
      assert ([y] + b)[0] == y;
      assert Spell([y] + b)[0] == y.c;
      assert false;
    }
  }

  /** Bytes that form a pair in the stripped text were apart in the input: something vanished, or a CR was dropped. */
  lemma MetWereApart(s: Bytes, k: nat)
    requires Meet(Strip(s, []), k)
    ensures exists a, x, g, y, b, cut ::
              && Clash(s, a, x, g, y, b, cut) && (g != [] || y == Newline)
              && |Fold(a, [])| == k && x == Strip(s, [])[k] && y.Shown() == Strip(s, [])[k + 1]
  {
    var a, x, g, y, b, cut := MeetClashes(s, k);
    NotNeighbours(s, a, x, g, y, b, cut);
  }

  // ---- without backspaces ----

  /** Only sequences, and perhaps the CR of a CR LF, stand between the two bytes. */
  ghost predicate PlainClash(s: Bytes, a: seq<Token>, x: char, g: seq<Token>, y: Token, b: seq<Token>, cut: Bytes) {
    && s == Spell(a + [Byte(x)] + g + [y] + b) + cut && Reads(a + [Byte(x)] + g + [y] + b, cut)
    && y.IsKept() && Forms(x, y.Shown()) && forall i :: 0 <= i < |g| ==> g[i].Sequence?
  }

  predicate NoBack(ts: seq<Token>) { forall i :: 0 <= i < |ts| ==> ts[i] != Back }

  lemma {:induction false} SpellNoBack(ts: seq<Token>)
    requires BS !in Spell(ts)
    ensures NoBack(ts)
  {
    if ts != [] {
      assert BS !in ts[0].Spelling() && BS !in Spell(ts[1..]);
      SpellNoBack(ts[1..]);
      assert forall i :: 0 < i < |ts| ==> ts[i] == ts[1..][i - 1];
    }
  }

  lemma {:induction false} DepthNoBack(ts: seq<Token>)
    requires NoBack(ts)
    ensures Spares(ts) && (Depth(ts) == 0 <==> forall i :: 0 <= i < |ts| ==> ts[i].Sequence?)
  {
    if ts != [] {
      var init := Init(ts);
      DepthNoBack(init);
      assert Depth(ts) == 0 ==> Depth(init) == 0 && ts[|ts| - 1].Sequence?;
    }
  }

  lemma NoBackParts(a: seq<Token>, x: Token, g: seq<Token>, y: Token, b: seq<Token>)
    requires NoBack(a + [x] + g + [y] + b)
    ensures NoBack(g) && NoBack(b)
  {
    var ts := a + [x] + g + [y] + b;
    forall i | 0 <= i < |g| ensures g[i] != Back {
      assert ts[|a| + 1 + i] == g[i];
    }
    forall i | 0 <= i < |b| ensures b[i] != Back {
      assert ts[|a| + 1 + |g| + 1 + i] == b[i];
    }
  }

  lemma ClashIsPlain(s: Bytes, a: seq<Token>, x: char, g: seq<Token>, y: Token, b: seq<Token>, cut: Bytes)
    requires BS !in s
    ensures Clash(s, a, x, g, y, b, cut) <==> PlainClash(s, a, x, g, y, b, cut)
  {
    var ts := a + [Byte(x)] + g + [y] + b;
    if s == Spell(ts) + cut {
      SpellNoBack(ts);
      NoBackParts(a, Byte(x), g, y, b);
      DepthNoBack(g);
      DepthNoBack(b);
    }
  }

  /** Without backspaces in the input that is: exactly when no sequences part two bytes that form a pair. */
  lemma IdempotentWithoutBackspace(s: Bytes)
    requires BS !in s
    ensures Strip(Strip(s, []), []) == Strip(s, []) <==>
            !exists a, x, g, y, b, cut :: PlainClash(s, a, x, g, y, b, cut)
  {
    IdempotentExactly(s);
    if a, x, g, y, b, cut :| Clash(s, a, x, g, y, b, cut) {
      ClashIsPlain(s, a, x, g, y, b, cut);
    }
    if a, x, g, y, b, cut :| PlainClash(s, a, x, g, y, b, cut) {
      ClashIsPlain(s, a, x, g, y, b, cut);
    }
  }

  // ---- two inputs ----

  lemma Parted(x: char, q: Bytes, y: Bytes)
    requires IsSequence(q) && x != BS && Strip(y, [x]) == [x] + y
    ensures Strip([x] + (q + y), []) == [x] + y
  {
    KeepFirst(x, q + y, []);
    assert [] + [x] == [x];
    SequenceErased(q, y, [x]);
  }

  lemma TwoPlain(c: char, d: char, out: Bytes)
    requires IsPlainChar(c) && IsPlainChar(d)
    ensures Strip([c, d], out) == out + [c, d]
  {
    KeepFirst(c, [d], out);
    KeepFirst(d, [], out + [c]);
    assert [c] + [d] == [c, d] && [d] + [] == [d];
    assert out + [c] + [d] == out + [c, d];
  }

  /** A kept ESC that meets the bytes after an erased sequence. */
  lemma NotIdempotent()
    ensures var s := [ESC] + ([ESC, '[', 'm'] + ['[', 'm']);
            Strip(s, []) == [ESC, '[', 'm'] && Strip(Strip(s, []), []) == []
  {
    var t := [ESC, '[', 'm'];
    TwoPlain('[', 'm', [ESC]);
    Parted(ESC, t, ['[', 'm']);
    assert [ESC] + ['[', 'm'] == t;
    SequenceErased(t, [], []);
    assert t + [] == t;
  }

  /** A CR that meets the LF after an erased sequence. */
  lemma NewLineAppears()
    ensures var s := ['\r'] + ([ESC, '[', 'm'] + ['\n']);
            Strip(s, []) == ['\r', '\n'] && Strip(Strip(s, []), []) == ['\n']
  {
    KeepFirst('\n', [], ['\r']);
    assert ['\n'] + [] == ['\n'] && ['\r'] + ['\n'] == ['\r', '\n'];
    Parted('\r', [ESC, '[', 'm'], ['\n']);
    assert ['\r', '\n'][2..] == [];
  }
}
