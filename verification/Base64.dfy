/** Base64 with padding (section 4 of RFC 4648) as the file transfers use it: whole, in pieces, and line-wrapped. */
module Base64 {
  import opened Bytes

  type Octet = x: int | 0 <= x < 256

  /** The character for a six-bit value. */
  function Symbol(v: int): (c: char)
    requires 0 <= v < 64
    ensures Value(c) == Some(v) && c != '=' && c != '\r' && c != '\n'
  {
    if v < 26 then (65 + v) as char
    else if v < 52 then (97 + v - 26) as char
    else if v < 62 then (48 + v - 52) as char
    else if v == 62 then '+'
    else '/'
  }

  /** The six-bit value of a character, if it is one of the alphabet. */
  function Value(c: char): (v: Option<int>)
    ensures v.Some? ==> 0 <= v.value < 64
  {
    if 'A' <= c <= 'Z' then Some(c as int - 65)
    else if 'a' <= c <= 'z' then Some(c as int - 97 + 26)
    else if '0' <= c <= '9' then Some(c as int - 48 + 52)
    else if c == '+' then Some(62)
    else if c == '/' then Some(63)
    else None
  }

  function Quad(a: Octet, b: Octet, c: Octet): (q: Bytes)
    ensures |q| == 4
  {
    [Symbol(a / 4), Symbol(a % 4 * 16 + b / 16), Symbol(b % 16 * 4 + c / 64), Symbol(c % 64)]
  }

  /** The last group: one or two octets, padded. */
  function Tail(s: seq<Octet>): (q: Bytes)
    requires 1 <= |s| <= 2
    ensures |q| == 4
  {
    if |s| == 1 then [Symbol(s[0] / 4), Symbol(s[0] % 4 * 16), '=', '=']
    else [Symbol(s[0] / 4), Symbol(s[0] % 4 * 16 + s[1] / 16), Symbol(s[1] % 16 * 4), '=']
  }

  function Encode(s: seq<Octet>): (e: Bytes)
    ensures |e| == (|s| + 2) / 3 * 4
  {
    if s == [] then []
    else if |s| < 3 then Tail(s)
    else Quad(s[0], s[1], s[2]) + Encode(s[3..])
  }

  /** One group of four characters without padding. */
  function ReadQuad(q: Bytes): (r: Option<seq<Octet>>)
    requires |q| == 4
  {
    match (Value(q[0]), Value(q[1]), Value(q[2]), Value(q[3]))
    case (Some(a), Some(b), Some(c), Some(d)) => Some([a * 4 + b / 16, b % 16 * 16 + c / 4, c % 4 * 64 + d])
    case _ => None
  }

  /** One group of four characters with one or two signs of padding. */
  function ReadTail(q: Bytes): (r: Option<seq<Octet>>)
    requires |q| == 4 && q[3] == '='
  {
    match (Value(q[0]), Value(q[1]), Value(q[2]))
    case (Some(a), Some(b), Some(c)) => Some([a * 4 + b / 16, b % 16 * 16 + c / 4])
    case (Some(a), Some(b), None) => if q[2] == '=' then Some([a * 4 + b / 16]) else None
    case _ => None
  }

  /** Padding is required, and nothing may follow it. */
  function DecodeGroups(e: Bytes): (r: Option<seq<Octet>>)
    ensures |e| % 4 != 0 ==> r == None
  {
    if e == [] then Some([])
    else if |e| < 4 then None
    else if e[3] == '=' then (if |e| == 4 then ReadTail(e) else None)
    else
      match (ReadQuad(e[..4]), DecodeGroups(e[4..]))
      case (Some(first), Some(rest)) => Some(first + rest)
      case _ => None
  }

  function WithoutNewlines(e: Bytes): (r: Bytes)
    ensures '\n' !in r && '\r' !in r
  {
    if e == [] then []
    else (if e[0] == '\n' || e[0] == '\r' then [] else [e[0]]) + WithoutNewlines(e[1..])
  }

  /** Decoders skip CR and LF wherever they stand. */
  function Decode(e: Bytes): Option<seq<Octet>> {
    DecodeGroups(WithoutNewlines(e))
  }

  // ---- the alphabet ----

  /** Table 1 of RFC 4648: four runs of neighbouring characters, and the last two. */
  lemma AlphabetInOrder(v: int)
    requires 0 <= v < 64
    ensures Symbol(0) == 'A' && Symbol(25) == 'Z' && Symbol(26) == 'a' && Symbol(51) == 'z'
    ensures Symbol(52) == '0' && Symbol(61) == '9' && Symbol(62) == '+' && Symbol(63) == '/'
    ensures v !in {25, 51, 61, 62, 63} ==> Symbol(v + 1) as int == Symbol(v) as int + 1
  {
  }

  /** The octet at `i`, or zero after the end. */
  function OctetAt(s: seq<Octet>, i: nat): Octet { if i < |s| then s[i] else 0 }

  /** The 24-bit group that starts at `i`. */
  function Group(s: seq<Octet>, i: nat): int {
    OctetAt(s, i) * 0x1_0000 + OctetAt(s, i + 1) * 0x100 + OctetAt(s, i + 2)
  }

  /** The `j`-th of the four six-bit values of a group. */
  function Sextet(g: int, j: nat): int
    requires j < 4
  {
    (if j == 0 then g / 0x4_0000 else if j == 1 then g / 0x1000 else if j == 2 then g / 0x40 else g) % 0x40
  }

  lemma TopSextet(a: Octet, r: int)
    requires 0 <= r < 0x1_0000
    ensures (a * 0x1_0000 + r) / 0x4_0000 % 0x40 == a / 4
  {
    assert a * 0x1_0000 + r == 0x4_0000 * (a / 4) + (a % 4 * 0x1_0000 + r);
  }

  lemma SecondSextet(a: Octet, b: Octet, c: Octet)
    ensures (a * 0x1_0000 + b * 0x100 + c) / 0x1000 % 0x40 == a % 4 * 16 + b / 16
  {
    var q := a * 16 + b / 16;
    assert a * 0x1_0000 + b * 0x100 + c == 0x1000 * q + (b % 16 * 0x100 + c);
    assert q == 0x40 * (a / 4) + (a % 4 * 16 + b / 16);
  }

  lemma ThirdSextet(h: int, b: Octet, c: Octet)
    requires 0 <= h
    ensures (h * 0x1_0000 + b * 0x100 + c) / 0x40 % 0x40 == b % 16 * 4 + c / 64
  {
    var q := h * 0x400 + b * 4 + c / 64;
    By64(q, c % 64);
    assert h * 0x1_0000 + b * 0x100 + c == 0x40 * q + c % 64;
    By64(h * 16 + b / 16, b % 16 * 4 + c / 64);
    assert q == 0x40 * (h * 16 + b / 16) + (b % 16 * 4 + c / 64);
  }

  lemma By64(q: int, r: int)
    requires 0 <= r < 0x40
    ensures (0x40 * q + r) / 0x40 == q && (0x40 * q + r) % 0x40 == r
  {
  }

  lemma LastSextet(h: int, b: Octet, c: Octet)
    requires 0 <= h
    ensures (h * 0x1_0000 + b * 0x100 + c) % 0x40 == c % 64
  {
    By64(h * 0x400 + b * 4 + c / 64, c % 64);
    assert h * 0x1_0000 + b * 0x100 + c == 0x40 * (h * 0x400 + b * 4 + c / 64) + c % 64;
  }

  lemma SextetsOfGroup(a: Octet, b: Octet, c: Octet)
    ensures var g := a * 0x1_0000 + b * 0x100 + c;
            && Sextet(g, 0) == a / 4 && Sextet(g, 1) == a % 4 * 16 + b / 16
            && Sextet(g, 2) == b % 16 * 4 + c / 64 && Sextet(g, 3) == c % 64
  {
    TopSextet(a, b * 0x100 + c);
    SecondSextet(a, b, c);
    ThirdSextet(a, b, c);
    LastSextet(a, b, c);
  }

  lemma QuadOfGroup(a: Octet, b: Octet, c: Octet, j: nat)
    requires j < 4
    ensures Quad(a, b, c)[j] == Symbol(Sextet(a * 0x1_0000 + b * 0x100 + c, j))
  {
    SextetsOfGroup(a, b, c);
  }

  lemma TailOfGroup(s: seq<Octet>, j: nat)
    requires 1 <= |s| <= 2 && j < 4
    ensures Tail(s)[j] == if j > |s| then '=' else Symbol(Sextet(Group(s, 0), j))
  {
    SextetsOfGroup(s[0], OctetAt(s, 1), 0);
  }

  lemma LaterGroup(s: seq<Octet>, i: nat)
    requires |s| >= 3
    ensures Group(s[3..], i) == Group(s, i + 3)
  {
  }

  lemma LaterSymbol(s: seq<Octet>, i: nat)
    requires |s| >= 3 && i < |Encode(s[3..])|
    ensures i + 4 < |Encode(s)| && Encode(s)[i + 4] == Encode(s[3..])[i]
  {
    assert Encode(s) == Quad(s[0], s[1], s[2]) + Encode(s[3..]);
  }

  /**
    Section 4 of RFC 4648: each group of three octets is four characters of the alphabet, six bits each from the top,
    and in the last group what stands for no octet is a padding sign.
   */
  lemma {:induction false} EncodesGroups(s: seq<Octet>, q: nat, j: nat)
    requires 3 * q < |s| && j < 4
    ensures 4 * q + j < |Encode(s)|
    ensures Encode(s)[4 * q + j] == if 3 * q + j > |s| then '=' else Symbol(Sextet(Group(s, 3 * q), j))
  {
    if q > 0 {
      EncodesGroups(s[3..], q - 1, j);
      LaterGroup(s, 3 * (q - 1));
      LaterSymbol(s, 4 * (q - 1) + j);
    } else {
      FirstSymbols(s, j);
    }
  }

  lemma FirstSymbols(s: seq<Octet>, j: nat)
    requires s != [] && j < 4
    ensures Encode(s)[j] == if j > |s| then '=' else Symbol(Sextet(Group(s, 0), j))
  {
    if |s| < 3 {
      TailOfGroup(s, j);
    } else {
      QuadOfGroup(s[0], s[1], s[2], j);
      assert Encode(s) == Quad(s[0], s[1], s[2]) + Encode(s[3..]);
    }
  }

  // ---- round trip ----

  lemma QuadRoundTrip(a: Octet, b: Octet, c: Octet)
    ensures ReadQuad(Quad(a, b, c)) == Some([a, b, c])
  {
    SextetsRoundTrip(a, b, c);
  }

  lemma SextetsRoundTrip(a: Octet, b: Octet, c: Octet)
    ensures a / 4 * 4 + (a % 4 * 16 + b / 16) / 16 == a
    ensures (a % 4 * 16 + b / 16) % 16 * 16 + (b % 16 * 4 + c / 64) / 4 == b
    ensures (b % 16 * 4 + c / 64) % 4 * 64 + c % 64 == c
  {
  }

  lemma OneOctetRoundTrip(a: Octet)
    ensures ReadTail([Symbol(a / 4), Symbol(a % 4 * 16), '=', '=']) == Some([a])
  {
    SextetsRoundTrip(a, 0, 0);
  }

  lemma TwoOctetsRoundTrip(a: Octet, b: Octet)
    ensures ReadTail([Symbol(a / 4), Symbol(a % 4 * 16 + b / 16), Symbol(b % 16 * 4), '=']) == Some([a, b])
  {
    SextetsRoundTrip(a, b, 0);
  }

  lemma TailRoundTrip(s: seq<Octet>)
    requires 1 <= |s| <= 2
    ensures ReadTail(Tail(s)) == Some(s)
  {
    if |s| == 1 {
      OneOctetRoundTrip(s[0]);
      assert s == [s[0]];
    } else {
      TwoOctetsRoundTrip(s[0], s[1]);
      assert s == [s[0], s[1]];
    }
  }

  lemma {:induction false} GroupsRoundTrip(s: seq<Octet>)
    ensures DecodeGroups(Encode(s)) == Some(s)
  {
    if s == [] {
    } else if |s| < 3 {
      TailRoundTrip(s);
    } else {
      QuadRoundTrip(s[0], s[1], s[2]);
      GroupsRoundTrip(s[3..]);
      FirstGroup(Quad(s[0], s[1], s[2]), Encode(s[3..]));
      assert [s[0], s[1], s[2]] + s[3..] == s;
    }
  }

  lemma FirstGroup(q: Bytes, rest: Bytes)
    requires |q| == 4
    ensures (q + rest)[..4] == q && (q + rest)[4..] == rest && (q + rest)[3] == q[3]
  {
  }

  lemma {:induction false} NoNewlinesToSkip(e: Bytes)
    requires '\n' !in e && '\r' !in e
    ensures WithoutNewlines(e) == e
  {
    if e != [] {
      NoNewlinesToSkip(e[1..]);
    }
  }

  lemma {:induction false} EncodedHasNoNewlines(s: seq<Octet>)
    ensures '\n' !in Encode(s) && '\r' !in Encode(s)
  {
    if |s| >= 3 {
      EncodedHasNoNewlines(s[3..]);
    }
  }

  /** Decoding undoes encoding however the text was wrapped on the way. */
  lemma WrappedRoundTrip(s: seq<Octet>, wrapped: Bytes)
    requires WithoutNewlines(wrapped) == Encode(s)
    ensures Decode(wrapped) == Some(s)
  {
    GroupsRoundTrip(s);
  }

  function TrimNewlines(e: Bytes): (r: Bytes)
    ensures r <= e && (r == [] || r[|r| - 1] != '\n')
  {
    if e != [] && e[|e| - 1] == '\n' then TrimNewlines(e[..|e| - 1]) else e
  }

  lemma {:induction false} WithoutNewlinesSnoc(e: Bytes, c: char)
    ensures WithoutNewlines(e + [c]) == WithoutNewlines(e) + (if c == '\n' || c == '\r' then [] else [c])
  {
    if e == [] {
      assert e + [c] == [c] && [c][1..] == [];
    } else {
      WithoutNewlinesSnoc(e[1..], c);
      RestOfSnoc(e, c);
      Assoc(if e[0] == '\n' || e[0] == '\r' then [] else [e[0]], WithoutNewlines(e[1..]),
            if c == '\n' || c == '\r' then [] else [c]);
    }
  }

  lemma RestOfSnoc(e: Bytes, c: char)
    requires e != []
    ensures (e + [c])[0] == e[0] && (e + [c])[1..] == e[1..] + [c]
  {
  }

  lemma {:induction false} TrimmingSkipsOnlyNewlines(e: Bytes)
    ensures WithoutNewlines(TrimNewlines(e)) == WithoutNewlines(e)
  {
    if e != [] && e[|e| - 1] == '\n' {
      TrimmingSkipsOnlyNewlines(e[..|e| - 1]);
      WithoutNewlinesSnoc(e[..|e| - 1], '\n');
      InitLast(e);
    }
  }

  /** Reading a file: whatever way the remote wrapped and ended the text, the data comes back. */
  lemma ReadRoundTrip(s: seq<Octet>, output: Bytes)
    requires WithoutNewlines(output) == Encode(s)
    ensures Decode(TrimNewlines(output)) == Some(s)
  {
    TrimmingSkipsOnlyNewlines(output);
    WrappedRoundTrip(s, TrimNewlines(output));
  }

  lemma RoundTrip(s: seq<Octet>)
    ensures Decode(Encode(s)) == Some(s)
  {
    EncodedHasNoNewlines(s);
    NoNewlinesToSkip(Encode(s));
    WrappedRoundTrip(s, Encode(s));
  }

  // ---- in pieces ----

  /** The text in pieces of `k` characters, the last one possibly shorter. */
  function Pieces(e: Bytes, k: nat): (ps: seq<Bytes>)
    requires k > 0
    ensures e != [] ==> ps != [] && ps[0] == e[..Min(k, |e|)]
  {
    if e == [] then []
    else if |e| <= k then [e]
    else [e[..k]] + Pieces(e[k..], k)
  }

  /** Decoding each piece on its own and joining the results. */
  function DecodeEach(ps: seq<Bytes>): Option<seq<Octet>> {
    if ps == [] then Some([])
    else
      match (Decode(ps[0]), DecodeEach(ps[1..]))
      case (Some(first), Some(rest)) => Some(first + rest)
      case _ => None
  }

  lemma ConcatSingle(c: Bytes)
    ensures Concat([c]) == c
  {
    ConcatSnoc([], c);
    assert [] + [c] == [c];
  }

  lemma {:induction false} PiecesJoin(e: Bytes, k: nat)
    requires k > 0
    ensures Concat(Pieces(e, k)) == e
  {
    if |e| > k {
      PiecesJoin(e[k..], k);
      ConcatAppend([e[..k]], Pieces(e[k..], k));
      ConcatSingle(e[..k]);
    } else if e != [] {
      ConcatSingle(e);
    }
  }

  /** Text staged in pieces of any size and decoded once, as a request to the agent is. */
  lemma StagedTextRoundTrip(s: seq<Octet>, k: nat)
    requires k > 0
    ensures Decode(Concat(Pieces(Encode(s), k))) == Some(s)
  {
    PiecesJoin(Encode(s), k);
    RoundTrip(s);
  }

  lemma DropThree(a: seq<Octet>, b: seq<Octet>)
    requires |a| >= 3
    ensures (a + b)[3..] == a[3..] + b
    ensures (a + b)[0] == a[0] && (a + b)[1] == a[1] && (a + b)[2] == a[2]
  {
  }

  lemma {:induction false} EncodeAppend(a: seq<Octet>, b: seq<Octet>)
    requires |a| % 3 == 0
    ensures Encode(a + b) == Encode(a) + Encode(b)
  {
    if a == [] {
      assert a + b == b;
    } else {
      EncodeAppend(a[3..], b);
      DropThree(a, b);
      Assoc(Quad(a[0], a[1], a[2]), Encode(a[3..]), Encode(b));
    }
  }

  lemma GroupsLength(s: seq<Octet>, q: nat)
    requires |s| == 3 * q
    ensures |Encode(s)| == 4 * q && |s| % 3 == 0
  {
  }

  lemma {:induction false} CutAppended(a: seq<Octet>, b: seq<Octet>, q: nat)
    requires |a| == 3 * q
    ensures 4 * q <= |Encode(a + b)|
    ensures Encode(a + b)[..4 * q] == Encode(a) && Encode(a + b)[4 * q..] == Encode(b)
  {
    GroupsLength(a, q);
    EncodeAppend(a, b);
    DropOfEncoded(Encode(a), Encode(b));
  }

  /** Cutting the text after `q` groups cuts the data after `3 * q` octets. */
  lemma {:induction false} CutEncoded(s: seq<Octet>, q: nat)
    requires 3 * q <= |s|
    ensures 4 * q <= |Encode(s)|
    ensures Encode(s)[..4 * q] == Encode(s[..3 * q]) && Encode(s)[4 * q..] == Encode(s[3 * q..])
  {
    CutAppended(s[..3 * q], s[3 * q..], q);
    assert s[..3 * q] + s[3 * q..] == s;
  }

  lemma DropOfEncoded(a: Bytes, b: Bytes)
    ensures (a + b)[..|a|] == a && (a + b)[|a|..] == b
  {
  }

  /** Text that fits one piece. */
  lemma SmallDecodes(s: seq<Octet>, k: nat)
    requires k > 0 && |Encode(s)| <= k
    ensures DecodeEach(Pieces(Encode(s), k)) == Some(s)
  {
    RoundTrip(s);
    if s != [] {
      OnePieceDecodes(Encode(s), s);
    }
  }

  lemma {:induction false} WholeGroupsDecode(s: seq<Octet>, q: nat)
    requires q > 0
    ensures DecodeEach(Pieces(Encode(s), 4 * q)) == Some(s)
    decreases |s|
  {
    if |Encode(s)| <= 4 * q {
      SmallDecodes(s, 4 * q);
    } else {
      WholeGroupsDecode(s[3 * q..], q);
      GroupsThenRest(s[..3 * q], s[3 * q..], q);
      assert s[..3 * q] + s[3 * q..] == s;
    }
  }

  lemma {:induction false} GroupsThenRest(a: seq<Octet>, b: seq<Octet>, q: nat)
    requires q > 0 && |a| == 3 * q && 4 * q < |Encode(a + b)|
    requires DecodeEach(Pieces(Encode(b), 4 * q)) == Some(b)
    ensures DecodeEach(Pieces(Encode(a + b), 4 * q)) == Some(a + b)
  {
    CutAppended(a, b, q);
    RoundTrip(a);
    FirstThenRest(Encode(a + b), 4 * q, a, b);
  }

  lemma FirstThenRest(e: Bytes, k: nat, first: seq<Octet>, rest: seq<Octet>)
    requires 0 < k < |e| && Decode(e[..k]) == Some(first) && DecodeEach(Pieces(e[k..], k)) == Some(rest)
    ensures DecodeEach(Pieces(e, k)) == Some(first + rest)
  {
    FirstPieceDecodes(e, k);
  }

  lemma OnePieceDecodes(e: Bytes, s: seq<Octet>)
    requires Decode(e) == Some(s)
    ensures DecodeEach([e]) == Some(s)
  {
    assert [e][1..] == [];
    assert s + [] == s;
  }

  lemma FirstPieceDecodes(e: Bytes, k: nat)
    requires 0 < k < |e|
    ensures Pieces(e, k)[0] == e[..k] && Pieces(e, k)[1..] == Pieces(e[k..], k)
  {
  }

  /**
    Decoding piece by piece gives the data back exactly when every piece but the last is made of whole groups:
    the piece size is a multiple of four, or there is only one piece.
   */
  lemma {:induction false} PiecewiseExactly(s: seq<Octet>, k: nat)
    requires k > 0
    ensures DecodeEach(Pieces(Encode(s), k)) == Some(s) <==> k % 4 == 0 || |Encode(s)| <= k
    ensures DecodeEach(Pieces(Encode(s), k)) in {Some(s), None}
  {
    if k % 4 == 0 {
      var q := k / 4;
      assert k == 4 * q;
      WholeGroupsDecode(s, q);
    } else if |Encode(s)| <= k {
      SmallDecodes(s, k);
    } else {
      EncodedHasNoNewlines(s);
      BrokenGroupFails(Encode(s), k);
    }
  }

  /** A first piece that stops inside a group does not decode. */
  lemma BrokenGroupFails(e: Bytes, k: nat)
    requires 0 < k < |e| && k % 4 != 0 && '\n' !in e && '\r' !in e
    ensures Decode(e[..k]) == None && DecodeEach(Pieces(e, k)) == None
  {
    NoNewlinesToSkip(e[..k]);
    FirstPieceDecodes(e, k);
  }
}
