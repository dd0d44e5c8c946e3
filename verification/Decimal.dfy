/** The exit-code line: bytes.TrimSpace, strconv.Atoi and printf's %d. */
module Decimal {
  import opened Bytes

  const MAX_INT: int := 0x7FFF_FFFF_FFFF_FFFF
  const MIN_INT: int := -0x8000_0000_0000_0000

  // ---- bytes.TrimSpace: Unicode white space in its UTF-8 encoding ----

  predicate IsAsciiSpace(c: char) {
    c == '\t' || c == '\n' || c == '\U{0B}' || c == '\U{0C}' || c == '\r' || c == ' '
  }

  /** `s` is the UTF-8 encoding of one white-space rune. */
  predicate IsSpaceRune(s: Bytes) {
    || (|s| == 1 && IsAsciiSpace(s[0]))
    || (|s| == 2 && s[0] == '\U{C2}' && (s[1] == '\U{85}' || s[1] == '\U{A0}'))
    || (|s| == 3 && s[0] == '\U{E1}' && s[1] == '\U{9A}' && s[2] == '\U{80}')
    || (|s| == 3 && s[0] == '\U{E2}' && s[1] == '\U{80}' &&
        ('\U{80}' <= s[2] <= '\U{8A}' || s[2] == '\U{A8}' || s[2] == '\U{A9}' || s[2] == '\U{AF}'))
    || (|s| == 3 && s[0] == '\U{E2}' && s[1] == '\U{81}' && s[2] == '\U{9F}')
    || (|s| == 3 && s[0] == '\U{E3}' && s[1] == '\U{80}' && s[2] == '\U{80}')
  }

  function TrimLeft(s: Bytes): Bytes {
    if |s| >= 1 && IsSpaceRune(s[..1]) then TrimLeft(s[1..])
    else if |s| >= 2 && IsSpaceRune(s[..2]) then TrimLeft(s[2..])
    else if |s| >= 3 && IsSpaceRune(s[..3]) then TrimLeft(s[3..])
    else s
  }

  function TrimRight(s: Bytes): Bytes {
    if |s| >= 1 && IsSpaceRune(s[|s| - 1..]) then TrimRight(s[..|s| - 1])
    else if |s| >= 2 && IsSpaceRune(s[|s| - 2..]) then TrimRight(s[..|s| - 2])
    else if |s| >= 3 && IsSpaceRune(s[|s| - 3..]) then TrimRight(s[..|s| - 3])
    else s
  }

  function TrimSpace(s: Bytes): Bytes {
    TrimRight(TrimLeft(s))
  }

  // ---- strconv.Atoi ----

  predicate IsDigit(c: char) {
    '0' <= c <= '9'
  }

  predicate AllDigits(s: Bytes) {
    forall i :: 0 <= i < |s| ==> IsDigit(s[i])
  }

  function DigitsValue(s: Bytes): nat
    requires AllDigits(s)
  {
    if s == [] then 0
    else 10 * DigitsValue(s[..|s| - 1]) + (s[|s| - 1] as int - '0' as int)
  }

  /** An optional sign and at least one digit, within the 64-bit int range. */
  function Atoi(s: Bytes): Option<int> {
    var signed := s != [] && (s[0] == '+' || s[0] == '-');
    var digits := if signed then s[1..] else s;
    if digits == [] || !AllDigits(digits) then None
    else
      var v: int := if signed && s[0] == '-' then 0 - DigitsValue(digits) else DigitsValue(digits);
      if MIN_INT <= v <= MAX_INT then Some(v) else None
  }

  // ---- printf %d of a non-negative number ----

  function Print(n: nat): (s: Bytes)
    ensures s != [] && AllDigits(s)
  {
    var d := [(n % 10 + '0' as int) as char];
    if n < 10 then d else Print(n / 10) + d
  }

  lemma {:induction false} DigitsOfPrint(n: nat)
    ensures DigitsValue(Print(n)) == n
  {
    var d := [(n % 10 + '0' as int) as char];
    if n < 10 {
      assert Print(n) == d && d[..0] == [];
    } else {
      DigitsOfPrint(n / 10);
      assert Print(n)[..|Print(n)| - 1] == Print(n / 10);
    }
  }

  /** No superfluous zeros. */
  lemma {:induction false} NoLeadingZero(n: nat)
    ensures Print(n)[0] == '0' <==> n == 0
    ensures |Print(n)| == 1 <==> n < 10
  {
    if n >= 10 {
      NoLeadingZero(n / 10);
    }
  }

  lemma DigitStopsTrimLeft(s: Bytes)
    requires s != [] && IsDigit(s[0])
    ensures TrimLeft(s) == s
  {
  }

  lemma DigitIsNotInSpace(s: Bytes, i: nat)
    requires i < |s| && IsDigit(s[i])
    ensures !IsSpaceRune(s)
  {
  }

  lemma DigitStopsTrimRight(s: Bytes)
    requires s != [] && IsDigit(s[|s| - 1])
    ensures TrimRight(s) == s
  {
    forall p: nat | |s| - 3 <= p < |s| ensures !IsSpaceRune(s[p..]) {
      DigitIsNotInSpace(s[p..], |s| - 1 - p);
    }
  }

  lemma DigitsAreTrimmed(s: Bytes)
    requires s != [] && AllDigits(s)
    ensures TrimSpace(s) == s && TrimSpace(s + "\r") == s
  {
    DigitStopsTrimLeft(s);
    DigitStopsTrimRight(s);
    var t := s + "\r";
    DigitStopsTrimLeft(t);
    assert t[|t| - 1..] == "\r" && t[..|t| - 1] == s;
  }

  lemma AtoiOfDigits(s: Bytes)
    requires s != [] && AllDigits(s) && DigitsValue(s) <= MAX_INT
    ensures Atoi(s) == Some(DigitsValue(s))
  {
    assert IsDigit(s[0]);
  }

  /** The exit-code line is read back: what printf's %d wrote, with or without the terminal's CR. */
  lemma {:induction false} ExitCodeRoundTrip(n: nat)
    requires n <= MAX_INT
    ensures Atoi(TrimSpace(Print(n))) == Some(n)
    ensures Atoi(TrimSpace(Print(n) + "\r")) == Some(n)
  {
    DigitsOfPrint(n);
    DigitsAreTrimmed(Print(n));
    AtoiOfDigits(Print(n));
  }

  // ---- what else is and is not read as an exit code ----

  /** `s` is these digits after this sign, and the number is a 64-bit int. */
  predicate Spells(s: Bytes, sign: Bytes, digits: Bytes) {
    && s == sign + digits && sign in {[], "+", "-"} && digits != [] && AllDigits(digits)
    && DigitsValue(digits) <= (if sign == "-" then 0x8000_0000_0000_0000 else 0x7FFF_FFFF_FFFF_FFFF)
  }

  lemma SpelledIsRead(s: Bytes, sign: Bytes, digits: Bytes)
    requires Spells(s, sign, digits)
    ensures Atoi(s) == Some(if sign == "-" then 0 - DigitsValue(digits) else DigitsValue(digits))
  {
    if sign == [] {
      assert s == digits && IsDigit(s[0]);
    } else {
      assert s[0] == sign[0] && s[1..] == digits;
    }
  }

  /** A signed or unsigned decimal number in range is read as what it says, and nothing else is read. */
  lemma AtoiExactly(s: Bytes)
    ensures Atoi(s).Some? <==> exists sign, digits :: Spells(s, sign, digits)
    ensures forall sign, digits :: Spells(s, sign, digits) ==>
              Atoi(s) == Some(if sign == "-" then 0 - DigitsValue(digits) else DigitsValue(digits))
  {
    forall sign, digits | Spells(s, sign, digits)
      ensures Atoi(s) == Some(if sign == "-" then 0 - DigitsValue(digits) else DigitsValue(digits))
    {
      SpelledIsRead(s, sign, digits);
    }
    if Atoi(s).Some? {
      if s[0] == '+' || s[0] == '-' {
        assert s == [s[0]] + s[1..];
        assert Spells(s, [s[0]], s[1..]);
      } else {
        assert s == [] + s;
        assert Spells(s, [], s);
      }
    }
  }

  predicate AllBlank(s: Bytes) {
    forall i :: 0 <= i < |s| ==> s[i] in {'\t', '\n', '\U{0B}', '\U{0C}', '\r', ' '}
  }

  /** A byte that no white space has in it. */
  predicate IsSolid(c: char) {
    '!' <= c <= '~'
  }

  lemma {:induction false} TrimLeftBlanks(a: Bytes, t: Bytes)
    requires AllBlank(a) && t != [] && IsSolid(t[0])
    ensures TrimLeft(a + t) == t
  {
    var s := a + t;
    if a == [] {
      assert s == t;
    } else {
      assert s[..1] == [a[0]] && s[1..] == a[1..] + t;
      TrimLeftBlanks(a[1..], t);
    }
  }

  lemma {:induction false} TrimRightBlanks(t: Bytes, b: Bytes)
    requires AllBlank(b) && t != [] && IsSolid(t[|t| - 1])
    ensures TrimRight(t + b) == t
  {
    var s := t + b;
    if b == [] {
      assert s == t;
      SolidStopsTrimRight(t);
    } else {
      var init := b[..|b| - 1];
      assert s[|s| - 1..] == [b[|b| - 1]] && s[..|s| - 1] == t + init;
      TrimRightBlanks(t, init);
    }
  }

  lemma SolidIsNotInSpace(s: Bytes, i: nat)
    requires i < |s| && IsSolid(s[i])
    ensures !IsSpaceRune(s)
  {
  }

  lemma SolidStopsTrimRight(s: Bytes)
    requires s != [] && IsSolid(s[|s| - 1])
    ensures TrimRight(s) == s
  {
    forall p: nat | |s| - 3 <= p < |s| ensures !IsSpaceRune(s[p..]) {
      SolidIsNotInSpace(s[p..], |s| - 1 - p);
    }
  }

  /** Blanks around a text are trimmed, the text is not. */
  lemma BlanksAreTrimmed(a: Bytes, t: Bytes, b: Bytes)
    requires AllBlank(a) && AllBlank(b) && t != [] && IsSolid(t[0]) && IsSolid(t[|t| - 1])
    ensures TrimSpace(a + (t + b)) == t
  {
    assert (t + b)[0] == t[0];
    TrimLeftBlanks(a, t + b);
    TrimRightBlanks(t, b);
  }
}
