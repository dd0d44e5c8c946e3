/** What a terminal does to line endings, and its undoing (pkg/session/ansi.go). */
module Terminal {
  import opened Bytes

  /** The ONLCR translation: LF becomes CR LF. */
  function Crlf(s: Bytes): Bytes {
    if s == [] then [] else (if s[0] == '\n' then ['\r', '\n'] else [s[0]]) + Crlf(s[1..])
  }

  function Tty(s: Bytes, onlcr: bool): Bytes {
    if onlcr then Crlf(s) else s
  }

  lemma {:induction false} CrlfAppend(a: Bytes, b: Bytes)
    ensures Crlf(a + b) == Crlf(a) + Crlf(b)
  {
    if a == [] {
      assert a + b == b;
    } else {
      CrlfAppend(a[1..], b);
      RestOfAppend(a, b);
      Assoc(if a[0] == '\n' then ['\r', '\n'] else [a[0]], Crlf(a[1..]), Crlf(b));
    }
  }

  lemma RestOfAppend(a: Bytes, b: Bytes)
    requires a != []
    ensures (a + b)[0] == a[0] && (a + b)[1..] == a[1..] + b
  {
  }

  lemma {:induction false} CrlfOfLine(a: Bytes)
    requires '\n' !in a
    ensures Crlf(a) == a
  {
    if a != [] {
      CrlfOfLine(a[1..]);
      assert [a[0]] + a[1..] == a;
    }
  }

  lemma CrlfOfPrefix(a: Bytes, b: Bytes)
    requires '\n' !in a
    ensures Crlf(a + b) == a + Crlf(b)
  {
    CrlfOfLine(a);
    CrlfAppend(a, b);
  }

  lemma CrlfOfNewline(b: Bytes)
    ensures Crlf("\n") == "\r\n" && Crlf("\n" + b) == "\r\n" + Crlf(b)
  {
    assert "\n"[1..] == [] && ("\n" + b)[1..] == b;
    assert ['\r', '\n'] + [] == "\r\n";
  }

  lemma CutLine(s: Bytes, nl: nat)
    requires nl < |s| && s[nl] == '\n'
    ensures s == s[..nl] + ("\n" + s[nl + 1..])
  {
    assert s[nl..] == "\n" + s[nl + 1..];
    assert s == s[..nl] + s[nl..];
  }

  /** Line by line. */
  lemma CrlfLine(s: Bytes, nl: nat)
    requires NewlineIndex(s) == nl
    ensures nl < |s| && Crlf(s) == s[..nl] + ("\r\n" + Crlf(s[nl + 1..]))
  {
    CutLine(s, nl);
    CrlfOfNewline(s[nl + 1..]);
    CrlfOfPrefix(s[..nl], "\n" + s[nl + 1..]);
  }

  // ---- back again ----

  /** bytes.ReplaceAll of CR LF by LF. */
  function NormalizeLineEndings(s: Bytes): Bytes {
    if s == [] then []
    else if |s| > 1 && s[0] == '\r' && s[1] == '\n' then ['\n'] + NormalizeLineEndings(s[2..])
    else [s[0]] + NormalizeLineEndings(s[1..])
  }

  lemma NormalizeFirst(c: char, rest: Bytes)
    requires rest == [] || rest[0] != '\n'
    ensures NormalizeLineEndings([c] + rest) == [c] + NormalizeLineEndings(rest)
    ensures NormalizeLineEndings(['\r', '\n'] + rest) == ['\n'] + NormalizeLineEndings(rest)
  {
    assert ([c] + rest)[1..] == rest && (['\r', '\n'] + rest)[2..] == rest;
  }

  /** It undoes the translation, whatever the text. */
  lemma {:induction false} NormalizeUndoesTty(s: Bytes)
    ensures NormalizeLineEndings(Crlf(s)) == s
  {
    if s != [] {
      NormalizeUndoesTty(s[1..]);
      NormalizeFirst(s[0], Crlf(s[1..]));
      assert [s[0]] + s[1..] == s;
    }
  }
}
