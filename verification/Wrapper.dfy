/** wrapCommand, and what the shell makes of the text it returns. */
module Wrapper {
  import opened Bytes
  import opened Decimal
  import opened Framing
  import opened Shell

  function StdinDelimiter(nonce: Bytes): Bytes { "__PR_STDIN_" + nonce + "__" }

  /** 'a'$name'b' */
  function FormatWord(a: Bytes, name: Bytes, b: Bytes): Bytes { "'" + a + "'$" + name + "'" + b + "'" }

  /** '\n__PR_BEG_'$__PR_N'__\n' */
  const BEG_WORD: Bytes := FormatWord("\\n__PR_BEG_", "__PR_N", "__\\n")

  /** '\n__PR_END_'$__PR_N'__:%d\n' */
  const END_WORD: Bytes := FormatWord("\\n__PR_END_", "__PR_N", "__:%d\\n")

  const RC_WORD: Bytes := "\"$__PR_RC\""

  const BEG_PRINTF: Bytes := "printf " + BEG_WORD

  const END_PRINTF: Bytes := "printf " + END_WORD + " " + RC_WORD

  /** The bytes a here-document delivers: `stdin`, its last line completed. */
  function Completed(stdin: Bytes): Bytes {
    if stdin != [] && stdin[|stdin| - 1] != '\n' then stdin + "\n" else stdin
  }

  /** The text sent for `cmd`; None when stdin contains the here-document delimiter. */
  function WrapCommand(cmd: Bytes, stdin: Bytes, nonce: Bytes): Option<Bytes> {
    var hd := StdinDelimiter(nonce);
    if stdin != [] && Index(stdin, hd) >= 0 then None
    else Some("__PR_N=" + (nonce + ("; " + (BEG_PRINTF + ("; " + BraceGroup(cmd, stdin, hd))))))
  }

  function BraceGroup(cmd: Bytes, stdin: Bytes, hd: Bytes): Bytes {
    "{ " + (cmd + ("\n}" + AfterGroup(stdin, hd)))
  }

  function AfterGroup(stdin: Bytes, hd: Bytes): Bytes {
    if stdin != [] then " <<'" + (hd + ("'\n" + (Completed(stdin) + (hd + ("\n" + Epilogue())))))
    else "; " + Epilogue()
  }

  function Epilogue(): Bytes { "__PR_RC=$?; " + (END_PRINTF + "\n") }

  /** A nonce as newNonce makes it: hex digits. */
  predicate IsHex(nonce: Bytes) {
    nonce != [] && forall i :: 0 <= i < |nonce| ==> '0' <= nonce[i] <= '9' || 'a' <= nonce[i] <= 'f'
  }

  /** What the wrapper prints around the command's output. */
  function Frame(nonce: Bytes, output: Bytes, code: nat): Bytes {
    "\n" + BegMarker(nonce) + "\n" + output + "\n" + EndMarker(nonce) + Print(code) + "\n"
  }

  // ---- the shell reads each statement ----

  lemma ReadToEnd(rest: Bytes, env: Env, acc: Bytes)
    requires Ends(rest)
    ensures ReadWord(rest, env, Unquoted, acc) == Word(acc, rest)
  {
  }

  lemma FormatShape(a: Bytes, name: Bytes, b: Bytes, rest: Bytes)
    ensures FormatWord(a, name, b) + rest == "'" + a + "'" + ("$" + name + ("'" + b + "'" + rest))
  {
  }

  /** A word of two quoted parts with a parameter between them. */
  lemma ReadFormat(a: Bytes, name: Bytes, b: Bytes, rest: Bytes, env: Env)
    requires '\'' !in a && '\'' !in b && Ends(rest)
    requires name != [] && AllNameChars(name) && AllNameChars(Value(env, name))
    ensures ReadWord(FormatWord(a, name, b) + rest, env, Unquoted, []) == Word(a + Value(env, name) + b, rest)
  {
    var r1 := "'" + b + "'" + rest;
    FormatShape(a, name, b, rest);
    ReadQuoted(a, "$" + name + r1, env, []);
    assert [] + a == a;
    ReadParameter(name, r1, env, Unquoted, a);
    ReadQuoted(b, rest, env, a + Value(env, name));
    ReadToEnd(rest, env, a + Value(env, name) + b);
  }

  lemma AssignmentParts(name: Bytes, after: Bytes)
    requires name != [] && AllNameChars(name)
    ensures var s := name + ("=" + after);
            && NameLength(s) == |name| < |s| && s[0] == name[0] && s[|name|] == '='
            && s[..|name|] == name && s[|name| + 1..] == after
  {
    NameStops(name, "=" + after);
  }

  lemma RunAssignment(name: Bytes, text: Bytes, v: Bytes, rest: Bytes, m: Machine, cmd: Bytes, run: Program)
    requires name != [] && AllNameChars(name)
    requires ReadWord(text + (";" + rest), m.env, Unquoted, []) == Word(v, ";" + rest)
    ensures Exec(name + ("=" + (text + (";" + rest))), m, cmd, run) ==
            Exec(rest, m.Set(name, v).Finish([], 0), cmd, run)
  {
    var s := name + ("=" + (text + (";" + rest)));
    AssignmentParts(name, text + (";" + rest));
    AssignmentStatement(name, text + (";" + rest), v, ";" + rest, m, cmd, run);
    RunStatement(s, ";" + rest, m, m.Set(name, v).Finish([], 0), cmd, run);
    assert (";" + rest)[1..] == rest;
  }

  lemma AssignmentStatement(name: Bytes, text: Bytes, v: Bytes, rest: Bytes, m: Machine, cmd: Bytes, run: Program)
    requires name != [] && AllNameChars(name) && ReadWord(text, m.env, Unquoted, []) == Word(v, rest)
    ensures Statement(name + ("=" + text), m, cmd, run) == Some((m.Set(name, v).Finish([], 0), rest))
  {
    AssignmentParts(name, text);
  }

  lemma RunStatement(s: Bytes, rest: Bytes, m: Machine, m': Machine, cmd: Bytes, run: Program)
    requires s != [] && !IsBlank(s[0]) && s[0] != '\n'
    requires Statement(s, m, cmd, run) == Some((m', rest)) && rest != [] && EndsStatement(rest)
    ensures Exec(s, m, cmd, run) == Exec(rest[1..], m', cmd, run)
  {
  }

  lemma FirstWord(word: Bytes, v: Bytes, rest: Bytes, env: Env)
    requires word != [] && !EndsStatement(word) && !IsBlank(word[0])
    requires ReadWord(word + rest, env, Unquoted, []) == Word(v, rest)
    ensures Arguments(" " + (word + rest), env) == Arguments(word + rest, env)
    ensures Arguments(word + rest, env) ==
      match Arguments(rest, env) case None => None case Some((ws, end)) => Some(([v] + ws, end))
  {
    assert (" " + (word + rest))[1..] == word + rest;
    assert (word + rest)[0] == word[0];
  }

  lemma PrintfIsWord(rest: Bytes, env: Env)
    requires Ends(rest)
    ensures ReadWord("printf" + rest, env, Unquoted, []) == Word("printf", rest)
  {
    ReadPlain("printf", rest, env, []);
    assert [] + "printf" == "printf";
    ReadToEnd(rest, env, "printf");
  }

  /** printf with a format and no arguments, ended by `;`. */
  lemma RunPrintf(f: Bytes, format: Bytes, rest: Bytes, text: Bytes, m: Machine, cmd: Bytes, run: Program)
    requires f != [] && f[0] == '\'' && ReadWord(f + (";" + rest), m.env, Unquoted, []) == Word(format, ";" + rest)
    requires Printf(format, []) == Some(text)
    ensures Exec("printf" + (" " + (f + (";" + rest))), m, cmd, run) == Exec(rest, m.Finish(text, 0), cmd, run)
  {
    var args := " " + (f + (";" + rest));
    PrintfIsWord(args, m.env);
    FirstWord("printf", "printf", args, m.env);
    FirstWord(f, format, ";" + rest, m.env);
    assert Arguments(";" + rest, m.env) == Some(([], ";" + rest));
    assert [format] + [] == [format];
    var words := ["printf"] + [format];
    assert words[1] == format && words[2..] == [];
    RunSimple("printf" + args, words, ";" + rest, text, m, cmd, run);
    assert (";" + rest)[1..] == rest;
  }

  /** printf with a format and one argument, ending the script. */
  lemma RunPrintf1(f: Bytes, format: Bytes, a: Bytes, arg: Bytes, text: Bytes, m: Machine, cmd: Bytes, run: Program)
    requires f != [] && f[0] == '\'' && a != [] && a[0] == '"'
    requires ReadWord(f + (" " + (a + "\n")), m.env, Unquoted, []) == Word(format, " " + (a + "\n"))
    requires ReadWord(a + "\n", m.env, Unquoted, []) == Word(arg, "\n")
    requires Printf(format, [arg]) == Some(text)
    ensures Exec("printf" + (" " + (f + (" " + (a + "\n")))), m, cmd, run) == Some(m.Finish(text, 0))
  {
    var tail := " " + (a + "\n");
    PrintfIsWord(" " + (f + tail), m.env);
    FirstWord("printf", "printf", " " + (f + tail), m.env);
    FirstWord(f, format, tail, m.env);
    FirstWord(a, arg, "\n", m.env);
    assert Arguments("\n", m.env) == Some(([], "\n"));
    assert [arg] + [] == [arg];
    var words := ["printf"] + ([format] + [arg]);
    assert words[0] == "printf" && words[1] == format && words[2..] == [arg];
    RunSimple("printf" + (" " + (f + tail)), words, "\n", text, m, cmd, run);
    assert "\n"[1..] == [];
  }

  lemma RunSimple(s: Bytes, words: seq<Bytes>, rest: Bytes, text: Bytes, m: Machine, cmd: Bytes, run: Program)
    requires StartsWith(s, "printf ") && Arguments(s, m.env) == Some((words, rest))
    requires |words| >= 2 && words[0] == "printf" && Printf(words[1], words[2..]) == Some(text)
    requires rest != [] && EndsStatement(rest)
    ensures Exec(s, m, cmd, run) == Exec(rest[1..], m.Finish(text, 0), cmd, run)
  {
    assert s[0] == 'p' == s[..7][0] && s[6] == s[..7][6] == ' ';
    NameStops("printf", s[6..]);
    assert s == "printf" + s[6..];
    assert s[..2][0] == s[0];
    assert NameLength(s) == 6;
  }

  lemma HexIsPlain(nonce: Bytes)
    requires IsHex(nonce)
    ensures AllPlain(nonce) && AllNameChars(nonce)
    ensures forall i :: 0 <= i < |nonce| ==> nonce[i] != '\\' && nonce[i] != '%'
    ensures '\n' !in nonce && '\'' !in nonce
  {
  }

  lemma SkipBlank(rest: Bytes, m: Machine, cmd: Bytes, run: Program)
    ensures Exec(" " + rest, m, cmd, run) == Exec(rest, m, cmd, run)
  {
    assert (" " + rest)[1..] == rest;
  }

  // ---- the statements of the wrapper ----

  function AfterNonce(m: Machine, nonce: Bytes): Machine { m.Set("__PR_N", nonce).Finish([], 0) }

  lemma RunNonce(nonce: Bytes, rest: Bytes, m: Machine, cmd: Bytes, run: Program)
    requires IsHex(nonce)
    ensures Exec("__PR_N=" + (nonce + ("; " + rest)), m, cmd, run) == Exec(rest, AfterNonce(m, nonce), cmd, run)
  {
    ReadNonce(nonce, " " + rest, m.env);
    RunAssignment("__PR_N", nonce, nonce, " " + rest, m, cmd, run);
    NonceShape(nonce, rest);
    SkipBlank(rest, AfterNonce(m, nonce), cmd, run);
  }

  lemma ReadNonce(nonce: Bytes, rest: Bytes, env: Env)
    requires IsHex(nonce)
    ensures ReadWord(nonce + (";" + rest), env, Unquoted, []) == Word(nonce, ";" + rest)
  {
    HexIsPlain(nonce);
    ReadPlain(nonce, ";" + rest, env, []);
    assert [] + nonce == nonce;
    ReadToEnd(";" + rest, env, nonce);
  }

  lemma NonceShape(nonce: Bytes, rest: Bytes)
    ensures "__PR_N=" + (nonce + ("; " + rest)) == "__PR_N" + ("=" + (nonce + (";" + (" " + rest))))
  {
    assert "; " + rest == ";" + (" " + rest);
  }

  lemma BegFormat(nonce: Bytes)
    requires IsHex(nonce)
    ensures Printf("\\n__PR_BEG_" + nonce + "__\\n", []) == Some("\n" + BegMarker(nonce) + "\n")
  {
    HexIsPlain(nonce);
    var t := BegMarker(nonce);
    PrintfLastNewline([]);
    PrintfText(t, "\\n", []);
    PrintfNewline(t + "\\n", []);
    assert "\\n__PR_BEG_" + nonce + "__\\n" == "\\n" + (t + "\\n");
    Assoc("\n", t, "\n");
  }

  lemma EndFormat(nonce: Bytes, code: nat)
    requires IsHex(nonce)
    ensures Printf("\\n__PR_END_" + nonce + "__:%d\\n", [Print(code)]) ==
            Some("\n" + EndMarker(nonce) + Print(code) + "\n")
  {
    HexIsPlain(nonce);
    var t := EndMarker(nonce);
    PrintfCode(code);
    PrintfText(t, "%d" + "\\n", [Print(code)]);
    PrintfNewline(t + ("%d" + "\\n"), [Print(code)]);
    EndFormatShape(nonce);
    EndTextShape(t, Print(code));
  }

  lemma PrintfCode(code: nat)
    ensures Printf("%d" + "\\n", [Print(code)]) == Some(Print(code) + "\n")
  {
    PrintfLastNewline([]);
    PrintfNumber(code, "\\n", []);
    assert [Print(code)] + [] == [Print(code)];
  }

  lemma EndFormatShape(nonce: Bytes)
    ensures "\\n__PR_END_" + nonce + "__:%d\\n" == "\\n" + (EndMarker(nonce) + ("%d" + "\\n"))
  {
  }

  lemma EndTextShape(t: Bytes, n: Bytes)
    ensures "\n" + (t + (n + "\n")) == "\n" + t + n + "\n"
  {
  }

  lemma PrintfLastNewline(args: seq<Bytes>)
    requires args == []
    ensures Printf("\\n", args) == Some("\n")
  {
    PrintfNewline("", args);
    assert "\\n" + "" == "\\n" && "\n" + "" == "\n";
  }

  lemma ReadBegWord(nonce: Bytes, rest: Bytes, env: Env)
    requires IsHex(nonce) && Value(env, "__PR_N") == nonce && Ends(rest)
    ensures ReadWord(BEG_WORD + rest, env, Unquoted, []) == Word("\\n__PR_BEG_" + nonce + "__\\n", rest)
  {
    HexIsPlain(nonce);
    ReadFormat("\\n__PR_BEG_", "__PR_N", "__\\n", rest, env);
  }

  lemma ReadEndWord(nonce: Bytes, rest: Bytes, env: Env)
    requires IsHex(nonce) && Value(env, "__PR_N") == nonce && Ends(rest)
    ensures ReadWord(END_WORD + rest, env, Unquoted, []) == Word("\\n__PR_END_" + nonce + "__:%d\\n", rest)
  {
    HexIsPlain(nonce);
    ReadFormat("\\n__PR_END_", "__PR_N", "__:%d\\n", rest, env);
  }

  lemma RunBeg(nonce: Bytes, rest: Bytes, m: Machine, cmd: Bytes, run: Program)
    requires IsHex(nonce) && Value(m.env, "__PR_N") == nonce
    ensures Exec(BEG_PRINTF + ("; " + rest), m, cmd, run) ==
            Exec(rest, m.Finish("\n" + BegMarker(nonce) + "\n", 0), cmd, run)
  {
    var text := "\n" + BegMarker(nonce) + "\n";
    ReadBegWord(nonce, ";" + (" " + rest), m.env);
    BegFormat(nonce);
    RunPrintf(BEG_WORD, "\\n__PR_BEG_" + nonce + "__\\n", " " + rest, text, m, cmd, run);
    PrintfShape(BEG_WORD, rest);
    SkipBlank(rest, m.Finish(text, 0), cmd, run);
  }

  lemma PrintfShape(word: Bytes, rest: Bytes)
    ensures "printf " + word + ("; " + rest) == "printf" + (" " + (word + (";" + (" " + rest))))
  {
  }

  lemma RunEpilogue(nonce: Bytes, code: nat, m: Machine, cmd: Bytes, run: Program)
    requires IsHex(nonce) && Value(m.env, "__PR_N") == nonce && Value(m.env, "?") == Print(code)
    ensures Exec(Epilogue(), m, cmd, run) == Some(
              m.Set("__PR_RC", Print(code)).Finish([], 0).Finish("\n" + EndMarker(nonce) + Print(code) + "\n", 0))
  {
    RunStatus(END_PRINTF + "\n", code, m, cmd, run);
    RunEnd(nonce, code, m.Set("__PR_RC", Print(code)).Finish([], 0), cmd, run);
  }

  lemma RunStatus(last: Bytes, code: nat, m: Machine, cmd: Bytes, run: Program)
    requires Value(m.env, "?") == Print(code)
    ensures Exec("__PR_RC=$?; " + last, m, cmd, run) ==
            Exec(last, m.Set("__PR_RC", Print(code)).Finish([], 0), cmd, run)
  {
    ReadStatus(";" + (" " + last), m.env, code);
    RunAssignment("__PR_RC", "$?", Print(code), " " + last, m, cmd, run);
    AssignmentShape(last);
    SkipBlank(last, m.Set("__PR_RC", Print(code)).Finish([], 0), cmd, run);
  }

  lemma AssignmentShape(last: Bytes)
    ensures "__PR_RC=$?; " + last == "__PR_RC" + ("=" + ("$?" + (";" + (" " + last))))
  {
  }

  lemma ReadStatus(rest: Bytes, env: Env, code: nat)
    requires Value(env, "?") == Print(code) && Ends(rest)
    ensures ReadWord("$?" + rest, env, Unquoted, []) == Word(Print(code), rest)
  {
    assert AllNameChars(Print(code));
    ReadParameter("?", rest, env, Unquoted, []);
    assert "$" + "?" + rest == "$?" + rest && [] + Print(code) == Print(code);
    ReadToEnd(rest, env, Print(code));
  }

  lemma RunEnd(nonce: Bytes, code: nat, m: Machine, cmd: Bytes, run: Program)
    requires IsHex(nonce) && Value(m.env, "__PR_N") == nonce && Value(m.env, "__PR_RC") == Print(code)
    ensures Exec(END_PRINTF + "\n", m, cmd, run) ==
            Some(m.Finish("\n" + EndMarker(nonce) + Print(code) + "\n", 0))
  {
    ReadEndWord(nonce, " " + (RC_WORD + "\n"), m.env);
    ReadCodeWord(m.env);
    EndFormat(nonce, code);
    RunPrintf1(END_WORD, "\\n__PR_END_" + nonce + "__:%d\\n", RC_WORD, Print(code),
               "\n" + EndMarker(nonce) + Print(code) + "\n", m, cmd, run);
    PrintfShape1(END_WORD, RC_WORD);
  }

  lemma ReadCodeWord(env: Env)
    ensures ReadWord(RC_WORD + "\n", env, Unquoted, []) == Word(Value(env, "__PR_RC"), "\n")
  {
    CodeWordShape();
    ReadSpelled(RC_WORD, "__PR_RC", "\n", env);
  }

  lemma CodeWordShape()
    ensures RC_WORD + "\n" == "\"" + ("$" + "__PR_RC" + ("\"" + "\n"))
  {
  }

  lemma ReadSpelled(word: Bytes, name: Bytes, rest: Bytes, env: Env)
    requires word + rest == "\"" + ("$" + name + ("\"" + rest))
    requires name != [] && AllNameChars(name) && Ends(rest)
    ensures ReadWord(word + rest, env, Unquoted, []) == Word(Value(env, name), rest)
  {
    ReadDoubleQuoted(name, rest, env);
  }

  lemma PrintfShape1(word: Bytes, arg: Bytes)
    ensures "printf " + word + " " + arg + "\n" == "printf" + (" " + (word + (" " + (arg + "\n"))))
  {
  }

  lemma ReadQuoteMark(rest: Bytes, env: Env, acc: Bytes)
    ensures ReadWord("\"" + rest, env, Unquoted, acc) == ReadWord(rest, env, Double, acc)
    ensures ReadWord("\"" + rest, env, Double, acc) == ReadWord(rest, env, Unquoted, acc)
  {
    assert ("\"" + rest)[1..] == rest && acc + [] == acc;
  }

  lemma ReadDoubleQuoted(name: Bytes, rest: Bytes, env: Env)
    requires name != [] && AllNameChars(name) && Ends(rest)
    ensures ReadWord("\"" + ("$" + name + ("\"" + rest)), env, Unquoted, []) == Word(Value(env, name), rest)
  {
    var inner := "$" + name + ("\"" + rest);
    ReadQuoteMark(inner, env, []);
    ReadParameter(name, "\"" + rest, env, Double, []);
    ReadQuoteMark(rest, env, Value(env, name));
    assert [] + Value(env, name) == Value(env, name);
    ReadToEnd(rest, env, Value(env, name));
  }

  // ---- the brace group ----

  lemma GroupStart(cmd: Bytes, after: Bytes)
    ensures StartsWith(cmd + ("\n}" + after), cmd + "\n}")
    ensures (cmd + ("\n}" + after))[|cmd| + 2..] == after
    ensures StartsWith("{ " + (cmd + ("\n}" + after)), "{ ")
    ensures ("{ " + (cmd + ("\n}" + after)))[2..] == cmd + ("\n}" + after)
  {
    Assoc(cmd, "\n}", after);
    assert ((cmd + "\n}") + after)[..|cmd| + 2] == cmd + "\n}";
  }

  lemma RunGroup(cmd: Bytes, after: Bytes, m: Machine, m': Machine, rest: Bytes, run: Program)
    requires Group(cmd + ("\n}" + after), m, cmd, run) == Some((m', rest))
    requires rest != [] && EndsStatement(rest)
    ensures Exec("{ " + (cmd + ("\n}" + after)), m, cmd, run) == Exec(rest[1..], m', cmd, run)
  {
    GroupStart(cmd, after);
    var s := "{ " + (cmd + ("\n}" + after));
    assert s[0] == '{';
    RunStatement(s, rest, m, m', cmd, run);
  }

  lemma RunPlainGroup(cmd: Bytes, rest: Bytes, m: Machine, run: Program)
    ensures Exec("{ " + (cmd + ("\n}" + ("; " + rest))), m, cmd, run) ==
            Exec(rest, m.Finish(run([]).0, run([]).1), cmd, run)
  {
    var after := "; " + rest;
    var m' := m.Finish(run([]).0, run([]).1);
    SemicolonBlank(rest);
    PlainGroup(cmd, after, m, run);
    RunGroup(cmd, after, m, m', after, run);
    SkipBlank(rest, m', cmd, run);
  }

  lemma SemicolonBlank(rest: Bytes)
    ensures var s := "; " + rest; s != [] && s[0] == ';' && EndsStatement(s) && s[1..] == " " + rest
  {
  }

  lemma PlainGroup(cmd: Bytes, after: Bytes, m: Machine, run: Program)
    requires after != [] && after[0] == ';'
    ensures Group(cmd + ("\n}" + after), m, cmd, run) == Some((m.Finish(run([]).0, run([]).1), after))
  {
    GroupStart(cmd, after);
  }

  lemma HereDocShape(hd: Bytes, body: Bytes)
    ensures StartsWith(" <<'" + (hd + ("'\n" + body)), " <<'")
    ensures (" <<'" + (hd + ("'\n" + body)))[3..] == "'" + hd + "'" + ("\n" + body)
    ensures ("\n" + body)[1..] == body
  {
    assert (" <<'" + (hd + ("'\n" + body)))[..4] == " <<'";
  }

  lemma RunHereDocGroup(cmd: Bytes, text: Bytes, hd: Bytes, rest: Bytes, m: Machine, run: Program)
    requires '\'' !in hd && '\n' !in hd && text != [] && text[|text| - 1] == '\n' && !HasLine(text, hd)
    ensures Exec("{ " + (cmd + ("\n}" + (" <<'" + (hd + ("'\n" + (text + (hd + ("\n" + rest)))))))), m, cmd, run) ==
            Exec(rest, m.Finish(run(text).0, run(text).1), cmd, run)
  {
    var body := text + (hd + ("\n" + rest));
    var after := " <<'" + (hd + ("'\n" + body));
    HereDocShape(hd, body);
    ReadQuoted(hd, "\n" + body, m.env, []);
    assert [] + hd == hd;
    ReadToEnd("\n" + body, m.env, hd);
    Assoc(hd, "\n", rest);
    HereDocText(text, hd, rest);
    GroupStart(cmd, after);
    var m' := m.Finish(run(text).0, run(text).1);
    assert Group(cmd + ("\n}" + after), m, cmd, run) == Some((m', "\n" + rest));
    RunGroup(cmd, after, m, m', "\n" + rest, run);
    assert ("\n" + rest)[1..] == rest;
  }

  /** A text without newlines is not created by completing the last line. */
  lemma CompletedContains(stdin: Bytes, hd: Bytes)
    requires '\n' !in hd && hd != [] && !Contains(stdin, hd)
    ensures !Contains(Completed(stdin), hd)
  {
    ContainsAround(stdin, '\n', [], hd);
    assert stdin + (['\n'] + []) == stdin + "\n";
    assert !Contains([], hd);
  }

  lemma DelimiterOf(nonce: Bytes)
    requires IsHex(nonce)
    ensures '\'' !in StdinDelimiter(nonce) && '\n' !in StdinDelimiter(nonce) && StdinDelimiter(nonce) != []
  {
  }

  /**
    The here-document round trip: a non-empty stdin is refused exactly when it contains the delimiter. Otherwise the
    wrapper holds a here-document from which the shell's reader recovers it, with a newline added exactly if it lacked
    one at the end, and which leaves the text after the delimiter line.
   */
  lemma HereDocRoundTrip(cmd: Bytes, stdin: Bytes, nonce: Bytes) returns (body: Bytes)
    requires IsHex(nonce) && stdin != []
    ensures WrapCommand(cmd, stdin, nonce).None? <==> Contains(stdin, StdinDelimiter(nonce))
    ensures WrapCommand(cmd, stdin, nonce).Some? ==>
              var hd, completed := StdinDelimiter(nonce), if stdin[|stdin| - 1] == '\n' then stdin else stdin + "\n";
              && WrapCommand(cmd, stdin, nonce).value ==
                 "__PR_N=" + (nonce + ("; " + (BEG_PRINTF + ("; " + ("{ " +
                 (cmd + ("\n}" + (" <<'" + (hd + ("'\n" + body))))))))))
              && ReadHereDoc(body, hd) == Some((completed, "__PR_RC=$?; " + (END_PRINTF + "\n")))
  {
    var hd := StdinDelimiter(nonce);
    DelimiterOf(nonce);
    body := Completed(stdin) + (hd + ("\n" + Epilogue()));
    if !Contains(stdin, hd) {
      CompletedContains(stdin, hd);
      if HasLine(Completed(stdin), hd) { LineIsContained(Completed(stdin), hd); }
      HereDocText(Completed(stdin), hd, Epilogue());
      Assoc(hd, "\n", Epilogue());
    }
  }

  lemma RunAnyGroup(cmd: Bytes, stdin: Bytes, nonce: Bytes, m: Machine, run: Program)
    requires IsHex(nonce) && WrapCommand(cmd, stdin, nonce).Some?
    ensures Exec(BraceGroup(cmd, stdin, StdinDelimiter(nonce)), m, cmd, run) ==
            Exec(Epilogue(), m.Finish(run(Completed(stdin)).0, run(Completed(stdin)).1), cmd, run)
  {
    var hd := StdinDelimiter(nonce);
    if stdin == [] {
      RunPlainGroup(cmd, Epilogue(), m, run);
    } else {
      DelimiterOf(nonce);
      CompletedContains(stdin, hd);
      if HasLine(Completed(stdin), hd) { LineIsContained(Completed(stdin), hd); }
      RunHereDocGroup(cmd, Completed(stdin), hd, Epilogue(), m, run);
    }
  }

  lemma RunBody(cmd: Bytes, stdin: Bytes, nonce: Bytes, m: Machine, run: Program)
    requires IsHex(nonce) && WrapCommand(cmd, stdin, nonce).Some? && Value(m.env, "__PR_N") == nonce
    ensures var (x, code) := run(Completed(stdin));
            var r := Exec(BraceGroup(cmd, stdin, StdinDelimiter(nonce)), m, cmd, run);
            r.Some? && r.value.output == ((m.output + x) + []) + ("\n" + EndMarker(nonce) + Print(code) + "\n")
  {
    var x, code := run(Completed(stdin)).0, run(Completed(stdin)).1;
    RunAnyGroup(cmd, stdin, nonce, m, run);
    RunEpilogue(nonce, code, m.Finish(x, code), cmd, run);
  }

  /**
    Whatever the command and its stdin, the shell runs the command on that input, inside the frame. The input is the
    stdin; a non-empty one that does not end in a newline gets one.
   */
  lemma WrapperRuns(cmd: Bytes, stdin: Bytes, input: Bytes, nonce: Bytes, m: Machine, run: Program)
    requires IsHex(nonce) && WrapCommand(cmd, stdin, nonce).Some?
    requires input == if stdin == [] || stdin[|stdin| - 1] == '\n' then stdin else stdin + "\n"
    ensures var (x, code) := run(input);
            var r := Exec(WrapCommand(cmd, stdin, nonce).value, m, cmd, run);
            r.Some? && r.value.output == m.output + Frame(nonce, x, code)
  {
    var m1 := AfterNonce(m, nonce);
    var beg := "\n" + BegMarker(nonce) + "\n";
    var group := BraceGroup(cmd, stdin, StdinDelimiter(nonce));
    RunNonce(nonce, BEG_PRINTF + ("; " + group), m, cmd, run);
    RunBeg(nonce, group, m1, cmd, run);
    RunBody(cmd, stdin, nonce, m1.Finish(beg, 0), run);
    OutputShape(m.output, beg, run(input).0, nonce, run(input).1);
  }

  lemma OutputShape(o: Bytes, beg: Bytes, x: Bytes, nonce: Bytes, code: nat)
    requires beg == "\n" + BegMarker(nonce) + "\n"
    ensures ((((o + []) + beg) + x) + []) + ("\n" + EndMarker(nonce) + Print(code) + "\n") == o + Frame(nonce, x, code)
  {
    var b, e, p := BegMarker(nonce), EndMarker(nonce), Print(code);
    assert o + [] == o && o + beg + x + [] == o + beg + x;
    assert o + ("\n" + b + "\n") + x + ("\n" + e + p + "\n") == o + ("\n" + b + "\n" + x + "\n" + e + p + "\n");
  }
}
