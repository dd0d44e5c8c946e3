/**
  As much of the POSIX Shell Command Language (IEEE Std 1003.1, chapter 2) as the wrapper and Quote rely on:
  quoting (2.2), simple parameter expansion (2.6.2), here-documents (2.7.4), assignments, brace groups, printf.
 */
module Shell {
  import opened Bytes
  import opened Decimal

  datatype Mode = Unquoted | Single | Double

  datatype Reading = Word(value: Bytes, rest: Bytes) | Unreadable

  type Env = map<Bytes, Bytes>

  predicate IsBlank(c: char) { c == ' ' || c == '\t' }

  /** A character that ends an unquoted word. */
  predicate IsDelimiter(c: char) {
    IsBlank(c) || c == '\n' || c == ';' || c == '|' || c == '&' || c == '<' || c == '>' || c == '(' || c == ')'
  }

  predicate IsNameChar(c: char) {
    'A' <= c <= 'Z' || 'a' <= c <= 'z' || '0' <= c <= '9' || c == '_'
  }

  /** An unquoted character that stands for itself. */
  predicate IsPlain(c: char) {
    || IsNameChar(c) || c == '=' || c == ':' || c == '/' || c == '.' || c == ',' || c == '-' || c == '+' || c == '%'
    || c == '@' || c == '{' || c == '}'
  }

  predicate AllPlain(s: Bytes) { forall i :: 0 <= i < |s| ==> IsPlain(s[i]) }

  predicate AllNameChars(s: Bytes) { forall i :: 0 <= i < |s| ==> IsNameChar(s[i]) }

  predicate Ends(rest: Bytes) { rest == [] || IsDelimiter(rest[0]) }

  /** The length of the longest name at the start of `s`. */
  function NameLength(s: Bytes): (n: nat)
    ensures n <= |s|
  {
    if s == [] || !IsNameChar(s[0]) then 0 else 1 + NameLength(s[1..])
  }

  /** The parameter after a `$`: a name or the special parameter `?`. */
  function ParameterLength(s: Bytes): (n: nat)
    ensures n <= |s|
  {
    if s != [] && s[0] == '?' then 1 else NameLength(s)
  }

  function Value(env: Env, name: Bytes): Bytes {
    if name in env then env[name] else []
  }

  /** What begins a word or goes on with it: text that `n` characters stand for, and the mode after them. */
  datatype Token = End | Bad | Take(n: nat, text: Bytes, mode: Mode)

  /**
    The next token. Unquoted expansions whose value would be split or globbed, and constructs that nothing here writes,
    are unreadable.
   */
  function NextToken(s: Bytes, env: Env, mode: Mode): (t: Token)
    requires s != []
    ensures t.Take? ==> 0 < t.n <= |s|
  {
    if s[0] == '$' && mode != Single then
      var n := ParameterLength(s[1..]);
      var v := Value(env, s[1..1 + n]);
      if n == 0 || (mode == Unquoted && NameLength(v) < |v|) then Bad else Take(1 + n, v, mode)
    else
      match mode
      case Single => if s[0] == '\'' then Take(1, [], Unquoted) else Take(1, [s[0]], Single)
      case Double =>
        if s[0] == '"' then Take(1, [], Unquoted)
        else if s[0] == '\\' || s[0] == '`' then Bad
        else Take(1, [s[0]], Double)
      case Unquoted =>
        if IsDelimiter(s[0]) then End
        else if s[0] == '\'' then Take(1, [], Single)
        else if s[0] == '"' then Take(1, [], Double)
        else if s[0] == '\\' then (if |s| == 1 || s[1] == '\n' then Bad else Take(2, [s[1]], Unquoted))
        else if IsPlain(s[0]) then Take(1, [s[0]], Unquoted)
        else Bad
  }

  /** Reads one word, expanding it. */
  function ReadWord(s: Bytes, env: Env, mode: Mode, acc: Bytes): (r: Reading)
    ensures r.Word? ==> |r.rest| <= |s|
    decreases |s|
  {
    if s == [] then (if mode == Unquoted then Word(acc, []) else Unreadable)
    else
      match NextToken(s, env, mode)
      case End => Word(acc, s)
      case Bad => Unreadable
      case Take(n, text, next) => ReadWord(s[n..], env, next, acc + text)
  }

  // ---- reading what is known to be there ----

  lemma PlainToken(s: Bytes, env: Env)
    requires s != [] && IsPlain(s[0])
    ensures NextToken(s, env, Unquoted) == Take(1, [s[0]], Unquoted)
  {
  }

  lemma HeadAndTail(t: Bytes, rest: Bytes)
    requires t != []
    ensures t + rest != [] && (t + rest)[0] == t[0] && (t + rest)[1..] == t[1..] + rest
  {
  }

  lemma PassOn(acc: Bytes, t: Bytes)
    requires t != []
    ensures acc + [t[0]] + t[1..] == acc + t
  {
  }

  lemma {:induction false} ReadPlain(t: Bytes, rest: Bytes, env: Env, acc: Bytes)
    requires AllPlain(t)
    ensures ReadWord(t + rest, env, Unquoted, acc) == ReadWord(rest, env, Unquoted, acc + t)
  {
    if t == [] {
      assert t + rest == rest && acc + t == acc;
    } else {
      HeadAndTail(t, rest);
      PlainToken(t + rest, env);
      ReadPlain(t[1..], rest, env, acc + [t[0]]);
      PassOn(acc, t);
    }
  }

  lemma ReadApostrophe(rest: Bytes, env: Env, acc: Bytes)
    ensures ReadWord("'" + rest, env, Unquoted, acc) == ReadWord(rest, env, Single, acc)
    ensures ReadWord("'" + rest, env, Single, acc) == ReadWord(rest, env, Unquoted, acc)
  {
    assert ("'" + rest)[1..] == rest && acc + [] == acc;
  }

  lemma ReadEscape(c: char, rest: Bytes, env: Env, acc: Bytes)
    requires c != '\n'
    ensures ReadWord(['\\', c] + rest, env, Unquoted, acc) == ReadWord(rest, env, Unquoted, acc + [c])
  {
    assert (['\\', c] + rest)[2..] == rest;
  }

  lemma {:induction false} ReadSingle(t: Bytes, rest: Bytes, env: Env, acc: Bytes)
    requires '\'' !in t
    ensures ReadWord(t + "'" + rest, env, Single, acc) == ReadWord(rest, env, Unquoted, acc + t)
  {
    if t == [] {
      assert (t + "'" + rest)[1..] == rest && acc + t == acc;
    } else {
      var s := t + "'" + rest;
      assert s[0] == t[0] && s[1..] == t[1..] + "'" + rest;
      ReadSingle(t[1..], rest, env, acc + [t[0]]);
      assert acc + [t[0]] + t[1..] == acc + t;
    }
  }

  /** A single-quoted stretch. */
  lemma ReadQuoted(t: Bytes, rest: Bytes, env: Env, acc: Bytes)
    requires '\'' !in t
    ensures ReadWord("'" + t + "'" + rest, env, Unquoted, acc) == ReadWord(rest, env, Unquoted, acc + t)
  {
    assert "'" + t + "'" + rest == "'" + (t + "'" + rest);
    ReadApostrophe(t + "'" + rest, env, acc);
    ReadSingle(t, rest, env, acc);
  }

  lemma {:induction false} NameStops(t: Bytes, rest: Bytes)
    requires AllNameChars(t) && (rest == [] || !IsNameChar(rest[0]))
    ensures NameLength(t + rest) == |t|
  {
    if t == [] {
      assert t + rest == rest;
    } else {
      assert (t + rest)[0] == t[0] && (t + rest)[1..] == t[1..] + rest;
      NameStops(t[1..], rest);
    }
  }

  /** An unquoted or double-quoted `$name`. */
  lemma ReadParameter(name: Bytes, rest: Bytes, env: Env, mode: Mode, acc: Bytes)
    requires mode != Single && name != []
    requires name == "?" || (AllNameChars(name) && (rest == [] || !IsNameChar(rest[0])))
    requires mode == Unquoted ==> AllNameChars(Value(env, name))
    ensures ReadWord("$" + name + rest, env, mode, acc) == ReadWord(rest, env, mode, acc + Value(env, name))
  {
    var s := "$" + name + rest;
    assert s[1..] == name + rest;
    if name != "?" {
      NameStops(name, rest);
      assert (name + rest)[0] == name[0];
    }
    assert s[1..1 + |name|] == name && s[1 + |name|..] == rest;
    if mode == Unquoted {
      NameStops(Value(env, name), []);
      assert Value(env, name) + [] == Value(env, name);
    }
  }

  // ---- printf ----

  /** The printf utility, for formats made of text, \n and %d. */
  function Printf(format: Bytes, args: seq<Bytes>): Option<Bytes> {
    if format == [] then
      if args == [] then Some([]) else None
    else if format[0] == '\\' then
      if |format| >= 2 && format[1] == 'n' then Prefix("\n", Printf(format[2..], args)) else None
    else if format[0] == '%' then
      if |format| >= 2 && format[1] == 'd' && args != [] && args[0] != [] && AllDigits(args[0])
      then Prefix(Print(DigitsValue(args[0])), Printf(format[2..], args[1..]))
      else None
    else Prefix([format[0]], Printf(format[1..], args))
  }

  function Prefix(p: Bytes, o: Option<Bytes>): Option<Bytes> {
    match o case None => None case Some(s) => Some(p + s)
  }

  lemma {:induction false} PrintfText(t: Bytes, rest: Bytes, args: seq<Bytes>)
    requires forall i :: 0 <= i < |t| ==> t[i] != '\\' && t[i] != '%'
    ensures Printf(t + rest, args) == Prefix(t, Printf(rest, args))
  {
    if t == [] {
      assert t + rest == rest;
      assert Printf(rest, args).Some? ==> [] + Printf(rest, args).value == Printf(rest, args).value;
    } else {
      assert (t + rest)[0] == t[0] && (t + rest)[1..] == t[1..] + rest;
      PrintfText(t[1..], rest, args);
      match Printf(rest, args) {
        case None =>
        case Some(s) => assert [t[0]] + (t[1..] + s) == t + s;
      }
    }
  }

  lemma PrintfNewline(rest: Bytes, args: seq<Bytes>)
    ensures Printf("\\n" + rest, args) == Prefix("\n", Printf(rest, args))
  {
    assert ("\\n" + rest)[2..] == rest;
  }

  lemma PrintfNumber(n: nat, rest: Bytes, args: seq<Bytes>)
    ensures Printf("%d" + rest, [Print(n)] + args) == Prefix(Print(n), Printf(rest, args))
  {
    assert ("%d" + rest)[2..] == rest;
    assert ([Print(n)] + args)[1..] == args;
    DigitsOfPrint(n);
  }

  // ---- here-documents ----

  /** The lines up to one that equals the delimiter, and what follows that line. */
  function ReadHereDoc(s: Bytes, delim: Bytes): Option<(Bytes, Bytes)>
    decreases |s|
  {
    var nl := NewlineIndex(s);
    if nl < 0 then None
    else if s[..nl] == delim then Some(([], s[nl + 1..]))
    else
      match ReadHereDoc(s[nl + 1..], delim)
      case None => None
      case Some((text, rest)) => Some((s[..nl + 1] + text, rest))
  }

  /** Some complete line of `s` equals `delim`. */
  predicate HasLine(s: Bytes, delim: Bytes)
    decreases |s|
  {
    var nl := NewlineIndex(s);
    nl >= 0 && (s[..nl] == delim || HasLine(s[nl + 1..], delim))
  }

  lemma CloseLine(delim: Bytes, rest: Bytes)
    requires '\n' !in delim
    ensures ReadHereDoc(delim + "\n" + rest, delim) == Some(([], rest))
  {
    var s := delim + "\n" + rest;
    assert s[|delim|] == '\n';
    NewlineAt(s, |delim|);
    assert s[..|delim|] == delim && s[|delim| + 1..] == rest;
  }

  lemma FirstLine(text: Bytes, close: Bytes) returns (nl: nat)
    requires text != [] && text[|text| - 1] == '\n'
    ensures nl < |text| && NewlineIndex(text) == NewlineIndex(text + close) == nl
    ensures (text + close)[..nl] == text[..nl] && (text + close)[nl + 1..] == text[nl + 1..] + close
    ensures (text + close)[..nl + 1] == text[..nl + 1] && text == text[..nl + 1] + text[nl + 1..]
    ensures text[nl + 1..] == [] || text[nl + 1..][|text| - nl - 2] == '\n'
  {
    assert text[|text| - 1] in text;
    NewlineStable(text, close);
    nl := NewlineIndex(text);
    LineParts(text, close, nl);
  }

  lemma LineParts(text: Bytes, close: Bytes, nl: nat)
    requires nl < |text| && text[|text| - 1] == '\n'
    ensures (text + close)[..nl] == text[..nl] && (text + close)[nl + 1..] == text[nl + 1..] + close
    ensures (text + close)[..nl + 1] == text[..nl + 1] && text == text[..nl + 1] + text[nl + 1..]
    ensures text[nl + 1..] == [] || text[nl + 1..][|text| - nl - 2] == '\n'
  {
  }

  /** The reader recovers a text of complete lines exactly when none of them is the delimiter. */
  lemma {:induction false} HereDocText(text: Bytes, delim: Bytes, rest: Bytes)
    requires text == [] || text[|text| - 1] == '\n'
    requires '\n' !in delim
    ensures ReadHereDoc(text + (delim + "\n" + rest), delim).Some?
    ensures ReadHereDoc(text + (delim + "\n" + rest), delim) == Some((text, rest)) <==> !HasLine(text, delim)
    ensures HasLine(text, delim) ==> |ReadHereDoc(text + (delim + "\n" + rest), delim).value.0| < |text|
    decreases |text|
  {
    var close := delim + "\n" + rest;
    if text == [] {
      assert text + close == close;
      CloseLine(delim, rest);
    } else {
      var nl := FirstLine(text, close);
      HereDocText(text[nl + 1..], delim, rest);
    }
  }

  lemma {:induction false} LineIsContained(s: Bytes, delim: Bytes)
    requires HasLine(s, delim)
    ensures Contains(s, delim)
    decreases |s|
  {
    var nl := NewlineIndex(s);
    if s[..nl] == delim {
      assert forall k :: 0 <= k < |delim| ==> s[k] == s[..nl][k];
      assert OccursAt(s, delim, 0);
    } else {
      LineIsContained(s[nl + 1..], delim);
      var i :| OccursAt(s[nl + 1..], delim, i);
      assert s == s[..nl + 1] + s[nl + 1..];
      OccursInRight(s[..nl + 1], s[nl + 1..], delim, nl + 1 + i);
    }
  }

  // ---- command lists ----

  /** The variables, `?` among them, and what the terminal has shown. */
  datatype Machine = Machine(env: Env, output: Bytes) {
    function Set(name: Bytes, v: Bytes): Machine { this.(env := env[name := v]) }

    function Finish(text: Bytes, status: nat): Machine {
      this.(env := env["?" := Print(status)], output := output + text)
    }
  }

  /** The user's command: what it prints and its exit code, given its input. */
  type Program = Bytes -> (Bytes, nat)

  predicate StartsWith(s: Bytes, p: Bytes) { p <= s }

  predicate EndsStatement(rest: Bytes) {
    rest == [] || rest[0] == ';' || rest[0] == '\n'
  }

  /** The remaining words of a simple command. */
  function Arguments(s: Bytes, env: Env): (r: Option<(seq<Bytes>, Bytes)>)
    ensures r.Some? ==> |r.value.1| <= |s|
    decreases |s|
  {
    if EndsStatement(s) then Some(([], s))
    else if IsBlank(s[0]) then Arguments(s[1..], env)
    else
      match ReadWord(s, env, Unquoted, [])
      case Unreadable => None
      case Word(w, rest) =>
        if |rest| == |s| then None
        else
          match Arguments(rest, env)
          case None => None
          case Some((ws, end)) => Some(([w] + ws, end))
  }

  /** A brace group around `cmd`, which the shell's grammar takes as a whole, with an optional here-document. */
  function Group(t: Bytes, m: Machine, cmd: Bytes, run: Program): (r: Option<(Machine, Bytes)>)
    ensures r.Some? ==> |r.value.1| <= |t|
  {
    if !StartsWith(t, cmd + "\n}") then None
    else
      var after := t[|cmd| + 2..];
      if !StartsWith(after, " <<'") then
        var (x, code) := run([]);
        Some((m.Finish(x, code), after))
      else
        match ReadWord(after[3..], m.env, Unquoted, [])
        case Unreadable => None
        case Word(delim, rest) =>
          if rest == [] || rest[0] != '\n' then None
          else
            match ReadHereDoc(rest[1..], delim)
            case None => None
            case Some((text, more)) =>
              var (x, code) := run(text);
              if |more| < |rest| then Some((m.Finish(x, code), "\n" + more)) else None
  }

  function Statement(s: Bytes, m: Machine, cmd: Bytes, run: Program): (r: Option<(Machine, Bytes)>)
    ensures r.Some? ==> |r.value.1| <= |s|
  {
    var n := NameLength(s);
    if StartsWith(s, "{ ") then Group(s[2..], m, cmd, run)
    else if 0 < n < |s| && s[n] == '=' then
      match ReadWord(s[n + 1..], m.env, Unquoted, [])
      case Unreadable => None
      case Word(v, rest) => Some((m.Set(s[..n], v).Finish([], 0), rest))
    else
      match Arguments(s, m.env)
      case None => None
      case Some((words, rest)) =>
        if |words| < 2 || words[0] != "printf" then None
        else
          match Printf(words[1], words[2..])
          case None => None
          case Some(text) => Some((m.Finish(text, 0), rest))
  }

  /** Runs a script in which `cmd` is the one compound command; None is a syntax error. */
  function Exec(s: Bytes, m: Machine, cmd: Bytes, run: Program): Option<Machine>
    decreases |s|
  {
    if s == [] then Some(m)
    else if IsBlank(s[0]) || s[0] == '\n' then Exec(s[1..], m, cmd, run)
    else
      match Statement(s, m, cmd, run)
      case None => None
      case Some((m', rest)) =>
        if rest == [] then Some(m')
        else if EndsStatement(rest) then Exec(rest[1..], m', cmd, run)
        else None
  }
}
