/** internal/shellquote: single-quoting, undone by the shell's word reader. */
module ShellQuote {
  import opened Bytes
  import opened Shell

  /** Every apostrophe closes the quotes, stands escaped, and opens them again. */
  function Escape(s: Bytes): Bytes {
    if s == [] then [] else (if s[0] == '\'' then "'\\''" else [s[0]]) + Escape(s[1..])
  }

  function Quote(s: Bytes): Bytes {
    if s == [] then "''" else "'" + Escape(s) + "'"
  }

  /** The first `n` arguments, quoted, with single spaces between them. */
  function Joined(args: seq<Bytes>, n: nat): Bytes
    requires n <= |args|
  {
    if n == 0 then []
    else if n == 1 then Quote(args[0])
    else Joined(args, n - 1) + " " + Quote(args[n - 1])
  }

  lemma JoinNext(args: seq<Bytes>, n: nat, r: Bytes, part: Bytes)
    requires 0 < n < |args| && r == Joined(args, n) && part == Quote(args[n])
    ensures r + " " + part == Joined(args, n + 1)
  {
  }

  ghost predicate AreQuoted(parts: seq<Bytes>, args: seq<Bytes>) {
    |parts| == |args| && forall k :: 0 <= k < |args| ==> parts[k] == Quote(args[k])
  }

  method QuoteAll(args: seq<Bytes>) returns (r: Bytes)
    ensures r == Joined(args, |args|)
  {
    if |args| == 0 {
      return "";
    }
    var parts: seq<Bytes> := [];
    for i := 0 to |args|
      invariant AreQuoted(parts, args[..i])
    {
      parts := parts + [Quote(args[i])];
    }
    assert args[..|args|] == args;
    r := Join(parts, args);
  }

  /** The parts with single blanks between them. */
  method Join(parts: seq<Bytes>, ghost args: seq<Bytes>) returns (r: Bytes)
    requires args != [] && AreQuoted(parts, args)
    ensures r == Joined(args, |args|)
  {
    r := parts[0];
    for i := 1 to |parts|
      invariant r == Joined(args, i)
    {
      JoinNext(args, i, r, parts[i]);
      r := r + " " + parts[i];
    }
  }

  // ---- one word ----

  lemma ReadEscapedQuote(rest: Bytes, env: Env, acc: Bytes)
    ensures ReadWord("'\\''" + rest, env, Single, acc) == ReadWord(rest, env, Single, acc + "'")
  {
    assert "'\\''" + rest == "'" + ("\\'" + ("'" + rest));
    ReadApostrophe("\\'" + ("'" + rest), env, acc);
    ReadEscape('\'', "'" + rest, env, acc);
    ReadApostrophe(rest, env, acc + "'");
  }

  lemma {:induction false} ReadEscaped(s: Bytes, rest: Bytes, env: Env, acc: Bytes)
    ensures ReadWord(Escape(s) + rest, env, Single, acc) == ReadWord(rest, env, Single, acc + s)
  {
    if s == [] {
      assert Escape(s) + rest == rest && acc + s == acc;
    } else {
      var more := Escape(s[1..]) + rest;
      assert s == [s[0]] + s[1..];
      Assoc(acc, [s[0]], s[1..]);
      if s[0] == '\'' {
        Assoc("'\\''", Escape(s[1..]), rest);
        ReadEscapedQuote(more, env, acc);
        assert [s[0]] == "'";
      } else {
        Assoc([s[0]], Escape(s[1..]), rest);
        assert ([s[0]] + more)[1..] == more;
      }
      ReadEscaped(s[1..], rest, env, acc + [s[0]]);
    }
  }

  lemma QuoteText(s: Bytes, rest: Bytes)
    ensures Quote(s) + rest == "'" + (Escape(s) + ("'" + rest))
  {
  }

  /** The quoted form is always one word, it stands for the string itself, and it leaves what follows alone. */
  lemma QuoteRoundTrip(s: Bytes, rest: Bytes, env: Env)
    requires Ends(rest)
    ensures ReadWord(Quote(s) + rest, env, Unquoted, []) == Word(s, rest)
  {
    var tail := "'" + rest;
    QuoteText(s, rest);
    ReadApostrophe(Escape(s) + tail, env, []);
    ReadEscaped(s, tail, env, []);
    ReadApostrophe(rest, env, s);
    assert [] + s == s;
  }

  // ---- a list of words ----

  /** Field splitting of a command line that consists of words and blanks. */
  function SplitWords(s: Bytes, env: Env): Option<seq<Bytes>>
    decreases |s|
  {
    if s == [] then Some([])
    else if IsBlank(s[0]) then SplitWords(s[1..], env)
    else
      match ReadWord(s, env, Unquoted, [])
      case Unreadable => None
      case Word(w, rest) =>
        if |rest| >= |s| then None
        else
          match SplitWords(rest, env)
          case None => None
          case Some(ws) => Some([w] + ws)
  }

  /** The arguments from the `k`-th on. */
  function JoinedFrom(args: seq<Bytes>, k: nat): Bytes
    requires k < |args|
    decreases |args| - k
  {
    if k == |args| - 1 then Quote(args[k]) else Quote(args[k]) + (" " + JoinedFrom(args, k + 1))
  }

  /** The same text, read from the front. */
  lemma {:induction false} JoinedFromFront(args: seq<Bytes>, k: nat)
    requires 0 < k < |args|
    ensures Joined(args, |args|) == Joined(args, k) + (" " + JoinedFrom(args, k))
    decreases |args| - k
  {
    if k == |args| - 1 {
      Assoc(Joined(args, k), " ", Quote(args[k]));
    } else {
      JoinedFromFront(args, k + 1);
      JoinShape(Joined(args, k), Quote(args[k]), " " + JoinedFrom(args, k + 1));
    }
  }

  lemma JoinShape(before: Bytes, word: Bytes, after: Bytes)
    ensures before + " " + word + after == before + (" " + (word + after))
  {
  }

  lemma SplitFirst(w: Bytes, more: Bytes, env: Env)
    ensures SplitWords(Quote(w) + (" " + more), env) ==
            (match SplitWords(more, env) case None => None case Some(ws) => Some([w] + ws))
  {
    var rest := " " + more;
    QuoteRoundTrip(w, rest, env);
    assert rest[1..] == more;
    assert SplitWords(rest, env) == SplitWords(more, env);
  }

  lemma SplitOnly(w: Bytes, env: Env)
    ensures SplitWords(Quote(w), env) == Some([w])
  {
    QuoteRoundTrip(w, [], env);
    assert Quote(w) + [] == Quote(w) && [w] + [] == [w];
  }

  lemma {:induction false} SplitFrom(args: seq<Bytes>, k: nat, env: Env)
    requires k < |args|
    ensures SplitWords(JoinedFrom(args, k), env) == Some(args[k..])
    decreases |args| - k
  {
    if k == |args| - 1 {
      SplitOnly(args[k], env);
      assert args[k..] == [args[k]];
    } else {
      SplitFrom(args, k + 1, env);
      SplitFirst(args[k], JoinedFrom(args, k + 1), env);
      assert args[k..] == [args[k]] + args[k + 1..];
    }
  }

  /** Word splitting undoes QuoteAll, whatever the arguments contain. */
  lemma {:induction false} QuoteAllRoundTrip(args: seq<Bytes>, env: Env)
    ensures SplitWords(Joined(args, |args|), env) == Some(args)
  {
    if |args| > 0 {
      SplitFrom(args, 0, env);
      assert args[0..] == args;
      if |args| > 1 {
        JoinedFromFront(args, 1);
      }
    }
  }
}
