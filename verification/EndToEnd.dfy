/** From the command to its result: what the terminal shows for a wrapped command parses to what the command did. */
module EndToEnd {
  import opened Bytes
  import opened Decimal
  import opened Framing
  import opened Shell
  import opened Terminal
  import opened Wrapper
  import Sentinel
  import Chunking
  import Agreement

  // ---- no marker in the echo ----

  lemma TooShort(s: Bytes, pat: Bytes)
    requires |s| < |pat|
    ensures !Contains(s, pat)
  {
  }

  /** Foreign characters at `cuts`, never further apart than the pattern is long, leave it no room. */
  lemma NoRoom(s: Bytes, pat: Bytes, cuts: seq<int>)
    requires |cuts| >= 2 && cuts[0] == -1 && cuts[|cuts| - 1] == |s|
    requires forall k :: 0 <= k < |cuts| - 1 ==> cuts[k] < cuts[k + 1] <= cuts[k] + |pat|
    requires forall k :: 0 < k < |cuts| - 1 ==> 0 <= cuts[k] < |s| && s[cuts[k]] !in pat
    ensures !Contains(s, pat)
  {
    forall i ensures !OccursAt(s, pat, i) {
      if 0 <= i <= |s| - |pat| {
        var k := NextCut(cuts, i, |pat|, |cuts| - 1);
        if k < |cuts| - 1 {
          assert s[i + (cuts[k] - i)] != pat[cuts[k] - i];
        }
      }
    }
  }

  lemma NextCut(cuts: seq<int>, i: int, n: nat, k: nat) returns (r: nat)
    requires 0 < k < |cuts| && cuts[0] < i <= cuts[k]
    requires forall j :: 0 <= j < k ==> cuts[j] < cuts[j + 1] <= cuts[j] + n
    ensures 0 < r <= k && i <= cuts[r] < i + n
    decreases k
  {
    if cuts[k - 1] < i {
      return k;
    }
    r := NextCut(cuts, i, n, k - 1);
  }

  /** What the parser looks for: the beginning or the end of a frame. */
  predicate IsMarker(pat: Bytes, nonce: Bytes) {
    pat == BegMarker(nonce) || pat == EndMarker(nonce)
  }

  /** The parts of a marker that the proofs below look at. */
  lemma MarkerShape(pat: Bytes, nonce: Bytes)
    requires IsMarker(pat, nonce) && IsHex(nonce)
    ensures |nonce| + 11 <= |pat| <= |nonce| + 12
    ensures pat[0] == pat[1] == '_' && pat[5] in {'B', 'E'}
    ensures forall k :: 0 <= k < |nonce| ==> pat[9 + k] == nonce[k]
    ensures pat[9 + |nonce|] == pat[10 + |nonce|] == '_'
    ensures forall c :: c in pat ==> IsNameChar(c) || c == ':'
  {
    HexIsPlain(nonce);
    var n := |nonce|;
    assert |"__PR_BEG_"| == 9 && |"__PR_END_"| == 9;
  }

  lemma MarkerHasNonce(s: Bytes, pat: Bytes, nonce: Bytes)
    requires IsMarker(pat, nonce) && IsHex(nonce) && Contains(s, pat)
    ensures Contains(s, nonce)
  {
    MarkerShape(pat, nonce);
    var i :| OccursAt(s, pat, i);
    forall k | 0 <= k < |nonce| ensures s[i + 9 + k] == nonce[k] {
      assert s[i + (9 + k)] == pat[9 + k];
    }
    assert OccursAt(s, nonce, i + 9);
  }

  lemma DelimiterHasNoMarker(pat: Bytes, nonce: Bytes)
    requires IsMarker(pat, nonce) && IsHex(nonce)
    ensures !Contains(StdinDelimiter(nonce), pat)
  {
    MarkerShape(pat, nonce);
    var hd := StdinDelimiter(nonce);
    assert hd[2] == 'P' && hd[5] == 'S' && |hd| == |nonce| + 13;
    forall i ensures !OccursAt(hd, pat, i) {
      if 0 <= i <= |hd| - |pat| {
        if i == 0 { assert hd[i + 5] != pat[5]; }
        if i == 1 { assert hd[i + 1] != pat[1]; }
        if i == 2 { assert hd[i + 0] != pat[0]; }
      }
    }
  }

  /** Long enough, and of marker characters only. */
  predicate LongPattern(pat: Bytes) {
    |pat| >= 12 && forall c :: c in pat ==> IsNameChar(c) || c == ':'
  }

  lemma BegPrintfText()
    ensures var s := BEG_PRINTF;
            |s| == 33 && s[6] == ' ' && s[8] == '\\' && s[19] == '\'' && s[27] == '\''
  {
    assert BEG_PRINTF == "printf '\\n__PR_BEG_'$__PR_N'__\\n'";
  }

  lemma EndPrintfText()
    ensures var s := END_PRINTF;
            |s| == 47 && s[6] == ' ' && s[8] == '\\' && s[19] == '\'' && s[27] == '\'' && s[36] == ' '
  {
    assert END_WORD == "'\\n__PR_END_'$__PR_N'__:%d\\n'";
    assert |RC_WORD| == 10;
  }

  lemma PrintfsHaveNoRoom(pat: Bytes)
    requires LongPattern(pat)
    ensures !Contains(BEG_PRINTF, pat) && !Contains(END_PRINTF, pat)
  {
    BegPrintfText();
    NoRoom(BEG_PRINTF, pat, [-1, 6, 8, 19, 27, 33]);
    EndPrintfText();
    NoRoom(END_PRINTF, pat, [-1, 6, 8, 19, 27, 36, 47]);
  }

  lemma EpilogueHasNoRoom(pat: Bytes)
    requires LongPattern(pat)
    ensures !Contains(Epilogue(), pat)
  {
    PrintfsHaveNoRoom(pat);
    LastLine(END_PRINTF, pat);
    TooShort("__PR_RC=$?;", pat);
    EpilogueShape();
    ContainsAround("__PR_RC=$?;", ' ', END_PRINTF + "\n", pat);
  }

  lemma EpilogueShape()
    ensures Epilogue() == "__PR_RC=$?;" + ([' '] + (END_PRINTF + "\n"))
  {
    var e := END_PRINTF + "\n";
    assert "__PR_RC=$?; " + e == "__PR_RC=$?;" + ([' '] + e);
  }

  lemma LastLine(s: Bytes, pat: Bytes)
    requires pat != [] && '\n' !in pat && !Contains(s, pat)
    ensures !Contains(s + "\n", pat)
  {
    assert s + "\n" == s + (['\n'] + []);
    ContainsAround(s, '\n', [], pat);
    TooShort([], pat);
  }

  lemma SemicolonSeparates(a: Bytes, b: Bytes, pat: Bytes)
    requires LongPattern(pat)
    ensures Contains(a + ("; " + b), pat) ==> Contains(a, pat) || Contains(b, pat)
  {
    assert "; " + b == [';'] + ([] + ([' '] + b));
    ContainsAround(a, ';', [] + ([' '] + b), pat);
    ContainsAround([], ' ', b, pat);
    TooShort([], pat);
  }

  lemma NewlineSeparates(a: Bytes, b: Bytes, pat: Bytes)
    requires LongPattern(pat)
    ensures Contains(a + ("\n" + b), pat) ==> Contains(a, pat) || Contains(b, pat)
  {
    ContainsAround(a, '\n', b, pat);
  }

  lemma HereDocHasNoMarker(text: Bytes, hd: Bytes, rest: Bytes, pat: Bytes)
    requires LongPattern(pat) && text != [] && text[|text| - 1] == '\n'
    requires !Contains(text[..|text| - 1], pat) && !Contains(hd, pat) && !Contains(rest, pat)
    ensures !Contains("}" + (" <<'" + (hd + ("'\n" + (text + (hd + ("\n" + rest)))))), pat)
  {
    var t := text[..|text| - 1];
    var s4 := hd + ("\n" + rest);
    NewlineSeparates(hd, rest, pat);
    var s3 := text + s4;
    assert s3 == t + ("\n" + s4);
    NewlineSeparates(t, s4, pat);
    var s2 := hd + ("'\n" + s3);
    assert "'\n" + s3 == ['\''] + ([] + ("\n" + s3));
    NewlineSeparates([], s3, pat);
    ContainsAround(hd, '\'', [] + ("\n" + s3), pat);
    assert "}" + (" <<'" + s2) == "} <<" + (['\''] + s2);
    ContainsAround("} <<", '\'', s2, pat);
    TooShort("} <<", pat);
    TooShort([], pat);
  }

  lemma PrefixContains(s: Bytes, n: nat, pat: Bytes)
    requires n <= |s| && !Contains(s, pat)
    ensures !Contains(s[..n], pat)
  {
    forall i ensures !OccursAt(s[..n], pat, i) {
      assert s == s[..n] + s[n..];
      if i + |pat| <= n { OccursInLeft(s[..n], s[n..], pat, i); }
    }
  }

  lemma GroupHasNoMarker(cmd: Bytes, stdin: Bytes, hd: Bytes, pat: Bytes)
    requires LongPattern(pat) && !Contains(cmd, pat) && !Contains(stdin, pat) && !Contains(hd, pat)
    ensures !Contains(BraceGroup(cmd, stdin, hd), pat)
  {
    var after := "}" + AfterGroup(stdin, hd);
    EpilogueHasNoRoom(pat);
    if stdin == [] {
      SemicolonSeparates("}", Epilogue(), pat);
      TooShort("}", pat);
    } else {
      var text := Completed(stdin);
      PrefixContains(stdin, |text| - 1, pat);
      assert text[..|text| - 1] == stdin[..|text| - 1];
      HereDocHasNoMarker(text, hd, Epilogue(), pat);
    }
    assert "\n}" + AfterGroup(stdin, hd) == "\n" + after;
    NewlineSeparates(cmd, after, pat);
    assert BraceGroup(cmd, stdin, hd) == "{" + ([' '] + (cmd + ("\n" + after)));
    ContainsAround("{", ' ', cmd + ("\n" + after), pat);
    TooShort("{", pat);
  }

  lemma MarkersAreLong(pat: Bytes, nonce: Bytes)
    requires IsMarker(pat, nonce) && IsHex(nonce)
    ensures LongPattern(pat)
  {
    MarkerShape(pat, nonce);
  }

  /** What follows `__PR_N=` in the wrapper. */
  function WrapperRest(cmd: Bytes, stdin: Bytes, nonce: Bytes): Bytes {
    nonce + ("; " + (BEG_PRINTF + ("; " + BraceGroup(cmd, stdin, StdinDelimiter(nonce)))))
  }

  lemma RestHasNoMarker(cmd: Bytes, stdin: Bytes, nonce: Bytes, pat: Bytes)
    requires IsHex(nonce) && IsMarker(pat, nonce) && !Contains(cmd, nonce) && !Contains(stdin, nonce)
    ensures !Contains(WrapperRest(cmd, stdin, nonce), pat)
  {
    MarkersAreLong(pat, nonce);
    MarkerShape(pat, nonce);
    var hd := StdinDelimiter(nonce);
    if Contains(cmd, pat) { MarkerHasNonce(cmd, pat, nonce); }
    if Contains(stdin, pat) { MarkerHasNonce(stdin, pat, nonce); }
    DelimiterHasNoMarker(pat, nonce);
    var group := BraceGroup(cmd, stdin, hd);
    GroupHasNoMarker(cmd, stdin, hd, pat);
    PrintfsHaveNoRoom(pat);
    SemicolonSeparates(BEG_PRINTF, group, pat);
    TooShort(nonce, pat);
    SemicolonSeparates(nonce, BEG_PRINTF + ("; " + group), pat);
  }

  lemma WrapperText(cmd: Bytes, stdin: Bytes, nonce: Bytes)
    requires WrapCommand(cmd, stdin, nonce).Some?
    ensures WrapCommand(cmd, stdin, nonce).value == "__PR_N" + (['='] + WrapperRest(cmd, stdin, nonce))
  {
    var rest := WrapperRest(cmd, stdin, nonce);
    assert "__PR_N=" + rest == "__PR_N" + (['='] + rest);
  }

  // ---- the terminal's translation adds no marker ----

  lemma {:induction false} CrlfHasNoMarker(s: Bytes, pat: Bytes)
    requires LongPattern(pat) && !Contains(s, pat)
    ensures !Contains(Crlf(s), pat)
    decreases |s|
  {
    var nl := NewlineIndex(s);
    if nl < 0 {
      CrlfOfLine(s);
    } else {
      CrlfLine(s, nl);
      var a, b := s[..nl], s[nl + 1..];
      PrefixContains(s, nl, pat);
      assert s == s[..nl + 1] + b;
      if i :| OccursAt(b, pat, i) {
        OccursInRight(s[..nl + 1], b, pat, nl + 1 + i);
        assert false;
      }
      CrlfHasNoMarker(b, pat);
      assert "\r\n" + Crlf(b) == ['\r'] + ([] + ("\n" + Crlf(b)));
      ContainsAround(a, '\r', [] + ("\n" + Crlf(b)), pat);
      NewlineSeparates([], Crlf(b), pat);
      TooShort([], pat);
    }
  }

  /** The echo of the wrapper contains neither marker, as long as the nonce is in neither the command nor its input. */
  lemma EchoHasNoMarker(cmd: Bytes, stdin: Bytes, nonce: Bytes, onlcr: bool, pat: Bytes)
    requires IsHex(nonce) && IsMarker(pat, nonce) && WrapCommand(cmd, stdin, nonce).Some?
    requires !Contains(cmd, nonce) && !Contains(stdin, nonce)
    ensures !Contains(Tty(WrapCommand(cmd, stdin, nonce).value, onlcr), pat)
  {
    MarkersAreLong(pat, nonce);
    RestHasNoMarker(cmd, stdin, nonce, pat);
    WrapperText(cmd, stdin, nonce);
    ContainsAround("__PR_N", '=', WrapperRest(cmd, stdin, nonce), pat);
    TooShort("__PR_N", pat);
    CrlfHasNoMarker(WrapCommand(cmd, stdin, nonce).value, pat);
  }

  // ---- nor one that begins in the noise before it ----

  /** A marker straddling into the wrapper's first name would leave its whole nonce in the noise. */
  lemma NoiseEndsBeforeMarker(noise: Bytes, pat: Bytes, nonce: Bytes)
    requires IsMarker(pat, nonce) && IsHex(nonce) && !Contains(noise, nonce)
    ensures !Contains(noise + "__PR_N", pat)
  {
    MarkerShape(pat, nonce);
    var s, n := noise + "__PR_N", |nonce|;
    forall i ensures !OccursAt(s, pat, i) {
      if 0 <= i <= |s| - |pat| {
        if i + 9 + n <= |noise| {
          assert !OccursAt(noise, nonce, i + 9);
          var k :| 0 <= k < n && noise[i + 9 + k] != nonce[k];
          assert s[i + (9 + k)] == noise[i + 9 + k] != pat[9 + k];
        } else {
          var q := i + 8 + n - |noise|;
          assert s[i + (8 + n)] == "__PR_N"[q];
          assert pat[9 + (n - 1)] == nonce[n - 1];
          assert "__PR_N"[q] in {'_', 'P', 'R'};
          assert s[i + (8 + n)] != pat[8 + n];
        }
      }
    }
  }

  lemma EchoShape(rest: Bytes, onlcr: bool)
    ensures Tty("__PR_N" + (['='] + rest), onlcr) == "__PR_N" + (['='] + Tty(rest, onlcr))
  {
    CrlfOfPrefix("__PR_N", ['='] + rest);
    CrlfOfPrefix(['='], rest);
  }

  lemma NoiseAndEchoHaveNoMarker(noise: Bytes, cmd: Bytes, stdin: Bytes, nonce: Bytes, onlcr: bool, pat: Bytes)
    requires IsHex(nonce) && IsMarker(pat, nonce) && WrapCommand(cmd, stdin, nonce).Some?
    requires !Contains(noise, nonce) && !Contains(cmd, nonce) && !Contains(stdin, nonce)
    ensures !Contains(noise + Tty(WrapCommand(cmd, stdin, nonce).value, onlcr), pat)
  {
    MarkersAreLong(pat, nonce);
    var rest := WrapperRest(cmd, stdin, nonce);
    RestHasNoMarker(cmd, stdin, nonce, pat);
    CrlfHasNoMarker(rest, pat);
    WrapperText(cmd, stdin, nonce);
    EchoShape(rest, onlcr);
    var e := Tty(rest, onlcr);
    Assoc(noise, "__PR_N", ['='] + e);
    NoiseEndsBeforeMarker(noise, pat, nonce);
    ContainsAround(noise + "__PR_N", '=', e, pat);
  }

  // ---- reading the frame ----

  lemma FindMarker(before: Bytes, pat: Bytes, after: Bytes)
    requires LongPattern(pat) && !Contains(before, pat)
    ensures Index(before + ("\n" + (pat + after)), pat) == |before| + 1
    ensures (before + ("\n" + (pat + after)))[..|before| + 1] == before + "\n"
    ensures (before + ("\n" + (pat + after)))[|before| + 1 + |pat|..] == after
  {
    var s := before + ("\n" + (pat + after));
    forall j | 0 <= j < |before| + 1 ensures !OccursAt(s, pat, j) {
      if OccursAt(s, pat, j) {
        OccursAround(before, '\n', pat + after, pat, j);
        assert false;
      }
    }
    Assoc(before, "\n", pat + after);
    OccursInRight(before + "\n", pat + after, pat, |before| + 1);
    OccursInLeft(pat, after, pat, 0);
    IndexUnique(s, pat, |before| + 1);
  }

  lemma LineStops(line: Bytes, tail: Bytes)
    requires '\n' !in line
    ensures NewlineIndex(line + ("\n" + tail)) == |line|
    ensures (line + ("\n" + tail))[..|line|] == line && (line + ("\n" + tail))[|line| + 1..] == tail
  {
    var s := line + ("\n" + tail);
    assert s[|line|] == '\n' && forall k :: 0 <= k < |line| ==> s[k] == line[k];
    NewlineAt(s, |line|);
  }

  lemma BodyOfFrame(before: Bytes, beg: Bytes, cr: Bytes, body: Bytes)
    requires LongPattern(beg) && !Contains(before, beg) && '\n' !in cr
    ensures Body(beg, before + ("\n" + (beg + (cr + ("\n" + body))))) == Some(body)
  {
    FindMarker(before, beg, cr + ("\n" + body));
    LineStops(cr, body);
  }

  lemma SplitOfFrame(x: Bytes, end: Bytes, rest: Bytes)
    requires LongPattern(end) && !Contains(x, end)
    ensures SplitEnd(end, x + ("\n" + (end + rest))) == Some((x + "\n", rest))
  {
    FindMarker(x, end, rest);
  }

  /** What is reported of a command's output: one final CR is taken for part of the line end. */
  function Reported(x: Bytes): Bytes {
    if x != [] && x[|x| - 1] == '\r' then x[..|x| - 1] else x
  }

  lemma ChopIsReported(x: Bytes)
    ensures ChopNewline(CompleteLines(x + "\n")) == Reported(x)
  {
    var raw := x + "\n";
    assert raw[|raw| - 1] == '\n' && raw[..|raw| - 1] == x;
  }

  lemma ExitOfFrame(output: Bytes, code: nat, cr: Bytes, tail: Bytes)
    requires code <= MAX_INT && cr in {[], "\r"}
    ensures ExitVerdict(output, Print(code) + (cr + ("\n" + tail))) == Done(output, code)
  {
    var line := Print(code) + cr;
    Assoc(Print(code), cr, "\n" + tail);
    LineStops(line, tail);
    ExitCodeRoundTrip(code);
    assert Print(code) + [] == Print(code);
  }

  /** The frame, as the terminal shows it, in any surroundings. */
  lemma ParseFrame(before: Bytes, nonce: Bytes, x: Bytes, code: nat, cr: Bytes, tail: Bytes)
    requires IsHex(nonce) && cr in {[], "\r"} && code <= MAX_INT
    requires !Contains(before, BegMarker(nonce)) && !Contains(x, EndMarker(nonce))
    ensures var beg, end, rest := BegMarker(nonce), EndMarker(nonce), Print(code) + (cr + ("\n" + tail));
            var s := before + ("\n" + (beg + (cr + ("\n" + (x + ("\n" + (end + rest)))))));
            Parse(beg, end, s) == Done(Reported(x), code) && Split(beg, end, s) == Some((x + "\n", rest))
  {
    var beg, end := BegMarker(nonce), EndMarker(nonce);
    MarkersAreLong(beg, nonce);
    MarkersAreLong(end, nonce);
    var rest := Print(code) + (cr + ("\n" + tail));
    BodyOfFrame(before, beg, cr, x + ("\n" + (end + rest)));
    SplitOfFrame(x, end, rest);
    ChopIsReported(x);
    ExitOfFrame(Reported(x), code, cr, tail);
  }

  /** A frame that completes when it is cut after END and exceeds the limit when it is not. */
  lemma SameFrameTwoVerdicts(nonce: Bytes, x: Bytes, code: nat, maxOutput: int)
    requires IsHex(nonce) && code <= MAX_INT && !Contains(x, EndMarker(nonce))
    requires maxOutput == |x| + 1 + |EndMarker(nonce)|
    ensures var beg, end, rest := BegMarker(nonce), EndMarker(nonce), Print(code) + "\n";
            var t := "\n" + (beg + ("\n" + (x + ("\n" + end))));
            && Sentinel.Run(beg, end, maxOutput, [t, rest]) == Done(Reported(x), code)
            && Sentinel.Run(beg, end, maxOutput, [t + rest]) == TooLong
  {
    var beg, end, n := BegMarker(nonce), EndMarker(nonce), Print(code);
    var t, rest := "\n" + (beg + ("\n" + (x + ("\n" + end)))), n + "\n";
    MarkersAreLong(beg, nonce);
    MarkersAreLong(end, nonce);
    TooShort([], beg);
    BodyOfFrame([], beg, [], x + ("\n" + end));
    SplitOfFrame(x, end, []);
    CutFrameShape(beg, x, end, n);
    ParseFrame([], nonce, x, code, [], []);
    Chunking.LimitDependsOnChunking(beg, end, maxOutput, t, rest);
  }

  lemma CutFrameShape(beg: Bytes, x: Bytes, end: Bytes, n: Bytes)
    ensures "\n" + (beg + ("\n" + (x + ("\n" + end)))) ==
            [] + ("\n" + (beg + ([] + ("\n" + (x + ("\n" + end))))))
    ensures x + ("\n" + (end + [])) == x + ("\n" + end)
    ensures "\n" + (beg + ("\n" + (x + ("\n" + end)))) + (n + "\n") ==
            [] + ("\n" + (beg + ([] + ("\n" + (x + ("\n" + (end + (n + ([] + ("\n" + []))))))))))
  {
  }

  // ---- the terminal's output ----

  lemma CrlfOfFrame(nonce: Bytes, x: Bytes, code: nat)
    requires IsHex(nonce)
    ensures Crlf(Frame(nonce, x, code)) ==
            "\r\n" + BegMarker(nonce) + "\r\n" + Crlf(x) + "\r\n" + EndMarker(nonce) + Print(code) + "\r\n"
  {
    var beg, end, n := BegMarker(nonce), EndMarker(nonce), Print(code);
    HexIsPlain(nonce);
    MarkersOf(nonce);
    CrlfOfNewline([]);
    CrlfOfLine(beg);
    CrlfOfLine(end);
    CrlfOfLine(n);
    CrlfAppend("\n" + beg + "\n" + x + "\n" + end + n, "\n");
    CrlfAppend("\n" + beg + "\n" + x + "\n" + end, n);
    CrlfAppend("\n" + beg + "\n" + x + "\n", end);
    CrlfAppend("\n" + beg + "\n" + x, "\n");
    CrlfAppend("\n" + beg + "\n", x);
    CrlfAppend("\n" + beg, "\n");
    CrlfAppend("\n", beg);
  }

  lemma FrameShape(before: Bytes, beg: Bytes, x: Bytes, end: Bytes, n: Bytes, tail: Bytes)
    ensures before + ("\n" + beg + "\n" + x + "\n" + end + n + "\n") + tail ==
            before + ("\n" + (beg + ([] + ("\n" + (x + ("\n" + (end + (n + ([] + ("\n" + tail))))))))))
  {
  }

  lemma FrameShapeCr(before: Bytes, beg: Bytes, x: Bytes, end: Bytes, n: Bytes, tail: Bytes)
    ensures before + ("\r\n" + beg + "\r\n" + x + "\r\n" + end + n + "\r\n") + tail ==
            (before + "\r")
            + ("\n" + (beg + ("\r" + ("\n" + ((x + "\r") + ("\n" + (end + (n + ("\r" + ("\n" + tail))))))))))
  {
  }

  lemma CrAddsNoMarker(s: Bytes, pat: Bytes)
    requires LongPattern(pat) && !Contains(s, pat)
    ensures !Contains(s + "\r", pat)
  {
    assert s + "\r" == s + (['\r'] + []);
    ContainsAround(s, '\r', [], pat);
    TooShort([], pat);
  }

  /** A frame on a terminal, with or without ONLCR, parses to the output it carries. */
  lemma ParseTerminal(before: Bytes, nonce: Bytes, x: Bytes, code: nat, onlcr: bool, tail: Bytes)
    requires IsHex(nonce) && code <= MAX_INT
    requires !Contains(before, BegMarker(nonce)) && !Contains(x, EndMarker(nonce))
    ensures var beg, end, s := BegMarker(nonce), EndMarker(nonce), before + Tty(Frame(nonce, x, code), onlcr) + tail;
            && Parse(beg, end, s) == Done(if onlcr then Crlf(x) else Reported(x), code)
            && Split(beg, end, s).Some? && Split(beg, end, s).value.0 == Tty(x + "\n", onlcr)
  {
    var beg, end := BegMarker(nonce), EndMarker(nonce);
    if onlcr {
      MarkersAreLong(beg, nonce);
      MarkersAreLong(end, nonce);
      CrlfOfFrame(nonce, x, code);
      CrlfHasNoMarker(x, end);
      CrAddsNoMarker(before, beg);
      CrAddsNoMarker(Crlf(x), end);
      ParseFrame(before + "\r", nonce, Crlf(x) + "\r", code, "\r", tail);
      FrameShapeCr(before, beg, Crlf(x), end, Print(code), tail);
      assert (Crlf(x) + "\r")[..|Crlf(x)|] == Crlf(x);
      CrlfLastLine(x);
    } else {
      ParseFrame(before, nonce, x, code, [], tail);
      FrameShape(before, beg, x, end, Print(code), tail);
    }
  }

  /**
    End to end. Send the wrapper of a command: the terminal shows noise, the echo of the wrapper, what running
    the wrapper prints, and anything after. However those bytes are cut into chunks, the framed parser returns
    what the command printed on its input and its exit code. Without ONLCR one final CR is lost; with it LF comes
    back as CRLF.
   */
  lemma CommandResult(cmd: Bytes, stdin: Bytes, input: Bytes, nonce: Bytes, m: Machine, run: Program, noise: Bytes,
                      echoCrlf: bool, onlcr: bool, tail: Bytes, maxOutput: int, chunks: seq<Bytes>)
    requires IsHex(nonce) && WrapCommand(cmd, stdin, nonce).Some? && m.output == []
    requires input == if stdin == [] || stdin[|stdin| - 1] == '\n' then stdin else stdin + "\n"
    requires !Contains(noise, nonce) && !Contains(cmd, nonce) && !Contains(stdin, nonce)
    requires !Contains(run(input).0, EndMarker(nonce)) && run(input).1 <= MAX_INT
    ensures Exec(WrapCommand(cmd, stdin, nonce).value, m, cmd, run).Some?
    ensures
      var w := WrapCommand(cmd, stdin, nonce).value;
      var (x, code) := run(input);
      var result := Done(if onlcr then Crlf(x) else Reported(x), code);
      Concat(chunks) == noise + Tty(w, echoCrlf) + Tty(Exec(w, m, cmd, run).value.output, onlcr) + tail ==>
        var v := Sentinel.Run(BegMarker(nonce), EndMarker(nonce), maxOutput, chunks);
        if maxOutput <= 0 then v == result else v in {result, TooLong}
  {
    var w := WrapCommand(cmd, stdin, nonce).value;
    var x, code := run(input).0, run(input).1;
    var beg, end := BegMarker(nonce), EndMarker(nonce);
    WrapperRuns(cmd, stdin, input, nonce, m, run);
    assert [] + Frame(nonce, x, code) == Frame(nonce, x, code);
    NoiseAndEchoHaveNoMarker(noise, cmd, stdin, nonce, echoCrlf, beg);
    ParseTerminal(noise + Tty(w, echoCrlf), nonce, x, code, onlcr, tail);
    Chunking.CompletionIsExact(beg, end, maxOutput, chunks);
    if maxOutput <= 0 {
      Chunking.ChunkingInvariance(beg, end, maxOutput, chunks);
    }
  }

  lemma CrlfLastLine(x: Bytes)
    ensures Crlf(x + "\n") == Crlf(x) + "\r" + "\n"
  {
    CrlfAppend(x, "\n");
    CrlfOfNewline([]);
  }

  lemma EndsLine(x: Bytes, onlcr: bool)
    ensures Agreement.WellFormed(Tty(x + "\n", onlcr))
  {
    CrlfLastLine(x);
  }

  /**
    The same for Pipe: its reader gets what the command printed, and the newline the wrapper adds as well exactly if a
    chunk ended after that newline and before END was complete; the exit code is the command's.
   */
  lemma PipeResult(cmd: Bytes, nonce: Bytes, m: Machine, run: Program, noise: Bytes, echoCrlf: bool, onlcr: bool,
                   tail: Bytes, chunks: seq<Bytes>)
    requires IsHex(nonce) && WrapCommand(cmd, [], nonce).Some? && m.output == []
    requires !Contains(noise, nonce) && !Contains(cmd, nonce)
    requires !Contains(run([]).0, EndMarker(nonce)) && run([]).1 <= MAX_INT
    ensures Exec(WrapCommand(cmd, [], nonce).value, m, cmd, run).Some?
    ensures
      var w, beg, end := WrapCommand(cmd, [], nonce).value, BegMarker(nonce), EndMarker(nonce);
      var (x, code) := run([]);
      var raw, own := Tty(x + "\n", onlcr), if onlcr then Crlf(x) else Reported(x);
      Concat(chunks) == noise + Tty(w, echoCrlf) + Tty(Exec(w, m, cmd, run).value.output, onlcr) + tail ==>
        exists n ::
          && Agreement.EndAppearsAt(beg, end, chunks, n)
          && Agreement.Streamed(beg, end, chunks) ==
             Done(if Agreement.HasGrown(Body(beg, Concat(chunks[..n - 1])), |raw|) then raw else own, code)
  {
    var w := WrapCommand(cmd, [], nonce).value;
    var x, code := run([]).0, run([]).1;
    var beg, end := BegMarker(nonce), EndMarker(nonce);
    WrapperRuns(cmd, [], [], nonce, m, run);
    assert [] + Frame(nonce, x, code) == Frame(nonce, x, code);
    TooShort([], nonce);
    NoiseAndEchoHaveNoMarker(noise, cmd, [], nonce, echoCrlf, beg);
    ParseTerminal(noise + Tty(w, echoCrlf), nonce, x, code, onlcr, tail);
    EndsLine(x, onlcr);
    if Concat(chunks) == noise + Tty(w, echoCrlf) + Tty(Exec(w, m, cmd, run).value.output, onlcr) + tail {
      var own := Done(if onlcr then Crlf(x) else Reported(x), code);
      var (raw, rest) := Split(beg, end, Concat(chunks)).value;
      var n := Agreement.StreamedExactly(beg, end, chunks, raw, rest, own);
    }
  }
}
