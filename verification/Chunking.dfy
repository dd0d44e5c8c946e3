/** How the verdict depends on where the stream is cut into chunks. */
module Chunking {
  import opened Bytes
  import opened Framing
  import opened Sentinel

  /** A verdict, once reached, is repeated whatever is fed afterwards. */
  lemma {:induction false} RunSticky(beg: Bytes, end: Bytes, maxOutput: int, chunks: seq<Bytes>, more: seq<Bytes>)
    requires Run(beg, end, maxOutput, chunks) != Pending
    ensures Run(beg, end, maxOutput, chunks + more) == Run(beg, end, maxOutput, chunks)
  {
    if more == [] {
      assert chunks + more == chunks;
    } else {
      var init, last := more[..|more| - 1], more[|more| - 1];
      RunSticky(beg, end, maxOutput, chunks, init);
      assert chunks + more == (chunks + init) + [last];
      RunSnoc(beg, end, maxOutput, chunks + init, last);
    }
  }

  lemma ParseOfNothing(beg: Bytes, end: Bytes)
    ensures Parse(beg, end, []) == Pending
  {
    if beg == [] {
      assert OccursAt([], beg, 0);
    }
  }

  /** With a limit, a run that completes reports what the whole stream says; so two completing runs agree. */
  lemma {:induction false} CompletionIsExact(beg: Bytes, end: Bytes, maxOutput: int, chunks: seq<Bytes>)
    ensures Run(beg, end, maxOutput, chunks) in {TooLong, Parse(beg, end, Concat(chunks))}
  {
    if chunks == [] {
      ParseOfNothing(beg, end);
    } else {
      var init, last := chunks[..|chunks| - 1], chunks[|chunks| - 1];
      CompletionIsExact(beg, end, maxOutput, init);
      InitLast(chunks);
      RunSnoc(beg, end, maxOutput, init, last);
      if Parse(beg, end, Concat(init)) != Pending {
        ParseStable(beg, end, Concat(init), last);
      }
    }
  }

  // ---- refining a chunking ----

  /** One chunk for each group. */
  function Coarse(groups: seq<seq<Bytes>>): seq<Bytes> {
    if groups == [] then [] else Coarse(groups[..|groups| - 1]) + [Concat(groups[|groups| - 1])]
  }

  /** Every group cut into its pieces. */
  function Fine(groups: seq<seq<Bytes>>): seq<Bytes> {
    if groups == [] then [] else Fine(groups[..|groups| - 1]) + groups[|groups| - 1]
  }

  lemma {:induction false} SameStream(groups: seq<seq<Bytes>>)
    ensures Concat(Fine(groups)) == Concat(Coarse(groups))
  {
    if groups != [] {
      var init, last := groups[..|groups| - 1], groups[|groups| - 1];
      SameStream(init);
      ConcatAppend(Fine(init), last);
      ConcatSnoc(Coarse(init), Concat(last));
    }
  }

  /** The limit only ever looks at more when it looks later. */
  lemma JudgeShorter(beg: Bytes, end: Bytes, maxOutput: int, before: Bytes, now: Bytes, t: Bytes)
    requires Judge(beg, end, maxOutput, before, now + t) != TooLong
    ensures Judge(beg, end, maxOutput, before, now) != TooLong
  {
    if Body(beg, now).Some? {
      BodyStable(beg, now, t);
    }
  }

  lemma OneMorePiece(beg: Bytes, end: Bytes, maxOutput: int, chunks: seq<Bytes>, before: Bytes, t: Bytes, u: Bytes)
    requires Concat(chunks) == before + t
    requires Run(beg, end, maxOutput, chunks) == Parse(beg, end, before + t)
    requires Judge(beg, end, maxOutput, before, (before + t) + u) != TooLong
    ensures Run(beg, end, maxOutput, chunks + [u]) == Parse(beg, end, (before + t) + u)
  {
    RunSnoc(beg, end, maxOutput, chunks, u);
    if Parse(beg, end, before + t) != Pending {
      ParseStable(beg, end, before + t, u);
    } else if Split(beg, end, before).Some? {
      SplitStable(beg, end, before, t);
    }
  }

  /** Feeding one chunk piece by piece: if the chunk as a whole passes the limit, so do the pieces. */
  lemma {:induction false} PiecesOfOneChunk(beg: Bytes, end: Bytes, maxOutput: int, fed: seq<Bytes>, pieces: seq<Bytes>)
    requires Run(beg, end, maxOutput, fed) == Pending
    requires Parse(beg, end, Concat(fed)) == Pending
    requires Judge(beg, end, maxOutput, Concat(fed), Concat(fed) + Concat(pieces)) != TooLong
    ensures Run(beg, end, maxOutput, fed + pieces) == Parse(beg, end, Concat(fed) + Concat(pieces))
  {
    var before := Concat(fed);
    if pieces == [] {
      assert fed + pieces == fed && before + [] == before;
    } else {
      var init, last := pieces[..|pieces| - 1], pieces[|pieces| - 1];
      var mid := before + Concat(init);
      InitLast(pieces);
      ConcatOne(fed, init, last);
      JudgeShorter(beg, end, maxOutput, before, mid, last);
      PiecesOfOneChunk(beg, end, maxOutput, fed, init);
      OneMorePiece(beg, end, maxOutput, fed + init, before, Concat(init), last);
    }
  }

  /**
    The output limit is monotone in the chunking: whatever one chunking decides without exceeding the limit,
    every refinement of it decides too, and in the same way.
   */
  lemma {:induction false} RefinementKeepsVerdict(beg: Bytes, end: Bytes, maxOutput: int, groups: seq<seq<Bytes>>)
    requires Run(beg, end, maxOutput, Coarse(groups)) != TooLong
    ensures Run(beg, end, maxOutput, Fine(groups)) == Run(beg, end, maxOutput, Coarse(groups))
  {
    if groups != [] {
      var init, last := groups[..|groups| - 1], groups[|groups| - 1];
      var coarse, fine := Coarse(init), Fine(init);
      RunSnoc(beg, end, maxOutput, coarse, Concat(last));
      RefinementKeepsVerdict(beg, end, maxOutput, init);
      SameStream(init);
      if Run(beg, end, maxOutput, coarse) != Pending {
        RunSticky(beg, end, maxOutput, fine, last);
      } else {
        CompletionIsExact(beg, end, maxOutput, coarse);
        PiecesOfOneChunk(beg, end, maxOutput, fine, last);
      }
    }
  }

  /** The limit is met at the `n`-th chunk, before END has been seen. */
  ghost predicate ExceedsAt(beg: Bytes, end: Bytes, maxOutput: int, chunks: seq<Bytes>, n: int) {
    && 0 < n <= |chunks|
    && Split(beg, end, Concat(chunks[..n - 1])).None?
    && Body(beg, Concat(chunks[..n])).Some?
    && OverLimit(maxOutput, |Body(beg, Concat(chunks[..n])).value|)
  }

  lemma ExceedsInPrefix(beg: Bytes, end: Bytes, maxOutput: int, init: seq<Bytes>, last: Bytes, n: int)
    requires 0 < n <= |init|
    ensures ExceedsAt(beg, end, maxOutput, init + [last], n) == ExceedsAt(beg, end, maxOutput, init, n)
  {
    assert (init + [last])[..n] == init[..n] && (init + [last])[..n - 1] == init[..n - 1];
  }

  lemma ExceedsAtLast(beg: Bytes, end: Bytes, maxOutput: int, init: seq<Bytes>, last: Bytes)
    requires Run(beg, end, maxOutput, init) == Pending
    ensures Run(beg, end, maxOutput, init + [last]) == TooLong <==>
            ExceedsAt(beg, end, maxOutput, init + [last], |init| + 1)
  {
    RunSnoc(beg, end, maxOutput, init, last);
    assert (init + [last])[..|init| + 1] == init + [last] && (init + [last])[..|init|] == init;
  }

  lemma {:induction false} ExceedingFails(beg: Bytes, end: Bytes, maxOutput: int, chunks: seq<Bytes>, n: int)
    requires ExceedsAt(beg, end, maxOutput, chunks, n)
    ensures Run(beg, end, maxOutput, chunks) == TooLong
  {
    var init, last := chunks[..|chunks| - 1], chunks[|chunks| - 1];
    InitLast(chunks);
    if n < |chunks| {
      ExceedsInPrefix(beg, end, maxOutput, init, last, n);
      ExceedingFails(beg, end, maxOutput, init, n);
    } else {
      CompletionIsExact(beg, end, maxOutput, init);
      if Run(beg, end, maxOutput, init) == Pending {
        ExceedsAtLast(beg, end, maxOutput, init, last);
      }
    }
  }

  lemma {:induction false} FailureHasCause(beg: Bytes, end: Bytes, maxOutput: int, chunks: seq<Bytes>) returns (n: int)
    requires Run(beg, end, maxOutput, chunks) == TooLong
    ensures ExceedsAt(beg, end, maxOutput, chunks, n)
  {
    var init, last := chunks[..|chunks| - 1], chunks[|chunks| - 1];
    InitLast(chunks);
    if Run(beg, end, maxOutput, init) == Pending {
      ExceedsAtLast(beg, end, maxOutput, init, last);
      return |chunks|;
    }
    n := FailureHasCause(beg, end, maxOutput, init);
    ExceedsInPrefix(beg, end, maxOutput, init, last, n);
  }

  /** Exactly when the limit fails a command: some chunk overfills the buffer while END is still unseen. */
  lemma {:induction false} TooLongExactly(beg: Bytes, end: Bytes, maxOutput: int, chunks: seq<Bytes>)
    ensures Run(beg, end, maxOutput, chunks) == TooLong <==>
            exists n :: ExceedsAt(beg, end, maxOutput, chunks, n)
  {
    if Run(beg, end, maxOutput, chunks) == TooLong {
      var n := FailureHasCause(beg, end, maxOutput, chunks);
    } else if n :| ExceedsAt(beg, end, maxOutput, chunks, n) {
      ExceedingFails(beg, end, maxOutput, chunks, n);
    }
  }

  /**
    The limit depends on the chunking: cut a complete stream anywhere after END. Whole, it fails exactly when all of
    the body exceeds the limit; cut, exactly when the body up to the cut does.
   */
  lemma {:induction false} LimitDependsOnChunking(beg: Bytes, end: Bytes, maxOutput: int, t: Bytes, rest: Bytes)
    requires beg != [] && Split(beg, end, t).Some? && Parse(beg, end, t + rest).Done?
    ensures Body(beg, t).Some? && Body(beg, t + rest) == Some(Body(beg, t).value + rest)
    ensures var v, n := Parse(beg, end, t + rest), |Body(beg, t).value|;
            && Run(beg, end, maxOutput, [t + rest]) == (if OverLimit(maxOutput, n + |rest|) then TooLong else v)
            && Run(beg, end, maxOutput, [t, rest]) == (if OverLimit(maxOutput, n) then TooLong else v)
  {
    BodyStable(beg, t, rest);
    FirstChunk(beg, end, maxOutput, t + rest);
    SecondChunk(beg, end, maxOutput, t, rest);
  }

  lemma FirstChunk(beg: Bytes, end: Bytes, maxOutput: int, c: Bytes)
    requires beg != []
    ensures Concat([c]) == c
    ensures Run(beg, end, maxOutput, [c]) ==
            if Body(beg, c).Some? && OverLimit(maxOutput, |Body(beg, c).value|) then TooLong else Parse(beg, end, c)
  {
    RunSnoc(beg, end, maxOutput, [], c);
    assert [] + [c] == [c] && [] + c == c;
    NothingYet(beg);
  }

  lemma SecondChunk(beg: Bytes, end: Bytes, maxOutput: int, t: Bytes, rest: Bytes)
    requires beg != [] && Split(beg, end, t).Some? && Body(beg, t).Some?
    ensures Run(beg, end, maxOutput, [t, rest]) ==
            if OverLimit(maxOutput, |Body(beg, t).value|) then TooLong else Parse(beg, end, t + rest)
  {
    FirstChunk(beg, end, maxOutput, t);
    RunSnoc(beg, end, maxOutput, [t], rest);
    assert [t] + [rest] == [t, rest];
    if Parse(beg, end, t) != Pending {
      ParseStable(beg, end, t, rest);
    }
  }

  /** Without a limit, the chunks do not matter: the verdict is that of the whole stream. */
  lemma {:induction false} ChunkingInvariance(beg: Bytes, end: Bytes, maxOutput: int, chunks: seq<Bytes>)
    requires maxOutput <= 0
    ensures Run(beg, end, maxOutput, chunks) == Parse(beg, end, Concat(chunks))
  {
    CompletionIsExact(beg, end, maxOutput, chunks);
    TooLongExactly(beg, end, maxOutput, chunks);
  }
}
