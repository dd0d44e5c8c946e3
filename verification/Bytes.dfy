/** Byte strings and substring search. A byte is a `char`; no statement here depends on its range. */
module Bytes {

  type Bytes = seq<char>

  datatype Option<+T> = None | Some(value: T)

  function Min(a: int, b: int): int { if a <= b then a else b }

  function Max(a: int, b: int): int { if a <= b then b else a }

  predicate OccursAt(s: Bytes, pat: Bytes, i: int) {
    0 <= i <= |s| - |pat| && forall k :: 0 <= k < |pat| ==> s[i + k] == pat[k]
  }

  ghost predicate Contains(s: Bytes, pat: Bytes) {
    exists i :: OccursAt(s, pat, i)
  }

  /** Go's bytes.Index: the first occurrence of `pat` in `s`, or -1. */
  function Index(s: Bytes, pat: Bytes): (r: int)
    ensures r < 0 ==> r == -1 && !Contains(s, pat)
    ensures r >= 0 ==> OccursAt(s, pat, r) && forall j :: 0 <= j < r ==> !OccursAt(s, pat, j)
  {
    IndexFrom(s, pat, 0)
  }

  function IndexFrom(s: Bytes, pat: Bytes, i: nat): (r: int)
    requires i <= |s|
    ensures r < 0 ==> r == -1 && forall j :: i <= j ==> !OccursAt(s, pat, j)
    ensures r >= 0 ==> i <= r && OccursAt(s, pat, r) && forall j :: i <= j < r ==> !OccursAt(s, pat, j)
    decreases |s| - i
  {
    if OccursAt(s, pat, i) then i
    else if i == |s| then -1
    else IndexFrom(s, pat, i + 1)
  }

  /** bytes.IndexByte(s, '\n'). */
  function NewlineIndex(s: Bytes): (r: int)
    ensures r < 0 ==> r == -1 && '\n' !in s
    ensures r >= 0 ==> r < |s| && s[r] == '\n' && forall k :: 0 <= k < r ==> s[k] != '\n'
  {
    if s == [] then -1
    else if s[0] == '\n' then 0
    else
      var r := NewlineIndex(s[1..]);
      assert forall k :: 1 <= k < |s| ==> s[k] == s[1..][k - 1];
      if r < 0 then -1 else r + 1
  }

  function Lookup<V>(m: map<Bytes, V>, k: Bytes): Option<V> {
    if k in m then Some(m[k]) else None
  }

  /** Where a trace of states ends. */
  function Final<T>(start: T, trace: seq<T>): T {
    if trace == [] then start else trace[|trace| - 1]
  }

  /** All the chunks of a stream, in order. */
  function Concat(chunks: seq<Bytes>): Bytes {
    if chunks == [] then [] else Concat(chunks[..|chunks| - 1]) + chunks[|chunks| - 1]
  }

  lemma Assoc<T>(a: seq<T>, b: seq<T>, c: seq<T>)
    ensures (a + b) + c == a + (b + c)
  {
  }

  lemma InitLast<T>(s: seq<T>)
    requires s != []
    ensures s == s[..|s| - 1] + [s[|s| - 1]]
  {
  }

  lemma ConcatSnoc(chunks: seq<Bytes>, c: Bytes)
    ensures Concat(chunks + [c]) == Concat(chunks) + c
  {
    assert (chunks + [c])[..|chunks|] == chunks;
  }

  lemma {:induction false} ConcatAppend(a: seq<Bytes>, b: seq<Bytes>)
    ensures Concat(a + b) == Concat(a) + Concat(b)
  {
    if b == [] {
      assert a + b == a;
    } else {
      var b' := b[..|b| - 1];
      ConcatAppend(a, b');
      assert (a + b)[..|a + b| - 1] == a + b';
    }
  }

  lemma ConcatOne(a: seq<Bytes>, init: seq<Bytes>, last: Bytes)
    ensures a + (init + [last]) == (a + init) + [last]
    ensures Concat(a) + Concat(init + [last]) == (Concat(a) + Concat(init)) + last
    ensures Concat(a + init) == Concat(a) + Concat(init)
  {
    Assoc(a, init, [last]);
    ConcatSnoc(init, last);
    Assoc(Concat(a), Concat(init), last);
    ConcatAppend(a, init);
  }

  // ---- occurrences in concatenations ----

  lemma OccursInRight(a: Bytes, b: Bytes, pat: Bytes, i: int)
    requires i >= |a|
    ensures OccursAt(a + b, pat, i) == OccursAt(b, pat, i - |a|)
  {
  }

  lemma OccursInLeft(a: Bytes, b: Bytes, pat: Bytes, i: int)
    requires i + |pat| <= |a|
    ensures OccursAt(a + b, pat, i) == OccursAt(a, pat, i)
  {
  }

  lemma NotAcross(a: Bytes, c: char, b: Bytes, pat: Bytes, i: int)
    requires c !in pat && 0 <= i <= |a| < i + |pat|
    ensures !OccursAt(a + ([c] + b), pat, i)
  {
    assert (a + ([c] + b))[i + (|a| - i)] == c;
    assert pat[|a| - i] != c;
  }

  /** A character that is not in the pattern separates its occurrences. */
  lemma OccursAround(a: Bytes, c: char, b: Bytes, pat: Bytes, i: int)
    requires c !in pat && pat != [] && OccursAt(a + ([c] + b), pat, i)
    ensures if i <= |a| then i + |pat| <= |a| && OccursAt(a, pat, i) else OccursAt(b, pat, i - |a| - 1)
  {
    var s := a + ([c] + b);
    if i <= |a| {
      if i + |pat| > |a| {
        NotAcross(a, c, b, pat, i);
        assert false;
      }
      OccursInLeft(a, [c] + b, pat, i);
    } else {
      Assoc(a, [c], b);
      OccursInRight(a + [c], b, pat, i);
    }
  }

  lemma ContainsAround(a: Bytes, c: char, b: Bytes, pat: Bytes)
    requires c !in pat && pat != []
    ensures Contains(a + ([c] + b), pat) ==> Contains(a, pat) || Contains(b, pat)
  {
    if i :| OccursAt(a + ([c] + b), pat, i) {
      OccursAround(a, c, b, pat, i);
    }
  }

  lemma IndexUnique(s: Bytes, pat: Bytes, i: int)
    requires OccursAt(s, pat, i) && forall j :: 0 <= j < i ==> !OccursAt(s, pat, j)
    ensures Index(s, pat) == i
  {
  }

  /** A marker that is already there is not moved by what arrives later. */
  lemma IndexStable(s: Bytes, t: Bytes, pat: Bytes)
    requires Index(s, pat) >= 0
    ensures Index(s + t, pat) == Index(s, pat)
  {
    var i := Index(s, pat);
    OccursInLeft(s, t, pat, i);
    forall j | 0 <= j < i ensures !OccursAt(s + t, pat, j) { OccursInLeft(s, t, pat, j); }
  }

  /** What precedes every occurrence may be dropped. */
  lemma IndexDropped(a: Bytes, b: Bytes, pat: Bytes)
    requires forall j :: 0 <= j < |a| ==> !OccursAt(a + b, pat, j)
    ensures Index(a + b, pat) == if Index(b, pat) < 0 then -1 else |a| + Index(b, pat)
  {
    var i := Index(b, pat);
    if i >= 0 {
      OccursInRight(a, b, pat, |a| + i);
      forall j | |a| <= j < |a| + i ensures !OccursAt(a + b, pat, j) { OccursInRight(a, b, pat, j); }
      IndexUnique(a + b, pat, |a| + i);
    } else if Index(a + b, pat) >= 0 {
      OccursInRight(a, b, pat, Index(a + b, pat));
    }
  }

  lemma SuffixOfAppend(s: Bytes, t: Bytes, i: int)
    requires 0 <= i <= |s|
    ensures (s + t)[i..] == s[i..] + t
  {
  }

  lemma DropOfAppend(s: Bytes, t: Bytes, i: nat)
    requires i <= |t|
    ensures (s + t)[|s| + i..] == t[i..]
  {
  }

  lemma DropDrop(s: Bytes, i: nat, j: nat)
    requires i + j <= |s|
    ensures s[i..][j..] == s[i + j..]
  {
  }

  lemma NewlineStable(s: Bytes, t: Bytes)
    requires NewlineIndex(s) >= 0
    ensures NewlineIndex(s + t) == NewlineIndex(s)
  {
    var i, j := NewlineIndex(s), NewlineIndex(s + t);
    assert (s + t)[i] == '\n';
  }

  lemma NewlineInPrefix(s: Bytes, t: Bytes)
    requires 0 <= NewlineIndex(s + t) < |s|
    ensures NewlineIndex(s) == NewlineIndex(s + t)
  {
    var i := NewlineIndex(s + t);
    assert forall k :: 0 <= k <= i ==> s[k] == (s + t)[k];
    NewlineAt(s, i);
  }

  lemma NewlineAt(s: Bytes, i: nat)
    requires i < |s| && s[i] == '\n' && forall k :: 0 <= k < i ==> s[k] != '\n'
    ensures NewlineIndex(s) == i
  {
  }
}
