/**
  Uploading a file with shell commands: base64 pieces into a temporary sibling, a digest check, then chmod and mv.
  Any command may stop half way, lose its reply, or leave other bytes than it was given.
 */
module ShellWrite {
  import opened Bytes
  import opened Base64

  datatype File = File(data: seq<Octet>, mode: nat)
  type Files = map<Bytes, File>

  /** The command lines of an upload. */
  datatype Command =
    | Stage(piece: Bytes, append: bool, temp: Bytes)     // printf '%s' piece | base64 -d > temp, or >> temp
    | Touch(temp: Bytes)                                 // : > temp
    | Digest(temp: Bytes)                                // sha256sum -- temp | awk '{print $1}'
    | Finalize(mode: nat, temp: Bytes, path: Bytes)      // chmod mode temp && mv temp path
    | Discard(temp: Bytes)                               // rm -f temp

  datatype Reply = Reply(status: int, output: Bytes)

  /** What goes wrong with a command. */
  datatype Fault =
    | Sound
    | Failed(done: nat)                                      // it stops after this many steps and reports failure
    | Silent(done: nat)                                      // it stops after this many steps; no reply arrives
    | Mangled(left: seq<Option<File>>, status: Option<int>)  // staging leaves these in turn, and may claim success

  type Hash = seq<Octet> -> Bytes

  /** What an upload does not change on the remote: how it digests, and which paths are directories. */
  datatype Host = Host(hash: Hash, dirs: set<Bytes>)

  const NEW_MODE: nat := 0x1a4  // rw-r--r--

  // ---- the remote ----

  /** The last component of a path. */
  function BaseName(p: Bytes): Bytes {
    if p == [] || p[|p| - 1] == '/' then [] else BaseName(p[..|p| - 1]) + [p[|p| - 1]]
  }

  lemma {:induction false} BaseNameIsLast(dir: Bytes, name: Bytes)
    requires '/' !in name
    ensures BaseName(dir + "/" + name) == name
  {
    var p := dir + "/" + name;
    if name != [] {
      assert p[..|p| - 1] == dir + "/" + name[..|name| - 1];
      BaseNameIsLast(dir, name[..|name| - 1]);
    }
  }

  /** Where mv puts a file: a directory as the target takes the file in. */
  function Landing(from: Bytes, to: Bytes, isDir: bool): Bytes {
    if isDir then to + ("/" + BaseName(from)) else to
  }

  /** A file moved to a directory keeps its name inside it. */
  lemma LandsInside(dir: Bytes, name: Bytes, to: Bytes)
    requires '/' !in name
    ensures Landing(dir + "/" + name, to, true) == to + ("/" + name) && Landing(dir + "/" + name, to, false) == to
  {
    BaseNameIsLast(dir, name);
  }

  /** A redirection empties or creates its target before the command writes to it. */
  function Opened(files: Files, temp: Bytes, append: bool): (r: Files)
    ensures temp in r
  {
    if temp !in files then files[temp := File([], NEW_MODE)]
    else if append then files
    else files[temp := files[temp].(data := [])]
  }

  /** The states a command passes through when nothing goes wrong. */
  function Steps(cmd: Command, files: Files, dirs: set<Bytes>): seq<Files> {
    match cmd
    case Stage(piece, append, temp) =>
      if temp in dirs then []
      else
        var ready := Opened(files, temp, append);
        (match Decode(piece)
         case Some(d) => [ready, ready[temp := ready[temp].(data := ready[temp].data + d)]]
         case None => [ready])
    case Touch(temp) => if temp in dirs then [] else [Opened(files, temp, false)]
    case Digest(_) => []
    case Finalize(mode, temp, path) =>
      if temp !in files then []
      else
        var file := files[temp].(mode := mode);
        var target := Landing(temp, path, path in dirs);
        if target in dirs then [files[temp := file]]
        else [files[temp := file], files[temp := file][target := file] - {temp}]
    case Discard(temp) => if temp in dirs then [] else [files - {temp}]
  }

  function Answer(cmd: Command, files: Files, host: Host): Reply {
    match cmd
    case Stage(piece, _, temp) => Reply(if Decode(piece).Some? && temp !in host.dirs then 0 else 1, [])
    case Touch(temp) => Reply(if temp in host.dirs then 1 else 0, [])
    case Digest(temp) => Reply(0, if temp in files then host.hash(files[temp].data) else [])  // the status is awk's
    case Finalize(_, temp, path) =>
      Reply(if temp in files && Landing(temp, path, path in host.dirs) !in host.dirs then 0 else 1, [])
    case Discard(temp) => Reply(if temp in host.dirs then 1 else 0, [])
  }

  function Left(files: Files, temp: Bytes, left: seq<Option<File>>): (trace: seq<Files>)
    ensures |trace| == |left|
    ensures forall i :: 0 <= i < |trace| ==>
              trace[i] == (if left[i].Some? then files[temp := left[i].value] else files - {temp})
  {
    if left == [] then []
    else [if left[0].Some? then files[temp := left[0].value] else files - {temp}] + Left(files, temp, left[1..])
  }

  /** What a command does under a fault: the states passed through, and the reply if one arrives. */
  function Perform(cmd: Command, files: Files, fault: Fault, host: Host): (seq<Files>, Option<Reply>) {
    var steps := Steps(cmd, files, host.dirs);
    match fault
    case Sound => (steps, Some(Answer(cmd, files, host)))
    case Failed(n) => (steps[..Min(n, |steps|)], Some(Reply(1, [])))
    case Silent(n) => (steps[..Min(n, |steps|)], None)
    case Mangled(left, status) =>
      if cmd.Stage? || cmd.Touch? then
        (Left(files, cmd.temp, left), if status.Some? then Some(Reply(status.value, [])) else None)
      else
        (steps, Some(Answer(cmd, files, host)))
  }

  function Next(faults: seq<Fault>): Fault {
    if faults == [] then Sound else faults[0]
  }

  function Later(faults: seq<Fault>): seq<Fault> {
    if faults == [] then [] else faults[1..]
  }

  predicate AllSound(faults: seq<Fault>) {
    forall f :: f in faults ==> f.Sound?
  }

  /** Commands may fail, but one that reports success did what it says. */
  predicate Honest(faults: seq<Fault>) {
    forall f :: f in faults ==> !f.Mangled?
  }

  /** The remote file system, the states it has passed through, and the faults still to come. */
  class Remote {
    const host: Host
    var files: Files
    var log: seq<Files>
    var faults: seq<Fault>
    var last: Option<Reply>

    constructor (host: Host, files: Files, faults: seq<Fault>)
      ensures this.host == host && this.files == files && this.faults == faults && log == [] && last == None
    {
      this.host, this.files, this.faults := host, files, faults;
      log, last := [], None;
    }

    method Run(cmd: Command) returns (reply: Option<Reply>)
      modifies this
      ensures faults == Later(old(faults)) && last == reply
      ensures var (trace, answer) := Perform(cmd, old(files), Next(old(faults)), host);
              reply == answer && log == old(log) + trace && files == Final(old(files), trace)
    {
      var (trace, answer) := Perform(cmd, files, Next(faults), host);
      files, log, faults, last, reply := Final(files, trace), log + trace, Later(faults), answer, answer;
    }
  }

  // ---- what the states of an upload have in common ----

  /** Nothing but the temporary file differs. */
  ghost predicate Confined(s: Files, base: Files, temp: Bytes) {
    forall p :: p != temp ==> Lookup(s, p) == Lookup(base, p)
  }

  /** The target holds the old file or the whole new one; nothing but it and the temporary file differs. */
  ghost predicate Atomic(s: Files, base: Files, path: Bytes, temp: Bytes, file: File) {
    && Lookup(s, path) in {Lookup(base, path), Some(file)}
    && (forall p :: p != temp && p != path ==> Lookup(s, p) == Lookup(base, p))
  }

  ghost predicate AllConfined(log: seq<Files>, n: nat, base: Files, temp: Bytes) {
    forall k :: n <= k < |log| ==> Confined(log[k], base, temp)
  }

  ghost predicate AllAtomic(log: seq<Files>, n: nat, base: Files, path: Bytes, temp: Bytes, file: File) {
    forall k :: n <= k < |log| ==> Atomic(log[k], base, path, temp, file)
  }

  lemma ConfinedIsAtomic(s: Files, base: Files, path: Bytes, temp: Bytes, file: File)
    requires Confined(s, base, temp) && path != temp
    ensures Atomic(s, base, path, temp, file)
  {
  }

  lemma AllConfinedIsAtomic(log: seq<Files>, n: nat, base: Files, path: Bytes, temp: Bytes, file: File)
    requires AllConfined(log, n, base, temp) && path != temp
    ensures AllAtomic(log, n, base, path, temp, file)
  {
    forall k | n <= k < |log| ensures Atomic(log[k], base, path, temp, file) {
      ConfinedIsAtomic(log[k], base, path, temp, file);
    }
  }

  /** Whatever goes wrong, every command but the last of an upload touches only the temporary file. */
  lemma OnlyTheTempFile(cmd: Command, files: Files, fault: Fault, host: Host, base: Files)
    requires !cmd.Finalize? && Confined(files, base, cmd.temp)
    ensures var (trace, _) := Perform(cmd, files, fault, host);
            AllConfined(trace, 0, base, cmd.temp) && Confined(Final(files, trace), base, cmd.temp)
  {
    var steps := Steps(cmd, files, host.dirs);
    forall k | 0 <= k < |steps| ensures Confined(steps[k], base, cmd.temp) {
      if cmd.Stage? && cmd.temp !in host.dirs {
        assert steps[0] == Opened(files, cmd.temp, cmd.append);
      }
    }
    var (trace, _) := Perform(cmd, files, fault, host);
    forall k | 0 <= k < |trace| ensures Confined(trace[k], base, cmd.temp) {
    }
  }

  /** However far the last command gets, what it replaces changes at once from old to new. */
  lemma RenameIsAtomic(mode: nat, temp: Bytes, path: Bytes, files: Files, fault: Fault, host: Host, base: Files,
                       data: seq<Octet>, target: Bytes)
    requires target == Landing(temp, path, path in host.dirs) && target != temp && Confined(files, base, temp)
    requires temp in files ==> files[temp].data == data
    ensures var (trace, reply) := Perform(Finalize(mode, temp, path), files, fault, host);
            var file := File(data, mode);
            && AllAtomic(trace, 0, base, target, temp, file)
            && Atomic(Final(files, trace), base, target, temp, file)
            && (reply.Some? && reply.value.status == 0 ==>
                  && target !in host.dirs
                  && Lookup(Final(files, trace), target) == Some(file) && temp !in Final(files, trace))
  {
    var cmd := Finalize(mode, temp, path);
    var (trace, reply) := Perform(cmd, files, fault, host);
    ConfinedIsAtomic(files, base, target, temp, File(data, mode));
    forall k | 0 <= k < |trace| ensures Atomic(trace[k], base, target, temp, File(data, mode)) {
      assert trace[k] == Steps(cmd, files, host.dirs)[k];
    }
  }

  /** Since the remote's history was `before` and its files were `base`, only the temporary file was touched. */
  ghost predicate OnlyTempSince(before: seq<Files>, base: Files, temp: Bytes, log: seq<Files>, files: Files) {
    before <= log && AllConfined(log, |before|, base, temp) && Confined(files, base, temp)
  }

  lemma OneMoreCommand(before: seq<Files>, base: Files, temp: Bytes, log: seq<Files>, files: Files,
                       cmd: Command, fault: Fault, host: Host)
    requires OnlyTempSince(before, base, temp, log, files) && !cmd.Finalize? && cmd.temp == temp
    ensures var (trace, _) := Perform(cmd, files, fault, host);
            OnlyTempSince(before, base, temp, log + trace, Final(files, trace))
  {
    OnlyTheTempFile(cmd, files, fault, host, base);
  }

  lemma AllAtomicAppend(log: seq<Files>, n: nat, trace: seq<Files>, base: Files, path: Bytes, temp: Bytes, file: File)
    requires n <= |log| && AllAtomic(log, n, base, path, temp, file) && AllAtomic(trace, 0, base, path, temp, file)
    ensures AllAtomic(log + trace, n, base, path, temp, file)
  {
  }

  /** Cleaning up removes the temporary file, if anything, and nothing else. */
  lemma DiscardKeepsTarget(before: seq<Files>, log: seq<Files>, files: Files, fault: Fault, host: Host, base: Files,
                           path: Bytes, temp: Bytes, file: File)
    requires path != temp && before <= log
    ensures var (trace, reply) := Perform(Discard(temp), files, fault, host);
            && (AllAtomic(log, |before|, base, path, temp, file) && Atomic(files, base, path, temp, file) ==>
                  && AllAtomic(log + trace, |before|, base, path, temp, file)
                  && Atomic(Final(files, trace), base, path, temp, file))
            && (reply.Some? && reply.value.status == 0 ==> temp !in Final(files, trace))
  {
    var (trace, _) := Perform(Discard(temp), files, fault, host);
    assert |trace| <= 1 && (trace == [] || trace[0] == files - {temp});
    if Atomic(files, base, path, temp, file) {
      assert Atomic(files - {temp}, base, path, temp, file);
    }
  }

  // ---- staging ----

  /** The pieces are whole groups, or there is only one. */
  predicate PiecesFit(data: seq<Octet>, k: nat) {
    k % 4 == 0 || |Encode(data)| <= k
  }

  /** How much of the data the first `k` characters of its encoding stand for. */
  function Cut(data: seq<Octet>, k: nat): (n: nat)
    ensures n <= |data|
  {
    if |Encode(data)| <= k then |data| else 3 * (k / 4)
  }

  lemma Whole<T>(s: seq<T>)
    ensures s[..|s|] == s && s[|s|..] == []
  {
  }

  /** The piece decodes to the first `n` octets of the data, and the text encodes the others. */
  ghost predicate SplitsAt(data: seq<Octet>, piece: Bytes, text: Bytes, n: nat) {
    n <= |data| && Decode(piece) == Some(data[..n]) && text == Encode(data[n..])
  }

  lemma OnlyPiece(data: seq<Octet>)
    ensures SplitsAt(data, Encode(data), [], |data|)
  {
    RoundTrip(data);
    Whole(data);
  }

  lemma SplitsAtGroup(data: seq<Octet>, q: nat)
    requires 3 * q <= |data|
    ensures 4 * q <= |Encode(data)| && SplitsAt(data, Encode(data)[..4 * q], Encode(data)[4 * q..], 3 * q)
  {
    CutEncoded(data, q);
    RoundTrip(data[..3 * q]);
  }

  /** The first piece of the encoded data: what it decodes to, and what the text after it encodes. */
  lemma FirstPiece(data: seq<Octet>, text: Bytes, k: nat)
    requires PiecesFit(data, k) && text == Encode(data)
    ensures SplitsAt(data, text[..Min(k, |text|)], text[Min(k, |text|)..], Cut(data, k))
  {
    if |text| <= k {
      OnlyPiece(data);
      Whole(text);
    } else {
      SplitsAtGroup(data, k / 4);
    }
  }

  /** The temporary file has these contents, or none yet. */
  ghost predicate Holds(files: Files, temp: Bytes, append: bool, sofar: seq<Octet>) {
    if append then temp in files && files[temp].data == sofar else sofar == []
  }

  /** What a staging command that reports success leaves, if commands are honest. */
  lemma HonestStage(piece: Bytes, append: bool, temp: Bytes, files: Files, sofar: seq<Octet>, fault: Fault, host: Host)
    requires !fault.Mangled? && Holds(files, temp, append, sofar)
    ensures var (trace, reply) := Perform(Stage(piece, append, temp), files, fault, host);
            && (reply.Some? && reply.value.status == 0 ==>
                  && Decode(piece).Some? && temp !in host.dirs
                  && Holds(Final(files, trace), temp, true, sofar + Decode(piece).value))
            && (fault.Sound? ==>
                  reply.Some? && (reply.value.status == 0 <==> Decode(piece).Some? && temp !in host.dirs))
  {
    var ready := Opened(files, temp, append);
    assert ready[temp].data == sofar;
  }

  /** The text still to be sent encodes what is missing from the temporary file. */
  ghost predicate Progress(files: Files, temp: Bytes, append: bool, data: seq<Octet>, text: Bytes, rest: seq<Octet>) {
    && text == Encode(rest)
    && |rest| <= |data| && data[|data| - |rest|..] == rest
    && Holds(files, temp, append, data[..|data| - |rest|])
  }

  /** The staging loop at index `i`: the first round is still to come, or the pieces fit. */
  ghost predicate Staging(files: Files, temp: Bytes, data: seq<Octet>, k: nat, i: nat, rest: seq<Octet>) {
    var e := Encode(data);
    && Progress(files, temp, i > 0, data, e[Min(i, |e|)..], rest)
    && (if i == 0 then rest == data else k <= i && PiecesFit(data, k))
  }

  lemma StagingStarts(files: Files, temp: Bytes, data: seq<Octet>, k: nat)
    ensures Staging(files, temp, data, k, 0, data)
  {
    var e := Encode(data);
    assert data[..0] == [] && data[0..] == data && e[0..] == e;
  }

  lemma StagingFits(files: Files, temp: Bytes, data: seq<Octet>, k: nat, i: nat, rest: seq<Octet>)
    requires Staging(files, temp, data, k, i, rest) && i < |Encode(data)|
    ensures PiecesFit(rest, k) <==> PiecesFit(data, k)
  {
  }

  lemma StagingContinues(files: Files, temp: Bytes, data: seq<Octet>, k: nat, i: nat, rest: seq<Octet>)
    requires PiecesFit(data, k) && i <= |Encode(data)| && k > 0
    requires Progress(files, temp, true, data, Encode(data)[i..][Min(k, |Encode(data)[i..]|)..], rest)
    ensures Staging(files, temp, data, k, i + k, rest)
  {
    NextPiece(Encode(data), i, k);
  }

  lemma StagingEnds(files: Files, temp: Bytes, data: seq<Octet>, k: nat, i: nat, rest: seq<Octet>)
    requires Staging(files, temp, data, k, i, rest) && i >= |Encode(data)| && i > 0
    ensures temp in files && files[temp].data == data
  {
    Whole(Encode(data));
    assert rest == [];
    Whole(data);
  }

  lemma NextPiece(e: Bytes, i: nat, k: nat)
    requires i <= |e|
    ensures e[i..Min(i + k, |e|)] == e[i..][..Min(k, |e[i..]|)]
    ensures e[Min(i + k, |e|)..] == e[i..][Min(k, |e[i..]|)..]
  {
  }

  lemma StageProgress(data: seq<Octet>, k: nat, append: bool, temp: Bytes, files: Files, text: Bytes, rest: seq<Octet>,
                      fault: Fault, host: Host)
    requires !fault.Mangled? && Progress(files, temp, append, data, text, rest)
    ensures var m := Min(k, |text|);
            var (trace, reply) := Perform(Stage(text[..m], append, temp), files, fault, host);
            && (reply.Some? && reply.value.status == 0 ==>
                  && PiecesFit(rest, k) && temp !in host.dirs
                  && Progress(Final(files, trace), temp, true, data, text[m..], rest[Cut(rest, k)..]))
            && (fault.Sound? ==>
                  reply.Some? && (reply.value.status == 0 <==> PiecesFit(rest, k) && temp !in host.dirs))
  {
    HonestStage(text[..Min(k, |text|)], append, temp, files, data[..|data| - |rest|], fault, host);
    PieceDecodes(data, rest, text, k);
  }

  /** The next piece decodes exactly if the pieces fit, and then to what follows in the data. */
  lemma PieceDecodes(data: seq<Octet>, rest: seq<Octet>, text: Bytes, k: nat)
    requires text == Encode(rest) && |rest| <= |data| && data[|data| - |rest|..] == rest
    ensures var m, later := Min(k, |text|), rest[Cut(rest, k)..];
            && (Decode(text[..m]).Some? <==> PiecesFit(rest, k))
            && (PiecesFit(rest, k) ==>
                  && text[m..] == Encode(later) && |later| <= |data| && data[|data| - |later|..] == later
                  && data[..|data| - |rest|] + Decode(text[..m]).value == data[..|data| - |later|])
  {
    if PiecesFit(rest, k) {
      FirstPiece(rest, text, k);
      GrowsByCut(data, rest, Cut(rest, k));
    } else {
      EncodedHasNoNewlines(rest);
      BrokenGroupFails(text, k);
    }
  }

  lemma GrowsByCut(data: seq<Octet>, rest: seq<Octet>, n: nat)
    requires |rest| <= |data| && data[|data| - |rest|..] == rest && n <= |rest|
    ensures data[..|data| - |rest|] + rest[..n] == data[..|data| - |rest[n..]|]
    ensures data[|data| - |rest[n..]|..] == rest[n..]
  {
    assert data == data[..|data| - |rest|] + rest;
  }

  // ---- the upload ----

  datatype Outcome = Ok | TooLarge | Transport | ShellFailed(status: int) | Corrupted

  /** A sibling of the target; the suffix is drawn at random. */
  function TempPathFor(path: Bytes, suffix: Bytes): (t: Bytes)
    ensures t != path
  {
    path + (".tmp." + suffix)
  }

  /** The temporary file is a sibling of the target, and uploads with different suffixes use different ones. */
  lemma TempsAreApart(path: Bytes, suffix: Bytes, other: Bytes)
    ensures path < TempPathFor(path, suffix)
    ensures '/' !in suffix ==> '/' !in TempPathFor(path, suffix)[|path|..]
    ensures TempPathFor(path, suffix) == TempPathFor(path, other) <==> suffix == other
  {
    var temp := TempPathFor(path, suffix);
    assert temp[|path|..] == ".tmp." + suffix;
    assert temp[|path| + 5..] == suffix && TempPathFor(path, other)[|path| + 5..] == other;
  }

  /** The temporary file is not where the upload ends up, nor, when that is inside a directory, is the directory. */
  lemma LandingIsApart(path: Bytes, suffix: Bytes, isDir: bool)
    ensures Landing(TempPathFor(path, suffix), path, isDir) != TempPathFor(path, suffix)
    ensures isDir ==> Landing(TempPathFor(path, suffix), path, isDir) != path
  {
    var temp, target := TempPathFor(path, suffix), Landing(TempPathFor(path, suffix), path, isDir);
    assert temp[|path|] == '.' && (isDir ==> target[|path|] == '/');
  }

  /** The permission bits of a mode. */
  function Perm(mode: nat): nat {
    mode % 0x200
  }

  ghost predicate Injective(hash: Hash) {
    && (forall d: seq<Octet> :: hash(d) != [])
    && (forall d: seq<Octet>, e: seq<Octet> :: hash(d) == hash(e) ==> d == e)
  }

  class Uploader {
    const remote: Remote
    const chunkSize: nat
    const maxFileSize: nat
    const verify: bool  // a digest tool was found on the remote

    ghost predicate Valid() {
      chunkSize > 0 && Injective(remote.host.hash)
    }

    constructor (remote: Remote, chunkSize: nat, maxFileSize: nat, verify: bool)
      requires chunkSize > 0 && Injective(remote.host.hash)
      ensures Valid() && this.remote == remote && this.chunkSize == chunkSize
      ensures this.maxFileSize == maxFileSize && this.verify == verify
    {
      this.remote, this.chunkSize, this.maxFileSize, this.verify := remote, chunkSize, maxFileSize, verify;
    }

    /** Runs a command and turns a lost reply or a failing status into an error. */
    method RunMustSucceed(cmd: Command) returns (r: Outcome)
      modifies remote
      ensures remote.faults == Later(old(remote.faults))
      ensures var (trace, reply) :=
                Perform(cmd, old(remote.files), Next(old(remote.faults)), remote.host);
              && remote.log == old(remote.log) + trace && remote.files == Final(old(remote.files), trace)
              && remote.last == reply
              && r == (if reply == None then Transport
                       else if reply.value.status == 0 then Ok
                       else ShellFailed(reply.value.status))
    {
      var reply := remote.Run(cmd);
      if reply == None { return Transport; }
      return if reply.value.status == 0 then Ok else ShellFailed(reply.value.status);
    }

    /** Stages one piece; the text from it on encodes what is still missing. */
    method StageOne(piece: Bytes, append: bool, temp: Bytes, ghost before: seq<Files>, ghost base: Files,
                    ghost data: seq<Octet>, ghost text: Bytes, ghost rest: seq<Octet>, ghost honest: bool)
      returns (r: Outcome)
      requires OnlyTempSince(before, base, temp, remote.log, remote.files)
      requires piece == text[..Min(chunkSize, |text|)]
      requires honest ==> Honest(remote.faults) && Progress(remote.files, temp, append, data, text, rest)
      modifies remote
      ensures OnlyTempSince(before, base, temp, remote.log, remote.files)
      ensures honest ==> Honest(remote.faults)
      ensures AllSound(old(remote.faults)) ==> AllSound(remote.faults)
      ensures honest && r.Ok? ==>
                && PiecesFit(rest, chunkSize) && temp !in remote.host.dirs
                && Progress(remote.files, temp, true, data, text[|piece|..], rest[Cut(rest, chunkSize)..])
      ensures honest && AllSound(old(remote.faults)) ==>
                (r.Ok? <==> PiecesFit(rest, chunkSize) && temp !in remote.host.dirs)
      ensures r.Ok? || r.Transport? || r.ShellFailed?
    {
      ghost var files, fault, log := remote.files, Next(remote.faults), remote.log;
      r := RunMustSucceed(Stage(piece, append, temp));
      OneMoreCommand(before, base, temp, log, files, Stage(piece, append, temp), fault, remote.host);
      if honest {
        StageProgress(data, chunkSize, append, temp, files, text, rest, fault, remote.host);
      }
    }

    /** One round of the staging loop: the piece from `i` on. */
    method StageRound(encoded: Bytes, i: nat, temp: Bytes, ghost before: seq<Files>, ghost base: Files,
                      ghost data: seq<Octet>, ghost rest: seq<Octet>, ghost honest: bool)
      returns (r: Outcome)
      requires chunkSize > 0 && i < |encoded| && encoded == Encode(data)
      requires OnlyTempSince(before, base, temp, remote.log, remote.files)
      requires honest ==> Honest(remote.faults) && Staging(remote.files, temp, data, chunkSize, i, rest)
      modifies remote
      ensures OnlyTempSince(before, base, temp, remote.log, remote.files)
      ensures honest ==> Honest(remote.faults)
      ensures AllSound(old(remote.faults)) ==> AllSound(remote.faults)
      ensures honest && r.Ok? ==>
                && PiecesFit(data, chunkSize) && temp !in remote.host.dirs
                && Staging(remote.files, temp, data, chunkSize, i + chunkSize, rest[Cut(rest, chunkSize)..])
      ensures honest && AllSound(old(remote.faults)) ==>
                (r.Ok? <==> PiecesFit(data, chunkSize) && temp !in remote.host.dirs)
      ensures r.Ok? || r.Transport? || r.ShellFailed?
    {
      var end := Min(i + chunkSize, |encoded|);
      NextPiece(encoded, i, chunkSize);
      if honest {
        StagingFits(remote.files, temp, data, chunkSize, i, rest);
      }
      r := StageOne(encoded[i..end], i > 0, temp, before, base, data, encoded[i..], rest, honest);
      if honest && r.Ok? {
        StagingContinues(remote.files, temp, data, chunkSize, i, rest[Cut(rest, chunkSize)..]);
      }
    }

    /** Creates the temporary file when there is nothing to stage. */
    method TouchEmpty(temp: Bytes, ghost before: seq<Files>, ghost base: Files) returns (r: Outcome)
      requires OnlyTempSince(before, base, temp, remote.log, remote.files)
      modifies remote
      ensures OnlyTempSince(before, base, temp, remote.log, remote.files)
      ensures remote.faults == Later(old(remote.faults))
      ensures Honest(old(remote.faults)) && r.Ok? ==> temp in remote.files && remote.files[temp].data == []
      ensures AllSound(old(remote.faults)) ==> (r.Ok? <==> temp !in remote.host.dirs)
      ensures r.Ok? || r.Transport? || r.ShellFailed?
    {
      ghost var files, fault, log := remote.files, Next(remote.faults), remote.log;
      r := RunMustSucceed(Touch(temp));
      OneMoreCommand(before, base, temp, log, files, Touch(temp), fault, remote.host);
    }

    /** Stages the encoded data piece by piece; empty data still creates the temporary file. */
    method StagePieces(data: seq<Octet>, temp: Bytes) returns (r: Outcome)
      requires chunkSize > 0
      modifies remote
      ensures OnlyTempSince(old(remote.log), old(remote.files), temp, remote.log, remote.files)
      ensures Honest(old(remote.faults)) ==> Honest(remote.faults)
      ensures Honest(old(remote.faults)) && r.Ok? ==> temp in remote.files && remote.files[temp].data == data
      ensures AllSound(old(remote.faults)) ==>
                AllSound(remote.faults) && (r.Ok? <==> PiecesFit(data, chunkSize) && temp !in remote.host.dirs)
      ensures r.Ok? || r.Transport? || r.ShellFailed?
    {
      var encoded := Encode(data);
      var i, first := 0, true;
      ghost var rest, honest := data, Honest(old(remote.faults));
      StagingStarts(remote.files, temp, data, chunkSize);
      while i < |encoded|
        invariant first <==> i == 0
        invariant OnlyTempSince(old(remote.log), old(remote.files), temp, remote.log, remote.files)
        invariant honest ==> Honest(remote.faults)
        invariant AllSound(old(remote.faults)) ==> AllSound(remote.faults)
        invariant honest ==> Staging(remote.files, temp, data, chunkSize, i, rest)
        invariant honest && !first ==> temp !in remote.host.dirs
      {
        r := StageRound(encoded, i, temp, old(remote.log), old(remote.files), data, rest, honest);
        if !r.Ok? { return; }
        rest := rest[Cut(rest, chunkSize)..];
        first := false;
        i := i + chunkSize;
      }
      if first {
        r := TouchEmpty(temp, old(remote.log), old(remote.files));
      } else {
        r := Ok;
        if honest {
          StagingEnds(remote.files, temp, data, chunkSize, i, rest);
        }
      }
    }

    /** Compares the digest of what was staged with that of the data, if the remote has a digest tool. */
    method VerifyStaged(data: seq<Octet>, temp: Bytes) returns (r: Outcome)
      requires Valid()
      modifies remote
      ensures remote.log == old(remote.log) && remote.files == old(remote.files)
      ensures remote.faults == (if verify then Later(old(remote.faults)) else old(remote.faults))
      ensures verify && r.Ok? ==> temp in remote.files && remote.files[temp].data == data
      ensures AllSound(old(remote.faults)) && temp in remote.files && remote.files[temp].data == data ==> r.Ok?
      ensures !r.TooLarge?
    {
      if verify {
        var reply := remote.Run(Digest(temp));
        if reply == None { return Transport; }
        if reply.value.status != 0 { return ShellFailed(reply.value.status); }
        if reply.value.output != remote.host.hash(data) { return Corrupted; }
      }
      r := Ok;
    }

    /** Everything up to the rename; the caller cleans up after a failure. */
    method Upload(path: Bytes, temp: Bytes, data: seq<Octet>, mode: nat, ghost target: Bytes) returns (r: Outcome)
      requires Valid() && target == Landing(temp, path, path in remote.host.dirs) && target != temp
      modifies remote
      ensures old(remote.log) <= remote.log
      ensures verify || Honest(old(remote.faults)) ==>
                && AllAtomic(remote.log, |old(remote.log)|, old(remote.files), target, temp, File(data, Perm(mode)))
                && Atomic(remote.files, old(remote.files), target, temp, File(data, Perm(mode)))
                && (r.Ok? ==> Lookup(remote.files, target) == Some(File(data, Perm(mode))) && temp !in remote.files)
      ensures AllSound(old(remote.faults)) ==>
                (r.Ok? <==> PiecesFit(data, chunkSize) && temp !in remote.host.dirs && target !in remote.host.dirs)
      ensures r.Ok? || r.Transport? || r.ShellFailed? || r.Corrupted?
    {
      ghost var before, base, file := remote.log, remote.files, File(data, Perm(mode));
      r := StagePieces(data, temp);
      AllConfinedIsAtomic(remote.log, |before|, base, target, temp, file);
      ConfinedIsAtomic(remote.files, base, target, temp, file);
      if !r.Ok? { return; }
      r := VerifyStaged(data, temp);
      if !r.Ok? { return; }
      r := Publish(path, temp, data, mode, target, before, base);
    }

    /** chmod and mv. */
    method Publish(path: Bytes, temp: Bytes, ghost data: seq<Octet>, mode: nat, ghost target: Bytes,
                   ghost before: seq<Files>, ghost base: Files)
      returns (r: Outcome)
      requires target == Landing(temp, path, path in remote.host.dirs) && target != temp
      requires OnlyTempSince(before, base, temp, remote.log, remote.files)
      modifies remote
      ensures before <= remote.log && remote.faults == Later(old(remote.faults))
      ensures temp in old(remote.files) && old(remote.files)[temp].data == data ==>
                && AllAtomic(remote.log, |before|, base, target, temp, File(data, Perm(mode)))
                && Atomic(remote.files, base, target, temp, File(data, Perm(mode)))
                && (r.Ok? ==> Lookup(remote.files, target) == Some(File(data, Perm(mode))) && temp !in remote.files)
                && (AllSound(old(remote.faults)) ==> (r.Ok? <==> target !in remote.host.dirs))
      ensures r.Ok? || r.Transport? || r.ShellFailed?
    {
      ghost var files, fault, log := remote.files, Next(remote.faults), remote.log;
      r := RunMustSucceed(Finalize(Perm(mode), temp, path));
      if temp in files && files[temp].data == data {
        RenameIsAtomic(Perm(mode), temp, path, files, fault, remote.host, base, data, target);
        AllConfinedIsAtomic(log, |before|, base, target, temp, File(data, Perm(mode)));
        AllAtomicAppend(log, |before|, Perform(Finalize(Perm(mode), temp, path), files, fault, remote.host).0,
                        base, target, temp, File(data, Perm(mode)));
      }
    }

    /**
      Uploads `data`. mv replaces a file at `path`, and moves into a directory at `path`: the landing place. With a
      digest tool, or if no command lies about what it did: at every step the landing place holds its old content
      or all of the new, a nil return means the new, and it means that `path` itself holds the data exactly when
      `path` is not a directory. Whatever happens, a failing return whose clean-up succeeds leaves no temporary
      file. If nothing goes wrong, it succeeds exactly when the data is small enough, the pieces fit, and no
      directory stands at the temporary path or the landing place.
     */
    method Write(path: Bytes, data: seq<Octet>, mode: nat, suffix: Bytes) returns (r: Outcome)
      requires Valid()
      modifies remote
      ensures |data| > maxFileSize <==> r.TooLarge?
      ensures r.TooLarge? ==>
                && remote.files == old(remote.files) && remote.log == old(remote.log)
                && remote.faults == old(remote.faults)
      ensures old(remote.log) <= remote.log
      ensures verify || Honest(old(remote.faults)) ==>
                var temp, file := TempPathFor(path, suffix), File(data, mode % 0x200);
                var target := Landing(temp, path, path in remote.host.dirs);
                && AllAtomic(remote.log, |old(remote.log)|, old(remote.files), target, temp, file)
                && Atomic(remote.files, old(remote.files), target, temp, file)
                && (r.Ok? ==> Lookup(remote.files, target) == Some(file) && temp !in remote.files)
                && (r.Ok? && !(path in remote.host.dirs && path in old(remote.files)) ==>
                      (Lookup(remote.files, path) == Some(file) <==> path !in remote.host.dirs))
      ensures !r.Ok? && !r.TooLarge? && remote.last.Some? && remote.last.value.status == 0 ==>
                TempPathFor(path, suffix) !in remote.files
      ensures AllSound(old(remote.faults)) ==>
                var temp := TempPathFor(path, suffix);
                (r.Ok? <==> |data| <= maxFileSize && PiecesFit(data, chunkSize)
                            && {temp, Landing(temp, path, path in remote.host.dirs)} !! remote.host.dirs)
    {
      if |data| > maxFileSize { return TooLarge; }
      var temp := TempPathFor(path, suffix);
      ghost var target := Landing(temp, path, path in remote.host.dirs);
      LandingIsApart(path, suffix, path in remote.host.dirs);
      r := Upload(path, temp, data, mode, target);
      if !r.Ok? {
        ghost var files, fault, log := remote.files, Next(remote.faults), remote.log;
        var _ := remote.Run(Discard(temp));
        DiscardKeepsTarget(old(remote.log), log, files, fault, remote.host, old(remote.files), target, temp,
                           File(data, Perm(mode)));
      }
    }
  }

  /** A stream to a file: the bytes are kept until Close, which uploads them at once. */
  class BufferedWriter {
    const uploader: Uploader
    const path: Bytes
    const mode: nat
    var buf: seq<Octet>
    var closed: bool

    constructor (uploader: Uploader, path: Bytes, mode: nat)
      ensures this.uploader == uploader && this.path == path && this.mode == mode && buf == [] && !closed
    {
      this.uploader, this.path, this.mode, buf, closed := uploader, path, mode, [], false;
    }

    /** A write that would exceed the limit, or comes after Close, is refused whole. */
    method Write(p: seq<Octet>) returns (ok: bool)
      modifies this
      ensures closed == old(closed)
      ensures ok <==> !closed && |old(buf)| + |p| <= uploader.maxFileSize
      ensures buf == if ok then old(buf) + p else old(buf)
    {
      if closed || |buf| + |p| > uploader.maxFileSize { return false; }
      buf := buf + p;
      return true;
    }

    /** The first Close uploads everything accepted so far; later ones do nothing. */
    method Close(suffix: Bytes) returns (r: Outcome)
      requires uploader.Valid()
      modifies this, uploader.remote
      ensures closed && buf == old(buf)
      ensures old(closed) ==> r.Ok? && uploader.remote.files == old(uploader.remote.files)
                              && uploader.remote.log == old(uploader.remote.log)
      ensures var remote, file, temp := uploader.remote, File(old(buf), mode % 0x200), TempPathFor(path, suffix);
              var target := Landing(temp, path, path in remote.host.dirs);
              !old(closed) && (uploader.verify || Honest(old(remote.faults))) ==>
                && old(remote.log) <= remote.log
                && AllAtomic(remote.log, |old(remote.log)|, old(remote.files), target, temp, file)
                && Atomic(remote.files, old(remote.files), target, temp, file)
                && (r.Ok? ==> Lookup(remote.files, target) == Some(file))
    {
      if closed { return Ok; }
      closed := true;
      r := uploader.Write(path, buf, mode, suffix);
      if r.TooLarge? {
        LandingIsApart(path, suffix, path in uploader.remote.host.dirs);
      }
    }
  }
}
