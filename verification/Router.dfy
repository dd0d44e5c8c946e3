/** The router: agent first while it is healthy, shell as the fallback for operations that may run twice. */
module Router {
  import opened Bytes
  import ShellWrite

  datatype Node = File(data: Bytes, mode: nat) | Dir(mode: nat)
  type Nodes = map<Bytes, Node>

  datatype Op =
    | Query                                          // ping, read, stat, lstat, list, open_read
    | OpenWrite(path: Bytes)                         // no effect until the stream is closed
    | MkdirAll(chain: seq<Bytes>, mode: nat)         // the ancestors of the directory, outermost first, and itself
    | Rename(old_: Bytes, new_: Bytes)
    | Write(path: Bytes, data: Bytes, mode: nat)
    | Remove(path: Bytes)
    | Execute(cmd: Bytes)
    | Unknown

  datatype Class = ReadOnly | Idempotent | NonIdempotent

  function ClassOf(op: Op): Class {
    match op
    case Query => ReadOnly
    case MkdirAll(_, _) => Idempotent
    case Rename(_, _) => Idempotent
    case Write(_, _, _) => Idempotent
    case OpenWrite(_) => Idempotent
    case _ => NonIdempotent
  }

  datatype Kind = Agent | Shell

  /** What becomes of a call: it may stop with an error after some of its steps, or after all if the reply is lost. */
  datatype Fate = Completes | Fails(done: nat)

  type Effect = (Bytes, Nodes) -> Nodes

  const UMASKED_DIR: nat := 0x1ed  // rwxr-xr-x

  /** The mode without the bits that a umask of 022 takes away. */
  function Umasked(mode: nat): (m: nat)
    ensures m <= mode
  {
    mode - mode / 16 % 2 * 16 - mode / 2 % 2 * 2
  }

  /** Of each octal digit but the first, the umask takes the bit that lets others write. */
  lemma UmaskedDigits(owner: nat, group: nat, other: nat)
    requires owner < 8 && group < 8 && other < 8
    ensures Umasked(0x40 * owner + 8 * group + other) ==
            0x40 * owner + 8 * (if group in {2, 3, 6, 7} then group - 2 else group)
            + (if other in {2, 3, 6, 7} then other - 2 else other)
  {
    GroupBit(owner, group, other);
    OtherBit(owner, group, other);
    WriteBit(group);
    WriteBit(other);
  }

  lemma By16(q: nat, r: nat)
    requires r < 16
    ensures (16 * q + r) / 16 == q
  {
  }

  lemma ByTwo(q: nat, r: nat)
    requires r < 2
    ensures (2 * q + r) / 2 == q
  {
  }

  lemma SameParity(q: nat, d: nat)
    ensures (4 * q + d) % 2 == d % 2
  {
  }

  lemma GroupBit(owner: nat, group: nat, other: nat)
    requires other < 8
    ensures (0x40 * owner + 8 * group + other) / 16 % 2 == group / 2 % 2
  {
    By16(4 * owner + group / 2, 8 * (group % 2) + other);
    assert 0x40 * owner + 8 * group + other == 16 * (4 * owner + group / 2) + (8 * (group % 2) + other);
    SameParity(owner, group / 2);
  }

  lemma OtherBit(owner: nat, group: nat, other: nat)
    ensures (0x40 * owner + 8 * group + other) / 2 % 2 == other / 2 % 2
  {
    ByTwo(32 * owner + 4 * group + other / 2, other % 2);
    assert 0x40 * owner + 8 * group + other == 2 * (32 * owner + 4 * group + other / 2) + other % 2;
    SameParity(8 * owner + group, other / 2);
    assert 32 * owner + 4 * group + other / 2 == 4 * (8 * owner + group) + other / 2;
  }

  lemma WriteBit(digit: nat)
    requires digit < 8
    ensures digit / 2 % 2 == if digit in {2, 3, 6, 7} then 1 else 0
  {
  }

  /** The mode of an intermediate directory: the agent passes the requested mode, the shell leaves the default. */
  function IntermediateMode(kind: Kind, mode: nat): nat {
    if kind.Agent? then Umasked(mode) else UMASKED_DIR
  }

  predicate IsFile(nodes: Nodes, p: Bytes) {
    p in nodes && nodes[p].File?
  }

  predicate IsDir(nodes: Nodes, p: Bytes) {
    p in nodes && nodes[p].Dir?
  }

  predicate IsEmptyDir(nodes: Nodes, p: Bytes) {
    IsDir(nodes, p) && forall q :: q in nodes ==> !(p + "/" <= q)
  }

  /** Creates the missing directories one by one, up to the first file in the way. */
  function Made(chain: seq<Bytes>, m: nat, nodes: Nodes): (trace: seq<Nodes>) {
    if chain == [] || IsFile(nodes, chain[0]) then []
    else if chain[0] in nodes then Made(chain[1..], m, nodes)
    else
      var next := nodes[chain[0] := Dir(m)];
      [next] + Made(chain[1..], m, next)
  }

  /** All of it: the missing directories, then the requested mode on the innermost. */
  function DirsMade(kind: Kind, chain: seq<Bytes>, mode: nat, nodes: Nodes): Nodes
    requires chain != []
  {
    Final(nodes, Made(chain, IntermediateMode(kind, mode), nodes))[chain[|chain| - 1] := Dir(mode)]
  }

  /** Where a rename ends up: mv moves into a directory, the agent's rename takes the name as it is. */
  function Target(kind: Kind, nodes: Nodes, from: Bytes, to: Bytes): Bytes {
    if kind.Shell? then ShellWrite.Landing(from, to, IsDir(nodes, to)) else to
  }

  /** The agent draws a name that is not taken; a redirection fails only on a directory. */
  predicate CanStage(kind: Kind, nodes: Nodes, temp: Bytes) {
    if kind.Agent? then temp !in nodes else !IsDir(nodes, temp)
  }

  predicate Possible(kind: Kind, op: Op, nodes: Nodes, suffix: Bytes) {
    match op
    case MkdirAll(chain, _) => chain != [] && forall i :: 0 <= i < |chain| ==> !IsFile(nodes, chain[i])
    case Rename(o, n) =>
      IsFile(nodes, o) && !IsDir(nodes, Target(kind, nodes, o, n)) && (kind.Agent? || o != Target(kind, nodes, o, n))
    case Write(path, _, _) =>
      var temp := ShellWrite.TempPathFor(path, suffix);
      CanStage(kind, nodes, temp) && !IsDir(nodes, Target(kind, nodes, temp, path))
    case Remove(path) =>
      if kind.Agent? then IsFile(nodes, path) || IsEmptyDir(nodes, path) else !IsDir(nodes, path)
    case Unknown => false
    case _ => true
  }

  /** The states one execution passes through; a write that cannot rename removes its staging file. */
  function Steps(kind: Kind, op: Op, nodes: Nodes, suffix: Bytes, run: Effect): seq<Nodes> {
    match op
    case MkdirAll(chain, mode) =>
      var made := Made(chain, IntermediateMode(kind, mode), nodes);
      if Possible(kind, op, nodes, suffix) then made + [DirsMade(kind, chain, mode, nodes)] else made
    case Rename(o, n) =>
      if !Possible(kind, op, nodes, suffix) || o == n then []
      else [nodes[Target(kind, nodes, o, n) := nodes[o]] - {o}]
    case Write(path, data, mode) =>
      var temp := ShellWrite.TempPathFor(path, suffix);
      var target := Target(kind, nodes, temp, path);
      if !CanStage(kind, nodes, temp) then []
      else
        [nodes[temp := File([], mode)], nodes[temp := File(data, mode)],
         if IsDir(nodes, target) then nodes - {temp} else nodes[target := File(data, mode)] - {temp}]
    case Remove(path) => if path in nodes && Possible(kind, op, nodes, suffix) then [nodes - {path}] else []
    case Execute(cmd) => [run(cmd, nodes)]
    case _ => []
  }

  /** One call of a backend: the nodes it leaves, and whether it reports success. */
  function Call(kind: Kind, op: Op, nodes: Nodes, fate: Fate, suffix: Bytes, run: Effect): (Nodes, bool) {
    var steps := Steps(kind, op, nodes, suffix, run);
    match fate
    case Completes => (Final(nodes, steps), Possible(kind, op, nodes, suffix))
    case Fails(done) => (Final(nodes, steps[..Min(done, |steps|)]), false)
  }

  // ---- routing ----

  datatype Invocation = Invocation(kind: Kind, ok: bool)

  /** What one routed operation does: the backends it invoked, the nodes it leaves, its result, the agent's health. */
  datatype Routed = Routed(invoked: seq<Invocation>, nodes: Nodes, ok: bool, healthy: bool)

  function RouteOf(healthy: bool, op: Op, nodes: Nodes, agent: Fate, shell: Fate, suffixes: (Bytes, Bytes),
                   run: Effect): Routed
  {
    var (n1, ok1) := Call(Agent, op, nodes, agent, suffixes.0, run);
    if healthy && (ok1 || ClassOf(op).NonIdempotent?) then
      Routed([Invocation(Agent, ok1)], n1, ok1, true)
    else
      var start := if healthy then n1 else nodes;
      var (n2, ok2) := Call(Shell, op, start, shell, suffixes.1, run);
      Routed((if healthy then [Invocation(Agent, false)] else []) + [Invocation(Shell, ok2)], n2, ok2, false)
  }

  /**
    Which backends run: the shell alone when the agent is down; the agent alone when it succeeds; and when a healthy
    agent fails, the shell as well, whose result then counts and which leaves the agent marked down, exactly unless the
    operation is a removal, a command, or unknown.
   */
  lemma RoutingExactly(op: Op, nodes: Nodes, agent: Fate, shell: Fate, suffixes: (Bytes, Bytes), run: Effect)
    ensures var (alone, done) := Call(Shell, op, nodes, shell, suffixes.1, run);
            RouteOf(false, op, nodes, agent, shell, suffixes, run) ==
            Routed([Invocation(Shell, done)], alone, done, false)
    ensures var (mid, served) := Call(Agent, op, nodes, agent, suffixes.0, run);
            var (after, done) := Call(Shell, op, mid, shell, suffixes.1, run);
            RouteOf(true, op, nodes, agent, shell, suffixes, run) ==
            if served then Routed([Invocation(Agent, true)], mid, true, true)
            else if op.Remove? || op.Execute? || op.Unknown? then Routed([Invocation(Agent, false)], mid, false, true)
            else Routed([Invocation(Agent, false)] + [Invocation(Shell, done)], after, done, false)
  {
    var (alone, done) := Call(Shell, op, nodes, shell, suffixes.1, run);
    assert [] + [Invocation(Shell, done)] == [Invocation(Shell, done)];
  }

  /** A command runs at most once, whatever fails and however, and exactly once if the router reports success. */
  lemma CommandRunsOnce(healthy: bool, cmd: Bytes, nodes: Nodes, agent: Fate, shell: Fate, suffixes: (Bytes, Bytes),
                        run: Effect)
    ensures var r := RouteOf(healthy, Execute(cmd), nodes, agent, shell, suffixes, run);
            r.nodes in {nodes, run(cmd, nodes)} && (r.ok ==> r.nodes == run(cmd, nodes))
  {
    var s := [run(cmd, nodes)];
    assert s[..1] == s && s[..0] == [];
  }

  /** A removal takes away the file or empty directory and nothing else, or changes nothing. */
  lemma RemovesOnlyThat(healthy: bool, path: Bytes, nodes: Nodes, agent: Fate, shell: Fate, suffixes: (Bytes, Bytes),
                        run: Effect)
    ensures var r := RouteOf(healthy, Remove(path), nodes, agent, shell, suffixes, run);
            && r.nodes in {nodes, nodes - {path}} && (r.ok ==> r.nodes == nodes - {path})
            && (r.nodes != nodes ==> IsFile(nodes, path) || (healthy && IsEmptyDir(nodes, path)))
  {
    var s := [nodes - {path}];
    assert s[..1] == s && s[..0] == [];
    assert path !in nodes ==> nodes - {path} == nodes;
  }

  class Router {
    const run: Effect
    var agentHealthy: bool
    var agentLastError: bool
    var nodes: Nodes
    var invoked: seq<Invocation>  // by the last operation

    constructor (run: Effect, nodes: Nodes)
      ensures this.run == run && this.nodes == nodes && !agentHealthy && !agentLastError && invoked == []
    {
      this.run, this.nodes := run, nodes;
      agentHealthy, agentLastError, invoked := false, false, [];
    }

    /** The agent's error is kept, not returned: a router with a dead agent still works. */
    method Probe(shellOk: bool, agentOk: bool) returns (ok: bool)
      modifies this`agentHealthy, this`agentLastError
      ensures ok == shellOk
      ensures agentHealthy == if shellOk then agentOk else old(agentHealthy)
      ensures agentLastError == if shellOk then !agentOk else old(agentLastError)
    {
      if !shellOk { return false; }
      if !agentOk {
        agentHealthy, agentLastError := false, true;
        return true;
      }
      agentHealthy, agentLastError := true, false;
      return true;
    }

    method Route(op: Op, agent: Fate, shell: Fate, suffixes: (Bytes, Bytes)) returns (ok: bool)
      modifies this
      ensures Routed(invoked, nodes, ok, agentHealthy) ==
              RouteOf(old(agentHealthy), op, old(nodes), agent, shell, suffixes, run)
      ensures agentLastError == (old(agentLastError) || (old(agentHealthy) && !agentHealthy))
    {
      invoked := [];
      if agentHealthy {
        var (after, done) := Call(Agent, op, nodes, agent, suffixes.0, run);
        nodes := after;
        invoked := [Invocation(Agent, done)];
        if done { return true; }
        if ClassOf(op).NonIdempotent? { return false; }
        agentHealthy, agentLastError := false, true;
      }
      var (after, done) := Call(Shell, op, nodes, shell, suffixes.1, run);
      nodes := after;
      invoked := invoked + [Invocation(Shell, done)];
      return done;
    }
  }

  // ---- a successful fallback leaves what one execution leaves ----

  /** A sibling that a write of `path` may use for staging. */
  predicate IsTempOf(path: Bytes, p: Bytes) {
    path + ".tmp." <= p
  }

  /** `after` is what one execution of the operation makes of `before`, leftover staging files aside. */
  ghost predicate OneExecution(op: Op, before: Nodes, after: Nodes) {
    match op
    case Rename(o, n) => IsFile(before, o) && o != n && after == before[n := before[o]] - {o}
    case Write(path, data, mode) =>
      && Lookup(after, path) == Some(File(data, mode))
      && (forall p :: p != path && !IsTempOf(path, p) ==> Lookup(after, p) == Lookup(before, p))
    case MkdirAll(chain, mode) => chain != [] && exists kind :: after == DirsMade(kind, chain, mode, before)
    case Query => after == before
    case OpenWrite(_) => after == before
    case _ => false
  }

  lemma TempIsTemp(path: Bytes, suffix: Bytes)
    ensures IsTempOf(path, ShellWrite.TempPathFor(path, suffix))
  {
    Assoc(path, ".tmp.", suffix);
  }

  /** However far a write got, only its target and its staging file are touched, and the target only by the whole. */
  lemma PartialWrite(kind: Kind, path: Bytes, data: Bytes, mode: nat, nodes: Nodes, fate: Fate, suffix: Bytes,
                     run: Effect)
    requires kind.Agent? || !IsDir(nodes, path)
    ensures var after := Call(kind, Write(path, data, mode), nodes, fate, suffix, run).0;
            && Lookup(after, path) in {Lookup(nodes, path), Some(File(data, mode))}
            && (IsDir(nodes, path) ==> Lookup(after, path) == Lookup(nodes, path))
            && (forall p :: p != path && !IsTempOf(path, p) ==> Lookup(after, p) == Lookup(nodes, p))
  {
    TempIsTemp(path, suffix);
    var steps := Steps(kind, Write(path, data, mode), nodes, suffix, run);
    assert forall i :: 0 <= i < |steps| ==> Lookup(steps[i], path) in {Lookup(nodes, path), Some(File(data, mode))};
  }

  /** Directories made so far: what was there stays, what is new is a directory of the chain with this mode. */
  ghost predicate PartlyMade(chain: seq<Bytes>, m: nat, before: Nodes, after: Nodes) {
    forall p ::
      Lookup(after, p) == Lookup(before, p) || (p !in before && p in chain && Lookup(after, p) == Some(Dir(m)))
  }

  lemma {:induction false} MadeStepByStep(chain: seq<Bytes>, m: nat, nodes: Nodes, k: nat)
    requires k <= |Made(chain, m, nodes)|
    ensures PartlyMade(chain, m, nodes, Final(nodes, Made(chain, m, nodes)[..k]))
  {
    var made := Made(chain, m, nodes);
    if chain == [] || IsFile(nodes, chain[0]) || k == 0 {
      assert made[..k] == [];
    } else {
      var next := if chain[0] in nodes then nodes else nodes[chain[0] := Dir(m)];
      var rest, j := Made(chain[1..], m, next), if chain[0] in nodes then k else k - 1;
      MadeStepByStep(chain[1..], m, next, j);
      LastOfPrefix(nodes, next, rest, j);
      assert made == (if chain[0] in nodes then rest else [next] + rest);
      PartlyMadeOneMore(chain, m, nodes, next, Final(next, rest[..j]));
    }
  }

  lemma LastOfPrefix(nodes: Nodes, next: Nodes, rest: seq<Nodes>, j: nat)
    requires j <= |rest|
    ensures Final(nodes, ([next] + rest)[..j + 1]) == Final(next, rest[..j])
  {
    assert ([next] + rest)[..j + 1] == [next] + rest[..j];
  }

  lemma PartlyMadeOneMore(chain: seq<Bytes>, m: nat, nodes: Nodes, next: Nodes, after: Nodes)
    requires chain != [] && next == (if chain[0] in nodes then nodes else nodes[chain[0] := Dir(m)])
    requires PartlyMade(chain[1..], m, next, after)
    ensures PartlyMade(chain, m, nodes, after)
  {
  }

  lemma {:induction false} AllMade(chain: seq<Bytes>, m: nat, nodes: Nodes)
    requires forall i :: 0 <= i < |chain| ==> !IsFile(nodes, chain[i])
    ensures forall i :: 0 <= i < |chain| ==> chain[i] in Final(nodes, Made(chain, m, nodes))
  {
    if chain != [] {
      var next := if chain[0] in nodes then nodes else nodes[chain[0] := Dir(m)];
      forall i | 0 <= i < |chain[1..]| ensures !IsFile(next, chain[1..][i]) {
        assert chain[1..][i] == chain[i + 1];
      }
      AllMade(chain[1..], m, next);
      var rest := Made(chain[1..], m, next);
      MadeStepByStep(chain[1..], m, next, |rest|);
      assert rest[..|rest|] == rest;
      LastOfPrefix(nodes, next, rest, |rest|);
      assert ([next] + rest)[..|rest| + 1] == [next] + rest;
      assert Lookup(Final(next, rest), chain[0]) == Lookup(next, chain[0]);
      forall i | 0 <= i < |chain| ensures chain[i] in Final(nodes, Made(chain, m, nodes)) {
        assert i > 0 ==> chain[i] == chain[1..][i - 1];
      }
    }
  }

  /** However far a directory was made: apart from the leaf, what was there stays and what is new is of the chain. */
  ghost predicate PartialDirs(chain: seq<Bytes>, m: nat, before: Nodes, after: Nodes)
    requires chain != []
  {
    forall p :: p != chain[|chain| - 1] ==>
      Lookup(after, p) == Lookup(before, p) || (p !in before && p in chain && Lookup(after, p) == Some(Dir(m)))
  }

  lemma PartialMkdir(kind: Kind, chain: seq<Bytes>, mode: nat, nodes: Nodes, fate: Fate, suffix: Bytes, run: Effect)
    requires chain != []
    ensures PartialDirs(chain, IntermediateMode(kind, mode), nodes,
                        Call(kind, MkdirAll(chain, mode), nodes, fate, suffix, run).0)
  {
    var m := IntermediateMode(kind, mode);
    var made := Made(chain, m, nodes);
    var steps := Steps(kind, MkdirAll(chain, mode), nodes, suffix, run);
    var k := if fate.Fails? then Min(fate.done, |steps|) else |steps|;
    assert steps[..|steps|] == steps;
    MadeStepByStep(chain, m, nodes, Min(k, |made|));
    if k <= |made| {
      assert steps[..k] == made[..k];
    } else {
      assert steps[..k] == steps && made[..|made|] == made;
    }
  }

  /** Of the missing directories those in `mid` have the mode `ma` and the others `ms`; the leaf has `mode`. */
  ghost predicate DirsAs(chain: seq<Bytes>, mode: nat, before: Nodes, mid: Nodes, after: Nodes, ma: nat, ms: nat)
    requires chain != []
  {
    && Lookup(after, chain[|chain| - 1]) == Some(Dir(mode))
    && (forall p :: p != chain[|chain| - 1] ==>
          Lookup(after, p) == if Missing(chain, before, p) then Some(Dir(if p in mid then ma else ms))
                              else Lookup(before, p))
  }

  /** An intermediate directory that has to be made. */
  predicate Missing(chain: seq<Bytes>, nodes: Nodes, p: Bytes)
    requires chain != []
  {
    p in chain && p != chain[|chain| - 1] && p !in nodes
  }

  /** What one execution leaves. */
  lemma FullMkdir(kind: Kind, chain: seq<Bytes>, mode: nat, nodes: Nodes)
    requires chain != [] && forall i :: 0 <= i < |chain| ==> !IsFile(nodes, chain[i])
    ensures var m := IntermediateMode(kind, mode);
            DirsAs(chain, mode, nodes, nodes, DirsMade(kind, chain, mode, nodes), m, m)
  {
    var m := IntermediateMode(kind, mode);
    var made := Made(chain, m, nodes);
    AllMade(chain, m, nodes);
    MadeStepByStep(chain, m, nodes, |made|);
    assert made[..|made|] == made;
    var after := DirsMade(kind, chain, mode, nodes);
    forall p | p != chain[|chain| - 1]
      ensures Lookup(after, p) == if Missing(chain, nodes, p) then Some(Dir(m)) else Lookup(nodes, p)
    {
      assert Lookup(after, p) == Lookup(Final(nodes, made), p);
      if Missing(chain, nodes, p) {
        assert p in Final(nodes, made);
      }
    }
  }

  /** What an execution leaves that takes over from a partial one. */
  lemma MkdirTwice(chain: seq<Bytes>, mode: nat, before: Nodes, mid: Nodes, after: Nodes, ma: nat, ms: nat)
    requires chain != [] && PartialDirs(chain, ma, before, mid) && DirsAs(chain, mode, mid, mid, after, ms, ms)
    ensures DirsAs(chain, mode, before, mid, after, ma, ms)
  {
    forall p | p != chain[|chain| - 1]
      ensures Lookup(after, p) == if Missing(chain, before, p) then Some(Dir(if p in mid then ma else ms))
                                  else Lookup(before, p)
    {
      assert Lookup(mid, p) == Lookup(before, p) || (p !in before && p in chain && Lookup(mid, p) == Some(Dir(ma)));
    }
  }

  lemma SameDirs(chain: seq<Bytes>, mode: nat, before: Nodes, mid: Nodes, a: Nodes, b: Nodes, ma: nat, ms: nat, m: nat)
    requires chain != [] && DirsAs(chain, mode, before, mid, a, ma, ms) && DirsAs(chain, mode, before, before, b, m, m)
    ensures a == b <==> forall p :: Missing(chain, before, p) ==> m == if p in mid then ma else ms
  {
    if forall p :: Missing(chain, before, p) ==> m == if p in mid then ma else ms {
      forall p ensures Lookup(a, p) == Lookup(b, p) {
        assert Missing(chain, before, p) ==> m == if p in mid then ma else ms;
      }
      SameNodes(a, b);
    } else {
      var p :| Missing(chain, before, p) && m != if p in mid then ma else ms;
      assert Lookup(a, p) != Lookup(b, p);
    }
  }

  lemma SameNodes(a: Nodes, b: Nodes)
    requires forall p :: Lookup(a, p) == Lookup(b, p)
    ensures a == b
  {
    forall p ensures (p in a <==> p in b) && (p in a ==> a[p] == b[p]) {
      assert Lookup(a, p) == Lookup(b, p);
    }
  }

  /** The agent made none of the missing intermediate directories, or all of them. */
  ghost predicate NoneOrAll(chain: seq<Bytes>, before: Nodes, mid: Nodes)
    requires chain != []
  {
    || (forall p :: Missing(chain, before, p) ==> p !in mid)
    || (forall p :: Missing(chain, before, p) ==> p in mid)
  }

  /**
    Directories that the two backends made in one operation: what is left is what one of them alone leaves exactly
    when they give intermediate directories the same mode, or the agent made none or all of those missing.
   */
  lemma MixedDirectoryModes(chain: seq<Bytes>, mode: nat, nodes: Nodes, agent: Fate, suffixes: (Bytes, Bytes),
                            run: Effect)
    requires var mid := Call(Agent, MkdirAll(chain, mode), nodes, agent, suffixes.0, run).0;
             Possible(Shell, MkdirAll(chain, mode), mid, suffixes.1)
    ensures var mid := Call(Agent, MkdirAll(chain, mode), nodes, agent, suffixes.0, run).0;
            OneExecution(MkdirAll(chain, mode), nodes,
                         Call(Shell, MkdirAll(chain, mode), mid, Completes, suffixes.1, run).0)
            <==> Umasked(mode) == UMASKED_DIR || NoneOrAll(chain, nodes, mid)
  {
    var mid := Call(Agent, MkdirAll(chain, mode), nodes, agent, suffixes.0, run).0;
    var after := Call(Shell, MkdirAll(chain, mode), mid, Completes, suffixes.1, run).0;
    var ma, ms := Umasked(mode), UMASKED_DIR;
    PartialMkdir(Agent, chain, mode, nodes, agent, suffixes.0, run);
    NoFilesBefore(chain, mode, nodes, agent, suffixes.0, run, mid);
    FullMkdir(Shell, chain, mode, mid);
    assert after == DirsMade(Shell, chain, mode, mid);
    MkdirTwice(chain, mode, nodes, mid, after, ma, ms);
    FullMkdir(Agent, chain, mode, nodes);
    FullMkdir(Shell, chain, mode, nodes);
    SameDirs(chain, mode, nodes, mid, after, DirsMade(Agent, chain, mode, nodes), ma, ms, ma);
    SameDirs(chain, mode, nodes, mid, after, DirsMade(Shell, chain, mode, nodes), ma, ms, ms);
    OneOfTwo(chain, mode, nodes, after);
  }

  /** The agent stops after the first of two missing directories: the modes are of one backend only if they agree. */
  lemma AgentStopsBetween(a: Bytes, b: Bytes, c: Bytes, mode: nat, suffixes: (Bytes, Bytes), run: Effect)
    requires a != b && b != c && a != c
    ensures var op := MkdirAll([a, b, c], mode);
            var r := RouteOf(true, op, map[], Fails(1), Completes, suffixes, run);
            r.ok && |r.invoked| == 2 && (OneExecution(op, map[], r.nodes) <==> Umasked(mode) == UMASKED_DIR)
  {
    var op, none: Nodes := MkdirAll([a, b, c], mode), map[];
    var first: Nodes := map[a := Dir(Umasked(mode))];
    var steps := Steps(Agent, op, none, suffixes.0, run);
    assert [a, b, c][0] == a;
    assert steps[..1] == [first];
    assert Call(Agent, op, none, Fails(1), suffixes.0, run).0 == first;
    MixedDirectoryModes([a, b, c], mode, none, Fails(1), suffixes, run);
    assert Missing([a, b, c], none, [a, b, c][0]) && Missing([a, b, c], none, [a, b, c][1]);
  }

  lemma OneOfTwo(chain: seq<Bytes>, mode: nat, before: Nodes, after: Nodes)
    requires chain != []
    ensures OneExecution(MkdirAll(chain, mode), before, after) <==>
            after in {DirsMade(Agent, chain, mode, before), DirsMade(Shell, chain, mode, before)}
  {
    if kind :| after == DirsMade(kind, chain, mode, before) {
      assert kind == Agent || kind == Shell;
    }
  }

  /** A file in the place of the directory asked for stays there. */
  lemma LeafStaysFile(chain: seq<Bytes>, mode: nat, nodes: Nodes, agent: Fate, suffix: Bytes, run: Effect)
    requires chain != [] && IsFile(nodes, chain[|chain| - 1])
    ensures var mid := Call(Agent, MkdirAll(chain, mode), nodes, agent, suffix, run).0;
            Lookup(mid, chain[|chain| - 1]) == Lookup(nodes, chain[|chain| - 1])
  {
    var m := IntermediateMode(Agent, mode);
    var made := Made(chain, m, nodes);
    assert !Possible(Agent, MkdirAll(chain, mode), nodes, suffix);
    assert made[..|made|] == made;
    MadeStepByStep(chain, m, nodes, if agent.Fails? then Min(agent.done, |made|) else |made|);
  }

  /** The agent does not make files, so where the shell finds no file in the way there was none. */
  lemma NoFilesBefore(chain: seq<Bytes>, mode: nat, nodes: Nodes, agent: Fate, suffix: Bytes, run: Effect, mid: Nodes)
    requires chain != [] && mid == Call(Agent, MkdirAll(chain, mode), nodes, agent, suffix, run).0
    requires forall i :: 0 <= i < |chain| ==> !IsFile(mid, chain[i])
    ensures forall i :: 0 <= i < |chain| ==> !IsFile(nodes, chain[i])
  {
    PartialMkdir(Agent, chain, mode, nodes, agent, suffix, run);
    var leaf := chain[|chain| - 1];
    if IsFile(nodes, leaf) {
      LeafStaysFile(chain, mode, nodes, agent, suffix, run);
    }
    forall i | 0 <= i < |chain| ensures !IsFile(nodes, chain[i]) {
      assert chain[i] != leaf ==> Lookup(mid, chain[i]) == Lookup(nodes, chain[i]) || chain[i] !in nodes;
    }
  }

  lemma FallbackWrite(path: Bytes, data: Bytes, mode: nat, nodes: Nodes, agent: Fate, suffixes: (Bytes, Bytes),
                      run: Effect)
    requires var mid := Call(Agent, Write(path, data, mode), nodes, agent, suffixes.0, run).0;
             Possible(Shell, Write(path, data, mode), mid, suffixes.1)
    ensures var mid := Call(Agent, Write(path, data, mode), nodes, agent, suffixes.0, run).0;
            OneExecution(Write(path, data, mode), nodes,
                         Call(Shell, Write(path, data, mode), mid, Completes, suffixes.1, run).0)
            <==> !IsDir(nodes, path)
  {
    var mid := Call(Agent, Write(path, data, mode), nodes, agent, suffixes.0, run).0;
    PartialWrite(Agent, path, data, mode, nodes, agent, suffixes.0, run);
    if IsDir(nodes, path) {
      assert IsDir(mid, path);
      ShellWrite.LandingIsApart(path, suffixes.1, true);
    } else {
      PartialWrite(Shell, path, data, mode, mid, Completes, suffixes.1, run);
    }
  }

  /** A rename that took effect leaves nothing for the shell to rename, so the fallback then fails. */
  lemma FallbackRename(o: Bytes, n: Bytes, nodes: Nodes, agent: Fate, suffixes: (Bytes, Bytes), run: Effect)
    requires var mid := Call(Agent, Rename(o, n), nodes, agent, suffixes.0, run).0;
             Possible(Shell, Rename(o, n), mid, suffixes.1)
    ensures var mid := Call(Agent, Rename(o, n), nodes, agent, suffixes.0, run).0;
            OneExecution(Rename(o, n), nodes, Call(Shell, Rename(o, n), mid, Completes, suffixes.1, run).0)
            <==> !IsDir(nodes, n)
  {
    var steps := Steps(Agent, Rename(o, n), nodes, suffixes.0, run);
    assert |steps| <= 1;
    var mid := Call(Agent, Rename(o, n), nodes, agent, suffixes.0, run).0;
    assert mid == nodes;
    if IsDir(nodes, n) {
      var after := Call(Shell, Rename(o, n), mid, Completes, suffixes.1, run).0;
      assert |Target(Shell, nodes, o, n)| > |n|;
      assert Lookup(after, n) == Lookup(nodes, n);
    }
  }

  /** The target is no directory; of the missing directories the agent made none or all, or their mode is the same. */
  ghost predicate Undisturbed(op: Op, nodes: Nodes, mid: Nodes) {
    match op
    case Write(path, _, _) => !IsDir(nodes, path)
    case Rename(_, n) => !IsDir(nodes, n)
    case MkdirAll(chain, mode) => Umasked(mode) == UMASKED_DIR || chain == [] || NoneOrAll(chain, nodes, mid)
    case _ => true
  }

  /**
    Whether the agent's call took no effect, part of it or all of it before it failed: a fallback that succeeds
    leaves what one execution of the operation leaves, staging files aside, exactly when the target was no directory
    and the two backends' directories do not mix. The operations are those the router falls back for, and it falls
    back for no others.
   */
  lemma FallbackIsExact(op: Op, nodes: Nodes, agent: Fate, shell: Fate, suffixes: (Bytes, Bytes), run: Effect)
    requires var r := RouteOf(true, op, nodes, agent, shell, suffixes, run); r.ok && |r.invoked| == 2
    ensures !ClassOf(op).NonIdempotent?
    ensures OneExecution(op, nodes, RouteOf(true, op, nodes, agent, shell, suffixes, run).nodes) <==>
            Undisturbed(op, nodes, Call(Agent, op, nodes, agent, suffixes.0, run).0)
  {
    match op {
      case Write(path, data, mode) => FallbackWrite(path, data, mode, nodes, agent, suffixes, run);
      case MkdirAll(chain, mode) => MixedDirectoryModes(chain, mode, nodes, agent, suffixes, run);
      case Rename(o, n) => FallbackRename(o, n, nodes, agent, suffixes, run);
      case _ =>
    }
  }

  /** A fallback that succeeds after this failure of the agent leaves what one execution leaves. */
  ghost predicate FallsBackExactly(chain: seq<Bytes>, mode: nat, nodes: Nodes, agent: Fate, suffixes: (Bytes, Bytes),
                                   run: Effect)
  {
    var r := RouteOf(true, MkdirAll(chain, mode), nodes, agent, Completes, suffixes, run);
    r.ok && |r.invoked| == 2 ==> OneExecution(MkdirAll(chain, mode), nodes, r.nodes)
  }

  ghost predicate AtMostOneMissing(chain: seq<Bytes>, nodes: Nodes)
    requires chain != []
  {
    forall p, q :: Missing(chain, nodes, p) && Missing(chain, nodes, q) ==> p == q
  }

  /** After some step of the agent's one of two missing directories is there and the other is not. */
  lemma {:induction false} OneWithoutTheOther(chain: seq<Bytes>, m: nat, nodes: Nodes, p: Bytes, q: Bytes)
    returns (d: nat)
    requires p != q && p in chain && q in chain && p !in nodes && q !in nodes
    requires forall i :: 0 <= i < |chain| ==> !IsFile(nodes, chain[i])
    ensures d <= |Made(chain, m, nodes)|
    ensures var mid := Final(nodes, Made(chain, m, nodes)[..d]); p in mid <==> q !in mid
  {
    var next := if chain[0] in nodes then nodes else nodes[chain[0] := Dir(m)];
    var rest := Made(chain[1..], m, next);
    if chain[0] == p || chain[0] == q {
      d := 1;
      assert Made(chain, m, nodes)[..1] == [next];
    } else {
      forall i | 0 <= i < |chain[1..]| ensures !IsFile(next, chain[1..][i]) {
        assert chain[1..][i] == chain[i + 1];
      }
      d := OneWithoutTheOther(chain[1..], m, next, p, q);
      if chain[0] !in nodes {
        LastOfPrefix(nodes, next, rest, d);
        d := d + 1;
      }
    }
  }

  lemma StoppedAfter(chain: seq<Bytes>, mode: nat, nodes: Nodes, d: nat, suffix: Bytes, run: Effect)
    requires d <= |Made(chain, IntermediateMode(Agent, mode), nodes)|
    ensures Call(Agent, MkdirAll(chain, mode), nodes, Fails(d), suffix, run) ==
            (Final(nodes, Made(chain, IntermediateMode(Agent, mode), nodes)[..d]), false)
  {
    var made, steps := Made(chain, IntermediateMode(Agent, mode), nodes),
                       Steps(Agent, MkdirAll(chain, mode), nodes, suffix, run);
    assert steps[..d] == made[..d];
  }

  lemma StillPossible(chain: seq<Bytes>, mode: nat, nodes: Nodes, d: nat, suffixes: (Bytes, Bytes), run: Effect)
    requires chain != [] && forall i :: 0 <= i < |chain| ==> !IsFile(nodes, chain[i])
    requires d <= |Made(chain, IntermediateMode(Agent, mode), nodes)|
    ensures var r := RouteOf(true, MkdirAll(chain, mode), nodes, Fails(d), Completes, suffixes, run);
            r.ok && |r.invoked| == 2
  {
    var m := IntermediateMode(Agent, mode);
    var mid := Final(nodes, Made(chain, m, nodes)[..d]);
    StoppedAfter(chain, mode, nodes, d, suffixes.0, run);
    MadeStepByStep(chain, m, nodes, d);
    forall i | 0 <= i < |chain| ensures !IsFile(mid, chain[i]) {
      assert Lookup(mid, chain[i]) in {Lookup(nodes, chain[i]), Some(Dir(m))};
    }
  }

  predicate FileInTheWay(chain: seq<Bytes>, nodes: Nodes) {
    exists i :: 0 <= i < |chain| && IsFile(nodes, chain[i])
  }

  lemma FallsBackIfAlike(chain: seq<Bytes>, mode: nat, nodes: Nodes, agent: Fate, suffixes: (Bytes, Bytes), run: Effect)
    requires chain != []
    requires Umasked(mode) == UMASKED_DIR || AtMostOneMissing(chain, nodes) || FileInTheWay(chain, nodes)
    ensures FallsBackExactly(chain, mode, nodes, agent, suffixes, run)
  {
    var op := MkdirAll(chain, mode);
    var r := RouteOf(true, op, nodes, agent, Completes, suffixes, run);
    if r.ok && |r.invoked| == 2 {
      NoFilesBefore(chain, mode, nodes, agent, suffixes.0, run, Call(Agent, op, nodes, agent, suffixes.0, run).0);
      FallbackIsExact(op, nodes, agent, Completes, suffixes, run);
    }
  }

  lemma StopBetween(chain: seq<Bytes>, mode: nat, nodes: Nodes, p: Bytes, q: Bytes, suffixes: (Bytes, Bytes),
                    run: Effect)
    returns (agent: Fate)
    requires chain != [] && Missing(chain, nodes, p) && Missing(chain, nodes, q) && p != q
    requires Umasked(mode) != UMASKED_DIR && !FileInTheWay(chain, nodes)
    ensures !FallsBackExactly(chain, mode, nodes, agent, suffixes, run)
  {
    var d := OneWithoutTheOther(chain, IntermediateMode(Agent, mode), nodes, p, q);
    StoppedAfter(chain, mode, nodes, d, suffixes.0, run);
    StillPossible(chain, mode, nodes, d, suffixes, run);
    agent := Fails(d);
    FallbackIsExact(MkdirAll(chain, mode), nodes, agent, Completes, suffixes, run);
  }

  /**
    Seen before the call: wherever the agent may stop, a fallback that succeeds makes directories as one execution does,
    exactly when both backends give intermediate directories the same mode, or at most one of them is missing, or a
    file is in the way, so that no fallback succeeds.
   */
  lemma MkdirFallbackExactly(chain: seq<Bytes>, mode: nat, nodes: Nodes, suffixes: (Bytes, Bytes), run: Effect)
    requires chain != []
    ensures (forall agent :: FallsBackExactly(chain, mode, nodes, agent, suffixes, run)) <==>
            Umasked(mode) == UMASKED_DIR || AtMostOneMissing(chain, nodes) || FileInTheWay(chain, nodes)
  {
    if Umasked(mode) == UMASKED_DIR || AtMostOneMissing(chain, nodes) || FileInTheWay(chain, nodes) {
      forall agent ensures FallsBackExactly(chain, mode, nodes, agent, suffixes, run) {
        FallsBackIfAlike(chain, mode, nodes, agent, suffixes, run);
      }
    } else {
      var p, q :| Missing(chain, nodes, p) && Missing(chain, nodes, q) && p != q;
      var agent := StopBetween(chain, mode, nodes, p, q, suffixes, run);
    }
  }

  /** A write to a directory: the agent refuses, the shell reports success with the data inside under another name. */
  lemma WriteIntoDirectory(d: Bytes, data: Bytes, mode: nat, nodes: Nodes, suffixes: (Bytes, Bytes), run: Effect)
    requires IsDir(nodes, d) && ShellWrite.TempPathFor(d, suffixes.0) !in nodes
    requires ShellWrite.TempPathFor(d, suffixes.1) !in nodes
    requires ShellWrite.Landing(ShellWrite.TempPathFor(d, suffixes.1), d, true) !in nodes
    ensures var r := RouteOf(true, Write(d, data, mode), nodes, Completes, Completes, suffixes, run);
            && r.ok && r.invoked == [Invocation(Agent, false), Invocation(Shell, true)]
            && r.nodes == nodes[ShellWrite.Landing(ShellWrite.TempPathFor(d, suffixes.1), d, true) := File(data, mode)]
            && !OneExecution(Write(d, data, mode), nodes, r.nodes)
  {
    var op := Write(d, data, mode);
    var temp, temp' := ShellWrite.TempPathFor(d, suffixes.0), ShellWrite.TempPathFor(d, suffixes.1);
    assert nodes - {temp} == nodes;
    assert Call(Agent, op, nodes, Completes, suffixes.0, run) == (nodes, false);
    ShellWrite.LandingIsApart(d, suffixes.1, true);
    var target := ShellWrite.Landing(temp', d, true);
    assert nodes[target := File(data, mode)] - {temp'} == nodes[target := File(data, mode)];
  }

  /** Renaming a file to a directory likewise moves it inside. */
  lemma RenameIntoDirectory(f: Bytes, d: Bytes, nodes: Nodes, suffixes: (Bytes, Bytes), run: Effect)
    requires IsFile(nodes, f) && IsDir(nodes, d) && ShellWrite.Landing(f, d, true) !in nodes
    ensures var r := RouteOf(true, Rename(f, d), nodes, Completes, Completes, suffixes, run);
            && r.ok && r.nodes == nodes[ShellWrite.Landing(f, d, true) := nodes[f]] - {f}
            && !OneExecution(Rename(f, d), nodes, r.nodes)
  {
    assert Call(Agent, Rename(f, d), nodes, Completes, suffixes.0, run) == (nodes, false);
    FallbackRename(f, d, nodes, Completes, suffixes, run);
  }

  // ---- runs ----

  datatype Event =
    | Routing(op: Op, agent: Fate, shell: Fate, suffixes: (Bytes, Bytes))
    | Probing(shellOk: bool, agentOk: bool)

  /** Health after an event. */
  function HealthAfter(healthy: bool, e: Event, nodes: Nodes, run: Effect): bool {
    match e
    case Probing(shellOk, agentOk) => if shellOk then agentOk else healthy
    case Routing(op, agent, shell, suffixes) => RouteOf(healthy, op, nodes, agent, shell, suffixes, run).healthy
  }

  function NodesAfter(healthy: bool, e: Event, nodes: Nodes, run: Effect): Nodes {
    match e
    case Probing(_, _) => nodes
    case Routing(op, agent, shell, suffixes) => RouteOf(healthy, op, nodes, agent, shell, suffixes, run).nodes
  }

  function InvokedBy(healthy: bool, e: Event, nodes: Nodes, run: Effect): seq<Invocation> {
    match e
    case Probing(_, _) => []
    case Routing(op, agent, shell, suffixes) => RouteOf(healthy, op, nodes, agent, shell, suffixes, run).invoked
  }

  /** The backends invoked by each event of a run. */
  function Log(healthy: bool, nodes: Nodes, es: seq<Event>, run: Effect): (log: seq<seq<Invocation>>)
    ensures |log| == |es|
    decreases |es|
  {
    if es == [] then []
    else
      [InvokedBy(healthy, es[0], nodes, run)]
      + Log(HealthAfter(healthy, es[0], nodes, run), NodesAfter(healthy, es[0], nodes, run), es[1..], run)
  }

  predicate UsesAgent(invoked: seq<Invocation>) {
    exists i :: 0 <= i < |invoked| && invoked[i].kind.Agent?
  }

  /** A successful probe: the shell's first, then the agent's. */
  predicate Revives(e: Event) {
    e.Probing? && e.shellOk && e.agentOk
  }

  /** The agent failed an operation that the router falls back for. */
  predicate TakesDown(e: Event, invoked: seq<Invocation>) {
    e.Routing? && !ClassOf(e.op).NonIdempotent? && invoked != [] && invoked[0] == Invocation(Agent, false)
  }

  lemma LogTail(healthy: bool, nodes: Nodes, es: seq<Event>, run: Effect, k: nat)
    requires 0 < k < |es|
    ensures Log(healthy, nodes, es, run)[k] ==
            Log(HealthAfter(healthy, es[0], nodes, run), NodesAfter(healthy, es[0], nodes, run), es[1..], run)[k - 1]
  {
  }

  lemma QuietTail(es: seq<Event>, j: int, k: nat)
    requires 0 < k <= |es| && -1 <= j && forall i :: j < i < k ==> !Revives(es[i])
    ensures forall i :: j - 1 < i < k - 1 && 0 <= i ==> !Revives(es[1..][i])
  {
    forall i | j - 1 < i < k - 1 && 0 <= i ensures !Revives(es[1..][i]) {
      assert es[1..][i] == es[i + 1];
    }
  }

  /** While the agent is down, no operation reaches it before a successful probe. */
  lemma {:induction false} DownUntilProbed(nodes: Nodes, es: seq<Event>, run: Effect, k: nat)
    requires k < |es| && forall i :: 0 <= i < k ==> !Revives(es[i])
    ensures !UsesAgent(Log(false, nodes, es, run)[k])
    decreases k
  {
    if k > 0 {
      assert !Revives(es[0]);
      QuietTail(es, -1, k);
      LogTail(false, nodes, es, run, k);
      DownUntilProbed(NodesAfter(false, es[0], nodes, run), es[1..], run, k - 1);
    }
  }

  /** In every run: once the agent fails a fallbackable operation, it is not used again until a successful probe. */
  lemma {:induction false} NoAgentUntilProbed(healthy: bool, nodes: Nodes, es: seq<Event>, run: Effect, j: nat, k: nat)
    requires j < k < |es| && TakesDown(es[j], Log(healthy, nodes, es, run)[j])
    requires forall i :: j < i < k ==> !Revives(es[i])
    ensures !UsesAgent(Log(healthy, nodes, es, run)[k])
    decreases j
  {
    var healthy', nodes' := HealthAfter(healthy, es[0], nodes, run), NodesAfter(healthy, es[0], nodes, run);
    QuietTail(es, j, k);
    LogTail(healthy, nodes, es, run, k);
    if j == 0 {
      assert !healthy';
      DownUntilProbed(nodes', es[1..], run, k - 1);
    } else {
      LogTail(healthy, nodes, es, run, j);
      NoAgentUntilProbed(healthy', nodes', es[1..], run, j - 1, k - 1);
    }
  }

  /** The agent's health and the nodes after the first `k` events. */
  function After(healthy: bool, nodes: Nodes, es: seq<Event>, run: Effect, k: nat): (bool, Nodes)
    requires k <= |es|
  {
    if k == 0 then (healthy, nodes)
    else
      var (h, ns) := After(healthy, nodes, es, run, k - 1);
      (HealthAfter(h, es[k - 1], ns, run), NodesAfter(h, es[k - 1], ns, run))
  }

  lemma {:induction false} AfterTail(healthy: bool, nodes: Nodes, es: seq<Event>, run: Effect, k: nat)
    requires 0 < k <= |es|
    ensures After(healthy, nodes, es, run, k) ==
            After(HealthAfter(healthy, es[0], nodes, run), NodesAfter(healthy, es[0], nodes, run), es[1..], run, k - 1)
  {
    if k > 1 {
      AfterTail(healthy, nodes, es, run, k - 1);
      assert es[1..][k - 2] == es[k - 1];
    }
  }

  lemma {:induction false} LogAt(healthy: bool, nodes: Nodes, es: seq<Event>, run: Effect, k: nat)
    requires k < |es|
    ensures var (h, ns) := After(healthy, nodes, es, run, k);
            Log(healthy, nodes, es, run)[k] == InvokedBy(h, es[k], ns, run)
    decreases k
  {
    if k > 0 {
      LogTail(healthy, nodes, es, run, k);
      AfterTail(healthy, nodes, es, run, k);
      LogAt(HealthAfter(healthy, es[0], nodes, run), NodesAfter(healthy, es[0], nodes, run), es[1..], run, k - 1);
    }
  }

  /** A probe that finds the shell, and not the agent. */
  predicate Drops(e: Event) {
    e.Probing? && e.shellOk && !e.agentOk
  }

  /** An event revives the agent, keeps it as it was, or stops it from being used. */
  lemma HealthStep(h: bool, e: Event, nodes: Nodes, run: Effect)
    ensures HealthAfter(h, e, nodes, run) <==>
            Revives(e) || (h && !Drops(e) && !TakesDown(e, InvokedBy(h, e, nodes, run)))
    ensures UsesAgent(InvokedBy(h, e, nodes, run)) <==> e.Routing? && h
    ensures Revives(e) ==> !Drops(e) && !TakesDown(e, InvokedBy(h, e, nodes, run))
  {
    if e.Routing? {
      RoutingExactly(e.op, nodes, e.agent, e.shell, e.suffixes, run);
      assert h ==> InvokedBy(h, e, nodes, run)[0].kind.Agent?;
    }
  }

  /** The last thing to decide about the agent before the `k`-th event was a good probe, the `j`-th event. */
  ghost predicate RevivedAt(es: seq<Event>, log: seq<seq<Invocation>>, j: int, k: nat)
    requires |log| == |es| && k <= |es|
  {
    && 0 <= j < k && Revives(es[j])
    && forall i :: j < i < k ==> !Drops(es[i]) && !TakesDown(es[i], log[i])
  }

  lemma HealthyByLast(nodes: Nodes, es: seq<Event>, run: Effect, n: nat, k: nat)
    requires k == n + 1 <= |es|
    ensures After(false, nodes, es, run, k).0 <==>
            || Revives(es[n])
            || (After(false, nodes, es, run, n).0 && !Drops(es[n])
                && !TakesDown(es[n], Log(false, nodes, es, run)[n]))
  {
    LogAt(false, nodes, es, run, n);
    var (h, ns) := After(false, nodes, es, run, n);
    HealthStep(h, es[n], ns, run);
  }

  lemma {:induction false} HealthyExactly(nodes: Nodes, es: seq<Event>, run: Effect, k: nat)
    requires k <= |es|
    ensures After(false, nodes, es, run, k).0 <==> exists j :: RevivedAt(es, Log(false, nodes, es, run), j, k)
  {
    if k > 0 {
      HealthyExactly(nodes, es, run, k - 1);
      HealthyByLast(nodes, es, run, k - 1, k);
      RevivedOneMore(es, Log(false, nodes, es, run), k - 1, k);
    }
  }

  lemma RevivedOneMore(es: seq<Event>, log: seq<seq<Invocation>>, n: nat, k: nat)
    requires |log| == |es| && k == n + 1 <= |es|
    ensures (exists j :: RevivedAt(es, log, j, k)) <==>
            || Revives(es[n])
            || (!Drops(es[n]) && !TakesDown(es[n], log[n]) && exists j :: RevivedAt(es, log, j, n))
  {
    if Revives(es[n]) {
      assert RevivedAt(es, log, n, k);
    }
    if j :| RevivedAt(es, log, j, k) && j < n {
      assert RevivedAt(es, log, j, n);
    }
    if j :| RevivedAt(es, log, j, n) {
      assert !Drops(es[n]) && !TakesDown(es[n], log[n]) ==> RevivedAt(es, log, j, k);
    }
  }

  /**
    In every run from the start, an operation reaches the agent exactly if there has been a good probe since which the
    agent has not failed a fallbackable operation and no probe has found the shell without it.
   */
  lemma AgentUsedExactly(nodes: Nodes, es: seq<Event>, run: Effect, k: nat)
    requires k < |es| && es[k].Routing?
    ensures UsesAgent(Log(false, nodes, es, run)[k]) <==>
            exists j :: RevivedAt(es, Log(false, nodes, es, run), j, k)
  {
    var (h, ns) := After(false, nodes, es, run, k);
    LogAt(false, nodes, es, run, k);
    HealthStep(h, es[k], ns, run);
    HealthyExactly(nodes, es, run, k);
  }

  /** In every run, an operation that must not run twice invokes exactly one backend, others at most the two in turn. */
  lemma {:induction false} InvocationsOf(healthy: bool, nodes: Nodes, es: seq<Event>, run: Effect, k: nat)
    requires k < |es| && es[k].Routing?
    ensures var invoked := Log(healthy, nodes, es, run)[k];
            && 1 <= |invoked| <= 2
            && (ClassOf(es[k].op).NonIdempotent? ==> |invoked| == 1)
            && (|invoked| == 2 ==> invoked[0] == Invocation(Agent, false) && invoked[1].kind.Shell?)
    decreases k
  {
    if k > 0 {
      InvocationsOf(HealthAfter(healthy, es[0], nodes, run), NodesAfter(healthy, es[0], nodes, run), es[1..], run,
                    k - 1);
    }
  }
}
