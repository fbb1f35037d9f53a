/**
  Checkouts and commits of any number of processes, interleaved one lock, one read and one
  write at a time. Every process locks its blocks in order before it reads the first and
  unlocks them after its last access.
 */
module Isolation {
  import opened BlockMath
  import opened Commits

  /** What a process was asked to do: `data` and `vers` are the caller's, `n` blocks each. */
  datatype Op = Checkout(start: nat, n: nat) | Save(start: nat, n: nat, data: seq<Bytes>, vers: seq<nat>)

  /**
    How far it is. `Copying` counts the blocks whose data and whose versions were read;
    `Writing` is `half` done with a block when its data is written but not its version.
    `Unlocking` remembers the outcome, and the length of the log when it was decided.
   */
  datatype Phase =
    | Idle
    | Locking(held: nat)
    | Copying(datas: nat, vers: nat)
    | Checking(checked: nat, ok: bool)
    | Writing(written: nat, half: bool)
    | Unlocking(released: nat, ok: bool, at: nat)

  /** A process, its output buffers, and the length of the log when it began. */
  datatype Proc = Proc(op: Op, phase: Phase, outData: seq<Bytes>, outVers: seq<nat>, since: nat)

  /** `log` is the history of the commits that took effect. */
  datatype State = State(mem: seq<Block>, procs: seq<Proc>, log: seq<Commit>)

  // ------------------------------------------------------------------ steps

  predicate OpOk(op: Op, size: nat) {
    && op.n >= 1 && op.start + op.n <= size
    && (op.Save? ==> |op.data| == op.n == |op.vers|)
  }

  predicate InRange(op: Op, b: nat) {
    op.start <= b < op.start + op.n
  }

  /** The lock of a process on a block. */
  predicate Holds(p: Proc, b: nat) {
    match p.phase
    case Idle => false
    case Locking(held) => p.op.start <= b < p.op.start + held
    case Unlocking(released, _, _) => p.op.start + released <= b < p.op.start + p.op.n
    case _ => InRange(p.op, b)
  }

  /** Two locks on one block conflict if either is exclusive, as those of commits are. */
  predicate Conflict(p: Proc, q: Proc, b: nat) {
    Holds(p, b) && Holds(q, b) && (p.op.Save? || q.op.Save?)
  }

  predicate Grantable(s: State, i: nat, b: nat)
    requires i < |s.procs|
  {
    forall j :: 0 <= j < |s.procs| && j != i ==> !(Holds(s.procs[j], b) && (s.procs[i].op.Save? || s.procs[j].op.Save?))
  }

  /** Where the group of block `k` of a range ends, counted in blocks of the range. */
  function GroupEnd(start: nat, n: nat, k: nat): nat {
    var end := (Bid2Gid(start + k) + 1) * BLOCKS_PER_GROUP - start;
    if end < n then end else n
  }

  function WithPhase(s: State, i: nat, phase: Phase): State
    requires i < |s.procs|
  {
    s.(procs := s.procs[i := s.procs[i].(phase := phase)])
  }

  /** Data is read for a whole group before its versions are. */
  predicate DataNext(op: Op, d: nat, v: nat) {
    v < op.n && d < GroupEnd(op.start, op.n, v)
  }

  /**
    Data comes before versions group by group: what is read next is data until the group of the
    next version is through.
  */
  lemma GroupByGroup(op: Op, d: nat, v: nat)
    requires v <= d <= op.n
    ensures DataNext(op, d, v) <==> d < op.n && Bid2Gid(op.start + d) == Bid2Gid(op.start + v)
  {
    if v < op.n {
      var next := (Bid2Gid(op.start + v) + 1) * BLOCKS_PER_GROUP;
      assert op.start + d < next <==> Bid2Gid(op.start + d) < Bid2Gid(op.start + v) + 1;
    }
  }

  function CopyStep(s: State, i: nat, d: nat, v: nat, data: bool): State
    requires i < |s.procs| && OpOk(s.procs[i].op, |s.mem|) && v <= d <= s.procs[i].op.n
    requires data ==> d < s.procs[i].op.n
  {
    var p := s.procs[i];
    if v == p.op.n then WithPhase(s, i, Unlocking(0, true, |s.log|))
    else if data then
      s.(procs := s.procs[i := p.(phase := Copying(d + 1, v), outData := p.outData + [s.mem[p.op.start + d].data])])
    else
      s.(procs := s.procs[i := p.(phase := Copying(d, v + 1), outVers := p.outVers + [s.mem[p.op.start + v].ver])])
  }

  /** All versions are read even when one of them is not what the caller expects. */
  function CheckStep(s: State, i: nat, k: nat, ok: bool): State
    requires i < |s.procs| && s.procs[i].op.Save? && OpOk(s.procs[i].op, |s.mem|) && k <= s.procs[i].op.n
  {
    var p := s.procs[i];
    if k == p.op.n then WithPhase(s, i, if ok then Writing(0, false) else Unlocking(0, false, |s.log|))
    else
      var ver := s.mem[p.op.start + k].ver;
      s.(procs := s.procs[i := p.(phase := Checking(k + 1, ok && p.op.vers[k] == ver), outVers := p.outVers + [ver])])
  }

  function WriteStep(s: State, i: nat, k: nat, half: bool): State
    requires i < |s.procs| && s.procs[i].op.Save? && OpOk(s.procs[i].op, |s.mem|)
    requires k <= s.procs[i].op.n == |s.procs[i].outVers|
  {
    var p := s.procs[i];
    if k == p.op.n then
      WithPhase(s, i, Unlocking(0, true, |s.log|)).(log := s.log + [Commit(p.op.start, p.op.data)])
    else
      var b := p.op.start + k;
      if half then
        var ver := Bumped(s.mem[b].ver);
        s.(mem := s.mem[b := s.mem[b].(ver := ver)],
           procs := s.procs[i := p.(phase := Writing(k + 1, false), outVers := p.outVers[k := ver])])
      else
        WithPhase(s, i, Writing(k, true)).(mem := s.mem[b := s.mem[b].(data := p.op.data[k])])
  }

  predicate ProcOk(p: Proc, size: nat) {
    && (!p.phase.Idle? ==> OpOk(p.op, size))
    && match p.phase
       case Idle => true
       case Locking(held) => held <= p.op.n && p.outData == [] && p.outVers == []
       case Copying(d, v) => p.op.Checkout? && v <= d <= p.op.n && |p.outData| == d && |p.outVers| == v
       case Checking(k, _) => p.op.Save? && k <= p.op.n && |p.outVers| == k
       case Writing(k, half) => p.op.Save? && k <= p.op.n == |p.outVers| && (half ==> k < p.op.n)
       case Unlocking(r, ok, _) => r <= p.op.n == |p.outVers| && (p.op.Checkout? ==> ok && |p.outData| == p.op.n)
  }

  /** The next step of process `i`, or none if it waits for a lock; an idle process begins `op`. */
  function Next(s: State, i: nat, op: Op): State
    requires i < |s.procs| && ProcOk(s.procs[i], |s.mem|) && OpOk(op, |s.mem|)
  {
    var p := s.procs[i];
    match p.phase
    case Idle => s.(procs := s.procs[i := Proc(op, Locking(0), [], [], |s.log|)])
    case Locking(held) =>
      if held == p.op.n then WithPhase(s, i, if p.op.Save? then Checking(0, true) else Copying(0, 0))
      else if Grantable(s, i, p.op.start + held) then WithPhase(s, i, Locking(held + 1))
      else s
    case Copying(d, v) => CopyStep(s, i, d, v, DataNext(p.op, d, v))
    case Checking(k, ok) => CheckStep(s, i, k, ok)
    case Writing(k, half) => WriteStep(s, i, k, half)
    case Unlocking(released, ok, at) =>
      WithPhase(s, i, if released == p.op.n then Idle else Unlocking(released + 1, ok, at))
  }

  // ------------------------------------------------------------------ the invariant

  /** The first `d` blocks of data and the first `v` versions of a range, as they are in `blocks`. */
  ghost predicate Saw(blocks: seq<Block>, start: nat, datas: seq<Bytes>, vers: seq<nat>) {
    && start + |datas| <= |blocks| && start + |vers| <= |blocks|
    && (forall k :: 0 <= k < |datas| ==> datas[k] == blocks[start + k].data)
    && (forall k :: 0 <= k < |vers| ==> vers[k] == blocks[start + k].ver)
  }

  /** Block `k` of a range that a commit is in the middle of writing. */
  function Partly(block: Block, data: Bytes, k: nat, written: nat, half: bool): Block {
    if k < written then Block(data, Bumped(block.ver))
    else if k == written && half then Block(data, block.ver)
    else block
  }

  /** The memory of the range of a commit that is writing. */
  ghost predicate PartlyWritten(truth: seq<Block>, mem: seq<Block>, op: Op, written: nat, half: bool)
    requires op.Save? && OpOk(op, |mem|) && |truth| == |mem|
  {
    forall b :: op.start <= b < op.start + op.n ==>
      mem[b] == Partly(truth[b], op.data[b - op.start], b - op.start, written, half)
  }

  ghost predicate OutcomeOk(init: seq<Block>, log: seq<Commit>, p: Proc, ok: bool, at: nat)
    requires OpOk(p.op, |init|)
  {
    && p.since <= at <= |log|
    && var before := After(init, log[..at]);
       if p.op.Checkout? then Saw(before, p.op.start, p.outData, p.outVers)
       else if ok then
         && at < |log| && log[at] == Commit(p.op.start, p.op.data)
         && VersionsMatch(before, p.op.start, p.op.vers)
         && Saw(After(init, log[..at + 1]), p.op.start, [], p.outVers)
       else
         && !VersionsMatch(before, p.op.start, p.op.vers)
         && Saw(before, p.op.start, [], p.outVers)
  }

  /** What a process knows; `truth` are the blocks as the log makes them. */
  ghost predicate Knows(init: seq<Block>, log: seq<Commit>, truth: seq<Block>, mem: seq<Block>, p: Proc)
    requires |truth| == |mem| == |init| && ProcOk(p, |init|)
  {
    match p.phase
    case Idle => true
    case Locking(_) => p.since <= |log|
    case Copying(_, _) => p.since <= |log| && Saw(truth, p.op.start, p.outData, p.outVers)
    case Checking(k, ok) =>
      && p.since <= |log| && Saw(truth, p.op.start, [], p.outVers)
      && (ok <==> VersionsMatch(truth, p.op.start, p.op.vers[..k]))
    case Writing(k, half) =>
      && p.since <= |log| && VersionsMatch(truth, p.op.start, p.op.vers)
      && PartlyWritten(truth, mem, p.op, k, half)
      && forall j :: 0 <= j < p.op.n ==>
         p.outVers[j] == if j < k then Bumped(truth[p.op.start + j].ver) else truth[p.op.start + j].ver
    case Unlocking(_, ok, at) => OutcomeOk(init, log, p, ok, at)
  }

  predicate WritingOver(p: Proc, b: nat) {
    p.phase.Writing? && InRange(p.op, b)
  }

  ghost predicate Untouched(procs: seq<Proc>, b: nat) {
    forall i :: 0 <= i < |procs| ==> !WritingOver(procs[i], b)
  }

  ghost predicate Exclusive(procs: seq<Proc>, i: nat, j: nat)
    requires i < |procs| && j < |procs|
  {
    forall b: nat :: !Conflict(procs[i], procs[j], b)
  }

  ghost predicate AllExclusive(procs: seq<Proc>) {
    forall i, j :: 0 <= i < |procs| && 0 <= j < |procs| && i != j ==> Exclusive(procs, i, j)
  }

  /** Going from `p` to `q`, process `i` takes no lock that another one's stands against. */
  ghost predicate Allowed(procs: seq<Proc>, i: nat, p: Proc, q: Proc) {
    && (forall j: nat, b: nat :: j < |procs| && j != i && Holds(q, b) && !Holds(p, b) ==> !Conflict(q, procs[j], b))
    && (q.op == p.op || forall b: nat :: !Holds(q, b))
  }

  ghost predicate KnowsAt(init: seq<Block>, truth: seq<Block>, s: State, i: nat)
    requires i < |s.procs| && |truth| == |s.mem| == |init|
  {
    ProcOk(s.procs[i], |init|) && Knows(init, s.log, truth, s.mem, s.procs[i])
  }

  /** Away from the commits that are writing, the memory is what the log makes of the first blocks. */
  ghost predicate MemoryOk(truth: seq<Block>, s: State) {
    && |s.mem| == |truth|
    && forall b :: 0 <= b < |s.mem| && Untouched(s.procs, b) ==> s.mem[b] == truth[b]
  }

  ghost predicate Inv(init: seq<Block>, truth: seq<Block>, s: State) {
    && |truth| == |init| && MemoryOk(truth, s)
    && (forall i :: 0 <= i < |s.procs| ==> KnowsAt(init, truth, s, i))
    && AllExclusive(s.procs)
  }

  // ------------------------------------------------------------------ steps that write nothing

  lemma LocksStay(procs: seq<Proc>, i: nat, p: Proc)
    requires i < |procs| && AllExclusive(procs) && Allowed(procs, i, procs[i], p)
    ensures AllExclusive(procs[i := p])
  {
    var after := procs[i := p];
    forall x, y | 0 <= x < |procs| && 0 <= y < |procs| && x != y
      ensures Exclusive(after, x, y)
    {
      assert Exclusive(procs, x, y);
      forall b: nat
        ensures !Conflict(after[x], after[y], b)
      {
        assert !Conflict(procs[x], procs[y], b);
      }
    }
  }

  /** A process that writes nothing and takes no lock but one that is free keeps the invariant. */
  lemma QuietStep(init: seq<Block>, truth: seq<Block>, s: State, i: nat, p: Proc)
    requires Inv(init, truth, s) && i < |s.procs|
    requires ProcOk(p, |init|) && Knows(init, s.log, truth, s.mem, p) && Allowed(s.procs, i, s.procs[i], p)
    requires forall b: nat :: WritingOver(s.procs[i], b) ==> WritingOver(p, b)
    ensures Inv(init, truth, s.(procs := s.procs[i := p]))
  {
    var after := s.(procs := s.procs[i := p]);
    LocksStay(s.procs, i, p);
    forall j | 0 <= j < |s.procs|
      ensures KnowsAt(init, truth, after, j)
    {
      assert KnowsAt(init, truth, s, j);
    }
    forall b | 0 <= b < |s.mem| && Untouched(after.procs, b)
      ensures Untouched(s.procs, b)
    {
      forall j | 0 <= j < |s.procs|
        ensures !WritingOver(s.procs[j], b)
      {
        assert !WritingOver(after.procs[j], b);
      }
    }
  }

  /** Memory under a lock of a process that is not writing is what the log makes of it. */
  lemma HeldIsTrue(init: seq<Block>, truth: seq<Block>, s: State, i: nat, b: nat)
    requires Inv(init, truth, s) && i < |s.procs| && b < |s.mem| && Holds(s.procs[i], b) && !s.procs[i].phase.Writing?
    ensures s.mem[b] == truth[b]
  {
    forall j | 0 <= j < |s.procs|
      ensures !WritingOver(s.procs[j], b)
    {
      if j != i {
        assert KnowsAt(init, truth, s, j) && Exclusive(s.procs, i, j);
        assert !Conflict(s.procs[i], s.procs[j], b);
      }
    }
  }

  lemma LockKeeps(init: seq<Block>, truth: seq<Block>, s: State, i: nat, op: Op)
    requires Inv(init, truth, s) && i < |s.procs| && ProcOk(s.procs[i], |init|) && OpOk(op, |init|)
    requires s.procs[i].phase.Idle? || s.procs[i].phase.Locking?
    ensures Inv(init, truth, Next(s, i, op))
  {
    assert KnowsAt(init, truth, s, i);
    var next := Next(s, i, op);
    if next != s {
      QuietStep(init, truth, s, i, next.procs[i]);
    }
  }

  lemma UnlockKeeps(init: seq<Block>, truth: seq<Block>, s: State, i: nat, op: Op)
    requires Inv(init, truth, s) && i < |s.procs| && ProcOk(s.procs[i], |init|) && OpOk(op, |init|)
    requires s.procs[i].phase.Unlocking?
    ensures Inv(init, truth, Next(s, i, op))
  {
    assert KnowsAt(init, truth, s, i);
    QuietStep(init, truth, s, i, Next(s, i, op).procs[i]);
  }

  lemma SawData(blocks: seq<Block>, start: nat, datas: seq<Bytes>, vers: seq<nat>, data: Bytes)
    requires Saw(blocks, start, datas, vers) && start + |datas| < |blocks| && data == blocks[start + |datas|].data
    ensures Saw(blocks, start, datas + [data], vers)
  {
  }

  lemma SawVersion(blocks: seq<Block>, start: nat, datas: seq<Bytes>, vers: seq<nat>, ver: nat)
    requires Saw(blocks, start, datas, vers) && start + |vers| < |blocks| && ver == blocks[start + |vers|].ver
    ensures Saw(blocks, start, datas, vers + [ver])
  {
  }

  /** A process that holds all its locks and goes on holding them, or begins to give them back. */
  lemma HeldStep(init: seq<Block>, truth: seq<Block>, s: State, i: nat, q: Proc)
    requires Inv(init, truth, s) && i < |s.procs| && KnowsAt(init, truth, s, i) && q.op == s.procs[i].op
    requires s.procs[i].phase.Copying? || s.procs[i].phase.Checking?
    requires !q.phase.Idle? && !q.phase.Locking? && ProcOk(q, |init|) && Knows(init, s.log, truth, s.mem, q)
    ensures Inv(init, truth, s.(procs := s.procs[i := q]))
  {
    QuietStep(init, truth, s, i, q);
  }

  lemma CopyData(init: seq<Block>, truth: seq<Block>, s: State, i: nat, d: nat, v: nat)
    requires Inv(init, truth, s) && i < |s.procs| && KnowsAt(init, truth, s, i) && s.procs[i].phase == Copying(d, v)
    requires v < s.procs[i].op.n && d < s.procs[i].op.n
    ensures Inv(init, truth, CopyStep(s, i, d, v, true))
  {
    var p := s.procs[i];
    HeldIsTrue(init, truth, s, i, p.op.start + d);
    SawData(truth, p.op.start, p.outData, p.outVers, s.mem[p.op.start + d].data);
    HeldStep(init, truth, s, i, p.(phase := Copying(d + 1, v), outData := p.outData + [s.mem[p.op.start + d].data]));
  }

  lemma CopyVersion(init: seq<Block>, truth: seq<Block>, s: State, i: nat, d: nat, v: nat)
    requires Inv(init, truth, s) && i < |s.procs| && KnowsAt(init, truth, s, i) && s.procs[i].phase == Copying(d, v)
    requires v < d
    ensures Inv(init, truth, CopyStep(s, i, d, v, false))
  {
    var p := s.procs[i];
    HeldIsTrue(init, truth, s, i, p.op.start + v);
    SawVersion(truth, p.op.start, p.outData, p.outVers, s.mem[p.op.start + v].ver);
    HeldStep(init, truth, s, i, p.(phase := Copying(d, v + 1), outVers := p.outVers + [s.mem[p.op.start + v].ver]));
  }

  lemma {:induction false} CopyDone(init: seq<Block>, truth: seq<Block>, s: State, i: nat)
    requires Inv(init, truth, s) && i < |s.procs| && KnowsAt(init, truth, s, i)
    requires s.procs[i].phase == Copying(s.procs[i].op.n, s.procs[i].op.n) && truth == After(init, s.log)
    ensures Inv(init, truth, CopyStep(s, i, s.procs[i].op.n, s.procs[i].op.n, false))
  {
    assert s.log[..|s.log|] == s.log;
    HeldStep(init, truth, s, i, s.procs[i].(phase := Unlocking(0, true, |s.log|)));
  }

  lemma {:induction false} CopyKeeps(init: seq<Block>, truth: seq<Block>, s: State, i: nat, d: nat, v: nat, data: bool)
    requires Inv(init, truth, s) && i < |s.procs| && KnowsAt(init, truth, s, i) && s.procs[i].phase == Copying(d, v)
    requires truth == After(init, s.log) && if data then d < s.procs[i].op.n else v < d || v == s.procs[i].op.n
    ensures Inv(init, truth, CopyStep(s, i, d, v, data))
  {
    if v == s.procs[i].op.n {
      CopyDone(init, truth, s, i);
    } else if data {
      CopyData(init, truth, s, i, d, v);
    } else {
      CopyVersion(init, truth, s, i, d, v);
    }
  }

  /** A block lies before the end of its group: its version is read after its data. */
  lemma InsideGroup(op: Op, d: nat, v: nat)
    requires v <= d <= op.n
    ensures if DataNext(op, d, v) then d < op.n else v < d || v == op.n
  {
  }

  lemma {:induction false} CheckKeeps(init: seq<Block>, truth: seq<Block>, s: State, i: nat, k: nat, ok: bool)
    requires Inv(init, truth, s) && i < |s.procs| && KnowsAt(init, truth, s, i) && s.procs[i].phase == Checking(k, ok)
    requires truth == After(init, s.log)
    ensures Inv(init, truth, CheckStep(s, i, k, ok))
  {
    var p := s.procs[i];
    if k < p.op.n {
      CheckOne(init, truth, s, i, k, ok);
    } else {
      assert s.log[..|s.log|] == s.log && p.op.vers[..k] == p.op.vers;
      if ok {
        CheckDone(init, truth, s, i);
      } else {
        HeldStep(init, truth, s, i, p.(phase := Unlocking(0, false, |s.log|)));
      }
    }
  }

  lemma CheckKnows(init: seq<Block>, log: seq<Commit>, truth: seq<Block>, mem: seq<Block>, p: Proc, k: nat, ok: bool,
                   ver: nat)
    requires |truth| == |mem| == |init| && ProcOk(p, |init|) && p.phase == Checking(k, ok) && k < p.op.n
    requires Knows(init, log, truth, mem, p) && ver == truth[p.op.start + k].ver
    ensures var q := p.(phase := Checking(k + 1, ok && p.op.vers[k] == ver), outVers := p.outVers + [ver]);
            ProcOk(q, |init|) && Knows(init, log, truth, mem, q)
  {
    SawVersion(truth, p.op.start, [], p.outVers, ver);
    MatchMore(truth, p.op.start, p.op.vers, k);
  }

  lemma CheckOne(init: seq<Block>, truth: seq<Block>, s: State, i: nat, k: nat, ok: bool)
    requires Inv(init, truth, s) && i < |s.procs| && KnowsAt(init, truth, s, i) && s.procs[i].phase == Checking(k, ok)
    requires k < s.procs[i].op.n
    ensures Inv(init, truth, CheckStep(s, i, k, ok))
  {
    var p := s.procs[i];
    HeldIsTrue(init, truth, s, i, p.op.start + k);
    var ver := s.mem[p.op.start + k].ver;
    CheckKnows(init, s.log, truth, s.mem, p, k, ok, ver);
    HeldStep(init, truth, s, i, p.(phase := Checking(k + 1, ok && p.op.vers[k] == ver), outVers := p.outVers + [ver]));
  }

  /** All versions are current: the commit starts to write. */
  lemma CheckDone(init: seq<Block>, truth: seq<Block>, s: State, i: nat)
    requires Inv(init, truth, s) && i < |s.procs| && KnowsAt(init, truth, s, i)
    requires s.procs[i].phase == Checking(s.procs[i].op.n, true)
    ensures Inv(init, truth, WithPhase(s, i, Writing(0, false)))
  {
    var p := s.procs[i];
    assert p.op.vers[..p.op.n] == p.op.vers;
    forall b | p.op.start <= b < p.op.start + p.op.n
      ensures s.mem[b] == truth[b]
    {
      HeldIsTrue(init, truth, s, i, b);
    }
    HeldStep(init, truth, s, i, p.(phase := Writing(0, false)));
  }

  // ------------------------------------------------------------------ steps that write

  /** A write to a block under the exclusive lock of one process is no concern of the others. */
  lemma OthersKnow(init: seq<Block>, truth: seq<Block>, s: State, i: nat, j: nat, mem: seq<Block>, b: nat)
    requires Inv(init, truth, s) && i < |s.procs| && j < |s.procs| && i != j
    requires KnowsAt(init, truth, s, i) && s.procs[i].phase.Writing? && InRange(s.procs[i].op, b) && b < |s.mem|
    requires |mem| == |s.mem| && forall x :: 0 <= x < |mem| && x != b ==> mem[x] == s.mem[x]
    ensures KnowsAt(init, truth, s, j) && Knows(init, s.log, truth, mem, s.procs[j])
  {
    assert KnowsAt(init, truth, s, j) && Exclusive(s.procs, i, j);
    assert !Conflict(s.procs[i], s.procs[j], b);
  }

  lemma PartlyData(truth: seq<Block>, mem: seq<Block>, op: Op, k: nat)
    requires op.Save? && OpOk(op, |mem|) && |truth| == |mem| && k < op.n && PartlyWritten(truth, mem, op, k, false)
    ensures PartlyWritten(truth, mem[op.start + k := mem[op.start + k].(data := op.data[k])], op, k, true)
  {
  }

  lemma PartlyVersion(truth: seq<Block>, mem: seq<Block>, op: Op, k: nat)
    requires op.Save? && OpOk(op, |mem|) && |truth| == |mem| && k < op.n && PartlyWritten(truth, mem, op, k, true)
    ensures mem[op.start + k].ver == truth[op.start + k].ver
    ensures var after := mem[op.start + k := mem[op.start + k].(ver := Bumped(mem[op.start + k].ver))];
            PartlyWritten(truth, after, op, k + 1, false)
  {
  }

  lemma WriterKnows(init: seq<Block>, log: seq<Commit>, truth: seq<Block>, mem: seq<Block>, p: Proc, k: nat, half: bool)
    requires |truth| == |mem| == |init| && ProcOk(p, |init|) && p.phase == Writing(k, half) && k < p.op.n
    requires Knows(init, log, truth, mem, p)
    ensures var b, ver := p.op.start + k, Bumped(mem[p.op.start + k].ver);
            if half then
              var q := p.(phase := Writing(k + 1, false), outVers := p.outVers[k := ver]);
              ProcOk(q, |init|) && Knows(init, log, truth, mem[b := mem[b].(ver := ver)], q)
            else
              var q := p.(phase := Writing(k, true));
              ProcOk(q, |init|) && Knows(init, log, truth, mem[b := mem[b].(data := p.op.data[k])], q)
  {
    if half {
      PartlyVersion(truth, mem, p.op, k);
    } else {
      PartlyData(truth, mem, p.op, k);
    }
  }

  lemma WriteKeeps(init: seq<Block>, truth: seq<Block>, s: State, i: nat, k: nat, half: bool)
    requires Inv(init, truth, s) && i < |s.procs| && KnowsAt(init, truth, s, i)
    requires s.procs[i].phase == Writing(k, half) && k < s.procs[i].op.n
    ensures Inv(init, truth, WriteStep(s, i, k, half))
  {
    var p := s.procs[i];
    var next := WriteStep(s, i, k, half);
    var b := p.op.start + k;
    LocksStay(s.procs, i, next.procs[i]);
    forall j | 0 <= j < |s.procs|
      ensures KnowsAt(init, truth, next, j)
    {
      if j == i {
        WriterKnows(init, s.log, truth, s.mem, p, k, half);
      } else {
        OthersKnow(init, truth, s, i, j, next.mem, b);
      }
    }
    forall x | 0 <= x < |s.mem| && Untouched(next.procs, x)
      ensures next.mem[x] == truth[x]
    {
      assert !WritingOver(next.procs[i], x);
      UntouchedBefore(s.procs, i, next.procs[i], x);
    }
  }

  lemma UntouchedBefore(procs: seq<Proc>, i: nat, p: Proc, b: nat)
    requires i < |procs| && Untouched(procs[i := p], b) && !WritingOver(procs[i], b)
    ensures Untouched(procs, b)
  {
    forall j | 0 <= j < |procs|
      ensures !WritingOver(procs[j], b)
    {
      assert !WritingOver(procs[i := p][j], b);
    }
  }

  /** A commit that takes effect changes nothing that another process has seen or will see. */
  lemma OthersSee(init: seq<Block>, truth: seq<Block>, s: State, i: nat, j: nat)
    requires Inv(init, truth, s) && i < |s.procs| && j < |s.procs| && i != j
    requires KnowsAt(init, truth, s, i) && s.procs[i].phase.Writing? && KnowsAt(init, truth, s, j)
    ensures var p := s.procs[i];
            var log, next := s.log + [Commit(p.op.start, p.op.data)], Committed(truth, p.op.start, p.op.data);
            Knows(init, log, next, s.mem, s.procs[j])
  {
    var p, q := s.procs[i], s.procs[j];
    var c := Commit(p.op.start, p.op.data);
    var next := Committed(truth, p.op.start, p.op.data);
    if q.phase.Unlocking? {
      OutcomeStays(init, s.log, c, q);
    } else if !q.phase.Idle? && !q.phase.Locking? {
      assert Exclusive(s.procs, i, j);
      forall b | q.op.start <= b < q.op.start + q.op.n
        ensures next[b] == truth[b]
      {
        assert !Conflict(p, q, b);
      }
      KnowledgeStays(init, s.log, truth, s.mem, s.log + [c], next, q);
    }
  }

  lemma KnowledgeStays(init: seq<Block>, log: seq<Commit>, truth: seq<Block>, mem: seq<Block>,
                       more: seq<Commit>, next: seq<Block>, q: Proc)
    requires |truth| == |mem| == |init| == |next| && ProcOk(q, |init|)
    requires q.phase.Copying? || q.phase.Checking? || q.phase.Writing?
    requires Knows(init, log, truth, mem, q) && |log| <= |more|
    requires forall b :: q.op.start <= b < q.op.start + q.op.n ==> next[b] == truth[b]
    ensures Knows(init, more, next, mem, q)
  {
  }

  lemma OutcomeStays(init: seq<Block>, log: seq<Commit>, c: Commit, q: Proc)
    requires ProcOk(q, |init|) && q.phase.Unlocking? && OutcomeOk(init, log, q, q.phase.ok, q.phase.at)
    ensures OutcomeOk(init, log + [c], q, q.phase.ok, q.phase.at)
  {
    var at := q.phase.at;
    assert (log + [c])[..at] == log[..at];
    if at < |log| {
      assert (log + [c])[..at + 1] == log[..at + 1];
    }
  }

  /** The commit that takes effect knows its outcome. */
  lemma {:induction false} CommitterKnows(init: seq<Block>, log: seq<Commit>, mem: seq<Block>, p: Proc)
    requires |mem| == |init| && ProcOk(p, |init|) && p.phase == Writing(p.op.n, false)
    requires Knows(init, log, After(init, log), mem, p)
    ensures OutcomeOk(init, log + [Commit(p.op.start, p.op.data)], p, true, |log|)
  {
    var more := log + [Commit(p.op.start, p.op.data)];
    assert more[..|log|] == log && more[..|log| + 1] == more;
    assert After(init, more) == Committed(After(init, log), p.op.start, p.op.data);
  }

  /** The memory once a commit took effect that had written all its blocks. */
  lemma AppendMemory(init: seq<Block>, truth: seq<Block>, s: State, i: nat, procs: seq<Proc>, b: nat)
    requires Inv(init, truth, s) && i < |s.procs| && KnowsAt(init, truth, s, i)
    requires s.procs[i].phase == Writing(s.procs[i].op.n, false)
    requires procs == s.procs[i := s.procs[i].(phase := Unlocking(0, true, |s.log|))]
    requires b < |s.mem| && Untouched(procs, b)
    ensures s.mem[b] == Committed(truth, s.procs[i].op.start, s.procs[i].op.data)[b]
  {
    if !InRange(s.procs[i].op, b) {
      UntouchedBefore(s.procs, i, procs[i], b);
    }
  }

  lemma {:induction false} AppendKeeps(init: seq<Block>, truth: seq<Block>, s: State, i: nat)
    requires Inv(init, truth, s) && i < |s.procs| && KnowsAt(init, truth, s, i)
    requires s.procs[i].phase == Writing(s.procs[i].op.n, false)
    requires truth == After(init, s.log)
    ensures Inv(init, Committed(truth, s.procs[i].op.start, s.procs[i].op.data),
            WriteStep(s, i, s.procs[i].op.n, false))
  {
    var p := s.procs[i];
    var next, later := WriteStep(s, i, p.op.n, false), Committed(truth, p.op.start, p.op.data);
    LocksStay(s.procs, i, next.procs[i]);
    CommitterKnows(init, s.log, s.mem, p);
    forall j | 0 <= j < |s.procs|
      ensures KnowsAt(init, later, next, j)
    {
      if j != i {
        assert KnowsAt(init, truth, s, j);
        OthersSee(init, truth, s, i, j);
      }
    }
    forall b | 0 <= b < |s.mem| && Untouched(next.procs, b)
      ensures next.mem[b] == later[b]
    {
      AppendMemory(init, truth, s, i, next.procs, b);
    }
  }

  // ------------------------------------------------------------------ runs

  /** Every step but the one by which a commit takes effect leaves the log alone. */
  lemma {:induction false} SilentKeeps(init: seq<Block>, truth: seq<Block>, s: State, i: nat, op: Op)
    requires Inv(init, truth, s) && i < |s.procs| && ProcOk(s.procs[i], |init|) && OpOk(op, |init|)
    requires truth == After(init, s.log) && s.procs[i].phase != Writing(s.procs[i].op.n, false)
    ensures Inv(init, truth, Next(s, i, op)) && Next(s, i, op).log == s.log
  {
    assert KnowsAt(init, truth, s, i);
    match s.procs[i].phase
    case Idle => LockKeeps(init, truth, s, i, op);
    case Locking(_) => LockKeeps(init, truth, s, i, op);
    case Copying(d, v) =>
      InsideGroup(s.procs[i].op, d, v);
      CopyKeeps(init, truth, s, i, d, v, DataNext(s.procs[i].op, d, v));
    case Checking(k, ok) => CheckKeeps(init, truth, s, i, k, ok);
    case Writing(k, half) => WriteKeeps(init, truth, s, i, k, half);
    case Unlocking(_, _, _) => UnlockKeeps(init, truth, s, i, op);
  }

  lemma {:induction false} TakesEffect(init: seq<Block>, log: seq<Commit>, c: Commit)
    ensures After(init, log + [c]) == Committed(After(init, log), c.start, c.data)
  {
    assert (log + [c])[..|log|] == log;
  }

  lemma NextCommits(s: State, i: nat, op: Op)
    requires i < |s.procs| && ProcOk(s.procs[i], |s.mem|) && OpOk(op, |s.mem|)
    requires s.procs[i].phase == Writing(s.procs[i].op.n, false)
    ensures Next(s, i, op) == WriteStep(s, i, s.procs[i].op.n, false)
    ensures Next(s, i, op).log == s.log + [Commit(s.procs[i].op.start, s.procs[i].op.data)]
  {
  }

  /** Every step of every process, whatever it is asked to do, keeps the invariant. */
  lemma StepKeeps(init: seq<Block>, truth: seq<Block>, s: State, i: nat, op: Op) returns (later: seq<Block>)
    requires truth == After(init, s.log)
    requires Inv(init, truth, s) && i < |s.procs| && ProcOk(s.procs[i], |init|) && OpOk(op, |init|)
    ensures later == After(init, Next(s, i, op).log)
    ensures Inv(init, later, Next(s, i, op))
  {
    var p := s.procs[i];
    if p.phase == Writing(p.op.n, false) {
      TakesEffect(init, s.log, Commit(p.op.start, p.op.data));
      NextCommits(s, i, op);
      assert KnowsAt(init, truth, s, i);
      later := Committed(truth, p.op.start, p.op.data);
      AppendKeeps(init, truth, s, i);
    } else {
      later := truth;
      SilentKeeps(init, truth, s, i, op);
    }
  }

  function Initial(init: seq<Block>, procs: nat): State {
    State(init, seq(procs, _ => Proc(Checkout(0, 0), Idle, [], [], 0)), [])
  }

  /** A run: at each step some process, told what to do should it be idle, takes its next step. */
  ghost predicate Run(init: seq<Block>, procs: nat, states: seq<State>, picks: seq<(nat, Op)>) {
    && |states| == |picks| + 1 && states[0] == Initial(init, procs)
    && forall t :: 0 <= t < |picks| ==> RunStep(init, procs, states, picks, t)
  }

  ghost predicate RunStep(init: seq<Block>, procs: nat, states: seq<State>, picks: seq<(nat, Op)>, t: nat)
    requires t < |picks| && |states| == |picks| + 1
  {
    var i, op, s := picks[t].0, picks[t].1, states[t];
    && i < |s.procs| && ProcOk(s.procs[i], |s.mem|) && OpOk(op, |s.mem|)
    && states[t + 1] == Next(s, i, op)
  }

  lemma InitialOk(init: seq<Block>, procs: nat)
    ensures Inv(init, init, Initial(init, procs))
  {
    var s := Initial(init, procs);
    forall i | 0 <= i < procs
      ensures KnowsAt(init, init, s, i)
    {
    }
  }

  lemma {:induction false} RunKeeps(init: seq<Block>, procs: nat, states: seq<State>, picks: seq<(nat, Op)>, t: nat)
    requires Run(init, procs, states, picks) && t < |states|
    ensures Inv(init, After(init, states[t].log), states[t])
  {
    if t == 0 {
      InitialOk(init, procs);
    } else {
      RunKeeps(init, procs, states, picks, t - 1);
      assert RunStep(init, procs, states, picks, t - 1);
      var later := StepKeeps(init, After(init, states[t - 1].log), states[t - 1], picks[t - 1].0, picks[t - 1].1);
    }
  }

  lemma OutcomeKnown(init: seq<Block>, procs: nat, states: seq<State>, picks: seq<(nat, Op)>, t: nat, i: nat)
    requires Run(init, procs, states, picks) && t < |states| && i < |states[t].procs|
    requires states[t].procs[i].phase.Unlocking?
    ensures var p := states[t].procs[i];
            && OpOk(p.op, |init|) && |p.outVers| == p.op.n && (p.op.Checkout? ==> p.phase.ok && |p.outData| == p.op.n)
            && OutcomeOk(init, states[t].log, p, p.phase.ok, p.phase.at)
  {
    RunKeeps(init, procs, states, picks, t);
    assert KnowsAt(init, After(init, states[t].log), states[t], i);
  }

  /** In every reachable state in which no commit is writing, the memory is that of the serial execution. */
  lemma {:induction false} SettledMemory(init: seq<Block>, procs: nat, states: seq<State>, picks: seq<(nat, Op)>,
                                         t: nat)
    requires Run(init, procs, states, picks) && t < |states|
    requires forall i :: 0 <= i < |states[t].procs| ==> !states[t].procs[i].phase.Writing?
    ensures states[t].mem == After(init, states[t].log)
  {
    RunKeeps(init, procs, states, picks, t);
    forall b | 0 <= b < |init|
      ensures Untouched(states[t].procs, b)
    {
    }
  }

  // ------------------------------------------------------------------ what one step does

  /** What a step does to the log and to the processes. */
  lemma NextEffect(s: State, i: nat, op: Op)
    requires i < |s.procs| && ProcOk(s.procs[i], |s.mem|) && OpOk(op, |s.mem|)
    ensures |Next(s, i, op).procs| == |s.procs|
    ensures forall j :: 0 <= j < |s.procs| && j != i ==> Next(s, i, op).procs[j] == s.procs[j]
    ensures var p := s.procs[i];
            Next(s, i, op).log ==
            if p.phase == Writing(p.op.n, false) then s.log + [Commit(p.op.start, p.op.data)] else s.log
  {
  }

  lemma NextPhase(s: State, i: nat, op: Op)
    requires i < |s.procs| && ProcOk(s.procs[i], |s.mem|) && OpOk(op, |s.mem|) && !s.procs[i].phase.Idle?
    ensures var p, q := s.procs[i], Next(s, i, op).procs[i];
            && q.op == p.op && q.since == p.since
            && (forall at :: Succeeded(q, at) ==>
                 Succeeded(p, at) || (p.phase == Writing(p.op.n, false) && at == |s.log|))
            && (p.phase == Writing(p.op.n, false) ==> Succeeded(q, |s.log|))
  {
  }

  /** How many steps of its own a process has before it at most, until it is idle again. */
  function StepsLeft(p: Proc, size: nat): nat
    requires ProcOk(p, size)
  {
    var n := p.op.n;
    match p.phase
    case Idle => 0
    case Locking(held) => n - held + 4 * n + 5
    case Copying(d, v) => (n - d) + (n - v) + n + 3
    case Checking(k, _) => n - k + 3 * n + 4
    case Writing(k, half) => 2 * (n - k) - (if half then 1 else 0) + n + 3
    case Unlocking(r, _, _) => n - r + 1
  }

  /** Process `i` is at a block of its range that another one has a lock on, and one of them commits. */
  predicate Waits(s: State, i: nat)
    requires i < |s.procs|
  {
    var p := s.procs[i];
    && p.phase.Locking? && p.phase.held < p.op.n
    && exists j :: 0 <= j < |s.procs| && j != i && Conflicts(s, i, j)
  }

  predicate Conflicts(s: State, i: nat, j: nat)
    requires i < |s.procs| && j < |s.procs| && s.procs[i].phase.Locking?
  {
    && Holds(s.procs[j], s.procs[i].op.start + s.procs[i].phase.held)
    && (s.procs[i].op.Save? || s.procs[j].op.Save?)
  }

  lemma GrantedUnlessWaits(s: State, i: nat)
    requires i < |s.procs| && s.procs[i].phase.Locking? && s.procs[i].phase.held < s.procs[i].op.n
    ensures Grantable(s, i, s.procs[i].op.start + s.procs[i].phase.held) <==> !Waits(s, i)
  {
    if j :| 0 <= j < |s.procs| && j != i && Conflicts(s, i, j) {
    }
    var b := s.procs[i].op.start + s.procs[i].phase.held;
    if j :| 0 <= j < |s.procs| && j != i && Holds(s.procs[j], b) && (s.procs[i].op.Save? || s.procs[j].op.Save?) {
      assert Conflicts(s, i, j);
    }
  }

  /** A process under way comes nearer to its end with every step, unless it waits for a lock. */
  lemma StepProgress(s: State, i: nat, op: Op)
    requires i < |s.procs| && ProcOk(s.procs[i], |s.mem|) && OpOk(op, |s.mem|) && !s.procs[i].phase.Idle?
    ensures var p, q := s.procs[i], Next(s, i, op).procs[i];
            if Waits(s, i) then Next(s, i, op) == s
            else ProcOk(q, |s.mem|) && StepsLeft(q, |s.mem|) < StepsLeft(p, |s.mem|)
  {
    match s.procs[i].phase
    case Idle =>
    case Locking(_) => LockProgress(s, i, op);
    case Copying(_, _) => CopyProgress(s, i, op);
    case Checking(_, _) =>
    case Writing(_, _) => WriteProgress(s, i, op);
    case Unlocking(_, _, _) =>
  }

  lemma LockProgress(s: State, i: nat, op: Op)
    requires i < |s.procs| && ProcOk(s.procs[i], |s.mem|) && OpOk(op, |s.mem|) && s.procs[i].phase.Locking?
    ensures var p, q := s.procs[i], Next(s, i, op).procs[i];
            if Waits(s, i) then Next(s, i, op) == s
            else ProcOk(q, |s.mem|) && StepsLeft(q, |s.mem|) < StepsLeft(p, |s.mem|)
  {
    if s.procs[i].phase.held < s.procs[i].op.n {
      GrantedUnlessWaits(s, i);
    }
  }

  lemma CopyProgress(s: State, i: nat, op: Op)
    requires i < |s.procs| && ProcOk(s.procs[i], |s.mem|) && OpOk(op, |s.mem|) && s.procs[i].phase.Copying?
    ensures var p, q := s.procs[i], Next(s, i, op).procs[i];
            ProcOk(q, |s.mem|) && StepsLeft(q, |s.mem|) < StepsLeft(p, |s.mem|)
  {
    InsideGroup(s.procs[i].op, s.procs[i].phase.datas, s.procs[i].phase.vers);
  }

  lemma WriteProgress(s: State, i: nat, op: Op)
    requires i < |s.procs| && ProcOk(s.procs[i], |s.mem|) && OpOk(op, |s.mem|) && s.procs[i].phase.Writing?
    ensures var p, q := s.procs[i], Next(s, i, op).procs[i];
            ProcOk(q, |s.mem|) && StepsLeft(q, |s.mem|) < StepsLeft(p, |s.mem|)
  {
  }

  /**
    The locks of a process after a step of it: the lock on the next block of its range is taken,
    unless it waits for it, or the lock on the next one is given back, or nothing changes.
   */
  predicate LocksAfter(p: Proc, q: Proc, waits: bool, b: nat) {
    Holds(q, b) <==>
    if p.phase.Locking? && p.phase.held < p.op.n && !waits then Holds(p, b) || b == p.op.start + p.phase.held
    else if p.phase.Unlocking? && p.phase.released < p.op.n then Holds(p, b) && b != p.op.start + p.phase.released
    else Holds(p, b)
  }

  lemma StepLocks(s: State, i: nat, op: Op, b: nat)
    requires i < |s.procs| && ProcOk(s.procs[i], |s.mem|) && OpOk(op, |s.mem|)
    ensures LocksAfter(s.procs[i], Next(s, i, op).procs[i], Waits(s, i), b)
    ensures s.procs[i].phase.Idle? ==> !Holds(s.procs[i], b)
  {
    match s.procs[i].phase
    case Idle =>
    case Locking(held) => LockingLocks(s, i, op, b);
    case Copying(_, _) => CopyProgress(s, i, op);
    case Checking(_, _) =>
    case Writing(_, _) =>
    case Unlocking(_, _, _) =>
  }

  lemma LockingLocks(s: State, i: nat, op: Op, b: nat)
    requires i < |s.procs| && ProcOk(s.procs[i], |s.mem|) && OpOk(op, |s.mem|) && s.procs[i].phase.Locking?
    ensures LocksAfter(s.procs[i], Next(s, i, op).procs[i], Waits(s, i), b)
  {
    if s.procs[i].phase.held < s.procs[i].op.n {
      GrantedUnlessWaits(s, i);
    }
  }

  // ------------------------------------------------------------------ calls

  /** At step `t` of a run process `i`, which is idle, is told to do `op`. */
  predicate Called(states: seq<State>, picks: seq<(nat, Op)>, t: nat, i: nat, op: Op) {
    && t < |picks| && t < |states| && picks[t] == (i, op)
    && i < |states[t].procs| && states[t].procs[i].phase.Idle?
  }

  /** Process `i` is not idle from after step `t` to time `u`. */
  predicate BusySince(states: seq<State>, t: nat, u: nat, i: nat) {
    t < u < |states| && forall x :: t < x <= u ==> i < |states[x].procs| && !states[x].procs[i].phase.Idle?
  }

  lemma {:induction false} LogGrows(init: seq<Block>, procs: nat, states: seq<State>, picks: seq<(nat, Op)>, t: nat,
                                    u: nat)
    requires Run(init, procs, states, picks) && t <= u < |states|
    ensures states[t].log <= states[u].log && |states[u].procs| == |states[t].procs|
  {
    if t < u {
      LogGrows(init, procs, states, picks, t, u - 1);
      assert RunStep(init, procs, states, picks, u - 1);
      NextEffect(states[u - 1], picks[u - 1].0, picks[u - 1].1);
    }
  }

  /** Until it is idle again a process does what it was told, with exactly these arguments. */
  lemma {:induction false} CallServed(init: seq<Block>, procs: nat, states: seq<State>, picks: seq<(nat, Op)>,
                                      t: nat, u: nat, i: nat, op: Op)
    requires Run(init, procs, states, picks) && Called(states, picks, t, i, op) && BusySince(states, t, u, i)
    ensures states[u].procs[i].op == op && states[u].procs[i].since == |states[t].log|
  {
    assert RunStep(init, procs, states, picks, u - 1);
    NextEffect(states[u - 1], picks[u - 1].0, picks[u - 1].1);
    if t + 1 < u {
      CallServed(init, procs, states, picks, t, u - 1, i, op);
      if picks[u - 1].0 == i {
        NextPhase(states[u - 1], i, picks[u - 1].1);
      }
    }
  }

  /** Whatever a process is doing, it was told to at some step before, and was not idle since. */
  lemma {:induction false} CallOf(init: seq<Block>, procs: nat, states: seq<State>, picks: seq<(nat, Op)>, u: nat,
                                  i: nat)
    returns (t: nat)
    requires Run(init, procs, states, picks) && u < |states| && i < |states[u].procs| && !states[u].procs[i].phase.Idle?
    ensures t < u && Called(states, picks, t, i, states[u].procs[i].op) && BusySince(states, t, u, i)
  {
    if u > 0 {
      assert RunStep(init, procs, states, picks, u - 1);
      NextEffect(states[u - 1], picks[u - 1].0, picks[u - 1].1);
      if states[u - 1].procs[i].phase.Idle? {
        t := u - 1;
      } else {
        t := CallOf(init, procs, states, picks, u - 1, i);
        if picks[u - 1].0 == i {
          NextPhase(states[u - 1], i, picks[u - 1].1);
        }
      }
    }
  }

  /** A process becomes idle only by a step of its own, when it has an outcome and has given back all its locks. */
  lemma IdleAgain(init: seq<Block>, procs: nat, states: seq<State>, picks: seq<(nat, Op)>, t: nat, i: nat)
    requires Run(init, procs, states, picks) && t < |picks| && i < |states[t].procs|
    requires !states[t].procs[i].phase.Idle?
    requires i < |states[t + 1].procs| && states[t + 1].procs[i].phase.Idle?
    ensures var p := states[t].procs[i];
            picks[t].0 == i && p.phase.Unlocking? && p.phase.released == p.op.n && forall b: nat :: !Holds(p, b)
  {
    assert RunStep(init, procs, states, picks, t);
    NextEffect(states[t], picks[t].0, picks[t].1);
  }

  /**
    What a process that is done reports of the call `op`, which it began with a log of length
    `since`: a checkout returns all its blocks as the first `at` commits left them. A commit
    succeeds if and only if its versions are those of the blocks after the first `at` commits; it
    is then the next one, and reports the new versions, and otherwise reports the current ones.
   */
  ghost predicate Answers(init: seq<Block>, log: seq<Commit>, op: Op, since: nat, p: Proc)
    requires OpOk(op, |init|) && p.phase.Unlocking?
  {
    var at := p.phase.at;
    && since <= at <= |log| && |p.outVers| == op.n
    && var before := After(init, log[..at]);
    match op
    case Checkout(start, n) => p.phase.ok && |p.outData| == n && Saw(before, start, p.outData, p.outVers)
    case Save(start, n, data, vers) =>
      && (p.phase.ok <==> VersionsMatch(before, start, vers))
      && (!p.phase.ok ==> Saw(before, start, [], p.outVers))
      && (p.phase.ok ==> at < |log| && log[at] == Commit(start, data)
                         && Saw(After(init, log[..at + 1]), start, [], p.outVers))
  }

  /**
    Every call has the outcome of a serial execution: once its process is done, and until it is
    idle again, it answers what it was told to do, at one point between its begin and its end.
   */
  lemma Serializable(init: seq<Block>, procs: nat, states: seq<State>, picks: seq<(nat, Op)>,
                     t: nat, u: nat, i: nat, op: Op)
    requires Run(init, procs, states, picks) && Called(states, picks, t, i, op) && BusySince(states, t, u, i)
    requires states[u].procs[i].phase.Unlocking?
    ensures OpOk(op, |init|) && Answers(init, states[u].log, op, |states[t].log|, states[u].procs[i])
  {
    CallServed(init, procs, states, picks, t, u, i, op);
    OutcomeKnown(init, procs, states, picks, u, i);
  }

  // ------------------------------------------------------------------ the commits of a run

  /** At step `e` of a run a commit takes effect. */
  predicate CommitsAt(states: seq<State>, picks: seq<(nat, Op)>, e: nat) {
    && e < |picks| && e < |states| && picks[e].0 < |states[e].procs|
    && states[e].procs[picks[e].0].phase == Writing(states[e].procs[picks[e].0].op.n, false)
  }

  /** Process `p` is done with a commit that succeeded as number `at`. */
  predicate Succeeded(p: Proc, at: nat) {
    p.op.Save? && p.phase.Unlocking? && p.phase.ok && p.phase.at == at
  }

  /**
    A commit that succeeded took effect at a step of its process, and the process is still giving
    back its locks since then.
   */
  lemma {:induction false} SuccessStep(init: seq<Block>, procs: nat, states: seq<State>, picks: seq<(nat, Op)>, t: nat,
                                       i: nat, at: nat)
    returns (e: nat)
    requires Run(init, procs, states, picks) && t < |states| && i < |states[t].procs|
    requires Succeeded(states[t].procs[i], at)
    ensures e < t && CommitsAt(states, picks, e) && picks[e].0 == i && |states[e].log| == at
    ensures forall x :: e < x <= t ==> i < |states[x].procs| && Succeeded(states[x].procs[i], at)
    ensures states[e].procs[i].op == states[t].procs[i].op
  {
    if t > 0 {
      var s, j := states[t - 1], picks[t - 1].0;
      assert RunStep(init, procs, states, picks, t - 1);
      NextEffect(s, j, picks[t - 1].1);
      if i == j {
        NextPhase(s, j, picks[t - 1].1);
      }
      if i == j && s.procs[i].phase == Writing(s.procs[i].op.n, false) {
        e := t - 1;
      } else {
        e := SuccessStep(init, procs, states, picks, t - 1, i, at);
      }
    }
  }

  /** Commits take effect one after the other, so no two of them have the same number. */
  lemma OneStepEach(init: seq<Block>, procs: nat, states: seq<State>, picks: seq<(nat, Op)>, e: nat, f: nat)
    requires Run(init, procs, states, picks) && e < f && CommitsAt(states, picks, e) && CommitsAt(states, picks, f)
    ensures |states[e].log| < |states[f].log|
  {
    assert RunStep(init, procs, states, picks, e);
    NextEffect(states[e], picks[e].0, picks[e].1);
    LogGrows(init, procs, states, picks, e + 1, f);
  }

  /**
    No two commits succeed as the same number: where two processes, or one at two times, are done
    with a commit of the same number, it is one commit, and its process did nothing else between.
   */
  lemma DistinctCommits(init: seq<Block>, procs: nat, states: seq<State>, picks: seq<(nat, Op)>, t: nat, i: nat, u: nat,
                        j: nat, at: nat)
    requires Run(init, procs, states, picks) && t <= u < |states| && i < |states[t].procs| && j < |states[u].procs|
    requires Succeeded(states[t].procs[i], at) && Succeeded(states[u].procs[j], at)
    ensures i == j && forall x :: t <= x <= u ==> i < |states[x].procs| && Succeeded(states[x].procs[i], at)
  {
    var e := SuccessStep(init, procs, states, picks, t, i, at);
    var f := SuccessStep(init, procs, states, picks, u, j, at);
    if e < f {
      OneStepEach(init, procs, states, picks, e, f);
    } else if f < e {
      OneStepEach(init, procs, states, picks, f, e);
    }
  }

  /** Every commit in the log took effect at a step of the run, after which its process knows its number. */
  lemma {:induction false} CommitStep(init: seq<Block>, procs: nat, states: seq<State>, picks: seq<(nat, Op)>, t: nat,
                                       at: nat)
    returns (e: nat)
    requires Run(init, procs, states, picks) && t < |states| && at < |states[t].log|
    ensures e < t && CommitsAt(states, picks, e) && |states[e].log| == at
    ensures picks[e].0 < |states[e + 1].procs| && Succeeded(states[e + 1].procs[picks[e].0], at)
    ensures var op := states[e].procs[picks[e].0].op; op.Save? && states[t].log[at] == Commit(op.start, op.data)
  {
    if t > 0 {
      var s, i := states[t - 1], picks[t - 1].0;
      assert RunStep(init, procs, states, picks, t - 1);
      NextEffect(s, i, picks[t - 1].1);
      if at < |s.log| {
        e := CommitStep(init, procs, states, picks, t - 1, at);
      } else {
        e := t - 1;
        NextPhase(s, i, picks[t - 1].1);
      }
    }
  }

  /**
    Every commit in the log answers a call: the process was told to do it at a step `t` of the
    run, it took effect at a later step `e`, and the process then knows its number.
   */
  lemma EveryCommit(init: seq<Block>, procs: nat, states: seq<State>, picks: seq<(nat, Op)>, u: nat, at: nat)
    returns (t: nat, e: nat)
    requires Run(init, procs, states, picks) && u < |states| && at < |states[u].log|
    ensures t < e < u && CommitsAt(states, picks, e) && |states[e].log| == at
    ensures var i, op := picks[e].0, picks[t].1;
            && Called(states, picks, t, i, op) && BusySince(states, t, e + 1, i) && op.Save?
            && states[u].log[at] == Commit(op.start, op.data) && Succeeded(states[e + 1].procs[i], at)
  {
    e := CommitStep(init, procs, states, picks, u, at);
    t := CallOf(init, procs, states, picks, e, picks[e].0);
  }

  // ------------------------------------------------------------------ no update is lost

  /** The versions that a commit is given are those that a checkout returned, for every block of the commit. */
  predicate VersionsFrom(save: Op, checkout: Op, returned: seq<nat>) {
    && save.Save? && checkout.Checkout? && |save.vers| == save.n
    && checkout.start <= save.start && save.start + save.n <= checkout.start + |returned|
    && forall k :: 0 <= k < save.n ==> save.vers[k] == returned[save.start - checkout.start + k]
  }

  /**
    What commit `at` replaces in block `b` is what a checkout after `k` commits returned, and no
    commit between them covers it.
   */
  ghost predicate Replaces(init: seq<Block>, log: seq<Commit>, checkout: Op, returned: seq<Bytes>, k: nat, at: nat,
                           b: nat)
    requires k <= at < |log|
  {
    && b < |init| && checkout.start <= b < checkout.start + |returned|
    && (forall y :: k <= y < at ==> !Covers(log[y], b))
    && After(init, log[..at])[b] == After(init, log[..k])[b]
    && After(init, log[..at])[b].data == returned[b - checkout.start]
  }

  /**
    No update is lost: process `c`, told at step `s` to do a checkout, is done at time `t`;
    process `i`, told at a step `x` no earlier to commit with the versions of that checkout, is
    done at time `u` and succeeded. If fewer than 2^32 commits took effect between the two, none
    of them covered a block of the commit, and what the commit replaced is what the checkout
    returned.
   */
  lemma NoLostUpdate(init: seq<Block>, procs: nat, states: seq<State>, picks: seq<(nat, Op)>,
                     s: nat, t: nat, c: nat, x: nat, u: nat, i: nat, b: nat)
    requires Run(init, procs, states, picks) && t <= x
    requires s < |picks| && Called(states, picks, s, c, picks[s].1) && BusySince(states, s, t, c)
    requires x < |picks| && Called(states, picks, x, i, picks[x].1) && BusySince(states, x, u, i)
    requires states[t].procs[c].phase.Unlocking? && states[u].procs[i].phase.Unlocking? && states[u].procs[i].phase.ok
    requires VersionsFrom(picks[x].1, picks[s].1, states[t].procs[c].outVers) && InRange(picks[x].1, b)
    requires states[u].procs[i].phase.at - states[t].procs[c].phase.at < VERSIONS
    requires forall b :: 0 <= b < |init| ==> init[b].ver < VERSIONS
    ensures var k, at := states[t].procs[c].phase.at, states[u].procs[i].phase.at;
            && k <= at < |states[u].log|
            && states[u].log[at] == Commit(picks[x].1.start, picks[x].1.data)
            && Replaces(init, states[u].log, picks[s].1, states[t].procs[c].outData, k, at, b)
  {
    var k, at, log := states[t].procs[c].phase.at, states[u].procs[i].phase.at, states[u].log;
    Serializable(init, procs, states, picks, s, t, c, picks[s].1);
    Serializable(init, procs, states, picks, x, u, i, picks[x].1);
    LogGrows(init, procs, states, picks, t, x);
    LogGrows(init, procs, states, picks, t, u);
    assert log[..k] == states[t].log[..k];
    CommitReplaces(init, log, picks[s].1, states[t].procs[c].outData, states[t].procs[c].outVers, picks[x].1, k, at, b);
  }

  lemma {:induction false} CommitReplaces(init: seq<Block>, log: seq<Commit>, checkout: Op, data: seq<Bytes>,
                                          vers: seq<nat>,
                       save: Op, k: nat, at: nat, b: nat)
    requires k <= at < |log| && at - k < VERSIONS && forall b :: 0 <= b < |init| ==> init[b].ver < VERSIONS
    requires OpOk(save, |init|) && VersionsFrom(save, checkout, vers) && InRange(save, b) && |data| == |vers|
    requires Saw(After(init, log[..k]), checkout.start, data, vers)
    requires VersionsMatch(After(init, log[..at]), save.start, save.vers)
    ensures Replaces(init, log, checkout, data, k, at, b)
  {
    assert save.vers[b - save.start] == vers[b - checkout.start];
    UnchangedBetween(init, log, k, at, b);
  }

  /**
    A block whose version is the same after `k` and after `at` commits, fewer than 2^32 later, was
    covered by none of them.
   */
  lemma {:induction false} UnchangedBetween(init: seq<Block>, log: seq<Commit>, k: nat, at: nat, b: nat)
    requires k <= at <= |log| && at - k < VERSIONS && b < |init| && init[b].ver < VERSIONS
    requires After(init, log[..k])[b].ver == After(init, log[..at])[b].ver
    ensures After(init, log[..at])[b] == After(init, log[..k])[b]
    ensures forall x :: k <= x < at ==> !Covers(log[x], b)
  {
    assert log[..at][..k] == log[..k];
    SameVersionSameData(init, log[..at], k, b);
    forall x | k <= x < at
      ensures !Covers(log[x], b)
    {
      SameCountNoCover(log[..at], k, b, x);
    }
  }

  lemma {:induction false} SameCountNoCover(log: seq<Commit>, k: nat, b: nat, x: nat)
    requires k <= x < |log| && CoverCount(log[..k], b) == CoverCount(log, b)
    ensures !Covers(log[x], b)
  {
    var front := log[..|log| - 1];
    assert front[..k] == log[..k];
    CoverCountGrows(front, k, b);
    if x < |log| - 1 {
      SameCountNoCover(front, k, b, x);
    }
  }

  lemma {:induction false} CoverCountGrows(log: seq<Commit>, k: nat, b: nat)
    requires k <= |log|
    ensures CoverCount(log[..k], b) <= CoverCount(log, b)
  {
    if k == |log| {
      assert log[..k] == log;
    } else {
      var front := log[..|log| - 1];
      assert front[..k] == log[..k];
      CoverCountGrows(front, k, b);
    }
  }
}
