/**
  The page locks of checkouts and commits on a volume that is long enough already: block pages
  in order, and then, one at a time, the descriptor pages of groups that were never set up.
 */
module LockOrder {
  import opened BlockMath

  /** How far a process is: descriptor `g` of its range is wanted, or `locked` exclusively. */
  datatype Stage = Blocks(held: nat) | Groups(g: nat, locked: bool) | Unlocking(released: nat) | Done

  datatype Proc = Proc(start: nat, n: nat, xl: bool, stage: Stage)

  predicate ProcOk(p: Proc) {
    && p.n >= 1
    && match p.stage
       case Blocks(held) => held <= p.n
       case Groups(g, _) => g < GroupsNeeded(p.start, p.n)
       case Unlocking(released) => released <= p.n
       case Done => true
  }

  function DescriptorOf(p: Proc, g: nat): nat {
    (Bid2Gid(p.start) + g) * PAGES_PER_GROUP
  }

  /** The page a process waits for, if it is taken. */
  function Wanted(p: Proc): (page: int)
    ensures page >= -1
  {
    match p.stage
    case Blocks(held) => if held < p.n then Bid2Pid(p.start + held) else -1
    case Groups(g, locked) => if locked then -1 else DescriptorOf(p, g)
    case _ => -1
  }

  predicate WantsExclusive(p: Proc) {
    p.xl || p.stage.Groups?
  }

  /** Block locks are taken and given back in order. */
  predicate HoldsBlock(p: Proc, bid: nat) {
    match p.stage
    case Blocks(held) => p.start <= bid < p.start + held
    case Groups(_, _) => p.start <= bid < p.start + p.n
    case Unlocking(released) => p.start + released <= bid < p.start + p.n
    case Done => false
  }

  predicate HoldsPage(p: Proc, page: nat) {
    if page % PAGES_PER_GROUP == 0 then p.stage.Groups? && p.stage.locked && page == DescriptorOf(p, p.stage.g)
    else HoldsBlock(p, Pid2Bid(page))
  }

  predicate HoldsExclusive(p: Proc, page: nat) {
    p.xl || page % PAGES_PER_GROUP == 0
  }

  /** `p` waits for a lock that `q` holds. */
  predicate WaitsFor(p: Proc, q: Proc) {
    Wanted(p) >= 0 && HoldsPage(q, Wanted(p)) && (WantsExclusive(p) || HoldsExclusive(q, Wanted(p)))
  }

  predicate Blocked(procs: seq<Proc>, i: nat)
    requires i < |procs|
  {
    exists j :: 0 <= j < |procs| && j != i && WaitsFor(procs[i], procs[j])
  }

  function NextGroup(p: Proc, g: nat): Stage
    requires p.n >= 1
  {
    if g + 1 < GroupsNeeded(p.start, p.n) then Groups(g + 1, false) else Unlocking(0)
  }

  /** The next stage of a process that is not blocked; `setUp` tells whether the group it loads was set up before. */
  function Advance(p: Proc, setUp: bool): Proc
    requires ProcOk(p)
  {
    match p.stage
    case Blocks(held) => p.(stage := if held < p.n then Blocks(held + 1) else Groups(0, false))
    case Groups(g, locked) => p.(stage := if locked || setUp then NextGroup(p, g) else Groups(g, true))
    case Unlocking(released) => p.(stage := if released < p.n then Unlocking(released + 1) else Done)
    case Done => p
  }

  /** How many steps a process has before it at most. */
  function Remaining(p: Proc): nat
    requires ProcOk(p)
  {
    var groups := GroupsNeeded(p.start, p.n);
    match p.stage
    case Blocks(held) => (p.n - held) + 1 + 2 * groups + p.n + 1
    case Groups(g, locked) => 2 * (groups - g) - (if locked then 1 else 0) + p.n + 1
    case Unlocking(released) => p.n - released + 1
    case Done => 0
  }

  /** A process that is never blocked for good is done in the end. */
  lemma AdvanceEnds(p: Proc, setUp: bool)
    requires ProcOk(p) && p.stage != Done
    ensures ProcOk(Advance(p, setUp)) && Remaining(Advance(p, setUp)) < Remaining(p)
  {
  }

  /** Pages in the order in which they are locked: all block pages before all descriptor pages. */
  function Rank(page: nat): (bool, nat) {
    (page % PAGES_PER_GROUP == 0, page)
  }

  predicate Before(a: nat, b: nat) {
    if Rank(a).0 == Rank(b).0 then a < b else Rank(b).0
  }

  lemma IsDescriptor(p: Proc, g: nat)
    ensures DescriptorOf(p, g) % PAGES_PER_GROUP == 0
  {
  }

  /** Whoever is waited for holds what is wanted of it, and so waits, if at all, for a later page. */
  lemma WaitsForLater(p: Proc, q: Proc)
    requires ProcOk(p) && ProcOk(q) && WaitsFor(p, q) && Wanted(q) >= 0
    ensures Before(Wanted(p), Wanted(q))
  {
    if p.stage.Blocks? {
      var b := p.start + p.stage.held;
      PagesOfBlocks(b);
      if q.stage.Blocks? {
        PagesOfBlocks(q.start + q.stage.held);
        PagesIncrease(b, q.start + q.stage.held);
      } else {
        IsDescriptor(q, q.stage.g);
      }
    } else {
      IsDescriptor(p, p.stage.g);
    }
  }

  lemma BeforeTransitive(a: nat, b: nat, c: nat)
    requires Before(a, b) && Before(b, c)
    ensures Before(a, c)
  {
  }

  ghost predicate Chain(procs: seq<Proc>, path: seq<nat>) {
    && (forall k :: 0 <= k < |path| ==> path[k] < |procs|)
    && forall k :: 0 <= k < |path| - 1 ==> WaitsFor(procs[path[k]], procs[path[k + 1]])
  }

  lemma {:induction false} ChainClimbs(procs: seq<Proc>, path: seq<nat>)
    requires (forall i :: 0 <= i < |procs| ==> ProcOk(procs[i])) && Chain(procs, path) && |path| >= 2
    requires Wanted(procs[path[|path| - 1]]) >= 0
    ensures Wanted(procs[path[0]]) >= 0 && Before(Wanted(procs[path[0]]), Wanted(procs[path[|path| - 1]]))
  {
    var p, q := procs[path[|path| - 2]], procs[path[|path| - 1]];
    assert path[|path| - 2 + 1] == path[|path| - 1];
    WaitsForLater(p, q);
    if |path| > 2 {
      var front := path[..|path| - 1];
      ChainClimbs(procs, front);
      BeforeTransitive(Wanted(procs[path[0]]), Wanted(p), Wanted(q));
    }
  }

  /** No processes wait for each other in a circle: somewhere on it one does not wait for the next. */
  lemma NoWaitingCycle(procs: seq<Proc>, path: seq<nat>)
    requires (forall i :: 0 <= i < |procs| ==> ProcOk(procs[i])) && |path| >= 2 && path[0] == path[|path| - 1]
    requires forall k :: 0 <= k < |path| ==> path[k] < |procs|
    ensures exists k :: 0 <= k < |path| - 1 && !WaitsFor(procs[path[k]], procs[path[k + 1]])
  {
    if Chain(procs, path) {
      assert WaitsFor(procs[path[0]], procs[path[0 + 1]]);
      ChainClimbs(procs, path);
    }
  }

  // ------------------------------------------------------------------ somebody can always go on

  /** A bound on the pages wanted, in the order of ranks. */
  function Weight(p: Proc): nat {
    var w := Wanted(p);
    if w < 0 then 0 else w + 1
  }

  lemma {:induction false} WeightBound(procs: seq<Proc>) returns (bound: nat)
    ensures forall i :: 0 <= i < |procs| ==> Weight(procs[i]) <= bound
  {
    if procs == [] {
      bound := 0;
    } else {
      var front := procs[..|procs| - 1];
      bound := WeightBound(front);
      assert forall i :: 0 <= i < |front| ==> front[i] == procs[i];
      if bound < Weight(procs[|procs| - 1]) {
        bound := Weight(procs[|procs| - 1]);
      }
    }
  }

  /** From any process that is not done, following who waits for whom leads to one that can go on. */
  lemma {:induction false} FollowWaits(procs: seq<Proc>, i: nat, bound: nat) returns (k: nat)
    requires forall j :: 0 <= j < |procs| ==> ProcOk(procs[j]) && Weight(procs[j]) <= bound
    requires i < |procs| && procs[i].stage != Done
    ensures k < |procs| && procs[k].stage != Done && !Blocked(procs, k)
    decreases var w := Wanted(procs[i]); if w < 0 then 0 else if w % PAGES_PER_GROUP == 0 then 1 else 2,
              bound - Wanted(procs[i])
  {
    if !Blocked(procs, i) {
      k := i;
    } else {
      var j :| 0 <= j < |procs| && j != i && WaitsFor(procs[i], procs[j]);
      if Wanted(procs[j]) >= 0 {
        WaitsForLater(procs[i], procs[j]);
        assert Weight(procs[j]) <= bound;
      }
      k := FollowWaits(procs, j, bound);
    }
  }

  /** Unless every process is done, one of them is not waiting. */
  lemma NoDeadlock(procs: seq<Proc>, i: nat) returns (k: nat)
    requires forall j :: 0 <= j < |procs| ==> ProcOk(procs[j])
    requires i < |procs| && procs[i].stage != Done
    ensures k < |procs| && procs[k].stage != Done
    ensures forall j :: 0 <= j < |procs| && j != k ==> !WaitsFor(procs[k], procs[j])
  {
    var bound := WeightBound(procs);
    k := FollowWaits(procs, i, bound);
  }

  // ------------------------------------------------------------------ the locks of a run

  /**
    The locks of a process after a step of it. Block locks are taken one by one before the first
    descriptor and given back one by one after the last; the lock on the descriptor of a group that
    was not set up is held for one step.
   */
  lemma AdvanceLocks(p: Proc, setUp: bool, b: nat, d: nat)
    requires ProcOk(p) && d % PAGES_PER_GROUP == 0
    ensures var q := Advance(p, setUp);
            && (HoldsPage(q, Bid2Pid(b)) <==>
                 if p.stage.Blocks? && p.stage.held < p.n then HoldsPage(p, Bid2Pid(b)) || b == p.start + p.stage.held
                 else if p.stage.Unlocking? && p.stage.released < p.n then
                   HoldsPage(p, Bid2Pid(b)) && b != p.start + p.stage.released
                 else HoldsPage(p, Bid2Pid(b)))
            && (HoldsPage(q, d) <==>
                 p.stage.Groups? && !p.stage.locked && !setUp && d == DescriptorOf(p, p.stage.g))
    ensures p.stage == Blocks(0) ==> !HoldsPage(p, Bid2Pid(b)) && !HoldsPage(p, d)
    ensures p.stage == Done ==> !HoldsPage(p, Bid2Pid(b)) && !HoldsPage(p, d)
  {
    PagesOfBlocks(b);
  }

  /** Between its block locks a process comes by the descriptors of all groups of its range, in order. */
  lemma AdvanceGroups(p: Proc, setUp: bool)
    requires ProcOk(p)
    ensures var q, groups := Advance(p, setUp), GroupsNeeded(p.start, p.n);
            && q.start == p.start && q.n == p.n && q.xl == p.xl
            && (p.stage.Blocks? && !q.stage.Blocks? ==> p.stage.held == p.n && q.stage == Groups(0, false))
            && (p.stage.Groups? ==>
                 if q.stage.Groups? then
                   q.stage.g == p.stage.g + (if p.stage.locked || setUp then 1 else 0) && q.stage.g < groups
                 else p.stage.g + 1 == groups && (p.stage.locked || setUp) && q.stage == Unlocking(0))
            && (p.stage.Unlocking? && !q.stage.Unlocking? ==> p.stage.released == p.n && q.stage == Done)
  {
  }

  /**
    Who waits for whom: for the next block of its range a process waits for one that has it locked
    if either of them commits; for a descriptor it waits for whoever has that locked.
   */
  lemma WaitsIff(p: Proc, q: Proc)
    requires ProcOk(p) && ProcOk(q)
    ensures p.stage.Blocks? && p.stage.held < p.n ==>
              (WaitsFor(p, q) <==> HoldsPage(q, Bid2Pid(p.start + p.stage.held)) && (p.xl || q.xl))
    ensures p.stage.Groups? && !p.stage.locked ==> (WaitsFor(p, q) <==> HoldsPage(q, DescriptorOf(p, p.stage.g)))
    ensures WaitsFor(p, q) ==>
              (p.stage.Blocks? && p.stage.held < p.n) || (p.stage.Groups? && !p.stage.locked)
  {
    if p.stage.Blocks? {
      PagesOfBlocks(p.start + p.stage.held);
    }
  }

  /** Two processes have one page locked only if both may share it: a block, by checkouts. */
  ghost predicate Compatible(p: Proc, q: Proc, page: nat) {
    HoldsPage(p, page) && HoldsPage(q, page) ==> page % PAGES_PER_GROUP != 0 && !p.xl && !q.xl
  }

  lemma AdvanceCompatible(p: Proc, q: Proc, setUp: bool, page: nat)
    requires ProcOk(p) && ProcOk(q) && Compatible(p, q, page) && !WaitsFor(p, q)
    ensures Compatible(Advance(p, setUp), q, page)
  {
    WaitsIff(p, q);
    if page % PAGES_PER_GROUP == 0 {
      AdvanceLocks(p, setUp, 0, page);
    } else {
      BlocksOfPages(page);
      AdvanceLocks(p, setUp, Pid2Bid(page), 0);
    }
  }

  /** At each step of a run some process that waits for nobody takes its next step. */
  ghost predicate Run(states: seq<seq<Proc>>, picks: seq<(nat, bool)>) {
    && |states| == |picks| + 1
    && (forall i :: 0 <= i < |states[0]| ==> ProcOk(states[0][i]) && states[0][i].stage == Blocks(0))
    && forall t :: 0 <= t < |picks| ==> RunStep(states, picks, t)
  }

  ghost predicate RunStep(states: seq<seq<Proc>>, picks: seq<(nat, bool)>, t: nat)
    requires t < |picks| && |states| == |picks| + 1
  {
    var s, i := states[t], picks[t].0;
    && i < |s| && (forall j :: 0 <= j < |s| && j != i ==> !WaitsFor(s[i], s[j]))
    && ProcOk(s[i]) && states[t + 1] == s[i := Advance(s[i], picks[t].1)]
  }

  /** In every reachable state a page is locked by one process alone, or shared by checkouts. */
  lemma {:induction false} LocksExclude(states: seq<seq<Proc>>, picks: seq<(nat, bool)>, t: nat, i: nat, j: nat,
                                        page: nat)
    requires Run(states, picks) && t < |states| && i < |states[t]| && j < |states[t]| && i != j
    ensures |states[t]| == |states[0]| && ProcOk(states[t][i]) && ProcOk(states[t][j])
    ensures Compatible(states[t][i], states[t][j], page)
  {
    if t > 0 {
      assert RunStep(states, picks, t - 1);
      LocksExclude(states, picks, t - 1, i, j, page);
      var s, k := states[t - 1], picks[t - 1].0;
      if k == i {
        AdvanceOk(s[i], picks[t - 1].1);
        AdvanceCompatible(s[i], s[j], picks[t - 1].1, page);
      } else if k == j {
        AdvanceOk(s[j], picks[t - 1].1);
        AdvanceCompatible(s[j], s[i], picks[t - 1].1, page);
      }
    } else {
      assert !HoldsPage(states[0][i], page);
    }
  }

  lemma AdvanceOk(p: Proc, setUp: bool)
    requires ProcOk(p)
    ensures ProcOk(Advance(p, setUp))
  {
  }
}
