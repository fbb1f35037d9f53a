/**
  The clutch lock of an entry: two bytes of the file, locked one after the other, so that whoever
  wants the entry exclusively can keep newcomers out while it waits for those inside to leave.
 */
module Clutch {

  /**
    A process on its way through the clutch: it wants the first byte, owns it and wants the
    second, owns both, or owns the second only, which is to hold the entry.
   */
  datatype Proc = Outside | Arriving(xl: bool) | Engaging(xl: bool) | Engaged(xl: bool) | Inside(xl: bool)

  predicate OwnsFirst(p: Proc) {
    p.Engaging? || p.Engaged?
  }

  predicate OwnsSecond(p: Proc) {
    p.Engaged? || p.Inside?
  }

  predicate Exclusive(p: Proc) {
    !p.Outside? && p.xl
  }

  /** No other process owns the byte in a conflicting mode. */
  predicate FirstFree(procs: seq<Proc>, i: nat)
    requires i < |procs|
  {
    forall j :: 0 <= j < |procs| && j != i && OwnsFirst(procs[j]) ==> !Exclusive(procs[i]) && !Exclusive(procs[j])
  }

  predicate SecondFree(procs: seq<Proc>, i: nat)
    requires i < |procs|
  {
    forall j :: 0 <= j < |procs| && j != i && OwnsSecond(procs[j]) ==> !Exclusive(procs[i]) && !Exclusive(procs[j])
  }

  /** The next step of process `i`; one that waits for a byte stays where it is, one outside asks for mode `xl`. */
  function Next(procs: seq<Proc>, i: nat, xl: bool): seq<Proc>
    requires i < |procs|
  {
    match procs[i]
    case Outside => procs[i := Arriving(xl)]
    case Arriving(m) => if FirstFree(procs, i) then procs[i := Engaging(m)] else procs
    case Engaging(m) => if SecondFree(procs, i) then procs[i := Engaged(m)] else procs
    case Engaged(m) => procs[i := Inside(m)]
    case Inside(_) => procs[i := Outside]
  }

  ghost predicate Compatible(p: Proc, q: Proc) {
    && (OwnsFirst(p) && OwnsFirst(q) ==> !Exclusive(p) && !Exclusive(q))
    && (OwnsSecond(p) && OwnsSecond(q) ==> !Exclusive(p) && !Exclusive(q))
  }

  ghost predicate PairOk(procs: seq<Proc>, i: nat, j: nat)
    requires i < |procs| && j < |procs|
  {
    Compatible(procs[i], procs[j])
  }

  ghost predicate Inv(procs: seq<Proc>) {
    forall i, j :: 0 <= i < |procs| && 0 <= j < |procs| && i != j ==> PairOk(procs, i, j)
  }

  lemma StepKeeps(procs: seq<Proc>, i: nat, xl: bool)
    requires Inv(procs) && i < |procs|
    ensures Inv(Next(procs, i, xl))
  {
    var next := Next(procs, i, xl);
    forall a, b | 0 <= a < |next| && 0 <= b < |next| && a != b
      ensures PairOk(next, a, b)
    {
      assert PairOk(procs, a, b);
    }
  }

  ghost predicate Run(states: seq<seq<Proc>>, picks: seq<(nat, bool)>) {
    && |states| == |picks| + 1
    && (forall i :: 0 <= i < |states[0]| ==> states[0][i] == Outside)
    && forall t :: 0 <= t < |picks| ==> RunStep(states, picks, t)
  }

  ghost predicate RunStep(states: seq<seq<Proc>>, picks: seq<(nat, bool)>, t: nat)
    requires t < |picks| && |states| == |picks| + 1
  {
    picks[t].0 < |states[t]| && states[t + 1] == Next(states[t], picks[t].0, picks[t].1)
  }

  lemma {:induction false} RunKeeps(states: seq<seq<Proc>>, picks: seq<(nat, bool)>, t: nat)
    requires Run(states, picks) && t < |states|
    ensures Inv(states[t]) && |states[t]| == |states[0]|
  {
    if t == 0 {
      assert forall i, j :: 0 <= i < |states[0]| && 0 <= j < |states[0]| ==> PairOk(states[0], i, j);
    } else {
      RunKeeps(states, picks, t - 1);
      assert RunStep(states, picks, t - 1);
      StepKeeps(states[t - 1], picks[t - 1].0, picks[t - 1].1);
    }
  }

  /** In every reachable state, whoever holds the entry exclusively holds it alone. */
  lemma ExclusiveAlone(states: seq<seq<Proc>>, picks: seq<(nat, bool)>, t: nat, i: nat, j: nat)
    requires Run(states, picks) && t < |states| && i < |states[t]| && j < |states[t]| && i != j
    requires OwnsSecond(states[t][i]) && Exclusive(states[t][i])
    ensures !OwnsSecond(states[t][j])
  {
    RunKeeps(states, picks, t);
    assert PairOk(states[t], i, j);
  }

  /**
    Once a process that wants the entry exclusively owns the first byte, nobody enters before it:
    those who hold the entry later are, but for itself, among those who hold it now.
   */
  lemma {:induction false} OnlyLeaving(states: seq<seq<Proc>>, picks: seq<(nat, bool)>, t: nat, u: nat, i: nat, j: nat)
    requires Run(states, picks) && t <= u < |states| && i < |states[t]| && j < |states[t]| && j != i
    requires forall v :: t <= v <= u ==> i < |states[v]| && states[v][i] == Engaging(true)
    ensures j < |states[u]| && (OwnsSecond(states[u][j]) ==> OwnsSecond(states[t][j]))
  {
    RunKeeps(states, picks, u);
    RunKeeps(states, picks, t);
    if t < u {
      OnlyLeaving(states, picks, t, u - 1, i, j);
      RunKeeps(states, picks, u - 1);
      assert RunStep(states, picks, u - 1);
      assert PairOk(states[u - 1], i, j) && states[u - 1][i] == Engaging(true);
    }
  }

  /** It enters at its first step after the last of them has left. */
  lemma EntersWhenEmpty(procs: seq<Proc>, i: nat, xl: bool)
    requires i < |procs| && procs[i] == Engaging(true)
    ensures Next(procs, i, xl)[i] == Engaged(true) <==> forall j :: 0 <= j < |procs| && j != i ==> !OwnsSecond(procs[j])
  {
    SecondGranted(procs, i, xl);
  }

  // ------------------------------------------------------------------ who waits, and for whom

  /**
    The first byte is granted to a shared requester unless somebody owns it exclusively, and to an
    exclusive one if nobody owns it.
  */
  lemma FirstGranted(procs: seq<Proc>, i: nat, xl: bool)
    requires i < |procs| && procs[i].Arriving?
    ensures !procs[i].xl ==>
              (Next(procs, i, xl)[i] == Engaging(false) <==>
               forall j :: 0 <= j < |procs| && j != i ==> !(OwnsFirst(procs[j]) && Exclusive(procs[j])))
    ensures procs[i].xl ==>
              (Next(procs, i, xl)[i] == Engaging(true) <==>
               forall j :: 0 <= j < |procs| && j != i ==> !OwnsFirst(procs[j]))
    ensures Next(procs, i, xl) == procs || Next(procs, i, xl) == procs[i := Engaging(procs[i].xl)]
  {
    assert Exclusive(procs[i]) <==> procs[i].xl;
  }

  /** And so is the second byte, to those who own the first. */
  lemma SecondGranted(procs: seq<Proc>, i: nat, xl: bool)
    requires i < |procs| && procs[i].Engaging?
    ensures !procs[i].xl ==>
              (Next(procs, i, xl)[i] == Engaged(false) <==>
               forall j :: 0 <= j < |procs| && j != i ==> !(OwnsSecond(procs[j]) && Exclusive(procs[j])))
    ensures procs[i].xl ==>
              (Next(procs, i, xl)[i] == Engaged(true) <==>
               forall j :: 0 <= j < |procs| && j != i ==> !OwnsSecond(procs[j]))
    ensures Next(procs, i, xl) == procs || Next(procs, i, xl) == procs[i := Engaged(procs[i].xl)]
  {
    assert Exclusive(procs[i]) <==> procs[i].xl;
  }

  /**
    What a step does to the bytes of its process, and to nobody else: the first byte is taken, the
    second is taken while the first is kept, the first is released, and the second is released.
    One step changes one byte at most, and only a process that owns neither begins anew.
   */
  lemma StepBytes(procs: seq<Proc>, i: nat, xl: bool)
    requires i < |procs|
    ensures |Next(procs, i, xl)| == |procs|
    ensures forall j :: 0 <= j < |procs| && j != i ==> Next(procs, i, xl)[j] == procs[j]
    ensures var p, q := procs[i], Next(procs, i, xl)[i];
            if !OwnsFirst(p) && !OwnsSecond(p) then
              && !OwnsSecond(q) && (p.Outside? ==> q == Arriving(xl))
              && (p.Arriving? ==> q == p || (OwnsFirst(q) && q.xl == p.xl))
            else if OwnsFirst(p) && !OwnsSecond(p) then
              q == p || (OwnsFirst(q) && OwnsSecond(q) && q.xl == p.xl)
            else if OwnsFirst(p) then
              !OwnsFirst(q) && OwnsSecond(q) && q.xl == p.xl
            else q == Outside
    ensures !OwnsFirst(Outside) && !OwnsSecond(Outside)
  {
  }

  /** While nobody wants the entry exclusively, no step ever waits. */
  lemma SharedNeverWait(procs: seq<Proc>, i: nat, xl: bool)
    requires i < |procs| && forall j :: 0 <= j < |procs| ==> !Exclusive(procs[j])
    ensures Next(procs, i, xl)[i] != procs[i]
  {
    match procs[i]
    case Outside =>
    case Arriving(_) => FirstGranted(procs, i, xl);
    case Engaging(_) => SecondGranted(procs, i, xl);
    case Engaged(_) =>
    case Inside(_) =>
  }

  /** In every run a process goes through the clutch in the mode it asked for when it was outside. */
  lemma {:induction false} ModeKept(states: seq<seq<Proc>>, picks: seq<(nat, bool)>, t: nat, u: nat, i: nat)
    requires Run(states, picks) && t < u < |states| && picks[t].0 == i && i < |states[t]| && states[t][i] == Outside
    requires forall v :: t < v <= u ==> i < |states[v]| && !states[v][i].Outside?
    ensures Exclusive(states[u][i]) <==> picks[t].1
  {
    assert RunStep(states, picks, u - 1);
    StepBytes(states[u - 1], picks[u - 1].0, picks[u - 1].1);
    if t + 1 < u {
      ModeKept(states, picks, t, u - 1, i);
    }
  }
}
