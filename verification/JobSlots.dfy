/**
  The job slots that handles install jobs into and workers select jobs from, in turn, under
  one mutex. A method is one critical section; a hold that is up sends its caller back to wait.
 */
module JobSlots {
  import opened Circular
  import opened Sequences

  /** A slot is empty without a type, and new with a type but without an owner. */
  datatype Slot = Slot(jobtype: nat, owner: nat, jobid: nat) {
    predicate Empty() {
      owner == 0 && jobtype == 0
    }

    predicate New() {
      owner == 0 && jobtype != 0
    }
  }

  datatype Error = None | Closed | Rehold | Invalid

  datatype State = State(jobs: seq<Slot>, instNext: nat, acptNext: nat, emptyjobs: nat, newjobs: nat,
                         running: bool, hasjobs: bool, selectorhold: bool, installerhold: bool, nextjobid: nat)

  // ------------------------------------------------------------------ counts

  function CountEmpty(jobs: seq<Slot>): nat {
    if jobs == [] then 0 else CountEmpty(jobs[..|jobs| - 1]) + (if jobs[|jobs| - 1].Empty() then 1 else 0)
  }

  function CountNew(jobs: seq<Slot>): nat {
    if jobs == [] then 0 else CountNew(jobs[..|jobs| - 1]) + (if jobs[|jobs| - 1].New() then 1 else 0)
  }

  lemma {:induction false} CountsAfter(jobs: seq<Slot>, pos: nat, s: Slot)
    requires pos < |jobs|
    ensures CountEmpty(jobs[pos := s]) + (if jobs[pos].Empty() then 1 else 0) ==
            CountEmpty(jobs) + (if s.Empty() then 1 else 0)
    ensures CountNew(jobs[pos := s]) + (if jobs[pos].New() then 1 else 0) == CountNew(jobs) + (if s.New() then 1 else 0)
  {
    var n := |jobs| - 1;
    if pos == n {
      assert jobs[pos := s][..n] == jobs[..n];
    } else {
      assert jobs[pos := s][..n] == jobs[..n][pos := s];
      CountsAfter(jobs[..n], pos, s);
    }
  }

  lemma {:induction false} CountsTell(jobs: seq<Slot>)
    ensures CountEmpty(jobs) + CountNew(jobs) <= |jobs|
    ensures CountEmpty(jobs) > 0 ==> exists p :: 0 <= p < |jobs| && jobs[p].Empty()
    ensures CountNew(jobs) > 0 ==> exists p :: 0 <= p < |jobs| && jobs[p].New()
  {
    if jobs != [] {
      var front := jobs[..|jobs| - 1];
      CountsTell(front);
      assert forall p :: 0 <= p < |front| ==> front[p] == jobs[p];
    }
  }

  lemma {:induction false} AllEmpty(jobs: seq<Slot>)
    requires forall p :: 0 <= p < |jobs| ==> jobs[p].Empty()
    ensures CountEmpty(jobs) == |jobs| && CountNew(jobs) == 0
  {
    if jobs != [] {
      AllEmpty(jobs[..|jobs| - 1]);
    }
  }

  // ------------------------------------------------------------------ the circular search

  predicate Wanted(s: Slot, isNew: bool) {
    if isNew then s.New() else s.Empty()
  }

  /** `pos` is the first slot of its kind, going around from `from`. */
  ghost predicate FirstFrom(jobs: seq<Slot>, from: nat, pos: nat, isNew: bool) {
    && from < |jobs| && pos < |jobs| && Wanted(jobs[pos], isNew)
    && forall q :: 0 <= q < |jobs| && Distance(|jobs|, from, q) < Distance(|jobs|, from, pos) ==>
       !Wanted(jobs[q], isNew)
  }

  // ------------------------------------------------------------------ what the counters and holds say

  ghost predicate Counted(s: State) {
    && |s.jobs| >= 1 && s.instNext < |s.jobs| && s.acptNext < |s.jobs|
    && s.emptyjobs == CountEmpty(s.jobs) && s.newjobs == CountNew(s.jobs)
    && (forall p :: 0 <= p < |s.jobs| && s.jobs[p].owner != 0 ==> s.jobs[p].jobtype != 0)
  }

  ghost predicate Held(s: State) {
    && (s.hasjobs <==> s.emptyjobs != |s.jobs|)
    && (s.running ==> (s.selectorhold <==> s.newjobs == 0))
    && (s.running ==> (s.installerhold <==> s.emptyjobs == 0))
  }

  ghost predicate Ok(s: State) {
    Counted(s) && Held(s)
  }

  // ------------------------------------------------------------------ steps

  function Installed(s: State, pos: nat, jobtype: nat): State
    requires pos < |s.jobs| && s.emptyjobs >= 1
  {
    s.(jobs := s.jobs[pos := s.jobs[pos].(jobtype := jobtype, jobid := s.nextjobid)],
       nextjobid := s.nextjobid + 1, instNext := Wrap(pos + 1, |s.jobs|),
       emptyjobs := s.emptyjobs - 1, newjobs := s.newjobs + 1, hasjobs := true,
       installerhold := s.emptyjobs == 1 || s.installerhold, selectorhold := false)
  }

  function Selected(s: State, pos: nat, owner: nat): State
    requires pos < |s.jobs| && s.newjobs >= 1
  {
    s.(jobs := s.jobs[pos := s.jobs[pos].(owner := owner)],
       acptNext := Wrap(pos + 1, |s.jobs|),
       newjobs := s.newjobs - 1, selectorhold := s.newjobs == 1 || s.selectorhold)
  }

  function Emptied(s: State, pos: nat): State
    requires pos < |s.jobs|
  {
    s.(jobs := s.jobs[pos := s.jobs[pos].(jobtype := 0, owner := 0)], emptyjobs := s.emptyjobs + 1,
       hasjobs := s.hasjobs && s.emptyjobs + 1 != |s.jobs|, installerhold := false)
  }

  function Stopped(s: State): State {
    s.(running := false, selectorhold := false, installerhold := false)
  }

  lemma InstallOk(s: State, pos: nat, jobtype: nat)
    requires Ok(s) && s.running && !s.installerhold && jobtype != 0 && FirstFrom(s.jobs, s.instNext, pos, false)
    ensures s.emptyjobs >= 1 && Ok(Installed(s, pos, jobtype))
  {
    CountsAfter(s.jobs, pos, s.jobs[pos].(jobtype := jobtype, jobid := s.nextjobid));
    CountsTell(s.jobs);
  }

  lemma SelectOk(s: State, pos: nat, owner: nat)
    requires Ok(s) && owner != 0 && s.newjobs >= 1 && FirstFrom(s.jobs, s.acptNext, pos, true)
    ensures Ok(Selected(s, pos, owner))
  {
    CountsAfter(s.jobs, pos, s.jobs[pos].(owner := owner));
  }

  lemma CloseOk(s: State, pos: nat)
    requires Ok(s) && pos < |s.jobs| && s.jobs[pos].owner != 0
    ensures Ok(Emptied(s, pos))
  {
    CountsAfter(s.jobs, pos, s.jobs[pos].(jobtype := 0, owner := 0));
    CountsTell(s.jobs);
    CountsTell(Emptied(s, pos).jobs);
  }

  // ------------------------------------------------------------------ runs

  /** One critical section that changed the slots. */
  datatype Event = Install(pos: nat, jobtype: nat) | Select(pos: nat, owner: nat) | Close(pos: nat) | Stop

  ghost predicate Step(s: State, e: Event, next: State) {
    match e
    case Install(pos, jobtype) =>
      s.running && !s.installerhold && jobtype != 0 && FirstFrom(s.jobs, s.instNext, pos, false)
      && s.emptyjobs >= 1 && next == Installed(s, pos, jobtype)
    case Select(pos, owner) =>
      owner != 0 && s.newjobs >= 1 && FirstFrom(s.jobs, s.acptNext, pos, true) && next == Selected(s, pos, owner)
    case Close(pos) => pos < |s.jobs| && s.jobs[pos].owner != 0 && next == Emptied(s, pos)
    case Stop => next == Stopped(s)
  }

  ghost predicate Run(states: seq<State>, events: seq<Event>) {
    && |states| == |events| + 1 && Ok(states[0])
    && forall t :: 0 <= t < |events| ==> Step(states[t], events[t], states[t + 1])
  }

  lemma {:induction false} RunOk(states: seq<State>, events: seq<Event>, t: nat)
    requires Run(states, events) && t < |states|
    ensures Ok(states[t]) && |states[t].jobs| == |states[0].jobs|
  {
    if t > 0 {
      RunOk(states, events, t - 1);
      var s := states[t - 1];
      assert Step(s, events[t - 1], states[t - 1 + 1]);
      match events[t - 1]
      case Install(pos, jobtype) => InstallOk(s, pos, jobtype);
      case Select(pos, owner) => SelectOk(s, pos, owner);
      case Close(pos) => CloseOk(s, pos);
      case Stop =>
    }
  }

  function Selects(events: seq<Event>): nat {
    if events == [] then 0 else Selects(events[..|events| - 1]) + (if events[|events| - 1].Select? then 1 else 0)
  }

  /** While a new job waits, every select of another one brings the search one slot nearer to it. */
  lemma WaitsCloser(s: State, e: Event, next: State, p: nat)
    requires Ok(s) && Step(s, e, next) && p < |s.jobs| && s.jobs[p].New() && !(e.Select? && e.pos == p)
    ensures |next.jobs| == |s.jobs| && next.jobs[p] == s.jobs[p] && next.acptNext < |s.jobs|
    ensures Distance(|s.jobs|, next.acptNext, p) + (if e.Select? then 1 else 0) <= Distance(|s.jobs|, s.acptNext, p)
  {
    if e.Select? {
      assert Wanted(s.jobs[p], true);
    }
  }

  lemma {:induction false} WaitingJob(states: seq<State>, events: seq<Event>, p: nat, t: nat)
    requires Run(states, events) && t < |states| && p < |states[0].jobs| && states[0].jobs[p].New()
    requires forall u :: 0 <= u < t ==> !(events[u].Select? && events[u].pos == p)
    ensures |states[t].jobs| == |states[0].jobs| && states[t].jobs[p] == states[0].jobs[p]
    ensures states[0].acptNext < |states[0].jobs| && states[t].acptNext < |states[0].jobs|
    ensures var n := |states[0].jobs|;
            Distance(n, states[t].acptNext, p) + Selects(events[..t]) <= Distance(n, states[0].acptNext, p)
  {
    if t > 0 {
      WaitingJob(states, events, p, t - 1);
      RunOk(states, events, t - 1);
      assert Step(states[t - 1], events[t - 1], states[t - 1 + 1]);
      WaitsCloser(states[t - 1], events[t - 1], states[t], p);
      assert events[..t][..t - 1] == events[..t - 1];
    }
  }

  /**
    No job is passed over for long: from any state of a run in which it is new, fewer selects
    of other jobs than there are slots happen before its own, whatever else goes on.
   */
  lemma {:induction false} BoundedBypass(states: seq<State>, events: seq<Event>, p: nat)
    requires Run(states, events) && p < |states[0].jobs| && states[0].jobs[p].New()
    requires forall u :: 0 <= u < |events| ==> !(events[u].Select? && events[u].pos == p)
    ensures Selects(events) < |states[0].jobs|
    ensures |states[|events|].jobs| == |states[0].jobs| && states[|events|].jobs[p] == states[0].jobs[p]
  {
    WaitingJob(states, events, p, |events|);
    assert events[..|events|] == events;
  }

  /** A job that has an owner keeps it: nobody else selects it before it is closed. */
  lemma {:induction false} OneOwner(states: seq<State>, events: seq<Event>, p: nat, t: nat)
    requires Run(states, events) && t < |states| && p < |states[0].jobs| && states[0].jobs[p].owner != 0
    requires forall u :: 0 <= u < t ==> events[u] != Close(p)
    ensures |states[t].jobs| == |states[0].jobs| && states[t].jobs[p] == states[0].jobs[p]
    ensures forall u :: 0 <= u < t ==> !(events[u].Select? && events[u].pos == p)
  {
    if t > 0 {
      OneOwner(states, events, p, t - 1);
      assert Step(states[t - 1], events[t - 1], states[t - 1 + 1]);
    }
  }

  // ------------------------------------------------------------------ what becomes of a job

  /** From its install to its close a slot holds the job that was installed: its type, and the number it was given. */
  lemma {:induction false} JobKept(states: seq<State>, events: seq<Event>, p: nat, jobtype: nat, u: nat, t: nat)
    requires Run(states, events) && u < t < |states| && events[u] == Install(p, jobtype)
    requires forall v :: u < v < t ==> events[v] != Close(p)
    ensures p < |states[t].jobs| && states[t].jobs[p].jobtype == jobtype && jobtype != 0
    ensures states[t].jobs[p].jobid == states[u].nextjobid
    ensures forall v :: u < v < t ==> !(events[v].Install? && events[v].pos == p)
  {
    assert Step(states[t - 1], events[t - 1], states[t - 1 + 1]);
    if t > u + 1 {
      JobKept(states, events, p, jobtype, u, t - 1);
    }
  }

  lemma RunSuffix(states: seq<State>, events: seq<Event>, u: nat)
    requires Run(states, events) && u < |states|
    ensures Run(states[u..], events[u..])
  {
    RunOk(states, events, u);
    forall t | 0 <= t < |events[u..]|
      ensures Step(states[u..][t], events[u..][t], states[u..][t + 1])
    {
      assert Step(states[u + t], events[u + t], states[u + t + 1]);
    }
  }

  /** From its select to its close a job belongs to the worker that selected it. */
  lemma OwnerKept(states: seq<State>, events: seq<Event>, p: nat, owner: nat, u: nat, t: nat)
    requires Run(states, events) && u < t < |states| && events[u] == Select(p, owner)
    requires forall v :: u < v < t ==> events[v] != Close(p)
    ensures p < |states[t].jobs| && states[t].jobs[p].owner == owner && owner != 0
    ensures forall v :: u < v < t ==> !(events[v].Select? && events[v].pos == p)
  {
    assert Step(states[u], events[u], states[u + 1]);
    RunSuffix(states, events, u + 1);
    var later := events[u + 1..];
    OneOwner(states[u + 1..], later, p, t - (u + 1));
    forall v | u < v < t
      ensures !(events[v].Select? && events[v].pos == p)
    {
      assert events[v] == later[v - (u + 1)];
    }
  }

  lemma {:induction false} NumbersGrow(states: seq<State>, events: seq<Event>, u: nat, t: nat)
    requires Run(states, events) && u <= t < |states|
    ensures states[u].nextjobid <= states[t].nextjobid
  {
    if u < t {
      NumbersGrow(states, events, u, t - 1);
      assert Step(states[t - 1], events[t - 1], states[t - 1 + 1]);
    }
  }

  /** No two installs are given the same number. */
  lemma DistinctNumbers(states: seq<State>, events: seq<Event>, u: nat, t: nat)
    requires Run(states, events) && u < t < |events| && events[u].Install? && events[t].Install?
    ensures events[u].pos < |states[u + 1].jobs| && events[t].pos < |states[t + 1].jobs|
    ensures states[u + 1].jobs[events[u].pos].jobid < states[t + 1].jobs[events[t].pos].jobid
  {
    JobKept(states, events, events[u].pos, events[u].jobtype, u, u + 1);
    JobKept(states, events, events[t].pos, events[t].jobtype, t, t + 1);
    assert Step(states[u], events[u], states[u + 1]);
    NumbersGrow(states, events, u + 1, t);
  }

  lemma {:induction false} AllAreEmpty(jobs: seq<Slot>, p: nat)
    requires CountEmpty(jobs) == |jobs| && p < |jobs|
    ensures jobs[p].Empty()
  {
    CountsTell(jobs[..|jobs| - 1]);
    if p < |jobs| - 1 {
      AllAreEmpty(jobs[..|jobs| - 1], p);
    }
  }

  /**
    From the stop of the host on nothing is installed, so that the jobs it still had are selected
    once each. The hold of the selectors, which the stop takes down, goes up again exactly when
    the last of them was selected, although nobody is left to take it down.
   */
  lemma {:induction false} StoppedDrains(states: seq<State>, events: seq<Event>, e: nat, t: nat)
    requires Run(states, events) && e < t < |states| && events[e].Stop?
    requires forall u :: e < u < t ==> !events[u].Stop?
    ensures !states[t].running && !states[t].installerhold && forall u :: e < u < t ==> !events[u].Install?
    ensures states[t].newjobs + Selects(events[e + 1..t]) == states[e].newjobs
    ensures states[t].selectorhold <==> Selects(events[e + 1..t]) > 0 && states[t].newjobs == 0
  {
    assert Step(states[t - 1], events[t - 1], states[t - 1 + 1]);
    if t > e + 1 {
      StoppedDrains(states, events, e, t - 1);
      assert events[e + 1..t][..t - 1 - (e + 1)] == events[e + 1..t - 1];
    }
  }

  /** What the host waits for when it closes: then every slot is empty, and stays so. */
  lemma {:induction false} StoppedAndEmpty(states: seq<State>, events: seq<Event>, t: nat)
    requires Run(states, events) && t < |states| && !states[0].running && !states[0].hasjobs
    ensures !states[t].running && !states[t].hasjobs
    ensures forall p :: 0 <= p < |states[t].jobs| ==> states[t].jobs[p].Empty()
  {
    RunOk(states, events, t);
    if t > 0 {
      StoppedAndEmpty(states, events, t - 1);
      assert Step(states[t - 1], events[t - 1], states[t - 1 + 1]);
    } else {
      forall p | 0 <= p < |states[0].jobs|
        ensures states[0].jobs[p].Empty()
      {
        AllAreEmpty(states[0].jobs, p);
      }
    }
  }

  class Slots {
    const jobv: array<Slot>

    var jobinstNext: nat
    var jobacptNext: nat
    var emptyjobs: nat
    var newjobs: nat
    var running: bool
    var hasjobs: bool
    var selectorhold: bool
    var installerhold: bool
    var nextjobid: nat

    ghost function Now(): State
      reads this, jobv
    {
      State(jobv[..], jobinstNext, jobacptNext, emptyjobs, newjobs, running, hasjobs, selectorhold, installerhold,
          nextjobid)
    }

    ghost predicate Valid()
      reads this, jobv
    {
      Ok(Now())
    }

    constructor (jobc: nat)
      requires jobc >= 1
      ensures Valid() && fresh(jobv) && jobv.Length == jobc && running
      ensures forall p :: 0 <= p < jobc ==> jobv[p] == Slot(0, 0, 0)
      ensures jobinstNext == 0 && jobacptNext == 0 && nextjobid == 0
    {
      jobv := new Slot[jobc](_ => Slot(0, 0, 0));
      jobinstNext, jobacptNext, emptyjobs, newjobs, nextjobid := 0, 0, jobc, 0, 0;
      running, hasjobs, selectorhold, installerhold := true, false, true, false;
      new;
      AllEmpty(jobv[..]);
    }

    /** Goes around the slots from `from` to the first of a kind that is known to be there. */
    method Search(from: nat, isNew: bool) returns (pos: nat, next: nat)
      requires from < jobv.Length && exists p :: 0 <= p < jobv.Length && Wanted(jobv[..][p], isNew)
      ensures FirstFrom(jobv[..], from, pos, isNew) && next == Wrap(pos + 1, jobv.Length)
    {
      var jobc := jobv.Length;
      ghost var p :| 0 <= p < jobc && Wanted(jobv[..][p], isNew);
      pos, next := from, Wrap(from + 1, jobc);
      var i := 0;
      while !Wanted(jobv[pos], isNew)
        invariant 0 <= i < jobc && pos < jobc && Distance(jobc, from, pos) == i && next == Wrap(pos + 1, jobc)
        invariant i <= Distance(jobc, from, p)
        invariant forall q :: 0 <= q < jobc && Distance(jobc, from, q) < i ==> !Wanted(jobv[..][q], isNew)
        decreases jobc - i
      {
        assert p != pos;
        pos := next;
        next := Wrap(next + 1, jobc);
        i := i + 1;
      }
    }

    method JobInstall(jobtype: nat) returns (err: Error, pos: nat)
      requires Valid() && jobtype != 0
      modifies this, jobv
      ensures Valid()
      ensures err == if !old(running) then Closed else if old(installerhold) then Rehold else None
      ensures err != None ==> Now() == old(Now())
      ensures err == None ==>
                && FirstFrom(old(jobv[..]), old(jobinstNext), pos, false) && old(emptyjobs) >= 1
                && Now() == Installed(old(Now()), pos, jobtype) && Step(old(Now()), Install(pos, jobtype), Now())
      ensures err == None ==>
                && pos < jobv.Length && ChangedAt(old(jobv[..]), jobv[..], pos)
                && jobv[pos].jobtype == jobtype && jobv[pos].owner == 0
                && jobv[pos].jobid == old(nextjobid) && nextjobid == old(nextjobid) + 1
                && jobinstNext == (pos + 1) % jobv.Length && jobacptNext == old(jobacptNext) && running
    {
      if !running {
        return Closed, 0;
      }
      if installerhold {
        return Rehold, 0;
      }
      ghost var s := Now();
      CountsTell(jobv[..]);
      var next;
      pos, next := Search(jobinstNext, false);
      WrapIsRemainder(pos, jobv.Length);
      InstallOk(s, pos, jobtype);
      FillSlot(pos, next, jobtype);
      err := None;
    }

    method FillSlot(pos: nat, next: nat, jobtype: nat)
      requires pos < jobv.Length && next == Wrap(pos + 1, jobv.Length) && emptyjobs >= 1
      modifies this, jobv
      ensures Now() == Installed(old(Now()), pos, jobtype)
    {
      ghost var s := Now();
      jobinstNext := next;
      jobv[pos] := jobv[pos].(jobtype := jobtype, jobid := nextjobid);
      nextjobid := nextjobid + 1;
      emptyjobs := emptyjobs - 1;
      hasjobs := true;
      if emptyjobs == 0 {
        installerhold := true;
      }
      if selectorhold {
        selectorhold := false;
      }
      newjobs := newjobs + 1;
      assert jobv[..] == Installed(s, pos, jobtype).jobs;
    }

    method JobSelect(ownerid: nat) returns (err: Error, pos: nat)
      requires Valid()
      modifies this, jobv
      ensures Valid()
      ensures err == if ownerid == 0 then Invalid
                     else if old(newjobs) == 0 && !old(running) then Closed
                     else if old(selectorhold) then Rehold else None
      ensures err != None ==> Now() == old(Now())
      ensures err == None ==>
                && FirstFrom(old(jobv[..]), old(jobacptNext), pos, true) && old(newjobs) >= 1
                && Now() == Selected(old(Now()), pos, ownerid) && Step(old(Now()), Select(pos, ownerid), Now())
      ensures err == None ==>
                && pos < jobv.Length && ChangedAt(old(jobv[..]), jobv[..], pos)
                && jobv[pos].owner == ownerid
                && jobv[pos].jobtype == old(jobv[..])[pos].jobtype && jobv[pos].jobid == old(jobv[..])[pos].jobid
                && jobacptNext == (pos + 1) % jobv.Length && jobinstNext == old(jobinstNext)
                && nextjobid == old(nextjobid) && running == old(running)
    {
      if ownerid == 0 {
        return Invalid, 0;
      }
      if newjobs == 0 && !running {
        return Closed, 0;
      }
      if selectorhold {
        return Rehold, 0;
      }
      ghost var s := Now();
      CountsTell(jobv[..]);
      var next;
      pos, next := Search(jobacptNext, true);
      WrapIsRemainder(pos, jobv.Length);
      SelectOk(s, pos, ownerid);
      TakeSlot(pos, next, ownerid);
      err := None;
    }

    method TakeSlot(pos: nat, next: nat, ownerid: nat)
      requires pos < jobv.Length && next == Wrap(pos + 1, jobv.Length) && newjobs >= 1
      modifies this, jobv
      ensures Now() == Selected(old(Now()), pos, ownerid)
    {
      ghost var s := Now();
      jobacptNext := next;
      jobv[pos] := jobv[pos].(owner := ownerid);
      newjobs := newjobs - 1;
      if newjobs == 0 {
        selectorhold := true;
      }
      assert jobv[..] == Selected(s, pos, ownerid).jobs;
    }

    /** The worker that owns a job gives its slot back. */
    method JobClose(pos: nat)
      requires Valid() && pos < jobv.Length && jobv[pos].owner != 0
      modifies this, jobv
      ensures Valid() && Now() == Emptied(old(Now()), pos) && Step(old(Now()), Close(pos), Now())
      ensures ChangedAt(old(jobv[..]), jobv[..], pos) && jobv[pos].Empty() && !installerhold
      ensures jobinstNext == old(jobinstNext) && jobacptNext == old(jobacptNext)
      ensures nextjobid == old(nextjobid) && running == old(running) && selectorhold == old(selectorhold)
    {
      ghost var s := Now();
      CloseOk(s, pos);
      jobv[pos] := jobv[pos].(jobtype := 0, owner := 0);
      emptyjobs := emptyjobs + 1;
      if emptyjobs == jobv.Length {
        hasjobs := false;
      }
      if installerhold {
        installerhold := false;
      }
      assert jobv[..] == Emptied(s, pos).jobs;
    }

    method HostClose()
      requires Valid()
      modifies this
      ensures Valid() && Now() == Stopped(old(Now())) && Step(old(Now()), Stop, Now())
      ensures !running && !selectorhold && !installerhold
      ensures jobinstNext == old(jobinstNext) && jobacptNext == old(jobacptNext) && nextjobid == old(nextjobid)
    {
      running, selectorhold, installerhold := false, false, false;
    }
  }
}
