/**
  The page cache: slots that hold mapped pages, and handles that each keep at most one slot from
  being given to another page. A method is one critical section under the page mutex, or the
  end of a swap that a handle makes outside of it.
 */
module PageCache {
  import opened Circular
  import opened Sequences

  /** `page` is the page that is mapped, 0 for none; `swapping` says that `id` is not mapped yet. */
  datatype Slot = Slot(id: nat, page: nat, locks: nat, score: nat, k0: nat, k1: nat, swapping: bool)

  /** What a handle is doing: loading a page into its slot, waiting for another's load, or using the page. */
  datatype Handle = Idle | Loading(slot: nat, id: nat) | Waiting(slot: nat, id: nat) | Using(slot: nat, id: nat)

  const SCORE_MAX: nat := 0xFFFF_FFFF

  predicate Holds(h: Handle, s: nat) {
    !h.Idle? && h.slot == s
  }

  // ------------------------------------------------------------------ counting

  function HoldCount(handles: seq<Handle>, s: nat): nat {
    if handles == [] then 0
    else HoldCount(handles[..|handles| - 1], s) + (if Holds(handles[|handles| - 1], s) then 1 else 0)
  }

  function Busy(handles: seq<Handle>): nat {
    if handles == [] then 0
    else Busy(handles[..|handles| - 1]) + (if handles[|handles| - 1].Idle? then 0 else 1)
  }

  lemma {:induction false} CountAfter(handles: seq<Handle>, i: nat, h: Handle, s: nat)
    requires i < |handles|
    ensures HoldCount(handles[i := h], s) + (if Holds(handles[i], s) then 1 else 0) ==
            HoldCount(handles, s) + (if Holds(h, s) then 1 else 0)
  {
    var n := |handles| - 1;
    if i == n {
      assert handles[i := h][..n] == handles[..n];
    } else {
      assert handles[i := h][..n] == handles[..n][i := h];
      CountAfter(handles[..n], i, h, s);
    }
  }

  /** How many handles hold one of the first `n` slots. */
  function HoldersBelow(handles: seq<Handle>, n: nat): nat {
    if n == 0 then 0 else HoldersBelow(handles, n - 1) + HoldCount(handles, n - 1)
  }

  lemma {:induction false} HoldersOfLast(handles: seq<Handle>, n: nat)
    requires handles != []
    ensures var last := handles[|handles| - 1];
            HoldersBelow(handles, n) ==
            HoldersBelow(handles[..|handles| - 1], n) + (if !last.Idle? && last.slot < n then 1 else 0)
  {
    if n > 0 {
      HoldersOfLast(handles, n - 1);
    }
  }

  lemma {:induction false} HoldersAreBusy(handles: seq<Handle>, n: nat)
    ensures HoldersBelow(handles, n) <= Busy(handles)
  {
    if handles == [] {
      NoHolders(n);
    } else {
      HoldersOfLast(handles, n);
      HoldersAreBusy(handles[..|handles| - 1], n);
    }
  }

  lemma {:induction false} NoHolders(n: nat)
    ensures HoldersBelow([], n) == 0
  {
    if n > 0 {
      NoHolders(n - 1);
    }
  }

  lemma {:induction false} BusyBound(handles: seq<Handle>, i: nat)
    requires i < |handles| && handles[i].Idle?
    ensures Busy(handles) < |handles|
  {
    var front := handles[..|handles| - 1];
    if i == |handles| - 1 {
      AllBusyBound(front);
    } else {
      BusyBound(front, i);
    }
  }

  lemma {:induction false} AllBusyBound(handles: seq<Handle>)
    ensures Busy(handles) <= |handles|
  {
    if handles != [] {
      AllBusyBound(handles[..|handles| - 1]);
    }
  }

  lemma {:induction false} AllHeld(handles: seq<Handle>, n: nat)
    requires forall s :: 0 <= s < n ==> HoldCount(handles, s) >= 1
    ensures HoldersBelow(handles, n) >= n
  {
    if n > 0 {
      AllHeld(handles, n - 1);
    }
  }

  /** With no more handles than slots, a handle that holds no slot finds one that nobody holds. */
  lemma {:induction false} SomeSlotFree(handles: seq<Handle>, i: nat, n: nat)
    requires i < |handles| <= n && handles[i].Idle?
    ensures exists s :: 0 <= s < n && HoldCount(handles, s) == 0
  {
    if forall s :: 0 <= s < n ==> HoldCount(handles, s) >= 1 {
      AllHeld(handles, n);
      HoldersAreBusy(handles, n);
      BusyBound(handles, i);
      assert false;
    }
  }

  // ------------------------------------------------------------------ the invariant

  ghost predicate SlotOk(slots: seq<Slot>, handles: seq<Handle>, s: nat)
    requires s < |slots|
  {
    && slots[s].locks == HoldCount(handles, s) && slots[s].score < SCORE_MAX
    && (!slots[s].swapping ==> slots[s].page == slots[s].id)
    && (slots[s].swapping ==> exists i :: 0 <= i < |handles| && handles[i] == Loading(s, slots[s].id))
  }

  ghost predicate SameIdSameSlot(slots: seq<Slot>, a: nat, b: nat)
    requires a < |slots| && b < |slots|
  {
    slots[a].id != slots[b].id || slots[a].id == 0
  }

  /** A handle that has a page has it in its slot, loaded unless it is being loaded. */
  ghost predicate HandleOk(slots: seq<Slot>, handles: seq<Handle>, i: nat)
    requires i < |handles|
  {
    var h := handles[i];
    && (!h.Idle? ==> h.slot < |slots| && h.id != 0 && slots[h.slot].id == h.id)
    && (h.Loading? ==> slots[h.slot].swapping)
    && (h.Using? ==> !slots[h.slot].swapping)
  }

  ghost predicate OneLoader(handles: seq<Handle>, i: nat, j: nat)
    requires i < |handles| && j < |handles|
  {
    !(handles[i].Loading? && handles[j].Loading? && handles[i].slot == handles[j].slot)
  }

  ghost predicate Ok(slots: seq<Slot>, handles: seq<Handle>) {
    && |handles| <= |slots|
    && (forall s :: 0 <= s < |slots| ==> SlotOk(slots, handles, s))
    && (forall a, b :: 0 <= a < b < |slots| ==> SameIdSameSlot(slots, a, b))
    && (forall i :: 0 <= i < |handles| ==> HandleOk(slots, handles, i))
    && (forall i, j :: 0 <= i < j < |handles| ==> OneLoader(handles, i, j))
  }

  /** What a handle uses is the page it asked for, mapped, and no other slot has it. */
  lemma UsingIsMapped(slots: seq<Slot>, handles: seq<Handle>, i: nat)
    requires Ok(slots, handles) && i < |handles| && handles[i].Using?
    ensures handles[i].slot < |slots| && slots[handles[i].slot].page == handles[i].id
    ensures slots[handles[i].slot].locks >= 1
    ensures forall s :: 0 <= s < |slots| && s != handles[i].slot ==> slots[s].id != handles[i].id
  {
    var h := handles[i];
    assert HandleOk(slots, handles, i) && SlotOk(slots, handles, h.slot);
    CountAfter(handles, i, Idle, h.slot);
    forall s | 0 <= s < |slots| && s != h.slot
      ensures slots[s].id != h.id
    {
      assert SameIdSameSlot(slots, if s < h.slot then s else h.slot, if s < h.slot then h.slot else s);
    }
  }

  // ------------------------------------------------------------------ steps

  /** A page that is in the cache gets one more lock. */
  function Hit(slots: seq<Slot>, s: nat, counter: nat): seq<Slot>
    requires s < |slots|
  {
    slots[s := slots[s].(locks := slots[s].locks + 1, k1 := slots[s].k0, k0 := counter)]
  }

  /** A slot that nobody holds is given to another page. */
  function Faulted(slots: seq<Slot>, s: nat, id: nat, counter: nat): seq<Slot>
    requires s < |slots|
  {
    slots[s := slots[s].(locks := 1, k1 := 0, k0 := counter, id := id, swapping := true)]
  }

  function Loaded(slots: seq<Slot>, s: nat): seq<Slot>
    requires s < |slots|
  {
    slots[s := slots[s].(page := slots[s].id, swapping := false)]
  }

  function Released(slots: seq<Slot>, s: nat, score: nat): seq<Slot>
    requires s < |slots| && slots[s].locks >= 1
  {
    slots[s := slots[s].(locks := slots[s].locks - 1, score := score)]
  }

  /** Handle `i` goes from `handles[i]` to `h`, and slot `s` from `slots[s]` to `t`. */
  lemma StepOk(slots: seq<Slot>, handles: seq<Handle>, i: nat, h: Handle, s: nat, t: Slot, after: seq<Slot>)
    requires Ok(slots, handles) && i < |handles| && s < |slots| && after == slots[s := t]
    requires SlotOk(after, handles[i := h], s)
    requires forall q :: 0 <= q < |slots| && q != s ==> !Holds(handles[i], q) && !Holds(h, q)
    requires t.id == slots[s].id || forall q :: 0 <= q < |slots| && q != s ==> slots[q].id != t.id
    requires HandleOk(after, handles[i := h], i)
    requires forall j :: 0 <= j < |handles| && j != i ==> HandleOk(after, handles, j)
    requires h.Loading? ==> forall j :: 0 <= j < |handles| && j != i ==> !Holds(handles[j], h.slot)
    ensures Ok(after, handles[i := h])
  {
    var next := handles[i := h];
    forall q | 0 <= q < |slots|
      ensures SlotOk(after, next, q)
    {
      assert SlotOk(slots, handles, q);
      CountAfter(handles, i, h, q);
      if q != s && slots[q].swapping {
        var j :| 0 <= j < |handles| && handles[j] == Loading(q, slots[q].id);
        assert next[j] == Loading(q, after[q].id);
      }
    }
    forall a, b | 0 <= a < b < |slots|
      ensures SameIdSameSlot(after, a, b)
    {
      assert SameIdSameSlot(slots, a, b);
    }
    forall j | 0 <= j < |handles|
      ensures HandleOk(after, next, j)
    {
      assert j != i ==> HandleOk(after, handles, j);
    }
    forall j, k | 0 <= j < k < |handles|
      ensures OneLoader(next, j, k)
    {
      assert OneLoader(handles, j, k);
    }
  }

  lemma HitOk(slots: seq<Slot>, handles: seq<Handle>, i: nat, s: nat, counter: nat)
    requires Ok(slots, handles) && i < |handles| && handles[i].Idle? && s < |slots| && slots[s].id != 0
    ensures Ok(Hit(slots, s, counter), handles[i := Waiting(s, slots[s].id)])
  {
    var after, h := Hit(slots, s, counter), Waiting(s, slots[s].id);
    CountAfter(handles, i, h, s);
    assert SlotOk(slots, handles, s);
    if slots[s].swapping {
      var j :| 0 <= j < |handles| && handles[j] == Loading(s, slots[s].id);
      assert handles[i := h][j] == Loading(s, slots[s].id);
    }
    forall j | 0 <= j < |handles| && j != i
      ensures HandleOk(after, handles, j)
    {
      assert HandleOk(slots, handles, j);
    }
    StepOk(slots, handles, i, h, s, after[s], after);
  }

  lemma {:induction false} HeldBySomeone(handles: seq<Handle>, j: nat, s: nat)
    requires j < |handles| && Holds(handles[j], s)
    ensures HoldCount(handles, s) >= 1
  {
    CountAfter(handles, j, Idle, s);
  }

  lemma FaultOk(slots: seq<Slot>, handles: seq<Handle>, i: nat, s: nat, id: nat, counter: nat)
    requires Ok(slots, handles) && i < |handles| && handles[i].Idle? && s < |slots| && slots[s].locks == 0 && id != 0
    requires forall q :: 0 <= q < |slots| ==> slots[q].id != id
    ensures Ok(Faulted(slots, s, id, counter), handles[i := Loading(s, id)])
  {
    var after, h := Faulted(slots, s, id, counter), Loading(s, id);
    CountAfter(handles, i, h, s);
    assert SlotOk(slots, handles, s) && handles[i := h][i] == h;
    forall j | 0 <= j < |handles| && j != i
      ensures HandleOk(after, handles, j) && !Holds(handles[j], s)
    {
      assert HandleOk(slots, handles, j);
      if Holds(handles[j], s) {
        HeldBySomeone(handles, j, s);
      }
    }
    StepOk(slots, handles, i, h, s, after[s], after);
  }

  lemma LoadOk(slots: seq<Slot>, handles: seq<Handle>, i: nat, s: nat, id: nat)
    requires Ok(slots, handles) && i < |handles| && handles[i] == Loading(s, id)
    ensures s < |slots| && Ok(Loaded(slots, s), handles[i := Using(s, id)])
  {
    assert HandleOk(slots, handles, i) && SlotOk(slots, handles, s);
    var after, h := Loaded(slots, s), Using(s, id);
    CountAfter(handles, i, h, s);
    forall j | 0 <= j < |handles| && j != i
      ensures HandleOk(after, handles, j)
    {
      assert HandleOk(slots, handles, j) && OneLoader(handles, if i < j then i else j, if i < j then j else i);
    }
    StepOk(slots, handles, i, h, s, after[s], after);
  }

  lemma WaitOk(slots: seq<Slot>, handles: seq<Handle>, i: nat, s: nat, id: nat)
    requires Ok(slots, handles) && i < |handles| && handles[i] == Waiting(s, id) && s < |slots| && !slots[s].swapping
    ensures Ok(slots, handles[i := Using(s, id)])
  {
    var h := Using(s, id);
    assert HandleOk(slots, handles, i) && SlotOk(slots, handles, s);
    CountAfter(handles, i, h, s);
    forall j | 0 <= j < |handles| && j != i
      ensures HandleOk(slots, handles, j)
    {
    }
    StepOk(slots, handles, i, h, s, slots[s], slots);
  }

  lemma ReleaseOk(slots: seq<Slot>, handles: seq<Handle>, i: nat, s: nat, id: nat, score: nat)
    requires Ok(slots, handles) && i < |handles| && handles[i] == Using(s, id) && score < SCORE_MAX
    ensures s < |slots| && slots[s].locks >= 1 && Ok(Released(slots, s, score), handles[i := Idle])
  {
    assert HandleOk(slots, handles, i) && SlotOk(slots, handles, s);
    HeldBySomeone(handles, i, s);
    var after := Released(slots, s, score);
    CountAfter(handles, i, Idle, s);
    forall j | 0 <= j < |handles| && j != i
      ensures HandleOk(after, handles, j)
    {
      assert HandleOk(slots, handles, j);
    }
    StepOk(slots, handles, i, Idle, s, after[s], after);
  }

  // ------------------------------------------------------------------ the cache

  datatype Error = None | Invalid | NoSpace

  /** A slot has the score of the last page that was finished in it; if nobody holds it, it is that page it has. */
  ghost predicate ScoredAs(slot: Slot, last: (nat, nat)) {
    slot.score == last.1 && (slot.locks == 0 ==> slot.id == last.0)
  }

  /**
    Of the slots that nobody holds, `v` is one whose page was finished with the lowest score, the
    first of these going around from slot `from`.
   */
  ghost predicate LowestFinished(slots: seq<Slot>, finished: seq<(nat, nat)>, from: nat, v: nat)
    requires |finished| == |slots|
  {
    && from < |slots| && v < |slots| && slots[v].locks == 0 && slots[v].id == finished[v].0
    && forall q :: 0 <= q < |slots| && slots[q].locks == 0 ==>
         && finished[v].1 <= finished[q].1
         && (finished[q].1 == finished[v].1 ==> (v + |slots| - from) % |slots| <= (q + |slots| - from) % |slots|)
  }

  class Cache {
    const slots: array<Slot>

    var handles: seq<Handle>
    var nextstart: nat
    var opcounter: nat

    // For every slot the page that was last finished in it, and the score it was finished with.
    ghost var finished: seq<(nat, nat)>

    ghost predicate Valid()
      reads this, slots
    {
      && slots.Length >= 1 && nextstart < slots.Length && Ok(slots[..], handles)
      && |finished| == slots.Length && forall s :: 0 <= s < slots.Length ==> ScoredAs(slots[..][s], finished[s])
    }

    constructor (slotcount: nat)
      requires slotcount >= 1
      ensures Valid() && fresh(slots) && slots.Length == slotcount && handles == [] && nextstart == 0 && opcounter == 0
      ensures forall s :: 0 <= s < slotcount ==> slots[s] == Slot(0, 0, 0, 0, 0, 0, false)
    {
      slots := new Slot[slotcount](_ => Slot(0, 0, 0, 0, 0, 0, false));
      handles, nextstart, opcounter := [], 0, 0;
      finished := seq(slotcount, _ => (0, 0));
    }

    /** Creates a handle, as long as there are at least as many slots as handles. */
    method HandleInit() returns (err: Error)
      requires Valid()
      modifies this`handles
      ensures Valid()
      ensures err == if |old(handles)| < slots.Length then None else NoSpace
      ensures handles == if err == None then old(handles) + [Idle] else old(handles)
    {
      if slots.Length < |handles| + 1 {
        return NoSpace;
      }
      IdleAdded(slots[..], handles);
      handles := handles + [Idle];
      err := None;
    }

    /**
      Looks for a page from slot `nextstart` on, and on the way for the unlocked slot with the
      lowest score, the first of these if there are several.
     */
    method Search(id: nat) returns (found: bool, slot: nat)
      requires Valid() && exists s :: 0 <= s < slots.Length && slots[..][s].locks == 0
      ensures slot < slots.Length
      ensures found <==> exists s :: 0 <= s < slots.Length && slots[..][s].id == id
      ensures found ==> slots[slot].id == id
      ensures !found ==> Victim(slots[..], nextstart, slot)
    {
      var n := slots.Length;
      ghost var v :| 0 <= v < n && slots[..][v].locks == 0;
      assert SlotOk(slots[..], handles, v);
      found, slot := false, 0;
      var lowest := SCORE_MAX;
      var mslot := nextstart;
      var i := 0;
      while i < n
        invariant 0 <= i <= n && mslot == Wrap(nextstart + i, n) && slot < n
        invariant forall q :: 0 <= q < n && Distance(n, nextstart, q) < i ==> slots[..][q].id != id
        invariant lowest < SCORE_MAX ==>
                  Distance(n, nextstart, slot) < i && slots[slot].locks == 0 && slots[slot].score == lowest
        invariant forall q :: 0 <= q < n && Distance(n, nextstart, q) < i && slots[..][q].locks == 0 ==>
                    && lowest <= slots[..][q].score
                    && (slots[..][q].score == lowest ==> Distance(n, nextstart, slot) <= Distance(n, nextstart, q))
      {
        assert SlotOk(slots[..], handles, mslot) && Distance(n, nextstart, mslot) == i;
        if slots[mslot].id == id {
          assert slots[..][mslot].id == id;
          return true, mslot;
        }
        if slots[mslot].locks == 0 && slots[mslot].score < lowest {
          lowest := slots[mslot].score;
          slot := mslot;
        }
        mslot := Wrap(mslot + 1, n);
        i := i + 1;
      }
    }

    /** A handle gets the slot that has the page it wants. */
    method Pin(i: nat, id: nat, s: nat)
      requires Valid() && i < |handles| && handles[i].Idle? && s < slots.Length && slots[s].id == id != 0
      modifies this`handles, slots
      ensures Valid() && handles == old(handles)[i := Waiting(s, id)]
      ensures ChangedAt(old(slots[..]), slots[..], s)
      ensures slots[s] == old(slots[s]).(locks := old(slots[s]).locks + 1, k1 := old(slots[s]).k0, k0 := opcounter)
    {
      ghost var was := slots[..];
      HitOk(was, handles, i, s, opcounter);
      slots[s] := slots[s].(locks := slots[s].locks + 1, k1 := slots[s].k0, k0 := opcounter);
      handles := handles[i := Waiting(s, id)];
      assert slots[..] == Hit(was, s, opcounter);
    }

    /** A slot that nobody holds is given to the page that a handle wants. */
    method Replace(i: nat, id: nat, s: nat)
      requires Valid() && i < |handles| && handles[i].Idle? && s < slots.Length && slots[s].locks == 0 && id != 0
      requires forall q :: 0 <= q < slots.Length ==> slots[..][q].id != id
      modifies this`handles, this`nextstart, slots
      ensures Valid() && handles == old(handles)[i := Loading(s, id)]
      ensures nextstart == (old(nextstart) + 1) % slots.Length
      ensures ChangedAt(old(slots[..]), slots[..], s)
      ensures slots[s] == old(slots[s]).(locks := 1, k1 := 0, k0 := opcounter, id := id, swapping := true)
    {
      ghost var was := slots[..];
      FaultOk(was, handles, i, s, id, opcounter);
      WrapIsRemainder(nextstart, slots.Length);
      nextstart := Wrap(nextstart + 1, slots.Length);
      slots[s] := slots[s].(locks := 1, k1 := 0, k0 := opcounter, id := id, swapping := true);
      handles := handles[i := Loading(s, id)];
      assert slots[..] == Faulted(was, s, id, opcounter);
    }

    /**
      Gives a handle the slot of a page: the slot that has it already, or one that is loaded with
      it, in place of the page that was finished with the lowest score of those nobody holds.
     */
    method Start(i: nat, id: nat) returns (err: Error)
      requires Valid() && i < |handles|
      modifies this`handles, this`nextstart, this`opcounter, slots
      ensures Valid() && |handles| == |old(handles)|
      ensures err == if id == 0 || old(handles)[i] != Idle then Invalid else None
      ensures err != None ==>
                && handles == old(handles) && slots[..] == old(slots[..])
                && nextstart == old(nextstart) && opcounter == old(opcounter)
      ensures err == None ==>
                && old(handles)[i].Idle? && !handles[i].Idle? && handles[i].slot < slots.Length && handles[i].id == id
                && handles == old(handles)[i := handles[i]] && opcounter == old(opcounter) + 1
                && var s, was := handles[i].slot, old(slots[..]);
                && ChangedAt(was, slots[..], s)
                && if exists q :: 0 <= q < |was| && was[q].id == id then
                     && handles[i].Waiting? && was[s].id == id && nextstart == old(nextstart)
                     && slots[s] == was[s].(locks := was[s].locks + 1, k1 := was[s].k0, k0 := opcounter)
                   else
                     && handles[i].Loading? && LowestFinished(was, finished, old(nextstart), s)
                     && slots[s] == was[s].(locks := 1, k1 := 0, k0 := opcounter, id := id, swapping := true)
                     && nextstart == (old(nextstart) + 1) % slots.Length
    {
      if id == 0 || handles[i] != Idle {
        return Invalid;
      }
      SomeSlotUnlocked(slots[..], handles, i);
      opcounter := opcounter + 1;
      var found, s := Search(id);
      if found {
        Pin(i, id, s);
      } else {
        VictimIsLowest(slots[..], finished, nextstart, s);
        Replace(i, id, s);
      }
      err := None;
    }

    /** The end of a swap: the page is mapped. */
    method SwapDone(i: nat)
      requires Valid() && i < |handles| && handles[i].Loading?
      modifies this`handles, slots
      ensures Valid() && handles == old(handles)[i := Using(old(handles)[i].slot, old(handles)[i].id)]
      ensures var s, id := old(handles)[i].slot, old(handles)[i].id;
              && s < slots.Length && ChangedAt(old(slots[..]), slots[..], s)
              && slots[s] == old(slots[..])[s].(page := id, swapping := false)
    {
      var s, id := handles[i].slot, handles[i].id;
      LoadOk(slots[..], handles, i, s, id);
      ghost var was := slots[..];
      slots[s] := slots[s].(page := id, swapping := false);
      assert HandleOk(was, handles, i) && slots[..] == Loaded(was, s);
      handles := handles[i := Using(s, id)];
    }

    /** The end of a wait for another handle's swap. */
    method WaitDone(i: nat)
      requires Valid() && i < |handles| && handles[i].Waiting?
      requires handles[i].slot < slots.Length && !slots[handles[i].slot].swapping
      modifies this`handles
      ensures Valid() && handles == old(handles)[i := Using(old(handles)[i].slot, old(handles)[i].id)]
    {
      WaitOk(slots[..], handles, i, handles[i].slot, handles[i].id);
      handles := handles[i := Using(handles[i].slot, handles[i].id)];
    }

    /** Gives a slot back, with the score by which it will be replaced. */
    method Finish(i: nat, score: nat)
      requires Valid() && i < |handles| && (handles[i].Idle? || handles[i].Using?) && score < SCORE_MAX
      modifies this`handles, this`finished, slots
      ensures Valid() && handles == old(handles)[i := Idle]
      ensures old(handles)[i].Idle? ==> slots[..] == old(slots[..]) && finished == old(finished)
      ensures !old(handles)[i].Idle? ==>
                var h, was := old(handles)[i], old(slots[..]);
                && h.slot < |was| && finished == old(finished)[h.slot := (h.id, score)]
                && ChangedAt(was, slots[..], h.slot)
                && was[h.slot].locks >= 1 && slots[h.slot].locks == was[h.slot].locks - 1
                && slots[h.slot] == was[h.slot].(locks := slots[h.slot].locks, score := score)
    {
      if handles[i] == Idle {
        return;
      }
      var s := handles[i].slot;
      ReleaseOk(slots[..], handles, i, s, handles[i].id, score);
      ghost var was := slots[..];
      assert HandleOk(was, handles, i);
      slots[s] := slots[s].(locks := slots[s].locks - 1, score := score);
      finished := finished[s := (handles[i].id, score)];
      assert slots[..] == Released(was, s, score);
      handles := handles[i := Idle];
    }
  }

  /** The first of the unlocked slots with the lowest score, going around from `from`. */
  ghost predicate Victim(slots: seq<Slot>, from: nat, v: nat) {
    && from < |slots| && v < |slots| && slots[v].locks == 0
    && forall q :: 0 <= q < |slots| && slots[q].locks == 0 ==>
         && slots[v].score <= slots[q].score
         && (slots[q].score == slots[v].score ==> Distance(|slots|, from, v) <= Distance(|slots|, from, q))
  }

  lemma VictimIsLowest(slots: seq<Slot>, finished: seq<(nat, nat)>, from: nat, v: nat)
    requires Victim(slots, from, v) && |finished| == |slots|
    requires forall s :: 0 <= s < |slots| ==> ScoredAs(slots[s], finished[s])
    ensures LowestFinished(slots, finished, from, v)
  {
    forall q | 0 <= q < |slots|
      ensures Distance(|slots|, from, q) == (q + |slots| - from) % |slots|
    {
      DistanceIsRemainder(|slots|, from, q);
    }
  }

  lemma SomeSlotUnlocked(slots: seq<Slot>, handles: seq<Handle>, i: nat)
    requires Ok(slots, handles) && i < |handles| && handles[i].Idle?
    ensures exists s :: 0 <= s < |slots| && slots[s].locks == 0
  {
    SomeSlotFree(handles, i, |slots|);
    var s :| 0 <= s < |slots| && HoldCount(handles, s) == 0;
    assert SlotOk(slots, handles, s);
  }

  lemma IdleAdded(slots: seq<Slot>, handles: seq<Handle>)
    requires Ok(slots, handles) && |handles| < |slots|
    ensures Ok(slots, handles + [Idle])
  {
    var more := handles + [Idle];
    assert more[..|handles|] == handles;
    forall s | 0 <= s < |slots|
      ensures SlotOk(slots, more, s)
    {
      assert SlotOk(slots, handles, s);
      if slots[s].swapping {
        var j :| 0 <= j < |handles| && handles[j] == Loading(s, slots[s].id);
        assert more[j] == Loading(s, slots[s].id);
      }
    }
    forall i | 0 <= i < |more|
      ensures HandleOk(slots, more, i)
    {
      assert i < |handles| ==> HandleOk(slots, handles, i);
    }
    forall i, j | 0 <= i < j < |more|
      ensures OneLoader(more, i, j)
    {
      assert j < |handles| ==> OneLoader(handles, i, j);
    }
  }
}
