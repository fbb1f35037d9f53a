/**
  The pages of one entity that hold trash, chained from `trashlast` through the `trashvor`
  field of each page. Deleting rows can hang the bottom page of the chain in front of the
  first, so that the chain runs into itself; no page is lost by that.
 */
module TrashChain {
  import opened Sequences

  import opened ObjectPages
  import opened FreeList

  // ------------------------------------------------------------------ what the fields say

  /** The page reached from `from` after `m` links. */
  function Reach(objects: Objects, from: nat, m: nat): nat
    decreases m
  {
    if m == 0 || from !in objects then from else Reach(objects, objects[from].trashvor, m - 1)
  }

  ghost predicate Reachable(objects: Objects, last: nat, p: nat) {
    exists m: nat :: Reach(objects, last, m) == p
  }

  /** The chain ends. */
  ghost predicate Ends(objects: Objects, last: nat) {
    Reachable(objects, last, 0)
  }

  // ------------------------------------------------------------------ the shape of the chain

  /** What follows page `j - 1` of the chain: page `j`, and after the last page either page `back` or nothing. */
  function After(chain: seq<nat>, back: int, j: nat): nat {
    if j < |chain| then chain[j] else if 0 <= back < |chain| then chain[back] else 0
  }

  ghost predicate LeadsOn(objects: Objects, chain: seq<nat>, back: int, j: nat)
    requires j < |chain|
  {
    chain[j] in objects && chain[j] != 0 && objects[chain[j]].trashvor == After(chain, back, j + 1)
  }

  /**
    The chain visits `chain`, and then ends (`back` is -1) or runs into its own page `back`.
    Every page that leads to another is on it.
   */
  ghost predicate ChainOf(objects: Objects, last: nat, chain: seq<nat>, back: int) {
    && -1 <= back < |chain| && 0 !in objects
    && last == After(chain, -1, 0)
    && Distinct(chain)
    && (forall j :: 0 <= j < |chain| ==> LeadsOn(objects, chain, back, j))
    && (forall p :: p in objects && objects[p].trashvor != 0 ==> p in chain)
  }

  lemma FirstOfChain(objects: Objects, last: nat, chain: seq<nat>, back: int)
    requires ChainOf(objects, last, chain, back)
    ensures last != 0 ==> last in objects && chain != [] && chain[0] == last
    ensures last == 0 <==> chain == []
  {
    assert chain != [] ==> LeadsOn(objects, chain, back, 0);
  }

  lemma {:induction false} ReachFollows(objects: Objects, last: nat, chain: seq<nat>, back: int, j: nat, m: nat)
    requires ChainOf(objects, last, chain, back) && j < |chain| && j + m <= |chain|
    ensures Reach(objects, chain[j], m) == After(chain, back, j + m)
    decreases m
  {
    assert LeadsOn(objects, chain, back, j);
    if m == 1 {
      assert Reach(objects, After(chain, back, j + 1), 0) == After(chain, back, j + 1);
    } else if m > 0 {
      ReachFollows(objects, last, chain, back, j + 1, m - 1);
    }
  }

  /** A walk along the chain stays on it until it ends, and a chain that runs into itself does not end. */
  lemma {:induction false} ReachStays(objects: Objects, last: nat, chain: seq<nat>, back: int, from: nat, m: nat)
    requires ChainOf(objects, last, chain, back) && (from in chain || from == 0)
    ensures var to := Reach(objects, from, m); to in chain || to == 0
    ensures from in chain && back >= 0 ==> Reach(objects, from, m) in chain
    decreases m
  {
    if m > 0 && from in chain {
      var j :| 0 <= j < |chain| && chain[j] == from;
      assert LeadsOn(objects, chain, back, j);
      ReachStays(objects, last, chain, back, After(chain, back, j + 1), m - 1);
    }
  }

  /** The chain consists of exactly the pages that can be reached from `trashlast`. */
  lemma ChainIsReachable(objects: Objects, last: nat, chain: seq<nat>, back: int)
    requires ChainOf(objects, last, chain, back)
    ensures forall p :: p in chain <==> p != 0 && Reachable(objects, last, p)
    ensures Ends(objects, last) <==> back == -1
  {
    forall p | p in chain
      ensures p != 0 && Reachable(objects, last, p)
    {
      var j :| 0 <= j < |chain| && chain[j] == p;
      ReachFollows(objects, last, chain, back, 0, j);
      assert LeadsOn(objects, chain, back, j);
    }
    forall m: nat
      ensures var to := Reach(objects, last, m); to in chain || to == 0
      ensures back >= 0 ==> Reach(objects, last, m) in chain
    {
      ReachStays(objects, last, chain, back, last, m);
    }
    if back == -1 {
      if chain == [] {
        assert Reach(objects, last, 0) == 0;
      } else {
        ReachFollows(objects, last, chain, back, 0, |chain|);
      }
    }
  }

  // ------------------------------------------------------------------ taking the first page off

  function PoppedChain(chain: seq<nat>, back: int): (rest: seq<nat>)
    requires chain != []
    ensures |rest| == if back == 0 then |chain| else |chain| - 1
    ensures forall j :: 0 <= j < |rest| ==> rest[j] == chain[if j + 1 < |chain| then j + 1 else 0]
  {
    if back == 0 then chain[1..] + [chain[0]] else chain[1..]
  }

  function PoppedBack(back: int): int {
    if back >= 1 then back - 1 else -1
  }

  lemma PoppedLeadsOn(objects: Objects, last: nat, chain: seq<nat>, back: int, next: Objects, j: nat)
    requires ChainOf(objects, last, chain, back) && last in objects && chain != []
    requires next == objects[last := objects[last].(trashvor := 0)] && j < |PoppedChain(chain, back)|
    ensures LeadsOn(next, PoppedChain(chain, back), PoppedBack(back), j)
  {
    assert LeadsOn(objects, chain, back, if j + 1 < |chain| then j + 1 else 0);
  }

  /** `trashlast` moves to the next page, and the page it left no longer leads anywhere. */
  lemma Popped(objects: Objects, last: nat, chain: seq<nat>, back: int)
    requires ChainOf(objects, last, chain, back) && last != 0
    ensures last in objects && chain != []
    ensures ChainOf(objects[last := objects[last].(trashvor := 0)], objects[last].trashvor,
                    PoppedChain(chain, back), PoppedBack(back))
    ensures forall p :: p in chain && p != last ==> p in PoppedChain(chain, back)
  {
    assert LeadsOn(objects, chain, back, 0);
    var next := objects[last := objects[last].(trashvor := 0)];
    var rest := PoppedChain(chain, back);
    forall j | 0 <= j < |rest|
      ensures LeadsOn(next, rest, PoppedBack(back), j)
    {
      PoppedLeadsOn(objects, last, chain, back, next, j);
    }
    forall p | p in chain && p != last
      ensures p in rest
    {
      var j :| 0 <= j < |chain| && chain[j] == p;
      assert rest[j - 1] == p;
    }
  }

  // ------------------------------------------------------------------ putting a page in front

  function PushedChain(chain: seq<nat>, p: nat): (more: seq<nat>)
    ensures |more| == if p in chain then |chain| else |chain| + 1
    ensures forall j :: 0 <= j < |more| ==> more[j] == if j == 0 then p else chain[j - 1]
  {
    if p in chain then [p] + chain[..|chain| - 1] else [p] + chain
  }

  function PushedBack(chain: seq<nat>, back: int, p: nat): int {
    if p in chain then 0 else if back >= 0 then back + 1 else -1
  }

  /** A page on the chain that leads nowhere is the bottom one. */
  lemma BottomPage(objects: Objects, last: nat, chain: seq<nat>, back: int, p: nat)
    requires ChainOf(objects, last, chain, back) && p in objects && objects[p].trashvor == 0 && p in chain
    ensures back == -1 && chain[|chain| - 1] == p
  {
    var j :| 0 <= j < |chain| && chain[j] == p;
    assert LeadsOn(objects, chain, back, j);
    assert j + 1 < |chain| ==> LeadsOn(objects, chain, back, j + 1);
    assert back >= 0 ==> LeadsOn(objects, chain, back, back);
  }

  /** A page that leads nowhere and is not the first is put in front, whether or not it is the bottom page. */
  lemma Pushed(objects: Objects, last: nat, chain: seq<nat>, back: int, p: nat)
    requires ChainOf(objects, last, chain, back) && p in objects && objects[p].trashvor == 0 && p != last
    ensures ChainOf(objects[p := objects[p].(trashvor := last)], p, PushedChain(chain, p), PushedBack(chain, back, p))
    ensures p in PushedChain(chain, p) && forall q :: q in chain ==> q in PushedChain(chain, p)
  {
    var next := objects[p := objects[p].(trashvor := last)];
    var more, back' := PushedChain(chain, p), PushedBack(chain, back, p);
    if p in chain {
      BottomPage(objects, last, chain, back, p);
    }
    forall j | 0 <= j < |more|
      ensures LeadsOn(next, more, back', j)
    {
      assert j > 0 ==> LeadsOn(objects, chain, back, j - 1);
    }
    forall q | q in chain
      ensures q in more
    {
      var j :| 0 <= j < |chain| && chain[j] == q;
      assert j + 1 < |more| ==> more[j + 1] == q;
      assert more[0] == p;
    }
  }

  /**
    Hanging a page in front leaves a chain that ends exactly if the page was not on the chain;
    otherwise it was the bottom page, and the chain closes into a loop.
   */
  lemma PushCloses(objects: Objects, last: nat, chain: seq<nat>, back: int, p: nat)
    requires ChainOf(objects, last, chain, back) && p in objects && objects[p].trashvor == 0 && p != last
    requires Ends(objects, last)
    ensures Ends(objects[p := objects[p].(trashvor := last)], p) <==> !Reachable(objects, last, p)
  {
    ChainIsReachable(objects, last, chain, back);
    Pushed(objects, last, chain, back, p);
    ChainIsReachable(objects[p := objects[p].(trashvor := last)], p, PushedChain(chain, p), PushedBack(chain, back, p));
  }

  /** The test whether a page is already chained misses the bottom page: two pages suffice for a loop. */
  lemma ChainCanClose() returns (objects: Objects, last: nat, p: nat)
    ensures p in objects && objects[p].trashvor == 0 && p != last
    ensures ChainOf(objects, last, [last, p], -1) && Ends(objects, last)
    ensures !Ends(objects[p := objects[p].(trashvor := last)], p)
  {
    objects, last, p := map[1 := ObjectHead(0, 2, 0), 2 := ObjectHead(1, 0, 1)], 2, 1;
    var chain := [2, 1];
    assert LeadsOn(objects, chain, -1, 0) && LeadsOn(objects, chain, -1, 1);
    assert 2 in chain && 1 in chain;
    ChainIsReachable(objects, last, chain, -1);
    PushCloses(objects, last, chain, -1, p);
    assert chain[1] == p;
  }
}
