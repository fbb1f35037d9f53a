/**
  The object pages of one entity: straits of consecutive pages, strung together by
  `pright`, each page knowing its own offset in the chapter by `pleft`.
 */
module ObjectPages {

  type Pid = nat

  datatype ObjectHead = ObjectHead(pleft: nat, pright: Pid, trashvor: Pid)

  type Objects = map<Pid, ObjectHead>

  /** The consecutive pages `base`, `base + 1`, ... of one strait. */
  ghost function Strait(base: Pid, n: nat): (r: seq<Pid>)
    ensures |r| == n
  {
    seq(n, k requires 0 <= k < n => base + k)
  }

  /** The chapter as the plain sequence of its pages. */
  ghost function Concat(straits: seq<Pid>, n: nat): seq<Pid> {
    if straits == [] then []
    else Concat(straits[..|straits| - 1], n) + Strait(straits[|straits| - 1], n)
  }

  lemma {:induction false} ConcatLength(straits: seq<Pid>, n: nat)
    ensures |Concat(straits, n)| == |straits| * n
  {
    if straits != [] {
      var m: nat := |straits| - 1;
      ConcatLength(straits[..m], n);
      MulStep(m, n);
    }
  }

  lemma MulStep(m: nat, n: nat)
    ensures (m + 1) * n == m * n + n
  {
  }

  /** Page `k * n + r` of the chapter is page `r` of strait `k`. */
  lemma {:induction false} ConcatAt(straits: seq<Pid>, n: nat, k: nat, r: nat)
    requires k < |straits| && r < n
    ensures k * n + r < |Concat(straits, n)|
    ensures Concat(straits, n)[k * n + r] == straits[k] + r
  {
    var front := straits[..|straits| - 1];
    ConcatLength(straits, n);
    ConcatLength(front, n);
    if k == |straits| - 1 {
      assert k * n + r - |Concat(front, n)| == r;
    } else {
      ConcatAt(front, n, k, r);
    }
  }

  lemma {:induction false} ConcatAppend(straits: seq<Pid>, base: Pid, n: nat)
    ensures Concat(straits + [base], n) == Concat(straits, n) + Strait(base, n)
  {
    assert (straits + [base])[..|straits|] == straits;
  }

  /** Page `r` of strait `k` has its own offset on the left and its successor on the right. */
  ghost predicate PageChained(straits: seq<Pid>, n: nat, objects: Objects, k: nat, r: nat)
    requires k < |straits| && r < n
  {
    && straits[k] + r in objects
    && objects[straits[k] + r].pleft == k * n + r
    && objects[straits[k] + r].pright ==
       if r + 1 < n then straits[k] + r + 1 else if k + 1 < |straits| then straits[k + 1] else 0
  }

  ghost predicate Chained(straits: seq<Pid>, n: nat, objects: Objects) {
    forall k, r :: 0 <= k < |straits| && 0 <= r < n ==> PageChained(straits, n, objects, k, r)
  }

  /** The pages of a strait as they are initialised: no successor, and a trash chain back to the first. */
  ghost predicate Initialised(base: Pid, n: nat, off: nat, objects: Objects) {
    forall r :: 0 <= r < n ==> PageInitialised(base, n, off, objects, r)
  }

  ghost predicate PageInitialised(base: Pid, n: nat, off: nat, objects: Objects, r: nat) {
    && base + r in objects
    && objects[base + r] ==
         ObjectHead(off + r, if r + 1 < n then base + r + 1 else 0, if r == 0 then 0 else base + r - 1)
  }

  /** Offsets tell pages apart. */
  lemma ChainedDistinct(straits: seq<Pid>, n: nat, objects: Objects, k: nat, r: nat, k': nat, r': nat)
    requires Chained(straits, n, objects)
    requires k < |straits| && r < n && k' < |straits| && r' < n && straits[k] + r == straits[k'] + r'
    ensures k == k' && r == r'
  {
    assert PageChained(straits, n, objects, k, r) && PageChained(straits, n, objects, k', r');
    OffsetUnique(n, k, r, k', r');
  }

  lemma OffsetUnique(n: nat, k: nat, r: nat, k': nat, r': nat)
    requires r < n && r' < n && k * n + r == k' * n + r'
    ensures k == k' && r == r'
  {
    MulMonotone(k + 1, k', n);
    MulMonotone(k' + 1, k, n);
  }

  lemma MulMonotone(a: nat, b: nat, n: nat)
    ensures a <= b ==> a * n <= b * n
  {
  }

  /** Linking an initialised strait behind the last page of a chapter. */
  lemma ChainedAppend(straits: seq<Pid>, n: nat, objects: Objects, base: Pid, after: Objects)
    requires Chained(straits, n, objects) && |straits| >= 1 && n >= 1
    requires var last := straits[|straits| - 1] + n - 1;
             && last in objects
             && (forall p :: p in objects && p != last ==> p in after && after[p] == objects[p])
             && last in after && after[last] == objects[last].(pright := base)
    requires Initialised(base, n, |straits| * n, after)
    ensures Chained(straits + [base], n, after)
  {
    var more := straits + [base];
    forall k, r | 0 <= k < |more| && 0 <= r < n
      ensures PageChained(more, n, after, k, r)
    {
      if k < |straits| {
        assert PageChained(straits, n, objects, k, r);
        if straits[k] + r == straits[|straits| - 1] + n - 1 {
          ChainedDistinct(straits, n, objects, k, r, |straits| - 1, n - 1);
        }
      } else {
        assert PageInitialised(base, n, |straits| * n, after, r);
      }
    }
  }

  /** Following `pright` from one page of the chapter leads to the next page, and to 0 from the last. */
  lemma {:induction false} ChainFollows(straits: seq<Pid>, n: nat, objects: Objects, off: nat)
    requires Chained(straits, n, objects) && n >= 1 && off < |Concat(straits, n)|
    ensures var p := Concat(straits, n)[off];
            && p in objects
            && objects[p].pleft == off
            && objects[p].pright == if off + 1 < |Concat(straits, n)| then Concat(straits, n)[off + 1] else 0
  {
    ConcatLength(straits, n);
    var k, r := SplitOffset(off, n, |straits|);
    ConcatAt(straits, n, k, r);
    assert PageChained(straits, n, objects, k, r);
    if r + 1 < n {
      ConcatAt(straits, n, k, r + 1);
    } else if k + 1 < |straits| {
      ConcatAt(straits, n, k + 1, 0);
      assert (k + 1) * n == off + 1;
    } else {
      assert (k + 1) * n == off + 1;
    }
  }

  /** The page reached from `p` by following `pright` `m` times. */
  ghost function Follow(objects: Objects, p: Pid, m: nat): Pid
    decreases m
  {
    if m == 0 || p !in objects then p else Follow(objects, objects[p].pright, m - 1)
  }

  /** Following `pright` visits the pages of the chapter in order, and then reaches 0. */
  lemma {:induction false} FollowVisitsAll(straits: seq<Pid>, n: nat, objects: Objects, off: nat, m: nat)
    requires Chained(straits, n, objects) && n >= 1 && off < |Concat(straits, n)| && off + m <= |Concat(straits, n)|
    ensures Follow(objects, Concat(straits, n)[off], m) ==
            if off + m < |Concat(straits, n)| then Concat(straits, n)[off + m] else 0
    decreases m
  {
    ChainFollows(straits, n, objects, off);
    if m > 1 {
      FollowVisitsAll(straits, n, objects, off + 1, m - 1);
    }
  }

  /** A page stands in the chapter at the offset that it knows. */
  ghost predicate PlacedAt(contents: seq<Pid>, objects: Objects, p: Pid)
    requires p in objects
  {
    objects[p].pleft < |contents| && contents[objects[p].pleft] == p
  }

  ghost predicate Placed(contents: seq<Pid>, objects: Objects) {
    forall p {:trigger PlacedAt(contents, objects, p)} :: p in objects ==> PlacedAt(contents, objects, p)
  }

  /** Nothing but links changed on the pages of `was`, and the strait at `base` came to them. */
  lemma PlacedGrown(contents: seq<Pid>, was: Objects, base: Pid, n: nat, objects: Objects)
    requires Placed(contents, was)
    requires forall p :: p in objects ==> (p in was && objects[p].pleft == was[p].pleft) || base <= p < base + n
    requires forall p :: base <= p < base + n ==> p !in was
    requires forall p :: base <= p < base + n ==> p in objects && objects[p].pleft == |contents| + (p - base)
    ensures Placed(contents + Strait(base, n), objects)
  {
    forall p | p in objects
      ensures PlacedAt(contents + Strait(base, n), objects, p)
    {
      if base <= p < base + n {
        assert Strait(base, n)[p - base] == p;
      } else {
        assert PlacedAt(contents, was, p);
      }
    }
  }

  /** The trash fields of a page are not part of the chain. */
  lemma {:induction false} TrashIsApart(straits: seq<Pid>, n: nat, objects: Objects, p: Pid, vor: nat)
    requires p in objects
    requires Chained(straits, n, objects) && Placed(Concat(straits, n), objects)
    ensures Chained(straits, n, objects[p := objects[p].(trashvor := vor)])
    ensures Placed(Concat(straits, n), objects[p := objects[p].(trashvor := vor)])
  {
    var after := objects[p := objects[p].(trashvor := vor)];
    forall k, r | 0 <= k < |straits| && 0 <= r < n
      ensures PageChained(straits, n, after, k, r)
    {
      assert PageChained(straits, n, objects, k, r);
    }
    forall q | q in after
      ensures PlacedAt(Concat(straits, n), after, q)
    {
      assert PlacedAt(Concat(straits, n), objects, q);
    }
  }

  /** An offset as a strait number and an offset in that strait. */
  lemma SplitOffset(off: nat, n: nat, m: nat) returns (k: nat, r: nat)
    requires n >= 1 && off < m * n
    ensures k < m && r < n && off == k * n + r
  {
    k, r := off / n, off % n;
    MulMonotone(m, k, n);
  }
}
