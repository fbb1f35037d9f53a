/**
  The object chapter of one entity and its lookup tree, as the file holds them. Pages
  are values in maps that the methods rewrite one page at a time, the order of writes
  being that of the program.
 */
module Chapter {
  import opened Sequences

  import opened LookupTree
  import opened ObjectPages
  import opened LookupReader

  datatype Error = None | NoSpace | EndOfFile

  /** The pages `base`, `base + 1`, ..., `base + n - 1` as a set. */
  function PidSet(base: nat, n: nat): (r: set<nat>)
    ensures forall p :: p in r <==> base <= p < base + n
  {
    if n == 0 then {} else PidSet(base, n - 1) + {base + n - 1}
  }

  predicate Unused(used: set<nat>, base: nat, n: nat) {
    base >= 1 && forall p :: base <= p < base + n ==> p !in used
  }

  lemma {:induction false} UpperBound(s: set<nat>) returns (b: nat)
    ensures forall p :: p in s ==> p < b
  {
    if s == {} {
      b := 0;
    } else {
      var x :| x in s;
      b := UpperBound(s - {x});
      b := if x < b then b else x + 1;
      assert s == (s - {x}) + {x};
    }
  }

  lemma UnusedExists(used: set<nat>, n: nat)
    ensures exists base: nat :: Unused(used, base, n)
  {
    var b := UpperBound(used);
    assert Unused(used, b + 1, n);
  }

  class Chapter {
    const cfg: Config

    // The file: which pages are taken, the lookup pages and the object pages of this entity.
    var used: set<nat>
    var pages: Pages
    var objects: Objects

    // The entry in the index.
    var ref0: nat
    var ref0c: nat
    var ref1: nat
    var lastlookup: nat
    var trashlast: nat

    ghost var levels: Levels
    ghost var history: seq<Snapshot>

    ghost predicate Routes()
      reads this
    {
      && Routed(cfg, levels, pages)
      && pages.Keys <= used && objects.Keys <= used && 0 in used && 0 !in objects
      && GoodHistory(cfg, history) && history != [] && Counted(cfg, levels, ref1, ref0c)
      && history[|history| - 1] == Snapshot(pages, levels, ref1, ref0c)
    }

    ghost predicate Valid()
      reads this
    {
      && Routes()
      && Linked(cfg, levels, pages)
      && Chained(Straits(cfg, levels), cfg.straitc, objects)
      && Placed(Concat(Straits(cfg, levels), cfg.straitc), objects)
      && |Straits(cfg, levels)| >= 1
      && ref0 == Straits(cfg, levels)[0]
      && ref0c == |Straits(cfg, levels)| * cfg.straitc
      && ref1 == levels[0][0]
      && lastlookup == LastPage(cfg, levels, cfg.depth)
    }

    /** The chapter holds as many pages as the tree can name. */
    ghost predicate Full()
      reads this
    {
      ref0c == cfg.straitc * Pow(cfg.refmax, cfg.depth + 1)
    }

    /** The chapter as the plain sequence of its pages. */
    ghost function Contents(): seq<nat>
      reads this
      requires Sized(cfg, levels)
    {
      Concat(Straits(cfg, levels), cfg.straitc)
    }

    /**
      Sets up an entry: one strait of object pages, and one lookup page on every level, made
      from the deepest up so that each names the one before it.
     */
    constructor EntrySet(cfg: Config, taken: set<nat>)
      requires cfg.Ok() && 0 in taken
      ensures Valid() && this.cfg == cfg
      ensures Contents() == Strait(ref0, cfg.straitc) && ref0c == cfg.straitc
      ensures taken <= used && Unused(taken, ref0, cfg.straitc) && trashlast == ref0 + cfg.straitc - 1
      ensures objects.Keys == PidSet(ref0, cfg.straitc) && FreshTrash(objects, ref0, cfg.straitc)
    {
      this.cfg := cfg;
      used, pages, objects := taken, map[], map[];
      ref0, ref0c, ref1, lastlookup, trashlast := 0, 0, 0, 0, 0;
      levels, history := [], [];
      new;
      var first := CreateObjects(0);
      var lookups := FirstLookups(first);
      FirstParents(lookups, first);
      StoreEntry(lookups, first);
    }

    /** Stores the entry of the first strait in the index. */
    method StoreEntry(lookups: seq<nat>, first: nat)
      requires cfg.Ok() && |lookups| == cfg.depth + 1 && first >= 1
      requires InitialStack(cfg, lookups, first, pages)
      requires Initialised(first, cfg.straitc, 0, objects)
      requires pages.Keys <= used && objects.Keys <= used && 0 in used && objects.Keys == PidSet(first, cfg.straitc)
      modifies this`trashlast, this`ref0, this`ref0c, this`ref1, this`lastlookup, this`levels, this`history
      ensures Valid() && Contents() == Strait(first, cfg.straitc)
      ensures ref0 == first && ref0c == cfg.straitc && trashlast == first + cfg.straitc - 1
      ensures FreshTrash(objects, first, cfg.straitc)
    {
      trashlast := first + (cfg.straitc - 1);
      ref0c, ref0, ref1, lastlookup := cfg.straitc, first, lookups[0], lookups[cfg.depth];
      levels := InitialLevels(cfg, lookups, first);
      InitialTree(cfg, lookups, first, pages);
      InitialChain(first, cfg.straitc, objects);
      history := [];
      Record();
    }

    /** One lookup page for every level, from the deepest up. */
    method FirstLookups(first: nat) returns (lookups: seq<nat>)
      requires cfg.Ok() && pages.Keys <= used && first >= 1
      modifies this`used, this`pages
      ensures old(used) <= used && pages.Keys <= used && |lookups| == cfg.depth + 1
      ensures forall d :: 0 <= d <= cfg.depth ==> InitialAt(cfg, lookups, first, pages, d)
      ensures DistinctFrom(lookups, 0)
    {
      lookups := seq(cfg.depth + 1, _ => 0);
      var child := Ref(first, cfg.straitc - 1);
      var i := cfg.depth + 1;
      while i > 0
        invariant 0 <= i <= cfg.depth + 1 == |lookups|
        invariant old(used) <= used && pages.Keys <= used
        invariant child == InitialRef(cfg, lookups, first, i) && child.ref >= 1
        invariant forall d :: i <= d <= cfg.depth ==> InitialAt(cfg, lookups, first, pages, d)
        invariant DistinctFrom(lookups, i)
      {
        i := i - 1;
        var unknown: nat := *;
        ghost var was, lookups' := pages, lookups;
        var pid := NewPage(Lookup(i, unknown, 0, 0, []), child);
        lookups := lookups[i := pid];
        child := Ref(pid, 0);
        InitialStep(cfg, lookups', first, was, pages, i, pid);
      }
    }

    /** Writes the parents, which were not known when the pages were made. */
    method FirstParents(lookups: seq<nat>, ghost first: nat)
      requires cfg.Ok() && |lookups| == cfg.depth + 1 && DistinctFrom(lookups, 0)
      requires forall d :: 0 <= d <= cfg.depth ==> InitialAt(cfg, lookups, first, pages, d)
      modifies this`pages
      ensures pages.Keys == old(pages).Keys
      ensures forall d :: 0 <= d <= cfg.depth ==> InitialAt(cfg, lookups, first, pages, d)
      ensures forall d :: 0 <= d < cfg.depth + 1 ==> InitialParent(cfg, lookups, pages, d)
    {
      var i := 0;
      while i <= cfg.depth
        invariant 0 <= i <= cfg.depth + 1 && pages.Keys == old(pages).Keys
        invariant forall d :: 0 <= d <= cfg.depth ==> InitialAt(cfg, lookups, first, pages, d)
        invariant forall d :: 0 <= d < i ==> InitialParent(cfg, lookups, pages, d)
      {
        ghost var was := pages;
        assert InitialAt(cfg, lookups, first, pages, i);
        var page := pages[lookups[i]];
        pages := pages[lookups[i] := page.(parent := if i == 0 then 0 else lookups[i - 1])];
        InitialParentStep(cfg, lookups, first, was, pages, i);
        i := i + 1;
      }
    }

    /** Any strait of pages that nothing uses. */
    method AddPages(n: nat) returns (base: nat)
      modifies this`used
      ensures Unused(old(used), base, n)
      ensures used == old(used) + PidSet(base, n)
    {
      UnusedExists(used, n);
      base :| Unused(used, base, n);
      used := used + PidSet(base, n);
    }

    method CreateObjects(off: nat) returns (base: nat)
      requires 0 in used && cfg.Ok()
      requires objects.Keys <= used
      modifies this`used, this`objects
      ensures Unused(old(used), base, cfg.straitc)
      ensures used == old(used) + PidSet(base, cfg.straitc)
      ensures objects.Keys == old(objects).Keys + PidSet(base, cfg.straitc)
      ensures forall p :: p in old(objects) ==> p in objects && objects[p] == old(objects)[p]
      ensures Initialised(base, cfg.straitc, off, objects)
    {
      base := AddPages(cfg.straitc);
      var header := ObjectHead(off, 0, 0);
      var i := 0;
      while i < cfg.straitc
        invariant 0 <= i <= cfg.straitc
        invariant used == old(used) + PidSet(base, cfg.straitc)
        invariant header.pleft == off + i
        invariant header.trashvor == if i == 0 then 0 else base + i - 1
        invariant objects.Keys == old(objects).Keys + PidSet(base, i)
        invariant forall p :: p in old(objects) ==> p in objects && objects[p] == old(objects)[p]
        invariant forall r :: 0 <= r < i ==> PageInitialised(base, cfg.straitc, off, objects, r)
      {
        header := header.(pright := if i + 1 == cfg.straitc then 0 else base + i + 1);
        ghost var was := objects;
        objects := objects[base + i := header];
        forall r | 0 <= r < i + 1
          ensures PageInitialised(base, cfg.straitc, off, objects, r)
        {
          assert r < i ==> PageInitialised(base, cfg.straitc, off, was, r);
        }
        header := header.(trashvor := base + i, pleft := header.pleft + 1);
        i := i + 1;
      }
    }

    ghost method Record()
      requires Routed(cfg, levels, pages) && GoodHistory(cfg, history) && Counted(cfg, levels, ref1, ref0c)
      requires history != [] ==> Extends(history[|history| - 1].levels, levels)
      modifies this`history
      ensures GoodHistory(cfg, history) && history == old(history) + [Snapshot(pages, levels, ref1, ref0c)]
    {
      HistoryGrows(cfg, history, Snapshot(pages, levels, ref1, ref0c));
      history := history + [Snapshot(pages, levels, ref1, ref0c)];
    }

    method NewPage(header: Lookup, ref: Ref) returns (pid: nat)
      requires pages.Keys <= used
      modifies this`used, this`pages
      ensures pid !in old(used) && pid !in old(pages) && pid >= 1 && used == old(used) + {pid}
      ensures pages == old(pages)[pid := header.(refs := if ref.ref == 0 then [] else [ref])]
    {
      pid := AddPages(1);
      pages := pages[pid := header.(refs := if ref.ref == 0 then [] else [ref])];
    }

    /** One write to a lookup page, after which the tree routes `next`. */
    method WritePage(pid: nat, page: Lookup, ghost next: Levels)
      requires Routes() && pid in used
      requires Routed(cfg, next, pages[pid := page]) && Extends(levels, next)
      modifies this`pages, this`levels, this`history
      ensures Routes() && pages == old(pages)[pid := page] && levels == next
    {
      CountedGrown(cfg, levels, next, ref1, ref0c);
      pages := pages[pid := page];
      levels := next;
      Record();
    }

    /** Gives back a lookup page that the tree does not route. */
    method DropPage(pid: nat)
      requires Routes() && Routed(cfg, levels, pages - {pid}) && pid != 0 && pid !in objects
      modifies this`used, this`pages, this`history
      ensures Routes() && pages == old(pages) - {pid} && used == old(used) - {pid}
    {
      used := used - {pid};
      pages := pages - {pid};
      Record();
    }

    method CreateLookup(header: Lookup, ref: Ref) returns (pid: nat)
      requires Routes()
      modifies this`used, this`pages, this`levels, this`history
      ensures Routes() && levels == old(levels)
      ensures pid !in old(used) && pid !in old(pages) && pid >= 1 && used == old(used) + {pid}
      ensures pages == old(pages)[pid := header.(refs := if ref.ref == 0 then [] else [ref])]
    {
      ghost var was := pages;
      pid := NewPage(header, ref);
      RoutedSame(cfg, levels, was, pages);
      Record();
    }

    /** Siblings were created for the levels below `i`; nothing else happened since `before`. */
    ghost predicate Climbed(l: Levels, before: Pages, wasUsed: set<nat>, i: nat, created: seq<nat>, strait: nat)
      reads this
      requires Sized(cfg, l)
    {
      && Routes() && levels == l
      && i <= cfg.depth && |created| == cfg.depth && FullFrom(cfg, l, i + 1)
      && SiblingsMade(cfg, l, i, created, strait, before, pages)
      && pages.Keys == before.Keys + Elements(created[i..])
      && used == wasUsed + Elements(created[i..])
      && before.Keys <= wasUsed && objects.Keys <= wasUsed && 0 in wasUsed
      && forall e :: i <= e < cfg.depth ==> created[e] !in wasUsed
    }

    method AddSibling(ghost l: Levels, ghost before: Pages, ghost wasUsed: set<nat>,
                      i: nat, created: seq<nat>, ghost strait: nat, size: nat, pleft: nat, newref: Ref)
      returns (more: seq<nat>, up: Ref)
      requires Routed(cfg, l, before) && Climbed(l, before, wasUsed, i, created, strait)
      requires 0 < i && LevelFull(cfg, l, i) && size == |Straits(cfg, l)| * cfg.straitc
      requires pleft == LastPage(cfg, l, i) && newref == NewRef(cfg, l, created, strait, i) && newref.ref >= 1
      modifies this`used, this`pages, this`levels, this`history
      ensures Climbed(l, before, wasUsed, i - 1, more, strait)
      ensures up == NewRef(cfg, l, more, strait, i - 1) && up.ref >= 1
    {
      ghost var was := pages;
      var parent: nat := *;
      var pid := CreateLookup(Lookup(i, parent, pleft, size, []), newref);
      SiblingAdded(cfg, l, i, created, strait, before, was, pid, pages[pid]);
      more := created[i - 1 := pid];
      ElementsUpdate(created, i, pid);
      up := Ref(pid, size);
    }

    /** The page at a chapter offset, or the end of the chapter. */
    method LookupOid(off: nat) returns (err: Error, pid: int)
      requires Valid()
      ensures err == if off < |Contents()| then None else EndOfFile
      ensures err == None ==> pid == Contents()[off]
    {
      ConcatLength(Straits(cfg, levels), cfg.straitc);
      if off >= ref0c {
        return EndOfFile, 0;
      }
      StartOnPath(cfg, levels, off);
      pid := LookupRec(ref1, 0, off, cfg.depth);
      err := None;
    }

    method LookupRec(root: nat, self: nat, off: nat, depth: nat) returns (pid: int)
      requires Routes() && off < |Straits(cfg, levels)| * cfg.straitc
      requires OnPath(cfg, levels, off, At(depth, root, 0, self))
      ensures off < |Contents()| && pid == Contents()[off]
      decreases depth
    {
      if depth == 0 {
        pid := ScanLeaves(root, self, off);
      } else {
        var ref := ScanBranches(root, self, off, depth);
        pid := LookupRec(ref.ref, ref.off, off, depth - 1);
      }
    }

    /** The strait on a leaf-bearing page that reaches the offset, and the page in it. */
    method ScanLeaves(root: nat, self: nat, off: nat) returns (pid: int)
      requires Routes() && off < |Straits(cfg, levels)| * cfg.straitc
      requires OnPath(cfg, levels, off, At(0, root, 0, self))
      ensures IsPageAt(cfg, levels, off, pid)
    {
      OnPathInRange(cfg, levels, pages, off, At(0, root, 0, self));
      var refs := pages[root].refs;
      var i: nat, start: nat := 0, self;
      while i < |refs| && refs[i].off < off
        invariant i <= |refs| && OnPath(cfg, levels, off, At(0, root, i, start))
      {
        StepOnPath(cfg, levels, pages, off, At(0, root, i, start));
        assert Step(pages, off, At(0, root, i, start)) == At(0, root, i + 1, refs[i].off + 1);
        start := refs[i].off + 1;
        i := i + 1;
      }
      OnPathInRange(cfg, levels, pages, off, At(0, root, i, start));
      StepOnPath(cfg, levels, pages, off, At(0, root, i, start));
      pid := refs[i].ref + (off - start);
      assert Step(pages, off, At(0, root, i, start)) == Found(pid);
    }

    /** The last reference of a branch that starts at or before the offset. */
    method ScanBranches(root: nat, self: nat, off: nat, depth: nat) returns (ref: Ref)
      requires Routes() && off < |Straits(cfg, levels)| * cfg.straitc && depth > 0
      requires OnPath(cfg, levels, off, At(depth, root, 0, self))
      ensures OnPath(cfg, levels, off, At(depth - 1, ref.ref, 0, ref.off))
    {
      OnPathInRange(cfg, levels, pages, off, At(depth, root, 0, self));
      var refs := pages[root].refs;
      var i := 0;
      while i < |refs| && !(i + 1 == |refs| || refs[i + 1].off > off)
        invariant i <= |refs| && OnPath(cfg, levels, off, At(depth, root, i, self))
      {
        StepOnPath(cfg, levels, pages, off, At(depth, root, i, self));
        assert Step(pages, off, At(depth, root, i, self)) == At(depth, root, i + 1, self);
        i := i + 1;
      }
      OnPathInRange(cfg, levels, pages, off, At(depth, root, i, self));
      StepOnPath(cfg, levels, pages, off, At(depth, root, i, self));
      ref := refs[i];
      assert Step(pages, off, At(depth, root, i, self)) == At(depth - 1, ref.ref, 0, ref.off);
    }

    /**
      A lookup that read the entry at some time in the history of writes to this chapter, and one
      page at each of the later `times`, ends at the page that stood at its offset when it began.
     */
    lemma LookupAmongAppends(first: nat, times: seq<nat>, rs: seq<Reader>, off: nat)
      requires Valid() && ReaderRun(cfg, history, times, rs, off) && first < |history|
      requires times != [] ==> first <= times[0]
      requires rs[0] == Start(cfg, history[first].ref1) && off < history[first].ref0c
      ensures !rs[|times|].Lost?
      ensures |times| > (cfg.depth + 1) * cfg.refmax ==> rs[|times|].Found?
      ensures rs[|times|].Found? ==> IsPageAt(cfg, levels, off, rs[|times|].pid)
    {
      var now := |history| - 1;
      assert RoutedAt(cfg, history, first) && GrownBetween(history, first, now) && RoutedAt(cfg, history, now);
      InterleavedLookup(cfg, history, first, times, rs, off);
      if rs[|times|].Found? {
        ConcatPrefix(Straits(cfg, history[first].levels), Straits(cfg, levels), cfg.straitc, off);
      }
    }

    /** From the page at offset `off` to the next one, or the end of the chapter. */
    method PageAdvance(pagepid: nat, ghost off: nat) returns (err: Error, next: nat)
      requires Valid() && off < |Contents()| && pagepid == Contents()[off]
      ensures err == if off + 1 < |Contents()| then None else EndOfFile
      ensures next == if off + 1 < |Contents()| then Contents()[off + 1] else pagepid
    {
      ChainFollows(Straits(cfg, levels), cfg.straitc, objects, off);
      if off + 1 < |Contents()| {
        ChainFollows(Straits(cfg, levels), cfg.straitc, objects, off + 1);
      }
      var newpid := objects[pagepid].pright;
      if newpid == 0 {
        err, next := EndOfFile, pagepid;
      } else {
        err, next := None, newpid;
      }
    }

    /**
      Climbs from the deepest, rightmost lookup page to the first level with room, creating a
      sibling on every full level, and stores a reference there. If there is no room on any
      level, gives back every page it created.
     */
    method StoreReference(strait: nat, size: nat)
      returns (err: Error, i: nat, created: seq<nat>, lookuppid: nat, newref: Ref, ghost made: Pages)
      requires Routes() && Linked(cfg, levels, pages)
      requires lastlookup == LastPage(cfg, levels, cfg.depth)
      requires size == |Straits(cfg, levels)| * cfg.straitc && strait >= 1
      modifies this`used, this`pages, this`levels, this`history
      ensures Routes()
      ensures err == NoSpace <==> FullFrom(cfg, old(levels), 0)
      ensures err == NoSpace ==> used == old(used) && pages == old(pages) && levels == old(levels)
      ensures err == None || err == NoSpace
      ensures err == None ==>
                && old(used) <= used && i <= cfg.depth && |created| == cfg.depth && RoomAt(cfg, old(levels), i)
                && SiblingsMade(cfg, old(levels), i, created, strait, old(pages), made)
                && levels == Grown(cfg, old(levels), i, created, strait)
                && LastPage(cfg, old(levels), i) in made
                && pages == WithRef(cfg, old(levels), i, created, strait, made)
                && lookuppid == LastPage(cfg, old(levels), i)
                && newref == NewRef(cfg, old(levels), created, strait, i)
    {
      ghost var l, before, wasUsed := levels, pages, used;
      var full;
      full, i, created, lookuppid, newref := Climb(strait, size);
      made := pages;
      if full {
        Rollback(created, before, wasUsed);
        err := NoSpace;
      } else {
        StoreOn(lookuppid, newref, l, before, wasUsed, i, created, strait);
        err := None;
      }
    }

    /** From the deepest, rightmost page up to the first level with room, or past the root if there is none. */
    method Climb(strait: nat, size: nat)
      returns (full: bool, i: nat, created: seq<nat>, lookuppid: nat, newref: Ref)
      requires Routes() && Linked(cfg, levels, pages)
      requires lastlookup == LastPage(cfg, levels, cfg.depth)
      requires size == |Straits(cfg, levels)| * cfg.straitc && strait >= 1
      modifies this`used, this`pages, this`levels, this`history
      ensures Sized(cfg, old(levels)) && Climbed(old(levels), old(pages), old(used), i, created, strait)
      ensures full <==> LevelFull(cfg, old(levels), i)
      ensures full ==> i == 0
      ensures lookuppid == LastPage(cfg, old(levels), i) && lookuppid in pages
      ensures newref == NewRef(cfg, old(levels), created, strait, i) && newref.ref >= 1
    {
      ghost var l, before, wasUsed := levels, pages, used;
      lookuppid := lastlookup;
      created := seq(cfg.depth, _ => 0);
      newref := Ref(strait, size + cfg.straitc - 1);
      i := cfg.depth;
      LastPageRefs(cfg, l, pages, i);
      assert created[i..] == [];
      while |pages[lookuppid].refs| == cfg.refmax
        invariant Climbed(l, before, wasUsed, i, created, strait)
        invariant lookuppid == LastPage(cfg, l, i) && lookuppid in before && lookuppid in pages
        invariant |pages[lookuppid].refs| == cfg.refmax <==> LevelFull(cfg, l, i)
        invariant newref == NewRef(cfg, l, created, strait, i) && newref.ref >= 1
        decreases i
      {
        if i == 0 {
          full := true;
          return;
        }
        created, newref, lookuppid := ClimbOn(l, before, wasUsed, i, created, strait, size, lookuppid, newref);
        i := i - 1;
      }
      full := false;
    }

    /** One level up from a full page: a sibling is created next to it, and the search goes on at its parent. */
    method ClimbOn(ghost l: Levels, ghost before: Pages, ghost wasUsed: set<nat>, i: nat, created: seq<nat>,
                   ghost strait: nat, size: nat, pleft: nat, newref: Ref)
      returns (more: seq<nat>, up: Ref, lookuppid: nat)
      requires Routed(cfg, l, before) && Linked(cfg, l, before) && Climbed(l, before, wasUsed, i, created, strait)
      requires 0 < i && LevelFull(cfg, l, i) && size == |Straits(cfg, l)| * cfg.straitc
      requires pleft == LastPage(cfg, l, i) && pleft in before && pleft in pages
      requires newref == NewRef(cfg, l, created, strait, i) && newref.ref >= 1
      modifies this`used, this`pages, this`levels, this`history
      ensures Climbed(l, before, wasUsed, i - 1, more, strait)
      ensures up == NewRef(cfg, l, more, strait, i - 1) && up.ref >= 1
      ensures lookuppid == LastPage(cfg, l, i - 1) && lookuppid in before && lookuppid in pages
      ensures |pages[lookuppid].refs| == cfg.refmax <==> LevelFull(cfg, l, i - 1)
    {
      lookuppid := pages[pleft].parent;
      ParentOfLast(cfg, l, before, i);
      LastPageRefs(cfg, l, before, i - 1);
      more, up := AddSibling(l, before, wasUsed, i, created, strait, size, pleft, newref);
    }

    /** Stores the new reference on the page with room: from here on the new strait is routed. */
    method StoreOn(lookuppid: nat, newref: Ref, ghost l: Levels, ghost before: Pages, ghost wasUsed: set<nat>,
                   ghost i: nat, ghost created: seq<nat>, ghost strait: nat)
      requires Routed(cfg, l, before) && Climbed(l, before, wasUsed, i, created, strait) && !LevelFull(cfg, l, i)
      requires lookuppid == LastPage(cfg, l, i) && lookuppid in pages && newref == NewRef(cfg, l, created, strait, i)
      modifies this`pages, this`levels, this`history
      ensures Routes() && levels == Grown(cfg, l, i, created, strait)
      ensures pages == WithRef(cfg, l, i, created, strait, old(pages))
    {
      RoutedGrown(cfg, l, i, created, strait, before, pages);
      var page := pages[lookuppid];
      WritePage(lookuppid, page.(refs := page.refs + [newref]), Grown(cfg, l, i, created, strait));
    }

    /**
      Walks back down from level `i` to the leaf-bearing page, writing into each new page the
      parent that was not known when it was created. Returns the deepest, rightmost page.
     */
    method FixParents(ghost l: Levels, ghost before: Pages, i: nat, ghost created: seq<nat>, ghost strait: nat,
                      top: nat, first: Ref)
      returns (lookuppid: nat)
      requires Routes() && Sized(cfg, l) && i <= cfg.depth && |created| == cfg.depth && DistinctFrom(created, i)
      requires FixedDown(cfg, l, i, created, before, pages, pages, i)
      requires forall e :: i <= e < cfg.depth ==> Onward(cfg, l, created, strait, before, pages, e)
      requires top == LastPage(cfg, l, i) && first == NewRef(cfg, l, created, strait, i)
      modifies this`pages, this`levels, this`history
      ensures Routes() && levels == old(levels)
      ensures FixedDown(cfg, l, i, created, before, old(pages), pages, cfg.depth)
      ensures lookuppid == if i == cfg.depth then top else created[cfg.depth - 1]
    {
      lookuppid := top;
      var newref := first;
      var k := i;
      while k < cfg.depth
        invariant i <= k <= cfg.depth
        invariant Routes() && levels == old(levels)
        invariant FixedDown(cfg, l, i, created, before, old(pages), pages, k)
        invariant newref == NewRef(cfg, l, created, strait, k)
        invariant lookuppid == if k == i then top else created[k - 1]
      {
        assert Onward(cfg, l, created, strait, before, old(pages), k);
        var page := pages[newref.ref];
        FixedStep(cfg, l, i, created, before, old(pages), pages, k);
        RoutedParent(cfg, levels, pages, newref.ref, lookuppid);
        WritePage(newref.ref, page.(parent := lookuppid), levels);
        lookuppid := newref.ref;
        newref := page.refs[0];
        k := k + 1;
      }
    }

    /** References a strait in the tree, from the root down to the deepest, rightmost page. */
    method Reference(strait: nat, size: nat) returns (err: Error, lookuppid: nat)
      requires Routes() && Linked(cfg, levels, pages)
      requires lastlookup == LastPage(cfg, levels, cfg.depth)
      requires size == |Straits(cfg, levels)| * cfg.straitc && strait >= 1
      modifies this`used, this`pages, this`levels, this`history
      ensures Routes() && Linked(cfg, levels, pages)
      ensures err == NoSpace <==> |Straits(cfg, old(levels))| == Pow(cfg.refmax, cfg.depth + 1)
      ensures err == NoSpace ==> used == old(used) && pages == old(pages) && levels == old(levels)
      ensures err == None || err == NoSpace
      ensures err == None ==>
                && old(used) <= used
                && levels[0] == old(levels[0]) && Straits(cfg, levels) == Straits(cfg, old(levels)) + [strait]
                && lookuppid == LastPage(cfg, levels, cfg.depth)
    {
      ghost var l, before := levels, pages;
      FullIffCapacity(cfg, l);
      var i, created, newref;
      ghost var made;
      err, i, created, lookuppid, newref, made := StoreReference(strait, size);
      if err == None {
        lookuppid := Descend(l, before, made, i, created, strait, lookuppid, newref);
      }
    }

    /** The way back down from the level with room. */
    method Descend(ghost l: Levels, ghost before: Pages, ghost made: Pages, i: nat, ghost created: seq<nat>,
                   ghost strait: nat, top: nat, newref: Ref)
      returns (lookuppid: nat)
      requires Routes() && Routed(cfg, l, before) && Linked(cfg, l, before)
      requires i <= cfg.depth && |created| == cfg.depth && RoomAt(cfg, l, i)
      requires SiblingsMade(cfg, l, i, created, strait, before, made) && LastPage(cfg, l, i) in made
      requires levels == Grown(cfg, l, i, created, strait) && pages == WithRef(cfg, l, i, created, strait, made)
      requires top == LastPage(cfg, l, i) && newref == NewRef(cfg, l, created, strait, i)
      modifies this`pages, this`levels, this`history
      ensures Routes() && Linked(cfg, levels, pages)
      ensures levels[0] == l[0] && Straits(cfg, levels) == Straits(cfg, l) + [strait]
      ensures lookuppid == LastPage(cfg, levels, cfg.depth)
    {
      ReadyToDescend(cfg, l, i, created, strait, before, made);
      lookuppid := FixParents(l, before, i, created, strait, top, newref);
      TreeGrown(cfg, l, i, created, strait, before, made, pages);
    }

    /** The new pages are chained for the trash, from the last of them back to the first. */
    static ghost predicate FreshTrash(objects: Objects, strait: nat, n: nat) {
      forall p :: strait <= p < strait + n ==>
        p in objects && objects[p].trashvor == if p == strait then 0 else p - 1
    }

    /** No page that was there changed its place in the trash. */
    static ghost predicate SameTrash(was: Objects, objects: Objects) {
      forall p :: p in was ==> p in objects && objects[p].trashvor == was[p].trashvor
    }

    /** Writes the trash fields of one object page and of the entry. */
    method SetTrash(pid: nat, vor: nat, last: nat)
      requires Valid() && pid in objects
      modifies this`objects, this`trashlast
      ensures Valid() && Contents() == old(Contents())
      ensures objects == old(objects)[pid := old(objects)[pid].(trashvor := vor)] && trashlast == last
    {
      TrashIsApart(Straits(cfg, levels), cfg.straitc, objects, pid, vor);
      objects := objects[pid := objects[pid].(trashvor := vor)];
      trashlast := last;
    }

    /**
      Appends one strait of object pages to the chapter. It fails exactly when the chapter
      already holds as many straits as the tree can name, and then leaves no trace.
     */
    method Append() returns (err: Error, strait: nat)
      requires Valid() && trashlast == 0
      modifies this
      ensures Valid()
      ensures err == None || err == NoSpace
      ensures err == NoSpace <==> old(Full())
      ensures err == NoSpace ==>
                && used == old(used) && pages == old(pages) && objects == old(objects)
                && Contents() == old(Contents()) && ref0 == old(ref0) && ref0c == old(ref0c) && ref1 == old(ref1)
                && lastlookup == old(lastlookup) && trashlast == old(trashlast)
      ensures err == None ==>
                && Contents() == old(Contents()) + Strait(strait, cfg.straitc)
                && Unused(old(used), strait, cfg.straitc) && Unused(old(objects).Keys, strait, cfg.straitc)
                && ref0 == old(ref0) && ref0c == old(ref0c) + cfg.straitc && ref1 == old(ref1)
                && trashlast == strait + cfg.straitc - 1
                && objects.Keys == old(objects).Keys + PidSet(strait, cfg.straitc)
                && SameTrash(old(objects), objects) && FreshTrash(objects, strait, cfg.straitc)
    {
      ghost var l, was := levels, objects;
      CapacityInPages(|Straits(cfg, l)|, Pow(cfg.refmax, cfg.depth + 1), cfg.straitc);
      var size := ref0c;
      var oldLast;
      strait, oldLast := NewStrait(size);
      var lookuppid;
      err, lookuppid := Reference(strait, size);
      if err != None {
        used := used - PidSet(strait, cfg.straitc);
        objects := objects - PidSet(strait, cfg.straitc);
        assert used == old(used) && objects == was;
        return;
      }
      Publish(oldLast, strait, lookuppid, Straits(cfg, l), was);
    }

    /** The pages of the new strait, which lie behind the old last page but are not linked to it yet. */
    method NewStrait(size: nat) returns (strait: nat, oldLast: nat)
      requires Valid() && size == ref0c
      modifies this`used, this`objects
      ensures Routes() && Unused(old(used), strait, cfg.straitc) && used == old(used) + PidSet(strait, cfg.straitc)
      ensures Behind(Straits(cfg, levels), cfg.straitc, old(objects), objects, strait)
      ensures oldLast == LastOf(Straits(cfg, levels), cfg.straitc)
    {
      ghost var was := objects;
      strait := CreateObjects(size);
      CreatedBehind(Straits(cfg, levels), cfg.straitc, was, objects, strait);
      LastPageRefs(cfg, levels, pages, cfg.depth);
      oldLast := LastObject(pages[lastlookup]);
    }

    /** The last steps of an append: the old last page leads to the new strait, and the entry counts it. */
    method Publish(oldLast: nat, strait: nat, lookup: nat, ghost straits: seq<nat>, ghost was: Objects)
      requires Routes() && Linked(cfg, levels, pages) && |straits| >= 1
      requires Straits(cfg, levels) == straits + [strait] && lookup == LastPage(cfg, levels, cfg.depth)
      requires Behind(straits, cfg.straitc, was, objects, strait)
      requires oldLast == LastOf(straits, cfg.straitc)
      requires ref0 == straits[0] && ref1 == levels[0][0] && ref0c == |straits| * cfg.straitc
      modifies this`objects, this`lastlookup, this`ref0c, this`trashlast, this`history
      ensures Valid() && ref0c == old(ref0c) + cfg.straitc && trashlast == strait + cfg.straitc - 1
      ensures Contents() == Concat(straits, cfg.straitc) + Strait(strait, cfg.straitc)
      ensures objects.Keys == was.Keys + PidSet(strait, cfg.straitc) && SameTrash(was, objects)
      ensures FreshTrash(objects, strait, cfg.straitc)
    {
      ChainExtended(straits, cfg.straitc, was, objects, strait);
      CapacityInPages(|straits|, 0, cfg.straitc);
      objects := objects[oldLast := objects[oldLast].(pright := strait)];
      lastlookup := lookup;
      ref0c := ref0c + cfg.straitc;
      Record();
      trashlast := strait + cfg.straitc - 1;
    }

    /** The last object page of the chapter, from the last leaf-bearing lookup page alone. */
    method LastObject(head: Lookup) returns (pid: nat)
      requires Routes() && Linked(cfg, levels, pages) && lastlookup == LastPage(cfg, levels, cfg.depth)
      requires lastlookup in pages && head == pages[lastlookup]
      ensures |Straits(cfg, levels)| >= 1
      ensures pid == Straits(cfg, levels)[|Straits(cfg, levels)| - 1] + cfg.straitc - 1
    {
      LastLeafRefs(cfg, levels, pages);
      var refc := |head.refs|;
      pid := head.refs[refc - 1].ref;
      if refc == 1 {
        pid := pid + (head.refs[refc - 1].off - head.pright);
      } else {
        pid := pid + (head.refs[refc - 1].off - (head.refs[refc - 2].off + 1));
      }
    }

    /** Deletes the lookup pages that an append created before it found the tree full. */
    method Rollback(created: seq<nat>, ghost before: Pages, ghost wasUsed: set<nat>)
      requires Routes() && Routed(cfg, levels, before)
      requires before.Keys <= wasUsed && objects.Keys <= wasUsed && 0 in wasUsed
      requires Keeps(before, pages)
      requires pages.Keys == before.Keys + Elements(created)
      requires used == wasUsed + Elements(created)
      requires forall e :: 0 <= e < |created| ==> created[e] !in wasUsed
      requires DistinctFrom(created, 0)
      modifies this`used, this`pages, this`history
      ensures Routes() && pages == before && used == wasUsed
    {
      var d := 0;
      assert created[d..] == created;
      while d < |created|
        invariant 0 <= d <= |created| && Routes()
        invariant Keeps(before, pages)
        invariant pages.Keys == before.Keys + Elements(created[d..])
        invariant used == wasUsed + Elements(created[d..])
      {
        ElementsTail(created, d);
        RoutedSame(cfg, levels, before, pages - {created[d]});
        DropPage(created[d]);
        d := d + 1;
      }
    }
  }

  // ------------------------------------------------------------------ the first tree of an entry

  /** What the page of level `i - 1` names first. */
  function InitialRef(c: Config, lookups: seq<nat>, first: nat, i: nat): Ref
    requires |lookups| == c.depth + 1 && i <= c.depth + 1 && c.straitc >= 1
  {
    if i == c.depth + 1 then Ref(first, c.straitc - 1) else Ref(lookups[i], 0)
  }

  ghost predicate InitialAt(c: Config, lookups: seq<nat>, first: nat, pages: Pages, d: nat)
    requires |lookups| == c.depth + 1 && d <= c.depth && c.straitc >= 1
  {
    && lookups[d] in pages
    && pages[lookups[d]] == Lookup(d, pages[lookups[d]].parent, 0, 0, [InitialRef(c, lookups, first, d + 1)])
  }

  ghost predicate InitialParent(c: Config, lookups: seq<nat>, pages: Pages, d: nat)
    requires |lookups| == c.depth + 1 && d <= c.depth
  {
    lookups[d] in pages && pages[lookups[d]].parent == if d == 0 then 0 else lookups[d - 1]
  }

  ghost function InitialLevels(c: Config, lookups: seq<nat>, first: nat): Levels
    requires |lookups| == c.depth + 1
  {
    seq(c.depth + 2, d requires 0 <= d < c.depth + 2 => [if d <= c.depth then lookups[d] else first])
  }

  lemma InitialStep(c: Config, lookups: seq<nat>, first: nat, was: Pages, pages: Pages, i: nat, pid: nat)
    requires |lookups| == c.depth + 1 && i <= c.depth && c.straitc >= 1 && pid !in was && DistinctFrom(lookups, i + 1)
    requires forall d :: i + 1 <= d <= c.depth ==> InitialAt(c, lookups, first, was, d)
    requires pid in pages
    requires pages == was[pid := Lookup(i, pages[pid].parent, 0, 0, [InitialRef(c, lookups, first, i + 1)])]
    ensures var more := lookups[i := pid];
            && (forall d :: i <= d <= c.depth ==> InitialAt(c, more, first, pages, d))
            && DistinctFrom(more, i)
  {
    var more := lookups[i := pid];
    forall d | i <= d <= c.depth
      ensures InitialAt(c, more, first, pages, d) && (d > i ==> more[d] != pid)
    {
      assert d > i ==> InitialAt(c, lookups, first, was, d);
    }
  }

  lemma InitialParentStep(c: Config, lookups: seq<nat>, first: nat, was: Pages, pages: Pages, i: nat)
    requires |lookups| == c.depth + 1 && i <= c.depth && c.straitc >= 1
    requires forall d :: 0 <= d <= c.depth ==> InitialAt(c, lookups, first, was, d)
    requires forall d :: 0 <= d < i ==> InitialParent(c, lookups, was, d)
    requires lookups[i] in was
    requires pages == was[lookups[i] := was[lookups[i]].(parent := if i == 0 then 0 else lookups[i - 1])]
    ensures forall d :: 0 <= d <= c.depth ==> InitialAt(c, lookups, first, pages, d)
    ensures forall d :: 0 <= d < i + 1 ==> InitialParent(c, lookups, pages, d)
  {
    forall d | 0 <= d <= c.depth
      ensures InitialAt(c, lookups, first, pages, d) && (d <= i ==> InitialParent(c, lookups, pages, d))
    {
      assert InitialAt(c, lookups, first, was, d) && InitialAt(c, lookups, first, was, i);
      assert d < i ==> InitialParent(c, lookups, was, d);
    }
  }

  ghost predicate InitialStack(c: Config, lookups: seq<nat>, first: nat, pages: Pages)
    requires |lookups| == c.depth + 1 && c.straitc >= 1
  {
    && (forall d :: 0 <= d <= c.depth ==> InitialAt(c, lookups, first, pages, d))
    && (forall d :: 0 <= d < c.depth + 1 ==> InitialParent(c, lookups, pages, d))
  }

  lemma InitialTree(c: Config, lookups: seq<nat>, first: nat, pages: Pages)
    requires |lookups| == c.depth + 1 && c.Ok() && InitialStack(c, lookups, first, pages)
    ensures Routed(c, InitialLevels(c, lookups, first), pages)
    ensures Linked(c, InitialLevels(c, lookups, first), pages)
    ensures var l := InitialLevels(c, lookups, first);
            Straits(c, l) == [first] && l[0][0] == lookups[0] && LastPage(c, l, c.depth) == lookups[c.depth]
  {
    var l := InitialLevels(c, lookups, first);
    assert forall d :: 0 <= d <= c.depth ==> LevelSized(c, l, d);
    forall d, j | 0 <= d <= c.depth && 0 <= j < |l[d]|
      ensures PageHolds(c, l, pages, d, j) && HeadHolds(c, l, pages, d, j)
    {
      assert InitialAt(c, lookups, first, pages, d);
      StartZero(c, d);
    }
    forall d, j | 0 <= d < c.depth && 0 <= j < |l[d]|
      ensures ChildrenHold(pages, l[d][j])
    {
      assert InitialAt(c, lookups, first, pages, d) && InitialParent(c, lookups, pages, d + 1);
    }
    assert InitialParent(c, lookups, pages, 0);
  }

  lemma {:induction false} InitialChain(first: nat, n: nat, objects: Objects)
    requires Initialised(first, n, 0, objects) && n >= 1
    requires objects.Keys == PidSet(first, n)
    ensures Chained([first], n, objects) && Concat([first], n) == Strait(first, n)
    ensures Placed(Concat([first], n), objects) && Chapter.FreshTrash(objects, first, n)
  {
    ConcatAppend([], first, n);
    InitialChained(first, n, objects);
    InitialPlaced(first, n, objects);
    InitialTrash(first, n, objects);
  }

  lemma InitialChained(first: nat, n: nat, objects: Objects)
    requires Initialised(first, n, 0, objects)
    ensures Chained([first], n, objects)
  {
    forall k, r | 0 <= k < 1 && 0 <= r < n
      ensures PageChained([first], n, objects, k, r)
    {
      assert PageInitialised(first, n, 0, objects, r);
    }
  }

  lemma {:induction false} InitialPlaced(first: nat, n: nat, objects: Objects)
    requires Initialised(first, n, 0, objects) && objects.Keys == PidSet(first, n)
    ensures Placed(Strait(first, n), objects)
  {
    forall p | p in objects
      ensures PlacedAt(Strait(first, n), objects, p)
    {
      assert PageInitialised(first, n, 0, objects, p - first);
    }
  }

  lemma InitialTrash(first: nat, n: nat, objects: Objects)
    requires Initialised(first, n, 0, objects)
    ensures Chapter.FreshTrash(objects, first, n)
  {
    forall p | first <= p < first + n
      ensures p in objects && objects[p].trashvor == if p == first then 0 else p - 1
    {
      assert PageInitialised(first, n, 0, objects, p - first);
    }
  }

  function Elements(s: seq<nat>): set<nat> {
    set x | x in s
  }

  lemma ElementsUpdate(s: seq<nat>, i: nat, x: nat)
    requires 0 < i <= |s|
    ensures Elements(s[i - 1 := x][i - 1..]) == Elements(s[i..]) + {x}
  {
    assert s[i - 1 := x][i - 1..] == [x] + s[i..];
  }

  lemma ElementsTail(s: seq<nat>, d: nat)
    requires d < |s|
    requires DistinctFrom(s, 0)
    ensures Elements(s[d..]) == Elements(s[d + 1..]) + {s[d]} && s[d] !in Elements(s[d + 1..])
  {
    assert s[d..] == [s[d]] + s[d + 1..];
  }

  /** One more level has its sibling. */
  lemma SiblingAdded(c: Config, l: Levels, i: nat, created: seq<nat>, strait: nat, before: Pages, after: Pages,
                     pid: nat, p: Lookup)
    requires Routed(c, l, before) && 0 < i <= c.depth && |created| == c.depth
    requires SiblingsMade(c, l, i, created, strait, before, after)
    requires pid !in after && IsSibling(c, l, created, strait, i, p)
    ensures SiblingsMade(c, l, i - 1, created[i - 1 := pid], strait, before, after[pid := p])
  {
    var more, grown := created[i - 1 := pid], after[pid := p];
    forall e | i - 1 <= e < c.depth
      ensures SiblingAt(c, l, more, strait, before, grown, e)
    {
      assert e >= i ==> SiblingAt(c, l, created, strait, before, after, e);
      assert e + 1 < c.depth ==> more[e + 1] == created[e + 1];
    }
    forall f | i <= f < c.depth
      ensures created[f] != pid
    {
      assert SiblingAt(c, l, created, strait, before, after, f);
    }
  }

  /** The last page of a level is full exactly when its level is. */
  lemma LastPageRefs(c: Config, l: Levels, pages: Pages, d: nat)
    requires Routed(c, l, pages) && d <= c.depth
    ensures LastPage(c, l, d) in pages && |pages[LastPage(c, l, d)].refs| >= 1
    ensures |pages[LastPage(c, l, d)].refs| <= c.refmax
    ensures |pages[LastPage(c, l, d)].refs| == c.refmax <==> LevelFull(c, l, d)
  {
    assert PageHolds(c, l, pages, d, LastIndex(c, l, d)) && LevelSized(c, l, d);
  }

  /** The parents are written for the levels above `k + 1`, and nothing but parents changed. */
  ghost predicate FixedDown(c: Config, l: Levels, i: nat, created: seq<nat>, before: Pages, committed: Pages,
                            pages: Pages, k: nat)
    requires Sized(c, l) && i <= k <= c.depth && |created| == c.depth
  {
    && SameButParents(committed, pages) && pages.Keys == committed.Keys
    && (forall e :: i <= e < k ==> ParentAt(c, l, i, created, pages, e))
    && (forall p :: p in before ==> p in pages && pages[p].parent == before[p].parent)
  }

  lemma RoutedParent(c: Config, l: Levels, pages: Pages, pid: nat, parent: nat)
    requires Routed(c, l, pages) && pid in pages
    ensures Routed(c, l, pages[pid := pages[pid].(parent := parent)])
  {
    RoutedSame(c, l, pages, pages[pid := pages[pid].(parent := parent)]);
  }

  /** The page created for level `e + 1` is new and names the one created for level `e + 2`, or the strait. */
  ghost predicate Onward(c: Config, l: Levels, created: seq<nat>, strait: nat, before: Pages, pages: Pages, e: nat)
    requires Sized(c, l) && e < c.depth && |created| == c.depth
  {
    created[e] !in before && created[e] in pages && pages[created[e]].refs == [NewRef(c, l, created, strait, e + 1)]
  }

  /** The tree once the append has walked back down. */
  lemma TreeGrown(c: Config, l: Levels, i: nat, created: seq<nat>, strait: nat, before: Pages, made: Pages,
                  after: Pages)
    requires Routed(c, l, before) && Linked(c, l, before)
    requires i <= c.depth && |created| == c.depth && RoomAt(c, l, i)
    requires SiblingsMade(c, l, i, created, strait, before, made) && LastPage(c, l, i) in made
    requires FixedDown(c, l, i, created, before, WithRef(c, l, i, created, strait, made), after, c.depth)
    ensures var g := Grown(c, l, i, created, strait);
            && Sized(c, g) && Linked(c, g, after)
            && g[0] == l[0] && Straits(c, g) == Straits(c, l) + [strait]
            && LastPage(c, g, c.depth) == if i == c.depth then LastPage(c, l, i) else created[c.depth - 1]
  {
    SizedGrown(c, l, i, created, strait);
    LinkedGrown(c, l, i, created, strait, before, made, after);
  }

  lemma ReadyToDescend(c: Config, l: Levels, i: nat, created: seq<nat>, strait: nat, before: Pages, made: Pages)
    requires Routed(c, l, before) && i <= c.depth && |created| == c.depth
    requires SiblingsMade(c, l, i, created, strait, before, made) && LastPage(c, l, i) in made
    ensures var pages := WithRef(c, l, i, created, strait, made);
            && FixedDown(c, l, i, created, before, pages, pages, i)
            && forall e :: i <= e < c.depth ==> Onward(c, l, created, strait, before, pages, e)
  {
    LastPageRefs(c, l, before, i);
    var pages := WithRef(c, l, i, created, strait, made);
    forall e | i <= e < c.depth
      ensures Onward(c, l, created, strait, before, pages, e)
    {
      assert SiblingAt(c, l, created, strait, before, made, e);
    }
  }

  lemma FixedStep(c: Config, l: Levels, i: nat, created: seq<nat>, before: Pages, committed: Pages, pages: Pages,
                  k: nat)
    requires Sized(c, l) && i <= k < c.depth && |created| == c.depth
    requires created[k] !in before && forall e :: i <= e < k ==> created[e] != created[k]
    requires FixedDown(c, l, i, created, before, committed, pages, k) && created[k] in pages
    ensures FixedDown(c, l, i, created, before, committed,
                      pages[created[k] := pages[created[k]].(parent := NewParent(c, l, i, created, k))], k + 1)
  {
    var after := pages[created[k] := pages[created[k]].(parent := NewParent(c, l, i, created, k))];
    OneParent(committed, pages, created[k], NewParent(c, l, i, created, k));
    forall e | i <= e < k + 1
      ensures ParentAt(c, l, i, created, after, e)
    {
      assert e < k ==> ParentAt(c, l, i, created, pages, e);
    }
  }

  lemma OneParent(committed: Pages, pages: Pages, pid: nat, parent: nat)
    requires SameButParents(committed, pages) && pid in pages
    ensures SameButParents(committed, pages[pid := pages[pid].(parent := parent)])
  {
    var after := pages[pid := pages[pid].(parent := parent)];
    forall p | p in committed
      ensures p in after && after[p] == committed[p].(parent := after[p].parent)
    {
      assert pages[p] == committed[p].(parent := pages[p].parent);
    }
  }

  lemma CapacityInPages(n: nat, most: nat, s: nat)
    requires s >= 1
    ensures n == most <==> n * s == s * most
    ensures (n + 1) * s == n * s + s
  {
    MulMonotone(n + 1, most, s);
    MulMonotone(most + 1, n, s);
  }

  ghost function LastOf(straits: seq<nat>, n: nat): nat
    requires |straits| >= 1 && n >= 1
  {
    straits[|straits| - 1] + n - 1
  }

  /** The strait at `base`, created behind the chapter `straits`, before anything leads to it. */
  ghost predicate Behind(straits: seq<nat>, n: nat, was: Objects, objects: Objects, base: nat) {
    && Chained(straits, n, was) && |straits| >= 1 && n >= 1
    && (forall p :: p in was ==> p in objects && objects[p] == was[p])
    && (forall p :: base <= p < base + n ==> p !in was)
    && Initialised(base, n, |straits| * n, objects)
    && Placed(Concat(straits, n), was) && objects.Keys == was.Keys + PidSet(base, n)
    && LastOf(straits, n) in was
  }

  lemma {:induction false} CreatedBehind(straits: seq<nat>, n: nat, was: Objects, objects: Objects, base: nat)
    requires Chained(straits, n, was) && Placed(Concat(straits, n), was) && |straits| >= 1 && n >= 1
    requires forall p :: p in was ==> p in objects && objects[p] == was[p]
    requires forall p :: base <= p < base + n ==> p !in was
    requires Initialised(base, n, |straits| * n, objects) && objects.Keys == was.Keys + PidSet(base, n)
    ensures Behind(straits, n, was, objects, base)
  {
    assert PageChained(straits, n, was, |straits| - 1, n - 1);
  }

  ghost function LedOn(straits: seq<nat>, n: nat, objects: Objects, base: nat): Objects
    requires |straits| >= 1 && n >= 1 && LastOf(straits, n) in objects
  {
    objects[LastOf(straits, n) := objects[LastOf(straits, n)].(pright := base)]
  }

  lemma NewPagesLedOn(straits: seq<nat>, n: nat, was: Objects, objects: Objects, base: nat)
    requires Behind(straits, n, was, objects, base)
    ensures LastOf(straits, n) in was && Initialised(base, n, |straits| * n, LedOn(straits, n, objects, base))
  {
    assert PageChained(straits, n, was, |straits| - 1, n - 1);
    forall r | 0 <= r < n
      ensures PageInitialised(base, n, |straits| * n, LedOn(straits, n, objects, base), r)
    {
      assert PageInitialised(base, n, |straits| * n, objects, r);
    }
  }

  lemma InitialisedTrash(base: nat, n: nat, off: nat, objects: Objects)
    requires Initialised(base, n, off, objects)
    ensures Chapter.FreshTrash(objects, base, n)
    ensures forall p :: base <= p < base + n ==> p in objects && objects[p].pleft == off + (p - base)
  {
    forall p | base <= p < base + n
      ensures p in objects && objects[p].trashvor == if p == base then 0 else p - 1
      ensures objects[p].pleft == off + (p - base)
    {
      assert PageInitialised(base, n, off, objects, p - base);
    }
  }

  lemma {:induction false} ChainExtended(straits: seq<nat>, n: nat, was: Objects, objects: Objects, base: nat)
    requires Behind(straits, n, was, objects, base)
    ensures Concat(straits + [base], n) == Concat(straits, n) + Strait(base, n)
    ensures var after := LedOn(straits, n, objects, base);
            && Chained(straits + [base], n, after) && Placed(Concat(straits + [base], n), after)
            && Chapter.FreshTrash(after, base, n)
            && Chapter.SameTrash(was, after) && after.Keys == was.Keys + PidSet(base, n)
  {
    var after := LedOn(straits, n, objects, base);
    ConcatAppend(straits, base, n);
    ConcatLength(straits, n);
    NewPagesLedOn(straits, n, was, objects, base);
    InitialisedTrash(base, n, |straits| * n, after);
    ChainedAppend(straits, n, was, base, after);
    PlacedGrown(Concat(straits, n), was, base, n, after);
  }

  /** What the last leaf-bearing page says about the last strait. */
  lemma LastLeafRefs(c: Config, l: Levels, pages: Pages)
    requires Routed(c, l, pages) && Linked(c, l, pages)
    ensures |Straits(c, l)| >= 1 && LastPage(c, l, c.depth) in pages
    ensures var p := pages[LastPage(c, l, c.depth)];
            var n := |p.refs|;
            && n >= 1
            && p.refs[n - 1] == Ref(Straits(c, l)[|Straits(c, l)| - 1], |Straits(c, l)| * c.straitc - 1)
            && (if n == 1 then p.pright else p.refs[n - 2].off + 1) == (|Straits(c, l)| - 1) * c.straitc
  {
    var d := c.depth;
    var j := LastIndex(c, l, d);
    LastPageRefs(c, l, pages, d);
    assert PageHolds(c, l, pages, d, j) && HeadHolds(c, l, pages, d, j) && LevelSized(c, l, d);
    var p := pages[LastPage(c, l, d)];
    var k: nat := |Straits(c, l)| - 1;
    MulStep(k, c.straitc);
    assert p.refs[|p.refs| - 1].off == RefOff(c, d, j * c.refmax + (|p.refs| - 1));
    if |p.refs| > 1 {
      MulStep(k - 1, c.straitc);
      assert p.refs[|p.refs| - 2].off == RefOff(c, d, j * c.refmax + (|p.refs| - 2));
    } else {
      assert StartOff(c, d, j) == StartOff(c, d + 1, j * c.refmax);
    }
  }

  /** The last page of a level is named last by the last page of the level above. */
  lemma ParentOfLast(c: Config, l: Levels, pages: Pages, d: nat)
    requires Routed(c, l, pages) && Linked(c, l, pages) && 0 < d <= c.depth
    ensures LastPage(c, l, d) in pages && pages[LastPage(c, l, d)].parent == LastPage(c, l, d - 1)
  {
    var p := LastPage(c, l, d - 1);
    LastPageRefs(c, l, pages, d - 1);
    assert PageHolds(c, l, pages, d - 1, LastIndex(c, l, d - 1));
    assert ChildrenHold(pages, p);
    assert pages[p].refs[|pages[p].refs| - 1].ref == LastPage(c, l, d);
  }
}
