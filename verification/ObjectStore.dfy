/**
  The objects of one entity: rows on the object pages of its chapter, created from trash,
  deleted into trash and undeleted out of it.
 */
module ObjectStore {
  import opened Sequences

  import opened ObjectPages
  import opened FreeList
  import opened TrashChain
  import opened LookupTree
  import C = Chapter

  type RowPages = map<nat, RowPage>

  type Frees = map<nat, seq<nat>>

  ghost predicate RowsAt(n: nat, rows: RowPages, free: Frees, p: nat)
    requires p in rows
  {
    p in free && |rows[p].rows| == n && FreeListOf(rows[p], free[p])
  }

  ghost predicate RowsOk(n: nat, rows: RowPages, free: Frees) {
    forall p {:trigger RowsAt(n, rows, free, p)} :: p in rows ==> RowsAt(n, rows, free, p)
  }

  /** Every page with more than half of its rows in the trash is on the chain. */
  ghost predicate Held(n: nat, rows: RowPages, chain: seq<nat>) {
    forall p :: p in rows && Critical(rows[p].trashc, n) ==> p in chain
  }

  predicate LiveAt(rows: RowPages, p: nat, r: nat) {
    p in rows && r < |rows[p].rows| && !rows[p].rows[r].deleted
  }

  /** Row `r` of page `p` is as live as it was, with the same content if it is live. */
  ghost predicate KeptAt(was: RowPages, rows: RowPages, p: nat, r: nat) {
    && (LiveAt(rows, p, r) <==> LiveAt(was, p, r))
    && (LiveAt(was, p, r) ==> rows[p].rows[r] == was[p].rows[r])
  }

  /** Nothing but row `row` of page `pid` changed. */
  ghost predicate KeptBut(was: RowPages, rows: RowPages, pid: nat, row: nat) {
    forall p: nat, r: nat :: !(p == pid && r == row) ==> KeptAt(was, rows, p, r)
  }

  /** No row changed, except that rows may have been added to the trash along with new pages. */
  ghost predicate Kept(was: RowPages, rows: RowPages) {
    forall p: nat, r: nat :: KeptAt(was, rows, p, r)
  }

  ghost predicate HasTrash(rows: RowPages, p: nat) {
    p in rows && rows[p].start != END
  }

  /** `rows` is `was` with the trash pages `base`, ..., `base + n - 1`. */
  ghost predicate Added(was: RowPages, rows: RowPages, base: nat, n: nat) {
    && (forall p :: p in rows <==> p in was || base <= p < base + n)
    && (forall p :: p in was ==> p in rows && rows[p] == was[p])
    && (forall p :: base <= p < base + n ==>
         HasTrash(rows, p) && forall r :: 0 <= r < |rows[p].rows| ==> rows[p].rows[r].deleted)
  }

  lemma AddedOne(was: RowPages, rows: RowPages, base: nat, i: nat, q: RowPage)
    requires Added(was, rows, base, i) && base + i !in was
    requires q.start != END && forall r :: 0 <= r < |q.rows| ==> q.rows[r].deleted
    ensures Added(was, rows[base + i := q], base, i + 1)
  {
    var after := rows[base + i := q];
    forall p | base <= p < base + (i + 1)
      ensures HasTrash(after, p) && forall r :: 0 <= r < |after[p].rows| ==> after[p].rows[r].deleted
    {
      assert p != base + i ==> HasTrash(rows, p);
    }
  }

  lemma AddedKept(was: RowPages, rows: RowPages, base: nat, n: nat)
    requires Added(was, rows, base, n) && C.Unused(was.Keys, base, n)
    ensures Kept(was, rows)
  {
    forall p: nat, r: nat
      ensures KeptAt(was, rows, p, r)
    {
      if base <= p < base + n {
        assert HasTrash(rows, p);
      }
    }
  }

  ghost predicate SamePages(rows: RowPages, objects: Objects) {
    forall p :: p in rows <==> p in objects
  }

  /** No page reached from `last` has a row in the trash. */
  ghost predicate NoTrash(objects: Objects, last: nat, rows: RowPages) {
    forall p :: p in rows && Reachable(objects, last, p) ==> rows[p].trashc == 0
  }

  // ------------------------------------------------------------------ row and byte arithmetic

  lemma RidSplits(off: nat, row: nat, n: nat)
    requires row < n
    ensures (off * n + row) / n == off && (off * n + row) % n == row
  {
    var q, r := (off * n + row) / n, (off * n + row) % n;
    OffsetUnique(n, off, row, q, r);
  }

  /** Row `rid` of the chapter is row `row` of page `pid`. */
  ghost predicate IsRid(contents: seq<nat>, n: nat, rid: nat, pid: nat, row: nat)
    requires n >= 1
  {
    rid / n < |contents| && contents[rid / n] == pid && rid % n == row
  }

  lemma PlacedRid(contents: seq<nat>, objects: Objects, n: nat, pid: nat, row: nat)
    requires Placed(contents, objects) && pid in objects && row < n
    ensures IsRid(contents, n, objects[pid].pleft * n + row, pid, row)
  {
    assert PlacedAt(contents, objects, pid);
    RidSplits(objects[pid].pleft, row, n);
  }

  /** Where a row starts in its page, in the 16 bits that hold it. */
  function IntraOffset(rid: nat, off: nat, n: nat, head: nat, fixedc: nat): int
    requires off * n <= rid
  {
    (head + (rid - off * n) * fixedc) % 0x1_0000
  }

  /** The byte offset of a row leads back to its number, on every page whose rows fit 64 KiB. */
  lemma ByteOffsetRoundTrip(rid: nat, n: nat, head: nat, fixedc: nat)
    requires n >= 1 && fixedc >= 1 && head + n * fixedc <= 0x1_0000
    ensures (rid / n) * n <= rid
    ensures (IntraOffset(rid, rid / n, n, head, fixedc) - head) / fixedc == rid % n
    ensures (IntraOffset(rid, rid / n, n, head, fixedc) - head) % fixedc == 0
  {
    assert rid - (rid / n) * n == rid % n;
    var row := rid % n;
    MulMonotone(row + 1, n, fixedc);
    MulStep(row, fixedc);
    RidSplits(row, 0, fixedc);
  }

  const RIDS: nat := 0x1_0000_0000_0000

  /** An object id: the entry in the upper 16 bits, the row of the chapter in the lower 48. */
  function Oid(eid: nat, rid: nat): nat
    requires rid < RIDS
  {
    eid * RIDS + rid
  }

  lemma OidRoundTrip(eid: nat, rid: nat)
    requires rid < RIDS
    ensures Oid(eid, rid) / RIDS == eid && Oid(eid, rid) % RIDS == rid
  {
    RidSplits(eid, rid, RIDS);
  }

  // ------------------------------------------------------------------ one page rewritten

  lemma RowsPut(n: nat, rows: RowPages, free: Frees, p: nat, q: RowPage, f: seq<nat>)
    requires RowsOk(n, rows, free) && |q.rows| == n && FreeListOf(q, f)
    ensures RowsOk(n, rows[p := q], free[p := f])
  {
    var after, frees := rows[p := q], free[p := f];
    forall x | x in after
      ensures RowsAt(n, after, frees, x)
    {
      assert x != p ==> RowsAt(n, rows, free, x);
    }
  }

  lemma PutKeeps(rows: RowPages, p: nat, q: RowPage, row: nat)
    requires p in rows && |q.rows| == |rows[p].rows|
    requires forall r :: 0 <= r < |q.rows| && r != row ==>
                           && q.rows[r].deleted == rows[p].rows[r].deleted
                           && (!q.rows[r].deleted ==> q.rows[r] == rows[p].rows[r])
    ensures KeptBut(rows, rows[p := q], p, row)
  {
  }

  lemma HeldPut(n: nat, rows: RowPages, chain: seq<nat>, p: nat, q: RowPage, next: seq<nat>)
    requires Held(n, rows, chain) && (Critical(q.trashc, n) ==> p in next)
    requires forall x :: x in chain ==> x in next
    ensures Held(n, rows[p := q], next)
  {
  }

  lemma KeptThen(was: RowPages, mid: RowPages, rows: RowPages, pid: nat, row: nat)
    requires Kept(was, mid) && KeptBut(mid, rows, pid, row)
    ensures KeptBut(was, rows, pid, row) && (LiveAt(was, pid, row) <==> LiveAt(mid, pid, row))
  {
    assert KeptAt(was, mid, pid, row);
    forall p: nat, r: nat | !(p == pid && r == row)
      ensures KeptAt(was, rows, p, r)
    {
      assert KeptAt(was, mid, p, r) && KeptAt(mid, rows, p, r);
    }
  }

  /** Every page of `was` is in `chain` or has no trash, and `chain` has no others. */
  ghost predicate Faulted(was: seq<nat>, chain: seq<nat>, rows: RowPages) {
    && (forall p :: p in was ==> p in chain || (p in rows && rows[p].trashc == 0))
    && (forall p :: p in chain ==> p in was)
  }

  lemma FaultStep(objects: Objects, last: nat, was: seq<nat>, chain: seq<nat>, back: int, n: nat, rows: RowPages)
    requires ChainOf(objects, last, chain, back) && last != 0 && last in rows && rows[last].trashc == 0
    requires Held(n, rows, chain) && Faulted(was, chain, rows)
    ensures last in objects && chain != []
    ensures ChainOf(objects[last := objects[last].(trashvor := 0)], objects[last].trashvor,
                    PoppedChain(chain, back), PoppedBack(back))
    ensures Held(n, rows, PoppedChain(chain, back)) && Faulted(was, PoppedChain(chain, back), rows)
  {
    FirstOfChain(objects, last, chain, back);
    Popped(objects, last, chain, back);
  }

  lemma AllFaulted(objects: Objects, last: nat, was: seq<nat>, back: int, chain: seq<nat>, rows: RowPages)
    requires ChainOf(objects, last, was, back) && Faulted(was, chain, rows) && 0 !in rows
    ensures chain == [] ==> NoTrash(objects, last, rows)
    ensures chain != [] && chain[0] in rows && rows[chain[0]].trashc > 0 ==> !NoTrash(objects, last, rows)
  {
    ChainIsReachable(objects, last, was, back);
  }

  /** Where the chain starts, and the fields that hold it together. */
  datatype Front = Front(objects: Objects, last: nat)

  /** `trashlast` leaves a page, which then no longer leads anywhere. */
  function OneFault(f: Front): Front {
    if f.last !in f.objects then f
    else Front(f.objects[f.last := f.objects[f.last].(trashvor := 0)], f.objects[f.last].trashvor)
  }

  function FaultedBy(f: Front, m: nat): Front {
    if m == 0 then f else OneFault(FaultedBy(f, m - 1))
  }

  /** The first `m` pages that the chain leads to have no trash. */
  ghost predicate LeftBehind(f: Front, rows: RowPages, m: nat) {
    forall k: nat :: k < m ==> !HasTrash(rows, FaultedBy(f, k).last)
  }

  lemma LeftMore(f: Front, rows: RowPages, m: nat)
    requires LeftBehind(f, rows, m) && !HasTrash(rows, FaultedBy(f, m).last)
    ensures LeftBehind(f, rows, m + 1) && FaultedBy(f, m + 1) == OneFault(FaultedBy(f, m))
  {
  }

  /** Trash faults lead from `f` to `g`, past pages without trash only. */
  ghost predicate FaultedTo(f: Front, rows: RowPages, g: Front) {
    exists m: nat :: LeftBehind(f, rows, m) && g == FaultedBy(f, m)
  }

  /** A first page with trash is where the faults end, and a first page without is left. */
  lemma FaultedOnce(f: Front, rows: RowPages, g: Front)
    requires FaultedTo(f, rows, g) && HasTrash(rows, g.last)
    ensures HasTrash(rows, f.last) ==> g == f
    ensures !HasTrash(rows, f.last) && HasTrash(rows, OneFault(f).last) ==> g == OneFault(f)
  {
    var m: nat :| LeftBehind(f, rows, m) && g == FaultedBy(f, m);
    assert FaultedBy(f, 0) == f && FaultedBy(f, 1) == OneFault(FaultedBy(f, 0));
    assert m > 0 ==> !HasTrash(rows, FaultedBy(f, 0).last);
    assert m > 1 ==> !HasTrash(rows, FaultedBy(f, 1).last);
  }

  /** The chain of a strait of new pages: from the last back to the first. */
  function FreshChain(strait: nat, n: nat): (s: seq<nat>)
    ensures |s| == n && forall j :: 0 <= j < n ==> s[j] == strait + (n - 1 - j)
  {
    seq(n, j requires 0 <= j < n => strait + (n - 1 - j))
  }

  lemma FreshIsChain(objects: Objects, strait: nat, n: nat)
    requires n >= 1 && strait >= 1 && 0 !in objects
    requires C.Chapter.FreshTrash(objects, strait, n)
    requires forall p :: p in objects && objects[p].trashvor != 0 ==> strait <= p < strait + n
    ensures ChainOf(objects, strait + n - 1, FreshChain(strait, n), -1)
    ensures forall p :: strait <= p < strait + n ==> p in FreshChain(strait, n)
  {
    var s := FreshChain(strait, n);
    forall j | 0 <= j < n
      ensures LeadsOn(objects, s, -1, j)
    {
      assert s[j] == strait + (n - 1 - j);
    }
    forall p | strait <= p < strait + n
      ensures p in s
    {
      assert s[n - 1 - (p - strait)] == p;
    }
  }

  /** The chain and the trash once a strait of new pages came to a chapter without a chain. */
  lemma {:induction false} GrownStore(n: nat, was: Objects, objects: Objects, wasRows: RowPages, rows: RowPages,
                   chain: seq<nat>, back: int, strait: nat, straitc: nat)
    requires ChainOf(was, 0, chain, back) && Held(n, wasRows, chain)
    requires C.Chapter.SameTrash(was, objects) && C.Chapter.FreshTrash(objects, strait, straitc)
    requires objects.Keys == was.Keys + C.PidSet(strait, straitc) && straitc >= 1 && strait >= 1
    requires Added(wasRows, rows, strait, straitc) && SamePages(wasRows, was)
    ensures SamePages(rows, objects)
    ensures ChainOf(objects, strait + straitc - 1, FreshChain(strait, straitc), -1)
    ensures Held(n, rows, FreshChain(strait, straitc)) && HasTrash(rows, strait + straitc - 1)
  {
    FirstOfChain(was, 0, chain, back);
    FreshIsChain(objects, strait, straitc);
  }

  class ObjectStore {
    const chapter: C.Chapter
    const perpage: nat
    const head: nat
    const fixedc: nat

    var rows: RowPages

    ghost var free: Frees
    ghost var chain: seq<nat>
    ghost var back: int

    ghost predicate Valid()
      reads this, chapter
    {
      && chapter.Valid()
      && 1 <= perpage <= END && fixedc >= 1 && head + perpage * fixedc <= 0x1_0000
      && SamePages(rows, chapter.objects)
      && RowsOk(perpage, rows, free)
      && ChainOf(chapter.objects, chapter.trashlast, chain, back)
      && Held(perpage, rows, chain)
    }

    /**
      No page with more than half of its rows in the trash is lost, and no page that leads to
      another: all of them are reached from `trashlast`, even where the chain closes into a loop.
     */
    lemma NothingLost()
      requires Valid()
      ensures forall p :: p in rows && 2 * rows[p].trashc > perpage
                ==> Reachable(chapter.objects, chapter.trashlast, p)
      ensures forall p :: p in chapter.objects && chapter.objects[p].trashvor != 0
                ==> Reachable(chapter.objects, chapter.trashlast, p)
    {
      ChainIsReachable(chapter.objects, chapter.trashlast, chain, back);
    }

    /** The rows of the pages of a new strait. */
    method InitRows(strait: nat, straitc: nat)
      requires 1 <= perpage <= END && RowsOk(perpage, rows, free)
      requires C.Unused(rows.Keys, strait, straitc)
      modifies this`rows, this`free
      ensures RowsOk(perpage, rows, free) && Added(old(rows), rows, strait, straitc)
      ensures forall p :: strait <= p < strait + straitc ==> p in rows && rows[p].trashc == perpage
    {
      var i := 0;
      while i < straitc
        invariant 0 <= i <= straitc
        invariant forall p :: strait <= p < strait + i ==> p in rows && rows[p].trashc == perpage
        invariant RowsOk(perpage, rows, free) && Added(old(rows), rows, strait, i)
      {
        var p := InitObjects(perpage);
        RowsPut(perpage, rows, free, strait + i, p, AllRows(perpage));
        AddedOne(old(rows), rows, strait, i, p);
        rows := rows[strait + i := p];
        free := free[strait + i := AllRows(perpage)];
        i := i + 1;
      }
    }

    /** A new entry: its first strait is all trash. */
    constructor (cfg: Config, taken: set<nat>, perpage: nat, head: nat, fixedc: nat)
      requires cfg.Ok() && 0 in taken
      requires 1 <= perpage <= END && fixedc >= 1 && head + perpage * fixedc <= 0x1_0000
      ensures Valid() && fresh(chapter) && this.perpage == perpage && chapter.cfg == cfg
      ensures Kept(map[], rows) && AllTrash()
    {
      var made := new C.Chapter.EntrySet(cfg, taken);
      this.perpage, this.head, this.fixedc := perpage, head, fixedc;
      chapter := made;
      rows, free, chain, back := map[], map[], [], -1;
      new;
      FirstRows();
    }

    /** The only strait is all trash, chained from its last page to its first. */
    ghost predicate AllTrash()
      reads this, chapter
    {
      var p, n := chapter.ref0, chapter.cfg.straitc;
      && p >= 1 && n >= 1 && chapter.trashlast == p + n - 1 && C.Chapter.FreshTrash(chapter.objects, p, n)
      && (forall q :: q in rows <==> p <= q < p + n)
      && forall q :: q in rows ==> HasTrash(rows, q) && rows[q].trashc == perpage
    }

    /** The rows of the first strait. */
    method FirstRows()
      requires chapter.Valid() && rows == map[] && free == map[]
      requires chapter.trashlast == chapter.ref0 + chapter.cfg.straitc - 1
      requires 1 <= perpage <= END && fixedc >= 1 && head + perpage * fixedc <= 0x1_0000
      requires C.Unused({}, chapter.ref0, chapter.cfg.straitc)
      requires chapter.objects.Keys == C.PidSet(chapter.ref0, chapter.cfg.straitc)
      requires C.Chapter.FreshTrash(chapter.objects, chapter.ref0, chapter.cfg.straitc)
      modifies this
      ensures Valid() && Kept(map[], rows) && AllTrash()
    {
      var strait, straitc := chapter.ref0, chapter.cfg.straitc;
      InitRows(strait, straitc);
      chain, back := FreshChain(strait, straitc), -1;
      FreshIsChain(chapter.objects, strait, straitc);
      AddedKept(map[], rows, strait, straitc);
    }

    /** Appends a strait to the chapter when no page is chained. */
    method Grow() returns (err: C.Error)
      requires Valid() && chapter.trashlast == 0
      modifies this, chapter
      ensures Valid()
      ensures err == C.NoSpace <==> old(chapter.Full())
      ensures err == C.None || err == C.NoSpace
      ensures err == C.NoSpace ==>
                && rows == old(rows) && chapter.Contents() == old(chapter.Contents())
                && chapter.trashlast == 0 && chapter.objects == old(chapter.objects)
      ensures err == C.None ==>
                && HasTrash(rows, chapter.trashlast)
                && old(chapter.Contents()) <= chapter.Contents()
                && |chapter.Contents()| == |old(chapter.Contents())| + chapter.cfg.straitc
      ensures Kept(old(rows), rows)
    {
      var strait;
      FirstOfChain(chapter.objects, 0, chain, back);
      err, strait := chapter.Append();
      if err == C.None {
        NewRows(strait, old(chapter.objects));
      }
    }

    /** The rows of a strait that came to a chapter without a chain. */
    method NewRows(strait: nat, ghost was: Objects)
      requires chapter.Valid() && 1 <= perpage <= END && fixedc >= 1 && head + perpage * fixedc <= 0x1_0000
      requires RowsOk(perpage, rows, free) && ChainOf(was, 0, chain, back) && Held(perpage, rows, chain)
      requires SamePages(rows, was)
      requires C.Unused(was.Keys, strait, chapter.cfg.straitc) && chapter.trashlast == strait + chapter.cfg.straitc - 1
      requires chapter.objects.Keys == was.Keys + C.PidSet(strait, chapter.cfg.straitc)
      requires C.Chapter.SameTrash(was, chapter.objects)
      requires C.Chapter.FreshTrash(chapter.objects, strait, chapter.cfg.straitc)
      modifies this
      ensures Valid() && HasTrash(rows, chapter.trashlast) && Kept(old(rows), rows)
    {
      var n := chapter.cfg.straitc;
      ghost var wasRows := rows;
      assert rows.Keys == was.Keys;
      InitRows(strait, n);
      GrownStore(perpage, was, chapter.objects, wasRows, rows, chain, back, strait, n);
      chain, back := FreshChain(strait, n), -1;
      AddedKept(wasRows, rows, strait, n);
    }

    /** One trash fault: `trashlast` leaves a page without trash. */
    method Fault(ghost was: seq<nat>)
      requires Valid() && Faulted(was, chain, rows)
      requires chapter.trashlast != 0 && chapter.trashlast in rows && rows[chapter.trashlast].start == END
      modifies this`chain, this`back, chapter`objects, chapter`trashlast
      ensures Valid() && Faulted(was, chain, rows) && chapter.Contents() == old(chapter.Contents())
      ensures chapter.trashlast != 0 ==> chapter.trashlast in rows
      ensures old(chain) != [] && chain == PoppedChain(old(chain), old(back)) && back == PoppedBack(old(back))
      ensures Front(chapter.objects, chapter.trashlast) == OneFault(Front(old(chapter.objects), old(chapter.trashlast)))
    {
      var pageid := chapter.trashlast;
      FirstOfChain(chapter.objects, pageid, chain, back);
      assert RowsAt(perpage, rows, free, pageid);
      StartTellsTrash(rows[pageid], free[pageid]);
      FaultStep(chapter.objects, pageid, was, chain, back, perpage, rows);
      chapter.SetTrash(pageid, 0, chapter.objects[pageid].trashvor);
      chain, back := PoppedChain(chain, back), PoppedBack(back);
      FirstOfChain(chapter.objects, chapter.trashlast, chain, back);
    }

    /** The loop of trash faults: it ends even if the chain does not. */
    method LeavePages() returns (ghost m: nat)
      requires Valid()
      modifies this`chain, this`back, chapter`objects, chapter`trashlast
      ensures Valid() && chapter.Contents() == old(chapter.Contents()) && Faulted(old(chain), chain, rows)
      ensures chapter.trashlast != 0 ==> HasTrash(rows, chapter.trashlast)
      ensures var first := Front(old(chapter.objects), old(chapter.trashlast));
              LeftBehind(first, rows, m) && Front(chapter.objects, chapter.trashlast) == FaultedBy(first, m)
    {
      m := 0;
      ghost var first, was := Front(chapter.objects, chapter.trashlast), chain;
      FirstOfChain(chapter.objects, chapter.trashlast, chain, back);
      while chapter.trashlast != 0 && rows[chapter.trashlast].start == END
        invariant Valid() && chapter.Contents() == old(chapter.Contents()) && Faulted(was, chain, rows)
        invariant chapter.trashlast != 0 ==> chapter.trashlast in rows
        invariant LeftBehind(first, rows, m) && Front(chapter.objects, chapter.trashlast) == FaultedBy(first, m)
        decreases back >= 0, |chain|
      {
        LeftMore(first, rows, m);
        Fault(was);
        m := m + 1;
      }
    }

    /** Trash faults: leaves behind the pages at the front of the chain that have no trash. */
    method Faults()
      requires Valid()
      modifies this`chain, this`back, chapter`objects, chapter`trashlast
      ensures Valid() && chapter.Contents() == old(chapter.Contents())
      ensures chapter.trashlast != 0 ==> HasTrash(rows, chapter.trashlast)
      ensures chapter.trashlast == 0 <==> NoTrash(old(chapter.objects), old(chapter.trashlast), rows)
      ensures FaultedTo(Front(old(chapter.objects), old(chapter.trashlast)), rows,
              Front(chapter.objects, chapter.trashlast))
      ensures chapter.Full() == old(chapter.Full())
    {
      ghost var first, was, wasBack := Front(chapter.objects, chapter.trashlast), chain, back;
      ghost var m := LeavePages();
      FaultsDone(first, was, wasBack);
    }

    /** The first page now has trash, if there is one; there is none exactly if no page that was reached has trash. */
    lemma FaultsDone(first: Front, was: seq<nat>, wasBack: int)
      requires Valid() && ChainOf(first.objects, first.last, was, wasBack) && Faulted(was, chain, rows)
      requires chapter.trashlast != 0 ==> HasTrash(rows, chapter.trashlast)
      ensures chapter.trashlast == 0 <==> NoTrash(first.objects, first.last, rows)
    {
      FirstOfChain(chapter.objects, chapter.trashlast, chain, back);
      AllFaulted(first.objects, first.last, was, wasBack, chain, rows);
      if chapter.trashlast != 0 {
        assert RowsAt(perpage, rows, free, chapter.trashlast);
        StartTellsTrash(rows[chapter.trashlast], free[chapter.trashlast]);
      }
    }

    /** Finds a page with trash at the front of the chain, appending pages if there is none and `fcreate` allows it. */
    method SeekTrash(fcreate: bool) returns (err: C.Error)
      requires Valid()
      modifies this, chapter
      ensures Valid()
      ensures err == C.None || err == C.NoSpace
      ensures err == C.NoSpace <==>
                && NoTrash(old(chapter.objects), old(chapter.trashlast), old(rows))
                && (fcreate ==> old(chapter.Full()))
      ensures err == C.NoSpace ==>
                && rows == old(rows) && chapter.Contents() == old(chapter.Contents())
                && forall p :: p in rows ==> 2 * rows[p].trashc <= perpage
      ensures err == C.None ==> HasTrash(rows, chapter.trashlast)
      ensures !NoTrash(old(chapter.objects), old(chapter.trashlast), old(rows)) ==>
                && rows == old(rows)
                && FaultedTo(Front(old(chapter.objects), old(chapter.trashlast)), rows,
                   Front(chapter.objects, chapter.trashlast))
      ensures old(chapter.Contents()) <= chapter.Contents() && Kept(old(rows), rows)
    {
      err := C.None;
      Faults();
      if chapter.trashlast == 0 {
        FirstOfChain(chapter.objects, 0, chain, back);
        if !fcreate {
          return C.NoSpace;
        }
        err := Grow();
      }
    }

    /** Which row of the chapter row `row` of a page is, from the page alone. */
    method RidOf(pid: nat, row: nat) returns (rid: nat)
      requires Valid() && pid in rows && row < perpage
      ensures IsRid(chapter.Contents(), perpage, rid, pid, row)
    {
      rid := chapter.objects[pid].pleft * perpage + row;
      PlacedRid(chapter.Contents(), chapter.objects, perpage, pid, row);
    }

    /** Makes the first trash row of a page live. */
    method TakeRow(pid: nat) returns (row: nat)
      requires Valid() && HasTrash(rows, pid)
      modifies this`rows, this`free
      ensures Valid() && row < perpage && pid in rows
      ensures !LiveAt(old(rows), pid, row) && LiveAt(rows, pid, row) && KeptBut(old(rows), rows, pid, row)
      ensures rows == old(rows)[pid := rows[pid]] && rows[pid].trashc + 1 == old(rows)[pid].trashc
    {
      var page;
      assert RowsAt(perpage, rows, free, pid);
      row, page := Pop(rows[pid], free[pid]);
      RowsPut(perpage, rows, free, pid, page, free[pid][1..]);
      PutKeeps(rows, pid, page, row);
      rows := rows[pid := page];
      free := free[pid := free[pid][1..]];
    }

    /**
      Creates an object. Without `fcreate` no page is added, and creation fails only when every
      page of the entity has at most half of its rows in the trash.
     */
    method ObjectOpenC(fcreate: bool) returns (err: C.Error, rid: nat, pid: nat, row: nat)
      requires Valid()
      modifies this, chapter
      ensures Valid()
      ensures err == C.None || err == C.NoSpace
      ensures err == C.NoSpace <==>
                && NoTrash(old(chapter.objects), old(chapter.trashlast), old(rows))
                && (fcreate ==> old(chapter.Full()))
      ensures err == C.NoSpace ==>
                && rows == old(rows) && chapter.Contents() == old(chapter.Contents())
                && forall p :: p in rows ==> 2 * rows[p].trashc <= perpage
      ensures err == C.None ==>
                && old(chapter.Contents()) <= chapter.Contents()
                && perpage >= 1 && IsRid(chapter.Contents(), perpage, rid, pid, row)
                && !LiveAt(old(rows), pid, row) && LiveAt(rows, pid, row) && KeptBut(old(rows), rows, pid, row)
      ensures !NoTrash(old(chapter.objects), old(chapter.trashlast), old(rows)) ==>
                && HasTrash(old(rows), pid) && pid in rows && rows == old(rows)[pid := rows[pid]]
                && rows[pid].trashc + 1 == old(rows)[pid].trashc && pid == chapter.trashlast
                && FaultedTo(Front(old(chapter.objects), old(chapter.trashlast)), old(rows),
                   Front(chapter.objects, chapter.trashlast))
    {
      err := SeekTrash(fcreate);
      if err != C.None {
        return err, 0, 0, 0;
      }
      ghost var grown := rows;
      pid := chapter.trashlast;
      row := TakeRow(pid);
      rid := RidOf(pid, row);
      KeptThen(old(rows), grown, rows, pid, row);
    }

    /** Opens an object by its number in the chapter: the lookup gives the page, the byte offset in it the row. */
    method ObjectOpen(rid: nat) returns (err: C.Error, pid: int, row: int)
      requires Valid()
      ensures err == if rid / perpage < |chapter.Contents()| then C.None else C.EndOfFile
      ensures err == C.None ==> pid in rows && 0 <= row < perpage && IsRid(chapter.Contents(), perpage, rid, pid, row)
    {
      var pageoff := rid / perpage;
      ByteOffsetRoundTrip(rid, perpage, head, fixedc);
      var byteoff := IntraOffset(rid, pageoff, perpage, head, fixedc);
      err, pid := chapter.LookupOid(pageoff);
      row := (byteoff - head) / fixedc;
      if err == C.None {
        ChainFollows(Straits(chapter.cfg, chapter.levels), chapter.cfg.straitc, chapter.objects, pageoff);
      }
    }

    /** Turns an open object into trash; an object that is trash already is left alone. */
    method ObjectDelete(pid: nat, row: nat)
      requires Valid() && pid in rows && row < perpage
      modifies this, chapter`objects, chapter`trashlast
      ensures Valid() && chapter.Contents() == old(chapter.Contents())
      ensures pid in rows && !LiveAt(rows, pid, row) && KeptBut(old(rows), rows, pid, row)
      ensures rows == old(rows)[pid := rows[pid]]
      ensures !old(LiveAt(rows, pid, row)) ==> rows == old(rows)
      ensures old(LiveAt(rows, pid, row)) ==> rows[pid].trashc == old(rows)[pid].trashc + 1
      ensures var joins := old(LiveAt(rows, pid, row)) && 2 * old(rows)[pid].trashc <= perpage < 2 * rows[pid].trashc
                           && old(chapter.objects)[pid].trashvor == 0 && old(chapter.trashlast) != pid;
              && chapter.trashlast == (if joins then pid else old(chapter.trashlast))
              && chapter.objects ==
                 var was := old(chapter.objects);
                 if joins then was[pid := was[pid].(trashvor := old(chapter.trashlast))] else was
    {
      assert RowsAt(perpage, rows, free, pid) && pid in chapter.objects;
      if rows[pid].rows[row].deleted {
        return;
      }
      var trashcrit1 := Critical(rows[pid].trashc, perpage);
      var page := PushRow(pid, row);
      var trashcrit2 := Critical(page.trashc, perpage);
      ghost var more := chain;
      FirstOfChain(chapter.objects, chapter.trashlast, chain, back);
      if trashcrit2 && trashcrit1 != trashcrit2 && chapter.objects[pid].trashvor == 0 && chapter.trashlast != pid {
        Pushed(chapter.objects, chapter.trashlast, chain, back, pid);
        chapter.SetTrash(pid, chapter.trashlast, pid);
        chain, back := PushedChain(chain, pid), PushedBack(chain, back, pid);
      }
      HeldPut(perpage, old(rows), more, pid, page, chain);
    }

    /** Links a live row of a page into its trash. */
    method PushRow(pid: nat, row: nat) returns (page: RowPage)
      requires 1 <= perpage <= END && RowsOk(perpage, rows, free) && LiveAt(rows, pid, row)
      modifies this`rows, this`free
      ensures RowsOk(perpage, rows, free) && rows == old(rows)[pid := page]
      ensures !LiveAt(rows, pid, row) && KeptBut(old(rows), rows, pid, row)
      ensures page.trashc == old(rows)[pid].trashc + 1
    {
      assert RowsAt(perpage, rows, free, pid);
      page := Push(rows[pid], row, free[pid]);
      RowsPut(perpage, rows, free, pid, page, [row] + free[pid]);
      PutKeeps(rows, pid, page, row);
      rows := rows[pid := page];
      free := free[pid := [row] + free[pid]];
    }

    /** Makes an open object live again; the page keeps its place on the chain. */
    method ObjectUndelete(pid: nat, row: nat)
      requires Valid() && pid in rows && row < perpage
      modifies this`rows, this`free
      ensures Valid() && LiveAt(rows, pid, row) && KeptBut(old(rows), rows, pid, row)
      ensures pid in rows && row < |rows[pid].rows| && row < |old(rows)[pid].rows|
      ensures rows[pid].rows[row].word == old(rows)[pid].rows[row].word
      ensures old(LiveAt(rows, pid, row)) ==> rows == old(rows)
    {
      assert RowsAt(perpage, rows, free, pid);
      if !rows[pid].rows[row].deleted {
        return;
      }
      var page;
      ghost var k;
      page, k := Unlink(rows[pid], row, free[pid]);
      RowsPut(perpage, rows, free, pid, page, Without(free[pid], k));
      PutKeeps(rows, pid, page, row);
      HeldPut(perpage, rows, chain, pid, page, chain);
      rows := rows[pid := page];
      free := free[pid := Without(free[pid], k)];
    }

    /** Writes the content of a live object. */
    method Write(pid: nat, row: nat, word: nat)
      requires Valid() && LiveAt(rows, pid, row)
      modifies this`rows
      ensures Valid() && LiveAt(rows, pid, row) && rows[pid].rows[row].word == word
      ensures KeptBut(old(rows), rows, pid, row)
    {
      assert RowsAt(perpage, rows, free, pid);
      var page := rows[pid].(rows := rows[pid].rows[row := Row(false, word)]);
      WriteKeepsList(rows[pid], row, word, free[pid]);
      RowsPut(perpage, rows, free, pid, page, free[pid]);
      PutKeeps(rows, pid, page, row);
      HeldPut(perpage, rows, chain, pid, page, chain);
      rows := rows[pid := page];
      assert free[pid := free[pid]] == free;
    }
  }

  // ------------------------------------------------------------------ a run that closes the chain

  /** The entity has pages `p` and `p + 1`, with that many rows in the trash. */
  ghost predicate TwoPages(s: ObjectStore, p: nat, trash0: nat, trash1: nat)
    reads s
  {
    && (forall q :: q in s.rows <==> q == p || q == p + 1)
    && s.rows[p].trashc == trash0 && s.rows[p + 1].trashc == trash1
  }

  /** The chain starts at `last`, and leads on from the two pages as given. */
  ghost predicate Linked(s: ObjectStore, p: nat, last: nat, vor0: nat, vor1: nat)
    reads s, s.chapter
  {
    && p >= 1 && p in s.chapter.objects && p + 1 in s.chapter.objects && s.chapter.trashlast == last
    && s.chapter.objects[p].trashvor == vor0 && s.chapter.objects[p + 1].trashvor == vor1
  }

  lemma TrashTold(s: ObjectStore, q: nat)
    requires s.Valid() && q in s.rows
    ensures HasTrash(s.rows, q) <==> s.rows[q].trashc > 0
  {
    assert RowsAt(s.perpage, s.rows, s.free, q);
    StartTellsTrash(s.rows[q], s.free[q]);
  }

  /** A page with trash that the chain leads to, at once or after one fault, makes a creation succeed. */
  lemma TrashIsReached(f: Front, rows: RowPages, q: nat)
    requires q in rows && rows[q].trashc > 0
    requires f.last == q || (f.last in f.objects && f.objects[f.last].trashvor == q)
    ensures !NoTrash(f.objects, f.last, rows)
  {
    assert Reach(f.objects, f.last, 0) == f.last;
    if f.last != q {
      assert Reach(f.objects, f.last, 1) == Reach(f.objects, q, 0) == q;
    }
    assert Reachable(f.objects, f.last, q);
  }

  /** A row is created on page `q`, which is the first of the chain with trash. */
  method CreateOn(s: ObjectStore, q: nat) returns (row: nat)
    requires s.Valid() && q in s.rows && s.rows[q].trashc > 0 && s.chapter.trashlast in s.rows
    requires s.chapter.trashlast == q
          || (s.rows[s.chapter.trashlast].trashc == 0 && s.chapter.objects[s.chapter.trashlast].trashvor == q)
    modifies s, s.chapter
    ensures s.Valid() && row < s.perpage && q in s.rows && s.rows == old(s.rows)[q := s.rows[q]]
    ensures s.rows[q].trashc + 1 == old(s.rows)[q].trashc && s.chapter.trashlast == q
    ensures s.chapter.objects == if old(s.chapter.trashlast) == q then old(s.chapter.objects)
                                 else OneFault(Front(old(s.chapter.objects), old(s.chapter.trashlast))).objects
    ensures !LiveAt(old(s.rows), q, row) && LiveAt(s.rows, q, row) && KeptBut(old(s.rows), s.rows, q, row)
  {
    ghost var f, was := Front(s.chapter.objects, s.chapter.trashlast), s.rows;
    TrashIsReached(f, was, q);
    TrashTold(s, q);
    TrashTold(s, f.last);
    var err, rid, pid;
    err, rid, pid, row := s.ObjectOpenC(false);
    FaultedOnce(f, was, Front(s.chapter.objects, s.chapter.trashlast));
  }

  /** An entity of two pages with two rows each, all of them trash. */
  method TwoFreshPages() returns (s: ObjectStore, p: nat)
    ensures s.Valid() && fresh(s) && fresh(s.chapter) && s.perpage == 2
    ensures TwoPages(s, p, 2, 2) && Linked(s, p, p + 1, 0, p)
  {
    s := new ObjectStore(Config(0, 1, 2), {0}, 2, 0, 1);
    p := s.chapter.ref0;
  }

  /** Three rows are created: two on the last page, which then leaves the chain, and one on the first. */
  method CreateThree(s: ObjectStore, p: nat) returns (a: nat, b: nat, c: nat)
    requires s.Valid() && s.perpage == 2 && TwoPages(s, p, 2, 2) && Linked(s, p, p + 1, 0, p)
    modifies s, s.chapter
    ensures s.Valid() && TwoPages(s, p, 1, 0) && Linked(s, p, p, 0, 0)
    ensures a < 2 && b < 2 && c < 2 && a != b
    ensures LiveAt(s.rows, p + 1, a) && LiveAt(s.rows, p + 1, b) && LiveAt(s.rows, p, c)
  {
    a := CreateOn(s, p + 1);
    ghost var one := s.rows;
    b := CreateOn(s, p + 1);
    assert KeptAt(one, s.rows, p + 1, a);
    ghost var two := s.rows;
    c := CreateOn(s, p);
    assert KeptAt(two, s.rows, p + 1, a) && KeptAt(two, s.rows, p + 1, b);
  }

  /** A row of the last page is deleted, which is not more than half of them. */
  method DeleteFirst(s: ObjectStore, p: nat, a: nat, b: nat, c: nat)
    requires s.Valid() && s.perpage == 2 && TwoPages(s, p, 1, 0) && Linked(s, p, p, 0, 0) && a < 2 && a != b
    requires LiveAt(s.rows, p + 1, a) && LiveAt(s.rows, p + 1, b) && LiveAt(s.rows, p, c)
    modifies s, s.chapter
    ensures s.Valid() && TwoPages(s, p, 1, 1) && Linked(s, p, p, 0, 0)
    ensures LiveAt(s.rows, p + 1, b) && LiveAt(s.rows, p, c)
  {
    ghost var was := s.rows;
    s.ObjectDelete(p + 1, a);
    assert KeptAt(was, s.rows, p + 1, b) && KeptAt(was, s.rows, p, c);
  }

  /** With the second the last page passes the half and is chained again. */
  method DeleteSecond(s: ObjectStore, p: nat, b: nat, c: nat)
    requires s.Valid() && s.perpage == 2 && TwoPages(s, p, 1, 1) && Linked(s, p, p, 0, 0) && b < 2
    requires LiveAt(s.rows, p + 1, b) && LiveAt(s.rows, p, c)
    modifies s, s.chapter
    ensures s.Valid() && TwoPages(s, p, 1, 2) && Linked(s, p, p + 1, 0, p) && LiveAt(s.rows, p, c)
  {
    ghost var was := s.rows;
    s.ObjectDelete(p + 1, b);
    assert KeptAt(was, s.rows, p, c);
  }

  /** So is the row of the first page, which is at the bottom of the chain: it is hung in front all the same. */
  method DeleteLast(s: ObjectStore, p: nat, c: nat)
    requires s.Valid() && s.perpage == 2 && TwoPages(s, p, 1, 2) && Linked(s, p, p + 1, 0, p) && c < 2
    requires LiveAt(s.rows, p, c)
    modifies s, s.chapter
    ensures s.Valid() && TwoPages(s, p, 2, 2) && Linked(s, p, p, p + 1, p)
  {
    s.ObjectDelete(p, c);
  }

  /** A loop arises: from a new entity three creations and three deletions lead to a chain that does not end. */
  method LoopArises() returns (s: ObjectStore)
    ensures fresh(s) && s.Valid() && !Ends(s.chapter.objects, s.chapter.trashlast)
  {
    var p;
    s, p := TwoFreshPages();
    var a, b, c := CreateThree(s, p);
    DeleteFirst(s, p, a, b, c);
    DeleteSecond(s, p, b, c);
    DeleteLast(s, p, c);
    forall m: nat
      ensures Reach(s.chapter.objects, p, m) != 0
    {
      AroundTheLoop(s.chapter.objects, p, p + 1, m);
    }
  }

  lemma {:induction false} AroundTheLoop(objects: Objects, a: nat, b: nat, m: nat)
    requires a != 0 && b != 0 && a in objects && b in objects && objects[a].trashvor == b && objects[b].trashvor == a
    ensures Reach(objects, a, m) == a || Reach(objects, a, m) == b
    decreases m
  {
    if m > 0 {
      AroundTheLoop(objects, b, a, m - 1);
    }
  }
}
