/**
  Handing out straits of pages and taking them back. Straits that were given back are named in
  the chapter of deleted pages, of which only a window is loaded: its rightmost page first.
 */
module DeletedPages {
  import opened Sequences

  import opened DeletedRefs
  import opened FilePartition
  import opened RecycledPage

  /** The loaded pages of the chapter, by their page ids. */
  class Window {
    const slots: array<nat>
    var count: nat

    /** The pages that are mapped into memory. */
    var mapped: set<nat>

    predicate Shape()
      reads this
    {
      1 <= slots.Length && count <= slots.Length
    }

    function Pids(): (pids: seq<nat>)
      reads this, slots
      requires Shape()
      ensures |pids| == count
    {
      slots[..count]
    }

    /** Exactly the pages of the window are mapped, each once. */
    ghost predicate Valid()
      reads this, slots
    {
      Shape() && Distinct(Pids()) && forall p :: p in mapped <==> p in Pids()
    }

    constructor (capacity: nat)
      requires capacity >= 1
      ensures Valid() && fresh(slots) && Pids() == [] && slots.Length == capacity
    {
      slots := new nat[capacity];
      count, mapped := 0, {};
    }

    method Clear()
      requires Shape()
      modifies this
      ensures Valid() && Pids() == []
    {
      count, mapped := 0, {};
    }

    method Append(pid: nat)
      requires Valid() && count < slots.Length && pid !in Pids()
      modifies this, slots
      ensures Valid() && Pids() == old(Pids()) + [pid]
    {
      slots[count] := pid;
      count, mapped := count + 1, mapped + {pid};
      assert Pids() == old(Pids()) + [pid];
    }

    /** Moves every page one place back; the last one is lost. */
    method MoveBack()
      requires Shape() && count > 0
      modifies slots
      ensures Shape() && forall k :: 1 <= k < count ==> slots[k] == old(slots[k - 1])
    {
      var i := count - 1;
      while i > 0
        invariant 0 <= i < count <= slots.Length
        invariant forall k :: 0 <= k < i ==> slots[k] == old(slots[k])
        invariant forall k :: i < k < count ==> slots[k] == old(slots[k - 1])
      {
        slots[i] := slots[i - 1];
        i := i - 1;
      }
    }

    /** The page in front of the window comes in; if the window is full its last page goes. */
    method ShiftRight(pid: nat)
      requires Valid() && pid !in Pids()
      modifies this, slots
      ensures Valid() && count == if old(count) < slots.Length then old(count) + 1 else old(count)
      ensures Pids() == [pid] + old(Pids())[..count - 1]
    {
      ghost var pids := Pids();
      if count == slots.Length {
        mapped := mapped - {slots[count - 1]};
      } else {
        count := count + 1;
      }
      MoveBack();
      slots[0] := pid;
      mapped := mapped + {pid};
      ShiftedDistinct(pids, count, pid);
      assert Pids() == [pid] + pids[..count - 1];
    }

    /** As `Valid`, but for the last place, whose page is not mapped there. */
    ghost predicate LastFree()
      reads this, slots
    {
      Shape() && count > 0 && Distinct(Pids()[..count - 1]) && forall p :: p in mapped <==> p in Pids()[..count - 1]
    }

    /** The first page goes; the last place is free to take another one. */
    method DropFirst()
      requires Valid() && count > 0
      modifies this`mapped, slots
      ensures LastFree() && Pids()[..count - 1] == old(Pids())[1..]
    {
      ghost var pids := Pids();
      mapped := mapped - {slots[0]};
      var i := 0;
      while i < count - 1
        invariant 0 <= i <= count - 1
        invariant forall k :: i <= k < count ==> slots[k] == old(slots[k])
        invariant forall k :: 0 <= k < i ==> slots[k] == old(slots[k + 1])
        modifies slots
      {
        slots[i] := slots[i + 1];
        i := i + 1;
      }
      assert Pids()[..count - 1] == pids[1..];
      TailDistinct(pids);
    }

    /** The page behind the window takes the last place. */
    method LoadLast(pid: nat)
      requires LastFree() && pid !in Pids()[..count - 1]
      modifies this`mapped, slots
      ensures Valid() && Pids() == old(Pids())[..count - 1] + [pid]
    {
      slots[count - 1] := pid;
      mapped := mapped + {pid};
      assert Pids() == old(Pids())[..count - 1] + [pid];
    }

    /**
      The window follows the chapter by one page to the left. Its first page is unmapped, and
      then the link to the left is read from its last one; in a window of one page these are
      the same.
     */
    method Follow(bytes: Bytes) returns (crashed: bool)
      requires Valid() && Slides(bytes, Pids()) && bytes[Pids()[count - 1]].pleft !in Pids()
      modifies this`mapped, slots
      ensures crashed <==> count == 1
      ensures !crashed ==> Valid() && Pids() == SlidTo(bytes, old(Pids()))
    {
      ghost var pids := Pids();
      var firstpage := slots[count - 1];
      TailDistinct(pids);
      DropFirst();
      if firstpage !in mapped {
        return true;
      }
      LoadLast(bytes[firstpage].pleft);
      crashed := false;
    }
  }

  lemma TailDistinct(pids: seq<nat>)
    requires Distinct(pids) && pids != []
    ensures Distinct(pids[1..]) && forall p :: p in pids[1..] <==> p in pids && p != pids[0]
    ensures |pids| > 1 <==> pids[|pids| - 1] in pids[1..]
  {
    if |pids| > 1 {
      assert pids[1..][|pids| - 2] == pids[|pids| - 1];
    }
    forall p | p in pids && p != pids[0]
      ensures p in pids[1..]
    {
      var k :| 0 <= k < |pids| && pids[k] == p;
      assert pids[1..][k - 1] == p;
    }
  }

  lemma ShiftedDistinct(pids: seq<nat>, count: nat, pid: nat)
    requires Distinct(pids) && pid !in pids && 0 < count && |pids| <= count <= |pids| + 1
    ensures Distinct([pid] + pids[..count - 1])
    ensures count == |pids| ==> forall p :: p in pids[..count - 1] <==> p in pids && p != pids[count - 1]
    ensures count == |pids| + 1 ==> pids[..count - 1] == pids
  {
  }

  // ------------------------------------------------------------------ the window in the chapter

  /** The window shows the pages of the chapter from page `right` to the left. */
  ghost predicate WindowAt(pids: seq<nat>, chapter: seq<nat>, right: nat) {
    && (pids == [] <==> chapter == [])
    && (pids != [] ==> right < |chapter| && |pids| <= right + 1)
    && forall i :: 0 <= i < |pids| ==> pids[i] == chapter[right - i]
  }

  ghost predicate EmptyAt(bytes: Bytes, chapter: seq<nat>, c: nat)
    requires c < |chapter|
  {
    chapter[c] in bytes && bytes[chapter[c]].refc == 0
  }

  /** Every page of the chapter from page `from` on is empty. */
  ghost predicate EmptyFrom(bytes: Bytes, chapter: seq<nat>, from: nat) {
    forall c :: from <= c < |chapter| ==> EmptyAt(bytes, chapter, c)
  }

  /** Every page has room for `n` references. */
  ghost predicate Shaped(n: nat, bytes: Bytes) {
    forall p :: p in bytes ==> |bytes[p].refs| == n
  }

  /** The window may follow the chapter to the left. */
  ghost predicate Slides(bytes: Bytes, pids: seq<nat>) {
    && pids != [] && pids[0] in bytes && pids[|pids| - 1] in bytes
    && bytes[pids[|pids| - 1]].pleft != 0 && bytes[pids[0]].refc == 0
  }

  /** The window after it followed the chapter to the left, if it may. */
  ghost function SlidTo(bytes: Bytes, pids: seq<nat>): seq<nat> {
    if Slides(bytes, pids) then pids[1..] + [bytes[pids[|pids| - 1]].pleft] else pids
  }

  /** Only chapter pages were written. */
  ghost predicate ChapterOnly(was: Bytes, bytes: Bytes, chapter: seq<nat>) {
    forall p :: p in was && p !in chapter ==> p in bytes && bytes[p] == was[p]
  }

  /**
    Page `p` of the chapter gave `straitc` pages from the first of its references that has as many,
    and nothing else was written.
   */
  ghost predicate Recycled(n: nat, was: Bytes, bytes: Bytes, p: nat, straitc: nat, id: nat) {
    && p in was && p in bytes && bytes == was[p := bytes[p]] && CountsOk(n, bytes[p])
    && exists j: nat :: Stolen(n, was[p], bytes[p], straitc, j) && id == was[p].refs[j].ref
  }

  /** A page that read as `x` is now `q`: it took the strait if it had a place for it. */
  ghost predicate TookIfPlace(n: nat, x: DeletedPage, q: DeletedPage, straitc: nat, id: nat) {
    if NoPlace(n, x, straitc, id) then q == x
    else exists j: nat :: FirstPlace(n, x, straitc, id, j) && straitc <= UINT16_MAX && q == Stored(x, straitc, id, j)
  }

  datatype Error = None | Critical

  class DeletedPages {
    const n: nat
    const window: Window

    var size: nat
    var bytes: Bytes

    // The entry of the chapter in the index.
    var ref0: nat
    var ref0c: nat
    var ref1: nat

    ghost var chapter: seq<nat>
    ghost var owner: Owners
    ghost var right: nat

    /** The entry in the index tells where the chapter begins and ends. */
    ghost predicate EntryOk()
      reads this
    {
      && ref0c == |chapter|
      && ref1 == (if chapter == [] then 0 else chapter[|chapter| - 1])
      && (chapter != [] ==> ref0 == chapter[0])
    }

    /** What holds of the file whether or not it is open. */
    ghost predicate FileOk()
      reads this
    {
      && 1 <= n <= UINT16_MAX && Shaped(n, bytes) && EntryOk()
      && Partition(bytes, chapter, owner, size) && PagesOk(n, bytes, chapter)
    }

    /** The entry and the window agree with the chapter, whatever its pages hold. */
    ghost predicate Shell()
      reads this, window, window.slots
    {
      1 <= n <= UINT16_MAX && Shaped(n, bytes) && EntryOk() && window.Valid() && WindowAt(window.Pids(), chapter, right)
    }

    ghost predicate Valid()
      reads this, window, window.slots
    {
      FileOk() && Shell() && EmptyFrom(bytes, chapter, right + 1)
    }

    /** The pages `id`, ..., `id + straitc - 1` are handed out. */
    ghost predicate AllLive(id: nat, straitc: nat)
      reads this
    {
      forall k :: id <= k < id + straitc ==> k in owner && owner[k] == Live
    }

    /** A file of `fixed` pages of its own and nothing else. */
    constructor (refsperpage: nat, capacity: nat, fixed: nat)
      requires 1 <= refsperpage <= UINT16_MAX && capacity >= 1 && fixed >= 1
      ensures Valid() && fresh(window) && fresh(window.slots) && size == fixed && chapter == []
      ensures n == refsperpage && window.slots.Length == capacity
      ensures forall p: nat :: p < fixed ==> owner[p] == Fixed
      ensures forall p :: p in bytes ==> bytes[p] == Zeros(refsperpage)
    {
      n := refsperpage;
      window := new Window(capacity);
      size, bytes, ref0, ref0c, ref1 := fixed, Lengthen(map[], 0, fixed, refsperpage), 0, 0, 0;
      chapter, owner, right := [], Assign(map[], 0, fixed, Fixed), 0;
      InitialPartition(refsperpage, fixed);
    }

    /** Opens the file: loads as many pages of the chapter as the window holds, from the last one back. */
    method Open()
      requires FileOk() && window.Shape()
      modifies window, window.slots, this`right
      ensures Valid() && right + 1 == if chapter == [] then 1 else |chapter|
      ensures window.count == if |chapter| < window.slots.Length then |chapter| else window.slots.Length
    {
      window.Clear();
      right := if chapter == [] then 0 else |chapter| - 1;
      var pid := ref1;
      while window.count < window.slots.Length && pid != 0
        invariant window.Valid() && window.count <= |chapter|
        invariant forall i :: 0 <= i < window.count ==> window.Pids()[i] == chapter[|chapter| - 1 - i]
        invariant pid == if window.count == |chapter| then 0 else chapter[|chapter| - 1 - window.count]
        decreases window.slots.Length - window.count
        modifies window, window.slots
      {
        ghost var c := |chapter| - 1 - window.count;
        assert PageOk(n, bytes, chapter, c);
        OutsideWindow(bytes, chapter, owner, size, window.Pids(), |chapter| - 1, c);
        window.Append(pid);
        pid := bytes[pid].pleft;
      }
      if window.count < |chapter| {
        assert ChapterOwned(chapter, owner, |chapter| - 1 - window.count);
      }
    }

    /** Callers write to the pages they were handed. */
    method Write(p: nat, page: DeletedPage)
      requires Valid() && AllLive(p, 1) && |page.refs| == n
      modifies this`bytes
      ensures Valid() && bytes == old(bytes)[p := page]
    {
      assert p in owner;
      LiveWritten(n, bytes, chapter, owner, size, p, page);
      StaysEmpty(bytes, chapter, right + 1, p, page);
      bytes := bytes[p := page];
    }

    // ------------------------------------------------------------------ handing out

    /** No page in the first `k` of the window has a strait of `straitc` pages. */
    ghost predicate NoneFit(k: nat, straitc: nat)
      reads this, window, window.slots
      requires window.Shape() && k <= |window.Pids()|
    {
      forall i :: 0 <= i < k ==> window.Pids()[i] in bytes && bytes[window.Pids()[i]].largest < straitc
    }

    /** The first page of the window that has a strait of `straitc` pages. */
    method SearchFit(straitc: nat) returns (i: nat)
      requires Valid()
      ensures i <= |window.Pids()| && NoneFit(i, straitc)
      ensures i < |window.Pids()| ==> window.Pids()[i] in bytes && bytes[window.Pids()[i]].largest >= straitc
    {
      i := 0;
      while i < window.count
        invariant i <= window.count && NoneFit(i, straitc)
      {
        assert PageOk(n, bytes, chapter, right - i);
        if bytes[window.slots[i]].largest >= straitc {
          return;
        }
        i := i + 1;
      }
    }

    /** Takes `straitc` pages from the first reference of one window page that has as many. */
    method Recycle(i: nat, straitc: nat) returns (id: nat)
      requires Valid() && i < |window.Pids()| && window.Pids()[i] in bytes
      requires 1 <= straitc <= bytes[window.Pids()[i]].largest
      modifies this`bytes, this`owner
      ensures Valid() && owner == Assign(old(owner), id, straitc, Live)
      ensures forall k :: id <= k < id + straitc ==> k in old(owner) && old(owner)[k].Free?
      ensures Recycled(n, old(bytes), bytes, window.Pids()[i], straitc, id) && window.Pids()[i] in chapter
    {
      var p := window.slots[i];
      ghost var c := right - i;
      assert chapter[c] == p && PageOk(n, bytes, chapter, c);
      var q;
      ghost var k;
      q, id, k := Steal(n, bytes[p], straitc);
      TakenOut(n, bytes, chapter, owner, size, c, q, straitc, k);
      PagesRewritten(n, bytes, chapter, owner, size, c, q);
      StillEmpty(bytes, chapter, owner, size, right + 1, c, q);
      owner := Assign(owner, id, straitc, Live);
      bytes := bytes[p := q];
    }

    /** Grows the file by `straitc` pages. */
    method Extend(straitc: nat) returns (id: nat)
      requires Valid()
      modifies this`bytes, this`owner, this`size
      ensures Valid() && id == old(size) && size == old(size) + straitc
      ensures owner == Assign(old(owner), id, straitc, Live) && bytes == Lengthen(old(bytes), id, straitc, n)
    {
      id := size;
      GrownBy(n, bytes, chapter, owner, size, straitc);
      EmptyAfterGrowth(bytes, chapter, right + 1, size, straitc, n);
      owner := Assign(owner, id, straitc, Live);
      bytes := Lengthen(bytes, id, straitc, n);
      size := size + straitc;
    }

    method FollowLeft() returns (crashed: bool)
      requires Valid() && Slides(bytes, window.Pids())
      modifies window, window.slots, this`right
      ensures crashed <==> old(window.count) == 1
      ensures !crashed ==> Valid() && window.Pids() == SlidTo(bytes, old(window.Pids()))
    {
      SlidOk(n, bytes, chapter, owner, size, window.Pids(), right);
      crashed := window.Follow(bytes);
      right := right - 1;
    }

    /**
      If the rightmost page of the window is empty and the chapter goes on to the left, the
      window follows it, which a window of one page does not survive.
     */
    method Slide() returns (crashed: bool)
      requires Valid()
      modifies window, window.slots, this`right
      ensures crashed <==> Slides(bytes, old(window.Pids())) && |old(window.Pids())| == 1
      ensures !crashed ==> Valid() && window.Pids() == SlidTo(bytes, old(window.Pids()))
    {
      crashed := false;
      if window.count != 0 {
        var firstpage, lastpage := window.slots[window.count - 1], window.slots[0];
        LinksOf(n, bytes, chapter, right - (window.count - 1));
        LinksOf(n, bytes, chapter, right);
        if bytes[firstpage].pleft != 0 && bytes[lastpage].refc == 0 {
          crashed := FollowLeft();
        }
      }
    }

    /** Hands out `straitc` pages: recycled from the window if one of its pages has them, new ones otherwise. */
    method AddInside(straitc: nat) returns (crashed: bool, id: nat, ghost from: int)
      requires Valid() && 1 <= straitc <= 255
      modifies this`bytes, this`owner, this`size, this`right, window, window.slots
      ensures crashed <==>
              old(NoneFit(|window.Pids()|, straitc) && Slides(bytes, window.Pids()) && |window.Pids()| == 1)
      ensures crashed ==> FileOk() && bytes == old(bytes) && owner == old(owner) && size == old(size)
      ensures !crashed ==> Valid() && owner == Assign(old(owner), id, straitc, Live)
      ensures !crashed ==> forall k :: id <= k < id + straitc && k in old(owner) ==> old(owner)[k].Free?
      ensures -1 <= from < |old(window.Pids())|
      ensures from >= 0 ==>
                && !crashed && size == old(size) && window.Pids() == old(window.Pids()) && right == old(right)
                && old(NoneFit(from, straitc)) && old(window.Pids())[from] in chapter
                && Recycled(n, old(bytes), bytes, old(window.Pids())[from], straitc, id)
                && old(bytes)[old(window.Pids())[from]].largest >= straitc
      ensures !crashed && from == -1 ==>
                && id == old(size) && size == old(size) + straitc && bytes == Lengthen(old(bytes), id, straitc, n)
                && old(NoneFit(|window.Pids()|, straitc)) && window.Pids() == SlidTo(old(bytes), old(window.Pids()))
    {
      crashed, id, from := false, 0, -1;
      var i := SearchFit(straitc);
      if i < window.count {
        id := Recycle(i, straitc);
        from := i;
      } else {
        crashed := Slide();
        if !crashed {
          id := Extend(straitc);
        }
      }
    }

    method Add(straitc: nat) returns (crashed: bool, id: nat)
      requires Valid() && 1 <= straitc <= 255
      modifies this`bytes, this`owner, this`size, this`right, window, window.slots
      ensures crashed <==>
              old(NoneFit(|window.Pids()|, straitc) && Slides(bytes, window.Pids()) && |window.Pids()| == 1)
      ensures crashed ==> FileOk() && bytes == old(bytes) && owner == old(owner) && size == old(size)
      ensures !crashed ==> Valid() && owner == Assign(old(owner), id, straitc, Live) && AllLive(id, straitc)
      ensures !crashed ==> forall k :: id <= k < id + straitc && k in old(owner) ==> old(owner)[k].Free?
      ensures !crashed && old(NoneFit(|window.Pids()|, straitc)) ==>
                && id == old(size) && size == old(size) + straitc && bytes == Lengthen(old(bytes), id, straitc, n)
                && window.Pids() == SlidTo(old(bytes), old(window.Pids()))
      ensures !old(NoneFit(|window.Pids()|, straitc)) ==>
                && size == old(size) && window.Pids() == old(window.Pids())
                && exists p :: p in old(window.Pids()) && Recycled(n, old(bytes), bytes, p, straitc, id)
    {
      ghost var from;
      crashed, id, from := AddInside(straitc);
    }

    // ------------------------------------------------------------------ taking back

    /** Every page of the window names as many straits as it can. */
    ghost predicate WindowFull()
      reads this, window, window.slots
      requires window.Shape()
    {
      forall i :: 0 <= i < |window.Pids()| ==> window.Pids()[i] in bytes && bytes[window.Pids()[i]].refc == n
    }

    /** None of the first `k` pages of the window has a place for the strait. */
    ghost predicate NoneTakes(k: nat, straitc: nat, id: nat)
      reads this, window, window.slots
      requires window.Shape() && k <= |window.Pids()|
    {
      forall i :: 0 <= i < k ==> window.Pids()[i] in bytes && NoPlace(n, bytes[window.Pids()[i]], straitc, id)
    }

    /** Stores a strait in the first place of the window, whatever its pages read as. */
    method Scan(straitc: nat, id: nat) returns (found: bool, ghost i: nat, ghost j: nat)
      requires window.Valid() && Shaped(n, bytes) && straitc <= 255
      requires forall k :: 0 <= k < |window.Pids()| ==> window.Pids()[k] in bytes
      modifies this`bytes
      ensures !found ==> i == 0 && bytes == old(bytes) && old(NoneTakes(|window.Pids()|, straitc, id))
      ensures found ==>
                && i < |window.Pids()| && old(NoneTakes(i, straitc, id))
                && FirstPlace(n, old(bytes)[window.Pids()[i]], straitc, id, j)
                && bytes == old(bytes)[window.Pids()[i] := Stored(old(bytes)[window.Pids()[i]], straitc, id, j)]
      ensures window.Pids() != [] ==>
                TookIfPlace(n, old(bytes)[window.Pids()[0]], bytes[window.Pids()[0]], straitc, id)
    {
      found, i, j := false, 0, 0;
      var at := 0;
      while at < window.count
        invariant 0 <= at <= window.count && NoneTakes(at, straitc, id) && bytes == old(bytes) && i == 0
      {
        var p := window.slots[at];
        assert p == window.Pids()[at];
        if bytes[p].refc != n {
          var q;
          found, q, j := StoreOn(n, bytes[p], straitc, id);
          if found {
            i := at;
            bytes := bytes[p := q];
            assert i > 0 ==> window.Pids()[0] != p;
            return;
          }
        }
        at := at + 1;
      }
    }

    /** On a sound file a page of the window has a place exactly if it is not full. */
    lemma WindowPlaces(straitc: nat, id: nat)
      requires Valid() && straitc <= 255
      ensures forall k :: 0 <= k < |window.Pids()| ==> window.Pids()[k] in bytes
      ensures WindowFull() <==> NoneTakes(|window.Pids()|, straitc, id)
    {
      forall k | 0 <= k < |window.Pids()|
        ensures window.Pids()[k] in bytes
        ensures NoPlace(n, bytes[window.Pids()[k]], straitc, id) <==> bytes[window.Pids()[k]].refc == n
      {
        assert PageOk(n, bytes, chapter, right - k);
        PlaceIfRoom(n, bytes[window.Pids()[k]], straitc, id);
      }
    }

    /** On a sound file the strait goes into the first null reference of the window. */
    method Settle(straitc: nat, id: nat) returns (found: bool, ghost c: nat, ghost j: nat)
      requires Valid() && AllLive(id, straitc) && 1 <= straitc <= 255
      modifies this`bytes, this`owner
      ensures Valid() && (found <==> !old(WindowFull()))
      ensures !found ==> bytes == old(bytes) && owner == old(owner)
      ensures found ==> owner == Assign(old(owner), id, straitc, Free(c, j)) && ChapterOnly(old(bytes), bytes, chapter)
      ensures found ==> Given(old(owner), owner, id, straitc)
    {
      ghost var i;
      c := 0;
      WindowPlaces(straitc, id);
      found, i, j := Scan(straitc, id);
      if found {
        c := right - i;
        SettledOk(old(bytes), c, straitc, id, j);
        owner := Assign(owner, id, straitc, Free(c, j));
        GivenIn(old(owner), id, straitc, Free(c, j));
      }
    }

    /** A page of the window took the strait. */
    lemma {:induction false} SettledOk(was: Bytes, c: nat, straitc: nat, id: nat, j: nat)
      requires 1 <= n <= UINT16_MAX && Partition(was, chapter, owner, size) && PagesOk(n, was, chapter)
      requires c <= right < |chapter| && EmptyFrom(was, chapter, right + 1) && chapter[c] in was
      requires AllLive(id, straitc) && 1 <= straitc <= 255 && FirstPlace(n, was[chapter[c]], straitc, id, j)
      ensures var q := Stored(was[chapter[c]], straitc, id, j);
              var after := was[chapter[c] := q];
              && Partition(after, chapter, Assign(owner, id, straitc, Free(c, j)), size) && PagesOk(n, after, chapter)
              && EmptyFrom(after, chapter, right + 1) && |q.refs| == n
    {
      assert PageOk(n, was, chapter, c) && id in owner;
      var q := Stored(was[chapter[c]], straitc, id, j);
      StoredIsInserted(n, was[chapter[c]], straitc, id, j);
      assert RefOk(was[chapter[c]].refs[j]);
      PutIn(n, was, chapter, owner, size, c, q, id, straitc, j);
      PagesRewritten(n, was, chapter, owner, size, c, q);
      StillEmpty(was, chapter, owner, size, right + 1, c, q);
    }

    /** The chapter has to grow for the next strait: the window is full, and nothing lies to its right. */
    ghost predicate NeedsPage()
      reads this, window, window.slots
      requires window.Shape()
    {
      var pids := window.Pids();
      WindowFull() && (pids != [] ==> pids[0] in bytes && bytes[pids[0]].pright == 0)
    }

    /** The page that the chapter would grow by: the first page of the first strait of the window. */
    ghost function RecycledPid(): nat
      reads this, window, window.slots
      requires window.Shape()
    {
      var pids := window.Pids();
      if pids != [] && pids[0] in bytes && bytes[pids[0]].refs != [] then bytes[pids[0]].refs[0].ref else size
    }

    /** If the chapter would grow by a page that was deleted before, that page can take the strait over. */
    ghost predicate Fitting(straitc: nat, id: nat)
      reads this, window, window.slots
      requires window.Shape()
    {
      NeedsPage() && RecycledPid() in bytes ==> TakesOver(n, bytes[RecycledPid()], straitc, id)
    }

    /**
      The page that the chapter grows by: recycled from the first page of a full window, or new if
      there is no chapter.
     */
    method NewChapterPage() returns (p: nat)
      requires Valid() && NeedsPage()
      modifies this`bytes, this`owner, this`size, this`right, window, window.slots
      ensures Valid() && window.Pids() == old(window.Pids()) && (chapter != [] ==> right + 1 == |chapter|)
      ensures p == old(RecycledPid()) && owner == Assign(old(owner), p, 1, Live) && p in bytes
      ensures p in old(owner) <==> chapter != []
      ensures p in old(owner) ==> old(owner)[p].Free?
      ensures bytes[p] == if p in old(bytes) then old(bytes)[p] else Zeros(n)
      ensures ChapterOnly(old(bytes), bytes, chapter)
      ensures size == old(size) + if chapter == [] then 1 else 0
    {
      ghost var pids := window.Pids();
      if chapter != [] {
        FullHasFirst(n, bytes, chapter, right);
        LastIsRight(n, bytes, chapter, owner, size, right);
      }
      ghost var from;
      var crashed;
      crashed, p, from := AddInside(1);
      assert chapter != [] ==> from == 0;
      LiveOutside(bytes, chapter, owner, size, p);
    }

    /** The new page is none of the strait that is given back. */
    method PageFor(straitc: nat, id: nat) returns (p: nat)
      requires Valid() && NeedsPage() && AllLive(id, straitc) && 1 <= straitc <= 255
      modifies this`bytes, this`owner, this`size, this`right, window, window.slots
      ensures Shell() && (chapter != [] ==> right + 1 == |chapter|) && p == old(RecycledPid())
      ensures Handed(n, bytes, chapter, size, old(owner), owner, p, id, straitc)
      ensures bytes[p] == if p in old(bytes) then old(bytes)[p] else Zeros(n)
      ensures p in old(bytes) <==> p in old(owner)
      ensures ChapterOnly(old(bytes), bytes, chapter)
      ensures size == old(size) + if chapter == [] then 1 else 0
    {
      assert id in owner;
      p := NewChapterPage();
      forall c | 0 <= c < |chapter|
        ensures chapter[c] in bytes
      {
        LinksOf(n, bytes, chapter, c);
      }
    }

    /** The front page of the window names the new page as its right neighbour. */
    method LinkFront(p: nat)
      requires Shell() && PagesOk(n, bytes, chapter) && p in bytes && p !in chapter
      requires chapter != [] ==> right + 1 == |chapter|
      modifies this`bytes
      ensures bytes.Keys == old(bytes).Keys && bytes[p] == old(bytes)[p] && Shaped(n, bytes)
      ensures forall c :: 0 <= c < |chapter| ==> chapter[c] in old(bytes)
      ensures bytes[p := old(bytes)[p].(pleft := ref1)] == LinkedIn(old(bytes), chapter, p)
    {
      forall c | 0 <= c < |chapter|
        ensures chapter[c] in bytes
      {
        LinksOf(n, bytes, chapter, c);
      }
      if window.count != 0 {
        assert window.slots[0] == window.Pids()[0] == ref1;
        bytes := bytes[window.slots[0] := bytes[window.slots[0]].(pright := p)];
      }
    }

    /** A new page gets its left neighbour, and the entry its new end. */
    method Initialize(p: nat)
      requires Shaped(n, bytes) && EntryOk() && p in bytes
      modifies this`bytes, this`owner, this`chapter, this`ref0, this`ref0c, this`ref1
      ensures Shaped(n, bytes) && EntryOk() && bytes == old(bytes)[p := old(bytes)[p].(pleft := old(ref1))]
      ensures chapter == old(chapter) + [p] && owner == old(owner)[p := InChapter(|old(chapter)|)]
    {
      bytes := bytes[p := bytes[p].(pleft := ref1)];
      if ref0c == 0 {
        ref0 := p;
      }
      ref0c := ref0c + 1;
      ref1 := p;
      owner := owner[p := InChapter(|chapter|)];
      chapter := chapter + [p];
    }

    /**
      Links a live page in behind the whole chapter and brings it to the front of the window; its
      content is not looked at.
     */
    method Expand(p: nat)
      requires Shell() && (chapter != [] ==> right + 1 == |chapter|)
      requires Partition(bytes, chapter, owner, size) && PagesOk(n, bytes, chapter) && p in owner && owner[p] == Live
      modifies this`bytes, this`owner, this`chapter, this`right, this`ref0, this`ref0c, this`ref1, window, window.slots
      ensures p in old(bytes) && forall c :: 0 <= c < |old(chapter)| ==> old(chapter)[c] in old(bytes)
      ensures Shell() && right + 1 == |chapter| && bytes == LinkedIn(old(bytes), old(chapter), p)
      ensures chapter == old(chapter) + [p] && owner == old(owner)[p := InChapter(|old(chapter)|)]
    {
      LiveOutside(bytes, chapter, owner, size, p);
      ghost var pids, c := window.Pids(), |chapter|;
      LinkFront(p);
      window.ShiftRight(p);
      Initialize(p);
      ShiftedAt(pids, old(chapter), right, p, window.count);
      right := c;
    }

    /** The page to the right of a full window comes in. */
    method MoveOn()
      requires Valid() && WindowFull() && !NeedsPage()
      modifies this`right, window, window.slots
      ensures Valid() && !WindowFull()
    {
      ghost var pids := window.Pids();
      LinksOf(n, bytes, chapter, right);
      OutsideRight(bytes, chapter, owner, size, pids, right);
      window.ShiftRight(bytes[window.slots[0]].pright);
      right := right + 1;
      assert forall i :: 1 <= i < |window.Pids()| ==> window.Pids()[i] == pids[i - 1];
      assert EmptyAt(bytes, chapter, right) && window.Pids()[0] == chapter[right];
    }

    /** The search is repeated after page `p` came to the front of the window. */
    method ScanNew(p: nat, straitc: nat, id: nat, ghost was: Owners, ghost before: Bytes, ghost pages: seq<nat>,
                   ghost next: Owners)
      returns (err: Error, ghost last: Owners)
      requires Handed(n, before, pages, size, was, next, p, id, straitc) && straitc <= 255
      requires Shell() && right + 1 == |chapter| && chapter == pages + [p] && bytes == LinkedIn(before, pages, p)
      modifies this`bytes
      ensures Shell()
      ensures err == None && Sound(n, bytes, chapter, size, was, id, straitc) <==> TakesOver(n, before[p], straitc, id)
      ensures TakesOver(n, before[p], straitc, id) ==> SoundFor(n, bytes, chapter, size, was, last, id, straitc)
      ensures ChapterOnly(before, bytes, chapter) && p in bytes
      ensures TookIfPlace(n, old(bytes)[p], bytes[p], straitc, id)
    {
      assert window.Pids()[0] == p;
      var found;
      ghost var i, j;
      found, i, j := Scan(straitc, id);
      err := if found then None else Critical;
      ghost var pids := window.Pids();
      LinkedChapterOnly(before, pages, p, pids[i], bytes[pids[i]]);
      ScanOutcome(n, before, pages, size, was, next, p, id, straitc, pids, found, i, j, bytes);
      last := GivenOwners(next[p := InChapter(|pages|)], bytes[p].refs, |pages|, id, straitc);
    }

    /**
      A page that was just handed out becomes the last page of the chapter, and takes the strait if
      it has a place for it.
     */
    method FillNew(p: nat, straitc: nat, id: nat, ghost was: Owners) returns (err: Error, ghost last: Owners)
      requires Shell() && (chapter != [] ==> right + 1 == |chapter|) && straitc <= 255
      requires Handed(n, bytes, chapter, size, was, owner, p, id, straitc)
      modifies this`bytes, this`owner, this`chapter, this`right, this`ref0, this`ref0c, this`ref1, window, window.slots
      ensures Shell() && chapter == old(chapter) + [p] && right + 1 == |chapter|
      ensures err == None && Sound(n, bytes, chapter, size, was, id, straitc)
              <==> TakesOver(n, old(bytes)[p], straitc, id)
      ensures TakesOver(n, old(bytes)[p], straitc, id) ==> SoundFor(n, bytes, chapter, size, was, last, id, straitc)
      ensures ChapterOnly(old(bytes), bytes, chapter) && p in bytes
      ensures TookIfPlace(n, old(bytes)[p].(pleft := old(ref1)), bytes[p], straitc, id)
    {
      ghost var before, pages, next := bytes, chapter, owner;
      Expand(p);
      err, last := ScanNew(p, straitc, id, was, before, pages, next);
    }

    /** If the file is sound with these owners, they are the owners from now on. */
    ghost method Adopt(next: Owners, was: Owners, id: nat, straitc: nat)
      requires Shell() && right + 1 == |chapter|
      modifies this`owner
      ensures Shell()
      ensures SoundFor(n, bytes, chapter, size, was, next, id, straitc) ==> Valid() && Given(was, owner, id, straitc)
    {
      owner := next;
    }

    /** The chapter grows by a page, whatever that page reads as, and the search for a place is repeated. */
    method GrowChapter(straitc: nat, id: nat) returns (err: Error)
      requires Valid() && NeedsPage() && AllLive(id, straitc) && 1 <= straitc <= 255
      modifies this, window, window.slots
      ensures err == None && Sound(n, bytes, chapter, size, old(owner), id, straitc) <==> old(Fitting(straitc, id))
      ensures old(Fitting(straitc, id)) ==> Valid() && Given(old(owner), owner, id, straitc)
      ensures chapter == old(chapter) + [old(RecycledPid())] && right + 1 == |chapter|
      ensures size == old(size) + if old(chapter) == [] then 1 else 0
      ensures ChapterOnly(old(bytes), bytes, chapter)
      ensures var p := old(RecycledPid());
              var x := if p in old(bytes) then old(bytes)[p] else Zeros(n);
              p in bytes && TookIfPlace(n, x.(pleft := old(ref1)), bytes[p], straitc, id)
    {
      ghost var was := owner;
      var p := PageFor(straitc, id);
      if p !in was {
        ZerosTakeOver(n, straitc, id);
      }
      ghost var last;
      err, last := FillNew(p, straitc, id, was);
      Adopt(last, was, id, straitc);
    }

    /**
      Takes back a strait of live pages. A full window moves once, to the page on its right or to
      a new page of the chapter. The program links that page in as it reads and stores the strait
      on it; the file is sound afterwards if and only if the page could take the strait over.
     */
    method Del(straitc: nat, id: nat) returns (err: Error)
      requires Valid() && AllLive(id, straitc) && 1 <= straitc <= 255
      modifies this, window, window.slots
      ensures err == None && Sound(n, bytes, chapter, size, old(owner), id, straitc) <==> old(Fitting(straitc, id))
      ensures old(Fitting(straitc, id)) ==> Valid() && Given(old(owner), owner, id, straitc)
      ensures chapter == old(chapter) + if old(NeedsPage()) then [old(RecycledPid())] else []
      ensures size == old(size) + if old(chapter) == [] then 1 else 0
      ensures ChapterOnly(old(bytes), bytes, chapter)
      ensures old(NeedsPage()) ==>
                var p := old(RecycledPid());
                var x := if p in old(bytes) then old(bytes)[p] else Zeros(n);
                p in bytes && TookIfPlace(n, x.(pleft := old(ref1)), bytes[p], straitc, id) && right + 1 == |chapter|
    {
      var found;
      ghost var c, j;
      found, c, j := Settle(straitc, id);
      err := None;
      if !found {
        if window.count == 0 || bytes[window.slots[0]].pright == 0 {
          err := GrowChapter(straitc, id);
        } else {
          MoveOn();
          found, c, j := Settle(straitc, id);
          assert SoundFor(n, bytes, chapter, size, old(owner), owner, id, straitc);
        }
      } else {
        assert SoundFor(n, bytes, chapter, size, old(owner), owner, id, straitc);
      }
    }
  }

  // ------------------------------------------------------------------ two runs that go wrong

  /**
    A file of four pages, of which the last three were handed out; a page of its chapter has one
    reference, its window one page.
   */
  method SmallFile() returns (f: DeletedPages)
    ensures f.Valid() && fresh(f) && fresh(f.window) && fresh(f.window.slots)
    ensures f.n == 1 && f.window.slots.Length == 1 && f.chapter == [] && f.size == 4
    ensures f.AllLive(1, 3) && forall k :: k in f.bytes ==> f.bytes[k] == Zeros(1)
  {
    f := new DeletedPages(1, 1, 1);
    var crashed, id := f.Add(3);
  }

  /** The first strait that is given back goes into a new page of the chapter, which is full with it. */
  method FirstDel(f: DeletedPages, id: nat)
    requires f.Valid() && f.chapter == [] && f.n == 1 && f.AllLive(id, 1)
    modifies f, f.window, f.window.slots
    ensures f.Valid() && f.chapter == [old(f.size)] && f.size == old(f.size) + 1
    ensures Given(old(f.owner), f.owner, id, 1) && ChapterOnly(old(f.bytes), f.bytes, f.chapter)
    ensures f.window.Pids() == f.chapter && f.NeedsPage() && f.RecycledPid() == id
  {
    ghost var p, x := f.size, Zeros(1).(pleft := 0);
    assert id in f.owner && p !in f.bytes && f.window.Pids() == [];
    var err := f.Del(1, id);
    OneRef(x, f.bytes[p], 1, id);
    LinksOf(f.n, f.bytes, f.chapter, 0);
    assert f.window.Pids()[0] == p;
  }

  /** The only reference of a page that is full, or reads as zeros. */
  lemma OneRef(x: DeletedPage, q: DeletedPage, straitc: nat, id: nat)
    requires |x.refs| == 1 && TookIfPlace(1, x, q, straitc, id)
    ensures x.refc == 1 ==> NoPlace(1, x, straitc, id) && q == x && !TakesOver(1, x, straitc, id)
    ensures x.refc == 0 && x.refs[0].ref == 0 && straitc <= UINT16_MAX ==> q == Stored(x, straitc, id, 0)
  {
    if x.refc == 0 && x.refs[0].ref == 0 {
      assert TakesRef(x.refs[0], straitc, id);
    }
  }

  /**
    A page is written to and given back, and the chapter grows by it: it now names a page that
    its user never gave back, and no division of the file among owners is right.
   */
  method LivePageNamed() returns (f: DeletedPages, b: nat, c: nat, ghost was: Owners)
    ensures fresh(f) && b != c && b in was && was[b] == Live && c in was && was[c] == Live
    ensures RefHolds(f.bytes, f.chapter, 1, 0, c)
    ensures !Sound(f.n, f.bytes, f.chapter, f.size, was, b, 1)
  {
    f := SmallFile();
    b, c, was := 2, 3, f.owner;
    var page := DeletedPage(0, 0, 1, 1, 1, [DeletedRef(c, 1)]);
    f.Write(1, page);
    FirstDel(f, 1);
    assert GivenAt(was, f.owner, 1, 1, b) && GivenAt(was, f.owner, 1, 1, c);
    was := f.owner;
    ghost var x := page.(pleft := f.ref1);
    var err := f.Del(1, b);
    OneRef(x, f.bytes[1], 1, b);
    NamedLive(f.n, f.bytes, f.chapter, f.size, was, b, 1, 1, 0, c);
  }

  /** A reference of the chapter to a page that was live, and is not given back, is a mistake. */
  lemma NamedLive(n: nat, bytes: Bytes, chapter: seq<nat>, size: nat, was: Owners, id: nat, straitc: nat, c: nat,
                  j: nat, k: nat)
    requires RefHolds(bytes, chapter, c, j, k) && k in was && was[k] == Live && !(id <= k < id + straitc)
    ensures !Sound(n, bytes, chapter, size, was, id, straitc)
  {
    forall next | Partition(bytes, chapter, next, size)
      ensures !GivenAt(was, next, id, straitc, k)
    {
      RefOwner(bytes, chapter, next, size, c, j, k);
    }
  }

  /** The same without writing to the page. */
  method UnwrittenDel(f: DeletedPages)
    requires f.Valid() && f.chapter == [] && f.n == 1 && f.AllLive(1, 3) && f.size == 4
    requires forall k :: k in f.bytes ==> f.bytes[k] == Zeros(1)
    modifies f, f.window, f.window.slots
    ensures f.Valid() && f.chapter == [4] && f.ref1 == 4 && f.AllLive(2, 1) && f.NeedsPage() && f.RecycledPid() == 1
    ensures 1 in f.bytes && f.bytes[1] == Zeros(1)
  {
    ghost var was := f.owner;
    assert 1 in was && 1 in f.bytes;
    FirstDel(f, 1);
    assert GivenAt(was, f.owner, 1, 1, 2);
  }

  /** Then the chapter grows by it as it should. */
  method SecondDel(f: DeletedPages)
    requires f.Valid() && f.chapter == [4] && f.ref1 == 4 && f.n == 1 && f.window.slots.Length == 1 && f.AllLive(2, 1)
    requires f.NeedsPage() && f.RecycledPid() == 1 && 1 in f.bytes && f.bytes[1] == Zeros(1)
    modifies f, f.window, f.window.slots
    ensures f.Valid() && f.chapter == [4, 1] && f.window.Pids() == [1] && 1 in f.bytes
    ensures f.bytes[1] == Stored(Zeros(1).(pleft := 4), 1, 2, 0)
  {
    ZerosTakeOver(1, 1, 2);
    var err := f.Del(1, 2);
    OneRef(Zeros(1).(pleft := 4), f.bytes[1], 1, 2);
    OnePageWindow(f);
  }

  lemma OnePageWindow(f: DeletedPages)
    requires f.Valid() && f.window.slots.Length == 1 && f.chapter != []
    ensures f.window.Pids() == [f.chapter[f.right]]
  {
  }

  /**
    With a window of one page, two straits given back and one taken again leave that page empty
    with the chapter going on to its left. The next allocation crashes; the file is intact.
   */
  method WindowOfOne() returns (f: DeletedPages, crashed: bool)
    ensures fresh(f) && crashed && f.FileOk()
  {
    f := SmallFile();
    UnwrittenDel(f);
    SecondDel(f);
    EmptyLast(f);
    crashed := CrashingAdd(f);
  }

  /** With nothing left on the only page of the window, it has to follow the chapter to the left. */
  method CrashingAdd(f: DeletedPages) returns (crashed: bool)
    requires f.Valid() && f.chapter == [4, 1] && f.window.Pids() == [1] && 1 in f.bytes
    requires f.bytes[1].refc == 0 && f.bytes[1].largest == 0
    modifies f`bytes, f`owner, f`size, f`right, f.window, f.window.slots
    ensures crashed && f.FileOk()
  {
    LinksOf(f.n, f.bytes, f.chapter, 1);
    var id;
    crashed, id := f.Add(1);
  }

  /** The strait on the last page is handed out again. */
  method EmptyLast(f: DeletedPages)
    requires f.Valid() && f.n == 1 && f.chapter == [4, 1] && f.window.Pids() == [1] && 1 in f.bytes
    requires f.bytes[1] == Stored(Zeros(1).(pleft := 4), 1, 2, 0)
    modifies f`bytes, f`owner, f`size, f`right, f.window, f.window.slots
    ensures f.Valid() && f.window.Pids() == [1] && 1 in f.bytes && f.bytes[1].refc == 0 && f.bytes[1].largest == 0
  {
    var crashed, id := f.Add(1);
    assert RefCount(f.bytes[1].refs[..0]) == 0;
  }

  // ------------------------------------------------------------------ lemmas

  /** A page left of the window is not in it. */
  lemma OutsideWindow(bytes: Bytes, chapter: seq<nat>, owner: Owners, size: nat, pids: seq<nat>, right: int, c: nat)
    requires Partition(bytes, chapter, owner, size) && right < |chapter| && c <= right - |pids|
    requires forall i :: 0 <= i < |pids| ==> pids[i] == chapter[right - i]
    ensures chapter[c] !in pids
  {
    forall i | 0 <= i < |pids|
      ensures pids[i] != chapter[c]
    {
      if chapter[right - i] == chapter[c] {
        ChapterDistinct(bytes, chapter, owner, size, right - i, c);
      }
    }
  }

  lemma LinksOf(n: nat, bytes: Bytes, chapter: seq<nat>, c: nat)
    requires PagesOk(n, bytes, chapter) && c < |chapter|
    ensures chapter[c] in bytes && bytes[chapter[c]].pleft == if c == 0 then 0 else chapter[c - 1]
    ensures bytes[chapter[c]].pright == if c + 1 < |chapter| then chapter[c + 1] else 0
  {
    assert PageOk(n, bytes, chapter, c);
  }

  lemma OutsideRight(bytes: Bytes, chapter: seq<nat>, owner: Owners, size: nat, pids: seq<nat>, right: nat)
    requires Partition(bytes, chapter, owner, size) && WindowAt(pids, chapter, right) && right + 1 < |chapter|
    ensures chapter[right + 1] !in pids
  {
    forall i | 0 <= i < |pids|
      ensures pids[i] != chapter[right + 1]
    {
      if chapter[right - i] == chapter[right + 1] {
        ChapterDistinct(bytes, chapter, owner, size, right - i, right + 1);
      }
    }
  }

  /** The window once the last page of the chapter came in. */
  lemma ShiftedAt(pids: seq<nat>, chapter: seq<nat>, right: nat, p: nat, count: nat)
    requires WindowAt(pids, chapter, right) && (chapter != [] ==> right + 1 == |chapter|) && 1 <= count <= |pids| + 1
    ensures WindowAt([p] + pids[..count - 1], chapter + [p], |chapter|)
  {
    var next := [p] + pids[..count - 1];
    forall i | 0 <= i < |next|
      ensures next[i] == (chapter + [p])[|chapter| - i]
    {
      assert i > 0 ==> next[i] == pids[i - 1];
    }
  }

  /** The window may follow the chapter by one page. */
  lemma SlidOk(n: nat, bytes: Bytes, chapter: seq<nat>, owner: Owners, size: nat, pids: seq<nat>, right: nat)
    requires Partition(bytes, chapter, owner, size) && PagesOk(n, bytes, chapter)
    requires WindowAt(pids, chapter, right) && EmptyFrom(bytes, chapter, right + 1) && Slides(bytes, pids)
    ensures bytes[pids[|pids| - 1]].pleft !in pids && right >= 1
    ensures WindowAt(SlidTo(bytes, pids), chapter, right - 1) && EmptyFrom(bytes, chapter, right)
  {
    var c := right - (|pids| - 1);
    LinksOf(n, bytes, chapter, c);
    OutsideWindow(bytes, chapter, owner, size, pids, right, c - 1);
    var next := SlidTo(bytes, pids);
    forall i | 0 <= i < |next|
      ensures next[i] == chapter[right - 1 - i]
    {
      if i + 1 < |pids| {
        assert next[i] == pids[i + 1];
      }
    }
    forall d | right <= d < |chapter|
      ensures EmptyAt(bytes, chapter, d)
    {
      assert d == right ==> chapter[d] == pids[0];
    }
  }

  /** What the repeated search makes of the file, whether it ended on the new page, elsewhere or nowhere. */
  lemma ScanOutcome(n: nat, before: Bytes, pages: seq<nat>, size: nat, was: Owners, next: Owners, p: nat, id: nat,
                    straitc: nat, pids: seq<nat>, found: bool, i: nat, j: nat, after: Bytes)
    requires Handed(n, before, pages, size, was, next, p, id, straitc)
    requires i < |pids| && WindowAt(pids, pages + [p], |pages|)
    requires var linked := LinkedIn(before, pages, p);
             && pids[i] in linked && ((found && i == 0) || NoPlace(n, linked[p], straitc, id))
             && (found ==> FirstPlace(n, linked[pids[i]], straitc, id, j)
                           && after == linked[pids[i] := Stored(linked[pids[i]], straitc, id, j)])
    requires p in after
    ensures found && Sound(n, after, pages + [p], size, was, id, straitc) <==> TakesOver(n, before[p], straitc, id)
    ensures TakesOver(n, before[p], straitc, id) ==>
              SoundFor(n, after, pages + [p], size, was,
                       GivenOwners(next[p := InChapter(|pages|)], after[p].refs, |pages|, id, straitc), id, straitc)
  {
    if found && i == 0 {
      GrownFirst(n, before, pages, size, was, next, p, id, straitc, j);
    } else {
      GrownNowhere(n, before, pages, size, was, next, p, id, straitc);
      if found {
        assert pids[i] == pages[|pages| - i];
        GrownElsewhere(n, before, pages, size, was, next, p, id, straitc, |pages| - i, j);
      }
    }
  }

  lemma LinkedChapterOnly(bytes: Bytes, chapter: seq<nat>, p: nat, r: nat, q: DeletedPage)
    requires p in bytes && r in chapter + [p] && forall c :: 0 <= c < |chapter| ==> chapter[c] in bytes
    ensures ChapterOnly(bytes, LinkedIn(bytes, chapter, p)[r := q], chapter + [p])
  {
    assert forall k :: k in bytes && k !in chapter + [p] ==> k != p && (chapter != [] ==> k != chapter[|chapter| - 1]);
  }

  /** A full page gives a page to whoever asks for one, from its first reference. */
  lemma FullHasFirst(n: nat, bytes: Bytes, chapter: seq<nat>, c: nat)
    requires n >= 1 && PagesOk(n, bytes, chapter) && c < |chapter|
    requires chapter[c] in bytes && bytes[chapter[c]].refc == n
    ensures bytes[chapter[c]].largest >= 1 && |bytes[chapter[c]].refs| == n && Fits(bytes[chapter[c]].refs[0], 1)
  {
    assert PageOk(n, bytes, chapter, c);
    RefCountBound(bytes[chapter[c]].refs);
    assert RefOk(bytes[chapter[c]].refs[0]);
  }

  /** A page of the chapter with nothing to its right is the last one. */
  lemma LastIsRight(n: nat, bytes: Bytes, chapter: seq<nat>, owner: Owners, size: nat, c: nat)
    requires Partition(bytes, chapter, owner, size) && PagesOk(n, bytes, chapter) && c < |chapter|
    requires chapter[c] in bytes && bytes[chapter[c]].pright == 0
    ensures c + 1 == |chapter|
  {
    assert PageOk(n, bytes, chapter, c);
    if c + 1 < |chapter| {
      ChapterOwner(bytes, chapter, owner, size, c + 1);
    }
  }

  lemma {:induction false} GivenIn(owner: Owners, id: nat, straitc: nat, o: Owner)
    requires o.Free? && forall k :: id <= k < id + straitc ==> k in owner
    ensures Given(owner, Assign(owner, id, straitc, o), id, straitc)
  {
    forall k | k in owner
      ensures GivenAt(owner, Assign(owner, id, straitc, o), id, straitc, k)
    {
    }
  }

  /** A chapter page that is not right of the window was rewritten. */
  lemma StillEmpty(bytes: Bytes, chapter: seq<nat>, owner: Owners, size: nat, from: nat, c: nat, q: DeletedPage)
    requires Partition(bytes, chapter, owner, size) && EmptyFrom(bytes, chapter, from) && c < from && c < |chapter|
    ensures EmptyFrom(bytes[chapter[c] := q], chapter, from)
  {
    var after := bytes[chapter[c] := q];
    forall c' | from <= c' < |chapter|
      ensures EmptyAt(after, chapter, c')
    {
      assert EmptyAt(bytes, chapter, c');
      if chapter[c'] == chapter[c] {
        ChapterDistinct(bytes, chapter, owner, size, c, c');
      }
    }
  }

  /** A page outside the chapter was rewritten. */
  lemma StaysEmpty(bytes: Bytes, chapter: seq<nat>, from: nat, p: nat, page: DeletedPage)
    requires EmptyFrom(bytes, chapter, from) && p !in chapter
    ensures EmptyFrom(bytes[p := page], chapter, from)
  {
    var after := bytes[p := page];
    forall c | from <= c < |chapter|
      ensures EmptyAt(after, chapter, c)
    {
      assert EmptyAt(bytes, chapter, c) && chapter[c] in chapter;
    }
  }

  lemma {:induction false} EmptyAfterGrowth(bytes: Bytes, chapter: seq<nat>, from: nat, size: nat, s: nat, n: nat)
    requires EmptyFrom(bytes, chapter, from)
    ensures EmptyFrom(Lengthen(bytes, size, s, n), chapter, from)
  {
    forall c | from <= c < |chapter|
      ensures EmptyAt(Lengthen(bytes, size, s, n), chapter, c)
    {
      assert EmptyAt(bytes, chapter, c);
    }
  }

  lemma {:induction false} InitialPartition(n: nat, fixed: nat)
    requires fixed >= 1
    ensures Partition(Lengthen(map[], 0, fixed, n), [], Assign(map[], 0, fixed, Fixed), fixed)
  {
    var owner := Assign(map[], 0, fixed, Fixed);
    assert 0 in owner;
    assert forall p :: p in owner ==> OwnedAt(Lengthen(map[], 0, fixed, n), [], owner, p);
  }
}
