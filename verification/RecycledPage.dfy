/**
  What becomes of the file when its chapter of deleted pages grows by a page that was itself
  deleted before. The program links that page in as it reads, and then stores a strait; this
  says for every content of the page whether the file is sound afterwards.
 */
module RecycledPage {
  import opened DeletedRefs
  import opened FilePartition

  /** From `a` to `b` the pages of one strait stopped being live, and no other page did or began to be. */
  ghost predicate Given(a: Owners, b: Owners, id: nat, straitc: nat) {
    forall k :: k in a ==> GivenAt(a, b, id, straitc, k)
  }

  ghost predicate GivenAt(a: Owners, b: Owners, id: nat, straitc: nat, k: nat)
    requires k in a
  {
    && k in b
    && (if id <= k < id + straitc then b[k] != Live && b[k] != Fixed
        else (b[k] == Live <==> a[k] == Live) && (b[k] == Fixed <==> a[k] == Fixed))
  }

  ghost predicate SoundFor(n: nat, bytes: Bytes, chapter: seq<nat>, size: nat, was: Owners, owner: Owners, id: nat,
                           straitc: nat) {
    Partition(bytes, chapter, owner, size) && PagesOk(n, bytes, chapter) && Given(was, owner, id, straitc)
  }

  /** The file can be divided among owners so that exactly the strait was given back. */
  ghost predicate Sound(n: nat, bytes: Bytes, chapter: seq<nat>, size: nat, was: Owners, id: nat, straitc: nat) {
    exists owner :: SoundFor(n, bytes, chapter, size, was, owner, id, straitc)
  }

  predicate Names(refs: seq<DeletedRef>, j: nat, k: nat) {
    j < |refs| && refs[j].ref <= k < refs[j].ref + refs[j].straitc
  }

  predicate NamesSome(refs: seq<DeletedRef>, k: nat) {
    exists j :: 0 <= j < |refs| && Names(refs, j, k)
  }

  /** The references of a page name each page of the strait once, and no other page. */
  ghost predicate Tiles(refs: seq<DeletedRef>, id: nat, straitc: nat) {
    && (forall j, k: nat :: Names(refs, j, k) ==> id <= k < id + straitc)
    && (forall j, j', k: nat :: Names(refs, j, k) && Names(refs, j', k) ==> j == j')
    && (forall k: nat :: id <= k < id + straitc ==> NamesSome(refs, k))
  }

  // ------------------------------------------------------------------ filling the last page

  /** The last page of the chapter is empty and reads as zeros. */
  ghost predicate LastBlank(n: nat, bytes: Bytes, chapter: seq<nat>) {
    && chapter != [] && chapter[|chapter| - 1] in bytes
    && bytes[chapter[|chapter| - 1]].refs == Zeros(n).refs
  }

  /**
    If a sound file still names every page that it named, a reference of the last page names pages
    of the strait only.
   */
  lemma OnlyStrait(n: nat, bytes: Bytes, chapter: seq<nat>, owner: Owners, size: nat, after: Bytes, next: Owners,
                   id: nat, straitc: nat, j: nat, k: nat)
    requires Partition(bytes, chapter, owner, size) && LastBlank(n, bytes, chapter)
    requires Partition(after, chapter, next, size) && Given(owner, next, id, straitc)
    requires forall c', j', k' :: RefHolds(bytes, chapter, c', j', k') ==> RefHolds(after, chapter, c', j', k')
    requires RefHolds(after, chapter, |chapter| - 1, j, k)
    ensures id <= k < id + straitc
  {
    RefOwner(after, chapter, next, size, |chapter| - 1, j, k);
    assert OwnedAt(bytes, chapter, owner, k) && GivenAt(owner, next, id, straitc, k);
    match owner[k]
    case Fixed =>
    case Live =>
    case InChapter(c) => ChapterOwner(after, chapter, next, size, c);
    case Free(c, j') => RefOwner(after, chapter, next, size, c, j', k);
  }

  /** In a sound file the last page, filled as `q`, names exactly the strait. */
  lemma FilledTiles(n: nat, bytes: Bytes, chapter: seq<nat>, owner: Owners, size: nat, q: DeletedPage, next: Owners,
                    id: nat, straitc: nat)
    requires Partition(bytes, chapter, owner, size) && LastBlank(n, bytes, chapter)
    requires forall k :: id <= k < id + straitc ==> k in owner && owner[k] == Live
    requires SoundFor(n, bytes[chapter[|chapter| - 1] := q], chapter, size, owner, next, id, straitc)
    ensures CountsOk(n, q) && q.pright == 0 && Tiles(q.refs, id, straitc)
  {
    var c := |chapter| - 1;
    var after := bytes[chapter[c] := q];
    assert PageOk(n, after, chapter, c);
    forall c', j', k | RefHolds(bytes, chapter, c', j', k)
      ensures RefHolds(after, chapter, c', j', k)
    {
      HeldAfter(bytes, chapter, owner, size, c, q, c', j', k);
    }
    forall j, k: nat | Names(q.refs, j, k)
      ensures RefHolds(after, chapter, c, j, k) && RefOwned(next, c, j, k) && id <= k < id + straitc
    {
      HeldAfter(bytes, chapter, owner, size, c, q, c, j, k);
      OnlyStrait(n, bytes, chapter, owner, size, after, next, id, straitc, j, k);
    }
    forall k | id <= k < id + straitc
      ensures NamesSome(q.refs, k)
    {
      StraitNamed(n, bytes, chapter, owner, size, q, next, id, straitc, k);
    }
  }

  lemma StraitNamed(n: nat, bytes: Bytes, chapter: seq<nat>, owner: Owners, size: nat, q: DeletedPage, next: Owners,
                    id: nat, straitc: nat, k: nat)
    requires Partition(bytes, chapter, owner, size) && LastBlank(n, bytes, chapter)
    requires id <= k < id + straitc && k in owner && owner[k] == Live
    requires SoundFor(n, bytes[chapter[|chapter| - 1] := q], chapter, size, owner, next, id, straitc)
    ensures NamesSome(q.refs, k)
  {
    var c := |chapter| - 1;
    var after := bytes[chapter[c] := q];
    assert GivenAt(owner, next, id, straitc, k) && OwnedAt(after, chapter, next, k);
    if next[k].InChapter? {
      ChapterOwner(bytes, chapter, owner, size, next[k].c);
    } else {
      HeldAfter(bytes, chapter, owner, size, c, q, next[k].c, next[k].j, k);
      if next[k].c != c {
        RefOwner(bytes, chapter, owner, size, next[k].c, next[k].j, k);
      } else {
        assert Names(q.refs, next[k].j, k);
      }
    }
  }

  /** The reference that names a page, if one does. */
  ghost function NamedBy(refs: seq<DeletedRef>, k: nat): (j: nat)
    ensures NamesSome(refs, k) ==> Names(refs, j, k)
  {
    if NamesSome(refs, k) then var j :| 0 <= j < |refs| && Names(refs, j, k); j else 0
  }

  /** The owners once the last page names the strait, perhaps piece by piece. */
  ghost function GivenOwners(owner: Owners, refs: seq<DeletedRef>, c: nat, id: nat, straitc: nat): (next: Owners)
    ensures forall k: nat :: k in next <==> k in owner
    ensures forall k :: k in next ==>
              next[k] == if id <= k < id + straitc then Free(c, NamedBy(refs, k)) else owner[k]
  {
    map k | k in owner :: if id <= k < id + straitc then Free(c, NamedBy(refs, k)) else owner[k]
  }

  /** If the last page, filled as `q`, names exactly the strait, the file is sound. */
  lemma FilledSound(n: nat, bytes: Bytes, chapter: seq<nat>, owner: Owners, size: nat, q: DeletedPage, id: nat,
                    straitc: nat)
    requires Partition(bytes, chapter, owner, size) && PagesOk(n, bytes, chapter) && LastBlank(n, bytes, chapter)
    requires forall k :: id <= k < id + straitc ==> k in owner && owner[k] == Live
    requires q.pleft == bytes[chapter[|chapter| - 1]].pleft
    requires CountsOk(n, q) && q.pright == 0 && Tiles(q.refs, id, straitc)
    ensures SoundFor(n, bytes[chapter[|chapter| - 1] := q], chapter, size, owner,
                     GivenOwners(owner, q.refs, |chapter| - 1, id, straitc), id, straitc)
  {
    var c := |chapter| - 1;
    var after, next := bytes[chapter[c] := q], GivenOwners(owner, q.refs, c, id, straitc);
    assert PageOk(n, bytes, chapter, c);
    PagesRewritten(n, bytes, chapter, owner, size, c, q);
    forall c' | 0 <= c' < |chapter|
      ensures ChapterOwned(chapter, next, c')
    {
      assert ChapterOwned(chapter, owner, c');
    }
    forall c': nat, j: nat, k: nat | RefHolds(after, chapter, c', j, k)
      ensures RefOwned(next, c', j, k)
    {
      FilledOwned(n, bytes, chapter, owner, size, q, id, straitc, c', j, k);
    }
    forall k | k in next
      ensures OwnedAt(after, chapter, next, k)
    {
      assert OwnedAt(bytes, chapter, owner, k);
      if next[k].Free? {
        HeldAfter(bytes, chapter, owner, size, c, q, next[k].c, next[k].j, k);
        assert id <= k < id + straitc ==> NamesSome(q.refs, k);
      }
    }
    forall k | k in owner
      ensures GivenAt(owner, next, id, straitc, k)
    {
    }
  }

  lemma FilledOwned(n: nat, bytes: Bytes, chapter: seq<nat>, owner: Owners, size: nat, q: DeletedPage, id: nat,
                    straitc: nat, c': nat, j: nat, k: nat)
    requires Partition(bytes, chapter, owner, size) && LastBlank(n, bytes, chapter)
    requires forall k :: id <= k < id + straitc ==> k in owner && owner[k] == Live
    requires Tiles(q.refs, id, straitc) && RefHolds(bytes[chapter[|chapter| - 1] := q], chapter, c', j, k)
    ensures RefOwned(GivenOwners(owner, q.refs, |chapter| - 1, id, straitc), c', j, k)
  {
    var c := |chapter| - 1;
    HeldAfter(bytes, chapter, owner, size, c, q, c', j, k);
    if c' == c {
      assert Names(q.refs, j, k);
      assert k in owner && NamesSome(q.refs, k);
    } else {
      RefOwner(bytes, chapter, owner, size, c', j, k);
    }
  }

  /** However the last page is filled, the file is sound exactly if the page names the strait and its header agrees. */
  lemma FilledIff(n: nat, bytes: Bytes, chapter: seq<nat>, owner: Owners, size: nat, q: DeletedPage, id: nat,
                  straitc: nat)
    requires Partition(bytes, chapter, owner, size) && PagesOk(n, bytes, chapter) && LastBlank(n, bytes, chapter)
    requires forall k :: id <= k < id + straitc ==> k in owner && owner[k] == Live
    requires q.pleft == bytes[chapter[|chapter| - 1]].pleft
    ensures Sound(n, bytes[chapter[|chapter| - 1] := q], chapter, size, owner, id, straitc)
       <==> CountsOk(n, q) && q.pright == 0 && Tiles(q.refs, id, straitc)
  {
    var after := bytes[chapter[|chapter| - 1] := q];
    if Sound(n, after, chapter, size, owner, id, straitc) {
      var next :| SoundFor(n, after, chapter, size, owner, next, id, straitc);
      FilledTiles(n, bytes, chapter, owner, size, q, next, id, straitc);
    }
    if CountsOk(n, q) && q.pright == 0 && Tiles(q.refs, id, straitc) {
      FilledSound(n, bytes, chapter, owner, size, q, id, straitc);
    }
  }

  lemma NothingNamed(n: nat, p: DeletedPage)
    requires CountsOk(n, p) && forall j :: 0 <= j < n ==> p.refs[j].straitc == 0
    ensures p.refs == Zeros(n).refs && p.refc == 0
  {
    forall j | 0 <= j < n
      ensures p.refs[j] == DeletedRef(0, 0)
    {
      assert RefOk(p.refs[j]);
    }
    assert p.refs == Zeros(n).refs;
    NullCounts(n);
  }

  lemma BlankHasPlace(n: nat, x: DeletedPage, straitc: nat, id: nat)
    requires x.refs == Zeros(n).refs && x.refc == 0 && n >= 1
    ensures !NoPlace(n, x, straitc, id)
  {
    assert TakesRef(x.refs[0], straitc, id);
  }

  /**
    If the last page has no place for the strait, storing it on another page leaves no sound file,
    whatever the last page reads as.
   */
  lemma ElsewhereUnsound(n: nat, bytes: Bytes, chapter: seq<nat>, owner: Owners, size: nat, x: DeletedPage,
                         after: Bytes, c': nat, j': nat, id: nat, straitc: nat)
    requires Partition(bytes, chapter, owner, size) && LastBlank(n, bytes, chapter) && n >= 1 && straitc >= 1
    requires c' < |chapter| - 1 && NoPlace(n, x, straitc, id) && after.Keys == bytes.Keys
    requires forall c, j, k :: RefHolds(bytes, chapter, c, j, k) ==> RefHolds(after, chapter, c, j, k)
    requires forall k :: id <= k < id + straitc ==> RefHolds(after, chapter, c', j', k)
    requires after[chapter[|chapter| - 1]] == x
    ensures !Sound(n, after, chapter, size, owner, id, straitc)
  {
    if Sound(n, after, chapter, size, owner, id, straitc) {
      var next :| SoundFor(n, after, chapter, size, owner, next, id, straitc);
      var c := |chapter| - 1;
      assert PageOk(n, after, chapter, c);
      forall j | 0 <= j < n
        ensures x.refs[j].straitc == 0
      {
        var k := x.refs[j].ref;
        if x.refs[j].straitc > 0 {
          OnlyStrait(n, bytes, chapter, owner, size, after, next, id, straitc, j, k);
          RefOwner(after, chapter, next, size, c, j, k);
          RefOwner(after, chapter, next, size, c', j', k);
        }
      }
      NothingNamed(n, x);
      BlankHasPlace(n, x, straitc, id);
    }
  }

  // ------------------------------------------------------------------ the condition on the content of the page

  /** The page takes the whole strait in its first reference, and holds nothing else. */
  ghost predicate TakesWhole(n: nat, x: DeletedPage, straitc: nat) {
    && |x.refs| == n >= 1 && x.refc == 0 && x.pagesc == 0 && x.largest <= straitc
    && x.refs[0].ref == 0 && forall j :: 1 <= j < n ==> x.refs[j] == DeletedRef(0, 0)
  }

  /**
    Reference `j` reads as a strait right behind the one that is stored, so long that the two are
    merged and their length wraps around in 16 bits; read that way, the references name the strait
    in pieces.
   */
  ghost predicate TakesMerged(n: nat, x: DeletedPage, straitc: nat, id: nat, j: nat) {
    && j < |x.refs| == n && x.refc != n && x.refs[j].ref == id + straitc
    && 0x1_0000 < x.refs[j].straitc + straitc < 0x2_0000
    && (forall i :: 0 <= i < j ==> x.refs[i].ref != 0)
    && var after := x.refs[j := DeletedRef(id, x.refs[j].straitc + straitc - 0x1_0000)];
    && (forall i :: 0 <= i < n ==> RefOk(after[i])) && Tiles(after, id, straitc)
    && x.refc == RefCount(x.refs) && Wrap32(x.pagesc + straitc) == PageCount(after)
    && LongestOf(after, n, Max(x.largest, after[j].straitc))
  }

  /** A page that reads as `x` can become the last page of the chapter and take the strait. */
  ghost predicate TakesOver(n: nat, x: DeletedPage, straitc: nat, id: nat) {
    x.pright == 0 && (TakesWhole(n, x, straitc) || exists j: nat :: TakesMerged(n, x, straitc, id, j))
  }

  /**
    There are pages of the second kind: the strait of pages 10, 11 and 12 is merged into one page,
    and the others are already named.
   */
  lemma MergedExample()
    ensures var x := DeletedPage(0, 0, 2, 2, 0, [DeletedRef(13, 0xFFFE), DeletedRef(11, 2), DeletedRef(0, 0)]);
            TakesOver(3, x, 3, 10) && !TakesWhole(3, x, 3)
  {
    var refs := [DeletedRef(13, 0xFFFE), DeletedRef(11, 2), DeletedRef(0, 0)];
    var x, after := DeletedPage(0, 0, 2, 2, 0, refs), [DeletedRef(10, 1), DeletedRef(11, 2), DeletedRef(0, 0)];
    assert after == refs[0 := DeletedRef(10, 1)];
    CountsAfter(refs, 0, DeletedRef(10, 1));
    var two, one := [refs[0], refs[1]], [refs[0]];
    assert refs[..2] == two && two[..1] == one && one[..0] == [];
    assert RefCount(one) == 1 && PageCount(one) == 0xFFFE;
    assert RefCount(two) == 2 && PageCount(two) == 0x1_0000;
    assert RefCount(refs) == 2 && PageCount(refs) == 0x1_0000;
    assert Names(after, 0, 10) && Names(after, 1, 11) && Names(after, 1, 12);
    assert after[1].straitc == 2;
    assert TakesMerged(3, x, 3, 10, 0);
  }

  /** The page that the strait was stored on is as `FilledIff` asks for. */
  ghost predicate Right(n: nat, q: DeletedPage, id: nat, straitc: nat) {
    CountsOk(n, q) && q.pright == 0 && Tiles(q.refs, id, straitc)
  }

  lemma WholePlace(n: nat, x: DeletedPage, straitc: nat, id: nat)
    requires TakesWhole(n, x, straitc)
    ensures FirstPlace(n, x, straitc, id, 0)
  {
  }

  lemma MergedPlace(n: nat, x: DeletedPage, straitc: nat, id: nat, j: nat)
    requires TakesMerged(n, x, straitc, id, j) && id != 0 && 1 <= straitc <= 255
    ensures FirstPlace(n, x, straitc, id, j)
    ensures Took(x.refs[j], straitc, id) == DeletedRef(id, x.refs[j].straitc + straitc - 0x1_0000)
  {
    var after := x.refs[j := DeletedRef(id, x.refs[j].straitc + straitc - 0x1_0000)];
    forall i | 0 <= i < j
      ensures !TakesRef(x.refs[i], straitc, id)
    {
      assert RefOk(after[i]);
    }
  }

  lemma OnePlace(n: nat, x: DeletedPage, straitc: nat, id: nat, j: nat, j': nat)
    requires FirstPlace(n, x, straitc, id, j) && FirstPlace(n, x, straitc, id, j')
    ensures j == j'
  {
  }

  lemma WholeCounts(n: nat, x: DeletedPage, straitc: nat, id: nat)
    requires TakesWhole(n, x, straitc) && id != 0 && 1 <= straitc <= 255
    ensures CountsOk(n, Stored(x, straitc, id, 0))
  {
    var q := Stored(x, straitc, id, 0);
    NullCounts(n);
    CountsAfter(Zeros(n).refs, 0, DeletedRef(id, straitc));
    assert q.refs == Zeros(n).refs[0 := DeletedRef(id, straitc)];
    assert q.refs[0].straitc == straitc;
  }

  lemma WholeTiles(n: nat, x: DeletedPage, straitc: nat, id: nat)
    requires TakesWhole(n, x, straitc) && 1 <= straitc <= 255
    ensures Tiles(Stored(x, straitc, id, 0).refs, id, straitc)
  {
    var refs := Stored(x, straitc, id, 0).refs;
    forall k: nat | id <= k < id + straitc
      ensures NamesSome(refs, k)
    {
      assert Names(refs, 0, k);
    }
  }

  /** A null reference took the strait. */
  lemma NullTook(n: nat, x: DeletedPage, straitc: nat, id: nat, j: nat)
    requires |x.refs| == n && id != 0 && 1 <= straitc <= 255
    requires FirstPlace(n, x, straitc, id, j) && x.refs[j].ref == 0 && Right(n, Stored(x, straitc, id, j), id, straitc)
    ensures TakesWhole(n, x, straitc)
  {
    var q := Stored(x, straitc, id, j);
    assert Names(q.refs, j, id);
    forall i | 0 <= i < n && i != j
      ensures x.refs[i] == DeletedRef(0, 0)
    {
      assert RefOk(q.refs[i]);
      if q.refs[i].straitc > 0 {
        assert Names(q.refs, i, q.refs[i].ref);
        assert Names(q.refs, j, q.refs[i].ref);
      }
    }
    assert j > 0 ==> TakesRef(x.refs[0], straitc, id);
    NullCounts(n);
    CountsAfter(Zeros(n).refs, 0, DeletedRef(id, straitc));
    assert q.refs == Zeros(n).refs[0 := DeletedRef(id, straitc)];
  }

  /** A merged reference stays within the strait only if its length wraps around. */
  lemma MergeWraps(r: DeletedRef, straitc: nat, id: nat)
    requires Merges(r, straitc, id) && r.ref != 0 && id != 0 && 1 <= straitc <= 255
    requires RefOk(Took(r, straitc, id)) && id <= Took(r, straitc, id).ref
    ensures r.ref == id + straitc && 0x1_0000 < r.straitc + straitc < 0x2_0000
    ensures Took(r, straitc, id) == DeletedRef(id, r.straitc + straitc - 0x1_0000)
  {
  }

  /** A reference was merged with the strait. */
  lemma MergeTook(n: nat, x: DeletedPage, straitc: nat, id: nat, j: nat)
    requires |x.refs| == n && id != 0 && 1 <= straitc <= 255
    requires FirstPlace(n, x, straitc, id, j) && x.refs[j].ref != 0 && Right(n, Stored(x, straitc, id, j), id, straitc)
    ensures TakesMerged(n, x, straitc, id, j)
  {
    var q, r := Stored(x, straitc, id, j), x.refs[j];
    var t := q.refs[j];
    assert RefOk(t) && Names(q.refs, j, t.ref);
    MergeWraps(r, straitc, id);
    CountsAfter(x.refs, j, t);
    forall i | 0 <= i < j
      ensures x.refs[i].ref != 0
    {
      assert !TakesRef(x.refs[i], straitc, id);
    }
  }

  lemma RightBefore(n: nat, x: DeletedPage, straitc: nat, id: nat, j: nat)
    requires |x.refs| == n >= 1 && id != 0 && 1 <= straitc <= 255
    requires FirstPlace(n, x, straitc, id, j) && Right(n, Stored(x, straitc, id, j), id, straitc)
    ensures TakesOver(n, x, straitc, id)
  {
    if x.refs[j].ref == 0 {
      NullTook(n, x, straitc, id, j);
    } else {
      MergeTook(n, x, straitc, id, j);
    }
  }

  lemma MergedCounts(n: nat, x: DeletedPage, straitc: nat, id: nat, j: nat)
    requires TakesMerged(n, x, straitc, id, j) && x.pright == 0 && id != 0 && 1 <= straitc <= 255
    ensures FirstPlace(n, x, straitc, id, j) && Right(n, Stored(x, straitc, id, j), id, straitc)
  {
    MergedPlace(n, x, straitc, id, j);
    CountsAfter(x.refs, j, Took(x.refs[j], straitc, id));
  }

  /** The page that takes the strait is right afterwards exactly if it met the condition before. */
  lemma RightIff(n: nat, x: DeletedPage, straitc: nat, id: nat, j: nat)
    requires |x.refs| == n >= 1 && id != 0 && 1 <= straitc <= 255 && FirstPlace(n, x, straitc, id, j)
    ensures Right(n, Stored(x, straitc, id, j), id, straitc) <==> TakesOver(n, x, straitc, id)
  {
    if Right(n, Stored(x, straitc, id, j), id, straitc) {
      RightBefore(n, x, straitc, id, j);
    }
    if x.pright == 0 {
      if TakesWhole(n, x, straitc) {
        WholePlace(n, x, straitc, id);
        OnePlace(n, x, straitc, id, j, 0);
        WholeCounts(n, x, straitc, id);
        WholeTiles(n, x, straitc, id);
      }
      forall i: nat | TakesMerged(n, x, straitc, id, i)
        ensures Right(n, Stored(x, straitc, id, j), id, straitc)
      {
        MergedCounts(n, x, straitc, id, i);
        OnePlace(n, x, straitc, id, j, i);
      }
    }
  }

  /** A page that meets the condition has a place for the strait. */
  lemma TakesOverHasPlace(n: nat, x: DeletedPage, straitc: nat, id: nat)
    requires TakesOver(n, x, straitc, id) && id != 0 && 1 <= straitc <= 255
    ensures !NoPlace(n, x, straitc, id)
  {
    if TakesWhole(n, x, straitc) {
      WholePlace(n, x, straitc, id);
    } else {
      var j: nat :| TakesMerged(n, x, straitc, id, j);
      MergedPlace(n, x, straitc, id, j);
    }
  }

  // ------------------------------------------------------------------ linking the page in

  /** The file with the page linked in as if it read as zeros. */
  ghost function Base(n: nat, bytes: Bytes, chapter: seq<nat>, p: nat): (base: Bytes)
    requires p in bytes && forall c :: 0 <= c < |chapter| ==> chapter[c] in bytes
    ensures base.Keys == bytes.Keys
  {
    LinkedIn(bytes[p := Zeros(n)], chapter, p)
  }

  lemma BaseOk(n: nat, bytes: Bytes, chapter: seq<nat>, owner: Owners, size: nat, p: nat)
    requires Partition(bytes, chapter, owner, size) && PagesOk(n, bytes, chapter) && p in owner && owner[p] == Live
    ensures p in bytes && forall c :: 0 <= c < |chapter| ==> chapter[c] in bytes && chapter[c] != p
    ensures var base, more := Base(n, bytes, chapter, p), chapter + [p];
            && Partition(base, more, owner[p := InChapter(|chapter|)], size) && PagesOk(n, base, more)
            && LastBlank(n, base, more)
            && base[p].pleft == LinkedIn(bytes, chapter, p)[p].pleft
  {
    LiveWritten(n, bytes, chapter, owner, size, p, Zeros(n));
    Chaptered(n, bytes[p := Zeros(n)], chapter, owner, size, p);
  }

  /** Whatever is stored on the new page, its content before does not matter. */
  lemma BaseThen(n: nat, bytes: Bytes, chapter: seq<nat>, p: nat, q: DeletedPage)
    requires p in bytes && forall c :: 0 <= c < |chapter| ==> chapter[c] in bytes && chapter[c] != p
    ensures LinkedIn(bytes, chapter, p)[p := q] == Base(n, bytes, chapter, p)[p := q]
  {
  }

  lemma LinkIrrelevant(n: nat, x: DeletedPage, pleft: nat, straitc: nat, id: nat)
    ensures TakesOver(n, x.(pleft := pleft), straitc, id) <==> TakesOver(n, x, straitc, id)
  {
    assert forall j: nat :: TakesMerged(n, x.(pleft := pleft), straitc, id, j) <==> TakesMerged(n, x, straitc, id, j);
  }

  /** A strait of live pages to be given back, when page `p` is to become a page of the chapter. */
  ghost predicate Giving(owner: Owners, p: nat, id: nat, straitc: nat) {
    && id != 0 && 1 <= straitc <= 255 && !(id <= p < id + straitc)
    && forall k :: id <= k < id + straitc ==> k in owner && owner[k] == Live
  }

  /**
    The last page read as `x` but for its link, and took the strait: the file is sound exactly if
    `x` met the condition.
  */
  lemma TookIff(n: nat, base: Bytes, chapter: seq<nat>, owner: Owners, size: nat, c: nat, p: nat,
                x: DeletedPage, y: DeletedPage, id: nat, straitc: nat, j: nat)
    requires Partition(base, chapter, owner, size) && PagesOk(n, base, chapter) && LastBlank(n, base, chapter)
    requires id != 0 && 1 <= straitc <= 255 && forall k :: id <= k < id + straitc ==> k in owner && owner[k] == Live
    requires n >= 1 && |y.refs| == n && FirstPlace(n, y, straitc, id, j)
    requires c + 1 == |chapter| && p == chapter[c] && y == x.(pleft := base[p].pleft)
    ensures var q := Stored(y, straitc, id, j);
            var after, given := base[p := q], GivenOwners(owner, q.refs, c, id, straitc);
            && (Sound(n, after, chapter, size, owner, id, straitc) <==> TakesOver(n, x, straitc, id))
            && (TakesOver(n, x, straitc, id) ==> SoundFor(n, after, chapter, size, owner, given, id, straitc))
  {
    var q := Stored(y, straitc, id, j);
    FilledIff(n, base, chapter, owner, size, q, id, straitc);
    RightIff(n, y, straitc, id, j);
    LinkIrrelevant(n, x, y.pleft, straitc, id);
    if Right(n, q, id, straitc) {
      FilledSound(n, base, chapter, owner, size, q, id, straitc);
    }
  }

  /** The new page took the strait: the file is sound exactly if the page met the condition. */
  lemma TakenOverIff(n: nat, bytes: Bytes, chapter: seq<nat>, owner: Owners, size: nat, p: nat, id: nat, straitc: nat,
                     j: nat)
    requires Partition(bytes, chapter, owner, size) && PagesOk(n, bytes, chapter) && p in owner && owner[p] == Live
    requires n >= 1 && |bytes[p].refs| == n && Giving(owner, p, id, straitc)
    requires forall c :: 0 <= c < |chapter| ==> chapter[c] in bytes
    requires FirstPlace(n, LinkedIn(bytes, chapter, p)[p], straitc, id, j)
    ensures var linked, next := LinkedIn(bytes, chapter, p), owner[p := InChapter(|chapter|)];
            var q := Stored(linked[p], straitc, id, j);
            var after, more := linked[p := q], chapter + [p];
            && (Sound(n, after, more, size, next, id, straitc) <==> TakesOver(n, bytes[p], straitc, id))
            && (TakesOver(n, bytes[p], straitc, id) ==>
                 SoundFor(n, after, more, size, next, GivenOwners(next, q.refs, |chapter|, id, straitc), id, straitc))
  {
    var linked, next := LinkedIn(bytes, chapter, p), owner[p := InChapter(|chapter|)];
    BaseOk(n, bytes, chapter, owner, size, p);
    BaseThen(n, bytes, chapter, p, Stored(linked[p], straitc, id, j));
    TookIff(n, Base(n, bytes, chapter, p), chapter + [p], next, size, |chapter|, p, bytes[p], linked[p], id, straitc,
        j);
  }

  /**
    The new page had no place and another page took the strait: the file is not sound, and the
    condition was not met.
   */
  lemma TakenElsewhere(n: nat, bytes: Bytes, chapter: seq<nat>, owner: Owners, size: nat, p: nat, id: nat, straitc: nat,
                       c: nat, j: nat)
    requires Partition(bytes, chapter, owner, size) && PagesOk(n, bytes, chapter) && p in owner && owner[p] == Live
    requires 1 <= n <= UINT16_MAX && Giving(owner, p, id, straitc)
    requires c < |chapter| && forall c :: 0 <= c < |chapter| ==> chapter[c] in bytes
    requires NoPlace(n, LinkedIn(bytes, chapter, p)[p], straitc, id)
    requires FirstPlace(n, LinkedIn(bytes, chapter, p)[chapter[c]], straitc, id, j)
    ensures var linked := LinkedIn(bytes, chapter, p);
            var after := linked[chapter[c] := Stored(linked[chapter[c]], straitc, id, j)];
            !Sound(n, after, chapter + [p], size, owner[p := InChapter(|chapter|)], id, straitc)
  {
    var linked, next := LinkedIn(bytes, chapter, p), owner[p := InChapter(|chapter|)];
    var base, more := Base(n, bytes, chapter, p), chapter + [p];
    BaseOk(n, bytes, chapter, owner, size, p);
    BaseThen(n, bytes, chapter, p, linked[p]);
    assert linked == base[p := linked[p]];
    assert PageOk(n, base, more, c) && more[c] == chapter[c];
    assert base[chapter[c]] == linked[chapter[c]];
    var q := Stored(linked[chapter[c]], straitc, id, j);
    StoredIsInserted(n, linked[chapter[c]], straitc, id, j);
    var after := linked[chapter[c] := q];
    forall c', j', k | RefHolds(base, more, c', j', k)
      ensures RefHolds(after, more, c', j', k)
    {
      StillHeld(n, base, more, next, size, c, q, id, straitc, j, linked[p], c', j', k);
    }
    forall k | id <= k < id + straitc
      ensures RefHolds(after, more, c, j, k)
    {
    }
    ElsewhereUnsound(n, base, more, next, size, linked[p], after, c, j, id, straitc);
  }

  lemma StillHeld(n: nat, base: Bytes, chapter: seq<nat>, owner: Owners, size: nat, c: nat, q: DeletedPage, id: nat,
                  straitc: nat, j: nat, x: DeletedPage, c': nat, j': nat, k: nat)
    requires Partition(base, chapter, owner, size) && LastBlank(n, base, chapter) && c < |chapter| - 1
    requires chapter[c] in base && CountsOk(n, base[chapter[c]]) && Inserted(n, base[chapter[c]], q, id, straitc, j)
    requires RefHolds(base, chapter, c', j', k)
    ensures RefHolds(base[chapter[|chapter| - 1] := x][chapter[c] := q], chapter, c', j', k)
  {
    assert RefOk(base[chapter[c]].refs[j]);
    assert c' < |chapter| - 1;
    ChapterOwner(base, chapter, owner, size, |chapter| - 1);
    ChapterOwner(base, chapter, owner, size, c');
    ChapterOwner(base, chapter, owner, size, c);
  }

  /** Which pages are said to be given back does not depend on how the others are deleted. */
  lemma SoundSame(n: nat, bytes: Bytes, chapter: seq<nat>, size: nat, a: Owners, b: Owners, id: nat, straitc: nat,
                  p: nat)
    requires chapter != [] && p == chapter[|chapter| - 1] && !(id <= p < id + straitc)
    requires p in b && b[p].InChapter? && forall k: nat :: k in b <==> k in a || k == p
    requires forall k :: k in a ==> (a[k] == Live <==> b[k] == Live) && (a[k] == Fixed <==> b[k] == Fixed)
    ensures Sound(n, bytes, chapter, size, a, id, straitc) <==> Sound(n, bytes, chapter, size, b, id, straitc)
    ensures forall next :: SoundFor(n, bytes, chapter, size, a, next, id, straitc)
                      <==> SoundFor(n, bytes, chapter, size, b, next, id, straitc)
  {
    forall next | Partition(bytes, chapter, next, size)
      ensures SoundFor(n, bytes, chapter, size, a, next, id, straitc)
              <==> SoundFor(n, bytes, chapter, size, b, next, id, straitc)
    {
      ChapterOwner(bytes, chapter, next, size, |chapter| - 1);
      forall k | k in a
        ensures GivenAt(a, next, id, straitc, k) <==> GivenAt(b, next, id, straitc, k)
      {
      }
      assert GivenAt(b, next, id, straitc, p);
    }
  }

  // ------------------------------------------------------------------ a page that was just handed out

  /** Page `p` was just handed out, to become the last page of the chapter, and the strait is to be given back. */
  ghost predicate Handed(n: nat, bytes: Bytes, chapter: seq<nat>, size: nat, was: Owners, owner: Owners, p: nat,
                         id: nat, straitc: nat) {
    && Partition(bytes, chapter, owner, size) && PagesOk(n, bytes, chapter) && 1 <= n <= UINT16_MAX
    && p in bytes && |bytes[p].refs| == n && (forall c :: 0 <= c < |chapter| ==> chapter[c] in bytes)
    && owner == Assign(was, p, 1, Live) && (p in was ==> was[p].Free?) && Giving(owner, p, id, straitc)
  }

  lemma HandedSame(n: nat, bytes: Bytes, chapter: seq<nat>, size: nat, was: Owners, owner: Owners, p: nat, id: nat,
                   straitc: nat, after: Bytes)
    requires Handed(n, bytes, chapter, size, was, owner, p, id, straitc)
    ensures var next := owner[p := InChapter(|chapter|)];
            && (Sound(n, after, chapter + [p], size, was, id, straitc)
               <==> Sound(n, after, chapter + [p], size, next, id, straitc))
            && (forall last :: SoundFor(n, after, chapter + [p], size, was, last, id, straitc)
                          <==> SoundFor(n, after, chapter + [p], size, next, last, id, straitc))
  {
    SoundSame(n, after, chapter + [p], size, was, owner[p := InChapter(|chapter|)], id, straitc, p);
  }

  /** The page took the strait. */
  lemma GrownFirst(n: nat, bytes: Bytes, chapter: seq<nat>, size: nat, was: Owners, owner: Owners, p: nat, id: nat,
                   straitc: nat, j: nat)
    requires Handed(n, bytes, chapter, size, was, owner, p, id, straitc)
    requires FirstPlace(n, LinkedIn(bytes, chapter, p)[p], straitc, id, j)
    ensures var linked := LinkedIn(bytes, chapter, p);
            var q := Stored(linked[p], straitc, id, j);
            var last := GivenOwners(owner[p := InChapter(|chapter|)], q.refs, |chapter|, id, straitc);
            && (Sound(n, linked[p := q], chapter + [p], size, was, id, straitc)
               <==> TakesOver(n, bytes[p], straitc, id))
            && (TakesOver(n, bytes[p], straitc, id) ==>
                 SoundFor(n, linked[p := q], chapter + [p], size, was, last, id, straitc))
  {
    var linked := LinkedIn(bytes, chapter, p);
    TakenOverIff(n, bytes, chapter, owner, size, p, id, straitc, j);
    HandedSame(n, bytes, chapter, size, was, owner, p, id, straitc, linked[p := Stored(linked[p], straitc, id, j)]);
  }

  /** The page had no place for the strait. */
  lemma GrownNowhere(n: nat, bytes: Bytes, chapter: seq<nat>, size: nat, was: Owners, owner: Owners, p: nat, id: nat,
                     straitc: nat)
    requires Handed(n, bytes, chapter, size, was, owner, p, id, straitc)
    requires NoPlace(n, LinkedIn(bytes, chapter, p)[p], straitc, id)
    ensures !TakesOver(n, bytes[p], straitc, id)
  {
    var linked := LinkedIn(bytes, chapter, p);
    LinkIrrelevant(n, bytes[p], linked[p].pleft, straitc, id);
    if TakesOver(n, linked[p], straitc, id) {
      TakesOverHasPlace(n, linked[p], straitc, id);
    }
  }

  /** The page had no place for the strait, but another page of the window had. */
  lemma GrownElsewhere(n: nat, bytes: Bytes, chapter: seq<nat>, size: nat, was: Owners, owner: Owners, p: nat, id: nat,
                       straitc: nat, c: nat, j: nat)
    requires Handed(n, bytes, chapter, size, was, owner, p, id, straitc) && c < |chapter|
    requires NoPlace(n, LinkedIn(bytes, chapter, p)[p], straitc, id)
    requires FirstPlace(n, LinkedIn(bytes, chapter, p)[chapter[c]], straitc, id, j)
    ensures var linked := LinkedIn(bytes, chapter, p);
            var after := linked[chapter[c] := Stored(linked[chapter[c]], straitc, id, j)];
            !Sound(n, after, chapter + [p], size, was, id, straitc)
  {
    var linked := LinkedIn(bytes, chapter, p);
    TakenElsewhere(n, bytes, chapter, owner, size, p, id, straitc, c, j);
    HandedSame(n, bytes, chapter, size, was, owner, p, id, straitc,
               linked[chapter[c] := Stored(linked[chapter[c]], straitc, id, j)]);
  }

  /** A page of zeros can take any strait. */
  lemma ZerosTakeOver(n: nat, straitc: nat, id: nat)
    requires n >= 1
    ensures TakesOver(n, Zeros(n), straitc, id)
  {
    assert TakesWhole(n, Zeros(n), straitc);
  }
}
