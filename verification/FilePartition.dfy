/**
  What every page of the file is for: fixed by the format, handed out to a caller, part of the
  chapter of deleted pages, or named by one reference in that chapter.
 */
module FilePartition {
  import opened DeletedRefs

  datatype Owner = Fixed | Live | InChapter(c: nat) | Free(c: nat, j: nat)

  type Owners = map<nat, Owner>

  /** Every page of the file, as it reads when taken for a page of the deleted chapter. */
  type Bytes = map<nat, DeletedPage>

  /** The pages `id`, ..., `id + s - 1` pass to `o`. */
  function Assign(owner: Owners, id: nat, s: nat, o: Owner): (r: Owners)
    ensures forall p: nat :: p in r <==> p in owner || id <= p < id + s
    ensures forall p :: p in r ==> r[p] == if id <= p < id + s then o else owner[p]
  {
    if s == 0 then owner else Assign(owner, id, s - 1, o)[id + s - 1 := o]
  }

  /** The file grows by `s` pages, which read as zeros. */
  function Lengthen(bytes: Bytes, size: nat, s: nat, n: nat): (r: Bytes)
    ensures forall p: nat :: p in r <==> p in bytes || size <= p < size + s
    ensures forall p :: p in r ==> r[p] == if size <= p < size + s then Zeros(n) else bytes[p]
  {
    if s == 0 then bytes else Lengthen(bytes, size, s - 1, n)[size + s - 1 := Zeros(n)]
  }

  /** Page `p` lies in the strait of reference `j` of chapter page `c`. */
  predicate RefHolds(bytes: Bytes, chapter: seq<nat>, c: nat, j: nat, p: nat) {
    && c < |chapter| && chapter[c] in bytes && j < |bytes[chapter[c]].refs|
    && var r := bytes[chapter[c]].refs[j];
    r.ref <= p < r.ref + r.straitc
  }

  ghost predicate OwnedAt(bytes: Bytes, chapter: seq<nat>, owner: Owners, p: nat)
    requires p in owner
  {
    match owner[p]
    case Fixed => true
    case Live => true
    case InChapter(c) => c < |chapter| && chapter[c] == p
    case Free(c, j) => RefHolds(bytes, chapter, c, j, p)
  }

  ghost predicate ChapterOwned(chapter: seq<nat>, owner: Owners, c: nat)
    requires c < |chapter|
  {
    chapter[c] in owner && owner[chapter[c]] == InChapter(c)
  }

  ghost predicate RefOwned(owner: Owners, c: nat, j: nat, p: nat) {
    p in owner && owner[p] == Free(c, j)
  }

  /** Every page of the file has one owner, and what the chapter says agrees with it. */
  ghost predicate Partition(bytes: Bytes, chapter: seq<nat>, owner: Owners, size: nat) {
    && 0 < size && 0 in owner && owner[0] == Fixed
    && (forall p: nat :: p in owner <==> p < size)
    && (forall p: nat :: p in bytes <==> p < size)
    && (forall p {:trigger OwnedAt(bytes, chapter, owner, p)} :: p in owner ==> OwnedAt(bytes, chapter, owner, p))
    && (forall c :: 0 <= c < |chapter| ==> ChapterOwned(chapter, owner, c))
    && (forall c, j, p :: RefHolds(bytes, chapter, c, j, p) ==> RefOwned(owner, c, j, p))
  }

  /** Some reference names page `p`. */
  ghost predicate Deleted(bytes: Bytes, chapter: seq<nat>, p: nat) {
    exists c, j :: RefHolds(bytes, chapter, c, j, p)
  }

  /**
    The partition without owners: no page is named by two references or stands twice in the
    chapter, no page of the chapter is named by a reference, and the pages that are in neither
    are exactly the fixed and the live ones.
   */
  lemma PartitionIsExact(bytes: Bytes, chapter: seq<nat>, owner: Owners, size: nat)
    requires Partition(bytes, chapter, owner, size)
    ensures forall c, j, c', j', p: nat :: RefHolds(bytes, chapter, c, j, p) && RefHolds(bytes, chapter, c', j', p) ==>
            c == c' && j == j'
    ensures forall c, c' :: 0 <= c < c' < |chapter| ==> chapter[c] != chapter[c']
    ensures forall p :: p in chapter ==> p < size && !Deleted(bytes, chapter, p)
    ensures forall p: nat :: p < size ==>
            (owner[p] == Fixed || owner[p] == Live <==> p !in chapter && !Deleted(bytes, chapter, p))
    ensures forall p: nat :: Deleted(bytes, chapter, p) ==> p < size
  {
    forall c, j, c', j', p | RefHolds(bytes, chapter, c, j, p) && RefHolds(bytes, chapter, c', j', p)
      ensures c == c' && j == j'
    {
      assert RefOwned(owner, c, j, p) && RefOwned(owner, c', j', p);
    }
    forall c | 0 <= c < |chapter|
      ensures chapter[c] < size && owner[chapter[c]] == InChapter(c)
    {
      assert ChapterOwned(chapter, owner, c);
    }
    forall p: nat | p < size
      ensures (owner[p] == Fixed || owner[p] == Live <==> p !in chapter && !Deleted(bytes, chapter, p))
    {
      assert OwnedAt(bytes, chapter, owner, p);
    }
  }

  // ------------------------------------------------------------------ pages of the chapter

  ghost predicate PageOk(n: nat, bytes: Bytes, chapter: seq<nat>, c: nat)
    requires c < |chapter|
  {
    && chapter[c] in bytes
    && var p := bytes[chapter[c]];
    && CountsOk(n, p)
    && p.pleft == (if c == 0 then 0 else chapter[c - 1])
    && p.pright == if c + 1 < |chapter| then chapter[c + 1] else 0
  }

  ghost predicate PagesOk(n: nat, bytes: Bytes, chapter: seq<nat>) {
    forall c :: 0 <= c < |chapter| ==> PageOk(n, bytes, chapter, c)
  }

  lemma ChapterDistinct(bytes: Bytes, chapter: seq<nat>, owner: Owners, size: nat, c: nat, c': nat)
    requires Partition(bytes, chapter, owner, size) && c < |chapter| && c' < |chapter| && chapter[c] == chapter[c']
    ensures c == c'
  {
    assert ChapterOwned(chapter, owner, c) && ChapterOwned(chapter, owner, c');
  }

  lemma ChapterOwner(bytes: Bytes, chapter: seq<nat>, owner: Owners, size: nat, c: nat)
    requires Partition(bytes, chapter, owner, size) && c < |chapter|
    ensures chapter[c] in owner && owner[chapter[c]] == InChapter(c)
  {
    assert ChapterOwned(chapter, owner, c);
  }

  lemma RefOwner(bytes: Bytes, chapter: seq<nat>, owner: Owners, size: nat, c: nat, j: nat, p: nat)
    requires Partition(bytes, chapter, owner, size) && RefHolds(bytes, chapter, c, j, p)
    ensures p in owner && owner[p] == Free(c, j)
  {
    assert RefOwned(owner, c, j, p);
  }

  lemma LiveOutside(bytes: Bytes, chapter: seq<nat>, owner: Owners, size: nat, p: nat)
    requires Partition(bytes, chapter, owner, size) && p in owner && owner[p] == Live
    ensures p !in chapter
  {
    forall c | 0 <= c < |chapter|
      ensures chapter[c] != p
    {
      assert ChapterOwned(chapter, owner, c);
    }
  }

  /** One chapter page rewritten without touching its links. */
  lemma PagesRewritten(n: nat, bytes: Bytes, chapter: seq<nat>, owner: Owners, size: nat, c: nat, q: DeletedPage)
    requires Partition(bytes, chapter, owner, size) && PagesOk(n, bytes, chapter) && c < |chapter|
    requires chapter[c] in bytes
    requires CountsOk(n, q) && q.pleft == bytes[chapter[c]].pleft && q.pright == bytes[chapter[c]].pright
    ensures PagesOk(n, bytes[chapter[c] := q], chapter)
  {
    var after := bytes[chapter[c] := q];
    forall c' | 0 <= c' < |chapter|
      ensures PageOk(n, after, chapter, c')
    {
      assert PageOk(n, bytes, chapter, c') && PageOk(n, bytes, chapter, c);
      if c' != c && chapter[c'] == chapter[c] {
        ChapterDistinct(bytes, chapter, owner, size, c, c');
      }
    }
  }

  // ------------------------------------------------------------------ what the allocator does

  /** The parts of a partition that do not depend on what references hold. */
  ghost predicate Spans(chapter: seq<nat>, owner: Owners, size: nat) {
    && 0 < size && 0 in owner && owner[0] == Fixed
    && (forall p: nat :: p in owner <==> p < size)
    && (forall c :: 0 <= c < |chapter| ==> ChapterOwned(chapter, owner, c))
  }

  /** Pages that are neither fixed nor in the chapter. */
  ghost predicate Movable(owner: Owners, id: nat, s: nat) {
    forall k :: id <= k < id + s ==> k in owner && (owner[k].Live? || owner[k].Free?)
  }

  lemma {:induction false} MovedSpans(chapter: seq<nat>, owner: Owners, size: nat, id: nat, s: nat, o: Owner)
    requires Spans(chapter, owner, size) && Movable(owner, id, s)
    ensures Spans(chapter, Assign(owner, id, s, o), size)
  {
    var next := Assign(owner, id, s, o);
    forall p: nat
      ensures p in next <==> p < size
    {
      assert p in next <==> p in owner || id <= p < id + s;
      if id <= p < id + s {
        assert p in owner;
      }
    }
    forall c | 0 <= c < |chapter|
      ensures ChapterOwned(chapter, next, c)
    {
      assert ChapterOwned(chapter, owner, c);
    }
  }

  /** What every reference holds before and after page `c` of the chapter is rewritten as `q`. */
  lemma HeldAfter(bytes: Bytes, chapter: seq<nat>, owner: Owners, size: nat, c: nat, q: DeletedPage, c': nat, j': nat,
                  k: nat)
    requires Spans(chapter, owner, size) && c < |chapter| && chapter[c] in bytes
    ensures c' != c ==> (RefHolds(bytes[chapter[c] := q], chapter, c', j', k) <==> RefHolds(bytes, chapter, c', j', k))
    ensures RefHolds(bytes[chapter[c] := q], chapter, c, j', k) <==>
            j' < |q.refs| && q.refs[j'].ref <= k < q.refs[j'].ref + q.refs[j'].straitc
  {
    if c' < |chapter| {
      assert ChapterOwned(chapter, owner, c) && ChapterOwned(chapter, owner, c');
    }
  }

  /** `straitc` pages leave reference `j` of chapter page `c` and are handed out. */
  lemma {:induction false} TakenOut(n: nat, bytes: Bytes, chapter: seq<nat>, owner: Owners, size: nat, c: nat,
                                    q: DeletedPage,
                 straitc: nat, j: nat)
    requires Partition(bytes, chapter, owner, size) && c < |chapter|
    requires chapter[c] in bytes && Stolen(n, bytes[chapter[c]], q, straitc, j)
    ensures var id := bytes[chapter[c]].refs[j].ref;
            && Partition(bytes[chapter[c] := q], chapter, Assign(owner, id, straitc, Live), size)
            && (forall k :: id <= k < id + straitc ==> k in owner && owner[k] == Free(c, j))
  {
    var id := bytes[chapter[c]].refs[j].ref;
    var after, next := bytes[chapter[c] := q], Assign(owner, id, straitc, Live);
    forall k | id <= k < id + straitc
      ensures k in owner && owner[k] == Free(c, j)
    {
      assert RefHolds(bytes, chapter, c, j, k) && RefOwned(owner, c, j, k);
    }
    MovedSpans(chapter, owner, size, id, straitc, Live);
    forall c', j', k | RefHolds(after, chapter, c', j', k)
      ensures RefOwned(next, c', j', k)
    {
      HeldAfter(bytes, chapter, owner, size, c, q, c', j', k);
      assert RefHolds(bytes, chapter, c', j', k) && RefOwned(owner, c', j', k);
    }
    forall k | k in next
      ensures OwnedAt(after, chapter, next, k)
    {
      assert OwnedAt(bytes, chapter, owner, k);
      if next[k].Free? {
        HeldAfter(bytes, chapter, owner, size, c, q, next[k].c, next[k].j, k);
      }
    }
  }

  /** The file grows at its end, and the new pages are handed out. */
  lemma GrownBy(n: nat, bytes: Bytes, chapter: seq<nat>, owner: Owners, size: nat, straitc: nat)
    requires Partition(bytes, chapter, owner, size) && PagesOk(n, bytes, chapter)
    ensures Partition(Lengthen(bytes, size, straitc, n), chapter, Assign(owner, size, straitc, Live), size + straitc)
    ensures PagesOk(n, Lengthen(bytes, size, straitc, n), chapter)
  {
    var after, next := Lengthen(bytes, size, straitc, n), Assign(owner, size, straitc, Live);
    forall c | 0 <= c < |chapter|
      ensures ChapterOwned(chapter, next, c) && PageOk(n, after, chapter, c)
    {
      assert ChapterOwned(chapter, owner, c) && PageOk(n, bytes, chapter, c);
    }
    forall c, j, k | RefHolds(after, chapter, c, j, k)
      ensures RefOwned(next, c, j, k)
    {
      assert ChapterOwned(chapter, owner, c) && RefHolds(bytes, chapter, c, j, k) && RefOwned(owner, c, j, k);
    }
    forall k | k in next
      ensures OwnedAt(after, chapter, next, k)
    {
      assert k in owner ==> OwnedAt(bytes, chapter, owner, k);
    }
  }

  /** A live strait goes into reference `j` of chapter page `c`, which was null. */
  lemma {:induction false} PutIn(n: nat, bytes: Bytes, chapter: seq<nat>, owner: Owners, size: nat, c: nat,
                                 q: DeletedPage, id: nat,
              straitc: nat, j: nat)
    requires Partition(bytes, chapter, owner, size) && c < |chapter|
    requires chapter[c] in bytes && Inserted(n, bytes[chapter[c]], q, id, straitc, j)
    requires RefOk(bytes[chapter[c]].refs[j])
    requires forall k :: id <= k < id + straitc ==> k in owner && owner[k] == Live
    ensures Partition(bytes[chapter[c] := q], chapter, Assign(owner, id, straitc, Free(c, j)), size)
  {
    var after, next := bytes[chapter[c] := q], Assign(owner, id, straitc, Free(c, j));
    MovedSpans(chapter, owner, size, id, straitc, Free(c, j));
    forall c', j', k | RefHolds(after, chapter, c', j', k)
      ensures RefOwned(next, c', j', k)
    {
      HeldAfter(bytes, chapter, owner, size, c, q, c', j', k);
      if c' != c || j' != j {
        assert RefHolds(bytes, chapter, c', j', k) && RefOwned(owner, c', j', k);
      } else {
        assert k in owner;
      }
    }
    forall k | k in next
      ensures OwnedAt(after, chapter, next, k)
    {
      assert OwnedAt(bytes, chapter, owner, k);
      if next[k].Free? {
        HeldAfter(bytes, chapter, owner, size, c, q, next[k].c, next[k].j, k);
      }
    }
  }

  /** The file once page `p` is linked in as the last page of the chapter. */
  function LinkedIn(bytes: Bytes, chapter: seq<nat>, p: nat): Bytes
    requires p in bytes && forall c :: 0 <= c < |chapter| ==> chapter[c] in bytes
  {
    if chapter == [] then bytes[p := bytes[p].(pleft := 0)]
    else
      var last := chapter[|chapter| - 1];
      bytes[last := bytes[last].(pright := p)][p := bytes[p].(pleft := last)]
  }

  /** A live page that reads as zeros becomes the last page of the chapter. */
  lemma Chaptered(n: nat, bytes: Bytes, chapter: seq<nat>, owner: Owners, size: nat, p: nat)
    requires Partition(bytes, chapter, owner, size) && PagesOk(n, bytes, chapter)
    requires p in owner && owner[p] == Live && bytes[p] == Zeros(n)
    ensures forall c :: 0 <= c < |chapter| ==> chapter[c] in bytes && chapter[c] != p
    ensures Partition(LinkedIn(bytes, chapter, p), chapter + [p], owner[p := InChapter(|chapter|)], size)
    ensures PagesOk(n, LinkedIn(bytes, chapter, p), chapter + [p])
  {
    var more := chapter + [p];
    ZerosOk(n);
    forall c | 0 <= c < |chapter|
      ensures chapter[c] in bytes && chapter[c] != p
    {
      assert PageOk(n, bytes, chapter, c) && ChapterOwned(chapter, owner, c);
    }
    var after, next := LinkedIn(bytes, chapter, p), owner[p := InChapter(|chapter|)];
    forall c | 0 <= c < |more|
      ensures ChapterOwned(more, next, c) && PageOk(n, after, more, c)
    {
      if c < |chapter| {
        assert ChapterOwned(chapter, owner, c) && PageOk(n, bytes, chapter, c);
        if chapter[c] == chapter[|chapter| - 1] {
          ChapterDistinct(bytes, chapter, owner, size, c, |chapter| - 1);
        }
      }
    }
    forall c, j, k | RefHolds(after, more, c, j, k)
      ensures RefOwned(next, c, j, k)
    {
      assert RefHolds(bytes, chapter, c, j, k) && RefOwned(owner, c, j, k);
    }
    forall k | k in next
      ensures OwnedAt(after, more, next, k)
    {
      assert OwnedAt(bytes, chapter, owner, k);
    }
  }

  /** A page that was handed out is written to. */
  lemma LiveWritten(n: nat, bytes: Bytes, chapter: seq<nat>, owner: Owners, size: nat, p: nat, page: DeletedPage)
    requires Partition(bytes, chapter, owner, size) && PagesOk(n, bytes, chapter) && p in owner && owner[p] == Live
    ensures Partition(bytes[p := page], chapter, owner, size) && PagesOk(n, bytes[p := page], chapter) && p !in chapter
  {
    var after := bytes[p := page];
    LiveOutside(bytes, chapter, owner, size, p);
    forall c | 0 <= c < |chapter|
      ensures PageOk(n, after, chapter, c)
    {
      assert PageOk(n, bytes, chapter, c) && chapter[c] in chapter;
    }
    forall c: nat, j: nat, k: nat | RefHolds(after, chapter, c, j, k)
      ensures RefOwned(owner, c, j, k)
    {
      assert chapter[c] in chapter && RefHolds(bytes, chapter, c, j, k);
    }
    forall k | k in owner
      ensures OwnedAt(after, chapter, owner, k)
    {
      assert OwnedAt(bytes, chapter, owner, k);
      assert owner[k].Free? ==> chapter[owner[k].c] in chapter;
    }
  }
}
