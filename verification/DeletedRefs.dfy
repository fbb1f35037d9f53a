/**
  One page of the chapter of deleted pages: a table of references to straits of pages that
  can be used again, with counts of what it holds.
 */
module DeletedRefs {

  const UINT16_MAX: nat := 0xFFFF
  const UINT32_MAX: nat := 0xFFFF_FFFF

  type uint16 = x: nat | x <= UINT16_MAX
  type uint32 = x: nat | x <= UINT32_MAX

  function Wrap16(x: nat): uint16 {
    x % 0x1_0000
  }

  function Wrap32(x: nat): uint32 {
    x % 0x1_0000_0000
  }

  /** A deleted strait: its first page and its length; a null reference has neither. */
  datatype DeletedRef = DeletedRef(ref: nat, straitc: uint16)

  datatype DeletedPage = DeletedPage(pleft: nat, pright: nat, largest: uint16, refc: uint16, pagesc: uint32,
                                     refs: seq<DeletedRef>)

  // ------------------------------------------------------------------ counts

  function RefCount(refs: seq<DeletedRef>): nat {
    if refs == [] then 0 else RefCount(refs[..|refs| - 1]) + (if refs[|refs| - 1].ref != 0 then 1 else 0)
  }

  function PageCount(refs: seq<DeletedRef>): nat {
    if refs == [] then 0 else PageCount(refs[..|refs| - 1]) + refs[|refs| - 1].straitc
  }

  lemma {:induction false} CountsAfter(refs: seq<DeletedRef>, j: nat, r: DeletedRef)
    requires j < |refs|
    ensures PageCount(refs[j := r]) + refs[j].straitc == PageCount(refs) + r.straitc
    ensures RefCount(refs[j := r]) + (if refs[j].ref != 0 then 1 else 0) ==
            RefCount(refs) + (if r.ref != 0 then 1 else 0)
  {
    var n := |refs| - 1;
    if j == n {
      assert refs[j := r][..n] == refs[..n];
    } else {
      assert refs[j := r][..n] == refs[..n][j := r];
      CountsAfter(refs[..n], j, r);
    }
  }

  lemma {:induction false} RefCountBound(refs: seq<DeletedRef>)
    ensures RefCount(refs) <= |refs|
    ensures RefCount(refs) == |refs| <==> forall j :: 0 <= j < |refs| ==> refs[j].ref != 0
  {
    if refs != [] {
      var front := refs[..|refs| - 1];
      RefCountBound(front);
      assert forall j :: 0 <= j < |front| ==> front[j] == refs[j];
    }
  }

  lemma {:induction false} NullCounts(n: nat)
    ensures RefCount(seq(n, _ => DeletedRef(0, 0))) == 0 && PageCount(seq(n, _ => DeletedRef(0, 0))) == 0
  {
    if n > 0 {
      NullCounts(n - 1);
      assert seq(n, _ => DeletedRef(0, 0))[..n - 1] == seq(n - 1, _ => DeletedRef(0, 0));
    }
  }

  /** `m` is the longest strait among the first `k` references. */
  ghost predicate LongestOf(refs: seq<DeletedRef>, k: nat, m: nat)
    requires k <= |refs|
  {
    && (forall j :: 0 <= j < k ==> refs[j].straitc <= m)
    && (m > 0 ==> exists j :: 0 <= j < k && refs[j].straitc == m)
  }

  predicate RefOk(r: DeletedRef) {
    (r.ref == 0 <==> r.straitc == 0) && r.straitc <= 255
  }

  /** The header of a page agrees with its table. */
  ghost predicate CountsOk(n: nat, p: DeletedPage) {
    && |p.refs| == n && p.refc == RefCount(p.refs) && p.pagesc == PageCount(p.refs)
    && LongestOf(p.refs, n, p.largest)
    && forall j :: 0 <= j < n ==> RefOk(p.refs[j])
  }

  /** What a page reads as that was never written. */
  function Zeros(n: nat): DeletedPage {
    DeletedPage(0, 0, 0, 0, 0, seq(n, _ => DeletedRef(0, 0)))
  }

  lemma {:induction false} PageCountBound(refs: seq<DeletedRef>)
    requires forall j :: 0 <= j < |refs| ==> RefOk(refs[j])
    ensures PageCount(refs) <= 255 * |refs|
  {
    if refs != [] {
      var front := refs[..|refs| - 1];
      assert forall j :: 0 <= j < |front| ==> front[j] == refs[j];
      PageCountBound(front);
      assert RefOk(refs[|refs| - 1]);
    }
  }

  lemma ZerosOk(n: nat)
    ensures CountsOk(n, Zeros(n))
  {
    NullCounts(n);
  }

  // ------------------------------------------------------------------ taking pages out

  predicate Fits(r: DeletedRef, straitc: nat) {
    r.ref != 0 && r.straitc >= straitc
  }

  /** A reference after `straitc` pages were taken from the front of its strait. */
  function Rest(r: DeletedRef, straitc: nat): DeletedRef
    requires Fits(r, straitc)
  {
    if r.straitc == straitc then DeletedRef(0, 0) else DeletedRef(r.ref + straitc, r.straitc - straitc)
  }

  /** `q` is `p` after `straitc` pages were taken from reference `j`, the first that has as many. */
  ghost predicate Stolen(n: nat, p: DeletedPage, q: DeletedPage, straitc: nat, j: nat) {
    && j < n == |p.refs| && Fits(p.refs[j], straitc) && (forall i :: 0 <= i < j ==> !Fits(p.refs[i], straitc))
    && q.refs == p.refs[j := Rest(p.refs[j], straitc)]
    && q.pleft == p.pleft && q.pright == p.pright
  }

  /** Takes `straitc` pages from one reference. */
  method TakeFrom(n: nat, p: DeletedPage, straitc: nat, j: nat) returns (q: DeletedPage)
    requires CountsOk(n, p) && j < n && Fits(p.refs[j], straitc) && forall i :: 0 <= i < j ==> !Fits(p.refs[i], straitc)
    ensures Stolen(n, p, q, straitc, j)
    ensures q.refc == RefCount(q.refs) && q.pagesc == PageCount(q.refs)
  {
    assert RefOk(p.refs[j]);
    CountsAfter(p.refs, j, Rest(p.refs[j], straitc));
    q := p.(refs := p.refs[j := Rest(p.refs[j], straitc)],
            pagesc := p.pagesc - straitc,
            refc := if p.refs[j].straitc == straitc then p.refc - 1 else p.refc);
  }

  lemma LongestStep(refs: seq<DeletedRef>, k: nat, m: nat)
    requires k < |refs| && LongestOf(refs, k, m)
    ensures LongestOf(refs, k + 1, if m < refs[k].straitc then refs[k].straitc else m)
  {
    if m > 0 {
      var j :| 0 <= j < k && refs[j].straitc == m;
      assert j < k + 1;
    }
  }

  lemma LongestKept(refs: seq<DeletedRef>, k: nat, m: nat, r: DeletedRef)
    requires k < |refs| && LongestOf(refs, k, m)
    ensures LongestOf(refs[k := r], k, m)
  {
    if m > 0 {
      var j :| 0 <= j < k && refs[j].straitc == m;
      assert refs[k := r][j].straitc == m;
    }
  }

  /** The search after `j` references: none had enough pages yet, or they were taken from reference `k`. */
  ghost predicate Searched(n: nat, p: DeletedPage, q: DeletedPage, straitc: nat, j: nat, id: nat, k: nat) {
    && j <= n == |q.refs| == |p.refs|
    && (id == 0 ==> q == p && forall i :: 0 <= i < j ==> !Fits(p.refs[i], straitc))
    && (id != 0 ==> k < j && Stolen(n, p, q, straitc, k) && id == p.refs[k].ref
                    && q.refc == RefCount(q.refs) && q.pagesc == PageCount(q.refs))
  }

  /** One turn of the search: the pages are taken here if they were not yet, and the longest strait is followed. */
  method Visit(n: nat, p: DeletedPage, q: DeletedPage, straitc: nat, j: nat, id: nat, ghost k: nat, newlargest: uint16)
    returns (q': DeletedPage, id': nat, ghost k': nat, newlargest': uint16)
    requires CountsOk(n, p) && Searched(n, p, q, straitc, j, id, k) && j < n && LongestOf(q.refs, j, newlargest)
    ensures Searched(n, p, q', straitc, j + 1, id', k') && LongestOf(q'.refs, j + 1, newlargest')
    ensures id != 0 || Fits(p.refs[j], straitc) ==> id' != 0
  {
    q', id', k', newlargest' := q, id, k, newlargest;
    if id == 0 && Fits(p.refs[j], straitc) {
      id', k' := p.refs[j].ref, j;
      q' := TakeFrom(n, p, straitc, j);
      LongestKept(p.refs, j, newlargest, q'.refs[j]);
    }
    LongestStep(q'.refs, j, newlargest);
    if newlargest < q'.refs[j].straitc {
      newlargest' := q'.refs[j].straitc;
    }
  }

  lemma StolenOk(n: nat, p: DeletedPage, q: DeletedPage, straitc: nat, k: nat)
    requires CountsOk(n, p) && straitc >= 1 && Stolen(n, p, q, straitc, k)
    ensures forall j :: 0 <= j < n ==> RefOk(q.refs[j])
  {
    assert RefOk(p.refs[k]);
  }

  /**
    Takes `straitc` pages from the first reference that has as many; all references are read, to
    find the new longest one.
   */
  method Steal(n: nat, p: DeletedPage, straitc: nat) returns (q: DeletedPage, id: nat, ghost k: nat)
    requires CountsOk(n, p) && 1 <= straitc <= p.largest
    ensures Stolen(n, p, q, straitc, k) && CountsOk(n, q) && id == p.refs[k].ref
  {
    q, id, k := p, 0, 0;
    var newlargest: uint16 := 0;
    ghost var m :| 0 <= m < n && p.refs[m].straitc == p.largest;
    assert RefOk(p.refs[m]);
    var j := 0;
    while j < n
      invariant Searched(n, p, q, straitc, j, id, k) && LongestOf(q.refs, j, newlargest)
      invariant id == 0 ==> j <= m
    {
      q, id, k, newlargest := Visit(n, p, q, straitc, j, id, k, newlargest);
      j := j + 1;
    }
    StolenOk(n, p, q, straitc, k);
    q := q.(largest := newlargest);
  }

  // ------------------------------------------------------------------ putting pages in

  /** The program would lengthen this reference by a strait that lies next to it. */
  predicate Merges(r: DeletedRef, straitc: nat, id: nat) {
    r.straitc + straitc >= UINT16_MAX && (r.ref + r.straitc == id || id + straitc == r.ref)
  }

  predicate TakesRef(r: DeletedRef, straitc: nat, id: nat) {
    r.ref == 0 || Merges(r, straitc, id)
  }

  /** No place for the strait on a page: it counts as full, or none of its references takes it. */
  ghost predicate NoPlace(n: nat, p: DeletedPage, straitc: nat, id: nat) {
    p.refc == n || forall j :: 0 <= j < |p.refs| ==> !TakesRef(p.refs[j], straitc, id)
  }

  /** Reference `j` is the first that takes the strait. */
  ghost predicate FirstPlace(n: nat, p: DeletedPage, straitc: nat, id: nat, j: nat) {
    && p.refc != n && j < |p.refs| && TakesRef(p.refs[j], straitc, id)
    && forall i :: 0 <= i < j ==> !TakesRef(p.refs[i], straitc, id)
  }

  function Max(a: uint16, b: uint16): uint16 {
    if a < b then b else a
  }

  /** A reference after it took a strait, in the widths of its fields. */
  function Took(r: DeletedRef, straitc: uint16, id: nat): DeletedRef {
    if r.ref == 0 then DeletedRef(id, straitc)
    else if r.ref + r.straitc == id then r.(straitc := Wrap16(r.straitc + straitc))
    else DeletedRef(id, Wrap16(r.straitc + straitc))
  }

  /** A page after its reference `j` took a strait, whatever the page held before. */
  function Stored(p: DeletedPage, straitc: uint16, id: nat, j: nat): DeletedPage
    requires j < |p.refs|
  {
    var r := Took(p.refs[j], straitc, id);
    p.(refs := p.refs[j := r], largest := Max(p.largest, r.straitc), pagesc := Wrap32(p.pagesc + straitc),
       refc := if p.refs[j].ref == 0 then Wrap16(p.refc + 1) else p.refc)
  }

  /** Stores a strait on a page, in the first of its references that takes it. */
  method StoreOn(n: nat, p: DeletedPage, straitc: uint16, id: nat) returns (found: bool, q: DeletedPage, ghost k: nat)
    requires |p.refs| == n && p.refc != n
    ensures found <==> !NoPlace(n, p, straitc, id)
    ensures !found ==> q == p
    ensures found ==> FirstPlace(n, p, straitc, id, k) && q == Stored(p, straitc, id, k)
  {
    found, q, k := false, p, 0;
    var j := 0;
    while j < n
      invariant 0 <= j <= n && forall i :: 0 <= i < j ==> !TakesRef(p.refs[i], straitc, id)
    {
      var ref := p.refs[j];
      if ref.ref == 0 {
        ref := DeletedRef(id, straitc);
        q := q.(refc := Wrap16(q.refc + 1), pagesc := Wrap32(q.pagesc + straitc), refs := q.refs[j := ref],
                largest := if q.largest < ref.straitc then ref.straitc else q.largest);
        return true, q, j;
      }
      if ref.straitc + straitc >= UINT16_MAX && (ref.ref + ref.straitc == id || id + straitc == ref.ref) {
        if ref.ref + ref.straitc == id {
          ref := ref.(straitc := Wrap16(ref.straitc + straitc));
        } else {
          ref := DeletedRef(id, Wrap16(ref.straitc + straitc));
        }
        q := q.(pagesc := Wrap32(q.pagesc + straitc), refs := q.refs[j := ref],
                largest := if q.largest < ref.straitc then ref.straitc else q.largest);
        return true, q, j;
      }
      j := j + 1;
    }
  }

  // ------------------------------------------------------------------ pages of the chapter

  /** Two straits of a page whose header agrees with its table are never merged. */
  lemma NeverMerges(r: DeletedRef, straitc: nat, id: nat)
    requires RefOk(r) && straitc <= 255
    ensures !Merges(r, straitc, id)
  {
  }

  /** `q` is `p` with a strait in reference `j`, the first that was null. */
  ghost predicate Inserted(n: nat, p: DeletedPage, q: DeletedPage, id: nat, straitc: nat, j: nat) {
    && j < n == |p.refs| && p.refs[j].ref == 0 && (forall i :: 0 <= i < j ==> p.refs[i].ref != 0)
    && straitc <= UINT16_MAX && q.refs == p.refs[j := DeletedRef(id, straitc)]
    && q.pleft == p.pleft && q.pright == p.pright
  }

  /** A page of the chapter has a place for a strait exactly if it is not full. */
  lemma PlaceIfRoom(n: nat, p: DeletedPage, straitc: nat, id: nat)
    requires CountsOk(n, p) && straitc <= 255
    ensures NoPlace(n, p, straitc, id) <==> p.refc == n
  {
    RefCountBound(p.refs);
    if p.refc != n {
      var j :| 0 <= j < n && p.refs[j].ref == 0;
      assert TakesRef(p.refs[j], straitc, id);
    }
  }

  /** What a page of the chapter takes goes into its first null reference, and its header agrees again. */
  lemma StoredIsInserted(n: nat, p: DeletedPage, straitc: uint16, id: nat, j: nat)
    requires CountsOk(n, p) && n <= UINT16_MAX && id != 0 && 1 <= straitc <= 255 && FirstPlace(n, p, straitc, id, j)
    ensures Inserted(n, p, Stored(p, straitc, id, j), id, straitc, j) && CountsOk(n, Stored(p, straitc, id, j))
  {
    var q := Stored(p, straitc, id, j);
    assert RefOk(p.refs[j]);
    NeverMerges(p.refs[j], straitc, id);
    assert q.refs == p.refs[j := DeletedRef(id, straitc)];
    CountsAfter(p.refs, j, DeletedRef(id, straitc));
    RefCountBound(p.refs);
    forall i | 0 <= i < n
      ensures RefOk(q.refs[i])
    {
      assert RefOk(p.refs[i]);
    }
    PageCountBound(q.refs);
    InsertKeepsLongest(p.refs, n, p.largest, j, DeletedRef(id, straitc));
  }

  lemma InsertKeepsLongest(refs: seq<DeletedRef>, n: nat, m: nat, j: nat, r: DeletedRef)
    requires n == |refs| && LongestOf(refs, n, m) && j < n && refs[j].straitc == 0
    ensures LongestOf(refs[j := r], n, if m < r.straitc then r.straitc else m)
  {
    var after := refs[j := r];
    if m >= r.straitc && m > 0 {
      var i :| 0 <= i < n && refs[i].straitc == m;
      assert after[i].straitc == m;
    } else {
      assert after[j] == r;
    }
  }
}
