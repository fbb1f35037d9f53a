/**
  The trash of one object page: its deleted rows, linked through the first two bytes of
  their content. Field widths are those of the page header: rows are numbered in 16 bits
  and the number 0xFFFF ends the list.
 */
module FreeList {
  import opened Sequences

  const END: nat := 0xFFFF

  /** A row: its deleted flag, and the first two bytes of its content. */
  datatype Row = Row(deleted: bool, word: nat)

  datatype RowPage = RowPage(start: nat, trashc: nat, rows: seq<Row>)

  /** More than half of the rows of a page are trash. */
  predicate Critical(trashc: nat, total: nat) {
    trashc > total / 2
  }

  // ------------------------------------------------------------------ the list

  function NextIn(free: seq<nat>, k: nat): nat {
    if k < |free| then free[k] else END
  }

  ghost predicate LinkAt(p: RowPage, free: seq<nat>, k: nat)
    requires k < |free|
  {
    free[k] < |p.rows| && p.rows[free[k]].deleted && p.rows[free[k]].word == NextIn(free, k + 1)
  }

  /** `free` is the trash of the page: every deleted row once, in the order of the links. */
  ghost predicate FreeListOf(p: RowPage, free: seq<nat>) {
    && 1 <= |p.rows| <= END
    && p.start == NextIn(free, 0) && p.trashc == |free|
    && Distinct(free)
    && (forall k :: 0 <= k < |free| ==> LinkAt(p, free, k))
    && (forall r :: 0 <= r < |p.rows| && p.rows[r].deleted ==> r in free)
  }

  lemma {:induction false} DistinctBound(s: seq<nat>, n: nat)
    requires Distinct(s) && forall k :: 0 <= k < |s| ==> s[k] < n
    ensures |s| <= n
  {
    if s == [] {
    } else {
      assert s[0] < n;
      if k :| 0 <= k < |s| && s[k] == n - 1 {
        var t := s[..k] + s[k + 1..];
        assert forall a :: 0 <= a < |t| ==> t[a] == s[if a < k then a else a + 1];
        DistinctBound(t, n - 1);
      } else {
        DistinctBound(s, n - 1);
      }
    }
  }

  /** The trash count of a page never passes its number of rows, so it fits in its 16 bits. */
  lemma TrashFits(p: RowPage, free: seq<nat>)
    requires FreeListOf(p, free)
    ensures p.trashc <= |p.rows| <= END
    ensures (exists r :: 0 <= r < |p.rows| && !p.rows[r].deleted) ==> p.trashc < |p.rows|
  {
    assert forall k :: 0 <= k < |free| && LinkAt(p, free, k) ==> free[k] < |p.rows|;
    DistinctBound(free, |p.rows|);
    if r :| 0 <= r < |p.rows| && !p.rows[r].deleted {
      var more := [r] + free;
      assert forall k :: 0 < k < |more| ==> more[k] == free[k - 1] && LinkAt(p, free, k - 1);
      DistinctBound(more, |p.rows|);
    }
  }

  lemma StartTellsTrash(p: RowPage, free: seq<nat>)
    requires FreeListOf(p, free)
    ensures p.start == END <==> p.trashc == 0
  {
    assert free != [] ==> LinkAt(p, free, 0);
  }

  // ------------------------------------------------------------------ what the links say

  /** The row reached after following `m` links from `at`. */
  function Walk(p: RowPage, at: nat, m: nat): nat
    decreases m
  {
    if m == 0 || at >= |p.rows| then at else Walk(p, p.rows[at].word, m - 1)
  }

  lemma {:induction false} WalkFollows(p: RowPage, free: seq<nat>, k: nat, m: nat)
    requires FreeListOf(p, free) && k + m <= |free|
    ensures Walk(p, NextIn(free, k), m) == NextIn(free, k + m)
    decreases m
  {
    if m > 0 {
      assert LinkAt(p, free, k);
      WalkFollows(p, free, k + 1, m - 1);
    }
  }

  ghost predicate Visits(p: RowPage, r: nat) {
    exists m :: 0 <= m < p.trashc && Walk(p, p.start, m) == r
  }

  /**
    The links of a page, followed from `start`: they end after exactly `trashc` of them,
    never before, and on the way pass every deleted row exactly once and no other row.
   */
  lemma {:induction false} LinksVisitTrash(p: RowPage, free: seq<nat>)
    requires FreeListOf(p, free)
    ensures Walk(p, p.start, p.trashc) == END
    ensures forall m :: 0 <= m < p.trashc ==> Walk(p, p.start, m) < |p.rows| && p.rows[Walk(p, p.start, m)].deleted
    ensures forall a, b :: 0 <= a < b < p.trashc ==> Walk(p, p.start, a) != Walk(p, p.start, b)
    ensures forall r :: 0 <= r < |p.rows| && p.rows[r].deleted ==> Visits(p, r)
  {
    WalkFollows(p, free, 0, p.trashc);
    forall m | 0 <= m < p.trashc
      ensures Walk(p, p.start, m) == free[m] && free[m] < |p.rows| && p.rows[free[m]].deleted
    {
      WalkFollows(p, free, 0, m);
      assert LinkAt(p, free, m);
    }
    forall r | 0 <= r < |p.rows| && p.rows[r].deleted
      ensures Visits(p, r)
    {
      var m :| 0 <= m < |free| && free[m] == r;
      assert Walk(p, p.start, m) == r;
    }
  }

  // ------------------------------------------------------------------ operations

  function AllRows(n: nat): seq<nat> {
    seq(n, i => i)
  }

  /** A new page: all its rows are trash, linked in order. */
  method InitObjects(n: nat) returns (p: RowPage)
    requires 1 <= n <= END
    ensures FreeListOf(p, AllRows(n)) && |p.rows| == n
    ensures forall r :: 0 <= r < n ==> p.rows[r].deleted
  {
    var rows := [];
    var i := 0;
    while i < n
      invariant 0 <= i <= n && |rows| == i
      invariant forall r :: 0 <= r < i ==> rows[r] == Row(true, NextIn(AllRows(n), r + 1))
    {
      rows := rows + [Row(true, if i + 1 == n then END else i + 1)];
      i := i + 1;
    }
    p := RowPage(0, n, rows);
    forall r | 0 <= r < n
      ensures r in AllRows(n)
    {
      assert AllRows(n)[r] == r;
    }
  }

  /** Takes the first trash row of a page and makes it live. */
  method Pop(p: RowPage, ghost free: seq<nat>) returns (row: nat, q: RowPage)
    requires FreeListOf(p, free) && p.start != END
    ensures row < |p.rows| && p.rows[row].deleted && free != [] && row == free[0]
    ensures FreeListOf(q, free[1..])
    ensures q.rows == p.rows[row := Row(false, p.rows[row].word)] && q.trashc + 1 == p.trashc
  {
    row := p.start;
    assert LinkAt(p, free, 0);
    q := RowPage(p.rows[row].word, p.trashc - 1, p.rows[row := Row(false, p.rows[row].word)]);
    forall k | 0 <= k < |free| - 1
      ensures LinkAt(q, free[1..], k)
    {
      assert LinkAt(p, free, k + 1);
    }
    forall r | 0 <= r < |q.rows| && q.rows[r].deleted
      ensures r in free[1..]
    {
      assert r in free && free == [free[0]] + free[1..];
    }
  }

  /** What is written to a live row is no part of the trash. */
  lemma WriteKeepsList(p: RowPage, row: nat, word: nat, free: seq<nat>)
    requires FreeListOf(p, free) && row < |p.rows| && !p.rows[row].deleted
    ensures FreeListOf(p.(rows := p.rows[row := Row(false, word)]), free)
  {
    var q := p.(rows := p.rows[row := Row(false, word)]);
    forall k | 0 <= k < |free|
      ensures LinkAt(q, free, k)
    {
      assert LinkAt(p, free, k);
    }
  }

  /** Turns a live row into trash. */
  method Push(p: RowPage, row: nat, ghost free: seq<nat>) returns (q: RowPage)
    requires FreeListOf(p, free) && row < |p.rows| && !p.rows[row].deleted
    ensures FreeListOf(q, [row] + free)
    ensures q.rows == p.rows[row := Row(true, p.start)] && q.trashc == p.trashc + 1 <= END
  {
    TrashFits(p, free);
    q := RowPage(row, p.trashc + 1, p.rows[row := Row(true, p.start)]);
    forall k | 0 <= k < |free| + 1
      ensures LinkAt(q, [row] + free, k) && (k > 0 ==> ([row] + free)[k] != row)
    {
      assert k > 0 ==> LinkAt(p, free, k - 1);
    }
  }

  /** The page once trash row `free[k]` is unlinked: the link before it skips it. */
  ghost predicate Skipped(p: RowPage, q: RowPage, free: seq<nat>, k: nat)
    requires k < |free|
  {
    var after := NextIn(free, k + 1);
    && |q.rows| == |p.rows| && q.trashc == p.trashc - 1
    && q.start == (if k == 0 then after else p.start)
    && forall r :: 0 <= r < |p.rows| ==>
         q.rows[r] == if r == free[k] then Row(false, p.rows[r].word)
                      else if k > 0 && r == free[k - 1] then Row(true, after)
                      else p.rows[r]
  }

  function Without(free: seq<nat>, k: nat): (rest: seq<nat>)
    requires k < |free|
    ensures |rest| == |free| - 1
    ensures forall m :: 0 <= m < |rest| ==> rest[m] == free[if m < k then m else m + 1]
  {
    free[..k] + free[k + 1..]
  }

  lemma SkipLinks(p: RowPage, q: RowPage, free: seq<nat>, k: nat, m: nat)
    requires FreeListOf(p, free) && k < |free| && Skipped(p, q, free, k) && m < |free| - 1
    ensures LinkAt(q, Without(free, k), m)
  {
    var a := if m < k then m else m + 1;
    assert LinkAt(p, free, a) && LinkAt(p, free, k);
  }

  lemma SkipUnlinks(p: RowPage, q: RowPage, free: seq<nat>, k: nat)
    requires FreeListOf(p, free) && k < |free| && Skipped(p, q, free, k)
    ensures FreeListOf(q, Without(free, k))
  {
    var rest := Without(free, k);
    forall m | 0 <= m < |rest|
      ensures LinkAt(q, rest, m)
    {
      SkipLinks(p, q, free, k, m);
    }
    forall r | 0 <= r < |q.rows| && q.rows[r].deleted
      ensures r in rest
    {
      assert LinkAt(p, free, k) && (k > 0 ==> LinkAt(p, free, k - 1));
      var m :| 0 <= m < |free| && free[m] == r;
      assert rest[if m < k then m else m - 1] == r;
    }
  }

  /**
    Makes a trash row live again. The list is searched from its head for the link to the row;
    `slot` is the place of the link last read: a row, or -1 for the page header.
   */
  method Unlink(p: RowPage, row: nat, ghost free: seq<nat>) returns (q: RowPage, ghost k: nat)
    requires FreeListOf(p, free) && row < |p.rows| && p.rows[row].deleted
    ensures k < |free| && free[k] == row && FreeListOf(q, Without(free, k))
    ensures |q.rows| == |p.rows| && !q.rows[row].deleted && q.rows[row].word == p.rows[row].word
    ensures forall r :: 0 <= r < |p.rows| && r != row ==>
                          && q.rows[r].deleted == p.rows[r].deleted
                          && (!p.rows[r].deleted ==> q.rows[r] == p.rows[r])
    ensures q.trashc + 1 == p.trashc
  {
    var after := p.rows[row].word;
    q := p;
    k :| 0 <= k < |free| && free[k] == row;
    var slot: int := -1;
    var i := 0;
    while i < p.trashc
      invariant 0 <= i <= k && q == p
      invariant slot == if i == 0 then -1 else free[i - 1]
      invariant slot < |p.rows|
    {
      assert i > 0 ==> LinkAt(p, free, i - 1);
      var at := if slot == -1 then p.start else p.rows[slot].word;
      if at == row {
        q := if slot == -1 then p.(start := after) else p.(rows := p.rows[slot := p.rows[slot].(word := after)]);
        break;
      }
      assert LinkAt(p, free, i);
      slot := at;
      i := i + 1;
    }
    assert LinkAt(p, free, k) && (k > 0 ==> LinkAt(p, free, k - 1));
    q := q.(trashc := q.trashc - 1, rows := q.rows[row := Row(false, q.rows[row].word)]);
    SkipUnlinks(p, q, free, k);
  }
}
