/**
  The shape of the OID lookup tree of one entity: lookup pages, the offsets kept
  in their references, and the levels of the tree from the root (level 0) down to
  the leaf-bearing pages (level `depth`) and the straits of object pages they name
  (level `depth + 1`).
 */
module LookupTree {
  import opened Sequences

  type Pid = nat

  /** A reference: `off` is a start offset in a branch and an end offset in a leaf-bearing page. */
  datatype Ref = Ref(ref: Pid, off: nat)

  datatype Lookup = Lookup(depth: nat, parent: Pid, pleft: Pid, pright: nat, refs: seq<Ref>)

  type Pages = map<Pid, Lookup>

  type Levels = seq<seq<Pid>>

  /** The three settings of an entity that the tree depends on. */
  datatype Config = Config(depth: nat, refmax: nat, straitc: nat) {
    ghost predicate Ok() {
      refmax >= 1 && straitc >= 1
    }
  }

  // ------------------------------------------------------------------ offsets

  /** Chapter offset of the first object page below item `k` of level `d`. */
  ghost function StartOff(c: Config, d: nat, k: nat): nat
    requires d <= c.depth + 1
    decreases c.depth + 1 - d
  {
    if d == c.depth + 1 then k * c.straitc else StartOff(c, d + 1, k * c.refmax)
  }

  /** What a page of level `d` stores as the offset of item `k` of level `d + 1`. */
  ghost function RefOff(c: Config, d: nat, k: nat): nat
    requires d <= c.depth && c.Ok()
  {
    if d == c.depth then k * c.straitc + (c.straitc - 1) else StartOff(c, d + 1, k)
  }

  lemma {:induction false} StartMonotone(c: Config, d: nat, a: nat, b: nat)
    requires c.Ok() && d <= c.depth + 1 && a < b
    ensures StartOff(c, d, a) < StartOff(c, d, b)
    decreases c.depth + 1 - d
  {
    if d == c.depth + 1 {
      MulLess(a, b, c.straitc);
    } else {
      MulLess(a, b, c.refmax);
      StartMonotone(c, d + 1, a * c.refmax, b * c.refmax);
    }
  }

  lemma {:induction false} StartZero(c: Config, d: nat)
    requires d <= c.depth + 1
    ensures StartOff(c, d, 0) == 0
    decreases c.depth + 1 - d
  {
    if d <= c.depth {
      StartZero(c, d + 1);
    }
  }

  lemma MulLess(a: nat, b: nat, m: nat)
    requires a < b && m >= 1
    ensures a * m < b * m
  {
  }

  // ------------------------------------------------------------------ levels

  /** Every page of a level is full except possibly the last one. */
  ghost predicate Sized(c: Config, l: Levels) {
    && c.Ok()
    && |l| == c.depth + 2
    && |l[0]| == 1
    && forall d :: 0 <= d <= c.depth ==> LevelSized(c, l, d)
  }

  ghost predicate LevelSized(c: Config, l: Levels, d: nat)
    requires |l| == c.depth + 2 && d <= c.depth
  {
    |l[d]| >= 1 && (|l[d]| - 1) * c.refmax < |l[d + 1]| <= |l[d]| * c.refmax
  }

  ghost function Straits(c: Config, l: Levels): seq<Pid>
    requires Sized(c, l)
  {
    l[c.depth + 1]
  }

  /** Item `j` of level `d` is a page naming items `j * refmax`, `j * refmax + 1`, ... of level `d + 1`. */
  ghost predicate PageHolds(c: Config, l: Levels, pages: Pages, d: nat, j: nat)
    requires Sized(c, l) && d <= c.depth && j < |l[d]|
  {
    && l[d][j] in pages
    && var p := pages[l[d][j]];
    && p.depth == d
    && |p.refs| == (if j + 1 < |l[d]| then c.refmax else |l[d + 1]| - j * c.refmax)
    && j * c.refmax + |p.refs| <= |l[d + 1]|
    && forall k :: 0 <= k < |p.refs| ==>
         p.refs[k] == Ref(l[d + 1][j * c.refmax + k], RefOff(c, d, j * c.refmax + k))
  }

  /** The part of the tree that lookups read. */
  ghost predicate Routed(c: Config, l: Levels, pages: Pages) {
    && Sized(c, l)
    && forall d, j :: 0 <= d <= c.depth && 0 <= j < |l[d]| ==> PageHolds(c, l, pages, d, j)
  }

  /** The part of the tree that only appends read: parents, left siblings, first offsets. */
  ghost predicate Linked(c: Config, l: Levels, pages: Pages)
    requires Sized(c, l)
  {
    && (forall d, j :: 0 <= d <= c.depth && 0 <= j < |l[d]| ==> HeadHolds(c, l, pages, d, j))
    && (forall d, j :: 0 <= d < c.depth && 0 <= j < |l[d]| ==> ChildrenHold(pages, l[d][j]))
    && l[0][0] in pages && pages[l[0][0]].parent == 0
  }

  ghost predicate HeadHolds(c: Config, l: Levels, pages: Pages, d: nat, j: nat)
    requires Sized(c, l) && d <= c.depth && j < |l[d]|
  {
    && l[d][j] in pages
    && pages[l[d][j]].pright == StartOff(c, d, j)
    && pages[l[d][j]].pleft == if j == 0 then 0 else l[d][j - 1]
  }

  /** Every page named by `p` names `p` as its parent. */
  ghost predicate ChildrenHold(pages: Pages, p: Pid) {
    && p in pages
    && forall k :: 0 <= k < |pages[p].refs| ==>
         pages[p].refs[k].ref in pages && pages[pages[p].refs[k].ref].parent == p
  }

  // ------------------------------------------------------------------ facts about a routed tree

  /** No page stands at two places of the tree. */
  lemma PlacesDistinct(c: Config, l: Levels, pages: Pages, d: nat, j: nat, d': nat, j': nat)
    requires Routed(c, l, pages)
    requires d <= c.depth && j < |l[d]| && d' <= c.depth && j' < |l[d']|
    requires l[d][j] == l[d'][j']
    ensures d == d' && j == j'
  {
    assert PageHolds(c, l, pages, d, j) && PageHolds(c, l, pages, d', j');
    if j != j' {
      var a, b := if j < j' then j else j', if j < j' then j' else j;
      assert LevelSized(c, l, d);
      FirstRef(c, l, pages, d, a);
      FirstRef(c, l, pages, d, b);
      MulLess(a, b, c.refmax);
      RefOffMonotone(c, d, a * c.refmax, b * c.refmax);
    }
  }

  lemma FirstRef(c: Config, l: Levels, pages: Pages, d: nat, j: nat)
    requires Routed(c, l, pages) && d <= c.depth && j < |l[d]|
    ensures PageHolds(c, l, pages, d, j) && |pages[l[d][j]].refs| >= 1
    ensures pages[l[d][j]].refs[0].off == RefOff(c, d, j * c.refmax)
  {
    assert PageHolds(c, l, pages, d, j);
    assert LevelSized(c, l, d);
    assert j + 1 == |l[d]| ==> j * c.refmax == (|l[d]| - 1) * c.refmax;
  }

  lemma RefOffMonotone(c: Config, d: nat, a: nat, b: nat)
    requires c.Ok() && d <= c.depth && a < b
    ensures RefOff(c, d, a) < RefOff(c, d, b)
  {
    if d == c.depth {
      MulLess(a, b, c.straitc);
    } else {
      StartMonotone(c, d + 1, a, b);
    }
  }

  /** A full level: the next item of the level below needs a new page. */
  ghost predicate LevelFull(c: Config, l: Levels, d: nat)
    requires |l| == c.depth + 2 && d <= c.depth
  {
    |l[d + 1]| == |l[d]| * c.refmax
  }

  /** Every level from `i` down is full. */
  ghost predicate FullFrom(c: Config, l: Levels, i: nat)
    requires Sized(c, l)
  {
    forall d :: i <= d <= c.depth ==> LevelFull(c, l, d)
  }

  /** When every level from `i` down is full, the next item of each starts at the end of the chapter. */
  lemma {:induction false} FullStart(c: Config, l: Levels, i: nat)
    requires Sized(c, l) && i <= c.depth + 1 && FullFrom(c, l, i)
    ensures StartOff(c, i, |l[i]|) == |Straits(c, l)| * c.straitc
    decreases c.depth + 1 - i
  {
    if i <= c.depth {
      assert LevelFull(c, l, i);
      FullStart(c, l, i + 1);
    }
  }

  // ------------------------------------------------------------------ capacity

  ghost function Pow(b: nat, e: nat): nat {
    if e == 0 then 1 else b * Pow(b, e - 1)
  }

  lemma {:induction false} LevelBound(c: Config, l: Levels, d: nat)
    requires Sized(c, l) && d <= c.depth + 1
    ensures |l[d]| <= Pow(c.refmax, d)
  {
    if d > 0 {
      LevelBound(c, l, d - 1);
      assert LevelSized(c, l, d - 1);
      MulLessEqual(|l[d - 1]|, Pow(c.refmax, d - 1), c.refmax);
    }
  }

  lemma MulLessEqual(a: nat, b: nat, m: nat)
    requires a <= b
    ensures a * m <= b * m
  {
  }

  lemma {:induction false} FullDown(c: Config, l: Levels, d: nat)
    requires Sized(c, l) && d <= c.depth + 1 && |l[d]| == Pow(c.refmax, d)
    ensures forall e :: 0 <= e < d ==> LevelFull(c, l, e)
  {
    if d > 0 {
      assert LevelSized(c, l, d - 1);
      LevelBound(c, l, d - 1);
      if |l[d - 1]| < Pow(c.refmax, d - 1) {
        MulLess(|l[d - 1]|, Pow(c.refmax, d - 1), c.refmax);
        assert false;
      }
      FullDown(c, l, d - 1);
    }
  }

  lemma {:induction false} FullUp(c: Config, l: Levels, d: nat)
    requires Sized(c, l) && d <= c.depth + 1 && FullFrom(c, l, 0)
    ensures |l[d]| == Pow(c.refmax, d)
  {
    if d > 0 {
      assert LevelFull(c, l, d - 1);
      FullUp(c, l, d - 1);
    }
  }

  /** Every level is full exactly when the chapter holds `refmax` to the power `depth + 1` straits. */
  lemma FullIffCapacity(c: Config, l: Levels)
    requires Sized(c, l)
    ensures FullFrom(c, l, 0) <==> |Straits(c, l)| == Pow(c.refmax, c.depth + 1)
  {
    if FullFrom(c, l, 0) {
      FullUp(c, l, c.depth + 1);
    }
    if |Straits(c, l)| == Pow(c.refmax, c.depth + 1) {
      FullDown(c, l, c.depth + 1);
    }
  }

  // ------------------------------------------------------------------ growth by one strait

  ghost function LastIndex(c: Config, l: Levels, d: nat): nat
    requires Sized(c, l) && d <= c.depth
  {
    assert LevelSized(c, l, d);
    |l[d]| - 1
  }

  /** The last page of a level. */
  ghost function LastPage(c: Config, l: Levels, d: nat): Pid
    requires Sized(c, l) && d <= c.depth
  {
    l[d][LastIndex(c, l, d)]
  }

  /** What is appended to level `d + 1`: the new page of that level, or the new strait. */
  ghost function NewItem(c: Config, created: seq<Pid>, strait: Pid, d: nat): Pid
    requires d <= c.depth && |created| == c.depth
  {
    if d == c.depth then strait else created[d]
  }

  /** The levels after a strait found room on level `i`; the page created for level `d` is `created[d - 1]`. */
  ghost function Grown(c: Config, l: Levels, i: nat, created: seq<Pid>, strait: Pid): Levels
    requires Sized(c, l) && i <= c.depth && |created| == c.depth
  {
    seq(c.depth + 2, d requires 0 <= d < c.depth + 2 =>
      if d <= i then l[d] else l[d] + [NewItem(c, created, strait, d - 1)])
  }

  /** The reference that level `d` receives when it grows. */
  ghost function NewRef(c: Config, l: Levels, created: seq<Pid>, strait: Pid, d: nat): Ref
    requires Sized(c, l) && d <= c.depth && |created| == c.depth
  {
    var size := |Straits(c, l)| * c.straitc;
    Ref(NewItem(c, created, strait, d), if d == c.depth then size + c.straitc - 1 else size)
  }

  /** The new sibling on level `d`; its parent is not known when it is created. */
  ghost predicate IsSibling(c: Config, l: Levels, created: seq<Pid>, strait: Pid, d: nat, p: Lookup)
    requires Sized(c, l) && d <= c.depth && |created| == c.depth
  {
    && p.depth == d
    && p.pleft == LastPage(c, l, d)
    && p.pright == |Straits(c, l)| * c.straitc
    && p.refs == [NewRef(c, l, created, strait, d)]
  }

  /** There is room on the last page of level `i`, and none on any level below. */
  ghost predicate RoomAt(c: Config, l: Levels, i: nat)
    requires Sized(c, l) && i <= c.depth
  {
    FullFrom(c, l, i + 1) && !LevelFull(c, l, i)
  }

  /** The page `p` after the new reference was stored on the last page of level `i`. */
  ghost function Stored(c: Config, l: Levels, i: nat, created: seq<Pid>, strait: Pid, p: Lookup): Lookup
    requires Sized(c, l) && i <= c.depth && |created| == c.depth
  {
    p.(refs := p.refs + [NewRef(c, l, created, strait, i)])
  }

  /** Every page of `before` is still there, as it was. */
  ghost predicate Keeps(before: Pages, after: Pages) {
    forall p :: p in before ==> p in after && after[p] == before[p]
  }

  /** `created[e]` is the sibling made for level `e + 1`. */
  ghost predicate SiblingAt(c: Config, l: Levels, created: seq<Pid>, strait: Pid, before: Pages, after: Pages, e: nat)
    requires Sized(c, l) && e < c.depth && |created| == c.depth
  {
    created[e] in after && created[e] !in before && IsSibling(c, l, created, strait, e + 1, after[created[e]])
  }

  /** Siblings exist on the levels below `i` and nothing else changed. */
  ghost predicate SiblingsMade(c: Config, l: Levels, i: nat, created: seq<Pid>, strait: Pid, before: Pages,
                               after: Pages)
    requires Sized(c, l) && i <= c.depth && |created| == c.depth
  {
    && Keeps(before, after)
    && (forall e :: i <= e < c.depth ==> SiblingAt(c, l, created, strait, before, after, e))
    && DistinctFrom(created, i)
  }

  lemma SizedGrown(c: Config, l: Levels, i: nat, created: seq<Pid>, strait: Pid)
    requires Sized(c, l) && i <= c.depth && |created| == c.depth && RoomAt(c, l, i)
    ensures Sized(c, Grown(c, l, i, created, strait))
  {
    var g := Grown(c, l, i, created, strait);
    forall d | 0 <= d <= c.depth
      ensures LevelSized(c, g, d)
    {
      assert LevelSized(c, l, d);
      assert d > i ==> LevelFull(c, l, d);
    }
  }

  /** The pages once the new reference is stored on level `i`. */
  ghost function WithRef(c: Config, l: Levels, i: nat, created: seq<Pid>, strait: Pid, made: Pages): Pages
    requires Sized(c, l) && i <= c.depth && |created| == c.depth && LastPage(c, l, i) in made
  {
    made[LastPage(c, l, i) := Stored(c, l, i, created, strait, made[LastPage(c, l, i)])]
  }

  /** Storing the reference on level `i` routes the new strait and keeps every old route. */
  lemma RoutedGrown(c: Config, l: Levels, i: nat, created: seq<Pid>, strait: Pid, before: Pages, made: Pages)
    requires Routed(c, l, before) && i <= c.depth && |created| == c.depth && RoomAt(c, l, i)
    requires SiblingsMade(c, l, i, created, strait, before, made)
    ensures LastPage(c, l, i) in made
    ensures Routed(c, Grown(c, l, i, created, strait), WithRef(c, l, i, created, strait, made))
  {
    var g := Grown(c, l, i, created, strait);
    SizedGrown(c, l, i, created, strait);
    assert PageHolds(c, l, before, i, LastIndex(c, l, i));
    forall d, j | 0 <= d <= c.depth && 0 <= j < |g[d]|
      ensures PageHolds(c, g, WithRef(c, l, i, created, strait, made), d, j)
    {
      GrownPageHolds(c, l, i, created, strait, before, made, d, j);
    }
  }

  lemma GrownPageHolds(c: Config, l: Levels, i: nat, created: seq<Pid>, strait: Pid, before: Pages, made: Pages, d: nat,
                       j: nat)
    requires Routed(c, l, before) && i <= c.depth && |created| == c.depth && RoomAt(c, l, i)
    requires SiblingsMade(c, l, i, created, strait, before, made)
    requires LastPage(c, l, i) in made && Sized(c, Grown(c, l, i, created, strait))
    requires d <= c.depth && j < |Grown(c, l, i, created, strait)[d]|
    ensures PageHolds(c, Grown(c, l, i, created, strait), WithRef(c, l, i, created, strait, made), d, j)
  {
    if j == |l[d]| {
      var e := d - 1;
      assert SiblingAt(c, l, created, strait, before, made, e);
      assert PageHolds(c, l, before, i, LastIndex(c, l, i));
      NewPageHolds(c, l, Grown(c, l, i, created, strait), created, strait, WithRef(c, l, i, created, strait, made), d);
    } else if d == i && j == LastIndex(c, l, d) {
      TopPageHolds(c, l, i, created, strait, before, made);
    } else {
      OldPageHolds(c, l, i, created, strait, before, made, d, j);
    }
  }

  lemma NewPageHolds(c: Config, l: Levels, g: Levels, created: seq<Pid>, strait: Pid, after: Pages, d: nat)
    requires Sized(c, l) && Sized(c, g) && 0 < d <= c.depth && |created| == c.depth && FullFrom(c, l, d)
    requires g[d] == l[d] + [created[d - 1]] && g[d + 1] == l[d + 1] + [NewItem(c, created, strait, d)]
    requires created[d - 1] in after && IsSibling(c, l, created, strait, d, after[created[d - 1]])
    ensures PageHolds(c, g, after, d, |l[d]|)
  {
    assert LevelFull(c, l, d);
    if d < c.depth {
      FullStart(c, l, d + 1);
    }
    SingleRefHolds(c, g, after, d);
  }

  /** A last page with one reference, naming the last item of the level below. */
  lemma SingleRefHolds(c: Config, g: Levels, pages: Pages, d: nat)
    requires Sized(c, g) && d <= c.depth && |g[d]| >= 1 && |g[d + 1]| >= 1
    requires |g[d + 1]| == (|g[d]| - 1) * c.refmax + 1
    requires LastPage(c, g, d) in pages && pages[LastPage(c, g, d)].depth == d
    requires pages[LastPage(c, g, d)].refs == [Ref(g[d + 1][|g[d + 1]| - 1], RefOff(c, d, |g[d + 1]| - 1))]
    ensures PageHolds(c, g, pages, d, |g[d]| - 1)
  {
  }

  lemma TopPageHolds(c: Config, l: Levels, i: nat, created: seq<Pid>, strait: Pid, before: Pages, made: Pages)
    requires Routed(c, l, before) && i <= c.depth && |created| == c.depth && RoomAt(c, l, i)
    requires SiblingsMade(c, l, i, created, strait, before, made)
    requires LastPage(c, l, i) in made && Sized(c, Grown(c, l, i, created, strait))
    ensures PageHolds(c, Grown(c, l, i, created, strait),
                      WithRef(c, l, i, created, strait, made), i, LastIndex(c, l, i))
  {
    assert PageHolds(c, l, before, i, LastIndex(c, l, i)) && LevelSized(c, l, i);
    if i < c.depth {
      FullStart(c, l, i + 1);
    }
  }

  lemma OldPageHolds(c: Config, l: Levels, i: nat, created: seq<Pid>, strait: Pid, before: Pages, made: Pages, d: nat,
                     j: nat)
    requires Routed(c, l, before) && i <= c.depth && |created| == c.depth && RoomAt(c, l, i)
    requires SiblingsMade(c, l, i, created, strait, before, made)
    requires LastPage(c, l, i) in made && Sized(c, Grown(c, l, i, created, strait))
    requires d <= c.depth && j < |l[d]| && !(d == i && j == LastIndex(c, l, d))
    ensures PageHolds(c, Grown(c, l, i, created, strait),
                      WithRef(c, l, i, created, strait, made), d, j)
  {
    var g := Grown(c, l, i, created, strait);
    assert PageHolds(c, l, before, d, j);
    if l[d][j] == LastPage(c, l, i) {
      PlacesDistinct(c, l, before, d, j, i, LastIndex(c, l, i));
      assert false;
    }
    StillHolds(c, l, g, before, WithRef(c, l, i, created, strait, made), d, j)
      by {
        assert d > i ==> LevelFull(c, l, d);
      }
  }

  /** An unchanged page keeps its place while its own level and the level below grow beyond it. */
  lemma StillHolds(c: Config, l: Levels, g: Levels, before: Pages, after: Pages, d: nat, j: nat)
    requires Sized(c, l) && Sized(c, g) && d <= c.depth && j < |l[d]|
    requires l[d] <= g[d] && l[d + 1] <= g[d + 1]
    requires |g[d]| > |l[d]| ==> |l[d + 1]| == |l[d]| * c.refmax
    requires |g[d + 1]| > |l[d + 1]| && |g[d]| == |l[d]| ==> j + 1 < |l[d]|
    requires PageHolds(c, l, before, d, j)
    requires l[d][j] in after && after[l[d][j]] == before[l[d][j]]
    ensures PageHolds(c, g, after, d, j)
  {
  }

  // ------------------------------------------------------------------ back references of the new pages

  /** `after` differs from `before` at most in the parents of its pages. */
  ghost predicate SameButParents(before: Pages, after: Pages) {
    forall p {:trigger p in after} {:trigger after[p]} ::
      p in before ==> p in after && after[p] == before[p].(parent := after[p].parent)
  }

  lemma RoutedSame(c: Config, l: Levels, before: Pages, after: Pages)
    requires Routed(c, l, before) && SameButParents(before, after)
    ensures Routed(c, l, after)
  {
    forall d, j | 0 <= d <= c.depth && 0 <= j < |l[d]|
      ensures PageHolds(c, l, after, d, j)
    {
      assert PageHolds(c, l, before, d, j);
    }
  }

  /** The parent that the page created for level `e + 1` must end up with. */
  ghost function NewParent(c: Config, l: Levels, i: nat, created: seq<Pid>, e: nat): Pid
    requires Sized(c, l) && i <= e < c.depth && |created| == c.depth
  {
    if e == i then LastPage(c, l, i) else created[e - 1]
  }

  ghost predicate ParentAt(c: Config, l: Levels, i: nat, created: seq<Pid>, pages: Pages, e: nat)
    requires Sized(c, l) && i <= e < c.depth && |created| == c.depth
  {
    created[e] in pages && pages[created[e]].parent == NewParent(c, l, i, created, e)
  }

  ghost predicate ParentsFixed(c: Config, l: Levels, i: nat, created: seq<Pid>, before: Pages, after: Pages)
    requires Sized(c, l) && i <= c.depth && |created| == c.depth
  {
    && (forall e :: i <= e < c.depth ==> ParentAt(c, l, i, created, after, e))
    && (forall p :: p in before && p in after ==> after[p].parent == before[p].parent)
  }

  /** Once the parents are written, the grown tree is linked as the old one was. */
  lemma LinkedGrown(c: Config, l: Levels, i: nat, created: seq<Pid>, strait: Pid, before: Pages, made: Pages,
                    after: Pages)
    requires Routed(c, l, before) && Linked(c, l, before)
    requires i <= c.depth && |created| == c.depth && RoomAt(c, l, i)
    requires SiblingsMade(c, l, i, created, strait, before, made)
    requires LastPage(c, l, i) in made && Sized(c, Grown(c, l, i, created, strait))
    requires SameButParents(WithRef(c, l, i, created, strait, made), after)
    requires ParentsFixed(c, l, i, created, before, after)
    ensures Linked(c, Grown(c, l, i, created, strait), after)
  {
    var g := Grown(c, l, i, created, strait);
    forall d, j | 0 <= d <= c.depth && 0 <= j < |g[d]|
      ensures HeadHolds(c, g, after, d, j)
    {
      GrownHeadHolds(c, l, i, created, strait, before, made, after, d, j);
    }
    forall d, j | 0 <= d < c.depth && 0 <= j < |g[d]|
      ensures ChildrenHold(after, g[d][j])
    {
      GrownChildrenHold(c, l, i, created, strait, before, made, after, d, j);
    }
    assert HeadHolds(c, l, before, 0, 0);
  }

  lemma GrownHeadHolds(c: Config, l: Levels, i: nat, created: seq<Pid>, strait: Pid, before: Pages, made: Pages,
                       after: Pages, d: nat, j: nat)
    requires Routed(c, l, before) && Linked(c, l, before)
    requires i <= c.depth && |created| == c.depth && RoomAt(c, l, i)
    requires SiblingsMade(c, l, i, created, strait, before, made)
    requires LastPage(c, l, i) in made && Sized(c, Grown(c, l, i, created, strait))
    requires SameButParents(WithRef(c, l, i, created, strait, made), after)
    requires d <= c.depth && j < |Grown(c, l, i, created, strait)[d]|
    ensures HeadHolds(c, Grown(c, l, i, created, strait), after, d, j)
  {
    if j == |l[d]| {
      var e := d - 1;
      assert SiblingAt(c, l, created, strait, before, made, e);
      assert PageHolds(c, l, before, i, LastIndex(c, l, i));
      FullStart(c, l, d);
    } else {
      assert HeadHolds(c, l, before, d, j);
    }
  }

  lemma GrownChildrenHold(c: Config, l: Levels, i: nat, created: seq<Pid>, strait: Pid, before: Pages, made: Pages,
                          after: Pages, d: nat, j: nat)
    requires Routed(c, l, before) && Linked(c, l, before)
    requires i <= c.depth && |created| == c.depth && RoomAt(c, l, i)
    requires SiblingsMade(c, l, i, created, strait, before, made)
    requires LastPage(c, l, i) in made && Sized(c, Grown(c, l, i, created, strait))
    requires SameButParents(WithRef(c, l, i, created, strait, made), after)
    requires ParentsFixed(c, l, i, created, before, after)
    requires d < c.depth && j < |Grown(c, l, i, created, strait)[d]|
    ensures ChildrenHold(after, Grown(c, l, i, created, strait)[d][j])
  {
    var top := LastPage(c, l, i);
    assert PageHolds(c, l, before, i, LastIndex(c, l, i));
    if j == |l[d]| {
      var e := d - 1;
      assert SiblingAt(c, l, created, strait, before, made, e);
      assert ParentAt(c, l, i, created, after, d);
      OnlyChildHolds(after, created[e], NewRef(c, l, created, strait, d));
    } else {
      assert ChildrenHold(before, l[d][j]);
      if l[d][j] == top {
        PlacesDistinct(c, l, before, d, j, i, LastIndex(c, l, i));
        assert ParentAt(c, l, i, created, after, i);
        KeepsChildren(before, after, top, [NewRef(c, l, created, strait, i)]);
      } else {
        KeepsChildren(before, after, l[d][j], []);
      }
    }
  }

  lemma OnlyChildHolds(pages: Pages, p: Pid, r: Ref)
    requires p in pages && pages[p].refs == [r] && r.ref in pages && pages[r.ref].parent == p
    ensures ChildrenHold(pages, p)
  {
  }

  /** A page whose references were only extended by children that name it keeps its children. */
  lemma KeepsChildren(before: Pages, after: Pages, p: Pid, more: seq<Ref>)
    requires ChildrenHold(before, p) && p in after && after[p].refs == before[p].refs + more
    requires forall q :: q in before ==> q in after && after[q].parent == before[q].parent
    requires forall k :: 0 <= k < |more| ==> more[k].ref in after && after[more[k].ref].parent == p
    ensures ChildrenHold(after, p)
  {
    forall k | 0 <= k < |after[p].refs|
      ensures after[p].refs[k].ref in after && after[after[p].refs[k].ref].parent == p
    {
      if k < |before[p].refs| {
        assert before[p].refs[k].ref in before;
      } else {
        assert after[p].refs[k] == more[k - |before[p].refs|];
      }
    }
  }
}
