/**
  One lookup of a chapter offset, as the sequence of page reads it makes. A reader
  holds only shared locks that appends do not conflict with, so between two of its
  steps the tree may grow.
 */
module LookupReader {
  import opened LookupTree
  import ObjectPages

  /**
    Where a reader stands: at reference `i` of a page with `below` levels beneath it,
    knowing the offset `self` at which that reference starts (used on the last level only).
   */
  datatype Reader = At(below: nat, page: Pid, i: nat, self: nat) | Found(pid: int) | Lost

  /** One iteration of the scan loop of a lookup, reading the tree as it is now. */
  function Step(pages: Pages, off: nat, r: Reader): Reader {
    if !r.At? then r
    else if r.page !in pages || r.i >= |pages[r.page].refs| then Lost
    else
      var refs := pages[r.page].refs;
      if r.below == 0 then
        if refs[r.i].off >= off then Found(refs[r.i].ref + (off - r.self))
        else At(0, r.page, r.i + 1, refs[r.i].off + 1)
      else if r.i + 1 == |refs| || refs[r.i + 1].off > off then
        At(r.below - 1, refs[r.i].ref, 0, refs[r.i].off)
      else At(r.below, r.page, r.i + 1, r.self)
  }

  /** The page at a chapter offset, straight from the list of straits. */
  ghost predicate IsPageAt(c: Config, l: Levels, off: nat, pid: int)
    requires Sized(c, l)
  {
    off < |ObjectPages.Concat(Straits(c, l), c.straitc)| && pid == ObjectPages.Concat(Straits(c, l), c.straitc)[off]
  }

  /** The reader is on the path to `off`. */
  ghost predicate OnPath(c: Config, l: Levels, off: nat, r: Reader)
    requires Sized(c, l)
  {
    match r
    case Lost => false
    case Found(pid) => IsPageAt(c, l, off, pid)
    case At(below, page, i, self) =>
      below <= c.depth && exists j :: 0 <= j < |l[c.depth - below]| && AtPlace(c, l, off, r, j)
  }

  ghost predicate AtPlace(c: Config, l: Levels, off: nat, r: Reader, j: nat)
    requires Sized(c, l) && r.At? && r.below <= c.depth && j < |l[c.depth - r.below]|
  {
    var d := c.depth - r.below;
    && l[d][j] == r.page
    && off < StartOff(c, d, j + 1)
    && StartOff(c, d + 1, j * c.refmax + r.i) <= off
    && (r.below == 0 ==> r.self == StartOff(c, d + 1, j * c.refmax + r.i))
  }

  lemma {:induction false} EndCovers(c: Config, l: Levels, d: nat)
    requires Sized(c, l) && d <= c.depth + 1
    ensures StartOff(c, d, |l[d]|) >= |Straits(c, l)| * c.straitc
    decreases c.depth + 1 - d
  {
    if d <= c.depth {
      EndCovers(c, l, d + 1);
      assert LevelSized(c, l, d);
      if |l[d + 1]| < |l[d]| * c.refmax {
        StartMonotone(c, d + 1, |l[d + 1]|, |l[d]| * c.refmax);
      }
    }
  }

  /** A reader that stands at a place of a routed tree has not run past the references of its page. */
  lemma {:induction false} InRange(c: Config, l: Levels, pages: Pages, off: nat, r: Reader, j: nat)
    requires Routed(c, l, pages) && off < |Straits(c, l)| * c.straitc
    requires r.At? && r.below <= c.depth && j < |l[c.depth - r.below]| && AtPlace(c, l, off, r, j)
    ensures r.page in pages && r.i < |pages[r.page].refs|
    ensures r.i + 1 == |pages[r.page].refs| ==> off < StartOff(c, c.depth - r.below + 1, j * c.refmax + r.i + 1)
  {
    var d := c.depth - r.below;
    assert PageHolds(c, l, pages, d, j);
    var n := |pages[r.page].refs|;
    if j + 1 < |l[d]| {
      assert j * c.refmax + n == (j + 1) * c.refmax;
      assert off < StartOff(c, d + 1, j * c.refmax + n);
    } else {
      EndCovers(c, l, d + 1);
      assert off < StartOff(c, d + 1, j * c.refmax + n);
    }
    if r.i > n {
      StartMonotone(c, d + 1, j * c.refmax + n, j * c.refmax + r.i);
    }
  }

  lemma OnPathInRange(c: Config, l: Levels, pages: Pages, off: nat, r: Reader)
    requires Routed(c, l, pages) && off < |Straits(c, l)| * c.straitc && r.At? && OnPath(c, l, off, r)
    ensures r.page in pages && r.i < |pages[r.page].refs|
  {
    var j :| 0 <= j < |l[c.depth - r.below]| && AtPlace(c, l, off, r, j);
    InRange(c, l, pages, off, r, j);
  }

  /** Every step of a reader on a routed tree stays on the path to its offset. */
  lemma StepOnPath(c: Config, l: Levels, pages: Pages, off: nat, r: Reader)
    requires Routed(c, l, pages) && off < |Straits(c, l)| * c.straitc && OnPath(c, l, off, r)
    ensures OnPath(c, l, off, Step(pages, off, r))
  {
    if r.At? {
      var j :| 0 <= j < |l[c.depth - r.below]| && AtPlace(c, l, off, r, j);
      InRange(c, l, pages, off, r, j);
      if r.below == 0 {
        LeafStep(c, l, pages, off, r, j);
      } else {
        BranchStep(c, l, pages, off, r, j);
      }
    }
  }

  lemma BranchStep(c: Config, l: Levels, pages: Pages, off: nat, r: Reader, j: nat)
    requires Routed(c, l, pages) && off < |Straits(c, l)| * c.straitc
    requires r.At? && 0 < r.below <= c.depth && j < |l[c.depth - r.below]| && AtPlace(c, l, off, r, j)
    ensures OnPath(c, l, off, Step(pages, off, r))
  {
    InRange(c, l, pages, off, r, j);
    var d := c.depth - r.below;
    assert PageHolds(c, l, pages, d, j);
    var k := j * c.refmax + r.i;
    var refs := pages[r.page].refs;
    assert refs[r.i] == Ref(l[d + 1][k], StartOff(c, d + 1, k));
    if r.i + 1 < |refs| && refs[r.i + 1].off <= off {
      assert refs[r.i + 1].off == RefOff(c, d, k + 1);
      assert AtPlace(c, l, off, At(r.below, r.page, r.i + 1, r.self), j);
    } else {
      if r.i + 1 < |refs| {
        assert refs[r.i + 1].off == RefOff(c, d, k + 1);
      }
      EnterChild(c, l, off, d + 1, k);
    }
  }

  /** A reader entering the page that covers its offset is on its path. */
  lemma EnterChild(c: Config, l: Levels, off: nat, d: nat, k: nat)
    requires Sized(c, l) && 0 < d <= c.depth && k < |l[d]|
    requires StartOff(c, d, k) <= off < StartOff(c, d, k + 1)
    ensures OnPath(c, l, off, At(c.depth - d, l[d][k], 0, StartOff(c, d, k)))
  {
    assert StartOff(c, d, k) == StartOff(c, d + 1, k * c.refmax);
    assert AtPlace(c, l, off, At(c.depth - d, l[d][k], 0, StartOff(c, d, k)), k);
  }

  lemma LeafStep(c: Config, l: Levels, pages: Pages, off: nat, r: Reader, j: nat)
    requires Routed(c, l, pages) && off < |Straits(c, l)| * c.straitc
    requires r.At? && r.below == 0 && j < |l[c.depth]| && AtPlace(c, l, off, r, j)
    ensures OnPath(c, l, off, Step(pages, off, r))
  {
    InRange(c, l, pages, off, r, j);
    assert PageHolds(c, l, pages, c.depth, j);
    var k := j * c.refmax + r.i;
    assert pages[r.page].refs[r.i] == Ref(l[c.depth + 1][k], k * c.straitc + (c.straitc - 1));
    var next := Step(pages, off, r);
    if next.At? {
      assert next.self == (k + 1) * c.straitc;
      assert AtPlace(c, l, off, next, j);
    } else {
      ObjectPages.ConcatAt(Straits(c, l), c.straitc, k, off - r.self);
    }
  }

  /** A lookup starts at the root. */
  function Start(c: Config, root: Pid): Reader {
    At(c.depth, root, 0, 0)
  }

  lemma StartOnPath(c: Config, l: Levels, off: nat)
    requires Sized(c, l) && off < |Straits(c, l)| * c.straitc
    ensures OnPath(c, l, off, Start(c, l[0][0]))
  {
    EndCovers(c, l, 0);
    StartZero(c, 1);
    assert AtPlace(c, l, off, Start(c, l[0][0]), 0);
  }

  // ------------------------------------------------------------------ readers among appends

  /** The byte of the file locked to read the references of a page, and the one locked to add a reference. */
  function ExistingByte(pagesize: nat, page: Pid): nat {
    pagesize * page
  }

  function NewByte(pagesize: nat, page: Pid): nat {
    pagesize * page + 1
  }

  /** The two are never the same byte, whichever pages they are for: readers and appends do not wait for each other. */
  lemma LockBytesApart(pagesize: nat, a: Pid, b: Pid)
    requires pagesize >= 2
    ensures ExistingByte(pagesize, a) != NewByte(pagesize, b)
  {
    assert pagesize * a - pagesize * b == pagesize * (a - b);
  }

  /** The file after one write of an append: the lookup pages, the levels they route, and what the entry says. */
  datatype Snapshot = Snapshot(pages: Pages, levels: Levels, ref1: Pid, ref0c: nat)

  /** The entry names the root, and counts no page that the tree does not route. */
  ghost predicate Counted(c: Config, l: Levels, ref1: Pid, ref0c: nat) {
    Sized(c, l) && ref1 == l[0][0] && ref0c <= |Straits(c, l)| * c.straitc
  }

  lemma CountedGrown(c: Config, a: Levels, b: Levels, ref1: Pid, ref0c: nat)
    requires Counted(c, a, ref1, ref0c) && Sized(c, b) && Extends(a, b)
    ensures Counted(c, b, ref1, ref0c)
  {
    ObjectPages.MulMonotone(|Straits(c, a)|, |Straits(c, b)|, c.straitc);
  }

  /** Levels only ever grow at their right ends. */
  ghost predicate Extends(a: Levels, b: Levels) {
    |a| == |b| && forall d :: 0 <= d < |a| ==> a[d] <= b[d]
  }

  /** What every history of writes to one tree satisfies. */
  ghost predicate GoodHistory(c: Config, h: seq<Snapshot>) {
    && (forall t :: 0 <= t < |h| ==> RoutedAt(c, h, t))
    && (forall t, u :: 0 <= t <= u < |h| ==> GrownBetween(h, t, u))
  }

  ghost predicate RoutedAt(c: Config, h: seq<Snapshot>, t: nat)
    requires t < |h|
  {
    Routed(c, h[t].levels, h[t].pages) && Counted(c, h[t].levels, h[t].ref1, h[t].ref0c)
  }

  ghost predicate GrownBetween(h: seq<Snapshot>, t: nat, u: nat)
    requires t < |h| && u < |h|
  {
    Extends(h[t].levels, h[u].levels)
  }

  lemma HistoryGrows(c: Config, h: seq<Snapshot>, s: Snapshot)
    requires GoodHistory(c, h) && Routed(c, s.levels, s.pages) && Counted(c, s.levels, s.ref1, s.ref0c)
    requires h != [] ==> Extends(h[|h| - 1].levels, s.levels)
    ensures GoodHistory(c, h + [s])
  {
    var g := h + [s];
    forall t | 0 <= t < |g|
      ensures RoutedAt(c, g, t)
    {
      assert t < |h| ==> RoutedAt(c, h, t);
    }
    forall t, u | 0 <= t <= u < |g|
      ensures GrownBetween(g, t, u)
    {
      if t < |h| {
        assert GrownBetween(h, t, if u < |h| then u else |h| - 1);
      }
    }
  }

  lemma {:induction false} ConcatPrefix(a: seq<Pid>, b: seq<Pid>, n: nat, off: nat)
    requires a <= b && n >= 1 && off < |a| * n
    ensures off < |ObjectPages.Concat(a, n)| && off < |ObjectPages.Concat(b, n)|
    ensures ObjectPages.Concat(a, n)[off] == ObjectPages.Concat(b, n)[off]
  {
    var k, r := ObjectPages.SplitOffset(off, n, |a|);
    ObjectPages.ConcatAt(a, n, k, r);
    ObjectPages.ConcatAt(b, n, k, r);
  }

  /** Growth takes no reader off its path. */
  lemma GrowthKeepsPath(c: Config, a: Levels, b: Levels, off: nat, r: Reader)
    requires Sized(c, a) && Sized(c, b) && Extends(a, b)
    requires off < |Straits(c, a)| * c.straitc && OnPath(c, a, off, r)
    ensures off < |Straits(c, b)| * c.straitc && OnPath(c, b, off, r)
  {
    ObjectPages.MulMonotone(|Straits(c, a)|, |Straits(c, b)|, c.straitc);
    match r
    case Lost =>
    case Found(pid) =>
      ConcatPrefix(Straits(c, a), Straits(c, b), c.straitc, off);
    case At(below, page, i, self) =>
      var j :| 0 <= j < |a[c.depth - below]| && AtPlace(c, a, off, r, j);
      assert AtPlace(c, b, off, r, j);
  }

  /** A run of one reader: step `m` reads the tree as it is at time `times[m]`. */
  ghost predicate ReaderRun(c: Config, h: seq<Snapshot>, times: seq<nat>, rs: seq<Reader>, off: nat) {
    && |rs| == |times| + 1
    && (forall m :: 0 <= m < |times| ==> times[m] < |h|)
    && (forall m, n :: 0 <= m <= n < |times| ==> times[m] <= times[n])
    && (forall m :: 0 <= m < |times| ==> rs[m + 1] == Step(h[times[m]].pages, off, rs[m]))
  }

  lemma {:induction false} RunOnPath(c: Config, h: seq<Snapshot>, first: nat, times: seq<nat>, rs: seq<Reader>,
                                     off: nat, m: nat)
    requires GoodHistory(c, h) && ReaderRun(c, h, times, rs, off) && first < |h| && m <= |times|
    requires times != [] ==> first <= times[0]
    requires rs[0] == Start(c, h[first].ref1) && off < h[first].ref0c
    ensures var t := if m == 0 then first else times[m - 1];
            RoutedAt(c, h, t) && off < |Straits(c, h[t].levels)| * c.straitc && OnPath(c, h[t].levels, off, rs[m])
  {
    assert RoutedAt(c, h, first);
    if m == 0 {
      StartOnPath(c, h[first].levels, off);
    } else {
      RunOnPath(c, h, first, times, rs, off, m - 1);
      var t := if m == 1 then first else times[m - 2];
      var u := times[m - 1];
      assert RoutedAt(c, h, t) && RoutedAt(c, h, u) && GrownBetween(h, t, u);
      GrowthKeepsPath(c, h[t].levels, h[u].levels, off, rs[m - 1]);
      StepOnPath(c, h[u].levels, h[u].pages, off, rs[m - 1]);
      assert rs[m] == Step(h[times[m - 1]].pages, off, rs[m - 1]);
    }
  }

  /** An upper bound on the steps that a reader still has before it. */
  ghost function Work(c: Config, r: Reader): nat {
    if r.At? then r.below * c.refmax + (if r.i <= c.refmax then c.refmax - r.i else 0) else 0
  }

  lemma StepProgress(c: Config, l: Levels, pages: Pages, off: nat, r: Reader)
    requires Routed(c, l, pages) && off < |Straits(c, l)| * c.straitc && OnPath(c, l, off, r)
    ensures r.At? && Step(pages, off, r).At? ==> Work(c, Step(pages, off, r)) < Work(c, r)
  {
    if r.At? {
      var j :| 0 <= j < |l[c.depth - r.below]| && AtPlace(c, l, off, r, j);
      InRange(c, l, pages, off, r, j);
      assert PageHolds(c, l, pages, c.depth - r.below, j);
      assert LevelSized(c, l, c.depth - r.below);
      ObjectPages.MulStep(j, c.refmax);
      if r.below > 0 {
        ObjectPages.MulStep(r.below - 1, c.refmax);
      }
    }
  }

  lemma {:induction false} RunProgress(c: Config, h: seq<Snapshot>, first: nat, times: seq<nat>, rs: seq<Reader>,
                                       off: nat, m: nat)
    requires GoodHistory(c, h) && ReaderRun(c, h, times, rs, off) && first < |h| && m <= |times|
    requires times != [] ==> first <= times[0]
    requires rs[0] == Start(c, h[first].ref1) && off < h[first].ref0c
    ensures rs[m].At? ==> Work(c, rs[m]) + m <= (c.depth + 1) * c.refmax
  {
    if m == 0 {
      assert (c.depth + 1) * c.refmax == c.depth * c.refmax + c.refmax;
    } else {
      RunProgress(c, h, first, times, rs, off, m - 1);
      RunOnPath(c, h, first, times, rs, off, m - 1);
      var t := if m == 1 then first else times[m - 2];
      var u := times[m - 1];
      assert RoutedAt(c, h, t) && RoutedAt(c, h, u) && GrownBetween(h, t, u);
      GrowthKeepsPath(c, h[t].levels, h[u].levels, off, rs[m - 1]);
      StepProgress(c, h[u].levels, h[u].pages, off, rs[m - 1]);
      assert rs[m] == Step(h[times[m - 1]].pages, off, rs[m - 1]);
    }
  }

  /**
    A lookup that read an entry which already counted its offset, and whose steps are
    interleaved in any way with the writes of appends, is never lost, finds its page after
    at most `refmax` steps a level, and that page is the one that stood at the offset when it
    started.
   */
  lemma InterleavedLookup(c: Config, h: seq<Snapshot>, first: nat, times: seq<nat>, rs: seq<Reader>, off: nat)
    requires GoodHistory(c, h) && ReaderRun(c, h, times, rs, off) && first < |h|
    requires times != [] ==> first <= times[0]
    requires rs[0] == Start(c, h[first].ref1) && off < h[first].ref0c
    ensures !rs[|times|].Lost?
    ensures |times| > (c.depth + 1) * c.refmax ==> rs[|times|].Found?
    ensures RoutedAt(c, h, first) && (rs[|times|].Found? ==> IsPageAt(c, h[first].levels, off, rs[|times|].pid))
  {
    assert RoutedAt(c, h, first);
    RunOnPath(c, h, first, times, rs, off, |times|);
    RunProgress(c, h, first, times, rs, off, |times|);
    if times != [] {
      var u := times[|times| - 1];
      assert RoutedAt(c, h, first) && RoutedAt(c, h, u) && GrownBetween(h, first, u);
      ConcatPrefix(Straits(c, h[first].levels), Straits(c, h[u].levels), c.straitc, off);
    }
  }
}
