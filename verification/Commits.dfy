/**
  The volume as a plain sequence of blocks, and what a series of commits makes of it.
 */
module Commits {

  /** The content of one page. */
  type Bytes = seq<bv8>

  datatype Block = Block(data: Bytes, ver: nat)

  const VERSIONS: nat := 0x1_0000_0000

  /** Block versions are counted in 32 bits. */
  function Bumped(ver: nat): nat {
    if ver + 1 == VERSIONS then 0 else ver + 1
  }

  /** Every block of a range gets new data and the next version. */
  function Committed(blocks: seq<Block>, start: nat, data: seq<Bytes>): (r: seq<Block>)
    ensures |r| == |blocks|
    ensures forall b :: 0 <= b < |r| ==>
              r[b] == if start <= b < start + |data| then Block(data[b - start], Bumped(blocks[b].ver)) else blocks[b]
  {
    seq(|blocks|, b requires 0 <= b < |blocks| =>
      if start <= b < start + |data| then Block(data[b - start], Bumped(blocks[b].ver)) else blocks[b])
  }

  /** The versions a caller expects are those of the range. */
  predicate VersionsMatch(blocks: seq<Block>, start: nat, vers: seq<nat>)
    requires start + |vers| <= |blocks|
  {
    forall k :: 0 <= k < |vers| ==> vers[k] == blocks[start + k].ver
  }

  lemma MatchMore(blocks: seq<Block>, start: nat, vers: seq<nat>, k: nat)
    requires k < |vers| && start + k < |blocks|
    ensures VersionsMatch(blocks, start, vers[..k + 1])
            <==> VersionsMatch(blocks, start, vers[..k]) && vers[k] == blocks[start + k].ver
  {
    assert vers[..k + 1] == vers[..k] + [vers[k]];
  }

  // ------------------------------------------------------------------ series of commits

  datatype Commit = Commit(start: nat, data: seq<Bytes>)

  predicate Covers(c: Commit, b: nat) {
    c.start <= b < c.start + |c.data|
  }

  /** The blocks after a series of commits, one after another. */
  function After(init: seq<Block>, log: seq<Commit>): (r: seq<Block>)
    ensures |r| == |init|
  {
    if log == [] then init
    else Committed(After(init, log[..|log| - 1]), log[|log| - 1].start, log[|log| - 1].data)
  }

  function CoverCount(log: seq<Commit>, b: nat): nat {
    if log == [] then 0 else CoverCount(log[..|log| - 1], b) + (if Covers(log[|log| - 1], b) then 1 else 0)
  }

  /** A block's version counts the commits that covered it, and wrapped around `q` times. */
  lemma {:induction false} VersionWraps(init: seq<Block>, log: seq<Commit>, b: nat) returns (q: nat)
    requires b < |init| && init[b].ver < VERSIONS
    ensures After(init, log)[b].ver < VERSIONS
    ensures After(init, log)[b].ver + q * VERSIONS == init[b].ver + CoverCount(log, b)
  {
    if log == [] {
      q := 0;
    } else {
      q := VersionWraps(init, log[..|log| - 1], b);
      if After(init, log)[b].ver + q * VERSIONS != init[b].ver + CoverCount(log, b) {
        q := q + 1;
      }
    }
  }

  lemma Remainder(n: nat, r: nat, q: nat)
    requires r < VERSIONS && r + q * VERSIONS == n
    ensures n % VERSIONS == r
  {
  }

  /** A block's version counts the commits that covered it, modulo 2^32. */
  lemma {:induction false} VersionCounts(init: seq<Block>, log: seq<Commit>, b: nat)
    requires b < |init| && init[b].ver < VERSIONS
    ensures After(init, log)[b].ver == (init[b].ver + CoverCount(log, b)) % VERSIONS
  {
    var q := VersionWraps(init, log, b);
    Remainder(init[b].ver + CoverCount(log, b), After(init, log)[b].ver, q);
  }

  /** Between two points of a series a block keeps its data if no commit covered it. */
  lemma {:induction false} UncoveredKeeps(init: seq<Block>, log: seq<Commit>, k: nat, b: nat)
    requires k <= |log| && b < |init|
    ensures CoverCount(log[..k], b) <= CoverCount(log, b)
    ensures CoverCount(log[..k], b) == CoverCount(log, b) ==> After(init, log[..k])[b] == After(init, log)[b]
  {
    if k == |log| {
      assert log[..k] == log;
    } else {
      var front := log[..|log| - 1];
      assert front[..k] == log[..k];
      UncoveredKeeps(init, front, k, b);
    }
  }

  lemma {:induction false} CoverCountBound(log: seq<Commit>, k: nat, b: nat)
    requires k <= |log|
    ensures CoverCount(log, b) - CoverCount(log[..k], b) <= |log| - k
  {
    if k == |log| {
      assert log[..k] == log;
    } else {
      var front := log[..|log| - 1];
      assert front[..k] == log[..k];
      CoverCountBound(front, k, b);
    }
  }

  lemma SameWrapped(v: nat, q: nat, x: nat, w: nat, r: nat, y: nat)
    requires v < VERSIONS && w < VERSIONS && v + q * VERSIONS == x <= y == w + r * VERSIONS
    ensures v == w <==> (y - x) % VERSIONS == 0
  {
    if v == w {
      Remainder(y - x, 0, r - q);
    } else if v < w {
      Remainder(y - x, w - v, r - q);
    } else {
      Remainder(y - x, VERSIONS + w - v, r - q - 1);
    }
  }

  /**
    Exactly when an old version passes for current: the commits that covered the block since
    then are a multiple of 2^32.
   */
  lemma {:induction false} SameVersionIff(init: seq<Block>, log: seq<Commit>, k: nat, b: nat)
    requires k <= |log| && b < |init| && init[b].ver < VERSIONS
    ensures CoverCount(log[..k], b) <= CoverCount(log, b)
    ensures After(init, log[..k])[b].ver == After(init, log)[b].ver
       <==> (CoverCount(log, b) - CoverCount(log[..k], b)) % VERSIONS == 0
  {
    var r := VersionWraps(init, log, b);
    var q := VersionWraps(init, log[..k], b);
    UncoveredKeeps(init, log, k, b);
    var x, y := init[b].ver + CoverCount(log[..k], b), init[b].ver + CoverCount(log, b);
    SameWrapped(After(init, log[..k])[b].ver, q, x, After(init, log)[b].ver, r, y);
    assert y - x == CoverCount(log, b) - CoverCount(log[..k], b);
  }

  lemma SmallMultiple(n: nat)
    requires n < VERSIONS && n % VERSIONS == 0
    ensures n == 0
  {
  }

  /**
    No update is lost: a block whose version is the same at two points of a series, with fewer
    than 2^32 commits between them, was covered by none of these commits and has the same data.
   */
  lemma {:induction false} SameVersionSameData(init: seq<Block>, log: seq<Commit>, k: nat, b: nat)
    requires k <= |log| && b < |init| && init[b].ver < VERSIONS && |log| - k < VERSIONS
    requires After(init, log[..k])[b].ver == After(init, log)[b].ver
    ensures After(init, log[..k])[b] == After(init, log)[b] && CoverCount(log[..k], b) == CoverCount(log, b)
  {
    SameVersionIff(init, log, k, b);
    CoverCountBound(log, k, b);
    SmallMultiple(CoverCount(log, b) - CoverCount(log[..k], b));
    UncoveredKeeps(init, log, k, b);
  }
}
