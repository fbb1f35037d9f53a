/**
  Reading and committing ranges of blocks in a volume whose pages are mapped, by a caller that
  holds the locks on the range.
 */
module Volume {
  import opened BlockMath
  import opened Commits

  /** A page of the file: the descriptor of a group, or the data of one block. */
  datatype Page = Descriptor(initialised: bool, vers: seq<nat>) | Data(content: Bytes)

  datatype Error = None | Invalid | Version

  // ------------------------------------------------------------------ pages as blocks

  ghost predicate PageOk(page: Page, p: nat) {
    if p % PAGES_PER_GROUP == 0 then
      page.Descriptor? && |page.vers| == BLOCKS_PER_GROUP && forall i :: 0 <= i < BLOCKS_PER_GROUP ==>
          page.vers[i] < VERSIONS
    else page.Data?
  }

  /** The volume is long enough for its blocks, and every page is what its place says. */
  ghost predicate PagesOk(pages: seq<Page>, blocks: nat) {
    && (blocks > 0 ==> Bid2Pid(blocks - 1) < |pages|)
    && forall p :: 0 <= p < |pages| ==> PageOk(pages[p], p)
  }

  lemma InVolume(bid: nat, blocks: nat, size: nat)
    requires bid < blocks && Bid2Pid(blocks - 1) < size
    ensures Bid2Pid(bid) < size && Bid2Gid(bid) * PAGES_PER_GROUP < size
    ensures Bid2Pid(bid) % PAGES_PER_GROUP != 0 && (Bid2Gid(bid) * PAGES_PER_GROUP) % PAGES_PER_GROUP == 0
  {
    PagesOfBlocks(bid);
    PagesIncrease(blocks - 1, bid);
    DescriptorFirst(bid);
  }

  ghost function BlockOf(pages: seq<Page>, blocks: nat, bid: nat): Block
    requires PagesOk(pages, blocks) && bid < blocks
  {
    InVolume(bid, blocks, |pages|);
    var p, d := Bid2Pid(bid), Bid2Gid(bid) * PAGES_PER_GROUP;
    assert PageOk(pages[p], p) && PageOk(pages[d], d);
    Block(pages[p].content, pages[d].vers[bid % BLOCKS_PER_GROUP])
  }

  ghost function BlocksOf(pages: seq<Page>, blocks: nat): (r: seq<Block>)
    requires PagesOk(pages, blocks)
    ensures |r| == blocks && forall b :: 0 <= b < blocks ==> r[b] == BlockOf(pages, blocks, b)
  {
    seq(blocks, b requires 0 <= b < blocks => BlockOf(pages, blocks, b))
  }

  /** Where a block's data and version are read. */
  lemma PagesOfBlock(pages: seq<Page>, blocks: nat, bid: nat)
    requires PagesOk(pages, blocks) && bid < blocks
    ensures var p, d := Bid2Pid(bid), Bid2Gid(bid) * PAGES_PER_GROUP;
            && p < |pages| && d < |pages| && pages[p].Data? && pages[d].Descriptor?
               && |pages[d].vers| == BLOCKS_PER_GROUP
            && BlocksOf(pages, blocks)[bid] == Block(pages[p].content, pages[d].vers[bid % BLOCKS_PER_GROUP])
  {
    InVolume(bid, blocks, |pages|);
    var p, d := Bid2Pid(bid), Bid2Gid(bid) * PAGES_PER_GROUP;
    assert PageOk(pages[p], p) && PageOk(pages[d], d);
  }

  lemma PutOk(pages: seq<Page>, blocks: nat, p: nat, page: Page)
    requires PagesOk(pages, blocks) && p < |pages| && PageOk(page, p)
    ensures PagesOk(pages[p := page], blocks)
  {
    var after := pages[p := page];
    forall q | 0 <= q < |pages|
      ensures PageOk(after[q], q)
    {
      assert PageOk(pages[q], q);
    }
  }

  /** Setting the flag of a group descriptor changes no block. */
  lemma FlagIsNoBlock(pages: seq<Page>, blocks: nat, p: nat)
    requires PagesOk(pages, blocks) && p < |pages| && p % PAGES_PER_GROUP == 0
    ensures pages[p].Descriptor?
    ensures var after := pages[p := Descriptor(true, pages[p].vers)];
            PagesOk(after, blocks) && BlocksOf(after, blocks) == BlocksOf(pages, blocks)
  {
    assert PageOk(pages[p], p);
    var after := pages[p := Descriptor(true, pages[p].vers)];
    PutOk(pages, blocks, p, after[p]);
    forall b | 0 <= b < blocks
      ensures BlockOf(after, blocks, b) == BlockOf(pages, blocks, b)
    {
      InVolume(b, blocks, |pages|);
    }
  }

  /** Writing a data page changes the data of one block. */
  lemma DataOfBlock(pages: seq<Page>, blocks: nat, bid: nat, content: Bytes)
    requires PagesOk(pages, blocks) && bid < blocks && Bid2Pid(bid) < |pages|
    ensures var after := pages[Bid2Pid(bid) := Data(content)];
            && PagesOk(after, blocks)
            && var was := BlocksOf(pages, blocks);
            BlocksOf(after, blocks) == was[bid := Block(content, was[bid].ver)]
  {
    InVolume(bid, blocks, |pages|);
    var after := pages[Bid2Pid(bid) := Data(content)];
    PutOk(pages, blocks, Bid2Pid(bid), Data(content));
    forall b | 0 <= b < blocks
      ensures BlockOf(after, blocks, b) ==
              if b == bid then Block(content, BlockOf(pages, blocks, b).ver) else BlockOf(pages, blocks, b)
    {
      InVolume(b, blocks, |pages|);
      PagesIncrease(b, bid);
      PagesIncrease(bid, b);
    }
  }

  /** Writing a version in a group descriptor changes the version of one block. */
  lemma VersionOfBlock(pages: seq<Page>, blocks: nat, bid: nat, ver: nat)
    requires PagesOk(pages, blocks) && bid < blocks && ver < VERSIONS
    ensures var d := Bid2Gid(bid) * PAGES_PER_GROUP;
            && d < |pages| && pages[d].Descriptor? && |pages[d].vers| == BLOCKS_PER_GROUP
            && var after := pages[d := Descriptor(pages[d].initialised, pages[d].vers[bid % BLOCKS_PER_GROUP := ver])];
            && PagesOk(after, blocks)
            && BlocksOf(after, blocks) == BlocksOf(pages, blocks)[bid := Block(BlocksOf(pages, blocks)[bid].data, ver)]
  {
    InVolume(bid, blocks, |pages|);
    var d := Bid2Gid(bid) * PAGES_PER_GROUP;
    assert PageOk(pages[d], d);
    var after := pages[d := Descriptor(pages[d].initialised, pages[d].vers[bid % BLOCKS_PER_GROUP := ver])];
    PutOk(pages, blocks, d, after[d]);
    forall b | 0 <= b < blocks
      ensures BlockOf(after, blocks, b) ==
              if b == bid then Block(BlockOf(pages, blocks, b).data, ver) else BlockOf(pages, blocks, b)
    {
      InVolume(b, blocks, |pages|);
      SamePlace(b, bid);
    }
  }

  lemma SamePlace(a: nat, b: nat)
    ensures Bid2Gid(a) * PAGES_PER_GROUP == Bid2Gid(b) * PAGES_PER_GROUP && a % BLOCKS_PER_GROUP == b % BLOCKS_PER_GROUP
            ==> a == b
  {
  }

  // ------------------------------------------------------------------ the volume

  /** Writes one element of a buffer. */
  method Put<T>(a: array<T>, i: nat, x: T)
    requires i < a.Length
    modifies a
    ensures a[..] == old(a[..])[i := x]
  {
    a[i] := x;
  }

  class Volume {
    const pages: array<Page>
    const blocks: nat

    ghost predicate Valid()
      reads pages
    {
      PagesOk(pages[..], blocks)
    }

    ghost function Blocks(): (r: seq<Block>)
      reads pages
      requires Valid()
      ensures |r| == blocks
    {
      BlocksOf(pages[..], blocks)
    }

    constructor (blocks: nat)
      ensures Valid() && this.blocks == blocks && fresh(pages)
      ensures pages.Length == if blocks == 0 then 0 else Bid2Pid(blocks - 1) + 1
      ensures forall p :: 0 <= p < pages.Length && pages[p].Descriptor? ==> !pages[p].initialised
      ensures forall b :: 0 <= b < blocks ==> Blocks()[b].ver == 0
    {
      var size := if blocks == 0 then 0 else Bid2Pid(blocks - 1) + 1;
      this.blocks := blocks;
      pages := new Page[size](p =>
        if p % PAGES_PER_GROUP == 0 then Descriptor(false, seq(BLOCKS_PER_GROUP, _ => 0)) else Data([]));
      new;
      forall p | 0 <= p < pages.Length
        ensures PageOk(pages[..][p], p)
      {
      }
    }

    /** Loads the descriptor of a group, setting it up if that was never done. */
    method GroupLoad(gid: nat)
      requires Valid() && gid * PAGES_PER_GROUP < pages.Length
      modifies pages
      ensures Valid() && Blocks() == old(Blocks())
      ensures pages[gid * PAGES_PER_GROUP].Descriptor? && pages[gid * PAGES_PER_GROUP].initialised
      ensures forall p :: 0 <= p < pages.Length && p != gid * PAGES_PER_GROUP ==> pages[p] == old(pages[p])
    {
      var p := gid * PAGES_PER_GROUP;
      assert PageOk(pages[..][p], p);
      if !pages[p].initialised {
        FlagIsNoBlock(pages[..], blocks, p);
        ghost var was := pages[..];
        pages[p] := Descriptor(true, pages[p].vers);
        assert pages[..] == was[p := pages[p]];
      }
    }

    /** The data of the block `i` behind block `bid`, which is in the same group. */
    method ReadData(ghost bid: nat, ghost i: nat, gid: nat, index: nat) returns (data: Bytes)
      requires Valid() && bid + i < blocks && gid == Bid2Gid(bid)
      requires index == bid % BLOCKS_PER_GROUP + i < BLOCKS_PER_GROUP
      ensures data == Blocks()[bid + i].data
    {
      InGroup(bid, i);
      PagesOfBlock(pages[..], blocks, bid + i);
      data := pages[gid * PAGES_PER_GROUP + METAPAGES_PER_GROUP + index].content;
    }

    /** Its version, from the descriptor of the group. */
    method ReadVersion(ghost bid: nat, ghost i: nat, gid: nat, index: nat) returns (ver: nat)
      requires Valid() && bid + i < blocks && gid == Bid2Gid(bid)
      requires index == bid % BLOCKS_PER_GROUP + i < BLOCKS_PER_GROUP
      ensures ver == Blocks()[bid + i].ver
    {
      InGroup(bid, i);
      PagesOfBlock(pages[..], blocks, bid + i);
      ver := pages[gid * PAGES_PER_GROUP].vers[index];
    }

    /** Reads the data of `count` blocks of one group to a buffer that already holds `at` blocks from `start` on. */
    method CopyData(ghost start: nat, at: nat, gid: nat, blockoff: nat, count: nat, dpagev: array<Bytes>)
      requires Valid() && start + at + count <= blocks && blockoff + count <= BLOCKS_PER_GROUP
      requires at + count <= dpagev.Length
      requires gid == Bid2Gid(start + at) && blockoff == (start + at) % BLOCKS_PER_GROUP
      requires GotData(dpagev[..], Blocks(), start, at)
      modifies dpagev
      ensures GotData(dpagev[..], Blocks(), start, at + count) && SameFrom(old(dpagev[..]), dpagev[..], at + count)
    {
      ghost var ps, bs := pages[..], Blocks();
      var i := 0;
      while i < count
        invariant pages[..] == ps
        invariant 0 <= i <= count && GotData(dpagev[..], bs, start, at + i)
        invariant SameFrom(old(dpagev[..]), dpagev[..], at + i)
      {
        var data := ReadData(start + at, i, gid, blockoff + i);
        ghost var was := dpagev[..];
        Put(dpagev, at + i, data);
        OneMoreData(was, bs, start, at + i, data);
        OneLess(old(dpagev[..]), was, at + i, data);
        i := i + 1;
      }
    }

    /** Reads the versions of `count` blocks of one group, in the same way. */
    method CopyVersions(ghost start: nat, at: nat, gid: nat, blockoff: nat, count: nat, verv: array<nat>)
      requires Valid() && start + at + count <= blocks && blockoff + count <= BLOCKS_PER_GROUP
      requires at + count <= verv.Length
      requires gid == Bid2Gid(start + at) && blockoff == (start + at) % BLOCKS_PER_GROUP
      requires GotVersions(verv[..], Blocks(), start, at)
      modifies verv
      ensures GotVersions(verv[..], Blocks(), start, at + count) && SameFrom(old(verv[..]), verv[..], at + count)
    {
      ghost var ps, bs := pages[..], Blocks();
      var i := 0;
      while i < count
        invariant pages[..] == ps
        invariant 0 <= i <= count && GotVersions(verv[..], bs, start, at + i)
        invariant SameFrom(old(verv[..]), verv[..], at + i)
      {
        var ver := ReadVersion(start + at, i, gid, blockoff + i);
        ghost var was := verv[..];
        Put(verv, at + i, ver);
        OneMoreVersion(was, bs, start, at + i, ver);
        OneLess(old(verv[..]), was, at + i, ver);
        i := i + 1;
      }
    }

    /** One turn of a copy: the data first, if there is a buffer for it, and then the versions. */
    method CopyFromGroup(ghost start: nat, at: nat, gid: nat, blockoff: nat, count: nat, dpagev: array?<Bytes>,
                         verv: array<nat>)
      requires Valid() && start + at + count <= blocks && blockoff + count <= BLOCKS_PER_GROUP
      requires at + count <= verv.Length
      requires gid == Bid2Gid(start + at) && blockoff == (start + at) % BLOCKS_PER_GROUP
      requires dpagev != null ==> at + count <= dpagev.Length && GotData(dpagev[..], Blocks(), start, at)
      requires GotVersions(verv[..], Blocks(), start, at)
      modifies dpagev, verv
      ensures dpagev != null ==>
                GotData(dpagev[..], Blocks(), start, at + count) && SameFrom(old(dpagev[..]), dpagev[..], at + count)
      ensures GotVersions(verv[..], Blocks(), start, at + count) && SameFrom(old(verv[..]), verv[..], at + count)
    {
      if dpagev != null {
        CopyData(start, at, gid, blockoff, count, dpagev);
      }
      CopyVersions(start, at, gid, blockoff, count, verv);
    }

    /**
      Copies `blockc` blocks from `start` on, group by group; without a data buffer only their
      versions. No blocks may be asked for anywhere but at the first block of a group, where the
      program has no turn and returns a value it never set.
     */
    method BlocksCopy(start: nat, blockc: nat, dpagev: array?<Bytes>, verv: array<nat>)
      requires Valid() && start + blockc <= blocks && (blockc >= 1 || start % BLOCKS_PER_GROUP != 0)
      requires blockc <= verv.Length && (dpagev != null ==> blockc <= dpagev.Length)
      modifies pages, dpagev, verv
      ensures Valid() && Blocks() == old(Blocks())
      ensures dpagev != null ==>
                GotData(dpagev[..], Blocks(), start, blockc) && SameFrom(old(dpagev[..]), dpagev[..], blockc)
      ensures GotVersions(verv[..], Blocks(), start, blockc) && SameFrom(old(verv[..]), verv[..], blockc)
    {
      var groupStart, groupc := Bid2Gid(start), GroupsNeeded(start, blockc);
      var copied, blockoff, g := 0, start % BLOCKS_PER_GROUP, 0;
      while g < groupc
        invariant 0 <= g <= groupc && copied == Before(start, blockc, g) <= blockc && blockoff == OffsetIn(start, g)
        invariant Valid() && Blocks() == old(Blocks())
        invariant dpagev != null ==>
                  GotData(dpagev[..], Blocks(), start, copied) && SameFrom(old(dpagev[..]), dpagev[..], copied)
        invariant GotVersions(verv[..], Blocks(), start, copied) && SameFrom(old(verv[..]), verv[..], copied)
      {
        TurnOfGroup(start, blockc, g);
        GroupThere(start, blockc, g, blocks, pages.Length);
        GroupLoad(groupStart + g);
        var inGroup := RemainingInGroup(blockc, copied, blockoff);
        CopyFromGroup(start, copied, groupStart + g, blockoff, inGroup, dpagev, verv);
        copied := copied + inGroup;
        blockoff := 0;
        g := g + 1;
      }
      TurnOfGroup(start, blockc, 0);
    }

    /** Finds the version of every block of a range: the group it is in, and its place there. */
    method GroupMap(start: nat, blockc: nat, groupc: nat) returns (blockv: seq<(nat, nat)>)
      requires Valid() && blockc >= 1 && start + blockc <= blocks && groupc == GroupsNeeded(start, blockc)
      modifies pages
      ensures Valid() && Blocks() == old(Blocks())
      ensures |blockv| == blockc && VersionPlaces(blockv, start)
    {
      blockv := [];
      var copied, blockoff, g := 0, start % BLOCKS_PER_GROUP, 0;
      while g < groupc
        invariant 0 <= g <= groupc && copied == Before(start, blockc, g) <= blockc && blockoff == OffsetIn(start, g)
        invariant Valid() && Blocks() == old(Blocks())
        invariant |blockv| == copied && VersionPlaces(blockv, start)
      {
        TurnOfGroup(start, blockc, g);
        PlacesInGroup(start, blockc, g, copied);
        InVolume(start + copied, blocks, pages.Length);
        GroupLoad(Bid2Gid(start) + g);
        var inGroup := RemainingInGroup(blockc, copied, blockoff);
        blockv := MapGroup(blockv, start, Bid2Gid(start) + g, blockoff, inGroup);
        copied := copied + inGroup;
        blockoff := 0;
        g := g + 1;
      }
      TurnOfGroup(start, blockc, 0);
    }

    static method MapGroup(mapped: seq<(nat, nat)>, ghost start: nat, gid: nat, blockoff: nat, count: nat)
      returns (blockv: seq<(nat, nat)>)
      requires VersionPlaces(mapped, start) && blockoff + count <= BLOCKS_PER_GROUP
      requires gid == Bid2Gid(start + |mapped|) && blockoff == (start + |mapped|) % BLOCKS_PER_GROUP
      ensures |blockv| == |mapped| + count && VersionPlaces(blockv, start)
    {
      blockv := mapped;
      var index := blockoff;
      while index < blockoff + count
        invariant blockoff <= index <= blockoff + count
        invariant |blockv| == |mapped| + (index - blockoff) && VersionPlaces(blockv, start)
      {
        InGroup(start + |mapped|, index - blockoff);
        blockv := blockv + [(gid, index)];
        index := index + 1;
      }
    }

    /** Maps the data page of every block of a range, one run of pages for each group. */
    method DataMap(start: nat, blockc: nat, groupc: nat) returns (pids: seq<nat>)
      requires blockc >= 1 && groupc == GroupsNeeded(start, blockc)
      ensures |pids| == blockc && forall k :: 0 <= k < blockc ==> pids[k] == Bid2Pid(start + k)
    {
      pids := [];
      var mapped, blockoff, g := 0, start % BLOCKS_PER_GROUP, 0;
      while g < groupc
        invariant 0 <= g <= groupc && mapped == Before(start, blockc, g) <= blockc && blockoff == OffsetIn(start, g)
        invariant |pids| == mapped && forall k :: 0 <= k < mapped ==> pids[k] == Bid2Pid(start + k)
      {
        TurnOfGroup(start, blockc, g);
        var inGroup := RemainingInGroup(blockc, mapped, blockoff);
        var first := (Bid2Gid(start) + g) * PAGES_PER_GROUP + METAPAGES_PER_GROUP + blockoff;
        var run := seq(inGroup, i requires 0 <= i < inGroup => first + i);
        var more := pids + run;
        forall k | mapped <= k < |more|
          ensures more[k] == Bid2Pid(start + k)
        {
          PlacesInGroup(start, blockc, g, k);
        }
        pids := more;
        mapped := mapped + inGroup;
        blockoff := 0;
        g := g + 1;
      }
      TurnOfGroup(start, blockc, 0);
    }

    /** Reports the current version of one block of a range. */
    method FetchVersion(ghost start: nat, blockv: seq<(nat, nat)>, i: nat, bufferv: array<nat>) returns (ver: nat)
      requires Valid() && start + |blockv| <= blocks && VersionPlaces(blockv, start)
      requires i < |blockv| <= bufferv.Length
      modifies bufferv
      ensures ver == Blocks()[start + i].ver && bufferv[..] == old(bufferv[..])[i := ver]
    {
      ver := ReadVersion(start + i, 0, blockv[i].0, blockv[i].1);
      Put(bufferv, i, ver);
    }

    /** Compares the versions of a range with those a caller expects; all current versions are reported. */
    method CheckVersions(start: nat, blockv: seq<(nat, nat)>, userv: array<nat>, bufferv: array<nat>) returns (ok: bool)
      requires Valid() && start + |blockv| <= blocks && VersionPlaces(blockv, start)
      requires |blockv| <= userv.Length && |blockv| <= bufferv.Length && userv != bufferv
      modifies bufferv
      ensures ok <==> VersionsMatch(Blocks(), start, userv[..|blockv|])
      ensures GotVersions(bufferv[..], Blocks(), start, |blockv|) && SameFrom(old(bufferv[..]), bufferv[..], |blockv|)
    {
      ghost var ps, bs, users := pages[..], Blocks(), userv[..];
      ok := true;
      var i := 0;
      while i < |blockv|
        invariant 0 <= i <= |blockv| && pages[..] == ps && userv[..] == users
        invariant GotVersions(bufferv[..], bs, start, i) && SameFrom(old(bufferv[..]), bufferv[..], i)
        invariant ok <==> VersionsMatch(bs, start, users[..i])
      {
        ghost var was := bufferv[..];
        var ver := FetchVersion(start, blockv, i, bufferv);
        MatchMore(bs, start, users, i);
        if userv[i] != ver {
          ok := false;
        }
        OneMoreVersion(was, bs, start, i, ver);
        OneLess(old(bufferv[..]), was, i, ver);
        i := i + 1;
      }
      assert users[..|blockv|] == userv[..|blockv|];
    }

    /** Writes one block: its data, and then its next version. */
    method WriteBlock(bid: nat, pid: nat, place: (nat, nat), content: Bytes) returns (ver: nat)
      requires Valid() && bid < blocks && pid == Bid2Pid(bid) && place == (Bid2Gid(bid), bid % BLOCKS_PER_GROUP)
      modifies pages
      ensures Valid() && ver == Bumped(old(Blocks())[bid].ver)
      ensures Blocks() == old(Blocks())[bid := Block(content, ver)]
    {
      ghost var s0 := pages[..];
      PagesOfBlock(s0, blocks, bid);
      DataOfBlock(s0, blocks, bid, content);
      pages[pid] := Data(content);
      ghost var s1 := pages[..];
      assert s1 == s0[pid := Data(content)];
      PagesOfBlock(s1, blocks, bid);
      var d := place.0 * PAGES_PER_GROUP;
      ver := Bumped(pages[d].vers[place.1]);
      VersionOfBlock(s1, blocks, bid, ver);
      pages[d] := Descriptor(pages[d].initialised, pages[d].vers[place.1 := ver]);
      assert pages[..] == s1[d := pages[d]];
    }

    /**
      Commits a range if the caller's versions are still current. If they are not, nothing is
      written and the caller learns the current versions.
     */
    method CommitAttempt(start: nat, blockc: int, groupc: nat, userDatam: array<Bytes>, userv: array<nat>,
                         bufferv: array<nat>)
      returns (err: Error)
      requires Valid() && start + blockc <= blocks && (blockc > 0 ==> groupc == GroupsNeeded(start, blockc))
      requires blockc <= userDatam.Length && blockc <= userv.Length && blockc <= bufferv.Length && userv != bufferv
      modifies pages, bufferv
      ensures Valid()
      ensures err == Invalid <==> blockc <= 0
      ensures err == Version <==> blockc > 0 && !VersionsMatch(old(Blocks()), start, userv[..blockc])
      ensures err == None ==> Blocks() == Committed(old(Blocks()), start, userDatam[..blockc])
      ensures err != None ==> Blocks() == old(Blocks())
      ensures err != Invalid ==>
                GotVersions(bufferv[..], Blocks(), start, blockc) && SameFrom(old(bufferv[..]), bufferv[..], blockc)
    {
      if blockc <= 0 {
        return Invalid;
      }
      ghost var bs := Blocks();
      var blockv := GroupMap(start, blockc, groupc);
      var ok := CheckVersions(start, blockv, userv, bufferv);
      if !ok {
        return Version;
      }
      var pids := DataMap(start, blockc, groupc);
      WriteBlocks(start, blockv, pids, userDatam, bufferv);
      err := None;
    }

    method WriteBlocks(start: nat, blockv: seq<(nat, nat)>, pids: seq<nat>, userDatam: array<Bytes>,
                       bufferv: array<nat>)
      requires Valid() && start + |blockv| <= blocks && VersionPlaces(blockv, start)
      requires |pids| == |blockv| && forall k :: 0 <= k < |pids| ==> pids[k] == Bid2Pid(start + k)
      requires |blockv| <= userDatam.Length && |blockv| <= bufferv.Length
      modifies pages, bufferv
      ensures Valid() && Blocks() == Committed(old(Blocks()), start, userDatam[..|blockv|])
      ensures GotVersions(bufferv[..], Blocks(), start, |blockv|) && SameFrom(old(bufferv[..]), bufferv[..], |blockv|)
    {
      ghost var bs := Blocks();
      var i := 0;
      assert Committed(bs, start, []) == bs;
      while i < |blockv|
        invariant 0 <= i <= |blockv| && Valid()
        invariant Blocks() == Committed(bs, start, userDatam[..i])
        invariant GotVersions(bufferv[..], Committed(bs, start, userDatam[..i]), start, i)
        invariant SameFrom(old(bufferv[..]), bufferv[..], i)
      {
        ghost var was := bufferv[..];
        bufferv[i] := WriteBlock(start + i, pids[i], blockv[i], userDatam[i]);
        assert bufferv[..] == was[i := bufferv[i]];
        CommittedMore(bs, start, userDatam[..], i, was, bufferv[i]);
        OneLess(old(bufferv[..]), was, i, bufferv[i]);
        i := i + 1;
      }
    }
  }

  ghost predicate VersionPlaces(blockv: seq<(nat, nat)>, start: nat) {
    forall k :: 0 <= k < |blockv| ==> blockv[k] == (Bid2Gid(start + k), (start + k) % BLOCKS_PER_GROUP)
  }

  /** A commit of `i` blocks becomes one of `i + 1` blocks. */
  lemma CommittedMore(blocks: seq<Block>, start: nat, data: seq<Bytes>, i: nat, vers: seq<nat>, ver: nat)
    requires i < |data| && i < |vers| && start + i < |blocks| && ver == Bumped(blocks[start + i].ver)
    requires GotVersions(vers, Committed(blocks, start, data[..i]), start, i)
    ensures Committed(blocks, start, data[..i])[start + i].ver == blocks[start + i].ver
    ensures Committed(blocks, start, data[..i])[start + i := Block(data[i], ver)] ==
            Committed(blocks, start, data[..i + 1])
    ensures GotVersions(vers[i := ver], Committed(blocks, start, data[..i + 1]), start, i + 1)
  {
  }

  /** Nothing from position `n` on changed. */
  ghost predicate SameFrom<T>(was: seq<T>, now: seq<T>, n: nat) {
    |now| == |was| && forall j :: n <= j < |now| ==> now[j] == was[j]
  }

  /** A buffer holds the data of the `n` blocks from `start` on. */
  ghost predicate GotData(buffer: seq<Bytes>, blocks: seq<Block>, start: nat, n: nat) {
    && n <= |buffer| && start + n <= |blocks|
    && forall j :: 0 <= j < n ==> buffer[j] == blocks[start + j].data
  }

  /** A buffer holds the versions of the `n` blocks from `start` on. */
  ghost predicate GotVersions(buffer: seq<nat>, blocks: seq<Block>, start: nat, n: nat) {
    && n <= |buffer| && start + n <= |blocks|
    && forall j :: 0 <= j < n ==> buffer[j] == blocks[start + j].ver
  }

  lemma OneMoreData(was: seq<Bytes>, blocks: seq<Block>, start: nat, n: nat, data: Bytes)
    requires GotData(was, blocks, start, n) && n < |was| && start + n < |blocks| && data == blocks[start + n].data
    ensures GotData(was[n := data], blocks, start, n + 1)
  {
  }

  lemma OneMoreVersion(was: seq<nat>, blocks: seq<Block>, start: nat, n: nat, ver: nat)
    requires GotVersions(was, blocks, start, n) && n < |was| && start + n < |blocks| && ver == blocks[start + n].ver
    ensures GotVersions(was[n := ver], blocks, start, n + 1)
  {
  }

  lemma OneLess<T>(orig: seq<T>, was: seq<T>, n: nat, x: T)
    requires SameFrom(orig, was, n) && n < |was|
    ensures SameFrom(orig, was[n := x], n + 1)
  {
  }

  /** The volume has the group of every turn, and the blocks of the turn start where it says. */
  lemma GroupThere(start: nat, blockc: nat, g: nat, blocks: nat, size: nat)
    requires start + blockc <= blocks && (blockc >= 1 || start % BLOCKS_PER_GROUP != 0)
    requires g < GroupsNeeded(start, blockc)
    requires blocks > 0 ==> Bid2Pid(blocks - 1) < size
    ensures (Bid2Gid(start) + g) * PAGES_PER_GROUP < size
    ensures Bid2Gid(start + Before(start, blockc, g)) == Bid2Gid(start) + g
    ensures (start + Before(start, blockc, g)) % BLOCKS_PER_GROUP == OffsetIn(start, g)
  {
    if blockc == 0 {
      NotFirst(start);
      InVolume(start - 1, blocks, size);
    } else {
      TurnOfGroup(start, blockc, g);
      PlacesInGroup(start, blockc, g, Before(start, blockc, g));
      InVolume(start + Before(start, blockc, g), blocks, size);
    }
  }

  /** A block that is not the first of its group lies in the group of the one before it. */
  lemma NotFirst(bid: nat)
    requires bid % BLOCKS_PER_GROUP != 0
    ensures bid >= 1 && Bid2Gid(bid - 1) == Bid2Gid(bid) && GroupsNeeded(bid, 0) == 1
    ensures Before(bid, 0, 0) == 0 && OffsetIn(bid, 0) == bid % BLOCKS_PER_GROUP
  {
  }

  lemma InGroup(bid: nat, i: nat)
    requires bid % BLOCKS_PER_GROUP + i < BLOCKS_PER_GROUP
    ensures Bid2Gid(bid + i) == Bid2Gid(bid) && (bid + i) % BLOCKS_PER_GROUP == bid % BLOCKS_PER_GROUP + i
    ensures Bid2Pid(bid + i) == Bid2Gid(bid) * PAGES_PER_GROUP + METAPAGES_PER_GROUP + bid % BLOCKS_PER_GROUP + i
  {
  }
}
