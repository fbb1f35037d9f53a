/**
  Where blocks live in a volume: groups of 1024 pages, of which the first describes the other
  1023, one block each.
 */
module BlockMath {

  const PAGES_PER_GROUP: nat := 1024
  const BLOCKS_PER_GROUP: nat := 1023
  const METAPAGES_PER_GROUP: nat := 1

  function Bid2Pid(bid: nat): nat {
    bid / BLOCKS_PER_GROUP * PAGES_PER_GROUP + bid % BLOCKS_PER_GROUP + METAPAGES_PER_GROUP
  }

  /** The block on a page that is not a group descriptor. */
  function Pid2Bid(pid: nat): nat
    requires pid % PAGES_PER_GROUP != 0
  {
    pid / PAGES_PER_GROUP * BLOCKS_PER_GROUP + pid % PAGES_PER_GROUP - METAPAGES_PER_GROUP
  }

  function Bid2Gid(bid: nat): nat {
    bid / BLOCKS_PER_GROUP
  }

  /** Blocks stand on exactly the pages that are not descriptors, each on its own. */
  lemma PagesOfBlocks(bid: nat)
    ensures Bid2Pid(bid) % PAGES_PER_GROUP != 0 && Pid2Bid(Bid2Pid(bid)) == bid
    ensures Bid2Pid(bid) / PAGES_PER_GROUP == Bid2Gid(bid)
  {
  }

  lemma BlocksOfPages(pid: nat)
    requires pid % PAGES_PER_GROUP != 0
    ensures Bid2Pid(Pid2Bid(pid)) == pid
  {
  }

  /** The descriptor of a group comes before its blocks. */
  lemma DescriptorFirst(bid: nat)
    ensures Bid2Gid(bid) * PAGES_PER_GROUP < Bid2Pid(bid)
    ensures (Bid2Gid(bid) * PAGES_PER_GROUP) % PAGES_PER_GROUP == 0
  {
  }

  /** Page order is block order. */
  lemma PagesIncrease(a: nat, b: nat)
    ensures a < b <==> Bid2Pid(a) < Bid2Pid(b)
  {
  }

  // ------------------------------------------------------------------ a range of blocks, group by group

  /** How many group descriptors a range needs; a range of no blocks has no end at the first block of a group. */
  function GroupsNeeded(start: nat, blockc: nat): nat
    requires blockc >= 1 || start % BLOCKS_PER_GROUP != 0
  {
    Bid2Gid(start + blockc - 1) - Bid2Gid(start) + 1
  }

  lemma GroupsBound(start: nat, blockc: nat)
    requires blockc >= 1
    ensures GroupsNeeded(start, blockc) <= (blockc + 1021) / 1023 + 1
  {
  }

  function RemainingInGroup(blockc: nat, mapped: nat, blockoff: nat): nat
    requires mapped <= blockc && blockoff <= BLOCKS_PER_GROUP
  {
    if blockoff + (blockc - mapped) > BLOCKS_PER_GROUP then BLOCKS_PER_GROUP - blockoff else blockc - mapped
  }

  /** How many of the blocks lie in the first `g` groups. */
  function Before(start: nat, blockc: nat, g: nat): nat {
    if g == 0 then 0
    else
      var most := g * BLOCKS_PER_GROUP - start % BLOCKS_PER_GROUP;
      if most < blockc then most else blockc
  }

  function OffsetIn(start: nat, g: nat): nat {
    if g == 0 then start % BLOCKS_PER_GROUP else 0
  }

  /** One turn of a loop over groups goes from one count to the next, and the last one ends at `blockc`. */
  lemma TurnOfGroup(start: nat, blockc: nat, g: nat)
    requires (blockc >= 1 || start % BLOCKS_PER_GROUP != 0) && g < GroupsNeeded(start, blockc)
    ensures Before(start, blockc, g) + RemainingInGroup(blockc, Before(start, blockc, g), OffsetIn(start, g)) ==
            Before(start, blockc, g + 1)
    ensures Before(start, blockc, GroupsNeeded(start, blockc)) == blockc
    ensures Before(start, blockc, g) <= Before(start, blockc, g + 1) <= blockc
    ensures blockc >= 1 ==> Before(start, blockc, g) < Before(start, blockc, g + 1)
  {
  }

  /** The blocks of one turn stand one after another on the pages of one group. */
  lemma PlacesInGroup(start: nat, blockc: nat, g: nat, k: nat)
    requires blockc >= 1 && g < GroupsNeeded(start, blockc)
    requires Before(start, blockc, g) <= k < Before(start, blockc, g + 1)
    ensures Bid2Gid(start + k) == Bid2Gid(start) + g
    ensures (start + k) % BLOCKS_PER_GROUP == OffsetIn(start, g) + (k - Before(start, blockc, g))
    ensures Bid2Pid(start + k) ==
            (Bid2Gid(start) + g) * PAGES_PER_GROUP + METAPAGES_PER_GROUP
            + OffsetIn(start, g) + (k - Before(start, blockc, g))
  {
  }
}
