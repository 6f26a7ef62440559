/** The arena that holds the AST: pieces of fixed-size blocks, handed out in order and
    never given back one by one. */
module Arenas {
  const POINTER_SIZE: nat := 8
  const BLOCK_SIZE: nat := 0x1_0000

  /** What one request was given. */
  datatype Region = Region(block: array<bv8>, start: nat, size: nat)

  ghost predicate Disjoint(a: Region, b: Region) {
    a.block != b.block || a.start + a.size <= b.start || b.start + b.size <= a.start
  }

  /** Inside one block and aligned. */
  ghost predicate WellPlaced(r: Region) {
    r.block.Length == BLOCK_SIZE && r.start % POINTER_SIZE == 0 && r.start + r.size <= BLOCK_SIZE
  }

  function RoundUp(bytes: nat): (r: nat)
    ensures r % POINTER_SIZE == 0 && bytes <= r < bytes + POINTER_SIZE
  {
    (bytes + POINTER_SIZE - 1) / POINTER_SIZE * POINTER_SIZE
  }

  ghost predicate PairwiseDisjoint(rs: seq<Region>) {
    forall i, j | 0 <= i < j < |rs| :: Disjoint(rs[i], rs[j])
  }

  ghost predicate AreBlocks(blocks: seq<array<bv8>>) {
    && (forall i | 0 <= i < |blocks| :: blocks[i].Length == BLOCK_SIZE)
    && (forall i, j | 0 <= i < j < |blocks| :: blocks[i] != blocks[j])
  }

  /** The regions lie in the blocks, and use `current` no further than `offset`. */
  ghost predicate Within(rs: seq<Region>, blocks: seq<array<bv8>>, current: array?<bv8>, offset: nat) {
    forall r | r in rs :: WellPlaced(r) && r.block in blocks && (r.block == current ==> r.start + r.size <= offset)
  }

  /** A new region behind everything that the current block holds. */
  lemma {:induction false} OneMoreRegion(
    rs: seq<Region>, blocks: seq<array<bv8>>, current: array<bv8>, offset: nat, size: nat)
    requires Within(rs, blocks, current, offset) && PairwiseDisjoint(rs) && current in blocks
    requires WellPlaced(Region(current, offset, size))
    ensures Within(rs + [Region(current, offset, size)], blocks, current, offset + size)
    ensures PairwiseDisjoint(rs + [Region(current, offset, size)])
  {
    assert forall i | 0 <= i < |rs| :: rs[i] in rs;
  }

  /** Going on to another block, of which nothing has been given. */
  lemma {:induction false} OneMoreBlock(
    rs: seq<Region>, blocks: seq<array<bv8>>, current: array?<bv8>, offset: nat, next: array<bv8>)
    requires Within(rs, blocks, current, offset) && next !in blocks
    ensures Within(rs, blocks + [next], next, 0)
  {
  }

  class Arena {
    var offset: nat
    var nextBlockIndex: nat
    var currentBlock: array?<bv8>
    var blocks: seq<array<bv8>>
    /** Every region handed out so far. */
    ghost var given: seq<Region>

    ghost predicate Valid()
      reads this
    {
      && offset <= BLOCK_SIZE && offset % POINTER_SIZE == 0 && nextBlockIndex <= |blocks|
      && AreBlocks(blocks)
      && (if nextBlockIndex == 0 then offset == BLOCK_SIZE && given == []
          else currentBlock == blocks[nextBlockIndex - 1])
      && Within(given, blocks[..nextBlockIndex], currentBlock, offset)
      && PairwiseDisjoint(given)
    }

    constructor ()
      ensures Valid() && given == [] && nextBlockIndex == |blocks| == 0
    {
      offset, nextBlockIndex, currentBlock, blocks, given := BLOCK_SIZE, 0, null, [], [];
    }

    /** A region of at least `bytes` bytes that no earlier region shares.  Before the first
        block exists there is nothing to point to for an empty request. */
    method New(bytes: nat) returns (block: array<bv8>, start: nat)
      requires Valid() && RoundUp(bytes) < BLOCK_SIZE && (bytes > 0 || nextBlockIndex > 0)
      modifies this
      ensures Valid() && given == old(given) + [Region(block, start, RoundUp(bytes))]
      ensures old(nextBlockIndex) == |old(blocks)| ==> nextBlockIndex == |blocks|
      ensures old(blocks) <= blocks && |blocks| <= |old(blocks)| + 1
    {
      var size := RoundUp(bytes);
      offset := offset + size;
      if offset > BLOCK_SIZE {
        if nextBlockIndex == |blocks| {
          var next := new bv8[BLOCK_SIZE];
          blocks := blocks + [next];
          currentBlock := next;
        } else {
          currentBlock := blocks[nextBlockIndex];
        }
        nextBlockIndex := nextBlockIndex + 1;
        offset := size;
        assert blocks[..nextBlockIndex] == old(blocks)[..old(nextBlockIndex)] + [currentBlock];
        OneMoreBlock(given, old(blocks)[..old(nextBlockIndex)], old(currentBlock), old(offset), currentBlock);
      }
      block, start := currentBlock, offset - size;
      OneMoreRegion(given, blocks[..nextBlockIndex], block, start, size);
      given := given + [Region(block, start, size)];
    }
  }

  /** Any sequence of requests: the regions are large enough, aligned, each in one block,
      and pairwise disjoint. */
  method Requests(sizes: seq<nat>) returns (regions: seq<Region>)
    requires forall n | n in sizes :: 0 < n && RoundUp(n) < BLOCK_SIZE
    ensures |regions| == |sizes|
    ensures forall i | 0 <= i < |sizes| :: WellPlaced(regions[i]) && regions[i].size >= sizes[i]
    ensures forall i, j | 0 <= i < j < |sizes| :: Disjoint(regions[i], regions[j])
  {
    var arena := new Arena();
    regions := [];
    for k := 0 to |sizes|
      invariant arena.Valid() && arena.given == regions && |regions| == k && fresh(arena)
      invariant arena.nextBlockIndex == |arena.blocks|
      invariant forall i | 0 <= i < k :: regions[i].size >= sizes[i]
    {
      var block, start := arena.New(sizes[k]);
      regions := regions + [Region(block, start, RoundUp(sizes[k]))];
    }
    assert forall i | 0 <= i < |regions| :: regions[i] in regions;
  }
}
