/** The memory pool of the signal library: fixed-size blocks handed out from a free list that is
    refilled a few blocks at a time. */
module Pool {

  const CHUNK_SIZE: nat := 10240 * 8 * 4
  const OBJECT_COUNT: nat := 4

  /** Requests the pool itself serves; all others go to the system allocator. */
  predicate Pooled(size: nat) { 0 < size <= CHUNK_SIZE }

  /** What a caller is handed: nothing, a block of the pool, or memory of the system's. */
  datatype Memory = None | Chunk(block: Block) | System(size: nat)

  /** One object of the pool. The caller's bytes lie before the link, so a caller that stays within
      its size leaves the link alone. */
  class Block {
    var next: Block?

    constructor ()
      ensures next == null
    {
      next := null;
    }
  }

  ghost predicate Distinct(s: seq<Block>) {
    forall i, j :: 0 <= i < j < |s| ==> s[i] != s[j]
  }

  ghost function At(s: seq<Block>, i: nat): Block? {
    if i < |s| then s[i] else null
  }

  /** A null-terminated chain of distinct blocks. */
  ghost predicate Chain(s: seq<Block>)
    reads s
  {
    && Distinct(s)
    && forall i {:trigger s[i].next} :: 0 <= i < |s| ==> s[i].next == At(s, i + 1)
  }

  lemma ChainTail(s: seq<Block>)
    requires Chain(s) && s != []
    ensures Chain(s[1..]) && s[0].next == At(s[1..], 0) && s[0] !in s[1..]
  {
    var rest := s[1..];
    forall i | 0 <= i < |rest| ensures rest[i].next == At(rest, i + 1) {
      assert rest[i].next == s[i + 1].next;
    }
  }

  /** Blocks for one refill, all but the first linked for the free list. */
  method Refill() returns (first: Block, rest: Block, ghost chain: seq<Block>)
    ensures fresh(first) && fresh(rest) && fresh(chain)
    ensures |chain| == OBJECT_COUNT - 1 && chain[0] == rest && first !in chain
    ensures Chain(chain)
  {
    var objects: seq<Block> := [];
    while |objects| < OBJECT_COUNT
      invariant |objects| <= OBJECT_COUNT && fresh(objects) && Distinct(objects)
    {
      var o := new Block();
      objects := objects + [o];
    }
    for i := 1 to OBJECT_COUNT - 1
      invariant forall k {:trigger objects[k].next} :: 1 <= k < i ==> objects[k].next == objects[k + 1]
    {
      objects[i].next := objects[i + 1];
    }
    objects[OBJECT_COUNT - 1].next := null;
    first, rest, chain := objects[0], objects[1], objects[1..];
  }

  class FreeList {
    var head: Block?

    /** The free blocks from the head on, and the blocks callers hold. */
    ghost var free: seq<Block>
    ghost var live: set<Block>
    /** How often memory was fetched from the system, and the most blocks ever held at once. */
    ghost var refills: nat
    ghost var peak: nat

    ghost predicate Valid()
      reads this, free
    {
      && head == At(free, 0)
      && Chain(free)
      && (forall i :: 0 <= i < |free| ==> free[i] !in live)
      && |free| + |live| == OBJECT_COUNT * refills
      && |live| <= peak
      // the pool holds no more than the peak made necessary
      && OBJECT_COUNT * (refills - 1) < peak <= OBJECT_COUNT * refills
    }

    constructor ()
      ensures Valid() && free == [] && live == {} && refills == 0 && peak == 0
    {
      head := null;
      free, live, refills, peak := [], {}, 0, 0;
    }

    /** `granted` tells whether the system has memory when it is asked for some. */
    method Malloc(size: nat, granted: bool) returns (p: Memory)
      requires Valid()
      modifies this
      ensures Valid()
      ensures !Pooled(size) ==> p == if granted then System(size) else None
      ensures p.Chunk? ==> 1 <= size <= 327_680
      ensures 1 <= size <= 327_680 ==> !p.System?
      ensures !p.Chunk? ==> free == old(free) && live == old(live) && refills == old(refills) && peak == old(peak)
      ensures Pooled(size) ==> !p.System? && (p.None? <==> old(free) == [] && !granted)
      // a block nobody else holds: the one on top of the free list, or a new one
      ensures p.Chunk? ==> p.block !in old(live) && live == old(live) + {p.block}
      ensures p.Chunk? ==> peak == if |live| > old(peak) then |live| else old(peak)
      ensures p.Chunk? && old(free) != [] ==>
                [p.block] + free == old(free) && refills == old(refills)
      ensures p.Chunk? && old(free) == [] ==>
                |free| == OBJECT_COUNT - 1 && fresh(free) && fresh(p.block) && refills == old(refills) + 1
    {
      if !Pooled(size) {
        return if granted then System(size) else None;
      }
      var b := head;
      if b != null {
        ChainTail(free);
        head := b.next;
        free := free[1..];
      } else {
        if !granted { return None; }
        ghost var chain;
        b, head, chain := Refill();
        assert OBJECT_COUNT * (refills + 1) == OBJECT_COUNT * refills + OBJECT_COUNT;
        free, refills := chain, refills + 1;
      }
      assert b !in live;
      live := live + {b};
      peak := if |live| > peak then |live| else peak;
      p := Chunk(b);
    }

    /** Gives back what `Malloc` returned for the same size. */
    method Free(p: Memory, size: nat)
      requires Valid()
      requires p.Chunk? ==> Pooled(size) && p.block in live
      requires p.System? ==> !Pooled(size)
      modifies this, if p.Chunk? then {p.block} else {}
      ensures Valid() && refills == old(refills) && peak == old(peak)
      ensures p.Chunk? ==> free == [p.block] + old(free) && live == old(live) - {p.block}
      ensures !p.Chunk? ==> free == old(free) && live == old(live)
    {
      if p.None? || !Pooled(size) { return; }
      p.block.next := head;
      head := p.block;
      free, live := [p.block] + free, live - {p.block};
    }
  }

  /** A block given back is the next one handed out, and with it the pool is as it was. */
  method FreeThenMalloc(pool: FreeList, p: Memory, size: nat, again: nat) returns (q: Memory)
    requires pool.Valid() && p.Chunk? && p.block in pool.live && Pooled(size) && Pooled(again)
    modifies pool, p.block
    ensures pool.Valid() && q == p
    ensures pool.free == old(pool.free) && pool.live == old(pool.live) && pool.refills == old(pool.refills)
  {
    pool.Free(p, size);
    ghost var pushed := pool.free;
    q := pool.Malloc(again, false);
    assert pool.free == pushed[1..] == old(pool.free);
  }
}
