/** npr/chunk-alloc.c: a slab allocator with a free list threaded through the free slots. */
module ChunkAlloc {
  import opened Lists

  /** A slot of memory. Its first word is the allocator's `chain` while the slot is free and
      belongs to the client (for a list cell: `next`) while it is live. */
  class Slot {
    var link: Slot?
    var prev: Slot?
    var val: int

    constructor () {
    }
  }

  class Chunk {
    const data: seq<Slot>
    var chain: Chunk?

    constructor (data: seq<Slot>)
      ensures this.data == data && chain == null
    {
      this.data := data;
      chain := null;
    }
  }

  ghost function At(s: seq<Slot>, i: nat): Slot? {
    if i < |s| then s[i] else null
  }

  ghost function ChunkAt(s: seq<Chunk>, i: nat): Chunk? {
    if i < |s| then s[i] else null
  }

  /** `first` starts a null-terminated chain of exactly the slots `s`. */
  ghost predicate Linked(first: Slot?, s: seq<Slot>)
    reads s
  {
    && first == At(s, 0)
    && forall i :: 0 <= i < |s| ==> s[i].link == At(s, i + 1)
  }

  ghost predicate ChunksLinked(first: Chunk?, s: seq<Chunk>)
    reads s
  {
    && first == ChunkAt(s, 0)
    && forall i :: 0 <= i < |s| ==> s[i].chain == ChunkAt(s, i + 1)
  }

  function Product(n: int, k: int): int {
    n * k
  }

  lemma OneMore(n: int, k: int)
    ensures Product(n + 1, k) == Product(n, k) + k
  {
  }

  ghost function SlotsOf(chunks: seq<Chunk>): seq<Slot> {
    if chunks == [] then [] else chunks[0].data + SlotsOf(chunks[1..])
  }

  /** Raw memory for n slots. */
  method Malloc(n: nat) returns (buf: seq<Slot>)
    ensures |buf| == n && Distinct(buf) && fresh(buf)
  {
    buf := [];
    while |buf| < n
      invariant |buf| <= n && Distinct(buf) && fresh(buf)
    {
      var s := new Slot();
      buf := buf + [s];
    }
  }

  /** `alloc_chunk`: a new chunk whose slots are chained in address order. */
  method AllocChunk(chunkCount: int) returns (c: Chunk)
    requires chunkCount >= 1
    ensures fresh(c) && c.chain == null
    ensures |c.data| == chunkCount && Distinct(c.data) && fresh(c.data) && Linked(c.data[0], c.data)
  {
    var buf := Malloc(chunkCount);
    var i := 0;
    while i < chunkCount - 1
      invariant 0 <= i <= chunkCount - 1
      invariant forall j :: 0 <= j < i ==> buf[j].link == buf[j + 1]
    {
      buf[i].link := buf[i + 1];
      i := i + 1;
    }
    buf[chunkCount - 1].link := null;
    c := new Chunk(buf);
  }

  /** A new chunk at the head of the chunk list, apart from all slots there are. */
  method AddChunk(chunkCount: int, chunks: Chunk?, ghost blocks: seq<Chunk>, ghost slots: seq<Slot>) returns (c: Chunk)
    requires chunkCount >= 1
    requires ChunksLinked(chunks, blocks) && Distinct(blocks)
    requires slots == SlotsOf(blocks) && |slots| == Product(|blocks|, chunkCount)
    ensures fresh(c) && fresh(c.data)
    ensures ChunksLinked(c, [c] + blocks) && Distinct([c] + blocks)
    ensures |c.data| == chunkCount && Distinct(c.data) && Linked(c.data[0].link, c.data[1..])
    ensures Elems(c.data) !! Elems(slots)
    ensures c.data + slots == SlotsOf([c] + blocks) && |c.data + slots| == Product(|[c] + blocks|, chunkCount)
  {
    c := AllocChunk(chunkCount);
    c.chain := chunks;
    ChunksLinkedCons(c, chunks, blocks);
    LinkedTail(c.data[0], c.data);
    OneMore(|blocks|, chunkCount);
    assert ([c] + blocks)[1..] == blocks;
  }

  class ChunkAllocator {
    var top: Slot?
    var chunks: Chunk?
    var chunkCount: int

    ghost var free: seq<Slot>
    ghost var blocks: seq<Chunk>
    ghost var slots: seq<Slot>
    ghost var live: set<Slot>

    /** The free list is null-terminated and repeats nothing; free and live slots partition the
        slots of all chunks. The contents of live slots do not matter. */
    ghost predicate Valid()
      reads this, free, blocks
    {
      && chunkCount >= 1
      && Linked(top, free) && Distinct(free)
      && ChunksLinked(chunks, blocks) && Distinct(blocks)
      && slots == SlotsOf(blocks) && Distinct(slots) && |slots| == Product(|blocks|, chunkCount)
      && Elems(free) !! live && Elems(free) + live == Elems(slots)
    }

    constructor (chunkCount: int)
      requires chunkCount >= 1
      ensures Valid() && fresh(free) && fresh(blocks) && fresh(slots) && live == {}
      ensures this.chunkCount == chunkCount && |free| == chunkCount
    {
      var c := AllocChunk(chunkCount);
      top, chunks, this.chunkCount := c.data[0], c, chunkCount;
      free, blocks, slots, live := c.data, [c], c.data, {};
      new;
      OneMore(0, chunkCount);
      assert SlotsOf([c]) == c.data + SlotsOf([]);
    }

    /** Never a live slot: the one freed last, or the first of a new chunk when none is free. */
    method Alloc() returns (r: Slot)
      requires Valid()
      modifies this
      ensures Valid() && chunkCount == old(chunkCount)
      ensures r !in old(live) && live == old(live) + {r} && r !in free
      ensures forall s <- slots :: s in old(slots) || fresh(s)
      ensures if old(free) != [] then r == old(free)[0] && free == old(free)[1..] && blocks == old(blocks)
              else fresh(r) && fresh(free) && |free| == chunkCount - 1 && |blocks| == |old(blocks)| + 1
    {
      if top != null {
        r := top;
        TakeFirst(free);
        LinkedTail(top, free);
        top := r.link;
        free, live := free[1..], live + {r};
      } else {
        r := AllocFromNewChunk();
      }
    }

    /** The branch of `Alloc` without a free slot. */
    method AllocFromNewChunk() returns (r: Slot)
      requires Valid() && top == null
      modifies this
      ensures Valid() && chunkCount == old(chunkCount)
      ensures fresh(r) && live == old(live) + {r} && r !in free
      ensures forall s <- slots :: s in old(slots) || fresh(s)
      ensures fresh(free) && |free| == chunkCount - 1 && |blocks| == |old(blocks)| + 1
    {
      assert free == [] && live == Elems(slots);
      hide Linked, Elems, ChunksLinked, Distinct, Product, SlotsOf;
      var c := AddChunk(chunkCount, chunks, blocks, slots);
      NewChunkPartition(c.data, slots, live);
      r := c.data[0];
      chunks, top := c, r.link;
      free, blocks, slots, live := c.data[1..], [c] + blocks, c.data + slots, live + {r};
      assert Linked(top, free) && ChunksLinked(chunks, blocks);
      assert Distinct(free) && Distinct(blocks) && Distinct(slots);
    }

    method Free(e: Slot)
      requires Valid() && e in live
      modifies this`top, this`free, this`live, e`link
      ensures Valid()
      ensures free == [e] + old(free) && live == old(live) - {e}
    {
      PutFirst(e, free);
      e.link := top;
      assert Linked(top, free);
      LinkedCons(e, top, free);
      top := e;
      free, live := [e] + free, live - {e};
    }

    /** `npr_chunk_allocator_stat`: what is counted by walking adds up to what is live. */
    method Stat() returns (total: int, used: int, freeCount: int)
      requires Valid()
      ensures total == |blocks| * chunkCount && freeCount == |free| && used == |live|
      ensures freeCount + used == total
    {
      var n, c := 0, chunks;
      while c != null
        invariant 0 <= n <= |blocks| && c == ChunkAt(blocks, n)
        decreases |blocks| - n
      {
        c := c.chain;
        n := n + 1;
      }
      total := n * chunkCount;
      freeCount := 0;
      var e := top;
      while e != null
        invariant 0 <= freeCount <= |free| && e == At(free, freeCount)
        decreases |free| - freeCount
      {
        e := e.link;
        freeCount := freeCount + 1;
      }
      DistinctCount(free);
      DistinctCount(slots);
      used := total - freeCount;
    }
  }

  lemma TakeFirst(s: seq<Slot>)
    requires s != [] && Distinct(s)
    ensures Distinct(s[1..]) && Elems(s[1..]) == Elems(s) - {s[0]} && s[0] in Elems(s)
  {
    assert s == [s[0]] + s[1..];
  }

  /** All slots live, a chunk added, its first slot handed out: still a partition. */
  lemma NewChunkPartition(data: seq<Slot>, slots: seq<Slot>, live: set<Slot>)
    requires data != [] && Distinct(data) && Distinct(slots) && Elems(data) !! Elems(slots)
    requires live == Elems(slots)
    ensures Distinct(data + slots) && Distinct(data[1..])
    ensures Elems(data[1..]) !! live + {data[0]} && Elems(data[1..]) + (live + {data[0]}) == Elems(data + slots)
  {
    TakeFirst(data);
    JoinSlots(data, slots);
  }

  lemma LinkedTail(first: Slot?, s: seq<Slot>)
    requires Linked(first, s) && s != []
    ensures Linked(s[0].link, s[1..])
  {
  }

  lemma LinkedCons(e: Slot, first: Slot?, s: seq<Slot>)
    requires Linked(first, s) && e.link == first
    ensures Linked(e, [e] + s)
  {
  }

  lemma ChunksLinkedCons(c: Chunk, first: Chunk?, s: seq<Chunk>)
    requires ChunksLinked(first, s) && c.chain == first && Distinct(s) && c !in s
    ensures ChunksLinked(c, [c] + s) && Distinct([c] + s)
  {
  }

  lemma PutFirst(e: Slot, s: seq<Slot>)
    requires Distinct(s) && e !in Elems(s)
    ensures Distinct([e] + s) && Elems([e] + s) == Elems(s) + {e}
    ensures forall i :: 0 <= i < |s| ==> s[i] != e
  {
    forall i | 0 <= i < |s| ensures s[i] != e {
      assert s[i] in Elems(s);
    }
  }

  lemma JoinSlots(a: seq<Slot>, b: seq<Slot>)
    requires Distinct(a) && Distinct(b) && Elems(a) !! Elems(b)
    ensures Distinct(a + b) && Elems(a + b) == Elems(a) + Elems(b)
  {
    forall i, j | 0 <= i < |a| && 0 <= j < |b| ensures a[i] != b[j] {
      assert a[i] in Elems(a) && b[j] in Elems(b);
    }
  }
}
