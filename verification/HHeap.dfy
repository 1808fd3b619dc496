/** A pool of blocks of one size: chunks of blocks, and a list of free blocks that is kept in the
    free blocks themselves. */
module HHeap {

  /** A pointer to a block: its chunk and its number in the chunk. */
  datatype Block = Null | At(chunk: Chunk, index: nat)

  /** A chunk: the next one, and the pointer that a free block holds in its first bytes. */
  class Chunk {
    const next: Chunk?
    const links: array<Block>

    constructor (next: Chunk?, count: nat)
      ensures this.next == next && fresh(links) && links.Length == count
    {
      this.next := next;
      links := new Block[count](_ => Null);
    }
  }

  /** How many blocks of a size a chunk has. */
  function PerChunk(size: nat): nat {
    if size < 32 then 2000 else if size < 128 then 800 else 100
  }

  ghost function Total(chunks: seq<Chunk>): nat {
    if chunks == [] then 0 else chunks[0].links.Length + Total(chunks[1..])
  }

  /** Chunk k, or none after the last. */
  function ChunkAt(chunks: seq<Chunk>, k: nat): Chunk? {
    if k < |chunks| then chunks[k] else null
  }

  /** The chunks are linked in this order, and no two share memory. */
  ghost predicate Linked(head: Chunk?, chunks: seq<Chunk>) {
    && head == ChunkAt(chunks, 0)
    && (forall k :: 0 <= k < |chunks| ==> chunks[k].next == ChunkAt(chunks, k + 1))
    && (forall k, l :: 0 <= k < l < |chunks| ==> chunks[k].links != chunks[l].links)
  }

  /** A block that has been handed out before: of all blocks of the first chunk, the last ones. */
  ghost predicate Used(b: Block, chunks: seq<Chunk>, remaining: nat) {
    b.At? && b.chunk in chunks && b.index < b.chunk.links.Length && (b.chunk == chunks[0] ==> b.index >= remaining)
  }

  ghost function Links(chunks: seq<Chunk>): set<object> {
    set c | c in chunks :: c.links
  }

  lemma OneMore(c: Chunk, chunks: seq<Chunk>)
    ensures Total([c] + chunks) == c.links.Length + Total(chunks)
  {
    assert ([c] + chunks)[1..] == chunks;
  }

  lemma {:induction false} TotalIs(chunks: seq<Chunk>, count: nat)
    requires forall c :: c in chunks ==> c.links.Length == count
    ensures Total(chunks) == count * |chunks|
    decreases |chunks|
  {
    if chunks != [] {
      TotalIs(chunks[1..], count);
      assert count * |chunks| == count + count * |chunks[1..]|;
    }
  }

  lemma LinkedMore(c: Chunk, head: Chunk?, chunks: seq<Chunk>)
    requires Linked(head, chunks) && c.next == head && forall d :: d in chunks ==> d.links != c.links
    ensures Linked(c, [c] + chunks)
  {
    var all := [c] + chunks;
    forall k | 0 <= k < |all| ensures all[k].next == ChunkAt(all, k + 1) {
      if k > 0 {
        assert chunks[k - 1].next == ChunkAt(chunks, k);
      }
    }
  }

  class Pool {
    var head: Chunk?
    var firstFree: Block
    var remaining: nat
    const size: nat

    ghost var chunks: seq<Chunk>
    ghost var free: seq<Block>
    ghost var live: set<Block>

    /** Free block k is in use by the list: it holds the pointer to the next one. */
    ghost predicate LinkAt(k: nat)
      requires k < |free|
      reads this, Links(chunks)
    {
      && Used(free[k], chunks, remaining)
      && free[k].chunk.links[free[k].index] == if k + 1 < |free| then free[k + 1] else Null
    }

    /** The free list is what the links say. */
    ghost predicate FreeList()
      reads this, Links(chunks)
    {
      firstFree == (if free == [] then Null else free[0]) && forall k :: 0 <= k < |free| ==> LinkAt(k)
    }

    ghost predicate Apart()
      reads this
    {
      && (forall b :: b in live ==> Used(b, chunks, remaining) && b !in free)
      && (forall k, l :: 0 <= k < l < |free| ==> free[k] != free[l])
    }

    /** Every chunk has as many blocks as there are in one of this size. */
    ghost predicate Sized()
      reads this
    {
      forall c :: c in chunks ==> c.links.Length == PerChunk(size)
    }

    /** Every block is live, free, or not used yet; a free one is on the list once. */
    ghost predicate Valid()
      reads this, Links(chunks)
    {
      && Linked(head, chunks) && FreeList() && Apart() && Sized()
      && (if chunks == [] then remaining == 0 else remaining <= chunks[0].links.Length)
      && |live| + |free| + remaining == Total(chunks)
    }

    constructor (size: nat)
      ensures Valid() && live == {} && chunks == [] && this.size == size
    {
      head, firstFree, remaining, this.size := null, Null, 0, size;
      chunks, free, live := [], [], {};
    }

    /** Hand out a block that is not in use: the one that became free last if there is one. */
    method Alloc() returns (p: Block)
      requires Valid()
      modifies this
      ensures Valid() && Used(p, chunks, remaining) && p !in old(live) && live == old(live) + {p}
      ensures old(free) != [] ==> p == old(free)[0] && free == old(free)[1..] && chunks == old(chunks)
      ensures old(free) == [] ==> free == [] && p == At(head, remaining)
      ensures old(free) == [] && old(remaining) > 0 ==> chunks == old(chunks) && remaining == old(remaining) - 1
      ensures old(free) == [] && old(remaining) == 0 ==>
        chunks == [head] + old(chunks) && fresh(head) && remaining == PerChunk(size) - 1
    {
      assert free != [] ==> LinkAt(0);
      if firstFree.At? {
        p := TakeFree();
      } else {
        if remaining == 0 {
          NewChunk();
        }
        p := TakeNext();
      }
    }

    method TakeFree() returns (p: Block)
      requires Valid() && free != []
      modifies this`firstFree, this`free, this`live
      ensures Valid() && Used(p, chunks, remaining) && p !in old(live) && live == old(live) + {p}
      ensures p == old(free)[0] && free == old(free)[1..]
    {
      hide Total, Linked;
      assert LinkAt(0);
      p := firstFree;
      firstFree := p.chunk.links[p.index];
      free := free[1..];
      live := live + {p};
      forall k | 0 <= k < |free| ensures LinkAt(k) {
        assert old(LinkAt(k + 1));
      }
    }

    method NewChunk()
      requires Valid() && free == [] && remaining == 0
      modifies this`head, this`chunks, this`remaining
      ensures Valid() && remaining == PerChunk(size) && fresh(head) && chunks == [head] + old(chunks)
    {
      var count := PerChunk(size);
      var c := new Chunk(head, count);
      LinkedMore(c, head, chunks);
      OneMore(c, chunks);
      head := c;
      chunks := [c] + chunks;
      remaining := count;
    }

    method TakeNext() returns (p: Block)
      requires Valid() && free == [] && remaining > 0
      modifies this`remaining, this`live
      ensures p == At(head, remaining) && remaining == old(remaining) - 1
      ensures Valid() && Used(p, chunks, remaining) && p !in old(live) && live == old(live) + {p}
    {
      remaining := remaining - 1;
      p := At(head, remaining);
      live := live + {p};
    }

    /** Take back a block: write the link into it as its owner could, then put it on the list. */
    method Free(p: Block)
      requires Valid() && p in live
      modifies this, p.chunk.links
      ensures Valid() && live == old(live) - {p} && free == [p] + old(free) && chunks == old(chunks)
    {
      Write(p, firstFree);
      Push(p);
    }

    method Push(p: Block)
      requires Valid() && p in live && p.chunk.links[p.index] == firstFree
      modifies this`firstFree, this`free, this`live
      ensures Valid() && live == old(live) - {p} && free == [p] + old(free)
    {
      hide Total, Linked;
      firstFree := p;
      free := [p] + free;
      live := live - {p};
      forall k | 0 <= k < |free| ensures LinkAt(k) {
        assert k > 0 ==> old(LinkAt(k - 1));
      }
    }

    /** What the owner of a block writes into it leaves the pool alone. */
    method Write(p: Block, value: Block)
      requires Valid() && p in live
      modifies p.chunk.links
      ensures Valid() && p.chunk.links[p.index] == value
    {
      p.chunk.links[p.index] := value;
      forall k | 0 <= k < |free| ensures LinkAt(k) {
        assert old(LinkAt(k));
        SameMemory(head, chunks, p, free[k]);
      }
    }

    /** The bytes of two live blocks of a chunk do not overlap, and they are among those that
        were allocated for the chunk, after its header. */
    lemma LiveApart(p: Block, q: Block)
      requires Valid() && p in live && q in live && p.chunk == q.chunk && p != q
      ensures HEADER <= Address(size, p.index) && Address(size, p.index) + size <= HEADER + size * PerChunk(size)
      ensures Address(size, p.index) + size <= Address(size, q.index)
        || Address(size, q.index) + size <= Address(size, p.index)
    {
      hide Total, Linked, FreeList, Address, PerChunk;
      BlocksApart(size, PerChunk(size), p.index, q.index);
      BlocksApart(size, PerChunk(size), q.index, p.index);
    }

    /** The live blocks, the free ones and the rest are all blocks of all chunks. */
    lemma NoneLost()
      requires Valid()
      ensures |live| + |free| + remaining == PerChunk(size) * |chunks|
    {
      hide FreeList, Linked, Apart, PerChunk;
      TotalIs(chunks, PerChunk(size));
    }

    /** Free the chunks, each of them once. */
    method Cleanup() returns (freed: seq<Chunk>)
      requires Valid()
      ensures freed == chunks && forall k, l :: 0 <= k < l < |freed| ==> freed[k] != freed[l]
    {
      freed := [];
      var c := head;
      while c != null
        invariant |freed| <= |chunks| && freed == chunks[..|freed|]
        invariant c == ChunkAt(chunks, |freed|)
        decreases |chunks| - |freed|
      {
        var n := c.next;
        assert chunks[|freed|].next == ChunkAt(chunks, |freed| + 1);
        freed := freed + [c];
        c := n;
      }
    }
  }

  /** Blocks that share memory are in the same chunk. */
  lemma SameMemory(head: Chunk?, chunks: seq<Chunk>, p: Block, q: Block)
    requires p.At? && q.At? && p.chunk in chunks && q.chunk in chunks && Linked(head, chunks)
    ensures p.chunk.links == q.chunk.links ==> p.chunk == q.chunk
  {
    var k :| 0 <= k < |chunks| && chunks[k] == p.chunk;
    var l :| 0 <= l < |chunks| && chunks[l] == q.chunk;
  }

  // ----- Addresses -----

  const HEADER: nat := 8

  /** The first byte of a block in its chunk. */
  function Address(size: nat, index: nat): nat {
    HEADER + size * index
  }

  /** Blocks are inside their chunk, after its header, and different ones do not overlap. */
  lemma BlocksApart(size: nat, count: nat, i: nat, j: nat)
    requires i < count && j < count
    ensures HEADER <= Address(size, i) && Address(size, i) + size <= HEADER + size * count
    ensures i < j ==> Address(size, i) + size <= Address(size, j)
  {
    Later(size, i, count);
    if i < j {
      Later(size, i, j);
    }
  }

  lemma Later(size: nat, i: nat, j: nat)
    requires i < j
    ensures size * i + size <= size * j
  {
    var d := j - i - 1;
    assert size * j == size * i + size + size * d;
  }

  /** How many blocks of a size are allocated at once. */
  lemma ChunkCounts(size: nat)
    ensures size <= 31 ==> PerChunk(size) == 2000
    ensures 32 <= size <= 127 ==> PerChunk(size) == 800
    ensures 128 <= size ==> PerChunk(size) == 100
  {
  }
}
