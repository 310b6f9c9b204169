/** Descriptors, chunks and bursts of driver/mt-emu-mtdma-core.c: what they
    hold, and how they are allocated and freed.

    An object that kzalloc returned is named by a number that is never given
    out twice; a chunk without a list head is the head of a descriptor's list. */
module DmaDescriptors {
  import opened Common

  /** struct mtdma_burst */
  datatype Burst = Burst(obj: nat, sar: nat, dar: nat, sz: nat)

  /** struct mtdma_chunk: the list of bursts without its head, which is a burst
      object of its own; `sz` is ll_region.sz */
  datatype Chunk = Chunk(obj: nat, head: Option<nat>, bursts: seq<Burst>, burstsAlloc: nat, sz: nat)

  /** struct mtdma_desc as a value */
  datatype Desc = Desc(obj: nat, head: Option<nat>, chunks: seq<Chunk>, chunksAlloc: nat,
                       allocSz: nat, xferSz: nat, cookie: int)

  // ---------- contents ----------

  function AllBursts(chunks: seq<Chunk>): seq<Burst> {
    if chunks == [] then [] else chunks[0].bursts + AllBursts(chunks[1..])
  }

  lemma {:induction false} AllBurstsConcat(a: seq<Chunk>, b: seq<Chunk>)
    ensures AllBursts(a + b) == AllBursts(a) + AllBursts(b)
  {
    if a == [] {
      assert a + b == b;
    } else {
      assert (a + b)[1..] == a[1..] + b;
      AllBurstsConcat(a[1..], b);
    }
  }

  function BurstSum(bursts: seq<Burst>): nat {
    if bursts == [] then 0 else bursts[0].sz + BurstSum(bursts[1..])
  }

  lemma {:induction false} BurstSumConcat(a: seq<Burst>, b: seq<Burst>)
    ensures BurstSum(a + b) == BurstSum(a) + BurstSum(b)
  {
    if a == [] {
      assert a + b == b;
    } else {
      assert (a + b)[1..] == a[1..] + b;
      BurstSumConcat(a[1..], b);
    }
  }

  /** A chunk in a descriptor's list: counted, sized, neither empty nor longer
      than the descriptor table. */
  predicate ChunkOk(c: Chunk, llMax: nat) {
    && c.head.Some? && c.burstsAlloc == |c.bursts|
    && 1 <= |c.bursts| <= llMax
    && c.sz == BurstSum(c.bursts) % U32
  }

  predicate ChunksOk(chunks: seq<Chunk>, llMax: nat) {
    forall k :: 0 <= k < |chunks| ==> ChunkOk(chunks[k], llMax)
  }

  /** The chunk counter is the length of the list, and what has not been
      transferred is what the remaining chunks hold. */
  predicate DescOk(d: Desc, llMax: nat) {
    && d.head.Some? && d.chunksAlloc == |d.chunks| && ChunksOk(d.chunks, llMax)
    && d.allocSz < U32 && d.xferSz < U32
    && (d.allocSz - d.xferSz) % U32 == BurstSum(AllBursts(d.chunks)) % U32
  }

  // ---------- the objects a descriptor owns ----------

  function HeadObject(head: Option<nat>): multiset<nat> {
    if head.None? then multiset{} else multiset{head.value}
  }

  function BurstObjects(bursts: seq<Burst>): multiset<nat> {
    if bursts == [] then multiset{} else multiset{bursts[0].obj} + BurstObjects(bursts[1..])
  }

  function ChunkObjects(c: Chunk): multiset<nat> {
    multiset{c.obj} + HeadObject(c.head) + BurstObjects(c.bursts)
  }

  function ChunksObjects(chunks: seq<Chunk>): multiset<nat> {
    if chunks == [] then multiset{} else ChunkObjects(chunks[0]) + ChunksObjects(chunks[1..])
  }

  function DescObjects(d: Desc): multiset<nat> {
    multiset{d.obj} + HeadObject(d.head) + ChunksObjects(d.chunks)
  }

  lemma {:induction false} BurstObjectsConcat(a: seq<Burst>, b: seq<Burst>)
    ensures BurstObjects(a + b) == BurstObjects(a) + BurstObjects(b)
  {
    if a == [] {
      assert a + b == b;
    } else {
      assert (a + b)[1..] == a[1..] + b;
      BurstObjectsConcat(a[1..], b);
    }
  }

  lemma {:induction false} ChunksObjectsConcat(a: seq<Chunk>, b: seq<Chunk>)
    ensures ChunksObjects(a + b) == ChunksObjects(a) + ChunksObjects(b)
  {
    hide ChunkObjects;
    if a == [] {
      assert a + b == b;
    } else {
      assert (a + b)[1..] == a[1..] + b;
      ChunksObjectsConcat(a[1..], b);
    }
  }

  // ---------- the kernel's allocator ----------

  class Kernel {
    ghost var live: multiset<nat>
    ghost var failures: nat
    var next: nat

    constructor ()
      ensures live == multiset{} && failures == 0 && next == 0
    {
      live := multiset{};
      failures := 0;
      next := 0;
    }

    /** kzalloc, which may fail at any time */
    method Kzalloc() returns (obj: Option<nat>)
      modifies this
      ensures obj.None? ==> live == old(live) && next == old(next) && failures == old(failures) + 1
      ensures obj.Some? ==> obj.value == old(next) && next == old(next) + 1
                            && live == old(live) + multiset{obj.value} && failures == old(failures)
    {
      if * {
        failures := failures + 1;
        return None;
      }
      obj := Some(next);
      live := live + multiset{next};
      next := next + 1;
    }

    /** kfree, of an object that has not been freed before; `rest` are the
        other objects */
    method Kfree(obj: nat, ghost rest: multiset<nat>)
      requires live == rest + multiset{obj}
      modifies this`live
      ensures live == rest
    {
      live := rest;
    }
  }

  // ---------- descriptors ----------

  /** struct mtdma_desc */
  class Descriptor {
    const obj: nat
    var head: Option<nat>
    var chunks: seq<Chunk>
    var chunksAlloc: nat
    var allocSz: nat
    var xferSz: nat
    var cookie: int

    constructor (obj: nat)
      ensures this.obj == obj && Value() == Desc(obj, None, [], 0, 0, 0, 0)
    {
      this.obj := obj;
      head, chunks, chunksAlloc, allocSz, xferSz, cookie := None, [], 0, 0, 0, 0;
    }

    ghost function Value(): Desc
      reads this
    {
      Desc(obj, head, chunks, chunksAlloc, allocSz, xferSz, cookie)
    }
  }

  /** mtdma_alloc_burst: the first one becomes the head of the list. */
  method AllocBurst(k: Kernel, chunk: Chunk) returns (after: Chunk, ok: bool)
    modifies k
    ensures k.next >= old(k.next) && k.failures >= old(k.failures) && (!ok <==> k.failures > old(k.failures))
    ensures !ok ==> after == chunk && k.live == old(k.live)
    ensures ok ==> k.live == old(k.live) + multiset{old(k.next)}
    ensures ok && chunk.head.Some? ==>
              after == chunk.(bursts := chunk.bursts + [Burst(old(k.next), 0, 0, 0)],
                              burstsAlloc := chunk.burstsAlloc + 1)
    ensures ok && chunk.head.None? ==> after == chunk.(head := Some(old(k.next)), burstsAlloc := 0)
  {
    var obj := k.Kzalloc();
    if obj.None? {
      return chunk, false;
    }
    ok := true;
    if chunk.head.Some? {
      after := chunk.(bursts := chunk.bursts + [Burst(obj.value, 0, 0, 0)], burstsAlloc := chunk.burstsAlloc + 1);
    } else {
      after := chunk.(head := Some(obj.value), burstsAlloc := 0);
    }
  }

  lemma GrowChunks(d: Desc, c: Chunk, count: nat)
    ensures DescObjects(d.(chunks := d.chunks + [c], chunksAlloc := count)) == DescObjects(d) + ChunkObjects(c)
  {
    hide ChunkObjects;
    ChunksObjectsConcat(d.chunks, [c]);
    assert ChunksObjects([c]) == ChunkObjects(c) + ChunksObjects([]);
  }

  lemma NewChunk(d: Desc, obj: nat, head: nat)
    ensures DescObjects(d.(chunks := d.chunks + [Chunk(obj, Some(head), [], 0, 0)], chunksAlloc := d.chunksAlloc + 1))
         == DescObjects(d) + multiset{obj} + multiset{head}
  {
    hide DescObjects;
    GrowChunks(d, Chunk(obj, Some(head), [], 0, 0), d.chunksAlloc + 1);
  }

  lemma TakeTwo(others: multiset<nat>, a: nat, b: nat)
    ensures others + (multiset{a} + multiset{b}) == others + multiset{a} + multiset{b}
  {
  }

  lemma OwnTwo(others: multiset<nat>, own: multiset<nat>, a: nat, b: nat)
    ensures others + own + multiset{a} + multiset{b} == others + (own + multiset{a} + multiset{b})
  {
  }

  predicate EmptyChunk(c: Chunk) {
    c.head.Some? && c.bursts == [] && c.burstsAlloc == 0 && c.sz == 0
  }

  /** What the allocator has handed out: the descriptor's objects and others. */
  ghost predicate Owns(k: Kernel, desc: Descriptor, others: multiset<nat>)
    reads k, desc
  {
    k.live == others + DescObjects(desc.Value())
  }

  /** mtdma_alloc_chunk: the first one becomes the head of the list; every
      later one gets its burst head and is appended, or leaves no trace. */
  method AllocChunk(k: Kernel, desc: Descriptor, ghost others: multiset<nat>) returns (ok: bool)
    requires Owns(k, desc, others)
    modifies k, desc`head, desc`chunks, desc`chunksAlloc
    ensures k.next >= old(k.next) && k.failures >= old(k.failures) && (!ok <==> k.failures > old(k.failures))
    ensures !ok ==> desc.Value() == old(desc.Value())
    ensures Owns(k, desc, others)
    ensures ok && old(desc.head).None? ==> desc.head.Some? && desc.chunks == old(desc.chunks) && desc.chunksAlloc == 0
    ensures ok && old(desc.head).Some? ==>
              && desc.head == old(desc.head) && desc.chunksAlloc == old(desc.chunksAlloc) + 1
              && exists c :: EmptyChunk(c) && desc.chunks == old(desc.chunks) + [c]
  {
    hide DescObjects;
    ghost var before, own := desc.Value(), DescObjects(desc.Value());
    var obj := k.Kzalloc();
    if obj.None? {
      return false;
    }
    var chunk := Chunk(obj.value, None, [], 0, 0);
    if desc.head.Some? {
      var child, burst := AllocBurst(k, chunk);
      if !burst {
        k.Kfree(obj.value, others + own);
        return false;
      }
      NewChunk(before, obj.value, child.head.value);
      OwnTwo(others, own, obj.value, child.head.value);
      desc.chunksAlloc := desc.chunksAlloc + 1;
      desc.chunks := desc.chunks + [child];
      assert EmptyChunk(child);
    } else {
      FirstChunk(before, obj.value, others);
      desc.chunksAlloc := 0;
      desc.head := Some(obj.value);
    }
    ok := true;
  }

  lemma FirstChunk(d: Desc, obj: nat, others: multiset<nat>)
    requires d.head.None?
    ensures others + DescObjects(d) + multiset{obj} == others + DescObjects(d.(head := Some(obj), chunksAlloc := 0))
  {
  }

  /** mtdma_free_burst: every burst and then the head of the list. */
  method FreeBursts(k: Kernel, chunk: Chunk, ghost others: multiset<nat>)
    requires chunk.head.Some?
    requires k.live == others + HeadObject(chunk.head) + BurstObjects(chunk.bursts)
    modifies k`live
    ensures k.live == others
  {
    var i := 0;
    ghost var heads := others + HeadObject(chunk.head);
    while i < |chunk.bursts|
      invariant 0 <= i <= |chunk.bursts|
      invariant k.live == heads + BurstObjects(chunk.bursts[i..])
    {
      assert chunk.bursts[i..][1..] == chunk.bursts[i + 1..];
      k.Kfree(chunk.bursts[i].obj, heads + BurstObjects(chunk.bursts[i + 1..]));
      i := i + 1;
    }
    k.Kfree(chunk.head.value, others);
  }

  lemma DropFirst(d: Desc)
    requires d.chunks != []
    ensures var c := d.chunks[0];
            var after := d.(chunks := d.chunks[1..], chunksAlloc := if d.chunksAlloc > 0 then d.chunksAlloc - 1 else 0);
            DescObjects(d) == DescObjects(after) + multiset{c.obj} + HeadObject(c.head) + BurstObjects(c.bursts)
  {
    hide HeadObject, BurstObjects;
  }

  /** Take the first chunk off the list and free it with its bursts. */
  method FreeFirstChunk(k: Kernel, desc: Descriptor, ghost others: multiset<nat>)
    requires Owns(k, desc, others)
    requires desc.chunks != [] && desc.chunks[0].head.Some? && desc.chunksAlloc == |desc.chunks|
    modifies k`live, desc`chunks, desc`chunksAlloc
    ensures Owns(k, desc, others)
    ensures desc.chunks == old(desc.chunks[1..]) && desc.chunksAlloc == |desc.chunks|
  {
    hide DescObjects, HeadObject, BurstObjects;
    DropFirst(desc.Value());
    var child := desc.chunks[0];
    ghost var left := DescObjects(desc.Value().(chunks := desc.chunks[1..], chunksAlloc := desc.chunksAlloc - 1));
    FreeBursts(k, child, others + left + multiset{child.obj});
    desc.chunks := desc.chunks[1..];
    k.Kfree(child.obj, others + left);
    desc.chunksAlloc := desc.chunksAlloc - 1;
  }

  lemma OnlyHeads(d: Desc)
    requires d.chunks == []
    ensures d.head.Some? ==> DescObjects(d) == multiset{d.obj} + multiset{d.head.value}
    ensures d.head.None? ==> DescObjects(d) == multiset{d.obj}
  {
  }

  /** The loop of mtdma_free_chunk. */
  method FreeChunkList(k: Kernel, desc: Descriptor, ghost others: multiset<nat>)
    requires Owns(k, desc, others) && desc.chunksAlloc == |desc.chunks|
    requires forall j :: 0 <= j < |desc.chunks| ==> desc.chunks[j].head.Some?
    modifies k`live, desc`chunks, desc`chunksAlloc
    ensures Owns(k, desc, others) && desc.chunks == [] && desc.chunksAlloc == 0
  {
    hide Owns;
    while |desc.chunks| > 0
      invariant Owns(k, desc, others) && desc.chunksAlloc == |desc.chunks|
      invariant forall j :: 0 <= j < |desc.chunks| ==> desc.chunks[j].head.Some?
      decreases |desc.chunks|
    {
      FreeFirstChunk(k, desc, others);
    }
  }

  /** mtdma_free_chunk and mtdma_free_desc: all chunks of the list with their
      bursts, the head of the list, and the descriptor. */
  method FreeDesc(k: Kernel, desc: Descriptor, ghost others: multiset<nat>)
    requires Owns(k, desc, others)
    requires forall j :: 0 <= j < |desc.chunks| ==> desc.chunks[j].head.Some?
    requires desc.chunksAlloc == |desc.chunks| && (desc.head.None? ==> desc.chunks == [])
    modifies k`live, desc`head, desc`chunks, desc`chunksAlloc
    ensures k.live == others
  {
    hide DescObjects;
    if desc.head.Some? {
      FreeChunkList(k, desc, others);
      OnlyHeads(desc.Value());
      TakeTwo(others, desc.obj, desc.head.value);
      k.Kfree(desc.head.value, others + multiset{desc.obj});
      desc.head := None;
    } else {
      OnlyHeads(desc.Value());
    }
    k.Kfree(desc.obj, others);
  }
}
