/** From a user buffer to a list of chunks: the scatterlist that emu_dma_rw
    builds (driver/mt-emu-mtdma-test.c) and the descriptor that
    mtdma_device_transfer makes of it (driver/mt-emu-mtdma-core.c). */
module DmaTransfer {
  import opened Common
  import opened DmaDescriptors

  const PAGE_SIZE: nat := 4096

  // ---------- the scatterlist ----------

  /** What sg_set_page records: page number in the buffer, offset, length. */
  datatype Segment = Segment(page: nat, offset: nat, len: nat)

  /** The bytes of one segment, counted from the start of the buffer's first page. */
  function SegmentBytes(s: Segment): (r: seq<nat>)
    ensures |r| == s.len
  {
    seq(s.len, k requires 0 <= k < s.len => s.page * PAGE_SIZE + s.offset + k)
  }

  /** The bytes of the buffer that the segments cover, in order. */
  function Covered(sgl: seq<Segment>): seq<nat> {
    if sgl == [] then []
    else Covered(sgl[..|sgl| - 1]) + SegmentBytes(sgl[|sgl| - 1])
  }

  /** Segment i lies in page i; together they are the buffer. */
  ghost predicate Tiles(sgl: seq<Segment>, offset: nat, size: nat) {
    && Covered(sgl) == seq(size, k requires 0 <= k < size => offset + k)
    && forall i :: 0 <= i < |sgl| ==> sgl[i].page == i && InPage(sgl[i])
  }

  predicate InPage(s: Segment) { s.offset < PAGE_SIZE && s.offset + s.len <= PAGE_SIZE }

  /** A buffer of `size` bytes, from `offset` in its first page on: one segment
      for each page it touches. */
  ghost predicate FromBuffer(sgl: seq<Segment>, offset: nat, size: nat) {
    && Tiles(sgl, offset, size)
    && |sgl| == (offset + size + PAGE_SIZE - 1) / PAGE_SIZE
    && (size > 0 ==> forall i :: 0 <= i < |sgl| ==> sgl[i].len > 0)
  }

  /** The loop of emu_dma_rw that fills the scatterlist.  An empty buffer that
      is not page aligned gets an empty segment. */
  method BuildScatterlist(userbuf: nat, size: nat) returns (sgl: seq<Segment>)
    ensures FromBuffer(sgl, userbuf % PAGE_SIZE, size)
    ensures size == 0 ==> |sgl| == (if userbuf % PAGE_SIZE == 0 then 0 else 1)
    ensures size == 0 && sgl != [] ==> sgl[0].len == 0
  {
    hide Tiles, Covered;
    var inPage := userbuf % PAGE_SIZE;
    CoverNothing(inPage);
    var sgs := (inPage + size + PAGE_SIZE - 1) / PAGE_SIZE;
    var leftToMap := size;
    sgl := [];
    for i := 0 to sgs
      invariant |sgl| == i && 0 <= leftToMap <= size
      invariant i == 0 ==> leftToMap == size
      invariant i > 0 && leftToMap > 0 ==> inPage + (size - leftToMap) == i * PAGE_SIZE
      invariant i > 0 && leftToMap == 0 ==> inPage + size <= i * PAGE_SIZE
      invariant Tiles(sgl, inPage, size - leftToMap)
      invariant size > 0 ==> forall j :: 0 <= j < i ==> sgl[j].len > 0
    {
      var len := if leftToMap > PAGE_SIZE then PAGE_SIZE else leftToMap;
      var offset: nat;
      if i == 0 {
        offset := inPage;
        if offset + len > PAGE_SIZE {
          len := PAGE_SIZE - offset;
        }
      } else {
        offset := 0;
      }
      CoverMore(sgl, inPage, size - leftToMap, Segment(i, offset, len));
      sgl := sgl + [Segment(i, offset, len)];
      leftToMap := leftToMap - len;
    }
    if sgl != [] { LenWithin(sgl, inPage, size, 0); }
  }

  lemma LenWithin(sgl: seq<Segment>, offset: nat, size: nat, i: nat)
    requires Tiles(sgl, offset, size) && i < |sgl|
    ensures sgl[i].len <= size
  {
    CoveredLength(sgl, i);
  }

  lemma {:induction false} CoveredLength(sgl: seq<Segment>, i: nat)
    requires i < |sgl|
    ensures sgl[i].len <= |Covered(sgl)|
    decreases |sgl|
  {
    if i < |sgl| - 1 { CoveredLength(sgl[..|sgl| - 1], i); }
  }

  lemma CoverNothing(offset: nat)
    ensures Tiles([], offset, 0)
  {
  }

  lemma CoverMore(sgl: seq<Segment>, offset: nat, done: nat, s: Segment)
    requires Tiles(sgl, offset, done) && s.page == |sgl| && InPage(s)
    requires s.len > 0 ==> s.page * PAGE_SIZE + s.offset == offset + done
    ensures Tiles(sgl + [s], offset, done + s.len)
  {
    assert (sgl + [s])[..|sgl|] == sgl;
  }

  // ---------- mapping for the device ----------

  datatype Direction = MemToDev | DevToMem

  /** One scatterlist entry after dma_map_sg: bus address and length. */
  datatype Sg = Sg(addr: nat, len: nat)

  /** dma_map_sg, which gives each page a bus address */
  function MapSg(sgl: seq<Segment>, bus: nat -> nat): (r: seq<Sg>)
    ensures |r| == |sgl|
    ensures forall i :: 0 <= i < |r| ==> r[i] == Sg(bus(sgl[i].page) + sgl[i].offset, sgl[i].len)
  {
    seq(|sgl|, i requires 0 <= i < |sgl| => Sg(bus(sgl[i].page) + sgl[i].offset, sgl[i].len))
  }

  function LenSum(sgl: seq<Sg>): nat {
    if sgl == [] then 0 else LenSum(sgl[..|sgl| - 1]) + sgl[|sgl| - 1].len
  }

  lemma LenSumPrefix(sgl: seq<Sg>, i: nat)
    requires i < |sgl|
    ensures LenSum(sgl[..i + 1]) == LenSum(sgl[..i]) + sgl[i].len
  {
    assert sgl[..i + 1][..i] == sgl[..i];
  }

  // ---------- bursts and chunks ----------

  /** Burst j carries entry j; on the device the entries follow one another. */
  ghost predicate Carries(bursts: seq<Burst>, dir: Direction, laddr: nat, sgl: seq<Sg>) {
    |bursts| == |sgl| && forall j :: 0 <= j < |sgl| ==> CarriesOne(bursts, dir, laddr, sgl, j)
  }

  ghost predicate CarriesOne(bursts: seq<Burst>, dir: Direction, laddr: nat, sgl: seq<Sg>, j: nat)
    requires j < |bursts| == |sgl|
  {
    var device := (laddr + LenSum(sgl[..j])) % U64;
    && bursts[j].sz == sgl[j].len
    && (if dir.MemToDev? then bursts[j].sar == sgl[j].addr && bursts[j].dar == device
        else bursts[j].sar == device && bursts[j].dar == sgl[j].addr)
  }

  lemma CarriesNone(dir: Direction, laddr: nat, sgl: seq<Sg>)
    ensures sgl[..0] == [] && LenSum(sgl[..0]) == 0 && Carries([], dir, laddr, sgl[..0])
  {
  }

  /** Counting modulo 2^64 or 2^32 adds up. */
  lemma Wraps(a: nat, sum: nat, len: nat)
    ensures ((a + sum) % U64 + len) % U64 == (a + (sum + len)) % U64
    ensures (sum % U32 + len) % U32 == (sum + len) % U32
  {
    Wrap64(a + sum, len);
    Wrap32(sum, len);
  }

  lemma Wrap64(a: nat, b: nat)
    ensures (a % U64 + b) % U64 == (a + b) % U64
  {
    var s, q := (a % U64 + b) / U64, a / U64;
    assert a + b == (s + q) * U64 + (a % U64 + b) % U64;
  }

  lemma Wrap32(a: nat, b: nat)
    ensures (a % U32 + b) % U32 == (a + b) % U32
  {
    var s, q := (a % U32 + b) / U32, a / U32;
    assert a + b == (s + q) * U32 + (a % U32 + b) % U32;
  }

  lemma CarriesMore(bursts: seq<Burst>, dir: Direction, laddr: nat, sgl: seq<Sg>, i: nat, b: Burst)
    requires i < |sgl| && Carries(bursts, dir, laddr, sgl[..i])
    requires b == BurstFor(b.obj, dir, (laddr + LenSum(sgl[..i])) % U64, sgl[i])
    ensures Carries(bursts + [b], dir, laddr, sgl[..i + 1])
  {
    var after, upTo := bursts + [b], sgl[..i + 1];
    forall j | 0 <= j < |upTo| ensures CarriesOne(after, dir, laddr, upTo, j) {
      assert upTo[..j] == sgl[..j];
      if j < i {
        assert sgl[..i][..j] == sgl[..j];
        assert CarriesOne(bursts, dir, laddr, sgl[..i], j);
      }
    }
  }

  /** Every chunk but the last is full. */
  predicate Grouped(chunks: seq<Chunk>, llMax: nat) {
    forall k :: 0 <= k < |chunks| - 1 ==> |chunks[k].bursts| == llMax
  }

  function Last(chunks: seq<Chunk>): Chunk
    requires chunks != []
  {
    chunks[|chunks| - 1]
  }

  function Front(chunks: seq<Chunk>): seq<Chunk>
    requires chunks != []
  {
    chunks[..|chunks| - 1]
  }

  /** The chunks while the loop runs and the last one is being filled. */
  ghost predicate Filling(d: Desc, llMax: nat) {
    && d.head.Some? && d.chunks != [] && d.chunksAlloc == |d.chunks|
    && ChunksOk(Front(d.chunks), llMax) && Grouped(d.chunks, llMax)
    && FillingLast(Last(d.chunks), llMax)
  }

  predicate FillingLast(c: Chunk, llMax: nat) {
    c.head.Some? && c.burstsAlloc == |c.bursts| <= llMax && c.sz == BurstSum(c.bursts) % U32
  }

  /** What mtdma_device_transfer hands to vchan_tx_prep. */
  ghost predicate Prepared(d: Desc, dir: Direction, laddr: nat, sgl: seq<Sg>, llMax: nat) {
    && DescOk(d, llMax) && d.chunks != [] && Grouped(d.chunks, llMax)
    && Carries(AllBursts(d.chunks), dir, laddr, sgl)
    && d.allocSz == LenSum(sgl) % U32 && d.xferSz == 0 && d.cookie == 0
  }

  lemma {:induction false} FullChunks(chunks: seq<Chunk>, llMax: nat)
    requires forall k :: 0 <= k < |chunks| ==> |chunks[k].bursts| == llMax
    ensures |AllBursts(chunks)| == |chunks| * llMax
  {
    if chunks != [] { FullChunks(chunks[1..], llMax); }
  }

  /** As many bursts as fit go into a chunk: there are no more chunks than the
      entries need. */
  lemma ChunkCount(d: Desc, dir: Direction, laddr: nat, sgl: seq<Sg>, llMax: nat)
    requires Prepared(d, dir, laddr, sgl, llMax)
    ensures (|d.chunks| - 1) * llMax < |sgl| <= |d.chunks| * llMax
  {
    var n := |d.chunks| - 1;
    var last := d.chunks[n];
    assert ChunkOk(last, llMax);
    assert d.chunks == d.chunks[..n] + [last];
    AllBurstsConcat(d.chunks[..n], [last]);
    FullChunks(d.chunks[..n], llMax);
    assert AllBursts([last]) == last.bursts + AllBursts([]);
  }

  // ---------- building the descriptor ----------

  lemma FrontLast(chunks: seq<Chunk>)
    requires chunks != []
    ensures chunks == Front(chunks) + [Last(chunks)]
    ensures AllBursts(chunks) == AllBursts(Front(chunks)) + Last(chunks).bursts
    ensures ChunksObjects(chunks) == ChunksObjects(Front(chunks)) + ChunkObjects(Last(chunks))
  {
    hide ChunkObjects;
    var front, last := Front(chunks), Last(chunks);
    assert chunks == front + [last];
    AllBurstsConcat(front, [last]);
    assert AllBursts([last]) == last.bursts + AllBursts([]);
    ChunksObjectsConcat(front, [last]);
    assert ChunksObjects([last]) == ChunkObjects(last) + ChunksObjects([]);
  }

  lemma StartFilling(d: Desc, llMax: nat, c: Chunk)
    requires d.head.Some? && d.chunksAlloc == 1 && d.chunks == [c] && EmptyChunk(c)
    ensures Filling(d, llMax) && AllBursts(d.chunks) == []
  {
    FrontLast(d.chunks);
  }

  lemma AllOk(chunks: seq<Chunk>, llMax: nat)
    requires chunks != [] && ChunksOk(Front(chunks), llMax) && ChunkOk(Last(chunks), llMax)
    ensures ChunksOk(chunks, llMax)
  {
    hide ChunkOk;
    forall k | 0 <= k < |chunks| ensures ChunkOk(chunks[k], llMax) {
      if k < |chunks| - 1 { assert chunks[k] == Front(chunks)[k]; }
    }
  }

  /** A full chunk is followed by an empty one. */
  lemma NextChunk(d: Desc, llMax: nat, c: Chunk, d': Desc)
    requires Filling(d, llMax) && EmptyChunk(c) && |Last(d.chunks).bursts| == llMax >= 1
    requires d' == d.(chunks := d.chunks + [c], chunksAlloc := d.chunksAlloc + 1)
    ensures Filling(d', llMax) && AllBursts(d'.chunks) == AllBursts(d.chunks) && Last(d'.chunks) == c
  {
    AllOk(d.chunks, llMax);
    hide ChunkOk, ChunksOk, AllBursts, ChunksObjects;
    FrontLast(d'.chunks);
    assert Front(d'.chunks) == d.chunks;
  }

  /** The last chunk takes one more burst. */
  function WithBurst(c: Chunk, b: Burst): Chunk {
    c.(bursts := c.bursts + [b], burstsAlloc := c.burstsAlloc + 1, sz := (c.sz + b.sz) % U32)
  }

  lemma WithBurstOk(c: Chunk, b: Burst, llMax: nat)
    requires FillingLast(c, llMax) && |c.bursts| < llMax
    ensures FillingLast(WithBurst(c, b), llMax)
    ensures ChunkObjects(WithBurst(c, b)) == ChunkObjects(c) + multiset{b.obj}
  {
    BurstSumConcat(c.bursts, [b]);
    assert BurstSum([b]) == b.sz;
    BurstObjectsConcat(c.bursts, [b]);
    assert BurstObjects([b]) == multiset{b.obj};
  }

  lemma OneMoreBurst(d: Desc, llMax: nat, b: Burst, d': Desc)
    requires Filling(d, llMax) && |Last(d.chunks).bursts| < llMax
    requires d'.chunks == Front(d.chunks) + [WithBurst(Last(d.chunks), b)]
    requires d' == d.(chunks := d'.chunks, allocSz := d'.allocSz)
    ensures Filling(d', llMax) && AllBursts(d'.chunks) == AllBursts(d.chunks) + [b]
    ensures DescObjects(d') == DescObjects(d) + multiset{b.obj}
  {
    hide ChunkOk, ChunksOk, AllBursts, ChunksObjects, ChunkObjects, HeadObject, FillingLast;
    WithBurstOk(Last(d.chunks), b, llMax);
    FrontLast(d.chunks);
    FrontLast(d'.chunks);
    assert Front(d'.chunks) == Front(d.chunks);
    assert AllBursts(Front(d.chunks)) + (Last(d.chunks).bursts + [b]) == AllBursts(d.chunks) + [b];
  }

  lemma {:induction false} CarriedSum(bursts: seq<Burst>, dir: Direction, laddr: nat, sgl: seq<Sg>)
    requires Carries(bursts, dir, laddr, sgl)
    ensures BurstSum(bursts) == LenSum(sgl)
    decreases |sgl|
  {
    if sgl != [] {
      var n := |sgl| - 1;
      forall j | 0 <= j < n ensures CarriesOne(bursts[..n], dir, laddr, sgl[..n], j) {
        assert sgl[..n][..j] == sgl[..j];
        assert CarriesOne(bursts, dir, laddr, sgl, j);
      }
      CarriedSum(bursts[..n], dir, laddr, sgl[..n]);
      assert CarriesOne(bursts, dir, laddr, sgl, n);
      assert bursts == bursts[..n] + [bursts[n]];
      BurstSumConcat(bursts[..n], [bursts[n]]);
      assert BurstSum([bursts[n]]) == bursts[n].sz;
    }
  }

  lemma FinishFilling(d: Desc, dir: Direction, laddr: nat, sgl: seq<Sg>, llMax: nat)
    requires Filling(d, llMax) && Last(d.chunks).bursts != []
    requires Carries(AllBursts(d.chunks), dir, laddr, sgl)
    requires d.allocSz == LenSum(sgl) % U32 && d.xferSz == 0 && d.cookie == 0
    ensures Prepared(d, dir, laddr, sgl, llMax)
  {
    CarriedSum(AllBursts(d.chunks), dir, laddr, sgl);
    AllOk(d.chunks, llMax);
  }

  /** The address registers of dma_slave_config. */
  datatype SlaveConfig = SlaveConfig(srcAddr: nat, dstAddr: nat)

  /** The entry as a burst. */
  function BurstFor(obj: nat, dir: Direction, device: nat, sg: Sg): Burst {
    if dir.MemToDev? then Burst(obj, sg.addr, device, sg.len) else Burst(obj, device, sg.addr, sg.len)
  }

  /** What mtdma_free_desc relies on. */
  predicate Releasable(d: Desc) {
    && d.chunksAlloc == |d.chunks| && (d.head.None? ==> d.chunks == [])
    && forall j :: 0 <= j < |d.chunks| ==> d.chunks[j].head.Some?
  }

  lemma FillingReleasable(d: Desc, llMax: nat)
    requires Filling(d, llMax)
    ensures Releasable(d)
  {
    FrontLast(d.chunks);
    forall k | 0 <= k < |d.chunks| ensures d.chunks[k].head.Some? {
      if k < |d.chunks| - 1 { assert ChunkOk(Front(d.chunks)[k], llMax); }
    }
  }

  /** The start of a loop turn: a new chunk if the last one is full. */
  method NextChunkIfFull(k: Kernel, desc: Descriptor, llMax: nat, ghost others: multiset<nat>) returns (ok: bool)
    requires Owns(k, desc, others) && Filling(desc.Value(), llMax) && llMax >= 1
    modifies k, desc`head, desc`chunks, desc`chunksAlloc
    ensures k.next >= old(k.next) && k.failures >= old(k.failures) && (!ok <==> k.failures > old(k.failures))
    ensures Owns(k, desc, others) && Filling(desc.Value(), llMax)
    ensures AllBursts(desc.chunks) == old(AllBursts(desc.chunks))
    ensures ok ==> |Last(desc.chunks).bursts| < llMax
  {
    hide DescObjects, ChunksOk, Grouped, AllBursts;
    ghost var before := desc.Value();
    ok := true;
    if Last(desc.chunks).burstsAlloc == llMax {
      ok := AllocChunk(k, desc, others);
      if ok {
        ghost var c :| EmptyChunk(c) && desc.chunks == before.chunks + [c];
        NextChunk(before, llMax, c, desc.Value());
      }
    }
  }

  /** The rest of a loop turn: a burst for the entry. */
  method AddBurst(k: Kernel, desc: Descriptor, dir: Direction, device: nat, sg: Sg, llMax: nat,
                  ghost others: multiset<nat>) returns (ok: bool, ghost burst: Burst)
    requires Owns(k, desc, others) && Filling(desc.Value(), llMax) && |Last(desc.chunks).bursts| < llMax
    modifies k, desc`chunks, desc`allocSz
    ensures k.next >= old(k.next) && k.failures >= old(k.failures) && (!ok <==> k.failures > old(k.failures))
    ensures Owns(k, desc, others) && Filling(desc.Value(), llMax)
    ensures ok ==> desc.allocSz == (old(desc.allocSz) + sg.len) % U32 && Last(desc.chunks).bursts != []
    ensures ok ==> burst == BurstFor(burst.obj, dir, device, sg)
    ensures ok ==> AllBursts(desc.chunks) == old(AllBursts(desc.chunks)) + [burst]
  {
    hide DescObjects, ChunksOk, Grouped, AllBursts;
    ghost var before := desc.Value();
    var n := |desc.chunks| - 1;
    var chunk, gotBurst := AllocBurst(k, desc.chunks[n]);
    if !gotBurst {
      burst := Burst(0, 0, 0, 0);
      return false, burst;
    }
    ok := true;
    var last := |chunk.bursts| - 1;
    var filled := BurstFor(chunk.bursts[last].obj, dir, device, sg);
    burst := filled;
    desc.chunks := desc.chunks[..n] +
      [chunk.(bursts := chunk.bursts[..last] + [filled], sz := (chunk.sz + filled.sz) % U32)];
    desc.allocSz := (desc.allocSz + filled.sz) % U32;
    assert desc.chunks == Front(before.chunks) + [WithBurst(Last(before.chunks), burst)];
    OneMoreBurst(before, llMax, burst, desc.Value());
  }

  /** The loop of mtdma_device_transfer. */
  method AddEntries(k: Kernel, desc: Descriptor, dir: Direction, laddr: nat, sgl: seq<Sg>, llMax: nat,
                    ghost others: multiset<nat>) returns (ok: bool)
    requires Owns(k, desc, others) && Filling(desc.Value(), llMax) && llMax >= 1
    requires AllBursts(desc.chunks) == [] && desc.allocSz == 0 && laddr < U64
    modifies k, desc`head, desc`chunks, desc`chunksAlloc, desc`allocSz
    ensures k.next >= old(k.next) && k.failures >= old(k.failures) && (!ok <==> k.failures > old(k.failures))
    ensures Owns(k, desc, others) && Filling(desc.Value(), llMax)
    ensures ok && sgl != [] ==> Last(desc.chunks).bursts != []
    ensures ok ==> Carries(AllBursts(desc.chunks), dir, laddr, sgl) && desc.allocSz == LenSum(sgl) % U32
  {
    hide DescObjects, ChunksOk, Grouped, FillingLast, AllBursts, Carries, LenSum, BurstFor, Owns;
    CarriesNone(dir, laddr, sgl);
    var i, address := 0, laddr;
    while i < |sgl|
      invariant 0 <= i <= |sgl| && address == (laddr + LenSum(sgl[..i])) % U64
      invariant k.next >= old(k.next) && k.failures == old(k.failures)
      invariant Owns(k, desc, others) && Filling(desc.Value(), llMax)
      invariant desc.chunks != [] && (i > 0 ==> Last(desc.chunks).bursts != [])
      invariant Carries(AllBursts(desc.chunks), dir, laddr, sgl[..i])
      invariant desc.allocSz == LenSum(sgl[..i]) % U32
    {
      ok := NextChunkIfFull(k, desc, llMax, others);
      if !ok {
        return;
      }
      ghost var bursts := AllBursts(desc.chunks);
      ghost var burst;
      ok, burst := AddBurst(k, desc, dir, address, sgl[i], llMax, others);
      if !ok {
        return;
      }
      CarriesMore(bursts, dir, laddr, sgl, i, burst);
      LenSumPrefix(sgl, i);
      Wraps(laddr, LenSum(sgl[..i]), sgl[i].len);
      address := (address + sgl[i].len) % U64;
      i := i + 1;
    }
    assert sgl[..i] == sgl;
    ok := true;
  }

  /** mtdma_device_transfer: a descriptor that carries every entry, or nothing
      at all and no object left allocated. */
  method MtdmaDeviceTransfer(k: Kernel, configured: bool, config: SlaveConfig, dir: Direction,
                             sgl: seq<Sg>, llMax: nat) returns (desc: Descriptor?)
    requires llMax >= 1 && config.srcAddr < U64 && config.dstAddr < U64
    modifies k
    ensures k.next >= old(k.next)
    ensures desc == null <==> !configured || sgl == [] || k.failures > old(k.failures)
    ensures desc == null ==> k.live == old(k.live)
    ensures desc != null && dir.MemToDev? ==> Prepared(desc.Value(), dir, config.dstAddr, sgl, llMax)
    ensures desc != null && dir.DevToMem? ==> Prepared(desc.Value(), dir, config.srcAddr, sgl, llMax)
    ensures desc != null ==> fresh(desc)
    ensures desc != null ==> old(k.next) <= desc.obj < k.next && Owns(k, desc, old(k.live))
  {
    hide DescObjects, Filling, AllBursts;
    if !configured || |sgl| < 1 {
      return null;
    }
    ghost var others := k.live;
    desc := AllocDesc(k);
    if desc == null {
      return;
    }
    var ok := AllocChunk(k, desc, others);
    var device := if dir.MemToDev? then config.dstAddr else config.srcAddr;
    if ok {
      StartFilling(desc.Value(), llMax, desc.chunks[0]);
      ok := AddEntries(k, desc, dir, device, sgl, llMax, others);
      FillingReleasable(desc.Value(), llMax);
    }
    if !ok {
      FreeDesc(k, desc, others);
      return null;
    }
    FinishFilling(desc.Value(), dir, device, sgl, llMax);
  }

  /** mtdma_alloc_desc: the descriptor and the head of its chunk list. */
  method AllocDesc(k: Kernel) returns (desc: Descriptor?)
    modifies k
    ensures k.next >= old(k.next) && k.failures >= old(k.failures) && (desc == null <==> k.failures > old(k.failures))
    ensures desc == null ==> k.live == old(k.live)
    ensures desc != null ==> fresh(desc) && old(k.next) <= desc.obj < k.next && Owns(k, desc, old(k.live))
    ensures desc != null ==> desc.Value() == Desc(desc.obj, desc.head, [], 0, 0, 0, 0) && desc.head.Some?
  {
    var obj := k.Kzalloc();
    if obj.None? {
      return null;
    }
    desc := new Descriptor(obj.value);
    var ok := AllocChunk(k, desc, old(k.live));
    if !ok {
      k.Kfree(desc.obj, old(k.live));
      desc := null;
    }
  }
}
