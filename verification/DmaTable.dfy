/** The linked descriptor table of driver/mt-emu-mtdma-core.c: how a chunk is
    written into it, and what hardware that follows the links then moves. */
module DmaTable {
  import opened Common
  import opened DmaDescriptors
  import opened DmaTransfer

  const INTR_EN: nat := 1
  const CHAIN_EN: nat := 2

  /** struct dma_ch_desc */
  datatype Slot = Slot(descOp: nat, cnt: nat, sarLsb: nat, sarMsb: nat, darLsb: nat, darMsb: nat,
                       larLsb: nat, larMsb: nat)

  // ---------- writing ----------

  /** The descriptor for burst i; its link is the table slot with number i. */
  function SlotFor(b: Burst, descOp: nat, laddr: nat, i: nat): Slot {
    var lar := (laddr + i * SLOT_SIZE) % U64;
    Slot(descOp, (b.sz + (U32 - 1)) % U32, b.sar % U32, b.sar / U32, b.dar % U32, b.dar / U32, lar % U32, lar / U32)
  }

  function SlotAt(bursts: seq<Burst>, laddr: nat, i: nat): Slot
    requires i < |bursts|
  {
    SlotFor(bursts[i], if i + 1 == |bursts| then INTR_EN else CHAIN_EN, laddr, i)
  }

  /** The table holds the bursts but the first, and is otherwise unchanged. */
  ghost predicate Holds(table: seq<Slot>, before: seq<Slot>, bursts: seq<Burst>, laddr: nat) {
    && |table| == |before|
    && forall k :: 0 <= k < |table| ==>
         table[k] == if k + 1 < |bursts| then SlotAt(bursts, laddr, k + 1) else before[k]
  }

  /** A channel's descriptor registers and its descriptor table. */
  class ChannelMemory {
    const laddr: nat
    var register: Slot
    const table: array<Slot>

    constructor (laddr: nat, register: Slot, table: array<Slot>)
      ensures this.laddr == laddr && this.register == register && this.table == table
    {
      this.laddr := laddr;
      this.register := register;
      this.table := table;
    }

    /** The registers and the table hold the bursts of a chunk. */
    ghost predicate Written(bursts: seq<Burst>, before: seq<Slot>)
      requires bursts != []
      reads this, table
    {
      register == SlotAt(bursts, laddr, 0) && Holds(table[..], before, bursts, laddr)
    }

    /** mtdma_v0_core_write_chunk */
    method WriteChunk(bursts: seq<Burst>)
      requires 1 <= |bursts| <= table.Length + 1
      modifies this`register, table
      ensures Written(bursts, old(table[..]))
    {
      hide SlotFor;
      var i := 0;
      while i < |bursts|
        invariant 0 <= i <= |bursts|
        invariant i > 0 ==> register == SlotFor(bursts[0], CHAIN_EN, laddr, 0)
        invariant forall k :: 0 <= k < table.Length ==>
          table[k] == if k + 1 < i then SlotFor(bursts[k + 1], CHAIN_EN, laddr, k + 1) else old(table[k])
      {
        if i == 0 {
          register := SlotFor(bursts[i], CHAIN_EN, laddr, i);
        } else {
          table[i - 1] := SlotFor(bursts[i], CHAIN_EN, laddr, i);
        }
        i := i + 1;
      }
      LastOp(bursts[i - 1], laddr, i - 1);
      if i == 1 {
        register := register.(descOp := INTR_EN);
      } else {
        table[i - 2] := table[i - 2].(descOp := INTR_EN);
      }
    }
  }

  lemma LastOp(b: Burst, laddr: nat, i: nat)
    ensures SlotFor(b, CHAIN_EN, laddr, i).(descOp := INTR_EN) == SlotFor(b, INTR_EN, laddr, i)
  {
  }

  // ---------- reading ----------

  /** One transfer of the hardware: `count` bytes. */
  datatype Piece = Piece(sar: nat, dar: nat, count: nat)

  /** The slot at a device address. */
  function Fetch(table: seq<Slot>, laddr: nat, address: nat): Option<Slot> {
    if laddr <= address && (address - laddr) % SLOT_SIZE == 0 && (address - laddr) / SLOT_SIZE < |table|
    then Some(table[(address - laddr) / SLOT_SIZE])
    else None
  }

  /** The hardware: it carries out a descriptor and goes on with the one at its
      link as long as the chain bit is set.  The result is what it did and, for
      each transfer, whether it raised the interrupt; None if a link leads
      nowhere, or the chain is longer than `fuel`. */
  function Follow(table: seq<Slot>, laddr: nat, slot: Slot, fuel: nat): Option<(seq<Piece>, seq<bool>)>
    decreases fuel
  {
    var piece := Piece(slot.sarMsb * U32 + slot.sarLsb, slot.darMsb * U32 + slot.darLsb, slot.cnt + 1);
    var raised := slot.descOp % 2 == 1;
    if slot.descOp / 2 % 2 == 0 then Some(([piece], [raised]))
    else if fuel == 0 then None
    else
      var next := Fetch(table, laddr, slot.larMsb * U32 + slot.larLsb);
      if next.None? then None
      else
        var rest := Follow(table, laddr, next.value, fuel - 1);
        if rest.None? then None else Some(([piece] + rest.value.0, [raised] + rest.value.1))
  }

  /** Of n transfers only the last raises the interrupt. */
  function LastOnly(n: nat): (r: seq<bool>)
    ensures |r| == n && forall k :: 0 <= k < n ==> r[k] == (k == n - 1)
  {
    seq(n, k requires 0 <= k < n => k == n - 1)
  }

  /** The byte count of a burst: the register holds one less, so that an empty
      burst would stand for 2^32 bytes. */
  function Count(b: Burst): nat { if b.sz == 0 then U32 else b.sz }

  function PieceOf(b: Burst): Piece { Piece(b.sar, b.dar, Count(b)) }

  function Pieces(bursts: seq<Burst>): (r: seq<Piece>)
    ensures |r| == |bursts| && forall k :: 0 <= k < |bursts| ==> r[k] == PieceOf(bursts[k])
  {
    seq(|bursts|, k requires 0 <= k < |bursts| => PieceOf(bursts[k]))
  }

  /** The fields have the widths of their C types. */
  predicate InWidth(b: Burst) { b.sar < U64 && b.dar < U64 && b.sz < U32 }

  lemma Halves(x: nat)
    ensures x / U32 * U32 + x % U32 == x
  {
  }

  lemma Link(table: seq<Slot>, laddr: nat, i: nat)
    requires i < |table| && laddr + SLOT_SIZE * |table| <= U64
    ensures Fetch(table, laddr, (laddr + i * SLOT_SIZE) % U64) == Some(table[i])
  {
    assert laddr + i * SLOT_SIZE < U64;
  }

  lemma LastStep(table: seq<Slot>, laddr: nat, b: Burst, i: nat, fuel: nat)
    requires InWidth(b)
    ensures Follow(table, laddr, SlotFor(b, INTR_EN, laddr, i), fuel) == Some(([PieceOf(b)], [true]))
  {
    Halves(b.sar);
    Halves(b.dar);
  }

  lemma ChainStep(table: seq<Slot>, laddr: nat, b: Burst, i: nat, fuel: nat)
    requires InWidth(b) && i < |table| && laddr + SLOT_SIZE * |table| <= U64 && fuel > 0
    ensures var rest := Follow(table, laddr, table[i], fuel - 1);
            Follow(table, laddr, SlotFor(b, CHAIN_EN, laddr, i), fuel) ==
              if rest.None? then None else Some(([PieceOf(b)] + rest.value.0, [false] + rest.value.1))
  {
    Halves(b.sar);
    Halves(b.dar);
    Halves((laddr + i * SLOT_SIZE) % U64);
    Link(table, laddr, i);
    hide Fetch;
  }

  lemma {:induction false} FollowFrom(
    table: seq<Slot>, before: seq<Slot>, bursts: seq<Burst>, laddr: nat, i: nat, fuel: nat)
    requires Holds(table, before, bursts, laddr) && laddr + SLOT_SIZE * |table| <= U64
    requires i < |bursts| <= |table| + 1 && fuel >= |bursts| - 1 - i
    requires forall k :: 0 <= k < |bursts| ==> InWidth(bursts[k])
    ensures Follow(table, laddr, SlotAt(bursts, laddr, i), fuel)
         == Some((Pieces(bursts[i..]), LastOnly(|bursts| - i)))
    decreases |bursts| - i
  {
    hide Follow, SlotFor, InWidth, PieceOf;
    var b := bursts[i];
    if i + 1 < |bursts| {
      ChainStep(table, laddr, b, i, fuel);
      FollowFrom(table, before, bursts, laddr, i + 1, fuel - 1);
      assert Pieces(bursts[i..]) == [PieceOf(b)] + Pieces(bursts[i + 1..]);
      assert LastOnly(|bursts| - i) == [false] + LastOnly(|bursts| - i - 1);
    } else {
      LastStep(table, laddr, b, i, fuel);
      assert Pieces(bursts[i..]) == [PieceOf(b)] && LastOnly(1) == [true];
    }
  }

  /** Following the links from the registers, the hardware carries out the
      bursts of the chunk in order, each once, and stops; the last one, and no
      other, raises the interrupt. */
  lemma ReadsBack(table: seq<Slot>, before: seq<Slot>, bursts: seq<Burst>, laddr: nat, fuel: nat)
    requires Holds(table, before, bursts, laddr) && laddr + SLOT_SIZE * |table| <= U64
    requires 1 <= |bursts| <= |table| + 1 && fuel >= |table|
    requires forall k :: 0 <= k < |bursts| ==> InWidth(bursts[k])
    ensures Follow(table, laddr, SlotAt(bursts, laddr, 0), fuel) == Some((Pieces(bursts), LastOnly(|bursts|)))
  {
    FollowFrom(table, before, bursts, laddr, 0, fuel);
    assert bursts[0..] == bursts;
  }

  // ---------- bytes ----------

  /** One byte moved from a bus address to another. */
  datatype Move = Move(src: nat, dst: nat)

  function PieceMoves(p: Piece): (r: seq<Move>)
    ensures |r| == p.count && forall k :: 0 <= k < p.count ==> r[k] == Move((p.sar + k) % U64, (p.dar + k) % U64)
  {
    seq(p.count, k requires 0 <= k < p.count => Move((p.sar + k) % U64, (p.dar + k) % U64))
  }

  function Moves(pieces: seq<Piece>): seq<Move> {
    if pieces == [] then [] else Moves(pieces[..|pieces| - 1]) + PieceMoves(pieces[|pieces| - 1])
  }

  lemma {:induction false} MovesConcat(a: seq<Piece>, b: seq<Piece>)
    ensures Moves(a + b) == Moves(a) + Moves(b)
    decreases |b|
  {
    hide PieceMoves;
    if b == [] {
      assert a + b == a;
    } else {
      var n, all := |b| - 1, a + b;
      assert all[..|all| - 1] == a + b[..n] && all[|all| - 1] == b[n];
      MovesConcat(a, b[..n]);
      var m := PieceMoves(b[n]);
      assert Moves(a) + Moves(b[..n]) + m == Moves(a) + (Moves(b[..n]) + m);
    }
  }

  /** What the hardware does for the chunks of a list, one after the other:
      each is written to the channel memory and its links are followed. */
  ghost predicate HardwareRun(chunks: seq<Chunk>, laddr: nat, slots: nat, runs: seq<seq<Piece>>) {
    && |runs| == |chunks|
    && forall k :: 0 <= k < |chunks| ==> HardwareReads(chunks[k].bursts, laddr, slots, runs[k])
  }

  /** Whatever was in a table of that many slots before. */
  ghost predicate HardwareReads(bursts: seq<Burst>, laddr: nat, slots: nat, run: seq<Piece>) {
    && bursts != []
    && forall table: seq<Slot>, before: seq<Slot> | |table| == slots && Holds(table, before, bursts, laddr) ::
         Follow(table, laddr, SlotAt(bursts, laddr, 0), slots) == Some((run, LastOnly(|run|)))
  }

  function AllPieces(runs: seq<seq<Piece>>): seq<Piece> {
    if runs == [] then [] else runs[0] + AllPieces(runs[1..])
  }

  function ChunkPieces(chunks: seq<Chunk>): (r: seq<seq<Piece>>)
    ensures |r| == |chunks| && forall k :: 0 <= k < |chunks| ==> r[k] == Pieces(chunks[k].bursts)
  {
    seq(|chunks|, k requires 0 <= k < |chunks| => Pieces(chunks[k].bursts))
  }

  lemma {:induction false} PiecesOfChunks(chunks: seq<Chunk>)
    ensures Pieces(AllBursts(chunks)) == AllPieces(ChunkPieces(chunks))
  {
    if chunks != [] {
      PiecesOfChunks(chunks[1..]);
      assert ChunkPieces(chunks)[1..] == ChunkPieces(chunks[1..]);
      assert Pieces(AllBursts(chunks)) == Pieces(chunks[0].bursts) + Pieces(AllBursts(chunks[1..]));
    }
  }

  // ---------- end to end ----------

  /** The bus address of a byte of the user buffer. */
  function BusAddress(bus: nat -> nat, byte: nat): nat { (bus(byte / PAGE_SIZE) + byte % PAGE_SIZE) % U64 }

  function MoveOf(dir: Direction, memory: nat, device: nat): Move {
    if dir.MemToDev? then Move(memory, device) else Move(device, memory)
  }

  /** The bytes of the buffer in order, against consecutive device addresses. */
  function Expected(dir: Direction, laddr: nat, bytes: seq<nat>, bus: nat -> nat): (r: seq<Move>)
    ensures |r| == |bytes|
    ensures forall k :: 0 <= k < |r| ==> r[k] == MoveOf(dir, BusAddress(bus, bytes[k]), (laddr + k) % U64)
  {
    seq(|bytes|, k requires 0 <= k < |bytes| => MoveOf(dir, BusAddress(bus, bytes[k]), (laddr + k) % U64))
  }

  ghost predicate PagesFit(bus: nat -> nat) { forall p :: bus(p) + PAGE_SIZE <= U64 }

  /** `m` moves the bytes `more`, after `done` earlier ones. */
  ghost predicate MovesBytes(m: seq<Move>, more: seq<nat>, bus: nat -> nat, dir: Direction, laddr: nat, done: nat) {
    && |m| == |more|
    && forall k :: 0 <= k < |m| ==> m[k] == MoveOf(dir, BusAddress(bus, more[k]), (laddr + (done + k)) % U64)
  }

  /** One burst moves the bytes of its segment. */
  lemma SegmentMoves(s: Segment, bus: nat -> nat, dir: Direction, laddr: nat, done: nat, b: Burst)
    requires PagesFit(bus) && InPage(s) && s.len > 0
    requires b == BurstFor(b.obj, dir, (laddr + done) % U64, Sg(bus(s.page) + s.offset, s.len))
    ensures MovesBytes(PieceMoves(PieceOf(b)), SegmentBytes(s), bus, dir, laddr, done)
  {
    var m := PieceMoves(PieceOf(b));
    forall k | 0 <= k < |m|
      ensures m[k] == MoveOf(dir, BusAddress(bus, SegmentBytes(s)[k]), (laddr + (done + k)) % U64)
    {
      ByteInPage(s.page, s.offset + k);
      Wraps(laddr, done, k);
    }
  }

  lemma ByteInPage(page: nat, offset: nat)
    requires offset < PAGE_SIZE
    ensures (page * PAGE_SIZE + offset) / PAGE_SIZE == page && (page * PAGE_SIZE + offset) % PAGE_SIZE == offset
  {
  }

  lemma ExpectedGrows(dir: Direction, laddr: nat, bytes: seq<nat>, more: seq<nat>, bus: nat -> nat, m: seq<Move>)
    requires MovesBytes(m, more, bus, dir, laddr, |bytes|)
    ensures Expected(dir, laddr, bytes + more, bus) == Expected(dir, laddr, bytes, bus) + m
  {
    hide BusAddress, MoveOf;
  }

  lemma MovesSplit(bursts: seq<Burst>)
    requires bursts != []
    ensures var n := |bursts| - 1;
            Moves(Pieces(bursts)) == Moves(Pieces(bursts[..n])) + PieceMoves(PieceOf(bursts[n]))
  {
    assert Pieces(bursts)[..|bursts| - 1] == Pieces(bursts[..|bursts| - 1]);
  }

  lemma {:induction false} MovesOfSegments(
    bursts: seq<Burst>, sgl: seq<Segment>, bus: nat -> nat, dir: Direction, laddr: nat)
    requires PagesFit(bus) && Carries(bursts, dir, laddr, MapSg(sgl, bus))
    requires forall i :: 0 <= i < |sgl| ==> sgl[i].len > 0 && InPage(sgl[i])
    ensures Moves(Pieces(bursts)) == Expected(dir, laddr, Covered(sgl), bus)
    ensures LenSum(MapSg(sgl, bus)) == |Covered(sgl)|
    decreases |sgl|
  {
    hide Moves, MovesBytes, PieceMoves, Expected, PagesFit, InPage, Carries, BusAddress, MoveOf, BurstFor;
    if sgl != [] {
      var n := |sgl| - 1;
      FrontCarries(bursts, sgl, bus, dir, laddr);
      var s, b := sgl[n], bursts[n];
      MovesOfSegments(bursts[..n], sgl[..n], bus, dir, laddr);
      var done := Covered(sgl[..n]);
      SegmentMoves(s, bus, dir, laddr, |done|, b);
      MovesSplit(bursts);
      ExpectedGrows(dir, laddr, done, SegmentBytes(s), bus, PieceMoves(PieceOf(b)));
    } else {
      NoMoves(bursts, bus, dir, laddr);
    }
  }

  lemma NoMoves(bursts: seq<Burst>, bus: nat -> nat, dir: Direction, laddr: nat)
    requires Carries(bursts, dir, laddr, MapSg([], bus))
    ensures Moves(Pieces(bursts)) == [] && LenSum(MapSg([], bus)) == 0 && Expected(dir, laddr, [], bus) == []
  {
  }

  lemma FrontCarries(bursts: seq<Burst>, sgl: seq<Segment>, bus: nat -> nat, dir: Direction, laddr: nat)
    requires sgl != [] && Carries(bursts, dir, laddr, MapSg(sgl, bus))
    ensures |bursts| == |sgl|
    ensures var n := |sgl| - 1;
            && MapSg(sgl, bus)[..n] == MapSg(sgl[..n], bus)
            && Carries(bursts[..n], dir, laddr, MapSg(sgl[..n], bus))
            && LenSum(MapSg(sgl, bus)) == LenSum(MapSg(sgl[..n], bus)) + sgl[n].len
            && bursts[n] == BurstFor(bursts[n].obj, dir, (laddr + LenSum(MapSg(sgl[..n], bus))) % U64,
                                     Sg(bus(sgl[n].page) + sgl[n].offset, sgl[n].len))
  {
    var n, all := |sgl| - 1, MapSg(sgl, bus);
    var front := MapSg(sgl[..n], bus);
    assert all[..n] == front;
    forall j | 0 <= j < n ensures CarriesOne(bursts[..n], dir, laddr, front, j) {
      assert front[..j] == all[..j];
      assert CarriesOne(bursts, dir, laddr, all, j);
    }
    assert CarriesOne(bursts, dir, laddr, all, n);
  }

  /** An empty segment makes the hardware move more than the buffer holds. */
  lemma {:induction false} MovesCounted(
    bursts: seq<Burst>, sgl: seq<Segment>, bus: nat -> nat, dir: Direction, laddr: nat)
    requires Carries(bursts, dir, laddr, MapSg(sgl, bus))
    ensures |Moves(Pieces(bursts))| >= |Covered(sgl)|
    ensures (exists i :: 0 <= i < |sgl| && sgl[i].len == 0) ==> |Moves(Pieces(bursts))| > |Covered(sgl)|
    decreases |sgl|
  {
    if sgl != [] {
      var n := |sgl| - 1;
      FrontCarries(bursts, sgl, bus, dir, laddr);
      MovesCounted(bursts[..n], sgl[..n], bus, dir, laddr);
      assert Pieces(bursts)[..n] == Pieces(bursts[..n]);
      assert bursts[n].sz == sgl[n].len;
      assert |PieceMoves(PieceOf(bursts[n]))| == Count(bursts[n]);
      if i :| 0 <= i < n && sgl[i].len == 0 {
        assert sgl[..n][i].len == 0;
      }
    }
  }

  /** Byte k of the buffer, wherever its page is mapped, goes to the k-th device
      address behind the configured destination, or comes from the k-th behind
      the configured source; no other byte is moved. */
  ghost predicate Delivered(moves: seq<Move>, dir: Direction, config: SlaveConfig,
                            offset: nat, size: nat, bus: nat -> nat) {
    && |moves| == size
    && (dir.MemToDev? ==> forall k :: 0 <= k < size ==>
          && moves[k].src == bus((offset + k) / PAGE_SIZE) + (offset + k) % PAGE_SIZE
          && moves[k].dst == (config.dstAddr + k) % U64)
    && (dir.DevToMem? ==> forall k :: 0 <= k < size ==>
          && moves[k].src == (config.srcAddr + k) % U64
          && moves[k].dst == bus((offset + k) / PAGE_SIZE) + (offset + k) % PAGE_SIZE)
  }

  /** What mtdma_device_transfer prepares on a configured channel. */
  ghost predicate PreparedFor(d: Desc, dir: Direction, config: SlaveConfig, sgl: seq<Sg>, llMax: nat) {
    && (dir.MemToDev? ==> Prepared(d, dir, config.dstAddr, sgl, llMax))
    && (dir.DevToMem? ==> Prepared(d, dir, config.srcAddr, sgl, llMax))
  }

  /** From the user buffer and the channel's configuration to the hardware and
      back to bytes: the chunks of the descriptor, each written to the table and
      read through its links, deliver the buffer if and only if it is not empty. */
  lemma EndToEnd(sgl: seq<Segment>, offset: nat, size: nat, bus: nat -> nat, dir: Direction, config: SlaveConfig,
                 d: Desc, llMax: nat, tableAddress: nat, slots: nat)
    requires FromBuffer(sgl, offset, size) && PagesFit(bus) && config.srcAddr < U64 && config.dstAddr < U64
    requires PreparedFor(d, dir, config, MapSg(sgl, bus), llMax)
    requires llMax <= slots + 1 && tableAddress + SLOT_SIZE * slots <= U64
    ensures HardwareRun(d.chunks, tableAddress, slots, ChunkPieces(d.chunks))
    ensures Delivered(Moves(AllPieces(ChunkPieces(d.chunks))), dir, config, offset, size, bus) <==> size > 0
  {
    var laddr := if dir.MemToDev? then config.dstAddr else config.srcAddr;
    hide Tiles, HardwareRun, Moves, Expected, Prepared, Delivered;
    SegmentsMoved(sgl, offset, size, bus, dir, laddr, d, llMax, tableAddress, slots);
    PreparedFilled(d, dir, laddr, MapSg(sgl, bus), llMax);
    DeliveredIs(Moves(AllPieces(ChunkPieces(d.chunks))), dir, config, offset, size, bus);
    if size == 0 { LenWithin(sgl, offset, size, 0); }
  }

  lemma DeliveredIs(moves: seq<Move>, dir: Direction, config: SlaveConfig, offset: nat, size: nat, bus: nat -> nat)
    requires PagesFit(bus)
    ensures Delivered(moves, dir, config, offset, size, bus)
       <==> moves == Expected(dir, if dir.MemToDev? then config.dstAddr else config.srcAddr,
                              seq(size, k requires 0 <= k < size => offset + k), bus)
  {
    var laddr := if dir.MemToDev? then config.dstAddr else config.srcAddr;
    var e := Expected(dir, laddr, seq(size, k requires 0 <= k < size => offset + k), bus);
    hide BusAddress, MoveOf, Expected, Delivered, PagesFit;
    forall k | 0 <= k < size
      ensures e[k] == if dir.MemToDev? then Move(BusAddress(bus, offset + k), (config.dstAddr + k) % U64)
                      else Move((config.srcAddr + k) % U64, BusAddress(bus, offset + k))
    {
      OneMove(dir, BusAddress(bus, offset + k), (laddr + k) % U64);
    }
    AreDelivered(e, dir, config, offset, size, bus);
    if Delivered(moves, dir, config, offset, size, bus) {
      DeliveredOnce(moves, e, dir, config, offset, size, bus);
    }
  }

  lemma AreDelivered(e: seq<Move>, dir: Direction, config: SlaveConfig, offset: nat, size: nat, bus: nat -> nat)
    requires PagesFit(bus) && |e| == size
    requires forall k :: 0 <= k < size ==>
               e[k] == if dir.MemToDev? then Move(BusAddress(bus, offset + k), (config.dstAddr + k) % U64)
                       else Move((config.srcAddr + k) % U64, BusAddress(bus, offset + k))
    ensures Delivered(e, dir, config, offset, size, bus)
  {
    hide BusAddress, PagesFit;
    forall k | 0 <= k < size
      ensures (if dir.MemToDev? then e[k].src else e[k].dst)
              == bus((offset + k) / PAGE_SIZE) + (offset + k) % PAGE_SIZE
    {
      OnBus(bus, offset + k);
    }
  }

  lemma DeliveredOnce(a: seq<Move>, b: seq<Move>, dir: Direction, config: SlaveConfig,
                      offset: nat, size: nat, bus: nat -> nat)
    requires Delivered(a, dir, config, offset, size, bus) && Delivered(b, dir, config, offset, size, bus)
    ensures a == b
  {
    forall k | 0 <= k < size ensures a[k] == b[k] {
    }
  }

  lemma OneMove(dir: Direction, memory: nat, device: nat)
    ensures MoveOf(dir, memory, device) == if dir.MemToDev? then Move(memory, device) else Move(device, memory)
  {
  }

  lemma OnBus(bus: nat -> nat, byte: nat)
    requires PagesFit(bus)
    ensures BusAddress(bus, byte) == bus(byte / PAGE_SIZE) + byte % PAGE_SIZE
  {
  }

  lemma PreparedFilled(d: Desc, dir: Direction, laddr: nat, sgl: seq<Sg>, llMax: nat)
    requires Prepared(d, dir, laddr, sgl, llMax)
    ensures sgl != []
  {
    assert ChunkOk(d.chunks[0], llMax);
  }

  /** The same for any list of segments: if and only if none is empty. */
  lemma SegmentsMoved(sgl: seq<Segment>, offset: nat, size: nat, bus: nat -> nat, dir: Direction, laddr: nat,
                      d: Desc, llMax: nat, tableAddress: nat, slots: nat)
    requires Tiles(sgl, offset, size) && PagesFit(bus) && laddr < U64
    requires Prepared(d, dir, laddr, MapSg(sgl, bus), llMax)
    requires llMax <= slots + 1 && tableAddress + SLOT_SIZE * slots <= U64
    ensures HardwareRun(d.chunks, tableAddress, slots, ChunkPieces(d.chunks))
    ensures Moves(AllPieces(ChunkPieces(d.chunks)))
         == Expected(dir, laddr, seq(size, k requires 0 <= k < size => offset + k), bus)
       <==> forall i :: 0 <= i < |sgl| ==> sgl[i].len > 0
  {
    var bursts := AllBursts(d.chunks);
    PiecesOfChunks(d.chunks);
    MovesCounted(bursts, sgl, bus, dir, laddr);
    if forall i :: 0 <= i < |sgl| ==> sgl[i].len > 0 {
      MovesOfSegments(bursts, sgl, bus, dir, laddr);
    }
    InWidths(sgl, bus, dir, laddr, bursts);
    RunsThrough(d.chunks, llMax, tableAddress, slots);
  }

  lemma InWidths(sgl: seq<Segment>, bus: nat -> nat, dir: Direction, laddr: nat, bursts: seq<Burst>)
    requires PagesFit(bus) && Carries(bursts, dir, laddr, MapSg(sgl, bus))
    requires forall i :: 0 <= i < |sgl| ==> InPage(sgl[i])
    ensures forall k :: 0 <= k < |bursts| ==> InWidth(bursts[k])
  {
    forall k | 0 <= k < |bursts| ensures InWidth(bursts[k]) {
      assert CarriesOne(bursts, dir, laddr, MapSg(sgl, bus), k);
    }
  }

  lemma {:induction false} RunsThrough(chunks: seq<Chunk>, llMax: nat, tableAddress: nat, slots: nat)
    requires ChunksOk(chunks, llMax) && llMax <= slots + 1 && tableAddress + SLOT_SIZE * slots <= U64
    requires forall k :: 0 <= k < |AllBursts(chunks)| ==> InWidth(AllBursts(chunks)[k])
    ensures HardwareRun(chunks, tableAddress, slots, ChunkPieces(chunks))
  {
    if chunks != [] {
      var first, rest := chunks[0].bursts, chunks[1..];
      var all := AllBursts(chunks);
      assert forall k :: 0 <= k < |first| ==> all[k] == first[k];
      assert forall k :: 0 <= k < |AllBursts(rest)| ==> all[|first| + k] == AllBursts(rest)[k];
      RunsThrough(rest, llMax, tableAddress, slots);
      ChunkReads(chunks[0], llMax, tableAddress, slots);
      forall k | 0 <= k < |chunks|
        ensures HardwareReads(chunks[k].bursts, tableAddress, slots, ChunkPieces(chunks)[k])
      {
        if k > 0 {
          assert HardwareReads(rest[k - 1].bursts, tableAddress, slots, ChunkPieces(rest)[k - 1]);
        }
      }
    }
  }

  lemma ChunkReads(c: Chunk, llMax: nat, tableAddress: nat, slots: nat)
    requires ChunkOk(c, llMax) && llMax <= slots + 1 && tableAddress + SLOT_SIZE * slots <= U64
    requires forall k :: 0 <= k < |c.bursts| ==> InWidth(c.bursts[k])
    ensures HardwareReads(c.bursts, tableAddress, slots, Pieces(c.bursts))
  {
    forall table: seq<Slot>, before: seq<Slot> | |table| == slots && Holds(table, before, c.bursts, tableAddress)
      ensures Follow(table, tableAddress, SlotAt(c.bursts, tableAddress, 0), slots)
           == Some((Pieces(c.bursts), LastOnly(|c.bursts|)))
    {
      ReadsBack(table, before, c.bursts, tableAddress, slots);
    }
  }
}
