/** Block mode of driver/mt-emu-mtdma-bare.c with a fixed descriptor count: how
    the blocks of descriptors are laid out in the table and linked. */
module DmaBlocks {
  import opened Common

  /** The part of a descriptor that links it: desc_op and lar. */
  datatype Link = Link(descOp: nat, lar: nat)

  // ---------- the layout ----------

  /** The value of `offset` while block j is written. */
  function Offset(n: nat, j: nat): nat {
    if j == 0 then 0
    else
      var before := Offset(n, j - 1);
      before + (32 - (j * n + before) % 32)
  }

  /** How many descriptors block j has; the first one's first is in the registers. */
  function Length(n: nat, j: nat): nat { if j == 0 then n + 1 else n }

  /** The table slot of descriptor i of block j; -1 for the registers. */
  function SlotOf(n: nat, j: nat, i: nat): int {
    if j == 0 then i - 1 else i + j * n + Offset(n, j)
  }

  /** The slot behind the last descriptor of block j. */
  function EndOf(n: nat, j: nat): nat { (j + 1) * n + Offset(n, j) }

  /** Every block but the first starts at a multiple of 32 slots, at least one
      slot behind the end of the block before it. */
  lemma NextStart(n: nat, j: nat)
    ensures SlotOf(n, j + 1, 0) == EndOf(n, j) + (32 - EndOf(n, j) % 32)
    ensures SlotOf(n, j + 1, 0) % 32 == 0 && EndOf(n, j) < SlotOf(n, j + 1, 0) <= EndOf(n, j) + 32
  {
    RoundUp(EndOf(n, j));
  }

  lemma RoundUp(x: nat)
    ensures (x + (32 - x % 32)) % 32 == 0
  {
  }

  lemma LastSlot(n: nat, j: nat)
    requires n >= 1
    ensures SlotOf(n, j, Length(n, j) - 1) == EndOf(n, j) - 1
  {
    if j > 0 { assert n - 1 + j * n == (j + 1) * n - 1; }
  }

  /** A descriptor's place: a later one has a higher slot. */
  lemma {:induction false} SlotsIncrease(n: nat, j: nat, i: nat, j': nat, i': nat)
    requires n >= 1 && i < Length(n, j) && i' < Length(n, j')
    requires j < j' || (j == j' && i < i')
    ensures SlotOf(n, j, i) < SlotOf(n, j', i')
    decreases j' - j
  {
    if j < j' {
      LastSlot(n, j);
      NextStart(n, j);
      if j + 1 < j' {
        SlotsIncrease(n, j + 1, 0, j', i');
      }
    }
  }

  /** No slot is written for two descriptors, and only the very first
      descriptor is not in the table. */
  lemma NoSlotTwice(n: nat, j: nat, i: nat, j': nat, i': nat)
    requires n >= 1 && i < Length(n, j) && i' < Length(n, j')
    ensures SlotOf(n, j, i) == SlotOf(n, j', i') ==> j == j' && i == i'
    ensures SlotOf(n, j, i) >= 0 || (j == 0 && i == 0)
  {
    if j < j' || (j == j' && i < i') {
      SlotsIncrease(n, j, i, j', i');
    } else if j' < j || (j == j' && i' < i) {
      SlotsIncrease(n, j', i', j, i);
    }
    if j > 0 { SlotsIncrease(n, 0, n, j, i); }
  }

  /** Every descriptor lies in front of the end of the last block. */
  lemma InTable(n: nat, blocks: nat, j: nat, i: nat)
    requires n >= 1 && j < blocks && i < Length(n, j)
    ensures SlotOf(n, j, i) < EndOf(n, blocks - 1)
  {
    var last := Length(n, blocks - 1) - 1;
    LastSlot(n, blocks - 1);
    if j < blocks - 1 || i < last {
      SlotsIncrease(n, j, i, blocks - 1, last);
    }
  }

  // ---------- the links ----------

  /** The register ch_lbar_basic, and the desc_op of a block's last descriptor:
      the chain bit, and in 32 bits the number of descriptors that follow. */
  function Announcement(n: nat): nat { (n * 65536 + 1) % U32 }

  lemma Announces(n: nat)
    ensures Announcement(n) / 65536 == n % 65536 && Announcement(n) % 65536 == 1 && Announcement(n) % 2 == 1
  {
    var a, b := n / 65536, n % 65536;
    assert n * 65536 + 1 == a * U32 + (b * 65536 + 1);
    Remainder(n * 65536 + 1, a, b * 65536 + 1);
  }

  lemma Remainder(x: nat, q: nat, r: nat)
    requires x == q * U32 + r && r < U32
    ensures x % U32 == r
  {
  }

  /** The link of descriptor i of block j: to the next slot, and from the last
      descriptor of a block to the aligned start of the next block, whose
      length it announces. */
  function LinkOf(n: nat, blocks: nat, base: nat, j: nat, i: nat): Link
    requires i < Length(n, j)
  {
    if i == Length(n, j) - 1 then
      Link(if j + 1 < blocks then Announcement(n) else 0, base + SLOT_SIZE * (EndOf(n, j) + (32 - EndOf(n, j) % 32)))
    else Link(0, base + SLOT_SIZE * (SlotOf(n, j, i) + 1))
  }

  /** The first `j` blocks and the first `i` descriptors of block j are written. */
  ghost predicate Written(register: Link, table: seq<Link>, n: nat, blocks: nat, base: nat, j: nat, i: nat) {
    && (j > 0 || i > 0 ==> register == LinkOf(n, blocks, base, 0, 0))
    && forall a: nat, b: nat :: b < Length(n, a) && (a < j || (a == j && b < i)) && (a > 0 || b > 0) ==>
         HasLink(table, n, blocks, base, a, b)
  }

  ghost predicate HasLink(table: seq<Link>, n: nat, blocks: nat, base: nat, j: nat, i: nat)
    requires i < Length(n, j)
  {
    0 <= SlotOf(n, j, i) < |table| && table[SlotOf(n, j, i)] == LinkOf(n, blocks, base, j, i)
  }

  lemma WriteKeeps(register: Link, table: seq<Link>, n: nat, blocks: nat, base: nat, j: nat, i: nat)
    requires n >= 1 && i < Length(n, j) && (j > 0 || i > 0) && 0 <= SlotOf(n, j, i) < |table|
    requires Written(register, table, n, blocks, base, j, i)
    ensures Written(register, table[SlotOf(n, j, i) := LinkOf(n, blocks, base, j, i)], n, blocks, base, j, i + 1)
  {
    hide SlotOf, LinkOf;
    var after := table[SlotOf(n, j, i) := LinkOf(n, blocks, base, j, i)];
    forall a: nat, b: nat | b < Length(n, a) && (a < j || (a == j && b < i + 1)) && (a > 0 || b > 0)
      ensures HasLink(after, n, blocks, base, a, b)
    {
      if a != j || b != i {
        assert HasLink(table, n, blocks, base, a, b);
        NoSlotTwice(n, a, b, j, i);
      }
    }
  }

  lemma NextBlock(register: Link, table: seq<Link>, n: nat, blocks: nat, base: nat, j: nat)
    requires Written(register, table, n, blocks, base, j, Length(n, j))
    ensures Written(register, table, n, blocks, base, j + 1, 0)
  {
    hide HasLink, LinkOf;
  }

  /** The rounding that the code does on addresses. */
  lemma Aligned(base: nat, slots: nat)
    requires base % 1024 == 0
    ensures (base + slots * SLOT_SIZE) % 1024 == 32 * (slots % 32)
    ensures (base + slots * SLOT_SIZE) % 1024 / 32 == slots % 32
    ensures base + slots * SLOT_SIZE + (1024 - (base + slots * SLOT_SIZE) % 1024)
         == base + SLOT_SIZE * (slots + (32 - slots % 32))
  {
    var q, r := slots / 32, slots % 32;
    assert slots == 32 * q + r;
    assert base == 1024 * (base / 1024);
    assert base + slots * SLOT_SIZE == 1024 * (base / 1024 + q) + 32 * r;
    assert (base + slots * SLOT_SIZE) % 1024 == 32 * r;
  }

  class BlockTable {
    const base: nat
    var register: Link
    const table: array<Link>

    constructor (base: nat, register: Link, table: array<Link>)
      ensures this.base == base && this.register == register && this.table == table
    {
      this.base, this.register, this.table := base, register, table;
    }

    /** The loops of block mode over blocks and descriptors. */
    method BlockMode(n: nat, blockCnt: nat) returns (lbar: nat)
      requires 1 <= n && blockCnt >= 1 && base % 1024 == 0
      requires EndOf(n, blockCnt - 1) <= table.Length
      modifies this`register, table
      ensures Written(register, table[..], n, blockCnt, base, blockCnt, 0)
      ensures lbar == Announcement(n)
    {
      hide Written, LinkOf, SlotOf, EndOf;
      var offset := 0;
      lbar := 0;
      NothingWritten(register, table[..], n, blockCnt, base);
      for j := 0 to blockCnt
        invariant offset == Offset(n, j) && (j > 0 ==> lbar == Announcement(n))
        invariant Written(register, table[..], n, blockCnt, base, j, 0)
      {
        if j == 0 {
          offset, lbar := FirstBlock(n, blockCnt, offset);
        } else {
          offset := LaterBlock(n, blockCnt, j, offset);
        }
        NextBlock(register, table[..], n, blockCnt, base, j);
      }
    }

    /** The loop for the first block, which starts in the registers. */
    method FirstBlock(n: nat, blockCnt: nat, offset: nat) returns (offset': nat, lbar: nat)
      requires 1 <= n && blockCnt >= 1 && base % 1024 == 0 && offset == 0
      requires EndOf(n, blockCnt - 1) <= table.Length
      requires Written(register, table[..], n, blockCnt, base, 0, 0)
      modifies this`register, table
      ensures offset' == Offset(n, 1) && lbar == Announcement(n)
      ensures Written(register, table[..], n, blockCnt, base, 0, n + 1)
    {
      hide Written, LinkOf, Offset, SlotOf, HasLink, EndOf;
      offset', lbar := offset, 0;
      for i := 0 to n + 1
        invariant i > 0 ==> lbar == Announcement(n)
        invariant offset' == if i <= n then 0 else Offset(n, 1)
        invariant Written(register, table[..], n, blockCnt, base, 0, i)
      {
        FirstLink(n, blockCnt, base, i);
        InTable(n, blockCnt, 0, i);
        var lar, descOp := base + i * SLOT_SIZE + offset' * 32, 0;
        if i == n {
          Aligned(base, n);
          offset' := offset' + (32 - lar % 1024 / 32);
          lar := lar + (1024 - lar % 1024);
        }
        if i == n && 0 != blockCnt - 1 {
          descOp := (n * 65536 + 1) % U32;
        }
        assert Link(descOp, lar) == LinkOf(n, blockCnt, base, 0, i);
        if i == 0 {
          lbar := (n * 65536 + 1) % U32;
          register := Link(descOp, lar);
          RegisterWritten(register, table[..], n, blockCnt, base);
        } else {
          WriteKeeps(register, table[..], n, blockCnt, base, 0, i);
          ghost var before := table[..];
          table[i - 1] := Link(descOp, lar);
          assert table[..] == before[SlotOf(n, 0, i) := LinkOf(n, blockCnt, base, 0, i)];
        }
      }
    }

    /** The loop for the other blocks. */
    method LaterBlock(n: nat, blockCnt: nat, j: nat, offset: nat) returns (offset': nat)
      requires 1 <= n && 1 <= j < blockCnt && base % 1024 == 0 && offset == Offset(n, j)
      requires EndOf(n, blockCnt - 1) <= table.Length
      requires Written(register, table[..], n, blockCnt, base, j, 0)
      modifies table
      ensures offset' == Offset(n, j + 1)
      ensures Written(register, table[..], n, blockCnt, base, j, n)
    {
      hide Written, Offset;
      offset' := offset;
      for i := 0 to n
        invariant offset' == if i < n then offset else Offset(n, j + 1)
        invariant Written(register, table[..], n, blockCnt, base, j, i)
      {
        InTable(n, blockCnt, j, i);
        NoSlotTwice(n, j, i, 0, 0);
        ghost var before := table[..];
        var slot := i + j * n + offset';
        var lar, descOp := base + (i + j * n + 1) * SLOT_SIZE + offset' * 32, 0;
        LaterLar(n, base, j, i, offset', lar);
        if i == n - 1 {
          Aligned(base, EndOf(n, j));
          OffsetStep(n, j);
          offset' := offset' + (32 - lar % 1024 / 32);
          lar := lar + (1024 - lar % 1024);
        }
        if i == n - 1 && j != blockCnt - 1 {
          descOp := (n * 65536 + 1) % U32;
        }
        assert Link(descOp, lar) == LinkOf(n, blockCnt, base, j, i);
        WriteKeeps(register, table[..], n, blockCnt, base, j, i);
        table[slot] := Link(descOp, lar);
        assert table[..] == before[SlotOf(n, j, i) := LinkOf(n, blockCnt, base, j, i)];
      }
    }
  }

  lemma FirstLink(n: nat, blocks: nat, base: nat, i: nat)
    requires i <= n && blocks >= 1
    ensures SlotOf(n, 0, i) == i - 1 && Offset(n, 1) == 32 - n % 32
    ensures LinkOf(n, blocks, base, 0, i) ==
            if i == n then Link(if 1 < blocks then Announcement(n) else 0, base + SLOT_SIZE * (n + (32 - n % 32)))
            else Link(0, base + SLOT_SIZE * i)
  {
  }

  lemma LaterLar(n: nat, base: nat, j: nat, i: nat, offset: nat, lar: nat)
    requires j >= 1 && i < n && offset == Offset(n, j)
    requires lar == base + (i + j * n + 1) * SLOT_SIZE + offset * 32
    ensures lar == base + SLOT_SIZE * (SlotOf(n, j, i) + 1)
    ensures i == n - 1 ==> lar == base + EndOf(n, j) * SLOT_SIZE
  {
    assert (j + 1) * n == j * n + n;
  }

  lemma OffsetStep(n: nat, j: nat)
    ensures Offset(n, j + 1) == Offset(n, j) + (32 - EndOf(n, j) % 32)
  {
  }

  lemma NothingWritten(register: Link, table: seq<Link>, n: nat, blocks: nat, base: nat)
    ensures Written(register, table, n, blocks, base, 0, 0)
  {
  }

  lemma RegisterWritten(register: Link, table: seq<Link>, n: nat, blocks: nat, base: nat)
    requires register == LinkOf(n, blocks, base, 0, 0)
    ensures Written(register, table, n, blocks, base, 0, 1)
  {
  }

  // ---------- following the links ----------

  /** The hardware: `more` descriptors of this block follow; behind the last one
      it goes on with the block that its chain bit announces.  The result is
      the slots it visits; None if a link leads outside the table. */
  function Visit(table: seq<Link>, base: nat, link: Link, more: nat, fuel: nat): Option<seq<nat>>
    decreases fuel
  {
    if more == 0 && link.descOp % 2 == 0 then Some([])
    else if || fuel == 0 || link.lar < base
            || (link.lar - base) % SLOT_SIZE != 0 || (link.lar - base) / SLOT_SIZE >= |table|
    then None
    else
      var slot := (link.lar - base) / SLOT_SIZE;
      var left := if more > 0 then more - 1 else if link.descOp / 65536 == 0 then 0 else link.descOp / 65536 - 1;
      var rest := Visit(table, base, table[slot], left, fuel - 1);
      if rest.None? then None else Some([slot] + rest.value)
  }

  /** The slots behind descriptor i of block j, in order. */
  function SlotsAfter(n: nat, blocks: nat, j: nat, i: nat): seq<int>
    decreases blocks - j, n + 1 - i
  {
    if j >= blocks then []
    else if i + 1 < Length(n, j) then [SlotOf(n, j, i + 1)] + SlotsAfter(n, blocks, j, i + 1)
    else if j + 1 < blocks then [SlotOf(n, j + 1, 0)] + SlotsAfter(n, blocks, j + 1, 0)
    else []
  }

  /** Within a block the link leads to the next descriptor, */
  lemma LinkWithin(register: Link, table: seq<Link>, n: nat, blocks: nat, base: nat, j: nat, i: nat)
    requires n >= 1 && j < blocks && i + 1 < Length(n, j)
    requires Written(register, table, n, blocks, base, blocks, 0)
    ensures HasLink(table, n, blocks, base, j, i + 1)
    ensures LinkOf(n, blocks, base, j, i).lar == base + SLOT_SIZE * SlotOf(n, j, i + 1)
  {
    var k := i + 1;
    assert HasLink(table, n, blocks, base, j, k);
    assert SlotOf(n, j, i + 1) == SlotOf(n, j, i) + 1;
  }

  lemma LastLink(n: nat, blocks: nat, base: nat, j: nat)
    requires n >= 1 && j + 1 < blocks
    ensures LinkOf(n, blocks, base, j, Length(n, j) - 1)
         == Link(Announcement(n), base + SLOT_SIZE * SlotOf(n, j + 1, 0))
  {
    NextStart(n, j);
    hide SlotOf, EndOf;
  }

  /** and from the last one to the next block. */
  lemma LinkAcross(register: Link, table: seq<Link>, n: nat, blocks: nat, base: nat, j: nat)
    requires 1 <= n <= 65535 && j + 1 < blocks
    requires Written(register, table, n, blocks, base, blocks, 0)
    ensures HasLink(table, n, blocks, base, j + 1, 0)
    ensures var link := LinkOf(n, blocks, base, j, Length(n, j) - 1);
            && link.lar == base + SLOT_SIZE * SlotOf(n, j + 1, 0)
            && link.descOp % 2 == 1 && link.descOp / 65536 == n
  {
    LastLink(n, blocks, base, j);
    Announces(n);
    hide SlotOf, EndOf, LinkOf, HasLink;
    var k := j + 1;
    assert HasLink(table, n, blocks, base, k, 0);
  }

  lemma {:induction false} VisitFrom(
    register: Link, table: seq<Link>, n: nat, blocks: nat, base: nat, j: nat, i: nat, fuel: nat)
    requires 1 <= n <= 65535 && j < blocks && i < Length(n, j)
    requires Written(register, table, n, blocks, base, blocks, 0)
    requires fuel >= |SlotsAfter(n, blocks, j, i)|
    ensures Visit(table, base, LinkOf(n, blocks, base, j, i), Length(n, j) - 1 - i, fuel)
         == Some(SlotsAfter(n, blocks, j, i))
    decreases blocks - j, n + 1 - i
  {
    hide Written, SlotOf, LinkOf, Visit;
    if i + 1 < Length(n, j) {
      LinkWithin(register, table, n, blocks, base, j, i);
      VisitFrom(register, table, n, blocks, base, j, i + 1, fuel - 1);
      OneVisit(table, base, LinkOf(n, blocks, base, j, i), Length(n, j) - 1 - i, SlotOf(n, j, i + 1), fuel);
    } else if j + 1 < blocks {
      LinkAcross(register, table, n, blocks, base, j);
      VisitFrom(register, table, n, blocks, base, j + 1, 0, fuel - 1);
      OneVisit(table, base, LinkOf(n, blocks, base, j, i), 0, SlotOf(n, j + 1, 0), fuel);
    } else {
      LastStops(table, n, blocks, base, j, i, fuel);
    }
  }

  lemma LastStops(table: seq<Link>, n: nat, blocks: nat, base: nat, j: nat, i: nat, fuel: nat)
    requires j + 1 == blocks && i + 1 == Length(n, j)
    ensures Visit(table, base, LinkOf(n, blocks, base, j, i), 0, fuel) == Some([])
  {
  }

  lemma OneVisit(table: seq<Link>, base: nat, link: Link, more: nat, slot: nat, fuel: nat)
    requires slot < |table| && link.lar == base + SLOT_SIZE * slot && fuel > 0
    requires more > 0 || (link.descOp % 2 == 1 && link.descOp / 65536 > 0)
    ensures var left := if more > 0 then more - 1 else link.descOp / 65536 - 1;
            var rest := Visit(table, base, table[slot], left, fuel - 1);
            Visit(table, base, link, more, fuel) == if rest.None? then None else Some([slot] + rest.value)
  {
    assert (link.lar - base) / SLOT_SIZE == slot;
  }

  lemma {:induction false} AllSlotsAfter(n: nat, blocks: nat, i: nat)
    requires i <= n && blocks >= 1
    ensures |SlotsAfter(n, blocks, 0, i)| >= n - i
    decreases n - i
  {
    if i < n { AllSlotsAfter(n, blocks, i + 1); }
  }

  /** Told that fewer descriptors follow in the first block than there are, the
      hardware stops after those. */
  lemma {:induction false} VisitShort(
    register: Link, table: seq<Link>, n: nat, blocks: nat, base: nat, i: nat, more: nat, fuel: nat)
    requires n >= 1 && blocks >= 1 && i + more < n && fuel >= more
    requires Written(register, table, n, blocks, base, blocks, 0)
    ensures var r := Visit(table, base, LinkOf(n, blocks, base, 0, i), more, fuel);
            r.Some? && |r.value| == more
    decreases more
  {
    hide Written, SlotOf;
    if more > 0 {
      LinkWithin(register, table, n, blocks, base, 0, i);
      VisitShort(register, table, n, blocks, base, i + 1, more - 1, fuel - 1);
      hide LinkOf, Visit;
      OneVisit(table, base, LinkOf(n, blocks, base, 0, i), more, SlotOf(n, 0, i + 1), fuel);
    }
  }

  /** Started on what block mode wrote and announced, the hardware visits the
      descriptors of all blocks in order, each once, and stops behind the last
      block, if and only if a block has at most 65535 descriptors. */
  lemma VisitsAll(register: Link, table: seq<Link>, lbar: nat, n: nat, blocks: nat, base: nat, fuel: nat)
    requires n >= 1 && blocks >= 1 && lbar == Announcement(n)
    requires Written(register, table, n, blocks, base, blocks, 0)
    requires fuel >= |SlotsAfter(n, blocks, 0, 0)|
    ensures Visit(table, base, register, lbar / 65536, fuel) == Some(SlotsAfter(n, blocks, 0, 0))
       <==> n <= 65535
  {
    hide SlotOf, LinkOf, Visit, SlotsAfter, EndOf, HasLink, Announcement;
    Announces(n);
    if n <= 65535 {
      VisitFrom(register, table, n, blocks, base, 0, 0, fuel);
    } else {
      AllSlotsAfter(n, blocks, 0);
      VisitShort(register, table, n, blocks, base, 0, n % 65536, fuel);
    }
  }

  /** Every block starts at an address that is a multiple of 1024. */
  lemma BlocksAligned(n: nat, base: nat, j: nat)
    requires n >= 1 && j >= 1 && base % 1024 == 0
    ensures (base + SLOT_SIZE * SlotOf(n, j, 0)) % 1024 == 0
  {
    NextStart(n, j - 1);
    hide SlotOf, EndOf;
    Aligned(base, SlotOf(n, j, 0));
  }
}
