/** The bare descriptor builder of driver/mt-emu-mtdma-bare.c: chain mode with
    an even or a random split, and the regions of build_dma_info. */
module DmaBare {
  import opened Common
  import opened DmaDescriptors
  import opened DmaTransfer
  import opened DmaTable

  // ---------- splitting ----------

  function Sum(sizes: seq<nat>): nat {
    if sizes == [] then 0 else Sum(sizes[..|sizes| - 1]) + sizes[|sizes| - 1]
  }

  lemma SumMore(sizes: seq<nat>, x: nat)
    ensures Sum(sizes + [x]) == Sum(sizes) + x
  {
    assert (sizes + [x])[..|sizes|] == sizes;
  }

  lemma SumPrefix(sizes: seq<nat>, i: nat)
    requires i < |sizes|
    ensures Sum(sizes[..i + 1]) == Sum(sizes[..i]) + sizes[i]
  {
    assert sizes[..i + 1][..i] == sizes[..i];
  }

  lemma {:induction false} SumCons(x: nat, sizes: seq<nat>)
    ensures Sum([x] + sizes) == x + Sum(sizes)
    decreases |sizes|
  {
    if sizes == [] {
      assert [x] + sizes == [] + [x];
      SumMore([], x);
    } else {
      var n := |sizes| - 1;
      assert [x] + sizes == [x] + sizes[..n] + [sizes[n]];
      SumMore([x] + sizes[..n], sizes[n]);
      SumCons(x, sizes[..n]);
    }
  }

  /** The k-th random piece of what is left: at least 4 KiB and below 64 KiB,
      unless less is left. */
  function RandomPiece(left: nat, r: nat): (piece: nat)
    requires left > 0
    ensures 0 < piece <= left && piece < 0x10000 && (piece < PAGE_SIZE ==> piece == left)
  {
    var piece := r % (64 * 1024 - 4 * 1024) + 4 * 1024;
    if piece > left then left else piece
  }

  /** The random split, from the k-th random number on. */
  function RandomSizes(left: nat, random: nat -> nat, k: nat): seq<nat>
    decreases left
  {
    if left == 0 then []
    else
      var piece := RandomPiece(left, random(k));
      [piece] + RandomSizes(left - piece, random, k + 1)
  }

  /** The pieces add up to the size, are positive and below 64 KiB, and at least
      4 KiB except for the last, so that there are at most as many as pages. */
  lemma {:induction false} RandomSplit(left: nat, random: nat -> nat, k: nat)
    ensures var sizes := RandomSizes(left, random, k);
            && Sum(sizes) == left && (left > 0 ==> sizes != [])
            && (forall j :: 0 <= j < |sizes| ==> 0 < sizes[j] < 0x10000)
            && (forall j :: 0 <= j < |sizes| - 1 ==> sizes[j] >= PAGE_SIZE)
            && |sizes| <= (left + PAGE_SIZE - 1) / PAGE_SIZE
    decreases left
  {
    if left > 0 {
      var piece := RandomPiece(left, random(k));
      RandomSplit(left - piece, random, k + 1);
      SumCons(piece, RandomSizes(left - piece, random, k + 1));
    }
  }

  /** Piece j is what its random number asks for, 4 KiB and up to 60 KiB more, or
      what is left. */
  lemma {:induction false} RandomPieceAt(left: nat, random: nat -> nat, k: nat, j: nat)
    requires j < |RandomSizes(left, random, k)|
    ensures var sizes := RandomSizes(left, random, k);
            var want := 4096 + random(k + j) % 61440;
            && Sum(sizes[..j]) < left
            && sizes[j] == if want <= left - Sum(sizes[..j]) then want else left - Sum(sizes[..j])
    decreases j
  {
    hide Sum;
    var sizes := RandomSizes(left, random, k);
    var piece := RandomPiece(left, random(k));
    var rest := RandomSizes(left - piece, random, k + 1);
    assert sizes == [piece] + rest;
    NoSum();
    hide RandomSizes;
    if j > 0 {
      RandomPieceAt(left - piece, random, k + 1, j - 1);
      SumCons(piece, rest[..j - 1]);
      assert sizes[..j] == [piece] + rest[..j - 1];
    }
  }

  lemma NoSum()
    ensures Sum([]) == 0
  {
  }

  /** With every number a multiple of 60 KiB there are as many pieces as pages. */
  lemma {:induction false} SmallestPieces(left: nat, random: nat -> nat, k: nat)
    requires forall j :: random(j) == 0
    ensures |RandomSizes(left, random, k)| == (left + PAGE_SIZE - 1) / PAGE_SIZE
    decreases left
  {
    if left > 0 {
      assert random(k) == 0;
      SmallestPieces(left - RandomPiece(left, 0), random, k + 1);
    }
  }

  /** Whatever the random numbers are, there are at most 65536 pieces: exactly
      up to 256 MiB. */
  lemma FewPiecesIff(size: nat)
    ensures (forall random: nat -> nat :: |RandomSizes(size, random, 0)| <= 65536) <==> size <= 65536 * PAGE_SIZE
  {
    if size <= 65536 * PAGE_SIZE {
      forall random: nat -> nat ensures |RandomSizes(size, random, 0)| <= 65536 {
        RandomSplit(size, random, 0);
      }
    } else {
      var zero: nat -> nat := _ => 0;
      SmallestPieces(size, zero, 0);
      assert |RandomSizes(size, zero, 0)| > 65536;
    }
  }

  /** The loop of the random split */
  method SplitRandom(size: nat, random: nat -> nat) returns (sizes: seq<nat>)
    requires size < U32
    ensures sizes == RandomSizes(size, random, 0)
  {
    var sizeTmp := size;
    sizes := [];
    while sizeTmp != 0
      invariant 0 <= sizeTmp <= size
      invariant sizes + RandomSizes(sizeTmp, random, |sizes|) == RandomSizes(size, random, 0)
      decreases sizeTmp
    {
      var sizeRand := random(|sizes|) % (64 * 1024 - 4 * 1024) + 4 * 1024;
      var piece := if sizeRand > sizeTmp then sizeTmp else sizeRand;
      ghost var rest := RandomSizes(sizeTmp - piece, random, |sizes| + 1);
      assert sizes + ([piece] + rest) == sizes + [piece] + rest;
      sizes := sizes + [piece];
      sizeTmp := sizeTmp - piece;
    }
  }

  /** The even split: n equal pieces and the rest. */
  function EvenSizes(size: nat, n: nat): (sizes: seq<nat>)
    ensures |sizes| == n + 1
  {
    EvenFits(size, n);
    seq(n, _ => size / (n + 1)) + [size - n * (size / (n + 1))]
  }

  lemma EvenFits(size: nat, n: nat)
    ensures n * (size / (n + 1)) + size / (n + 1) <= size
    ensures size / (n + 1) > 0 <==> size >= n + 1
  {
    var q, r := size / (n + 1), size % (n + 1);
    assert size == (n + 1) * q + r;
    assert (n + 1) * q == n * q + q;
    if q > 0 { assert (n + 1) * q >= n + 1; }
    if q == 0 { assert (n + 1) * q == 0; }
  }

  lemma {:induction false} SumEqual(q: nat, n: nat)
    ensures Sum(seq(n, _ => q)) == n * q
    decreases n
  {
    if n > 0 {
      SumEqual(q, n - 1);
      assert seq(n, _ => q)[..n - 1] == seq(n - 1, _ => q);
      assert n * q == (n - 1) * q + q;
    }
  }

  lemma EvenAt(size: nat, n: nat, k: nat)
    requires k <= n
    ensures EvenSizes(size, n)[k] == if k < n then size / (n + 1) else size - n * (size / (n + 1))
  {
  }

  /** The pieces add up to the size, and none is empty exactly if there are at
      least as many bytes as pieces. */
  lemma EvenSplit(size: nat, n: nat)
    ensures Sum(EvenSizes(size, n)) == size
    ensures (forall k :: 0 <= k <= n ==> EvenSizes(size, n)[k] > 0) <==> size >= n + 1
  {
    EvenSum(size, n);
    hide EvenSizes, Sum;
    EvenFits(size, n);
    if size >= n + 1 {
      forall k | 0 <= k <= n ensures EvenSizes(size, n)[k] > 0 { EvenAt(size, n, k); }
    } else {
      EvenAt(size, n, 0);
    }
  }

  lemma EvenSum(size: nat, n: nat)
    ensures Sum(EvenSizes(size, n)) == size
  {
    var q := size / (n + 1);
    EvenFits(size, n);
    SumEqual(q, n);
    SumMore(seq(n, _ => q), size - n * q);
  }

  // ---------- the chain ----------

  /** The k-th descriptor's share. */
  function ChainBurst(sizes: seq<nat>, sar: nat, dar: nat, k: nat): Burst
    requires k < |sizes|
  {
    Burst(0, (sar + Sum(sizes[..k])) % U64, (dar + Sum(sizes[..k])) % U64, sizes[k])
  }

  function ChainSlot(sizes: seq<nat>, sar: nat, dar: nat, laddr: nat, k: nat): Slot
    requires k < |sizes|
  {
    SlotFor(ChainBurst(sizes, sar, dar, k), 0, laddr, k)
  }

  ghost predicate ChainHolds(m: ChannelMemory, before: seq<Slot>, sizes: seq<nat>, sar: nat, dar: nat, done: nat)
    requires done <= |sizes|
    reads m, m.table
  {
    && m.table.Length == |before|
    && (done > 0 ==> m.register == ChainSlot(sizes, sar, dar, m.laddr, 0))
    && forall k :: 0 <= k < m.table.Length ==>
         m.table[k] == if k + 1 < done then ChainSlot(sizes, sar, dar, m.laddr, k + 1) else before[k]
  }

  lemma Announced(n: nat)
    ensures (n * 65536 % U32 + 1) / 65536 == n % 65536 && (n * 65536 % U32 + 1) % 65536 == 1
  {
    var q, r := n / 65536, n % 65536;
    assert n * 65536 == q * U32 + r * 65536;
    assert n * 65536 % U32 == r * 65536;
    Low16(r);
  }

  lemma Low16(r: nat)
    ensures (r * 65536 + 1) / 65536 == r && (r * 65536 + 1) % 65536 == 1
  {
    var a, b := (r * 65536 + 1) / 65536, (r * 65536 + 1) % 65536;
    assert r * 65536 + 1 == a * 65536 + b;
    assert 65536 * (r - a) == b - 1;
  }

  lemma NothingHeld(m: ChannelMemory, sizes: seq<nat>, sar: nat, dar: nat)
    ensures ChainHolds(m, m.table[..], sizes, sar, dar, 0) && Sum(sizes[..0]) == 0
  {
  }

  /** One turn of that loop: the i-th descriptor goes to the registers or to
      slot i - 1. */
  method WriteSlot(m: ChannelMemory, ghost before: seq<Slot>, ghost sizes: seq<nat>, ghost sar: nat, ghost dar: nat,
                   i: nat, slot: Slot)
    requires i < |sizes| <= m.table.Length + 1 && slot == ChainSlot(sizes, sar, dar, m.laddr, i)
    requires ChainHolds(m, before, sizes, sar, dar, i)
    modifies m`register, m.table
    ensures ChainHolds(m, before, sizes, sar, dar, i + 1)
  {
    hide ChainSlot;
    if i == 0 {
      m.register := slot;
    } else {
      m.table[i - 1] := slot;
    }
  }

  /** The loop of chain mode for given sizes; `lbar` is what goes to the
      register that announces the chain. */
  method WriteChain(m: ChannelMemory, sizes: seq<nat>, sar: nat, dar: nat) returns (lbar: nat)
    requires 1 <= |sizes| <= m.table.Length + 1 && sar < U64 && dar < U64
    modifies m`register, m.table
    ensures ChainHolds(m, old(m.table[..]), sizes, sar, dar, |sizes|)
    ensures m.register.descOp == 0 && forall k :: 0 <= k < |sizes| - 1 ==> m.table[k].descOp == 0
    ensures lbar / 65536 == (|sizes| - 1) % 65536 && lbar % 65536 == 1
  {
    hide SlotFor, Sum, ChainHolds;
    ghost var before := m.table[..];
    lbar := (|sizes| - 1) * 65536 % U32 + 1;
    Announced(|sizes| - 1);
    NothingHeld(m, sizes, sar, dar);
    var sarTmp, darTmp := sar, dar;
    var i := 0;
    while i < |sizes|
      invariant 0 <= i <= |sizes|
      invariant sarTmp == (sar + Sum(sizes[..i])) % U64 && darTmp == (dar + Sum(sizes[..i])) % U64
      invariant ChainHolds(m, before, sizes, sar, dar, i)
    {
      WriteSlot(m, before, sizes, sar, dar, i, SlotFor(Burst(0, sarTmp, darTmp, sizes[i]), 0, m.laddr, i));
      SumPrefix(sizes, i);
      Wraps(sar, Sum(sizes[..i]), sizes[i]);
      Wraps(dar, Sum(sizes[..i]), sizes[i]);
      sarTmp := (sarTmp + sizes[i]) % U64;
      darTmp := (darTmp + sizes[i]) % U64;
      i := i + 1;
    }
    NoOps(m, before, sizes, sar, dar);
  }

  lemma NoOps(m: ChannelMemory, before: seq<Slot>, sizes: seq<nat>, sar: nat, dar: nat)
    requires 1 <= |sizes| <= m.table.Length + 1 && ChainHolds(m, before, sizes, sar, dar, |sizes|)
    ensures m.register.descOp == 0 && forall k :: 0 <= k < |sizes| - 1 ==> m.table[k].descOp == 0
  {
  }

  /** How chain mode splits: bit 31 of the descriptor count asks for a random
      split. */
  function ChainSizes(descCnt: nat, size: nat, random: nat -> nat): seq<nat> {
    if descCnt >= 0x8000_0000 then RandomSizes(size, random, 0) else EvenSizes(size, descCnt)
  }

  /** Chain mode of dma_bare_xfer, for a table that the chain fits */
  method ChainMode(m: ChannelMemory, descCnt: nat, size: nat, sar: nat, dar: nat, random: nat -> nat)
    returns (lbar: nat)
    requires 0 < descCnt < U32 && size < U32 && sar < U64 && dar < U64
    requires descCnt >= 0x8000_0000 ==> size > 0
    requires |ChainSizes(descCnt, size, random)| <= m.table.Length + 1
    modifies m`register, m.table
    ensures var sizes := ChainSizes(descCnt, size, random);
            && sizes != [] && Sum(sizes) == size
            && ChainHolds(m, old(m.table[..]), sizes, sar, dar, |sizes|)
            && lbar / 65536 == (|sizes| - 1) % 65536 && lbar % 65536 == 1
  {
    var pieces: seq<nat>;
    if descCnt / 0x8000_0000 == 1 {
      RandomSplit(size, random, 0);
      pieces := SplitRandom(size, random);
    } else {
      var elmCnt := size / (descCnt + 1);
      EvenFits(size, descCnt);
      EvenSplit(size, descCnt);
      pieces := seq(descCnt, _ => elmCnt) + [size - descCnt * elmCnt];
      assert pieces == EvenSizes(size, descCnt);
    }
    lbar := WriteChain(m, pieces, sar, dar);
  }

  // ---------- what the chain moves ----------

  /** The hardware, told how many more descriptors follow the first. */
  function FollowCount(table: seq<Slot>, laddr: nat, slot: Slot, more: nat): Option<seq<Piece>>
    decreases more
  {
    var piece := Piece(slot.sarMsb * U32 + slot.sarLsb, slot.darMsb * U32 + slot.darLsb, slot.cnt + 1);
    if more == 0 then Some([piece])
    else
      var next := Fetch(table, laddr, slot.larMsb * U32 + slot.larLsb);
      if next.None? then None
      else
        var rest := FollowCount(table, laddr, next.value, more - 1);
        if rest.None? then None else Some([piece] + rest.value)
  }

  function ChainPieces(sizes: seq<nat>, sar: nat, dar: nat, from: nat): (r: seq<Piece>)
    requires from <= |sizes|
    ensures |r| == |sizes| - from
    ensures forall k :: 0 <= k < |r| ==> r[k] == PieceOf(ChainBurst(sizes, sar, dar, from + k))
  {
    seq(|sizes| - from, k requires 0 <= k < |sizes| - from => PieceOf(ChainBurst(sizes, sar, dar, from + k)))
  }

  lemma CountStep(table: seq<Slot>, laddr: nat, b: Burst, i: nat, more: nat)
    requires InWidth(b) && laddr + SLOT_SIZE * |table| <= U64 && (more > 0 ==> i < |table|)
    ensures FollowCount(table, laddr, SlotFor(b, 0, laddr, i), more) ==
            if more == 0 then Some([PieceOf(b)])
            else
              var rest := FollowCount(table, laddr, table[i], more - 1);
              if rest.None? then None else Some([PieceOf(b)] + rest.value)
  {
    Halves(b.sar);
    Halves(b.dar);
    Halves((laddr + i * SLOT_SIZE) % U64);
    if more > 0 { Link(table, laddr, i); }
    hide Fetch;
  }

  /** The descriptors of the chain in a table. */
  ghost predicate InTable(table: seq<Slot>, sizes: seq<nat>, sar: nat, dar: nat, laddr: nat) {
    && |sizes| <= |table| + 1
    && forall k :: 0 <= k < |sizes| - 1 ==> table[k] == ChainSlot(sizes, sar, dar, laddr, k + 1)
  }

  /** What WriteChain leaves behind is such a table. */
  lemma Written(m: ChannelMemory, before: seq<Slot>, sizes: seq<nat>, sar: nat, dar: nat)
    requires sizes != [] && |sizes| <= m.table.Length + 1 && ChainHolds(m, before, sizes, sar, dar, |sizes|)
    ensures InTable(m.table[..], sizes, sar, dar, m.laddr) && m.register == ChainSlot(sizes, sar, dar, m.laddr, 0)
  {
  }

  lemma {:induction false} CountFrom(
    table: seq<Slot>, laddr: nat, sizes: seq<nat>, sar: nat, dar: nat, i: nat, more: nat)
    requires InTable(table, sizes, sar, dar, laddr) && i + more < |sizes| && laddr + SLOT_SIZE * |table| <= U64
    requires forall k :: 0 <= k < |sizes| ==> sizes[k] < U32
    ensures FollowCount(table, laddr, ChainSlot(sizes, sar, dar, laddr, i), more)
         == Some(ChainPieces(sizes, sar, dar, i)[..more + 1])
    decreases more
  {
    hide FollowCount, SlotFor, PieceOf;
    var b := ChainBurst(sizes, sar, dar, i);
    ChainCons(sizes, sar, dar, i);
    var rest := ChainPieces(sizes, sar, dar, i + 1);
    if more > 0 {
      assert table[i] == ChainSlot(sizes, sar, dar, laddr, i + 1);
      CountFrom(table, laddr, sizes, sar, dar, i + 1, more - 1);
      assert ([PieceOf(b)] + rest)[..more + 1] == [PieceOf(b)] + rest[..more];
    } else {
      assert ([PieceOf(b)] + rest)[..1] == [PieceOf(b)];
    }
    CountStep(table, laddr, b, i, more);
  }

  lemma ChainCons(sizes: seq<nat>, sar: nat, dar: nat, i: nat)
    requires i < |sizes|
    ensures ChainPieces(sizes, sar, dar, i)
         == [PieceOf(ChainBurst(sizes, sar, dar, i))] + ChainPieces(sizes, sar, dar, i + 1)
  {
    hide PieceOf;
  }

  /** `n` bytes moved straight through */
  function Straight(sar: nat, dar: nat, n: nat): (r: seq<Move>)
    ensures |r| == n && forall k :: 0 <= k < n ==> r[k] == Move((sar + k) % U64, (dar + k) % U64)
  {
    seq(n, k requires 0 <= k < n => Move((sar + k) % U64, (dar + k) % U64))
  }

  lemma StraightGrows(sar: nat, dar: nat, done: nat, n: nat)
    ensures Straight(sar, dar, done) + PieceMoves(Piece((sar + done) % U64, (dar + done) % U64, n))
         == Straight(sar, dar, done + n)
  {
    var m := PieceMoves(Piece((sar + done) % U64, (dar + done) % U64, n));
    forall k | 0 <= k < n ensures m[k] == Straight(sar, dar, done + n)[done + k] {
      Wraps(sar, done, k);
      Wraps(dar, done, k);
    }
  }

  lemma {:induction false} PrefixMoves(sizes: seq<nat>, sar: nat, dar: nat, i: nat)
    requires i <= |sizes| && forall k :: 0 <= k < i ==> sizes[k] > 0
    ensures Moves(ChainPieces(sizes, sar, dar, 0)[..i]) == Straight(sar, dar, Sum(sizes[..i]))
    decreases i
  {
    hide PieceMoves;
    var pieces := ChainPieces(sizes, sar, dar, 0);
    if i > 0 {
      PrefixMoves(sizes, sar, dar, i - 1);
      SumPrefix(sizes, i - 1);
      assert pieces[..i][..i - 1] == pieces[..i - 1];
      StraightGrows(sar, dar, Sum(sizes[..i - 1]), sizes[i - 1]);
    }
  }

  lemma {:induction false} MovesAtLeast(pieces: seq<Piece>, k: nat)
    requires k < |pieces|
    ensures |Moves(pieces)| >= pieces[k].count
    decreases |pieces|
  {
    if k < |pieces| - 1 { MovesAtLeast(pieces[..|pieces| - 1], k); }
  }

  lemma {:induction false} SumBehind(sizes: seq<nat>, i: nat)
    requires i <= |sizes|
    ensures Sum(sizes[..i]) <= Sum(sizes)
    ensures Sum(sizes[..i]) == Sum(sizes) <==> forall k :: i <= k < |sizes| ==> sizes[k] == 0
    decreases |sizes| - i
  {
    if i == |sizes| {
      assert sizes[..i] == sizes;
    } else {
      SumPrefix(sizes, i);
      SumBehind(sizes, i + 1);
    }
  }

  /** The chain holds and the hardware follows it as far as the registers
      announce, which is the number of further descriptors modulo 65536.  Then it
      moves all bytes straight from the source range to the destination range,
      each once and in order, if and only if no descriptor it reaches has an
      empty share and every one behind has. */
  lemma ChainMoves(table: seq<Slot>, laddr: nat, sizes: seq<nat>, sar: nat, dar: nat)
    requires sizes != [] && InTable(table, sizes, sar, dar, laddr) && laddr + SLOT_SIZE * |table| <= U64
    requires Sum(sizes) < U32 && forall k :: 0 <= k < |sizes| ==> sizes[k] < U32
    ensures var more := (|sizes| - 1) % 65536;
            && FollowCount(table, laddr, ChainSlot(sizes, sar, dar, laddr, 0), more)
               == Some(ChainPieces(sizes, sar, dar, 0)[..more + 1])
            && (Moves(ChainPieces(sizes, sar, dar, 0)[..more + 1]) == Straight(sar, dar, Sum(sizes))
                <==> (forall k :: 0 <= k <= more ==> sizes[k] > 0)
                     && (forall k :: more < k < |sizes| ==> sizes[k] == 0))
  {
    hide FollowCount, ChainSlot, InTable;
    var more := (|sizes| - 1) % 65536;
    CountFrom(table, laddr, sizes, sar, dar, 0, more);
    var pieces := ChainPieces(sizes, sar, dar, 0);
    var reached := pieces[..more + 1];
    SumBehind(sizes, more + 1);
    if forall k :: 0 <= k <= more ==> sizes[k] > 0 {
      PrefixMoves(sizes, sar, dar, more + 1);
    } else {
      var k :| 0 <= k <= more && sizes[k] == 0;
      MovesAtLeast(reached, k);
      assert reached[k].count == U32;
    }
  }

  lemma {:induction false} EachBelowSum(sizes: seq<nat>, k: nat)
    requires k < |sizes|
    ensures sizes[k] <= Sum(sizes)
    decreases |sizes|
  {
    if k < |sizes| - 1 { EachBelowSum(sizes[..|sizes| - 1], k); }
  }

  /** The shares of the even split, as far as they are reached. */
  lemma EvenReached(size: nat, n: nat)
    requires n > 0
    ensures var sizes, more := EvenSizes(size, n), n % 65536;
            (forall k :: 0 <= k <= more ==> sizes[k] > 0) && (forall k :: more < k < |sizes| ==> sizes[k] == 0)
            <==> n <= 65535 && size >= n + 1
  {
    EvenSplit(size, n);
    EvenFits(size, n);
    var sizes, more := EvenSizes(size, n), n % 65536;
    EvenAt(size, n, 0);
    EvenAt(size, n, n);
    hide EvenSizes;
    if n > 65535 {
      assert more < n;
    }
  }

  /** What the hardware moves when it is started on registers, table and the
      announced count; None if a link leads nowhere. */
  ghost function Transferred(m: ChannelMemory, lbar: nat): Option<seq<Move>>
    reads m, m.table
  {
    var pieces := FollowCount(m.table[..], m.laddr, m.register, lbar / 65536);
    if pieces.None? then None else Some(Moves(pieces.value))
  }

  /** Chain mode transfers exactly the bytes asked for, each once and in order:
      with an even split if and only if there are at most 65535 further
      descriptors and no more descriptors than bytes; with a random split if and
      only if there are at most 65536 pieces, which is so for all random numbers
      exactly up to 256 MiB (FewPiecesIff). */
  lemma ChainModeTransfers(
    m: ChannelMemory, before: seq<Slot>, lbar: nat, descCnt: nat, size: nat, sar: nat, dar: nat,
    random: nat -> nat)
    requires 0 < descCnt < U32 && size < U32 && (descCnt >= 0x8000_0000 ==> size > 0)
    requires var sizes := ChainSizes(descCnt, size, random);
             && sizes != [] && |sizes| <= m.table.Length + 1
             && ChainHolds(m, before, sizes, sar, dar, |sizes|) && lbar / 65536 == (|sizes| - 1) % 65536
    requires m.laddr + SLOT_SIZE * m.table.Length <= U64
    ensures Transferred(m, lbar).Some?
    ensures Transferred(m, lbar) == Some(Straight(sar, dar, size)) <==>
              if descCnt < 0x8000_0000 then descCnt <= 65535 && size >= descCnt + 1
              else |RandomSizes(size, random, 0)| <= 65536
  {
    hide FollowCount, InTable, ChainHolds, Moves, ChainSizes, Sum;
    var sizes := ChainSizes(descCnt, size, random);
    Written(m, before, sizes, sar, dar);
    SharesReached(descCnt, size, random);
    forall k | 0 <= k < |sizes| ensures sizes[k] < U32 { EachBelowSum(sizes, k); }
    ChainMoves(m.table[..], m.laddr, sizes, sar, dar);
  }

  /** When the announced count reaches exactly the descriptors with a share. */
  lemma SharesReached(descCnt: nat, size: nat, random: nat -> nat)
    requires 0 < descCnt < U32 && size < U32 && (descCnt >= 0x8000_0000 ==> size > 0)
    ensures var sizes := ChainSizes(descCnt, size, random);
            && sizes != [] && Sum(sizes) == size
            && var more := (|sizes| - 1) % 65536;
               ((forall k :: 0 <= k <= more ==> sizes[k] > 0) && (forall k :: more < k < |sizes| ==> sizes[k] == 0)
                <==> if descCnt < 0x8000_0000 then descCnt <= 65535 && size >= descCnt + 1
                     else |RandomSizes(size, random, 0)| <= 65536)
  {
    if descCnt < 0x8000_0000 {
      EvenSplit(size, descCnt);
      EvenReached(size, descCnt);
    } else {
      RandomSplit(size, random, 0);
      RandomReached(RandomSizes(size, random, 0));
    }
  }

  lemma RandomReached(sizes: seq<nat>)
    requires sizes != [] && forall k :: 0 <= k < |sizes| ==> sizes[k] > 0
    ensures var more := (|sizes| - 1) % 65536;
            (forall k :: more < k < |sizes| ==> sizes[k] == 0) <==> |sizes| <= 65536
  {
    var more := (|sizes| - 1) % 65536;
    if |sizes| > 65536 {
      assert more < |sizes| - 1 && sizes[|sizes| - 1] > 0;
    }
  }

  /** 65536 further descriptors are announced as none: of 65537 bytes, one for
      each descriptor, the hardware moves the first alone. */
  lemma TooManyDescriptors(table: seq<Slot>, laddr: nat, sar: nat, dar: nat)
    requires InTable(table, EvenSizes(65537, 65536), sar, dar, laddr) && laddr + SLOT_SIZE * |table| <= U64
    ensures var first := ChainSlot(EvenSizes(65537, 65536), sar, dar, laddr, 0);
            var pieces := FollowCount(table, laddr, first, 65536 % 65536);
            pieces.Some? && Moves(pieces.value) == Straight(sar, dar, 1)
  {
    var sizes := EvenSizes(65537, 65536);
    EvenAt(65537, 65536, 0);
    EvenSplit(65537, 65536);
    hide FollowCount, InTable, EvenSizes;
    forall k | 0 <= k < |sizes| ensures sizes[k] < U32 { EachBelowSum(sizes, k); }
    CountFrom(table, laddr, sizes, sar, dar, 0, 0);
    PrefixMoves(sizes, sar, dar, 1);
    SumPrefix(sizes, 0);
  }

  // ---------- the descriptor tables of the channels ----------

  /** 65536 descriptors of 32 bytes */
  const REGION: nat := 65536 * 32

  /** ll_laddr as build_dma_info computes it, for write and read channels */
  function LlLaddr(write: bool, i: nat, wrChCnt: nat): nat {
    REGION * i + (if write then 0x8000_0000 else 0x8000_0000 + wrChCnt * 65536 * 32)
  }

  /** The loops of build_dma_info over the two kinds of channels. */
  method BuildDmaInfo(wrChCnt: nat, rdChCnt: nat) returns (wr: seq<nat>, rd: seq<nat>)
    requires wrChCnt < 256 && rdChCnt < 256
    ensures |wr| == wrChCnt && forall i :: 0 <= i < wrChCnt ==>
              wr[i] == LlLaddr(true, i, wrChCnt) == 0x8000_0000 + i * 0x20_0000
    ensures |rd| == rdChCnt && forall i :: 0 <= i < rdChCnt ==>
              rd[i] == LlLaddr(false, i, wrChCnt) == 0x8000_0000 + (wrChCnt + i) * 0x20_0000
  {
    wr, rd := [], [];
    for j := 0 to 2
      invariant |wr| == (if j == 0 then 0 else wrChCnt) && |rd| == (if j <= 1 then 0 else rdChCnt)
      invariant forall i :: 0 <= i < |wr| ==> wr[i] == LlLaddr(true, i, wrChCnt)
      invariant forall i :: 0 <= i < |rd| ==> rd[i] == LlLaddr(false, i, wrChCnt)
    {
      var chCnt, off := wrChCnt, 0x8000_0000;
      if j == 1 {
        chCnt, off := rdChCnt, 0x8000_0000 + wrChCnt * 65536 * 32;
      }
      var llSz := 65536 * 32;
      for i := 0 to chCnt
        invariant j == 0 ==> |wr| == i && rd == []
        invariant j == 1 ==> |rd| == i && |wr| == wrChCnt
        invariant forall k :: 0 <= k < |wr| ==> wr[k] == LlLaddr(true, k, wrChCnt)
        invariant forall k :: 0 <= k < |rd| ==> rd[k] == LlLaddr(false, k, wrChCnt)
      {
        if j == 0 {
          wr := wr + [llSz * i + off];
        } else {
          rd := rd + [llSz * i + off];
        }
      }
    }
  }

  /** No channel's descriptor table meets another's, all 65536 slots lie in the
      32-bit address space, and every table starts at a multiple of 1024. */
  lemma RegionsApart(write: bool, i: nat, write': bool, i': nat, wrChCnt: nat, rdChCnt: nat)
    requires wrChCnt < 256 && rdChCnt < 256
    requires i < (if write then wrChCnt else rdChCnt) && i' < (if write' then wrChCnt else rdChCnt)
    requires (write, i) != (write', i')
    ensures var a, b := LlLaddr(write, i, wrChCnt), LlLaddr(write', i', wrChCnt);
            && (a + REGION <= b || b + REGION <= a)
            && a + REGION <= U32 && a % 1024 == 0
  {
  }
}
