/** The buffer allocator of test/lib/mt_pcie_f.c: a bitmap of 4 KiB blocks and
    a list of the intervals that were given out. */
module DmabufPool {
  import opened Common

  const BLK_SIZE: nat := 4096

  /** MTDMA_BUF_SIZE of driver/mt-emu-drv.h */
  const BUF_SIZE: nat := 0x8_0000_0000

  // ---------- words ----------

  /** A bit number within a word. */
  function Index(j: nat): bv5
    requires j < 32
  {
    j as bv5
  }

  lemma IndexOk(j: nat)
    requires j < 32
    ensures Index(j) as nat == j
  {
  }

  function Mask(a: bv5): bv32 { 1 << a }

  function And(x: bv32, y: bv32): bv32 { x & y }

  function Or(x: bv32, y: bv32): bv32 { x | y }

  function Not(x: bv32): bv32 { !x }

  predicate Test(w: bv32, a: bv5) { And(w, Mask(a)) != 0 }

  function Set(w: bv32, a: bv5): bv32 { Or(w, Mask(a)) }

  function Clear(w: bv32, a: bv5): bv32 { And(w, Not(Mask(a))) }

  lemma Distribute(x: bv32, y: bv32, z: bv32)
    ensures And(Or(x, y), z) == Or(And(x, z), And(y, z))
  {
  }

  lemma Associate(x: bv32, y: bv32, z: bv32)
    ensures And(And(x, y), z) == And(x, And(z, y))
  {
  }

  lemma Units(x: bv32)
    ensures Or(x, 0) == x && And(x, 0) == 0 && And(x, x) == x && And(x, Not(x)) == 0
  {
  }

  lemma Nonzero(x: bv32, y: bv32)
    requires y != 0
    ensures Or(x, y) != 0
  {
  }

  lemma Apart(y: bv32, z: bv32)
    requires And(y, z) == 0
    ensures And(z, Not(y)) == z
  {
  }

  lemma Masks(a: bv5, b: bv5)
    requires a != b
    ensures And(Mask(a), Mask(b)) == 0
  {
  }

  lemma MaskNonzero(a: bv5)
    ensures Mask(a) != 0
  {
  }

  /** Setting or clearing a bit changes that bit alone. */
  lemma OneBit(w: bv32, a: bv5, b: bv5)
    ensures Test(Set(w, a), b) == (a == b || Test(w, b))
    ensures Test(Clear(w, a), b) == (a != b && Test(w, b))
  {
    hide And, Mask, Or, Not;
    var p, q := Mask(a), Mask(b);
    Distribute(w, p, q);
    Associate(w, Not(p), q);
    if a == b {
      MaskNonzero(a);
      Units(p);
      Nonzero(And(w, p), p);
      Units(w);
    } else {
      Masks(a, b);
      Apart(p, q);
      Units(And(w, q));
    }
  }

  predicate Bit(w: bv32, j: nat)
    requires j < 32
  {
    Test(w, Index(j))
  }

  /** The word with bit j set or cleared. */
  function WithBit(w: bv32, j: nat, on: bool): bv32
    requires j < 32
  {
    if on then Set(w, Index(j)) else Clear(w, Index(j))
  }

  lemma BitOf(w: bv32, j: nat, k: nat, on: bool)
    requires j < 32 && k < 32
    ensures Bit(WithBit(w, j, on), k) == if j == k then on else Bit(w, k)
  {
    hide Index, Test, Set, Clear;
    IndexOk(j);
    IndexOk(k);
    OneBit(w, Index(j), Index(k));
  }

  // ---------- the bitmap ----------

  /** Which blocks are marked. */
  function Used(words: seq<bv32>): (u: seq<bool>)
    ensures |u| == |words| * 32 && forall k :: 0 <= k < |u| ==> u[k] == Bit(words[k / 32], k % 32)
  {
    seq(|words| * 32, k requires 0 <= k < |words| * 32 => Bit(words[k / 32], k % 32))
  }

  lemma UsedUpdate(words: seq<bv32>, b: nat, on: bool)
    requires b < |words| * 32
    ensures Used(words[b / 32 := WithBit(words[b / 32], b % 32, on)]) == Used(words)[b := on]
  {
    hide Bit, WithBit;
    var after := words[b / 32 := WithBit(words[b / 32], b % 32, on)];
    forall k | 0 <= k < |words| * 32 ensures Used(after)[k] == Used(words)[b := on][k] {
      if k / 32 == b / 32 {
        BitOf(words[b / 32], b % 32, k % 32, on);
      }
    }
  }

  /** `used` with the blocks from..to marked or unmarked. */
  function Marked(used: seq<bool>, from: nat, to: nat, on: bool): (u: seq<bool>)
    ensures |u| == |used| && forall k :: 0 <= k < |u| ==> u[k] == if from <= k < to then on else used[k]
  {
    seq(|used|, k requires 0 <= k < |used| => if from <= k < to then on else used[k])
  }

  /** The loops that mark and unmark an interval. */
  method Mark(bits: array<bv32>, from: nat, to: nat, on: bool)
    requires from <= to <= bits.Length * 32
    modifies bits
    ensures Used(bits[..]) == Marked(old(Used(bits[..])), from, to, on)
  {
    hide Bit, WithBit, Used, Marked;
    ghost var used := Used(bits[..]);
    MarkedNone(used, from, on);
    for i := from to to
      invariant Used(bits[..]) == Marked(used, from, i, on)
    {
      UsedUpdate(bits[..], i, on);
      MarkedMore(used, from, i, on);
      ghost var words := bits[..];
      bits[i / 32] := WithBit(bits[i / 32], i % 32, on);
      assert bits[..] == words[i / 32 := WithBit(words[i / 32], i % 32, on)];
    }
  }

  lemma MarkedNone(used: seq<bool>, from: nat, on: bool)
    ensures Marked(used, from, from, on) == used
  {
  }

  lemma MarkedMore(used: seq<bool>, from: nat, i: nat, on: bool)
    requires from <= i < |used|
    ensures Marked(used, from, i, on)[i := on] == Marked(used, from, i + 1, on)
  {
  }

  // ---------- runs of free blocks ----------

  /** The lowest run of n free blocks starts at `s`. */
  predicate Lowest(used: seq<bool>, n: nat, s: nat) {
    FreeRun(used, s, n) && forall t :: 0 <= t < s ==> !FreeRun(used, t, n)
  }

  /** No run of n free blocks ends at or before `end`. */
  predicate NoneBefore(used: seq<bool>, n: nat, end: nat) {
    forall t | 0 <= t <= end - n :: !FreeRun(used, t, n)
  }

  /** `size` blocks before `end` are free, and the one before them is not. */
  predicate FreeUpTo(used: seq<bool>, end: nat, size: nat) {
    size <= end <= |used| && FreeRun(used, end - size, size) && (size < end ==> used[end - size - 1])
  }

  lemma UsedBlock(used: seq<bool>, n: nat, end: nat, size: nat)
    requires FreeUpTo(used, end, size) && NoneBefore(used, n, end) && end < |used| && size < n && used[end]
    ensures FreeUpTo(used, end + 1, 0) && NoneBefore(used, n, end + 1)
  {
  }

  lemma FreeBlock(used: seq<bool>, n: nat, end: nat, size: nat)
    requires FreeUpTo(used, end, size) && NoneBefore(used, n, end) && end < |used| && size < n && !used[end]
    ensures FreeUpTo(used, end + 1, size + 1)
    ensures size + 1 < n ==> NoneBefore(used, n, end + 1)
    ensures size + 1 == n ==> Lowest(used, n, end + 1 - n)
  {
  }

  /** The nested search loops of pcief_dmabuf_malloc, over words and bits. */
  method Search(bits: array<bv32>, len: nat) returns (start: int, size: nat)
    requires len >= 1
    ensures size == len ==> start >= 0 && Lowest(Used(bits[..]), len, start)
    ensures size < len ==>
              NoneBefore(Used(bits[..]), len, bits.Length * 32) && FreeUpTo(Used(bits[..]), bits.Length * 32, size)
    ensures size <= len && start == if size == 0 then -1 else if size == len then start else bits.Length * 32 - size
  {
    hide Bit, Lowest, NoneBefore, FreeUpTo;
    ghost var used := Used(bits[..]);
    start, size := -1, 0;
    NothingYet(used, len);
    var i := 0;
    while i < bits.Length
      invariant 0 <= i <= bits.Length && size < len
      invariant FreeUpTo(used, i * 32, size) && NoneBefore(used, len, i * 32)
      invariant start == if size == 0 then -1 else i * 32 - size
    {
      var j := 0;
      while j < 32
        invariant 0 <= j <= 32 && size < len
        invariant FreeUpTo(used, i * 32 + j, size) && NoneBefore(used, len, i * 32 + j)
        invariant start == if size == 0 then -1 else i * 32 + j - size
      {
        assert used[i * 32 + j] == Bit(bits[i], j);
        if !Bit(bits[i], j) {
          FreeBlock(used, len, i * 32 + j, size);
          if size == 0 {
            start := i * 32 + j;
          }
          size := size + 1;
        } else {
          UsedBlock(used, len, i * 32 + j, size);
          start := -1;
          size := 0;
        }
        if size >= len {
          return;
        }
        j := j + 1;
      }
      i := i + 1;
    }
  }

  lemma NothingYet(used: seq<bool>, n: nat)
    requires n >= 1
    ensures FreeUpTo(used, 0, 0) && NoneBefore(used, n, 0)
  {
  }

  // ---------- the list of intervals ----------

  /** struct mtdma_buf_list without the link */
  datatype Item = Item(start: nat, size: nat)

  /** What is recorded when nothing could be given out: blk_start is the 32-bit
      -1, and the interval is empty. */
  const NOTHING: Item := Item(U32 - 1, 0)

  predicate Covers(it: Item, k: nat) { it.start <= k < it.start + it.size }

  predicate InPool(it: Item, blocks: nat) {
    it == NOTHING || (it.size > 0 && it.start + it.size <= blocks)
  }

  predicate Disjoint(a: Item, b: Item) {
    a == NOTHING || b == NOTHING || a.start + a.size <= b.start || b.start + b.size <= a.start
  }

  ghost predicate Covered(items: seq<Item>, k: nat) {
    exists i :: 0 <= i < |items| && Covers(items[i], k)
  }

  /** The marked blocks are the disjoint union of the listed intervals. */
  ghost predicate Agrees(used: seq<bool>, items: seq<Item>) {
    && (forall i :: 0 <= i < |items| ==> InPool(items[i], |used|))
    && (forall i, j :: 0 <= i < j < |items| ==> Disjoint(items[i], items[j]))
    && (forall k :: 0 <= k < |used| ==> used[k] == Covered(items, k))
  }

  lemma CoversUsed(used: seq<bool>, items: seq<Item>, i: nat, k: nat)
    requires Agrees(used, items) && i < |items| && Covers(items[i], k) && k < |used|
    ensures used[k]
  {
  }

  /** A free run meets no interval of the list. */
  lemma FreeApart(used: seq<bool>, items: seq<Item>, s: nat, n: nat, i: nat)
    requires Agrees(used, items) && FreeRun(used, s, n) && n > 0 && i < |items|
    ensures Disjoint(items[i], Item(s, n))
  {
    hide Agrees;
    var other := items[i];
    ItemRange(used, items, i);
    if !Disjoint(other, Item(s, n)) {
      CoversUsed(used, items, i, if other.start <= s then s else other.start);
      assert false;
    }
  }

  lemma ItemRange(used: seq<bool>, items: seq<Item>, i: nat)
    requires Agrees(used, items) && i < |items|
    ensures items[i] == NOTHING || (items[i].size > 0 && items[i].start + items[i].size <= |used|)
  {
    assert InPool(items[i], |used|);
  }

  /** A free run can be added, */
  lemma AddItem(used: seq<bool>, items: seq<Item>, s: nat, n: nat)
    requires Agrees(used, items) && FreeRun(used, s, n) && n > 0
    ensures Agrees(Marked(used, s, s + n, true), items + [Item(s, n)])
  {
    var it, all, after := Item(s, n), items + [Item(s, n)], Marked(used, s, s + n, true);
    forall i | 0 <= i < |items| ensures Disjoint(items[i], it) {
      FreeApart(used, items, s, n, i);
    }
    forall k | 0 <= k < |used| ensures after[k] == Covered(all, k) {
      CoveredMore(items, it, k);
    }
  }

  lemma CoveredMore(items: seq<Item>, it: Item, k: nat)
    ensures Covered(items + [it], k) == (Covered(items, k) || Covers(it, k))
  {
    var all := items + [it];
    if Covered(items, k) {
      var i :| 0 <= i < |items| && Covers(items[i], k);
      assert Covers(all[i], k);
    }
    if Covers(it, k) {
      assert Covers(all[|items|], k);
    }
    if Covered(all, k) {
      var i :| 0 <= i < |all| && Covers(all[i], k);
      if i < |items| { assert Covers(items[i], k); }
    }
  }

  lemma AddNothing(used: seq<bool>, items: seq<Item>)
    requires Agrees(used, items)
    ensures Agrees(used, items + [NOTHING])
  {
    forall k | 0 <= k < |used| ensures used[k] == Covered(items + [NOTHING], k) {
      CoveredMore(items, NOTHING, k);
    }
  }

  function Without(items: seq<Item>, i: nat): seq<Item>
    requires i < |items|
  {
    items[..i] + items[i + 1..]
  }

  /** and an item of the list can be taken out with its marks. */
  lemma TakeItem(used: seq<bool>, items: seq<Item>, i: nat)
    requires Agrees(used, items) && i < |items|
    ensures Agrees(Marked(used, items[i].start, items[i].start + items[i].size, false), Without(items, i))
  {
    var it, rest := items[i], Without(items, i);
    var after := Marked(used, it.start, it.start + it.size, false);
    forall k | 0 <= k < |used| ensures after[k] == Covered(rest, k) {
      CoveredLess(items, i, k);
    }
  }

  lemma WithoutLength(items: seq<Item>, i: nat)
    requires i < |items|
    ensures |Without(items, i)| == |items| - 1
  {
  }

  lemma WithoutAt(items: seq<Item>, i: nat, j: nat)
    requires i < |items| && j < |items| - 1
    ensures |Without(items, i)| == |items| - 1
    ensures Without(items, i)[j] == items[if j < i then j else j + 1]
  {
  }

  lemma NotBoth(items: seq<Item>, i: nat, j: nat, k: nat)
    requires i < |items| && j < |items| && i != j
    requires forall a, b :: 0 <= a < b < |items| ==> Disjoint(items[a], items[b])
    ensures !(Covers(items[i], k) && Covers(items[j], k))
  {
    assert Disjoint(items[if i < j then i else j], items[if i < j then j else i]);
  }

  lemma CoveredLess(items: seq<Item>, i: nat, k: nat)
    requires i < |items| && forall a, b :: 0 <= a < b < |items| ==> Disjoint(items[a], items[b])
    ensures Covered(Without(items, i), k) == (Covered(items, k) && !Covers(items[i], k))
  {
    if Covered(Without(items, i), k) {
      CoveredBefore(items, i, k);
    }
    if Covered(items, k) && !Covers(items[i], k) {
      var j :| 0 <= j < |items| && Covers(items[j], k);
      WithoutAt(items, i, if j < i then j else j - 1);
      assert Covers(Without(items, i)[if j < i then j else j - 1], k);
    }
  }

  lemma CoveredBefore(items: seq<Item>, i: nat, k: nat)
    requires i < |items| && forall a, b :: 0 <= a < b < |items| ==> Disjoint(items[a], items[b])
    requires Covered(Without(items, i), k)
    ensures Covered(items, k) && !Covers(items[i], k)
  {
    hide Without;
    WithoutLength(items, i);
    var rest := Without(items, i);
    var j :| 0 <= j < |rest| && Covers(rest[j], k);
    var j' := if j < i then j else j + 1;
    WithoutAt(items, i, j);
    assert Covers(items[j'], k);
    NotBoth(items, i, j', k);
  }

  // ---------- the allocator ----------

  /** The number of blocks that the code computes for `len` bytes, with the
      wrap-around of the 64-bit addition: as few as hold them, where it does not
      refuse. */
  lemma BlocksHold(len: nat)
    requires len < U64
    ensures var n := (len + (BLK_SIZE - 1)) % U64 / BLK_SIZE;
            && (n == 0 || n > BUF_SIZE <==> len == 0 || len > BUF_SIZE * BLK_SIZE)
            && (n > 0 ==> (n - 1) * BLK_SIZE < len <= n * BLK_SIZE)
  {
  }

  class Pool {
    const bits: array<bv32>
    var items: seq<Item>

    ghost predicate Valid()
      reads this, bits
    {
      bits.Length * 32 < U32 - 1 && Agrees(Used(bits[..]), items)
    }

    constructor (bits: array<bv32>)
      requires bits.Length * 32 < U32 - 1 && forall i :: 0 <= i < bits.Length ==> bits[i] == 0
      ensures this.bits == bits && items == [] && Valid()
    {
      this.bits := bits;
      items := [];
      new;
      forall i, j | 0 <= i < bits.Length && 0 <= j < 32 ensures !Bit(bits[i], j) { NoBits(j); }
    }

    /** pcief_dmabuf_malloc: the lowest run of the size that is needed, if
        there is one; else whatever is free at the very end, or -1 if that is
        nothing. */
    method Malloc(len: nat) returns (addr: int)
      requires Valid() && len < U64
      modifies this`items, bits
      ensures Valid()
      ensures len == 0 || len > BUF_SIZE * BLK_SIZE ==>
                addr == -1 && items == old(items) && bits[..] == old(bits[..])
      ensures 0 < len <= BUF_SIZE * BLK_SIZE ==>
                exists n: nat :: (n - 1) * BLK_SIZE < len <= n * BLK_SIZE
                                 && Granted(old(Used(bits[..])), old(items), n, addr, items)
    {
      hide Agrees, Bit, Lowest, NoneBefore, FreeUpTo, FreeRun, Marked, Used;
      BlocksHold(len);
      var n := (len + (BLK_SIZE - 1)) % U64 / BLK_SIZE;
      if n > BUF_SIZE || n == 0 {
        return -1;
      }
      ghost var used, list := Used(bits[..]), items;
      var start, size := Search(bits, n);
      Found(used, n, start, size);
      if size > 0 {
        AddItem(used, items, start, size);
        Mark(bits, start, start + size, true);
        items := items + [Item(start, size)];
      } else {
        AddNothing(used, items);
        items := items + [Item((start + U32) % U32, size)];
      }
      addr := start;
      if start > 0 {
        addr := start * BLK_SIZE;
      }
      assert Granted(used, list, n, addr, items);
    }

    /** For n blocks: the lowest run of n free blocks, if there is one; else the t
        free blocks at the very end, or nothing. */
    static ghost predicate Granted(used: seq<bool>, before: seq<Item>, n: nat, addr: int, after: seq<Item>) {
      if exists s: nat :: FreeRun(used, s, n) then
        exists s: nat :: Lowest(used, n, s) && addr == s * BLK_SIZE && after == before + [Item(s, n)]
      else
        exists t: nat :: FreeUpTo(used, |used|, t) && t < n
          && addr == (if t == 0 then -1 else (|used| - t) * BLK_SIZE)
          && after == before + [if t == 0 then NOTHING else Item(|used| - t, t)]
    }

    /** pcief_dmabuf_free: the marks and the item of the first interval that
        starts at the block; any other address changes nothing. */
    method Free(addr: int)
      requires Valid()
      modifies this`items, bits
      ensures Valid()
      ensures (forall i :: 0 <= i < |old(items)| ==> !StartsAt(old(items)[i], addr)) ==>
                items == old(items) && bits[..] == old(bits[..])
      ensures (exists i :: 0 <= i < |old(items)| && StartsAt(old(items)[i], addr)) ==>
                exists i :: Released(old(items), old(Used(bits[..])), i, addr, items, Used(bits[..]))
    {
      hide Agrees, Bit, Marked, Used;
      if addr < 0 {
        return;
      }
      var b := addr / BLK_SIZE;
      var i := 0;
      while i < |items|
        invariant 0 <= i <= |items| && items == old(items) && bits[..] == old(bits[..])
        invariant forall j :: 0 <= j < i ==> !StartsAt(items[j], addr)
      {
        var item := items[i];
        assert item.start == b <==> StartsAt(item, addr);
        if item.start == b {
          ItemRange(Used(bits[..]), items, i);
          TakeItem(Used(bits[..]), items, i);
          if item.size > 0 {
            Mark(bits, item.start, item.start + item.size, false);
          } else {
            MarkedNone(Used(bits[..]), item.start, false);
          }
          items := items[..i] + items[i + 1..];
          assert Released(old(items), old(Used(bits[..])), i, addr, items, Used(bits[..]));
          return;
        }
        i := i + 1;
      }
    }

    /** The address lies in the first block of the interval. */
    static predicate StartsAt(it: Item, addr: int) {
      it.start * BLK_SIZE <= addr < (it.start + 1) * BLK_SIZE
    }

    /** The first interval that starts at the address is off the list, and its
        blocks are free; nothing else has changed. */
    static predicate Released(before: seq<Item>, was: seq<bool>, i: nat, addr: int, after: seq<Item>, now: seq<bool>) {
      && i < |before| && StartsAt(before[i], addr) && (forall j :: 0 <= j < i ==> !StartsAt(before[j], addr))
      && after == before[..i] + before[i + 1..] && |now| == |was|
      && forall k :: 0 <= k < |was| ==> now[k] == (was[k] && !Covers(before[i], k))
    }
  }

  lemma NoBits(j: nat)
    requires j < 32
    ensures !Bit(0, j)
  {
    Units(Mask(Index(j)));
    Commute(Mask(Index(j)));
  }

  lemma Commute(x: bv32)
    ensures And(0, x) == 0
  {
  }

  /** What the search found, in terms of free runs. */
  lemma Found(used: seq<bool>, n: nat, start: int, size: nat)
    requires n >= 1 && size <= n
    requires size == n ==> start >= 0 && Lowest(used, n, start)
    requires size < n ==> NoneBefore(used, n, |used|) && FreeUpTo(used, |used|, size)
    requires start == if size == 0 then -1 else if size == n then start else |used| - size
    ensures size == n <==> exists s: nat :: FreeRun(used, s, n)
    ensures size > 0 ==> start >= 0 && FreeRun(used, start, size)
  {
    if size < n {
      forall s: nat ensures !FreeRun(used, s, n) {
      }
    }
  }

  /** Freeing what has just been given out releases exactly that interval, and
      restores the marks and the list. */
  lemma FreeUndoesMalloc(used: seq<bool>, items: seq<Item>, s: nat, n: nat)
    requires Agrees(used, items) && |used| < U32 - 1 && FreeRun(used, s, n) && n > 0
    ensures var list, marks := items + [Item(s, n)], Marked(used, s, s + n, true);
            && Pool.Released(list, marks, |items|, s * BLK_SIZE, items, used)
            && forall i: nat, after, now :: Pool.Released(list, marks, i, s * BLK_SIZE, after, now) ==>
                 i == |items| && after == items && now == used
  {
    hide Agrees;
    forall i | 0 <= i < |items| ensures items[i].start != s {
      ItemRange(used, items, i);
      FreeApart(used, items, s, n, i);
    }
    var list, marks := items + [Item(s, n)], Marked(used, s, s + n, true);
    assert list[..|items|] + list[|items| + 1..] == items;
    forall i: nat, after, now | Pool.Released(list, marks, i, s * BLK_SIZE, after, now)
      ensures i == |items| && after == items && now == used
    {
      assert Pool.StartsAt(list[i], s * BLK_SIZE) ==> list[i].start == s;
    }
  }

  /** The bytes of two intervals on the list have nothing in common, and lie
      inside the buffer. */
  lemma GrantsApart(used: seq<bool>, items: seq<Item>, i: nat, j: nat, a: nat, len: nat, a': nat, len': nat)
    requires Agrees(used, items) && i < |items| && j < |items| && i != j
    requires a == items[i].start * BLK_SIZE && 0 < len <= items[i].size * BLK_SIZE
    requires a' == items[j].start * BLK_SIZE && 0 < len' <= items[j].size * BLK_SIZE
    ensures a + len <= a' || a' + len' <= a
    ensures a + len <= |used| * BLK_SIZE
  {
    assert Disjoint(items[if i < j then i else j], items[if i < j then j else i]);
    ItemRange(used, items, i);
    var b := items[i].start + items[i].size - 1;
    assert Covers(items[i], b) && used[b];
  }
}
