/** The video memory allocator of driver/mm.c as a list of page blocks.

    A state is the list of blocks from the first page to the last.  The heap
    structures of module VideoMemory (page array, two AVL trees, counters) are
    proved to represent such a list; this module proves what the list, and so
    the allocator, guarantees over any run of vmem_alloc and vmem_free. */
module PageBlocks {
  import opened Common

  datatype Block = Block(start: nat, len: nat, used: bool) {
    function End(): nat { start + len }
    predicate Holds(p: int) { start <= p < End() }
  }

  // ---------- tiling and coalescing ----------

  ghost function EndOf(bs: seq<Block>): nat {
    if bs == [] then 0 else bs[|bs| - 1].End()
  }

  /** The blocks are non-empty and follow each other without gaps from page
      `lo` on. */
  ghost predicate ChainedFrom(bs: seq<Block>, lo: nat) {
    && (forall i :: 0 <= i < |bs| ==> bs[i].len > 0)
    && (forall i :: 0 < i < |bs| ==> bs[i].start == bs[i - 1].End())
    && (bs != [] ==> bs[0].start == lo)
  }

  /** The blocks tile the pages 0..n. */
  ghost predicate Tiles(bs: seq<Block>, n: nat) {
    ChainedFrom(bs, 0) && EndOf(bs) == n
  }

  /** No two neighbouring blocks are both free. */
  ghost predicate Coalesced(bs: seq<Block>) {
    forall i :: 0 < i < |bs| ==> bs[i - 1].used || bs[i].used
  }

  ghost function PageCount(bs: seq<Block>, used: bool): nat {
    if bs == [] then 0
    else (if bs[0].used == used then bs[0].len else 0) + PageCount(bs[1..], used)
  }

  lemma {:induction false} PageCountConcat(a: seq<Block>, b: seq<Block>, used: bool)
    ensures PageCount(a + b, used) == PageCount(a, used) + PageCount(b, used)
  {
    if a == [] {
      assert a + b == b;
    } else {
      assert (a + b)[1..] == a[1..] + b;
      PageCountConcat(a[1..], b, used);
    }
  }

  lemma {:induction false} Ordered(bs: seq<Block>, lo: nat, i: nat, j: nat)
    requires ChainedFrom(bs, lo) && i < j < |bs|
    ensures bs[i].End() <= bs[j].start
    decreases j
  {
    if i + 1 < j {
      Ordered(bs, lo, i, j - 1);
    }
  }

  lemma SameStart(bs: seq<Block>, lo: nat, i: nat, j: nat)
    requires ChainedFrom(bs, lo) && i < |bs| && j < |bs| && bs[i].start == bs[j].start
    ensures i == j
  {
    if i < j { Ordered(bs, lo, i, j); }
    if j < i { Ordered(bs, lo, j, i); }
  }

  lemma InRange(bs: seq<Block>, n: nat, i: nat)
    requires Tiles(bs, n) && i < |bs|
    ensures bs[i].End() <= n
    ensures i + 1 < |bs| <==> bs[i].End() < n
  {
    if i + 1 < |bs| {
      Ordered(bs, 0, i, |bs| - 1);
    }
  }

  // ---------- the two operations on a block list ----------

  /** Take the first `n` pages of free block `i`. */
  ghost function AllocAt(bs: seq<Block>, i: nat, n: nat): seq<Block>
    requires i < |bs| && 0 < n <= bs[i].len
  {
    var b := bs[i];
    bs[..i] + [Block(b.start, n, true)]
    + (if n == b.len then [] else [Block(b.start + n, b.len - n, false)])
    + bs[i + 1..]
  }

  /** First and last block of the run that block `i` merges into when freed. */
  ghost function MergeLo(bs: seq<Block>, i: nat): nat
    requires i < |bs|
  {
    if i > 0 && !bs[i - 1].used then i - 1 else i
  }

  ghost function MergeHi(bs: seq<Block>, i: nat): nat
    requires i < |bs|
  {
    if i + 1 < |bs| && !bs[i + 1].used then i + 1 else i
  }

  ghost function Merged(bs: seq<Block>, i: nat): Block
    requires i < |bs|
  {
    var lo, hi := MergeLo(bs, i), MergeHi(bs, i);
    Block(bs[lo].start,
          (if lo < i then bs[lo].len else 0) + bs[i].len + (if i < hi then bs[hi].len else 0),
          false)
  }

  /** Give block `i` back, merged with the free blocks next to it. */
  ghost function FreeAt(bs: seq<Block>, i: nat): seq<Block>
    requires i < |bs|
  {
    bs[..MergeLo(bs, i)] + [Merged(bs, i)] + bs[MergeHi(bs, i) + 1..]
  }

  /** Block `i` is the shortest free block of at least `n` pages, the lowest of
      them if there are several. */
  ghost predicate BestFit(bs: seq<Block>, n: nat, i: nat) {
    && i < |bs| && !bs[i].used && bs[i].len >= n
    && forall j :: 0 <= j < |bs| && !bs[j].used && bs[j].len >= n ==>
         bs[i].len < bs[j].len || (bs[i].len == bs[j].len && bs[i].start <= bs[j].start)
  }

  lemma BestFitUnique(bs: seq<Block>, n: nat, i: nat, j: nat)
    requires ChainedFrom(bs, 0) && BestFit(bs, n, i) && BestFit(bs, n, j)
    ensures i == j
  {
    SameStart(bs, 0, i, j);
  }

  // ---------- what the operations preserve ----------

  /** The invariant of the allocator on `n` pages. */
  ghost predicate Inv(bs: seq<Block>, n: nat) {
    Tiles(bs, n) && Coalesced(bs)
  }

  lemma PageCountSplice(a: seq<Block>, m: seq<Block>, c: seq<Block>, used: bool)
    ensures PageCount(a + m + c, used) == PageCount(a, used) + PageCount(m, used) + PageCount(c, used)
  {
    PageCountConcat(a, m, used);
    PageCountConcat(a + m, c, used);
  }

  lemma PageCountOne(b: Block, used: bool)
    ensures PageCount([b], used) == if b.used == used then b.len else 0
  {
    assert [b][1..] == [];
  }

  /** Putting blocks that cover the same pages in the place of others. */
  lemma ChainedSplice(a: seq<Block>, m: seq<Block>, m': seq<Block>, c: seq<Block>, n: nat)
    requires Tiles(a + m + c, n) && m != [] && m' != []
    requires ChainedFrom(m', m[0].start) && EndOf(m') == EndOf(m)
    ensures Tiles(a + m' + c, n)
  {
    var bs, r := a + m + c, a + m' + c;
    var k, k' := |a| + |m|, |a| + |m'|;
    forall i | 0 <= i < |r|
      ensures r[i].len > 0
      ensures i > 0 ==> r[i].start == r[i - 1].End()
    {
      if i < |a| {
        assert r[i] == bs[i];
        assert i > 0 ==> r[i - 1] == bs[i - 1];
      } else if i < k' {
        assert r[i] == m'[i - |a|];
        if i == |a| {
          assert bs[i] == m[0];
          assert i > 0 ==> r[i - 1] == bs[i - 1];
        } else {
          assert r[i - 1] == m'[i - 1 - |a|];
        }
      } else {
        assert r[i] == bs[i - k' + k];
        if i == k' {
          assert r[i - 1] == m'[|m'| - 1] && bs[k - 1] == m[|m| - 1];
        } else {
          assert r[i - 1] == bs[i - 1 - k' + k];
        }
      }
    }
    assert bs[|a|] == m[0];
    assert r[0] == if a == [] then m'[0] else bs[0];
    assert c == [] ==> r[|r| - 1] == m'[|m'| - 1] && bs[|bs| - 1] == m[|m| - 1];
    assert c != [] ==> r[|r| - 1] == bs[|bs| - 1];
  }

  /** The blocks that take the place of block `b` when its first `n` pages are
      allocated. */
  ghost function Carved(b: Block, n: nat): seq<Block>
    requires 0 < n <= b.len
  {
    [Block(b.start, n, true)]
    + (if n == b.len then [] else [Block(b.start + n, b.len - n, false)])
  }

  lemma AllocKeeps(bs: seq<Block>, total: nat, i: nat, n: nat)
    requires Inv(bs, total) && i < |bs| && !bs[i].used && 0 < n <= bs[i].len
    ensures Inv(AllocAt(bs, i, n), total)
  {
    var a, b, c := bs[..i], bs[i], bs[i + 1..];
    assert bs == a + [b] + c;
    ChainedSplice(a, [b], Carved(b, n), c, total);
    assert AllocAt(bs, i, n) == a + Carved(b, n) + c;
    AllocCoalesced(bs, i, n);
  }

  lemma AllocCoalesced(bs: seq<Block>, i: nat, n: nat)
    requires Coalesced(bs) && i < |bs| && !bs[i].used && 0 < n <= bs[i].len
    ensures Coalesced(AllocAt(bs, i, n))
  {
    var r, m := AllocAt(bs, i, n), |Carved(bs[i], n)|;
    assert forall k :: 0 <= k < i ==> r[k] == bs[k];
    assert forall k :: i + m <= k < |r| ==> r[k] == bs[k - m + 1];
    assert forall k :: i <= k < i + m ==> r[k] == Carved(bs[i], n)[k - i];
  }

  lemma AllocCounts(bs: seq<Block>, i: nat, n: nat, used: bool)
    requires i < |bs| && !bs[i].used && 0 < n <= bs[i].len
    ensures PageCount(AllocAt(bs, i, n), used) + (if used then 0 else n)
         == PageCount(bs, used) + (if used then n else 0)
  {
    var a, b, c := bs[..i], bs[i], bs[i + 1..];
    assert bs == a + [b] + c;
    assert AllocAt(bs, i, n) == a + Carved(b, n) + c;
    PageCountSplice(a, [b], c, used);
    PageCountSplice(a, Carved(b, n), c, used);
    PageCountOne(b, used);
    var taken, rest := Block(b.start, n, true), Block(b.start + n, b.len - n, false);
    PageCountOne(taken, used);
    PageCountOne(rest, used);
    PageCountConcat([taken], [rest], used);
  }

  lemma MergedSpan(bs: seq<Block>, i: nat)
    requires ChainedFrom(bs, 0) && i < |bs|
    ensures Merged(bs, i).start == bs[MergeLo(bs, i)].start
    ensures Merged(bs, i).End() == bs[MergeHi(bs, i)].End()
    ensures Merged(bs, i).len > 0
  {
  }

  lemma Thirds<T>(s: seq<T>, i: nat, j: nat)
    requires i <= j <= |s|
    ensures s == s[..i] + s[i..j] + s[j..]
  {
  }

  lemma FreeTiles(bs: seq<Block>, total: nat, i: nat)
    requires Tiles(bs, total) && i < |bs|
    ensures Tiles(FreeAt(bs, i), total)
  {
    var lo, hi := MergeLo(bs, i), MergeHi(bs, i);
    var a, m, c := bs[..lo], bs[lo..hi + 1], bs[hi + 1..];
    Thirds(bs, lo, hi + 1);
    MergedSpan(bs, i);
    assert m[0] == bs[lo] && m[|m| - 1] == bs[hi];
    hide Merged, MergeLo, MergeHi;
    ChainedSplice(a, m, [Merged(bs, i)], c, total);
  }

  lemma FreeKeeps(bs: seq<Block>, total: nat, i: nat)
    requires Inv(bs, total) && i < |bs| && bs[i].used
    ensures Inv(FreeAt(bs, i), total)
  {
    FreeTiles(bs, total, i);
    hide Tiles, ChainedFrom;
    var lo, hi := MergeLo(bs, i), MergeHi(bs, i);
    var r := FreeAt(bs, i);
    forall j | 0 < j < |r| ensures r[j - 1].used || r[j].used {
      if j < lo {
        assert r[j] == bs[j] && r[j - 1] == bs[j - 1];
      } else if j == lo {
        assert r[j - 1] == bs[lo - 1];
      } else {
        assert r[j] == bs[hi + j - lo];
        assert j > lo + 1 ==> r[j - 1] == bs[hi + j - 1 - lo];
      }
    }
  }

  lemma FreeCounts(bs: seq<Block>, i: nat, used: bool)
    requires i < |bs| && bs[i].used
    ensures PageCount(FreeAt(bs, i), used) + (if used then bs[i].len else 0)
         == PageCount(bs, used) + (if used then 0 else bs[i].len)
  {
    var lo, hi := MergeLo(bs, i), MergeHi(bs, i);
    var a, m, c := bs[..lo], bs[lo..hi + 1], bs[hi + 1..];
    assert bs == a + m + c;
    PageCountSplice(a, m, c, used);
    PageCountSplice(a, [Merged(bs, i)], c, used);
    PageCountOne(Merged(bs, i), used);
    assert m == bs[lo..i] + [bs[i]] + bs[i + 1..hi + 1];
    PageCountSplice(bs[lo..i], [bs[i]], bs[i + 1..hi + 1], used);
    PageCountOne(bs[i], used);
    PageCountOne(bs[lo], used);
    PageCountOne(bs[hi], used);
    assert lo < i ==> bs[lo..i] == [bs[lo]];
    assert i < hi ==> bs[i + 1..hi + 1] == [bs[hi]];
  }

  /** Allocating and freeing what was allocated gives back the same blocks. */
  lemma FreeUndoesAlloc(bs: seq<Block>, total: nat, i: nat, n: nat)
    requires Inv(bs, total) && i < |bs| && !bs[i].used && 0 < n <= bs[i].len
    ensures var r := AllocAt(bs, i, n);
            i < |r| && r[i] == Block(bs[i].start, n, true) && FreeAt(r, i) == bs
  {
    var r := AllocAt(bs, i, n);
    var a, b, c := bs[..i], bs[i], bs[i + 1..];
    assert bs == a + [b] + c;
    var hi := if n == b.len then i else i + 1;
    assert r[..i] == a && r[hi + 1..] == c && r[i] == Block(b.start, n, true);
    assert i > 0 ==> r[i - 1] == bs[i - 1];
    assert c != [] ==> r[hi + 1] == bs[i + 1];
    assert n < b.len ==> r[hi] == Block(b.start + n, b.len - n, false);
    assert MergeLo(r, i) == i && MergeHi(r, i) == hi;
    assert Merged(r, i) == b;
  }

  // ---------- the same state, page by page ----------

  /** For every page, whether it is in use. */
  ghost function UsedPages(bs: seq<Block>): seq<bool> {
    if bs == [] then [] else seq(bs[0].len, _ => bs[0].used) + UsedPages(bs[1..])
  }

  ghost predicate HasRun(u: seq<bool>, k: nat) {
    exists s: nat :: FreeRun(u, s, k)
  }

  /** A run of unused pages that cannot be made longer. */
  ghost predicate MaximalFreeRun(u: seq<bool>, s: nat, k: nat) {
    && k > 0 && FreeRun(u, s, k)
    && (s > 0 ==> u[s - 1])
    && (s + k < |u| ==> u[s + k])
  }

  /** The run at `s` is the shortest maximal run of at least `n` unused pages,
      and the lowest of the shortest. */
  ghost predicate ShortestRun(u: seq<bool>, n: nat, s: nat, k: nat) {
    && MaximalFreeRun(u, s, k) && k >= n
    && forall s': nat, k': nat :: MaximalFreeRun(u, s', k') && k' >= n ==>
         k < k' || (k == k' && s <= s')
  }

  lemma {:induction false} UsedPagesLength(bs: seq<Block>, lo: nat)
    requires ChainedFrom(bs, lo)
    ensures |UsedPages(bs)| == if bs == [] then 0 else EndOf(bs) - lo
  {
    if bs != [] {
      ChainedTail(bs, lo);
      UsedPagesLength(bs[1..], bs[0].End());
    }
  }

  lemma ChainedTail(bs: seq<Block>, lo: nat)
    requires ChainedFrom(bs, lo) && bs != []
    ensures ChainedFrom(bs[1..], bs[0].End())
    ensures EndOf(bs) == if |bs| == 1 then bs[0].End() else EndOf(bs[1..])
  {
    assert forall j :: 0 <= j < |bs[1..]| ==> bs[1..][j] == bs[j + 1];
  }

  /** A page is in use exactly when the block that holds it is. */
  lemma {:induction false} PageUsed(bs: seq<Block>, lo: nat, i: nat, p: nat)
    requires ChainedFrom(bs, lo) && i < |bs| && bs[i].Holds(p)
    ensures 0 <= p - lo < |UsedPages(bs)| && UsedPages(bs)[p - lo] == bs[i].used
    decreases i
  {
    ChainedTail(bs, lo);
    assert bs[0].start == lo;
    if i > 0 {
      Ordered(bs, lo, 0, i);
      hide ChainedFrom;
      assert bs[1..][i - 1] == bs[i];
      PageUsed(bs[1..], bs[0].End(), i - 1, p);
    }
  }

  lemma {:induction false} BlockOf(bs: seq<Block>, lo: nat, p: nat) returns (i: nat)
    requires ChainedFrom(bs, lo) && bs != [] && lo <= p < EndOf(bs)
    ensures i < |bs| && bs[i].Holds(p)
  {
    i := |bs| - 1;
    if p < bs[i].start {
      var front := bs[..i];
      assert forall j :: 0 <= j < |front| ==> front[j] == bs[j];
      assert i > 0 && front[i - 1] == bs[i - 1];
      i := BlockOf(front, lo, p);
    }
  }

  /** Unused pages in a row lie inside one free block: this is what coalescing
      is for. */
  lemma FreeRunInBlock(bs: seq<Block>, n: nat, s: nat, k: nat) returns (i: nat)
    requires Inv(bs, n) && k > 0 && FreeRun(UsedPages(bs), s, k)
    ensures i < |bs| && !bs[i].used && bs[i].start <= s && s + k <= bs[i].End()
  {
    UsedPagesLength(bs, 0);
    i := BlockOf(bs, 0, s);
    PageUsed(bs, 0, i, s);
    InRange(bs, n, i);
    if bs[i].End() < s + k {
      PageUsed(bs, 0, i + 1, bs[i].End());
    }
  }

  lemma FreeBlockIsRun(bs: seq<Block>, n: nat, i: nat)
    requires Inv(bs, n) && i < |bs| && !bs[i].used
    ensures MaximalFreeRun(UsedPages(bs), bs[i].start, bs[i].len)
  {
    UsedPagesLength(bs, 0);
    InRange(bs, n, i);
    var u := UsedPages(bs);
    forall p | bs[i].start <= p < bs[i].start + bs[i].len ensures !u[p] {
      PageUsed(bs, 0, i, p);
    }
    if i > 0 {
      assert bs[i].start == bs[i - 1].End() && bs[i - 1].len > 0;
      PageUsed(bs, 0, i - 1, bs[i].start - 1);
    }
    if bs[i].End() < n {
      PageUsed(bs, 0, i + 1, bs[i].End());
    }
  }

  /** The maximal runs of unused pages are exactly the free blocks. */
  lemma MaximalRunsAreFreeBlocks(bs: seq<Block>, n: nat, s: nat, k: nat)
    requires Inv(bs, n)
    ensures MaximalFreeRun(UsedPages(bs), s, k) <==> Block(s, k, false) in bs
  {
    var u := UsedPages(bs);
    if MaximalFreeRun(u, s, k) {
      var i := FreeRunInBlock(bs, n, s, k);
      FreeBlockIsRun(bs, n, i);
      assert bs[i].start == s && bs[i].len == k;
      assert bs[i] == Block(s, k, false);
    }
    if Block(s, k, false) in bs {
      var i :| 0 <= i < |bs| && bs[i] == Block(s, k, false);
      FreeBlockIsRun(bs, n, i);
    }
  }

  /** A best-fit block is the start of the shortest sufficient maximal run of
      unused pages, lowest on ties; and there is a best-fit block whenever there
      is any run of enough unused pages. */
  lemma BestFitIsShortestRun(bs: seq<Block>, total: nat, n: nat, i: nat)
    requires Inv(bs, total) && n > 0 && BestFit(bs, n, i)
    ensures ShortestRun(UsedPages(bs), n, bs[i].start, bs[i].len)
  {
    FreeBlockIsRun(bs, total, i);
    var u := UsedPages(bs);
    forall s: nat, k: nat | MaximalFreeRun(u, s, k) && k >= n
      ensures bs[i].len < k || (bs[i].len == k && bs[i].start <= s)
    {
      MaximalRunsAreFreeBlocks(bs, total, s, k);
    }
  }

  ghost predicate SomeFits(bs: seq<Block>, n: nat) {
    exists i :: 0 <= i < |bs| && !bs[i].used && bs[i].len >= n
  }

  lemma RunExistsIffFits(bs: seq<Block>, total: nat, n: nat)
    requires Inv(bs, total) && n > 0
    ensures HasRun(UsedPages(bs), n) <==> SomeFits(bs, n)
  {
    if HasRun(UsedPages(bs), n) {
      var s: nat :| FreeRun(UsedPages(bs), s, n);
      var i := FreeRunInBlock(bs, total, s, n);
    }
    if SomeFits(bs, n) {
      var i :| 0 <= i < |bs| && !bs[i].used && bs[i].len >= n;
      FreeBlockIsRun(bs, total, i);
      assert FreeRun(UsedPages(bs), bs[i].start, n);
    }
  }

  /** The pages from `s` up to `e` get the flag `used`, the others keep theirs. */
  ghost predicate Changed(before: seq<bool>, after: seq<bool>, s: nat, e: nat, used: bool) {
    && |after| == |before| && s <= e <= |before|
    && forall p :: 0 <= p < |before| ==> after[p] == if s <= p < e then used else before[p]
  }

  lemma {:induction false} UsedConcat(a: seq<Block>, b: seq<Block>)
    ensures UsedPages(a + b) == UsedPages(a) + UsedPages(b)
  {
    if a == [] {
      assert a + b == b;
    } else {
      assert (a + b)[1..] == a[1..] + b;
      UsedConcat(a[1..], b);
    }
  }

  lemma UsedSplice(a: seq<Block>, m: seq<Block>, c: seq<Block>)
    ensures UsedPages(a + m + c) == UsedPages(a) + UsedPages(m) + UsedPages(c)
  {
    UsedConcat(a, m);
    UsedConcat(a + m, c);
  }

  lemma UsedOne(b: Block)
    ensures |UsedPages([b])| == b.len && forall p :: 0 <= p < b.len ==> UsedPages([b])[p] == b.used
  {
    assert UsedPages([b][1..]) == [];
  }

  lemma UsedTwo(b: Block, c: Block)
    ensures UsedPages([b, c]) == UsedPages([b]) + UsedPages([c])
  {
    assert [b, c] == [b] + [c];
    UsedConcat([b], [c]);
  }

  lemma BeforeLength(bs: seq<Block>, i: nat)
    requires ChainedFrom(bs, 0) && i < |bs|
    ensures |UsedPages(bs[..i])| == bs[i].start
  {
    UsedPagesLength(bs[..i], 0);
  }

  lemma AllocParts(bs: seq<Block>, i: nat, n: nat)
    requires i < |bs| && 0 < n <= bs[i].len
    ensures bs == bs[..i] + [bs[i]] + bs[i + 1..]
    ensures AllocAt(bs, i, n) == bs[..i] + Carved(bs[i], n) + bs[i + 1..]
  {
  }

  /** Taking the first `n` pages of a free block puts exactly those into use. */
  lemma AllocUses(bs: seq<Block>, total: nat, i: nat, n: nat)
    requires Tiles(bs, total) && i < |bs| && !bs[i].used && 0 < n <= bs[i].len
    ensures Changed(UsedPages(bs), UsedPages(AllocAt(bs, i, n)), bs[i].start, bs[i].start + n, true)
  {
    hide UsedPages, Carved, AllocAt, Changed;
    var a, b, c := bs[..i], bs[i], bs[i + 1..];
    AllocParts(bs, i, n);
    BeforeLength(bs, i);
    CarvedUses(b, n);
    PartChanged(a, [b], Carved(b, n), c, 0, n, true);
  }

  lemma PartChanged(a: seq<Block>, m: seq<Block>, m': seq<Block>, c: seq<Block>, s: nat, e: nat, used: bool)
    requires Changed(UsedPages(m), UsedPages(m'), s, e, used)
    ensures var n := |UsedPages(a)|; Changed(UsedPages(a + m + c), UsedPages(a + m' + c), n + s, n + e, used)
  {
    hide UsedPages, Changed;
    UsedSplice(a, m, c);
    UsedSplice(a, m', c);
    ChangedWithin(UsedPages(a), UsedPages(m), UsedPages(m'), UsedPages(c), s, e, used);
  }

  lemma ChangedWithin(a: seq<bool>, m: seq<bool>, m': seq<bool>, c: seq<bool>, s: nat, e: nat, used: bool)
    requires Changed(m, m', s, e, used)
    ensures Changed(a + m + c, a + m' + c, |a| + s, |a| + e, used)
  {
  }

  lemma CarvedUses(b: Block, n: nat)
    requires 0 < n <= b.len && !b.used
    ensures Changed(UsedPages([b]), UsedPages(Carved(b, n)), 0, n, true)
  {
    var taken, rest := Block(b.start, n, true), Block(b.start + n, b.len - n, false);
    UsedOne(b);
    UsedOne(taken);
    UsedOne(rest);
    UsedTwo(taken, rest);
  }

  /** The run that is merged, and what is in front of it and behind it. */
  lemma FreeParts(bs: seq<Block>, i: nat) returns (a: seq<Block>, m: seq<Block>, c: seq<Block>)
    requires ChainedFrom(bs, 0) && i < |bs| && bs[i].used
    ensures bs == a + m + c && FreeAt(bs, i) == a + [Merged(bs, i)] + c
    ensures var n := |UsedPages(a)|;
            && n <= bs[i].start
            && Changed(UsedPages(m), UsedPages([Merged(bs, i)]), bs[i].start - n, bs[i].End() - n, false)
  {
    var lo, hi := MergeLo(bs, i), MergeHi(bs, i);
    a, m, c := bs[..lo], bs[lo..hi + 1], bs[hi + 1..];
    assert bs == a + m + c;
    hide Changed, UsedPages, Merged, ChainedFrom;
    RunUnused(bs, i);
    BeforeLength(bs, lo);
  }

  /** Giving a block back puts exactly its pages out of use. */
  lemma FreeUnuses(bs: seq<Block>, total: nat, i: nat)
    requires Tiles(bs, total) && i < |bs| && bs[i].used
    ensures Changed(UsedPages(bs), UsedPages(FreeAt(bs, i)), bs[i].start, bs[i].End(), false)
  {
    hide UsedPages, Changed, Merged, FreeAt;
    var a, m, c := FreeParts(bs, i);
    var n := |UsedPages(a)|;
    PartChanged(a, m, [Merged(bs, i)], c, bs[i].start - n, bs[i].End() - n, false);
  }

  lemma RunUnused(bs: seq<Block>, i: nat)
    requires ChainedFrom(bs, 0) && i < |bs| && bs[i].used
    ensures var lo, hi := MergeLo(bs, i), MergeHi(bs, i);
            && bs[lo].start <= bs[i].start
            && Changed(UsedPages(bs[lo..hi + 1]), UsedPages([Merged(bs, i)]),
                       bs[i].start - bs[lo].start, bs[i].End() - bs[lo].start, false)
  {
    var lo, hi := MergeLo(bs, i), MergeHi(bs, i);
    var l, r := bs[lo..i], bs[i + 1..hi + 1];
    assert bs[lo..hi + 1] == l + [bs[i]] + r;
    assert l == if lo < i then [bs[lo]] else [];
    assert r == if i < hi then [bs[hi]] else [];
    UsedSplice(l, [bs[i]], r);
    UsedOne(bs[lo]);
    UsedOne(bs[i]);
    UsedOne(bs[hi]);
    UsedOne(Merged(bs, i));
  }

  // ---------- choosing a block, and whole runs ----------

  /** The best-fit block among the first `k`, or |bs| if none of them fits. */
  ghost function BestAmong(bs: seq<Block>, n: nat, k: nat): (i: nat)
    requires k <= |bs|
    ensures i < k || i == |bs|
    ensures i < k ==> !bs[i].used && bs[i].len >= n
    ensures forall j :: 0 <= j < k && !bs[j].used && bs[j].len >= n ==>
              i < k && (bs[i].len < bs[j].len || (bs[i].len == bs[j].len && bs[i].start <= bs[j].start))
  {
    if k == 0 then |bs|
    else
      var i := BestAmong(bs, n, k - 1);
      var b := bs[k - 1];
      if b.used || b.len < n then i
      else if i == |bs| || b.len < bs[i].len || (b.len == bs[i].len && b.start < bs[i].start) then k - 1
      else i
  }

  /** What allocating `n` pages does to the blocks: nothing if no block fits. */
  ghost function AllocPages(bs: seq<Block>, n: nat): seq<Block>
    requires n > 0
  {
    var i := BestAmong(bs, n, |bs|);
    if i == |bs| then bs else AllocAt(bs, i, n)
  }

  lemma AllocPagesIs(bs: seq<Block>, n: nat, i: nat)
    requires n > 0 && ChainedFrom(bs, 0) && BestFit(bs, n, i)
    ensures AllocPages(bs, n) == AllocAt(bs, i, n)
  {
    BestFitUnique(bs, n, i, BestAmong(bs, n, |bs|));
  }

  /** With nothing in use, coalescing has put all pages back into one block. */
  lemma NothingUsedIsOneBlock(bs: seq<Block>, n: nat)
    requires Inv(bs, n) && PageCount(bs, true) == 0 && n > 0
    ensures bs == [Block(0, n, false)]
  {
    NoneUsed(bs);
    assert |bs| == 1;
  }

  lemma {:induction false} NoneUsed(bs: seq<Block>)
    requires PageCount(bs, true) == 0 && forall i :: 0 <= i < |bs| ==> bs[i].len > 0
    ensures forall i :: 0 <= i < |bs| ==> !bs[i].used
  {
    if bs != [] {
      NoneUsed(bs[1..]);
      assert forall i :: 0 < i < |bs| ==> bs[i] == bs[1..][i - 1];
    }
  }
}
