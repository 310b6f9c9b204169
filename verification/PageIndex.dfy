/** How the AVL trees and the page array of driver/mm.c represent a block list. */
module PageIndex {
  import opened Common
  import opened AvlModel
  import opened PageBlocks

  const PAGE_SIZE: nat := 0x4000
  const FAIL: nat := 0xFFFF_FFFF_FFFF_FFFF

  /** The largest number of pages for which the low 32 bits of the page
      addresses, which the key of a live block is made of, stay distinct. */
  const MAX_PAGES: nat := 0x4_0000

  /** page_t */
  datatype Page = Page(pageno: nat, addr: nat, used: int, allocPages: int, firstPageno: int)

  /** MAKE_KEY: ((vmem_key_t)a) << 32 | b in 64 bits, for b below 2^32 */
  function MakeKey(a: nat, b: nat): (k: nat)
    requires b < U32
    ensures k < U64
  {
    (a % U32) * U32 + b
  }

  /** KEY_TO_VALUE */
  function KeyToValue(key: nat): nat { key / U32 }

  /** Address of a page: unsigned long arithmetic. */
  function AddrOf(base: nat, p: nat): nat { (base + p * PAGE_SIZE) % U64 }

  function FreeKey(b: Block): nat
    requires b.start < U32
  {
    MakeKey(b.len, b.start)
  }

  function LiveKey(b: Block, base: nat): nat { MakeKey(AddrOf(base, b.start), 0) }

  /** Keys of small blocks order them by length, then by first page. */
  lemma FreeKeyOrder(b: Block, c: Block)
    requires b.start < U32 && c.start < U32 && b.len < U32 && c.len < U32
    ensures FreeKey(b) <= FreeKey(c) <==> b.len < c.len || (b.len == c.len && b.start <= c.start)
    ensures FreeKey(b) == FreeKey(c) <==> b.len == c.len && b.start == c.start
    ensures KeyToValue(FreeKey(b)) == b.len
  {
  }

  lemma LiveKeyInjective(b: Block, c: Block, base: nat)
    requires b.start < MAX_PAGES && c.start < MAX_PAGES
    ensures LiveKey(b, base) == LiveKey(c, base) <==> b.start == c.start
  {
    LowBits(base, b.start);
    LowBits(base, c.start);
    if LiveKey(b, base) == LiveKey(c, base) {
      DistinctAddresses(base, b.start, c.start);
    }
  }

  /** The key under which a live block that starts at page p is kept. */
  function PageKey(base: nat, p: nat): nat { LiveKey(Block(p, 1, true), base) }

  /** n pages have different keys exactly if there are at most MAX_PAGES of
      them, that is, if at most 4 GiB are managed. */
  lemma KeysDistinctIff(base: nat, n: nat)
    ensures (forall p, q :: 0 <= p < q < n ==> PageKey(base, p) != PageKey(base, q)) <==> n <= MAX_PAGES
  {
    hide LiveKey;
    if n <= MAX_PAGES {
      forall p, q | 0 <= p < q < n ensures PageKey(base, p) != PageKey(base, q) {
        LiveKeyInjective(Block(p, 1, true), Block(q, 1, true), base);
      }
    } else {
      FourGigabytes(base);
      assert PageKey(base, 0) == PageKey(base, MAX_PAGES);
    }
  }

  lemma FourGigabytes(base: nat)
    ensures PageKey(base, 0) == PageKey(base, MAX_PAGES)
  {
    hide AddrOf;
    LowBits(base, 0);
    LowBits(base, MAX_PAGES);
    OneTurn(base);
  }

  lemma OneTurn(a: nat)
    ensures (a + U32) % U32 == a % U32
  {
  }

  /** Page addresses are page aligned, so none of them is mistaken for the -1
      that reports failure. */
  lemma AddrAligned(base: nat, p: nat)
    requires base % PAGE_SIZE == 0
    ensures AddrOf(base, p) % PAGE_SIZE == 0 && AddrOf(base, p) != FAIL
  {
  }

  lemma LowBits(base: nat, p: nat)
    ensures AddrOf(base, p) % U32 == (base + p * PAGE_SIZE) % U32
  {
  }

  lemma DistinctAddresses(base: nat, p: nat, q: nat)
    requires p < MAX_PAGES && q < MAX_PAGES
    requires (base + p * PAGE_SIZE) % U32 == (base + q * PAGE_SIZE) % U32
    ensures p == q
  {
  }

  // ---------- what the trees index ----------

  /** The (key, page) pairs of a tree. */
  ghost function Pairs(s: seq<Entry>): set<(nat, nat)> {
    set i | 0 <= i < |s| :: (s[i].key, s[i].page)
  }

  ghost function PairOf(b: Block, base: nat): (nat, nat)
    requires b.start < U32
  {
    (if b.used then LiveKey(b, base) else FreeKey(b), b.start)
  }

  ghost predicate Small(bs: seq<Block>) {
    forall i :: 0 <= i < |bs| ==> bs[i].start < MAX_PAGES && bs[i].len <= MAX_PAGES
  }

  /** The pairs the free tree (`used` false) or the alloc tree (`used` true)
      ought to hold. */
  ghost function IndexOf(bs: seq<Block>, base: nat, used: bool): set<(nat, nat)>
    requires Small(bs)
  {
    set i | 0 <= i < |bs| && bs[i].used == used :: PairOf(bs[i], base)
  }

  lemma SmallTiles(bs: seq<Block>, n: nat)
    requires Tiles(bs, n) && n <= MAX_PAGES
    ensures Small(bs)
  {
    forall i | 0 <= i < |bs| ensures bs[i].start < MAX_PAGES && bs[i].len <= MAX_PAGES {
      InRange(bs, n, i);
    }
  }

  lemma IndexConcat(a: seq<Block>, b: seq<Block>, base: nat, used: bool)
    requires Small(a) && Small(b)
    ensures Small(a + b)
    ensures IndexOf(a + b, base, used) == IndexOf(a, base, used) + IndexOf(b, base, used)
  {
    var s := a + b;
    assert forall i :: 0 <= i < |a| ==> s[i] == a[i];
    assert forall i :: 0 <= i < |b| ==> s[|a| + i] == b[i];
    assert forall i :: 0 <= i < |s| ==> s[i] == if i < |a| then a[i] else b[i - |a|];
  }

  lemma IndexOne(b: Block, base: nat, used: bool)
    requires b.start < MAX_PAGES && b.len <= MAX_PAGES
    ensures IndexOf([b], base, used) == if b.used == used then {PairOf(b, base)} else {}
  {
    assert [b][0] == b;
  }

  lemma IndexSplice(a: seq<Block>, m: seq<Block>, c: seq<Block>, base: nat, used: bool)
    requires Small(a) && Small(m) && Small(c)
    ensures Small(a + m + c)
    ensures IndexOf(a + m + c, base, used)
         == IndexOf(a, base, used) + IndexOf(m, base, used) + IndexOf(c, base, used)
  {
    IndexConcat(a, m, base, used);
    IndexConcat(a + m, c, base, used);
  }

  /** Each block has its own pair, and its own key. */
  lemma IndexUnique(bs: seq<Block>, base: nat, i: nat, j: nat)
    requires Small(bs) && ChainedFrom(bs, 0) && i < |bs| && j < |bs| && bs[i].used == bs[j].used
    requires PairOf(bs[i], base).0 == PairOf(bs[j], base).0
    ensures i == j
  {
    if bs[i].used {
      LiveKeyInjective(bs[i], bs[j], base);
    } else {
      FreeKeyOrder(bs[i], bs[j]);
    }
    SameStart(bs, 0, i, j);
  }

  lemma PairsInsertAt(s: seq<Entry>, i: nat, e: Entry)
    requires i <= |s|
    ensures Pairs(InsertAt(s, i, e)) == Pairs(s) + {(e.key, e.page)}
  {
    var r := InsertAt(s, i, e);
    assert r[i] == e;
    assert forall j :: 0 <= j < |s| ==> s[j] == r[if j < i then j else j + 1];
    assert forall j :: 0 <= j < |r| ==> r[j] == if j < i then s[j] else if j == i then e else s[j - 1];
  }

  lemma PairsRemoveAt(s: seq<Entry>, i: nat)
    requires i < |s| && Sorted(s)
    ensures Pairs(RemoveAt(s, i)) == Pairs(s) - {(s[i].key, s[i].page)}
  {
    var r, gone := RemoveAt(s, i), (s[i].key, s[i].page);
    forall x | x in Pairs(r) ensures x in Pairs(s) && x != gone {
      var j :| 0 <= j < |r| && x == (r[j].key, r[j].page);
      assert r[j] == s[if j < i then j else j + 1];
    }
    forall x | x in Pairs(s) && x != gone ensures x in Pairs(r) {
      var j :| 0 <= j < |s| && x == (s[j].key, s[j].page);
      assert s[j] == r[if j < i then j else j - 1];
    }
  }

  /** The two lists differ by exchanging `m` for `m'`; so do their indexes. */
  lemma IndexExchange(a: seq<Block>, m: seq<Block>, m': seq<Block>, c: seq<Block>, base: nat, used: bool)
    requires Small(a) && Small(m) && Small(m') && Small(c)
    requires ChainedFrom(a + m + c, 0)
    ensures Small(a + m + c) && Small(a + m' + c)
    ensures IndexOf(a + m' + c, base, used)
         == IndexOf(a + m + c, base, used) - IndexOf(m, base, used) + IndexOf(m', base, used)
  {
    IndexSplice(a, m, c, base, used);
    IndexSplice(a, m', c, base, used);
    IndexConcat(a, m, base, used);
    IndexDisjoint(a + m, c, base, used);
    assert ChainedFrom(a + m, 0) by {
      assert forall i :: 0 <= i < |a + m| ==> (a + m)[i] == (a + m + c)[i];
    }
    IndexDisjoint(a, m, base, used);
  }

  lemma IndexDisjoint(a: seq<Block>, b: seq<Block>, base: nat, used: bool)
    requires Small(a) && Small(b) && ChainedFrom(a + b, 0)
    ensures IndexOf(a, base, used) !! IndexOf(b, base, used)
  {
    var s := a + b;
    IndexConcat(a, b, base, used);
    if x :| x in IndexOf(a, base, used) && x in IndexOf(b, base, used) {
      var i :| 0 <= i < |a| && a[i].used == used && x == PairOf(a[i], base);
      var j :| 0 <= j < |b| && b[j].used == used && x == PairOf(b[j], base);
      assert s[i] == a[i] && s[|a| + j] == b[j];
      IndexUnique(s, base, i, |a| + j);
    }
  }

  // ---------- what the page array records ----------

  /** The entry of page `p` of block `b`: the length of the block on its first
      page, the first page on its last page, neither anywhere else. */
  ghost function TagOf(b: Block, base: nat, p: nat): Page {
    Page(p, AddrOf(base, p), if b.used then 1 else 0,
         if p == b.start then b.len else 0,
         if p + 1 == b.End() then b.start else -1)
  }

  ghost predicate Tagged(pages: seq<Page>, bs: seq<Block>, base: nat) {
    forall i, p {:trigger bs[i].Holds(p)} :: 0 <= i < |bs| && bs[i].Holds(p) ==>
      0 <= p < |pages| && pages[p] == TagOf(bs[i], base, p)
  }

  lemma TaggedExchange(pages: seq<Page>, pages': seq<Page>, a: seq<Block>, m: seq<Block>,
                       m': seq<Block>, c: seq<Block>, base: nat, n: nat)
    requires Tiles(a + m + c, n) && Tiles(a + m' + c, n) && m != []
    requires |pages| == |pages'| == n
    requires Tagged(pages, a + m + c, base)
    requires forall p :: 0 <= p < n && !(m[0].start <= p < EndOf(m)) ==> pages'[p] == pages[p]
    requires Tagged(pages', m', base)
    ensures Tagged(pages', a + m' + c, base)
  {
    var bs, r := a + m + c, a + m' + c;
    var k, k' := |a| + |m|, |a| + |m'|;
    assert bs[|a|] == m[0] && bs[k - 1] == m[|m| - 1];
    forall i, p {:trigger r[i].Holds(p)} | 0 <= i < |r| && r[i].Holds(p)
      ensures 0 <= p < n && pages'[p] == TagOf(r[i], base, p)
    {
      InRange(r, n, i);
      if i < |a| {
        assert r[i] == bs[i] && bs[i].Holds(p);
        Ordered(bs, 0, i, |a|);
      } else if i < k' {
        assert r[i] == m'[i - |a|] && m'[i - |a|].Holds(p);
      } else {
        assert r[i] == bs[i - k' + k] && bs[i - k' + k].Holds(p);
        Ordered(bs, 0, k - 1, i - k' + k);
      }
    }
  }

  // ---------- a whole state ----------

  /** The page array and the entries of the two trees record exactly `bs`. */
  ghost predicate Represents(pages: seq<Page>, free: seq<Entry>, live: seq<Entry>,
                             bs: seq<Block>, base: nat, n: nat)
  {
    && 0 < n <= MAX_PAGES && |pages| == n && Inv(bs, n) && Small(bs)
    && Tagged(pages, bs, base)
    && Sorted(free) && Pairs(free) == IndexOf(bs, base, false)
    && Sorted(live) && Pairs(live) == IndexOf(bs, base, true)
  }

  /** Page number and address are set once, by vmem_init. */
  ghost predicate Numbered(pages: seq<Page>, base: nat) {
    forall p :: 0 <= p < |pages| ==> pages[p].pageno == p && pages[p].addr == AddrOf(base, p)
  }

  lemma NumberedAt(pages: seq<Page>, base: nat, p: nat)
    requires Numbered(pages, base) && p < |pages|
    ensures pages[p].pageno == p && pages[p].addr == AddrOf(base, p)
  {
  }

  lemma NumberedUpdate(pages: seq<Page>, base: nat, p: nat, tag: Page)
    requires Numbered(pages, base) && p < |pages|
    requires tag.pageno == pages[p].pageno && tag.addr == pages[p].addr
    ensures Numbered(pages[p := tag], base)
  {
  }

  lemma TaggedNumbered(pages: seq<Page>, bs: seq<Block>, base: nat, n: nat)
    requires Tiles(bs, n) && Tagged(pages, bs, base) && |pages| == n
    ensures Numbered(pages, base)
  {
    forall p | 0 <= p < |pages| ensures pages[p].pageno == p && pages[p].addr == AddrOf(base, p) {
      var i := BlockOf(bs, 0, p);
      assert bs[i].Holds(p);
    }
  }

  /** The page array says of every page whether it is in use. */
  lemma TaggedUsed(pages: seq<Page>, bs: seq<Block>, base: nat, n: nat)
    requires Tiles(bs, n) && Tagged(pages, bs, base) && |pages| == n
    ensures UsedPages(bs) == seq(n, p requires 0 <= p < n => pages[p].used == 1)
  {
    UsedPagesLength(bs, 0);
    forall p | 0 <= p < n ensures UsedPages(bs)[p] == (pages[p].used == 1) {
      var i := BlockOf(bs, 0, p);
      PageUsed(bs, 0, i, p);
      assert bs[i].Holds(p);
    }
  }

  /** An entry of a tree stands for a block, and a block has its entry. */
  lemma EntryBlock(s: seq<Entry>, bs: seq<Block>, base: nat, used: bool, i: nat) returns (b: nat)
    requires Small(bs) && Pairs(s) == IndexOf(bs, base, used) && i < |s|
    ensures b < |bs| && bs[b].used == used && PairOf(bs[b], base) == (s[i].key, s[i].page)
  {
    assert (s[i].key, s[i].page) in IndexOf(bs, base, used);
    b :| 0 <= b < |bs| && bs[b].used == used && PairOf(bs[b], base) == (s[i].key, s[i].page);
  }

  lemma BlockEntry(s: seq<Entry>, bs: seq<Block>, base: nat, used: bool, b: nat) returns (i: nat)
    requires Small(bs) && Pairs(s) == IndexOf(bs, base, used) && b < |bs| && bs[b].used == used
    ensures i < |s| && PairOf(bs[b], base) == (s[i].key, s[i].page)
  {
    assert PairOf(bs[b], base) in Pairs(s);
    i :| 0 <= i < |s| && PairOf(bs[b], base) == (s[i].key, s[i].page);
  }

  /** The least free key at or above MAKE_KEY(n, 0) is that of the best fit. */
  lemma LeastKeyIsBestFit(s: seq<Entry>, bs: seq<Block>, base: nat, n: nat) returns (b: nat)
    requires Sorted(s) && Small(bs) && Pairs(s) == IndexOf(bs, base, false) && 0 < n < U32
    ensures var i := LowerBound(s, MakeKey(n, 0));
            if i < |s| then BestFit(bs, n, b) && PairOf(bs[b], base) == (s[i].key, s[i].page)
            else !SomeFits(bs, n)
  {
    var i := LowerBound(s, MakeKey(n, 0));
    var probe := Block(0, n, false);
    assert FreeKey(probe) == MakeKey(n, 0);
    b := 0;
    if i < |s| {
      b := EntryBlock(s, bs, base, false, i);
      FreeKeyOrder(probe, bs[b]);
    }
    forall j | 0 <= j < |bs| && !bs[j].used && bs[j].len >= n
      ensures i < |s| && (bs[b].len < bs[j].len || (bs[b].len == bs[j].len && bs[b].start <= bs[j].start))
    {
      var k := BlockEntry(s, bs, base, false, j);
      FreeKeyOrder(probe, bs[j]);
      assert i <= k;
      assert s[i].key <= s[k].key;
      FreeKeyOrder(bs[b], bs[j]);
    }
  }

  /** No block begins at `start`, so no key for a block there is in use. */
  lemma StartAbsent(s: seq<Entry>, bs: seq<Block>, base: nat, used: bool, c: Block)
    requires Small(bs) && Pairs(s) <= IndexOf(bs, base, used) && c.used == used
    requires c.start < MAX_PAGES && c.len <= MAX_PAGES
    requires forall i :: 0 <= i < |bs| && bs[i].used == used ==> bs[i].start != c.start
    ensures Absent(s, PairOf(c, base).0)
  {
    forall i | 0 <= i < |s| ensures s[i].key != PairOf(c, base).0 {
      assert (s[i].key, s[i].page) in IndexOf(bs, base, used);
      var b :| 0 <= b < |bs| && bs[b].used == used && PairOf(bs[b], base) == (s[i].key, s[i].page);
      if used { LiveKeyInjective(bs[b], c, base); } else { FreeKeyOrder(bs[b], c); }
    }
  }

  /** Exchanging the blocks `m` for `m'` in the page array and in both trees
      keeps the representation. */
  lemma RepresentsExchange(pages: seq<Page>, free: seq<Entry>, live: seq<Entry>,
                           pages': seq<Page>, free': seq<Entry>, live': seq<Entry>,
                           a: seq<Block>, m: seq<Block>, m': seq<Block>, c: seq<Block>, base: nat, n: nat)
    requires Represents(pages, free, live, a + m + c, base, n)
    requires Inv(a + m' + c, n) && m != [] && |pages'| == n
    requires Small(m) && Small(m')
    requires forall p :: 0 <= p < n && !(m[0].start <= p < EndOf(m)) ==> pages'[p] == pages[p]
    requires Tagged(pages', m', base)
    requires Sorted(free') && Sorted(live')
    requires Pairs(free') == Pairs(free) - IndexOf(m, base, false) + IndexOf(m', base, false)
    requires Pairs(live') == Pairs(live) - IndexOf(m, base, true) + IndexOf(m', base, true)
    ensures Represents(pages', free', live', a + m' + c, base, n)
  {
    TaggedExchange(pages, pages', a, m, m', c, base, n);
    assert ChainedFrom(a + m + c, 0);
    hide Tagged, Inv, Pairs, Sorted, IndexOf, ChainedFrom;
    SmallParts(a, m, c);
    IndexExchange(a, m, m', c, base, false);
    IndexExchange(a, m, m', c, base, true);
  }

  lemma SmallParts(a: seq<Block>, m: seq<Block>, c: seq<Block>)
    requires Small(a + m + c)
    ensures Small(a) && Small(m) && Small(c)
  {
    var bs := a + m + c;
    assert forall i :: 0 <= i < |a| ==> a[i] == bs[i];
    assert forall i :: 0 <= i < |m| ==> m[i] == bs[|a| + i];
    assert forall i :: 0 <= i < |c| ==> c[i] == bs[|a| + |m| + i];
  }

  /** Block `b` has been cut in two in the page array and in both trees. */
  lemma RepresentsAlloc(pages: seq<Page>, free: seq<Entry>, live: seq<Entry>,
                        pages': seq<Page>, free': seq<Entry>, live': seq<Entry>,
                        bs: seq<Block>, base: nat, total: nat, b: nat, n: nat)
    requires Represents(pages, free, live, bs, base, total)
    requires b < |bs| && !bs[b].used && 0 < n <= bs[b].len && |pages'| == total
    requires forall p :: 0 <= p < total && !bs[b].Holds(p) ==> pages'[p] == pages[p]
    requires Tagged(pages', Carved(bs[b], n), base)
    requires Sorted(free') && Sorted(live')
    requires Pairs(free') == Pairs(free) - {PairOf(bs[b], base)} +
               if n == bs[b].len then {}
               else {(MakeKey(bs[b].len - n, bs[b].start + n), bs[b].start + n)}
    requires Pairs(live') == Pairs(live) + {(MakeKey(AddrOf(base, bs[b].start), 0), bs[b].start)}
    ensures Represents(pages', free', live', AllocAt(bs, b, n), base, total)
  {
    hide Carved, AllocAt, Tiles, Coalesced, Tagged, Pairs, IndexOf, Sorted, PairOf;
    AllocKeeps(bs, total, b, n);
    CarvedSplit(bs, total, b, n);
    CarvedIndex(bs[b], base, n, false);
    CarvedIndex(bs[b], base, n, true);
    IndexOne(bs[b], base, false);
    IndexOne(bs[b], base, true);
    RepresentsExchange(pages, free, live, pages', free', live',
                       bs[..b], [bs[b]], Carved(bs[b], n), bs[b + 1..], base, total);
  }

  lemma CarvedSplit(bs: seq<Block>, total: nat, b: nat, n: nat)
    requires Tiles(bs, total) && b < |bs| && 0 < n <= bs[b].len
    ensures bs == bs[..b] + [bs[b]] + bs[b + 1..]
    ensures AllocAt(bs, b, n) == bs[..b] + Carved(bs[b], n) + bs[b + 1..]
    ensures [bs[b]] != [] && [bs[b]][0] == bs[b] && EndOf([bs[b]]) == bs[b].End() <= total
  {
    InRange(bs, total, b);
  }

  lemma CarvedIndex(b: Block, base: nat, n: nat, used: bool)
    requires 0 < n <= b.len && b.End() <= MAX_PAGES && !b.used
    ensures Small(Carved(b, n))
    ensures IndexOf(Carved(b, n), base, used) ==
            if used then {(MakeKey(AddrOf(base, b.start), 0), b.start)}
            else if n == b.len then {}
            else {(MakeKey(b.len - n, b.start + n), b.start + n)}
  {
    var taken, rest := Block(b.start, n, true), Block(b.start + n, b.len - n, false);
    IndexOne(taken, base, used);
    if n < b.len {
      assert Carved(b, n) == [taken] + [rest];
      IndexOne(rest, base, used);
      IndexConcat([taken], [rest], base, used);
    } else {
      assert Carved(b, n) == [taken];
    }
  }

  // ---------- giving a block back ----------

  /** Block `i` is live and begins at an address that vmem_free takes `ptr` for:
      only the low 32 bits are compared. */
  ghost predicate Frees(bs: seq<Block>, base: nat, ptr: nat, i: nat) {
    i < |bs| && bs[i].used && AddrOf(base, bs[i].start) % U32 == ptr % U32
  }

  lemma FreesUnique(bs: seq<Block>, base: nat, ptr: nat, i: nat, j: nat)
    requires Small(bs) && ChainedFrom(bs, 0) && Frees(bs, base, ptr, i) && Frees(bs, base, ptr, j)
    ensures i == j
  {
    LiveKeyInjective(bs[i], bs[j], base);
    SameStart(bs, 0, i, j);
  }

  /** Two live blocks that vmem_free could take the same address for. */
  ghost predicate Ambiguous(bs: seq<Block>, base: nat, ptr: nat, i: nat, j: nat) {
    i != j && Frees(bs, base, ptr, i) && Frees(bs, base, ptr, j)
  }

  /** Looking MAKE_KEY(ptr, 0) up among the live keys finds the block to free. */
  lemma LiveKeyFrees(s: seq<Entry>, bs: seq<Block>, base: nat, ptr: nat) returns (b: nat)
    requires Sorted(s) && Small(bs) && Pairs(s) == IndexOf(bs, base, true)
    ensures var i := LowerBound(s, MakeKey(ptr, 0));
            if i < |s| && s[i].key == MakeKey(ptr, 0) then
              Frees(bs, base, ptr, b) && PairOf(bs[b], base) == (s[i].key, s[i].page)
            else forall j: nat :: !Frees(bs, base, ptr, j)
  {
    var key := MakeKey(ptr, 0);
    var i := LowerBound(s, key);
    b := 0;
    if i < |s| && s[i].key == key {
      b := EntryBlock(s, bs, base, true, i);
    } else {
      forall j: nat | j < |bs| && bs[j].used ensures !Frees(bs, base, ptr, j) {
        var k := BlockEntry(s, bs, base, true, j);
        assert k < i ==> s[k].key < key;
        assert i < k ==> s[i].key < s[k].key;
      }
    }
  }

  /** The blocks that merge when block `i` is freed. */
  ghost function Merging(bs: seq<Block>, i: nat): seq<Block>
    requires i < |bs|
  {
    bs[MergeLo(bs, i)..MergeHi(bs, i) + 1]
  }

  /** The free pairs that vmem_free removes: those of the free neighbours. */
  ghost function NeighbourPairs(bs: seq<Block>, base: nat, i: nat): set<(nat, nat)>
    requires i < |bs| && Small(bs)
  {
    (if MergeLo(bs, i) < i then {PairOf(bs[i - 1], base)} else {})
    + (if i < MergeHi(bs, i) then {PairOf(bs[i + 1], base)} else {})
  }

  lemma AroundOne<T>(s: seq<T>, lo: nat, i: nat, hi: nat)
    requires lo <= i < hi <= |s|
    ensures s[lo..hi] == s[lo..i] + [s[i]] + s[i + 1..hi]
  {
  }

  lemma MergingIndex(bs: seq<Block>, base: nat, i: nat)
    requires i < |bs| && Small(bs) && bs[i].used
    ensures Small(Merging(bs, i))
    ensures IndexOf(Merging(bs, i), base, false) == NeighbourPairs(bs, base, i)
    ensures IndexOf(Merging(bs, i), base, true) == {PairOf(bs[i], base)}
  {
    var lo, hi := MergeLo(bs, i), MergeHi(bs, i);
    var l, r := bs[lo..i], bs[i + 1..hi + 1];
    AroundOne(bs, lo, i, hi + 1);
    UpToOne(bs, lo, i);
    UpToOne(bs, i + 1, hi + 1);
    hide IndexOf, PairOf;
    NoneIndex(base);
    NeighbourIndex(bs, base, i, false);
    NeighbourIndex(bs, base, i, true);
    IndexSplice(l, [bs[i]], r, base, false);
    IndexSplice(l, [bs[i]], r, base, true);
  }

  lemma UpToOne<T>(s: seq<T>, from: nat, to: nat)
    requires from <= to <= |s|
    ensures to == from ==> s[from..to] == []
    ensures to == from + 1 ==> s[from..to] == [s[from]]
  {
  }

  lemma NoneIndex(base: nat)
    ensures Small([]) && IndexOf([], base, false) == {} && IndexOf([], base, true) == {}
  {
  }

  /** The parts of the run that is merged, tree by tree. */
  lemma NeighbourIndex(bs: seq<Block>, base: nat, i: nat, used: bool)
    requires i < |bs| && Small(bs) && bs[i].used
    ensures IndexOf([bs[i]], base, used) == if used then {PairOf(bs[i], base)} else {}
    ensures MergeLo(bs, i) < i ==> IndexOf([bs[i - 1]], base, used) == if used then {} else {PairOf(bs[i - 1], base)}
    ensures i < MergeHi(bs, i) ==> IndexOf([bs[i + 1]], base, used) == if used then {} else {PairOf(bs[i + 1], base)}
  {
    hide PairOf;
    IndexOne(bs[i], base, used);
    if MergeLo(bs, i) < i { IndexOne(bs[i - 1], base, used); }
    if i < MergeHi(bs, i) { IndexOne(bs[i + 1], base, used); }
  }

  /** Block `i` and its free neighbours have become one free block in the page
      array and in both trees. */
  lemma RepresentsFree(pages: seq<Page>, free: seq<Entry>, live: seq<Entry>,
                       pages': seq<Page>, free': seq<Entry>, live': seq<Entry>,
                       bs: seq<Block>, base: nat, total: nat, i: nat)
    requires Represents(pages, free, live, bs, base, total)
    requires i < |bs| && bs[i].used && |pages'| == total
    requires forall p :: 0 <= p < total && !Merged(bs, i).Holds(p) ==> pages'[p] == pages[p]
    requires Tagged(pages', [Merged(bs, i)], base)
    requires Sorted(free') && Sorted(live')
    requires Merged(bs, i).start < U32
    requires Pairs(free') == Pairs(free) - NeighbourPairs(bs, base, i) + {PairOf(Merged(bs, i), base)}
    requires Pairs(live') == Pairs(live) - {PairOf(bs[i], base)}
    ensures Represents(pages', free', live', FreeAt(bs, i), base, total)
  {
    hide Merged, Merging, FreeAt, Tiles, Coalesced, Tagged, Pairs, IndexOf, Sorted, NeighbourPairs, PairOf;
    FreeKeeps(bs, total, i);
    MergingSplit(bs, i);
    MergedInRange(bs, total, i);
    MergingIndex(bs, base, i);
    MergedOne(bs, base, i);
    RepresentsExchange(pages, free, live, pages', free', live',
                       bs[..MergeLo(bs, i)], Merging(bs, i), [Merged(bs, i)], bs[MergeHi(bs, i) + 1..],
                       base, total);
  }

  lemma MergedOne(bs: seq<Block>, base: nat, i: nat)
    requires i < |bs| && Merged(bs, i).start < MAX_PAGES && Merged(bs, i).len <= MAX_PAGES
    ensures Small([Merged(bs, i)])
    ensures IndexOf([Merged(bs, i)], base, false) == {PairOf(Merged(bs, i), base)}
    ensures IndexOf([Merged(bs, i)], base, true) == {}
  {
    IndexOne(Merged(bs, i), base, false);
    IndexOne(Merged(bs, i), base, true);
  }

  lemma MergedInRange(bs: seq<Block>, total: nat, i: nat)
    requires Tiles(bs, total) && total <= MAX_PAGES && i < |bs|
    ensures Merged(bs, i).start == bs[MergeLo(bs, i)].start < MAX_PAGES
    ensures Merged(bs, i).End() == bs[MergeHi(bs, i)].End()
    ensures 0 < Merged(bs, i).len <= MAX_PAGES && Merged(bs, i).End() <= total
  {
    MergedSpan(bs, i);
    InRange(bs, total, MergeHi(bs, i));
    InRange(bs, total, MergeLo(bs, i));
  }

  /** The blocks that stay as they are when block `i` is freed. */
  ghost function Outside(bs: seq<Block>, i: nat): seq<Block>
    requires i < |bs|
  {
    bs[..MergeLo(bs, i)] + bs[MergeHi(bs, i) + 1..]
  }

  lemma OtherStarts(bs: seq<Block>, i: nat, j: nat)
    requires ChainedFrom(bs, 0) && i < |bs| && j < |Outside(bs, i)|
    ensures Outside(bs, i)[j].start != Merged(bs, i).start
  {
    var lo, hi := MergeLo(bs, i), MergeHi(bs, i);
    MergedSpan(bs, i);
    var k := if j < lo then j else j - lo + hi + 1;
    assert Outside(bs, i)[j] == bs[k];
    if bs[k].start == bs[lo].start {
      SameStart(bs, 0, k, lo);
    }
  }

  lemma MergingSplit(bs: seq<Block>, i: nat)
    requires i < |bs|
    ensures bs == bs[..MergeLo(bs, i)] + Merging(bs, i) + bs[MergeHi(bs, i) + 1..]
    ensures FreeAt(bs, i) == bs[..MergeLo(bs, i)] + [Merged(bs, i)] + bs[MergeHi(bs, i) + 1..]
    ensures Merging(bs, i) != []
    ensures Merging(bs, i)[0] == bs[MergeLo(bs, i)]
    ensures EndOf(Merging(bs, i)) == bs[MergeHi(bs, i)].End()
  {
  }

  lemma IndexWithout(a: seq<Block>, m: seq<Block>, c: seq<Block>, base: nat)
    requires Small(a + m + c) && Small(a) && Small(m) && Small(c) && ChainedFrom(a + m + c, 0)
    ensures Small(a + c)
    ensures IndexOf(a + c, base, false) == IndexOf(a + m + c, base, false) - IndexOf(m, base, false)
  {
    IndexOfNone(base);
    assert a + [] + c == a + c;
    IndexExchange(a, m, [], c, base, false);
  }

  /** What stays in the free tree are the pairs of the blocks outside the run. */
  lemma RestIndex(bs: seq<Block>, base: nat, i: nat)
    requires ChainedFrom(bs, 0) && Small(bs) && i < |bs| && bs[i].used
    ensures Small(Outside(bs, i))
    ensures IndexOf(Outside(bs, i), base, false)
         == IndexOf(bs, base, false) - NeighbourPairs(bs, base, i)
  {
    hide IndexOf, NeighbourPairs, ChainedFrom, Small, Merging;
    var a, m, c := bs[..MergeLo(bs, i)], Merging(bs, i), bs[MergeHi(bs, i) + 1..];
    MergingSplit(bs, i);
    SmallParts(a, m, c);
    MergingIndex(bs, base, i);
    IndexWithout(a, m, c, base);
  }

  /** The key of the merged block is free to be inserted. */
  lemma MergedAbsent(free: seq<Entry>, free': seq<Entry>, bs: seq<Block>, base: nat, total: nat, i: nat)
    requires Inv(bs, total) && total <= MAX_PAGES && Small(bs) && i < |bs| && bs[i].used
    requires Pairs(free) == IndexOf(bs, base, false)
    requires Pairs(free') == Pairs(free) - NeighbourPairs(bs, base, i)
    ensures Merged(bs, i).start < MAX_PAGES && 0 < Merged(bs, i).len <= MAX_PAGES
    ensures Merged(bs, i).End() <= total
    ensures Absent(free', MakeKey(Merged(bs, i).len, Merged(bs, i).start))
  {
    MergedInRange(bs, total, i);
    RestIndex(bs, base, i);
    var rest := Outside(bs, i);
    forall j | 0 <= j < |rest| ensures rest[j].start != Merged(bs, i).start {
      OtherStarts(bs, i, j);
    }
    StartAbsent(free', rest, base, false, Merged(bs, i));
  }

  lemma IndexOfNone(base: nat)
    ensures IndexOf([], base, false) == {} && IndexOf([], base, true) == {}
  {
  }

  lemma SortedPair(s: seq<Entry>, i: nat, k: nat)
    requires Sorted(s) && i <= k < |s|
    ensures s[i].key <= s[k].key && (s[i].key == s[k].key ==> i == k)
  {
  }

  /** A pair the tree holds is found under its key. */
  lemma KeyPresent(s: seq<Entry>, key: nat, page: nat)
    requires Sorted(s) && (key, page) in Pairs(s)
    ensures var i := LowerBound(s, key); i < |s| && s[i].key == key && s[i].page == page
  {
    var k :| 0 <= k < |s| && s[k].key == key && s[k].page == page;
    var i := LowerBound(s, key);
    SortedPair(s, i, k);
  }

  /** The pair of a free block that has not been taken out is still there. */
  lemma FreePairPresent(s: seq<Entry>, free: seq<Entry>, gone: set<(nat, nat)>,
                        bs: seq<Block>, base: nat, k: nat)
    requires Sorted(s) && Small(bs) && Pairs(free) == IndexOf(bs, base, false)
    requires Pairs(s) == Pairs(free) - gone
    requires k < |bs| && !bs[k].used && PairOf(bs[k], base) !in gone
    ensures var key := MakeKey(bs[k].len, bs[k].start);
            var i := LowerBound(s, key);
            i < |s| && s[i].key == key && s[i].page == bs[k].start
            && PairOf(bs[k], base) == (s[i].key, s[i].page)
  {
    assert PairOf(bs[k], base) in IndexOf(bs, base, false);
    KeyPresent(s, MakeKey(bs[k].len, bs[k].start), bs[k].start);
  }

  /** What vmem_free does to the blocks: nothing if no live block matches. */
  ghost function FreePtr(bs: seq<Block>, base: nat, ptr: nat): seq<Block> {
    if i: nat :| Frees(bs, base, ptr, i) then FreeAt(bs, i) else bs
  }

  // ---------- whole runs ----------

  datatype Request = Alloc(size: int) | Free(ptr: nat)

  /** The number of pages vmem_alloc asks for: size rounded up. */
  function PagesFor(size: int): nat
    requires size > 0
  {
    (size + PAGE_SIZE - 1) / PAGE_SIZE
  }

  /** They hold the size, and one page fewer would not. */
  lemma PagesHold(size: int)
    requires size > 0
    ensures (PagesFor(size) - 1) * PAGE_SIZE < size <= PagesFor(size) * PAGE_SIZE
  {
  }

  /** A run of pages is long enough exactly if its bytes are. */
  lemma RunHolds(u: seq<bool>, size: int)
    requires size > 0
    ensures HasRun(u, PagesFor(size)) <==> exists s: nat, k: nat :: FreeRun(u, s, k) && k * PAGE_SIZE >= size
  {
    PagesHold(size);
    var n := PagesFor(size);
    if s: nat, k: nat :| FreeRun(u, s, k) && k * PAGE_SIZE >= size {
      assert k >= n;
      assert FreeRun(u, s, n);
    }
    if HasRun(u, n) {
      var s: nat :| FreeRun(u, s, n);
      assert FreeRun(u, s, n) && n * PAGE_SIZE >= size;
    }
  }

  ghost function Serve(bs: seq<Block>, base: nat, q: Request): seq<Block> {
    match q
    case Alloc(size) => if size <= 0 then bs else AllocPages(bs, PagesFor(size))
    case Free(ptr) => FreePtr(bs, base, ptr)
  }

  /** The state after serving the requests in order, from vmem_init on. */
  ghost function Run(n: nat, base: nat, qs: seq<Request>): seq<Block> {
    if qs == [] then [Block(0, n, false)]
    else Serve(Run(n, base, qs[..|qs| - 1]), base, qs[|qs| - 1])
  }

  lemma ServeKeeps(bs: seq<Block>, base: nat, n: nat, q: Request)
    requires Inv(bs, n)
    ensures Inv(Serve(bs, base, q), n)
    ensures PageCount(Serve(bs, base, q), true) + PageCount(Serve(bs, base, q), false)
         == PageCount(bs, true) + PageCount(bs, false)
  {
    match q
    case Alloc(size) =>
      if size > 0 {
        var k := PagesFor(size);
        var i := BestAmong(bs, k, |bs|);
        if i < |bs| {
          AllocKeeps(bs, n, i, k);
          AllocCounts(bs, i, k, true);
          AllocCounts(bs, i, k, false);
        }
      }
    case Free(ptr) =>
      if exists i: nat :: Frees(bs, base, ptr, i) {
        var i: nat :| Frees(bs, base, ptr, i) && FreePtr(bs, base, ptr) == FreeAt(bs, i);
        FreeKeeps(bs, n, i);
        FreeCounts(bs, i, true);
        FreeCounts(bs, i, false);
      }
  }

  lemma FreeMisses(bs: seq<Block>, base: nat, ptr: nat)
    requires forall j: nat :: !Frees(bs, base, ptr, j)
    ensures Serve(bs, base, Free(ptr)) == bs
  {
  }

  lemma FreeHits(bs: seq<Block>, base: nat, ptr: nat, b: nat)
    requires Small(bs) && ChainedFrom(bs, 0) && Frees(bs, base, ptr, b)
    ensures Serve(bs, base, Free(ptr)) == FreeAt(bs, b)
  {
    FreePtrIs(bs, base, ptr, b);
  }

  /** Over any sequence of requests the blocks tile the pages, no two free
      blocks touch, the pages in use and the free pages add up to all of them,
      and once nothing is in use everything is one free block again. */
  lemma {:induction false} RunKeeps(n: nat, base: nat, qs: seq<Request>)
    requires 0 < n
    ensures var bs := Run(n, base, qs);
            && Inv(bs, n)
            && PageCount(bs, true) + PageCount(bs, false) == n
            && (PageCount(bs, true) == 0 ==> bs == [Block(0, n, false)])
  {
    if qs == [] {
      PageCountOne(Block(0, n, false), true);
      PageCountOne(Block(0, n, false), false);
    } else {
      var before := qs[..|qs| - 1];
      RunKeeps(n, base, before);
      ServeKeeps(Run(n, base, before), base, n, qs[|qs| - 1]);
    }
    if PageCount(Run(n, base, qs), true) == 0 {
      NothingUsedIsOneBlock(Run(n, base, qs), n);
    }
  }

  /** Freeing what was just allocated gives back the very same blocks. */
  lemma AllocThenFree(bs: seq<Block>, base: nat, n: nat, size: int, s: nat, k: nat)
    requires Inv(bs, n) && n <= MAX_PAGES && size > 0
    requires ShortestRun(UsedPages(bs), PagesFor(size), s, k)
    ensures Serve(Serve(bs, base, Alloc(size)), base, Free(AddrOf(base, s))) == bs
  {
    var m := PagesFor(size);
    var i := RunBestFit(bs, n, m, s, k);
    hide AllocAt, FreeAt, AllocPages, FreePtr, UsedPages, ShortestRun, BestFit, Tiles, Coalesced, AddrOf;
    AllocPagesIs(bs, m, i);
    FreeUndoesAlloc(bs, n, i, m);
    AllocKeeps(bs, n, i, m);
    SmallTiles(AllocAt(bs, i, m), n);
    FreePtrIs(AllocAt(bs, i, m), base, AddrOf(base, s), i);
  }

  lemma FreePtrIs(bs: seq<Block>, base: nat, ptr: nat, b: nat)
    requires Small(bs) && ChainedFrom(bs, 0) && Frees(bs, base, ptr, b)
    ensures FreePtr(bs, base, ptr) == FreeAt(bs, b)
  {
    var i: nat :| Frees(bs, base, ptr, i) && FreePtr(bs, base, ptr) == FreeAt(bs, i);
    FreesUnique(bs, base, ptr, i, b);
  }

  lemma RunBestFit(bs: seq<Block>, total: nat, n: nat, s: nat, k: nat) returns (i: nat)
    requires Inv(bs, total) && n > 0 && ShortestRun(UsedPages(bs), n, s, k)
    ensures BestFit(bs, n, i) && bs[i] == Block(s, k, false)
  {
    MaximalRunsAreFreeBlocks(bs, total, s, k);
    i :| 0 <= i < |bs| && bs[i] == Block(s, k, false);
    forall j | 0 <= j < |bs| && !bs[j].used && bs[j].len >= n
      ensures bs[i].len < bs[j].len || (bs[i].len == bs[j].len && bs[i].start <= bs[j].start)
    {
      FreeBlockIsRun(bs, total, j);
    }
  }

  // ---------- one address for two blocks ----------

  /** Sizes are those of a C int. */
  predicate IntSized(qs: seq<Request>) {
    forall k :: 0 <= k < |qs| && qs[k].Alloc? ==> qs[k].size <= 0x7FFF_FFFF
  }

  /** Some requests lead to two live blocks that vmem_free could take the same
      address for, if and only if there are more than MAX_PAGES pages. */
  lemma AmbiguousIff(base: nat, n: nat)
    requires n > 0
    ensures (exists qs: seq<Request>, ptr: nat, i: nat, j: nat ::
               IntSized(qs) && Ambiguous(Run(n, base, qs), base, ptr, i, j))
       <==> n > MAX_PAGES
  {
    hide Run, Ambiguous;
    if n > MAX_PAGES {
      var qs := AmbiguousRun(base, n);
      assert IntSized(qs) && Ambiguous(Run(n, base, qs), base, AddrOf(base, 0), 0, 2);
    } else {
      forall qs: seq<Request>, ptr: nat, i: nat, j: nat ensures !Ambiguous(Run(n, base, qs), base, ptr, i, j)
      {
        RunKeeps(n, base, qs);
        NotAmbiguous(Run(n, base, qs), base, n, ptr, i, j);
      }
    }
  }

  lemma NotAmbiguous(bs: seq<Block>, base: nat, n: nat, ptr: nat, i: nat, j: nat)
    requires Inv(bs, n) && n <= MAX_PAGES
    ensures !Ambiguous(bs, base, ptr, i, j)
  {
    if Ambiguous(bs, base, ptr, i, j) {
      SmallTiles(bs, n);
      FreesUnique(bs, base, ptr, i, j);
    }
  }

  /** Two allocations of the largest size take the first 4 GiB, and the block
      behind them has the low address bits of the first. */
  lemma AmbiguousRun(base: nat, n: nat) returns (qs: seq<Request>)
    requires n > MAX_PAGES
    ensures IntSized(qs) && Ambiguous(Run(n, base, qs), base, AddrOf(base, 0), 0, 2)
  {
    var one, two := [Alloc(0x7FFF_FFFF)], [Alloc(0x7FFF_FFFF), Alloc(0x7FFF_FFFF)];
    qs := [Alloc(0x7FFF_FFFF), Alloc(0x7FFF_FFFF), Alloc(1)];
    assert Run(n, base, []) == [] + FreeRest(0, n);
    hide Run, FreeRest, AddrOf, PageCount, Serve;
    var a := RunAlloc(n, base, [], one, 0x7FFF_FFFF, [], 0, n);
    var b := RunAlloc(n, base, one, two, 0x7FFF_FFFF, a, MAX_PAGES / 2, n - MAX_PAGES / 2);
    var c := RunAlloc(n, base, two, qs, 1, b, MAX_PAGES, n - MAX_PAGES);
    LowBits(base, 0);
    LowBits(base, MAX_PAGES);
    OneTurn(base);
  }

  /** With the rest of memory in one block, the next request cuts it. */
  lemma RunAlloc(n: nat, base: nat, qs: seq<Request>, qs': seq<Request>, size: int,
                 taken: seq<Block>, start: nat, len: nat)
    returns (taken': seq<Block>)
    requires Run(n, base, qs) == taken + FreeRest(start, len)
    requires |qs'| == |qs| + 1 && qs'[..|qs|] == qs && qs'[|qs|] == Alloc(size)
    requires forall k :: 0 <= k < |taken| ==> taken[k].used
    requires size > 0 && PagesFor(size) <= len
    ensures var k := PagesFor(size);
            && taken' == taken + [Block(start, k, true)]
            && Run(n, base, qs') == taken' + FreeRest(start + k, len - k)
  {
    hide FreeRest;
    taken' := taken + [Block(start, PagesFor(size), true)];
    AllocLast(taken, start, len, base, size);
  }

  /** What is free behind the blocks in use, if anything. */
  ghost function FreeRest(start: nat, len: nat): seq<Block> {
    if len == 0 then [] else [Block(start, len, false)]
  }

  lemma AllocLast(taken: seq<Block>, start: nat, len: nat, base: nat, size: int)
    requires forall k :: 0 <= k < |taken| ==> taken[k].used
    requires size > 0 && PagesFor(size) <= len
    ensures var k := PagesFor(size);
            Serve(taken + FreeRest(start, len), base, Alloc(size))
            == taken + [Block(start, k, true)] + FreeRest(start + k, len - k)
  {
    var k, bs := PagesFor(size), taken + FreeRest(start, len);
    assert bs[..|taken|] == taken && bs[|taken|] == Block(start, len, false);
    assert BestAmong(bs, k, |bs|) == |taken|;
  }
}
