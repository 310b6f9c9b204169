/** The video memory allocator (`video_mm_t` of driver/mm.h, driver/mm.c). */
module VideoMemory {
  import opened Common
  import opened AvlModel
  import opened AvlTree
  import opened PageBlocks
  import opened PageIndex

  /** base_addr: the address rounded up to a page, in 64 bits */
  function ManagedBase(addr: nat): nat {
    var up := (addr + PAGE_SIZE - 1) % U64;
    up - up % PAGE_SIZE
  }

  /** mem_size: `size & ~VMEM_PAGE_SIZE`, which clears one bit only */
  function ManagedSize(size: nat): nat {
    if size / PAGE_SIZE % 2 == 1 then size - PAGE_SIZE else size
  }

  lemma ManagedAligned(addr: nat)
    ensures ManagedBase(addr) % PAGE_SIZE == 0 && ManagedBase(addr) < U64
    ensures addr + PAGE_SIZE <= U64 ==> addr <= ManagedBase(addr) < addr + PAGE_SIZE
  {
  }

  /** An odd last page is left out. */
  lemma ManagedPages(size: nat)
    ensures ManagedSize(size) / PAGE_SIZE == size / (2 * PAGE_SIZE) * 2
  {
    var q, r := size / (2 * PAGE_SIZE), size % (2 * PAGE_SIZE);
    assert size == q * (2 * PAGE_SIZE) + r;
    if r < PAGE_SIZE {
      Quotient(size, 2 * q, r);
    } else {
      Quotient(size, 2 * q + 1, r - PAGE_SIZE);
      Quotient(size - PAGE_SIZE, 2 * q, r - PAGE_SIZE);
    }
  }

  lemma Quotient(x: nat, q: nat, r: nat)
    requires x == q * PAGE_SIZE + r && r < PAGE_SIZE
    ensures x / PAGE_SIZE == q
  {
  }

  /** The pages managed lie inside the memory that vmem_init was given if and
      only if what it leaves out at the end makes up for the alignment. */
  lemma ManagedInside(addr: nat, size: nat)
    requires addr + PAGE_SIZE <= U64
    ensures ManagedBase(addr) + ManagedSize(size) / PAGE_SIZE * PAGE_SIZE <= addr + size
       <==> ManagedBase(addr) - addr <= size % (2 * PAGE_SIZE)
  {
    ManagedPages(size);
    hide ManagedBase, ManagedSize;
    var q := size / (2 * PAGE_SIZE);
    assert size == q * (2 * PAGE_SIZE) + size % (2 * PAGE_SIZE);
  }

  /** avltree_insert, seen through the pairs the tree holds. */
  method InsertPair(tree: AvlNode?, key: nat, page: nat, ghost t: Tree)
    returns (r: AvlNode, ghost t': Tree, ghost id: AvlNode)
    requires HeapTree(tree, t) && Absent(Inorder(t), key)
    modifies Nodes(t)
    ensures HeapTree(r, t')
    ensures Pairs(Inorder(t')) == Pairs(Inorder(t)) + {(key, page)}
    ensures fresh(id) && Nodes(t') == Nodes(t) + {id}
  {
    hide Insert, InsertAt, Sorted, Absent, Inorder, Pairs;
    assert allocated(Nodes(t));
    r, id := AvltreeInsert(tree, key, page, t);
    t' := Insert(t, key, page, id);
    InsertSpec(t, key, page, id);
    InsertNodes(t, key, page, id);
    PairsInsertAt(Inorder(t), LowerBound(Inorder(t), key), Entry(id, key, page));
  }

  /** remove_approx_value, seen through the entries the tree holds. */
  method TakeApprox(tree: AvlNode?, key: nat, ghost t: Tree)
    returns (r: AvlNode?, found: AvlNode?, ghost t': Tree)
    requires HeapTree(tree, t)
    modifies Nodes(t)
    ensures HeapTree(r, t')
    ensures var s := Inorder(t);
            var i := LowerBound(s, key);
            Taken(found, t, t', if i < |s| then Some(s[i]) else None)
  {
    RemoveSpec(t, key, true);
    RemoveNodes(t, key, true);
    r, found := RemoveApproxValue(tree, key, t);
    t' := Remove(t, key, true).0;
    hide Remove, RemoveAt, Inorder, Avl, Distinct;
    if found != null {
      PairsRemoveAt(Inorder(t), LowerBound(Inorder(t), key));
    }
  }

  /** avltree_remove, seen through the entries the tree holds. */
  method TakeExact(tree: AvlNode?, key: nat, ghost t: Tree)
    returns (r: AvlNode?, found: AvlNode?, ghost t': Tree)
    requires HeapTree(tree, t)
    modifies Nodes(t)
    ensures HeapTree(r, t')
    ensures var s := Inorder(t);
            var i := LowerBound(s, key);
            Taken(found, t, t', if i < |s| && s[i].key == key then Some(s[i]) else None)
  {
    RemoveSpec(t, key, false);
    RemoveNodes(t, key, false);
    r, found := AvltreeRemove(tree, key, t);
    t' := Remove(t, key, false).0;
    hide Remove, RemoveAt, Inorder, Avl, Distinct;
    if found != null {
      PairsRemoveAt(Inorder(t), LowerBound(Inorder(t), key));
    }
  }

  /** `found` holds entry `e` and is what `t'` lacks of `t`. */
  ghost predicate Taken(found: AvlNode?, t: Tree, t': Tree, e: Option<Entry>)
    reads found
  {
    match e
    case None => found == null && t' == t
    case Some(e) =>
      && found == e.id && found.key == e.key && found.page == e.page
      && found in Nodes(t) && Nodes(t') == Nodes(t) - {found}
      && Pairs(Inorder(t')) == Pairs(Inorder(t)) - {(e.key, e.page)}
  }

  /** The page loop that set_blocks_free (`used` 0) and set_blocks_alloc (1)
      have in common, with the boundary tags it ends in. */
  method SetTags(pages: array<Page>, pageno: nat, npages: nat, used: int, ghost base: nat)
    requires 0 < npages && pageno + npages <= pages.Length && 0 <= used <= 1
    requires Numbered(pages[..], base)
    modifies pages
    ensures Numbered(pages[..], base)
    ensures forall p :: 0 <= p < pages.Length && !(pageno <= p < pageno + npages) ==>
              pages[p] == old(pages[p])
    ensures Tagged(pages[..], [Block(pageno, npages, used == 1)], base)
  {
    var lastPageno := pageno + npages - 1;
    var i := pageno;
    while i <= lastPageno
      invariant pageno <= i <= lastPageno + 1
      invariant forall p :: 0 <= p < pages.Length && !(pageno <= p < i) ==> pages[p] == old(pages[p])
      invariant forall p :: pageno <= p < i ==>
                  pages[p] == Page(p, AddrOf(base, p), used, 0, -1)
    {
      pages[i] := pages[i].(used := used, allocPages := 0, firstPageno := -1);
      i := i + 1;
    }
    pages[pageno] := pages[pageno].(allocPages := npages);
    pages[lastPageno] := pages[lastPageno].(firstPageno := pageno);
  }

  /** The loop of vmem_init over the page array. */
  method NumberPages(pages: array<Page>, base: nat)
    modifies pages
    ensures Numbered(pages[..], base)
  {
    var i := 0;
    while i < pages.Length
      invariant 0 <= i <= pages.Length
      invariant forall p :: 0 <= p < i ==> pages[p] == Page(p, AddrOf(base, p), 0, 0, -1)
    {
      pages[i] := Page(i, AddrOf(base, i), 0, 0, -1);
      i := i + 1;
    }
  }

  lemma NoTree()
    ensures HeapTree(null, Leaf) && Nodes(Leaf) == {}
    ensures Inorder(Leaf) == [] && Pairs(Inorder(Leaf)) == {}
    ensures forall key :: Absent(Inorder(Leaf), key)
  {
  }

  class VideoMm {
    var freeTree: AvlNode?
    var allocTree: AvlNode?
    var pageList: array<Page>
    var numPages: nat
    var baseAddr: nat
    var memSize: nat
    var freePageCount: int
    var allocPageCount: int

    /** The blocks, the layout of the two trees, and the objects in use. */
    ghost var blocks: seq<Block>
    ghost var freeShape: Tree
    ghost var allocShape: Tree
    ghost var Repr: set<object>

    /** The heap side of the invariant: two separate well-formed trees. */
    ghost predicate Trees()
      reads this, Repr
    {
      && Repr == {this, pageList} + Nodes(freeShape) + Nodes(allocShape)
      && HeapTree(freeTree, freeShape) && HeapTree(allocTree, allocShape)
      && Nodes(freeShape) !! Nodes(allocShape)
    }

    lemma TreesSorted()
      requires Trees()
      ensures Sorted(Inorder(freeShape)) && Sorted(Inorder(allocShape))
    {
    }

    ghost predicate Valid()
      reads this, Repr
    {
      && Trees()
      && pageList.Length == numPages
      && baseAddr % PAGE_SIZE == 0 && baseAddr < U64
      && Represents(pageList[..], Inorder(freeShape), Inorder(allocShape), blocks, baseAddr, numPages)
      && freePageCount == PageCount(blocks, false)
      && allocPageCount == PageCount(blocks, true)
    }

    /** For every page, whether the page array marks it as used. */
    ghost function InUse(): seq<bool>
      reads this, pageList
      requires pageList.Length == numPages
    {
      seq(numPages, p requires 0 <= p < numPages reads this, pageList =>
        p < pageList.Length && pageList[p].used == 1)
    }

    method SetBlocksFree(pageno: nat, npages: nat) returns (ghost id: AvlNode)
      requires 0 < npages && pageno + npages <= numPages == pageList.Length <= MAX_PAGES
      requires Numbered(pageList[..], baseAddr)
      requires HeapTree(freeTree, freeShape)
      requires Absent(Inorder(freeShape), MakeKey(npages, pageno))
      modifies this`freeTree, this`freeShape, pageList, Nodes(freeShape)
      ensures Numbered(pageList[..], baseAddr)
      ensures forall p :: 0 <= p < numPages && !(pageno <= p < pageno + npages) ==>
                pageList[p] == old(pageList[p])
      ensures Tagged(pageList[..], [Block(pageno, npages, false)], baseAddr)
      ensures HeapTree(freeTree, freeShape)
      ensures Pairs(Inorder(freeShape)) == old(Pairs(Inorder(freeShape))) + {(MakeKey(npages, pageno), pageno)}
      ensures fresh(id) && Nodes(freeShape) == old(Nodes(freeShape)) + {id}
    {
      hide Avl, Distinct, Inorder, Pairs;
      assert allocated(Nodes(freeShape));
      SetTags(pageList, pageno, npages, 0, baseAddr);
      freeTree, freeShape, id := InsertPair(freeTree, MakeKey(npages, pageno), pageno, freeShape);
    }

    method SetBlocksAlloc(pageno: nat, npages: nat) returns (ghost id: AvlNode)
      requires 0 < npages && pageno + npages <= numPages == pageList.Length <= MAX_PAGES
      requires Numbered(pageList[..], baseAddr)
      requires HeapTree(allocTree, allocShape)
      requires Absent(Inorder(allocShape), MakeKey(AddrOf(baseAddr, pageno), 0))
      modifies this`allocTree, this`allocShape, pageList, Nodes(allocShape)
      ensures Numbered(pageList[..], baseAddr)
      ensures forall p :: 0 <= p < numPages && !(pageno <= p < pageno + npages) ==>
                pageList[p] == old(pageList[p])
      ensures Tagged(pageList[..], [Block(pageno, npages, true)], baseAddr)
      ensures HeapTree(allocTree, allocShape)
      ensures Pairs(Inorder(allocShape)) ==
              old(Pairs(Inorder(allocShape))) + {(MakeKey(AddrOf(baseAddr, pageno), 0), pageno)}
      ensures fresh(id) && Nodes(allocShape) == old(Nodes(allocShape)) + {id}
    {
      hide Avl, Distinct, Inorder, Pairs;
      assert allocated(Nodes(allocShape));
      SetTags(pageList, pageno, npages, 1, baseAddr);
      allocTree, allocShape, id := InsertPair(allocTree, MakeKey(pageList[pageno].addr, 0), pageno, allocShape);
    }

    /** One free block over all pages. */
    static lemma InitialIndex(pages: seq<Page>, free: seq<Entry>, base: nat, n: nat)
      requires |pages| == n && 0 < n <= MAX_PAGES && Numbered(pages, base)
      requires Tagged(pages, [Block(0, n, false)], base)
      requires Sorted(free) && Pairs(free) == {(MakeKey(n, 0), 0)}
      ensures Represents(pages, free, [], [Block(0, n, false)], base, n)
    {
      IndexOne(Block(0, n, false), base, false);
      IndexOne(Block(0, n, false), base, true);
    }

    /** vmem_init, for sizes that give between 1 and MAX_PAGES pages */
    constructor (addr: nat, size: nat)
      requires addr < U64 && size < U64
      requires 0 < ManagedSize(size) / PAGE_SIZE <= MAX_PAGES
      ensures Valid() && fresh(Repr)
      ensures numPages == size / (2 * PAGE_SIZE) * 2 && baseAddr == ManagedBase(addr)
      ensures baseAddr % PAGE_SIZE == 0 && (addr + PAGE_SIZE <= U64 ==> addr <= baseAddr < addr + PAGE_SIZE)
      ensures blocks == [Block(0, numPages, false)]
    {
      baseAddr := ManagedBase(addr);
      memSize := ManagedSize(size);
      numPages := ManagedSize(size) / PAGE_SIZE;
      pageList := new Page[ManagedSize(size) / PAGE_SIZE];
      freeTree := null;
      allocTree := null;
      freePageCount := ManagedSize(size) / PAGE_SIZE;
      allocPageCount := 0;
      freeShape := Leaf;
      allocShape := Leaf;
      blocks := [Block(0, ManagedSize(size) / PAGE_SIZE, false)];
      new;
      ManagedAligned(addr);
      ManagedPages(size);
      hide Nodes, HeapTree, Inorder, Pairs, PageCount, IndexOf, Represents, Tagged, Numbered, Absent,
           ManagedBase, ManagedSize, MakeKey;
      NoTree();
      NumberPages(pageList, baseAddr);
      ghost var id := SetBlocksFree(0, numPages);
      Repr := {this, pageList, id};
      OneFreeBlock(id);
    }

    /** What vmem_init leaves is valid: one free block in the tree. */
    lemma OneFreeBlock(id: AvlNode)
      requires 0 < numPages == pageList.Length <= MAX_PAGES && baseAddr % PAGE_SIZE == 0 && baseAddr < U64
      requires Repr == {this, pageList, id} && Nodes(freeShape) == {id}
      requires HeapTree(freeTree, freeShape) && allocTree == null && allocShape == Leaf
      requires Numbered(pageList[..], baseAddr) && Tagged(pageList[..], [Block(0, numPages, false)], baseAddr)
      requires Pairs(Inorder(freeShape)) == {(MakeKey(numPages, 0), 0)}
      requires freePageCount == numPages && allocPageCount == 0 && blocks == [Block(0, numPages, false)]
      ensures Valid()
    {
      hide PageCount, IndexOf, Represents, Tagged, Numbered, Pairs, MakeKey;
      NoTree();
      PageCountOne(blocks[0], false);
      PageCountOne(blocks[0], true);
      InitialIndex(pageList[..], Inorder(freeShape), baseAddr, numPages);
    }

    lemma InUseIs()
      requires Valid()
      ensures InUse() == UsedPages(blocks)
    {
      TaggedUsed(pageList[..], blocks, baseAddr, numPages);
    }

    method VmemAlloc(size: int) returns (ptr: nat)
      requires Valid() && size <= 0x7FFF_FFFF
      modifies Repr
      ensures Valid() && fresh(Repr - old(Repr))
      ensures blocks == Serve(old(blocks), baseAddr, Alloc(size))
      ensures ptr == FAIL <==>
              size <= 0 || forall s: nat, k: nat :: FreeRun(old(InUse()), s, k) ==> k * PAGE_SIZE < size
      ensures ptr == FAIL ==> InUse() == old(InUse())
      ensures ptr != FAIL ==> exists s: nat, k: nat ::
                && Granted(old(InUse()), InUse(), size, s, k)
                && ptr == (baseAddr + s * PAGE_SIZE) % U64 && Block(s, k, true) in blocks
      ensures baseAddr == old(baseAddr) && numPages == old(numPages)
    {
      hide Represents, HeapTree, Linked, Inorder, Pairs, IndexOf, Nodes, AllocAt, AllocPages,
           FreeRun, InUse, Granted;
      InUseIs();
      if size <= 0 {
        return FAIL;
      }
      var npages := (size + PAGE_SIZE - 1) / PAGE_SIZE;
      AllocChoice(size);
      var node;
      ghost var free, b;
      node, free, b := FindBlock(npages);
      if node == null {
        InUseIs();
        return FAIL;
      }
      CarvingBlock(free, b);
      var allocPageno := pageList[node.page].pageno;
      Commit(npages, allocPageno, KeyToValue(node.key), free, b);
      InUseIs();
      ptr := pageList[allocPageno].addr;
    }

    /** A grant of `size` bytes: the k pages from `s` on, as few as hold the size,
        at the beginning of the shortest run that has so many, and no others, are
        now in use. */
    static ghost predicate Granted(before: seq<bool>, after: seq<bool>, size: int, s: nat, k: nat) {
      && (k - 1) * PAGE_SIZE < size <= k * PAGE_SIZE
      && (exists run: nat :: ShortestRun(before, k, s, run)) && Changed(before, after, s, s + k, true)
    }

    /** What vmem_alloc has to choose, in terms of the pages in use. */
    lemma AllocChoice(size: int)
      requires Valid() && size > 0
      ensures var npages := PagesFor(size);
              && npages > 0
              && (SomeFits(blocks, npages) <==>
                    exists s: nat, k: nat :: FreeRun(InUse(), s, k) && k * PAGE_SIZE >= size)
              && (!SomeFits(blocks, npages) ==> AllocPages(blocks, npages) == blocks)
              && forall b: nat :: BestFit(blocks, npages, b) ==> Choice(size, b)
    {
      hide AllocPages, FreeRun, InUse, HeapTree;
      var npages := PagesFor(size);
      PagesHold(size);
      InUseIs();
      RunHolds(InUse(), size);
      RunExistsIffFits(blocks, numPages, npages);
      NothingFits(npages);
      forall b: nat | BestFit(blocks, npages, b) ensures Choice(size, b) {
        Chosen(size, b);
      }
    }

    lemma NothingFits(npages: nat)
      requires npages > 0
      ensures !SomeFits(blocks, npages) ==> AllocPages(blocks, npages) == blocks
    {
    }

    /** What taking the best fit `b` means. */
    ghost predicate Choice(size: int, b: nat)
      reads this
      requires size > 0
    {
      var k := PagesFor(size);
      && b < |blocks| && 0 < k <= blocks[b].len
      && AllocPages(blocks, k) == AllocAt(blocks, b, k)
      && var s, after := blocks[b].start, AllocAt(blocks, b, k);
         && Granted(UsedPages(blocks), UsedPages(after), size, s, k)
         && Block(s, k, true) in after && AddrOf(baseAddr, s) != FAIL
    }

    lemma Chosen(size: int, b: nat)
      requires Inv(blocks, numPages) && baseAddr % PAGE_SIZE == 0
      requires size > 0 && BestFit(blocks, PagesFor(size), b)
      ensures Choice(size, b)
    {
      hide UsedPages, Changed, ShortestRun, AllocPages;
      var k := PagesFor(size);
      PagesHold(size);
      BestFitIsShortestRun(blocks, numPages, k, b);
      AllocUses(blocks, numPages, b, k);
      AllocPagesIs(blocks, k, b);
      AddrAligned(baseAddr, blocks[b].start);
      assert AllocAt(blocks, b, k)[b] == Block(blocks[b].start, k, true);
    }

    lemma CarvingBlock(free: seq<Entry>, b: nat)
      requires Carving(free, b)
      ensures blocks[b].End() <= numPages == pageList.Length
      ensures forall p :: 0 <= p < numPages ==> pageList[p].pageno == p
    {
      TaggedNumbered(pageList[..], blocks, baseAddr, numPages);
      InRange(blocks, numPages, b);
      assert forall p :: 0 <= p < numPages ==> pageList[p] == pageList[..][p];
    }

    lemma CarvingFacts(free: seq<Entry>, b: nat, npages: nat)
      requires Carving(free, b) && 0 < npages <= blocks[b].len
      ensures Numbered(pageList[..], baseAddr) && blocks[b].End() <= numPages <= MAX_PAGES
      ensures Absent(Inorder(allocShape), MakeKey(AddrOf(baseAddr, blocks[b].start), 0))
      ensures npages < blocks[b].len ==>
                Absent(Inorder(freeShape), MakeKey(blocks[b].len - npages, blocks[b].start + npages))
      ensures PageCount(AllocAt(blocks, b, npages), true) == allocPageCount + npages
      ensures PageCount(AllocAt(blocks, b, npages), false) == freePageCount - npages
    {
      TaggedNumbered(pageList[..], blocks, baseAddr, numPages);
      InRange(blocks, numPages, b);
      CarveAbsent(free, Inorder(freeShape), Inorder(allocShape), blocks, baseAddr, numPages, b, npages);
      AllocCounts(blocks, b, npages, true);
      AllocCounts(blocks, b, npages, false);
    }

    /** Block `b` is no longer in the free tree, which held `free` before. */
    ghost predicate Carving(free: seq<Entry>, b: nat)
      reads this, Repr
    {
      && Trees()
      && pageList.Length == numPages
      && baseAddr % PAGE_SIZE == 0 && baseAddr < U64
      && Represents(pageList[..], free, Inorder(allocShape), blocks, baseAddr, numPages)
      && b < |blocks| && !blocks[b].used
      && Pairs(Inorder(freeShape)) == Pairs(free) - {PairOf(blocks[b], baseAddr)}
      && freePageCount == PageCount(blocks, false)
      && allocPageCount == PageCount(blocks, true)
    }

    /** Which block the search of the free tree comes up with. */
    lemma SearchFree(npages: nat) returns (b: nat)
      requires Valid() && 0 < npages < U32
      ensures Sorted(Inorder(freeShape))
      ensures var s := Inorder(freeShape);
              var i := LowerBound(s, MakeKey(npages, 0));
              if i < |s| then
                && BestFit(blocks, npages, b) && (s[i].key, s[i].page) == PairOf(blocks[b], baseAddr)
                && s[i].page == blocks[b].start && KeyToValue(s[i].key) == blocks[b].len
              else !SomeFits(blocks, npages)
    {
      b := LeastKeyIsBestFit(Inorder(freeShape), blocks, baseAddr, npages);
      if b < |blocks| {
        InRange(blocks, numPages, b);
        FreeKeyOrder(blocks[b], blocks[b]);
      }
    }

    /** The first half of vmem_alloc: take the best fit out of the free tree. */
    method FindBlock(npages: nat) returns (node: AvlNode?, ghost free: seq<Entry>, ghost b: nat)
      requires Valid() && 0 < npages < U32
      modifies this`freeTree, this`freeShape, this`Repr, Nodes(freeShape)
      ensures Repr <= old(Repr)
      ensures node == null ==> Valid() && !SomeFits(blocks, npages)
      ensures node != null ==>
                && Carving(free, b) && BestFit(blocks, npages, b)
                && node.page == blocks[b].start && KeyToValue(node.key) == blocks[b].len
    {
      hide Represents, HeapTree, Linked, Inorder, Nodes, IndexOf, Pairs, LowerBound, PairOf, PageCount, Sorted;
      free := Inorder(freeShape);
      b := SearchFree(npages);
      assert allocated(Nodes(freeShape)) && allocated(Nodes(allocShape));
      freeTree, node, freeShape := TakeApprox(freeTree, MakeKey(npages, 0), freeShape);
      Repr := {this, pageList} + Nodes(freeShape) + Nodes(allocShape);
    }

    /** The second half of vmem_alloc: put the first pages of the block found
        into use and give the rest of it back. */
    method Commit(npages: nat, allocPageno: nat, freeSize: nat, ghost free: seq<Entry>, ghost b: nat)
      requires Carving(free, b)
      requires blocks[b] == Block(allocPageno, freeSize, false) && 0 < npages <= freeSize
      modifies Repr
      ensures Valid() && fresh(Repr - old(Repr))
      ensures blocks == AllocAt(old(blocks), b, npages)
      ensures pageList == old(pageList) && baseAddr == old(baseAddr) && numPages == old(numPages)
      ensures allocPageno < numPages && pageList[allocPageno].addr == AddrOf(baseAddr, allocPageno)
    {
      hide HeapTree, Linked, Inorder, Nodes, Distinct, Avl, IndexOf, Pairs, PairOf, PageCount,
           Represents, Absent, Tagged, Inv, Sorted, AllocAt, Carved, Numbered;
      ghost var bs, base, n := blocks, baseAddr, numPages;
      ghost var pages, live := pageList[..], Inorder(allocShape);
      CarvingFacts(free, b, npages);
      MarkCarved(npages, allocPageno, freeSize);
      TreesSorted();
      RepresentsAlloc(pages, free, live, pageList[..], Inorder(freeShape), Inorder(allocShape),
                      bs, base, n, b, npages);
      assert pageList[allocPageno].addr == AddrOf(base, allocPageno) by {
        NumberedAt(pageList[..], base, allocPageno);
      }
      allocPageCount := allocPageCount + npages;
      freePageCount := freePageCount - npages;
      blocks := AllocAt(bs, b, npages);
    }

    method MarkCarved(npages: nat, allocPageno: nat, freeSize: nat)
      requires Trees() && pageList.Length == numPages <= MAX_PAGES && Numbered(pageList[..], baseAddr)
      requires 0 < npages <= freeSize && allocPageno + freeSize <= numPages
      requires Absent(Inorder(allocShape), MakeKey(AddrOf(baseAddr, allocPageno), 0))
      requires npages < freeSize ==>
                 Absent(Inorder(freeShape), MakeKey(freeSize - npages, allocPageno + npages))
      modifies this`freeTree, this`freeShape, this`allocTree, this`allocShape, this`Repr, pageList,
               Nodes(freeShape), Nodes(allocShape)
      ensures Trees() && fresh(Repr - old(Repr))
      ensures Numbered(pageList[..], baseAddr)
      ensures forall p :: 0 <= p < numPages && !(allocPageno <= p < allocPageno + freeSize) ==>
                pageList[p] == old(pageList[p])
      ensures Tagged(pageList[..], Carved(Block(allocPageno, freeSize, false), npages), baseAddr)
      ensures Pairs(Inorder(freeShape)) == old(Pairs(Inorder(freeShape))) +
                if npages == freeSize then {}
                else {(MakeKey(freeSize - npages, allocPageno + npages), allocPageno + npages)}
      ensures Pairs(Inorder(allocShape)) == old(Pairs(Inorder(allocShape)))
                + {(MakeKey(AddrOf(baseAddr, allocPageno), 0), allocPageno)}
    {
      hide HeapTree, Linked, Inorder, Nodes, Pairs, Absent;
      assert allocated(Nodes(freeShape)) && allocated(Nodes(allocShape));
      ghost var id1 := SetBlocksAlloc(allocPageno, npages);
      ghost var taken := Block(allocPageno, npages, true);
      assert Tagged(pageList[..], [taken], baseAddr);
      ghost var pages := pageList[..];
      if npages != freeSize {
        var freePageno := allocPageno + npages;
        ghost var id2 := SetBlocksFree(freePageno, freeSize - npages);
      }
      Repr := {this, pageList} + Nodes(freeShape) + Nodes(allocShape);
    }

    /** Block `b` is no longer in the alloc tree, which held `live` before, and
        `gone` is no longer in the free tree, which held `free` before. */
    ghost predicate Freeing(free: seq<Entry>, live: seq<Entry>, gone: set<(nat, nat)>, b: nat)
      reads this, Repr
    {
      && Trees()
      && pageList.Length == numPages
      && baseAddr % PAGE_SIZE == 0 && baseAddr < U64
      && Represents(pageList[..], free, live, blocks, baseAddr, numPages)
      && b < |blocks| && blocks[b].used
      && Pairs(Inorder(freeShape)) == Pairs(free) - gone
      && Pairs(Inorder(allocShape)) == Pairs(live) - {PairOf(blocks[b], baseAddr)}
      && freePageCount == PageCount(blocks, false)
      && allocPageCount == PageCount(blocks, true)
    }

    /** Which block the search of the alloc tree comes up with. */
    lemma SearchLive(ptr: nat) returns (b: nat)
      requires Valid()
      ensures Sorted(Inorder(allocShape)) && Small(blocks)
      ensures var s := Inorder(allocShape);
              var i := LowerBound(s, MakeKey(ptr, 0));
              if i < |s| && s[i].key == MakeKey(ptr, 0) then
                && Frees(blocks, baseAddr, ptr, b)
                && (s[i].key, s[i].page) == PairOf(blocks[b], baseAddr)
                && s[i].page == blocks[b].start
              else forall j: nat :: !Frees(blocks, baseAddr, ptr, j)
    {
      b := LiveKeyFrees(Inorder(allocShape), blocks, baseAddr, ptr);
    }

    method FindLive(ptr: nat)
      returns (found: AvlNode?, ghost free: seq<Entry>, ghost live: seq<Entry>, ghost b: nat)
      requires Valid()
      modifies this`allocTree, this`allocShape, this`Repr, Nodes(allocShape)
      ensures Repr <= old(Repr)
      ensures found == null ==>
                Valid() && allocShape == old(allocShape) && NoLive(ptr)
      ensures found != null ==>
                Freeing(free, live, {}, b) && Frees(blocks, baseAddr, ptr, b) && found.page == blocks[b].start
    {
      hide Represents, HeapTree, Linked, Inorder, Nodes, IndexOf, Pairs, LowerBound, PairOf, PageCount, Sorted, Frees;
      free := Inorder(freeShape);
      live := Inorder(allocShape);
      b := SearchLive(ptr);
      assert allocated(Nodes(freeShape)) && allocated(Nodes(allocShape));
      allocTree, found, allocShape := TakeExact(allocTree, MakeKey(ptr, 0), allocShape);
      Repr := {this, pageList} + Nodes(freeShape) + Nodes(allocShape);
    }

    /** The neighbour search of vmem_free: it finds the free block before and the
        free block after block `b`, where there is one. */
    method FindNeighbours(page: nat, ghost b: nat)
      returns (prevFreePageno: int, prevSize: int, nextFreePageno: int, nextSize: int)
      requires pageList.Length == numPages && Inv(blocks, numPages)
      requires Tagged(pageList[..], blocks, baseAddr)
      requires b < |blocks| && page == blocks[b].start
      ensures if MergeLo(blocks, b) < b then
                prevFreePageno == blocks[b - 1].start && prevSize == blocks[b - 1].len
              else prevSize == -1
      ensures if b < MergeHi(blocks, b) then
                nextFreePageno == blocks[b + 1].start && nextSize == blocks[b + 1].len
              else nextSize == -1
    {
      TagsAround(pageList[..], blocks, baseAddr, numPages, b);
      var pageno := pageList[page].pageno;
      prevFreePageno := pageno - 1;
      prevSize := -1;
      if prevFreePageno >= 0 {
        if pageList[prevFreePageno].used == 0 {
          prevFreePageno := pageList[prevFreePageno].firstPageno;
          prevSize := pageList[prevFreePageno].allocPages;
        }
      }
      nextFreePageno := pageno + pageList[page].allocPages;
      nextFreePageno := if nextFreePageno == numPages then -1 else nextFreePageno;
      nextSize := -1;
      if nextFreePageno >= 0 {
        if pageList[nextFreePageno].used == 0 {
          nextSize := pageList[nextFreePageno].allocPages;
        }
      }
    }

    lemma FreeBlockFacts(free: seq<Entry>, live: seq<Entry>, gone: set<(nat, nat)>, b: nat, k: nat)
      requires Freeing(free, live, gone, b)
      requires k < |blocks| && !blocks[k].used && PairOf(blocks[k], baseAddr) !in gone
      ensures var key := MakeKey(blocks[k].len, blocks[k].start);
              var s := Inorder(freeShape);
              var i := LowerBound(s, key);
              i < |s| && s[i].key == key && s[i].page == blocks[k].start
              && PairOf(blocks[k], baseAddr) == (s[i].key, s[i].page)
      ensures blocks[k].End() <= numPages <= MAX_PAGES
      ensures pageList[blocks[k].start].pageno == blocks[k].start
      ensures pageList[blocks[k].start].allocPages == blocks[k].len > 0
    {
      FreePairPresent(Inorder(freeShape), free, gone, blocks, baseAddr, k);
      TagsAround(pageList[..], blocks, baseAddr, numPages, k);
    }

    /** Take free block `k` out of the free tree: the ASSERT(0) behind the
        search for it is never reached. */
    method TakeNeighbour(size: nat, pageno: nat, ghost free: seq<Entry>, ghost live: seq<Entry>,
                         ghost gone: set<(nat, nat)>, ghost b: nat, ghost k: nat)
      returns (first: int, length: int)
      requires Freeing(free, live, gone, b)
      requires k < |blocks| && blocks[k] == Block(pageno, size, false)
      requires PairOf(blocks[k], baseAddr) !in gone
      modifies this`freeTree, this`freeShape, this`Repr, Nodes(freeShape)
      ensures Repr <= old(Repr)
      ensures Freeing(free, live, gone + {PairOf(blocks[k], baseAddr)}, b)
      ensures first == pageno && length == size
    {
      hide Represents, HeapTree, Linked, Inorder, Nodes, IndexOf, Pairs, LowerBound, PairOf, PageCount, Sorted;
      FreeBlockFacts(free, live, gone, b, k);
      assert allocated(Nodes(freeShape)) && allocated(Nodes(allocShape));
      var found;
      freeTree, found, freeShape := TakeExact(freeTree, MakeKey(size, pageno), freeShape);
      Repr := {this, pageList} + Nodes(freeShape) + Nodes(allocShape);
      if found == null {
        assert false;
      }
      first := pageList[found.page].pageno;
      length := pageList[found.page].allocPages;
    }

    method VmemFree(ptr: nat) returns (r: int)
      requires Valid()
      modifies Repr
      ensures Valid() && fresh(Repr - old(Repr))
      ensures r == 0 || r == -1
      ensures r == 0 <==> exists s: nat, k: nat :: Answers(old(blocks), baseAddr, ptr, s, k)
      ensures r == 0 ==> exists s: nat, k: nat ::
                Answers(old(blocks), baseAddr, ptr, s, k) && Changed(old(InUse()), InUse(), s, s + k, false)
      ensures r == -1 ==> InUse() == old(InUse())
      ensures blocks == Serve(old(blocks), baseAddr, Free(ptr))
      ensures r == -1 ==> pageList[..] == old(pageList[..])
                          && allocShape == old(allocShape) && freeShape == old(freeShape)
      ensures baseAddr == old(baseAddr) && numPages == old(numPages) && pageList == old(pageList)
    {
      hide Represents, HeapTree, Linked, Frees, Serve, FreeAt, Inorder, Nodes, Pairs, Inv, Small, NoLive,
           Answers, Changed, InUse;
      InUseIs();
      ghost var bs := blocks;
      var found;
      ghost var free, live, b;
      found, free, live, b := FindLive(ptr);
      if found == null {
        NothingToFree(ptr);
        InUseIs();
        return -1;
      }
      SomethingToFree(ptr, free, live, b);
      GiveBack(found.page, free, live, b);
      InUseIs();
      r := 0;
    }

    /** The live block of k pages from `s` on is one that vmem_free takes `ptr`
        for: the low 32 bits of its address are those of `ptr`. */
    static ghost predicate Answers(bs: seq<Block>, base: nat, ptr: nat, s: nat, k: nat) {
      Block(s, k, true) in bs && (base + s * PAGE_SIZE) % U32 == ptr % U32
    }

    ghost predicate NoLive(ptr: nat)
      reads this
    {
      forall j: nat :: !Frees(blocks, baseAddr, ptr, j)
    }

    lemma NothingToFree(ptr: nat)
      requires NoLive(ptr)
      ensures Serve(blocks, baseAddr, Free(ptr)) == blocks
      ensures !exists s: nat, k: nat :: Answers(blocks, baseAddr, ptr, s, k)
    {
      FreeMisses(blocks, baseAddr, ptr);
      forall s: nat, k: nat ensures !Answers(blocks, baseAddr, ptr, s, k) {
        if Answers(blocks, baseAddr, ptr, s, k) {
          var i: nat :| i < |blocks| && blocks[i] == Block(s, k, true);
          LowBits(baseAddr, s);
          assert Frees(blocks, baseAddr, ptr, i);
        }
      }
    }

    lemma SomethingToFree(ptr: nat, free: seq<Entry>, live: seq<Entry>, b: nat)
      requires Freeing(free, live, {}, b) && Frees(blocks, baseAddr, ptr, b)
      ensures Serve(blocks, baseAddr, Free(ptr)) == FreeAt(blocks, b) && blocks[b].used
      ensures Answers(blocks, baseAddr, ptr, blocks[b].start, blocks[b].len)
      ensures Changed(UsedPages(blocks), UsedPages(FreeAt(blocks, b)), blocks[b].start, blocks[b].End(), false)
    {
      hide UsedPages, Changed, FreeAt;
      FreeUnuses(blocks, numPages, b);
      FreeHits(blocks, baseAddr, ptr, b);
      LowBits(baseAddr, blocks[b].start);
      assert blocks[b] == Block(blocks[b].start, blocks[b].len, true);
    }

    lemma FreeingFacts(free: seq<Entry>, live: seq<Entry>, b: nat)
      requires Freeing(free, live, {}, b)
      ensures Inv(blocks, numPages) && Tagged(pageList[..], blocks, baseAddr) && Small(blocks)
      ensures numPages <= MAX_PAGES && blocks[b].End() <= numPages
      ensures pageList[blocks[b].start].pageno == blocks[b].start
      ensures pageList[blocks[b].start].allocPages == blocks[b].len > 0
      ensures 0 < b && b + 1 < |blocks| ==>
                PairOf(blocks[b - 1], baseAddr) != PairOf(blocks[b + 1], baseAddr)
      ensures PageCount(FreeAt(blocks, b), true) == allocPageCount - blocks[b].len
      ensures PageCount(FreeAt(blocks, b), false) == freePageCount + blocks[b].len
    {
      TagsAround(pageList[..], blocks, baseAddr, numPages, b);
      FreeCounts(blocks, b, true);
      FreeCounts(blocks, b, false);
      if 0 < b && b + 1 < |blocks| {
        Ordered(blocks, 0, b - 1, b + 1);
      }
    }

    /** vmem_free once the live block is found: merge it with its free
        neighbours. */
    method GiveBack(page: nat, ghost free: seq<Entry>, ghost live: seq<Entry>, ghost b: nat)
      requires Freeing(free, live, {}, b) && page == blocks[b].start
      modifies Repr
      ensures Valid() && fresh(Repr - old(Repr))
      ensures blocks == FreeAt(old(blocks), b)
      ensures baseAddr == old(baseAddr) && numPages == old(numPages) && pageList == old(pageList)
    {
      hide HeapTree, Linked, Inorder, Nodes, Distinct, Avl, IndexOf, Pairs, PairOf, PageCount,
           Represents, Tagged, Inv, Sorted, FreeAt, Numbered, Absent;
      FreeingFacts(free, live, b);
      var freePageSize := pageList[page].allocPages;
      var mergePageNo, mergePageSize := TakeNeighbours(page, free, live, b);
      MergeBlock(page, mergePageNo, mergePageSize, free, live, b);
      allocPageCount := allocPageCount - freePageSize;
      freePageCount := freePageCount + freePageSize;
    }

    /** Find the free neighbours and take them out of the free tree. */
    method TakeNeighbours(page: nat, ghost free: seq<Entry>, ghost live: seq<Entry>, ghost b: nat)
      returns (mergePageNo: int, mergePageSize: int)
      requires Freeing(free, live, {}, b) && page == blocks[b].start
      modifies this`freeTree, this`freeShape, this`Repr, Nodes(freeShape)
      ensures Repr <= old(Repr)
      ensures Freeing(free, live, NeighbourPairs(blocks, baseAddr, b), b)
      ensures mergePageNo == Merged(blocks, b).start && mergePageSize == Merged(blocks, b).len
    {
      hide HeapTree, Linked, Inorder, Nodes, Distinct, Avl, IndexOf, Pairs, PairOf, PageCount,
           Represents, Tagged, Inv, Sorted, FreeAt, Numbered, Absent;
      ghost var bs, base := blocks, baseAddr;
      FreeingFacts(free, live, b);
      var prevFreePageno, prevSize, nextFreePageno, nextSize := FindNeighbours(page, b);
      mergePageNo := pageList[page].pageno;
      mergePageSize := pageList[page].allocPages;
      ghost var gone: set<(nat, nat)> := {};
      if prevSize >= 0 {
        var first, length := TakeNeighbour(prevSize, prevFreePageno, free, live, gone, b, b - 1);
        gone := gone + {PairOf(bs[b - 1], base)};
        mergePageNo := first;
        mergePageSize := mergePageSize + length;
      }
      if nextSize >= 0 {
        var _, length := TakeNeighbour(nextSize, nextFreePageno, free, live, gone, b, b + 1);
        gone := gone + {PairOf(bs[b + 1], base)};
        mergePageSize := mergePageSize + length;
      }
    }

    /** The last step of vmem_free: retag the merged run and put it into the
        free tree. */
    method MergeBlock(page: nat, mergePageNo: int, mergePageSize: int,
                      ghost free: seq<Entry>, ghost live: seq<Entry>, ghost b: nat)
      requires Small(blocks) && b < |blocks|
      requires Freeing(free, live, NeighbourPairs(blocks, baseAddr, b), b) && page == blocks[b].start
      requires mergePageNo == Merged(blocks, b).start && mergePageSize == Merged(blocks, b).len
      modifies this`freeTree, this`freeShape, this`Repr, this`blocks, pageList, Nodes(freeShape)
      ensures Trees() && fresh(Repr - old(Repr))
      ensures blocks == FreeAt(old(blocks), b)
      ensures Represents(pageList[..], Inorder(freeShape), Inorder(allocShape), blocks, baseAddr, numPages)
    {
      hide HeapTree, Linked, Inorder, Nodes, Distinct, Avl, IndexOf, Pairs, PairOf, PageCount,
           Represents, Tagged, Inv, Sorted, Merged, MergeLo, MergeHi, FreeAt, Absent, Numbered, NeighbourPairs;
      ghost var pages := pageList[..];
      MergeFacts(free, live, b);
      ghost var m := Merged(blocks, b);
      pageList[page] := pageList[page].(allocPages := 0, firstPageno := -1);
      assert Numbered(pageList[..], baseAddr) by {
        NumberedUpdate(pages, baseAddr, page, pageList[page]);
        assert pageList[..] == pages[page := pageList[page]];
      }
      assert allocated(Nodes(freeShape)) && allocated(Nodes(allocShape));
      ghost var id := SetBlocksFree(mergePageNo, mergePageSize);
      Repr := {this, pageList} + Nodes(freeShape) + Nodes(allocShape);
      TreesSorted();
      RepresentsFree(pages, free, live, pageList[..], Inorder(freeShape), Inorder(allocShape),
                     blocks, baseAddr, numPages, b);
      blocks := FreeAt(blocks, b);
    }

    lemma MergeFacts(free: seq<Entry>, live: seq<Entry>, b: nat)
      requires Small(blocks) && b < |blocks|
      requires Freeing(free, live, NeighbourPairs(blocks, baseAddr, b), b)
      ensures Numbered(pageList[..], baseAddr) && numPages <= MAX_PAGES
      ensures var m := Merged(blocks, b);
              && 0 < m.len && m.End() <= numPages && m.start < MAX_PAGES
              && m.Holds(blocks[b].start) && !m.used
              && Absent(Inorder(freeShape), MakeKey(m.len, m.start))
              && PairOf(m, baseAddr) == (MakeKey(m.len, m.start), m.start)
    {
      TaggedNumbered(pageList[..], blocks, baseAddr, numPages);
      MergedAbsent(free, Inorder(freeShape), blocks, baseAddr, numPages, b);
    }
  }

  /** The boundary tags at and around block `b`. */
  lemma TagsAround(pages: seq<Page>, bs: seq<Block>, base: nat, n: nat, b: nat)
    requires Inv(bs, n) && Tagged(pages, bs, base) && |pages| == n && b < |bs|
    ensures bs[b].End() <= n && pages[bs[b].start].pageno == bs[b].start
    ensures pages[bs[b].start].allocPages == bs[b].len > 0
    ensures b == 0 <==> bs[b].start == 0
    ensures b > 0 ==>
              && bs[b - 1].End() == bs[b].start
              && pages[bs[b].start - 1].used == (if bs[b - 1].used then 1 else 0)
              && pages[bs[b].start - 1].firstPageno == bs[b - 1].start
              && pages[bs[b - 1].start].allocPages == bs[b - 1].len
    ensures b + 1 == |bs| <==> bs[b].End() == n
    ensures b + 1 < |bs| ==>
              && bs[b + 1].start == bs[b].End()
              && pages[bs[b].End()].used == (if bs[b + 1].used then 1 else 0)
              && pages[bs[b].End()].allocPages == bs[b + 1].len
  {
    InRange(bs, n, b);
    assert bs[b].Holds(bs[b].start);
    if b > 0 {
      assert bs[b - 1].Holds(bs[b - 1].start) && bs[b - 1].Holds(bs[b].start - 1);
    }
    if b + 1 < |bs| {
      assert bs[b + 1].Holds(bs[b].End());
    }
  }

  /** The keys that vmem_alloc is about to insert are not in the trees yet. */
  lemma CarveAbsent(free: seq<Entry>, free': seq<Entry>, live: seq<Entry>, bs: seq<Block>,
                    base: nat, total: nat, b: nat, n: nat)
    requires Inv(bs, total) && total <= MAX_PAGES && Small(bs)
    requires Pairs(free') <= Pairs(free) == IndexOf(bs, base, false)
    requires Pairs(live) == IndexOf(bs, base, true)
    requires b < |bs| && !bs[b].used && 0 < n <= bs[b].len
    ensures Absent(live, MakeKey(AddrOf(base, bs[b].start), 0))
    ensures n < bs[b].len ==> Absent(free', MakeKey(bs[b].len - n, bs[b].start + n))
  {
    InRange(bs, total, b);
    forall i | 0 <= i < |bs| && bs[i].start == bs[b].start ensures i == b {
      SameStart(bs, 0, i, b);
    }
    StartAbsent(live, bs, base, true, Block(bs[b].start, n, true));
    if n < bs[b].len {
      forall i | 0 <= i < |bs| ensures bs[i].start != bs[b].start + n {
        if i < b { Ordered(bs, 0, i, b); }
        if b < i { Ordered(bs, 0, b, i); }
      }
      StartAbsent(free', bs, base, false, Block(bs[b].start + n, bs[b].len - n, false));
    }
  }
}
