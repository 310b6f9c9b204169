/** The AVL tree code of driver/mm.c on the heap.

    `Linked(p, t)` says that the nodes reachable from `p` are laid out exactly
    as the value `t` records.  Every method turns a heap tree `Linked` to `t`
    into one `Linked` to the value that the function of module AvlModel computes
    from `t`, rewriting only the nodes of `t`. */
module AvlTree {
  import opened AvlModel

  ghost predicate Linked(p: AvlNode?, t: Tree)
    reads Nodes(t)
  {
    match t
    case Leaf => p == null
    case Node(id, key, page, height, l, r) =>
      p == id && id.key == key && id.page == page && id.height == height &&
      Linked(id.left, l) && Linked(id.right, r)
  }

  /** A well-formed heap tree: laid out as `t`, without sharing, balanced and
      in key order. */
  ghost predicate HeapTree(p: AvlNode?, t: Tree)
    reads Nodes(t)
  {
    Linked(p, t) && Distinct(t) && Avl(t) && Sorted(Inorder(t))
  }

  /** HEIGHT */
  function HeightOf(tree: AvlNode?): int
    reads tree
  {
    if tree == null then -1 else tree.height
  }

  function BalanceFactorOf(tree: AvlNode?): int
    reads tree
    reads if tree == null then {} else {tree.left, tree.right}
  {
    if tree == null then 0 else HeightOf(tree.right) - HeightOf(tree.left)
  }

  /** The root pointer of a linked tree and its cached height. */
  lemma LinkedRoot(p: AvlNode?, t: Tree)
    requires Linked(p, t)
    ensures t.Leaf? <==> p == null
    ensures t.Node? ==> p == t.id && p in Nodes(t)
    ensures HeightOf(p) == Height(t)
  {
  }

  lemma LinkedNull()
    ensures Linked(null, Leaf)
  {
  }

  lemma LinkedNode(p: AvlNode, t: Tree)
    ensures Linked(p, t) <==>
              && t.Node? && p == t.id && p.key == t.key && p.page == t.page && p.height == t.height
              && Linked(p.left, t.left) && Linked(p.right, t.right)
  {
  }

  lemma LinkedFactor(p: AvlNode?, t: Tree)
    requires Linked(p, t)
    ensures BalanceFactorOf(p) == Factor(t)
  {
    if p != null {
      LinkedRoot(p.left, t.left);
      LinkedRoot(p.right, t.right);
    }
  }

  method RotationLeftOf(tree: AvlNode?, ghost t: Tree) returns (r: AvlNode?)
    requires Linked(tree, t) && Distinct(t)
    modifies Nodes(t)
    ensures Linked(r, RotationLeft(t))
  {
    if tree == null {
      return null;
    }
    var rchild := tree.right;
    if rchild == null {
      return tree;
    }
    var lchild := rchild.left;
    LinkedRoot(tree.left, t.left);
    LinkedRoot(lchild, t.right.left);
    LinkedRoot(rchild.right, t.right.right);
    rchild.left := tree;
    tree.right := lchild;
    tree.height := Max(HeightOf(tree.left), HeightOf(tree.right)) + 1;
    rchild.height := Max(HeightOf(rchild.left), HeightOf(rchild.right)) + 1;
    assert Linked(tree, Refresh(t.(right := t.right.left)));
    r := rchild;
  }

  method RotationRightOf(tree: AvlNode?, ghost t: Tree) returns (r: AvlNode?)
    requires Linked(tree, t) && Distinct(t)
    modifies Nodes(t)
    ensures Linked(r, RotationRight(t))
  {
    if tree == null {
      return null;
    }
    var lchild := tree.left;
    if lchild == null {
      return null;
    }
    var rchild := lchild.right;
    LinkedRoot(tree.right, t.right);
    LinkedRoot(rchild, t.left.right);
    LinkedRoot(lchild.left, t.left.left);
    lchild.right := tree;
    tree.left := rchild;
    tree.height := Max(HeightOf(tree.left), HeightOf(tree.right)) + 1;
    lchild.height := Max(HeightOf(lchild.left), HeightOf(lchild.right)) + 1;
    assert Linked(tree, Refresh(t.(left := t.left.right)));
    r := lchild;
  }

  /** do_balance: the ASSERT(0) branches are never taken. */
  method DoBalanceOf(tree: AvlNode?, ghost t: Tree) returns (r: AvlNode?)
    requires Linked(tree, t) && Distinct(t) && NearlyAvl(t)
    modifies Nodes(t)
    ensures Linked(r, DoBalance(t))
  {
    LinkedFactor(tree, t);
    var bfactor := BalanceFactorOf(tree);
    if bfactor >= 2 {
      DoBalanceRestores(t);
      LinkedFactor(tree.right, t.right);
      var childBfactor := BalanceFactorOf(tree.right);
      if childBfactor == 1 || childBfactor == 0 {
        r := RotationLeftOf(tree, t);
      } else if childBfactor == -1 {
        r := DoubleRotationLeft(tree, t);
      } else {
        assert false;
      }
    } else if bfactor <= -2 {
      DoBalanceRestores(t);
      LinkedFactor(tree.left, t.left);
      var childBfactor := BalanceFactorOf(tree.left);
      if childBfactor == -1 || childBfactor == 0 {
        r := RotationRightOf(tree, t);
      } else if childBfactor == 1 {
        r := DoubleRotationRight(tree, t);
      } else {
        assert false;
      }
    } else {
      r := tree;
    }
  }

  method DoubleRotationLeft(tree: AvlNode, ghost t: Tree) returns (r: AvlNode?)
    requires Linked(tree, t) && Distinct(t) && t.right.Node? && t.right.left.Node?
    modifies Nodes(t)
    ensures Linked(r, RotationLeft(t.(right := RotationRight(t.right))))
  {
    ghost var u := RotationRight(t.right);
    RotationRightInorder(t.right);
    SameEntries(t.right, u);
    assert allocated(Nodes(t.left));
    tree.right := RotationRightOf(tree.right, t.right);
    r := RotationLeftOf(tree, t.(right := u));
  }

  method DoubleRotationRight(tree: AvlNode, ghost t: Tree) returns (r: AvlNode?)
    requires Linked(tree, t) && Distinct(t) && t.left.Node? && t.left.right.Node?
    modifies Nodes(t)
    ensures Linked(r, RotationRight(t.(left := RotationLeft(t.left))))
  {
    ghost var u := RotationLeft(t.left);
    RotationLeftInorder(t.left);
    SameEntries(t.left, u);
    assert allocated(Nodes(t.right));
    tree.left := RotationLeftOf(tree.left, t.left);
    r := RotationRightOf(tree, t.(left := u));
  }

  /** The LEFT recursion of unlink_end_node, up to the rebalancing. */
  method CutLeftOf(tree: AvlNode, ghost t: Tree) returns (found: AvlNode?)
    requires Linked(tree, t) && Distinct(t) && Avl(t) && t.left.Node?
    modifies Nodes(t)
    ensures Linked(tree, CutLeft(t).0) && Linked(found, CutLeft(t).1)
    decreases t, 0
  {
    assert Avl(t.left);
    hide DoBalance, Avl, Inorder;
    UnlinkNodes(t.left, LEFT);
    assert allocated(Nodes(t.right));
    ghost var (below, f) := UnlinkEndNode(t.left, LEFT);
    hide UnlinkEndNode;
    tree.left, found := UnlinkEndNodeOf(tree.left, LEFT, t.left);
    SpliceLeft(tree, found, t, below, f);
  }

  method SpliceLeft(tree: AvlNode, found: AvlNode, ghost t: Tree, ghost below: Tree, ghost f: Tree)
    requires t.Node? && tree == t.id && tree.key == t.key && tree.page == t.page
    requires Linked(tree.left, below) && Linked(found, f) && Linked(tree.right, t.right)
    requires Distinct(t) && Distinct(f) && f.Node?
    requires Nodes(below) <= Nodes(t.left) && Nodes(f) <= Nodes(t.left)
    requires below.Node? ==> f.id !in Nodes(below) && f.left.Leaf? && f.right.Leaf?
    modifies tree, found
    ensures Linked(tree, Refresh(t.(left := if below.Leaf? then f.right else below)))
    ensures Linked(found, f.(left := Leaf, right := Leaf))
  {
    hide Inorder;
    LinkedRoot(tree.right, t.right);
    if tree.left == null {
      LinkedRoot(found.right, f.right);
      tree.left := found.right;
      found.left := null;
      found.right := null;
    } else {
      LinkedRoot(tree.left, below);
    }
    tree.height := Max(HeightOf(tree.left), HeightOf(tree.right)) + 1;
  }

  /** The RIGHT recursion of unlink_end_node, up to the rebalancing. */
  method CutRightOf(tree: AvlNode, ghost t: Tree) returns (found: AvlNode?)
    requires Linked(tree, t) && Distinct(t) && Avl(t) && t.right.Node?
    modifies Nodes(t)
    ensures Linked(tree, CutRight(t).0) && Linked(found, CutRight(t).1)
    decreases t, 0
  {
    assert Avl(t.right);
    hide DoBalance, Avl, Inorder;
    UnlinkNodes(t.right, RIGHT);
    assert allocated(Nodes(t.left));
    ghost var (below, f) := UnlinkEndNode(t.right, RIGHT);
    hide UnlinkEndNode;
    tree.right, found := UnlinkEndNodeOf(tree.right, RIGHT, t.right);
    SpliceRight(tree, found, t, below, f);
  }

  method SpliceRight(tree: AvlNode, found: AvlNode, ghost t: Tree, ghost below: Tree, ghost f: Tree)
    requires t.Node? && tree == t.id && tree.key == t.key && tree.page == t.page
    requires Linked(tree.right, below) && Linked(found, f) && Linked(tree.left, t.left)
    requires Distinct(t) && Distinct(f) && f.Node?
    requires Nodes(below) <= Nodes(t.right) && Nodes(f) <= Nodes(t.right)
    requires below.Node? ==> f.id !in Nodes(below) && f.left.Leaf? && f.right.Leaf?
    modifies tree, found
    ensures Linked(tree, Refresh(t.(right := if below.Leaf? then f.left else below)))
    ensures Linked(found, f.(left := Leaf, right := Leaf))
  {
    hide Inorder;
    LinkedRoot(tree.left, t.left);
    if tree.right == null {
      LinkedRoot(found.left, f.left);
      tree.right := found.left;
      found.left := null;
      found.right := null;
    } else {
      LinkedRoot(tree.right, below);
    }
    tree.height := Max(HeightOf(tree.left), HeightOf(tree.right)) + 1;
  }

  method UnlinkEndNodeOf(tree: AvlNode?, dir: Direction, ghost t: Tree)
    returns (r: AvlNode?, found: AvlNode?)
    requires Linked(tree, t) && Distinct(t) && Avl(t)
    modifies Nodes(t)
    ensures var (rest, f) := UnlinkEndNode(t, dir); Linked(r, rest) && Linked(found, f)
    decreases t, 1
  {
    found := null;
    if tree == null {
      return null, null;
    }
    if dir == LEFT {
      if tree.left == null {
        return null, tree;
      }
    } else {
      if tree.right == null {
        return null, tree;
      }
    }
    hide DoBalance, UnlinkEndNode, CutLeft, CutRight, Inorder, Avl;
    if dir == LEFT {
      CutLeftSpec(t);
      found := CutLeftOf(tree, t);
      r := DoBalanceOf(tree, CutLeft(t).0);
    } else {
      CutRightSpec(t);
      found := CutRightOf(tree, t);
      r := DoBalanceOf(tree, CutRight(t).0);
    }
  }

  method DoUnlinkOf(tree: AvlNode, ghost t: Tree) returns (r: AvlNode?)
    requires Linked(tree, t) && Distinct(t) && Avl(t)
    modifies Nodes(t)
    ensures Linked(r, DoUnlink(t))
    ensures tree.key == t.key && tree.page == t.page
  {
    hide DoBalance, UnlinkEndNode, DoUnlink, Heir, Inorder;
    HeirSpec(t);
    ghost var (e, left, right) := Heir(t);
    var endNode := PromoteHeir(tree, t);
    if endNode != null {
      LinkedRoot(if tree.left != endNode then tree.left else endNode.left, left);
      LinkedRoot(if tree.right != endNode then tree.right else endNode.right, right);
      endNode.left := if tree.left != endNode then tree.left else endNode.left;
      endNode.right := if tree.right != endNode then tree.right else endNode.right;
      endNode.height := Max(HeightOf(endNode.left), HeightOf(endNode.right)) + 1;
    }
    r := endNode;
  }

  /** `endNode` carries the entry of `e`, and the children it is to get are laid
      out as `left` and `right`. */
  ghost predicate Promoted(tree: AvlNode, endNode: AvlNode?, e: Tree, left: Tree, right: Tree)
    reads tree, Nodes(e), Nodes(left), Nodes(right)
    reads if endNode == null then {} else {endNode}
  {
    && (endNode == null <==> e.Leaf?)
    && (e.Node? ==>
          && endNode == e.id && endNode.key == e.key && endNode.page == e.page
          && Linked(if tree.left != endNode then tree.left else endNode.left, left)
          && Linked(if tree.right != endNode then tree.right else endNode.right, right))
  }

  lemma IsPromoted(tree: AvlNode, endNode: AvlNode, e: Tree, left: Tree, right: Tree)
    requires e.Node? && endNode == e.id && endNode.key == e.key && endNode.page == e.page
    requires tree.left != endNode && tree.right != endNode
    requires Linked(tree.left, left) && Linked(tree.right, right)
    ensures Promoted(tree, endNode, e, left, right)
  {
  }

  /** The first half of do_unlink: cut out the node that is to be promoted. */
  method PromoteHeir(tree: AvlNode, ghost t: Tree) returns (endNode: AvlNode?)
    requires Linked(tree, t) && Distinct(t) && Avl(t)
    modifies Nodes(t)
    ensures tree.key == t.key && tree.page == t.page
    ensures var (e, left, right) := Heir(t); Promoted(tree, endNode, e, left, right)
  {
    hide DoBalance, UnlinkEndNode, Inorder, Avl, Distinct, Promoted;
    HeirUnlinks(t);
    var node;
    node, endNode := PromoteSuccessor(tree, t);
    if node == null {
      node, endNode := PromotePredecessor(tree, t);
    }
    if node == null {
      node := if tree.right != null then tree.right else tree.left;
      endNode := node;
      PromoteChild(tree, t);
    }
    ghost var right, left := UnlinkEndNode(t.right, LEFT).0, UnlinkEndNode(t.left, RIGHT).0;
    assert right.Node? || left.Node? || node == endNode;
  }

  method PromoteSuccessor(tree: AvlNode, ghost t: Tree) returns (node: AvlNode?, endNode: AvlNode?)
    requires Linked(tree, t) && Distinct(t) && Avl(t)
    modifies Nodes(t)
    ensures tree.key == t.key && tree.page == t.page
    ensures var (right, successor) := UnlinkEndNode(t.right, LEFT);
            && (node == null <==> right.Leaf?)
            && if right.Leaf? then Linked(tree, t) else Promoted(tree, endNode, successor, t.left, right)
  {
    assert Avl(t.right) && Distinct(t.right) && tree in Nodes(t);
    assert Nodes(t.left) <= Nodes(t) && Nodes(t.right) <= Nodes(t);
    assert tree !in Nodes(t.left) && tree !in Nodes(t.right) && Nodes(t.left) !! Nodes(t.right);
    HeirUnlinks(t);
    hide DoBalance, UnlinkEndNode, Inorder, Avl, Linked, Nodes, Distinct, Promoted;
    assert allocated(Nodes(t.left));
    ghost var (right, successor) := UnlinkEndNode(t.right, LEFT);
    LinkedNode(tree, t);
    LinkedRoot(tree.left, t.left);
    LinkedRoot(tree.right, t.right);
    node, endNode := UnlinkEndNodeOf(tree.right, LEFT, t.right);
    LinkedRoot(node, right);
    LinkedRoot(endNode, successor);
    if node != null {
      LinkedNode(endNode, successor);
      tree.right := node;
      IsPromoted(tree, endNode, successor, t.left, right);
    } else {
      LinkedNull();
      LinkedNode(tree, t);
    }
  }

  method PromotePredecessor(tree: AvlNode, ghost t: Tree) returns (node: AvlNode?, endNode: AvlNode?)
    requires Linked(tree, t) && Distinct(t) && Avl(t)
    modifies Nodes(t)
    ensures tree.key == t.key && tree.page == t.page
    ensures var (left, predecessor) := UnlinkEndNode(t.left, RIGHT);
            && (node == null <==> left.Leaf?)
            && if left.Leaf? then Linked(tree, t) else Promoted(tree, endNode, predecessor, left, t.right)
  {
    assert Avl(t.left) && Distinct(t.left) && tree in Nodes(t);
    assert Nodes(t.left) <= Nodes(t) && Nodes(t.right) <= Nodes(t);
    assert tree !in Nodes(t.left) && tree !in Nodes(t.right) && Nodes(t.left) !! Nodes(t.right);
    HeirUnlinks(t);
    hide DoBalance, UnlinkEndNode, Inorder, Avl, Linked, Nodes, Distinct, Promoted;
    assert allocated(Nodes(t.right));
    ghost var (left, predecessor) := UnlinkEndNode(t.left, RIGHT);
    LinkedNode(tree, t);
    LinkedRoot(tree.left, t.left);
    LinkedRoot(tree.right, t.right);
    node, endNode := UnlinkEndNodeOf(tree.left, RIGHT, t.left);
    LinkedRoot(node, left);
    LinkedRoot(endNode, predecessor);
    if node != null {
      LinkedNode(endNode, predecessor);
      tree.left := node;
      IsPromoted(tree, endNode, predecessor, left, t.right);
    } else {
      LinkedNull();
      LinkedNode(tree, t);
    }
  }

  /** With neither at hand a child of the node itself is promoted. */
  lemma PromoteChild(tree: AvlNode, t: Tree)
    requires Linked(tree, t) && Distinct(t) && Avl(t)
    requires UnlinkEndNode(t.right, LEFT).0.Leaf? && UnlinkEndNode(t.left, RIGHT).0.Leaf?
    ensures var (e, left, right) := Heir(t);
            Promoted(tree, if tree.right != null then tree.right else tree.left, e, left, right)
  {
    HeirUnlinks(t);
    hide DoBalance, UnlinkEndNode, Inorder, Avl;
  }

  method AvltreeInsert(tree: AvlNode?, key: nat, page: nat, ghost t: Tree)
    returns (r: AvlNode, ghost id: AvlNode)
    requires HeapTree(tree, t) && Absent(Inorder(t), key)
    modifies Nodes(t)
    ensures fresh(id)
    ensures Linked(r, Insert(t, key, page, id))
    decreases t, 2
  {
    hide DoBalance, Inorder, Avl;
    if tree == null {
      r := new AvlNode(key, page);
      id := r;
      return;
    }
    assert allocated(Nodes(t));
    id := InsertBelowOf(tree, key, page, t);
    InsertBelowSpec(t, key, page, id);
    InsertUnfolds(t, key, page, id);
    ghost var u := InsertBelow(t, key, page, id);
    hide InsertBelow, Insert, Linked, NearlyAvl, Distinct;
    r := BalanceInserted(tree, u);
  }

  /** The end of avltree_insert: do_balance, then the height. */
  method BalanceInserted(tree: AvlNode, ghost u: Tree) returns (r: AvlNode)
    requires u.Node? && Linked(tree, u) && Distinct(u) && NearlyAvl(u)
    modifies Nodes(u)
    ensures Linked(r, Refresh(DoBalance(u)))
  {
    hide DoBalance;
    DoBalanceNodes(u);
    r := DoBalanceOf(tree, u);
    ghost var b := DoBalance(u);
    LinkedRoot(r.left, b.left);
    LinkedRoot(r.right, b.right);
    r.height := Max(HeightOf(r.left), HeightOf(r.right)) + 1;
  }

  method InsertBelowOf(tree: AvlNode, key: nat, page: nat, ghost t: Tree)
    returns (ghost id: AvlNode)
    requires HeapTree(tree, t) && Absent(Inorder(t), key)
    modifies Nodes(t)
    ensures fresh(id)
    ensures Linked(tree, InsertBelow(t, key, page, id))
    decreases t, 1
  {
    if key >= tree.key {
      id := InsertRightOf(tree, key, page, t);
    } else {
      id := InsertLeftOf(tree, key, page, t);
    }
  }

  method InsertRightOf(tree: AvlNode, key: nat, page: nat, ghost t: Tree)
    returns (ghost id: AvlNode)
    requires HeapTree(tree, t) && Absent(Inorder(t), key) && key >= t.key
    modifies Nodes(t)
    ensures fresh(id)
    ensures Linked(tree, InsertBelow(t, key, page, id))
    decreases t, 0
  {
    hide DoBalance, Inorder, Avl, Insert, Height, NearlyAvl;
    Subtrees(t, key);
    hide Sorted, Absent;
    assert allocated(Nodes(t.left)) && allocated(Nodes(t.right));
    tree.right, id := AvltreeInsert(tree.right, key, page, t.right);
    InsertHeights(t.right, key, page, id);
  }

  method InsertLeftOf(tree: AvlNode, key: nat, page: nat, ghost t: Tree)
    returns (ghost id: AvlNode)
    requires HeapTree(tree, t) && Absent(Inorder(t), key) && key < t.key
    modifies Nodes(t)
    ensures fresh(id)
    ensures Linked(tree, InsertBelow(t, key, page, id))
    decreases t, 0
  {
    hide DoBalance, Inorder, Avl, Insert, Height, NearlyAvl;
    Subtrees(t, key);
    hide Sorted, Absent;
    assert allocated(Nodes(t.left)) && allocated(Nodes(t.right));
    tree.left, id := AvltreeInsert(tree.left, key, page, t.left);
    InsertHeights(t.left, key, page, id);
  }

  /** The node reported to the caller is no longer in the tree; its key and page
      are still those the tree had for it. */
  ghost predicate FoundNode(found: AvlNode?, f: Tree)
    reads found
  {
    (found == null <==> f.Leaf?) &&
    (f.Node? ==> found == f.id && found.key == f.key && found.page == f.page)
  }

  /** avltree_remove */
  method AvltreeRemove(tree: AvlNode?, key: nat, ghost t: Tree)
    returns (r: AvlNode?, found: AvlNode?)
    requires HeapTree(tree, t)
    modifies Nodes(t)
    ensures Linked(r, Remove(t, key, false).0) && FoundNode(found, Remove(t, key, false).1)
    decreases t, 1
  {
    hide DoBalance, Inorder, Avl;
    found := null;
    if tree == null {
      return null, null;
    }
    RemoveBelowSpec(t, key, false);
    RemoveUnfolds(t, key, false);
    FoundIsGone(t, key, false);
    r, found := AvltreeRemoveBelow(tree, key, t);
    ghost var u := RemoveBelow(t, key, false);
    hide Remove, RemoveBelow;
    if r != null {
      LinkedRoot(r.left, u.left);
      LinkedRoot(r.right, u.right);
      r.height := Max(HeightOf(r.left), HeightOf(r.right)) + 1;
    }
    r := DoBalanceOf(r, Refresh(u));
  }

  method AvltreeRemoveBelow(tree: AvlNode, key: nat, ghost t: Tree)
    returns (r: AvlNode?, found: AvlNode?)
    requires HeapTree(tree, t)
    modifies Nodes(t)
    ensures Linked(r, RemoveBelow(t, key, false)) && FoundNode(found, Remove(t, key, false).1)
    decreases t, 0
  {
    hide DoBalance, Inorder, Avl, DoUnlink;
    found := null;
    Subtrees(t, key);
    assert allocated(Nodes(t.left)) && allocated(Nodes(t.right));
    RemoveUnfolds(t, key, false);
    hide Remove;
    r := tree;
    if key == tree.key {
      found := tree;
      r := DoUnlinkOf(tree, t);
    } else if key > tree.key {
      RemoveHeights(t.right, key, false);
      tree.right, found := AvltreeRemove(tree.right, key, t.right);
    } else {
      RemoveHeights(t.left, key, false);
      tree.left, found := AvltreeRemove(tree.left, key, t.left);
    }
  }

  /** remove_approx_value */
  method RemoveApproxValue(tree: AvlNode?, key: nat, ghost t: Tree)
    returns (r: AvlNode?, found: AvlNode?)
    requires HeapTree(tree, t)
    modifies Nodes(t)
    ensures Linked(r, Remove(t, key, true).0) && FoundNode(found, Remove(t, key, true).1)
    decreases t, 2
  {
    hide DoBalance, Inorder, Avl;
    found := null;
    if tree == null {
      return null, null;
    }
    RemoveBelowSpec(t, key, true);
    RemoveUnfolds(t, key, true);
    FoundIsGone(t, key, true);
    r, found := RemoveApproxValueBelow(tree, key, t);
    ghost var u := RemoveBelow(t, key, true);
    hide Remove, RemoveBelow;
    if r != null {
      LinkedRoot(r.left, u.left);
      LinkedRoot(r.right, u.right);
      r.height := Max(HeightOf(r.left), HeightOf(r.right)) + 1;
    }
    r := DoBalanceOf(r, Refresh(u));
  }

  method RemoveApproxValueBelow(tree: AvlNode, key: nat, ghost t: Tree)
    returns (r: AvlNode?, found: AvlNode?)
    requires HeapTree(tree, t)
    modifies Nodes(t)
    ensures Linked(r, RemoveBelow(t, key, true)) && FoundNode(found, Remove(t, key, true).1)
    decreases t, 1
  {
    hide DoBalance, Inorder, Avl, DoUnlink;
    found := null;
    Subtrees(t, key);
    assert allocated(Nodes(t.left)) && allocated(Nodes(t.right));
    RemoveUnfolds(t, key, true);
    hide Remove;
    r := tree;
    if key == tree.key {
      found := tree;
      r := DoUnlinkOf(tree, t);
    } else if key > tree.key {
      RemoveHeights(t.right, key, true);
      tree.right, found := RemoveApproxValue(tree.right, key, t.right);
    } else {
      r, found := RemoveApproxLeft(tree, key, t);
    }
  }

  /** The key is below the node's: the node itself goes if nothing was found
      to its left. */
  method RemoveApproxLeft(tree: AvlNode, key: nat, ghost t: Tree)
    returns (r: AvlNode?, found: AvlNode?)
    requires HeapTree(tree, t) && key < t.key
    modifies Nodes(t)
    ensures Linked(r, RemoveBelow(t, key, true)) && FoundNode(found, Remove(t, key, true).1)
    decreases t, 0
  {
    hide DoBalance, Inorder, Avl, DoUnlink;
    Subtrees(t, key);
    assert allocated(Nodes(t.left)) && allocated(Nodes(t.right));
    RemoveUnfolds(t, key, true);
    hide Remove, Sorted;
    r := tree;
    RemoveHeights(t.left, key, true);
    tree.left, found := RemoveApproxValue(tree.left, key, t.left);
    if found == null {
      found := tree;
      r := DoUnlinkOf(tree, t);
    }
  }
}
