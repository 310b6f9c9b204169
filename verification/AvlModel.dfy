/** The AVL trees of driver/mm.c as values.

    A `Tree` records, for every heap node, the fields the C code keeps in it.
    Each function below computes the tree that the C function of the same name
    leaves behind; the heap methods in module AvlTree are proved to do the same
    thing in place.  Everything a caller relies on is stated about `Inorder`,
    the entries from smallest to largest key, and about `Avl`. */
module AvlModel {

  /** A heap node (`avl_node_t`).  `page` is the index of the page it points to. */
  class AvlNode {
    var key: nat
    var height: int
    var page: nat
    var left: AvlNode?
    var right: AvlNode?

    /** make_avl_node */
    constructor (key: nat, page: nat)
      ensures this.key == key && this.page == page && height == 0
      ensures left == null && right == null
    {
      this.key := key;
      this.page := page;
      this.height := 0;
      this.left := null;
      this.right := null;
    }
  }

  datatype Entry = Entry(id: AvlNode, key: nat, page: nat)

  datatype Direction = LEFT | RIGHT

  datatype Tree =
    | Leaf
    | Node(id: AvlNode, key: nat, page: nat, height: int, left: Tree, right: Tree)

  // ---------- what a tree holds ----------

  ghost function Inorder(t: Tree): seq<Entry> {
    match t
    case Leaf => []
    case Node(id, key, page, _, l, r) => Inorder(l) + [Entry(id, key, page)] + Inorder(r)
  }

  ghost function Nodes(t: Tree): set<AvlNode> {
    match t
    case Leaf => {}
    case Node(id, _, _, _, l, r) => {id} + Nodes(l) + Nodes(r)
  }

  /** No heap node occurs twice. */
  ghost predicate Distinct(t: Tree) {
    match t
    case Leaf => true
    case Node(id, _, _, _, l, r) =>
      Distinct(l) && Distinct(r) && id !in Nodes(l) && id !in Nodes(r) && Nodes(l) !! Nodes(r)
  }

  ghost predicate Sorted(s: seq<Entry>) {
    forall i, j :: 0 <= i < j < |s| ==> s[i].key < s[j].key
  }

  /** Number of levels minus one, computed from the shape alone. */
  ghost function Levels(t: Tree): int {
    match t
    case Leaf => -1
    case Node(_, _, _, _, l, r) => 1 + Max(Levels(l), Levels(r))
  }

  ghost function Ids(s: seq<Entry>): set<AvlNode> {
    set i | 0 <= i < |s| :: s[i].id
  }

  ghost predicate NoDuplicates(s: seq<Entry>) {
    forall i, j :: 0 <= i < j < |s| ==> s[i].id != s[j].id
  }

  lemma NoDuplicatesConcat(a: seq<Entry>, b: seq<Entry>)
    ensures Ids(a + b) == Ids(a) + Ids(b)
    ensures NoDuplicates(a + b) <==> NoDuplicates(a) && NoDuplicates(b) && Ids(a) !! Ids(b)
  {
    var s := a + b;
    assert forall i :: 0 <= i < |a| ==> s[i] == a[i] && a[i].id in Ids(a);
    assert forall i :: 0 <= i < |b| ==> s[|a| + i] == b[i] && b[i].id in Ids(b);
    assert forall i :: 0 <= i < |s| ==> s[i].id in Ids(s);
    if !(Ids(a) !! Ids(b)) {
      var n :| n in Ids(a) && n in Ids(b);
      var i :| 0 <= i < |a| && a[i].id == n;
      var j :| 0 <= j < |b| && b[j].id == n;
      assert s[i].id == s[|a| + j].id;
    }
  }

  /** The node set and its freedom from sharing can be read off the entries. */
  lemma {:induction false} NodesInorder(t: Tree)
    ensures Nodes(t) == Ids(Inorder(t))
    ensures Distinct(t) <==> NoDuplicates(Inorder(t))
  {
    if t.Node? {
      var a, m, b := Inorder(t.left), [Entry(t.id, t.key, t.page)], Inorder(t.right);
      NodesInorder(t.left);
      NodesInorder(t.right);
      NoDuplicatesConcat(a, m);
      NoDuplicatesConcat(a + m, b);
      assert m[0].id == t.id;
      assert Ids(m) == {t.id};
    }
  }

  lemma SameEntries(t: Tree, u: Tree)
    requires Inorder(t) == Inorder(u)
    ensures Nodes(t) == Nodes(u) && (Distinct(t) <==> Distinct(u))
  {
    NodesInorder(t);
    NodesInorder(u);
  }

  // ---------- heights and balance ----------

  function Max(a: int, b: int): int { if a >= b then a else b }

  /** HEIGHT */
  function Height(t: Tree): int { if t.Leaf? then -1 else t.height }

  /** get_balance_factor */
  function Factor(t: Tree): int {
    if t.Leaf? then 0 else Height(t.right) - Height(t.left)
  }

  /** The height a node ought to have, given the cached heights of its children. */
  function Rank(t: Tree): int {
    if t.Leaf? then -1 else Max(Height(t.left), Height(t.right)) + 1
  }

  /** tree->height = MAX(HEIGHT(tree->left), HEIGHT(tree->right)) + 1 */
  function Refresh(t: Tree): (r: Tree) {
    if t.Leaf? then t else t.(height := Rank(t))
  }

  ghost predicate Avl(t: Tree) {
    match t
    case Leaf => true
    case Node(_, _, _, height, l, r) =>
      Avl(l) && Avl(r) && height == Rank(t) && -1 <= Factor(t) <= 1
  }

  /** Both children are balanced and the node is at most one rotation away from it. */
  ghost predicate NearlyAvl(t: Tree) {
    t.Node? ==> Avl(t.left) && Avl(t.right) && -2 <= Factor(t) <= 2
  }

  // ---------- the operations ----------

  function RotationLeft(t: Tree): Tree {
    if t.Leaf? || t.right.Leaf? then t
    else
      var b := t.right;
      Refresh(b.(left := Refresh(t.(right := b.left))))
  }

  function RotationRight(t: Tree): Tree {
    if t.Leaf? || t.left.Leaf? then Leaf
    else
      var b := t.left;
      Refresh(b.(right := Refresh(t.(left := b.right))))
  }

  /** do_balance.  The two `Leaf` results at the end of each side are the
      branches that hang in ASSERT(0). */
  function DoBalance(t: Tree): Tree {
    if Factor(t) >= 2 then
      var f := Factor(t.right);
      if f == 1 || f == 0 then RotationLeft(t)
      else if f == -1 then RotationLeft(t.(right := RotationRight(t.right)))
      else Leaf
    else if Factor(t) <= -2 then
      var f := Factor(t.left);
      if f == -1 || f == 0 then RotationRight(t)
      else if f == 1 then RotationRight(t.(left := RotationLeft(t.left)))
      else Leaf
    else t
  }

  /** unlink_end_node: the remaining tree and the unlinked node (with whatever
      subtrees are still hanging from it). */
  function UnlinkEndNode(t: Tree, dir: Direction): (Tree, Tree) {
    if t.Leaf? then (Leaf, Leaf)
    else if dir == LEFT then
      if t.left.Leaf? then (Leaf, t)
      else
        var (rest, found) := UnlinkEndNode(t.left, LEFT);
        if rest.Leaf? && found.Node? then
          (DoBalance(Refresh(t.(left := found.right))), found.(left := Leaf, right := Leaf))
        else (DoBalance(Refresh(t.(left := rest))), found)
    else
      if t.right.Leaf? then (Leaf, t)
      else
        var (rest, found) := UnlinkEndNode(t.right, RIGHT);
        if rest.Leaf? && found.Node? then
          (DoBalance(Refresh(t.(right := found.left))), found.(left := Leaf, right := Leaf))
        else (DoBalance(Refresh(t.(right := rest))), found)
  }

  /** do_unlink: the tree that replaces node `t` once `t` itself is taken out. */
  function DoUnlink(t: Tree): Tree
    requires t.Node?
  {
    var (right, successor) := UnlinkEndNode(t.right, LEFT);
    if right.Node? && successor.Node? then
      Refresh(successor.(left := t.left, right := right))
    else
      var (left, predecessor) := UnlinkEndNode(t.left, RIGHT);
      if left.Node? && predecessor.Node? then
        Refresh(predecessor.(left := left, right := t.right))
      else if t.right.Node? then Refresh(t.right.(left := t.left))
      else if t.left.Node? then Refresh(t.left.(right := Leaf))
      else Leaf
  }

  /** avltree_insert, with `id` the node that make_avl_node returns */
  function Insert(t: Tree, key: nat, page: nat, id: AvlNode): Tree {
    if t.Leaf? then Node(id, key, page, 0, Leaf, Leaf)
    else if key >= t.key then
      Refresh(DoBalance(t.(right := Insert(t.right, key, page, id))))
    else
      Refresh(DoBalance(t.(left := Insert(t.left, key, page, id))))
  }

  /** avltree_remove (`approx` false) and remove_approx_value (`approx` true):
      the remaining tree and the node found, `Leaf` if there is none. */
  function Remove(t: Tree, key: nat, approx: bool): (Tree, Tree) {
    if t.Leaf? then (Leaf, Leaf)
    else if key == t.key then (DoBalance(Refresh(DoUnlink(t))), t)
    else if key > t.key then
      var (rest, found) := Remove(t.right, key, approx);
      (DoBalance(Refresh(t.(right := rest))), found)
    else
      var (rest, found) := Remove(t.left, key, approx);
      if approx && found.Leaf? then
        (DoBalance(Refresh(DoUnlink(t.(left := rest)))), t.(left := rest))
      else
        (DoBalance(Refresh(t.(left := rest))), found)
  }

  function EntryOf(t: Tree): Entry
    requires t.Node?
  {
    Entry(t.id, t.key, t.page)
  }

  // ---------- rebalancing ----------

  lemma {:induction false} AvlLevels(t: Tree)
    requires Avl(t)
    ensures Height(t) == Levels(t) >= -1
    ensures t.Node? ==> Height(t) >= 0
  {
    if t.Node? {
      AvlLevels(t.left);
      AvlLevels(t.right);
    }
  }

  lemma RotationLeftInorder(t: Tree)
    ensures Inorder(RotationLeft(t)) == Inorder(t)
  {
  }

  lemma RotationRightInorder(t: Tree)
    requires t.Node? && t.left.Node?
    ensures Inorder(RotationRight(t)) == Inorder(t)
  {
  }

  /** do_balance never gets to its ASSERT(0) branches, keeps the entries and
      their order, and leaves a balanced tree with correct heights. */
  lemma DoBalanceRestores(t: Tree)
    requires t.Node? && NearlyAvl(t)
    ensures Factor(t) >= 2 ==> -1 <= Factor(t.right) <= 1
    ensures Factor(t) <= -2 ==> -1 <= Factor(t.left) <= 1
    ensures Inorder(DoBalance(t)) == Inorder(t)
    ensures var b := DoBalance(t);
            && b.Node? && Avl(Refresh(b))
            && (t.height == Rank(t) ==> Avl(b))
            && Rank(t) - 1 <= Rank(b) <= Rank(t)
            && (-1 <= Factor(t) <= 1 ==> b == t)
  {
    DoBalanceInorder(t);
    hide Inorder;
    AvlLevels(t.left);
    AvlLevels(t.right);
    if Factor(t) >= 2 {
      RightHeavy(t);
    } else if Factor(t) <= -2 {
      LeftHeavy(t);
    }
  }

  lemma DoBalanceInorder(t: Tree)
    requires t.Node? && NearlyAvl(t)
    ensures Inorder(DoBalance(t)) == Inorder(t)
  {
    AvlLevels(t.left);
    AvlLevels(t.right);
    if Factor(t) >= 2 {
      AvlLevels(t.right.left);
      AvlLevels(t.right.right);
      if Factor(t.right) == -1 {
        var u := t.(right := RotationRight(t.right));
        RotationRightInorder(t.right);
        InorderNode(t);
        InorderNode(u);
        RotationLeftInorder(u);
      } else {
        RotationLeftInorder(t);
      }
    } else if Factor(t) <= -2 {
      AvlLevels(t.left.left);
      AvlLevels(t.left.right);
      if Factor(t.left) == 1 {
        var u := t.(left := RotationLeft(t.left));
        RotationLeftInorder(t.left);
        InorderNode(t);
        InorderNode(u);
        RotationRightInorder(u);
      } else {
        RotationRightInorder(t);
      }
    }
  }

  lemma RightHeavy(t: Tree)
    requires t.Node? && NearlyAvl(t) && Factor(t) == 2
    ensures t.right.Node? && -1 <= Factor(t.right) <= 1
    ensures var b := DoBalance(t);
            b.Node? && Avl(b) && Rank(t) - 1 <= Rank(b) <= Rank(t)
  {
    AvlLevels(t.left);
    var r := t.right;
    assert Avl(r.left) && Avl(r.right);
    AvlLevels(r.left);
    AvlLevels(r.right);
    if Factor(r) == -1 {
      RightTwice(t);
    } else {
      var b := DoBalance(t);
      assert Avl(b.left) && Avl(b.right);
    }
  }

  /** The case of two rotations. */
  lemma RightTwice(t: Tree)
    requires t.Node? && NearlyAvl(t) && Factor(t) == 2 && t.right.Node? && Factor(t.right) == -1
    ensures var b := DoBalance(t);
            b.Node? && Avl(b) && Rank(t) - 1 <= Rank(b) <= Rank(t)
  {
    var m := t.right.left;
    AvlLevels(t.left);
    AvlLevels(t.right.right);
    AvlLevels(m);
    AvlLevels(m.left);
    AvlLevels(m.right);
    var b := DoBalance(t);
    assert Avl(b.left) && Avl(b.right);
  }

  lemma LeftHeavy(t: Tree)
    requires t.Node? && NearlyAvl(t) && Factor(t) == -2
    ensures t.left.Node? && -1 <= Factor(t.left) <= 1
    ensures var b := DoBalance(t);
            b.Node? && Avl(b) && Rank(t) - 1 <= Rank(b) <= Rank(t)
  {
    AvlLevels(t.right);
    var l := t.left;
    assert Avl(l.left) && Avl(l.right);
    AvlLevels(l.left);
    AvlLevels(l.right);
    if Factor(l) == 1 {
      LeftTwice(t);
    } else {
      var b := DoBalance(t);
      assert Avl(b.left) && Avl(b.right);
    }
  }

  /** The case of two rotations. */
  lemma LeftTwice(t: Tree)
    requires t.Node? && NearlyAvl(t) && Factor(t) == -2 && t.left.Node? && Factor(t.left) == 1
    ensures var b := DoBalance(t);
            b.Node? && Avl(b) && Rank(t) - 1 <= Rank(b) <= Rank(t)
  {
    var m := t.left.right;
    AvlLevels(t.right);
    AvlLevels(t.left.left);
    AvlLevels(m);
    AvlLevels(m.left);
    AvlLevels(m.right);
    var b := DoBalance(t);
    assert Avl(b.left) && Avl(b.right);
  }

  // ---------- unlinking ----------

  /** What unlink_end_node promises: exactly the first (LEFT) or last (RIGHT)
      entry leaves the tree, and the rest is balanced and at most one level
      lower.  When the end node is the root itself it keeps its subtree. */
  ghost predicate UnlinksEnd(t: Tree, dir: Direction, rest: Tree, found: Tree) {
    && found.Node?
    && (rest.Leaf? ==>
          found == t && (if dir == LEFT then t.left.Leaf? else t.right.Leaf?))
    && (rest.Node? ==>
          && Avl(rest)
          && Height(t) - 1 <= Height(rest) <= Height(t)
          && found.left.Leaf? && found.right.Leaf?
          && Inorder(t) == if dir == LEFT then [EntryOf(found)] + Inorder(rest)
                           else Inorder(rest) + [EntryOf(found)])
  }

  lemma {:induction false} UnlinkFirst(t: Tree)
    requires t.Node? && Avl(t)
    ensures var (rest, found) := UnlinkEndNode(t, LEFT); UnlinksEnd(t, LEFT, rest, found)
  {
    if t.left.Node? {
      UnlinkFirst(t.left);
      var (below, found) := UnlinkEndNode(t.left, LEFT);
      var l := if below.Leaf? then found.right else below;
      AvlLevels(l);
      FirstStep(t, l, found);
    }
  }

  lemma InorderNode(t: Tree)
    requires t.Node?
    ensures Inorder(t) == Inorder(t.left) + [EntryOf(t)] + Inorder(t.right)
  {
  }

  lemma PullFront<T>(a: seq<T>, b: seq<T>, c: seq<T>, d: seq<T>)
    ensures (a + b) + c + d == a + (b + c + d)
  {
  }

  lemma PullBack<T>(a: seq<T>, b: seq<T>, c: seq<T>, d: seq<T>)
    ensures a + b + (c + d) == (a + b + c) + d
  {
  }

  lemma FirstStep(t: Tree, l: Tree, found: Tree)
    requires t.Node? && Avl(t) && found.Node? && Avl(l)
    requires Height(t.left) - 1 <= Height(l) <= Height(t.left)
    requires Inorder(t.left) == [EntryOf(found)] + Inorder(l)
    ensures var rest := DoBalance(Refresh(t.(left := l)));
            && rest.Node? && Avl(rest)
            && Height(t) - 1 <= Height(rest) <= Height(t)
            && Inorder(t) == [EntryOf(found)] + Inorder(rest)
  {
    hide DoBalance;
    var u := Refresh(t.(left := l));
    InorderNode(t);
    InorderNode(u);
    hide Inorder;
    DoBalanceRestores(u);
    PullFront([EntryOf(found)], Inorder(l), [EntryOf(t)], Inorder(t.right));
  }

  lemma {:induction false} UnlinkLast(t: Tree)
    requires t.Node? && Avl(t)
    ensures var (rest, found) := UnlinkEndNode(t, RIGHT); UnlinksEnd(t, RIGHT, rest, found)
  {
    if t.right.Node? {
      UnlinkLast(t.right);
      var (below, found) := UnlinkEndNode(t.right, RIGHT);
      var r := if below.Leaf? then found.left else below;
      AvlLevels(r);
      LastStep(t, r, found);
    }
  }

  lemma LastStep(t: Tree, r: Tree, found: Tree)
    requires t.Node? && Avl(t) && found.Node? && Avl(r)
    requires Height(t.right) - 1 <= Height(r) <= Height(t.right)
    requires Inorder(t.right) == Inorder(r) + [EntryOf(found)]
    ensures var rest := DoBalance(Refresh(t.(right := r)));
            && rest.Node? && Avl(rest)
            && Height(t) - 1 <= Height(rest) <= Height(t)
            && Inorder(t) == Inorder(rest) + [EntryOf(found)]
  {
    hide DoBalance;
    var u := Refresh(t.(right := r));
    InorderNode(t);
    InorderNode(u);
    hide Inorder;
    DoBalanceRestores(u);
    PullBack(Inorder(t.left), [EntryOf(t)], Inorder(r), [EntryOf(found)]);
  }

  lemma SplitEnd(m: Entry, s: seq<Entry>)
    ensures Ids([m] + s) == Ids(s + [m]) == Ids(s) + {m.id}
    ensures NoDuplicates([m] + s) ==> NoDuplicates(s) && m.id !in Ids(s)
    ensures NoDuplicates(s + [m]) ==> NoDuplicates(s) && m.id !in Ids(s)
  {
    assert Ids([m]) == {m.id} by { assert [m][0].id == m.id; }
    NoDuplicatesConcat([m], s);
    NoDuplicatesConcat(s, [m]);
  }

  /** The unlinked node and the remaining tree have no heap node in common and
      together are the nodes of the original tree. */
  lemma UnlinkNodes(t: Tree, dir: Direction)
    requires t.Node? && Avl(t) && Distinct(t)
    ensures var (rest, found) := UnlinkEndNode(t, dir);
            && UnlinksEnd(t, dir, rest, found)
            && Distinct(rest) && Distinct(found)
            && Nodes(rest) <= Nodes(t) && Nodes(found) <= Nodes(t)
            && (rest.Node? ==> Nodes(found) == {found.id} && found.id !in Nodes(rest)
                               && Nodes(t) == Nodes(rest) + {found.id})
  {
    if dir == LEFT { UnlinkFirst(t); } else { UnlinkLast(t); }
    var (rest, found) := UnlinkEndNode(t, dir);
    hide UnlinkEndNode, Avl;
    UnlinksEndNodes(t, dir, rest, found);
  }

  lemma UnlinksEndNodes(t: Tree, dir: Direction, rest: Tree, found: Tree)
    requires t.Node? && Distinct(t) && UnlinksEnd(t, dir, rest, found)
    ensures Distinct(rest) && Distinct(found) && Nodes(rest) <= Nodes(t) && Nodes(found) <= Nodes(t)
    ensures rest.Node? ==> Nodes(found) == {found.id} && found.id !in Nodes(rest)
                           && Nodes(t) == Nodes(rest) + {found.id}
  {
    hide Avl;
    if rest.Node? {
      NodesInorder(t);
      NodesInorder(rest);
      hide Inorder;
      SplitEnd(EntryOf(found), Inorder(rest));
    }
  }

  /** The tree that unlink_end_node hands to do_balance, and the node it has
      just cut off from the child on that side. */
  ghost function CutLeft(t: Tree): (Tree, Tree)
    requires t.Node?
  {
    var (below, found) := UnlinkEndNode(t.left, LEFT);
    if found.Leaf? then (t, found)
    else (Refresh(t.(left := if below.Leaf? then found.right else below)),
          found.(left := Leaf, right := Leaf))
  }

  ghost function CutRight(t: Tree): (Tree, Tree)
    requires t.Node?
  {
    var (below, found) := UnlinkEndNode(t.right, RIGHT);
    if found.Leaf? then (t, found)
    else (Refresh(t.(right := if below.Leaf? then found.left else below)),
          found.(left := Leaf, right := Leaf))
  }

  ghost predicate CutOff(t: Tree, u: Tree, found: Tree) {
    && u.Node? && NearlyAvl(u) && Distinct(u)
    && found.Node? && found.left.Leaf? && found.right.Leaf?
    && found.id in Nodes(t) && found.id !in Nodes(u) && Nodes(u) <= Nodes(t)
  }

  /** `c` can stand where the subtree `s` stood after node `found` left it. */
  ghost predicate Replaces(s: Tree, c: Tree, found: Tree) {
    && found.Node? && found.id in Nodes(s) && found.id !in Nodes(c)
    && Avl(c) && Distinct(c) && Nodes(c) <= Nodes(s)
    && Height(s) - 1 <= Height(c) <= Height(s)
  }

  lemma Replacement(s: Tree, dir: Direction, below: Tree, found: Tree)
    requires s.Node? && Avl(s) && Distinct(s)
    requires UnlinksEnd(s, dir, below, found) && Distinct(below)
    requires Nodes(below) <= Nodes(s)
    requires below.Node? ==> found.id !in Nodes(below) && found.id in Nodes(s)
    ensures Replaces(s, if below.Node? then below else if dir == LEFT then found.right else found.left, found)
  {
    hide Inorder;
    if below.Leaf? {
      AvlLevels(found.left);
      AvlLevels(found.right);
    }
  }

  lemma CutLeftSpec(t: Tree)
    requires t.Node? && t.left.Node? && Avl(t) && Distinct(t)
    ensures var (u, found) := CutLeft(t);
            CutOff(t, u, found) && UnlinkEndNode(t, LEFT) == (DoBalance(u), found)
  {
    hide DoBalance, CutOff, Inorder;
    var (below, found) := UnlinkEndNode(t.left, LEFT);
    UnlinkNodes(t.left, LEFT);
    hide UnlinkEndNode;
    var c := if below.Leaf? then found.right else below;
    Replacement(t.left, LEFT, below, found);
    CutOffLeft(t, c, found);
  }

  lemma CutOffLeft(t: Tree, c: Tree, found: Tree)
    requires t.Node? && Avl(t) && Distinct(t) && found.Node?
    requires Replaces(t.left, c, found)
    ensures CutOff(t, Refresh(t.(left := c)), found.(left := Leaf, right := Leaf))
  {
    hide Inorder;
  }

  lemma CutRightSpec(t: Tree)
    requires t.Node? && t.right.Node? && Avl(t) && Distinct(t)
    ensures var (u, found) := CutRight(t);
            CutOff(t, u, found) && UnlinkEndNode(t, RIGHT) == (DoBalance(u), found)
  {
    hide DoBalance, CutOff, Inorder;
    var (below, found) := UnlinkEndNode(t.right, RIGHT);
    UnlinkNodes(t.right, RIGHT);
    hide UnlinkEndNode;
    var c := if below.Leaf? then found.left else below;
    Replacement(t.right, RIGHT, below, found);
    CutOffRight(t, c, found);
  }

  lemma CutOffRight(t: Tree, c: Tree, found: Tree)
    requires t.Node? && Avl(t) && Distinct(t) && found.Node?
    requires Replaces(t.right, c, found)
    ensures CutOff(t, Refresh(t.(right := c)), found.(left := Leaf, right := Leaf))
  {
    hide Inorder;
  }

  /** do_unlink joins the two subtrees of a node, in order, and leaves a root
      that one call of do_balance can repair. */
  ghost predicate Unlinks(t: Tree, u: Tree)
    requires t.Node?
  {
    && Inorder(u) == Inorder(t.left) + Inorder(t.right)
    && NearlyAvl(u) && Refresh(u) == u
    && Height(t) - 1 <= Height(u) <= Height(t)
    && (u.Node? && (Factor(u) == 2 || Factor(u) == -2) ==> Height(u) == Height(t))
  }

  lemma UnlinkBySuccessor(t: Tree, right: Tree, e: Tree)
    requires t.Node? && Avl(t) && right.Node? && UnlinksEnd(t.right, LEFT, right, e)
    ensures Unlinks(t, Refresh(e.(left := t.left, right := right)))
  {
    AvlLevels(t.left);
    AvlLevels(right);
    SuccessorInorder(t, right, e);
    hide Inorder;
    assert NearlyAvl(Refresh(e.(left := t.left, right := right)));
  }

  lemma SuccessorInorder(t: Tree, right: Tree, e: Tree)
    requires t.Node? && right.Node? && UnlinksEnd(t.right, LEFT, right, e)
    ensures Inorder(Refresh(e.(left := t.left, right := right))) == Inorder(t.left) + Inorder(t.right)
  {
    hide Avl;
    assert Inorder(t.left) + [EntryOf(e)] + Inorder(right) == Inorder(t.left) + ([EntryOf(e)] + Inorder(right));
  }

  lemma UnlinkByPredecessor(t: Tree, left: Tree, e: Tree)
    requires t.Node? && Avl(t) && left.Node? && UnlinksEnd(t.left, RIGHT, left, e)
    requires t.right.Node? ==> t.right.left.Leaf?
    ensures Unlinks(t, Refresh(e.(left := left, right := t.right)))
  {
    AvlLevels(left);
    AvlLevels(t.right);
    PredecessorInorder(t, left, e);
    hide Inorder;
    assert NearlyAvl(Refresh(e.(left := left, right := t.right)));
  }

  lemma PredecessorInorder(t: Tree, left: Tree, e: Tree)
    requires t.Node? && left.Node? && UnlinksEnd(t.left, RIGHT, left, e)
    ensures Inorder(Refresh(e.(left := left, right := t.right))) == Inorder(t.left) + Inorder(t.right)
  {
    hide Avl;
  }

  lemma UnlinkByChild(t: Tree)
    requires t.Node? && Avl(t)
    requires t.right.Node? ==> t.right.left.Leaf?
    requires t.left.Node? ==> t.left.right.Leaf?
    ensures Unlinks(t, if t.right.Node? then Refresh(t.right.(left := t.left))
                       else if t.left.Node? then Refresh(t.left.(right := Leaf))
                       else Leaf)
  {
    AvlLevels(t.left);
    AvlLevels(t.right);
    if t.right.Node? {
      AvlLevels(t.right.right);
      assert Inorder(t.right) == [EntryOf(t.right)] + Inorder(t.right.right);
    }
    if t.left.Node? {
      AvlLevels(t.left.left);
    }
  }

  lemma DoUnlinkSpec(t: Tree)
    requires t.Node? && Avl(t)
    ensures Unlinks(t, DoUnlink(t))
  {
    hide DoBalance, Unlinks;
    var (right, successor) := UnlinkEndNode(t.right, LEFT);
    if t.right.Node? {
      UnlinkFirst(t.right);
    }
    if right.Node? {
      UnlinkBySuccessor(t, right, successor);
    } else {
      var (left, predecessor) := UnlinkEndNode(t.left, RIGHT);
      if t.left.Node? {
        UnlinkLast(t.left);
      }
      if left.Node? {
        UnlinkByPredecessor(t, left, predecessor);
      } else {
        UnlinkByChild(t);
      }
    }
  }

  /** The node itself, and nothing else, is gone from what replaces it. */
  lemma DoUnlinkNodes(t: Tree)
    requires t.Node? && Avl(t) && Distinct(t)
    ensures var u := DoUnlink(t);
            Distinct(u) && NearlyAvl(u) && Refresh(u) == u
            && Nodes(u) == Nodes(t) - {t.id} && t.id !in Nodes(u)
  {
    hide DoUnlink, DoBalance;
    DoUnlinkSpec(t);
    NodesInorder(DoUnlink(t));
    NodesInorder(t.left);
    NodesInorder(t.right);
    NoDuplicatesConcat(Inorder(t.left), Inorder(t.right));
  }

  /** The node do_unlink promotes, with the subtrees it will have on its left
      and right; `Leaf` if the unlinked node had no children. */
  ghost function Heir(t: Tree): (Tree, Tree, Tree)
    requires t.Node?
  {
    var (right, successor) := UnlinkEndNode(t.right, LEFT);
    var (left, predecessor) := UnlinkEndNode(t.left, RIGHT);
    if right.Node? then (successor, t.left, right)
    else if left.Node? then (predecessor, left, t.right)
    else if t.right.Node? then (t.right, t.left, t.right.right)
    else if t.left.Node? then (t.left, t.left.left, Leaf)
    else (Leaf, Leaf, Leaf)
  }

  lemma HeirSpec(t: Tree)
    requires t.Node? && Avl(t) && Distinct(t)
    ensures var (e, l, r) := Heir(t);
            && DoUnlink(t) == (if e.Leaf? then Leaf else Refresh(e.(left := l, right := r)))
            && (e.Node? ==> e.id !in Nodes(l) && e.id !in Nodes(r) && e.id != t.id && e.id in Nodes(t))
  {
    hide DoBalance, Inorder, Avl;
    HeirUnlinks(t);
    var (right, successor) := UnlinkEndNode(t.right, LEFT);
    var (left, predecessor) := UnlinkEndNode(t.left, RIGHT);
    hide UnlinkEndNode;
  }

  lemma HeirUnlinks(t: Tree)
    requires t.Node? && Avl(t) && Distinct(t)
    ensures var (right, successor) := UnlinkEndNode(t.right, LEFT);
            && (t.right.Leaf? ==> right.Leaf?)
            && (t.right.Node? ==> Detached(t.right, LEFT, right, successor))
    ensures var (left, predecessor) := UnlinkEndNode(t.left, RIGHT);
            && (t.left.Leaf? ==> left.Leaf?)
            && (t.left.Node? ==> Detached(t.left, RIGHT, left, predecessor))
  {
    hide DoBalance, Inorder;
    if t.right.Node? { UnlinkNodes(t.right, LEFT); }
    if t.left.Node? { UnlinkNodes(t.left, RIGHT); }
  }

  ghost predicate Detached(s: Tree, dir: Direction, rest: Tree, found: Tree)
    requires s.Node?
  {
    && found.Node? && found.id in Nodes(s) && Nodes(rest) <= Nodes(s)
    && (rest.Leaf? ==> found == s && if dir == LEFT then s.left.Leaf? else s.right.Leaf?)
    && (rest.Node? ==> found.id !in Nodes(rest) && found.left.Leaf? && found.right.Leaf?)
  }

  // ---------- insertion and removal ----------

  /** Where `key` belongs in `s`: the number of entries with a smaller key. */
  ghost function LowerBound(s: seq<Entry>, key: nat): (i: nat)
    requires Sorted(s)
    ensures i <= |s|
    ensures forall j :: 0 <= j < i ==> s[j].key < key
    ensures forall j :: i <= j < |s| ==> s[j].key >= key
  {
    if s == [] || s[0].key >= key then 0 else 1 + LowerBound(s[1..], key)
  }

  lemma LowerBoundIs(s: seq<Entry>, key: nat, i: nat)
    requires Sorted(s) && i <= |s|
    requires i > 0 ==> s[i - 1].key < key
    requires i < |s| ==> key <= s[i].key
    ensures LowerBound(s, key) == i
  {
  }

  ghost predicate Absent(s: seq<Entry>, key: nat) {
    forall i :: 0 <= i < |s| ==> s[i].key != key
  }

  ghost function InsertAt(s: seq<Entry>, i: nat, e: Entry): seq<Entry>
    requires i <= |s|
  {
    s[..i] + [e] + s[i..]
  }

  ghost function RemoveAt(s: seq<Entry>, i: nat): seq<Entry>
    requires i < |s|
  {
    s[..i] + s[i + 1..]
  }

  /** A key is looked up on the side of `m` it belongs to. */
  lemma LowerBoundSplit(a: seq<Entry>, m: Entry, b: seq<Entry>, key: nat)
    requires Sorted(a + [m] + b)
    ensures Sorted(a) && Sorted(b)
    ensures LowerBound(a + [m] + b, key) ==
            if key <= m.key then LowerBound(a, key) else |a| + 1 + LowerBound(b, key)
    ensures key == m.key ==> LowerBound(a, key) == |a|
  {
    hide LowerBound;
    SortedSplit(a, m, b);
    var s := a + [m] + b;
    if key <= m.key {
      var i := LowerBound(a, key);
      assert i < |a| ==> s[i] == a[i];
      assert i > 0 ==> s[i - 1] == a[i - 1];
      assert s[|a|] == m;
      LowerBoundIs(s, key, i);
    } else {
      var i := LowerBound(b, key);
      assert i < |b| ==> s[|a| + 1 + i] == b[i];
      assert i > 0 ==> s[|a| + i] == b[i - 1];
      assert s[|a|] == m;
      LowerBoundIs(s, key, |a| + 1 + i);
    }
  }

  lemma SortedSplit(a: seq<Entry>, m: Entry, b: seq<Entry>)
    requires Sorted(a + [m] + b)
    ensures Sorted(a) && Sorted(b)
    ensures forall j :: 0 <= j < |a| ==> a[j].key < m.key
  {
    var s := a + [m] + b;
    assert s[|a|] == m;
    forall i, j | 0 <= i < j < |a| ensures a[i].key < a[j].key {
      assert s[i] == a[i] && s[j] == a[j];
    }
    forall i, j | 0 <= i < j < |b| ensures b[i].key < b[j].key {
      assert s[|a| + 1 + i] == b[i] && s[|a| + 1 + j] == b[j];
    }
    forall j | 0 <= j < |a| ensures a[j].key < m.key {
      assert s[j] == a[j];
    }
  }

  lemma AbsentSplit(a: seq<Entry>, m: Entry, b: seq<Entry>, key: nat)
    requires Absent(a + [m] + b, key)
    ensures Absent(a, key) && Absent(b, key) && m.key != key
  {
    var s := a + [m] + b;
    assert forall j :: 0 <= j < |a| ==> s[j] == a[j];
    assert forall j :: 0 <= j < |b| ==> s[|a| + 1 + j] == b[j];
    assert s[|a|] == m;
  }

  lemma InsertAtSplit(a: seq<Entry>, m: Entry, b: seq<Entry>, i: nat, e: Entry)
    ensures i <= |a| ==> InsertAt(a, i, e) + [m] + b == InsertAt(a + [m] + b, i, e)
    ensures i <= |b| ==> a + [m] + InsertAt(b, i, e) == InsertAt(a + [m] + b, |a| + 1 + i, e)
  {
  }

  lemma RemoveAtSplit(a: seq<Entry>, m: Entry, b: seq<Entry>, i: nat)
    ensures i < |a| ==> RemoveAt(a, i) + [m] + b == RemoveAt(a + [m] + b, i)
                        && (a + [m] + b)[i] == a[i]
    ensures i < |b| ==> a + [m] + RemoveAt(b, i) == RemoveAt(a + [m] + b, |a| + 1 + i)
                        && (a + [m] + b)[|a| + 1 + i] == b[i]
    ensures a + b == RemoveAt(a + [m] + b, |a|) && (a + [m] + b)[|a|] == m
  {
  }

  /** Inserting a new key adds exactly that entry, in order, and keeps the tree
      balanced. */
  lemma {:induction false} InsertSpec(t: Tree, key: nat, page: nat, id: AvlNode)
    requires Avl(t) && Sorted(Inorder(t)) && Absent(Inorder(t), key)
    ensures var r := Insert(t, key, page, id);
            && r.Node? && Avl(r)
            && Height(t) <= Height(r) <= Height(t) + 1
            && Inorder(r) == InsertAt(Inorder(t), LowerBound(Inorder(t), key), Entry(id, key, page))
  {
    hide DoBalance, InsertAt;
    if t.Leaf? {
      InsertIntoEmpty(t, key, page, id);
    } else {
      var a, m, b := Inorder(t.left), EntryOf(t), Inorder(t.right);
      LowerBoundSplit(a, m, b, key);
      AbsentSplit(a, m, b, key);
      if key > t.key {
        InsertSpec(t.right, key, page, id);
        InsertStep(t, t.left, Insert(t.right, key, page, id));
        InsertAtSplit(a, m, b, LowerBound(b, key), Entry(id, key, page));
      } else {
        InsertSpec(t.left, key, page, id);
        InsertStep(t, Insert(t.left, key, page, id), t.right);
        InsertAtSplit(a, m, b, LowerBound(a, key), Entry(id, key, page));
      }
    }
  }

  lemma InsertIntoEmpty(t: Tree, key: nat, page: nat, id: AvlNode)
    requires t.Leaf?
    ensures var r := Insert(t, key, page, id);
            && r.Node? && Avl(r) && Height(r) == 0
            && Inorder(r) == InsertAt([], 0, Entry(id, key, page))
  {
  }

  lemma InsertStep(t: Tree, l: Tree, r: Tree)
    requires t.Node? && Avl(t) && Avl(l) && Avl(r)
    requires Height(t.left) <= Height(l) && Height(t.right) <= Height(r)
    requires Height(l) + Height(r) <= Height(t.left) + Height(t.right) + 1
    ensures var u := Refresh(DoBalance(t.(left := l, right := r)));
            && u.Node? && Avl(u)
            && Height(t) <= Height(u) <= Height(t) + 1
            && Inorder(u) == Inorder(l) + [EntryOf(t)] + Inorder(r)
  {
    hide DoBalance;
    DoBalanceRestores(t.(left := l, right := r));
  }

  /** What avltree_remove and remove_approx_value promise: they find the entry
      with that key (`approx`: the entry with the least key at or above it),
      take exactly that entry out and keep the rest balanced; if there is none
      the tree is left as it was. */
  ghost predicate Removes(t: Tree, key: nat, approx: bool, rest: Tree, found: Tree)
    requires Sorted(Inorder(t))
  {
    var s := Inorder(t);
    var i := LowerBound(s, key);
    if i < |s| && (approx || s[i].key == key) then
      && found.Node? && EntryOf(found) == s[i]
      && Avl(rest) && Inorder(rest) == RemoveAt(s, i)
      && Height(t) - 1 <= Height(rest) <= Height(t)
    else
      found.Leaf? && rest == t
  }

  lemma {:induction false} RemoveSpec(t: Tree, key: nat, approx: bool)
    requires Avl(t) && Sorted(Inorder(t))
    ensures var (rest, found) := Remove(t, key, approx); Removes(t, key, approx, rest, found)
  {
    hide DoBalance, DoUnlink, RemoveAt;
    if t.Node? {
      LowerBoundSplit(Inorder(t.left), EntryOf(t), Inorder(t.right), key);
      hide Removes;
      if key == t.key {
        RemoveThis(t, approx);
      } else if key > t.key {
        RemoveSpec(t.right, key, approx);
        RemoveFromRight(t, key, approx);
      } else {
        RemoveSpec(t.left, key, approx);
        RemoveFromLeft(t, key, approx);
      }
    }
  }

  lemma RemoveThis(t: Tree, approx: bool)
    requires t.Node? && Avl(t) && Sorted(Inorder(t))
    ensures var (rest, found) := Remove(t, t.key, approx); Removes(t, t.key, approx, rest, found)
  {
    hide DoBalance, DoUnlink, RemoveAt;
    LowerBoundSplit(Inorder(t.left), EntryOf(t), Inorder(t.right), t.key);
    RemoveAtSplit(Inorder(t.left), EntryOf(t), Inorder(t.right), 0);
    RemoveRoot(t);
  }

  lemma RemoveFromRight(t: Tree, key: nat, approx: bool)
    requires t.Node? && Avl(t) && Sorted(Inorder(t)) && Sorted(Inorder(t.right)) && key > t.key
    requires LowerBound(Inorder(t), key) == |Inorder(t.left)| + 1 + LowerBound(Inorder(t.right), key)
    requires var (rest, found) := Remove(t.right, key, approx); Removes(t.right, key, approx, rest, found)
    ensures var (rest, found) := Remove(t, key, approx); Removes(t, key, approx, rest, found)
  {
    hide DoBalance, DoUnlink, RemoveAt, LowerBound, Sorted;
    var a, m, b := Inorder(t.left), EntryOf(t), Inorder(t.right);
    InorderNode(t);
    hide Inorder;
    var (rest, found) := Remove(t.right, key, approx);
    RemoveAtSplit(a, m, b, LowerBound(b, key));
    RemoveStep(t, t.left, rest);
  }

  lemma RemoveFromLeft(t: Tree, key: nat, approx: bool)
    requires t.Node? && Avl(t) && Sorted(Inorder(t)) && Sorted(Inorder(t.left)) && key < t.key
    requires LowerBound(Inorder(t), key) == LowerBound(Inorder(t.left), key)
    requires var (rest, found) := Remove(t.left, key, approx); Removes(t.left, key, approx, rest, found)
    ensures var (rest, found) := Remove(t, key, approx); Removes(t, key, approx, rest, found)
  {
    hide DoBalance, DoUnlink, RemoveAt, LowerBound, Sorted;
    var a, m, b := Inorder(t.left), EntryOf(t), Inorder(t.right);
    InorderNode(t);
    hide Inorder;
    var (rest, found) := Remove(t.left, key, approx);
    RemoveAtSplit(a, m, b, LowerBound(a, key));
    if approx && found.Leaf? {
      assert t.(left := rest) == t;
      RemoveRoot(t);
    } else {
      RemoveStep(t, rest, t.right);
    }
  }

  lemma RemoveStep(t: Tree, l: Tree, r: Tree)
    requires t.Node? && Avl(t) && Avl(l) && Avl(r)
    requires Height(l) <= Height(t.left) && Height(r) <= Height(t.right)
    requires Height(t.left) + Height(t.right) - 1 <= Height(l) + Height(r)
    ensures var u := DoBalance(Refresh(t.(left := l, right := r)));
            && Avl(u)
            && Height(t) - 1 <= Height(u) <= Height(t)
            && Inorder(u) == Inorder(l) + [EntryOf(t)] + Inorder(r)
            && (l == t.left && r == t.right ==> u == t)
  {
    hide DoBalance;
    DoBalanceRestores(Refresh(t.(left := l, right := r)));
  }

  lemma RemoveRoot(t: Tree)
    requires t.Node? && Avl(t)
    ensures var u := DoBalance(Refresh(DoUnlink(t)));
            && Avl(u)
            && Inorder(u) == Inorder(t.left) + Inorder(t.right)
            && Height(t) - 1 <= Height(u) <= Height(t)
  {
    hide DoBalance, DoUnlink;
    DoUnlinkSpec(t);
    var u := DoUnlink(t);
    if u.Node? {
      DoBalanceRestores(u);
    } else {
      BalanceLeaf(u);
    }
  }

  lemma BalanceLeaf(t: Tree)
    requires t.Leaf?
    ensures DoBalance(t) == t
  {
  }

  // ---------- node sets across insertion and removal ----------

  lemma InsertAtIds(s: seq<Entry>, i: nat, e: Entry)
    requires i <= |s| && NoDuplicates(s) && e.id !in Ids(s)
    ensures NoDuplicates(InsertAt(s, i, e)) && Ids(InsertAt(s, i, e)) == Ids(s) + {e.id}
  {
    assert s == s[..i] + s[i..];
    assert Ids([e]) == {e.id} by { assert [e][0].id == e.id; }
    NoDuplicatesConcat(s[..i], s[i..]);
    NoDuplicatesConcat(s[..i], [e]);
    NoDuplicatesConcat(s[..i] + [e], s[i..]);
  }

  lemma RemoveAtIds(s: seq<Entry>, i: nat)
    requires i < |s| && NoDuplicates(s)
    ensures NoDuplicates(RemoveAt(s, i)) && Ids(RemoveAt(s, i)) == Ids(s) - {s[i].id}
    ensures s[i].id in Ids(s)
  {
    assert s == s[..i] + [s[i]] + s[i + 1..];
    assert Ids([s[i]]) == {s[i].id} by { assert [s[i]][0].id == s[i].id; }
    NoDuplicatesConcat(s[..i], [s[i]]);
    NoDuplicatesConcat(s[..i] + [s[i]], s[i + 1..]);
    NoDuplicatesConcat(s[..i], s[i + 1..]);
  }

  lemma InsertAtSorted(s: seq<Entry>, e: Entry)
    requires Sorted(s) && Absent(s, e.key)
    ensures Sorted(InsertAt(s, LowerBound(s, e.key), e))
  {
  }

  lemma InsertNodes(t: Tree, key: nat, page: nat, id: AvlNode)
    requires Avl(t) && Sorted(Inorder(t)) && Absent(Inorder(t), key)
    requires Distinct(t) && id !in Nodes(t)
    ensures var r := Insert(t, key, page, id);
            Distinct(r) && Nodes(r) == Nodes(t) + {id} && Sorted(Inorder(r))
  {
    hide DoBalance, Insert, InsertAt;
    InsertSpec(t, key, page, id);
    NodesInorder(t);
    NodesInorder(Insert(t, key, page, id));
    InsertAtIds(Inorder(t), LowerBound(Inorder(t), key), Entry(id, key, page));
    InsertAtSorted(Inorder(t), Entry(id, key, page));
  }

  lemma RemoveNodes(t: Tree, key: nat, approx: bool)
    requires Avl(t) && Sorted(Inorder(t)) && Distinct(t)
    ensures var (rest, found) := Remove(t, key, approx);
            && Distinct(rest) && Sorted(Inorder(rest)) && Avl(rest)
            && (found.Node? ==> found.id in Nodes(t) && Nodes(rest) == Nodes(t) - {found.id})
            && (found.Leaf? ==> rest == t)
  {
    hide DoBalance, Remove, Avl, Inorder;
    RemoveSpec(t, key, approx);
    var (rest, found) := Remove(t, key, approx);
    if found.Node? {
      NodesInorder(t);
      NodesInorder(rest);
      RemoveAtIds(Inorder(t), LowerBound(Inorder(t), key));
    }
  }

  /** The subtrees of a well-formed tree, as a search for `key` meets them. */
  lemma Subtrees(t: Tree, key: nat)
    requires t.Node? && Avl(t) && Sorted(Inorder(t)) && Distinct(t)
    ensures Sorted(Inorder(t.left)) && Sorted(Inorder(t.right))
    ensures Avl(t.left) && Avl(t.right) && Distinct(t.left) && Distinct(t.right)
    ensures Absent(Inorder(t), key) ==>
              Absent(Inorder(t.left), key) && Absent(Inorder(t.right), key)
  {
    var a, m, b := Inorder(t.left), EntryOf(t), Inorder(t.right);
    LowerBoundSplit(a, m, b, key);
    if Absent(a + [m] + b, key) {
      AbsentSplit(a, m, b, key);
    }
  }

  /** The tree that avltree_insert hands to do_balance. */
  ghost function InsertBelow(t: Tree, key: nat, page: nat, id: AvlNode): Tree
    requires t.Node?
  {
    if key >= t.key then t.(right := Insert(t.right, key, page, id))
    else t.(left := Insert(t.left, key, page, id))
  }

  lemma InsertUnfolds(t: Tree, key: nat, page: nat, id: AvlNode)
    requires t.Node?
    ensures Insert(t, key, page, id) == Refresh(DoBalance(InsertBelow(t, key, page, id)))
  {
    hide DoBalance;
  }

  /** Exchanging a subtree for one of about the same height whose nodes are
      not in the rest of the tree. */
  lemma ReplaceRight(t: Tree, c: Tree, extra: set<AvlNode>)
    requires t.Node? && Avl(t) && Distinct(t) && Avl(c) && Distinct(c)
    requires -1 <= Height(c) - Height(t.right) <= 1
    requires Nodes(c) <= Nodes(t.right) + extra && Nodes(t) !! extra
    ensures var u := t.(right := c);
            && NearlyAvl(u) && NearlyAvl(Refresh(u)) && Distinct(u) && Distinct(Refresh(u))
            && Nodes(u) == Nodes(Refresh(u)) <= Nodes(t) + extra
            && (Nodes(c) == Nodes(t.right) + extra ==> Nodes(u) == Nodes(t) + extra)
  {
  }

  lemma ReplaceLeft(t: Tree, c: Tree, extra: set<AvlNode>)
    requires t.Node? && Avl(t) && Distinct(t) && Avl(c) && Distinct(c)
    requires -1 <= Height(c) - Height(t.left) <= 1
    requires Nodes(c) <= Nodes(t.left) + extra && Nodes(t) !! extra
    ensures var u := t.(left := c);
            && NearlyAvl(u) && NearlyAvl(Refresh(u)) && Distinct(u) && Distinct(Refresh(u))
            && Nodes(u) == Nodes(Refresh(u)) <= Nodes(t) + extra
            && (Nodes(c) == Nodes(t.left) + extra ==> Nodes(u) == Nodes(t) + extra)
  {
  }

  lemma InsertHeights(t: Tree, key: nat, page: nat, id: AvlNode)
    requires Avl(t) && Sorted(Inorder(t)) && Absent(Inorder(t), key)
    requires Distinct(t) && id !in Nodes(t)
    ensures var r := Insert(t, key, page, id);
            && Avl(r) && Distinct(r) && Nodes(r) == Nodes(t) + {id}
            && Height(t) <= Height(r) <= Height(t) + 1
  {
    hide Insert, InsertAt;
    InsertSpec(t, key, page, id);
    InsertNodes(t, key, page, id);
  }

  lemma InsertBelowSpec(t: Tree, key: nat, page: nat, id: AvlNode)
    requires t.Node? && Avl(t) && Sorted(Inorder(t)) && Absent(Inorder(t), key)
    requires Distinct(t) && id !in Nodes(t)
    ensures var u := InsertBelow(t, key, page, id);
            NearlyAvl(u) && Distinct(u) && Nodes(u) == Nodes(t) + {id}
  {
    Subtrees(t, key);
    assert id !in Nodes(t.left) && id !in Nodes(t.right);
    hide Inorder, Sorted, Absent, Insert, Avl, NearlyAvl, Nodes, Distinct;
    if key >= t.key {
      InsertHeights(t.right, key, page, id);
      ReplaceRight(t, Insert(t.right, key, page, id), {id});
    } else {
      InsertHeights(t.left, key, page, id);
      ReplaceLeft(t, Insert(t.left, key, page, id), {id});
    }
  }

  /** The tree that avltree_remove and remove_approx_value are about to
      rebalance, before the height of its root is brought up to date. */
  ghost function RemoveBelow(t: Tree, key: nat, approx: bool): Tree
    requires t.Node?
  {
    if key == t.key || (key < t.key && approx && Remove(t.left, key, true).1.Leaf?) then DoUnlink(t)
    else if key > t.key then t.(right := Remove(t.right, key, approx).0)
    else t.(left := Remove(t.left, key, approx).0)
  }

  lemma RemoveHeights(t: Tree, key: nat, approx: bool)
    requires Avl(t) && Sorted(Inorder(t)) && Distinct(t)
    ensures var (rest, found) := Remove(t, key, approx);
            && Avl(rest) && Distinct(rest) && Nodes(rest) <= Nodes(t)
            && Height(t) - 1 <= Height(rest) <= Height(t)
            && (found.Node? ==> found.id in Nodes(t) && found.id !in Nodes(rest))
            && (found.Leaf? ==> rest == t)
  {
    hide Remove;
    RemoveSpec(t, key, approx);
    RemoveNodes(t, key, approx);
  }

  lemma RemoveBelowSpec(t: Tree, key: nat, approx: bool)
    requires t.Node? && Avl(t) && Sorted(Inorder(t)) && Distinct(t)
    ensures var u := RemoveBelow(t, key, approx);
            && Distinct(u) && Nodes(u) <= Nodes(t)
            && NearlyAvl(Refresh(u)) && Distinct(Refresh(u)) && Nodes(Refresh(u)) == Nodes(u)
  {
    if RemoveBelow(t, key, approx) == DoUnlink(t) {
      hide DoUnlink;
      DoUnlinkNodes(t);
    } else if key > t.key {
      Subtrees(t, key);
      RemoveHeights(t.right, key, approx);
      hide Inorder, Sorted, Avl, NearlyAvl, Remove, DoUnlink;
      ReplaceRight(t, Remove(t.right, key, approx).0, {});
    } else {
      Subtrees(t, key);
      RemoveHeights(t.left, key, approx);
      hide Inorder, Sorted, Avl, NearlyAvl, Remove, DoUnlink;
      ReplaceLeft(t, Remove(t.left, key, approx).0, {});
    }
  }

  lemma FoundIsGone(t: Tree, key: nat, approx: bool)
    requires t.Node? && Avl(t) && Sorted(Inorder(t)) && Distinct(t)
    ensures var found := Remove(t, key, approx).1;
            found.Node? ==> found.id in Nodes(t) && found.id !in Nodes(RemoveBelow(t, key, approx))
  {
    hide DoBalance, Remove, RemoveBelow;
    RemoveHeights(t, key, approx);
    RemoveUnfolds(t, key, approx);
    RemoveBelowSpec(t, key, approx);
    var u := Refresh(RemoveBelow(t, key, approx));
    hide Inorder, Sorted, Avl, NearlyAvl;
    if u.Node? {
      DoBalanceNodes(u);
    }
  }

  lemma RemoveUnfolds(t: Tree, key: nat, approx: bool)
    requires t.Node? && Avl(t) && Sorted(Inorder(t)) && Distinct(t)
    ensures var (rest, found) := Remove(t, key, approx);
            && rest == DoBalance(Refresh(RemoveBelow(t, key, approx)))
            && found == (if key > t.key then Remove(t.right, key, approx).1
                         else if key < t.key && Remove(t.left, key, approx).1.Node? then
                           Remove(t.left, key, approx).1
                         else if key == t.key || approx then t
                         else Leaf)
  {
    hide DoBalance, DoUnlink;
    Subtrees(t, key);
    RemoveHeights(t.left, key, approx);
    DoUnlinkNodes(t);
    hide Inorder, Sorted, Avl, NearlyAvl;
    assert t.(left := t.left) == t;
  }

  lemma DoBalanceNodes(t: Tree)
    requires t.Node? && NearlyAvl(t) && Distinct(t)
    ensures var b := DoBalance(t); b.Node? && Distinct(b) && Nodes(b) == Nodes(t)
  {
    hide DoBalance;
    DoBalanceRestores(t);
    SameEntries(t, DoBalance(t));
  }
}
