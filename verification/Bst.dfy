/** The binary search tree of binarrytree/BST.c: parent links, and one sentinel node standing for
    every missing child and for the parent of the root. */
module Bst {
  class Node {
    var left: Node?
    var right: Node?
    var parent: Node?
    var key: int

    constructor (key: int)
      ensures this.key == key
    {
      this.key := key;
      left, right, parent := null, null, null;
    }
  }

  // ---- The tree as a value ----

  datatype Tree = Leaf | Branch(left: Tree, node: Node, key: int, right: Tree)

  ghost function Nodes(t: Tree): set<Node> {
    match t
    case Leaf => {}
    case Branch(l, x, _, r) => Nodes(l) + {x} + Nodes(r)
  }

  // How often a key occurs: the multiset of keys.
  function Count(t: Tree, j: int): nat {
    match t
    case Leaf => 0
    case Branch(l, _, k, r) => Count(l, j) + (if j == k then 1 else 0) + Count(r, j)
  }

  // No node occurs twice.
  ghost predicate Separate(t: Tree) {
    match t
    case Leaf => true
    case Branch(l, x, _, r) =>
      Separate(l) && Separate(r) && x !in Nodes(l) && x !in Nodes(r) && Nodes(l) !! Nodes(r)
  }

  // left < key <= right
  ghost predicate Ordered(t: Tree) {
    match t
    case Leaf => true
    case Branch(l, _, k, r) =>
      && Ordered(l) && Ordered(r)
      && (forall j | Count(l, j) > 0 :: j < k) && (forall j | Count(r, j) > 0 :: k <= j)
  }

  function InsertTree(t: Tree, x: Node, key: int): Tree {
    match t
    case Leaf => Branch(Leaf, x, key, Leaf)
    case Branch(l, y, k, r) =>
      if key < k then Branch(InsertTree(l, x, key), y, k, r) else Branch(l, y, k, InsertTree(r, x, key))
  }

  function MinKey(t: Tree): int
    requires t.Branch?
  {
    if t.left == Leaf then t.key else MinKey(t.left)
  }

  ghost function MinNode(t: Tree): Node
    requires t.Branch?
  {
    if t.left == Leaf then t.node else MinNode(t.left)
  }

  function RemoveMin(t: Tree): Tree
    requires t.Branch?
  {
    if t.left == Leaf then t.right else t.(left := RemoveMin(t.left))
  }

  // Takes the entry at the top out: a node with two children gets the key of its successor.
  function RemoveTop(t: Tree): Tree
    requires t.Branch?
  {
    if t.left == Leaf then t.right
    else if t.right == Leaf then t.left
    else Branch(t.left, t.node, MinKey(t.right), RemoveMin(t.right))
  }

  ghost function DeleteTree(t: Tree, x: Node): Tree
    requires x in Nodes(t)
  {
    if t.node == x then RemoveTop(t)
    else if x in Nodes(t.left) then t.(left := DeleteTree(t.left, x))
    else t.(right := DeleteTree(t.right, x))
  }

  ghost function KeyOf(t: Tree, x: Node): int
    requires x in Nodes(t)
  {
    if t.node == x then t.key else if x in Nodes(t.left) then KeyOf(t.left, x) else KeyOf(t.right, x)
  }

  // The node that leaves the tree when x's entry is deleted.
  ghost function Freed(t: Tree, x: Node): Node
    requires x in Nodes(t)
  {
    if t.node == x then (if t.left == Leaf || t.right == Leaf then x else MinNode(t.right))
    else if x in Nodes(t.left) then Freed(t.left, x) else Freed(t.right, x)
  }

  // ---- Laws of insertion and deletion ----

  lemma {:induction false} InsertCount(t: Tree, x: Node, key: int, j: int)
    ensures Count(InsertTree(t, x, key), j) == Count(t, j) + if j == key then 1 else 0
  {
    if t.Branch? {
      if key < t.key {
        InsertCount(t.left, x, key, j);
      } else {
        InsertCount(t.right, x, key, j);
      }
    }
  }

  lemma {:induction false} InsertOrdered(t: Tree, x: Node, key: int)
    requires Ordered(t)
    ensures Ordered(InsertTree(t, x, key))
  {
    if t.Branch? {
      var side := if key < t.key then t.left else t.right;
      InsertOrdered(side, x, key);
      forall j ensures Count(InsertTree(side, x, key), j) == Count(side, j) + if j == key then 1 else 0 {
        InsertCount(side, x, key, j);
      }
    }
  }

  lemma {:induction false} InsertNodes(t: Tree, x: Node, key: int)
    requires Separate(t) && x !in Nodes(t)
    ensures Separate(InsertTree(t, x, key)) && Nodes(InsertTree(t, x, key)) == Nodes(t) + {x}
  {
    if t.Branch? {
      if key < t.key {
        InsertNodes(t.left, x, key);
      } else {
        InsertNodes(t.right, x, key);
      }
    }
  }

  lemma {:induction false} MinCount(t: Tree, j: int)
    requires t.Branch?
    ensures Count(t, j) == Count(RemoveMin(t), j) + if j == MinKey(t) then 1 else 0
  {
    if t.left != Leaf {
      MinCount(t.left, j);
    }
  }

  lemma {:induction false} MinOrdered(t: Tree)
    requires t.Branch? && Ordered(t)
    ensures Ordered(RemoveMin(t)) && Count(t, MinKey(t)) > 0
    ensures forall j | Count(t, j) > 0 :: MinKey(t) <= j
  {
    if t.left != Leaf {
      MinOrdered(t.left);
      forall j ensures Count(t.left, j) >= Count(RemoveMin(t.left), j) {
        MinCount(t.left, j);
      }
    }
  }

  lemma {:induction false} MinNodes(t: Tree)
    requires t.Branch? && Separate(t)
    ensures Separate(RemoveMin(t))
    ensures MinNode(t) in Nodes(t) && Nodes(RemoveMin(t)) == Nodes(t) - {MinNode(t)}
  {
    if t.left != Leaf {
      MinNodes(t.left);
    }
  }

  lemma TopCount(t: Tree, j: int)
    requires t.Branch?
    ensures Count(t, j) == Count(RemoveTop(t), j) + if j == t.key then 1 else 0
  {
    if t.left != Leaf && t.right != Leaf {
      MinCount(t.right, j);
    }
  }

  lemma TopOrdered(t: Tree)
    requires t.Branch? && Ordered(t)
    ensures Ordered(RemoveTop(t))
  {
    if t.left != Leaf && t.right != Leaf {
      MinOrdered(t.right);
      forall j ensures Count(t.right, j) >= Count(RemoveMin(t.right), j) {
        MinCount(t.right, j);
      }
    }
  }

  // Exactly the chosen entry goes, in all three cases.
  lemma {:induction false} DeleteCount(t: Tree, x: Node, j: int)
    requires x in Nodes(t)
    ensures Count(t, j) == Count(DeleteTree(t, x), j) + if j == KeyOf(t, x) then 1 else 0
  {
    if t.node == x {
      TopCount(t, j);
    } else if x in Nodes(t.left) {
      DeleteCount(t.left, x, j);
    } else {
      DeleteCount(t.right, x, j);
    }
  }

  lemma {:induction false} DeleteOrdered(t: Tree, x: Node)
    requires Ordered(t) && x in Nodes(t)
    ensures Ordered(DeleteTree(t, x))
  {
    if t.node == x {
      TopOrdered(t);
    } else {
      var side := if x in Nodes(t.left) then t.left else t.right;
      DeleteOrdered(side, x);
      forall j ensures Count(side, j) >= Count(DeleteTree(side, x), j) {
        DeleteCount(side, x, j);
      }
    }
  }

  lemma {:induction false} DeleteNodes(t: Tree, x: Node)
    requires Separate(t) && x in Nodes(t)
    ensures Separate(DeleteTree(t, x))
    ensures Freed(t, x) in Nodes(t) && Nodes(DeleteTree(t, x)) == Nodes(t) - {Freed(t, x)}
  {
    if t.node == x {
      if t.left != Leaf && t.right != Leaf {
        MinNodes(t.right);
      }
    } else if x in Nodes(t.left) {
      DeleteNodes(t.left, x);
    } else {
      DeleteNodes(t.right, x);
    }
  }

  // A search that goes left of larger keys and right of smaller ones misses nothing.
  lemma KeyGoes(t: Tree, key: int)
    requires t.Branch? && Ordered(t) && key != t.key
    ensures Count(t, key) == Count(if t.key < key then t.right else t.left, key)
  {
  }

  // ---- The tree in memory ----

  // n points at a tree that looks like t, below parent; the sentinel stands for an empty tree.
  ghost predicate Shape(t: Tree, n: Node?, parent: Node, sentinel: Node)
    reads Nodes(t)
  {
    match t
    case Leaf => n == sentinel
    case Branch(l, x, k, r) =>
      && n == x && x != sentinel && x.key == k && x.parent == parent
      && Shape(l, x.left, x, sentinel) && Shape(r, x.right, x, sentinel)
  }

  // A tree with a hole, from the hole outward.
  datatype Context =
    | Top
    | InLeft(up: Context, node: Node, key: int, right: Tree)
    | InRight(up: Context, left: Tree, node: Node, key: int)

  function Plug(c: Context, t: Tree): Tree {
    match c
    case Top => t
    case InLeft(up, x, k, r) => Plug(up, Branch(t, x, k, r))
    case InRight(up, l, x, k) => Plug(up, Branch(l, x, k, t))
  }

  ghost function Around(c: Context): set<Node> {
    match c
    case Top => {}
    case InLeft(up, x, _, r) => Around(up) + {x} + Nodes(r)
    case InRight(up, l, x, _) => Around(up) + {x} + Nodes(l)
  }

  function HoleParent(c: Context, sentinel: Node): Node {
    if c == Top then sentinel else c.node
  }

  // The surroundings of the hole; hole is the pointer that fills it.
  ghost predicate Surrounds(c: Context, hole: Node?, root: Node?, sentinel: Node)
    reads Around(c)
  {
    match c
    case Top => hole == root
    case InLeft(up, x, k, r) =>
      && x.left == hole && x != sentinel && x.key == k && x.parent == HoleParent(up, sentinel)
      && Shape(r, x.right, x, sentinel) && Surrounds(up, x, root, sentinel)
    case InRight(up, l, x, k) =>
      && x.right == hole && x != sentinel && x.key == k && x.parent == HoleParent(up, sentinel)
      && Shape(l, x.left, x, sentinel) && Surrounds(up, x, root, sentinel)
  }

  lemma {:induction false} Assemble(c: Context, t: Tree, n: Node?, root: Node?, sentinel: Node)
    requires Surrounds(c, n, root, sentinel) && Shape(t, n, HoleParent(c, sentinel), sentinel)
    ensures Shape(Plug(c, t), root, sentinel, sentinel)
  {
    match c
    case Top =>
    case InLeft(up, x, k, r) => Assemble(up, Branch(t, x, k, r), x, root, sentinel);
    case InRight(up, l, x, k) => Assemble(up, Branch(l, x, k, t), x, root, sentinel);
  }

  lemma {:induction false} PlugSeparate(c: Context, t: Tree)
    requires Separate(Plug(c, t))
    ensures Separate(t) && Around(c) !! Nodes(t)
    ensures c != Top ==> c.node !in Around(c.up) && c.node !in Nodes(if c.InLeft? then c.right else c.left)
    ensures Nodes(Plug(c, t)) == Around(c) + Nodes(t)
    ensures t.Branch? ==> t.node !in Nodes(t.left) && t.node !in Nodes(t.right)
  {
    match c
    case Top =>
    case InLeft(up, x, k, r) => PlugSeparate(up, Branch(t, x, k, r));
    case InRight(up, l, x, k) => PlugSeparate(up, Branch(l, x, k, t));
  }

  // A subtree may be replaced by one with fewer nodes.
  lemma {:induction false} PlugShrink(c: Context, t: Tree, u: Tree)
    requires Separate(Plug(c, t)) && Separate(u) && Nodes(u) <= Nodes(t)
    ensures Separate(Plug(c, u))
  {
    match c
    case Top =>
    case InLeft(up, x, k, r) =>
      PlugSeparate(up, Branch(t, x, k, r));
      PlugShrink(up, Branch(t, x, k, r), Branch(u, x, k, r));
    case InRight(up, l, x, k) =>
      PlugSeparate(up, Branch(l, x, k, t));
      PlugShrink(up, Branch(l, x, k, t), Branch(l, x, k, u));
  }

  // The surroundings of a node, and what deleting it there means for the whole tree.
  lemma {:induction false} Focus(c: Context, t: Tree, n: Node?, x: Node, root: Node?, sentinel: Node)
    returns (c': Context, t': Tree)
    requires Surrounds(c, n, root, sentinel) && Shape(t, n, HoleParent(c, sentinel), sentinel) && x in Nodes(t)
    ensures Surrounds(c', x, root, sentinel) && Shape(t', x, HoleParent(c', sentinel), sentinel)
    ensures t'.Branch? && t'.node == x && Plug(c', t') == Plug(c, t)
    ensures Plug(c', RemoveTop(t')) == Plug(c, DeleteTree(t, x))
    ensures t'.key == KeyOf(t, x)
    decreases t
  {
    if t.node == x {
      c', t' := c, t;
    } else if x in Nodes(t.left) {
      c', t' := Focus(InLeft(c, t.node, t.key, t.right), t.left, t.node.left, x, root, sentinel);
    } else {
      c', t' := Focus(InRight(c, t.left, t.node, t.key), t.right, t.node.right, x, root, sentinel);
    }
  }

  class BSTree {
    var root: Node?
    const sentinel: Node
    ghost var tree: Tree

    ghost predicate Valid()
      reads this, Nodes(tree)
    {
      Shape(tree, root, sentinel, sentinel) && Separate(tree) && Ordered(tree) && sentinel !in Nodes(tree)
    }

    // bstree_create
    constructor (sentinel: Node)
      ensures Valid() && tree == Leaf && this.sentinel == sentinel
    {
      root := sentinel;
      this.sentinel := sentinel;
      tree := Leaf;
    }

    method Lookup(key: int) returns (p: Node)
      requires Valid()
      ensures Count(tree, key) > 0 <==> p != sentinel
      ensures p != sentinel ==> p in Nodes(tree) && p.key == key && KeyOf(tree, p) == key
    {
      p := root;
      ghost var sub := tree;
      while p != sentinel
        invariant exists parent :: Shape(sub, p, parent, sentinel)
        invariant Separate(sub) && Ordered(sub) && Nodes(sub) <= Nodes(tree)
        invariant Count(sub, key) == Count(tree, key)
        invariant forall x <- Nodes(sub) :: KeyOf(sub, x) == KeyOf(tree, x)
        decreases sub
      {
        if p.key == key {
          return p;
        }
        KeyGoes(sub, key);
        p, sub := if p.key < key then p.right else p.left, if p.key < key then sub.right else sub.left;
      }
    }

    // bstree_insert
    method Insert(node: Node)
      requires Valid() && node !in Nodes(tree) && node != sentinel
      modifies this, Nodes(tree), node
      ensures Valid() && tree == InsertTree(old(tree), node, node.key) && node.key == old(node.key)
    {
      InsertNodes(tree, node, node.key);
      InsertOrdered(tree, node, node.key);
      if root == sentinel {
        root := node;
        node.parent, node.left, node.right := sentinel, sentinel, sentinel;
        tree := Branch(Leaf, node, node.key, Leaf);
      } else {
        InsertValue(root, node);
      }
    }

    // bstree_insert_value: walks down to a missing child and hangs the node there.
    method InsertValue(top: Node, node: Node)
      requires Valid() && top == root && root != sentinel && node !in Nodes(tree) && node != sentinel
      modifies this`tree, Nodes(tree), node
      ensures Shape(tree, root, sentinel, sentinel) && tree == InsertTree(old(tree), node, node.key)
      ensures node.key == old(node.key)
    {
      var r := top;
      ghost var c, t := Top, tree;
      ghost var goal := InsertTree(tree, node, node.key);
      while (if node.key < r.key then r.left else r.right) != sentinel
        invariant Surrounds(c, r, root, sentinel) && Shape(t, r, HoleParent(c, sentinel), sentinel)
        invariant t.Branch? && t.node == r
        invariant Plug(c, t) == tree && Plug(c, InsertTree(t, node, node.key)) == goal
        decreases t
      {
        if node.key < r.key {
          c, t, r := InLeft(c, t.node, t.key, t.right), t.left, r.left;
        } else {
          c, t, r := InRight(c, t.left, t.node, t.key), t.right, r.right;
        }
      }
      PlugSeparate(c, t);
      tree := goal;
      Hang(r, node, c, t);
    }

    method Hang(r: Node, node: Node, ghost c: Context, ghost t: Tree)
      requires Surrounds(c, r, root, sentinel) && Shape(t, r, HoleParent(c, sentinel), sentinel)
      requires t.Branch? && t.node == r && Separate(Plug(c, t)) && node !in Nodes(Plug(c, t)) && node != sentinel
      requires (if node.key < r.key then t.left else t.right) == Leaf
      modifies r`left, r`right, node
      ensures Shape(Plug(c, InsertTree(t, node, node.key)), root, sentinel, sentinel) && node.key == old(node.key)
    {
      hide Separate;
      PlugSeparate(c, t);
      ghost var b := Branch(Leaf, node, node.key, Leaf);
      ghost var c' := if node.key < r.key then InLeft(c, r, r.key, t.right) else InRight(c, t.left, r, r.key);
      if node.key < r.key {
        node.parent, r.left, node.left, node.right := r, node, sentinel, sentinel;
      } else {
        node.parent, r.right, node.left, node.right := r, node, sentinel, sentinel;
      }
      assert Surrounds(c', node, root, sentinel);
      Assemble(c', b, node, root, sentinel);
      assert Plug(c', b) == Plug(c, InsertTree(t, node, node.key));
    }

    // bstree_min
    method Min(top: Node, ghost c: Context, ghost t: Tree) returns (n: Node, ghost c': Context, ghost t': Tree)
      requires Surrounds(c, top, root, sentinel) && Shape(t, top, HoleParent(c, sentinel), sentinel)
      requires sentinel !in Nodes(t)
      ensures t == Leaf ==> n == sentinel
      ensures t.Branch? ==> n == MinNode(t) && n.key == MinKey(t)
      ensures t.Branch? ==> t'.Branch? && t'.node == n && t'.left == Leaf
      ensures t.Branch? ==> Surrounds(c', n, root, sentinel) && Shape(t', n, HoleParent(c', sentinel), sentinel)
      ensures t.Branch? ==> Plug(c', t') == Plug(c, t) && Plug(c', t'.right) == Plug(c, RemoveMin(t))
    {
      n, c', t' := top, c, t;
      if n == sentinel {
        return;
      }
      while n.left != sentinel
        invariant Surrounds(c', n, root, sentinel) && Shape(t', n, HoleParent(c', sentinel), sentinel)
        invariant t'.Branch? && t'.node == n && MinNode(t') == MinNode(t) && MinKey(t') == MinKey(t)
        invariant Plug(c', t') == Plug(c, t) && Plug(c', RemoveMin(t')) == Plug(c, RemoveMin(t))
        decreases t'
      {
        n, c', t' := n.left, InLeft(c', t'.node, t'.key, t'.right), t'.left;
      }
    }

    // The pointer that led to subst leads to temp.
    method Relink(subst: Node, temp: Node, ghost c: Context, ghost u: Tree)
      requires Surrounds(c, subst, root, sentinel) && subst.parent == HoleParent(c, sentinel)
      requires c != Top ==> c.node !in Around(c.up) && c.node !in Nodes(if c.InLeft? then c.right else c.left)
      requires subst != sentinel && (c.InRight? ==> subst !in Nodes(c.left))
      requires Shape(u, temp, HoleParent(c, sentinel), sentinel) && HoleParent(c, sentinel) !in Nodes(u)
      modifies this`root, HoleParent(c, sentinel)`left, HoleParent(c, sentinel)`right
      ensures Surrounds(c, temp, root, sentinel) && Shape(u, temp, HoleParent(c, sentinel), sentinel)
    {
      if subst.parent == sentinel {
        root := temp;
      } else if subst.parent.left == subst {
        subst.parent.left := temp;
      } else {
        subst.parent.right := temp;
      }
    }

    // The end of bstree_delete: temp takes the place of subst.
    method Replace(subst: Node, temp: Node, ghost c: Context, ghost t: Tree, ghost u: Tree)
      requires Surrounds(c, subst, root, sentinel) && Shape(t, subst, HoleParent(c, sentinel), sentinel)
      requires t == Branch(Leaf, subst, subst.key, u) || t == Branch(u, subst, subst.key, Leaf)
      requires temp == if t.left == Leaf then subst.right else subst.left
      requires Separate(Plug(c, t)) && sentinel !in Nodes(Plug(c, t))
      modifies this`root, Nodes(Plug(c, t)), sentinel
      ensures Shape(Plug(c, u), root, sentinel, sentinel) && subst.key == old(subst.key)
    {
      hide Separate;
      PlugSeparate(c, t);
      PlugSeparate(if t.left == Leaf then InRight(c, Leaf, subst, subst.key) else InLeft(c, subst, subst.key, Leaf), u);
      assert Shape(u, temp, subst, sentinel) && HoleParent(c, sentinel) !in Nodes(u);
      temp.parent := subst.parent;
      Relink(subst, temp, c, u);
      Assemble(c, u, temp, root, sentinel);
    }

    // bstree_delete: a node with two children keeps its place and takes its successor's key.
    method Delete(node: Node) returns (ghost freed: Node)
      requires Valid() && node in Nodes(tree)
      modifies this, Nodes(tree), sentinel
      ensures Valid() && tree == DeleteTree(old(tree), node)
      ensures freed == Freed(old(tree), node) && Nodes(tree) == Nodes(old(tree)) - {freed}
    {
      DeleteNodes(tree, node);
      DeleteOrdered(tree, node);
      ghost var c, t := Focus(Top, tree, root, node, root, sentinel);
      ghost var goal := DeleteTree(tree, node);
      freed := Freed(tree, node);
      if node.left == sentinel {
        Replace(node, node.right, c, t, t.right);
      } else if node.right == sentinel {
        Replace(node, node.left, c, t, t.left);
      } else {
        DeleteInner(node, c, t);
      }
      tree := goal;
    }

    // The case of two children: the successor leaves the right subtree and its key moves up.
    method DeleteInner(node: Node, ghost c: Context, ghost t: Tree)
      requires Surrounds(c, node, root, sentinel) && Shape(t, node, HoleParent(c, sentinel), sentinel)
      requires Separate(Plug(c, t)) && sentinel !in Nodes(Plug(c, t))
      requires t.Branch? && t.left != Leaf && t.right != Leaf
      modifies this`root, Nodes(Plug(c, t)), sentinel
      ensures Shape(Plug(c, RemoveTop(t)), root, sentinel, sentinel)
    {
      hide Separate;
      PlugSeparate(c, t);
      assert Shape(t.right, node.right, node, sentinel);
      MinNodes(t.right);
      ghost var below := InRight(c, t.left, node, t.key);
      ghost var v := Branch(t.left, node, t.key, RemoveMin(t.right));
      PlugShrink(c, t, v);
      var subst; ghost var c', t';
      subst, c', t' := Min(node.right, below, t.right);
      Replace(subst, subst.right, c', t', t'.right);
      TakeKey(node, subst.key, c, v);
    }

    // The last step of bstree_delete: the node takes the key of the one that left.
    method TakeKey(node: Node, key: int, ghost c: Context, ghost t: Tree)
      requires Shape(Plug(c, t), root, sentinel, sentinel) && Separate(Plug(c, t)) && t.Branch? && t.node == node
      modifies node`key
      ensures Shape(Plug(c, t.(key := key)), root, sentinel, sentinel)
    {
      var n := Disassemble(c, t, root, sentinel);
      PlugSeparate(c, t);
      node.key := key;
      Assemble(c, t.(key := key), node, root, sentinel);
    }
  }

  lemma {:induction false} Disassemble(c: Context, t: Tree, root: Node?, sentinel: Node) returns (n: Node?)
    requires Shape(Plug(c, t), root, sentinel, sentinel)
    ensures Surrounds(c, n, root, sentinel) && Shape(t, n, HoleParent(c, sentinel), sentinel)
  {
    match c
    case Top => n := root;
    case InLeft(up, x, k, r) =>
      var m := Disassemble(up, Branch(t, x, k, r), root, sentinel);
      n := x.left;
    case InRight(up, l, x, k) =>
      var m := Disassemble(up, Branch(l, x, k, t), root, sentinel);
      n := x.right;
  }
}
