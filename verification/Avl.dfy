/** The pointer AVL tree of avl.go: nodes on the heap, changed in place. Every
    operation is proved to compute the function of the same name on tree values
    (module AvlTree), and never to follow a nil child. */
module Avl {
  import opened Wrappers
  import T = AvlTree

  class AvlNode<D> {
    var key: nat
    var left: AvlNode?<D>
    var right: AvlNode?<D>
    var data: D
    var height: int

    ghost var Repr: set<AvlNode<D>>
    ghost var tree: T.Tree<D>

    /** The nodes below this one form a tree (no sharing), and `tree` is its value. */
    ghost predicate Valid()
      reads this, Repr
      ensures Valid() ==> this in Repr && tree.Node?
      decreases Repr
    {
      && this in Repr
      && (left != null ==> left in Repr && left.Repr <= Repr && this !in left.Repr && left.Valid())
      && (right != null ==> right in Repr && right.Repr <= Repr && this !in right.Repr && right.Valid())
      && ReprOf(left) !! ReprOf(right)
      && tree == T.Node(TreeOf(left), key, data, height, TreeOf(right))
    }

    constructor (key: nat, data: D)
      ensures Valid() && fresh(Repr)
      ensures tree == T.Node(T.Leaf, key, data, 1, T.Leaf)
    {
      this.key, this.data, this.left, this.right, this.height := key, data, null, null, 1;
      Repr := {this};
      tree := T.Node(T.Leaf, key, data, 1, T.Leaf);
    }
  }

  ghost function ReprOf<D>(n: AvlNode?<D>): set<AvlNode<D>>
    reads n
  {
    if n == null then {} else n.Repr
  }

  ghost function TreeOf<D>(n: AvlNode?<D>): T.Tree<D>
    reads n
  {
    if n == null then T.Leaf else n.tree
  }

  ghost predicate IsTree<D>(n: AvlNode?<D>)
    reads n, ReprOf(n)
  {
    n != null ==> n.Valid()
  }

  function GetHeight<D>(n: AvlNode?<D>): (h: int)
    requires IsTree(n)
    reads n, ReprOf(n)
    ensures h == T.Height(TreeOf(n))
  {
    if n == null then 0 else n.height
  }

  function GetBalanceFactor<D>(n: AvlNode?<D>): (b: int)
    requires IsTree(n)
    reads n, ReprOf(n)
    ensures b == T.BalanceFactor(TreeOf(n))
  {
    if n == null then 0 else GetHeight(n.left) - GetHeight(n.right)
  }

  /** `node.height = 1 + Max(...)`, the line every operation ends with; the ghost
      fields follow the children. */
  method UpdateHeight<D>(node: AvlNode<D>, ghost repr: set<AvlNode<D>>)
    requires IsTree(node.left) && IsTree(node.right)
    requires node !in ReprOf(node.left) && node !in ReprOf(node.right)
    requires ReprOf(node.left) !! ReprOf(node.right)
    requires node in repr && ReprOf(node.left) <= repr && ReprOf(node.right) <= repr
    modifies node
    ensures node.Valid() && node.Repr == repr
    ensures node.left == old(node.left) && node.right == old(node.right)
    ensures node.tree == T.Mk(TreeOf(node.left), old(node.key), old(node.data), TreeOf(node.right))
  {
    node.height := 1 + T.Max(GetHeight(node.left), GetHeight(node.right));
    node.Repr := repr;
    node.tree := T.Node(TreeOf(node.left), node.key, node.data, node.height, TreeOf(node.right));
  }

  method RotateRight<D>(node: AvlNode<D>) returns (y: AvlNode<D>)
    requires node.Valid() && node.left != null
    modifies node, node.left
    ensures y.Valid() && y.Repr == old(node.Repr)
    ensures y.tree == T.RotateRight(old(node.tree))
  {
    ghost var repr := node.Repr;
    y := node.left;
    assert y.Valid();
    var t1 := y.right;
    y.right := node;
    node.left := t1;
    UpdateHeight(node, {node} + ReprOf(t1) + ReprOf(node.right));
    UpdateHeight(y, repr);
  }

  method RotateLeft<D>(node: AvlNode<D>) returns (y: AvlNode<D>)
    requires node.Valid() && node.right != null
    modifies node, node.right
    ensures y.Valid() && y.Repr == old(node.Repr)
    ensures y.tree == T.RotateLeft(old(node.tree))
  {
    ghost var repr := node.Repr;
    y := node.right;
    assert y.Valid();
    var t1 := y.left;
    y.left := node;
    node.right := t1;
    UpdateHeight(node, {node} + ReprOf(node.left) + ReprOf(t1));
    UpdateHeight(y, repr);
  }

  /** The rotation cases at the end of AvlInsert. */
  method RebalanceByKey<D>(root: AvlNode<D>, key: nat) returns (r: AvlNode<D>)
    requires root.Valid() && T.RotatableByKey(root.tree, key)
    modifies root.Repr
    ensures r.Valid() && r.Repr == old(root.Repr)
    ensures r.tree == T.RebalanceByKey(old(root.tree), key)
  {
    var bf := GetBalanceFactor(root);
    if bf > 1 && key < root.left.key {
      r := RotateRight(root);
    } else if bf > 1 && key > root.left.key {
      RotateLeftChild(root);
      r := RotateRight(root);
    } else if bf < -1 && key > root.right.key {
      r := RotateLeft(root);
    } else if bf < -1 && key < root.right.key {
      RotateRightChild(root);
      r := RotateLeft(root);
    } else {
      r := root;
    }
  }

  /** `root.left = RotateLeft(root.left)`. */
  method RotateLeftChild<D>(root: AvlNode<D>)
    requires root.Valid() && root.tree.left.Node? && root.tree.left.right.Node?
    modifies root.Repr
    ensures root.Valid() && root.Repr == old(root.Repr)
    ensures root.tree == old(root.tree).(left := T.RotateLeft(old(root.tree.left)))
  {
    var l := RotateLeft(root.left);
    root.left := l;
    root.tree := root.tree.(left := l.tree);
  }

  /** `root.right = RotateRight(root.right)`. */
  method RotateRightChild<D>(root: AvlNode<D>)
    requires root.Valid() && root.tree.right.Node? && root.tree.right.left.Node?
    modifies root.Repr
    ensures root.Valid() && root.Repr == old(root.Repr)
    ensures root.tree == old(root.tree).(right := T.RotateRight(old(root.tree.right)))
  {
    var r := RotateRight(root.right);
    root.right := r;
    root.tree := root.tree.(right := r.tree);
  }

  method AvlInsert<D>(root: AvlNode?<D>, key: nat, data: D, overwrite: bool) returns (r: AvlNode<D>)
    requires IsTree(root) && T.IsAvl(TreeOf(root))
    modifies ReprOf(root)
    ensures r.Valid() && fresh(r.Repr - old(ReprOf(root)))
    ensures r.tree == T.Insert(old(TreeOf(root)), key, data, overwrite)
    decreases ReprOf(root), 1
  {
    if root == null {
      r := new AvlNode(key, data);
      return;
    }
    if key == root.key {
      if overwrite {
        root.data := data;
        root.tree := root.tree.(data := data);
      }
      return root;
    }
    T.InsertIsRotatable(root.tree, key, data, overwrite);
    if key < root.key {
      InsertLeft(root, key, data, overwrite);
    } else {
      InsertRight(root, key, data, overwrite);
    }
    r := RebalanceByKey(root, key);
  }

  /** `root.left = AvlInsert(root.left, ...)` and the height update after it. */
  method InsertLeft<D>(root: AvlNode<D>, key: nat, data: D, overwrite: bool)
    requires root.Valid() && T.IsAvl(root.tree)
    modifies root.Repr
    ensures root.Valid() && fresh(root.Repr - old(root.Repr))
    ensures var t := old(root.tree);
      root.tree == T.Mk(T.Insert(t.left, key, data, overwrite), t.key, t.data, t.right)
    decreases root.Repr, 0
  {
    assert IsTree(root.right);
    var l := AvlInsert(root.left, key, data, overwrite);
    root.left := l;
    UpdateHeight(root, root.Repr + l.Repr);
  }

  method InsertRight<D>(root: AvlNode<D>, key: nat, data: D, overwrite: bool)
    requires root.Valid() && T.IsAvl(root.tree)
    modifies root.Repr
    ensures root.Valid() && fresh(root.Repr - old(root.Repr))
    ensures var t := old(root.tree);
      root.tree == T.Mk(t.left, t.key, t.data, T.Insert(t.right, key, data, overwrite))
    decreases root.Repr, 0
  {
    assert IsTree(root.left);
    var r := AvlInsert(root.right, key, data, overwrite);
    root.right := r;
    UpdateHeight(root, root.Repr + r.Repr);
  }

  /** The tail of AvlDelete: recompute the height and rotate by balance factors. */
  method Fix<D>(root: AvlNode<D>) returns (r: AvlNode<D>)
    requires root.Valid() && T.IsAvl(root.tree.left) && T.IsAvl(root.tree.right)
    modifies root.Repr
    ensures r.Valid() && r.Repr == old(root.Repr)
    ensures r.tree == T.Fix(old(root.tree))
  {
    UpdateHeight(root, root.Repr);
    T.ChildrenAvlAreRotatable(root.tree);
    var bf := GetBalanceFactor(root);
    if bf > 1 && GetBalanceFactor(root.left) >= 0 {
      r := RotateRight(root);
    } else if bf > 1 && GetBalanceFactor(root.left) < 0 {
      RotateLeftChild(root);
      r := RotateRight(root);
    } else if bf < -1 && GetBalanceFactor(root.right) <= 0 {
      r := RotateLeft(root);
    } else if bf < -1 && GetBalanceFactor(root.right) > 0 {
      RotateRightChild(root);
      r := RotateLeft(root);
    } else {
      r := root;
    }
  }

  /** The loop that finds the in-order successor. */
  method LeftmostKey<D>(root: AvlNode<D>) returns (k: nat)
    requires root.Valid()
    ensures k == T.MinKey(root.tree)
  {
    var tmp: AvlNode<D> := root;
    while tmp.left != null
      invariant tmp.Valid() && T.MinKey(tmp.tree) == T.MinKey(root.tree)
      decreases tmp.Repr
    {
      tmp := tmp.left;
    }
    k := tmp.key;
  }

  method AvlDelete<D>(root: AvlNode?<D>, key: nat) returns (r: AvlNode?<D>)
    requires IsTree(root) && T.IsAvl(TreeOf(root))
    modifies ReprOf(root)
    ensures IsTree(r) && ReprOf(r) <= old(ReprOf(root))
    ensures TreeOf(r) == T.Delete(old(TreeOf(root)), key)
    decreases ReprOf(root), 1
  {
    if root == null {
      return null;
    }
    ghost var t := root.tree;
    if key < root.key {
      T.DeleteEffect(t.left, key);
      DeleteInLeft(root, key);
      r := Fix(root);
    } else if key > root.key {
      T.DeleteEffect(t.right, key);
      DeleteInRight(root, key, root.key);
      r := Fix(root);
    } else if root.left == null && root.right == null {
      r := null;
    } else if root.left == null {
      r := Fix(root.right);
    } else if root.right == null {
      r := Fix(root.left);
    } else {
      var successor := LeftmostKey(root.right);
      T.DeleteEffect(t.right, successor);
      DeleteInRight(root, successor, successor);
      r := Fix(root);
    }
  }

  /** `root.left = AvlDelete(root.left, key)`. */
  method DeleteInLeft<D>(root: AvlNode<D>, key: nat)
    requires root.Valid() && T.IsAvl(root.tree)
    modifies root.Repr
    ensures root.Valid() && root.Repr <= old(root.Repr)
    ensures root.tree == old(root.tree).(left := T.Delete(old(root.tree.left), key))
    decreases root.Repr, 0
  {
    assert IsTree(root.right);
    var l := AvlDelete(root.left, key);
    root.left := l;
    root.tree := root.tree.(left := TreeOf(l));
  }

  /** `root.key = newKey; root.right = AvlDelete(root.right, key)`. */
  method DeleteInRight<D>(root: AvlNode<D>, key: nat, newKey: nat)
    requires root.Valid() && T.IsAvl(root.tree)
    modifies root.Repr
    ensures root.Valid() && root.Repr <= old(root.Repr)
    ensures root.tree == old(root.tree).(key := newKey, right := T.Delete(old(root.tree.right), key))
    decreases root.Repr, 0
  {
    assert IsTree(root.left);
    var r := AvlDelete(root.right, key);
    root.key := newKey;
    root.right := r;
    root.tree := root.tree.(key := newKey, right := TreeOf(r));
  }

  method AvlSearch<D>(root: AvlNode?<D>, key: nat) returns (d: Option<D>)
    requires IsTree(root)
    ensures d == T.Search(TreeOf(root), key)
    decreases ReprOf(root)
  {
    if root == null {
      d := None;
    } else if root.key == key {
      d := Some(root.data);
    } else if root.key > key {
      d := AvlSearch(root.left, key);
    } else {
      d := AvlSearch(root.right, key);
    }
  }

  /** The key and data of each node, as a sequence of values. */
  ghost function Entries<D>(nodes: seq<AvlNode<D>>): (es: seq<(nat, D)>)
    reads nodes
    ensures |es| == |nodes|
  {
    if nodes == [] then []
    else Entries(nodes[..|nodes| - 1]) + [(nodes[|nodes| - 1].key, nodes[|nodes| - 1].data)]
  }

  lemma {:induction false} EntriesConcat<D>(a: seq<AvlNode<D>>, b: seq<AvlNode<D>>)
    ensures Entries(a + b) == Entries(a) + Entries(b)
  {
    if b == [] {
      assert a + b == a;
    } else {
      var init := b[..|b| - 1];
      EntriesConcat(a, init);
      assert (a + b)[..|a + b| - 1] == a + init;
    }
  }

  /** The nodes of the tree in order, by recursion on the pointers. */
  ghost function NodesOf<D>(n: AvlNode?<D>): seq<AvlNode<D>>
    requires IsTree(n)
    reads n, ReprOf(n)
    decreases ReprOf(n)
  {
    if n == null then [] else NodesOf(n.left) + [n] + NodesOf(n.right)
  }

  /** They carry the in-order entries of the tree, */
  lemma {:induction false} NodesEntries<D>(n: AvlNode?<D>)
    requires IsTree(n)
    ensures Entries(NodesOf(n)) == T.InOrder(TreeOf(n))
    decreases ReprOf(n)
  {
    if n != null {
      NodesEntries(n.left);
      NodesEntries(n.right);
      var l, r := NodesOf(n.left), NodesOf(n.right);
      EntriesConcat(l, [n]);
      EntriesConcat(l + [n], r);
      assert Entries([n]) == [(n.key, n.data)];
    }
  }

  /** belong to the tree, and occur once each. */
  lemma {:induction false} NodesInRepr<D>(n: AvlNode?<D>)
    requires IsTree(n)
    ensures forall x :: x in NodesOf(n) ==> x in ReprOf(n)
    decreases ReprOf(n)
  {
    if n != null {
      NodesInRepr(n.left);
      NodesInRepr(n.right);
    }
  }

  ghost predicate NoneTwice<D>(nodes: seq<AvlNode<D>>) {
    forall i, j :: 0 <= i < j < |nodes| ==> nodes[i] != nodes[j]
  }

  lemma {:induction false} NodesDistinct<D>(n: AvlNode?<D>)
    requires IsTree(n)
    ensures NoneTwice(NodesOf(n))
    decreases ReprOf(n)
  {
    if n != null {
      NodesDistinct(n.left);
      NodesDistinct(n.right);
      NodesInRepr(n.left);
      NodesInRepr(n.right);
      JoinDistinct(NodesOf(n.left), n, NodesOf(n.right));
    }
  }

  lemma JoinDistinct<D>(a: seq<AvlNode<D>>, n: AvlNode<D>, b: seq<AvlNode<D>>)
    requires NoneTwice(a) && NoneTwice(b) && n !in a && n !in b && forall x :: x in a ==> x !in b
    ensures NoneTwice(a + [n] + b)
  {
    var c := a + [n] + b;
    forall i, j | 0 <= i < j < |c| ensures c[i] != c[j] {
      if i < |a| {
        assert c[i] in a && (j > |a| ==> c[j] in b);
      } else {
        assert j > |a| && c[j] == b[j - |a| - 1];
      }
    }
  }

  lemma NodesOfNode<D>(n: AvlNode<D>)
    requires n.Valid()
    ensures IsTree(n.left) && IsTree(n.right) && NodesOf(n) == NodesOf(n.left) + [n] + NodesOf(n.right)
  {
  }

  /** What a stack still has to yield, given the nodes right of each of its nodes: from
      the top, each node and then those. */
  ghost function Pending<D>(stack: seq<AvlNode<D>>, rights: seq<seq<AvlNode<D>>>): seq<AvlNode<D>>
    requires |rights| == |stack|
  {
    if stack == [] then []
    else
      var top := |stack| - 1;
      [stack[top]] + rights[top] + Pending(stack[..top], rights[..top])
  }

  lemma PendingPush<D>(stack: seq<AvlNode<D>>, rights: seq<seq<AvlNode<D>>>, l: seq<AvlNode<D>>, n: AvlNode<D>, r: seq<AvlNode<D>>)
    requires |rights| == |stack|
    ensures l + Pending(stack + [n], rights + [r]) == (l + [n] + r) + Pending(stack, rights)
  {
    assert (stack + [n])[..|stack|] == stack && (rights + [r])[..|stack|] == rights;
  }

  lemma PendingPop<D>(stack: seq<AvlNode<D>>, rights: seq<seq<AvlNode<D>>>)
    requires |rights| == |stack| > 0
    ensures var top := |stack| - 1;
      Pending(stack, rights) == [stack[top]] + (rights[top] + Pending(stack[..top], rights[..top]))
  {
  }

  ghost predicate Stacked<D>(stack: seq<AvlNode<D>>, rights: seq<seq<AvlNode<D>>>)
    reads stack, set n, m | n in stack && m in n.Repr :: m
  {
    |rights| == |stack| && forall i :: 0 <= i < |stack| ==>
      stack[i].Valid() && IsTree(stack[i].right) && rights[i] == NodesOf(stack[i].right)
  }

  lemma PushStacked<D>(stack: seq<AvlNode<D>>, rights: seq<seq<AvlNode<D>>>, n: AvlNode<D>)
    requires Stacked(stack, rights) && n.Valid() && IsTree(n.right)
    ensures Stacked(stack + [n], rights + [NodesOf(n.right)])
  {
  }

  lemma PopStacked<D>(stack: seq<AvlNode<D>>, rights: seq<seq<AvlNode<D>>>)
    requires Stacked(stack, rights) && stack != []
    ensures Stacked(stack[..|stack| - 1], rights[..|stack| - 1])
    ensures var n := stack[|stack| - 1]; IsTree(n.right) && rights[|stack| - 1] == NodesOf(n.right)
  {
  }

  /** The explicit-stack traversal: terminates, and returns the tree's own nodes in order. */
  method AvlGetAll<D>(root: AvlNode?<D>) returns (nodes: seq<AvlNode<D>>)
    requires IsTree(root)
    ensures nodes == NodesOf(root) && NoneTwice(nodes) && (forall n :: n in nodes ==> n in ReprOf(root))
    ensures Entries(nodes) == T.InOrder(TreeOf(root))
  {
    nodes := WalkTree(root);
    NodesEntries(root);
    NodesInRepr(root);
    NodesDistinct(root);
  }

  /** The state of the loop: the nodes yielded, the current subtree and the stack make up
      the whole; todo is how many are still to come. */
  ghost predicate Walking<D>(whole: seq<AvlNode<D>>, nodes: seq<AvlNode<D>>, current: AvlNode?<D>,
                             stack: seq<AvlNode<D>>, rights: seq<seq<AvlNode<D>>>, todo: nat)
    reads current, ReprOf(current), stack, set n, m | n in stack && m in n.Repr :: m
  {
    && IsTree(current) && Stacked(stack, rights)
    && whole == nodes + (NodesOf(current) + Pending(stack, rights)) && |whole| == |nodes| + todo
  }

  lemma WalkPush<D>(whole: seq<AvlNode<D>>, nodes: seq<AvlNode<D>>, current: AvlNode<D>,
                    stack: seq<AvlNode<D>>, rights: seq<seq<AvlNode<D>>>, todo: nat)
    requires Walking(whole, nodes, current, stack, rights, todo)
    ensures IsTree(current.left) && IsTree(current.right) && T.Size(TreeOf(current.left)) < T.Size(TreeOf(current))
    ensures Walking(whole, nodes, current.left, stack + [current], rights + [NodesOf(current.right)], todo)
  {
    NodesOfNode(current);
    PendingPush(stack, rights, NodesOf(current.left), current, NodesOf(current.right));
    PushStacked(stack, rights, current);
  }

  lemma WalkPop<D>(whole: seq<AvlNode<D>>, nodes: seq<AvlNode<D>>,
                   stack: seq<AvlNode<D>>, rights: seq<seq<AvlNode<D>>>, todo: nat)
    requires Walking(whole, nodes, null, stack, rights, todo) && stack != []
    ensures var top := |stack| - 1;
      todo > 0 && Walking(whole, nodes + [stack[top]], stack[top].right, stack[..top], rights[..top], todo - 1)
  {
    var top := |stack| - 1;
    PendingPop(stack, rights);
    PopStacked(stack, rights);
    var rest := rights[top] + Pending(stack[..top], rights[..top]);
    assert nodes + ([stack[top]] + rest) == (nodes + [stack[top]]) + rest;
  }

  lemma WalkStart<D>(root: AvlNode?<D>)
    requires IsTree(root)
    ensures Walking(NodesOf(root), [], root, [], [], |NodesOf(root)|)
  {
  }

  lemma WalkEnd<D>(whole: seq<AvlNode<D>>, nodes: seq<AvlNode<D>>, todo: nat)
    requires Walking(whole, nodes, null, [], [], todo)
    ensures nodes == whole
  {
  }

  /** The loop of AvlGetAll. */
  method WalkTree<D>(root: AvlNode?<D>) returns (nodes: seq<AvlNode<D>>)
    requires IsTree(root)
    ensures nodes == NodesOf(root)
  {
    ghost var whole := NodesOf(root);
    var stack: seq<AvlNode<D>> := [];
    var current := root;
    var done := false;
    nodes := [];
    ghost var rights: seq<seq<AvlNode<D>>>, todo: nat := [], |whole|;
    WalkStart(root);
    while !done
      invariant Walking(whole, nodes, current, stack, rights, todo)
      invariant done ==> nodes == whole
      decreases todo, T.Size(TreeOf(current)), !done
    {
      if current != null {
        WalkPush(whole, nodes, current, stack, rights, todo);
        stack, rights := stack + [current], rights + [NodesOf(current.right)];
        current := current.left;
      } else if |stack| != 0 {
        WalkPop(whole, nodes, stack, rights, todo);
        current := stack[|stack| - 1];
        nodes, todo := nodes + [current], todo - 1;
        stack, rights := stack[..|stack| - 1], rights[..|stack| - 1];
        current := current.right;
      } else {
        WalkEnd(whole, nodes, todo);
        done := true;
      }
    }
  }
}
