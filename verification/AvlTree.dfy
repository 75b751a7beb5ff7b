/** AVL trees as values: what the pointer code of avl.go computes, proved to be a
    balanced search tree that behaves as a finite map. Module Avl refines these
    functions on the heap. */
module AvlTree {
  import opened Wrappers

  datatype Tree<D> =
    | Leaf
    | Node(left: Tree<D>, key: nat, data: D, height: int, right: Tree<D>)

  function Max(a: int, b: int): int {
    if a > b then a else b
  }

  /** The cached height, 0 for the empty tree. */
  function Height<D>(t: Tree<D>): int {
    if t.Leaf? then 0 else t.height
  }

  function BalanceFactor<D>(t: Tree<D>): int {
    if t.Leaf? then 0 else Height(t.left) - Height(t.right)
  }

  /** Rebuilds a node with its height recomputed from the children. */
  function Mk<D>(l: Tree<D>, k: nat, d: D, r: Tree<D>): Tree<D> {
    Node(l, k, d, 1 + Max(Height(l), Height(r)), r)
  }

  function RotateRight<D>(t: Tree<D>): Tree<D>
    requires t.Node? && t.left.Node?
  {
    var y := t.left;
    Mk(y.left, y.key, y.data, Mk(y.right, t.key, t.data, t.right))
  }

  function RotateLeft<D>(t: Tree<D>): Tree<D>
    requires t.Node? && t.right.Node?
  {
    var y := t.right;
    Mk(Mk(t.left, t.key, t.data, y.left), y.key, y.data, y.right)
  }

  // ----- Meaning -------------------------------------------------------------

  ghost function ToMap<D>(t: Tree<D>): map<nat, D> {
    if t.Leaf? then map[] else (ToMap(t.left) + ToMap(t.right))[t.key := t.data]
  }

  ghost predicate Below<D>(t: Tree<D>, k: nat) {
    forall x :: x in ToMap(t) ==> x < k
  }

  ghost predicate Above<D>(t: Tree<D>, k: nat) {
    forall x :: x in ToMap(t) ==> k < x
  }

  /** Search order, exact cached heights, and balance within one, at every node. */
  ghost predicate IsAvl<D>(t: Tree<D>) {
    t.Node? ==>
      && IsAvl(t.left) && IsAvl(t.right)
      && Below(t.left, t.key) && Above(t.right, t.key)
      && t.height == 1 + Max(Height(t.left), Height(t.right))
      && -1 <= BalanceFactor(t) <= 1
  }

  lemma {:induction false} HeightNonNegative<D>(t: Tree<D>)
    requires IsAvl(t)
    ensures Height(t) >= 0
    ensures Height(t) == 0 <==> t.Leaf?
  {
    if t.Node? {
      HeightNonNegative(t.left);
      HeightNonNegative(t.right);
    }
  }

  /** Order and heights as in IsAvl, balance only within two: the shape a node has
      between a change below it and the rotation that repairs it. */
  ghost predicate NearAvl<D>(t: Tree<D>) {
    && t.Node?
    && IsAvl(t.left) && IsAvl(t.right)
    && Below(t.left, t.key) && Above(t.right, t.key)
    && t.height == 1 + Max(Height(t.left), Height(t.right))
    && -2 <= BalanceFactor(t) <= 2
  }

  // ----- Rotations -----------------------------------------------------------

  ghost predicate Ordered<D>(t: Tree<D>) {
    t.Node? ==> Below(t.left, t.key) && Above(t.right, t.key)
  }

  /** Three maps with increasing keys, joined by two entries between them, in either order. */
  lemma JoinEitherWay<D>(a: map<nat, D>, x: nat, dx: D, b: map<nat, D>, y: nat, dy: D, c: map<nat, D>)
    requires forall k :: k in a ==> k < x
    requires forall k :: k in b ==> x < k < y
    requires forall k :: k in c ==> y < k
    requires x < y
    ensures ((a + b)[x := dx] + c)[y := dy] == (a + (b + c)[y := dy])[x := dx]
  {
  }

  lemma NodeKeys<D>(t: Tree<D>)
    requires t.Node?
    ensures t.key in ToMap(t)
    ensures forall x :: x in ToMap(t.left) ==> x in ToMap(t)
    ensures forall x :: x in ToMap(t.right) ==> x in ToMap(t)
  {
  }

  lemma RotateRightKeepsMap<D>(t: Tree<D>)
    requires t.Node? && t.left.Node? && Ordered(t) && Ordered(t.left)
    ensures ToMap(RotateRight(t)) == ToMap(t)
    ensures Ordered(RotateRight(t)) && Ordered(RotateRight(t).right)
  {
    var y := t.left;
    var a, b, c := ToMap(y.left), ToMap(y.right), ToMap(t.right);
    NodeKeys(y);
    assert Below(y, t.key) && Below(y.left, y.key) && Above(y.right, y.key) && Above(t.right, t.key);
    JoinEitherWay(a, y.key, y.data, b, t.key, t.data, c);
  }

  lemma RotateLeftKeepsMap<D>(t: Tree<D>)
    requires t.Node? && t.right.Node? && Ordered(t) && Ordered(t.right)
    ensures ToMap(RotateLeft(t)) == ToMap(t)
    ensures Ordered(RotateLeft(t)) && Ordered(RotateLeft(t).left)
  {
    var y := t.right;
    var a, b, c := ToMap(t.left), ToMap(y.left), ToMap(y.right);
    NodeKeys(y);
    assert Above(y, t.key) && Below(y.left, y.key) && Above(y.right, y.key) && Below(t.left, t.key);
    JoinEitherWay(a, t.key, t.data, b, y.key, y.data, c);
  }

  /** What a repairing rotation must deliver. */
  ghost predicate Repaired<D>(t: Tree<D>, r: Tree<D>, h: int) {
    IsAvl(r) && ToMap(r) == ToMap(t) && Height(r) == h
  }

  lemma SingleRight<D>(t: Tree<D>)
    requires NearAvl(t) && BalanceFactor(t) == 2 && t.left.Node? && BalanceFactor(t.left) >= 0
    ensures Repaired(t, RotateRight(t), t.height - BalanceFactor(t.left))
  {
    RotateRightKeepsMap(t);
    var r := RotateRight(t);
    assert IsAvl(r.right);
  }

  lemma SingleLeft<D>(t: Tree<D>)
    requires NearAvl(t) && BalanceFactor(t) == -2 && t.right.Node? && BalanceFactor(t.right) <= 0
    ensures Repaired(t, RotateLeft(t), t.height + BalanceFactor(t.right))
  {
    RotateLeftKeepsMap(t);
    var r := RotateLeft(t);
    assert IsAvl(r.left);
  }

  function DoubleRotateRight<D>(t: Tree<D>): Tree<D>
    requires t.Node? && t.left.Node? && t.left.right.Node?
  {
    RotateRight(t.(left := RotateLeft(t.left)))
  }

  function DoubleRotateLeft<D>(t: Tree<D>): Tree<D>
    requires t.Node? && t.right.Node? && t.right.left.Node?
  {
    RotateLeft(t.(right := RotateRight(t.right)))
  }

  lemma DoubleRotateRightKeepsMap<D>(t: Tree<D>)
    requires t.Node? && t.left.Node? && t.left.right.Node?
    requires Ordered(t) && Ordered(t.left) && Ordered(t.left.right)
    ensures var r := DoubleRotateRight(t);
      ToMap(r) == ToMap(t) && Ordered(r) && Ordered(r.left) && Ordered(r.right)
  {
    RotateLeftKeepsMap(t.left);
    var u := t.(left := RotateLeft(t.left));
    assert ToMap(u) == ToMap(t);
    RotateRightKeepsMap(u);
  }

  lemma DoubleRotateLeftKeepsMap<D>(t: Tree<D>)
    requires t.Node? && t.right.Node? && t.right.left.Node?
    requires Ordered(t) && Ordered(t.right) && Ordered(t.right.left)
    ensures var r := DoubleRotateLeft(t);
      ToMap(r) == ToMap(t) && Ordered(r) && Ordered(r.left) && Ordered(r.right)
  {
    RotateRightKeepsMap(t.right);
    var u := t.(right := RotateRight(t.right));
    assert ToMap(u) == ToMap(t);
    RotateLeftKeepsMap(u);
  }

  lemma DoubleRight<D>(t: Tree<D>)
    requires NearAvl(t) && BalanceFactor(t) == 2 && t.left.Node? && BalanceFactor(t.left) < 0
    ensures t.left.right.Node? && Repaired(t, DoubleRotateRight(t), t.height - 1)
  {
    HeightNonNegative(t.left.left);
    HeightNonNegative(t.left.right);
    DoubleRotateRightKeepsMap(t);
    var r := DoubleRotateRight(t);
    assert IsAvl(r.left) && IsAvl(r.right);
  }

  lemma DoubleLeft<D>(t: Tree<D>)
    requires NearAvl(t) && BalanceFactor(t) == -2 && t.right.Node? && BalanceFactor(t.right) > 0
    ensures t.right.left.Node? && Repaired(t, DoubleRotateLeft(t), t.height - 1)
  {
    HeightNonNegative(t.right.left);
    HeightNonNegative(t.right.right);
    DoubleRotateLeftKeepsMap(t);
    var r := DoubleRotateLeft(t);
    assert IsAvl(r.left) && IsAvl(r.right);
  }

  // ----- Insertion -----------------------------------------------------------

  /** The four rotation cases of AvlInsert, chosen by comparing keys. Where the
      pointer code would follow a nil child this function leaves the tree alone;
      Avl.AvlInsert proves that such a child is never met. */
  function RebalanceByKey<D>(t: Tree<D>, k: nat): Tree<D>
    requires t.Node?
  {
    var bf := BalanceFactor(t);
    if bf > 1 && t.left.Node? && k < t.left.key then
      RotateRight(t)
    else if bf > 1 && t.left.Node? && k > t.left.key && t.left.right.Node? then
      DoubleRotateRight(t)
    else if bf < -1 && t.right.Node? && k > t.right.key then
      RotateLeft(t)
    else if bf < -1 && t.right.Node? && k < t.right.key && t.right.left.Node? then
      DoubleRotateLeft(t)
    else
      t
  }

  function Insert<D>(t: Tree<D>, k: nat, d: D, overwrite: bool): Tree<D> {
    if t.Leaf? then
      Node(Leaf, k, d, 1, Leaf)
    else if k == t.key then
      if overwrite then t.(data := d) else t
    else if k < t.key then
      RebalanceByKey(Mk(Insert(t.left, k, d, overwrite), t.key, t.data, t.right), k)
    else
      RebalanceByKey(Mk(t.left, t.key, t.data, Insert(t.right, k, d, overwrite)), k)
  }

  /** What a finite map does on insert: an existing entry changes only if overwrite. */
  ghost function MapInsert<D>(m: map<nat, D>, k: nat, d: D, overwrite: bool): map<nat, D> {
    if k in m && !overwrite then m else m[k := d]
  }

  /** After an insert of k that made the tree taller, k went into the taller side.
      This is what makes the comparison of keys pick the right rotation. */
  ghost predicate GrewTowards<D>(before: Tree<D>, after: Tree<D>, k: nat) {
    && after.Node?
    && Height(before) <= Height(after) <= Height(before) + 1
    && (Height(after) == Height(before) + 1 && before.Node? ==> Leans(after, k))
  }

  /** k's side of t agrees with the taller side of t. */
  ghost predicate Leans<D>(t: Tree<D>, k: nat) {
    t.Node? && ((k < t.key && BalanceFactor(t) == 1) || (k > t.key && BalanceFactor(t) == -1))
  }

  /** A node whose subtree on k's side has just grown: rotating by key comparison
      restores balance and keeps the map. */
  lemma RebalanceAfterGrowth<D>(t: Tree<D>, k: nat)
    requires NearAvl(t)
    requires BalanceFactor(t) == 2 ==> Leans(t.left, k)
    requires BalanceFactor(t) == -2 ==> Leans(t.right, k)
    ensures Repaired(t, RebalanceByKey(t, k), if -1 <= BalanceFactor(t) <= 1 then t.height else t.height - 1)
    ensures -1 <= BalanceFactor(t) <= 1 ==> RebalanceByKey(t, k) == t
  {
    if BalanceFactor(t) == 2 {
      if k < t.left.key { SingleRight(t); } else { DoubleRight(t); }
    } else if BalanceFactor(t) == -2 {
      if k > t.right.key { SingleLeft(t); } else { DoubleLeft(t); }
    }
  }

  /** AvlInsert refines finite-map insert and keeps every AVL invariant. */
  lemma {:induction false} InsertRefinesMap<D>(t: Tree<D>, k: nat, d: D, overwrite: bool)
    requires IsAvl(t)
    ensures IsAvl(Insert(t, k, d, overwrite))
    ensures ToMap(Insert(t, k, d, overwrite)) == MapInsert(ToMap(t), k, d, overwrite)
    ensures GrewTowards(t, Insert(t, k, d, overwrite), k)
  {
    if t.Leaf? || k == t.key {
    } else if k < t.key {
      InsertRefinesMap(t.left, k, d, overwrite);
      InsertLeft(t, Insert(t.left, k, d, overwrite), k, d, overwrite);
    } else {
      InsertRefinesMap(t.right, k, d, overwrite);
      InsertRight(t, Insert(t.right, k, d, overwrite), k, d, overwrite);
    }
  }

  /** The child and grandchild that the rotation chosen for k dereferences exist. */
  ghost predicate RotatableByKey<D>(t: Tree<D>, k: nat) {
    && t.Node?
    && (BalanceFactor(t) > 1 ==> t.left.Node? && (k > t.left.key ==> t.left.right.Node?))
    && (BalanceFactor(t) < -1 ==> t.right.Node? && (k < t.right.key ==> t.right.left.Node?))
  }

  /** AvlInsert never follows a nil pointer while rotating. */
  lemma InsertIsRotatable<D>(t: Tree<D>, k: nat, d: D, overwrite: bool)
    requires IsAvl(t) && t.Node? && k != t.key
    ensures k < t.key ==> RotatableByKey(Mk(Insert(t.left, k, d, overwrite), t.key, t.data, t.right), k)
    ensures k > t.key ==> RotatableByKey(Mk(t.left, t.key, t.data, Insert(t.right, k, d, overwrite)), k)
  {
    HeightNonNegative(t.left);
    HeightNonNegative(t.right);
    var c := if k < t.key then t.left else t.right;
    var c' := Insert(c, k, d, overwrite);
    InsertRefinesMap(c, k, d, overwrite);
    HeightNonNegative(c'.left);
    HeightNonNegative(c'.right);
  }

  lemma InsertLeftMap<D>(t: Tree<D>, l: Tree<D>, k: nat, d: D, overwrite: bool)
    requires t.Node? && Ordered(t) && k < t.key
    requires ToMap(l) == MapInsert(ToMap(t.left), k, d, overwrite)
    ensures var m := Mk(l, t.key, t.data, t.right);
      Ordered(m) && ToMap(m) == MapInsert(ToMap(t), k, d, overwrite)
  {
  }

  lemma InsertRightMap<D>(t: Tree<D>, r: Tree<D>, k: nat, d: D, overwrite: bool)
    requires t.Node? && Ordered(t) && t.key < k
    requires ToMap(r) == MapInsert(ToMap(t.right), k, d, overwrite)
    ensures var m := Mk(t.left, t.key, t.data, r);
      Ordered(m) && ToMap(m) == MapInsert(ToMap(t), k, d, overwrite)
  {
  }

  lemma InsertLeft<D>(t: Tree<D>, l: Tree<D>, k: nat, d: D, overwrite: bool)
    requires IsAvl(t) && t.Node? && k < t.key && IsAvl(l)
    requires ToMap(l) == MapInsert(ToMap(t.left), k, d, overwrite) && GrewTowards(t.left, l, k)
    ensures var u := RebalanceByKey(Mk(l, t.key, t.data, t.right), k);
      && IsAvl(u) && ToMap(u) == MapInsert(ToMap(t), k, d, overwrite) && GrewTowards(t, u, k)
  {
    var m := Mk(l, t.key, t.data, t.right);
    HeightNonNegative(t.left);
    HeightNonNegative(t.right);
    InsertLeftMap(t, l, k, d, overwrite);
    RebalanceAfterGrowth(m, k);
  }

  lemma InsertRight<D>(t: Tree<D>, r: Tree<D>, k: nat, d: D, overwrite: bool)
    requires IsAvl(t) && t.Node? && t.key < k && IsAvl(r)
    requires ToMap(r) == MapInsert(ToMap(t.right), k, d, overwrite) && GrewTowards(t.right, r, k)
    ensures var u := RebalanceByKey(Mk(t.left, t.key, t.data, r), k);
      && IsAvl(u) && ToMap(u) == MapInsert(ToMap(t), k, d, overwrite) && GrewTowards(t, u, k)
  {
    var m := Mk(t.left, t.key, t.data, r);
    HeightNonNegative(t.left);
    HeightNonNegative(t.right);
    InsertRightMap(t, r, k, d, overwrite);
    RebalanceAfterGrowth(m, k);
  }

  // ----- Search --------------------------------------------------------------

  function Search<D>(t: Tree<D>, k: nat): Option<D> {
    if t.Leaf? then None
    else if t.key == k then Some(t.data)
    else if t.key > k then Search(t.left, k)
    else Search(t.right, k)
  }

  /** AvlSearch is map lookup. */
  lemma {:induction false} SearchIsLookup<D>(t: Tree<D>, k: nat)
    requires IsAvl(t)
    ensures Search(t, k) == if k in ToMap(t) then Some(ToMap(t)[k]) else None
  {
    if t.Node? {
      SearchIsLookup(t.left, k);
      SearchIsLookup(t.right, k);
    }
  }

  // ----- Deletion ------------------------------------------------------------

  /** The leftmost key: where the loop of AvlDelete ends in the two-children case. */
  function MinKey<D>(t: Tree<D>): nat
    requires t.Node?
  {
    if t.left.Leaf? then t.key else MinKey(t.left)
  }

  /** The tail of AvlDelete: recompute the height, then rotate by balance factors. */
  function Fix<D>(t: Tree<D>): Tree<D> {
    if t.Leaf? then Leaf else RebalanceByFactor(Mk(t.left, t.key, t.data, t.right))
  }

  function RebalanceByFactor<D>(t: Tree<D>): Tree<D>
    requires t.Node?
  {
    var bf := BalanceFactor(t);
    if bf > 1 && t.left.Node? && BalanceFactor(t.left) >= 0 then
      RotateRight(t)
    else if bf > 1 && t.left.Node? && BalanceFactor(t.left) < 0 && t.left.right.Node? then
      DoubleRotateRight(t)
    else if bf < -1 && t.right.Node? && BalanceFactor(t.right) <= 0 then
      RotateLeft(t)
    else if bf < -1 && t.right.Node? && BalanceFactor(t.right) > 0 && t.right.left.Node? then
      DoubleRotateLeft(t)
    else
      t
  }

  function Delete<D>(t: Tree<D>, k: nat): Tree<D> {
    if t.Leaf? then Leaf
    else if k < t.key then Fix(t.(left := Delete(t.left, k)))
    else if k > t.key then Fix(t.(right := Delete(t.right, k)))
    else if t.left.Leaf? then Fix(t.right)
    else if t.right.Leaf? then Fix(t.left)
    else Fix(t.(key := MinKey(t.right), right := Delete(t.right, MinKey(t.right))))
  }

  lemma FixRepairs<D>(t: Tree<D>, h: int)
    requires t.Node? && IsAvl(t.left) && IsAvl(t.right) && Ordered(t)
    requires -2 <= BalanceFactor(t) <= 2
    requires h == 1 + Max(Height(t.left), Height(t.right))
    ensures IsAvl(Fix(t)) && ToMap(Fix(t)) == ToMap(t)
    ensures h - 1 <= Height(Fix(t)) <= h
    ensures -1 <= BalanceFactor(t) <= 1 ==> Height(Fix(t)) == h
  {
    var m := Mk(t.left, t.key, t.data, t.right);
    HeightNonNegative(t.left);
    HeightNonNegative(t.right);
    assert ToMap(m) == ToMap(t);
    if BalanceFactor(m) == 2 {
      if BalanceFactor(m.left) >= 0 { SingleRight(m); } else { DoubleRight(m); }
    } else if BalanceFactor(m) == -2 {
      if BalanceFactor(m.right) <= 0 { SingleLeft(m); } else { DoubleLeft(m); }
    }
  }

  lemma FixOfAvl<D>(t: Tree<D>)
    requires IsAvl(t)
    ensures Fix(t) == t
  {
  }

  lemma {:induction false} MinKeyIsLeast<D>(t: Tree<D>)
    requires IsAvl(t) && t.Node?
    ensures MinKey(t) in ToMap(t)
    ensures forall x :: x in ToMap(t) ==> MinKey(t) <= x
  {
    if t.left.Node? {
      MinKeyIsLeast(t.left);
    }
  }

  /** The subtree rooted at key k, empty when k is absent. */
  function SubtreeAt<D>(t: Tree<D>, k: nat): Tree<D> {
    if t.Leaf? then Leaf
    else if k < t.key then SubtreeAt(t.left, k)
    else if k > t.key then SubtreeAt(t.right, k)
    else t
  }

  predicate HasTwoChildren<D>(t: Tree<D>) {
    t.Node? && t.left.Node? && t.right.Node?
  }

  /** What AvlDelete does to the map. With two children the successor's key is
      moved up but its data is not: the successor ends up with the deleted data. */
  ghost function MapDelete<D>(t: Tree<D>, k: nat): map<nat, D> {
    var n := SubtreeAt(t, k);
    if HasTwoChildren(n) then (ToMap(t) - {k})[MinKey(n.right) := n.data] else ToMap(t) - {k}
  }

  lemma {:induction false} SubtreeAtIsNode<D>(t: Tree<D>, k: nat)
    requires IsAvl(t)
    ensures IsAvl(SubtreeAt(t, k))
    ensures SubtreeAt(t, k).Node? <==> k in ToMap(t)
    ensures k in ToMap(t) ==> SubtreeAt(t, k).key == k && SubtreeAt(t, k).data == ToMap(t)[k]
    ensures forall x :: x in ToMap(SubtreeAt(t, k)) ==> x in ToMap(t) && ToMap(SubtreeAt(t, k))[x] == ToMap(t)[x]
  {
    if t.Node? {
      SubtreeAtIsNode(t.left, k);
      SubtreeAtIsNode(t.right, k);
    }
  }

  ghost predicate Shrunk<D>(before: Tree<D>, after: Tree<D>) {
    Height(before) - 1 <= Height(after) <= Height(before)
  }

  /** u is what deleting k must leave of t. */
  ghost predicate Deleted<D>(t: Tree<D>, k: nat, u: Tree<D>) {
    IsAvl(u) && Shrunk(t, u) && ToMap(u) == MapDelete(t, k) && ToMap(u).Keys == ToMap(t).Keys - {k}
  }

  lemma DeletedLeft<D>(t: Tree<D>, k: nat)
    requires IsAvl(t) && t.Node? && k < t.key && Deleted(t.left, k, Delete(t.left, k))
    ensures Deleted(t, k, Delete(t, k))
  {
    DeleteLeft(t, Delete(t.left, k), k);
  }

  lemma DeletedRight<D>(t: Tree<D>, k: nat)
    requires IsAvl(t) && t.Node? && k > t.key && Deleted(t.right, k, Delete(t.right, k))
    ensures Deleted(t, k, Delete(t, k))
  {
    DeleteRight(t, Delete(t.right, k), k);
  }

  lemma DeletedHere<D>(t: Tree<D>)
    requires IsAvl(t) && t.Node?
    requires HasTwoChildren(t) ==> Deleted(t.right, MinKey(t.right), Delete(t.right, MinKey(t.right)))
    ensures Deleted(t, t.key, Delete(t, t.key))
  {
    if HasTwoChildren(t) {
      DeleteInner(t);
    } else {
      DeleteLone(t);
    }
  }

  lemma {:induction false} DeleteDoes<D>(t: Tree<D>, k: nat)
    requires IsAvl(t)
    ensures Deleted(t, k, Delete(t, k))
  {
    if t.Node? {
      if k < t.key {
        DeleteDoes(t.left, k);
        DeletedLeft(t, k);
      } else if k > t.key {
        DeleteDoes(t.right, k);
        DeletedRight(t, k);
      } else {
        if HasTwoChildren(t) {
          DeleteDoes(t.right, MinKey(t.right));
        }
        DeletedHere(t);
      }
    }
  }

  /** AvlDelete keeps the AVL invariants, loses at most one level, and its effect
      on the map is exactly MapDelete. */
  lemma DeleteEffect<D>(t: Tree<D>, k: nat)
    requires IsAvl(t)
    ensures IsAvl(Delete(t, k)) && Shrunk(t, Delete(t, k))
    ensures ToMap(Delete(t, k)) == MapDelete(t, k)
    ensures ToMap(Delete(t, k)).Keys == ToMap(t).Keys - {k}
  {
    DeleteDoes(t, k);
  }

  lemma DeleteInner<D>(t: Tree<D>)
    requires IsAvl(t) && HasTwoChildren(t)
    requires var r := Delete(t.right, MinKey(t.right));
      IsAvl(r) && Shrunk(t.right, r) && ToMap(r) == MapDelete(t.right, MinKey(t.right))
    ensures IsAvl(Delete(t, t.key)) && Shrunk(t, Delete(t, t.key))
    ensures ToMap(Delete(t, t.key)) == MapDelete(t, t.key)
    ensures ToMap(Delete(t, t.key)).Keys == ToMap(t).Keys - {t.key}
  {
    MinKeyHasNoLeft(t.right);
    DeleteHere(t, Delete(t.right, MinKey(t.right)));
  }

  ghost predicate RotatableByFactor<D>(t: Tree<D>) {
    && t.Node?
    && (BalanceFactor(t) > 1 ==> t.left.Node? && (BalanceFactor(t.left) < 0 ==> t.left.right.Node?))
    && (BalanceFactor(t) < -1 ==> t.right.Node? && (BalanceFactor(t.right) > 0 ==> t.right.left.Node?))
  }

  lemma ChildrenAvlAreRotatable<D>(t: Tree<D>)
    requires t.Node? && IsAvl(t.left) && IsAvl(t.right)
    ensures RotatableByFactor(t)
  {
    HeightNonNegative(t.left);
    HeightNonNegative(t.right);
    if t.left.Node? { HeightNonNegative(t.left.left); HeightNonNegative(t.left.right); }
    if t.right.Node? { HeightNonNegative(t.right.left); HeightNonNegative(t.right.right); }
  }

  lemma DeleteLone<D>(t: Tree<D>)
    requires IsAvl(t) && t.Node? && (t.left.Leaf? || t.right.Leaf?)
    ensures IsAvl(Delete(t, t.key)) && Shrunk(t, Delete(t, t.key))
    ensures ToMap(Delete(t, t.key)) == ToMap(t) - {t.key}
    ensures ToMap(Delete(t, t.key)).Keys == ToMap(t).Keys - {t.key}
  {
    FixOfAvl(t.left);
    FixOfAvl(t.right);
    HeightNonNegative(t.left);
    HeightNonNegative(t.right);
  }

  lemma MovedKeyIsPresent<D>(t: Tree<D>, k: nat)
    requires IsAvl(t) && HasTwoChildren(SubtreeAt(t, k))
    ensures MinKey(SubtreeAt(t, k).right) in ToMap(t)
  {
    SubtreeAtIsNode(t, k);
    MinKeyIsLeast(SubtreeAt(t, k).right);
    assert MinKey(SubtreeAt(t, k).right) in ToMap(SubtreeAt(t, k));
  }

  /** Removing k commutes with joining disjoint maps, */
  lemma RemoveCommutes<D>(a: map<nat, D>, b: map<nat, D>, key: nat, data: D, k: nat)
    requires k != key && k !in b
    ensures ((a - {k}) + b)[key := data] == (a + b)[key := data] - {k}
    ensures (b + (a - {k}))[key := data] == (b + a)[key := data] - {k}
  {
  }

  /** and so does re-mapping s. */
  lemma RemapCommutes<D>(a: map<nat, D>, b: map<nat, D>, key: nat, data: D, s: nat, d: D)
    requires s != key && s !in b
    ensures (a[s := d] + b)[key := data] == (a + b)[key := data][s := d]
    ensures (b + a[s := d])[key := data] == (b + a)[key := data][s := d]
  {
  }

  /** The key AvlDelete may re-map under t, or k itself when it re-maps none. */
  ghost function MovedKey<D>(t: Tree<D>, k: nat): nat {
    var n := SubtreeAt(t, k);
    if HasTwoChildren(n) then MinKey(n.right) else k
  }

  lemma DeleteLeftMap<D>(t: Tree<D>, l: Tree<D>, k: nat)
    requires t.Node? && Ordered(t) && k < t.key
    requires ToMap(l) == MapDelete(t.left, k) && ToMap(l).Keys == ToMap(t.left).Keys - {k}
    requires MovedKey(t.left, k) != k ==> MovedKey(t.left, k) in ToMap(t.left)
    ensures var u := t.(left := l);
      && Ordered(u) && ToMap(u) == MapDelete(t, k)
      && ToMap(u).Keys == ToMap(t).Keys - {k}
  {
    var n := SubtreeAt(t.left, k);
    var d := if n.Node? then n.data else t.data;
    RemoveCommutes(ToMap(t.left), ToMap(t.right), t.key, t.data, k);
    RemapCommutes(ToMap(t.left) - {k}, ToMap(t.right), t.key, t.data, MovedKey(t.left, k), d);
  }

  lemma DeleteRightMap<D>(t: Tree<D>, r: Tree<D>, k: nat)
    requires t.Node? && Ordered(t) && t.key < k
    requires ToMap(r) == MapDelete(t.right, k) && ToMap(r).Keys == ToMap(t.right).Keys - {k}
    requires MovedKey(t.right, k) != k ==> MovedKey(t.right, k) in ToMap(t.right)
    ensures var u := t.(right := r);
      && Ordered(u) && ToMap(u) == MapDelete(t, k)
      && ToMap(u).Keys == ToMap(t).Keys - {k}
  {
    var n := SubtreeAt(t.right, k);
    var d := if n.Node? then n.data else t.data;
    RemoveCommutes(ToMap(t.right), ToMap(t.left), t.key, t.data, k);
    RemapCommutes(ToMap(t.right) - {k}, ToMap(t.left), t.key, t.data, MovedKey(t.right, k), d);
  }

  lemma DeleteLeft<D>(t: Tree<D>, l: Tree<D>, k: nat)
    requires IsAvl(t) && t.Node? && k < t.key && IsAvl(l) && Shrunk(t.left, l)
    requires ToMap(l) == MapDelete(t.left, k) && ToMap(l).Keys == ToMap(t.left).Keys - {k}
    ensures var u := Fix(t.(left := l));
      && IsAvl(u) && Shrunk(t, u) && ToMap(u) == MapDelete(t, k)
      && ToMap(u).Keys == ToMap(t).Keys - {k}
  {
    if HasTwoChildren(SubtreeAt(t.left, k)) {
      MovedKeyIsPresent(t.left, k);
    }
    DeleteLeftMap(t, l, k);
    FixRepairs(t.(left := l), 1 + Max(Height(l), Height(t.right)));
  }

  lemma DeleteRight<D>(t: Tree<D>, r: Tree<D>, k: nat)
    requires IsAvl(t) && t.Node? && t.key < k && IsAvl(r) && Shrunk(t.right, r)
    requires ToMap(r) == MapDelete(t.right, k) && ToMap(r).Keys == ToMap(t.right).Keys - {k}
    ensures var u := Fix(t.(right := r));
      && IsAvl(u) && Shrunk(t, u) && ToMap(u) == MapDelete(t, k)
      && ToMap(u).Keys == ToMap(t).Keys - {k}
  {
    if HasTwoChildren(SubtreeAt(t.right, k)) {
      MovedKeyIsPresent(t.right, k);
    }
    DeleteRightMap(t, r, k);
    FixRepairs(t.(right := r), 1 + Max(Height(t.left), Height(r)));
  }

  lemma {:induction false} MinKeyHasNoLeft<D>(t: Tree<D>)
    requires IsAvl(t) && t.Node?
    ensures !HasTwoChildren(SubtreeAt(t, MinKey(t)))
  {
    if t.left.Node? {
      MinKeyIsLeast(t.left);
      MinKeyHasNoLeft(t.left);
    }
  }

  lemma DeleteHereMap<D>(t: Tree<D>, r: Tree<D>, s: nat)
    requires t.Node? && Ordered(t) && s in ToMap(t.right)
    requires forall x :: x in ToMap(t.right) ==> s <= x
    requires ToMap(r) == ToMap(t.right) - {s}
    ensures var u := t.(key := s, right := r);
      && Ordered(u) && ToMap(u) == (ToMap(t) - {t.key})[s := t.data]
      && ToMap(u).Keys == ToMap(t).Keys - {t.key}
  {
    var u := t.(key := s, right := r);
    assert ToMap(u) == (ToMap(t.left) + (ToMap(t.right) - {s}))[s := t.data];
    assert ToMap(t) - {t.key} == ToMap(t.left) + ToMap(t.right);
  }

  lemma DeleteHere<D>(t: Tree<D>, r: Tree<D>)
    requires IsAvl(t) && HasTwoChildren(t) && IsAvl(r) && Shrunk(t.right, r)
    requires ToMap(r) == ToMap(t.right) - {MinKey(t.right)}
    ensures var s := MinKey(t.right); var u := Fix(t.(key := s, right := r));
      && IsAvl(u) && Shrunk(t, u) && ToMap(u) == (ToMap(t) - {t.key})[s := t.data]
      && ToMap(u).Keys == ToMap(t).Keys - {t.key}
  {
    var s := MinKey(t.right);
    MinKeyIsLeast(t.right);
    DeleteHereMap(t, r, s);
    FixRepairs(t.(key := s, right := r), 1 + Max(Height(t.left), Height(r)));
  }

  /** The key AvlDelete moves up is the in-order successor of the deleted key. */
  lemma SuccessorOf<D>(t: Tree<D>, k: nat)
    requires IsAvl(t) && HasTwoChildren(SubtreeAt(t, k))
    ensures var s := MinKey(SubtreeAt(t, k).right);
      && s in ToMap(t) && k < s
      && forall x :: x in ToMap(t) && k < x ==> s <= x
  {
    SubtreeAtIsNode(t, k);
    MinKeyIsLeast(SubtreeAt(t, k).right);
    MovedKeyIsPresent(t, k);
    SuccessorIsLeast(t, k);
  }

  lemma {:induction false} SuccessorIsLeast<D>(t: Tree<D>, k: nat)
    requires IsAvl(t) && HasTwoChildren(SubtreeAt(t, k))
    ensures forall x :: x in ToMap(t) && k < x ==> MinKey(SubtreeAt(t, k).right) <= x
  {
    if k < t.key {
      SuccessorIsLeast(t.left, k);
      MovedKeyIsPresent(t.left, k);
    } else if k > t.key {
      SuccessorIsLeast(t.right, k);
    } else {
      MinKeyIsLeast(t.right);
    }
  }

  /** AvlDelete is finite-map removal exactly when the deleted node has at most
      one child, or its successor happens to carry equal data. */
  lemma DeleteIsRemovalIff<D>(t: Tree<D>, k: nat)
    requires IsAvl(t)
    ensures var n := SubtreeAt(t, k);
      ToMap(Delete(t, k)) == ToMap(t) - {k} <==>
      (HasTwoChildren(n) ==> Search(t, MinKey(n.right)) == Some(n.data))
  {
    DeleteEffect(t, k);
    var n := SubtreeAt(t, k);
    if HasTwoChildren(n) {
      var s := MinKey(n.right);
      SuccessorOf(t, k);
      SearchIsLookup(t, s);
      assert ToMap(Delete(t, k))[s] == n.data;
    }
  }

  /** Three inserts and one delete after which a key that was not deleted has lost
      its data. */
  lemma DeleteLosesData()
    ensures var t := Insert(Insert(Insert(Leaf, 2, 'b', false), 1, 'a', false), 3, 'c', false);
      Search(t, 3) == Some('c') && Search(Delete(t, 2), 3) == Some('b')
  {
    var l := Node(Leaf, 1, 'a', 1, Leaf);
    var r := Node(Leaf, 3, 'c', 1, Leaf);
    assert Insert(Insert(Leaf, 2, 'b', false), 1, 'a', false) == Node(l, 2, 'b', 2, Leaf);
    var t := Node(l, 2, 'b', 2, r);
    assert Insert(Node(l, 2, 'b', 2, Leaf), 3, 'c', false) == t;
    assert Delete(r, 3) == Leaf;
    assert Delete(t, 2) == Node(l, 3, 'b', 2, Leaf);
  }

  // ----- In-order traversal and height bound -----------------------------------

  ghost function InOrder<D>(t: Tree<D>): seq<(nat, D)> {
    if t.Leaf? then [] else InOrder(t.left) + [(t.key, t.data)] + InOrder(t.right)
  }

  ghost predicate StrictlyIncreasing<D>(s: seq<(nat, D)>) {
    forall i, j :: 0 <= i < j < |s| ==> s[i].0 < s[j].0
  }

  /** The in-order sequence lists exactly the entries of the map. */
  lemma {:induction false} InOrderIsMap<D>(t: Tree<D>)
    requires IsAvl(t)
    ensures forall e :: e in InOrder(t) <==> e.0 in ToMap(t) && ToMap(t)[e.0] == e.1
  {
    if t.Node? {
      InOrderIsMap(t.left);
      InOrderIsMap(t.right);
    }
  }

  /** ... in strictly increasing key order, so each entry occurs once. */
  lemma {:induction false} InOrderIsSorted<D>(t: Tree<D>)
    requires IsAvl(t)
    ensures StrictlyIncreasing(InOrder(t))
  {
    if t.Node? {
      InOrderIsSorted(t.left);
      InOrderIsSorted(t.right);
      KeysBounded(t.left);
      KeysBounded(t.right);
      JoinIncreasing(InOrder(t.left), (t.key, t.data), InOrder(t.right));
    }
  }

  lemma {:induction false} KeysBounded<D>(t: Tree<D>)
    ensures forall i :: 0 <= i < |InOrder(t)| ==> InOrder(t)[i].0 in ToMap(t)
  {
    if t.Node? {
      KeysBounded(t.left);
      KeysBounded(t.right);
    }
  }

  lemma JoinIncreasing<D>(a: seq<(nat, D)>, x: (nat, D), b: seq<(nat, D)>)
    requires StrictlyIncreasing(a) && StrictlyIncreasing(b)
    requires forall i :: 0 <= i < |a| ==> a[i].0 < x.0
    requires forall i :: 0 <= i < |b| ==> x.0 < b[i].0
    ensures StrictlyIncreasing(a + [x] + b)
  {
  }

  ghost function Size<D>(t: Tree<D>): nat {
    if t.Leaf? then 0 else Size(t.left) + 1 + Size(t.right)
  }

  function Fib(n: nat): nat {
    if n < 2 then n else Fib(n - 1) + Fib(n - 2)
  }

  lemma {:induction false} FibMonotone(m: nat, n: nat)
    requires m <= n
    ensures Fib(m) <= Fib(n)
    decreases n
  {
    if m < n && n >= 2 {
      FibMonotone(if m <= n - 1 then m else n - 1, n - 1);
    }
  }

  function Pow2(n: nat): nat {
    if n == 0 then 1 else 2 * Pow2(n - 1)
  }

  /** Fibonacci numbers at least double every second step. */
  lemma {:induction false} FibIsExponential(n: nat)
    ensures Pow2(n / 2) <= Fib(n + 2)
  {
    if n >= 2 {
      FibIsExponential(n - 2);
      FibMonotone(n, n + 1);
      assert (n - 2) / 2 == n / 2 - 1;
    }
  }

  lemma {:induction false} AvlSizeBound<D>(t: Tree<D>)
    requires IsAvl(t)
    ensures Height(t) >= 0
    ensures Size(t) + 1 >= Fib(Height(t) + 2)
  {
    HeightNonNegative(t);
    if t.Node? {
      var h := Height(t);
      HeightNonNegative(t.left);
      HeightNonNegative(t.right);
      AvlSizeBound(t.left);
      AvlSizeBound(t.right);
      FibMonotone(h, Height(t.left) + 2);
      FibMonotone(h, Height(t.right) + 2);
      assert Fib(h + 2) == Fib(h + 1) + Fib(h);
    }
  }

  // ----- Whole histories -------------------------------------------------------

  datatype Op<D> = Ins(key: nat, data: D, overwrite: bool) | Del(key: nat)

  function Replay<D>(ops: seq<Op<D>>): Tree<D> {
    if ops == [] then Leaf
    else
      var t := Replay(ops[..|ops| - 1]);
      match ops[|ops| - 1]
      case Ins(k, d, overwrite) => Insert(t, k, d, overwrite)
      case Del(k) => Delete(t, k)
  }

  ghost function KeysAfter<D>(ops: seq<Op<D>>): set<nat> {
    if ops == [] then {}
    else
      var ks := KeysAfter(ops[..|ops| - 1]);
      match ops[|ops| - 1]
      case Ins(k, _, _) => ks + {k}
      case Del(k) => ks - {k}
  }

  /** Any sequence of inserts and deletes leaves a balanced tree holding exactly the
      keys inserted and not deleted since, with a Fibonacci bound on its height. */
  lemma {:induction false} EveryHistoryIsBalanced<D>(ops: seq<Op<D>>)
    ensures IsAvl(Replay(ops))
    ensures ToMap(Replay(ops)).Keys == KeysAfter(ops)
    ensures Height(Replay(ops)) >= 0
    ensures |KeysAfter(ops)| + 1 >= Fib(Height(Replay(ops)) + 2) >= Pow2(Height(Replay(ops)) / 2)
  {
    HistoryInvariant(ops);
    AvlSizeBound(Replay(ops));
    SizeIsCount(Replay(ops));
    FibIsExponential(Height(Replay(ops)));
  }

  lemma {:induction false} HistoryInvariant<D>(ops: seq<Op<D>>)
    ensures IsAvl(Replay(ops))
    ensures ToMap(Replay(ops)).Keys == KeysAfter(ops)
  {
    if ops != [] {
      HistoryInvariant(ops[..|ops| - 1]);
      var t := Replay(ops[..|ops| - 1]);
      match ops[|ops| - 1] {
        case Ins(k, d, overwrite) => InsertRefinesMap(t, k, d, overwrite);
        case Del(k) => DeleteEffect(t, k);
      }
    }
  }

  lemma {:induction false} SizeIsCount<D>(t: Tree<D>)
    requires IsAvl(t)
    ensures Size(t) == |ToMap(t).Keys|
  {
    if t.Node? {
      SizeIsCount(t.left);
      SizeIsCount(t.right);
      var a, b := ToMap(t.left).Keys, ToMap(t.right).Keys;
      assert ToMap(t).Keys == a + b + {t.key};
      assert a !! b && t.key !in a + b;
      assert |a + b| == |a| + |b|;
    }
  }
}
