/**
 * The plain, unbalanced binary search tree of BinarySearchTree.hpp.
 * A node owns its two subtrees; every operation on a slot is a function
 * returning what the slot holds afterwards.
 */
module BinarySearchTree {
  import opened Bindings

  /** BSTNode: an empty slot, or a key, its value and two owned subtrees. */
  datatype Tree<V> = Nil | Node(left: Tree<V>, key: int, value: V, right: Tree<V>)

  /** The bindings of a tree, left to right. */
  ghost function Inorder<V>(t: Tree<V>): seq<Binding<V>> {
    match t
    case Nil => []
    case Node(l, k, v, r) => Inorder(l) + [Binding(k, v)] + Inorder(r)
  }

  /** The search-tree ordering: in-order keys strictly increase. */
  ghost predicate Ordered<V>(t: Tree<V>) {
    StrictlySorted(Inorder(t))
  }

  /** size: the number of nodes, counted recursively. */
  function Size<V>(t: Tree<V>): (n: nat)
    ensures n == |Inorder(t)|
  {
    if t.Nil? then 0 else 1 + Size(t.left) + Size(t.right)
  }

  /**
   * insert: an empty slot receives a new node; otherwise descend right for a
   * larger key, left for a smaller one, and overwrite key and value in place
   * for an equal one.
   */
  function Insert<V>(t: Tree<V>, k: int, v: V): (r: Tree<V>)
    ensures r.Node?
    ensures Ordered(t) ==> Ordered(r) && Inorder(r) == InsertSorted(Inorder(t), k, v)
  {
    match t
    case Nil => Node(Nil, k, v, Nil)
    case Node(l, x, y, rt) =>
      InsertSortedAround(Inorder(l), Binding(x, y), Inorder(rt), k, v);
      if k > x then Node(l, x, y, Insert(rt, k, v))
      else if k < x then Node(Insert(l, k, v), x, y, rt)
      else Node(l, k, v, rt)
  }

  /**
   * search: nothing in an empty slot; otherwise descend right for a larger
   * key, left for a smaller one, and return the stored value for an equal one.
   */
  function Search<V>(t: Tree<V>, k: int): (r: Option<V>)
    ensures Ordered(t) ==> r == Lookup(Inorder(t), k)
  {
    match t
    case Nil => None
    case Node(l, x, y, rt) =>
      LookupAround(Inorder(l), Binding(x, y), Inorder(rt), k);
      if k > x then Search(rt, k)
      else if k < x then Search(l, k)
      else Some(y)
  }

  /** min: the empty slot itself, or the leftmost node, which holds the first binding. */
  function Min<V>(t: Tree<V>): (r: Tree<V>)
    ensures r.Nil? <==> t.Nil?
    ensures r.Node? ==> r.left.Nil? && Inorder(t)[0] == Binding(r.key, r.value)
    ensures |Inorder(r)| <= |Inorder(t)|
    ensures Ordered(t) && r.Node? ==> forall i :: 0 < i < |Inorder(t)| ==> r.key < Inorder(t)[i].key
  {
    if t.Nil? || t.left.Nil? then t else Min(t.left)
  }

  /**
   * deleteMinWithNodeKey: walk down the left spine looking for the node that
   * is target (pointer identity in the source; the same subtree here) and
   * replace it by its right subtree. Whatever it removes is a prefix of the
   * bindings: the target and everything to its left.
   */
  function DeleteMinWithNodeKey<V(==)>(t: Tree<V>, target: Tree<V>): (r: Tree<V>)
    ensures |Inorder(r)| <= |Inorder(t)|
    ensures Inorder(r) == Inorder(t)[|Inorder(t)| - |Inorder(r)|..]
  {
    if t.Node? && target.Node? then
      if t == target then t.right
      else Node(DeleteMinWithNodeKey(t.left, target), t.key, t.value, t.right)
    else t
  }

  /** deleteMin: find the minimum node, then unlink it by identity. */
  function DeleteMin<V(==)>(t: Tree<V>): (r: Tree<V>)
    ensures t.Nil? ==> r.Nil?
    ensures t.Node? ==> Inorder(r) == Inorder(t)[1..]
    ensures Ordered(t) ==> Ordered(r)
  {
    DeleteMinUnlinksFirst(t);
    DeleteMinWithNodeKey(t, Min(t))
  }

  /** Unlinking the node found by Min removes exactly the first binding. */
  lemma {:induction false} DeleteMinUnlinksFirst<V>(t: Tree<V>)
    ensures t.Nil? ==> DeleteMinWithNodeKey(t, Min(t)).Nil?
    ensures t.Node? ==> Inorder(DeleteMinWithNodeKey(t, Min(t))) == Inorder(t)[1..]
  {
    if t.Node? {
      if t.left.Nil? {
        assert Inorder(t) == [Binding(t.key, t.value)] + Inorder(t.right);
      } else {
        DeleteMinUnlinksFirst(t.left);
        assert Min(t) == Min(t.left);
        assert |Inorder(Min(t.left))| <= |Inorder(t.left)| < |Inorder(t)|;
        assert Min(t) != t;
        var l' := DeleteMinWithNodeKey(t.left, Min(t.left));
        assert DeleteMinWithNodeKey(t, Min(t)) == Node(l', t.key, t.value, t.right);
        assert Inorder(t) == Inorder(t.left) + [Binding(t.key, t.value)] + Inorder(t.right);
        assert Inorder(l') == Inorder(t.left)[1..];
      }
    }
  }
}
