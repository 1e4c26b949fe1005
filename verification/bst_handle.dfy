/**
 * BSTHandle: the object that owns the root slot of a binary search tree.
 * Its insert and deleteMin overwrite that slot; the queries only read it.
 */
module BinarySearchTreeHandle {
  import opened Bindings
  import B = BinarySearchTree

  class BstHandle<V(==)> {
    var root: B.Tree<V>

    /** The ordering every tree built through this handle keeps. */
    ghost predicate Valid()
      reads this
    {
      B.Ordered(root)
    }

    /** The bindings held, in key order. */
    ghost function Contents(): seq<Binding<V>>
      reads this
    {
      B.Inorder(root)
    }

    /** BSTHandle(): an empty tree. */
    constructor ()
      ensures Valid() && Contents() == []
    {
      root := B.Nil;
    }

    /** BSTHandle(nodePtr): adopts an existing tree. */
    constructor FromRoot(t: B.Tree<V>)
      ensures root == t
    {
      root := t;
    }

    /** size(): the number of bindings held. */
    function Size(): (n: nat)
      reads this
      ensures n == |Contents()|
    {
      B.Size(root)
    }

    /** insert(key, value): adds the binding, or replaces the value held for key. */
    method Insert(k: int, v: V)
      modifies this
      ensures old(Valid()) ==> Valid() && Contents() == InsertSorted(old(Contents()), k, v)
      ensures old(Valid()) ==> Lookup(Contents(), k) == Some(v)
      ensures old(Valid()) ==> |Contents()| == |old(Contents())| + (if Lookup(old(Contents()), k).None? then 1 else 0)
    {
      ghost var before := Contents();
      root := B.Insert(root, k, v);
      if B.Ordered(old(root)) {
        InsertSortedLookup(before, k, v, k);
        InsertSortedLength(before, k, v);
      }
    }

    /** search(key): the value bound to key, if any. */
    function Search(k: int): (r: Option<V>)
      reads this
      ensures Valid() ==> r == Lookup(Contents(), k)
    {
      B.Search(root, k)
    }

    /** min(): the node holding the smallest key, or the empty slot. */
    function Min(): (r: B.Tree<V>)
      reads this
      ensures r.Nil? <==> Contents() == []
      ensures r.Node? ==> Contents()[0] == Binding(r.key, r.value)
    {
      B.Min(root)
    }

    /** deleteMin(): removes the smallest binding; nothing happens on an empty tree. */
    method DeleteMin()
      modifies this
      ensures Contents() == if old(Contents()) == [] then [] else old(Contents())[1..]
      ensures old(Valid()) ==> Valid()
    {
      root := B.DeleteMin(root);
    }

    /** empty(): true exactly when the tree holds no binding. */
    function Empty(): (b: bool)
      reads this
      ensures b <==> Contents() == []
    {
      root.Nil?
    }
  }
}
