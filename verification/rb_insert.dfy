/**
 * Insertion into the left-leaning red-black tree (RedBlackTree.hpp, insert and
 * doInsert): descend by key, hang a new RED leaf at the empty slot reached (or
 * overwrite the value of the node holding the key), then repair the lean
 * conditions on the way back up with the three-step fix-up.
 */
module RedBlackInsert {
  import opened Bindings
  import opened RedBlackNode
  import opened RedBlackMoves

  /**
   * doInsert: the subtree with (k, v) added, or with the value of k's node
   * replaced; the key stored in that node is kept. It is never empty.
   */
  function DoInsert<V>(t: Tree<V>, k: int, v: V): (r: Tree<V>)
    ensures r.Node?
    ensures Ordered(t) ==> Ordered(r) && Inorder(r) == InsertSorted(Inorder(t), k, v)
    ensures SizesOk(t) ==> SizesOk(r)
  {
    match t
    case Nil => NewNode(k, v, Red)
    case Node(c, l, x, y, rt, n) =>
      InsertSortedAround(Inorder(l), Binding(x, y), Inorder(rt), k, v);
      if k > x then FixUp(Node(c, l, x, y, DoInsert(rt, k, v), n))
      else if k < x then FixUp(Node(c, DoInsert(l, k, v), x, y, rt, n))
      else FixUp(Node(c, l, x, v, rt, n))
  }

  /**
   * doInsert keeps the lean conditions and perfect black balance. A RED top
   * with a RED left child comes back only from a RED subtree, and the black
   * height seen from above is unchanged unless the subtree was such a pair.
   */
  lemma {:induction false} DoInsertBalance<V>(t: Tree<V>, k: int, v: V)
    requires LeanOk(t) && Balanced(t)
    ensures LeanOk(DoInsert(t, k, v)) && Balanced(DoInsert(t, k, v))
    ensures IsRed(DoInsert(t, k, v)) && IsRed(DoInsert(t, k, v).left) ==> IsRed(t)
    ensures !(IsRed(t) && IsRed(t.left)) ==> Rank(DoInsert(t, k, v)) == Rank(t)
  {
    match t
    case Nil =>
    case Node(c, l, x, y, rt, n) =>
      if k > x {
        DoInsertBalance(rt, k, v);
        FixUpRestores(Node(c, l, x, y, DoInsert(rt, k, v), n));
      } else if k < x {
        DoInsertBalance(l, k, v);
        FixUpRestores(Node(c, DoInsert(l, k, v), x, y, rt, n));
      } else {
        FixUpRestores(Node(c, l, x, v, rt, n));
      }
  }

  /**
   * insert: doInsert with the returned root painted BLACK; the bindings are
   * those of the sorted insertion.
   */
  function Insert<V>(t: Tree<V>, k: int, v: V): (r: Tree<V>)
    ensures IsBlack(r)
    ensures Ordered(t) ==> Ordered(r) && Inorder(r) == InsertSorted(Inorder(t), k, v)
    ensures SizesOk(t) ==> SizesOk(r)
  {
    var d := DoInsert(t, k, v);
    Recolor(d, Black);
    d.(color := Black)
  }

  /**
   * insert keeps a valid tree valid, and its node count grows by one exactly
   * when the key was absent.
   */
  lemma InsertKeepsValid<V>(t: Tree<V>, k: int, v: V)
    requires Valid(t)
    ensures Valid(Insert(t, k, v))
    ensures GetSize(Insert(t, k, v)) == GetSize(t) + (if Lookup(Inorder(t), k).None? then 1 else 0)
  {
    DoInsertBalance(t, k, v);
    Recolor(DoInsert(t, k, v), Black);
    InsertSortedLength(Inorder(t), k, v);
  }

  /** After insert, k is bound to v and every other key keeps its binding. */
  lemma InsertLookup<V>(t: Tree<V>, k: int, v: V, q: int)
    requires Ordered(t)
    ensures Lookup(Inorder(Insert(t, k, v)), q) == if q == k then Some(v) else Lookup(Inorder(t), q)
  {
    InsertSortedLookup(Inorder(t), k, v, q);
  }
}
