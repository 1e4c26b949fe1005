/**
 * The local moves of the left-leaning red-black tree (RedBlackTree.hpp):
 * rotations, colour flips, the 2-node merge, the two sibling borrows and the
 * three-step fix-up shared by insertion and minimum deletion.
 *
 * The source relinks nodes in place and returns the new subtree root; here
 * each move is a function from the old subtree to the rebuilt one. Every move
 * keeps the in-order bindings. The moves keep correct cached sizes correct,
 * and UpdateSize and FixUp repair a stale size at the top.
 */
module RedBlackMoves {
  import opened Bindings
  import opened RedBlackNode

  /**
   * rotateRight: the left child is promoted, takes the old root's colour and
   * size, and the old root hangs off its right as a RED node.
   */
  function RotateRight<V>(t: Tree<V>): (r: Tree<V>)
    requires t.Node? && t.left.Node?
    ensures r.Node? && r.right.Node?
    ensures Inorder(r) == Inorder(t)
    ensures r.key == t.left.key && r.right.key == t.key
    ensures r.color == t.color && r.right.color == Red
    ensures r.size == t.size
    ensures ChildrenSized(t) ==> ChildrenSized(r)
    ensures SizesOk(t) ==> SizesOk(r)
  {
    var p := t.left;
    Node(t.color, p.left, p.key, p.value, UpdateSize(Node(Red, p.right, t.key, t.value, t.right, t.size)), t.size)
  }

  /**
   * rotateLeft: the right child is promoted, takes the old root's colour and
   * size, and the old root hangs off its left as a RED node.
   */
  function RotateLeft<V>(t: Tree<V>): (r: Tree<V>)
    requires t.Node? && t.right.Node?
    ensures r.Node? && r.left.Node?
    ensures Inorder(r) == Inorder(t)
    ensures r.key == t.right.key && r.left.key == t.key
    ensures r.color == t.color && r.left.color == Red
    ensures r.size == t.size
    ensures ChildrenSized(t) ==> ChildrenSized(r)
    ensures SizesOk(t) ==> SizesOk(r)
  {
    var p := t.right;
    Node(t.color, UpdateSize(Node(Red, t.left, t.key, t.value, p.left, t.size)), p.key, p.value, p.right, t.size)
  }

  /** Rotating right and then left restores the tree, given correct sizes. */
  lemma RotateRightThenLeft<V>(t: Tree<V>)
    requires t.Node? && t.left.Node? && SizesOk(t) && t.left.color == Red
    ensures RotateLeft(RotateRight(t)) == t
  {
  }

  /** Rotating left and then right restores the tree, given correct sizes. */
  lemma RotateLeftThenRight<V>(t: Tree<V>)
    requires t.Node? && t.right.Node? && SizesOk(t) && t.right.color == Red
    ensures RotateRight(RotateLeft(t)) == t
  {
  }

  /**
   * flipColor: the node becomes RED and each existing child BLACK; keys,
   * links and sizes are untouched. An empty slot is left as it is.
   */
  function FlipColor<V>(t: Tree<V>): (r: Tree<V>)
    ensures Shape(r) == Shape(t) && Inorder(r) == Inorder(t)
    ensures t.Nil? ==> r.Nil?
    ensures t.Node? ==> r.color == Red
    ensures t.Node? && t.left.Node? ==> IsBlack(r.left) && r.left.left == t.left.left && r.left.right == t.left.right
    ensures t.Node? && t.right.Node? ==> IsBlack(r.right) && r.right.left == t.right.left && r.right.right == t.right.right
    ensures SizesOk(t) ==> SizesOk(r)
  {
    if t.Nil? then t
    else
      var l := if t.left.Node? then t.left.(color := Black) else t.left;
      var rt := if t.right.Node? then t.right.(color := Black) else t.right;
      var r := t.(color := Red, left := l, right := rt);
      SameShape(r, t);
      r
  }

  /**
   * merge2Nodes: when both children are non-empty and BLACK they become RED,
   * joining three 2-nodes into one 4-node; otherwise nothing changes.
   */
  function Merge2Nodes<V>(t: Tree<V>): (r: Tree<V>)
    ensures Shape(r) == Shape(t) && Inorder(r) == Inorder(t)
    ensures t.Node? && IsBlack(t.left) && IsBlack(t.right) ==>
              r.color == t.color && IsRed(r.left) && IsRed(r.right)
              && r.left.left == t.left.left && r.left.right == t.left.right
              && r.right.left == t.right.left && r.right.right == t.right.right
    ensures !(t.Node? && IsBlack(t.left) && IsBlack(t.right)) ==> r == t
    ensures SizesOk(t) ==> SizesOk(r)
  {
    if t.Node? && IsBlack(t.left) && IsBlack(t.right) then
      var r := t.(left := t.left.(color := Red), right := t.right.(color := Red));
      SameShape(r, t);
      r
    else t
  }

  /**
   * The guard of moveSiblingFromRight: both children exist and the right
   * child has a RED left link, so the left child can borrow from it.
   */
  predicate CanBorrowFromRight<V>(t: Tree<V>) {
    t.Node? && t.left.Node? && t.right.Node? && IsRed(t.right.left)
  }

  /**
   * moveSiblingFromRight: b(a, cd) => c(ab, d). The parent key b moves down
   * into the left child, which becomes a 3-node, and the sibling's smallest
   * key c moves up into b's place, keeping b's colour. The trailing size
   * updates are those of the source, applied to the old root b and below it.
   */
  function MoveSiblingFromRight<V>(t: Tree<V>): (r: Tree<V>)
    requires CanBorrowFromRight(t)
    ensures r.Node? && Inorder(r) == Inorder(t)
    ensures r.color == t.color && r.key == t.right.left.key
    ensures IsBlack(r.left) && r.left.key == t.key && IsRed(r.left.left) && r.left.left.key == t.left.key
    ensures IsBlack(r.right) && r.right.key == t.right.key
    ensures SizesOk(t) ==> SizesOk(r)
  {
    var t1 := t.(left := t.left.(color := Red), right := RotateRight(t.right));
    Recolor(t.left, Red);
    var n := RotateLeft(t1);
    var n1 := n.(color := t.color, left := n.left.(color := Black), right := n.right.(color := Black));
    Recolor(n.left, Black);
    Recolor(n.right, Black);
    assert SizesOk(t) ==> SizesOk(n1);
    var b := n1.left;
    var a := b.left;
    n1.(left := UpdateSize(b.(left := UpdateSize(a.(left := UpdateSize(a.left))), right := UpdateSize(b.right))))
  }

  /**
   * Where moveSiblingFromRight puts each subtree of b(a(x, y), c(d(e, f), g)):
   * the result is d(b(aR(x, y), e), c(f, g)) with recomputed sizes.
   */
  lemma MoveSiblingFromRightLinks<V>(t: Tree<V>)
    requires CanBorrowFromRight(t)
    ensures MoveSiblingFromRight(t).left.left.Node? && MoveSiblingFromRight(t).right.Node?
    ensures MoveSiblingFromRight(t).left.left.left == UpdateSize(t.left.left)
    ensures MoveSiblingFromRight(t).left.left.right == t.left.right
    ensures MoveSiblingFromRight(t).left.right == UpdateSize(t.right.left.left)
    ensures MoveSiblingFromRight(t).right.left == t.right.left.right
    ensures MoveSiblingFromRight(t).right.right == t.right.right
  {
  }

  /**
   * The guard of moveSiblingFromLeft: both children exist and the left
   * child has a RED left link, so the right child can borrow from it.
   */
  predicate CanBorrowFromLeft<V>(t: Tree<V>) {
    t.Node? && t.left.Node? && IsRed(t.left.left) && t.right.Node?
  }

  /**
   * The relinking and recolouring of moveSiblingFromLeft, before its size
   * updates: c(ab, d) => b(a, cd).
   */
  function BorrowFromLeft<V>(t: Tree<V>): (r: Tree<V>)
    requires CanBorrowFromLeft(t)
    ensures r.Node? && r.right.Node? && r.right.left.Node?
    ensures Inorder(r) == Inorder(t)
    ensures r.color == t.color && r.key == t.left.key
    ensures IsBlack(r.left) && r.left.key == t.left.left.key
    ensures IsBlack(r.right) && r.right.key == t.right.key && IsRed(r.right.left) && r.right.left.key == t.key
    ensures r.right.left.right == t.right.left
  {
    var n := RotateRight(t);
    var n1 := n.(color := t.color, left := n.left.(color := Black), right := n.right.(color := Black));
    Recolor(n.left, Black);
    Recolor(n.right, Black);
    n1.(right := RotateLeft(n1.right))
  }

  /**
   * moveSiblingFromLeft as written: its size updates go through the old root
   * c, which now sits at the bottom of the new right child, and read the
   * field c.right.left. When the sibling's left child was empty, c.right is
   * empty and that read dereferences null (None here).
   */
  function MoveSiblingFromLeftAsWritten<V>(t: Tree<V>): (r: Option<Tree<V>>)
    requires CanBorrowFromLeft(t)
    ensures r.None? <==> t.right.left.Nil?
    ensures r.Some? ==> Inorder(r.value) == Inorder(t)
  {
    var n := BorrowFromLeft(t);
    var c := n.right.left;
    if c.right.Nil? then None
    else
      var c1 := c.(right := UpdateSize(c.right.(left := UpdateSize(c.right.left))));
      Some(n.(right := n.right.(left := UpdateSize(c1))))
  }

  /**
   * Every valid tree of the shape k3(k2(k1 RED), k4), such as 3(2(1), 4),
   * makes moveSiblingFromLeft, as written, dereference null.
   */
  lemma MoveSiblingFromLeftCrashes<V>(k1: int, k2: int, k3: int, k4: int, v1: V, v2: V, v3: V, v4: V)
    requires k1 < k2 < k3 < k4
    ensures var t := Node(Black, Node(Black, Node(Red, Nil, k1, v1, Nil, 1), k2, v2, Nil, 2), k3, v3, Node(Black, Nil, k4, v4, Nil, 1), 4);
            Valid(t) && CanBorrowFromLeft(t) && MoveSiblingFromLeftAsWritten(t).None?
  {
    var a := Node(Red, Nil, k1, v1, Nil, 1);
    var b := Node(Black, a, k2, v2, Nil, 2);
    var d := Node(Black, Nil, k4, v4, Nil, 1);
    var t := Node(Black, b, k3, v3, d, 4);
    var s := [Binding(k1, v1), Binding(k2, v2), Binding(k3, v3), Binding(k4, v4)];
    assert Inorder(b) == s[..2];
    assert Inorder(t) == s;
    assert BlackHeight(a.left) == 0;
    assert BlackHeight(a) == 1;
    assert Balanced(a);
    assert Balanced(b) && BlackHeight(b) == 1;
    assert Balanced(d) && BlackHeight(d) == 1;
    assert LeanOk(a.left) && LeanOk(a.right) && LeanOk(a);
    assert LeanOk(b);
    assert LeanOk(d.left) && LeanOk(d);
    assert SizesOk(a) && SizesOk(b) && SizesOk(d);
    assert StrictlySorted(s);
  }

  /**
   * moveSiblingFromLeft with its size updates applied bottom-up along the
   * new right spine (old root c, then sibling d, then the new root b), as in
   * moveSiblingFromRight: c(ab, d) => b(a, cd). It is safe on every tree the
   * guard admits and keeps every cached size correct.
   */
  function MoveSiblingFromLeft<V>(t: Tree<V>): (r: Tree<V>)
    requires CanBorrowFromLeft(t)
    ensures r.Node? && Inorder(r) == Inorder(t)
    ensures r.color == t.color && r.key == t.left.key
    ensures IsBlack(r.left) && r.left.key == t.left.left.key
    ensures IsBlack(r.right) && r.right.key == t.right.key && IsRed(r.right.left) && r.right.left.key == t.key
    ensures SizesOk(t) ==> SizesOk(r)
  {
    var n := BorrowFromLeft(t);
    UpdateSize(n.(right := UpdateSize(n.right.(left := UpdateSize(n.right.left)))))
  }

  /** Hangs l as the left child of t and updates t's cached size (root->left = l; updateSize(root)). */
  function WithLeft<V>(t: Tree<V>, l: Tree<V>): (r: Tree<V>)
    requires t.Node?
    ensures r.Node? && r.color == t.color && r.right == t.right
    ensures Inorder(r) == Inorder(l) + [Binding(t.key, t.value)] + Inorder(t.right)
    ensures SizesOk(l) && SizesOk(t.right) ==> SizesOk(r)
  {
    UpdateSize(t.(left := l))
  }

  /**
   * The three checks that end doInsert and doDeleteMinRecursive, followed by
   * updateSize: rotate right on two RED left links in a row, rotate left on a
   * lone RED right link, flip colours on two RED children. Afterwards the top
   * has no RED right link and no two RED left links in a row.
   */
  function FixUp<V>(t: Tree<V>): (r: Tree<V>)
    requires t.Node?
    ensures r.Node? && Inorder(r) == Inorder(t)
    ensures !IsRed(r.right) && !(IsRed(r.left) && IsRed(r.left.left))
    ensures ChildrenSized(t) ==> SizesOk(r)
  {
    var t1 := if IsRed(t.left) && IsRed(t.left.left) then RotateRight(t) else t;
    var t2 := if !IsRed(t1.left) && IsRed(t1.right) then RotateLeft(t1) else t1;
    var t3 := if IsRed(t2.left) && IsRed(t2.right) then FlipColor(t2) else t2;
    UpdateSize(t3)
  }

  /**
   * The fix-up restores the lean conditions and keeps perfect black balance
   * on every subtree it is applied to in insertion and minimum deletion: both
   * children already satisfy the lean conditions, there may be two RED left
   * links in a row below the top only if the right link is not RED, and a
   * RED right child has no RED left link. The black height seen from above is
   * kept unless the top is RED and gets flipped; the top keeps its colour
   * when no rotation or flip applies.
   */
  lemma {:induction false} FixUpRestores<V>(t: Tree<V>)
    requires t.Node? && Balanced(t) && LeanOk(t.left) && LeanOk(t.right)
    requires IsRed(t.left) && IsRed(t.left.left) ==> !IsRed(t.right)
    requires IsRed(t.right) ==> !IsRed(t.right.left)
    ensures LeanOk(FixUp(t)) && Balanced(FixUp(t))
    ensures !IsRed(t) || !IsRed(t.left) || (!IsRed(t.left.left) && !IsRed(t.right)) ==> Rank(FixUp(t)) == Rank(t)
    ensures IsRed(FixUp(t)) && IsRed(FixUp(t).left) ==> IsRed(t)
    ensures !IsRed(t.right) && !(IsRed(t.left) && IsRed(t.left.left)) ==> FixUp(t).color == t.color
  {
    var r := FixUp(t);
    if IsRed(t.left) && IsRed(t.left.left) {
      // rotate right, then flip: both halves become BLACK under a RED top
      var l := t.left;
      assert Rank(l.left) == Rank(l.right) && Rank(l) == BlackHeight(l.left);
      assert r.left == l.left.(color := Black);
      Recolor(l.left, Black);
      assert r.right.left == l.right && r.right.right == t.right && r.right.color == Black;
      assert Balanced(r.right) && Rank(r.right) == 1 + Rank(l.right);
      assert Balanced(r.left) && Rank(r.left) == 1 + BlackHeight(l.left);
    } else if IsRed(t.right) && !IsRed(t.left) {
      // rotate left: the RED right child moves up, the old top goes down RED
      var x := t.right;
      assert Rank(x.left) == Rank(x.right);
      assert r.left.left == t.left && r.left.right == x.left && r.right == x.right;
      assert Balanced(r.left) && Rank(r.left) == Rank(t.left);
    } else if IsRed(t.left) && IsRed(t.right) {
      // flip only
      Recolor(t.left, Black);
      Recolor(t.right, Black);
    } else {
      assert r.(size := 0) == t.(size := 0);
      Recolor(t, t.color);
    }
  }
}
