/**
 * The node record of the left-leaning red-black tree (RedBlackTree.hpp) and
 * the read-only questions asked of it: the cached size, the colour tests, the
 * 2-3-4 classification, and the views the proofs reason with (the in-order
 * bindings, black heights, and the local lean conditions).
 */
module RedBlackNode {
  import opened Bindings

  /** LinkType: the colour of the link from a node's parent down to the node. */
  datatype Color = Red | Black

  /**
   * RedBlackNode: a nil slot, or a node with the colour of its parent link,
   * two owned subtrees, a key, a value and the cached number of nodes below
   * and including it.
   */
  datatype Tree<V> = Nil | Node(color: Color, left: Tree<V>, key: int, value: V, right: Tree<V>, size: nat)

  /** The bindings of a tree, left to right. */
  ghost function Inorder<V>(t: Tree<V>): seq<Binding<V>> {
    match t
    case Nil => []
    case Node(_, l, k, v, r, _) => Inorder(l) + [Binding(k, v)] + Inorder(r)
  }

  /** The search-tree ordering: in-order keys strictly increase. */
  ghost predicate Ordered<V>(t: Tree<V>) {
    StrictlySorted(Inorder(t))
  }

  /** Every cached size equals the number of nodes of its subtree. */
  ghost predicate SizesOk<V>(t: Tree<V>) {
    t.Nil? || (t.size == |Inorder(t)| && SizesOk(t.left) && SizesOk(t.right))
  }

  /** The cached sizes below the top node are right (the top one may be stale). */
  ghost predicate ChildrenSized<V>(t: Tree<V>) {
    t.Nil? || (SizesOk(t.left) && SizesOk(t.right))
  }

  /** The same tree with every colour forgotten (painted BLACK). */
  ghost function Shape<V>(t: Tree<V>): Tree<V> {
    match t
    case Nil => Nil
    case Node(_, l, k, v, r, n) => Node(Black, Shape(l), k, v, Shape(r), n)
  }

  /** The RedBlackNode constructor: a childless node of size 1. */
  function NewNode<V>(k: int, v: V, c: Color): (r: Tree<V>)
    ensures Inorder(r) == [Binding(k, v)] && SizesOk(r)
    ensures r.Node? && r.color == c && r.left.Nil? && r.right.Nil?
  {
    Node(c, Nil, k, v, Nil, 1)
  }

  /** getSize: 0 for an empty slot, otherwise the cached size. */
  function GetSize<V>(t: Tree<V>): (n: nat)
    ensures t.Nil? ==> n == 0
    ensures SizesOk(t) ==> n == |Inorder(t)|
  {
    if t.Nil? then 0 else t.size
  }

  /** updateSize: recomputes the top node's cached size from its children and changes nothing else. */
  function UpdateSize<V>(t: Tree<V>): (r: Tree<V>)
    ensures Inorder(r) == Inorder(t) && r.Nil? == t.Nil?
    ensures r.Node? ==> r.(size := 0) == t.(size := 0)
    ensures LeanOk(r) == LeanOk(t) && Balanced(r) == Balanced(t) && BlackHeight(r) == BlackHeight(t)
    ensures ChildrenSized(t) ==> SizesOk(r)
  {
    if t.Nil? then t else t.(size := 1 + GetSize(t.left) + GetSize(t.right))
  }

  /** isRed: an empty slot is never RED. */
  predicate IsRed<V>(t: Tree<V>): (red: bool)
    ensures red ==> t.Node?
  {
    t.Node? && t.color == Red
  }

  /** isBlack: an empty slot is not BLACK either. */
  predicate IsBlack<V>(t: Tree<V>): (black: bool)
    ensures black ==> t.Node?
    ensures t.Node? ==> (black <==> !IsRed(t))
  {
    t.Node? && t.color == Black
  }

  /** is2Node: a node with no RED child link (one key of the 2-3-4 tree). */
  predicate Is2Node<V>(t: Tree<V>): (two: bool)
    ensures two <==> KeysInNode(t) == 1
  {
    t.Node? && !IsRed(t.left) && !IsRed(t.right)
  }

  /** is3Node: RED left link, non-RED right link (two keys). */
  predicate Is3Node<V>(t: Tree<V>): (three: bool)
    ensures three <==> KeysInNode(t) == 2 && IsRed(t.left)
  {
    t.Node? && IsRed(t.left) && !IsRed(t.right)
  }

  /** is4Node: both child links RED (three keys). */
  predicate Is4Node<V>(t: Tree<V>): (four: bool)
    ensures four <==> KeysInNode(t) == 3
  {
    t.Node? && IsRed(t.left) && IsRed(t.right)
  }

  /** The number of keys the 2-3-4 node topped by t holds: one per RED child link, plus its own. */
  function KeysInNode<V>(t: Tree<V>): nat {
    if t.Nil? then 0
    else 1 + (if IsRed(t.left) then 1 else 0) + (if IsRed(t.right) then 1 else 0)
  }

  /**
   * The colour tests and the classifiers: nothing holds of an empty slot; a
   * node is RED or BLACK; the classifiers count the keys of its 2-3-4 node
   * and never name a node twice. A node whose only RED child link is the
   * right one holds two keys but is named by none of them.
   */
  lemma NodeKinds<V>(t: Tree<V>)
    ensures t.Nil? ==> !IsRed(t) && !IsBlack(t) && !Is2Node(t) && !Is3Node(t) && !Is4Node(t)
    ensures t.Node? ==> (IsRed(t) <==> !IsBlack(t))
    ensures Is2Node(t) <==> KeysInNode(t) == 1
    ensures Is4Node(t) <==> KeysInNode(t) == 3
    ensures Is3Node(t) <==> KeysInNode(t) == 2 && IsRed(t.left)
    ensures t.Node? && !IsRed(t.right) ==> (Is2Node(t) || Is3Node(t)) && !(Is2Node(t) && Is3Node(t))
    ensures !(Is2Node(t) && Is4Node(t)) && !(Is3Node(t) && Is4Node(t))
  {
  }

  // ----- black balance -----

  /** The black links crossed when stepping down into t: a nil slot counts as a BLACK link. */
  ghost function Weight<V>(t: Tree<V>): nat {
    if IsRed(t) then 0 else 1
  }

  /** Black links from t down to the nil slots below it, following the leftmost path. */
  ghost function BlackHeight<V>(t: Tree<V>): nat {
    if t.Nil? then 0 else Weight(t.left) + BlackHeight(t.left)
  }

  /** Black links from the link into t down to a nil slot. */
  ghost function Rank<V>(t: Tree<V>): nat {
    Weight(t) + BlackHeight(t)
  }

  /** Perfect black balance: at every node both sides cross as many black links. */
  ghost predicate Balanced<V>(t: Tree<V>) {
    t.Nil? || (Balanced(t.left) && Balanced(t.right) && Rank(t.left) == Rank(t.right))
  }

  /** A non-empty subtree has a black link below it. */
  lemma {:induction false} NodeBlackHeight<V>(t: Tree<V>)
    ensures t.Node? ==> BlackHeight(t) >= 1
  {
    if t.Node? && t.left.Node? {
      NodeBlackHeight(t.left);
    }
  }

  /** A subtree whose rank is 1 is an empty slot or a single RED node. */
  lemma LowRank<V>(t: Tree<V>)
    requires Balanced(t) && Rank(t) == 1 && !IsRed(t)
    ensures t.Nil?
  {
    NodeBlackHeight(t);
  }

  /**
   * The lean conditions of the left-leaning tree, at every node: no RED right
   * link, and no RED left link followed by another RED left link. The colour
   * of the top node itself is not constrained.
   */
  ghost predicate LeanOk<V>(t: Tree<V>) {
    t.Nil? ||
    (!IsRed(t.right) && (IsRed(t.left) ==> !IsRed(t.left.left)) && LeanOk(t.left) && LeanOk(t.right))
  }

  /** The invariant every public operation keeps: order, cached sizes, lean and balance. */
  ghost predicate Valid<V>(t: Tree<V>) {
    Ordered(t) && SizesOk(t) && LeanOk(t) && Balanced(t)
  }

  /** Trees that differ only in colours hold the same bindings and the same cached sizes. */
  lemma SameShape<V>(a: Tree<V>, b: Tree<V>)
    requires Shape(a) == Shape(b)
    ensures Inorder(a) == Inorder(b) && SizesOk(a) == SizesOk(b)
  {
    if a.Node? {
      SameShape(a.left, b.left);
      SameShape(a.right, b.right);
    }
  }

  /** Recolouring a node changes none of the views that ignore its own colour. */
  lemma Recolor<V>(t: Tree<V>, c: Color)
    requires t.Node?
    ensures Inorder(t.(color := c)) == Inorder(t)
    ensures SizesOk(t.(color := c)) == SizesOk(t)
    ensures LeanOk(t.(color := c)) == LeanOk(t)
    ensures Balanced(t.(color := c)) == Balanced(t)
    ensures BlackHeight(t.(color := c)) == BlackHeight(t)
    ensures Shape(t.(color := c)) == Shape(t)
  {
  }
}
