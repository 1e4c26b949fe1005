/**
 * The self-check of the left-leaning red-black tree (RedBlackTree.hpp,
 * debugCheckDefinition and its helpers). Definition 1 asks of a red-black
 * search tree that (1) RED links lean left, (2) no node touches two RED
 * links, and (3) every path from the root to a nil slot crosses as many
 * BLACK links. The checker tests (1) and (3) exactly; for (2) it only looks
 * at the two child links of each node.
 */
module RedBlackCheck {
  import opened Bindings
  import opened RedBlackNode
  import opened RedBlackMoves
  import opened RedBlackInsert
  import opened RedBlackDeleteMin

  /** The nodes of t: t itself and every node below it. */
  ghost function Subtrees<V>(t: Tree<V>): set<Tree<V>> {
    match t
    case Nil => {}
    case Node(_, l, _, _, r, _) => {t} + Subtrees(l) + Subtrees(r)
  }

  // ----- condition (1) -----

  /** doCheckDef1_1Recursive: no node below or at t has a RED right link. */
  predicate NoRedRightLink<V>(t: Tree<V>): (ok: bool)
    ensures ok <==> forall s :: s in Subtrees(t) && s.Node? ==> !IsRed(s.right)
  {
    t.Nil? || (NoRedRightLink(t.left) && NoRedRightLink(t.right) && !IsRed(t.right))
  }

  // ----- condition (2) -----

  /** doCheckDef1_2Recursive, as written: no node has two RED child links. */
  predicate NoNodeWithTwoRedChildren<V>(t: Tree<V>): (ok: bool)
    ensures ok <==> forall s :: s in Subtrees(t) ==> !Is4Node(s)
  {
    t.Nil? ||
    (assert Is4Node(t) <==> IsRed(t.left) && IsRed(t.right);
     !(IsRed(t.left) && IsRed(t.right)) && NoNodeWithTwoRedChildren(t.left) && NoNodeWithTwoRedChildren(t.right))
  }

  /**
   * Condition (2) as the definition states it, for a subtree hanging from a
   * link: among the link into each node and its two child links at most one
   * is RED.
   */
  predicate NoTwoRedLinksBelow<V>(t: Tree<V>) {
    t.Nil? ||
    ((IsRed(t) ==> !IsRed(t.left) && !IsRed(t.right)) && !(IsRed(t.left) && IsRed(t.right))
     && NoTwoRedLinksBelow(t.left) && NoTwoRedLinksBelow(t.right))
  }

  /** Condition (2) as the definition states it, for a whole tree: the root has no link above it. */
  predicate NoTwoRedLinks<V>(t: Tree<V>) {
    t.Nil? || (!(IsRed(t.left) && IsRed(t.right)) && NoTwoRedLinksBelow(t.left) && NoTwoRedLinksBelow(t.right))
  }

  // ----- condition (3) -----

  /**
   * The heights traverseAllPaths records, left to right, one per nil slot:
   * the BLACK links crossed from the start (at height h) down to that slot.
   */
  ghost function PathHeights<V>(t: Tree<V>, h: nat): seq<nat> {
    match t
    case Nil => [h]
    case Node(_, l, _, _, r, _) => PathHeights(l, h + Weight(l)) + PathHeights(r, h + Weight(r))
  }

  /** Every height recorded is the first one. */
  ghost predicate AllSame(s: seq<nat>) {
    forall i :: 0 <= i < |s| ==> s[i] == s[0]
  }

  /**
   * Condition (3) is perfect black balance: the leftmost slot lies at h plus
   * the black height, and all slots lie at the same height exactly when the
   * tree is balanced.
   */
  lemma {:induction false} PathHeightsBalanced<V>(t: Tree<V>, h: nat)
    ensures |PathHeights(t, h)| > 0 && PathHeights(t, h)[0] == h + BlackHeight(t)
    ensures AllSame(PathHeights(t, h)) <==> Balanced(t)
  {
    if t.Node? {
      var hl := h + Weight(t.left);
      var hr := h + Weight(t.right);
      var pl := PathHeights(t.left, hl);
      var pr := PathHeights(t.right, hr);
      PathHeightsBalanced(t.left, hl);
      PathHeightsBalanced(t.right, hr);
      var p := pl + pr;
      assert p == PathHeights(t, h);
      if AllSame(p) {
        assert forall i :: 0 <= i < |pl| ==> pl[i] == p[i];
        assert forall i :: 0 <= i < |pr| ==> pr[i] == p[|pl| + i];
        assert AllSame(pl) && AllSame(pr);
        assert pr[0] == p[|pl|];
      }
      if Balanced(t) {
        forall i | 0 <= i < |p|
          ensures p[i] == p[0]
        {
          if i >= |pl| {
            assert p[i] == pr[i - |pl|];
          }
        }
      }
    }
  }

  /**
   * traverseAllPaths: walks every path from t down to a nil slot, appending
   * the height reached at each slot to heights, left before right. A child
   * link adds one to the height unless it is RED.
   */
  method TraverseAllPaths<V>(t: Tree<V>, height: nat, heights: seq<nat>) returns (heights': seq<nat>)
    ensures heights' == heights + PathHeights(t, height)
    decreases t
  {
    if t.Node? {
      var hl := if IsRed(t.left) then height else height + 1;
      var hr := if IsRed(t.right) then height else height + 1;
      var hs := TraverseAllPaths(t.left, hl, heights);
      heights' := TraverseAllPaths(t.right, hr, hs);
      assert PathHeights(t, height) == PathHeights(t.left, hl) + PathHeights(t.right, hr);
      assert heights' == heights + (PathHeights(t.left, hl) + PathHeights(t.right, hr));
    } else {
      heights' := heights + [height];
    }
  }

  /**
   * The comparison closing checkDef1_3: the smallest of a non-empty list of
   * heights (min_element) against the largest (max_element).
   */
  method MinEqualsMax(heights: seq<nat>) returns (same: bool)
    requires |heights| > 0
    ensures same <==> AllSame(heights)
  {
    var lo, hi := heights[0], heights[0];
    var loAt, hiAt := 0, 0;
    var i := 1;
    while i < |heights|
      invariant 1 <= i <= |heights|
      invariant 0 <= loAt < i && heights[loAt] == lo
      invariant 0 <= hiAt < i && heights[hiAt] == hi
      invariant forall j :: 0 <= j < i ==> lo <= heights[j] <= hi
    {
      if heights[i] < lo {
        lo, loAt := heights[i], i;
      }
      if heights[i] > hi {
        hi, hiAt := heights[i], i;
      }
      i := i + 1;
    }
    same := lo == hi;
    if !same {
      assert heights[loAt] != heights[hiAt];
    }
  }

  /**
   * checkDef1_3: collects the heights of all paths from height 0 (never an
   * empty list: an empty tree has one path) and passes when the smallest
   * equals the largest.
   */
  method CheckBlackBalance<V>(t: Tree<V>) returns (pass: bool)
    ensures pass <==> AllSame(PathHeights(t, 0))
  {
    var heights := TraverseAllPaths(t, 0, []);
    assert heights == PathHeights(t, 0);
    PathHeightsBalanced(t, 0);
    pass := MinEqualsMax(heights);
  }

  /**
   * debugCheckDefinition: conditions (1), (2) as written and (3), each
   * evaluated only when the ones before it passed.
   */
  method DebugCheckDefinition<V>(t: Tree<V>) returns (pass: bool)
    ensures pass <==> NoRedRightLink(t) && NoNodeWithTwoRedChildren(t) && Balanced(t)
  {
    PathHeightsBalanced(t, 0);
    if NoRedRightLink(t) && NoNodeWithTwoRedChildren(t) {
      pass := CheckBlackBalance(t);
    } else {
      pass := false;
    }
  }

  // ----- the check against the invariant the operations keep -----

  /** For a subtree hanging from a link: (1) and the corrected (2) are the lean conditions plus no RED pair at the top. */
  lemma {:induction false} LeanBelow<V>(t: Tree<V>)
    ensures NoRedRightLink(t) && NoTwoRedLinksBelow(t) <==> LeanOk(t) && !(IsRed(t) && IsRed(t.left))
  {
    if t.Node? {
      LeanBelow(t.left);
      LeanBelow(t.right);
    }
  }

  /** Conditions (1) and the corrected (2) together are exactly the lean conditions. */
  lemma CorrectedLean<V>(t: Tree<V>)
    ensures NoRedRightLink(t) && NoTwoRedLinks(t) <==> LeanOk(t)
  {
    if t.Node? {
      LeanBelow(t.left);
      LeanBelow(t.right);
    }
  }

  /** The corrected condition (2) implies the one the checker tests. */
  lemma {:induction false} CorrectedImpliesAsWritten<V>(t: Tree<V>)
    requires NoTwoRedLinks(t)
    ensures NoNodeWithTwoRedChildren(t)
  {
    if t.Node? {
      BelowImpliesAsWritten(t.left);
      BelowImpliesAsWritten(t.right);
    }
  }

  /** The same for a subtree hanging from a link. */
  lemma {:induction false} BelowImpliesAsWritten<V>(t: Tree<V>)
    requires NoTwoRedLinksBelow(t)
    ensures NoNodeWithTwoRedChildren(t)
  {
    if t.Node? {
      BelowImpliesAsWritten(t.left);
      BelowImpliesAsWritten(t.right);
    }
  }

  /**
   * Definition 1, with condition (2) as the definition states it, is exactly
   * the lean conditions plus perfect black balance.
   */
  lemma Definition1<V>(t: Tree<V>)
    ensures NoRedRightLink(t) && NoTwoRedLinks(t) && AllSame(PathHeights(t, 0)) <==> LeanOk(t) && Balanced(t)
  {
    CorrectedLean(t);
    PathHeightsBalanced(t, 0);
  }

  /** Every tree the operations keep in shape passes the self-check. */
  lemma ValidPassesCheck<V>(t: Tree<V>)
    requires LeanOk(t) && Balanced(t)
    ensures NoRedRightLink(t) && NoNodeWithTwoRedChildren(t) && AllSame(PathHeights(t, 0))
  {
    Definition1(t);
    CorrectedImpliesAsWritten(t);
  }

  /**
   * The tree 3(2R(1R), nil) passes the self-check as written (it has no RED
   * right link, no node with two RED children, and all paths cross one BLACK
   * link) although it breaks condition (2); inserting a key below 1 then
   * gives a tree that is no longer balanced.
   */
  lemma CheckAcceptsRedChain<V>(k0: int, k1: int, k2: int, k3: int, v0: V, v1: V, v2: V, v3: V)
    requires k0 < k1 < k2 < k3
    ensures var t := Node(Black, Node(Red, Node(Red, Nil, k1, v1, Nil, 1), k2, v2, Nil, 2), k3, v3, Nil, 3);
      Ordered(t) && SizesOk(t) && Balanced(t)
      && NoRedRightLink(t) && NoNodeWithTwoRedChildren(t) && AllSame(PathHeights(t, 0))
      && !NoTwoRedLinks(t) && !Balanced(Insert(t, k0, v0))
  {
    var n1 := Node(Red, Nil, k1, v1, Nil, 1);
    var n2 := Node(Red, n1, k2, v2, Nil, 2);
    var t := Node(Black, n2, k3, v3, Nil, 3);
    assert Inorder(n1) == [Binding(k1, v1)];
    assert Inorder(n2) == [Binding(k1, v1), Binding(k2, v2)];
    assert Inorder(t) == [Binding(k1, v1), Binding(k2, v2), Binding(k3, v3)];
    assert BlackHeight(n1) == 1 && Rank(n1) == 1 && Balanced(n1);
    assert BlackHeight(n2) == 1 && Rank(n2) == 1 && Balanced(n2);
    assert NoRedRightLink(n1) && NoRedRightLink(n2);
    assert NoNodeWithTwoRedChildren(n1) && NoNodeWithTwoRedChildren(n2);
    PathHeightsBalanced(t, 0);
    var a := DoInsert(n1, k0, v0);
    var n0 := NewNode(k0, v0, Red);
    assert DoInsert(Nil, k0, v0) == n0;
    assert a == FixUp(Node(Red, n0, k1, v1, Nil, 1));
    assert a.left == n0 && a.right.Nil? && IsRed(a);
    var b := DoInsert(n2, k0, v0);
    assert b == FixUp(Node(Red, a, k2, v2, Nil, 2));
    assert IsBlack(b.left) && b.left.left.Nil? && IsRed(b);
    assert BlackHeight(b.left) == 1;
    assert Rank(b) == 2;
    var r := DoInsert(t, k0, v0);
    assert r == FixUp(Node(Black, b, k3, v3, Nil, 3));
    assert r.left == b && r.right.Nil?;
    Recolor(r, Black);
  }

  /**
   * insert keeps Definition 1 with the corrected condition (2), so its result
   * also passes the self-check as written.
   */
  lemma InsertKeepsDefinition<V>(t: Tree<V>, k: int, v: V)
    requires NoRedRightLink(t) && NoTwoRedLinks(t) && AllSame(PathHeights(t, 0))
    ensures var r := Insert(t, k, v);
      NoRedRightLink(r) && NoTwoRedLinks(r) && AllSame(PathHeights(r, 0)) && NoNodeWithTwoRedChildren(r)
  {
    Definition1(t);
    DoInsertBalance(t, k, v);
    Recolor(DoInsert(t, k, v), Black);
    Definition1(Insert(t, k, v));
    CorrectedImpliesAsWritten(Insert(t, k, v));
  }

  /**
   * deleteMin keeps Definition 1 with the corrected condition (2), so its
   * result also passes the self-check as written.
   */
  lemma DeleteMinKeepsDefinition<V>(t: Tree<V>)
    requires NoRedRightLink(t) && NoTwoRedLinks(t) && AllSame(PathHeights(t, 0))
    ensures LeanOk(t) && Balanced(t)
    ensures var r := DeleteMin(t);
      NoRedRightLink(r) && NoTwoRedLinks(r) && AllSame(PathHeights(r, 0)) && NoNodeWithTwoRedChildren(r)
  {
    Definition1(t);
    DoDeleteMinBalance(t);
    Definition1(DeleteMin(t));
    CorrectedImpliesAsWritten(DeleteMin(t));
  }
}
