/**
 * Minimum deletion in the left-leaning red-black tree (RedBlackTree.hpp,
 * deleteMin, doDeleteMin and doDeleteMinRecursive). On the way down the left
 * spine the node to descend into is made a 3- or 4-node, by merging it with
 * its parent key and sibling or by borrowing a key from the sibling, so that
 * the minimum ends in a 3- or 4-node at the bottom and can be cut off without
 * changing any black height; the fix-up repairs the lean conditions on the
 * way back up.
 */
module RedBlackDeleteMin {
  import opened Bindings
  import opened RedBlackNode
  import opened RedBlackMoves

  /**
   * What doDeleteMinRecursive needs of a 3- or 4-node to descend below it:
   * balance, the lean conditions in both children, a non-RED node below the
   * RED left link, and no RED left link under a RED right link.
   */
  ghost predicate ReadyToDelete<V>(t: Tree<V>) {
    t.Node? && t.left.Node? && Balanced(t) && LeanOk(t.left) && LeanOk(t.right)
    && !IsRed(t.left.left) && (IsRed(t.right) ==> !IsRed(t.right.left))
  }

  /**
   * Below a 3- or 4-node ready for the descent: the RED left child is balanced
   * and lean, the node below it is empty, a 2-node or a 3-node that is ready in
   * turn; a 2-node there has a 2- or 3-node sibling, and an empty slot there
   * means the RED left child is a leaf.
   */
  lemma SpineFacts<V>(t: Tree<V>)
    requires (Is3Node(t) || Is4Node(t)) && ReadyToDelete(t)
    ensures Balanced(t.left) && LeanOk(t.left.left) && LeanOk(t.left.right)
    ensures !IsRed(t.left.left) && !IsRed(t.left.right)
    ensures Rank(t.left) == Rank(t.right) == Rank(t.left.left) == Rank(t.left.right)
    ensures |Inorder(t.left)| < |Inorder(t)| && |Inorder(t.left.left)| < |Inorder(t.left)|
    ensures !Is4Node(t.left.left)
    ensures Is2Node(t.left.left) ==> Is2Node(t.left.right) || Is3Node(t.left.right)
    ensures Is3Node(t.left.left) ==> ReadyToDelete(t.left.left)
    ensures !Is2Node(t.left.left) && !Is3Node(t.left.left) ==> t.left.left.Nil? && t.left.right.Nil?
  {
    var l := t.left;
    NodeBlackHeight(l.left);
    assert Balanced(l) && Balanced(l.right) && Rank(l.left) == Rank(l.right);
    if l.left.Nil? {
      LowRank(l.right);
    }
  }

  /**
   * Merging a 2-node whose children are BLACK 2-nodes gives a 4-node ready
   * for the descent, one black link lower.
   */
  lemma MergedReady<V>(t: Tree<V>)
    requires t.Node? && Balanced(t) && LeanOk(t.left) && LeanOk(t.right)
    requires Is2Node(t.left) && Is2Node(t.right) && !IsRed(t.left) && !IsRed(t.right)
    ensures Is4Node(Merge2Nodes(t)) && ReadyToDelete(Merge2Nodes(t))
    ensures BlackHeight(Merge2Nodes(t)) + 1 == BlackHeight(t)
  {
    Recolor(t.left, Red);
    Recolor(t.right, Red);
  }

  /**
   * Below a 3- or 4-node whose RED left child has two 2-node children, the
   * merge followed by painting the left child BLACK gives a BLACK 4-node
   * ready for the descent, with the same bindings and black height.
   */
  lemma MergedBelowReady<V>(t: Tree<V>)
    requires (Is3Node(t) || Is4Node(t)) && ReadyToDelete(t)
    requires Is2Node(t.left.left) && Is2Node(t.left.right)
    ensures Merge2Nodes(t.left).Node?
    ensures Is4Node(Merge2Nodes(t.left).(color := Black)) && ReadyToDelete(Merge2Nodes(t.left).(color := Black))
    ensures !IsRed(Merge2Nodes(t.left).(color := Black))
    ensures Inorder(Merge2Nodes(t.left).(color := Black)) == Inorder(t.left)
    ensures SizesOk(t.left) ==> SizesOk(Merge2Nodes(t.left).(color := Black))
    ensures Rank(Merge2Nodes(t.left).(color := Black)) == Rank(t.left)
  {
    SpineFacts(t);
    MergedReady(t.left);
    Recolor(Merge2Nodes(t.left), Black);
  }

  /**
   * The tree d(b(aR(x, y), e), c(f, g)) built by borrowing from b(a(x, y),
   * c(d(e, f), g)), described link by link: the BLACK 2-node a becomes the RED
   * left link of a BLACK 3-node, and both sides keep the old rank.
   */
  lemma BorrowedReady<V>(t: Tree<V>, m: Tree<V>)
    requires t.Node? && Balanced(t) && LeanOk(t.left) && LeanOk(t.right) && !IsRed(t.right)
    requires Is2Node(t.left) && !IsRed(t.left) && Is3Node(t.right)
    requires m.Node? && Inorder(m) == Inorder(t) && IsBlack(m.left) && IsBlack(m.right)
    requires m.left.left.Node? && m.left.left.color == Red
    requires m.left.left.left == UpdateSize(t.left.left) && m.left.left.right == t.left.right
    requires m.left.right == UpdateSize(t.right.left.left)
    requires m.right.left == t.right.left.right && m.right.right == t.right.right
    ensures Is3Node(m.left) && ReadyToDelete(m.left)
    ensures LeanOk(m.right) && Balanced(m.right)
    ensures Rank(m.left) == Rank(m.right)
    ensures BlackHeight(m) == BlackHeight(t)
    ensures |Inorder(m.left)| < |Inorder(t)|
  {
    var a := t.left;
    var d := t.right;
    var c := d.left;
    assert Balanced(d) && Balanced(c) && Balanced(a);
    assert Rank(a) == Rank(d) && Rank(c.left) == Rank(c.right) == Rank(d.right);
    assert Balanced(m.left.left) && Balanced(m.left.right) && Rank(m.left.left) == Rank(m.left.right);
  }

  /**
   * Borrowing from a RED-leaning right sibling turns a BLACK 2-node left child
   * into a BLACK 3-node ready for the descent; the new right child is a
   * balanced BLACK node of the same rank, and the black height is kept.
   */
  lemma BorrowReady<V>(t: Tree<V>)
    requires t.Node? && Balanced(t) && LeanOk(t.left) && LeanOk(t.right) && !IsRed(t.right)
    requires Is2Node(t.left) && !IsRed(t.left) && Is3Node(t.right)
    ensures CanBorrowFromRight(t)
    ensures Is3Node(MoveSiblingFromRight(t).left) && ReadyToDelete(MoveSiblingFromRight(t).left)
    ensures !IsRed(MoveSiblingFromRight(t).left) && !IsRed(MoveSiblingFromRight(t).right)
    ensures LeanOk(MoveSiblingFromRight(t).right) && Balanced(MoveSiblingFromRight(t).right)
    ensures Rank(MoveSiblingFromRight(t).left) == Rank(MoveSiblingFromRight(t).right)
    ensures BlackHeight(MoveSiblingFromRight(t)) == BlackHeight(t)
    ensures |Inorder(MoveSiblingFromRight(t).left)| < |Inorder(t)|
  {
    MoveSiblingFromRightLinks(t);
    BorrowedReady(t, MoveSiblingFromRight(t));
  }

  /**
   * doDeleteMinRecursive: removes the smallest binding below a 3- or 4-node
   * (anything else gives the empty slot). At the bottom the RED left child is
   * cut off (3-node), or cut off and the RED right child rotated up (4-node).
   */
  function DoDeleteMinRecursive<V>(t: Tree<V>): (r: Tree<V>)
    requires Is3Node(t) || Is4Node(t) ==> ReadyToDelete(t)
    ensures Is3Node(t) || Is4Node(t) ==> r.Node? && Inorder(r) == Inorder(t)[1..]
    ensures !(Is3Node(t) || Is4Node(t)) ==> r.Nil?
    decreases |Inorder(t)|
  {
    if Is3Node(t) || Is4Node(t) then
      SpineFacts(t);
      TailOfSplit(Inorder(t.left), Binding(t.key, t.value), Inorder(t.right));
      var ll := t.left.left;
      var lr := t.left.right;
      if Is2Node(ll) then
        if Is2Node(lr) then
          // merge the RED left child with its two children into a BLACK 4-node
          MergedBelowReady(t);
          var m := Merge2Nodes(t.left).(color := Black);
          var x := DoDeleteMinRecursive(m);
          assert Inorder(x) == Inorder(t.left)[1..];
          var w := WithLeft(t, UpdateSize(x));
          assert Inorder(w) == Inorder(t)[1..];
          FixUp(w)
        else if Is3Node(lr) then
          // borrow the smallest key of the sibling 3-node
          BorrowReady(t.left);
          var m := MoveSiblingFromRight(t.left);
          TailOfSplit(Inorder(m.left), Binding(m.key, m.value), Inorder(m.right));
          FixUp(WithLeft(t, WithLeft(m, UpdateSize(DoDeleteMinRecursive(m.left)))))
        else
          assert false;
          t
      else if Is3Node(ll) || Is4Node(ll) then
        TailOfSplit(Inorder(ll), Binding(t.left.key, t.left.value), Inorder(lr));
        FixUp(WithLeft(t, WithLeft(t.left, UpdateSize(DoDeleteMinRecursive(ll)))))
      else if Is3Node(t) then
        // bottom: the minimum is the lone RED left child
        WithLeft(t, Nil)
      else
        // bottom of a 4-node: drop the RED left child, lift the RED right one
        UpdateSize(RotateLeft(t.(left := Nil)))
    else
      Nil
  }

  /** doDeleteMinRecursive leaves every cached size right. */
  lemma {:induction false} DoDeleteMinRecursiveSizes<V>(t: Tree<V>)
    requires Is3Node(t) || Is4Node(t) ==> ReadyToDelete(t)
    requires SizesOk(t)
    ensures SizesOk(DoDeleteMinRecursive(t))
    decreases |Inorder(t)|
  {
    if Is3Node(t) || Is4Node(t) {
      SpineFacts(t);
      var ll := t.left.left;
      var lr := t.left.right;
      assert SizesOk(t.left) && SizesOk(t.right);
      if Is2Node(ll) {
        if Is2Node(lr) {
          MergedBelowReady(t);
          var m := Merge2Nodes(t.left).(color := Black);
          DoDeleteMinRecursiveSizes(m);
        } else {
          BorrowReady(t.left);
          var m := MoveSiblingFromRight(t.left);
          assert SizesOk(m.left) && SizesOk(m.right);
          DoDeleteMinRecursiveSizes(m.left);
        }
      } else if Is3Node(ll) {
        assert SizesOk(ll) && SizesOk(lr);
        DoDeleteMinRecursiveSizes(ll);
      } else if !Is3Node(t) {
        assert SizesOk(t.right.left) && SizesOk(t.right.right);
      }
    }
  }

  /**
   * doDeleteMinRecursive keeps the lean conditions and perfect balance. From
   * a BLACK node it keeps the black height; from a 3-node it keeps the top's
   * colour; and a RED top with a RED left child comes back only from a RED node.
   */
  lemma {:induction false} DoDeleteMinRecursiveBalance<V>(t: Tree<V>)
    requires (Is3Node(t) || Is4Node(t)) && ReadyToDelete(t)
    ensures LeanOk(DoDeleteMinRecursive(t)) && Balanced(DoDeleteMinRecursive(t))
    ensures !IsRed(t) ==> Rank(DoDeleteMinRecursive(t)) == Rank(t)
    ensures !IsRed(t.right) ==> DoDeleteMinRecursive(t).color == t.color
    ensures IsRed(DoDeleteMinRecursive(t)) && IsRed(DoDeleteMinRecursive(t).left) ==> IsRed(t)
    decreases |Inorder(t)|
  {
    SpineFacts(t);
    var ll := t.left.left;
    var lr := t.left.right;
    if Is2Node(ll) {
      if Is2Node(lr) {
        MergedBelowReady(t);
        var m := Merge2Nodes(t.left).(color := Black);
        DoDeleteMinRecursiveBalance(m);
        FixUpRestores(WithLeft(t, UpdateSize(DoDeleteMinRecursive(m))));
      } else {
        BorrowReady(t.left);
        var m := MoveSiblingFromRight(t.left);
        DoDeleteMinRecursiveBalance(m.left);
        var l := WithLeft(m, UpdateSize(DoDeleteMinRecursive(m.left)));
        assert LeanOk(l) && Balanced(l) && Rank(l) == Rank(t.left);
        FixUpRestores(WithLeft(t, l));
      }
    } else if Is3Node(ll) {
      DoDeleteMinRecursiveBalance(ll);
      var l := WithLeft(t.left, UpdateSize(DoDeleteMinRecursive(ll)));
      assert LeanOk(l) && Balanced(l) && Rank(l) == Rank(t.left);
      FixUpRestores(WithLeft(t, l));
    } else if Is3Node(t) {
      LowRank(t.right);
    } else {
      assert Balanced(t.right);
      assert Balanced(t.right.left) && Balanced(t.right.right);
      assert Rank(t.right.left) == Rank(t.right.right) == Rank(t.right) == 1;
      LowRank(t.right.left);
      LowRank(t.right.right);
    }
  }

  /**
   * At the root of a lean, balanced, non-empty tree: the root is a 2- or
   * 3-node; a 3-node root, or a 3-node left child of a 2-node root, is ready
   * for the descent; a 2-node root with a 2-node left child has a 2- or
   * 3-node right child; and a 2-node root whose left slot holds neither is a
   * lone node.
   */
  lemma RootFacts<V>(t: Tree<V>)
    requires t.Node? && LeanOk(t) && Balanced(t)
    ensures Is2Node(t) || Is3Node(t)
    ensures Is3Node(t) ==> ReadyToDelete(t)
    ensures Is2Node(t) && Is3Node(t.left) ==> ReadyToDelete(t.left)
    ensures Is2Node(t) && Is2Node(t.left) ==> Is2Node(t.right) || Is3Node(t.right)
    ensures Is2Node(t) && !Is2Node(t.left) && !Is3Node(t.left) ==> t.left.Nil? && t.right.Nil?
  {
    NodeBlackHeight(t.left);
    if t.left.Nil? {
      LowRank(t.right);
    }
  }

  /**
   * doDeleteMin: prepares the root so that the descent starts from a 3- or
   * 4-node, then removes the smallest binding. An empty tree stays empty and
   * a lone node gives the empty tree.
   */
  function DoDeleteMin<V>(t: Tree<V>): (r: Tree<V>)
    requires LeanOk(t) && Balanced(t)
    ensures t.Nil? ==> r.Nil?
    ensures t.Node? ==> Inorder(r) == Inorder(t)[1..]
  {
    if t.Nil? then Nil
    else
      RootFacts(t);
      if Is2Node(t) then
        if Is2Node(t.left) then
          if Is2Node(t.right) then
            MergedReady(t);
            UpdateSize(DoDeleteMinRecursive(Merge2Nodes(t)))
          else if Is3Node(t.right) then
            BorrowReady(t);
            var m := MoveSiblingFromRight(t);
            TailOfSplit(Inorder(m.left), Binding(m.key, m.value), Inorder(m.right));
            WithLeft(m, DoDeleteMinRecursive(m.left))
          else
            assert false;
            t
        else if Is3Node(t.left) then
          TailOfSplit(Inorder(t.left), Binding(t.key, t.value), Inorder(t.right));
          WithLeft(t, DoDeleteMinRecursive(t.left))
        else
          // a lone 2-node
          Nil
      else if Is3Node(t) then
        UpdateSize(DoDeleteMinRecursive(t))
      else
        assert false;
        t
  }

  /** doDeleteMin keeps the lean conditions and perfect balance. */
  lemma DoDeleteMinBalance<V>(t: Tree<V>)
    requires LeanOk(t) && Balanced(t)
    ensures LeanOk(DoDeleteMin(t)) && Balanced(DoDeleteMin(t))
  {
    if t.Node? {
      RootFacts(t);
      if Is2Node(t) && Is2Node(t.left) {
        if Is2Node(t.right) {
          MergedReady(t);
          DoDeleteMinRecursiveBalance(Merge2Nodes(t));
        } else {
          BorrowReady(t);
          var m := MoveSiblingFromRight(t);
          DoDeleteMinRecursiveBalance(m.left);
        }
      } else if Is2Node(t) && Is3Node(t.left) {
        DoDeleteMinRecursiveBalance(t.left);
      } else if Is3Node(t) {
        DoDeleteMinRecursiveBalance(t);
      }
    }
  }

  /** doDeleteMin leaves every cached size right. */
  lemma DoDeleteMinSizes<V>(t: Tree<V>)
    requires LeanOk(t) && Balanced(t) && SizesOk(t)
    ensures SizesOk(DoDeleteMin(t))
  {
    if t.Node? {
      RootFacts(t);
      assert SizesOk(t.left) && SizesOk(t.right);
      if Is2Node(t) && Is2Node(t.left) {
        if Is2Node(t.right) {
          MergedReady(t);
          DoDeleteMinRecursiveSizes(Merge2Nodes(t));
        } else {
          BorrowReady(t);
          var m := MoveSiblingFromRight(t);
          assert SizesOk(m.left) && SizesOk(m.right);
          DoDeleteMinRecursiveSizes(m.left);
        }
      } else if Is2Node(t) && Is3Node(t.left) {
        DoDeleteMinRecursiveSizes(t.left);
      } else if Is3Node(t) {
        DoDeleteMinRecursiveSizes(t);
      }
    }
  }

  /** deleteMin: doDeleteMin; the root is not repainted. */
  function DeleteMin<V>(t: Tree<V>): (r: Tree<V>)
    requires LeanOk(t) && Balanced(t)
    ensures t.Nil? ==> r.Nil?
    ensures t.Node? ==> Inorder(r) == Inorder(t)[1..]
  {
    DoDeleteMin(t)
  }

  /**
   * deleteMin keeps a valid tree valid, removes exactly its smallest key
   * (every remaining key is larger) and lowers the node count by one.
   */
  lemma DeleteMinKeepsValid<V>(t: Tree<V>)
    requires Valid(t) && t.Node?
    ensures Valid(DeleteMin(t))
    ensures AllAbove(Inorder(DeleteMin(t)), Inorder(t)[0].key)
    ensures GetSize(DeleteMin(t)) == GetSize(t) - 1
  {
    DoDeleteMinBalance(t);
    DoDeleteMinSizes(t);
    SortedHeadIsSmallest(Inorder(t));
  }
}
