// The iterator: in-order successor by parent links. The ghost arguments name the tree the
// pointee belongs to; the program has no such link.

module RadixIterators {
  import opened Strings
  import opened RadixGraph
  import opened RadixSearch
  import opened RadixNodes

  /** `r` is the first leaf of `s` in key order, or null when there is none. */
  ghost predicate FirstOf<V>(g: Graph<RadixTreeNode<V>, V>, r: RadixTreeNode?<V>, s: set<RadixTreeNode<V>>)
  {
    if r == null then s == {} else IsLeast(g, r, s)
  }

  class RadixTreeIterator<V> {
    var pointee: RadixTreeNode?<V>

    constructor (p: RadixTreeNode?<V>)
      ensures pointee == p
    {
      pointee := p;
    }

    method Increment(node: RadixTreeNode<V>, ghost g: Graph<RadixTreeNode<V>, V>, ghost root: RadixTreeNode<V>)
      returns (r: RadixTreeNode?<V>)
      requires WellFormed(g, root) && Mirrored(g) && node in g
      ensures FirstOf(g, r, After(g, node))
      decreases Rank(g[node])
    {
      var parent := node.parent;
      if parent == null {
        assert NodeOk(g, root, node);
        NothingAfterRoot(g, root);
        return null;
      }
      assert NodeOk(g, root, root);
      var _ := Up(g, root, node);
      assert node.key in parent.children;
      var it := Next(parent.children.Keys, node.key);
      if it.None? {
        LastSibling(g, root, node, parent);
        r := Increment(parent, g, root);
      } else {
        var _ := Down(g, root, parent, it.value);
        r := Descend(parent.children[it.value], g, root);
        Successor(g, root, node, parent, it.value, r);
      }
    }

    method Descend(node: RadixTreeNode<V>, ghost g: Graph<RadixTreeNode<V>, V>, ghost root: RadixTreeNode<V>)
      returns (r: RadixTreeNode<V>)
      requires WellFormed(g, root) && Mirrored(g) && node in g && node != root
      ensures IsLeast(g, r, Below(g, node))
      decreases Higher(g, node)
    {
      if node.isLeaf {
        return node;
      }
      assert Compact(g[node]);
      assert node.children != map[];
      assert node.children.Keys != {};
      var it := First(node.children.Keys);
      var c := Down(g, root, node, it);
      HigherShrinks(g, node, c);
      r := Descend(node.children[it], g, root);
      LeastBelow(g, root, node, it, r);
    }

    /** `operator++`: to the next stored key, or to `end()`, which stays `end()`. */
    method Advance(ghost g: Graph<RadixTreeNode<V>, V>, ghost root: RadixTreeNode<V>)
      requires pointee != null ==> WellFormed(g, root) && Mirrored(g) && pointee in g
      modifies this`pointee
      ensures if old(pointee) == null then pointee == null else FirstOf(g, pointee, After(g, old(pointee)))
    {
      if pointee != null {
        pointee := Increment(pointee, g, root);
      }
    }

    /** `operator++(int)`: advances, and returns an iterator to where it was. */
    method PostAdvance(ghost g: Graph<RadixTreeNode<V>, V>, ghost root: RadixTreeNode<V>)
      returns (copy: RadixTreeIterator<V>)
      requires pointee != null ==> WellFormed(g, root) && Mirrored(g) && pointee in g
      modifies this`pointee
      ensures fresh(copy) && copy.pointee == old(pointee)
      ensures if old(pointee) == null then pointee == null else FirstOf(g, pointee, After(g, old(pointee)))
    {
      copy := new RadixTreeIterator(pointee);
      Advance(g, root);
    }
  }
}
