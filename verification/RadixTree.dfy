// The radix tree: a linked structure that answers as a map from strings to values.
//
// `contents` is the map. `g` is the structure in the heap as a value; Linked ties the two to
// the real fields. `freed` lists the nodes the tree has deleted.

module RadixTrees {
  import opened Sequences
  import opened Strings
  import opened RadixGraph
  import opened RadixEdits
  import opened RadixSearch
  import opened RadixUpdates
  import opened RadixCanon
  import opened RadixNodes
  import opened RadixIterators

  /** The nodes that were constructed are those in use and those that have been freed. */
  ghost predicate NoneLost<N>(made: set<N>, freed: seq<N>, used: set<N>)
  {
    used <= made && (forall x :: x in freed ==> x in made) && forall x :: x in made ==> x in used || x in freed
  }

  lemma NoneLostGrown<N>(made: set<N>, freed: seq<N>, used: set<N>, grown: set<N>)
    requires NoneLost(made, freed, used)
    ensures NoneLost(made + grown, freed, used + grown)
  {
  }

  lemma NoneLostFreed<N>(made: set<N>, freed: seq<N>, used: set<N>, gone: seq<N>, left: set<N>)
    requires NoneLost(made, freed, used) && left <= used && Elements(gone) == used - left
    ensures NoneLost(made, freed + gone, left)
  {
    forall x | x in gone ensures x in made { assert x in Elements(gone); }
    forall x | x in made && x !in left ensures x in freed + gone {
      if x in used { assert x in Elements(gone); }
    }
  }

  /** A childless node `p` and then the nodes in `rest` leave. */
  lemma GoneInOrder<N, V>(g: Graph<N, V>, root: N, p: N, left: set<N>, rest: seq<N>)
    requires WellLinked(g, root) && p in g && g[p].children == map[] && g[p].parent.Some? && g[p].parent.value in g
    requires left <= DropInner(g, p).Keys && g[p].parent.value != p
    requires NoRepeats(rest) && Elements(rest) == DropInner(g, p).Keys - left && ChildrenFirst(DropInner(g, p), rest)
    ensures NoRepeats([p] + rest) && Elements([p] + rest) == g.Keys - left && ChildrenFirst(g, [p] + rest)
  {
    assert DropInner(g, p).Keys == g.Keys - {p};
    GoneTogether(g.Keys, DropInner(g, p).Keys, left, [p], rest);
    assert forall x :: x in rest ==> x in Elements(rest);
    FreedFirst(g, root, DropInner(g, p), p, rest);
  }

  lemma MadeTogether<N>(made: set<N>, a: N, b: N, x: N, few: bool)
    ensures (made + {a}) + (if few then {x} else {b, x}) == made + if few then {a, x} else {a, b, x}
  {
  }

  class RadixTree<V> {
    var size: nat
    var root: RadixTreeNode?<V>

    ghost const arena: Arena<V>
    ghost var g: Graph<RadixTreeNode<V>, V>
    ghost var contents: map<string, V>
    ghost var freed: seq<RadixTreeNode<V>>

    /** The heap holds a well-formed tree that stores `contents`; no node was freed twice, and
        no freed node is in use. */
    ghost predicate Linked()
      reads this, g.Keys
    {
      Mirrored(g) && NoRepeats(freed) && (forall x :: x in freed ==> x !in g) &&
      if root == null then g == map[] && contents == map[] else WellFormed(g, root) && Represents(g, contents)
    }

    /** Every node that was ever constructed for the tree is part of it or has been freed. */
    ghost predicate Valid()
      reads this, arena, g.Keys, freed`alive, freed`value
    {
      Linked() && size == |contents| && NoneLost(arena.made, freed, g.Keys) && Dead(freed)
    }

    constructor ()
      ensures Valid() && root == null && contents == map[] && g == map[] && freed == [] && fresh(arena)
    {
      size, root := 0, null;
      arena := new Arena();
      g, contents, freed := map[], map[], [];
    }

    predicate Empty()
      requires Valid()
      reads this, arena, g.Keys, freed`alive, freed`value
      ensures Empty() <==> contents == map[]
    {
      assert contents == map[] <==> |contents| == 0;
      size == 0
    }

    // ----- Search -----

    method FindNode(key: string, node: RadixTreeNode<V>, depth: int) returns (r: RadixTreeNode<V>)
      requires Linked() && root != null && node in g && !g[node].isLeaf
      requires g[node].path <= key && depth == |g[node].path|
      ensures Stops(g, root, key, r) && r in g
      decreases |key| - depth
    {
      if node.children == map[] {
        NoLabel(g, root, key, node);
        return node;
      }
      var lenKey := |key| - depth;
      var labels := InOrder(node.children.Keys);
      var i := 0;
      while i < |labels|
        invariant 0 <= i <= |labels|
        invariant forall j :: 0 <= j < i ==> Passed(g, node, key, labels[j])
      {
        assert labels[i] in Elements(labels);
        var first, second := labels[i], node.children[labels[i]];
        ghost var _ := Down(g, root, node, first);
        if lenKey == 0 {
          if second.isLeaf {
            return second;
          }
        } else if !second.isLeaf && key[depth] == first[0] {
          var lenNode := |first|;
          var keySub := Substr(key, depth, lenNode);
          if keySub == first {
            MatchedLabel(g, root, key, node, first);
            r := FindNode(key, second, depth + lenNode);
            return r;
          } else {
            PartedLabel(g, root, key, node, first);
            return second;
          }
        }
        i := i + 1;
      }
      forall k | k in g[node].children ensures Passed(g, node, key, k) {
        assert k in Elements(labels);
      }
      NoLabel(g, root, key, node);
      return node;
    }

    /** find_node from the root, and what its answer says about the map. */
    method Locate(key: string) returns (node: RadixTreeNode<V>)
      requires Linked() && root != null
      ensures node in g && Stops(g, root, key, node) && node.isLeaf == g[node].isLeaf
      ensures node.isLeaf <==> key in contents
      ensures key in contents ==> LeafFor(g, node, key) && node.value == Some((key, contents[key]))
      ensures g[node].parent.Some? ==> g[node].parent.value in g && g[node].parent.value == node.parent
      ensures g[node].parent.None? ==> node.parent == null
    {
      RootFacts(g, root);
      node := FindNode(key, root, 0);
      StopDecides(g, root, contents, key, node);
      assert NodeOk(g, root, node);
    }

    method Find(key: string) returns (it: RadixTreeNode?<V>)
      requires Valid()
      ensures it == null <==> key !in contents
      ensures it != null ==> LeafFor(g, it, key) && it.isLeaf && it.value == Some((key, contents[key]))
    {
      if root == null {
        return null;
      }
      var node := Locate(key);
      if !node.isLeaf {
        return null;
      }
      return node;
    }

    method LongestMatch(key: string) returns (it: RadixTreeNode?<V>)
      requires Valid()
      ensures it == null <==> forall k :: k in contents ==> !(k <= key)
      ensures it != null ==> it in g && it.isLeaf
      ensures it != null ==> exists k :: LongestPrefix(contents, key, k) && it.value == Some((k, contents[k]))
    {
      if root == null {
        return null;
      }
      var found := Locate(key);
      if found.isLeaf {
        assert LongestPrefix(contents, key, key);
        return found;
      }
      LongestStart(g, root, contents, key, found);
      var keySub := Substr(key, found.depth, |found.key|);
      var node: RadixTreeNode?<V> := found;
      if keySub != found.key {
        node := found.parent;
      }
      while node != null
        invariant node != null ==> node in g && Candidate(g, contents, key, node)
        invariant node == null ==> forall k :: k in contents ==> !(k <= key)
        decreases if node == null then 0 else 1 + Rank(g[node])
      {
        LongestStep(g, root, contents, key, node);
        if "" in node.children && node.children[""].isLeaf {
          assert LongestPrefix(contents, key, g[node].path);
          return node.children[""];
        }
        node := node.parent;
      }
      return null;
    }

    // ----- Lists of entries -----

    /** `vec` points to the entries of `keys`, each once, in ascending key order. */
    ghost predicate Lists(vec: seq<RadixTreeNode<V>>, keys: set<string>)
      reads this, vec
    {
      exists s: seq<string> :: Ascending(s) && Elements(s) == keys && Shows(vec, s)
    }

    ghost predicate Shows(vec: seq<RadixTreeNode<V>>, s: seq<string>)
      reads this, vec
    {
      |s| == |vec| &&
      forall i :: 0 <= i < |vec| ==> vec[i] in g && vec[i].isLeaf && Bound(contents, s[i], vec[i].value)
    }

    lemma Publish(vec: seq<RadixTreeNode<V>>, leaves: set<RadixTreeNode<V>>, keys: set<string>)
      requires Linked() && root != null && ListOf(g, vec, leaves) && keys <= contents.Keys
      requires forall x :: x in leaves <==> x in g && g[x].isLeaf && g[x].path in keys
      ensures Lists(vec, keys)
    {
      ListShows(g, root, contents, vec, leaves, keys);
      assert Shows(vec, PathList(g, vec));
    }

    lemma PublishNone()
      requires Linked() && root == null
      ensures Lists([], contents.Keys) && contents == map[] && ListOf(g, [], Leaves(g))
    {
      assert Elements<string>([]) == contents.Keys && Shows([], []);
    }

    lemma PublishAll(vec: seq<RadixTreeNode<V>>)
      requires Linked() && root != null && ListOf(g, vec, Leaves(g))
      ensures Lists(vec, contents.Keys) && |vec| == |contents|
    {
      LeafCount(g, root, contents);
      ListLength(g, root, vec, Leaves(g));
      forall x | x in g && g[x].isLeaf ensures g[x].path in contents {
        assert Bound(contents, g[x].path, g[x].value);
      }
      Publish(vec, Leaves(g), contents.Keys);
    }

    /** The recursive greedy_match: appends the leaves below `node` to `vec`. */
    method Collect(node: RadixTreeNode<V>, vec: seq<RadixTreeNode<V>>)
      returns (all: seq<RadixTreeNode<V>>, ghost mine: seq<RadixTreeNode<V>>)
      requires Linked() && root != null && node in g
      ensures all == vec + mine && ListOf(g, mine, Below(g, node))
      ensures |vec| <= |all| && all[..|vec|] == vec && ListOf(g, all[|vec|..], Below(g, node))
      decreases Higher(g, node)
    {
      if node.isLeaf {
        all, mine := vec + [node], [node];
        assert all[|vec|..] == mine;
        return;
      }
      all, mine := vec, [];
      var labels := InOrder(node.children.Keys);
      var i := 0;
      while i < |labels|
        invariant 0 <= i <= |labels|
        invariant all == vec + mine && ListOf(g, mine, BelowLabels(g, node, labels[..i]))
      {
        assert labels[i] in Elements(labels);
        ghost var c := Down(g, root, node, labels[i]);
        HigherShrinks(g, node, c);
        ghost var more;
        all, more := Collect(node.children[labels[i]], all);
        ListMore(g, root, node, labels, i, mine, more);
        JoinAssociates(vec, mine, more);
        mine, i := mine + more, i + 1;
      }
      assert labels[..i] == labels;
      AllLabels(g, root, node, labels);
      assert all[|vec|..] == mine;
    }

    method PrefixMatch(key: string) returns (vec: seq<RadixTreeNode<V>>)
      requires Valid()
      ensures Lists(vec, set k | k in contents && key <= k)
    {
      vec := [];
      ghost var keys := set k | k in contents && key <= k;
      if root == null {
        assert Elements<string>([]) == keys && Shows(vec, []);
        return;
      }
      var found := Locate(key);
      var node := found;
      if node.isLeaf {
        node := node.parent;
      }
      PrefixCut(g, root, key, found);
      var len := |key| - node.depth;
      var keySub1 := Substr(key, node.depth, len);
      var keySub2 := Substr(node.key, 0, len);
      PrefixKeys(g, root, contents, key, found);
      if keySub1 != keySub2 {
        Publish(vec, {}, keys);
        return;
      }
      ghost var below;
      vec, below := Collect(node, vec);
      Publish(vec, Below(g, node), keys);
    }

    method GreedyMatch(key: string) returns (vec: seq<RadixTreeNode<V>>)
      requires Valid()
      ensures Lists(vec, set k | k in contents && forall j :: j in contents ==> Lcp(j, key) <= Lcp(k, key))
    {
      vec := [];
      ghost var keys := set k | k in contents && forall j :: j in contents ==> Lcp(j, key) <= Lcp(k, key);
      if root == null {
        assert Elements<string>([]) == keys && Shows(vec, []);
        return;
      }
      var found := Locate(key);
      var node := found;
      if node.isLeaf {
        node := node.parent;
      }
      GreedyKeys(g, root, contents, key, found);
      ghost var below;
      vec, below := Collect(node, vec);
      Publish(vec, Below(g, node), keys);
    }

    // ----- Insertion -----

    /** The heap holds the structure `h`, which stores `m`: from here on that is the tree. */
    ghost method Adopt(h: Graph<RadixTreeNode<V>, V>, m: map<string, V>)
      requires root != null && WellFormed(h, root) && Represents(h, m) && Mirrored(h)
      requires Dead(freed) && NoRepeats(freed) && forall x :: x in freed ==> x !in h
      modifies this`g, this`contents
      ensures g == h && contents == m && Linked() && Dead(freed)
    {
      g, contents := h, m;
    }

    twostate predicate Steady()
      reads this
    {
      root == old(root) && freed == old(freed)
    }

    /** `it` is the leaf of a new entry, the tree has grown by new nodes, and erasing `it` would
        undo the change. */
    twostate predicate Inserted(new it: RadixTreeNode<V>, val: (string, V))
      reads this
    {
      root != null && contents == old(contents)[val.0 := val.1] &&
      LeafFor(g, it, val.0) && WellLinked(g, root) && Erased(g, root, it) == old(g)
    }

    method AppendNodes(parent: RadixTreeNode<V>, val: (string, V))
      returns (it: RadixTreeNode<V>, ghost inner: RadixTreeNode<V>, ghost extra: Option<(string, V)>,
               ghost grown: set<RadixTreeNode<V>>)
      requires parent in g && Mirrored(g) && g[parent].path <= val.0 && Dead(freed)
      requires g[parent].depth + |g[parent].key| == |g[parent].path|
      modifies parent`children, arena
      ensures arena.made == old(arena.made) + grown && Dead(freed)
      ensures fresh(grown) && it in grown && inner in grown && it !in g
      ensures grown == (if |g[parent].path| == |val.0| then {it} else {inner, it})
      ensures |g[parent].path| < |val.0| ==> inner !in g && inner != it
      ensures Mirrored(Appended(g, parent, inner, it, val.0, val.1, extra))
    {
      var depth := parent.depth + |parent.key|;
      var len := |val.0| - depth;
      if len == 0 {
        it := parent.HangLeaf(val, depth, arena, g);
        inner, extra, grown := it, None, {it};
      } else {
        var nodeC := new RadixTreeNode.WithValue(val, arena);
        var keySub := Substr(val.0, depth, len);
        inner, extra := nodeC, Some(val);
        it := parent.HangEntry(nodeC, val, depth, keySub, depth + len, arena, g);
        grown := {inner, it};
      }
    }

    method PrependNodes(node: RadixTreeNode<V>, val: (string, V))
      returns (it: RadixTreeNode<V>, ghost a: RadixTreeNode<V>, ghost inner: RadixTreeNode<V>, ghost count: nat,
               ghost grown: set<RadixTreeNode<V>>)
      requires root != null && WellLinked(g, root) && Mirrored(g) && StopsInEdge(g, root, val.0, node) && Dead(freed)
      modifies node`depth, node`parent, node`key, g.Keys`children, arena
      ensures unchanged(this) && arena.made == old(arena.made) + grown && Dead(freed)
      ensures CanPrepend(g, root, node, a, inner, it, count, val.0) && fresh(grown)
      ensures grown == (if g[node].depth + count == |val.0| then {a, it} else {a, inner, it})
      ensures Mirrored(Prepended(g, node, a, inner, it, count, val.0, val.1))
    {
      ghost var made := arena.made;
      var nodeA, n, len2 := Cleave(node, val.0);
      a, count := nodeA, n;
      ghost var h := Split(g, node, nodeA, n);
      ghost var more;
      it, inner, more := Branch(nodeA, node.depth, n, len2, val, h);
      ghost var few := g[node].depth + count == |val.0|;
      grown := if few then {nodeA, it} else {nodeA, inner, it};
      MadeTogether(made, nodeA, inner, it, few);
    }

    /** The start of prepend: how much the key shares with the label, the assertion, and the split. */
    method Cleave(node: RadixTreeNode<V>, key: string) returns (nodeA: RadixTreeNode<V>, count: nat, len2: int)
      requires root != null && WellLinked(g, root) && Mirrored(g) && StopsInEdge(g, root, key, node) && Dead(freed)
      modifies node`depth, node`parent, node`key, g.Keys`children, arena
      ensures unchanged(this) && arena.made == old(arena.made) + {nodeA} && fresh(nodeA) && Dead(freed)
      ensures CanSplit(g, root, node, nodeA, count) && count == Lcp(g[node].key, key[g[node].depth..])
      ensures g[node].path[..g[node].depth + count] <= key && len2 == |key| - g[node].depth
      ensures node.depth == g[node].depth + count && Mirrored(Split(g, node, nodeA, count))
      ensures var r := Split(g, node, nodeA, count)[nodeA]; r.path <= key && r.depth + count == |r.path| == node.depth
    {
      len2 := |key| - node.depth;
      count := SharedLength(node, key);
      EdgeFacts(g, root, key, node, count);
      assert count != 0;
      nodeA := node.SplitEdge(count, arena, g);
      assert node.Mirrors(Split(g, node, nodeA, count)[node]);
    }

    /** The end of prepend: the entry hangs below the new node, or below another new one. */
    method Branch(nodeA: RadixTreeNode<V>, depth: int, count: nat, len2: int, val: (string, V),
                  ghost h: Graph<RadixTreeNode<V>, V>)
      returns (it: RadixTreeNode<V>, ghost inner: RadixTreeNode<V>, ghost grown: set<RadixTreeNode<V>>)
      requires nodeA in h && Mirrored(h) && h[nodeA].path <= val.0
      requires h[nodeA].depth + count == |h[nodeA].path| == depth
      requires len2 - count == |val.0| - |h[nodeA].path| && Dead(freed)
      modifies nodeA`children, arena
      ensures fresh(grown) && it !in h && arena.made == old(arena.made) + grown && Dead(freed)
      ensures grown == (if |h[nodeA].path| == |val.0| then {it} else {inner, it})
      ensures |h[nodeA].path| < |val.0| ==> inner !in h && inner != it
      ensures Mirrored(Appended(h, nodeA, inner, it, val.0, val.1, None))
    {
      if count == len2 {
        it := nodeA.HangLeaf(val, nodeA.depth + count, arena, h);
        inner, grown := it, {it};
      } else {
        var nodeB := new RadixTreeNode(arena);
        var keySub := Substr(val.0, depth, len2 - count);
        inner := nodeB;
        it := nodeA.HangEntry(nodeB, val, depth, keySub, |val.0|, arena, h);
        grown := {inner, it};
      }
    }

    /** The loop of prepend: how much of the label of `node` the key shares. */
    method SharedLength(node: RadixTreeNode<V>, key: string) returns (count: nat)
      requires 0 <= node.depth <= |key|
      ensures count == Lcp(node.key, key[node.depth..])
    {
      var len1, len2 := |node.key|, |key| - node.depth;
      ghost var rest := key[node.depth..];
      count := 0;
      while count < len1 && count < len2
        invariant 0 <= count <= len1 && count <= len2 && node.key[..count] == rest[..count]
      {
        if node.key[count] != key[count + node.depth] {
          break;
        }
        count := count + 1;
      }
      LcpUnique(node.key, rest, count);
    }

    /** append. */
    method Append(parent: RadixTreeNode<V>, val: (string, V))
      returns (it: RadixTreeNode<V>, ghost grown: set<RadixTreeNode<V>>)
      requires Linked() && root != null && StopsAtNode(g, val.0, parent) && val.0 !in contents && Dead(freed)
      requires NoneLost(arena.made, freed, g.Keys)
      modifies this`g, this`contents, parent`children, arena
      ensures old(arena.made) <= arena.made && NoneLost(arena.made, freed, g.Keys) && Dead(freed)
      ensures Linked() && g.Keys == old(g.Keys) + grown && fresh(grown) && Inserted(it, val) && Steady() && size == old(size)
    {
      LabelEnds(g, root, parent);
      ghost var inner, extra, made;
      made := arena.made;
      it, inner, extra, grown := AppendNodes(parent, val);
      NoneLostGrown(made, freed, g.Keys, grown);
      AdoptAppended(parent, inner, it, val, extra, grown);
    }

    /** append, once the heap is as it should be. */
    ghost method AdoptAppended(parent: RadixTreeNode<V>, inner: RadixTreeNode<V>, it: RadixTreeNode<V>, val: (string, V),
                               extra: Option<(string, V)>, grown: set<RadixTreeNode<V>>)
      requires root != null && WellFormed(g, root) && Represents(g, contents) && val.0 !in contents
      requires StopsAtNode(g, val.0, parent) && it !in g && (|g[parent].path| < |val.0| ==> inner !in g && inner != it)
      requires grown == if |g[parent].path| == |val.0| then {it} else {inner, it}
      requires Mirrored(Appended(g, parent, inner, it, val.0, val.1, extra))
      requires Dead(freed) && NoRepeats(freed) && forall x :: x in freed ==> x !in g && x !in grown
      modifies this`g, this`contents
      ensures Linked() && g.Keys == old(g.Keys) + grown && Inserted(it, val) && root == old(root) && Dead(freed)
    {
      AppendedFully(g, root, contents, parent, inner, it, val.0, val.1, extra);
      Adopt(Appended(g, parent, inner, it, val.0, val.1, extra), contents[val.0 := val.1]);
    }

    /** prepend. */
    method Prepend(node: RadixTreeNode<V>, val: (string, V))
      returns (it: RadixTreeNode<V>, ghost grown: set<RadixTreeNode<V>>)
      requires Linked() && root != null && StopsInEdge(g, root, val.0, node) && val.0 !in contents && Dead(freed)
      requires NoneLost(arena.made, freed, g.Keys)
      modifies this`g, this`contents, node`depth, node`parent, node`key, g.Keys`children, arena
      ensures old(arena.made) <= arena.made && NoneLost(arena.made, freed, g.Keys) && Dead(freed)
      ensures Linked() && g.Keys == old(g.Keys) + grown && fresh(grown) && Inserted(it, val) && Steady() && size == old(size)
    {
      ghost var a, inner, count, made;
      made := arena.made;
      it, a, inner, count, grown := PrependNodes(node, val);
      NoneLostGrown(made, freed, g.Keys, grown);
      AdoptPrepended(node, a, inner, it, count, val, grown);
    }

    /** prepend, once the heap is as it should be. */
    ghost method AdoptPrepended(node: RadixTreeNode<V>, a: RadixTreeNode<V>, inner: RadixTreeNode<V>, it: RadixTreeNode<V>,
                                count: nat, val: (string, V), grown: set<RadixTreeNode<V>>)
      requires root != null && WellFormed(g, root) && Represents(g, contents) && val.0 !in contents
      requires StopsInEdge(g, root, val.0, node) && CanPrepend(g, root, node, a, inner, it, count, val.0)
      requires grown == if g[node].depth + count == |val.0| then {a, it} else {a, inner, it}
      requires Mirrored(Prepended(g, node, a, inner, it, count, val.0, val.1))
      requires Dead(freed) && NoRepeats(freed) && forall x :: x in freed ==> x !in g && x !in grown
      modifies this`g, this`contents
      ensures Linked() && g.Keys == old(g.Keys) + grown && Inserted(it, val) && root == old(root) && Dead(freed)
    {
      PrependedFully(g, root, contents, node, a, inner, it, count, val.0, val.1);
      Adopt(Prepended(g, node, a, inner, it, count, val.0, val.1), contents[val.0 := val.1]);
    }

    method PlantRoot()
      requires Valid() && root == null
      modifies this`root, this`g, arena
      ensures Valid() && root != null && fresh(root) && g.Keys == {root}
      ensures contents == old(contents) && freed == old(freed) && old(arena.made) <= arena.made
    {
      root := new RadixTreeNode(arena);
      g := Bare<RadixTreeNode<V>, V>(root);
      BareOk<RadixTreeNode<V>, V>(root);
    }

    /** The cases of insert for a key that is not stored. */
    method Place(node: RadixTreeNode<V>, val: (string, V))
      returns (it: RadixTreeNode<V>, ghost grown: set<RadixTreeNode<V>>)
      requires Valid() && root != null && Stops(g, root, val.0, node) && !g[node].isLeaf && val.0 !in contents
      modifies this`size, this`g, this`contents, arena
      modifies node`depth, node`parent, node`key, g.Keys`children
      ensures Valid() && g.Keys == old(g.Keys) + grown && fresh(grown) && Inserted(it, val) && Steady()
      ensures old(arena.made) <= arena.made
    {
      StopCases(g, root, val.0, node);
      MapSize(contents, val.0, val.1);
      size := size + 1;
      var full := node == root;
      if !full {
        var len := |node.key|;
        var keySub := Substr(val.0, node.depth, len);
        full := keySub == node.key;
      }
      if full {
        it, grown := Append(node, val);
      } else {
        it, grown := Prepend(node, val);
      }
    }

    method Insert(val: (string, V)) returns (it: RadixTreeNode<V>, added: bool)
      requires Valid()
      modifies this, arena, g.Keys
      ensures Valid() && root != null && freed == old(freed) && (old(root) != null ==> root == old(root))
      ensures old(g.Keys) <= g.Keys && fresh(g.Keys - old(g.Keys)) && old(arena.made) <= arena.made
      ensures added <==> val.0 !in old(contents)
      ensures contents == if added then old(contents)[val.0 := val.1] else old(contents)
      ensures LeafFor(g, it, val.0) && it.isLeaf && it.value == Some((val.0, contents[val.0]))
      ensures KeepsLeaves(old(g), g, {})
      ensures old(root) != null ==> if added then Erased(g, root, it) == old(g) else g == old(g)
    {
      ghost var grown;
      if root != null {
        it, added, grown := InsertBelow(val);
      } else {
        PlantRoot();
        it, added, grown := InsertBelow(val);
      }
    }

    /** The rest of insert, once there is a root. */
    method InsertBelow(val: (string, V))
      returns (it: RadixTreeNode<V>, added: bool, ghost grown: set<RadixTreeNode<V>>)
      requires Valid() && root != null
      modifies this`size, this`g, this`contents, g.Keys, arena
      ensures Valid() && g.Keys == old(g.Keys) + grown && fresh(grown) && Steady() && old(arena.made) <= arena.made
      ensures added <==> val.0 !in old(contents)
      ensures added ==> Inserted(it, val)
      ensures !added ==> g == old(g) && contents == old(contents)
      ensures KeepsLeaves(old(g), g, {})
      ensures LeafFor(g, it, val.0) && it.isLeaf && it.value == Some((val.0, contents[val.0]))
    {
      var node := Locate(val.0);
      if node.isLeaf {
        it, added, grown := node, false, {};
      } else {
        added := true;
        it, grown := Place(node, val);
        ErasedKeeps(g, root, it);
        assert Bound(contents, g[it].path, g[it].value) && it.Mirrors(g[it]);
      }
    }

    // ----- Deletion -----
    // The steps of erase do not look at the tree object, only at its root. A node is alive
    // whenever a step reads or writes its fields, also after other nodes have been freed.

    /** The merge at the end of erase. */
    static method MergeUp(root: RadixTreeNode<V>, grandparent: RadixTreeNode<V>, ghost h: Graph<RadixTreeNode<V>, V>)
      returns (gone: seq<RadixTreeNode<V>>)
      requires WellLinked(h, root) && Mirrored(h) && grandparent in h
      modifies h.Keys
      ensures Mirrored(Merged(h, root, grandparent)) && Merged(h, root, grandparent).Keys <= h.Keys
      ensures NoRepeats(gone) && Elements(gone) == h.Keys - Merged(h, root, grandparent).Keys
      ensures Dead(gone) && ChildrenFirst(h, gone)
    {
      gone := [];
      assert grandparent.alive;
      if grandparent != root && |grandparent.children| == 1 {
        assert grandparent.children.Keys != {};
        var it := First(grandparent.children.Keys);
        MergeFacts(h, root, grandparent, it);
        var uncle := grandparent.children[it];
        assert uncle.alive;
        if !uncle.isLeaf {
          gone := grandparent.MergeWith(uncle, h);
        }
      }
    }

    /** erase, from the parent left with at most one child on. */
    static method Prune(root: RadixTreeNode<V>, parent: RadixTreeNode<V>, ghost h: Graph<RadixTreeNode<V>, V>)
      returns (gone: seq<RadixTreeNode<V>>)
      requires WellLinked(h, root) && Mirrored(h) && parent in h && parent != root && !h[parent].isLeaf
      modifies h.Keys
      ensures Mirrored(Pruned(h, root, parent)) && Pruned(h, root, parent).Keys <= h.Keys
      ensures NoRepeats(gone) && Elements(gone) == h.Keys - Pruned(h, root, parent).Keys
      ensures Dead(gone) && ChildrenFirst(h, gone)
    {
      if parent.children == map[] {
        EmptiedFacts(h, root, parent);
        var grandparent := parent.parent;
        assert parent.alive && grandparent.alive;
        var only := parent.Remove(parent.key, h);
        gone := MergeUp(root, grandparent, DropInner(h, parent));
        GoneInOrder(h, root, parent, Pruned(h, root, parent).Keys, gone);
        gone := only + gone;
      } else {
        gone := MergeUp(root, parent, h);
      }
    }

    /** erase, once the leaf below `parent` is gone. */
    static method PruneIfLoose(root: RadixTreeNode<V>, parent: RadixTreeNode<V>, ghost h: Graph<RadixTreeNode<V>, V>)
      returns (gone: seq<RadixTreeNode<V>>)
      requires WellLinked(h, root) && Mirrored(h) && parent in h && !h[parent].isLeaf
      modifies h.Keys
      ensures Mirrored(PrunedIfLoose(h, root, parent)) && PrunedIfLoose(h, root, parent).Keys <= h.Keys
      ensures NoRepeats(gone) && Elements(gone) == h.Keys - PrunedIfLoose(h, root, parent).Keys
      ensures Dead(gone) && ChildrenFirst(h, gone)
    {
      assert parent.alive;
      if parent == root || |parent.children| > 1 {
        gone := [];
      } else {
        gone := Prune(root, parent, h);
      }
    }

    /** erase, once find_node has stopped at the leaf `child`. */
    static method EraseNodes(root: RadixTreeNode<V>, child: RadixTreeNode<V>, ghost g: Graph<RadixTreeNode<V>, V>)
      returns (gone: seq<RadixTreeNode<V>>)
      requires WellLinked(g, root) && Mirrored(g) && child in g && g[child].isLeaf
      modifies g.Keys
      ensures Mirrored(Erased(g, root, child)) && Erased(g, root, child).Keys <= g.Keys
      ensures NoRepeats(gone) && Elements(gone) == g.Keys - Erased(g, root, child).Keys
      ensures Dead(gone) && ChildrenFirst(g, gone)
    {
      LeafFacts(g, root, child);
      var parent := child.parent;
      gone := child.Remove("", g);
      ghost var h := DropLeaf(g, child);
      var rest := PruneIfLoose(root, parent, h);
      assert Dead(gone + rest);
      GoneInOrder(g, root, child, Erased(g, root, child).Keys, rest);
      gone := gone + rest;
    }

    /** The heap holds what is left, `h`, which stores `m`; the nodes in `gone` were freed. */
    ghost method Retire(h: Graph<RadixTreeNode<V>, V>, m: map<string, V>, gone: seq<RadixTreeNode<V>>)
      requires root != null && WellFormed(h, root) && Represents(h, m) && Mirrored(h) && h.Keys <= g.Keys
      requires NoRepeats(freed) && (forall x :: x in freed ==> x !in g) && Dead(freed + gone)
      requires NoRepeats(gone) && Elements(gone) == g.Keys - h.Keys
      modifies this`g, this`contents, this`freed
      ensures g == h && contents == m && freed == old(freed) + gone && Linked() && Dead(freed)
    {
      assert forall x :: x in gone ==> x in Elements(gone);
      NoRepeatsJoin(freed, gone);
      g, contents, freed := h, m, freed + gone;
    }

    method Detach(child: RadixTreeNode<V>) returns (gone: seq<RadixTreeNode<V>>)
      requires Dead(freed) && forall x :: x in freed ==> x !in g
      requires root != null && WellLinked(g, root) && Mirrored(g) && child in g && g[child].isLeaf
      modifies g.Keys
      ensures unchanged(this, arena) && Dead(freed + gone)
      ensures Mirrored(Erased(g, root, child)) && Erased(g, root, child).Keys <= g.Keys
      ensures NoRepeats(gone) && Elements(gone) == g.Keys - Erased(g, root, child).Keys
      ensures Dead(gone) && ChildrenFirst(g, gone)
    {
      gone := EraseNodes(root, child, g);
    }

    method EraseLeaf(child: RadixTreeNode<V>, ghost key: string) returns (ghost gone: seq<RadixTreeNode<V>>)
      requires Valid() && root != null && LeafFor(g, child, key)
      modifies this`size, this`g, this`contents, this`freed, g.Keys
      ensures Valid() && root == old(root) && contents == old(contents) - {key}
      ensures freed == old(freed) + gone && Elements(gone) == old(g.Keys) - g.Keys && g.Keys <= old(g.Keys)
      ensures Dead(gone) && ChildrenFirst(old(g), gone)
      ensures WellLinked(old(g), root) && g == Erased(old(g), root, child)
    {
      ErasedFully(g, root, contents, child);
      ghost var h, m := Erased(g, root, child), contents - {key};
      assert WellFormed(h, root) && Represents(h, m);
      size := size - 1;
      var dead := Detach(child);
      gone := dead;
      assert Mirrored(h);
      NoneLostFreed(arena.made, freed, g.Keys, gone, h.Keys);
      Retire(h, m, gone);
    }

    /** erase: true exactly when the key was stored; the nodes freed are those that left the tree. */
    method Erase(key: string) returns (erased: bool)
      requires Valid()
      modifies this`size, this`g, this`contents, this`freed, g.Keys
      ensures Valid() && root == old(root) && contents == old(contents) - {key}
      ensures erased <==> key in old(contents)
      ensures g.Keys <= old(g.Keys) && old(freed) <= freed
      ensures Elements(freed[|old(freed)|..]) == old(g.Keys) - g.Keys
      ensures Dead(freed[|old(freed)|..]) && ChildrenFirst(old(g), freed[|old(freed)|..])
      ensures KeepsLeaves(old(g), g, {key}) && KeepsLeaves(g, old(g), {})
      ensures erased ==> forall x :: x in old(g) && LeafFor(old(g), x, key) ==> g == Erased(old(g), root, x)
      ensures !erased ==> g == old(g) && freed == old(freed)
    {
      if root == null {
        return false;
      }
      var child := Locate(key);
      if !child.isLeaf {
        return false;
      }
      OneLeaf(g, root, child, key);
      ErasedKeeps(g, root, child);
      ghost var gone := EraseLeaf(child, key);
      assert freed[|old(freed)|..] == gone;
      return true;
    }

    /** `delete m_root`. */
    method DestroyRoot() returns (gone: seq<RadixTreeNode<V>>)
      requires root != null && WellLinked(g, root) && Mirrored(g)
      modifies g.Keys
      ensures unchanged(this, arena) && NoRepeats(gone) && Elements(gone) == g.Keys && Dead(gone)
      ensures ChildrenFirst(g, gone) && gone[|gone| - 1] == root
    {
      LinkedIsTidy(g, root);
      gone := root.Destroy(g);
    }

    /** clear, and the destructor: every node of the tree is freed, once. */
    method Clear()
      requires Valid()
      modifies this, g.Keys
      ensures Valid() && root == null && contents == map[] && g == map[]
      ensures old(freed) <= freed && Elements(freed[|old(freed)|..]) == old(g.Keys)
      ensures Dead(freed[|old(freed)|..]) && ChildrenFirst(old(g), freed[|old(freed)|..])
    {
      size := 0;
      if root != null {
        Uproot();
      } else {
        assert freed[|old(freed)|..] == [] && g.Keys == {};
      }
    }

    /** `delete m_root; m_root = NULL`. */
    method Uproot()
      requires Linked() && NoneLost(arena.made, freed, g.Keys) && root != null
      modifies this`root, this`g, this`contents, this`freed, g.Keys
      ensures Linked() && root == null && contents == map[] && |contents| == 0 && g == map[]
      ensures NoneLost(arena.made, freed, g.Keys)
      ensures old(freed) <= freed && Elements(freed[|old(freed)|..]) == old(g.Keys)
      ensures Dead(freed[|old(freed)|..]) && ChildrenFirst(old(g), freed[|old(freed)|..])
    {
      var gone := DestroyRoot();
      root := null;
      NoneLostFreed(arena.made, freed, g.Keys, gone, {});
      RetireAll(gone);
      assert g.Keys == {};
      assert freed[|old(freed)|..] == gone;
    }

    /** Nothing is left, and the nodes in `gone` were freed. */
    ghost method RetireAll(gone: seq<RadixTreeNode<V>>)
      requires root == null && NoRepeats(freed) && forall x :: x in freed ==> x !in g
      requires NoRepeats(gone) && Elements(gone) == g.Keys
      modifies this`g, this`contents, this`freed
      ensures Linked() && g == map[] && contents == map[] && freed == old(freed) + gone
    {
      assert forall x :: x in gone ==> x in Elements(gone);
      NoRepeatsJoin(freed, gone);
      g, contents, freed := map[], map[], freed + gone;
    }

    /** operator[]: the entry of `key`, with the default value if it was not stored. */
    method At(key: string, default: V) returns (it: RadixTreeNode<V>)
      requires Valid()
      modifies this, arena, g.Keys
      ensures Valid() && root != null && freed == old(freed)
      ensures old(g.Keys) <= g.Keys && fresh(g.Keys - old(g.Keys)) && old(arena.made) <= arena.made
      ensures contents == if key in old(contents) then old(contents) else old(contents)[key := default]
      ensures KeepsLeaves(old(g), g, {})
      ensures LeafFor(g, it, key) && it.isLeaf && it.value == Some((key, contents[key]))
    {
      var found := Find(key);
      if found == null {
        var added;
        it, added := Insert((key, default));
        assert added;
      } else {
        it := found;
      }
    }

    /** Writing through the reference that operator[] returns, or through an iterator. */
    method Assign(it: RadixTreeNode<V>, key: string, x: V)
      requires Valid() && root != null && LeafFor(g, it, key)
      modifies this`g, this`contents, it`value
      ensures Valid() && root == old(root) && size == old(size) && freed == old(freed) && g.Keys == old(g.Keys)
      ensures contents == old(contents)[key := x] && it.value == Some((key, x))
      ensures KeepsLeaves(old(g), g, {key})
    {
      AssignedOk(g, root, contents, it, x);
      it.value := Some((it.value.value.0, x));
      Adopt(g[it := g[it].(value := Some((key, x)))], contents[key := x]);
    }

    /** `tree[key] = x`. */
    method Put(key: string, x: V, default: V)
      requires Valid()
      modifies this, arena, g.Keys
      ensures Valid() && root != null && freed == old(freed)
      ensures old(g.Keys) <= g.Keys && fresh(g.Keys - old(g.Keys)) && old(arena.made) <= arena.made
      ensures contents == old(contents)[key := x]
      ensures KeepsLeaves(old(g), g, {key})
    {
      Overwrite(contents, key, default, x);
      var it := At(key, default);
      Assign(it, key, x);
    }

    /** erase through an iterator. */
    method EraseAt(it: RadixTreeNode<V>, ghost key: string)
      requires Valid() && root != null && LeafFor(g, it, key)
      modifies this`size, this`g, this`contents, this`freed, g.Keys
      ensures Valid() && root == old(root) && contents == old(contents) - {key}
      ensures g.Keys <= old(g.Keys) && old(freed) <= freed
      ensures Elements(freed[|old(freed)|..]) == old(g.Keys) - g.Keys
      ensures KeepsLeaves(old(g), g, {key}) && KeepsLeaves(g, old(g), {})
      ensures Dead(freed[|old(freed)|..]) && ChildrenFirst(old(g), freed[|old(freed)|..])
    {
      assert Bound(contents, g[it].path, g[it].value);
      var erased := Erase(it.value.value.0);
    }

    // ----- Iteration -----

    /** The recursive begin, with its assertion. */
    method BeginAt(node: RadixTreeNode<V>) returns (r: RadixTreeNode<V>)
      requires Linked() && root != null && node in g && (node == root ==> g[root].children != map[])
      ensures IsLeast(g, r, Below(g, node))
      decreases Higher(g, node)
    {
      if node.isLeaf {
        return node;
      }
      assert node != root ==> Compact(g[node]);
      assert node.children != map[];
      assert node.children.Keys != {};
      var it := First(node.children.Keys);
      ghost var c := Down(g, root, node, it);
      HigherShrinks(g, node, c);
      r := BeginAt(node.children[it]);
      LeastBelow(g, root, node, it, r);
    }

    /** begin: the entry of the least key. Its assertion needs a tree that has no root or is not
        empty; see BeginAsserts. */
    method Begin() returns (it: RadixTreeNode?<V>)
      requires Valid() && (root == null || size > 0)
      ensures it == null <==> contents == map[]
      ensures FirstOf(g, it, Leaves(g))
    {
      if root == null {
        return null;
      }
      EmptyMeansBare(g, root, contents);
      it := BeginAt(root);
      NothingAfterRoot(g, root);
      assert Below(g, root) == Leaves(g);
    }

    /** What begin asserts: there is no root, or it has a child. */
    ghost predicate BeginHolds()
      reads this, root
    {
      root != null ==> root.children != map[]
    }

    /** The assertion in begin holds exactly when there is no root or something is stored. */
    lemma BeginAsserts()
      requires Valid()
      ensures BeginHolds() <==> (root == null || size > 0)
    {
      if root != null {
        EmptyMeansBare(g, root, contents);
        assert contents == map[] <==> |contents| == 0;
      }
    }

    /** A whole iteration, from begin() to end(). */
    method Traverse() returns (vec: seq<RadixTreeNode<V>>)
      requires Valid() && (root == null || size > 0)
      ensures Lists(vec, contents.Keys) && |vec| == size && ListOf(g, vec, Leaves(g))
    {
      if root == null {
        vec := [];
        PublishNone();
      } else {
        var first := Begin();
        vec := Walk(first);
        PublishAll(vec);
      }
    }

    /** The loop `for (it = first; it != end(); ++it)`. */
    method Walk(first: RadixTreeNode?<V>) returns (vec: seq<RadixTreeNode<V>>)
      requires root != null && WellFormed(g, root) && Mirrored(g) && FirstOf(g, first, Leaves(g))
      ensures ListOf(g, vec, Leaves(g))
    {
      vec := [];
      var it: RadixTreeIterator<V> := new RadixTreeIterator(first);
      if first != null { NothingBefore(g, root, first); }
      while it.pointee != null
        invariant Mirrored(g) && fresh(it)
        invariant it.pointee != null ==> it.pointee in g && g[it.pointee].isLeaf
        invariant ListOf(g, vec, if it.pointee == null then Leaves(g) else Before(g, it.pointee))
        decreases Leaves(g) - Elements(vec)
        modifies it`pointee
      {
        var p: RadixTreeNode<V> := it.pointee;
        ghost var seen := Elements(vec);
        assert p in Leaves(g) && p !in seen by { LessIrreflexive(g[p].path); }
        vec := vec + [p];
        assert Elements(vec) == seen + {p};
        it.Advance(g, root);
        BeforeNext(g, root, p, if it.pointee == null then None else Some(it.pointee), vec[..|vec| - 1]);
      }
    }

    /** A whole iteration yields the same sequence as the recursive greedy_match from the root. */
    lemma TraverseIsCollect(vec: seq<RadixTreeNode<V>>, all: seq<RadixTreeNode<V>>)
      requires Linked() && root != null && ListOf(g, vec, Leaves(g)) && ListOf(g, all, Below(g, root))
      ensures vec == all
    {
      NothingAfterRoot(g, root);
      assert Below(g, root) == Leaves(g);
      ListUnique(g, vec, all, Leaves(g));
    }
  }
}
