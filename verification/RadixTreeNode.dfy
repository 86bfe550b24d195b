// A node of the tree: mutable fields, and the destructor that frees what hangs below. A node is
// alive until it is freed; from then on nothing is known about its fields.

module RadixNodes {
  import opened Sequences
  import opened Strings
  import opened RadixGraph
  import opened RadixEdits

  /** The nodes that have been constructed for a tree: every constructor enters its node here. */
  class Arena<V> {
    ghost var made: set<RadixTreeNode<V>>

    ghost constructor ()
      ensures made == {}
    {
      made := {};
    }
  }

  class RadixTreeNode<V> {
    var children: map<string, RadixTreeNode<V>>
    var parent: RadixTreeNode?<V>
    var value: Option<(string, V)>
    var depth: int
    var isLeaf: bool
    var key: string
    ghost var alive: bool

    constructor (ghost arena: Arena<V>)
      modifies arena
      ensures arena.made == old(arena.made) + {this}
      ensures alive && children == map[] && parent == null && value == None && depth == 0 && !isLeaf && key == ""
    {
      children, parent, value, depth, isLeaf, key, alive := map[], null, None, 0, false, "", true;
      new;
      arena.made := arena.made + {this};
    }

    constructor WithValue(val: (string, V), ghost arena: Arena<V>)
      modifies arena
      ensures arena.made == old(arena.made) + {this}
      ensures alive && children == map[] && parent == null && value == Some(val) && depth == 0 && !isLeaf && key == ""
    {
      children, parent, value, depth, isLeaf, key, alive := map[], null, Some(val), 0, false, "", true;
      new;
      arena.made := arena.made + {this};
    }

    /** The node was freed, and the pair it owned with it. */
    ghost predicate Gone()
      reads this`alive, this`value
    {
      !alive && value == None
    }

    /** The node is alive, and its fields are as `r` says. */
    ghost predicate Mirrors(r: Rec<RadixTreeNode<V>, V>)
      reads this
    {
      alive && children == r.children && parent == (if r.parent.Some? then r.parent.value else null) &&
      value == r.value && depth == r.depth && isLeaf == r.isLeaf && key == r.key
    }

    // The groups of statements that append, prepend and erase are made of.

    /** A new leaf for `val` below this node. */
    method HangLeaf(val: (string, V), depth: int, ghost arena: Arena<V>, ghost g: Graph<RadixTreeNode<V>, V>)
      returns (x: RadixTreeNode<V>)
      requires this in g && Mirrored(g) && val.0 == g[this].path && depth == |val.0|
      modifies this`children, arena
      ensures fresh(x) && x !in g && Mirrored(AddLeaf(g, this, x, val.1)) && arena.made == old(arena.made) + {x}
    {
      x := new RadixTreeNode.WithValue(val, arena);
      x.depth := depth;
      x.parent := this;
      x.key := "";
      x.isLeaf := true;
      children := children["" := x];
    }

    /** A new internal node `b` below this node, under label `k`. */
    method HangInner(b: RadixTreeNode<V>, depth: int, k: string, ghost g: Graph<RadixTreeNode<V>, V>)
      requires this in g && Mirrored(g) && b !in g && depth == |g[this].path|
      requires b.alive && b.children == map[] && !b.isLeaf
      modifies this`children, b
      ensures Mirrored(AddInner(g, this, b, k, old(b.value)))
    {
      children := children[k := b];
      b.depth := depth;
      b.parent := this;
      b.key := k;
    }

    /** Both: the internal node `b` below this node, and a new leaf for `val` below `b`. */
    method HangEntry(b: RadixTreeNode<V>, val: (string, V), depth: int, k: string, end: int,
                     ghost arena: Arena<V>, ghost g: Graph<RadixTreeNode<V>, V>) returns (x: RadixTreeNode<V>)
      requires this in g && Mirrored(g) && b !in g && depth == |g[this].path|
      requires val.0 == g[this].path + k && end == |val.0|
      requires b.alive && b.children == map[] && !b.isLeaf
      modifies this`children, b, arena
      ensures fresh(x) && x !in g && x != b && arena.made == old(arena.made) + {x}
      ensures Mirrored(AddLeaf(AddInner(g, this, b, k, old(b.value)), b, x, val.1))
    {
      ghost var h := AddInner(g, this, b, k, b.value);
      HangInner(b, depth, k, g);
      x := b.HangLeaf(val, end, arena, h);
    }

    /** A new node `a` between this node and its parent takes the first `count` characters of the label. */
    method SplitEdge(count: nat, ghost arena: Arena<V>, ghost g: Graph<RadixTreeNode<V>, V>) returns (a: RadixTreeNode<V>)
      requires this in g && Mirrored(g) && g[this].parent.Some? && g[this].parent.value in g && g[this].parent.value != this
      requires count <= |g[this].key| && 0 <= g[this].depth && g[this].depth + count <= |g[this].path|
      modifies this`depth, this`parent, this`key, parent`children, arena
      ensures fresh(a) && a !in g && Mirrored(Split(g, this, a, count)) && arena.made == old(arena.made) + {a}
    {
      a := TopHalf(count, arena, g);
      BottomHalf(count, a, Cleft(g, this, a, count));
      SplitSteps(g, this, a, count);
    }

    /** The first half of the split: `a` takes this node's place in the map of the parent. */
    method TopHalf(count: nat, ghost arena: Arena<V>, ghost g: Graph<RadixTreeNode<V>, V>) returns (a: RadixTreeNode<V>)
      requires this in g && Mirrored(g) && g[this].parent.Some? && g[this].parent.value in g && g[this].parent.value != this
      requires count <= |g[this].key| && 0 <= g[this].depth && g[this].depth + count <= |g[this].path|
      modifies parent`children, arena
      ensures fresh(a) && a !in g && Mirrored(Cleft(g, this, a, count)) && arena.made == old(arena.made) + {a}
    {
      parent.children := parent.children - {key};
      a := new RadixTreeNode(arena);
      ghost var h := Cleft(g, this, a, count);
      a.parent := parent;
      a.key := Substr(key, 0, count);
      a.depth := depth;
      assert a.Mirrors(h[a]);
      a.parent.children := a.parent.children[a.key := a];
      assert parent.Mirrors(h[parent]);
    }

    /** The second half: this node keeps the rest of its label and hangs below `a`. */
    method BottomHalf(count: nat, a: RadixTreeNode<V>, ghost g: Graph<RadixTreeNode<V>, V>)
      requires this in g && a in g && a != this && Mirrored(g) && count <= |g[this].key| && g[a].children == map[]
      modifies this`depth, this`parent, this`key, a`children
      ensures Mirrored(Lowered(g, this, a, count))
    {
      var len1 := |key|;
      depth := depth + count;
      parent := a;
      key := Substr(key, count, len1 - count);
      parent.children := parent.children[key := this];
      assert key == g[this].key[count..];
    }

    /** `uncle`, the only child of this node, takes over its label and its place. */
    method GiveWay(uncle: RadixTreeNode<V>, ghost g: Graph<RadixTreeNode<V>, V>)
      requires this in g && uncle in g && Mirrored(g) && uncle != this
      requires g[this].parent.Some? && g[this].parent.value in g
      requires g[this].parent.value != this && g[this].parent.value != uncle
      requires g[this].children == map[g[uncle].key := uncle]
      modifies this`children, uncle, parent`children
      ensures children == map[] && Mirrored(Merge(g, this, uncle))
    {
      assert alive && uncle.alive && parent.alive;
      var k := uncle.key;
      uncle.depth := depth;
      uncle.key := key + uncle.key;
      uncle.parent := parent;
      children := children - {k};
      parent.children := parent.children - {key};
      parent.children := parent.children[uncle.key := uncle];
      ghost var h := Merge(g, this, uncle);
      assert uncle.Mirrors(h[uncle]) && parent.Mirrors(h[parent]);
    }

    /** The merge of erase: `uncle` takes this node's place, and this node is deleted. */
    method MergeWith(uncle: RadixTreeNode<V>, ghost g: Graph<RadixTreeNode<V>, V>) returns (freed: seq<RadixTreeNode<V>>)
      requires this in g && uncle in g && Mirrored(g) && uncle != this
      requires g[this].parent.Some? && g[this].parent.value in g
      requires g[this].parent.value != this && g[this].parent.value != uncle
      requires g[this].children == map[g[uncle].key := uncle]
      modifies this, uncle, parent`children
      ensures Mirrored(Merge(g, this, uncle)) && freed == [this] && Dead(freed)
    {
      GiveWay(uncle, g);
      freed := Delete();
    }

    /** Takes this childless node out of its parent's map, under label `k`, and deletes it. */
    method Remove(k: string, ghost g: Graph<RadixTreeNode<V>, V>) returns (freed: seq<RadixTreeNode<V>>)
      requires this in g && Mirrored(g) && g[this].children == map[] && k == g[this].key
      requires g[this].parent.Some? && g[this].parent.value in g && g[this].parent.value != this
      modifies this, parent`children
      ensures Mirrored(DropInner(g, this)) && freed == [this] && Dead(freed)
    {
      assert parent.alive;
      parent.children := parent.children - {k};
      freed := Delete();
    }

    /** `delete this` for a node without children frees that node alone. */
    method Delete() returns (freed: seq<RadixTreeNode<V>>)
      requires alive && children == map[] && parent != this
      modifies this
      ensures freed == [this] && Dead(freed)
    {
      ghost var up := if parent == null then None else Some(parent);
      ghost var g := map[this := Rec("", key, depth, isLeaf, up, map[], value)];
      assert TidyNode(g, this);
      assert Subtree(g, this) == {this};
      freed := Destroy(g);
      OnlyElement(freed, this);
    }

    /** `delete this`: the destructor first deletes every child, in label order. The result
        lists the freed nodes in the order they are freed. Every node is alive when it is deleted. */
    method Destroy(ghost g: Graph<RadixTreeNode<V>, V>) returns (freed: seq<RadixTreeNode<V>>)
      requires Tidy(g) && this in g && Waiting(g, [])
      modifies Subtree(g, this)
      ensures NoRepeats(freed) && Elements(freed) == Subtree(g, this) && Dead(freed)
      ensures ChildrenFirst(g, freed) && freed[|freed| - 1] == this
      decreases Higher(g, this), 1
    {
      assert this in Subtree(g, this);
      var labels := InOrder(children.Keys);
      freed := [];
      var i := 0;
      while i < |labels|
        invariant 0 <= i <= |labels|
        invariant Freed(g, this, labels[..i], freed) && Waiting(g, freed) && Dead(freed)
      {
        freed := DestroyChild(labels, i, freed, g);
        i := i + 1;
      }
      assert labels[..i] == labels;
      FreedAll(g, this, labels, freed);
      Free(freed);
      freed := freed + [this];
    }

    /** The end of the destructor: the pair goes, and then the memory of the node. */
    method Free(ghost freed: seq<RadixTreeNode<V>>)
      requires alive && Dead(freed)
      modifies this
      ensures Dead(freed + [this])
    {
      value, alive := None, false;
    }

    /** One round of the loop: the child with label `labels[i]` is deleted. Neither it nor this node has
        been freed yet. */
    method DestroyChild(labels: seq<string>, i: nat, freed: seq<RadixTreeNode<V>>, ghost g: Graph<RadixTreeNode<V>, V>)
      returns (more: seq<RadixTreeNode<V>>)
      requires Tidy(g) && this in g && i < |labels| && Ascending(labels) && Elements(labels) == g[this].children.Keys
      requires Freed(g, this, labels[..i], freed) && Waiting(g, freed) && Dead(freed)
      modifies Subtree(g, this)
      ensures Freed(g, this, labels[..i + 1], more) && Waiting(g, more) && Dead(more)
      decreases Higher(g, this), 0
    {
      assert labels[i] in Elements(labels);
      NotYetFreed(g, this, labels, i, freed);
      assert this in Subtree(g, this);
      var c := children[labels[i]];
      assert c in Subtree(g, c) && alive && c.alive;
      var below := c.Destroy(g);
      FreedMore(g, this, labels, i, freed, below);
      more := freed + below;
    }

    /** The nodes below that are not in `freed` are alive and as `g` says. */
    ghost predicate Waiting(g: Graph<RadixTreeNode<V>, V>, freed: seq<RadixTreeNode<V>>)
      requires this in g
      reads Subtree(g, this)
    {
      forall n :: n in Subtree(g, this) && n !in freed ==> n.Mirrors(g[n])
    }
  }

  ghost predicate Dead<V>(s: seq<RadixTreeNode<V>>)
    reads s`alive, s`value
  {
    forall n {:trigger n.Gone()} :: n in s ==> n.Gone()
  }

  /** The heap holds the structure `g`. */
  ghost predicate Mirrored<V>(g: Graph<RadixTreeNode<V>, V>)
    reads g.Keys
  {
    forall n :: n in g ==> n.Mirrors(g[n])
  }

  // ----- What hangs below a node -----

  /** Child maps and parent links are inverse to each other, and ranks grow downwards. */
  ghost predicate Tidy<N, V>(g: Graph<N, V>)
  {
    forall n {:trigger TidyNode(g, n)} :: n in g ==> TidyNode(g, n)
  }

  ghost predicate TidyNode<N, V>(g: Graph<N, V>, n: N)
    requires n in g
  {
    (forall k :: k in g[n].children ==>
       g[n].children[k] in g && g[g[n].children[k]].parent == Some(n) && g[g[n].children[k]].key == k &&
       Rank(g[n]) < Rank(g[g[n].children[k]])) &&
    (g[n].parent.Some? && g[n].parent.value in g ==>
       g[n].key in g[g[n].parent.value].children && g[g[n].parent.value].children[g[n].key] == n)
  }

  /** Following parent links from `x` leads to `n`. */
  ghost predicate Under<N, V>(g: Graph<N, V>, n: N, x: N)
    decreases if x in g then Rank(g[x]) else 0
  {
    x == n ||
    (x in g && g[x].parent.Some? && g[x].parent.value in g && Rank(g[g[x].parent.value]) < Rank(g[x]) &&
     Under(g, n, g[x].parent.value))
  }

  ghost function Subtree<N, V>(g: Graph<N, V>, n: N): set<N>
    requires n in g
  {
    set x | x in g && Under(g, n, x)
  }

  lemma {:induction false} UnderRank<N, V>(g: Graph<N, V>, n: N, x: N)
    requires n in g && x in g && Under(g, n, x)
    ensures x == n || Rank(g[n]) < Rank(g[x])
    decreases Rank(g[x])
  {
    if x != n { UnderRank(g, n, g[x].parent.value); }
  }

  /** What is under a child is under the node. */
  lemma {:induction false} UnderUp<N, V>(g: Graph<N, V>, n: N, c: N, x: N)
    requires Tidy(g) && n in g && c in g && g[c].parent == Some(n) && Rank(g[n]) < Rank(g[c])
    requires x in g && Under(g, c, x)
    ensures Under(g, n, x) && x != n
    decreases Rank(g[x])
  {
    UnderRank(g, c, x);
    if x != c { UnderUp(g, n, c, g[x].parent.value); }
  }

  lemma UnderEntry<N, V>(g: Graph<N, V>, n: N, k: string)
    requires Tidy(g) && n in g && k in g[n].children
    ensures g[n].children[k] in g && Higher(g, g[n].children[k]) < Higher(g, n)
    ensures forall x :: x in g && Under(g, g[n].children[k], x) ==> Under(g, n, x) && x != n
  {
    assert TidyNode(g, n);
    var c := g[n].children[k];
    HigherShrinks(g, n, c);
    forall x | x in g && Under(g, c, x) ensures Under(g, n, x) && x != n {
      UnderUp(g, n, c, x);
    }
  }

  /** What is under a node, the node apart, is under one of its children. */
  lemma {:induction false} UnderDown<N, V>(g: Graph<N, V>, n: N, x: N) returns (k: string)
    requires Tidy(g) && n in g && x in g && Under(g, n, x) && x != n
    ensures k in g[n].children && Under(g, g[n].children[k], x)
    decreases Rank(g[x])
  {
    var q := g[x].parent.value;
    if q == n {
      assert TidyNode(g, x);
      k := g[x].key;
    } else {
      k := UnderDown(g, n, q);
    }
  }

  /** Subtrees of two children have no node in common. */
  lemma {:induction false} Apart<N, V>(g: Graph<N, V>, n: N, c: N, d: N, x: N)
    requires Tidy(g) && n in g && c in g && d in g && c != d
    requires g[c].parent == Some(n) && g[d].parent == Some(n) && Rank(g[n]) < Rank(g[c]) && Rank(g[n]) < Rank(g[d])
    requires x in g && Under(g, c, x)
    ensures !Under(g, d, x)
    decreases Rank(g[x])
  {
    if Under(g, d, x) {
      if x == c {
        UnderRank(g, d, n);
      } else if x == d {
        UnderRank(g, c, n);
      } else {
        Apart(g, n, c, d, g[x].parent.value);
      }
    }
  }

  /** In the list `s` of freed nodes no node comes before one of its children. */
  ghost predicate ChildrenFirst<N, V>(g: Graph<N, V>, s: seq<N>)
  {
    forall i, j :: 0 <= i < j < |s| && s[j] in g ==> g[s[j]].parent != Some(s[i])
  }

  /** `s` lists what is under the children of `n` with the given labels, once each, children first. */
  ghost predicate Freed<N, V>(g: Graph<N, V>, n: N, labels: seq<string>, s: seq<N>)
    requires n in g
  {
    NoRepeats(s) && ChildrenFirst(g, s) &&
    Elements(s) == set x | x in g && exists k :: k in labels && k in g[n].children && Under(g, g[n].children[k], x)
  }

  /** Nothing under the child with the next label has been freed yet, and the node itself has not. */
  lemma NotYetFreed<N, V>(g: Graph<N, V>, n: N, labels: seq<string>, i: nat, s: seq<N>)
    requires Tidy(g) && n in g && i < |labels| && Ascending(labels) && Elements(labels) == g[n].children.Keys
    requires Freed(g, n, labels[..i], s)
    ensures n !in s && labels[i] in g[n].children && g[n].children[labels[i]] in g
    ensures Higher(g, g[n].children[labels[i]]) < Higher(g, n)
    ensures var c := g[n].children[labels[i]]; Subtree(g, c) <= Subtree(g, n) - {n} && Subtree(g, c) !! Elements(s)
  {
    assert labels[i] in Elements(labels);
    var c := g[n].children[labels[i]];
    UnderEntry(g, n, labels[i]);
    assert TidyNode(g, n);
    forall x | x in Elements(s) ensures x != n && !Under(g, c, x) {
      var k :| k in labels[..i] && k in g[n].children && Under(g, g[n].children[k], x);
      UnderEntry(g, n, k);
      LessIrreflexive(k);
      Apart(g, n, g[n].children[k], c, x);
    }
    assert n in s ==> n in Elements(s);
  }

  lemma FreedMore<N, V>(g: Graph<N, V>, n: N, labels: seq<string>, i: nat, s: seq<N>, t: seq<N>)
    requires Tidy(g) && n in g && i < |labels| && Ascending(labels) && Elements(labels) == g[n].children.Keys
    requires Freed(g, n, labels[..i], s) && labels[i] in g[n].children
    requires g[n].children[labels[i]] in g && NoRepeats(t) && Elements(t) == Subtree(g, g[n].children[labels[i]])
    requires ChildrenFirst(g, t)
    ensures Freed(g, n, labels[..i + 1], s + t)
  {
    assert labels[..i + 1] == labels[..i] + [labels[i]];
    NotYetFreed(g, n, labels, i, s);
    NoRepeatsJoin(s, t);
    assert TidyNode(g, n);
    FreedInOrder(g, n, g[n].children[labels[i]], s, t);
  }

  /** What is freed below the child `c` of `n` has no parent among what was freed before. */
  lemma FreedInOrder<N, V>(g: Graph<N, V>, n: N, c: N, s: seq<N>, t: seq<N>)
    requires c in g && g[c].parent == Some(n) && n !in s && ChildrenFirst(g, s) && ChildrenFirst(g, t)
    requires Elements(t) == Subtree(g, c) && Subtree(g, c) !! Elements(s)
    ensures ChildrenFirst(g, s + t)
  {
    forall i, j | 0 <= i < j < |s + t| && (s + t)[j] in g ensures g[(s + t)[j]].parent != Some((s + t)[i]) {
      if i < |s| && |s| <= j {
        var x := t[j - |s|];
        assert x in Elements(t) && s[i] in Elements(s);
        if x != c { assert g[x].parent.value in Subtree(g, c); }
      }
    }
  }

  /** The node itself may come last. */
  lemma FreedLast<N, V>(g: Graph<N, V>, n: N, s: seq<N>)
    requires Tidy(g) && n in g && ChildrenFirst(g, s) && n !in s && forall x :: x in s ==> x in g && Under(g, n, x)
    ensures ChildrenFirst(g, s + [n])
  {
    assert TidyNode(g, n);
    if g[n].parent.Some? && g[n].parent.value in s {
      var p := g[n].parent.value;
      assert TidyNode(g, p);
      UnderRank(g, n, p);
    }
  }

  /** A node without children may come first. */
  lemma FreedFirst<N, V>(g: Graph<N, V>, root: N, h: Graph<N, V>, p: N, s: seq<N>)
    requires WellLinked(g, root) && p in g && g[p].children == map[] && h.Keys <= g.Keys
    requires forall x :: x in h ==> h[x].parent == g[x].parent
    requires ChildrenFirst(h, s) && forall x :: x in s ==> x in h
    ensures ChildrenFirst(g, [p] + s)
  {
    var t := [p] + s;
    forall i, j | 0 <= i < j < |t| && t[j] in g ensures g[t[j]].parent != Some(t[i]) {
      assert t[j] == s[j - 1] && s[j - 1] in s;
      if i == 0 {
        assert NodeOk(g, root, t[j]);
        if t[j] == root { assert RootOk(g[root]); } else { var _ := Up(g, root, t[j]); }
      } else {
        assert t[i] == s[i - 1];
      }
    }
  }

  lemma FreedAll<N, V>(g: Graph<N, V>, n: N, labels: seq<string>, s: seq<N>)
    requires Tidy(g) && n in g && Elements(labels) == g[n].children.Keys && Freed(g, n, labels, s)
    ensures NoRepeats(s + [n]) && Elements(s + [n]) == Subtree(g, n) && ChildrenFirst(g, s + [n]) && n !in s
  {
    forall x ensures x in s + [n] <==> x in g && Under(g, n, x) {
      if x in s {
        assert x in Elements(s);
        var k :| k in labels && k in g[n].children && Under(g, g[n].children[k], x);
        UnderEntry(g, n, k);
      }
      if x in g && Under(g, n, x) && x != n {
        var k := UnderDown(g, n, x);
        assert k in Elements(labels);
        assert x in Elements(s);
      }
    }
    if n in s {
      assert n in Elements(s);
      var k :| k in labels && k in g[n].children && Under(g, g[n].children[k], n);
      UnderEntry(g, n, k);
    }
    FreedLast(g, n, s);
  }

  /** A well-linked tree is tidy, and all of it is under the root. */
  lemma LinkedIsTidy<N, V>(g: Graph<N, V>, root: N)
    requires WellLinked(g, root)
    ensures Tidy(g) && Subtree(g, root) == g.Keys
  {
    forall n | n in g ensures TidyNode(g, n) {
      assert NodeOk(g, root, n);
      forall k | k in g[n].children ensures Rank(g[n]) < Rank(g[g[n].children[k]]) {
        var _ := Down(g, root, n, k);
      }
      if n == root { assert g[n].parent == None; }
    }
    forall x | x in g ensures Under(g, root, x) {
      AllUnderRoot(g, root, x);
    }
  }

  lemma {:induction false} AllUnderRoot<N, V>(g: Graph<N, V>, root: N, x: N)
    requires WellLinked(g, root) && x in g
    ensures Under(g, root, x)
    decreases Rank(g[x])
  {
    if x != root {
      var q := Up(g, root, x);
      AllUnderRoot(g, root, q);
    }
  }
}
