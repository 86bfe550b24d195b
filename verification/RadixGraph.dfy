// The pointer structure of a radix tree, as a value: a map from node identities to the
// contents of the nodes' fields. `path`, the string spelled from the root to the end of the
// node's label, is not a field of the program; it is what the labels are supposed to add up to.
//
// WellLinked is the shape invariant of the linked structure, stated node by node. The central
// lemma is Step: below any internal node, everything is reached through one of its children.

module RadixGraph {
  import opened Sequences

  datatype Rec<N, V> = Rec(
    path: string,
    key: string,
    depth: int,
    isLeaf: bool,
    parent: Option<N>,
    children: map<string, N>,
    value: Option<(string, V)>)

  type Graph<N, V> = map<N, Rec<N, V>>

  ghost predicate RootOk<N, V>(r: Rec<N, V>)
  {
    r.path == "" && r.key == "" && r.depth == 0 && !r.isLeaf && r.parent == None
  }

  /** `n` is an entry of its parent's child map, and its label and depth spell its path. */
  ghost predicate Hangs<N, V>(g: Graph<N, V>, n: N)
    requires n in g
  {
    var r := g[n];
    r.parent.Some? && r.parent.value in g &&
    var q := g[r.parent.value];
    !q.isLeaf && r.key in q.children && q.children[r.key] == n &&
    r.depth == |q.path| && q.path <= r.path && r.key == r.path[r.depth..]
  }

  /** Every entry of `n`'s child map is a node that names `n` as parent and the map key as label. */
  ghost predicate Holds<N, V>(g: Graph<N, V>, n: N)
    requires n in g
  {
    forall k :: k in g[n].children ==>
      g[n].children[k] in g && g[g[n].children[k]].parent == Some(n) && g[g[n].children[k]].key == k
  }

  /** Labels of siblings differ in their first characters. */
  ghost predicate Branches<N, V>(r: Rec<N, V>)
  {
    forall j, k :: j in r.children && k in r.children && j != "" && k != "" && j[0] == k[0] ==> j == k
  }

  ghost predicate LeafOk<N, V>(r: Rec<N, V>)
  {
    r.key == "" && r.children == map[] && r.value.Some? && r.value.value.0 == r.path
  }

  ghost predicate NodeOk<N, V>(g: Graph<N, V>, root: N, n: N)
    requires n in g
  {
    (if n == root then RootOk(g[n]) else Hangs(g, n)) &&
    Holds(g, n) &&
    (if g[n].isLeaf then LeafOk(g[n]) else Branches(g[n]) && (n != root ==> g[n].key != ""))
  }

  ghost predicate WellLinked<N, V>(g: Graph<N, V>, root: N)
  {
    root in g && forall n {:trigger NodeOk(g, root, n)} :: n in g ==> NodeOk(g, root, n)
  }

  /** A non-root internal node has a child, and an only child is a leaf (labels of leaves are ""). */
  ghost predicate Compact<N, V>(r: Rec<N, V>)
  {
    "" in r.children || |r.children| >= 2
  }

  /** Every internal node is compact, except the root and the nodes in `loose`. */
  ghost predicate Snug<N, V>(g: Graph<N, V>, root: N, loose: set<N>)
  {
    forall n {:trigger Compact(g[n])} :: n in g && n != root && n !in loose && !g[n].isLeaf ==> Compact(g[n])
  }

  ghost predicate WellFormed<N, V>(g: Graph<N, V>, root: N)
  {
    WellLinked(g, root) && Snug(g, root, {})
  }

  ghost predicate LeafFor<N, V>(g: Graph<N, V>, n: N, k: string)
  {
    n in g && g[n].isLeaf && g[n].path == k
  }

  ghost predicate Stored<N, V>(g: Graph<N, V>, k: string)
  {
    exists n :: n in g && LeafFor(g, n, k)
  }

  ghost predicate Bound<V>(m: map<string, V>, k: string, value: Option<(string, V)>)
  {
    k in m && value == Some((k, m[k]))
  }

  /** The leaves of `g` carry exactly the bindings of `m`. */
  ghost predicate Represents<N, V>(g: Graph<N, V>, m: map<string, V>)
  {
    (forall n {:trigger Bound(m, g[n].path, g[n].value)} :: n in g && g[n].isLeaf ==> Bound(m, g[n].path, g[n].value)) &&
    (forall k {:trigger Stored(g, k)} :: k in m ==> Stored(g, k))
  }

  /** Strictly larger for a child than for its parent. */
  ghost function Rank<N, V>(r: Rec<N, V>): nat
  {
    2 * |r.path| + if r.isLeaf then 1 else 0
  }

  // ----- One edge -----

  lemma Up<N, V>(g: Graph<N, V>, root: N, n: N) returns (q: N)
    requires WellLinked(g, root) && n in g && n != root
    ensures q in g && g[n].parent == Some(q) && !g[q].isLeaf
    ensures g[n].key in g[q].children && g[q].children[g[n].key] == n
    ensures g[n].depth == |g[q].path| && g[q].path <= g[n].path && g[n].key == g[n].path[g[n].depth..]
    ensures g[n].isLeaf ==> g[n].path == g[q].path
    ensures !g[n].isLeaf ==> |g[q].path| < |g[n].path|
    ensures Rank(g[q]) < Rank(g[n])
  {
    assert NodeOk(g, root, n);
    q := g[n].parent.value;
  }

  lemma Down<N, V>(g: Graph<N, V>, root: N, n: N, k: string) returns (c: N)
    requires WellLinked(g, root) && n in g && k in g[n].children
    ensures c == g[n].children[k] && c in g && c != root && c != n && !g[n].isLeaf
    ensures g[c].parent == Some(n) && g[c].key == k
    ensures g[c].depth == |g[n].path| && g[c].path == g[n].path + k
    ensures g[c].isLeaf <==> k == ""
    ensures Rank(g[n]) < Rank(g[c])
  {
    assert NodeOk(g, root, n);
    c := g[n].children[k];
    assert NodeOk(g, root, c);
    assert NodeOk(g, root, root);
  }

  /** No node is an entry of two child maps, or twice of one. */
  lemma OneHolder<N, V>(g: Graph<N, V>, root: N, p: N, j: string, q: N, k: string)
    requires WellLinked(g, root) && p in g && q in g && j in g[p].children && k in g[q].children
    requires g[p].children[j] == g[q].children[k]
    ensures p == q && j == k
  {
    var c := Down(g, root, p, j);
    var d := Down(g, root, q, k);
  }

  /** Two children of one node whose paths agree one character past the parent are the same. */
  lemma SameChild<N, V>(g: Graph<N, V>, root: N, p: N, c: N, d: N)
    requires WellLinked(g, root) && p in g && c in g && d in g
    requires g[c].parent == Some(p) && g[d].parent == Some(p) && !g[c].isLeaf && !g[d].isLeaf
    requires |g[p].path| < |g[c].path| && |g[p].path| < |g[d].path|
    requires g[c].path[|g[p].path|] == g[d].path[|g[p].path|]
    ensures c == d
  {
    assert NodeOk(g, root, root) && NodeOk(g, root, c) && NodeOk(g, root, d) && NodeOk(g, root, p);
    assert g[c].key[0] == g[c].path[|g[p].path|];
    assert g[d].key[0] == g[d].path[|g[p].path|];
  }

  // ----- Ancestors -----

  /** `c` is `x` itself or a proper ancestor of `x`, and hangs directly below `p`. */
  ghost predicate Toward<N, V>(g: Graph<N, V>, root: N, p: N, x: N, c: N)
  {
    p in g && x in g && c in g && c != root && g[c].parent == Some(p) &&
    (c == x || (!g[c].isLeaf && g[c].path <= g[x].path && Rank(g[c]) < Rank(g[x])))
  }

  /** If the path of an internal node is a prefix of the path of another node, then one of its
      children leads there. */
  lemma {:induction false} Step<N, V>(g: Graph<N, V>, root: N, p: N, x: N) returns (c: N)
    requires WellLinked(g, root) && p in g && x in g && p != x
    requires !g[p].isLeaf && g[p].path <= g[x].path
    ensures Toward(g, root, p, x, c)
    decreases Rank(g[p]) + Rank(g[x])
  {
    assert NodeOk(g, root, root);
    if x == root {
      var _ := Up(g, root, p);
      assert false;
    }
    var q := Up(g, root, x);
    if q == p {
      c := x;
    } else if |g[p].path| <= |g[q].path| {
      c := Step(g, root, p, q);
    } else {
      // The edge from q to x would jump over p: then p and x start the same way below q.
      var d := Step(g, root, q, p);
      var _ := Up(g, root, d);
      SameChild(g, root, q, d, x);
      assert false;
    }
  }

  /** A path and the leaf flag identify a node. */
  lemma Unique<N, V>(g: Graph<N, V>, root: N, a: N, b: N)
    requires WellLinked(g, root) && a in g && b in g
    requires g[a].path == g[b].path && g[a].isLeaf == g[b].isLeaf
    ensures a == b
  {
    assert NodeOk(g, root, root);
    if !g[a].isLeaf {
      if a != b {
        var c := Step(g, root, a, b);
        var _ := Up(g, root, c);
      }
    } else {
      var p := Up(g, root, a);
      var q := Up(g, root, b);
      if p != q {
        var c := Step(g, root, p, q);
        var _ := Up(g, root, c);
      }
      assert NodeOk(g, root, a) && NodeOk(g, root, b);
    }
  }

  /** All of the tree that starts like the label of `r` lies below `r`. */
  lemma Funnel<N, V>(g: Graph<N, V>, root: N, r: N, x: N)
    requires WellLinked(g, root) && r in g && x in g && r != root && !g[r].isLeaf
    requires 0 <= g[r].depth < |g[x].path| && g[r].depth < |g[r].path|
    requires g[x].path[..g[r].depth + 1] == g[r].path[..g[r].depth + 1]
    ensures g[r].path <= g[x].path
  {
    var q := Up(g, root, r);
    var d := g[r].depth;
    assert g[x].path[..d] == g[x].path[..d + 1][..d] == g[r].path[..d + 1][..d] == g[q].path;
    assert g[x].path[d] == g[x].path[..d + 1][d] == g[r].path[d];
    var c := Step(g, root, q, x);
    var _ := Up(g, root, c);
    if !g[c].isLeaf {
      SameChild(g, root, q, c, r);
    }
  }

  /** The leaf of a stored key, by its key alone. */
  lemma LeafOf<N, V>(g: Graph<N, V>, root: N, m: map<string, V>, k: string) returns (x: N, p: N)
    requires WellLinked(g, root) && Represents(g, m) && k in m
    ensures LeafFor(g, x, k) && x != root && g[x].value == Some((k, m[k]))
    ensures p in g && !g[p].isLeaf && g[p].path == k && g[x].parent == Some(p)
    ensures "" in g[p].children && g[p].children[""] == x
  {
    assert Stored(g, k);
    x :| x in g && LeafFor(g, x, k);
    assert Bound(m, g[x].path, g[x].value);
    assert NodeOk(g, root, root) && NodeOk(g, root, x);
    p := Up(g, root, x);
  }

  // ----- Going down -----

  /** The nodes ranked above `n`: what a walk downwards from `n` has left. */
  ghost function Higher<N, V>(g: Graph<N, V>, n: N): set<N>
    requires n in g
  {
    set x | x in g && Rank(g[x]) > Rank(g[n])
  }

  lemma HigherShrinks<N, V>(g: Graph<N, V>, a: N, b: N)
    requires a in g && b in g && Rank(g[a]) < Rank(g[b])
    ensures Higher(g, b) < Higher(g, a)
  {
    assert b in Higher(g, a) && b !in Higher(g, b);
  }

  /** Below every compact node there is a leaf, so every label leads to a stored key. */
  lemma {:induction false} HasLeaf<N, V>(g: Graph<N, V>, root: N, n: N) returns (x: N)
    requires WellFormed(g, root) && n in g && (n == root ==> g[n].children != map[])
    ensures x in g && g[x].isLeaf && g[n].path <= g[x].path
    decreases Higher(g, n)
  {
    if g[n].isLeaf {
      return n;
    }
    assert n != root ==> Compact(g[n]);
    assert g[n].children != map[];
    var k :| k in g[n].children;
    var c := Down(g, root, n, k);
    HigherShrinks(g, n, c);
    x := HasLeaf(g, root, c);
  }
}
