// The tree is a function of what it stores. Which internal nodes exist is dictated by the key
// set alone: the root, one node for every key, one for every point where two keys part. Hence
// two well-formed trees with the same bindings are structurally identical, whatever sequence
// of insertions and deletions built them, and their size is linear in the number of keys.

module RadixCanon {
  import opened Sequences
  import opened Strings
  import opened RadixGraph
  import opened RadixSearch

  // ----- The internal nodes a key set asks for -----

  /** Two keys part right after `p`. */
  ghost predicate Fork(keys: set<string>, p: string)
  {
    exists a, b :: a in keys && b in keys &&
      p <= a && p <= b && |p| < |a| && |p| < |b| && a[|p|] != b[|p|]
  }

  ghost predicate Spot(keys: set<string>, p: string)
  {
    p == "" || p in keys || Fork(keys, p)
  }

  /** Every internal node is at a spot. */
  lemma NodeAtSpot<N, V>(g: Graph<N, V>, root: N, m: map<string, V>, n: N)
    requires WellFormed(g, root) && Represents(g, m) && n in g && !g[n].isLeaf
    ensures Spot(m.Keys, g[n].path)
  {
    assert NodeOk(g, root, root) && NodeOk(g, root, n);
    if n != root {
      assert Compact(g[n]);
      if "" in g[n].children {
        var c := Down(g, root, n, "");
        assert g[c].path == g[n].path;
        assert Bound(m, g[c].path, g[c].value);
      } else {
        var j, k := TwoKeys(g[n].children);
        var a := KeyBelow(g, root, m, n, j);
        var b := KeyBelow(g, root, m, n, k);
        assert Fork(m.Keys, g[n].path);
      }
    }
  }

  lemma TwoKeys<K, N>(m: map<K, N>) returns (j: K, k: K)
    requires |m| >= 2
    ensures j in m && k in m && j != k
  {
    assert |m.Keys| == |m|;
    j :| j in m.Keys;
    assert |m.Keys - {j}| == |m| - 1;
    assert m.Keys - {j} != {};
    k :| k in m.Keys - {j};
  }

  /** Every label leads to a stored key. */
  lemma KeyBelow<N, V>(g: Graph<N, V>, root: N, m: map<string, V>, n: N, k: string) returns (a: string)
    requires WellFormed(g, root) && Represents(g, m) && n in g && k in g[n].children && k != ""
    ensures a in m.Keys && g[n].path <= a && |g[n].path| < |a| && a[|g[n].path|] == k[0]
  {
    var c := Down(g, root, n, k);
    var x := HasLeaf(g, root, c);
    a := g[x].path;
    assert Bound(m, a, g[x].value);
    assert a[|g[n].path|] == g[c].path[|g[n].path|] == k[0];
  }

  /** Every spot has its internal node. */
  lemma SpotHasNode<N, V>(g: Graph<N, V>, root: N, m: map<string, V>, p: string) returns (n: N)
    requires WellLinked(g, root) && Represents(g, m) && Spot(m.Keys, p)
    ensures n in g && !g[n].isLeaf && g[n].path == p
  {
    assert NodeOk(g, root, root);
    if p == "" {
      n := root;
    } else if p in m.Keys {
      var x, q := LeafOf(g, root, m, p);
      n := q;
    } else {
      var a, b :| a in m.Keys && b in m.Keys && p <= a && p <= b && |p| < |a| && |p| < |b| && a[|p|] != b[|p|];
      var x, _ := LeafOf(g, root, m, a);
      var y, _ := LeafOf(g, root, m, b);
      n := ForkHasNode(g, root, x, y, p, root);
    }
  }

  /** The walk from `n` towards two leaves that part after `p` meets a node at `p`. */
  lemma {:induction false} ForkHasNode<N, V>(g: Graph<N, V>, root: N, x: N, y: N, p: string, n: N) returns (r: N)
    requires WellLinked(g, root) && x in g && y in g && n in g && !g[n].isLeaf && g[n].path <= p
    requires p <= g[x].path && p <= g[y].path && |p| < |g[x].path| && |p| < |g[y].path|
    requires g[x].path[|p|] != g[y].path[|p|]
    ensures r in g && !g[r].isLeaf && g[r].path == p
    decreases |p| - |g[n].path|
  {
    if |g[n].path| == |p| {
      return n;
    }
    var c := Step(g, root, n, x);
    var d := Step(g, root, n, y);
    var _ := Up(g, root, c);
    var _ := Up(g, root, d);
    SameChild(g, root, n, c, d);
    r := ForkHasNode(g, root, x, y, p, c);
  }

  // ----- Same bindings, same tree -----

  /** The depth of a node is the length of the longest spot above it. */
  lemma DepthDictated<N, V>(g: Graph<N, V>, root: N, m: map<string, V>, n: N, p: string)
    requires WellLinked(g, root) && Represents(g, m) && n in g && n != root && !g[n].isLeaf
    requires Spot(m.Keys, p) && p <= g[n].path && |p| < |g[n].path|
    ensures |p| <= g[n].depth
  {
    var y := SpotHasNode(g, root, m, p);
    var _ := Up(g, root, n);
    if |p| > g[n].depth {
      assert p[..g[n].depth + 1] == g[n].path[..g[n].depth + 1];
      Funnel(g, root, n, y);
    }
  }

  /** Equal paths and leaf flags: the nodes of two trees that correspond to each other. */
  ghost predicate Twins<N, V>(g: Graph<N, V>, a: N, h: Graph<N, V>, b: N)
  {
    a in g && b in h && g[a].path == h[b].path && g[a].isLeaf == h[b].isLeaf
  }

  ghost predicate BothStore<N, V>(g: Graph<N, V>, gr: N, h: Graph<N, V>, hr: N, m: map<string, V>)
  {
    WellFormed(g, gr) && Represents(g, m) && WellFormed(h, hr) && Represents(h, m)
  }

  lemma TwinEdge<N, V>(g: Graph<N, V>, gr: N, a: N, h: Graph<N, V>, hr: N, b: N, m: map<string, V>)
    requires BothStore(g, gr, h, hr, m) && Twins(g, a, h, b)
    ensures g[a].depth == h[b].depth && g[a].key == h[b].key
    ensures a == gr <==> b == hr
    ensures g[a].isLeaf ==> g[a].value == h[b].value
  {
    assert NodeOk(g, gr, gr) && NodeOk(h, hr, hr);
    if a != gr {
      var p := Up(g, gr, a);
      if b != hr {
        var q := Up(h, hr, b);
        if !g[a].isLeaf {
          NodeAtSpot(g, gr, m, p);
          DepthDictated(h, hr, m, b, g[p].path);
          NodeAtSpot(h, hr, m, q);
          DepthDictated(g, gr, m, a, h[q].path);
        } else {
          assert NodeOk(g, gr, a) && NodeOk(h, hr, b);
          assert Bound(m, g[a].path, g[a].value) && Bound(m, h[b].path, h[b].value);
        }
      }
    } else if b != hr {
      var _ := Up(h, hr, b);
    }
  }

  /** A child of a node has its twin below the twin of the node, under the same label. */
  lemma TwinChild<N, V>(g: Graph<N, V>, gr: N, a: N, h: Graph<N, V>, hr: N, b: N, m: map<string, V>, k: string)
    requires BothStore(g, gr, h, hr, m) && Twins(g, a, h, b) && k in g[a].children
    ensures k in h[b].children && Twins(g, g[a].children[k], h, h[b].children[k])
  {
    var c := Down(g, gr, a, k);
    if k == "" {
      assert Bound(m, g[c].path, g[c].value);
      var x, p := LeafOf(h, hr, m, g[c].path);
      Unique(h, hr, p, b);
    } else {
      NodeAtSpot(g, gr, m, c);
      var d := SpotHasNode(h, hr, m, g[c].path);
      TwinEdge(g, gr, c, h, hr, d, m);
      var p := Up(h, hr, d);
      assert h[p].path == h[d].path[..h[d].depth] == g[a].path;
      Unique(h, hr, p, b);
    }
  }

  /** The structure below a node without node identities and without the values that internal
      nodes happen to carry: label, depth, leaf flag, entry, and child map. */
  datatype Tree<V> = Tree(key: string, depth: int, isLeaf: bool, entry: Option<(string, V)>, children: map<string, Tree<V>>)

  ghost function TreeOf<N, V>(g: Graph<N, V>, root: N, n: N): Tree<V>
    requires WellLinked(g, root) && n in g
    decreases Higher(g, n)
  {
    var r := g[n];
    Tree(r.key, r.depth, r.isLeaf, if r.isLeaf then r.value else None,
         map k | k in r.children :: (ChildHigher(g, root, n, k); TreeOf(g, root, r.children[k])))
  }

  lemma ChildHigher<N, V>(g: Graph<N, V>, root: N, n: N, k: string)
    requires WellLinked(g, root) && n in g && k in g[n].children
    ensures g[n].children[k] in g && Higher(g, g[n].children[k]) < Higher(g, n)
  {
    var c := Down(g, root, n, k);
    HigherShrinks(g, n, c);
  }

  lemma {:induction false} TwinTrees<N, V>(g: Graph<N, V>, gr: N, a: N, h: Graph<N, V>, hr: N, b: N, m: map<string, V>)
    requires BothStore(g, gr, h, hr, m) && Twins(g, a, h, b)
    ensures TreeOf(g, gr, a) == TreeOf(h, hr, b)
    decreases Higher(g, a)
  {
    TwinEdge(g, gr, a, h, hr, b, m);
    var s, t := TreeOf(g, gr, a).children, TreeOf(h, hr, b).children;
    forall k ensures k in s <==> k in t {
      if k in g[a].children { TwinChild(g, gr, a, h, hr, b, m, k); }
      if k in h[b].children { TwinChild(h, hr, b, g, gr, a, m, k); }
    }
    forall k | k in s ensures s[k] == t[k] {
      TwinChild(g, gr, a, h, hr, b, m, k);
      ChildHigher(g, gr, a, k);
      ChildHigher(h, hr, b, k);
      TwinTrees(g, gr, g[a].children[k], h, hr, h[b].children[k], m);
    }
    assert s == t;
  }

  /** Two well-formed trees that store the same bindings are structurally identical. */
  lemma SameBindingsSameTree<N, V>(g: Graph<N, V>, gr: N, h: Graph<N, V>, hr: N, m: map<string, V>)
    requires WellFormed(g, gr) && Represents(g, m) && WellFormed(h, hr) && Represents(h, m)
    ensures TreeOf(g, gr, gr) == TreeOf(h, hr, hr)
  {
    assert NodeOk(g, gr, gr) && NodeOk(h, hr, hr);
    TwinTrees(g, gr, gr, h, hr, hr, m);
  }

  /** What hangs below `a` has its counterpart below any node of the same structure. */
  lemma {:induction false} Counterpart<N, V>(g: Graph<N, V>, gr: N, a: N, h: Graph<N, V>, hr: N, b: N, x: N) returns (y: N)
    requires WellLinked(g, gr) && WellLinked(h, hr) && a in g && b in h && TreeOf(g, gr, a) == TreeOf(h, hr, b)
    requires x in g && (x == a || (!g[a].isLeaf && g[a].path <= g[x].path && Rank(g[a]) < Rank(g[x])))
    ensures y in h && h[y].isLeaf == g[x].isLeaf && (g[x].isLeaf ==> h[y].value == g[x].value)
    decreases Rank(g[x]) - Rank(g[a])
  {
    if x == a {
      y := b;
    } else {
      var c := Step(g, gr, a, x);
      var _ := Up(g, gr, c);
      var k := g[c].key;
      assert k in TreeOf(g, gr, a).children;
      var d := Down(h, hr, b, k);
      assert TreeOf(g, gr, a).children[k] == TreeOf(g, gr, c) && TreeOf(h, hr, b).children[k] == TreeOf(h, hr, d);
      y := Counterpart(g, gr, c, h, hr, d, x);
    }
  }

  /** The entries of the one tree are entries of the other, if the structures are the same. */
  lemma SameTreeMore<N, V>(g: Graph<N, V>, gr: N, h: Graph<N, V>, hr: N, m: map<string, V>, n: map<string, V>, k: string)
    requires WellFormed(g, gr) && Represents(g, m) && WellFormed(h, hr) && Represents(h, n)
    requires TreeOf(g, gr, gr) == TreeOf(h, hr, hr) && k in m
    ensures k in n && n[k] == m[k]
  {
    var x, _ := LeafOf(g, gr, m, k);
    assert NodeOk(g, gr, gr);
    var _ := Up(g, gr, x);
    var y := Counterpart(g, gr, gr, h, hr, hr, x);
    assert Bound(n, h[y].path, h[y].value);
  }

  /** Well-formed trees have the same structure exactly when they store the same bindings. */
  lemma SameTreeSameBindings<N, V>(g: Graph<N, V>, gr: N, h: Graph<N, V>, hr: N, m: map<string, V>, n: map<string, V>)
    requires WellFormed(g, gr) && Represents(g, m) && WellFormed(h, hr) && Represents(h, n)
    ensures TreeOf(g, gr, gr) == TreeOf(h, hr, hr) <==> m == n
  {
    if m == n {
      SameBindingsSameTree(g, gr, h, hr, m);
    }
    if TreeOf(g, gr, gr) == TreeOf(h, hr, hr) {
      forall k | k in m ensures k in n && n[k] == m[k] { SameTreeMore(g, gr, h, hr, m, n, k); }
      forall k | k in n ensures k in m { SameTreeMore(h, hr, g, gr, n, m, k); }
      assert m == n;
    }
  }

  // ----- The same, node by node and field by field -----

  /** `b` has the fields of `a`, up to the renaming `f` of nodes; the value an internal node happens
      to carry does not count. */
  ghost predicate SameFields<N, V>(g: Graph<N, V>, a: N, h: Graph<N, V>, b: N, f: map<N, N>)
  {
    a in g && b in h && g[a].key == h[b].key && g[a].depth == h[b].depth && g[a].isLeaf == h[b].isLeaf &&
    (g[a].isLeaf ==> g[a].value == h[b].value) &&
    (if g[a].parent.None? then h[b].parent.None? else
       g[a].parent.value in f && h[b].parent == Some(f[g[a].parent.value])) &&
    g[a].children.Keys == h[b].children.Keys &&
    forall k :: k in g[a].children ==> g[a].children[k] in f && f[g[a].children[k]] == h[b].children[k]
  }

  /** `f` renames the nodes of `g` to those of `h`, one to one, the root to the root, and all fields
      correspond. */
  ghost predicate Isomorphic<N, V>(g: Graph<N, V>, gr: N, h: Graph<N, V>, hr: N, f: map<N, N>)
  {
    f.Keys == g.Keys && f.Values == h.Keys && gr in f && f[gr] == hr &&
    (forall a, b :: a in f && b in f && f[a] == f[b] ==> a == b) &&
    forall a {:trigger f[a]} :: a in f ==> SameFields(g, a, h, f[a], f)
  }

  lemma TwinExists<N, V>(g: Graph<N, V>, gr: N, h: Graph<N, V>, hr: N, m: map<string, V>, a: N) returns (b: N)
    requires BothStore(g, gr, h, hr, m) && a in g
    ensures b in h && Twins(g, a, h, b)
  {
    if g[a].isLeaf {
      assert Bound(m, g[a].path, g[a].value);
      var x, _ := LeafOf(h, hr, m, g[a].path);
      b := x;
    } else {
      NodeAtSpot(g, gr, m, a);
      b := SpotHasNode(h, hr, m, g[a].path);
    }
  }

  ghost function TwinOf<N, V>(g: Graph<N, V>, gr: N, h: Graph<N, V>, hr: N, m: map<string, V>, a: N): (b: N)
    requires BothStore(g, gr, h, hr, m) && a in g
    ensures Twins(g, a, h, b)
  {
    assert exists b :: b in h && Twins(g, a, h, b) by { var _ := TwinExists(g, gr, h, hr, m, a); }
    var b :| b in h && Twins(g, a, h, b);
    b
  }

  ghost function Renaming<N, V>(g: Graph<N, V>, gr: N, h: Graph<N, V>, hr: N, m: map<string, V>): map<N, N>
    requires BothStore(g, gr, h, hr, m)
  {
    map a | a in g :: TwinOf(g, gr, h, hr, m, a)
  }

  /** A child is renamed to the child of the renamed node. */
  lemma RenamedChild<N, V>(g: Graph<N, V>, gr: N, h: Graph<N, V>, hr: N, m: map<string, V>, a: N, k: string)
    requires BothStore(g, gr, h, hr, m) && a in g && k in g[a].children
    ensures var f := Renaming(g, gr, h, hr, m);
      g[a].children[k] in f && k in h[f[a]].children && f[g[a].children[k]] == h[f[a]].children[k]
  {
    var b := TwinOf(g, gr, h, hr, m, a);
    var c := Down(g, gr, a, k);
    TwinChild(g, gr, a, h, hr, b, m, k);
    Unique(h, hr, TwinOf(g, gr, h, hr, m, c), h[b].children[k]);
  }

  lemma RenamedFields<N, V>(g: Graph<N, V>, gr: N, h: Graph<N, V>, hr: N, m: map<string, V>, a: N)
    requires BothStore(g, gr, h, hr, m) && a in g
    ensures SameFields(g, a, h, TwinOf(g, gr, h, hr, m, a), Renaming(g, gr, h, hr, m))
  {
    var f, b := Renaming(g, gr, h, hr, m), TwinOf(g, gr, h, hr, m, a);
    TwinEdge(g, gr, a, h, hr, b, m);
    forall k | k in g[a].children ensures k in h[b].children && g[a].children[k] in f && f[g[a].children[k]] == h[b].children[k] {
      RenamedChild(g, gr, h, hr, m, a, k);
    }
    forall k | k in h[b].children ensures k in g[a].children {
      TwinChild(h, hr, b, g, gr, a, m, k);
    }
    assert NodeOk(g, gr, gr) && NodeOk(h, hr, hr);
    if a != gr {
      var p := Up(g, gr, a);
      RenamedChild(g, gr, h, hr, m, p, g[a].key);
      var _ := Down(h, hr, f[p], g[a].key);
    }
  }

  /** Trees that store the same bindings have the same nodes, up to their identities. */
  lemma SameBindingsIsomorphic<N, V>(g: Graph<N, V>, gr: N, h: Graph<N, V>, hr: N, m: map<string, V>) returns (f: map<N, N>)
    requires WellFormed(g, gr) && Represents(g, m) && WellFormed(h, hr) && Represents(h, m)
    ensures Isomorphic(g, gr, h, hr, f)
  {
    f := Renaming(g, gr, h, hr, m);
    forall a | a in f ensures SameFields(g, a, h, f[a], f) {
      RenamedFields(g, gr, h, hr, m, a);
    }
    forall a, b | a in f && b in f && f[a] == f[b] ensures a == b {
      Unique(g, gr, a, b);
    }
    TwinEdge(g, gr, gr, h, hr, f[gr], m);
    forall b | b in h ensures b in f.Values {
      var a := TwinExists(h, hr, g, gr, m, b);
      Unique(h, hr, b, f[a]);
      assert a in f && f[a] == b;
    }
  }

  /** And only those. */
  lemma IsomorphicSameBindings<N, V>(g: Graph<N, V>, gr: N, h: Graph<N, V>, hr: N, m: map<string, V>, n: map<string, V>, f: map<N, N>)
    requires WellFormed(g, gr) && Represents(g, m) && WellFormed(h, hr) && Represents(h, n) && Isomorphic(g, gr, h, hr, f)
    ensures m == n
  {
    forall k | k in m ensures k in n && n[k] == m[k] {
      var x, _ := LeafOf(g, gr, m, k);
      assert SameFields(g, x, h, f[x], f);
      assert Bound(n, h[f[x]].path, h[f[x]].value);
    }
    forall k | k in n ensures k in m {
      var y, _ := LeafOf(h, hr, n, k);
      var x :| x in f && f[x] == y;
      assert SameFields(g, x, h, y, f);
      assert Bound(m, g[x].path, g[x].value);
    }
  }

  // ----- Size -----

  /** The spots other than the root's. */
  ghost function Spots(keys: set<string>): set<string>
  {
    set k, i | k in keys && 0 < i <= |k| && Spot(keys, k[..i]) :: k[..i]
  }

  lemma SpotsAreSpots(keys: set<string>, p: string)
    ensures p in Spots(keys) <==> p != "" && Spot(keys, p)
  {
    if p != "" && Spot(keys, p) {
      if p in keys {
        assert p == p[..|p|];
      } else {
        var a, b :| a in keys && b in keys && p <= a && p <= b && |p| < |a| && |p| < |b| && a[|p|] != b[|p|];
        assert p == a[..|p|];
      }
    }
  }

  /** A key that agrees with `k` for as long as any key in `keys`. */
  lemma {:induction false} Closest(keys: set<string>, k: string) returns (c: string)
    requires keys != {}
    ensures c in keys && forall a :: a in keys ==> Lcp(k, a) <= Lcp(k, c)
  {
    var x :| x in keys;
    if keys - {x} == {} {
      assert keys == {x};
      c := x;
    } else {
      var d := Closest(keys - {x}, k);
      c := if Lcp(k, d) < Lcp(k, x) then x else d;
    }
  }

  /** A new key adds at most two spots: its own and the point where it leaves the closest key. */
  lemma NewSpots(keys: set<string>, k: string, c: string, p: string)
    requires c in keys && forall a :: a in keys ==> Lcp(k, a) <= Lcp(k, c)
    requires p in Spots(keys + {k})
    ensures p in Spots(keys) + {k, k[..Lcp(k, c)]}
  {
    SpotsAreSpots(keys + {k}, p);
    SpotsAreSpots(keys, p);
    if p !in keys && p != k {
      var a, b :| a in keys + {k} && b in keys + {k} && p <= a && p <= b && |p| < |a| && |p| < |b| && a[|p|] != b[|p|];
      if a == k {
        ForkWithNew(keys, k, c, b, p);
      } else if b == k {
        ForkWithNew(keys, k, c, a, p);
      }
    }
  }

  /** Where `k` parts from an old key is where it leaves the closest one, or a fork already. */
  lemma ForkWithNew(keys: set<string>, k: string, c: string, o: string, p: string)
    requires c in keys && forall a :: a in keys ==> Lcp(k, a) <= Lcp(k, c)
    requires o in keys && p <= k && p <= o && |p| < |k| && |p| < |o| && k[|p|] != o[|p|]
    ensures p == k[..Lcp(k, c)] || Fork(keys, p)
  {
    assert k[..|p|] == o[..|p|];
    LcpUnique(k, o, |p|);
    var l := Lcp(k, c);
    if |p| < l {
      assert c[|p|] == c[..l][|p|] == k[..l][|p|] == k[|p|];
      assert p == k[..l][..|p|] == c[..|p|];
    }
  }

  lemma {:induction false} SpotCount(keys: set<string>)
    requires keys != {}
    ensures |Spots(keys)| <= 2 * |keys| - 1
  {
    var k :| k in keys;
    var rest := keys - {k};
    assert keys == rest + {k};
    if rest == {} {
      forall p | p in Spots(keys) ensures p == k {
        SpotsAreSpots(keys, p);
      }
      SubsetSize(Spots(keys), {k});
    } else {
      SpotCount(rest);
      var c := Closest(rest, k);
      forall p | p in Spots(keys) ensures p in Spots(rest) + {k, k[..Lcp(k, c)]} {
        NewSpots(rest, k, c, p);
      }
      SubsetSize(Spots(keys), Spots(rest) + {k, k[..Lcp(k, c)]});
    }
  }

  lemma {:induction false} SubsetSize<T>(a: set<T>, b: set<T>)
    requires a <= b
    ensures |a| <= |b|
  {
    if a != {} {
      var x :| x in a;
      SubsetSize(a - {x}, b - {x});
    }
  }

  lemma PartsSize<T>(a: set<T>, b: set<T>, all: set<T>)
    requires a !! b && a <= all && b <= all
    ensures |a| + |b| <= |all|
  {
    SubsetSize(a + b, all);
  }

  ghost function PathsOf<N, V>(g: Graph<N, V>, s: set<N>): set<string>
    requires s <= g.Keys
  {
    set n | n in s :: g[n].path
  }

  lemma {:induction false} PathCount<N, V>(g: Graph<N, V>, s: set<N>)
    requires s <= g.Keys
    requires forall a, b :: a in s && b in s && g[a].path == g[b].path ==> a == b
    ensures |PathsOf(g, s)| == |s|
  {
    if s == {} {
      assert PathsOf(g, s) == {};
    } else {
      var x :| x in s;
      PathCount(g, s - {x});
      assert PathsOf(g, s) == PathsOf(g, s - {x}) + {g[x].path};
      assert g[x].path !in PathsOf(g, s - {x});
    }
  }

  ghost function Inner<N, V>(g: Graph<N, V>, root: N): set<N>
  {
    set n | n in g && !g[n].isLeaf && n != root
  }

  lemma LeafCount<N, V>(g: Graph<N, V>, root: N, m: map<string, V>)
    requires WellLinked(g, root) && Represents(g, m)
    ensures |Leaves(g)| == |m|
  {
    forall a, b | a in Leaves(g) && b in Leaves(g) && g[a].path == g[b].path ensures a == b {
      Unique(g, root, a, b);
    }
    PathCount(g, Leaves(g));
    forall k ensures k in PathsOf(g, Leaves(g)) <==> k in m.Keys {
      if k in PathsOf(g, Leaves(g)) {
        var n :| n in Leaves(g) && g[n].path == k;
        assert Bound(m, g[n].path, g[n].value);
      }
      if k in m.Keys {
        assert Stored(g, k);
        var n :| n in g && LeafFor(g, n, k);
        assert n in Leaves(g);
      }
    }
    assert PathsOf(g, Leaves(g)) == m.Keys;
  }

  /** The internal nodes besides the root are one for each spot. */
  lemma InnerCount<N, V>(g: Graph<N, V>, root: N, m: map<string, V>)
    requires WellFormed(g, root) && Represents(g, m)
    ensures |Inner(g, root)| == |Spots(m.Keys)|
  {
    var s := Inner(g, root);
    assert NodeOk(g, root, root);
    forall a, b | a in s && b in s && g[a].path == g[b].path ensures a == b {
      Unique(g, root, a, b);
    }
    PathCount(g, s);
    forall p ensures p in PathsOf(g, s) <==> p in Spots(m.Keys) {
      SpotsAreSpots(m.Keys, p);
      if p in PathsOf(g, s) {
        var n :| n in s && g[n].path == p;
        NodeAtSpot(g, root, m, n);
        var _ := Up(g, root, n);
      }
      if p in Spots(m.Keys) {
        var n := SpotHasNode(g, root, m, p);
        assert n in s;
      }
    }
    assert PathsOf(g, s) == Spots(m.Keys);
  }

  /** With n >= 1 keys: n leaves, at most 2n - 1 internal nodes besides the root, 3n nodes in all. */
  lemma SpaceBound<N, V>(g: Graph<N, V>, root: N, m: map<string, V>)
    requires WellFormed(g, root) && Represents(g, m) && m != map[]
    ensures |Leaves(g)| == |m| && |Inner(g, root)| <= 2 * |m| - 1 && |g| <= 3 * |m|
  {
    assert NodeOk(g, root, root);
    LeafCount(g, root, m);
    InnerCount(g, root, m);
    assert m.Keys != {};
    SpotCount(m.Keys);
    assert g.Keys == Leaves(g) + Inner(g, root) + {root};
  }

  // ----- The bounds are attained -----

  /** "a", repeated. */
  function Rung(n: nat): string
  {
    if n == 0 then "" else Rung(n - 1) + "a"
  }

  /** "ab", "aab", and so on: `n` keys, each of which leaves the others at a point of its own. */
  function Ladder(n: nat): set<string>
  {
    if n == 0 then {} else Ladder(n - 1) + {Rung(n) + "b"}
  }

  function Rungs(n: nat): set<string>
  {
    if n == 0 then {} else Rungs(n - 1) + {Rung(n)}
  }

  lemma {:induction false} RungIs(n: nat)
    ensures |Rung(n)| == n && forall i :: 0 <= i < n ==> Rung(n)[i] == 'a'
  {
    if n > 0 { RungIs(n - 1); }
  }

  lemma {:induction false} LadderHas(n: nat, k: string) returns (i: nat)
    requires k in Ladder(n)
    ensures 1 <= i <= n && k == Rung(i) + "b"
  {
    i := n;
    if k != Rung(n) + "b" { i := LadderHas(n - 1, k); }
  }

  lemma {:induction false} LadderCount(n: nat)
    ensures |Ladder(n)| == n
  {
    if n > 0 {
      LadderCount(n - 1);
      if Rung(n) + "b" in Ladder(n - 1) {
        var i := LadderHas(n - 1, Rung(n) + "b");
        RungIs(i);
        RungIs(n);
      }
    }
  }

  lemma {:induction false} RungsHas(n: nat, p: string) returns (i: nat)
    requires p in Rungs(n)
    ensures 1 <= i <= n && p == Rung(i)
  {
    i := n;
    if p != Rung(n) { i := RungsHas(n - 1, p); }
  }

  lemma {:induction false} RungsCount(n: nat)
    ensures |Rungs(n)| == n
  {
    if n > 0 {
      RungsCount(n - 1);
      if Rung(n) in Rungs(n - 1) {
        var i := RungsHas(n - 1, Rung(n));
        RungIs(i);
        RungIs(n);
      }
    }
  }

  lemma {:induction false} LadderGrows(i: nat, n: nat)
    requires 1 <= i <= n
    ensures Rung(i) + "b" in Ladder(n)
  {
    if i < n { LadderGrows(i, n - 1); }
  }

  lemma KeyIsNoRung(i: nat, j: nat)
    ensures Rung(i) + "b" != Rung(j)
  {
    RungIs(j);
    assert (Rung(i) + "b")[|Rung(i)|] == 'b';
  }

  lemma LadderApart(n: nat, i: nat)
    ensures Ladder(n) !! Rungs(i)
  {
    forall p | p in Ladder(n) ensures p !in Rungs(i) {
      var k := LadderHas(n, p);
      if p in Rungs(i) {
        var j := RungsHas(i, p);
        KeyIsNoRung(k, j);
      }
    }
  }

  /** Every key of the ladder asks for a node, and so does every rung but the last. */
  lemma LadderAsks(n: nat, p: string)
    requires n >= 1 && p in Ladder(n) + Rungs(n - 1)
    ensures p in Spots(Ladder(n))
  {
    SpotsAreSpots(Ladder(n), p);
    if p in Ladder(n) {
      var i := LadderHas(n, p);
      assert |p| == |Rung(i)| + 1;
    } else {
      var i := RungsHas(n - 1, p);
      RungParts(n, i);
    }
  }

  lemma LadderSpots(n: nat)
    requires n >= 1
    ensures |Spots(Ladder(n))| == 2 * n - 1
  {
    forall p | p in Ladder(n) + Rungs(n - 1) ensures p in Spots(Ladder(n)) {
      LadderAsks(n, p);
    }
    LadderMany(n, Spots(Ladder(n)));
    LadderNotEmpty(n);
    SpotCount(Ladder(n));
  }

  lemma LadderMany(n: nat, spots: set<string>)
    requires n >= 1 && forall p :: p in Ladder(n) + Rungs(n - 1) ==> p in spots
    ensures |Ladder(n)| == n && |spots| >= 2 * n - 1
  {
    LadderApart(n, n - 1);
    LadderCount(n);
    RungsCount(n - 1);
    PartsSize(Ladder(n), Rungs(n - 1), spots);
  }

  lemma LadderNotEmpty(n: nat)
    requires n >= 1
    ensures Ladder(n) != {}
  {
    assert Rung(n) + "b" in Ladder(n);
  }

  lemma RungParts(n: nat, i: nat)
    requires 1 <= i < n
    ensures Rung(i) != "" && Fork(Ladder(n), Rung(i))
  {
    RungIs(i);
    LadderGrows(i, n);
    LadderGrows(i + 1, n);
    var a, b := Rung(i) + "b", Rung(i + 1) + "b";
    assert a[i] == 'b' && b[i] == 'a';
    assert b == Rung(i) + "ab";
  }

  /** No better bound holds for any n: a tree that stores the ladder has 3n nodes. */
  lemma SpaceAttained<N, V>(g: Graph<N, V>, root: N, m: map<string, V>, n: nat)
    requires WellFormed(g, root) && Represents(g, m) && m.Keys == Ladder(n) && n >= 1
    ensures |m| == n && |Leaves(g)| == n && |Inner(g, root)| == 2 * n - 1 && |g| == 3 * n
  {
    assert NodeOk(g, root, root);
    LeafCount(g, root, m);
    InnerCount(g, root, m);
    LadderCount(n);
    LadderSpots(n);
    assert g.Keys == Leaves(g) + Inner(g, root) + {root};
  }

  /** Nothing stored and nothing below the root are the same. */
  lemma EmptyMeansBare<N, V>(g: Graph<N, V>, root: N, m: map<string, V>)
    requires WellFormed(g, root) && Represents(g, m)
    ensures g[root].children == map[] <==> m == map[]
  {
    if g[root].children != map[] {
      var x := HasLeaf(g, root, root);
      assert Bound(m, g[x].path, g[x].value);
    }
    if m != map[] {
      assert m.Keys != {};
      var k :| k in m;
      var x, _ := LeafOf(g, root, m, k);
      assert NodeOk(g, root, root);
      var c := Step(g, root, root, x);
      var _ := Up(g, root, c);
    }
  }
}
