// The six pointer edits that insertion and deletion are made of, in three inverse pairs:
// hanging and dropping a leaf, hanging and dropping a childless internal node, splitting an
// edge and merging a node with its only child. Each keeps the structure well linked, says
// which node it leaves loose (not compact), and what it does to the stored bindings.

module RadixEdits {
  import opened Sequences
  import opened RadixGraph

  // ----- The edits -----

  ghost function AddLeaf<N, V>(g: Graph<N, V>, p: N, x: N, v: V): Graph<N, V>
    requires p in g
  {
    var r := g[p];
    g[p := r.(children := r.children["" := x])]
     [x := Rec(r.path, "", |r.path|, true, Some(p), map[], Some((r.path, v)))]
  }

  ghost function DropLeaf<N, V>(g: Graph<N, V>, x: N): Graph<N, V>
    requires x in g && g[x].parent.Some? && g[x].parent.value in g
  {
    var p := g[x].parent.value;
    g[p := g[p].(children := g[p].children - {""})] - {x}
  }

  ghost function AddInner<N, V>(g: Graph<N, V>, p: N, b: N, k: string, value: Option<(string, V)>): Graph<N, V>
    requires p in g
  {
    var r := g[p];
    g[p := r.(children := r.children[k := b])]
     [b := Rec(r.path + k, k, |r.path|, false, Some(p), map[], value)]
  }

  ghost function DropInner<N, V>(g: Graph<N, V>, b: N): Graph<N, V>
    requires b in g && g[b].parent.Some? && g[b].parent.value in g
  {
    var p := g[b].parent.value;
    g[p := g[p].(children := g[p].children - {g[b].key})] - {b}
  }

  /** A new node `a` takes over the first `i` characters of the label of `n`. */
  ghost function Split<N, V>(g: Graph<N, V>, n: N, a: N, i: nat): Graph<N, V>
    requires n in g && g[n].parent.Some? && g[n].parent.value in g
    requires i <= |g[n].key| && 0 <= g[n].depth && g[n].depth + i <= |g[n].path|
  {
    var r, q := g[n], g[n].parent.value;
    g[q := g[q].(children := (g[q].children - {r.key})[r.key[..i] := a])]
     [n := r.(depth := r.depth + i, parent := Some(a), key := r.key[i..])]
     [a := Rec(r.path[..r.depth + i], r.key[..i], r.depth, false, Some(q), map[r.key[i..] := n], None)]
  }

  /** Its two steps: `a` takes the place of `n` in the map of the parent, */
  ghost function Cleft<N, V>(g: Graph<N, V>, n: N, a: N, i: nat): Graph<N, V>
    requires n in g && g[n].parent.Some? && g[n].parent.value in g
    requires i <= |g[n].key| && 0 <= g[n].depth && g[n].depth + i <= |g[n].path|
  {
    var r, q := g[n], g[n].parent.value;
    g[q := g[q].(children := (g[q].children - {r.key})[r.key[..i] := a])]
     [a := Rec(r.path[..r.depth + i], r.key[..i], r.depth, false, Some(q), map[], None)]
  }

  /** and `n` with the rest of its label hangs below `a`. */
  ghost function Lowered<N, V>(g: Graph<N, V>, n: N, a: N, i: nat): Graph<N, V>
    requires n in g && a in g && i <= |g[n].key|
  {
    var r := g[n];
    g[n := r.(depth := r.depth + i, parent := Some(a), key := r.key[i..])]
     [a := g[a].(children := g[a].children[r.key[i..] := n])]
  }

  lemma SplitSteps<N, V>(g: Graph<N, V>, n: N, a: N, i: nat)
    requires n in g && a !in g && g[n].parent.Some? && g[n].parent.value in g && g[n].parent.value != n
    requires i <= |g[n].key| && 0 <= g[n].depth && g[n].depth + i <= |g[n].path|
    ensures Lowered(Cleft(g, n, a, i), n, a, i) == Split(g, n, a, i)
  {
    assert map[][g[n].key[i..] := n] == map[g[n].key[i..] := n];
  }

  /** The only child `u` of `n` takes over the label of `n` and its place. */
  ghost function Merge<N, V>(g: Graph<N, V>, n: N, u: N): Graph<N, V>
    requires n in g && u in g && g[n].parent.Some? && g[n].parent.value in g
  {
    var r, q, k := g[n], g[n].parent.value, g[n].key + g[u].key;
    g[q := g[q].(children := (g[q].children - {r.key})[k := u])]
     [u := g[u].(depth := r.depth, key := k, parent := Some(q))] - {n}
  }

  // ----- They keep the structure well linked -----

  /** A node stays well linked when its own fields, the entry it hangs from and the links of
      its children stay. */
  lemma Kept<N, V>(g: Graph<N, V>, h: Graph<N, V>, root: N, n: N)
    requires n in g && n in h && NodeOk(g, root, n) && h[n] == g[n]
    requires n != root ==> g[n].parent.value in h && g[g[n].parent.value].path == h[g[n].parent.value].path
    requires n != root ==> g[n].key in h[g[n].parent.value].children && h[g[n].parent.value].children[g[n].key] == n
    requires n != root ==> !h[g[n].parent.value].isLeaf
    requires forall k :: k in g[n].children ==>
      g[n].children[k] in h && h[g[n].children[k]].parent == Some(n) && h[g[n].children[k]].key == k
    ensures NodeOk(h, root, n)
  {
  }

  /** No child of `r` continues with character `c`. */
  ghost predicate NoBranch<N, V>(r: Rec<N, V>, c: char)
  {
    forall k :: k in r.children && k != "" ==> k[0] != c
  }

  lemma AddLeafLinked<N, V>(g: Graph<N, V>, root: N, p: N, x: N, v: V)
    requires WellLinked(g, root) && p in g && x !in g && !g[p].isLeaf && "" !in g[p].children
    ensures WellLinked(AddLeaf(g, p, x, v), root)
  {
    var h := AddLeaf(g, p, x, v);
    assert NodeOk(g, root, p);
    forall n | n in h ensures NodeOk(h, root, n) {
      if n != x {
        assert NodeOk(g, root, n);
        if n != p { Kept(g, h, root, n); }
      }
    }
  }

  lemma AddInnerLinked<N, V>(g: Graph<N, V>, root: N, p: N, b: N, k: string, value: Option<(string, V)>)
    requires WellLinked(g, root) && p in g && b !in g && !g[p].isLeaf && k != "" && NoBranch(g[p], k[0])
    ensures WellLinked(AddInner(g, p, b, k, value), root)
  {
    var h := AddInner(g, p, b, k, value);
    assert NodeOk(g, root, p);
    forall n | n in h ensures NodeOk(h, root, n) {
      if n != b {
        assert NodeOk(g, root, n);
        if n != p { Kept(g, h, root, n); }
      }
    }
  }

  lemma DropLeafLinked<N, V>(g: Graph<N, V>, root: N, x: N)
    requires WellLinked(g, root) && x in g && g[x].isLeaf && x != root
    requires g[x].parent.Some? && g[x].parent.value in g
    ensures WellLinked(DropLeaf(g, x), root)
  {
    var h := DropLeaf(g, x);
    assert NodeOk(g, root, x) && NodeOk(g, root, g[x].parent.value);
    forall n | n in h ensures NodeOk(h, root, n) {
      assert NodeOk(g, root, n);
    }
  }

  lemma DropInnerLinked<N, V>(g: Graph<N, V>, root: N, b: N)
    requires WellLinked(g, root) && b in g && b != root && g[b].children == map[]
    requires g[b].parent.Some? && g[b].parent.value in g
    ensures WellLinked(DropInner(g, b), root)
  {
    var h := DropInner(g, b);
    assert NodeOk(g, root, b) && NodeOk(g, root, g[b].parent.value);
    forall n | n in h ensures NodeOk(h, root, n) {
      assert NodeOk(g, root, n);
    }
  }

  ghost predicate CanSplit<N, V>(g: Graph<N, V>, root: N, n: N, a: N, i: nat)
  {
    n in g && n != root && a !in g && !g[n].isLeaf && 0 < i < |g[n].key| &&
    g[n].parent.Some? && g[n].parent.value in g && 0 <= g[n].depth && g[n].depth + i <= |g[n].path|
  }

  lemma SplitLinked<N, V>(g: Graph<N, V>, root: N, n: N, a: N, i: nat)
    requires WellLinked(g, root) && CanSplit(g, root, n, a, i)
    ensures WellLinked(Split(g, n, a, i), root)
  {
    var h := Split(g, n, a, i);
    var q := Up(g, root, n);
    SplitEdge(g, root, n, a, i);
    SplitTop(g, root, n, a, i);
    assert NodeOk(g, root, n) && NodeOk(g, root, q);
    assert g[n].key[..i][0] == g[n].key[0];
    forall y | y in h ensures NodeOk(h, root, y) {
      if y != a && y != q && y != n {
        assert NodeOk(g, root, y);
        Kept(g, h, root, y);
      }
    }
  }

  /** The two halves of the split edge. */
  lemma SplitEdge<N, V>(g: Graph<N, V>, root: N, n: N, a: N, i: nat)
    requires WellLinked(g, root) && CanSplit(g, root, n, a, i)
    ensures NodeOk(Split(g, n, a, i), root, a) && NodeOk(Split(g, n, a, i), root, n)
  {
    var r := g[n];
    assert NodeOk(g, root, n) && NodeOk(g, root, root);
    assert r.key[..i] == r.path[..r.depth + i][r.depth..];
    assert r.key[i..] == r.path[r.depth + i..];
  }

  /** The node the split edge hangs from. */
  lemma SplitTop<N, V>(g: Graph<N, V>, root: N, n: N, a: N, i: nat)
    requires WellLinked(g, root) && CanSplit(g, root, n, a, i)
    ensures NodeOk(Split(g, n, a, i), root, g[n].parent.value)
  {
    var q := Up(g, root, n);
    assert NodeOk(g, root, n) && NodeOk(g, root, q);
    assert g[n].key[..i][0] == g[n].key[0];
  }

  ghost predicate CanMerge<N, V>(g: Graph<N, V>, root: N, n: N, u: N)
  {
    n in g && n != root && u in g && !g[n].isLeaf && !g[u].isLeaf &&
    g[n].parent.Some? && g[n].parent.value in g && g[n].parent.value != n && u != n &&
    g[n].children == map[g[u].key := u]
  }

  lemma MergeLinked<N, V>(g: Graph<N, V>, root: N, n: N, u: N)
    requires WellLinked(g, root) && CanMerge(g, root, n, u)
    ensures WellLinked(Merge(g, n, u), root)
  {
    var h := Merge(g, n, u);
    MergeEdge(g, root, n, u);
    MergeTop(g, root, n, u);
    forall y | y in h ensures NodeOk(h, root, y) {
      if y != u && y != g[n].parent.value { MergeRest(g, root, n, u, y); }
    }
  }

  /** Every other node. */
  lemma MergeRest<N, V>(g: Graph<N, V>, root: N, n: N, u: N, y: N)
    requires WellLinked(g, root) && CanMerge(g, root, n, u)
    requires y in g && y != n && y != u && y != g[n].parent.value
    ensures NodeOk(Merge(g, n, u), root, y)
  {
    var q := Up(g, root, n);
    var _ := Down(g, root, n, g[u].key);
    assert NodeOk(g, root, q) && NodeOk(g, root, y);
    Kept(g, Merge(g, n, u), root, y);
  }

  /** The merged edge. */
  lemma MergeEdge<N, V>(g: Graph<N, V>, root: N, n: N, u: N)
    requires WellLinked(g, root) && CanMerge(g, root, n, u)
    ensures NodeOk(Merge(g, n, u), root, u)
  {
    var q := Up(g, root, n);
    var _ := Down(g, root, n, g[u].key);
    assert NodeOk(g, root, n) && NodeOk(g, root, u) && NodeOk(g, root, root);
    var k := g[n].key + g[u].key;
    assert g[u].path == g[q].path + k;
    assert k == g[u].path[g[n].depth..];
  }

  /** The node the merged edge hangs from. */
  lemma MergeTop<N, V>(g: Graph<N, V>, root: N, n: N, u: N)
    requires WellLinked(g, root) && CanMerge(g, root, n, u)
    ensures NodeOk(Merge(g, n, u), root, g[n].parent.value)
  {
    var q := Up(g, root, n);
    var _ := Down(g, root, n, g[u].key);
    assert NodeOk(g, root, n) && NodeOk(g, root, u) && NodeOk(g, root, q);
    assert (g[n].key + g[u].key)[0] == g[n].key[0];
  }

  // ----- Compactness -----

  lemma MapSize<K, N>(m: map<K, N>, k: K, x: N)
    requires k !in m
    ensures |m[k := x]| == |m| + 1
  {
  }

  lemma RemovedSize<K, N>(m: map<K, N>, k: K)
    requires k in m
    ensures |m - {k}| == |m| - 1
  {
  }

  lemma AddLeafSnug<N, V>(g: Graph<N, V>, root: N, loose: set<N>, p: N, x: N, v: V)
    requires p in g && x !in g && !g[p].isLeaf && Snug(g, root, loose)
    ensures Snug(AddLeaf(g, p, x, v), root, loose - {p})
  {
  }

  /** The new node is loose; its parent no longer is, if it had a child already. */
  lemma AddInnerSnug<N, V>(g: Graph<N, V>, root: N, loose: set<N>, p: N, b: N, k: string, value: Option<(string, V)>)
    requires p in g && b !in g && !g[p].isLeaf && Snug(g, root, loose) && k !in g[p].children
    requires p == root || g[p].children != map[]
    ensures Snug(AddInner(g, p, b, k, value), root, loose - {p} + {b})
  {
  }

  lemma DropLeafSnug<N, V>(g: Graph<N, V>, root: N, loose: set<N>, x: N)
    requires x in g && g[x].parent.Some? && g[x].parent.value in g && Snug(g, root, loose)
    ensures Snug(DropLeaf(g, x), root, loose + {g[x].parent.value})
  {
  }

  lemma DropInnerSnug<N, V>(g: Graph<N, V>, root: N, loose: set<N>, b: N)
    requires b in g && g[b].parent.Some? && g[b].parent.value in g && Snug(g, root, loose)
    ensures Snug(DropInner(g, b), root, loose - {b} + {g[b].parent.value})
  {
  }

  lemma SplitSnug<N, V>(g: Graph<N, V>, root: N, loose: set<N>, n: N, a: N, i: nat)
    requires WellLinked(g, root) && Snug(g, root, loose) && CanSplit(g, root, n, a, i)
    ensures Snug(Split(g, n, a, i), root, loose + {a})
  {
    var h := Split(g, n, a, i);
    var q := Up(g, root, n);
    assert NodeOk(g, root, n) && NodeOk(g, root, q);
    Relabelled(g[q].children, g[n].key, g[n].key[..i], a);
    forall y | y in h && y != root && y !in loose + {a} && !h[y].isLeaf ensures Compact(h[y]) {
      assert Compact(g[y]);
    }
  }

  lemma MergeSnug<N, V>(g: Graph<N, V>, root: N, loose: set<N>, n: N, u: N)
    requires WellLinked(g, root) && Snug(g, root, loose) && CanMerge(g, root, n, u)
    ensures Snug(Merge(g, n, u), root, loose - {n})
  {
    var h := Merge(g, n, u);
    var q := Up(g, root, n);
    assert NodeOk(g, root, n) && NodeOk(g, root, q);
    Relabelled(g[q].children, g[n].key, g[n].key + g[u].key, u);
    forall y | y in h && y != root && y !in loose - {n} && !h[y].isLeaf ensures Compact(h[y]) {
      assert Compact(g[y]);
    }
  }

  /** Replacing one label by another that starts the same keeps the number of children. */
  lemma Relabelled<N>(m: map<string, N>, j: string, k: string, x: N)
    requires j in m && j != "" && k != "" && j[0] == k[0]
    requires forall l :: l in m && l != "" && l[0] == j[0] ==> l == j
    ensures |(m - {j})[k := x]| == |m|
  {
  }

  // ----- The stored bindings -----

  lemma AddLeafMeans<N, V>(g: Graph<N, V>, m: map<string, V>, p: N, x: N, v: V)
    requires p in g && x !in g && !g[p].isLeaf && Represents(g, m) && g[p].path !in m
    ensures Represents(AddLeaf(g, p, x, v), m[g[p].path := v])
  {
    var h, k, m' := AddLeaf(g, p, x, v), g[p].path, m[g[p].path := v];
    forall n | n in h && h[n].isLeaf ensures Bound(m', h[n].path, h[n].value) {
      assert n != x ==> Bound(m, g[n].path, g[n].value);
    }
    forall j | j in m' ensures Stored(h, j) {
      if j == k {
        assert LeafFor(h, x, j);
      } else {
        assert Stored(g, j);
        var n :| n in g && LeafFor(g, n, j);
        assert LeafFor(h, n, j);
      }
    }
  }

  lemma DropLeafMeans<N, V>(g: Graph<N, V>, root: N, m: map<string, V>, x: N)
    requires WellLinked(g, root) && Represents(g, m) && x in g && g[x].isLeaf
    requires g[x].parent.Some? && g[x].parent.value in g && !g[g[x].parent.value].isLeaf
    ensures Represents(DropLeaf(g, x), m - {g[x].path})
  {
    var h, k, m' := DropLeaf(g, x), g[x].path, m - {g[x].path};
    forall n | n in h && h[n].isLeaf ensures Bound(m', h[n].path, h[n].value) {
      assert Bound(m, g[n].path, g[n].value);
      if g[n].path == k { Unique(g, root, n, x); }
    }
    forall j | j in m' ensures Stored(h, j) {
      assert Stored(g, j);
      var n :| n in g && LeafFor(g, n, j);
      assert LeafFor(h, n, j);
    }
  }

  /** An edit that only touches internal nodes leaves the bindings alone. */
  lemma SameLeavesMean<N, V>(g: Graph<N, V>, h: Graph<N, V>, m: map<string, V>)
    requires Represents(g, m)
    requires forall n :: n in g && g[n].isLeaf ==> n in h && h[n] == g[n]
    requires forall n :: n in h && h[n].isLeaf ==> n in g && h[n] == g[n]
    ensures Represents(h, m)
  {
    forall n | n in h && h[n].isLeaf ensures Bound(m, h[n].path, h[n].value) {
      assert Bound(m, g[n].path, g[n].value);
    }
    forall j | j in m ensures Stored(h, j) {
      assert Stored(g, j);
      var n :| n in g && LeafFor(g, n, j);
      assert LeafFor(h, n, j);
    }
  }

  // ----- Each pair undoes -----

  lemma DropLeafUndoes<N, V>(g: Graph<N, V>, p: N, x: N, v: V)
    requires p in g && x !in g && "" !in g[p].children
    ensures DropLeaf(AddLeaf(g, p, x, v), x) == g
  {
    assert g[p].children["" := x] - {""} == g[p].children;
  }

  lemma DropInnerUndoes<N, V>(g: Graph<N, V>, p: N, b: N, k: string, value: Option<(string, V)>)
    requires p in g && b !in g && k !in g[p].children
    ensures DropInner(AddInner(g, p, b, k, value), b) == g
  {
    assert g[p].children[k := b] - {k} == g[p].children;
  }

  lemma MergeUndoesSplit<N, V>(g: Graph<N, V>, root: N, n: N, a: N, i: nat)
    requires WellLinked(g, root) && CanSplit(g, root, n, a, i)
    ensures CanMerge(Split(g, n, a, i), root, a, n)
    ensures Merge(Split(g, n, a, i), a, n) == g
  {
    var h := Split(g, n, a, i);
    var q := Up(g, root, n);
    var r := g[n];
    assert NodeOk(g, root, n) && NodeOk(g, root, q) && NodeOk(g, root, root);
    assert r.key[..i] + r.key[i..] == r.key;
    assert r.key[..i][0] == r.key[0];
    assert (g[q].children - {r.key})[r.key[..i] := a] - {r.key[..i]} == g[q].children - {r.key};
    assert (g[q].children - {r.key})[r.key := n] == g[q].children;
  }
}
