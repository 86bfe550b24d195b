// Insertion and deletion as sequences of edits: what append, prepend and erase make of the
// structure. Both keep it well formed and change the stored bindings by exactly one; erasing
// a key right after inserting it restores the structure, node for node.

module RadixUpdates {
  import opened Sequences
  import opened Strings
  import opened RadixGraph
  import opened RadixEdits
  import opened RadixSearch

  /** append: a leaf `x` below `p`, under a new internal node `b` when some of the key is left. */
  ghost function Appended<N, V>(g: Graph<N, V>, p: N, b: N, x: N, key: string, v: V, extra: Option<(string, V)>): Graph<N, V>
    requires p in g && |g[p].path| <= |key|
  {
    if |g[p].path| == |key| then AddLeaf(g, p, x, v)
    else AddLeaf(AddInner(g, p, b, key[|g[p].path|..], extra), b, x, v)
  }

  /** prepend: a new node `a` splits the edge above `n`, and the rest is like append at `a`. */
  ghost function Prepended<N, V>(g: Graph<N, V>, n: N, a: N, b: N, x: N, i: nat, key: string, v: V): Graph<N, V>
    requires n in g && g[n].parent.Some? && g[n].parent.value in g
    requires i <= |g[n].key| && 0 <= g[n].depth && g[n].depth + i <= |g[n].path| && g[n].depth + i <= |key|
  {
    Appended(Split(g, n, a, i), a, b, x, key, v, None)
  }

  /** `a`, `x` and, if some of the key is left, `b` are new, and `i` is how much the key shares
      with the label of `n`. */
  ghost predicate CanPrepend<N, V>(g: Graph<N, V>, root: N, n: N, a: N, b: N, x: N, i: nat, key: string)
  {
    CanSplit(g, root, n, a, i) && g[n].depth + i <= |key| && i == Lcp(g[n].key, key[g[n].depth..]) &&
    x !in g && a != x && (g[n].depth + i < |key| ==> b !in g && b != x && a != b)
  }

  /** The end of erase: a non-root node left with one internal child merges with it. */
  ghost function Merged<N, V>(g: Graph<N, V>, root: N, n: N): Graph<N, V>
    requires WellLinked(g, root) && n in g
  {
    if n == root || |g[n].children| != 1 then g else
      var u := OnlyChild(g[n].children);
      if u !in g || g[u].isLeaf || g[n].parent.None? || g[n].parent.value !in g then g else Merge(g, n, u)
  }

  ghost function OnlyChild<K, N>(m: map<K, N>): (u: N)
    requires |m| == 1
    ensures exists k :: k in m && u == m[k] && m == map[k := u]
  {
    var k := OnlyKey(m);
    m[k]
  }

  ghost function OnlyKey<K, N>(m: map<K, N>): (k: K)
    requires |m| == 1
    ensures k in m && m == map[k := m[k]]
  {
    assert |m.Keys| == 1;
    var k :| k in m.Keys;
    assert |m.Keys - {k}| == 0;
    assert forall j :: j in m.Keys ==> j == k || j in m.Keys - {k};
    k
  }

  /** erase after the leaf is gone, when its parent `p` is left with at most one child: an empty
      parent goes too, and the node above may merge. */
  ghost function Pruned<N, V>(g: Graph<N, V>, root: N, p: N): Graph<N, V>
    requires WellLinked(g, root) && p in g && p != root && !g[p].isLeaf
  {
    if g[p].children != map[] then Merged(g, root, p) else
      (EmptiedFacts(g, root, p);
       Merged(DropInner(g, p), root, g[p].parent.value))
  }

  ghost function PrunedIfLoose<N, V>(g: Graph<N, V>, root: N, p: N): Graph<N, V>
    requires WellLinked(g, root) && p in g && !g[p].isLeaf
  {
    if p == root || |g[p].children| > 1 then g else Pruned(g, root, p)
  }

  /** erase, once it has found the leaf `x`. */
  ghost function Erased<N, V>(g: Graph<N, V>, root: N, x: N): Graph<N, V>
    requires WellLinked(g, root) && x in g && g[x].isLeaf
  {
    LeafFacts(g, root, x);
    PrunedIfLoose(DropLeaf(g, x), root, g[x].parent.value)
  }

  // ----- Insertion -----

  /** append keeps the structure well formed, also below a node `p` that a split left loose. */
  lemma AppendedOk<N, V>(g: Graph<N, V>, root: N, m: map<string, V>, p: N, b: N, x: N, key: string, v: V, extra: Option<(string, V)>)
    requires WellLinked(g, root) && Snug(g, root, {p}) && Represents(g, m)
    requires StopsAtNode(g, key, p) && key !in m && (p == root || g[p].children != map[])
    requires x !in g && (|g[p].path| < |key| ==> b !in g && b != x)
    ensures WellFormed(Appended(g, p, b, x, key, v, extra), root)
    ensures Represents(Appended(g, p, b, x, key, v, extra), m[key := v])
  {
    if |g[p].path| == |key| {
      assert g[p].path == key;
      AddLeafLinked(g, root, p, x, v);
      AddLeafSnug(g, root, {p}, p, x, v);
      AddLeafMeans(g, m, p, x, v);
    } else {
      var k := key[|g[p].path|..];
      var h := AddInner(g, p, b, k, extra);
      assert g[p].path + k == key;
      AddInnerLinked(g, root, p, b, k, extra);
      AddInnerSnug(g, root, {p}, p, b, k, extra);
      SameLeavesMean(g, h, m);
      AddLeafLinked(h, root, b, x, v);
      AddLeafSnug(h, root, {b}, b, x, v);
      AddLeafMeans(h, m, b, x, v);
    }
  }

  /** Splitting the edge in which a search stopped keeps everything but the compactness of the
      new node `a`. */
  lemma SplitOk<N, V>(g: Graph<N, V>, root: N, m: map<string, V>, key: string, n: N, a: N, i: nat)
    requires WellFormed(g, root) && Represents(g, m) && StopsInEdge(g, root, key, n) && a !in g
    requires i == Lcp(g[n].key, key[g[n].depth..])
    ensures CanSplit(g, root, n, a, i)
    ensures WellLinked(Split(g, n, a, i), root) && Snug(Split(g, n, a, i), root, {a})
    ensures Represents(Split(g, n, a, i), m)
  {
    EdgeShare(g, root, key, n, i);
    SplitLinked(g, root, n, a, i);
    SplitSnug(g, root, {}, n, a, i);
    var q := Up(g, root, n);
    SameLeavesMean(g, Split(g, n, a, i), m);
  }

  /** After the split the search for the key stops at the new node. */
  lemma SplitStops<N, V>(g: Graph<N, V>, root: N, key: string, n: N, a: N, i: nat)
    requires WellLinked(g, root) && StopsInEdge(g, root, key, n) && a !in g
    requires i == Lcp(g[n].key, key[g[n].depth..])
    ensures CanSplit(g, root, n, a, i)
    ensures StopsAtNode(Split(g, n, a, i), key, a) && Split(g, n, a, i)[a].children != map[]
  {
    EdgeShare(g, root, key, n, i);
    var h := Split(g, n, a, i);
    assert h[a].children == map[g[n].key[i..] := n];
    assert h[a].children.Keys == {g[n].key[i..]};
    assert g[n].key[i..] != "";
    assert g[n].key[i..][0] == g[n].key[i];
  }

  /** What the label and the rest of the key share is a non-empty, proper part of the label. */
  lemma EdgeShare<N, V>(g: Graph<N, V>, root: N, key: string, n: N, i: nat)
    requires WellLinked(g, root) && StopsInEdge(g, root, key, n) && i == Lcp(g[n].key, key[g[n].depth..])
    ensures 0 < i < |g[n].key| && g[n].depth + i <= |g[n].path| && g[n].parent.Some? && g[n].parent.value in g
    ensures g[n].depth + i <= |key| && g[n].path[..g[n].depth + i] == key[..g[n].depth + i]
    ensures g[n].depth + i < |key| ==> g[n].key[i] != key[g[n].depth + i]
  {
    var q := Up(g, root, n);
    ShareFrom(g[n].path, key, g[n].depth);
  }

  /** What prepend relies on before it splits the edge. */
  lemma EdgeFacts<N, V>(g: Graph<N, V>, root: N, key: string, n: N, i: nat)
    requires WellLinked(g, root) && StopsInEdge(g, root, key, n) && i == Lcp(g[n].key, key[g[n].depth..])
    ensures 0 < i < |g[n].key| && 0 <= g[n].depth && g[n].depth + i <= |g[n].path| && g[n].depth + i <= |key|
    ensures g[n].parent.Some? && g[n].parent.value in g && g[n].parent.value != n
    ensures g[n].path[..g[n].depth + i] <= key
  {
    EdgeShare(g, root, key, n, i);
    var q := Up(g, root, n);
  }

  lemma ShareFrom(a: string, b: string, d: nat)
    requires d < |a| && d < |b| && a[..d + 1] == b[..d + 1] && !(a <= b)
    ensures 0 < Lcp(a[d..], b[d..]) < |a| - d
    ensures a[..d + Lcp(a[d..], b[d..])] == b[..d + Lcp(a[d..], b[d..])]
    ensures d + Lcp(a[d..], b[d..]) < |b| ==> a[d + Lcp(a[d..], b[d..])] != b[d + Lcp(a[d..], b[d..])]
  {
  }

  // ----- Deletion -----

  lemma MergedOk<N, V>(g: Graph<N, V>, root: N, m: map<string, V>, n: N)
    requires WellLinked(g, root) && Snug(g, root, {n}) && Represents(g, m)
    requires n in g && !g[n].isLeaf && (n != root ==> g[n].children != map[])
    ensures WellFormed(Merged(g, root, n), root) && Represents(Merged(g, root, n), m)
  {
    if n != root {
      if |g[n].children| == 1 {
        var u := OnlyChild(g[n].children);
        var k :| k in g[n].children && u == g[n].children[k] && g[n].children == map[k := u];
        var q := Up(g, root, n);
        var _ := Down(g, root, n, k);
        if !g[u].isLeaf {
          assert CanMerge(g, root, n, u);
          MergeLinked(g, root, n, u);
          MergeSnug(g, root, {n}, n, u);
          SameLeavesMean(g, Merge(g, n, u), m);
        }
      } else {
        assert g[n].children.Keys != {};
      }
    }
  }

  /** A non-root internal node keeps a child when one of its internal children goes. */
  lemma KeepsChild<N, V>(r: Rec<N, V>, k: string)
    requires Compact(r) && k != "" && k in r.children
    ensures r.children - {k} != map[]
  {
    if "" in r.children {
      assert "" in r.children - {k};
    } else {
      RemovedSize(r.children, k);
    }
  }

  /** erase keeps the structure well formed and removes exactly the binding of its leaf. */
  lemma ErasedOk<N, V>(g: Graph<N, V>, root: N, m: map<string, V>, x: N)
    requires WellFormed(g, root) && Represents(g, m) && x in g && g[x].isLeaf
    ensures WellFormed(Erased(g, root, x), root)
    ensures Represents(Erased(g, root, x), m - {g[x].path})
  {
    RootFacts(g, root);
    var p := Up(g, root, x);
    var h, m' := DropLeaf(g, x), m - {g[x].path};
    DropLeafLinked(g, root, x);
    DropLeafSnug(g, root, {}, x);
    DropLeafMeans(g, root, m, x);
    if p == root || |h[p].children| > 1 {
      assert p != root ==> Compact(h[p]);
    } else {
      PrunedOk(g, h, root, m', p);
    }
  }

  lemma PrunedOk<N, V>(g: Graph<N, V>, h: Graph<N, V>, root: N, m: map<string, V>, p: N)
    requires WellLinked(h, root) && Snug(h, root, {p}) && Represents(h, m) && WellFormed(g, root)
    requires p in h && p != root && !h[p].isLeaf && forall y :: y in h && y != p ==> y in g && h[y] == g[y]
    ensures WellFormed(Pruned(h, root, p), root) && Represents(Pruned(h, root, p), m)
  {
    if h[p].children != map[] {
      MergedOk(h, root, m, p);
    } else {
      var q := Up(h, root, p);
      DropInnerLinked(h, root, p);
      DropInnerSnug(h, root, {p}, p);
      SameLeavesMean(h, DropInner(h, p), m);
      assert NodeOk(h, root, p);
      if q != root {
        assert Compact(g[q]);
        KeepsChild(h[q], h[p].key);
      }
      MergedOk(DropInner(h, p), root, m, q);
    }
  }

  /** All there is to know about erase. */
  lemma ErasedFully<N, V>(g: Graph<N, V>, root: N, m: map<string, V>, x: N)
    requires WellFormed(g, root) && Represents(g, m) && x in g && g[x].isLeaf
    ensures WellFormed(Erased(g, root, x), root)
    ensures Represents(Erased(g, root, x), m - {g[x].path})
    ensures g[x].path in m && |m - {g[x].path}| == |m| - 1
  {
    ErasedOk(g, root, m, x);
    assert Bound(m, g[x].path, g[x].value);
    RemovedSize(m, g[x].path);
  }

  // ----- Other entries stay where they are -----

  /** Entries of `g`, but for those of the keys in `but`, keep their leaf in `h`, field by field. */
  ghost predicate KeepsLeaves<N, V>(g: Graph<N, V>, h: Graph<N, V>, but: set<string>)
  {
    forall y :: y in g && g[y].isLeaf && g[y].path !in but ==> y in h && h[y] == g[y]
  }

  lemma MergedKeeps<N, V>(g: Graph<N, V>, root: N, n: N)
    requires WellLinked(g, root) && n in g
    ensures KeepsLeaves(g, Merged(g, root, n), {}) && KeepsLeaves(Merged(g, root, n), g, {})
  {
    if n != root && |g[n].children| == 1 {
      var u := OnlyChild(g[n].children);
      var k :| k in g[n].children && u == g[n].children[k] && g[n].children == map[k := u];
      var q := Up(g, root, n);
      var _ := Down(g, root, n, k);
    }
  }

  lemma PrunedKeeps<N, V>(g: Graph<N, V>, root: N, p: N)
    requires WellLinked(g, root) && p in g && p != root && !g[p].isLeaf
    ensures KeepsLeaves(g, Pruned(g, root, p), {}) && KeepsLeaves(Pruned(g, root, p), g, {})
  {
    if g[p].children != map[] {
      MergedKeeps(g, root, p);
    } else {
      EmptiedFacts(g, root, p);
      MergedKeeps(DropInner(g, p), root, g[p].parent.value);
    }
  }

  lemma DropLeafKeeps<N, V>(g: Graph<N, V>, x: N)
    requires x in g && g[x].isLeaf && g[x].parent.Some? && g[x].parent.value in g && !g[g[x].parent.value].isLeaf
    ensures KeepsLeaves(g, DropLeaf(g, x), {g[x].path}) && KeepsLeaves(DropLeaf(g, x), g, {})
  {
  }

  lemma KeepsOn<N, V>(g: Graph<N, V>, h: Graph<N, V>, e: Graph<N, V>, but: set<string>)
    requires KeepsLeaves(g, h, but) && KeepsLeaves(h, g, {}) && KeepsLeaves(h, e, {}) && KeepsLeaves(e, h, {})
    ensures KeepsLeaves(g, e, but) && KeepsLeaves(e, g, {})
  {
  }

  /** erase moves no leaf and changes none: the other entries, and iterators to them, stay. */
  lemma ErasedKeeps<N, V>(g: Graph<N, V>, root: N, x: N)
    requires WellLinked(g, root) && x in g && g[x].isLeaf
    ensures KeepsLeaves(g, Erased(g, root, x), {g[x].path}) && KeepsLeaves(Erased(g, root, x), g, {})
  {
    LeafFacts(g, root, x);
    DropLeafKeeps(g, x);
    var p, h := g[x].parent.value, DropLeaf(g, x);
    if p != root && |h[p].children| <= 1 {
      PrunedKeeps(h, root, p);
      KeepsOn(g, h, Pruned(h, root, p), {g[x].path});
    }
  }

  // ----- Undo -----

  /** Nothing to merge in a compact node. */
  lemma MergedCompact<N, V>(g: Graph<N, V>, root: N, n: N)
    requires WellLinked(g, root) && n in g && (n != root ==> Compact(g[n]))
    ensures Merged(g, root, n) == g
  {
    if n != root && |g[n].children| == 1 {
      var u := OnlyChild(g[n].children);
      var _ := Down(g, root, n, "");
    }
  }

  /** Erasing the leaf that append has hung restores the structure, but for the merge of `p`. */
  lemma EraseAppended<N, V>(g: Graph<N, V>, root: N, p: N, b: N, x: N, key: string, v: V, extra: Option<(string, V)>)
    requires WellLinked(g, root) && StopsAtNode(g, key, p) && (p != root ==> g[p].children != map[])
    requires x !in g && (|g[p].path| < |key| ==> b !in g && b != x)
    requires WellLinked(Appended(g, p, b, x, key, v, extra), root)
    ensures var h := Appended(g, p, b, x, key, v, extra);
      x in h && h[x].isLeaf && (p != root && |g[p].children| <= 1 ==> Erased(h, root, x) == Merged(g, root, p))
    ensures (p == root || |g[p].children| > 1) ==> Erased(Appended(g, p, b, x, key, v, extra), root, x) == g
  {
    if |g[p].path| == |key| {
      DropLeafUndoes(g, p, x, v);
    } else {
      var k := key[|g[p].path|..];
      var h := AddInner(g, p, b, k, extra);
      DropLeafUndoes(h, b, x, v);
      DropInnerUndoes(g, p, b, k, extra);
    }
  }

  lemma EraseUndoesAppend<N, V>(g: Graph<N, V>, root: N, m: map<string, V>, p: N, b: N, x: N, key: string, v: V, extra: Option<(string, V)>)
    requires WellFormed(g, root) && Represents(g, m) && StopsAtNode(g, key, p) && key !in m
    requires x !in g && (|g[p].path| < |key| ==> b !in g && b != x)
    ensures WellFormed(Appended(g, p, b, x, key, v, extra), root)
    ensures LeafFor(Appended(g, p, b, x, key, v, extra), x, key)
    ensures Erased(Appended(g, p, b, x, key, v, extra), root, x) == g
  {
    HasChild(g, root, p);
    AppendedOk(g, root, m, p, b, x, key, v, extra);
    EraseAppended(g, root, p, b, x, key, v, extra);
    assert p != root ==> Compact(g[p]);
    MergedCompact(g, root, p);
    AppendedLeaf(g, p, b, x, key, v, extra);
  }

  lemma AppendedLeaf<N, V>(g: Graph<N, V>, p: N, b: N, x: N, key: string, v: V, extra: Option<(string, V)>)
    requires p in g && g[p].path <= key && (|g[p].path| < |key| ==> b != x)
    ensures LeafFor(Appended(g, p, b, x, key, v, extra), x, key)
    ensures Appended(g, p, b, x, key, v, extra)[x].value == Some((key, v))
    ensures Appended(g, p, b, x, key, v, extra).Keys == g.Keys + if |g[p].path| == |key| then {x} else {b, x}
  {
  }

  lemma HasChild<N, V>(g: Graph<N, V>, root: N, p: N)
    requires WellFormed(g, root) && p in g && !g[p].isLeaf
    ensures p == root || g[p].children != map[]
  {
    assert p != root ==> Compact(g[p]);
  }

  /** All there is to know about prepend. */
  lemma PrependedFully<N, V>(g: Graph<N, V>, root: N, m: map<string, V>, n: N, a: N, b: N, x: N, i: nat, key: string, v: V)
    requires WellFormed(g, root) && Represents(g, m) && StopsInEdge(g, root, key, n) && key !in m
    requires CanPrepend(g, root, n, a, b, x, i, key)
    ensures WellFormed(Prepended(g, n, a, b, x, i, key, v), root)
    ensures LeafFor(Prepended(g, n, a, b, x, i, key, v), x, key)
    ensures Represents(Prepended(g, n, a, b, x, i, key, v), m[key := v])
    ensures Prepended(g, n, a, b, x, i, key, v)[x].value == Some((key, v))
    ensures Prepended(g, n, a, b, x, i, key, v).Keys ==
      g.Keys + if g[n].depth + i == |key| then {a, x} else {a, b, x}
    ensures Erased(Prepended(g, n, a, b, x, i, key, v), root, x) == g
  {
    SplitOk(g, root, m, key, n, a, i);
    SplitStops(g, root, key, n, a, i);
    var h := Split(g, n, a, i);
    AppendedOk(h, root, m, a, b, x, key, v, None);
    AppendedLeaf(h, a, b, x, key, v, None);
    assert h.Keys == g.Keys + {a};
    EraseUndoesPrepend(g, root, n, a, b, x, i, key, v);
  }

  lemma EraseUndoesPrepend<N, V>(g: Graph<N, V>, root: N, n: N, a: N, b: N, x: N, i: nat, key: string, v: V)
    requires WellLinked(g, root) && CanSplit(g, root, n, a, i) && WellLinked(Split(g, n, a, i), root)
    requires StopsAtNode(Split(g, n, a, i), key, a) && a != root
    requires x !in g && a != x && (g[n].depth + i < |key| ==> b !in g && b != x && a != b)
    requires WellLinked(Prepended(g, n, a, b, x, i, key, v), root)
    requires LeafFor(Prepended(g, n, a, b, x, i, key, v), x, key)
    ensures Erased(Prepended(g, n, a, b, x, i, key, v), root, x) == g
  {
    SplitMerged(g, root, n, a, i);
    EraseAppended(Split(g, n, a, i), root, a, b, x, key, v, None);
    MergeUndoesSplit(g, root, n, a, i);
  }

  lemma SplitMerged<N, V>(g: Graph<N, V>, root: N, n: N, a: N, i: nat)
    requires WellLinked(g, root) && CanSplit(g, root, n, a, i) && WellLinked(Split(g, n, a, i), root)
    ensures |Split(g, n, a, i)[a].children| == 1
    ensures Merged(Split(g, n, a, i), root, a) == Merge(Split(g, n, a, i), a, n)
  {
  }

  /** All there is to know about append. */
  lemma AppendedFully<N, V>(g: Graph<N, V>, root: N, m: map<string, V>, p: N, b: N, x: N, key: string, v: V, extra: Option<(string, V)>)
    requires WellFormed(g, root) && Represents(g, m) && StopsAtNode(g, key, p) && key !in m
    requires x !in g && (|g[p].path| < |key| ==> b !in g && b != x)
    ensures WellFormed(Appended(g, p, b, x, key, v, extra), root)
    ensures Represents(Appended(g, p, b, x, key, v, extra), m[key := v])
    ensures LeafFor(Appended(g, p, b, x, key, v, extra), x, key)
    ensures Appended(g, p, b, x, key, v, extra)[x].value == Some((key, v))
    ensures Erased(Appended(g, p, b, x, key, v, extra), root, x) == g
    ensures Appended(g, p, b, x, key, v, extra).Keys == g.Keys + if |g[p].path| == |key| then {x} else {b, x}
  {
    HasChild(g, root, p);
    AppendedOk(g, root, m, p, b, x, key, v, extra);
    EraseUndoesAppend(g, root, m, p, b, x, key, v, extra);
    AppendedLeaf(g, p, b, x, key, v, extra);
  }

  // ----- A value is overwritten -----

  lemma AssignedOk<N, V>(g: Graph<N, V>, root: N, m: map<string, V>, x: N, v: V)
    requires WellFormed(g, root) && Represents(g, m) && x in g && g[x].isLeaf
    ensures WellFormed(g[x := g[x].(value := Some((g[x].path, v)))], root)
    ensures Represents(g[x := g[x].(value := Some((g[x].path, v)))], m[g[x].path := v])
    ensures g[x].path in m && g[x].value == Some((g[x].path, m[g[x].path])) && |m[g[x].path := v]| == |m|
  {
    var h, k := g[x := g[x].(value := Some((g[x].path, v)))], g[x].path;
    var m' := m[k := v];
    assert Bound(m, k, g[x].value);
    assert m'.Keys == m.Keys;
    forall n | n in h ensures NodeOk(h, root, n) {
      assert NodeOk(g, root, n);
    }
    forall n | n in h && n != root && !h[n].isLeaf ensures Compact(h[n]) {
      assert Compact(g[n]);
    }
    forall n | n in h && h[n].isLeaf ensures Bound(m', h[n].path, h[n].value) {
      assert Bound(m, g[n].path, g[n].value);
      if g[n].path == k { Unique(g, root, n, x); }
    }
    forall j | j in m' ensures Stored(h, j) {
      assert Stored(g, j);
      var n :| n in g && LeafFor(g, n, j);
      assert LeafFor(h, n, j);
    }
  }

  lemma Overwrite<V>(m: map<string, V>, k: string, d: V, x: V)
    ensures m[k := d][k := x] == m[k := x]
  {
  }

  // ----- Facts for the steps of erase -----

  lemma OneLeaf<N, V>(g: Graph<N, V>, root: N, x: N, key: string)
    requires WellLinked(g, root) && LeafFor(g, x, key)
    ensures forall y :: y in g && LeafFor(g, y, key) ==> y == x
  {
    forall y | y in g && LeafFor(g, y, key) ensures y == x {
      Unique(g, root, y, x);
    }
  }

  /** What the merge step finds in a node with one child, under label `k`. */
  lemma MergeFacts<N, V>(g: Graph<N, V>, root: N, n: N, k: string)
    requires WellLinked(g, root) && n in g && n != root && |g[n].children| == 1 && k in g[n].children
    ensures g[n].children[k] in g && OnlyChild(g[n].children) == g[n].children[k]
    ensures if g[g[n].children[k]].isLeaf then Merged(g, root, n) == g
            else CanMerge(g, root, n, g[n].children[k]) && g[n].parent.value != g[n].children[k] &&
                 Merged(g, root, n) == Merge(g, n, g[n].children[k])
  {
    var u := OnlyChild(g[n].children);
    var j :| j in g[n].children && u == g[n].children[j] && g[n].children == map[j := u];
    var c := Down(g, root, n, k);
    var q := Up(g, root, n);
  }

  /** What erase finds at the leaf it removes. */
  lemma LeafFacts<N, V>(g: Graph<N, V>, root: N, x: N)
    requires WellLinked(g, root) && x in g && g[x].isLeaf
    ensures g[x].parent.Some? && g[x].parent.value in g && g[x].parent.value != x && g[x].children == map[]
    ensures !g[g[x].parent.value].isLeaf && WellLinked(DropLeaf(g, x), root) && x != root
    ensures g[x].key == "" && DropLeaf(g, x) == DropInner(g, x)
  {
    RootFacts(g, root);
    assert NodeOk(g, root, x);
    var p := Up(g, root, x);
    DropLeafLinked(g, root, x);
  }

  /** Nodes that leave in two steps. */
  lemma GoneTogether<N>(before: set<N>, between: set<N>, after: set<N>, first: seq<N>, rest: seq<N>)
    requires after <= between <= before && NoRepeats(first) && NoRepeats(rest)
    requires Elements(first) == before - between && Elements(rest) == between - after
    ensures NoRepeats(first + rest) && Elements(first + rest) == before - after
  {
    NoRepeatsJoin(first, rest);
  }

  /** What erase finds at a parent left without children. */
  lemma EmptiedFacts<N, V>(g: Graph<N, V>, root: N, p: N)
    requires WellLinked(g, root) && p in g && p != root && !g[p].isLeaf && g[p].children == map[]
    ensures g[p].parent.Some? && g[p].parent.value in g && g[p].parent.value != p
    ensures !g[g[p].parent.value].isLeaf && WellLinked(DropInner(g, p), root)
  {
    var q := Up(g, root, p);
    DropInnerLinked(g, root, p);
  }

  // ----- The empty tree -----

  ghost function Bare<N, V>(root: N): Graph<N, V>
  {
    map[root := Rec("", "", 0, false, None, map[], None)]
  }

  lemma BareOk<N, V>(root: N)
    ensures WellFormed(Bare<N, V>(root), root) && Represents(Bare<N, V>(root), map[])
  {
  }
}
