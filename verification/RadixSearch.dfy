// What a search finds. Where find_node stops decides, for every key, which stored keys
// equal it, are prefixes of it, extend it, or agree with it the longest; and the label order
// of the child maps makes walks through the tree visit keys in string order.

module RadixSearch {
  import opened Sequences
  import opened Strings
  import opened RadixGraph
  import opened RadixEdits

  lemma RootFacts<N, V>(g: Graph<N, V>, root: N)
    requires WellLinked(g, root)
    ensures RootOk(g[root]) && !g[root].isLeaf && g[root].path == ""
  {
    assert NodeOk(g, root, root);
  }

  lemma LabelEnds<N, V>(g: Graph<N, V>, root: N, n: N)
    requires WellLinked(g, root) && n in g
    ensures g[n].depth >= 0 && g[n].depth + |g[n].key| == |g[n].path|
  {
    RootFacts(g, root);
    if n != root { var _ := Up(g, root, n); }
  }

  // ----- Where find_node stops -----

  /** All of `key` matched: its leaf. */
  ghost predicate StopsAtLeaf<N, V>(g: Graph<N, V>, key: string, r: N)
  {
    LeafFor(g, r, key)
  }

  /** The path of `r` is a prefix of `key`, and nothing below `r` continues it. */
  ghost predicate StopsAtNode<N, V>(g: Graph<N, V>, key: string, r: N)
  {
    r in g && !g[r].isLeaf && g[r].path <= key &&
    if |g[r].path| == |key| then "" !in g[r].children else NoBranch(g[r], key[|g[r].path|])
  }

  /** `key` and the label of `r` share a non-empty, proper part of the label. */
  ghost predicate StopsInEdge<N, V>(g: Graph<N, V>, root: N, key: string, r: N)
  {
    r in g && r != root && !g[r].isLeaf && 0 <= g[r].depth < |key| && g[r].depth < |g[r].path| &&
    key[..g[r].depth + 1] == g[r].path[..g[r].depth + 1] && !(g[r].path <= key)
  }

  ghost predicate Stops<N, V>(g: Graph<N, V>, root: N, key: string, r: N)
  {
    StopsAtLeaf(g, key, r) || StopsAtNode(g, key, r) || StopsInEdge(g, root, key, r)
  }

  /** Nothing below a full stop agrees with `key` any further. */
  lemma NothingBeyond<N, V>(g: Graph<N, V>, root: N, key: string, r: N, x: N)
    requires WellLinked(g, root) && StopsAtNode(g, key, r)
    requires x in g && x != r && g[r].path <= g[x].path
    ensures |g[r].path| == |key| ==> |g[x].path| > |key|
    ensures |g[r].path| < |key| && |g[r].path| < |g[x].path| ==> key[|g[r].path|] != g[x].path[|g[r].path|]
  {
    var c := Step(g, root, r, x);
    var _ := Up(g, root, c);
    var _ := Down(g, root, r, g[c].key);
    if !g[c].isLeaf {
      assert g[c].key[0] == g[c].path[|g[r].path|];
    }
  }

  /** There is only one place where the search for a key can stop. */
  lemma StopUnique<N, V>(g: Graph<N, V>, root: N, key: string, r: N, s: N)
    requires WellLinked(g, root) && Stops(g, root, key, r) && Stops(g, root, key, s)
    ensures r == s
  {
    if g[r].isLeaf && g[s].isLeaf {
      Unique(g, root, r, s);
    } else if g[s].isLeaf {
      LeafStop(g, root, key, s, r);
    } else if g[r].isLeaf {
      LeafStop(g, root, key, r, s);
    } else if StopsAtNode(g, key, r) && StopsAtNode(g, key, s) {
      if |g[r].path| <= |g[s].path| { NodeStops(g, root, key, r, s); } else { NodeStops(g, root, key, s, r); }
    } else if StopsInEdge(g, root, key, r) && StopsInEdge(g, root, key, s) {
      if g[r].depth <= g[s].depth { EdgeStops(g, root, key, r, s); } else { EdgeStops(g, root, key, s, r); }
    } else if StopsAtNode(g, key, r) {
      MixedStops(g, root, key, r, s);
    } else {
      MixedStops(g, root, key, s, r);
    }
  }

  lemma LeafStop<N, V>(g: Graph<N, V>, root: N, key: string, x: N, r: N)
    requires WellLinked(g, root) && StopsAtLeaf(g, key, x) && Stops(g, root, key, r)
    ensures g[r].isLeaf
  {
    if StopsAtNode(g, key, r) {
      NothingBeyond(g, root, key, r, x);
    } else if StopsInEdge(g, root, key, r) {
      Funnel(g, root, r, x);
    }
  }

  lemma NodeStops<N, V>(g: Graph<N, V>, root: N, key: string, r: N, s: N)
    requires WellLinked(g, root) && StopsAtNode(g, key, r) && StopsAtNode(g, key, s) && |g[r].path| <= |g[s].path|
    ensures r == s
  {
    if r != s {
      NothingBeyond(g, root, key, r, s);
      if |g[r].path| == |g[s].path| { Unique(g, root, r, s); }
    }
  }

  lemma EdgeStops<N, V>(g: Graph<N, V>, root: N, key: string, r: N, s: N)
    requires WellLinked(g, root) && StopsInEdge(g, root, key, r) && StopsInEdge(g, root, key, s)
    requires g[r].depth <= g[s].depth
    ensures r == s
  {
    var d, e := g[r].depth + 1, g[s].depth + 1;
    assert g[s].path[..d] == g[s].path[..e][..d] == key[..e][..d] == g[r].path[..d];
    Funnel(g, root, r, s);
    AgreeUpTo(g[s].path, key, e);
    if |g[r].path| > e {
      assert g[r].path[..e] == g[s].path[..e];
      Funnel(g, root, s, r);
      Unique(g, root, r, s);
    }
  }

  lemma MixedStops<N, V>(g: Graph<N, V>, root: N, key: string, r: N, s: N)
    requires WellLinked(g, root) && StopsAtNode(g, key, r)
    ensures !StopsInEdge(g, root, key, s)
  {
    if StopsInEdge(g, root, key, s) {
      var e, l := g[s].depth + 1, |g[r].path|;
      AgreeUpTo(key, g[s].path, e);
      if l < e {
        NothingBeyond(g, root, key, r, s);
      } else {
        assert g[r].path[..e] == key[..e];
        Funnel(g, root, s, r);
      }
    }
  }

  /** How insert tells a full stop from a partial one. */
  lemma StopCases<N, V>(g: Graph<N, V>, root: N, key: string, r: N)
    requires WellLinked(g, root) && Stops(g, root, key, r) && !g[r].isLeaf
    ensures 0 <= g[r].depth <= |key|
    ensures if r == root || Substr(key, g[r].depth, |g[r].key|) == g[r].key
            then StopsAtNode(g, key, r) else StopsInEdge(g, root, key, r)
  {
    RootFacts(g, root);
    if r != root {
      var q := Up(g, root, r);
      assert g[r].path == g[q].path + g[r].key;
      if StopsInEdge(g, root, key, r) {
        assert g[q].path == g[r].path[..g[r].depth + 1][..g[r].depth] == key[..g[r].depth];
        assert key[..g[r].depth] + key[g[r].depth..] == key;
      } else {
        assert key[g[r].depth..][..|g[r].key|] == g[r].key;
      }
    }
  }

  /** The stop is a leaf exactly when the key is stored. */
  lemma StopDecides<N, V>(g: Graph<N, V>, root: N, m: map<string, V>, key: string, r: N)
    requires WellLinked(g, root) && Represents(g, m) && Stops(g, root, key, r)
    ensures g[r].isLeaf <==> key in m
    ensures key in m ==> g[r].value == Some((key, m[key]))
  {
    if g[r].isLeaf {
      assert Bound(m, g[r].path, g[r].value);
    } else if key in m {
      var x, p := LeafOf(g, root, m, key);
      if StopsAtNode(g, key, r) {
        NothingBeyond(g, root, key, r, x);
      } else {
        Funnel(g, root, r, x);
      }
      assert false;
    }
  }

  /** Stored prefixes of `key` all end at or above a full stop, and strictly above a partial one. */
  lemma PrefixesAbove<N, V>(g: Graph<N, V>, root: N, m: map<string, V>, key: string, r: N, k: string)
    requires WellLinked(g, root) && Represents(g, m) && Stops(g, root, key, r) && !g[r].isLeaf
    requires k in m && k <= key
    ensures StopsAtNode(g, key, r) ==> |k| <= |g[r].path|
    ensures StopsInEdge(g, root, key, r) ==> |k| <= g[r].depth
  {
    var x, p := LeafOf(g, root, m, k);
    if StopsAtNode(g, key, r) && |k| > |g[r].path| {
      NothingBeyond(g, root, key, r, x);
    }
    if StopsInEdge(g, root, key, r) && |k| > g[r].depth {
      assert k[..g[r].depth + 1] == key[..g[r].depth + 1];
      Funnel(g, root, r, x);
    }
  }

  /** Climbing: if the longest stored prefix of `key` is shorter than the path of `n`, a prefix
      of `key` too, then it ends at the parent of `n` or above. */
  lemma PrefixesAboveParent<N, V>(g: Graph<N, V>, root: N, m: map<string, V>, key: string, n: N, k: string)
    requires WellLinked(g, root) && Represents(g, m) && n in g && n != root && !g[n].isLeaf
    requires g[n].path <= key && k in m && k <= key && |k| < |g[n].path|
    ensures |k| <= g[n].depth
  {
    var x, p := LeafOf(g, root, m, k);
    var q := Up(g, root, n);
    if |k| > g[n].depth {
      assert k[..g[n].depth + 1] == key[..g[n].depth + 1] == g[n].path[..g[n].depth + 1];
      Funnel(g, root, n, x);
    }
  }

  /** The node prefix_match and greedy_match list the leaves of. */
  ghost function Base<N, V>(g: Graph<N, V>, r: N): N
    requires r in g
  {
    if g[r].isLeaf && g[r].parent.Some? then g[r].parent.value else r
  }

  /** When the rest of `key` is a prefix of the label, the stored extensions of `key` are the
      keys below; otherwise there are none. */
  lemma ExtensionsBelow<N, V>(g: Graph<N, V>, root: N, key: string, r: N, x: N)
    requires WellLinked(g, root) && Stops(g, root, key, r) && x in g && g[x].isLeaf
    ensures Base(g, r) in g && !g[Base(g, r)].isLeaf
    ensures key <= g[x].path <==> key <= g[Base(g, r)].path && g[Base(g, r)].path <= g[x].path
  {
    assert NodeOk(g, root, root);
    var b := Base(g, r);
    if g[r].isLeaf {
      var _ := Up(g, root, r);
    } else if key <= g[x].path {
      if StopsAtNode(g, key, r) {
        NothingBeyond(g, root, key, r, x);
      } else {
        assert g[x].path[..g[r].depth + 1] == key[..g[r].depth + 1];
        Funnel(g, root, r, x);
      }
    }
  }

  /** Below the base node everything agrees with `key` equally long; everything else agrees
      with it for strictly less. */
  lemma AgreementBelow<N, V>(g: Graph<N, V>, root: N, key: string, r: N, x: N)
    requires WellLinked(g, root) && Stops(g, root, key, r) && x in g && g[x].isLeaf
    ensures Base(g, r) in g && !g[Base(g, r)].isLeaf
    ensures g[Base(g, r)].path <= g[x].path ==> Lcp(g[x].path, key) == Lcp(g[Base(g, r)].path, key)
    ensures !(g[Base(g, r)].path <= g[x].path) ==> Lcp(g[x].path, key) < Lcp(g[Base(g, r)].path, key)
  {
    RootFacts(g, root);
    var b := Base(g, r);
    if g[r].isLeaf {
      var _ := Up(g, root, r);
    }
    if StopsInEdge(g, root, key, r) {
      AgreementInEdge(g, root, key, r, x);
    } else if g[b].path <= g[x].path {
      if StopsAtNode(g, key, r) { NothingBeyond(g, root, key, r, x); }
      LcpPrefix(g[b].path, key);
      assert g[x].path[..|g[b].path|] == g[b].path == key[..|g[b].path|];
      LcpUnique(g[x].path, key, |g[b].path|);
    } else {
      LcpLeaves(g[x].path, g[b].path, key);
      LcpPrefix(g[b].path, key);
    }
  }

  lemma AgreementInEdge<N, V>(g: Graph<N, V>, root: N, key: string, r: N, x: N)
    requires WellLinked(g, root) && StopsInEdge(g, root, key, r) && x in g
    ensures g[r].path <= g[x].path ==> Lcp(g[x].path, key) == Lcp(g[r].path, key)
    ensures !(g[r].path <= g[x].path) ==> Lcp(g[x].path, key) < Lcp(g[r].path, key)
  {
    var i, j, d := Lcp(g[r].path, key), Lcp(g[x].path, key), g[r].depth + 1;
    LcpAtLeast(g[r].path, key, d);
    LcpPrefix(g[r].path, key);
    if g[r].path <= g[x].path {
      assert g[x].path[..i] == g[r].path[..i];
      LcpUnique(g[x].path, key, i);
    } else if i <= j {
      assert g[x].path[..d] == g[x].path[..j][..d] == key[..j][..d];
      Funnel(g, root, r, x);
    }
  }

  // ----- Order -----

  /** The leaves at or below `n`. */
  ghost function Below<N, V>(g: Graph<N, V>, n: N): set<N>
    requires n in g
  {
    set x | x in g && g[x].isLeaf && g[n].path <= g[x].path && (g[n].isLeaf ==> x == n)
  }

  /** The leaves that come after all of `Below(g, n)`. */
  ghost function After<N, V>(g: Graph<N, V>, n: N): set<N>
    requires n in g
  {
    set x | x in g && g[x].isLeaf && Less(g[n].path, g[x].path) && x !in Below(g, n)
  }

  ghost predicate IsLeast<N, V>(g: Graph<N, V>, r: N, s: set<N>)
  {
    r in s && r in g && forall x :: x in s && x in g && x != r ==> Less(g[r].path, g[x].path)
  }

  /** Strings below two different labels of one node are ordered as the labels are. */
  lemma LabelsOrder(p: string, j: string, k: string, a: string, b: string)
    requires Less(j, k) && p + j <= a && p + k <= b
    requires j == "" ==> a == p
    requires j != "" && k != "" ==> j[0] != k[0]
    ensures Less(a, b)
  {
    if j == "" {
      PrefixLess(a, b);
    } else {
      assert a[|p|] == (p + j)[|p|] == j[0];
      assert b[|p|] == (p + k)[|p|] == k[0];
      assert a[..|p|] == (p + j)[..|p|] == p == (p + k)[..|p|] == b[..|p|];
      DivergeLess(a, b, |p|);
    }
  }

  lemma SiblingsOrdered<N, V>(g: Graph<N, V>, root: N, n: N, j: string, k: string, x: N, y: N)
    requires WellLinked(g, root) && n in g && j in g[n].children && k in g[n].children && Less(j, k)
    requires g[n].children[j] in g && g[n].children[k] in g && x in g && y in g
    requires g[g[n].children[j]].path <= g[x].path && (j == "" ==> x == g[n].children[j])
    requires g[g[n].children[k]].path <= g[y].path
    ensures Less(g[x].path, g[y].path)
  {
    var _ := Down(g, root, n, j);
    var _ := Down(g, root, n, k);
    assert NodeOk(g, root, n);
    LessIrreflexive(j);
    LabelsOrder(g[n].path, j, k, g[x].path, g[y].path);
  }

  /** The leaves below an internal node are those below its children. */
  lemma BelowChildren<N, V>(g: Graph<N, V>, root: N, n: N, x: N)
    requires WellLinked(g, root) && n in g && !g[n].isLeaf
    ensures x in Below(g, n) <==>
      exists k :: k in g[n].children && g[n].children[k] in g && x in Below(g, g[n].children[k])
  {
    if x in Below(g, n) {
      var c := Step(g, root, n, x);
      var _ := Up(g, root, c);
      assert g[n].children[g[c].key] == c;
      assert x in Below(g, g[n].children[g[c].key]);
    }
    if k :| k in g[n].children && g[n].children[k] in g && x in Below(g, g[n].children[k]) {
      var _ := Down(g, root, n, k);
    }
  }

  /** Descending along first labels reaches the least leaf. */
  lemma LeastBelow<N, V>(g: Graph<N, V>, root: N, n: N, k: string, r: N)
    requires WellLinked(g, root) && n in g && k in g[n].children && g[n].children[k] in g
    requires forall j :: j in g[n].children && j != k ==> Less(k, j)
    requires IsLeast(g, r, Below(g, g[n].children[k]))
    ensures IsLeast(g, r, Below(g, n))
  {
    var _ := Down(g, root, n, k);
    BelowChildren(g, root, n, r);
    forall x | x in Below(g, n) && x != r ensures Less(g[r].path, g[x].path) {
      BelowChildren(g, root, n, x);
      var j :| j in g[n].children && g[n].children[j] in g && x in Below(g, g[n].children[j]);
      if j != k { SiblingsOrdered(g, root, n, k, j, r, x); }
    }
  }

  lemma NothingAfterRoot<N, V>(g: Graph<N, V>, root: N)
    requires WellLinked(g, root)
    ensures After(g, root) == {} && forall x :: x in g && g[x].isLeaf ==> x in Below(g, root)
  {
    assert NodeOk(g, root, root);
  }

  /** What comes after a node comes after its parent too. */
  lemma AfterParent<N, V>(g: Graph<N, V>, root: N, n: N, p: N, x: N)
    requires WellLinked(g, root) && n in g && n != root && g[n].parent == Some(p) && p in g && x in After(g, p)
    ensures x in After(g, n) && forall y :: y in g && g[p].path <= g[y].path ==> Less(g[y].path, g[x].path)
  {
    var _ := Up(g, root, n);
    var d := Lcp(g[p].path, g[x].path);
    LcpPrefix(g[p].path, g[x].path);
    forall y | y in g && g[p].path <= g[y].path ensures Less(g[y].path, g[x].path) {
      assert g[y].path[..d] == g[p].path[..d];
      DivergeLess(g[y].path, g[x].path, d);
    }
  }

  /** The leaves after `n`: those below later siblings, and those after its parent. */
  lemma AfterSiblings<N, V>(g: Graph<N, V>, root: N, n: N, p: N, x: N)
    requires WellLinked(g, root) && n in g && n != root && g[n].parent == Some(p) && p in g
    ensures x in After(g, n) <==>
      (x in After(g, p) ||
       exists k :: k in g[p].children && Less(g[n].key, k) && g[p].children[k] in g && x in Below(g, g[p].children[k]))
  {
    var _ := Up(g, root, n);
    if x in After(g, p) {
      AfterParent(g, root, n, p, x);
    }
    if k :| k in g[p].children && Less(g[n].key, k) && g[p].children[k] in g && x in Below(g, g[p].children[k]) {
      LaterSibling(g, root, n, p, k, x);
    }
    if x in After(g, n) {
      if g[p].path <= g[x].path {
        BelowChildren(g, root, p, x);
        var k :| k in g[p].children && g[p].children[k] in g && x in Below(g, g[p].children[k]);
        var _ := Down(g, root, p, k);
        LessTotal(g[n].key, k);
        if Less(k, g[n].key) {
          SiblingsOrdered(g, root, p, k, g[n].key, x, n);
          LessAsymmetric(g[n].path, g[x].path);
          assert false;
        }
      } else {
        if |g[p].path| < |g[n].path| {
          PrefixLess(g[p].path, g[n].path);
          LessTransitive(g[p].path, g[n].path, g[x].path);
        } else {
          assert g[p].path == g[n].path;
        }
      }
    }
  }

  lemma LaterSibling<N, V>(g: Graph<N, V>, root: N, n: N, p: N, k: string, x: N)
    requires WellLinked(g, root) && n in g && n != root && g[n].parent == Some(p) && p in g
    requires k in g[p].children && Less(g[n].key, k) && g[p].children[k] in g && x in Below(g, g[p].children[k])
    ensures x in After(g, n)
  {
    var _ := Up(g, root, n);
    var c := Down(g, root, p, k);
    var _ := Down(g, root, p, g[n].key);
    SiblingsOrdered(g, root, p, g[n].key, k, n, x);
    assert NodeOk(g, root, p);
    LessIrreflexive(k);
    assert g[x].path[|g[p].path|] == g[c].path[|g[p].path|] == k[0];
    assert !g[n].isLeaf ==> g[n].path[|g[p].path|] == g[n].key[0];
  }

  /** The least leaf below the next sibling is the successor. */
  lemma Successor<N, V>(g: Graph<N, V>, root: N, n: N, p: N, k: string, r: N)
    requires WellLinked(g, root) && n in g && n != root && g[n].parent == Some(p) && p in g
    requires k in g[p].children && Less(g[n].key, k) && g[p].children[k] in g
    requires forall j :: j in g[p].children && j != k && Less(g[n].key, j) ==> Less(k, j)
    requires IsLeast(g, r, Below(g, g[p].children[k]))
    ensures IsLeast(g, r, After(g, n))
  {
    AfterSiblings(g, root, n, p, r);
    var c := Down(g, root, p, k);
    forall x | x in After(g, n) && x != r ensures Less(g[r].path, g[x].path) {
      AfterSiblings(g, root, n, p, x);
      if x in After(g, p) {
        AfterParent(g, root, n, p, x);
      } else {
        var j :| j in g[p].children && Less(g[n].key, j) && g[p].children[j] in g && x in Below(g, g[p].children[j]);
        if j != k { SiblingsOrdered(g, root, p, k, j, r, x); }
      }
    }
  }

  /** After the last sibling, the search continues after the parent. */
  lemma LastSibling<N, V>(g: Graph<N, V>, root: N, n: N, p: N)
    requires WellLinked(g, root) && n in g && n != root && g[n].parent == Some(p) && p in g
    requires forall j :: j in g[p].children && j != g[n].key ==> Less(j, g[n].key)
    ensures After(g, n) == After(g, p)
  {
    forall x ensures x in After(g, n) <==> x in After(g, p) {
      AfterSiblings(g, root, n, p, x);
      if j :| j in g[p].children && Less(g[n].key, j) {
        if j == g[n].key { LessIrreflexive(j); } else { LessAsymmetric(j, g[n].key); }
      }
    }
  }

  // ----- Steps of find_node -----

  /** A label that matches the key leads on. */
  lemma MatchedLabel<N, V>(g: Graph<N, V>, root: N, key: string, n: N, k: string)
    requires WellLinked(g, root) && n in g && g[n].path <= key && k in g[n].children && k != ""
    requires Substr(key, |g[n].path|, |k|) == k
    ensures g[n].children[k] in g && !g[g[n].children[k]].isLeaf
    ensures g[g[n].children[k]].path <= key && |g[g[n].children[k]].path| == |g[n].path| + |k|
  {
    var c := Down(g, root, n, k);
    assert key[..|g[n].path|] == g[n].path;
  }

  /** A label of which only a part matches is where the search stops. */
  lemma PartedLabel<N, V>(g: Graph<N, V>, root: N, key: string, n: N, k: string)
    requires WellLinked(g, root) && n in g && g[n].path <= key && |g[n].path| < |key| && k in g[n].children && k != ""
    requires key[|g[n].path|] == k[0] && Substr(key, |g[n].path|, |k|) != k
    ensures StopsInEdge(g, root, key, g[n].children[k])
  {
    var c := Down(g, root, n, k);
    var d := |g[n].path|;
    assert key[..d + 1] == g[n].path + [k[0]] == g[c].path[..d + 1];
    assert g[c].path[d..] == k;
  }

  /** The loop of find_node moves on past label `k`. */
  ghost predicate Passed<N, V>(g: Graph<N, V>, n: N, key: string, k: string)
  {
    n in g && k in g[n].children && g[n].children[k] in g &&
    if |key| <= |g[n].path| then !g[g[n].children[k]].isLeaf
    else g[g[n].children[k]].isLeaf || (k != "" && k[0] != key[|g[n].path|])
  }

  /** No label matches. */
  lemma NoLabel<N, V>(g: Graph<N, V>, root: N, key: string, n: N)
    requires WellLinked(g, root) && n in g && !g[n].isLeaf && g[n].path <= key
    requires forall k :: k in g[n].children ==> Passed(g, n, key, k)
    ensures StopsAtNode(g, key, n)
  {
    forall k | k in g[n].children ensures g[g[n].children[k]].isLeaf <==> k == "" {
      var _ := Down(g, root, n, k);
    }
  }

  // ----- Listing leaves in order -----

  /** `s` lists the leaves in `leaves`, each once, in key order. */
  ghost predicate ListOf<N, V>(g: Graph<N, V>, s: seq<N>, leaves: set<N>)
  {
    Elements(s) == leaves && leaves <= g.Keys &&
    forall i, j :: 0 <= i < j < |s| ==> s[i] in g && s[j] in g && Less(g[s[i]].path, g[s[j]].path)
  }

  ghost function BelowLabels<N, V>(g: Graph<N, V>, n: N, labels: seq<string>): set<N>
    requires n in g
  {
    set x | x in g && exists k :: k in labels && k in g[n].children && g[n].children[k] in g && x in Below(g, g[n].children[k])
  }

  lemma ListMore<N, V>(g: Graph<N, V>, root: N, n: N, labels: seq<string>, i: nat, s: seq<N>, t: seq<N>)
    requires WellLinked(g, root) && n in g && i < |labels| && Ascending(labels) && Elements(labels) <= g[n].children.Keys
    requires ListOf(g, s, BelowLabels(g, n, labels[..i]))
    requires labels[i] in g[n].children && g[n].children[labels[i]] in g && ListOf(g, t, Below(g, g[n].children[labels[i]]))
    ensures ListOf(g, s + t, BelowLabels(g, n, labels[..i + 1]))
  {
    assert labels[..i + 1] == labels[..i] + [labels[i]];
    assert Elements(s + t) == Elements(s) + Elements(t);
    assert BelowLabels(g, n, labels[..i + 1]) == BelowLabels(g, n, labels[..i]) + Below(g, g[n].children[labels[i]]);
    forall x, y | x in Elements(s) && y in Elements(t) ensures Less(g[x].path, g[y].path) {
      var k :| k in labels[..i] && k in g[n].children && g[n].children[k] in g && x in Below(g, g[n].children[k]);
      var _ := Down(g, root, n, k);
      SiblingsOrdered(g, root, n, k, labels[i], x, y);
    }
    forall a, b | 0 <= a < b < |s + t|
      ensures (s + t)[a] in g && (s + t)[b] in g && Less(g[(s + t)[a]].path, g[(s + t)[b]].path)
    {
      if a < |s| && |s| <= b { assert s[a] in Elements(s) && t[b - |s|] in Elements(t); }
    }
  }

  lemma AllLabels<N, V>(g: Graph<N, V>, root: N, n: N, labels: seq<string>)
    requires WellLinked(g, root) && n in g && !g[n].isLeaf && Elements(labels) == g[n].children.Keys
    ensures BelowLabels(g, n, labels) == Below(g, n)
  {
    forall x ensures x in BelowLabels(g, n, labels) <==> x in Below(g, n) {
      BelowChildren(g, root, n, x);
      if k :| k in g[n].children && g[n].children[k] in g && x in Below(g, g[n].children[k]) {
        assert k in Elements(labels);
      }
    }
  }

  /** One more leaf at the end of the list: the first of those that come after it. */
  lemma ListNext<N, V>(g: Graph<N, V>, root: N, s: seq<N>, done: set<N>, r: N)
    requires WellLinked(g, root) && ListOf(g, s, done) && r in g && g[r].isLeaf && r !in done
    requires forall x :: x in done ==> x in g && Less(g[x].path, g[r].path)
    ensures ListOf(g, s + [r], done + {r})
  {
  }

  /** The keys that a list of leaves shows. */
  ghost function PathList<N, V>(g: Graph<N, V>, s: seq<N>): (ks: seq<string>)
    requires Elements(s) <= g.Keys
    ensures |ks| == |s|
  {
    seq(|s|, i requires 0 <= i < |s| => (assert s[i] in Elements(s); g[s[i]].path))
  }

  /** A list of the leaves whose keys are `keys`, in terms of the bindings. */
  lemma ListShows<N, V>(g: Graph<N, V>, root: N, m: map<string, V>, s: seq<N>, leaves: set<N>, keys: set<string>)
    requires WellLinked(g, root) && Represents(g, m) && ListOf(g, s, leaves) && keys <= m.Keys
    requires forall x :: x in leaves <==> x in g && g[x].isLeaf && g[x].path in keys
    ensures Ascending(PathList(g, s)) && Elements(PathList(g, s)) == keys
    ensures forall i :: 0 <= i < |s| ==> s[i] in g && g[s[i]].isLeaf && Bound(m, PathList(g, s)[i], g[s[i]].value)
  {
    forall i | 0 <= i < |s|
      ensures s[i] in g && g[s[i]].isLeaf && Bound(m, g[s[i]].path, g[s[i]].value) && PathList(g, s)[i] in keys
    {
      assert s[i] in Elements(s);
      assert Bound(m, g[s[i]].path, g[s[i]].value);
    }
    forall k | k in keys ensures k in Elements(PathList(g, s)) {
      assert Stored(g, k);
      var x :| x in g && LeafFor(g, x, k);
      ListHas(g, s, x);
    }
  }

  lemma ListHas<N, V>(g: Graph<N, V>, s: seq<N>, x: N)
    requires Elements(s) <= g.Keys && x in Elements(s)
    ensures x in g && g[x].path in Elements(PathList(g, s))
  {
    var i :| 0 <= i < |s| && s[i] == x;
    assert PathList(g, s)[i] == g[x].path;
  }

  // ----- Climbing in longest_match -----

  /** `k` is the longest stored prefix of `key`. */
  ghost predicate LongestPrefix<V>(m: map<string, V>, key: string, k: string)
  {
    k in m && k <= key && forall j :: j in m && j <= key ==> |j| <= |k|
  }

  /** The path of `n` is a prefix of `key`, and no stored prefix of `key` is longer. */
  ghost predicate Candidate<N, V>(g: Graph<N, V>, m: map<string, V>, key: string, n: N)
  {
    n in g && !g[n].isLeaf && g[n].path <= key && forall k :: k in m && k <= key ==> |k| <= |g[n].path|
  }

  /** Where the upward walk of longest_match starts. */
  lemma LongestStart<N, V>(g: Graph<N, V>, root: N, m: map<string, V>, key: string, r: N)
    requires WellFormed(g, root) && Represents(g, m) && Stops(g, root, key, r) && !g[r].isLeaf
    ensures 0 <= g[r].depth <= |key|
    ensures Substr(key, g[r].depth, |g[r].key|) == g[r].key ==> Candidate(g, m, key, r)
    ensures Substr(key, g[r].depth, |g[r].key|) != g[r].key ==>
      g[r].parent.Some? && Candidate(g, m, key, g[r].parent.value)
  {
    RootFacts(g, root);
    forall k | k in m && k <= key
      ensures StopsAtNode(g, key, r) ==> |k| <= |g[r].path|
      ensures StopsInEdge(g, root, key, r) ==> |k| <= g[r].depth
    {
      PrefixesAbove(g, root, m, key, r, k);
    }
    StopCases(g, root, key, r);
    if StopsInEdge(g, root, key, r) {
      var q := Up(g, root, r);
      assert g[q].path == g[r].path[..g[r].depth + 1][..g[r].depth] == key[..g[r].depth];
    }
  }

  /** One round of the upward walk. */
  lemma LongestStep<N, V>(g: Graph<N, V>, root: N, m: map<string, V>, key: string, n: N)
    requires WellFormed(g, root) && Represents(g, m) && Candidate(g, m, key, n)
    ensures "" in g[n].children ==> var c := g[n].children[""];
      c in g && g[c].isLeaf && g[n].path in m && g[c].value == Some((g[n].path, m[g[n].path]))
    ensures "" !in g[n].children && g[n].parent.Some? ==>
      Candidate(g, m, key, g[n].parent.value) && Rank(g[g[n].parent.value]) < Rank(g[n])
    ensures "" !in g[n].children && g[n].parent.None? ==> forall k :: k in m ==> !(k <= key)
  {
    RootFacts(g, root);
    if "" in g[n].children {
      var c := Down(g, root, n, "");
      assert g[c].path == g[n].path;
      assert Bound(m, g[c].path, g[c].value);
    } else {
      forall k | k in m && k <= key ensures |k| < |g[n].path| && (n != root ==> |k| <= g[n].depth) {
        if |k| == |g[n].path| {
          assert k == g[n].path;
          var x, p := LeafOf(g, root, m, k);
          Unique(g, root, p, n);
        }
        if n != root { PrefixesAboveParent(g, root, m, key, n, k); }
      }
      if n != root { var _ := Up(g, root, n); }
    }
  }

  // ----- What prefix_match and greedy_match list -----

  /** The comparison in prefix_match decides whether `key` is a prefix of the path of the base node. */
  lemma PrefixCut<N, V>(g: Graph<N, V>, root: N, key: string, r: N)
    requires WellLinked(g, root) && Stops(g, root, key, r)
    ensures Base(g, r) in g && (g[r].isLeaf ==> g[r].parent.Some?)
    ensures !g[Base(g, r)].isLeaf && 0 <= g[Base(g, r)].depth <= |key|
    ensures key <= g[Base(g, r)].path <==>
      Substr(key, g[Base(g, r)].depth, |key| - g[Base(g, r)].depth) ==
      Substr(g[Base(g, r)].key, 0, |key| - g[Base(g, r)].depth)
  {
    RootFacts(g, root);
    if g[r].isLeaf {
      var _ := Up(g, root, r);
    }
    var b := Base(g, r);
    if b != root {
      var q := Up(g, root, b);
      var d := g[b].depth;
      if StopsInEdge(g, root, key, r) {
        assert key[..d] == key[..d + 1][..d] == g[b].path[..d + 1][..d] == g[b].path[..d];
      } else {
        assert key[..d] == g[b].path[..d];
      }
      PrefixParts(key, g[b].path, d);
    }
  }

  /** Equal up to `d`, one string is a prefix of the other exactly when its rest is. */
  lemma PrefixParts(a: string, b: string, d: nat)
    requires d <= |a| && d <= |b| && a[..d] == b[..d]
    ensures a <= b <==> Substr(a, d, |a| - d) == Substr(b[d..], 0, |a| - d)
  {
  }

  lemma PrefixKeys<N, V>(g: Graph<N, V>, root: N, m: map<string, V>, key: string, r: N)
    requires WellFormed(g, root) && Represents(g, m) && Stops(g, root, key, r)
    ensures Base(g, r) in g
    ensures key <= g[Base(g, r)].path ==>
      forall x :: x in Below(g, Base(g, r)) <==> x in g && g[x].isLeaf && g[x].path in m && key <= g[x].path
    ensures !(key <= g[Base(g, r)].path) ==> forall k :: k in m ==> !(key <= k)
  {
    RootFacts(g, root);
    if g[r].isLeaf { var _ := Up(g, root, r); }
    forall x | x in g && g[x].isLeaf
      ensures key <= g[x].path <==> key <= g[Base(g, r)].path && g[Base(g, r)].path <= g[x].path
      ensures !g[Base(g, r)].isLeaf && g[x].path in m
    {
      ExtensionsBelow(g, root, key, r, x);
      assert Bound(m, g[x].path, g[x].value);
    }
    forall k | k in m && key <= k ensures key <= g[Base(g, r)].path {
      var x, _ := LeafOf(g, root, m, k);
    }
  }

  lemma GreedyKeys<N, V>(g: Graph<N, V>, root: N, m: map<string, V>, key: string, r: N)
    requires WellFormed(g, root) && Represents(g, m) && Stops(g, root, key, r)
    ensures Base(g, r) in g && (g[r].isLeaf ==> g[r].parent.Some?)
    ensures forall x :: x in Below(g, Base(g, r)) <==>
      (x in g && g[x].isLeaf && g[x].path in m && forall j :: j in m ==> Lcp(j, key) <= Lcp(g[x].path, key))
  {
    RootFacts(g, root);
    if g[r].isLeaf { var _ := Up(g, root, r); }
    var b := Base(g, r);
    forall x | x in g && g[x].isLeaf
      ensures g[b].path <= g[x].path ==> Lcp(g[x].path, key) == Lcp(g[b].path, key)
      ensures !(g[b].path <= g[x].path) ==> Lcp(g[x].path, key) < Lcp(g[b].path, key)
      ensures !g[b].isLeaf && g[x].path in m
    {
      AgreementBelow(g, root, key, r, x);
      assert Bound(m, g[x].path, g[x].value);
    }
    forall j | j in m ensures Lcp(j, key) <= Lcp(g[b].path, key) {
      var x, _ := LeafOf(g, root, m, j);
    }
    forall x | x in g && g[x].isLeaf && !(g[b].path <= g[x].path)
      ensures exists j :: j in m && Lcp(g[x].path, key) < Lcp(j, key)
    {
      BaseHasLeaf(g, root, x, b);
      var y := HasLeaf(g, root, b);
      assert Bound(m, g[y].path, g[y].value);
    }
  }

  lemma BaseHasLeaf<N, V>(g: Graph<N, V>, root: N, x: N, b: N)
    requires WellFormed(g, root) && x in g && g[x].isLeaf && b in g
    ensures b == root ==> g[b].children != map[]
  {
    RootFacts(g, root);
    if b == root {
      var c := Step(g, root, root, x);
      var _ := Up(g, root, c);
    }
  }

  // ----- A whole iteration -----

  ghost function Leaves<N, V>(g: Graph<N, V>): set<N>
  {
    set n | n in g && g[n].isLeaf
  }

  /** The leaves of the keys before that of `n`. */
  ghost function Before<N, V>(g: Graph<N, V>, n: N): set<N>
    requires n in g
  {
    set x | x in g && g[x].isLeaf && Less(g[x].path, g[n].path)
  }

  lemma NothingBefore<N, V>(g: Graph<N, V>, root: N, r: N)
    requires WellLinked(g, root) && IsLeast(g, r, Leaves(g))
    ensures Before(g, r) == {}
  {
  }

  /** Every leaf is before `n`, is `n`, or comes after it. */
  lemma BeforeOrAfter<N, V>(g: Graph<N, V>, root: N, n: N, x: N)
    requires WellLinked(g, root) && n in g && g[n].isLeaf && x in g && g[x].isLeaf
    ensures x in Before(g, n) || x == n || x in After(g, n)
    ensures x in After(g, n) ==> x !in Before(g, n)
  {
    LessTotal(g[x].path, g[n].path);
    if g[x].path == g[n].path { Unique(g, root, x, n); }
    if Less(g[n].path, g[x].path) { LessAsymmetric(g[n].path, g[x].path); }
  }

  /** With `n` appended, the list is that of the leaves before the successor of `n`, or of all. */
  lemma BeforeNext<N, V>(g: Graph<N, V>, root: N, n: N, next: Option<N>, s: seq<N>)
    requires WellLinked(g, root) && n in g && g[n].isLeaf && ListOf(g, s, Before(g, n))
    requires if next.None? then After(g, n) == {} else IsLeast(g, next.value, After(g, n))
    ensures ListOf(g, s + [n], if next.None? then Leaves(g) else Before(g, next.value))
  {
    LessIrreflexive(g[n].path);
    ListNext(g, root, s, Before(g, n), n);
    forall x | x in Leaves(g)
      ensures x in Before(g, n) + {n} <==> (next.None? || x in Before(g, next.value))
    {
      BeforeOrAfter(g, root, n, x);
      if next.Some? {
        var r := next.value;
        if x in Before(g, n) { LessTransitive(g[x].path, g[n].path, g[r].path); }
        if x == r { LessIrreflexive(g[r].path); }
        if x in After(g, n) && x != r { LessAsymmetric(g[r].path, g[x].path); }
      }
    }
    assert Before(g, n) + {n} == if next.None? then Leaves(g) else Before(g, next.value);
  }

  /** A list of leaves has no repetitions. */
  lemma {:induction false} ListLength<N, V>(g: Graph<N, V>, root: N, s: seq<N>, leaves: set<N>)
    requires ListOf(g, s, leaves)
    ensures |s| == |leaves|
  {
    if s != [] {
      var t, x := s[..|s| - 1], s[|s| - 1];
      assert s == t + [x];
      assert x !in t by {
        LessIrreflexive(g[x].path);
      }
      assert Elements(s) == Elements(t) + {x};
      ListLength(g, root, t, leaves - {x});
    }
  }

  /** The leaves in key order are a function of the set of leaves. */
  lemma {:induction false} ListUnique<N, V>(g: Graph<N, V>, s: seq<N>, t: seq<N>, leaves: set<N>)
    requires ListOf(g, s, leaves) && ListOf(g, t, leaves)
    ensures s == t
  {
    assert t != [] ==> t[0] in Elements(t);
    if s != [] {
      assert s[0] in Elements(t);
      assert t != [] && t[0] in Elements(s);
      var i :| 0 <= i < |s| && s[i] == t[0];
      var j :| 0 <= j < |t| && t[j] == s[0];
      if i != 0 && j != 0 { LessAsymmetric(g[s[0]].path, g[t[0]].path); }
      LessIrreflexive(g[s[0]].path);
      assert s == [s[0]] + s[1..] && t == [t[0]] + t[1..];
      assert Elements(s[1..]) == leaves - {s[0]};
      assert Elements(t[1..]) == leaves - {t[0]};
      ListUnique(g, s[1..], t[1..], leaves - {s[0]});
    }
  }
}
