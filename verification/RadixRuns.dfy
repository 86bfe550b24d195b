// Whole runs: what any sequence of updates does to a tree, and what the history of a tree can
// be seen from (nothing but the map it stores).

module RadixRuns {
  import opened Sequences
  import opened RadixGraph
  import opened RadixSearch
  import opened RadixCanon
  import opened RadixTrees

  datatype Op<V> =
    | Insert(key: string, value: V)   // insert
    | Read(key: string)               // tree[key]
    | Put(key: string, value: V)      // tree[key] = value
    | Assign(key: string, value: V)   // if find(key) is not end(), its value is overwritten
    | Erase(key: string)              // erase(key)
    | EraseAt(key: string)            // if find(key) is not end(), erase(it)
    | Clear                           // clear

  /** The updates on the abstract map. `default` is the value of a default-constructed T. */
  function Apply<V>(m: map<string, V>, op: Op<V>, default: V): map<string, V>
  {
    match op
    case Insert(k, v) => if k in m then m else m[k := v]
    case Read(k) => if k in m then m else m[k := default]
    case Put(k, v) => m[k := v]
    case Assign(k, v) => if k in m then m[k := v] else m
    case Erase(k) => m - {k}
    case EraseAt(k) => m - {k}
    case Clear => map[]
  }

  function ApplyAll<V>(m: map<string, V>, ops: seq<Op<V>>, default: V): map<string, V>
  {
    if ops == [] then m else Apply(ApplyAll(m, ops[..|ops| - 1], default), ops[|ops| - 1], default)
  }

  // What a run leaves of one key, read from the operations: the last one that names it decides.

  /** From operation `i` on none names `k`, and none clears the tree. */
  predicate Quiet<V>(ops: seq<Op<V>>, i: nat, k: string)
  {
    forall j :: i <= j < |ops| ==> !ops[j].Clear? && ops[j].key != k
  }

  ghost predicate Agree<V>(m: map<string, V>, n: map<string, V>, k: string)
  {
    (k in m <==> k in n) && (k in m ==> m[k] == n[k])
  }

  /** A key that no operation names, in a run without clear, keeps its binding or stays without. */
  lemma {:induction false} Unnamed<V>(m: map<string, V>, ops: seq<Op<V>>, i: nat, k: string, default: V)
    requires i <= |ops| && Quiet(ops, i, k)
    ensures Agree(ApplyAll(m, ops, default), ApplyAll(m, ops[..i], default), k)
    decreases |ops|
  {
    if i == |ops| {
      assert ops[..i] == ops;
    } else {
      var n := |ops| - 1;
      Unnamed(m, ops[..n], i, k, default);
      assert ops[..n][..i] == ops[..i];
      assert ops[n].key != k;
    }
  }

  /** After `ops[i]` names `k` for the last time, `k` is as that operation leaves it. */
  lemma LastNaming<V>(m: map<string, V>, ops: seq<Op<V>>, i: nat, k: string, default: V)
    requires i < |ops| && !ops[i].Clear? && ops[i].key == k && Quiet(ops, i + 1, k)
    ensures var before, after := ApplyAll(m, ops[..i], default), ApplyAll(m, ops, default);
      (ops[i].Erase? || ops[i].EraseAt? ==> k !in after) &&
      (ops[i].Put? ==> k in after && after[k] == ops[i].value) &&
      (ops[i].Insert? || ops[i].Read? ==> k in after) &&
      (ops[i].Insert? || ops[i].Read? ==> k in before ==> after[k] == before[k]) &&
      (ops[i].Insert? && k !in before ==> after[k] == ops[i].value) &&
      (ops[i].Read? && k !in before ==> after[k] == default) &&
      (ops[i].Assign? ==> (k in after <==> k in before)) &&
      (ops[i].Assign? && k in before ==> after[k] == ops[i].value)
  {
    Unnamed(m, ops, i + 1, k, default);
    assert ops[..i + 1][..i] == ops[..i];
  }

  /** After the last clear, a key that is not named any more is not stored. */
  lemma {:induction false} ClearForgets<V>(m: map<string, V>, ops: seq<Op<V>>, i: nat, k: string, default: V)
    requires i < |ops| && ops[i].Clear? && forall j :: i < j < |ops| ==> ops[j].Clear? || ops[j].key != k
    ensures k !in ApplyAll(m, ops, default)
    decreases |ops|
  {
    var n := |ops| - 1;
    if i < n {
      assert ops[..n][i] == ops[i];
      ClearForgets(m, ops[..n], i, k, default);
      assert ops[n].Clear? || ops[n].key != k;
    }
  }

  /** Insert never overwrites: the first insertion of a key that is not stored decides, as long as
      only insertions and reads name the key after it. */
  lemma {:induction false} FirstInsertStays<V>(m: map<string, V>, ops: seq<Op<V>>, i: nat, k: string, default: V)
    requires i < |ops| && ops[i].Insert? && ops[i].key == k && k !in ApplyAll(m, ops[..i], default)
    requires forall j :: i < j < |ops| ==> !ops[j].Clear? && (ops[j].key == k ==> ops[j].Insert? || ops[j].Read?)
    ensures k in ApplyAll(m, ops, default) && ApplyAll(m, ops, default)[k] == ops[i].value
    decreases |ops|
  {
    var n := |ops| - 1;
    if i < n {
      assert ops[..n][i] == ops[i] && ops[..n][..i] == ops[..i];
      FirstInsertStays(m, ops[..n], i, k, default);
      assert !ops[n].Clear? && (ops[n].key == k ==> ops[n].Insert? || ops[n].Read?);
    } else {
      assert ops[..n] == ops[..i];
    }
  }

  /** Whether there is a root after an update: whatever may insert makes one, and only clear takes
      it away. */
  predicate Rooted<V>(root: bool, op: Op<V>)
  {
    op.Insert? || op.Read? || op.Put? || (root && !op.Clear?)
  }

  predicate RootedAll<V>(root: bool, ops: seq<Op<V>>)
  {
    if ops == [] then root else Rooted(RootedAll(root, ops[..|ops| - 1]), ops[|ops| - 1])
  }

  /** Operation `i` may insert, and the tree is not cleared after it. */
  predicate Makes<V>(ops: seq<Op<V>>, i: nat)
  {
    i < |ops| && (ops[i].Insert? || ops[i].Read? || ops[i].Put?) && forall j :: i <= j < |ops| ==> !ops[j].Clear?
  }

  /** There is a root exactly when something made one and no clear came after, or there was one and
      nothing was ever cleared. */
  lemma {:induction false} RootedWhen<V>(root: bool, ops: seq<Op<V>>)
    ensures RootedAll(root, ops) <==>
      ((root && forall j :: 0 <= j < |ops| ==> !ops[j].Clear?) || exists i :: 0 <= i < |ops| && Makes(ops, i))
    decreases |ops|
  {
    if ops != [] {
      var n := |ops| - 1;
      RootedWhen(root, ops[..n]);
      if i :| 0 <= i < n && Makes(ops[..n], i) && !ops[n].Clear? {
        assert ops[..n][i] == ops[i];
        assert forall j :: i <= j < n ==> ops[..n][j] == ops[j];
        assert Makes(ops, i);
      }
      if i :| 0 <= i < n && Makes(ops, i) {
        assert Makes(ops[..n], i);
      }
      if Makes(ops, n) {
        assert Rooted(RootedAll(root, ops[..n]), ops[n]);
      }
    }
  }

  /** The tree stores `m` now and has a root or none, and whatever was constructed for it is still
      accounted for. */
  twostate predicate Becomes<V>(t: RadixTree<V>, m: map<string, V>, root: bool)
    reads t, t.arena, t.g.Keys, t.freed`alive, t.freed`value
  {
    t.Valid() && t.contents == m && (t.root != null <==> root) && fresh(t.g.Keys - old(t.g.Keys)) && old(t.arena.made) <= t.arena.made
  }

  method InsertPair<V>(t: RadixTree<V>, key: string, value: V)
    requires t.Valid()
    modifies t, t.arena, t.g.Keys
    ensures Becomes(t, if key in old(t.contents) then old(t.contents) else old(t.contents)[key := value], true)
  {
    var it, added := t.Insert((key, value));
  }

  method ReadKey<V>(t: RadixTree<V>, key: string, default: V)
    requires t.Valid()
    modifies t, t.arena, t.g.Keys
    ensures Becomes(t, if key in old(t.contents) then old(t.contents) else old(t.contents)[key := default], true)
  {
    var it := t.At(key, default);
  }

  method PutKey<V>(t: RadixTree<V>, key: string, value: V, default: V)
    requires t.Valid()
    modifies t, t.arena, t.g.Keys
    ensures Becomes(t, old(t.contents)[key := value], true)
  {
    t.Put(key, value, default);
  }

  method AssignFound<V>(t: RadixTree<V>, key: string, value: V)
    requires t.Valid()
    modifies t, t.arena, t.g.Keys
    ensures Becomes(t, if key in old(t.contents) then old(t.contents)[key := value] else old(t.contents), old(t.root) != null)
  {
    var it := t.Find(key);
    if it != null {
      t.Assign(it, key, value);
    }
  }

  method EraseKey<V>(t: RadixTree<V>, key: string)
    requires t.Valid()
    modifies t, t.arena, t.g.Keys
    ensures Becomes(t, old(t.contents) - {key}, old(t.root) != null)
  {
    var erased := t.Erase(key);
  }

  method EraseFound<V>(t: RadixTree<V>, key: string)
    requires t.Valid()
    modifies t, t.arena, t.g.Keys
    ensures Becomes(t, old(t.contents) - {key}, old(t.root) != null)
  {
    var it := t.Find(key);
    if it != null {
      t.EraseAt(it, key);
    }
  }

  method Cleared<V>(t: RadixTree<V>)
    requires t.Valid()
    modifies t, t.arena, t.g.Keys
    ensures Becomes(t, map[], false)
  {
    t.Clear();
  }

  /** One update takes the tree to what the same update makes of the map. */
  method Step<V>(t: RadixTree<V>, op: Op<V>, default: V)
    requires t.Valid()
    modifies t, t.arena, t.g.Keys
    ensures Becomes(t, Apply(old(t.contents), op, default), Rooted(old(t.root) != null, op))
  {
    match op
    case Insert(k, v) =>
      InsertPair(t, k, v);
    case Read(k) =>
      ReadKey(t, k, default);
    case Put(k, v) =>
      PutKey(t, k, v, default);
    case Assign(k, v) =>
      AssignFound(t, k, v);
    case Erase(k) =>
      EraseKey(t, k);
    case EraseAt(k) =>
      EraseFound(t, k);
    case Clear =>
      Cleared(t);
  }

  /** Every run keeps the tree valid and stores what the same updates make of the map. */
  method Run<V>(t: RadixTree<V>, ops: seq<Op<V>>, default: V)
    requires t.Valid()
    modifies t, t.arena, t.g.Keys
    ensures t.Valid() && t.contents == ApplyAll(old(t.contents), ops, default)
    ensures fresh(t.g.Keys - old(t.g.Keys)) && old(t.arena.made) <= t.arena.made
    ensures t.root != null <==> RootedAll(old(t.root) != null, ops)
  {
    if ops != [] {
      Run(t, ops[..|ops| - 1], default);
      Step(t, ops[|ops| - 1], default);
    }
  }

  /** A run from an empty tree. Whether the assertion in begin holds afterwards can be told from the
      run: it does exactly when something is stored, or nothing was inserted since the last clear. */
  method FreshRun<V>(ops: seq<Op<V>>, default: V) returns (t: RadixTree<V>)
    ensures fresh(t) && fresh(t.g.Keys) && t.Valid() && t.contents == ApplyAll(map[], ops, default)
    ensures t.BeginHolds() <==> (ApplyAll(map[], ops, default) != map[] || !RootedAll(false, ops))
  {
    t := new RadixTree();
    Run(t, ops, default);
    t.BeginAsserts();
  }

  /** Nothing leaks: after any run and the destruction of the tree, every node that was ever
      constructed for it has been freed, and none twice. */
  method Lifetime<V>(t: RadixTree<V>, ops: seq<Op<V>>, default: V)
    requires t.Valid()
    modifies t, t.arena, t.g.Keys
    ensures t.Valid() && t.root == null && t.g == map[]
    ensures NoRepeats(t.freed) && forall x :: x in t.arena.made ==> x in t.freed && !x.alive && x.value == None
  {
    Run(t, ops, default);
    t.Clear();
    assert forall x :: x in t.freed ==> x.Gone();
  }

  /** The structure of a tree; no root counts as a root without children. */
  ghost function Structure<V>(t: RadixTree<V>): Tree<V>
    requires t.Valid()
    reads t, t.arena, t.g.Keys, t.freed`alive, t.freed`value
  {
    if t.root == null then Tree("", 0, false, None, map[]) else TreeOf(t.g, t.root, t.root)
  }

  /** Trees are structurally identical exactly when they store the same map, whatever their history. */
  lemma HistoryIndependence<V>(s: RadixTree<V>, t: RadixTree<V>)
    requires s.Valid() && t.Valid()
    ensures Structure(s) == Structure(t) <==> s.contents == t.contents
  {
    if s.root != null && t.root != null {
      SameTreeSameBindings(s.g, s.root, t.g, t.root, s.contents, t.contents);
    } else if s.root != null {
      EmptyIsBare(s.g, s.root, s.contents);
    } else if t.root != null {
      EmptyIsBare(t.g, t.root, t.contents);
    }
  }

  lemma EmptyIsBare<N, V>(g: Graph<N, V>, root: N, m: map<string, V>)
    requires WellFormed(g, root) && Represents(g, m)
    ensures TreeOf(g, root, root) == Tree("", 0, false, None, map[]) <==> m == map[]
  {
    assert NodeOk(g, root, root);
    EmptyMeansBare(g, root, m);
    assert TreeOf(g, root, root).children.Keys == g[root].children.Keys;
    assert g[root].children == map[] <==> g[root].children.Keys == {};
    assert TreeOf(g, root, root).children == map[] <==> TreeOf(g, root, root).children.Keys == {};
  }

  /** Two trees with roots have the same nodes, with the same fields up to a renaming of the nodes,
      exactly when they store the same map. */
  lemma SameNodes<V>(s: RadixTree<V>, t: RadixTree<V>)
    requires s.Valid() && t.Valid() && s.root != null && t.root != null
    ensures (exists f :: Isomorphic(s.g, s.root, t.g, t.root, f)) <==> s.contents == t.contents
  {
    if s.contents == t.contents {
      var f := SameBindingsIsomorphic(s.g, s.root, t.g, t.root, s.contents);
    }
    if f :| Isomorphic(s.g, s.root, t.g, t.root, f) {
      IsomorphicSameBindings(s.g, s.root, t.g, t.root, s.contents, t.contents, f);
    }
  }

  /** Two runs that end with the same map end with the same structure. */
  method TwoRuns<V>(ops1: seq<Op<V>>, ops2: seq<Op<V>>, default: V) returns (s: RadixTree<V>, t: RadixTree<V>)
    requires ApplyAll(map[], ops1, default) == ApplyAll(map[], ops2, default)
    ensures fresh(s) && fresh(t) && s.Valid() && t.Valid()
    ensures s.contents == t.contents == ApplyAll(map[], ops1, default)
    ensures Structure(s) == Structure(t)
    ensures s.root != null && t.root != null ==> exists f :: Isomorphic(s.g, s.root, t.g, t.root, f)
  {
    s := FreshRun(ops1, default);
    t := FreshRun(ops2, default);
    HistoryIndependence(s, t);
    if s.root != null && t.root != null { SameNodes(s, t); }
  }

  /** Erasing a freshly inserted key restores the structure. A tree that has a root gets back the
      same nodes with the same fields; one that has none is left with a bare root. All that is
      freed are nodes that insert made. */
  method InsertThenErase<V>(t: RadixTree<V>, key: string, value: V)
    requires t.Valid() && key !in t.contents
    modifies t, t.arena, t.g.Keys
    ensures t.Valid() && t.contents == old(t.contents) && Structure(t) == old(Structure(t))
    ensures (t.g == old(t.g) && t.root == old(t.root)) <==> old(t.root) != null
    ensures old(t.root) == null ==> t.root != null && t.g.Keys == {t.root}
    ensures old(t.freed) <= t.freed && fresh(Elements(t.freed[|old(t.freed)|..]))
  {
    RemoveAdded(t.contents, key, value);
    ghost var rootless := t.root == null;
    var it, added := t.Insert((key, value));
    var erased := t.Erase(key);
    if rootless {
      EmptyMeansBare(t.g, t.root, t.contents);
      OnlyRoot(t.g, t.root);
      EmptyIsBare(t.g, t.root, t.contents);
    }
  }

  lemma RemoveAdded<V>(m: map<string, V>, k: string, v: V)
    requires k !in m
    ensures m[k := v] - {k} == m
  {
  }

  /** begin can meet a root without children: insert one key and erase it. */
  method EmptiedTree<V>(value: V) returns (t: RadixTree<V>)
    ensures fresh(t) && t.Valid() && t.size == 0 && t.root != null && t.root.children == map[]
  {
    t := new RadixTree();
    var it, added := t.Insert(("a", value));
    var erased := t.Erase("a");
    EmptyMeansBare(t.g, t.root, t.contents);
  }

  /** The nodes of a tree with n keys: n leaves, at most 3n nodes when n >= 1, at most a root
      when nothing is stored. */
  lemma Space<V>(t: RadixTree<V>)
    requires t.Valid()
    ensures |Leaves(t.g)| == t.size
    ensures |t.g| <= if t.size == 0 then 1 else 3 * t.size
  {
    if t.root != null {
      LeafCount(t.g, t.root, t.contents);
      if t.contents != map[] {
        SpaceBound(t.g, t.root, t.contents);
      } else {
        EmptyMeansBare(t.g, t.root, t.contents);
        OnlyRoot(t.g, t.root);
      }
    }
  }

  /** Inserts the keys of a ladder. */
  function Climb<V>(n: nat, value: V): seq<Op<V>>
  {
    if n == 0 then [] else Climb(n - 1, value) + [Insert(Rung(n) + "b", value)]
  }

  lemma {:induction false} ClimbStores<V>(n: nat, value: V)
    ensures ApplyAll(map[], Climb(n, value), value).Keys == Ladder(n)
  {
    if n > 0 {
      var ops := Climb(n, value);
      ClimbStores(n - 1, value);
      assert ops[..|ops| - 1] == Climb(n - 1, value);
    }
  }

  /** A run after which the bound is attained: any number n of keys can need 3n nodes. */
  method FullTree<V>(n: nat, value: V) returns (t: RadixTree<V>)
    requires n >= 1
    ensures fresh(t) && t.Valid() && t.size == n && |t.g| == 3 * n
  {
    t := FreshRun(Climb(n, value), value);
    ClimbStores(n, value);
    LadderCount(n);
    assert t.contents != map[];
    SpaceAttained(t.g, t.root, t.contents, n);
  }

  lemma OnlyRoot<N, V>(g: Graph<N, V>, root: N)
    requires WellLinked(g, root) && g[root].children == map[]
    ensures g.Keys == {root} && |g| == 1
  {
    assert NodeOk(g, root, root);
    forall x | x in g ensures x == root {
      if x != root {
        var c := RadixGraph.Step(g, root, root, x);
        var _ := Up(g, root, c);
      }
    }
    assert g.Keys == {root};
  }
}
