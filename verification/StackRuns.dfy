// Whole runs of the stack: what any sequence of push, pop and clear returns, which elements it
// destroys, and how many blocks it needs.

module StackRuns {
  import opened Sequences
  import opened PoolLayout
  import opened MemoryPools
  import opened StackAllocs

  /** `newBlock` is the address operator new returns if the pool asks for a block. */
  datatype Op<T> = Push(element: T, newBlock: int) | Pop | Clear

  /** A run on a plain sequence: the elements on the stack, top first; what the pops have
      returned, none standing for the exception; the elements destroyed, in order; and the
      greatest depth so far. */
  datatype Model<T> = Model(contents: seq<T>, popped: seq<Option<T>>, dropped: seq<T>, deepest: nat)

  function Max(a: nat, b: nat): nat
  {
    if a < b then b else a
  }

  function Next<T>(m: Model<T>, op: Op<T>): Model<T>
  {
    match op
    case Push(x, _) =>
      m.(contents := [x] + m.contents, deepest := Max(m.deepest, |m.contents| + 1))
    case Pop =>
      if m.contents == [] then m.(popped := m.popped + [None]) else
        Model(m.contents[1..], m.popped + [Some(m.contents[0])], m.dropped + [m.contents[0]], m.deepest)
    case Clear =>
      m.(contents := [], dropped := m.dropped + m.contents)
  }

  function After<T>(m: Model<T>, ops: seq<Op<T>>): Model<T>
    decreases ops
  {
    if ops == [] then m else After(Next(m, ops[0]), ops[1..])
  }

  ghost function Pushed<T>(ops: seq<Op<T>>): multiset<T>
  {
    if ops == [] then multiset{} else (if ops[0].Push? then multiset{ops[0].element} else multiset{}) + Pushed(ops[1..])
  }

  /** If it starts at the depth of the stack, `deepest` is the maximum of the depths at all
      moments of the run. */
  lemma DeepestIsMaximum<T>(m: Model<T>, ops: seq<Op<T>>) returns (top: nat)
    requires m.deepest == |m.contents|
    ensures forall i :: 0 <= i <= |ops| ==> |After(m, ops[..i]).contents| <= After(m, ops).deepest
    ensures top <= |ops| && After(m, ops).deepest == |After(m, ops[..top]).contents|
  {
    top := MaximumFrom(m, ops);
    if After(m, ops).deepest == m.deepest {
      top := 0;
      assert After(m, ops[..0]) == m;
    }
  }

  lemma {:induction false} MaximumFrom<T>(m: Model<T>, ops: seq<Op<T>>) returns (top: nat)
    requires |m.contents| <= m.deepest
    ensures forall i :: 0 <= i <= |ops| ==> |After(m, ops[..i]).contents| <= After(m, ops).deepest
    ensures m.deepest <= After(m, ops).deepest && top <= |ops|
    ensures After(m, ops).deepest == m.deepest || After(m, ops).deepest == |After(m, ops[..top]).contents|
    decreases ops
  {
    top := 0;
    if ops != [] {
      var n, rest := Next(m, ops[0]), ops[1..];
      var t := MaximumFrom(n, rest);
      forall i | 0 <= i <= |ops| ensures |After(m, ops[..i]).contents| <= After(m, ops).deepest {
        if i > 0 { assert ops[..i][1..] == rest[..i - 1]; }
      }
      if After(n, rest).deepest == n.deepest {
        t := 0;
        assert After(n, rest[..0]) == n;
      }
      top := t + 1;
      assert ops[..top][1..] == rest[..t];
    }
  }

  /** No element is lost and none is destroyed twice: what was there or has been pushed is on the
      stack or has been destroyed. */
  lemma {:induction false} Accounted<T>(m: Model<T>, ops: seq<Op<T>>)
    ensures Account(After(m, ops)) == Account(m) + Pushed(ops)
    decreases ops
  {
    if ops != [] {
      AccountedOne(m, ops[0]);
      Accounted(Next(m, ops[0]), ops[1..]);
    }
  }

  /** The elements on the stack and those destroyed. */
  ghost function Account<T>(m: Model<T>): multiset<T>
  {
    multiset(m.dropped) + multiset(m.contents)
  }

  lemma AccountedOne<T>(m: Model<T>, op: Op<T>)
    ensures Account(Next(m, op)) == Account(m) + if op.Push? then multiset{op.element} else multiset{}
  {
    if op.Pop? && m.contents != [] { assert m.contents == [m.contents[0]] + m.contents[1..]; }
  }

  // ----- What a run means, read from the operations -----

  lemma {:induction false} Splits<T>(m: Model<T>, ops: seq<Op<T>>, i: nat)
    requires i <= |ops|
    ensures After(m, ops) == After(After(m, ops[..i]), ops[i..])
    decreases ops
  {
    if i > 0 {
      assert ops[..i][1..] == ops[1..][..i - 1] && ops[1..][i - 1..] == ops[i..];
      Splits(Next(m, ops[0]), ops[1..], i - 1);
    } else {
      assert ops[..0] == [] && ops[0..] == ops;
    }
  }

  lemma OneMore<T>(m: Model<T>, ops: seq<Op<T>>, i: nat)
    requires i < |ops|
    ensures After(m, ops[..i + 1]) == Next(After(m, ops[..i]), ops[i])
  {
    Splits(m, ops[..i + 1], i);
    assert ops[..i + 1][..i] == ops[..i] && ops[..i + 1][i..] == [ops[i]];
    assert [ops[i]][1..] == [];
  }

  /** How many pops there are. */
  function Pops<T>(ops: seq<Op<T>>): nat
  {
    if ops == [] then 0 else Pops(ops[..|ops| - 1]) + if ops[|ops| - 1].Pop? then 1 else 0
  }

  /** How deep a stack that starts at depth `d` is. */
  function Depth<T>(d: nat, ops: seq<Op<T>>): nat
    decreases ops
  {
    if ops == [] then d else
      var before, op := Depth(d, ops[..|ops| - 1]), ops[|ops| - 1];
      if op.Push? then before + 1 else if op.Clear? || before == 0 then 0 else before - 1
  }

  /** There are as many answers as pops, and no answer is taken back. */
  lemma {:induction false} AnswersCount<T>(m: Model<T>, ops: seq<Op<T>>)
    ensures |After(m, ops).popped| == |m.popped| + Pops(ops) && m.popped <= After(m, ops).popped
    decreases ops
  {
    if ops != [] {
      var n := |ops| - 1;
      AnswersCount(m, ops[..n]);
      OneMore(m, ops, n);
      assert ops[..n + 1] == ops;
    }
  }

  lemma {:induction false} DepthIs<T>(m: Model<T>, ops: seq<Op<T>>)
    ensures |After(m, ops).contents| == Depth(|m.contents|, ops)
    decreases ops
  {
    if ops != [] {
      var n := |ops| - 1;
      DepthIs(m, ops[..n]);
      OneMore(m, ops, n);
      assert ops[..n + 1] == ops;
    }
  }

  /** The answer to the pop at `j`: its place among the answers is the number of pops before it. It is
      none exactly when the stack is empty, and otherwise the top. */
  lemma AnswerTo<T>(m: Model<T>, ops: seq<Op<T>>, j: nat)
    requires j < |ops| && ops[j].Pop?
    ensures var at, before := |m.popped| + Pops(ops[..j]), After(m, ops[..j]).contents;
      at < |After(m, ops).popped| &&
      (After(m, ops).popped[at] == None <==> Depth(|m.contents|, ops[..j]) == 0) &&
      (before != [] ==> After(m, ops).popped[at] == Some(before[0]) && After(m, ops[..j + 1]).contents == before[1..])
  {
    AnswersCount(m, ops[..j]);
    DepthIs(m, ops[..j]);
    OneMore(m, ops, j);
    Splits(m, ops, j + 1);
    AnswersCount(After(m, ops[..j + 1]), ops[j + 1..]);
  }

  /** Pushes less pops. */
  function Level<T>(ops: seq<Op<T>>): int
  {
    if ops == [] then 0 else
      Level(ops[..|ops| - 1]) + if ops[|ops| - 1].Push? then 1 else if ops[|ops| - 1].Pop? then -1 else 0
  }

  /** The operations never clear, never pop below where they start, and end `d` above it. */
  ghost predicate Rises<T>(ops: seq<Op<T>>, d: int)
  {
    Level(ops) == d && (forall j :: 0 <= j < |ops| ==> !ops[j].Clear?) && forall j :: 0 <= j <= |ops| ==> Level(ops[..j]) >= 0
  }

  lemma RisesBefore<T>(ops: seq<Op<T>>, d: int)
    requires Rises(ops, d) && ops != []
    ensures var n := |ops| - 1; Rises(ops[..n], Level(ops[..n])) && d >= 0
  {
    var n := |ops| - 1;
    assert ops[..n + 1] == ops;
    forall j | 0 <= j <= n ensures Level(ops[..n][..j]) >= 0 {
      assert ops[..n][..j] == ops[..j];
    }
  }

  /** Such operations leave what was there below what they add. */
  lemma {:induction false} Above<T>(m: Model<T>, ops: seq<Op<T>>, d: int)
    requires Rises(ops, d)
    ensures d >= 0 && |After(m, ops).contents| == |m.contents| + d && After(m, ops).contents[d..] == m.contents
    decreases ops
  {
    if ops != [] {
      var n := |ops| - 1;
      RisesBefore(ops, d);
      Above(m, ops[..n], Level(ops[..n]));
      OneMore(m, ops, n);
      assert ops[..n + 1] == ops;
    }
  }

  /** Last in, first out: a pop that is balanced with a push answers what was pushed, and leaves the
      stack as it was before the push. */
  lemma PopMatchesPush<T>(m: Model<T>, ops: seq<Op<T>>, i: nat, j: nat)
    requires i < j < |ops| && ops[i].Push? && ops[j].Pop? && Rises(ops[i + 1..j], 0)
    ensures var at := |m.popped| + Pops(ops[..j]);
      at < |After(m, ops).popped| && After(m, ops).popped[at] == Some(ops[i].element) &&
      After(m, ops[..j + 1]).contents == After(m, ops[..i]).contents
  {
    OneMore(m, ops, i);
    Splits(m, ops[..j], i + 1);
    assert ops[..j][..i + 1] == ops[..i + 1] && ops[..j][i + 1..] == ops[i + 1..j];
    Above(After(m, ops[..i + 1]), ops[i + 1..j], 0);
    AnswerTo(m, ops, j);
  }

  /** Where the element at depth `d` of a stack that started empty comes from: the push since which
      the stack has risen by `d`. */
  lemma {:induction false} Source<T>(m: Model<T>, ops: seq<Op<T>>, d: nat) returns (i: nat)
    requires m.contents == [] && d < Depth(0, ops)
    ensures i < |ops| && ops[i].Push? && Rises(ops[i + 1..], d)
    ensures d < |After(m, ops).contents| && After(m, ops).contents[d] == ops[i].element
    decreases ops
  {
    var n := |ops| - 1;
    if ops[n].Push? && d == 0 {
      i := n;
      assert ops[n + 1..] == [];
    } else {
      var e := if ops[n].Push? then d - 1 else d + 1;
      i := Source(m, ops[..n], e);
      RisesOn(ops, i + 1, e);
    }
    RisenAbove(m, ops, i, d);
  }

  /** What was pushed lies as deep as the stack has risen since. */
  lemma RisenAbove<T>(m: Model<T>, ops: seq<Op<T>>, i: nat, d: nat)
    requires i < |ops| && ops[i].Push? && Rises(ops[i + 1..], d)
    ensures d < |After(m, ops).contents| && After(m, ops).contents[d] == ops[i].element
  {
    OneMore(m, ops, i);
    Splits(m, ops, i + 1);
    Above(After(m, ops[..i + 1]), ops[i + 1..], d);
  }

  /** One operation more, seen from operation `i` on. */
  lemma RisesOn<T>(ops: seq<Op<T>>, i: nat, d: nat)
    requires i < |ops| && Rises(ops[..|ops| - 1][i..], d)
    requires var op := ops[|ops| - 1]; !op.Clear? && (op.Pop? ==> d > 0)
    ensures Rises(ops[i..], if ops[|ops| - 1].Push? then d + 1 else d - 1)
  {
    var few, more := ops[..|ops| - 1][i..], ops[i..];
    assert more == few + [ops[|ops| - 1]] && more[..|few|] == few;
    forall j | 0 <= j <= |more| ensures Level(more[..j]) >= 0 {
      if j <= |few| { assert more[..j] == few[..j]; } else { assert more[..j] == more; }
    }
  }

  /** Every pop of a run that starts empty either finds the stack empty or is balanced with a push. */
  lemma PopHasPush<T>(m: Model<T>, ops: seq<Op<T>>, j: nat) returns (i: nat)
    requires m.contents == [] && j < |ops| && ops[j].Pop? && Depth(0, ops[..j]) > 0
    ensures i < j && ops[i].Push? && Rises(ops[i + 1..j], 0)
  {
    i := Source(m, ops[..j], 0);
    assert ops[..j][i + 1..] == ops[i + 1..j];
  }

  /** clear leaves nothing on the stack, so a pop right after it finds it empty. */
  lemma ClearEmpties<T>(m: Model<T>, ops: seq<Op<T>>, j: nat)
    requires j < |ops| && ops[j].Clear?
    ensures After(m, ops[..j + 1]).contents == [] && Depth(|m.contents|, ops[..j + 1]) == 0
  {
    OneMore(m, ops, j);
    DepthIs(m, ops[..j + 1]);
  }

  /** What operator new promises over a whole run: blocks that overlap neither each other nor
      those obtained before. */
  ghost predicate Supply<T>(l: Layout, blocks: seq<int>, ops: seq<Op<T>>)
  {
    (forall j :: 0 <= j < |ops| && ops[j].Push? ==>
       ops[j].newBlock > 0 && forall i :: 0 <= i < |blocks| ==> l.Apart(ops[j].newBlock, blocks[i])) &&
    forall j, k :: 0 <= j < k < |ops| && ops[j].Push? && ops[k].Push? ==> l.Apart(ops[j].newBlock, ops[k].newBlock)
  }

  /** `b` is one of the addresses operator new returns in the run. */
  ghost predicate Supplied<T>(ops: seq<Op<T>>, b: int)
  {
    exists j :: 0 <= j < |ops| && ops[j].Push? && ops[j].newBlock == b
  }

  lemma SupplyLeft<T>(l: Layout, blocks: seq<int>, ops: seq<Op<T>>, after: seq<int>)
    requires Supply(l, blocks, ops) && ops != []
    requires after == blocks || (ops[0].Push? && after == [ops[0].newBlock] + blocks)
    ensures Supply(l, after, ops[1..])
  {
    forall j, i | 0 <= j < |ops[1..]| && ops[1..][j].Push? && 0 <= i < |after|
      ensures l.Apart(ops[1..][j].newBlock, after[i])
    {
      assert ops[1..][j] == ops[j + 1];
      if after != blocks && i > 0 { assert after[i] == blocks[i - 1]; }
    }
  }

  /** The stack is where the model is. */
  ghost predicate Matches<T>(s: StackAlloc<T>, m: Model<T>)
    reads s, s.pool
  {
    s.Valid() && s.contents == m.contents && s.Destroyed() == m.dropped && Peak(s.pool.run) == m.deepest
  }

  /** One operation takes both to the next state. */
  method Step<T>(s: StackAlloc<T>, op: Op<T>, popped: seq<Option<T>>, ghost m: Model<T>) returns (all: seq<Option<T>>)
    requires Matches(s, m) && popped == m.popped
    requires op.Push? && s.pool.NeedsBlock() ==> s.pool.FreshBlock(op.newBlock)
    modifies s, s.pool
    ensures Matches(s, Next(m, op)) && all == Next(m, op).popped
    ensures s.pool.blocks == old(s.pool.blocks) || (op.Push? && s.pool.blocks == [op.newBlock] + old(s.pool.blocks))
  {
    all := popped;
    s.BlocksForDepth();
    match op
    case Push(x, newBlock) =>
      s.Push(x, newBlock);
      s.BlocksForDepth();
    case Pop =>
      var x := s.Pop();
      all := all + [x];
    case Clear =>
      s.Clear();
  }

  /** So does every run: the stack over the pool refines a sequence. */
  method Run<T>(s: StackAlloc<T>, ops: seq<Op<T>>, popped: seq<Option<T>>, ghost m: Model<T>) returns (all: seq<Option<T>>)
    requires Matches(s, m) && popped == m.popped && Supply(s.pool.layout, s.pool.blocks, ops)
    modifies s, s.pool
    ensures Matches(s, After(m, ops)) && all == After(m, ops).popped
    ensures forall b :: b in s.pool.blocks ==> b in old(s.pool.blocks) || Supplied(ops, b)
    decreases |ops|
  {
    all := popped;
    if ops != [] {
      ghost var blocks := s.pool.blocks;
      SupplyFirst(s, ops);
      all := Step(s, ops[0], popped, m);
      SupplyLeft(s.pool.layout, blocks, ops, s.pool.blocks);
      ghost var between := s.pool.blocks;
      all := Run(s, ops[1..], all, Next(m, ops[0]));
      SuppliedBoth(blocks, between, s.pool.blocks, ops);
    }
  }

  lemma SuppliedBoth<T>(before: seq<int>, between: seq<int>, after: seq<int>, ops: seq<Op<T>>)
    requires ops != [] && (between == before || (ops[0].Push? && between == [ops[0].newBlock] + before))
    requires forall b :: b in after ==> b in between || Supplied(ops[1..], b)
    ensures forall b :: b in after ==> b in before || Supplied(ops, b)
  {
    forall b | b in after && b !in before ensures Supplied(ops, b) {
      if b !in between {
        var j :| 0 <= j < |ops[1..]| && ops[1..][j].Push? && ops[1..][j].newBlock == b;
        assert ops[j + 1] == ops[1..][j];
      }
    }
  }

  lemma SupplyFirst<T>(s: StackAlloc<T>, ops: seq<Op<T>>)
    requires ops != [] && Supply(s.pool.layout, s.pool.blocks, ops)
    ensures ops[0].Push? ==> s.pool.FreshBlock(ops[0].newBlock)
  {
  }

  /** From construction to destruction: the pops return what the sequence says; the blocks obtained
      are what the greatest depth needs, rounded up, and each is released once; every element
      pushed is destroyed once. */
  method Lifetime<T>(layout: Layout, ops: seq<Op<T>>)
    returns (popped: seq<Option<T>>, released: seq<int>, ghost destroyed: seq<T>)
    requires layout.Sizes() && Supply(layout, [], ops)
    ensures var m := After(Model([], [], [], 0), ops);
      popped == m.popped && destroyed == m.dropped + m.contents && NoRepeats(released) &&
      |released| == (m.deepest + layout.SlotCount() - 1) / layout.SlotCount()
    ensures multiset(destroyed) == Pushed(ops) && forall b :: b in released ==> Supplied(ops, b)
  {
    var s := new StackAlloc(layout);
    ghost var m := Model([], [], [], 0);
    popped := Run(s, ops, [], m);
    s.BlocksForDepth();
    Accounted(m, ops);
    released := s.Dispose();
    destroyed := s.Destroyed();
  }
}
