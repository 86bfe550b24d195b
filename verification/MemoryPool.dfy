// The block pool: bump allocation from a chain of blocks, and a free list threaded through the
// returned slots themselves.

module MemoryPools {
  import opened Sequences
  import opened PoolLayout

  /** What the memory at the start of a block or slot holds: an object, or a link. */
  datatype Cell<T> = Raw | Element(value: T) | Next(link: int)

  // ----- Counting -----

  /** A run of the pool, latest operation outside. */
  datatype Run = Start | Alloc(before: Run) | Dealloc(before: Run)

  /** Objects live at the end of a run. */
  function LiveAfter(r: Run): int
  {
    match r
    case Start => 0
    case Alloc(b) => LiveAfter(b) + 1
    case Dealloc(b) => LiveAfter(b) - 1
  }

  /** The largest number of objects live at the same time. */
  function Peak(r: Run): nat
  {
    match r
    case Start => 0
    case Alloc(b) => if LiveAfter(r) > Peak(b) then LiveAfter(r) else Peak(b)
    case Dealloc(b) => Peak(b)
  }

  /** `m` is a moment of the run `r`. */
  predicate Moment(m: Run, r: Run)
  {
    m == r || (r != Start && Moment(m, r.before))
  }

  /** `Peak` is the maximum over all moments of the run. */
  lemma {:induction false} PeakIsMaximum(r: Run) returns (top: Run)
    ensures forall m :: Moment(m, r) ==> LiveAfter(m) <= Peak(r)
    ensures Moment(top, r) && LiveAfter(top) == Peak(r)
  {
    if r == Start {
      top := r;
    } else {
      top := PeakIsMaximum(r.before);
      if LiveAfter(r) > Peak(r.before) { top := r; }
    }
  }

  // ----- Chains of links -----

  function Head(s: seq<int>): int
  {
    if s == [] then 0 else s[0]
  }

  /** Cell `s[i]` links to the next address of `s`, the last one to nullptr. */
  ghost predicate LinkAt<T>(mem: map<int, Cell<T>>, s: seq<int>, i: int)
  {
    0 <= i < |s| && s[i] > 0 && s[i] in mem && mem[s[i]] == Next(Head(s[i + 1..]))
  }

  ghost predicate Chained<T>(mem: map<int, Cell<T>>, s: seq<int>)
  {
    forall i {:trigger LinkAt(mem, s, i)} :: 0 <= i < |s| ==> LinkAt(mem, s, i)
  }

  lemma ChainPush<T>(mem: map<int, Cell<T>>, s: seq<int>, p: int)
    requires Chained(mem, s) && p > 0 && p !in s
    ensures Chained(mem[p := Next(Head(s))], [p] + s)
  {
    var m, t := mem[p := Next(Head(s))], [p] + s;
    forall i | 0 <= i < |t| ensures LinkAt(m, t, i) {
      if i > 0 {
        assert LinkAt(mem, s, i - 1);
        assert t[i] == s[i - 1] && s[i - 1] in s && t[i + 1..] == s[i - 1 + 1..];
      } else {
        assert t[1..] == s;
      }
    }
  }

  lemma ChainKept<T>(mem: map<int, Cell<T>>, m: map<int, Cell<T>>, s: seq<int>)
    requires Chained(mem, s) && forall a :: a in s && a in mem ==> a in m && m[a] == mem[a]
    ensures Chained(m, s)
  {
    forall i | 0 <= i < |s| ensures LinkAt(m, s, i) {
      assert LinkAt(mem, s, i) && s[i] in s;
    }
  }

  /** The part of a chain from position `i` on. */
  ghost predicate ChainedFrom<T>(mem: map<int, Cell<T>>, s: seq<int>, i: int)
  {
    forall j {:trigger LinkAt(mem, s, j)} :: i <= j < |s| && j >= 0 ==> LinkAt(mem, s, j)
  }

  lemma ReleaseOne<T>(mem: map<int, Cell<T>>, s: seq<int>, i: nat)
    requires i < |s| && NoRepeats(s) && ChainedFrom(mem, s, i)
    ensures ChainedFrom(mem - {s[i]}, s, i + 1) && s[i..][0] == s[i] && s[i..][1..] == s[i + 1..]
    ensures s[..i + 1] == s[..i] + [s[i]]
  {
    forall j | i + 1 <= j < |s| ensures LinkAt(mem - {s[i]}, s, j) {
      assert LinkAt(mem, s, j);
    }
  }

  lemma ChainPop<T>(mem: map<int, Cell<T>>, s: seq<int>)
    requires Chained(mem, s) && s != []
    ensures Chained(mem, s[1..]) && s[0] > 0 && s[0] in mem && mem[s[0]] == Next(Head(s[1..]))
  {
    assert LinkAt(mem, s, 0);
    forall i | 0 <= i < |s[1..]| ensures LinkAt(mem, s[1..], i) {
      assert LinkAt(mem, s, i + 1);
      assert s[1..][i + 1..] == s[i + 1 + 1..];
    }
  }

  /** The cells at these addresses hold what they held. */
  ghost predicate Undisturbed<T>(slots: set<int>, before: map<int, Cell<T>>, after: map<int, Cell<T>>)
  {
    forall a :: a in slots && a in before ==> a in after && after[a] == before[a]
  }

  // ----- Slots of a chain of blocks -----

  /** Blocks do not overlap and do not start at nullptr. */
  ghost predicate Placed(l: Layout, blocks: seq<int>)
  {
    (forall i :: 0 <= i < |blocks| ==> blocks[i] > 0) &&
    forall i, j :: 0 <= i < j < |blocks| ==> l.Apart(blocks[i], blocks[j])
  }

  /** The first `n` slots of a block. */
  ghost function SlotsOf(l: Layout, block: int, n: nat): set<int>
  {
    if n == 0 then {} else SlotsOf(l, block, n - 1) + {l.SlotAt(block, n - 1)}
  }

  /** The slots that have been handed out at least once: the first `used` of the newest block,
      which comes first, and all of the others. */
  ghost function TouchedSlots(l: Layout, blocks: seq<int>, used: nat): set<int>
    requires l.Sizes()
  {
    if blocks == [] then {} else SlotsOf(l, blocks[0], used) + TouchedSlots(l, blocks[1..], l.SlotCount())
  }

  lemma {:induction false} SlotIn(l: Layout, block: int, n: nat, a: int) returns (k: nat)
    requires a in SlotsOf(l, block, n)
    ensures k < n && a == l.SlotAt(block, k)
  {
    if a == l.SlotAt(block, n - 1) {
      k := n - 1;
    } else {
      k := SlotIn(l, block, n - 1, a);
    }
  }

  lemma {:induction false} SlotOf(l: Layout, blocks: seq<int>, used: nat, a: int) returns (i: nat, k: nat)
    requires l.Sizes() && used <= l.SlotCount() && a in TouchedSlots(l, blocks, used)
    ensures i < |blocks| && k < l.SlotCount() && a == l.SlotAt(blocks[i], k) && (i == 0 ==> k < used)
  {
    if a in SlotsOf(l, blocks[0], used) {
      i := 0;
      k := SlotIn(l, blocks[0], used, a);
    } else {
      i, k := SlotOf(l, blocks[1..], l.SlotCount(), a);
      i := i + 1;
    }
  }

  /** A slot is not the header of any block, and not nullptr. */
  lemma NotAHeader(l: Layout, blocks: seq<int>, used: nat, a: int)
    requires l.Sizes() && Placed(l, blocks) && used <= l.SlotCount() && a in TouchedSlots(l, blocks, used)
    ensures a !in blocks && a > 0
  {
    var i, k := SlotOf(l, blocks, used, a);
    l.SlotInside(blocks[i], k);
    assert forall j :: 0 <= j < |blocks| && j != i ==> l.Apart(blocks[i], blocks[j]) || l.Apart(blocks[j], blocks[i]);
  }

  /** Bumping touches one slot more. */
  lemma TouchOne(l: Layout, blocks: seq<int>, used: nat)
    requires l.Sizes() && Placed(l, blocks) && blocks != [] && used < l.SlotCount()
    ensures l.SlotAt(blocks[0], used) !in TouchedSlots(l, blocks, used)
    ensures TouchedSlots(l, blocks, used + 1) == TouchedSlots(l, blocks, used) + {l.SlotAt(blocks[0], used)}
  {
    var p := l.SlotAt(blocks[0], used);
    if p in TouchedSlots(l, blocks, used) {
      var i, k := SlotOf(l, blocks, used, p);
      l.SlotsApart(blocks[0], used, blocks[i], k);
    }
  }

  /** A new block in front of a full one touches nothing. */
  lemma OpenBlock(l: Layout, blocks: seq<int>, b: int)
    requires l.Sizes()
    ensures TouchedSlots(l, [b] + blocks, 0) == TouchedSlots(l, blocks, l.SlotCount())
  {
  }

  /** How many slots that is. */
  function Bumped(l: Layout, blocks: nat, used: nat): nat
    requires l.Sizes()
  {
    if blocks == 0 then 0 else used + AllSlots(l, blocks - 1)
  }

  /** All the slots of `n` blocks. */
  function AllSlots(l: Layout, n: nat): nat
    requires l.Sizes()
  {
    if n == 0 then 0 else AllSlots(l, n - 1) + l.SlotCount()
  }

  lemma {:induction false} AllSlotsProduct(l: Layout, n: nat)
    requires l.Sizes()
    ensures AllSlots(l, n) == n * l.SlotCount()
  {
    if n > 0 {
      AllSlotsProduct(l, n - 1);
      Distribute(n - 1, 1, l.SlotCount());
    }
  }

  lemma {:induction false} BlockCount(l: Layout, b: int, n: nat)
    requires l.Sizes() && n <= l.SlotCount()
    ensures |SlotsOf(l, b, n)| == n
  {
    if n > 0 {
      BlockCount(l, b, n - 1);
      if l.SlotAt(b, n - 1) in SlotsOf(l, b, n - 1) {
        var k := SlotIn(l, b, n - 1, l.SlotAt(b, n - 1));
        l.SlotsApart(b, k, b, n - 1);
      }
    }
  }

  lemma {:induction false} TouchedCount(l: Layout, blocks: seq<int>, used: nat)
    requires l.Sizes() && Placed(l, blocks) && used <= l.SlotCount()
    ensures |TouchedSlots(l, blocks, used)| == Bumped(l, |blocks|, used)
  {
    if blocks != [] {
      var rest, n := blocks[1..], l.SlotCount();
      assert Placed(l, rest) by {
        assert forall i :: 0 <= i < |rest| ==> rest[i] == blocks[i + 1];
      }
      TouchedCount(l, rest, n);
      BlockCount(l, blocks[0], used);
      NewestApart(l, blocks, used);
    }
  }

  /** Slots of the newest block are not slots of another. */
  lemma NewestApart(l: Layout, blocks: seq<int>, used: nat)
    requires l.Sizes() && Placed(l, blocks) && blocks != [] && used <= l.SlotCount()
    ensures SlotsOf(l, blocks[0], used) !! TouchedSlots(l, blocks[1..], l.SlotCount())
  {
    var rest, n := blocks[1..], l.SlotCount();
    forall a | a in SlotsOf(l, blocks[0], used) && a in TouchedSlots(l, rest, n) ensures false {
      var k := SlotIn(l, blocks[0], used, a);
      var i, j := SlotOf(l, rest, n, a);
      assert l.Apart(blocks[0], blocks[i + 1]);
      l.SlotsApart(blocks[0], k, rest[i], j);
    }
  }

  lemma {:induction false} SlotsGrow(l: Layout, b: int, m: nat, n: nat)
    requires m <= n
    ensures SlotsOf(l, b, m) <= SlotsOf(l, b, n)
    decreases n
  {
    if m < n { SlotsGrow(l, b, m, n - 1); }
  }

  // ----- The invariant, on values -----

  ghost predicate BlocksFit<T>(l: Layout, mem: map<int, Cell<T>>, current: int, slot: int, last: int, blocks: seq<int>, used: nat)
  {
    l.Sizes() && Placed(l, blocks) && current == Head(blocks) && Chained(mem, blocks) &&
    if blocks == [] then slot == 0 && last == 0 && used == 0 else
      1 <= used <= l.SlotCount() && slot == l.SlotAt(blocks[0], used) && last == l.SlotAt(blocks[0], l.SlotCount())
  }

  /** The slots touched so far are the live ones and those on the free list, each in one of the
      two and once. */
  ghost predicate SlotsFit<T>(mem: map<int, Cell<T>>, head: int, free: seq<int>, live: set<int>, touched: set<int>)
  {
    head == Head(free) && Chained(mem, free) && NoRepeats(free) &&
    Elements(free) !! live && Elements(free) + live == touched
  }

  /** Every slot ever bumped is live or free, and there are as many as were ever live at once. */
  ghost predicate CountsFit(run: Run, live: nat, free: nat, bumped: int)
  {
    live == LiveAfter(run) && live + free == Peak(run) == bumped
  }

  lemma CountsReuse(run: Run, live: set<int>, free: seq<int>, bumped: int, p: int)
    requires CountsFit(run, |live|, |free|, bumped) && p !in live && free != []
    ensures CountsFit(Alloc(run), |live + {p}|, |free[1..]|, bumped)
  {
  }

  lemma CountsBump(run: Run, live: set<int>, bumped: int, p: int)
    requires CountsFit(run, |live|, 0, bumped) && p !in live
    ensures CountsFit(Alloc(run), |live + {p}|, 0, bumped + 1)
  {
  }

  lemma CountsReturn(run: Run, live: set<int>, free: seq<int>, bumped: int, p: int)
    requires CountsFit(run, |live|, |free|, bumped) && p in live
    ensures CountsFit(Dealloc(run), |live - {p}|, |[p] + free|, bumped)
  {
  }

  lemma ReuseFits<T>(mem: map<int, Cell<T>>, head: int, free: seq<int>, live: set<int>, touched: set<int>)
    requires SlotsFit(mem, head, free, live, touched) && head != 0
    ensures free != [] && head == free[0] > 0 && head !in live && head in mem && mem[head].Next?
    ensures SlotsFit(mem, mem[head].link, free[1..], live + {head}, touched)
  {
    ChainPop(mem, free);
    NoRepeatsTail(free);
    assert head in Elements(free);
  }

  lemma ReturnFits<T>(mem: map<int, Cell<T>>, head: int, free: seq<int>, live: set<int>, touched: set<int>, p: int)
    requires SlotsFit(mem, head, free, live, touched) && p in live && p > 0
    ensures SlotsFit(mem[p := Next(head)], p, [p] + free, live - {p}, touched)
  {
    assert p in free ==> p in Elements(free);
    ChainPush(mem, free, p);
    NoRepeatsPush(free, p);
  }

  lemma EmptyFreeList<T>(mem: map<int, Cell<T>>, head: int, free: seq<int>, live: set<int>, touched: set<int>)
    requires SlotsFit(mem, head, free, live, touched)
    ensures head == 0 <==> free == []
  {
    if free != [] { ChainPop(mem, free); }
  }

  /** The state after a new block has been opened, before its first slot is handed out. */
  ghost predicate Opened<T>(l: Layout, mem: map<int, Cell<T>>, current: int, slot: int, last: int, blocks: seq<int>)
  {
    l.Sizes() && Placed(l, blocks) && blocks != [] && current == blocks[0] && Chained(mem, blocks) &&
    slot == l.SlotAt(blocks[0], 0) && last == l.SlotAt(blocks[0], l.SlotCount())
  }

  lemma OpenFits<T>(l: Layout, mem: map<int, Cell<T>>, current: int, slot: int, last: int, blocks: seq<int>, used: nat, b: int)
    requires BlocksFit(l, mem, current, slot, last, blocks, used) && slot >= last
    requires b > 0 && forall i :: 0 <= i < |blocks| ==> l.Apart(b, blocks[i])
    ensures Opened(l, mem[b := Next(current)], b, l.SlotAt(b, 0), l.SlotAt(b, l.SlotCount()), [b] + blocks)
    ensures b !in TouchedSlots(l, blocks, used) && l.SlotCount() >= 1
    ensures TouchedSlots(l, [b] + blocks, 0) == TouchedSlots(l, blocks, used)
    ensures Bumped(l, |[b] + blocks|, 0) == Bumped(l, |blocks|, used)
  {
    FreshIsNew(l, blocks, used, b);
    ChainPush(mem, blocks, b);
    OpenBlock(l, blocks, b);
    l.SlotsFit();
    if blocks != [] {
      l.ReachesEnd(blocks[0], used);
    }
  }

  // ----- The pool -----

  class MemoryPool<T> {
    const layout: Layout
    var mem: map<int, Cell<T>>
    var currentBlock: int
    var currentSlot: int
    var lastSlot: int
    var freeSlots: int

    ghost var blocks: seq<int>    // the blocks obtained, newest first
    ghost var used: nat           // slots handed out of the newest block
    ghost var free: seq<int>      // the free list
    ghost var live: set<int>      // slots handed out and not returned
    ghost var run: Run            // the run so far
    ghost var ended: seq<T>       // the objects destroyed so far

    ghost predicate BlocksOk()
      reads this
    {
      BlocksFit(layout, mem, currentBlock, currentSlot, lastSlot, blocks, used)
    }

    ghost predicate SlotsOk()
      reads this
      requires layout.Sizes()
    {
      SlotsFit(mem, freeSlots, free, live, TouchedSlots(layout, blocks, used))
    }

    ghost predicate CountsOk()
      reads this
      requires layout.Sizes()
    {
      CountsFit(run, |live|, |free|, Bumped(layout, |blocks|, used))
    }

    ghost predicate Valid()
      reads this
    {
      BlocksOk() && SlotsOk() && CountsOk()
    }

    constructor (layout: Layout)
      requires layout.Sizes()
      ensures Valid() && this.layout == layout && blocks == [] && live == {} && free == [] && run == Start && ended == []
    {
      this.layout := layout;
      mem, currentBlock, currentSlot, lastSlot, freeSlots := map[], 0, 0, 0, 0;
      blocks, used, free, live, run, ended := [], 0, [], {}, Start, [];
    }

    /** What operator new promises about the block it returns. */
    ghost predicate FreshBlock(b: int)
      reads this
    {
      b > 0 && forall i :: 0 <= i < |blocks| ==> layout.Apart(b, blocks[i])
    }

    /** The state in which allocate asks operator new for a block. */
    predicate NeedsBlock()
      reads this
    {
      freeSlots == 0 && currentSlot >= lastSlot
    }

    /** Obtains a block and makes it the current one. `newBlock` is what operator new returns. */
    method NewBlock(newBlock: int)
      requires BlocksOk() && currentSlot >= lastSlot && FreshBlock(newBlock)
      modifies this`mem, this`currentBlock, this`currentSlot, this`lastSlot, this`blocks, this`used
      ensures Opened(layout, mem, currentBlock, currentSlot, lastSlot, blocks) && used == 0
      ensures blocks == [newBlock] + old(blocks) && mem == old(mem)[newBlock := Next(old(currentBlock))]
    {
      OpenFits(layout, mem, currentBlock, currentSlot, lastSlot, blocks, used, newBlock);
      mem := mem[newBlock := Next(currentBlock)];
      currentBlock := newBlock;
      var body := newBlock + layout.ptrSize;
      var bodySize := layout.blockSize - layout.ptrSize;
      var slotCount := bodySize / layout.slotSize;
      layout.SlotsFit();
      layout.SlotAddress(newBlock, slotCount);
      lastSlot := body + slotCount * layout.slotSize;
      currentSlot := body;
      blocks, used := [newBlock] + blocks, 0;
    }

    /** allocate. `newBlock` is what operator new returns if it is called. The free list is used
        first, last returned first; a block is obtained only when it and the block are empty. */
    method Allocate(newBlock: int) returns (p: int)
      requires Valid() && (NeedsBlock() ==> FreshBlock(newBlock))
      modifies this`mem, this`currentBlock, this`currentSlot, this`lastSlot, this`freeSlots
      modifies this`blocks, this`used, this`free, this`live, this`run
      ensures Valid() && p > 0 && p !in old(live) && live == old(live) + {p} && run == Alloc(old(run))
      ensures Undisturbed(old(live), old(mem), mem)
      ensures blocks == if old(NeedsBlock()) then [newBlock] + old(blocks) else old(blocks)
      ensures if old(free) != [] then p == old(free)[0] && free == old(free)[1..] else
        free == [] && p == if old(NeedsBlock()) then layout.SlotAt(newBlock, 0) else old(currentSlot)
    {
      if freeSlots != 0 {
        p := Reuse();
      } else {
        p := Bump(newBlock);
      }
    }

    method Reuse() returns (p: int)
      requires Valid() && freeSlots != 0
      modifies this`freeSlots, this`free, this`live, this`run
      ensures Valid() && p > 0 && p !in old(live) && live == old(live) + {p} && run == Alloc(old(run))
      ensures old(free) != [] && p == old(free)[0] && free == old(free)[1..]
    {
      ReuseOk();
      p := freeSlots;
      freeSlots := mem[freeSlots].link;
      Book(free[1..], p);
    }

    /** The slot `p` goes to the caller, `rest` stays free. */
    ghost method Book(rest: seq<int>, p: int)
      requires BlocksOk() && SlotsFit(mem, freeSlots, rest, live + {p}, TouchedSlots(layout, blocks, used))
      requires CountsFit(Alloc(run), |live + {p}|, |rest|, Bumped(layout, |blocks|, used))
      modifies this`free, this`live, this`run
      ensures Valid() && free == rest && live == old(live) + {p} && run == Alloc(old(run))
    {
      free, live, run := rest, live + {p}, Alloc(run);
    }

    lemma ReuseOk()
      requires Valid() && freeSlots != 0
      ensures free != [] && freeSlots == free[0] > 0 && freeSlots !in live && freeSlots in mem && mem[freeSlots].Next?
      ensures SlotsFit(mem, mem[freeSlots].link, free[1..], live + {freeSlots}, TouchedSlots(layout, blocks, used))
      ensures CountsFit(Alloc(run), |live + {freeSlots}|, |free[1..]|, Bumped(layout, |blocks|, used))
    {
      ReuseFits(mem, freeSlots, free, live, TouchedSlots(layout, blocks, used));
      CountsReuse(run, live, free, Bumped(layout, |blocks|, used), freeSlots);
    }

    method Bump(newBlock: int) returns (p: int)
      requires Valid() && freeSlots == 0 && (NeedsBlock() ==> FreshBlock(newBlock))
      modifies this`mem, this`currentBlock, this`currentSlot, this`lastSlot, this`blocks, this`used, this`live, this`run
      ensures Valid() && p > 0 && p !in old(live) && live == old(live) + {p} && run == Alloc(old(run))
      ensures Undisturbed(old(live), old(mem), mem)
      ensures blocks == if old(NeedsBlock()) then [newBlock] + old(blocks) else old(blocks)
      ensures free == [] && old(free) == []
      ensures p == if old(NeedsBlock()) then layout.SlotAt(newBlock, 0) else old(currentSlot)
    {
      EnsureSlot(newBlock);
      p := HandOut();
    }

    /** A new block, if the current one is exhausted. */
    method EnsureSlot(newBlock: int)
      requires Valid() && freeSlots == 0 && (NeedsBlock() ==> FreshBlock(newBlock))
      modifies this`mem, this`currentBlock, this`currentSlot, this`lastSlot, this`blocks, this`used
      ensures Ready() && old(free) == []
      ensures currentSlot == if old(NeedsBlock()) then layout.SlotAt(newBlock, 0) else old(currentSlot)
      ensures Undisturbed(live, old(mem), mem)
      ensures blocks == if old(NeedsBlock()) then [newBlock] + old(blocks) else old(blocks)
    {
      EmptyFreeList(mem, freeSlots, free, live, TouchedSlots(layout, blocks, used));
      if currentSlot >= lastSlot {
        OpenFits(layout, mem, currentBlock, currentSlot, lastSlot, blocks, used, newBlock);
        NewBlock(newBlock);
      } else {
        layout.ReachesEnd(blocks[0], used);
      }
    }

    /** The free list is empty, and the current block has a slot left. */
    ghost predicate Ready()
      reads this
    {
      layout.Sizes() && Placed(layout, blocks) && blocks != [] && currentBlock == blocks[0] && Chained(mem, blocks) &&
      used < layout.SlotCount() && currentSlot == layout.SlotAt(blocks[0], used) &&
      lastSlot == layout.SlotAt(blocks[0], layout.SlotCount()) &&
      free == [] && freeSlots == 0 && live == TouchedSlots(layout, blocks, used) &&
      CountsFit(run, |live|, 0, Bumped(layout, |blocks|, used))
    }

    /** The end of allocate: the next slot of the current block. */
    method HandOut() returns (p: int)
      requires Ready()
      modifies this`currentSlot, this`used, this`live, this`run
      ensures Valid() && p > 0 && p !in old(live) && live == old(live) + {p} && run == Alloc(old(run))
      ensures p == old(currentSlot)
    {
      HandOutOk();
      ghost var slots := TouchedSlots(layout, blocks, used + 1);
      p := currentSlot;
      currentSlot := currentSlot + layout.slotSize;
      used, live, run := used + 1, live + {p}, Alloc(run);
      assert BlocksFit(layout, mem, currentBlock, currentSlot, lastSlot, blocks, used);
      assert SlotsFit(mem, freeSlots, free, live, slots);
    }

    lemma HandOutOk()
      requires Ready()
      ensures currentSlot > 0 && currentSlot !in live
      ensures BlocksFit(layout, mem, currentBlock, currentSlot + layout.slotSize, lastSlot, blocks, used + 1)
      ensures SlotsFit(mem, 0, [], live + {currentSlot}, TouchedSlots(layout, blocks, used + 1))
      ensures CountsFit(Alloc(run), |live + {currentSlot}|, 0, Bumped(layout, |blocks|, used + 1))
    {
      TouchOne(layout, blocks, used);
      layout.ReachesEnd(blocks[0], used);
      CountsBump(run, live, Bumped(layout, |blocks|, used), currentSlot);
      NotAHeader(layout, blocks, used + 1, currentSlot);
    }

    /** deallocate: the slot becomes the head of the free list; nullptr is ignored. */
    method Deallocate(p: int)
      requires Valid() && (p == 0 || p in live)
      modifies this`mem, this`freeSlots, this`free, this`live, this`run
      ensures Valid()
      ensures if p == 0 then unchanged(this) else
        live == old(live) - {p} && free == [p] + old(free) && run == Dealloc(old(run))
      ensures Elements(free) + live == old(Elements(free) + live)
      ensures Undisturbed(live, old(mem), mem)
    {
      if p != 0 {
        Return(p);
      }
    }

    method Return(p: int)
      requires Valid() && p in live
      modifies this`mem, this`freeSlots, this`free, this`live, this`run
      ensures Valid() && mem == old(mem)[p := Next(old(freeSlots))]
      ensures live == old(live) - {p} && free == [p] + old(free) && run == Dealloc(old(run))
      ensures Elements(free) + live == old(Elements(free) + live)
    {
      ReturnOk(p);
      ghost var slots := TouchedSlots(layout, blocks, used);
      mem := mem[p := Next(freeSlots)];
      freeSlots := p;
      free, live, run := [p] + free, live - {p}, Dealloc(run);
      assert SlotsFit(mem, freeSlots, free, live, slots);
    }

    lemma ReturnOk(p: int)
      requires Valid() && p in live
      ensures Chained(mem[p := Next(freeSlots)], blocks)
      ensures SlotsFit(mem[p := Next(freeSlots)], p, [p] + free, live - {p}, TouchedSlots(layout, blocks, used))
      ensures CountsFit(Dealloc(run), |live - {p}|, |[p] + free|, Bumped(layout, |blocks|, used))
    {
      LiveIsPrivate(p);
      ReturnFits(mem, freeSlots, free, live, TouchedSlots(layout, blocks, used), p);
      ChainKept(mem, mem[p := Next(freeSlots)], blocks);
      CountsReturn(run, live, free, Bumped(layout, |blocks|, used), p);
    }

    /** construct. */
    method Construct(p: int, value: T)
      requires Valid() && p in live
      modifies this`mem
      ensures Valid() && mem == old(mem)[p := Element(value)]
    {
      LiveIsPrivate(p);
      ChainKept(mem, mem[p := Element(value)], blocks);
      ChainKept(mem, mem[p := Element(value)], free);
      mem := mem[p := Element(value)];
    }

    /** destroy: the destructor of the object in the slot runs, and there is no object any more. */
    method Destroy(p: int)
      requires Valid() && p in live && p in mem && mem[p].Element?
      modifies this`mem, this`ended
      ensures Valid() && mem == old(mem)[p := Raw] && ended == old(ended) + [old(mem)[p].value]
    {
      LiveIsPrivate(p);
      ChainKept(mem, mem[p := Raw], blocks);
      ChainKept(mem, mem[p := Raw], free);
      ended := ended + [mem[p].value];
      mem := mem[p := Raw];
    }

    /** A live slot holds no link of the pool. */
    lemma LiveIsPrivate(p: int)
      requires Valid() && p in live
      ensures p !in blocks && p !in free && p > 0
    {
      NotAHeader(layout, blocks, used, p);
      assert p in free ==> p in Elements(free);
    }

    /** The destructor's walk along the headers: every block is released, once. The header of a
        block is read before the block is released, and not after. */
    method ReleaseAll() returns (released: seq<int>)
      requires Valid()
      modifies this`mem
      ensures released == blocks && NoRepeats(released)
      ensures forall b :: b in released ==> b !in mem
    {
      released := [];
      var curr := currentBlock;
      ghost var i := 0;
      PlacedNoRepeats(layout, blocks);
      while curr != 0
        invariant 0 <= i <= |blocks| && released == blocks[..i] && curr == Head(blocks[i..])
        invariant ChainedFrom(mem, blocks, i)
        invariant forall b :: b in released ==> b !in mem
        decreases |blocks| - i
      {
        assert LinkAt(mem, blocks, i);
        ReleaseOne(mem, blocks, i);
        var prev := mem[curr].link;
        mem := mem - {curr};
        released := released + [curr];
        curr := prev;
        i := i + 1;
      }
      assert i < |blocks| ==> LinkAt(mem, blocks, i);
    }

    /** A live slot lies between the header and the end of one of the blocks, and overlaps no
        other live slot. */
    lemma LiveSlotsApart(a: int, c: int)
      requires Valid() && a in live && c in live && a != c
      ensures a + layout.slotSize <= c || c + layout.slotSize <= a
      ensures exists b :: b in blocks && b + layout.ptrSize <= a && a + layout.slotSize <= b + layout.blockSize
    {
      var i, j := SlotOf(layout, blocks, used, a);
      var k, n := SlotOf(layout, blocks, used, c);
      layout.SlotInside(blocks[i], j);
      assert blocks[i] in blocks;
      if i < k { assert layout.Apart(blocks[i], blocks[k]); }
      if k < i { assert layout.Apart(blocks[k], blocks[i]); }
      layout.SlotsApart(blocks[i], j, blocks[k], n);
    }

    /** Conservation: live, free and untouched slots partition the slots of all blocks, and the
        untouched ones are those of the newest block from number `used` on. */
    lemma Conservation()
      requires Valid() && blocks != []
      ensures var n := layout.SlotCount();
        var all, untouched := TouchedSlots(layout, blocks, n), SlotsOf(layout, blocks[0], n) - SlotsOf(layout, blocks[0], used);
        live !! Elements(free) && live !! untouched && Elements(free) !! untouched &&
        live + Elements(free) + untouched == all && |all| == |blocks| * n && |untouched| == n - used
    {
      var n := layout.SlotCount();
      TouchedCount(layout, blocks, n);
      AllSlotsProduct(layout, |blocks|);
      NewestApart(layout, blocks, n);
      SlotsGrow(layout, blocks[0], used, n);
      BlockCount(layout, blocks[0], n);
      BlockCount(layout, blocks[0], used);
      var rest := TouchedSlots(layout, blocks[1..], n);
      assert live + Elements(free) == SlotsOf(layout, blocks[0], used) + rest;
    }

    /** The number of blocks obtained is the peak number of live objects, divided by the slots
        in a block and rounded up. */
    lemma BlocksForPeak()
      requires Valid()
      ensures |blocks| == (Peak(run) + layout.SlotCount() - 1) / layout.SlotCount()
    {
      if blocks != [] { AllSlotsProduct(layout, |blocks| - 1); }
      layout.SlotsFit();
      CeilingDivision(|blocks|, layout.SlotCount(), used);
    }
  }

  // ----- Facts the methods use -----

  lemma FreshIsNew(l: Layout, blocks: seq<int>, used: nat, b: int)
    requires l.Sizes() && Placed(l, blocks) && used <= l.SlotCount() && b > 0
    requires forall i :: 0 <= i < |blocks| ==> l.Apart(b, blocks[i])
    ensures b !in blocks && b !in TouchedSlots(l, blocks, used) && Placed(l, [b] + blocks)
  {
    if b in TouchedSlots(l, blocks, used) {
      var i, k := SlotOf(l, blocks, used, b);
      l.SlotInside(blocks[i], k);
    }
    var s := [b] + blocks;
    forall i, j | 0 <= i < j < |s| ensures l.Apart(s[i], s[j]) {
      assert s[j] == blocks[j - 1];
      if i > 0 { assert s[i] == blocks[i - 1]; }
    }
  }

  lemma PlacedNoRepeats(l: Layout, blocks: seq<int>)
    requires l.Sizes() && Placed(l, blocks)
    ensures NoRepeats(blocks)
  {
  }

  lemma CeilingDivision(blocks: nat, n: nat, used: nat)
    requires n >= 1 && (if blocks == 0 then used == 0 else 1 <= used <= n)
    ensures blocks == ((if blocks == 0 then 0 else (blocks - 1) * n + used) + n - 1) / n
  {
    var x := (if blocks == 0 then 0 else (blocks - 1) * n + used) + n - 1;
    if blocks == 0 {
      QuotientUnique(x, n, 0, n - 1);
    } else {
      assert blocks * n == (blocks - 1) * n + n;
      QuotientUnique(x, n, blocks, used - 1);
    }
  }
}
