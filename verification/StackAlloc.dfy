// The stack over the pool: its nodes live in pool slots, which the pool overwrites with
// free-list links once they are returned.

module StackAllocs {
  import opened Sequences
  import opened PoolLayout
  import opened MemoryPools

  datatype StackNode<T> = StackNode(data: T, prev: int)

  /** Cell `chain[i]` holds element `i`, the top being 0, and links to the node below. */
  ghost predicate NodeAt<T>(mem: map<int, Cell<StackNode<T>>>, chain: seq<int>, contents: seq<T>, i: int)
  {
    0 <= i < |chain| && i < |contents| && chain[i] in mem &&
    mem[chain[i]] == Element(StackNode(contents[i], Head(chain[i + 1..])))
  }

  ghost predicate Nodes<T>(mem: map<int, Cell<StackNode<T>>>, chain: seq<int>, contents: seq<T>)
  {
    |chain| == |contents| && NoRepeats(chain) &&
    (forall i :: 0 <= i < |chain| ==> chain[i] > 0) &&
    forall i {:trigger NodeAt(mem, chain, contents, i)} :: 0 <= i < |chain| ==> NodeAt(mem, chain, contents, i)
  }

  lemma NodesKept<T>(mem: map<int, Cell<StackNode<T>>>, m: map<int, Cell<StackNode<T>>>, chain: seq<int>, contents: seq<T>)
    requires Nodes(mem, chain, contents) && Undisturbed(Elements(chain), mem, m)
    ensures Nodes(m, chain, contents)
  {
    forall i | 0 <= i < |chain| ensures NodeAt(m, chain, contents, i) {
      assert NodeAt(mem, chain, contents, i) && chain[i] in Elements(chain);
    }
  }

  lemma NodesPush<T>(mem: map<int, Cell<StackNode<T>>>, chain: seq<int>, contents: seq<T>, p: int, x: T)
    requires Nodes(mem, chain, contents) && p > 0 && p !in Elements(chain)
    ensures Nodes(mem[p := Element(StackNode(x, Head(chain)))], [p] + chain, [x] + contents)
    ensures Elements([p] + chain) == Elements(chain) + {p}
  {
    var m, c, s := mem[p := Element(StackNode(x, Head(chain)))], [p] + chain, [x] + contents;
    NoRepeatsPush(chain, p);
    forall i | 0 <= i < |c| ensures NodeAt(m, c, s, i) {
      if i == 0 {
        assert c[1..] == chain;
      } else {
        assert NodeAt(mem, chain, contents, i - 1) && chain[i - 1] in Elements(chain);
        assert c[i + 1..] == chain[i - 1 + 1..];
      }
    }
  }

  lemma NodesPop<T>(mem: map<int, Cell<StackNode<T>>>, chain: seq<int>, contents: seq<T>)
    requires Nodes(mem, chain, contents) && chain != []
    ensures chain[0] in mem && mem[chain[0]] == Element(StackNode(contents[0], Head(chain[1..])))
    ensures Nodes(mem, chain[1..], contents[1..]) && Elements(chain[1..]) == Elements(chain) - {chain[0]}
  {
    assert NodeAt(mem, chain, contents, 0);
    NoRepeatsTail(chain);
    forall i | 0 <= i < |chain[1..]| ensures NodeAt(mem, chain[1..], contents[1..], i) {
      assert NodeAt(mem, chain, contents, i + 1);
      assert chain[1..][i + 1..] == chain[i + 1 + 1..];
    }
  }

  ghost function Data<T>(nodes: seq<StackNode<T>>): seq<T>
  {
    seq(|nodes|, i requires 0 <= i < |nodes| => nodes[i].data)
  }

  lemma MoveOne<T>(s: seq<T>, t: seq<T>)
    requires t != []
    ensures (s + [t[0]]) + t[1..] == s + t
  {
  }

  class StackAlloc<T> {
    const pool: MemoryPool<StackNode<T>>
    var head: int

    ghost var chain: seq<int>
    ghost var contents: seq<T>    // top first

    /** The nodes spell out `contents`, and the live slots of the pool are exactly the nodes. */
    ghost predicate Valid()
      reads this, pool
    {
      pool.Valid() && Nodes(pool.mem, chain, contents) && Elements(chain) == pool.live && head == Head(chain)
    }

    /** The elements whose nodes have been destroyed, in that order. */
    ghost function Destroyed(): seq<T>
      reads pool`ended
    {
      Data(pool.ended)
    }

    constructor (layout: Layout)
      requires layout.Sizes()
      ensures Valid() && contents == [] && fresh(pool) && pool.blocks == [] && pool.run == Start
      ensures pool.layout == layout && Destroyed() == []
    {
      pool := new MemoryPool(layout);
      head, chain, contents := 0, [], [];
    }

    method Empty() returns (e: bool)
      requires Valid()
      ensures e <==> contents == []
    {
      e := head == 0;
    }

    /** top: an empty stack has no node to read, so it is the caller's duty to ask first. */
    method Top() returns (x: T)
      requires Valid() && contents != []
      ensures x == contents[0]
    {
      NodesPop(pool.mem, chain, contents);
      x := pool.mem[head].value.data;
    }

    /** push. `newBlock` is what operator new returns if the pool asks for a block. */
    method Push(element: T, newBlock: int)
      requires Valid() && (pool.NeedsBlock() ==> pool.FreshBlock(newBlock))
      modifies this, pool
      ensures Valid() && contents == [element] + old(contents)
      ensures pool.run == Alloc(old(pool.run)) && Destroyed() == old(Destroyed())
      ensures pool.blocks == if old(pool.NeedsBlock()) then [newBlock] + old(pool.blocks) else old(pool.blocks)
    {
      var temp := Reserve(newBlock);
      Link(temp, element);
    }

    /** A slot for one more node; the nodes in use stay as they are. */
    method Reserve(newBlock: int) returns (temp: int)
      requires Valid() && (pool.NeedsBlock() ==> pool.FreshBlock(newBlock))
      modifies pool
      ensures pool.Valid() && Nodes(pool.mem, chain, contents)
      ensures temp > 0 && temp !in Elements(chain) && pool.live == Elements(chain) + {temp}
      ensures pool.run == Alloc(old(pool.run)) && pool.ended == old(pool.ended)
      ensures pool.blocks == if old(pool.NeedsBlock()) then [newBlock] + old(pool.blocks) else old(pool.blocks)
    {
      ghost var nodes := pool.live;
      temp := pool.Allocate(newBlock);
      assert Undisturbed(nodes, old(pool.mem), pool.mem) && nodes == Elements(chain);
      NodesKept(old(pool.mem), pool.mem, chain, contents);
    }

    /** The rest of push: a node in the new slot becomes the head. */
    method Link(temp: int, element: T)
      requires pool.Valid() && Nodes(pool.mem, chain, contents) && head == Head(chain)
      requires temp > 0 && temp !in Elements(chain) && pool.live == Elements(chain) + {temp}
      modifies this, pool`mem
      ensures Valid() && contents == [element] + old(contents)
    {
      NodesPush(pool.mem, chain, contents, temp, element);
      pool.Construct(temp, StackNode(element, head));
      head := temp;
      chain, contents := [temp] + chain, [element] + contents;
    }

    /** pop: the top element, or none where the program throws; an empty stack is left alone. */
    method Pop() returns (x: Option<T>)
      requires Valid()
      modifies this, pool
      ensures Valid()
      ensures if old(contents) == [] then x == None && contents == [] && pool.run == old(pool.run)
              else x == Some(old(contents)[0]) && contents == old(contents)[1..] && pool.run == Dealloc(old(pool.run))
      ensures Destroyed() == old(Destroyed()) + if old(contents) == [] then [] else [old(contents)[0]]
      ensures pool.blocks == old(pool.blocks)
    {
      var empty := Empty();
      if empty {
        return None;
      }
      NodesPop(pool.mem, chain, contents);
      x := Some(pool.mem[head].value.data);
      Drop();
    }

    /** The statements that pop and clear share: unlink the head node and return its slot. */
    method Drop()
      requires Valid() && contents != []
      modifies this, pool
      ensures Valid() && contents == old(contents)[1..] && pool.run == Dealloc(old(pool.run))
      ensures Destroyed() == old(Destroyed()) + [old(contents)[0]]
      ensures pool.blocks == old(pool.blocks) && pool.free == [old(head)] + old(pool.free)
      ensures Elements(pool.free) + pool.live == old(Elements(pool.free) + pool.live)
    {
      var temp := Unlink();
      Free(temp);
    }

    /** The head moves to the node below. */
    method Unlink() returns (temp: int)
      requires Valid() && contents != []
      modifies this
      ensures contents == old(contents)[1..] && temp == old(head) && head == Head(chain)
      ensures Nodes(pool.mem, chain, contents) && temp in pool.live && Elements(chain) == pool.live - {temp}
      ensures temp in pool.mem && pool.mem[temp].Element? && pool.mem[temp].value.data == old(contents)[0]
    {
      NodesPop(pool.mem, chain, contents);
      temp := head;
      head := pool.mem[head].value.prev;
      chain, contents := chain[1..], contents[1..];
    }

    /** Ends the life of the node in slot `p` and returns the slot; the nodes in use stay as they are. */
    method Free(p: int)
      requires pool.Valid() && p in pool.live && p in pool.mem && pool.mem[p].Element?
      requires Nodes(pool.mem, chain, contents) && Elements(chain) == pool.live - {p}
      modifies pool
      ensures unchanged(this) && pool.Valid() && pool.live == old(pool.live) - {p}
      ensures pool.free == [p] + old(pool.free) && pool.run == Dealloc(old(pool.run)) && pool.blocks == old(pool.blocks)
      ensures pool.ended == old(pool.ended) + [old(pool.mem)[p].value]
      ensures Nodes(pool.mem, chain, contents)
      ensures Elements(pool.free) + pool.live == old(Elements(pool.free) + pool.live)
    {
      pool.LiveIsPrivate(p);
      pool.Destroy(p);
      pool.Deallocate(p);
      NodesKept(old(pool.mem), pool.mem, chain, contents);
    }

    /** clear: every element is destroyed, top first, and every slot that held a node ends on the
        free list. */
    method Clear()
      requires Valid()
      modifies this, pool
      ensures Valid() && contents == [] && pool.live == {} && pool.blocks == old(pool.blocks)
      ensures Elements(pool.free) == old(Elements(pool.free) + pool.live)
      ensures Destroyed() == old(Destroyed() + contents) && Peak(pool.run) == old(Peak(pool.run))
    {
      ghost var all, slots, blocks, peak := Destroyed() + contents, Elements(pool.free) + pool.live, pool.blocks, Peak(pool.run);
      while head != 0
        invariant Valid() && pool.blocks == blocks && Peak(pool.run) == peak
        invariant Elements(pool.free) + pool.live == slots && Destroyed() + contents == all
        decreases |contents|
      {
        MoveOne(Destroyed(), contents);
        Drop();
      }
    }

    /** The destructor: clear, then the destructor of the pool releases each block once. */
    method Dispose() returns (released: seq<int>)
      requires Valid()
      modifies this, pool
      ensures contents == [] && released == old(pool.blocks) && NoRepeats(released)
      ensures Destroyed() == old(Destroyed() + contents)
    {
      Clear();
      released := pool.ReleaseAll();
    }

    /** Popping until the stack is empty yields the elements last in, first out. */
    method Drain() returns (out: seq<T>)
      requires Valid()
      modifies this, pool
      ensures Valid() && contents == [] && out == old(contents)
      ensures pool.blocks == old(pool.blocks) && Peak(pool.run) == old(Peak(pool.run))
    {
      out := [];
      var empty := Empty();
      while !empty
        invariant Valid() && (empty <==> contents == []) && out + contents == old(contents)
        invariant pool.blocks == old(pool.blocks) && Peak(pool.run) == old(Peak(pool.run))
        decreases |contents|
      {
        out := PopOnto(out);
        empty := Empty();
      }
    }

    /** One round. */
    method PopOnto(out: seq<T>) returns (more: seq<T>)
      requires Valid() && contents != []
      modifies this, pool
      ensures Valid() && contents == old(contents)[1..] && more + contents == out + old(contents)
      ensures pool.blocks == old(pool.blocks) && Peak(pool.run) == old(Peak(pool.run))
    {
      MoveOne(out, contents);
      var x := Pop();
      more := out + [x.value];
    }

    /** The pool holds as many blocks as the deepest the stack has ever been needs. */
    lemma BlocksForDepth()
      requires Valid()
      ensures |contents| == LiveAfter(pool.run) <= Peak(pool.run)
      ensures |pool.blocks| == (Peak(pool.run) + pool.layout.SlotCount() - 1) / pool.layout.SlotCount()
    {
      SizeOfElements(chain);
      pool.BlocksForPeak();
    }
  }
}
