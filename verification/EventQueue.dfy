/** The server's event log: a ring buffer of one block more than it holds, refining a bounded FIFO. */
module EventQueue {

  /** Position after `i` in a ring of `capacity` blocks. */
  function Next(i: nat, capacity: nat): nat {
    if i + 1 < capacity then i + 1 else 0
  }

  /** Blocks from the one after `from` up to `to`, going round. */
  function Between<T>(ring: seq<T>, from: nat, to: nat): seq<T>
    requires from < |ring| && to < |ring|
  {
    if from <= to then ring[from + 1..to + 1] else ring[from + 1..] + ring[..to + 1]
  }

  class TMsgEventQueue<T(0)> {
    var IndexIn: nat   // block inserted last
    var IndexOut: nat  // block extracted last
    const Max: nat
    const FCapacity: nat
    const Buffer: array<T>

    ghost predicate Valid()
      reads this
    {
      && 1 <= FCapacity == Buffer.Length && Max == FCapacity - 1
      && IndexIn < FCapacity && IndexOut < FCapacity
    }

    /** What is in the queue, oldest first. */
    ghost function Contents(): seq<T>
      reads this, Buffer
      requires Valid()
    {
      Between(Buffer[..], IndexOut, IndexIn)
    }

    constructor (Capacity: nat)
      requires Capacity >= 1
      ensures Valid() && FCapacity == Capacity && Contents() == [] && fresh(Buffer)
    {
      FCapacity := Capacity;
      Max := Capacity - 1;
      Buffer := new T[Capacity];
      IndexIn, IndexOut := 0, 0;
    }

    method Flush()
      requires Valid()
      modifies this`IndexIn, this`IndexOut
      ensures Valid() && Contents() == []
    {
      IndexIn, IndexOut := 0, 0;
    }

    predicate Empty()
      reads this
      requires Valid()
      ensures Empty() <==> Contents() == []
    {
      IndexIn == IndexOut
    }

    predicate Full()
      reads this
      requires Valid()
      ensures Full() <==> |Contents()| == FCapacity - 1
    {
      IndexOut == IndexIn + 1 || (IndexIn == Max && IndexOut == 0)
    }

    /** Appends, unless the queue is full; then nothing changes. */
    method Insert(data: T)
      requires Valid()
      modifies this`IndexIn, Buffer
      ensures Valid() && |Contents()| <= FCapacity - 1
      ensures Contents() == if |old(Contents())| < FCapacity - 1 then old(Contents()) + [data] else old(Contents())
    {
      if !Full() {
        IndexIn := if IndexIn < Max then IndexIn + 1 else 0;
        Buffer[IndexIn] := data;
        InsertExtends(old(Buffer[..]), IndexOut, old(IndexIn), data, Buffer[..]);
      }
    }

    /** Takes the oldest block, if there is one. */
    method Extract() returns (found: bool, data: T)
      requires Valid()
      modifies this`IndexOut
      ensures Valid() && found == (old(Contents()) != [])
      ensures if found then old(Contents()) == [data] + Contents() else Contents() == old(Contents())
    {
      found, data := false, Buffer[0];
      if !Empty() {
        var IdxOut := if IndexOut < Max then IndexOut + 1 else 0;
        ExtractShortens(Buffer[..], IndexOut, IndexIn);
        data := Buffer[IdxOut];
        IndexOut := IdxOut;
        found := true;
      }
    }
  }

  lemma InsertExtends<T>(ring: seq<T>, from: nat, to: nat, x: T, ring': seq<T>)
    requires from < |ring| && to < |ring| && Next(to, |ring|) != from
    requires ring' == ring[Next(to, |ring|) := x]
    ensures Between(ring', from, Next(to, |ring|)) == Between(ring, from, to) + [x]
  {
    if from > to {
      assert ring'[from + 1..] == ring[from + 1..];
    }
  }

  lemma ExtractShortens<T>(ring: seq<T>, from: nat, to: nat)
    requires from < |ring| && to < |ring| && from != to
    ensures Between(ring, from, to) == [ring[Next(from, |ring|)]] + Between(ring, Next(from, |ring|), to)
  {
    if from < to {
      SplitHead(ring, from + 1, to + 1);
    } else if from + 1 < |ring| {
      SplitHead(ring, from + 1, |ring|);
      var head, tail := [ring[from + 1]], ring[from + 2..|ring|];
      assert (head + tail) + ring[..to + 1] == head + (tail + ring[..to + 1]);
    } else {
      SplitHead(ring, 0, to + 1);
      assert ring[from + 1..] + ring[..to + 1] == ring[0..to + 1];
    }
  }

  lemma SplitHead<T>(s: seq<T>, lo: nat, hi: nat)
    requires lo < hi <= |s|
    ensures s[lo..hi] == [s[lo]] + s[lo + 1..hi]
  {
  }

  // ---------------------------------------------------------------- the bounded FIFO it refines

  datatype Op<T> = Insert(x: T) | Extract | Flush

  /** Queue contents and, in order, what was let in, what was taken out and how much a flush dropped. */
  datatype Fifo<T> = Fifo(q: seq<T>, ins: seq<T>, outs: seq<T>, dropped: seq<T>)

  function Apply<T>(f: Fifo<T>, op: Op<T>, capacity: nat): Fifo<T> {
    match op
    case Insert(x) => if |f.q| + 1 < capacity then f.(q := f.q + [x], ins := f.ins + [x]) else f
    case Extract => if f.q == [] then f else f.(q := f.q[1..], outs := f.outs + [f.q[0]])
    case Flush => f.(q := [], dropped := f.dropped + f.q)
  }

  function ApplyAll<T>(f: Fifo<T>, ops: seq<Op<T>>, capacity: nat): Fifo<T> {
    if ops == [] then f else Apply(ApplyAll(f, ops[..|ops| - 1], capacity), ops[|ops| - 1], capacity)
  }

  /** Any sequence of operations on the ring buffer does what the FIFO does, and hands out the same blocks. */
  method ReplayOnRing<T(0)>(queue: TMsgEventQueue<T>, ops: seq<Op<T>>) returns (outs: seq<T>)
    requires queue.Valid() && queue.Contents() == []
    modifies queue, queue.Buffer
    ensures queue.Valid()
    ensures var f := ApplyAll(Fifo([], [], [], []), ops, queue.FCapacity);
            queue.Contents() == f.q && outs == f.outs
  {
    outs := [];
    ghost var f: Fifo<T> := Fifo([], [], [], []);
    var i := 0;
    assert ops[..0] == [];
    while i < |ops|
      invariant 0 <= i <= |ops| && queue.Valid()
      invariant f == ApplyAll(Fifo([], [], [], []), ops[..i], queue.FCapacity)
      invariant queue.Contents() == f.q && outs == f.outs
    {
      assert ops[..i + 1][..i] == ops[..i];
      f := Apply(f, ops[i], queue.FCapacity);
      match ops[i] {
        case Insert(x) => queue.Insert(x);
        case Extract =>
          var found, data := queue.Extract();
          if found { outs := outs + [data]; }
        case Flush => queue.Flush();
      }
      i := i + 1;
    }
    assert ops[..|ops|] == ops;
  }

  predicate NoFlush<T>(ops: seq<Op<T>>) {
    forall i :: 0 <= i < |ops| ==> !ops[i].Flush?
  }

  /** Without a flush, what came out followed by what is still there is what was let in: first in, first out, nothing lost. */
  lemma {:induction false} FirstInFirstOut<T>(ops: seq<Op<T>>, capacity: nat)
    requires NoFlush(ops)
    ensures var f := ApplyAll(Fifo([], [], [], []), ops, capacity);
            f.outs + f.q == f.ins && f.dropped == []
  {
    if ops != [] {
      FirstInFirstOut(ops[..|ops| - 1], capacity);
    }
  }

  lemma ConservedStep<T>(f: Fifo<T>, op: Op<T>, capacity: nat)
    requires multiset(f.ins) == multiset(f.outs) + multiset(f.dropped) + multiset(f.q)
    requires |f.q| <= if capacity == 0 then 0 else capacity - 1
    ensures var g := Apply(f, op, capacity);
            && multiset(g.ins) == multiset(g.outs) + multiset(g.dropped) + multiset(g.q)
            && |g.q| <= if capacity == 0 then 0 else capacity - 1
  {
    if op.Extract? && f.q != [] {
      assert f.q == [f.q[0]] + f.q[1..];
    }
  }

  /** With flushes, nothing is lost or made up: counted with multiplicity, in is out, dropped and still there. */
  lemma {:induction false} Conserved<T>(ops: seq<Op<T>>, capacity: nat)
    ensures var f := ApplyAll(Fifo([], [], [], []), ops, capacity);
            && multiset(f.ins) == multiset(f.outs) + multiset(f.dropped) + multiset(f.q)
            && |f.q| <= if capacity == 0 then 0 else capacity - 1
  {
    hide Apply;
    if ops != [] {
      Conserved(ops[..|ops| - 1], capacity);
      ConservedStep(ApplyAll(Fifo([], [], [], []), ops[..|ops| - 1], capacity), ops[|ops| - 1], capacity);
    }
  }
}
