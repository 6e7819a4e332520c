/**
 The event log taken from without the lock that guards what is put in: one insertion at a time and one
 extraction, in their own steps. An insertion moves `IndexIn` before it copies its block.
 */
module EventRace {
  import opened S7Types
  import opened EventQueue

  /** The extraction in progress: it has found the queue not empty, and then has the block. */
  datatype Taking<T> = Away | Looked | Got(block: T)

  /** The ring, the block an insertion has made room for but not copied yet, and what was let in and taken out. */
  datatype Ring<T> = Ring(blocks: seq<T>, IndexIn: nat, IndexOut: nat, copying: Option<T>, taking: Taking<T>,
                          ins: seq<T>, outs: seq<T>)

  datatype Action<T> = Claim(x: T) | Copy | Look | Read | Done

  ghost predicate Indexed<T>(s: Ring<T>) {
    s.IndexIn < |s.blocks| && s.IndexOut < |s.blocks|
  }

  function Initial<T>(blocks: seq<T>): Ring<T> {
    Ring(blocks, 0, 0, None, Away, [], [])
  }

  function Step<T>(s: Ring<T>, a: Action<T>): (t: Ring<T>)
    requires Indexed(s)
    ensures Indexed(t) && |t.blocks| == |s.blocks|
  {
    var next := Next(s.IndexOut, |s.blocks|);
    match a
    case Claim(x) =>
      if s.copying.None? && Next(s.IndexIn, |s.blocks|) != s.IndexOut
      then s.(IndexIn := Next(s.IndexIn, |s.blocks|), copying := Some(x), ins := s.ins + [x]) else s
    case Copy => if s.copying.Some? then s.(blocks := s.blocks[s.IndexIn := s.copying.value], copying := None) else s
    case Look => if s.taking.Away? && s.IndexIn != s.IndexOut then s.(taking := Looked) else s
    case Read => if s.taking.Looked? then s.(taking := Got(s.blocks[next])) else s
    case Done => if s.taking.Got? then s.(taking := Away, IndexOut := next, outs := s.outs + [s.taking.block]) else s
  }

  function Run<T>(s: Ring<T>, acts: seq<Action<T>>): (t: Ring<T>)
    requires Indexed(s)
    ensures Indexed(t)
  {
    if acts == [] then s else Step(Run(s, acts[..|acts| - 1]), acts[|acts| - 1])
  }

  /** The blocks as they will be once the copy under way is made. */
  function Settled<T>(s: Ring<T>): (r: seq<T>)
    requires Indexed(s)
    ensures |r| == |s.blocks|
  {
    if s.copying.Some? then s.blocks[s.IndexIn := s.copying.value] else s.blocks
  }

  /** Settled, the ring holds what was let in and has not been taken out, and an extraction under way has something to take. */
  ghost predicate Inv<T>(s: Ring<T>) {
    && Indexed(s) && |s.outs| <= |s.ins|
    && Between(Settled(s), s.IndexOut, s.IndexIn) == s.ins[|s.outs|..]
    && (!s.taking.Away? ==> s.IndexIn != s.IndexOut)
  }

  /** The only entry in the queue is the one whose copy is still to be made. */
  predicate OnlyClaimed<T>(s: Ring<T>)
    requires Indexed(s)
  {
    s.copying.Some? && s.IndexIn == Next(s.IndexOut, |s.blocks|)
  }

  lemma FirstIsNext<T>(s: Ring<T>)
    requires Inv(s) && s.IndexIn != s.IndexOut
    ensures |s.outs| < |s.ins| && s.ins[|s.outs|] == Settled(s)[Next(s.IndexOut, |s.blocks|)]
    ensures Between(Settled(s), Next(s.IndexOut, |s.blocks|), s.IndexIn) == s.ins[|s.outs| + 1..]
  {
    ExtractShortens(Settled(s), s.IndexOut, s.IndexIn);
    hide Between;
    var rest := s.ins[|s.outs|..];
    assert rest[0] == s.ins[|s.outs|] && rest[1..] == s.ins[|s.outs| + 1..];
  }

  lemma StepKeepsInv<T>(s: Ring<T>, a: Action<T>)
    requires Inv(s)
    ensures Inv(Step(s, a))
  {
    match a
    case Claim(x) =>
      if s.copying.None? && Next(s.IndexIn, |s.blocks|) != s.IndexOut {
        InsertExtends(s.blocks, s.IndexOut, s.IndexIn, x, Settled(Step(s, a)));
        hide Between;
        assert (s.ins + [x])[|s.outs|..] == s.ins[|s.outs|..] + [x];
      }
    case Done =>
      if s.taking.Got? { FirstIsNext(s); }
    case _ =>
  }

  lemma {:induction false} RunKeepsInv<T>(s: Ring<T>, acts: seq<Action<T>>)
    requires Indexed(s) && Inv(s)
    ensures Inv(Run(s, acts))
  {
    hide Inv, Step;
    if acts != [] {
      RunKeepsInv(s, acts[..|acts| - 1]);
      StepKeepsInv(Run(s, acts[..|acts| - 1]), acts[|acts| - 1]);
    }
  }

  lemma InitialInv<T>(blocks: seq<T>)
    requires blocks != []
    ensures Inv(Initial(blocks))
  {
  }

  /**
   After any interleaving, the block an extraction reads is the entry that is due if and only if that entry has been
   copied, or the place it is to be copied to happens to hold the same.
   */
  lemma ReadsDueEntryIff<T>(blocks: seq<T>, acts: seq<Action<T>>)
    requires blocks != [] && Run(Initial(blocks), acts).taking.Looked?
    ensures var s := Run(Initial(blocks), acts);
            && |s.outs| < |s.ins|
            && (Step(s, Read).taking == Got(s.ins[|s.outs|])
                <==> !OnlyClaimed(s) || s.blocks[s.IndexIn] == s.copying.value)
  {
    InitialInv(blocks);
    RunKeepsInv(Initial(blocks), acts);
    FirstIsNext(Run(Initial(blocks), acts));
    hide Run, Between;
  }

  /** No block is read while the only entry in the queue is still to be copied. */
  ghost predicate Patient<T>(blocks: seq<T>, acts: seq<Action<T>>)
    requires blocks != []
  {
    forall i :: 0 <= i < |acts| && acts[i].Read? ==> !OnlyClaimed(Run(Initial(blocks), acts[..i]))
  }

  /** Then entries are taken out in the order they were let in, each once and as it was let in. */
  lemma {:induction false} PatientIsFirstInFirstOut<T>(blocks: seq<T>, acts: seq<Action<T>>)
    requires blocks != [] && Patient(blocks, acts)
    ensures var s := Run(Initial(blocks), acts);
            && s.outs <= s.ins && Between(Settled(s), s.IndexOut, s.IndexIn) == s.ins[|s.outs|..]
            && (s.taking.Got? ==> |s.outs| < |s.ins| && s.taking.block == s.ins[|s.outs|])
  {
    InitialInv(blocks);
    RunKeepsInv(Initial(blocks), acts);
    if acts != [] {
      var before, a := acts[..|acts| - 1], acts[|acts| - 1];
      assert forall i :: 0 <= i < |before| ==> acts[..i] == before[..i] && acts[i] == before[i];
      PatientIsFirstInFirstOut(blocks, before);
      var s := Run(Initial(blocks), before);
      RunKeepsInv(Initial(blocks), before);
      hide Run, Between;
      PatientStep(s, a);
    }
  }

  lemma PatientStep<T>(s: Ring<T>, a: Action<T>)
    requires Inv(s) && s.outs <= s.ins && (a.Read? ==> !OnlyClaimed(s))
    requires s.taking.Got? ==> |s.outs| < |s.ins| && s.taking.block == s.ins[|s.outs|]
    ensures var t := Step(s, a);
            && t.outs <= t.ins
            && (t.taking.Got? ==> |t.outs| < |t.ins| && t.taking.block == t.ins[|t.outs|])
  {
    if s.IndexIn != s.IndexOut { FirstIsNext(s); }
    hide Between;
  }

  /** An entry can be lost: taken between the move of `IndexIn` and the copy, the extraction hands out the old block. */
  lemma StaleBlock<T>(blocks: seq<T>, x: T)
    requires |blocks| >= 2
    ensures var s := Run(Initial(blocks), [Claim(x), Look, Read, Done, Copy]);
            s.ins == [x] && s.outs == [blocks[1]] && s.IndexIn == s.IndexOut && s.copying.None?
  {
    var s0 := Initial(blocks);
    assert Run(s0, []) == s0;
    RunMore(s0, [], Claim(x));
    assert [] + [Claim(x)] == [Claim(x)] && [Claim(x)] + [Look] == [Claim(x), Look];
    RunMore(s0, [Claim(x)], Look);
    assert [Claim(x), Look] + [Read] == [Claim(x), Look, Read];
    RunMore(s0, [Claim(x), Look], Read);
    assert [Claim(x), Look, Read] + [Done] == [Claim(x), Look, Read, Done];
    RunMore(s0, [Claim(x), Look, Read], Done);
    assert [Claim(x), Look, Read, Done] + [Copy] == [Claim(x), Look, Read, Done, Copy];
    RunMore(s0, [Claim(x), Look, Read, Done], Copy);
    hide Run;
  }

  lemma RunMore<T>(s: Ring<T>, acts: seq<Action<T>>, a: Action<T>)
    requires Indexed(s)
    ensures Run(s, acts + [a]) == Step(Run(s, acts), a)
  {
    hide Step;
    assert (acts + [a])[..|acts|] == acts;
  }
}
