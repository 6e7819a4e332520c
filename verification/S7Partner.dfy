/**
 The partner object: its send buffer and the loop that cuts it into frames, its receive buffer and
 the status fields of the sequence being received, each method proved against BlockTransfer.
 */
module S7Partner {
  import opened Arithmetic
  import opened S7Types
  import opened BlockTransfer

  /** The peer's reply to a frame, if the exchange went through. */
  datatype Reply = NoReply | Reply(seqOut: byte, err: word)

  predicate Accepts(reply: Reply) {
    reply.Reply? && reply.err == 0
  }

  datatype RecvStatus = RecvStatus(First: bool, Done: bool, Offset: nat, TotalLength: word, In_R_ID: longword, Seq_Out: byte)

  const CLEARED := RecvStatus(false, false, 0, 0, 0, 0)

  /** The telegram number taken with the counter at `w`. */
  function NextWord(w: word): (n: word)
    ensures n < 0xFFFF
  {
    if w == 0xFFFF then 0 else w
  }

  /** The counter after `i` telegrams. */
  function CounterAfter(w: word, i: nat): word {
    if i == 0 then w else NextWord(CounterAfter(w, i - 1)) + 1
  }

  function ByteNext(x: byte): byte {
    var y: byte := (x + 1) % 0x100;
    if y == 0xFF then 1 else y
  }

  function BytesAfter(x: byte, i: nat): byte {
    if i == 0 then x else ByteNext(BytesAfter(x, i - 1))
  }

  /** Sequence number frame `i` echoes: the one in the reply before. */
  function SeqIn(replies: nat -> Reply, i: nat): byte {
    if i == 0 || replies(i - 1).NoReply? then 0 else replies(i - 1).seqOut
  }

  /** Header numbers of frame `i`: a lone frame carries identifier 0, the frames of a sequence never do. */
  function TagOf(counter: word, next: byte, replies: nat -> Reply, lone: bool, i: nat): Tag {
    Tag(NextWord(CounterAfter(counter, i)), SeqIn(replies, i), if lone then 0 else BytesAfter(next, i + 1))
  }

  /** Sequence identifiers never hit 0, the mark of a lone frame, and never repeat between neighbours. */
  lemma {:induction false} IdentifiersAdvance(x: byte, i: nat)
    requires x < 0xFF
    ensures 0 < BytesAfter(x, i + 1) < 0xFF
    ensures BytesAfter(x, i + 1) != BytesAfter(x, i) < 0xFF
  {
    if i > 0 { IdentifiersAdvance(x, i - 1); }
  }

  /** A frame's identifier is 0 exactly when it is the only one of its block. */
  lemma LoneFrameIff(counter: word, next: byte, replies: nat -> Reply, lone: bool, i: nat)
    requires next < 0xFF
    ensures TagOf(counter, next, replies, lone, i).idSeq == 0 <==> lone
  {
    IdentifiersAdvance(next, i);
  }

  /** Frames the sender gets through: up to and including the first one that is not accepted. */
  function SentFrames(count: nat, replies: nat -> Reply, i: nat): (n: nat)
    requires i <= count
    ensures i <= n <= count && (i < count ==> i < n)
    ensures forall j :: i <= j < n - 1 ==> Accepts(replies(j))
    ensures i < n < count ==> !Accepts(replies(n - 1))
    decreases count - i
  {
    if i == count then i else if !Accepts(replies(i)) then i + 1 else SentFrames(count, replies, i + 1)
  }

  /** The wire carries the frames of the block in order, numbered, each within the negotiated PDU. */
  ghost predicate OnWire(b: Block, pduLength: nat, counter: word, next: byte, replies: nat -> Reply, lone: bool,
                         wire: seq<bytes>)
    requires 36 < pduLength
  {
    forall i :: 0 <= i < |wire| ==>
      && wire[i] == FrameOf(b, pduLength, i, TagOf(counter, next, replies, lone, i))
      && |wire[i]| <= pduLength
  }

  /** The counter starts again after 65535 numbers, the identifiers after 254. */
  lemma {:induction false} NumbersAsSums(counter: word, next: byte, i: nat)
    requires next < 0xFF
    ensures NextWord(CounterAfter(counter, i)) == (counter + i) % 0xFFFF
    ensures BytesAfter(next, i + 1) == (next + i) % 0xFE + 1
  {
    hide NextWord, ByteNext, CounterAfter, BytesAfter;
    NumbersStart(counter, next);
    if i > 0 {
      NumbersAsSums(counter, next, i - 1);
      NumbersStep(counter, next, i);
      OneMoreWord(counter + i);
      OneMoreByte(next + i);
    }
  }

  lemma NumbersStart(counter: word, next: byte)
    requires next < 0xFF
    ensures NextWord(CounterAfter(counter, 0)) == counter % 0xFFFF && BytesAfter(next, 1) == next % 0xFE + 1
  {
    assert BytesAfter(next, 1) == ByteNext(BytesAfter(next, 0));
  }

  lemma NumbersStep(counter: word, next: byte, i: nat)
    requires i > 0
    ensures NextWord(CounterAfter(counter, i))
            == if NextWord(CounterAfter(counter, i - 1)) == 0xFFFE then 0 else NextWord(CounterAfter(counter, i - 1)) + 1
    ensures BytesAfter(next, i) < 0xFF ==>
              BytesAfter(next, i + 1) == if BytesAfter(next, i) == 0xFE then 1 else BytesAfter(next, i) + 1
  {
    assert BytesAfter(next, i + 1) == ByteNext(BytesAfter(next, i));
  }

  lemma OneMoreWord(n: nat)
    requires n > 0
    ensures n % 0xFFFF == if (n - 1) % 0xFFFF == 0xFFFE then 0 else (n - 1) % 0xFFFF + 1
  {
  }

  lemma OneMoreByte(n: nat)
    requires n > 0
    ensures n % 0xFE == if (n - 1) % 0xFE == 0xFD then 0 else (n - 1) % 0xFE + 1
  {
  }

  lemma {:induction false} OffsetAsProduct(size: nat, pduLength: nat, i: nat)
    requires 36 < pduLength && i < CountFrom(size, pduLength, 0)
    ensures OffsetOf(size, pduLength, i) == (if i == 0 then 0 else pduLength - 36 + (i - 1) * (pduLength - 34)) < size
    ensures CountFrom(size, pduLength, OffsetOf(size, pduLength, i)) == CountFrom(size, pduLength, 0) - i
  {
    if i > 0 {
      OffsetAsProduct(size, pduLength, i - 1);
      var before := OffsetOf(size, pduLength, i - 1);
      CountPositive(size, pduLength, before + SliceLength(size, pduLength, before));
      if i > 1 { assert (i - 2) * (pduLength - 34) + (pduLength - 34) == (i - 1) * (pduLength - 34); }
    }
  }

  /**
   Every frame of a block on the wire, byte by byte: where its data lies in the block, what its header says, how it is
   numbered and what it echoes from the reply before.
   */
  lemma WireBytes(b: Block, pduLength: nat, counter: word, next: byte, replies: nat -> Reply, wire: seq<bytes>,
                  i: nat, off: nat, n: int)
    requires 36 < pduLength < 0x1_0000 && next < 0xFF && i < |wire| <= CountFrom(|b.data|, pduLength, 0)
    requires off == if i == 0 then 0 else pduLength - 36 + (i - 1) * (pduLength - 34)
    requires n == var room := if i == 0 then pduLength - 36 else pduLength - 34;
                  if |b.data| - off < room then |b.data| - off else room
    requires OnWire(b, pduLength, counter, next, replies, CountFrom(|b.data|, pduLength, 0) == 1, wire)
    requires forall j :: 0 <= j < i ==> replies(j).Reply?
    ensures var f, size := wire[i], |b.data|;
            var extra := if i == 0 then 2 else 0;
            && 0 < n && off + n <= size && |f| == 34 + extra + n <= pduLength
            && f[34 + extra..] == b.data[off..off + n]
            && (i == 0 ==> f[34] as int * 0x100 + f[35] as int == size % 0x1_0000)
            && f[0] == 0x32 && f[1] == 7 && f[2] == 0 && f[3] == 0
            && f[4] as int + f[5] as int * 0x100 == (counter + i) % 0xFFFF
            && f[6] as int * 0x100 + f[7] as int == 12
            && f[8] as int * 0x100 + f[9] as int == 12 + n + extra
            && 10 + (f[6] as int * 0x100 + f[7] as int) + (f[8] as int * 0x100 + f[9] as int) == |f|
            && f[10] == 0x00 && f[11] == 0x01 && f[12] == 0x12 && f[13] == 0x08 && f[14] == 0x12 && f[15] == 0x46 && f[16] == 0x01
            && f[17] == (if i == 0 then 0 else replies(i - 1).seqOut)
            && f[18] as int == (if size <= pduLength - 36 then 0 else (next + i) % 0xFE + 1)
            && f[19] == (if off + n == size then 0 else 1)
            && f[20] == 0 && f[21] == 0 && f[22] == 0xFF && f[23] == 0x09
            && f[24] as int * 0x100 + f[25] as int == n + 8 + extra
            && f[26] == 0x12 && f[27] == 0x06 && f[28] == 0x13 && f[29] == 0x00
            && f[30] as int * 0x100_0000 + f[31] as int * 0x1_0000 + f[32] as int * 0x100 + f[33] as int == b.rid
  {
    hide Frame, CountFrom, OffsetOf, BytesAfter, CounterAfter, NextWord;
    NumbersAsSums(counter, next, i);
    OffsetAsProduct(|b.data|, pduLength, i);
    OffsetIsStart(|b.data|, pduLength, i);
    LoneIff(|b.data|, pduLength);
    FrameBytes(b, off, n, TagOf(counter, next, replies, CountFrom(|b.data|, pduLength, 0) == 1, i));
  }

  /** What each frame's header says of its length is true. */
  lemma WireLengths(b: Block, pduLength: nat, counter: word, next: byte, replies: nat -> Reply, wire: seq<bytes>)
    requires 36 < pduLength < 0x1_0000 && next < 0xFF && |wire| == SentFrames(CountFrom(|b.data|, pduLength, 0), replies, 0)
    requires OnWire(b, pduLength, counter, next, replies, CountFrom(|b.data|, pduLength, 0) == 1, wire)
    ensures forall i :: 0 <= i < |wire| ==>
              |wire[i]| >= 34 && WordAt(wire[i], 6) == 12 && 10 + WordAt(wire[i], 6) + WordAt(wire[i], 8) == |wire[i]|
  {
    hide CountFrom, OnWire;
    forall i | 0 <= i < |wire|
      ensures |wire[i]| >= 34 && WordAt(wire[i], 6) == 12 && 10 + WordAt(wire[i], 6) + WordAt(wire[i], 8) == |wire[i]|
    {
      var off := if i == 0 then 0 else pduLength - 36 + (i - 1) * (pduLength - 34);
      var room := if i == 0 then pduLength - 36 else pduLength - 34;
      var n := if |b.data| - off < room then |b.data| - off else room;
      WireBytes(b, pduLength, counter, next, replies, wire, i, off, n);
    }
  }

  lemma OffsetIsStart(size: nat, pduLength: nat, i: nat)
    requires 36 < pduLength && i < CountFrom(size, pduLength, 0)
    ensures OffsetOf(size, pduLength, i) == 0 <==> i == 0
  {
    OffsetAsProduct(size, pduLength, i);
    if i > 0 { assert (i - 1) * (pduLength - 34) >= 0; }
  }

  lemma LoneIff(size: nat, pduLength: nat)
    requires 36 < pduLength && size > 0
    ensures CountFrom(size, pduLength, 0) == 1 <==> size <= pduLength - 36
  {
    var n := SliceLength(size, pduLength, 0);
    CountPositive(size, pduLength, n);
  }

  lemma OnWireNext(b: Block, pduLength: nat, counter: word, next: byte, replies: nat -> Reply, lone: bool,
                   wire: seq<bytes>, off: nat, n: nat, frame: bytes)
    requires 36 < pduLength && OnWire(b, pduLength, counter, next, replies, lone, wire)
    requires off < |b.data| && off == OffsetOf(|b.data|, pduLength, |wire|) && n == SliceLength(|b.data|, pduLength, off)
    requires off + n <= |b.data|
    requires frame == Frame(b, off, n, Tag(NextWord(CounterAfter(counter, |wire|)), SeqIn(replies, |wire|),
                                           if lone then 0 else BytesAfter(next, |wire| + 1)))
    ensures OnWire(b, pduLength, counter, next, replies, lone, wire + [frame])
  {
    hide Frame;
    FrameIs(b, pduLength, |wire|, TagOf(counter, next, replies, lone, |wire|), off, n);
  }

  lemma OnWireEmpty(b: Block, pduLength: nat, counter: word, next: byte, replies: nat -> Reply)
    requires 36 < pduLength
    ensures forall lone :: OnWire(b, pduLength, counter, next, replies, lone, [])
  {
  }

  class TSnap7Partner {
    var PDULength: nat
    var Linked: bool
    var LastError: int
    var cntword: word
    var NextByte: byte
    var FSendPending: bool
    var FRecvPending: bool
    var FRecvStatus: RecvStatus
    var FRecvLast: Last
    const TxBuffer: array<byte>
    var TxSize: nat
    var TxRid: longword
    const RxBuffer: array<byte>
    var RecvEvt: bool
    var SendEvt: bool
    var BytesSent: longword
    var BytesRecv: longword
    var Wild: bool  // a copy went past the telegram or the receive buffer

    ghost predicate Valid()
      reads this`TxSize, this`PDULength, this`NextByte, this`FRecvStatus, this`FRecvPending, this`FRecvLast, this`Wild
    {
      && TxBuffer.Length == MAX_BLOCK && RxBuffer.Length == RX_SIZE && TxBuffer != RxBuffer
      && TxSize <= MAX_BLOCK && 36 < PDULength < 0x1_0000 && NextByte < 0xFF
      && !FRecvStatus.First
      && (!FRecvPending ==> FRecvStatus == CLEARED && !Wild)
      && (FRecvPending ==> FRecvLast == Last(false, 0, 0, 0))
    }

    /** The receiver this object implements. */
    ghost function State(): (r: Receiver)
      reads this`FRecvPending, this`FRecvStatus, this`FRecvLast, this`RecvEvt, this`BytesRecv, this`Wild, RxBuffer
      ensures r.pending == FRecvPending
    {
      Receiver(FRecvPending, FRecvStatus.Offset, FRecvStatus.TotalLength, FRecvStatus.In_R_ID, RxBuffer[..], Wild,
               FRecvLast, RecvEvt, BytesRecv)
    }

    lemma ValidSizes()
      requires Valid()
      ensures TxBuffer.Length == MAX_BLOCK && TxSize <= MAX_BLOCK && 36 < PDULength < 0x1_0000 && NextByte < 0xFF
      ensures RxBuffer.Length == RX_SIZE && TxBuffer != RxBuffer
    {
    }

    /** With nothing pending there is nothing to clear. */
    lemma NothingToClear()
      requires Valid()
      ensures !FRecvPending ==> Clear(State()) == State()
    {
    }

    /** The block waiting in the send buffer. */
    ghost function Outgoing(): (b: Block)
      reads this`TxSize, this`TxRid, TxBuffer
      requires TxSize <= TxBuffer.Length
      ensures |b.data| == TxSize
    {
      Block(TxRid, TxBuffer[..TxSize])
    }

    constructor (pduLength: nat)
      requires 36 < pduLength < 0x1_0000
      ensures Valid() && PDULength == pduLength && fresh(TxBuffer) && fresh(RxBuffer)
      ensures TxBuffer.Length == 65536 && RxBuffer.Length == 65544
      ensures Related(Idle, State()) && State().last == NOTHING_YET && BytesRecv == 0 && !FSendPending
    {
      PDULength := pduLength;
      Linked, LastError, cntword, NextByte := false, 0, 0, 0;
      FSendPending, FRecvPending, FRecvStatus, FRecvLast := false, false, CLEARED, Last(false, 0, 0, 0);
      TxBuffer := new byte[MAX_BLOCK];
      TxSize, TxRid := 0, 0;
      RxBuffer := new byte[RX_SIZE];
      RecvEvt, SendEvt, BytesSent, BytesRecv, Wild := false, false, 0, 0, false;
    }

    method GetNextByte() returns (b: byte)
      modifies this`NextByte
      ensures b == NextByte == ByteNext(old(NextByte))
      ensures old(NextByte) < 0xFF ==> 0 < b < 0xFF && b != old(NextByte)  // never the mark of a lone frame, never the last one
    {
      NextByte := (NextByte + 1) % 0x100;
      if NextByte == 0xFF { NextByte := 1; }
      b := NextByte;
    }

    method GetNextWord() returns (w: word)
      modifies this`cntword
      ensures w == NextWord(old(cntword)) && cntword == w + 1
    {
      if cntword == 0xFFFF { cntword := 0; }
      w := cntword;
      cntword := cntword + 1;
    }

    method ClearRecv()
      modifies this`FRecvStatus, this`FRecvPending, this`Wild
      ensures State() == Clear(old(State()))
      ensures FRecvStatus == CLEARED && !FRecvPending && !Wild
    {
      FRecvStatus := CLEARED;
      FRecvPending := false;
      Wild := false;
    }

    // -------------------------------------------------------------- sending

    /** Queues a block; refused while one is queued or the partner is not linked. */
    method AsBSend(rid: longword, data: bytes) returns (result: int)
      requires Valid() && |data| <= MAX_BLOCK
      modifies this`TxSize, this`TxRid, this`FSendPending, this`LastError, this`SendEvt, TxBuffer
      ensures Valid() && State() == old(State())
      ensures result == if !Linked then 0x0060_0000 else if old(FSendPending) then 0x0070_0000 else 0
      ensures if result == 0 then FSendPending && Outgoing() == Block(rid, data)
              else Outgoing() == old(Outgoing()) && FSendPending == old(FSendPending)
    {
      if !Linked {
        LastError := ERR_PAR_NOT_LINKED;
        return ERR_PAR_NOT_LINKED;
      }
      if FSendPending { return ERR_PAR_BUSY; }
      var i := 0;
      while i < |data|
        modifies TxBuffer
        invariant 0 <= i <= |data| && TxBuffer[..i] == data[..i]
      {
        TxBuffer[i] := data[i];
        i := i + 1;
      }
      TxRid, TxSize := rid, |data|;
      SendEvt, FSendPending := false, true;
      assert data[..|data|] == data;
      return 0;
    }

    /** Builds the frame with the `Slice` bytes from `Offset` on, numbering it as it goes. */
    method SendSlice(Offset: nat, Slice: nat, First: bool, Last: bool, Seq_IN: byte) returns (frame: bytes)
      requires Valid() && Offset + Slice <= TxSize && (First <==> Offset == 0) && (Last <==> Offset + Slice == TxSize)
      modifies this`cntword, this`NextByte
      ensures Valid() && cntword == NextWord(old(cntword)) + 1
      ensures NextByte == if First && Last then old(NextByte) else ByteNext(old(NextByte))
      ensures frame == Frame(Outgoing(), Offset, Slice,
                             Tag(NextWord(old(cntword)), Seq_IN, if First && Last then 0 else NextByte))
    {
      var sequence := GetNextWord();
      var idSeq: byte := 0;
      if !(First && Last) { idSeq := GetNextByte(); }
      frame := FrameHead(Tag(sequence, Seq_IN, idSeq), Last, Slice, if First then 2 else 0, TxRid);
      if First { frame := frame + Be16(TxSize % 0x1_0000); }
      hide FrameHead, Be16;
      ghost var b := Outgoing();
      SliceOfPrefix(TxBuffer[..], TxSize, Offset, Offset + Slice);
      assert TxBuffer[..][..TxSize] == b.data && TxBuffer[..][Offset..Offset + Slice] == TxBuffer[Offset..Offset + Slice];
      frame := frame + TxBuffer[Offset..Offset + Slice];
    }

    /**
     Sends the queued block. The wire carries frame after frame of the block, each within the negotiated
     PDU, up to the first one the peer does not accept; the result tells whether all of them were accepted.
     */
    method BlockSend(replies: nat -> Reply) returns (ok: bool, wire: seq<bytes>)
      requires Valid()
      modifies this`LastError, this`cntword, this`NextByte, this`BytesSent
      ensures Valid() && Outgoing() == old(Outgoing()) && State() == old(State())
      ensures var b, count := Outgoing(), CountFrom(TxSize, PDULength, 0);
              && |wire| == SentFrames(count, replies, 0)
              && (ok <==> forall i :: 0 <= i < count ==> Accepts(replies(i)))
              && OnWire(b, PDULength, old(cntword), old(NextByte), replies, count == 1, wire)
      ensures var count := if TxSize == 0 then 0 else if TxSize <= PDULength - 36 then 1
                           else 1 + (TxSize - (PDULength - 36) + PDULength - 35) / (PDULength - 34);
              && |wire| <= count
              && (forall i :: 0 <= i < |wire| - 1 ==> replies(i).Reply? && replies(i).err == 0)
              && (|wire| < count ==> |wire| > 0 && (replies(|wire| - 1).NoReply? || replies(|wire| - 1).err != 0))
              && (ok <==> forall i :: 0 <= i < count ==> replies(i).Reply? && replies(i).err == 0)
      ensures forall i :: 0 <= i < |wire| ==>
                |wire[i]| >= 34 && WordAt(wire[i], 6) == 12 && 10 + WordAt(wire[i], 6) + WordAt(wire[i], 8) == |wire[i]|
      ensures BytesSent == if ok then (old(BytesSent) + TxSize) % 0x1_0000_0000 else old(BytesSent)
      ensures LastError == if ok then 0 else if replies(|wire| - 1).NoReply? then 0x00E0_0000 else 0x00C0_0000
    {
      hide CountFrom, Accepts, Accepted, OnWire, ErrorOf, WordAt, State, Outgoing, Valid;
      ValidSizes();
      wire := SendFrames(replies);
      WireLengths(Outgoing(), PDULength, old(cntword), old(NextByte), replies, wire);
      ok := LastError == 0;
      if TxSize > 0 { FrameCount(TxSize, PDULength); } else { NoFrames(PDULength); }
      SentWhileAccepted(CountFrom(TxSize, PDULength, 0), replies, 0);
      if !ok { ErrorOfIs(replies(|wire| - 1)); }
      if ok { BytesSent := (BytesSent + TxSize) % 0x1_0000_0000; }
    }

    /** The loop: one frame at a time until the block is sent or a frame is not accepted. */
    method SendFrames(replies: nat -> Reply) returns (wire: seq<bytes>)
      requires Valid()
      modifies this`LastError, this`cntword, this`NextByte
      ensures Valid()
      ensures var count := CountFrom(TxSize, PDULength, 0);
              && |wire| == SentFrames(count, replies, 0)
              && (LastError == 0 <==> forall i :: 0 <= i < count ==> Accepts(replies(i)))
              && (LastError != 0 ==> |wire| > 0 && LastError == ErrorOf(replies(|wire| - 1)))
              && OnWire(Outgoing(), PDULength, old(cntword), old(NextByte), replies, count == 1, wire)
    {
      hide CountFrom, OffsetOf, SliceLength, Frame, CounterAfter, BytesAfter, Accepts, Accepted, OnWire, TagOf, ErrorOf,
        SeqIn, State, Outgoing, NextWord, ByteNext, Valid;
      ValidSizes();
      LastError := 0;
      wire := [];
      ghost var b := Outgoing();
      ghost var count := CountFrom(TxSize, PDULength, 0);
      SendStart(b, PDULength, cntword, NextByte, replies, count == 1);
      var TotalSize, Offset, MaxSlice := TxSize, 0, PDULength - 36;
      var First, Seq_IN := true, 0;
      while TotalSize > 0 && LastError == 0
        modifies this`LastError, this`cntword, this`NextByte
        invariant TotalSize + Offset == TxSize && Offset == OffsetOf(TxSize, PDULength, |wire|)
        invariant (First <==> |wire| == 0) && (First <==> Offset == 0)
        invariant MaxSlice == if First then PDULength - 36 else PDULength - 34
        invariant |wire| + CountFrom(TxSize, PDULength, Offset) == count
        invariant Valid() && cntword == CounterAfter(old(cntword), |wire|)
        invariant count != 1 ==> NextByte == BytesAfter(old(NextByte), |wire|)
        invariant Accepted(replies, |wire|, LastError) && (LastError == 0 ==> Seq_IN == SeqIn(replies, |wire|))
        invariant OnWire(b, PDULength, old(cntword), old(NextByte), replies, count == 1, wire)
        decreases TotalSize
      {
        var Slice := Min(TotalSize, MaxSlice);
        TotalSize := TotalSize - Slice;
        SliceIs(TxSize, PDULength, Offset, Slice);
        SliceCounts(TxSize, PDULength, |wire|, Offset, Slice);
        NumbersNext(old(cntword), old(NextByte), |wire|);
        AcceptedNext(replies, |wire|);
        var frame := SendSlice(Offset, Slice, First, TotalSize == 0, Seq_IN);
        OnWireNext(b, PDULength, old(cntword), old(NextByte), replies, count == 1, wire, Offset, Slice, frame);
        var reply := replies(|wire|);
        wire := wire + [frame];
        Offset := Offset + Slice;
        LastError := ErrorOf(reply);
        Seq_IN := if LastError == 0 then reply.seqOut else Seq_IN;
        MaxSlice := if First then MaxSlice + 2 else MaxSlice;
        First := false;
      }
      CountPositive(TxSize, PDULength, Offset);
      SentIs(count, replies, |wire|, LastError);
    }

    // -------------------------------------------------------------- receiving

    /** Copies a frame's data behind what is stored and sends the answer. */
    method PickData(f: bytes, answered: bool) returns (result: bool)
      requires RxBuffer.Length == RX_SIZE && FRecvPending && (FRecvStatus.First ==> !Wild && FRecvStatus.Offset == 0)
      modifies this`LastError, this`FRecvStatus, this`Wild, RxBuffer
      ensures result <==> IsBSend(f) && answered
      ensures LastError == if !IsBSend(f) then 0x0090_0000 else if !answered then 0x00F0_0000 else 0
      ensures State() == if IsBSend(f) then Pick(old(State()).(pending := !old(FRecvStatus.First)), f) else old(State())
      ensures IsBSend(f) ==> (FRecvStatus.Done <==> ByteAt(f, 19) == 0)
      ensures FRecvStatus.First == old(FRecvStatus.First)
    {
      hide WordAt, ByteAt, IsBSend, Store, Opened, State;
      LastError := 0;
      if !IsBSend(f) {
        LastError := ERR_PAR_INVALID_PDU;
        return false;
      }
      var Source, Slice := FRAME_HEAD, 0;
      if FRecvStatus.First {
        OpenSequence(f);
        Source := FRAME_HEAD + 2;
        Slice := (WordAt(f, 24) - 10) % 0x1_0000;
      } else {
        Slice := (WordAt(f, 24) - 8) % 0x1_0000;
      }
      StoreSlice(f, Source, Slice);
      if !answered { LastError := ERR_PAR_RECVING_BLOCK; }
      result := answered;
    }

    method OpenSequence(f: bytes)
      requires FRecvPending && !Wild
      modifies this`FRecvStatus
      ensures State() == Opened(old(State()).(pending := false), f) && FRecvStatus.First == old(FRecvStatus.First)
    {
      hide WordAt, LongAt;
      FRecvStatus := FRecvStatus.(TotalLength := WordAt(f, FRAME_HEAD), In_R_ID := LongAt(f, 30), Offset := 0);
    }

    method StoreSlice(f: bytes, Source: nat, Slice: nat)
      requires RxBuffer.Length == RX_SIZE
      modifies this`FRecvStatus, this`Wild, RxBuffer
      ensures State() == Store(old(State()), f, Source, Slice)
      ensures FRecvStatus.First == old(FRecvStatus.First) && (FRecvStatus.Done <==> ByteAt(f, 19) == 0)
    {
      hide Window, Overlay, ByteAt;
      FRecvStatus := FRecvStatus.(Done := ByteAt(f, 19) == 0);
      CopyIn(FRecvStatus.Offset, Window(f, Source, Slice));
      Wild := Wild || Source + Slice > |f| || FRecvStatus.Offset + Slice > RX_SIZE;
      FRecvStatus := FRecvStatus.(Offset := FRecvStatus.Offset + Slice);
    }

    method CopyIn(at: nat, d: bytes)
      modifies RxBuffer
      ensures RxBuffer[..] == Overlay(old(RxBuffer[..]), at, d)
    {
      ghost var was := RxBuffer[..];
      var i := 0;
      while i < |d|
        invariant 0 <= i <= |d|
        invariant forall k :: 0 <= k < RxBuffer.Length ==> RxBuffer[k] == if at <= k < at + i then d[k - at] else was[k]
      {
        if at + i < RxBuffer.Length { RxBuffer[at + i] := d[i]; }
        i := i + 1;
      }
    }

    /** Opens a sequence if none is pending. */
    method StartSequence()
      requires Valid()
      modifies this`FRecvStatus, this`FRecvPending, this`FRecvLast, this`NextByte
      ensures NextByte < 0xFF && FRecvPending && FRecvStatus.First == !old(FRecvPending)
      ensures FRecvStatus.First ==> !Wild && FRecvStatus.Offset == 0
      ensures FRecvLast == Last(false, 0, 0, 0)
      ensures State() == if old(FRecvPending) then old(State())
                         else old(State()).(pending := true, last := Last(false, 0, 0, 0))
    {
      if !FRecvPending {
        FRecvPending := true;
        var seqOut := GetNextByte();
        FRecvStatus := FRecvStatus.(First := true, Done := false, Seq_Out := seqOut);
        FRecvLast := Last(false, 0, 0, 0);
      }
    }

    method EndFirst()
      modifies this`FRecvStatus
      ensures FRecvStatus == old(FRecvStatus).(First := false) && State() == old(State())
    {
      FRecvStatus := FRecvStatus.(First := false);
    }

    /** Records how the sequence ended, hands over a completed block and forgets the sequence. */
    method EndSequence(result: bool) returns (delivered: seq<Delivery>)
      modifies this`FRecvStatus, this`FRecvPending, this`FRecvLast, this`RecvEvt, this`BytesRecv, this`Wild
      ensures FRecvStatus == CLEARED && !FRecvPending && !Wild
      ensures var r := old(State());
              && State() == Clear(if result
                                  then r.(last := Last(true, r.total, LastError, r.rid), signalled := true,
                                          bytesRecv := (r.bytesRecv + r.total) % 0x1_0000_0000)
                                  else r.(last := r.last.(done := true, result := LastError), signalled := true))
              && delivered == if result then [Delivery(r.rid, r.total, r.offset, Window(r.rx, 0, r.offset), r.wild)] else []
    {
      hide Window;
      delivered := [];
      FRecvLast := FRecvLast.(result := LastError);
      if result {
        BytesRecv := (BytesRecv + FRecvStatus.TotalLength) % 0x1_0000_0000;
        FRecvLast := FRecvLast.(rid := FRecvStatus.In_R_ID, size := FRecvStatus.TotalLength);
        var stored := Window(RxBuffer[..], 0, FRecvStatus.Offset);
        delivered := [Delivery(FRecvStatus.In_R_ID, FRecvStatus.TotalLength, FRecvStatus.Offset, stored, Wild)];
      }
      RecvEvt := true;
      FRecvLast := FRecvLast.(done := true);
      ClearRecv();
    }

    /** A userdata telegram: opens a sequence if none is pending, stores the data, and completes or drops the sequence. */
    method BlockRecv(f: bytes, answered: bool) returns (result: bool, delivered: seq<Delivery>)
      requires Valid()
      modifies this`LastError, this`FRecvStatus, this`FRecvPending, this`FRecvLast, this`NextByte, this`RecvEvt,
               this`BytesRecv, this`Wild, RxBuffer
      ensures Valid() && (State(), delivered) == ReceiveFrame(old(State()), f, answered)
      ensures (result <==> IsBSend(f) && answered) && (!result ==> !FRecvPending)
    {
      hide Window, Pick, State, ByteAt, IsBSend;
      delivered := [];
      StartSequence();
      ghost var s := State();
      result := PickData(f, answered);
      EndFirst();
      if !result || FRecvStatus.Done {
        delivered := EndSequence(result);
      }
    }

    method ConnectionConfirm(confirmed: bool) returns (result: bool)
      requires Valid()
      modifies this`FRecvStatus, this`FRecvPending, this`Wild
      ensures Valid() && result == confirmed
      ensures State() == if old(FRecvPending) then Clear(old(State())) else old(State())
    {
      if FRecvPending { ClearRecv(); }
      result := confirmed;
    }

    /** Handles what came in. Only a lost connection leaves a sequence for the caller to clear. */
    method ReadLine(x: Incoming) returns (result: bool, delivered: seq<Delivery>)
      requires Valid() && (x.Negotiation? ==> 36 < x.pduLength < 0x1_0000)
      modifies this`LastError, this`FRecvStatus, this`FRecvPending, this`FRecvLast, this`NextByte, this`RecvEvt,
               this`BytesRecv, this`Wild, this`PDULength, this`Linked, RxBuffer
      ensures Valid() && (State(), delivered) == HandleIncoming(old(State()), x)
      ensures Linked <==> if x.Negotiation? then result else old(Linked)
      ensures result == LineHolds(x) && if x.Failed? then !result else !result ==> !FRecvPending
    {
      hide ReceiveFrame;
      delivered, result := [], true;
      match x
      case Nothing =>
      case Purged =>
      case Telegram(f, answered) => result, delivered := BlockRecv(f, answered);
      case Negotiation(pduLength, agreed) =>
        if FRecvPending { ClearRecv(); }
        PDULength := pduLength;
        Linked := agreed;
        result := agreed;
      case ConnectionRequest(confirmed) => result := ConnectionConfirm(confirmed);
      case Failed => result := false;
    }

    /** Sends the queued block, if there is one and nothing is being received. */
    method SendQueued(replies: nat -> Reply) returns (result: bool, wire: seq<bytes>)
      requires Valid()
      modifies this`LastError, this`cntword, this`NextByte, this`BytesSent, this`SendEvt, this`FSendPending
      ensures Valid() && Outgoing() == old(Outgoing()) && State() == old(State())
      ensures FSendPending <==> old(FSendPending) && FRecvPending
      ensures var count := if old(FSendPending) && !FRecvPending then CountFrom(TxSize, PDULength, 0) else 0;
              && (result <==> forall i :: 0 <= i < count ==> Accepts(replies(i)))
              && |wire| == SentFrames(count, replies, 0)
              && OnWire(Outgoing(), PDULength, old(cntword), old(NextByte), replies, count == 1, wire)
    {
      hide CountFrom, Accepts, OnWire, State, Outgoing, Valid;
      ValidSizes();
      wire, result := [], true;
      OnWireEmpty(Outgoing(), PDULength, cntword, NextByte, replies);
      if FSendPending && !FRecvPending {
        result, wire := BlockSend(replies);
        SendEvt := true;
        FSendPending := false;
      }
    }

    /** One turn of the worker: sends the queued block when nothing is being received, then reads the line. */
    method Execute(replies: nat -> Reply, x: Incoming, late: bool)
      returns (result: bool, delivered: seq<Delivery>, wire: seq<bytes>)
      requires Valid() && (x.Negotiation? ==> 36 < x.pduLength < 0x1_0000)
      modifies this, RxBuffer
      ensures Valid() && Outgoing() == old(Outgoing())
      ensures FSendPending <==> old(FSendPending && FRecvPending)
      ensures var count := if old(FSendPending && !FRecvPending) then CountFrom(old(TxSize), old(PDULength), 0) else 0;
              var sent := forall i :: 0 <= i < count ==> Accepts(replies(i));
              && (State(), delivered) == (if sent then Turn(old(State()), x, late) else (old(State()), []))
              && |wire| == SentFrames(count, replies, 0)
              && OnWire(old(Outgoing()), old(PDULength), old(cntword), old(NextByte), replies, count == 1, wire)
              && (result <==> sent && LineHolds(x))
              && (Linked <==> (old(Linked) || x.Negotiation?) && result)
    {
      hide LineHolds, OnWire, HandleIncoming, CountFrom, SentFrames, Accepts, State, Outgoing, Valid, Clear;
      ValidSizes();
      ghost var s := State();
      ghost var out := Outgoing();
      delivered := [];
      result, wire := SendQueued(replies);
      if result {
        result, delivered := ReadLine(x);
      }
      assert Outgoing() == out;
      NothingToClear();
      Finish(result, late);
    }

    /** The end of a turn: a failed one closes the connection, an overdue sequence wakes the reader, either drops the sequence. */
    method Finish(result: bool, late: bool)
      requires Valid()
      modifies this`Linked, this`LastError, this`RecvEvt, this`FRecvStatus, this`FRecvPending, this`Wild
      ensures Valid()
      ensures Linked == (old(Linked) && result)
      ensures late && old(FRecvPending) ==> LastError == 0x0080_0000
      ensures State() == if late && old(FRecvPending) then Clear(old(State())).(signalled := true)
                         else if !result then Clear(old(State())) else old(State())
    {
      if !result { Linked := false; }
      var timeout := FRecvPending && late;
      if timeout {
        LastError := ERR_PAR_FRAME_TIMEOUT;
        RecvEvt := true;
      }
      if !result || timeout { ClearRecv(); }
    }

    /** Waits for a completion and takes it; without a buffer for the bytes a completed block is taken all the same. */
    method BRecv(wanted: bool) returns (got: Received)
      requires Valid()
      modifies this`RecvEvt, this`LastError
      ensures Valid() && State() == Step(old(State()), Read).0
      ensures got == var read := ReadOut(old(State()));
                     if wanted || read.result != 0 then read else read.(result := 0x0050_0000, data := [])
      ensures !RecvEvt && (!old(RecvEvt) ==> got == Received(0x00B0_0000, 0, 0, []))
      ensures old(RecvEvt) && FRecvLast.result != 0 ==> got == Received(FRecvLast.result, FRecvLast.rid, FRecvLast.size, [])
      ensures old(RecvEvt) && FRecvLast.result == 0 ==>
                && RxBuffer.Length == 65544
                && got == if wanted then Received(0, FRecvLast.rid, FRecvLast.size, RxBuffer[..FRecvLast.size])
                          else Received(0x0050_0000, FRecvLast.rid, FRecvLast.size, [])
      ensures LastError == got.result
    {
      hide Window;
      if RecvEvt {
        got := Received(FRecvLast.result, FRecvLast.rid, FRecvLast.size, []);
        if FRecvLast.result == 0 {
          if wanted {
            var data := Window(RxBuffer[..], 0, FRecvLast.size);
            got := got.(data := data);
          } else {
            got := got.(result := ERR_PAR_INVALID_PARAMS);
          }
        }
        RecvEvt := false;
      } else {
        got := Received(ERR_PAR_RECV_TIMEOUT, 0, 0, []);
      }
      LastError := got.result;
    }
  }

  lemma SliceOfPrefix(s: bytes, n: nat, i: nat, j: nat)
    requires i <= j <= n <= |s|
    ensures s[..n][i..j] == s[i..j]
  {
  }

  function ErrorOf(reply: Reply): int {
    if reply.NoReply? then ERR_PAR_SENDING_BLOCK else if reply.err != 0 then ERR_PAR_SEND_REFUSED else 0
  }

  lemma NoFrames(pduLength: nat)
    requires pduLength > 36
    ensures CountFrom(0, pduLength, 0) == 0
  {
  }

  lemma SentWhileAccepted(count: nat, replies: nat -> Reply, i: nat)
    requires i <= count
    ensures var n := SentFrames(count, replies, i);
            && (forall j :: i <= j < n - 1 ==> replies(j).Reply? && replies(j).err == 0)
            && (n < count ==> n > i && (replies(n - 1).NoReply? || replies(n - 1).err != 0))
    ensures (forall j :: 0 <= j < count ==> Accepts(replies(j)))
            <==> forall j :: 0 <= j < count ==> replies(j).Reply? && replies(j).err == 0
  {
  }

  lemma ErrorOfIs(reply: Reply)
    requires ErrorOf(reply) != 0
    ensures ErrorOf(reply) == if reply.NoReply? then 0x00E0_0000 else 0x00C0_0000
  {
  }

  /** The first `n` replies but the last accept, and the error is that of the last. */
  ghost predicate Accepted(replies: nat -> Reply, n: nat, error: int) {
    && (forall i :: 0 <= i < n - 1 ==> Accepts(replies(i)))
    && error == if n == 0 then 0 else ErrorOf(replies(n - 1))
  }

  lemma AcceptedNext(replies: nat -> Reply, n: nat)
    requires Accepted(replies, n, 0)
    ensures Accepted(replies, n + 1, ErrorOf(replies(n)))
    ensures ErrorOf(replies(n)) == 0 ==> replies(n).Reply? && SeqIn(replies, n + 1) == replies(n).seqOut
  {
    forall i | 0 <= i < n ensures Accepts(replies(i)) {
    }
  }

  lemma SliceIs(size: nat, pduLength: nat, off: nat, n: nat)
    requires 36 < pduLength && off < size
    requires n == Min(size - off, if off == 0 then pduLength - 36 else pduLength - 34)
    ensures n == SliceLength(size, pduLength, off) > 0
  {
  }

  lemma SendStart(b: Block, pduLength: nat, w: word, x: byte, replies: nat -> Reply, lone: bool)
    requires 36 < pduLength
    ensures OffsetOf(|b.data|, pduLength, 0) == 0
    ensures CounterAfter(w, 0) == w && BytesAfter(x, 0) == x && SeqIn(replies, 0) == 0
    ensures Accepted(replies, 0, 0) && OnWire(b, pduLength, w, x, replies, lone, [])
  {
  }

  lemma NumbersNext(w: word, x: byte, k: nat)
    requires x < 0xFF
    ensures CounterAfter(w, k + 1) == NextWord(CounterAfter(w, k)) + 1
    ensures BytesAfter(x, k + 1) == ByteNext(BytesAfter(x, k)) < 0xFF
  {
    IdentifiersAdvance(x, k);
  }

  /** After a slice one frame less is left; it was the only one exactly when it is first and last. */
  lemma SliceCounts(size: nat, pduLength: nat, k: nat, off: nat, n: nat)
    requires 36 < pduLength && off < size && off == OffsetOf(size, pduLength, k) && n == SliceLength(size, pduLength, off)
    requires k + CountFrom(size, pduLength, off) == CountFrom(size, pduLength, 0)
    requires k == 0 <==> off == 0
    ensures off + n <= size
    ensures k + 1 + CountFrom(size, pduLength, off + n) == CountFrom(size, pduLength, 0)
    ensures off == 0 && off + n == size <==> CountFrom(size, pduLength, 0) == 1
    ensures OffsetOf(size, pduLength, k + 1) == off + n
  {
    CountPositive(size, pduLength, off + n);
  }

  lemma CountPositive(size: nat, pduLength: nat, off: nat)
    requires 36 < pduLength && off <= size
    ensures CountFrom(size, pduLength, off) == 0 <==> off == size
  {
  }

  lemma FrameIs(b: Block, pduLength: nat, k: nat, tag: Tag, off: nat, n: nat)
    requires 36 < pduLength && off < |b.data| && off == OffsetOf(|b.data|, pduLength, k)
    requires n == SliceLength(|b.data|, pduLength, off)
    ensures FrameOf(b, pduLength, k, tag) == Frame(b, off, n, tag) && |Frame(b, off, n, tag)| <= pduLength
  {
    FrameFitsPdu(b, pduLength, k, tag);
  }

  /** The loop stops where the frames that get through end. */
  lemma SentIs(count: nat, replies: nat -> Reply, n: nat, error: int)
    requires n <= count && Accepted(replies, n, error) && (error == 0 ==> n == count)
    ensures SentFrames(count, replies, 0) == n
    ensures error == 0 <==> forall i :: 0 <= i < count ==> Accepts(replies(i))
    ensures error != 0 ==> n > 0 && error == ErrorOf(replies(n - 1))
  {
    assert error != 0 ==> !Accepts(replies(n - 1));
    assert error == 0 ==> forall i :: 0 <= i < count ==> Accepts(replies(i));
    if SentFrames(count, replies, 0) != n {
      assert false;
    }
  }

  /** A receiver that is handed telegram after telegram and answers each. */
  function Feed(r: Receiver, wire: seq<bytes>): (Receiver, seq<Delivery>)
    decreases |wire|
  {
    if wire == [] then (r, [])
    else
      var first := ReceiveFrame(r, wire[0], true);
      var rest := Feed(first.0, wire[1..]);
      (rest.0, first.1 + rest.1)
  }

  lemma {:induction false} FeedIsRun(r: Receiver, b: Block, pduLength: nat, tags: seq<Tag>, i: nat, wire: seq<bytes>)
    requires 36 < pduLength && i + |wire| == |tags|
    requires forall j :: 0 <= j < |wire| ==> wire[j] == FrameOf(b, pduLength, i + j, tags[i + j])
    ensures Feed(r, wire) == Run(r, BlockEvents(b, pduLength, tags, i))
    decreases |wire|
  {
    hide FrameOf, ReceiveFrame;
    var es := BlockEvents(b, pduLength, tags, i);
    if wire == [] {
      assert es == [];
    } else {
      var rest := BlockEvents(b, pduLength, tags, i + 1);
      assert es[1..] == rest;
      RunFirst(r, es);
      FrameStep(r, b, pduLength, tags, i);
      forall j | 0 <= j < |wire| - 1 ensures wire[1..][j] == FrameOf(b, pduLength, i + 1 + j, tags[i + 1 + j]) {
        assert wire[1..][j] == wire[j + 1];
      }
      FeedIsRun(ReceiveFrame(r, wire[0], true).0, b, pduLength, tags, i + 1, wire[1..]);
    }
  }

  lemma FrameStep(r: Receiver, b: Block, pduLength: nat, tags: seq<Tag>, i: nat)
    requires 36 < pduLength && i < |tags|
    ensures Step(r, BlockEvents(b, pduLength, tags, i)[0]) == ReceiveFrame(r, FrameOf(b, pduLength, i, tags[i]), true)
  {
    hide ReceiveFrame, Frame;
  }

  /**
   What the sending loop puts on the wire for a block of 1 to 65535 bytes, when every frame is accepted,
   gives any idle receiver exactly that block, and its reader the same bytes, size and identity.
   */
  lemma SentBlockArrives(r: Receiver, b: Block, pduLength: nat, counter: word, next: byte, replies: nat -> Reply,
                         lone: bool, wire: seq<bytes>)
    requires Sendable(b) && |b.data| < 0x1_0000 && 36 < pduLength < 0x1_0000 && Related(Idle, r)
    requires OnWire(b, pduLength, counter, next, replies, lone, wire) && |wire| == CountFrom(|b.data|, pduLength, 0)
    ensures var end := Feed(r, wire);
            && |end.1| == 1 && Whole(end.1[0], b)
            && ReadOut(end.0) == Received(0, b.rid, |b.data|, b.data)
  {
    hide Run, Feed, BlockEvents, TagOf, FrameOf, CountFrom, ReadOut, Whole, Related;
    var tags := seq(|wire|, i requires 0 <= i < |wire| => TagOf(counter, next, replies, lone, i));
    FeedIsRun(r, b, pduLength, tags, 0, wire);
    RoundTrip(r, b, pduLength, tags);
  }
}
