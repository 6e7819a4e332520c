/** Multi-variable reads and writes of the client, run against one connection of the server. */
module MultiVars {
  import opened S7Types
  import opened S7Server
  import opened S7Items
  import opened S7Telegrams
  import opened S7Worker
  import PduBudget

  /** One entry of the caller's item list; `pdata` is its variable. */
  datatype TS7DataItem = TS7DataItem(Area: int, WordLen: int, Result: int, DBNumber: int, Start: int, Amount: int,
                                     pdata: bytes)

  /** Timers and counters get their own word length, and the result is cleared. */
  function Adjusted(it: TS7DataItem): TS7DataItem {
    var wordLen := if it.Area == S7_AREA_TM then WL_TIMER else if it.Area == S7_AREA_CT then WL_COUNTER else it.WordLen;
    it.(WordLen := wordLen, Result := 0)
  }

  function AdjustedAll(its: seq<TS7DataItem>): (r: seq<TS7DataItem>)
    ensures |r| == |its|
    ensures forall i :: 0 <= i < |its| ==> r[i] == Adjusted(its[i])
  {
    seq(|its|, i requires 0 <= i < |its| => Adjusted(its[i]))
  }

  function EncodeEntry(it: TS7DataItem): (r: bytes)
    ensures |r| == ITEM_SIZE
  {
    EncodeItem(it.Area, it.WordLen, it.Amount, it.DBNumber, it.Start)
  }

  /** The entry as the server decodes it. */
  function SentEntry(it: TS7DataItem): Item {
    SentItem(WriteVar(it.Area, it.WordLen, it.DBNumber, it.Start, it.Amount, []))
  }

  function SentEntries(its: seq<TS7DataItem>): (r: seq<Item>)
    ensures |r| == |its|
    ensures forall i :: 0 <= i < |its| ==> r[i] == SentEntry(its[i])
  {
    seq(|its|, i requires 0 <= i < |its| => SentEntry(its[i]))
  }

  /** The entry after its outcome came back. */
  function Received(it: TS7DataItem, r: ReadReply): TS7DataItem
    requires r.code == CODE_OK ==> |r.data| <= |it.pdata|
  {
    if r.code == CODE_OK then it.(Result := 0, pdata := Splice(it.pdata, 0, r.data))
    else it.(Result := CpuError(r.code))
  }

  /** Every accepted item's data fits its variable. */
  ghost predicate Fit(its: seq<TS7DataItem>, rs: seq<ReadReply>) {
    |its| == |rs| && forall i :: 0 <= i < |rs| ==> rs[i].code == CODE_OK ==> |rs[i].data| <= |its[i].pdata|
  }

  function ReceivedAll(its: seq<TS7DataItem>, rs: seq<ReadReply>): (r: seq<TS7DataItem>)
    requires Fit(its, rs)
    ensures |r| == |its|
    ensures forall i :: 0 <= i < |its| ==> r[i] == Received(its[i], rs[i])
  {
    seq(|its|, i requires 0 <= i < |its| => Received(its[i], rs[i]))
  }

  /** The entries with the results the return codes stand for. */
  function WithCodes(its: seq<TS7DataItem>, codes: bytes): (r: seq<TS7DataItem>)
    requires |codes| == |its|
    ensures |r| == |its|
    ensures forall i :: 0 <= i < |its| ==> r[i] == its[i].(Result := CodeResult(codes[i]))
  {
    seq(|its|, i requires 0 <= i < |its| => its[i].(Result := CodeResult(codes[i])))
  }

  /** The variable has room for what its item asks for. */
  predicate HasRoom(it: TS7DataItem) {
    SizeOf(SentEntry(Adjusted(it))) <= |it.pdata|
  }

  /** Bytes a write sends for the entry: the product is kept in 16 bits. */
  function SendSize(it: TS7DataItem): nat {
    it.Amount * DataSizeByte(it.WordLen) % 0x1_0000
  }

  function ToVar(it: TS7DataItem): WriteVar
    requires SendSize(it) <= |it.pdata|
  {
    WriteVar(it.Area, it.WordLen, it.DBNumber, it.Start, it.Amount, it.pdata[..SendSize(it)])
  }

  function ToVars(its: seq<TS7DataItem>): (r: seq<WriteVar>)
    requires forall i :: 0 <= i < |its| ==> SendSize(its[i]) <= |its[i].pdata|
    ensures |r| == |its|
    ensures forall i :: 0 <= i < |its| ==> r[i] == ToVar(its[i])
  {
    seq(|its|, i requires 0 <= i < |its| => ToVar(its[i]))
  }

  function CodeResult(code: byte): int {
    if code == CODE_OK then 0 else CpuError(code)
  }

  /** Lists whose data items the server locates where the client put them. */
  ghost predicate InTurnSafe(vs: seq<WriteVar>) {
    && BitsHaveData(vs)
    && forall i :: 0 <= i < |vs| - 1 ==> !SentInBytes(vs[i]) || vs[i].data == []
  }

  /** The variables were written one after the other, and every entry has its own result. */
  ghost predicate WrittenInTurn(mem: Memory, its: seq<TS7DataItem>, vs: seq<WriteVar>, after: Memory, written: seq<TS7DataItem>)
    requires |vs| == |its|
  {
    var r := WriteInTurn(mem, vs);
    |r.0| == |its| && written == WithCodes(its, r.0) && after == r.1
  }

  /** The server executed the items of the telegram in order, each with the data it found, and every entry has its code. */
  ghost predicate Executed(mem: Memory, its: seq<TS7DataItem>, pdu: bytes, after: Memory, written: seq<TS7DataItem>) {
    var r := WriteItems(mem, pdu, |its|);
    |r.0| == |its| && written == WithCodes(its, r.0) && after == r.1
  }

  lemma ExecutedBy(mem: Memory, its: seq<TS7DataItem>, pdu: bytes, codes: bytes, after: Memory)
    requires |codes| == |its| && (codes, after) == WriteItems(mem, pdu, |its|)
    ensures Executed(mem, its, pdu, after, WithCodes(its, codes))
  {
    hide WriteItems;
  }

  lemma WrittenInTurnBy(mem: Memory, its: seq<TS7DataItem>, vs: seq<WriteVar>, codes: bytes, after: Memory)
    requires |codes| == |vs| == |its| && (InTurnSafe(vs) ==> (codes, after) == WriteInTurn(mem, vs))
    ensures InTurnSafe(vs) ==> WrittenInTurn(mem, its, vs, after, WithCodes(its, codes))
  {
  }

  /** Clears the results and adjusts the word lengths, in place. */
  method AdjustItems(Items: array<TS7DataItem>)
    modifies Items
    ensures Items[..] == AdjustedAll(old(Items[..]))
  {
    var c := 0;
    while c < Items.Length
      invariant 0 <= c <= Items.Length
      invariant forall i :: 0 <= i < c ==> Items[i] == Adjusted(old(Items[i]))
      invariant forall i :: c <= i < Items.Length ==> Items[i] == old(Items[i])
    {
      var it := Items[c].(Result := 0);
      if it.Area == S7_AREA_CT { it := it.(WordLen := WL_COUNTER); }
      if it.Area == S7_AREA_TM { it := it.(WordLen := WL_TIMER); }
      Items[c] := it;
      c := c + 1;
    }
  }

  /** Walks the answer with a running offset and hands every entry its result and data. */
  method DistributeAnswer(Items: array<TS7DataItem>, body: bytes, ghost rs: seq<ReadReply>)
    requires Items.Length == |rs| && body == ReplyBody(rs, |rs|)
    requires forall i :: 0 <= i < |rs| ==> Encodable(rs[i]) && rs[i].code != 0
    requires Fit(Items[..], rs)
    modifies Items
    ensures Items[..] == ReceivedAll(old(Items[..]), rs)
  {
    hide ReplyBody, ClientItem, SliceAt, Encodable;
    var Offset := 0;
    var c := 0;
    assert ReadOffset(body, 0) == 0;
    while c < Items.Length
      invariant 0 <= c <= Items.Length
      invariant Offset == ReadOffset(body, c)
      invariant forall i :: 0 <= i < c ==> Items[i] == Received(old(Items[i]), rs[i])
      invariant forall i :: c <= i < Items.Length ==> Items[i] == old(Items[i])
    {
      ReadLayoutAgrees(rs, c);
      var r := ClientItem(body, Offset);
      OutcomeReceived(old(Items[c]), rs[c], r);
      Items[c] := if r.0 == 0 then Items[c].(Result := 0, pdata := Splice(Items[c].pdata, 0, r.1))
                  else Items[c].(Result := r.0);
      var Slice := SliceAt(body, Offset);
      if Slice % 2 != 0 { Slice := Slice + 1; }
      Offset := Offset + 4 + Slice;
      c := c + 1;
    }
  }

  lemma OutcomeReceived(it: TS7DataItem, r: ReadReply, o: (int, bytes))
    requires o == Outcome(r) && (r.code == CODE_OK ==> |r.data| <= |it.pdata|)
    requires r.code != 0
    ensures |o.1| <= |it.pdata|
    ensures Received(it, r) == if o.0 == 0 then it.(Result := 0, pdata := Splice(it.pdata, 0, o.1)) else it.(Result := o.0)
  {
  }

  /** Encodes the entries one after the other. */
  method EncodeEntries(Items: array<TS7DataItem>) returns (items: seq<bytes>)
    ensures |items| == Items.Length
    ensures forall i :: 0 <= i < |items| ==> items[i] == EncodeEntry(Items[..][i]) && |items[i]| == ITEM_SIZE
  {
    items := [];
    var c := 0;
    while c < Items.Length
      invariant 0 <= c <= Items.Length && |items| == c
      invariant forall i :: 0 <= i < c ==> items[i] == EncodeEntry(Items[i]) && |items[i]| == ITEM_SIZE
    {
      items := items + [EncodeEntry(Items[c])];
      c := c + 1;
    }
  }

  /** Builds the variables of a write request and the size of its data part, padding odd items but the last. */
  method BuildVars(Items: array<TS7DataItem>) returns (vs: seq<WriteVar>, Offset: nat)
    requires forall i :: 0 <= i < Items.Length ==> SendSize(Items[i]) <= |Items[i].pdata|
    ensures vs == ToVars(Items[..]) && Offset == |DataSection(vs, |vs|)|
  {
    hide DataItem;
    vs, Offset := [], 0;
    var c := 0;
    while c < Items.Length
      invariant 0 <= c <= Items.Length && |vs| == c
      invariant forall i :: 0 <= i < c ==> vs[i] == ToVar(Items[i])
      invariant Offset == |DataSection(vs, Items.Length)|
    {
      var v := ToVar(Items[c]);
      DataSectionNext(vs, v, Items.Length);
      var Size := |v.data|;
      if Size % 2 != 0 && Items.Length - c != 1 { Size := Size + 1; }
      Offset := Offset + 4 + Size;
      vs := vs + [v];
      c := c + 1;
    }
    assert vs == ToVars(Items[..]);
  }

  lemma DataSectionNext(vs: seq<WriteVar>, v: WriteVar, n: nat)
    ensures |DataSection(vs + [v], n)|
            == |DataSection(vs, n)| + 4 + |v.data| + (if |v.data| % 2 != 0 && |vs| + 1 != n then 1 else 0)
  {
    assert (vs + [v])[..|vs|] == vs;
  }

  /** Copies the return codes of a write answer into the entries, in order. */
  method TakeCodes(Items: array<TS7DataItem>, codes: bytes)
    requires |codes| == Items.Length
    modifies Items
    ensures Items[..] == WithCodes(old(Items[..]), codes)
  {
    var c := 0;
    while c < Items.Length
      invariant 0 <= c <= Items.Length
      invariant forall i :: 0 <= i < c ==> Items[i] == old(Items[i]).(Result := CodeResult(codes[i]))
      invariant forall i :: c <= i < Items.Length ==> Items[i] == old(Items[i])
    {
      Items[c] := Items[c].(Result := if codes[c] == CODE_OK then 0 else CpuError(codes[c]));
      c := c + 1;
    }
  }

  /** The outcomes of a read request for the adjusted entries. */
  function ReadOutcomes(mem: Memory, its: seq<TS7DataItem>, pduLength: int): (r: seq<ReadReply>)
    ensures |r| == |its|
  {
    ReplyList(mem, SentEntries(its), pduLength)
  }

  lemma {:induction false} OutcomeOf(mem: Memory, its: seq<Item>, pduLength: int, i: nat)
    requires i < |its|
    ensures exists left: int :: ReplyList(mem, its, pduLength)[i] == ReadItem(mem, its[i], left)
  {
    hide ReadItem;
    var before := ReplyList(mem, its[..|its| - 1], pduLength);
    if i < |its| - 1 {
      OutcomeOf(mem, its[..|its| - 1], pduLength, i);
      assert ReplyList(mem, its, pduLength)[i] == before[i];
    } else {
      var left := if |its| == 1 then pduLength else before[|its| - 2].remainder;
      assert ReplyList(mem, its, pduLength)[i] == ReadItem(mem, its[i], left);
    }
  }

  lemma ReadItemShape(mem: Memory, it: Item, left: int)
    ensures var r := ReadItem(mem, it, left);
            && r.code != 0
            && (r.code == CODE_OK ==> |r.data| == SizeOf(it))
            && (|r.data| < 0x2000 ==> Encodable(r))
  {
  }

  /** Outcomes of an answer that fits one packet can be decoded, and fit the variables. */
  lemma OutcomesFit(mem: Memory, its: seq<TS7DataItem>, pduLength: int)
    requires |ReplyBody(ReadOutcomes(mem, its, pduLength), |its|)| < 0x2000
    ensures var rs := ReadOutcomes(mem, its, pduLength);
            forall i :: 0 <= i < |rs| ==>
              && Encodable(rs[i]) && rs[i].code != 0
              && (rs[i].code == CODE_OK ==> |rs[i].data| == SizeOf(SentEntry(its[i])))
    ensures (forall i :: 0 <= i < |its| ==> SizeOf(SentEntry(its[i])) <= |its[i].pdata|) ==>
              Fit(its, ReadOutcomes(mem, its, pduLength))
  {
    hide ReadItem, Encodable, ReplyBody, SentEntry;
    var rs := ReadOutcomes(mem, its, pduLength);
    forall i | 0 <= i < |rs|
      ensures Encodable(rs[i]) && rs[i].code != 0 && (rs[i].code == CODE_OK ==> |rs[i].data| == SizeOf(SentEntry(its[i])))
    {
      BodyBoundsItems(rs, |its|, i);
      OutcomeOf(mem, SentEntries(its), pduLength, i);
      var left: int :| rs[i] == ReadItem(mem, SentEntries(its)[i], left);
      ReadItemShape(mem, SentEntries(its)[i], left);
    }
  }

  lemma EntryRoundTrip(it: TS7DataItem)
    ensures DecodeItem(EncodeEntry(it)) == SentEntry(it)
  {
    ItemRoundTrip(it.Area, it.WordLen, it.Amount, it.DBNumber, it.Start);
  }

  /** The answer to the request for `its` carries their outcomes. */
  lemma MultiReadAnswer(mem: Memory, sequence: word, its: seq<TS7DataItem>, items: seq<bytes>, pduLength: int)
    requires |its| <= MAX_VARS && |items| == |its|
    requires forall i :: 0 <= i < |items| ==> items[i] == EncodeEntry(its[i])
    ensures var pdu := ReadRequest(sequence, items);
            var answer := ReadAnswer(mem, pdu, pduLength);
            var rs := ReadOutcomes(mem, its, pduLength);
            && |pdu| == 12 + ITEM_SIZE * |its| && CheckPduIn(pdu)
            && |answer| == 14 + |ReplyBody(rs, |its|)|
            && From(answer, 14) == ReplyBody(rs, |its|)
            && WordAt(answer, 10) == 0 && ByteAt(answer, 13) == |its|
  {
    hide ItemOf, DecodeItem, EncodeEntry, SentEntry, Replies, ReplyBody, ReplyList, ReadAnswer, WordAt;
    var pdu := ReadRequest(sequence, items);
    ReadRequestParses(sequence, items);
    var sent := SentEntries(its);
    forall i | 0 <= i < |its| ensures ItemOf(pdu, i) == sent[i] {
      EntryRoundTrip(its[i]);
    }
    RepliesAreReplyList(mem, pdu, sent, pduLength, |sent|);
    assert sent[..|sent|] == sent;
    AnswerBody(mem, pdu, pduLength);
  }

  lemma SendableVars(its: seq<TS7DataItem>)
    requires |its| <= MAX_VARS
    requires forall i :: 0 <= i < |its| ==> SendSize(its[i]) <= |its[i].pdata|
    requires |DataSection(ToVars(its), |its|)| < 0x2000
    ensures Sendable(ToVars(its))
  {
    hide DataSection;
  }

  /** The answer to a write request carries one code per variable, in order. */
  lemma MultiWriteAnswer(mem: Memory, sequence: word, vs: seq<WriteVar>)
    requires Sendable(vs)
    ensures var pdu := WriteRequest(sequence, vs);
            && |pdu| == 12 + ITEM_SIZE * |vs| + |DataSection(vs, |vs|)|
            && CheckPduIn(pdu) && ItemsCount(pdu) == |vs|
    ensures var pdu := WriteRequest(sequence, vs);
            var r := WriteItems(mem, pdu, |vs|);
            var answer := WriteAnswer(pdu, r.0);
            && WordAt(answer, 10) == 0 && ByteAt(answer, 13) == |vs| && From(answer, 14) == r.0
            && (InTurnSafe(vs) ==> r == WriteInTurn(mem, vs))
  {
    hide DataSection, WriteItems, WriteRequest, WriteAnswer, ItemOf, StartData, SentItem, WordAt, ByteAt;
    var pdu := WriteRequest(sequence, vs);
    WriteRequestLaidOut(sequence, vs);
    AnswerFields(pdu, WriteItems(mem, pdu, |vs|).0);
    if InTurnSafe(vs) {
      WriteManyIsWriteInTurn(mem, pdu, vs, |vs|);
      assert vs[..|vs|] == vs;
    }
  }

  // ---------------------------------------------------------------- entries on bytes, without the model's own functions

  /** The data item an entry sends, byte by byte. */
  lemma EntryDataItem(it: TS7DataItem)
    requires it.WordLen in {1, 2, 3, 4, 5, 6, 7, 8, 0x1C, 0x1D}
    requires 0 <= it.Amount * (if it.WordLen in {1, 2, 3} then 1 else if it.WordLen in {4, 5, 0x1C, 0x1D} then 2 else 4) < 0x2000
    requires it.Amount * (if it.WordLen in {1, 2, 3} then 1 else if it.WordLen in {4, 5, 0x1C, 0x1D} then 2 else 4) <= |it.pdata|
    ensures var n := it.Amount * (if it.WordLen in {1, 2, 3} then 1 else if it.WordLen in {4, 5, 0x1C, 0x1D} then 2 else 4);
            SendSize(it) == n &&
            var d := DataItem(ToVar(it));
            && |d| == 4 + n && d[4..] == it.pdata[..n]
            && (if d[1] in {3, 7, 9} then d[2] as int * 0x100 + d[3] as int else (d[2] as int * 0x100 + d[3] as int) / 8) == n
  {
    var d := DataItem(ToVar(it));
    EntrySize(it);
    assert d[4..] == ToVar(it).data;
    Be16Value(WireLength(TransportOf(it.WordLen), SendSize(it)));
    LengthRoundTrip(TransportOf(it.WordLen), SendSize(it));
    hide DataSizeByte, SendSize, WordAt;
  }

  lemma EntrySize(it: TS7DataItem)
    requires it.WordLen in {1, 2, 3, 4, 5, 6, 7, 8, 0x1C, 0x1D}
    requires 0 <= it.Amount * (if it.WordLen in {1, 2, 3} then 1 else if it.WordLen in {4, 5, 0x1C, 0x1D} then 2 else 4) < 0x2000
    ensures SendSize(it) == it.Amount * (if it.WordLen in {1, 2, 3} then 1 else if it.WordLen in {4, 5, 0x1C, 0x1D} then 2 else 4)
    ensures 0 <= it.Amount < 0x2000
  {
  }

  /** What writing one adjusted entry of bytes, words, double words, reals, timers or counters does. */
  lemma EntryWritten(mem: Memory, it: TS7DataItem)
    requires it.Area in {0x81, 0x82, 0x83, 0x84, 0x1C, 0x1D}
    requires if it.Area in {0x1C, 0x1D} then it.WordLen == it.Area else it.WordLen in {2, 3, 4, 5, 6, 7, 8}
    requires 0 <= it.DBNumber < 0x1_0000 && 0 <= it.Start < 0x20_0000
    requires 0 <= it.Amount * (if it.WordLen in {2, 3} then 1 else if it.WordLen in {4, 5, 0x1C, 0x1D} then 2 else 4) < 0x2000
    requires it.Amount * (if it.WordLen in {2, 3} then 1 else if it.WordLen in {4, 5, 0x1C, 0x1D} then 2 else 4) <= |it.pdata|
    ensures SendSize(it) <= |it.pdata|
    ensures var n := it.Amount * (if it.WordLen in {2, 3} then 1 else if it.WordLen in {4, 5, 0x1C, 0x1D} then 2 else 4);
            var at := if it.Area in {0x1C, 0x1D} then it.Start / 2 else it.Start;
            var id := if it.Area == 0x81 then Sys(0) else if it.Area == 0x82 then Sys(1) else if it.Area == 0x83 then Sys(2)
            else if it.Area == 0x1C then Sys(3) else if it.Area == 0x1D then Sys(4) else Db(it.DBNumber);
            var r := WriteAlone(mem, ToVar(it));
            if id !in mem then (CodeResult(r.0), r.1) == (0x00C0_0000, mem)
            else if at + n > |mem[id]| then (CodeResult(r.0), r.1) == (0x0090_0000, mem)
            else (CodeResult(r.0), r.1) == (0, mem[id := mem[id][..at] + it.pdata[..n] + mem[id][at + n..]])
  {
    hide WriteItem, DataItem, SendSize, DataSizeByte;
    EntryDataItem(it);
    EntrySize(it);
    var d := DataItem(ToVar(it));
    SentFields(it);
    WriteItemOnBytes(mem, SentItem(ToVar(it)), d);
    hide SentItem;
    assert d[4..4 + SendSize(it)] == d[4..];
  }

  lemma SentFields(it: TS7DataItem)
    requires 0 <= it.WordLen < 0x100 && 0 <= it.Amount < 0x1_0000 && 0 <= it.DBNumber < 0x1_0000 && 0 <= it.Area < 0x100
    requires 0 <= it.Start < 0x20_0000
    requires SendSize(it) <= |it.pdata|
    ensures SentItem(ToVar(it)) == SentEntry(it)
            == Item(it.WordLen, it.Amount, if it.Area == 0x84 then it.DBNumber else 0, it.Area,
                    if it.WordLen in {1, 0x1C, 0x1D} then it.Start else it.Start * 8)
  {
    hide SendSize;
  }

  lemma {:induction false} InTurnPrefix(mem: Memory, vs: seq<WriteVar>, i: nat)
    requires i <= |vs|
    ensures |WriteInTurn(mem, vs[..i]).0| == i && WriteInTurn(mem, vs[..i]).0 <= WriteInTurn(mem, vs).0
    decreases |vs|
  {
    hide WriteAlone;
    if i < |vs| {
      assert vs[..|vs| - 1][..i] == vs[..i];
      InTurnPrefix(mem, vs[..|vs| - 1], i);
      InTurnLength(mem, vs[..|vs| - 1]);
    } else {
      assert vs[..i] == vs;
      InTurnLength(mem, vs);
    }
  }

  lemma {:induction false} InTurnLength(mem: Memory, vs: seq<WriteVar>)
    ensures |WriteInTurn(mem, vs).0| == |vs|
  {
    hide WriteAlone;
    if vs != [] { InTurnLength(mem, vs[..|vs| - 1]); }
  }

  /** The code and the memory after entry `i` are those of writing it alone in the memory before. */
  lemma InTurnAt(mem: Memory, vs: seq<WriteVar>, i: nat)
    requires i < |vs|
    ensures i < |WriteInTurn(mem, vs).0|
    ensures (WriteInTurn(mem, vs).0[i], WriteInTurn(mem, vs[..i + 1]).1) == WriteAlone(WriteInTurn(mem, vs[..i]).1, vs[i])
  {
    hide WriteAlone;
    InTurnPrefix(mem, vs, i + 1);
    InTurnPrefix(mem, vs, i);
    WriteInTurnLast(mem, vs, i + 1);
    hide WriteInTurn;
    var part := WriteInTurn(mem, vs[..i + 1]).0;
    assert part[i] == WriteInTurn(mem, vs).0[i];
  }

  lemma WriteEntryOnBytes(it: TS7DataItem, before: Memory, after: Memory, out: TS7DataItem)
    requires SendSize(Adjusted(it)) <= |it.pdata|
    requires var r := WriteAlone(before, ToVar(Adjusted(it))); out == Adjusted(it).(Result := CodeResult(r.0)) && after == r.1
    ensures
      var n := it.Amount * (if it.Area in {0x1C, 0x1D} || it.WordLen in {4, 5} then 2 else if it.WordLen in {2, 3} then 1 else 4);
      it.Area in {0x81, 0x82, 0x83, 0x84, 0x1C, 0x1D} && (it.Area in {0x1C, 0x1D} || it.WordLen in {2, 3, 4, 5, 6, 7, 8})
      && 0 <= it.DBNumber < 0x1_0000 && 0 <= it.Start < 0x20_0000 && 0 <= n <= |it.pdata| && n < 0x2000 ==>
        var id := if it.Area == 0x81 then Sys(0) else if it.Area == 0x82 then Sys(1) else if it.Area == 0x83 then Sys(2)
                  else if it.Area == 0x1C then Sys(3) else if it.Area == 0x1D then Sys(4) else Db(it.DBNumber);
        var at := if it.Area in {0x1C, 0x1D} then it.Start / 2 else it.Start;
        out.pdata == it.pdata &&
        if id !in before then out.Result == 0x00C0_0000 && after == before
        else if at + n > |before[id]| then out.Result == 0x0090_0000 && after == before
        else out.Result == 0 && after == before[id := before[id][..at] + it.pdata[..n] + before[id][at + n..]]
  {
    var adjusted := Adjusted(it);
    if it.Area in {0x81, 0x82, 0x83, 0x84, 0x1C, 0x1D} && (it.Area in {0x1C, 0x1D} || it.WordLen in {2, 3, 4, 5, 6, 7, 8})
       && 0 <= it.DBNumber < 0x1_0000 && 0 <= it.Start < 0x20_0000
       && 0 <= it.Amount * (if it.Area in {0x1C, 0x1D} || it.WordLen in {4, 5} then 2 else if it.WordLen in {2, 3} then 1 else 4)
       && it.Amount * (if it.Area in {0x1C, 0x1D} || it.WordLen in {4, 5} then 2 else if it.WordLen in {2, 3} then 1 else 4) <= |it.pdata|
       && it.Amount * (if it.Area in {0x1C, 0x1D} || it.WordLen in {4, 5} then 2 else if it.WordLen in {2, 3} then 1 else 4) < 0x2000 {
      EntryWritten(before, adjusted);
    }
    hide WriteAlone, SendSize, ToVar, CodeResult;
  }

  lemma NoneInTurn(mem: Memory, vs: seq<WriteVar>)
    ensures WriteInTurn(mem, vs[..0]).1 == mem
  {
  }

  /** What a writer may expect of one entry, with the server's memory before and after it. */
  ghost predicate WrittenAsAsked(it: TS7DataItem, before: Memory, after: Memory, out: TS7DataItem) {
    var n := it.Amount * (if it.Area in {0x1C, 0x1D} || it.WordLen in {4, 5} then 2 else if it.WordLen in {2, 3} then 1 else 4);
    it.Area in {0x81, 0x82, 0x83, 0x84, 0x1C, 0x1D} && (it.Area in {0x1C, 0x1D} || it.WordLen in {2, 3, 4, 5, 6, 7, 8})
    && 0 <= it.DBNumber < 0x1_0000 && 0 <= it.Start < 0x20_0000 && 0 <= n <= |it.pdata| && n < 0x2000 ==>
      var id := if it.Area == 0x81 then Sys(0) else if it.Area == 0x82 then Sys(1) else if it.Area == 0x83 then Sys(2)
                else if it.Area == 0x1C then Sys(3) else if it.Area == 0x1D then Sys(4) else Db(it.DBNumber);
      var at := if it.Area in {0x1C, 0x1D} then it.Start / 2 else it.Start;
      out.pdata == it.pdata &&
      if id !in before then out.Result == 0x00C0_0000 && after == before
      else if at + n > |before[id]| then out.Result == 0x0090_0000 && after == before
      else out.Result == 0 && after == before[id := before[id][..at] + it.pdata[..n] + before[id][at + n..]]
  }

  lemma WriteEntryAsAsked(it: TS7DataItem, before: Memory, after: Memory, out: TS7DataItem)
    requires SendSize(Adjusted(it)) <= |it.pdata|
    requires var r := WriteAlone(before, ToVar(Adjusted(it))); out == Adjusted(it).(Result := CodeResult(r.0)) && after == r.1
    ensures WrittenAsAsked(it, before, after, out)
  {
    hide WriteAlone, SendSize, ToVar, CodeResult, Adjusted;
    WriteEntryOnBytes(it, before, after, out);
  }

  /** Entries written in turn: there is a memory before and after each of them, and each is written as asked. */
  lemma InTurnOnBytes(mem: Memory, entries: seq<TS7DataItem>, after: Memory, written: seq<TS7DataItem>) returns (mems: seq<Memory>)
    requires forall i :: 0 <= i < |entries| ==> SendSize(Adjusted(entries[i])) <= |entries[i].pdata|
    requires WrittenInTurn(mem, AdjustedAll(entries), ToVars(AdjustedAll(entries)), after, written)
    ensures |mems| == |entries| + 1 && |written| == |entries| && mems[0] == mem && mems[|entries|] == after
    ensures forall i :: 0 <= i < |entries| ==> WrittenAsAsked(entries[i], mems[i], mems[i + 1], written[i])
  {
    hide WriteAlone, WriteInTurn, SendSize, ToVar, CodeResult, WrittenAsAsked;
    var its := AdjustedAll(entries);
    var vs := ToVars(its);
    mems := seq(|entries| + 1, i requires 0 <= i < |entries| + 1 => WriteInTurn(mem, vs[..i]).1);
    assert vs[..|vs|] == vs;
    NoneInTurn(mem, vs);
    forall i | 0 <= i < |entries| ensures WrittenAsAsked(entries[i], mems[i], mems[i + 1], written[i]) {
      InTurnAt(mem, vs, i);
      WriteEntryAsAsked(entries[i], mems[i], mems[i + 1], written[i]);
    }
  }

  /** What reading one entry gives, with `left` bytes of the PDU left before it. */
  lemma EntryIsRead(mem: Memory, it: TS7DataItem, left: int, left': int, out: TS7DataItem)
    requires -0x100_0000 < left < 0x1_0000 && SizeOf(SentEntry(Adjusted(it))) <= |it.pdata|
    requires var r := ReadItem(mem, SentEntry(Adjusted(it)), left);
             (r.code == CODE_OK ==> |r.data| <= |it.pdata|) && out == Received(Adjusted(it), r) && left' == r.remainder
    ensures
      var w := if it.Area in {0x1C, 0x1D} || it.WordLen in {4, 5} then 2 else if it.WordLen in {1, 2, 3} then 1 else 4;
      it.Area in {0x81, 0x82, 0x83, 0x84, 0x1C, 0x1D} && (it.Area in {0x1C, 0x1D} || it.WordLen in {1, 2, 3, 4, 5, 6, 7, 8})
      && 0 <= it.DBNumber < 0x1_0000 && 0 <= it.Start < 0x20_0000 && 0 <= it.Amount < 0x1_0000
      && (it.Area in {0x1C, 0x1D} || it.WordLen != 1 || it.Amount == 1) ==>
        var n := it.Amount * w;
        var id := if it.Area == 0x81 then Sys(0) else if it.Area == 0x82 then Sys(1) else if it.Area == 0x83 then Sys(2)
                  else if it.Area == 0x1C then Sys(3) else if it.Area == 0x1D then Sys(4) else Db(it.DBNumber);
        var bit := it.Area !in {0x1C, 0x1D} && it.WordLen == 1;
        var at := if it.Area in {0x1C, 0x1D} then it.Start / 2 else if bit then it.Start / 8 else it.Start;
        if id !in mem then out.Result == 0x00C0_0000 && out.pdata == it.pdata && left' == left
        else if n == left then out.Result == 0x0230_0000 && out.pdata == it.pdata && left' == left
        else if at + n > |mem[id]| then out.Result == 0x0090_0000 && out.pdata == it.pdata && left' == left - n
        else
          && out.Result == 0 && left' == left - n && |out.pdata| == |it.pdata| >= n && out.pdata[n..] == it.pdata[n..]
          && if bit then out.pdata[0] as int == mem[id][at] as int / [1, 2, 4, 8, 16, 32, 64, 128][it.Start % 8] % 2
             else out.pdata[..n] == mem[id][at..at + n]
  {
    hide ReadItem, SentEntry, SizeOf, CpuError, Splice, Received;
    var adjusted := Adjusted(it);
    var r := ReadItem(mem, SentEntry(adjusted), left);
    if 0 <= it.DBNumber < 0x1_0000 && 0 <= it.Start < 0x20_0000 && 0 <= it.Amount < 0x1_0000 && 0 <= adjusted.WordLen < 0x100
       && 0 <= it.Area < 0x100 {
      EntryFields(adjusted);
    }
    ReadItemOnBytes(mem, SentEntry(adjusted), left);
    ReceivedIs(adjusted, r);
  }

  lemma EntryFields(it: TS7DataItem)
    requires 0 <= it.WordLen < 0x100 && 0 <= it.Amount < 0x1_0000 && 0 <= it.DBNumber < 0x1_0000 && 0 <= it.Area < 0x100
    requires 0 <= it.Start < 0x20_0000
    ensures SentEntry(it) == Item(it.WordLen, it.Amount, if it.Area == 0x84 then it.DBNumber else 0, it.Area,
                                  if it.WordLen in {1, 0x1C, 0x1D} then it.Start else it.Start * 8)
  {
  }

  lemma ReceivedIs(it: TS7DataItem, r: ReadReply)
    requires r.code == CODE_OK ==> |r.data| <= |it.pdata|
    ensures var out := Received(it, r);
            && |out.pdata| == |it.pdata|
            && (r.code == 0xFF ==> out.Result == 0 && out.pdata[..|r.data|] == r.data && out.pdata[|r.data|..] == it.pdata[|r.data|..])
            && (r.code != 0xFF ==> out.pdata == it.pdata)
            && (r.code == 0x0A ==> out.Result == 0x00C0_0000) && (r.code == 0x05 ==> out.Result == 0x0090_0000)
            && (r.code == 0x85 ==> out.Result == 0x0230_0000)
  {
    if r.code == CODE_OK {
      var d := Splice(it.pdata, 0, r.data);
      assert d[..|r.data|] == r.data;
    }
  }

  lemma {:induction false} ReplyListPrefix(mem: Memory, its: seq<Item>, pduLength: int, i: nat)
    requires i <= |its|
    ensures ReplyList(mem, its[..i], pduLength) == ReplyList(mem, its, pduLength)[..i]
    decreases |its|
  {
    hide ReadItem;
    if i < |its| {
      assert its[..|its| - 1][..i] == its[..i];
      ReplyListPrefix(mem, its[..|its| - 1], pduLength, i);
    } else {
      assert its[..i] == its;
    }
  }

  /** Item `i` is answered with the space the items before it have left. */
  lemma ReplyAt(mem: Memory, its: seq<Item>, pduLength: int, i: nat)
    requires i < |its| <= MAX_VARS && 0 <= pduLength < 0x1_0000
    ensures var rs := ReplyList(mem, its, pduLength);
            var left := if i == 0 then pduLength else rs[i - 1].remainder;
            rs[i] == ReadItem(mem, its[i], left) && -0x100_0000 < left < 0x1_0000
  {
    hide ReadItem, ReplyList;
    ReplyListPrefix(mem, its, pduLength, i);
    ReplyListPrefix(mem, its, pduLength, i + 1);
    PduBudget.SizesDecide(mem, its[..i], pduLength);
    PduBudget.ReplyListUnfolds(mem, its[..i + 1], pduLength);
    assert its[..i + 1][..i] == its[..i];
    var rs := ReplyList(mem, its, pduLength);
    assert rs[i] == rs[..i + 1][i];
    if i > 0 { assert rs[..i][i - 1] == rs[i - 1]; }
  }

  lemma EntryAt(mem: Memory, entries: seq<TS7DataItem>, pduLength: int, got: seq<TS7DataItem>, i: nat)
    requires i < |entries| <= MAX_VARS && 0 <= pduLength < 0x1_0000 && HasRoom(entries[i])
    requires var rs := ReadOutcomes(mem, AdjustedAll(entries), pduLength);
             Fit(AdjustedAll(entries), rs) && got == ReceivedAll(AdjustedAll(entries), rs)
    ensures var rs := ReadOutcomes(mem, AdjustedAll(entries), pduLength);
            var left := if i == 0 then pduLength else rs[i - 1].remainder;
            var r := ReadItem(mem, SentEntry(Adjusted(entries[i])), left);
            && -0x100_0000 < left < 0x1_0000 && SizeOf(SentEntry(Adjusted(entries[i]))) <= |entries[i].pdata|
            && (r.code == CODE_OK ==> |r.data| <= |entries[i].pdata|)
            && got[i] == Received(Adjusted(entries[i]), r) && rs[i].remainder == r.remainder
  {
    hide ReadItem, ReplyList, SentEntry, Received, SizeOf;
    var its := AdjustedAll(entries);
    ReplyAt(mem, SentEntries(its), pduLength, i);
    assert its[i].pdata == entries[i].pdata;
  }

  lemma ReadEntryOnBytes(mem: Memory, entries: seq<TS7DataItem>, pduLength: int, got: seq<TS7DataItem>, lefts: seq<int>, i: nat)
    requires i < |entries| <= MAX_VARS && 0 <= pduLength < 0x1_0000 && HasRoom(entries[i]) && |lefts| == |entries| + 1
    requires var rs := ReadOutcomes(mem, AdjustedAll(entries), pduLength);
             && Fit(AdjustedAll(entries), rs) && got == ReceivedAll(AdjustedAll(entries), rs)
             && lefts[i] == (if i == 0 then pduLength else rs[i - 1].remainder) && lefts[i + 1] == rs[i].remainder
    ensures var it, left, left', out := entries[i], lefts[i], lefts[i + 1], got[i];
            var w := if it.Area in {0x1C, 0x1D} || it.WordLen in {4, 5} then 2 else if it.WordLen in {1, 2, 3} then 1 else 4;
            it.Area in {0x81, 0x82, 0x83, 0x84, 0x1C, 0x1D} && (it.Area in {0x1C, 0x1D} || it.WordLen in {1, 2, 3, 4, 5, 6, 7, 8})
            && 0 <= it.DBNumber < 0x1_0000 && 0 <= it.Start < 0x20_0000 && 0 <= it.Amount < 0x1_0000
            && (it.Area in {0x1C, 0x1D} || it.WordLen != 1 || it.Amount == 1) ==>
              var n := it.Amount * w;
              var id := if it.Area == 0x81 then Sys(0) else if it.Area == 0x82 then Sys(1) else if it.Area == 0x83 then Sys(2)
                        else if it.Area == 0x1C then Sys(3) else if it.Area == 0x1D then Sys(4) else Db(it.DBNumber);
              var bit := it.Area !in {0x1C, 0x1D} && it.WordLen == 1;
              var at := if it.Area in {0x1C, 0x1D} then it.Start / 2 else if bit then it.Start / 8 else it.Start;
              if id !in mem then out.Result == 0x00C0_0000 && out.pdata == it.pdata && left' == left
              else if n == left then out.Result == 0x0230_0000 && out.pdata == it.pdata && left' == left
              else if at + n > |mem[id]| then out.Result == 0x0090_0000 && out.pdata == it.pdata && left' == left - n
              else
                && out.Result == 0 && left' == left - n && |out.pdata| == |it.pdata| >= n && out.pdata[n..] == it.pdata[n..]
                && if bit then out.pdata[0] as int == mem[id][at] as int / [1, 2, 4, 8, 16, 32, 64, 128][it.Start % 8] % 2
                   else out.pdata[..n] == mem[id][at..at + n]
  {
    hide ReadItem, ReplyList, SentEntry, Received, Adjusted, SizeOf, HasRoom;
    EntryAt(mem, entries, pduLength, got, i);
    EntryIsRead(mem, entries[i], lefts[i], lefts[i + 1], got[i]);
  }

  /** What a reader may expect of one entry, with `left` bytes of the PDU left before it and `left'` after it. */
  ghost predicate ReadAsAsked(mem: Memory, it: TS7DataItem, left: int, left': int, out: TS7DataItem) {
    var w := if it.Area in {0x1C, 0x1D} || it.WordLen in {4, 5} then 2 else if it.WordLen in {1, 2, 3} then 1 else 4;
    it.Area in {0x81, 0x82, 0x83, 0x84, 0x1C, 0x1D} && (it.Area in {0x1C, 0x1D} || it.WordLen in {1, 2, 3, 4, 5, 6, 7, 8})
    && 0 <= it.DBNumber < 0x1_0000 && 0 <= it.Start < 0x20_0000 && 0 <= it.Amount < 0x1_0000
    && (it.Area in {0x1C, 0x1D} || it.WordLen != 1 || it.Amount == 1) ==>
      var n := it.Amount * w;
      var id := if it.Area == 0x81 then Sys(0) else if it.Area == 0x82 then Sys(1) else if it.Area == 0x83 then Sys(2)
                else if it.Area == 0x1C then Sys(3) else if it.Area == 0x1D then Sys(4) else Db(it.DBNumber);
      var bit := it.Area !in {0x1C, 0x1D} && it.WordLen == 1;
      var at := if it.Area in {0x1C, 0x1D} then it.Start / 2 else if bit then it.Start / 8 else it.Start;
      if id !in mem then out.Result == 0x00C0_0000 && out.pdata == it.pdata && left' == left
      else if n == left then out.Result == 0x0230_0000 && out.pdata == it.pdata && left' == left
      else if at + n > |mem[id]| then out.Result == 0x0090_0000 && out.pdata == it.pdata && left' == left - n
      else
        && out.Result == 0 && left' == left - n && |out.pdata| == |it.pdata| >= n && out.pdata[n..] == it.pdata[n..]
        && if bit then out.pdata[0] as int == mem[id][at] as int / [1, 2, 4, 8, 16, 32, 64, 128][it.Start % 8] % 2
           else out.pdata[..n] == mem[id][at..at + n]
  }

  /** Every entry read with one telegram is read as asked, with the PDU space handed on from entry to entry. */
  lemma ReadOnBytes(mem: Memory, entries: seq<TS7DataItem>, pduLength: int, got: seq<TS7DataItem>) returns (lefts: seq<int>)
    requires |entries| <= MAX_VARS && 0 <= pduLength < 0x1_0000 && forall i :: 0 <= i < |entries| ==> HasRoom(entries[i])
    requires var rs := ReadOutcomes(mem, AdjustedAll(entries), pduLength);
             Fit(AdjustedAll(entries), rs) && got == ReceivedAll(AdjustedAll(entries), rs)
    ensures |lefts| == |entries| + 1 && |got| == |entries| && lefts[0] == pduLength
    ensures forall i :: 0 <= i < |entries| ==> ReadAsAsked(mem, entries[i], lefts[i], lefts[i + 1], got[i])
  {
    hide *;
    var rs := ReadOutcomes(mem, AdjustedAll(entries), pduLength);
    lefts := seq(|entries| + 1, i requires 0 <= i < |entries| + 1 => if i == 0 then pduLength else rs[i - 1].remainder);
    forall i | 0 <= i < |entries| ensures ReadAsAsked(mem, entries[i], lefts[i], lefts[i + 1], got[i]) {
      ReadEntryAsAsked(mem, entries, pduLength, got, lefts, i);
    }
  }

  lemma ReadEntryAsAsked(mem: Memory, entries: seq<TS7DataItem>, pduLength: int, got: seq<TS7DataItem>, lefts: seq<int>, i: nat)
    requires i < |entries| <= MAX_VARS && 0 <= pduLength < 0x1_0000 && HasRoom(entries[i]) && |lefts| == |entries| + 1
    requires var rs := ReadOutcomes(mem, AdjustedAll(entries), pduLength);
             && Fit(AdjustedAll(entries), rs) && got == ReceivedAll(AdjustedAll(entries), rs)
             && lefts[i] == (if i == 0 then pduLength else rs[i - 1].remainder) && lefts[i + 1] == rs[i].remainder
    ensures ReadAsAsked(mem, entries[i], lefts[i], lefts[i + 1], got[i])
  {
    hide ReadItem, ReplyList, SentEntry, Received, Adjusted, SizeOf, HasRoom, Fit, ReceivedAll, ReadOutcomes;
    ReadEntryOnBytes(mem, entries, pduLength, got, lefts, i);
  }

  /** A list the server writes in turn, told in the entries: no Real or Char but the last, and no bits. */
  lemma SafeInTurn(entries: seq<TS7DataItem>)
    requires forall i :: 0 <= i < |entries| ==> SendSize(Adjusted(entries[i])) <= |entries[i].pdata|
    requires forall i :: 0 <= i < |entries| ==>
               entries[i].Area in {0x1C, 0x1D} || entries[i].WordLen in {2, 4, 5, 6, 7} || (i == |entries| - 1 && entries[i].WordLen in {3, 8})
    ensures InTurnSafe(ToVars(AdjustedAll(entries)))
  {
    hide SendSize;
  }
}
