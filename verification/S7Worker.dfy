/** One connection of the server: it executes read, write and list telegrams on the registered areas. */
module S7Worker {
  import opened S7Types
  import opened S7Server
  import opened S7Items
  import opened S7Telegrams
  import BlockList

  const BLOCK_DB: byte := 0x41

  class TS7Worker {
    const FServer: TSnap7Server
    var FPDULength: int
    var DBCnt: int

    constructor (server: TSnap7Server)
      ensures FServer == server && FPDULength == 2048 && DBCnt == 0
    {
      FServer, FPDULength, DBCnt := server, 2048, 0;
    }

    /** The PDU length granted is the requested one, kept between the minimum and the ISO payload size. */
    method PerformFunctionNegotiate(ReqLen: word, ForcePDU: word) returns (granted: int)
      requires ForcePDU == 0 || MIN_PDU_SIZE <= ForcePDU <= ISO_PAYLOAD_SIZE
      modifies this`FPDULength
      ensures granted == FPDULength && 240 <= granted <= 4096
      ensures ForcePDU != 0 ==> granted == ForcePDU
      ensures ForcePDU == 0 ==>  // the permitted length nearest to the one asked for
                forall p :: 240 <= p <= 4096 ==> Distance(granted, ReqLen) <= Distance(p, ReqLen)
    {
      if ForcePDU == 0 {
        if ReqLen < MIN_PDU_SIZE { granted := MIN_PDU_SIZE; }
        else if ReqLen > ISO_PAYLOAD_SIZE { granted := ISO_PAYLOAD_SIZE; }
        else { granted := ReqLen; }
      } else {
        granted := ForcePDU;
      }
      FPDULength := granted;
    }

    /** The checks on one item of a read request, in the order the server makes them. */
    method CheckReadItem(P: Option<TS7Area>, it: Item, PDURemainder: int) returns (code: byte, left: int)
      ensures (code, left) == CheckRead(SizeOfArea(P), it, PDURemainder)
    {
      left := PDURemainder;
      if P.None? { return CODE_ITEM_NOT_AVAILABLE, left; }
      var Multiplier := DataSizeByte(it.TransportSize);
      if Multiplier == 0 { return CODE_ADDRESS_OUT_OF_RANGE, left; }
      if (it.Area == S7_AREA_TM) != (it.TransportSize == WL_TIMER) { return CODE_ADDRESS_OUT_OF_RANGE, left; }
      if (it.Area == S7_AREA_CT) != (it.TransportSize == WL_COUNTER) { return CODE_ADDRESS_OUT_OF_RANGE, left; }
      var Size := Multiplier * it.Length;
      if (PDURemainder - Size) % 0x1_0000_0000 == 0 { return CODE_DATA_OVER_PDU, left; }
      left := PDURemainder - Size;
      if it.TransportSize == WL_BIT && Size > 1 { return CODE_ADDRESS_OUT_OF_RANGE, left; }
      if !CountsInUnits(it.TransportSize) && it.Address % 8 != 0 { return CODE_ADDRESS_OUT_OF_RANGE, left; }
      var Start := if IsTimerOrCounter(it.TransportSize) then it.Address / 2 else it.Address / 8;
      if Start + Size > P.value.Size { return CODE_ADDRESS_OUT_OF_RANGE, left; }
      code := CODE_OK;
    }

    /** Executes one item of a read request; nothing is written. */
    method ReadArea(it: Item, PDURemainder: int) returns (r: ReadReply)
      requires FServer.Valid()
      ensures r == ReadItem(FServer.Contents(), it, PDURemainder)
    {
      hide CheckRead, FServer.Valid;
      var P := FServer.GetArea(it.Area, it.DBNumber);
      var code, left := CheckReadItem(P, it, PDURemainder);
      if code != CODE_OK { return RefuseRead(code, left); }
      AcceptedReadFits(SizeOfArea(P), it, PDURemainder);
      var Start := if IsTimerOrCounter(it.TransportSize) then it.Address / 2 else it.Address / 8;
      var Size := DataSizeByte(it.TransportSize) * it.Length;
      var data := P.value.PData[Start..Start + Size];
      assert data == P.value.PData[..P.value.Size][Start..Start + Size];
      if it.TransportSize == WL_BIT && Size == 1 {
        data := [if BitOf(data[0], it.Address % 8) then 1 else 0];
      }
      var ts := TransportOf(it.TransportSize);
      r := ReadReply(CODE_OK, ts, WireLength(ts, Size), data, left);
    }

    /** The checks on one item of a write request, in the order the server makes them. */
    method CheckWriteItem(P: Option<TS7Area>, it: Item, d: bytes) returns (code: byte)
      ensures code == CheckWrite(SizeOfArea(P), it, d)
    {
      if P.None? { return CODE_ITEM_NOT_AVAILABLE; }
      var Multiplier := DataSizeByte(it.TransportSize);
      if Multiplier == 0 { return CODE_INVALID_TRANSPORT_SIZE; }
      if (it.Area == S7_AREA_TM) != (it.TransportSize == WL_TIMER) { return CODE_ADDRESS_OUT_OF_RANGE; }
      if (it.Area == S7_AREA_CT) != (it.TransportSize == WL_COUNTER) { return CODE_ADDRESS_OUT_OF_RANGE; }
      var Size := Multiplier * it.Length;
      if it.TransportSize == WL_BIT && Size > 1 { return CODE_ADDRESS_OUT_OF_RANGE; }
      if !CountsInUnits(it.TransportSize) && it.Address % 8 != 0 { return CODE_ADDRESS_OUT_OF_RANGE; }
      var Start := if IsTimerOrCounter(it.TransportSize) then it.Address / 2 else it.Address / 8;
      if Start + Size > P.value.Size { return CODE_ADDRESS_OUT_OF_RANGE; }
      var DataLen := DataSize(ByteAt(d, 1), WordAt(d, 2));
      if DataLen != Size { return CODE_WRITE_DATA_SIZE_MISMATCH; }
      code := CODE_OK;
    }

    /** Executes one item of a write request on the area array itself. */
    method WriteArea(it: Item, d: bytes) returns (code: byte)
      requires FServer.Valid()
      modifies FServer.Buffers()
      ensures FServer.Valid()
      ensures (code, FServer.Contents()) == WriteItem(old(FServer.Contents()), it, d)
    {
      hide CheckWrite, StoredBytes, Splice, WriteItem, KeyOf, DataSizeByte, CountsInUnits, IsTimerOrCounter, FServer.Valid, FServer.Contents;
      var P := FServer.GetArea(it.Area, it.DBNumber);
      ghost var mem := FServer.Contents();
      SizeByKey(P, it);
      WriteItemIs(mem, it, d);
      code := CheckWriteItem(P, it, d);
      if code != CODE_OK { return; }
      AcceptedWriteFits(SizeOfArea(P), it, d);
      StoreItem(KeyOf(it.Area, it.DBNumber).value, P.value, it, d);
    }

    /** The copy into the area: the payload or, for a bit, its byte with the bit changed. */
    method StoreItem(ghost key: AreaId, area: TS7Area, it: Item, d: bytes)
      requires FServer.Valid() && key in FServer.Areas && FServer.Areas[key] == area
      requires StartByte(it) + SizeOf(it) <= area.Size
      modifies area.PData
      ensures FServer.Valid()
      ensures FServer.Contents()
              == var was := old(FServer.Contents());
                 was[key := Splice(was[key], StartByte(it), StoredBytes(was[key], it, Payload(it, d)))]
    {
      hide StoredBytes, Splice, Payload, FServer.Valid;
      AreaFits(key);
      var Start := if IsTimerOrCounter(it.TransportSize) then it.Address / 2 else it.Address / 8;
      var data := StoredBytes(area.PData[..area.Size], it, Payload(it, d));
      FServer.Store(key, area, Start, data);
    }

    lemma SizeByKey(P: Option<TS7Area>, it: Item)
      requires FServer.Valid()
      requires P == var key := KeyOf(it.Area, it.DBNumber);
                    if key.Some? && key.value in FServer.Areas then Some(FServer.Areas[key.value]) else None
      ensures AreaSize(FServer.Contents(), it) == SizeOfArea(P)
    {
      hide KeyOf;
      if P.Some? { AreaFits(KeyOf(it.Area, it.DBNumber).value); }
    }

    lemma AreaFits(key: AreaId)
      requires FServer.Valid() && key in FServer.Areas
      ensures FServer.Areas[key].PData.Length >= FServer.Areas[key].Size
    {
    }

    /**
     A read request: one answer item per request item, odd ones padded except the last. `wild` says that the answer
     is longer than the buffer it is built in; it is then too long to be sent, too.
     */
    method PerformFunctionRead(pdu: bytes) returns (answer: bytes, wild: bool)
      requires FServer.Valid()
      ensures answer == ReadAnswer(old(FServer.Contents()), pdu, FPDULength)
      ensures wild <==> |answer| > ISO_PAYLOAD_SIZE
    {
      hide ReadItem, ItemOf, Replies, ReplyBody, ReplyItem, FServer.Valid;
      RepliesNone(FServer.Contents(), pdu, FPDULength);
      var n := ReadCount(pdu);
      var body: bytes := [];
      var PDURemainder := FPDULength;
      ghost var mem := FServer.Contents();
      ghost var rs: seq<ReadReply> := [];
      var c := 0;
      while c < n
        invariant 0 <= c <= n && |rs| == c
        invariant FServer.Valid() && FServer.Contents() == mem
        invariant rs == Replies(mem, pdu, FPDULength, c)
        invariant PDURemainder == if c == 0 then FPDULength else rs[c - 1].remainder
        invariant body == ReplyBody(rs, n)
      {
        var r := ReadArea(ItemOf(pdu, c), PDURemainder);
        PDURemainder := r.remainder;
        RepliesNext(mem, pdu, FPDULength, c);
        ReplyBodyNext(rs, r, n);
        body := body + ReplyItem(r);
        if c < n - 1 && |r.data| % 2 != 0 { body := body + [0]; }
        rs := rs + [r];
        c := c + 1;
      }
      answer := ResHeader(pdu, 2, |body| % 0x1_0000) + [ByteAt(pdu, 10), n] + body;
      wild := |answer| > ISO_PAYLOAD_SIZE;
    }

    /**
     A write request: locate every data item first, then execute the items in order. `wild` says that there are more
     items than the table of their positions holds.
     */
    method PerformFunctionWrite(pdu: bytes) returns (answer: bytes, wild: bool)
      requires FServer.Valid()
      modifies FServer.Buffers()
      ensures wild <==> ItemsCount(pdu) > MAX_VARS
      ensures FServer.Valid()
      ensures var r := WriteItems(old(FServer.Contents()), pdu, ItemsCount(pdu));
              answer == WriteAnswer(pdu, r.0) && FServer.Contents() == r.1
    {
      hide WriteItem, WriteItems, ItemOf, WordAt, StepOver, StartData, From, FServer.Valid;
      WriteItemsNone(FServer.Contents(), pdu);
      var n := ItemsCount(pdu);
      var ReqData: seq<nat> := [];
      var Start := REQ_HEADER_SIZE + WordAt(pdu, 6);
      var c := 0;
      while c < n
        modifies {}
        invariant 0 <= c <= n && |ReqData| == c
        invariant Start == StartData(pdu, c)
        invariant forall i :: 0 <= i < c ==> ReqData[i] == StartData(pdu, i)
      {
        ReqData := ReqData + [Start];
        StartDataNext(pdu, c);
        var L := StepOver(pdu, c, Start);
        Start := Start + L + 4;
        if L % 2 != 0 { Start := Start + 1; }
        c := c + 1;
      }
      ghost var mem := FServer.Contents();
      var codes: bytes := [];
      c := 0;
      while c < n
        invariant 0 <= c <= n
        invariant FServer.Valid()
        invariant (codes, FServer.Contents()) == WriteItems(mem, pdu, c)
      {
        WriteItemsNext(mem, pdu, c);
        var code := WriteArea(ItemOf(pdu, c), From(pdu, ReqData[c]));
        codes := codes + [code];
        c := c + 1;
      }
      answer, wild := WriteAnswer(pdu, codes), n > MAX_VARS;
    }

    /**
     One page of the block list. `Start` begins a new listing; otherwise the scan goes on behind the
     slot kept in `DBCnt`. `behind` is what the memory behind the table holds, which the scan looks at when the last
     slot is at the high-water mark.
     */
    method BLK_ListBoT(BlockType: byte, Start: bool, behind: Option<TS7Area>) returns (reply: BlockList.ListReply)
      requires FServer.Valid()
      requires Start || -1 <= DBCnt
      requires FPDULength >= MIN_PDU_SIZE
      modifies this`DBCnt
      ensures var cnt := if Start then -1 else old(DBCnt);
              var p := BlockList.Page(FServer.DB[..] + [behind], FServer.DBLimit + 1, (FPDULength - 32) / 4, cnt);
              if BlockType != BLOCK_DB then reply == BlockList.NoResource(0) && DBCnt == 0
              else if FServer.DBCount == 0 then reply == BlockList.NoResource(0) && DBCnt == 0
              else reply == p.0 && DBCnt == p.1
      ensures |reply.items| <= (FPDULength - 32) / 4
    {
      if BlockType != BLOCK_DB {
        DBCnt := 0;
        return BlockList.NoResource(0);
      }
      if Start { DBCnt := -1; }
      if FServer.DBCount <= 0 {
        DBCnt := 0;
        return BlockList.NoResource(0);
      }
      hide BlockList.Scan, FServer.Valid;
      var HiBound := FServer.DBLimit + 1;
      var MaxItems := (FPDULength - 32) / 4;
      var items := ScanPage(HiBound, MaxItems, behind);
      var rsvd := BlockList.RSVD_MORE;
      if |items| < MaxItems || DBCnt == HiBound {
        DBCnt := 0;
        rsvd := BlockList.RSVD_DONE;
      }
      if |items| > 0 {
        reply := BlockList.ListReply(rsvd, 0, 0xFF, items);
      } else {
        DBCnt := 0;
        reply := BlockList.NoResource(rsvd);
      }
    }

    /** The scan: the numbers of the next occupied slots, at most a page of them. */
    method ScanPage(HiBound: int, MaxItems: nat, behind: Option<TS7Area>) returns (items: seq<word>)
      requires FServer.Valid() && HiBound <= MAX_DB && -1 <= DBCnt
      modifies this`DBCnt
      ensures FServer.DB.Length == MAX_DB && |items| <= MaxItems
      ensures (items, DBCnt) == BlockList.Scan(FServer.DB[..] + [behind], HiBound, old(DBCnt), MaxItems)
    {
      items := [];
      ghost var slots := FServer.DB[..] + [behind];
      ghost var from := DBCnt;
      assert |slots| == MAX_DB + 1;
      ghost var all := BlockList.Scan(slots, HiBound, from, MaxItems);
      hide FServer.Valid, BlockList.Scan;
      while |items| < MaxItems && DBCnt < HiBound
        invariant from <= DBCnt && |items| <= MaxItems && slots == FServer.DB[..] + [behind] && |slots| == MAX_DB + 1
        invariant var rest := BlockList.Scan(slots, HiBound, DBCnt, MaxItems - |items|);
                  all.0 == items + rest.0 && all.1 == rest.1
        decreases HiBound - DBCnt
      {
        BlockList.ScanUnfolds(slots, HiBound, DBCnt, MaxItems - |items|);
        DBCnt := DBCnt + 1;
        var slot := if DBCnt < MAX_DB then FServer.DB[DBCnt] else behind;
        assert slot == slots[DBCnt];
        if slot.Some? {
          items := items + [slot.value.Number];
        }
      }
      BlockList.ScanUnfolds(slots, HiBound, DBCnt, MaxItems - |items|);
      assert items + [] == items;
    }
  }

  function Distance(a: int, b: int): nat {
    if a < b then b - a else a - b
  }

  lemma RepliesNone(mem: Memory, pdu: bytes, pduLength: int)
    ensures Replies(mem, pdu, pduLength, 0) == []
    ensures forall n :: ReplyBody([], n) == []
  {
  }

  lemma WriteItemsNone(mem: Memory, pdu: bytes)
    ensures WriteItems(mem, pdu, 0) == ([], mem)
    ensures StartData(pdu, 0) == REQ_HEADER_SIZE + WordAt(pdu, 6)
  {
  }

  lemma WriteItemIs(mem: Memory, it: Item, d: bytes)
    ensures var code := CheckWrite(AreaSize(mem, it), it, d);
            if code != CODE_OK then WriteItem(mem, it, d) == (code, mem)
            else
              var key := KeyOf(it.Area, it.DBNumber);
              && key.Some? && key.value in mem && StartByte(it) + SizeOf(it) <= |mem[key.value]|
              && WriteItem(mem, it, d)
                 == (CODE_OK, mem[key.value := Splice(mem[key.value], StartByte(it),
                                                      StoredBytes(mem[key.value], it, Payload(it, d)))])
  {
    hide StoredBytes, Splice, Payload;
    if CheckWrite(AreaSize(mem, it), it, d) == CODE_OK { AcceptedWriteFits(AreaSize(mem, it), it, d); }
  }

  function SizeOfArea(P: Option<TS7Area>): Option<nat> {
    if P.Some? then Some(P.value.Size) else None
  }

  lemma AcceptedReadFits(size: Option<nat>, it: Item, remainder: int)
    requires CheckRead(size, it, remainder).0 == CODE_OK
    ensures size.Some? && StartByte(it) + SizeOf(it) <= size.value
  {
  }

  lemma AcceptedWriteFits(size: Option<nat>, it: Item, d: bytes)
    requires CheckWrite(size, it, d) == CODE_OK
    ensures size.Some? && StartByte(it) + SizeOf(it) <= size.value
  {
  }
}
