/** The client operations, run against one connection of the server. */
module S7Client {
  import opened Arithmetic
  import opened S7Types
  import opened S7Server
  import opened S7Items
  import opened S7Telegrams
  import opened S7Worker
  import AreaTransfer
  import BlockList
  import opened MultiVars

  /** The sequence number that follows. */
  function NextWord(w: word): word {
    if w == 0xFFFF then 0 else w
  }

  class TSnap7MicroClient {
    var PDULength: int
    var cntword: word
    ghost var Longest: nat  // length of the longest telegram sent or received

    ghost predicate Connected()
      reads this
    {
      AreaTransfer.Negotiated(PDULength)
    }

    method GetNextWord() returns (w: word)
      modifies this`cntword
      ensures w == NextWord(old(cntword)) && cntword == w + 1
    {
      if cntword == 0xFFFF { cntword := 0; }
      w := cntword;
      cntword := cntword + 1;
    }

    /** Sends one write telegram with variable `v` and takes the item's return code from the answer. */
    method WriteTelegram(v: WriteVar, peer: TS7Worker) returns (Result: int, code: byte)
      requires peer.FServer.Valid()
      requires |v.data| < 0x1000 && 0 <= v.WordLen < 0x100 && (v.WordLen == WL_BIT ==> v.data != [])
      modifies this`cntword, this`Longest, peer.FServer.Buffers()
      ensures peer.FServer.Valid()
      ensures 28 + |v.data| > ISO_CARRIED ==>
                Result == ERR_ISO_RECV_PACKET && peer.FServer.Contents() == old(peer.FServer.Contents())
      ensures 28 + |v.data| <= ISO_CARRIED ==>
                Result == 0 && (code, peer.FServer.Contents()) == WriteAlone(old(peer.FServer.Contents()), v)
      ensures Longest <= Max(old(Longest), 28 + |v.data|)
    {
      hide WriteAlone, WriteRequest, WriteItems, WriteAnswer, ItemsCount, WordAt, ByteAt, peer.FServer.Valid,
        peer.FServer.Contents;
      ghost var mem := peer.FServer.Contents();
      var sequence := GetNextWord();
      var request := WriteRequest(sequence, [v]);
      SingleWrite(mem, sequence, v);
      Longest := Max(Longest, |request|);
      code := 0;
      if |request| > ISO_CARRIED {
        Result := ERR_ISO_RECV_PACKET;  // the server refuses the packet and never answers
      } else {
        assert peer.FServer.Contents() == mem;
        var answer, _ := peer.PerformFunctionWrite(request);
        Longest := Max(Longest, |answer|);
        Result := CpuError(WordAt(answer, 10));
        code := ByteAt(answer, 14);
      }
    }

    /** Writes `job.Amount` elements from `pData`, telegram by telegram; for jobs whose telegrams come to an end. */
    method OpWriteArea(job: AreaTransfer.Job, pData: array<byte>, peer: TS7Worker) returns (Result: int)
      requires Connected() && peer.FServer.Valid()
      requires AreaTransfer.CheckJob(job) == 0 ==>
                 && pData.Length >= AreaTransfer.Total(job)
                 && AreaTransfer.WriteEnds(peer.FServer.Contents(), job, pData[..AreaTransfer.Total(job)], PDULength)
      requires pData !in peer.FServer.Buffers()
      modifies this`cntword, this`Longest, peer.FServer.Buffers()
      ensures peer.FServer.Valid()
      ensures AreaTransfer.CheckJob(job) != 0 ==>
                Result == AreaTransfer.CheckJob(job) && peer.FServer.Contents() == old(peer.FServer.Contents())
      ensures AreaTransfer.CheckJob(job) == 0 ==>
                AreaTransfer.WriteEndsWith(old(peer.FServer.Contents()), job, pData[..AreaTransfer.Total(job)], PDULength,
                                           Result, peer.FServer.Contents())
      ensures AreaTransfer.CheckJob(job) == 0 && AreaTransfer.ByteAddressed(job.WordLen) ==>
                Some((Result, peer.FServer.Contents()))
                == AreaTransfer.WriteVerdict(old(peer.FServer.Contents()), job, pData[..AreaTransfer.Total(job)], PDULength)
      ensures AreaTransfer.CheckJob(job) == 0 && job.Amount < 0x1_0000 ==>
                (Result, peer.FServer.Contents())
                == AreaTransfer.WriteLoop(old(peer.FServer.Contents()), job, pData[..AreaTransfer.Total(job)], PDULength, 0)
      ensures AreaTransfer.CheckJob(job) == 0 && AreaTransfer.ByteAddressed(job.WordLen) && job.Amount < 0x1_0000 ==>
                (Result, peer.FServer.Contents())
                == AreaTransfer.WriteOutcome(old(peer.FServer.Contents()), job, pData[..AreaTransfer.Total(job)], PDULength)
      ensures Longest <= Max(old(Longest), PDULength)
    {
      hide AreaTransfer.WriteEndsWith, AreaTransfer.WriteEnds, AreaTransfer.WriteVerdict, AreaTransfer.WriteOutcome, AreaTransfer.WriteLoop,
        peer.FServer.Valid, peer.FServer.Contents;
      var WordSize := DataSizeByte(job.WordLen);
      if WordSize == 0 { return ERR_CLI_INVALID_WORD_LEN; }
      if job.Number < 0 || job.Number > 65535 || job.Start < 0 || job.Amount < 1 { return ERR_CLI_INVALID_PARAMS; }
      if job.WordLen == WL_BIT && job.Amount > 1 { return ERR_CLI_INVALID_TRANSPORT_SIZE; }
      ContentsWellSized(peer.FServer);
      Result := WriteSlices(job, pData, peer);
      if job.Amount < 0x1_0000 {
        WrittenAsLooped(old(peer.FServer.Contents()), job, pData[..AreaTransfer.Total(job)], PDULength, Result, peer.FServer.Contents());
      }
      if AreaTransfer.ByteAddressed(job.WordLen) {
        WrittenAsDecided(old(peer.FServer.Contents()), job, pData[..AreaTransfer.Total(job)], PDULength, Result, peer.FServer.Contents());
      }
    }

    /** The loop of `OpWriteArea`, once the parameters are checked. */
    method WriteSlices(job: AreaTransfer.Job, pData: array<byte>, peer: TS7Worker) returns (Result: int)
      requires Connected() && peer.FServer.Valid()
      requires AreaTransfer.CheckJob(job) == 0 && pData.Length >= AreaTransfer.Total(job)
      requires AreaTransfer.WriteEnds(peer.FServer.Contents(), job, pData[..AreaTransfer.Total(job)], PDULength)
      requires pData !in peer.FServer.Buffers()
      modifies this`cntword, this`Longest, peer.FServer.Buffers()
      ensures peer.FServer.Valid()
      ensures AreaTransfer.WriteEndsWith(old(peer.FServer.Contents()), job, old(pData[..AreaTransfer.Total(job)]), PDULength,
                                         Result, peer.FServer.Contents())
      ensures Longest <= Max(old(Longest), PDULength)
    {
      hide WriteAlone, AreaTransfer.WriteStep, AreaTransfer.WriteMany, AreaTransfer.Bytes, AreaTransfer.MaxElements,
        AreaTransfer.NumElements, peer.FServer.Valid, peer.FServer.Contents;
      AreaTransfer.PieceBounds(job, 0, job.Amount);
      var WordSize := DataSizeByte(job.WordLen);
      assert WordSize > 0;
      hide DataSizeByte, CpuError;
      ghost var mem := peer.FServer.Contents();
      var data := pData[..AreaTransfer.Total(job)];
      ghost var start := AreaTransfer.WriteStart(mem);
      ghost var last: nat :| AreaTransfer.WriteOver(job, AreaTransfer.WriteMany(job, data, PDULength, start, last));
      var MaxElements := (PDULength - AreaTransfer.WRITE_OVERHEAD) / WordSize;
      var TotElements := job.Amount;
      var Start := job.Start;
      var Offset := 0;
      var First := true;
      ghost var e: nat, k: nat := 0, 0;
      Result := 0;
      AreaTransfer.ZeroTelegrams(job, data, PDULength, start);
      while TotElements > 0 && Result == 0
        invariant 0 <= TotElements <= job.Amount && e == job.Amount - TotElements
        invariant Start == job.Start + AreaTransfer.Bytes(job, e)
        invariant Result == 0 ==> Offset == AreaTransfer.Bytes(job, e)
        invariant peer.FServer.Valid() && k <= last
        invariant AreaTransfer.WriteMany(job, data, PDULength, start, k)
                  == AreaTransfer.Writing(e, First, Result, peer.FServer.Contents())
        invariant Longest <= Max(old(Longest), PDULength)
        decreases last - k
      {
        ghost var s := AreaTransfer.Writing(e, First, Result, peer.FServer.Contents());
        AreaTransfer.WriteRound(job, data, PDULength, s);
        AreaTransfer.WriteManyNext(job, data, PDULength, start, k, last);
        var NumElements := TotElements % 0x1_0000;
        if NumElements > MaxElements { NumElements := MaxElements; }
        AreaTransfer.NumElementsIs(job, e, PDULength, AreaTransfer.WRITE_OVERHEAD);
        ghost var n := AreaTransfer.NumElements(job, e, PDULength, AreaTransfer.WRITE_OVERHEAD);
        assert NumElements == n;
        AreaTransfer.SizeIsBytes(job, n);
        var Size := NumElements * WordSize;
        assert Size == AreaTransfer.Bytes(job, n) && Offset + Size == AreaTransfer.Bytes(job, e + n) <= |data|;
        var Source := data[Offset..Offset + Size];
        RefusalIsAnError(peer.FServer.Contents(), WriteVar(job.Area, job.WordLen, job.Number, Start, NumElements, Source));
        var code;
        Result, code := WriteTelegram(
          WriteVar(job.Area, job.WordLen, job.Number, Start, NumElements, Source), peer);
        if Result == 0 {
          if code == CODE_OK { Result := 0; }
          else if First { Result := CpuError(code); }
          else { Result := ERR_CLI_PARTIAL_DATA_WRITTEN; }
          Offset := Offset + Size;
        }
        First := false;
        TotElements := TotElements - NumElements;
        Start := Start + NumElements * WordSize;
        e, k := e + NumElements, k + 1;
      }
    }

    /** Sends one read telegram with item `item`: a transport result, then the item's own result and data. */
    method ReadTelegram(item: bytes, peer: TS7Worker) returns (Result: int, itemResult: int, data: bytes)
      requires peer.FServer.Valid() && |item| == ITEM_SIZE
      requires |ReadItem(peer.FServer.Contents(), DecodeItem(item), peer.FPDULength).data| < 0x2000
      modifies this`cntword, this`Longest
      ensures var r := ReadItem(peer.FServer.Contents(), DecodeItem(item), peer.FPDULength);
              && Longest <= Max(old(Longest), Max(24, 18 + |r.data|))
              && if 18 + |r.data| > ISO_PAYLOAD_SIZE then Result == ERR_ISO_RECV_PACKET
                 else if 18 + |r.data| > ISO_CARRIED then Result == ERR_ISO_INVALID_PDU
                 else Result == 0 && (itemResult, data) == Outcome(r)
    {
      hide ReadItem, ReadRequest, ReadAnswer, DecodeItem, ClientItem, From, Outcome, CheckPduIn, peer.FServer.Valid;
      ghost var mem := peer.FServer.Contents();
      itemResult, data := 0, [];
      var sequence := GetNextWord();
      var request := ReadRequest(sequence, [item]);
      SingleRead(mem, sequence, item, peer.FPDULength);
      Longest := Max(Longest, |request|);
      assert peer.FServer.Contents() == mem;
      var answer, wild := peer.PerformFunctionRead(request);
      assert answer == ReadAnswer(mem, request, peer.FPDULength);
      Longest := Max(Longest, |answer|);
      if wild {
        Result := ERR_ISO_RECV_PACKET;  // the server's packet is refused where it is sent
      } else if |answer| > ISO_CARRIED {
        Result := ERR_ISO_INVALID_PDU;
      } else {
        Result := 0;
        var r := ClientItem(From(answer, 14), 0);
        itemResult, data := r.0, r.1;
      }
      assert peer.FServer.Contents() == mem;
    }

    /** Reads `job.Amount` elements into `pData`, telegram by telegram; for jobs whose telegrams come to an end. */
    method OpReadArea(job: AreaTransfer.Job, pData: array<byte>, peer: TS7Worker) returns (Result: int)
      requires Connected() && peer.FServer.Valid() && peer.FPDULength == PDULength
      requires AreaTransfer.CheckJob(job) == 0 ==>
                 && pData.Length >= AreaTransfer.Total(job)
                 && AreaTransfer.ReadEnds(peer.FServer.Contents(), job, pData[..], PDULength)
      requires pData !in peer.FServer.Buffers()
      modifies this`cntword, this`Longest, pData
      ensures peer.FServer.Valid() && peer.FServer.Contents() == old(peer.FServer.Contents())
      ensures AreaTransfer.CheckJob(job) != 0 ==> Result == AreaTransfer.CheckJob(job) && pData[..] == old(pData[..])
      ensures AreaTransfer.CheckJob(job) == 0 ==>
                AreaTransfer.ReadEndsWith(peer.FServer.Contents(), job, old(pData[..]), PDULength, Result, pData[..])
      ensures AreaTransfer.CheckJob(job) == 0 && AreaTransfer.ByteAddressed(job.WordLen) ==>
                Some((Result, pData[..])) == AreaTransfer.ReadVerdict(peer.FServer.Contents(), job, old(pData[..]), PDULength)
      ensures AreaTransfer.CheckJob(job) == 0 && job.Amount < 0x1_0000 ==>
                (Result, pData[..]) == AreaTransfer.ReadLoop(peer.FServer.Contents(), job, old(pData[..]), PDULength, 0)
      ensures AreaTransfer.CheckJob(job) == 0 && AreaTransfer.ByteAddressed(job.WordLen) && job.Amount < 0x1_0000 ==>
                (Result, pData[..]) == AreaTransfer.ReadOutcome(peer.FServer.Contents(), job, old(pData[..]), PDULength)
      ensures Longest <= Max(old(Longest), PDULength)
    {
      hide AreaTransfer.ReadEndsWith, AreaTransfer.ReadEnds, AreaTransfer.ReadVerdict, AreaTransfer.ReadOutcome, AreaTransfer.ReadLoop,
        peer.FServer.Valid, peer.FServer.Contents;
      ghost var mem := peer.FServer.Contents();
      var WordSize := DataSizeByte(job.WordLen);
      if WordSize == 0 { return ERR_CLI_INVALID_WORD_LEN; }
      if job.Number < 0 || job.Number > 65535 || job.Start < 0 || job.Amount < 1 { return ERR_CLI_INVALID_PARAMS; }
      if job.WordLen == WL_BIT && job.Amount > 1 { return ERR_CLI_INVALID_TRANSPORT_SIZE; }
      Result := ReadSlices(job, pData, peer);
      if job.Amount < 0x1_0000 {
        ReadAsLooped(mem, job, old(pData[..]), PDULength, Result, pData[..]);
      }
      if AreaTransfer.ByteAddressed(job.WordLen) {
        ContentsWellSized(peer.FServer);
        ReadAsDecided(mem, job, old(pData[..]), PDULength, Result, pData[..]);
      }
    }

    /** The loop of `OpReadArea`, once the parameters are checked. */
    method ReadSlices(job: AreaTransfer.Job, pData: array<byte>, peer: TS7Worker) returns (Result: int)
      requires Connected() && peer.FServer.Valid() && peer.FPDULength == PDULength
      requires AreaTransfer.CheckJob(job) == 0 && pData.Length >= AreaTransfer.Total(job)
      requires AreaTransfer.ReadEnds(peer.FServer.Contents(), job, pData[..], PDULength)
      requires pData !in peer.FServer.Buffers()
      modifies this`cntword, this`Longest, pData
      ensures peer.FServer.Valid() && peer.FServer.Contents() == old(peer.FServer.Contents())
      ensures AreaTransfer.ReadEndsWith(peer.FServer.Contents(), job, old(pData[..]), PDULength, Result, pData[..])
      ensures Longest <= Max(old(Longest), PDULength)
    {
      hide ReadItem, DecodeItem, EncodeItem, AreaTransfer.ReadStep, AreaTransfer.ReadMany, AreaTransfer.Bytes,
        AreaTransfer.MaxElements, AreaTransfer.NumElements, peer.FServer.Valid, peer.FServer.Contents;
      AreaTransfer.PieceBounds(job, 0, job.Amount);
      var WordSize := DataSizeByte(job.WordLen);
      assert WordSize > 0;
      hide DataSizeByte, CpuError;
      ghost var mem := peer.FServer.Contents();
      ghost var start := AreaTransfer.ReadStart(pData[..]);
      ghost var last: nat :| AreaTransfer.ReadOver(job, AreaTransfer.ReadMany(mem, job, PDULength, start, last));
      var MaxElements := (PDULength - AreaTransfer.READ_OVERHEAD) / WordSize;
      var TotElements := job.Amount;
      var Start := job.Start;
      var Offset := 0;
      ghost var e: nat, k: nat := 0, 0;
      Result := 0;
      AreaTransfer.ReadManyFirst(mem, job, PDULength, start, 0);
      while TotElements > 0 && Result == 0
        invariant 0 <= TotElements <= job.Amount && e == job.Amount - TotElements
        invariant Start == job.Start + AreaTransfer.Bytes(job, e)
        invariant Result == 0 ==> Offset == AreaTransfer.Bytes(job, e)
        invariant peer.FServer.Valid() && peer.FServer.Contents() == mem && k <= last
        invariant AreaTransfer.ReadMany(mem, job, PDULength, start, k) == AreaTransfer.Reading(e, Result, pData[..])
        invariant Longest <= Max(old(Longest), PDULength)
        decreases last - k
      {
        AreaTransfer.ReadRound(mem, job, PDULength, AreaTransfer.Reading(e, Result, pData[..]));
        AreaTransfer.ReadManyNext(mem, job, PDULength, start, k, last);
        var NumElements := TotElements % 0x1_0000;
        if NumElements > MaxElements { NumElements := MaxElements; }
        AreaTransfer.NumElementsIs(job, e, PDULength, AreaTransfer.READ_OVERHEAD);
        AreaTransfer.SizeIsBytes(job, NumElements);
        var item := EncodeItem(job.Area, job.WordLen, NumElements, job.Number, Start);
        var itemResult, data;
        Result, itemResult, data := ReadTelegram(item, peer);
        if Result == 0 {
          if itemResult == 0 {
            CopyInto(pData, Offset, data);
          } else {
            Result := itemResult;
          }
          Offset := Offset + |data|;
        }
        TotElements := TotElements - NumElements;
        Start := Start + NumElements * WordSize;
        e, k := e + NumElements, k + 1;
      }
    }

    /** Reads up to 20 variables with one telegram; each receives its own data or its own error. */
    method OpReadMultiVars(Items: array<TS7DataItem>, peer: TS7Worker) returns (Result: int)
      requires Connected() && peer.FServer.Valid() && peer.FPDULength == PDULength
      requires forall i :: 0 <= i < Items.Length ==> HasRoom(Items[i])
      modifies this`cntword, this`Longest, Items
      ensures peer.FServer.Valid() && peer.FServer.Contents() == old(peer.FServer.Contents())
      ensures var n := Items.Length;
              var its := AdjustedAll(old(Items[..]));
              var rs := ReadOutcomes(peer.FServer.Contents(), its, PDULength);
              if n > 20 then Result == 0x0040_0000 && Items[..] == old(Items[..])
              else if 12 + 12 * n > PDULength then Result == 0x0070_0000 && Items[..] == its
              else if 14 + |ReplyBody(rs, n)| > 4096 then Result == 0x000A_0000 && Items[..] == its
              else if 14 + |ReplyBody(rs, n)| > 4089 then Result == 0x0003_0000 && Items[..] == its
              else Result == 0 && Fit(its, rs) && Items[..] == ReceivedAll(its, rs)
      ensures Result == 0 ==>
                exists lefts: seq<int> ::
                  && |lefts| == Items.Length + 1 && lefts[0] == PDULength
                  && forall i :: 0 <= i < Items.Length ==>
                       ReadAsAsked(peer.FServer.Contents(), old(Items[..])[i], lefts[i], lefts[i + 1], Items[i])
    {
      hide ReplyBody, ReadOutcomes, SentEntry, Received, ReadAsAsked, peer.FServer.Valid;
      ghost var mem := peer.FServer.Contents();
      var ItemsCount := Items.Length;
      if ItemsCount > MAX_VARS { return ERR_CLI_TOO_MANY_ITEMS; }
      AdjustItems(Items);
      ghost var its := Items[..];
      assert its == AdjustedAll(old(Items[..]));
      if 12 + ITEM_SIZE * ItemsCount > PDULength { return ERR_CLI_SIZE_OVER_PDU; }
      assert peer.FServer.Contents() == mem;
      Result := ReadEntries(Items, peer);
      if Result == 0 { ghost var lefts := ReadOnBytes(mem, old(Items[..]), PDULength, Items[..]); }
    }

    /** The telegram of `OpReadMultiVars`, once the entries are checked. */
    method ReadEntries(Items: array<TS7DataItem>, peer: TS7Worker) returns (Result: int)
      requires Connected() && peer.FServer.Valid() && peer.FPDULength == PDULength
      requires Items.Length <= MAX_VARS
      requires forall i :: 0 <= i < Items.Length ==> SizeOf(SentEntry(Items[i])) <= |Items[i].pdata|
      modifies this`cntword, this`Longest, Items
      ensures peer.FServer.Valid() && peer.FServer.Contents() == old(peer.FServer.Contents())
      ensures var its := old(Items[..]);
              var rs := ReadOutcomes(peer.FServer.Contents(), its, PDULength);
              if 14 + |ReplyBody(rs, |its|)| > ISO_PAYLOAD_SIZE then Result == ERR_ISO_RECV_PACKET && Items[..] == its
              else if 14 + |ReplyBody(rs, |its|)| > ISO_CARRIED then Result == ERR_ISO_INVALID_PDU && Items[..] == its
              else Result == 0 && Fit(its, rs) && Items[..] == ReceivedAll(its, rs)
    {
      hide ReplyBody, ReadOutcomes, SentEntry, Received, EncodeEntry, Encodable, SizeOf, peer.FServer.Valid;
      ghost var mem := peer.FServer.Contents();
      ghost var its := Items[..];
      var items := EncodeEntries(Items);
      var body;
      Result, body := ReadVars(items, its, peer);
      assert peer.FServer.Contents() == mem;
      if Result != 0 { return; }
      OutcomesFit(mem, its, PDULength);
      DistributeAnswer(Items, body, ReadOutcomes(mem, its, PDULength));
      assert peer.FServer.Contents() == mem;
    }

    /** Exchanges the read telegram for encoded entries and takes the items from the answer. */
    method ReadVars(items: seq<bytes>, ghost its: seq<TS7DataItem>, peer: TS7Worker) returns (Result: int, body: bytes)
      requires peer.FServer.Valid() && peer.FPDULength == PDULength
      requires |items| == |its| <= MAX_VARS && forall i :: 0 <= i < |items| ==> items[i] == EncodeEntry(its[i])
      modifies this`cntword, this`Longest
      ensures var section := ReplyBody(ReadOutcomes(peer.FServer.Contents(), its, PDULength), |its|);
              if 14 + |section| > ISO_PAYLOAD_SIZE then Result == ERR_ISO_RECV_PACKET
              else if 14 + |section| > ISO_CARRIED then Result == ERR_ISO_INVALID_PDU
              else Result == 0 && body == section
    {
      hide ReplyBody, ReadOutcomes, EncodeEntry, ReadRequest, ReadAnswer, CheckPduIn, WordAt, ByteAt, From, peer.FServer.Valid;
      ghost var mem := peer.FServer.Contents();
      body := [];
      var sequence := GetNextWord();
      var request := ReadRequest(sequence, items);
      Longest := Max(Longest, |request|);
      MultiReadAnswer(mem, sequence, its, items, PDULength);
      assert peer.FServer.Contents() == mem;
      var answer, wild := peer.PerformFunctionRead(request);
      assert answer == ReadAnswer(mem, request, PDULength);
      Longest := Max(Longest, |answer|);
      assert peer.FServer.Contents() == mem;
      if wild { return ERR_ISO_RECV_PACKET, body; }  // the server's packet is refused where it is sent
      if |answer| > ISO_CARRIED { return ERR_ISO_INVALID_PDU, body; }
      var error := CpuError(WordAt(answer, 10));
      if error != 0 { return error, body; }
      if ByteAt(answer, 13) != |items| { return ERR_CLI_INVALID_PLC_ANSWER, body; }
      body := From(answer, 14);
      Result := 0;
    }

    /**
     Writes up to 20 variables with one telegram: the server executes the items where it finds them. When no entry
     but the last is a non-empty Real or Char, that is writing them one after the other, each with its own result.
     */
    method OpWriteMultiVars(Items: array<TS7DataItem>, peer: TS7Worker) returns (Result: int)
      requires Connected() && peer.FServer.Valid()
      requires forall i :: 0 <= i < Items.Length ==> SendSize(Adjusted(Items[i])) <= |Items[i].pdata|
      modifies this`cntword, this`Longest, Items, peer.FServer.Buffers()
      ensures peer.FServer.Valid()
      ensures var n := Items.Length;
              var its := AdjustedAll(old(Items[..]));
              var vs := ToVars(its);
              var mem := old(peer.FServer.Contents());
              var size := 12 + 12 * n + |DataSection(vs, n)|;
              if n > 20 then
                Result == 0x0040_0000 && Items[..] == old(Items[..]) && peer.FServer.Contents() == mem
              else if size > PDULength then
                Result == 0x0070_0000 && Items[..] == its && peer.FServer.Contents() == mem
              else if size > 4089 then
                Result == 0x000A_0000 && Items[..] == its && peer.FServer.Contents() == mem
              else
                && Result == 0 && Executed(mem, its, WriteRequest(NextWord(old(cntword)), vs), peer.FServer.Contents(), Items[..])
                && (InTurnSafe(vs) ==> WrittenInTurn(mem, its, vs, peer.FServer.Contents(), Items[..]))
      ensures Result == 0
              && (forall i :: 0 <= i < Items.Length ==>
                    var it := old(Items[..])[i];
                    it.Area in {0x1C, 0x1D} || it.WordLen in {2, 4, 5, 6, 7} || (i == Items.Length - 1 && it.WordLen in {3, 8})) ==>
                exists mems: seq<Memory> ::
                  && |mems| == Items.Length + 1 && mems[0] == old(peer.FServer.Contents()) && mems[Items.Length] == peer.FServer.Contents()
                  && forall i :: 0 <= i < Items.Length ==> WrittenAsAsked(old(Items[..])[i], mems[i], mems[i + 1], Items[i])
    {
      hide DataSection, WriteInTurn, WrittenInTurn, Executed, WriteRequest, InTurnSafe, WrittenAsAsked, SendSize, peer.FServer.Valid;
      ghost var mem := peer.FServer.Contents();
      var ItemsCount := Items.Length;
      if ItemsCount > MAX_VARS { return ERR_CLI_TOO_MANY_ITEMS; }
      AdjustItems(Items);
      assert Items[..] == AdjustedAll(old(Items[..]));
      assert peer.FServer.Contents() == mem;
      Result := WriteEntries(Items, peer);
      ghost var entries := old(Items[..]);
      if Result == 0
         && forall i :: 0 <= i < |entries| ==>
              entries[i].Area in {0x1C, 0x1D} || entries[i].WordLen in {2, 4, 5, 6, 7} || (i == |entries| - 1 && entries[i].WordLen in {3, 8}) {
        SafeInTurn(entries);
        ghost var mems := InTurnOnBytes(mem, entries, peer.FServer.Contents(), Items[..]);
      }
    }

    /** The telegram of `OpWriteMultiVars`, once the entries are adjusted. */
    method WriteEntries(Items: array<TS7DataItem>, peer: TS7Worker) returns (Result: int)
      requires Connected() && peer.FServer.Valid() && Items.Length <= MAX_VARS
      requires forall i :: 0 <= i < Items.Length ==> SendSize(Items[i]) <= |Items[i].pdata|
      modifies this`cntword, this`Longest, Items, peer.FServer.Buffers()
      ensures peer.FServer.Valid()
      ensures var n := Items.Length;
              var its := old(Items[..]);
              var vs := ToVars(its);
              var mem := old(peer.FServer.Contents());
              var size := 12 + ITEM_SIZE * n + |DataSection(vs, n)|;
              if size > PDULength then
                Result == ERR_CLI_SIZE_OVER_PDU && Items[..] == its && peer.FServer.Contents() == mem
              else if size > ISO_CARRIED then
                Result == ERR_ISO_RECV_PACKET && Items[..] == its && peer.FServer.Contents() == mem
              else
                && Result == 0 && Executed(mem, its, WriteRequest(NextWord(old(cntword)), vs), peer.FServer.Contents(), Items[..])
                && (InTurnSafe(vs) ==> WrittenInTurn(mem, its, vs, peer.FServer.Contents(), Items[..]))
    {
      hide DataSection, WriteInTurn, WrittenInTurn, Executed, WriteItems, WriteRequest, InTurnSafe, CodeResult, WithCodes,
        peer.FServer.Valid, peer.FServer.Contents;
      ghost var mem := peer.FServer.Contents();
      ghost var its := Items[..];
      var vs, Offset := BuildVars(Items);
      if 12 + ITEM_SIZE * |vs| + Offset > PDULength { return ERR_CLI_SIZE_OVER_PDU; }
      SendableVars(its);
      var codes;
      Result, codes := SendVars(vs, peer);
      ghost var after := peer.FServer.Contents();
      if Result != 0 { return; }
      WrittenInTurnBy(mem, its, vs, codes, after);
      ExecutedBy(mem, its, WriteRequest(NextWord(old(cntword)), vs), codes, after);
      TakeCodes(Items, codes);
      assert peer.FServer.Contents() == after;
    }

    /** Exchanges the telegram for `vs` and takes the return codes from the answer. */
    method SendVars(vs: seq<WriteVar>, peer: TS7Worker) returns (Result: int, codes: bytes)
      requires peer.FServer.Valid() && Sendable(vs)
      modifies this`cntword, this`Longest, peer.FServer.Buffers()
      ensures peer.FServer.Valid()
      ensures 12 + ITEM_SIZE * |vs| + |DataSection(vs, |vs|)| > ISO_CARRIED ==>
                Result == ERR_ISO_RECV_PACKET && peer.FServer.Contents() == old(peer.FServer.Contents())
      ensures 12 + ITEM_SIZE * |vs| + |DataSection(vs, |vs|)| <= ISO_CARRIED ==>
                && Result == 0 && |codes| == |vs|
                && (codes, peer.FServer.Contents())
                   == WriteItems(old(peer.FServer.Contents()), WriteRequest(NextWord(old(cntword)), vs), |vs|)
                && (InTurnSafe(vs) ==> (codes, peer.FServer.Contents()) == WriteInTurn(old(peer.FServer.Contents()), vs))
    {
      hide DataSection, WriteInTurn, WriteItems, InTurnSafe, WriteRequest, WriteAnswer, Sendable, CheckPduIn, WordAt, ByteAt,
        ItemsCount, From, peer.FServer.Valid, peer.FServer.Contents;
      ghost var mem := peer.FServer.Contents();
      codes := [];
      var sequence := GetNextWord();
      SendableCount(vs);
      var request := WriteRequest(sequence, vs);
      Longest := Max(Longest, |request|);
      MultiWriteAnswer(mem, sequence, vs);
      assert peer.FServer.Contents() == mem;
      if |request| > ISO_CARRIED { return ERR_ISO_RECV_PACKET, codes; }
      ghost var r := WriteItems(mem, request, |vs|);
      var answer, _ := peer.PerformFunctionWrite(request);
      assert answer == WriteAnswer(request, r.0) && peer.FServer.Contents() == r.1;
      Longest := Max(Longest, |answer|);
      assert peer.FServer.Contents() == r.1;
      Result := CpuError(WordAt(answer, 10));
      if Result == 0 && ByteAt(answer, 13) != |vs| { Result := ERR_CLI_INVALID_PLC_ANSWER; }
      if Result == 0 { codes := From(answer, 14); }
    }

    /**
     Lists the numbers of all blocks of a type. The listing is complete when the number of blocks is
     not a multiple of the page size; when it is, the last answer says "no resource" and the client
     reports a failure instead. `behind` is what the memory behind the server's table holds.
     */
    method OpListBlocksOfType(BlockType: byte, Room: nat, peer: TS7Worker, behind: Option<TS7Area>)
      returns (Result: int, list: seq<word>)
      requires Connected() && peer.FServer.Valid() && peer.FPDULength == PDULength
      modifies peer`DBCnt
      ensures var last := peer.FServer.DBLimit == 2047 && behind.Some?;
              var numbers := Numbers(peer.FServer.DB[..]) + (if last then [behind.value.Number] else []);
              var page := (PDULength - 32) / 4;
              && Result == (if BlockType != 0x41 || peer.FServer.DBCount == 0 then 0x00C0_0000
                            else if |numbers| >= page && 26 + 4 * page > 4089 then 0x0003_0000
                            else if |numbers| % page == 0 && !last then 0x00C0_0000
                            else if |numbers| > Room then 0x0210_0000
                            else 0)
              && list == (if Result == 0 then numbers
                          else if Result == 0x0210_0000 then numbers[..Room] else [])
    {
      hide BlockList.Page, BlockList.Remaining, peer.FServer.Valid;
      var page := (PDULength - 32) / 4;
      ghost var slots := peer.FServer.DB[..] + [behind];
      ghost var hi := peer.FServer.DBLimit + 1;
      AboveTheMark(peer.FServer);
      BlockList.RemainingAtStart(peer.FServer.DB[..], hi, behind);
      BlockList.ListLoopResult(slots, hi, page, -1);
      assert slots[hi].Some? <==> hi == MAX_DB && behind.Some?;
      Result, list := CollectPages(BlockType, page, peer, behind);
      if Result == 0 && |list| > Room {
        list, Result := list[..Room], ERR_CLI_PARTIAL_DATA_READ;
      }
    }

    /** The loop of `OpListBlocksOfType`: a start request, then continuations until the answer says it is the last. */
    method CollectPages(BlockType: byte, ghost page: nat, peer: TS7Worker, behind: Option<TS7Area>)
      returns (Result: int, list: seq<word>)
      requires peer.FServer.Valid() && peer.FPDULength >= MIN_PDU_SIZE && page == (peer.FPDULength - 32) / 4
      modifies peer`DBCnt
      ensures peer.FServer.DB.Length == MAX_DB && 0 <= peer.FServer.DBLimit < MAX_DB
      ensures (Result, list) ==
              if BlockType != BLOCK_DB || peer.FServer.DBCount == 0 then (ERR_CLI_ITEM_NOT_AVAILABLE, [])
              else BlockList.ListLoop(peer.FServer.DB[..] + [behind], peer.FServer.DBLimit + 1, page, -1)
    {
      hide BlockList.Page, BlockList.Remaining, peer.FServer.Valid;
      var Done, First := false, true;
      list, Result := [], 0;
      AboveTheMark(peer.FServer);
      ghost var slots := peer.FServer.DB[..] + [behind];
      ghost var hi := peer.FServer.DBLimit + 1;
      ghost var empty := BlockType != BLOCK_DB || peer.FServer.DBCount == 0;
      ghost var cnt := -1;
      while !Done && Result == 0
        invariant peer.FServer.Valid() && peer.FServer.DB[..] + [behind] == slots
        invariant -1 <= cnt <= hi && if First then cnt == -1 && !Done && Result == 0 && list == [] else
                    !empty && !Done && Result == 0 ==> peer.DBCnt == cnt
        invariant Done ==> Result == 0
        invariant var all := BlockList.ListLoop(slots, hi, page, -1);
                  if empty then First || Result == ERR_CLI_ITEM_NOT_AVAILABLE
                  else if Done then all == (0, list)
                  else if Result != 0 then all == (Result, [])
                  else
                    var rest := BlockList.ListLoop(slots, hi, page, cnt);
                    all.0 == rest.0 && (rest.0 == 0 ==> all.1 == list + rest.1)
        decreases if Done || Result != 0 then 0 else 1 + |BlockList.Remaining(slots, hi, cnt)|
      {
        BlockList.PageByCount(slots, hi, page, cnt);
        CountIsNat(peer.FServer);
        var reply := peer.BLK_ListBoT(BlockType, First, behind);
        if BlockList.LIST_OVERHEAD + 4 * |reply.items| > ISO_CARRIED {
          Result := ERR_ISO_INVALID_PDU;
        } else if reply.errNo == 0 && reply.retVal == 0xFF {
          Done := reply.rsvd / 0x100 == 0;
          ghost var before := list;
          list := list + reply.items;
          assert forall rest :: before + (reply.items + rest) == list + rest;
          cnt := if Done then cnt else peer.DBCnt;
        } else {
          Result := ERR_CLI_ITEM_NOT_AVAILABLE;
        }
        First := false;
      }
      if Result != 0 { list := []; }
    }
  }

  lemma AboveTheMark(server: TSnap7Server)
    requires server.Valid()
    ensures server.DB.Length == MAX_DB && 0 <= server.DBLimit < MAX_DB
    ensures forall i :: server.DBLimit < i < MAX_DB ==> server.DB[..][i].None?
  {
  }

  lemma CountIsNat(server: TSnap7Server)
    requires server.Valid()
    ensures server.DBCount >= 0
  {
  }

  lemma SendableCount(vs: seq<WriteVar>)
    requires Sendable(vs)
    ensures |vs| <= MAX_VARS
  {
  }

  /** memcpy into a user buffer. */
  method CopyInto(target: array<byte>, at: nat, data: bytes)
    requires at + |data| <= target.Length
    modifies target
    ensures target[..] == Splice(old(target[..]), at, data)
  {
    forall i | 0 <= i < |data| { target[at + i] := data[i]; }
  }

  lemma RefusalIsAnError(mem: Memory, v: WriteVar)
    ensures WriteAlone(mem, v).0 != CODE_OK ==> CpuError(WriteAlone(mem, v).0) != 0
  {
  }

  lemma WrittenAsLooped(mem: Memory, job: AreaTransfer.Job, data: bytes, pduLength: int, result: int, after: Memory)
    requires AreaTransfer.WriteJob(job, data, pduLength) && job.Amount < 0x1_0000
    requires AreaTransfer.WriteEndsWith(mem, job, data, pduLength, result, after)
    ensures AreaTransfer.WriteLoop(mem, job, data, pduLength, 0) == (result, after)
  {
    hide AreaTransfer.WriteEndsWith, AreaTransfer.WriteLoop;
    var r := AreaTransfer.WriteLoop(mem, job, data, pduLength, 0);
    AreaTransfer.SmallWriteEnds(mem, job, data, pduLength);
    AreaTransfer.WriteEndsOnce(mem, job, data, pduLength, result, after, r.0, r.1);
  }

  lemma ReadAsLooped(mem: Memory, job: AreaTransfer.Job, buffer: bytes, pduLength: int, result: int, after: bytes)
    requires AreaTransfer.ReadJob(job, pduLength, |buffer|) && job.Amount < 0x1_0000
    requires AreaTransfer.ReadEndsWith(mem, job, buffer, pduLength, result, after)
    ensures AreaTransfer.ReadLoop(mem, job, buffer, pduLength, 0) == (result, after)
  {
    hide AreaTransfer.ReadEndsWith, AreaTransfer.ReadLoop;
    var r := AreaTransfer.ReadLoop(mem, job, buffer, pduLength, 0);
    AreaTransfer.SmallReadEnds(mem, job, buffer, pduLength);
    AreaTransfer.ReadEndsOnce(mem, job, buffer, pduLength, result, after, r.0, r.1);
  }

  lemma WrittenAsDecided(mem: Memory, job: AreaTransfer.Job, data: bytes, pduLength: int, result: int, after: Memory)
    requires AreaTransfer.WriteJob(job, data, pduLength) && AreaTransfer.ByteAddressed(job.WordLen) && AreaTransfer.WellSized(mem)
    requires AreaTransfer.WriteEndsWith(mem, job, data, pduLength, result, after)
    ensures AreaTransfer.WriteVerdict(mem, job, data, pduLength) == Some((result, after))
    ensures job.Amount < 0x1_0000 ==> AreaTransfer.WriteOutcome(mem, job, data, pduLength) == (result, after)
  {
    hide AreaTransfer.WriteMany, AreaTransfer.WriteOutcome, AreaTransfer.WriteVerdict;
    AreaTransfer.WriteRunIsVerdict(mem, job, data, pduLength);
    if job.Amount < 0x1_0000 { AreaTransfer.SmallWriteVerdict(mem, job, data, pduLength); }
    var v := AreaTransfer.WriteVerdict(mem, job, data, pduLength);
    AreaTransfer.WriteEndsOnce(mem, job, data, pduLength, result, after, v.value.0, v.value.1);
  }

  lemma ReadAsDecided(mem: Memory, job: AreaTransfer.Job, buffer: bytes, pduLength: int, result: int, after: bytes)
    requires AreaTransfer.ReadJob(job, pduLength, |buffer|) && AreaTransfer.ByteAddressed(job.WordLen) && AreaTransfer.WellSized(mem)
    requires AreaTransfer.ReadEndsWith(mem, job, buffer, pduLength, result, after)
    ensures AreaTransfer.ReadVerdict(mem, job, buffer, pduLength) == Some((result, after))
    ensures job.Amount < 0x1_0000 ==> AreaTransfer.ReadOutcome(mem, job, buffer, pduLength) == (result, after)
  {
    hide AreaTransfer.ReadMany, AreaTransfer.ReadOutcome, AreaTransfer.ReadVerdict;
    AreaTransfer.ReadRunIsVerdict(mem, job, buffer, pduLength);
    if job.Amount < 0x1_0000 { AreaTransfer.SmallReadVerdict(mem, job, buffer, pduLength); }
    var v := AreaTransfer.ReadVerdict(mem, job, buffer, pduLength);
    AreaTransfer.ReadEndsOnce(mem, job, buffer, pduLength, result, after, v.value.0, v.value.1);
  }

  lemma ContentsWellSized(server: TSnap7Server)
    requires server.Valid()
    ensures AreaTransfer.WellSized(server.Contents())
  {
  }
}
