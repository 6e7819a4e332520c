/**
 From registration to transfer: an area registered with the server is what a client operation that names it by its
 protocol code reads and writes.
 */
module RegisteredAreas {
  import opened S7Types
  import opened S7Server
  import opened S7Worker
  import opened S7Client
  import opened AreaTransfer

  /** Inputs, outputs and markers are registered as 0, 1 and 2 and read as 0x81, 0x82 and 0x83. */
  method RegisterThenRead(peer: TS7Worker, client: TSnap7MicroClient, index: nat, buffer: array<byte>, Size: word,
                          job: Job, pData: array<byte>)
    returns (Result: int)
    requires peer.FServer.Valid() && Sys(index) !in peer.FServer.Areas && buffer !in peer.FServer.Buffers() && Size <= buffer.Length
    requires client.Connected() && peer.FPDULength == client.PDULength <= 4089
    requires (index == 0 && job.Area == 0x81) || (index == 1 && job.Area == 0x82) || (index == 2 && job.Area == 0x83)
    requires job.WordLen in {2, 3, 4, 5, 6, 7, 8} && 0 <= job.Number <= 65535 && 0 <= job.Start && 1 <= job.Amount < 0x1_0000
    requires var n := job.Amount * (if job.WordLen in {2, 3} then 1 else if job.WordLen in {4, 5} then 2 else 4);
             job.Start + n <= Size && n <= pData.Length
    requires pData != buffer && pData !in peer.FServer.Buffers()
    modifies peer.FServer, peer.FServer.HA, client`cntword, client`Longest, pData
    ensures var n := job.Amount * (if job.WordLen in {2, 3} then 1 else if job.WordLen in {4, 5} then 2 else 4);
            Result == 0 && pData[..] == buffer[job.Start..job.Start + n] + old(pData[n..])
  {
    hide CheckJob, Total, peer.FServer.Valid, peer.FServer.Contents;
    var _ := RegisterAs(peer, index, buffer, Size);
    Result := ReadFrom(peer, client, Sys(index), buffer, Size, job, pData);
  }

  /** They are written by the same codes, in the buffer registered and nowhere else. */
  method RegisterThenWrite(peer: TS7Worker, client: TSnap7MicroClient, index: nat, buffer: array<byte>, Size: word,
                           job: Job, pData: array<byte>)
    returns (Result: int)
    requires peer.FServer.Valid() && Sys(index) !in peer.FServer.Areas && buffer !in peer.FServer.Buffers() && Size <= buffer.Length
    requires client.Connected() && peer.FPDULength == client.PDULength <= 4089
    requires (index == 0 && job.Area == 0x81) || (index == 1 && job.Area == 0x82) || (index == 2 && job.Area == 0x83)
    requires job.WordLen in {2, 3, 4, 5, 6, 7, 8} && 0 <= job.Number <= 65535 && 0 <= job.Start && 1 <= job.Amount < 0x1_0000
    requires pData.Length == job.Amount * (if job.WordLen in {2, 3} then 1 else if job.WordLen in {4, 5} then 2 else 4)
    requires job.Start + pData.Length <= Size
    requires pData != buffer && pData !in peer.FServer.Buffers()
    modifies peer.FServer, peer.FServer.HA, client`cntword, client`Longest, peer.FServer.Buffers(), buffer
    ensures Result == 0
    ensures buffer[..Size] == old(buffer[..job.Start]) + pData[..] + old(buffer[job.Start + pData.Length..Size])
    ensures peer.FServer.Valid() && forall id :: id in old(peer.FServer.Contents()) ==>
              id in peer.FServer.Contents() && peer.FServer.Contents()[id] == old(peer.FServer.Contents())[id]
  {
    hide WriteOutcome, WriteEnds, WriteLoop, WriteVerdict, WriteEndsWith, CheckJob, Total, peer.FServer.Valid, peer.FServer.Contents;
    ghost var was := buffer[..];
    ghost var mem := peer.FServer.Contents();
    var _ := RegisterAs(peer, index, buffer, Size);
    Result := WriteInto(peer, client, Sys(index), buffer, Size, job, pData);
    SliceOfStart(was, job.Start, Size);
    SliceOfStart(was, job.Start + pData.Length, Size);
  }

  /** Code 0x84 with a number reads the data block registered with that number. */
  method RegisterDBThenRead(peer: TS7Worker, client: TSnap7MicroClient, number: word, buffer: array<byte>, Size: word,
                            job: Job, pData: array<byte>)
    returns (Result: int)
    requires peer.FServer.Valid() && Db(number) !in peer.FServer.Areas && peer.FServer.DBCount < 2048
    requires buffer !in peer.FServer.Buffers() && Size <= buffer.Length
    requires client.Connected() && peer.FPDULength == client.PDULength <= 4089
    requires job.Area == 0x84 && job.Number == number
    requires job.WordLen in {2, 3, 4, 5, 6, 7, 8} && 0 <= job.Number <= 65535 && 0 <= job.Start && 1 <= job.Amount < 0x1_0000
    requires var n := job.Amount * (if job.WordLen in {2, 3} then 1 else if job.WordLen in {4, 5} then 2 else 4);
             job.Start + n <= Size && n <= pData.Length
    requires pData != buffer && pData !in peer.FServer.Buffers()
    modifies peer.FServer, peer.FServer.DB, client`cntword, client`Longest, pData
    ensures var n := job.Amount * (if job.WordLen in {2, 3} then 1 else if job.WordLen in {4, 5} then 2 else 4);
            Result == 0 && pData[..] == buffer[job.Start..job.Start + n] + old(pData[n..])
  {
    hide CheckJob, Total, peer.FServer.Valid, peer.FServer.Contents;
    var _ := RegisterAsDB(peer, number, buffer, Size);
    Result := ReadFrom(peer, client, Db(number), buffer, Size, job, pData);
  }

  /** And it writes that block and nothing else. */
  method RegisterDBThenWrite(peer: TS7Worker, client: TSnap7MicroClient, number: word, buffer: array<byte>, Size: word,
                             job: Job, pData: array<byte>)
    returns (Result: int)
    requires peer.FServer.Valid() && Db(number) !in peer.FServer.Areas && peer.FServer.DBCount < 2048
    requires buffer !in peer.FServer.Buffers() && Size <= buffer.Length
    requires client.Connected() && peer.FPDULength == client.PDULength <= 4089
    requires job.Area == 0x84 && job.Number == number
    requires job.WordLen in {2, 3, 4, 5, 6, 7, 8} && 0 <= job.Number <= 65535 && 0 <= job.Start && 1 <= job.Amount < 0x1_0000
    requires pData.Length == job.Amount * (if job.WordLen in {2, 3} then 1 else if job.WordLen in {4, 5} then 2 else 4)
    requires job.Start + pData.Length <= Size
    requires pData != buffer && pData !in peer.FServer.Buffers()
    modifies peer.FServer, peer.FServer.DB, client`cntword, client`Longest, peer.FServer.Buffers(), buffer
    ensures Result == 0
    ensures buffer[..Size] == old(buffer[..job.Start]) + pData[..] + old(buffer[job.Start + pData.Length..Size])
    ensures peer.FServer.Valid() && forall id :: id in old(peer.FServer.Contents()) ==>
              id in peer.FServer.Contents() && peer.FServer.Contents()[id] == old(peer.FServer.Contents())[id]
  {
    hide WriteOutcome, WriteEnds, WriteLoop, WriteVerdict, WriteEndsWith, CheckJob, Total, peer.FServer.Valid, peer.FServer.Contents;
    ghost var was := buffer[..];
    ghost var mem := peer.FServer.Contents();
    var _ := RegisterAsDB(peer, number, buffer, Size);
    Result := WriteInto(peer, client, Db(number), buffer, Size, job, pData);
    SliceOfStart(was, job.Start, Size);
    SliceOfStart(was, job.Start + pData.Length, Size);
  }

  /** A read from an area of the server that is held in `buffer`. */
  method ReadFrom(peer: TS7Worker, client: TSnap7MicroClient, ghost id: AreaId, buffer: array<byte>, Size: word, job: Job,
                  pData: array<byte>)
    returns (Result: int)
    requires peer.FServer.Valid() && id in peer.FServer.Areas
    requires peer.FServer.Areas[id].PData == buffer && peer.FServer.Areas[id].Size == Size
    requires client.Connected() && peer.FPDULength == client.PDULength <= 4089
    requires job.Area in {0x81, 0x82, 0x83, 0x84}
    requires job.WordLen in {2, 3, 4, 5, 6, 7, 8} && 0 <= job.Number <= 65535 && 0 <= job.Start && 1 <= job.Amount < 0x1_0000
    requires var n := job.Amount * (if job.WordLen in {2, 3} then 1 else if job.WordLen in {4, 5} then 2 else 4);
             job.Start + n <= Size && n <= pData.Length
    requires id == if job.Area == 0x81 then Sys(0) else if job.Area == 0x82 then Sys(1)
                   else if job.Area == 0x83 then Sys(2) else Db(job.Number)
    requires pData !in peer.FServer.Buffers() && pData != buffer && Size <= buffer.Length
    modifies client`cntword, client`Longest, pData
    ensures var n := job.Amount * (if job.WordLen in {2, 3} then 1 else if job.WordLen in {4, 5} then 2 else 4);
            Result == 0 && pData[..] == buffer[job.Start..job.Start + n] + old(pData[n..])
  {
    hide ReadOutcome, ReadEnds, ReadLoop, ReadVerdict, ReadEndsWith, CheckJob, Total, peer.FServer.Valid, peer.FServer.Contents;
    ghost var was := pData[..];
    ghost var mem := peer.FServer.Contents();
    BufferHolds(peer, id);
    ghost var done := ReadJobOnBytes(mem, job, was, client.PDULength);
    SmallReadEnds(mem, job, was, client.PDULength);
    Result := client.OpReadArea(job, pData, peer);
    ghost var n := job.Amount * (if job.WordLen in {2, 3} then 1 else if job.WordLen in {4, 5} then 2 else 4);
    SliceOf(buffer[..], Size, job.Start, n);
    assert pData[..] == mem[id][job.Start..job.Start + n] + was[n..];
  }

  lemma SliceOf(s: bytes, size: nat, i: nat, n: nat)
    requires i + n <= size <= |s|
    ensures s[..size][i..i + n] == s[i..i + n]
  {
  }

  /** A write to an area of the server that is held in `buffer`. */
  method WriteInto(peer: TS7Worker, client: TSnap7MicroClient, ghost id: AreaId, buffer: array<byte>, Size: word, job: Job,
                   pData: array<byte>)
    returns (Result: int)
    requires peer.FServer.Valid() && id in peer.FServer.Areas
    requires peer.FServer.Areas[id].PData == buffer && peer.FServer.Areas[id].Size == Size
    requires client.Connected() && client.PDULength <= 4089
    requires job.Area in {0x81, 0x82, 0x83, 0x84}
    requires job.WordLen in {2, 3, 4, 5, 6, 7, 8} && 0 <= job.Number <= 65535 && 0 <= job.Start && 1 <= job.Amount < 0x1_0000
    requires pData.Length == job.Amount * (if job.WordLen in {2, 3} then 1 else if job.WordLen in {4, 5} then 2 else 4)
    requires job.Start + pData.Length <= Size
    requires id == if job.Area == 0x81 then Sys(0) else if job.Area == 0x82 then Sys(1)
                   else if job.Area == 0x83 then Sys(2) else Db(job.Number)
    requires pData !in peer.FServer.Buffers() && Size <= buffer.Length
    modifies client`cntword, client`Longest, peer.FServer.Buffers()
    ensures Result == 0 && peer.FServer.Valid()
    ensures buffer[..Size] == old(buffer[..Size])[..job.Start] + pData[..] + old(buffer[..Size])[job.Start + pData.Length..]
    ensures peer.FServer.Contents() == old(peer.FServer.Contents())[id := buffer[..Size]]
  {
    hide WriteOutcome, WriteEnds, WriteLoop, WriteVerdict, WriteEndsWith, CheckJob, Total, peer.FServer.Valid, peer.FServer.Contents;
    ghost var data, was := pData[..], buffer[..Size];
    ghost var mem := peer.FServer.Contents();
    BufferHolds(peer, id);
    ghost var done := WriteJobOnBytes(mem, job, data, client.PDULength);
    assert pData[..Total(job)] == data;
    SmallWriteEnds(mem, job, data, client.PDULength);
    Result := client.OpWriteArea(job, pData, peer);
    BufferHolds(peer, id);
  }

  /** Counters are registered as 3 and read as 0x1C, timers as 4 and 0x1D; element `Start` is at byte `Start / 2`. */
  method RegisterThenReadCounters(peer: TS7Worker, client: TSnap7MicroClient, index: nat, buffer: array<byte>, Size: word, job: Job,
                                  pData: array<byte>)
    returns (Result: int)
    requires peer.FServer.Valid() && Sys(index) !in peer.FServer.Areas && buffer !in peer.FServer.Buffers() && Size <= buffer.Length
    requires client.Connected() && peer.FPDULength == client.PDULength <= 4089
    requires job.Area == job.WordLen && ((index == 3 && job.Area == 0x1C) || (index == 4 && job.Area == 0x1D))
    requires 0 <= job.Number <= 65535 && 0 <= job.Start && 1 <= job.Amount && 2 * job.Amount <= client.PDULength - 18
    requires job.Start / 2 + 2 * job.Amount <= Size && 2 * job.Amount <= pData.Length
    requires pData != buffer && pData !in peer.FServer.Buffers()
    modifies peer.FServer, peer.FServer.HA, client`cntword, client`Longest, pData
    ensures var n, at := 2 * job.Amount, job.Start / 2;
            Result == 0 && pData[..] == buffer[at..at + n] + old(pData[n..])
  {
    hide ReadOutcome, ReadEnds, ReadLoop, ReadVerdict, ReadEndsWith, CheckJob, Total, peer.FServer.Valid, peer.FServer.Contents;
    ghost var was := pData[..];
    var _ := RegisterAs(peer, index, buffer, Size);
    ghost var mem := peer.FServer.Contents();
    ReadCountersOnBytes(mem, job, was, client.PDULength);
    SmallReadEnds(mem, job, was, client.PDULength);
    Result := client.OpReadArea(job, pData, peer);
    ghost var n, at := 2 * job.Amount, job.Start / 2;
    SliceOf(buffer[..], Size, at, n);
    assert mem[Sys(index)] == buffer[..Size];
    assert pData[..] == mem[Sys(index)][at..at + n] + was[n..];
  }

  /** Registers a system area; every other area keeps its bytes. */
  method RegisterAs(peer: TS7Worker, index: nat, buffer: array<byte>, Size: word) returns (registered: int)
    requires peer.FServer.Valid() && index <= 4 && Sys(index) !in peer.FServer.Areas
    requires buffer !in peer.FServer.Buffers() && Size <= buffer.Length
    modifies peer.FServer, peer.FServer.HA
    ensures registered == 0 && peer.FServer.Valid()
    ensures peer.FServer.Buffers() == old(peer.FServer.Buffers()) + {buffer}
    ensures Sys(index) in peer.FServer.Areas && peer.FServer.Areas[Sys(index)] == TS7Area(0, Size, buffer)
    ensures peer.FServer.Contents() == old(peer.FServer.Contents())[Sys(index) := buffer[..Size]]
  {
    registered := peer.FServer.RegisterSys(index, buffer, Size);
  }

  /** Registers a data block; every other area keeps its bytes. */
  method RegisterAsDB(peer: TS7Worker, number: word, buffer: array<byte>, Size: word) returns (registered: int)
    requires peer.FServer.Valid() && Db(number) !in peer.FServer.Areas && peer.FServer.DBCount < 2048
    requires buffer !in peer.FServer.Buffers() && Size <= buffer.Length
    modifies peer.FServer, peer.FServer.DB
    ensures registered == 0 && peer.FServer.Valid()
    ensures peer.FServer.Buffers() == old(peer.FServer.Buffers()) + {buffer}
    ensures Db(number) in peer.FServer.Areas && peer.FServer.Areas[Db(number)] == TS7Area(number, Size, buffer)
    ensures peer.FServer.Contents() == old(peer.FServer.Contents())[Db(number) := buffer[..Size]]
  {
    registered := peer.FServer.RegisterDB(number, buffer, Size);
  }

  lemma BufferHolds(peer: TS7Worker, id: AreaId)
    requires peer.FServer.Valid() && id in peer.FServer.Areas
    ensures id in peer.FServer.Contents() && peer.FServer.Areas[id].Size <= peer.FServer.Areas[id].PData.Length
    ensures peer.FServer.Contents()[id] == peer.FServer.Areas[id].PData[..peer.FServer.Areas[id].Size]
  {
  }

  lemma SliceOfStart(s: bytes, i: nat, n: nat)
    requires i <= n <= |s|
    ensures s[..n][..i] == s[..i] && s[..n][i..] == s[i..n]
  {
  }
}
