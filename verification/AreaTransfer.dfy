/**
 Area reads and writes cut into telegrams that fit the negotiated PDU. `WriteLoop` and `ReadLoop`
 follow the client's loop against the server telegram by telegram; `WriteOutcome` and `ReadOutcome`
 say in one step what the whole operation does to memory and to the user buffer.
 */
module AreaTransfer {
  import opened Arithmetic
  import opened S7Types
  import opened S7Server
  import opened S7Items
  import opened S7Telegrams

  /** The parameters of a read or write job. */
  datatype Job = Job(Area: int, Number: int, Start: int, Amount: int, WordLen: int)

  const WRITE_OVERHEAD := 28  // header, function, one item and the data item's head
  const READ_OVERHEAD := 18   // answer header, function and the data item's head
  const ADDRESS_SPACE := 0x20_0000  // bytes a 24-bit bit address can reach

  function CheckJob(job: Job): int {
    if DataSizeByte(job.WordLen) == 0 then ERR_CLI_INVALID_WORD_LEN
    else if job.Number < 0 || job.Number > 0xFFFF || job.Start < 0 || job.Amount < 1 then ERR_CLI_INVALID_PARAMS
    else if job.WordLen == WL_BIT && job.Amount > 1 then ERR_CLI_INVALID_TRANSPORT_SIZE
    else 0
  }

  function MaxElements(pduLength: int, overhead: int, job: Job): int
    requires CheckJob(job) == 0
  {
    (pduLength - overhead) / DataSizeByte(job.WordLen)
  }

  /** The PDU lengths a negotiation can end with. */
  predicate Negotiated(pduLength: int) {
    MIN_PDU_SIZE <= pduLength <= ISO_PAYLOAD_SIZE
  }

  /** Bytes taken by `n` elements. */
  function Bytes(job: Job, n: int): int {
    n * DataSizeByte(job.WordLen)
  }

  /** Job size in bytes. */
  function Total(job: Job): int {
    Bytes(job, job.Amount)
  }

  // ---------------------------------------------------------------- one telegram

  /** The variable a telegram of `n` elements at element `e` of the job carries. */
  function Piece(job: Job, e: nat, d: bytes): WriteVar
    requires CheckJob(job) == 0
  {
    WriteVar(job.Area, job.WordLen, job.Number, job.Start + Bytes(job, e),
             |d| / DataSizeByte(job.WordLen), d)
  }

  function PieceItem(job: Job, e: nat, n: nat): Item
    requires CheckJob(job) == 0
  {
    SentItem(WriteVar(job.Area, job.WordLen, job.Number, job.Start + Bytes(job, e), n, []))
  }

  /** The area a job names. */
  function JobKey(job: Job): Option<AreaId> {
    KeyOf(job.Area % 0x100, if job.Area == S7_AREA_DB then job.Number % 0x1_0000 else 0)
  }

  /** Return code a job meets whatever its position: no such area, or an area that holds timers or counters. */
  function Refusal(mem: Memory, job: Job): byte {
    if JobKey(job).None? || JobKey(job).value !in mem then CODE_ITEM_NOT_AVAILABLE
    else if job.Area % 0x100 == S7_AREA_TM || job.Area % 0x100 == S7_AREA_CT then CODE_ADDRESS_OUT_OF_RANGE
    else CODE_OK
  }

  /** A word length whose elements are addressed by byte. */
  predicate ByteAddressed(wordLen: int) {
    DataSizeByte(wordLen) != 0 && !CountsInUnits(wordLen)
  }

  lemma PieceStart(job: Job, e: nat, n: nat)
    requires CheckJob(job) == 0 && ByteAddressed(job.WordLen) && n < 0x1_0000
    ensures var it := PieceItem(job, e, n);
            && StartByte(it) == (job.Start + Bytes(job, e)) % ADDRESS_SPACE
            && SizeOf(it) == Bytes(job, n)
            && !Unaligned(it)
  {
    var start := job.Start + Bytes(job, e);
    var it := PieceItem(job, e, n);
    assert it.TransportSize == job.WordLen;
    assert it.Address == start * 8 % 0x100_0000;
    assert start * 8 % 0x100_0000 == start % ADDRESS_SPACE * 8;
  }

  /** The server works on the byte the caller meant exactly when its bit address fits in 24 bits. */
  lemma AddressMeantIff(job: Job, n: nat)
    requires CheckJob(job) == 0 && ByteAddressed(job.WordLen) && n < 0x1_0000
    ensures StartByte(PieceItem(job, 0, n)) == job.Start <==> job.Start < ADDRESS_SPACE
  {
    PieceStart(job, 0, n);
    assert Bytes(job, 0) == 0;
  }

  /** One write telegram: refused as a whole or stored as a whole at its byte address. */
  lemma WriteOnePiece(mem: Memory, job: Job, e: nat, d: bytes)
    requires CheckJob(job) == 0 && ByteAddressed(job.WordLen)
    requires |d| < 0x2000 && |d| % DataSizeByte(job.WordLen) == 0
    ensures var at := (job.Start + Bytes(job, e)) % ADDRESS_SPACE;
            WriteAlone(mem, Piece(job, e, d)) ==
            if Refusal(mem, job) != CODE_OK then (Refusal(mem, job), mem)
            else
              var key := JobKey(job).value;
              if at + |d| > |mem[key]| then (CODE_ADDRESS_OUT_OF_RANGE, mem)
              else (CODE_OK, mem[key := Splice(mem[key], at, d)])
  {
    var w := DataSizeByte(job.WordLen);
    var v := Piece(job, e, d);
    var n := |d| / w;
    assert Bytes(job, n) == |d|;
    var it := SentItem(v);
    assert it == PieceItem(job, e, n);
    PieceStart(job, e, n);
    var item := DataItem(v);
    assert item[4..] == d;
    HeadedAt(item, 0, 0, TransportOf(v.WordLen), WireLength(TransportOf(v.WordLen), |d|), d);
    LengthRoundTrip(TransportOf(v.WordLen), |d|);
    assert d != [] ==> Payload(it, item) == d;
    assert Payload(it, item)[..SizeOf(it)] == d;
    hide DataItem, Payload, Splice, WireLength, TransportOf, Piece, SentItem, PieceItem;
    StoreItemBytes(mem, it, item, d);
  }

  /** A well-formed data item for an item addressed by byte. */
  lemma StoreItemBytes(mem: Memory, it: Item, item: bytes, d: bytes)
    requires ByteAddressed(it.TransportSize) && !Unaligned(it) && SizeOf(it) == |d|
    requires DataSize(ByteAt(item, 1), WordAt(item, 2)) == |d| && Payload(it, item)[..|d|] == d
    ensures WriteItem(mem, it, item) ==
            if !Available(mem, it) then (CODE_ITEM_NOT_AVAILABLE, mem)
            else if it.Area == S7_AREA_TM || it.Area == S7_AREA_CT then (CODE_ADDRESS_OUT_OF_RANGE, mem)
            else
              var key := KeyOf(it.Area, it.DBNumber).value;
              if StartByte(it) + |d| > |mem[key]| then (CODE_ADDRESS_OUT_OF_RANGE, mem)
              else (CODE_OK, mem[key := Splice(mem[key], StartByte(it), d)])
  {
    hide Payload, Splice, KeyOf, WordAt, ByteAt, StartByte, Unaligned, DataSize;
  }

  lemma PieceBounds(job: Job, e: nat, n: int)
    requires CheckJob(job) == 0 && 0 <= n && e + n <= job.Amount
    ensures 0 <= Bytes(job, e) <= Bytes(job, e + n) <= Total(job)
    ensures Bytes(job, e + n) == Bytes(job, e) + Bytes(job, n) && Bytes(job, n) >= n && Bytes(job, 0) == 0
  {
  }

  /** The user bytes of elements `e` to `e + n`. */
  function PieceBytes(job: Job, data: bytes, e: nat, n: nat): (r: bytes)
    requires CheckJob(job) == 0 && |data| == Total(job) && e + n <= job.Amount
    ensures |r| == Bytes(job, n)
  {
    PieceBounds(job, e, n);
    data[Bytes(job, e)..Bytes(job, e + n)]
  }

  // ---------------------------------------------------------------- the whole write

  /** The client's write loop from element `e` on: result and memory. */
  function WriteLoop(mem: Memory, job: Job, data: bytes, pduLength: int, e: nat): (int, Memory)
    requires CheckJob(job) == 0 && Negotiated(pduLength) && job.Amount < 0x1_0000
    requires |data| == Total(job)
    decreases job.Amount - e
  {
    if e >= job.Amount then (0, mem)
    else
      var w := DataSizeByte(job.WordLen);
      var n := Min(job.Amount - e, MaxElements(pduLength, WRITE_OVERHEAD, job));
      if WRITE_OVERHEAD + Bytes(job, n) > ISO_CARRIED then (ERR_ISO_RECV_PACKET, mem)
      else
        var step := WriteAlone(mem, Piece(job, e, PieceBytes(job, data, e, n)));
        if step.0 == CODE_OK then WriteLoop(step.1, job, data, pduLength, e + n)
        else if e == 0 then (CpuError(step.0), step.1)
        else (ERR_CLI_PARTIAL_DATA_WRITTEN, step.1)
  }

  lemma SizeIsBytes(job: Job, n: nat)
    ensures n * DataSizeByte(job.WordLen) == Bytes(job, n)
  {
  }

  /** What a write job does in one step. */
  function WriteOutcome(mem: Memory, job: Job, data: bytes, pduLength: int): (int, Memory)
    requires Negotiated(pduLength) && job.Amount < 0x1_0000
    requires CheckJob(job) == 0 ==> |data| == Total(job) && ByteAddressed(job.WordLen)
  {
    if CheckJob(job) != 0 then (CheckJob(job), mem)
    else
      var chunk := Bytes(job, MaxElements(pduLength, WRITE_OVERHEAD, job));
      var first := Min(Total(job), chunk);
      if WRITE_OVERHEAD + first > ISO_CARRIED then (ERR_ISO_RECV_PACKET, mem)
      else if Refusal(mem, job) != CODE_OK then (CpuError(Refusal(mem, job)), mem)
      else
        var key := JobKey(job).value;
        var area := mem[key];
        var at := job.Start % ADDRESS_SPACE;
        if at + Total(job) <= |area| then (0, mem[key := Splice(area, at, data)])
        else if at + first > |area| then (ERR_CLI_ADDRESS_OUT_OF_RANGE, mem)
        else
          ChunkFits(|area| - at, chunk, Total(job), first);
          (ERR_CLI_PARTIAL_DATA_WRITTEN, mem[key := Splice(area, at, data[..WholeChunks(|area| - at, chunk)])])
  }

  function Chunks(k: nat, chunk: nat): nat {
    k * chunk
  }

  lemma ChunksNext(k: nat, chunk: nat)
    ensures Chunks(0, chunk) == 0 && Chunks(k + 1, chunk) == Chunks(k, chunk) + chunk
  {
  }

  /** Bytes covered by the whole chunks that fit into `room`. */
  function WholeChunks(room: nat, chunk: int): nat
    requires chunk > 0
  {
    room / chunk * chunk
  }

  lemma ChunkFits(room: nat, chunk: int, total: int, first: int)
    requires chunk > 0 && first == Min(total, chunk) && first <= room < total
    ensures WholeChunks(room, chunk) <= room
  {
    assert room == room / chunk * chunk + room % chunk;
  }

  /** `done` bytes of whole chunks fit and the next chunk does not: `done` is all that fits. */
  lemma StopsAtWholeChunks(room: nat, chunk: int, k: nat)
    requires chunk > 0 && k * chunk <= room < (k + 1) * chunk
    ensures WholeChunks(room, chunk) == k * chunk
  {
    var q, m := room / chunk, room % chunk;
    assert room == q * chunk + m;
    assert (q - k) * chunk == q * chunk - k * chunk;
    if q > k { MulAtLeast(q - k, chunk); }
    if q < k { MulAtLeast(k - q, chunk); }
  }

  /** Areas are registered with a 16-bit size. */
  ghost predicate WellSized(mem: Memory) {
    forall k :: k in mem ==> |mem[k]| < 0x1_0000
  }

  /** Memory once the bytes before element `e` are stored. */
  function Stored(mem: Memory, job: Job, data: bytes, e: nat): Memory
    requires CheckJob(job) == 0 && Refusal(mem, job) == CODE_OK
    requires |data| == Total(job) && e <= job.Amount
    requires e == 0 || job.Start % ADDRESS_SPACE + Bytes(job, e) <= |mem[JobKey(job).value]|
  {
    if e == 0 then mem
    else
      PieceBounds(job, 0, e);
      var area := mem[JobKey(job).value];
      mem[JobKey(job).value := Splice(area, job.Start % ADDRESS_SPACE, data[..Bytes(job, e)])]
  }

  lemma AreaIsSmall(mem: Memory, job: Job)
    requires Refusal(mem, job) == CODE_OK && WellSized(mem)
    ensures JobKey(job).Some? && JobKey(job).value in mem && |mem[JobKey(job).value]| < 0x1_0000
  {
  }

  lemma AddressNoWrap(start: nat, x: nat)
    requires start % ADDRESS_SPACE + x < ADDRESS_SPACE
    ensures (start + x) % ADDRESS_SPACE == start % ADDRESS_SPACE + x
  {
  }

  /** One round of the loop, from a state in which the bytes before element `e` are stored. */
  lemma StoredNext(mem: Memory, job: Job, data: bytes, e: nat, n: nat)
    requires CheckJob(job) == 0 && ByteAddressed(job.WordLen) && Refusal(mem, job) == CODE_OK && WellSized(mem)
    requires |data| == Total(job) && n > 0 && e + n <= job.Amount && Bytes(job, n) < 0x2000
    requires e == 0 || job.Start % ADDRESS_SPACE + Bytes(job, e) <= |mem[JobKey(job).value]|
    ensures var w := DataSizeByte(job.WordLen);
            var before := Stored(mem, job, data, e);
            var at := job.Start % ADDRESS_SPACE;
            WriteAlone(before, Piece(job, e, PieceBytes(job, data, e, n))) ==
            if at + Bytes(job, e + n) > |mem[JobKey(job).value]| then (CODE_ADDRESS_OUT_OF_RANGE, before)
            else (CODE_OK, Stored(mem, job, data, e + n))
  {
    hide WriteAlone, SentItem;
    var w := DataSizeByte(job.WordLen);
    PieceBounds(job, e, n);
    var before := Stored(mem, job, data, e);
    var at := job.Start % ADDRESS_SPACE;
    var d := data[Bytes(job, e)..Bytes(job, e + n)];
    var key := JobKey(job).value;
    assert |d| == Bytes(job, n);
    WholeElements(job, n);
    WriteOnePiece(before, job, e, d);
    if e > 0 || at + Bytes(job, e) < ADDRESS_SPACE { AddressNoWrap(job.Start, Bytes(job, e)); }
    assert data[..Bytes(job, e + n)] == data[..Bytes(job, e)] + d;
    if at + Bytes(job, e + n) <= |mem[key]| {
      if e > 0 {
        SpliceConcat(mem[key], at, data[..Bytes(job, e)], d);
        assert before[key := Splice(before[key], at + Bytes(job, e), d)] == Stored(mem, job, data, e + n);
      } else {
        assert data[..0] + d == d;
      }
    }
  }

  lemma WholeElements(job: Job, n: nat)
    requires CheckJob(job) == 0
    ensures Bytes(job, n) % DataSizeByte(job.WordLen) == 0 && Bytes(job, n) / DataSizeByte(job.WordLen) == n
  {
    var w := DataSizeByte(job.WordLen);
    assert n * w == n * w / w * w + n * w % w;
  }

  lemma MaxElementsBytes(pduLength: int, overhead: int, job: Job)
    requires CheckJob(job) == 0 && Negotiated(pduLength) && overhead in {READ_OVERHEAD, WRITE_OVERHEAD}
    ensures var bytes := Bytes(job, MaxElements(pduLength, overhead, job));
            0 < MaxElements(pduLength, overhead, job) && overhead + bytes <= pduLength && bytes < 0x1000
  {
  }

  /** One round of the loop, refused or not. */
  lemma WriteLoopStep(mem: Memory, job: Job, data: bytes, pduLength: int, e: nat, n: nat)
    requires CheckJob(job) == 0 && ByteAddressed(job.WordLen) && Refusal(mem, job) == CODE_OK && WellSized(mem)
    requires Negotiated(pduLength) && job.Amount < 0x1_0000 && |data| == Total(job)
    requires e < job.Amount && n == Min(job.Amount - e, MaxElements(pduLength, WRITE_OVERHEAD, job)) && n > 0
    requires WRITE_OVERHEAD + Bytes(job, n) <= ISO_CARRIED
    requires e == 0 || job.Start % ADDRESS_SPACE + Bytes(job, e) <= |mem[JobKey(job).value]|
    ensures WriteLoop(Stored(mem, job, data, e), job, data, pduLength, e) ==
            if job.Start % ADDRESS_SPACE + Bytes(job, e + n) > |mem[JobKey(job).value]| then
              (if e == 0 then ERR_CLI_ADDRESS_OUT_OF_RANGE else ERR_CLI_PARTIAL_DATA_WRITTEN, Stored(mem, job, data, e))
            else WriteLoop(Stored(mem, job, data, e + n), job, data, pduLength, e + n)
  {
    hide WriteAlone, Piece, Stored;
    StoredNext(mem, job, data, e, n);
  }

  lemma WriteLoopEnd(mem: Memory, job: Job, data: bytes, pduLength: int)
    requires CheckJob(job) == 0 && Negotiated(pduLength) && job.Amount < 0x1_0000 && |data| == Total(job)
    ensures WriteLoop(mem, job, data, pduLength, job.Amount) == (0, mem)
  {
  }

  lemma OutcomeAll(mem: Memory, job: Job, data: bytes, pduLength: int, chunk: nat)
    requires CheckJob(job) == 0 && ByteAddressed(job.WordLen) && Refusal(mem, job) == CODE_OK
    requires Negotiated(pduLength) && job.Amount < 0x1_0000 && |data| == Total(job)
    requires chunk == Bytes(job, MaxElements(pduLength, WRITE_OVERHEAD, job))
    requires WRITE_OVERHEAD + Min(Total(job), chunk) <= ISO_CARRIED
    requires job.Start % ADDRESS_SPACE + Total(job) <= |mem[JobKey(job).value]|
    ensures WriteOutcome(mem, job, data, pduLength) == (0, Stored(mem, job, data, job.Amount))
  {
    assert data[..Total(job)] == data;
  }

  /**
   From the start of a chunk the loop ends as the whole operation does. `done` bytes, `k` whole
   chunks, are stored when element `e` is next.
   */
  lemma {:induction false} WriteLoopFromChunk(mem: Memory, job: Job, data: bytes, pduLength: int,
                                              k: nat, e: nat, max: nat, chunk: nat, done: nat)
    requires CheckJob(job) == 0 && ByteAddressed(job.WordLen) && Refusal(mem, job) == CODE_OK && WellSized(mem)
    requires Negotiated(pduLength) && job.Amount < 0x1_0000 && |data| == Total(job)
    requires max == MaxElements(pduLength, WRITE_OVERHEAD, job) && chunk == Bytes(job, max)
    requires e < job.Amount && done == Bytes(job, e) == Chunks(k, chunk) && (k == 0 <==> e == 0)
    requires WRITE_OVERHEAD + Min(Total(job), chunk) <= ISO_CARRIED
    requires k == 0 || job.Start % ADDRESS_SPACE + done <= |mem[JobKey(job).value]|
    ensures WriteLoop(Stored(mem, job, data, e), job, data, pduLength, e) == WriteOutcome(mem, job, data, pduLength)
    decreases job.Amount - e
  {
    hide WriteAlone, Piece, WriteLoop, Stored, WriteOutcome, Bytes, Chunks, MaxElements, Refusal;
    AreaIsSmall(mem, job);
    var n := Min(job.Amount - e, max);
    var at := job.Start % ADDRESS_SPACE;
    var area := mem[JobKey(job).value];
    MaxElementsBytes(pduLength, WRITE_OVERHEAD, job);
    PieceBounds(job, e, n);
    ElementsOfChunk(job, e, n, max);
    WriteLoopStep(mem, job, data, pduLength, e, n);
    if at + Bytes(job, e + n) > |area| {
      if k > 0 {
        OutcomePartial(mem, job, data, pduLength, k, e, max, chunk, done, n);
      } else {
        OutcomeNothing(mem, job, data, pduLength, chunk, n);
      }
    } else if e + n < job.Amount {
      ChunksNext(k, chunk);
      WriteLoopFromChunk(mem, job, data, pduLength, k + 1, e + n, max, chunk, done + chunk);
    } else {
      WriteLoopEnd(Stored(mem, job, data, job.Amount), job, data, pduLength);
      OutcomeAll(mem, job, data, pduLength, chunk);
    }
  }

  lemma ElementsOfChunk(job: Job, e: nat, n: nat, max: nat)
    requires CheckJob(job) == 0 && e < job.Amount && n == Min(job.Amount - e, max)
    ensures var w := DataSizeByte(job.WordLen); Bytes(job, n) <= Min(Total(job), Bytes(job, max))
    ensures e == 0 ==> Bytes(job, n) == Min(Total(job), Bytes(job, max))
  {
  }

  lemma OutcomeNothing(mem: Memory, job: Job, data: bytes, pduLength: int, chunk: nat, n: nat)
    requires CheckJob(job) == 0 && ByteAddressed(job.WordLen) && Refusal(mem, job) == CODE_OK
    requires Negotiated(pduLength) && job.Amount < 0x1_0000 && |data| == Total(job)
    requires chunk == Bytes(job, MaxElements(pduLength, WRITE_OVERHEAD, job))
    requires Bytes(job, n) == Min(Total(job), chunk) && WRITE_OVERHEAD + Min(Total(job), chunk) <= ISO_CARRIED
    requires job.Start % ADDRESS_SPACE + Bytes(job, n) > |mem[JobKey(job).value]|
    ensures WriteOutcome(mem, job, data, pduLength) == (ERR_CLI_ADDRESS_OUT_OF_RANGE, Stored(mem, job, data, 0))
  {
  }

  lemma OutcomePartial(mem: Memory, job: Job, data: bytes, pduLength: int,
                       k: nat, e: nat, max: nat, chunk: nat, done: nat, n: nat)
    requires CheckJob(job) == 0 && ByteAddressed(job.WordLen) && Refusal(mem, job) == CODE_OK
    requires Negotiated(pduLength) && job.Amount < 0x1_0000 && |data| == Total(job)
    requires max == MaxElements(pduLength, WRITE_OVERHEAD, job) && chunk == Bytes(job, max) && chunk > 0
    requires 0 < e < job.Amount && k > 0 && done == Bytes(job, e) == Chunks(k, chunk)
    requires n == Min(job.Amount - e, max) && Bytes(job, n) <= chunk
    requires WRITE_OVERHEAD + Min(Total(job), chunk) <= ISO_CARRIED
    requires var at := job.Start % ADDRESS_SPACE;
             at + done <= |mem[JobKey(job).value]| < at + Bytes(job, e + n)
    ensures WriteOutcome(mem, job, data, pduLength) == (ERR_CLI_PARTIAL_DATA_WRITTEN, Stored(mem, job, data, e))
  {
    var w := DataSizeByte(job.WordLen);
    var room := |mem[JobKey(job).value]| - job.Start % ADDRESS_SPACE;
    PieceBounds(job, e, n);
    assert k * chunk + chunk == (k + 1) * chunk;
    StopsAtWholeChunks(room, chunk, k);
    assert Min(Total(job), chunk) <= done by { MulAtLeast(k, chunk); }
    PieceBounds(job, 0, e + n);
  }

  /**
   A write job run telegram by telegram is one slice update, when its range lies in the area and is
   reachable by a 24-bit address; otherwise it changes nothing or, once a chunk is stored, exactly
   the whole chunks that fit.
   */
  lemma WriteLoopIsOutcome(mem: Memory, job: Job, data: bytes, pduLength: int)
    requires CheckJob(job) == 0 && ByteAddressed(job.WordLen) && WellSized(mem)
    requires Negotiated(pduLength) && job.Amount < 0x1_0000 && |data| == Total(job)
    ensures WriteLoop(mem, job, data, pduLength, 0) == WriteOutcome(mem, job, data, pduLength)
  {
    hide WriteAlone, WriteOutcome;
    var max := MaxElements(pduLength, WRITE_OVERHEAD, job);
    var w := DataSizeByte(job.WordLen);
    var n := Min(job.Amount, max);
    MaxElementsBytes(pduLength, WRITE_OVERHEAD, job);
    ElementsOfChunk(job, 0, n, max);
    if Refusal(mem, job) == CODE_OK && WRITE_OVERHEAD + Bytes(job, n) <= ISO_CARRIED {
      WriteLoopFromChunk(mem, job, data, pduLength, 0, 0, max, Bytes(job, max), 0);
    } else {
      OutcomeRefused(mem, job, data, pduLength);
      if WRITE_OVERHEAD + Bytes(job, n) <= ISO_CARRIED {
        WholeElements(job, n);
        WriteOnePiece(mem, job, 0, PieceBytes(job, data, 0, n));
      }
    }
  }

  lemma OutcomeRefused(mem: Memory, job: Job, data: bytes, pduLength: int)
    requires CheckJob(job) == 0 && ByteAddressed(job.WordLen)
    requires Negotiated(pduLength) && job.Amount < 0x1_0000 && |data| == Total(job)
    requires var chunk := Bytes(job, MaxElements(pduLength, WRITE_OVERHEAD, job));
             Refusal(mem, job) != CODE_OK || WRITE_OVERHEAD + Min(Total(job), chunk) > ISO_CARRIED
    ensures var chunk := Bytes(job, MaxElements(pduLength, WRITE_OVERHEAD, job));
            WriteOutcome(mem, job, data, pduLength) ==
            (if WRITE_OVERHEAD + Min(Total(job), chunk) > ISO_CARRIED then ERR_ISO_RECV_PACKET
             else CpuError(Refusal(mem, job)), mem)
  {
  }

  // ---------------------------------------------------------------- the client's write loop, for any number of elements

  /** The variables of the loop: elements passed, whether no telegram has been sent, the result, and the server's memory. */
  datatype Writing = Writing(e: nat, First: bool, result: int, mem: Memory)

  predicate WriteOver(job: Job, s: Writing) {
    s.e >= job.Amount || s.result != 0
  }

  /** Elements of the next telegram: the number left is cut to 16 bits before it is compared with the most that fit. */
  function NumElements(job: Job, e: nat, pduLength: int, overhead: int): (n: nat)
    requires CheckJob(job) == 0 && Negotiated(pduLength) && overhead in {READ_OVERHEAD, WRITE_OVERHEAD}
    requires e < job.Amount
    ensures e + n <= job.Amount && n <= MaxElements(pduLength, overhead, job)
  {
    MaxElementsBytes(pduLength, overhead, job);
    Min((job.Amount - e) % 0x1_0000, MaxElements(pduLength, overhead, job))
  }

  lemma NumElementsIs(job: Job, e: nat, pduLength: int, overhead: int)
    requires CheckJob(job) == 0 && Negotiated(pduLength) && overhead in {READ_OVERHEAD, WRITE_OVERHEAD} && e < job.Amount
    ensures NumElements(job, e, pduLength, overhead)
            == Min((job.Amount - e) % 0x1_0000, (pduLength - overhead) / DataSizeByte(job.WordLen))
  {
  }

  ghost predicate WriteJob(job: Job, data: bytes, pduLength: int) {
    CheckJob(job) == 0 && Negotiated(pduLength) && |data| == Total(job)
  }

  function WriteStep(job: Job, data: bytes, pduLength: int, s: Writing): Writing
    requires WriteJob(job, data, pduLength)
  {
    if WriteOver(job, s) then s
    else
      var n := NumElements(job, s.e, pduLength, WRITE_OVERHEAD);
      if WRITE_OVERHEAD + Bytes(job, n) > ISO_CARRIED then Writing(s.e + n, false, ERR_ISO_RECV_PACKET, s.mem)
      else
        var r := WriteAlone(s.mem, Piece(job, s.e, PieceBytes(job, data, s.e, n)));
        Writing(s.e + n, false,
                if r.0 == CODE_OK then 0 else if s.First then CpuError(r.0) else ERR_CLI_PARTIAL_DATA_WRITTEN, r.1)
  }

  /** One round of the loop, in the terms of the client's telegram. */
  lemma WriteRound(job: Job, data: bytes, pduLength: int, s: Writing)
    requires WriteJob(job, data, pduLength) && !WriteOver(job, s)
    ensures var n := NumElements(job, s.e, pduLength, WRITE_OVERHEAD);
            && 0 <= Bytes(job, s.e) <= Bytes(job, s.e + n) <= |data|
            && Bytes(job, s.e + n) == Bytes(job, s.e) + Bytes(job, n) && Bytes(job, n) < 0x1000
            && WRITE_OVERHEAD + Bytes(job, n) <= pduLength
            && 0 <= job.WordLen < 0x100 && (job.WordLen == WL_BIT ==> Bytes(job, n) > 0)
            && WriteStep(job, data, pduLength, s) ==
               if WRITE_OVERHEAD + Bytes(job, n) > ISO_CARRIED then Writing(s.e + n, false, ERR_ISO_RECV_PACKET, s.mem)
               else
                 var r := WriteAlone(s.mem, WriteVar(job.Area, job.WordLen, job.Number, job.Start + Bytes(job, s.e), n,
                                                     data[Bytes(job, s.e)..Bytes(job, s.e + n)]));
                 Writing(s.e + n, false,
                         if r.0 == CODE_OK then 0 else if s.First then CpuError(r.0) else ERR_CLI_PARTIAL_DATA_WRITTEN, r.1)
  {
    hide WriteAlone;
    var n := NumElements(job, s.e, pduLength, WRITE_OVERHEAD);
    MaxElementsBytes(pduLength, WRITE_OVERHEAD, job);
    PieceBounds(job, s.e, n);
    BytesUpTo(job, n, MaxElements(pduLength, WRITE_OVERHEAD, job));
    WholeElements(job, n);
  }

  lemma BytesUpTo(job: Job, n: nat, max: nat)
    requires n <= max
    ensures Bytes(job, n) <= Bytes(job, max)
  {
  }

  /** The loop after `k` telegrams. */
  function WriteMany(job: Job, data: bytes, pduLength: int, s: Writing, k: nat): Writing
    requires WriteJob(job, data, pduLength)
  {
    if k == 0 then s else WriteStep(job, data, pduLength, WriteMany(job, data, pduLength, s, k - 1))
  }

  /** A loop that is not over after `k` telegrams goes on to the one after, which is not behind the last. */
  lemma WriteManyNext(job: Job, data: bytes, pduLength: int, s: Writing, k: nat, last: nat)
    requires WriteJob(job, data, pduLength) && k <= last
    requires WriteOver(job, WriteMany(job, data, pduLength, s, last)) && !WriteOver(job, WriteMany(job, data, pduLength, s, k))
    ensures k < last
    ensures WriteMany(job, data, pduLength, s, k + 1) == WriteStep(job, data, pduLength, WriteMany(job, data, pduLength, s, k))
  {
    hide WriteStep;
  }

  function WriteStart(mem: Memory): Writing {
    Writing(0, true, 0, mem)
  }

  /** The loop comes to an end. */
  ghost predicate WriteEnds(mem: Memory, job: Job, data: bytes, pduLength: int)
    requires WriteJob(job, data, pduLength)
  {
    exists k: nat :: WriteOver(job, WriteMany(job, data, pduLength, WriteStart(mem), k))
  }

  ghost predicate WriteEndsWith(mem: Memory, job: Job, data: bytes, pduLength: int, result: int, after: Memory)
    requires WriteJob(job, data, pduLength)
  {
    exists k: nat :: var s := WriteMany(job, data, pduLength, WriteStart(mem), k);
                     WriteOver(job, s) && s.result == result && s.mem == after
  }

  lemma {:induction false} WriteOverStays(job: Job, data: bytes, pduLength: int, s: Writing, k: nat, l: nat)
    requires WriteJob(job, data, pduLength) && k <= l
    requires var t := WriteMany(job, data, pduLength, s, k); WriteStep(job, data, pduLength, t) == t
    ensures WriteMany(job, data, pduLength, s, l) == WriteMany(job, data, pduLength, s, k)
  {
    hide WriteStep;
    if k < l { WriteOverStays(job, data, pduLength, s, k, l - 1); }
  }

  lemma OverStutters(job: Job, data: bytes, pduLength: int, s: Writing)
    requires WriteJob(job, data, pduLength) && WriteOver(job, s)
    ensures WriteStep(job, data, pduLength, s) == s
  {
  }

  /** The loop ends in one way only. */
  lemma WriteEndsOnce(mem: Memory, job: Job, data: bytes, pduLength: int, r: int, after: Memory, r': int, after': Memory)
    requires WriteJob(job, data, pduLength)
    requires WriteEndsWith(mem, job, data, pduLength, r, after) && WriteEndsWith(mem, job, data, pduLength, r', after')
    ensures r == r' && after == after'
  {
    hide WriteMany, WriteStep;
    var start := WriteStart(mem);
    var k: nat :| var s := WriteMany(job, data, pduLength, start, k); WriteOver(job, s) && s.result == r && s.mem == after;
    var l: nat :| var s := WriteMany(job, data, pduLength, start, l); WriteOver(job, s) && s.result == r' && s.mem == after';
    OverStutters(job, data, pduLength, WriteMany(job, data, pduLength, start, k));
    OverStutters(job, data, pduLength, WriteMany(job, data, pduLength, start, l));
    if k <= l { WriteOverStays(job, data, pduLength, start, k, l); } else { WriteOverStays(job, data, pduLength, start, l, k); }
  }

  /** A state the loop does not leave, and that is not its end. */
  lemma WriteNeverEnds(mem: Memory, job: Job, data: bytes, pduLength: int, k: nat)
    requires WriteJob(job, data, pduLength)
    requires var t := WriteMany(job, data, pduLength, WriteStart(mem), k);
             !WriteOver(job, t) && WriteStep(job, data, pduLength, t) == t
    ensures !WriteEnds(mem, job, data, pduLength)
  {
    hide WriteMany, WriteStep;
    var start := WriteStart(mem);
    forall l: nat ensures !WriteOver(job, WriteMany(job, data, pduLength, start, l)) {
      if k <= l {
        WriteOverStays(job, data, pduLength, start, k, l);
      } else if WriteOver(job, WriteMany(job, data, pduLength, start, l)) {
        OverStutters(job, data, pduLength, WriteMany(job, data, pduLength, start, l));
        WriteOverStays(job, data, pduLength, start, l, k);
      }
    }
  }

  lemma {:induction false} WriteManyFirst(job: Job, data: bytes, pduLength: int, s: Writing, k: nat)
    requires WriteJob(job, data, pduLength)
    ensures WriteMany(job, data, pduLength, s, k + 1)
            == WriteMany(job, data, pduLength, WriteStep(job, data, pduLength, s), k)
  {
    hide WriteStep;
    if k > 0 { WriteManyFirst(job, data, pduLength, s, k - 1); }
  }

  /** The elements before the number left becomes a multiple of 65536: all of them, when there are fewer than that. */
  function FirstPart(job: Job): Job {
    job.(Amount := job.Amount % 0x1_0000)
  }

  lemma FirstPartFits(job: Job)
    requires CheckJob(job) == 0
    ensures 0 <= Total(FirstPart(job)) <= Total(job) && (forall n :: Bytes(FirstPart(job), n) == Bytes(job, n))
    ensures FirstPart(job).Amount > 0 ==> CheckJob(FirstPart(job)) == 0
    ensures job.Amount < 0x1_0000 ==> FirstPart(job) == job
  {
    var m := job.Amount % 0x1_0000;
    PieceBounds(job, m, job.Amount - m);
  }

  /** Until the first part is through, the loop does what it does for a job of that part. */
  lemma WriteStepInPart(job: Job, data: bytes, pduLength: int, part: Job, s: Writing)
    requires WriteJob(job, data, pduLength) && part == FirstPart(job) && s.e < part.Amount && s.result == 0
    requires s.First <==> s.e == 0
    ensures CheckJob(part) == 0 && |data| >= Total(part) >= 0
    ensures var n := Min(part.Amount - s.e, MaxElements(pduLength, WRITE_OVERHEAD, part));
            n > 0 && WriteStep(job, data, pduLength, s) ==
            if WRITE_OVERHEAD + Bytes(part, n) > ISO_CARRIED then Writing(s.e + n, false, ERR_ISO_RECV_PACKET, s.mem)
            else
              var r := WriteAlone(s.mem, Piece(part, s.e, PieceBytes(part, data[..Total(part)], s.e, n)));
              Writing(s.e + n, false,
                      if r.0 == CODE_OK then 0 else if s.e == 0 then CpuError(r.0) else ERR_CLI_PARTIAL_DATA_WRITTEN, r.1)
  {
    hide WriteAlone, Piece, PieceBytes, Bytes, MaxElements;
    FirstPartFits(job);
    LeftInPart(job.Amount, s.e);
    MaxElementsBytes(pduLength, WRITE_OVERHEAD, part);
    assert MaxElements(pduLength, WRITE_OVERHEAD, part) == MaxElements(pduLength, WRITE_OVERHEAD, job) by { SameElements(job, pduLength); }
    var n := Min(part.Amount - s.e, MaxElements(pduLength, WRITE_OVERHEAD, part));
    assert n == NumElements(job, s.e, pduLength, WRITE_OVERHEAD);
    SamePiece(job, data, s.e, n);
  }

  lemma LeftInPart(amount: nat, e: nat)
    requires e < amount % 0x1_0000
    ensures (amount - e) % 0x1_0000 == amount % 0x1_0000 - e && e < amount
  {
  }

  lemma SameElements(job: Job, pduLength: int)
    requires CheckJob(job) == 0 && FirstPart(job).Amount > 0
    ensures CheckJob(FirstPart(job)) == 0
    ensures forall overhead :: MaxElements(pduLength, overhead, FirstPart(job)) == MaxElements(pduLength, overhead, job)
  {
  }

  lemma SamePiece(job: Job, data: bytes, e: nat, n: nat)
    requires CheckJob(job) == 0 && |data| == Total(job) && e + n <= FirstPart(job).Amount && FirstPart(job).Amount > 0
    ensures CheckJob(FirstPart(job)) == 0 && 0 <= Total(FirstPart(job)) <= |data|
    ensures PieceBytes(FirstPart(job), data[..Total(FirstPart(job))], e, n) == PieceBytes(job, data, e, n)
    ensures forall d :: Piece(FirstPart(job), e, d) == Piece(job, e, d)
  {
    FirstPartFits(job);
    PieceBounds(FirstPart(job), e, n);
    PieceBounds(job, e, n);
  }

  lemma WriteCodes(mem: Memory, v: WriteVar)
    ensures WriteAlone(mem, v).0 != CODE_OK ==> CpuError(WriteAlone(mem, v).0) != 0
  {
  }

  /** The loop reaches the end of the first part, or its failure, as `WriteLoop` says. */
  lemma {:induction false} WritePartRuns(job: Job, data: bytes, pduLength: int, part: Job, s: Writing) returns (k: nat, t: Writing)
    requires WriteJob(job, data, pduLength) && part == FirstPart(job) && s.e < part.Amount && s.result == 0
    requires s.First <==> s.e == 0
    ensures CheckJob(part) == 0 && |data| >= Total(part) >= 0
    ensures t == WriteMany(job, data, pduLength, s, k) && !t.First && (t.result == 0 ==> t.e == part.Amount)
    ensures (t.result, t.mem) == WriteLoop(s.mem, part, data[..Total(part)], pduLength, s.e)
    decreases part.Amount - s.e
  {
    hide WriteAlone, Piece, PieceBytes, WriteStep, WriteLoop, WriteMany, MaxElements, Bytes, Total;
    WriteStepInPart(job, data, pduLength, part, s);
    var n := Min(part.Amount - s.e, MaxElements(pduLength, WRITE_OVERHEAD, part));
    var d := data[..Total(part)];
    WriteCodes(s.mem, Piece(part, s.e, PieceBytes(part, d, s.e, n)));
    WriteLoopUnfolds(s.mem, part, d, pduLength, s.e);
    var next := WriteStep(job, data, pduLength, s);
    assert WriteMany(job, data, pduLength, s, 0) == s && WriteMany(job, data, pduLength, next, 0) == next by {
      ZeroTelegrams(job, data, pduLength, s);
      ZeroTelegrams(job, data, pduLength, next);
    }
    if next.result != 0 || next.e == part.Amount {
      k, t := 1, next;
      WriteManyFirst(job, data, pduLength, s, 0);
      WriteLoopUnfolds(next.mem, part, d, pduLength, next.e);
    } else {
      k, t := WritePartRuns(job, data, pduLength, part, next);
      WriteManyFirst(job, data, pduLength, s, k);
      k := k + 1;
    }
  }

  lemma ZeroTelegrams(job: Job, data: bytes, pduLength: int, s: Writing)
    requires WriteJob(job, data, pduLength)
    ensures WriteMany(job, data, pduLength, s, 0) == s
  {
  }

  lemma WriteLoopUnfolds(mem: Memory, job: Job, data: bytes, pduLength: int, e: nat)
    requires CheckJob(job) == 0 && Negotiated(pduLength) && job.Amount < 0x1_0000 && |data| == Total(job)
    ensures WriteLoop(mem, job, data, pduLength, e) ==
            if e >= job.Amount then (0, mem)
            else
              var n := Min(job.Amount - e, MaxElements(pduLength, WRITE_OVERHEAD, job));
              if WRITE_OVERHEAD + Bytes(job, n) > ISO_CARRIED then (ERR_ISO_RECV_PACKET, mem)
              else
                var step := WriteAlone(mem, Piece(job, e, PieceBytes(job, data, e, n)));
                if step.0 == CODE_OK then WriteLoop(step.1, job, data, pduLength, e + n)
                else if e == 0 then (CpuError(step.0), step.1)
                else (ERR_CLI_PARTIAL_DATA_WRITTEN, step.1)
  {
    hide WriteAlone, Piece;
  }

  /** A telegram without elements: accepted, and then nothing changes any more, or refused. */
  lemma WriteNothing(job: Job, data: bytes, pduLength: int, s: Writing)
    requires WriteJob(job, data, pduLength) && ByteAddressed(job.WordLen) && !WriteOver(job, s)
    requires (job.Amount - s.e) % 0x1_0000 == 0
    ensures var code := if Refusal(s.mem, job) != CODE_OK then Refusal(s.mem, job)
                        else if (job.Start + Bytes(job, s.e)) % ADDRESS_SPACE > |s.mem[JobKey(job).value]| then CODE_ADDRESS_OUT_OF_RANGE
                        else CODE_OK;
            WriteStep(job, data, pduLength, s) ==
            Writing(s.e, false,
                    if code == CODE_OK then 0 else if s.First then CpuError(code) else ERR_CLI_PARTIAL_DATA_WRITTEN, s.mem)
  {
    hide WriteAlone;
    MaxElementsBytes(pduLength, WRITE_OVERHEAD, job);
    assert NumElements(job, s.e, pduLength, WRITE_OVERHEAD) == 0;
    assert Bytes(job, 0) == 0;
    PieceBounds(job, s.e, 0);
    assert PieceBytes(job, data, s.e, 0) == [];
    WriteOnePiece(s.mem, job, s.e, []);
    if Refusal(s.mem, job) == CODE_OK {
      var key, at := JobKey(job).value, (job.Start + Bytes(job, s.e)) % ADDRESS_SPACE;
      if at <= |s.mem[key]| {
        assert Splice(s.mem[key], at, []) == s.mem[key];
        assert s.mem[key := Splice(s.mem[key], at, [])] == s.mem;
      }
    }
  }

  /** What a write job of any number of elements comes to: a result and memory, or no end. */
  function WriteVerdict(mem: Memory, job: Job, data: bytes, pduLength: int): Option<(int, Memory)>
    requires WriteJob(job, data, pduLength) && ByteAddressed(job.WordLen)
  {
    FirstPartFits(job);
    var part := FirstPart(job);
    if part.Amount == 0 then
      if Refusal(mem, job) != CODE_OK then Some((CpuError(Refusal(mem, job)), mem))
      else if job.Start % ADDRESS_SPACE > |mem[JobKey(job).value]| then Some((ERR_CLI_ADDRESS_OUT_OF_RANGE, mem))
      else None
    else
      var r := WriteOutcome(mem, part, data[..Total(part)], pduLength);
      if r.0 != 0 || job.Amount < 0x1_0000 then Some(r) else None
  }

  /** Fewer than 65536 elements of any kind come to the end `WriteLoop` says. */
  lemma SmallWriteEnds(mem: Memory, job: Job, data: bytes, pduLength: int)
    requires WriteJob(job, data, pduLength) && job.Amount < 0x1_0000
    ensures WriteEnds(mem, job, data, pduLength)
    ensures var r := WriteLoop(mem, job, data, pduLength, 0); WriteEndsWith(mem, job, data, pduLength, r.0, r.1)
  {
    hide WriteMany, WriteLoop;
    FirstPartFits(job);
    var k, t := WritePartRuns(job, data, pduLength, job, WriteStart(mem));
    assert data[..Total(job)] == data;
    assert WriteOver(job, WriteMany(job, data, pduLength, WriteStart(mem), k));
  }

  lemma SmallWriteVerdict(mem: Memory, job: Job, data: bytes, pduLength: int)
    requires WriteJob(job, data, pduLength) && ByteAddressed(job.WordLen) && job.Amount < 0x1_0000
    ensures WriteVerdict(mem, job, data, pduLength) == Some(WriteOutcome(mem, job, data, pduLength))
  {
    hide WriteOutcome;
    FirstPartFits(job);
    assert data[..Total(job)] == data;
  }

  lemma SuccessLeavesRoom(mem: Memory, job: Job, data: bytes, pduLength: int)
    requires WriteJob(job, data, pduLength) && job.Amount < 0x1_0000 && ByteAddressed(job.WordLen) && WellSized(mem)
    ensures var r := WriteOutcome(mem, job, data, pduLength);
            var chunk := Bytes(job, MaxElements(pduLength, WRITE_OVERHEAD, job));
            r.0 == 0 <==>
            && WRITE_OVERHEAD + Min(Total(job), chunk) <= ISO_CARRIED && Refusal(mem, job) == CODE_OK
            && job.Start % ADDRESS_SPACE + Total(job) <= |mem[JobKey(job).value]|
    ensures var r := WriteOutcome(mem, job, data, pduLength);
            r.0 == 0 ==> Refusal(r.1, job) == CODE_OK && |r.1[JobKey(job).value]| == |mem[JobKey(job).value]|
  {
    hide Splice;
    MaxElementsBytes(pduLength, WRITE_OVERHEAD, job);
    MulAtLeast(job.Amount, DataSizeByte(job.WordLen));
  }

  lemma SamePlace(mem: Memory, job: Job)
    ensures Refusal(mem, FirstPart(job)) == Refusal(mem, job) && JobKey(FirstPart(job)) == JobKey(job)
  {
  }

  lemma OutcomeWellSized(mem: Memory, job: Job, data: bytes, pduLength: int)
    requires WriteJob(job, data, pduLength) && job.Amount < 0x1_0000 && ByteAddressed(job.WordLen) && WellSized(mem)
    ensures WellSized(WriteOutcome(mem, job, data, pduLength).1)
  {
    hide Splice;
  }

  /** The loop ends as the verdict says, and only if there is one. */
  lemma WriteRunIsVerdict(mem: Memory, job: Job, data: bytes, pduLength: int)
    requires WriteJob(job, data, pduLength) && ByteAddressed(job.WordLen) && WellSized(mem)
    ensures var v := WriteVerdict(mem, job, data, pduLength);
            && (WriteEnds(mem, job, data, pduLength) <==> v.Some?)
            && (v.Some? ==> WriteEndsWith(mem, job, data, pduLength, v.value.0, v.value.1))
  {
    hide WriteMany, WriteStep, WriteLoop, WriteOutcome, Refusal, JobKey, Bytes;
    var start, part := WriteStart(mem), FirstPart(job);
    FirstPartFits(job);
    if part.Amount == 0 {
      WriteFromNothing(mem, job, data, pduLength);
    } else {
      var k, t := WritePartRuns(job, data, pduLength, part, start);
      WriteLoopIsOutcome(mem, part, data[..Total(part)], pduLength);
      if t.result != 0 || job.Amount < 0x1_0000 {
        assert WriteOver(job, WriteMany(job, data, pduLength, start, k));
      } else {
        SuccessLeavesRoom(mem, part, data[..Total(part)], pduLength);
        SamePlace(mem, job);
        SamePlace(t.mem, job);
        OutcomeWellSized(mem, part, data[..Total(part)], pduLength);
        StuckBehindPart(mem, job, data, pduLength, k, t);
      }
    }
  }

  lemma StuckBehindPart(mem: Memory, job: Job, data: bytes, pduLength: int, k: nat, t: Writing)
    requires WriteJob(job, data, pduLength) && ByteAddressed(job.WordLen) && WellSized(t.mem) && job.Amount >= 0x1_0000
    requires t == WriteMany(job, data, pduLength, WriteStart(mem), k)
    requires t.result == 0 && !t.First && t.e == job.Amount % 0x1_0000 && Refusal(t.mem, job) == CODE_OK
    requires job.Start % ADDRESS_SPACE + Bytes(job, t.e) <= |t.mem[JobKey(job).value]|
    ensures !WriteEnds(mem, job, data, pduLength)
  {
    hide WriteMany, WriteStep;
    AreaIsSmall(t.mem, job);
    PieceBounds(job, 0, t.e);
    AddressNoWrap(job.Start, Bytes(job, t.e));
    WriteNothing(job, data, pduLength, t);
    WriteNeverEnds(mem, job, data, pduLength, k);
  }

  lemma WriteFromNothing(mem: Memory, job: Job, data: bytes, pduLength: int)
    requires WriteJob(job, data, pduLength) && ByteAddressed(job.WordLen) && WellSized(mem) && job.Amount % 0x1_0000 == 0
    ensures var v := WriteVerdict(mem, job, data, pduLength);
            && (WriteEnds(mem, job, data, pduLength) <==> v.Some?)
            && (v.Some? ==> WriteEndsWith(mem, job, data, pduLength, v.value.0, v.value.1))
  {
    hide WriteMany, WriteStep, Refusal, JobKey;
    var start := WriteStart(mem);
    PieceBounds(job, 0, 0);
    FirstPartFits(job);
    WriteNothing(job, data, pduLength, start);
    ZeroTelegrams(job, data, pduLength, start);
    ZeroTelegrams(job, data, pduLength, WriteStep(job, data, pduLength, start));
    WriteManyFirst(job, data, pduLength, start, 0);
    var t := WriteMany(job, data, pduLength, start, 1);
    assert t == WriteStep(job, data, pduLength, start);
    RefusalCode(mem, job);
    if WriteVerdict(mem, job, data, pduLength).None? {
      StuckBehindPart(mem, job, data, pduLength, 1, t);
    } else {
      assert WriteOver(job, t);
    }
  }

  lemma RefusalCode(mem: Memory, job: Job)
    ensures Refusal(mem, job) != CODE_OK ==> CpuError(Refusal(mem, job)) != 0
  {
  }

  /**
   A write never ends exactly when 65536 elements or more are asked for, and the first `Amount % 65536` of them and the
   position behind them lie in an available area (and their telegrams fit an ISO packet): from there on the loop sends
   telegrams without elements, which are accepted.
   */
  lemma WriteEndsIff(mem: Memory, job: Job, data: bytes, pduLength: int)
    requires WriteJob(job, data, pduLength) && ByteAddressed(job.WordLen) && WellSized(mem)
    ensures var first := Bytes(job, job.Amount % 0x1_0000);
            var chunk := Bytes(job, MaxElements(pduLength, WRITE_OVERHEAD, job));
            !WriteEnds(mem, job, data, pduLength) <==>
            && job.Amount >= 0x1_0000 && WRITE_OVERHEAD + Min(first, chunk) <= ISO_CARRIED
            && Refusal(mem, job) == CODE_OK && job.Start % ADDRESS_SPACE + first <= |mem[JobKey(job).value]|
  {
    hide WriteEnds, WriteOutcome;
    WriteRunIsVerdict(mem, job, data, pduLength);
    FirstPartFits(job);
    var part := FirstPart(job);
    SamePlace(mem, job);
    if part.Amount > 0 { SuccessLeavesRoom(mem, part, data[..Total(part)], pduLength); }
  }

  // ---------------------------------------------------------------- the whole read

  /** The client's read loop from element `e` on: result and user buffer. */
  function ReadLoop(mem: Memory, job: Job, buffer: bytes, pduLength: int, e: nat): (r: (int, bytes))
    requires CheckJob(job) == 0 && Negotiated(pduLength) && job.Amount < 0x1_0000
    requires |buffer| >= Total(job)
    ensures |r.1| == |buffer|
    decreases job.Amount - e
  {
    if e >= job.Amount then (0, buffer)
    else
      var w := DataSizeByte(job.WordLen);
      var n := Min(job.Amount - e, MaxElements(pduLength, READ_OVERHEAD, job));
      var r := ReadItem(mem, PieceItem(job, e, n), pduLength);
      PieceBounds(job, e, n);
      if READ_OVERHEAD + |r.data| > ISO_CARRIED then (ERR_ISO_INVALID_PDU, buffer)
      else if r.code != CODE_OK then (CpuError(r.code), buffer)
      else
        ReadSizes(mem, job, e, n, pduLength);
        ReadLoop(mem, job, Splice(buffer, Bytes(job, e), r.data), pduLength, e + n)
  }

  lemma PieceDecodes(job: Job, e: nat, n: nat)
    requires CheckJob(job) == 0 && n < 0x1_0000
    ensures DecodeItem(EncodeItem(job.Area, job.WordLen, n, job.Number, job.Start + Bytes(job, e))) == PieceItem(job, e, n)
  {
    ItemRoundTrip(job.Area, job.WordLen, n, job.Number, job.Start + Bytes(job, e));
  }

  lemma ReadCodes(mem: Memory, it: Item, pduLength: int)
    ensures var r := ReadItem(mem, it, pduLength); r.code != CODE_OK ==> CpuError(r.code) != 0
    ensures var r := ReadItem(mem, it, pduLength); r.code == CODE_OK ==> |r.data| == SizeOf(it)
  {
  }

  lemma ReadSizes(mem: Memory, job: Job, e: nat, n: nat, pduLength: int)
    requires CheckJob(job) == 0 && n < 0x1_0000
    ensures var r := ReadItem(mem, PieceItem(job, e, n), pduLength);
            && (r.data != [] ==> |r.data| == Bytes(job, n))
            && (r.code == CODE_OK ==> |r.data| == Bytes(job, n))
  {
  }

  /** What a read job does in one step. */
  function ReadOutcome(mem: Memory, job: Job, buffer: bytes, pduLength: int): (int, bytes)
    requires Negotiated(pduLength) && job.Amount < 0x1_0000
    requires CheckJob(job) == 0 ==> |buffer| >= Total(job) && ByteAddressed(job.WordLen)
  {
    if CheckJob(job) != 0 then (CheckJob(job), buffer)
    else if Refusal(mem, job) != CODE_OK then (CpuError(Refusal(mem, job)), buffer)
    else
      var chunk := Bytes(job, MaxElements(pduLength, READ_OVERHEAD, job));
      var first := Min(Total(job), chunk);
      var area := mem[JobKey(job).value];
      var at := job.Start % ADDRESS_SPACE;
      if at + first > |area| then (ERR_CLI_ADDRESS_OUT_OF_RANGE, buffer)
      else if READ_OVERHEAD + first > ISO_CARRIED then (ERR_ISO_INVALID_PDU, buffer)
      else if at + Total(job) <= |area| then (0, Splice(buffer, 0, area[at..at + Total(job)]))
      else
        ChunkFits(|area| - at, chunk, Total(job), first);
        var done := WholeChunks(|area| - at, chunk);
        (ERR_CLI_ADDRESS_OUT_OF_RANGE, Splice(buffer, 0, area[at..at + done]))
  }

  /** One read telegram: refused as a whole, or the bytes at its address. */
  lemma ReadOnePiece(mem: Memory, job: Job, e: nat, n: nat, pduLength: int)
    requires CheckJob(job) == 0 && ByteAddressed(job.WordLen)
    requires n < 0x1_0000 && Bytes(job, n) < pduLength < 0x1_0000
    ensures var at := (job.Start + Bytes(job, e)) % ADDRESS_SPACE;
            var size := Bytes(job, n);
            var r := ReadItem(mem, PieceItem(job, e, n), pduLength);
            if Refusal(mem, job) != CODE_OK then r.code == Refusal(mem, job) && r.data == []
            else if at + size > |mem[JobKey(job).value]| then r.code == CODE_ADDRESS_OUT_OF_RANGE && r.data == []
            else r.code == CODE_OK && r.data == mem[JobKey(job).value][at..at + size]
  {
    PieceStart(job, e, n);
  }

  /** The user buffer once the bytes before element `e` have been read. */
  function Fetched(mem: Memory, job: Job, buffer: bytes, e: nat): (r: bytes)
    ensures |r| == |buffer|
    requires CheckJob(job) == 0 && Refusal(mem, job) == CODE_OK
    requires |buffer| >= Total(job) && e <= job.Amount
    requires e == 0 || job.Start % ADDRESS_SPACE + Bytes(job, e) <= |mem[JobKey(job).value]|
  {
    if e == 0 then buffer
    else
      PieceBounds(job, 0, e);
      var at := job.Start % ADDRESS_SPACE;
      Splice(buffer, 0, mem[JobKey(job).value][at..at + Bytes(job, e)])
  }

  /** One round of the loop, refused or not. */
  lemma ReadLoopStep(mem: Memory, job: Job, buffer: bytes, pduLength: int, e: nat, n: nat)
    requires CheckJob(job) == 0 && ByteAddressed(job.WordLen) && Refusal(mem, job) == CODE_OK && WellSized(mem)
    requires Negotiated(pduLength) && job.Amount < 0x1_0000 && |buffer| >= Total(job)
    requires e < job.Amount && n == Min(job.Amount - e, MaxElements(pduLength, READ_OVERHEAD, job)) && n > 0
    requires e == 0 || job.Start % ADDRESS_SPACE + Bytes(job, e) <= |mem[JobKey(job).value]|
    ensures ReadLoop(mem, job, Fetched(mem, job, buffer, e), pduLength, e) ==
            if job.Start % ADDRESS_SPACE + Bytes(job, e + n) > |mem[JobKey(job).value]| then
              (ERR_CLI_ADDRESS_OUT_OF_RANGE, Fetched(mem, job, buffer, e))
            else if READ_OVERHEAD + Bytes(job, n) > ISO_CARRIED then
              (ERR_ISO_INVALID_PDU, Fetched(mem, job, buffer, e))
            else ReadLoop(mem, job, Fetched(mem, job, buffer, e + n), pduLength, e + n)
  {
    hide ReadItem, PieceItem, MaxElements, Bytes, Refusal, JobKey;
    AreaIsSmall(mem, job);
    var w := DataSizeByte(job.WordLen);
    var at := job.Start % ADDRESS_SPACE;
    var area := mem[JobKey(job).value];
    MaxElementsBytes(pduLength, READ_OVERHEAD, job);
    PieceBounds(job, e, n);
    ElementsOfChunk(job, e, n, MaxElements(pduLength, READ_OVERHEAD, job));
    ReadOnePiece(mem, job, e, n, pduLength);
    if e > 0 || at + Bytes(job, e) < ADDRESS_SPACE { AddressNoWrap(job.Start, Bytes(job, e)); }
    if at + Bytes(job, e + n) <= |area| {
      assert area[at..at + Bytes(job, e + n)]
             == area[at..at + Bytes(job, e)] + area[at + Bytes(job, e)..at + Bytes(job, e) + Bytes(job, n)];
      if e > 0 {
        SpliceConcat(buffer, 0, area[at..at + Bytes(job, e)], area[at + Bytes(job, e)..at + Bytes(job, e) + Bytes(job, n)]);
      }
    }
  }

  lemma ReadLoopEnd(mem: Memory, job: Job, buffer: bytes, pduLength: int)
    requires CheckJob(job) == 0 && Negotiated(pduLength) && job.Amount < 0x1_0000 && |buffer| >= Total(job)
    ensures ReadLoop(mem, job, buffer, pduLength, job.Amount) == (0, buffer)
  {
  }

  lemma {:induction false} ReadLoopFromChunk(mem: Memory, job: Job, buffer: bytes, pduLength: int,
                                             k: nat, e: nat, max: nat, chunk: nat, done: nat)
    requires CheckJob(job) == 0 && ByteAddressed(job.WordLen) && Refusal(mem, job) == CODE_OK && WellSized(mem)
    requires Negotiated(pduLength) && job.Amount < 0x1_0000 && |buffer| >= Total(job)
    requires max == MaxElements(pduLength, READ_OVERHEAD, job) && chunk == Bytes(job, max)
    requires e < job.Amount && done == Bytes(job, e) == Chunks(k, chunk) && (k == 0 <==> e == 0)
    requires READ_OVERHEAD + Min(Total(job), chunk) <= ISO_CARRIED
    requires k == 0 || job.Start % ADDRESS_SPACE + done <= |mem[JobKey(job).value]|
    ensures ReadLoop(mem, job, Fetched(mem, job, buffer, e), pduLength, e) == ReadOutcome(mem, job, buffer, pduLength)
    decreases job.Amount - e
  {
    hide ReadItem, PieceItem, ReadLoop, Fetched, ReadOutcome, Bytes, Chunks, MaxElements, Refusal;
    AreaIsSmall(mem, job);
    var n := Min(job.Amount - e, max);
    var at := job.Start % ADDRESS_SPACE;
    var area := mem[JobKey(job).value];
    MaxElementsBytes(pduLength, READ_OVERHEAD, job);
    PieceBounds(job, e, n);
    ElementsOfChunk(job, e, n, max);
    ReadLoopStep(mem, job, buffer, pduLength, e, n);
    if at + Bytes(job, e + n) > |area| {
      ReadStops(mem, job, buffer, pduLength, k, e, max, chunk, done, n);
    } else if e + n < job.Amount {
      ChunksNext(k, chunk);
      ReadLoopFromChunk(mem, job, buffer, pduLength, k + 1, e + n, max, chunk, done + chunk);
    } else {
      ReadLoopEnd(mem, job, Fetched(mem, job, buffer, job.Amount), pduLength);
      ReadFinishes(mem, job, buffer, pduLength, chunk);
    }
  }

  lemma ReadStops(mem: Memory, job: Job, buffer: bytes, pduLength: int,
                  k: nat, e: nat, max: nat, chunk: nat, done: nat, n: nat)
    requires CheckJob(job) == 0 && ByteAddressed(job.WordLen) && Refusal(mem, job) == CODE_OK
    requires Negotiated(pduLength) && job.Amount < 0x1_0000 && |buffer| >= Total(job)
    requires max == MaxElements(pduLength, READ_OVERHEAD, job) && chunk == Bytes(job, max) && chunk > 0
    requires e < job.Amount && done == Bytes(job, e) == Chunks(k, chunk) && (k == 0 <==> e == 0)
    requires n == Min(job.Amount - e, max) && Bytes(job, n) <= chunk
    requires e == 0 ==> Bytes(job, n) == Min(Total(job), chunk)
    requires READ_OVERHEAD + Min(Total(job), chunk) <= ISO_CARRIED
    requires k == 0 || job.Start % ADDRESS_SPACE + done <= |mem[JobKey(job).value]|
    requires job.Start % ADDRESS_SPACE + Bytes(job, e + n) > |mem[JobKey(job).value]|
    ensures ReadOutcome(mem, job, buffer, pduLength) == (ERR_CLI_ADDRESS_OUT_OF_RANGE, Fetched(mem, job, buffer, e))
  {
    PieceBounds(job, e, n);
    PieceBounds(job, 0, e + n);
    if k > 0 {
      assert k * chunk + chunk == (k + 1) * chunk;
      StopsAtWholeChunks(|mem[JobKey(job).value]| - job.Start % ADDRESS_SPACE, chunk, k);
      MulAtLeast(k, chunk);
      PartlyRead(mem, job, buffer, pduLength, chunk, done);
    }
    hide WholeChunks;
  }

  lemma PartlyRead(mem: Memory, job: Job, buffer: bytes, pduLength: int, chunk: nat, done: nat)
    requires CheckJob(job) == 0 && ByteAddressed(job.WordLen) && Refusal(mem, job) == CODE_OK
    requires Negotiated(pduLength) && job.Amount < 0x1_0000 && |buffer| >= Total(job)
    requires chunk == Bytes(job, MaxElements(pduLength, READ_OVERHEAD, job)) && chunk > 0
    requires READ_OVERHEAD + Min(Total(job), chunk) <= ISO_CARRIED && done <= Total(job)
    requires var room := |mem[JobKey(job).value]| - job.Start % ADDRESS_SPACE;
             Min(Total(job), chunk) <= room < Total(job) && WholeChunks(room, chunk) == done <= room
    ensures ReadOutcome(mem, job, buffer, pduLength)
            == (ERR_CLI_ADDRESS_OUT_OF_RANGE,
                Splice(buffer, 0, mem[JobKey(job).value][job.Start % ADDRESS_SPACE..job.Start % ADDRESS_SPACE + done]))
  {
    hide Bytes, MaxElements, Refusal, CheckJob, JobKey, WholeChunks, Splice;
  }

  lemma ReadFinishes(mem: Memory, job: Job, buffer: bytes, pduLength: int, chunk: nat)
    requires CheckJob(job) == 0 && ByteAddressed(job.WordLen) && Refusal(mem, job) == CODE_OK
    requires Negotiated(pduLength) && job.Amount < 0x1_0000 && |buffer| >= Total(job)
    requires chunk == Bytes(job, MaxElements(pduLength, READ_OVERHEAD, job))
    requires READ_OVERHEAD + Min(Total(job), chunk) <= ISO_CARRIED
    requires job.Start % ADDRESS_SPACE + Total(job) <= |mem[JobKey(job).value]|
    ensures ReadOutcome(mem, job, buffer, pduLength) == (0, Fetched(mem, job, buffer, job.Amount))
  {
  }

  /**
   A read job run telegram by telegram delivers one slice of the area, or the whole chunks of it
   that lie inside, and leaves the rest of the user buffer alone.
   */
  lemma ReadLoopIsOutcome(mem: Memory, job: Job, buffer: bytes, pduLength: int)
    requires CheckJob(job) == 0 && ByteAddressed(job.WordLen) && WellSized(mem)
    requires Negotiated(pduLength) && job.Amount < 0x1_0000 && |buffer| >= Total(job)
    ensures ReadLoop(mem, job, buffer, pduLength, 0) == ReadOutcome(mem, job, buffer, pduLength)
  {
    hide ReadItem, PieceItem, ReadOutcome, Bytes, MaxElements;
    var max := MaxElements(pduLength, READ_OVERHEAD, job);
    var n := Min(job.Amount, max);
    MaxElementsBytes(pduLength, READ_OVERHEAD, job);
    PieceBounds(job, 0, n);
    ElementsOfChunk(job, 0, n, max);
    ReadAtOnce(mem, job, buffer, pduLength, n);
    if Refusal(mem, job) == CODE_OK {
      ReadLoopStep(mem, job, buffer, pduLength, 0, n);
      assert Fetched(mem, job, buffer, 0) == buffer;
      if READ_OVERHEAD + Bytes(job, n) <= ISO_CARRIED {
        ReadLoopFromChunk(mem, job, buffer, pduLength, 0, 0, max, Bytes(job, max), 0);
      }
    } else {
      ReadOnePiece(mem, job, 0, n, pduLength);
      assert ReadLoop(mem, job, buffer, pduLength, 0) == (CpuError(Refusal(mem, job)), buffer);
    }
  }

  /** The outcomes decided by the first telegram. */
  lemma ReadAtOnce(mem: Memory, job: Job, buffer: bytes, pduLength: int, n: nat)
    requires CheckJob(job) == 0 && ByteAddressed(job.WordLen)
    requires Negotiated(pduLength) && job.Amount < 0x1_0000 && |buffer| >= Total(job)
    requires Bytes(job, n) == Min(Total(job), Bytes(job, MaxElements(pduLength, READ_OVERHEAD, job)))
    ensures Refusal(mem, job) != CODE_OK ==>
              ReadOutcome(mem, job, buffer, pduLength) == (CpuError(Refusal(mem, job)), buffer)
    ensures Refusal(mem, job) == CODE_OK && job.Start % ADDRESS_SPACE + Bytes(job, n) > |mem[JobKey(job).value]| ==>
              ReadOutcome(mem, job, buffer, pduLength) == (ERR_CLI_ADDRESS_OUT_OF_RANGE, buffer)
    ensures Refusal(mem, job) == CODE_OK && job.Start % ADDRESS_SPACE + Bytes(job, n) <= |mem[JobKey(job).value]|
            && READ_OVERHEAD + Bytes(job, n) > ISO_CARRIED ==>
              ReadOutcome(mem, job, buffer, pduLength) == (ERR_ISO_INVALID_PDU, buffer)
  {
  }

  // ---------------------------------------------------------------- the client's read loop, for any number of elements

  /** The variables of the loop: elements passed, the result, and the user's buffer. */
  datatype Reading = Reading(e: nat, result: int, buffer: bytes)

  predicate ReadOver(job: Job, s: Reading) {
    s.e >= job.Amount || s.result != 0
  }

  ghost predicate ReadJob(job: Job, pduLength: int, room: nat) {
    CheckJob(job) == 0 && Negotiated(pduLength) && room >= Total(job)
  }

  function ReadStep(mem: Memory, job: Job, pduLength: int, s: Reading): (t: Reading)
    requires ReadJob(job, pduLength, |s.buffer|)
    ensures |t.buffer| == |s.buffer|
  {
    if ReadOver(job, s) then s
    else
      var n := NumElements(job, s.e, pduLength, READ_OVERHEAD);
      var r := ReadItem(mem, PieceItem(job, s.e, n), pduLength);
      PieceBounds(job, s.e, n);
      if READ_OVERHEAD + |r.data| > ISO_CARRIED then Reading(s.e + n, ERR_ISO_INVALID_PDU, s.buffer)
      else if r.code != CODE_OK then Reading(s.e + n, CpuError(r.code), s.buffer)
      else
        ReadSizes(mem, job, s.e, n, pduLength);
        Reading(s.e + n, 0, Splice(s.buffer, Bytes(job, s.e), r.data))
  }

  /** One round of the loop, in the terms of the client's telegram. */
  lemma ReadRound(mem: Memory, job: Job, pduLength: int, s: Reading)
    requires ReadJob(job, pduLength, |s.buffer|) && !ReadOver(job, s)
    ensures var n := NumElements(job, s.e, pduLength, READ_OVERHEAD);
            var item := DecodeItem(EncodeItem(job.Area, job.WordLen, n, job.Number, job.Start + Bytes(job, s.e)));
            var r := ReadItem(mem, item, pduLength);
            && 0 <= Bytes(job, s.e) && Bytes(job, s.e) + |r.data| <= |s.buffer|
            && Bytes(job, s.e + n) == Bytes(job, s.e) + Bytes(job, n)
            && READ_OVERHEAD + |r.data| <= pduLength
            && (r.code == CODE_OK ==> |r.data| == Bytes(job, n))
            && (r.code != CODE_OK ==> r.data == [] && CpuError(r.code) != 0)
            && ReadStep(mem, job, pduLength, s) ==
               if READ_OVERHEAD + |r.data| > ISO_CARRIED then Reading(s.e + n, ERR_ISO_INVALID_PDU, s.buffer)
               else if r.code != CODE_OK then Reading(s.e + n, CpuError(r.code), s.buffer)
               else Reading(s.e + n, 0, Splice(s.buffer, Bytes(job, s.e), r.data))
  {
    var n := NumElements(job, s.e, pduLength, READ_OVERHEAD);
    MaxElementsBytes(pduLength, READ_OVERHEAD, job);
    PieceBounds(job, s.e, n);
    BytesUpTo(job, n, MaxElements(pduLength, READ_OVERHEAD, job));
    PieceDecodes(job, s.e, n);
    ReadSizes(mem, job, s.e, n, pduLength);
    ReadCodes(mem, PieceItem(job, s.e, n), pduLength);
    hide ReadItem, DecodeItem, EncodeItem, PieceItem;
  }

  /** The loop after `k` telegrams. */
  function ReadMany(mem: Memory, job: Job, pduLength: int, s: Reading, k: nat): (t: Reading)
    requires ReadJob(job, pduLength, |s.buffer|)
    ensures |t.buffer| == |s.buffer|
  {
    if k == 0 then s else ReadStep(mem, job, pduLength, ReadMany(mem, job, pduLength, s, k - 1))
  }

  /** A loop that is not over after `k` telegrams goes on to the one after, which is not behind the last. */
  lemma ReadManyNext(mem: Memory, job: Job, pduLength: int, s: Reading, k: nat, last: nat)
    requires ReadJob(job, pduLength, |s.buffer|) && k <= last
    requires ReadOver(job, ReadMany(mem, job, pduLength, s, last)) && !ReadOver(job, ReadMany(mem, job, pduLength, s, k))
    ensures k < last
    ensures ReadMany(mem, job, pduLength, s, k + 1) == ReadStep(mem, job, pduLength, ReadMany(mem, job, pduLength, s, k))
  {
    hide ReadStep;
  }

  function ReadStart(buffer: bytes): Reading {
    Reading(0, 0, buffer)
  }

  ghost predicate ReadEnds(mem: Memory, job: Job, buffer: bytes, pduLength: int)
    requires ReadJob(job, pduLength, |buffer|)
  {
    exists k: nat :: ReadOver(job, ReadMany(mem, job, pduLength, ReadStart(buffer), k))
  }

  ghost predicate ReadEndsWith(mem: Memory, job: Job, buffer: bytes, pduLength: int, result: int, after: bytes)
    requires ReadJob(job, pduLength, |buffer|)
  {
    exists k: nat :: var s := ReadMany(mem, job, pduLength, ReadStart(buffer), k);
                     ReadOver(job, s) && s.result == result && s.buffer == after
  }

  lemma {:induction false} ReadOverStays(mem: Memory, job: Job, pduLength: int, s: Reading, k: nat, l: nat)
    requires ReadJob(job, pduLength, |s.buffer|) && k <= l
    requires var t := ReadMany(mem, job, pduLength, s, k); ReadStep(mem, job, pduLength, t) == t
    ensures ReadMany(mem, job, pduLength, s, l) == ReadMany(mem, job, pduLength, s, k)
  {
    hide ReadStep;
    if k < l { ReadOverStays(mem, job, pduLength, s, k, l - 1); }
  }

  lemma ReadOverStutters(mem: Memory, job: Job, pduLength: int, s: Reading)
    requires ReadJob(job, pduLength, |s.buffer|) && ReadOver(job, s)
    ensures ReadStep(mem, job, pduLength, s) == s
  {
  }

  /** The loop ends in one way only. */
  lemma ReadEndsOnce(mem: Memory, job: Job, buffer: bytes, pduLength: int, r: int, after: bytes, r': int, after': bytes)
    requires ReadJob(job, pduLength, |buffer|)
    requires ReadEndsWith(mem, job, buffer, pduLength, r, after) && ReadEndsWith(mem, job, buffer, pduLength, r', after')
    ensures r == r' && after == after'
  {
    hide ReadMany, ReadStep;
    var start := ReadStart(buffer);
    var k: nat :| var s := ReadMany(mem, job, pduLength, start, k); ReadOver(job, s) && s.result == r && s.buffer == after;
    var l: nat :| var s := ReadMany(mem, job, pduLength, start, l); ReadOver(job, s) && s.result == r' && s.buffer == after';
    ReadOverStutters(mem, job, pduLength, ReadMany(mem, job, pduLength, start, k));
    ReadOverStutters(mem, job, pduLength, ReadMany(mem, job, pduLength, start, l));
    if k <= l { ReadOverStays(mem, job, pduLength, start, k, l); } else { ReadOverStays(mem, job, pduLength, start, l, k); }
  }

  lemma ReadNeverEnds(mem: Memory, job: Job, buffer: bytes, pduLength: int, k: nat)
    requires ReadJob(job, pduLength, |buffer|)
    requires var t := ReadMany(mem, job, pduLength, ReadStart(buffer), k);
             !ReadOver(job, t) && ReadStep(mem, job, pduLength, t) == t
    ensures !ReadEnds(mem, job, buffer, pduLength)
  {
    hide ReadMany, ReadStep;
    var start := ReadStart(buffer);
    forall l: nat ensures !ReadOver(job, ReadMany(mem, job, pduLength, start, l)) {
      if k <= l {
        ReadOverStays(mem, job, pduLength, start, k, l);
      } else if ReadOver(job, ReadMany(mem, job, pduLength, start, l)) {
        ReadOverStutters(mem, job, pduLength, ReadMany(mem, job, pduLength, start, l));
        ReadOverStays(mem, job, pduLength, start, l, k);
      }
    }
  }

  lemma {:induction false} ReadManyFirst(mem: Memory, job: Job, pduLength: int, s: Reading, k: nat)
    requires ReadJob(job, pduLength, |s.buffer|)
    ensures ReadMany(mem, job, pduLength, s, 0) == s
    ensures ReadMany(mem, job, pduLength, s, k + 1)
            == ReadMany(mem, job, pduLength, ReadStep(mem, job, pduLength, s), k)
  {
    hide ReadStep;
    if k > 0 { ReadManyFirst(mem, job, pduLength, s, k - 1); }
  }

  /** Until the first part is through, the loop does what it does for a job of that part. */
  lemma ReadStepInPart(mem: Memory, job: Job, pduLength: int, part: Job, s: Reading)
    requires ReadJob(job, pduLength, |s.buffer|) && part == FirstPart(job) && s.e < part.Amount && s.result == 0
    ensures CheckJob(part) == 0 && |s.buffer| >= Total(part) >= 0
    ensures var n := Min(part.Amount - s.e, MaxElements(pduLength, READ_OVERHEAD, part));
            var t := ReadStep(mem, job, pduLength, s);
            && n > 0 && t.e == s.e + n
            && ReadLoop(mem, part, s.buffer, pduLength, s.e) ==
               if t.result != 0 then (t.result, t.buffer) else ReadLoop(mem, part, t.buffer, pduLength, t.e)
  {
    hide ReadItem, PieceItem, Bytes, MaxElements, ReadLoop, SentItem;
    FirstPartFits(job);
    LeftInPart(job.Amount, s.e);
    MaxElementsBytes(pduLength, READ_OVERHEAD, part);
    SameElements(job, pduLength);
    var n := Min(part.Amount - s.e, MaxElements(pduLength, READ_OVERHEAD, part));
    assert n == NumElements(job, s.e, pduLength, READ_OVERHEAD);
    assert PieceItem(part, s.e, n) == PieceItem(job, s.e, n) by { SameItem(job, s.e, n); }
    PieceBounds(part, s.e, n);
    ReadCodes(mem, PieceItem(job, s.e, n), pduLength);
    ReadLoopUnfolds(mem, part, s.buffer, pduLength, s.e);
  }

  lemma SameItem(job: Job, e: nat, n: nat)
    requires CheckJob(job) == 0 && FirstPart(job).Amount > 0
    ensures CheckJob(FirstPart(job)) == 0 && PieceItem(FirstPart(job), e, n) == PieceItem(job, e, n)
  {
    hide SentItem;
  }

  lemma ReadLoopUnfolds(mem: Memory, job: Job, buffer: bytes, pduLength: int, e: nat)
    requires CheckJob(job) == 0 && Negotiated(pduLength) && job.Amount < 0x1_0000 && |buffer| >= Total(job) && e < job.Amount
    ensures var n := Min(job.Amount - e, MaxElements(pduLength, READ_OVERHEAD, job));
            n > 0 &&
            var r := ReadItem(mem, PieceItem(job, e, n), pduLength);
            && 0 <= Bytes(job, e) && (READ_OVERHEAD + |r.data| <= ISO_CARRIED && r.code == CODE_OK ==> Bytes(job, e) + |r.data| <= |buffer|)
            && ReadLoop(mem, job, buffer, pduLength, e) ==
               if READ_OVERHEAD + |r.data| > ISO_CARRIED then (ERR_ISO_INVALID_PDU, buffer)
               else if r.code != CODE_OK then (CpuError(r.code), buffer)
               else ReadLoop(mem, job, Splice(buffer, Bytes(job, e), r.data), pduLength, e + n)
  {
    hide ReadItem, PieceItem;
    MaxElementsBytes(pduLength, READ_OVERHEAD, job);
    var n := Min(job.Amount - e, MaxElements(pduLength, READ_OVERHEAD, job));
    PieceBounds(job, e, n);
    ReadSizes(mem, job, e, n, pduLength);
  }

  /** The loop reaches the end of the first part, or its failure, as `ReadLoop` says. */
  lemma {:induction false} ReadPartRuns(mem: Memory, job: Job, pduLength: int, part: Job, s: Reading) returns (k: nat, t: Reading)
    requires ReadJob(job, pduLength, |s.buffer|) && part == FirstPart(job) && s.e < part.Amount && s.result == 0
    ensures CheckJob(part) == 0 && |s.buffer| >= Total(part) >= 0
    ensures t == ReadMany(mem, job, pduLength, s, k) && (t.result == 0 ==> t.e == part.Amount)
    ensures (t.result, t.buffer) == ReadLoop(mem, part, s.buffer, pduLength, s.e)
    decreases part.Amount - s.e
  {
    hide ReadStep, ReadLoop, ReadMany, MaxElements, Bytes;
    ReadStepInPart(mem, job, pduLength, part, s);
    var next := ReadStep(mem, job, pduLength, s);
    ReadManyFirst(mem, job, pduLength, s, 0);
    ReadManyFirst(mem, job, pduLength, next, 0);
    if next.result != 0 || next.e == part.Amount {
      k, t := 1, next;
      ReadLoopEnd(mem, part, next.buffer, pduLength);
    } else {
      k, t := ReadPartRuns(mem, job, pduLength, part, next);
      ReadManyFirst(mem, job, pduLength, s, k);
      k := k + 1;
    }
  }

  /** A telegram without elements: accepted, and then nothing changes any more, or refused. */
  lemma ReadNothing(mem: Memory, job: Job, pduLength: int, s: Reading)
    requires ReadJob(job, pduLength, |s.buffer|) && ByteAddressed(job.WordLen) && !ReadOver(job, s)
    requires (job.Amount - s.e) % 0x1_0000 == 0
    ensures ReadStep(mem, job, pduLength, s) ==
            if Refusal(mem, job) != CODE_OK then s.(result := CpuError(Refusal(mem, job)))
            else if (job.Start + Bytes(job, s.e)) % ADDRESS_SPACE > |mem[JobKey(job).value]| then s.(result := ERR_CLI_ADDRESS_OUT_OF_RANGE)
            else s
  {
    hide ReadItem, PieceItem;
    MaxElementsBytes(pduLength, READ_OVERHEAD, job);
    assert NumElements(job, s.e, pduLength, READ_OVERHEAD) == 0;
    assert Bytes(job, 0) == 0;
    PieceBounds(job, s.e, 0);
    ReadOnePiece(mem, job, s.e, 0, pduLength);
    assert Splice(s.buffer, Bytes(job, s.e), []) == s.buffer;
  }

  /** What a read job of any number of elements comes to: a result and the user's buffer, or no end. */
  function ReadVerdict(mem: Memory, job: Job, buffer: bytes, pduLength: int): Option<(int, bytes)>
    requires ReadJob(job, pduLength, |buffer|) && ByteAddressed(job.WordLen)
  {
    FirstPartFits(job);
    var part := FirstPart(job);
    if part.Amount == 0 then
      if Refusal(mem, job) != CODE_OK then Some((CpuError(Refusal(mem, job)), buffer))
      else if job.Start % ADDRESS_SPACE > |mem[JobKey(job).value]| then Some((ERR_CLI_ADDRESS_OUT_OF_RANGE, buffer))
      else None
    else
      var r := ReadOutcome(mem, part, buffer, pduLength);
      if r.0 != 0 || job.Amount < 0x1_0000 then Some(r) else None
  }

  /** Fewer than 65536 elements of any kind come to the end `ReadLoop` says. */
  lemma SmallReadEnds(mem: Memory, job: Job, buffer: bytes, pduLength: int)
    requires ReadJob(job, pduLength, |buffer|) && job.Amount < 0x1_0000
    ensures ReadEnds(mem, job, buffer, pduLength)
    ensures var r := ReadLoop(mem, job, buffer, pduLength, 0); ReadEndsWith(mem, job, buffer, pduLength, r.0, r.1)
  {
    hide ReadMany, ReadLoop;
    FirstPartFits(job);
    var k, t := ReadPartRuns(mem, job, pduLength, job, ReadStart(buffer));
    assert ReadOver(job, ReadMany(mem, job, pduLength, ReadStart(buffer), k));
  }

  lemma SmallReadVerdict(mem: Memory, job: Job, buffer: bytes, pduLength: int)
    requires ReadJob(job, pduLength, |buffer|) && ByteAddressed(job.WordLen) && job.Amount < 0x1_0000
    ensures ReadVerdict(mem, job, buffer, pduLength) == Some(ReadOutcome(mem, job, buffer, pduLength))
  {
    hide ReadOutcome;
    FirstPartFits(job);
  }

  lemma ReadSuccess(mem: Memory, job: Job, buffer: bytes, pduLength: int)
    requires ReadJob(job, pduLength, |buffer|) && job.Amount < 0x1_0000 && ByteAddressed(job.WordLen)
    ensures var chunk := Bytes(job, MaxElements(pduLength, READ_OVERHEAD, job));
            ReadOutcome(mem, job, buffer, pduLength).0 == 0 <==>
            && READ_OVERHEAD + Min(Total(job), chunk) <= ISO_CARRIED && Refusal(mem, job) == CODE_OK
            && job.Start % ADDRESS_SPACE + Total(job) <= |mem[JobKey(job).value]|
  {
    hide Splice;
    MaxElementsBytes(pduLength, READ_OVERHEAD, job);
  }

  lemma ReadStuckBehindPart(mem: Memory, job: Job, buffer: bytes, pduLength: int, k: nat, t: Reading)
    requires ReadJob(job, pduLength, |buffer|) && ByteAddressed(job.WordLen) && WellSized(mem) && job.Amount >= 0x1_0000
    requires t == ReadMany(mem, job, pduLength, ReadStart(buffer), k)
    requires t.result == 0 && t.e == job.Amount % 0x1_0000 && Refusal(mem, job) == CODE_OK
    requires job.Start % ADDRESS_SPACE + Bytes(job, t.e) <= |mem[JobKey(job).value]|
    ensures !ReadEnds(mem, job, buffer, pduLength)
  {
    hide ReadMany, ReadStep;
    AreaIsSmall(mem, job);
    PieceBounds(job, 0, t.e);
    AddressNoWrap(job.Start, Bytes(job, t.e));
    ReadNothing(mem, job, pduLength, t);
    ReadNeverEnds(mem, job, buffer, pduLength, k);
  }

  lemma ReadFromNothing(mem: Memory, job: Job, buffer: bytes, pduLength: int)
    requires ReadJob(job, pduLength, |buffer|) && ByteAddressed(job.WordLen) && WellSized(mem) && job.Amount % 0x1_0000 == 0
    ensures var v := ReadVerdict(mem, job, buffer, pduLength);
            && (ReadEnds(mem, job, buffer, pduLength) <==> v.Some?)
            && (v.Some? ==> ReadEndsWith(mem, job, buffer, pduLength, v.value.0, v.value.1))
  {
    hide ReadMany, ReadStep, Refusal, JobKey;
    var start := ReadStart(buffer);
    PieceBounds(job, 0, 0);
    FirstPartFits(job);
    ReadNothing(mem, job, pduLength, start);
    ReadManyFirst(mem, job, pduLength, start, 0);
    ReadManyFirst(mem, job, pduLength, ReadStep(mem, job, pduLength, start), 0);
    var t := ReadMany(mem, job, pduLength, start, 1);
    assert t == ReadStep(mem, job, pduLength, start);
    RefusalCode(mem, job);
    if ReadVerdict(mem, job, buffer, pduLength).None? {
      ReadStuckBehindPart(mem, job, buffer, pduLength, 1, t);
    } else {
      assert ReadOver(job, t);
    }
  }

  /** The loop ends as the verdict says, and only if there is one. */
  lemma ReadRunIsVerdict(mem: Memory, job: Job, buffer: bytes, pduLength: int)
    requires ReadJob(job, pduLength, |buffer|) && ByteAddressed(job.WordLen) && WellSized(mem)
    ensures var v := ReadVerdict(mem, job, buffer, pduLength);
            && (ReadEnds(mem, job, buffer, pduLength) <==> v.Some?)
            && (v.Some? ==> ReadEndsWith(mem, job, buffer, pduLength, v.value.0, v.value.1))
  {
    hide ReadMany, ReadStep, ReadLoop, ReadOutcome, Refusal, JobKey, Bytes;
    var start, part := ReadStart(buffer), FirstPart(job);
    FirstPartFits(job);
    if part.Amount == 0 {
      ReadFromNothing(mem, job, buffer, pduLength);
    } else {
      var k, t := ReadPartRuns(mem, job, pduLength, part, start);
      ReadLoopIsOutcome(mem, part, buffer, pduLength);
      if t.result != 0 || job.Amount < 0x1_0000 {
        assert ReadOver(job, ReadMany(mem, job, pduLength, start, k));
      } else {
        ReadSuccess(mem, part, buffer, pduLength);
        SamePlace(mem, job);
        ReadStuckBehindPart(mem, job, buffer, pduLength, k, t);
      }
    }
  }

  /** A read never ends under the same condition as a write. */
  lemma ReadEndsIff(mem: Memory, job: Job, buffer: bytes, pduLength: int)
    requires ReadJob(job, pduLength, |buffer|) && ByteAddressed(job.WordLen) && WellSized(mem)
    ensures var first := Bytes(job, job.Amount % 0x1_0000);
            var chunk := Bytes(job, MaxElements(pduLength, READ_OVERHEAD, job));
            !ReadEnds(mem, job, buffer, pduLength) <==>
            && job.Amount >= 0x1_0000 && READ_OVERHEAD + Min(first, chunk) <= ISO_CARRIED
            && Refusal(mem, job) == CODE_OK && job.Start % ADDRESS_SPACE + first <= |mem[JobKey(job).value]|
  {
    hide ReadEnds, ReadOutcome;
    ReadRunIsVerdict(mem, job, buffer, pduLength);
    FirstPartFits(job);
    var part := FirstPart(job);
    SamePlace(mem, job);
    if part.Amount > 0 { ReadSuccess(mem, part, buffer, pduLength); }
  }

  /** Reading back a completed write yields what was written, whatever PDU lengths the two jobs used. */
  lemma WriteThenRead(mem: Memory, job: Job, data: bytes, buffer: bytes, writePdu: int, readPdu: int)
    requires CheckJob(job) == 0 && ByteAddressed(job.WordLen) && job.Amount < 0x1_0000
    requires Negotiated(writePdu) && Negotiated(readPdu)
    requires READ_OVERHEAD + Min(Total(job), Bytes(job, MaxElements(readPdu, READ_OVERHEAD, job))) <= ISO_CARRIED
    requires |data| == Total(job) && |buffer| >= Total(job)
    requires WriteOutcome(mem, job, data, writePdu).0 == 0
    ensures var r := ReadOutcome(WriteOutcome(mem, job, data, writePdu).1, job, buffer, readPdu);
            r == (0, data + buffer[|data|..])
  {
    hide SentItem, Bytes, MaxElements;
    MaxElementsBytes(readPdu, READ_OVERHEAD, job);
    var area := mem[JobKey(job).value];
    var at := job.Start % ADDRESS_SPACE;
    var after := WriteOutcome(mem, job, data, writePdu).1;
    assert after == mem[JobKey(job).value := Splice(area, at, data)];
    assert after[JobKey(job).value][at..at + |data|] == data;
    assert Splice(buffer, 0, data) == data + buffer[|data|..];
  }

  // ---------------------------------------------------------------- bits, timers and counters

  predicate IsBitJob(job: Job) {
    CheckJob(job) == 0 && job.WordLen == WL_BIT
  }

  /** A bit job names bit `Start % 8` of byte `Start / 8`, as far as 24 bits reach. */
  function BitByte(job: Job): nat
    requires IsBitJob(job)
  {
    job.Start % 0x100_0000 / 8
  }

  lemma BitPlace(job: Job)
    requires IsBitJob(job)
    ensures var it := PieceItem(job, 0, 1);
            && it.TransportSize == WL_BIT && it.Length == 1 && SizeOf(it) == 1 && job.Amount == 1
            && StartByte(it) == BitByte(job) && it.Address % 8 == job.Start % 8
  {
    assert Bytes(job, 0) == 0;
    assert job.Start % 0x100_0000 % 8 == job.Start % 8;
  }

  /** Writing one bit: refused, or one bit of one byte changed. */
  lemma WriteOneBit(mem: Memory, job: Job, v: byte)
    requires IsBitJob(job)
    ensures WriteAlone(mem, Piece(job, 0, [v])) ==
            if Refusal(mem, job) != CODE_OK then (Refusal(mem, job), mem)
            else
              var key, at := JobKey(job).value, BitByte(job);
              if at >= |mem[key]| then (CODE_ADDRESS_OUT_OF_RANGE, mem)
              else (CODE_OK, mem[key := Splice(mem[key], at, [SetBit(mem[key][at], job.Start % 8, v % 2 == 1)])])
  {
    hide SetBit, Splice;
    BitPlace(job);
    var w := Piece(job, 0, [v]);
    var it := SentItem(w);
    assert it == PieceItem(job, 0, 1);
    var item := DataItem(w);
    assert item[4..] == [v];
    HeadedAt(item, 0, 0, TransportOf(WL_BIT), WireLength(TransportOf(WL_BIT), 1), [v]);
    LengthRoundTrip(TransportOf(WL_BIT), 1);
    assert Payload(it, item) == [v];
  }

  lemma ReadOneBit(mem: Memory, job: Job, pduLength: int)
    requires IsBitJob(job) && Negotiated(pduLength)
    ensures var r := ReadItem(mem, PieceItem(job, 0, 1), pduLength);
            if Refusal(mem, job) != CODE_OK then r.code == Refusal(mem, job)
            else
              var key, at := JobKey(job).value, BitByte(job);
              if at >= |mem[key]| then r.code == CODE_ADDRESS_OUT_OF_RANGE
              else r.code == CODE_OK && r.data == [if BitOf(mem[key][at], job.Start % 8) then 1 else 0]
  {
    hide BitOf;
    BitPlace(job);
  }

  /** A written bit reads back, and no other bit of the area has changed. */
  lemma BitWriteThenRead(mem: Memory, job: Job, v: byte, pduLength: int, i: nat, j: nat)
    requires IsBitJob(job) && Negotiated(pduLength) && j < 8
    requires WriteAlone(mem, Piece(job, 0, [v])).0 == CODE_OK
    requires JobKey(job).Some? && JobKey(job).value in mem && i < |mem[JobKey(job).value]|
    ensures var key := JobKey(job).value;
            var after := WriteAlone(mem, Piece(job, 0, [v])).1;
            && ReadItem(after, PieceItem(job, 0, 1), pduLength).data == [v % 2]
            && |after[key]| == |mem[key]|
            && (BitOf(after[key][i], j) <==>
                if i == BitByte(job) && j == job.Start % 8 then v % 2 == 1 else BitOf(mem[key][i], j))
  {
    hide SetBit, BitOf, WriteAlone, ReadItem, PieceItem;
    WriteOneBit(mem, job, v);
    var key, at := JobKey(job).value, BitByte(job);
    var after := WriteAlone(mem, Piece(job, 0, [v])).1;
    ReadOneBit(after, job, pduLength);
    BitAfterSet(mem[key][at], job.Start % 8, v % 2 == 1, job.Start % 8);
    BitAfterSet(mem[key][at], job.Start % 8, v % 2 == 1, j);
  }

  /** Timers and counters are addressed in different units by the two sides: they meet only at element 0. */
  lemma TimerPlaceIff(job: Job, n: nat)
    requires CheckJob(job) == 0 && IsTimerOrCounter(job.WordLen) && job.Start < 0x100_0000
    ensures StartByte(PieceItem(job, 0, n)) == Bytes(job, job.Start) <==> job.Start == 0
  {
    assert Bytes(job, 0) == 0;
  }

  // ---------------------------------------------------------------- jobs on bytes, without the model's own functions

  lemma JobOnCodes(job: Job)
    requires job.Area in {0x81, 0x82, 0x83, 0x84, 0x1C, 0x1D} && 0 <= job.Number < 0x1_0000
    ensures JobKey(job) == Some(if job.Area == 0x81 then Sys(0) else if job.Area == 0x82 then Sys(1) else if job.Area == 0x83 then Sys(2)
                                else if job.Area == 0x1C then Sys(3) else if job.Area == 0x1D then Sys(4) else Db(job.Number))
  {
  }

  /** Arguments are refused before any telegram is sent, each for its own reason. */
  lemma CheckJobOnValues(job: Job)
    ensures CheckJob(job) ==
            if job.WordLen !in {1, 2, 3, 4, 5, 6, 7, 8, 0x1C, 0x1D} then 0x0050_0000
            else if job.Number < 0 || job.Number > 65535 || job.Start < 0 || job.Amount < 1 then 0x0020_0000
            else if job.WordLen == 1 && job.Amount > 1 then 0x00A0_0000
            else 0
  {
  }

  lemma BytesOfJob(job: Job, pduLength: int, overhead: int)
    requires job.WordLen in {2, 3, 4, 5, 6, 7, 8} && CheckJob(job) == 0 && overhead in {READ_OVERHEAD, WRITE_OVERHEAD} && Negotiated(pduLength)
    ensures var w := if job.WordLen in {2, 3} then 1 else if job.WordLen in {4, 5} then 2 else 4;
            && DataSizeByte(job.WordLen) == w && ByteAddressed(job.WordLen)
            && Total(job) == job.Amount * w
            && Bytes(job, MaxElements(pduLength, overhead, job)) == (pduLength - overhead) / w * w > 0
  {
    MaxElementsBytes(pduLength, overhead, job);
    MulAtLeast(MaxElements(pduLength, overhead, job), DataSizeByte(job.WordLen));
  }

  /** The whole chunks that fit, told without the quotient. */
  lemma WholeChunksFit(room: nat, chunk: int)
    requires chunk > 0
    ensures var done := WholeChunks(room, chunk);
            done <= room < done + chunk && done % chunk == 0 && (chunk <= room ==> chunk <= done)
  {
    var q := room / chunk;
    assert room == q * chunk + room % chunk;
    QuotientIs(q * chunk, chunk, q, 0);
    if chunk <= room { MulAtLeast(q, chunk); }
  }

  /**
   What a read of bytes, words, double words or reals gives, whichever area it names. `done` bytes, whole telegrams, are
   delivered when the area ends within the job.
   */
  lemma ReadJobOnBytes(mem: Memory, job: Job, buffer: bytes, pduLength: int) returns (done: nat)
    requires job.Area in {0x81, 0x82, 0x83, 0x84, 0x1C, 0x1D} && job.WordLen in {2, 3, 4, 5, 6, 7, 8}
    requires 0 <= job.Number < 0x1_0000 && 0 <= job.Start < 0x20_0000 && 1 <= job.Amount < 0x1_0000 && 240 <= pduLength <= 4096
    requires |buffer| >= job.Amount * (if job.WordLen in {2, 3} then 1 else if job.WordLen in {4, 5} then 2 else 4)
    ensures CheckJob(job) == 0 && Total(job) <= |buffer| && ByteAddressed(job.WordLen)
    ensures var w := if job.WordLen in {2, 3} then 1 else if job.WordLen in {4, 5} then 2 else 4;
            var id := if job.Area == 0x81 then Sys(0) else if job.Area == 0x82 then Sys(1) else if job.Area == 0x83 then Sys(2)
                      else if job.Area == 0x1C then Sys(3) else if job.Area == 0x1D then Sys(4) else Db(job.Number);
            var total, chunk, at := job.Amount * w, (pduLength - 18) / w * w, job.Start;
            var first := if total < chunk then total else chunk;
            var r := ReadOutcome(mem, job, buffer, pduLength);
            if id !in mem then r == (0x00C0_0000, buffer)
            else if job.Area in {0x1C, 0x1D} || at + first > |mem[id]| then r == (0x0090_0000, buffer)
            else if 18 + first > 4089 then r == (0x0003_0000, buffer)
            else if at + total <= |mem[id]| then r == (0, mem[id][at..at + total] + buffer[total..])
            else
              && 0 < chunk <= done <= |buffer| && done % chunk == 0 && at + done <= |mem[id]| < at + done + chunk
              && r == (0x0090_0000, mem[id][at..at + done] + buffer[done..])
  {
    CheckJobOnValues(job);
    JobOnCodes(job);
    BytesOfJob(job, pduLength, 18);
    hide JobKey, Bytes, Total, MaxElements, Splice, DataSizeByte, CheckJob, ByteAddressed, ReadOutcome, WholeChunks;
    var id := JobKey(job).value;
    var chunk := Bytes(job, MaxElements(pduLength, 18, job));
    done := 0;
    if id in mem && job.Area !in {0x1C, 0x1D} && job.Start + Total(job) > |mem[id]| >= job.Start {
      done := WholeChunks(|mem[id]| - job.Start, chunk);
      WholeChunksFit(|mem[id]| - job.Start, chunk);
    }
    OutcomeOfRead(mem, job, buffer, pduLength, id, chunk, done);
  }

  lemma OutcomeOfRead(mem: Memory, job: Job, buffer: bytes, pduLength: int, id: AreaId, chunk: nat, done: nat)
    requires Negotiated(pduLength) && job.Amount < 0x1_0000 && CheckJob(job) == 0 && ByteAddressed(job.WordLen)
    requires job.Area in {0x81, 0x82, 0x83, 0x84, 0x1C, 0x1D} && JobKey(job) == Some(id) && 0 <= job.Start < ADDRESS_SPACE
    requires chunk == Bytes(job, MaxElements(pduLength, READ_OVERHEAD, job)) > 0 && 0 <= Total(job) <= |buffer|
    requires id in mem && job.Area !in {0x1C, 0x1D} && job.Start + Total(job) > |mem[id]| >= job.Start ==>
               done == WholeChunks(|mem[id]| - job.Start, chunk) <= |mem[id]| - job.Start
    ensures var total, at := Total(job), job.Start;
            var first := if total < chunk then total else chunk;
            var r := ReadOutcome(mem, job, buffer, pduLength);
            if id !in mem then r == (0x00C0_0000, buffer)
            else if job.Area in {0x1C, 0x1D} || at + first > |mem[id]| then r == (0x0090_0000, buffer)
            else if 18 + first > 4089 then r == (0x0003_0000, buffer)
            else if at + total <= |mem[id]| then r == (0, mem[id][at..at + total] + buffer[total..])
            else r == (0x0090_0000, mem[id][at..at + done] + buffer[done..])
  {
    hide JobKey, Bytes, Total, MaxElements, Splice, WholeChunks, CheckJob, ByteAddressed;
    if id in mem && job.Area !in {0x1C, 0x1D} {
      if job.Start + Total(job) <= |mem[id]| {
        SpliceAtStart(buffer, mem[id][job.Start..job.Start + Total(job)]);
      } else if job.Start <= |mem[id]| {
        SpliceAtStart(buffer, mem[id][job.Start..job.Start + done]);
      }
    }
  }

  /** What a write of bytes, words, double words or reals does, whichever area it names: result and memory. */
  lemma WriteJobOnBytes(mem: Memory, job: Job, data: bytes, pduLength: int) returns (done: nat)
    requires job.Area in {0x81, 0x82, 0x83, 0x84, 0x1C, 0x1D} && job.WordLen in {2, 3, 4, 5, 6, 7, 8}
    requires 0 <= job.Number < 0x1_0000 && 0 <= job.Start < 0x20_0000 && 1 <= job.Amount < 0x1_0000 && 240 <= pduLength <= 4096
    requires |data| == job.Amount * (if job.WordLen in {2, 3} then 1 else if job.WordLen in {4, 5} then 2 else 4)
    ensures CheckJob(job) == 0 && Total(job) == |data| && ByteAddressed(job.WordLen)
    ensures var w := if job.WordLen in {2, 3} then 1 else if job.WordLen in {4, 5} then 2 else 4;
            var id := if job.Area == 0x81 then Sys(0) else if job.Area == 0x82 then Sys(1) else if job.Area == 0x83 then Sys(2)
                      else if job.Area == 0x1C then Sys(3) else if job.Area == 0x1D then Sys(4) else Db(job.Number);
            var chunk, at := (pduLength - 28) / w * w, job.Start;
            var first := if |data| < chunk then |data| else chunk;
            var r := WriteOutcome(mem, job, data, pduLength);
            if 28 + first > 4089 then r == (0x000A_0000, mem)
            else if id !in mem then r == (0x00C0_0000, mem)
            else if job.Area in {0x1C, 0x1D} || at + first > |mem[id]| then r == (0x0090_0000, mem)
            else if at + |data| <= |mem[id]| then r == (0, mem[id := mem[id][..at] + data + mem[id][at + |data|..]])
            else
              && 0 < chunk <= done <= |data| && done % chunk == 0 && at + done <= |mem[id]| < at + done + chunk
              && r == (0x0060_0000, mem[id := mem[id][..at] + data[..done] + mem[id][at + done..]])
  {
    CheckJobOnValues(job);
    JobOnCodes(job);
    BytesOfJob(job, pduLength, 28);
    hide JobKey, Bytes, Total, MaxElements, Splice, DataSizeByte, CheckJob, ByteAddressed, WriteOutcome, WholeChunks;
    var id := JobKey(job).value;
    var chunk := Bytes(job, MaxElements(pduLength, 28, job));
    done := 0;
    if id in mem && job.Area !in {0x1C, 0x1D} && job.Start + Total(job) > |mem[id]| >= job.Start {
      done := WholeChunks(|mem[id]| - job.Start, chunk);
      WholeChunksFit(|mem[id]| - job.Start, chunk);
    }
    OutcomeOfWrite(mem, job, data, pduLength, id, chunk, done);
  }

  lemma OutcomeOfWrite(mem: Memory, job: Job, data: bytes, pduLength: int, id: AreaId, chunk: nat, done: nat)
    requires Negotiated(pduLength) && job.Amount < 0x1_0000 && CheckJob(job) == 0 && ByteAddressed(job.WordLen)
    requires job.Area in {0x81, 0x82, 0x83, 0x84, 0x1C, 0x1D} && JobKey(job) == Some(id) && 0 <= job.Start < ADDRESS_SPACE
    requires chunk == Bytes(job, MaxElements(pduLength, WRITE_OVERHEAD, job)) > 0 && Total(job) == |data|
    requires id in mem && job.Area !in {0x1C, 0x1D} && job.Start + Total(job) > |mem[id]| >= job.Start ==>
               done == WholeChunks(|mem[id]| - job.Start, chunk) <= |mem[id]| - job.Start
    ensures var at := job.Start;
            var first := if |data| < chunk then |data| else chunk;
            var r := WriteOutcome(mem, job, data, pduLength);
            if 28 + first > 4089 then r == (0x000A_0000, mem)
            else if id !in mem then r == (0x00C0_0000, mem)
            else if job.Area in {0x1C, 0x1D} || at + first > |mem[id]| then r == (0x0090_0000, mem)
            else if at + |data| <= |mem[id]| then r == (0, mem[id := mem[id][..at] + data + mem[id][at + |data|..]])
            else r == (0x0060_0000, mem[id := mem[id][..at] + data[..done] + mem[id][at + done..]])
  {
    hide JobKey, Bytes, Total, MaxElements, Splice, WholeChunks, CheckJob, ByteAddressed;
    if id in mem && job.Area !in {0x1C, 0x1D} {
      if job.Start + |data| <= |mem[id]| {
        SpliceIs(mem[id], job.Start, data);
      } else if job.Start <= |mem[id]| {
        SpliceIs(mem[id], job.Start, data[..done]);
      }
    }
  }

  lemma SpliceIs(s: bytes, at: nat, d: bytes)
    requires at + |d| <= |s|
    ensures Splice(s, at, d) == s[..at] + d + s[at + |d|..]
  {
  }

  lemma SpliceAtStart(s: bytes, d: bytes)
    requires |d| <= |s|
    ensures Splice(s, 0, d) == d + s[|d|..]
  {
  }

  /** The item of a job of bits, timers or counters that goes out in one telegram. */
  lemma UnitItem(job: Job)
    requires job.Area in {0x81, 0x82, 0x83, 0x84, 0x1C, 0x1D} && job.WordLen in {1, 0x1C, 0x1D} && CheckJob(job) == 0
    requires job.Start < 0x100_0000 && job.Amount < 0x1_0000
    ensures PieceItem(job, 0, job.Amount)
            == Item(job.WordLen, job.Amount, if job.Area == 0x84 then job.Number else 0, job.Area, job.Start)
    ensures Total(job) == job.Amount * (if job.WordLen == 1 then 1 else 2) && Bytes(job, 0) == 0
  {
  }

  lemma UnitReadLoop(mem: Memory, job: Job, buffer: bytes, pduLength: int)
    requires CheckJob(job) == 0 && Negotiated(pduLength) && job.WordLen in {1, 0x1C, 0x1D} && job.Amount < 0x1_0000
    requires 0 <= Total(job) <= pduLength - 18 && |buffer| >= Total(job)
    ensures var r := ReadItem(mem, PieceItem(job, 0, job.Amount), pduLength);
            && (r.code == CODE_OK ==> |r.data| == Total(job))
            && ReadLoop(mem, job, buffer, pduLength, 0) ==
               if 18 + |r.data| > 4089 then (ERR_ISO_INVALID_PDU, buffer)
               else if r.code != CODE_OK then (CpuError(r.code), buffer)
               else (0, r.data + buffer[|r.data|..])
  {
    hide ReadItem, PieceItem, CpuError;
    FewElements(job, pduLength, 18);
    ReadLoopUnfolds(mem, job, buffer, pduLength, 0);
    var r := ReadItem(mem, PieceItem(job, 0, job.Amount), pduLength);
    ReadSizes(mem, job, 0, job.Amount, pduLength);
    if r.code == CODE_OK && 18 + |r.data| <= 4089 {
      SpliceAtStart(buffer, r.data);
      ReadLoopEnd(mem, job, r.data + buffer[|r.data|..], pduLength);
    }
  }

  lemma FewElements(job: Job, pduLength: int, overhead: int)
    requires CheckJob(job) == 0 && Total(job) <= pduLength - overhead
    ensures job.Amount <= MaxElements(pduLength, overhead, job) && Bytes(job, 0) == 0
  {
    var w := DataSizeByte(job.WordLen);
    assert pduLength - overhead == (pduLength - overhead) / w * w + (pduLength - overhead) % w;
    if job.Amount > (pduLength - overhead) / w { MulAtLeast(job.Amount - (pduLength - overhead) / w, w); }
  }

  /** What a read of timers or counters that fit one telegram gives: the server halves the number the client sends. */
  lemma ReadCountersOnBytes(mem: Memory, job: Job, buffer: bytes, pduLength: int)
    requires job.Area in {0x81, 0x82, 0x83, 0x84, 0x1C, 0x1D} && job.WordLen in {0x1C, 0x1D} && 240 <= pduLength <= 4096
    requires 0 <= job.Number < 0x1_0000 && 0 <= job.Start < 0x100_0000 && 1 <= job.Amount
    requires 2 * job.Amount <= pduLength - 18 && 2 * job.Amount <= |buffer|
    ensures CheckJob(job) == 0 && Total(job) == 2 * job.Amount
    ensures var n, at := 2 * job.Amount, job.Start / 2;
            var id := if job.Area == 0x81 then Sys(0) else if job.Area == 0x82 then Sys(1) else if job.Area == 0x83 then Sys(2)
                      else if job.Area == 0x1C then Sys(3) else if job.Area == 0x1D then Sys(4) else Db(job.Number);
            ReadLoop(mem, job, buffer, pduLength, 0) ==
            if id !in mem then (0x00C0_0000, buffer)
            else if job.Area != job.WordLen || at + n > |mem[id]| then (0x0090_0000, buffer)
            else if 18 + n > 4089 then (0x0003_0000, buffer)
            else (0, mem[id][at..at + n] + buffer[n..])
  {
    hide ReadItem, PieceItem, ReadLoop, Total, Bytes, CheckJob;
    CheckJobOnValues(job);
    UnitItem(job);
    ReadItemOnBytes(mem, PieceItem(job, 0, job.Amount), pduLength);
    UnitReadLoop(mem, job, buffer, pduLength);
  }

  /** What a read of one bit gives, whichever area it names. */
  lemma ReadBitOnBytes(mem: Memory, job: Job, buffer: bytes, pduLength: int)
    requires job.Area in {0x81, 0x82, 0x83, 0x84, 0x1C, 0x1D} && job.WordLen == 1 && job.Amount == 1 && 240 <= pduLength <= 4096
    requires 0 <= job.Number < 0x1_0000 && 0 <= job.Start < 0x100_0000 && |buffer| >= 1
    ensures CheckJob(job) == 0 && Total(job) == 1
    ensures var id := if job.Area == 0x81 then Sys(0) else if job.Area == 0x82 then Sys(1) else if job.Area == 0x83 then Sys(2)
                      else if job.Area == 0x1C then Sys(3) else if job.Area == 0x1D then Sys(4) else Db(job.Number);
            var r := ReadLoop(mem, job, buffer, pduLength, 0);
            if id !in mem then r == (0x00C0_0000, buffer)
            else if job.Area in {0x1C, 0x1D} || job.Start / 8 >= |mem[id]| then r == (0x0090_0000, buffer)
            else
              && r.0 == 0 && r.1[1..] == buffer[1..]
              && r.1[0] as int == mem[id][job.Start / 8] as int / [1, 2, 4, 8, 16, 32, 64, 128][job.Start % 8] % 2
  {
    hide ReadItem, PieceItem, ReadLoop, Total, Bytes, CheckJob;
    CheckJobOnValues(job);
    UnitItem(job);
    ReadItemOnBytes(mem, PieceItem(job, 0, 1), pduLength);
    UnitReadLoop(mem, job, buffer, pduLength);
  }

  lemma UnitWriteLoop(mem: Memory, job: Job, data: bytes, pduLength: int)
    requires CheckJob(job) == 0 && Negotiated(pduLength) && job.WordLen in {1, 0x1C, 0x1D} && job.Amount < 0x1_0000
    requires Total(job) == |data| <= pduLength - 28
    ensures WriteLoop(mem, job, data, pduLength, 0) ==
            if 28 + |data| > 4089 then (ERR_ISO_RECV_PACKET, mem)
            else
              var r := WriteItem(mem, PieceItem(job, 0, job.Amount), DataItem(Piece(job, 0, data)));
              if r.0 == CODE_OK then (0, r.1) else (CpuError(r.0), r.1)
  {
    hide WriteItem, CpuError, DataItem;
    FewElements(job, pduLength, 28);
    WriteLoopUnfolds(mem, job, data, pduLength, 0);
    PieceBounds(job, 0, job.Amount);
    WholeElements(job, job.Amount);
    assert PieceBytes(job, data, 0, job.Amount) == data;
    var r := WriteItem(mem, PieceItem(job, 0, job.Amount), DataItem(Piece(job, 0, data)));
    assert WriteAlone(mem, Piece(job, 0, data)) == r;
    if r.0 == CODE_OK { WriteLoopEnd(r.1, job, data, pduLength); }
  }

  /** The data item of such a job, byte by byte. */
  lemma UnitDataItem(job: Job, data: bytes)
    requires CheckJob(job) == 0 && job.WordLen in {1, 0x1C, 0x1D} && |data| < 0x1000
    ensures var d := DataItem(Piece(job, 0, data));
            && |d| == 4 + |data| && d[4..] == data && d[1] in {3, 9} && d[2] as int * 0x100 + d[3] as int == |data|
  {
    var d := DataItem(Piece(job, 0, data));
    assert d[4..] == data;
  }

  /** What a write of timers or counters that fit one telegram does. */
  lemma WriteCountersOnBytes(mem: Memory, job: Job, data: bytes, pduLength: int)
    requires job.Area in {0x81, 0x82, 0x83, 0x84, 0x1C, 0x1D} && job.WordLen in {0x1C, 0x1D} && 240 <= pduLength <= 4096
    requires 0 <= job.Number < 0x1_0000 && 0 <= job.Start < 0x100_0000 && 1 <= job.Amount
    requires |data| == 2 * job.Amount <= pduLength - 28
    ensures CheckJob(job) == 0 && Total(job) == |data|
    ensures var at := job.Start / 2;
            var id := if job.Area == 0x81 then Sys(0) else if job.Area == 0x82 then Sys(1) else if job.Area == 0x83 then Sys(2)
                      else if job.Area == 0x1C then Sys(3) else if job.Area == 0x1D then Sys(4) else Db(job.Number);
            WriteLoop(mem, job, data, pduLength, 0) ==
            if 28 + |data| > 4089 then (0x000A_0000, mem)
            else if id !in mem then (0x00C0_0000, mem)
            else if job.Area != job.WordLen || at + |data| > |mem[id]| then (0x0090_0000, mem)
            else (0, mem[id := mem[id][..at] + data + mem[id][at + |data|..]])
  {
    hide WriteItem, PieceItem, WriteLoop, Total, Bytes, CheckJob, DataItem, Piece;
    CheckJobOnValues(job);
    UnitItem(job);
    UnitDataItem(job, data);
    var d := DataItem(Piece(job, 0, data));
    WriteItemOnBytes(mem, PieceItem(job, 0, job.Amount), d);
    assert d[4..4 + |data|] == data;
    UnitWriteLoop(mem, job, data, pduLength);
  }

  /** What a write of one bit does: that digit of one byte changes, and nothing else. */
  lemma WriteBitOnBytes(mem: Memory, job: Job, v: byte, pduLength: int)
    requires job.Area in {0x81, 0x82, 0x83, 0x84, 0x1C, 0x1D} && job.WordLen == 1 && job.Amount == 1 && 240 <= pduLength <= 4096
    requires 0 <= job.Number < 0x1_0000 && 0 <= job.Start < 0x100_0000
    ensures CheckJob(job) == 0 && Total(job) == 1
    ensures var id := if job.Area == 0x81 then Sys(0) else if job.Area == 0x82 then Sys(1) else if job.Area == 0x83 then Sys(2)
                      else if job.Area == 0x1C then Sys(3) else if job.Area == 0x1D then Sys(4) else Db(job.Number);
            var at := job.Start / 8;
            var r := WriteLoop(mem, job, [v], pduLength, 0);
            if id !in mem then r == (0x00C0_0000, mem)
            else if job.Area in {0x1C, 0x1D} || at >= |mem[id]| then r == (0x0090_0000, mem)
            else
              && r.0 == 0 && id in r.1 && |r.1[id]| == |mem[id]| && r.1 == mem[id := mem[id][at := r.1[id][at]]]
              && (forall j :: 0 <= j < 8 ==>
                    r.1[id][at] as int / [1, 2, 4, 8, 16, 32, 64, 128][j] % 2
                    == if j == job.Start % 8 then v as int % 2 else mem[id][at] as int / [1, 2, 4, 8, 16, 32, 64, 128][j] % 2)
  {
    hide WriteItem, PieceItem, WriteLoop, Total, Bytes, CheckJob, DataItem, Piece;
    CheckJobOnValues(job);
    UnitItem(job);
    UnitDataItem(job, [v]);
    var d := DataItem(Piece(job, 0, [v]));
    assert d[4] == d[4..][0] == v;
    WriteItemOnBytes(mem, PieceItem(job, 0, 1), d);
    UnitWriteLoop(mem, job, [v], pduLength);
  }
}
