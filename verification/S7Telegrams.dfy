/**
 Read and write telegrams with up to 20 items: the bytes the client sends, the bytes the server
 answers, and the offsets each side computes into what the other side laid out.
 */
module S7Telegrams {
  import opened S7Types
  import opened S7Server
  import opened S7Items

  const REQ_HEADER_SIZE := 10
  const RES_HEADER_SIZE := 12
  const PDU_TYPE_REQUEST: byte := 1
  const PDU_TYPE_USERDATA: byte := 7
  const FUN_READ: byte := 0x04
  const FUN_WRITE: byte := 0x05

  function Concat(parts: seq<bytes>): bytes {
    if parts == [] then [] else Concat(parts[..|parts| - 1]) + parts[|parts| - 1]
  }

  function ReqHeader(sequence: word, parLen: word, dataLen: word): (r: bytes)
    ensures |r| == REQ_HEADER_SIZE
  {
    [0x32, PDU_TYPE_REQUEST, 0, 0, sequence % 0x100, sequence / 0x100] + Be16(parLen) + Be16(dataLen)
  }

  function ResHeader(pdu: bytes, parLen: word, dataLen: word): (r: bytes)
    ensures |r| == RES_HEADER_SIZE
  {
    [0x32, 3, 0, 0, ByteAt(pdu, 4), ByteAt(pdu, 5)] + Be16(parLen) + Be16(dataLen) + [0, 0]
  }

  /** The server handles a telegram only when its header accounts for all of its bytes. */
  predicate CheckPduIn(pdu: bytes) {
    && WordAt(pdu, 6) + WordAt(pdu, 8) + REQ_HEADER_SIZE == |pdu|
    && ByteAt(pdu, 1) in {PDU_TYPE_REQUEST, PDU_TYPE_USERDATA}
  }

  function ItemsCount(pdu: bytes): nat {
    ByteAt(pdu, 11)
  }

  function ItemOf(pdu: bytes, c: nat): Item {
    DecodeItem(Window(pdu, 12 + ITEM_SIZE * c, ITEM_SIZE))
  }

  lemma {:induction false} ConcatItemAt(items: seq<bytes>, c: nat)
    requires c < |items|
    requires forall i :: 0 <= i < |items| ==> |items[i]| == ITEM_SIZE
    ensures |Concat(items)| == ITEM_SIZE * |items|
    ensures Concat(items)[ITEM_SIZE * c..ITEM_SIZE * (c + 1)] == items[c]
  {
    var init := items[..|items| - 1];
    if |items| == 1 {
      assert Concat(init) == [];
    } else {
      ConcatItemAt(init, if c < |init| then c else 0);
    }
  }

  lemma {:induction false} ConcatItemLength(items: seq<bytes>)
    requires forall i :: 0 <= i < |items| ==> |items[i]| == ITEM_SIZE
    ensures |Concat(items)| == ITEM_SIZE * |items|
  {
    if items != [] { ConcatItemAt(items, 0); }
  }

  /** Items that follow a 12-byte head are found at their index, whatever comes after them. */
  lemma ItemsAfterHead(head: bytes, items: seq<bytes>, rest: bytes)
    requires |head| == 12
    requires forall i :: 0 <= i < |items| ==> |items[i]| == ITEM_SIZE
    ensures var pdu := head + Concat(items) + rest;
            && |pdu| == 12 + ITEM_SIZE * |items| + |rest|
            && pdu[12 + ITEM_SIZE * |items|..] == rest
            && (forall i :: 0 <= i < 12 ==> pdu[i] == head[i])
            && forall c :: 0 <= c < |items| ==> ItemOf(pdu, c) == DecodeItem(items[c])
  {
    var pdu := head + Concat(items) + rest;
    ConcatItemLength(items);
    var end := 12 + ITEM_SIZE * |items|;
    assert pdu[12..end] == Concat(items);
    forall c | 0 <= c < |items| ensures ItemOf(pdu, c) == DecodeItem(items[c]) {
      ConcatItemAt(items, c);
      var o := ITEM_SIZE * c;
      assert Window(pdu, 12 + o, ITEM_SIZE) == pdu[12..end][o..o + ITEM_SIZE];
    }
  }

  /** A data item found at `o`: its code, transport size, length field and data. */
  lemma HeadedAt(b: bytes, o: nat, code: byte, ts: byte, length: word, data: bytes)
    requires var item := [code, ts] + Be16(length) + data;
             o + |item| <= |b| && b[o..o + |item|] == item
    ensures ByteAt(b, o) == code && ByteAt(b, o + 1) == ts
    ensures WordAt(b, o + 2) == length
    ensures Window(b, o + 4, |data|) == data == b[o + 4..o + 4 + |data|]
  {
    var item := [code, ts] + Be16(length) + data;
    assert b[o] == item[0] && b[o + 1] == item[1] && b[o + 2] == item[2] && b[o + 3] == item[3];
    assert item[4..] == data;
    assert b[o + 4..o + 4 + |data|] == b[o..o + |item|][4..];
  }

  function RequestHead(sequence: word, parLen: word, dataLen: word, fun: byte, count: byte): (r: bytes)
    ensures |r| == 12
  {
    ReqHeader(sequence, parLen, dataLen) + [fun, count]
  }

  lemma RequestHeadFields(sequence: word, parLen: word, dataLen: word, fun: byte, count: byte, pdu: bytes)
    requires |pdu| >= 12
    requires forall i :: 0 <= i < 12 ==> pdu[i] == RequestHead(sequence, parLen, dataLen, fun, count)[i]
    ensures WordAt(pdu, 6) == parLen && WordAt(pdu, 8) == dataLen
    ensures ByteAt(pdu, 1) == PDU_TYPE_REQUEST && ByteAt(pdu, 10) == fun && ItemsCount(pdu) == count
  {
    var head := RequestHead(sequence, parLen, dataLen, fun, count);
    assert pdu[1] == head[1] && pdu[10] == head[10] && pdu[11] == head[11];
    assert pdu[6] == head[6] && pdu[7] == head[7] && pdu[8] == head[8] && pdu[9] == head[9];
  }

  // ---------------------------------------------------------------- read

  function ReadRequest(sequence: word, items: seq<bytes>): bytes
    requires |items| < 0x100
  {
    RequestHead(sequence, 2 + ITEM_SIZE * |items|, 0, FUN_READ, |items|) + Concat(items)
  }

  lemma ReadRequestParses(sequence: word, items: seq<bytes>)
    requires |items| < 0x100
    requires forall i :: 0 <= i < |items| ==> |items[i]| == ITEM_SIZE
    ensures var pdu := ReadRequest(sequence, items);
            && |pdu| == 12 + ITEM_SIZE * |items|
            && CheckPduIn(pdu) && ItemsCount(pdu) == |items|
            && forall c :: 0 <= c < |items| ==> ItemOf(pdu, c) == DecodeItem(items[c])
  {
    var head := RequestHead(sequence, 2 + ITEM_SIZE * |items|, 0, FUN_READ, |items|);
    ItemsAfterHead(head, items, []);
    assert ReadRequest(sequence, items) == head + Concat(items) + [];
    RequestHeadFields(sequence, 2 + ITEM_SIZE * |items|, 0, FUN_READ, |items|, ReadRequest(sequence, items));
  }

  /** The server's outcome for the first `c` items; each one inherits the PDU space left by the others. */
  function Replies(mem: Memory, pdu: bytes, pduLength: int, c: nat): (r: seq<ReadReply>)
    ensures |r| == c
    ensures forall i :: 0 <= i < c ==> r[i].code != CODE_OK ==> r[i].data == []
  {
    if c == 0 then []
    else
      var before := Replies(mem, pdu, pduLength, c - 1);
      before + [ReadItem(mem, ItemOf(pdu, c - 1), if c == 1 then pduLength else before[c - 2].remainder)]
  }

  /** The outcomes of a list of decoded items. */
  function ReplyList(mem: Memory, its: seq<Item>, pduLength: int): (r: seq<ReadReply>)
    ensures |r| == |its|
  {
    if its == [] then []
    else
      var before := ReplyList(mem, its[..|its| - 1], pduLength);
      before + [ReadItem(mem, its[|its| - 1], if |its| == 1 then pduLength else before[|its| - 2].remainder)]
  }

  lemma {:induction false} RepliesAreReplyList(mem: Memory, pdu: bytes, its: seq<Item>, pduLength: int, c: nat)
    requires c <= |its| && forall i :: 0 <= i < |its| ==> ItemOf(pdu, i) == its[i]
    ensures Replies(mem, pdu, pduLength, c) == ReplyList(mem, its[..c], pduLength)
  {
    hide ReadItem, ItemOf;
    if c > 0 {
      RepliesAreReplyList(mem, pdu, its, pduLength, c - 1);
      RepliesNext(mem, pdu, pduLength, c - 1);
      assert its[..c][..c - 1] == its[..c - 1];
    }
  }

  lemma RepliesNext(mem: Memory, pdu: bytes, pduLength: int, c: nat)
    ensures var before := Replies(mem, pdu, pduLength, c);
            var remainder := if c == 0 then pduLength else before[c - 1].remainder;
            Replies(mem, pdu, pduLength, c + 1) == before + [ReadItem(mem, ItemOf(pdu, c), remainder)]
  {
    hide ReadItem, ItemOf;
  }

  function ReplyItem(r: ReadReply): bytes {
    [r.code, r.ts] + Be16(r.dataLength) + r.data
  }

  /** The data part for the first `|rs|` of `n` items: an odd item is padded unless it is the last. */
  function ReplyBody(rs: seq<ReadReply>, n: nat): bytes {
    if rs == [] then []
    else
      var last := rs[|rs| - 1];
      ReplyBody(rs[..|rs| - 1], n) + ReplyItem(last) + (if |rs| < n && |last.data| % 2 != 0 then [0] else [])
  }

  lemma ReplyBodyNext(rs: seq<ReadReply>, r: ReadReply, n: nat)
    ensures ReplyBody(rs + [r], n)
            == ReplyBody(rs, n) + ReplyItem(r) + (if |rs| + 1 < n && |r.data| % 2 != 0 then [0] else [])
  {
    assert (rs + [r])[..|rs|] == rs;
  }

  function ReadCount(pdu: bytes): nat {
    if ItemsCount(pdu) > MAX_VARS then MAX_VARS else ItemsCount(pdu)
  }

  function ReadAnswer(mem: Memory, pdu: bytes, pduLength: int): bytes {
    var n := ReadCount(pdu);
    var body := ReplyBody(Replies(mem, pdu, pduLength, n), n);
    ResHeader(pdu, 2, |body| % 0x1_0000) + [ByteAt(pdu, 10), n] + body
  }

  /** Length of the data the client takes from the item at `o`. */
  function SliceAt(body: bytes, o: nat): nat {
    if ByteAt(body, o) == CODE_OK then DataSize(ByteAt(body, o + 1), WordAt(body, o + 2)) else 0
  }

  /** The client's running offset before item `c`. */
  function ReadOffset(body: bytes, c: nat): nat {
    if c == 0 then 0
    else
      var o := ReadOffset(body, c - 1);
      var slice := SliceAt(body, o);
      o + 4 + slice + slice % 2
  }

  /** What the client reports for the item at `o`: a result and the bytes for its variable. */
  function ClientItem(body: bytes, o: nat): (int, bytes) {
    if ByteAt(body, o) == CODE_OK then (0, Window(body, o + 4, SliceAt(body, o)))
    else (CpuError(ByteAt(body, o)), [])
  }

  function Outcome(r: ReadReply): (int, bytes) {
    if r.code == CODE_OK then (0, r.data) else (CpuError(r.code), [])
  }

  ghost predicate Encodable(r: ReadReply) {
    && |r.data| < 0x2000
    && (r.code == CODE_OK ==> r.dataLength == WireLength(r.ts, |r.data|))
    && (r.code != CODE_OK ==> r.data == [])
  }

  lemma {:induction false} ReplyBodyPrefix(rs: seq<ReadReply>, n: nat, c: nat)
    requires c <= |rs|
    ensures ReplyBody(rs[..c], n) <= ReplyBody(rs, n)
  {
    if c < |rs| {
      assert rs[..|rs| - 1][..c] == rs[..c];
      ReplyBodyPrefix(rs[..|rs| - 1], n, c);
    } else {
      assert rs[..c] == rs;
    }
  }

  /** At the server's own offset the client decodes exactly item `c`. */
  lemma ReplyItemDecodes(rs: seq<ReadReply>, n: nat, c: nat)
    requires c < |rs| && Encodable(rs[c])
    ensures var body := ReplyBody(rs, n);
            var o := |ReplyBody(rs[..c], n)|;
            SliceAt(body, o) == |rs[c].data| && ClientItem(body, o) == Outcome(rs[c])
  {
    var body := ReplyBody(rs, n);
    var o := |ReplyBody(rs[..c], n)|;
    ReplyBodyPrefix(rs, n, c + 1);
    assert rs[..c + 1][..c] == rs[..c];
    var r := rs[c];
    var item := ReplyItem(r);
    assert ReplyBody(rs[..c + 1], n)[o..o + |item|] == item;
    assert body[o..o + |item|] == item;
    HeadedAt(body, o, r.code, r.ts, r.dataLength, r.data);
    LengthRoundTrip(r.ts, |r.data|);
  }

  /** An item that is not the last takes its head, its data and the padding to an even length. */
  lemma BodyGrows(rs: seq<ReadReply>, n: nat, c: nat)
    requires c < |rs| && c + 1 < n
    ensures |ReplyBody(rs[..c + 1], n)| == |ReplyBody(rs[..c], n)| + 4 + |rs[c].data| + |rs[c].data| % 2
  {
    assert rs[..c + 1][..c] == rs[..c];
  }

  /**
   Both sides agree on the layout: for any list of items, successful or refused, of any parity, the
   client's running offset points at the server's item, so each variable receives its own outcome.
   */
  lemma {:induction false} ReadLayoutAgrees(rs: seq<ReadReply>, c: nat)
    requires c < |rs| && forall i :: 0 <= i <= c ==> Encodable(rs[i])
    ensures var body := ReplyBody(rs, |rs|);
            && ReadOffset(body, c) == |ReplyBody(rs[..c], |rs|)|
            && ClientItem(body, ReadOffset(body, c)) == Outcome(rs[c])
  {
    hide ClientItem, Outcome, SliceAt, ReplyItem, Encodable;
    if c > 0 {
      ReadLayoutAgrees(rs, c - 1);
      ReplyItemDecodes(rs, |rs|, c - 1);
      BodyGrows(rs, |rs|, c - 1);
    } else {
      assert ReplyBody(rs[..0], |rs|) == [];
    }
    hide ReplyBody;
    ReplyItemDecodes(rs, |rs|, c);
  }

  lemma {:induction false} BodyBoundsItems(rs: seq<ReadReply>, n: nat, c: nat)
    requires c < |rs|
    ensures |rs[c].data| + 4 <= |ReplyBody(rs, n)|
  {
    if c < |rs| - 1 { BodyBoundsItems(rs[..|rs| - 1], n, c); }
  }

  lemma {:induction false} RepliesEncodable(mem: Memory, pdu: bytes, pduLength: int, c: nat, i: nat)
    requires i < c && |Replies(mem, pdu, pduLength, c)[i].data| < 0x2000
    ensures Encodable(Replies(mem, pdu, pduLength, c)[i])
  {
    if i < c - 1 { RepliesEncodable(mem, pdu, pduLength, c - 1, i); }
  }

  // ---------------------------------------------------------------- write

  /** One variable of a write request; `data` are the bytes the client sends for it. */
  datatype WriteVar = WriteVar(Area: int, WordLen: int, DBNumber: int, Start: int, Amount: int, data: bytes)

  function EncodeVar(v: WriteVar): bytes {
    EncodeItem(v.Area, v.WordLen, v.Amount, v.DBNumber, v.Start)
  }

  /** The variable as the server decodes it. */
  function SentItem(v: WriteVar): Item {
    Item(v.WordLen % 0x100, v.Amount % 0x1_0000, if v.Area == S7_AREA_DB then v.DBNumber % 0x1_0000 else 0,
         v.Area % 0x100, SentAddress(v.WordLen, v.Start) % 0x100_0000)
  }

  /** Client side of one data item. */
  function DataItem(v: WriteVar): bytes {
    [0, TransportOf(v.WordLen)] + Be16(WireLength(TransportOf(v.WordLen), |v.data|)) + v.data
  }

  /** The client's data part for the first `|vs|` of `n` variables. */
  function DataSection(vs: seq<WriteVar>, n: nat): bytes {
    if vs == [] then []
    else
      var last := vs[|vs| - 1];
      DataSection(vs[..|vs| - 1], n) + DataItem(last) + (if |last.data| % 2 != 0 && |vs| != n then [0] else [])
  }

  function EncodeVars(vs: seq<WriteVar>): (r: seq<bytes>)
    ensures |r| == |vs|
    ensures forall i :: 0 <= i < |r| ==> r[i] == EncodeVar(vs[i]) && |r[i]| == ITEM_SIZE
  {
    seq(|vs|, i requires 0 <= i < |vs| => EncodeVar(vs[i]))
  }

  function WriteRequest(sequence: word, vs: seq<WriteVar>): bytes
    requires |vs| < 0x100
  {
    var section := DataSection(vs, |vs|);
    RequestHead(sequence, 2 + ITEM_SIZE * |vs|, |section| % 0x1_0000, FUN_WRITE, |vs|)
    + Concat(EncodeVars(vs)) + section
  }

  /** How many data bytes the server steps over, judged by the word length of the request item. */
  function StepOver(pdu: bytes, c: nat, start: nat): nat {
    var length := WordAt(pdu, start + 2);
    if CountsInUnits(ItemOf(pdu, c).TransportSize) then length else length / 8
  }

  /** The server's pointer to data item `c`. */
  function StartData(pdu: bytes, c: nat): nat {
    if c == 0 then REQ_HEADER_SIZE + WordAt(pdu, 6)
    else
      var start := StartData(pdu, c - 1);
      var l := StepOver(pdu, c - 1, start);
      start + l + 4 + l % 2
  }

  lemma StartDataNext(pdu: bytes, c: nat)
    ensures var start := StartData(pdu, c);
            var l := StepOver(pdu, c, start);
            StartData(pdu, c + 1) == start + l + 4 + l % 2
  {
  }

  function From(pdu: bytes, start: nat): bytes {
    if start <= |pdu| then pdu[start..] else []
  }

  /** The server's outcome for the first `c` items: return codes in order and the resulting memory. */
  function WriteItems(mem: Memory, pdu: bytes, c: nat): (r: (bytes, Memory))
    ensures |r.0| == c
    ensures r.1.Keys == mem.Keys
    ensures forall k :: k in mem ==> |r.1[k]| == |mem[k]|
  {
    if c == 0 then ([], mem)
    else
      var before := WriteItems(mem, pdu, c - 1);
      var step := WriteItem(before.1, ItemOf(pdu, c - 1), From(pdu, StartData(pdu, c - 1)));
      (before.0 + [step.0], step.1)
  }

  lemma WriteItemsNext(mem: Memory, pdu: bytes, c: nat)
    ensures var before := WriteItems(mem, pdu, c);
            var step := WriteItem(before.1, ItemOf(pdu, c), From(pdu, StartData(pdu, c)));
            WriteItems(mem, pdu, c + 1) == (before.0 + [step.0], step.1)
  {
    hide WriteItem, ItemOf, StartData;
  }

  function WriteAnswer(pdu: bytes, codes: bytes): bytes {
    ResHeader(pdu, 2, |codes| % 0x1_0000) + [FUN_WRITE, ItemsCount(pdu)] + codes
  }

  lemma {:induction false} DataSectionPrefix(vs: seq<WriteVar>, n: nat, c: nat)
    requires c <= |vs|
    ensures DataSection(vs[..c], n) <= DataSection(vs, n)
  {
    if c < |vs| {
      assert vs[..|vs| - 1][..c] == vs[..c];
      DataSectionPrefix(vs[..|vs| - 1], n, c);
    } else {
      assert vs[..c] == vs;
    }
  }

  /** The client's offset of data item `c`. */
  function ClientOffset(vs: seq<WriteVar>, c: nat): nat
    requires c <= |vs|
  {
    |DataSection(vs[..c], |vs|)|
  }

  /** Telegrams that fit a PDU and whose variables carry the bytes their word length calls for. */
  ghost predicate Sendable(vs: seq<WriteVar>) {
    && |vs| <= MAX_VARS
    && |DataSection(vs, |vs|)| < 0x2000
    && forall i :: 0 <= i < |vs| ==> |vs[i].data| > 0 ==> 0 <= vs[i].WordLen < 0x100
  }

  predicate SentInBytes(v: WriteVar) {
    v.WordLen == WL_REAL || v.WordLen == WL_CHAR
  }

  /** A telegram whose head, items and data section are those of a write request for `vs`. */
  ghost predicate LaidOut(pdu: bytes, vs: seq<WriteVar>) {
    var base := 12 + ITEM_SIZE * |vs|;
    && |pdu| == base + |DataSection(vs, |vs|)|
    && pdu[base..] == DataSection(vs, |vs|)
    && ItemsCount(pdu) == |vs|
    && StartData(pdu, 0) == base
    && forall c :: 0 <= c < |vs| ==> ItemOf(pdu, c) == SentItem(vs[c])
  }

  lemma WriteRequestLaidOut(sequence: word, vs: seq<WriteVar>)
    requires Sendable(vs)
    ensures LaidOut(WriteRequest(sequence, vs), vs) && CheckPduIn(WriteRequest(sequence, vs))
    ensures ByteAt(WriteRequest(sequence, vs), 10) == FUN_WRITE
  {
    var section := DataSection(vs, |vs|);
    assert |section| % 0x1_0000 == |section|;
    AssembledLaidOut(WriteRequest(sequence, vs), sequence, vs, section);
  }

  lemma AssembledLaidOut(pdu: bytes, sequence: word, vs: seq<WriteVar>, section: bytes)
    requires |vs| <= MAX_VARS && |section| < 0x1_0000 && section == DataSection(vs, |vs|)
    requires pdu == RequestHead(sequence, 2 + ITEM_SIZE * |vs|, |section|, FUN_WRITE, |vs|)
                    + Concat(EncodeVars(vs)) + section
    ensures LaidOut(pdu, vs) && CheckPduIn(pdu) && ByteAt(pdu, 10) == FUN_WRITE
  {
    hide ItemOf, DecodeItem, SentItem, RequestHead, WordAt, EncodeVar, Concat, DataSection;
    var head := RequestHead(sequence, 2 + ITEM_SIZE * |vs|, |section|, FUN_WRITE, |vs|);
    ItemsAfterHead(head, EncodeVars(vs), section);
    RequestHeadFields(sequence, 2 + ITEM_SIZE * |vs|, |section|, FUN_WRITE, |vs|, pdu);
    EncodedVarsDecode(vs);
  }

  lemma EncodedVarsDecode(vs: seq<WriteVar>)
    ensures forall c :: 0 <= c < |vs| ==> DecodeItem(EncodeVars(vs)[c]) == SentItem(vs[c])
  {
    forall c | 0 <= c < |vs| ensures DecodeItem(EncodeVars(vs)[c]) == SentItem(vs[c]) {
      ItemRoundTrip(vs[c].Area, vs[c].WordLen, vs[c].Amount, vs[c].DBNumber, vs[c].Start);
    }
  }

  lemma DataItemInSection(vs: seq<WriteVar>, c: nat)
    requires c < |vs|
    ensures var section := DataSection(vs, |vs|);
            var k := ClientOffset(vs, c);
            && k + |DataItem(vs[c])| <= |section|
            && section[k..k + |DataItem(vs[c])|] == DataItem(vs[c])
    ensures ClientOffset(vs, c + 1) == ClientOffset(vs, c) + 4 + |vs[c].data|
                 + (if |vs[c].data| % 2 != 0 && c + 1 != |vs| then 1 else 0)
  {
    DataSectionPrefix(vs, |vs|, c + 1);
    assert vs[..c + 1][..c] == vs[..c];
    var k := ClientOffset(vs, c);
    var item := DataItem(vs[c]);
    assert DataSection(vs[..c + 1], |vs|)[k..k + |item|] == item;
  }

  /** Reading at the client's own offset, the server finds the data item the client put there. */
  lemma DataItemAt(pdu: bytes, vs: seq<WriteVar>, c: nat)
    requires Sendable(vs) && LaidOut(pdu, vs) && c < |vs|
    ensures var o := 12 + ITEM_SIZE * |vs| + ClientOffset(vs, c);
            && o + 4 + |vs[c].data| <= |pdu|
            && pdu[o..o + 4 + |vs[c].data|] == DataItem(vs[c])
            && |vs[c].data| < 0x2000
            && WordAt(pdu, o + 2) == WireLength(TransportOf(vs[c].WordLen), |vs[c].data|)
  {
    hide ItemOf, DataSection, SentItem, StartData;
    DataItemInSection(vs, c);
    var base := 12 + ITEM_SIZE * |vs|;
    var k := ClientOffset(vs, c);
    var item := DataItem(vs[c]);
    SliceBehind(pdu, base, k, |item|);
    HeadedAt(pdu, base + k, 0, TransportOf(vs[c].WordLen),
             WireLength(TransportOf(vs[c].WordLen), |vs[c].data|), vs[c].data);
  }

  lemma SliceBehind(b: bytes, base: nat, k: nat, n: nat)
    requires base + k + n <= |b|
    ensures b[base..][k..k + n] == b[base + k..base + k + n]
  {
  }

  lemma StepOverAt(pdu: bytes, vs: seq<WriteVar>, c: nat)
    requires Sendable(vs) && LaidOut(pdu, vs) && c < |vs|
    ensures StepOver(pdu, c, 12 + ITEM_SIZE * |vs| + ClientOffset(vs, c))
            == if SentInBytes(vs[c]) then |vs[c].data| / 8 else |vs[c].data|
  {
    DataItemAt(pdu, vs, c);
    StepLength(vs[c], StepOver(pdu, c, 12 + ITEM_SIZE * |vs| + ClientOffset(vs, c)), ItemOf(pdu, c).TransportSize);
  }

  /** One step of the server's pointer from an agreed position: exact unless the item is Real or Char. */
  lemma StepAgrees(pdu: bytes, vs: seq<WriteVar>, c: nat)
    requires Sendable(vs) && LaidOut(pdu, vs) && c + 1 < |vs|
    requires PointerAgrees(pdu, vs, c)
    ensures PointerAgrees(pdu, vs, c + 1) <==> (!SentInBytes(vs[c]) || vs[c].data == [])
  {
    hide StepOver, ItemOf, DataSection;
    DataItemInSection(vs, c);
    StepOverAt(pdu, vs, c);
    var o := 12 + ITEM_SIZE * |vs| + ClientOffset(vs, c);
    var l := StepOver(pdu, c, o);
    StartDataNext(pdu, c);
    EvenStep(l, |vs[c].data|);
  }

  lemma EvenStep(l: nat, size: nat)
    requires l == size || l == size / 8
    ensures l + l % 2 == size + size % 2 <==> l == size
    ensures size / 8 == size <==> size == 0
  {
  }

  lemma StepLength(v: WriteVar, l: nat, ts: byte)
    requires |v.data| < 0x2000 && (v.data != [] ==> 0 <= v.WordLen < 0x100) && ts == v.WordLen % 0x100
    requires var length := WireLength(TransportOf(v.WordLen), |v.data|);
             l == if CountsInUnits(ts) then length else length / 8
    ensures l == if SentInBytes(v) then |v.data| / 8 else |v.data|
  {
  }

  ghost predicate PointerAgrees(pdu: bytes, vs: seq<WriteVar>, c: nat)
    requires c <= |vs|
  {
    StartData(pdu, c) == 12 + ITEM_SIZE * |vs| + ClientOffset(vs, c)
  }

  lemma FirstPointerAgrees(pdu: bytes, vs: seq<WriteVar>)
    requires LaidOut(pdu, vs)
    ensures PointerAgrees(pdu, vs, 0)
  {
    assert vs[..0] == [];
  }

  lemma {:induction false} PointersAgreeUpTo(pdu: bytes, vs: seq<WriteVar>, c: nat)
    requires Sendable(vs) && LaidOut(pdu, vs) && c < |vs|
    requires forall i :: 0 <= i < c ==> !SentInBytes(vs[i]) || vs[i].data == []
    ensures PointerAgrees(pdu, vs, c)
  {
    if c == 0 {
      FirstPointerAgrees(pdu, vs);
    } else {
      PointersAgreeUpTo(pdu, vs, c - 1);
      StepAgrees(pdu, vs, c - 1);
    }
  }

  /**
   The server's pointers agree with the client's offsets exactly when no variable but the last is a
   non-empty Real or Char: their length field counts bytes and the server divides it by eight.
   */
  lemma WriteLayoutAgrees(pdu: bytes, vs: seq<WriteVar>)
    requires Sendable(vs) && LaidOut(pdu, vs)
    ensures (forall c :: 0 <= c < |vs| ==> PointerAgrees(pdu, vs, c))
            <==> (forall i :: 0 <= i < |vs| - 1 ==> !SentInBytes(vs[i]) || vs[i].data == [])
  {
    if forall c :: 0 <= c < |vs| ==> PointerAgrees(pdu, vs, c) {
      forall i | 0 <= i < |vs| - 1 ensures !SentInBytes(vs[i]) || vs[i].data == [] {
        assert PointerAgrees(pdu, vs, i) && PointerAgrees(pdu, vs, i + 1);
        StepAgrees(pdu, vs, i);
      }
    }
    if forall i :: 0 <= i < |vs| - 1 ==> !SentInBytes(vs[i]) || vs[i].data == [] {
      forall c | 0 <= c < |vs| ensures PointerAgrees(pdu, vs, c) {
        PointersAgreeUpTo(pdu, vs, c);
      }
    }
  }

  /** What a write request with this variable alone does to memory. */
  function WriteAlone(mem: Memory, v: WriteVar): (byte, Memory) {
    WriteItem(mem, SentItem(v), DataItem(v))
  }

  /** The variables written one after the other, each by a request of its own. */
  function WriteInTurn(mem: Memory, vs: seq<WriteVar>): (bytes, Memory) {
    if vs == [] then ([], mem)
    else
      var before := WriteInTurn(mem, vs[..|vs| - 1]);
      var step := WriteAlone(before.1, vs[|vs| - 1]);
      (before.0 + [step.0], step.1)
  }

  /** A bit variable carries its one byte. */
  ghost predicate BitsHaveData(vs: seq<WriteVar>) {
    forall i :: 0 <= i < |vs| ==> vs[i].WordLen % 0x100 == WL_BIT ==> vs[i].data != []
  }

  lemma WriteItemIgnoresRest(mem: Memory, it: Item, d: bytes, v: WriteVar)
    requires d == DataItem(v) && |v.data| < 0x2000
    requires it.TransportSize == WL_BIT ==> v.data != []
    ensures forall e :: d <= e ==> WriteItem(mem, it, e) == WriteItem(mem, it, d)
  {
    forall e | d <= e ensures WriteItem(mem, it, e) == WriteItem(mem, it, d) {
      assert e[0] == d[0] && e[1] == d[1] && e[2] == d[2] && e[3] == d[3];
      var size := SizeOf(it);
      if DataSize(ByteAt(d, 1), WordAt(d, 2)) == size {
        assert size <= |v.data| by {
          assert d[2] as int * 0x100 + d[3] as int == WireLength(TransportOf(v.WordLen), |v.data|);
          LengthRoundTrip(TransportOf(v.WordLen), |v.data|);
        }
        if size > 0 {
          assert Window(e, 4, size) == Window(d, 4, size);
        }
      }
    }
  }

  /**
   A multi-variable write leaves the memory, and reports the codes, of writing the variables one
   after the other: a refused variable is reported at its own index and changes nothing.
   */
  lemma {:induction false} WriteManyIsWriteInTurn(mem: Memory, pdu: bytes, vs: seq<WriteVar>, c: nat)
    requires Sendable(vs) && LaidOut(pdu, vs) && BitsHaveData(vs) && c <= |vs|
    requires forall i :: 0 <= i < |vs| - 1 ==> !SentInBytes(vs[i]) || vs[i].data == []
    ensures WriteItems(mem, pdu, c) == WriteInTurn(mem, vs[..c])
  {
    hide WriteItem, WriteAlone, ItemOf, DataSection, StartData;
    if c > 0 {
      WriteManyIsWriteInTurn(mem, pdu, vs, c - 1);
      PointersAgreeUpTo(pdu, vs, c - 1);
      OneOfMany(WriteItems(mem, pdu, c - 1).1, pdu, vs, c - 1);
      WriteInTurnLast(mem, vs, c);
    }
  }

  lemma WriteInTurnLast(mem: Memory, vs: seq<WriteVar>, c: nat)
    requires 0 < c <= |vs|
    ensures var before := WriteInTurn(mem, vs[..c - 1]);
            var step := WriteAlone(before.1, vs[c - 1]);
            WriteInTurn(mem, vs[..c]) == (before.0 + [step.0], step.1)
  {
    assert vs[..c][..c - 1] == vs[..c - 1];
  }

  lemma OneOfMany(mem: Memory, pdu: bytes, vs: seq<WriteVar>, c: nat)
    requires Sendable(vs) && LaidOut(pdu, vs) && BitsHaveData(vs) && c < |vs|
    requires PointerAgrees(pdu, vs, c)
    ensures WriteItem(mem, ItemOf(pdu, c), From(pdu, StartData(pdu, c))) == WriteAlone(mem, vs[c])
  {
    var v := vs[c];
    DataItemAt(pdu, vs, c);
    var tail := From(pdu, StartData(pdu, c));
    assert DataItem(v) <= tail;
    WriteItemIgnoresRest(mem, ItemOf(pdu, c), DataItem(v), v);
  }

  /** A write request with one variable does what the variable alone does, and answers its code. */
  lemma SingleWrite(mem: Memory, sequence: word, v: WriteVar)
    requires |v.data| < 0x1000 && 0 <= v.WordLen < 0x100 && (v.WordLen == WL_BIT ==> v.data != [])
    ensures var pdu := WriteRequest(sequence, [v]);
            && |pdu| == 28 + |v.data|
            && CheckPduIn(pdu) && ItemsCount(pdu) <= MAX_VARS
    ensures var pdu := WriteRequest(sequence, [v]);
            var r := WriteItems(mem, pdu, ItemsCount(pdu));
            var answer := WriteAnswer(pdu, r.0);
            && r.1 == WriteAlone(mem, v).1
            && |answer| == 15 && WordAt(answer, 10) == 0 && ByteAt(answer, 14) == WriteAlone(mem, v).0
  {
    hide WriteAlone, WriteRequest, StartData, ItemOf, SentItem;
    var vs := [v];
    OneVariable(v);
    WriteRequestLaidOut(sequence, vs);
    var pdu := WriteRequest(sequence, vs);
    WriteManyIsWriteInTurn(mem, pdu, vs, 1);
    WriteInTurnLast(mem, vs, 1);
    assert vs[..0] == [];
    assert WriteItems(mem, pdu, 1).0 == [WriteAlone(mem, v).0];
    AnswerFields(pdu, WriteItems(mem, pdu, 1).0);
  }

  lemma OneVariable(v: WriteVar)
    requires |v.data| < 0x1000 && 0 <= v.WordLen < 0x100 && (v.WordLen == WL_BIT ==> v.data != [])
    ensures Sendable([v]) && BitsHaveData([v]) && |DataSection([v], 1)| == 4 + |v.data|
  {
    assert [v][..0] == [];
  }

  lemma AnswerFields(pdu: bytes, codes: bytes)
    requires ItemsCount(pdu) == |codes|
    ensures var answer := WriteAnswer(pdu, codes);
            && |answer| == 14 + |codes|
            && WordAt(answer, 10) == 0 && ByteAt(answer, 13) == |codes| && answer[14..] == codes
  {
    var answer := WriteAnswer(pdu, codes);
    assert answer[10] == 0 && answer[11] == 0 && answer[13] == ItemsCount(pdu);
    assert answer[14..] == codes;
  }

  /** A read request with one item returns the server's outcome for it. */
  lemma SingleRead(mem: Memory, sequence: word, item: bytes, pduLength: int)
    requires |item| == ITEM_SIZE && |ReadItem(mem, DecodeItem(item), pduLength).data| < 0x2000
    ensures var pdu := ReadRequest(sequence, [item]);
            var answer := ReadAnswer(mem, pdu, pduLength);
            var r := ReadItem(mem, DecodeItem(item), pduLength);
            && |pdu| == 24 && CheckPduIn(pdu)
            && |answer| == 18 + |r.data|
            && ClientItem(From(answer, 14), 0) == Outcome(r)
  {
    hide ReadItem, DecodeItem, WordAt;
    var pdu := ReadRequest(sequence, [item]);
    ReadRequestParses(sequence, [item]);
    assert ItemOf(pdu, 0) == DecodeItem([item][0]);
    assert Replies(mem, pdu, pduLength, 0) == [];
    RepliesNext(mem, pdu, pduLength, 0);
    var rs := Replies(mem, pdu, pduLength, 1);
    assert rs == [ReadItem(mem, DecodeItem(item), pduLength)];
    RepliesEncodable(mem, pdu, pduLength, 1, 0);
    ReadLayoutAgrees(rs, 0);
    ReplyBodyNext([], rs[0], 1);
    assert ReplyBody([], 1) == [];
    AnswerBody(mem, pdu, pduLength);
  }

  lemma AnswerBody(mem: Memory, pdu: bytes, pduLength: int)
    ensures var n := ReadCount(pdu);
            var body := ReplyBody(Replies(mem, pdu, pduLength, n), n);
            var answer := ReadAnswer(mem, pdu, pduLength);
            && |answer| == 14 + |body| && From(answer, 14) == body
            && WordAt(answer, 10) == 0 && ByteAt(answer, 13) == n
  {
    hide Replies, ReplyBody;
    var n := ReadCount(pdu);
    var body := ReplyBody(Replies(mem, pdu, pduLength, n), n);
    var answer := ReadAnswer(mem, pdu, pduLength);
    assert answer[10] == 0 && answer[11] == 0 && answer[13] == n;
    assert answer[14..] == body;
  }

  // ---------------------------------------------------------------- the telegrams, byte by byte

  /** Ten bytes of header, function and count: the sequence number low byte first, both lengths high byte first. */
  lemma HeadBytes(sequence: word, parLen: word, dataLen: word, fun: byte, count: byte)
    ensures var h := RequestHead(sequence, parLen, dataLen, fun, count);
            && h[0] == 0x32 && h[1] == 1 && h[2] == 0 && h[3] == 0
            && h[4] as int == sequence % 256 && h[5] as int == sequence / 256
            && h[6] as int == parLen / 256 && h[7] as int == parLen % 256
            && h[8] as int == dataLen / 256 && h[9] as int == dataLen % 256 && h[10] == fun && h[11] == count
  {
  }

  /** A telegram is handled when its two length fields and ten bytes add up to it and it is a request or user data. */
  lemma HandledIff(pdu: bytes)
    requires |pdu| >= 10
    ensures CheckPduIn(pdu) <==>
            && pdu[6] as int * 256 + pdu[7] as int + pdu[8] as int * 256 + pdu[9] as int + 10 == |pdu|
            && pdu[1] in {1, 7}
  {
  }

  /** A read request: its head, then twelve bytes for each item and nothing else. */
  lemma ReadRequestBytes(sequence: word, items: seq<bytes>)
    requires |items| <= 20 && forall i :: 0 <= i < |items| ==> |items[i]| == 12
    ensures var p := ReadRequest(sequence, items);
            && |p| == 12 + 12 * |items|
            && p[0] == 0x32 && p[1] == 1 && p[2] == 0 && p[3] == 0
            && p[4] as int == sequence % 256 && p[5] as int == sequence / 256
            && p[6] as int * 256 + p[7] as int == 2 + 12 * |items| && p[8] == 0 && p[9] == 0 && p[10] == 4 && p[11] == |items|
            && forall c :: 0 <= c < |items| ==> p[12 + 12 * c..24 + 12 * c] == items[c]
  {
    hide RequestHead, Concat;
    var head := RequestHead(sequence, 2 + 12 * |items|, 0, 4, |items|);
    HeadBytes(sequence, 2 + 12 * |items|, 0, 4, |items|);
    ConcatItemLength(items);
    forall c | 0 <= c < |items| ensures ReadRequest(sequence, items)[12 + 12 * c..24 + 12 * c] == items[c] {
      ConcatItemAt(items, c);
      ItemBehindHead(head, Concat(items), [], c);
      assert head + Concat(items) + [] == ReadRequest(sequence, items);
    }
  }

  lemma ItemBehindHead(head: bytes, items: bytes, rest: bytes, c: nat)
    requires |head| == 12 && 12 * (c + 1) <= |items|
    ensures (head + items + rest)[12 + 12 * c..24 + 12 * c] == items[12 * c..12 * (c + 1)]
  {
  }

  /**
   A write request: head, items, then the data section, in which variable `c` stands behind those before it, each
   taking four bytes more than its data and one more to make that even unless it is the last.
   */
  lemma WriteRequestBytes(sequence: word, vs: seq<WriteVar>)
    requires |vs| <= 20 && |DataSection(vs, |vs|)| < 0x1_0000
    ensures var p := WriteRequest(sequence, vs);
            var base := 12 + 12 * |vs|;
            && |p| >= base && p[base..] == DataSection(vs, |vs|)
            && p[0] == 0x32 && p[1] == 1 && p[2] == 0 && p[3] == 0
            && p[4] as int == sequence % 256 && p[5] as int == sequence / 256
            && p[6] as int * 256 + p[7] as int == 2 + 12 * |vs|
            && p[8] as int * 256 + p[9] as int == |p| - base && p[10] == 5 && p[11] == |vs|
            && forall c :: 0 <= c < |vs| ==>
                 p[12 + 12 * c..24 + 12 * c] == EncodeItem(vs[c].Area, vs[c].WordLen, vs[c].Amount, vs[c].DBNumber, vs[c].Start)
  {
    hide RequestHead, Concat, DataSection, EncodeItem;
    var section := DataSection(vs, |vs|);
    var head := RequestHead(sequence, 2 + 12 * |vs|, |section|, 5, |vs|);
    var items := EncodeVars(vs);
    HeadBytes(sequence, 2 + 12 * |vs|, |section|, 5, |vs|);
    ConcatItemLength(items);
    assert WriteRequest(sequence, vs) == head + Concat(items) + section;
    forall c | 0 <= c < |vs| ensures WriteRequest(sequence, vs)[12 + 12 * c..24 + 12 * c] == EncodeVar(vs[c]) {
      ConcatItemAt(items, c);
      ItemBehindHead(head, Concat(items), section, c);
    }
  }

  lemma DataItemBytes(vs: seq<WriteVar>, c: nat)
    requires c < |vs|
    ensures ClientOffset(vs, 0) == 0 && ClientOffset(vs, |vs|) == |DataSection(vs, |vs|)|
    ensures var n := |vs[c].data|;
            ClientOffset(vs, c + 1) == ClientOffset(vs, c) + 4 + (if c + 1 == |vs| then n else n + n % 2)
    ensures var d := DataSection(vs, |vs|);
            var o, n, w := ClientOffset(vs, c), |vs[c].data|, vs[c].WordLen;
            var ts := if w == 1 then 3 else if w in {5, 7} then 5 else if w == 8 then 7 else if w in {3, 0x1C, 0x1D} then 9 else 4;
            && o + 4 + n <= |d| && d[o] == 0 && d[o + 1] == ts
            && d[o + 2] as int * 256 + d[o + 3] as int == (if ts in {3, 7, 9} then n else n * 8) % 0x1_0000
            && d[o + 4..o + 4 + n] == vs[c].data
  {
    hide *;
    OffsetEnds(vs);
    DataItemInSection(vs, c);
    DataHeadBytes(vs[c]);
    FoundAt(DataSection(vs, |vs|), ClientOffset(vs, c), DataItem(vs[c]));
  }

  lemma OffsetEnds(vs: seq<WriteVar>)
    ensures ClientOffset(vs, 0) == 0 && ClientOffset(vs, |vs|) == |DataSection(vs, |vs|)|
  {
    assert vs[..|vs|] == vs && vs[..0] == [];
  }

  lemma FoundAt(b: bytes, o: nat, item: bytes)
    requires o + |item| <= |b| && b[o..o + |item|] == item && |item| >= 4
    ensures b[o] == item[0] && b[o + 1] == item[1] && b[o + 2] == item[2] && b[o + 3] == item[3]
    ensures b[o + 4..o + |item|] == item[4..]
  {
    assert b[o..o + |item|][4..] == b[o + 4..o + |item|];
  }

  lemma ReplyHeadBytes(r: ReadReply)
    ensures var d := ReplyItem(r);
            && |d| == 4 + |r.data| && d[0] == r.code && d[1] == r.ts && d[4..] == r.data
            && d[2] as int * 256 + d[3] as int == r.dataLength
  {
  }

  lemma DataHeadBytes(v: WriteVar)
    ensures var d, n, w := DataItem(v), |v.data|, v.WordLen;
            var ts := if w == 1 then 3 else if w in {5, 7} then 5 else if w == 8 then 7 else if w in {3, 0x1C, 0x1D} then 9 else 4;
            && |d| == 4 + n && d[0] == 0 && d[1] == ts && d[4..] == v.data
            && d[2] as int * 256 + d[3] as int == (if ts in {3, 7, 9} then n else n * 8) % 0x1_0000
  {
  }

  /** The answer to a read: twelve bytes of header without an error, function, count, then the items. */
  lemma ReadAnswerBytes(mem: Memory, pdu: bytes, pduLength: int)
    requires |pdu| >= 12
    ensures var a := ReadAnswer(mem, pdu, pduLength);
            var n := if pdu[11] > 20 then 20 else pdu[11] as int;
            var body := ReplyBody(Replies(mem, pdu, pduLength, n), n);
            && |a| == 14 + |body| && a[14..] == body
            && a[0] == 0x32 && a[1] == 3 && a[2] == 0 && a[3] == 0 && a[4] == pdu[4] && a[5] == pdu[5] && a[6] == 0 && a[7] == 2
            && a[8] as int * 256 + a[9] as int == |body| % 0x1_0000 && a[10] == 0 && a[11] == 0
            && a[12] == pdu[10] && a[13] as int == n
  {
    hide Replies, ReplyBody;
  }

  /** Item `c` of the answer: four bytes, its data, and one byte to make that even unless it is the last. */
  lemma ReplyItemBytes(rs: seq<ReadReply>, c: nat)
    requires c < |rs|
    ensures |ReplyBody(rs[..0], |rs|)| == 0
    ensures var n := |rs[c].data|;
            |ReplyBody(rs[..c + 1], |rs|)| == |ReplyBody(rs[..c], |rs|)| + 4 + (if c + 1 == |rs| then n else n + n % 2)
    ensures var b, o, r := ReplyBody(rs, |rs|), |ReplyBody(rs[..c], |rs|)|, rs[c];
            && o + 4 + |r.data| <= |b| && b[o] == r.code && b[o + 1] == r.ts
            && b[o + 2] as int * 256 + b[o + 3] as int == r.dataLength && b[o + 4..o + 4 + |r.data|] == r.data
  {
    hide *;
    ReplyItemInBody(rs, c);
    ReplyHeadBytes(rs[c]);
    FoundAt(ReplyBody(rs, |rs|), |ReplyBody(rs[..c], |rs|)|, ReplyItem(rs[c]));
  }

  lemma ReplyItemInBody(rs: seq<ReadReply>, c: nat)
    requires c < |rs|
    ensures |ReplyBody(rs[..0], |rs|)| == 0
    ensures |ReplyBody(rs[..c + 1], |rs|)| == |ReplyBody(rs[..c], |rs|)| + |ReplyItem(rs[c])|
                 + (if |rs[c].data| % 2 != 0 && c + 1 != |rs| then 1 else 0)
    ensures var b, o, item := ReplyBody(rs, |rs|), |ReplyBody(rs[..c], |rs|)|, ReplyItem(rs[c]);
            o + |item| <= |b| && b[o..o + |item|] == item
  {
    hide ReplyItem;
    ReplyBodyPrefix(rs, |rs|, c + 1);
    assert rs[..c + 1][..c] == rs[..c];
    var o, item := |ReplyBody(rs[..c], |rs|)|, ReplyItem(rs[c]);
    assert ReplyBody(rs[..c + 1], |rs|)[o..o + |item|] == item;
  }

  /** The answer to a write: the same header, function 5, the request's count, and one code an item. */
  lemma WriteAnswerBytes(pdu: bytes, codes: bytes)
    requires |pdu| >= 12
    ensures var a := WriteAnswer(pdu, codes);
            && |a| == 14 + |codes| && a[14..] == codes
            && a[0] == 0x32 && a[1] == 3 && a[2] == 0 && a[3] == 0 && a[4] == pdu[4] && a[5] == pdu[5] && a[6] == 0 && a[7] == 2
            && a[8] as int * 256 + a[9] as int == |codes| % 0x1_0000 && a[10] == 0 && a[11] == 0
            && a[12] == 5 && a[13] == pdu[11]
  {
  }
}
