/**
 BSend/BRecv on values: the frames a sender cuts a block into, and the receiver as a state machine
 fed by data frames, timeouts, negotiations, connection requests and lost connections.
 */
module BlockTransfer {
  import opened Arithmetic
  import opened S7Types

  const FRAME_HEAD := 34        // telegram header, parameters and data header
  const MAX_BLOCK := 65536      // size of the send buffer
  const RX_SIZE := 65544        // size of the receive buffer
  const GR_BSEND: byte := 0x46
  const PDU_USERDATA: byte := 7

  const ERR_PAR_INVALID_PARAMS := 0x0050_0000
  const ERR_PAR_NOT_LINKED := 0x0060_0000
  const ERR_PAR_BUSY := 0x0070_0000
  const ERR_PAR_FRAME_TIMEOUT := 0x0080_0000
  const ERR_PAR_RECV_TIMEOUT := 0x00B0_0000
  const ERR_PAR_INVALID_PDU := 0x0090_0000
  const ERR_PAR_RECVING_BLOCK := 0x00F0_0000
  const ERR_PAR_SENDING_BLOCK := 0x00E0_0000
  const ERR_PAR_SEND_REFUSED := 0x00C0_0000

  datatype Block = Block(rid: longword, data: bytes)

  /** Header fields the receiver does not look at. */
  datatype Tag = Tag(sequence: word, seqIn: byte, idSeq: byte)

  ghost predicate Sendable(b: Block) {
    0 < |b.data| <= MAX_BLOCK
  }

  function Be32(x: longword): (r: bytes)
    ensures |r| == 4
  {
    [x / 0x100 / 0x100 / 0x100, x / 0x100 / 0x100 % 0x100, x / 0x100 % 0x100, x % 0x100]
  }

  function LongAt(b: bytes, i: nat): longword {
    ByteAt(b, i) as int * 0x100_0000 + ByteAt(b, i + 1) as int * 0x1_0000
    + ByteAt(b, i + 2) as int * 0x100 + ByteAt(b, i + 3) as int
  }

  lemma Be32RoundTrip(x: longword, b: bytes, i: nat)
    requires i + 4 <= |b| && b[i..i + 4] == Be32(x)
    ensures LongAt(b, i) == x
  {
    var w := b[i..i + 4];
    assert b[i] == w[0] && b[i + 1] == w[1] && b[i + 2] == w[2] && b[i + 3] == w[3];
    var y := x / 0x100;
    var z := y / 0x100;
    assert x == 0x100 * y + x % 0x100 && y == 0x100 * z + y % 0x100 && z == 0x100 * (z / 0x100) + z % 0x100;
  }

  // ---------------------------------------------------------------- frames

  /** The frame carrying bytes `off` to `off + n`; the first one also carries the block's size, in 16 bits. */
  function Frame(b: Block, off: nat, n: nat, tag: Tag): bytes
    requires off + n <= |b.data|
  {
    var extra := if off == 0 then 2 else 0;
    FrameHead(tag, off + n == |b.data|, n, extra, b.rid)
    + (if off == 0 then Be16(|b.data| % 0x1_0000) else []) + b.data[off..off + n]
  }

  function FrameHead(tag: Tag, last: bool, n: nat, extra: nat, rid: longword): (r: bytes)
    ensures |r| == FRAME_HEAD
  {
    [0x32, PDU_USERDATA, 0, 0, tag.sequence % 0x100, tag.sequence / 0x100]
    + Be16(12) + Be16((12 + n + extra) % 0x1_0000)
    + [0x00, 0x01, 0x12, 0x08, 0x12, GR_BSEND, 0x01, tag.seqIn, tag.idSeq, if last then 0 else 1, 0, 0]
    + [0xFF, TS_OCTET] + Be16((n + 8 + extra) % 0x1_0000) + [0x12, 0x06, 0x13, 0x00] + Be32(rid)
  }

  lemma FrameFields(b: Block, off: nat, n: nat, tag: Tag)
    requires off + n <= |b.data| && n + 10 < 0x1_0000
    ensures var f := Frame(b, off, n, tag);
            var extra := if off == 0 then 2 else 0;
            && |f| == FRAME_HEAD + extra + n
            && ByteAt(f, 1) == PDU_USERDATA && ByteAt(f, 15) == GR_BSEND
            && (ByteAt(f, 19) == 0 <==> off + n == |b.data|)
            && WordAt(f, 24) == n + 8 + extra
            && LongAt(f, 30) == b.rid
            && (off == 0 ==> WordAt(f, FRAME_HEAD) == |b.data| % 0x1_0000)
            && Window(f, FRAME_HEAD + extra, n) == b.data[off..off + n]
            && (off > 0 ==> Window(f, FRAME_HEAD, n) == b.data[off..off + n])
  {
    var f := Frame(b, off, n, tag);
    var extra := if off == 0 then 2 else 0;
    var head := FrameHead(tag, off + n == |b.data|, n, extra, b.rid);
    HeadFields(tag, off + n == |b.data|, n, extra, b.rid, f);
    if off == 0 {
      var size := Be16(|b.data| % 0x1_0000);
      assert f[34] == size[0] && f[35] == size[1];
    }
    assert f[FRAME_HEAD + extra..] == b.data[off..off + n];
  }

  lemma HeadFields(tag: Tag, last: bool, n: nat, extra: nat, rid: longword, f: bytes)
    requires n + 10 < 0x1_0000 && extra <= 2 && FrameHead(tag, last, n, extra, rid) <= f
    ensures ByteAt(f, 1) == PDU_USERDATA && ByteAt(f, 15) == GR_BSEND
    ensures ByteAt(f, 19) == 0 <==> last
    ensures WordAt(f, 24) == n + 8 + extra && LongAt(f, 30) == rid
  {
    hide Be16, Be32, LongAt;
    var head := FrameHead(tag, last, n, extra, rid);
    assert f[1] == head[1] && f[15] == head[15] && f[19] == head[19];
    var w := Be16(n + 8 + extra);
    assert f[24] == head[24] == w[0] && f[25] == head[25] == w[1];
    Be16Value(n + 8 + extra);
    assert head[30..34] == Be32(rid);
    assert f[30..34] == head[30..34];
    Be32RoundTrip(rid, f, 30);
  }

  /** A frame, byte by byte; its header and parameter lengths add up to the frame. */
  lemma FrameBytes(b: Block, off: nat, n: nat, tag: Tag)
    requires off + n <= |b.data| && n + 14 < 0x1_0000
    ensures var f := Frame(b, off, n, tag);
            var extra := if off == 0 then 2 else 0;
            && |f| == 34 + extra + n
            && f[0] == 0x32 && f[1] == 7 && f[2] == 0 && f[3] == 0
            && f[4] as int + f[5] as int * 0x100 == tag.sequence
            && f[6] as int * 0x100 + f[7] as int == 12
            && f[8] as int * 0x100 + f[9] as int == 12 + n + extra
            && f[10] == 0x00 && f[11] == 0x01 && f[12] == 0x12 && f[13] == 0x08 && f[14] == 0x12 && f[15] == 0x46 && f[16] == 0x01
            && f[17] == tag.seqIn && f[18] == tag.idSeq && f[19] == (if off + n == |b.data| then 0 else 1)
            && f[20] == 0 && f[21] == 0 && f[22] == 0xFF && f[23] == 0x09
            && f[24] as int * 0x100 + f[25] as int == n + 8 + extra
            && f[26] == 0x12 && f[27] == 0x06 && f[28] == 0x13 && f[29] == 0x00
            && f[30] as int * 0x100_0000 + f[31] as int * 0x1_0000 + f[32] as int * 0x100 + f[33] as int == b.rid
            && (off == 0 ==> f[34] as int * 0x100 + f[35] as int == |b.data| % 0x1_0000)
            && f[34 + extra..] == b.data[off..off + n]
  {
    var f := Frame(b, off, n, tag);
    var extra := if off == 0 then 2 else 0;
    HeadBytes(tag, off + n == |b.data|, n, extra, b.rid, f);
    HeadWords(tag, off + n == |b.data|, n, extra, b.rid, f);
    hide FrameHead;
    if off == 0 { Be16Value(|b.data| % 0x1_0000); }
    assert f[34 + extra..] == b.data[off..off + n];
  }

  lemma HeadBytes(tag: Tag, last: bool, n: nat, extra: nat, rid: longword, f: bytes)
    requires FrameHead(tag, last, n, extra, rid) <= f
    ensures |f| >= 34
    ensures f[0] == 0x32 && f[1] == 7 && f[2] == 0 && f[3] == 0 && f[10] == 0x00 && f[11] == 0x01 && f[12] == 0x12 && f[13] == 0x08
    ensures f[14] == 0x12 && f[15] == 0x46 && f[16] == 0x01 && f[17] == tag.seqIn && f[18] == tag.idSeq && f[19] == (if last then 0 else 1)
    ensures f[20] == 0 && f[21] == 0 && f[22] == 0xFF && f[23] == 0x09
    ensures f[26] == 0x12 && f[27] == 0x06 && f[28] == 0x13 && f[29] == 0x00
  {
    hide Be16, Be32;
    var head := FrameHead(tag, last, n, extra, rid);
    assert forall i :: 0 <= i < 34 ==> f[i] == head[i];
  }

  lemma HeadWords(tag: Tag, last: bool, n: nat, extra: nat, rid: longword, f: bytes)
    requires n + 14 < 0x1_0000 && extra <= 2 && FrameHead(tag, last, n, extra, rid) <= f
    ensures f[4] as int + f[5] as int * 0x100 == tag.sequence
    ensures f[6] as int * 0x100 + f[7] as int == 12 && f[8] as int * 0x100 + f[9] as int == 12 + n + extra
    ensures f[24] as int * 0x100 + f[25] as int == n + 8 + extra
    ensures f[30] as int * 0x100_0000 + f[31] as int * 0x1_0000 + f[32] as int * 0x100 + f[33] as int == rid
  {
    hide Be16, Be32;
    var head := FrameHead(tag, last, n, extra, rid);
    var par, len, size := Be16(12), Be16(12 + n + extra), Be16(n + 8 + extra);
    Be16Value(12);
    Be16Value(12 + n + extra);
    Be16Value(n + 8 + extra);
    assert f[4] == head[4] && f[5] == head[5] && f[6] == head[6] == par[0] && f[7] == head[7] == par[1];
    assert f[8] == head[8] == len[0] && f[9] == head[9] == len[1] && f[24] == head[24] == size[0] && f[25] == head[25] == size[1];
    assert f[30..34] == head[30..34] == Be32(rid);
    Be32RoundTrip(rid, f, 30);
  }

  // ---------------------------------------------------------------- the receiver

  /** The last completion, as the polling functions see it. */
  datatype Last = Last(done: bool, size: word, result: int, rid: longword)

  const NOTHING_YET := Last(false, 0, 0, 0)

  /** `wild` records that a copy went past the telegram or past the receive buffer. */
  datatype Receiver = Receiver(pending: bool, offset: nat, total: word, rid: longword, rx: bytes, wild: bool,
                               last: Last, signalled: bool, bytesRecv: longword)

  /** What a completed sequence hands over: identity, announced size, bytes stored and how many. */
  datatype Delivery = Delivery(rid: longword, size: word, count: nat, stored: bytes, wild: bool)

  datatype Event =
    | Data(b: Block, off: nat, n: nat, tag: Tag, answered: bool)
    | Timeout
    | Negotiate
    | Connect
    | Lost
    | Read

  function Clear(r: Receiver): Receiver {
    r.(pending := false, offset := 0, total := 0, rid := 0, wild := false)
  }

  /** A first frame announces the size and the identity of its block. */
  function Opened(r: Receiver, f: bytes): Receiver {
    r.(pending := true, total := WordAt(f, FRAME_HEAD), rid := LongAt(f, 30), offset := 0, wild := false)
  }

  /** `slice` bytes of the telegram, from `source` on, go behind what is stored. */
  function Store(r: Receiver, f: bytes, source: nat, slice: nat): Receiver {
    r.(offset := r.offset + slice, rx := Overlay(r.rx, r.offset, Window(f, source, slice)),
       wild := r.wild || source + slice > |f| || r.offset + slice > |r.rx|)
  }

  /** The receiver once a frame's data is copied. A frame that finds nothing pending is taken as a first one. */
  function Pick(r: Receiver, f: bytes): Receiver {
    if r.pending then Store(r, f, FRAME_HEAD, (WordAt(f, 24) - 8) % 0x1_0000)
    else Store(Opened(r, f), f, FRAME_HEAD + 2, (WordAt(f, 24) - 10) % 0x1_0000)
  }

  predicate IsBSend(f: bytes) {
    ByteAt(f, 1) == PDU_USERDATA && ByteAt(f, 15) == GR_BSEND
  }

  /** A data frame, with whether its answer could be sent: new state and what is handed over. */
  function ReceiveFrame(r: Receiver, f: bytes, answered: bool): (Receiver, seq<Delivery>) {
    var s := if r.pending then r else r.(last := NOTHING_YET);
    if !IsBSend(f) then (Clear(s.(last := s.last.(done := true, result := ERR_PAR_INVALID_PDU), signalled := true)), [])
    else
      var p := Pick(s, f);
      if !answered then (Clear(p.(last := p.last.(done := true, result := ERR_PAR_RECVING_BLOCK), signalled := true)), [])
      else if ByteAt(f, 19) != 0 then (p, [])
      else
        var done := p.(last := Last(true, p.total, 0, p.rid), signalled := true,
                       bytesRecv := (p.bytesRecv + p.total) % 0x1_0000_0000);
        (Clear(done), [Delivery(p.rid, p.total, p.offset, Window(p.rx, 0, p.offset), p.wild)])
  }

  /**
   What any telegram of at least 36 bytes does to a receiver, byte by byte: a first frame carries its data behind a size
   field, another one continues; what is no block frame, or cannot be answered, drops the sequence and wakes the reader
   with an error; the frame that ends the sequence hands it over.
   */
  lemma ReceiveOnBytes(r: Receiver, f: bytes, answered: bool)
    requires |f| >= 36
    ensures var first := !r.pending;
            var from, at := if first then 36 else 34, if first then 0 else r.offset;
            var n := (f[24] as int * 256 + f[25] as int - (if first then 10 else 8)) % 0x1_0000;
            var total := if first then f[34] as int * 256 + f[35] as int else r.total as int;
            var rid := if first then ((f[30] as int * 256 + f[31] as int) * 256 + f[32] as int) * 256 + f[33] as int else r.rid as int;
            var q, ds := ReceiveFrame(r, f, answered).0, ReceiveFrame(r, f, answered).1;
            if f[1] != 7 || f[15] != 0x46 then
              !q.pending && ds == [] && q.rx == r.rx && q.bytesRecv == r.bytesRecv && q.signalled && q.last.result == 0x0090_0000
            else
              && (from + n <= |f| && at + n <= |r.rx| ==> q.rx == r.rx[..at] + f[from..from + n] + r.rx[at + n..])
              && if !answered then
                   !q.pending && ds == [] && q.bytesRecv == r.bytesRecv && q.signalled && q.last.result == 0x00F0_0000
                 else if f[19] != 0 then
                   && q.pending && ds == [] && q.bytesRecv == r.bytesRecv && q.signalled == r.signalled
                   && q.offset == at + n && q.total == total && q.rid == rid
                 else
                   && !q.pending && q.bytesRecv == (r.bytesRecv + total) % 0x1_0000_0000 && q.signalled
                   && q.last == Last(true, total, 0, rid)
                   && |ds| == 1 && ds[0].rid == rid && ds[0].size == total && ds[0].count == at + n
                   && (at + n <= |q.rx| ==> ds[0].stored == q.rx[..at + n])
  {
    hide *;
    PickOnBytes(if r.pending then r else r.(last := NOTHING_YET), f);
    ReceiveByPick(r, f, answered);
  }

  /** The same in terms of the receiver once the data is copied. */
  lemma ReceiveByPick(r: Receiver, f: bytes, answered: bool)
    requires |f| >= 36
    ensures var p := Pick(if r.pending then r else r.(last := NOTHING_YET), f);
            var q, ds := ReceiveFrame(r, f, answered).0, ReceiveFrame(r, f, answered).1;
            if f[1] != 7 || f[15] != 0x46 then
              !q.pending && ds == [] && q.rx == r.rx && q.bytesRecv == r.bytesRecv && q.signalled && q.last.result == 0x0090_0000
            else if !answered then
              !q.pending && ds == [] && q.rx == p.rx && q.bytesRecv == p.bytesRecv && q.signalled && q.last.result == 0x00F0_0000
            else if f[19] != 0 then q == p && ds == []
            else
              && !q.pending && q.rx == p.rx && q.bytesRecv == (p.bytesRecv + p.total) % 0x1_0000_0000 && q.signalled
              && q.last == Last(true, p.total, 0, p.rid)
              && |ds| == 1 && ds[0].rid == p.rid && ds[0].size == p.total && ds[0].count == p.offset
              && (p.offset <= |p.rx| ==> ds[0].stored == p.rx[..p.offset])
  {
    hide Pick;
  }

  lemma PickOnBytes(r: Receiver, f: bytes)
    requires |f| >= 36
    ensures var first := !r.pending;
            var from, at := if first then 36 else 34, if first then 0 else r.offset;
            var n := (f[24] as int * 256 + f[25] as int - (if first then 10 else 8)) % 0x1_0000;
            var p := Pick(r, f);
            && (from + n <= |f| && at + n <= |r.rx| ==> p.rx == r.rx[..at] + f[from..from + n] + r.rx[at + n..])
            && p.pending && p.offset == at + n && p.last == r.last && p.signalled == r.signalled && p.bytesRecv == r.bytesRecv
            && p.total == (if first then f[34] as int * 256 + f[35] as int else r.total as int)
            && p.rid == (if first then ((f[30] as int * 256 + f[31] as int) * 256 + f[32] as int) * 256 + f[33] as int else r.rid as int)
  {
    hide Overlay;
    var from, at := if r.pending then 34 else 36, if r.pending then r.offset else 0;
    var n := (f[24] as int * 256 + f[25] as int - (if r.pending then 8 else 10)) % 0x1_0000;
    if from + n <= |f| && at + n <= |r.rx| { LaidOver(r.rx, at, f[from..from + n]); }
  }

  lemma LaidOver(s: bytes, at: nat, d: bytes)
    requires at + |d| <= |s|
    ensures Overlay(s, at, d) == s[..at] + d + s[at + |d|..]
  {
  }

  /** What a reader gets: result, identity, size and bytes; a result other than 0 carries no bytes. */
  datatype Received = Received(result: int, rid: longword, size: word, data: bytes)

  function ReadOut(r: Receiver): Received {
    if !r.signalled then Received(ERR_PAR_RECV_TIMEOUT, 0, 0, [])
    else Received(r.last.result, r.last.rid, r.last.size, if r.last.result == 0 then Window(r.rx, 0, r.last.size) else [])
  }

  /** What one reading of the worker finds on the line. */
  datatype Incoming =
    | Nothing
    | Telegram(f: bytes, answered: bool)
    | Negotiation(pduLength: nat, agreed: bool)
    | ConnectionRequest(confirmed: bool)
    | Purged
    | Failed

  function HandleIncoming(r: Receiver, x: Incoming): (Receiver, seq<Delivery>) {
    match x
    case Telegram(f, answered) => ReceiveFrame(r, f, answered)
    case Negotiation(_, _) => (if r.pending then Clear(r) else r, [])
    case ConnectionRequest(_) => (if r.pending then Clear(r) else r, [])
    case _ => (r, [])
  }

  /** The connection survives what came in. */
  predicate LineHolds(x: Incoming) {
    match x
    case Telegram(f, answered) => IsBSend(f) && answered
    case Negotiation(_, agreed) => agreed
    case ConnectionRequest(confirmed) => confirmed
    case Failed => false
    case _ => true
  }

  /** One turn of the worker at the receiver: what came in, the check of the sequence's age, and the end of a lost connection. */
  function Turn(r: Receiver, x: Incoming, late: bool): (Receiver, seq<Delivery>) {
    var h := HandleIncoming(r, x);
    (if late && h.0.pending then Clear(h.0).(signalled := true) else if x.Failed? then Clear(h.0) else h.0, h.1)
  }

  /** One event at the receiver. Every abort forgets the sequence; a timeout also signals the reader, and reading takes the signal. */
  function Step(r: Receiver, e: Event): (Receiver, seq<Delivery>) {
    match e
    case Data(b, off, n, tag, answered) =>
      if off + n <= |b.data| then ReceiveFrame(r, Frame(b, off, n, tag), answered) else (r, [])
    case Timeout => if r.pending then (Clear(r).(signalled := true), []) else (r, [])
    case Negotiate => (if r.pending then Clear(r) else r, [])
    case Connect => (if r.pending then Clear(r) else r, [])
    case Lost => (Clear(r), [])
    case Read => (r.(signalled := false), [])
  }

  ghost predicate WellFormed(e: Event) {
    e.Data? ==> Sendable(e.b) && 0 < e.n < 0x1_0000 - 10 && e.off + e.n <= |e.b.data|
  }

  function Run(r: Receiver, es: seq<Event>): (Receiver, seq<Delivery>) {
    if es == [] then (r, [])
    else
      var before := Run(r, es[..|es| - 1]);
      var step := Step(before.0, es[|es| - 1]);
      (step.0, before.1 + step.1)
  }

  // ---------------------------------------------------------------- the sender's position

  /**
   Where the sender is, and whether the receiver is still with it: `InStep` since the first frame,
   `Aborted` when the receiver dropped the sequence since the last frame, `Astray` when frames of the
   block went on after an abort at `from`.
   */
  datatype Position =
    | Idle
    | InStep(b: Block, off: nat)
    | Aborted(b: Block, off: nat)
    | Astray(b: Block, from: nat, off: nat)

  /** A conforming sender sends the frames of a block in order and begins another only after the last or after an abort. */
  ghost predicate Allowed(p: Position, e: Event) {
    WellFormed(e) &&
    (e.Data? ==>
       if e.off == 0 then p.Idle? || p.Aborted?
       else !p.Idle? && p.b == e.b && p.off == e.off)
  }

  function Advance(p: Position, e: Event): Position {
    match e
    case Data(b, off, n, _, answered) =>
      if !answered || off + n == |b.data| then Idle
      else if off == 0 || p.InStep? then InStep(b, off + n)
      else if p.Astray? then Astray(b, p.from, off + n)
      else Astray(b, off, off + n)
    case Read => p
    case _ =>
      match p
      case Idle => Idle
      case InStep(b, off) => Aborted(b, off)
      case Aborted(b, off) => p
      case Astray(b, _, off) => Aborted(b, off)
  }

  function After(p: Position, es: seq<Event>): Position {
    if es == [] then p else Advance(After(p, es[..|es| - 1]), es[|es| - 1])
  }

  ghost predicate Conforming(es: seq<Event>) {
    forall i :: 0 <= i < |es| ==> Allowed(After(Idle, es[..i]), es[i])
  }

  /** The relation between sender and receiver that every conforming run keeps. */
  ghost predicate Related(p: Position, r: Receiver) {
    && |r.rx| == RX_SIZE
    && match p
       case Idle => !r.pending
       case Aborted(b, off) => !r.pending
       case InStep(b, off) =>
         && Sendable(b) && 0 < off < |b.data| && r.pending && !r.wild
         && r.offset == off && r.total == |b.data| % 0x1_0000 && r.rid == b.rid && r.rx[..off] == b.data[..off]
       case Astray(b, from, off) =>
         && Sendable(b) && 0 < from < off < |b.data| && r.pending
         && (r.wild || r.offset == off - from - 2)
  }

  /** The block, the whole block and nothing but the block. */
  ghost predicate Whole(d: Delivery, b: Block) {
    !d.wild && d.rid == b.rid && d.size == |b.data| && d.count == |b.data| && d.stored == b.data
  }

  /** The event completes its block at the receiver. */
  predicate Completes(e: Event) {
    e.Data? && e.answered && e.off + e.n == |e.b.data|
  }

  /** A frame that is in step extends the receiver's copy of the block. */
  lemma PickInStep(p: Position, r: Receiver, e: Event)
    requires e.Data? && Allowed(p, e) && Related(p, r) && (e.off == 0 || p.InStep?)
    ensures var q := Pick(r, Frame(e.b, e.off, e.n, e.tag));
            && q.pending && !q.wild && q.offset == e.off + e.n && q.total == |e.b.data| % 0x1_0000 && q.rid == e.b.rid
            && |q.rx| == RX_SIZE && q.rx[..e.off + e.n] == e.b.data[..e.off + e.n]
  {
    hide Frame, Overlay, Window, WordAt, LongAt, ByteAt, Pick;
    FrameFields(e.b, e.off, e.n, e.tag);
    PickGives(r, Frame(e.b, e.off, e.n, e.tag), e.b.data[e.off..e.off + e.n]);
    OverlayPrefix(r.rx, e.off, e.b.data, e.n);
  }

  lemma PickGives(r: Receiver, f: bytes, d: bytes)
    requires var extra := if r.pending then 0 else 2;
             WordAt(f, 24) == |d| + 8 + extra && |f| == FRAME_HEAD + extra + |d| && Window(f, FRAME_HEAD + extra, |d|) == d
    ensures var s := if r.pending then r else Opened(r, f);
            Pick(r, f) == s.(offset := s.offset + |d|, rx := Overlay(s.rx, s.offset, d),
                             wild := s.wild || s.offset + |d| > |s.rx|)
  {
    hide Overlay, Window, WordAt, LongAt, ByteAt;
  }

  lemma OverlayPrefix(rx: bytes, off: nat, data: bytes, n: nat)
    requires off + n <= |data| && off + n <= |rx| && rx[..off] == data[..off]
    ensures Overlay(rx, off, data[off..off + n])[..off + n] == data[..off + n]
  {
    var q := Overlay(rx, off, data[off..off + n]);
    forall i | 0 <= i < off + n ensures q[i] == data[i] {
      if i < off { assert rx[..off][i] == data[..off][i]; }
    }
  }

  /** A frame that arrives after an abort loses its first two bytes to the size field of a first frame. */
  lemma PickAstray(p: Position, r: Receiver, e: Event)
    requires e.Data? && Allowed(p, e) && Related(p, r) && e.off > 0 && !p.InStep?
    ensures var q := Pick(r, Frame(e.b, e.off, e.n, e.tag));
            var from := if p.Astray? then p.from else e.off;
            && q.pending && |q.rx| == RX_SIZE && 0 < from <= e.off
            && (q.wild || q.offset == e.off + e.n - from - 2)
            && (p.Aborted? && !q.wild ==> q.total == WordAt(Frame(e.b, e.off, e.n, e.tag), FRAME_HEAD))
  {
    hide Frame, Pick, Window, WordAt, LongAt, ByteAt;
    FrameFields(e.b, e.off, e.n, e.tag);
    PickOffsets(r, Frame(e.b, e.off, e.n, e.tag), e.n);
  }

  /** Where a continuation frame leaves the receiver: two bytes short, or past the telegram, when it is taken as a first one. */
  lemma PickOffsets(r: Receiver, f: bytes, n: nat)
    requires WordAt(f, 24) == n + 8 && |f| == FRAME_HEAD + n && 0 < n
    ensures var q := Pick(r, f);
            && q.pending && |q.rx| == |r.rx|
            && if r.pending then q.offset == r.offset + n && (r.wild ==> q.wild)
               else q.total == WordAt(f, FRAME_HEAD) && (q.wild || q.offset == n - 2)
  {
    hide Overlay, Window, WordAt, LongAt, ByteAt;
  }

  /** What a data frame does, told by the state it is picked in. */
  lemma DataStep(r: Receiver, e: Event)
    requires WellFormed(e) && e.Data?
    ensures var s := if r.pending then r else r.(last := NOTHING_YET);
            var q := Pick(s, Frame(e.b, e.off, e.n, e.tag));
            var next := Step(r, e).0;
            && next.rx == q.rx
            && (Completes(e) ==> next.signalled && next.last == Last(true, q.total, 0, q.rid))
            && (if e.answered && e.off + e.n < |e.b.data| then next == q else !next.pending)
            && Step(r, e).1 == if Completes(e)
                               then [Delivery(q.rid, q.total, q.offset, Window(q.rx, 0, q.offset), q.wild)] else []
  {
    hide Frame, Overlay, Window, WordAt, LongAt;
    FrameFields(e.b, e.off, e.n, e.tag);
  }

  /** Every event keeps sender and receiver related. */
  lemma StepKeepsRelated(p: Position, r: Receiver, e: Event)
    requires Allowed(p, e) && Related(p, r)
    ensures Related(Advance(p, e), Step(r, e).0)
  {
    if e.Data? {
      hide Step, Related, Advance;
      DataKeepsRelated(p, r, e);
    } else {
      hide ReceiveFrame;
    }
  }

  lemma DataKeepsRelated(p: Position, r: Receiver, e: Event)
    requires e.Data? && Allowed(p, e) && Related(p, r)
    ensures Related(Advance(p, e), Step(r, e).0)
  {
    hide Step, Pick, Frame, Window, WordAt, LongAt;
    var s := if r.pending then r else r.(last := NOTHING_YET);
    DataStep(r, e);
    if e.off == 0 || p.InStep? {
      PickInStep(p, s, e);
    } else {
      PickAstray(p, s, e);
    }
  }

  /**
   The frame that completes a block hands over one delivery, and it is the whole block exactly when
   the receiver dropped nothing since the block's first frame and the size fits its 16-bit field.
   */
  lemma CompletionIsWholeIff(p: Position, r: Receiver, e: Event)
    requires Allowed(p, e) && Related(p, r) && Completes(e)
    ensures |Step(r, e).1| == 1
    ensures Whole(Step(r, e).1[0], e.b) <==> (e.off == 0 || p.InStep?) && |e.b.data| < 0x1_0000
  {
    hide Step, Pick, Frame;
    var s := if r.pending then r else r.(last := NOTHING_YET);
    DataStep(r, e);
    if e.off == 0 || p.InStep? {
      PickInStep(p, s, e);
      assert e.b.data[..|e.b.data|] == e.b.data;
    } else {
      PickAstray(p, s, e);
    }
  }

  /** A reader woken by a completion in step gets the block back. */
  lemma CompletionReadsBack(p: Position, r: Receiver, e: Event)
    requires Allowed(p, e) && Related(p, r) && Completes(e) && (e.off == 0 || p.InStep?) && |e.b.data| < 0x1_0000
    ensures ReadOut(Step(r, e).0) == Received(0, e.b.rid, |e.b.data|, e.b.data)
  {
    hide Step, Pick, Frame;
    var s := if r.pending then r else r.(last := NOTHING_YET);
    DataStep(r, e);
    PickInStep(p, s, e);
    assert e.b.data[..|e.b.data|] == e.b.data;
  }

  /** Only completions hand anything over. */
  lemma NothingElseDelivers(r: Receiver, e: Event)
    requires WellFormed(e) && !Completes(e)
    ensures Step(r, e).1 == []
  {
    if e.Data? {
      DataStep(r, e);
      hide Step;
    }
  }

  /** What came in, as events of the state machine; other readings change nothing. */
  function ArrivalOf(b: Block, off: nat, n: nat, tag: Tag, answered: bool, x: Incoming): seq<Event>
    requires off + n <= |b.data|
  {
    match x
    case Telegram(_, _) => [Data(b, off, n, tag, answered)]
    case Negotiation(_, _) => [Negotiate]
    case ConnectionRequest(_) => [Connect]
    case _ => []
  }

  function EventsOf(b: Block, off: nat, n: nat, tag: Tag, answered: bool, x: Incoming, late: bool): seq<Event>
    requires off + n <= |b.data|
  {
    ArrivalOf(b, off, n, tag, answered, x) + (if late then [Timeout] else []) + (if x.Failed? then [Lost] else [])
  }

  /** A turn of the worker that reads a frame of `b`, or anything but a telegram, is a run of those events. */
  lemma TurnIsRun(r: Receiver, b: Block, off: nat, n: nat, tag: Tag, answered: bool, x: Incoming, late: bool)
    requires off + n <= |b.data|
    requires x.Telegram? ==> x == Telegram(Frame(b, off, n, tag), answered)
    ensures Turn(r, x, late) == Run(r, EventsOf(b, off, n, tag, answered, x, late))
  {
    hide ReceiveFrame, Frame, Run;
    var es := ArrivalOf(b, off, n, tag, answered, x);
    RunNone(r);
    if es != [] { RunOne(r, es[0]); }
    assert HandleIncoming(r, x) == Run(r, es);
    var middle := if late then es + [Timeout] else es;
    if late { RunOneMore(r, es, Timeout); }
    if x.Failed? { RunOneMore(r, middle, Lost); }
    assert EventsOf(b, off, n, tag, answered, x, late) == if x.Failed? then middle + [Lost] else middle;
  }

  lemma RunNone(r: Receiver)
    ensures Run(r, []) == (r, [])
  {
  }

  /** An event that delivers nothing only changes the state. */
  lemma RunOneMore(r: Receiver, es: seq<Event>, e: Event)
    requires !e.Data?
    ensures Run(r, es + [e]) == (Step(Run(r, es).0, e).0, Run(r, es).1)
  {
    hide Clear;
    assert (es + [e])[..|es|] == es;
    RunLast(r, es + [e]);
    assert Run(r, es).1 + [] == Run(r, es).1;
  }

  lemma RunOne(r: Receiver, e: Event)
    ensures Run(r, [e]) == Step(r, e)
  {
    hide Step;
    assert [e][..0] == [];
    RunLast(r, [e]);
    assert [] + Step(r, e).1 == Step(r, e).1;
  }

  // ---------------------------------------------------------------- whole runs

  /** The blocks completed by a run, in order. */
  function Completed(es: seq<Event>): seq<Block> {
    if es == [] then []
    else
      var e := es[|es| - 1];
      Completed(es[..|es| - 1]) + (if Completes(e) then [e.b] else [])
  }

  /** A frame that continues a block finds the receiver still at it. */
  predicate Together(p: Position, e: Event) {
    e.Data? && e.off > 0 ==> p.InStep?
  }

  /** No frame of a block goes on after the receiver dropped the block. */
  ghost predicate NeverAstray(es: seq<Event>) {
    forall i :: 0 <= i < |es| ==> Together(After(Idle, es[..i]), es[i])
  }

  lemma RunLast(r: Receiver, es: seq<Event>)
    requires es != []
    ensures var before := Run(r, es[..|es| - 1]);
            var step := Step(before.0, es[|es| - 1]);
            Run(r, es) == (step.0, before.1 + step.1)
  {
    hide Step;
  }

  lemma {:induction false} ConformingPrefix(es: seq<Event>)
    requires es != [] && Conforming(es)
    ensures Conforming(es[..|es| - 1]) && Allowed(After(Idle, es[..|es| - 1]), es[|es| - 1])
  {
    var init := es[..|es| - 1];
    forall i | 0 <= i < |init| ensures Allowed(After(Idle, init[..i]), init[i]) {
      assert init[..i] == es[..i];
    }
    assert Allowed(After(Idle, es[..|es| - 1]), es[|es| - 1]);
  }

  /** Sender and receiver stay related over every conforming run. */
  lemma {:induction false} RunKeepsRelated(r: Receiver, es: seq<Event>)
    requires Conforming(es) && Related(Idle, r)
    ensures Related(After(Idle, es), Run(r, es).0)
  {
    hide Step, Allowed, Related;
    if es != [] {
      ConformingPrefix(es);
      RunKeepsRelated(r, es[..|es| - 1]);
      RunLast(r, es);
      StepKeepsRelated(After(Idle, es[..|es| - 1]), Run(r, es[..|es| - 1]).0, es[|es| - 1]);
    }
  }

  /**
   Over any conforming run in which no block goes on after an abort, what is handed over is exactly
   the sequence of completed blocks: each whole, once, in order, and nothing from an aborted one.
   */
  lemma {:induction false} RunDeliversWholeBlocks(r: Receiver, es: seq<Event>)
    requires Conforming(es) && NeverAstray(es) && Related(Idle, r)
    requires forall i :: 0 <= i < |es| ==> es[i].Data? ==> |es[i].b.data| < 0x1_0000
    ensures var ds := Run(r, es).1;
            var bs := Completed(es);
            |ds| == |bs| && forall i :: 0 <= i < |ds| ==> Whole(ds[i], bs[i])
  {
    hide Step, Allowed, Related, Whole, Together, NeverAstray, Conforming, Completes, WellFormed;
    if es != [] {
      var init := es[..|es| - 1];
      var e := es[|es| - 1];
      ConformingPrefix(es);
      NeverAstrayPrefix(es);
      RunDeliversWholeBlocks(r, init);
      RunKeepsRelated(r, init);
      RunLast(r, es);
      LastDelivers(After(Idle, init), Run(r, init).0, e);
    }
  }

  lemma NeverAstrayPrefix(es: seq<Event>)
    requires es != [] && NeverAstray(es)
    ensures NeverAstray(es[..|es| - 1]) && Together(After(Idle, es[..|es| - 1]), es[|es| - 1])
  {
    var init := es[..|es| - 1];
    forall i | 0 <= i < |init| ensures Together(After(Idle, init[..i]), init[i]) {
      assert init[..i] == es[..i];
    }
    assert Together(After(Idle, es[..|init|]), es[|init|]);
  }

  lemma LastDelivers(p: Position, r: Receiver, e: Event)
    requires Allowed(p, e) && Related(p, r) && Together(p, e)
    requires e.Data? ==> |e.b.data| < 0x1_0000
    ensures var ds := Step(r, e).1;
            if Completes(e) then |ds| == 1 && Whole(ds[0], e.b) else ds == []
  {
    hide Step, Related, Whole;
    if Completes(e) {
      CompletionIsWholeIff(p, r, e);
    } else {
      NothingElseDelivers(r, e);
    }
  }

  /**
   At any point of any conforming run: the delivery of a completed block is the whole block exactly
   when its last frame did not follow an abort and its size fits the 16-bit field.
   */
  lemma DeliveryIsWholeIff(r: Receiver, es: seq<Event>, i: nat)
    requires Conforming(es) && Related(Idle, r) && i < |es| && Completes(es[i])
    ensures var ds := Step(Run(r, es[..i]).0, es[i]).1;
            |ds| == 1 && (Whole(ds[0], es[i].b) <==> Together(After(Idle, es[..i]), es[i]) && |es[i].b.data| < 0x1_0000)
  {
    hide Step, Related, Allowed, Whole;
    var before := es[..i];
    forall j | 0 <= j < i ensures Allowed(After(Idle, before[..j]), before[j]) {
      assert before[..j] == es[..j];
    }
    RunKeepsRelated(r, before);
    assert Allowed(After(Idle, es[..i]), es[i]);
    CompletionIsWholeIff(After(Idle, before), Run(r, before).0, es[i]);
  }

  /** Any block cut in two frames comes through broken when the receiver times out between them. */
  lemma TimeoutBetweenFramesBreaksBlock(r: Receiver, b: Block, n: nat, m: nat, t: Tag, u: Tag)
    requires Sendable(b) && Related(Idle, r)
    requires 0 < n < 0x1_0000 - 10 && 0 < m < 0x1_0000 - 10 && n + m == |b.data|
    ensures var es := [Data(b, 0, n, t, true), Timeout, Data(b, n, m, u, true)];
            Conforming(es) && !NeverAstray(es)
            && var ds := Step(Run(r, es[..2]).0, es[2]).1;
               |ds| == 1 && !Whole(ds[0], b)
  {
    hide Step, Related, Whole, Run;
    var first, last := Data(b, 0, n, t, true), Data(b, n, m, u, true);
    var es := [first, Timeout, last];
    assert es[..0] == [] && es[..1] == [first] && es[..2] == [first, Timeout];
    assert [first][..0] == [] && [first, Timeout][..1] == [first];
    assert After(Idle, es[..1]) == InStep(b, n);
    assert After(Idle, es[..2]) == Aborted(b, n);
    forall i | 0 <= i < |es| ensures Allowed(After(Idle, es[..i]), es[i]) {
      if i == 0 { } else if i == 1 { } else { assert i == 2; }
    }
    DeliveryIsWholeIff(r, es, 2);
    assert !Together(After(Idle, es[..2]), es[2]);
  }

  // ---------------------------------------------------------------- what a reader gets

  /** The last data frame of a run, if there is one. */
  function LastFrame(es: seq<Event>): Option<Event> {
    if es == [] then None else if es[|es| - 1].Data? then Some(es[|es| - 1]) else LastFrame(es[..|es| - 1])
  }

  predicate LastFrameCompletes(es: seq<Event>) {
    LastFrame(es).Some? && Completes(LastFrame(es).value)
  }

  /** What the receiver keeps for the reader after `frame`: a record of the block it completed, of its failure, or of nothing yet. */
  ghost predicate Keeps(frame: Option<Event>, r: Receiver) {
    && (r.pending ==> r.last == NOTHING_YET)
    && match frame
       case None => r.last == NOTHING_YET
       case Some(e) =>
         e.Data? &&
         if !e.answered then r.last == Last(true, 0, ERR_PAR_RECVING_BLOCK, 0)
         else if Completes(e) then
           && |e.b.data| < 0x1_0000 && |r.rx| == RX_SIZE
           && r.last == Last(true, |e.b.data|, 0, e.b.rid) && r.rx[..|e.b.data|] == e.b.data
         else r.last == NOTHING_YET
  }

  function Advised(frame: Option<Event>, e: Event): Option<Event> {
    if e.Data? then Some(e) else frame
  }

  lemma StepKeepsRecord(p: Position, frame: Option<Event>, r: Receiver, e: Event)
    requires Allowed(p, e) && Related(p, r) && Together(p, e) && Keeps(frame, r)
    requires e.Data? ==> |e.b.data| < 0x1_0000
    ensures Keeps(Advised(frame, e), Step(r, e).0)
  {
    hide Pick, Frame;
    if e.Data? {
      hide Step;
      var s := if r.pending then r else r.(last := NOTHING_YET);
      DataStep(r, e);
      DataRecord(r, e);
      PickInStep(p, s, e);
      assert e.b.data[..|e.b.data|] == e.b.data;
    } else {
      hide ReceiveFrame;
    }
  }

  /** The record a data frame leaves when it does not complete its block. */
  lemma DataRecord(r: Receiver, e: Event)
    requires WellFormed(e) && e.Data?
    ensures var last := if r.pending then r.last else NOTHING_YET;
            !Completes(e) ==> Step(r, e).0.last == if e.answered then last else last.(done := true, result := ERR_PAR_RECVING_BLOCK)
  {
    hide Frame, Overlay, Window, WordAt, LongAt;
    FrameFields(e.b, e.off, e.n, e.tag);
  }

  lemma {:induction false} RunKeepsRecord(r: Receiver, es: seq<Event>)
    requires Conforming(es) && NeverAstray(es) && Related(Idle, r) && r.last == NOTHING_YET
    requires forall i :: 0 <= i < |es| ==> es[i].Data? ==> |es[i].b.data| < 0x1_0000
    ensures Keeps(LastFrame(es), Run(r, es).0)
  {
    hide Step, Allowed, Together, NeverAstray, Conforming, Completes, WellFormed;
    if es == [] {
      RunNone(r);
    } else {
      hide Keeps, Related;
      var init := es[..|es| - 1];
      ConformingPrefix(es);
      NeverAstrayPrefix(es);
      RunKeepsRecord(r, init);
      RunKeepsRelated(r, init);
      RunLast(r, es);
      StepKeepsRecord(After(Idle, init), LastFrame(init), Run(r, init).0, es[|es| - 1]);
    }
  }

  function BlockRead(b: Block): Received
    requires |b.data| < 0x1_0000
  {
    Received(0, b.rid, |b.data|, b.data)
  }

  lemma RecordReadsOut(frame: Option<Event>, r: Receiver)
    requires Keeps(frame, r) && r.signalled && r.last.result == 0
    ensures ReadOut(r) == if frame.Some? && Completes(frame.value) then BlockRead(frame.value.b) else Received(0, 0, 0, [])
  {
  }

  /** The last completed block is that of the last completing frame. */
  lemma {:induction false} LastCompleted(es: seq<Event>)
    requires Conforming(es)
    ensures LastFrameCompletes(es) ==> Completed(es) != [] && Completed(es)[|Completed(es)| - 1] == LastFrame(es).value.b
    ensures forall i :: 0 <= i < |Completed(es)| ==> Completed(es)[i].data != []
  {
    hide Allowed;
    if es != [] {
      ConformingPrefix(es);
      LastCompleted(es[..|es| - 1]);
      assert WellFormed(es[|es| - 1]) by { AllowedIsWellFormed(After(Idle, es[..|es| - 1]), es[|es| - 1]); }
    }
  }

  lemma AllowedIsWellFormed(p: Position, e: Event)
    requires Allowed(p, e)
    ensures WellFormed(e)
  {
  }

  /**
   At any point of any conforming run in which no block goes on after an abort, readings included: a reader
   that is told of success gets the last completed block exactly when the last data frame completed it. If
   another block has begun since, or a sequence was dropped by a timeout, it gets success and nothing.
   */
  lemma ReadsLastBlockIff(r: Receiver, es: seq<Event>)
    requires Conforming(es) && NeverAstray(es) && Related(Idle, r) && r.last == NOTHING_YET
    requires forall i :: 0 <= i < |es| ==> es[i].Data? ==> |es[i].b.data| < 0x1_0000
    requires var s := Run(r, es).0; s.signalled && s.last.result == 0
    ensures var s := Run(r, es).0;
            var bs := Completed(es);
            && ((bs != [] && ReadOut(s).data == bs[|bs| - 1].data && ReadOut(s).rid == bs[|bs| - 1].rid)
                <==> LastFrameCompletes(es))
            && (LastFrameCompletes(es) ==> ReadOut(s) == Received(0, bs[|bs| - 1].rid, |bs[|bs| - 1].data|, bs[|bs| - 1].data))
            && (!LastFrameCompletes(es) ==> ReadOut(s) == Received(0, 0, 0, []))
  {
    hide Run, Related, Keeps, ReadOut, Conforming, NeverAstray, LastFrame, Completed, Completes;
    RunKeepsRecord(r, es);
    RecordReadsOut(LastFrame(es), Run(r, es).0);
    LastCompleted(es);
  }

  /** A success told without a completed block: a timeout after the first of several frames. */
  lemma TimeoutReadsAsEmptyBlock(r: Receiver, b: Block, n: nat, t: Tag)
    requires Related(Idle, r) && r.last == NOTHING_YET && Sendable(b) && |b.data| < 0x1_0000
    requires 0 < n < 0x1_0000 - 10 && n < |b.data|
    ensures var es := [Data(b, 0, n, t, true), Timeout];
            Conforming(es) && Completed(es) == [] && ReadOut(Run(r, es).0) == Received(0, 0, 0, [])
  {
    var first := Data(b, 0, n, t, true);
    var es := [first, Timeout];
    TwoEvents(first, Timeout);
    hide Step, ReceiveFrame, Frame;
    RunKeepsRecord(r, es);
    RunOne(r, first);
    RunLast(r, es);
    RunKeepsRelated(r, [first]);
    TimeoutSignals(Run(r, [first]).0);
    RecordReadsOut(LastFrame(es), Run(r, es).0);
    assert es[..1] == [first] && Completed([first]) == [];
  }

  lemma TimeoutSignals(r: Receiver)
    requires r.pending
    ensures Step(r, Timeout).0.signalled && Step(r, Timeout).0.last == r.last
  {
  }

  lemma TwoEvents(d: Event, e: Event)
    ensures [d, e][..0] == [] && [d, e][..1] == [d] && [d][..0] == []
    ensures Conforming([d, e]) <==> Allowed(Idle, d) && Allowed(After(Idle, [d]), e)
    ensures NeverAstray([d, e]) <==> Together(Idle, d) && Together(After(Idle, [d]), e)
    ensures Conforming([d]) <==> Allowed(Idle, d)
    ensures After(Idle, [d]) == Advance(Idle, d)
    ensures LastFrame([d, e]) == if e.Data? then Some(e) else LastFrame([d])
    ensures LastFrame([d]) == if d.Data? then Some(d) else None
  {
    hide Allowed, Advance, Together;
    assert [d, e][..0] == [] && [d, e][..1] == [d] && [d][..0] == [];
    assert After(Idle, []) == Idle;
    if Conforming([d, e]) {
      assert Allowed(After(Idle, [d, e][..0]), [d, e][0]) && Allowed(After(Idle, [d, e][..1]), [d, e][1]);
    }
    if NeverAstray([d, e]) {
      assert Together(After(Idle, [d, e][..0]), [d, e][0]) && Together(After(Idle, [d, e][..1]), [d, e][1]);
    }
    if Conforming([d]) {
      assert Allowed(After(Idle, [d][..0]), [d][0]);
    }
  }

  /** A completed block that no reader gets: the first frame of the next block comes before the reader does. */
  lemma NextBlockHidesLast(r: Receiver, a: Block, b: Block, n: nat, t: Tag, u: Tag)
    requires Related(Idle, r) && r.last == NOTHING_YET && Sendable(a) && Sendable(b)
    requires |a.data| < 0x1_0000 - 10 && |b.data| < 0x1_0000 && 0 < n < 0x1_0000 - 10 && n < |b.data|
    ensures var es := [Data(a, 0, |a.data|, t, true), Data(b, 0, n, u, true)];
            Conforming(es) && Completed(es) == [a] && ReadOut(Run(r, es).0) == Received(0, 0, 0, [])
  {
    var whole, next := Data(a, 0, |a.data|, t, true), Data(b, 0, n, u, true);
    var es := [whole, next];
    TwoEvents(whole, next);
    hide Step, ReceiveFrame, Frame;
    RunKeepsRecord(r, es);
    RunOne(r, whole);
    RunLast(r, es);
    DataStep(r, whole);
    StaysSignalled(Run(r, [whole]).0, next);
    RecordReadsOut(LastFrame(es), Run(r, es).0);
    assert es[..1] == [whole] && Completed([whole]) == [a];
  }

  /** Data frames never take the signal away. */
  lemma StaysSignalled(r: Receiver, e: Event)
    requires r.signalled && !e.Read?
    ensures Step(r, e).0.signalled
  {
    hide Frame, Overlay, Window;
  }

  function SumOfSizes(ds: seq<Delivery>): nat {
    if ds == [] then 0 else SumOfSizes(ds[..|ds| - 1]) + ds[|ds| - 1].size
  }

  lemma StepCounts(r: Receiver, e: Event)
    requires WellFormed(e)
    ensures |Step(r, e).1| <= 1
    ensures Step(r, e).0.bytesRecv
            == if Step(r, e).1 == [] then r.bytesRecv else (r.bytesRecv + Step(r, e).1[0].size) % 0x1_0000_0000
  {
    hide Frame, Overlay, Window;
  }

  /** The byte counter is the total of the delivered sizes, modulo 2^32, over any run at all. */
  lemma {:induction false} BytesRecvIsTotal(r: Receiver, es: seq<Event>)
    requires forall i :: 0 <= i < |es| ==> WellFormed(es[i])
    ensures Run(r, es).0.bytesRecv == (r.bytesRecv + SumOfSizes(Run(r, es).1)) % 0x1_0000_0000
  {
    hide Step, SumOfSizes, WellFormed;
    if es == [] {
      assert SumOfSizes([]) == 0 by { NoSizes(); }
    } else {
      var before := Run(r, es[..|es| - 1]);
      BytesRecvIsTotal(r, es[..|es| - 1]);
      RunLast(r, es);
      StepCounts(before.0, es[|es| - 1]);
      var ds := Step(before.0, es[|es| - 1]).1;
      SumOfOneMore(before.1, ds);
      if ds != [] { AddModulo(r.bytesRecv + SumOfSizes(before.1), ds[0].size); }
    }
  }

  lemma NoSizes()
    ensures SumOfSizes([]) == 0
  {
  }

  lemma AddModulo(a: nat, b: nat)
    ensures (a % 0x1_0000_0000 + b) % 0x1_0000_0000 == (a + b) % 0x1_0000_0000
  {
  }

  lemma SumOfOneMore(before: seq<Delivery>, ds: seq<Delivery>)
    requires |ds| <= 1
    ensures SumOfSizes(before + ds) == SumOfSizes(before) + (if ds == [] then 0 else ds[0].size)
  {
    if ds == [] {
      assert before + ds == before;
    } else {
      assert (before + ds)[..|before|] == before;
    }
  }

  // ---------------------------------------------------------------- cutting a block into frames

  /** Bytes in the frame at `off`; the first frame has two bytes less room. */
  function SliceLength(size: nat, pduLength: nat, off: nat): nat
    requires pduLength > 36 && off <= size
  {
    Min(size - off, if off == 0 then pduLength - 36 else pduLength - 34)
  }

  /** Frames still to send from `off` on. */
  function CountFrom(size: nat, pduLength: nat, off: nat): nat
    requires pduLength > 36 && off <= size
    decreases size - off
  {
    if off == size then 0 else 1 + CountFrom(size, pduLength, off + SliceLength(size, pduLength, off))
  }

  /** Offset of frame `i`. */
  function OffsetOf(size: nat, pduLength: nat, i: nat): (off: nat)
    requires pduLength > 36
    ensures off <= size
  {
    if i == 0 then 0
    else
      var before := OffsetOf(size, pduLength, i - 1);
      before + SliceLength(size, pduLength, before)
  }

  function FrameOf(b: Block, pduLength: nat, i: nat, tag: Tag): bytes
    requires pduLength > 36
  {
    var off := OffsetOf(|b.data|, pduLength, i);
    Frame(b, off, SliceLength(|b.data|, pduLength, off), tag)
  }

  /** No frame exceeds the negotiated PDU. */
  lemma FrameFitsPdu(b: Block, pduLength: nat, i: nat, tag: Tag)
    requires 36 < pduLength
    ensures |FrameOf(b, pduLength, i, tag)| <= pduLength
  {
  }

  lemma CeilStep(rest: nat, d: nat)
    requires rest > 0 && d > 0
    ensures (rest + d - 1) / d == 1 + (if rest <= d then 0 else (rest - d + d - 1) / d)
  {
    if rest <= d {
      QuotientIs(rest + d - 1, d, 1, rest - 1);
    } else {
      var q, m := (rest - 1) / d, (rest - 1) % d;
      assert rest + d - 1 == q * d + m + d == (q + 1) * d + m;
      QuotientIs(rest + d - 1, d, q + 1, m);
    }
  }

  lemma {:induction false} CountRest(size: nat, pduLength: nat, off: nat)
    requires pduLength > 36 && 0 < off <= size
    ensures CountFrom(size, pduLength, off) == (size - off + pduLength - 35) / (pduLength - 34)
    decreases size - off
  {
    var d := pduLength - 34;
    if off == size {
      QuotientIs(d - 1, d, 0, d - 1);
    } else {
      var n := SliceLength(size, pduLength, off);
      CountRest(size, pduLength, off + n);
      CeilStep(size - off, d);
      if size - off <= d { QuotientIs(d - 1, d, 0, d - 1); }
    }
  }

  /** A block takes one frame, or one and as many more as the rest needs. */
  lemma FrameCount(size: nat, pduLength: nat)
    requires pduLength > 36 && size > 0
    ensures CountFrom(size, pduLength, 0) ==
            if size <= pduLength - 36 then 1
            else 1 + (size - (pduLength - 36) + pduLength - 35) / (pduLength - 34)
  {
    if size > pduLength - 36 {
      CountRest(size, pduLength, pduLength - 36);
    }
  }

  /** The frames of a block from frame `i` on, as events with their answers sent. */
  function BlockEvents(b: Block, pduLength: nat, tags: seq<Tag>, i: nat): seq<Event>
    requires pduLength > 36
    decreases |tags| - i
  {
    if i >= |tags| then []
    else
      var off := OffsetOf(|b.data|, pduLength, i);
      [Data(b, off, SliceLength(|b.data|, pduLength, off), tags[i], true)] + BlockEvents(b, pduLength, tags, i + 1)
  }

  lemma {:induction false} RunFirst(r: Receiver, es: seq<Event>)
    requires es != []
    ensures var step := Step(r, es[0]);
            var rest := Run(step.0, es[1..]);
            Run(r, es) == (rest.0, step.1 + rest.1)
  {
    hide Step;
    if |es| == 1 {
      assert es[..0] == [] && es[1..] == [];
      RunLast(r, es);
      var ds := Step(r, es[0]).1;
      assert [] + ds == ds == ds + [];
    } else {
      var init := es[..|es| - 1];
      RunFirst(r, init);
      RunLast(r, es);
      assert init[0] == es[0] && init[1..] == es[1..][..|es| - 2];
      var step := Step(r, es[0]);
      RunLast(step.0, es[1..]);
      var middle := Run(step.0, init[1..]);
      var last := Step(middle.0, es[|es| - 1]);
      assert (step.1 + middle.1) + last.1 == step.1 + (middle.1 + last.1);
    }
  }

  lemma {:induction false} RoundTripFrom(r: Receiver, b: Block, pduLength: nat, tags: seq<Tag>, i: nat)
    requires Sendable(b) && |b.data| < 0x1_0000 && 36 < pduLength < 0x1_0000
    requires var off := OffsetOf(|b.data|, pduLength, i);
             && i < |tags| && |tags| - i == CountFrom(|b.data|, pduLength, off) && off < |b.data|
             && (i == 0 <==> off == 0)
             && Related(if i == 0 then Idle else InStep(b, off), r)
    ensures var end := Run(r, BlockEvents(b, pduLength, tags, i));
            && |end.1| == 1 && Whole(end.1[0], b)
            && ReadOut(end.0) == Received(0, b.rid, |b.data|, b.data)
    decreases |tags| - i
  {
    hide Step, Related, Frame, ReadOut;
    var off := OffsetOf(|b.data|, pduLength, i);
    var n := SliceLength(|b.data|, pduLength, off);
    var p := if i == 0 then Idle else InStep(b, off);
    var e := Data(b, off, n, tags[i], true);
    var es := BlockEvents(b, pduLength, tags, i);
    var rest := BlockEvents(b, pduLength, tags, i + 1);
    assert es[0] == e && es[1..] == rest;
    RunFirst(r, es);
    StepKeepsRelated(p, r, e);
    LastDelivers(p, r, e);
    if Completes(e) { CompletionReadsBack(p, r, e); }
    assert OffsetOf(|b.data|, pduLength, i + 1) == off + n;
    if off + n < |b.data| {
      RoundTripFrom(Step(r, e).0, b, pduLength, tags, i + 1);
    } else {
      assert CountFrom(|b.data|, pduLength, off + n) == 0;
      assert rest == [];
      assert Run(Step(r, e).0, []).1 == [];
      var ds := Step(r, e).1;
      assert ds + [] == ds;
    }
  }

  /** Feeding the frames of a block to an idle receiver hands over that block, and the reader gets it back. */
  lemma RoundTrip(r: Receiver, b: Block, pduLength: nat, tags: seq<Tag>)
    requires Sendable(b) && |b.data| < 0x1_0000 && 36 < pduLength < 0x1_0000
    requires |tags| == CountFrom(|b.data|, pduLength, 0) && Related(Idle, r)
    ensures var end := Run(r, BlockEvents(b, pduLength, tags, 0));
            && |end.1| == 1 && Whole(end.1[0], b)
            && ReadOut(end.0) == Received(0, b.rid, |b.data|, b.data)
  {
    RoundTripFrom(r, b, pduLength, tags, 0);
  }

  /** A block that fills the send buffer does not come through: its size field wraps to zero. */
  lemma FullBufferIsLost(r: Receiver, b: Block, n: nat, tag: Tag)
    requires |b.data| == MAX_BLOCK && 0 < n < 0x1_0000 - 10
    requires Related(InStep(b, MAX_BLOCK - n), r)
    ensures var ds := Step(r, Data(b, MAX_BLOCK - n, n, tag, true)).1;
            |ds| == 1 && ds[0].size == 0 && ds[0].count == MAX_BLOCK
  {
    var e := Data(b, MAX_BLOCK - n, n, tag, true);
    DataStep(r, e);
    PickInStep(InStep(b, MAX_BLOCK - n), r, e);
    hide Step, Pick, Frame;
  }
}
