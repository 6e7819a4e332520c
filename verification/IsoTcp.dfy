/**
 ISO-on-TCP (RFC 1006, section 6; DT TPDU of X.224, section 13.7): sending one packet, and gathering
 the fragments of a telegram from a byte stream into the payload buffer.
 */
module IsoTcp {
  import opened S7Types

  const MAX_ISO_FRAGMENTS := 64
  const ISO_FRAME_SIZE := ISO_PAYLOAD_SIZE + DATA_HEADER_SIZE
  const PDU_TYPE_CR: byte := 0xE0
  const PDU_TYPE_DR: byte := 0x80
  const PDU_TYPE_DT: byte := 0xF0
  const PDU_EOT: byte := 0x80
  const ISO_TCP_VERSION: byte := 3

  /** Payload buffer and the memory behind it, so that every position the write pointer can take exists. */
  const ROOM := (MAX_ISO_FRAGMENTS + 1) * ISO_PAYLOAD_SIZE

  // ---------------------------------------------------------------- one fragment

  datatype Fragment = Fragment(header: bytes, data: bytes, eot: bool, rest: bytes) | Refusal(error: int)

  function PDUSize(header: bytes): word {
    WordAt(header, 2)
  }

  /** Packet length, header length and type; the type expected is the one found, so only lengths can fail. */
  predicate CheckPDU(header: bytes) {
    7 <= PDUSize(header) <= ISO_PAYLOAD_SIZE && ByteAt(header, 4) >= 2
  }

  predicate KnownType(t: byte) {
    t == PDU_TYPE_CR || t == PDU_TYPE_DR || t == PDU_TYPE_DT
  }

  predicate EndOfTransmission(header: bytes) {
    ByteAt(header, 5) != PDU_TYPE_DT || ByteAt(header, 6) >= 0x80
  }

  /** The next fragment of the stream, if it is well formed, complete and carries at most `max` bytes. */
  function Take(s: bytes, max: nat): Fragment {
    if |s| < DATA_HEADER_SIZE then Refusal(ERR_ISO_RECV_PACKET)
    else
      var header := s[..DATA_HEADER_SIZE];
      if !KnownType(header[5]) || !CheckPDU(header) then Refusal(ERR_ISO_INVALID_PDU)
      else if PDUSize(header) - DATA_HEADER_SIZE > max then Refusal(ERR_ISO_PDU_OVERFLOW)
      else if |s| < PDUSize(header) then Refusal(ERR_ISO_RECV_PACKET)
      else Fragment(header, s[DATA_HEADER_SIZE..PDUSize(header)], EndOfTransmission(header), s[PDUSize(header)..])
  }

  /** Which fragments are taken, byte by byte of the header, in the order of the checks. */
  lemma TakeOnBytes(s: bytes, max: nat)
    ensures var f := Take(s, max);
            if |s| < 7 then f == Refusal(0x000A_0000)
            else
              var size := s[2] as int * 256 + s[3] as int;
              if s[5] !in {0xE0, 0x80, 0xF0} || size < 7 || size > 4096 || s[4] < 2 then f == Refusal(0x0003_0000)
              else if size - 7 > max then f == Refusal(0x0008_0000)
              else if |s| < size then f == Refusal(0x000A_0000)
              else f == Fragment(s[..7], s[7..size], s[5] != 0xF0 || s[6] >= 0x80, s[size..])
  {
  }

  // ---------------------------------------------------------------- a telegram

  /** A telegram's fragments in order, the header of the last one, and the stream behind it. */
  datatype Gathered = Complete(fragments: seq<bytes>, header: bytes, rest: bytes) | Refused(error: int)

  function Prepend(fragments: seq<bytes>, g: Gathered): Gathered {
    if g.Complete? then g.(fragments := fragments + g.fragments) else g
  }

  /** Fragments from number `parts` on, `offset` bytes being there already. */
  function Gather(s: bytes, parts: nat, offset: nat): Gathered
    decreases MAX_ISO_FRAGMENTS + 1 - parts
  {
    if offset >= ISO_PAYLOAD_SIZE then Refused(ERR_ISO_TOO_MANY_FRAGMENTS)
    else
      match Take(s, ISO_PAYLOAD_SIZE - offset)
      case Refusal(e) => Refused(e)
      case Fragment(header, d, eot, rest) =>
        if eot then Complete([d], header, rest)
        else if parts + 1 > MAX_ISO_FRAGMENTS then Refused(ERR_ISO_TOO_MANY_FRAGMENTS)
        else Prepend([d], Gather(rest, parts + 1, offset + |d|))
  }

  lemma GatherNext(s: bytes, parts: nat, offset: nat)
    ensures Gather(s, parts, offset) ==
            if offset >= ISO_PAYLOAD_SIZE then Refused(ERR_ISO_TOO_MANY_FRAGMENTS)
            else match Take(s, ISO_PAYLOAD_SIZE - offset)
            case Refusal(e) => Refused(e)
            case Fragment(header, d, eot, rest) =>
              if eot then Complete([d], header, rest)
              else if parts + 1 > MAX_ISO_FRAGMENTS then Refused(ERR_ISO_TOO_MANY_FRAGMENTS)
              else Prepend([d], Gather(rest, parts + 1, offset + |d|))
  {
  }

  function Total(fs: seq<bytes>): nat {
    if fs == [] then 0 else Total(fs[..|fs| - 1]) + |fs[|fs| - 1]|
  }

  function Concat(fs: seq<bytes>): (r: bytes)
    ensures |r| == Total(fs)
  {
    if fs == [] then [] else Concat(fs[..|fs| - 1]) + fs[|fs| - 1]
  }

  /** Where the write pointer stands for the fragment after `fs`: every round adds the whole offset again. */
  function Position(fs: seq<bytes>): nat {
    if fs == [] then 0 else Position(fs[..|fs| - 1]) + Total(fs)
  }

  /** The memory once all fragments are written where the pointer stood. */
  function Place(memory: bytes, fs: seq<bytes>): (r: bytes)
    ensures |r| == |memory|
  {
    if fs == [] then memory
    else
      var before := fs[..|fs| - 1];
      Overlay(Place(memory, before), Position(before), fs[|fs| - 1])
  }

  // ---------------------------------------------------------------- bounds

  lemma {:induction false} TotalFrom(f: bytes, fs: seq<bytes>)
    ensures Total([f] + fs) == |f| + Total(fs)
  {
    if fs == [] {
      assert [f] + fs == [f] && [f][..0] == [];
    } else {
      assert ([f] + fs)[..|fs|] == [f] + fs[..|fs| - 1];
      TotalFrom(f, fs[..|fs| - 1]);
    }
  }

  /** An accepted telegram has 1 to 64 fragments and at most 4096 bytes; only the last fragment can complete them. */
  lemma {:induction false} GatheredBounds(s: bytes, parts: nat, offset: nat)
    requires 1 <= parts <= MAX_ISO_FRAGMENTS && Gather(s, parts, offset).Complete?
    ensures var g := Gather(s, parts, offset);
            && 1 <= |g.fragments| <= 65 - parts
            && offset + Total(g.fragments) <= 4096
            && |g.header| == 7
            && forall i :: 0 <= i < |g.fragments| ==> |g.fragments[i]| <= 4089
    decreases MAX_ISO_FRAGMENTS + 1 - parts
  {
    hide Take;
    var f := Take(s, ISO_PAYLOAD_SIZE - offset);
    TakeBoundsIf(s, ISO_PAYLOAD_SIZE - offset);
    var g := Gather(s, parts, offset);
    if f.eot {
      assert [f.data][..0] == [];
      assert Total(g.fragments) == |f.data|;
    } else {
      GatheredBounds(f.rest, parts + 1, offset + |f.data|);
      TotalFrom(f.data, Gather(f.rest, parts + 1, offset + |f.data|).fragments);
    }
  }

  // ---------------------------------------------------------------- which streams are accepted

  function DataHeader(size: nat, last: bool): (h: bytes)
    ensures |h| == DATA_HEADER_SIZE
  {
    [ISO_TCP_VERSION, 0] + Be16((size + DATA_HEADER_SIZE) % 0x1_0000) + [2, PDU_TYPE_DT, if last then PDU_EOT else 0]
  }

  function Packet(d: bytes, last: bool): bytes {
    DataHeader(|d|, last) + d
  }

  /** A packet's seven header bytes: version 3, the whole size high byte first, a data TPDU, the end mark on the last one. */
  lemma PacketBytes(d: bytes, last: bool)
    requires |d| + 7 < 0x1_0000
    ensures var p := Packet(d, last);
            && |p| == |d| + 7 && p[7..] == d
            && p[0] == 3 && p[1] == 0 && p[2] as int == (|d| + 7) / 256 && p[3] as int == (|d| + 7) % 256
            && p[4] == 2 && p[5] == 0xF0 && p[6] == if last then 0x80 else 0
  {
  }

  /** A telegram cut into fragments, as a conforming sender puts it on the line. */
  function Stream(fs: seq<bytes>): bytes
    requires fs != []
  {
    if |fs| == 1 then Packet(fs[0], true) else Packet(fs[0], false) + Stream(fs[1..])
  }

  lemma TakePacket(d: bytes, last: bool, more: bytes, max: nat)
    requires |d| + DATA_HEADER_SIZE < 0x1_0000
    ensures Take(Packet(d, last) + more, max)
            == if |d| > ISO_CARRIED then Refusal(ERR_ISO_INVALID_PDU)
               else if |d| > max then Refusal(ERR_ISO_PDU_OVERFLOW)
               else Fragment(DataHeader(|d|, last), d, last, more)
  {
    var s := Packet(d, last) + more;
    var h := DataHeader(|d|, last);
    assert s[..DATA_HEADER_SIZE] == h;
    HeaderFields(|d|, last);
    hide DataHeader, Packet;
    if |d| <= ISO_CARRIED && |d| <= max {
      assert s[DATA_HEADER_SIZE..DATA_HEADER_SIZE + |d|] == d;
      assert s[DATA_HEADER_SIZE + |d|..] == more;
    }
  }

  lemma HeaderFields(size: nat, last: bool)
    requires size + DATA_HEADER_SIZE < 0x1_0000
    ensures var h := DataHeader(size, last);
            PDUSize(h) == size + DATA_HEADER_SIZE && h[4] == 2 && h[5] == PDU_TYPE_DT && (EndOfTransmission(h) <==> last)
  {
    hide Be16;
    var h := DataHeader(size, last);
    var w := Be16(size + DATA_HEADER_SIZE);
    assert h[2] == w[0] && h[3] == w[1];
    Be16Value(size + DATA_HEADER_SIZE);
  }

  /** What the receiver accepts of well-formed fragments, `parts` being the number of the first and `offset` bytes being there. */
  predicate Acceptable(fs: seq<bytes>, parts: nat, offset: nat)
    requires fs != []
  {
    && parts + |fs| - 1 <= 64
    && offset + Total(fs[..|fs| - 1]) < 4096
    && offset + Total(fs) <= 4096
    && forall i :: 0 <= i < |fs| ==> |fs[i]| <= 4089
  }

  /**
   A telegram of packets whose lengths fit their headers is accepted exactly when it has at most 64 fragments of at
   most 4089 bytes each, at most 4096 bytes, and room is left before its last fragment; then its fragments are
   gathered in order and the stream goes on behind it.
   */
  lemma {:induction false} AcceptedIff(fs: seq<bytes>, rest: bytes, parts: nat, offset: nat)
    requires fs != [] && 1 <= parts <= MAX_ISO_FRAGMENTS
    requires forall i :: 0 <= i < |fs| ==> |fs[i]| + DATA_HEADER_SIZE < 0x1_0000
    ensures var g := Gather(Stream(fs) + rest, parts, offset);
            && (g.Complete? <==> Acceptable(fs, parts, offset))
            && (g.Complete? ==> g == Complete(fs, DataHeader(|fs[|fs| - 1]|, true), rest))
    decreases |fs|
  {
    hide Take, Packet, DataHeader, Gather, Acceptable, Total;
    var max := if offset < ISO_PAYLOAD_SIZE then ISO_PAYLOAD_SIZE - offset else 0;
    GatherNext(Stream(fs) + rest, parts, offset);
    AcceptableNext(fs, parts, offset);
    if |fs| == 1 {
      assert fs == [fs[0]];
      TakePacket(fs[0], true, rest, max);
    } else {
      var tail := fs[1..];
      assert Stream(fs) + rest == Packet(fs[0], false) + (Stream(tail) + rest);
      TakePacket(fs[0], false, Stream(tail) + rest, max);
      if parts < MAX_ISO_FRAGMENTS {
        AcceptedIff(tail, rest, parts + 1, offset + |fs[0]|);
        assert [fs[0]] + tail == fs;
      }
    }
  }

  lemma AcceptableNext(fs: seq<bytes>, parts: nat, offset: nat)
    requires fs != [] && 1 <= parts <= MAX_ISO_FRAGMENTS
    ensures Acceptable(fs, parts, offset) <==>
            && offset < ISO_PAYLOAD_SIZE && offset + |fs[0]| <= ISO_PAYLOAD_SIZE && |fs[0]| <= ISO_CARRIED
            && (|fs| > 1 ==> parts < MAX_ISO_FRAGMENTS && Acceptable(fs[1..], parts + 1, offset + |fs[0]|))
  {
    if |fs| == 1 {
      assert fs[..0] == [];
    } else {
      var tail := fs[1..];
      assert fs == [fs[0]] + tail;
      TotalFrom(fs[0], tail);
      assert fs[..|fs| - 1] == [fs[0]] + tail[..|tail| - 1];
      TotalFrom(fs[0], tail[..|tail| - 1]);
      assert forall i :: 0 <= i < |tail| ==> tail[i] == fs[i + 1];
      assert forall i :: 1 <= i < |fs| ==> fs[i] == tail[i - 1];
    }
  }

  /** One packet comes through, unchanged, exactly when its whole size, header included, is at most the payload buffer. */
  lemma SinglePacketIff(d: bytes, memory: bytes, rest: bytes)
    requires |d| <= ISO_PAYLOAD_SIZE <= |memory|
    ensures !Apart([d]) && Concat([d]) == d == Place(memory, [d])[..Total([d])]
    ensures Gather(Packet(d, true) + rest, 1, 0)
            == if |d| <= ISO_CARRIED then Complete([d], DataHeader(|d|, true), rest) else Refused(ERR_ISO_INVALID_PDU)
  {
    hide Take, Packet, DataHeader;
    TakePacket(d, true, rest, ISO_PAYLOAD_SIZE);
    assert [d][..0] == [];
    ContiguousIff([d]);
    ContiguousIsConcat(memory, [d]);
  }

  // ---------------------------------------------------------------- where the fragments land

  /** Every non-empty fragment is written right behind the bytes before it. */
  ghost predicate Contiguous(fs: seq<bytes>) {
    forall k :: 0 <= k < |fs| && fs[k] != [] ==> Position(fs[..k]) == Total(fs[..k])
  }

  /** Two non-empty fragments with another one between them. */
  ghost predicate Apart(fs: seq<bytes>) {
    exists i, k :: 0 <= i && i + 2 <= k < |fs| && fs[i] != [] && fs[k] != []
  }

  lemma {:induction false} TotalZero(fs: seq<bytes>)
    ensures Total(fs) == 0 <==> forall i :: 0 <= i < |fs| ==> fs[i] == []
  {
    if fs != [] {
      var before := fs[..|fs| - 1];
      TotalZero(before);
      assert forall i :: 0 <= i < |before| ==> before[i] == fs[i];
      if forall i :: 0 <= i < |fs| ==> fs[i] == [] {
        assert fs[|fs| - 1] == [];
      }
    }
  }

  lemma {:induction false} PositionZero(fs: seq<bytes>)
    ensures Position(fs) == 0 <==> Total(fs) == 0
    ensures Position(fs) >= Total(fs)
  {
    if fs != [] { PositionZero(fs[..|fs| - 1]); }
  }

  /** The pointer is right for the fragment after `fs` exactly when all of `fs` but its last fragment is empty. */
  lemma PositionRightIff(fs: seq<bytes>)
    ensures Position(fs) == Total(fs) <==> forall i :: 0 <= i < |fs| - 1 ==> fs[i] == []
  {
    if fs != [] {
      var before := fs[..|fs| - 1];
      PositionZero(before);
      TotalZero(before);
      assert forall i :: 0 <= i < |before| ==> before[i] == fs[i];
    }
  }

  /** Fragments land one behind the other exactly when no two non-empty ones have another between them. */
  lemma ContiguousIff(fs: seq<bytes>)
    ensures Contiguous(fs) <==> !Apart(fs)
  {
    forall k | 0 <= k < |fs| && fs[k] != []
      ensures Position(fs[..k]) == Total(fs[..k]) <==> forall i :: 0 <= i < k - 1 ==> fs[i] == []
    {
      PositionRightIff(fs[..k]);
      assert forall i :: 0 <= i < k ==> fs[..k][i] == fs[i];
    }
    if !Apart(fs) {
      forall k | 0 <= k < |fs| && fs[k] != [] ensures Position(fs[..k]) == Total(fs[..k]) {
        assert forall i :: 0 <= i < k - 1 ==> fs[i] == [];
      }
    }
  }

  /** When they do, the payload is their concatenation. */
  lemma {:induction false} ContiguousIsConcat(memory: bytes, fs: seq<bytes>)
    requires Contiguous(fs) && Total(fs) <= |memory|
    ensures Place(memory, fs)[..Total(fs)] == Concat(fs)
  {
    if fs != [] {
      var before, last := fs[..|fs| - 1], fs[|fs| - 1];
      forall k | 0 <= k < |before| && before[k] != [] ensures Position(before[..k]) == Total(before[..k]) {
        assert before[..k] == fs[..k];
      }
      ContiguousIsConcat(memory, before);
      var was := Place(memory, before);
      var now := Place(memory, fs);
      assert last != [] ==> Position(before) == Total(before);
      forall x | 0 <= x < Total(fs) ensures now[x] == Concat(fs)[x] {
        if x < Total(before) { assert was[..Total(before)][x] == was[x]; }
      }
    }
  }

  // ---------------------------------------------------------------- and when they do not

  ghost predicate SameLengths(fs: seq<bytes>, gs: seq<bytes>) {
    |fs| == |gs| && forall i :: 0 <= i < |fs| ==> |fs[i]| == |gs[i]|
  }

  lemma {:induction false} SameLengthsSamePlaces(fs: seq<bytes>, gs: seq<bytes>)
    requires SameLengths(fs, gs)
    ensures Total(fs) == Total(gs) && Position(fs) == Position(gs)
  {
    if fs != [] { SameLengthsSamePlaces(fs[..|fs| - 1], gs[..|gs| - 1]); }
  }

  /** All zeros but the first byte of fragment `k`. */
  function Mark(fs: seq<bytes>, k: nat): (r: seq<bytes>)
    ensures SameLengths(r, fs)
  {
    seq(|fs|, i requires 0 <= i < |fs| => seq(|fs[i]|, j => if i == k && j == 0 then 1 else 0))
  }

  /** With nothing but that byte set, memory is set at most where the pointer stood for fragment `k`. */
  lemma {:induction false} MarkLands(memory: bytes, fs: seq<bytes>, k: nat, at: nat, x: nat)
    requires forall y :: 0 <= y < |memory| ==> memory[y] == 0
    requires forall i, j :: 0 <= i < |fs| && 0 <= j < |fs[i]| && fs[i][j] != 0 ==> i == k && j == 0
    requires k < |fs| ==> at == Position(fs[..k])
    requires x < |memory| && Place(memory, fs)[x] != 0
    ensures x == at
  {
    if fs != [] {
      var before, last := fs[..|fs| - 1], fs[|fs| - 1];
      var p := Position(before);
      if p <= x < p + |last| {
        assert fs[|fs| - 1][x - p] != 0;
      } else {
        assert k < |before| ==> before[..k] == fs[..k];
        MarkLands(memory, before, k, at, x);
      }
    }
  }

  lemma {:induction false} ConcatAt(fs: seq<bytes>, k: nat, j: nat)
    requires k < |fs| && j < |fs[k]|
    ensures Total(fs[..k]) + j < Total(fs) && Concat(fs)[Total(fs[..k]) + j] == fs[k][j]
  {
    var before := fs[..|fs| - 1];
    if k < |before| {
      assert before[..k] == fs[..k];
      ConcatAt(before, k, j);
    } else {
      assert fs[..k] == before;
    }
  }

  /** A fragment written astray shows in the payload for some contents of the same lengths. */
  lemma AstrayShows(fs: seq<bytes>, k: nat, memory: bytes)
    requires k < |fs| && fs[k] != [] && Position(fs[..k]) != Total(fs[..k])
    requires Total(fs) <= |memory| && forall y :: 0 <= y < |memory| ==> memory[y] == 0
    ensures Place(memory, Mark(fs, k))[..Total(fs)] != Concat(Mark(fs, k))
  {
    hide Place, Concat, Position, Total;
    var gs := Mark(fs, k);
    SameLengthsSamePlaces(fs, gs);
    SameLengthsSamePlaces(fs[..k], gs[..k]);
    ConcatAt(gs, k, 0);
    var x := Total(gs[..k]);
    if Place(memory, gs)[x] != 0 {
      MarkLands(memory, gs, k, Position(gs[..k]), x);
    }
    assert Place(memory, gs)[..Total(fs)][x] == Place(memory, gs)[x];
  }

  ghost predicate ArrivesIntact(memory: bytes, fs: seq<bytes>)
    requires Total(fs) <= |memory|
  {
    Place(memory, fs)[..Total(fs)] == Concat(fs)
  }

  /**
   Lengths decide: fragments of these lengths arrive as their concatenation whatever they hold and
   whatever the buffer held before, exactly when no two non-empty ones have another between them.
   */
  lemma IntactIff(fs: seq<bytes>, zeros: bytes)
    requires Total(fs) <= |zeros| && forall y :: 0 <= y < |zeros| ==> zeros[y] == 0
    ensures !Apart(fs) <==>
            forall memory, gs :: SameLengths(gs, fs) && |memory| == |zeros| && Total(gs) <= |memory| ==> ArrivesIntact(memory, gs)
  {
    hide Place, Concat;
    ContiguousIff(fs);
    if !Apart(fs) {
      forall memory, gs | SameLengths(gs, fs) && |memory| == |zeros| && Total(gs) <= |memory| ensures ArrivesIntact(memory, gs) {
        ContiguousIff(gs);
        ContiguousIsConcat(memory, gs);
      }
    } else {
      var k :| 0 <= k < |fs| && fs[k] != [] && Position(fs[..k]) != Total(fs[..k]);
      AstrayShows(fs, k, zeros);
      SameLengthsSamePlaces(Mark(fs, k), fs);
      assert SameLengths(Mark(fs, k), fs) && !ArrivesIntact(zeros, Mark(fs, k));
    }
  }

  // ---------------------------------------------------------------- the socket

  lemma PositionBound(fs: seq<bytes>, n: nat)
    requires Total(fs) <= ISO_PAYLOAD_SIZE
    requires fs != [] ==> Position(fs[..|fs| - 1]) <= n * ISO_PAYLOAD_SIZE
    ensures Position(fs) <= (n + 1) * ISO_PAYLOAD_SIZE
  {
  }

  lemma PrependOne(got: seq<bytes>, d: bytes, g: Gathered)
    ensures Prepend(got, Prepend([d], g)) == Prepend(got + [d], g)
    ensures Prepend([], g) == g
  {
    if g.Complete? { assert got + ([d] + g.fragments) == (got + [d]) + g.fragments; }
  }

  lemma PlaceNext(memory: bytes, fs: seq<bytes>, d: bytes)
    ensures Place(memory, fs + [d]) == Overlay(Place(memory, fs), Position(fs), d)
    ensures Total(fs + [d]) == Total(fs) + |d| && Position(fs + [d]) == Position(fs) + Total(fs + [d])
  {
    assert (fs + [d])[..|fs|] == fs;
  }

  class TIsoTcpSocket {
    const Header: array<byte>
    const Payload: array<byte>
    var Input: bytes
    var Output: bytes

    ghost predicate Valid() {
      Header.Length == DATA_HEADER_SIZE && Payload.Length == ROOM && Header != Payload
    }

    constructor (input: bytes)
      ensures Valid() && Input == input && Output == [] && fresh(Header) && fresh(Payload)
    {
      Header := new byte[DATA_HEADER_SIZE];
      Payload := new byte[ROOM];
      Input, Output := input, [];
    }

    method CopyTo(a: array<byte>, at: nat, d: bytes)
      requires at + |d| <= a.Length
      modifies a
      ensures a[..] == Overlay(old(a[..]), at, d)
    {
      ghost var was := a[..];
      var i := 0;
      while i < |d|
        invariant 0 <= i <= |d|
        invariant forall k :: 0 <= k < a.Length ==> a[k] == if at <= k < at + i then d[k - at] else was[k]
      {
        a[at + i] := d[i];
        i := i + 1;
      }
    }

    /** Sends a buffer, or what is in the payload buffer, as one packet. */
    method isoSendBuffer(Data: Option<bytes>, Size: nat) returns (Result: int)
      requires Valid() && (Data.Some? ==> |Data.value| == Size)
      modifies this`Output, Header, Payload
      ensures Result == if Size <= 4096 then 0 else 0x0004_0000
      ensures Size <= 4096 ==>
                Output == old(Output) + Packet(if Data.Some? then Data.value else old(Payload[..Size]), true)
      ensures Size <= 4096 ==>
                && |Output| == |old(Output)| + 7 + Size && Output[..|old(Output)|] == old(Output)
                && var sent := Output[|old(Output)|..];
                   && sent[0] == 3 && sent[1] == 0 && sent[2] as int == (Size + 7) / 256 && sent[3] as int == (Size + 7) % 256
                   && sent[4] == 2 && sent[5] == 0xF0 && sent[6] == 0x80
                   && sent[7..] == if Data.Some? then Data.value else old(Payload[..Size])
      ensures Size > 4096 ==> Output == old(Output) && Payload[..] == old(Payload[..])
    {
      hide DataHeader, Overlay;
      Result := ERR_ISO_INVALID_DATA_SIZE;
      if Size + DATA_HEADER_SIZE <= ISO_FRAME_SIZE {
        CopyTo(Header, 0, DataHeader(Size, true));
        OverlayAll(old(Header[..]), DataHeader(Size, true));
        ghost var d := if Data.Some? then Data.value else old(Payload[..Size]);
        if Data.Some? {
          CopyTo(Payload, 0, Data.value);
          OverlayStart(old(Payload[..]), Data.value);
        }
        assert Payload[..Size] == d;
        Output := Output + (Header[..] + Payload[..Size]);
        PacketBytes(d, true);
        Result := 0;
      }
    }

    /** The next fragment: its header replaces the header, its data goes to `From`. */
    method isoRecvFragment(From: nat, Max: nat) returns (Result: int, Size: nat, EoT: bool)
      requires Valid() && From + Max <= ROOM
      modifies this`Input, Header, Payload
      ensures match Take(old(Input), Max)
              case Refusal(e) => Result == e && Payload[..] == old(Payload[..])
              case Fragment(header, d, eot, rest) =>
                && Result == 0 && Size == |d| && EoT == eot && Input == rest && Header[..] == header
                && Payload[..] == Overlay(old(Payload[..]), From, d)
      ensures Result != 0 ==> exists e :: Take(old(Input), Max) == Refusal(e)
    {
      hide WordAt, ByteAt, Overlay;
      Size, EoT, Result := 0, false, 0;
      if |Input| < DATA_HEADER_SIZE {
        assert Take(old(Input), Max) == Refusal(ERR_ISO_RECV_PACKET);
        return ERR_ISO_RECV_PACKET, 0, false;
      }
      var header := Input[..DATA_HEADER_SIZE];
      Input := Input[DATA_HEADER_SIZE..];
      CopyTo(Header, 0, header);
      OverlayAll(old(Header[..]), header);
      if !KnownType(header[5]) || !CheckPDU(header) {
        assert Take(old(Input), Max) == Refusal(ERR_ISO_INVALID_PDU);
        return ERR_ISO_INVALID_PDU, 0, false;
      }
      EoT := EndOfTransmission(header);
      var DataLength := PDUSize(header) - DATA_HEADER_SIZE;
      if DataLength > Max {
        assert Take(old(Input), Max) == Refusal(ERR_ISO_PDU_OVERFLOW);
        return ERR_ISO_PDU_OVERFLOW, 0, EoT;
      }
      if |Input| < DataLength {
        assert Take(old(Input), Max) == Refusal(ERR_ISO_RECV_PACKET);
        return ERR_ISO_RECV_PACKET, 0, EoT;
      }
      var d := Input[..DataLength];
      assert d == old(Input)[DATA_HEADER_SIZE..DATA_HEADER_SIZE + DataLength];
      Input := Input[DataLength..];
      assert Input == old(Input)[DATA_HEADER_SIZE + DataLength..];
      CopyTo(Payload, From, d);
      Size := DataLength;
    }

    /**
     Gathers a telegram. On success its fragments are in memory where the pointer put them, under the last
     header with the length rebuilt; on an error what is pending on the line is dropped.
     */
    method isoRecvPDU() returns (Result: int)
      requires Valid()
      modifies this`Input, Header, Payload
      ensures match Gather(old(Input), 1, 0)
              case Refused(e) => Result == e && e != 0 && Input == []
              case Complete(fs, header, rest) =>
                && Result == 0 && Input == rest
                && Payload[..] == Place(old(Payload[..]), fs)
                && |header| == DATA_HEADER_SIZE && Total(fs) <= ISO_PAYLOAD_SIZE
                && Header[..] == header[..2] + Be16(Total(fs) + DATA_HEADER_SIZE) + header[4..]
    {
      hide Gather, Take, Place, Total, Position, Overlay, Be16;
      ghost var memory, stream := Payload[..], Input;
      var NumParts, Offset, Received, Complete := 1, 0, 0, false;
      var pData := 0;
      Result := 0;
      ghost var got: seq<bytes> := [];
      GatherStart(memory, Gather(stream, 1, 0));
      while !Complete && Result == 0
        invariant Result != 0 ==> Gather(stream, 1, 0) == Refused(Result)
        invariant Result == 0 && !Complete ==>
                    && |got| == NumParts - 1 && NumParts <= MAX_ISO_FRAGMENTS && Offset == Total(got) <= ISO_PAYLOAD_SIZE
                    && pData + Offset == Position(got) <= |got| * ISO_PAYLOAD_SIZE
                    && Payload[..] == Place(memory, got)
                    && Gather(stream, 1, 0) == Prepend(got, Gather(Input, NumParts, Offset))
        invariant Result == 0 && Complete ==>
                    && Gather(stream, 1, 0) == Gathered.Complete(got, Header[..], Input)
                    && Payload[..] == Place(memory, got) && Offset + Received == Total(got) <= ISO_PAYLOAD_SIZE
        decreases MAX_ISO_FRAGMENTS + 1 - NumParts, !Complete && Result == 0
      {
        ghost var here, parts, off := Input, NumParts, Offset;
        pData := pData + Offset;
        GatherNext(Input, NumParts, Offset);
        if Offset < ISO_PAYLOAD_SIZE {
          TakeBoundsIf(Input, ISO_PAYLOAD_SIZE - Offset);
          Result, Received, Complete := isoRecvFragment(pData, ISO_PAYLOAD_SIZE - Offset);
          if Result == 0 {
            ghost var f := Take(here, ISO_PAYLOAD_SIZE - off);
            PlaceNext(memory, got, f.data);
            PrependOne(got, f.data, Gather(f.rest, parts + 1, off + |f.data|));
            PositionBound(got + [f.data], |got|);
            got := got + [f.data];
          }
          if Result == 0 && !Complete {
            NumParts := NumParts + 1;
            Offset := Offset + Received;
            if NumParts > MAX_ISO_FRAGMENTS { Result := ERR_ISO_TOO_MANY_FRAGMENTS; }
          }
        } else {
          Result := ERR_ISO_TOO_MANY_FRAGMENTS;
        }
      }
      if Result == 0 {
        var Size := Offset + Received + DATA_HEADER_SIZE;
        ghost var header := Header[..];
        Header[2] := Be16(Size)[0];
        Header[3] := Be16(Size)[1];
        assert Header[..] == header[..2] + Be16(Size) + header[4..];
      } else {
        Input := [];
      }
    }

    /** Receives a telegram's payload: the head of the payload memory, as long as all its fragments together. */
    method isoRecvBuffer() returns (Result: int, Data: bytes)
      requires Valid()
      modifies this`Input, Header, Payload
      ensures match Gather(old(Input), 1, 0)
              case Refused(e) => Result == e && e != 0 && Data == [] && Input == []
              case Complete(fs, header, rest) =>
                && Result == 0 && Input == rest && Total(fs) <= ISO_PAYLOAD_SIZE
                && Data == Place(old(Payload[..]), fs)[..Total(fs)]
                && (!Apart(fs) ==> Data == Concat(fs))
    {
      hide Gather, Place, Total, Be16, Apart, Contiguous, Concat;
      ghost var memory, g := Payload[..], Gather(Input, 1, 0);
      Data := [];
      Result := isoRecvPDU();
      if Result == 0 {
        SizeRebuilt(g.header, Total(g.fragments), Header[..]);
        var Size := PDUSize(Header[..]) - DATA_HEADER_SIZE;
        Data := Payload[..Size];
        ContiguousIff(g.fragments);
        if Contiguous(g.fragments) { ContiguousIsConcat(memory, g.fragments); }
      }
    }
  }

  lemma SizeRebuilt(header: bytes, total: nat, h: bytes)
    requires |header| == DATA_HEADER_SIZE && total <= ISO_PAYLOAD_SIZE
    requires h == header[..2] + Be16(total + DATA_HEADER_SIZE) + header[4..]
    ensures PDUSize(h) == total + DATA_HEADER_SIZE
  {
    hide Be16;
    var w := Be16(total + DATA_HEADER_SIZE);
    assert h[2] == w[0] && h[3] == w[1];
    Be16Value(total + DATA_HEADER_SIZE);
  }

  lemma GatherStart(memory: bytes, g: Gathered)
    ensures Place(memory, []) == memory && Total([]) == 0 && Position([]) == 0 && Prepend([], g) == g
  {
  }

  lemma TakeBoundsIf(s: bytes, max: nat)
    ensures var f := Take(s, max);
            if f.Fragment? then |f.header| == DATA_HEADER_SIZE && |f.data| <= max && |f.data| <= ISO_CARRIED else f.error != 0
  {
  }

  lemma OverlayAll(s: bytes, d: bytes)
    requires |d| == |s|
    ensures Overlay(s, 0, d) == d
  {
  }

  lemma OverlayStart(s: bytes, d: bytes)
    requires |d| <= |s|
    ensures Overlay(s, 0, d)[..|d|] == d
  {
  }
}
