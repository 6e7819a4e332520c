/**
 One item of a read or write telegram: how the client encodes it, how the server decodes it, and
 what the server does with it to the memory its areas stand for.
 */
module S7Items {
  import opened S7Types
  import opened S7Server

  datatype Item = Item(TransportSize: byte, Length: word, DBNumber: word, Area: byte, Address: nat)

  const ITEM_SIZE := 12

  predicate IsTimerOrCounter(wordLen: int) {
    wordLen == WL_TIMER || wordLen == WL_COUNTER
  }

  predicate CountsInUnits(wordLen: int) {
    wordLen == WL_BIT || IsTimerOrCounter(wordLen)
  }

  /** The address the client sends: elements for bits, timers and counters, bits for the rest. */
  function SentAddress(wordLen: int, start: int): int {
    if CountsInUnits(wordLen) then start else start * 8
  }

  function EncodeItem(area: int, wordLen: int, amount: int, dbNumber: int, start: int): (r: bytes)
    ensures |r| == ITEM_SIZE
  {
    var address := SentAddress(wordLen, start);
    [0x12, 0x0A, 0x10, wordLen % 0x100]
    + Be16(amount % 0x1_0000)
    + Be16(if area == S7_AREA_DB then dbNumber % 0x1_0000 else 0)
    + [area % 0x100, (address / 0x1_0000) % 0x100, (address / 0x100) % 0x100, address % 0x100]
  }

  function DecodeItem(p: bytes): Item
    requires |p| == ITEM_SIZE
  {
    Item(p[3], WordAt(p, 4), WordAt(p, 6), p[8], p[9] as int * 0x1_0000 + p[10] as int * 0x100 + p[11] as int)
  }

  /** The address survives the trip modulo 2^24, every other field modulo its own width. */
  lemma ItemRoundTrip(area: int, wordLen: int, amount: int, dbNumber: int, start: int)
    ensures DecodeItem(EncodeItem(area, wordLen, amount, dbNumber, start))
            == Item(wordLen % 0x100, amount % 0x1_0000,
                    if area == S7_AREA_DB then dbNumber % 0x1_0000 else 0,
                    area % 0x100, SentAddress(wordLen, start) % 0x100_0000)
  {
    var address := SentAddress(wordLen, start);
    assert address / 0x1_0000 == (address / 0x100) / 0x100;
    assert address % 0x100_0000
        == (address / 0x1_0000) % 0x100 * 0x1_0000 + (address / 0x100) % 0x100 * 0x100 + address % 0x100;
  }

  /** The twelve bytes of an item: constants, word length, amount, block number for blocks alone, area, 24-bit address. */
  lemma ItemBytes(area: int, wordLen: int, amount: int, dbNumber: int, start: int)
    ensures var p := EncodeItem(area, wordLen, amount, dbNumber, start);
            var db := if area == 0x84 then dbNumber % 0x1_0000 else 0;
            var address := if wordLen in {0x01, 0x1C, 0x1D} then start else start * 8;
            && |p| == 12 && p[0] == 0x12 && p[1] == 0x0A && p[2] == 0x10
            && p[3] as int == wordLen % 256
            && p[4] as int == amount % 0x1_0000 / 256 && p[5] as int == amount % 0x1_0000 % 256
            && p[6] as int == db / 256 && p[7] as int == db % 256 && p[8] as int == area % 256
            && p[9] as int == address / 0x1_0000 % 256 && p[10] as int == address / 256 % 256 && p[11] as int == address % 256
  {
  }

  // ---------------------------------------------------------------- lengths on the wire

  function TransportOf(wordLen: int): byte {
    if wordLen == WL_BIT then TS_BIT
    else if wordLen == WL_INT || wordLen == WL_DINT then TS_INT
    else if wordLen == WL_REAL then TS_REAL
    else if wordLen == WL_CHAR || IsTimerOrCounter(wordLen) then TS_OCTET
    else TS_BYTE
  }

  predicate LengthInBytes(ts: byte) {
    ts == TS_OCTET || ts == TS_REAL || ts == TS_BIT
  }

  /** Length field of a data item: bytes for some transport sizes, bits for the others. */
  function WireLength(ts: byte, size: nat): word {
    if LengthInBytes(ts) then size % 0x1_0000 else (size * 8) % 0x1_0000
  }

  function DataSize(ts: byte, length: word): (size: nat)
    ensures size < 0x1_0000
  {
    if LengthInBytes(ts) then length else length / 8
  }

  lemma LengthRoundTrip(ts: byte, size: nat)
    requires size < 0x2000
    ensures DataSize(ts, WireLength(ts, size)) == size
  {
  }

  // ---------------------------------------------------------------- bits of a byte

  const BIT_MASK: seq<bv8> := [0x01, 0x02, 0x04, 0x08, 0x10, 0x20, 0x40, 0x80]

  predicate TestMask(x: bv8, i: nat)
    requires i < 8
  {
    x & BIT_MASK[i] != 0
  }

  function SetMask(x: bv8, i: nat, v: bool): bv8
    requires i < 8
  {
    if v then x | BIT_MASK[i] else x & !BIT_MASK[i]
  }

  predicate BitOf(b: byte, i: nat)
    requires i < 8
  {
    TestMask(b as bv8, i)
  }

  /** `b` with bit `i` set to `v`. */
  function SetBit(b: byte, i: nat, v: bool): byte
    requires i < 8
  {
    SetMask(b as bv8, i, v) as byte
  }

  lemma MaskAfterSet(x: bv8, i: nat, v: bool, j: nat)
    requires i < 8 && j < 8
    ensures TestMask(SetMask(x, i, v), j) <==> if i == j then v else TestMask(x, j)
  {
    if i == j {} else {}
  }

  lemma BackToBits(x: bv8, b: byte)
    requires b == x as byte
    ensures b as bv8 == x
  {
  }

  /** Setting bit `i` changes that bit and no other. */
  lemma BitAfterSet(b: byte, i: nat, v: bool, j: nat)
    requires i < 8 && j < 8
    ensures BitOf(SetBit(b, i, v), j) <==> if i == j then v else BitOf(b, j)
  {
    MaskAfterSet(b as bv8, i, v, j);
    assert BitOf(SetBit(b, i, v), j) == TestMask(SetMask(b as bv8, i, v), j) by {
      BackToBits(SetMask(b as bv8, i, v), SetBit(b, i, v));
    }
  }

  // ---------------------------------------------------------------- the server's side

  predicate TimerMismatch(it: Item) {
    || ((it.Area == S7_AREA_TM) != (it.TransportSize == WL_TIMER))
    || ((it.Area == S7_AREA_CT) != (it.TransportSize == WL_COUNTER))
  }

  predicate Unaligned(it: Item) {
    !CountsInUnits(it.TransportSize) && it.Address % 8 != 0
  }

  /** First byte of the item in its area. */
  function StartByte(it: Item): nat {
    if IsTimerOrCounter(it.TransportSize) then it.Address / 2 else it.Address / 8
  }

  function SizeOf(it: Item): nat {
    DataSizeByte(it.TransportSize) * it.Length
  }

  predicate Available(mem: Memory, it: Item) {
    KeyOf(it.Area, it.DBNumber).Some? && KeyOf(it.Area, it.DBNumber).value in mem
  }

  /** Return code, transport size, length field and data of one item of a read answer. */
  datatype ReadReply = ReadReply(code: byte, ts: byte, dataLength: word, data: bytes, remainder: int)

  function RefuseRead(code: byte, remainder: int): ReadReply {
    ReadReply(code, 0, 4, [], remainder)
  }

  /** Size of the area an item names, when it is registered. */
  function AreaSize(mem: Memory, it: Item): Option<nat> {
    if Available(mem, it) then Some(|mem[KeyOf(it.Area, it.DBNumber).value]|) else None
  }

  /**
   Return code of a read item and the PDU space left after it. `remainder` is what the earlier
   items left; the comparison with it is unsigned 32-bit.
   */
  function CheckRead(areaSize: Option<nat>, it: Item, remainder: int): (byte, int) {
    if areaSize.None? then (CODE_ITEM_NOT_AVAILABLE, remainder)
    else if DataSizeByte(it.TransportSize) == 0 || TimerMismatch(it) then (CODE_ADDRESS_OUT_OF_RANGE, remainder)
    else if (remainder - SizeOf(it)) % 0x1_0000_0000 == 0 then (CODE_DATA_OVER_PDU, remainder)
    else if (it.TransportSize == WL_BIT && SizeOf(it) > 1) || Unaligned(it)
            || StartByte(it) + SizeOf(it) > areaSize.value then
      (CODE_ADDRESS_OUT_OF_RANGE, remainder - SizeOf(it))
    else (CODE_OK, remainder - SizeOf(it))
  }

  function ReadItem(mem: Memory, it: Item, remainder: int): (r: ReadReply)
    ensures r.code != CODE_OK ==> r.data == []
  {
    var check := CheckRead(AreaSize(mem, it), it, remainder);
    if check.0 != CODE_OK then RefuseRead(check.0, check.1)
    else
      ReadReply(CODE_OK, TransportOf(it.TransportSize), WireLength(TransportOf(it.TransportSize), SizeOf(it)),
                ReadData(mem[KeyOf(it.Area, it.DBNumber).value], it), check.1)
  }

  /** The bytes an accepted read returns; a bit becomes one byte, 0 or 1. */
  function ReadData(area: bytes, it: Item): (r: bytes)
    requires StartByte(it) + SizeOf(it) <= |area|
    ensures |r| == SizeOf(it)
  {
    var raw := area[StartByte(it)..StartByte(it) + SizeOf(it)];
    if it.TransportSize == WL_BIT && |raw| == 1 then [if BitOf(raw[0], it.Address % 8) then 1 else 0] else raw
  }

  /** Return code of a write item whose data item is `d`. */
  function CheckWrite(areaSize: Option<nat>, it: Item, d: bytes): byte {
    if areaSize.None? then CODE_ITEM_NOT_AVAILABLE
    else if DataSizeByte(it.TransportSize) == 0 then CODE_INVALID_TRANSPORT_SIZE
    else if TimerMismatch(it) || (it.TransportSize == WL_BIT && SizeOf(it) > 1) || Unaligned(it)
            || StartByte(it) + SizeOf(it) > areaSize.value then CODE_ADDRESS_OUT_OF_RANGE
    else if DataSize(ByteAt(d, 1), WordAt(d, 2)) != SizeOf(it) then CODE_WRITE_DATA_SIZE_MISMATCH
    else CODE_OK
  }

  /** `d` is the data item from its return-code byte on. */
  function WriteItem(mem: Memory, it: Item, d: bytes): (r: (byte, Memory))
    ensures r.0 != CODE_OK ==> r.1 == mem
    ensures r.1.Keys == mem.Keys
    ensures forall k :: k in mem ==> |r.1[k]| == |mem[k]|
  {
    var code := CheckWrite(AreaSize(mem, it), it, d);
    if code != CODE_OK then (code, mem)
    else
      var key := KeyOf(it.Area, it.DBNumber).value;
      (CODE_OK, mem[key := WrittenArea(mem[key], it, Payload(it, d))])
  }

  /** The bytes of a data item an accepted write looks at: a bit write looks at one byte whatever its length. */
  function Payload(it: Item, d: bytes): (r: bytes)
    ensures |r| == if SizeOf(it) == 0 then 1 else SizeOf(it)
  {
    Window(d, 4, if SizeOf(it) == 0 then 1 else SizeOf(it))
  }

  /** The area after an accepted write of `data`; a bit write touches one bit. */
  function WrittenArea(area: bytes, it: Item, data: bytes): (r: bytes)
    requires |data| > 0 && StartByte(it) + SizeOf(it) <= |area|
    requires SizeOf(it) <= |data|
    ensures |r| == |area|
  {
    Splice(area, StartByte(it), StoredBytes(area, it, data))
  }

  /** What a write puts at its start byte: the data itself or, for a bit, the byte with that bit changed. */
  function StoredBytes(area: bytes, it: Item, data: bytes): (r: bytes)
    requires |data| > 0 && StartByte(it) + SizeOf(it) <= |area|
    requires SizeOf(it) <= |data|
    ensures StartByte(it) + |r| <= |area|
  {
    if it.TransportSize != WL_BIT then data[..SizeOf(it)]
    else if StartByte(it) < |area| then [SetBit(area[StartByte(it)], it.Address % 8, data[0] % 2 == 1)]
    else []
  }

  // ---------------------------------------------------------------- items on bytes, without the model's own functions

  lemma LowDigit(x: bv8)
    ensures x & 1 != 0 <==> x as int % 2 == 1
    ensures (x >> 1) as int == x as int / 2
  {
  }

  lemma MaskShifts(x: bv8, i: nat)
    requires 0 < i < 8
    ensures TestMask(x, i) <==> TestMask(x >> 1, i - 1)
  {
    if i == 1 {} else if i == 2 {} else if i == 3 {} else if i == 4 {} else if i == 5 {} else if i == 6 {} else {}
  }

  lemma HalfFirst(n: nat, i: nat)
    requires 0 < i < 8
    ensures n / 2 / [1, 2, 4, 8, 16, 32, 64, 128][i - 1] == n / [1, 2, 4, 8, 16, 32, 64, 128][i]
  {
  }

  lemma {:induction false} MaskIsDigit(x: bv8, i: nat)
    requires i < 8
    ensures TestMask(x, i) <==> x as int / [1, 2, 4, 8, 16, 32, 64, 128][i] % 2 == 1
  {
    LowDigit(x);
    if i > 0 {
      MaskShifts(x, i);
      MaskIsDigit(x >> 1, i - 1);
      hide TestMask;
      HalfFirst(x as int, i);
    }
  }

  /** The bit a mask picks is that digit of the byte. */
  lemma BitIsDigit(b: byte, i: nat)
    requires i < 8
    ensures BitOf(b, i) <==> b as int / [1, 2, 4, 8, 16, 32, 64, 128][i] % 2 == 1
  {
    var x := b as bv8;
    ThereAndBack(b);
    assert BitOf(b, i) == TestMask(x, i);
    hide BitOf, TestMask;
    MaskIsDigit(x, i);
  }

  lemma ThereAndBack(b: byte)
    ensures b as bv8 as int == b
  {
    var x := BitsOf(b);
    BackAndThere(x);
  }

  lemma {:induction false} BitsOf(n: nat) returns (x: bv8)
    requires n < 0x100
    ensures x as int == n
  {
    if n == 0 {
      x := 0;
    } else {
      var y := BitsOf(n - 1);
      OneMore(y);
      x := y + 1;
    }
  }

  lemma OneMore(y: bv8)
    requires y < 255
    ensures (y + 1) as int == y as int + 1
  {
  }

  lemma BackAndThere(x: bv8)
    ensures x as int as bv8 == x
  {
  }

  /** The area and the element size an item names. */
  lemma ItemFields(it: Item)
    ensures var code := it.Area;
            KeyOf(code, it.DBNumber) == if code == 0x81 then Some(Sys(0)) else if code == 0x82 then Some(Sys(1))
                                        else if code == 0x83 then Some(Sys(2)) else if code == 0x1C then Some(Sys(3))
                                        else if code == 0x1D then Some(Sys(4)) else if code == 0x84 then Some(Db(it.DBNumber)) else None
    ensures var ts := it.TransportSize;
            && DataSizeByte(ts) == (if ts in {1, 2, 3} then 1 else if ts in {4, 5, 0x1C, 0x1D} then 2 else if ts in {6, 7, 8} then 4 else 0)
            && (IsTimerOrCounter(ts) <==> ts in {0x1C, 0x1D})
            && (CountsInUnits(ts) <==> ts in {1, 0x1C, 0x1D})
    ensures SizeOf(it) == it.Length * DataSizeByte(it.TransportSize) < 0x4_0000
  {
  }

  lemma ReadDataOnBytes(area: bytes, it: Item)
    requires StartByte(it) + SizeOf(it) <= |area|
    ensures var n, at := SizeOf(it), StartByte(it);
            ReadData(area, it) == if it.TransportSize == 1 && n == 1
                                  then [area[at] / [1, 2, 4, 8, 16, 32, 64, 128][it.Address % 8] % 2]
                                  else area[at..at + n]
  {
    hide BitOf, SizeOf, StartByte;
    if it.TransportSize == 1 && SizeOf(it) == 1 { BitIsDigit(area[StartByte(it)], it.Address % 8); }
  }

  /** The server's answer to one read item, whatever its fields; `left` is the PDU space the items before it left. */
  lemma ReadItemOnBytes(mem: Memory, it: Item, left: int)
    requires -0x100_0000 < left < 0x1_0000
    ensures var code, ts := it.Area, it.TransportSize;
            var id := if code == 0x81 then Some(Sys(0)) else if code == 0x82 then Some(Sys(1))
                      else if code == 0x83 then Some(Sys(2)) else if code == 0x1C then Some(Sys(3))
                      else if code == 0x1D then Some(Sys(4)) else if code == 0x84 then Some(Db(it.DBNumber)) else None;
            var w := if ts in {1, 2, 3} then 1 else if ts in {4, 5, 0x1C, 0x1D} then 2 else if ts in {6, 7, 8} then 4 else 0;
            var n := it.Length * w;
            var at := if ts in {0x1C, 0x1D} then it.Address / 2 else it.Address / 8;
            var r := ReadItem(mem, it, left);
            if id.None? || id.value !in mem then r == ReadReply(0x0A, 0, 4, [], left)
            else if w == 0 || (code == 0x1C) != (ts == 0x1C) || (code == 0x1D) != (ts == 0x1D) then r == ReadReply(0x05, 0, 4, [], left)
            else if n == left then r == ReadReply(0x85, 0, 4, [], left)
            else if (ts == 1 && n > 1) || (ts in {2, 3, 4, 5, 6, 7, 8} && it.Address % 8 != 0) || at + n > |mem[id.value]| then
              r == ReadReply(0x05, 0, 4, [], left - n)
            else
              && r.code == 0xFF && r.remainder == left - n
              && r.ts == (if ts == 1 then 3 else if ts in {2, 4, 6} then 4 else if ts in {5, 7} then 5 else if ts == 8 then 7 else 9)
              && r.dataLength == (if ts in {2, 4, 5, 6, 7} then n * 8 else n) % 0x1_0000
              && r.data == if ts == 1 && n == 1
                           then [mem[id.value][at] / [1, 2, 4, 8, 16, 32, 64, 128][it.Address % 8] % 2]
                           else mem[id.value][at..at + n]
  {
    ItemFields(it);
    hide BitOf, KeyOf, DataSizeByte, IsTimerOrCounter, CountsInUnits;
    if CheckRead(AreaSize(mem, it), it, left).0 == CODE_OK {
      ReadDataOnBytes(mem[KeyOf(it.Area, it.DBNumber).value], it);
    }
    hide ReadData;
  }

  /** What the server does with one write item and its data item `d`, whatever they hold. */
  lemma WriteItemOnBytes(mem: Memory, it: Item, d: bytes)
    requires |d| >= 4
    ensures var code, ts := it.Area, it.TransportSize;
            var id := if code == 0x81 then Some(Sys(0)) else if code == 0x82 then Some(Sys(1))
                      else if code == 0x83 then Some(Sys(2)) else if code == 0x1C then Some(Sys(3))
                      else if code == 0x1D then Some(Sys(4)) else if code == 0x84 then Some(Db(it.DBNumber)) else None;
            var w := if ts in {1, 2, 3} then 1 else if ts in {4, 5, 0x1C, 0x1D} then 2 else if ts in {6, 7, 8} then 4 else 0;
            var n := it.Length * w;
            var at := if ts in {0x1C, 0x1D} then it.Address / 2 else it.Address / 8;
            var length := d[2] as int * 0x100 + d[3] as int;
            var r := WriteItem(mem, it, d);
            if id.None? || id.value !in mem then r == (0x0A, mem)
            else if w == 0 then r == (0x06, mem)
            else if (code == 0x1C) != (ts == 0x1C) || (code == 0x1D) != (ts == 0x1D) || (ts == 1 && n > 1)
                    || (ts in {2, 3, 4, 5, 6, 7, 8} && it.Address % 8 != 0) || at + n > |mem[id.value]| then r == (0x05, mem)
            else if (if d[1] in {3, 7, 9} then length else length / 8) != n then r == (0x07, mem)
            else if ts == 1 then
              if at == |mem[id.value]| then r == (0xFF, mem)
              else
                var area := mem[id.value];
                && r.0 == 0xFF && id.value in r.1 && |r.1[id.value]| == |area| && r.1 == mem[id.value := area[at := r.1[id.value][at]]]
                && (forall j :: 0 <= j < 8 ==>
                      r.1[id.value][at] as int / [1, 2, 4, 8, 16, 32, 64, 128][j] % 2
                      == if j == it.Address % 8 then (if |d| > 4 then d[4] as int % 2 else 0)
                         else area[at] as int / [1, 2, 4, 8, 16, 32, 64, 128][j] % 2)
            else
              && r.0 == 0xFF
              && (|d| >= 4 + n ==>
                    r.1 == mem[id.value := mem[id.value][..at] + d[4..4 + n] + mem[id.value][at + n..]])
  {
    ItemFields(it);
    hide BitOf, KeyOf, DataSizeByte, IsTimerOrCounter, CountsInUnits, WrittenArea, Payload;
    if CheckWrite(AreaSize(mem, it), it, d) == CODE_OK {
      var area := mem[KeyOf(it.Area, it.DBNumber).value];
      if it.TransportSize == 1 {
        WrittenBitOnBytes(area, it, d);
        if StartByte(it) == |area| {
          assert WrittenArea(area, it, Payload(it, d)) == area;
          assert mem[KeyOf(it.Area, it.DBNumber).value := area] == mem;
        }
      } else {
        WrittenBytes(area, it, d);
      }
    }
  }

  lemma WrittenBytes(area: bytes, it: Item, d: bytes)
    requires it.TransportSize != 1 && |d| >= 4 && StartByte(it) + SizeOf(it) <= |area|
    ensures var n, at := SizeOf(it), StartByte(it);
            |d| >= 4 + n ==> WrittenArea(area, it, Payload(it, d)) == area[..at] + d[4..4 + n] + area[at + n..]
  {
    hide SizeOf, StartByte;
    if |d| >= 4 + SizeOf(it) {
      var data := Payload(it, d);
      assert data[..SizeOf(it)] == d[4..4 + SizeOf(it)];
    }
  }

  lemma WrittenBitOnBytes(area: bytes, it: Item, d: bytes)
    requires it.TransportSize == 1 && |d| >= 4 && SizeOf(it) <= 1 && StartByte(it) + SizeOf(it) <= |area|
    ensures var at, after := StartByte(it), WrittenArea(area, it, Payload(it, d));
            && |after| == |area|
            && (at == |area| ==> after == area)
            && (at < |area| ==>
                  && after == area[at := after[at]]
                  && forall j :: 0 <= j < 8 ==>
                       after[at] as int / [1, 2, 4, 8, 16, 32, 64, 128][j] % 2
                       == if j == it.Address % 8 then (if |d| > 4 then d[4] as int % 2 else 0)
                          else area[at] as int / [1, 2, 4, 8, 16, 32, 64, 128][j] % 2)
  {
    hide BitOf, SetBit, SizeOf, StartByte;
    var at, k, data := StartByte(it), it.Address % 8, Payload(it, d);
    assert data[0] == if |d| > 4 then d[4] else 0;
    if at < |area| {
      var after := WrittenArea(area, it, data);
      assert after[at] == SetBit(area[at], k, data[0] % 2 == 1);
      forall j | 0 <= j < 8
        ensures after[at] as int / [1, 2, 4, 8, 16, 32, 64, 128][j] % 2
                == if j == k then data[0] as int % 2 else area[at] as int / [1, 2, 4, 8, 16, 32, 64, 128][j] % 2
      {
        BitAfterSet(area[at], k, data[0] % 2 == 1, j);
        BitIsDigit(after[at], j);
        BitIsDigit(area[at], j);
      }
    }
  }
}
