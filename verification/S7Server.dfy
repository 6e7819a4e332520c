/**
 The server's data-block table and system areas. `DB` is a slot table scanned only up to the
 high-water mark `DBLimit`; the ghost map `Areas` is what it stands for.
 */
module S7Server {
  import opened S7Types

  const MAX_DB := 2048
  const SYS_AREAS := 5

  const ERR_SRV_DB_NULL_POINTER := 0x0020_0000
  const ERR_SRV_AREA_ALREADY_EXISTS := 0x0030_0000
  const ERR_SRV_UNKNOWN_AREA := 0x0040_0000
  const ERR_SRV_INVALID_PARAMS := 0x0050_0000
  const ERR_SRV_TOO_MANY_DB := 0x0060_0000

  datatype TS7Area = TS7Area(Number: word, Size: word, PData: array<byte>)

  datatype AreaId = Sys(index: nat) | Db(number: word)

  type Memory = map<AreaId, bytes>

  type Slots = seq<Option<TS7Area>>

  /** The DB numbers in a run of slots, in slot order. */
  function Numbers(slots: Slots): (r: seq<word>)
    ensures |r| <= |slots|
  {
    if slots == [] then []
    else if slots[0].Some? then [slots[0].value.Number] + Numbers(slots[1..])
    else Numbers(slots[1..])
  }

  lemma {:induction false} NumbersConcat(a: Slots, b: Slots)
    ensures Numbers(a + b) == Numbers(a) + Numbers(b)
  {
    if a == [] {
      assert a + b == b;
    } else {
      assert (a + b)[1..] == a[1..] + b;
      NumbersConcat(a[1..], b);
    }
  }

  /** The numbers are those of the slots in use, each once, from the first such slot to the last. */
  lemma {:induction false} NumbersInSlotOrder(slots: Slots) returns (used: seq<nat>)
    ensures |Numbers(slots)| == |used|
    ensures forall k :: 0 <= k < |used| ==>
              used[k] < |slots| && slots[used[k]].Some? && Numbers(slots)[k] == slots[used[k]].value.Number
    ensures forall k, l :: 0 <= k < l < |used| ==> used[k] < used[l]
    ensures forall i :: 0 <= i < |slots| && slots[i].Some? ==> i in used
  {
    if slots == [] {
      used := [];
    } else {
      var n := |slots| - 1;
      var before := NumbersInSlotOrder(slots[..n]);
      assert slots == slots[..n] + [slots[n]];
      NumbersConcat(slots[..n], [slots[n]]);
      assert Numbers([slots[n]]) == if slots[n].Some? then [slots[n].value.Number] else [];
      hide Numbers;
      used := before + if slots[n].Some? then [n] else [];
      forall i | 0 <= i < |slots| && slots[i].Some? ensures i in used {
        assert i < n ==> slots[..n][i].Some?;
      }
    }
  }

  /** Filling a free slot adds one number; emptying an occupied one removes one. */
  lemma NumbersUpdate(s: Slots, i: nat, v: Option<TS7Area>)
    requires i < |s|
    ensures |Numbers(s[i := v])| - |Numbers([v])| == |Numbers(s)| - |Numbers([s[i]])|
  {
    assert s == s[..i] + ([s[i]] + s[i + 1..]);
    assert s[i := v] == s[..i] + ([v] + s[i + 1..]);
    NumbersConcat(s[..i], [s[i]] + s[i + 1..]);
    NumbersConcat([s[i]], s[i + 1..]);
    NumbersConcat(s[..i], [v] + s[i + 1..]);
    NumbersConcat([v], s[i + 1..]);
  }

  /** A table is full exactly when no slot is free. */
  lemma {:induction false} NumbersFull(s: Slots)
    ensures |Numbers(s)| == |s| <==> forall i :: 0 <= i < |s| ==> s[i].Some?
  {
    if s != [] {
      NumbersFull(s[1..]);
      assert forall i :: 1 <= i < |s| ==> s[i] == s[1..][i - 1];
      if |Numbers(s)| == |s| {
        forall i | 0 <= i < |s| ensures s[i].Some? {
          if i > 0 { assert s[1..][i - 1].Some?; }
        }
      }
    }
  }

  lemma {:induction false} NumbersEmpty(s: Slots)
    requires forall i :: 0 <= i < |s| ==> s[i].None?
    ensures Numbers(s) == []
  {
    if s != [] { NumbersEmpty(s[1..]); }
  }

  /** The slot holding `number` among `slots`, scanning upwards; -1 when there is none. */
  ghost predicate Holds(slots: Slots, i: int, number: word) {
    0 <= i < |slots| && slots[i].Some? && slots[i].value.Number == number
  }

  /** The area code of an item names a system area or, with its number, a data block. */
  function KeyOf(code: byte, number: word): Option<AreaId> {
    if code == S7_AREA_PE then Some(Sys(0))
    else if code == S7_AREA_PA then Some(Sys(1))
    else if code == S7_AREA_MK then Some(Sys(2))
    else if code == S7_AREA_CT then Some(Sys(3))
    else if code == S7_AREA_TM then Some(Sys(4))
    else if code == S7_AREA_DB then Some(Db(number))
    else None
  }

  /** The slot table stands for the data blocks in `areas`: one slot each, none above the mark. */
  ghost predicate TableMatches(slots: Slots, limit: int, areas: map<AreaId, TS7Area>) {
    && (forall i :: 0 <= i < |slots| && slots[i].Some? ==>
          i <= limit && Db(slots[i].value.Number) in areas && areas[Db(slots[i].value.Number)] == slots[i].value)
    && (forall i, j :: 0 <= i < j < |slots| && slots[i].Some? && slots[j].Some? ==>
          slots[i].value.Number != slots[j].value.Number)
    && (forall n :: Db(n) in areas ==> exists i :: Holds(slots, i, n))
  }

  lemma TableInsert(slots: Slots, limit: int, areas: map<AreaId, TS7Area>, index: nat, area: TS7Area)
    requires TableMatches(slots, limit, areas)
    requires index < |slots| && slots[index].None? && Db(area.Number) !in areas
    ensures TableMatches(slots[index := Some(area)], if limit < index then index else limit,
                         areas[Db(area.Number) := area])
  {
    var after := slots[index := Some(area)];
    forall n | Db(n) in areas[Db(area.Number) := area] ensures exists i :: Holds(after, i, n) {
      if n == area.Number {
        assert Holds(after, index, n);
      } else {
        var i :| Holds(slots, i, n);
        assert Holds(after, i, n);
      }
    }
  }

  lemma TableRemove(slots: Slots, limit: int, areas: map<AreaId, TS7Area>, index: nat)
    requires TableMatches(slots, limit, areas)
    requires index < |slots| && slots[index].Some?
    ensures TableMatches(slots[index := None], limit, areas - {Db(slots[index].value.Number)})
  {
    var after := slots[index := None];
    forall n | Db(n) in areas - {Db(slots[index].value.Number)} ensures exists i :: Holds(after, i, n) {
      var i :| Holds(slots, i, n);
      assert Holds(after, i, n);
    }
  }

  /** Changing a system area leaves the data-block part as it was. */
  lemma TableSys(slots: Slots, limit: int, areas: map<AreaId, TS7Area>, k: nat, area: TS7Area)
    requires TableMatches(slots, limit, areas)
    ensures TableMatches(slots, limit, areas[Sys(k) := area])
  {
  }

  class TSnap7Server {
    const DB: array<Option<TS7Area>>
    const HA: array<Option<TS7Area>>
    var DBCount: int
    var DBLimit: int
    ghost var Areas: map<AreaId, TS7Area>

    /** Table and system areas are in step with the map. */
    ghost predicate Table()
      reads this, DB, HA
    {
      && DB.Length == MAX_DB && HA.Length == SYS_AREAS && DB != HA
      && 0 <= DBLimit < MAX_DB
      && DBCount == |Numbers(DB[..])|
      && TableMatches(DB[..], DBLimit, Areas)
      && (forall i :: 0 <= i < SYS_AREAS ==>
            HA[i] == if Sys(i) in Areas then Some(Areas[Sys(i)]) else None)
      && (forall i: nat :: Sys(i) in Areas ==> i < SYS_AREAS)
      && (forall a :: a in Areas ==> Areas[a].PData.Length >= Areas[a].Size)
    }

    /** No two areas are registered with the same buffer, as reading one and writing another would then interfere. */
    ghost predicate Valid()
      reads this, DB, HA
    {
      Table() && (forall a, b :: a in Areas && b in Areas && a != b ==> Areas[a].PData != Areas[b].PData)
    }

    ghost function Buffers(): set<array<byte>>
      reads this
    {
      set a | a in Areas :: Areas[a].PData
    }

    /** What the registered areas hold. */
    ghost function Contents(): (m: Memory)
      requires Valid()
      reads this, DB, HA, Buffers()
      ensures m.Keys == Areas.Keys
    {
      map a | a in Areas :: Areas[a].PData[..Areas[a].Size]
    }

    constructor ()
      ensures Valid() && fresh(DB) && fresh(HA)
      ensures Areas == map[] && DBCount == 0
    {
      DB := new Option<TS7Area>[MAX_DB](_ => None);
      HA := new Option<TS7Area>[SYS_AREAS](_ => None);
      DBCount, DBLimit, Areas := 0, 0, map[];
      new;
      NumbersEmpty(DB[..]);
    }

    /** Scans slots 0..DBLimit; finds the registered block exactly when there is one. */
    method IndexOfDB(DBNumber: word) returns (index: int)
      requires Table()
      ensures -1 <= index < MAX_DB
      ensures index == -1 <==> Db(DBNumber) !in Areas
      ensures index >= 0 ==> DB[index] == Some(Areas[Db(DBNumber)]) && DB[index].value.Number == DBNumber
    {
      var c := 0;
      var max := DBLimit + 1;
      while c < max
        invariant 0 <= c <= max
        invariant forall i :: 0 <= i < c ==> !Holds(DB[..], i, DBNumber)
      {
        if DB[c].Some? && DB[c].value.Number == DBNumber {
          assert Holds(DB[..], c, DBNumber);
          return c;
        }
        c := c + 1;
      }
      index := -1;
    }

    method FindDB(DBNumber: word) returns (area: Option<TS7Area>)
      requires Table()
      ensures area == if Db(DBNumber) in Areas then Some(Areas[Db(DBNumber)]) else None
    {
      var index := IndexOfDB(DBNumber);
      area := if index == -1 then None else DB[index];
    }

    method FindFirstFreeDB() returns (index: int)
      requires DB.Length == MAX_DB
      ensures -1 <= index < MAX_DB
      ensures index == -1 <==> |Numbers(DB[..])| == MAX_DB
      ensures index >= 0 ==> DB[index].None? && forall i :: 0 <= i < index ==> DB[i].Some?
    {
      NumbersFull(DB[..]);
      index := 0;
      while index < MAX_DB
        invariant 0 <= index <= MAX_DB
        invariant forall i :: 0 <= i < index ==> DB[i].Some?
      {
        if DB[index].None? {
          assert DB[..][index].None?;
          return;
        }
        index := index + 1;
      }
      index := -1;
    }

    /** Fails only for a null pointer, a number already present or a full table. */
    method RegisterDB(Number: word, pUsrData: array?<byte>, Size: word) returns (Result: int)
      requires Table()
      requires pUsrData != null ==> pUsrData.Length >= Size
      modifies this, DB
      ensures Table()
      ensures old(Valid()) && (pUsrData == null || pUsrData !in old(Buffers())) ==> Valid()
      ensures Result ==
              if pUsrData == null then 0x0020_0000
              else if Db(Number) in old(Areas) then 0x0030_0000
              else if old(DBCount) == 2048 then 0x0060_0000
              else 0
      ensures Areas == if Result == 0 then old(Areas)[Db(Number) := TS7Area(Number, Size, pUsrData)] else old(Areas)
      ensures DBCount == old(DBCount) + (if Result == 0 then 1 else 0)
    {
      if pUsrData == null { return ERR_SRV_DB_NULL_POINTER; }
      var existing := FindDB(Number);
      if existing.Some? { return ERR_SRV_AREA_ALREADY_EXISTS; }
      var index := FindFirstFreeDB();
      if index == -1 { return ERR_SRV_TOO_MANY_DB; }
      var area := TS7Area(Number, Size, pUsrData);
      TableInsert(DB[..], DBLimit, Areas, index, area);
      NumbersUpdate(DB[..], index, Some(area));
      ghost var after := DB[..][index := Some(area)];
      DB[index] := Some(area);
      assert DB[..] == after;
      DBCount := DBCount + 1;
      if DBLimit < index { DBLimit := index; }
      Areas := Areas[Db(Number) := area];
      Result := 0;
    }

    method UnregisterDB(DBNumber: word) returns (Result: int)
      requires Table()
      modifies this, DB
      ensures Table() && (old(Valid()) ==> Valid())
      ensures Result == if Db(DBNumber) in old(Areas) then 0 else 0x0050_0000
      ensures Areas == old(Areas) - {Db(DBNumber)}
      ensures DBCount == old(DBCount) - (if Result == 0 then 1 else 0)
    {
      var index := IndexOfDB(DBNumber);
      if index == -1 { return ERR_SRV_INVALID_PARAMS; }
      TableRemove(DB[..], DBLimit, Areas, index);
      NumbersUpdate(DB[..], index, None);
      ghost var after := DB[..][index := None];
      DB[index] := None;
      assert DB[..] == after;
      DBCount := DBCount - 1;
      Areas := Areas - {Db(DBNumber)};
      Result := 0;
    }

    method RegisterSys(AreaCode: int, pUsrData: array?<byte>, Size: word) returns (Result: int)
      requires Table()
      requires pUsrData != null ==> pUsrData.Length >= Size
      modifies this, HA
      ensures Table()
      ensures old(Valid()) && (pUsrData == null || pUsrData !in old(Buffers())) ==> Valid()
      ensures Result ==
              if pUsrData == null then 0x0020_0000
              else if !(0 <= AreaCode < 5) then 0x0040_0000
              else if Sys(AreaCode) in old(Areas) then 0x0030_0000
              else 0
      ensures Areas == if Result == 0 then old(Areas)[Sys(AreaCode) := TS7Area(0, Size, pUsrData)] else old(Areas)
    {
      if pUsrData == null { return ERR_SRV_DB_NULL_POINTER; }
      if !(0 <= AreaCode < SYS_AREAS) { return ERR_SRV_UNKNOWN_AREA; }
      if HA[AreaCode].Some? { return ERR_SRV_AREA_ALREADY_EXISTS; }
      var area := TS7Area(0, Size, pUsrData);
      TableSys(DB[..], DBLimit, Areas, AreaCode, area);
      HA[AreaCode] := Some(area);
      Areas := Areas[Sys(AreaCode) := area];
      Result := 0;
    }

    /** The area an item names: the same answer as looking it up in the map. */
    method GetArea(S7Code: byte, index: word) returns (area: Option<TS7Area>)
      requires Valid()
      ensures area == var key := KeyOf(S7Code, index);
                      if key.Some? && key.value in Areas then Some(Areas[key.value]) else None
      ensures S7Code == 0x81 ==> area == if Sys(0) in Areas then Some(Areas[Sys(0)]) else None  // inputs
      ensures S7Code == 0x82 ==> area == if Sys(1) in Areas then Some(Areas[Sys(1)]) else None  // outputs
      ensures S7Code == 0x83 ==> area == if Sys(2) in Areas then Some(Areas[Sys(2)]) else None  // markers
      ensures S7Code == 0x1C ==> area == if Sys(3) in Areas then Some(Areas[Sys(3)]) else None  // counters
      ensures S7Code == 0x1D ==> area == if Sys(4) in Areas then Some(Areas[Sys(4)]) else None  // timers
      ensures S7Code == 0x84 ==> area == if Db(index) in Areas then Some(Areas[Db(index)]) else None
      ensures S7Code !in {0x81, 0x82, 0x83, 0x84, 0x1C, 0x1D} ==> area == None
      ensures area.Some? ==> area.value.PData.Length >= area.value.Size
                             && Contents()[KeyOf(S7Code, index).value] == area.value.PData[..area.value.Size]
    {
      if S7Code == S7_AREA_PE { area := HA[0]; }
      else if S7Code == S7_AREA_PA { area := HA[1]; }
      else if S7Code == S7_AREA_MK { area := HA[2]; }
      else if S7Code == S7_AREA_CT { area := HA[3]; }
      else if S7Code == S7_AREA_TM { area := HA[4]; }
      else if S7Code == S7_AREA_DB { area := FindDB(index); }
      else { area := None; }
    }

    /** Copies `data` into an area; every other area keeps its bytes. */
    method Store(ghost key: AreaId, area: TS7Area, at: nat, data: bytes)
      requires Valid() && key in Areas && Areas[key] == area
      requires at + |data| <= area.Size
      modifies area.PData
      ensures Valid()
      ensures Contents() == old(Contents())[key := Splice(old(Contents()[key]), at, data)]
    {
      forall i | 0 <= i < |data| { area.PData[at + i] := data[i]; }
      assert area.PData[..area.Size] == Splice(old(area.PData[..area.Size]), at, data);
      forall k | k in Areas && k != key ensures Areas[k].PData[..Areas[k].Size] == old(Areas[k].PData[..Areas[k].Size]) {
        assert Areas[k].PData != area.PData;
      }
    }
  }
}
