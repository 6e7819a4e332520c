/**
 Paged listing of the data blocks: what one page holds, and what a start request followed by
 continuations yields on an unchanged table.
 */
module BlockList {
  import opened Arithmetic
  import opened S7Types
  import opened S7Server

  /** The part of a list answer the client looks at. */
  datatype ListReply = ListReply(rsvd: word, errNo: word, retVal: byte, items: seq<word>)

  const RSVD_DONE: word := 0x0023
  const RSVD_MORE: word := 0x0123
  const ERR_NO_RESOURCE: word := 0x0ED2

  function NoResource(rsvd: word): ListReply {
    ListReply(rsvd, ERR_NO_RESOURCE, 0x0A, [])
  }

  /** Slots visited after `cnt` until `room` numbers are found or the bound is reached, and the last one visited. */
  function Scan(slots: Slots, hi: int, cnt: int, room: nat): (r: (seq<word>, int))
    requires -1 <= cnt && hi < |slots|
    ensures cnt <= r.1
    decreases hi - cnt
  {
    if room == 0 || cnt >= hi then ([], cnt)
    else if slots[cnt + 1].Some? then
      var rest := Scan(slots, hi, cnt + 1, room - 1);
      ([slots[cnt + 1].value.Number] + rest.0, rest.1)
    else Scan(slots, hi, cnt + 1, room)
  }

  lemma ScanUnfolds(slots: Slots, hi: int, cnt: int, room: nat)
    requires -1 <= cnt && hi < |slots|
    ensures Scan(slots, hi, cnt, room) ==
            if room == 0 || cnt >= hi then ([], cnt)
            else if slots[cnt + 1].Some? then
              var rest := Scan(slots, hi, cnt + 1, room - 1);
              ([slots[cnt + 1].value.Number] + rest.0, rest.1)
            else Scan(slots, hi, cnt + 1, room)
  {
  }

  /** The numbers still to come once the scan has visited slot `cnt`. */
  function Remaining(slots: Slots, hi: int, cnt: int): seq<word>
    requires -1 <= cnt <= hi < |slots|
  {
    Numbers(slots[cnt + 1..hi + 1])
  }

  /** A scan takes the next numbers in slot order, as many as there is room for. */
  lemma {:induction false} ScanTakesNext(slots: Slots, hi: int, cnt: int, room: nat)
    requires -1 <= cnt <= hi < |slots|
    ensures var r := Scan(slots, hi, cnt, room);
            var left := Remaining(slots, hi, cnt);
            && r.1 <= hi
            && r.0 == left[..Min(room, |left|)]
            && Remaining(slots, hi, r.1) == left[|r.0|..]
            && (|left| < room ==> r.1 == hi)
            && (r.0 != [] && |r.0| == room ==> slots[r.1].Some?)
    decreases hi - cnt
  {
    if room > 0 && cnt < hi {
      var part := slots[cnt + 1..hi + 1];
      assert part[0] == slots[cnt + 1] && part[1..] == slots[cnt + 2..hi + 1];
      if slots[cnt + 1].Some? {
        ScanTakesNext(slots, hi, cnt + 1, room - 1);
        var left := Remaining(slots, hi, cnt);
        assert left == [slots[cnt + 1].value.Number] + Remaining(slots, hi, cnt + 1);
        if room == 1 {
          assert Scan(slots, hi, cnt + 1, 0) == ([], cnt + 1);
        }
      } else {
        ScanTakesNext(slots, hi, cnt + 1, room);
      }
    } else {
      assert cnt == hi ==> slots[cnt + 1..hi + 1] == [];
    }
  }

  /** One page: the answer and the counter kept for the next request. */
  function Page(slots: Slots, hi: int, room: nat, cnt: int): (ListReply, int)
    requires -1 <= cnt && hi < |slots|
  {
    var r := Scan(slots, hi, cnt, room);
    var done := |r.0| < room || r.1 == hi;
    var rsvd := if done then RSVD_DONE else RSVD_MORE;
    if r.0 == [] then (NoResource(rsvd), 0)
    else (ListReply(rsvd, 0, 0xFF, r.0), if done then 0 else r.1)
  }

  /** The answers to a start request and its continuations, up to the one that ends the sequence. */
  function Pages(slots: Slots, hi: int, room: nat, cnt: int): seq<ListReply>
    requires -1 <= cnt <= hi < |slots| && room > 0
    decreases hi - cnt
  {
    var p := Page(slots, hi, room, cnt);
    ScanTakesNext(slots, hi, cnt, room);
    if p.0.rsvd == RSVD_DONE || p.1 <= cnt then [p.0] else [p.0] + Pages(slots, hi, room, p.1)
  }

  function AllItems(replies: seq<ListReply>): seq<word> {
    if replies == [] then [] else replies[0].items + AllItems(replies[1..])
  }

  /**
   A full last page ends the listing only when it reaches the bound itself, whose slot is free unless the whole table
   is in use.
   */
  predicate EndsFull(slots: Slots, hi: int, left: seq<word>, room: nat)
    requires 0 <= hi < |slots| && room > 0
  {
    slots[hi].Some? && left != [] && |left| % room == 0
  }

  ghost predicate ListsAll(pages: seq<ListReply>, left: seq<word>, room: nat, endsFull: bool)
    requires room > 0
  {
    && AllItems(pages) == left
    && |pages| == |left| / room + (if endsFull then 0 else 1)
    && pages != []
    && (forall i :: 0 <= i < |pages| ==> |pages[i].items| <= room)
    && (forall i :: 0 <= i < |pages| - 1 ==> pages[i].errNo == 0 && pages[i].rsvd == RSVD_MORE)
    && pages[|pages| - 1].rsvd == RSVD_DONE
    && (pages[|pages| - 1].errNo == ERR_NO_RESOURCE <==> |left| % room == 0 && !endsFull)
  }

  lemma LastPage(page: ListReply, left: seq<word>, room: nat)
    requires |left| < room && page.items == left && page.rsvd == RSVD_DONE && (page.errNo == ERR_NO_RESOURCE <==> left == [])
    ensures ListsAll([page], left, room, false)
  {
    SmallQuotient(|left|, room);
    OnePage(page);
  }

  lemma LastFullPage(page: ListReply, left: seq<word>, room: nat)
    requires |left| == room > 0 && page.items == left && page.rsvd == RSVD_DONE && page.errNo == 0
    ensures ListsAll([page], left, room, true)
  {
    assert room / room == 1 && room % room == 0;
    OnePage(page);
  }

  lemma OnePage(page: ListReply)
    ensures AllItems([page]) == page.items
  {
    assert [page][1..] == [] && AllItems([]) == [];
    assert AllItems([page]) == page.items + AllItems([page][1..]);
  }

  lemma PageBefore(page: ListReply, rest: seq<ListReply>, left: seq<word>, room: nat, endsFull: bool)
    requires 0 < room <= |left| && page.items == left[..room] && page.rsvd == RSVD_MORE && page.errNo == 0
    requires ListsAll(rest, left[room..], room, endsFull)
    ensures ListsAll([page] + rest, left, room, endsFull)
  {
    DropOneRoom(|left|, room);
    var all := [page] + rest;
    assert all[1..] == rest;
    assert left == left[..room] + left[room..];
    assert AllItems(all) == page.items + AllItems(rest);
  }

  /**
   The sequence lists every remaining number once and in slot order, no page exceeds the room, and it ends after
   `n / room + 1` answers; the last one says "no resource" exactly when `room` divides `n`. Only with the whole table
   in use, and the slot behind it not empty, does a full last page end the sequence by itself.
   */
  lemma {:induction false} PagesListEverything(slots: Slots, hi: int, room: nat, cnt: int)
    requires -1 <= cnt <= hi < |slots| && room > 0 && 0 <= hi
    ensures var left := Remaining(slots, hi, cnt);
            ListsAll(Pages(slots, hi, room, cnt), left, room, EndsFull(slots, hi, left, room))
    decreases hi - cnt
  {
    hide ListsAll, Scan, Remaining;
    var p := Page(slots, hi, room, cnt);
    var r := Scan(slots, hi, cnt, room);
    var left := Remaining(slots, hi, cnt);
    PageByCount(slots, hi, room, cnt);
    ScanTakesNext(slots, hi, cnt, room);
    if |left| < room {
      SmallQuotient(|left|, room);
      LastPage(p.0, left, room);
    } else if |left| == room && slots[hi].Some? {
      assert room % room == 0;
      LastFullPage(p.0, left, room);
    } else {
      ScanMoves(slots, hi, cnt, room);
      PagesListEverything(slots, hi, room, r.1);
      DropOneRoom(|left|, room);
      PageBefore(p.0, Pages(slots, hi, room, r.1), left, room, EndsFull(slots, hi, left, room));
    }
  }

  lemma ScanMoves(slots: Slots, hi: int, cnt: int, room: nat)
    requires -1 <= cnt <= hi < |slots| && Scan(slots, hi, cnt, room).0 != []
    ensures Scan(slots, hi, cnt, room).1 > cnt
  {
  }

  lemma SmallQuotient(n: nat, room: nat)
    requires n < room
    ensures n / room == 0 && (n % room == 0 <==> n == 0)
  {
    assert n == 0 * room + n;
  }

  lemma DropOneRoom(n: nat, room: nat)
    requires n >= room > 0
    ensures n / room == (n - room) / room + 1
    ensures n % room == (n - room) % room
  {
    var q, m := (n - room) / room, (n - room) % room;
    assert n == (q + 1) * room + m;
    QuotientIs(n, room, q + 1, m);
  }

  /**
   What a listing lists: the numbers of the table and, when its last slot is or was in use, what the memory behind it
   holds; the scan goes up to the slot after the high-water mark.
   */
  function Listed(db: Slots, hi: int, behind: Option<TS7Area>): seq<word> {
    Numbers(db) + (if hi == |db| && behind.Some? then [behind.value.Number] else [])
  }

  /** The numbers up to the high-water mark are all there are. */
  lemma RemainingAtStart(db: Slots, hi: int, behind: Option<TS7Area>)
    requires 0 <= hi <= |db| && forall i :: hi <= i < |db| ==> db[i].None?
    ensures Remaining(db + [behind], hi, -1) == Listed(db, hi, behind)
  {
    if hi < |db| {
      assert (db + [behind])[0..hi + 1] == db[..hi + 1];
      assert db == db[..hi + 1] + db[hi + 1..];
      NumbersConcat(db[..hi + 1], db[hi + 1..]);
      NumbersEmpty(db[hi + 1..]);
    } else {
      assert (db + [behind])[0..hi + 1] == db + [behind];
      NumbersConcat(db, [behind]);
    }
  }

  /** The number at the bound is the last one left. */
  lemma BoundIsLast(slots: Slots, hi: int, cnt: int)
    requires -1 <= cnt <= hi < |slots| && 0 <= hi && slots[hi].Some?
    ensures Remaining(slots, hi, cnt) == [] <==> cnt == hi
  {
    var part := slots[cnt + 1..hi + 1];
    if cnt < hi {
      assert part == part[..|part| - 1] + [slots[hi]];
      NumbersConcat(part[..|part| - 1], [slots[hi]]);
    }
  }

  /** What one page yields, told by how many numbers are left. */
  lemma PageByCount(slots: Slots, hi: int, room: nat, cnt: int)
    requires -1 <= cnt <= hi < |slots| && room > 0 && 0 <= hi
    ensures var left := Remaining(slots, hi, cnt);
            var p := Page(slots, hi, room, cnt);
            if left == [] then p == (NoResource(RSVD_DONE), 0)
            else if |left| < room || (|left| == room && slots[hi].Some?) then p == (ListReply(RSVD_DONE, 0, 0xFF, left), 0)
            else
              && p.0 == ListReply(RSVD_MORE, 0, 0xFF, left[..room])
              && -1 <= p.1 < hi && p.1 == Scan(slots, hi, cnt, room).1 && Remaining(slots, hi, p.1) == left[room..]
  {
    hide Remaining, Scan;
    ScanTakesNext(slots, hi, cnt, room);
    var left := Remaining(slots, hi, cnt);
    var r := Scan(slots, hi, cnt, room);
    if slots[hi].Some? { BoundIsLast(slots, hi, r.1); }
    if |left| <= room {
      assert left[..|left|] == left;
    }
    AtTheBound(slots, hi);
  }

  /**
   What one page says: as many of the numbers left as four bytes each fit behind the 32 of the answer's frame; the
   answer is the last one when fewer are left than fit, or the scan ends with a full page; with none left it says
   "no resource".
   */
  lemma PageOnNumbers(slots: Slots, hi: int, pduLength: int, cnt: int)
    requires -1 <= cnt <= hi < |slots| && 0 <= hi && pduLength >= 36
    ensures var left := Numbers(slots[cnt + 1..hi + 1]);
            var room := (pduLength - 32) / 4;
            var p := Page(slots, hi, room, cnt).0;
            && p.items == left[..if |left| < room then |left| else room]
            && p.rsvd == (if |left| < room || (|left| == room && slots[hi].Some?) then 0x0023 else 0x0123)
            && (left == [] ==> p.errNo == 0x0ED2 && p.retVal == 0x0A)
            && (left != [] ==> p.errNo == 0 && p.retVal == 0xFF)
  {
    hide Page, Numbers;
    PageByCount(slots, hi, (pduLength - 32) / 4, cnt);
    var left := Remaining(slots, hi, cnt);
    assert left[..|left|] == left;
  }

  lemma AtTheBound(slots: Slots, hi: int)
    requires 0 <= hi < |slots|
    ensures Remaining(slots, hi, hi) == []
  {
  }

  const LIST_OVERHEAD := 26  // answer header, parameters and the head of the data part

  /** The client's loop over the pages, from the one behind slot `cnt`: result and list. */
  function ListLoop(slots: Slots, hi: int, room: nat, cnt: int): (r: (int, seq<word>))
    requires -1 <= cnt <= hi < |slots| && room > 0 && 0 <= hi
    ensures r.0 != 0 ==> r.1 == []
    decreases |Remaining(slots, hi, cnt)|
  {
    var p := Page(slots, hi, room, cnt);
    PageByCount(slots, hi, room, cnt);
    if LIST_OVERHEAD + 4 * |p.0.items| > ISO_CARRIED then (ERR_ISO_INVALID_PDU, [])
    else if p.0.errNo != 0 || p.0.retVal != 0xFF then (ERR_CLI_ITEM_NOT_AVAILABLE, [])
    else if p.0.rsvd / 0x100 == 0 then (0, p.0.items)
    else
      var rest := ListLoop(slots, hi, room, p.1);
      (rest.0, if rest.0 == 0 then p.0.items + rest.1 else [])
  }

  /**
   The loop lists everything exactly when the count is not a multiple of the page size, or the listing ends with a full
   page (and a full page fits one packet); otherwise it ends in an error.
   */
  lemma {:induction false} ListLoopResult(slots: Slots, hi: int, room: nat, cnt: int)
    requires -1 <= cnt <= hi < |slots| && room > 0 && 0 <= hi
    requires LIST_OVERHEAD + 4 * (room - 1) <= ISO_CARRIED
    ensures var left := Remaining(slots, hi, cnt);
            ListLoop(slots, hi, room, cnt) ==
            if |left| >= room && LIST_OVERHEAD + 4 * room > ISO_CARRIED then (ERR_ISO_INVALID_PDU, [])
            else if |left| % room == 0 && !EndsFull(slots, hi, left, room) then (ERR_CLI_ITEM_NOT_AVAILABLE, [])
            else (0, left)
    decreases |Remaining(slots, hi, cnt)|
  {
    hide Page, Remaining;
    var left := Remaining(slots, hi, cnt);
    PageByCount(slots, hi, room, cnt);
    if |left| < room {
      SmallQuotient(|left|, room);
    } else {
      DropOneRoom(|left|, room);
      var p := Page(slots, hi, room, cnt);
      if LIST_OVERHEAD + 4 * room <= ISO_CARRIED && !(|left| == room && slots[hi].Some?) {
        ListLoopResult(slots, hi, room, p.1);
        assert left == left[..room] + left[room..];
      }
      SmallQuotient(0, room);
    }
  }
}
