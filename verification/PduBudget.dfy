/**
 The space a read request may take in the negotiated PDU: which items the server refuses for it, and how
 long the answer becomes.
 */
module PduBudget {
  import opened S7Types
  import opened S7Server
  import opened S7Items
  import opened S7Telegrams

  /** The item gets as far as the comparison with the space left. */
  predicate Charged(mem: Memory, it: Item) {
    Available(mem, it) && DataSizeByte(it.TransportSize) != 0 && !TimerMismatch(it)
  }

  /** Nothing but the space left can refuse the item. */
  predicate Readable(mem: Memory, it: Item) {
    && Charged(mem, it)
    && !(it.TransportSize == WL_BIT && SizeOf(it) > 1) && !Unaligned(it)
    && StartByte(it) + SizeOf(it) <= |mem[KeyOf(it.Area, it.DBNumber).value]|
  }

  /**
   An item is refused for exceeding the PDU exactly when its size equals the space left modulo 2^32; the client
   then reports a refused function, and never a size over the PDU.
   */
  lemma OverPduIff(mem: Memory, it: Item, remainder: int)
    ensures var r := ReadItem(mem, it, remainder);
            && (r.code == CODE_DATA_OVER_PDU <==> Charged(mem, it) && (remainder - SizeOf(it)) % LONG == 0)
            && (r.code == CODE_DATA_OVER_PDU ==> Outcome(r) == (ERR_CLI_FUNCTION_REFUSED, []))
            && Outcome(r).0 != ERR_CLI_SIZE_OVER_PDU
  {
  }

  lemma SizeBound(it: Item)
    ensures SizeOf(it) < 0x4_0000
  {
  }

  /** One item whose space left is still far from wrapping round. */
  lemma OneItem(mem: Memory, it: Item, remainder: int)
    requires -0x100_0000 < remainder < 0x1_0000
    ensures var r := ReadItem(mem, it, remainder);
            && (r.code == CODE_DATA_OVER_PDU <==> Charged(mem, it) && remainder == SizeOf(it))
            && (r.code == CODE_OK <==> Readable(mem, it) && remainder != SizeOf(it))
            && |r.data| == (if r.code == CODE_OK then SizeOf(it) else 0)
            && (Readable(mem, it) ==> Charged(mem, it))
            && r.remainder == (if Charged(mem, it) && remainder != SizeOf(it) then remainder - SizeOf(it) else remainder)
  {
    SizeBound(it);
    hide BitOf, DataSizeByte, TimerMismatch, Unaligned, KeyOf;
  }

  // ---------------------------------------------------------------- the length of an answer

  /** What an item takes from the space, and the bytes it is answered with when it is let through. */
  datatype Ask = Free | Paid(charge: nat, gives: nat)

  function AskOf(mem: Memory, it: Item): Ask {
    if !Charged(mem, it) then Free else Paid(SizeOf(it), if Readable(mem, it) then SizeOf(it) else 0)
  }

  function Asks(mem: Memory, its: seq<Item>): (r: seq<Ask>)
    ensures |r| == |its| && forall i :: 0 <= i < |its| ==> r[i] == AskOf(mem, its[i])
  {
    seq(|its|, i requires 0 <= i < |its| => AskOf(mem, its[i]))
  }

  datatype Budget = Budget(sizes: seq<nat>, left: int)

  /** The data bytes of the items, told by their sizes alone: only an item that takes exactly the space left is refused for it. */
  function Answered(asks: seq<Ask>, pduLength: int): (b: Budget)
    ensures |b.sizes| == |asks|
  {
    if asks == [] then Budget([], pduLength)
    else
      var before, ask := Answered(asks[..|asks| - 1], pduLength), asks[|asks| - 1];
      if ask.Free? || ask.charge == before.left then Budget(before.sizes + [0], before.left)
      else Budget(before.sizes + [ask.gives], before.left - ask.charge)
  }

  /** Length of the data part for items of these sizes: a head each, and padding between odd ones. */
  function BodySize(sizes: seq<nat>, n: nat): nat {
    if sizes == [] then 0
    else
      var last := sizes[|sizes| - 1];
      BodySize(sizes[..|sizes| - 1], n) + 4 + last + (if |sizes| < n && last % 2 != 0 then 1 else 0)
  }

  function DataSizes(rs: seq<ReadReply>): (r: seq<nat>)
    ensures |r| == |rs| && forall i :: 0 <= i < |rs| ==> r[i] == |rs[i].data|
  {
    seq(|rs|, i requires 0 <= i < |rs| => |rs[i].data|)
  }

  lemma {:induction false} BodyLength(rs: seq<ReadReply>, n: nat)
    ensures |ReplyBody(rs, n)| == BodySize(DataSizes(rs), n)
  {
    if rs != [] {
      BodyLength(rs[..|rs| - 1], n);
      assert DataSizes(rs)[..|rs| - 1] == DataSizes(rs[..|rs| - 1]);
    }
  }

  function LeftAfter(rs: seq<ReadReply>, pduLength: int): int {
    if rs == [] then pduLength else rs[|rs| - 1].remainder
  }

  lemma ReplyListUnfolds(mem: Memory, its: seq<Item>, pduLength: int)
    requires its != []
    ensures var before := ReplyList(mem, its[..|its| - 1], pduLength);
            ReplyList(mem, its, pduLength) == before + [ReadItem(mem, its[|its| - 1], LeftAfter(before, pduLength))]
  {
    hide ReadItem;
  }

  lemma AnsweredNext(asks: seq<Ask>, ask: Ask, pduLength: int)
    ensures var before := Answered(asks, pduLength);
            Answered(asks + [ask], pduLength) ==
            if ask.Free? || ask.charge == before.left then Budget(before.sizes + [0], before.left)
            else Budget(before.sizes + [ask.gives], before.left - ask.charge)
  {
    assert (asks + [ask])[..|asks|] == asks;
  }

  lemma AnsweredUnfolds(mem: Memory, its: seq<Item>, pduLength: int)
    requires its != []
    ensures var before, ask := Answered(Asks(mem, its[..|its| - 1]), pduLength), AskOf(mem, its[|its| - 1]);
            Answered(Asks(mem, its), pduLength) ==
            if ask.Free? || ask.charge == before.left then Budget(before.sizes + [0], before.left)
            else Budget(before.sizes + [ask.gives], before.left - ask.charge)
  {
    hide AskOf, Answered;
    var before := Asks(mem, its[..|its| - 1]);
    assert Asks(mem, its) == before + [AskOf(mem, its[|its| - 1])];
    AnsweredNext(before, AskOf(mem, its[|its| - 1]), pduLength);
  }

  lemma {:induction false} SizesDecide(mem: Memory, its: seq<Item>, pduLength: int)
    requires |its| <= MAX_VARS && 0 <= pduLength < 0x1_0000
    ensures var rs, b := ReplyList(mem, its, pduLength), Answered(Asks(mem, its), pduLength);
            && DataSizes(rs) == b.sizes && LeftAfter(rs, pduLength) == b.left
            && pduLength - |its| * 0x4_0000 <= b.left <= pduLength
  {
    hide ReadItem, ReplyList, Charged, Readable, SizeOf;
    if its == [] {
      ListOfNone(mem, pduLength);
    } else {
      var before, it := its[..|its| - 1], its[|its| - 1];
      SizesDecide(mem, before, pduLength);
      ReplyListUnfolds(mem, its, pduLength);
      AnsweredUnfolds(mem, its, pduLength);
      hide Answered;
      var rs := ReplyList(mem, before, pduLength);
      var r := ReadItem(mem, it, LeftAfter(rs, pduLength));
      OneItem(mem, it, LeftAfter(rs, pduLength));
      SizeBound(it);
      assert DataSizes(rs + [r]) == DataSizes(rs) + [|r.data|];
    }
  }

  lemma ListOfNone(mem: Memory, pduLength: int)
    ensures ReplyList(mem, [], pduLength) == []
  {
  }

  /** The length of an answer, from the sizes of its items and of their areas. */
  lemma AnswerLength(mem: Memory, its: seq<Item>, pduLength: int)
    requires |its| <= MAX_VARS && 0 <= pduLength < 0x1_0000
    ensures |ReplyBody(ReplyList(mem, its, pduLength), |its|)| == BodySize(Answered(Asks(mem, its), pduLength).sizes, |its|)
  {
    hide ReplyBody, ReplyList, BodySize, Answered, Asks;
    SizesDecide(mem, its, pduLength);
    BodyLength(ReplyList(mem, its, pduLength), |its|);
  }

  // ---------------------------------------------------------------- when it stays within the PDU

  function Sizes(its: seq<Item>): (r: seq<nat>)
    ensures |r| == |its| && forall i :: 0 <= i < |its| ==> r[i] == SizeOf(its[i])
  {
    seq(|its|, i requires 0 <= i < |its| => SizeOf(its[i]))
  }

  /** The items are all answered, and the answer to them is within the PDU. */
  ghost predicate AnsweredWithin(mem: Memory, its: seq<Item>, n: nat, pduLength: int) {
    var rs := ReplyList(mem, its, pduLength);
    (forall i :: 0 <= i < |rs| ==> rs[i].code == CODE_OK) && 14 + |ReplyBody(rs, n)| <= pduLength
  }

  lemma BodySizeNext(sizes: seq<nat>, size: nat, n: nat)
    ensures BodySize(sizes + [size], n) == BodySize(sizes, n) + 4 + size + (if |sizes| + 1 < n && size % 2 != 0 then 1 else 0)
  {
    assert (sizes + [size])[..|sizes|] == sizes;
  }

  lemma SizesNext(its: seq<Item>)
    requires its != []
    ensures Sizes(its) == Sizes(its[..|its| - 1]) + [SizeOf(its[|its| - 1])]
  {
  }

  /** As long as the heads and items fit the PDU, the space left is what the items have not taken. */
  lemma {:induction false} AllAnsweredIff(mem: Memory, its: seq<Item>, n: nat, pduLength: int)
    requires |its| <= MAX_VARS && 0 <= pduLength < 0x1_0000
    ensures var rs := ReplyList(mem, its, pduLength);
            AnsweredWithin(mem, its, n, pduLength)
            <==> (forall i :: 0 <= i < |its| ==> Readable(mem, its[i])) && 14 + BodySize(Sizes(its), n) <= pduLength
    ensures AnsweredWithin(mem, its, n, pduLength) ==>
              |ReplyBody(ReplyList(mem, its, pduLength), n)| == BodySize(Sizes(its), n)
    ensures AnsweredWithin(mem, its, n, pduLength) ==>
              LeftAfter(ReplyList(mem, its, pduLength), pduLength) >= pduLength - BodySize(Sizes(its), n)
  {
    hide ReadItem, ReplyList, Readable, Charged, SizeOf, BodySize, ReplyBody, ReplyItem;
    if its == [] {
      ListOfNone(mem, pduLength);
      EmptyBody(n);
    } else {
      var before, it := its[..|its| - 1], its[|its| - 1];
      var rs := ReplyList(mem, before, pduLength);
      AllAnsweredIff(mem, before, n, pduLength);
      SizesDecide(mem, before, pduLength);
      ReplyListUnfolds(mem, its, pduLength);
      SizesNext(its);
      BodySizeNext(Sizes(before), SizeOf(it), n);
      var r := ReadItem(mem, it, LeftAfter(rs, pduLength));
      OneItem(mem, it, LeftAfter(rs, pduLength));
      ReplyBodyNext(rs, r, n);
      assert |ReplyItem(r)| == 4 + |r.data| by { ItemLength(r); }
      var all := ReplyList(mem, its, pduLength);
      assert all == rs + [r] && all[|rs|] == r && forall i :: 0 <= i < |rs| ==> rs[i] == all[i];
      assert its[|before|] == it && forall i :: 0 <= i < |before| ==> its[i] == before[i];
      assert AnsweredWithin(mem, its, n, pduLength)
        <==> AnsweredWithin(mem, before, n, pduLength) && r.code == CODE_OK && 14 + |ReplyBody(all, n)| <= pduLength;
      assert LeftAfter(all, pduLength) == r.remainder;
      assert (forall i :: 0 <= i < |its| ==> Readable(mem, its[i]))
        <==> (forall i :: 0 <= i < |before| ==> Readable(mem, before[i])) && Readable(mem, it);
    }
  }

  lemma ItemLength(r: ReadReply)
    ensures |ReplyItem(r)| == 4 + |r.data|
  {
  }

  lemma EmptyBody(n: nat)
    ensures ReplyBody([], n) == [] && BodySize([], n) == 0
  {
  }

  /**
   All items are answered and the answer is within the PDU if and only if all are readable and their heads, data
   and padding are within it. Larger answers are not refused: see `OversizedItemsAreAnswered`.
   */
  lemma FullAnswerWithinIff(mem: Memory, its: seq<Item>, pduLength: int)
    requires |its| <= MAX_VARS && 0 <= pduLength < 0x1_0000
    ensures AnsweredWithin(mem, its, |its|, pduLength)
            <==> (forall i :: 0 <= i < |its| ==> Readable(mem, its[i])) && 14 + BodySize(Sizes(its), |its|) <= pduLength
  {
    AllAnsweredIff(mem, its, |its|, pduLength);
  }

  /** A lone readable item is answered within the PDU if and only if it fits it with the head, or is exactly its size. */
  lemma LoneAnswerWithinIff(mem: Memory, it: Item, pduLength: int)
    requires Readable(mem, it) && MIN_PDU_SIZE <= pduLength < 0x1_0000
    ensures 14 + |ReplyBody(ReplyList(mem, [it], pduLength), 1)| <= pduLength
            <==> SizeOf(it) <= pduLength - 18 || SizeOf(it) == pduLength
  {
    hide ReplyBody, ReplyList, Readable, Charged;
    AnswerLength(mem, [it], pduLength);
    AnsweredUnfolds(mem, [it], pduLength);
    assert [it][..0] == [];
    assert Asks(mem, []) == [];
    OneItem(mem, it, pduLength);
    BodySizeNext([], Answered(Asks(mem, [it]), pduLength).sizes[0], 1);
    assert [] + Answered(Asks(mem, [it]), pduLength).sizes == Answered(Asks(mem, [it]), pduLength).sizes;
  }

  /** What the charged items take together. */
  function ChargedSum(mem: Memory, its: seq<Item>): nat {
    if its == [] then 0
    else
      var it := its[|its| - 1];
      ChargedSum(mem, its[..|its| - 1]) + (if Charged(mem, it) then SizeOf(it) else 0)
  }

  ghost predicate NoneOverPdu(mem: Memory, its: seq<Item>, pduLength: int) {
    var rs := ReplyList(mem, its, pduLength);
    forall i :: 0 <= i < |rs| ==> rs[i].code != CODE_DATA_OVER_PDU
  }

  /** No charged item brings the sum of the sizes to exactly the PDU length. */
  ghost predicate NeverExactly(mem: Memory, its: seq<Item>, pduLength: int) {
    forall i :: 0 <= i < |its| && Charged(mem, its[i]) ==> ChargedSum(mem, its[..i + 1]) != pduLength
  }

  lemma NeverExactlyNext(mem: Memory, its: seq<Item>, pduLength: int)
    requires its != []
    ensures var it := its[|its| - 1];
            NeverExactly(mem, its, pduLength) <==>
            NeverExactly(mem, its[..|its| - 1], pduLength) && (Charged(mem, it) ==> ChargedSum(mem, its) != pduLength)
  {
    hide Charged, ChargedSum;
    var before := its[..|its| - 1];
    assert its[..|its| - 1 + 1] == its;
    forall i | 0 <= i < |before| ensures its[..i + 1] == before[..i + 1] && its[i] == before[i] {
    }
    if NeverExactly(mem, its, pduLength) {
      forall i | 0 <= i < |before| && Charged(mem, before[i]) ensures ChargedSum(mem, before[..i + 1]) != pduLength {
        assert its[i] == before[i];
      }
    }
  }

  /**
   The check refuses an item of a request if and only if the sizes up to some charged item add up to exactly the
   PDU length: however large they are, no other sum is refused.
   */
  lemma {:induction false} NoneOverPduIff(mem: Memory, its: seq<Item>, pduLength: int)
    requires |its| <= MAX_VARS && 0 <= pduLength < 0x1_0000
    ensures NoneOverPdu(mem, its, pduLength) <==> NeverExactly(mem, its, pduLength)
    ensures NoneOverPdu(mem, its, pduLength) ==>
              LeftAfter(ReplyList(mem, its, pduLength), pduLength) == pduLength - ChargedSum(mem, its)
  {
    hide ReadItem, ReplyList, Readable, Charged, SizeOf, NeverExactly;
    if its == [] {
      ListOfNone(mem, pduLength);
      NothingCharged(mem, pduLength);
    } else {
      var before, it := its[..|its| - 1], its[|its| - 1];
      var rs := ReplyList(mem, before, pduLength);
      NoneOverPduIff(mem, before, pduLength);
      NeverExactlyNext(mem, its, pduLength);
      SizesDecide(mem, before, pduLength);
      ReplyListUnfolds(mem, its, pduLength);
      OneItem(mem, it, LeftAfter(rs, pduLength));
      var all := ReplyList(mem, its, pduLength);
      assert all[|rs|] == ReadItem(mem, it, LeftAfter(rs, pduLength));
      assert forall i :: 0 <= i < |rs| ==> rs[i] == all[i];
    }
  }

  lemma NothingCharged(mem: Memory, pduLength: int)
    ensures NeverExactly(mem, [], pduLength) && ChargedSum(mem, []) == 0
  {
  }

  lemma {:induction false} OutcomeCodes(mem: Memory, its: seq<Item>, pduLength: int, i: nat)
    requires |its| <= MAX_VARS && 0 <= pduLength < 0x1_0000 && i < |its|
    ensures var r := ReplyList(mem, its, pduLength)[i];
            Readable(mem, its[i]) && r.code != CODE_DATA_OVER_PDU ==> r.code == CODE_OK && |r.data| == SizeOf(its[i])
  {
    hide ReadItem, ReplyList, Readable, Charged, SizeOf;
    var before := its[..|its| - 1];
    ReplyListUnfolds(mem, its, pduLength);
    if i < |before| {
      OutcomeCodes(mem, before, pduLength, i);
    } else {
      SizesDecide(mem, before, pduLength);
      OneItem(mem, its[i], LeftAfter(ReplyList(mem, before, pduLength), pduLength));
    }
  }

  lemma SumReachesItem(mem: Memory, its: seq<Item>, i: nat)
    requires i < |its| && Charged(mem, its[i])
    ensures ChargedSum(mem, its[..i + 1]) >= SizeOf(its[i])
  {
    hide Charged, SizeOf;
    assert its[..i + 1][..i] == its[..i];
  }

  /** Items that are each larger than the PDU are all answered in full, in an answer that exceeds it. */
  lemma OversizedItemsAreAnswered(mem: Memory, its: seq<Item>, pduLength: int)
    requires 0 < |its| <= MAX_VARS && 0 <= pduLength < 0x1_0000
    requires forall i :: 0 <= i < |its| ==> Readable(mem, its[i]) && SizeOf(its[i]) > pduLength
    ensures var rs := ReplyList(mem, its, pduLength);
            && (forall i :: 0 <= i < |its| ==> rs[i].code == CODE_OK && |rs[i].data| == SizeOf(its[i]))
            && 14 + |ReplyBody(rs, |its|)| > pduLength
  {
    var rs := ReplyList(mem, its, pduLength);
    NoneOverPduIff(mem, its, pduLength);
    forall i | 0 <= i < |its| && Charged(mem, its[i]) ensures ChargedSum(mem, its[..i + 1]) != pduLength {
      SumReachesItem(mem, its, i);
    }
    hide ReplyList, ReplyBody, Charged, ChargedSum, Readable;
    assert NeverExactly(mem, its, pduLength);
    forall i | 0 <= i < |its| ensures rs[i].code == CODE_OK && |rs[i].data| == SizeOf(its[i]) {
      OutcomeCodes(mem, its, pduLength, i);
    }
    BodyBoundsItems(rs, |its|, 0);
  }

  /** 5000 bytes read over a PDU of 240 bytes: an answer that does not even fit an ISO packet. */
  lemma OversizedAnswer() returns (mem: Memory, it: Item)
    ensures Readable(mem, it) && SizeOf(it) == 5000
    ensures 14 + |ReplyBody(ReplyList(mem, [it], MIN_PDU_SIZE), 1)| > ISO_PAYLOAD_SIZE
  {
    var zeros: bytes := seq(5000, _ => 0);
    mem, it := map[Sys(0) := zeros], Item(WL_BYTE, 5000, 0, S7_AREA_PE, 0);
    assert Readable(mem, it);
    hide ReplyList, ReplyBody;
    OversizedItemsAreAnswered(mem, [it], MIN_PDU_SIZE);
    BodyBoundsItems(ReplyList(mem, [it], MIN_PDU_SIZE), 1, 0);
  }
}
