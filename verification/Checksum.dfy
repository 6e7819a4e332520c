/** Byte swapping and the Internet checksum (RFC 1071, section 1) of an echo packet. */
module Checksum {
  import opened S7Types

  // ---------------------------------------------------------------- byte order

  /** On a big-endian host values stand as they travel. */
  function SwapWord(littleEndian: bool, v: word): word {
    if littleEndian then v / 0x100 + v % 0x100 * 0x100 else v
  }

  function SwapDWord(littleEndian: bool, v: longword): longword {
    if littleEndian
    then v % 0x100 * 0x100_0000 + v / 0x100 % 0x100 * 0x1_0000 + v / 0x100 / 0x100 % 0x100 * 0x100 + v / 0x100 / 0x100 / 0x100
    else v
  }

  /** A word as its host keeps it in memory. */
  function WordBytes(littleEndian: bool, v: word): bytes {
    if littleEndian then [v % 0x100, v / 0x100] else [v / 0x100, v % 0x100]
  }

  function LongBytes(littleEndian: bool, v: longword): bytes {
    var b := [v / 0x100 / 0x100 / 0x100, v / 0x100 / 0x100 % 0x100, v / 0x100 % 0x100, v % 0x100];
    if littleEndian then [b[3], b[2], b[1], b[0]] else b
  }

  /** Swapping puts the high byte first in memory, on either kind of host, and undoes itself. */
  lemma SwapWordIsNetworkOrder(littleEndian: bool, v: word)
    ensures WordBytes(littleEndian, SwapWord(littleEndian, v)) == Be16(v)
    ensures SwapWord(littleEndian, v) as int == if littleEndian then v as int % 256 * 256 + v as int / 256 else v as int
    ensures SwapWord(littleEndian, SwapWord(littleEndian, v)) == v
  {
  }

  lemma LongOf(a: byte, b: byte, c: byte, d: byte, v: int)
    requires v == ((a as int * 0x100 + b) * 0x100 + c) * 0x100 + d
    ensures 0 <= v < LONG
    ensures v / 0x100 / 0x100 / 0x100 == a && v / 0x100 / 0x100 % 0x100 == b && v / 0x100 % 0x100 == c && v % 0x100 == d
  {
    assert v / 0x100 == (a as int * 0x100 + b) * 0x100 + c;
    assert v / 0x100 / 0x100 == a as int * 0x100 + b;
  }

  lemma SwapDWordIsNetworkOrder(littleEndian: bool, v: longword)
    ensures LongBytes(littleEndian, SwapDWord(littleEndian, v)) == LongBytes(false, v)
    ensures SwapDWord(littleEndian, SwapDWord(littleEndian, v)) == v
  {
    var y := v / 0x100;
    var z := y / 0x100;
    var a, b, c, d := z / 0x100, z % 0x100, y % 0x100, v % 0x100;
    assert v == 0x100 * y + d && y == 0x100 * z + c && z == 0x100 * a + b;
    if littleEndian { LongOf(d, c, b, a, SwapDWord(true, v)); }
  }

  /** The four bytes of a long word stand the other way round on a little-endian host, and as they are on the other. */
  lemma SwapDWordOnBytes(a: byte, b: byte, c: byte, d: byte)
    ensures var v := a as int * 0x100_0000 + b as int * 0x1_0000 + c as int * 0x100 + d as int;
            && 0 <= v < 0x1_0000_0000 && SwapDWord(false, v) == v
            && SwapDWord(true, v) == d as int * 0x100_0000 + c as int * 0x1_0000 + b as int * 0x100 + a as int
  {
    var v := a as int * 0x100_0000 + b as int * 0x1_0000 + c as int * 0x100 + d as int;
    LongOf(a, b, c, d, v);
    assert v / 0x100 / 0x100 == a as int * 0x100 + b as int;
    assert v % 0x100 == d;
  }

  // ---------------------------------------------------------------- the sum

  function Sum(ws: seq<word>): (s: nat)
    ensures s <= |ws| * 0xFFFF
  {
    if ws == [] then 0 else Sum(ws[..|ws| - 1]) + ws[|ws| - 1]
  }

  /** Adding the two halves. */
  function Fold(s: longword): longword {
    s / 0x1_0000 + s % 0x1_0000
  }

  /** The 16-bit one's complement sum the two folds leave. */
  function Folded(s: longword): word
    requires s <= 0xFFFF_0000
  {
    var once := Fold(s);
    (once + once / 0x1_0000) % 0x1_0000
  }

  function ChecksumOf(ws: seq<word>): word
    requires |ws| <= 0x1_0000
  {
    0xFFFF - Folded(Sum(ws))
  }

  class TRawSocketPinger {
    const SendPacket: array<word>

    constructor (size: nat)
      ensures SendPacket.Length == size && fresh(SendPacket)
    {
      SendPacket := new word[size];
    }

    /** The 32-bit sum of all words, folded twice and complemented; it cannot overflow. */
    method PacketChecksum() returns (checksum: word)
      requires SendPacket.Length <= 0x1_0000
      ensures checksum == ChecksumOf(SendPacket[..])
      ensures var s := Sum(SendPacket[..]);
              checksum as int == if s == 0 then 0xFFFF else if s % 0xFFFF == 0 then 0 else 0xFFFF - s % 0xFFFF
    {
      var total: longword := 0;
      var c := 0;
      while c < SendPacket.Length
        invariant 0 <= c <= SendPacket.Length && total == Sum(SendPacket[..c])
      {
        assert SendPacket[..c + 1][..c] == SendPacket[..c];
        assert Sum(SendPacket[..c + 1]) == total + SendPacket[c];
        total := (total + SendPacket[c]) % LONG;
        c := c + 1;
      }
      assert SendPacket[..SendPacket.Length] == SendPacket[..];
      total := total / 0x1_0000 + total % 0x1_0000;
      total := total + total / 0x1_0000;
      checksum := 0xFFFF - total % 0x1_0000;
      ChecksumIs(SendPacket[..]);
    }

    /** Puts the checksum in its zeroed field. */
    method StoreChecksum(field: nat)
      requires field < SendPacket.Length <= 0x1_0000
      modifies SendPacket
      ensures SendPacket[..] == old(SendPacket[..])[field := 0][field := ChecksumOf(old(SendPacket[..])[field := 0])]
      ensures ChecksumOf(SendPacket[..]) == 0
    {
      SendPacket[field] := 0;
      ghost var zeroed := SendPacket[..];
      assert zeroed == old(SendPacket[..])[field := 0];
      var checksum := PacketChecksum();
      SendPacket[field] := checksum;
      StoredChecksumVerifies(zeroed, field);
    }
  }

  // ---------------------------------------------------------------- what the folds keep

  lemma SumUpdate(ws: seq<word>, i: nat, x: word)
    requires i < |ws|
    ensures Sum(ws[i := x]) == Sum(ws) - ws[i] + x
  {
    var n := |ws| - 1;
    if i < n {
      assert ws[i := x][..n] == ws[..n][i := x];
      SumUpdate(ws[..n], i, x);
    } else {
      assert ws[i := x][..n] == ws[..n];
    }
  }

  /** The folds keep the sum modulo 65535, and only an all-zero packet folds to 0. */
  lemma FoldedIs(s: longword)
    requires s <= 0xFFFF_0000
    ensures Folded(s) % 0xFFFF == s % 0xFFFF
    ensures Folded(s) == 0 <==> s == 0
  {
    var hi, lo := s / 0x1_0000, s % 0x1_0000;
    assert s == hi * 0xFFFF + (hi + lo);
    Shift(hi + lo, hi);
    var once := hi + lo;
    if once >= 0x1_0000 { Shift(once - 0xFFFF, 1); }
  }

  lemma Shift(a: nat, k: nat)
    ensures (a + k * 0xFFFF) % 0xFFFF == a % 0xFFFF
  {
    var q, m := a / 0xFFFF, a % 0xFFFF;
    assert a + k * 0xFFFF == (q + k) * 0xFFFF + m;
    Remainder(a + k * 0xFFFF, q + k, m);
  }

  lemma Remainder(n: nat, q: nat, m: nat)
    requires n == q * 0xFFFF + m && m < 0xFFFF
    ensures n % 0xFFFF == m
  {
  }

  /** Nothing but zeros sums to 0; with `SumUpdate` that fixes the sum of every packet. */
  lemma {:induction false} SumOfZeros(ws: seq<word>)
    requires forall i :: 0 <= i < |ws| ==> ws[i] == 0
    ensures Sum(ws) == 0
  {
    if ws != [] { SumOfZeros(ws[..|ws| - 1]); }
  }

  /** The checksum in terms of the sum alone: what is missing to the next multiple of 65535, and 65535 for no sum at all. */
  lemma ChecksumIs(ws: seq<word>)
    requires |ws| <= 0x1_0000
    ensures var s := Sum(ws);
            ChecksumOf(ws) as int == if s == 0 then 0xFFFF else if s % 0xFFFF == 0 then 0 else 0xFFFF - s % 0xFFFF
  {
    hide Sum, Folded;
    FoldedIs(Sum(ws));
    FullIffMultiple(Folded(Sum(ws)));
    ModuloOfSmall(Folded(Sum(ws)));
  }

  lemma ModuloOfSmall(f: word)
    ensures f != 0xFFFF ==> f % 0xFFFF == f
  {
  }

  lemma FullIffMultiple(f: word)
    ensures f == 0xFFFF <==> f != 0 && f % 0xFFFF == 0
  {
  }

  /** A packet verifies exactly when its sum is a positive multiple of 65535. */
  lemma VerifiesIff(ws: seq<word>)
    requires |ws| <= 0x1_0000
    ensures ChecksumOf(ws) == 0 <==> Sum(ws) > 0 && Sum(ws) % 0xFFFF == 0
  {
    hide Sum, Folded;
    FoldedIs(Sum(ws));
    FullIffMultiple(Folded(Sum(ws)));
  }

  /** With the checksum in its zeroed field the packet verifies. */
  lemma StoredChecksumVerifies(ws: seq<word>, field: nat)
    requires field < |ws| <= 0x1_0000 && ws[field] == 0
    ensures ChecksumOf(ws[field := ChecksumOf(ws)]) == 0
  {
    var s, c := Sum(ws), ChecksumOf(ws);
    SumUpdate(ws, field, c);
    FoldedIs(s);
    VerifiesIff(ws[field := c]);
    Cancel(s, Folded(s));
    if s == 0 { assert c == 0xFFFF; }
  }

  lemma Cancel(s: nat, f: nat)
    requires s % 0xFFFF == f % 0xFFFF && f <= 0xFFFF
    ensures (s + (0xFFFF - f)) % 0xFFFF == 0
  {
    var q, p := s / 0xFFFF, f / 0xFFFF;
    assert s + (0xFFFF - f) == (q - p + 1) * 0xFFFF;
    if q >= p { Remainder(s + (0xFFFF - f), q - p + 1, 0); }
  }

  lemma ReplaceInMultiple(s: nat, w: word, x: word)
    requires s % 0xFFFF == 0 && s - w + x >= 0
    ensures (s - w + x) % 0xFFFF == 0 <==> x % 0xFFFF == w % 0xFFFF
  {
    var q := s / 0xFFFF;
    assert s == q * 0xFFFF;
    if x % 0xFFFF == w % 0xFFFF {
      var d := x / 0xFFFF - w / 0xFFFF;
      assert s - w + x == (q + d) * 0xFFFF;
      if q + d >= 0 { Remainder(s - w + x, q + d, 0); }
    }
  }

  /**
   A changed word goes unnoticed exactly when it is the same modulo 65535, that is when 0 and 0xFFFF are
   exchanged, and something is left that is not 0: an all-zero packet never verifies.
   */
  lemma ChangeUnnoticedIff(ws: seq<word>, i: nat, x: word)
    requires i < |ws| <= 0x1_0000 && ChecksumOf(ws) == 0
    ensures ChecksumOf(ws[i := x]) == 0 <==>
            x == ws[i] || (x % 0xFFFF == 0 && ws[i] % 0xFFFF == 0 && Sum(ws[i := x]) > 0)
  {
    hide Sum, ChecksumOf;
    VerifiesIff(ws);
    VerifiesIff(ws[i := x]);
    SumUpdate(ws, i, x);
    ReplaceInMultiple(Sum(ws), ws[i], x);
    SameModulo(x, ws[i]);
  }

  lemma SameModulo(a: word, b: word)
    ensures a % 0xFFFF == b % 0xFFFF <==> a == b || (a % 0xFFFF == 0 && b % 0xFFFF == 0)
  {
  }

  // ---------------------------------------------------------------- either byte order gives the same packet

  function Swapped(ws: seq<word>): (r: seq<word>)
    ensures |r| == |ws|
  {
    seq(|ws|, i requires 0 <= i < |ws| => SwapWord(true, ws[i]))
  }

  /** Swapping is multiplying by 256, modulo 65535. */
  lemma {:induction false} SwappedSum(ws: seq<word>) returns (k: nat)
    ensures Sum(Swapped(ws)) + k * 0xFFFF == Sum(ws) * 0x100
    ensures Sum(Swapped(ws)) == 0 <==> Sum(ws) == 0
  {
    if ws == [] {
      k := 0;
    } else {
      var before, last := ws[..|ws| - 1], ws[|ws| - 1];
      assert Swapped(ws)[..|ws| - 1] == Swapped(before);
      var j := SwappedSum(before);
      k := j + last / 0x100;
      assert SwapWord(true, last) as int + last as int / 0x100 * 0xFFFF == last as int * 0x100;
    }
  }

  lemma SwapFolded(f: word, g: word, s: nat, t: nat, k: nat)
    requires t + k * 0xFFFF == s * 0x100 && f % 0xFFFF == s % 0xFFFF && g % 0xFFFF == t % 0xFFFF
    requires (f == 0 <==> s == 0) && (g == 0 <==> t == 0) && (s == 0 <==> t == 0)
    ensures g == SwapWord(true, f)
  {
    var h := SwapWord(true, f);
    assert h + f / 0x100 * 0xFFFF == f * 0x100;
    Shift(h, f / 0x100);
    Shift(t, k);
    TimesModulo(f, s);
    assert h % 0xFFFF == g % 0xFFFF;
    SameModulo(h, g);
  }

  lemma TimesModulo(a: nat, b: nat)
    requires a % 0xFFFF == b % 0xFFFF
    ensures (a * 0x100) % 0xFFFF == (b * 0x100) % 0xFFFF
  {
    Shift(a % 0xFFFF * 0x100, a / 0xFFFF * 0x100);
    Shift(b % 0xFFFF * 0x100, b / 0xFFFF * 0x100);
    assert a * 0x100 == a % 0xFFFF * 0x100 + a / 0xFFFF * 0x100 * 0xFFFF;
    assert b * 0x100 == b % 0xFFFF * 0x100 + b / 0xFFFF * 0x100 * 0xFFFF;
  }

  lemma SwapComplement(f: word)
    ensures SwapWord(true, 0xFFFF - f) == 0xFFFF - SwapWord(true, f)
  {
  }

  /** Summing the words in the other byte order gives the checksum in that order: the same bytes on the wire. */
  lemma ByteOrderIndependent(ws: seq<word>)
    requires |ws| <= 0x1_0000
    ensures ChecksumOf(Swapped(ws)) == SwapWord(true, ChecksumOf(ws))
  {
    hide Sum, Folded, Swapped, SwapWord;
    SwapComplement(Folded(Sum(ws)));
    var k := SwappedSum(ws);
    FoldedIs(Sum(ws));
    FoldedIs(Sum(Swapped(ws)));
    SwapFolded(Folded(Sum(ws)), Folded(Sum(Swapped(ws))), Sum(ws), Sum(Swapped(ws)), k);
  }
}
