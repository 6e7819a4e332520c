/** Printing integers: the digit loop that writes backwards, the reversal in place, and padding with zeros. */
module TextNumbers {
  import opened Arithmetic
  import opened S7Types

  const INT_MIN := -0x8000_0000
  const INT_MAX := 0x7FFF_FFFF

  type int32 = x: int | INT_MIN <= x <= INT_MAX

  const NUL := '\0'

  function Abs(x: int): nat {
    if x < 0 then -x else x
  }

  /** C division, which drops the fraction. */
  function TruncDiv(a: int, b: int): int
    requires b > 0
  {
    if a < 0 then -(-a / b) else a / b
  }

  lemma {:induction false} ProductBounds(q: nat, b: nat)
    requires b >= 2
    ensures 2 * q <= q * b && (q > 0 ==> b <= q * b)
  {
    if q > 0 {
      ProductBounds(q - 1, b);
      assert q * b == (q - 1) * b + b;
    }
  }

  lemma DivMod(n: nat, b: nat)
    requires b >= 2
    ensures n == n / b * b + n % b && 0 <= n % b < b
    ensures 2 * (n / b) <= n && (n / b == 0 <==> n < b)
  {
    var q := n / b;
    ProductBounds(q, b);
  }

  function Quot(n: nat, b: nat): (q: nat)
    requires b >= 2
    ensures 2 * q <= n && (q == 0 <==> n < b)
  {
    DivMod(n, b);
    n / b
  }

  function Rem(n: nat, b: nat): (r: nat)
    requires b >= 2
    ensures r < b && n == Quot(n, b) * b + r
  {
    DivMod(n, b);
    n % b
  }

  function DigitChar(d: nat): char
    requires d < 36
  {
    if d < 10 then '0' + d as char else 'a' + (d - 10) as char
  }

  /** Entry of the digit table, which is mirrored round its middle: a negative remainder gives the same digit. */
  function TableChar(r: int): char
    requires -36 < r < 36
  {
    DigitChar(Abs(r))
  }

  predicate ValidBase(base: int) {
    2 <= base <= 36
  }

  function DigitsOf(n: nat, base: int): (s: string)
    requires ValidBase(base)
    ensures s != []
  {
    if n < base then [DigitChar(n)] else DigitsOf(Quot(n, base), base) + [DigitChar(Rem(n, base))]
  }

  /** What is printed for a value: the sign when it is negative, then the digits of its magnitude. */
  function Text(value: int, base: int): string {
    if !ValidBase(base) then "" else if value < 0 then "-" + DigitsOf(-value, base) else DigitsOf(value, base)
  }

  // ---------------------------------------------------------------- reading back

  function DigitValue(c: char): Option<nat> {
    if '0' <= c <= '9' then Some((c - '0') as nat)
    else if 'a' <= c <= 'z' then Some((c - 'a') as nat + 10)
    else None
  }

  function ReadOneMore(before: Option<nat>, c: char, base: int): Option<nat>
    requires ValidBase(base)
  {
    var d := DigitValue(c);
    if before.Some? && d.Some? && d.value < base then Some(before.value * base + d.value) else None
  }

  /** Value of a string of digits of the base, if it is one. */
  function ReadDigits(s: string, base: int): Option<nat>
    requires ValidBase(base)
  {
    if s == [] then Some(0) else ReadOneMore(ReadDigits(s[..|s| - 1], base), s[|s| - 1], base)
  }

  /** An integer: an optional minus and at least one digit. */
  function Read(s: string, base: int): Option<int>
    requires ValidBase(base)
  {
    if s == [] || s == "-" then None
    else if s[0] == '-' then
      match ReadDigits(s[1..], base) { case None => None case Some(v) => Some(-(v as int)) }
    else match ReadDigits(s, base) { case None => None case Some(v) => Some(v) }
  }

  lemma DigitRoundTrip(d: nat)
    requires d < 36
    ensures DigitValue(DigitChar(d)) == Some(d)
    ensures DigitChar(d) != '-' && DigitChar(d) != NUL && (DigitChar(d) == '0' <==> d == 0)
  {
  }

  lemma {:induction false} DigitsReadBack(n: nat, base: int)
    requires ValidBase(base)
    ensures ReadDigits(DigitsOf(n, base), base) == Some(n)
    ensures DigitsOf(n, base)[0] != '-'
    ensures DigitsOf(n, base)[0] == '0' ==> n == 0 && DigitsOf(n, base) == "0"
  {
    hide Quot, Rem, DigitValue, DigitChar;
    if n < base {
      DigitRoundTrip(n);
      assert [DigitChar(n)][..0] == [];
    } else {
      var q, r := Quot(n, base), Rem(n, base);
      DigitsReadBack(q, base);
      DigitRoundTrip(r);
      var s := DigitsOf(n, base);
      assert s[..|s| - 1] == DigitsOf(q, base) && s[|s| - 1] == DigitChar(r);
    }
  }

  /**
   What is printed reads back as the value, in every base; it carries a sign exactly when the value is
   negative, and a leading zero only as the one digit of zero.
   */
  lemma TextReadsBack(value: int, base: int)
    requires ValidBase(base)
    ensures Read(Text(value, base), base) == Some(value)
    ensures Text(value, base)[0] == '-' <==> value < 0
    ensures var digits := if value < 0 then Text(value, base)[1..] else Text(value, base);
            digits != [] && (digits[0] == '0' ==> value == 0 && digits == "0")
  {
    hide DigitsOf, ReadDigits;
    DigitsReadBack(Abs(value), base);
    if value < 0 { assert Text(value, base)[1..] == DigitsOf(-value, base); }
  }

  /** So no two values print alike. */
  lemma TextInjective(v: int, w: int, base: int)
    requires ValidBase(base) && Text(v, base) == Text(w, base)
    ensures v == w
  {
    TextReadsBack(v, base);
    TextReadsBack(w, base);
  }

  /** Digit by digit: the last one stands for the remainder, those before it are the text of the quotient. */
  lemma TextByDigits(n: nat, base: int)
    requires 2 <= base <= 36
    ensures Text(n, base) == (if n < base then "" else Text(n / base, base)) + ["0123456789abcdefghijklmnopqrstuvwxyz"[n % base]]
    ensures n > 0 ==> Text(-(n as int), base) == "-" + Text(n, base)
  {
    DivMod(n, base);
    if n < base { QuotientIs(n, base, 0, n); }
    DigitIsTabled(n % base);
  }

  lemma DigitIsTabled(d: nat)
    requires d < 36
    ensures DigitChar(d) == "0123456789abcdefghijklmnopqrstuvwxyz"[d]
  {
  }

  // ---------------------------------------------------------------- how long it gets

  function Pow2(k: nat): nat {
    if k == 0 then 1 else 2 * Pow2(k - 1)
  }

  lemma {:induction false} DigitsBound(n: nat, base: int, k: nat)
    requires ValidBase(base) && k >= 1 && n < Pow2(k)
    ensures |DigitsOf(n, base)| <= k
  {
    if n >= base {
      assert k > 1;
      DigitsBound(Quot(n, base), base, k - 1);
    }
  }

  lemma TextBound(value: int32, base: int)
    ensures |Text(value, base)| <= 33
    ensures forall i :: 0 <= i < |Text(value, base)| ==> Text(value, base)[i] != NUL
  {
    if ValidBase(base) {
      MagnitudeBound(value, base);
      NoNul(Abs(value), base);
    }
  }

  lemma {:induction false} NoNul(n: nat, base: int)
    requires ValidBase(base)
    ensures forall i :: 0 <= i < |DigitsOf(n, base)| ==> DigitsOf(n, base)[i] != NUL
  {
    hide Quot, Rem;
    if n >= base { NoNul(Quot(n, base), base); }
  }

  // ---------------------------------------------------------------- the digit loop and the reversal

  function Reversed(s: string): string {
    if s == [] then [] else [s[|s| - 1]] + Reversed(s[..|s| - 1])
  }

  lemma {:induction false} ReversedAt(s: string)
    ensures |Reversed(s)| == |s|
    ensures forall k :: 0 <= k < |s| ==> Reversed(s)[k] == s[|s| - 1 - k]
  {
    if s != [] { ReversedAt(s[..|s| - 1]); }
  }

  /** The buffer holds `text` and the NUL that ends it. */
  ghost predicate Holds(buffer: seq<char>, text: string) {
    |text| < |buffer| && buffer[..|text|] == text && buffer[|text|] == NUL
  }

  lemma DigitStep(value: int32, base: int)
    requires ValidBase(base)
    ensures var q := TruncDiv(value, base);
            && INT_MIN <= q <= INT_MAX && Abs(q) == Quot(Abs(value), base) && -base < value - q * base < base
            && Abs(value - q * base) == Rem(Abs(value), base)
            && (q < 0 ==> value < 0) && (q > 0 ==> value > 0) && (q != 0 ==> Abs(q) < Abs(value))
  {
    var q := Quot(Abs(value), base);
    assert Abs(value) == q * base + Rem(Abs(value), base);
    if value < 0 { assert (-q) * base == -(q * base); }
  }

  lemma DigitsNext(n: nat, base: int)
    requires ValidBase(base)
    ensures DigitsOf(n, base) == Rest(Quot(n, base), base) + [DigitChar(Rem(n, base))]
  {
    if n < base {
      assert n == 0 * base + Rem(n, base);
      assert [] + [DigitChar(n)] == [DigitChar(n)];
    }
  }

  /** Digits of what is left, or none. */
  function Rest(n: nat, base: int): string
    requires ValidBase(base)
  {
    if n == 0 then [] else DigitsOf(n, base)
  }

  /** The do-while loop: digits of the magnitude, last one first, and whether the value was negative. */
  method WriteDigits(value0: int32, result: array<char>, base: int) returns (ptr: nat, negative: bool)
    requires ValidBase(base) && result.Length >= |DigitsOf(Abs(value0), base)|
    modifies result
    ensures ptr == |DigitsOf(Abs(value0), base)| && Reversed(result[..ptr]) == DigitsOf(Abs(value0), base) && (negative <==> value0 < 0)
  {
    hide DigitsOf, TruncDiv, DigitChar, Reversed, Quot, Rem;
    ghost var digits := DigitsOf(Abs(value0), base);
    DigitStep(value0, base);
    DigitsNext(Abs(value0), base);
    var tmp_value: int32 := value0;
    var value: int32 := TruncDiv(value0, base);
    result[0] := TableChar(tmp_value - value * base);
    ptr := 1;
    ReversedOne(result[..1]);
    while value != 0
      invariant 1 <= ptr && ptr + |Rest(Abs(value), base)| == |digits|
      invariant digits == Rest(Abs(value), base) + Reversed(result[..ptr])
      invariant (value < 0 ==> value0 < 0) && (value > 0 ==> value0 > 0) && (tmp_value < 0 <==> value0 < 0)
      decreases Abs(value)
    {
      tmp_value := value;
      DigitStep(value, base);
      DigitsNext(Abs(value), base);
      value := TruncDiv(value, base);
      ghost var before := result[..ptr];
      result[ptr] := TableChar(tmp_value - value * base);
      assert result[..ptr + 1] == before + [result[ptr]];
      ReversedMore(before, result[ptr]);
      ptr := ptr + 1;
    }
    negative := tmp_value < 0;
    assert Rest(0, base) + Reversed(result[..ptr]) == Reversed(result[..ptr]);
  }

  /** Turns the first `n` characters round, swapping from both ends. */
  method ReverseStart(result: array<char>, n: nat)
    requires n <= result.Length
    modifies result
    ensures result[..n] == Reversed(old(result[..n])) && result[n..] == old(result[n..])
  {
    hide Reversed;
    ghost var was := result[..];
    var ptr1, ptr := 0, n - 1;
    while ptr1 < ptr
      invariant 0 <= ptr1 && ptr1 + ptr == n - 1 && ptr1 <= ptr + 1
      invariant forall k :: 0 <= k < ptr1 ==> result[k] == was[n - 1 - k] && result[n - 1 - k] == was[k]
      invariant forall k :: ptr1 <= k <= ptr ==> result[k] == was[k]
      invariant forall k :: n <= k < result.Length ==> result[k] == was[k]
    {
      result[ptr1], result[ptr] := result[ptr], result[ptr1];
      ptr1, ptr := ptr1 + 1, ptr - 1;
    }
    ghost var head := was[..n];
    assert head == old(result[..n]);
    ReversedAt(head);
    assert forall k :: 0 <= k < n ==> result[k] == was[n - 1 - k] == head[n - 1 - k];
    assert result[..n] == Reversed(head);
    assert result[n..] == was[n..];
  }

  /** Writes the digits backwards, adds the sign and the NUL that ends them, and turns them round in place. */
  method itoa(value: int32, result: array<char>, base: int)
    requires result.Length > |Text(value, base)|
    modifies result
    ensures var text := Text(value, base);
            result[..|text|] == text && result[|text|] == '\0' && (base < 2 || base > 36 ==> text == "")
  {
    if !ValidBase(base) {
      result[0] := NUL;
      return;
    }
    hide DigitsOf, Reversed;
    var ptr, negative := WriteDigits(value, result, base);
    ghost var written := result[..ptr];
    if negative {
      result[ptr] := '-';
      assert result[..ptr + 1] == written + ['-'];
      ReversedMore(written, '-');
      ptr := ptr + 1;
    }
    result[ptr] := NUL;
    ghost var all := result[..ptr];
    assert all == if negative then written + ['-'] else written;
    ReverseStart(result, ptr);
    ReversedAt(all);
    assert result[ptr..][0] == NUL;
  }

  lemma ReversedOne(s: string)
    requires |s| == 1
    ensures Reversed(s) == s
  {
    assert s[..0] == [] && Reversed([]) == [];
  }

  lemma MagnitudeBound(value: int32, base: int)
    requires ValidBase(base)
    ensures |DigitsOf(Abs(value), base)| <= 32
  {
    assert Pow2(32) == 0x1_0000_0000 by { assert Pow2(8) == 0x100 && Pow2(16) == 0x1_0000 && Pow2(24) == 0x100_0000; }
    DigitsBound(Abs(value), base, 32);
  }

  lemma ReversedMore(s: string, c: char)
    ensures Reversed(s + [c]) == [c] + Reversed(s)
  {
    assert (s + [c])[..|s|] == s;
  }

  // ---------------------------------------------------------------- padding

  function Zeros(n: nat): (z: string)
    ensures |z| == n
  {
    seq(n, _ => '0')
  }

  /** Zeros put in front of the text up to length `len`, 64 at most. */
  function Padded(value: int, base: int, len: int): string {
    var text := Text(value, base);
    var delta := len - |text|;
    Zeros(if len <= 0 || delta <= 0 then 0 else if delta <= 64 then delta else 64) + text
  }

  /** Length of the text a buffer holds. */
  method Strlen(a: array<char>, ghost text: string) returns (n: nat)
    requires Holds(a[..], text) && forall i :: 0 <= i < |text| ==> text[i] != NUL
    ensures n == |text|
  {
    n := 0;
    while a[n] != NUL
      invariant 0 <= n <= |text|
      decreases |text| - n
    {
      assert a[..][..|text|][n] == a[n];
      n := n + 1;
    }
  }

  /** Copies a text and its NUL behind the first `at` characters. */
  method Strcat(result: array<char>, at: nat, a: array<char>, ghost text: string)
    requires a != result && Holds(a[..], text) && (forall i :: 0 <= i < |text| ==> text[i] != NUL)
    requires at + |text| < result.Length
    modifies result
    ensures Holds(result[..], old(result[..at]) + text)
  {
    ghost var head := result[..at];
    var i := 0;
    while a[i] != NUL
      modifies result
      invariant 0 <= i <= |text| && Holds(a[..], text)
      invariant result[..at + i] == head + text[..i]
      decreases |text| - i
    {
      assert a[..][..|text|][i] == a[i] && a[..][|text|] == NUL;
      result[at + i] := a[i];
      i := i + 1;
    }
    result[at + i] := NUL;
    assert text[..|text|] == text;
  }

  /** Prints with leading zeros into the caller's buffer. */
  method NumToString(Value: int32, Base: int, Len: int, Result: array<char>)
    requires Result.Length > |Padded(Value, Base, Len)| && Result.Length > Len - |Text(Value, Base)|
    modifies Result
    ensures Holds(Result[..], Padded(Value, Base, Len))
    ensures var text := Text(Value, Base);
            var missing := if Len > |text| then Len - |text| else 0;
            var zeros := if missing > 64 then 64 else missing;
            && (forall k :: 0 <= k < zeros ==> Result[k] == '0')
            && Result[zeros..zeros + |text|] == text && Result[zeros + |text|] == '\0'
  {
    hide Text;
    var CNumber := new char[64];
    ghost var text := Text(Value, Base);
    TextBound(Value, Base);
    itoa(Value, CNumber, Base);
    assert Holds(CNumber[..], text);
    var Length := Strlen(CNumber, text);
    var Delta := Len - Length;
    var at := 0;
    if Len > 0 && Delta > 0 {
      WritePad(Result, Delta);
      at := if Delta < 64 then Delta else 64;
    }
    assert Result[..at] == Zeros(at);
    Strcat(Result, at, CNumber, text);
    ghost var all := Zeros(at) + text;
    assert forall k :: 0 <= k < |all| ==> Result[k] == Result[..][..|all|][k] == all[k];
  }

  /** `strncpy` of a pad of 64 zeros, then the NUL. */
  method WritePad(result: array<char>, delta: nat)
    requires delta < result.Length
    modifies result
    ensures forall k :: 0 <= k <= delta ==> result[k] == if k < 64 && k < delta then '0' else NUL
  {
    var i := 0;
    while i < delta
      invariant 0 <= i <= delta
      invariant forall k :: 0 <= k < i ==> result[k] == if k < 64 then '0' else NUL
    {
      result[i] := if i < 64 then '0' else NUL;
      i := i + 1;
    }
    result[delta] := NUL;
  }

  /** Padding gives length `len` or the text's own, whichever is more, as far as the pad of 64 reaches. */
  lemma PaddedLength(value: int32, base: int, len: int)
    requires len <= 64 + |Text(value, base)|
    ensures |Padded(value, base, len)| == Max(if len > 0 then len else 0, |Text(value, base)|)
  {
  }

  lemma ReadZero(base: int)
    requires ValidBase(base)
    ensures ReadOneMore(Some(0), '0', base) == Some(0)
  {
  }

  lemma {:induction false} ZerosKeepDigits(k: nat, s: string, base: int)
    requires ValidBase(base)
    ensures ReadDigits(Zeros(k) + s, base) == ReadDigits(s, base)
    decreases k + |s|
  {
    hide ReadOneMore;
    var z := Zeros(k) + s;
    if s != [] {
      assert z[..|z| - 1] == Zeros(k) + s[..|s| - 1];
      ZerosKeepDigits(k, s[..|s| - 1], base);
    } else if k > 0 {
      assert z[..k - 1] == Zeros(k - 1) + [] && z[k - 1] == '0';
      ZerosKeepDigits(k - 1, [], base);
      ReadZero(base);
    } else {
      assert z == s;
    }
  }

  lemma {:induction false} MinusIsNoDigit(s: string, i: nat, base: int)
    requires ValidBase(base) && i < |s| && s[i] == '-'
    ensures ReadDigits(s, base) == None
  {
    if i < |s| - 1 { MinusIsNoDigit(s[..|s| - 1], i, base); }
  }

  /** Padding keeps the value exactly when it puts nothing in front of a minus sign. */
  lemma PaddingKeepsValueIff(value: int32, base: int, len: int)
    requires ValidBase(base)
    ensures Read(Padded(value, base, len), base) == Some(value) <==> value >= 0 || len <= |Text(value, base)|
  {
    hide ReadDigits, DigitsOf;
    var text := Text(value, base);
    var k := |Padded(value, base, len)| - |text|;
    TextReadsBack(value, base);
    DigitsReadBack(Abs(value), base);
    if k == 0 {
      assert Zeros(0) + text == text;
    } else if value >= 0 {
      ZerosKeepDigits(k, text, base);
    } else {
      MinusIsNoDigit(Padded(value, base, len), k, base);
    }
  }
}
