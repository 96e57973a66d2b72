/**
 Numbers as hexadecimal strings, at any unsigned width, and the byte order of numbers on the wire.
 */
module HexCodec {
  import opened Tracees

  // ---------- arithmetic ----------

  function Pow(base: nat, k: nat): (r: nat)
    ensures base > 0 ==> r > 0
  {
    if k == 0 then 1 else base * Pow(base, k - 1)
  }

  lemma FartherMultiple(a: nat, b: nat, m: nat)
    ensures a < b ==> b * m >= a * m + m
  {
    if a < b {
      var d: nat := b - a - 1;
      assert b == a + 1 + d && d * m >= 0;
      assert (a + 1 + d) * m == a * m + m + d * m;
    }
  }

  lemma RemainderIsUnique(n: nat, q: nat, r: nat, m: nat)
    requires n == q * m + r && r < m
    ensures n % m == r
  {
    assert n == n / m * m + n % m;
    FartherMultiple(q, n / m, m);
    FartherMultiple(n / m, q, m);
  }

  lemma ScaledSum(q: nat, m: nat, r: nat, base: nat)
    ensures (q * m + r) * base == (q * base) * m + r * base
  {
    assert (q * m) * base == (q * base) * m;
  }

  lemma GatheredMultiples(a: nat, b: nat, c: nat, m: nat)
    ensures (a + b + c) * m == a * m + b * m + c * m
  {
  }

  lemma Division(n: nat, m: nat)
    requires m > 0
    ensures n == n / m * m + n % m && n % m < m
  {
  }

  /** A truncating shift and a truncating addition give the truncated sum. */
  lemma ShiftAndAdd(n: nat, d: nat, base: nat, m: nat)
    requires m > 0
    ensures (n % m * base % m + d) % m == (n * base + d) % m
  {
    var r, q := n % m, n / m;
    var shifted := r * base;
    var k, low := shifted / m, shifted % m;
    var sum := low + d;
    var rest := sum % m;
    Division(n, m);
    Division(shifted, m);
    Division(sum, m);
    ScaledSum(q, m, r, base);
    GatheredMultiples(q * base, k, sum / m, m);
    RemainderIsUnique(n * base + d, q * base + k + sum / m, rest, m);
  }

  // ---------- hexadecimal ----------

  const HEX_DIGITS: string := "0123456789abcdef"

  predicate IsHex(c: char) { '0' <= c <= '9' || 'a' <= c <= 'f' || 'A' <= c <= 'F' }

  function HexValue(c: char): nat
    requires IsHex(c)
  {
    if c <= '9' then c as int - '0' as int
    else if c <= 'F' then 10 + c as int - 'A' as int
    else 10 + c as int - 'a' as int
  }

  predicate AllHex(s: string) { forall i :: 0 <= i < |s| ==> IsHex(s[i]) }

  /** The number a string of digits stands for, most significant digit first. */
  function Number(s: string): nat
    requires AllHex(s)
  {
    if s == [] then 0 else Number(s[..|s| - 1]) * 16 + HexValue(s[|s| - 1])
  }

  /** The digits of a number, most significant first. */
  function Digits(n: nat): (s: string)
    ensures s != []
    decreases n
  {
    if n < 16 then [HEX_DIGITS[n]] else Digits(n / 16) + [HEX_DIGITS[n % 16]]
  }

  function WithoutPrefix(s: string): string {
    if |s| >= 2 && (s[..2] == "0x" || s[..2] == "0X") then s[2..] else s
  }

  /** What parsing has to answer: the value of the digits, truncated to the width. */
  function Parsed(s: string, width: nat): Option<nat> {
    var digits := WithoutPrefix(s);
    if digits == [] || !AllHex(digits) then None else Some(Number(digits) % Pow(2, width))
  }

  lemma NumberOneMore(s: string, c: char)
    requires AllHex(s) && IsHex(c)
    ensures AllHex(s + [c]) && Number(s + [c]) == Number(s) * 16 + HexValue(c)
  {
    assert (s + [c])[..|s|] == s;
  }

  lemma NumberStep(digits: string, j: nat, result: nat, m: nat)
    requires j < |digits| && AllHex(digits[..j]) && IsHex(digits[j]) && m > 0 && result == Number(digits[..j]) % m
    ensures AllHex(digits[..j + 1])
    ensures (result * 16 % m + HexValue(digits[j])) % m == Number(digits[..j + 1]) % m
  {
    NumberOneMore(digits[..j], digits[j]);
    assert digits[..j + 1] == digits[..j] + [digits[j]];
    ShiftAndAdd(Number(digits[..j]), HexValue(digits[j]), 16, m);
  }

  method DigitValue(c: char) returns (digit: Option<nat>)
    ensures digit == if IsHex(c) then Some(HexValue(c)) else None
  {
    if '0' <= c <= '9' {
      digit := Some(c as int - '0' as int);
    } else if 'a' <= c <= 'f' {
      digit := Some(10 + c as int - 'a' as int);
    } else if 'A' <= c <= 'F' {
      digit := Some(10 + c as int - 'A' as int);
    } else {
      digit := None;
    }
  }

  method HexStrToNum(s: string, width: nat) returns (r: Option<nat>)
    ensures r == Parsed(s, width)
  {
    var start := 0;
    if |s| >= 2 {
      var prefix := s[..2];
      if prefix == "0x" || prefix == "0X" { start := 2; }
    }
    if start >= |s| { return None; }
    ghost var digits := s[start..];
    assert digits == WithoutPrefix(s);
    var m := Pow(2, width);
    var result := 0;
    assert 0 % m == 0 by { RemainderIsUnique(0, 0, 0, m); }
    for i := start to |s|
      invariant AllHex(digits[..i - start])
      invariant result == Number(digits[..i - start]) % m
    {
      assert s[i] == digits[i - start];
      var digit := DigitValue(s[i]);
      if digit.None? { return None; }
      NumberStep(digits, i - start, result, m);
      result := result * 16 % m;
      result := (result + digit.value) % m;
    }
    assert digits[..|s| - start] == digits;
    return Some(result);
  }

  function Reverse(s: string): (r: string)
    ensures |r| == |s|
  {
    if s == [] then [] else [s[|s| - 1]] + Reverse(s[..|s| - 1])
  }

  /** The digits still to come in the loop. */
  ghost function Pending(n: nat): string { if n > 0 then Digits(n) else [] }

  lemma PendingLast(n: nat)
    requires n > 0
    ensures Pending(n) == Pending(n / 16) + [HEX_DIGITS[n % 16]]
  {
  }

  lemma ReverseOneMore(s: string, c: char)
    ensures Reverse(s + [c]) == [c] + Reverse(s)
  {
    assert (s + [c])[..|s|] == s;
  }

  lemma Regroup(a: string, b: string, c: string)
    ensures a + (b + c) == (a + b) + c
  {
  }

  lemma NibbleStep(n: nat, hex: string)
    requires n > 0
    ensures Pending(n / 16) + Reverse(hex + [HEX_DIGITS[n % 16]]) == Pending(n) + Reverse(hex)
  {
    var c := HEX_DIGITS[n % 16];
    PendingLast(n);
    ReverseOneMore(hex, c);
    Regroup(Pending(n / 16), [c], Reverse(hex));
  }

  method NumToHexStr(num: nat, withPrefix: bool) returns (s: string)
    ensures s == (if withPrefix then "0x" else "") + Digits(num)
  {
    if num == 0 {
      if withPrefix { return "0x0"; } else { return "0"; }
    }
    var hex := NibblesBackwards(num);
    hex := Reverse(hex);
    s := if withPrefix then "0x" + hex else hex;
  }

  // The loop from the low nibble up
  method NibblesBackwards(num: nat) returns (hex: string)
    requires num > 0
    ensures Reverse(hex) == Digits(num)
  {
    hex := [];
    var n := num;
    while n > 0
      invariant Pending(n) + Reverse(hex) == Digits(num)
    {
      var nibble := n % 16;
      NibbleStep(n, hex);
      hex := hex + [HEX_DIGITS[nibble]];
      n := n / 16;
    }
  }

  /** The lower-case digits. */
  predicate IsLowerHex(c: char) { '0' <= c <= '9' || 'a' <= c <= 'f' }

  lemma OneDigit(d: nat)
    requires d < 16
    ensures IsHex(HEX_DIGITS[d]) && IsLowerHex(HEX_DIGITS[d]) && HexValue(HEX_DIGITS[d]) == d
    ensures d > 0 ==> HEX_DIGITS[d] != '0'
  {
  }

  /** Which characters are digits, and what they stand for. */
  lemma HexAlphabet(c: char, d: nat)
    requires d < 16
    ensures IsHex(c) <==> c in "0123456789abcdefABCDEF"
    ensures c == "0123456789abcdef"[d] || c == "0123456789ABCDEF"[d] ==> IsHex(c) && HexValue(c) == d
  {
  }

  /** The text stands for the number, in lower-case digits without a leading zero. */
  ghost predicate Canonical(s: string, n: nat) {
    && s != [] && AllHex(s) && Number(s) == n
    && (|s| > 1 ==> s[0] != '0')
    && forall i :: 0 <= i < |s| ==> IsLowerHex(s[i])
  }

  lemma CanonicalOneMore(s: string, q: nat, d: nat)
    requires Canonical(s, q) && q > 0 && d < 16
    ensures Canonical(s + [HEX_DIGITS[d]], q * 16 + d)
  {
    OneDigit(d);
    NumberOneMore(s, HEX_DIGITS[d]);
    if |s| == 1 {
      assert s == [] + [s[0]];
      NumberOneMore([], s[0]);
    }
  }

  /** The digits of a number stand for it, and are lower-case digits without a leading zero. */
  lemma {:induction false} DigitsAreCanonical(n: nat)
    ensures Canonical(Digits(n), n)
    decreases n
  {
    if n < 16 {
      OneDigitIsCanonical(n);
    } else {
      DigitsAreCanonical(n / 16);
      CanonicalOneMore(Digits(n / 16), n / 16, n % 16);
    }
  }

  lemma {:induction false} LeadingDigitCounts(s: string)
    requires s != [] && AllHex(s) && s[0] != '0'
    ensures Number(s) > 0
  {
    if |s| > 1 { LeadingDigitCounts(s[..|s| - 1]); }
  }

  lemma Sixteenths(n: nat, q: nat, d: nat)
    requires n == q * 16 + d && d < 16
    ensures n / 16 == q && n % 16 == d
  {
  }

  lemma OneDigitIsCanonical(d: nat)
    requires d < 16
    ensures Canonical([HEX_DIGITS[d]], d)
  {
    OneDigit(d);
    assert [] + [HEX_DIGITS[d]] == [HEX_DIGITS[d]];
    NumberOneMore([], HEX_DIGITS[d]);
  }

  lemma LowerDigitsDiffer(c: char, d: char)
    requires IsLowerHex(c) && IsLowerHex(d) && HexValue(c) == HexValue(d)
    ensures c == d
  {
  }

  lemma LastDigit(s: string, n: nat)
    requires Canonical(s, n)
    ensures n % 16 == HexValue(s[|s| - 1])
    ensures if n < 16 then |s| == 1 else |s| > 1 && Canonical(s[..|s| - 1], n / 16)
  {
    var rest, last := s[..|s| - 1], s[|s| - 1];
    DigitIsSmall(last);
    Sixteenths(n, Number(rest), HexValue(last));
    if |s| > 1 { LeadingDigitCounts(rest); }
  }

  lemma DigitIsSmall(c: char)
    requires IsHex(c)
    ensures HexValue(c) < 16
  {
  }

  /** There is only one such text for each number. */
  lemma {:induction false} CanonicalIsUnique(s: string, t: string, n: nat)
    requires Canonical(s, n) && Canonical(t, n)
    ensures s == t
    decreases n
  {
    LastDigit(s, n);
    LastDigit(t, n);
    LowerDigitsDiffer(s[|s| - 1], t[|t| - 1]);
    if n >= 16 { CanonicalIsUnique(s[..|s| - 1], t[..|t| - 1], n / 16); }
    assert s == s[..|s| - 1] + [s[|s| - 1]] && t == t[..|t| - 1] + [t[|t| - 1]];
  }

  /** A number of `4 * k` bits has at most `k` digits. */
  lemma {:induction false} DigitsFit(n: nat, k: nat)
    requires k >= 1 && n < Pow(2, 4 * k)
    ensures |Digits(n)| <= k
    decreases k
  {
    assert Pow(2, 4 * k) == 2 * Pow(2, 4 * k - 1) == 4 * Pow(2, 4 * k - 2) == 8 * Pow(2, 4 * k - 3);
    assert Pow(2, 4 * k - 3) == 2 * Pow(2, 4 * (k - 1));
    assert Pow(2, 0) == 1;
    if n >= 16 && k > 1 {
      DigitsFit(n / 16, k - 1);
    }
  }

  /** The text is a run of hexadecimal digits with that value, alone or after 0x or 0X. */
  ghost predicate Spells(text: string, n: nat) {
    exists digits {:trigger AllHex(digits)} ::
      && (text == digits || text == "0x" + digits || text == "0X" + digits)
      && digits != [] && AllHex(digits) && Number(digits) == n
  }

  lemma PlainDigits(digits: string)
    requires AllHex(digits)
    ensures WithoutPrefix(digits) == digits
  {
    if |digits| >= 2 {
      assert digits[..2][1] == digits[1] && IsHex(digits[1]);
    }
  }

  lemma SpelledParses(text: string, n: nat, width: nat)
    requires Spells(text, n)
    ensures Parsed(text, width) == Some(n % Pow(2, width))
  {
    var digits :| (text == digits || text == "0x" + digits || text == "0X" + digits)
                  && digits != [] && AllHex(digits) && Number(digits) == n;
    if text == digits {
      PlainDigits(digits);
    } else {
      assert text[2..] == digits && (text[..2] == "0x" || text[..2] == "0X");
    }
  }

  /** Parsing answers the value of the digits, truncated to the width, and nothing for any other text. */
  lemma ParsedIsSpelled(text: string, width: nat)
    ensures Parsed(text, width).None? ==> forall n: nat :: !Spells(text, n)
    ensures Parsed(text, width).Some? ==>
              exists n: nat :: Spells(text, n) && Parsed(text, width).value == n % Pow(2, width)
  {
    if Parsed(text, width).Some? {
      var digits := WithoutPrefix(text);
      assert text == digits || text == "0x" + digits || text == "0X" + digits;
      assert Spells(text, Number(digits));
    } else {
      forall n: nat ensures !Spells(text, n) {
        if Spells(text, n) { SpelledParses(text, n, width); }
      }
    }
  }

  /** Parsing a printed number gives it back, with or without the prefix. */
  lemma PrintedNumberParses(n: nat, width: nat, withPrefix: bool)
    requires n < Pow(2, width)
    ensures Parsed((if withPrefix then "0x" else "") + Digits(n), width) == Some(n)
  {
    DigitsAreCanonical(n);
    PrefixIsStripped(Digits(n), withPrefix);
    RemainderIsUnique(n, 0, n, Pow(2, width));
  }

  lemma PrefixIsStripped(digits: string, withPrefix: bool)
    requires AllHex(digits)
    ensures WithoutPrefix((if withPrefix then "0x" else "") + digits) == digits
  {
    if withPrefix {
      var s := "0x" + digits;
      assert s[..2] == "0x" && s[2..] == digits;
    } else {
      var s := "" + digits;
      assert s == digits;
      if |s| >= 2 {
        assert s[..2][1] == s[1] && IsHex(s[1]);
      }
    }
  }

  // ---------- byte order ----------

  /** The `k` low bytes of a number, least significant first: how the host stores it. */
  function LittleEndian(x: nat, k: nat): (r: seq<byte>)
    ensures |r| == k
  {
    if k == 0 then [] else [x % 256] + LittleEndian(x / 256, k - 1)
  }

  /** The number that bytes stand for, most significant first. */
  function BigEndianValue(s: seq<byte>): nat {
    if s == [] then 0 else BigEndianValue(s[..|s| - 1]) * 256 + s[|s| - 1]
  }

  function ReverseBytes(s: seq<byte>): (r: seq<byte>)
    ensures |r| == |s|
    ensures forall i :: 0 <= i < |s| ==> r[i] == s[|s| - 1 - i]
  {
    if s == [] then [] else [s[|s| - 1]] + ReverseBytes(s[..|s| - 1])
  }

  /** The loop of to_big_endian and from_big_endian on a little-endian host. */
  method SwapBytes(x: nat, k: nat) returns (r: nat)
    requires x < Pow(256, k)
    ensures r == BigEndianValue(LittleEndian(x, k))
    ensures r < Pow(256, k)
  {
    r := 0;
    var rest := x;
    assert LittleEndian(x, k)[..0] == [];
    for i := 0 to k
      invariant LittleEndian(rest, k - i) == LittleEndian(x, k)[i..]
      invariant r == BigEndianValue(LittleEndian(x, k)[..i])
    {
      ghost var bytes := LittleEndian(x, k);
      assert bytes[..i + 1][..i] == bytes[..i];
      assert bytes[i..][0] == bytes[i] && bytes[i..][1..] == bytes[i + 1..];
      BigEndianBound(bytes[..i]);
      r := r * 256 + rest % 256;
      rest := rest / 256;
    }
    assert LittleEndian(x, k)[..k] == LittleEndian(x, k);
    BigEndianBound(LittleEndian(x, k));
  }

  lemma {:induction false} BigEndianBound(s: seq<byte>)
    ensures BigEndianValue(s) < Pow(256, |s|)
  {
    if s != [] { BigEndianBound(s[..|s| - 1]); }
  }

  /** How the host stores the swapped number: the bytes of the original, most significant first. */
  lemma {:induction false} StoredBytesOf(s: seq<byte>)
    ensures LittleEndian(BigEndianValue(s), |s|) == ReverseBytes(s)
  {
    if s != [] {
      StoredBytesOf(s[..|s| - 1]);
      LowByte(BigEndianValue(s[..|s| - 1]), s[|s| - 1]);
    }
  }

  lemma LowByte(v: nat, b: byte)
    ensures (v * 256 + b) % 256 == b && (v * 256 + b) / 256 == v
  {
  }

  /** Bytes stored most significant first stand for the number whose little-endian bytes they reverse. */
  lemma {:induction false} ValueOfReversed(x: nat, k: nat)
    requires x < Pow(256, k)
    ensures BigEndianValue(ReverseBytes(LittleEndian(x, k))) == x
  {
    if k > 0 {
      var low, high := LittleEndian(x, k), LittleEndian(x / 256, k - 1);
      ValueOfReversed(x / 256, k - 1);
      assert ReverseBytes(low) == ReverseBytes(high) + [x % 256];
      assert ReverseBytes(low)[..k - 1] == ReverseBytes(high);
    }
  }

  function Swapped(x: nat, k: nat): nat { BigEndianValue(LittleEndian(x, k)) }

  /** The eight bytes that a length travels as. */
  function Wire(x: nat, k: nat): seq<byte> { LittleEndian(Swapped(x, k), k) }

  /** from_big_endian and to_big_endian undo each other, and what travels is most significant byte first. */
  lemma SwappingTwice(x: nat, k: nat)
    requires x < Pow(256, k)
    ensures Swapped(Swapped(x, k), k) == x
    ensures Wire(x, k) == ReverseBytes(LittleEndian(x, k)) && BigEndianValue(Wire(x, k)) == x
  {
    StoredBytesOf(LittleEndian(x, k));
    ValueOfReversed(x, k);
  }

  lemma QuotientIsUnique(n: nat, q: nat, r: nat, m: nat)
    requires n == q * m + r && r < m
    ensures n / m == q
  {
    Division(n, m);
    FartherMultiple(q, n / m, m);
    FartherMultiple(n / m, q, m);
  }

  lemma Carried(p: nat, m: nat, t: nat, r: nat)
    requires t < m && r < 256
    ensures (p * m + t) * 256 + r == p * (256 * m) + (t * 256 + r) && t * 256 + r < 256 * m
  {
    assert (p * m) * 256 == p * (256 * m);
  }

  lemma QuotientOfQuotient(x: nat, m: nat)
    requires m > 0
    ensures 256 * m > 0 && x / 256 / m == x / (256 * m)
  {
    var q, r := x / 256, x % 256;
    var p, t := q / m, q % m;
    Division(x, 256);
    Division(q, m);
    Carried(p, m, t, r);
    QuotientIsUnique(x, p, t * 256 + r, 256 * m);
  }

  lemma {:induction false} LittleEndianAt(x: nat, k: nat, i: nat)
    requires i < k
    ensures LittleEndian(x, k)[i] == x / Pow(256, i) % 256
    decreases i
  {
    if i == 0 {
      assert Pow(256, 0) == 1 && x / 1 == x;
    } else {
      LittleEndianAt(x / 256, k - 1, i - 1);
      QuotientOfQuotient(x, Pow(256, i - 1));
    }
  }

  /** On the wire the byte at `j` counts the multiples of the power of 256 that belongs there, the highest first. */
  lemma WireAt(x: nat, k: nat, j: nat)
    requires x < Pow(256, k) && j < k
    ensures |Wire(x, k)| == k && Wire(x, k)[j] == x / Pow(256, k - 1 - j) % 256
  {
    SwappingTwice(x, k);
    LittleEndianAt(x, k, k - 1 - j);
  }
}
