/**
 Rounding addresses with bit masks, on words of any width; the source uses 64 bits.
 */
module Alignment {
  import opened HexCodec

  /** The bitwise conjunction of two numbers. */
  function BitAnd(x: nat, y: nat): nat {
    if x == 0 || y == 0 then 0 else 2 * BitAnd(x / 2, y / 2) + if x % 2 == 1 && y % 2 == 1 then 1 else 0
  }

  /** The bitwise complement of a `w`-bit number. */
  function Complement(x: nat, w: nat): nat
    requires x < Pow(2, w)
  {
    Pow(2, w) - 1 - x
  }

  function AlignDown(value: nat, alignment: nat, w: nat): nat
    requires 0 < alignment <= Pow(2, w)
  {
    BitAnd(value, Complement(alignment - 1, w))
  }

  function AlignUp(value: nat, alignment: nat, w: nat): nat
    requires 0 < alignment <= Pow(2, w)
  {
    BitAnd((value + alignment - 1) % Pow(2, w), Complement(alignment - 1, w))
  }

  /** Masking with all ones changes nothing; masking with none leaves nothing. */
  lemma {:induction false} MaskWithOnes(v: nat, w: nat)
    requires v < Pow(2, w)
    ensures BitAnd(v, Pow(2, w) - 1) == v
  {
    if w > 0 && v > 0 {
      var half: nat := Pow(2, w - 1);
      assert (2 * half - 1) / 2 == half - 1 && (2 * half - 1) % 2 == 1;
      MaskWithOnes(v / 2, w - 1);
    }
  }

  lemma HalvedRemainder(v: nat, p: nat)
    requires p > 0
    ensures v % (2 * p) == 2 * (v / 2 % p) + v % 2
  {
    var h := v / 2;
    Division(h, p);
    assert v == 2 * (h / p * p + h % p) + v % 2;
    assert h / p * (2 * p) == 2 * (h / p * p);
    RemainderIsUnique(v, h / p, 2 * (h % p) + v % 2, 2 * p);
  }

  lemma EvenMask(v: nat, m: nat)
    ensures BitAnd(v, 2 * m) == 2 * BitAnd(v / 2, m)
  {
    Doubled(m);
  }

  lemma Doubled(m: nat)
    ensures 2 * m / 2 == m && 2 * m % 2 == 0
  {
  }

  /** A mask with the low `k` bits clear takes away the remainder. */
  lemma {:induction false} MaskTakesRemainder(v: nat, k: nat, w: nat)
    requires v < Pow(2, w) && k <= w
    ensures Pow(2, k) <= Pow(2, w) && BitAnd(v, Pow(2, w) - Pow(2, k)) == v - v % Pow(2, k)
    decreases k
  {
    if k == 0 {
      MaskWithOnes(v, w);
      assert v % Pow(2, 0) == 0;
    } else {
      MaskTakesRemainder(v / 2, k - 1, w - 1);
      HalvedRemainder(v, Pow(2, k - 1));
      var a: nat, b: nat := Pow(2, w - 1), Pow(2, k - 1);
      assert Pow(2, w) - Pow(2, k) == 2 * (a - b);
      EvenMask(v, a - b);
    }
  }

  /** No multiple lies between a value and the value without its remainder. */
  lemma RemainderGone(v: nat, p: nat, q: nat)
    requires p > 0
    ensures v - v % p == v / p * p
    ensures q * p <= v ==> q * p <= v - v % p
  {
    Division(v, p);
    FartherMultiple(v / p, q, p);
    if q < v / p { FartherMultiple(q, v / p, p); }
  }

  lemma NextMultiple(v: nat, p: nat, sum: nat, q: nat)
    requires p > 0 && sum == v + p - 1
    ensures sum / p * p >= v
    ensures q * p >= v ==> q * p >= sum / p * p
  {
    Division(sum, p);
    FartherMultiple(q, sum / p, p);
  }

  /** For a power of two, masking gives the greatest multiple that is not above the value. */
  lemma AlignDownIsGreatest(value: nat, k: nat, w: nat, q: nat)
    requires value < Pow(2, w) && k <= w
    ensures Pow(2, k) <= Pow(2, w)
    ensures var p := Pow(2, k);
            var down := AlignDown(value, p, w);
            down == value / p * p && down <= value && (q * p <= value ==> q * p <= down)
  {
    MaskTakesRemainder(value, k, w);
    RemainderGone(value, Pow(2, k), q);
  }

  lemma AlignUpFits(value: nat, k: nat, w: nat)
    requires k <= w && value + Pow(2, k) - 1 < Pow(2, w)
    ensures Pow(2, k) <= Pow(2, w)
    ensures AlignUp(value, Pow(2, k), w) == (value + Pow(2, k) - 1) / Pow(2, k) * Pow(2, k)
  {
    var sum: nat := value + Pow(2, k) - 1;
    MaskTakesRemainder(sum, k, w);
    RemainderIsUnique(sum, 0, sum, Pow(2, w));
    RemainderGone(sum, Pow(2, k), 0);
  }

  lemma AlignUpOverflows(value: nat, k: nat, w: nat)
    requires value < Pow(2, w) && k <= w && value + Pow(2, k) - 1 >= Pow(2, w)
    ensures Pow(2, k) <= Pow(2, w)
    ensures AlignUp(value, Pow(2, k), w) == 0
  {
    PowersGrow(k, w);
    var p, m := Pow(2, k), Pow(2, w);
    var low: nat := value + p - 1 - m;
    WrappedSum(value + p - 1, low, p, m);
    MaskTakesRemainder(low, k, w);
  }

  lemma PowersGrow(k: nat, w: nat)
    requires k <= w
    ensures Pow(2, k) <= Pow(2, w)
  {
    MaskTakesRemainder(0, k, w);
  }

  lemma WrappedSum(sum: nat, low: nat, p: nat, m: nat)
    requires sum == m + low && low < p <= m
    ensures sum % m == low && low % p == low
  {
    assert 1 * m == m && 0 * p == 0;
    RemainderIsUnique(sum, 1, low, m);
    RemainderIsUnique(low, 0, low, p);
  }

  /** For a power of two, masking gives the least multiple that is not below the value exactly when the sum
      does not overflow; when it does the result is zero. */
  lemma AlignUpIsLeastIff(value: nat, k: nat, w: nat, q: nat)
    requires value < Pow(2, w) && k <= w
    ensures Pow(2, k) <= Pow(2, w)
    ensures var p := Pow(2, k);
            var up := AlignUp(value, p, w);
            && (up >= value <==> value + p - 1 < Pow(2, w))
            && (up >= value ==> up == (value + p - 1) / p * p && (q * p >= value ==> q * p >= up))
            && (up < value ==> up == 0)
  {
    MaskTakesRemainder(0, k, w);
    if value + Pow(2, k) - 1 < Pow(2, w) {
      AlignUpFits(value, k, w);
      NextMultiple(value, Pow(2, k), value + Pow(2, k) - 1, q);
    } else {
      AlignUpOverflows(value, k, w);
    }
  }
}
