/** The combination enumerator the cluster prober uses to pick `n` of `m`
    candidates: every number from 1 to 2^m - 1 is read as a little-endian
    bit pattern, and the patterns with exactly `n` set bits are kept. */
module Combos {

  function Pow2(n: nat): (r: nat)
    ensures r >= 1
  {
    if n == 0 then 1 else 2 * Pow2(n - 1)
  }

  /** The number a little-endian bit list stands for. */
  function Value(bits: seq<bool>): nat {
    if bits == [] then 0 else (if bits[0] then 1 else 0) + 2 * Value(bits[1..])
  }

  /** How many bits of the list are set. */
  function Ones(bits: seq<bool>): nat {
    if bits == [] then 0 else (if bits[0] then 1 else 0) + Ones(bits[1..])
  }

  /** Pascal's triangle. */
  function Binomial(m: nat, n: int): nat {
    if n < 0 then 0
    else if m == 0 then (if n == 0 then 1 else 0)
    else Binomial(m - 1, n - 1) + Binomial(m - 1, n)
  }

  lemma {:induction false} Pow2Monotone(a: nat, b: nat)
    requires a <= b
    ensures Pow2(a) <= Pow2(b)
    decreases b
  {
    if a < b {
      Pow2Monotone(a, b - 1);
    }
  }

  /** How many bits of `x` are set. */
  function Pop(x: int): nat
    decreases x
  {
    if x <= 0 then 0 else (if x % 2 == 1 then 1 else 0) + Pop(x / 2)
  }

  /** The bits of `x`, least significant first. */
  function Bits(x: int): seq<bool>
    decreases x
  {
    if x <= 0 then [] else [x % 2 == 1] + Bits(x / 2)
  }

  /** The bits of `x`, least significant first, and how many are set. */
  function Count(x: int): (nat, seq<bool>) {
    (Pop(x), Bits(x))
  }

  /** Count's tally is the number of set bits in its list, and the list is
      the shortest little-endian spelling of `x`: empty for zero, otherwise
      ending in a set bit. */
  lemma {:induction false} CountSpec(x: int)
    ensures Count(x).0 == Ones(Count(x).1)
    ensures x <= 0 ==> Count(x).1 == []
    ensures x > 0 ==> Value(Count(x).1) == x && Count(x).1 != [] && Count(x).1[|Count(x).1| - 1]
    decreases x
  {
    if x > 0 {
      CountSpec(x / 2);
      var bits := Count(x).1;
      assert bits[1..] == Count(x / 2).1;
    }
  }

  /** The length of Count's list is the bit length of `x`. */
  lemma {:induction false} BitLength(x: int)
    requires x > 0
    ensures Pow2(|Count(x).1| - 1) <= x < Pow2(|Count(x).1|)
    decreases x
  {
    if x > 1 {
      var h := x / 2;
      BitLength(h);
      var len := |Bits(h)|;
      assert |Bits(x)| == len + 1;
      assert Pow2(len + 1) == 2 * Pow2(len) && Pow2(len) == 2 * Pow2(len - 1);
      assert 2 * h <= x <= 2 * h + 1;
    } else {
      assert Bits(1) == [true] + Bits(0);
    }
  }

  /** The numbers from `i` up to `hi` with `n` set bits, in increasing
      order. */
  function CmnFrom(i: int, hi: int, n: int): (r: seq<int>)
    ensures forall a :: 0 <= a < |r| ==> 1 <= r[a] && i <= r[a] < hi && Count(r[a]).0 == n
    ensures forall a, b :: 0 <= a < b < |r| ==> r[a] < r[b]
    ensures forall k :: i <= k < hi && k > 0 && Count(k).0 == n ==> k in r
    decreases hi - i
  {
    if i >= hi then []
    else
      var rest := CmnFrom(i + 1, hi, n);
      if i > 0 && Count(i).0 == n then [i] + rest else rest
  }

  /** A number below 2^m with `n` set bits is spelled by Count in at most
      `m` bits, `n` of them set. */
  lemma PatternOf(m: nat, n: int, x: int)
    requires 1 <= x < Pow2(m) && Count(x).0 == n
    ensures Value(Count(x).1) == x && |Count(x).1| <= m && Ones(Count(x).1) == n
  {
    BitLength(x);
    CountSpec(x);
    if |Count(x).1| > m {
      Pow2Monotone(m, |Count(x).1| - 1);
    }
  }

  /** The bit lists of the numbers `ks`, in the same order. */
  function Patterns(ks: seq<int>): (r: seq<seq<bool>>)
    ensures |r| == |ks|
  {
    seq(|ks|, a requires 0 <= a < |ks| => Count(ks[a]).1)
  }

  /** Every way of choosing `n` of `m` positions, each as a bit pattern of
      at most `m` bits, in increasing numeric order. */
  function Cmn(m: nat, n: int): (r: seq<seq<bool>>)
    ensures forall a :: 0 <= a < |r| ==> |r[a]| <= m && Ones(r[a]) == n && 1 <= Value(r[a]) < Pow2(m)
    ensures forall a, b :: 0 <= a < b < |r| ==> Value(r[a]) < Value(r[b])
    ensures forall k :: 1 <= k < Pow2(m) && Count(k).0 == n ==> Count(k).1 in r
  {
    PatternsOfCmnFrom(m, n);
    Patterns(CmnFrom(1, Pow2(m), n))
  }

  /** The patterns of the numbers CmnFrom lists below 2^m are the
      choices of `n` of `m` positions, ordered by value, all of them. */
  lemma PatternsOfCmnFrom(m: nat, n: int)
    ensures var r := Patterns(CmnFrom(1, Pow2(m), n));
      && (forall a :: 0 <= a < |r| ==> |r[a]| <= m && Ones(r[a]) == n && 1 <= Value(r[a]) < Pow2(m))
      && (forall a, b :: 0 <= a < b < |r| ==> Value(r[a]) < Value(r[b]))
      && (forall k :: 1 <= k < Pow2(m) && Count(k).0 == n ==> Count(k).1 in r)
  {
    PatternValues(m, n);
    PatternsComplete(m, n);
  }

  /** Each pattern spells its number in at most `m` bits, `n` of them set. */
  lemma PatternValues(m: nat, n: int)
    ensures var ks := CmnFrom(1, Pow2(m), n);
      forall a :: 0 <= a < |ks| ==>
        Value(Patterns(ks)[a]) == ks[a] && |Patterns(ks)[a]| <= m && Ones(Patterns(ks)[a]) == n
  {
    var ks := CmnFrom(1, Pow2(m), n);
    forall a | 0 <= a < |ks| ensures Value(Patterns(ks)[a]) == ks[a] && |Patterns(ks)[a]| <= m && Ones(Patterns(ks)[a]) == n {
      PatternOf(m, n, ks[a]);
    }
  }

  /** Every number below 2^m with `n` set bits has its pattern listed. */
  lemma PatternsComplete(m: nat, n: int)
    ensures forall k :: 1 <= k < Pow2(m) && Count(k).0 == n ==> Count(k).1 in Patterns(CmnFrom(1, Pow2(m), n))
  {
    var ks := CmnFrom(1, Pow2(m), n);
    forall k | 1 <= k < Pow2(m) && Count(k).0 == n ensures Count(k).1 in Patterns(ks) {
      var a :| 0 <= a < |ks| && ks[a] == k;
      assert Patterns(ks)[a] == Count(k).1;
    }
  }

  /** How many numbers in `lo` up to `hi` have `n` set bits. */
  function Tally(lo: int, hi: int, n: int): nat
    decreases hi - lo
  {
    if lo >= hi then 0 else (if Pop(lo) == n then 1 else 0) + Tally(lo + 1, hi, n)
  }

  lemma {:induction false} CmnFromSize(i: int, hi: int, n: int)
    requires i >= 1
    ensures |CmnFrom(i, hi, n)| == Tally(i, hi, n)
    decreases hi - i
  {
    if i < hi {
      CmnFromSize(i + 1, hi, n);
    }
  }

  lemma {:induction false} TallySplit(lo: int, mid: int, hi: int, n: int)
    requires lo <= mid <= hi
    ensures Tally(lo, hi, n) == Tally(lo, mid, n) + Tally(mid, hi, n)
    decreases mid - lo
  {
    if lo < mid {
      TallySplit(lo + 1, mid, hi, n);
    }
  }

  /** Appending a low bit `b` below `y`: one more set bit exactly when `b`
      is set. */
  lemma PopDouble(y: int, b: int)
    requires y >= 0 && 0 <= b <= 1
    ensures Pop(2 * y + b) == b + Pop(y)
  {
    var x := 2 * y + b;
    if x > 0 {
      assert x / 2 == y && x % 2 == b;
    }
  }

  /** One step of TopBit: from the claim for the bits of `q` above the
      lowest to the claim for `q`. */
  lemma TopBitStep(m: nat, q: nat)
    requires m > 0 && q < Pow2(m)
    requires Pop(Pow2(m - 1) + q / 2) == Pop(q / 2) + 1
    ensures Pop(Pow2(m) + q) == Pop(q) + 1
  {
    var h, half, low := Pow2(m - 1), q / 2, q % 2;
    assert Pow2(m) == 2 * h;
    calc {
      Pop(Pow2(m) + q);
      Pop(2 * (h + half) + low);
      { PopDouble(h + half, low); }
      low + Pop(h + half);
      low + Pop(half) + 1;
      { PopDouble(half, low); }
      Pop(2 * half + low) + 1;
      Pop(q) + 1;
    }
  }

  /** Setting a bit above all of `q`'s bits adds one set bit. */
  lemma {:induction false} TopBit(m: nat, q: nat)
    requires q < Pow2(m)
    ensures Pop(Pow2(m) + q) == Pop(q) + 1
    decreases m
  {
    if m > 0 {
      assert Pow2(m) == 2 * Pow2(m - 1);
      TopBit(m - 1, q / 2);
      TopBitStep(m, q);
    } else {
      assert Pow2(m) + q == 2 * 0 + 1;
      PopDouble(0, 1);
    }
  }

  /** The upper half of the numbers below 2^(m+1) has, for each `n`, as
      many numbers with `n` set bits as the lower half has with `n - 1`. */
  lemma {:induction false} TallyShift(m: nat, lo: nat, hi: nat, n: int)
    requires lo <= hi <= Pow2(m)
    ensures Tally(Pow2(m) + lo, Pow2(m) + hi, n) == Tally(lo, hi, n - 1)
    decreases hi - lo
  {
    if lo < hi {
      var p := Pow2(m);
      TopBit(m, lo);
      TallyShift(m, lo + 1, hi, n);
      assert Tally(p + lo, p + hi, n) == (if Pop(p + lo) == n then 1 else 0) + Tally(p + lo + 1, p + hi, n);
      assert Tally(lo, hi, n - 1) == (if Pop(lo) == n - 1 then 1 else 0) + Tally(lo + 1, hi, n - 1);
    }
  }

  /** Exactly C(m, n) numbers below 2^m have `n` set bits. */
  lemma {:induction false} TallyBinomial(m: nat, n: int)
    ensures Tally(0, Pow2(m), n) == Binomial(m, n)
    decreases m
  {
    if m == 0 {
      assert Tally(1, 1, n) == 0;
    } else {
      var h := Pow2(m - 1);
      TallySplit(0, h, 2 * h, n);
      TallyShift(m - 1, 0, h, n);
      TallyBinomial(m - 1, n);
      TallyBinomial(m - 1, n - 1);
    }
  }

  /** Cmn lists C(m, n) patterns whenever at least one bit is asked for. */
  lemma CmnSize(m: nat, n: int)
    requires n >= 1
    ensures |Cmn(m, n)| == Binomial(m, n)
  {
    CmnFromSize(1, Pow2(m), n);
    TallySplit(0, 1, Pow2(m), n);
    TallyBinomial(m, n);
  }
}
