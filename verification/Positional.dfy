/** Positional notation over an arbitrary base: the one notion behind the
    big-endian byte strings and the base58 digit strings of the wire formats. */
module Positional {

  function Pow(base: nat, n: nat): (p: nat)
    ensures base > 0 ==> p > 0
    decreases n
  {
    if n == 0 then 1 else base * Pow(base, n - 1)
  }

  predicate AreDigits(ds: seq<nat>, base: nat) {
    forall i :: 0 <= i < |ds| ==> ds[i] < base
  }

  /** The number written by `ds`, most significant digit first. */
  function Value(ds: seq<nat>, base: nat): nat {
    if ds == [] then 0 else Value(ds[..|ds| - 1], base) * base + ds[|ds| - 1]
  }

  /** The digits of `n` without leading zeros; zero has none. */
  function Digits(n: nat, base: nat): (ds: seq<nat>)
    requires base >= 2
    decreases n
  {
    if n == 0 then [] else Digits(n / base, base) + [n % base]
  }

  /** The low `width` digits of `n`, padded with zeros on the left. */
  function Fixed(n: nat, width: nat, base: nat): (ds: seq<nat>)
    requires base >= 2
    ensures |ds| == width && AreDigits(ds, base)
    decreases width
  {
    if width == 0 then [] else Fixed(n / base, width - 1, base) + [n % base]
  }

  function Zeros(n: nat): (z: seq<nat>)
    ensures |z| == n && forall i :: 0 <= i < n ==> z[i] == 0
  {
    seq(n, i => 0)
  }

  /** How many zeros `ds` starts with. */
  function LeadingZeros(ds: seq<nat>): (n: nat)
    ensures n <= |ds|
    ensures n < |ds| ==> ds[n] != 0
  {
    if ds == [] || ds[0] != 0 then 0
    else
      1 + LeadingZeros(ds[1..])
  }

  function StripZeros(ds: seq<nat>): (r: seq<nat>)
    ensures |r| <= |ds|
    ensures r != [] ==> r[0] != 0
  {
    ds[LeadingZeros(ds)..]
  }

  lemma {:induction false} LeadingZerosAre(ds: seq<nat>)
    ensures ds[..LeadingZeros(ds)] == Zeros(LeadingZeros(ds))
  {
    if ds != [] && ds[0] == 0 {
      LeadingZerosAre(ds[1..]);
      var n := LeadingZeros(ds);
      assert ds[..n] == [0] + ds[1..][..n - 1];
    }
  }

  /** What was stripped are zeros. */
  lemma StripZerosPads(ds: seq<nat>)
    ensures ds == Zeros(LeadingZeros(ds)) + StripZeros(ds)
    ensures |StripZeros(ds)| == |ds| - LeadingZeros(ds)
  {
    LeadingZerosAre(ds);
  }

  predicate AllZero(ds: seq<nat>) {
    forall i :: 0 <= i < |ds| ==> ds[i] == 0
  }

  lemma {:induction false} StripAfterPad(k: nat, ds: seq<nat>)
    requires ds == [] || ds[0] != 0
    ensures StripZeros(Zeros(k) + ds) == ds
    ensures LeadingZeros(Zeros(k) + ds) == k
  {
    var all := Zeros(k) + ds;
    if k > 0 {
      assert all[1..] == Zeros(k - 1) + ds;
      StripAfterPad(k - 1, ds);
    }
    assert all[k..] == ds;
  }

  lemma {:induction false} PowAdd(base: nat, a: nat, b: nat)
    ensures Pow(base, a + b) == Pow(base, a) * Pow(base, b)
  {
    if a == 0 {
      assert 1 * Pow(base, b) == Pow(base, b);
    } else {
      PowAdd(base, a - 1, b);
      assert Pow(base, a + b) == base * Pow(base, a - 1 + b);
      MulAssoc(base, Pow(base, a - 1), Pow(base, b));
    }
  }

  lemma MulAssoc(a: nat, b: nat, c: nat)
    ensures a * (b * c) == (a * b) * c
  {
  }

  lemma MulMono(a: nat, b: nat, c: nat)
    requires a <= b
    ensures a * c <= b * c
  {
  }

  lemma {:induction false} DigitsAreDigits(n: nat, base: nat)
    requires base >= 2
    ensures AreDigits(Digits(n, base), base)
    ensures n > 0 ==> Digits(n, base) != [] && Digits(n, base)[0] != 0
    decreases n
  {
    if n != 0 {
      DigitsAreDigits(n / base, base);
    }
  }

  lemma NoValue(base: nat)
    ensures Value([], base) == 0
  {
  }

  lemma QuotientAndRest(n: nat, base: nat) returns (q: nat, r: nat)
    requires base >= 2
    ensures q == n / base && r == n % base && r < base && q * base + r == n && (n > 0 ==> q < n)
  {
    q, r := n / base, n % base;
    DivModIdentity(n, base);
    MulMono(2, base, q);
  }

  lemma {:induction false} ValueOfDigits(n: nat, base: nat)
    requires base >= 2
    ensures Value(Digits(n, base), base) == n
    decreases n
  {
    hide Value;
    if n == 0 {
      NoValue(base);
    } else {
      var q, r := QuotientAndRest(n, base);
      ValueOfDigits(q, base);
      ValueAppend(Digits(q, base), r, base);
    }
  }

  lemma RoomForDigit(v: nat, p: nat, d: nat, base: nat)
    requires v < p && d < base
    ensures v * base + d < base * p
  {
    MulMono(v + 1, p, base);
  }

  lemma {:induction false} ValueBound(ds: seq<nat>, base: nat)
    requires base >= 2 && AreDigits(ds, base)
    ensures Value(ds, base) < Pow(base, |ds|)
  {
    if ds != [] {
      var front := ds[..|ds| - 1];
      var v, p := Value(front, base), Pow(base, |ds| - 1);
      assert v < p by { ValueBound(front, base); }
      RoomForDigit(v, p, ds[|ds| - 1], base);
    }
  }

  lemma ValueAppend(ds: seq<nat>, d: nat, base: nat)
    ensures Value(ds + [d], base) == Value(ds, base) * base + d
  {
    assert (ds + [d])[..|ds|] == ds;
  }

  lemma DivModIdentity(n: nat, base: nat)
    requires base > 0
    ensures n == n / base * base + n % base
  {
  }

  lemma QuotientBound(n: nat, p: nat, base: nat)
    requires base > 0 && n < base * p
    ensures n / base < p
  {
    if n / base >= p {
      MulMono(p, n / base, base);
      DivModIdentity(n, base);
      assert false;
    }
  }

  lemma DivModUnique(q: nat, r: nat, base: nat)
    requires r < base
    ensures (q * base + r) / base == q
    ensures (q * base + r) % base == r
  {
    var n := q * base + r;
    if n / base < q {
      MulMono(n / base + 1, q, base);
      assert false;
    } else if n / base > q {
      MulMono(q + 1, n / base, base);
      assert false;
    }
  }

  /** A digit string without a leading zero is the canonical one. */
  lemma {:induction false} DigitsOfValue(ds: seq<nat>, base: nat)
    requires base >= 2 && AreDigits(ds, base)
    requires ds == [] || ds[0] != 0
    ensures Digits(Value(ds, base), base) == ds
  {
    hide Digits;
    if ds == [] {
      DigitsNext(0, 0, base);
    } else {
      var front, last := ds[..|ds| - 1], ds[|ds| - 1];
      DigitsOfValue(front, base);
      DigitsNext(Value(front, base), last, base);
      if front != [] {
        ValuePositive(front, base);
      }
      assert ds == front + [last];
    }
  }

  /** One more digit. */
  lemma DigitsNext(n: nat, d: nat, base: nat)
    requires d < base && base >= 2
    ensures Digits(0, base) == []
    ensures n > 0 || d > 0 ==> Digits(n * base + d, base) == Digits(n, base) + [d]
  {
    DivModUnique(n, d, base);
    MulMono(1, base, n);
  }

  lemma {:induction false} ValuePositive(ds: seq<nat>, base: nat)
    requires base >= 2 && ds != [] && ds[0] != 0
    ensures Value(ds, base) > 0
  {
    if |ds| > 1 {
      ValuePositive(ds[..|ds| - 1], base);
      MulMono(1, Value(ds[..|ds| - 1], base), base);
    }
  }

  lemma {:induction false} ValueIgnoresZeros(k: nat, ds: seq<nat>, base: nat)
    ensures Value(Zeros(k) + ds, base) == Value(ds, base)
    decreases k + |ds|
  {
    var all := Zeros(k) + ds;
    if ds != [] {
      assert all[..|all| - 1] == Zeros(k) + ds[..|ds| - 1];
      ValueIgnoresZeros(k, ds[..|ds| - 1], base);
    } else if k > 0 {
      assert all[..|all| - 1] == Zeros(k - 1) + [];
      ValueIgnoresZeros(k - 1, [], base);
    }
  }

  lemma {:induction false} ValueOfFixed(n: nat, width: nat, base: nat)
    requires base >= 2 && n < Pow(base, width)
    ensures Value(Fixed(n, width, base), base) == n
    decreases width
  {
    hide Value;
    if width == 0 {
      NoValue(base);
    } else {
      var q, r := QuotientAndRest(n, base);
      QuotientBound(n, Pow(base, width - 1), base);
      ValueOfFixed(q, width - 1, base);
      ValueAppend(Fixed(q, width - 1, base), r, base);
    }
  }

  lemma {:induction false} FixedOfValue(ds: seq<nat>, base: nat)
    requires base >= 2 && AreDigits(ds, base)
    ensures Fixed(Value(ds, base), |ds|, base) == ds
  {
    if ds != [] {
      var front, last := ds[..|ds| - 1], ds[|ds| - 1];
      FixedOfValue(front, base);
      DivModUnique(Value(front, base), last, base);
      assert ds == front + [last];
    }
  }

  /** Digits never outnumber the width the number fits in. */
  lemma {:induction false} DigitsLength(n: nat, width: nat, base: nat)
    requires base >= 2 && n < Pow(base, width)
    ensures |Digits(n, base)| <= width
    decreases width
  {
    if n != 0 {
      QuotientBound(n, Pow(base, width - 1), base);
      DigitsLength(n / base, width - 1, base);
    }
  }
}
