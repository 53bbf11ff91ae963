/** `RationalNumber`: a numerator and a denominator (i128 in the source), kept in the
    form the operators leave them in, i.e. divided by the `gcd` of Euclid's loop with
    Rust's truncating `%`. */
module Rational {
  import opened Wrappers

  function Abs(a: int): nat
  {
    if a < 0 then -a else a
  }

  /** Rust's `/` on integers: the quotient rounded toward zero. */
  function TruncDiv(a: int, b: int): int
    requires b != 0
  {
    if (a >= 0) == (b > 0) then Abs(a) / Abs(b) else -(Abs(a) / Abs(b))
  }

  /** Rust's `%` on integers: what `/` leaves over. It is smaller than the divisor in
      size and takes the sign of the dividend. */
  function TruncRem(a: int, b: int): (r: int)
    requires b != 0
    ensures a == b * TruncDiv(a, b) + r
    ensures Abs(r) < Abs(b) && (r == 0 || (r < 0 <==> a < 0))
  {
    TruncSplit(a, b);
    a - b * TruncDiv(a, b)
  }

  lemma {:induction false} TruncSplit(a: int, b: int)
    requires b != 0
    ensures var r := a - b * TruncDiv(a, b); Abs(r) < Abs(b) && (r == 0 || (r < 0 <==> a < 0))
  {
    var q, m := Abs(a) / Abs(b), Abs(a) % Abs(b);
    assert Abs(a) == Abs(b) * q + m;
    if a >= 0 && b > 0 {
      assert a - b * q == m;
    } else if a >= 0 {
      assert b * -q == Abs(b) * q;
      assert a - b * -q == m;
    } else if b > 0 {
      assert b * -q == -(Abs(b) * q);
      assert a - b * -q == -m;
    } else {
      assert b * q == -(Abs(b) * q);
      assert a - b * q == -m;
    }
  }

  /** Dividing an exact multiple gives the factor back, whatever the signs. */
  lemma {:induction false} ExactDiv(a: int, b: int, k: int)
    requires b != 0 && a == b * k
    ensures TruncDiv(a, b) == k
  {
    var r := TruncRem(a, b);
    var q := TruncDiv(a, b);
    assert b * (k - q) == r by {
      assert b * (k - q) == b * k - b * q;
    }
    if k != q {
      AbsProduct(b, k - q);
      assert false;
    }
  }

  lemma {:induction false} AbsProduct(b: int, c: int)
    requires c != 0
    ensures Abs(b * c) >= Abs(b)
  {
    AbsMul(b, c);
    MulGrows(Abs(b), Abs(c));
  }

  lemma {:induction false} AbsMul(b: int, c: int)
    ensures Abs(b * c) == Abs(b) * Abs(c)
  {
    if b < 0 && c < 0 {
      assert b * c == (-b) * (-c);
    } else if b < 0 {
      assert b * c == -((-b) * c);
    } else if c < 0 {
      assert b * c == -(b * (-c));
    }
  }

  lemma {:induction false} MulGrows(m: nat, n: nat)
    requires n >= 1
    ensures m * n >= m
  {
    assert m * n == m * (n - 1) + m;
  }

  /** What `gcd(a, b)` returns: Euclid's loop `while b != 0 { (a, b) = (b, a % b) }`
      with truncating `%`; the result may be negative and is 0 for (0, 0). */
  function GcdSpec(a: int, b: int): int
    decreases Abs(b)
  {
    if b == 0 then a else GcdSpec(b, TruncRem(a, b))
  }

  /** `gcd`: the loop itself. */
  method Gcd(a: int, b: int) returns (g: int)
    ensures g == GcdSpec(a, b)
  {
    var x, y := a, b;
    while y != 0
      invariant GcdSpec(x, y) == GcdSpec(a, b)
      decreases Abs(y)
    {
      var remainder := TruncRem(x, y);
      x := y;
      y := remainder;
    }
    g := x;
  }

  /** The result divides both arguments: it comes with the two cofactors. */
  lemma {:induction false} GcdDivides(a: int, b: int) returns (ka: int, kb: int)
    ensures a == GcdSpec(a, b) * ka && b == GcdSpec(a, b) * kb
    decreases Abs(b)
  {
    var g := GcdSpec(a, b);
    if b == 0 {
      ka, kb := 1, 0;
    } else {
      var r := TruncRem(a, b);
      var q := TruncDiv(a, b);
      var kb', kr := GcdDivides(b, r);
      assert g == GcdSpec(b, r);
      ka, kb := kb' * q + kr, kb';
      Factor(a, b, q, r, g, kb', kr);
    }
  }

  /** A sum b * q + r of multiples of g is a multiple of g. */
  lemma {:induction false} Factor(a: int, b: int, q: int, r: int, g: int, kb: int, kr: int)
    requires a == b * q + r && b == g * kb && r == g * kr
    ensures a == g * (kb * q + kr)
  {
    assert (g * kb) * q == g * (kb * q);
  }

  /** Every common divisor of the arguments divides the result. */
  lemma {:induction false} GcdGreatest(a: int, b: int, d: int, x: int, y: int) returns (k: int)
    requires a == d * x && b == d * y
    ensures GcdSpec(a, b) == d * k
    decreases Abs(b)
  {
    if b == 0 {
      k := x;
    } else {
      var r := TruncRem(a, b);
      var q := TruncDiv(a, b);
      Factor(r, b, -q, a, d, y, x);
      k := GcdGreatest(b, r, d, y, x - y * q);
    }
  }

  /** The result is 0 exactly for gcd(0, 0). */
  lemma {:induction false} GcdZero(a: int, b: int)
    ensures GcdSpec(a, b) == 0 <==> a == 0 && b == 0
  {
    var ka, kb := GcdDivides(a, b);
    if a == 0 && b == 0 {
      assert GcdSpec(a, b) == a;
    }
  }

  datatype RationalNumber = RationalNumber(num: int, denom: int)

  /** `RationalNumber::default()`: 0/1. */
  const Zero := RationalNumber(0, 1)

  /** x stands for the fraction n / d: the cross products agree. */
  predicate SameValue(x: RationalNumber, n: int, d: int)
  {
    x.num * d == n * x.denom
  }

  /** `RationalNumber { num: num / divisor, denom: denom / divisor }` with
      `divisor = gcd(num, denom)`: the closing step of every operator. Dividing by a gcd
      of 0, which happens exactly for 0/0, panics. */
  function Reduce(num: int, denom: int): Result<RationalNumber>
  {
    var g := GcdSpec(num, denom);
    if g == 0 then Panic("attempt to divide by zero")
    else Ok(RationalNumber(TruncDiv(num, g), TruncDiv(denom, g)))
  }

  /** Reducing panics only for 0/0; otherwise the result is the cofactors of the gcd, so
      it keeps the value of num / denom, has a zero denominator only when denom is zero,
      and is in lowest terms: its only common divisors are 1 and -1. */
  lemma {:induction false} ReduceSpec(num: int, denom: int)
    ensures Reduce(num, denom).Panic? <==> num == 0 && denom == 0
    ensures Reduce(num, denom).Ok? ==>
              var x := Reduce(num, denom).value;
              SameValue(x, num, denom) && (x.denom == 0 <==> denom == 0) &&
              num == GcdSpec(num, denom) * x.num && denom == GcdSpec(num, denom) * x.denom
  {
    GcdZero(num, denom);
    var g := GcdSpec(num, denom);
    if g != 0 {
      var kn, kd := GcdDivides(num, denom);
      ExactDiv(num, g, kn);
      ExactDiv(denom, g, kd);
      Cross(g, kn, kd);
    }
  }

  lemma {:induction false} Cross(g: int, kn: int, kd: int)
    ensures kn * (g * kd) == (g * kn) * kd
  {
    assert kn * (g * kd) == g * (kn * kd);
  }

  /** A reduced result is in lowest terms: a common divisor d of its numerator and
      denominator is 1 or -1. */
  lemma {:induction false} ReducedLowest(num: int, denom: int, d: int, x: int, y: int)
    requires Reduce(num, denom).Ok?
    requires Reduce(num, denom).value.num == d * x && Reduce(num, denom).value.denom == d * y
    ensures d == 1 || d == -1
  {
    ReduceSpec(num, denom);
    var g := GcdSpec(num, denom);
    var r := Reduce(num, denom).value;
    Assoc(g, d, x);
    Assoc(g, d, y);
    var k := GcdGreatest(num, denom, g * d, x, y);
    UnitFactor(g, d, k);
  }

  lemma {:induction false} Assoc(g: int, d: int, x: int)
    ensures g * (d * x) == (g * d) * x
  {
  }

  lemma {:induction false} UnitFactor(g: int, d: int, k: int)
    requires g != 0 && g == (g * d) * k
    ensures d == 1 || d == -1
  {
    assert g * 1 == g * (d * k);
    assert d * k == 1;
    if d != 1 && d != -1 {
      AbsMul(d, k);
      if k == 0 {
        assert false;
      }
      MulGrows(Abs(d), Abs(k));
      assert false;
    }
  }

  /** `self + rhs` (all three `Add` impls compute the same). */
  function Add(a: RationalNumber, b: RationalNumber): Result<RationalNumber>
  {
    Reduce(a.num * b.denom + a.denom * b.num, a.denom * b.denom)
  }

  /** `self - rhs`. */
  function Sub(a: RationalNumber, b: RationalNumber): Result<RationalNumber>
  {
    Reduce(a.num * b.denom - a.denom * b.num, a.denom * b.denom)
  }

  /** `self * rhs`. */
  function Mul(a: RationalNumber, b: RationalNumber): Result<RationalNumber>
  {
    Reduce(a.num * b.num, a.denom * b.denom)
  }

  /** `self / rhs`. */
  function Div(a: RationalNumber, b: RationalNumber): Result<RationalNumber>
  {
    Reduce(a.num * b.denom, a.denom * b.num)
  }

  /** `i128::pow`. */
  function Pow(x: int, n: nat): int
  {
    if n == 0 then 1 else x * Pow(x, n - 1)
  }

  /** `powi(n)`: numerator and denominator raised to the n-th power, then reduced. */
  function Powi(a: RationalNumber, n: nat): Result<RationalNumber>
  {
    Reduce(Pow(a.num, n), Pow(a.denom, n))
  }

  /** A proper fraction has a non-zero denominator. */
  predicate Proper(a: RationalNumber)
  {
    a.denom != 0
  }

  /** On proper fractions the operators never panic, give proper fractions, and give
      the exact sum, difference and product. */
  lemma {:induction false} AddSubMulExact(a: RationalNumber, b: RationalNumber)
    requires Proper(a) && Proper(b)
    ensures Add(a, b).Ok? && Proper(Add(a, b).value) &&
            SameValue(Add(a, b).value, a.num * b.denom + a.denom * b.num, a.denom * b.denom)
    ensures Sub(a, b).Ok? && Proper(Sub(a, b).value) &&
            SameValue(Sub(a, b).value, a.num * b.denom - a.denom * b.num, a.denom * b.denom)
    ensures Mul(a, b).Ok? && Proper(Mul(a, b).value) && SameValue(Mul(a, b).value, a.num * b.num, a.denom * b.denom)
  {
    NonZeroProduct(a.denom, b.denom);
    ReduceSpec(a.num * b.denom + a.denom * b.num, a.denom * b.denom);
    ReduceSpec(a.num * b.denom - a.denom * b.num, a.denom * b.denom);
    ReduceSpec(a.num * b.num, a.denom * b.denom);
  }

  lemma {:induction false} NonZeroProduct(a: int, b: int)
    requires a != 0 && b != 0
    ensures a * b != 0
  {
    AbsMul(a, b);
    MulGrows(Abs(a), Abs(b));
  }

  /** Division by a proper non-zero fraction is exact. Dividing 0/d by 0/d' panics
      (gcd(0, 0) is 0); dividing a non-zero fraction by zero gives a fraction with
      denominator 0 rather than a panic. */
  lemma {:induction false} DivCases(a: RationalNumber, b: RationalNumber)
    requires Proper(a) && Proper(b)
    ensures b.num != 0 ==> Div(a, b).Ok? && Proper(Div(a, b).value) &&
                           SameValue(Div(a, b).value, a.num * b.denom, a.denom * b.num)
    ensures b.num == 0 ==> (Div(a, b).Panic? <==> a.num == 0)
    ensures b.num == 0 && a.num != 0 ==> Div(a, b).Ok? && Div(a, b).value.denom == 0
  {
    NonZeroProduct(a.denom, b.denom);
    if b.num != 0 {
      NonZeroProduct(a.denom, b.num);
    }
    if a.num != 0 {
      NonZeroProduct(a.num, b.denom);
    }
    ReduceSpec(a.num * b.denom, a.denom * b.num);
  }

  /** The power of a proper fraction is proper and exact. */
  lemma {:induction false} PowiExact(a: RationalNumber, n: nat)
    requires Proper(a)
    ensures Powi(a, n).Ok? && Proper(Powi(a, n).value) && SameValue(Powi(a, n).value, Pow(a.num, n), Pow(a.denom, n))
  {
    PowNonZero(a.denom, n);
    ReduceSpec(Pow(a.num, n), Pow(a.denom, n));
  }

  lemma {:induction false} PowNonZero(x: int, n: nat)
    requires x != 0
    ensures Pow(x, n) != 0
  {
    if n > 0 {
      PowNonZero(x, n - 1);
      NonZeroProduct(x, Pow(x, n - 1));
    }
  }

  /** Two fractions with the same value: their cross products agree. */
  predicate Equiv(x: RationalNumber, y: RationalNumber)
  {
    SameValue(x, y.num, y.denom)
  }

  /** The exact sum, difference and product as unreduced fractions: the reference the
      reduced operators are measured against. */
  function RawAdd(a: RationalNumber, b: RationalNumber): RationalNumber
  {
    RationalNumber(a.num * b.denom + a.denom * b.num, a.denom * b.denom)
  }

  function RawSub(a: RationalNumber, b: RationalNumber): RationalNumber
  {
    RationalNumber(a.num * b.denom - a.denom * b.num, a.denom * b.denom)
  }

  function RawMul(a: RationalNumber, b: RationalNumber): RationalNumber
  {
    RationalNumber(a.num * b.num, a.denom * b.denom)
  }

  /** Having the same value is transitive through a proper middle fraction. */
  lemma {:induction false} EquivTrans(x: RationalNumber, y: RationalNumber, z: RationalNumber)
    requires Proper(y) && Equiv(x, y) && Equiv(y, z)
    ensures Equiv(x, z)
  {
    assert (x.num * z.denom) * y.denom == (x.num * y.denom) * z.denom;
    assert (x.num * y.denom) * z.denom == (y.num * x.denom) * z.denom;
    assert (y.num * x.denom) * z.denom == (y.num * z.denom) * x.denom;
    assert (y.num * z.denom) * x.denom == (z.num * y.denom) * x.denom;
    assert (z.num * y.denom) * x.denom == (z.num * x.denom) * y.denom;
    assert (x.num * z.denom - z.num * x.denom) * y.denom == 0;
  }

  /** Replacing the operands by fractions of the same value does not change the value of
      the exact sum, difference or product. */
  lemma {:induction false} RawCongruent(a: RationalNumber, b: RationalNumber, a': RationalNumber, b': RationalNumber)
    requires Equiv(a, a') && Equiv(b, b')
    ensures Equiv(RawAdd(a, b), RawAdd(a', b'))
    ensures Equiv(RawSub(a, b), RawSub(a', b'))
    ensures Equiv(RawMul(a, b), RawMul(a', b'))
  {
    CrossTerms(a.num, a.denom, b.num, b.denom, a'.num, a'.denom, b'.num, b'.denom);
  }

  lemma {:induction false} CrossTerms(an: int, ad: int, bn: int, bd: int, an': int, ad': int, bn': int, bd': int)
    requires an * ad' == an' * ad && bn * bd' == bn' * bd
    ensures (an * bd + ad * bn) * (ad' * bd') == (an' * bd' + ad' * bn') * (ad * bd)
    ensures (an * bd - ad * bn) * (ad' * bd') == (an' * bd' - ad' * bn') * (ad * bd)
    ensures (an * bn) * (ad' * bd') == (an' * bn') * (ad * bd)
  {
    var s := (an * bd) * (ad' * bd');
    var t := (ad * bn) * (ad' * bd');
    var s' := (an' * bd') * (ad * bd);
    var t' := (ad' * bn') * (ad * bd);
    Regroup(an, bd, ad', bd');
    Regroup(an', bd', ad, bd);
    assert s == s';
    Regroup(ad, bn, ad', bd');
    Regroup(ad', bn', ad, bd);
    assert t == t';
    Distrib(an * bd, ad * bn, ad' * bd');
    Distrib(an' * bd', ad' * bn', ad * bd);
    Regroup(an, bn, ad', bd');
    Regroup(an', bn', ad, bd);
  }

  lemma {:induction false} Regroup(p: int, q: int, r: int, s: int)
    ensures (p * q) * (r * s) == (p * r) * (q * s)
  {
  }

  lemma {:induction false} Distrib(x: int, y: int, z: int)
    ensures (x + y) * z == x * z + y * z && (x - y) * z == x * z - y * z
  {
  }

  /** Squaring with `powi(2)` gives a proper fraction of the value of a * a. */
  lemma {:induction false} PowiSquare(a: RationalNumber)
    requires Proper(a)
    ensures Powi(a, 2).Ok? && Proper(Powi(a, 2).value) && Equiv(Powi(a, 2).value, RawMul(a, a))
  {
    PowiExact(a, 2);
    PowTwo(a.num);
    PowTwo(a.denom);
  }

  lemma {:induction false} PowTwo(x: int)
    ensures Pow(x, 2) == x * x
  {
    assert Pow(x, 1) == x;
  }

  /** The reduced pair that `eq` and `partial_cmp` compare. */
  function Reduced(a: RationalNumber): Result<(int, int)>
  {
    match Reduce(a.num, a.denom)
    case Panic(reason) => Panic(reason)
    case Ok(x) => Ok((x.num, x.denom))
  }

  /** `a == b`: the reduced pairs agree componentwise (0/0 panics). */
  function Eq(a: RationalNumber, b: RationalNumber): Result<bool>
  {
    match (Reduced(a), Reduced(b))
    case (Ok(p), Ok(q)) => Ok(p == q)
    case (Panic(reason), _) => Panic(reason)
    case (_, Panic(reason)) => Panic(reason)
  }

  /** `==` panics exactly when an operand is 0/0; otherwise it holds exactly when the
      operands have the same value, i.e. equal cross products. */
  lemma {:induction false} EqSound(a: RationalNumber, b: RationalNumber)
    ensures Eq(a, b).Panic? <==> (a.num == 0 && a.denom == 0) || (b.num == 0 && b.denom == 0)
    ensures Eq(a, b).Ok? ==> (Eq(a, b).value <==> a.num * b.denom == b.num * a.denom)
  {
    ReduceSpec(a.num, a.denom);
    ReduceSpec(b.num, b.denom);
    if Eq(a, b) == Ok(true) {
      var x, y := Reduce(a.num, a.denom).value, Reduce(b.num, b.denom).value;
      var g, h := GcdSpec(a.num, a.denom), GcdSpec(b.num, b.denom);
      assert x == y;
      calc {
        a.num * b.denom;
        (g * x.num) * (h * x.denom);
        { Swap(g, x.num, h, x.denom); }
        (g * x.denom) * (h * x.num);
        b.num * a.denom;
      }
    } else if Eq(a, b).Ok? && a.num * b.denom == b.num * a.denom {
      EqComplete(a, b);
    }
  }

  /** Operands of the same value, neither 0/0, are `==`: each is a multiple of the
      other's scaled form, and scaling does not change the reduced pair. */
  lemma {:induction false} EqComplete(a: RationalNumber, b: RationalNumber)
    requires !(a.num == 0 && a.denom == 0) && !(b.num == 0 && b.denom == 0)
    requires a.num * b.denom == b.num * a.denom
    ensures Eq(a, b) == Ok(true)
  {
    ReduceSpec(a.num, a.denom);
    if a.denom != 0 && b.denom != 0 {
      ReduceScales(a.num, a.denom, b.denom);
      ReduceScales(b.num, b.denom, a.denom);
      assert b.denom * a.num == a.denom * b.num && b.denom * a.denom == a.denom * b.denom;
    } else if a.denom == 0 {
      assert a.num * b.denom == 0;
      if b.denom != 0 {
        NonZeroProduct(a.num, b.denom);
      }
      ReduceScales(a.num, 0, b.num);
      ReduceScales(b.num, 0, a.num);
      assert b.num * a.num == a.num * b.num;
    } else {
      assert b.num * a.denom == 0;
      if b.num != 0 {
        NonZeroProduct(b.num, a.denom);
      }
    }
  }

  /** Scaling numerator and denominator by the same non-zero k does not change the
      reduced pair: the gcd scales by k too. */
  lemma {:induction false} ReduceScales(x: int, y: int, k: int)
    requires k != 0
    ensures Reduce(k * x, k * y) == Reduce(x, y)
  {
    var g := GcdSpec(x, y);
    GcdScales(x, y, k);
    if g == 0 {
      assert GcdSpec(k * x, k * y) == 0;
    } else {
      NonZeroProduct(k, g);
      var kx, ky := GcdDivides(x, y);
      Reduces(x, y, g, kx, ky);
      Assoc(k, g, kx);
      Assoc(k, g, ky);
      Reduces(k * x, k * y, k * g, kx, ky);
    }
  }

  /** Euclid's loop on (k * a, k * b) runs in step with the loop on (a, b). */
  lemma {:induction false} GcdScales(a: int, b: int, k: int)
    requires k != 0
    ensures GcdSpec(k * a, k * b) == k * GcdSpec(a, b)
    decreases Abs(b)
  {
    if b == 0 {
      assert k * b == 0;
    } else {
      NonZeroProduct(k, b);
      var r := TruncRem(a, b);
      RemScales(a, b, k);
      assert GcdSpec(k * a, k * b) == GcdSpec(k * b, k * r);
      GcdScales(b, r, k);
    }
  }

  /** Truncating `%` commutes with scaling both operands by a non-zero k. */
  lemma {:induction false} RemScales(a: int, b: int, k: int)
    requires b != 0 && k != 0
    ensures k * b != 0 && TruncRem(k * a, k * b) == k * TruncRem(a, b)
  {
    NonZeroProduct(k, b);
    var q, r := TruncDiv(a, b), TruncRem(a, b);
    assert k * a == (k * b) * q + k * r by {
      assert k * a == k * (b * q + r);
      assert k * (b * q + r) == (k * b) * q + k * r;
    }
    AbsMul(k, r);
    AbsMul(k, b);
    StrictScale(Abs(k), Abs(r), Abs(b));
    if r != 0 {
      if a == 0 {
        assert false;
      }
      ProductSign(k, r);
      ProductSign(k, a);
    } else {
      assert k * r == 0;
    }
    TruncUnique(k * a, k * b, q, k * r);
  }

  lemma {:induction false} StrictScale(k: nat, r: nat, b: nat)
    requires k >= 1 && r < b
    ensures k * r < k * b
  {
    assert k * b - k * r == k * (b - r);
    MulGrows(b - r, k);
    assert k * (b - r) == (b - r) * k;
  }

  lemma {:induction false} ProductSign(x: int, y: int)
    requires x != 0 && y != 0
    ensures x * y < 0 <==> (x < 0) != (y < 0)
  {
    AbsMul(x, y);
    NonZeroProduct(x, y);
    if x < 0 && y < 0 {
      assert x * y == (-x) * (-y);
    } else if x < 0 {
      assert x * y == -((-x) * y);
    } else if y < 0 {
      assert x * y == -(x * (-y));
    }
  }

  lemma {:induction false} Swap(g: int, p: int, h: int, q: int)
    ensures (g * p) * (h * q) == (g * q) * (h * p)
  {
    assert (g * p) * (h * q) == g * h * (p * q);
    assert (g * q) * (h * p) == g * h * (p * q);
  }

  datatype Ordering = Less | Equal | Greater

  /** `i128::cmp`. */
  function Cmp(x: int, y: int): Ordering
  {
    if x < y then Less else if x == y then Equal else Greater
  }

  /** The quantity `partial_cmp` ranks a number by: num^2 + denom^2 of its reduced pair. */
  function SumOfSquares(p: (int, int)): int
  {
    p.0 * p.0 + p.1 * p.1
  }

  /** `a.partial_cmp(b)`: b's sum of squares compared with a's; the order is reversed
      against that quantity and is not the numeric order. */
  function PartialCmp(a: RationalNumber, b: RationalNumber): Result<Ordering>
  {
    match (Reduced(a), Reduced(b))
    case (Ok(p), Ok(q)) => Ok(Cmp(SumOfSquares(q), SumOfSquares(p)))
    case (Panic(reason), _) => Panic(reason)
    case (_, Panic(reason)) => Panic(reason)
  }

  /** `<`, `<=`, `>`, `>=` as `PartialOrd` derives them from `partial_cmp`. */
  predicate Lt(a: RationalNumber, b: RationalNumber)
  {
    PartialCmp(a, b) == Ok(Less)
  }

  predicate Le(a: RationalNumber, b: RationalNumber)
  {
    PartialCmp(a, b) == Ok(Less) || PartialCmp(a, b) == Ok(Equal)
  }

  predicate Gt(a: RationalNumber, b: RationalNumber)
  {
    PartialCmp(a, b) == Ok(Greater)
  }

  predicate Ge(a: RationalNumber, b: RationalNumber)
  {
    PartialCmp(a, b) == Ok(Greater) || PartialCmp(a, b) == Ok(Equal)
  }

  /** The order is a total preorder on what does not panic: swapping the operands
      reverses it, and a number is Equal to itself. */
  lemma {:induction false} CmpAntisymmetric(a: RationalNumber, b: RationalNumber)
    requires PartialCmp(a, b).Ok?
    ensures PartialCmp(b, a).Ok?
    ensures Lt(a, b) <==> Gt(b, a)
    ensures PartialCmp(a, a) == Ok(Equal)
  {
  }

  /** a < b holds exactly when b's reduced pair has the smaller sum of squares. */
  lemma {:induction false} LtIff(a: RationalNumber, b: RationalNumber)
    requires Reduced(a).Ok? && Reduced(b).Ok?
    ensures Lt(a, b) <==> SumOfSquares(Reduced(b).value) < SumOfSquares(Reduced(a).value)
  {
  }

  /** A pair whose gcd is g reduces to its cofactors. */
  lemma {:induction false} Reduces(num: int, denom: int, g: int, x: int, y: int)
    requires GcdSpec(num, denom) == g && g != 0 && num == g * x && denom == g * y
    ensures Reduce(num, denom) == Ok(RationalNumber(x, y))
  {
    ExactDiv(num, g, x);
    ExactDiv(denom, g, y);
  }

  /** An integer n/1 is already in lowest terms. */
  lemma {:induction false} WholeReduced(n: int)
    ensures Reduce(n, 1) == Ok(RationalNumber(n, 1)) && Reduced(RationalNumber(n, 1)) == Ok((n, 1))
  {
    GcdStep(n, 1, n, 0);
    Reduces(n, 1, 1, n, 1);
  }

  /** Truncated division is the only split a == b * q + r with a remainder smaller than
      b that takes the sign of a. */
  lemma {:induction false} TruncUnique(a: int, b: int, q: int, r: int)
    requires b != 0 && a == b * q + r && Abs(r) < Abs(b) && (r == 0 || (r < 0 <==> a < 0))
    ensures TruncRem(a, b) == r
  {
    SplitUnique(a, b, q, r, TruncDiv(a, b), TruncRem(a, b));
  }

  /** Two splits a == b * q + r with remainders smaller than b and of the sign of a have
      the same remainder. */
  lemma {:induction false} SplitUnique(a: int, b: int, q: int, r: int, q': int, r': int)
    requires b != 0 && a == b * q + r && Abs(r) < Abs(b) && (r == 0 || (r < 0 <==> a < 0))
    requires a == b * q' + r' && Abs(r') < Abs(b) && (r' == 0 || (r' < 0 <==> a < 0))
    ensures r == r'
  {
    assert b * (q - q') == r' - r by {
      assert b * (q - q') == b * q - b * q';
    }
    if q != q' {
      AbsProduct(b, q - q');
      assert false;
    }
  }

  /** One round of Euclid's loop on known numbers. */
  lemma {:induction false} GcdStep(a: int, b: int, q: int, r: int)
    requires b != 0 && a == b * q + r && Abs(r) < Abs(b) && (r == 0 || (r < 0 <==> a < 0))
    ensures GcdSpec(a, b) == GcdSpec(b, r)
  {
    TruncUnique(a, b, q, r);
  }

  /** The gcds the unit tests go through, step by step. */
  lemma {:induction false} GcdTable()
    ensures GcdSpec(12, 2) == 2 && GcdSpec(22, 15) == 1 && GcdSpec(2, 15) == 1 && GcdSpec(-18, 9) == 9
  {
    GcdStep(12, 2, 6, 0);
    GcdStep(22, 15, 1, 7);
    GcdStep(15, 7, 2, 1);
    GcdStep(7, 1, 7, 0);
    GcdStep(2, 15, 0, 2);
    GcdStep(15, 2, 7, 1);
    GcdStep(2, 1, 2, 0);
    GcdStep(-18, 9, -2, 0);
  }

  lemma {:induction false} GcdTableMul()
    ensures GcdSpec(8, 15) == 1 && GcdSpec(8, -15) == 1 && GcdSpec(1, 4) == 1
    ensures GcdSpec(4, 9) == 1 && GcdSpec(4, 16) == 4
  {
    GcdStep(8, 15, 0, 8);
    GcdStep(15, 8, 1, 7);
    GcdStep(8, 7, 1, 1);
    GcdStep(7, 1, 7, 0);
    GcdStep(8, -15, 0, 8);
    GcdStep(-15, 8, -1, -7);
    GcdStep(8, -7, -1, 1);
    GcdStep(-7, 1, -7, 0);
    GcdStep(1, 4, 0, 1);
    GcdStep(4, 1, 4, 0);
    GcdStep(4, 9, 0, 4);
    GcdStep(9, 4, 2, 1);
    GcdStep(4, 16, 0, 4);
    GcdStep(16, 4, 4, 0);
  }

  /** The unit tests of gcd, add, mul and powi. */
  lemma {:induction false} ArithmeticTests()
    ensures GcdSpec(12, 2) == 2
    ensures Add(RationalNumber(2, 3), RationalNumber(4, 5)) == Ok(RationalNumber(22, 15))
    ensures Add(RationalNumber(-2, 3), RationalNumber(4, 5)) == Ok(RationalNumber(2, 15))
    ensures Add(RationalNumber(-2, 3), RationalNumber(-4, 3)) == Ok(RationalNumber(-2, 1))
    ensures Mul(RationalNumber(2, 3), RationalNumber(4, 5)) == Ok(RationalNumber(8, 15))
    ensures Mul(RationalNumber(2, -3), RationalNumber(4, 5)) == Ok(RationalNumber(8, -15))
    ensures Mul(RationalNumber(1, 2), RationalNumber(1, 2)) == Ok(RationalNumber(1, 4))
    ensures Powi(RationalNumber(2, -3), 2) == Ok(RationalNumber(4, 9))
    ensures Powi(RationalNumber(2, 4), 2) == Ok(RationalNumber(1, 4))
  {
    GcdTable();
    GcdTableMul();
    Reduces(22, 15, 1, 22, 15);
    Reduces(2, 15, 1, 2, 15);
    Reduces(-18, 9, 9, -2, 1);
    Reduces(8, 15, 1, 8, 15);
    Reduces(8, -15, 1, 8, -15);
    Reduces(1, 4, 1, 1, 4);
    assert Pow(2, 2) == 4 && Pow(-3, 2) == 9 && Pow(4, 2) == 16;
    Reduces(4, 9, 1, 4, 9);
    Reduces(4, 16, 4, 1, 4);
  }

  /** The reduced pairs the comparison tests go through. */
  lemma {:induction false} ReducedTable()
    ensures Reduced(RationalNumber(2, 4)) == Ok((1, 2)) && Reduced(RationalNumber(3, 6)) == Ok((1, 2))
    ensures Reduced(RationalNumber(1, 3)) == Ok((1, 3)) && Reduced(RationalNumber(2, 6)) == Ok((1, 3))
    ensures Reduced(RationalNumber(3, 4)) == Ok((3, 4)) && Reduced(RationalNumber(-1, 3)) == Ok((1, -3))
  {
    GcdStep(2, 4, 0, 2);
    GcdStep(4, 2, 2, 0);
    Reduces(2, 4, 2, 1, 2);
    GcdStep(3, 6, 0, 3);
    GcdStep(6, 3, 2, 0);
    Reduces(3, 6, 3, 1, 2);
    GcdStep(1, 3, 0, 1);
    GcdStep(3, 1, 3, 0);
    Reduces(1, 3, 1, 1, 3);
    GcdStep(2, 6, 0, 2);
    GcdStep(6, 2, 3, 0);
    Reduces(2, 6, 2, 1, 3);
    GcdStep(3, 4, 0, 3);
    GcdStep(4, 3, 1, 1);
    GcdStep(3, 1, 3, 0);
    Reduces(3, 4, 1, 3, 4);
    GcdStep(-1, 3, 0, -1);
    GcdStep(3, -1, -3, 0);
    Reduces(-1, 3, -1, 1, -3);
  }

  lemma {:induction false} ReducedTableMore()
    ensures Reduced(RationalNumber(1, 6)) == Ok((1, 6)) && Reduced(RationalNumber(1, 1)) == Ok((1, 1))
    ensures Reduced(RationalNumber(1, 2)) == Ok((1, 2))
    ensures Reduced(RationalNumber(1000000, 1000001)) == Ok((1000000, 1000001))
  {
    GcdStep(1, 6, 0, 1);
    GcdStep(6, 1, 6, 0);
    Reduces(1, 6, 1, 1, 6);
    GcdStep(1, 1, 1, 0);
    Reduces(1, 1, 1, 1, 1);
    GcdStep(1, 2, 0, 1);
    GcdStep(2, 1, 2, 0);
    Reduces(1, 2, 1, 1, 2);
    GcdStep(1000000, 1000001, 0, 1000000);
    GcdStep(1000001, 1000000, 1, 1);
    GcdStep(1000000, 1, 1000000, 0);
    Reduces(1000000, 1000001, 1, 1000000, 1000001);
  }

  /** The unit tests of `==`: 2/4 == 3/6, 1/3 == 2/6, 3/4 != 3/6, -1/3 != 1/6 and
      1/1 != 1000000/1000001. */
  lemma {:induction false} EqTests()
    ensures Eq(RationalNumber(2, 4), RationalNumber(3, 6)) == Ok(true)
    ensures Eq(RationalNumber(1, 3), RationalNumber(2, 6)) == Ok(true)
    ensures Eq(RationalNumber(3, 4), RationalNumber(3, 6)) == Ok(false)
    ensures Eq(RationalNumber(-1, 3), RationalNumber(1, 6)) == Ok(false)
    ensures Eq(RationalNumber(1, 1), RationalNumber(1000000, 1000001)) == Ok(false)
  {
    ReducedTable();
    ReducedTableMore();
  }

  /** The unit tests of the order: 1/2 > 1/3, -1/3 >= 2/6 (though -1/3 is smaller in
      value), and 1/1 is neither < nor <= 1000000/1000001. */
  lemma {:induction false} OrderTests()
    ensures Gt(RationalNumber(1, 2), RationalNumber(1, 3))
    ensures Ge(RationalNumber(-1, 3), RationalNumber(2, 6)) && -1 * 6 < 2 * 3
    ensures !Lt(RationalNumber(1, 1), RationalNumber(1000000, 1000001))
    ensures !Le(RationalNumber(1, 1), RationalNumber(1000000, 1000001))
  {
    ReducedTable();
    ReducedTableMore();
  }
}
