/** `ComplexRationalNumber`: a + b i with rational parts, and the three operations the
    rational escape-time kernel uses (addition, squaring, squared modulus). Every part
    of a result comes out of a rational operator, so it is reduced by the gcd and can
    panic where that operator panics. */
module ComplexRational {
  import opened Wrappers
  import R = Rational

  datatype ComplexRationalNumber = ComplexRationalNumber(a: R.RationalNumber, b: R.RationalNumber)

  /** `ComplexRationalNumber::default()`: 0/1 + (0/1) i. */
  const Origin := ComplexRationalNumber(R.Zero, R.Zero)

  /** The constant 2/1 of `pow2`. */
  const Two := R.RationalNumber(2, 1)

  /** Both parts have non-zero denominators. */
  predicate Proper(z: ComplexRationalNumber)
  {
    R.Proper(z.a) && R.Proper(z.b)
  }

  /** `self + rhs` (both `Add` impls): the real parts are added first, then the
      imaginary parts. */
  function Add(z: ComplexRationalNumber, w: ComplexRationalNumber): Result<ComplexRationalNumber>
  {
    var a :- R.Add(z.a, w.a);
    var b :- R.Add(z.b, w.b);
    Ok(ComplexRationalNumber(a, b))
  }

  /** `pow2`: (a.powi(2) - b.powi(2)) + (a * b * 2/1) i. */
  function Pow2(z: ComplexRationalNumber): Result<ComplexRationalNumber>
  {
    var aa :- R.Powi(z.a, 2);
    var bb :- R.Powi(z.b, 2);
    var re :- R.Sub(aa, bb);
    var ab :- R.Mul(z.a, z.b);
    var im :- R.Mul(ab, Two);
    Ok(ComplexRationalNumber(re, im))
  }

  /** `length_squared`: a.powi(2) + b.powi(2). */
  function LengthSquared(z: ComplexRationalNumber): Result<R.RationalNumber>
  {
    var aa :- R.Powi(z.a, 2);
    var bb :- R.Powi(z.b, 2);
    R.Add(aa, bb)
  }

  /** Addition panics exactly when one of the unreduced part sums is 0/0; on proper
      operands it never does, and each part of the result has the value of the exact
      sum of the parts. */
  lemma {:induction false} AddExact(z: ComplexRationalNumber, w: ComplexRationalNumber)
    ensures Add(z, w).Panic? <==> R.RawAdd(z.a, w.a) == R.RationalNumber(0, 0) ||
                                  R.RawAdd(z.b, w.b) == R.RationalNumber(0, 0)
    ensures Proper(z) && Proper(w) ==>
              Add(z, w).Ok? && Proper(Add(z, w).value) &&
              R.Equiv(Add(z, w).value.a, R.RawAdd(z.a, w.a)) && R.Equiv(Add(z, w).value.b, R.RawAdd(z.b, w.b))
  {
    R.ReduceSpec(R.RawAdd(z.a, w.a).num, R.RawAdd(z.a, w.a).denom);
    R.ReduceSpec(R.RawAdd(z.b, w.b).num, R.RawAdd(z.b, w.b).denom);
    if Proper(z) && Proper(w) {
      R.AddSubMulExact(z.a, w.a);
      R.AddSubMulExact(z.b, w.b);
    }
  }

  /** On a proper number, squaring never panics, and the parts of the result have the
      values of a * a - b * b and (a * b) * 2. */
  lemma {:induction false} Pow2Exact(z: ComplexRationalNumber)
    requires Proper(z)
    ensures Pow2(z).Ok? && Proper(Pow2(z).value)
    ensures R.Equiv(Pow2(z).value.a, R.RawSub(R.RawMul(z.a, z.a), R.RawMul(z.b, z.b)))
    ensures R.Equiv(Pow2(z).value.b, R.RawMul(R.RawMul(z.a, z.b), Two))
  {
    R.PowiSquare(z.a);
    R.PowiSquare(z.b);
    var aa, bb := R.Powi(z.a, 2).value, R.Powi(z.b, 2).value;
    R.AddSubMulExact(aa, bb);
    R.RawCongruent(aa, bb, R.RawMul(z.a, z.a), R.RawMul(z.b, z.b));
    R.NonZeroProduct(aa.denom, bb.denom);
    R.EquivTrans(R.Sub(aa, bb).value, R.RawSub(aa, bb), R.RawSub(R.RawMul(z.a, z.a), R.RawMul(z.b, z.b)));
    R.AddSubMulExact(z.a, z.b);
    var ab := R.Mul(z.a, z.b).value;
    R.AddSubMulExact(ab, Two);
    R.RawCongruent(ab, Two, R.RawMul(z.a, z.b), Two);
    R.EquivTrans(R.Mul(ab, Two).value, R.RawMul(ab, Two), R.RawMul(R.RawMul(z.a, z.b), Two));
  }

  /** On a proper number, the squared modulus never panics and has the value of
      a * a + b * b. */
  lemma {:induction false} LengthSquaredExact(z: ComplexRationalNumber)
    requires Proper(z)
    ensures LengthSquared(z).Ok? && R.Proper(LengthSquared(z).value)
    ensures R.Equiv(LengthSquared(z).value, R.RawAdd(R.RawMul(z.a, z.a), R.RawMul(z.b, z.b)))
  {
    R.PowiSquare(z.a);
    R.PowiSquare(z.b);
    var aa, bb := R.Powi(z.a, 2).value, R.Powi(z.b, 2).value;
    R.AddSubMulExact(aa, bb);
    R.RawCongruent(aa, bb, R.RawMul(z.a, z.a), R.RawMul(z.b, z.b));
    R.NonZeroProduct(aa.denom, bb.denom);
    R.EquivTrans(R.Add(aa, bb).value, R.RawAdd(aa, bb), R.RawAdd(R.RawMul(z.a, z.a), R.RawMul(z.b, z.b)));
  }

  /** The default number is 0: it squares to itself, adds to itself to give itself, and
      its squared modulus is 0/1. */
  lemma {:induction false} OriginFixed()
    ensures Proper(Origin)
    ensures Pow2(Origin) == Ok(Origin) && LengthSquared(Origin) == Ok(R.Zero)
    ensures Add(Origin, Origin) == Ok(Origin)
  {
    R.GcdStep(0, 1, 0, 0);
    R.Reduces(0, 1, 1, 0, 1);
    assert R.Pow(0, 2) == 0 && R.Pow(1, 2) == 1;
    assert R.Add(R.Zero, R.Zero) == R.Reduce(0, 1);
  }

  /** The derived `==`: the real parts are compared first and the imaginary parts only
      when those are equal, each with the reduced-form equality of the parts. */
  function Eq(z: ComplexRationalNumber, w: ComplexRationalNumber): Result<bool>
  {
    var same :- R.Eq(z.a, w.a);
    if same then R.Eq(z.b, w.b) else Ok(false)
  }

  /** The derived `partial_cmp`: lexicographic, real part first, each part ordered by
      the rational `partial_cmp`. */
  function PartialCmp(z: ComplexRationalNumber, w: ComplexRationalNumber): Result<R.Ordering>
  {
    var first :- R.PartialCmp(z.a, w.a);
    if first == R.Equal then R.PartialCmp(z.b, w.b) else Ok(first)
  }

  /** With no part 0/0, `==` never panics and holds exactly when both parts have the
      same value. */
  lemma {:induction false} EqSound(z: ComplexRationalNumber, w: ComplexRationalNumber)
    requires !(z.a.num == 0 && z.a.denom == 0) && !(w.a.num == 0 && w.a.denom == 0)
    requires !(z.b.num == 0 && z.b.denom == 0) && !(w.b.num == 0 && w.b.denom == 0)
    ensures Eq(z, w).Ok?
    ensures Eq(z, w) == Ok(true) <==> R.Equiv(z.a, w.a) && R.Equiv(z.b, w.b)
  {
    R.EqSound(z.a, w.a);
    R.EqSound(z.b, w.b);
  }

  /** The derived order inherits the reversed order of the parts: 2 + 0i comes before
      1 + 0i, and 1 + 2i comes before 1 + 0i, decided by the imaginary parts because the
      real parts tie. */
  lemma {:induction false} OrderInherited()
    ensures PartialCmp(ComplexRationalNumber(R.RationalNumber(2, 1), R.Zero),
                       ComplexRationalNumber(R.RationalNumber(1, 1), R.Zero)) == Ok(R.Less)
    ensures PartialCmp(ComplexRationalNumber(R.RationalNumber(1, 1), R.RationalNumber(2, 1)),
                       ComplexRationalNumber(R.RationalNumber(1, 1), R.Zero)) == Ok(R.Less)
  {
    R.GcdStep(2, 1, 2, 0);
    R.Reduces(2, 1, 1, 2, 1);
    R.GcdStep(1, 1, 1, 0);
    R.Reduces(1, 1, 1, 1, 1);
    R.GcdStep(0, 1, 0, 0);
    R.Reduces(0, 1, 1, 0, 1);
  }
}
