/** The scalar field of BLS12-381, the field every public input of a circuit
    lives in. A scalar is its canonical representative in [0, R). */
module Field {

  /** The order r of the BLS12-381 scalar field. */
  const R: nat := 0x73eda753299d7d483339d80809a1d80553bda402fffe5bfeffffffff00000001

  type BlsScalar = x: int | 0 <= x < R

  /** The additive identity, `BlsScalar::zero()`. */
  function Zero(): BlsScalar { 0 }

  /** Field addition, used to state what negation means. */
  function Add(a: BlsScalar, b: BlsScalar): BlsScalar { (a + b) % R }

  /** Additive inverse, `-value` on a `BlsScalar`. */
  function Neg(v: BlsScalar): (r: BlsScalar)
    ensures Add(v, r) == Zero()
    ensures r == Zero() <==> v == Zero()
  {
    (R - v) % R
  }

  /** Negation is an involution: a public input negated twice is itself. */
  lemma NegInvolutive(v: BlsScalar)
    ensures Neg(Neg(v)) == v
  {
    if v != 0 {
      assert Neg(v) == R - v;
    }
  }

  /** Negation is injective, so two distinct inputs never collide once negated. */
  lemma NegInjective(a: BlsScalar, b: BlsScalar)
    requires Neg(a) == Neg(b)
    ensures a == b
  {
    NegInvolutive(a);
    NegInvolutive(b);
  }
}
