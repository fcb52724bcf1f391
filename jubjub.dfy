/** The values of the embedded JubJub curve that a circuit may declare as
    public inputs: scalars of its group and affine points. */
module JubJub {
  import opened Field

  /** The order of the JubJub scalar field (the prime-order subgroup). */
  const L: nat := 0x0e7db4ea6533afa906673b0101343b00a6682093ccc81082d0970e5ed6f72cb7

  type JubJubScalar = x: int | 0 <= x < L

  /** An affine point; its coordinates live in the JubJub base field, which is
      the BLS12-381 scalar field. Curve membership is not modelled. */
  datatype JubJubAffine = JubJubAffine(x: BlsScalar, y: BlsScalar)
  {
    /** `get_x` */
    function GetX(): BlsScalar { x }
    /** `get_y` */
    function GetY(): BlsScalar { y }
  }

  /** The conversion `JubJubScalar -> BlsScalar`: the canonical representative
      of the JubJub scalar read as a BLS12-381 scalar. The body, `r == s`,
      is that choice, and the round-trip lemmas of `PublicInput` rely on it. */
  function Embed(s: JubJubScalar): (r: BlsScalar)
    ensures r < L
  {
    s
  }
}
