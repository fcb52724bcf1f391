/** `Circuit::build_pi`: the flat public-input vector the verifier checks a
    proof against. Every declared public input is flattened into scalars in
    declaration order, and each scalar is written, negated, at the position
    recorded for it at compile time; every other entry is zero. */
module CircuitBuilder {
  import opened Field
  import opened PublicInput

  /** `PublicInputPositions`: one index into the vector per flattened scalar. */
  type PublicInputPositions = seq<nat>

  /** The all-zero vector of length n, `vec![BlsScalar::zero(); n]`. */
  function Zeros(n: nat): (z: seq<BlsScalar>)
    ensures |z| == n && forall p :: 0 <= p < n ==> z[p] == Zero()
  {
    seq(n, _ => Zero())
  }

  /** How many (scalar, position) pairs `zip` produces: it stops at the
      shorter of the two lists. */
  function PairCount(flat: seq<BlsScalar>, positions: PublicInputPositions): (m: nat)
    ensures m <= |flat| && m <= |positions|
    ensures m == |flat| || m == |positions|
  {
    if |flat| <= |positions| then |flat| else |positions|
  }

  /** The source indexes the vector only at the positions `zip` reaches;
      any of those at or beyond the vector's length panics. */
  predicate UsedPositionsInRange(n: nat, flat: seq<BlsScalar>, positions: PublicInputPositions) {
    forall k :: 0 <= k < PairCount(flat, positions) ==> positions[k] < n
  }

  /** The vector after the first k pairs have been written, one update at a
      time and in order. */
  function PiAfter(n: nat, flat: seq<BlsScalar>, positions: PublicInputPositions, k: nat): (pi: seq<BlsScalar>)
    requires k <= |flat| && k <= |positions|
    requires forall j :: 0 <= j < k ==> positions[j] < n
    ensures |pi| == n
    decreases k
  {
    if k == 0 then Zeros(n)
    else PiAfter(n, flat, positions, k - 1)[positions[k - 1] := Neg(flat[k - 1])]
  }

  /** What `build_pi` returns, as a fold of updates over every zipped pair. */
  function BuildPiSpec(n: nat, flat: seq<BlsScalar>, positions: PublicInputPositions): (pi: seq<BlsScalar>)
    requires UsedPositionsInRange(n, flat, positions)
    ensures |pi| == n
  {
    PiAfter(n, flat, positions, PairCount(flat, positions))
  }

  /** The index of the last of the first k pairs that writes position p, or
      -1 when none of them does. */
  function LastWrite(positions: PublicInputPositions, k: nat, p: int): (j: int)
    requires k <= |positions|
    ensures -1 <= j < k
    ensures 0 <= j ==> positions[j] == p && forall i :: j < i < k ==> positions[i] != p
    ensures j == -1 ==> forall i :: 0 <= i < k ==> positions[i] != p
    decreases k
  {
    if k == 0 then -1
    else if positions[k - 1] == p then k - 1
    else LastWrite(positions, k - 1, p)
  }

  /** An independent, entry-by-entry description of the vector: an entry holds
      the negated scalar of the last pair aimed at it, and zero otherwise. */
  function Pointwise(n: nat, flat: seq<BlsScalar>, positions: PublicInputPositions): (pi: seq<BlsScalar>)
    ensures |pi| == n
  {
    var m := PairCount(flat, positions);
    seq(n, p => var j := LastWrite(positions, m, p); if j < 0 then Zero() else Neg(flat[j]))
  }

  /** Entry p after k writes is the last of them aimed at p, or zero. */
  lemma {:induction false} PiAfterAt(n: nat, flat: seq<BlsScalar>, positions: PublicInputPositions, k: nat, p: nat)
    requires k <= |flat| && k <= |positions|
    requires forall j :: 0 <= j < k ==> positions[j] < n
    requires p < n
    ensures var j := LastWrite(positions, k, p);
            PiAfter(n, flat, positions, k)[p] == if j < 0 then Zero() else Neg(flat[j])
    decreases k
  {
    if k > 0 && positions[k - 1] != p {
      PiAfterAt(n, flat, positions, k - 1, p);
    }
  }

  /** The fold of updates and the entry-by-entry description agree. */
  lemma BuildPiIsPointwise(n: nat, flat: seq<BlsScalar>, positions: PublicInputPositions)
    requires UsedPositionsInRange(n, flat, positions)
    ensures BuildPiSpec(n, flat, positions) == Pointwise(n, flat, positions)
  {
    var m := PairCount(flat, positions);
    forall p | 0 <= p < n
      ensures BuildPiSpec(n, flat, positions)[p] == Pointwise(n, flat, positions)[p]
    {
      PiAfterAt(n, flat, positions, m, p);
    }
  }

  /** Last write wins: the scalar of pair k is found, negated, at its position
      unless a later zipped pair is aimed at the same position. */
  lemma BuildPiLastWriteWins(n: nat, flat: seq<BlsScalar>, positions: PublicInputPositions, k: nat)
    requires UsedPositionsInRange(n, flat, positions)
    requires k < PairCount(flat, positions)
    requires forall j :: k < j < PairCount(flat, positions) ==> positions[j] != positions[k]
    ensures BuildPiSpec(n, flat, positions)[positions[k]] == Neg(flat[k])
  {
    var m := PairCount(flat, positions);
    PiAfterAt(n, flat, positions, m, positions[k]);
    assert LastWrite(positions, m, positions[k]) == k;
  }

  /** Zero fill: an entry that no zipped pair is aimed at stays zero. */
  lemma BuildPiZeroFill(n: nat, flat: seq<BlsScalar>, positions: PublicInputPositions, p: nat)
    requires UsedPositionsInRange(n, flat, positions)
    requires p < n
    requires forall k :: 0 <= k < PairCount(flat, positions) ==> positions[k] != p
    ensures BuildPiSpec(n, flat, positions)[p] == Zero()
  {
    PiAfterAt(n, flat, positions, PairCount(flat, positions), p);
  }

  /** The first k writes depend only on the first k scalars and positions. */
  lemma {:induction false} PiAfterPrefix(n: nat, flat: seq<BlsScalar>, positions: PublicInputPositions,
                                         flat': seq<BlsScalar>, positions': PublicInputPositions, k: nat)
    requires k <= |flat| && k <= |positions| && k <= |flat'| && k <= |positions'|
    requires flat[..k] == flat'[..k] && positions[..k] == positions'[..k]
    requires forall j :: 0 <= j < k ==> positions[j] < n
    ensures PiAfter(n, flat, positions, k) == PiAfter(n, flat', positions', k)
    decreases k
  {
    if k > 0 {
      assert flat[k - 1] == flat[..k][k - 1] && flat'[k - 1] == flat'[..k][k - 1];
      assert positions[k - 1] == positions[..k][k - 1] && positions'[k - 1] == positions'[..k][k - 1];
      assert flat[..k - 1] == flat[..k][..k - 1] && flat'[..k - 1] == flat'[..k][..k - 1];
      assert positions[..k - 1] == positions[..k][..k - 1] && positions'[..k - 1] == positions'[..k][..k - 1];
      PiAfterPrefix(n, flat, positions, flat', positions', k - 1);
    }
  }

  /** Silent truncation: scalars or positions beyond the shorter list are
      ignored, exactly as if they had never been supplied. */
  lemma BuildPiTruncates(n: nat, flat: seq<BlsScalar>, positions: PublicInputPositions)
    requires UsedPositionsInRange(n, flat, positions)
    ensures var m := PairCount(flat, positions);
            UsedPositionsInRange(n, flat[..m], positions[..m]) &&
            BuildPiSpec(n, flat, positions) == BuildPiSpec(n, flat[..m], positions[..m])
  {
    var m := PairCount(flat, positions);
    assert flat[..m][..m] == flat[..m] && positions[..m][..m] == positions[..m];
    PiAfterPrefix(n, flat, positions, flat[..m], positions[..m], m);
  }

  /** The negation convention: one scalar v at position p gives the vector
      that is zero everywhere except at p, where it holds -v. */
  lemma BuildPiSingle(n: nat, v: BlsScalar, p: nat)
    requires p < n
    ensures BuildPiSpec(n, [v], [p]) == Zeros(n)[p := Neg(v)]
  {
    assert PiAfter(n, [v], [p], 0) == Zeros(n);
  }

  /** When the zipped positions are pairwise distinct, every zipped scalar is
      read back from the vector by negating the entry at its position. */
  lemma BuildPiRecoversInputs(n: nat, flat: seq<BlsScalar>, positions: PublicInputPositions, k: nat)
    requires UsedPositionsInRange(n, flat, positions)
    requires forall i, j :: 0 <= i < j < PairCount(flat, positions) ==> positions[i] != positions[j]
    requires k < PairCount(flat, positions)
    ensures Neg(BuildPiSpec(n, flat, positions)[positions[k]]) == flat[k]
  {
    BuildPiLastWriteWins(n, flat, positions, k);
    NegInvolutive(flat[k]);
  }

  /** The binding of a whole declared input: with distinct positions and at
      least one position per scalar, the t-th scalar of the i-th declared
      value is bound, negated, at the position recorded right after those of
      the values declared before it. */
  lemma BuildPiBindsValue(n: nat, values: seq<PublicInputValue>, positions: PublicInputPositions, i: nat, t: nat)
    requires UsedPositionsInRange(n, Flatten(values), positions)
    requires |Flatten(values)| <= |positions|
    requires forall a, b :: 0 <= a < b < |Flatten(values)| ==> positions[a] != positions[b]
    requires i < |values| && t < |values[i].scalars|
    ensures var k := Offset(values, i) + t;
            Neg(BuildPiSpec(n, Flatten(values), positions)[positions[k]]) == values[i].scalars[t]
  {
    var flat := Flatten(values);
    var o, w := Offset(values, i), values[i].scalars;
    assert flat[o..o + |w|] == w;
    assert flat[o + t] == w[t];
    assert PairCount(flat, positions) == |flat|;
    BuildPiRecoversInputs(n, flat, positions, o + t);
  }

  /** `Circuit::build_pi`: allocate `trimSize` zeros, then write each
      flattened scalar, negated, at its zipped position. */
  method BuildPi(trimSize: nat, values: seq<PublicInputValue>, positions: PublicInputPositions)
    returns (pi: seq<BlsScalar>)
    requires UsedPositionsInRange(trimSize, Flatten(values), positions)
    ensures |pi| == trimSize
    ensures pi == BuildPiSpec(trimSize, Flatten(values), positions)
  {
    var buffer := new BlsScalar[trimSize](_ => Zero());
    var flat := Flatten(values);
    var m := PairCount(flat, positions);
    for k := 0 to m
      invariant buffer[..] == PiAfter(trimSize, flat, positions, k)
    {
      buffer[positions[k]] := Neg(flat[k]);
    }
    pi := buffer[..];
  }
}
