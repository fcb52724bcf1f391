# Public-input binding of a PLONK circuit, in Dafny

This project models how a PLONK circuit binds its declared public inputs to
the flat public-input vector that the verifier checks a proof against. It
covers the Rust file `src/circuit_builder.rs` of the `plonk` crate.

- **Encoding** (`PublicInput`). A `PublicInputValue` is the short list of
  BLS12-381 scalars that one declared public input adds to the vector. It is
  built by three type-directed `From` conversions. A BLS scalar `s` becomes
  `[s]`. A JubJub scalar becomes `[embed(s)]`. A JubJub affine point becomes
  `[x, y]`. A decoder (`Decode`) is the partner of these conversions: the
  round trips are proved in both directions. `Flatten` joins the lists in
  declaration order. `Unflatten` splits them back, given each value's kind.
  The conversions are lossless only together with each value's kind. A BLS
  scalar and a JubJub scalar with the same representative convert to the same
  `[s]` (`EncodeKindCollision`), so decoding needs the declared kinds.
- **The vector builder** (`CircuitBuilder`). `Circuit::build_pi` allocates
  `TRIM_SIZE` zeros. It flattens the declared values and zips the scalars
  with the recorded positions. Then it writes each scalar, negated, at its
  position. `BuildPi` does the same on an array inside a loop. It is proved
  equal to `BuildPiSpec`, a fold of single-entry updates. That fold is proved
  equal to `Pointwise`, an independent entry-by-entry definition. From these
  come the lemmas: the output length, zero fill, last write wins, silent
  truncation by `zip`, the negation convention, and the recovery of every
  declared scalar when positions are distinct.
- **Field** (`Field`, `JubJub`). BLS12-381 scalars are integers modulo the
  scalar-field order `r`, and `Neg(v) = (r - v) % r`. JubJub scalars are
  integers below the JubJub subgroup order `l`, which is less than `r`. The
  conversion of a JubJub scalar into a BLS scalar keeps its canonical
  representative. JubJub point coordinates are BLS scalars.

`TRIM_SIZE`, a constant of the `Circuit` trait, is the parameter `trimSize`
(or `n`) of the builder. `build_pi` reads `self` only for that constant.
It takes its inputs by shared reference, so the model passes them as values,
which it cannot change.

`build_pi` does not check that the flattened values and the positions have
the same length. `zip` stops at the shorter list and drops the rest without
an error (`PairCount`, `BuildPiTruncates`).

## Model

| member | source | states |
|---|---|---|
| `Field.Neg` | src/circuit_builder.rs:101 | the negated scalar adds to the scalar to give zero, and it is zero exactly when the scalar is zero |
| `Field.NegInvolutive` | src/circuit_builder.rs:101 | negating a public-input scalar twice gives it back |
| `Field.NegInjective` | src/circuit_builder.rs:101 | two scalars with the same negation are equal, so negation never merges two inputs |
| `JubJub.Embed` | src/circuit_builder.rs:32-36 | a JubJub scalar embedded into the BLS12-381 scalar field stays below the JubJub order |
| `PublicInput.FromBlsScalar` | src/circuit_builder.rs:26-30 | a BLS scalar converts to one scalar, and reading it back as a BLS scalar gives the original; its exact shape `[s]` is in `EncodeShape` |
| `PublicInput.FromJubJubScalar` | src/circuit_builder.rs:32-36 | a JubJub scalar converts to one scalar, and reading it back as a JubJub scalar gives the original; its shape `[embed(s)]` is in `EncodeShape` |
| `PublicInput.FromJubJubAffine` | src/circuit_builder.rs:38-42 | a point converts to two scalars, and reading them back as a point gives the original; the order x then y is in `EncodeShape` |
| `PublicInput.Encode` | src/circuit_builder.rs:26-42 | whichever conversion applies, the result has the arity of the value's kind and decodes at that kind to the original value (see also `DecodeEncode`) |
| `PublicInput.EncodeKindCollision` | src/circuit_builder.rs:26-36 | a BLS scalar and a JubJub scalar with the same representative convert to the same list, so the kind is needed to decode |
| `JubJub.JubJubAffine.GetX` | src/circuit_builder.rs:40 | the x-coordinate accessor `get_x`; `EncodeShape` states that it comes first |
| `JubJub.JubJubAffine.GetY` | src/circuit_builder.rs:40 | the y-coordinate accessor `get_y`; `EncodeShape` states that it comes second |
| `PublicInput.EncodeShape` | src/circuit_builder.rs:26-42 | a BLS scalar converts to exactly `[s]`, a JubJub scalar to exactly `[embed(s)]`, and a point to exactly two scalars, x first and y second |
| `PublicInput.Decode` | src/circuit_builder.rs:24-42 | a scalar list decodes only at a kind whose arity equals its length, and the result has that kind |
| `PublicInput.DecodeEncode` | src/circuit_builder.rs:26-42 | the conversions are lossless: decoding a converted value at its own kind returns it |
| `PublicInput.EncodeDecode` | src/circuit_builder.rs:26-42 | every scalar list that decodes is the conversion of its decoded value |
| `PublicInput.EncodeInjective` | src/circuit_builder.rs:26-42 | two domain values of the same kind with the same conversion are equal |
| `PublicInput.Flatten` | src/circuit_builder.rs:95-98 | the map/flatten chain; its properties are in `FlattenAppend`, `FlattenLength`, `FlattenSlot` and `UnflattenFlatten` |
| `PublicInput.FlattenAppend` | src/circuit_builder.rs:95-98 | flattening joins the values' scalars in declaration order: flattening a concatenation gives the concatenation of the flattenings |
| `PublicInput.FlattenLength` | src/circuit_builder.rs:95-98 | the flattened length is the sum of the individual lengths |
| `PublicInput.FlattenSlot` | src/circuit_builder.rs:95-98 | the scalars of the i-th value come right after those of the values declared before it, and right before those declared after it |
| `PublicInput.Offset` | src/circuit_builder.rs:95-98 | the i-th value's scalars occupy, in order, the slot of the flattening that starts at its offset |
| `PublicInput.Unflatten` | src/circuit_builder.rs:95-98 | splitting a flat scalar list by kinds succeeds only with one value per kind |
| `PublicInput.UnflattenFlatten` | src/circuit_builder.rs:95-98 | flattening converted values in declaration order loses nothing: given their kinds, the flat list splits back into exactly those values, in order |
| `CircuitBuilder.Zeros` | src/circuit_builder.rs:94 | the initial vector has `TRIM_SIZE` entries, and every entry is zero |
| `CircuitBuilder.PairCount` | src/circuit_builder.rs:99 | `zip` yields as many pairs as the shorter of the flattened scalars and the positions |
| `CircuitBuilder.PiAfter` | src/circuit_builder.rs:94-102 | the vector keeps its length `TRIM_SIZE` after any number of writes |
| `CircuitBuilder.BuildPiSpec` | src/circuit_builder.rs:94-103 | the fold of negated writes over every zipped pair has `TRIM_SIZE` entries; what each entry holds is in `BuildPiIsPointwise` and the lemmas after it |
| `CircuitBuilder.LastWrite` | src/circuit_builder.rs:99-102 | the index found is the last of the first k pairs aimed at the entry; -1 means no such pair exists |
| `CircuitBuilder.Pointwise` | src/circuit_builder.rs:94-102 | the entry-by-entry reference description of the vector has length `TRIM_SIZE` |
| `CircuitBuilder.PiAfterAt` | src/circuit_builder.rs:94-102 | after k writes, each entry holds the negated scalar of the last pair aimed at it, or zero if no pair is aimed at it |
| `CircuitBuilder.BuildPiIsPointwise` | src/circuit_builder.rs:94-103 | the fold of updates equals the entry-by-entry description |
| `CircuitBuilder.BuildPiLastWriteWins` | src/circuit_builder.rs:99-102 | if no later zipped pair reuses the position of pair k, then that entry holds `-flat[k]` |
| `CircuitBuilder.BuildPiZeroFill` | src/circuit_builder.rs:94 | an entry that no zipped pair is aimed at stays zero |
| `CircuitBuilder.PiAfterPrefix` | src/circuit_builder.rs:99-102 | the first k writes depend only on the first k scalars and the first k positions |
| `CircuitBuilder.BuildPiTruncates` | src/circuit_builder.rs:99 | scalars or positions beyond the shorter list are dropped: the result equals that of the truncated lists |
| `CircuitBuilder.BuildPiSingle` | src/circuit_builder.rs:94-103 | one scalar v at position p gives the vector that is zero everywhere except at p, where it holds `-v` |
| `CircuitBuilder.BuildPiRecoversInputs` | src/circuit_builder.rs:94-103 | with pairwise distinct zipped positions, negating the entry at each position gives back its scalar |
| `CircuitBuilder.BuildPiBindsValue` | src/circuit_builder.rs:89-104 | with distinct positions and one position per scalar, each scalar of each declared value is bound, negated, at its recorded position |
| `CircuitBuilder.BuildPi` | src/circuit_builder.rs:89-104 | `build_pi` returns `TRIM_SIZE` entries equal to the fold of negated writes over the zipped pairs; used positions must be below `TRIM_SIZE` |

## Left out

- `Circuit::compile`, `gen_proof` and `verify_proof` (src/circuit_builder.rs:60-86, 107-142) are not modelled. They only pass values between parameter trimming, the prover and the verifier, which are not part of this model. Their own logic is `?` error propagation and two `expect` calls.
- `Circuit::gadget` and the test circuit's gate emission (src/circuit_builder.rs:57, 169-209) are calls into the constraint-system composer, which is not part of this model.
- BLS12-381 and JubJub arithmetic is not modelled beyond negation and the scalar embedding. The embedding `JubJubScalar -> BlsScalar` is library code outside this file; the model takes it to keep the canonical representative. Whether a point's coordinates lie on the curve is not modelled.
- CircuitBuilder.BuildPi: an out-of-range position panics in the source after the earlier writes are done. The model makes "every used position is below `TRIM_SIZE`" a precondition instead.
- Positions are unbounded naturals rather than `usize`. Every used position is below `TRIM_SIZE` anyway.
- The test's file and serialization I/O, the random parameter setup, and the optional `Canon` derive (src/circuit_builder.rs:13-16, 21, 213-285) are not modelled.
