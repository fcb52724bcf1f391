/** `PublicInputValue`: one declared public input of a circuit, as the short
    sequence of BLS12-381 scalars it contributes to the public-input vector. */
module PublicInput {
  import opened Field
  import opened JubJub

  datatype Option<T> = None | Some(value: T)

  /** `PublicInputValue(Vec<BlsScalar>)` */
  datatype PublicInputValue = PublicInputValue(scalars: seq<BlsScalar>)

  /** The three kinds of domain value that convert into a `PublicInputValue`. */
  datatype Kind = BlsKind | JubJubScalarKind | JubJubAffineKind

  /** A domain value of one of those kinds. */
  datatype DomainValue =
    | Bls(s: BlsScalar)
    | JubJubScalarValue(j: JubJubScalar)
    | JubJubPoint(p: JubJubAffine)

  function KindOf(d: DomainValue): Kind {
    match d
    case Bls(_) => BlsKind
    case JubJubScalarValue(_) => JubJubScalarKind
    case JubJubPoint(_) => JubJubAffineKind
  }

  /** How many scalars a value of each kind occupies. */
  function Arity(k: Kind): nat {
    match k
    case BlsKind => 1
    case JubJubScalarKind => 1
    case JubJubAffineKind => 2
  }

  /** `From<BlsScalar> for PublicInputValue` */
  function FromBlsScalar(s: BlsScalar): (v: PublicInputValue)
    ensures |v.scalars| == Arity(BlsKind)
    ensures Decode(BlsKind, v) == Some(Bls(s))
  {
    PublicInputValue([s])
  }

  /** `From<JubJubScalar> for PublicInputValue` */
  function FromJubJubScalar(s: JubJubScalar): (v: PublicInputValue)
    ensures |v.scalars| == Arity(JubJubScalarKind)
    ensures Decode(JubJubScalarKind, v) == Some(JubJubScalarValue(s))
  {
    PublicInputValue([Embed(s)])
  }

  /** `From<JubJubAffine> for PublicInputValue` */
  function FromJubJubAffine(point: JubJubAffine): (v: PublicInputValue)
    ensures |v.scalars| == Arity(JubJubAffineKind)
    ensures Decode(JubJubAffineKind, v) == Some(JubJubPoint(point))
  {
    PublicInputValue([point.GetX(), point.GetY()])
  }

  /** The type-directed conversion, whichever `From` impl applies. */
  function Encode(d: DomainValue): (v: PublicInputValue)
    ensures |v.scalars| == Arity(KindOf(d))
    ensures Decode(KindOf(d), v) == Some(d)
  {
    match d
    case Bls(s) => FromBlsScalar(s)
    case JubJubScalarValue(j) => FromJubJubScalar(j)
    case JubJubPoint(p) => FromJubJubAffine(p)
  }

  /** Reads a domain value of the given kind back from its scalars; `None`
      when the length does not fit the kind, or when a would-be JubJub scalar
      is not below the JubJub order. */
  function Decode(k: Kind, v: PublicInputValue): (r: Option<DomainValue>)
    ensures r.Some? ==> KindOf(r.value) == k && |v.scalars| == Arity(k)
  {
    if |v.scalars| != Arity(k) then None
    else match k
      case BlsKind => Some(Bls(v.scalars[0]))
      case JubJubScalarKind =>
        if v.scalars[0] < L then Some(JubJubScalarValue(v.scalars[0])) else None
      case JubJubAffineKind => Some(JubJubPoint(JubJubAffine(v.scalars[0], v.scalars[1])))
  }

  /** A scalar converts to exactly one element, itself; a JubJub scalar to
      one element, its embedding; a point to two, x first then y. */
  lemma EncodeShape(d: DomainValue)
    ensures |Encode(d).scalars| == Arity(KindOf(d))
    ensures d.Bls? ==> Encode(d).scalars[0] == d.s
    ensures d.JubJubScalarValue? ==> Encode(d).scalars[0] == Embed(d.j)
    ensures d.JubJubPoint? ==> Encode(d).scalars[0] == d.p.GetX() && Encode(d).scalars[1] == d.p.GetY()
  {
  }

  /** The conversion is lossless: decoding at the value's own kind gives it back. */
  lemma DecodeEncode(d: DomainValue)
    ensures Decode(KindOf(d), Encode(d)) == Some(d)
  {
  }

  /** Every scalar sequence that decodes is the conversion of what it decodes to. */
  lemma EncodeDecode(k: Kind, v: PublicInputValue)
    requires Decode(k, v).Some?
    ensures Encode(Decode(k, v).value) == v
  {
  }

  /** Without its kind a converted value is ambiguous: a BLS scalar and a
      JubJub scalar with the same representative convert to the same list. */
  lemma EncodeKindCollision(s: JubJubScalar)
    ensures Encode(Bls(s)) == Encode(JubJubScalarValue(s))
    ensures KindOf(Bls(s)) != KindOf(JubJubScalarValue(s))
  {
  }

  /** Two domain values of the same kind with the same conversion are equal. */
  lemma EncodeInjective(a: DomainValue, b: DomainValue)
    requires KindOf(a) == KindOf(b)
    requires Encode(a) == Encode(b)
    ensures a == b
  {
    DecodeEncode(a);
    DecodeEncode(b);
  }

  /** The scalars of a list of public inputs, in declaration order: the
      `iter().map(|v| v.0.clone()).flatten()` chain. */
  function Flatten(values: seq<PublicInputValue>): (flat: seq<BlsScalar>)
    decreases |values|
  {
    if values == [] then [] else Flatten(values[..|values| - 1]) + values[|values| - 1].scalars
  }

  /** The sum of the individual lengths. */
  function TotalLength(values: seq<PublicInputValue>): nat
    decreases |values|
  {
    if values == [] then 0 else |values[0].scalars| + TotalLength(values[1..])
  }

  /** Flattening a concatenation concatenates the flattenings. */
  lemma {:induction false} FlattenAppend(a: seq<PublicInputValue>, b: seq<PublicInputValue>)
    ensures Flatten(a + b) == Flatten(a) + Flatten(b)
    decreases |b|
  {
    if b == [] {
      assert a + b == a;
    } else {
      var b' := b[..|b| - 1];
      assert (a + b)[..|a + b| - 1] == a + b';
      FlattenAppend(a, b');
    }
  }

  /** The flattened length is the sum of the individual lengths. */
  lemma {:induction false} FlattenLength(values: seq<PublicInputValue>)
    ensures |Flatten(values)| == TotalLength(values)
    decreases |values|
  {
    if values != [] {
      assert values == [values[0]] + values[1..];
      FlattenAppend([values[0]], values[1..]);
      assert [values[0]][..0] == [];
      FlattenLength(values[1..]);
    }
  }

  /** The scalars of the i-th value sit, in order, right after those of the
      values declared before it. */
  lemma {:induction false} FlattenSlot(values: seq<PublicInputValue>, i: nat)
    requires i < |values|
    ensures Flatten(values) == Flatten(values[..i]) + values[i].scalars + Flatten(values[i + 1..])
  {
    var front, back := values[..i + 1], values[i + 1..];
    assert values == front + back;
    FlattenAppend(front, back);
    assert front[..|front| - 1] == values[..i];
  }

  /** Where the scalars of the i-th declared value start in the flattening:
      they occupy the slot of their own length from there. */
  function Offset(values: seq<PublicInputValue>, i: nat): (o: nat)
    requires i < |values|
    ensures o + |values[i].scalars| <= |Flatten(values)|
    ensures Flatten(values)[o..o + |values[i].scalars|] == values[i].scalars
  {
    FlattenSlot(values, i);
    |Flatten(values[..i])|
  }

  /** The conversion of each declared domain value, in declaration order. */
  function EncodeAll(ds: seq<DomainValue>): (values: seq<PublicInputValue>)
    ensures |values| == |ds|
    ensures forall i :: 0 <= i < |ds| ==> values[i] == Encode(ds[i])
  {
    if ds == [] then [] else [Encode(ds[0])] + EncodeAll(ds[1..])
  }

  function KindsOf(ds: seq<DomainValue>): (kinds: seq<Kind>)
    ensures |kinds| == |ds|
    ensures forall i :: 0 <= i < |ds| ==> kinds[i] == KindOf(ds[i])
  {
    if ds == [] then [] else [KindOf(ds[0])] + KindsOf(ds[1..])
  }

  /** Splits a flat scalar list back into domain values of the given kinds,
      in order; `None` unless the scalars are used up exactly and each slice
      decodes. */
  function Unflatten(kinds: seq<Kind>, flat: seq<BlsScalar>): (r: Option<seq<DomainValue>>)
    ensures r.Some? ==> |r.value| == |kinds|
    decreases |kinds|
  {
    if kinds == [] then (if flat == [] then Some([]) else None)
    else
      var a := Arity(kinds[0]);
      if |flat| < a then None
      else match Decode(kinds[0], PublicInputValue(flat[..a]))
        case None => None
        case Some(d) =>
          match Unflatten(kinds[1..], flat[a..])
          case None => None
          case Some(rest) => Some([d] + rest)
  }

  /** Flattening a list with one value in front puts that value's scalars first. */
  lemma FlattenCons(v: PublicInputValue, vs: seq<PublicInputValue>)
    ensures Flatten([v] + vs) == v.scalars + Flatten(vs)
  {
    FlattenAppend([v], vs);
    assert [v][..0] == [];
  }

  /** One step of `Unflatten`: a leading slice that decodes, followed by a
      rest that splits. */
  lemma UnflattenStep(k: Kind, ks: seq<Kind>, head: seq<BlsScalar>, tail: seq<BlsScalar>,
                      d: DomainValue, rest: seq<DomainValue>)
    requires |head| == Arity(k)
    requires Decode(k, PublicInputValue(head)) == Some(d)
    requires Unflatten(ks, tail) == Some(rest)
    ensures Unflatten([k] + ks, head + tail) == Some([d] + rest)
  {
    var kinds, flat := [k] + ks, head + tail;
    assert kinds[0] == k && kinds[1..] == ks;
    assert flat[..|head|] == head && flat[|head|..] == tail;
  }

  /** Flattening in declaration order loses nothing: knowing each value's
      kind, the flat scalar list splits back into exactly the declared values. */
  lemma {:induction false} UnflattenFlatten(ds: seq<DomainValue>)
    ensures Unflatten(KindsOf(ds), Flatten(EncodeAll(ds))) == Some(ds)
    decreases |ds|
  {
    if ds != [] {
      var values := EncodeAll(ds);
      assert values == [Encode(ds[0])] + EncodeAll(ds[1..]);
      FlattenCons(Encode(ds[0]), EncodeAll(ds[1..]));
      assert KindsOf(ds) == [KindOf(ds[0])] + KindsOf(ds[1..]);
      EncodeShape(ds[0]);
      DecodeEncode(ds[0]);
      UnflattenFlatten(ds[1..]);
      UnflattenStep(KindOf(ds[0]), KindsOf(ds[1..]), Encode(ds[0]).scalars,
                    Flatten(EncodeAll(ds[1..])), ds[0], ds[1..]);
      assert [ds[0]] + ds[1..] == ds;
    }
  }
}
