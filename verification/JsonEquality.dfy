/** What operator== tells apart. DoubleIntegers says the same for the comparison of integers with doubles. */
module JsonEquality {
  import opened Bytes
  import opened Doubles
  import opened Jsons

  const TWO_TO_64: int := 0x1_0000_0000_0000_0000

  /** No number in the value is a floating-point one. */
  predicate OnlyIntegers(j: Json) {
    match j
    case Float(_) => false
    case Array(a) => forall i :: 0 <= i < |a| ==> OnlyIntegers(a[i])
    case Object(m) => forall k :: k in m ==> OnlyIntegers(m[k])
    case _ => true
  }

  /** Integers of both kinds as residues modulo 2^64; everything else as it is. */
  function Residue(j: Json): Json
    decreases j, 1
  {
    match j
    case Integer(i) => Unsigned(i % TWO_TO_64)
    case Array(a) => Array(Residues(a))
    case Object(m) => Object(map k | k in m :: Residue(m[k]))
    case _ => j
  }

  function Residues(a: seq<Json>): (r: seq<Json>)
    ensures |r| == |a| && forall i :: 0 <= i < |a| ==> r[i] == Residue(a[i])
    decreases a, 0
  {
    seq(|a|, i requires 0 <= i < |a| => Residue(a[i]))
  }

  lemma SameResidue(i: int64, k: int64)
    ensures i % TWO_TO_64 == k % TWO_TO_64 <==> i == k
  {
    var (p, q) := (i % TWO_TO_64, k % TWO_TO_64);
    assert p == if i < 0 then i + TWO_TO_64 else i;
    assert q == if k < 0 then k + TWO_TO_64 else k;
  }

  lemma MixedResidue(i: int64, u: uint64)
    ensures i == ToSigned(u) <==> i % TWO_TO_64 == u
  {
    assert i % TWO_TO_64 == if i < 0 then i + TWO_TO_64 else i;
  }

  /** Values without floating-point numbers are equal exactly when they are the same, integers taken modulo 2^64. */
  lemma {:induction false} EqualIsSame(x: Json, y: Json)
    requires OnlyIntegers(x) && OnlyIntegers(y)
    ensures Equal(x, y) <==> Residue(x) == Residue(y)
    decreases x
  {
    match (x, y)
    case (Array(a), Array(b)) => ArraysEqual(x, y);
    case (Object(m), Object(n)) => ObjectsEqual(x, y);
    case (Integer(i), Integer(k)) => SameResidue(i, k);
    case (Integer(i), Unsigned(u)) => MixedResidue(i, u);
    case (Unsigned(u), Integer(i)) => MixedResidue(i, u);
    case _ =>
  }

  lemma {:induction false} ArraysEqual(x: Json, y: Json)
    requires x.Array? && y.Array? && OnlyIntegers(x) && OnlyIntegers(y)
    ensures Equal(x, y) <==> Residue(x) == Residue(y)
    decreases x, 0
  {
    var (a, b) := (x.elems, y.elems);
    if |a| == |b| {
      forall i | 0 <= i < |a| ensures Equal(a[i], b[i]) <==> Residues(a)[i] == Residues(b)[i] { EqualIsSame(a[i], b[i]); }
      assert Residues(a) == Residues(b) <==> forall i :: 0 <= i < |a| ==> Residues(a)[i] == Residues(b)[i];
    }
  }

  lemma {:induction false} ObjectsEqual(x: Json, y: Json)
    requires x.Object? && y.Object? && OnlyIntegers(x) && OnlyIntegers(y)
    ensures Equal(x, y) <==> Residue(x) == Residue(y)
    decreases x, 0
  {
    var (m, n) := (x.members, y.members);
    var (p, q) := (Residue(x).members, Residue(y).members);
    assert p.Keys == m.Keys && q.Keys == n.Keys;
    if m.Keys == n.Keys {
      forall k | k in m ensures Equal(m[k], n[k]) <==> p[k] == q[k] { EqualIsSame(m[k], n[k]); }
      assert p == q <==> forall k :: k in m ==> p[k] == q[k];
    }
  }

  /** What is left when every number is replaced by zero. */
  function Shape(j: Json): Json
    decreases j, 1
  {
    match j
    case Integer(_) => Unsigned(0)
    case Unsigned(_) => Unsigned(0)
    case Float(_) => Unsigned(0)
    case Array(a) => Array(Shapes(a))
    case Object(m) => Object(map k | k in m :: Shape(m[k]))
    case _ => j
  }

  function Shapes(a: seq<Json>): (r: seq<Json>)
    ensures |r| == |a| && forall i :: 0 <= i < |a| ==> r[i] == Shape(a[i])
    decreases a, 0
  {
    seq(|a|, i requires 0 <= i < |a| => Shape(a[i]))
  }

  /** Equal values have the same shape, keys, texts, booleans and nulls, whatever their numbers. */
  lemma {:induction false} EqualShapes(x: Json, y: Json)
    requires Equal(x, y)
    ensures Shape(x) == Shape(y)
    decreases x
  {
    match (x, y)
    case (Array(a), Array(b)) =>
      forall i | 0 <= i < |a| ensures Shapes(a)[i] == Shapes(b)[i] { EqualShapes(a[i], b[i]); }
      assert Shapes(a) == Shapes(b);
    case (Object(m), Object(n)) =>
      forall k | k in m ensures Shape(m[k]) == Shape(n[k]) { EqualShapes(m[k], n[k]); }
      assert Shape(x).members == Shape(y).members;
    case _ =>
  }

  /** Two floating-point numbers are equal when they have the same bits or are both zeros, and none of them is a NaN. */
  lemma FloatsEqual(a: uint64, b: uint64)
    ensures Equal(Float(a), Float(b)) <==>
      && (a / 0x10_0000_0000_0000 % 2048 == 2047 ==> a % 0x10_0000_0000_0000 == 0)
      && (a == b || (a in {0, 0x8000_0000_0000_0000} && b in {0, 0x8000_0000_0000_0000}))
  {
    NanFields(a);
    ZeroFields(a);
    ZeroFields(b);
  }

  lemma NanFields(a: uint64)
    ensures IsNaN(a) <==> a / 0x10_0000_0000_0000 % 2048 == 2047 && a % 0x10_0000_0000_0000 != 0
  {
    var (high, low) := (a / 0x10_0000_0000_0000, a % 0x10_0000_0000_0000);
    assert a == high * 0x10_0000_0000_0000 + low;
    var (sign, exponent) := (high / 2048, high % 2048);
    assert high == sign * 2048 + exponent && 0 <= sign <= 1;
    var rest := exponent * 0x10_0000_0000_0000 + low;
    assert a == sign * SIGN_BIT + rest && 0 <= rest < SIGN_BIT;
    assert a % SIGN_BIT == rest;
  }

  lemma ZeroFields(a: uint64)
    ensures a % SIGN_BIT == 0 <==> a in {0, 0x8000_0000_0000_0000}
  {
  }
}
