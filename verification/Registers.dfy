/**
 Registers of 32 bits: fields as ranges of bits of a word, the masks that select them, and
 the register that holds the word.
 */
module Registers {
  import opened Bits
  import opened Words

  const WIDTH: nat := 32

  datatype Field = Field(high: nat, low: nat)

  // What the constructor of a field asserts.
  predicate ValidField(f: Field) { f.low <= f.high < WIDTH }

  predicate Covers(f: Field, p: nat) { f.low <= p <= f.high }

  predicate Apart(f: Field, g: Field) { f.high < g.low || g.high < f.low }

  // ---------------------------------------------------------------------------------------
  // One field

  function Mask(f: Field): nat
    requires ValidField(f)
  {
    Left(Ones(f.high - f.low + 1), f.low)
  }

  // The field's value in a word, and a value put in the field's place.
  function Extract(f: Field, w: nat): nat
    requires ValidField(f)
  {
    Right(And(w, Mask(f)), f.low)
  }

  function Place(f: Field, v: nat): nat
    requires ValidField(f)
  {
    And(Left(v, f.low), Mask(f))
  }

  // As much of a value as the field can hold.
  function Truncate(f: Field, v: nat): nat
    requires ValidField(f)
  {
    And(v, Ones(f.high - f.low + 1))
  }

  // Builds the mask of a field bit by bit.
  method GenMask(f: Field) returns (mask: nat)
    requires ValidField(f)
    ensures mask == Mask(f)
  {
    var width := f.high - f.low + 1;
    mask := 0;
    for i := 0 to width
      invariant mask == Ones(i)
    {
      OrOne(mask);
      mask := Or(Left(mask, 1), 1);
    }
    mask := Left(mask, f.low);
  }

  lemma OrOne(a: nat)
    ensures Or(Left(a, 1), 1) == 2 * a + 1
  {
    assert Left(a, 1) == 2 * Left(a, 0);
    assert Or(2 * a, 1) == 1 + 2 * Or(a, 0);
    OrZero(a);
  }

  // The mask selects exactly the bits of the field.
  lemma MaskBits(f: Field, p: nat)
    requires ValidField(f)
    ensures Bit(Mask(f), p) <==> Covers(f, p)
  {
    LeftBit(Ones(f.high - f.low + 1), f.low, p);
    if f.low <= p {
      OnesBit(f.high - f.low + 1, p - f.low);
    }
  }

  // Bit p of a field's value is bit low + p of the word.
  lemma ExtractBits(f: Field, w: nat, p: nat)
    requires ValidField(f)
    ensures Bit(Extract(f, w), p) <==> p <= f.high - f.low && Bit(w, p + f.low)
  {
    RightBit(And(w, Mask(f)), f.low, p);
    AndBit(w, Mask(f), p + f.low);
    MaskBits(f, p + f.low);
  }

  lemma PlaceBits(f: Field, v: nat, p: nat)
    requires ValidField(f)
    ensures Bit(Place(f, v), p) <==> Covers(f, p) && Bit(v, p - f.low)
  {
    AndBit(Left(v, f.low), Mask(f), p);
    LeftBit(v, f.low, p);
    MaskBits(f, p);
  }

  lemma TruncateBits(f: Field, v: nat, p: nat)
    requires ValidField(f)
    ensures Bit(Truncate(f, v), p) <==> p <= f.high - f.low && Bit(v, p)
  {
    AndBit(v, Ones(f.high - f.low + 1), p);
    OnesBit(f.high - f.low + 1, p);
  }

  // What is put into a field is read back as far as it fits.
  lemma ExtractPlaced(f: Field, v: nat)
    requires ValidField(f)
    ensures Extract(f, Place(f, v)) == Truncate(f, v)
  {
    forall p: nat ensures Bit(Extract(f, Place(f, v)), p) == Bit(Truncate(f, v), p) {
      ExtractBits(f, Place(f, v), p);
      PlaceBits(f, v, p + f.low);
      TruncateBits(f, v, p);
    }
    SameBits(Extract(f, Place(f, v)), Truncate(f, v));
  }

  // A value fits if it is below 2 to the width of the field.
  lemma TruncateIsRemainder(f: Field, v: nat)
    requires ValidField(f)
    ensures Power(f.high - f.low + 1) > 0 && Truncate(f, v) == v % Power(f.high - f.low + 1)
  {
    AndOnesIsRemainder(v, f.high - f.low + 1);
  }

  // Fields share no bit exactly when their ranges are apart.
  lemma ApartExact(f: Field, g: Field)
    requires ValidField(f) && ValidField(g)
    ensures Apart(f, g) <==> And(Mask(f), Mask(g)) == 0
  {
    var both := And(Mask(f), Mask(g));
    if Apart(f, g) {
      forall p: nat ensures Bit(both, p) == Bit(0, p) {
        AndBit(Mask(f), Mask(g), p);
        MaskBits(f, p);
        MaskBits(g, p);
        ZeroBit(p);
      }
      SameBits(both, 0);
    } else {
      var p := if f.low <= g.low then g.low else f.low;
      AndBit(Mask(f), Mask(g), p);
      MaskBits(f, p);
      MaskBits(g, p);
      ZeroBit(p);
    }
  }

  // ---------------------------------------------------------------------------------------
  // All fields

  ghost predicate ValidFields(fs: seq<Field>) {
    forall f :: f in fs ==> ValidField(f)
  }

  ghost predicate Disjoint(fs: seq<Field>) {
    forall i, j :: 0 <= i < j < |fs| ==> Apart(fs[i], fs[j])
  }

  function UnionMask(fs: seq<Field>): nat
    requires ValidFields(fs)
  {
    if fs == [] then 0 else Or(UnionMask(fs[..|fs| - 1]), Mask(fs[|fs| - 1]))
  }

  // A register without fields is one 32-bit value.
  function RegisterMask(fs: seq<Field>): nat
    requires ValidFields(fs)
  {
    if fs == [] then Ones(WIDTH) else UnionMask(fs)
  }

  // The values of all fields in a word, and the word that holds given values.
  ghost function Values(fs: seq<Field>, w: nat): (vs: seq<nat>)
    requires ValidFields(fs)
    ensures |vs| == |fs|
  {
    seq(|fs|, k requires 0 <= k < |fs| => Extract(fs[k], w))
  }

  ghost function Pack(fs: seq<Field>, vs: seq<nat>): nat
    requires ValidFields(fs) && |vs| == |fs|
  {
    if fs == [] then 0
    else
      var k := |fs| - 1;
      Or(Pack(fs[..k], vs[..k]), Place(fs[k], vs[k]))
  }

  // The union selects exactly the bits of some field.
  lemma {:induction false} UnionBits(fs: seq<Field>, p: nat)
    requires ValidFields(fs)
    ensures Bit(UnionMask(fs), p) <==> exists k :: 0 <= k < |fs| && Covers(fs[k], p)
  {
    if fs == [] {
      ZeroBit(p);
    } else {
      var n := |fs| - 1;
      UnionBits(fs[..n], p);
      OrBit(UnionMask(fs[..n]), Mask(fs[n]), p);
      MaskBits(fs[n], p);
      if k :| 0 <= k < |fs[..n]| && Covers(fs[..n][k], p) {
        assert Covers(fs[k], p);
      }
      if k :| 0 <= k < |fs| && Covers(fs[k], p) {
        assert k < n ==> Covers(fs[..n][k], p);
      }
    }
  }

  // The value of field k sets bit p of the word.
  ghost predicate Sets(fs: seq<Field>, vs: seq<nat>, k: nat, p: nat)
    requires k < |fs| == |vs|
  {
    Covers(fs[k], p) && Bit(vs[k], p - fs[k].low)
  }

  ghost predicate SomeSets(fs: seq<Field>, vs: seq<nat>, p: nat)
    requires |fs| == |vs|
  {
    exists k: nat :: k < |fs| && Sets(fs, vs, k, p)
  }

  lemma SetsOneMore(fs: seq<Field>, vs: seq<nat>, p: nat)
    requires |fs| == |vs| > 0
    ensures var n := |fs| - 1;
      SomeSets(fs, vs, p) <==> SomeSets(fs[..n], vs[..n], p) || Sets(fs, vs, n, p)
  {
    var n := |fs| - 1;
    forall k: nat | k < n ensures Sets(fs[..n], vs[..n], k, p) == Sets(fs, vs, k, p) {}
    if k: nat :| k < n && Sets(fs[..n], vs[..n], k, p) {
      assert Sets(fs, vs, k, p);
    }
    if k: nat :| k < |fs| && Sets(fs, vs, k, p) {
      assert k < n ==> Sets(fs[..n], vs[..n], k, p);
    }
  }

  // Packing puts bit p - low of its value at each bit p of a field, if fields are apart.
  lemma {:induction false} PackBits(fs: seq<Field>, vs: seq<nat>, p: nat)
    requires ValidFields(fs) && |vs| == |fs|
    ensures Bit(Pack(fs, vs), p) <==> SomeSets(fs, vs, p)
  {
    if fs == [] {
      ZeroBit(p);
    } else {
      var n := |fs| - 1;
      PackBits(fs[..n], vs[..n], p);
      OrBit(Pack(fs[..n], vs[..n]), Place(fs[n], vs[n]), p);
      PlaceBits(fs[n], vs[n], p);
      SetsOneMore(fs, vs, p);
    }
  }

  // The values of a word, packed, are its bits within the fields.
  lemma PackValues(fs: seq<Field>, w: nat)
    requires ValidFields(fs)
    ensures Pack(fs, Values(fs, w)) == And(w, UnionMask(fs))
  {
    var vs := Values(fs, w);
    forall p: nat ensures Bit(Pack(fs, vs), p) == Bit(And(w, UnionMask(fs)), p) {
      PackBits(fs, vs, p);
      AndBit(w, UnionMask(fs), p);
      UnionBits(fs, p);
      forall k: nat | k < |fs| ensures Sets(fs, vs, k, p) == (Covers(fs[k], p) && Bit(w, p)) {
        if Covers(fs[k], p) {
          ExtractBits(fs[k], w, p - fs[k].low);
        }
      }
      if k: nat :| k < |fs| && Covers(fs[k], p) && Bit(w, p) {
        assert Sets(fs, vs, k, p);
      }
    }
    SameBits(Pack(fs, vs), And(w, UnionMask(fs)));
  }

  lemma PairApart(fs: seq<Field>, j: nat, k: nat)
    requires Disjoint(fs) && j < |fs| && k < |fs| && j != k
    ensures Apart(fs[j], fs[k])
  {
    if j > k {
      assert Apart(fs[k], fs[j]);
    }
  }

  lemma PackBitAt(fs: seq<Field>, vs: seq<nat>, k: nat, p: nat)
    requires ValidFields(fs) && Disjoint(fs) && |vs| == |fs| && k < |fs| && Covers(fs[k], p)
    ensures Bit(Pack(fs, vs), p) == Bit(vs[k], p - fs[k].low)
  {
    PackBits(fs, vs, p);
    forall j: nat | j < |fs| && j != k ensures !Sets(fs, vs, j, p) { PairApart(fs, j, k); }
    assert Sets(fs, vs, k, p) == Bit(vs[k], p - fs[k].low);
  }

  // Of fields that are apart, each gets back its value as far as it fits.
  lemma ValuesPacked(fs: seq<Field>, vs: seq<nat>, k: nat)
    requires ValidFields(fs) && Disjoint(fs) && |vs| == |fs| && k < |fs|
    ensures Extract(fs[k], Pack(fs, vs)) == Truncate(fs[k], vs[k])
  {
    var f := fs[k];
    forall p: nat ensures Bit(Extract(f, Pack(fs, vs)), p) == Bit(Truncate(f, vs[k]), p) {
      ExtractBits(f, Pack(fs, vs), p);
      TruncateBits(f, vs[k], p);
      if p <= f.high - f.low {
        PackBitAt(fs, vs, k, p + f.low);
      }
    }
    SameBits(Extract(f, Pack(fs, vs)), Truncate(f, vs[k]));
  }

  // ---------------------------------------------------------------------------------------
  // Operations

  datatype Op = WriteField(k: nat, value: nat) | WriteWord(value: nat) | BusWrite(value: nat)

  predicate ValidOp(fs: seq<Field>, op: Op) { op.WriteField? ==> op.k < |fs| }

  // What an operation makes of the word.
  function AfterOp(fs: seq<Field>, writeMask: nat, w: nat, op: Op): nat
    requires ValidFields(fs) && ValidOp(fs, op)
  {
    match op
    case WriteField(k, v) => And(Or(And(Left(v, fs[k].low), Mask(fs[k])), AndNot(w, Mask(fs[k]))), RegisterMask(fs))
    case WriteWord(v) => And(v, RegisterMask(fs))
    case BusWrite(v) => And(And(v, writeMask), RegisterMask(fs))
  }

  // What it makes of the values of the fields.
  ghost function ValuesAfterOp(fs: seq<Field>, writeMask: nat, vs: seq<nat>, op: Op): (r: seq<nat>)
    requires ValidFields(fs) && ValidOp(fs, op) && |vs| == |fs|
    ensures |r| == |fs|
  {
    match op
    case WriteField(k, v) => vs[k := Truncate(fs[k], v)]
    case WriteWord(v) => Values(fs, v)
    case BusWrite(v) => Values(fs, And(v, writeMask))
  }

  // Only bits of fields are set.
  ghost predicate WithinFields(fs: seq<Field>, w: nat)
    requires ValidFields(fs)
  {
    forall p: nat :: Bit(w, p) ==> exists k :: 0 <= k < |fs| && Covers(fs[k], p)
  }

  lemma MaskedWithin(fs: seq<Field>, w: nat)
    requires ValidFields(fs)
    ensures WithinFields(fs, And(w, UnionMask(fs)))
    ensures WithinFields(fs, w) <==> And(w, UnionMask(fs)) == w
  {
    var m := And(w, UnionMask(fs));
    forall p: nat ensures Bit(m, p) <==> Bit(w, p) && exists k :: 0 <= k < |fs| && Covers(fs[k], p) {
      AndBit(w, UnionMask(fs), p);
      UnionBits(fs, p);
    }
    if WithinFields(fs, w) {
      SameBits(m, w);
    }
  }

  // A field's value does not depend on bits outside the fields.
  lemma ExtractMasked(fs: seq<Field>, w: nat, k: nat)
    requires ValidFields(fs) && k < |fs|
    ensures Extract(fs[k], And(w, UnionMask(fs))) == Extract(fs[k], w)
  {
    var f, m := fs[k], And(w, UnionMask(fs));
    forall p: nat ensures Bit(Extract(f, m), p) == Bit(Extract(f, w), p) {
      ExtractBits(f, m, p);
      ExtractBits(f, w, p);
      AndBit(w, UnionMask(fs), p + f.low);
      UnionBits(fs, p + f.low);
      assert p <= f.high - f.low ==> Covers(fs[k], p + f.low);
    }
    SameBits(Extract(f, m), Extract(f, w));
  }

  // A field written reads back as far as the value fits, another keeps its value.
  lemma FieldWritten(f: Field, g: Field, w: nat, v: nat)
    requires ValidField(f) && ValidField(g) && (f == g || Apart(f, g))
    ensures Extract(g, Or(Place(f, v), AndNot(w, Mask(f)))) == if f == g then Truncate(f, v) else Extract(g, w)
  {
    var n := Or(Place(f, v), AndNot(w, Mask(f)));
    var r := if f == g then Truncate(f, v) else Extract(g, w);
    forall p: nat ensures Bit(Extract(g, n), p) == Bit(r, p) {
      ExtractBits(g, n, p);
      OrBit(Place(f, v), AndNot(w, Mask(f)), p + g.low);
      PlaceBits(f, v, p + g.low);
      AndNotBit(w, Mask(f), p + g.low);
      MaskBits(f, p + g.low);
      TruncateBits(f, v, p);
      ExtractBits(g, w, p);
    }
    SameBits(Extract(g, n), r);
  }

  // The word refines the map from fields to values: one operation.
  lemma OpRefines(fs: seq<Field>, writeMask: nat, w: nat, op: Op)
    requires ValidFields(fs) && Disjoint(fs) && fs != [] && ValidOp(fs, op)
    ensures WithinFields(fs, AfterOp(fs, writeMask, w, op))
    ensures Values(fs, AfterOp(fs, writeMask, w, op)) == ValuesAfterOp(fs, writeMask, Values(fs, w), op)
  {
    var n := AfterOp(fs, writeMask, w, op);
    var vs := ValuesAfterOp(fs, writeMask, Values(fs, w), op);
    var unmasked := match op
      case WriteField(k, v) => Or(Place(fs[k], v), AndNot(w, Mask(fs[k])))
      case WriteWord(v) => v
      case BusWrite(v) => And(v, writeMask);
    MaskedWithin(fs, unmasked);
    forall k: nat | k < |fs| ensures Values(fs, n)[k] == vs[k] {
      ExtractMasked(fs, unmasked, k);
      if op.WriteField? {
        if op.k != k {
          PairApart(fs, op.k, k);
        }
        FieldWritten(fs[op.k], fs[k], w, op.value);
      }
    }
  }

  ghost predicate ValidOps(fs: seq<Field>, ops: seq<Op>) {
    forall i :: 0 <= i < |ops| ==> ValidOp(fs, ops[i])
  }

  ghost function AfterOps(fs: seq<Field>, writeMask: nat, w: nat, ops: seq<Op>): nat
    requires ValidFields(fs) && ValidOps(fs, ops)
  {
    if ops == [] then w else AfterOp(fs, writeMask, AfterOps(fs, writeMask, w, ops[..|ops| - 1]), ops[|ops| - 1])
  }

  ghost function ValuesAfterOps(fs: seq<Field>, writeMask: nat, vs: seq<nat>, ops: seq<Op>): (r: seq<nat>)
    requires ValidFields(fs) && ValidOps(fs, ops) && |vs| == |fs|
    ensures |r| == |fs|
  {
    if ops == [] then vs
    else ValuesAfterOp(fs, writeMask, ValuesAfterOps(fs, writeMask, vs, ops[..|ops| - 1]), ops[|ops| - 1])
  }

  // After any sequence of field, register and bus writes the word is what the map from
  // fields to values packs to, and no bit outside the fields is set.
  lemma {:induction false} OpsRefine(fs: seq<Field>, writeMask: nat, w: nat, ops: seq<Op>)
    requires ValidFields(fs) && Disjoint(fs) && fs != [] && ValidOps(fs, ops) && WithinFields(fs, w)
    ensures WithinFields(fs, AfterOps(fs, writeMask, w, ops))
    ensures Values(fs, AfterOps(fs, writeMask, w, ops)) == ValuesAfterOps(fs, writeMask, Values(fs, w), ops)
    ensures AfterOps(fs, writeMask, w, ops) == Pack(fs, ValuesAfterOps(fs, writeMask, Values(fs, w), ops))
  {
    if ops != [] {
      var before := ops[..|ops| - 1];
      OpsRefine(fs, writeMask, w, before);
      OpRefines(fs, writeMask, AfterOps(fs, writeMask, w, before), ops[|ops| - 1]);
    }
    var n := AfterOps(fs, writeMask, w, ops);
    PackValues(fs, n);
    MaskedWithin(fs, n);
  }
}
