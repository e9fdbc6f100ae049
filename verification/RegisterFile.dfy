/** Registers as objects: creation, the check of the fields, and access by field or bus. */
module RegisterFile {
  import opened Bits
  import opened Words
  import opened Registers

  // ---------------------------------------------------------------------------------------
  // The check of the fields

  // The fields are in the order of their highest bits, the highest first.
  ghost predicate Ordered(fs: seq<Field>) {
    forall i, j :: 0 <= i < j < |fs| ==> fs[i].high >= fs[j].high
  }

  // Field i, when it is sorted in, starts above the highest bit of g.
  predicate ClearOf(f: Field, g: Field) { g.high < f.high ==> g.high < f.low }

  // What the assertion in the insertion sort comes to: a field starts above every field
  // created before it that ends lower.
  ghost predicate PassesCheck(fs: seq<Field>) {
    forall j, i :: 0 <= j < i < |fs| ==> ClearOf(fs[i], fs[j])
  }

  // Fields that are apart pass, in whatever order they are created.
  lemma DisjointPasses(fs: seq<Field>)
    requires ValidFields(fs) && Disjoint(fs)
    ensures PassesCheck(fs)
  {
    forall j, i | 0 <= j < i < |fs| ensures ClearOf(fs[i], fs[j]) {
      assert Apart(fs[j], fs[i]) && ValidField(fs[j]);
    }
  }

  // Of disjointness the check leaves out the pairs of which the later field ends at or below
  // the earlier one.
  lemma PassesExact(fs: seq<Field>)
    requires ValidFields(fs)
    ensures Disjoint(fs) <==>
            PassesCheck(fs) && forall j, i :: 0 <= j < i < |fs| && fs[i].high <= fs[j].high ==> Apart(fs[j], fs[i])
  {
    if Disjoint(fs) {
      DisjointPasses(fs);
    }
    if PassesCheck(fs) && forall j, i :: 0 <= j < i < |fs| && fs[i].high <= fs[j].high ==> Apart(fs[j], fs[i]) {
      forall j, i | 0 <= j < i < |fs| ensures Apart(fs[j], fs[i]) { assert ClearOf(fs[i], fs[j]); }
    }
  }

  ghost function Highs(fs: seq<Field>): (hs: seq<nat>)
    ensures |hs| == |fs| && forall i :: 0 <= i < |fs| ==> hs[i] == fs[i].high
  {
    seq(|fs|, i requires 0 <= i < |fs| => fs[i].high)
  }

  ghost predicate Ascending(hs: seq<nat>) {
    forall j, i :: 0 <= j < i < |hs| ==> hs[j] < hs[i]
  }

  // In ascending order the check is exact.
  lemma AscendingExact(fs: seq<Field>)
    requires ValidFields(fs) && Ascending(Highs(fs))
    ensures PassesCheck(fs) <==> Disjoint(fs)
  {
    assert forall j, i :: 0 <= j < i < |fs| ==> Highs(fs)[j] < Highs(fs)[i];
    PassesExact(fs);
  }

  // Fields with these highest bits, in this order of creation, that pass the check.
  ghost predicate PassesWith(fs: seq<Field>, hs: seq<nat>) {
    ValidFields(fs) && Highs(fs) == hs && PassesCheck(fs)
  }

  // The check can be relied on for an order of creation, given by the highest bits, if and
  // only if that order is strictly ascending.
  lemma ReliableIffAscending(hs: seq<nat>)
    requires forall h :: h in hs ==> h < WIDTH
    ensures (forall fs :: PassesWith(fs, hs) ==> Disjoint(fs)) <==> Ascending(hs)
  {
    if Ascending(hs) {
      forall fs | PassesWith(fs, hs) ensures Disjoint(fs) { AscendingExact(fs); }
    } else {
      var p, q :| 0 <= p < q < |hs| && hs[p] >= hs[q];
      var fs := MissedFields(hs, p, q);
    }
  }

  // The first of the highest bits that is not below h.
  lemma {:induction false} FirstNotBelow(hs: seq<nat>, h: nat, p: nat) returns (i: nat)
    requires p < |hs| && hs[p] >= h
    ensures i <= p && hs[i] >= h && forall j :: 0 <= j < i ==> hs[j] < h
  {
    i := p;
    if j :| 0 <= j < p && hs[j] >= h {
      i := FirstNotBelow(hs, h, j);
    }
  }

  // Where a later field ends at or below an earlier one, one-bit fields pass, and they still
  // do if one is stretched down over the later one.
  lemma MissedFields(hs: seq<nat>, p: nat, q: nat) returns (fs: seq<Field>)
    requires p < q < |hs| && hs[p] >= hs[q] && forall h :: h in hs ==> h < WIDTH
    ensures PassesWith(fs, hs) && !Disjoint(fs)
  {
    var i := FirstNotBelow(hs, hs[q], p);
    fs := seq(|hs|, k requires 0 <= k < |hs| => Field(hs[k], if k == i then hs[q] else hs[k]));
    assert Highs(fs) == hs;
    assert forall k :: 0 <= k < |hs| ==> hs[k] in hs;
    forall j, k | 0 <= j < k < |fs| ensures ClearOf(fs[k], fs[j]) {
      assert k == i ==> hs[j] < hs[q];
    }
    assert !Apart(fs[i], fs[q]);
  }

  // A field created inside an earlier one is not noticed.
  lemma NestedFieldPasses()
    ensures var fs := [Field(31, 0), Field(7, 0)]; ValidFields(fs) && PassesCheck(fs) && !Disjoint(fs)
  {
    var fs := [Field(31, 0), Field(7, 0)];
    assert !Apart(fs[0], fs[1]);
  }

  // In a sorted row, being clear of the first field that ends lower is enough.
  lemma ClearOfFirst(row: seq<Field>, n: nat, f: Field)
    requires Ordered(row) && n <= |row|
    requires forall k :: 0 <= k < n ==> f.high <= row[k].high
    requires n < |row| ==> row[n].high < f.high
    ensures (n < |row| ==> row[n].high < f.low) <==> forall g :: g in row ==> ClearOf(f, g)
    ensures Ordered(row[..n] + [f] + row[n..])
  {
    if n < |row| {
      assert row[n] in row;
      if row[n].high < f.low {
        forall g | g in row ensures ClearOf(f, g) {
          var k :| 0 <= k < |row| && row[k] == g;
          assert n < k ==> row[n].high >= row[k].high;
        }
      } else {
        assert !ClearOf(f, row[n]);
      }
    }
  }

  lemma PassesOneMore(fs: seq<Field>, i: nat)
    requires i < |fs|
    ensures PassesCheck(fs[..i + 1]) <==> PassesCheck(fs[..i]) && forall g :: g in fs[..i] ==> ClearOf(fs[i], g)
  {
    var more := fs[..i + 1];
    assert more == fs[..i] + [fs[i]];
    if PassesCheck(more) {
      forall g | g in fs[..i] ensures ClearOf(fs[i], g) {
        var j :| 0 <= j < i && fs[j] == g;
        assert ClearOf(more[i], more[j]);
      }
      forall j, k | 0 <= j < k < i ensures ClearOf(fs[..i][k], fs[..i][j]) { assert ClearOf(more[k], more[j]); }
    }
    if PassesCheck(fs[..i]) && forall g :: g in fs[..i] ==> ClearOf(fs[i], g) {
      forall j, k | 0 <= j < k < i + 1 ensures ClearOf(more[k], more[j]) {
        assert k < i ==> ClearOf(fs[..i][k], fs[..i][j]);
        assert k == i ==> more[j] in fs[..i];
      }
    }
  }

  lemma SameElements(a: seq<Field>, b: seq<Field>)
    requires multiset(a) == multiset(b)
    ensures forall f :: f in a <==> f in b
  {
    assert forall f :: f in a <==> f in multiset(a);
    assert forall f :: f in b <==> f in multiset(b);
  }

  // Inserts a field before the first that ends lower, above which it has to start.
  method InsertField(row: seq<Field>, f: Field) returns (more: seq<Field>, clear: bool)
    requires Ordered(row)
    ensures Ordered(more) && multiset(more) == multiset(row) + multiset{f}
    ensures clear <==> forall g :: g in row ==> ClearOf(f, g)
  {
    var n := 0;
    while n < |row| && !(f.high > row[n].high)
      invariant n <= |row|
      invariant forall k :: 0 <= k < n ==> f.high <= row[k].high
    {
      n := n + 1;
    }
    ClearOfFirst(row, n, f);
    clear := n < |row| ==> f.low > row[n].high;
    assert row == row[..n] + row[n..];
    more := row[..n] + [f] + row[n..];
  }

  // Sorts the fields as they are inserted; the result says whether the assertions held.
  method SortFields(fs: seq<Field>) returns (sorted: seq<Field>, passed: bool)
    ensures Ordered(sorted) && multiset(sorted) == multiset(fs)
    ensures passed <==> PassesCheck(fs)
  {
    sorted, passed := [], true;
    for i := 0 to |fs|
      invariant Ordered(sorted) && multiset(sorted) == multiset(fs[..i])
      invariant passed <==> PassesCheck(fs[..i])
    {
      SameElements(sorted, fs[..i]);
      PassesOneMore(fs, i);
      assert fs[..i + 1] == fs[..i] + [fs[i]];
      var clear;
      sorted, clear := InsertField(sorted, fs[i]);
      passed := passed && clear;
    }
    assert fs[..|fs|] == fs;
  }

  // The bits that a register's mask selects.
  lemma RegisterMaskBits(fs: seq<Field>, p: nat)
    requires ValidFields(fs)
    ensures Bit(RegisterMask(fs), p) <==> if fs == [] then p < WIDTH else exists f :: f in fs && Covers(f, p)
  {
    if fs == [] {
      OnesBit(WIDTH, p);
    } else {
      UnionBits(fs, p);
      if f :| f in fs && Covers(f, p) {
        var k :| 0 <= k < |fs| && fs[k] == f;
        assert Covers(fs[k], p);
      }
      if k :| 0 <= k < |fs| && Covers(fs[k], p) {
        assert fs[k] in fs;
      }
    }
  }

  // Joins the masks of the fields.
  method FieldsMask(fs: seq<Field>) returns (mask: nat)
    requires ValidFields(fs)
    ensures mask == RegisterMask(fs)
    ensures forall p: nat :: Bit(mask, p) <==> if fs == [] then p < WIDTH else exists f :: f in fs && Covers(f, p)
  {
    if |fs| > 0 {
      mask := 0;
      for k := 0 to |fs|
        invariant ValidFields(fs[..k]) && mask == UnionMask(fs[..k])
      {
        var fmask := GenMask(fs[k]);
        assert fs[..k + 1][..k] == fs[..k];
        mask := Or(mask, fmask);
      }
      assert fs[..|fs|] == fs;
    } else {
      mask := Ones(WIDTH);
    }
    forall p: nat { RegisterMaskBits(fs, p); }
  }

  // ---------------------------------------------------------------------------------------
  // One register

  class Register {
    const resetVal: nat
    const writeMask: nat
    var fields: seq<Field>
    var mask: nat
    var curVal: nat

    // The register has been checked and reset.
    ghost predicate Valid()
      reads this
    {
      ValidFields(fields) && mask == RegisterMask(fields) && And(curVal, mask) == curVal
    }

    constructor (initVal: nat, writeMask: nat)
      ensures fields == [] && resetVal == initVal && this.writeMask == writeMask
    {
      resetVal, this.writeMask, fields := initVal, writeMask, [];
    }

    method CreateField(start: nat, end: nat)
      requires ValidField(Field(start, end))
      modifies this`fields
      ensures fields == old(fields) + [Field(start, end)]
    {
      fields := fields + [Field(start, end)];
    }

    // Sorts and checks the fields, computes the mask and resets the value.
    method CheckAndInit() returns (passed: bool)
      requires ValidFields(fields)
      modifies this
      ensures Valid() && curVal == And(resetVal, mask)
      ensures Ordered(fields) && multiset(fields) == multiset(old(fields))
      ensures passed <==> PassesCheck(old(fields))
      ensures Disjoint(old(fields)) ==> passed
    {
      ghost var before := fields;
      fields, passed := SortFields(fields);
      SameElements(fields, before);
      if Disjoint(before) {
        DisjointPasses(before);
      }
      mask := FieldsMask(fields);
      Write(resetVal);
    }

    method Read() returns (v: nat)
      ensures v == curVal
    {
      return curVal;
    }

    method Write(v: nat)
      requires ValidFields(fields) && mask == RegisterMask(fields)
      modifies this`curVal
      ensures Valid() && curVal == AfterOp(fields, writeMask, old(curVal), WriteWord(v))
    {
      AndTwice(v, mask);
      curVal := And(v, mask);
    }

    method MaskRead(m: nat, shift: nat) returns (v: nat)
      ensures v == Right(And(curVal, m), shift)
    {
      return Right(And(curVal, m), shift);
    }

    method MaskWrite(v: nat, m: nat, shift: nat)
      requires Valid()
      modifies this`curVal
      ensures Valid() && curVal == And(Or(And(Left(v, shift), m), AndNot(old(curVal), m)), mask)
    {
      Write(Or(And(Left(v, shift), m), AndNot(curVal, m)));
    }

    method FieldRead(k: nat) returns (v: nat)
      requires Valid() && k < |fields|
      ensures v == Extract(fields[k], curVal)
    {
      v := MaskRead(Mask(fields[k]), fields[k].low);
    }

    method FieldWrite(k: nat, v: nat)
      requires Valid() && k < |fields|
      modifies this`curVal
      ensures Valid() && curVal == AfterOp(fields, writeMask, old(curVal), WriteField(k, v))
    {
      MaskWrite(v, Mask(fields[k]), fields[k].low);
    }

    method BusRead() returns (v: nat)
      ensures v == curVal
    {
      v := Read();
    }

    method BusWrite(v: nat)
      requires Valid()
      modifies this`curVal
      ensures Valid() && curVal == AfterOp(fields, writeMask, old(curVal), Op.BusWrite(v))
    {
      Write(And(v, writeMask));
    }
  }

  lemma AndTwice(v: nat, m: nat)
    ensures And(And(v, m), m) == And(v, m)
  {
    AndAssociates(v, m, m);
    AndSelf(m);
  }
}
