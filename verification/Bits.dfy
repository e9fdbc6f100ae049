/** Bitwise operations on unsigned numbers, bit by bit. */
module Bits {
  const WORD: nat := 0x1_0000_0000

  function Xor(a: nat, b: nat): nat {
    if a == 0 && b == 0 then 0 else (if a % 2 == b % 2 then 0 else 1) + 2 * Xor(a / 2, b / 2)
  }

  function And(a: nat, b: nat): nat {
    if a == 0 || b == 0 then 0 else (if a % 2 == 1 && b % 2 == 1 then 1 else 0) + 2 * And(a / 2, b / 2)
  }

  function Or(a: nat, b: nat): nat {
    if a == 0 && b == 0 then 0 else (if a % 2 == 1 || b % 2 == 1 then 1 else 0) + 2 * Or(a / 2, b / 2)
  }

  // 2 to the w.
  function Power(w: nat): nat {
    if w == 0 then 1 else 2 * Power(w - 1)
  }

  // a and b agree wherever the mask is set.
  predicate Agree(a: nat, b: nat, mask: nat) {
    And(Xor(a, b), mask) == 0
  }

  lemma {:induction false} AgreeHalves(a: nat, b: nat, mask: nat)
    ensures Agree(a, b, mask) <==> (mask % 2 == 1 ==> a % 2 == b % 2) && Agree(a / 2, b / 2, mask / 2)
  {
    assert a == 0 && b == 0 ==> Xor(a / 2, b / 2) == 0;
    assert Xor(a, b) / 2 == Xor(a / 2, b / 2);
    assert Xor(a, b) % 2 == if a % 2 == b % 2 then 0 else 1;
  }

  lemma {:induction false} AndHalves(a: nat, b: nat)
    ensures And(a, b) == (if a % 2 == 1 && b % 2 == 1 then 1 else 0) + 2 * And(a / 2, b / 2)
  {
  }

  lemma {:induction false} AndBelow(a: nat, b: nat)
    ensures And(a, b) <= a && And(a, b) <= b
  {
    if a != 0 && b != 0 {
      AndBelow(a / 2, b / 2);
    }
  }

  lemma {:induction false} AgreeReflexive(a: nat, mask: nat)
    ensures Agree(a, a, mask)
  {
    if a != 0 {
      AgreeHalves(a, a, mask);
      AgreeReflexive(a / 2, mask / 2);
    }
  }

  // The numbers of w bits that agree with b under a mask lie from b with its unmasked bits
  // cleared to b with its unmasked bits set, and both of these agree.
  lemma AgreeHull(w: nat, a: nat, b: nat, mask: nat)
    requires a < Power(w) && b < Power(w) && mask < Power(w)
    ensures Agree(a, b, mask) ==> And(b, mask) <= a <= And(b, mask) + (Power(w) - 1 - mask)
    ensures Agree(And(b, mask), b, mask)
    ensures And(b, mask) + (Power(w) - 1 - mask) < Power(w) && Agree(And(b, mask) + (Power(w) - 1 - mask), b, mask)
  {
    if Agree(a, b, mask) {
      AgreeBounds(w, a, b, mask);
    }
    LowestAgrees(b, mask);
    HighestAgrees(w, b, mask);
  }

  lemma {:induction false} AgreeBounds(w: nat, a: nat, b: nat, mask: nat)
    requires a < Power(w) && b < Power(w) && mask < Power(w) && Agree(a, b, mask)
    ensures And(b, mask) <= a <= And(b, mask) + (Power(w) - 1 - mask)
    decreases w
  {
    if w > 0 {
      AgreeHalves(a, b, mask);
      AgreeBounds(w - 1, a / 2, b / 2, mask / 2);
      AndHalves(b, mask);
    }
  }

  lemma {:induction false} LowestAgrees(b: nat, mask: nat)
    ensures Agree(And(b, mask), b, mask)
    decreases mask
  {
    if mask > 0 {
      var low := And(b, mask);
      AndHalves(b, mask);
      assert low / 2 == And(b / 2, mask / 2) && (mask % 2 == 1 ==> low % 2 == b % 2);
      LowestAgrees(b / 2, mask / 2);
      AgreeHalves(low, b, mask);
    }
  }

  lemma {:induction false} HighestAgrees(w: nat, b: nat, mask: nat)
    requires b < Power(w) && mask < Power(w)
    ensures And(b, mask) + (Power(w) - 1 - mask) < Power(w)
    ensures Agree(And(b, mask) + (Power(w) - 1 - mask), b, mask)
    decreases w
  {
    if w > 0 {
      HighestAgrees(w - 1, b / 2, mask / 2);
      AndHalves(b, mask);
      AgreeHalves(And(b, mask) + (Power(w) - 1 - mask), b, mask);
    }
  }

  // The unmasked bits are the lowest ones: a run of ones.
  predicate LowRun(open: nat) {
    And(open, open + 1) == 0
  }

  lemma {:induction false} AndSelf(a: nat)
    ensures And(a, a) == a
  {
    if a != 0 {
      AndSelf(a / 2);
    }
  }

  lemma {:induction false} OnesAreLowRun(w: nat)
    ensures Power(w) > 0 && LowRun(Power(w) - 1)
  {
    if w > 0 {
      OnesAreLowRun(w - 1);
      AndHalves(Power(w) - 1, Power(w));
    }
  }

  lemma LowRunHalves(open: nat)
    requires LowRun(open)
    ensures open % 2 == 0 ==> open == 0
    ensures LowRun(open / 2)
  {
    AndHalves(open, open + 1);
    if open % 2 == 0 {
      assert (open + 1) / 2 == open / 2;
      AndSelf(open / 2);
    } else {
      assert (open + 1) / 2 == open / 2 + 1;
    }
  }

  // A mask whose lowest bit is clear: the bounds of the halves.
  lemma IntervalHalves(w: nat, a: nat, b: nat, mask: nat)
    requires w > 0 && a < Power(w) && b < Power(w) && mask < Power(w) && mask % 2 == 0
    requires And(b, mask) <= a <= And(b, mask) + (Power(w) - 1 - mask)
    ensures a / 2 < Power(w - 1) && b / 2 < Power(w - 1) && mask / 2 < Power(w - 1)
    ensures Power(w - 1) - 1 - mask / 2 == (Power(w) - 1 - mask) / 2
    ensures And(b / 2, mask / 2) <= a / 2 <= And(b / 2, mask / 2) + (Power(w - 1) - 1 - mask / 2)
  {
    AndHalves(b, mask);
  }

  lemma OpenHalves(w: nat, mask: nat)
    requires mask < Power(w) - 1 && LowRun(Power(w) - 1 - mask)
    ensures w > 0 && mask % 2 == 0 && mask / 2 < Power(w - 1) && LowRun(Power(w - 1) - 1 - mask / 2)
  {
    LowRunHalves(Power(w) - 1 - mask);
    assert (Power(w) - 1 - mask) / 2 == Power(w - 1) - 1 - mask / 2;
  }

  lemma AgreeFull(w: nat, a: nat, b: nat)
    requires b < Power(w) && a == And(b, Power(w) - 1)
    ensures Agree(a, b, Power(w) - 1)
  {
    AndOnes(w, b);
    AgreeReflexive(a, Power(w) - 1);
  }

  // Then every number in between agrees.
  lemma {:induction false} AgreeInterval(w: nat, a: nat, b: nat, mask: nat)
    requires a < Power(w) && b < Power(w) && mask < Power(w)
    requires LowRun(Power(w) - 1 - mask)
    requires And(b, mask) <= a <= And(b, mask) + (Power(w) - 1 - mask)
    ensures Agree(a, b, mask)
    decreases w
  {
    if mask == Power(w) - 1 {
      AgreeFull(w, a, b);
    } else {
      OpenHalves(w, mask);
      IntervalHalves(w, a, b, mask);
      AgreeInterval(w - 1, a / 2, b / 2, mask / 2);
      AgreeHalves(a, b, mask);
    }
  }

  lemma {:induction false} AndOnes(w: nat, a: nat)
    requires a < Power(w)
    ensures And(a, Power(w) - 1) == a
    decreases w
  {
    if w > 0 {
      AndHalves(a, Power(w) - 1);
      AndOnes(w - 1, a / 2);
    }
  }

  lemma Powers()
    ensures Power(4) == 0x10 && Power(8) == 0x100 && Power(12) == 0x1000
    ensures Power(20) == 0x10_0000 && Power(32) == 0x1_0000_0000
  {
    PowerAdds(4, 4);
    PowerAdds(8, 4);
    PowerAdds(12, 8);
    PowerAdds(20, 12);
  }

  lemma {:induction false} PowerAdds(v: nat, w: nat)
    ensures Power(v + w) == Power(v) * Power(w)
  {
    if w > 0 {
      PowerAdds(v, w - 1);
      assert Power(v + w) == 2 * Power(v + w - 1) == 2 * (Power(v) * Power(w - 1)) == Power(v) * Power(w);
    }
  }
}
