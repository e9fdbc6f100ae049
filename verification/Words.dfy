/** Words bit by bit: which bits the operations set. */
module Words {
  import opened Bits

  predicate Bit(w: nat, p: nat) {
    if p == 0 then w % 2 == 1 else Bit(w / 2, p - 1)
  }

  // a without the bits of b.
  function AndNot(a: nat, b: nat): nat {
    if a == 0 then 0 else (if a % 2 == 1 && b % 2 == 0 then 1 else 0) + 2 * AndNot(a / 2, b / 2)
  }

  function Left(a: nat, n: nat): nat {
    if n == 0 then a else 2 * Left(a, n - 1)
  }

  function Right(a: nat, n: nat): nat {
    if n == 0 then a else Right(a, n - 1) / 2
  }

  // A word whose lowest n bits are set.
  function Ones(n: nat): nat {
    if n == 0 then 0 else 1 + 2 * Ones(n - 1)
  }

  lemma {:induction false} ZeroBit(p: nat)
    ensures !Bit(0, p)
  {
    if p > 0 {
      ZeroBit(p - 1);
    }
  }

  lemma {:induction false} AndBit(a: nat, b: nat, p: nat)
    ensures Bit(And(a, b), p) <==> Bit(a, p) && Bit(b, p)
    decreases p
  {
    AndHalves(a, b);
    if p > 0 {
      AndBit(a / 2, b / 2, p - 1);
    }
  }

  lemma {:induction false} AgreeingBits(a: nat, b: nat, mask: nat, p: nat)
    requires Agree(a, b, mask) && Bit(mask, p)
    ensures Bit(a, p) == Bit(b, p)
    decreases p
  {
    AgreeHalves(a, b, mask);
    if p > 0 {
      AgreeingBits(a / 2, b / 2, mask / 2, p - 1);
    }
  }

  lemma {:induction false} DifferingBit(a: nat, b: nat, mask: nat) returns (p: nat)
    requires !Agree(a, b, mask)
    ensures Bit(mask, p) && Bit(a, p) != Bit(b, p)
    decreases mask
  {
    AgreeHalves(a, b, mask);
    if mask % 2 == 1 && a % 2 != b % 2 {
      p := 0;
    } else {
      var q := DifferingBit(a / 2, b / 2, mask / 2);
      p := q + 1;
    }
  }

  // Numbers agree under a mask if and only if they have the same bits where the mask has one.
  lemma AgreeBits(a: nat, b: nat, mask: nat)
    ensures Agree(a, b, mask) <==> forall p :: Bit(mask, p) ==> Bit(a, p) == Bit(b, p)
  {
    if Agree(a, b, mask) {
      forall p | Bit(mask, p) ensures Bit(a, p) == Bit(b, p) { AgreeingBits(a, b, mask, p); }
    } else {
      var p := DifferingBit(a, b, mask);
    }
  }

  lemma {:induction false} OrBit(a: nat, b: nat, p: nat)
    ensures Bit(Or(a, b), p) <==> Bit(a, p) || Bit(b, p)
    decreases p
  {
    assert Or(a, b) == (if a % 2 == 1 || b % 2 == 1 then 1 else 0) + 2 * Or(a / 2, b / 2);
    if p > 0 {
      OrBit(a / 2, b / 2, p - 1);
    }
  }

  lemma {:induction false} AndNotBit(a: nat, b: nat, p: nat)
    ensures Bit(AndNot(a, b), p) <==> Bit(a, p) && !Bit(b, p)
    decreases p
  {
    assert AndNot(a, b) == (if a % 2 == 1 && b % 2 == 0 then 1 else 0) + 2 * AndNot(a / 2, b / 2);
    if p > 0 {
      AndNotBit(a / 2, b / 2, p - 1);
    }
  }

  lemma {:induction false} LeftBit(a: nat, n: nat, p: nat)
    ensures Bit(Left(a, n), p) <==> n <= p && Bit(a, p - n)
    decreases n
  {
    if n > 0 {
      assert Left(a, n) % 2 == 0 && Left(a, n) / 2 == Left(a, n - 1);
      if p > 0 {
        LeftBit(a, n - 1, p - 1);
      }
    }
  }

  lemma {:induction false} RightBit(a: nat, n: nat, p: nat)
    ensures Bit(Right(a, n), p) <==> Bit(a, p + n)
    decreases n
  {
    if n > 0 {
      RightBit(a, n - 1, p + 1);
    }
  }

  lemma {:induction false} OnesBit(n: nat, p: nat)
    ensures Bit(Ones(n), p) <==> p < n
    decreases n
  {
    if n == 0 {
      ZeroBit(p);
    } else if p > 0 {
      OnesBit(n - 1, p - 1);
    }
  }

  // Words with the same bits are equal.
  lemma {:induction false} SameBits(a: nat, b: nat)
    requires forall p :: Bit(a, p) == Bit(b, p)
    ensures a == b
    decreases a + b
  {
    if a + b > 0 {
      assert Bit(a, 0) == Bit(b, 0);
      forall p: nat ensures Bit(a / 2, p) == Bit(b / 2, p) {
        assert Bit(a, p + 1) == Bit(b, p + 1);
      }
      SameBits(a / 2, b / 2);
    }
  }

  // A word below 2 to the n has no bit from n on.
  lemma {:induction false} NoHighBit(a: nat, n: nat, p: nat)
    requires a < Power(n) && n <= p
    ensures !Bit(a, p)
    decreases n
  {
    if n == 0 {
      ZeroBit(p);
    } else {
      NoHighBit(a / 2, n - 1, p - 1);
    }
  }

  // The lowest n bits of a word are its remainder by 2 to the n.
  lemma {:induction false} AndOnesIsRemainder(a: nat, n: nat)
    ensures Power(n) > 0 && And(a, Ones(n)) == a % Power(n)
    decreases n
  {
    AndHalves(a, Ones(n));
    if n > 0 {
      AndOnesIsRemainder(a / 2, n - 1);
      RemainderHalves(a, Power(n - 1));
    }
  }

  lemma RemainderHalves(a: nat, m: nat)
    requires m > 0
    ensures a % (2 * m) == a % 2 + 2 * (a / 2 % m)
  {
    var q := a / 2 / m;
    var r := a / 2 % m;
    assert a / 2 == q * m + r;
    assert a == q * (2 * m) + (a % 2 + 2 * r);
    RemainderUnique(a, 2 * m, q, a % 2 + 2 * r);
  }

  lemma RemainderUnique(a: nat, m: nat, q: nat, r: nat)
    requires r < m && a == q * m + r
    ensures a % m == r
  {
    assert a == (a / m) * m + a % m;
    var d := a / m - q;
    assert d * m == r - a % m;
    if d != 0 {
      MultipleFar(d, m);
    }
  }

  lemma MultipleFar(d: int, m: int)
    requires m > 0 && d != 0
    ensures d * m >= m || d * m <= -m
  {
    assert d >= 1 ==> (d - 1) * m >= 0;
    assert d <= -1 ==> (-1 - d) * m >= 0;
  }

  lemma {:induction false} OrZero(a: nat)
    ensures Or(a, 0) == a && Or(0, a) == a
  {
    if a != 0 {
      OrZero(a / 2);
    }
  }

  lemma AndAssociates(a: nat, b: nat, c: nat)
    ensures And(And(a, b), c) == And(a, And(b, c))
  {
    forall p: nat ensures Bit(And(And(a, b), c), p) == Bit(And(a, And(b, c)), p) {
      AndBit(And(a, b), c, p);
      AndBit(a, b, p);
      AndBit(a, And(b, c), p);
      AndBit(b, c, p);
    }
    SameBits(And(And(a, b), c), And(a, And(b, c)));
  }
}
