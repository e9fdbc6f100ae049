/** How a little-endian host keeps words of 32 bits in memory. */
module HostMemory {
  import opened Bits
  import opened Words

  // The bytes of a word as a little-endian host stores it.
  function HostBytes(w: nat): (b: seq<nat>)
    ensures |b| == 4
  {
    [w % 0x100, w / 0x100 % 0x100, w / 0x100 / 0x100 % 0x100, w / 0x100 / 0x100 / 0x100 % 0x100]
  }

  function HostWord(b: seq<nat>): nat
    requires |b| == 4
  {
    b[0] + 0x100 * (b[1] + 0x100 * (b[2] + 0x100 * b[3]))
  }

  lemma ShiftOut(low: nat, rest: nat)
    requires low < 0x100
    ensures (low + 0x100 * rest) / 0x100 == rest && (low + 0x100 * rest) % 0x100 == low
  {
  }

  lemma HostWordBytes(b: seq<nat>)
    requires |b| == 4 && forall i :: 0 <= i < 4 ==> b[i] < 0x100
    ensures HostWord(b) < WORD && HostBytes(HostWord(b)) == b
  {
    ShiftOut(b[0], b[1] + 0x100 * (b[2] + 0x100 * b[3]));
    ShiftOut(b[1], b[2] + 0x100 * b[3]);
    ShiftOut(b[2], b[3]);
  }

  lemma RightByte(w: nat)
    ensures Right(w, 8) == w / 0x100
  {
    RightFour(w, 0);
    RightFour(w, 4);
  }

  lemma RightFour(w: nat, n: nat)
    ensures Right(w, n + 4) == Right(w, n) / 16
  {
    assert Right(w, n + 1) == Right(w, n) / 2;
    assert Right(w, n + 2) == Right(w, n + 1) / 2;
    assert Right(w, n + 3) == Right(w, n + 2) / 2;
  }

  // Bit p of byte k is bit 8k + p of the word.
  lemma ByteBits(w: nat, k: nat, p: nat)
    requires k < 4
    ensures Bit(HostBytes(w)[k], p) <==> p < 8 && Bit(w, p + 8 * k)
    decreases k
  {
    if k == 0 {
      Powers();
      AndOnesIsRemainder(w, 8);
      AndBit(w, Ones(8), p);
      OnesBit(8, p);
    } else {
      ByteBits(w / 0x100, k - 1, p);
      RightByte(w);
      RightBit(w, 8, p + 8 * (k - 1));
    }
  }

  // The bytes of a word combine like the words.
  lemma AndBytes(a: nat, b: nat, k: nat)
    requires k < 4
    ensures HostBytes(And(a, b))[k] == And(HostBytes(a)[k], HostBytes(b)[k])
  {
    var x, y := HostBytes(And(a, b))[k], And(HostBytes(a)[k], HostBytes(b)[k]);
    forall p: nat ensures Bit(x, p) == Bit(y, p) {
      ByteBits(And(a, b), k, p);
      AndBit(a, b, p + 8 * k);
      AndBit(HostBytes(a)[k], HostBytes(b)[k], p);
      ByteBits(a, k, p);
      ByteBits(b, k, p);
    }
    SameBits(x, y);
  }
}
