/**
 The address decoder of the bus: a one-entry cache in front of a predecessor search in an
 ordered table.

 An entry has a base and a mask of 12 bits.  It selects the addresses whose upper 12 bits
 agree with the base wherever the mask is set.
 */
module AddressDecoder {
  import opened Bits
  import opened OrderedMap
  import W = Words

  datatype SlaveInfo = SlaveInfo(hindex: nat, hmask: nat, binding: nat)

  type Bar = Entry<SlaveInfo>

  // A key and mask of 32 ones, which no address of 12 bits agrees with.
  const NO_BAR: Bar := Entry(WORD - 1, SlaveInfo(0, WORD - 1, WORD - 1))

  // Upper 12 bits of an address.
  function Segment(address: nat): nat { address / 0x10_0000 }

  predicate Selects(b: Bar, seg: nat) {
    Agree(seg, b.key, b.value.hmask)
  }

  ghost predicate TwelveBit(b: Bar) {
    b.key < 0x1000 && b.value.hmask < 0x1000 && b.value.binding < 64
  }

  // The first and the last segment an entry can select.
  function First(b: Bar): nat { And(b.key, b.value.hmask) }

  function Last(b: Bar): int { First(b) + (0xFFF - b.value.hmask) }

  // The base has no bit outside the mask.
  predicate Aligned(b: Bar) { First(b) == b.key }

  predicate PrefixMask(b: Bar) {
    b.value.hmask < 0x1000 && LowRun(0xFFF - b.value.hmask)
  }

  ghost predicate WellFormed(m: seq<Bar>) {
    Sorted(m) && forall b :: b in m ==> TwelveBit(b)
  }

  function Socket(b: Bar): nat { b.value.binding / 4 }

  // What the documentation asks for: the socket of an entry that selects, or -1.
  function Scan(m: seq<Bar>, seg: nat): int {
    if m == [] then -1 else if Selects(m[0], seg) then Socket(m[0]) else Scan(m[1..], seg)
  }

  // The last entry at or below seg.
  function Predecessor(m: seq<Bar>, seg: nat): (i: nat)
    requires InReach(m, seg)
    ensures i < |m|
  {
    UpperBound(m, seg) - 1
  }

  function Search(m: seq<Bar>, seg: nat): int
    requires InReach(m, seg)
  {
    var b := m[Predecessor(m, seg)];
    if Selects(b, seg) then Socket(b) else -1
  }

  // There is an entry at or below seg; below the lowest the search would leave the table.
  predicate InReach(m: seq<Bar>, seg: nat) {
    m != [] && m[0].key <= seg
  }

  lemma SelectsWithin(b: Bar, seg: nat)
    requires TwelveBit(b) && seg < 0x1000
    ensures Selects(b, seg) ==> First(b) <= seg <= Last(b)
    ensures Selects(b, seg) <== PrefixMask(b) && First(b) <= seg <= Last(b)
    ensures Selects(b, First(b)) && Selects(b, Last(b))
    ensures First(b) <= b.key <= Last(b) < 0x1000
  {
    Powers();
    AgreeHull(12, seg, b.key, b.value.hmask);
    AgreeHull(12, b.key, b.key, b.value.hmask);
    AgreeReflexive(b.key, b.value.hmask);
    if PrefixMask(b) && First(b) <= seg <= Last(b) {
      AgreeInterval(12, seg, b.key, b.value.hmask);
    }
  }

  // An entry selects where the upper 12 bits agree with the base wherever the mask is set.
  lemma SelectsBits(b: Bar, seg: nat)
    ensures Selects(b, seg) <==> forall p :: W.Bit(b.value.hmask, p) ==> W.Bit(seg, p) == W.Bit(b.key, p)
  {
    W.AgreeBits(seg, b.key, b.value.hmask);
  }

  lemma NoBarSelectsNothing(seg: nat)
    requires seg < 0x1000
    ensures !Selects(NO_BAR, seg)
  {
    Powers();
    AgreeHull(32, seg, WORD - 1, WORD - 1);
    AndSelf(WORD - 1);
  }

  lemma PredecessorIs(m: seq<Bar>, seg: nat, i: nat)
    requires Sorted(m) && InReach(m, seg) && i < |m|
    ensures i == Predecessor(m, seg) <==> m[i].key <= seg && (i + 1 < |m| ==> seg < m[i + 1].key)
  {
    UpperBoundSplits(m, seg);
    var n := UpperBound(m, seg);
    if m[i].key <= seg {
      assert i < n;
      if i + 1 < n {
        assert m[i + 1].key <= seg;
      }
    }
  }

  // ---------------------------------------------------------------------------------------
  // Search against scan

  // Among the segments an entry may select from its base on there is no base of another
  // entry, and every base but the lowest is aligned.
  ghost predicate Unambiguous(m: seq<Bar>)
    requires WellFormed(m)
  {
    && (forall i :: 0 <= i < |m| - 1 ==> Last(m[i]) < m[i + 1].key)
    && (forall i :: 0 < i < |m| ==> Aligned(m[i]))
  }

  // For every segment from the lowest base on, an entry that selects it is the one the
  // search looks at: the search misses no entry, and no second entry selects.
  ghost predicate SearchMissesNone(m: seq<Bar>) {
    forall seg: nat, i :: 0 <= i < |m| && InReach(m, seg) && seg < 0x1000 && Selects(m[i], seg) ==> i == Predecessor(m, seg)
  }

  lemma UnambiguousSuffices(m: seq<Bar>)
    requires WellFormed(m) && Unambiguous(m)
    ensures SearchMissesNone(m)
  {
    forall seg: nat, i: nat | i < |m| && InReach(m, seg) && seg < 0x1000 && Selects(m[i], seg)
      ensures i == Predecessor(m, seg)
    {
      assert m[i] in m;
      SelectsWithin(m[i], seg);
      PredecessorIs(m, seg, i);
    }
  }

  // With prefix masks the condition is exact.
  lemma UnambiguousExact(m: seq<Bar>)
    requires WellFormed(m) && forall b :: b in m ==> PrefixMask(b)
    ensures SearchMissesNone(m) <==> Unambiguous(m)
  {
    if Unambiguous(m) {
      UnambiguousSuffices(m);
    }
    if SearchMissesNone(m) {
      forall i: nat | i < |m| - 1 ensures Last(m[i]) < m[i + 1].key {
        assert m[i] in m;
        SelectsWithin(m[i], 0);
        assert InReach(m, Last(m[i]));
        PredecessorIs(m, Last(m[i]), i);
      }
      forall i: nat | 0 < i < |m| ensures Aligned(m[i]) {
        var b := m[i];
        assert b in m;
        SelectsWithin(b, 0);
        if First(b) < b.key {
          // The segment before the base, or the lowest base, is selected but not looked up.
          var seg := if First(b) < m[0].key then m[0].key else First(b);
          SelectsWithin(b, seg);
          assert seg < b.key;
          PredecessorIs(m, seg, i);
        }
      }
    }
  }

  lemma {:induction false} ScanFinds(m: seq<Bar>, seg: nat, i: nat)
    requires i < |m| && Selects(m[i], seg)
    requires forall j :: 0 <= j < |m| && Selects(m[j], seg) ==> j == i
    ensures Scan(m, seg) == Socket(m[i])
  {
    if i > 0 {
      assert !Selects(m[0], seg);
      assert forall j :: 0 <= j < |m[1..]| ==> m[1..][j] == m[j + 1];
      ScanFinds(m[1..], seg, i - 1);
    }
  }

  lemma {:induction false} ScanFindsNone(m: seq<Bar>, seg: nat)
    requires forall j :: 0 <= j < |m| ==> !Selects(m[j], seg)
    ensures Scan(m, seg) == -1
  {
    if m != [] {
      ScanFindsNone(m[1..], seg);
    }
  }

  // In an unambiguous table the search computes the documented scan.
  lemma SearchIsScan(m: seq<Bar>, seg: nat)
    requires WellFormed(m) && Unambiguous(m) && InReach(m, seg) && seg < 0x1000
    ensures Search(m, seg) == Scan(m, seg)
  {
    UnambiguousSuffices(m);
    var p := Predecessor(m, seg);
    if Selects(m[p], seg) {
      ScanFinds(m, seg, p);
    } else {
      ScanFindsNone(m, seg);
    }
  }

  lemma OneSelects(m: seq<Bar>, seg: nat, i: nat, j: nat)
    requires WellFormed(m) && Unambiguous(m) && seg < 0x1000
    requires i < j < |m|
    ensures !(Selects(m[i], seg) && Selects(m[j], seg))
  {
    assert m[i] in m && m[j] in m;
    SelectsWithin(m[i], seg);
    SelectsWithin(m[j], seg);
    assert m[i + 1].key <= m[j].key;
  }

  // So does any entry that selects, wherever it is kept; this is what the cache relies on.
  lemma AnySelectedIsScan(m: seq<Bar>, seg: nat, b: Bar)
    requires WellFormed(m) && Unambiguous(m) && seg < 0x1000
    requires b in m && Selects(b, seg)
    ensures Scan(m, seg) == Socket(b)
  {
    var i :| 0 <= i < |m| && m[i] == b;
    forall j: nat | j < |m| && Selects(m[j], seg) ensures j == i {
      if i < j {
        OneSelects(m, seg, i, j);
      } else if j < i {
        OneSelects(m, seg, j, i);
      }
    }
    ScanFinds(m, seg, i);
  }

  // The entry is that of register `bar` of the slave at socket `slave`.
  ghost predicate BoundAs(b: Bar, slave: nat, bar: nat) {
    b.value.binding == 4 * slave + bar && bar < 4
  }

  // The answer is the slave an entry of which selects, and -1 if there is none.
  ghost predicate Found(m: seq<Bar>, seg: nat, index: int) {
    && (forall b, slave, bar :: b in m && Selects(b, seg) && BoundAs(b, slave, bar) ==> index == slave)
    && ((forall b :: b in m ==> !Selects(b, seg)) ==> index == -1)
  }

  lemma BindingSocket(b: Bar, slave: nat, bar: nat)
    requires BoundAs(b, slave, bar)
    ensures Socket(b) == slave
  {
  }

  lemma ScanIsFound(m: seq<Bar>, seg: nat)
    requires WellFormed(m) && Unambiguous(m) && seg < 0x1000
    ensures Found(m, seg, Scan(m, seg))
  {
    forall b, slave, bar | b in m && Selects(b, seg) && BoundAs(b, slave, bar) ensures Scan(m, seg) == slave
    {
      AnySelectedIsScan(m, seg, b);
      BindingSocket(b, slave, bar);
    }
    if forall b :: b in m ==> !Selects(b, seg) {
      assert forall i :: 0 <= i < |m| ==> m[i] in m;
      ScanFindsNone(m, seg);
    }
  }

  // ---------------------------------------------------------------------------------------
  // The slaves on the bus

  // One of the four base address registers of a slave, of 12 bits each.
  datatype SlaveBar = SlaveBar(used: bool, base: nat, mask: nat)

  datatype Slave = Slave(hindex: nat, bars: seq<SlaveBar>)

  ghost predicate ValidSlaves(slaves: seq<Slave>) {
    && |slaves| <= 16
    && forall i :: 0 <= i < |slaves| ==> ValidSlave(slaves[i])
  }

  ghost predicate ValidSlave(s: Slave) {
    |s.bars| == 4 && forall j :: 0 <= j < 4 ==> s.bars[j].base < 0x1000 && s.bars[j].mask < 0x1000
  }

  // Register j of the slave at socket i is in use.
  ghost predicate Used(slaves: seq<Slave>, i: int, j: int)
    requires ValidSlaves(slaves)
  {
    0 <= i < |slaves| && 0 <= j < 4 && slaves[i].bars[j].used
  }

  // Its entry in the decoder's table.
  ghost function BarOf(slaves: seq<Slave>, i: nat, j: nat): Bar
    requires ValidSlaves(slaves) && i < |slaves| && j < 4
  {
    var s := slaves[i];
    Entry(s.bars[j].base, SlaveInfo(s.hindex, s.bars[j].mask, 4 * i + j))
  }

  // Register j of slave i comes before register l of slave k.
  ghost predicate Before(i: int, j: int, k: int, l: int) {
    i < k || (i == k && j < l)
  }

  // The table holds entries of registers before that of slave k, and has each of their bases.
  ghost predicate ListsUpTo(slaves: seq<Slave>, m: seq<Bar>, k: nat, l: nat)
    requires ValidSlaves(slaves)
  {
    && (forall b :: b in m ==>
          exists i: nat, j: nat :: Before(i, j, k, l) && Used(slaves, i, j) && b == BarOf(slaves, i, j))
    && (forall i: nat, j: nat :: Before(i, j, k, l) && Used(slaves, i, j) ==> HasKey(m, slaves[i].bars[j].base))
  }

  // The table of all the slaves.
  ghost predicate Lists(slaves: seq<Slave>, m: seq<Bar>)
    requires ValidSlaves(slaves)
  {
    ListsUpTo(slaves, m, |slaves|, 0)
  }

  ghost predicate DistinctBases(slaves: seq<Slave>)
    requires ValidSlaves(slaves)
  {
    forall i: nat, j: nat, k: nat, l: nat ::
      Used(slaves, i, j) && Used(slaves, k, l) && slaves[i].bars[j].base == slaves[k].bars[l].base ==> i == k && j == l
  }

  lemma OneMoreListed(slaves: seq<Slave>, m: seq<Bar>, n: seq<Bar>, k: nat, l: nat)
    requires ValidSlaves(slaves) && k < |slaves| && l < 4 && ListsUpTo(slaves, m, k, l)
    requires !Used(slaves, k, l) || HasKey(m, slaves[k].bars[l].base) ==> n == m
    requires Used(slaves, k, l) && !HasKey(m, slaves[k].bars[l].base) ==>
      forall b :: b in n <==> b in m || b == BarOf(slaves, k, l)
    ensures ListsUpTo(slaves, n, k, l + 1)
  {
    forall b | b in n
      ensures exists i: nat, j: nat :: Before(i, j, k, l + 1) && Used(slaves, i, j) && b == BarOf(slaves, i, j)
    {
      if b in m {
        var i: nat, j: nat :| Before(i, j, k, l) && Used(slaves, i, j) && b == BarOf(slaves, i, j);
        assert Before(i, j, k, l + 1);
      } else {
        assert Before(k, l, k, l + 1);
      }
    }
    forall i: nat, j: nat | Before(i, j, k, l + 1) && Used(slaves, i, j)
      ensures HasKey(n, slaves[i].bars[j].base)
    {
      if Before(i, j, k, l) {
        var b :| b in m && b.key == slaves[i].bars[j].base;
        assert b in n;
      } else {
        assert HasKey(m, slaves[k].bars[l].base) || BarOf(slaves, k, l) in n;
      }
    }
  }

  lemma UsedIsListed(slaves: seq<Slave>, m: seq<Bar>, i: nat, j: nat)
    requires ValidSlaves(slaves) && DistinctBases(slaves) && Lists(slaves, m) && Used(slaves, i, j)
    ensures BarOf(slaves, i, j) in m
  {
    assert Before(i, j, |slaves|, 0);
    var b :| b in m && b.key == slaves[i].bars[j].base;
    var k: nat, l: nat :| Used(slaves, k, l) && b == BarOf(slaves, k, l);
    assert k == i && l == j;
  }

  // Some register of the slave at socket i selects.
  ghost predicate SlaveSelects(slaves: seq<Slave>, i: nat, seg: nat)
    requires ValidSlaves(slaves)
  {
    exists j: nat :: Used(slaves, i, j) && Selects(BarOf(slaves, i, j), seg)
  }

  lemma SelectingIsFound(slaves: seq<Slave>, m: seq<Bar>, seg: nat, i: nat)
    requires ValidSlaves(slaves) && DistinctBases(slaves) && Lists(slaves, m)
    requires WellFormed(m) && Unambiguous(m) && seg < 0x1000 && SlaveSelects(slaves, i, seg)
    ensures Scan(m, seg) == i
  {
    var j: nat :| Used(slaves, i, j) && Selects(BarOf(slaves, i, j), seg);
    UsedIsListed(slaves, m, i, j);
    AnySelectedIsScan(m, seg, BarOf(slaves, i, j));
    BindingSocket(BarOf(slaves, i, j), i, j);
  }

  lemma FoundSelects(slaves: seq<Slave>, m: seq<Bar>, seg: nat)
    requires ValidSlaves(slaves) && Lists(slaves, m) && Scan(m, seg) >= 0
    ensures exists i: nat :: SlaveSelects(slaves, i, seg)
  {
    if forall i :: 0 <= i < |m| ==> !Selects(m[i], seg) {
      ScanFindsNone(m, seg);
    } else {
      var k :| 0 <= k < |m| && Selects(m[k], seg);
      assert m[k] in m;
      var i: nat, j: nat :| Used(slaves, i, j) && m[k] == BarOf(slaves, i, j);
      assert SlaveSelects(slaves, i, seg);
    }
  }

  // In an unambiguous table of slaves whose bases differ, an address goes to socket i if and
  // only if a register of the slave there selects it, and nowhere if none does.
  lemma SlaveIsFound(slaves: seq<Slave>, m: seq<Bar>, seg: nat, i: nat)
    requires ValidSlaves(slaves) && DistinctBases(slaves) && Lists(slaves, m)
    requires WellFormed(m) && Unambiguous(m) && seg < 0x1000
    ensures Scan(m, seg) == i <==> SlaveSelects(slaves, i, seg)
    ensures Scan(m, seg) == -1 <==> forall k: nat :: !SlaveSelects(slaves, k, seg)
  {
    forall k: nat | SlaveSelects(slaves, k, seg) ensures Scan(m, seg) == k { SelectingIsFound(slaves, m, seg, k); }
    if Scan(m, seg) >= 0 {
      FoundSelects(slaves, m, seg);
    } else {
      ScanRange(m, seg);
    }
  }

  lemma {:induction false} ScanRange(m: seq<Bar>, seg: nat)
    ensures Scan(m, seg) >= -1
  {
    if m != [] {
      ScanRange(m[1..], seg);
    }
  }

  lemma NestedBits()
    ensures Agree(5, 0, 0xFF8) && !Agree(5, 2, 0xFFE)
  {
    assert Xor(5, 0) == 1 + 2 * Xor(2, 0) && Xor(2, 0) == 0 + 2 * Xor(1, 0) && Xor(1, 0) == 1;
    assert And(5, 0xFF8) == 2 * And(2, 0x7FC) && And(2, 0x7FC) == 2 * And(1, 0x3FE) && And(1, 0x3FE) == 0;
    assert Xor(5, 2) == 1 + 2 * Xor(2, 1) && Xor(2, 1) == 1 + 2 * Xor(1, 0);
    assert And(7, 0xFFE) == 2 * And(3, 0x7FF) && And(3, 0x7FF) >= 1;
  }

  // An entry inside the range of another hides the rest of that range from the search.
  lemma NestedEntryHides()
    ensures var m: seq<Bar> := [Entry(0, SlaveInfo(0, 0xFF8, 0)), Entry(2, SlaveInfo(1, 0xFFE, 4))];
      WellFormed(m) && InReach(m, 5) && Scan(m, 5) == 0 && Search(m, 5) == -1
  {
    NestedBits();
    var a: Bar := Entry(0, SlaveInfo(0, 0xFF8, 0));
    var b: Bar := Entry(2, SlaveInfo(1, 0xFFE, 4));
    PredecessorIs([a, b], 5, 1);
  }

  // ---------------------------------------------------------------------------------------
  // The decoder

  class Decoder {
    var slaveMap: seq<Bar>
    var cache: Bar
    var totalTransactions: nat
    var rightTransactions: nat

    ghost predicate Valid()
      reads this
    {
      WellFormed(slaveMap) && (cache == NO_BAR || cache in slaveMap)
    }

    constructor ()
      ensures Valid() && slaveMap == [] && cache == NO_BAR
      ensures totalTransactions == rightTransactions == 0
    {
      slaveMap, cache, totalTransactions, rightTransactions := [], NO_BAR, 0, 0;
    }

    // Adds an entry unless there is one with this base.
    method SetAddressMap(binding: nat, hindex: nat, haddr: nat, hmask: nat)
      requires Valid() && TwelveBit(Entry(haddr, SlaveInfo(hindex, hmask, binding)))
      modifies this`slaveMap
      ensures Valid()
      ensures HasKey(old(slaveMap), haddr) ==> slaveMap == old(slaveMap)
      ensures !HasKey(old(slaveMap), haddr) ==>
        forall b :: b in slaveMap <==> b in old(slaveMap) || b == Entry(haddr, SlaveInfo(hindex, hmask, binding))
    {
      var tmp := SlaveInfo(hindex, hmask, binding);
      InsertSorted(slaveMap, haddr, tmp);
      InsertContents(slaveMap, haddr, tmp);
      slaveMap := Insert(slaveMap, haddr, tmp);
    }

    // Binds the registers of all slaves that are in use, in the order of their numbers.
    method DetectSlaves(slaves: seq<Slave>)
      requires Valid() && slaveMap == [] && ValidSlaves(slaves)
      modifies this`slaveMap
      ensures Valid() && Lists(slaves, slaveMap)
    {
      for k := 0 to |slaves|
        invariant Valid() && ListsUpTo(slaves, slaveMap, k, 0)
      {
        for l := 0 to 4
          invariant Valid() && ListsUpTo(slaves, slaveMap, k, l)
        {
          var s := slaves[k];
          ghost var was := slaveMap;
          if s.bars[l].used {
            SetAddressMap(4 * k + l, s.hindex, s.bars[l].base, s.bars[l].mask);
          }
          OneMoreListed(slaves, was, slaveMap, k, l);
        }
        assert forall i, j :: 0 <= j < 4 ==> (Before(i, j, k, 4) <==> Before(i, j, k + 1, 0));
      }
    }

    // The source leaves the table when there is no entry at or below the address.
    ghost predicate CanLookUp(address: nat)
      reads this
    {
      address < WORD && (Selects(cache, Segment(address)) || InReach(slaveMap, Segment(address)))
    }

    // Whatever has been looked up before, the answer is the documented one.
    method GetIndex(address: nat) returns (index: int)
      requires Valid() && CanLookUp(address)
      modifies this`cache, this`totalTransactions, this`rightTransactions
      ensures Valid()
      ensures Unambiguous(slaveMap) ==> index == Scan(slaveMap, Segment(address))
      ensures index == if Selects(old(cache), Segment(address)) then Socket(old(cache)) else Search(slaveMap, Segment(address))
      ensures Unambiguous(slaveMap) ==> Found(slaveMap, Segment(address), index)
      ensures -1 <= index < 16
      ensures if index >= 0 then Selects(cache, Segment(address)) && index == Socket(cache) else cache == old(cache)
      ensures Selects(old(cache), Segment(address)) ==> cache == old(cache)
      ensures totalTransactions == old(totalTransactions) + 1
      ensures rightTransactions == old(rightTransactions) + if index >= 0 then 1 else 0
    {
      totalTransactions := totalTransactions + 1;
      var addr := Segment(address);
      if Unambiguous(slaveMap) {
        ScanIsFound(slaveMap, addr);
      }
      NoBarSelectsNothing(addr);
      if Selects(cache, addr) {
        if Unambiguous(slaveMap) {
          AnySelectedIsScan(slaveMap, addr, cache);
        }
        rightTransactions := rightTransactions + 1;
        return cache.value.binding / 4;
      }
      if Unambiguous(slaveMap) {
        SearchIsScan(slaveMap, addr);
      }
      var entry := slaveMap[UpperBound(slaveMap, addr) - 1];
      assert entry in slaveMap;
      if Selects(entry, addr) {
        cache := entry;
        rightTransactions := rightTransactions + 1;
        return entry.value.binding / 4;
      }
      return -1;
    }
  }
}
