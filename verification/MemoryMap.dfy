/** The check of the address table for overlaps at the start of a simulation. */
module MemoryMap {
  import opened Bits
  import opened OrderedMap
  import opened AddressDecoder

  datatype Region = Region(start: nat, end: nat, index: nat)

  const NO_INDEX: nat := WORD - 1

  // The addresses an entry may select, in 32-bit arithmetic.
  function RegionOf(b: Bar): Region {
    var start := (First(b) * 0x10_0000) % WORD;
    var size := ((0xFFF - b.value.hmask % 0x1000 + 1) * 0x10_0000) % WORD;
    Region(start, (start + size + WORD - 1) % WORD, Socket(b))
  }

  lemma WrappedEnd(first: nat, hmask: nat)
    requires hmask < 0x1000 && first <= hmask
    ensures var start := (first * 0x10_0000) % WORD;
      var size := ((0xFFF - hmask % 0x1000 + 1) * 0x10_0000) % WORD;
      start == first * 0x10_0000 && (start + size + WORD - 1) % WORD == (first + 0xFFF - hmask) * 0x10_0000 + 0xF_FFFF
  {
    assert hmask % 0x1000 == hmask;
    var size := (0x1000 - hmask) * 0x10_0000;
    assert hmask == 0 ==> size == WORD && size % WORD == 0;
    assert hmask > 0 ==> size % WORD == size;
  }

  // Although the size of an entry with mask 0 wraps to 0, the last address is always right.
  lemma RegionIsHull(b: Bar)
    requires TwelveBit(b)
    ensures var r := RegionOf(b);
      && r.start == First(b) * 0x10_0000 && r.end == Last(b) * 0x10_0000 + 0xF_FFFF && r.start <= r.end < WORD
      && forall slave, bar :: BoundAs(b, slave, bar) ==> r.index == slave
  {
    AndBelow(b.key, b.value.hmask);
    WrappedEnd(First(b), b.value.hmask);
  }

  predicate Meet(a: Region, b: Region) {
    a.start <= b.end && b.start <= a.end
  }

  // An address that both entries select.
  ghost predicate Shared(a: Bar, b: Bar, address: nat) {
    address < WORD && Selects(a, Segment(address)) && Selects(b, Segment(address))
  }

  // An address that two entries select lies in both their regions.
  lemma SharedAddressMeets(a: Bar, b: Bar, address: nat)
    requires TwelveBit(a) && TwelveBit(b) && Shared(a, b, address)
    ensures RegionOf(a).start <= address <= RegionOf(a).end
    ensures Meet(RegionOf(a), RegionOf(b))
  {
    SelectsWithin(a, Segment(address));
    SelectsWithin(b, Segment(address));
    RegionIsHull(a);
    RegionIsHull(b);
  }

  lemma SharedAt(a: Bar, b: Bar, seg: nat)
    requires TwelveBit(a) && TwelveBit(b) && PrefixMask(a) && PrefixMask(b) && seg < 0x1000
    requires First(a) <= seg <= Last(a) && First(b) <= seg <= Last(b)
    ensures Shared(a, b, seg * 0x10_0000)
  {
    SelectsWithin(a, seg);
    SelectsWithin(b, seg);
    assert Segment(seg * 0x10_0000) == seg;
  }

  // With prefix masks, regions meet exactly where both entries select.
  lemma MeetIffShared(a: Bar, b: Bar)
    requires TwelveBit(a) && TwelveBit(b) && PrefixMask(a) && PrefixMask(b)
    ensures Meet(RegionOf(a), RegionOf(b)) <==> exists address :: Shared(a, b, address)
  {
    if Meet(RegionOf(a), RegionOf(b)) {
      RegionIsHull(a);
      RegionIsHull(b);
      SharedAt(a, b, if First(a) < First(b) then First(b) else First(a));
    }
    if address :| Shared(a, b, address) {
      SharedAddressMeets(a, b, address);
    }
  }

  // The regions in the order of their starts; of several with one start the first is kept.
  ghost function Kept(m: seq<Bar>): seq<Entry<Region>> {
    if m == [] then []
    else
      var b := m[|m| - 1];
      Insert(Kept(m[..|m| - 1]), RegionOf(b).start, RegionOf(b))
  }

  ghost predicate HasRegion(kept: seq<Entry<Region>>, r: Region) {
    Entry(r.start, r) in kept
  }

  ghost predicate DistinctStarts(m: seq<Bar>) {
    forall i, j :: 0 <= i < j < |m| ==> RegionOf(m[i]).start != RegionOf(m[j]).start
  }

  ghost predicate SomeMeet(m: seq<Bar>) {
    exists i, j :: 0 <= i < j < |m| && Meet(RegionOf(m[i]), RegionOf(m[j]))
  }

  // Some address is selected by two entries.
  ghost predicate SomeShared(m: seq<Bar>) {
    exists i, j, address :: 0 <= i < j < |m| && Shared(m[i], m[j], address)
  }

  lemma SharedIffMeet(m: seq<Bar>)
    requires WellFormed(m) && forall b :: b in m ==> PrefixMask(b)
    ensures SomeShared(m) <==> SomeMeet(m)
  {
    forall i, j | 0 <= i < j < |m|
      ensures Meet(RegionOf(m[i]), RegionOf(m[j])) <==> exists address :: Shared(m[i], m[j], address)
    {
      assert m[i] in m && m[j] in m;
      MeetIffShared(m[i], m[j]);
    }
  }

  lemma {:induction false} KeptIsOrdered(m: seq<Bar>)
    ensures Sorted(Kept(m))
    ensures forall e :: e in Kept(m) ==> exists b :: b in m && e == Entry(RegionOf(b).start, RegionOf(b))
  {
    if m != [] {
      var b := m[|m| - 1];
      var rest := m[..|m| - 1];
      assert b in m && forall x :: x in rest ==> x in m;
      KeptIsOrdered(rest);
      InsertSorted(Kept(rest), RegionOf(b).start, RegionOf(b));
      InsertContents(Kept(rest), RegionOf(b).start, RegionOf(b));
    }
  }

  lemma StartIsNew(rest: seq<Bar>, b: Bar)
    requires forall x :: x in rest ==> RegionOf(x).start != RegionOf(b).start
    ensures !HasKey(Kept(rest), RegionOf(b).start)
  {
    KeptIsOrdered(rest);
  }

  lemma {:induction false} DistinctAllKept(m: seq<Bar>)
    requires DistinctStarts(m)
    ensures forall b :: b in m ==> HasRegion(Kept(m), RegionOf(b))
  {
    if m != [] {
      var b := m[|m| - 1];
      var rest := m[..|m| - 1];
      assert m == rest + [b];
      DistinctAllKept(rest);
      KeptIsOrdered(rest);
      StartIsNew(rest, b);
      InsertContents(Kept(rest), RegionOf(b).start, RegionOf(b));
      forall x | x in m ensures HasRegion(Kept(m), RegionOf(x)) {
        assert x in rest ==> HasRegion(Kept(rest), RegionOf(x));
      }
    }
  }

  // Neighbour i reaches into the one after it.
  predicate Reaches(kept: seq<Entry<Region>>, i: int) {
    0 <= i < |kept| - 1 && kept[i].value.end >= kept[i + 1].value.start
  }

  ghost predicate IsRegionTable(kept: seq<Entry<Region>>) {
    Sorted(kept) && forall e :: e in kept ==> e.key == e.value.start <= e.value.end
  }

  // In the order of starts, some two regions meet if and only if some two neighbours do.
  lemma NeighboursSuffice(kept: seq<Entry<Region>>)
    requires IsRegionTable(kept)
    ensures (exists i :: Reaches(kept, i))
      <==> exists i, j :: 0 <= i < j < |kept| && Meet(kept[i].value, kept[j].value)
  {
    assert forall i :: 0 <= i < |kept| ==> kept[i] in kept;
    if i :| Reaches(kept, i) {
      assert Meet(kept[i].value, kept[i + 1].value);
    }
    if i, j :| 0 <= i < j < |kept| && Meet(kept[i].value, kept[j].value) {
      assert kept[i + 1].key <= kept[j].key;
      assert Reaches(kept, i);
    }
  }

  lemma KeptIsRegionTable(m: seq<Bar>)
    requires WellFormed(m)
    ensures IsRegionTable(Kept(m))
  {
    KeptIsOrdered(m);
    forall e | e in Kept(m) ensures e.key == e.value.start <= e.value.end {
      var b :| b in m && e == Entry(RegionOf(b).start, RegionOf(b));
      RegionIsHull(b);
    }
  }

  // Two table entries that meet are kept and meet there.
  lemma MeetIsKept(m: seq<Bar>, i: nat, j: nat) returns (p: nat, q: nat)
    requires WellFormed(m) && DistinctStarts(m)
    requires i < j < |m| && Meet(RegionOf(m[i]), RegionOf(m[j]))
    ensures p < q < |Kept(m)| && Meet(Kept(m)[p].value, Kept(m)[q].value)
  {
    var kept := Kept(m);
    DistinctAllKept(m);
    assert HasRegion(kept, RegionOf(m[i])) && HasRegion(kept, RegionOf(m[j]));
    p :| 0 <= p < |kept| && kept[p].value == RegionOf(m[i]);
    q :| 0 <= q < |kept| && kept[q].value == RegionOf(m[j]);
    if q < p {
      p, q := q, p;
    }
  }

  // Two kept regions that meet come from two table entries.
  lemma KeptMeets(m: seq<Bar>, p: nat, q: nat)
    requires WellFormed(m)
    requires p < q < |Kept(m)| && Meet(Kept(m)[p].value, Kept(m)[q].value)
    ensures SomeMeet(m)
  {
    var kept := Kept(m);
    KeptIsOrdered(m);
    assert kept[p] in kept && kept[q] in kept;
    var a :| a in m && kept[p] == Entry(RegionOf(a).start, RegionOf(a));
    var b :| b in m && kept[q] == Entry(RegionOf(b).start, RegionOf(b));
    var i :| 0 <= i < |m| && m[i] == a;
    var j :| 0 <= j < |m| && m[j] == b;
    assert Meet(RegionOf(m[i]), RegionOf(m[j])) && Meet(RegionOf(m[j]), RegionOf(m[i]));
  }

  // The neighbour check is exact when no two entries start at the same address.
  lemma DistinctCheckExact(m: seq<Bar>)
    requires WellFormed(m) && DistinctStarts(m)
    ensures (exists i :: Reaches(Kept(m), i)) <==> SomeMeet(m)
  {
    KeptIsRegionTable(m);
    NeighboursSuffice(Kept(m));
    if SomeMeet(m) {
      var i: nat, j: nat :| i < j < |m| && Meet(RegionOf(m[i]), RegionOf(m[j]));
      var p, q := MeetIsKept(m, i, j);
    }
    if p: nat, q: nat :| p < q < |Kept(m)| && Meet(Kept(m)[p].value, Kept(m)[q].value) {
      KeptMeets(m, p, q);
    }
  }

  lemma AlignedStartsDiffer(m: seq<Bar>)
    requires WellFormed(m) && forall b :: b in m ==> Aligned(b)
    ensures DistinctStarts(m)
  {
    forall i, j | 0 <= i < j < |m| ensures RegionOf(m[i]).start != RegionOf(m[j]).start {
      assert m[i] in m && m[j] in m;
      RegionIsHull(m[i]);
      RegionIsHull(m[j]);
    }
  }

  // With aligned bases the check reports if and only if some two regions meet.
  lemma AlignedCheckExact(m: seq<Bar>)
    requires WellFormed(m) && forall b :: b in m ==> Aligned(b)
    ensures (exists i :: Reaches(Kept(m), i)) <==> SomeMeet(m)
  {
    AlignedStartsDiffer(m);
    DistinctCheckExact(m);
  }

  // With prefix masks as well, it does if and only if two entries select one address.
  lemma PrefixCheckExact(m: seq<Bar>)
    requires WellFormed(m) && forall b :: b in m ==> Aligned(b) && PrefixMask(b)
    ensures (exists i :: Reaches(Kept(m), i)) <==> SomeShared(m)
  {
    AlignedCheckExact(m);
    SharedIffMeet(m);
  }

  lemma SameStartMeets(m: seq<Bar>, i: nat, j: nat)
    requires WellFormed(m) && i < j < |m| && RegionOf(m[i]).start == RegionOf(m[j]).start
    ensures SomeMeet(m)
  {
    assert m[i] in m && m[j] in m;
    RegionIsHull(m[i]);
    RegionIsHull(m[j]);
    assert Meet(RegionOf(m[i]), RegionOf(m[j]));
  }

  // For any table: what a silent check can have missed is exactly two entries with one start.
  lemma SilentMissesIff(m: seq<Bar>)
    requires WellFormed(m) && !exists i :: Reaches(Kept(m), i)
    ensures SomeMeet(m) <==> !DistinctStarts(m)
  {
    if DistinctStarts(m) {
      DistinctCheckExact(m);
    } else {
      var i, j :| 0 <= i < j < |m| && RegionOf(m[i]).start == RegionOf(m[j]).start;
      SameStartMeets(m, i, j);
    }
  }

  // Two unaligned entries for the same addresses pass unnoticed.
  lemma UnalignedDuplicateMissed()
    ensures var m: seq<Bar> := [Entry(0, SlaveInfo(0, 0xFF8, 0)), Entry(1, SlaveInfo(1, 0xFF8, 4))];
      WellFormed(m) && SomeShared(m) && SomeMeet(m) && !exists i :: Reaches(Kept(m), i)
  {
    var a: Bar := Entry(0, SlaveInfo(0, 0xFF8, 0));
    var b: Bar := Entry(1, SlaveInfo(1, 0xFF8, 4));
    var m := [a, b];
    assert And(1, 0xFF8) == 0 && And(0, 0xFF8) == 0;
    RegionIsHull(a);
    RegionIsHull(b);
    assert m[..1] == [a] && [a][..0] == [];
    assert Kept([a]) == [Entry(0, RegionOf(a))];
    assert Kept(m) == Insert(Kept(m[..1]), 0, RegionOf(b)) == [Entry(0, RegionOf(a))];
    assert Meet(RegionOf(m[0]), RegionOf(m[1]));
    SelectsWithin(a, 0);
    SelectsWithin(b, 0);
    assert Shared(m[0], m[1], 0);
  }

  // A silent check of a table with aligned bases means that no address is selected by two
  // entries, and that the decoder's search computes the documented scan.
  lemma SilentMeansUnambiguous(m: seq<Bar>)
    requires WellFormed(m) && (forall b :: b in m ==> Aligned(b)) && !exists i :: Reaches(Kept(m), i)
    ensures Unambiguous(m) && !SomeShared(m)
  {
    AlignedCheckExact(m);
    forall i: nat, j: nat | i < j < |m| ensures Last(m[i]) < m[j].key {
      assert m[i] in m && m[j] in m;
      assert !Meet(RegionOf(m[i]), RegionOf(m[j]));
      RegionIsHull(m[i]);
      RegionIsHull(m[j]);
      assert m[i].key < m[j].key;
    }
    if i: nat, j: nat, address :| i < j < |m| && Shared(m[i], m[j], address) {
      assert m[i] in m && m[j] in m;
      SharedAddressMeets(m[i], m[j], address);
    }
  }

  // Walks the regions in order and reports each that reaches into the next.
  method CheckMemMap(slaveMap: seq<Bar>) returns (reports: seq<(Region, Region)>)
    requires WellFormed(slaveMap)
    ensures var kept := Kept(slaveMap);
      forall r :: r in reports <==> exists i :: Reaches(kept, i) && r == (kept[i].value, kept[i + 1].value)
    ensures reports != [] <==> exists i :: Reaches(Kept(slaveMap), i)
    ensures (forall b :: b in slaveMap ==> Aligned(b)) ==> (reports != [] <==> SomeMeet(slaveMap))
    ensures (forall b :: b in slaveMap ==> Aligned(b) && PrefixMask(b)) ==> (reports != [] <==> SomeShared(slaveMap))
  {
    var slaves: seq<Entry<Region>> := [];
    for i := 0 to |slaveMap|
      invariant slaves == Kept(slaveMap[..i])
    {
      var b := slaveMap[i];
      assert b in slaveMap;
      assert slaveMap[..i + 1][..i] == slaveMap[..i] && slaveMap[..i + 1][i] == b;
      slaves := Insert(slaves, RegionOf(b).start, RegionOf(b));
    }
    assert slaveMap[..|slaveMap|] == slaveMap;
    KeptIsOrdered(slaveMap);
    reports := [];
    var last := Region(0, 0, NO_INDEX);
    for i := 0 to |slaves|
      invariant i == 0 ==> last.index == NO_INDEX
      invariant i > 0 ==> last == slaves[i - 1].value && last.index != NO_INDEX
      invariant forall r :: r in reports <==>
                              exists k :: k < i - 1 && Reaches(slaves, k) && r == (slaves[k].value, slaves[k + 1].value)
    {
      var current := slaves[i].value;
      assert slaves[i] in slaves;
      if last.index != NO_INDEX {
        assert last.start >= current.start || last.end >= current.start <==> Reaches(slaves, i - 1) by {
          KeptIsRegionTable(slaveMap);
          assert slaves[i - 1] in slaves;
        }
        if last.start >= current.start || last.end >= current.start {
          reports := reports + [(last, current)];
        }
      }
      last := current;
    }
    if i :| Reaches(slaves, i) {
      assert (slaves[i].value, slaves[i + 1].value) in reports;
    }
    if reports != [] {
      assert reports[0] in reports;
    }
    if forall b :: b in slaveMap ==> Aligned(b) {
      AlignedCheckExact(slaveMap);
    }
    if forall b :: b in slaveMap ==> PrefixMask(b) {
      SharedIffMeet(slaveMap);
    }
  }
}
