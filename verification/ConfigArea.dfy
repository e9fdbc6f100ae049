/**
 The plug & play configuration area: the device records of the masters and of the slaves,
 read byte by byte on a little-endian host.
 */
module ConfigArea {
  import opened Bits
  import opened HostMemory
  import opened Words

  // Entries of the device tables, words of a record, and where the slave records start.
  const DEVICES: nat := 64
  const RECORD_WORDS: nat := 8
  const SLAVE_OFFSET: nat := 0x800

  // The one word that does not come from a record.
  const BUILD_ID: nat := 0x3010_0000

  datatype Record = Absent | Present(words: seq<nat>)

  ghost predicate ValidRecord(r: Record) {
    r.Present? ==> |r.words| == RECORD_WORDS && forall w :: w in r.words ==> w < WORD
  }

  // ---------------------------------------------------------------------------------------
  // Bytes of a word

  // The bytes of a word as the big-endian processor sees them.
  function TargetBytes(w: nat): (b: seq<nat>)
    ensures |b| == 4
  {
    var h := HostBytes(w);
    [h[3], h[2], h[1], h[0]]
  }

  // Reverses a datum of the host in place by swapping bytes from both ends.
  method SwapEndianess(datum: array<nat>)
    modifies datum
    ensures forall k :: 0 <= k < datum.Length ==> datum[k] == old(datum[datum.Length - 1 - k])
  {
    var size := datum.Length;
    var i := 0;
    while i < size / 2
      invariant 2 * i <= size
      invariant forall k :: 0 <= k < size && (k < i || size - i <= k) ==> datum[k] == old(datum[size - 1 - k])
      invariant forall k :: i <= k < size - i ==> datum[k] == old(datum[k])
    {
      var helperByte := datum[i];
      datum[i] := datum[size - 1 - i];
      datum[size - 1 - i] := helperByte;
      i := i + 1;
    }
  }

  // ---------------------------------------------------------------------------------------
  // The flat image

  // The eight words of a record; zeros for a device that is absent or not counted.
  ghost function RecordWords(table: seq<Record>, bindings: nat, device: nat): (r: seq<nat>)
    requires device < |table| && ValidRecord(table[device])
    ensures |r| == RECORD_WORDS
  {
    if device < bindings && table[device].Present? then table[device].words else seq(RECORD_WORDS, _ => 0)
  }

  ghost predicate ValidTable(table: seq<Record>) {
    |table| == DEVICES && forall d :: 0 <= d < DEVICES ==> ValidRecord(table[d])
  }

  // The records of the first n devices, one after the other.
  ghost function TableWords(table: seq<Record>, bindings: nat, n: nat): (r: seq<nat>)
    requires ValidTable(table) && n <= DEVICES
    ensures |r| == n * RECORD_WORDS
  {
    if n == 0 then [] else TableWords(table, bindings, n - 1) + RecordWords(table, bindings, n - 1)
  }

  ghost function BigEndian(words: seq<nat>): (b: seq<nat>)
    ensures |b| == 4 * |words|
  {
    if words == [] then [] else BigEndian(words[..|words| - 1]) + TargetBytes(words[|words| - 1])
  }

  lemma {:induction false} TableWordAt(table: seq<Record>, bindings: nat, n: nat, device: nat, offset: nat)
    requires ValidTable(table) && device < n <= DEVICES && offset < RECORD_WORDS
    ensures device * RECORD_WORDS + offset < n * RECORD_WORDS
    ensures TableWords(table, bindings, n)[device * RECORD_WORDS + offset] == RecordWords(table, bindings, device)[offset]
  {
    if device < n - 1 {
      TableWordAt(table, bindings, n - 1, device, offset);
    }
  }

  lemma {:induction false} BigEndianAt(words: seq<nat>, i: nat, b: nat)
    requires i < |words| && b < 4
    ensures BigEndian(words)[4 * i + b] == TargetBytes(words[i])[b]
  {
    if i < |words| - 1 {
      BigEndianAt(words[..|words| - 1], i, b);
    }
  }

  // The bits that an upper and a lower parameter of 12 bits give, in 32-bit arithmetic.
  function AreaBits(io: nat, cfg: nat): nat {
    Or(io * 0x10_0000, cfg * 0x100) % WORD
  }

  // The first address of the area.
  function AreaBase(ioaddr: nat, iomask: nat, cfgaddr: nat, cfgmask: nat): nat {
    And(AreaBits(ioaddr, cfgaddr), AreaBits(iomask, cfgmask))
  }

  lemma OrOfFours(a: nat, b: nat)
    ensures Or(4 * a, 4 * b) == 4 * Or(a, b)
  {
    assert Or(4 * a, 4 * b) == 2 * Or(2 * a, 2 * b);
    assert Or(2 * a, 2 * b) == 2 * Or(a, b);
  }

  lemma AndOfFours(a: nat, b: nat)
    ensures And(4 * a, 4 * b) == 4 * And(a, b)
  {
    AndHalves(4 * a, 4 * b);
    AndHalves(2 * a, 2 * b);
  }

  // The lowest 8 bits of both parameters are clear.
  lemma AreaBitsAligned(io: nat, cfg: nat)
    ensures AreaBits(io, cfg) < WORD && AreaBits(io, cfg) == 0x100 * (Or(io * 0x1000, cfg) % 0x100_0000)
  {
    var a := io * 0x1000;
    OrOfFours(0x40 * a, 0x40 * cfg);
    OrOfFours(0x10 * a, 0x10 * cfg);
    OrOfFours(4 * a, 4 * cfg);
    OrOfFours(a, cfg);
    ScaledRemainder(Or(a, cfg));
  }

  lemma ScaledRemainder(k: nat)
    ensures (0x100 * k) % WORD == 0x100 * (k % 0x100_0000)
  {
    var q := k / 0x100_0000;
    assert 0x100 * k == q * WORD + 0x100 * (k % 0x100_0000);
    RemainderUnique(0x100 * k, WORD, q, 0x100 * (k % 0x100_0000));
  }

  lemma AndOfSixteens(a: nat, b: nat)
    ensures And(0x10 * a, 0x10 * b) == 0x10 * And(a, b)
  {
    AndOfFours(4 * a, 4 * b);
    AndOfFours(a, b);
  }

  lemma AndAligned(k: nat, l: nat)
    ensures And(0x100 * k, 0x100 * l) == 0x100 * And(k, l)
  {
    AndOfSixteens(0x10 * k, 0x10 * l);
    AndOfSixteens(k, l);
  }

  lemma MultipleAligned(k: nat)
    ensures 0x100 * k % 0x100 == 0
  {
  }

  lemma AndOfAligned(a: nat, b: nat, k: nat, l: nat)
    requires a == 0x100 * k && b == 0x100 * l
    ensures And(a, b) <= a && And(a, b) % 0x100 == 0
  {
    AndBelow(a, b);
    AndAligned(k, l);
    MultipleAligned(And(k, l));
  }

  lemma AreaBaseAligned(ioaddr: nat, iomask: nat, cfgaddr: nat, cfgmask: nat)
    ensures AreaBase(ioaddr, iomask, cfgaddr, cfgmask) < WORD
    ensures AreaBase(ioaddr, iomask, cfgaddr, cfgmask) % 0x100 == 0
  {
    var a, b := AreaBits(ioaddr, cfgaddr), AreaBits(iomask, cfgmask);
    AreaBitsAligned(ioaddr, cfgaddr);
    AreaBitsAligned(iomask, cfgmask);
    AndOfAligned(a, b, Or(ioaddr * 0x1000, cfgaddr) % 0x100_0000, Or(iomask * 0x1000, cfgmask) % 0x100_0000);
  }

  // Where the area lies and what its tables hold.
  datatype Area = Area(base: nat, masters: seq<Record>, numMasters: nat, slaves: seq<Record>, numSlaves: nat) {
    ghost predicate Valid() {
      && base < WORD && base % 4 == 0
      && ValidTable(masters) && ValidTable(slaves)
      && numMasters <= 16 && numSlaves <= 16
    }

    // Where an address lies in the area, in 32-bit arithmetic.
    function Offset(address: nat): nat { (address + (WORD - base)) % WORD }

    ghost function Words(): (w: seq<nat>)
      requires Valid()
      ensures |w| == 2 * DEVICES * RECORD_WORDS
    {
      TableWords(masters, numMasters, DEVICES) + TableWords(slaves, numSlaves, DEVICES)
    }

    // The master records and then the slave records, big-endian.
    ghost function Image(): (b: seq<nat>)
      requires Valid()
      ensures |b| == 0x1000
    {
      BigEndian(Words())
    }

    // What a byte read returns.
    ghost function Byte(address: nat): nat
      requires Valid()
    {
      if IsBuildId(address) then HostBytes(BUILD_ID)[address % 4]
      else if Offset(address) < 0x1000 then Image()[Offset(address)] else 0
    }

    // The words of the two halves of the area.
    lemma WordAt(device: nat, offset: nat)
      requires Valid() && device < DEVICES && offset < RECORD_WORDS
      ensures Words()[8 * device + offset] == RecordWords(masters, numMasters, device)[offset]
      ensures Words()[0x200 + 8 * device + offset] == RecordWords(slaves, numSlaves, device)[offset]
    {
      TableWordAt(masters, numMasters, DEVICES, device, offset);
      TableWordAt(slaves, numSlaves, DEVICES, device, offset);
    }

    // The record word behind an address: of a master in the lower half, of a slave in the
    // upper half, and 0 beyond.
    ghost function WordBehind(address: nat): nat
      requires Valid()
    {
      var o := Offset(address) / 4;
      if o < 0x200 then RecordWords(masters, numMasters, o / 8)[o % 8]
      else if (o - 0x200) / 8 < numSlaves then RecordWords(slaves, numSlaves, (o - 0x200) / 8)[o % 8]
      else 0
    }

    lemma ByteBehind(address: nat)
      requires Valid() && address < WORD && !IsBuildId(address)
      ensures Byte(address) == TargetBytes(WordBehind(address))[address % 4]
    {
      var o := Offset(address) / 4;
      OffsetAligned(address);
      if o < 0x200 {
        WordAt(o / 8, o % 8);
        BigEndianAt(Words(), o, address % 4);
      } else {
        assert HostBytes(0) == [0, 0, 0, 0];
        if o < 0x400 {
          WordAt((o - 0x200) / 8, o % 8);
          BigEndianAt(Words(), o, address % 4);
        }
      }
    }

    // All four bytes of the word of an address are those of the word behind it.
    lemma BytesBehind(address: nat, k: nat)
      requires Valid() && address < WORD && !IsBuildId(address) && k < 4
      ensures Byte(address - address % 4 + k) == TargetBytes(WordBehind(address))[k]
    {
      SameWord(address, k);
      ByteBehind(address - address % 4 + k);
    }

    // Byte k of the word of an address.
    lemma SameWord(address: nat, k: nat)
      requires Valid() && address < WORD && k < 4
      ensures var here := address - address % 4 + k;
        && here < WORD && here % 4 == k && (IsBuildId(here) <==> IsBuildId(address))
        && Offset(here) == Offset(address) - address % 4 + k && Offset(here) / 4 == Offset(address) / 4
    {
      OffsetAligned(address);
      var l := address / 4;
      assert address == 4 * l + address % 4;
      OffsetAligned(address - address % 4 + k);
    }

    lemma OffsetAligned(address: nat)
      requires Valid() && address < WORD
      ensures Offset(address) == if address >= base then address - base else address + WORD - base
      ensures Offset(address) % 4 == address % 4
    {
      var k := base / 4;
      assert base == 4 * k;
    }
  }

  predicate IsBuildId(address: nat) { 0xFFFF_FFF0 <= address <= 0xFFFF_FFF3 }

  // What a read of several bytes returns.
  ghost function AreaBytes(a: Area, address: nat, length: nat): seq<int>
    requires a.Valid()
  {
    seq(length, i requires 0 <= i < length => a.Byte((address + i) % WORD))
  }

  // A read inside the area that avoids the build id returns the bytes of the flat image.
  lemma InsideIsImage(a: Area, address: nat, length: nat)
    requires a.Valid() && a.base <= address
    requires address + length <= a.base + 0x1000 && address + length <= WORD
    requires address + length <= 0xFFFF_FFF0 || address > 0xFFFF_FFF3
    ensures AreaBytes(a, address, length) == a.Image()[address - a.base..][..length]
  {
    forall i: nat | i < length ensures AreaBytes(a, address, length)[i] == a.Image()[address - a.base + i] {
      assert (address + i) % WORD == address + i;
      a.OffsetAligned(address + i);
      assert AreaBytes(a, address, length)[i] == a.Byte((address + i) % WORD);
      assert !IsBuildId(address + i);
    }
  }

  // ---------------------------------------------------------------------------------------
  // What a processor reads

  // The number that a big-endian processor takes four bytes for.
  function Loaded(b: seq<int>): int
    requires |b| == 4
  {
    b[0] * 0x100_0000 + b[1] * 0x1_0000 + b[2] * 0x100 + b[3]
  }

  lemma DivideTwice(w: nat)
    ensures w == w / 0x100 * 0x100 + w % 0x100
    ensures w / 0x100 == w / 0x100 / 0x100 * 0x100 + w / 0x100 % 0x100
  {
  }

  lemma TargetLoads(w: nat)
    requires w < WORD
    ensures Loaded(TargetBytes(w)) == w
  {
    DivideTwice(w);
    DivideTwice(w / 0x100 / 0x100);
  }

  lemma MultiplesAdd(k: nat, l: nat, i: nat)
    requires i < 4
    ensures (4 * (k + l) + i) % 4 == i
  {
  }

  // Where the word at place `place` of the area lies.
  lemma PlaceWraps(base: nat, place: nat)
    requires base < WORD && base % 4 == 0 && place % 4 == 0 && place < 0x1000
    ensures var address := (base + place) % WORD;
      && address == (if base + place < WORD then base + place else base + place - WORD)
      && address % 4 == 0 && address <= WORD - 4
  {
    var k, l := base / 4, place / 4;
    MultiplesAdd(k, l, 0);
    assert base + place == 4 * (k + l);
    if base + place >= WORD {
      assert base + place - WORD == 4 * (k + l - 0x4000_0000);
    }
  }

  // Byte i of the word at that place.
  lemma PlaceOffset(a: Area, place: nat, i: nat)
    requires a.Valid() && place % 4 == 0 && place < 0x1000 && i < 4
    ensures var here := ((a.base + place) % WORD + i) % WORD;
      a.Offset(here) == place + i && here % 4 == i && (IsBuildId(here) <==> (a.base + place) % WORD == 0xFFFF_FFF0)
  {
    var address := (a.base + place) % WORD;
    PlaceWraps(a.base, place);
    assert address == 4 * (address / 4);
    MultiplesAdd(address / 4, 0, i);
    a.OffsetAligned(address + i);
  }

  ghost predicate IsByteAt(a: Area, place: nat, i: nat, address: nat) {
    address < WORD && a.Offset(address) == place + i && address % 4 == i && !IsBuildId(address)
  }

  // An aligned read of a word of the area that is not the build id.
  lemma WordRead(a: Area, place: nat, w: nat)
    requires a.Valid() && place % 4 == 0 && place < 0x1000 && (a.base + place) % WORD != 0xFFFF_FFF0 && w < WORD
    requires forall i: nat, address :: i < 4 && IsByteAt(a, place, i, address) ==> a.Byte(address) == TargetBytes(w)[i]
    ensures Loaded(AreaBytes(a, (a.base + place) % WORD, 4)) == w
  {
    forall i: nat | i < 4 ensures AreaBytes(a, (a.base + place) % WORD, 4)[i] == TargetBytes(w)[i] {
      PlaceOffset(a, place, i);
      assert IsByteAt(a, place, i, ((a.base + place) % WORD + i) % WORD);
    }
    TargetLoads(w);
    assert AreaBytes(a, (a.base + place) % WORD, 4) == TargetBytes(w);
  }

  // The word that a record of a table shows: that of the record if its number is below that
  // of the devices bound, otherwise 0.
  ghost function Shown(table: seq<Record>, bindings: nat, device: nat, offset: nat): nat
    requires ValidTable(table) && device < DEVICES && offset < RECORD_WORDS
  {
    if device >= bindings then 0
    else match table[device]
      case Present(words) => words[offset]
      case Absent => 0
  }

  lemma ShownBelow(table: seq<Record>, bindings: nat, device: nat, offset: nat)
    requires ValidTable(table) && device < DEVICES && offset < RECORD_WORDS
    ensures RecordWords(table, bindings, device)[offset] == Shown(table, bindings, device, offset) < WORD
  {
    assert ValidRecord(table[device]);
    if table[device].Present? {
      assert table[device].words[offset] in table[device].words;
    }
  }

  // A processor that reads word `offset` of the record of a master gets the record's word.
  lemma MasterWordRead(a: Area, device: nat, offset: nat)
    requires a.Valid() && device < DEVICES && offset < RECORD_WORDS
    requires (a.base + 32 * device + 4 * offset) % WORD != 0xFFFF_FFF0
    ensures Loaded(AreaBytes(a, (a.base + 32 * device + 4 * offset) % WORD, 4))
      == Shown(a.masters, a.numMasters, device, offset)
  {
    var place := 32 * device + 4 * offset;
    var w := Shown(a.masters, a.numMasters, device, offset);
    ShownBelow(a.masters, a.numMasters, device, offset);
    forall i: nat, address | i < 4 && IsByteAt(a, place, i, address) ensures a.Byte(address) == TargetBytes(w)[i]
    {
      a.ByteBehind(address);
      assert (place + i) / 4 == 8 * device + offset;
    }
    WordRead(a, place, w);
  }

  // Likewise for the slaves, half way up.
  lemma SlaveWordRead(a: Area, device: nat, offset: nat)
    requires a.Valid() && device < DEVICES && offset < RECORD_WORDS
    requires (a.base + 0x800 + 32 * device + 4 * offset) % WORD != 0xFFFF_FFF0
    ensures Loaded(AreaBytes(a, (a.base + 0x800 + 32 * device + 4 * offset) % WORD, 4))
      == Shown(a.slaves, a.numSlaves, device, offset)
  {
    var place := 0x800 + 32 * device + 4 * offset;
    var w := Shown(a.slaves, a.numSlaves, device, offset);
    ShownBelow(a.slaves, a.numSlaves, device, offset);
    forall i: nat, address | i < 4 && IsByteAt(a, place, i, address) ensures a.Byte(address) == TargetBytes(w)[i]
    {
      a.ByteBehind(address);
      assert (place + i) / 4 == 0x200 + 8 * device + offset;
    }
    WordRead(a, place, w);
  }

  lemma BuildIdBytes()
    ensures HostBytes(BUILD_ID) == [0x00, 0x00, 0x10, 0x30]
  {
    assert BUILD_ID / 0x100 == 0x30_1000 && BUILD_ID / 0x100 / 0x100 == 0x3010;
  }

  lemma BuildIdByte(a: Area, i: nat)
    requires a.Valid() && i < 4
    ensures a.Byte((0xFFFF_FFF0 + i) % WORD) == HostBytes(BUILD_ID)[i]
  {
    assert (0xFFFF_FFF0 + i) % WORD == 0xFFFF_FFF0 + i && (0xFFFF_FFF0 + i) % 4 == i;
  }

  // The build id is not swapped: a big-endian processor gets its bytes in reverse.
  lemma BuildIdRead(a: Area)
    requires a.Valid()
    ensures AreaBytes(a, 0xFFFF_FFF0, 4) == [0x00, 0x00, 0x10, 0x30]
  {
    BuildIdBytes();
    forall i: nat | i < 4 ensures AreaBytes(a, 0xFFFF_FFF0, 4)[i] == HostBytes(BUILD_ID)[i] { BuildIdByte(a, i); }
  }

  // ---------------------------------------------------------------------------------------
  // Reads of several bytes

  lemma WrapTwice(address: nat, m: nat, j: nat)
    ensures (address + (m + j)) % WORD == ((address + m) % WORD + j) % WORD
  {
  }

  // Two adjacent reads return what one read of both ranges does.
  lemma AdjacentReads(a: Area, address: nat, m: nat, n: nat)
    requires a.Valid()
    ensures AreaBytes(a, address, m + n) == AreaBytes(a, address, m) + AreaBytes(a, (address + m) % WORD, n)
  {
    var whole, rest := AreaBytes(a, address, m + n), AreaBytes(a, (address + m) % WORD, n);
    forall j: nat | j < n ensures whole[m + j] == rest[j] {
      WrapTwice(address, m, j);
    }
    assert whole[m..] == rest;
  }

  lemma OneMoreByte(a: Area, address: nat, n: nat, b: nat)
    requires a.Valid() && b == a.Byte((address + n) % WORD)
    ensures AreaBytes(a, address, n + 1) == AreaBytes(a, address, n) + [b]
  {
    AdjacentReads(a, address, n, 1);
    var here := (address + n) % WORD;
    assert (here + 0) % WORD == here;
    assert AreaBytes(a, here, 1)[0] == b;
  }

  ghost function EmptyArea(base: nat): Area {
    Area(base, seq(DEVICES, _ => Absent), 0, seq(DEVICES, _ => Absent), 0)
  }

  lemma OrHalves(a: nat, low: nat)
    ensures Or(2 * a, low) == low % 2 + 2 * Or(a, low / 2)
  {
    assert 2 * a / 2 == a && 2 * a % 2 == 0;
  }

  // A number shifted up and one below the shift are put together without overlap.
  lemma {:induction false} DisjointOr(k: nat, w: nat, low: nat)
    requires low < Power(w)
    ensures Or(k * Power(w), low) == k * Power(w) + low
    decreases w
  {
    if w == 0 {
      OrZero(k);
    } else {
      DisjointOr(k, w - 1, low / 2);
      ShiftOneMore(k, w);
      OrHalves(k * Power(w - 1), low);
    }
  }

  lemma ShiftOneMore(k: nat, w: nat)
    requires w > 0
    ensures k * Power(w) == 2 * (k * Power(w - 1))
  {
  }

  lemma {:induction false} OrZero(a: nat)
    ensures Or(a, 0) == a
  {
    if a > 0 {
      OrZero(a / 2);
    }
  }

  lemma AreaBitsAre(io: nat, cfg: nat)
    requires io < 0x1000 && cfg < 0x1000
    ensures AreaBits(io, cfg) == io * 0x10_0000 + cfg * 0x100
  {
    Powers();
    DisjointOr(io, 20, cfg * 0x100);
  }

  lemma WordAligned(base: nat)
    requires base % 0x100 == 0
    ensures base % 4 == 0
  {
    RemainderUnique(base, 4, base / 0x100 * 0x40, 0);
  }

  lemma EmptyAreaValid(ioaddr: nat, iomask: nat, cfgaddr: nat, cfgmask: nat)
    ensures EmptyArea(AreaBase(ioaddr, iomask, cfgaddr, cfgmask)).Valid()
  {
    AreaBaseAligned(ioaddr, iomask, cfgaddr, cfgmask);
    WordAligned(AreaBase(ioaddr, iomask, cfgaddr, cfgmask));
    assert ValidTable(seq(DEVICES, _ => Absent));
  }

  class PlugAndPlay {
    const ioaddr: nat
    const iomask: nat
    const cfgaddr: nat
    const cfgmask: nat

    const masters: array<Record>
    const slaves: array<Record>
    var numMasters: nat
    var numSlaves: nat

    constructor (ioaddr: nat, iomask: nat, cfgaddr: nat, cfgmask: nat)
      ensures Contents() == EmptyArea(AreaBase(ioaddr, iomask, cfgaddr, cfgmask)) && Contents().Valid()
      ensures masters != slaves && fresh(masters) && fresh(slaves)
    {
      this.ioaddr, this.iomask, this.cfgaddr, this.cfgmask := ioaddr, iomask, cfgaddr, cfgmask;
      masters := new Record[DEVICES](_ => Absent);
      slaves := new Record[DEVICES](_ => Absent);
      numMasters, numSlaves := 0, 0;
      EmptyAreaValid(ioaddr, iomask, cfgaddr, cfgmask);
    }

    // The addresses claimed are those that have the bits of the area wherever the mask has one;
    // the base is the lowest of them.
    lemma ClaimsBits(address: nat)
      requires address < WORD
      ensures Claims(address) <==>
        forall p :: Bit(AreaBits(iomask, cfgmask), p) ==> Bit(address, p) == Bit(AreaBits(ioaddr, cfgaddr), p)
      ensures var base := AreaBase(ioaddr, iomask, cfgaddr, cfgmask);
        Claims(base) && (Claims(address) ==> base <= address)
    {
      AgreeBits(address, AreaBits(ioaddr, cfgaddr), AreaBits(iomask, cfgmask));
      AreaBitsAligned(ioaddr, cfgaddr);
      AreaBitsAligned(iomask, cfgmask);
      Powers();
      AgreeHull(32, address, AreaBits(ioaddr, cfgaddr), AreaBits(iomask, cfgmask));
    }

    // With masks whose clear bits are the lowest ones, the area is a stretch of addresses: from
    // its base on as many as the clear bits can tell apart.
    lemma ClaimsStretch(address: nat)
      requires address < WORD && LowRun(WORD - 1 - AreaBits(iomask, cfgmask))
      ensures Claims(address) <==>
        var base := AreaBase(ioaddr, iomask, cfgaddr, cfgmask);
        base <= address <= base + (WORD - 1 - AreaBits(iomask, cfgmask))
    {
      var bits, mask := AreaBits(ioaddr, cfgaddr), AreaBits(iomask, cfgmask);
      AreaBitsAligned(ioaddr, cfgaddr);
      AreaBitsAligned(iomask, cfgmask);
      Powers();
      AgreeHull(32, address, bits, mask);
      if And(bits, mask) <= address <= And(bits, mask) + (WORD - 1 - mask) {
        AgreeInterval(32, address, bits, mask);
      }
    }

    // By default it is the last 4096 addresses.
    lemma DefaultArea(address: nat)
      requires ioaddr == iomask == 0xFFF && cfgaddr == cfgmask == 0xFF0 && address < WORD
      ensures AreaBase(ioaddr, iomask, cfgaddr, cfgmask) == 0xFFFF_F000
      ensures Claims(address) <==> 0xFFFF_F000 <= address
    {
      AreaBitsAre(0xFFF, 0xFF0);
      AndSelf(0xFFFF_F000);
      Powers();
      OnesAreLowRun(12);
      ClaimsStretch(address);
    }

    // An access to this address is one to the configuration area.
    predicate Claims(address: nat) {
      Agree(address, AreaBits(ioaddr, cfgaddr), AreaBits(iomask, cfgmask))
    }

    ghost function Contents(): Area
      reads this, masters, slaves
    {
      Area(AreaBase(ioaddr, iomask, cfgaddr, cfgmask), masters[..], numMasters, slaves[..], numSlaves)
    }

    // Enters the records of a slave and of a master under their bus ids.
    method MapSlave(sbusid: nat, deviceinfo: seq<nat>)
      requires Contents().Valid() && masters != slaves && sbusid < 16 && ValidRecord(Present(deviceinfo))
      modifies slaves
      ensures Contents() == old(Contents()).(slaves := old(Contents()).slaves[sbusid := Present(deviceinfo)])
      ensures Contents().Valid()
    {
      slaves[sbusid] := Present(deviceinfo);
    }

    method MapMaster(mbusid: nat, deviceinfo: seq<nat>)
      requires Contents().Valid() && masters != slaves && mbusid < 16 && ValidRecord(Present(deviceinfo))
      modifies masters
      ensures Contents() == old(Contents()).(masters := old(Contents()).masters[mbusid := Present(deviceinfo)])
      ensures Contents().Valid()
    {
      masters[mbusid] := Present(deviceinfo);
    }

    // The record word behind an address.
    method RecordWord(address: nat) returns (result: nat)
      requires Contents().Valid() && address < WORD
      ensures result == Contents().WordBehind(address)
      ensures Contents().Offset(address) >= 0x1000 ==> result == 0
    {
      var addr := (address + (WORD - AreaBase(ioaddr, iomask, cfgaddr, cfgmask))) % WORD;
      if addr >= SLAVE_OFFSET {
        addr := addr - SLAVE_OFFSET;
        var device := addr / 4 / 8;
        var offset := addr / 4 % 8;
        if device >= numSlaves {
          return 0;
        }
        assert ValidRecord(slaves[..][device]);
        result := if slaves[device].Present? then slaves[device].words[offset] else 0;
      } else {
        var device := addr / 4 / 8;
        var offset := addr / 4 % 8;
        if device >= numMasters {
          return 0;
        }
        assert ValidRecord(masters[..][device]);
        result := if masters[device].Present? then masters[device].words[offset] else 0;
      }
    }

    // The area's word at an address, as the host holds it after swapping.
    method GetPNPReg(address: nat) returns (result: nat)
      requires Contents().Valid() && address < WORD
      ensures forall k: nat :: k < 4 ==> HostBytes(result)[k] == Contents().Byte(address - address % 4 + k)
    {
      if address >= 0xFFFF_FFF0 && address <= 0xFFFF_FFF3 {
        return BUILD_ID;
      }
      result := RecordWord(address);
      result := Swapped(result);
      forall k: nat | k < 4 ensures HostBytes(result)[k] == Contents().Byte(address - address % 4 + k) {
        Contents().BytesBehind(address, k);
      }
    }

    // A word with its bytes in the order of the processor.
    method Swapped(w: nat) returns (r: nat)
      ensures HostBytes(r) == TargetBytes(w)
    {
      var bytes := HostBytes(w);
      var datum := new nat[4](i requires 0 <= i < 4 => bytes[i]);
      SwapEndianess(datum);
      r := HostWord(datum[..]);
      HostWordBytes(datum[..]);
    }

    method ReadByte(address: nat) returns (b: nat)
      requires Contents().Valid() && address < WORD
      ensures b == Contents().Byte(address)
    {
      var reg := GetPNPReg(address);
      b := HostBytes(reg)[address % 4];
    }

    // Reads bytes into a buffer, one word look-up for each.
    method ReadBytes(address: nat, length: nat, data: array<nat>)
      requires Contents().Valid() && address < WORD && length <= data.Length
      modifies data
      ensures data[..length] == AreaBytes(old(Contents()), address, length)
      ensures data[length..] == old(data[length..])
    {
      ghost var area := Contents();
      var i := 0;
      while i < length
        invariant 0 <= i <= length
        invariant Contents() == area
        invariant data[..i] == AreaBytes(area, address, i)
        invariant data[length..] == old(data[length..])
      {
        data[i] := ReadByte((address + i) % WORD);
        OneMoreByte(area, address, i, data[i]);
        assert data[..i + 1] == data[..i] + [data[i]];
        i := i + 1;
      }
    }
  }
}
