/** A bank of registers as a stretch of memory that is read and written byte by byte. */
module RegisterBank {
  import opened Bits
  import opened Words
  import opened HostMemory
  import opened Registers
  import opened RegisterFile

  type Byte = b: nat | b < 0x100

  const WORD_BYTES: nat := 4

  // A register as the bank sees it.
  datatype Cell = Cell(fields: seq<Field>, writeMask: nat, word: nat)

  ghost predicate ValidCell(c: Cell) { ValidFields(c.fields) }

  type Contents = map<nat, Cell>

  ghost predicate ValidContents(bank: Contents) {
    forall o :: o in bank ==> ValidCell(bank[o])
  }

  // ---------------------------------------------------------------------------------------
  // The byte view

  // The word that byte j lies in.
  function WordOf(j: nat): (idx: nat)
    ensures idx <= j && idx + j % WORD_BYTES == j && idx % WORD_BYTES == 0
  {
    j / WORD_BYTES * WORD_BYTES
  }

  // Byte j of the stretch at `offset`: zero where no register starts at its word.
  function ByteAt(bank: Contents, offset: nat, j: nat): nat {
    HostBytes(WordAt(bank, offset + WordOf(j)))[j % WORD_BYTES]
  }

  // The word at an offset: zero where there is no register.
  function WordAt(bank: Contents, o: nat): nat {
    if o in bank then bank[o].word else 0
  }

  // A word written to an offset: nothing where there is no register.
  function AfterBusWrite(bank: Contents, o: nat, data: nat): Contents
    requires ValidContents(bank)
  {
    if o in bank then
      var c := bank[o];
      bank[o := c.(word := AfterOp(c.fields, c.writeMask, c.word, Op.BusWrite(data)))]
    else bank
  }

  // The word at `offset` is written, in whole or in part, by a write of `size` bytes there.
  predicate Written(o: nat, size: nat, offset: nat) {
    offset <= o < offset + size && (o - offset) % WORD_BYTES == 0
  }

  // The bytes of a word after new ones have been copied over its first.
  function Overlaid(bytes: seq<Byte>, word: nat): (r: seq<nat>)
    requires |bytes| <= WORD_BYTES
    ensures |r| == WORD_BYTES
  {
    bytes + HostBytes(word)[|bytes|..]
  }

  // The bytes of the write that fall on the word.
  function BytesFor(v: seq<Byte>, size: nat, idx: nat): (r: seq<Byte>)
    requires idx < size <= |v|
    ensures |r| <= WORD_BYTES
  {
    if size - idx < WORD_BYTES then v[idx..size] else v[idx..idx + WORD_BYTES]
  }

  // The word that a register is written with: the new bytes, and its own beyond them.
  function DataFor(v: seq<Byte>, size: nat, idx: nat, word: nat): nat
    requires idx < size <= |v|
  {
    HostWord(Overlaid(BytesFor(v, size, idx), word))
  }

  function WordAfter(c: Cell, v: seq<Byte>, size: nat, idx: nat): nat
    requires ValidCell(c) && idx < size <= |v|
  {
    AfterOp(c.fields, c.writeMask, c.word, Op.BusWrite(DataFor(v, size, idx, c.word)))
  }

  ghost function AfterWrite(bank: Contents, v: seq<Byte>, size: nat, offset: nat): Contents
    requires ValidContents(bank) && size <= |v|
  {
    map o | o in bank ::
      if Written(o, size, offset) then bank[o].(word := WordAfter(bank[o], v, size, o - offset)) else bank[o]
  }

  // A byte of a register that can be written: by the write mask and by the fields.
  function WritableBits(c: Cell, k: nat): nat
    requires ValidCell(c) && k < WORD_BYTES
  {
    And(HostBytes(c.writeMask)[k], HostBytes(RegisterMask(c.fields))[k])
  }

  lemma WordWritten(bank: Contents, v: seq<Byte>, size: nat, offset: nat, idx: nat)
    requires ValidContents(bank) && idx < size <= |v| && idx % WORD_BYTES == 0 && offset + idx in bank
    ensures offset + idx in AfterWrite(bank, v, size, offset)
    ensures AfterWrite(bank, v, size, offset)[offset + idx].word == WordAfter(bank[offset + idx], v, size, idx)
  {
    assert Written(offset + idx, size, offset);
  }

  // What a write makes of one byte of a register.
  lemma ByteAfter(c: Cell, v: seq<Byte>, size: nat, idx: nat, k: nat)
    requires ValidCell(c) && idx < size <= |v| && k < WORD_BYTES
    ensures HostBytes(WordAfter(c, v, size, idx))[k]
      == And(if idx + k < size then v[idx + k] else HostBytes(c.word)[k], WritableBits(c, k))
  {
    var bytes := Overlaid(BytesFor(v, size, idx), c.word);
    HostWordBytes(bytes);
    var data := HostWord(bytes);
    AndBytes(And(data, c.writeMask), RegisterMask(c.fields), k);
    AndBytes(data, c.writeMask, k);
    AndAssociates(HostBytes(data)[k], HostBytes(c.writeMask)[k], HostBytes(RegisterMask(c.fields))[k]);
  }

  // A byte of a word that has been written.
  lemma WrittenByte(bank: Contents, v: seq<Byte>, size: nat, offset: nat, idx: nat, k: nat)
    requires ValidContents(bank) && idx < size <= |v| && idx % WORD_BYTES == 0 && offset + idx in bank && k < WORD_BYTES
    ensures offset + idx in AfterWrite(bank, v, size, offset)
    ensures HostBytes(AfterWrite(bank, v, size, offset)[offset + idx].word)[k]
      == And(if idx + k < size then v[idx + k] else HostBytes(bank[offset + idx].word)[k],
             WritableBits(bank[offset + idx], k))
  {
    WordWritten(bank, v, size, offset, idx);
    ByteAfter(bank[offset + idx], v, size, idx, k);
  }

  // Reading what has been written: each byte masked by what its register lets through, zero
  // where there is none.
  lemma ReadAfterWrite(bank: Contents, v: seq<Byte>, size: nat, offset: nat, j: nat)
    requires ValidContents(bank) && j < size <= |v|
    ensures ByteAt(AfterWrite(bank, v, size, offset), offset, j)
      == var o := offset + WordOf(j);
         if o in bank then And(v[j], WritableBits(bank[o], j % WORD_BYTES)) else 0
  {
    if offset + WordOf(j) in bank {
      WrittenByte(bank, v, size, offset, WordOf(j), j % WORD_BYTES);
    }
  }

  // Of the bytes of a partial last word beyond the write the writable bits are kept.
  lemma LastWordKept(bank: Contents, v: seq<Byte>, size: nat, offset: nat, j: nat)
    requires ValidContents(bank) && size <= |v|
    requires size <= j && WordOf(j) < size
    requires offset + WordOf(j) in bank
    ensures ByteAt(AfterWrite(bank, v, size, offset), offset, j)
      == And(ByteAt(bank, offset, j), WritableBits(bank[offset + WordOf(j)], j % WORD_BYTES))
  {
    WrittenByte(bank, v, size, offset, WordOf(j), j % WORD_BYTES);
  }

  // Registers that start at no word of the write are untouched, and none comes or goes.
  lemma OthersUntouched(bank: Contents, v: seq<Byte>, size: nat, offset: nat, o: nat)
    requires ValidContents(bank) && size <= |v|
    ensures o in AfterWrite(bank, v, size, offset) <==> o in bank
    ensures o in bank && !Written(o, size, offset) ==> AfterWrite(bank, v, size, offset)[o] == bank[o]
  {
  }

  // Writing the same bytes again changes nothing more.
  lemma WriteTwice(bank: Contents, v: seq<Byte>, size: nat, offset: nat, j: nat)
    requires ValidContents(bank) && size <= |v| && j < size
    ensures ValidContents(AfterWrite(bank, v, size, offset))
    ensures var once := AfterWrite(bank, v, size, offset);
      ByteAt(AfterWrite(once, v, size, offset), offset, j) == ByteAt(once, offset, j)
  {
    ReadAfterWrite(bank, v, size, offset, j);
    ReadAfterWrite(AfterWrite(bank, v, size, offset), v, size, offset, j);
  }

  // ---------------------------------------------------------------------------------------
  // The bank

  class Bank {
    var registers: map<nat, Register>

    ghost predicate Valid()
      reads this, registers.Values
    {
      && (forall o :: o in registers ==> registers[o].Valid())
      && (forall o, p :: o in registers && p in registers && o != p ==> registers[o] != registers[p])
    }

    ghost function Cells(): (bank: Contents)
      reads this, registers.Values
      ensures Valid() ==> ValidContents(bank)
    {
      map o | o in registers :: Cell(registers[o].fields, registers[o].writeMask, registers[o].curVal)
    }

    constructor ()
      ensures registers == map[]
    {
      registers := map[];
    }

    method CreateRegister(addr: nat, initVal: nat, writeMask: nat) returns (reg: Register)
      modifies this
      ensures fresh(reg) && reg.fields == [] && reg.resetVal == initVal && reg.writeMask == writeMask
      ensures registers == old(registers)[addr := reg]
    {
      reg := new Register(initVal, writeMask);
      registers := registers[addr := reg];
    }

    // Zero where there is no register.
    method BusRead(offset: nat) returns (data: nat)
      ensures data == WordAt(Cells(), offset)
    {
      if offset in registers {
        data := registers[offset].BusRead();
      } else {
        data := 0;
      }
    }

    // Nothing where there is no register.
    method BusWrite(offset: nat, data: nat)
      requires Valid()
      modifies registers.Values
      ensures Valid() && registers == old(registers)
      ensures Cells() == AfterBusWrite(old(Cells()), offset, data)
    {
      if offset in registers {
        registers[offset].BusWrite(data);
      }
    }

    // Copies the bytes of a word, as far as the read goes, into the buffer.
    static method CopyWord(v: array<Byte>, size: nat, idx: nat, data: nat)
      requires idx < size <= v.Length
      modifies v
      ensures forall j :: 0 <= j < v.Length ==>
                v[j] == if idx <= j < idx + WORD_BYTES && j < size then HostBytes(data)[j - idx] else old(v[j])
    {
      var n := if size - idx < WORD_BYTES then size - idx else WORD_BYTES;
      for i := 0 to n
        invariant forall j :: 0 <= j < v.Length ==>
                    v[j] == if idx <= j < idx + i then HostBytes(data)[j - idx] else old(v[j])
      {
        v[idx + i] := HostBytes(data)[i];
      }
    }

    // Reads one word.
    method ReadWord(v: array<Byte>, size: nat, offset: nat, idx: nat)
      requires idx < size <= v.Length && idx % WORD_BYTES == 0
      modifies v
      ensures forall j :: 0 <= j < v.Length ==>
                v[j] == if idx <= j < idx + WORD_BYTES && j < size then ByteAt(old(Cells()), offset, j) else old(v[j])
    {
      ghost var bank := Cells();
      var data := BusRead(offset + idx);
      CopyWord(v, size, idx, data);
      forall j | idx <= j < idx + WORD_BYTES && j < size ensures v[j] == ByteAt(bank, offset, j) {
        InWord(idx, j - idx);
      }
    }

    // Reads `size` bytes word by word.
    method ScireegRead(v: array<Byte>, size: nat, offset: nat) returns (success: bool)
      requires size <= v.Length
      modifies v
      ensures success
      ensures forall j :: 0 <= j < size ==> v[j] == ByteAt(old(Cells()), offset, j)
      ensures forall j :: size <= j < v.Length ==> v[j] == old(v[j])
    {
      ghost var bank := Cells();
      var idx := 0;
      while idx < size
        invariant idx % WORD_BYTES == 0
        invariant forall j :: 0 <= j < idx && j < size ==> v[j] == ByteAt(bank, offset, j)
        invariant forall j :: size <= j < v.Length ==> v[j] == old(v[j])
      {
        ReadWord(v, size, offset, idx);
        idx := idx + WORD_BYTES;
      }
      return true;
    }

    // Copies the bytes that fall on one word over the word's first.
    static method CopyBytes(v: seq<Byte>, size: nat, idx: nat, word: nat) returns (data: nat)
      requires idx < size <= |v|
      ensures data == DataFor(v, size, idx, word)
    {
      var n := if size - idx < WORD_BYTES then size - idx else WORD_BYTES;
      assert v[idx..idx + n] == BytesFor(v, size, idx);
      data := HostWord(v[idx..idx + n] + HostBytes(word)[n..]);
    }

    // Writes the bytes that fall on one word; what the word has beyond them is read first.
    method WriteWord(v: seq<Byte>, size: nat, offset: nat, idx: nat, ghost bank: Contents)
      requires Valid() && idx < size <= |v| && idx % WORD_BYTES == 0
      requires ValidContents(bank) && Cells() == AfterWrite(bank, v, idx, offset)
      modifies registers.Values
      ensures Valid() && registers == old(registers)
      ensures Cells() == AfterWrite(bank, v, Further(idx, size), offset)
    {
      WriteOneMore(bank, v, size, offset, idx);
      var word := BusRead(offset + idx);
      var data := CopyBytes(v, size, idx, word);
      BusWrite(offset + idx, data);
    }

    // Writes `size` bytes word by word.
    method ScireegWrite(v: seq<Byte>, size: nat, offset: nat) returns (success: bool)
      requires Valid() && size <= |v|
      modifies registers.Values
      ensures Valid() && registers == old(registers)
      ensures success && Cells() == AfterWrite(old(Cells()), v, size, offset)
    {
      ghost var bank, done := Cells(), 0;
      var idx := 0;
      while idx < size
        invariant Valid() && registers == old(registers)
        invariant idx % WORD_BYTES == 0 && done == if idx < size then idx else size
        invariant Cells() == AfterWrite(bank, v, done, offset)
      {
        WriteWord(v, size, offset, idx, bank);
        done := Further(idx, size);
        idx := idx + WORD_BYTES;
      }
      return true;
    }
  }

  lemma InWord(idx: nat, i: nat)
    requires idx % WORD_BYTES == 0 && i < WORD_BYTES
    ensures WordOf(idx + i) == idx && (idx + i) % WORD_BYTES == i
  {
  }

  // How far a write has come when it has gone one word further.
  function Further(idx: nat, size: nat): (next: nat)
    requires idx < size
    ensures next <= size
  {
    if idx + WORD_BYTES < size then idx + WORD_BYTES else size
  }

  lemma WordsBelow(d: nat, idx: nat)
    requires d % WORD_BYTES == 0 && idx % WORD_BYTES == 0
    ensures d < idx ==> d + WORD_BYTES <= idx
    ensures idx <= d < idx + WORD_BYTES ==> d == idx
  {
  }

  lemma OneMoreAt(bank: Contents, v: seq<Byte>, size: nat, offset: nat, idx: nat, o: nat)
    requires ValidContents(bank) && idx < size <= |v| && idx % WORD_BYTES == 0
    ensures Written(o, Further(idx, size), offset) <==> Written(o, idx, offset) || o == offset + idx
    ensures !Written(offset + idx, idx, offset)
    ensures Written(o, idx, offset) ==> BytesFor(v, Further(idx, size), o - offset) == BytesFor(v, idx, o - offset)
    ensures BytesFor(v, Further(idx, size), idx) == BytesFor(v, size, idx)
  {
    if offset <= o && (o - offset) % WORD_BYTES == 0 {
      WordsBelow(o - offset, idx);
    }
  }

  // A write that goes one word further.
  lemma WriteOneMore(bank: Contents, v: seq<Byte>, size: nat, offset: nat, idx: nat)
    requires ValidContents(bank) && idx < size <= |v| && idx % WORD_BYTES == 0
    ensures var before := AfterWrite(bank, v, idx, offset);
      && ValidContents(before)
      && AfterWrite(bank, v, Further(idx, size), offset)
         == AfterBusWrite(before, offset + idx, DataFor(v, size, idx, WordAt(before, offset + idx)))
  {
    var before, after := AfterWrite(bank, v, idx, offset), AfterWrite(bank, v, Further(idx, size), offset);
    OneMoreAt(bank, v, size, offset, idx, offset + idx);
    forall o | o in bank
      ensures after[o] == if o == offset + idx then bank[o].(word := WordAfter(bank[o], v, size, idx)) else before[o]
    {
      OneMoreAt(bank, v, size, offset, idx, o);
    }
  }
}
