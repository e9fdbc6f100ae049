/**
 Signals: outputs that pass a value on to their receivers, a selector that writes to several
 outputs by a bit mask, and an input field that keeps a value for each of its channels.
 */
module Signals {
  import opened Bits
  import opened Words
  import opened OrderedMap

  // Channels that a mask can name.
  const CHANNELS: nat := 32

  // ---------------------------------------------------------------------------------------
  // Input fields

  class Infield<T(==)> {
    // The channel each output writes to, and the value of each channel.
    var channels: map<Out<T>, nat>
    var values: map<nat, T>

    constructor ()
      ensures channels == map[] && values == map[]
    {
      channels, values := map[], map[];
    }

    // An output stays on the channel it was first bound to, and a channel keeps its value.
    method Bind(sender: Out<T>, channel: nat, initial: T)
      modifies this
      ensures channels == if sender in old(channels) then old(channels) else old(channels)[sender := channel]
      ensures values == if channel in old(values) then old(values) else old(values)[channel := initial]
    {
      if sender !in channels {
        channels := channels[sender := channel];
      }
      if channel !in values {
        values := values[channel := initial];
      }
    }

    // Takes over the value of an output.
    method Update(sender: Out<T>)
      modifies this`values
      ensures values == AfterUpdate(old(values), channels, sender, sender.value)
    {
      if sender !in channels {
        return;
      }
      var channel := channels[sender];
      if channel !in values {
        return;
      }
      values := values[channel := sender.value];
    }

    method Read(channel: nat, defaultValue: T) returns (v: T)
      ensures v == if channel in values then values[channel] else defaultValue
    {
      if channel in values {
        return values[channel];
      }
      return defaultValue;
    }
  }

  // The channel of the output, if it is bound, has the new value.
  function AfterUpdate<T>(values: map<nat, T>, channels: map<Out<T>, nat>, sender: Out<T>, v: T): map<nat, T> {
    if sender in channels && channels[sender] in values then values[channels[sender] := v] else values
  }

  // ---------------------------------------------------------------------------------------
  // Outputs

  class Out<T(==)> {
    var value: T
    var receivers: seq<Infield<T>>

    constructor (value: T)
      ensures this.value == value && receivers == []
    {
      this.value, receivers := value, [];
    }

    // Adds a receiver unless it is there already.
    method Bind(receiver: Infield<T>)
      modifies this`receivers
      ensures receivers == if receiver in old(receivers) then old(receivers) else old(receivers) + [receiver]
    {
      var i := 0;
      while i < |receivers|
        invariant i <= |receivers| && receivers == old(receivers)
        invariant receiver !in receivers[..i]
      {
        if receivers[i] == receiver {
          return;
        }
        i := i + 1;
      }
      receivers := receivers + [receiver];
    }

    // Stores the value and has every receiver take it over.
    method Write(v: T)
      modifies this`value, receivers`values
      ensures value == v
      ensures forall r :: r in receivers ==> r.values == AfterUpdate(old(r.values), r.channels, this, v)
    {
      value := v;
      var i := 0;
      while i < |receivers|
        invariant i <= |receivers| && value == v
        invariant forall r :: r in receivers[..i] ==> r.values == AfterUpdate(old(r.values), r.channels, this, v)
        invariant forall r :: r in receivers && r !in receivers[..i] ==> r.values == old(r.values)
      {
        receivers[i].Update(this);
        assert receivers[..i + 1] == receivers[..i] + [receivers[i]];
        i := i + 1;
      }
      assert receivers[..|receivers|] == receivers;
    }
  }

  // ---------------------------------------------------------------------------------------
  // The selector

  // How outputs and fields are wired: the receivers of each output, and the channel each
  // field has for an output.
  datatype Wiring<!T(==)> = Wiring(receivers: map<Out<T>, seq<Infield<T>>>, channels: map<Infield<T>, map<Out<T>, nat>>)

  // What is written to output o goes to channel c of field f.
  predicate Feeds<T(==)>(w: Wiring<T>, o: Out<T>, f: Infield<T>, c: nat) {
    && o in w.receivers && f in w.receivers[o]
    && f in w.channels && o in w.channels[f] && w.channels[f][o] == c
  }

  // The mask selects one of these outputs that feeds channel c of field f.
  ghost predicate Reaches<T>(outs: seq<Entry<Out<T>>>, w: Wiring<T>, mask: nat, f: Infield<T>, c: nat) {
    exists e :: e in outs && Bit(mask, e.key) && Feeds(w, e.value, f, c)
  }

  // A field's values after a write of v: each channel the mask reaches has v, any other has
  // what it had.
  ghost predicate HasReceived<T>(outs: seq<Entry<Out<T>>>, w: Wiring<T>, mask: nat, f: Infield<T>,
                                 was: map<nat, T>, now: map<nat, T>, v: T) {
    now.Keys == was.Keys && forall c :: c in was ==> now[c] == if Reaches(outs, w, mask, f, c) then v else was[c]
  }

  ghost function OutputsOf<T>(outs: seq<Entry<Out<T>>>): set<Out<T>> {
    set e | e in outs :: e.value
  }

  // The wiring is that of these outputs and fields, and every receiver is one of the fields.
  ghost predicate IsWiring<T>(w: Wiring<T>, outputs: set<Out<T>>, fields: set<Infield<T>>)
    reads outputs`receivers, fields`channels
  {
    && (forall o :: o in outputs ==> o in w.receivers && w.receivers[o] == o.receivers)
    && (forall f :: f in fields ==> f in w.channels && w.channels[f] == f.channels)
    && (forall o, f :: o in outputs && f in o.receivers ==> f in fields)
  }

  // After the loop has ended at the first channel whose bit is above the mask, no output is
  // left that the mask selects.
  lemma NoneLeft<T>(outs: seq<Entry<Out<T>>>, mask: nat, n: nat)
    requires Sorted(outs) && n <= |outs| && (n < |outs| ==> mask < Power(outs[n].key))
    ensures forall k :: n <= k < |outs| ==> !Bit(mask, outs[k].key)
  {
    forall k | n <= k < |outs| ensures !Bit(mask, outs[k].key) { NoHighBit(mask, outs[n].key, outs[k].key); }
  }

  lemma OneMore<T>(outs: seq<Entry<Out<T>>>, w: Wiring<T>, i: nat, mask: nat, f: Infield<T>, c: nat)
    requires i < |outs|
    ensures Reaches(outs[..i + 1], w, mask, f, c)
      <==> Reaches(outs[..i], w, mask, f, c) || (Bit(mask, outs[i].key) && Feeds(w, outs[i].value, f, c))
  {
    assert outs[..i + 1] == outs[..i] + [outs[i]];
  }

  lemma OneMoreReceived<T>(outs: seq<Entry<Out<T>>>, w: Wiring<T>, i: nat, mask: nat, f: Infield<T>,
                           was: map<nat, T>, before: map<nat, T>, v: T)
    requires i < |outs| && outs[i].value in w.receivers && f in w.channels
    requires HasReceived(outs[..i], w, mask, f, was, before, v)
    ensures HasReceived(outs[..i + 1], w, mask, f, was, AfterWrite(w, outs[i], mask, f, before, v), v)
  {
    forall c | c in was { OneMore(outs, w, i, mask, f, c); }
  }

  lemma NoneLeftToReceive<T>(outs: seq<Entry<Out<T>>>, w: Wiring<T>, n: nat, mask: nat, f: Infield<T>,
                             was: map<nat, T>, now: map<nat, T>, v: T)
    requires Sorted(outs) && n <= |outs| && (n < |outs| ==> mask < Power(outs[n].key))
    requires HasReceived(outs[..n], w, mask, f, was, now, v)
    ensures HasReceived(outs, w, mask, f, was, now, v)
  {
    NoneLeft(outs, mask, n);
    forall e | e in outs && Bit(mask, e.key) ensures e in outs[..n] {
      var k :| 0 <= k < |outs| && outs[k] == e;
      assert k < n;
    }
    assert forall c :: Reaches(outs, w, mask, f, c) <==> Reaches(outs[..n], w, mask, f, c);
  }

  // A field's values after one output has been written if the mask selects it.
  function AfterWrite<T(==)>(w: Wiring<T>, e: Entry<Out<T>>, mask: nat, f: Infield<T>, before: map<nat, T>, v: T)
      : map<nat, T>
    requires e.value in w.receivers && f in w.channels
  {
    if Bit(mask, e.key) && f in w.receivers[e.value] then AfterUpdate(before, w.channels[f], e.value, v) else before
  }

  class Selector<T(==)> {
    // The outputs in the order of their channels.
    var outs: seq<Entry<Out<T>>>

    ghost predicate Valid()
      reads this
    {
      && Sorted(outs)
      && forall d, e :: d in outs && e in outs && d.value == e.value ==> d == e
    }

    constructor ()
      ensures Valid() && outs == []
    {
      outs := [];
    }

    // Binds a receiver to the output of a channel; the first time, makes the output.
    method Bind(receiver: Infield<T>, channel: nat, initial: T) returns (item: Out<T>)
      requires Valid()
      modifies this, OutputsOf(outs)`receivers
      ensures Valid() && Entry(channel, item) in outs
      ensures forall e :: e in old(outs) ==>
        e.value.receivers == old(e.value.receivers)
          + if e.key == channel && receiver !in old(e.value.receivers) then [receiver] else []
      ensures HasKey(old(outs), channel) ==> outs == old(outs)
      ensures !HasKey(old(outs), channel) ==>
                && fresh(item) && item.value == initial && item.receivers == [receiver]
                && forall e :: e in outs <==> e in old(outs) || e == Entry(channel, item)
    {
      var i := Find(outs, channel);
      if i >= 0 {
        item := outs[i].value;
      } else {
        item := new Out(initial);
        InsertSorted(outs, channel, item);
        InsertContents(outs, channel, item);
        outs := Insert(outs, channel, item);
      }
      item.Bind(receiver);
    }

    // Writes to the output at a place if the mask selects it.
    method WriteAt(n: nat, mask: nat, v: T, ghost w: Wiring<T>, ghost fields: set<Infield<T>>)
      requires Valid() && n < |outs| && IsWiring(w, OutputsOf(outs), fields)
      modifies OutputsOf(outs)`value, fields`values
      ensures forall k :: 0 <= k < |outs| ==>
                            outs[k].value.value == if k == n && Bit(mask, outs[k].key) then v else old(outs[k].value.value)
      ensures forall f :: f in fields ==> f.values == AfterWrite(w, outs[n], mask, f, old(f.values), v)
    {
      assert outs[n] in outs;
      if Bit(mask, outs[n].key) {
        outs[n].value.Write(v);
      }
    }

    // Writes in the order of the channels, up to the first whose bit is above the mask.
    method WriteInOrder(mask: nat, v: T, ghost w: Wiring<T>, ghost fields: set<Infield<T>>) returns (n: nat)
      requires Valid() && IsWiring(w, OutputsOf(outs), fields)
      modifies OutputsOf(outs)`value, fields`values
      ensures n <= |outs| && (n < |outs| ==> mask < Power(outs[n].key))
      ensures forall k :: 0 <= k < |outs| ==>
                            outs[k].value.value == if k < n && Bit(mask, outs[k].key) then v else old(outs[k].value.value)
      ensures forall f :: f in fields ==> HasReceived(outs[..n], w, mask, f, old(f.values), f.values, v)
    {
      n := 0;
      while n < |outs| && mask >= Power(outs[n].key)
        invariant n <= |outs|
        invariant forall k :: 0 <= k < |outs| ==>
                                outs[k].value.value == if k < n && Bit(mask, outs[k].key) then v else old(outs[k].value.value)
        invariant forall f :: f in fields ==> HasReceived(outs[..n], w, mask, f, old(f.values), f.values, v)
      {
        label before:
        WriteAt(n, mask, v, w, fields);
        forall f | f in fields ensures HasReceived(outs[..n + 1], w, mask, f, old(f.values), f.values, v) {
          OneMoreReceived(outs, w, n, mask, f, old(f.values), old@before(f.values), v);
        }
        n := n + 1;
      }
    }

    // So exactly the outputs whose channels the mask selects are written, and their fields
    // receive the value.
    method Write(mask: nat, v: T, ghost w: Wiring<T>, ghost fields: set<Infield<T>>)
      requires Valid() && IsWiring(w, OutputsOf(outs), fields) && forall e :: e in outs ==> e.key < CHANNELS
      modifies OutputsOf(outs)`value, fields`values
      ensures forall k :: 0 <= k < |outs| ==>
                            outs[k].value.value == if Bit(mask, outs[k].key) then v else old(outs[k].value.value)
      ensures forall f :: f in fields ==> HasReceived(outs, w, mask, f, old(f.values), f.values, v)
    {
      var n := WriteInOrder(mask, v, w, fields);
      NoneLeft(outs, mask, n);
      forall f | f in fields { NoneLeftToReceive(outs, w, n, mask, f, old(f.values), f.values, v); }
    }
  }

  // A write to the selector: a mask and a value.
  datatype MaskedWrite<T> = MaskedWrite(mask: nat, value: T)

  // A field's values before, between and after some writes.
  ghost predicate IsHistory<T>(outs: seq<Entry<Out<T>>>, w: Wiring<T>, f: Infield<T>, writes: seq<MaskedWrite<T>>,
                               values: seq<map<nat, T>>) {
    && |values| == |writes| + 1
    && forall i :: 0 <= i < |writes| ==>
                     HasReceived(outs, w, writes[i].mask, f, values[i], values[i + 1], writes[i].value)
  }

  // The place of the last of the first n writes that reached channel c of field f, or -1.
  ghost predicate IsLastReach<T>(outs: seq<Entry<Out<T>>>, w: Wiring<T>, f: Infield<T>, writes: seq<MaskedWrite<T>>,
                                 c: nat, n: nat, k: int)
    requires n <= |writes|
  {
    && -1 <= k < n
    && (k >= 0 ==> Reaches(outs, w, writes[k].mask, f, c))
    && forall j :: k < j < n ==> !Reaches(outs, w, writes[j].mask, f, c)
  }

  // Whatever is written to a selector, an input channel holds the value of the last write
  // that reached it, and what it had at first if none did.
  lemma {:induction false} LastWriteCounts<T>(outs: seq<Entry<Out<T>>>, w: Wiring<T>, f: Infield<T>,
                                              writes: seq<MaskedWrite<T>>, values: seq<map<nat, T>>, c: nat, n: nat,
                                              k: int)
    requires IsHistory(outs, w, f, writes, values) && n <= |writes| && c in values[0]
    requires IsLastReach(outs, w, f, writes, c, n, k)
    ensures c in values[n] && values[n][c] == if k >= 0 then writes[k].value else values[0][c]
  {
    if n > 0 {
      assert HasReceived(outs, w, writes[n - 1].mask, f, values[n - 1], values[n], writes[n - 1].value);
      if k < n - 1 {
        LastWriteCounts(outs, w, f, writes, values, c, n - 1, k);
      } else {
        HistoryKeys(outs, w, f, writes, values, n - 1);
      }
    }
  }

  lemma {:induction false} HistoryKeys<T>(outs: seq<Entry<Out<T>>>, w: Wiring<T>, f: Infield<T>,
                                          writes: seq<MaskedWrite<T>>, values: seq<map<nat, T>>, n: nat)
    requires IsHistory(outs, w, f, writes, values) && n <= |writes|
    ensures values[n].Keys == values[0].Keys
  {
    if n > 0 {
      HistoryKeys(outs, w, f, writes, values, n - 1);
      assert HasReceived(outs, w, writes[n - 1].mask, f, values[n - 1], values[n], writes[n - 1].value);
    }
  }

  // Connects a channel of a selector with a channel of a field, unless the output has a
  // channel of the field already.
  method Connect<T(==)>(selector: Selector<T>, field: Infield<T>, outChannel: nat, inChannel: nat, initial: T)
      returns (item: Out<T>)
    requires selector.Valid()
    modifies selector, OutputsOf(selector.outs)`receivers, field
    ensures selector.Valid() && Entry(outChannel, item) in selector.outs
    ensures HasKey(old(selector.outs), outChannel) ==> selector.outs == old(selector.outs)
    ensures !HasKey(old(selector.outs), outChannel) ==>
              && fresh(item) && item.receivers == [field]
              && forall e :: e in selector.outs <==> e in old(selector.outs) || e == Entry(outChannel, item)
    ensures forall e :: e in old(selector.outs) ==>
      e.value.receivers == old(e.value.receivers)
        + if e.key == outChannel && field !in old(e.value.receivers) then [field] else []
    ensures field.channels == old(field.channels)[item := if item in old(field.channels) then old(field.channels)[item] else inChannel]
    ensures field.values == if inChannel in old(field.values) then old(field.values) else old(field.values)[inChannel := initial]
  {
    item := selector.Bind(field, outChannel, initial);
    field.Bind(item, inChannel, initial);
  }
}
