/** A map with unsigned keys, as the sequence of its entries in the order of their keys. */
module OrderedMap {
  datatype Entry<V> = Entry(key: nat, value: V)

  ghost predicate Sorted<V>(m: seq<Entry<V>>) {
    forall i, j :: 0 <= i < j < |m| ==> m[i].key < m[j].key
  }

  ghost predicate HasKey<V>(m: seq<Entry<V>>, k: nat) {
    exists e :: e in m && e.key == k
  }

  // Inserts an entry; an entry that is there already is left alone.
  function Insert<V>(m: seq<Entry<V>>, k: nat, v: V): seq<Entry<V>> {
    if m == [] || k < m[0].key then [Entry(k, v)] + m
    else if k == m[0].key then m
    else [m[0]] + Insert(m[1..], k, v)
  }

  // The index of the first entry whose key is greater than k.
  function UpperBound<V>(m: seq<Entry<V>>, k: nat): (n: nat)
    ensures n <= |m|
  {
    if m == [] || k < m[0].key then 0 else 1 + UpperBound(m[1..], k)
  }

  // The index of the entry with a key, or -1.
  function Find<V>(m: seq<Entry<V>>, k: nat): (r: int)
    ensures -1 <= r < |m| && (r >= 0 ==> m[r].key == k)
    ensures r == -1 <==> !HasKey(m, k)
  {
    if m == [] then -1
    else
      TailHasKey(m, k);
      if m[0].key == k then 0 else var r := Find(m[1..], k); if r == -1 then -1 else r + 1
  }

  lemma TailSorted<V>(m: seq<Entry<V>>)
    requires Sorted(m) && m != []
    ensures Sorted(m[1..])
    ensures forall e :: e in m[1..] ==> m[0].key < e.key
    ensures forall e :: e in m <==> e == m[0] || e in m[1..]
  {
    assert m == [m[0]] + m[1..];
    forall e | e in m[1..] ensures m[0].key < e.key {
      var i :| 0 <= i < |m[1..]| && m[1..][i] == e;
      assert m[i + 1] == e;
    }
  }

  lemma HeadSorted<V>(head: Entry<V>, tail: seq<Entry<V>>)
    requires Sorted(tail) && forall e :: e in tail ==> head.key < e.key
    ensures Sorted([head] + tail)
    ensures forall e :: e in [head] + tail <==> e == head || e in tail
  {
    var m := [head] + tail;
    assert forall i :: 0 < i < |m| ==> m[i] == tail[i - 1];
  }

  lemma TailHasKey<V>(m: seq<Entry<V>>, k: nat)
    requires m != []
    ensures HasKey(m, k) <==> m[0].key == k || HasKey(m[1..], k)
  {
    assert m == [m[0]] + m[1..];
    if HasKey(m, k) && m[0].key != k {
      var e :| e in m && e.key == k;
      assert e in m[1..];
    }
    if HasKey(m[1..], k) {
      var e :| e in m[1..] && e.key == k;
      assert e in m;
    }
  }

  // Inserting adds the entry if its key is new, and changes nothing else.
  lemma {:induction false} InsertContents<V>(m: seq<Entry<V>>, k: nat, v: V)
    requires Sorted(m)
    ensures forall e :: e in m ==> e in Insert(m, k, v)
    ensures forall e :: e in Insert(m, k, v) ==> e in m || e == Entry(k, v)
    ensures if HasKey(m, k) then Insert(m, k, v) == m else Entry(k, v) in Insert(m, k, v)
  {
    if m != [] {
      TailSorted(m);
      TailHasKey(m, k);
      if k < m[0].key {
        assert !HasKey(m, k);
      } else if k > m[0].key {
        InsertContents(m[1..], k, v);
        assert m == [m[0]] + m[1..];
      }
    }
  }

  // Inserting keeps the order.
  lemma {:induction false} InsertSorted<V>(m: seq<Entry<V>>, k: nat, v: V)
    requires Sorted(m)
    ensures Sorted(Insert(m, k, v))
  {
    if m != [] {
      TailSorted(m);
      if k < m[0].key {
        HeadSorted(Entry(k, v), m);
      } else if k > m[0].key {
        InsertSorted(m[1..], k, v);
        InsertContents(m[1..], k, v);
        HeadSorted(m[0], Insert(m[1..], k, v));
      }
    }
  }

  // The upper bound splits the entries into those at or below k and those above.
  lemma {:induction false} UpperBoundSplits<V>(m: seq<Entry<V>>, k: nat)
    requires Sorted(m)
    ensures forall i :: 0 <= i < UpperBound(m, k) ==> m[i].key <= k
    ensures forall i :: UpperBound(m, k) <= i < |m| ==> k < m[i].key
  {
    if m != [] {
      TailSorted(m);
      var tail := m[1..];
      if m[0].key <= k {
        UpperBoundSplits(tail, k);
        assert forall i :: 0 < i < |m| ==> m[i] == tail[i - 1];
      }
    }
  }
}
