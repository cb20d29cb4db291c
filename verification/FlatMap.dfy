/** The flat map of flatmap.c: entries in first-seen order under trimmed keys. */
module FlatMap {
  import opened Common
  import opened Text

  datatype Entry<+V> = Entry(key: string, content: V)

  /** The entries that `calloc` made room for; `realloc` is given a count where it needs bytes, so no
      map can hold more. */
  const ENTRIES_MAX: nat := 16

  /** The index of a key, or -1. */
  function IndexOf<V>(es: seq<Entry<V>>, key: string): (r: int)
    ensures -1 <= r < |es|
    ensures r >= 0 ==> es[r].key == key && forall i :: 0 <= i < r ==> es[i].key != key
    ensures r == -1 ==> forall i :: 0 <= i < |es| ==> es[i].key != key
  {
    if es == [] then -1
    else if es[0].key == key then 0
    else
      var r := IndexOf(es[1..], key);
      assert forall i :: 1 <= i < |es| ==> es[i] == es[1..][i - 1];
      if r < 0 then -1 else r + 1
  }

  function PutAt<V>(es: seq<Entry<V>>, key: string, content: V): seq<Entry<V>>
  {
    var i := IndexOf(es, key);
    if i >= 0 then es[i := Entry(key, content)] else es + [Entry(key, content)]
  }

  /** `flatmap_get`: the index of the entry with the trimmed key, or -1. */
  method Find<V>(es: seq<Entry<V>>, key: string) returns (r: int)
    requires HasText(key)
    ensures r == IndexOf(es, Trim(key))
  {
    hide Trim, HasText;
    for pos := 0 to |es|
      invariant forall i :: 0 <= i < pos ==> es[i].key != Trim(key)
    {
      var tmpKey := Trim(key);
      if es[pos].key == tmpKey {
        return pos;
      }
    }
    return -1;
  }

  /** Keys are trimmed and no two are equal. */
  ghost predicate WellKeyed<V>(es: seq<Entry<V>>)
  {
    && (forall i :: 0 <= i < |es| ==> Trimmed(es[i].key))
    && (forall i, j :: 0 <= i < j < |es| ==> es[i].key != es[j].key)
  }

  lemma PutAtWellKeyed<V>(es: seq<Entry<V>>, key: string, content: V)
    requires WellKeyed(es) && Trimmed(key)
    ensures WellKeyed(PutAt(es, key, content))
  {
  }

  // ----- Fields: maps to strings -----------------------------------------------------------------------

  type FieldList = seq<Entry<string>>

  function PutField(fs: FieldList, key: string, value: string): FieldList
  {
    PutAt(fs, Trim(key), value)
  }

  function PutAll(fs: FieldList, pairs: seq<(string, string)>): FieldList
    decreases |pairs|
  {
    if pairs == [] then fs else PutAll(PutField(fs, pairs[0].0, pairs[0].1), pairs[1..])
  }

  function Lookup(fs: FieldList, key: string): Option<string>
  {
    var i := IndexOf(fs, key);
    if i < 0 then None else Some(fs[i].content)
  }

  lemma IndexOfIs<V>(es: seq<Entry<V>>, key: string, i: nat)
    requires i < |es| && es[i].key == key && forall j :: 0 <= j < i ==> es[j].key != key
    ensures IndexOf(es, key) == i
  {
  }

  lemma LookupPut(fs: FieldList, key: string, value: string, other: string)
    ensures Lookup(PutField(fs, key, value), other) == if other == Trim(key) then Some(value) else Lookup(fs, other)
  {
    hide Trim;
    var t := Trim(key);
    var r, i, j := PutAt(fs, t, value), IndexOf(fs, t), IndexOf(fs, other);
    if other == t {
      IndexOfIs(r, t, if i >= 0 then i else |fs|);
    } else if j >= 0 {
      IndexOfIs(r, other, j);
    }
  }

  /** The value a list of pairs leaves under a key: the last one given for it. */
  function LastValue(pairs: seq<(string, string)>, key: string): Option<string>
  {
    if pairs == [] then None else
      var last := |pairs| - 1;
      if Trim(pairs[last].0) == key then Some(pairs[last].1) else LastValue(pairs[..last], key)
  }

  lemma {:induction false} PutAllAppend(fs: FieldList, a: seq<(string, string)>, b: seq<(string, string)>)
    ensures PutAll(fs, a + b) == PutAll(PutAll(fs, a), b)
    decreases |a|
  {
    hide PutField;
    if a == [] {
      assert a + b == b;
    } else {
      assert (a + b)[1..] == a[1..] + b;
      PutAllAppend(PutField(fs, a[0].0, a[0].1), a[1..], b);
    }
  }

  /** Last write wins: each key has the last value put under it, and the old one if there is none. */
  lemma {:induction false} LastWriteWins(fs: FieldList, pairs: seq<(string, string)>, key: string)
    ensures Lookup(PutAll(fs, pairs), key) == if LastValue(pairs, key).Some? then LastValue(pairs, key) else Lookup(fs, key)
    decreases |pairs|
  {
    hide PutField, Lookup, Trim;
    if pairs == [] {
    } else {
      var last := |pairs| - 1;
      var front, p := pairs[..last], pairs[last];
      assert front + [p] == pairs && [p][1..] == [];
      PutAllAppend(fs, front, [p]);
      assert PutAll(PutAll(fs, front), [p]) == PutField(PutAll(fs, front), p.0, p.1);
      LookupPut(PutAll(fs, front), p.0, p.1, key);
      LastWriteWins(fs, front, key);
    }
  }

  predicate KeysHaveText(pairs: seq<(string, string)>)
  {
    forall i :: 0 <= i < |pairs| ==> HasText(pairs[i].0)
  }

  lemma {:induction false} PutAllWellKeyed(fs: FieldList, pairs: seq<(string, string)>)
    requires WellKeyed(fs) && KeysHaveText(pairs)
    ensures WellKeyed(PutAll(fs, pairs)) && |PutAll(fs, pairs)| >= |fs|
    decreases |pairs|
  {
    hide Trim, Trimmed, HasText, WellKeyed;
    if pairs == [] {
    } else {
      TrimTrims(pairs[0].0);
      PutAtWellKeyed(fs, Trim(pairs[0].0), pairs[0].1);
      PutAllWellKeyed(PutField(fs, pairs[0].0, pairs[0].1), pairs[1..]);
    }
  }

  /** Putting the entries of a map into an empty one, in order, copies it. */
  lemma CopyStep(fs: FieldList, i: nat)
    requires WellKeyed(fs) && i < |fs|
    ensures Trim(fs[i].key) == fs[i].key && HasText(fs[i].key)
    ensures IndexOf(fs[..i], fs[i].key) == -1
    ensures PutField(fs[..i], fs[i].key, fs[i].content) == fs[..i + 1]
  {
    hide Trim, HasText;
    assert Trimmed(fs[i].key);
    TrimmedIsFixed(fs[i].key);
  }

  /** A map from strings to strings, as a payload fills it. */
  class Fields {
    var entries: FieldList

    constructor ()
      ensures entries == []
    {
      entries := [];
    }

    /** `flatmap_put` with `assignContentChild`. */
    method Put(key: string, value: string)
      requires HasText(key)
      requires |PutField(entries, key, value)| <= ENTRIES_MAX
      modifies this
      ensures entries == PutField(old(entries), key, value)
    {
      var i := Find(entries, key);
      if i < 0 {
        entries := entries + [Entry(Trim(key), value)];
      } else {
        entries := entries[i := Entry(entries[i].key, value)];
      }
    }
  }
}
