/** The MQTT cache of main/buffer.cpp: fields per topic, filled by payloads, read by snapshots. */
module MqttCache {
  import opened Common
  import opened Text
  import opened FlatMap
  import opened Payload
  import opened TopicMatch

  /** The whole content of a cache. */
  type CacheValue = seq<Entry<FieldList>>

  function FieldsFor(cv: CacheValue, topic: string): FieldList
  {
    var i := IndexOf(cv, topic);
    if i < 0 then [] else cv[i].content
  }

  function CachePut(cv: CacheValue, topic: string, payload: string, stamp: string): CacheValue
  {
    PutAt(cv, Trim(topic), Assign(FieldsFor(cv, Trim(topic)), payload, stamp))
  }

  /** The entries whose topic matches, in order. */
  function Filtered(cv: CacheValue, filter: string): CacheValue
  {
    if cv == [] then [] else
      (if Matches(filter, cv[0].key) then [cv[0]] else []) + Filtered(cv[1..], filter)
  }

  ghost predicate WellFormed(cv: CacheValue)
  {
    WellKeyed(cv) && forall i :: 0 <= i < |cv| ==> WellKeyed(cv[i].content) && |cv[i].content| <= ENTRIES_MAX
  }

  // ----- Histories -----------------------------------------------------------------------------------------

  datatype Message = Message(topic: string, payload: string, stamp: string)

  /** A cache after a sequence of messages. */
  function CacheFrom(cv: CacheValue, ms: seq<Message>): CacheValue
  {
    if ms == [] then cv else
      var last := ms[|ms| - 1];
      CachePut(CacheFrom(cv, ms[..|ms| - 1]), last.topic, last.payload, last.stamp)
  }

  function CacheAfter(ms: seq<Message>): CacheValue
  {
    CacheFrom([], ms)
  }

  /** The topics of the messages, each once, in first-seen order. */
  function Topics(ms: seq<Message>): seq<string>
  {
    if ms == [] then [] else
      var before, t := Topics(ms[..|ms| - 1]), Trim(ms[|ms| - 1].topic);
      if t in before then before else before + [t]
  }

  /** All payloads of one topic, folded in order. */
  function Folded(ms: seq<Message>, topic: string): FieldList
  {
    if ms == [] then [] else
      var last, before := ms[|ms| - 1], Folded(ms[..|ms| - 1], topic);
      if Trim(last.topic) == topic then Assign(before, last.payload, last.stamp) else before
  }

  lemma NewPut<V>(es: seq<Entry<V>>, key: string, content: V)
    ensures var r, i := PutAt(es, key, content), IndexOf(es, key);
            && (i < 0 ==> |r| == |es| + 1 && r[|es|] == Entry(key, content) && r[..|es|] == es)
            && (i >= 0 ==> |r| == |es| && r[i] == Entry(key, content))
            && forall j :: 0 <= j < |es| && j != i ==> r[j] == es[j]
  {
  }

  lemma {:induction false} TopicsDistinct(ms: seq<Message>)
    ensures forall i, j :: 0 <= i < j < |Topics(ms)| ==> Topics(ms)[i] != Topics(ms)[j]
    ensures forall i :: 0 <= i < |ms| ==> Trim(ms[i].topic) in Topics(ms)
  {
    hide Trim;
    if ms == [] {
    } else {
      TopicsDistinct(ms[..|ms| - 1]);
      var before := Topics(ms[..|ms| - 1]);
      forall i | 0 <= i < |ms| ensures Trim(ms[i].topic) in Topics(ms) {
        assert i < |ms| - 1 ==> ms[..|ms| - 1][i] == ms[i];
      }
    }
  }

  /** After any messages the cache has one entry per topic, in first-seen order, with the fold of all
      that topic's payloads. */
  lemma {:induction false} CacheIsFold(ms: seq<Message>)
    ensures |CacheAfter(ms)| == |Topics(ms)|
    ensures forall i :: 0 <= i < |Topics(ms)| ==>
              CacheAfter(ms)[i] == Entry(Topics(ms)[i], Folded(ms, Topics(ms)[i]))
  {
    hide Trim, Assign, PutAt, IndexOf;
    if ms == [] {
    } else {
      var front, last := ms[..|ms| - 1], ms[|ms| - 1];
      var t, cv, ts := Trim(last.topic), CacheAfter(front), Topics(front);
      CacheIsFold(front);
      TopicsDistinct(front);
      FoldedUnseen(front, t);
      IndexInTopics(cv, ts, t);
      var fs := Assign(FieldsFor(cv, t), last.payload, last.stamp);
      NewPut(cv, t, fs);
      assert FieldsFor(cv, t) == Folded(front, t);
      assert Folded(ms, t) == fs;
    }
  }

  lemma IndexInTopics(cv: CacheValue, ts: seq<string>, t: string)
    requires |cv| == |ts| && forall i :: 0 <= i < |ts| ==> cv[i].key == ts[i]
    ensures var i := IndexOf(cv, t); -1 <= i < |cv| && (i >= 0 <==> t in ts) && (i >= 0 ==> ts[i] == t)
  {
    var i := IndexOf(cv, t);
    if i == -1 {
      assert forall j :: 0 <= j < |ts| ==> ts[j] == cv[j].key != t;
    }
  }

  lemma {:induction false} FoldedUnseen(ms: seq<Message>, t: string)
    ensures t !in Topics(ms) ==> Folded(ms, t) == []
  {
    hide Trim, Assign;
    if ms == [] {
    } else {
      FoldedUnseen(ms[..|ms| - 1], t);
    }
  }

  // ----- Well-formedness -------------------------------------------------------------------------------------

  predicate Puttable(cv: CacheValue, topic: string, payload: string, stamp: string)
  {
    && HasText(topic)
    && Storable(FieldsFor(cv, Trim(topic)), payload, stamp)
    && |CachePut(cv, topic, payload, stamp)| <= ENTRIES_MAX
  }

  lemma AssignWellKeyed(fs: FieldList, payload: string, stamp: string)
    requires WellKeyed(fs) && Storable(fs, payload, stamp)
    ensures WellKeyed(Assign(fs, payload, stamp))
  {
    hide Trim, HasText, WellKeyed, PutAll, Parse, PutAt;
    PutAllWellKeyed(fs, Parse(Some(payload)));
    FixedKeys();
    TrimTrims("timestamp");
    PutAtWellKeyed(PutAll(fs, Parse(Some(payload))), Trim("timestamp"), stamp);
  }

  /** A put keeps topics and keys trimmed and distinct. */
  lemma PutWellFormed(cv: CacheValue, topic: string, payload: string, stamp: string)
    requires WellFormed(cv) && Puttable(cv, topic, payload, stamp)
    ensures WellFormed(CachePut(cv, topic, payload, stamp))
  {
    hide Trim, HasText, PutAt, Assign, Trimmed, WellKeyed, Parse;
    var t := Trim(topic);
    var fs := Assign(FieldsFor(cv, t), payload, stamp);
    TrimTrims(topic);
    PutAtWellKeyed(cv, t, fs);
    EmptyWellKeyed();
    AssignWellKeyed(FieldsFor(cv, t), payload, stamp);
    NewPut(cv, t, fs);
  }

  lemma EmptyWellKeyed()
    ensures WellKeyed<string>([])
  {
  }

  // ----- The class -------------------------------------------------------------------------------------------

  ghost predicate DistinctParts(es: seq<Entry<Fields>>)
  {
    forall i, j :: 0 <= i < j < |es| ==> es[i].content != es[j].content
  }

  /** Putting under a key, then changing what is there, is putting the change. */
  lemma PutTwice<V>(es: seq<Entry<V>>, key: string, a: V, b: V)
    ensures var r := PutAt(es, key, a); var i := IndexOf(r, key);
            && i >= 0 && r[i] == Entry(key, a)
            && r[i := Entry(key, b)] == PutAt(es, key, b)
  {
    var r, k := PutAt(es, key, a), IndexOf(es, key);
    IndexOfIs(r, key, if k >= 0 then k else |es|);
  }

  /** The content of a list of entries that own inner maps. */
  ghost function ValueOf(es: seq<Entry<Fields>>): (cv: CacheValue)
    reads set e | e in es :: e.content
    ensures |cv| == |es|
    ensures forall i :: 0 <= i < |es| ==> cv[i] == Entry(es[i].key, es[i].content.entries)
  {
    if es == [] then [] else
      var rest := ValueOf(es[1..]);
      assert forall i :: 1 <= i < |es| ==> es[i] == es[1..][i - 1];
      [Entry(es[0].key, es[0].content.entries)] + rest
  }

  lemma IndexOfValue(es: seq<Entry<Fields>>, key: string)
    ensures IndexOf(es, key) == IndexOf(ValueOf(es), key)
  {
    var i, cv := IndexOf(es, key), ValueOf(es);
    if i >= 0 {
      IndexOfIs(cv, key, i);
    } else {
      assert forall j :: 0 <= j < |cv| ==> cv[j].key == es[j].key;
    }
  }

  /** Putting what is found under a key: nothing changes, or an empty entry is added. */
  lemma ClaimedIs(cv: CacheValue, t: string)
    ensures var i, claimed := IndexOf(cv, t), PutAt(cv, t, FieldsFor(cv, t));
            if i >= 0 then claimed == cv && cv[i].key == t
            else claimed == cv + [Entry(t, [])] && IndexOf(claimed, t) == |cv|
  {
    var i := IndexOf(cv, t);
    if i >= 0 {
      assert cv[i := Entry(t, cv[i].content)] == cv;
    } else {
      IndexOfIs(cv + [Entry(t, [])], t, |cv|);
    }
  }

  class Cache {
    var entries: seq<Entry<Fields>>

    /** The inner maps. */
    ghost function Parts(): set<Fields>
      reads this
    {
      set e | e in entries :: e.content
    }

    ghost function Value(): CacheValue
      reads this, Parts()
    {
      ValueOf(entries)
    }

    /** No two entries share an inner map, and the content is well formed. */
    ghost predicate Valid()
      reads this, Parts()
    {
      && DistinctParts(entries)
      && WellFormed(Value())
    }

    constructor ()
      ensures Valid() && Value() == [] && Parts() == {}
    {
      entries := [];
    }

    /** The first half of `flatmap_put`: find the topic's entry, or add an empty one at the end. */
    method Claim(topic: string) returns (i: nat)
      requires Valid() && HasText(topic)
      modifies this
      ensures i < |entries| && DistinctParts(entries) && fresh(Parts() - old(Parts()))
      ensures var t := Trim(topic);
              Value() == PutAt(old(Value()), t, FieldsFor(old(Value()), t)) && entries[i].key == t && i == IndexOf(Value(), t)
    {
      hide Trim, HasText, WellFormed, IndexOf, PutAt, FieldsFor, DistinctParts;
      var t := Trim(topic);
      IndexOfValue(entries, t);
      ClaimedIs(Value(), t);
      var r := Find(entries, topic);
      if r >= 0 {
        return r;
      }
      i := |entries|;
      AddEmpty(t);
    }

    method AddEmpty(key: string)
      requires DistinctParts(entries)
      modifies this
      ensures Value() == old(Value()) + [Entry(key, [])]
      ensures |entries| == old(|entries|) + 1 && entries[|entries| - 1].key == key
      ensures DistinctParts(entries) && fresh(Parts() - old(Parts()))
    {
      hide DistinctParts;
      var fields := new Fields();
      Add(key, fields);
    }

    /** Append an entry that owns a new inner map. */
    method Add(key: string, fields: Fields)
      requires DistinctParts(entries) && fields !in Parts()
      modifies this
      ensures Value() == old(Value()) + [Entry(key, fields.entries)]
      ensures entries == old(entries) + [Entry(key, fields)]
      ensures DistinctParts(entries) && Parts() == old(Parts()) + {fields}
    {
      ghost var was := Value();
      entries := entries + [Entry(key, fields)];
      assert Value() == was + [Entry(key, fields.entries)];
    }

    /** `mqttBuffer_put` */
    method Put(topic: string, payload: string, stamp: string)
      requires Valid() && Puttable(Value(), topic, payload, stamp)
      modifies this, Parts()
      ensures Valid() && Value() == CachePut(old(Value()), topic, payload, stamp)
      ensures fresh(Parts() - old(Parts()))
    {
      hide Trim, HasText, Assign, WellFormed, Storable, PutAt;
      ghost var was := Value();
      PutWellFormed(was, topic, payload, stamp);
      var i := Claim(topic);
      PutTwice(was, Trim(topic), FieldsFor(was, Trim(topic)), Assign(FieldsFor(was, Trim(topic)), payload, stamp));
      ghost var claimed := Value();
      AssignContent(entries[i].content, payload, stamp);
      assert Value() == claimed[i := Entry(Trim(topic), Assign(claimed[i].content, payload, stamp))];
    }

    /** `flatmap_put` with `assignContentCopy`: add a deep copy of an entry under a new topic. The
        source asserts that the entry did not exist; here that follows. */
    method PutCopy(entry: Entry<Fields>)
      requires Trimmed(entry.key) && WellKeyed(entry.content.entries) && |entry.content.entries| <= ENTRIES_MAX
      requires DistinctParts(entries) && entry.content !in Parts() && IndexOf(Value(), entry.key) == -1
      modifies this
      ensures Value() == old(Value()) + [Entry(entry.key, entry.content.entries)]
      ensures DistinctParts(entries) && Parts() >= old(Parts()) && fresh(Parts() - old(Parts()))
    {
      hide Trim, WellKeyed, Trimmed, HasText, IndexOf;
      TrimmedIsFixed(entry.key);
      IndexOfValue(entries, entry.key);
      var i := Find(entries, entry.key);
      assert i == -1;
      var fields := CopyFields(entry.content);
      Add(Trim(entry.key), fields);
    }

    method PutIfMatching(filter: string, entry: Entry<Fields>)
      requires Trimmed(entry.key) && WellKeyed(entry.content.entries) && |entry.content.entries| <= ENTRIES_MAX
      requires DistinctParts(entries) && entry.content !in Parts() && IndexOf(Value(), entry.key) == -1
      modifies this
      ensures Value() == old(Value()) + if Matches(filter, entry.key) then [Entry(entry.key, entry.content.entries)] else []
      ensures DistinctParts(entries) && Parts() >= old(Parts()) && fresh(Parts() - old(Parts()))
    {
      hide Matches, Trimmed, WellKeyed, IndexOf, DistinctParts;
      var matches := MatchTopic(filter, entry.key);
      if matches {
        PutCopy(entry);
      } else {
        assert Value() == Value() + [];
      }
    }

    /** One turn of the snapshot loop, on the snapshot. */
    method CopyOne(es: seq<Entry<Fields>>, index: nat, filter: string, ghost cv: CacheValue)
      requires WellFormed(cv) && index < |es| && ValueOf(es) == cv
      requires DistinctParts(entries) && Value() == Filtered(cv[..index], filter) && es[index].content !in Parts()
      modifies this
      ensures DistinctParts(entries) && Value() == Filtered(cv[..index + 1], filter)
      ensures fresh(Parts() - old(Parts()))
    {
      hide Matches, Trimmed, WellKeyed, WellFormed, Filtered, IndexOf, DistinctParts;
      var entry := es[index];
      FilteredStep(cv, filter, index);
      EntryWellFormed(cv, index);
      assert cv[index] == Entry(entry.key, entry.content.entries);
      PutIfMatching(filter, entry);
    }

    /** `mqttBuffer_getMatching`: the matching part of the cache, in new storage. */
    method GetMatching(filter: string) returns (copy: Cache)
      requires Valid()
      ensures fresh(copy) && fresh(copy.Parts())
      ensures copy.Valid() && copy.Value() == Filtered(Value(), filter)
    {
      hide Matches, Trimmed, WellKeyed, WellFormed, Filtered, IndexOf, DistinctParts;
      ghost var cv := Value();
      NoParts();
      FilteredNothing(filter);
      FilteredWellFormed(cv, filter);
      copy := new Cache();
      assert cv[..0] == [];
      for index := 0 to |entries|
        invariant fresh(copy) && fresh(copy.Parts())
        invariant DistinctParts(copy.entries) && copy.Value() == Filtered(cv[..index], filter)
      {
        copy.CopyOne(entries, index, filter, cv);
      }
      assert cv[..|cv|] == cv;
    }

    /** `flatmap_free` on a snapshot: the entries and their inner maps are emptied. */
    method Free()
      modifies this, Parts()
      ensures entries == [] && forall f :: f in old(Parts()) ==> f.entries == []
      ensures Value() == []
    {
      ghost var parts := Parts();
      while |entries| > 0
        invariant Parts() <= parts && forall f :: f in parts && f !in Parts() ==> f.entries == []
        decreases |entries|
      {
        var last := entries[|entries| - 1];
        ghost var before := entries;
        last.content.entries := [];
        entries := entries[..|entries| - 1];
        assert forall e :: e in before ==> e in entries || e == last;
      }
    }
  }

  /** A fresh inner map with the same fields. */
  method CopyFields(source: Fields) returns (copy: Fields)
    requires WellKeyed(source.entries) && |source.entries| <= ENTRIES_MAX
    ensures fresh(copy) && copy.entries == source.entries
  {
    hide Trim, HasText, WellKeyed, PutField;
    copy := new Fields();
    assert source.entries[..0] == [];
    for i := 0 to |source.entries|
      invariant fresh(copy) && copy.entries == source.entries[..i] && source.entries == old(source.entries)
    {
      CopyStep(source.entries, i);
      copy.Put(source.entries[i].key, source.entries[i].content);
    }
    assert source.entries[..|source.entries|] == source.entries;
  }

  // ----- Filtering ----------------------------------------------------------------------------------------------

  lemma FilteredCons(e: Entry<FieldList>, cv: CacheValue, filter: string)
    ensures Filtered([e] + cv, filter) == (if Matches(filter, e.key) then [e] else []) + Filtered(cv, filter)
  {
    hide Matches;
    assert ([e] + cv)[1..] == cv;
  }

  lemma {:induction false} FilteredAppend(a: CacheValue, b: CacheValue, filter: string)
    ensures Filtered(a + b, filter) == Filtered(a, filter) + Filtered(b, filter)
  {
    hide Matches, Filtered;
    if a == [] {
      assert a + b == b;
      FilteredNothing(filter);
    } else {
      var e, rest := a[0], a[1..];
      assert [e] + rest == a && [e] + (rest + b) == a + b;
      FilteredCons(e, rest + b, filter);
      FilteredCons(e, rest, filter);
      FilteredAppend(rest, b, filter);
      Reassociate(if Matches(filter, e.key) then [e] else [], Filtered(rest, filter), Filtered(b, filter));
    }
  }

  lemma {:induction false} FilteredFrom(cv: CacheValue, filter: string)
    ensures forall e :: e in Filtered(cv, filter) <==> e in cv && Matches(filter, e.key)
    ensures |Filtered(cv, filter)| <= |cv|
  {
    hide Matches;
    if cv == [] {
    } else {
      FilteredFrom(cv[1..], filter);
    }
  }

  /** One entry further: it is added if it matches, and its topic is not in the snapshot yet. */
  lemma FilteredStep(cv: CacheValue, filter: string, i: nat)
    requires WellFormed(cv) && i < |cv|
    ensures Filtered(cv[..i + 1], filter) == Filtered(cv[..i], filter) + if Matches(filter, cv[i].key) then [cv[i]] else []
    ensures IndexOf(Filtered(cv[..i], filter), cv[i].key) == -1
  {
    hide Matches, Trimmed;
    assert cv[..i + 1] == cv[..i] + [cv[i]] && [cv[i]][1..] == [];
    FilteredAppend(cv[..i], [cv[i]], filter);
    FilteredFrom(cv[..i], filter);
    KeyAbsent(Filtered(cv[..i], filter), cv, i);
  }

  lemma KeyAbsent(es: CacheValue, cv: CacheValue, i: nat)
    requires WellFormed(cv) && i < |cv| && forall e :: e in es ==> e in cv[..i]
    ensures IndexOf(es, cv[i].key) == -1
  {
    hide Trimmed;
    forall j | 0 <= j < |es| ensures es[j].key != cv[i].key {
      assert es[j] in es;
      var k :| 0 <= k < i && cv[..i][k] == es[j];
      assert cv[k].key != cv[i].key;
    }
  }

  lemma NoParts()
    ensures DistinctParts([])
  {
  }

  lemma FilteredNothing(filter: string)
    ensures Filtered([], filter) == []
  {
  }

  lemma EntryWellFormed(cv: CacheValue, i: nat)
    requires WellFormed(cv) && i < |cv|
    ensures Trimmed(cv[i].key) && WellKeyed(cv[i].content) && |cv[i].content| <= ENTRIES_MAX
  {
  }

  lemma {:induction false} FilteredWellFormed(cv: CacheValue, filter: string)
    requires WellFormed(cv)
    ensures WellFormed(Filtered(cv, filter))
  {
    hide Matches, Trimmed;
    if cv == [] {
    } else {
      var rest := Filtered(cv[1..], filter);
      FilteredWellFormed(cv[1..], filter);
      FilteredFrom(cv[1..], filter);
      forall j | 0 <= j < |rest| ensures rest[j].key != cv[0].key {
        assert rest[j] in rest;
        var k :| 0 <= k < |cv[1..]| && cv[1..][k] == rest[j];
        assert cv[k + 1].key != cv[0].key;
      }
    }
  }

  /** Freeing a snapshot that shares no storage with a cache does not change the cache. */
  method FreeSnapshot(cache: Cache, copy: Cache)
    requires cache.Valid() && copy != cache && copy.Parts() !! cache.Parts()
    modifies copy, copy.Parts()
    ensures copy.Value() == []
    ensures cache.Valid() && cache.Value() == old(cache.Value())
  {
    copy.Free();
  }

  // ----- Sequences of puts --------------------------------------------------------------------------------------

  /** Every message of a sequence can be stored. */
  predicate AllPuttable(cv: CacheValue, ms: seq<Message>)
  {
    ms == [] ||
    var last := ms[|ms| - 1];
    AllPuttable(cv, ms[..|ms| - 1]) && Puttable(CacheFrom(cv, ms[..|ms| - 1]), last.topic, last.payload, last.stamp)
  }

  lemma {:induction false} PrefixPuttable(cv: CacheValue, ms: seq<Message>, i: nat)
    requires AllPuttable(cv, ms) && i < |ms|
    ensures Puttable(CacheFrom(cv, ms[..i]), ms[i].topic, ms[i].payload, ms[i].stamp)
    ensures CacheFrom(cv, ms[..i + 1]) == CachePut(CacheFrom(cv, ms[..i]), ms[i].topic, ms[i].payload, ms[i].stamp)
  {
    hide Puttable, CachePut;
    assert ms[..i + 1][..i] == ms[..i] && ms[..i + 1][i] == ms[i];
    var front := ms[..|ms| - 1];
    if i == |front| {
    } else {
      PrefixPuttable(cv, front, i);
      assert front[..i] == ms[..i] && front[i] == ms[i];
    }
  }

  method PutEach(cache: Cache, ms: seq<Message>)
    requires cache.Valid() && AllPuttable(cache.Value(), ms)
    modifies cache, cache.Parts()
    ensures cache.Valid() && cache.Value() == CacheFrom(old(cache.Value()), ms)
    ensures fresh(cache.Parts() - old(cache.Parts()))
  {
    hide CacheFrom, CachePut, Puttable, WellFormed, DistinctParts, AllPuttable;
    ghost var cv := cache.Value();
    NoMessages(cv);
    assert ms[..0] == [];
    for i := 0 to |ms|
      invariant cache.Valid() && cache.Value() == CacheFrom(cv, ms[..i])
      invariant fresh(cache.Parts() - old(cache.Parts()))
    {
      PrefixPuttable(cv, ms, i);
      cache.Put(ms[i].topic, ms[i].payload, ms[i].stamp);
    }
    assert ms[..|ms|] == ms;
  }

  lemma NoMessages(cv: CacheValue)
    ensures CacheFrom(cv, []) == cv
  {
  }

  /** Puts after a snapshot do not change it. */
  method SnapshotThenPuts(cache: Cache, filter: string, ms: seq<Message>) returns (copy: Cache)
    requires cache.Valid() && AllPuttable(cache.Value(), ms)
    modifies cache, cache.Parts()
    ensures fresh(copy) && fresh(copy.Parts())
    ensures copy.Value() == Filtered(old(cache.Value()), filter)
    ensures cache.Valid() && cache.Value() == CacheFrom(old(cache.Value()), ms)
    ensures copy != cache && copy.Parts() !! cache.Parts()
  {
    hide CacheFrom, AllPuttable, Filtered, WellFormed, DistinctParts;
    copy := cache.GetMatching(filter);
    assert copy.Parts() !! cache.Parts();
    PutEach(cache, ms);
  }

  /** A cache fed any sequence of messages, then read: the snapshot is the matching part of the fold. */
  method FeedThenRead(ms: seq<Message>, filter: string) returns (cache: Cache, copy: Cache)
    requires AllPuttable([], ms)
    ensures cache.Valid() && cache.Value() == CacheAfter(ms)
    ensures copy.Valid() && copy.Value() == Filtered(CacheAfter(ms), filter)
    ensures copy != cache && copy.Parts() !! cache.Parts()
  {
    hide CacheFrom, Filtered, WellFormed, DistinctParts, AllPuttable;
    cache := new Cache();
    PutEach(cache, ms);
    copy := cache.GetMatching(filter);
  }

  // ----- Print, put, look up ------------------------------------------------------------------------------------

  /** Pairs printed as `k:v,k:v` and put on a topic are found there: each key has its last value, a key that was
      not printed what the earlier payloads of the topic gave it, and `timestamp` the new stamp. */
  lemma PrintedIsFound(ms: seq<Message>, topic: string, pairs: seq<(string, string)>, stamp: string, key: string)
    requires AllPrintable(pairs)
    ensures var after := CacheAfter(ms + [Message(topic, Print(pairs), stamp)]);
      Lookup(FieldsFor(after, Trim(topic)), key) ==
        if key == "timestamp" then Some(stamp)
        else if LastValue(pairs, key).Some? then LastValue(pairs, key)
        else Lookup(Folded(ms, Trim(topic)), key)
  {
    hide Trim, Assign, PutAt, IndexOf, Parse, Print, Lookup, LastValue, CacheAfter, AllPrintable;
    var t, message := Trim(topic), Message(topic, Print(pairs), stamp);
    var after := ms + [message];
    assert after[..|ms|] == ms && after[|ms|] == message;
    FieldsAreFold(after, t);
    ParsePrint(pairs);
    AssignedField(Folded(ms, t), message.payload, stamp, key);
  }

  /** What the cache holds for a topic is the fold of its payloads, and nothing if it has had none. */
  lemma FieldsAreFold(ms: seq<Message>, t: string)
    ensures FieldsFor(CacheAfter(ms), t) == Folded(ms, t)
  {
    hide Assign, Trim, Folded, CacheAfter, Topics;
    CacheIsFold(ms);
    FoldedUnseen(ms, t);
    IndexInTopics(CacheAfter(ms), Topics(ms), t);
  }

  /** A bare token, alone or after printed pairs, is the topic's field `no_key`. */
  lemma BareIsFound(ms: seq<Message>, topic: string, pairs: seq<(string, string)>, t: string, stamp: string)
    requires AllPrintable(pairs) && Bare(t)
    ensures var payload := if pairs == [] then t else Print(pairs) + "," + t;
      Lookup(FieldsFor(CacheAfter(ms + [Message(topic, payload, stamp)]), Trim(topic)), "no_key") == Some(t)
  {
    hide Trim, Assign, PutAt, IndexOf, Print, Lookup, CacheAfter, AllPrintable;
    var message := Message(topic, if pairs == [] then t else Print(pairs) + "," + t, stamp);
    var after := ms + [message];
    assert after[..|ms|] == ms && after[|ms|] == message;
    FieldsAreFold(after, Trim(topic));
    BareIsNoKey(Folded(ms, Trim(topic)), pairs, t, stamp);
  }

  /** Topics are listed as they are first seen: those of the first messages come first. */
  lemma {:induction false} TopicsGrow(ms: seq<Message>, k: nat)
    requires k <= |ms|
    ensures |Topics(ms[..k])| <= |Topics(ms)| && Topics(ms)[..|Topics(ms[..k])|] == Topics(ms[..k])
  {
    hide Trim;
    if k == |ms| {
      assert ms[..k] == ms;
    } else {
      TopicsGrow(ms[..|ms| - 1], k);
      assert ms[..|ms| - 1][..k] == ms[..k];
    }
  }

  /** The entry of a topic is in a snapshot exactly when the levels of the filter match those of the topic. */
  lemma InSnapshotIff(cv: CacheValue, e: Entry<FieldList>, f: seq<string>, t: seq<string>)
    requires Levels(f) && Levels(t) && e in cv && e.key == Join(t, '/')
    ensures e in Filtered(cv, Join(f, '/')) <==> MatchLevels(f, t)
  {
    hide Matches, MatchLevels, Join, Levels;
    FilteredFrom(cv, Join(f, '/'));
    SlashSeparates(f, t);
  }
}
