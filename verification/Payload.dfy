/** The payload parser of main/buffer.cpp: `key:value` pairs separated by commas, and bare tokens. */
module Payload {
  import opened Common
  import opened Text
  import opened FlatMap

  const NO_KEY := "no_key"

  predicate Empty(token: Option<string>)
  {
    token.None? || token.value == ""
  }

  /** The pairs that the parser puts, from the cursor on. */
  function Parse(cursor: Option<string>): seq<(string, string)>
    decreases Left(cursor)
  {
    var k := Strsep(cursor, ":");
    if Empty(k.token) then []
    else
      var v := Strsep(k.rest, ",");
      [if Empty(v.token) then (NO_KEY, k.token.value) else (k.token.value, v.token.value)] + Parse(v.rest)
  }

  function Assign(fs: FieldList, payload: string, stamp: string): FieldList
  {
    PutField(PutAll(fs, Parse(Some(payload))), "timestamp", stamp)
  }

  /** What the C code needs: no blank key, and no more entries than there is room for. */
  predicate Storable(fs: FieldList, payload: string, stamp: string)
  {
    KeysHaveText(Parse(Some(payload))) && |Assign(fs, payload, stamp)| <= ENTRIES_MAX
  }

  lemma {:induction false} PutAllSize(fs: FieldList, pairs: seq<(string, string)>)
    ensures |PutAll(fs, pairs)| >= |fs|
    decreases |pairs|
  {
    hide Trim;
    if pairs == [] {
    } else {
      PutAllSize(PutField(fs, pairs[0].0, pairs[0].1), pairs[1..]);
    }
  }

  lemma FixedKeys()
    ensures HasText(NO_KEY) && HasText("timestamp") && Trim("timestamp") == "timestamp" && Trim(NO_KEY) == NO_KEY
  {
    assert !IsSpace("timestamp"[0]) && !IsSpace(NO_KEY[0]);
  }

  /** `assignContent`, once the map exists: parse the payload into it, then the time stamp. */
  method AssignContent(m: Fields, payload: string, stamp: string)
    requires Storable(m.entries, payload, stamp)
    modifies m
    ensures m.entries == Assign(old(m.entries), payload, stamp)
  {
    hide Trim, HasText, PutField, Strsep;
    ghost var all := PutAll(m.entries, Parse(Some(payload)));
    PutAllSize(m.entries, Parse(Some(payload)));
    FixedKeys();
    SizeAfter(all, "timestamp", stamp);
    var source: Option<string> := Some(payload);
    while true
      invariant PutAll(m.entries, Parse(source)) == all && |all| <= ENTRIES_MAX && KeysHaveText(Parse(source))
      decreases Left(source)
    {
      StrsepShrinks(source, ":");
      var k := Strsep(source, ":");
      var key, value: Option<string> := k.token, None;
      source := k.rest;
      if key.Some? && |key.value| > 0 {
        StrsepShrinks(source, ",");
        var v := Strsep(source, ",");
        value, source := v.token, v.rest;
      }
      if Empty(key) && Empty(value) {
        break;
      }
      // Past an empty key the value is never read, so the pair has a key.
      assert !Empty(key);
      ghost var pair := if Empty(value) then (NO_KEY, key.value) else (key.value, value.value);
      ParseUnfolds(pair, Parse(source));
      PutAllSize(PutField(m.entries, pair.0, pair.1), Parse(source));
      if Empty(value) {
        m.Put(NO_KEY, key.value);
      } else {
        m.Put(key.value, value.value);
      }
    }
    m.Put("timestamp", stamp);
  }

  /** What a payload leaves under a key: the last value given for it, but always the new time stamp. */
  lemma AssignedField(fs: FieldList, payload: string, stamp: string, key: string)
    ensures Lookup(Assign(fs, payload, stamp), key) ==
              if key == "timestamp" then Some(stamp)
              else if LastValue(Parse(Some(payload)), key).Some? then LastValue(Parse(Some(payload)), key)
              else Lookup(fs, key)
  {
    hide Lookup, PutField, Trim, Parse;
    FixedKeys();
    LookupPut(PutAll(fs, Parse(Some(payload))), "timestamp", stamp, key);
    LastWriteWins(fs, Parse(Some(payload)), key);
  }

  lemma ParseUnfolds(pair: (string, string), rest: seq<(string, string)>)
    ensures var pairs := [pair] + rest;
            && pairs[0] == pair && pairs[1..] == rest
            && (KeysHaveText(pairs) ==> HasText(pair.0) && KeysHaveText(rest))
  {
    var pairs := [pair] + rest;
    assert pairs[1..] == rest;
    if KeysHaveText(pairs) {
      assert HasText(pairs[0].0);
      forall i | 0 <= i < |rest| ensures HasText(rest[i].0) {
        assert HasText(pairs[i + 1].0);
      }
    }
  }

  lemma SizeAfter(fs: FieldList, key: string, value: string)
    ensures |fs| <= |PutField(fs, key, value)|
  {
    hide Trim;
  }

  lemma StrsepShrinks(cursor: Option<string>, delims: string)
    ensures var t := Strsep(cursor, delims);
            && (t.token.None? <==> cursor.None?)
            && (cursor.None? ==> t.rest.None?)
            && (cursor.Some? ==> Left(t.rest) < Left(cursor))
  {
  }

  // ----- Printing and parsing -----------------------------------------------------------------------------

  /** `k:v,k:v` */
  function Print(pairs: seq<(string, string)>): string
  {
    if pairs == [] then [] else
      pairs[0].0 + ":" + pairs[0].1 + (if |pairs| == 1 then [] else "," + Print(pairs[1..]))
  }

  predicate Printable(p: (string, string))
  {
    p.0 != "" && ':' !in p.0 && p.1 != "" && ',' !in p.1
  }

  predicate AllPrintable(pairs: seq<(string, string)>)
  {
    forall i :: 0 <= i < |pairs| ==> Printable(pairs[i])
  }

  lemma PrintShape(pairs: seq<(string, string)>)
    requires pairs != []
    ensures var tail := if |pairs| == 1 then pairs[0].1 else pairs[0].1 + [','] + Print(pairs[1..]);
            Print(pairs) == pairs[0].0 + [':'] + tail
  {
  }

  /** A printable first pair is read back, and reading goes on with the rest. */
  lemma HeadParses(pairs: seq<(string, string)>)
    requires pairs != [] && Printable(pairs[0])
    ensures Parse(Some(Print(pairs)))
         == [pairs[0]] + if |pairs| == 1 then [] else Parse(Some(Print(pairs[1..])))
  {
    hide Strsep, Print;
    var p := pairs[0];
    PrintShape(pairs);
    if |pairs| == 1 {
      StrsepAt(p.0, ':', p.1, ":");
      StrsepWhole(p.1, ",");
      StrsepShrinks(None, ":");
      assert Parse(None) == [];
    } else {
      StrsepAt(p.0, ':', p.1 + [','] + Print(pairs[1..]), ":");
      StrsepAt(p.1, ',', Print(pairs[1..]), ",");
    }
  }

  lemma {:induction false} ParsePrint(pairs: seq<(string, string)>)
    requires AllPrintable(pairs)
    ensures Parse(Some(Print(pairs))) == pairs
    decreases |pairs|
  {
    hide Strsep;
    if pairs == [] {
      StrsepWhole("", ":");
    } else {
      assert Printable(pairs[0]);
      HeadParses(pairs);
      assert [pairs[0]] + pairs[1..] == pairs;
      if |pairs| > 1 {
        forall i | 0 <= i < |pairs[1..]| ensures Printable(pairs[1..][i]) {
          assert pairs[1..][i] == pairs[i + 1];
        }
        ParsePrint(pairs[1..]);
      }
    }
  }

  lemma TokenOf(s: string, delims: string)
    ensures var t := Strsep(Some(s), delims);
            && t.token.Some? && (forall j :: 0 <= j < |t.token.value| ==> t.token.value[j] !in delims)
            && ((exists j :: 0 <= j < |s| && s[j] in delims) ==> t.rest.Some? && t.token.value + [s[|t.token.value|]] + t.rest.value == s)
  {
    var i := Break(s, delims);
    if i < |s| {
      assert s[..i] + [s[i]] + s[i + 1..] == s;
    }
  }

  /** A first pair that is read back is printable. */
  lemma FirstPrintable(pairs: seq<(string, string)>)
    requires pairs != [] && Parse(Some(Print(pairs))) != [] && Parse(Some(Print(pairs)))[0] == pairs[0]
    ensures Printable(pairs[0])
  {
    hide Strsep, Print;
    var p, text := pairs[0], Print(pairs);
    PrintShape(pairs);
    assert text[|p.0|] == ':';
    TokenOf(text, ":");
    var k := Strsep(Some(text), ":");
    TokenOf(k.rest.value, ",");
    var v := Strsep(k.rest, ",");
    if Empty(v.token) {
      // The pair read is ("no_key", key): then the key is "no_key", and so is the text after it.
      assert p == (NO_KEY, k.token.value) && ':' !in p.0;
      if |pairs| == 1 {
        StrsepAt(p.0, ':', p.1, ":");
        StrsepWhole(p.1, ",");
      } else {
        StrsepAt(p.0, ':', p.1 + [','] + Print(pairs[1..]), ":");
        StrsepAt(p.1, ',', Print(pairs[1..]), ",");
      }
      assert false;
    }
  }

  /** Parsing undoes printing exactly when keys are non-empty without `:` and values non-empty without `,`. */
  lemma {:induction false} ParsePrintIff(pairs: seq<(string, string)>)
    ensures Parse(Some(Print(pairs))) == pairs <==> AllPrintable(pairs)
    decreases |pairs|
  {
    if AllPrintable(pairs) {
      ParsePrint(pairs);
    }
    if pairs != [] && Parse(Some(Print(pairs))) == pairs {
      FirstPrintable(pairs);
      HeadParses(pairs);
      if |pairs| > 1 {
        assert Parse(Some(Print(pairs)))[1..] == Parse(Some(Print(pairs[1..])));
        ParsePrintIff(pairs[1..]);
      }
      forall i | 0 <= i < |pairs| ensures Printable(pairs[i]) {
        assert i > 0 ==> pairs[1..][i - 1] == pairs[i];
      }
    }
  }

  // ----- Bare tokens --------------------------------------------------------------------------------------

  predicate Bare(t: string)
  {
    t != "" && ':' !in t
  }

  lemma ParseNothing()
    ensures Parse(None) == [] && Parse(Some("")) == []
  {
    StrsepWhole("", ":");
  }

  /** A token without a colon, alone or followed by one, is a value without a key. */
  lemma BareToken(t: string)
    requires Bare(t)
    ensures Parse(Some(t)) == [("no_key", t)]
    ensures Parse(Some(t + ":")) == [("no_key", t)]
  {
    ParseNothing();
    StrsepWhole(t, ":");
    StrsepShrinks(None, ",");
    assert Parse(Some(t)) == [("no_key", t)] + Parse(None);
    StrsepAt(t, ':', "", ":");
    assert t + [':'] + "" == t + ":";
    StrsepWhole("", ",");
    assert Parse(Some(t + ":")) == [("no_key", t)] + Parse(None);
  }

  /** So is one with an empty value, and parsing goes on after the comma. */
  lemma BareTokenThen(t: string, rest: string)
    requires Bare(t)
    ensures Parse(Some(t + ":," + rest)) == [("no_key", t)] + Parse(Some(rest))
  {
    hide Strsep;
    assert t + ":," + rest == t + [':'] + ("," + rest);
    StrsepAt(t, ':', "," + rest, ":");
    assert "" + [','] + rest == "," + rest;
    StrsepAt("", ',', rest, ",");
  }

  /** Printed pairs can be followed by a bare last token. */
  lemma {:induction false} PrintedThenBare(pairs: seq<(string, string)>, t: string)
    requires AllPrintable(pairs) && pairs != [] && Bare(t)
    ensures Parse(Some(Print(pairs) + "," + t)) == pairs + [("no_key", t)]
    decreases |pairs|
  {
    hide Strsep;
    var p := pairs[0];
    assert Printable(p);
    var rest := if |pairs| == 1 then t else Print(pairs[1..]) + "," + t;
    PrintThen(pairs, t);
    StrsepAt(p.0, ':', p.1 + [','] + rest, ":");
    StrsepAt(p.1, ',', rest, ",");
    if |pairs| == 1 {
      BareToken(t);
    } else {
      forall i | 0 <= i < |pairs[1..]| ensures Printable(pairs[1..][i]) {
        assert pairs[1..][i] == pairs[i + 1];
      }
      PrintedThenBare(pairs[1..], t);
      assert [p] + (pairs[1..] + [("no_key", t)]) == pairs + [("no_key", t)];
    }
  }

  lemma PrintThen(pairs: seq<(string, string)>, t: string)
    requires pairs != []
    ensures var rest := if |pairs| == 1 then t else Print(pairs[1..]) + "," + t;
      Print(pairs) + "," + t == pairs[0].0 + [':'] + (pairs[0].1 + [','] + rest)
  {
    hide Print;
    var (k, v) := pairs[0];
    PrintShape(pairs);
    if |pairs| == 1 {
      Regroup(k, [':'], v, ",", t);
    } else {
      Regroup(k, [':'], v + [','] + Print(pairs[1..]), ",", t);
      Regroup(v, [','], Print(pairs[1..]), ",", t);
    }
  }

  lemma Regroup(a: string, b: string, c: string, d: string, e: string)
    ensures a + b + c + d + e == a + b + (c + d + e)
  {
  }

  /** After a message that ends in a bare token, the field `no_key` is that token. */
  lemma BareIsNoKey(fs: FieldList, pairs: seq<(string, string)>, t: string, stamp: string)
    requires AllPrintable(pairs) && Bare(t)
    ensures var payload := if pairs == [] then t else Print(pairs) + "," + t;
      Lookup(Assign(fs, payload, stamp), "no_key") == Some(t)
  {
    hide Lookup, Assign, Print, Parse;
    var payload := if pairs == [] then t else Print(pairs) + "," + t;
    if pairs == [] {
      BareToken(t);
    } else {
      PrintedThenBare(pairs, t);
    }
    NoKeyLast(pairs, t);
    AssignedField(fs, payload, stamp, "no_key");
  }

  lemma NoKeyLast(pairs: seq<(string, string)>, t: string)
    ensures LastValue(pairs + [("no_key", t)], "no_key") == Some(t) && [] + [("no_key", t)] == [("no_key", t)]
  {
    hide Trim;
    FixedKeys();
    var all := pairs + [("no_key", t)];
    assert all[|all| - 1] == ("no_key", t);
  }
}
