/** The binary form of a partition table, written by `to_binary` and read by `from_binary`. */
module PartitionCodec {
  import opened Common
  import opened Partition

  const MAGIC: Bytes := [0xAA, 0x50]
  const MD5_BEGIN: Bytes := [0xEB, 0xEB] + Ones(14)

  type Digest = d: Bytes | |d| == 16 witness Zeros(16)

  datatype Error = BadLength | BadMagic | BadMd5 | NoEnd | TooLong | PackError

  function Ones(n: nat): (b: Bytes)
    ensures |b| == n
  {
    seq(n, _ => 0xFF)
  }

  // ----- One entry -----------------------------------------------------------------------------------------

  /** `struct.pack` accepts the entry's numbers. */
  predicate Packable(e: Definition)
  {
    e.ptype < 0x100 && e.subtype < 0x100 && 0 <= e.offset < WORD && 0 <= e.size < WORD
  }

  /** A `16s` field: cut or padded with zeros. */
  function NameField(name: Bytes): (f: Bytes)
    ensures |f| == 16
  {
    if |name| >= 16 then name[..16] else name + Zeros(16 - |name|)
  }

  function StripNul(f: Bytes): Bytes
  {
    if f == [] || f[0] == 0 then [] else [f[0]] + StripNul(f[1..])
  }

  /** `PartitionDefinition.to_binary` */
  function EntryBytes(e: Definition): (b: Bytes)
    requires Packable(e)
    ensures |b| == 32
  {
    MAGIC + [e.ptype, e.subtype] + Le32(e.offset) + Le32(e.size) + NameField(e.name) + Le32(if e.encrypted then 1 else 0)
  }

  /** `PartitionDefinition.from_binary` */
  function FromEntry(b: Bytes): Result<Definition, Error>
    requires |b| == 32
  {
    if b[..2] != MAGIC then Err(BadMagic)
    else Ok(Definition(StripNul(b[12..28]), b[2], b[3], FromLittleEndian(b[4..8]), FromLittleEndian(b[8..12]),
                       FromLittleEndian(b[28..32]) % 2 == 1))
  }

  /** What reading back makes of an entry: a long name is cut, and one with a NUL ends there. */
  function Normal(e: Definition): Definition
  {
    e.(name := StripNul(NameField(e.name)))
  }

  predicate PlainName(name: Bytes)
  {
    |name| <= 16 && 0 !in name
  }

  lemma EntrySlices(a: Bytes, o: Bytes, z: Bytes, n: Bytes, f: Bytes)
    requires |a| == 4 && |o| == 4 && |z| == 4 && |n| == 16 && |f| == 4
    ensures var b := a + o + z + n + f;
            b[..2] == a[..2] && b[2] == a[2] && b[3] == a[3] && b[4..8] == o && b[8..12] == z && b[12..28] == n && b[28..32] == f
  {
  }

  /** Where the fields of an entry are in its 32 bytes. */
  lemma EntryFields(e: Definition)
    requires Packable(e)
    ensures var b := EntryBytes(e);
            && b[..2] == MAGIC && b[2] == e.ptype && b[3] == e.subtype
            && FromLittleEndian(b[4..8]) == e.offset && FromLittleEndian(b[8..12]) == e.size
            && b[12..28] == NameField(e.name)
            && FromLittleEndian(b[28..32]) == if e.encrypted then 1 else 0
  {
    hide NameField, LittleEndian, FromLittleEndian;
    var a := MAGIC + [e.ptype, e.subtype];
    assert a[..2] == MAGIC;
    EntrySlices(a, Le32(e.offset), Le32(e.size), NameField(e.name), Le32(if e.encrypted then 1 else 0));
  }

  lemma EntryRoundTrip(e: Definition)
    requires Packable(e)
    ensures FromEntry(EntryBytes(e)) == Ok(Normal(e))
  {
    hide StripNul, NameField, LittleEndian, FromLittleEndian, EntryBytes;
    EntryFields(e);
  }

  lemma {:induction false} StripsToPrefix(name: Bytes, n: nat)
    ensures StripNul(name + Zeros(n)) == StripNul(name)
    ensures |StripNul(name)| <= |name| && 0 !in StripNul(name)
    ensures 0 !in name ==> StripNul(name) == name
  {
    if name == [] {
      assert name + Zeros(n) == Zeros(n);
    } else {
      StripsToPrefix(name[1..], n);
      assert (name + Zeros(n))[1..] == name[1..] + Zeros(n);
    }
  }

  /** An entry is read back exactly when its name is NUL-free and has at most 16 bytes. */
  lemma NormalIff(e: Definition)
    ensures Normal(e) == e <==> PlainName(e.name)
  {
    if |e.name| >= 16 {
      StripsToPrefix(e.name[..16], 0);
      assert |e.name| == 16 ==> e.name[..16] == e.name;
    } else {
      StripsToPrefix(e.name, 16 - |e.name|);
    }
  }

  // ----- Tables ----------------------------------------------------------------------------------------------

  predicate AllPackable(t: Table)
  {
    forall i :: 0 <= i < |t| ==> Packable(t[i])
  }

  function Body(t: Table): (b: Bytes)
    requires AllPackable(t)
    ensures |b| == 32 * |t|
  {
    if t == [] then [] else EntryBytes(t[0]) + Body(t[1..])
  }

  function Marker(body: Bytes, md5sum: bool, md5: Bytes -> Digest): (m: Bytes)
    ensures |m| == if md5sum then 32 else 0
  {
    if md5sum then MD5_BEGIN + md5(body) else []
  }

  /** `PartitionTable.to_binary` */
  function ToBinary(t: Table, md5sum: bool, md5: Bytes -> Digest): Result<Bytes, Error>
  {
    if !AllPackable(t) then Err(PackError)
    else
      var content := Body(t) + Marker(Body(t), md5sum, md5);
      if |content| >= MAX_LENGTH then Err(TooLong) else Ok(content + Ones(MAX_LENGTH - |content|))
  }

  /** The blocks of `from_binary`, from the unread bytes on: what was hashed, and the entries so far. */
  function Scan(rest: Bytes, md5sum: bool, md5: Bytes -> Digest, hashed: Bytes, done: Table): Result<Table, Error>
    decreases |rest|
  {
    if rest == [] then Err(NoEnd)
    else if |rest| < 32 then Err(BadLength)
    else
      var data := rest[..32];
      if data == Ones(32) then Ok(done)
      else if md5sum && data[..2] == MD5_BEGIN[..2] then
        if data[16..] == md5(hashed) then Scan(rest[32..], md5sum, md5, hashed, done) else Err(BadMd5)
      else
        match FromEntry(data)
        case Err(e) => Err(e)
        case Ok(e) => Scan(rest[32..], md5sum, md5, hashed + data, done + [e])
  }

  /** `PartitionTable.from_binary` */
  method FromBinary(b: Bytes, md5sum: bool, md5: Bytes -> Digest) returns (r: Result<Table, Error>)
    ensures r == Scan(b, md5sum, md5, [], [])
  {
    hide FromEntry;
    var o, hashed, result := 0, [], [];
    assert b[0..] == b;
    while o < |b|
      invariant o <= |b|
      invariant Scan(b, md5sum, md5, [], []) == Scan(b[o..], md5sum, md5, hashed, result)
      decreases |b| - o
    {
      var data := if o + 32 <= |b| then b[o..o + 32] else b[o..];
      if |data| != 32 {
        return Err(BadLength);
      }
      assert b[o..][..32] == data && b[o..][32..] == b[o + 32..];
      o := o + 32;
      if data == Ones(32) {
        return Ok(result);
      }
      if md5sum && data[..2] == MD5_BEGIN[..2] {
        if data[16..] != md5(hashed) {
          return Err(BadMd5);
        }
      } else {
        hashed := hashed + data;
        var e := FromEntry(data);
        if e.Err? {
          return Err(e.error);
        }
        result := result + [e.value];
      }
    }
    return Err(NoEnd);
  }

  // ----- Reading back a table --------------------------------------------------------------------------------

  function AllNormal(t: Table): Table
  {
    if t == [] then [] else [Normal(t[0])] + AllNormal(t[1..])
  }

  /** No entry can be taken for an end marker or an MD5 marker. */
  lemma EntryIsNoMarker(e: Definition)
    requires Packable(e)
    ensures EntryBytes(e) != Ones(32) && EntryBytes(e)[..2] != MD5_BEGIN[..2] && EntryBytes(e)[..2] == MAGIC
  {
    hide NameField, LittleEndian;
    var b := EntryBytes(e);
    assert b[0] == 0xAA && b[1] == 0x50;
    assert MD5_BEGIN[..2][0] == 0xEB && Ones(32)[0] == 0xFF;
  }

  lemma {:induction false} ScanEntries(t: Table, rest: Bytes, md5sum: bool, md5: Bytes -> Digest, hashed: Bytes, done: Table)
    requires AllPackable(t)
    ensures Scan(Body(t) + rest, md5sum, md5, hashed, done)
         == Scan(rest, md5sum, md5, hashed + Body(t), done + AllNormal(t))
    decreases |t|
  {
    hide EntryBytes, FromEntry, Normal;
    if t == [] {
      assert Body(t) + rest == rest && hashed + [] == hashed && done + [] == done;
    } else {
      var b, tail := EntryBytes(t[0]), Body(t[1..]);
      EntryIsNoMarker(t[0]);
      EntryRoundTrip(t[0]);
      Reassociate(b, tail, rest);
      Cut(b, tail + rest);
      ScanEntries(t[1..], rest, md5sum, md5, hashed + b, done + [Normal(t[0])]);
      Reassociate(hashed, b, tail);
      Reassociate(done, [Normal(t[0])], AllNormal(t[1..]));
    }
  }

  lemma Cut(a: Bytes, b: Bytes)
    ensures (a + b)[..|a|] == a && (a + b)[|a|..] == b
  {
  }

  lemma ScanEnd(n: nat, md5sum: bool, md5: Bytes -> Digest, hashed: Bytes, done: Table)
    requires n >= 32
    ensures Scan(Ones(n), md5sum, md5, hashed, done) == Ok(done)
  {
    assert Ones(n)[..32] == Ones(32);
  }

  lemma ScanMarker(rest: Bytes, md5: Bytes -> Digest, hashed: Bytes, done: Table)
    ensures Scan(Marker(hashed, true, md5) + rest, true, md5, hashed, done) == Scan(rest, true, md5, hashed, done)
  {
    var m := Marker(hashed, true, md5);
    Cut(m, rest);
    assert m[..2] == MD5_BEGIN[..2] && m[16..] == md5(hashed);
    assert m[0] == 0xEB && Ones(32)[0] == 0xFF;
  }

  /** Every table that `to_binary` accepts is read back entry by entry: there is always an end marker,
      and the digest is the one computed again. */
  lemma TableRoundTrip(t: Table, md5sum: bool, md5: Bytes -> Digest)
    requires ToBinary(t, md5sum, md5).Ok?
    ensures Scan(ToBinary(t, md5sum, md5).value, md5sum, md5, [], []) == Ok(AllNormal(t))
  {
    hide Scan, Body, Ones;
    var body, marker := Body(t), Marker(Body(t), md5sum, md5);
    var n := MAX_LENGTH - |body + marker|;
    assert n >= 32;
    Reassociate(body, marker, Ones(n));
    ScanEntries(t, marker + Ones(n), md5sum, md5, [], []);
    assert [] + body == body && [] + AllNormal(t) == AllNormal(t);
    if md5sum {
      ScanMarker(Ones(n), md5, body, AllNormal(t));
    } else {
      assert marker + Ones(n) == Ones(n);
    }
    ScanEnd(n, md5sum, md5, body, AllNormal(t));
  }

  lemma {:induction false} AllNormalIff(t: Table)
    ensures AllNormal(t) == t <==> forall i :: 0 <= i < |t| ==> PlainName(t[i].name)
  {
    hide Normal, PlainName;
    if t == [] {
    } else {
      var r := AllNormal(t);
      assert r[0] == Normal(t[0]) && r[1..] == AllNormal(t[1..]);
      NormalIff(t[0]);
      AllNormalIff(t[1..]);
      assert r == t <==> r[0] == t[0] && r[1..] == t[1..] by {
        assert t == [t[0]] + t[1..] && r == [r[0]] + r[1..];
      }
      assert forall i :: 1 <= i < |t| ==> t[i] == t[1..][i - 1];
      assert forall i :: 0 <= i < |t[1..]| ==> t[1..][i] == t[i + 1];
    }
  }

  /** So it is recovered exactly when its names are NUL-free and at most 16 bytes long. */
  lemma RecoveredIff(t: Table, md5sum: bool, md5: Bytes -> Digest)
    requires ToBinary(t, md5sum, md5).Ok?
    ensures Scan(ToBinary(t, md5sum, md5).value, md5sum, md5, [], []) == Ok(t)
       <==> forall i :: 0 <= i < |t| ==> PlainName(t[i].name)
  {
    hide Scan, ToBinary, AllNormal, PlainName;
    TableRoundTrip(t, md5sum, md5);
    AllNormalIff(t);
  }

  // ----- Bytes and refusals ----------------------------------------------------------------------------------

  /** A table's file is 0xC00 bytes: the entries, each from its magic bytes, the digest of the entries behind its own
      magic bytes, if there is one, and at least 32 bytes of 0xFF. */
  lemma BinaryBytes(t: Table, md5sum: bool, md5: Bytes -> Digest)
    requires ToBinary(t, md5sum, md5).Ok?
    ensures AllPackable(t)
    ensures var b, n := ToBinary(t, md5sum, md5).value, 32 * |t|;
            var m := if md5sum then n + 32 else n;
            && |b| == 0xC00 && m <= 0xC00 - 32
            && b[..n] == Body(t)
            && (md5sum ==> b[n] == 0xEB && b[n + 1] == 0xEB && (forall i :: n + 2 <= i < n + 16 ==> b[i] == 0xFF)
                           && b[n + 16..n + 32] == md5(b[..n]))
            && (forall i :: m <= i < 0xC00 ==> b[i] == 0xFF)
  {
    hide Body;
    var body, marker := Body(t), Marker(Body(t), md5sum, md5);
    var ones := Ones(0xC00 - |body + marker|);
    var b := body + marker + ones;
    assert b[..|body|] == body;
    assert b[|body|..|body| + |marker|] == marker;
    assert b[|body| + |marker|..] == ones;
    if md5sum {
      MarkerBytes(body, marker, md5);
      assert forall i :: 0 <= i < 32 ==> b[|body| + i] == marker[i];
      assert b[|body| + 16..|body| + 32] == marker[16..];
    }
  }

  lemma MarkerBytes(body: Bytes, marker: Bytes, md5: Bytes -> Digest)
    requires marker == Marker(body, true, md5)
    ensures |marker| == 32 && marker[0] == 0xEB && marker[1] == 0xEB && marker[16..] == md5(body)
    ensures forall i :: 2 <= i < 16 ==> marker[i] == 0xFF
  {
  }

  /** Each entry begins with 0xAA, 0x50. */
  lemma EntryMagic(e: Definition)
    requires Packable(e)
    ensures EntryBytes(e)[0] == 0xAA && EntryBytes(e)[1] == 0x50
  {
    hide NameField, LittleEndian;
  }

  /** A digest marker is accepted exactly with the digest of the blocks before it. */
  lemma MarkerAcceptedIff(block: Bytes, rest: Bytes, md5: Bytes -> Digest, hashed: Bytes, done: Table)
    requires |block| == 32 && block[0] == 0xEB && block[1] == 0xEB
    ensures Scan(block + rest, true, md5, hashed, done) ==
              if block[16..] == md5(hashed) then Scan(rest, true, md5, hashed, done) else Err(BadMd5)
  {
    Cut(block, rest);
    assert Ones(32)[0] == 0xFF;
    assert block[..2] == [0xEB, 0xEB] == MD5_BEGIN[..2];
  }

  /** A block that is neither a marker nor an entry, a file that ends within a block, and one without an end marker
      are refused. */
  lemma BadBlockRefused(block: Bytes, rest: Bytes, md5sum: bool, md5: Bytes -> Digest, hashed: Bytes, done: Table)
    ensures Scan([], md5sum, md5, hashed, done) == Err(NoEnd)
    ensures 0 < |block| < 32 ==> Scan(block, md5sum, md5, hashed, done) == Err(BadLength)
    ensures |block| == 32 && block[..2] != [0xAA, 0x50] && block[..2] != [0xEB, 0xEB] && block[0] != 0xFF ==>
              Scan(block + rest, md5sum, md5, hashed, done) == Err(BadMagic)
  {
    Cut(block, rest);
    assert Ones(32)[0] == 0xFF;
    assert MD5_BEGIN[..2] == [0xEB, 0xEB];
  }

  /** A table is written if and only if its numbers fit their fields and there is room for an end marker. */
  lemma WrittenIff(t: Table, md5sum: bool, md5: Bytes -> Digest)
    ensures ToBinary(t, md5sum, md5).Ok? <==>
              && (forall i :: 0 <= i < |t| ==>
                    && t[i].ptype <= 255 && t[i].subtype <= 255
                    && 0 <= t[i].offset <= 0xFFFF_FFFF && 0 <= t[i].size <= 0xFFFF_FFFF)
              && 32 * |t| + (if md5sum then 32 else 0) < 0xC00
  {
    hide Body, Marker;
    assert AllPackable(t) <==> forall i :: 0 <= i < |t| ==>
      && t[i].ptype <= 255 && t[i].subtype <= 255
      && 0 <= t[i].offset <= 0xFFFF_FFFF && 0 <= t[i].size <= 0xFFFF_FFFF;
  }
}
