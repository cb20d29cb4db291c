/** Loading an image file, and what comes back from a file that `save` wrote. */
module ImageLoad {
  import opened Common
  import opened FirmwareImage
  import opened ImageLayout
  import opened ImageFile

  datatype LoadError = StructError | BadHeader | BadDigestFlag | EndOfFile | NoChecksum

  datatype LoadedSegment = LoadedSegment(addr: nat, data: Bytes, fileOffs: nat)

  datatype Digests = Digests(stored: Bytes, calculated: Digest)

  datatype Loaded = Loaded(segments: seq<LoadedSegment>, entrypoint: nat, flashMode: byte, flashSizeFreq: byte,
                           pins: Pins, checksum: byte, digests: Option<Digests>)

  function SplitNibbles(b: byte): (nat, nat)
  {
    (b % 16, b / 16 % 16)
  }

  datatype Taken = Got(segment: LoadedSegment, next: nat) | Failed(error: LoadError)

  /** `load_segment`: the segment at `pos`, and the position after it. */
  function LoadSegment(file: Bytes, pos: nat): Taken
  {
    if pos + 8 > |file| then Failed(StructError)
    else
      var addr, size := FromLittleEndian(file[pos..pos + 4]), FromLittleEndian(file[pos + 4..pos + 8]);
      if pos + 8 + size > |file| then Failed(EndOfFile)
      else Got(LoadedSegment(addr, PadTo4(file[pos + 8..pos + 8 + size]), pos), pos + 8 + size)
  }

  /** `n` more segments after those already loaded. */
  function LoadSegments(file: Bytes, pos: nat, n: nat, done: seq<LoadedSegment>)
    : Result<(seq<LoadedSegment>, nat), LoadError>
    decreases n
  {
    if n == 0 then Ok((done, pos))
    else
      match LoadSegment(file, pos)
      case Failed(e) => Err(e)
      case Got(segment, next) => LoadSegments(file, next, n - 1, done + [segment])
  }

  /** `f.read(n)` at a position that may be past the end. */
  function Read(file: Bytes, pos: nat, n: nat): Bytes
  {
    if pos >= |file| then [] else if pos + n <= |file| then file[pos..pos + n] else file[pos..]
  }

  function Checked(file: Bytes): Result<nat, LoadError>
  {
    if |file| < 8 then Err(StructError)
    else if file[0] != IMAGE_MAGIC || file[1] > 16 then Err(BadHeader)
    else if |file| < FILE_HEADER_LEN then Err(StructError)
    else if file[23] > 1 then Err(BadDigestFlag)
    else Ok(file[1])
  }

  /** What the constructor of `ESP32FirmwareImage` makes of a file. */
  function Parsed(file: Bytes, sha: Bytes -> Digest): Result<Loaded, LoadError>
  {
    match Checked(file)
    case Err(e) => Err(e)
    case Ok(n) =>
      match LoadSegments(file, FILE_HEADER_LEN, n, [])
      case Err(e) => Err(e)
      case Ok((segments, pos)) =>
        var at := pos + (15 - pos % 16);
        if at >= |file| then Err(NoChecksum) else Ok(Assemble(file, sha, segments, at))
  }

  function Assemble(file: Bytes, sha: Bytes -> Digest, segments: seq<LoadedSegment>, at: nat): Loaded
    requires |file| >= FILE_HEADER_LEN && at < |file|
  {
    var (clk, q) := SplitNibbles(file[9]);
    var (d, cs) := SplitNibbles(file[10]);
    var (hd, wp) := SplitNibbles(file[11]);
    var digests := if file[23] == 1 then Some(Digests(Read(file, at + 1, 32), sha(file[..at + 1]))) else None;
    Loaded(segments, FromLittleEndian(file[4..8]), file[2], file[3], Pins(file[8], clk, q, d, cs, hd, wp), file[at], digests)
  }

  method Load(file: Bytes, sha: Bytes -> Digest) returns (r: Result<Loaded, LoadError>)
    ensures r == Parsed(file, sha)
  {
    var count := Checked(file);
    if count.Err? {
      return Err(count.error);
    }
    var loaded := LoadLoop(file, count.value);
    if loaded.Err? {
      return Err(loaded.error);
    }
    var (segments, pos) := loaded.value;
    var at := pos + (15 - pos % 16);
    if at >= |file| {
      return Err(NoChecksum);
    }
    return Ok(Assemble(file, sha, segments, at));
  }

  method LoadLoop(file: Bytes, n: nat) returns (r: Result<(seq<LoadedSegment>, nat), LoadError>)
    ensures r == LoadSegments(file, FILE_HEADER_LEN, n, [])
  {
    hide LoadSegment;
    var pos: nat, segments: seq<LoadedSegment> := FILE_HEADER_LEN, [];
    var left := n;
    while left > 0
      invariant LoadSegments(file, FILE_HEADER_LEN, n, []) == LoadSegments(file, pos, left, segments)
    {
      var s := LoadSegment(file, pos);
      if s.Failed? {
        return Err(s.error);
      }
      segments, pos := segments + [s.segment], s.next;
      left := left - 1;
    }
    return Ok((segments, pos));
  }

  // ----- Reading back a body -------------------------------------------------------------------

  /** The segments that loading the records of a layout makes: their data is padded to a multiple of 4. */
  function LoadedOf(out: seq<Record>): (s: seq<LoadedSegment>)
    ensures |s| == |out|
  {
    if out == [] then [] else
      var last := |out| - 1;
      LoadedOf(out[..last]) + [LoadedSegment(out[last].addr, PadTo4(out[last].data), Offset(out, last))]
  }

  lemma {:induction false} LoadedOfAt(out: seq<Record>, i: nat)
    requires i < |out|
    ensures LoadedOf(out)[i] == LoadedSegment(out[i].addr, PadTo4(out[i].data), Offset(out, i))
  {
    var front := out[..|out| - 1];
    if i == |front| {
    } else {
      LoadedOfAt(front, i);
      assert front[..i] == out[..i] && front[i] == out[i];
    }
  }

  lemma OneMore(out: seq<Record>, i: nat)
    requires i < |out|
    ensures Offset(out, i + 1) == Offset(out, i) + RecordSize(out[i])
    ensures LoadedOf(out[..i + 1]) == LoadedOf(out[..i]) + [LoadedSegment(out[i].addr, PadTo4(out[i].data), Offset(out, i))]
  {
    var more := out[..i + 1];
    assert more[..i] == out[..i] && more[i] == out[i];
  }

  /** The records from `i` on. */
  function BodyFrom(out: seq<Record>, i: nat): Bytes
    requires AllFit(out) && i <= |out|
    decreases |out| - i
  {
    if i == |out| then [] else RecordBytes(out[i]) + BodyFrom(out, i + 1)
  }

  lemma {:induction false} BodySplits(out: seq<Record>, i: nat)
    requires AllFit(out) && i <= |out|
    ensures Body(out[..i]) + BodyFrom(out, i) == Body(out)
    decreases |out| - i
  {
    if i == |out| {
      assert out[..i] == out;
    } else {
      var more := out[..i + 1];
      assert more[..i] == out[..i];
      Reassociate(Body(out[..i]), RecordBytes(out[i]), BodyFrom(out, i + 1));
      BodySplits(out, i + 1);
    }
  }

  lemma DropSlice(file: Bytes, pos: nat, i: nat, j: nat)
    requires pos <= |file| && i <= j <= |file| - pos
    ensures file[pos..][i..j] == file[pos + i..pos + j]
  {
  }

  lemma RecordSlices(r: Record, rest: Bytes)
    requires Fits(r)
    ensures |RecordBytes(r)| == RecordSize(r)
    ensures (RecordBytes(r) + rest)[0..4] == Le32(r.addr)
    ensures (RecordBytes(r) + rest)[4..8] == Le32(|r.data|)
    ensures (RecordBytes(r) + rest)[8..8 + |r.data|] == r.data
    ensures (RecordBytes(r) + rest)[RecordSize(r)..] == rest
  {
  }

  /** Where a record's bytes are next, loading a segment gives the record and moves past it. */
  lemma LoadsRecord(file: Bytes, pos: nat, r: Record, rest: Bytes)
    requires pos <= |file| && Fits(r)
    requires file[pos..] == RecordBytes(r) + rest
    ensures LoadSegment(file, pos) == Got(LoadedSegment(r.addr, PadTo4(r.data), pos), pos + RecordSize(r))
    ensures pos + RecordSize(r) <= |file| && file[pos + RecordSize(r)..] == rest
  {
    hide RecordBytes, LittleEndian, FromLittleEndian, PadTo4;
    RecordSlices(r, rest);
    DropSlice(file, pos, 0, 4);
    DropSlice(file, pos, 4, 8);
    DropSlice(file, pos, 8, 8 + |r.data|);
    DropSlice(file, pos, RecordSize(r), |file| - pos);
  }

  lemma LoadsMore(file: Bytes, pos: nat, n: nat, done: seq<LoadedSegment>, segment: LoadedSegment, next: nat)
    requires n > 0 && LoadSegment(file, pos) == Got(segment, next)
    ensures LoadSegments(file, pos, n, done) == LoadSegments(file, next, n - 1, done + [segment])
  {
  }

  lemma LoadsNext(file: Bytes, pos: nat, out: seq<Record>, i: nat, tail: Bytes)
    requires AllFit(out) && i < |out| && pos <= |file|
    requires file[pos..] == BodyFrom(out, i) + tail
    ensures LoadSegment(file, pos) == Got(LoadedSegment(out[i].addr, PadTo4(out[i].data), pos), pos + RecordSize(out[i]))
    ensures pos + RecordSize(out[i]) <= |file| && file[pos + RecordSize(out[i])..] == BodyFrom(out, i + 1) + tail
  {
    Reassociate(RecordBytes(out[i]), BodyFrom(out, i + 1), tail);
    LoadsRecord(file, pos, out[i], BodyFrom(out, i + 1) + tail);
  }

  /** Records `i` on are the segments that loading meets, one after the other, from `pos`. */
  predicate Chained(file: Bytes, pos: nat, out: seq<Record>, i: nat)
    requires i <= |out|
    decreases |out| - i
  {
    i == |out| ||
    (&& LoadSegment(file, pos) == Got(LoadedSegment(out[i].addr, PadTo4(out[i].data), pos), pos + RecordSize(out[i]))
     && Chained(file, pos + RecordSize(out[i]), out, i + 1))
  }

  lemma ChainCons(file: Bytes, pos: nat, out: seq<Record>, i: nat)
    requires i < |out|
    requires LoadSegment(file, pos) == Got(LoadedSegment(out[i].addr, PadTo4(out[i].data), pos), pos + RecordSize(out[i]))
    requires Chained(file, pos + RecordSize(out[i]), out, i + 1)
    ensures Chained(file, pos, out, i)
  {
  }

  lemma {:induction false} BodyChains(file: Bytes, pos: nat, out: seq<Record>, i: nat, tail: Bytes)
    requires AllFit(out) && i <= |out| && pos <= |file|
    requires file[pos..] == BodyFrom(out, i) + tail
    ensures Chained(file, pos, out, i)
    decreases |out| - i
  {
    hide LoadSegment;
    if i == |out| {
    } else {
      LoadsNext(file, pos, out, i, tail);
      BodyChains(file, pos + RecordSize(out[i]), out, i + 1, tail);
      ChainCons(file, pos, out, i);
    }
  }

  lemma {:induction false} ChainLoads(file: Bytes, out: seq<Record>, i: nat)
    requires i <= |out| && Chained(file, Offset(out, i), out, i)
    ensures LoadSegments(file, Offset(out, i), |out| - i, LoadedOf(out[..i]))
         == Ok((LoadedOf(out), FILE_HEADER_LEN + Size(out)))
    decreases |out| - i
  {
    hide LoadSegment, LoadedOf, Size;
    if i == |out| {
      assert out[..i] == out;
    } else {
      var seg := LoadedSegment(out[i].addr, PadTo4(out[i].data), Offset(out, i));
      OneMore(out, i);
      LoadsMore(file, Offset(out, i), |out| - i, LoadedOf(out[..i]), seg, Offset(out, i + 1));
      ChainLoads(file, out, i + 1);
    }
  }

  lemma LoadsBody(file: Bytes, out: seq<Record>, tail: Bytes)
    requires AllFit(out) && |file| >= FILE_HEADER_LEN
    requires file[FILE_HEADER_LEN..] == Body(out) + tail
    ensures LoadSegments(file, FILE_HEADER_LEN, |out|, []) == Ok((LoadedOf(out), FILE_HEADER_LEN + Size(out)))
  {
    BodySplits(out, 0);
    assert Body(out[..0]) + BodyFrom(out, 0) == BodyFrom(out, 0);
    BodyChains(file, FILE_HEADER_LEN, out, 0, tail);
    ChainLoads(file, out, 0);
  }

  // ----- Save, then load -------------------------------------------------------------------------

  function LowNibbles(p: Pins): Pins
  {
    Pins(p.wpPin, p.clk % 16, p.q % 16, p.d % 16, p.cs % 16, p.hd % 16, p.wp % 16)
  }

  /** What loading gives back for an image laid out as `out`. */
  function Reloaded(img: Image, out: seq<Record>, sha: Bytes -> Digest): Loaded
    requires Encodable(img, out)
  {
    var digest := sha(Contents(img, out));
    Loaded(LoadedOf(out), img.entrypoint, img.flashMode, img.flashSizeFreq, LowNibbles(img.pins),
           Xor2(CHECKSUM_MAGIC, XorRecords(out)), if img.appendDigest then Some(Digests(digest, digest)) else None)
  }

  lemma Pieces(c: Bytes, e: Bytes, body: Bytes, z: Bytes, k: byte, d: Bytes)
    ensures var s, at := c + e + body + z + [k] + d, |c| + |e| + |body| + |z|;
            && s[..|c|] == c
            && s[|c|..|c| + |e|] == e
            && s[|c| + |e|..] == body + (z + [k] + d)
            && s[at] == k
            && s[..at + 1] == c + e + body + z + [k]
            && s[at + 1..] == d
  {
  }

  /** Where the parts of a file are; `at` is the offset of the checksum. */
  lemma FileParts(img: Image, out: seq<Record>, sha: Bytes -> Digest, at: nat) returns (tail: Bytes)
    requires Encodable(img, out)
    requires at == FILE_HEADER_LEN + Size(out) + (15 - (FILE_HEADER_LEN + Size(out)) % 16)
    ensures var file := File(img, out, sha);
            && FILE_HEADER_LEN <= at < |file|
            && file[..8] == CommonHeader(img, |out|)
            && file[8..FILE_HEADER_LEN] == ExtendedHeader(img)
            && file[FILE_HEADER_LEN..] == Body(out) + tail
            && file[at] == Xor2(CHECKSUM_MAGIC, XorRecords(out))
            && file[..at + 1] == Contents(img, out)
            && file[at + 1..] == (if img.appendDigest then sha(Contents(img, out)) else [])
  {
    var z, k := Zeros(15 - (FILE_HEADER_LEN + Size(out)) % 16), Xor2(CHECKSUM_MAGIC, XorRecords(out));
    var c, e, body := CommonHeader(img, |out|), ExtendedHeader(img), Body(out);
    var d := if img.appendDigest then sha(Contents(img, out)) else [];
    tail := z + [k] + d;
    assert Contents(img, out) == c + e + body + z + [k];
    assert File(img, out, sha) == c + e + body + z + [k] + d;
    Pieces(c, e, body, z, k, d);
  }

  lemma CommonFields(img: Image, count: nat, file: Bytes)
    requires count < 0x100 && img.entrypoint < WORD && |file| >= 8
    requires file[..8] == CommonHeader(img, count)
    ensures file[0] == IMAGE_MAGIC && file[1] == count && file[2] == img.flashMode && file[3] == img.flashSizeFreq
    ensures FromLittleEndian(file[4..8]) == img.entrypoint
  {
    var c := CommonHeader(img, count);
    assert forall i :: 0 <= i < 8 ==> file[i] == file[..8][i];
    assert file[4..8] == c[4..8] == Le32(img.entrypoint);
  }

  lemma ExtendedFields(img: Image, file: Bytes)
    requires |file| >= FILE_HEADER_LEN && file[8..FILE_HEADER_LEN] == ExtendedHeader(img)
    ensures file[8] == img.pins.wpPin && file[23] == (if img.appendDigest then 1 else 0)
    ensures SplitNibbles(file[9]) == (img.pins.clk % 16, img.pins.q % 16)
    ensures SplitNibbles(file[10]) == (img.pins.d % 16, img.pins.cs % 16)
    ensures SplitNibbles(file[11]) == (img.pins.hd % 16, img.pins.wp % 16)
  {
    var e := file[8..FILE_HEADER_LEN];
    assert file[8] == e[0] && file[9] == e[1] && file[10] == e[2] && file[11] == e[3] && file[23] == e[15];
  }

  lemma ChecksHeader(img: Image, count: nat, file: Bytes)
    requires count < 0x100 && img.entrypoint < WORD && |file| >= FILE_HEADER_LEN
    requires file[..8] == CommonHeader(img, count) && file[8..FILE_HEADER_LEN] == ExtendedHeader(img)
    ensures Checked(file) == if count <= 16 then Ok(count) else Err(BadHeader)
  {
    CommonFields(img, count, file);
    ExtendedFields(img, file);
  }

  lemma AssemblesFrom(img: Image, out: seq<Record>, sha: Bytes -> Digest, file: Bytes, at: nat)
    requires Encodable(img, out) && FILE_HEADER_LEN <= at < |file|
    requires file[..8] == CommonHeader(img, |out|) && file[8..FILE_HEADER_LEN] == ExtendedHeader(img)
    requires file[at] == Xor2(CHECKSUM_MAGIC, XorRecords(out))
    requires file[..at + 1] == Contents(img, out)
    requires file[at + 1..] == (if img.appendDigest then sha(Contents(img, out)) else [])
    ensures Assemble(file, sha, LoadedOf(out), at) == Reloaded(img, out, sha)
  {
    hide Contents, CommonHeader, ExtendedHeader, LoadedOf, Xor2, XorRecords, SplitNibbles, FromLittleEndian;
    CommonFields(img, |out|, file);
    ExtendedFields(img, file);
    assert img.appendDigest ==> Read(file, at + 1, 32) == file[at + 1..];
  }

  lemma LoadsFile(img: Image, out: seq<Record>, sha: Bytes -> Digest)
    requires Encodable(img, out)
    ensures Parsed(File(img, out, sha), sha) == if |out| <= 16 then Ok(Reloaded(img, out, sha)) else Err(BadHeader)
  {
    hide LoadSegments, Assemble, File, Body, Reloaded;
    var file, pos := File(img, out, sha), FILE_HEADER_LEN + Size(out);
    var at := pos + (15 - pos % 16);
    var tail := FileParts(img, out, sha, at);
    ChecksHeader(img, |out|, file);
    if |out| <= 16 {
      LoadsBody(file, out, tail);
      AssemblesFrom(img, out, sha, file, at);
      ParsesTo(file, sha, |out|, LoadedOf(out), pos);
    }
  }

  lemma ParsesTo(file: Bytes, sha: Bytes -> Digest, n: nat, segments: seq<LoadedSegment>, pos: nat)
    requires Checked(file) == Ok(n) && pos + (15 - pos % 16) < |file|
    requires LoadSegments(file, FILE_HEADER_LEN, n, []) == Ok((segments, pos))
    ensures Parsed(file, sha) == Ok(Assemble(file, sha, segments, pos + (15 - pos % 16)))
  {
    hide LoadSegments, Assemble;
  }
}
