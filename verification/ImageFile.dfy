/** The bytes of an image file: `ESP32FirmwareImage.save` and the loading constructor. */
module ImageFile {
  import opened Common
  import opened Sorting
  import opened FirmwareImage
  import opened ImageLayout

  type Digest = d: Bytes | |d| == 32 witness Zeros(32)

  /** The WP pin and the six SPI pin drive levels. */
  datatype Pins = Pins(wpPin: byte, clk: nat, q: nat, d: nat, cs: nat, hd: nat, wp: nat)

  datatype Image = Image(segments: seq<Segment>, entrypoint: nat, flashMode: byte, flashSizeFreq: byte,
                         pins: Pins, appendDigest: bool)

  // ----- The file a layout makes ---------------------------------------------------------------

  function CommonHeader(img: Image, count: nat): (h: Bytes)
    requires count < 0x100 && img.entrypoint < WORD
    ensures |h| == 8
  {
    [IMAGE_MAGIC, count, img.flashMode, img.flashSizeFreq] + Le32(img.entrypoint)
  }

  function JoinNibbles(low: nat, high: nat): byte
  {
    low % 16 + 16 * (high % 16)
  }

  function ExtendedHeader(img: Image): (h: Bytes)
    ensures |h| == 16
  {
    [img.pins.wpPin, JoinNibbles(img.pins.clk, img.pins.q), JoinNibbles(img.pins.d, img.pins.cs),
     JoinNibbles(img.pins.hd, img.pins.wp)] + Zeros(11) + [if img.appendDigest then 1 else 0]
  }

  predicate AllFit(out: seq<Record>)
  {
    forall i :: 0 <= i < |out| ==> Fits(out[i])
  }

  function RecordBytes(r: Record): Bytes
    requires Fits(r)
  {
    Le32(r.addr) + Le32(|r.data|) + r.data
  }

  function Body(out: seq<Record>): (b: Bytes)
    requires AllFit(out)
    ensures |b| == Size(out)
  {
    if out == [] then [] else Body(out[..|out| - 1]) + RecordBytes(out[|out| - 1])
  }

  predicate Encodable(img: Image, out: seq<Record>)
  {
    AllFit(out) && |out| < 0x100 && img.entrypoint < WORD
  }

  /** Everything that the digest covers. */
  function Contents(img: Image, out: seq<Record>): Bytes
    requires Encodable(img, out)
  {
    CommonHeader(img, |out|) + ExtendedHeader(img) + Body(out)
    + Zeros(15 - (FILE_HEADER_LEN + Size(out)) % 16) + [Xor2(CHECKSUM_MAGIC, XorRecords(out))]
  }

  function File(img: Image, out: seq<Record>, sha: Bytes -> Digest): Bytes
    requires Encodable(img, out)
  {
    Contents(img, out) + if img.appendDigest then sha(Contents(img, out)) else []
  }

  function FlashOf(img: Image): seq<Segment>
  {
    Select(SortBy(img.segments, Addr), true)
  }

  function RamOf(img: Image): seq<Segment>
  {
    Select(SortBy(img.segments, Addr), false)
  }

  function Start(img: Image): Packer
  {
    Packer(FlashOf(img), RamOf(img), FILE_HEADER_LEN, [])
  }

  predicate NeighboursShare(flash: seq<Segment>)
  {
    exists i :: 0 < i < |flash| && flash[i].addr / IROM_ALIGN == flash[i - 1].addr / IROM_ALIGN
  }

  lemma {:induction false} SelectKeeps(s: seq<Segment>, flash: bool)
    ensures forall x :: x in Select(s, flash) ==> x in s && IsFlash(x.addr) == flash
  {
    if s == [] {
    } else {
      SelectKeeps(s[1..], flash);
    }
  }

  /** The exceptions raised before the first segment is written. */
  predicate RefusedEarly(img: Image)
  {
    |img.segments| >= 0x100 || img.entrypoint >= WORD || NeighboursShare(FlashOf(img))
  }

  /** `save` returns, with a file or an exception: when the packing loop ends. */
  ghost predicate Saveable(img: Image)
  {
    RefusedEarly(img) || Ends(Start(img))
  }

  /** The file that `save` writes, or the exception it raises. */
  ghost function Saved(img: Image, sha: Bytes -> Digest): Result<Bytes, SaveError>
    requires Saveable(img)
  {
    if |img.segments| >= 0x100 || img.entrypoint >= WORD then Err(OutOfRange)
    else if NeighboursShare(FlashOf(img)) then Err(SameMapping)
    else
      match Pack(Start(img))
      case Err(e) => Err(e)
      case Ok(out) =>
        PackFits(Start(img));
        if |out| >= 0x100 then Err(OutOfRange) else Ok(File(img, out, sha))
  }

  lemma {:induction false} TurnsFit(p: Packer, n: nat)
    requires AllFit(p.out) && Turns(p, n).Ok?
    ensures AllFit(Turns(p, n).value.out)
    decreases n
  {
    if n == 0 || Finished(p) {
    } else {
      TurnsFit(Step(p).value, n - 1);
    }
  }

  lemma PackFits(p: Packer)
    requires Ends(p) && AllFit(p.out) && Pack(p).Ok?
    ensures AllFit(Pack(p).value)
  {
    hide Pack, Turns;
    var n: nat :| Done(p, n);
    PackIs(p, n);
    TurnsFit(p, n);
  }

  // ----- Saving --------------------------------------------------------------------------------

  lemma BodyAppend(out: seq<Record>, r: Record)
    requires AllFit(out) && Fits(r)
    ensures AllFit(out + [r]) && Body(out + [r]) == Body(out) + RecordBytes(r)
  {
    assert (out + [r])[..|out|] == out;
  }

  /** `save_segment` */
  method SaveSegment(file: Bytes, r: Record, checksum: byte) returns (s: Result<(Bytes, byte), SaveError>)
    ensures Fits(r) ==> s == Ok((file + RecordBytes(r), Xor2(checksum, Xor(r.data))))
    ensures !Fits(r) ==> s == Err(OutOfRange)
  {
    if r.addr >= WORD || |r.data| >= WORD {
      return Err(OutOfRange);
    }
    var sum := Checksum(r.data, checksum);
    return Ok((file + RecordBytes(r), sum));
  }

  /** The check for two flash segments in one 64 KB mapping. */
  method SharesMapping(flash: seq<Segment>) returns (r: bool)
    ensures r == NeighboursShare(flash)
  {
    if flash == [] {
      return false;
    }
    var lastAddr := flash[0].addr;
    for i := 1 to |flash|
      invariant lastAddr == flash[i - 1].addr
      invariant forall j :: 0 < j < i ==> flash[j].addr / IROM_ALIGN != flash[j - 1].addr / IROM_ALIGN
    {
      if flash[i].addr / IROM_ALIGN == lastAddr / IROM_ALIGN {
        return true;
      }
      lastAddr := flash[i].addr;
    }
    return false;
  }

  /** The file built so far is the file header and the records written. */
  ghost predicate Written(file: Bytes, head: Bytes, checksum: byte, out: seq<Record>)
  {
    && |head| == FILE_HEADER_LEN
    && AllFit(out)
    && file == head + Body(out)
    && checksum == Xor2(CHECKSUM_MAGIC, XorRecords(out))
  }

  lemma WrittenAppend(file: Bytes, head: Bytes, checksum: byte, out: seq<Record>, r: Record)
    requires Written(file, head, checksum, out) && Fits(r)
    ensures Written(file + RecordBytes(r), head, Xor2(checksum, Xor(r.data)), out + [r])
  {
    BodyAppend(out, r);
    Appended(out, r);
    Reassociate(head, Body(out), RecordBytes(r));
    XorStep(CHECKSUM_MAGIC, XorRecords(out), Xor(r.data));
  }

  method Save(img: Image, sha: Bytes -> Digest) returns (r: Result<Bytes, SaveError>)
    requires Saveable(img)
    ensures r == Saved(img, sha)
  {
    if |img.segments| >= 0x100 || img.entrypoint >= WORD {
      return Err(OutOfRange);
    }
    var head := CommonHeader(img, |img.segments|) + ExtendedHeader(img);
    var flash, ram := FlashOf(img), RamOf(img);
    var shares := SharesMapping(flash);
    if shares {
      return Err(SameMapping);
    }
    var packed := PackSegments(head, flash, ram);
    if packed.Err? {
      return Err(packed.error);
    }
    ghost var out := Pack(Start(img)).value;
    PackFits(Start(img));
    var (file, checksum, total) := packed.value;
    if total >= 0x100 {
      return Err(OutOfRange);
    }
    Patched(img, out, head, file, checksum);
    file := file + Zeros(15 - |file| % 16) + [checksum];
    file := file[1 := total];
    return Ok(file + if img.appendDigest then sha(file) else []);
  }

  /** Aligning, appending the checksum and patching the record count gives the final contents. */
  lemma Patched(img: Image, out: seq<Record>, head: Bytes, file: Bytes, checksum: byte)
    requires Encodable(img, out) && |img.segments| < 0x100
    requires head == CommonHeader(img, |img.segments|) + ExtendedHeader(img)
    requires Written(file, head, checksum, out)
    ensures (file + Zeros(15 - |file| % 16) + [checksum])[1 := |out|] == Contents(img, out)
  {
    var h, h' := CommonHeader(img, |img.segments|), CommonHeader(img, |out|);
    var a, b := Zeros(15 - |file| % 16), [checksum];
    assert h[1 := |out|] == h';
    PatchPrefix(h, ExtendedHeader(img), Body(out), a, b, |out|);
  }

  lemma PatchPrefix(h: Bytes, e: Bytes, body: Bytes, a: Bytes, b: Bytes, x: byte)
    requires |h| > 1
    ensures (h + e + body + a + b)[1 := x] == h[1 := x] + e + body + a + b
  {
  }

  /** `split_image`: the new segment, and what stays of the old one. */
  method SplitImage(s: Segment, n: nat) returns (piece: Segment, rest: Segment)
    ensures piece.addr == s.addr && rest.addr == s.addr + n
    ensures piece.data + rest.data == s.data && |piece.data| == if n < |s.data| then n else |s.data|
  {
    var cut := if n < |s.data| then n else |s.data|;
    return Segment(s.addr, s.data[..cut]), Segment(s.addr + n, s.data[cut..]);
  }

  lemma SplitIs(data: Bytes, n: nat, piece: Bytes, rest: Bytes)
    requires piece + rest == data && |piece| == if n < |data| then n else |data|
    ensures if n < |data| then piece == data[..n] && rest == data[n..] else piece == data && rest == []
  {
  }

  /** What a turn of the loops of `save` writes, and the lists it leaves. */
  method NextRecord(pos: nat, flash0: seq<Segment>, ram0: seq<Segment>) returns (r: Result<Choice, SaveError>)
    requires flash0 != [] || ram0 != []
    ensures r == Choose(pos, flash0, ram0)
  {
    var flash, ram := flash0, ram0;
    if |flash| == 0 {
      return Ok(Choice(Record(Ram, ram[0].addr, ram[0].data), flash, ram[1..]));
    }
    var segment := flash[0];
    var padLen := PadNeeded(pos, segment.addr);
    if padLen > 0 {
      if |ram| > 0 && padLen > SEG_HEADER_LEN {
        var piece, rest := SplitImage(ram[0], padLen);
        SplitIs(ram[0].data, padLen, piece.data, rest.data);
        ram := ram[0 := rest];
        if |ram[0].data| == 0 {
          ram := ram[1..];
        }
        assert padLen < |ram0[0].data| ==> ram == Remaining(ram0, padLen);
        return Ok(Choice(Record(Ram, piece.addr, piece.data), flash, ram));
      }
      return Ok(Choice(Record(Filler, 0, PadTo4(Zeros(padLen))), flash, ram));
    }
    if !Aligned(pos, segment.addr) {
      return Err(AssertionError);
    }
    return Ok(Choice(Record(Flash, segment.addr, segment.data), flash[1..], ram));
  }

  /** The loops of `save` that write every segment, the RAM segments alone once no flash is left. */
  method PackSegments(head: Bytes, flash0: seq<Segment>, ram0: seq<Segment>)
    returns (r: Result<(Bytes, byte, nat), SaveError>)
    requires |head| == FILE_HEADER_LEN
    requires Ends(Packer(flash0, ram0, FILE_HEADER_LEN, []))
    ensures match Pack(Packer(flash0, ram0, FILE_HEADER_LEN, []))
            case Err(e) => r == Err(e)
            case Ok(out) => r.Ok? && Written(r.value.0, head, r.value.1, out) && r.value.2 == |out|
  {
    var file, flash, ram, checksum, total := head, flash0, ram0, CHECKSUM_MAGIC, 0;
    ghost var p0 := Packer(flash0, ram0, FILE_HEADER_LEN, []);
    ghost var p := p0;
    ghost var left: nat :| Done(p0, left);
    PackIs(p0, left);
    XorZero(CHECKSUM_MAGIC);
    while |flash| > 0 || |ram| > 0
      invariant Done(p, left) && Ends(p) && Pack(p) == Pack(p0)
      invariant p.flash == flash && p.ram == ram && p.pos == |file| && |p.out| == total
      invariant Written(file, head, checksum, p.out)
      decreases left
    {
      PackStep(p, left);
      var choice := NextRecord(|file|, flash, ram);
      if choice.Err? {
        return Err(choice.error);
      }
      var rec := choice.value.record;
      var s := SaveSegment(file, rec, checksum);
      if s.Err? {
        return Err(s.error);
      }
      WrittenAppend(file, head, checksum, p.out, rec);
      p, left := Step(p).value, left - 1;
      flash, ram := choice.value.flash, choice.value.ram;
      file, checksum := s.value.0, s.value.1;
      total := total + 1;
    }
    PackStep(p, left);
    return Ok((file, checksum, total));
  }
}
