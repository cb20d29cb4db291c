/** The bytes of a saved image file, which files are refused, and which images. */
module ImageBytes {
  import opened Common
  import opened FirmwareImage
  import opened ImageLayout
  import opened ImageFile
  import opened ImageLoad
  import opened ImageTheorems

  // ----- The bytes of a file -----------------------------------------------------------------------

  lemma HeaderBytes(img: Image, out: seq<Record>, sha: Bytes -> Digest)
    requires Encodable(img, out)
    ensures var file, e := File(img, out, sha), img.entrypoint;
            && |file| > 24
            && file[0] == 0xE9 && file[1] == |out| && file[2] == img.flashMode && file[3] == img.flashSizeFreq
            && file[4] == e % 256 && file[5] == e / 256 % 256
            && file[6] == e / 65536 % 256 && file[7] == e / 16777216 % 256
            && file[8] == img.pins.wpPin
            && file[9] == img.pins.clk % 16 + 16 * (img.pins.q % 16)
            && file[10] == img.pins.d % 16 + 16 * (img.pins.cs % 16)
            && file[11] == img.pins.hd % 16 + 16 * (img.pins.wp % 16)
            && (forall i :: 12 <= i <= 22 ==> file[i] == 0)
            && file[23] == if img.appendDigest then 1 else 0
  {
    hide File, Contents, CommonHeader, ExtendedHeader;
    var at := FILE_HEADER_LEN + Size(out) + (15 - (FILE_HEADER_LEN + Size(out)) % 16);
    var file, c, e := File(img, out, sha), CommonHeader(img, |out|), ExtendedHeader(img);
    var tail := FileParts(img, out, sha, at);
    FirstBytes(file, c, e);
    CommonBytes(img, |out|);
    ExtendedBytes(img);
  }

  lemma FirstBytes(file: Bytes, c: Bytes, e: Bytes)
    requires |file| >= 24 && |c| == 8 && |e| == 16 && file[..8] == c && file[8..24] == e
    ensures forall i :: 0 <= i < 24 ==> file[i] == if i < 8 then c[i] else e[i - 8]
  {
    assert forall i :: 0 <= i < 8 ==> file[i] == file[..8][i];
    assert forall i :: 8 <= i < 24 ==> file[i] == file[8..24][i - 8];
  }

  lemma CommonBytes(img: Image, count: nat)
    requires count < 0x100 && img.entrypoint < WORD
    ensures var e := img.entrypoint;
            CommonHeader(img, count) == [0xE9, count, img.flashMode, img.flashSizeFreq,
                                         e % 256, e / 256 % 256, e / 65536 % 256, e / 16777216 % 256]
  {
    Le32Bytes(img.entrypoint);
  }

  lemma ExtendedBytes(img: Image)
    ensures var e := ExtendedHeader(img);
            && e[0] == img.pins.wpPin
            && e[1] == img.pins.clk % 16 + 16 * (img.pins.q % 16)
            && e[2] == img.pins.d % 16 + 16 * (img.pins.cs % 16)
            && e[3] == img.pins.hd % 16 + 16 * (img.pins.wp % 16)
            && (forall i :: 4 <= i < 15 ==> e[i] == 0)
            && e[15] == if img.appendDigest then 1 else 0
  {
  }

  /** A record's header and data. */
  lemma RecordBytesAre(r: Record)
    requires Fits(r)
    ensures var b, n := RecordBytes(r), |r.data|;
            && |b| == 8 + n
            && b[..8] == [r.addr % 256, r.addr / 256 % 256, r.addr / 65536 % 256, r.addr / 16777216 % 256,
                          n % 256, n / 256 % 256, n / 65536 % 256, n / 16777216 % 256]
            && b[8..] == r.data
  {
    Le32Bytes(r.addr);
    Le32Bytes(|r.data|);
  }

  /** The records are followed by zeros, fewer than 16, and the checksum, with which a multiple of 16 bytes is
      full, and by the digest of all that, if there is one. */
  lemma TailBytes(img: Image, out: seq<Record>, sha: Bytes -> Digest) returns (at: nat)
    requires Encodable(img, out)
    ensures var file, end := File(img, out, sha), 24 + Size(out);
            && end <= at < end + 16 && (at + 1) % 16 == 0
            && |file| == at + 1 + (if img.appendDigest then 32 else 0)
            && (forall i :: end <= i < at ==> file[i] == 0)
            && file[at] == Xor2(0xEF, XorRecords(out))
            && (img.appendDigest ==> file[at + 1..] == sha(file[..at + 1]))
  {
    hide Xor2, XorRecords, CommonHeader, ExtendedHeader, Body, Size;
    var end := 24 + Size(out);
    at := end + (15 - end % 16);
    var file, k := File(img, out, sha), Xor2(CHECKSUM_MAGIC, XorRecords(out));
    var d := if img.appendDigest then sha(Contents(img, out)) else [];
    var head := CommonHeader(img, |out|) + ExtendedHeader(img) + Body(out);
    assert file == head + Zeros(15 - end % 16) + [k] + d;
    Between(head, Zeros(15 - end % 16), k, d);
  }

  lemma Between(h: Bytes, z: Bytes, k: byte, d: Bytes)
    ensures var s := h + z + [k] + d;
            && (forall i :: |h| <= i < |h| + |z| ==> s[i] == z[i - |h|]) && s[|h| + |z|] == k
            && s[..|h| + |z| + 1] == h + z + [k] && s[|h| + |z| + 1..] == d
  {
  }

  // ----- Files that are refused --------------------------------------------------------------------

  /** A file shorter than its headers, or with another magic byte, more than 16 records, or another digest flag. */
  lemma BadHeaderRefused(file: Bytes, sha: Bytes -> Digest)
    ensures |file| < 8 ==> Parsed(file, sha) == Err(StructError)
    ensures |file| >= 8 && (file[0] != 0xE9 || file[1] > 16) ==> Parsed(file, sha) == Err(BadHeader)
    ensures 8 <= |file| < 24 && file[0] == 0xE9 && file[1] <= 16 ==> Parsed(file, sha) == Err(StructError)
    ensures |file| >= 24 && file[0] == 0xE9 && file[1] <= 16 && file[23] > 1 ==> Parsed(file, sha) == Err(BadDigestFlag)
  {
  }

  /** A record that is cut short is refused, by whether its header or its data is. */
  lemma CutRecordRefused(r: Record, k: nat)
    requires Fits(r) && k <= |RecordBytes(r)|
    ensures LoadSegment(RecordBytes(r)[..k], 0) ==
              if k < 8 then Failed(StructError)
              else if k < 8 + |r.data| then Failed(EndOfFile)
              else Got(LoadedSegment(r.addr, PadTo4(r.data), 0), 8 + |r.data|)
  {
    hide PadTo4;
    var b, s := RecordBytes(r), RecordBytes(r)[..k];
    if k >= 8 {
      assert s[0..4] == Le32(r.addr) && s[4..8] == Le32(|r.data|);
    }
    if k == |b| {
      assert s[8..8 + |r.data|] == r.data;
    }
  }

  /** Loading from the first `k` bytes of a file: as from the whole of it as far as they reach. */
  lemma {:induction false} PrefixLoads(file: Bytes, k: nat, pos: nat, n: nat, done: seq<LoadedSegment>)
    requires k <= |file| && LoadSegments(file, pos, n, done).Ok?
    ensures var (segments, end) := LoadSegments(file, pos, n, done).value;
            && end >= pos
            && (end <= k ==> LoadSegments(file[..k], pos, n, done) == Ok((segments, end)))
            && (end > k && pos <= k ==> LoadSegments(file[..k], pos, n, done).Err?)
    decreases n
  {
    hide LoadSegment;
    if n == 0 {
    } else {
      PrefixLoadsOne(file, k, pos);
      var s := LoadSegment(file, pos);
      PrefixLoads(file, k, s.next, n - 1, done + [s.segment]);
    }
  }

  lemma PrefixLoadsOne(file: Bytes, k: nat, pos: nat)
    requires k <= |file| && LoadSegment(file, pos).Got?
    ensures var s := LoadSegment(file, pos);
            && s.next >= pos
            && LoadSegment(file[..k], pos) == if s.next <= k then s
                                              else if pos + 8 > k then Failed(StructError) else Failed(EndOfFile)
  {
    hide PadTo4, FromLittleEndian;
    if pos + 8 <= k {
      assert file[..k][pos..pos + 4] == file[pos..pos + 4] && file[..k][pos + 4..pos + 8] == file[pos + 4..pos + 8];
      var size := FromLittleEndian(file[pos + 4..pos + 8]);
      if pos + 8 + size <= k {
        assert file[..k][pos + 8..pos + 8 + size] == file[pos + 8..pos + 8 + size];
      }
    }
  }

  /** A loadable file that is cut anywhere before the end of its checksum is refused. */
  lemma CutFileRefused(file: Bytes, sha: Bytes -> Digest, k: nat)
    requires Parsed(file, sha).Ok? && 24 <= k <= |file|
    requires var end := LoadSegments(file, 24, file[1], []).value.1; k <= end + (15 - end % 16)
    ensures Parsed(file[..k], sha).Err?
  {
    hide LoadSegments, Assemble;
    var end := LoadSegments(file, 24, file[1], []).value.1;
    PrefixLoads(file, k, 24, file[1], []);
    assert Checked(file[..k]) == Ok(file[1]);
  }

  // ----- Images that are saved ---------------------------------------------------------------------

  /** The segment lies in the 32-bit address space. */
  predicate InSpace(s: Segment)
  {
    s.addr < 0x1_0000_0000 && s.addr + |s.data| <= 0x1_0000_0000 && |s.data| < 0x1_0000_0000
  }

  predicate AllInSpace(s: seq<Segment>)
  {
    forall i :: 0 <= i < |s| ==> InSpace(s[i])
  }

  /** In that space a turn fails only at a gap of 8. */
  lemma StepFailsIff(p: Packer)
    requires !Finished(p) && AllInSpace(p.flash) && AllInSpace(p.ram)
    ensures Step(p).Err? <==> p.flash != [] && Gap(p.pos, p.flash[0].addr) == 8
    ensures Step(p).Ok? ==> AllInSpace(Step(p).value.flash) && AllInSpace(Step(p).value.ram)
    ensures Step(p).Ok? ==> |Step(p).value.out| == |p.out| + 1
  {
    if p.flash != [] {
      NoPaddingButUnaligned(p.pos, p.flash[0].addr);
      assert InSpace(p.flash[0]);
    }
    if p.ram != [] {
      assert InSpace(p.ram[0]);
    }
  }

  lemma {:induction false} RunSucceedsIff(p: Packer, n: nat)
    requires AllInSpace(p.flash) && AllInSpace(p.ram) && Done(p, n)
    ensures Turns(p, n).Ok? <==> forall m: nat :: !AtGapEight(p, m)
    decreases n
  {
    hide Step;
    if Finished(p) {
      forall m: nat ensures !AtGapEight(p, m) {
        NothingLeft(p, m);
      }
    } else {
      StepFailsIff(p);
      if Step(p).Err? {
        assert AtGapEight(p, 0);
      } else {
        var q := Step(p).value;
        RunSucceedsIff(q, n - 1);
        forall m: nat ensures AtGapEight(p, m) <==> m > 0 && AtGapEight(q, m - 1) {
          assert m == 0 ==> Turns(p, m) == Ok(p);
        }
        if !forall m: nat :: !AtGapEight(q, m) {
          var m: nat :| AtGapEight(q, m);
          assert AtGapEight(p, m + 1);
        }
      }
    }
  }

  lemma NothingLeft(p: Packer, m: nat)
    requires Finished(p)
    ensures !AtGapEight(p, m)
  {
  }

  lemma {:induction false} TurnsGrow(p: Packer, n: nat, m: nat)
    requires n <= m && Turns(p, m).Ok?
    ensures Turns(p, n).Ok? && |p.out| <= |Turns(p, n).value.out| <= |Turns(p, m).value.out|
    decreases n, m
  {
    if m == 0 || Finished(p) {
    } else {
      var q := Step(p).value;
      if n == 0 {
        TurnsGrow(q, 0, m - 1);
      } else {
        TurnsGrow(q, n - 1, m - 1);
      }
    }
  }

  /** No two flash segments share a 64 KB mapping. */
  predicate Apart(flash: seq<Segment>)
  {
    forall i, j :: 0 <= i < j < |flash| ==> flash[i].addr / 65536 != flash[j].addr / 65536
  }

  lemma ApartIff(img: Image)
    ensures Apart(FlashOf(img)) <==> !NeighboursShare(FlashOf(img))
  {
    var flash := FlashOf(img);
    StartingLists(img);
    if !NeighboursShare(flash) {
      forall i, j | 0 <= i < j < |flash| ensures flash[i].addr / 65536 != flash[j].addr / 65536 {
        PagesIncrease(flash, i, j);
      }
    }
  }

  /** An image in the 32-bit address space is saved if and only if it has at most 255 segments, its entry point
      fits 32 bits, no two flash segments share a mapping, no turn of the loop meets a gap of 8, and none leaves
      more than 255 records. */
  lemma SavedIff(img: Image, sha: Bytes -> Digest)
    requires Saveable(img) && AllInSpace(img.segments)
    ensures Saved(img, sha).Ok? <==>
              && |img.segments| <= 255 && img.entrypoint < 0x1_0000_0000
              && Apart(FlashOf(img))
              && (forall n: nat :: !AtGapEight(Start(img), n))
              && (forall n: nat :: Turns(Start(img), n).Ok? ==> |Turns(Start(img), n).value.out| <= 255)
  {
    hide Select, Turns, Pack, File, Apart, AtGapEight, AllInSpace;
    ApartIff(img);
    if !RefusedEarly(img) {
      var p := Start(img);
      ListsInSpace(img);
      var n: nat :| Done(p, n);
      PackIs(p, n);
      RunSucceedsIff(p, n);
      if Turns(p, n).Ok? {
        PackFits(p);
        forall m: nat | Turns(p, m).Ok? ensures |Turns(p, m).value.out| <= |Turns(p, n).value.out| {
          if m <= n {
            TurnsGrow(p, m, n);
          } else {
            DoneStays(p, n, m);
          }
        }
      }
    }
  }

  lemma ListsInSpace(img: Image)
    requires AllInSpace(img.segments)
    ensures AllInSpace(FlashOf(img)) && AllInSpace(RamOf(img))
  {
    StartingLists(img);
    OfInSpace(FlashOf(img), RamOf(img), img.segments);
    OfInSpace(RamOf(img), FlashOf(img), img.segments);
  }

  lemma OfInSpace(a: seq<Segment>, b: seq<Segment>, all: seq<Segment>)
    requires AllInSpace(all) && multiset(a) + multiset(b) == multiset(all)
    ensures AllInSpace(a)
  {
    forall i | 0 <= i < |a| ensures InSpace(a[i]) {
      assert a[i] in multiset(a) + multiset(b);
      assert a[i] in all;
    }
  }
}
