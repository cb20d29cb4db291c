/** What `save` promises of a whole image, and what loading the file gives back. */
module ImageTheorems {
  import opened Common
  import opened Sorting
  import opened FirmwareImage
  import opened ImageLayout
  import opened ImageFile
  import opened ImageLoad
  import opened ImageTermination

  // ----- The lists that the loop starts from ---------------------------------------------------

  lemma {:induction false} SelectSplits(s: seq<Segment>)
    ensures multiset(Select(s, true)) + multiset(Select(s, false)) == multiset(s)
  {
    hide IsFlash, Select;
    SelectEmpty();
    if s == [] {
    } else {
      SelectSplits(s[1..]);
      assert [s[0]] + s[1..] == s;
      SelectCons(s[0], s[1..], true);
      SelectCons(s[0], s[1..], false);
    }
  }

  lemma {:induction false} SelectSplitsXor(s: seq<Segment>)
    ensures Xor2(XorSegments(Select(s, true)), XorSegments(Select(s, false))) == XorSegments(s)
  {
    hide Xor2, Xor, IsFlash, Select, XorSegments;
    SelectEmpty();
    if s == [] {
      XorZero(0);
    } else {
      var x, f, m := Xor(s[0].data), XorSegments(Select(s[1..], true)), XorSegments(Select(s[1..], false));
      SelectSplitsXor(s[1..]);
      assert [s[0]] + s[1..] == s;
      SelectCons(s[0], s[1..], true);
      SelectCons(s[0], s[1..], false);
      XorStep(x, f, m);
      XorSwap(x, f, m);
    }
  }

  lemma SelectEmpty()
    ensures XorSegments([]) == 0 && Select([], true) == [] == Select([], false)
  {
  }

  lemma SelectCons(x: Segment, s: seq<Segment>, flash: bool)
    ensures Select([x] + s, flash) == if IsFlash(x.addr) == flash then [x] + Select(s, flash) else Select(s, flash)
    ensures XorSegments([x] + s) == Xor2(Xor(x.data), XorSegments(s))
    ensures IsFlash(x.addr) == flash ==>
              XorSegments(Select([x] + s, flash)) == Xor2(Xor(x.data), XorSegments(Select(s, flash)))
  {
    hide Xor2, Xor, IsFlash;
    assert ([x] + s)[1..] == s;
    assert ([x] + Select(s, flash))[1..] == Select(s, flash);
  }

  lemma {:induction false} InsertKeepsXor(x: Segment, s: seq<Segment>)
    ensures XorSegments(Insert(x, s, Addr)) == Xor2(Xor(x.data), XorSegments(s))
  {
    hide Xor2, Xor;
    if s == [] || Addr(x) <= Addr(s[0]) {
      assert ([x] + s)[1..] == s;
    } else {
      var r := Insert(x, s[1..], Addr);
      InsertKeepsXor(x, s[1..]);
      assert ([s[0]] + r)[1..] == r;
      XorSwap(Xor(s[0].data), Xor(x.data), XorSegments(s[1..]));
    }
  }

  lemma {:induction false} SortKeepsXor(s: seq<Segment>)
    ensures XorSegments(SortBy(s, Addr)) == XorSegments(s)
  {
    hide Xor2, Xor;
    if s == [] {
    } else {
      SortKeepsXor(s[1..]);
      InsertKeepsXor(s[0], SortBy(s[1..], Addr));
    }
  }

  lemma {:induction false} SelectKeepsSorted(s: seq<Segment>, flash: bool)
    requires SortedBy(s, Addr)
    ensures SortedBy(Select(s, flash), Addr)
  {
    if s == [] {
    } else {
      SelectKeepsSorted(s[1..], flash);
      SelectKeeps(s[1..], flash);
      var r := Select(s[1..], flash);
      forall i | 0 <= i < |r| ensures Addr(s[0]) <= Addr(r[i]) {
        assert r[i] in s[1..];
      }
    }
  }

  /** Flash and RAM segments are the image's segments, each list in address order. */
  lemma StartingLists(img: Image)
    ensures multiset(FlashOf(img)) + multiset(RamOf(img)) == multiset(img.segments)
    ensures SortedBy(FlashOf(img), Addr) && SortedBy(RamOf(img), Addr)
    ensures forall x :: x in FlashOf(img) ==> IsFlash(x.addr)
    ensures forall x :: x in RamOf(img) ==> !IsFlash(x.addr)
  {
    hide Select, SortBy, IsFlash, SortedBy, XorSegments;
    var sorted := SortBy(img.segments, Addr);
    SortBySorts(img.segments, Addr);
    SelectSplits(sorted);
    SelectKeepsSorted(sorted, true);
    SelectKeepsSorted(sorted, false);
    SelectKeeps(sorted, true);
    SelectKeeps(sorted, false);
  }

  // ----- Saved files -----------------------------------------------------------------------------

  /** The records of a file that `save` wrote. */
  ghost function Records(img: Image, sha: Bytes -> Digest): (out: seq<Record>)
    requires Saveable(img) && Saved(img, sha).Ok?
    ensures Encodable(img, out) && Saved(img, sha) == Ok(File(img, out, sha))
    ensures Ends(Start(img)) && Pack(Start(img)) == Ok(out)
  {
    PackFits(Start(img));
    Pack(Start(img)).value
  }

  /** They are those of a finished run of the packing loop. */
  lemma RecordsRun(img: Image, sha: Bytes -> Digest) returns (n: nat)
    requires Saveable(img) && Saved(img, sha).Ok?
    ensures Turns(Start(img), n).Ok? && Finished(Turns(Start(img), n).value)
    ensures Turns(Start(img), n).value.out == Records(img, sha)
  {
    hide Saved, Pack, Turns, Select, SortBy;
    var out := Records(img, sha);
    n :| Done(Start(img), n);
    PackIs(Start(img), n);
  }

  /** Nothing is lost, reordered or invented: flash segments appear whole and in address order, the
      RAM records load exactly the bytes of the RAM segments in address order, and everything else
      is zero filler at address 0. */
  lemma Conserves(img: Image, sha: Bytes -> Digest)
    requires Saveable(img) && Saved(img, sha).Ok?
    ensures FlashSegments(Records(img, sha)) == FlashOf(img)
    ensures RamBytes(Records(img, sha)) == SegmentBytes(RamOf(img))
    ensures AllWellFormed(Records(img, sha))
    ensures FlashAligned(Records(img, sha))
  {
    hide Size, Saved, Pack, Ends;
    var out := Records(img, sha);
    assert Consistent(Start(img), FlashOf(img), RamOf(img)) by {
      EmptyLayout();
      assert [] + FlashOf(img) == FlashOf(img) && [] + SegmentBytes(RamOf(img)) == SegmentBytes(RamOf(img));
    }
    PackConsistent(Start(img), FlashOf(img), RamOf(img));
  }

  lemma EmptyLayout()
    ensures Size([]) == 0 && FlashSegments([]) == [] && RamBytes([]) == [] && XorRecords([]) == 0
  {
  }

  /** Splitting, sorting and filling leave the checksum what `calculate_checksum` gives for the
      image's own segments. */
  lemma ChecksumUnchanged(img: Image, sha: Bytes -> Digest)
    requires Saveable(img) && Saved(img, sha).Ok?
    ensures Xor2(CHECKSUM_MAGIC, XorRecords(Records(img, sha))) == CalculateChecksum(img.segments)
  {
    hide Xor2, Select, SortBy, XorSegments, Saved, Pack, Ends;
    var out := Records(img, sha);
    PackKeepsTotal(Start(img));
    EmptyLayout();
    SelectSplitsXor(SortBy(img.segments, Addr));
    SortKeepsXor(img.segments);
    XorZero(XorSegments(img.segments));
  }

  /** An accepted image has at most one flash segment in each 64 KB mapping, although the check
      looks at neighbours only. */
  lemma MappingsDistinct(img: Image, sha: Bytes -> Digest, i: nat, j: nat)
    requires Saveable(img) && Saved(img, sha).Ok?
    requires i < j < |FlashOf(img)|
    ensures FlashOf(img)[i].addr / IROM_ALIGN < FlashOf(img)[j].addr / IROM_ALIGN
  {
    StartingLists(img);
    PagesIncrease(FlashOf(img), i, j);
  }

  lemma {:induction false} PagesIncrease(flash: seq<Segment>, i: nat, j: nat)
    requires SortedBy(flash, Addr) && !NeighboursShare(flash) && i < j < |flash|
    ensures flash[i].addr / IROM_ALIGN < flash[j].addr / IROM_ALIGN
    decreases j
  {
    var a, b := flash[j - 1], flash[j];
    assert Addr(a) <= Addr(b) && a.addr / IROM_ALIGN != b.addr / IROM_ALIGN;
    if i == j - 1 {
    } else {
      PagesIncrease(flash, i, j - 1);
    }
  }

  // ----- Loading a saved file --------------------------------------------------------------------

  /** What loading the file of a layout gives back: its records in order, the entry point, the flash bytes, the
      low nibbles of the drive levels, the checksum of the image's own segments, equal digests. */
  predicate Returned(img: Image, out: seq<Record>, loaded: Loaded)
  {
    && loaded.segments == LoadedOf(out)
    && loaded.entrypoint == img.entrypoint
    && loaded.flashMode == img.flashMode && loaded.flashSizeFreq == img.flashSizeFreq
    && loaded.pins == LowNibbles(img.pins)
    && loaded.checksum == CalculateChecksum(img.segments)
    && (loaded.digests.Some? <==> img.appendDigest)
    && (img.appendDigest ==> loaded.digests.value.stored == loaded.digests.value.calculated)
  }

  /** Loading a saved file gives everything back exactly when there are at most 16 records. */
  lemma RoundTrip(img: Image, sha: Bytes -> Digest)
    requires Saveable(img) && Saved(img, sha).Ok?
    ensures var out, loaded := Records(img, sha), Parsed(Saved(img, sha).value, sha);
            if |out| > 16 then loaded == Err(BadHeader) else loaded.Ok? && Returned(img, out, loaded.value)
  {
    hide Parsed, Saved, File, Contents, LoadedOf, Xor2, XorRecords, CalculateChecksum, Pack;
    var out := Records(img, sha);
    ChecksumUnchanged(img, sha);
    LoadsFile(img, out, sha);
  }

  /** Every flash record so loaded has its data at a file offset congruent to its address. */
  lemma LoadedFlashAligned(img: Image, sha: Bytes -> Digest, i: nat)
    requires Saveable(img) && Saved(img, sha).Ok?
    requires i < |Records(img, sha)| && Records(img, sha)[i].kind.Flash?
    ensures var s, r := LoadedOf(Records(img, sha))[i], Records(img, sha)[i];
            s.addr == r.addr && s.data == PadTo4(r.data) && Aligned(s.fileOffs, s.addr)
  {
    hide Saved, Size, LoadedOf, Pack, Ends;
    Conserves(img, sha);
    FlashAlignedAt(Records(img, sha), i);
    LoadedOfAt(Records(img, sha), i);
  }

  datatype Outcome = NotSaved(saveError: SaveError) | NotLoaded(loadError: LoadError) | Both(loaded: Loaded)

  /** Save an image and load the file. */
  method SaveThenLoad(img: Image, sha: Bytes -> Digest) returns (r: Outcome)
    requires Saveable(img)
    ensures Saved(img, sha).Err? ==> r == NotSaved(Saved(img, sha).error)
    ensures Saved(img, sha).Ok? && |Records(img, sha)| > 16 ==> r == NotLoaded(BadHeader)
    ensures Saved(img, sha).Ok? && |Records(img, sha)| <= 16 ==> r.Both? && Returned(img, Records(img, sha), r.loaded)
  {
    hide Saved, Parsed, Returned, Saveable;
    var file := Save(img, sha);
    if file.Err? {
      return NotSaved(file.error);
    }
    RoundTrip(img, sha);
    var loaded := Load(file.value, sha);
    return if loaded.Err? then NotLoaded(loaded.error) else Both(loaded.value);
  }

  // ----- Multiples of 4 ----------------------------------------------------------------------------

  /** What the constructor of `ImageSegment` ensures, and flash addresses that are multiples of 4. */
  predicate FourAligned(img: Image)
  {
    forall i :: 0 <= i < |img.segments| ==>
      Padded(img.segments[i]) && (IsFlash(img.segments[i].addr) ==> img.segments[i].addr % 4 == 0)
  }

  lemma StartFourAligned(img: Image)
    requires FourAligned(img)
    ensures Packable(Start(img))
  {
    hide SortBy, Select;
    var sorted := SortBy(img.segments, Addr);
    SelectKeeps(sorted, true);
    SelectKeeps(sorted, false);
    forall x | x in sorted ensures x in img.segments {
      assert x in multiset(sorted);
    }
  }

  /** Such an image can always be saved or refused. */
  lemma FourAlignedSaveable(img: Image)
    requires FourAligned(img)
    ensures Saveable(img)
  {
    StartFourAligned(img);
    PackableEnds(Start(img));
  }

  predicate RecordsPadded(out: seq<Record>)
  {
    forall i :: 0 <= i < |out| ==> |out[i].data| % 4 == 0
  }

  lemma {:induction false} TurnsPad(p: Packer, n: nat)
    requires Packable(p) && RecordsPadded(p.out) && Turns(p, n).Ok?
    ensures RecordsPadded(Turns(p, n).value.out)
    decreases n
  {
    hide Packable, Choose;
    if n == 0 || Finished(p) {
    } else {
      StepPackable(p);
      ChoicePadded(p);
      TurnsPad(Step(p).value, n - 1);
    }
  }

  /** Then loading pads nothing: each record comes back as it was written. */
  lemma LoadsExactly(img: Image, sha: Bytes -> Digest, i: nat)
    requires FourAligned(img) && Saveable(img) && Saved(img, sha).Ok? && i < |Records(img, sha)|
    ensures RecordsPadded(Records(img, sha))
    ensures var s, r := LoadedOf(Records(img, sha))[i], Records(img, sha)[i]; s.addr == r.addr && s.data == r.data
  {
    hide Saved, LoadedOf, Pack, Turns, Packable, Saveable;
    StartFourAligned(img);
    var n := RecordsRun(img, sha);
    TurnsPad(Start(img), n);
    LoadedOfAt(Records(img, sha), i);
  }

  // ----- Conservation, read off the loaded segments --------------------------------------------------

  /** The segment has a load address, and no byte of it lies in a flash range. */
  predicate RamApart(s: Segment)
  {
    s.addr > 0 && !IsFlash(s.addr) && forall a :: s.addr <= a < s.addr + |s.data| ==> !IsFlash(a)
  }

  predicate AllApart(ram: seq<Segment>)
  {
    forall i :: 0 <= i < |ram| ==> RamApart(ram[i])
  }

  predicate AllFlash(flash: seq<Segment>)
  {
    forall i :: 0 <= i < |flash| ==> IsFlash(flash[i].addr)
  }

  /** Records can be told apart by their addresses. */
  predicate Told(out: seq<Record>)
  {
    forall i :: 0 <= i < |out| ==> (out[i].kind.Flash? <==> IsFlash(out[i].addr)) && (out[i].kind.Filler? <==> out[i].addr == 0)
  }

  lemma StepTells(p: Packer)
    requires !Finished(p) && Step(p).Ok? && AllFlash(p.flash) && AllApart(p.ram) && Told(p.out)
    ensures var p' := Step(p).value; AllFlash(p'.flash) && AllApart(p'.ram) && Told(p'.out)
  {
    if p.ram != [] {
      assert RamApart(p.ram[0]);
    }
    if p.flash != [] {
      RestApart(p.ram, PadNeeded(p.pos, p.flash[0].addr));
    }
  }

  lemma RestApart(ram: seq<Segment>, n: nat)
    requires AllApart(ram)
    ensures ram != [] ==> AllApart(Remaining(ram, n))
  {
    if ram != [] {
      assert RamApart(ram[0]);
    }
  }

  lemma {:induction false} TurnsTell(p: Packer, n: nat)
    requires AllFlash(p.flash) && AllApart(p.ram) && Told(p.out) && Turns(p, n).Ok?
    ensures Told(Turns(p, n).value.out)
    decreases n
  {
    hide Step, Told, AllFlash, AllApart;
    if n == 0 || Finished(p) {
    } else {
      StepTells(p);
      TurnsTell(Step(p).value, n - 1);
    }
  }

  /** The loaded segments in a flash range. */
  function FlashLoaded(ls: seq<LoadedSegment>): seq<Segment>
  {
    if ls == [] then [] else
      var l := ls[|ls| - 1];
      FlashLoaded(ls[..|ls| - 1]) + if IsFlash(l.addr) then [Segment(l.addr, l.data)] else []
  }

  /** The (address, byte) pairs of the other segments, without zeros at address 0. */
  function RamLoaded(ls: seq<LoadedSegment>): seq<(int, byte)>
  {
    if ls == [] then [] else
      var l := ls[|ls| - 1];
      RamLoaded(ls[..|ls| - 1])
      + if IsFlash(l.addr) || (l.addr == 0 && AllZero(l.data)) then [] else Located(l.addr, l.data)
  }

  lemma {:induction false} ToldByAddress(out: seq<Record>)
    requires Told(out) && AllWellFormed(out) && RecordsPadded(out)
    ensures FlashLoaded(LoadedOf(out)) == FlashSegments(out)
    ensures RamLoaded(LoadedOf(out)) == RamBytes(out)
  {
    hide IsFlash, Located;
    if out == [] {
    } else {
      var last := |out| - 1;
      var front, ls := out[..last], LoadedOf(out);
      assert ls[..last] == LoadedOf(front);
      assert WellFormed(out[last]);
      ToldByAddress(front);
    }
  }

  lemma RecordsTold(img: Image, sha: Bytes -> Digest)
    requires Saveable(img) && Saved(img, sha).Ok? && AllApart(RamOf(img))
    ensures Told(Records(img, sha))
  {
    hide Saved, Pack, Turns, Saveable, IsFlash, Select, SortBy;
    StartingLists(img);
    var n := RecordsRun(img, sha);
    TurnsTell(Start(img), n);
  }

  /** Conservation as the loaded file shows it: the segments in flash ranges are the image's flash segments,
      whole and in address order, each at an offset congruent to its address, and the others, without the zeros
      at address 0, load the bytes of its RAM segments in address order. */
  lemma LoadedConserves(img: Image, sha: Bytes -> Digest)
    requires FourAligned(img) && AllApart(RamOf(img)) && Saveable(img) && Saved(img, sha).Ok?
    requires |Records(img, sha)| <= 16
    ensures var loaded := Parsed(Saved(img, sha).value, sha);
            && loaded.Ok?
            && var ls := loaded.value.segments;
            && FlashLoaded(ls) == FlashOf(img)
            && RamLoaded(ls) == SegmentBytes(RamOf(img))
            && forall i :: 0 <= i < |ls| && IsFlash(ls[i].addr) ==> Aligned(ls[i].fileOffs, ls[i].addr)
  {
    hide Parsed, Saved, Pack, Saveable, FourAligned, LoadedOf, IsFlash, Told, RecordsPadded, FlashAligned, AllWellFormed;
    hide FlashLoaded, RamLoaded, FlashSegments, RamBytes, SegmentBytes, AllApart, Offset, LowNibbles, CalculateChecksum;
    var out := Records(img, sha);
    RoundTrip(img, sha);
    Conserves(img, sha);
    RecordsTold(img, sha);
    PaddedRecords(img, sha);
    ToldByAddress(out);
    forall i | 0 <= i < |out| && IsFlash(LoadedOf(out)[i].addr)
      ensures Aligned(LoadedOf(out)[i].fileOffs, LoadedOf(out)[i].addr) {
      LoadedOfAt(out, i);
      ToldAt(out, i);
      FlashAlignedAt(out, i);
    }
  }

  lemma PaddedRecords(img: Image, sha: Bytes -> Digest)
    requires FourAligned(img) && Saveable(img) && Saved(img, sha).Ok?
    ensures RecordsPadded(Records(img, sha))
  {
    hide Saved, Pack, Saveable, FourAligned, LoadedOf;
    if |Records(img, sha)| > 0 {
      LoadsExactly(img, sha, 0);
    }
  }

  lemma ToldAt(out: seq<Record>, i: nat)
    requires Told(out) && i < |out|
    ensures out[i].kind.Flash? <==> IsFlash(out[i].addr)
  {
  }
}
