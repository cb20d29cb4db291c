/** How much padding `save` writes: no more than it takes to bring each flash segment into its place. */
module ImagePadding {
  import opened Common
  import opened Sorting
  import opened FirmwareImage
  import opened ImageLayout
  import opened ImageFile
  import opened ImageTheorems

  /** A file offset at which the data of a segment with that address can stand, if a padding record is written at
      `pos` first: it has the address's residue modulo 64 KB, leaves room for two headers of 8 bytes, and lies in a
      later block of 64 KB than `pos`, because the source never uses the block it is in. */
  predicate Place(x: nat, pos: nat, addr: nat)
  {
    x % 65536 == addr % 65536 && x / 65536 > pos / 65536 && x >= pos + 16
  }

  /** The padding asked for brings the segment to the first place there is. */
  lemma LeastPadding(pos: nat, addr: nat)
    requires PadNeeded(pos, addr) > 0
    ensures Place(pos + 16 + PadNeeded(pos, addr), pos, addr)
    ensures forall x: nat :: Place(x, pos, addr) ==> pos + 16 + PadNeeded(pos, addr) <= x
  {
    forall x: nat | Place(x, pos, addr) ensures pos + 16 + PadNeeded(pos, addr) <= x {
      LaterPlace(x, pos, addr);
    }
    var q, b := pos % 65536, pos / 65536;
    var k := if Gap(pos, addr) < SEG_HEADER_LEN then 2 else 1;
    InBlock(b + k, addr % 65536);
    assert pos + 16 + PadNeeded(pos, addr) == 65536 * (b + k) + addr % 65536;
  }

  lemma InBlock(b: nat, r: nat)
    requires r < 65536
    ensures (65536 * b + r) % 65536 == r && (65536 * b + r) / 65536 == b
  {
  }

  lemma LaterPlace(x: nat, pos: nat, addr: nat)
    requires PadNeeded(pos, addr) > 0 && Place(x, pos, addr)
    ensures pos + 16 + PadNeeded(pos, addr) <= x
  {
    var q, b := pos % 65536, pos / 65536;
    var c := x / 65536;
    assert x == 65536 * c + addr % 65536 && pos == 65536 * b + q;
    if c == b + 1 {
    } else {
      assert c >= b + 2;
    }
  }

  /** No place for the segment comes before offset `d`, for padding written at `pos`. */
  ghost predicate First(d: nat, pos: nat, addr: nat)
  {
    forall x: nat :: Place(x, pos, addr) ==> d <= x
  }

  /** Each flash record that follows padding has its data in the first place there was. */
  ghost predicate Tight(out: seq<Record>)
  {
    out == [] ||
    var last := |out| - 1;
    && Tight(out[..last])
    && (last > 0 && out[last].kind.Flash? && !out[last - 1].kind.Flash? ==>
          First(Offset(out, last) + 8, Offset(out, last - 1), out[last].addr))
  }

  /** While a flash segment waits, the last record, if it is padding, is not more than was asked for, rounded up. */
  ghost predicate Waiting(p: Packer)
  {
    p.out == [] || p.flash == [] ||
    var last := |p.out| - 1;
    p.out[last].kind.Flash? ||
    var pos := Offset(p.out, last);
    PadNeeded(pos, p.flash[0].addr) > 0 && |p.out[last].data| <= PadNeeded(pos, p.flash[0].addr) + 3
  }

  lemma OffsetOfEarlier(out: seq<Record>, r: Record, i: nat)
    requires i <= |out|
    ensures Offset(out + [r], i) == Offset(out, i)
    ensures Offset(out, |out|) == FILE_HEADER_LEN + Size(out)
  {
    assert (out + [r])[..i] == out[..i];
    assert out[..|out|] == out;
  }

  lemma OffsetAfter(out: seq<Record>)
    requires out != []
    ensures Offset(out, |out|) == Offset(out, |out| - 1) + 8 + |out[|out| - 1].data|
  {
    assert out[..|out|] == out;
  }

  /** Aligned data that is at most 3 bytes past the first place is in the first place. */
  lemma Reached(d: nat, pos: nat, addr: nat)
    requires PadNeeded(pos, addr) > 0 && d <= pos + 16 + PadNeeded(pos, addr) + 3
    requires d % 65536 == addr % 65536
    ensures First(d, pos, addr)
  {
    LeastPadding(pos, addr);
    var e := pos + 16 + PadNeeded(pos, addr);
    assert e % 65536 == addr % 65536;
    NotBetween(d, e);
  }

  lemma NotBetween(d: nat, e: nat)
    requires d % 65536 == e % 65536 && d <= e + 3
    ensures d <= e
  {
  }

  lemma StepTight(p: Packer)
    requires !Finished(p) && Step(p).Ok? && p.pos == FILE_HEADER_LEN + Size(p.out)
    requires Tight(p.out) && Waiting(p)
    ensures Tight(Step(p).value.out) && Waiting(Step(p).value)
  {
    hide Tight, Place, Offset, Size, PadNeeded;
    var p' := Step(p).value;
    var out, r := p.out, p'.out[|p.out|];
    assert p'.out == out + [r] && (out + [r])[..|out|] == out;
    OffsetOfEarlier(out, r, |out|);
    if out != [] {
      OffsetOfEarlier(out, r, |out| - 1);
      OffsetAfter(out);
    }
    if r.kind.Flash? && out != [] && !out[|out| - 1].kind.Flash? {
      PlacedAligned(p);
      Reached(p.pos + 8, Offset(out, |out| - 1), r.addr);
    }
    TightMore(out, r);
  }

  lemma TightMore(out: seq<Record>, r: Record)
    requires Tight(out)
    requires out != [] && r.kind.Flash? && !out[|out| - 1].kind.Flash? ==>
               First(Offset(out + [r], |out|) + 8, Offset(out + [r], |out| - 1), r.addr)
    ensures Tight(out + [r])
  {
    assert (out + [r])[..|out|] == out;
  }

  lemma PlacedAligned(p: Packer)
    requires !Finished(p) && Step(p).Ok? && Step(p).value.out[|p.out|].kind.Flash?
    ensures p.flash != [] && Step(p).value.out[|p.out|].addr == p.flash[0].addr
    ensures (p.pos + 8) % 65536 == p.flash[0].addr % 65536
  {
  }

  lemma {:induction false} TurnsTight(p: Packer, n: nat, flash: seq<Segment>, ram: seq<Segment>)
    requires Turns(p, n).Ok? && Consistent(p, flash, ram) && Tight(p.out) && Waiting(p)
    ensures Tight(Turns(p, n).value.out)
    decreases n
  {
    hide Step, Tight, Waiting;
    if n == 0 || Finished(p) {
    } else {
      StepTight(p);
      StepConsistent(p, flash, ram);
      TurnsTight(Step(p).value, n - 1, flash, ram);
    }
  }

  // ----- What is used as padding -------------------------------------------------------------------

  /** Zeros by more than 8 bytes are written only when no RAM is left. */
  ghost predicate FillsLast(out: seq<Record>)
  {
    forall i, j :: 0 <= i < j < |out| && out[i].kind.Filler? && |out[i].data| > 8 ==> !out[j].kind.Ram?
  }

  ghost predicate Filled(p: Packer)
  {
    && FillsLast(p.out)
    && (p.ram != [] ==> forall i :: 0 <= i < |p.out| && p.out[i].kind.Filler? ==> |p.out[i].data| <= 8)
  }

  lemma StepFills(p: Packer)
    requires !Finished(p) && Step(p).Ok? && Filled(p)
    ensures Filled(Step(p).value)
  {
  }

  lemma {:induction false} TurnsFill(p: Packer, n: nat)
    requires Turns(p, n).Ok? && Filled(p)
    ensures Filled(Turns(p, n).value)
    decreases n
  {
    hide Step, Filled;
    if n == 0 || Finished(p) {
    } else {
      StepFills(p);
      TurnsFill(Step(p).value, n - 1);
    }
  }

  function End(s: Segment): nat
  {
    s.addr + |s.data|
  }

  ghost predicate SomeEnds(ram: seq<Segment>, end: nat)
  {
    exists i :: 0 <= i < |ram| && End(ram[i]) == end
  }

  /** The segments end where segments of the list end. */
  ghost predicate EndsLike(some: seq<Segment>, ram: seq<Segment>)
  {
    forall i :: 0 <= i < |some| ==> SomeEnds(ram, End(some[i]))
  }

  /** A RAM segment is cut only for a piece of more than 8 bytes: a shorter one is the end of its segment. */
  ghost predicate ShortPiecesEnd(out: seq<Record>, ram: seq<Segment>)
  {
    forall i :: 0 <= i < |out| && out[i].kind.Ram? && |out[i].data| <= 8 ==>
      SomeEnds(ram, out[i].addr + |out[i].data|)
  }

  lemma EndsLikeSelf(ram: seq<Segment>)
    ensures EndsLike(ram, ram)
  {
  }

  lemma StepCuts(p: Packer, ram: seq<Segment>)
    requires !Finished(p) && Step(p).Ok? && EndsLike(p.ram, ram) && ShortPiecesEnd(p.out, ram)
    ensures EndsLike(Step(p).value.ram, ram) && ShortPiecesEnd(Step(p).value.out, ram)
  {
    hide PadNeeded;
    if p.ram != [] {
      assert SomeEnds(ram, End(p.ram[0]));
      if p.flash != [] {
        var need := PadNeeded(p.pos, p.flash[0].addr);
        assert need < |p.ram[0].data| ==> End(Remaining(p.ram, need)[0]) == End(p.ram[0]);
      }
    }
  }

  lemma {:induction false} TurnsCut(p: Packer, n: nat, ram: seq<Segment>)
    requires Turns(p, n).Ok? && EndsLike(p.ram, ram) && ShortPiecesEnd(p.out, ram)
    ensures ShortPiecesEnd(Turns(p, n).value.out, ram)
    decreases n
  {
    hide Step, EndsLike, ShortPiecesEnd;
    if n == 0 || Finished(p) {
    } else {
      StepCuts(p, ram);
      TurnsCut(Step(p).value, n - 1, ram);
    }
  }

  // ----- Saved files -------------------------------------------------------------------------------

  /** In a saved file the data of every flash segment stands at its residue modulo 64 KB, and, after padding, at
      the first offset where it could, as seen from where its last padding begins. */
  lemma SavedTight(img: Image, sha: Bytes -> Digest, i: nat)
    requires Saveable(img) && Saved(img, sha).Ok?
    requires i < |Records(img, sha)| && Records(img, sha)[i].kind.Flash?
    ensures var out := Records(img, sha);
            && (Offset(out, i) + 8) % 65536 == out[i].addr % 65536
            && (i > 0 && !out[i - 1].kind.Flash? ==> First(Offset(out, i) + 8, Offset(out, i - 1), out[i].addr))
  {
    hide Saved, Pack, Turns, Saveable, Size, Select, SortBy, Offset, First;
    var out := Records(img, sha);
    StartConsistent(img);
    Conserves(img, sha);
    FlashAlignedAt(out, i);
    var n := RecordsRun(img, sha);
    TurnsTight(Start(img), n, FlashOf(img), RamOf(img));
    TightAt(out, i);
  }

  lemma StartConsistent(img: Image)
    ensures Consistent(Start(img), FlashOf(img), RamOf(img))
  {
    hide Size, Select, SortBy;
    EmptyLayout();
    assert [] + FlashOf(img) == FlashOf(img) && [] + SegmentBytes(RamOf(img)) == SegmentBytes(RamOf(img));
  }

  lemma {:induction false} TightAt(out: seq<Record>, i: nat)
    requires Tight(out) && i < |out|
    ensures i > 0 && out[i].kind.Flash? && !out[i - 1].kind.Flash? ==>
              First(Offset(out, i) + 8, Offset(out, i - 1), out[i].addr)
  {
    hide First, Size;
    if i == |out| - 1 {
    } else {
      var front := out[..|out| - 1];
      assert front[..i] == out[..i] && (i > 0 ==> front[..i - 1] == out[..i - 1]);
      TightAt(front, i);
    }
  }

  /** And RAM is used as padding as long as there is any, but is not cut for 8 bytes or less. */
  lemma SavedPadding(img: Image, sha: Bytes -> Digest)
    requires Saveable(img) && Saved(img, sha).Ok?
    ensures FillsLast(Records(img, sha)) && ShortPiecesEnd(Records(img, sha), RamOf(img))
  {
    hide Saved, Pack, Turns, Saveable, Select, SortBy;
    var n := RecordsRun(img, sha);
    TurnsFill(Start(img), n);
    EndsLikeSelf(RamOf(img));
    TurnsCut(Start(img), n, RamOf(img));
  }
}
