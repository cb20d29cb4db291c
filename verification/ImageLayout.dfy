/** What the packing loop of `save` keeps on every turn, and so what a finished layout satisfies. */
module ImageLayout {
  import opened Common
  import opened FirmwareImage

  // ----- Reading a layout --------------------------------------------------------------------

  function Located(addr: nat, data: Bytes): seq<(int, byte)>
    decreases |data|
  {
    if data == [] then [] else [(addr as int, data[0])] + Located(addr + 1, data[1..])
  }

  /** The (address, byte) pairs of a list of segments. */
  function SegmentBytes(s: seq<Segment>): seq<(int, byte)>
  {
    if s == [] then [] else Located(s[0].addr, s[0].data) + SegmentBytes(s[1..])
  }

  /** The (address, byte) pairs that the RAM records of a file load, in file order. */
  function RamBytes(out: seq<Record>): seq<(int, byte)>
  {
    if out == [] then [] else
      var r := out[|out| - 1];
      RamBytes(out[..|out| - 1]) + if r.kind.Ram? then Located(r.addr, r.data) else []
  }

  function FlashSegments(out: seq<Record>): seq<Segment>
  {
    if out == [] then [] else
      var r := out[|out| - 1];
      FlashSegments(out[..|out| - 1]) + if r.kind.Flash? then [Segment(r.addr, r.data)] else []
  }

  function Size(out: seq<Record>): nat
  {
    if out == [] then 0 else Size(out[..|out| - 1]) + RecordSize(out[|out| - 1])
  }

  /** The file offset of record `i`'s header. */
  function Offset(out: seq<Record>, i: nat): nat
    requires i <= |out|
  {
    FILE_HEADER_LEN + Size(out[..i])
  }

  function XorRecords(out: seq<Record>): byte
  {
    if out == [] then 0 else Xor2(XorRecords(out[..|out| - 1]), Xor(out[|out| - 1].data))
  }

  predicate WellFormed(r: Record)
  {
    && Fits(r)
    && (r.kind.Filler? ==> r.addr == 0 && r.data != [] && AllZero(r.data))
  }

  predicate AllWellFormed(out: seq<Record>)
  {
    forall i :: 0 <= i < |out| ==> WellFormed(out[i])
  }

  /** Every flash segment's data starts at a file offset congruent to its address. */
  predicate FlashAligned(out: seq<Record>)
  {
    out == [] ||
    var last := |out| - 1;
    FlashAligned(out[..last]) && (out[last].kind.Flash? ==> Aligned(FILE_HEADER_LEN + Size(out[..last]), out[last].addr))
  }

  lemma {:induction false} FlashAlignedAt(out: seq<Record>, i: nat)
    requires FlashAligned(out) && i < |out| && out[i].kind.Flash?
    ensures Aligned(Offset(out, i), out[i].addr)
  {
    if i == |out| - 1 {
    } else {
      assert out[..|out| - 1][..i] == out[..i];
      FlashAlignedAt(out[..|out| - 1], i);
    }
  }

  // ----- One turn ----------------------------------------------------------------------------

  lemma Appended(out: seq<Record>, r: Record)
    ensures var more := out + [r];
            && RamBytes(more) == RamBytes(out) + (if r.kind.Ram? then Located(r.addr, r.data) else [])
            && FlashSegments(more) == FlashSegments(out) + (if r.kind.Flash? then [Segment(r.addr, r.data)] else [])
            && Size(more) == Size(out) + RecordSize(r)
            && XorRecords(more) == Xor2(XorRecords(out), Xor(r.data))
  {
    assert (out + [r])[..|out|] == out;
  }

  lemma SplitConserves(ram: seq<Segment>, n: nat)
    requires ram != []
    ensures Located(ram[0].addr, Piece(ram[0], n).data) + SegmentBytes(Remaining(ram, n)) == SegmentBytes(ram)
  {
    hide Located, SegmentBytes, Piece, Remaining;
    var s, rest := ram[0], ram[1..];
    PieceIs(ram, n);
    SegmentBytesCons(s, rest);
    assert [s] + rest == ram;
    if n < |s.data| {
      SplitAt(s, rest, n);
    }
  }

  lemma PieceIs(ram: seq<Segment>, n: nat)
    requires ram != []
    ensures var s, rest := ram[0], ram[1..];
            if n < |s.data| then
              Piece(s, n).data == s.data[..n] && Remaining(ram, n) == [Segment(s.addr + n, s.data[n..])] + rest
            else Piece(s, n).data == s.data && Remaining(ram, n) == rest
  {
  }

  lemma SplitAt(s: Segment, rest: seq<Segment>, n: nat)
    requires n < |s.data|
    ensures Located(s.addr, s.data[..n]) + SegmentBytes([Segment(s.addr + n, s.data[n..])] + rest)
            == Located(s.addr, s.data) + SegmentBytes(rest)
  {
    var a, b := Located(s.addr, s.data[..n]), Located(s.addr + n, s.data[n..]);
    SegmentBytesCons(Segment(s.addr + n, s.data[n..]), rest);
    Reassociate(a, b, SegmentBytes(rest));
    assert a + b == Located(s.addr, s.data) by { LocatedSplit(s.addr, s.data, n); }
  }

  lemma SegmentBytesCons(s: Segment, rest: seq<Segment>)
    ensures SegmentBytes([s] + rest) == Located(s.addr, s.data) + SegmentBytes(rest)
  {
    assert ([s] + rest)[1..] == rest;
  }

  lemma {:induction false} LocatedSplit(addr: nat, data: Bytes, n: nat)
    requires n <= |data|
    ensures Located(addr, data[..n]) + Located(addr + n, data[n..]) == Located(addr, data)
    decreases n
  {
    if n == 0 {
      assert data[..n] == [] && data[n..] == data;
    } else {
      LocatedSplit(addr + 1, data[1..], n - 1);
      assert data[..n][1..] == data[1..][..n - 1] && data[1..][n - 1..] == data[n..];
    }
  }

  lemma SplitKeepsXor(ram: seq<Segment>, n: nat)
    requires ram != []
    ensures Xor2(Xor(Piece(ram[0], n).data), XorSegments(Remaining(ram, n))) == XorSegments(ram)
  {
    var s, rest := ram[0], Remaining(ram, n);
    if n < |s.data| {
      assert rest[1..] == ram[1..];
      assert s.data[..n] + s.data[n..] == s.data;
      XorAppend(s.data[..n], s.data[n..]);
      XorStep(Xor(s.data[..n]), Xor(s.data[n..]), XorSegments(ram[1..]));
    }
  }

  /** What is to be written, and the invariant that relates it to what has been. */
  ghost predicate Consistent(p: Packer, flash: seq<Segment>, ram: seq<Segment>)
  {
    && FlashSegments(p.out) + p.flash == flash
    && RamBytes(p.out) + SegmentBytes(p.ram) == SegmentBytes(ram)
    && AllWellFormed(p.out)
    && FlashAligned(p.out)
    && p.pos == FILE_HEADER_LEN + Size(p.out)
  }

  lemma FillerWellFormed(need: nat)
    requires 0 < need < WORD - 4
    ensures WellFormed(Record(Filler, 0, PadTo4(Zeros(need))))
  {
    PadTo4OfZeros(need);
  }

  /** Writing one record keeps the invariant if the record takes over what left the lists. */
  lemma EmitConsistent(p: Packer, r: Record, flash': seq<Segment>, ram': seq<Segment>,
                       flash: seq<Segment>, ram: seq<Segment>)
    requires Consistent(p, flash, ram) && WellFormed(r)
    requires p.flash == (if r.kind.Flash? then [Segment(r.addr, r.data)] else []) + flash'
    requires SegmentBytes(p.ram) == (if r.kind.Ram? then Located(r.addr, r.data) else []) + SegmentBytes(ram')
    requires r.kind.Flash? ==> Aligned(p.pos, r.addr)
    ensures Consistent(Packer(flash', ram', p.pos + RecordSize(r), p.out + [r]), flash, ram)
  {
    Appended(p.out, r);
    assert (p.out + [r])[..|p.out|] == p.out;
    var f := if r.kind.Flash? then [Segment(r.addr, r.data)] else [];
    var b := if r.kind.Ram? then Located(r.addr, r.data) else [];
    Reassociate(FlashSegments(p.out), f, flash');
    Reassociate(RamBytes(p.out), b, SegmentBytes(ram'));
  }

  lemma PlaceConsistent(p: Packer, flash: seq<Segment>, ram: seq<Segment>)
    requires Consistent(p, flash, ram) && p.flash != []
    requires var r := Record(Flash, p.flash[0].addr, p.flash[0].data); WellFormed(r) && Aligned(p.pos, r.addr)
    ensures var r := Record(Flash, p.flash[0].addr, p.flash[0].data);
            Consistent(Packer(p.flash[1..], p.ram, p.pos + RecordSize(r), p.out + [r]), flash, ram)
  {
    var seg := p.flash[0];
    assert p.flash == [Segment(seg.addr, seg.data)] + p.flash[1..];
    EmitConsistent(p, Record(Flash, seg.addr, seg.data), p.flash[1..], p.ram, flash, ram);
  }

  lemma SplitConsistent(p: Packer, n: nat, flash: seq<Segment>, ram: seq<Segment>)
    requires Consistent(p, flash, ram) && p.ram != [] && WellFormed(Piece(p.ram[0], n))
    ensures var r := Piece(p.ram[0], n);
            Consistent(Packer(p.flash, Remaining(p.ram, n), p.pos + RecordSize(r), p.out + [r]), flash, ram)
  {
    SplitConserves(p.ram, n);
    EmitConsistent(p, Piece(p.ram[0], n), p.flash, Remaining(p.ram, n), flash, ram);
  }

  lemma StepConsistent(p: Packer, flash: seq<Segment>, ram: seq<Segment>)
    requires !Finished(p) && Step(p).Ok?
    requires Consistent(p, flash, ram)
    ensures Consistent(Step(p).value, flash, ram)
  {
    if p.flash == [] {
      SplitConsistent(p, |p.ram[0].data|, flash, ram);
    } else {
      var need := PadNeeded(p.pos, p.flash[0].addr);
      if need == 0 {
        PlaceConsistent(p, flash, ram);
      } else if p.ram != [] && need > SEG_HEADER_LEN {
        SplitConsistent(p, need, flash, ram);
      } else {
        FillerWellFormed(need);
        EmitConsistent(p, Record(Filler, 0, PadTo4(Zeros(need))), p.flash, p.ram, flash, ram);
      }
    }
  }

  /** The exclusive or of everything, written or still to be written. */
  function Total(p: Packer): byte
  {
    Xor2(XorRecords(p.out), Xor2(XorSegments(p.flash), XorSegments(p.ram)))
  }

  lemma EmitKeepsTotal(p: Packer, r: Record, flash': seq<Segment>, ram': seq<Segment>)
    requires Xor2(Xor(r.data), Xor2(XorSegments(flash'), XorSegments(ram'))) == Xor2(XorSegments(p.flash), XorSegments(p.ram))
    ensures Total(Packer(flash', ram', p.pos + RecordSize(r), p.out + [r])) == Total(p)
  {
    Appended(p.out, r);
    XorStep(XorRecords(p.out), Xor(r.data), Xor2(XorSegments(flash'), XorSegments(ram')));
  }

  lemma XorSwap(a: byte, b: byte, c: byte)
    ensures Xor2(a, Xor2(b, c)) == Xor2(b, Xor2(a, c))
  {
    XorStep(a, b, c);
    XorCommutes(a, b);
    XorStep(b, a, c);
  }

  lemma StepKeepsTotal(p: Packer)
    requires !Finished(p) && Step(p).Ok?
    ensures Total(Step(p).value) == Total(p)
  {
    var f, m := XorSegments(p.flash), XorSegments(p.ram);
    if p.flash == [] {
      var r := Record(Ram, p.ram[0].addr, p.ram[0].data);
      XorSwap(Xor(r.data), 0, XorSegments(p.ram[1..]));
      EmitKeepsTotal(p, r, p.flash, p.ram[1..]);
    } else {
      var seg := p.flash[0];
      var need := PadNeeded(p.pos, seg.addr);
      if need == 0 {
        XorStep(Xor(seg.data), XorSegments(p.flash[1..]), m);
        EmitKeepsTotal(p, Record(Flash, seg.addr, seg.data), p.flash[1..], p.ram);
      } else if p.ram != [] && need > SEG_HEADER_LEN {
        SplitKeepsXor(p.ram, need);
        XorSwap(Xor(Piece(p.ram[0], need).data), f, XorSegments(Remaining(p.ram, need)));
        EmitKeepsTotal(p, Piece(p.ram[0], need), p.flash, Remaining(p.ram, need));
      } else {
        var r := Record(Filler, 0, PadTo4(Zeros(need)));
        PadTo4OfZeros(need);
        XorZeros(r.data);
        XorZero(Xor2(f, m));
        EmitKeepsTotal(p, r, p.flash, p.ram);
      }
    }
  }

  // ----- Whole runs --------------------------------------------------------------------------

  /** The invariant holds in every state that the loop reaches. */
  lemma {:induction false} TurnsConsistent(p: Packer, n: nat, flash: seq<Segment>, ram: seq<Segment>)
    requires Consistent(p, flash, ram) && Turns(p, n).Ok?
    ensures Consistent(Turns(p, n).value, flash, ram)
    decreases n
  {
    hide Consistent, Step;
    if n == 0 || Finished(p) {
    } else {
      StepConsistent(p, flash, ram);
      TurnsConsistent(Step(p).value, n - 1, flash, ram);
    }
  }

  lemma {:induction false} TurnsKeepTotal(p: Packer, n: nat)
    requires Turns(p, n).Ok?
    ensures Total(Turns(p, n).value) == Total(p)
    decreases n
  {
    hide Total, Step;
    if n == 0 || Finished(p) {
    } else {
      StepKeepsTotal(p);
      TurnsKeepTotal(Step(p).value, n - 1);
    }
  }

  lemma PackConsistent(p: Packer, flash: seq<Segment>, ram: seq<Segment>)
    requires Ends(p) && Consistent(p, flash, ram) && Pack(p).Ok?
    ensures FlashSegments(Pack(p).value) == flash
    ensures RamBytes(Pack(p).value) == SegmentBytes(ram)
    ensures AllWellFormed(Pack(p).value) && FlashAligned(Pack(p).value)
  {
    hide Pack, Turns;
    var n: nat :| Done(p, n);
    PackIs(p, n);
    TurnsConsistent(p, n, flash, ram);
  }

  lemma PackKeepsTotal(p: Packer)
    requires Ends(p) && Pack(p).Ok?
    ensures XorRecords(Pack(p).value) == Total(p)
  {
    hide Pack, Turns, Xor2, XorRecords;
    var n: nat :| Done(p, n);
    PackIs(p, n);
    TurnsKeepTotal(p, n);
    XorZero(0);
    XorZero(XorRecords(Pack(p).value));
  }

  // ----- When the loop asserts -----------------------------------------------------------------

  predicate AtGapEight(p: Packer, n: nat)
  {
    var r := Turns(p, n);
    r.Ok? && r.value.flash != [] && Gap(r.value.pos, r.value.flash[0].addr) == SEG_HEADER_LEN
  }

  /** On any input the source's assertion fails exactly on the runs that reach a gap of 8. */
  lemma AssertsIffGapEight(p: Packer)
    ensures (exists n: nat :: Turns(p, n) == Err(AssertionError)) <==> exists n: nat :: AtGapEight(p, n)
  {
    if n: nat :| Turns(p, n) == Err(AssertionError) {
      var m := AssertsAtGapEight(p, n);
      assert AtGapEight(p, m);
    }
    if n: nat :| AtGapEight(p, n) {
      GapEightAsserts(p, n);
    }
  }

  lemma {:induction false} AssertsAtGapEight(p: Packer, n: nat) returns (m: nat)
    requires Turns(p, n) == Err(AssertionError)
    ensures AtGapEight(p, m)
    decreases n
  {
    if Step(p).Err? {
      m := 0;
      NoPaddingButUnaligned(p.pos, p.flash[0].addr);
    } else {
      m := AssertsAtGapEight(Step(p).value, n - 1);
      m := m + 1;
    }
  }

  lemma {:induction false} GapEightAsserts(p: Packer, n: nat)
    requires AtGapEight(p, n)
    ensures Turns(p, n + 1) == Err(AssertionError)
    decreases n
  {
    if p.flash != [] {
      NoPaddingButUnaligned(p.pos, p.flash[0].addr);
    }
    if n == 0 {
      assert Step(p) == Err(AssertionError);
    } else {
      GapEightAsserts(Step(p).value, n - 1);
    }
  }

  /** It does fail: a RAM segment that ends 16 bytes short of a 64 KB boundary, before a flash
      segment at the start of a page. */
  lemma AssertionCanFail() returns (p: Packer)
    ensures Packable(p) && p.pos == FILE_HEADER_LEN && p.out == []
    ensures |p.flash| == 1 && IsFlash(p.flash[0].addr) && |p.ram| == 1 && !IsFlash(p.ram[0].addr)
    ensures Ends(p) && Pack(p) == Err(AssertionError)
  {
    p := Packer([Segment(0x3F40_0000, Zeros(4))], [Segment(0x3FFB_0000, Zeros(65488))], FILE_HEADER_LEN, []);
    var p' := Step(p).value;
    assert p' == Packer(p.flash, [], 65520, [Record(Ram, 0x3FFB_0000, Zeros(65488))]);
    assert Step(p') == Err(AssertionError);
    assert Turns(p, 2) == Turns(p', 1) == Err(AssertionError);
    PackIs(p, 2);
  }
}
