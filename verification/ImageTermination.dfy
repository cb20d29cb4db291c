/** When the packing loop of `save` ends. */
module ImageTermination {
  import opened Common
  import opened FirmwareImage

  // ----- Turns that do not end -------------------------------------------------------------------

  /** RAM is used up, and the file position and the next flash segment's address differ modulo 4. */
  predicate Stuck(p: Packer)
  {
    p.ram == [] && p.flash != [] && p.pos % 4 != p.flash[0].addr % 4
  }

  /** Stuck, the loop writes filler after filler and never places the segment. */
  lemma {:induction false} FillsForever(p: Packer, n: nat)
    requires Stuck(p)
    ensures Turns(p, n).Ok? && Turns(p, n).value.flash == p.flash
    decreases n
  {
    if n == 0 {
    } else {
      FillerMissesAgain(p.pos, p.flash[0].addr);
      FillsForever(Step(p).value, n - 1);
    }
  }

  lemma FillerMissesAgain(pos: nat, addr: nat)
    requires pos % 4 != addr % 4
    ensures PadNeeded(pos, addr) > 0
    ensures (pos + RecordSize(Record(Filler, 0, PadTo4(Zeros(PadNeeded(pos, addr)))))) % 4 != addr % 4
  {
    PadNeededMod4(pos, addr);
  }

  predicate StuckAt(p: Packer, n: nat)
  {
    Turns(p, n).Ok? && Stuck(Turns(p, n).value)
  }

  /** A run that gets stuck does not end. */
  lemma {:induction false} StuckNeverDone(p: Packer, n: nat, m: nat)
    requires StuckAt(p, n)
    ensures !Done(p, m)
    decreases n
  {
    hide Step;
    if n == 0 || Finished(p) {
      FillsForever(p, m);
    } else if m == 0 {
    } else {
      StuckNeverDone(Step(p).value, n - 1, m - 1);
    }
  }

  // ----- Turns that do ---------------------------------------------------------------------------

  /** How far the next flash segment is from being placed: it is aligned; it needs more than a header's worth
      of padding; or it needs less, which filler may overshoot. */
  function Stage(p: Packer): nat
  {
    if p.flash == [] then 0
    else
      var need := PadNeeded(p.pos, p.flash[0].addr);
      if need == 0 then 0 else if need > SEG_HEADER_LEN then 1 else 2
  }

  /** Less is left to do. */
  predicate Before(p': Packer, p: Packer)
  {
    || |p'.flash| < |p.flash|
    || (|p'.flash| == |p.flash| && |p'.ram| < |p.ram|)
    || (|p'.flash| == |p.flash| && |p'.ram| == |p.ram| && Stage(p') < Stage(p))
  }

  /** Short filler for a short gap either fits or overshoots by less than 4, and then the next gap is long. */
  lemma ShortFiller(pos: nat, addr: nat)
    requires 0 < PadNeeded(pos, addr) <= SEG_HEADER_LEN
    ensures var need := PadNeeded(pos, addr);
            var next := pos + SEG_HEADER_LEN + |PadTo4(Zeros(need))|;
            if need % 4 == 0 then PadNeeded(next, addr) == 0 else PadNeeded(next, addr) > SEG_HEADER_LEN
  {
    PaddingAligns(pos, addr);
    var need := PadNeeded(pos, addr);
    var target := pos + SEG_HEADER_LEN + need;
    if need % 4 != 0 {
      Overshoots(target, |PadTo4(Zeros(need))| - need, addr);
    }
  }

  lemma Overshoots(pos: nat, over: nat, addr: nat)
    requires Aligned(pos, addr) && 0 < over < 4
    ensures PadNeeded(pos + over, addr) > SEG_HEADER_LEN
  {
    AlignedGap(pos, addr);
    var q := pos % IROM_ALIGN;
    assert pos + over == IROM_ALIGN * (pos / IROM_ALIGN) + q + over;
  }

  /** A turn that is not stuck makes progress. */
  lemma TurnProgresses(p: Packer)
    requires !Finished(p) && Step(p).Ok? && !Stuck(p)
    ensures Before(Step(p).value, p)
  {
    if p.flash != [] {
      var addr := p.flash[0].addr;
      var need := PadNeeded(p.pos, addr);
      PadNeededMod4(p.pos, addr);
      if need > 0 {
        PaddingAligns(p.pos, addr);
        if p.ram != [] && need <= SEG_HEADER_LEN {
          ShortFiller(p.pos, addr);
        }
      }
    }
  }

  lemma {:induction false} EndsUnlessStuck(p: Packer)
    requires forall n: nat :: !StuckAt(p, n)
    ensures Ends(p)
    decreases |p.flash|, |p.ram|, Stage(p)
  {
    hide Step, Stuck, Stage;
    assert !StuckAt(p, 0);
    if Finished(p) {
      assert Done(p, 0);
    } else if Step(p).Err? {
      assert Done(p, 1) by { StepErrs(p); }
    } else {
      var q := Step(p).value;
      TurnProgresses(p);
      forall n: nat ensures !StuckAt(q, n) {
        assert !StuckAt(p, n + 1);
      }
      EndsUnlessStuck(q);
      var n: nat :| Done(q, n);
      assert Done(p, n + 1);
    }
  }

  lemma StepErrs(p: Packer)
    requires !Finished(p) && Step(p).Err?
    ensures Done(p, 1)
  {
  }

  // ----- Exactly when ----------------------------------------------------------------------------

  /** On any input the loop ends if and only if it never has RAM used up and, with a flash segment left, a
      file position that differs from the segment's address modulo 4. */
  lemma EndsIff(p: Packer)
    ensures Ends(p) <==> forall n: nat :: !StuckAt(p, n)
  {
    hide StuckAt, Done;
    if Ends(p) {
      var m: nat :| Done(p, m);
      forall n: nat ensures !StuckAt(p, n) {
        if StuckAt(p, n) {
          StuckNeverDone(p, n, m);
        }
      }
    } else if forall n: nat :: !StuckAt(p, n) {
      EndsUnlessStuck(p);
    }
  }

  /** In particular, if flash addresses and all sizes are multiples of 4. */
  lemma {:induction false} PackableEnds(p: Packer)
    requires Packable(p)
    ensures Ends(p)
    decreases |p.flash|, |p.ram|, Misaligned(p)
  {
    hide Step;
    if Finished(p) {
      assert Done(p, 0);
    } else if Step(p).Err? {
      assert Done(p, 1) by { StepErrs(p); }
    } else {
      StepProgresses(p);
      PackableEnds(Step(p).value);
      var n: nat :| Done(Step(p).value, n);
      assert Done(p, n + 1);
    }
  }

  /** With RAM left to fill the gap, an unaligned flash address can be placed all the same. */
  lemma UnalignedCanEnd() returns (p: Packer)
    ensures p.flash != [] && p.pos % 4 != p.flash[0].addr % 4 && Ends(p) && Pack(p).Ok?
  {
    p := Packer([Segment(0x3F40_0001, Zeros(4))], [Segment(0x3FFB_0000, Zeros(65536))], FILE_HEADER_LEN, []);
    var need := PadNeeded(p.pos, p.flash[0].addr);
    assert need == 65497;
    var q := Step(p).value;
    assert |q.ram| == 1 && |q.ram[0].data| == 39 && PadNeeded(q.pos, 0x3F40_0001) == 0;
    var r := Step(q).value;
    assert r.flash == [] && |r.ram| == 1;
    var t := Step(r).value;
    assert Finished(t);
    assert Turns(p, 3) == Turns(q, 2) == Turns(r, 1) == Turns(t, 0);
    PackIs(p, 3);
  }
}
