/**
 ESP32 firmware images: how `ESP32FirmwareImage.save` lays segments out in a file, and how the
 constructor reads such a file back.
 */
module FirmwareImage {
  import opened Common

  const IROM_ALIGN: int := 65536
  const SEG_HEADER_LEN: int := 8
  const FILE_HEADER_LEN: nat := 24
  const IMAGE_MAGIC: byte := 0xE9
  const CHECKSUM_MAGIC: byte := 0xEF

  // ----- Segments --------------------------------------------------------------------------

  datatype Segment = Segment(addr: nat, data: Bytes)

  /** `pad_to(data, 4, b'\x00')` */
  function PadTo4(data: Bytes): (r: Bytes)
    ensures |r| % 4 == 0 && |data| <= |r| < |data| + 4
    ensures |data| % 4 == 0 ==> r == data
    ensures r[..|data|] == data && forall i :: |data| <= i < |r| ==> r[i] == 0
  {
    var over := |data| % 4;
    if over == 0 then data else data + Zeros(4 - over)
  }

  lemma PadTo4OfZeros(n: nat)
    ensures AllZero(PadTo4(Zeros(n)))
  {
    ZerosAreZero(n);
    ZerosAreZero(4 - n % 4);
  }

  /** What the constructor of `ImageSegment` guarantees. */
  predicate Padded(s: Segment)
  {
    |s.data| % 4 == 0
  }

  predicate IsFlash(addr: nat)
  {
    0x400D_0000 <= addr < 0x4040_0000 || 0x3F40_0000 <= addr < 0x3F80_0000
  }

  /** Instruction and data flash, and nothing just outside. */
  lemma FlashRanges()
    ensures IsFlash(0x400D0000) && IsFlash(0x403FFFFF) && !IsFlash(0x400CFFFF) && !IsFlash(0x40400000)
    ensures IsFlash(0x3F400000) && IsFlash(0x3F7FFFFF) && !IsFlash(0x3F3FFFFF) && !IsFlash(0x3F800000)
  {
  }

  function Addr(s: Segment): int
  {
    s.addr
  }

  function Select(s: seq<Segment>, flash: bool): seq<Segment>
  {
    if s == [] then [] else
      (if IsFlash(s[0].addr) == flash then [s[0]] else []) + Select(s[1..], flash)
  }

  // ----- Checksums -------------------------------------------------------------------------

  /** Exclusive or of the low `bits` bits. */
  function XorBits(a: nat, b: nat, bits: nat): nat
  {
    if bits == 0 then 0 else (if a % 2 == b % 2 then 0 else 1) + 2 * XorBits(a / 2, b / 2, bits - 1)
  }

  lemma {:induction false} XorBitsRange(a: nat, b: nat, bits: nat, bound: nat)
    requires bound == Pow2(bits)
    ensures XorBits(a, b, bits) < bound
  {
    if bits == 0 {
    } else {
      XorBitsRange(a / 2, b / 2, bits - 1, Pow2(bits - 1));
    }
  }

  function Pow2(n: nat): nat
  {
    if n == 0 then 1 else 2 * Pow2(n - 1)
  }

  function Xor2(a: byte, b: byte): byte
  {
    assert Pow2(8) == 0x100;
    XorBitsRange(a, b, 8, 0x100);
    XorBits(a, b, 8)
  }

  lemma {:induction false} XorBitsAssociates(a: nat, b: nat, c: nat, bits: nat)
    ensures XorBits(XorBits(a, b, bits), c, bits) == XorBits(a, XorBits(b, c, bits), bits)
  {
    if bits == 0 {
    } else {
      var ab, bc := XorBits(a, b, bits), XorBits(b, c, bits);
      XorBitsUnfold(a, b, bits, ab);
      XorBitsUnfold(b, c, bits, bc);
      XorBitsUnfold(ab, c, bits, XorBits(ab, c, bits));
      XorBitsUnfold(a, bc, bits, XorBits(a, bc, bits));
      XorBitsAssociates(a / 2, b / 2, c / 2, bits - 1);
      SameBits(XorBits(ab, c, bits), XorBits(a, bc, bits));
    }
  }

  lemma SameBits(a: nat, b: nat)
    requires a / 2 == b / 2 && (a % 2 == 0 <==> b % 2 == 0)
    ensures a == b
  {
  }

  lemma XorBitsUnfold(a: nat, b: nat, bits: nat, r: nat)
    requires bits > 0 && r == XorBits(a, b, bits)
    ensures (r % 2 == 0 <==> a % 2 == b % 2) && r / 2 == XorBits(a / 2, b / 2, bits - 1)
  {
  }

  lemma {:induction false} XorBitsCommutes(a: nat, b: nat, bits: nat)
    ensures XorBits(a, b, bits) == XorBits(b, a, bits)
  {
    if bits == 0 {
    } else {
      XorBitsCommutes(a / 2, b / 2, bits - 1);
    }
  }

  lemma {:induction false} XorBitsZero(a: nat, bits: nat)
    requires a < Pow2(bits)
    ensures XorBits(a, 0, bits) == a
  {
    if bits == 0 {
    } else {
      XorBitsZero(a / 2, bits - 1);
    }
  }

  function Bit(n: nat, k: nat): bool
  {
    if k == 0 then n % 2 == 1 else Bit(n / 2, k - 1)
  }

  lemma {:induction false} XorBitsAt(a: nat, b: nat, bits: nat, k: nat)
    requires k < bits
    ensures Bit(XorBits(a, b, bits), k) <==> Bit(a, k) != Bit(b, k)
    decreases k
  {
    XorBitsUnfold(a, b, bits, XorBits(a, b, bits));
    if k == 0 {
    } else {
      XorBitsAt(a / 2, b / 2, bits - 1, k - 1);
    }
  }

  /** `^` on bytes: a bit is set where exactly one of the two has it. */
  lemma XorAt(a: byte, b: byte, k: nat)
    requires k < 8
    ensures Bit(Xor2(a, b), k) <==> Bit(a, k) != Bit(b, k)
  {
    XorBitsAt(a, b, 8, k);
  }

  lemma XorStep(a: byte, b: byte, c: byte)
    ensures Xor2(Xor2(a, b), c) == Xor2(a, Xor2(b, c))
  {
    XorBitsAssociates(a, b, c, 8);
  }

  lemma XorCommutes(a: byte, b: byte)
    ensures Xor2(a, b) == Xor2(b, a)
  {
    XorBitsCommutes(a, b, 8);
  }

  lemma XorZero(a: byte)
    ensures Xor2(a, 0) == a == Xor2(0, a)
  {
    assert Pow2(8) == 0x100;
    XorBitsZero(a, 8);
    XorCommutes(a, 0);
  }

  function Xor(data: Bytes): byte
  {
    if data == [] then 0 else Xor2(data[0], Xor(data[1..]))
  }

  /** `ESPLoader.checksum` */
  method Checksum(data: Bytes, state: byte) returns (r: byte)
    ensures r == Xor2(state, Xor(data))
  {
    r := state;
    for i := 0 to |data|
      invariant Xor2(r, Xor(data[i..])) == Xor2(state, Xor(data))
    {
      assert data[i..][1..] == data[i + 1..];
      XorStep(r, data[i], Xor(data[i + 1..]));
      r := Xor2(r, data[i]);
    }
    XorZero(r);
  }

  lemma {:induction false} XorAppend(a: Bytes, b: Bytes)
    ensures Xor(a + b) == Xor2(Xor(a), Xor(b))
  {
    if a == [] {
      assert a + b == b;
      XorZero(Xor(b));
    } else {
      assert (a + b)[1..] == a[1..] + b;
      XorAppend(a[1..], b);
      XorStep(a[0], Xor(a[1..]), Xor(b));
    }
  }

  lemma {:induction false} XorZeros(a: Bytes)
    requires AllZero(a)
    ensures Xor(a) == 0
  {
    if a == [] {
    } else {
      XorZeros(a[1..]);
      XorZero(0);
    }
  }

  function XorSegments(s: seq<Segment>): byte
  {
    if s == [] then 0 else Xor2(Xor(s[0].data), XorSegments(s[1..]))
  }

  /** `calculate_checksum`, over segments in any list. */
  function CalculateChecksum(s: seq<Segment>): byte
  {
    Xor2(CHECKSUM_MAGIC, XorSegments(s))
  }

  // ----- The packing loop ------------------------------------------------------------------

  datatype Kind = Flash | Ram | Filler

  datatype Record = Record(kind: Kind, addr: nat, data: Bytes)

  datatype SaveError = SameMapping | AssertionError | OutOfRange

  /** The locals of the packing loop: what is left to write, the file position, what was written. */
  datatype Packer = Packer(flash: seq<Segment>, ram: seq<Segment>, pos: nat, out: seq<Record>)

  /** `pad_len` as first computed: the distance to the header position the segment needs. */
  function Gap(pos: nat, addr: nat): int
  {
    IROM_ALIGN - pos % IROM_ALIGN + (addr % IROM_ALIGN - SEG_HEADER_LEN)
  }

  /** `get_alignment_data_needed` */
  function PadNeeded(pos: nat, addr: nat): nat
  {
    var gap := Gap(pos, addr);
    if gap == 0 || gap == IROM_ALIGN then 0
    else if gap - SEG_HEADER_LEN < 0 then gap - SEG_HEADER_LEN + IROM_ALIGN
    else gap - SEG_HEADER_LEN
  }

  predicate Aligned(pos: nat, addr: nat)
  {
    (pos + SEG_HEADER_LEN) % IROM_ALIGN == addr % IROM_ALIGN
  }

  function RecordSize(r: Record): nat
  {
    SEG_HEADER_LEN + |r.data|
  }

  /** `struct.pack('<II', …)` accepts the record's header. */
  predicate Fits(r: Record)
  {
    r.addr < WORD && |r.data| < WORD
  }

  /** `split_image`: the piece taken from the front, and what stays. */
  function Piece(s: Segment, n: nat): Record
  {
    Record(Ram, s.addr, if n < |s.data| then s.data[..n] else s.data)
  }

  function Remaining(ram: seq<Segment>, n: nat): seq<Segment>
    requires ram != []
  {
    if n < |ram[0].data| then [Segment(ram[0].addr + n, ram[0].data[n..])] + ram[1..] else ram[1..]
  }

  predicate Finished(p: Packer)
  {
    p.flash == [] && p.ram == []
  }

  datatype Choice = Choice(record: Record, flash: seq<Segment>, ram: seq<Segment>)

  /** The record written next, and what it leaves: padding or a flash segment while there are flash
      segments to place, then whatever RAM is left. */
  function Choose(pos: nat, flash: seq<Segment>, ram: seq<Segment>): Result<Choice, SaveError>
    requires flash != [] || ram != []
  {
    if flash == [] then
      Ok(Choice(Record(Ram, ram[0].addr, ram[0].data), [], ram[1..]))
    else
      var seg := flash[0];
      var need := PadNeeded(pos, seg.addr);
      if need > 0 then
        if ram != [] && need > SEG_HEADER_LEN then
          Ok(Choice(Piece(ram[0], need), flash, Remaining(ram, need)))
        else
          Ok(Choice(Record(Filler, 0, PadTo4(Zeros(need))), flash, ram))
      else if Aligned(pos, seg.addr) then
        Ok(Choice(Record(Flash, seg.addr, seg.data), flash[1..], ram))
      else
        Err(AssertionError)
  }

  /** One turn of the loops that write segments. */
  function Step(p: Packer): Result<Packer, SaveError>
    requires !Finished(p)
  {
    match Choose(p.pos, p.flash, p.ram)
    case Err(e) => Err(e)
    case Ok(Choice(r, flash, ram)) =>
      if Fits(r) then Ok(Packer(flash, ram, p.pos + RecordSize(r), p.out + [r])) else Err(OutOfRange)
  }

  /** Everything the loop handles is a multiple of 4. */
  predicate Packable(p: Packer)
  {
    && p.pos % 4 == 0
    && (forall i :: 0 <= i < |p.flash| ==> p.flash[i].addr % 4 == 0 && Padded(p.flash[i]))
    && (forall i :: 0 <= i < |p.ram| ==> Padded(p.ram[i]))
  }

  function Misaligned(p: Packer): nat
  {
    if p.flash != [] && PadNeeded(p.pos, p.flash[0].addr) > 0 then 1 else 0
  }

  // ----- Arithmetic of alignment -------------------------------------------------------------

  /** The helper answers "no padding" for an unaligned position in exactly one case: a gap of 8. */
  lemma NoPaddingButUnaligned(pos: nat, addr: nat)
    ensures PadNeeded(pos, addr) == 0 && !Aligned(pos, addr) <==> Gap(pos, addr) == SEG_HEADER_LEN
  {
    AlignedGap(pos, addr);
  }

  lemma AlignedGap(pos: nat, addr: nat)
    ensures Aligned(pos, addr) <==> Gap(pos, addr) == 0 || Gap(pos, addr) == IROM_ALIGN
  {
    var q, a := pos % IROM_ALIGN, addr % IROM_ALIGN;
    assert pos == IROM_ALIGN * (pos / IROM_ALIGN) + q;
    if q + SEG_HEADER_LEN < IROM_ALIGN {
      assert (pos + SEG_HEADER_LEN) % IROM_ALIGN == q + SEG_HEADER_LEN;
    } else {
      assert (pos + SEG_HEADER_LEN) % IROM_ALIGN == q + SEG_HEADER_LEN - IROM_ALIGN;
    }
  }

  /** A record of exactly the padding asked for leaves the segment aligned. */
  lemma PaddingAligns(pos: nat, addr: nat)
    requires PadNeeded(pos, addr) > 0
    ensures Aligned(pos + SEG_HEADER_LEN + PadNeeded(pos, addr), addr)
    ensures PadNeeded(pos + SEG_HEADER_LEN + PadNeeded(pos, addr), addr) == 0
  {
    var next := pos + SEG_HEADER_LEN + PadNeeded(pos, addr);
    var k := if Gap(pos, addr) < SEG_HEADER_LEN then 2 else 1;
    assert next + SEG_HEADER_LEN == pos - pos % IROM_ALIGN + k * IROM_ALIGN + addr % IROM_ALIGN;
    AlignedGap(next, addr);
  }

  lemma PadNeededMod4(pos: nat, addr: nat)
    ensures PadNeeded(pos, addr) % 4 == 0 <==> pos % 4 == addr % 4
  {
    var gap := Gap(pos, addr);
    var need := PadNeeded(pos, addr);
    BlockMod4(pos);
    BlockMod4(addr);
    assert gap == addr % IROM_ALIGN - pos % IROM_ALIGN + 4 * 16382;
    assert need == 0 || need == gap - 4 * 2 || need == gap + 4 * 16382;
  }

  lemma BlockMod4(x: nat)
    ensures x % IROM_ALIGN % 4 == x % 4
  {
    assert x == x % IROM_ALIGN + 4 * (16384 * (x / IROM_ALIGN));
  }

  // ----- Whole runs --------------------------------------------------------------------------

  lemma RemainingPadded(ram: seq<Segment>, n: nat)
    requires ram != [] && n % 4 == 0
    requires forall i :: 0 <= i < |ram| ==> Padded(ram[i])
    ensures forall i :: 0 <= i < |Remaining(ram, n)| ==> Padded(Remaining(ram, n)[i])
    ensures |Piece(ram[0], n).data| % 4 == 0
  {
    assert Padded(ram[0]);
  }

  /** A turn keeps everything a multiple of 4. */
  lemma StepPackable(p: Packer)
    requires Packable(p) && !Finished(p) && Step(p).Ok?
    ensures Packable(Step(p).value)
  {
    hide Choose;
    ChoicePadded(p);
    var r := Choose(p.pos, p.flash, p.ram).value.record;
    assert (p.pos + RecordSize(r)) % 4 == 0;
  }

  lemma ChoicePadded(p: Packer)
    requires Packable(p) && !Finished(p) && Choose(p.pos, p.flash, p.ram).Ok?
    ensures var c := Choose(p.pos, p.flash, p.ram).value;
            && |c.record.data| % 4 == 0
            && (forall i :: 0 <= i < |c.flash| ==> c.flash[i].addr % 4 == 0 && Padded(c.flash[i]))
            && (forall i :: 0 <= i < |c.ram| ==> Padded(c.ram[i]))
  {
    if p.flash == [] {
      assert Padded(p.ram[0]);
    } else {
      var need := PadNeeded(p.pos, p.flash[0].addr);
      PadNeededMod4(p.pos, p.flash[0].addr);
      if need > SEG_HEADER_LEN && p.ram != [] {
        RemainingPadded(p.ram, need);
      } else {
        assert Padded(p.flash[0]);
      }
    }
  }

  /** A turn makes progress: a flash segment or a RAM segment is used up, or the next flash segment
      becomes aligned. */
  lemma StepProgresses(p: Packer)
    requires Packable(p) && !Finished(p) && Step(p).Ok?
    ensures Packable(Step(p).value)
    ensures var p' := Step(p).value;
            || |p'.flash| < |p.flash|
            || (|p'.flash| == |p.flash| && |p'.ram| < |p.ram|)
            || (|p'.flash| == |p.flash| && |p'.ram| == |p.ram| && Misaligned(p') < Misaligned(p))
  {
    StepPackable(p);
    if p.flash != [] {
      var need := PadNeeded(p.pos, p.flash[0].addr);
      PadNeededMod4(p.pos, p.flash[0].addr);
      if need > 0 {
        PaddingAligns(p.pos, p.flash[0].addr);
        StepPads(p, need);
      }
    }
  }

  /** Unless it uses up a RAM segment, a padding turn writes exactly the padding asked for. */
  lemma StepPads(p: Packer, need: nat)
    requires p.flash != [] && need == PadNeeded(p.pos, p.flash[0].addr) > 0 && need % 4 == 0
    requires Step(p).Ok?
    ensures var p' := Step(p).value;
            p'.flash == p.flash && (|p'.ram| < |p.ram| || (|p'.ram| == |p.ram| && p'.pos == p.pos + SEG_HEADER_LEN + need))
  {
  }

  /** At most `n` turns of the packing loop. */
  function Turns(p: Packer, n: nat): Result<Packer, SaveError>
    decreases n
  {
    if n == 0 || Finished(p) then Ok(p) else
      match Step(p)
      case Err(e) => Err(e)
      case Ok(p') => Turns(p', n - 1)
  }

  predicate Done(p: Packer, n: nat)
  {
    var r := Turns(p, n);
    r.Err? || Finished(r.value)
  }

  /** The loop ends, with everything written or with an exception. */
  ghost predicate Ends(p: Packer)
  {
    exists n: nat :: Done(p, n)
  }

  function Outcome(r: Result<Packer, SaveError>): Result<seq<Record>, SaveError>
  {
    match r
    case Err(e) => Err(e)
    case Ok(p) => Ok(p.out)
  }

  /** The packing loop, run to its end: the records written, or the exception raised. */
  ghost function Pack(p: Packer): Result<seq<Record>, SaveError>
    requires Ends(p)
  {
    var n: nat :| Done(p, n);
    Outcome(Turns(p, n))
  }

  /** Further turns change nothing once the loop is done. */
  lemma {:induction false} DoneStays(p: Packer, n: nat, m: nat)
    requires Done(p, n) && n <= m
    ensures Turns(p, m) == Turns(p, n)
    decreases n
  {
    if n == 0 || Finished(p) || Step(p).Err? {
    } else {
      DoneStays(Step(p).value, n - 1, m - 1);
    }
  }

  lemma PackIs(p: Packer, n: nat)
    requires Done(p, n)
    ensures Ends(p) && Pack(p) == Outcome(Turns(p, n))
  {
    hide Done, Turns;
    var m: nat :| Done(p, m) && Pack(p) == Outcome(Turns(p, m));
    if m <= n {
      DoneStays(p, m, n);
    } else {
      DoneStays(p, n, m);
    }
  }

  /** A run goes on as a run from the state after its first turn. */
  lemma PackStep(p: Packer, n: nat)
    requires Done(p, n)
    ensures Ends(p)
    ensures Finished(p) ==> Pack(p) == Ok(p.out)
    ensures !Finished(p) && Step(p).Err? ==> Pack(p) == Err(Step(p).error)
    ensures !Finished(p) && Step(p).Ok? ==>
              n > 0 && Done(Step(p).value, n - 1) && Ends(Step(p).value) && Pack(Step(p).value) == Pack(p)
  {
    hide Pack, Step;
    PackIs(p, n);
    if !Finished(p) && Step(p).Ok? {
      PackIs(Step(p).value, n - 1);
    }
  }
}
