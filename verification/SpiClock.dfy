/** The SPI clock divider: its register, the frequency it gives, and the search for a divider. */
module SpiClock {

  const CPU_CLK_FREQ: nat := 80_000_000
  const CLK_EQU_SYSCLK: nat := 0x8000_0000
  const MIN_FREQ_REG: nat := 0x7FFF_F000
  const MAX_PRE: nat := 0x1FFF
  const MAX_N: nat := 0x3F

  // ----- The register ------------------------------------------------------------------------------

  /** The bit fields of `spiClk_t`, lowest first. */
  datatype Reg = Reg(regL: nat, regH: nat, regN: nat, regPre: nat, regEqu: nat)

  predicate InRange(r: Reg)
  {
    r.regL < 64 && r.regH < 64 && r.regN < 64 && r.regPre < 8192 && r.regEqu < 2
  }

  function Pack(r: Reg): nat
  {
    r.regL + 0x40 * r.regH + 0x1000 * r.regN + 0x4_0000 * r.regPre + 0x8000_0000 * r.regEqu
  }

  function Unpack(value: nat): Reg
  {
    Reg(value % 64, value / 0x40 % 64, value / 0x1000 % 64, value / 0x4_0000 % 8192, value / 0x8000_0000 % 2)
  }

  lemma UnpackPack(r: Reg)
    requires InRange(r)
    ensures Unpack(Pack(r)) == r
  {
    var v := Pack(r);
    assert v / 0x40 == r.regH + 0x40 * r.regN + 0x1000 * r.regPre + 0x200_0000 * r.regEqu;
    assert v / 0x1000 == r.regN + 0x40 * r.regPre + 0x8_0000 * r.regEqu;
    assert v / 0x4_0000 == r.regPre + 0x2000 * r.regEqu;
    assert v / 0x8000_0000 == r.regEqu;
  }

  /** Where the fields are in the register. */
  lemma RegisterBits()
    ensures Unpack(0x8000_0000) == Reg(0, 0, 0, 0, 1) && Unpack(0x7FFF_F000) == Reg(0, 0, 63, 8191, 0)
    ensures Unpack(0x0004_0000) == Reg(0, 0, 0, 1, 0) && Unpack(0x1000) == Reg(0, 0, 1, 0, 0)
    ensures Unpack(0x40) == Reg(0, 1, 0, 0, 0) && Unpack(1) == Reg(1, 0, 0, 0, 0)
  {
  }

  /** `ClkRegToFreq` */
  function Freq(pre: nat, n: nat): nat
  {
    Positive(pre + 1, n + 1);
    CPU_CLK_FREQ / ((pre + 1) * (n + 1))
  }

  lemma Positive(a: nat, b: nat)
    requires a > 0 && b > 0
    ensures a * b > 0
  {
  }

  /** `spiClockDivToFrequency` */
  function ClockDivToFrequency(clockDiv: nat): nat
  {
    var r := Unpack(clockDiv);
    Freq(r.regPre, r.regN)
  }

  // ----- What the best divider is ------------------------------------------------------------------

  predicate Divider(pre: nat, n: nat)
  {
    1 <= n <= MAX_N && pre <= MAX_PRE
  }

  /** The largest frequency not above `freq` that a divider with `1 <= n` gives. */
  ghost predicate IsBest(got: nat, freq: nat)
  {
    && got <= freq
    && (exists pre: nat, n: nat :: Divider(pre, n) && Freq(pre, n) == got)
    && (forall pre: nat, n: nat :: Divider(pre, n) && Freq(pre, n) <= freq ==> Freq(pre, n) <= got)
  }

  // ----- Floor arithmetic --------------------------------------------------------------------------

  lemma MulMonotone(a: nat, b: nat, c: nat)
    requires a <= b
    ensures a * c <= b * c
  {
  }

  /** A floor division is at least `k` exactly when `k` divisors fit. */
  lemma DivIff(x: nat, y: nat, k: nat)
    requires y > 0
    ensures k <= x / y <==> k * y <= x
  {
    var q := x / y;
    assert x == y * q + x % y;
    if k <= q {
      MulMonotone(k, q, y);
    } else {
      MulMonotone(q + 1, k, y);
    }
  }

  /** Dividing twice is dividing by the product. */
  lemma DivDiv(c: nat, a: nat, b: nat)
    requires a > 0 && b > 0
    ensures a * b > 0 && c / (a * b) == c / b / a
  {
    Positive(a, b);
    DivDivAtLeast(c, a, b, c / (a * b));
    DivDivAtLeast(c, a, b, c / b / a);
  }

  lemma DivDivAtLeast(c: nat, a: nat, b: nat, k: nat)
    requires a > 0 && b > 0 && a * b > 0
    ensures k <= c / (a * b) <==> k <= c / b / a
  {
    DivIff(c, a * b, k);
    DivIff(c, b, k * a);
    DivIff(c / b, a, k);
    MulAssociates(k, a, b);
  }

  lemma MulAssociates(a: nat, b: nat, c: nat)
    ensures a * (b * c) == a * b * c
  {
  }

  lemma DivAntitone(x: nat, a: nat, b: nat)
    requires 0 < a <= b
    ensures x / b <= x / a
  {
    DivIff(x, b, x / b);
    MulMonotone(a, b, x / b);
    DivIff(x, a, x / b);
  }

  /** With `q = x / f`: dividing by `q` gives at least `f`, by `q + 1` less than `f`. */
  lemma AroundQuotient(x: nat, f: nat)
    requires f > 0
    ensures x / (x / f + 1) < f
    ensures x / f > 0 ==> x / (x / f) >= f
  {
    var q := x / f;
    DivIff(x, q + 1, f);
    DivIff(x, f, q + 1);
    DivIff(x, f, q);
    if q > 0 {
      DivIff(x, q, f);
    }
  }

  // ----- One value of n ----------------------------------------------------------------------------

  function Clamp(pre: int): nat
  {
    if pre > MAX_PRE then MAX_PRE else if pre <= 0 then 0 else pre
  }

  /** The prescaler tried for an offset. */
  function Tried(freq: nat, n: nat, vari: int): nat
    requires freq > 0
  {
    Clamp(CPU_CLK_FREQ / (n + 1) / freq - 1 + vari)
  }

  lemma FreqNested(pre: nat, n: nat)
    ensures Freq(pre, n) == CPU_CLK_FREQ / (n + 1) / (pre + 1)
  {
    DivDiv(CPU_CLK_FREQ, pre + 1, n + 1);
  }

  /** Whatever a prescaler reaches without passing `freq`, one of the two middle tries reaches too. */
  lemma TriesSuffice(freq: nat, n: nat, pre: nat)
    requires freq > 0 && pre <= MAX_PRE && Freq(pre, n) <= freq
    ensures Freq(pre, n) <= Freq(Tried(freq, n, 0), n) <= freq || Freq(pre, n) <= Freq(Tried(freq, n, 1), n) <= freq
  {
    hide Freq;
    FreqNested(pre, n);
    FreqNested(Tried(freq, n, 0), n);
    FreqNested(Tried(freq, n, 1), n);
    TriesSufficeFor(CPU_CLK_FREQ / (n + 1), freq, pre);
  }

  lemma TriesSufficeFor(x: nat, freq: nat, pre: nat)
    requires freq > 0 && pre <= MAX_PRE && x / (pre + 1) <= freq
    ensures || x / (pre + 1) <= x / (Clamp(x / freq - 1) + 1) <= freq
            || x / (pre + 1) <= x / (Clamp(x / freq) + 1) <= freq
  {
    var q := x / freq;
    AroundQuotient(x, freq);
    if q == 0 {
      DivAntitone(x, 1, pre + 1);
    } else if pre + 1 <= q {
      DivAntitone(x, pre + 1, q);
      if q - 1 > MAX_PRE {
        DivAntitone(x, MAX_PRE + 1, q);
        DivAntitone(x, pre + 1, MAX_PRE + 1);
      }
    } else {
      DivAntitone(x, q + 1, pre + 1);
    }
  }

  // ----- The search --------------------------------------------------------------------------------

  function Abs(x: int): nat
  {
    if x < 0 then -x else x
  }

  /** The fields that do not set the frequency: low for half of the `n + 1` counts, and the divider in use. */
  predicate Shaped(r: Reg)
  {
    r.regL == (r.regN + 1) / 2 && r.regH == 0 && r.regEqu == 0
  }

  /** The register found so far gives the best frequency found so far. */
  ghost predicate Holds(best: Reg, bestFreq: nat, freq: nat)
  {
    && InRange(best) && bestFreq <= freq
    && (bestFreq > 0 ==> Divider(best.regPre, best.regN) && Shaped(best) && Freq(best.regPre, best.regN) == bestFreq)
  }

  /** No divider with `n` below `bound` does better without passing `freq`. */
  ghost predicate Searched(bestFreq: nat, freq: nat, bound: nat)
  {
    forall pre: nat, n: nat :: Divider(pre, n) && n < bound && Freq(pre, n) <= freq ==> Freq(pre, n) <= bestFreq
  }

  /** The tries for one `n` with offsets below `vari`. */
  ghost predicate TriedUpTo(bestFreq: nat, freq: nat, n: nat, vari: int)
    requires freq > 0
  {
    forall v :: -1 <= v <= vari && Freq(Tried(freq, n, v), n) <= freq ==> Freq(Tried(freq, n, v), n) <= bestFreq
  }

  lemma RowSearched(bestFreq: nat, freq: nat, n: nat)
    requires freq > 0 && 1 <= n <= MAX_N
    requires Searched(bestFreq, freq, n) && TriedUpTo(bestFreq, freq, n, 2)
    ensures Searched(bestFreq, freq, n + 1)
  {
    hide Freq, Tried;
    forall pre: nat, m: nat | Divider(pre, m) && m < n + 1 && Freq(pre, m) <= freq ensures Freq(pre, m) <= bestFreq {
      if m == n {
        TriesSuffice(freq, n, pre);
      }
    }
  }

  lemma SlowestDivider(freq: nat)
    requires freq >= 152
    ensures Divider(MAX_PRE, MAX_N) && 0 < Freq(MAX_PRE, MAX_N) <= freq
  {
  }

  /** A try that does not hit `freq` keeps what the search holds, whether or not it is taken over. */
  lemma TryKeeps(best: Reg, bestFreq: nat, freq: nat, n: nat, vari: int, reg: Reg, calFreq: nat)
    requires freq > 0 && 1 <= n <= MAX_N && -2 <= vari <= 1
    requires Holds(best, bestFreq, freq) && Searched(bestFreq, freq, n) && TriedUpTo(bestFreq, freq, n, vari)
    requires reg == Reg((n + 1) / 2, 0, n, Tried(freq, n, vari + 1), 0)
    requires calFreq == Freq(reg.regPre, reg.regN) && calFreq != freq
    ensures var better := calFreq < freq && Abs(freq - calFreq) < Abs(freq - bestFreq);
            var (best', bestFreq') := if better then (reg, calFreq) else (best, bestFreq);
            && Holds(best', bestFreq', freq) && Searched(bestFreq', freq, n)
            && TriedUpTo(bestFreq', freq, n, vari + 1)
  {
    hide Freq;
  }

  lemma NothingTried(freq: nat, n: nat)
    requires freq > 0
    ensures Holds(Reg(0, 0, 0, 0, 0), 0, freq) && Searched(0, freq, 1)
    ensures forall bestFreq: nat :: TriedUpTo(bestFreq, freq, n, -2)
  {
    hide Freq;
  }

  lemma SearchIsBest(best: Reg, bestFreq: nat, freq: nat)
    requires freq >= 152 && Holds(best, bestFreq, freq) && Searched(bestFreq, freq, MAX_N + 1)
    ensures IsBest(ClockDivToFrequency(Pack(best)), freq) && Shaped(Unpack(Pack(best)))
  {
    hide Freq, Pack, Unpack;
    SlowestDivider(freq);
    UnpackPack(best);
  }

  lemma Constants()
    ensures ClockDivToFrequency(MIN_FREQ_REG) == 152 && ClockDivToFrequency(CLK_EQU_SYSCLK) == CPU_CLK_FREQ
  {
  }

  /** `spiFrequencyToClockDiv` */
  method FrequencyToClockDiv(freq: nat) returns (clockDiv: nat)
    ensures freq >= 80_000_000 ==> clockDiv == 0x8000_0000 && ClockDivToFrequency(clockDiv) == 80_000_000
    ensures freq < 152 ==> clockDiv == 0x7FFF_F000 && ClockDivToFrequency(clockDiv) == 152
    ensures 152 <= freq < 80_000_000 ==> IsBest(ClockDivToFrequency(clockDiv), freq) && Shaped(Unpack(clockDiv))
  {
    hide Freq, Tried, Pack, Unpack, ClockDivToFrequency, Holds, Searched, TriedUpTo, IsBest, InRange, Divider, Shaped;
    Constants();
    if freq >= CPU_CLK_FREQ {
      return CLK_EQU_SYSCLK;
    }
    var minFreq := ClockDivToFrequency(MIN_FREQ_REG);
    if freq < minFreq {
      return MIN_FREQ_REG;
    }
    var calN: nat, bestReg, bestFreq: nat := 1, Reg(0, 0, 0, 0, 0), 0;
    NothingTried(freq, 1);
    while calN <= MAX_N
      invariant 1 <= calN <= MAX_N + 1
      invariant Holds(bestReg, bestFreq, freq) && Searched(bestFreq, freq, calN)
    {
      var calFreq: nat, vari := 0, -2;
      NothingTried(freq, calN);
      while vari <= 1
        invariant -2 <= vari <= 2
        invariant Holds(bestReg, bestFreq, freq) && Searched(bestFreq, freq, calN)
        invariant TriedUpTo(bestFreq, freq, calN, vari)
        invariant calFreq != freq
      {
        var reg := Reg((calN + 1) / 2, 0, calN, Tried(freq, calN, vari + 1), 0);
        calFreq := Freq(reg.regPre, reg.regN);
        if calFreq == freq {
          bestReg := reg;
          break;
        }
        TryKeeps(bestReg, bestFreq, freq, calN, vari, reg, calFreq);
        if calFreq < freq && Abs(freq - calFreq) < Abs(freq - bestFreq) {
          bestFreq, bestReg := calFreq, reg;
        }
        vari := vari + 1;
      }
      if calFreq == freq {
        TriedInRange(freq, calN, vari + 1);
        ExactIsBest(bestReg, freq);
        return Pack(bestReg);
      }
      RowSearched(bestFreq, freq, calN);
      calN := calN + 1;
    }
    SearchIsBest(bestReg, bestFreq, freq);
    return Pack(bestReg);
  }

  lemma TriedInRange(freq: nat, n: nat, vari: int)
    requires freq > 0 && 1 <= n <= MAX_N
    ensures var reg := Reg((n + 1) / 2, 0, n, Tried(freq, n, vari), 0);
            InRange(reg) && Divider(reg.regPre, reg.regN) && Shaped(reg)
  {
  }

  lemma ExactIsBest(reg: Reg, freq: nat)
    requires InRange(reg) && Divider(reg.regPre, reg.regN) && Shaped(reg) && Freq(reg.regPre, reg.regN) == freq
    ensures IsBest(ClockDivToFrequency(Pack(reg)), freq) && Shaped(Unpack(Pack(reg)))
  {
    hide Freq, Pack, Unpack;
    UnpackPack(reg);
  }

  /** Asking for the frequency that a divider gives: the register found gives it too. */
  method FrequencyOfDivider(pre: nat, n: nat) returns (clockDiv: nat)
    requires Divider(pre, n)
    ensures ClockDivToFrequency(clockDiv) == Freq(pre, n)
  {
    hide ClockDivToFrequency, Freq, Unpack;
    DividerInRange(pre, n);
    clockDiv := FrequencyToClockDiv(Freq(pre, n));
  }

  /** Every divider with `1 <= n` gives a frequency that the search serves. */
  lemma DividerInRange(pre: nat, n: nat)
    requires Divider(pre, n)
    ensures 152 <= Freq(pre, n) < CPU_CLK_FREQ
  {
    var d := (pre + 1) * (n + 1);
    Positive(pre + 1, n + 1);
    MulMonotone(pre + 1, 8192, n + 1);
    MulMonotone(2, n + 1, pre + 1);
    DivAntitone(CPU_CLK_FREQ, d, 8192 * 64);
    DivAntitone(CPU_CLK_FREQ, 2, d);
  }

  // ----- The whole register --------------------------------------------------------------------------

  /** The largest frequency not above `freq` that any divider gives, `n = 0` included. */
  ghost predicate IsBestOfAll(got: nat, freq: nat)
  {
    && got <= freq
    && (forall pre: nat, n: nat :: n <= MAX_N && pre <= MAX_PRE && Freq(pre, n) <= freq ==> Freq(pre, n) <= got)
  }

  /** The least number by which the clock, divided, does not pass `freq`. */
  function LeastDivisor(freq: nat): nat
  {
    CPU_CLK_FREQ / (freq + 1) + 1
  }

  lemma LeastDivisorIff(freq: nat, d: nat)
    requires d > 0
    ensures CPU_CLK_FREQ / d <= freq <==> LeastDivisor(freq) <= d
  {
    DivIff(CPU_CLK_FREQ, d, freq + 1);
    DivIff(CPU_CLK_FREQ, freq + 1, d);
  }

  /** Over the register's whole range the result is the best unless n = 0, which the search never tries,
      reaches more: exactly unless the least divisor is in reach of n = 0, and no divider that is tried gives
      its frequency. */
  lemma BestOfAllIff(got: nat, freq: nat)
    requires IsBest(got, freq)
    ensures IsBestOfAll(got, freq) <==>
              || LeastDivisor(freq) > MAX_PRE + 1
              || exists pre: nat, n: nat :: Divider(pre, n) && Freq(pre, n) == CPU_CLK_FREQ / LeastDivisor(freq)
  {
    hide Freq, LeastDivisor;
    LeastPositive(freq);
    var m := LeastDivisor(freq);
    LeastDivisorIff(freq, m);
    forall pre: nat, n: nat | n <= MAX_N && pre <= MAX_PRE && Freq(pre, n) <= freq
      ensures Freq(pre, n) <= CPU_CLK_FREQ / m
      ensures n == 0 ==> m <= MAX_PRE + 1
    {
      NotAboveLeast(freq, pre, n);
    }
    if m <= MAX_PRE + 1 {
      WithZero(m - 1);
    }
  }

  lemma LeastPositive(freq: nat)
    ensures LeastDivisor(freq) > 0
  {
  }

  lemma WithZero(pre: nat)
    ensures Freq(pre, 0) == CPU_CLK_FREQ / (pre + 1)
  {
  }

  lemma NotAboveLeast(freq: nat, pre: nat, n: nat)
    requires Freq(pre, n) <= freq
    ensures LeastDivisor(freq) > 0 && Freq(pre, n) <= CPU_CLK_FREQ / LeastDivisor(freq)
    ensures LeastDivisor(freq) <= (pre + 1) * (n + 1)
  {
    Positive(pre + 1, n + 1);
    LeastDivisorIff(freq, (pre + 1) * (n + 1));
    DivAntitone(CPU_CLK_FREQ, LeastDivisor(freq), (pre + 1) * (n + 1));
  }

  /** The search, with the exact condition under which its result is the best of the whole register. */
  method FrequencyToClockDivOfAll(freq: nat) returns (clockDiv: nat)
    requires 152 <= freq < CPU_CLK_FREQ
    ensures IsBestOfAll(ClockDivToFrequency(clockDiv), freq) <==>
              || LeastDivisor(freq) > MAX_PRE + 1
              || exists pre: nat, n: nat :: Divider(pre, n) && Freq(pre, n) == CPU_CLK_FREQ / LeastDivisor(freq)
  {
    hide ClockDivToFrequency, Freq, Unpack, LeastDivisor, IsBest, IsBestOfAll;
    clockDiv := FrequencyToClockDiv(freq);
    BestOfAllIff(ClockDivToFrequency(clockDiv), freq);
  }

  lemma NoSmallFactor(a: nat, b: nat)
    requires 2 <= a <= 64
    ensures a * b != 67
  {
    if a >= 9 && b >= 9 {
      MulMonotone(9, a, b);
    } else if a <= 8 {
      assert a == 2 || a == 3 || a == 4 || a == 5 || a == 6 || a == 7 || a == 8;
    } else {
      assert b == 0 || b == 1 || b == 2 || b == 3 || b == 4 || b == 5 || b == 6 || b == 7 || b == 8;
    }
  }

  /** It need not be: with `n = 0` a prescaler of 66 gives exactly 1194029 Hz, and no divider that is tried
      does. */
  lemma NotBestWithZeroN(pre: nat, n: nat)
    requires Divider(pre, n)
    ensures Freq(66, 0) == 1194029 && Freq(pre, n) != 1194029
  {
    var m := (pre + 1) * (n + 1);
    NoSmallFactor(n + 1, pre + 1);
    Positive(pre + 1, n + 1);
    DivIff(CPU_CLK_FREQ, m, 1194029);
    DivIff(CPU_CLK_FREQ, m, 1194030);
  }
}
