/** The clock prescaler computed by I2S_Init (Libraries/STM32F10x_StdPeriph_Driver/src/stm32f10x_spi.c:237-353). */
module I2sClock {
  import opened Bits

  const MCLK_OUTPUT := 512
  const AUDIO_FREQ_DEFAULT := 2
  const U16 := 65536
  const U32 := 0x1_0000_0000

  const HSE: nat := 25000000

  /** What the RCC registers say: whether the I2S clock comes from PLL3, the multiplier and PREDIV2 fields, and the
      system clock otherwise. */
  datatype Rcc = Rcc(pll3: bool, mulField: nat, prediv2: nat, sysclk: nat)

  predicate Fields(r: Rcc)
  {
    r.mulField < 16 && r.prediv2 < 16 && r.sysclk < U32
  }

  /** PLL3 runs at the divided crystal times the multiplier, doubled: fields 6 to 14 mean 8 to 16, field 15 means 20. */
  function SourceClock(r: Rcc): nat
  {
    if !r.pll3 then r.sysclk
    else
      var divided: nat := HSE / (r.prediv2 + 1);
      divided * Multiplier(r.mulField) * 2
  }

  function Multiplier(field: nat): nat
  {
    if 6 <= field <= 14 then field + 2 else if field == 15 then 20 else field
  }

  /** With a 25 MHz crystal: 50 MHz, divided by PREDIV2 + 1 before the multiplication by 8, 9, ..., 16 or 20; the fields
      below 6, which the hardware does not define, are taken as they are. */
  lemma Pll3Clock(r: Rcc)
    requires Fields(r)
    ensures r.pll3 && r.prediv2 == 0 ==>
            SourceClock(r) == 50000000 * [0, 1, 2, 3, 4, 5, 8, 9, 10, 11, 12, 13, 14, 15, 16, 20][r.mulField]
    ensures r.pll3 ==>
            SourceClock(r) == 2 * (25000000 / (r.prediv2 + 1)) *
                              [0, 1, 2, 3, 4, 5, 8, 9, 10, 11, 12, 13, 14, 15, 16, 20][r.mulField]
    ensures !r.pll3 ==> SourceClock(r) == r.sysclk
  {
    var m := [0, 1, 2, 3, 4, 5, 8, 9, 10, 11, 12, 13, 14, 15, 16, 20][r.mulField];
    assert Multiplier(r.mulField) == m;
    Doubling(HSE / (r.prediv2 + 1), m);
  }

  lemma Doubling(x: int, y: int)
    ensures x * y * 2 == 2 * x * y
  {
  }

  /** No setting overflows the 32-bit variable it is computed in. */
  lemma SourceClockFits(r: Rcc)
    requires Fields(r)
    ensures SourceClock(r) < U32
  {
    var d := HSE / (r.prediv2 + 1);
    assert d <= HSE;
    var m := Multiplier(r.mulField);
    MulMono(d, HSE, m);
    assert d * m * 2 <= HSE * m * 2 <= HSE * 20 * 2;
  }

  /** The clock per sample bit clock before division: one frame is 256 master clocks, or 32 bits per 16-bit packet. */
  function Source(clock: nat, mclk: bool, packetlength: nat): nat
    requires 1 <= packetlength <= 2
  {
    if mclk then clock / 256 else if packetlength == 1 then clock / 32 else clock / 64
  }

  /** d is a / f rounded to the nearest integer, a half upwards. */
  predicate Nearest(d: int, a: nat, f: nat)
  {
    -(f as int) < 2 * (d * f - a) <= f
  }

  lemma MulMono(x: int, y: int, f: nat)
    requires x <= y
    ensures x * f <= y * f
  {
  }

  /** At most one integer is nearest. */
  lemma NearestIsUnique(d: int, e: int, a: nat, f: nat)
    requires f > 0 && Nearest(d, a, f) && Nearest(e, a, f)
    ensures d == e
  {
    Apart(d, e, a, f);
    Apart(e, d, a, f);
  }

  lemma Apart(d: int, e: int, a: nat, f: nat)
    requires f > 0 && Nearest(d, a, f) && Nearest(e, a, f)
    ensures d >= e
  {
    assert (d + 1) * f == d * f + f;
    if d + 1 <= e {
      MulMono(d + 1, e, f);
    }
  }

  /** The scaled division: tenths, plus five, cut off. */
  function Rounded(a: nat, f: nat): nat
    requires f > 0
  {
    (10 * a / f + 5) / 10
  }

  lemma QuotientBounds(x: nat, f: nat)
    requires f > 0
    ensures (x / f) * f <= x < (x / f) * f + f
  {
  }

  lemma RoundedIsNearest(a: nat, f: nat)
    requires f > 0
    ensures Nearest(Rounded(a, f), a, f)
  {
    QuotientBounds(10 * a, f);
    var q, d := 10 * a / f, Rounded(a, f);
    MulMono(10 * d, q + 5, f);
    MulMono(q, 10 * d + 4, f);
    assert (10 * d) * f == 10 * (d * f) && (q + 5) * f == q * f + 5 * f && (10 * d + 4) * f == 10 * (d * f) + 4 * f;
  }

  /** The divider fields of I2SPR: the divider is 2 * div + odd. */
  datatype Prescaler = Prescaler(div: nat, odd: nat)

  function Divider(p: Prescaler): nat
  {
    2 * p.div + p.odd
  }

  /** The value the code works out in 32-bit arithmetic and keeps in 16 bits, before the cut. */
  function Tenths(a: nat, f: nat): nat
    requires f > 0
  {
    (a * 10 % U32 / f + 5) % U16
  }

  /** The two fields for divider d, or the default if the register cannot hold it. */
  function Clamped(d: nat): Prescaler
  {
    if d / 2 < 2 || d / 2 > 255 then Prescaler(2, 0) else Prescaler(d / 2, d % 2)
  }

  function Programmed(clock: nat, packetlength: nat, mclk: bool, freq: nat): Prescaler
    requires 1 <= packetlength <= 2 && freq > 0
  {
    if freq == AUDIO_FREQ_DEFAULT then Prescaler(2, 0)
    else Clamped(Tenths(Source(clock, mclk, packetlength), freq) / 10)
  }

  lemma SourceFits(clock: nat, mclk: bool, packetlength: nat)
    requires clock < U32 && 1 <= packetlength <= 2
    ensures 10 * Source(clock, mclk, packetlength) < U32
  {
  }

  lemma ClampedIs(d: nat)
    ensures Divider(Clamped(d)) == if 4 <= d <= 511 then d else 4
  {
  }

  lemma CutFits(x: nat)
    ensures if x < U16 then x % U16 == x else x / 10 >= 6553
    ensures x % U16 / 10 <= 6553
  {
  }

  lemma TenthsIs(a: nat, f: nat, x: nat)
    requires f > 0 && 10 * a < U32 && x == 10 * a / f + 5
    ensures Tenths(a, f) == x % U16 && Rounded(a, f) == x / 10
  {
    assert a * 10 % U32 == 10 * a;
  }

  lemma DividerIs(clock: nat, packetlength: nat, mclk: bool, freq: nat)
    requires clock < U32 && 1 <= packetlength <= 2 && freq > 0 && freq != AUDIO_FREQ_DEFAULT
    ensures var r := Rounded(Source(clock, mclk, packetlength), freq);
            if 4 <= r <= 511 then Divider(Programmed(clock, packetlength, mclk, freq)) == r
            else Divider(Programmed(clock, packetlength, mclk, freq)) != r
  {
    hide Source, Clamped, Divider, Tenths, Rounded;
    SourceFits(clock, mclk, packetlength);
    var a := Source(clock, mclk, packetlength);
    var x := 10 * a / freq + 5;
    TenthsIs(a, freq, x);
    CutFits(x);
    ClampedIs(x % U16 / 10);
  }

  /** The divider programmed is the nearest one exactly when the nearest one is in the range 4 to 511 that the register
      can hold; no 32-bit or 16-bit overflow gets in the way inside that range. */
  lemma DividerIsNearestExactly(clock: nat, packetlength: nat, mclk: bool, freq: nat)
    requires clock < U32 && 1 <= packetlength <= 2 && freq > 0 && freq != AUDIO_FREQ_DEFAULT
    ensures var a := Source(clock, mclk, packetlength);
            Nearest(Divider(Programmed(clock, packetlength, mclk, freq)), a, freq) <==>
            exists d :: 4 <= d <= 511 && Nearest(d, a, freq)
  {
    hide Source, Rounded, Programmed, Nearest;
    var a, d := Source(clock, mclk, packetlength), Divider(Programmed(clock, packetlength, mclk, freq));
    var r := Rounded(a, freq);
    DividerIs(clock, packetlength, mclk, freq);
    RoundedIsNearest(a, freq);
    if Nearest(d, a, freq) {
      NearestIsUnique(d, r, a, freq);
    }
    if x :| 4 <= x <= 511 && Nearest(x, a, freq) {
      NearestIsUnique(x, r, a, freq);
    }
  }

  lemma NearestInRange(a: nat, f: nat)
    requires f > 0 && 7 * f <= 2 * a < 1023 * f
    ensures 4 <= Rounded(a, f) <= 511
  {
    hide Rounded;
    var r := Rounded(a, f);
    RoundedIsNearest(a, f);
    if r <= 3 {
      MulMono(r, 3, f);
    }
    if r >= 512 {
      MulMono(512, r, f);
    }
  }

  lemma Distribute(c: int, f: int, k: int)
    ensures (c - f) * k == c * k - f * k
  {
  }

  lemma Products(k: nat, f: int, x: int)
    requires k > 0 && -f < x <= f
    ensures k - f * k <= x * k <= f * k
    ensures if x == 1 - f then x * k == k - f * k else x * k >= 2 * k - f * k
  {
    MulMono(x, f, k);
    MulMono(1 - f, x, k);
    Distribute(1, f, k);
    Distribute(2, f, k);
    if x != 1 - f {
      MulMono(2 - f, x, k);
    }
  }

  lemma Regroup(k: int, d: int, f: int, a: int)
    ensures k * (2 * (d * f - a)) == 2 * (k * f * d - k * a) && (2 * d + 1) * f == 2 * (d * f) + f
  {
    assert k * f * d == k * (d * f);
  }

  /** All products named: e is twice the error against the clock, y against the scaled clock, r what was cut off. */
  lemma CutOff(e: int, y: int, r: nat, p: int, k: int, middle: bool)
    requires e == y - 2 * r && r < k && k - p <= y <= p && if middle then y == k - p else y >= 2 * k - p
    ensures -p - k + 2 <= e <= p && (e > -p <==> !(middle && 2 * r >= k))
  {
  }

  /** s divided by k, cut off, then related to the divider d of frequency f. */
  lemma AgainstClock(d: nat, s: nat, k: nat, f: nat)
    requires k > 0 && f > 0 && Nearest(d, s / k, f)
    ensures var e := 2 * (k * f * d - s);
            -(k * f) - k + 2 <= e <= k * f &&
            (e > -(k * f) <==> !((2 * d + 1) * f == 2 * (s / k) + 1 && 2 * (s % k) >= k))
  {
    var a, r, df := s / k, s % k, d * f;
    var x := 2 * (df - a);
    Products(k, f, x);
    Regroup(k, d, f, a);
    var ka, kx, kf, kfd := k * a, x * k, f * k, k * f * d;
    assert s == ka + r && kx == 2 * (kfd - ka);
    CutOff(2 * (kfd - s), kx, r, kf, k, x == 1 - f);
  }

  /** Against the clock itself, which is 256 master clocks a frame, or 32 or 64 bit clocks: the frequency produced is
      off by less than half a step and one unit of the scaled clock; and the divider is the nearest one except exactly
      when cutting off the scaled clock has hidden that it lies at or beyond the middle. */
  lemma NearestToTheClockExactly(clock: nat, packetlength: nat, mclk: bool, freq: nat)
    requires clock < U32 && 1 <= packetlength <= 2 && freq > 0 && freq != AUDIO_FREQ_DEFAULT
    requires 7 * freq <= 2 * (clock / if mclk then 256 else 32 * packetlength) < 1023 * freq
    ensures var k := if mclk then 256 else 32 * packetlength;
            var d := Divider(Programmed(clock, packetlength, mclk, freq));
            4 <= d <= 511 && -(k * freq) - k + 2 <= 2 * (k * freq * d - clock) <= k * freq &&
            (2 * (k * freq * d - clock) > -(k * freq) <==>
             !((2 * d + 1) * freq == 2 * (clock / k) + 1 && 2 * (clock % k) >= k))
  {
    hide Rounded, Programmed, Divider, Source, Nearest;
    SourceIs(clock, mclk, packetlength);
    var k := if mclk then 256 else 32 * packetlength;
    NearestInRange(clock / k, freq);
    DividerIs(clock, packetlength, mclk, freq);
    RoundedIsNearest(clock / k, freq);
    AgainstClock(Rounded(clock / k, freq), clock, k, freq);
  }

  /** The exception happens: from 15523300 Hz with MCLK, 11025 Hz gets divider 5, although 6 is nearer. */
  lemma NextDividerCanBeNearer()
    ensures Divider(Programmed(15523300, 1, true, 11025)) == 5
    ensures 2 * (15523300 - 256 * 11025 * 5) == 2822600 && 2 * (256 * 11025 * 6 - 15523300) == 2822200
  {
  }

  lemma QuotientRange(a: nat, f: nat)
    requires f > 0
    ensures 2 * a < 7 * f ==> 10 * a / f < 35
    ensures 2 * a >= 1023 * f ==> 10 * a / f >= 5115
    ensures 2 * a < 13106 * f ==> 10 * a / f < 65530
  {
    var q := 10 * a / f;
    QuotientBounds(10 * a, f);
    if q >= 35 {
      MulMono(35, q, f);
    }
    if q >= 65530 {
      MulMono(65530, q, f);
    }
    if q <= 5114 {
      MulMono(q, 5114, f);
    }
  }

  lemma SourceIs(clock: nat, mclk: bool, packetlength: nat)
    requires 1 <= packetlength <= 2
    ensures Source(clock, mclk, packetlength) == clock / if mclk then 256 else 32 * packetlength
  {
  }

  lemma ClampedDefault(t: nat)
    requires t < 40 || 5120 <= t < U16
    ensures Clamped(t % U16 / 10) == Prescaler(2, 0)
  {
  }

  /** A divider the register cannot hold, and the default frequency, give divider 4. */
  lemma OutOfRangeIsDefault(clock: nat, packetlength: nat, mclk: bool, freq: nat)
    requires clock < U32 && 1 <= packetlength <= 2 && freq > 0
    requires var a := clock / if mclk then 256 else 32 * packetlength;
             freq == 2 || 2 * a < 7 * freq || 1023 * freq <= 2 * a < 13106 * freq
    ensures Programmed(clock, packetlength, mclk, freq) == Prescaler(2, 0)
  {
    hide Rounded, Tenths, Source, Clamped;
    if freq != 2 {
      var a := Source(clock, mclk, packetlength);
      SourceIs(clock, mclk, packetlength);
      SourceFits(clock, mclk, packetlength);
      QuotientRange(a, freq);
      var t := 10 * a / freq + 5;
      TenthsIs(a, freq, t);
      ClampedDefault(t);
    }
  }

  function Packed(p: Prescaler, mclk: bool): nat
  {
    Or(p.div, Or(Doubled(p.odd, 8), if mclk then MCLK_OUTPUT else 0))
  }

  /** The three fields of the register word do not disturb each other. */
  lemma PackedDecodes(p: Prescaler, mclk: bool)
    requires p.div < 256 && p.odd < 2
    ensures Packed(p, mclk) % 256 == p.div && Packed(p, mclk) / 256 % 2 == p.odd
    ensures Packed(p, mclk) / 512 == if mclk then 1 else 0
  {
    hide Or;
    var m := if mclk then 1 else 0;
    assert Doubled(p.odd, 8) == 256 * p.odd && Doubled(m, 9) == 512 * m && Doubled(1, 8) == 256 && Doubled(1, 9) == 512;
    OrBelow(256 * p.odd, m, 9);
    var c := p.odd + 2 * m;
    assert Doubled(c, 8) == 256 * c;
    OrBelow(p.div, c, 8);
  }

  /** The choice of the source clock. */
  method SelectClock(rcc: Rcc) returns (clock: nat)
    requires Fields(rcc)
    ensures clock == SourceClock(rcc) < U32
  {
    SourceClockFits(rcc);
    if rcc.pll3 {
      var tmp := rcc.mulField;
      if tmp > 5 && tmp < 15 {
        tmp := tmp + 2;
      } else if tmp == 15 {
        tmp := 20;
      }
      clock := HSE / (rcc.prediv2 + 1);
      clock := clock * tmp * 2 % U32;
    } else {
      clock := rcc.sysclk;
    }
  }

  /** The prescaler part of I2S_Init; the register word it writes. */
  method I2SInit(rcc: Rcc, format16: bool, mclk: bool, freq: nat) returns (i2spr: nat)
    requires Fields(rcc) && freq > 0
    ensures i2spr == Packed(Programmed(SourceClock(rcc), if format16 then 1 else 2, mclk, freq), mclk)
    ensures i2spr % 256 >= 2
  {
    hide Or, Doubled;
    var i2sdiv, i2sodd := 2, 0;
    if freq != AUDIO_FREQ_DEFAULT {
      var packetlength := if format16 then 1 else 2;
      var clock := SelectClock(rcc);
      var tmp := if mclk then clock / 256 else clock / (32 * packetlength);
      tmp := (tmp * 10 % U32 / freq + 5) % U16;
      tmp := tmp / 10;
      i2sodd := tmp % 2;
      i2sdiv := (tmp - i2sodd) / 2;
    }
    if i2sdiv < 2 || i2sdiv > 255 {
      i2sdiv, i2sodd := 2, 0;
    }
    i2spr := Or(i2sdiv, Or(Doubled(i2sodd, 8), if mclk then MCLK_OUTPUT else 0));
    PackedDecodes(Prescaler(i2sdiv, i2sodd), mclk);
  }
}
