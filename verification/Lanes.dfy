/** CSI lane arithmetic of the bridge driver, in 32-bit unsigned words. */
module Lanes {
  import opened Wrappers

  const U32: nat := 0x1_0000_0000

  function Wrap(n: nat): (w: nat)
    ensures w < U32 && (n < U32 ==> w == n)
  {
    n % U32
  }

  /** Active size, frame size and pixel clock of a video mode. */
  datatype Timings = Timings(width: nat, height: nat, frameWidth: nat, frameHeight: nat, pixelclock: nat)

  /** Within the driver's capabilities; the blanking is not negative and the frame area fits a word. */
  ghost predicate WithinCaps(t: Timings) {
    && 640 <= t.width <= 1920 && 350 <= t.height <= 1200
    && 13_000_000 <= t.pixelclock <= 165_000_000
    && t.width <= t.frameWidth && t.height <= t.frameHeight
    && t.frameWidth * t.frameHeight < U32
  }

  /** `fps`: pixel clock over frame area, rounded to the nearest integer; 0 without a frame. */
  function Fps(t: Timings): nat
    requires t.frameHeight == 0 || t.frameWidth == 0 || Wrap(t.frameWidth * t.frameHeight) != 0
  {
    if t.frameHeight == 0 || t.frameWidth == 0 then 0
    else
      var area := Wrap(t.frameWidth * t.frameHeight);
      Wrap(t.pixelclock + area / 2) / area
  }

  /** The rate is the one whole number of frames within half a frame of the pixel clock, a tie rounded up. */
  lemma FpsIsNearest(t: Timings, n: nat)
    requires WithinCaps(t)
    ensures var a := t.frameWidth * t.frameHeight;
            a > 0 && (n == Fps(t) <==> n * a - t.pixelclock <= a / 2 && t.pixelclock - n * a < a - a / 2)
  {
    AreaBounds(t.width, t.height);
    AreaGrows(t.width, t.height, t.frameWidth, t.frameHeight);
    var a := t.frameWidth * t.frameHeight;
    SmallSum(t, a);
    Nearest(t.pixelclock, a, n, Fps(t));
    hide *;
  }

  lemma Nearest(p: nat, a: nat, n: nat, f: nat)
    requires a > 0 && f == (p + a / 2) / a
    ensures n == f <==> n * a - p <= a / 2 && p - n * a < a - a / 2
  {
    QuotientBounds(p + a / 2, a);
    MulStep(n, f, a);
    MulStep(f, n, a);
    var m, k := n * a, f * a;
    assert k <= p + a / 2 < k + a;
    if n < f { assert m + a <= k; } else if f < n { assert k + a <= m; }
  }

  lemma QuotientBounds(x: nat, a: nat)
    requires a > 0
    ensures x / a * a <= x < x / a * a + a
  {
    assert x == a * (x / a) + x % a;
  }

  lemma SmallSum(t: Timings, a: nat)
    requires WithinCaps(t) && a == t.frameWidth * t.frameHeight > 0
    ensures Fps(t) == (t.pixelclock + a / 2) / a
  {}

  /** A second without a frame area has no frames. */
  lemma NoFrameNoRate(t: Timings)
    requires t.frameWidth == 0 || t.frameHeight == 0
    ensures Fps(t) == 0
  {}

  /** Width times height times rate times bits per pixel, every product cut to a word. */
  function BitRate(t: Timings, bits: nat): nat
    requires t.frameHeight == 0 || t.frameWidth == 0 || Wrap(t.frameWidth * t.frameHeight) != 0
  {
    Wrap(Wrap(Wrap(t.width * t.height) * Fps(t)) * bits)
  }

  /** DIV_ROUND_UP in a word. */
  function LanesNeeded(bps: nat, rate: nat): nat
    requires rate > 0
  {
    Wrap(bps + rate - 1) / rate
  }

  lemma CancelFactor(x: nat, y: nat, a: nat)
    requires a > 0 && x * a <= y * a
    ensures x <= y
  {
    MulStep(y, x, a);
  }

  lemma MulStep(j: nat, k: nat, r: nat)
    ensures j < k ==> j * r + r <= k * r
  {
    if j < k { assert (j + 1) * r <= k * r; }
  }

  /** Pixels shown per second exceed the pixel clock by at most half a frame. */
  lemma PixelRate(p: nat, a: nat, c: nat)
    requires 0 < p <= a
    ensures 2 * (p * ((c + a / 2) / a)) <= 2 * c + p
  {
    var f := (c + a / 2) / a;
    assert f * a <= c + a / 2;
    Scaled(p, a, c, f);
    CancelFactor(2 * (p * f), 2 * c + p, a);
  }

  lemma Scaled(p: nat, a: nat, c: nat, f: nat)
    requires p <= a && 2 * (f * a) <= 2 * c + a
    ensures 2 * (p * f) * a <= (2 * c + p) * a
  {
    calc {
      2 * (p * f) * a;
    ==
      p * (2 * (f * a));
    <=  { Monotone(p, 2 * (f * a), 2 * c + a); }
      p * (2 * c + a);
    ==
      p * (2 * c) + p * a;
    <=  { Monotone(2 * c, p, a); }
      a * (2 * c) + p * a;
    ==
      (2 * c + p) * a;
    }
  }

  lemma Monotone(x: nat, y: nat, z: nat)
    requires y <= z
    ensures x * y <= x * z
  {}

  lemma AreaGrows(w: nat, h: nat, fw: nat, fh: nat)
    requires w <= fw && h <= fh
    ensures w * h <= fw * fh
  {
    assert w * h <= fw * h;
    assert fw * h <= fw * fh;
  }

  lemma AreaBounds(w: nat, h: nat)
    requires 640 <= w <= 1920 && 350 <= h <= 1200
    ensures 640 * 350 <= w * h <= 1920 * 1200
  {
    AreaGrows(640, 350, w, h);
    AreaGrows(w, h, 1920, 1200);
  }

  /** For both pixel formats the bit rate is exact: no product wraps. */
  lemma BitRateExact(t: Timings, bits: nat)
    requires WithinCaps(t) && (bits == 16 || bits == 24)
    ensures t.frameWidth * t.frameHeight > 0
    ensures BitRate(t, bits) == t.width * t.height * Fps(t) * bits
    ensures BitRate(t, bits) <= bits * 166_152_000
  {
    var p, a := t.width * t.height, t.frameWidth * t.frameHeight;
    AreaBounds(t.width, t.height);
    AreaGrows(t.width, t.height, t.frameWidth, t.frameHeight);
    PixelRate(p, a, t.pixelclock);
    var f := Fps(t);
    assert p * f <= 166_152_000;
    hide Fps; hide Wrap;
  }

  /** The rounded-up quotient is the least sufficient lane count unless the sum wraps; then it is 0. */
  lemma LanesNeededExact(bps: nat, rate: nat)
    requires 0 < rate < U32 && bps < U32
    ensures var k := LanesNeeded(bps, rate);
            && (k * rate >= bps <==> bps + rate - 1 < U32)
            && (bps + rate - 1 < U32 ==> forall j: nat :: j * rate >= bps ==> k <= j)
            && (bps + rate - 1 >= U32 ==> k == 0)
  {
    var s := bps + rate - 1;
    var k := LanesNeeded(bps, rate);
    if s < U32 {
      assert k * rate <= s < k * rate + rate;
      forall j: nat | j * rate >= bps ensures k <= j {
        MulStep(j, k, rate);
      }
    } else {
      assert Wrap(s) == s - U32;
    }
  }

  // --- the PLL ---

  datatype Pll = Pll(refclk: nat, prd: nat, fbd: nat)

  /** The PLL part of `probe_of`: None for an unsupported clock or line rate. */
  function SetupPll(refclk: nat, linkFrequency: nat): Option<Pll> {
    if refclk !in {26_000_000, 27_000_000, 42_000_000} then None
    else
      var prd := refclk / 6_000_000;
      var bpsPerLane := Wrap(2 * linkFrequency);
      if bpsPerLane < 62_500_000 || bpsPerLane > 1_000_000_000 then None
      else Some(Pll(refclk, prd, bpsPerLane / refclk * prd))
  }

  /** The line rate that `set_pll` and the lane count use. */
  function LineRate(p: Pll): nat
    requires p.prd > 0
  {
    Wrap(p.refclk / p.prd * p.fbd)
  }

  /** Three reference clocks and line rates from 62.5 Mbit/s to 1 Gbit/s are accepted, with dividers 4, 4 and 7. */
  lemma SetupExactly(refclk: nat, linkFrequency: nat)
    ensures var want := 2 * linkFrequency % 0x1_0000_0000;
            && (SetupPll(refclk, linkFrequency).Some? <==>
                 refclk in {26_000_000, 27_000_000, 42_000_000} && 62_500_000 <= want <= 1_000_000_000)
            && (SetupPll(refclk, linkFrequency).Some? ==>
                 var prd := if refclk == 42_000_000 then 7 else 4;
                 SetupPll(refclk, linkFrequency).value == Pll(refclk, prd, want / refclk * prd))
  {
    assert 26_000_000 / 6_000_000 == 4 && 27_000_000 / 6_000_000 == 4 && 42_000_000 / 6_000_000 == 7;
  }

  /** The PLL runs at the requested rate less its remainder modulo the reference clock. */
  lemma PllRate(refclk: nat, linkFrequency: nat)
    requires SetupPll(refclk, linkFrequency).Some?
    ensures var p, want := SetupPll(refclk, linkFrequency).value, Wrap(2 * linkFrequency);
            && p.prd > 0 && 6_000_000 <= p.refclk / p.prd <= 40_000_000 && p.refclk % p.prd == 0
            && LineRate(p) == want - want % refclk
            && 20_500_000 <= LineRate(p) <= 1_000_000_000
  {
    var p, want := SetupPll(refclk, linkFrequency).value, Wrap(2 * linkFrequency);
    assert 26_000_000 / 4 == 6_500_000 && 27_000_000 / 4 == 6_750_000 && 42_000_000 / 7 == 6_000_000;
    if refclk == 26_000_000 { ClockRate(want, refclk, 4, 6_500_000); }
    else if refclk == 27_000_000 { ClockRate(want, refclk, 4, 6_750_000); }
    else { ClockRate(want, refclk, 7, 6_000_000); }
  }

  lemma ClockRate(want: nat, refclk: nat, prd: nat, step: nat)
    requires refclk == prd * step && refclk > 0
    ensures step * (want / refclk * prd) == want - want % refclk && 0 <= want % refclk < refclk
  {
    var q := want / refclk;
    assert want == refclk * q + want % refclk;
    assert step * (q * prd) == prd * step * q;
  }

  /** UYVY at any accepted line rate: the least number of lanes whose total rate suffices. */
  lemma UyvyLanes(t: Timings, refclk: nat, linkFrequency: nat)
    requires WithinCaps(t) && SetupPll(refclk, linkFrequency).Some?
    ensures t.frameWidth * t.frameHeight > 0
    ensures var p := SetupPll(refclk, linkFrequency).value;
            && p.prd > 0 && LineRate(p) > 0
            && var bps, k := t.width * t.height * Fps(t) * 16, LanesNeeded(BitRate(t, 16), LineRate(p));
               k * LineRate(p) >= bps && forall j: nat :: j * LineRate(p) >= bps ==> k <= j
  {
    BitRateExact(t, 16);
    PllRate(refclk, linkFrequency);
    LanesNeededExact(BitRate(t, 16), LineRate(SetupPll(refclk, linkFrequency).value));
  }

  /** RGB: the count suffices exactly when the round-up does not wrap; otherwise no lane is used at all. */
  lemma RgbLanes(t: Timings, refclk: nat, linkFrequency: nat)
    requires WithinCaps(t) && SetupPll(refclk, linkFrequency).Some?
    ensures t.frameWidth * t.frameHeight > 0
    ensures var p := SetupPll(refclk, linkFrequency).value;
            && p.prd > 0 && LineRate(p) > 0
            && var bps, k := t.width * t.height * Fps(t) * 24, LanesNeeded(BitRate(t, 24), LineRate(p));
               && (k * LineRate(p) >= bps <==> bps + LineRate(p) <= U32)
               && (bps + LineRate(p) > U32 ==> k == 0)
  {
    BitRateExact(t, 24);
    PllRate(refclk, linkFrequency);
    LanesNeededExact(BitRate(t, 24), LineRate(SetupPll(refclk, linkFrequency).value));
  }

  const WUXGA: Timings := Timings(1920, 1200, 2080, 1235, 154_000_000)

  lemma WuxgaRate()
    ensures WithinCaps(WUXGA) && BitRate(WUXGA, 24) == 3_317_760_000
  {
    assert WUXGA.frameWidth * WUXGA.frameHeight == 2_568_800;
    assert Fps(WUXGA) == 60;
    hide Fps;
    BitRateExact(WUXGA, 24);
    hide BitRate;
  }

  lemma GigabitPll()
    ensures SetupPll(27_000_000, 500_000_000) == Some(Pll(27_000_000, 4, 148))
    ensures LineRate(Pll(27_000_000, 4, 148)) == 999_000_000
  {}

  /** 1920x1200 at 60 Hz in RGB over a 1 Gbit/s line rate asks for no lane. */
  lemma RgbWraps()
    ensures WithinCaps(WUXGA) && SetupPll(27_000_000, 500_000_000) == Some(Pll(27_000_000, 4, 148))
    ensures LanesNeeded(BitRate(WUXGA, 24), LineRate(Pll(27_000_000, 4, 148))) == 0
  {
    hide BitRate; hide SetupPll; hide LineRate; hide WithinCaps;
    WuxgaRate();
    GigabitPll();
  }
}
