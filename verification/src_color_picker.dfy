/**
 The colour picker of the `src/` variant: it keeps the colour as hue, saturation
 and brightness (HSB), converts a `#RRGGBB` colour into HSB when it opens, turns
 every HSB state back into a `#rrggbb` colour, and moves saturation, brightness
 and hue with the pointer, clamped into the picker's areas.
 */
module SrcColorPicker {
  import opened Js
  import opened GradientModel
  import ColorCodec
  import opened ColorMath

  /** Hue in degrees, saturation and brightness in [0, 1]. */
  datatype Hsb = Hsb(h: real, s: real, b: real)

  function Max3(a: real, b: real, c: real): real { Max(Max(a, b), c) }

  function Min3(a: real, b: real, c: real): real { Min(Min(a, b), c) }

  // ---------------------------------------------------------------------
  // hexToRgb

  /** The picker's reader: the digit pairs at 1, 3 and 5, whatever the text's length. */
  function HexToRgb(hex: string): ColorCodec.Rgb
  {
    ColorCodec.Rgb(ColorCodec.Channel(hex, 1), ColorCodec.Channel(hex, 3), ColorCodec.Channel(hex, 5))
  }

  /** A `#RRGGBB` colour reads as the bytes its pairs spell, as the client reader does. */
  lemma HexToRgbOfColor(hex: string)
    requires IsHexColor(hex)
    ensures HexToRgb(hex) == ColorCodec.Rgb(Num(PairValue(hex, 1)), Num(PairValue(hex, 3)), Num(PairValue(hex, 5)))
    ensures HexToRgb(hex) == ColorCodec.HexToRgb(hex)
  {
    ColorCodec.ChannelOfPair(hex, 1);
    ColorCodec.ChannelOfPair(hex, 3);
    ColorCodec.ChannelOfPair(hex, 5);
    ColorCodec.HexToRgbLong(hex);
  }

  /** A text too short for the third pair leaves blue NaN; three-digit shorthand is not
      expanded. */
  lemma HexToRgbShort(hex: string)
    requires |hex| <= 5
    ensures HexToRgb(hex).b == NaN
  {
    assert Slice(hex, 5, 7) == "";
  }

  // ---------------------------------------------------------------------
  // rgbToHsb

  /** The hue of normalised channels: 60 degrees per unit of the sector formula, rounded,
      a negative result moved up one turn; no spread between the channels gives 0. */
  function Hue(r: real, g: real, b: real): real
  {
    var max := Max3(r, g, b);
    var delta := max - Min3(r, g, b);
    if delta > 0.0 then
      var sector :=
        if max == r then Rem((g - b) / delta, 6.0)
        else if max == g then (b - r) / delta + 2.0
        else (r - g) / delta + 4.0;
      var k := Round(sector * 60.0);
      (if k < 0 then k + 360 else k) as real
    else 0.0
  }

  /** rgbToHsb of channels in 0..255. */
  function RgbToHsb(r: real, g: real, b: real): Hsb
  {
    var max := Max3(r / 255.0, g / 255.0, b / 255.0);
    var delta := max - Min3(r / 255.0, g / 255.0, b / 255.0);
    Hsb(Hue(r / 255.0, g / 255.0, b / 255.0), if max == 0.0 then 0.0 else delta / max, max)
  }

  /** The remainder by 6 leaves a sector value in [-1, 1] as it is. */
  lemma RemSmall(x: real)
    requires -1.0 <= x <= 1.0
    ensures Rem(x, 6.0) == x
  {
    assert Trunc(x / 6.0) == 0;
  }

  /** The hue is a whole number of degrees in [0, 360), for any channels. */
  lemma HueRange(r: real, g: real, b: real)
    ensures var h := Hue(r, g, b); 0.0 <= h < 360.0 && h == h.Floor as real
  {
    var max := Max3(r, g, b);
    var delta := max - Min3(r, g, b);
    if delta > 0.0 {
      var sector :=
        if max == r then Rem((g - b) / delta, 6.0)
        else if max == g then (b - r) / delta + 2.0
        else (r - g) / delta + 4.0;
      if max == r {
        UnitRatio(g - b, delta);
        RemSmall((g - b) / delta);
        assert -1.0 <= sector <= 1.0;
      } else if max == g {
        UnitRatio(b - r, delta);
        assert 1.0 <= sector <= 3.0;
      } else {
        UnitRatio(r - g, delta);
        assert 3.0 <= sector <= 5.0;
      }
      var k := Round(sector * 60.0);
      assert -60 <= k <= 300;
    }
  }

  /** A grey has hue 0 and saturation 0; the brightness is always the largest normalised
      channel. */
  lemma RgbToHsbGrey(r: real, g: real, b: real)
    ensures RgbToHsb(r, g, b).b == Max3(r, g, b) / 255.0
    ensures r == g == b ==> RgbToHsb(r, g, b).h == 0.0 && RgbToHsb(r, g, b).s == 0.0
    ensures Max3(r, g, b) == 0.0 ==> RgbToHsb(r, g, b).s == 0.0
  {
  }

  /** HSB inside the picker's ranges: a hue in [0, 360] and saturation and brightness in
      [0, 1]. */
  predicate ValidHsb(c: Hsb)
  {
    0.0 <= c.h <= 360.0 && 0.0 <= c.s <= 1.0 && 0.0 <= c.b <= 1.0
  }

  /** Channels in 0..255 give HSB in range, with a whole hue below 360. */
  lemma RgbToHsbRange(r: real, g: real, b: real)
    requires 0.0 <= r <= 255.0 && 0.0 <= g <= 255.0 && 0.0 <= b <= 255.0
    ensures var c := RgbToHsb(r, g, b); ValidHsb(c) && c.h < 360.0 && c.h == c.h.Floor as real
  {
    HueRange(r / 255.0, g / 255.0, b / 255.0);
    var max := Max3(r / 255.0, g / 255.0, b / 255.0);
    var min := Min3(r / 255.0, g / 255.0, b / 255.0);
    if max != 0.0 {
      UnitRatio(max - min, max);
    }
  }

  /** hexToHsb: None when a pair is not a number (the source carries NaN on). */
  function HexToHsb(hex: string): Option<Hsb>
  {
    var rgb := HexToRgb(hex);
    if rgb.r.Num? && rgb.g.Num? && rgb.b.Num? then
      Some(RgbToHsb(rgb.r.n as real, rgb.g.n as real, rgb.b.n as real))
    else
      None
  }

  /** A `#RRGGBB` colour converts through the bytes its pairs spell. */
  lemma HexToHsbOfColor(hex: string)
    requires IsHexColor(hex)
    ensures HexToHsb(hex) == Some(RgbToHsb(PairValue(hex, 1) as real, PairValue(hex, 3) as real, PairValue(hex, 5) as real))
  {
    HexToRgbOfColor(hex);
  }

  /** Opening the picker on a `#RRGGBB` colour gives HSB in range. */
  lemma HexToHsbValid(hex: string)
    requires IsHexColor(hex)
    ensures HexToHsb(hex).Some? && ValidHsb(HexToHsb(hex).value)
  {
    HexToHsbOfColor(hex);
    RgbToHsbRange(PairValue(hex, 1) as real, PairValue(hex, 3) as real, PairValue(hex, 5) as real);
  }

  // ---------------------------------------------------------------------
  // hsbToRgb

  /** The sector table: each 60-degree sector places c, x and 0 on the three channels. */
  function Sector(h: real, c: real, x: real): (t: (real, real, real))
    ensures multiset{t.0, t.1, t.2} == multiset{c, x, 0.0}
  {
    if 0.0 <= h < 60.0 then (c, x, 0.0)
    else if 60.0 <= h < 120.0 then (x, c, 0.0)
    else if 120.0 <= h < 180.0 then (0.0, c, x)
    else if 180.0 <= h < 240.0 then (0.0, x, c)
    else if 240.0 <= h < 300.0 then (x, 0.0, c)
    else (c, 0.0, x)
  }

  function HsbToRgb(h: real, s: real, b: real): Channels
  {
    FromChroma(h, Chroma(s, b), Lightest(s, b))
  }

  /** `c = b * s`: the spread between the largest and the smallest channel. */
  function Chroma(s: real, b: real): real
  {
    b * s
  }

  /** For saturation in [0, 1] the chroma lies between 0 and the brightness. */
  lemma ChromaRange(s: real, b: real)
    requires 0.0 <= s <= 1.0 && 0.0 <= b
    ensures 0.0 <= Chroma(s, b) <= b
  {
    ScaleDown(b, s);
  }

  /** `m = b - c`: the amount every channel is raised by. */
  function Lightest(s: real, b: real): (m: real)
    ensures Chroma(s, b) + m == b
  {
    b - Chroma(s, b)
  }

  /** The channels of chroma c at hue h, each raised by m. */
  function FromChroma(h: real, c: real, m: real): Channels
  {
    Lift(Sector(h, c, Secondary(h, c)), m)
  }

  /** In range, the brightness fixes the largest channel and brightness and saturation the
      smallest: every channel lies between round(255 b(1 - s)) and round(255 b). */
  lemma HsbToRgbExtremes(h: real, s: real, b: real)
    requires ValidHsb(Hsb(h, s, b))
    ensures ExtremesAre(HsbToRgb(h, s, b), Scale255(b), Scale255(Lightest(s, b)))
  {
    ChromaRange(s, b);
    FromChromaExtremes(h, Chroma(s, b), Lightest(s, b), b);
  }

  lemma FromChromaExtremes(h: real, c: real, m: real, b: real)
    requires 0.0 <= h && 0.0 <= c && 0.0 <= m && c + m == b && b <= 1.0
    ensures ExtremesAre(FromChroma(h, c, m), Scale255(b), Scale255(m))
  {
    SecondaryRange(h, c);
    SectorShaped(h, c, Secondary(h, c));
    Extremes(Sector(h, c, Secondary(h, c)), c, m, b);
  }

  lemma SectorShaped(h: real, c: real, x: real)
    requires 0.0 <= x <= c
    ensures SectorShape(Sector(h, c, x), c)
  {
  }

  /** In range, every channel hsbToRgb produces is a byte. */
  lemma HsbToRgbRange(h: real, s: real, b: real)
    requires ValidHsb(Hsb(h, s, b))
    ensures var ch := HsbToRgb(h, s, b); 0 <= ch.r < 256 && 0 <= ch.g < 256 && 0 <= ch.b < 256
  {
    HsbToRgbExtremes(h, s, b);
    ChromaRange(s, b);
    Scale255Monotone(Lightest(s, b), b);
  }

  /** Hue 360, which the hue slider reaches at its right end, gives the same colour as 0. */
  lemma FullTurnHue(s: real, b: real)
    ensures HsbToRgb(360.0, s, b) == HsbToRgb(0.0, s, b)
  {
    assert Rem(6.0, 2.0) == 0.0 by { assert Trunc(3.0) == 3; }
    assert Rem(0.0, 2.0) == 0.0 by { assert Trunc(0.0) == 0; }
  }

  // ---------------------------------------------------------------------
  // hsbToHex

  /** `v.toString(16).padStart(2, '0')`. */
  function Byte2(v: int): string
  {
    PadStart(IntToHex(v), 2, '0')
  }

  function HsbToHex(c: Hsb): string
  {
    var ch := HsbToRgb(c.h, c.s, c.b);
    "#" + (Byte2(ch.r) + Byte2(ch.g) + Byte2(ch.b))
  }

  /** A byte pads to exactly its two lower-case digits. */
  lemma Byte2Digits(v: int)
    requires 0 <= v < 256
    ensures Byte2(v) == HexDigits(v, 2)
  {
    Pow16Table();
    NatToHexPadded(2, v);
  }

  /** In range, hsbToHex prints the channels exactly as the client's rgbToHex does. */
  lemma HsbToHexIsRgbToHex(c: Hsb)
    requires ValidHsb(c)
    ensures var ch := HsbToRgb(c.h, c.s, c.b); HsbToHex(c) == ColorCodec.RgbToHex(ch.r, ch.g, ch.b)
  {
    var ch := HsbToRgb(c.h, c.s, c.b);
    HsbToRgbRange(c.h, c.s, c.b);
    Byte2Digits(ch.r);
    Byte2Digits(ch.g);
    Byte2Digits(ch.b);
    ColorCodec.RgbToHexDigits(ch.r, ch.g, ch.b);
  }

  /** HSB in range prints as a `#rrggbb` colour in lower case whose pairs the picker reads
      back as the channels hsbToRgb produced. */
  lemma HsbToHexColor(c: Hsb)
    requires ValidHsb(c)
    ensures var hex := HsbToHex(c);
            var ch := HsbToRgb(c.h, c.s, c.b);
            && IsHexColor(hex)
            && (forall i :: 1 <= i < 7 ==> IsLowerHexDigit(hex[i]))
            && HexToRgb(hex) == ColorCodec.Rgb(Num(ch.r), Num(ch.g), Num(ch.b))
  {
    var ch := HsbToRgb(c.h, c.s, c.b);
    HsbToRgbRange(c.h, c.s, c.b);
    HsbToHexIsRgbToHex(c);
    PrintedBytes(ch.r, ch.g, ch.b);
  }

  /** Three bytes printed by rgbToHex read back through the pairs at 1, 3 and 5. */
  lemma PrintedBytes(r: nat, g: nat, b: nat)
    requires r < 256 && g < 256 && b < 256
    ensures var hex := ColorCodec.RgbToHex(r, g, b);
            && IsHexColor(hex)
            && (forall i :: 1 <= i < 7 ==> IsLowerHexDigit(hex[i]))
            && HexToRgb(hex) == ColorCodec.Rgb(Num(r), Num(g), Num(b))
  {
    ColorCodec.RgbToHexColor(r, g, b);
    ColorCodec.RgbHexRoundTrip(r, g, b);
    HexToRgbOfColor(ColorCodec.RgbToHex(r, g, b));
  }

  // ---------------------------------------------------------------------
  // Round trip through HSB

  /** Converting a `#RRGGBB` colour to HSB and back keeps its largest and smallest
      channel exactly; only the middle channel can move, by the rounding of the hue. */
  lemma ExtremesRoundTrip(hex: string)
    requires IsHexColor(hex)
    ensures HexToHsb(hex).Some?
    ensures var c := HexToHsb(hex).value;
            var bytes := Channels(PairValue(hex, 1), PairValue(hex, 3), PairValue(hex, 5));
            ExtremesAre(HsbToRgb(c.h, c.s, c.b), MaxChannel(bytes), MinChannel(bytes))
  {
    HexToHsbOfColor(hex);
    ChannelExtremesKept(PairValue(hex, 1), PairValue(hex, 3), PairValue(hex, 5));
  }

  /** Bytes converted to HSB and back keep their largest and smallest value. */
  lemma ChannelExtremesKept(r: nat, g: nat, b: nat)
    requires r < 256 && g < 256 && b < 256
    ensures var c := RgbToHsb(r as real, g as real, b as real);
            ExtremesAre(HsbToRgb(c.h, c.s, c.b), MaxChannel(Channels(r, g, b)), MinChannel(Channels(r, g, b)))
  {
    BytesHsb(r, g, b);
    ExtremesOf(RgbToHsb(r as real, g as real, b as real), MaxChannel(Channels(r, g, b)), MinChannel(Channels(r, g, b)));
  }

  /** HSB of bytes whose largest value is hi and smallest lo. */
  predicate HsbOfBytes(c: Hsb, hi: int, lo: int)
  {
    && ValidHsb(c)
    && c.b == hi as real / 255.0
    && c.s == if hi == 0 then 0.0 else (hi - lo) as real / hi as real
  }

  lemma BytesHsb(r: nat, g: nat, b: nat)
    requires r < 256 && g < 256 && b < 256
    ensures HsbOfBytes(RgbToHsb(r as real, g as real, b as real), MaxChannel(Channels(r, g, b)), MinChannel(Channels(r, g, b)))
  {
    var c := RgbToHsb(r as real, g as real, b as real);
    var hi := MaxChannel(Channels(r, g, b));
    var lo := MinChannel(Channels(r, g, b));
    RgbToHsbRange(r as real, g as real, b as real);
    assert c.b == hi as real / 255.0;
    assert Min3(r as real / 255.0, g as real / 255.0, b as real / 255.0) == lo as real / 255.0;
    if hi != 0 {
      RatioScaled((hi - lo) as real, hi as real);
    }
  }

  lemma RatioScaled(x: real, y: real)
    requires y != 0.0
    ensures (y / 255.0 - (y - x) / 255.0) / (y / 255.0) == x / y
  {
    assert y / 255.0 - (y - x) / 255.0 == x / 255.0;
  }

  /** Back from such HSB, the largest channel is hi and the smallest lo. */
  lemma ExtremesOf(c: Hsb, hi: int, lo: int)
    requires 0 <= lo <= hi && HsbOfBytes(c, hi, lo)
    ensures ExtremesAre(HsbToRgb(c.h, c.s, c.b), hi, lo)
  {
    HsbToRgbExtremes(c.h, c.s, c.b);
    BytesRound(c, hi, lo);
  }

  /** Brightness and saturation of such HSB scale back to hi and lo. */
  lemma BytesRound(c: Hsb, hi: int, lo: int)
    requires 0 <= lo <= hi && HsbOfBytes(c, hi, lo)
    ensures Scale255(c.b) == hi && Scale255(Lightest(c.s, c.b)) == lo
  {
    assert c.b * 255.0 == hi as real;
    if hi != 0 {
      assert c.b * c.s == (hi - lo) as real / 255.0;
    }
    assert (c.b - c.b * c.s) * 255.0 == lo as real;
    RoundUnique(hi as real, hi);
    RoundUnique(lo as real, lo);
  }

  /** A grey `#RRGGBB` colour survives the trip through HSB exactly, in lower case. */
  lemma GreyRoundTrip(hex: string)
    requires IsHexColor(hex)
    requires PairValue(hex, 1) == PairValue(hex, 3) == PairValue(hex, 5)
    ensures HexToHsb(hex).Some? && HsbToHex(HexToHsb(hex).value) == "#" + LowerHexString(hex[1..])
  {
    var v := PairValue(hex, 1);
    HexToHsbValid(hex);
    ExtremesRoundTrip(hex);
    var c := HexToHsb(hex).value;
    var ch := HsbToRgb(c.h, c.s, c.b);
    assert ch == Channels(v, v, v);
    HsbToHexIsRgbToHex(c);
    ColorCodec.PrintPairs(hex);
  }

  // ---------------------------------------------------------------------
  // Pointer updates

  /** updateSaturation: the pointer's offsets across and down the area, as fractions of
      its size, are clamped into [0, 1]; across is saturation, down is lost brightness. */
  function UpdateSaturation(prev: Hsb, across: real, down: real): (c: Hsb)
    ensures ValidHsb(prev) ==> ValidHsb(c)
    ensures c.h == prev.h
    ensures 0.0 <= across <= 1.0 && 0.0 <= down <= 1.0 ==> c.s == across && c.b + down == 1.0
  {
    prev.(s := Clamp01(across), b := 1.0 - Clamp01(down))
  }

  /** updateHue: the pointer's offset along the slider, clamped into [0, 1], times 360. */
  function UpdateHue(prev: Hsb, along: real): (c: Hsb)
    ensures ValidHsb(prev) ==> ValidHsb(c)
    ensures c.s == prev.s && c.b == prev.b
    ensures 0.0 <= c.h <= 360.0
    ensures 0.0 <= along <= 1.0 ==> c.h == along * 360.0
  {
    prev.(h := Clamp01(along) * 360.0)
  }

  /** One pointer event on the picker. */
  datatype PointerEvent = OnSaturation(across: real, down: real) | OnHue(along: real)

  function Apply(prev: Hsb, e: PointerEvent): Hsb
  {
    match e
    case OnSaturation(across, down) => UpdateSaturation(prev, across, down)
    case OnHue(along) => UpdateHue(prev, along)
  }

  /** The HSB states after each event in turn. */
  function States(start: Hsb, events: seq<PointerEvent>): (r: seq<Hsb>)
    ensures |r| == |events|
    ensures ValidHsb(start) ==> forall i :: 0 <= i < |r| ==> ValidHsb(r[i])
    decreases |events|
  {
    if |events| == 0 then []
    else
      var next := Apply(start, events[0]);
      [next] + States(next, events[1..])
  }

  /** The colours the picker reports: one when it opens and one per event. None when the
      opening colour has a pair that is not a number. */
  function Reported(color: string, events: seq<PointerEvent>): Option<seq<string>>
  {
    match HexToHsb(color)
    case None => None
    case Some(start) =>
      var states := [start] + States(start, events);
      Some(seq(|states|, i requires 0 <= i < |states| => HsbToHex(states[i])))
  }

  /** Opened on a `#RRGGBB` colour, the picker reports only `#rrggbb` colours, one more
      than there are events. */
  lemma ReportedColors(color: string, events: seq<PointerEvent>)
    requires IsHexColor(color)
    ensures var r := Reported(color, events);
            && r.Some? && |r.value| == |events| + 1
            && forall i :: 0 <= i < |r.value| ==> IsHexColor(r.value[i])
  {
    HexToHsbValid(color);
    var start := HexToHsb(color).value;
    var states := [start] + States(start, events);
    forall i | 0 <= i < |states|
      ensures IsHexColor(HsbToHex(states[i]))
    {
      HsbToHexColor(states[i]);
    }
  }
}
