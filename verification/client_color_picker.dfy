/**
 The colour picker of the `client/` variant: it keeps the colour as hue (degrees),
 saturation and lightness (percent) on three sliders, derives them from the
 colour it is opened on, turns every slider move back into a `#rrggbb` colour,
 and forwards a typed colour only when it matches the hex pattern.
 */
module ClientColorPicker {
  import opened Js
  import opened GradientModel
  import ColorCodec
  import opened ColorMath

  /** The three slider values: hue in 0..360, saturation and lightness in 0..100. */
  datatype Hsl = Hsl(hue: int, saturation: int, lightness: int)

  predicate SliderRange(c: Hsl)
  {
    0 <= c.hue <= 360 && 0 <= c.saturation <= 100 && 0 <= c.lightness <= 100
  }

  // ---------------------------------------------------------------------
  // The init effect: channels to HSL

  /** `(max + min) / (2 * 255)`. */
  function Lightness(hi: int, lo: int): real
  {
    (hi + lo) as real / 510.0
  }

  /** The saturation formula; None where the source divides by zero (and gets an
      infinite or NaN saturation). */
  function SaturationOf(hi: int, lo: int): Option<real>
  {
    if hi == lo then Some(0.0)
    else if Lightness(hi, lo) > 0.5 then
      if 510 - hi - lo == 0 then None else Some((hi - lo) as real / (510 - hi - lo) as real)
    else
      if hi + lo == 0 then None else Some((hi - lo) as real / (hi + lo) as real)
  }

  /** The hue formula after `h *= 60`, before rounding: the sector formula of the largest
      channel, moved up by 6 when red is largest and green is below blue. */
  function HueOf(ch: Channels): real
  {
    var hi := MaxChannel(ch);
    var lo := MinChannel(ch);
    if hi == lo then 0.0
    else
      var sector :=
        if hi == ch.r then (ch.g - ch.b) as real / (hi - lo) as real + (if ch.g < ch.b then 6.0 else 0.0)
        else if hi == ch.g then (ch.b - ch.r) as real / (hi - lo) as real + 2.0
        else (ch.r - ch.g) as real / (hi - lo) as real + 4.0;
      sector * 60.0
  }

  /** The slider values the init effect sets, each through Math.round. */
  function HslOfChannels(ch: Channels): Option<Hsl>
  {
    var hi := MaxChannel(ch);
    var lo := MinChannel(ch);
    match SaturationOf(hi, lo)
    case None => None
    case Some(s) => Some(Hsl(Round(HueOf(ch)), Round(s * 100.0), Round(Lightness(hi, lo) * 100.0)))
  }

  /** The init effect on the colour the picker is opened on: None when a channel is NaN. */
  function HslOf(color: string): Option<Hsl>
  {
    var rgb := ColorCodec.HexToRgb(color);
    if rgb.r.Num? && rgb.g.Num? && rgb.b.Num? then
      HslOfChannels(Channels(rgb.r.n, rgb.g.n, rgb.b.n))
    else
      None
  }

  /** Equal channels give hue 0 and saturation 0. */
  lemma HslGrey(ch: Channels)
    requires ch.r == ch.g == ch.b
    ensures HslOfChannels(ch).Some?
    ensures HslOfChannels(ch).value.hue == 0 && HslOfChannels(ch).value.saturation == 0
  {
  }

  /** For any integer channels the unrounded hue lies in [0, 360): the +6 moves the only
      negative sector values up one turn. */
  lemma HueOfRange(ch: Channels)
    ensures 0.0 <= HueOf(ch) < 360.0
  {
    var hi := MaxChannel(ch);
    var lo := MinChannel(ch);
    if hi != lo {
      var d := (hi - lo) as real;
      if hi == ch.r {
        UnitRatio((ch.g - ch.b) as real, d);
        if ch.g < ch.b {
          assert (ch.g - ch.b) as real / d < 0.0;
        }
      } else if hi == ch.g {
        UnitRatio((ch.b - ch.r) as real, d);
      } else {
        UnitRatio((ch.r - ch.g) as real, d);
        assert (ch.r - ch.g) as real / d < 1.0 by {
          assert ch.r - ch.g < hi - lo;
        }
      }
    }
  }

  /** Byte channels always give slider values, within the sliders' ranges. */
  lemma HslRange(ch: Channels)
    requires 0 <= ch.r < 256 && 0 <= ch.g < 256 && 0 <= ch.b < 256
    ensures HslOfChannels(ch).Some? && SliderRange(HslOfChannels(ch).value)
  {
    var hi := MaxChannel(ch);
    var lo := MinChannel(ch);
    HueOfRange(ch);
    RoundMonotone(0.0, HueOf(ch));
    RoundMonotone(HueOf(ch), 360.0);
    var l := Lightness(hi, lo);
    assert 0.0 <= l <= 1.0;
    RoundMonotone(0.0, l * 100.0);
    RoundMonotone(l * 100.0, 100.0);
    SaturationRange(hi, lo);
    var s := SaturationOf(hi, lo).value;
    RoundMonotone(0.0, s * 100.0);
    RoundMonotone(s * 100.0, 100.0);
  }

  /** For bytes lo <= hi the saturation is defined and lies in [0, 1]. */
  lemma SaturationRange(hi: int, lo: int)
    requires 0 <= lo <= hi < 256
    ensures SaturationOf(hi, lo).Some? && 0.0 <= SaturationOf(hi, lo).value <= 1.0
  {
    if hi != lo {
      if Lightness(hi, lo) > 0.5 {
        UnitRatio((hi - lo) as real, (510 - hi - lo) as real);
      } else {
        UnitRatio((hi - lo) as real, (hi + lo) as real);
      }
    }
  }

  /** Rounding can reach the hue slider's right end: `#ff0001` opens at hue 360. */
  lemma FullTurnReached()
    ensures HslOfChannels(Channels(255, 0, 1)) == Some(Hsl(360, 100, 50))
  {
    var ch := Channels(255, 0, 1);
    assert HueOf(ch) == 360.0 - 60.0 / 255.0;
    RoundUnique(HueOf(ch), 360);
    assert SaturationOf(255, 0) == Some(1.0);
    RoundUnique(100.0, 100);
    RoundUnique(50.0, 50);
  }

  /** A colour that passes the hex pattern opens the picker with slider values in range. */
  lemma HslOfInput(color: string)
    requires IsHexInput(color)
    ensures HslOf(color).Some? && SliderRange(HslOf(color).value)
  {
    ColorCodec.HexInputChannels(color);
    var rgb := ColorCodec.HexToRgb(color);
    HslRange(Channels(rgb.r.n, rgb.g.n, rgb.b.n));
  }

  // ---------------------------------------------------------------------
  // updateColorFromHSL

  /** `c = (1 - |2l/100 - 1|) * s/100`: the spread between the largest and the smallest
      component. */
  function Chroma(s: int, l: int): real
  {
    Saturate(Spread(l), s)
  }

  /** A spread scaled by a saturation percentage: within a percentage from 0 to 100 it
      stays between 0 and the spread. */
  function Saturate(a: real, s: int): (c: real)
    ensures 0.0 <= a && 0 <= s <= 100 ==> 0.0 <= c <= a
  {
    a * ((s as real) / 100.0)
  }

  /** `1 - |2l/100 - 1|`: the chroma at full saturation, largest at lightness 50. */
  function Spread(l: int): real
  {
    1.0 - Abs(2.0 * (l as real) / 100.0 - 1.0)
  }

  /** `m = l/100 - c/2`: the smallest component, which every component is raised by. */
  function Lowest(s: int, l: int): (m: real)
    ensures m + Chroma(s, l) / 2.0 == (l as real) / 100.0
  {
    (l as real) / 100.0 - Chroma(s, l) / 2.0
  }

  /** The largest component, `m + c`: lightness is the midpoint of it and the smallest. */
  function Highest(s: int, l: int): (b: real)
    ensures Lowest(s, l) + Chroma(s, l) == b
    ensures (b + Lowest(s, l)) / 2.0 == (l as real) / 100.0
  {
    Lowest(s, l) + Chroma(s, l)
  }

  /** The sector table, selected by upper bounds only: every hue, even a negative one,
      lands in one of the six rows. */
  function Sector(h: real, c: real, x: real): (t: (real, real, real))
    ensures multiset{t.0, t.1, t.2} == multiset{c, x, 0.0}
  {
    if h < 60.0 then (c, x, 0.0)
    else if h < 120.0 then (x, c, 0.0)
    else if h < 180.0 then (0.0, c, x)
    else if h < 240.0 then (0.0, x, c)
    else if h < 300.0 then (x, 0.0, c)
    else (c, 0.0, x)
  }

  /** The channels updateColorFromHSL computes before printing them. */
  function HslToRgb(h: int, s: int, l: int): Channels
  {
    Lift(Sector(h as real, Chroma(s, l), Secondary(h as real, Chroma(s, l))), Lowest(s, l))
  }

  /** updateColorFromHSL: the colour the picker shows and forwards. */
  function UpdateColor(h: int, s: int, l: int): string
  {
    var ch := HslToRgb(h, s, l);
    ColorCodec.RgbToHex(ch.r, ch.g, ch.b)
  }

  /** Within the slider ranges the chroma is non-negative and the smallest and largest
      components lie in [0, 1]. */
  lemma ChromaBounds(s: int, l: int)
    requires 0 <= s <= 100 && 0 <= l <= 100
    ensures 0.0 <= Chroma(s, l) && 0.0 <= Lowest(s, l) && Highest(s, l) <= 1.0
  {
    SpreadBounds(l);
  }

  /** At full saturation the smallest component is at least 0 and the largest at most 1. */
  lemma SpreadBounds(l: int)
    requires 0 <= l <= 100
    ensures 0.0 <= Spread(l) <= 1.0
    ensures 0.0 <= (l as real) / 100.0 - Spread(l) / 2.0
    ensures (l as real) / 100.0 + Spread(l) / 2.0 <= 1.0
  {
    var half := (l as real) / 100.0;
    if half <= 0.5 {
      assert Spread(l) == 2.0 * half;
    } else {
      assert Spread(l) == 2.0 - 2.0 * half;
    }
  }

  lemma SectorShaped(h: real, c: real, x: real)
    requires 0.0 <= x <= c
    ensures SectorShape(Sector(h, c, x), c)
  {
  }

  /** Within the slider ranges the largest channel is the largest component scaled and the
      smallest channel the smallest component scaled. */
  lemma HslToRgbExtremes(h: int, s: int, l: int)
    requires SliderRange(Hsl(h, s, l))
    ensures ExtremesAre(HslToRgb(h, s, l), Scale255(Highest(s, l)), Scale255(Lowest(s, l)))
  {
    ChromaBounds(s, l);
    SecondaryRange(h as real, Chroma(s, l));
    SectorShaped(h as real, Chroma(s, l), Secondary(h as real, Chroma(s, l)));
    Extremes(Sector(h as real, Chroma(s, l), Secondary(h as real, Chroma(s, l))), Chroma(s, l), Lowest(s, l), Highest(s, l));
  }

  /** Within the slider ranges every channel is a byte. */
  lemma HslToRgbRange(h: int, s: int, l: int)
    requires SliderRange(Hsl(h, s, l))
    ensures var ch := HslToRgb(h, s, l); 0 <= ch.r < 256 && 0 <= ch.g < 256 && 0 <= ch.b < 256
  {
    HslToRgbExtremes(h, s, l);
    ChromaBounds(s, l);
    Scale255Monotone(Lowest(s, l), Highest(s, l));
  }

  /** Within the slider ranges the picker forwards a `#rrggbb` colour in lower case that
      its own reader turns back into the channels it printed. */
  lemma UpdateColorHex(h: int, s: int, l: int)
    requires SliderRange(Hsl(h, s, l))
    ensures var hex := UpdateColor(h, s, l);
            var ch := HslToRgb(h, s, l);
            && IsHexColor(hex)
            && (forall i :: 1 <= i < 7 ==> IsLowerHexDigit(hex[i]))
            && ColorCodec.HexToRgb(hex) == ColorCodec.Rgb(Num(ch.r), Num(ch.g), Num(ch.b))
  {
    var ch := HslToRgb(h, s, l);
    HslToRgbRange(h, s, l);
    ColorCodec.RgbToHexColor(ch.r, ch.g, ch.b);
    ColorCodec.RgbHexRoundTrip(ch.r, ch.g, ch.b);
  }

  /** Saturation 0 gives a grey whose level is the lightness, at any hue. */
  lemma ZeroSaturationGrey(h: int, l: int)
    ensures var v := Scale255((l as real) / 100.0); HslToRgb(h, 0, l) == Channels(v, v, v)
  {
    assert Chroma(0, l) == 0.0;
    assert Secondary(h as real, 0.0) == 0.0;
  }

  /** Hue 360, the hue slider's right end, gives the same colour as hue 0. */
  lemma FullTurnHue(s: int, l: int)
    ensures HslToRgb(360, s, l) == HslToRgb(0, s, l)
    ensures UpdateColor(360, s, l) == UpdateColor(0, s, l)
  {
    SecondaryAtTurn(Chroma(s, l));
  }

  /** At hue 0 and hue 360 the secondary component vanishes. */
  lemma SecondaryAtTurn(c: real)
    ensures Secondary(360.0, c) == 0.0 && Secondary(0.0, c) == 0.0
  {
    assert Rem(6.0, 2.0) == 0.0 by { assert Trunc(3.0) == 3; }
    assert Rem(0.0, 2.0) == 0.0 by { assert Trunc(0.0) == 0; }
  }

  // ---------------------------------------------------------------------
  // Typed colours

  /** handleHexChange: the typed text is forwarded only when it matches the pattern
      `^#([A-Fa-f0-9]{6}|[A-Fa-f0-9]{3})$`. */
  function HexChange(text: string): Option<string>
  {
    if IsHexInput(text) then Some(text) else None
  }

  /** A forwarded text reads as three bytes, and three-digit shorthand reads as each digit
      doubled: printing it again gives the six-digit colour in lower case. */
  lemma ShorthandExpands(hex: string)
    requires HexChange(hex).Some? && |hex| == 4
    ensures var c := ColorCodec.HexToRgb(hex);
            && c.r.Num? && c.g.Num? && c.b.Num?
            && ColorCodec.RgbToHex(c.r.n, c.g.n, c.b.n)
               == "#" + ([LowerHex(hex[1]), LowerHex(hex[1])] + [LowerHex(hex[2]), LowerHex(hex[2])]
                         + [LowerHex(hex[3]), LowerHex(hex[3])])
  {
    ColorCodec.HexToRgbShort(hex);
    Doubled(hex[1]);
    Doubled(hex[2]);
    Doubled(hex[3]);
    var d1, d2, d3 := HexDigitValue(hex[1]), HexDigitValue(hex[2]), HexDigitValue(hex[3]);
    ColorCodec.RgbToHexDigits(17 * d1, 17 * d2, 17 * d3);
  }

  /** A doubled digit's byte prints as that digit twice. */
  lemma Doubled(c: char)
    requires IsHexDigit(c)
    ensures 17 * HexDigitValue(c) < 256
    ensures HexDigits(17 * HexDigitValue(c), 2) == [LowerHex(c), LowerHex(c)]
  {
    var d := HexDigitValue(c);
    HexDigitsByte(17 * d);
    DivMod16(17 * d, d, d);
  }

  // ---------------------------------------------------------------------
  // A session with the picker

  /** The swatches the picker offers. */
  const Palette: seq<string> := [
    "#f44336", "#e91e63", "#9c27b0", "#673ab7",
    "#3f51b5", "#2196f3", "#03a9f4", "#00bcd4",
    "#009688", "#4caf50", "#8bc34a", "#cddc39",
    "#ffeb3b", "#ffc107", "#ff9800", "#ff5722"]

  /** Every swatch is a `#rrggbb` colour. */
  lemma PaletteColors()
    ensures forall c :: c in Palette ==> IsHexColor(c)
  {
    SixDigits("#f44336");
    SixDigits("#e91e63");
    SixDigits("#9c27b0");
    SixDigits("#673ab7");
    SixDigits("#3f51b5");
    SixDigits("#2196f3");
    SixDigits("#03a9f4");
    SixDigits("#00bcd4");
    SixDigits("#009688");
    SixDigits("#4caf50");
    SixDigits("#8bc34a");
    SixDigits("#cddc39");
    SixDigits("#ffeb3b");
    SixDigits("#ffc107");
    SixDigits("#ff9800");
    SixDigits("#ff5722");
  }

  lemma SixDigits(s: string)
    requires |s| == 7 && s[0] == '#'
    requires IsHexDigit(s[1]) && IsHexDigit(s[2]) && IsHexDigit(s[3])
    requires IsHexDigit(s[4]) && IsHexDigit(s[5]) && IsHexDigit(s[6])
    ensures IsHexColor(s)
  {
  }

  /** What the picker shows in its text field and the slider values it holds. */
  datatype Picker = Picker(internal: string, hsl: Hsl)

  /** Opening the picker: the text field shows the colour and the sliders take its HSL. */
  function Open(color: string): Option<Picker>
  {
    match HslOf(color)
    case None => None
    case Some(hsl) => Some(Picker(color, hsl))
  }

  datatype Event =
    | HueMoved(hue: int)
    | SaturationMoved(saturation: int)
    | LightnessMoved(lightness: int)
    | HexTyped(text: string)
    | SwatchClicked(color: string)

  /** Events the picker's own controls can produce: slider values within the sliders'
      ranges and swatches from the palette. */
  predicate FromControls(e: Event)
  {
    match e
    case HueMoved(v) => 0 <= v <= 360
    case SaturationMoved(v) => 0 <= v <= 100
    case LightnessMoved(v) => 0 <= v <= 100
    case HexTyped(_) => true
    case SwatchClicked(color) => color in Palette
  }

  /** A slider moved to the slider values hsl: the new colour is shown and forwarded. */
  function Slid(hsl: Hsl): (Picker, Option<string>)
  {
    var color := UpdateColor(hsl.hue, hsl.saturation, hsl.lightness);
    (Picker(color, hsl), Some(color))
  }

  /** One event: the picker's next state and the colour it forwards, if any. */
  function Step(p: Picker, e: Event): (Picker, Option<string>)
  {
    match e
    case HueMoved(v) => Slid(p.hsl.(hue := v))
    case SaturationMoved(v) => Slid(p.hsl.(saturation := v))
    case LightnessMoved(v) => Slid(p.hsl.(lightness := v))
    case HexTyped(text) => (p.(internal := text), HexChange(text))
    case SwatchClicked(color) => (p.(internal := color), Some(color))
  }

  /** One event from the controls keeps the slider values in range, and whatever it
      forwards matches the hex pattern and is what the text field then shows. */
  lemma StepValid(p: Picker, e: Event)
    requires SliderRange(p.hsl) && FromControls(e)
    ensures var (q, out) := Step(p, e);
            && SliderRange(q.hsl)
            && (out.Some? ==> IsHexInput(out.value) && q.internal == out.value)
            && (e.HexTyped? ==> q.hsl == p.hsl && q.internal == e.text && (out.Some? <==> IsHexInput(e.text)))
  {
    match e
    case HueMoved(v) => SlidValid(p.hsl.(hue := v));
    case SaturationMoved(v) => SlidValid(p.hsl.(saturation := v));
    case LightnessMoved(v) => SlidValid(p.hsl.(lightness := v));
    case HexTyped(_) =>
    case SwatchClicked(_) => PaletteColors();
  }

  lemma SlidValid(hsl: Hsl)
    requires SliderRange(hsl)
    ensures Slid(hsl).0.hsl == hsl && Slid(hsl).1.Some?
    ensures IsHexInput(Slid(hsl).1.value) && Slid(hsl).0.internal == Slid(hsl).1.value
  {
    UpdateColorHex(hsl.hue, hsl.saturation, hsl.lightness);
  }

  /** The colours forwarded over a run of events, in order. */
  function Forwarded(p: Picker, events: seq<Event>): (r: seq<string>)
    ensures |r| <= |events|
    decreases |events|
  {
    if |events| == 0 then []
    else
      var (q, out) := Step(p, events[0]);
      (if out.Some? then [out.value] else []) + Forwarded(q, events[1..])
  }

  /** Over any run of events from the controls, every forwarded colour matches the hex
      pattern. */
  lemma {:induction false} ForwardedValid(p: Picker, events: seq<Event>)
    requires SliderRange(p.hsl)
    requires forall i :: 0 <= i < |events| ==> FromControls(events[i])
    ensures forall i :: 0 <= i < |Forwarded(p, events)| ==> IsHexInput(Forwarded(p, events)[i])
    decreases |events|
  {
    if |events| > 0 {
      StepValid(p, events[0]);
      var (q, out) := Step(p, events[0]);
      ForwardedValid(q, events[1..]);
    }
  }

  /** Opened on a colour that matches the hex pattern, the picker starts in range and
      forwards only colours that match it. */
  lemma SessionColors(color: string, events: seq<Event>)
    requires IsHexInput(color)
    requires forall i :: 0 <= i < |events| ==> FromControls(events[i])
    ensures Open(color).Some? && SliderRange(Open(color).value.hsl)
    ensures forall i :: 0 <= i < |Forwarded(Open(color).value, events)| ==>
              IsHexInput(Forwarded(Open(color).value, events)[i])
  {
    HslOfInput(color);
    ForwardedValid(Open(color).value, events);
  }
}
