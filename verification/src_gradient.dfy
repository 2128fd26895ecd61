/**
 The gradient engine of the `src/` variant (src/lib/gradient.ts): the CSS and
 React Native code generators, the random gradient and the list of saved
 gradients kept in the browser's local storage. Positions are fractions in
 [0, 1] and are printed as whole percentages in CSS.
 */
module SrcGradient {
  import opened Js
  import opened GradientModel
  import StableSort
  import SrcSchema
  import opened ColorCodec
  import opened CssFrame

  // ---------------------------------------------------------------------
  // Colour tokens

  /** The rgba form of a colour: channels from characters 1-2, 3-4 and 5-6, alpha 1. */
  function RgbaText(color: string): string
  {
    RgbaOf(Channel(color, 1), Channel(color, 3), Channel(color, 5))
  }

  /** On a `#RRGGBB` colour the three channels are the bytes its digit pairs spell. */
  lemma RgbaOfHexColor(color: string)
    requires IsHexColor(color)
    ensures RgbaText(color) == "rgba(" + IntToString(PairValue(color, 1)) + ", "
                               + IntToString(PairValue(color, 3)) + ", "
                               + IntToString(PairValue(color, 5)) + ", 1)"
  {
    ChannelOfPair(color, 1);
    ChannelOfPair(color, 3);
    ChannelOfPair(color, 5);
  }

  lemma RgbaTextPlain(color: string)
    ensures '%' !in RgbaText(color) && '"' !in RgbaText(color)
  {
    RgbaOfPlain(Channel(color, 1), Channel(color, 3), Channel(color, 5));
  }

  function ColorText(color: string, format: ColorFormat): string
  {
    match format
    case Hex => color
    case Rgba => RgbaText(color)
  }

  // ---------------------------------------------------------------------
  // CSS

  /** A position printed as a whole percentage: `${Math.round(position * 100)}%`. */
  function PercentText(position: real): string
  {
    IntToString(Round(position * 100.0)) + "%"
  }

  function StopText(stop: ColorStop, format: ColorFormat): string
  {
    ColorText(stop.color, format) + " " + PercentText(stop.position)
  }

  function StopTexts(stops: seq<ColorStop>, format: ColorFormat): (r: seq<string>)
    ensures |r| == |stops| && forall i :: 0 <= i < |stops| ==> r[i] == StopText(stops[i], format)
  {
    if |stops| == 0 then [] else [StopText(stops[0], format)] + StopTexts(stops[1..], format)
  }

  /** The first argument of linear-gradient: the angle, or top-to-bottom when the angle is off. */
  function Direction(useAngle: bool, angle: int): string
  {
    if useAngle then IntToString(angle) + "deg" else "to bottom"
  }

  /** generateGradientCSS: the stops sorted by position, joined with ", ". */
  function GenerateGradientCss(g: Gradient, format: ColorFormat): string
  {
    CssText(Direction(g.useAngle, g.angle), StopTexts(SortStops(g.colorStops), format))
  }

  /** With the angle on the direction is `<angle>deg`; with it off the direction is
      `to bottom` and the angle has no influence on the text at all. */
  lemma CssDirection(g: Gradient, format: ColorFormat, otherAngle: int)
    ensures g.useAngle ==> CssOpen + IntToString(g.angle) + "deg, " <= GenerateGradientCss(g, format)
    ensures !g.useAngle ==> CssOpen + "to bottom, " <= GenerateGradientCss(g, format)
    ensures !g.useAngle ==> GenerateGradientCss(g.(angle := otherAngle), format) == GenerateGradientCss(g, format)
  {
    CssOpening(g, format);
    if !g.useAngle {
      CssAngleIgnored(g, format, otherAngle);
    }
  }

  lemma CssOpening(g: Gradient, format: ColorFormat)
    ensures g.useAngle ==> CssOpen + IntToString(g.angle) + "deg, " <= GenerateGradientCss(g, format)
    ensures !g.useAngle ==> CssOpen + "to bottom, " <= GenerateGradientCss(g, format)
  {
    DirectionPrefix(g.useAngle, g.angle, StopTexts(SortStops(g.colorStops), format));
  }

  lemma DirectionPrefix(useAngle: bool, angle: int, ts: seq<string>)
    ensures useAngle ==> CssOpen + IntToString(angle) + "deg, " <= CssText(Direction(useAngle, angle), ts)
    ensures !useAngle ==> CssOpen + "to bottom, " <= CssText(Direction(useAngle, angle), ts)
  {
    CssTextPrefix(Direction(useAngle, angle), ts);
    if useAngle {
      DegreesOpening(IntToString(angle));
    }
  }

  lemma CssAngleIgnored(g: Gradient, format: ColorFormat, otherAngle: int)
    requires !g.useAngle
    ensures GenerateGradientCss(g.(angle := otherAngle), format) == GenerateGradientCss(g, format)
  {
    var h := g.(angle := otherAngle);
    assert Direction(h.useAngle, h.angle) == Direction(g.useAngle, g.angle);
  }

  lemma StopTextPercent(stop: ColorStop, format: ColorFormat)
    requires format == Rgba || '%' !in stop.color
    ensures Count('%', StopText(stop, format)) == 1
  {
    if format == Rgba {
      RgbaTextPlain(stop.color);
    }
    var n := IntToString(Round(stop.position * 100.0));
    IntToStringPlain(Round(stop.position * 100.0));
    assert StopText(stop, format) == ColorText(stop.color, format) + " " + n + "%";
    CountOnePercent(ColorText(stop.color, format), n);
  }

  /** Every stop contributes exactly one `%` sign, so the CSS text holds one per stop
      (in rgba form always, in hex form when no colour contains `%`). */
  lemma CssPercentCount(g: Gradient, format: ColorFormat)
    requires format == Rgba || ColorsAvoid(g.colorStops, '%')
    ensures Count('%', GenerateGradientCss(g, format)) == |g.colorStops|
  {
    var sorted := SortStops(g.colorStops);
    var ts := StopTexts(sorted, format);
    var d := Direction(g.useAngle, g.angle);
    assert GenerateGradientCss(g, format) == CssText(d, ts);
    if format == Hex {
      ColorsAvoidSorted(g.colorStops, '%');
    }
    StopTextsPercent(sorted, format);
    DirectionPlain(g.useAngle, g.angle);
    CssTextCount(d, ts);
  }

  lemma DirectionPlain(useAngle: bool, angle: int)
    ensures '%' !in Direction(useAngle, angle) && ',' !in Direction(useAngle, angle)
  {
    IntToStringPlain(angle);
  }

  lemma StopTextsPercent(stops: seq<ColorStop>, format: ColorFormat)
    requires format == Rgba || ColorsAvoid(stops, '%')
    ensures SumCounts('%', StopTexts(stops, format)) == |stops|
  {
    var ts := StopTexts(stops, format);
    forall i | 0 <= i < |ts|
      ensures Count('%', ts[i]) == 1
    {
      StopTextPercent(stops[i], format);
    }
    SumCountsOnes('%', ts);
  }

  /** Only the sorted order matters: lists with the same stops at every position, in
      the same relative order among equal positions, give the same CSS. */
  lemma CssStopOrder(g: Gradient, stops: seq<ColorStop>, format: ColorFormat)
    requires forall k :: StableSort.WithKey(stops, Position, k) == StableSort.WithKey(g.colorStops, Position, k)
    ensures GenerateGradientCss(g.(colorStops := stops), format) == GenerateGradientCss(g, format)
  {
    StableSort.SortByKeyGroups(stops, g.colorStops, Position);
  }

  /** With distinct positions any permutation of the stops gives the same CSS. */
  lemma CssPermutation(g: Gradient, stops: seq<ColorStop>, format: ColorFormat)
    requires multiset(stops) == multiset(g.colorStops)
    requires StableSort.DistinctKeys(stops, Position) && StableSort.DistinctKeys(g.colorStops, Position)
    ensures GenerateGradientCss(g.(colorStops := stops), format) == GenerateGradientCss(g, format)
  {
    StableSort.SortPermutationInvariant(stops, g.colorStops, Position);
  }

  // Reading the CSS back

  /** What the stops should read back as: colour and rounded percentage, in list order. */
  function Expected(stops: seq<ColorStop>): (r: seq<CssStop>)
    ensures |r| == |stops|
    ensures forall i :: 0 <= i < |stops| ==> r[i] == CssStop(stops[i].color, Round(stops[i].position * 100.0))
  {
    if |stops| == 0 then []
    else [CssStop(stops[0].color, Round(stops[0].position * 100.0))] + Expected(stops[1..])
  }

  lemma ReadStopBack(stop: ColorStop)
    requires ',' !in stop.color && ' ' !in stop.color
    ensures ReadStop(" " + StopText(stop, Hex)) == Some(CssStop(stop.color, Round(stop.position * 100.0)))
  {
    var n := Round(stop.position * 100.0);
    var digits := IntToString(n);
    var tail := digits + "%";
    IntToStringPlain(n);
    assert ' ' !in tail;
    StopWords(stop.color, tail);
    assert StopText(stop, Hex) == stop.color + " " + tail;
    assert tail[..|tail| - 1] == digits;
    IntToStringRoundTrip(n);
  }

  /** `" colour percent"` splits at the spaces into an empty word, the colour and the
      percentage. */
  lemma StopWords(color: string, tail: string)
    requires ' ' !in color && ' ' !in tail
    ensures Split(" " + (color + " " + tail), ' ') == ["", color, tail]
  {
    assert " " + (color + " " + tail) == "" + [' '] + (color + [' '] + tail);
    SplitAtSeparator("", color + [' '] + tail, ' ');
    SplitAtSeparator(color, tail, ' ');
    SplitNoSeparator(tail, ' ');
  }

  lemma {:induction false} ReadStopsBack(stops: seq<ColorStop>)
    requires ColorsAvoid(stops, ',') && ColorsAvoid(stops, ' ')
    ensures ReadStops(Spaced(StopTexts(stops, Hex))) == Some(Expected(stops))
  {
    if |stops| > 0 {
      HeadReadsBack(stops);
      ReadStopsBack(stops[1..]);
      ReadStopsStep(stops);
    }
  }

  /** The first stop reads back, and the rest still avoid the separators. */
  lemma HeadReadsBack(stops: seq<ColorStop>)
    requires |stops| > 0 && ColorsAvoid(stops, ',') && ColorsAvoid(stops, ' ')
    ensures ColorsAvoid(stops[1..], ',') && ColorsAvoid(stops[1..], ' ')
    ensures ReadStop(" " + StopText(stops[0], Hex)) == Some(CssStop(stops[0].color, Round(stops[0].position * 100.0)))
  {
    ColorsAvoidTail(stops, ',');
    ColorsAvoidTail(stops, ' ');
    ReadStopBack(stops[0]);
  }

  /** One more stop in front is read back in front. */
  lemma ReadStopsStep(stops: seq<ColorStop>)
    requires |stops| > 0
    requires ReadStop(" " + StopText(stops[0], Hex)) == Some(CssStop(stops[0].color, Round(stops[0].position * 100.0)))
    requires ReadStops(Spaced(StopTexts(stops[1..], Hex))) == Some(Expected(stops[1..]))
    ensures ReadStops(Spaced(StopTexts(stops, Hex))) == Some(Expected(stops))
  {
    var head := CssStop(stops[0].color, Round(stops[0].position * 100.0));
    var p := " " + StopText(stops[0], Hex);
    var ps := Spaced(StopTexts(stops[1..], Hex));
    var rest := Expected(stops[1..]);
    ReadStopsCons(p, ps, head, rest);
    SpacedStopTextsCons(stops);
  }

  lemma SpacedStopTextsCons(stops: seq<ColorStop>)
    requires |stops| > 0
    ensures Spaced(StopTexts(stops, Hex)) == [" " + StopText(stops[0], Hex)] + Spaced(StopTexts(stops[1..], Hex))
  {
    assert StopTexts(stops, Hex)[1..] == StopTexts(stops[1..], Hex);
  }

  lemma StopTextNoComma(stop: ColorStop)
    requires ',' !in stop.color
    ensures ',' !in StopText(stop, Hex)
  {
    IntToStringPlain(Round(stop.position * 100.0));
  }

  lemma StopTextsNoComma(stops: seq<ColorStop>)
    requires ColorsAvoid(stops, ',')
    ensures forall i :: 0 <= i < |stops| ==> ',' !in StopTexts(stops, Hex)[i]
  {
    forall i | 0 <= i < |stops|
      ensures ',' !in StopTexts(stops, Hex)[i]
    {
      StopTextNoComma(stops[i]);
    }
  }

  /** Hex-format CSS can be read back: the direction, then every stop's colour and
      rounded percentage in ascending position order. It needs colours without commas
      or spaces, which every colour the schema admits satisfies. */
  lemma CssReadBack(g: Gradient)
    requires |g.colorStops| >= 1
    requires ColorsAvoid(g.colorStops, ',') && ColorsAvoid(g.colorStops, ' ')
    ensures ReadCss(GenerateGradientCss(g, Hex))
            == Some((Direction(g.useAngle, g.angle), Expected(SortStops(g.colorStops))))
  {
    var sorted := SortStops(g.colorStops);
    var ts := StopTexts(sorted, Hex);
    var d := Direction(g.useAngle, g.angle);
    assert GenerateGradientCss(g, Hex) == CssText(d, ts);
    ColorsAvoidSorted(g.colorStops, ',');
    ColorsAvoidSorted(g.colorStops, ' ');
    StopTextsNoComma(sorted);
    DirectionPlain(g.useAngle, g.angle);
    ReadStopsBack(sorted);
    ReadCssText(d, ts);
  }

  /** Every gradient the schema accepts reads back from its hex CSS. */
  lemma ValidCssReadBack(g: Gradient)
    requires SrcSchema.Valid(g)
    ensures ReadCss(GenerateGradientCss(g, Hex))
            == Some((Direction(g.useAngle, g.angle), Expected(SortStops(g.colorStops))))
  {
    forall i | 0 <= i < |g.colorStops|
      ensures ',' !in g.colorStops[i].color && ' ' !in g.colorStops[i].color
    {
      assert SrcSchema.ValidStop(g.colorStops[i]);
      var c := g.colorStops[i].color;
      assert forall j :: 0 <= j < |c| ==> c[j] == '#' || IsHexDigit(c[j]);
    }
    CssReadBack(g);
  }

  // ---------------------------------------------------------------------
  // React Native

  const LocationsPrefix := "  locations={["

  function RnColorText(color: string, format: ColorFormat): string
  {
    "\"" + ColorText(color, format) + "\""
  }

  function RnColorTexts(stops: seq<ColorStop>, format: ColorFormat): (r: seq<string>)
    ensures |r| == |stops| && forall i :: 0 <= i < |stops| ==> r[i] == RnColorText(stops[i].color, format)
  {
    if |stops| == 0 then [] else [RnColorText(stops[0].color, format)] + RnColorTexts(stops[1..], format)
  }

  /** The direction of the start and end points in degrees when the angle is on: the
      angle's remainder by 360, with the sign JavaScript's % keeps, less 90. */
  function PointDirection(useAngle: bool, angle: int): (r: Option<real>)
    ensures r.Some? <==> useAngle
  {
    if useAngle then Some((IntRem(angle, 360) - 90) as real) else None
  }

  /** The start and end lines: from the centre towards the direction, or top to bottom. */
  function StartEndLines(dir: Option<real>, trig: Trig): (r: seq<string>)
    ensures |r| == 2
  {
    match dir
    case Some(d) => AngleLines(d, trig)
    case None => [ "  start={{ x: 0.5, y: 0 }}\n", "  end={{ x: 0.5, y: 1 }}\n" ]
  }

  /** From the centre to the point half a unit away in direction d (degrees). */
  function AngleLines(d: real, trig: Trig): (r: seq<string>)
    ensures |r| == 2
  {
    var endX := 0.5 + 0.5 * trig.cosDeg(d);
    var endY := 0.5 + 0.5 * trig.sinDeg(d);
    [ PointLine("  start", 0.5, 0.5), PointLine("  end", endX, endY) ]
  }

  /** One point prop, `name={{ x: .., y: .. }}`, each coordinate with two decimals. */
  function PointLine(name: string, x: real, y: real): string
  {
    name + ("={{ x: " + (ToFixed2(x) + (", y: " + (ToFixed2(y) + " }}\n"))))
  }

  /** The start line begins with `  start` and the end line with `  end`. */
  lemma StartEndNames(dir: Option<real>, trig: Trig)
    ensures var r := StartEndLines(dir, trig);
            "  start" <= r[0] && "  end" <= r[1]
  {
    if dir.Some? {
      AngleNames(dir.value, trig);
    }
  }

  lemma AngleNames(d: real, trig: Trig)
    ensures var r := AngleLines(d, trig);
            "  start" <= r[0] && "  end" <= r[1]
  {
    var endX := 0.5 + 0.5 * trig.cosDeg(d);
    var endY := 0.5 + 0.5 * trig.sinDeg(d);
    PointLineName("  start", 0.5, 0.5);
    PointLineName("  end", endX, endY);
  }

  lemma PointLineName(name: string, x: real, y: real)
    ensures name <= PointLine(name, x, y)
  {
    var rest := "={{ x: " + (ToFixed2(x) + (", y: " + (ToFixed2(y) + " }}\n")));
    assert (name + rest)[..|name|] == name;
  }

  /** The lines of the component for formatted colours, optional formatted locations
      and the start and end lines. */
  function RnLinesOf(colorTexts: seq<string>, locationTexts: Option<seq<string>>, startEnd: seq<string>): seq<string>
  {
    [ "<LinearGradient\n", "  colors={[" + Join(colorTexts, ", ") + "]}\n" ]
    + (if locationTexts.Some? then [LocationsPrefix + Join(locationTexts.value, ", ") + "]}\n"] else [])
    + startEnd
    + [ "  style={{ flex: 1 }}\n", "/>" ]
  }

  /** The formatted locations, when they are asked for. */
  function LocationTexts(sorted: seq<ColorStop>, includeLocations: bool, fraction: real -> string): (r: Option<seq<string>>)
    ensures r.Some? <==> includeLocations
  {
    if includeLocations then Some(NumberTexts(Positions(sorted), fraction)) else None
  }

  /** The lines generateReactNativeCode appends to its result, in order. */
  function RnLines(g: Gradient, format: ColorFormat, includeLocations: bool, trig: Trig, fraction: real -> string): seq<string>
  {
    var sorted := SortStops(g.colorStops);
    RnLinesOf(
      RnColorTexts(sorted, format),
      LocationTexts(sorted, includeLocations, fraction),
      StartEndLines(PointDirection(g.useAngle, g.angle), trig))
  }

  /** generateReactNativeCode. */
  function GenerateReactNativeCode(g: Gradient, format: ColorFormat, includeLocations: bool, trig: Trig, fraction: real -> string): string
  {
    Concat(RnLines(g, format, includeLocations, trig, fraction))
  }

  const ColorsOpen := "  colors={["
  const ListClose := "]}\n"

  /** The colours line read back: the quoted list between `  colors={[` and `]}`. */
  function ReadColorsLine(line: string): Option<seq<string>>
  {
    if |line| < |ColorsOpen| + |ListClose| || line[..|ColorsOpen|] != ColorsOpen || line[|line| - |ListClose|..] != ListClose then None
    else ReadQuotedList(line[|ColorsOpen|..|line| - |ListClose|], '"')
  }

  lemma RnLinesOfShape(colorTexts: seq<string>, locationTexts: Option<seq<string>>, startEnd: seq<string>)
    requires |startEnd| == 2 && "  start" <= startEnd[0] && "  end" <= startEnd[1]
    ensures var lines := RnLinesOf(colorTexts, locationTexts, startEnd);
      && |lines| == (if locationTexts.Some? then 7 else 6)
      && lines[0] == "<LinearGradient\n"
      && lines[|lines| - 2] == "  style={{ flex: 1 }}\n"
      && lines[|lines| - 1] == "/>"
      && ((exists i :: 0 <= i < |lines| && LocationsPrefix <= lines[i]) <==> locationTexts.Some?)
  {
    var lines := RnLinesOf(colorTexts, locationTexts, startEnd);
    forall i | 0 <= i < |lines|
      ensures locationTexts.Some? || !(LocationsPrefix <= lines[i])
    {
      if locationTexts.None? {
        if i == 0 {
          assert lines[i][0] == '<';
        } else if i == 2 || i == 3 {
          assert lines[i] == startEnd[i - 2];
          assert lines[i][2] != 'l';
        } else {
          assert |lines[i]| < 3 || lines[i][2] != 'l';
        }
      }
    }
    if locationTexts.Some? {
      assert LocationsPrefix <= lines[2];
    }
  }

  /** The code opens the component, lists the colours, has a locations line exactly
      when asked for, ends with the style line and closes the component. */
  lemma RnShape(g: Gradient, format: ColorFormat, includeLocations: bool, trig: Trig, fraction: real -> string)
    ensures var lines := RnLines(g, format, includeLocations, trig, fraction);
      && |lines| == (if includeLocations then 7 else 6)
      && lines[0] == "<LinearGradient\n"
      && lines[|lines| - 2] == "  style={{ flex: 1 }}\n"
      && lines[|lines| - 1] == "/>"
      && ((exists i :: 0 <= i < |lines| && LocationsPrefix <= lines[i]) <==> includeLocations)
  {
    var sorted := SortStops(g.colorStops);
    var locations := LocationTexts(sorted, includeLocations, fraction);
    var lines := RnLinesOf(RnColorTexts(sorted, format), locations, StartEndLines(PointDirection(g.useAngle, g.angle), trig));
    StartEndNames(PointDirection(g.useAngle, g.angle), trig);
    RnLinesOfShape(RnColorTexts(sorted, format), locations, StartEndLines(PointDirection(g.useAngle, g.angle), trig));
    assert lines == RnLines(g, format, includeLocations, trig, fraction);
  }

  lemma ReadColorsLineBack(items: seq<string>)
    requires |items| >= 1 && forall i :: 0 <= i < |items| ==> ',' !in items[i]
    ensures ReadColorsLine(ColorsOpen + Join(Quoted(items, '"'), ", ") + ListClose) == Some(items)
  {
    QuotedListRoundTrip(items, '"');
    var body := Join(Quoted(items, '"'), ", ");
    FramedParts(ColorsOpen, body, ListClose);
  }

  /** Hex-format colours read back from the colours line in ascending position order,
      for colours without commas. */
  lemma RnColorsReadBack(g: Gradient, includeLocations: bool, trig: Trig, fraction: real -> string)
    requires |g.colorStops| >= 1 && ColorsAvoid(g.colorStops, ',')
    ensures ReadColorsLine(RnLines(g, Hex, includeLocations, trig, fraction)[1]) == Some(Colors(SortStops(g.colorStops)))
  {
    var sorted := SortStops(g.colorStops);
    ColorsAvoidSorted(g.colorStops, ',');
    var items := Colors(sorted);
    assert RnColorTexts(sorted, Hex) == Quoted(items, '"');
    ReadColorsLineBack(items);
  }

  /** With locations asked for, the line after the colours lists String(position) of every
      stop, in ascending position order, one text per stop. */
  lemma RnLocationsLine(g: Gradient, format: ColorFormat, includeLocations: bool, trig: Trig, fraction: real -> string)
    requires includeLocations
    ensures var lines := RnLines(g, format, includeLocations, trig, fraction);
      var sorted := SortStops(g.colorStops);
      var texts := NumberTexts(Positions(sorted), fraction);
      && |lines| == 7
      && lines[2] == LocationsPrefix + Join(texts, ", ") + "]}\n"
      && |texts| == |g.colorStops|
      && (forall k :: 0 <= k < |texts| ==> texts[k] == NumberToString(sorted[k].position, fraction))
      && (forall i, j :: 0 <= i < j < |texts| ==> sorted[i].position <= sorted[j].position)
  {
  }

  /** The start and end lines sit just before the style line and the closing tag. */
  lemma RnLinesOfStartEnd(colorTexts: seq<string>, locationTexts: Option<seq<string>>, startEnd: seq<string>)
    requires |startEnd| == 2
    ensures var lines := RnLinesOf(colorTexts, locationTexts, startEnd);
      |lines| >= 4 && lines[|lines| - 4] == startEnd[0] && lines[|lines| - 3] == startEnd[1]
  {
  }

  /** The code depends on the gradient only through its stops and its start and end lines. */
  lemma RnLinesCongruence(g1: Gradient, g2: Gradient, format: ColorFormat, includeLocations: bool,
                          trig1: Trig, trig2: Trig, fraction: real -> string)
    requires g1.colorStops == g2.colorStops
    requires StartEndLines(PointDirection(g1.useAngle, g1.angle), trig1) == StartEndLines(PointDirection(g2.useAngle, g2.angle), trig2)
    ensures RnLines(g1, format, includeLocations, trig1, fraction) == RnLines(g2, format, includeLocations, trig2, fraction)
  {
  }

  /** The start and end lines: top to bottom with no direction, from the centre with one. */
  lemma StartEndValues(dir: Option<real>, trig: Trig)
    ensures dir.None? ==> StartEndLines(dir, trig) == ["  start={{ x: 0.5, y: 0 }}\n", "  end={{ x: 0.5, y: 1 }}\n"]
    ensures dir.Some? ==> StartEndLines(dir, trig)[0] == "  start={{ x: 0.50, y: 0.50 }}\n"
  {
    if dir.Some? {
      assert StartEndLines(dir, trig)[0] == PointLine("  start", 0.5, 0.5);
      CentreLine();
    }
  }

  /** The centre point is printed with two decimals. */
  lemma CentreLine()
    ensures PointLine("  start", 0.5, 0.5) == "  start={{ x: 0.50, y: 0.50 }}\n"
  {
    ToFixed2Half();
    CentreWords(ToFixed2(0.5));
  }

  lemma CentreWords(h: string)
    requires h == "0.50"
    ensures "  start" + ("={{ x: " + (h + (", y: " + (h + " }}\n")))) == "  start={{ x: 0.50, y: 0.50 }}\n"
  {
    CentreY(h);
    CentreXY(h);
    CentreStart();
  }

  lemma CentreY(h: string)
    requires h == "0.50"
    ensures ", y: " + (h + " }}\n") == ", y: 0.50 }}\n"
  {
    assert h + " }}\n" == "0.50 }}\n";
  }

  lemma CentreXY(h: string)
    requires h == "0.50"
    ensures h + ", y: 0.50 }}\n" == "0.50, y: 0.50 }}\n"
  {
  }

  lemma CentreStart()
    ensures "  start" + ("={{ x: " + "0.50, y: 0.50 }}\n") == "  start={{ x: 0.50, y: 0.50 }}\n"
  {
    assert "={{ x: " + "0.50, y: 0.50 }}\n" == "={{ x: 0.50, y: 0.50 }}\n";
  }

  /** A full turn more, from a non-negative angle, gives the same direction. */
  lemma DirectionTurn(useAngle: bool, angle: int)
    requires angle >= 0
    ensures PointDirection(useAngle, angle + 360) == PointDirection(useAngle, angle)
  {
    IntRemTurn(angle);
  }

  /** With the angle off the gradient runs top to bottom whatever the angle and the
      trigonometry; with it on it starts at the centre. */
  lemma RnStartEnd(g: Gradient, format: ColorFormat, includeLocations: bool, trig: Trig, fraction: real -> string,
                   otherAngle: int, otherTrig: Trig)
    ensures var lines := RnLines(g, format, includeLocations, trig, fraction);
      && |lines| >= 4
      && (!g.useAngle ==>
            && lines[|lines| - 4] == "  start={{ x: 0.5, y: 0 }}\n"
            && lines[|lines| - 3] == "  end={{ x: 0.5, y: 1 }}\n"
            && RnLines(g.(angle := otherAngle), format, includeLocations, otherTrig, fraction) == lines)
      && (g.useAngle ==> lines[|lines| - 4] == "  start={{ x: 0.50, y: 0.50 }}\n")
  {
    var sorted := SortStops(g.colorStops);
    var se := StartEndLines(PointDirection(g.useAngle, g.angle), trig);
    var colors := RnColorTexts(sorted, format);
    var locations := LocationTexts(sorted, includeLocations, fraction);
    assert RnLines(g, format, includeLocations, trig, fraction) == RnLinesOf(colors, locations, se);
    RnLinesOfStartEnd(colors, locations, se);
    StartEndValues(PointDirection(g.useAngle, g.angle), trig);
    if !g.useAngle {
      StartEndValues(PointDirection(g.useAngle, otherAngle), otherTrig);
      RnLinesCongruence(g.(angle := otherAngle), g, format, includeLocations, otherTrig, trig, fraction);
    }
  }

  /** A non-negative angle and the same angle one turn further draw the same code. */
  lemma RnFullTurn(g: Gradient, format: ColorFormat, includeLocations: bool, trig: Trig, fraction: real -> string)
    requires g.angle >= 0
    ensures RnLines(g.(angle := g.angle + 360), format, includeLocations, trig, fraction)
            == RnLines(g, format, includeLocations, trig, fraction)
  {
    DirectionTurn(g.useAngle, g.angle);
    RnLinesCongruence(g.(angle := g.angle + 360), g, format, includeLocations, trig, trig, fraction);
  }

  /** Like the CSS, the code depends only on the sorted stops. */
  lemma RnStopOrder(g: Gradient, stops: seq<ColorStop>, format: ColorFormat, includeLocations: bool, trig: Trig, fraction: real -> string)
    requires forall k :: StableSort.WithKey(stops, Position, k) == StableSort.WithKey(g.colorStops, Position, k)
    ensures GenerateReactNativeCode(g.(colorStops := stops), format, includeLocations, trig, fraction)
            == GenerateReactNativeCode(g, format, includeLocations, trig, fraction)
  {
    StableSort.SortByKeyGroups(stops, g.colorStops, Position);
  }

  // ---------------------------------------------------------------------
  // Random gradient

  /** `Math.floor(Math.random() * 3) + 2`. */
  function StopCount(d: real): (n: nat)
    requires 0.0 <= d < 1.0
    ensures 2 <= n <= 4
  {
    (d * 3.0).Floor + 2
  }

  /** The draws generateRandomGradient consumes: angle, stop count, six per colour. */
  predicate EnoughDraws(ds: seq<real>)
  {
    |ds| >= 2 && Draws(ds) && |ds| >= 2 + 6 * StopCount(ds[1])
  }

  function RandomStops(ds: seq<real>, n: nat): (r: seq<ColorStop>)
    requires n >= 2 && |ds| >= 6 * n && Draws(ds)
    ensures |r| == n
    ensures forall i :: 0 <= i < n ==> r[i] == ColorStop(RandomColor(ds[6 * i..6 * i + 6]), i as real / (n - 1) as real)
  {
    seq(n, i requires 0 <= i < n => ColorStop(RandomColor(ds[6 * i..6 * i + 6]), i as real / (n - 1) as real))
  }

  /** generateRandomGradient with `Math.random()` read from `ds` in call order and the
      fresh id passed in. */
  function GenerateRandomGradient(id: string, ds: seq<real>): (g: Gradient)
    requires EnoughDraws(ds)
    ensures g.id == Some(id) && g.name == Some("Random Gradient") && g.useAngle
    ensures 0 <= g.angle < 360 && g.angle == (ds[0] * 360.0).Floor
    ensures |g.colorStops| == StopCount(ds[1])
    ensures forall i :: 0 <= i < |g.colorStops| ==> g.colorStops[i].color == RandomColor(ds[2 + 6 * i..8 + 6 * i])
  {
    var n := StopCount(ds[1]);
    var g := Gradient(Some(id), Some("Random Gradient"), (ds[0] * 360.0).Floor, true, RandomStops(ds[2..], n));
    assert forall i :: 0 <= i < n ==> ds[2..][6 * i..6 * i + 6] == ds[2 + 6 * i..8 + 6 * i];
    g
  }

  /** The i-th of n evenly spread fractions lies in [0, 1]; they grow with i in steps
      of 1 / (n - 1). */
  lemma EvenFraction(i: nat, j: nat, n: nat)
    requires 2 <= n && i <= j < n
    ensures 0.0 <= i as real / (n - 1) as real <= j as real / (n - 1) as real <= 1.0
    ensures j == i + 1 ==> j as real / (n - 1) as real - i as real / (n - 1) as real == 1.0 / (n - 1) as real
  {
    var m := (n - 1) as real;
    assert i as real / m * m == i as real;
    assert j as real / m * m == j as real;
    assert (j as real / m - i as real / m) * m == j as real - i as real;
  }

  /** The random stops are spread evenly from 0 to 1 in ascending order. */
  lemma RandomStopsEven(ds: seq<real>, n: nat)
    requires n >= 2 && |ds| >= 6 * n && Draws(ds)
    ensures var stops := RandomStops(ds, n);
      && stops[0].position == 0.0
      && stops[n - 1].position == 1.0
      && (forall i :: 0 <= i < n - 1 ==> stops[i + 1].position - stops[i].position == 1.0 / (n - 1) as real)
      && StableSort.SortedBy(stops, Position)
      && (forall i :: 0 <= i < n ==> 0.0 <= stops[i].position <= 1.0)
  {
    var stops := RandomStops(ds, n);
    forall i, j | 0 <= i <= j < n
      ensures 0.0 <= stops[i].position <= stops[j].position <= 1.0
      ensures j == i + 1 ==> stops[j].position - stops[i].position == 1.0 / (n - 1) as real
    {
      EvenFraction(i, j, n);
    }
    assert (n - 1) as real / (n - 1) as real == 1.0;
  }

  /** The random gradient spreads its stops evenly from 0 to 1 in ascending order, so
      sorting leaves them alone, and the schema accepts it. */
  lemma RandomGradientShape(id: string, ds: seq<real>)
    requires EnoughDraws(ds)
    ensures var g := GenerateRandomGradient(id, ds);
      && var stops := g.colorStops;
      && 2 <= |stops| <= 4
      && stops[0].position == 0.0
      && stops[|stops| - 1].position == 1.0
      && (forall i :: 0 <= i < |stops| - 1 ==>
            stops[i + 1].position - stops[i].position == 1.0 / (|stops| - 1) as real)
      && SortStops(stops) == stops
      && SrcSchema.Valid(g)
  {
    var n := StopCount(ds[1]);
    var stops := RandomStops(ds[2..], n);
    RandomStopsEven(ds[2..], n);
    StableSort.SortSorted(stops, Position);
    var g := GenerateRandomGradient(id, ds);
    assert g.colorStops == stops;
  }

  // ---------------------------------------------------------------------
  // Saved gradients (the `savedGradients` local storage entry)

  /** What the storage entry holds: nothing (absent or empty string), text that does
      not parse as a list, or a parsed list. */
  datatype Slot = Empty | Corrupt | Holds(gradients: seq<Gradient>)

  /** `findIndex(g => g.id === id)`: the first match, or -1. */
  function IndexOfId(gs: seq<Gradient>, id: Option<string>): (r: int)
    ensures -1 <= r < |gs|
    ensures r == -1 <==> forall i :: 0 <= i < |gs| ==> gs[i].id != id
    ensures r >= 0 ==> gs[r].id == id && forall i :: 0 <= i < r ==> gs[i].id != id
  {
    if |gs| == 0 then -1
    else if gs[0].id == id then 0
    else
      var k := IndexOfId(gs[1..], id);
      if k == -1 then -1 else k + 1
  }

  /** Replace the first gradient with the same id in place, or append. */
  function Upsert(gs: seq<Gradient>, g: Gradient): (r: seq<Gradient>)
  {
    var k := IndexOfId(gs, g.id);
    if k != -1 then gs[k := g] else gs + [g]
  }

  /** getSavedGradientsFromLocalStorage: the stored list, or [] when storage is
      unavailable, the entry is missing or empty, or it does not parse. */
  function GetSaved(available: bool, slot: Slot): (r: seq<Gradient>)
    ensures !available ==> r == []
    ensures slot.Empty? || slot.Corrupt? ==> r == []
  {
    if available && slot.Holds? then slot.gradients else []
  }

  /** saveGradientToLocalStorage. A corrupt entry makes JSON.parse throw; the error is
      caught and nothing is written. */
  function SaveToSlot(available: bool, slot: Slot, g: Gradient): (r: Slot)
    ensures !available || slot.Corrupt? ==> r == slot
    ensures available && slot.Empty? ==> r == Holds([g])
  {
    if !available then slot
    else
      match slot
      case Empty => Holds([g])
      case Corrupt => Corrupt
      case Holds(gs) => Holds(Upsert(gs, g))
  }

  /** `filter(g => g.id !== id)`. */
  function RemoveId(gs: seq<Gradient>, id: string): (r: seq<Gradient>)
    ensures |r| <= |gs|
  {
    if |gs| == 0 then []
    else (if gs[0].id == Some(id) then [] else [gs[0]]) + RemoveId(gs[1..], id)
  }

  /** deleteGradientFromLocalStorage: a missing entry is left alone. */
  function DeleteFromSlot(available: bool, slot: Slot, id: string): (r: Slot)
    ensures !available || !slot.Holds? ==> r == slot
  {
    if available && slot.Holds? then Holds(RemoveId(slot.gradients, id)) else slot
  }

  /** deleteAllGradientsFromLocalStorage. */
  function ClearSlot(available: bool, slot: Slot): (r: Slot)
    ensures available ==> GetSaved(available, r) == []
    ensures !available ==> r == slot
  {
    if available then Empty else slot
  }

  predicate DistinctIds(gs: seq<Gradient>)
  {
    forall i, j :: 0 <= i < j < |gs| ==> gs[i].id != gs[j].id
  }

  /** After a save the list holds the gradient. When some saved gradient has its id, the
      first such one is replaced in place and every other entry stays; when none has,
      the gradient is appended. Distinct ids stay distinct. */
  lemma SaveThenGet(slot: Slot, g: Gradient)
    requires !slot.Corrupt?
    ensures var before := GetSaved(true, slot);
      var after := GetSaved(true, SaveToSlot(true, slot, g));
      var k := IndexOfId(before, g.id);
      && g in after
      && ((exists i :: 0 <= i < |before| && before[i].id == g.id) ==>
            && k >= 0
            && |after| == |before|
            && after[k] == g
            && (forall i :: 0 <= i < |before| && i != k ==> after[i] == before[i]))
      && ((forall i :: 0 <= i < |before| ==> before[i].id != g.id) ==> after == before + [g])
      && (forall i :: 0 <= i < |before| && before[i].id != g.id ==> after[i] == before[i])
      && (DistinctIds(before) ==> DistinctIds(after))
  {
    if slot.Holds? {
      var gs := slot.gradients;
      var after := GetSaved(true, SaveToSlot(true, slot, g));
      var k := IndexOfId(gs, g.id);
      if k != -1 {
        assert after == gs[k := g] && after[k] == g;
        assert forall i :: 0 <= i < |after| ==> after[i].id == gs[i].id;
      } else {
        assert after == gs + [g] && after[|gs|] == g;
        assert forall i :: 0 <= i < |gs| ==> after[i] == gs[i];
      }
    }
  }

  /** The first index holding the id is the one findIndex returns. */
  lemma IndexOfIdFirst(gs: seq<Gradient>, id: Option<string>, k: nat)
    requires k < |gs| && gs[k].id == id
    requires forall i :: 0 <= i < k ==> gs[i].id != id
    ensures IndexOfId(gs, id) == k
  {
  }

  /** Saving the same gradient twice is the same as saving it once. */
  lemma SaveIdempotent(available: bool, slot: Slot, g: Gradient)
    ensures SaveToSlot(available, SaveToSlot(available, slot, g), g) == SaveToSlot(available, slot, g)
  {
    if available && slot.Holds? {
      var gs := slot.gradients;
      var k := IndexOfId(gs, g.id);
      if k == -1 {
        var after := gs + [g];
        assert forall i :: 0 <= i < |gs| ==> after[i] == gs[i];
        IndexOfIdFirst(after, g.id, |gs|);
        assert after[|gs| := g] == after;
      } else {
        var after := gs[k := g];
        assert forall i :: 0 <= i < k ==> after[i] == gs[i];
        IndexOfIdFirst(after, g.id, k);
        assert after[k := g] == after;
      }
    } else if available && slot.Empty? {
      IndexOfIdFirst([g], g.id, 0);
      assert [g][0 := g] == [g];
    }
  }

  /** After a delete no saved gradient has the id, every gradient with another id is still
      there, and a list without the id is left as it is. */
  lemma {:induction false} RemoveIdSpec(gs: seq<Gradient>, id: string)
    ensures forall i :: 0 <= i < |RemoveId(gs, id)| ==> RemoveId(gs, id)[i].id != Some(id)
    ensures forall x :: x in RemoveId(gs, id) <==> x in gs && x.id != Some(id)
    ensures (forall i :: 0 <= i < |gs| ==> gs[i].id != Some(id)) ==> RemoveId(gs, id) == gs
  {
    RemoveIdGone(gs, id);
    RemoveIdMembers(gs, id);
    RemoveIdNothing(gs, id);
  }

  lemma {:induction false} RemoveIdGone(gs: seq<Gradient>, id: string)
    ensures forall i :: 0 <= i < |RemoveId(gs, id)| ==> RemoveId(gs, id)[i].id != Some(id)
  {
    if |gs| > 0 {
      RemoveIdGone(gs[1..], id);
    }
  }

  lemma {:induction false} RemoveIdMembers(gs: seq<Gradient>, id: string)
    ensures forall x :: x in RemoveId(gs, id) <==> x in gs && x.id != Some(id)
  {
    if |gs| > 0 {
      RemoveIdMembers(gs[1..], id);
      assert gs == [gs[0]] + gs[1..];
    }
  }

  lemma {:induction false} RemoveIdNothing(gs: seq<Gradient>, id: string)
    ensures (forall i :: 0 <= i < |gs| ==> gs[i].id != Some(id)) ==> RemoveId(gs, id) == gs
  {
    if |gs| > 0 && forall i :: 0 <= i < |gs| ==> gs[i].id != Some(id) {
      assert gs[0].id != Some(id);
      RemoveIdNothing(gs[1..], id);
      assert gs == [gs[0]] + gs[1..];
    }
  }

  /** Deleting is idempotent, and deleting a freshly saved gradient whose id was not
      yet present gives back the earlier list. */
  lemma DeleteAfterSave(slot: Slot, g: Gradient, id: string)
    requires slot.Holds? && g.id == Some(id)
    requires forall i :: 0 <= i < |slot.gradients| ==> slot.gradients[i].id != Some(id)
    ensures DeleteFromSlot(true, SaveToSlot(true, slot, g), id) == slot
    ensures DeleteFromSlot(true, DeleteFromSlot(true, slot, id), id) == DeleteFromSlot(true, slot, id)
  {
    var gs := slot.gradients;
    RemoveIdAppend(gs, [g], id);
    RemoveIdSpec(gs, id);
    RemoveIdSpec(RemoveId(gs, id), id);
  }

  lemma {:induction false} RemoveIdAppend(a: seq<Gradient>, b: seq<Gradient>, id: string)
    ensures RemoveId(a + b, id) == RemoveId(a, id) + RemoveId(b, id)
  {
    if |a| == 0 {
      assert a + b == b;
    } else {
      RemoveIdAppend(a[1..], b, id);
      var head := if a[0].id == Some(id) then [] else [a[0]];
      calc {
        RemoveId(a + b, id);
        { assert (a + b)[0] == a[0] && (a + b)[1..] == a[1..] + b; }
        head + RemoveId(a[1..] + b, id);
        head + (RemoveId(a[1..], id) + RemoveId(b, id));
        { StableSort.Assoc(head, RemoveId(a[1..], id), RemoveId(b, id)); }
        (head + RemoveId(a[1..], id)) + RemoveId(b, id);
        RemoveId(a, id) + RemoveId(b, id);
      }
    }
  }
}
