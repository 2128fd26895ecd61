/**
 The gradient engine of the `client/` variant (client/src/lib/gradient.ts): the
 CSS and React Native code generators and the random gradient. Positions are
 percentages in [0, 100], printed as they are in CSS and divided by 100 for the
 React Native locations.
 */
module ClientGradient {
  import opened Js
  import opened GradientModel
  import StableSort
  import opened ColorCodec
  import opened CssFrame
  import SharedSchema
  import SrcGradient

  // ---------------------------------------------------------------------
  // Colour tokens

  /** hexToRgba: the channels of the client hex parser, alpha 1. */
  function HexToRgba(hex: string): string
  {
    var c := HexToRgb(hex);
    RgbaOf(c.r, c.g, c.b)
  }

  /** A `#RRGGBB` colour prints the bytes its three digit pairs spell. */
  lemma HexToRgbaLong(hex: string)
    requires IsHexColor(hex)
    ensures HexToRgba(hex) == "rgba(" + IntToString(PairValue(hex, 1)) + ", " + IntToString(PairValue(hex, 3))
                              + ", " + IntToString(PairValue(hex, 5)) + ", 1)"
  {
    HexToRgbLong(hex);
  }

  /** A `#RGB` colour prints 17 times each digit. */
  lemma HexToRgbaShort(hex: string)
    requires IsHexInput(hex) && |hex| == 4
    ensures HexToRgba(hex) == "rgba(" + IntToString(17 * HexDigitValue(hex[1])) + ", "
                              + IntToString(17 * HexDigitValue(hex[2])) + ", "
                              + IntToString(17 * HexDigitValue(hex[3])) + ", 1)"
  {
    HexToRgbShort(hex);
  }

  /** Any other length after the optional '#' prints black. */
  lemma HexToRgbaBlack(hex: string)
    requires |StripHash(hex)| != 3 && |StripHash(hex)| != 6
    ensures HexToRgba(hex) == "rgba(0, 0, 0, 1)"
  {
    assert IntToString(0) == "0" by {
      assert NatToDecimal(0) == "0";
    }
  }

  /** On `#RRGGBB` colours the client and the `src/` conversions agree; they differ on
      the three-digit shorthand, which only the client expands. */
  lemma RgbaAgreesWithSrc(hex: string)
    requires IsHexColor(hex)
    ensures HexToRgba(hex) == SrcGradient.RgbaText(hex)
  {
    HexToRgbaLong(hex);
    SrcGradient.RgbaOfHexColor(hex);
  }

  function ColorText(color: string, format: ColorFormat): string
  {
    match format
    case Hex => color
    case Rgba => HexToRgba(color)
  }

  // ---------------------------------------------------------------------
  // CSS

  /** `${color} ${stop.position}%`: the position is printed as it is. */
  function StopText(stop: ColorStop, format: ColorFormat, fraction: real -> string): string
  {
    ColorText(stop.color, format) + " " + NumberToString(stop.position, fraction) + "%"
  }

  function StopTexts(stops: seq<ColorStop>, format: ColorFormat, fraction: real -> string): (r: seq<string>)
    ensures |r| == |stops| && forall i :: 0 <= i < |stops| ==> r[i] == StopText(stops[i], format, fraction)
  {
    if |stops| == 0 then [] else [StopText(stops[0], format, fraction)] + StopTexts(stops[1..], format, fraction)
  }

  /** The direction is always `<angle>deg`, whatever useAngle says. */
  function Direction(angle: int): string
  {
    IntToString(angle) + "deg"
  }

  /** generateGradientCSS: the stops sorted by position, joined with ", ". */
  function GenerateGradientCss(g: Gradient, format: ColorFormat, fraction: real -> string): string
  {
    CssText(Direction(g.angle), StopTexts(SortStops(g.colorStops), format, fraction))
  }

  /** The CSS opens with the angle in degrees and does not look at useAngle. */
  lemma CssIgnoresUseAngle(g: Gradient, format: ColorFormat, fraction: real -> string, useAngle: bool)
    ensures CssOpen + IntToString(g.angle) + "deg, " <= GenerateGradientCss(g, format, fraction)
    ensures GenerateGradientCss(g.(useAngle := useAngle), format, fraction) == GenerateGradientCss(g, format, fraction)
  {
    var ts := StopTexts(SortStops(g.colorStops), format, fraction);
    var d := Direction(g.angle);
    assert GenerateGradientCss(g, format, fraction) == CssText(d, ts);
    CssTextPrefix(d, ts);
    DegreesOpening(IntToString(g.angle));
    var h := g.(useAngle := useAngle);
    assert GenerateGradientCss(h, format, fraction) == CssText(d, ts);
  }

  lemma StopTextPercent(stop: ColorStop, format: ColorFormat, fraction: real -> string)
    requires format == Rgba || '%' !in stop.color
    requires '%' !in NumberToString(stop.position, fraction)
    ensures Count('%', StopText(stop, format, fraction)) == 1
  {
    if format == Rgba {
      var c := HexToRgb(stop.color);
      RgbaOfPlain(c.r, c.g, c.b);
    }
    CountOnePercent(ColorText(stop.color, format), NumberToString(stop.position, fraction));
  }

  lemma StopTextsPercent(stops: seq<ColorStop>, format: ColorFormat, fraction: real -> string)
    requires format == Rgba || ColorsAvoid(stops, '%')
    requires forall x :: '%' !in fraction(x)
    ensures SumCounts('%', StopTexts(stops, format, fraction)) == |stops|
  {
    var ts := StopTexts(stops, format, fraction);
    forall i | 0 <= i < |ts|
      ensures Count('%', ts[i]) == 1
    {
      IntToStringPlain(stops[i].position.Floor);
      StopTextPercent(stops[i], format, fraction);
    }
    SumCountsOnes('%', ts);
  }

  /** Every stop contributes exactly one `%` sign (in rgba form always, in hex form when
      no colour contains one), given that printing a number never yields `%`. */
  lemma CssPercentCount(g: Gradient, format: ColorFormat, fraction: real -> string)
    requires format == Rgba || ColorsAvoid(g.colorStops, '%')
    requires forall x :: '%' !in fraction(x)
    ensures Count('%', GenerateGradientCss(g, format, fraction)) == |g.colorStops|
  {
    var sorted := SortStops(g.colorStops);
    var ts := StopTexts(sorted, format, fraction);
    var d := Direction(g.angle);
    assert GenerateGradientCss(g, format, fraction) == CssText(d, ts);
    if format == Hex {
      ColorsAvoidSorted(g.colorStops, '%');
    }
    StopTextsPercent(sorted, format, fraction);
    IntToStringPlain(g.angle);
    CssTextCount(d, ts);
  }

  /** Only the sorted order matters: lists with the same stops at every position, in
      the same relative order among equal positions, give the same CSS. */
  lemma CssStopOrder(g: Gradient, stops: seq<ColorStop>, format: ColorFormat, fraction: real -> string)
    requires forall k :: StableSort.WithKey(stops, Position, k) == StableSort.WithKey(g.colorStops, Position, k)
    ensures GenerateGradientCss(g.(colorStops := stops), format, fraction) == GenerateGradientCss(g, format, fraction)
  {
    StableSort.SortByKeyGroups(stops, g.colorStops, Position);
  }

  /** With distinct positions any permutation of the stops gives the same CSS. */
  lemma CssPermutation(g: Gradient, stops: seq<ColorStop>, format: ColorFormat, fraction: real -> string)
    requires multiset(stops) == multiset(g.colorStops)
    requires StableSort.DistinctKeys(stops, Position) && StableSort.DistinctKeys(g.colorStops, Position)
    ensures GenerateGradientCss(g.(colorStops := stops), format, fraction) == GenerateGradientCss(g, format, fraction)
  {
    StableSort.SortPermutationInvariant(stops, g.colorStops, Position);
  }

  // Reading the CSS back

  /** Every position is a whole percentage. */
  predicate WholePositions(stops: seq<ColorStop>)
  {
    forall i :: 0 <= i < |stops| ==> stops[i].position == stops[i].position.Floor as real
  }

  lemma WholePositionsSorted(stops: seq<ColorStop>)
    requires WholePositions(stops)
    ensures WholePositions(SortStops(stops))
  {
    var sorted := SortStops(stops);
    forall i | 0 <= i < |sorted|
      ensures sorted[i].position == sorted[i].position.Floor as real
    {
      assert sorted[i] in multiset(stops);
      var j :| 0 <= j < |stops| && stops[j] == sorted[i];
    }
  }

  /** What whole-percentage stops read back as: colour and percentage, in list order. */
  function Expected(stops: seq<ColorStop>): (r: seq<CssStop>)
    ensures |r| == |stops|
    ensures forall i :: 0 <= i < |stops| ==> r[i] == CssStop(stops[i].color, stops[i].position.Floor)
  {
    if |stops| == 0 then []
    else [CssStop(stops[0].color, stops[0].position.Floor)] + Expected(stops[1..])
  }

  lemma ReadStopBack(stop: ColorStop, fraction: real -> string)
    requires ',' !in stop.color && ' ' !in stop.color
    requires stop.position == stop.position.Floor as real
    ensures ReadStop(" " + StopText(stop, Hex, fraction)) == Some(CssStop(stop.color, stop.position.Floor))
  {
    var n := stop.position.Floor;
    var digits := IntToString(n);
    IntToStringPlain(n);
    var piece := " " + StopText(stop, Hex, fraction);
    assert piece == "" + [' '] + (stop.color + [' '] + (digits + "%"));
    SplitAtSeparator("", stop.color + [' '] + (digits + "%"), ' ');
    SplitAtSeparator(stop.color, digits + "%", ' ');
    assert ' ' !in digits + "%";
    SplitNoSeparator(digits + "%", ' ');
    var words := Split(piece, ' ');
    assert words == ["", stop.color, digits + "%"];
    assert words[2][..|words[2]| - 1] == digits;
    IntToStringRoundTrip(n);
  }

  lemma {:induction false} ReadStopsBack(stops: seq<ColorStop>, fraction: real -> string)
    requires ColorsAvoid(stops, ',') && ColorsAvoid(stops, ' ') && WholePositions(stops)
    ensures ReadStops(Spaced(StopTexts(stops, Hex, fraction))) == Some(Expected(stops))
  {
    if |stops| > 0 {
      var head := CssStop(stops[0].color, stops[0].position.Floor);
      ColorsAvoidTail(stops, ',');
      ColorsAvoidTail(stops, ' ');
      assert WholePositions(stops[1..]) by {
        assert forall i :: 0 <= i < |stops| - 1 ==> stops[1..][i] == stops[i + 1];
      }
      ReadStopBack(stops[0], fraction);
      ReadStopsBack(stops[1..], fraction);
      SpacedStopTextsCons(stops, fraction);
      ReadStopsCons(" " + StopText(stops[0], Hex, fraction), Spaced(StopTexts(stops[1..], Hex, fraction)),
                    head, Expected(stops[1..]));
    }
  }

  lemma SpacedStopTextsCons(stops: seq<ColorStop>, fraction: real -> string)
    requires |stops| > 0
    ensures Spaced(StopTexts(stops, Hex, fraction))
            == [" " + StopText(stops[0], Hex, fraction)] + Spaced(StopTexts(stops[1..], Hex, fraction))
  {
    assert StopTexts(stops, Hex, fraction)[1..] == StopTexts(stops[1..], Hex, fraction);
  }

  lemma StopTextsNoComma(stops: seq<ColorStop>, fraction: real -> string)
    requires ColorsAvoid(stops, ',') && WholePositions(stops)
    ensures forall i :: 0 <= i < |stops| ==> ',' !in StopTexts(stops, Hex, fraction)[i]
  {
    forall i | 0 <= i < |stops|
      ensures ',' !in StopTexts(stops, Hex, fraction)[i]
    {
      StopTextNoComma(stops[i], fraction);
    }
  }

  lemma StopTextNoComma(stop: ColorStop, fraction: real -> string)
    requires ',' !in stop.color && stop.position == stop.position.Floor as real
    ensures ',' !in StopText(stop, Hex, fraction)
  {
    IntToStringPlain(stop.position.Floor);
  }

  /** Hex-format CSS of whole-percentage stops can be read back: the angle, then every
      stop's colour and percentage in ascending position order. It needs colours
      without commas or spaces. */
  lemma CssReadBack(g: Gradient, fraction: real -> string)
    requires |g.colorStops| >= 1 && WholePositions(g.colorStops)
    requires ColorsAvoid(g.colorStops, ',') && ColorsAvoid(g.colorStops, ' ')
    ensures ReadCss(GenerateGradientCss(g, Hex, fraction))
            == Some((IntToString(g.angle) + "deg", Expected(SortStops(g.colorStops))))
  {
    var sorted := SortStops(g.colorStops);
    var ts := StopTexts(sorted, Hex, fraction);
    var d := Direction(g.angle);
    assert GenerateGradientCss(g, Hex, fraction) == CssText(d, ts);
    ColorsAvoidSorted(g.colorStops, ',');
    ColorsAvoidSorted(g.colorStops, ' ');
    WholePositionsSorted(g.colorStops);
    StopTextsNoComma(sorted, fraction);
    IntToStringPlain(g.angle);
    ReadStopsBack(sorted, fraction);
    ReadCssText(d, ts);
  }

  // ---------------------------------------------------------------------
  // React Native

  const Package := "react-native-linear-gradient"
  const ImportLine := "import LinearGradient from '" + Package + "';\n\n"
  const ComponentLine := "const GradientComponent = () => (\n"
  const OpenTag := "  <LinearGradient\n"
  const ColorsOpen := "    colors={["
  const LocationsOpen := "    locations={["
  const ListClose := "]}\n"
  const StyleLine := "    style={{ flex: 1 }}\n"
  const ExportLine := "export default GradientComponent;"

  /** A point of the unit square. */
  datatype Point = Point(x: real, y: real)

  /** The start and end points with the angle off: the line through the centre at
      (90 - angle) degrees, half a unit each way, so the two points mirror each other
      in the centre. */
  function StartEnd(angle: int, trig: Trig): (r: (Point, Point))
    ensures r.0.x + r.1.x == 1.0 && r.0.y + r.1.y == 1.0
    ensures r.0.x - r.1.x == trig.cosDeg((90 - angle) as real)
    ensures r.1.y - r.0.y == trig.sinDeg((90 - angle) as real)
  {
    var d := (90 - angle) as real;
    (Point(0.5 + 0.5 * trig.cosDeg(d), 0.5 - 0.5 * trig.sinDeg(d)),
     Point(0.5 - 0.5 * trig.cosDeg(d), 0.5 + 0.5 * trig.sinDeg(d)))
  }

  /** With cosine and sine in [-1, 1] both points lie in the unit square. */
  lemma StartEndInSquare(angle: int, trig: Trig)
    requires var d := (90 - angle) as real; -1.0 <= trig.cosDeg(d) <= 1.0 && -1.0 <= trig.sinDeg(d) <= 1.0
    ensures var (s, e) := StartEnd(angle, trig);
            0.0 <= s.x <= 1.0 && 0.0 <= s.y <= 1.0 && 0.0 <= e.x <= 1.0 && 0.0 <= e.y <= 1.0
  {
  }

  function PointText(p: Point): string
  {
    "{{x: " + ToFixed2(p.x) + ", y: " + ToFixed2(p.y) + "}}\n"
  }

  /** The two lines that set the direction: the angle itself, or the start and end points. */
  function DirectionLines(useAngle: bool, angle: int, trig: Trig): (r: seq<string>)
    ensures |r| == 2
  {
    if useAngle then ["    useAngle={true}\n", "    angle={" + IntToString(angle) + "}\n"]
    else
      var (s, e) := StartEnd(angle, trig);
      ["    start=" + PointText(s), "    end=" + PointText(e)]
  }

  function ColorTexts(stops: seq<ColorStop>, format: ColorFormat): (r: seq<string>)
    ensures |r| == |stops| && forall i :: 0 <= i < |stops| ==> r[i] == ColorText(stops[i].color, format)
  {
    if |stops| == 0 then [] else [ColorText(stops[0].color, format)] + ColorTexts(stops[1..], format)
  }

  /** `stop.position / 100` for every stop. */
  function Locations(stops: seq<ColorStop>): (r: seq<real>)
    ensures |r| == |stops| && forall i :: 0 <= i < |stops| ==> r[i] * 100.0 == stops[i].position
  {
    if |stops| == 0 then [] else [stops[0].position / 100.0] + Locations(stops[1..])
  }

  /** The lines of the code for formatted colours, the direction lines and the
      optional formatted locations. */
  function RnLinesOf(colorTexts: seq<string>, direction: seq<string>, locationTexts: Option<seq<string>>): seq<string>
  {
    [ImportLine, ComponentLine, OpenTag, ColorsOpen + Join(Quoted(colorTexts, '\''), ", ") + ListClose]
    + direction
    + (if locationTexts.Some? then [LocationsOpen + Join(locationTexts.value, ", ") + ListClose] else [])
    + [StyleLine, "  />\n", ");\n\n", ExportLine]
  }

  /** The locations, printed, when asked for and there is at least one stop. */
  function LocationTexts(sorted: seq<ColorStop>, includeLocations: bool, fraction: real -> string): (r: Option<seq<string>>)
    ensures r.Some? <==> includeLocations && |sorted| > 0
  {
    if includeLocations && |sorted| > 0 then Some(NumberTexts(Locations(sorted), fraction)) else None
  }

  /** The pieces generateReactNativeCode appends to its result, in order. */
  function RnLines(g: Gradient, format: ColorFormat, includeLocations: bool, trig: Trig, fraction: real -> string): seq<string>
  {
    var sorted := SortStops(g.colorStops);
    RnLinesOf(
      ColorTexts(sorted, format),
      DirectionLines(g.useAngle, g.angle, trig),
      LocationTexts(sorted, includeLocations, fraction))
  }

  /** generateReactNativeCode. */
  function GenerateReactNativeCode(g: Gradient, format: ColorFormat, includeLocations: bool, trig: Trig,
                                   fraction: real -> string): string
  {
    Concat(RnLines(g, format, includeLocations, trig, fraction))
  }

  lemma RnLinesOfShape(colorTexts: seq<string>, direction: seq<string>, locationTexts: Option<seq<string>>)
    requires |direction| == 2 && !(LocationsOpen <= direction[0]) && !(LocationsOpen <= direction[1])
    ensures var lines := RnLinesOf(colorTexts, direction, locationTexts);
      && |lines| == (if locationTexts.Some? then 11 else 10)
      && lines[..3] == [ImportLine, ComponentLine, OpenTag]
      && lines[|lines| - 4..] == [StyleLine, "  />\n", ");\n\n", ExportLine]
      && ((exists i :: 0 <= i < |lines| && LocationsOpen <= lines[i]) <==> locationTexts.Some?)
  {
    var lines := RnLinesOf(colorTexts, direction, locationTexts);
    var colorsLine := ColorsOpen + Join(Quoted(colorTexts, '\''), ", ") + ListClose;
    if locationTexts.None? {
      assert lines == [ImportLine, ComponentLine, OpenTag, colorsLine, direction[0], direction[1],
                       StyleLine, "  />\n", ");\n\n", ExportLine];
      LineLead(ColorsOpen, Join(Quoted(colorTexts, '\''), ", ") + ListClose);
      assert colorsLine == ColorsOpen + (Join(Quoted(colorTexts, '\''), ", ") + ListClose);
      FixedLinesNotLocations();
    } else {
      assert LocationsOpen <= lines[6];
    }
  }

  /** A line whose fifth character is not 'l' is not the locations line. */
  lemma LineLead(lead: string, rest: string)
    requires |lead| > 4 && lead[4] != 'l'
    ensures !(LocationsOpen <= lead + rest)
  {
    NotLocations(lead + rest);
  }

  lemma NotLocations(line: string)
    requires |line| > 4 && line[4] != 'l'
    ensures !(LocationsOpen <= line)
  {
    assert LocationsOpen[4] == 'l';
  }

  lemma FixedLinesNotLocations()
    ensures !(LocationsOpen <= ImportLine) && !(LocationsOpen <= ComponentLine) && !(LocationsOpen <= OpenTag)
    ensures !(LocationsOpen <= StyleLine) && !(LocationsOpen <= "  />\n") && !(LocationsOpen <= ");\n\n")
    ensures !(LocationsOpen <= ExportLine)
  {
    LineLead("import LinearGradient from '", Package + "';\n\n");
    assert ImportLine == "import LinearGradient from '" + (Package + "';\n\n");
    NotLocations(ComponentLine);
    NotLocations(OpenTag);
    NotLocations(StyleLine);
    NotLocations("  />\n");
    NotLocations(ExportLine);
  }

  lemma DirectionLinesShape(useAngle: bool, angle: int, trig: Trig)
    ensures var d := DirectionLines(useAngle, angle, trig);
            !(LocationsOpen <= d[0]) && !(LocationsOpen <= d[1])
  {
    if useAngle {
      NotLocations("    useAngle={true}\n");
      LineLead("    angle={", IntToString(angle) + "}\n");
      assert "    angle={" + IntToString(angle) + "}\n" == "    angle={" + (IntToString(angle) + "}\n");
    } else {
      var (st, en) := StartEnd(angle, trig);
      assert DirectionLines(useAngle, angle, trig) == ["    start=" + PointText(st), "    end=" + PointText(en)];
      LineLead("    start=", PointText(st));
      LineLead("    end=", PointText(en));
    }
  }

  /** The code imports the component, opens it, has a locations line exactly when
      locations are asked for and there are stops, then the style line, and closes. */
  lemma RnShape(g: Gradient, format: ColorFormat, includeLocations: bool, trig: Trig, fraction: real -> string)
    ensures var lines := RnLines(g, format, includeLocations, trig, fraction);
      && |lines| == (if includeLocations && |g.colorStops| > 0 then 11 else 10)
      && lines[..3] == [ImportLine, ComponentLine, OpenTag]
      && lines[|lines| - 4..] == [StyleLine, "  />\n", ");\n\n", ExportLine]
      && ((exists i :: 0 <= i < |lines| && LocationsOpen <= lines[i]) <==> includeLocations && |g.colorStops| > 0)
  {
    var sorted := SortStops(g.colorStops);
    var locations := LocationTexts(sorted, includeLocations, fraction);
    var direction := DirectionLines(g.useAngle, g.angle, trig);
    var lines := RnLinesOf(ColorTexts(sorted, format), direction, locations);
    DirectionLinesShape(g.useAngle, g.angle, trig);
    RnLinesOfShape(ColorTexts(sorted, format), direction, locations);
    assert lines == RnLines(g, format, includeLocations, trig, fraction);
  }

  /** With locations asked for and at least one stop, the line after the direction lines
      lists String(position / 100) of every stop, in ascending position order, one text
      per stop. */
  lemma RnLocationsLine(g: Gradient, format: ColorFormat, includeLocations: bool, trig: Trig, fraction: real -> string)
    requires includeLocations && |g.colorStops| > 0
    ensures var lines := RnLines(g, format, includeLocations, trig, fraction);
      var sorted := SortStops(g.colorStops);
      var texts := NumberTexts(Locations(sorted), fraction);
      && |lines| == 11
      && lines[6] == LocationsOpen + Join(texts, ", ") + ListClose
      && |texts| == |g.colorStops|
      && (forall k :: 0 <= k < |texts| ==>
            texts[k] == NumberToString(Locations(sorted)[k], fraction) && Locations(sorted)[k] * 100.0 == sorted[k].position)
      && (forall i, j :: 0 <= i < j < |texts| ==> Locations(sorted)[i] <= Locations(sorted)[j])
  {
    var sorted := SortStops(g.colorStops);
    var ls := Locations(sorted);
    forall i, j | 0 <= i < j < |ls|
      ensures ls[i] <= ls[j]
    {
      assert ls[i] * 100.0 <= ls[j] * 100.0;
    }
  }

  /** The direction lines sit right after the colours line. */
  lemma RnLinesOfDirection(colorTexts: seq<string>, direction: seq<string>, locationTexts: Option<seq<string>>)
    requires |direction| == 2
    ensures var lines := RnLinesOf(colorTexts, direction, locationTexts);
      |lines| >= 6 && lines[4] == direction[0] && lines[5] == direction[1]
  {
  }

  /** The code depends on the gradient only through its stops and its direction lines. */
  lemma RnLinesCongruence(g1: Gradient, g2: Gradient, format: ColorFormat, includeLocations: bool,
                          trig1: Trig, trig2: Trig, fraction: real -> string)
    requires g1.colorStops == g2.colorStops
    requires DirectionLines(g1.useAngle, g1.angle, trig1) == DirectionLines(g2.useAngle, g2.angle, trig2)
    ensures RnLines(g1, format, includeLocations, trig1, fraction) == RnLines(g2, format, includeLocations, trig2, fraction)
  {
  }

  /** With the angle on the code passes the angle through and no trigonometry is
      involved; with it off it gives mirrored start and end points computed from
      (90 - angle) degrees. */
  lemma RnDirection(g: Gradient, format: ColorFormat, includeLocations: bool, trig: Trig, fraction: real -> string,
                    otherTrig: Trig)
    ensures var lines := RnLines(g, format, includeLocations, trig, fraction);
      && |lines| >= 6
      && (g.useAngle ==>
            && lines[4] == "    useAngle={true}\n"
            && lines[5] == "    angle={" + IntToString(g.angle) + "}\n"
            && RnLines(g, format, includeLocations, otherTrig, fraction) == lines)
      && (!g.useAngle ==>
            && lines[4] == "    start=" + PointText(StartEnd(g.angle, trig).0)
            && lines[5] == "    end=" + PointText(StartEnd(g.angle, trig).1))
  {
    var sorted := SortStops(g.colorStops);
    var direction := DirectionLines(g.useAngle, g.angle, trig);
    var colors := ColorTexts(sorted, format);
    var locations := LocationTexts(sorted, includeLocations, fraction);
    assert RnLines(g, format, includeLocations, trig, fraction) == RnLinesOf(colors, direction, locations);
    RnLinesOfDirection(colors, direction, locations);
    if g.useAngle {
      RnLinesCongruence(g, g, format, includeLocations, otherTrig, trig, fraction);
    }
  }

  /** The colours line read back: the single-quoted list between `    colors={[` and `]}`. */
  function ReadColorsLine(line: string): Option<seq<string>>
  {
    if |line| < |ColorsOpen| + |ListClose| || line[..|ColorsOpen|] != ColorsOpen || line[|line| - |ListClose|..] != ListClose then None
    else ReadQuotedList(line[|ColorsOpen|..|line| - |ListClose|], '\'')
  }

  lemma ReadColorsLineBack(items: seq<string>)
    requires |items| >= 1 && forall i :: 0 <= i < |items| ==> ',' !in items[i]
    ensures ReadColorsLine(ColorsOpen + Join(Quoted(items, '\''), ", ") + ListClose) == Some(items)
  {
    QuotedListRoundTrip(items, '\'');
    var body := Join(Quoted(items, '\''), ", ");
    FramedParts(ColorsOpen, body, ListClose);
  }

  /** Hex-format colours read back from the colours line in ascending position order,
      for colours without commas. */
  lemma RnColorsReadBack(g: Gradient, includeLocations: bool, trig: Trig, fraction: real -> string)
    requires |g.colorStops| >= 1 && ColorsAvoid(g.colorStops, ',')
    ensures ReadColorsLine(RnLines(g, Hex, includeLocations, trig, fraction)[3]) == Some(Colors(SortStops(g.colorStops)))
  {
    var sorted := SortStops(g.colorStops);
    ColorsAvoidSorted(g.colorStops, ',');
    var items := Colors(sorted);
    assert ColorTexts(sorted, Hex) == items;
    ReadColorsLineBack(items);
  }

  /** Like the CSS, the code depends only on the sorted stops. */
  lemma RnStopOrder(g: Gradient, stops: seq<ColorStop>, format: ColorFormat, includeLocations: bool, trig: Trig,
                    fraction: real -> string)
    requires forall k :: StableSort.WithKey(stops, Position, k) == StableSort.WithKey(g.colorStops, Position, k)
    ensures GenerateReactNativeCode(g.(colorStops := stops), format, includeLocations, trig, fraction)
            == GenerateReactNativeCode(g, format, includeLocations, trig, fraction)
  {
    StableSort.SortByKeyGroups(stops, g.colorStops, Position);
  }

  // ---------------------------------------------------------------------
  // Random gradient

  /** `Math.floor(Math.random() * 2) + 2`. */
  function StopCount(d: real): (n: nat)
    requires 0.0 <= d < 1.0
    ensures 2 <= n <= 3
  {
    (d * 2.0).Floor + 2
  }

  /** The draws generateRandomGradient consumes: the stop count, six per colour, then
      the angle. */
  predicate EnoughDraws(ds: seq<real>)
  {
    |ds| >= 1 && Draws(ds) && |ds| >= 2 + 6 * StopCount(ds[0])
  }

  /** `Math.round((i / (n - 1)) * 100)`. */
  function EvenPercent(i: nat, n: nat): int
    requires n >= 2
  {
    Round(i as real / (n - 1) as real * 100.0)
  }

  function RandomStops(ds: seq<real>, n: nat): (r: seq<ColorStop>)
    requires n >= 2 && |ds| >= 6 * n && Draws(ds)
    ensures |r| == n
    ensures forall i :: 0 <= i < n ==> r[i] == ColorStop(RandomColor(ds[6 * i..6 * i + 6]), EvenPercent(i, n) as real)
  {
    seq(n, i requires 0 <= i < n => ColorStop(RandomColor(ds[6 * i..6 * i + 6]), EvenPercent(i, n) as real))
  }

  /** generateRandomGradient with `Math.random()` read from `ds` in call order and the
      fresh id passed in. */
  function GenerateRandomGradient(id: string, ds: seq<real>): (g: Gradient)
    requires EnoughDraws(ds)
    ensures g.id == Some(id) && g.name.None? && !g.useAngle
    ensures 0 <= g.angle < 360
    ensures |g.colorStops| == StopCount(ds[0])
    ensures forall i :: 0 <= i < |g.colorStops| ==> g.colorStops[i].color == RandomColor(ds[1 + 6 * i..7 + 6 * i])
  {
    var n := StopCount(ds[0]);
    var angleDraw := ds[1 + 6 * n];
    var g := Gradient(Some(id), None, (angleDraw * 360.0).Floor, false, RandomStops(ds[1..], n));
    assert forall i :: 0 <= i < n ==> ds[1..][6 * i..6 * i + 6] == ds[1 + 6 * i..7 + 6 * i];
    g
  }

  /** The positions are 0 and 100 for two stops, and 0, 50 and 100 for three. */
  lemma RandomPositions(ds: seq<real>, n: nat)
    requires 2 <= n <= 3 && |ds| >= 6 * n && Draws(ds)
    ensures Positions(RandomStops(ds, n)) == if n == 2 then [0.0, 100.0] else [0.0, 50.0, 100.0]
  {
    assert EvenPercent(0, n) == 0;
    assert EvenPercent(n - 1, n) == 100 by {
      assert (n - 1) as real / (n - 1) as real == 1.0;
    }
    if n == 3 {
      assert EvenPercent(1, 3) == 50;
    }
  }

  /** The random stops are in ascending order, within [0, 100], with hex colours. */
  lemma RandomStopsShape(ds: seq<real>, n: nat)
    requires 2 <= n <= 3 && |ds| >= 6 * n && Draws(ds)
    ensures var stops := RandomStops(ds, n);
      && StableSort.SortedBy(stops, Position)
      && forall i :: 0 <= i < n ==> SharedSchema.ValidStop(stops[i]) && IsHexColor(stops[i].color)
  {
    var stops := RandomStops(ds, n);
    RandomPositions(ds, n);
    var ps := Positions(stops);
    assert forall i :: 0 <= i < n ==> stops[i].position == ps[i];
  }

  lemma RandomGradientStops(id: string, ds: seq<real>)
    requires EnoughDraws(ds)
    ensures GenerateRandomGradient(id, ds).colorStops == RandomStops(ds[1..], StopCount(ds[0]))
  {
  }

  /** The random gradient has two or three stops spread evenly from 0 to 100 in
      ascending order, so sorting leaves them alone, and the schema accepts it. */
  lemma RandomGradientShape(id: string, ds: seq<real>)
    requires EnoughDraws(ds)
    ensures var g := GenerateRandomGradient(id, ds);
      && var stops := g.colorStops;
      && Positions(stops) == (if |stops| == 2 then [0.0, 100.0] else [0.0, 50.0, 100.0])
      && (forall i :: 0 <= i < |stops| ==> IsHexColor(stops[i].color))
      && SortStops(stops) == stops
      && SharedSchema.Valid(g)
  {
    var n := StopCount(ds[0]);
    var stops := RandomStops(ds[1..], n);
    var g := GenerateRandomGradient(id, ds);
    RandomGradientStops(id, ds);
    assert Positions(stops) == (if n == 2 then [0.0, 100.0] else [0.0, 50.0, 100.0]) by {
      RandomPositions(ds[1..], n);
    }
    RandomStopsShape(ds[1..], n);
    StableSort.SortSorted(stops, Position);
  }
}
