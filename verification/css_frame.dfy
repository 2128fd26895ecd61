/**
 The text frame both CSS generators share, `linear-gradient(<direction>, <stop>, ...)`,
 and a reader that takes such a text apart again into its direction and its
 `<colour> <n>%` stops.
 */
module CssFrame {
  import opened Js

  const CssOpen := "linear-gradient("

  /** The CSS text for a direction and the formatted stops. */
  function CssText(direction: string, stopTexts: seq<string>): string
  {
    CssOpen + CssArguments(direction, stopTexts) + ")"
  }

  /** The arguments of linear-gradient: the direction, then the stops, comma-separated. */
  function CssArguments(direction: string, stopTexts: seq<string>): string
  {
    direction + ", " + Join(stopTexts, ", ")
  }

  lemma CssTextPrefix(d: string, ts: seq<string>)
    ensures CssOpen + d + ", " <= CssText(d, ts)
  {
    var j := Join(ts, ", ");
    var p := CssOpen + d + ", ";
    assert CssText(d, ts) == CssOpen + (d + ", " + j) + ")";
    assert CssOpen + (d + ", " + j) + ")" == p + (j + ")");
    PrefixOfConcat(p, j + ")");
  }

  lemma DegreesOpening(n: string)
    ensures CssOpen + (n + "deg") + ", " == CssOpen + n + "deg, "
  {
    assert (n + "deg") + ", " == n + "deg, ";
  }

  lemma PrefixOfConcat(a: string, b: string)
    ensures a <= a + b
  {
  }

  lemma CountOnePercent(color: string, n: string)
    requires '%' !in color && '%' !in n
    ensures Count('%', color + " " + n + "%") == 1
  {
    CountAbsent('%', " ");
    CountAbsent('%', color);
    CountAbsent('%', n);
    CountConcat('%', color, " ");
    CountConcat('%', color + " ", n);
    CountConcat('%', color + " " + n, "%");
  }

  /** A direction without `%` leaves the stops the only source of `%` signs. */
  lemma CssOpenPlain()
    ensures '%' !in CssOpen
  {
  }

  lemma CssTextCount(d: string, ts: seq<string>)
    requires '%' !in d
    ensures Count('%', CssText(d, ts)) == SumCounts('%', ts)
  {
    var j := Join(ts, ", ");
    CountJoin('%', ts, ", ");
    CountAbsent('%', ", ");
    CountAbsent('%', ")");
    CssOpenPlain();
    CountAbsent('%', CssOpen);
    CountAbsent('%', d);
    CountConcat('%', d, ", ");
    CountConcat('%', d + ", ", j);
    CountConcat('%', CssOpen, CssArguments(d, ts));
    CountConcat('%', CssOpen + CssArguments(d, ts), ")");
  }

  /** A stop as it can be read back from CSS: its colour and whole percentage. */
  datatype CssStop = CssStop(color: string, percent: int)

  /** Splits `linear-gradient(<direction>, <stop>, ...)` into the direction and the stops. */
  function ReadCss(css: string): Option<(string, seq<CssStop>)>
  {
    if |css| < |CssOpen| + 1 || css[..|CssOpen|] != CssOpen || css[|css| - 1] != ')' then None
    else
      var pieces := Split(css[|CssOpen|..|css| - 1], ',');
      match ReadStops(pieces[1..])
      case None => None
      case Some(stops) => Some((pieces[0], stops))
  }

  function ReadStops(pieces: seq<string>): Option<seq<CssStop>>
  {
    if |pieces| == 0 then Some([])
    else
      match (ReadStop(pieces[0]), ReadStops(pieces[1..]))
      case (Some(s), Some(rest)) => Some([s] + rest)
      case _ => None
  }

  /** One piece ` <colour> <n>%`. */
  function ReadStop(piece: string): Option<CssStop>
  {
    var words := Split(piece, ' ');
    if |words| != 3 || words[0] != "" || |words[2]| == 0 || words[2][|words[2]| - 1] != '%' then None
    else
      match ParseInteger(words[2][..|words[2]| - 1])
      case None => None
      case Some(n) => Some(CssStop(words[1], n))
  }

  lemma ReadStopsCons(p: string, ps: seq<string>, stop: CssStop, rest: seq<CssStop>)
    requires ReadStop(p) == Some(stop) && ReadStops(ps) == Some(rest)
    ensures ReadStops([p] + ps) == Some([stop] + rest)
  {
    assert ([p] + ps)[1..] == ps;
  }

  /** The frame `linear-gradient(` ... `)` comes off again. */
  lemma ReadCssFrame(inner: string)
    ensures var pieces := Split(inner, ',');
      ReadStops(pieces[1..]).Some? ==>
        ReadCss(CssOpen + inner + ")") == Some((pieces[0], ReadStops(pieces[1..]).value))
  {
    var css := CssOpen + inner + ")";
    assert css[..|CssOpen|] == CssOpen;
    assert css[|CssOpen|..|css| - 1] == inner;
  }

  /** The CSS text splits into the direction and the stop pieces. */
  lemma ReadCssText(d: string, ts: seq<string>)
    requires |ts| >= 1 && ',' !in d && forall i :: 0 <= i < |ts| ==> ',' !in ts[i]
    ensures ReadStops(Spaced(ts)).Some? ==> ReadCss(CssText(d, ts)) == Some((d, ReadStops(Spaced(ts)).value))
  {
    var inner := CssArguments(d, ts);
    SplitHeadJoinComma(d, ts);
    var pieces := Split(inner, ',');
    assert pieces[1..] == Spaced(ts);
    ReadCssFrame(inner);
  }
}
