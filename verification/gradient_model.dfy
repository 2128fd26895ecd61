/**
 The gradient shape both variants of the application share: a colour stop is a
 colour string and a position, a gradient is an optional id and name, an angle
 in degrees, the useAngle switch and the list of stops. The two variants differ
 in the position unit: the `src/` variant stores fractions in [0, 1], the
 `client/` and `shared/` variant percentages in [0, 100].
 */
module GradientModel {
  import opened Js
  import StableSort

  datatype ColorStop = ColorStop(color: string, position: real)

  datatype Gradient = Gradient(
    id: Option<string>,
    name: Option<string>,
    angle: int,
    useAngle: bool,
    colorStops: seq<ColorStop>)

  /** The unit a variant measures stop positions in. */
  datatype Unit = Fraction | Percent

  function FullScale(u: Unit): real
  {
    match u
    case Fraction => 1.0
    case Percent => 100.0
  }

  predicate PositionsWithin(stops: seq<ColorStop>, u: Unit)
  {
    forall i :: 0 <= i < |stops| ==> 0.0 <= stops[i].position <= FullScale(u)
  }

  /** The colour format the code generators are asked for. */
  datatype ColorFormat = Hex | Rgba

  function Position(stop: ColorStop): real { stop.position }

  /** `[...stops].sort((a, b) => a.position - b.position)`: the stops in ascending
      position order, a permutation of the input that keeps the input order among
      stops at the same position. */
  function SortStops(stops: seq<ColorStop>): (r: seq<ColorStop>)
    ensures |r| == |stops|
    ensures StableSort.SortedBy(r, Position)
    ensures multiset(r) == multiset(stops)
    ensures forall p :: StableSort.WithKey(r, Position, p) == StableSort.WithKey(stops, Position, p)
  {
    StableSort.SortBy(stops, Position)
  }

  function Positions(stops: seq<ColorStop>): (r: seq<real>)
    ensures |r| == |stops| && forall i :: 0 <= i < |stops| ==> r[i] == stops[i].position
  {
    if |stops| == 0 then [] else [stops[0].position] + Positions(stops[1..])
  }

  function Colors(stops: seq<ColorStop>): (r: seq<string>)
    ensures |r| == |stops| && forall i :: 0 <= i < |stops| ==> r[i] == stops[i].color
  {
    if |stops| == 0 then [] else [stops[0].color] + Colors(stops[1..])
  }

  /** No colour of the list contains the character c. */
  predicate ColorsAvoid(stops: seq<ColorStop>, c: char)
  {
    forall i :: 0 <= i < |stops| ==> c !in stops[i].color
  }

  lemma ColorsAvoidTail(stops: seq<ColorStop>, c: char)
    requires |stops| > 0 && ColorsAvoid(stops, c)
    ensures c !in stops[0].color && ColorsAvoid(stops[1..], c)
  {
    assert forall i :: 0 <= i < |stops| - 1 ==> stops[1..][i] == stops[i + 1];
  }

  /** Sorting keeps the colours, so it keeps any character out of them. */
  lemma ColorsAvoidSorted(stops: seq<ColorStop>, c: char)
    requires ColorsAvoid(stops, c)
    ensures ColorsAvoid(SortStops(stops), c)
  {
    var sorted := SortStops(stops);
    forall i | 0 <= i < |sorted|
      ensures c !in sorted[i].color
    {
      assert sorted[i] in multiset(stops);
      var j :| 0 <= j < |stops| && stops[j] == sorted[i];
    }
  }

  /** The `#RRGGBB` pattern `^#[0-9A-Fa-f]{6}$`. */
  predicate IsHexColor(s: string)
  {
    |s| == 7 && s[0] == '#' && forall i :: 1 <= i < 7 ==> IsHexDigit(s[i])
  }

  /** The pattern `^#([A-Fa-f0-9]{6}|[A-Fa-f0-9]{3})$`: six or three hex digits after '#'. */
  predicate IsHexInput(s: string)
  {
    (|s| == 7 || |s| == 4) && s[0] == '#' && forall i :: 1 <= i < |s| ==> IsHexDigit(s[i])
  }

  /** The byte spelled by the two hex digits at s[i] and s[i + 1]. */
  function PairValue(s: string, i: nat): (v: nat)
    requires i + 1 < |s| && IsHexDigit(s[i]) && IsHexDigit(s[i + 1])
    ensures v < 256
  {
    16 * HexDigitValue(s[i]) + HexDigitValue(s[i + 1])
  }

  /** Math.max(...ps) and Math.min(...ps) for a non-empty list. */
  function MaxOf(ps: seq<real>): (m: real)
    requires |ps| > 0
    ensures (exists i :: 0 <= i < |ps| && ps[i] == m) && forall i :: 0 <= i < |ps| ==> ps[i] <= m
  {
    if |ps| == 1 then ps[0]
    else
      var rest := MaxOf(ps[1..]);
      assert forall i :: 1 <= i < |ps| ==> ps[i] == ps[1..][i - 1];
      Max(ps[0], rest)
  }

  function MinOf(ps: seq<real>): (m: real)
    requires |ps| > 0
    ensures (exists i :: 0 <= i < |ps| && ps[i] == m) && forall i :: 0 <= i < |ps| ==> m <= ps[i]
  {
    if |ps| == 1 then ps[0]
    else
      var rest := MinOf(ps[1..]);
      assert forall i :: 1 <= i < |ps| ==> ps[i] == ps[1..][i - 1];
      Min(ps[0], rest)
  }

  /** `stops.filter((_, i) => i !== index)`: indices outside the list remove nothing. */
  function DropIndex(stops: seq<ColorStop>, index: int): (r: seq<ColorStop>)
    ensures 0 <= index < |stops| ==>
              && |r| == |stops| - 1
              && (forall i :: 0 <= i < index ==> r[i] == stops[i])
              && (forall i :: index <= i < |r| ==> r[i] == stops[i + 1])
    ensures !(0 <= index < |stops|) ==> r == stops
  {
    if 0 <= index < |stops| then stops[..index] + stops[index + 1..] else stops
  }
}
