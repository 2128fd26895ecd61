/**
 The zod schemas of the `client/` + `server/` variant (shared/schema.ts), read
 as a validation predicate plus the defaults zod fills in. Positions are
 percentages in [0, 100] and colours are not checked at all.
 */
module SharedSchema {
  import opened Js
  import opened GradientModel

  /** A gradient object as received: useAngle may be absent. */
  datatype GradientInput = GradientInput(
    id: Option<string>,
    name: Option<string>,
    angle: int,
    useAngle: Option<bool>,
    colorStops: seq<ColorStop>)

  /** colorStopSchema: any colour string and a position in [0, 100]. */
  predicate ValidStop(stop: ColorStop)
  {
    0.0 <= stop.position <= 100.0
  }

  /** gradientSchema on a value whose default is filled in. */
  predicate Valid(g: Gradient)
  {
    && 0 <= g.angle <= 360
    && 2 <= |g.colorStops|
    && forall i :: 0 <= i < |g.colorStops| ==> ValidStop(g.colorStops[i])
  }

  /** gradientSchema.safeParse: useAngle defaults to false; id and name stay optional. */
  function Parse(input: GradientInput): (r: Option<Gradient>)
    ensures r.Some? ==> Valid(r.value)
    ensures r.Some? ==> && r.value.id == input.id
                        && r.value.name == input.name
                        && r.value.angle == input.angle
                        && r.value.colorStops == input.colorStops
                        && r.value.useAngle == (if input.useAngle.Some? then input.useAngle.value else false)
    ensures |input.colorStops| < 2 ==> r.None?
    ensures !(0 <= input.angle <= 360) ==> r.None?
    ensures (exists i :: 0 <= i < |input.colorStops| && !(0.0 <= input.colorStops[i].position <= 100.0)) ==> r.None?
  {
    var g := Gradient(
      input.id,
      input.name,
      input.angle,
      if input.useAngle.Some? then input.useAngle.value else false,
      input.colorStops);
    if Valid(g) then Some(g) else None
  }

  function AsInput(g: Gradient): GradientInput
  {
    GradientInput(g.id, g.name, g.angle, Some(g.useAngle), g.colorStops)
  }

  /** A valid gradient passes unchanged; leaving useAngle out means false; there is no
      upper bound on the number of stops, and an absent id or name is accepted. */
  lemma ParseAcceptsValid(g: Gradient)
    ensures Valid(g) <==> Parse(AsInput(g)) == Some(g)
    ensures Valid(g) ==> Parse(GradientInput(None, None, g.angle, None, g.colorStops))
                         == Some(g.(id := None, name := None, useAngle := false))
  {
  }

  /** The colour of a stop is never looked at: any string may replace it. */
  lemma ColorUnchecked(g: Gradient, i: nat, color: string)
    requires Valid(g) && i < |g.colorStops|
    ensures Valid(g.(colorStops := g.colorStops[i := g.colorStops[i].(color := color)]))
  {
  }
}
