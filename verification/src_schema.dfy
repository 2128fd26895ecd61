/**
 The zod schemas of the `src/` variant (src/shared/schema.ts), read as a
 validation predicate plus the defaults zod fills in. Positions are fractions
 in [0, 1] and every colour must be a six-digit hex code.
 */
module SrcSchema {
  import opened Js
  import opened GradientModel

  /** A gradient object as received: fields with a default may be absent. */
  datatype GradientInput = GradientInput(
    id: Option<string>,
    name: Option<string>,
    angle: Option<int>,
    useAngle: Option<bool>,
    colorStops: seq<ColorStop>)

  /** colorStopSchema: a `#RRGGBB` colour and a position in [0, 1]. */
  predicate ValidStop(stop: ColorStop)
  {
    IsHexColor(stop.color) && 0.0 <= stop.position <= 1.0
  }

  /** gradientSchema on a value whose defaults are filled in. */
  predicate Valid(g: Gradient)
  {
    && g.id.Some?
    && 0 <= g.angle <= 360
    && 2 <= |g.colorStops| <= 5
    && forall i :: 0 <= i < |g.colorStops| ==> ValidStop(g.colorStops[i])
  }

  /** gradientSchema.safeParse: fill in angle 90 and useAngle true when absent, then
      accept the value iff it is valid. */
  function Parse(input: GradientInput): (r: Option<Gradient>)
    ensures r.Some? ==> Valid(r.value)
    ensures r.Some? ==> && r.value.id == input.id
                        && r.value.name == input.name
                        && r.value.colorStops == input.colorStops
                        && r.value.angle == (if input.angle.Some? then input.angle.value else 90)
                        && r.value.useAngle == (if input.useAngle.Some? then input.useAngle.value else true)
    ensures input.id.None? ==> r.None?
    ensures !(2 <= |input.colorStops| <= 5) ==> r.None?
    ensures (exists i :: 0 <= i < |input.colorStops| && !IsHexColor(input.colorStops[i].color)) ==> r.None?
    ensures (exists i :: 0 <= i < |input.colorStops| && !(0.0 <= input.colorStops[i].position <= 1.0)) ==> r.None?
    ensures input.angle.Some? && !(0 <= input.angle.value <= 360) ==> r.None?
  {
    var g := Gradient(
      input.id,
      input.name,
      if input.angle.Some? then input.angle.value else 90,
      if input.useAngle.Some? then input.useAngle.value else true,
      input.colorStops);
    if Valid(g) then Some(g) else None
  }

  function AsInput(g: Gradient): GradientInput
  {
    GradientInput(g.id, g.name, Some(g.angle), Some(g.useAngle), g.colorStops)
  }

  /** A valid gradient passes the schema unchanged, and defaults are valid: a gradient
      that leaves angle and useAngle out gets 90 degrees and useAngle on. */
  lemma ParseAcceptsValid(g: Gradient)
    ensures Valid(g) <==> Parse(AsInput(g)) == Some(g)
    ensures Valid(g) ==> Parse(GradientInput(g.id, g.name, None, None, g.colorStops))
                         == Some(g.(angle := 90, useAngle := true))
  {
  }

  /** A three-digit shorthand colour is rejected even though the pickers accept it. */
  lemma ShorthandRejected(input: GradientInput, i: nat)
    requires i < |input.colorStops| && |input.colorStops[i].color| == 4
    ensures Parse(input).None?
  {
  }
}
