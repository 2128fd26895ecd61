/**
 The editing rules of the `src/` generator page (src/pages/GradientGenerator.tsx):
 how the gradient held by the page changes when the angle, the angle switch or a
 stop is edited, where a new stop goes, and how a gradient gets a default name on
 save. The draw of Math.random() and the clock's text are parameters.
 */
module SrcEditor {
  import opened Js
  import opened GradientModel
  import StableSort
  import SrcSchema
  import SrcGradient

  // ---------------------------------------------------------------------
  // Field edits

  /** handleAngleChange: only the angle changes. */
  function ChangeAngle(g: Gradient, angle: int): (r: Gradient)
    ensures r.angle == angle && r.(angle := g.angle) == g
  {
    g.(angle := angle)
  }

  /** handleToggleUseAngle: only the switch changes. */
  function ToggleUseAngle(g: Gradient, useAngle: bool): (r: Gradient)
    ensures r.useAngle == useAngle && r.(useAngle := g.useAngle) == g
  {
    g.(useAngle := useAngle)
  }

  /** handleColorStopChange: the stop at index is replaced, every other stop and every
      other field stays. */
  function ChangeColorStop(g: Gradient, index: int, stop: ColorStop): (r: Gradient)
    requires 0 <= index < |g.colorStops|
    ensures |r.colorStops| == |g.colorStops| && r.colorStops[index] == stop
    ensures forall i :: 0 <= i < |g.colorStops| && i != index ==> r.colorStops[i] == g.colorStops[i]
    ensures r.(colorStops := g.colorStops) == g
  {
    g.(colorStops := g.colorStops[index := stop])
  }

  /** handleRemoveColorStop: nothing happens at two stops or fewer; otherwise exactly
      the stop at index is dropped (none when index is outside the list) and the rest
      keep their order. */
  function RemoveColorStop(g: Gradient, index: int): (r: Gradient)
    ensures |g.colorStops| <= 2 ==> r == g
    ensures !(0 <= index < |g.colorStops|) ==> r == g
    ensures |g.colorStops| > 2 && 0 <= index < |g.colorStops| ==>
              && |r.colorStops| == |g.colorStops| - 1
              && r.colorStops[..index] == g.colorStops[..index]
              && r.colorStops[index..] == g.colorStops[index + 1..]
    ensures r.(colorStops := g.colorStops) == g
  {
    if |g.colorStops| <= 2 then g
    else g.(colorStops := DropIndex(g.colorStops, index))
  }

  // ---------------------------------------------------------------------
  // Where a new stop goes

  /** The gap between the sorted positions i and i + 1. */
  function Gap(ps: seq<real>, i: nat): real
    requires i + 1 < |ps|
  {
    ps[i + 1] - ps[i]
  }

  /** `maxGap` for the gap held so far: 0 while no gap has been taken. */
  function Held(ps: seq<real>, best: Option<nat>): real
    requires best.Some? ==> best.value + 1 < |ps|
  {
    if best.Some? then Gap(ps, best.value) else 0.0
  }

  /** The loop over the gaps from i on: a gap is taken only when strictly wider than the
      one held. */
  function WidestFrom(ps: seq<real>, i: nat, best: Option<nat>): (r: Option<nat>)
    requires best.Some? ==> best.value + 1 < |ps|
    ensures r.Some? ==> r.value + 1 < |ps|
    decreases |ps| - i
  {
    if i + 1 >= |ps| then best
    else if Gap(ps, i) > Held(ps, best) then WidestFrom(ps, i + 1, Some(i))
    else WidestFrom(ps, i + 1, best)
  }

  /** Among the gaps before n: none is positive when r is None; otherwise r is a positive
      gap at least as wide as each of them and strictly wider than each before it. */
  predicate FirstWidest(ps: seq<real>, n: nat, r: Option<nat>)
  {
    && (r.None? ==> forall j :: 0 <= j < n && j + 1 < |ps| ==> Gap(ps, j) <= 0.0)
    && (r.Some? ==>
          && r.value < n && r.value + 1 < |ps|
          && Gap(ps, r.value) > 0.0
          && (forall j :: 0 <= j < n && j + 1 < |ps| ==> Gap(ps, j) <= Gap(ps, r.value))
          && (forall j :: 0 <= j < r.value ==> Gap(ps, j) < Gap(ps, r.value)))
  }

  /** The loop ends holding the first widest positive gap of all. */
  lemma {:induction false} WidestFromSpec(ps: seq<real>, i: nat, best: Option<nat>)
    requires best.Some? ==> best.value + 1 < |ps|
    requires FirstWidest(ps, i, best)
    ensures FirstWidest(ps, |ps|, WidestFrom(ps, i, best))
    decreases |ps| - i
  {
    if i + 1 >= |ps| {
    } else if Gap(ps, i) > Held(ps, best) {
      WidestFromSpec(ps, i + 1, Some(i));
    } else {
      WidestFromSpec(ps, i + 1, best);
    }
  }

  /** `gapPosition`: the middle of the first widest positive gap, or 0.5 when there is
      none. */
  function GapPosition(ps: seq<real>): real
  {
    match WidestFrom(ps, 0, None)
    case None => 0.5
    case Some(k) => ps[k] + Gap(ps, k) / 2.0
  }

  /** The positions in ascending order (`positions.sort((a, b) => a - b)`). */
  function SortedPositions(stops: seq<ColorStop>): (r: seq<real>)
    ensures |r| == |stops|
  {
    Positions(SortStops(stops))
  }

  /** The choice made from the positions as listed and the same positions in ascending
      order: past the last one while it is below 1, else before the first one while it
      is above 0, else in the widest gap. */
  function ChoosePosition(ps: seq<real>, sorted: seq<real>): real
    requires |ps| > 0
  {
    var last := MaxOf(ps);
    var first := MinOf(ps);
    if last < 1.0 then Min(1.0, last + 0.25)
    else if first > 0.0 then Max(0.0, first - 0.25)
    else GapPosition(sorted)
  }

  /** The position handleAddColorStop chooses. On an empty list Math.max gives -Infinity,
      which is outside this model. */
  function NewPosition(stops: seq<ColorStop>): real
    requires |stops| > 0
  {
    ChoosePosition(Positions(stops), SortedPositions(stops))
  }

  predicate Ascending(ps: seq<real>)
  {
    forall i, j :: 0 <= i < j < |ps| ==> ps[i] <= ps[j]
  }

  predicate SameValues(a: seq<real>, b: seq<real>)
  {
    (forall i :: 0 <= i < |a| ==> a[i] in b) && (forall i :: 0 <= i < |b| ==> b[i] in a)
  }

  /** The sorted positions are ascending and are the positions of the stops. */
  lemma SortedPositionsSpec(stops: seq<ColorStop>)
    ensures Ascending(SortedPositions(stops))
    ensures SameValues(Positions(stops), SortedPositions(stops))
  {
    var s := SortStops(stops);
    forall i | 0 <= i < |stops|
      ensures Positions(stops)[i] in SortedPositions(stops)
    {
      var x := Positions(stops)[i];
      assert stops[i] in multiset(s);
      var j :| 0 <= j < |s| && s[j] == stops[i];
      assert SortedPositions(stops)[j] == x;
    }
    forall i | 0 <= i < |stops|
      ensures SortedPositions(stops)[i] in Positions(stops)
    {
      var x := SortedPositions(stops)[i];
      assert s[i] in multiset(stops);
      var j :| 0 <= j < |stops| && stops[j] == s[i];
      assert Positions(stops)[j] == x;
    }
  }

  /** Ascending positions that include one at or above 1 and one at or below 0 rise
      from the first to the last. */
  lemma EndsApart(ps: seq<real>, hi: real, lo: real)
    requires |ps| > 0 && hi in ps && lo in ps && 1.0 <= hi && lo <= 0.0
    requires Ascending(ps)
    ensures ps[0] < ps[|ps| - 1]
  {
    var a :| 0 <= a < |ps| && ps[a] == hi;
    var b :| 0 <= b < |ps| && ps[b] == lo;
    assert ps[0] <= ps[b] && ps[a] <= ps[|ps| - 1];
  }

  /** A position above the first one is reached through some positive gap before it. */
  lemma {:induction false} Rise(ps: seq<real>, i: nat)
    requires i < |ps| && ps[0] < ps[i]
    ensures exists j :: 0 <= j < i && Gap(ps, j) > 0.0
  {
    if Gap(ps, i - 1) <= 0.0 {
      Rise(ps, i - 1);
    }
  }

  /** The middle of a positive gap between ascending neighbours lies strictly between
      them, so it equals none of the positions. */
  lemma MiddleIsNew(ps: seq<real>, k: nat)
    requires k + 1 < |ps| && Gap(ps, k) > 0.0
    requires Ascending(ps)
    ensures ps[k] < ps[k] + Gap(ps, k) / 2.0 < ps[k + 1]
    ensures ps[k] + Gap(ps, k) / 2.0 !in ps
  {
    var m := ps[k] + Gap(ps, k) / 2.0;
    forall i | 0 <= i < |ps|
      ensures ps[i] != m
    {
      if i <= k {
        assert ps[i] <= ps[k];
      } else {
        assert ps[k + 1] <= ps[i];
      }
    }
  }

  /** Ascending positions that rise from first to last have a positive gap, so the 0.5
      default is not used, and the middle of the widest gap is none of them. */
  lemma GapMiddleNew(ps: seq<real>)
    requires |ps| > 0 && ps[0] < ps[|ps| - 1]
    requires Ascending(ps)
    ensures WidestFrom(ps, 0, None).Some?
    ensures GapPosition(ps) !in ps
  {
    Rise(ps, |ps| - 1);
    WidestFromSpec(ps, 0, None);
    MiddleIsNew(ps, WidestFrom(ps, 0, None).value);
  }

  /** With every position in [0, 1], the middle of any gap is in [0, 1]. */
  lemma GapWithin(ps: seq<real>)
    requires forall i :: 0 <= i < |ps| ==> 0.0 <= ps[i] <= 1.0
    ensures 0.0 <= GapPosition(ps) <= 1.0
  {
  }

  /** The chosen position is none of the existing ones: beyond every one of them, before
      every one of them, or in the middle of the widest gap. With every position in
      [0, 1] the chosen one is in [0, 1] too. */
  lemma ChoosePositionSpec(ps: seq<real>, sorted: seq<real>)
    requires |ps| > 0 && Ascending(sorted) && SameValues(ps, sorted)
    ensures ChoosePosition(ps, sorted) !in ps
    ensures MaxOf(ps) < 1.0 ==> forall i :: 0 <= i < |ps| ==> ps[i] < ChoosePosition(ps, sorted)
    ensures MaxOf(ps) >= 1.0 && MinOf(ps) > 0.0 ==>
              forall i :: 0 <= i < |ps| ==> ChoosePosition(ps, sorted) < ps[i]
    ensures (forall i :: 0 <= i < |ps| ==> 0.0 <= ps[i] <= 1.0) ==> 0.0 <= ChoosePosition(ps, sorted) <= 1.0
  {
    if MaxOf(ps) < 1.0 {
    } else if MinOf(ps) > 0.0 {
    } else {
      EndsApart(sorted, MaxOf(ps), MinOf(ps));
      GapMiddleNew(sorted);
      if forall i :: 0 <= i < |ps| ==> 0.0 <= ps[i] <= 1.0 {
        assert forall i :: 0 <= i < |sorted| ==> sorted[i] in ps;
        GapWithin(sorted);
      }
    }
  }

  /** The new stop's position is one no existing stop has. */
  lemma NewPositionFresh(stops: seq<ColorStop>)
    requires |stops| > 0
    ensures forall i :: 0 <= i < |stops| ==> stops[i].position != NewPosition(stops)
  {
    var ps := Positions(stops);
    SortedPositionsSpec(stops);
    ChoosePositionSpec(ps, SortedPositions(stops));
    var p := NewPosition(stops);
    assert p == ChoosePosition(ps, SortedPositions(stops));
    forall i | 0 <= i < |stops|
      ensures stops[i].position != p
    {
      assert ps[i] == stops[i].position;
      assert ps[i] in ps;
    }
  }

  /** While every stop is below 1 the new one goes after all of them; otherwise, while
      every stop is above 0, before all of them. */
  lemma NewPositionSides(stops: seq<ColorStop>)
    requires |stops| > 0
    ensures MaxOf(Positions(stops)) < 1.0 ==> forall i :: 0 <= i < |stops| ==> stops[i].position < NewPosition(stops)
    ensures MaxOf(Positions(stops)) >= 1.0 && MinOf(Positions(stops)) > 0.0 ==>
              forall i :: 0 <= i < |stops| ==> NewPosition(stops) < stops[i].position
  {
    SortedPositionsSpec(stops);
    ChoosePositionSpec(Positions(stops), SortedPositions(stops));
  }

  /** With every position in [0, 1] the new one is in [0, 1] too. */
  lemma NewPositionWithin(stops: seq<ColorStop>)
    requires |stops| > 0 && PositionsWithin(stops, Fraction)
    ensures 0.0 <= NewPosition(stops) <= 1.0
  {
    SortedPositionsSpec(stops);
    ChoosePositionSpec(Positions(stops), SortedPositions(stops));
  }

  // ---------------------------------------------------------------------
  // Adding a stop

  /** `"#" + Math.floor(d * 16777215).toString(16).padStart(6, '0')` for a draw d of
      Math.random(). */
  function StopColor(d: real): string
  {
    "#" + PadStart(IntToHex((d * 16777215.0).Floor), 6, '0')
  }

  /** A draw in [0, 1) gives a six-digit lower-case colour whose digits are the value
      drawn, below 0xffffff. */
  lemma StopColorHex(d: real)
    requires 0.0 <= d < 1.0
    ensures IsHexColor(StopColor(d))
    ensures forall i :: 1 <= i < 7 ==> IsLowerHexDigit(StopColor(d)[i])
    ensures 0 <= (d * 16777215.0).Floor < 16777215
    ensures StopColor(d)[1..] == HexDigits((d * 16777215.0).Floor, 6)
  {
    var n := (d * 16777215.0).Floor;
    assert d * 16777215.0 < 16777215.0;
    SixDigitColor(n);
  }

  /** A number below 16^6, printed in hex and padded to six digits after '#'. */
  lemma SixDigitColor(n: int)
    requires 0 <= n < 16777216
    ensures var c := "#" + PadStart(IntToHex(n), 6, '0');
            && IsHexColor(c)
            && (forall i :: 1 <= i < 7 ==> IsLowerHexDigit(c[i]))
            && c[1..] == HexDigits(n, 6)
  {
    Pow16Table();
    NatToHexPadded(6, n);
    var p := PadStart(IntToHex(n), 6, '0');
    assert p == HexDigits(n, 6);
    var c := "#" + p;
    assert c[1..] == p;
    forall i | 1 <= i < 7
      ensures IsLowerHexDigit(c[i]) && IsHexDigit(c[i])
    {
      assert c[i] == p[i - 1];
    }
  }

  /** handleAddColorStop: nothing happens at five stops or more; otherwise a stop with a
      random colour at the chosen position is appended and the others stay. */
  function AddColorStop(g: Gradient, d: real): (r: Gradient)
    requires |g.colorStops| > 0
    ensures |g.colorStops| >= 5 ==> r == g
    ensures |g.colorStops| < 5 ==>
              && |r.colorStops| == |g.colorStops| + 1
              && r.colorStops[..|g.colorStops|] == g.colorStops
              && r.colorStops[|g.colorStops|].color == StopColor(d)
              && r.colorStops[|g.colorStops|].position == NewPosition(g.colorStops)
    ensures r.(colorStops := g.colorStops) == g
  {
    if |g.colorStops| >= 5 then g
    else
      var stop := ColorStop(StopColor(d), NewPosition(g.colorStops));
      g.(colorStops := g.colorStops + [stop])
  }

  /** The added stop sits at a position no other stop has. */
  lemma AddedStopIsNew(g: Gradient, d: real)
    requires 0 < |g.colorStops| < 5
    ensures var r := AddColorStop(g, d);
            forall i :: 0 <= i < |g.colorStops| ==> r.colorStops[i].position != r.colorStops[|g.colorStops|].position
  {
    NewPositionFresh(g.colorStops);
  }

  // ---------------------------------------------------------------------
  // The schema is kept

  /** The stop added to a schema-valid list is itself valid. */
  lemma AddedStopValid(stops: seq<ColorStop>, d: real)
    requires |stops| > 0 && PositionsWithin(stops, Fraction) && 0.0 <= d < 1.0
    ensures SrcSchema.ValidStop(ColorStop(StopColor(d), NewPosition(stops)))
  {
    NewPositionWithin(stops);
    StopColorHex(d);
  }

  /** Adding a stop keeps a schema-valid gradient valid. */
  lemma AddKeepsValid(g: Gradient, d: real)
    requires SrcSchema.Valid(g) && 0.0 <= d < 1.0
    ensures SrcSchema.Valid(AddColorStop(g, d))
  {
    var stops := g.colorStops;
    if |stops| < 5 {
      assert PositionsWithin(stops, Fraction) by {
        assert forall i :: 0 <= i < |stops| ==> SrcSchema.ValidStop(stops[i]);
      }
      AddedStopValid(stops, d);
      AppendKeepsValid(g, ColorStop(StopColor(d), NewPosition(stops)));
    }
  }

  lemma AppendKeepsValid(g: Gradient, stop: ColorStop)
    requires SrcSchema.Valid(g) && |g.colorStops| < 5 && SrcSchema.ValidStop(stop)
    ensures SrcSchema.Valid(g.(colorStops := g.colorStops + [stop]))
  {
    var r := g.colorStops + [stop];
    forall i | 0 <= i < |r|
      ensures SrcSchema.ValidStop(r[i])
    {
      if i < |g.colorStops| {
        assert r[i] == g.colorStops[i];
      }
    }
  }

  /** The other edits keep a schema-valid gradient valid, given an angle in range and a
      valid replacement stop. */
  lemma EditsKeepValid(g: Gradient, angle: int, useAngle: bool, index: int, stop: ColorStop)
    requires SrcSchema.Valid(g)
    ensures 0 <= angle <= 360 ==> SrcSchema.Valid(ChangeAngle(g, angle))
    ensures SrcSchema.Valid(ToggleUseAngle(g, useAngle))
    ensures SrcSchema.Valid(RemoveColorStop(g, index))
    ensures 0 <= index < |g.colorStops| && SrcSchema.ValidStop(stop) ==>
              SrcSchema.Valid(ChangeColorStop(g, index, stop))
  {
  }

  // ---------------------------------------------------------------------
  // Saving

  /** The name given to an unnamed gradient: `Gradient ${new Date().toLocaleString()}`,
      with the clock's text as a parameter. */
  function DefaultName(stamp: string): string
  {
    "Gradient " + stamp
  }

  /** `!name || name.trim() === ""`: missing, empty or only whitespace. */
  predicate NeedsName(name: Option<string>)
  {
    name.None? || IsBlank(name.value)
  }

  /** handleSaveGradient: the gradient the page holds afterwards, the storage entry after
      the save, and the list the page shows. */
  function HandleSave(g: Gradient, stamp: string, available: bool, slot: SrcGradient.Slot)
    : (r: (Gradient, SrcGradient.Slot, seq<Gradient>))
  {
    var named := if NeedsName(g.name) then g.(name := Some(DefaultName(stamp))) else g;
    var after := SrcGradient.SaveToSlot(available, slot, named);
    (named, after, SrcGradient.GetSaved(available, after))
  }

  /** A saved gradient always has a name that is not blank: a usable name is kept, any
      other is replaced by the default and nothing else changes; the list shown holds
      the gradient whenever storage works. */
  lemma SaveNamed(g: Gradient, stamp: string, available: bool, slot: SrcGradient.Slot)
    ensures var (named, _, shown) := HandleSave(g, stamp, available, slot);
            && named.name.Some? && !NeedsName(named.name)
            && (!NeedsName(g.name) ==> named == g)
            && named.(name := g.name) == g
            && (available && !slot.Corrupt? ==> named in shown)
  {
    var named := HandleSave(g, stamp, available, slot).0;
    assert !IsWhitespace(DefaultName(stamp)[0]);
    if available && !slot.Corrupt? {
      SrcGradient.SaveThenGet(slot, named);
    }
  }
}
