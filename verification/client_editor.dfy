/**
 The editing rules of the `client/` generator page
 (client/src/pages/GradientGenerator.tsx): a new stop goes at the rounded middle
 of the outermost positions with a fixed colour and the list is re-sorted, and
 the saved list lives in page state: saving puts a copy with a fresh id in front,
 deleting filters by id, clearing empties it. Changing and removing a stop
 follow the same rules as the `src/` page (SrcEditor.ChangeColorStop and
 SrcEditor.RemoveColorStop). The fresh id from nanoid() is a parameter.
 */
module ClientEditor {
  import opened Js
  import opened GradientModel
  import StableSort
  import SharedSchema
  import SrcGradient
  import ClientGradient

  // ---------------------------------------------------------------------
  // Adding a stop

  /** The colour every added stop gets. */
  const AddedColor: string := "#8B5CF6"

  /** Math.round of x, as a number: a whole number within a half of x. */
  function RoundToWhole(x: real): (p: real)
    ensures p == p.Floor as real
    ensures Abs(p - x) <= 0.5
  {
    Round(x) as real
  }

  /** `Math.round((maxPosition + minPosition) / 2)`. On an empty list Math.max and
      Math.min give -Infinity and Infinity, whose sum is NaN, which is outside this
      model. */
  function MidPosition(stops: seq<ColorStop>): real
    requires |stops| > 0
  {
    RoundToWhole((MaxOf(Positions(stops)) + MinOf(Positions(stops))) / 2.0)
  }

  /** handleAddColorStop: the new stop is appended and the list sorted by position. */
  function AddColorStop(g: Gradient): (r: Gradient)
    requires |g.colorStops| > 0
    ensures |r.colorStops| == |g.colorStops| + 1
    ensures StableSort.SortedBy(r.colorStops, Position)
    ensures multiset(r.colorStops) == multiset(g.colorStops) + multiset{ColorStop(AddedColor, MidPosition(g.colorStops))}
    ensures r.(colorStops := g.colorStops) == g
  {
    var added := g.colorStops + [ColorStop(AddedColor, MidPosition(g.colorStops))];
    g.(colorStops := SortStops(added))
  }

  /** A position between 0 and 100 rounds to one between 0 and 100. */
  lemma MidWithin(stops: seq<ColorStop>)
    requires |stops| > 0 && PositionsWithin(stops, Percent)
    ensures 0.0 <= MidPosition(stops) <= 100.0
  {
    var ps := Positions(stops);
    var m := (MaxOf(ps) + MinOf(ps)) / 2.0;
    assert 0.0 <= MinOf(ps) && MaxOf(ps) <= 100.0 by {
      assert forall i :: 0 <= i < |stops| ==> ps[i] == stops[i].position;
    }
    RoundMonotone(0.0, m);
    RoundMonotone(m, 100.0);
    RoundUnique(100.0, 100);
  }

  /** Every stop of the sorted list is one of the stops before sorting. */
  lemma AddedStopsFrom(g: Gradient, i: nat)
    requires |g.colorStops| > 0 && i < |AddColorStop(g).colorStops|
    ensures var s := AddColorStop(g).colorStops[i];
            s in g.colorStops || s == ColorStop(AddedColor, MidPosition(g.colorStops))
  {
    var r := AddColorStop(g).colorStops;
    assert r[i] in multiset(r);
  }

  /** Adding keeps a schema-valid gradient valid (the client schema has no upper bound
      on the number of stops) and keeps whole-percentage positions whole. */
  lemma AddKeepsValid(g: Gradient)
    requires |g.colorStops| > 0
    ensures SharedSchema.Valid(g) ==> SharedSchema.Valid(AddColorStop(g))
    ensures ClientGradient.WholePositions(g.colorStops) ==> ClientGradient.WholePositions(AddColorStop(g).colorStops)
  {
    var r := AddColorStop(g).colorStops;
    if SharedSchema.Valid(g) {
      assert PositionsWithin(g.colorStops, Percent) by {
        assert forall i :: 0 <= i < |g.colorStops| ==> SharedSchema.ValidStop(g.colorStops[i]);
      }
      MidWithin(g.colorStops);
      forall i | 0 <= i < |r|
        ensures SharedSchema.ValidStop(r[i])
      {
        AddedStopsFrom(g, i);
      }
    }
    if ClientGradient.WholePositions(g.colorStops) {
      forall i | 0 <= i < |r|
        ensures r[i].position == r[i].position.Floor as real
      {
        AddedStopsFrom(g, i);
      }
    }
  }

  // ---------------------------------------------------------------------
  // The saved list

  /** handleSaveGradient: a copy of the gradient under a fresh id goes in front. */
  function Save(saved: seq<Gradient>, g: Gradient, freshId: string): (r: seq<Gradient>)
    ensures |r| == |saved| + 1
    ensures r[0].id == Some(freshId) && r[0].(id := g.id) == g
    ensures r[1..] == saved
  {
    [g.(id := Some(freshId))] + saved
  }

  /** handleDeleteGradient: a missing or empty id changes nothing; otherwise every entry
      with that id goes. */
  function Delete(saved: seq<Gradient>, id: Option<string>): (r: seq<Gradient>)
  {
    if id.None? || id.value == "" then saved else SrcGradient.RemoveId(saved, id.value)
  }

  /** handleClearAllGradients. */
  function ClearAll(saved: seq<Gradient>): seq<Gradient>
  {
    []
  }

  /** A fresh id keeps the saved ids distinct. */
  lemma SaveKeepsDistinct(saved: seq<Gradient>, g: Gradient, freshId: string)
    requires SrcGradient.DistinctIds(saved)
    requires forall i :: 0 <= i < |saved| ==> saved[i].id != Some(freshId)
    ensures SrcGradient.DistinctIds(Save(saved, g, freshId))
  {
    var r := Save(saved, g, freshId);
    assert forall i :: 1 <= i < |r| ==> r[i] == saved[i - 1];
  }

  /** Delete with no usable id leaves the list as it is; with an id, no entry keeps it
      and exactly the entries with another id are still there. */
  lemma DeleteSpec(saved: seq<Gradient>, id: Option<string>)
    ensures id.None? || id.value == "" ==> Delete(saved, id) == saved
    ensures id.Some? && id.value != "" ==>
              && (forall i :: 0 <= i < |Delete(saved, id)| ==> Delete(saved, id)[i].id != id)
              && (forall x :: x in Delete(saved, id) <==> x in saved && x.id != id)
  {
    if id.Some? && id.value != "" {
      SrcGradient.RemoveIdSpec(saved, id.value);
    }
  }

  /** Deleting a freshly saved gradient by its id gives back the list before the save. */
  lemma DeleteUndoesSave(saved: seq<Gradient>, g: Gradient, freshId: string)
    requires freshId != ""
    requires forall i :: 0 <= i < |saved| ==> saved[i].id != Some(freshId)
    ensures Delete(Save(saved, g, freshId), Some(freshId)) == saved
  {
    SrcGradient.RemoveIdSpec(saved, freshId);
    assert Save(saved, g, freshId) == [g.(id := Some(freshId))] + saved;
    assert Save(saved, g, freshId)[1..] == saved;
  }

  /** After clearing, the list is empty: a delete finds nothing and the next save leaves
      just that one gradient. */
  lemma ClearAllEmpty(saved: seq<Gradient>, g: Gradient, freshId: string, id: Option<string>)
    ensures |ClearAll(saved)| == 0
    ensures Delete(ClearAll(saved), id) == ClearAll(saved)
    ensures Save(ClearAll(saved), g, freshId) == [g.(id := Some(freshId))]
  {
  }
}
