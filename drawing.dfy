/** The drawing page of drawing.js as an object: its fields are the
    variables the page keeps in its closure, and each method runs the
    corresponding handler step by step. Every method is proved to keep
    `Valid` and to end in the state the matching function of module Editor
    gives for the state it started from; what those functions do is proved
    in editor.dfy. */
module DrawingPage {
  import opened Text
  import opened Selection
  import opened Layout
  import Geometry
  import Editor

  /** The centre of each overlay of a list: `selected.map(serializeWithCenter)`. */
  function CentersOf(centerOf: Overlay -> Geometry.LatLng, ovs: seq<Overlay>): (cs: seq<Geometry.LatLng>)
    ensures |cs| == |ovs|
    ensures forall j :: 0 <= j < |ovs| ==> cs[j] == centerOf(ovs[j])
  {
    seq(|ovs|, j requires 0 <= j < |ovs| => centerOf(ovs[j]))
  }

  class Drawing {
    var areas: seq<Entry>
    var constraints: seq<Entry>
    var objects: seq<Entry>
    var areaCounter: nat
    var constraintCounter: nat
    var objectCounter: nat
    var roadsCounter: nat
    /** The selection, in selection order. */
    var selected: seq<Overlay>
    var focusIndex: int
    /** The overlays whose `__selected` flag is set. */
    var flagged: set<Overlay>
    /** The id the next created overlay receives. */
    var nextId: nat

    /** The fields as one value. */
    function Snapshot(): Editor.State
      reads this
    {
      Editor.State(
        Editor.Lists(areas, constraints, objects),
        Editor.Counters(areaCounter, constraintCounter, objectCounter, roadsCounter),
        Editor.Sel(selected, focusIndex, flagged),
        nextId)
    }

    ghost predicate Valid()
      reads this
    {
      Editor.Inv(Snapshot())
    }

    constructor ()
      ensures Valid() && Snapshot() == Editor.Initial
    {
      areas, constraints, objects := [], [], [];
      areaCounter, constraintCounter, objectCounter, roadsCounter := 0, 0, 0, 0;
      selected, focusIndex, flagged, nextId := [], -1, {}, 0;
      Editor.InitialInv();
    }

    // ----- selection -----

    /** updateFocusAfterSelection. */
    method UpdateFocusAfterSelection()
      modifies this
      ensures Snapshot() == old(Snapshot()).(sel := Editor.Refocus(old(Snapshot()).sel))
    {
      if |selected| == 0 {
        focusIndex := -1;
        return;
      }
      if focusIndex < 0 {
        focusIndex := 0;
      }
      if focusIndex >= |selected| {
        focusIndex := |selected| - 1;
      }
    }

    /** toggleSelection(ov, forceOn). */
    method ToggleSelection(ov: Overlay, forceOn: bool)
      requires Valid() && ov.id < nextId
      modifies this
      ensures Valid() && Snapshot() == Editor.Toggle(old(Snapshot()), ov, forceOn)
    {
      ghost var s0 := Snapshot();
      var i := IndexOf(selected, ov);
      if i >= 0 && !forceOn {
        selected := RemoveAt(selected, i);
        flagged := flagged - {ov};
      } else if i < 0 {
        selected := selected + [ov];
        flagged := flagged + {ov};
      }
      UpdateFocusAfterSelection();
      Editor.ToggleFacts(s0.sel, s0.nextId, ov, forceOn);
      Editor.SelStep(s0, Snapshot().sel);
    }

    /** clearSelection: every selected overlay's flag is cleared, then the
        selection and the focus are emptied. */
    method ClearSelection()
      requires Valid()
      modifies this
      ensures Valid() && Snapshot() == Editor.Clear(old(Snapshot()))
    {
      ghost var s0 := Snapshot();
      var sel := selected;
      for i := 0 to |sel|
        invariant flagged == s0.sel.flagged - Members(sel[..i])
        invariant Snapshot() == s0.(sel := s0.sel.(flagged := flagged))
      {
        assert sel[..i + 1] == sel[..i] + [sel[i]];
        MembersAppend(sel[..i], sel[i]);
        flagged := flagged - {sel[i]};
      }
      assert sel[..|sel|] == sel;
      selected := [];
      focusIndex := -1;
      Editor.ClearFacts(s0.sel, s0.nextId);
      Editor.SelStep(s0, Snapshot().sel);
    }

    /** clickSelect(ov, additive). */
    method ClickSelect(ov: Overlay, additive: bool)
      requires Valid() && ov.id < nextId
      modifies this
      ensures Valid() && Snapshot() == Editor.Click(old(Snapshot()), ov, additive)
    {
      ghost var s0 := Snapshot();
      if additive {
        ToggleSelection(ov, false);
      } else {
        ClearSelection();
        ToggleSelection(ov, true);
      }
      focusIndex := IndexOf(selected, ov);
      Editor.ClickFacts(s0.sel, s0.nextId, ov, additive);
      Editor.SelStep(s0, Snapshot().sel);
    }

    /** deselectFocused. */
    method DeselectFocused()
      requires Valid()
      modifies this
      ensures Valid() && Snapshot() == Editor.Deselect(old(Snapshot()))
    {
      if focusIndex >= 0 && focusIndex < |selected| {
        var ov := selected[focusIndex];
        ToggleSelection(ov, false);
      }
    }

    /** The `]` (forward) and `[` keys. */
    method CycleFocus(forward: bool)
      requires Valid()
      modifies this
      ensures Valid() && Snapshot() == Editor.Cycle(old(Snapshot()), forward)
    {
      ghost var s0 := Snapshot();
      if forward && |selected| > 0 {
        focusIndex := JsRem(focusIndex + 1, |selected|);
      }
      if !forward && |selected| > 0 {
        focusIndex := JsRem(focusIndex - 1 + |selected|, |selected|);
      }
      Editor.CycleFacts(s0.sel, s0.nextId, forward);
      Editor.SelStep(s0, Snapshot().sel);
    }

    /** `ovs.forEach(ov => toggleSelection(ov, true))`. */
    method TurnOnEach(ovs: seq<Overlay>)
      requires Valid() && forall k :: 0 <= k < |ovs| ==> ovs[k].id < nextId
      modifies this
      ensures Valid() && Snapshot() == old(Snapshot()).(sel := Editor.ToggleAllOn(old(Snapshot()).sel, ovs))
    {
      ghost var s0 := Snapshot();
      for i := 0 to |ovs|
        invariant Valid()
        invariant Editor.Sel(selected, focusIndex, flagged) == Editor.ToggleAllOn(s0.sel, ovs[..i])
        invariant Editor.Lists(areas, constraints, objects) == s0.lists && nextId == s0.nextId
        invariant Editor.Counters(areaCounter, constraintCounter, objectCounter, roadsCounter) == s0.counters
      {
        assert ovs[..i + 1][..i] == ovs[..i];
        ToggleSelection(ovs[i], true);
      }
      assert ovs[..|ovs|] == ovs;
    }

    /** Ctrl/Cmd + A: clear, then turn on every overlay of `areas`,
        `constraints` and `objects` in that order, then focus the first. */
    method SelectAll()
      requires Valid()
      modifies this
      ensures Valid() && Snapshot() == Editor.SelectEverything(old(Snapshot()))
    {
      ghost var s0 := Snapshot();
      ClearSelection();
      ghost var s1 := Snapshot();
      var all := Overlays(areas) + Overlays(constraints) + Overlays(objects);
      Editor.AllOverlaysDistinct(s1.lists, s1.nextId);
      TurnOnEach(all);
      focusIndex := if |selected| > 0 then 0 else -1;
      assert Snapshot() == Editor.SelectEverything(s0);
      Editor.SelectEverythingFacts(s0);
    }

    // ----- deletion -----

    /** handleDelete: for each selected overlay, the entry holding it is
        found in the list of its category and spliced out; then the
        selection and the focus are emptied. */
    method HandleDelete()
      requires Valid()
      modifies this
      ensures Valid() && Snapshot() == Editor.DeleteSelected(old(Snapshot()))
    {
      ghost var s0 := Snapshot();
      if |selected| == 0 {
        return;
      }
      WithoutNone(areas, {});
      WithoutNone(constraints, {});
      WithoutNone(objects, {});
      assert Editor.ListsOk(s0.lists, s0.nextId);
      var sel := selected;
      assert Members(sel[..0]) == {};
      for i := 0 to |sel|
        invariant Editor.Lists(areas, constraints, objects) == Editor.Filter(s0.lists, Members(sel[..i]))
        invariant areaCounter == s0.counters.areas && constraintCounter == s0.counters.constraints
        invariant objectCounter == s0.counters.objects && roadsCounter == s0.counters.roads
        invariant selected == s0.sel.selected && focusIndex == s0.sel.focusIndex
        invariant flagged == s0.sel.flagged && nextId == s0.nextId
      {
        var ov := sel[i];
        Editor.DropStep(s0.lists, s0.nextId, Members(sel[..i]), ov);
        match ov.cat {
          case Area => areas := SpliceOut(areas, ov);
          case Constraint => constraints := SpliceOut(constraints, ov);
          case Object => objects := SpliceOut(objects, ov);
        }
        assert sel[..i + 1] == sel[..i] + [ov];
        MembersAppend(sel[..i], ov);
      }
      assert sel[..|sel|] == sel;
      selected := [];
      focusIndex := -1;
      assert Snapshot() == Editor.DeleteSelected(s0);
      Editor.DeleteFacts(s0);
    }

    // ----- creation -----

    /** `arr.push({overlay: ov, name, ...})` for a new overlay of category
        `cat`, which takes the next id. */
    method AddEntry(cat: Category, kind: Kind, name: string) returns (ov: Overlay)
      requires Valid()
      modifies this
      ensures Valid() && Snapshot() == Editor.Add(old(Snapshot()), cat, kind, name)
      ensures ov == Overlay(old(nextId), cat, kind)
    {
      ghost var s0 := Snapshot();
      ov := Overlay(nextId, cat, kind);
      var e := Entry(ov, name);
      match cat {
        case Area => areas := areas + [e];
        case Constraint => constraints := constraints + [e];
        case Object => objects := objects + [e];
      }
      nextId := nextId + 1;
      assert Snapshot() == Editor.Add(s0, cat, kind, name);
      Editor.AddFacts(s0, cat, kind, name);
    }

    /** A new overlay named after the next value of its category's counter,
        `Area ${++areaCounter}` and so on. */
    method RegisterOverlay(cat: Category, kind: Kind) returns (ov: Overlay)
      requires Valid()
      modifies this
      ensures Valid() && Snapshot() == Editor.Register(old(Snapshot()), cat, kind)
      ensures ov == Overlay(old(nextId), cat, kind)
    {
      ghost var s0 := Snapshot();
      var name: string;
      match cat {
        case Area =>
          areaCounter := areaCounter + 1;
          name := Label(Area, areaCounter);
        case Constraint =>
          constraintCounter := constraintCounter + 1;
          name := Label(Constraint, constraintCounter);
        case Object =>
          objectCounter := objectCounter + 1;
          name := Label(Object, objectCounter);
      }
      ghost var s1 := s0.(counters := Editor.Bump(s0.counters, cat));
      assert Snapshot() == s1;
      Editor.CountersFree(s0, s1.counters);
      assert name == Label(cat, Editor.Count(s1.counters, cat));
      ov := AddEntry(cat, kind, name);
      assert Snapshot() == Editor.Register(s0, cat, kind);
    }

    /** The `overlaycomplete` handler for a shape drawn with a category
        active: register it, then select it alone. */
    method CompleteOverlay(cat: Category, kind: Kind) returns (ov: Overlay)
      requires Valid()
      modifies this
      ensures Valid() && Snapshot() == Editor.Complete(old(Snapshot()), cat, kind)
      ensures ov == Overlay(old(nextId), cat, kind)
    {
      ghost var s0 := Snapshot();
      ov := RegisterOverlay(cat, kind);
      ClickSelect(ov, false);
      assert Snapshot() == Editor.Complete(s0, cat, kind);
    }

    /** duplicateSelectionAt, as Ctrl/Cmd + D calls it: the selection is
        buffered and cleared, then each buffered overlay is rebuilt (at the
        same offset from a point 5 m east and 5 m south of the group
        centre), registered under the next name of its category, and turned
        on in the selection. */
    method DuplicateSelectionAt()
      requires Valid()
      modifies this
      ensures Valid() && Snapshot() == Editor.DuplicateSelected(old(Snapshot()))
    {
      if |selected| == 0 {
        return;
      }
      var items := selected;
      ClearSelection();
      ghost var c := Snapshot();
      for j := 0 to |items|
        invariant Valid() && Snapshot() == Editor.DuplicateSteps(c, items[..j])
      {
        var item := items[j];
        Editor.DuplicateStepsSnoc(c, items, j);
        var ov := RegisterOverlay(item.cat, item.kind);
        ToggleSelection(ov, true);
      }
      assert items[..|items|] == items;
    }

    // ----- roads -----

    /** createRoadCorridorFromPath: the corridor polygon around `path`
        becomes a new object, selected alone; nothing for fewer than two
        points. The polygon itself goes to the map. */
    method CreateRoadCorridor(sp: Geometry.Sphere, path: seq<Geometry.LatLng>, width: real, name: string)
      requires Valid()
      modifies this
      ensures Valid() && Snapshot() == Editor.Road(old(Snapshot()), |path|, name)
    {
      ghost var s0 := Snapshot();
      if |path| < 2 {
        return;
      }
      var poly := Geometry.CorridorFromPath(sp, path, width);
      var roadName := name;
      if roadName == "" {
        roadsCounter := roadsCounter + 1;
        roadName := "Road " + NatToString(roadsCounter);
      }
      ghost var k := Snapshot().counters;
      assert Snapshot() == s0.(counters := k) && roadName == Editor.RoadName(name, k.roads);
      Editor.CountersFree(s0, k);
      var ov := AddEntry(Object, Polygon, roadName);
      ghost var u := Snapshot();
      ClearSelection();
      ToggleSelection(ov, true);
      assert Snapshot() == Editor.Toggle(Editor.Clear(u), ov, true);
      assert Snapshot() == Editor.Road(s0, |path|, name);
    }

    /** `createRoadCorridorFromPath(path, width, prefix + (++roadsCounter))`. */
    method CountedRoad(sp: Geometry.Sphere, path: seq<Geometry.LatLng>, width: real, prefix: string)
      requires Valid()
      modifies this
      ensures Valid() && Snapshot() == Editor.CountedRoad(old(Snapshot()), |path|, prefix)
    {
      ghost var s0 := Snapshot();
      roadsCounter := roadsCounter + 1;
      ghost var s1 := s0.(counters := s0.counters.(roads := s0.counters.roads + 1));
      assert Snapshot() == s1;
      Editor.CountersFree(s0, s1.counters);
      var name := prefix + NatToString(roadsCounter);
      assert name == prefix + NatToString(s1.counters.roads);
      CreateRoadCorridor(sp, path, width, name);
      assert Snapshot() == Editor.Road(s1, |path|, name);
    }

    /** `overlaycomplete` for a line drawn with the road-free tool. */
    method FinishFreeRoad(sp: Geometry.Sphere, path: seq<Geometry.LatLng>, width: real, setback: real)
      requires Valid()
      modifies this
      ensures Valid() && Snapshot() == Editor.FreeRoad(old(Snapshot()), |path|)
    {
      ghost var s0 := Snapshot();
      CountedRoad(sp, path, width + 2.0 * setback, "Road ");
      assert Snapshot() == Editor.FreeRoad(s0, |path|);
    }

    /** The road-H and road-V buttons, with `union` the bounds
        getAreasUnionBounds gives when an area exists; road i follows
        `Geometry.RoadPath(union, horizontal, n, i)`. */
    method ApplyRoads(sp: Geometry.Sphere, horizontal: bool, n: int, width: real, setback: real,
                      union: Geometry.Bounds)
      returns (alert: Option<string>)
      requires Valid()
      modifies this
      ensures Valid() && (alert, Snapshot()) == Editor.Roads(old(Snapshot()), horizontal, n)
    {
      ghost var s0 := Snapshot();
      if n <= 0 {
        return None;
      }
      if FirstArea(selected) == -1 && |areas| == 0 {
        return Some(NoAreaAlert);
      }
      alert := None;
      for i := 1 to n + 1
        invariant Valid() && Snapshot() == Editor.AddRoads(s0, horizontal, i - 1)
      {
        var path := Geometry.RoadPath(union, horizontal, n, i);
        CreateRoadCorridor(sp, path, width + 2.0 * setback, Editor.LineName(horizontal, i));
      }
    }

    /** The perimeter-road button; `shapeOf` gives the geometry of an
        overlay. */
    method PerimeterRoad(sp: Geometry.Sphere, shapeOf: Overlay -> Geometry.Shape, width: real, setback: real)
      returns (alert: Option<string>)
      requires Valid()
      modifies this
      ensures Valid() && (alert, Snapshot()) == Editor.PerimeterRoad(sp, shapeOf, old(Snapshot()), width, setback)
    {
      ghost var s0 := Snapshot();
      var pick := PerimeterArea(selected, areas);
      assert pick == PerimeterArea(s0.sel.selected, s0.lists.areas);
      if pick.None? {
        assert Editor.PerimeterRoad(sp, shapeOf, s0, width, setback) == (Some(NoAreaAlert), s0);
        return Some(NoAreaAlert);
      }
      var boundary := Geometry.GetPerimeterPath(sp, shapeOf(pick.value));
      if |boundary| < 2 {
        assert Editor.PerimeterRoad(sp, shapeOf, s0, width, setback) == (Some(NoBoundaryAlert), s0);
        return Some(NoBoundaryAlert);
      }
      var inner := Geometry.OffsetClosedPathInward(sp, boundary, width / 2.0 + setback);
      CountedRoad(sp, inner, width + 2.0 * setback, "Perimeter Road ");
      alert := None;
      assert Snapshot() == Editor.CountedRoad(s0, |inner|, "Perimeter Road ");
      Editor.PerimeterRoadSteps(sp, shapeOf, s0, width, setback, pick.value, boundary, inner);
    }

    // ----- grid apply -----

    /** `buffer.forEach(item => ...)` for one grid cell: each buffered
        overlay is rebuilt (at the centre Layout.CellTargets gives) and
        registered under the next name of its category. */
    method CopyBuffer(buffer: seq<Overlay>)
      requires Valid()
      modifies this
      ensures Valid() && Snapshot() == Editor.RegisterAll(old(Snapshot()), buffer)
    {
      ghost var s0 := Snapshot();
      for j := 0 to |buffer|
        invariant Valid() && Snapshot() == Editor.RegisterAll(s0, buffer[..j])
      {
        var item := buffer[j];
        Editor.RegisterAllSnoc(s0, buffer, j);
        var _ := RegisterOverlay(item.cat, item.kind);
      }
      assert buffer[..|buffer|] == buffer;
    }

    /** Row r of the grid loops (`for (let c = 0; c < cols; c++)`), run
        after rows 0 .. r - 1: `done` are the cells visited so far and
        `targets` the centres given so far. */
    method CopyRow(sp: Geometry.Sphere, gc: Geometry.LatLng, buffer: seq<Overlay>,
                   centers: seq<Geometry.LatLng>, r: nat, cols: nat, sx: real, sy: real,
                   ghost s0: Editor.State, targets0: seq<Geometry.LatLng>)
      returns (targets: seq<Geometry.LatLng>)
      requires Valid()
      requires Snapshot() == Editor.GridState(s0, buffer, Geometry.WithoutOrigin(Geometry.AllCells(r, cols)))
      requires targets0 == GridTargets(sp, gc, Geometry.WithoutOrigin(Geometry.AllCells(r, cols)), centers, sx, sy)
      modifies this
      ensures Valid() && Snapshot() == Editor.GridState(s0, buffer, Geometry.WithoutOrigin(Geometry.AllCells(r + 1, cols)))
      ensures targets == GridTargets(sp, gc, Geometry.WithoutOrigin(Geometry.AllCells(r + 1, cols)), centers, sx, sy)
    {
      targets := targets0;
      ghost var done := Geometry.WithoutOrigin(Geometry.AllCells(r, cols));
      assert Geometry.AllCells(r, cols) + Geometry.RowCells(r, 0) == Geometry.AllCells(r, cols);
      for c := 0 to cols
        invariant Valid() && Snapshot() == Editor.GridState(s0, buffer, done)
        invariant targets == GridTargets(sp, gc, done, centers, sx, sy)
        invariant done == Geometry.WithoutOrigin(Geometry.AllCells(r, cols) + Geometry.RowCells(r, c))
      {
        CellStep(r, cols, c);
        if r == 0 && c == 0 {
          continue;
        }
        Editor.GridStateSnoc(s0, buffer, done, (r, c));
        GridTargetsSnoc(sp, gc, done, (r, c), centers, sx, sy);
        CopyBuffer(buffer);
        targets := targets + CellTargets(sp, gc, (r, c), centers, sx, sy);
        done := done + [(r, c)];
      }
      assert Geometry.AllCells(r + 1, cols) == Geometry.AllCells(r, cols) + Geometry.RowCells(r, cols);
    }

    /** The grid-apply button: every selected overlay is copied into each
        cell of a rows x cols grid except the origin, row by row; each copy
        is registered under the next name of its category. `gc` is the
        group centre, `centerOf` the centre of an overlay; the result is
        the target centre of each copy, in creation order. */
    method ApplyGrid(sp: Geometry.Sphere, gc: Geometry.LatLng, centerOf: Overlay -> Geometry.LatLng,
                     rows: int, cols: int, sx: real, sy: real)
      returns (targets: seq<Geometry.LatLng>)
      requires Valid()
      modifies this
      ensures Valid() && Snapshot() == Editor.Grid(old(Snapshot()), rows, cols)
      ensures targets == if old(selected) == [] then []
        else GridTargets(sp, gc, Geometry.GridCells(rows, cols), CentersOf(centerOf, old(selected)), sx, sy)
    {
      ghost var s0 := Snapshot();
      if |selected| == 0 || rows <= 0 || cols <= 0 {
        return [];
      }
      var buffer := selected;
      var centers := CentersOf(centerOf, buffer);
      targets := [];
      for r := 0 to rows
        invariant Valid() && Snapshot() == Editor.GridState(s0, buffer, Geometry.WithoutOrigin(Geometry.AllCells(r, cols)))
        invariant targets == GridTargets(sp, gc, Geometry.WithoutOrigin(Geometry.AllCells(r, cols)), centers, sx, sy)
      {
        targets := CopyRow(sp, gc, buffer, centers, r, cols, sx, sy, s0, targets);
      }
    }

    /** The keydown handler, with Backspace deleting only without Ctrl or
        Cmd; `typing` says whether the key went to an input field. The
        handler's separate checks test different keys, so at most one of
        them fires (KeyActions has at most one action) and they are written
        here as one chain. */
    method KeyDown(key: string, ctrlMeta: bool, typing: bool)
      requires Valid()
      modifies this
      ensures Valid() && Snapshot() == Editor.KeyDown(old(Snapshot()), key, ctrlMeta, typing)
    {
      ghost var s0 := Snapshot();
      Editor.KeyDownDispatch(s0, key, ctrlMeta, typing);
      if key == "Escape" || typing {
        return;
      }
      if ctrlMeta && (key == "a" || key == "A") {
        SelectAll();
      } else if ctrlMeta && (key == "d" || key == "D") {
        DuplicateSelectionAt();
      } else if key == "Delete" || (key == "Backspace" && !ctrlMeta) {
        HandleDelete();
      } else if key == "]" {
        CycleFocus(true);
      } else if key == "[" {
        CycleFocus(false);
      } else if ctrlMeta && key == "Backspace" {
        DeselectFocused();
      }
    }
  }

  /** One more visited cell of row r: the origin is skipped, any other
      cell is appended to those visited. */
  lemma CellStep(r: nat, cols: nat, c: nat)
    ensures Geometry.WithoutOrigin(Geometry.AllCells(r, cols) + Geometry.RowCells(r, c + 1)) ==
      Geometry.WithoutOrigin(Geometry.AllCells(r, cols) + Geometry.RowCells(r, c)) +
      (if r == 0 && c == 0 then [] else [(r, c)])
  {
    var cells := Geometry.AllCells(r, cols) + Geometry.RowCells(r, c);
    assert Geometry.AllCells(r, cols) + Geometry.RowCells(r, c + 1) == cells + [(r, c)];
    assert (cells + [(r, c)])[..|cells|] == cells;
  }
}
