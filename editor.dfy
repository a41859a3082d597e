/** The closure state of drawing.js as one value, and each handler's effect
    on it as a function of the state before. The state is grouped in three
    parts: the category lists `areas`, `constraints` and `objects`; the name
    counters; and the selection (the ordered `selected` list, `focusIndex`
    and the overlays whose `__selected` flag is set). `Inv` is what every
    handler keeps. The class in drawing.dfy runs the handlers step by step
    on its fields and is proved to end in the state these functions give. */
module Editor {
  import opened Text
  import opened Selection
  import opened Layout
  import Geometry

  // ---------- the category lists ----------

  datatype Lists = Lists(areas: seq<Entry>, constraints: seq<Entry>, objects: seq<Entry>)

  function Get(l: Lists, cat: Category): seq<Entry>
  {
    match cat
    case Area => l.areas
    case Constraint => l.constraints
    case Object => l.objects
  }

  /** `[...areas, ...constraints, ...objects]`, as overlays. */
  function AllOverlays(l: Lists): seq<Overlay>
  {
    Overlays(l.areas) + Overlays(l.constraints) + Overlays(l.objects)
  }

  predicate Listed(l: Lists, o: Overlay)
  {
    o in Overlays(l.areas) || o in Overlays(l.constraints) || o in Overlays(l.objects)
  }

  /** Every list is well-formed for its category, below the id supply. */
  predicate ListsOk(l: Lists, nextId: nat)
  {
    ListOk(l.areas, Area, nextId) && ListOk(l.constraints, Constraint, nextId) &&
    ListOk(l.objects, Object, nextId)
  }

  /** `arr.push(e)` on the list of e's category. */
  function Push(l: Lists, e: Entry): Lists
  {
    match e.overlay.cat
    case Area => l.(areas := l.areas + [e])
    case Constraint => l.(constraints := l.constraints + [e])
    case Object => l.(objects := l.objects + [e])
  }

  /** Each list without the entries of the overlays in `gone`. */
  function Filter(l: Lists, gone: set<Overlay>): Lists
  {
    Lists(Without(l.areas, gone), Without(l.constraints, gone), Without(l.objects, gone))
  }

  /** One step of handleDelete: the entry of `ov` is spliced out of the list
      of its category. */
  function Drop(l: Lists, ov: Overlay): Lists
  {
    match ov.cat
    case Area => l.(areas := SpliceOut(l.areas, ov))
    case Constraint => l.(constraints := SpliceOut(l.constraints, ov))
    case Object => l.(objects := SpliceOut(l.objects, ov))
  }

  /** Splicing the overlays out one at a time filters them all out. */
  lemma DropStep(l: Lists, nextId: nat, gone: set<Overlay>, ov: Overlay)
    requires ListsOk(l, nextId)
    ensures Drop(Filter(l, gone), ov) == Filter(l, gone + {ov})
  {
    DeleteStep(l.areas, Area, nextId, gone, ov);
    DeleteStep(l.constraints, Constraint, nextId, gone, ov);
    DeleteStep(l.objects, Object, nextId, gone, ov);
  }

  lemma ListOkGrow(list: seq<Entry>, cat: Category, n: nat, m: nat)
    requires ListOk(list, cat, n) && n <= m
    ensures ListOk(list, cat, m)
  {
  }

  /** Pushing the entry of a fresh overlay: the overlay was in no list, it
      is now the last entry of its category's list, the other lists are as
      they were, and the lists stay well-formed. */
  lemma PushFacts(l: Lists, nextId: nat, e: Entry)
    requires ListsOk(l, nextId) && e.overlay.id == nextId
    ensures var r := Push(l, e);
      ListsOk(r, nextId + 1) && !Listed(l, e.overlay) &&
      Get(r, e.overlay.cat) == Get(l, e.overlay.cat) + [e] &&
      (forall c :: c != e.overlay.cat ==> Get(r, c) == Get(l, c)) &&
      (forall o :: Listed(r, o) <==> Listed(l, o) || o == e.overlay)
  {
    ListOkGrow(l.areas, Area, nextId, nextId + 1);
    ListOkGrow(l.constraints, Constraint, nextId, nextId + 1);
    ListOkGrow(l.objects, Object, nextId, nextId + 1);
    match e.overlay.cat
    case Area => PushOne(l.areas, Area, nextId, e);
    case Constraint => PushOne(l.constraints, Constraint, nextId, e);
    case Object => PushOne(l.objects, Object, nextId, e);
  }

  /** Appending the entry of a fresh overlay to one list. */
  lemma PushOne(list: seq<Entry>, cat: Category, nextId: nat, e: Entry)
    requires ListOk(list, cat, nextId) && e.overlay.id == nextId && e.overlay.cat == cat
    ensures ListOk(list + [e], cat, nextId + 1) && e.overlay !in Overlays(list)
    ensures Overlays(list + [e]) == Overlays(list) + [e.overlay]
  {
    AppendFresh(list, cat, nextId, e);
    OverlaysAppend(list, [e]);
    assert Overlays([e]) == [e.overlay];
  }

  /** Filtering keeps the lists well-formed and the order of what stays; an
      overlay stays listed exactly when it was listed and is not in `gone`. */
  lemma FilterFacts(l: Lists, nextId: nat, gone: set<Overlay>)
    requires ListsOk(l, nextId)
    ensures var r := Filter(l, gone);
      ListsOk(r, nextId) &&
      (forall c :: Get(r, c) == Without(Get(l, c), gone)) &&
      (forall o :: Listed(r, o) <==> Listed(l, o) && o !in gone)
  {
    WithoutKeepsListOk(l.areas, Area, nextId, gone);
    WithoutKeepsListOk(l.constraints, Constraint, nextId, gone);
    WithoutKeepsListOk(l.objects, Object, nextId, gone);
    OverlaysOfWithout(l.areas, gone);
    OverlaysOfWithout(l.constraints, gone);
    OverlaysOfWithout(l.objects, gone);
  }

  /** The overlays of the three lists are distinct and all created. */
  lemma AllOverlaysDistinct(l: Lists, nextId: nat)
    requires ListsOk(l, nextId)
    ensures NoDup(AllOverlays(l))
    ensures forall k :: 0 <= k < |AllOverlays(l)| ==> AllOverlays(l)[k].id < nextId
    ensures forall o :: o in AllOverlays(l) <==> Listed(l, o)
  {
    var a, c, o := Overlays(l.areas), Overlays(l.constraints), Overlays(l.objects);
    NoDupConcat(a, c);
    NoDupConcat(a + c, o);
  }

  // ---------- the name counters ----------

  datatype Counters = Counters(areas: nat, constraints: nat, objects: nat, roads: nat)

  function Count(k: Counters, cat: Category): nat
  {
    match cat
    case Area => k.areas
    case Constraint => k.constraints
    case Object => k.objects
  }

  /** `++areaCounter` (or the counter of the category). */
  function Bump(k: Counters, cat: Category): (r: Counters)
    ensures Count(r, cat) == Count(k, cat) + 1
    ensures forall c :: c != cat ==> Count(r, c) == Count(k, c)
    ensures r.roads == k.roads
  {
    match cat
    case Area => k.(areas := k.areas + 1)
    case Constraint => k.(constraints := k.constraints + 1)
    case Object => k.(objects := k.objects + 1)
  }

  // ---------- the selection ----------

  datatype Sel = Sel(
    selected: seq<Overlay>, focusIndex: int,
    /** The overlays whose `__selected` flag is set. */
    flagged: set<Overlay>)

  /** The selection has no duplicates and the focus is -1 or a position in
      it (-1 whenever it is empty); every selected overlay is flagged, and
      every flagged overlay has been created. */
  predicate SelOk(q: Sel, nextId: nat)
  {
    NoDup(q.selected) &&
    -1 <= q.focusIndex < |q.selected| && (|q.selected| == 0 ==> q.focusIndex == -1) &&
    (forall o :: o in q.selected ==> o in q.flagged) &&
    (forall o :: o in q.flagged ==> o.id < nextId)
  }

  /** An overlay flagged but not selected in b was so in a already: a
      handler never leaves a stale flag on an overlay it did not find so. */
  predicate NoNewStale(a: Sel, b: Sel)
  {
    forall o :: o in b.flagged && o !in b.selected ==> o in a.flagged && o !in a.selected
  }

  /** updateFocusAfterSelection. */
  function Refocus(q: Sel): Sel
  {
    q.(focusIndex := Clamped(q.focusIndex, |q.selected|))
  }

  /** toggleSelection(ov, forceOn). */
  function ToggleSel(q: Sel, ov: Overlay, forceOn: bool): Sel
  {
    var i := IndexOf(q.selected, ov);
    var t :=
      if i >= 0 && !forceOn then q.(selected := RemoveAt(q.selected, i), flagged := q.flagged - {ov})
      else if i < 0 then q.(selected := q.selected + [ov], flagged := q.flagged + {ov})
      else q;
    Refocus(t)
  }

  /** A toggle changes the selection as `Toggled` says (so the selection
      stays free of duplicates), sets ov's flag exactly when ov ends up
      selected, touches no other flag, and clamps the focus into the new
      selection. */
  lemma ToggleFacts(q: Sel, nextId: nat, ov: Overlay, forceOn: bool)
    requires SelOk(q, nextId) && ov.id < nextId
    ensures var r := ToggleSel(q, ov, forceOn);
      SelOk(r, nextId) && NoNewStale(q, r) &&
      r.selected == Toggled(q.selected, ov, forceOn) &&
      (ov in r.flagged <==> ov in r.selected) &&
      r.flagged - {ov} == q.flagged - {ov} &&
      r.focusIndex == Clamped(q.focusIndex, |r.selected|)
  {
    var i := IndexOf(q.selected, ov);
    var t := Toggled(q.selected, ov, forceOn);
    if i >= 0 && !forceOn {
      assert t == RemoveAt(q.selected, i);
    } else if i < 0 {
      assert t == q.selected + [ov];
    } else {
      assert t == q.selected;
    }
  }

  /** clearSelection. */
  function ClearSel(q: Sel): Sel
  {
    Sel([], -1, q.flagged - Members(q.selected))
  }

  /** After clearSelection nothing is selected, there is no focus, and no
      overlay that was selected keeps its flag. */
  lemma ClearFacts(q: Sel, nextId: nat)
    requires SelOk(q, nextId)
    ensures var r := ClearSel(q);
      SelOk(r, nextId) && NoNewStale(q, r) &&
      r.selected == [] && r.focusIndex == -1 &&
      (forall o :: o in q.selected ==> o !in r.flagged) &&
      (forall o :: o !in q.selected ==> (o in r.flagged <==> o in q.flagged))
  {
  }

  /** clickSelect(ov, additive). */
  function ClickSel(q: Sel, ov: Overlay, additive: bool): Sel
  {
    var t := if additive then ToggleSel(q, ov, false) else ToggleSel(ClearSel(q), ov, true);
    t.(focusIndex := IndexOf(t.selected, ov))
  }

  /** An additive click toggles ov; a plain click makes ov the only
      selected overlay and the only one flagged among those that were
      selected. Either way the focus lands on ov, or is -1 when ov was just
      deselected. */
  lemma ClickFacts(q: Sel, nextId: nat, ov: Overlay, additive: bool)
    requires SelOk(q, nextId) && ov.id < nextId
    ensures var r := ClickSel(q, ov, additive);
      SelOk(r, nextId) && NoNewStale(q, r) &&
      (additive ==> r.selected == Toggled(q.selected, ov, false)) &&
      (!additive ==> r.selected == [ov] && r.flagged == (q.flagged - Members(q.selected)) + {ov}) &&
      (r.focusIndex >= 0 <==> ov in r.selected) &&
      (r.focusIndex >= 0 ==> r.selected[r.focusIndex] == ov)
  {
    if additive {
      ToggleFacts(q, nextId, ov, false);
    } else {
      ClearFacts(q, nextId);
      ToggleFacts(ClearSel(q), nextId, ov, true);
    }
  }

  /** deselectFocused. */
  function DeselectSel(q: Sel): Sel
  {
    var f := q.focusIndex;
    if 0 <= f < |q.selected| then ToggleSel(q, q.selected[f], false) else q
  }

  /** With a focused overlay, exactly that overlay leaves the selection
      (the others keep their order), its flag is cleared and the focus
      stays at the same position, clamped; with no focus nothing changes. */
  lemma DeselectFacts(q: Sel, nextId: nat)
    requires SelOk(q, nextId)
    ensures var r := DeselectSel(q);
      SelOk(r, nextId) && NoNewStale(q, r) &&
      (q.focusIndex == -1 ==> r == q) &&
      (q.focusIndex >= 0 ==>
        var f := q.focusIndex;
        r.selected == RemoveAt(q.selected, f) && q.selected[f] !in r.selected &&
        r.flagged == q.flagged - {q.selected[f]} &&
        r.focusIndex == Clamped(f, |q.selected| - 1))
  {
    var f := q.focusIndex;
    if 0 <= f {
      var ov := q.selected[f];
      assert IndexOf(q.selected, ov) == f;
      ToggleFacts(q, nextId, ov, false);
    }
  }

  /** The `]` (forward) and `[` keys. */
  function CycleSel(q: Sel, forward: bool): Sel
  {
    if |q.selected| > 0 then
      q.(focusIndex := if forward then FocusNext(q.focusIndex, |q.selected|) else FocusPrev(q.focusIndex, |q.selected|))
    else q
  }

  /** Cycling moves only the focus, and with a selection it always lands
      on a selected overlay. */
  lemma CycleFacts(q: Sel, nextId: nat, forward: bool)
    requires SelOk(q, nextId)
    ensures var r := CycleSel(q, forward);
      SelOk(r, nextId) && NoNewStale(q, r) &&
      r.selected == q.selected && r.flagged == q.flagged &&
      (|q.selected| > 0 ==> 0 <= r.focusIndex < |q.selected|)
  {
  }

  /** From a focused overlay, `[` undoes `]` and `]` undoes `[`. */
  lemma {:induction false} CycleBack(q: Sel, nextId: nat)
    requires SelOk(q, nextId) && q.focusIndex >= 0
    ensures CycleSel(CycleSel(q, true), false) == q
    ensures CycleSel(CycleSel(q, false), true) == q
  {
    PrevUndoesNext(q.focusIndex, |q.selected|);
  }

  /** `ovs.forEach(o => toggleSelection(o, true))`. */
  function ToggleAllOn(q: Sel, ovs: seq<Overlay>): Sel
    decreases |ovs|
  {
    if ovs == [] then q
    else ToggleSel(ToggleAllOn(q, ovs[..|ovs| - 1]), ovs[|ovs| - 1], true)
  }

  /** The selection part of Ctrl/Cmd + A over the overlays `all`. */
  function SelectAllSel(q: Sel, all: seq<Overlay>): Sel
  {
    var t := ToggleAllOn(ClearSel(q), all);
    t.(focusIndex := if |t.selected| > 0 then 0 else -1)
  }

  /** Turning on, from an empty selection, the overlays of a list
      without duplicates selects exactly those, in order, and flags them. */
  lemma {:induction false} ToggleAllOnFacts(c: Sel, ovs: seq<Overlay>)
    requires c.selected == [] && c.focusIndex == -1 && NoDup(ovs)
    ensures ToggleAllOn(c, ovs) ==
      Sel(ovs, if ovs != [] then 0 else -1, c.flagged + Members(ovs))
    decreases |ovs|
  {
    if ovs == [] {
      assert c.flagged + Members([]) == c.flagged;
    } else {
      var prefix, ov := ovs[..|ovs| - 1], ovs[|ovs| - 1];
      assert ovs == prefix + [ov];
      NoDupSnoc(prefix, ov);
      ToggleAllOnFacts(c, prefix);
      ToggleAllOnStep(c, ovs);
    }
  }

  /** The last overlay of a list, not among those before it, is appended
      and flagged. */
  lemma ToggleAllOnStep(c: Sel, ovs: seq<Overlay>)
    requires ovs != []
    requires var prefix := ovs[..|ovs| - 1];
      ovs[|ovs| - 1] !in prefix &&
      ToggleAllOn(c, prefix) == Sel(prefix, if prefix != [] then 0 else -1, c.flagged + Members(prefix))
    ensures ToggleAllOn(c, ovs) == Sel(ovs, 0, c.flagged + Members(ovs))
  {
    var prefix, ov := ovs[..|ovs| - 1], ovs[|ovs| - 1];
    var t := ToggleAllOn(c, prefix);
    ToggleOnFresh(t, ov);
    assert ovs == prefix + [ov];
    MembersAppend(prefix, ov);
  }

  /** Turning on an overlay that is not selected appends it and flags it. */
  lemma ToggleOnFresh(t: Sel, ov: Overlay)
    requires ov !in t.selected
    ensures ToggleSel(t, ov, true) ==
      Sel(t.selected + [ov], Clamped(t.focusIndex, |t.selected| + 1), t.flagged + {ov})
  {
  }

  lemma SelectAllFacts(q: Sel, nextId: nat, all: seq<Overlay>)
    requires SelOk(q, nextId) && NoDup(all)
    requires forall k :: 0 <= k < |all| ==> all[k].id < nextId
    ensures var r := SelectAllSel(q, all);
      SelOk(r, nextId) && NoNewStale(q, r) && r.selected == all &&
      r.focusIndex == (if all == [] then -1 else 0) &&
      r.flagged == (q.flagged - Members(q.selected)) + Members(all)
  {
    ClearFacts(q, nextId);
    ToggleAllOnFacts(ClearSel(q), all);
  }

  // ---------- the whole state ----------

  datatype State = State(lists: Lists, counters: Counters, sel: Sel, nextId: nat)

  /** The state when the page loads. */
  const Initial: State := State(Lists([], [], []), Counters(0, 0, 0, 0), Sel([], -1, {}), 0)

  /** The parts are well-formed, and a flagged overlay that is not selected
      has been deleted: for a listed overlay the flag says whether it is
      selected. */
  predicate Inv(s: State)
  {
    SelOk(s.sel, s.nextId) && ListsOk(s.lists, s.nextId) &&
    forall o :: o in s.sel.flagged && o !in s.sel.selected ==> !Listed(s.lists, o)
  }

  /** The counters play no part in the invariant. */
  lemma CountersFree(s: State, k: Counters)
    requires Inv(s)
    ensures Inv(s.(counters := k))
  {
  }

  lemma InitialInv()
    ensures Inv(Initial) && AllOverlays(Initial.lists) == []
  {
    assert Overlays([]) == [];
  }

  /** A selection step that keeps the selection well-formed and leaves no
      new stale flag keeps the invariant. */
  lemma SelStep(s: State, q: Sel)
    requires Inv(s) && SelOk(q, s.nextId) && NoNewStale(s.sel, q)
    ensures Inv(s.(sel := q))
  {
  }

  function Toggle(s: State, ov: Overlay, forceOn: bool): State
  {
    s.(sel := ToggleSel(s.sel, ov, forceOn))
  }

  function Clear(s: State): State
  {
    s.(sel := ClearSel(s.sel))
  }

  function Click(s: State, ov: Overlay, additive: bool): State
  {
    s.(sel := ClickSel(s.sel, ov, additive))
  }

  function Deselect(s: State): State
  {
    s.(sel := DeselectSel(s.sel))
  }

  function Cycle(s: State, forward: bool): State
  {
    s.(sel := CycleSel(s.sel, forward))
  }

  /** Ctrl/Cmd + A. */
  function SelectEverything(s: State): State
  {
    s.(sel := SelectAllSel(s.sel, AllOverlays(s.lists)))
  }

  /** After Ctrl/Cmd + A exactly the listed overlays are selected, areas
      first, then constraints, then objects, with the focus on the first. */
  lemma SelectEverythingFacts(s: State)
    requires Inv(s)
    ensures var r := SelectEverything(s);
      Inv(r) && r.sel.selected == AllOverlays(s.lists) &&
      (forall o :: o in r.sel.selected <==> Listed(s.lists, o)) &&
      r.sel.focusIndex == (if AllOverlays(s.lists) == [] then -1 else 0) &&
      r.sel.flagged == (s.sel.flagged - Members(s.sel.selected)) + Members(AllOverlays(s.lists))
  {
    AllOverlaysDistinct(s.lists, s.nextId);
    SelectAllFacts(s.sel, s.nextId, AllOverlays(s.lists));
    SelStep(s, SelectAllSel(s.sel, AllOverlays(s.lists)));
  }

  // ---------- deletion ----------

  /** handleDelete, stated as a filter: each list loses the entries of the
      selected overlays, and the selection and its focus are emptied. The
      flags are left as they are. */
  function DeleteSelected(s: State): State
  {
    if s.sel.selected == [] then s
    else
      s.(lists := Filter(s.lists, Members(s.sel.selected)),
         sel := s.sel.(selected := [], focusIndex := -1))
  }

  /** With a selection, an overlay stays listed exactly when it was listed
      and not selected; the counters and the id supply are kept. */
  lemma DeleteFacts(s: State)
    requires Inv(s)
    ensures var r := DeleteSelected(s);
      Inv(r) &&
      (s.sel.selected == [] ==> r == s) &&
      (s.sel.selected != [] ==>
        r.sel == Sel([], -1, s.sel.flagged) &&
        (forall c :: Get(r.lists, c) == Without(Get(s.lists, c), Members(s.sel.selected)))) &&
      (forall o :: Listed(r.lists, o) <==> Listed(s.lists, o) && o !in s.sel.selected) &&
      r.counters == s.counters && r.nextId == s.nextId
  {
    if s.sel.selected != [] {
      FilterFacts(s.lists, s.nextId, Members(s.sel.selected));
    }
  }

  // ---------- creation ----------

  /** Pushing an entry for a new overlay onto the list of its category; the
      overlay takes the next id. */
  function Add(s: State, cat: Category, kind: Kind, name: string): State
  {
    s.(lists := Push(s.lists, Entry(Overlay(s.nextId, cat, kind), name)), nextId := s.nextId + 1)
  }

  /** The new overlay was in no list; the selection and the counters stay. */
  lemma AddFacts(s: State, cat: Category, kind: Kind, name: string)
    requires Inv(s)
    ensures var r := Add(s, cat, kind, name); var ov := Overlay(s.nextId, cat, kind);
      Inv(r) && !Listed(s.lists, ov) &&
      Get(r.lists, cat) == Get(s.lists, cat) + [Entry(ov, name)] &&
      (forall c :: c != cat ==> Get(r.lists, c) == Get(s.lists, c)) &&
      r.sel == s.sel && r.counters == s.counters && r.nextId == s.nextId + 1
  {
    PushFacts(s.lists, s.nextId, Entry(Overlay(s.nextId, cat, kind), name));
  }

  /** A new overlay registered under the next name of its category:
      `Area ${++areaCounter}` and so on. */
  function Register(s: State, cat: Category, kind: Kind): State
  {
    var k := Bump(s.counters, cat);
    Add(s.(counters := k), cat, kind, Label(cat, Count(k, cat)))
  }

  /** Registering advances only the counter of the overlay's category, and
      the new entry carries that counter's new value in its name. */
  lemma RegisterFacts(s: State, cat: Category, kind: Kind)
    requires Inv(s)
    ensures var r := Register(s, cat, kind); var ov := Overlay(s.nextId, cat, kind);
      Inv(r) && !Listed(s.lists, ov) &&
      Get(r.lists, cat) == Get(s.lists, cat) + [Entry(ov, Label(cat, Count(s.counters, cat) + 1))] &&
      (forall c :: c != cat ==> Get(r.lists, c) == Get(s.lists, c)) &&
      r.counters == Bump(s.counters, cat) &&
      r.sel == s.sel && r.nextId == s.nextId + 1
  {
    AddFacts(s.(counters := Bump(s.counters, cat)), cat, kind, Label(cat, Count(s.counters, cat) + 1));
  }

  /** The `overlaycomplete` handler for a shape drawn with a category
      active: register it, then `clickSelect(ov, false)`. */
  function Complete(s: State, cat: Category, kind: Kind): State
  {
    Click(Register(s, cat, kind), Overlay(s.nextId, cat, kind), false)
  }

  /** A completed shape is registered under the next name of its category
      and becomes the only selected overlay, focused. */
  lemma CompleteFacts(s: State, cat: Category, kind: Kind)
    requires Inv(s)
    ensures var r := Complete(s, cat, kind); var ov := Overlay(s.nextId, cat, kind);
      Inv(r) &&
      Get(r.lists, cat) == Get(s.lists, cat) + [Entry(ov, Label(cat, Count(s.counters, cat) + 1))] &&
      (forall c :: c != cat ==> Get(r.lists, c) == Get(s.lists, c)) &&
      r.counters == Bump(s.counters, cat) &&
      r.sel.selected == [ov] && r.sel.focusIndex == 0 &&
      r.sel.flagged == (s.sel.flagged - Members(s.sel.selected)) + {ov} &&
      r.nextId == s.nextId + 1
  {
    var ov := Overlay(s.nextId, cat, kind);
    var t := Register(s, cat, kind);
    RegisterFacts(s, cat, kind);
    ClickFacts(t.sel, t.nextId, ov, false);
    SelStep(t, ClickSel(t.sel, ov, false));
  }

  // ---------- roads ----------

  /** The name createRoadCorridorFromPath gives: `name || 'Road ' + (++roadsCounter)`,
      for a counter already advanced when the name is empty. */
  function RoadName(name: string, roads: nat): string
  {
    if name != "" then name else "Road " + NatToString(roads)
  }

  /** createRoadCorridorFromPath, on the state: a centerline of fewer than
      two points changes nothing; otherwise the corridor polygon is pushed
      onto `objects` and becomes the only selected overlay. */
  function Road(s: State, pathLen: nat, name: string): State
  {
    if pathLen < 2 then s
    else
      var k := if name == "" then s.counters.(roads := s.counters.roads + 1) else s.counters;
      var u := Add(s.(counters := k), Object, Polygon, RoadName(name, k.roads));
      Toggle(Clear(u), Overlay(s.nextId, Object, Polygon), true)
  }

  /** A road is a new last object entry that ends up the only selected
      overlay; the road counter advances only for an unnamed road. */
  lemma RoadEffect(s: State, pathLen: nat, name: string)
    ensures var r := Road(s, pathLen, name); var ov := Overlay(s.nextId, Object, Polygon);
      (pathLen < 2 ==> r == s) &&
      (pathLen >= 2 ==>
        r.counters == (if name != "" then s.counters else s.counters.(roads := s.counters.roads + 1)) &&
        r.lists == s.lists.(objects := s.lists.objects + [Entry(ov, RoadName(name, r.counters.roads))]) &&
        r.sel == Sel([ov], 0, (s.sel.flagged - Members(s.sel.selected)) + {ov}) &&
        r.nextId == s.nextId + 1)
  {
    if pathLen >= 2 {
      var ov := Overlay(s.nextId, Object, Polygon);
      assert IndexOf([], ov) == -1;
    }
  }

  /** A road keeps the invariant. */
  lemma RoadKeepsInv(s: State, pathLen: nat, name: string)
    requires Inv(s)
    ensures Inv(Road(s, pathLen, name))
  {
    if pathLen >= 2 {
      var k := if name == "" then s.counters.(roads := s.counters.roads + 1) else s.counters;
      var t := s.(counters := k);
      var u := Add(t, Object, Polygon, RoadName(name, k.roads));
      var ov := Overlay(s.nextId, Object, Polygon);
      AddFacts(t, Object, Polygon, RoadName(name, k.roads));
      ClearFacts(u.sel, u.nextId);
      SelStep(u, ClearSel(u.sel));
      ToggleFacts(ClearSel(u.sel), u.nextId, ov, true);
      SelStep(Clear(u), ToggleSel(ClearSel(u.sel), ov, true));
    }
  }

  /** A road drawn freehand (`overlaycomplete` with the road-free tool):
      the counter advances for the name `Road N` before the corridor is
      built, so it advances even when the line is too short for a road. */
  function FreeRoad(s: State, pathLen: nat): State
  {
    CountedRoad(s, pathLen, "Road ")
  }

  /** A road named `prefix` followed by the next value of the road
      counter, which advances before the corridor is built. */
  function CountedRoad(s: State, pathLen: nat, prefix: string): State
  {
    var k := s.counters.(roads := s.counters.roads + 1);
    Road(s.(counters := k), pathLen, prefix + NatToString(k.roads))
  }

  lemma FreeRoadFacts(s: State, pathLen: nat)
    requires Inv(s)
    ensures var r := FreeRoad(s, pathLen); var ov := Overlay(s.nextId, Object, Polygon);
      Inv(r) && r.counters == s.counters.(roads := s.counters.roads + 1) &&
      (pathLen < 2 ==> r.lists == s.lists && r.sel == s.sel && r.nextId == s.nextId) &&
      (pathLen >= 2 ==>
        r.lists == s.lists.(objects := s.lists.objects + [Entry(ov, "Road " + NatToString(s.counters.roads + 1))]) &&
        r.sel.selected == [ov] && r.sel.focusIndex == 0 && r.nextId == s.nextId + 1)
  {
    var k := s.counters.(roads := s.counters.roads + 1);
    RoadEffect(s.(counters := k), pathLen, "Road " + NatToString(k.roads));
    RoadKeepsInv(s.(counters := k), pathLen, "Road " + NatToString(k.roads));
  }

  /** The name of road i of the road-H (or road-V) button: `Road H${i}`. */
  function LineName(horizontal: bool, i: nat): (name: string)
    ensures name != ""
  {
    (if horizontal then "Road H" else "Road V") + NatToString(i)
  }

  /** Roads 1 .. count of the road-H (or road-V) button, one after the
      other. */
  function AddRoads(s: State, horizontal: bool, count: nat): State
  {
    if count == 0 then s
    else Road(AddRoads(s, horizontal, count - 1), 2, LineName(horizontal, count))
  }

  /** The entries the first `count` roads add, with consecutive ids. */
  function RoadEntries(id: nat, horizontal: bool, count: nat): (r: seq<Entry>)
    ensures |r| == count
    ensures forall k :: 0 <= k < count ==>
      r[k] == Entry(Overlay(id + k, Object, Polygon), LineName(horizontal, k + 1))
  {
    if count == 0 then []
    else RoadEntries(id, horizontal, count - 1) + [Entry(Overlay(id + count - 1, Object, Polygon), LineName(horizontal, count))]
  }

  /** n roads add n object entries named `Road H1` .. `Road Hn` (or `V`)
      with consecutive new ids, the last of them ends up the only selected
      overlay, and no counter moves. */
  lemma {:induction false} AddRoadsEffect(s: State, horizontal: bool, count: nat)
    ensures var r := AddRoads(s, horizontal, count);
      r.lists == s.lists.(objects := s.lists.objects + RoadEntries(s.nextId, horizontal, count)) &&
      r.counters == s.counters && r.nextId == s.nextId + count &&
      (count == 0 ==> r == s) &&
      (count > 0 ==> r.sel.selected == [Overlay(s.nextId + count - 1, Object, Polygon)] && r.sel.focusIndex == 0)
  {
    if count == 0 {
      assert s.lists.objects + RoadEntries(s.nextId, horizontal, 0) == s.lists.objects;
    } else {
      var t := AddRoads(s, horizontal, count - 1);
      AddRoadsEffect(s, horizontal, count - 1);
      RoadEffect(t, 2, LineName(horizontal, count));
      var e := Entry(Overlay(s.nextId + count - 1, Object, Polygon), LineName(horizontal, count));
      var before := RoadEntries(s.nextId, horizontal, count - 1);
      assert t.nextId == s.nextId + count - 1;
      assert s.lists.objects + (before + [e]) == (s.lists.objects + before) + [e];
    }
  }

  lemma {:induction false} AddRoadsKeepsInv(s: State, horizontal: bool, count: nat)
    requires Inv(s)
    ensures Inv(AddRoads(s, horizontal, count))
  {
    if count > 0 {
      AddRoadsKeepsInv(s, horizontal, count - 1);
      RoadKeepsInv(AddRoads(s, horizontal, count - 1), 2, LineName(horizontal, count));
    }
  }

  /** getAreasUnionBounds gives null: no area is selected and none drawn. */
  predicate NoArea(s: State)
  {
    FirstArea(s.sel.selected) == -1 && s.lists.areas == []
  }

  /** The road-H and road-V buttons: `n <= 0` does nothing, no area gives
      an alert and nothing else, otherwise n roads are created. */
  function Roads(s: State, horizontal: bool, n: int): (Option<string>, State)
  {
    if n <= 0 then (None, s)
    else if NoArea(s) then (Some(NoAreaAlert), s)
    else (None, AddRoads(s, horizontal, n))
  }

  lemma RoadsFacts(s: State, horizontal: bool, n: int)
    requires Inv(s)
    ensures var (alert, r) := Roads(s, horizontal, n);
      Inv(r) &&
      (alert.Some? <==> n > 0 && NoArea(s)) &&
      (n <= 0 || NoArea(s) ==> r == s) &&
      (n > 0 && !NoArea(s) ==>
        r.lists == s.lists.(objects := s.lists.objects + RoadEntries(s.nextId, horizontal, n)) &&
        r.counters == s.counters && r.nextId == s.nextId + n &&
        r.sel.selected == [Overlay(s.nextId + n - 1, Object, Polygon)] && r.sel.focusIndex == 0)
  {
    if n > 0 && !NoArea(s) {
      AddRoadsEffect(s, horizontal, n);
      AddRoadsKeepsInv(s, horizontal, n);
    }
  }

  /** The perimeter-road button, given the geometry of each overlay: the
      road follows the first selected area, or else the last area drawn,
      moved inward by half the road width plus the setback. The result is
      the alert and the new state. */
  function PerimeterRoad(sp: Geometry.Sphere, shapeOf: Overlay -> Geometry.Shape, s: State,
                         width: real, setback: real): (Option<string>, State)
  {
    var pick := PerimeterArea(s.sel.selected, s.lists.areas);
    if pick.None? then (Some(NoAreaAlert), s)
    else
      var boundary := Geometry.Perimeter(sp, shapeOf(pick.value));
      if |boundary| < 2 then (Some(NoBoundaryAlert), s)
      else
        var inner := Geometry.Inward(sp, boundary, width / 2.0 + setback);
        (None, CountedRoad(s, |inner|, "Perimeter Road "))
  }

  /** The perimeter road, computed one step at a time. */
  lemma PerimeterRoadSteps(sp: Geometry.Sphere, shapeOf: Overlay -> Geometry.Shape, s: State,
                           width: real, setback: real, pick: Overlay,
                           boundary: seq<Geometry.LatLng>, inner: seq<Geometry.LatLng>)
    requires PerimeterArea(s.sel.selected, s.lists.areas) == Some(pick)
    requires boundary == Geometry.Perimeter(sp, shapeOf(pick)) && |boundary| >= 2
    requires inner == Geometry.Inward(sp, boundary, width / 2.0 + setback)
    ensures PerimeterRoad(sp, shapeOf, s, width, setback) == (None, CountedRoad(s, |inner|, "Perimeter Road "))
  {
  }

  /** Without an area, or with a boundary of fewer than two points, the
      user is alerted and nothing changes; otherwise the road counter
      advances and, unless the inward ring is too short for a corridor, the
      road is the new last object `Perimeter Road N`, alone in the
      selection. */
  lemma PerimeterRoadFacts(sp: Geometry.Sphere, shapeOf: Overlay -> Geometry.Shape, s: State,
                           width: real, setback: real)
    requires Inv(s)
    ensures var (alert, r) := PerimeterRoad(sp, shapeOf, s, width, setback);
      var ov := Overlay(s.nextId, Object, Polygon);
      var bumped := s.counters.(roads := s.counters.roads + 1);
      Inv(r) &&
      (alert == Some(NoAreaAlert) <==> NoArea(s)) &&
      (alert.Some? ==> r == s) &&
      (alert.None? && r.nextId == s.nextId ==> r == s.(counters := bumped)) &&
      (alert.None? && r.nextId != s.nextId ==>
        r.counters == bumped &&
        r.lists == s.lists.(objects := s.lists.objects + [Entry(ov, "Perimeter Road " + NatToString(bumped.roads))]) &&
        r.sel.selected == [ov] && r.sel.focusIndex == 0 && r.nextId == s.nextId + 1)
  {
    var pick := PerimeterArea(s.sel.selected, s.lists.areas);
    var res := PerimeterRoad(sp, shapeOf, s, width, setback);
    if pick.None? {
      assert res == (Some(NoAreaAlert), s);
    } else {
      var boundary := Geometry.Perimeter(sp, shapeOf(pick.value));
      if |boundary| < 2 {
        assert NoBoundaryAlert[0] != NoAreaAlert[0];
        assert res == (Some(NoBoundaryAlert), s);
      } else {
        var inner := Geometry.Inward(sp, boundary, width / 2.0 + setback);
        var k := s.counters.(roads := s.counters.roads + 1);
        var name := "Perimeter Road " + NatToString(k.roads);
        assert res == (None, Road(s.(counters := k), |inner|, name));
        RoadEffect(s.(counters := k), |inner|, name);
        RoadKeepsInv(s.(counters := k), |inner|, name);
      }
    }
  }

  // ---------- grid apply ----------

  /** `buffer.forEach(item => ...)` for one cell: each buffered overlay is
      rebuilt and registered under the next name of its category. */
  function RegisterAll(s: State, items: seq<Overlay>): State
    decreases |items|
  {
    if items == [] then s
    else
      var last := items[|items| - 1];
      Register(RegisterAll(s, items[..|items| - 1]), last.cat, last.kind)
  }

  /** One more item registered. */
  lemma RegisterAllSnoc(s: State, items: seq<Overlay>, j: nat)
    requires j < |items|
    ensures RegisterAll(s, items[..j + 1]) == Register(RegisterAll(s, items[..j]), items[j].cat, items[j].kind)
  {
    assert items[..j + 1][..j] == items[..j];
  }

  /** The cells of a grid, one after the other. */
  function GridState(s: State, buffer: seq<Overlay>, cells: seq<(nat, nat)>): State
    decreases |cells|
  {
    if cells == [] then s
    else RegisterAll(GridState(s, buffer, cells[..|cells| - 1]), buffer)
  }

  /** One more cell. */
  lemma GridStateSnoc(s: State, buffer: seq<Overlay>, cells: seq<(nat, nat)>, cell: (nat, nat))
    ensures GridState(s, buffer, cells + [cell]) == RegisterAll(GridState(s, buffer, cells), buffer)
  {
    assert (cells + [cell])[..|cells|] == cells;
  }

  /** The grid-apply button: nothing without a selection; otherwise the
      selection is buffered and copied into every cell but the origin. */
  function Grid(s: State, rows: int, cols: int): State
  {
    if s.sel.selected == [] then s else GridState(s, s.sel.selected, Geometry.GridCells(rows, cols))
  }

  /** The list of category c in r is that of s followed by the new
      overlays of that category, in creation order, named with the
      category counter's next values, and the counter has advanced by that
      many. */
  predicate ReceivedCat(r: State, s: State, made: seq<Overlay>, c: Category)
  {
    Get(r.lists, c) == Get(s.lists, c) + Named(OfCat(made, c), c, Count(s.counters, c)) &&
    Count(r.counters, c) == Count(s.counters, c) + |OfCat(made, c)|
  }

  /** Every category received its share of `made`; the road counter did
      not move. */
  predicate Received(r: State, s: State, made: seq<Overlay>)
  {
    r.counters.roads == s.counters.roads &&
    ReceivedCat(r, s, made, Area) && ReceivedCat(r, s, made, Constraint) && ReceivedCat(r, s, made, Object)
  }

  /** Received composes: what s gave t followed by what t gave r is what
      s gave r. */
  lemma ReceivedThen(r: State, t: State, s: State, a: seq<Overlay>, b: seq<Overlay>)
    requires Received(t, s, a) && Received(r, t, b)
    ensures Received(r, s, a + b)
  {
    ReceivedCatThen(r, t, s, a, b, Area);
    ReceivedCatThen(r, t, s, a, b, Constraint);
    ReceivedCatThen(r, t, s, a, b, Object);
  }

  lemma ReceivedCatThen(r: State, t: State, s: State, a: seq<Overlay>, b: seq<Overlay>, c: Category)
    requires ReceivedCat(t, s, a, c) && ReceivedCat(r, t, b, c)
    ensures ReceivedCat(r, s, a + b, c)
  {
    OfCatConcat(a, b, c);
    NamedThen(Get(s.lists, c), Get(t.lists, c), Get(r.lists, c), OfCat(a, c), OfCat(b, c), c,
              Count(s.counters, c));
  }

  lemma NamedThen(l0: seq<Entry>, l1: seq<Entry>, l2: seq<Entry>, x: seq<Overlay>, y: seq<Overlay>,
                  c: Category, n0: nat)
    requires l1 == l0 + Named(x, c, n0) && l2 == l1 + Named(y, c, n0 + |x|)
    ensures l2 == l0 + Named(x + y, c, n0)
  {
    NamedConcat(x, y, c, n0);
    AppendThen(l0, l1, l2, Named(x, c, n0), Named(y, c, n0 + |x|));
  }

  lemma AppendThen<T>(l0: seq<T>, l1: seq<T>, l2: seq<T>, p: seq<T>, q: seq<T>)
    requires l1 == l0 + p && l2 == l1 + q
    ensures l2 == l0 + (p + q)
  {
    assert l0 + p + q == l0 + (p + q);
  }

  /** One registration: the new overlay is named after its category's
      counter and appended to that category's list. */
  lemma ReceivedOne(r: State, t: State, ov: Overlay)
    requires r.counters == Bump(t.counters, ov.cat)
    requires Get(r.lists, ov.cat) == Get(t.lists, ov.cat) + [Entry(ov, Label(ov.cat, Count(t.counters, ov.cat) + 1))]
    requires forall c :: c != ov.cat ==> Get(r.lists, c) == Get(t.lists, c)
    ensures Received(r, t, [ov])
  {
    var cats := [Area, Constraint, Object];
    forall i | 0 <= i < 3
      ensures ReceivedCat(r, t, [ov], cats[i])
    {
      if cats[i] == ov.cat {
        ReceivedOneSame(r, t, ov);
      } else {
        ReceivedOneOther(r, t, ov, cats[i]);
      }
    }
    assert ReceivedCat(r, t, [ov], cats[0]);
    assert ReceivedCat(r, t, [ov], cats[1]);
    assert ReceivedCat(r, t, [ov], cats[2]);
  }

  lemma ReceivedOneSame(r: State, t: State, ov: Overlay)
    requires Count(r.counters, ov.cat) == Count(t.counters, ov.cat) + 1
    requires Get(r.lists, ov.cat) == Get(t.lists, ov.cat) + [Entry(ov, Label(ov.cat, Count(t.counters, ov.cat) + 1))]
    ensures ReceivedCat(r, t, [ov], ov.cat)
  {
    OfCatOne(ov, ov.cat);
    NamedOne(ov, ov.cat, Count(t.counters, ov.cat));
  }

  lemma ReceivedOneOther(r: State, t: State, ov: Overlay, c: Category)
    requires c != ov.cat
    requires Count(r.counters, c) == Count(t.counters, c)
    requires Get(r.lists, c) == Get(t.lists, c)
    ensures ReceivedCat(r, t, [ov], c)
  {
    OfCatOne(ov, c);
    assert Named([], c, Count(t.counters, c)) == [];
    assert Get(t.lists, c) + [] == Get(t.lists, c);
  }

  /** Registering a list of overlays creates one overlay per item, with
      consecutive ids and the category and kind of the item. */
  lemma {:induction false} RegisterAllFacts(s: State, items: seq<Overlay>)
    requires Inv(s)
    ensures var r := RegisterAll(s, items);
      Inv(r) && Received(r, s, Batch(items, s.nextId)) && r.sel == s.sel &&
      r.nextId == s.nextId + |items|
    decreases |items|
  {
    if items == [] {
      assert Batch(items, s.nextId) == [];
      ReceivedNone(s);
    } else {
      var n := |items| - 1;
      var init, last := items[..n], items[n];
      RegisterAllFacts(s, init);
      var t := RegisterAll(s, init);
      RegisterFacts(t, last.cat, last.kind);
      var ov := Overlay(t.nextId, last.cat, last.kind);
      ReceivedOne(RegisterAll(s, items), t, ov);
      ReceivedSnoc(RegisterAll(s, items), t, s, items);
    }
  }

  lemma ReceivedSnoc(r: State, t: State, s: State, items: seq<Overlay>)
    requires items != []
    requires var n := |items| - 1;
      Received(t, s, Batch(items[..n], s.nextId)) && t.nextId == s.nextId + n &&
      Received(r, t, [Overlay(t.nextId, items[n].cat, items[n].kind)])
    ensures Received(r, s, Batch(items, s.nextId))
  {
    var n := |items| - 1;
    var a, b := Batch(items[..n], s.nextId), [Overlay(t.nextId, items[n].cat, items[n].kind)];
    BatchSnoc(items, s.nextId);
    assert Batch(items, s.nextId) == a + b;
    ReceivedThen(r, t, s, a, b);
  }

  lemma ReceivedCell(r: State, t: State, s: State, buffer: seq<Overlay>, cells: seq<(nat, nat)>)
    requires cells != []
    requires var before := Made(cells[..|cells| - 1], buffer, s.nextId);
      Received(t, s, before) && t.nextId == s.nextId + |before| &&
      Received(r, t, Batch(buffer, t.nextId))
    ensures Received(r, s, Made(cells, buffer, s.nextId))
  {
    ReceivedThen(r, t, s, Made(cells[..|cells| - 1], buffer, s.nextId), Batch(buffer, t.nextId));
  }

  lemma ReceivedNone(s: State)
    ensures Received(s, s, [])
  {
    assert Get(s.lists, Area) + [] == Get(s.lists, Area);
    assert Get(s.lists, Constraint) + [] == Get(s.lists, Constraint);
    assert Get(s.lists, Object) + [] == Get(s.lists, Object);
  }

  /** A grid over `cells` creates the shapes `Made` lists: a batch per
      cell, in cell order, with consecutive ids. */
  lemma {:induction false} GridStateFacts(s: State, buffer: seq<Overlay>, cells: seq<(nat, nat)>)
    requires Inv(s)
    ensures var r := GridState(s, buffer, cells);
      Inv(r) && Received(r, s, Made(cells, buffer, s.nextId)) && r.sel == s.sel &&
      r.nextId == s.nextId + |Made(cells, buffer, s.nextId)|
    decreases |cells|
  {
    if cells == [] {
      ReceivedNone(s);
    } else {
      var init := cells[..|cells| - 1];
      GridStateFacts(s, buffer, init);
      var t := GridState(s, buffer, init);
      RegisterAllFacts(t, buffer);
      ReceivedCell(GridState(s, buffer, cells), t, s, buffer, cells);
    }
  }

  /** Grid apply with a selection of b overlays and rows x cols cells adds
      (rows * cols - 1) * b shapes, each to the list of its category under
      the next counter value, and leaves the selection alone. */
  lemma GridFacts(s: State, rows: int, cols: int)
    requires Inv(s)
    ensures var r := Grid(s, rows, cols);
      Inv(r) && r.sel == s.sel &&
      (s.sel.selected == [] || rows <= 0 || cols <= 0 ==> r == s) &&
      (rows > 0 && cols > 0 ==>
        r.nextId == s.nextId + (rows * cols - 1) * |s.sel.selected| &&
        Received(r, s, Made(Geometry.GridCells(rows, cols), s.sel.selected, s.nextId)))
  {
    if s.sel.selected != [] {
      var cells := Geometry.GridCells(rows, cols);
      GridStateFacts(s, s.sel.selected, cells);
      GridCount(rows, cols, s.sel.selected, s.nextId);
      var made := |Made(cells, s.sel.selected, s.nextId)|;
      assert Grid(s, rows, cols).nextId == s.nextId + made;
      Geometry.GridCellsSpec(rows, cols);
    } else {
      GridCount(rows, cols, s.sel.selected, s.nextId);
      ReceivedNone(s);
    }
  }

  // ---------- duplicate ----------

  /** The loop of duplicateSelectionAt over the buffered `items`: each is
      rebuilt, registered under the next name of its category and turned on
      in the selection. */
  function DuplicateSteps(s: State, items: seq<Overlay>): State
    decreases |items|
  {
    if items == [] then s
    else
      var t := DuplicateSteps(s, items[..|items| - 1]);
      var last := items[|items| - 1];
      Toggle(Register(t, last.cat, last.kind), Overlay(t.nextId, last.cat, last.kind), true)
  }

  /** One more item: its copy is registered and turned on. */
  lemma DuplicateStepsSnoc(s: State, items: seq<Overlay>, j: nat)
    requires j < |items|
    ensures var t := DuplicateSteps(s, items[..j]);
      DuplicateSteps(s, items[..j + 1]) ==
      Toggle(Register(t, items[j].cat, items[j].kind), Overlay(t.nextId, items[j].cat, items[j].kind), true)
  {
    assert items[..j + 1][..j] == items[..j];
  }

  /** Ctrl/Cmd + D (duplicateSelectionAt): nothing without a selection;
      otherwise the selection is buffered, cleared, and a copy of every
      buffered overlay is registered and selected. */
  function DuplicateSelected(s: State): State
  {
    if s.sel.selected == [] then s else DuplicateSteps(Clear(s), s.sel.selected)
  }

  /** From an empty selection, the copies of `items` are registered in
      order with consecutive ids and end up exactly the selection, focused
      at the first. */
  lemma {:induction false} DuplicateStepsFacts(c: State, items: seq<Overlay>)
    requires Inv(c) && c.sel.selected == [] && c.sel.focusIndex == -1
    ensures var r := DuplicateSteps(c, items); var b := Batch(items, c.nextId);
      Inv(r) && Received(r, c, b) && r.nextId == c.nextId + |items| &&
      r.sel == Sel(b, if items == [] then -1 else 0, c.sel.flagged + Members(b))
    decreases |items|
  {
    if items == [] {
      assert Batch(items, c.nextId) == [];
      assert c.sel.flagged + Members([]) == c.sel.flagged;
      ReceivedNone(c);
    } else {
      var n := |items| - 1;
      var init, last := items[..n], items[n];
      DuplicateStepsFacts(c, init);
      DuplicateStepReceived(c, DuplicateSteps(c, init), items);
      var t := DuplicateSteps(c, init);
      RegisterKeepsSel(t, last.cat, last.kind);
      DuplicateStepSelects(c, Register(t, last.cat, last.kind), items, Overlay(t.nextId, last.cat, last.kind));
    }
  }

  /** One copy more, for the lists: it is registered after the copies
      before it. */
  lemma DuplicateStepReceived(c: State, t: State, items: seq<Overlay>)
    requires items != []
    requires var n := |items| - 1; var b := Batch(items[..n], c.nextId);
      Inv(t) && Received(t, c, b) && t.nextId == c.nextId + n
    ensures var last := items[|items| - 1];
      var r := Toggle(Register(t, last.cat, last.kind), Overlay(t.nextId, last.cat, last.kind), true);
      Received(r, c, Batch(items, c.nextId)) && r.nextId == c.nextId + |items|
  {
    var last := items[|items| - 1];
    var u := Register(t, last.cat, last.kind);
    DuplicateRegisters(c, t, items);
    ReceivedSameLists(Toggle(u, Overlay(t.nextId, last.cat, last.kind), true), u, c, Batch(items, c.nextId));
  }

  /** One copy more, for the selection: once registered (u), the copy ov
      is turned on after the copies before it, and the focus stays on the
      first. */
  lemma DuplicateStepSelects(c: State, u: State, items: seq<Overlay>, ov: Overlay)
    requires items != []
    requires var n := |items| - 1; var b := Batch(items[..n], c.nextId);
      Inv(u) && u.nextId == c.nextId + n + 1 && ov == Overlay(c.nextId + n, items[n].cat, items[n].kind) &&
      u.sel == Sel(b, if n == 0 then -1 else 0, c.sel.flagged + Members(b))
    ensures var r := Toggle(u, ov, true); var b := Batch(items, c.nextId);
      Inv(r) && r.sel == Sel(b, 0, c.sel.flagged + Members(b))
  {
    var b0 := Batch(items[..|items| - 1], c.nextId);
    BatchNext(items, c.nextId);
    UnionSnoc(c.sel.flagged, Members(b0), ov);
    DuplicateTurnsOn(u, b0, ov, c.sel.flagged + Members(b0));
    assert Batch(items, c.nextId) == b0 + [ov];
  }

  /** Registering keeps the invariant and leaves the selection alone. */
  lemma RegisterKeepsSel(s: State, cat: Category, kind: Kind)
    requires Inv(s)
    ensures var r := Register(s, cat, kind); Inv(r) && r.sel == s.sel && r.nextId == s.nextId + 1
  {
    RegisterFacts(s, cat, kind);
  }

  lemma UnionSnoc<T>(a: set<T>, b: set<T>, x: T)
    ensures (a + b) + {x} == a + (b + {x})
  {
  }

  /** Received speaks only of the lists and the counters. */
  lemma ReceivedSameLists(r: State, u: State, s: State, made: seq<Overlay>)
    requires Received(u, s, made) && r.lists == u.lists && r.counters == u.counters
    ensures Received(r, s, made)
  {
  }

  /** The copy is registered: the lists receive it after the copies before
      it. */
  lemma DuplicateRegisters(c: State, t: State, items: seq<Overlay>)
    requires items != []
    requires var n := |items| - 1;
      Inv(t) && Received(t, c, Batch(items[..n], c.nextId)) && t.nextId == c.nextId + n
    ensures var last := items[|items| - 1]; var u := Register(t, last.cat, last.kind);
      Inv(u) && Received(u, c, Batch(items, c.nextId)) && u.sel == t.sel && u.nextId == t.nextId + 1
  {
    var last := items[|items| - 1];
    var u := Register(t, last.cat, last.kind);
    RegisterFacts(t, last.cat, last.kind);
    ReceivedOne(u, t, Overlay(t.nextId, last.cat, last.kind));
    ReceivedSnoc(u, t, c, items);
  }

  /** The copy, newer than every selected overlay, is turned on: it is
      appended and flagged, and the focus is on the first copy. */
  lemma DuplicateTurnsOn(u: State, b0: seq<Overlay>, ov: Overlay, flags: set<Overlay>)
    requires Inv(u) && u.sel == Sel(b0, if b0 == [] then -1 else 0, flags)
    requires ov.id + 1 == u.nextId && forall o :: o in b0 ==> o.id < ov.id
    ensures var r := Toggle(u, ov, true);
      Inv(r) && r.lists == u.lists && r.counters == u.counters && r.nextId == u.nextId &&
      r.sel == Sel(b0 + [ov], 0, flags + {ov})
  {
    assert ov !in b0;
    ToggleOnFresh(u.sel, ov);
    ToggleFacts(u.sel, u.nextId, ov, true);
    SelStep(u, ToggleSel(u.sel, ov, true));
  }

  /** Ctrl/Cmd + D with b selected overlays adds b shapes, each to the list
      of its category under the next counter value, and selects exactly
      those copies, in order, focused at the first; the originals lose
      their flags. Without a selection nothing changes. */
  lemma DuplicateFacts(s: State)
    requires Inv(s)
    ensures var r := DuplicateSelected(s); var b := Batch(s.sel.selected, s.nextId);
      Inv(r) &&
      (s.sel.selected == [] ==> r == s) &&
      (s.sel.selected != [] ==>
        Received(r, s, b) && r.nextId == s.nextId + |s.sel.selected| &&
        r.sel == Sel(b, 0, (s.sel.flagged - Members(s.sel.selected)) + Members(b)))
  {
    if s.sel.selected != [] {
      ClearFacts(s.sel, s.nextId);
      SelStep(s, ClearSel(s.sel));
      DuplicateStepsFacts(Clear(s), s.sel.selected);
    }
  }

  // ---------- the keydown handler ----------

  function Perform(s: State, a: Action): State
  {
    match a
    case SelectAll => SelectEverything(s)
    case Duplicate => DuplicateSelected(s)
    case Delete => DeleteSelected(s)
    case CycleNext => Cycle(s, true)
    case CyclePrev => Cycle(s, false)
    case DeselectFocused => Deselect(s)
  }

  /** The actions of a key, one after the other. */
  function PerformAll(s: State, acts: seq<Action>): State
    decreases |acts|
  {
    if acts == [] then s else Perform(PerformAll(s, acts[..|acts| - 1]), acts[|acts| - 1])
  }

  /** Every action of the keydown handler keeps the invariant. */
  lemma PerformFacts(s: State, a: Action)
    requires Inv(s)
    ensures Inv(Perform(s, a))
  {
    match a
    case SelectAll => SelectEverythingFacts(s);
    case Duplicate => DuplicateFacts(s);
    case Delete => DeleteFacts(s);
    case CycleNext => CycleFacts(s.sel, s.nextId, true); SelStep(s, CycleSel(s.sel, true));
    case CyclePrev => CycleFacts(s.sel, s.nextId, false); SelStep(s, CycleSel(s.sel, false));
    case DeselectFocused => DeselectFacts(s.sel, s.nextId); SelStep(s, DeselectSel(s.sel));
  }

  lemma {:induction false} PerformAllFacts(s: State, acts: seq<Action>)
    requires Inv(s)
    ensures Inv(PerformAll(s, acts))
    decreases |acts|
  {
    if acts != [] {
      PerformAllFacts(s, acts[..|acts| - 1]);
      PerformFacts(PerformAll(s, acts[..|acts| - 1]), acts[|acts| - 1]);
    }
  }

  /** The keydown handler as intended, and as written. */
  function KeyDown(s: State, key: string, ctrlMeta: bool, typing: bool): State
  {
    PerformAll(s, KeyActions(key, ctrlMeta, typing))
  }

  function KeyDownAsWritten(s: State, key: string, ctrlMeta: bool, typing: bool): State
  {
    PerformAll(s, KeyActionsAsWritten(key, ctrlMeta, typing))
  }

  /** Every key keeps the invariant; Escape and keys typed into an input
      change nothing here. */
  lemma KeyDownFacts(s: State, key: string, ctrlMeta: bool, typing: bool)
    requires Inv(s)
    ensures Inv(KeyDown(s, key, ctrlMeta, typing))
    ensures typing || key == "Escape" ==> KeyDown(s, key, ctrlMeta, typing) == s
    ensures KeyActions(key, ctrlMeta, typing) == [] ==> KeyDown(s, key, ctrlMeta, typing) == s
    ensures |KeyActions(key, ctrlMeta, typing)| == 1 ==>
      KeyDown(s, key, ctrlMeta, typing) == Perform(s, KeyActions(key, ctrlMeta, typing)[0])
  {
    var acts := KeyActions(key, ctrlMeta, typing);
    PerformAllFacts(s, acts);
    if |acts| == 1 {
      assert acts[..0] == [];
      assert PerformAll(s, acts[..0]) == s;
      assert PerformAll(s, acts) == Perform(PerformAll(s, acts[..0]), acts[0]);
    }
  }

  /** The keydown handler as a chain of tests: the first test a key
      passes decides the one handler it runs. */
  lemma KeyDownDispatch(s: State, key: string, ctrlMeta: bool, typing: bool)
    ensures KeyDown(s, key, ctrlMeta, typing) ==
      if key == "Escape" || typing then s
      else if ctrlMeta && (key == "a" || key == "A") then SelectEverything(s)
      else if ctrlMeta && (key == "d" || key == "D") then DuplicateSelected(s)
      else if key == "Delete" || (key == "Backspace" && !ctrlMeta) then DeleteSelected(s)
      else if key == "]" then Cycle(s, true)
      else if key == "[" then Cycle(s, false)
      else if ctrlMeta && key == "Backspace" then Deselect(s)
      else s
  {
    KeyActionsDispatch(key, ctrlMeta, typing);
    var acts := KeyActions(key, ctrlMeta, typing);
    if acts != [] {
      KeyDownPerforms(s, key, ctrlMeta, typing, acts[0]);
    }
  }

  /** A key that runs a single action changes the state as that action
      does. */
  lemma KeyDownPerforms(s: State, key: string, ctrlMeta: bool, typing: bool, a: Action)
    requires KeyActions(key, ctrlMeta, typing) == [a]
    ensures KeyDown(s, key, ctrlMeta, typing) == Perform(s, a)
  {
    var acts := KeyActions(key, ctrlMeta, typing);
    assert acts[..0] == [];
    assert PerformAll(s, acts) == Perform(PerformAll(s, []), a);
  }

  /** As written, Ctrl/Cmd + Backspace deletes every selected overlay from
      its list (the deselect that follows finds nothing selected); as
      intended it only drops the focused overlay from the selection and
      deletes nothing. */
  lemma CtrlBackspaceOnState(s: State)
    requires Inv(s) && s.sel.selected != []
    ensures var w := KeyDownAsWritten(s, "Backspace", true, false);
      w == DeleteSelected(s) && w.sel.selected == [] &&
      forall o :: o in s.sel.selected ==> !Listed(w.lists, o)
    ensures var r := KeyDown(s, "Backspace", true, false);
      r == Deselect(s) && r.lists == s.lists
  {
    CtrlBackspaceDeletes();
    DeleteFacts(s);
    var acts := KeyActionsAsWritten("Backspace", true, false);
    assert acts[..1] == [Delete] && acts[..1][..0] == [];
    var d := DeleteSelected(s);
    assert PerformAll(s, acts[..1]) == d;
    assert d.sel.focusIndex == -1;
    var ok := KeyActions("Backspace", true, false);
    assert ok == [DeselectFocused] && ok[..0] == [];
  }
}
