/** The entities of drawing.js and the rules on its category lists:
    overlays (values with an identity `id`, a category and a shape kind),
    list entries with their names, the name counters' labels, the filtering
    and splicing done by handleDelete, the bookkeeping of grid apply and the
    dispatch of the keydown handler. */
module Layout {
  import opened Text
  import opened Selection
  import Geometry

  datatype Category = Area | Constraint | Object

  datatype Kind = Polygon | Rectangle | Round

  datatype Overlay = Overlay(id: nat, cat: Category, kind: Kind)

  /** An entry of a category list: the overlay and the name shown for it. */
  datatype Entry = Entry(overlay: Overlay, name: string)

  // ---------- names ----------

  function Prefix(cat: Category): string
  {
    match cat
    case Area => "Area "
    case Constraint => "Constraint "
    case Object => "Object "
  }

  /** The name given to the n-th overlay of a category: `Area ${n}`, ... */
  function Label(cat: Category, n: nat): (s: string)
    ensures |s| > |Prefix(cat)| && s[..|Prefix(cat)|] == Prefix(cat)
  {
    Prefix(cat) + NatToString(n)
  }

  /** Names never repeat: two labels are equal only for the same category
      and the same counter value, and every counter only grows. */
  lemma LabelsDistinct(c1: Category, a: nat, c2: Category, b: nat)
    requires Label(c1, a) == Label(c2, b)
    ensures c1 == c2 && a == b
  {
    assert Label(c1, a)[0] == Prefix(c1)[0];
    assert Label(c2, b)[0] == Prefix(c2)[0];
    assert c1 == c2;
    var p := Prefix(c1);
    assert NatToString(a) == Label(c1, a)[|p|..];
    assert NatToString(b) == Label(c2, b)[|p|..];
    NatToStringInjective(a, b);
  }

  // ---------- category lists ----------

  /** The overlays of a list, in order. */
  function Overlays(list: seq<Entry>): (ovs: seq<Overlay>)
    ensures |ovs| == |list|
    ensures forall k :: 0 <= k < |list| ==> ovs[k] == list[k].overlay
  {
    if list == [] then [] else [list[0].overlay] + Overlays(list[1..])
  }

  lemma OverlaysAppend(a: seq<Entry>, b: seq<Entry>)
    ensures Overlays(a + b) == Overlays(a) + Overlays(b)
  {
    assert Overlays(a + b) == Overlays(a) + Overlays(b);
  }

  /** A well-formed category list: each overlay at most once, all of the
      list's category, all created already. */
  predicate ListOk(list: seq<Entry>, cat: Category, nextId: nat)
  {
    NoDup(Overlays(list)) &&
    forall k :: 0 <= k < |list| ==> list[k].overlay.cat == cat && list[k].overlay.id < nextId
  }

  /** The overlays a list holds, as a set. */
  function Members(s: seq<Overlay>): (m: set<Overlay>)
    ensures forall o :: o in m <==> o in s
  {
    set o | o in s
  }

  lemma MembersAppend(s: seq<Overlay>, x: Overlay)
    ensures Members(s + [x]) == Members(s) + {x}
  {
  }

  /** The list without the entries of the overlays in `gone`, order kept. */
  function Without(list: seq<Entry>, gone: set<Overlay>): (r: seq<Entry>)
    ensures |r| <= |list|
    ensures forall e :: e in r <==> e in list && e.overlay !in gone
  {
    if list == [] then []
    else (if list[0].overlay in gone then [] else [list[0]]) + Without(list[1..], gone)
  }

  /** `arr.findIndex(x => x.overlay === ov)` followed by `splice(idx, 1)`
      when it was found. */
  function SpliceOut(list: seq<Entry>, ov: Overlay): seq<Entry>
  {
    var idx := IndexOf(Overlays(list), ov);
    if idx >= 0 then RemoveAt(list, idx) else list
  }

  /** Filtering works entry by entry: the list is filtered in two parts
      whose results are joined, so the entries that stay keep their order
      (with WithoutOne, which says what one entry becomes). */
  lemma {:induction false} WithoutConcat(a: seq<Entry>, b: seq<Entry>, gone: set<Overlay>)
    ensures Without(a + b, gone) == Without(a, gone) + Without(b, gone)
  {
    if a != [] {
      assert (a + b)[1..] == a[1..] + b;
      WithoutConcat(a[1..], b, gone);
    } else {
      assert a + b == b;
    }
  }

  /** A single entry stays exactly when its overlay is not in `gone`. */
  lemma WithoutOne(e: Entry, gone: set<Overlay>)
    ensures Without([e], gone) == if e.overlay in gone then [] else [e]
  {
    assert [e][1..] == [];
  }

  lemma {:induction false} WithoutNone(list: seq<Entry>, gone: set<Overlay>)
    requires forall k :: 0 <= k < |list| ==> list[k].overlay !in gone
    ensures Without(list, gone) == list
  {
    if list != [] {
      WithoutNone(list[1..], gone);
    }
  }

  lemma {:induction false} WithoutTwice(list: seq<Entry>, s: set<Overlay>, t: set<Overlay>)
    ensures Without(Without(list, s), t) == Without(list, s + t)
  {
    if list != [] {
      WithoutTwice(list[1..], s, t);
      var head := if list[0].overlay in s then [] else [list[0]];
      WithoutConcat(head, Without(list[1..], s), t);
      if list[0].overlay !in s {
        assert Without(head, t) == (if list[0].overlay in t then [] else [list[0]]);
      }
    }
  }

  /** The overlays of a list whose entries all come from another list all
      come from that list. */
  lemma OverlaysOfSublist(sub: seq<Entry>, list: seq<Entry>)
    requires forall e :: e in sub ==> e in list
    ensures forall o :: o in Overlays(sub) ==> o in Overlays(list)
  {
    forall o | o in Overlays(sub)
      ensures o in Overlays(list)
    {
      var k :| 0 <= k < |sub| && Overlays(sub)[k] == o;
      assert sub[k] in list;
      var m :| 0 <= m < |list| && list[m] == sub[k];
      assert Overlays(list)[m] == o;
    }
  }

  lemma {:induction false} WithoutKeepsNoDup(list: seq<Entry>, gone: set<Overlay>)
    requires NoDup(Overlays(list))
    ensures NoDup(Overlays(Without(list, gone)))
  {
    if list != [] {
      var x, tail := list[0], list[1..];
      assert Overlays(list) == [x.overlay] + Overlays(tail);
      NoDupCons(x.overlay, Overlays(tail));
      WithoutKeepsNoDup(tail, gone);
      var rest := Without(tail, gone);
      if x.overlay !in gone {
        assert Without(list, gone) == [x] + rest;
        OverlaysAppend([x], rest);
        OverlaysOfSublist(rest, tail);
        NoDupCons(x.overlay, Overlays(rest));
      } else {
        assert Without(list, gone) == rest;
      }
    }
  }

  /** Splicing out the first entry of an overlay that occurs at most once is
      the same as filtering that overlay out. */
  lemma {:induction false} SpliceOutIsWithout(list: seq<Entry>, ov: Overlay)
    requires NoDup(Overlays(list))
    ensures SpliceOut(list, ov) == Without(list, {ov})
  {
    if list != [] {
      var x, tail := list[0], list[1..];
      assert Overlays(list) == [x.overlay] + Overlays(tail);
      NoDupCons(x.overlay, Overlays(tail));
      assert list == [x] + tail;
      if x.overlay == ov {
        SpliceOutHead(x, tail);
      } else {
        SpliceOutIsWithout(tail, ov);
        SpliceOutPast(x, tail, ov);
        WithoutPast(x, tail, ov);
      }
    }
  }

  /** The overlay heads a list in which it occurs once. */
  lemma SpliceOutHead(x: Entry, tail: seq<Entry>)
    requires x.overlay !in Overlays(tail)
    ensures SpliceOut([x] + tail, x.overlay) == Without([x] + tail, {x.overlay})
  {
    var list := [x] + tail;
    assert list[1..] == tail;
    assert Overlays(list) == [x.overlay] + Overlays(tail);
    assert IndexOf(Overlays(list), x.overlay) == 0;
    WithoutNone(tail, {x.overlay});
  }

  /** The overlay does not head the list: the head stays. */
  lemma SpliceOutPast(x: Entry, tail: seq<Entry>, ov: Overlay)
    requires x.overlay != ov
    ensures SpliceOut([x] + tail, ov) == [x] + SpliceOut(tail, ov)
  {
    assert Overlays([x] + tail) == [x.overlay] + Overlays(tail) by {
      assert ([x] + tail)[1..] == tail;
    }
    IndexOfCons(x.overlay, Overlays(tail), ov);
    var j := IndexOf(Overlays(tail), ov);
    if j >= 0 {
      RemoveAtCons(x, tail, j);
    }
  }

  lemma WithoutPast(x: Entry, tail: seq<Entry>, ov: Overlay)
    requires x.overlay != ov
    ensures Without([x] + tail, {ov}) == [x] + Without(tail, {ov})
  {
    assert ([x] + tail)[1..] == tail;
  }

  /** One step of handleDelete on the list of category `cat`: an overlay of
      that category is spliced out of it, an overlay of another category
      leaves it alone, and either way the list becomes the original list
      without every overlay handled so far. */
  lemma DeleteStep(list0: seq<Entry>, cat: Category, bound: nat, gone: set<Overlay>, ov: Overlay)
    requires ListOk(list0, cat, bound)
    ensures var list := Without(list0, gone);
      (if ov.cat == cat then SpliceOut(list, ov) else list) == Without(list0, gone + {ov})
  {
    var list := Without(list0, gone);
    WithoutTwice(list0, gone, {ov});
    WithoutKeepsNoDup(list0, gone);
    if ov.cat == cat {
      SpliceOutIsWithout(list, ov);
    } else {
      forall k | 0 <= k < |list|
        ensures list[k].overlay !in {ov}
      {
        assert list[k] in list0;
      }
      WithoutNone(list, {ov});
    }
  }

  /** Filtering entries out keeps a list well-formed. */
  lemma WithoutKeepsListOk(list: seq<Entry>, cat: Category, nextId: nat, gone: set<Overlay>)
    requires ListOk(list, cat, nextId)
    ensures ListOk(Without(list, gone), cat, nextId)
  {
    WithoutKeepsNoDup(list, gone);
    var r := Without(list, gone);
    forall k | 0 <= k < |r|
      ensures r[k].overlay.cat == cat && r[k].overlay.id < nextId
    {
      assert r[k] in list;
    }
  }

  /** An overlay is in the filtered list exactly when it was in the list
      and is not filtered out. */
  lemma {:induction false} OverlaysOfWithout(list: seq<Entry>, gone: set<Overlay>)
    ensures forall o :: o in Overlays(Without(list, gone)) <==> o in Overlays(list) && o !in gone
  {
    if list != [] {
      var x, tail := list[0], list[1..];
      OverlaysOfWithout(tail, gone);
      var rest := Without(tail, gone);
      assert Overlays(list) == [x.overlay] + Overlays(tail);
      if x.overlay !in gone {
        assert Without(list, gone) == [x] + rest;
        OverlaysAppend([x], rest);
      }
    }
  }

  /** Appending an entry for a fresh overlay keeps a list well-formed. */
  lemma AppendFresh(list: seq<Entry>, cat: Category, nextId: nat, e: Entry)
    requires ListOk(list, cat, nextId)
    requires e.overlay.id == nextId && e.overlay.cat == cat
    ensures ListOk(list + [e], cat, nextId + 1)
  {
    OverlaysAppend(list, [e]);
    assert Overlays([e]) == [e.overlay];
  }

  lemma NoDupConcat<T>(a: seq<T>, b: seq<T>)
    requires NoDup(a) && NoDup(b)
    requires forall k :: 0 <= k < |a| ==> a[k] !in b
    ensures NoDup(a + b)
  {
  }

  // ---------- the area used by the road tools ----------

  /** `selected.find(o => o.__cat === 'area')`, as a position: the first
      selected area, or -1 when no area is selected. */
  function FirstArea(sel: seq<Overlay>): (i: int)
    ensures -1 <= i < |sel|
    ensures i == -1 <==> forall k :: 0 <= k < |sel| ==> sel[k].cat != Area
    ensures 0 <= i ==> sel[i].cat == Area && forall k :: 0 <= k < i ==> sel[k].cat != Area
  {
    if sel == [] then -1
    else if sel[0].cat == Area then 0
    else
      var j := FirstArea(sel[1..]);
      if j == -1 then -1 else j + 1
  }

  /** The area the perimeter road follows: the first selected area, or else
      the last area drawn, or none. */
  function PerimeterArea(sel: seq<Overlay>, areas: seq<Entry>): (r: Option<Overlay>)
    ensures r.None? <==> FirstArea(sel) == -1 && areas == []
    ensures FirstArea(sel) >= 0 ==> r == Some(sel[FirstArea(sel)])
    ensures FirstArea(sel) == -1 && areas != [] ==> r == Some(areas[|areas| - 1].overlay)
  {
    var i := FirstArea(sel);
    if i >= 0 then Some(sel[i])
    else if |areas| > 0 then Some(areas[|areas| - 1].overlay)
    else None
  }

  const NoAreaAlert := "Draw or select an Area first."
  const NoBoundaryAlert := "Area boundary not available."

  // ---------- grid apply ----------

  /** The overlays one grid cell creates, one per buffered overlay, with
      consecutive ids from `id` and the category and kind of the original. */
  function Batch(buffer: seq<Overlay>, id: nat): (b: seq<Overlay>)
    ensures |b| == |buffer|
    ensures forall j :: 0 <= j < |buffer| ==>
      b[j].id == id + j && b[j].cat == buffer[j].cat && b[j].kind == buffer[j].kind
  {
    seq(|buffer|, j requires 0 <= j < |buffer| => Overlay(id + j, buffer[j].cat, buffer[j].kind))
  }

  /** The batch of a buffer with one more item ends in that item's copy. */
  lemma BatchSnoc(buffer: seq<Overlay>, id: nat)
    requires buffer != []
    ensures var n := |buffer| - 1;
      Batch(buffer, id) == Batch(buffer[..n], id) + [Overlay(id + n, buffer[n].cat, buffer[n].kind)]
  {
    var n := |buffer| - 1;
    assert Batch(buffer, id)[..n] == Batch(buffer[..n], id);
  }

  /** The batch for one more buffered overlay: the new one comes last,
      with the next id, newer than every overlay before it. */
  lemma BatchNext(buffer: seq<Overlay>, id: nat)
    requires buffer != []
    ensures var n := |buffer| - 1; var b0 := Batch(buffer[..n], id);
      var ov := Overlay(id + n, buffer[n].cat, buffer[n].kind);
      Batch(buffer, id) == b0 + [ov] && Members(Batch(buffer, id)) == Members(b0) + {ov} &&
      forall o :: o in b0 ==> o.id < ov.id
  {
    var n := |buffer| - 1;
    var b0 := Batch(buffer[..n], id);
    var ov := Overlay(id + n, buffer[n].cat, buffer[n].kind);
    BatchSnoc(buffer, id);
    MembersAppend(b0, ov);
  }

  /** Everything a grid creates: the batches of all visited cells, in
      visiting order, with ids counting up from `id`. */
  function Made(cells: seq<(nat, nat)>, buffer: seq<Overlay>, id: nat): seq<Overlay>
  {
    if cells == [] then []
    else
      var before := Made(cells[..|cells| - 1], buffer, id);
      before + Batch(buffer, id + |before|)
  }

  /** A grid of `cells` over a buffer of `b` overlays creates |cells| * b
      shapes, with consecutive fresh ids. */
  lemma {:induction false} MadeShape(cells: seq<(nat, nat)>, buffer: seq<Overlay>, id: nat)
    ensures |Made(cells, buffer, id)| == |cells| * |buffer|
    ensures forall k :: 0 <= k < |Made(cells, buffer, id)| ==> Made(cells, buffer, id)[k].id == id + k
  {
    if cells != [] {
      var last := |cells| - 1;
      MadeShape(cells[..last], buffer, id);
      assert |cells[..last]| * |buffer| + |buffer| == |cells| * |buffer|;
    }
  }

  /** With rows x cols cells and a buffer of b selected overlays, grid apply
      creates (rows * cols - 1) * b shapes (none when rows or cols is not
      positive). */
  lemma GridCount(rows: int, cols: int, buffer: seq<Overlay>, id: nat)
    ensures rows > 0 && cols > 0 ==>
      |Made(Geometry.GridCells(rows, cols), buffer, id)| == (rows * cols - 1) * |buffer|
    ensures rows <= 0 || cols <= 0 ==> Made(Geometry.GridCells(rows, cols), buffer, id) == []
  {
    Geometry.GridCellsSpec(rows, cols);
    MadeShape(Geometry.GridCells(rows, cols), buffer, id);
  }

  /** The overlays of one category, in order. */
  function OfCat(ovs: seq<Overlay>, cat: Category): (r: seq<Overlay>)
    ensures |r| <= |ovs|
    ensures forall k :: 0 <= k < |r| ==> r[k].cat == cat
  {
    if ovs == [] then []
    else
      var last := ovs[|ovs| - 1];
      OfCat(ovs[..|ovs| - 1], cat) + (if last.cat == cat then [last] else [])
  }

  lemma {:induction false} OfCatConcat(a: seq<Overlay>, b: seq<Overlay>, cat: Category)
    ensures OfCat(a + b, cat) == OfCat(a, cat) + OfCat(b, cat)
    decreases |b|
  {
    if b == [] {
      assert a + b == a;
    } else {
      var last := |b| - 1;
      assert (a + b)[..|a + b| - 1] == a + b[..last];
      OfCatConcat(a, b[..last], cat);
    }
  }

  /** The entries the category lists receive for `ovs`: each named with the
      next value of the category counter, starting after `base`. */
  function Named(ovs: seq<Overlay>, cat: Category, base: nat): (r: seq<Entry>)
    ensures |r| == |ovs|
    ensures forall k :: 0 <= k < |ovs| ==> r[k] == Entry(ovs[k], Label(cat, base + k + 1))
  {
    seq(|ovs|, k requires 0 <= k < |ovs| => Entry(ovs[k], Label(cat, base + k + 1)))
  }

  lemma OfCatOne(ov: Overlay, cat: Category)
    ensures OfCat([ov], cat) == if ov.cat == cat then [ov] else []
  {
    assert [ov][..0] == [];
  }

  lemma NamedOne(ov: Overlay, cat: Category, base: nat)
    ensures Named([ov], cat, base) == [Entry(ov, Label(cat, base + 1))]
  {
    assert Named([ov], cat, base)[0] == Entry(ov, Label(cat, base + 1));
  }

  lemma NamedConcat(a: seq<Overlay>, b: seq<Overlay>, cat: Category, base: nat)
    ensures Named(a + b, cat, base) == Named(a, cat, base) + Named(b, cat, base + |a|)
  {
    var whole, parts := Named(a + b, cat, base), Named(a, cat, base) + Named(b, cat, base + |a|);
    forall k | 0 <= k < |whole|
      ensures whole[k] == parts[k]
    {
      if k >= |a| {
        var j := k - |a|;
        assert (a + b)[k] == b[j];
        assert parts[k] == Named(b, cat, base + |a|)[j];
        assert base + k + 1 == (base + |a|) + j + 1;
      }
    }
    assert whole == parts;
  }

  /** The target centre of each shape a grid creates, cell by cell and,
      within a cell, in buffer order. */
  function GridTargets(sp: Geometry.Sphere, gc: Geometry.LatLng, cells: seq<(nat, nat)>,
                       centers: seq<Geometry.LatLng>, sx: real, sy: real): seq<Geometry.LatLng>
  {
    if cells == [] then []
    else
      GridTargets(sp, gc, cells[..|cells| - 1], centers, sx, sy) +
      CellTargets(sp, gc, cells[|cells| - 1], centers, sx, sy)
  }

  /** One more cell. */
  lemma GridTargetsSnoc(sp: Geometry.Sphere, gc: Geometry.LatLng, cells: seq<(nat, nat)>, cell: (nat, nat),
                        centers: seq<Geometry.LatLng>, sx: real, sy: real)
    ensures GridTargets(sp, gc, cells + [cell], centers, sx, sy) ==
      GridTargets(sp, gc, cells, centers, sx, sy) + CellTargets(sp, gc, cell, centers, sx, sy)
  {
    assert (cells + [cell])[..|cells|] == cells;
  }

  /** The grid creates one target per buffer item in every cell. */
  lemma {:induction false} GridTargetsLength(sp: Geometry.Sphere, gc: Geometry.LatLng, cells: seq<(nat, nat)>,
                                             centers: seq<Geometry.LatLng>, sx: real, sy: real)
    ensures |GridTargets(sp, gc, cells, centers, sx, sy)| == |cells| * |centers|
    decreases |cells|
  {
    if cells != [] {
      var n := |cells| - 1;
      GridTargetsLength(sp, gc, cells[..n], centers, sx, sy);
      assert |cells| * |centers| == n * |centers| + |centers|;
    }
  }

  /** Buffer item j of cell i is the shape at position i * |centers| + j,
      and its target is the item's centre carried from the group centre to
      the cell's target. */
  lemma {:induction false} GridTargetAt(sp: Geometry.Sphere, gc: Geometry.LatLng, cells: seq<(nat, nat)>,
                                        centers: seq<Geometry.LatLng>, sx: real, sy: real, i: nat, j: nat)
    requires i < |cells| && j < |centers|
    ensures i * |centers| + j < |GridTargets(sp, gc, cells, centers, sx, sy)|
    ensures GridTargets(sp, gc, cells, centers, sx, sy)[i * |centers| + j] ==
      Geometry.TargetShift(sp, centers[j], gc, Geometry.CellTarget(sp, gc, cells[i], sx, sy))
    decreases |cells|
  {
    var n := |cells| - 1;
    var init := cells[..n];
    var g0 := GridTargets(sp, gc, init, centers, sx, sy);
    var last := CellTargets(sp, gc, cells[n], centers, sx, sy);
    assert GridTargets(sp, gc, cells, centers, sx, sy) == g0 + last;
    GridTargetsLength(sp, gc, init, centers, sx, sy);
    BlockAt(g0, last, n, |centers|, i, j);
    if i < n {
      GridTargetAt(sp, gc, init, centers, sx, sy, i, j);
      assert cells[i] == init[i];
    }
  }

  /** Item j of block i in n blocks of m followed by one more block. */
  lemma BlockAt<T>(g0: seq<T>, last: seq<T>, n: nat, m: nat, i: nat, j: nat)
    requires |g0| == n * m && |last| == m && i <= n && j < m
    ensures i * m + j < |g0 + last|
    ensures i < n ==> i * m + j < |g0| && (g0 + last)[i * m + j] == g0[i * m + j]
    ensures i == n ==> (g0 + last)[i * m + j] == last[j]
  {
    if i < n {
      BlockIndex(i, j, m, n);
    }
  }

  lemma BlockIndex(i: nat, j: nat, m: nat, n: nat)
    requires i < n && j < m
    ensures i * m + j < n * m
  {
    var k: nat := n - (i + 1);
    assert (i + 1) * m == i * m + m;
    assert n * m == (i + 1) * m + k * m;
    assert k * m >= 0;
  }

  function CellTargets(sp: Geometry.Sphere, gc: Geometry.LatLng, cell: (nat, nat),
                       centers: seq<Geometry.LatLng>, sx: real, sy: real): seq<Geometry.LatLng>
  {
    var target := Geometry.CellTarget(sp, gc, cell, sx, sy);
    seq(|centers|, j requires 0 <= j < |centers| => Geometry.TargetShift(sp, centers[j], gc, target))
  }

  // ---------- keyboard ----------

  /** The changes the keydown handler makes to the lists, the counters and
      the selection. Its other keys (tool switches, copy, arming paste,
      nudging with the arrows) change only the UI or the shapes' geometry. */
  datatype Action = SelectAll | Duplicate | Delete | CycleNext | CyclePrev | DeselectFocused

  /** The actions the keydown handler runs for a key, in order, as the
      handler is written: Escape and keys typed into an input do nothing
      here; the tests are independent `if`s, so "Backspace" with Ctrl or
      Meta satisfies both the delete test and the deselect test. */
  function KeyActionsAsWritten(key: string, ctrlMeta: bool, typing: bool): seq<Action>
  {
    if key == "Escape" || typing then []
    else
      (if ctrlMeta && (key == "a" || key == "A") then [SelectAll] else []) +
      (if ctrlMeta && (key == "d" || key == "D") then [Duplicate] else []) +
      (if key == "Delete" || key == "Backspace" then [Delete] else []) +
      (if key == "]" then [CycleNext] else []) +
      (if key == "[" then [CyclePrev] else []) +
      (if ctrlMeta && key == "Backspace" then [DeselectFocused] else [])
  }

  /** Ctrl/Cmd + Backspace, documented as "deselect focused item", first
      deletes every selected overlay; the deselect that follows then finds
      an empty selection. */
  lemma CtrlBackspaceDeletes()
    ensures KeyActionsAsWritten("Backspace", true, false) == [Delete, DeselectFocused]
  {
  }

  /** The intended dispatch: Backspace deletes only without Ctrl/Cmd. */
  function KeyActions(key: string, ctrlMeta: bool, typing: bool): (acts: seq<Action>)
    ensures |acts| <= 1
    ensures !typing && key == "Backspace" ==> acts == (if ctrlMeta then [DeselectFocused] else [Delete])
    ensures !(ctrlMeta && key == "Backspace") ==> acts == KeyActionsAsWritten(key, ctrlMeta, typing)
  {
    if key == "Escape" || typing then []
    else
      (if ctrlMeta && (key == "a" || key == "A") then [SelectAll] else []) +
      (if ctrlMeta && (key == "d" || key == "D") then [Duplicate] else []) +
      (if key == "Delete" || (key == "Backspace" && !ctrlMeta) then [Delete] else []) +
      (if key == "]" then [CycleNext] else []) +
      (if key == "[" then [CyclePrev] else []) +
      (if ctrlMeta && key == "Backspace" then [DeselectFocused] else [])
  }

  /** The intended dispatch is a chain: Escape and keys typed into an
      input run nothing; any other key runs the action of the first test it
      passes, and nothing when it passes none. */
  lemma KeyActionsDispatch(key: string, ctrlMeta: bool, typing: bool)
    ensures var acts := KeyActions(key, ctrlMeta, typing);
      if key == "Escape" || typing then acts == []
      else if ctrlMeta && (key == "a" || key == "A") then acts == [SelectAll]
      else if ctrlMeta && (key == "d" || key == "D") then acts == [Duplicate]
      else if key == "Delete" || (key == "Backspace" && !ctrlMeta) then acts == [Delete]
      else if key == "]" then acts == [CycleNext]
      else if key == "[" then acts == [CyclePrev]
      else if ctrlMeta && key == "Backspace" then acts == [DeselectFocused]
      else acts == []
  {
  }

}
