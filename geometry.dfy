/** The vertex bookkeeping of drawing.js's road and perimeter helpers. The
    spherical geometry of the Maps library (`computeOffset`,
    `computeHeading`, `computeDistanceBetween`) and the two floating-point
    helpers `averageHeading` and `signedAreaApprox` are not modelled: they
    arrive as the fields of a `Sphere` value and are never looked into, so
    what is proved here holds whatever they compute. What is modelled is
    which points feed which call, in which order, and how many points come
    out. */
module Geometry {

  datatype LatLng = LatLng(lat: real, lng: real)

  /** A `LatLngBounds`, by its south-west and north-east corners. */
  datatype Bounds = Bounds(sw: LatLng, ne: LatLng)

  /** The foreign calls, as opaque functions. */
  datatype Sphere = Sphere(
    offset: (LatLng, real, real) -> LatLng,     // computeOffset(from, meters, heading)
    heading: (LatLng, LatLng) -> real,          // computeHeading(from, to)
    distance: (LatLng, LatLng) -> real,         // computeDistanceBetween(a, b)
    average: (real, real) -> real,              // averageHeading(h1, h2)
    signedArea: seq<LatLng> -> real,            // signedAreaApprox(path)
    circleBounds: (LatLng, real) -> Bounds)     // Circle.getBounds() for (center, radius)

  // ---------- headingAtIndex ----------

  /** The heading of segment s, from vertex s to vertex s + 1. */
  function SegmentHeading(sp: Sphere, points: seq<LatLng>, s: nat): real
    requires s + 1 < |points|
  {
    sp.heading(points[s], points[s + 1])
  }

  /** headingAtIndex: the first vertex takes the heading of the first
      segment, the last vertex that of the last segment, and an interior
      vertex the average of the segment arriving at it and the segment
      leaving it. */
  function HeadingAtIndex(sp: Sphere, points: seq<LatLng>, i: nat): (h: real)
    requires 2 <= |points| && i < |points|
    ensures i == 0 ==> h == SegmentHeading(sp, points, 0)
    ensures i == |points| - 1 ==> h == SegmentHeading(sp, points, |points| - 2)
    ensures 0 < i < |points| - 1 ==>
      h == sp.average(SegmentHeading(sp, points, i - 1), SegmentHeading(sp, points, i))
  {
    var n := |points|;
    if i == 0 then sp.heading(points[0], points[1])
    else if i == n - 1 then sp.heading(points[n - 2], points[n - 1])
    else sp.average(sp.heading(points[i - 1], points[i]), sp.heading(points[i], points[i + 1]))
  }

  /** The heading at a vertex depends only on the vertex and its path
      neighbours: two paths that agree there (and on whether the vertex is
      an end) give the same heading. */
  lemma HeadingIsLocal(sp: Sphere, p: seq<LatLng>, q: seq<LatLng>, i: nat)
    requires 2 <= |p| && 2 <= |q| && i < |p| && i < |q|
    requires (i == |p| - 1) == (i == |q| - 1)
    requires forall k :: i - 1 <= k <= i + 1 && 0 <= k < |p| ==> k < |q| && p[k] == q[k]
    ensures HeadingAtIndex(sp, p, i) == HeadingAtIndex(sp, q, i)
  {
    if i == 0 {
      assert p[1] == q[1];
    } else if i == |p| - 1 {
      assert p[i - 1] == q[i - 1];
    } else {
      assert p[i - 1] == q[i - 1] && p[i + 1] == q[i + 1];
    }
  }

  // ---------- corridorFromPath ----------

  /** The reverse of a sequence (`Array.prototype.reverse`). */
  function Reversed<T>(s: seq<T>): (r: seq<T>)
    ensures |r| == |s|
    ensures forall k :: 0 <= k < |s| ==> r[k] == s[|s| - 1 - k]
  {
    if s == [] then [] else Reversed(s[1..]) + [s[0]]
  }

  /** The left and right offsets of vertex i: half the width away, at the
      local heading minus and plus 90 degrees. */
  function LeftOf(sp: Sphere, points: seq<LatLng>, width: real, i: nat): LatLng
    requires 2 <= |points| && i < |points|
  {
    sp.offset(points[i], width / 2.0, HeadingAtIndex(sp, points, i) - 90.0)
  }

  function RightOf(sp: Sphere, points: seq<LatLng>, width: real, i: nat): LatLng
    requires 2 <= |points| && i < |points|
  {
    sp.offset(points[i], width / 2.0, HeadingAtIndex(sp, points, i) + 90.0)
  }

  /** The corridor polygon: the left offsets in path order, then the right
      offsets in reverse order. */
  function Corridor(sp: Sphere, points: seq<LatLng>, width: real): seq<LatLng>
    requires 2 <= |points|
  {
    seq(|points|, i requires 0 <= i < |points| => LeftOf(sp, points, width, i))
      + Reversed(seq(|points|, i requires 0 <= i < |points| => RightOf(sp, points, width, i)))
  }

  /** The corridor has 2n vertices; vertex i (i < n) is the left offset of
      path vertex i and vertex 2n - 1 - i its right offset, so the ring runs
      out along the left side and back along the right side, turning at
      both ends of the path. */
  lemma CorridorShape(sp: Sphere, points: seq<LatLng>, width: real)
    requires 2 <= |points|
    ensures var c, n := Corridor(sp, points, width), |points|;
      |c| == 2 * n &&
      (forall i :: 0 <= i < n ==> c[i] == LeftOf(sp, points, width, i)) &&
      (forall i :: 0 <= i < n ==> c[2 * n - 1 - i] == RightOf(sp, points, width, i))
  {
    var n := |points|;
    var left := seq(n, i requires 0 <= i < n => LeftOf(sp, points, width, i));
    var right := seq(n, i requires 0 <= i < n => RightOf(sp, points, width, i));
    var c := left + Reversed(right);
    assert c == Corridor(sp, points, width);
    forall i | 0 <= i < n
      ensures c[2 * n - 1 - i] == RightOf(sp, points, width, i)
    {
      assert c[2 * n - 1 - i] == Reversed(right)[n - 1 - i];
    }
  }

  /** corridorFromPath: one pass over the path collects both offsets of each
      vertex; the right side is then reversed and appended. */
  method CorridorFromPath(sp: Sphere, points: seq<LatLng>, width: real) returns (poly: seq<LatLng>)
    requires 2 <= |points|
    ensures poly == Corridor(sp, points, width)
  {
    var half := width / 2.0;
    var left: seq<LatLng> := [];
    var right: seq<LatLng> := [];
    var n := |points|;
    for i := 0 to n
      invariant |left| == |right| == i
      invariant forall k :: 0 <= k < i ==> left[k] == LeftOf(sp, points, width, k)
      invariant forall k :: 0 <= k < i ==> right[k] == RightOf(sp, points, width, k)
    {
      var h := HeadingAtIndex(sp, points, i);
      left := left + [sp.offset(points[i], half, h - 90.0)];
      right := right + [sp.offset(points[i], half, h + 90.0)];
    }
    assert left == seq(n, i requires 0 <= i < n => LeftOf(sp, points, width, i));
    assert right == seq(n, i requires 0 <= i < n => RightOf(sp, points, width, i));
    poly := left + Reversed(right);
  }

  // ---------- closing vertices ----------

  /** Drops the last vertex when it repeats the first and the path is longer
      than `minLen`. getPerimeterPath strips any non-empty path (minLen 0),
      offsetClosedPathInward only one of at least two vertices (minLen 1).
      The result is the path or the path without its last vertex, and
      putting the first vertex back closes it again. */
  function Unclosed(path: seq<LatLng>, minLen: nat): (r: seq<LatLng>)
    ensures r == path || (|path| > 0 && r == path[..|path| - 1])
    ensures |path| > minLen && path[0] == path[|path| - 1] ==> |r| == |path| - 1 && r + [path[0]] == path
    ensures !(|path| > minLen && path[0] == path[|path| - 1]) ==> r == path
  {
    if |path| > minLen && path[0] == path[|path| - 1] then
      assert path[..|path| - 1] + [path[0]] == path;
      path[..|path| - 1]
    else path
  }

  /** An open ring and the same ring explicitly closed give the same
      vertices. */
  lemma UnclosedOfClosed(path: seq<LatLng>, minLen: nat)
    requires |path| >= 1 && minLen <= |path|
    requires !(|path| > minLen && path[0] == path[|path| - 1])
    ensures Unclosed(path + [path[0]], minLen) == path
  {
    assert (path + [path[0]])[..|path|] == path;
  }

  // ---------- getPerimeterPath ----------

  /** The geometry of an overlay: a polygon's vertex path, a rectangle's
      bounds, or a circle's centre and radius. A Maps polygon answers
      `getPath`, a rectangle `getBounds`, and a circle `getBounds` as well
      as `getCenter` and `getRadius`. */
  datatype Shape = PathShape(path: seq<LatLng>) | Rect(bounds: Bounds) | Circle(center: LatLng, radius: real)

  /** The number of points sampled on a circle. */
  const CircleSamples: nat := 64

  /** The i-th sample on a circle: `computeOffset(c, r, i * (360 / N))`. */
  function CirclePoint(sp: Sphere, center: LatLng, radius: real, i: nat): LatLng
  {
    sp.offset(center, radius, (i as real) * (360.0 / (CircleSamples as real)))
  }

  /** The rectangle's ring: north-west, north-east, south-east, south-west
      and north-west again. */
  function RectRing(b: Bounds): (r: seq<LatLng>)
    ensures |r| == 5 && r[4] == r[0]
    ensures r[1] == b.ne && r[3] == b.sw
    ensures r[0].lat == r[1].lat && r[2].lat == r[3].lat
    ensures r[0].lng == r[3].lng && r[2].lng == r[1].lng
  {
    var nw := LatLng(b.ne.lat, b.sw.lng);
    var se := LatLng(b.sw.lat, b.ne.lng);
    [nw, b.ne, se, b.sw, nw]
  }

  /** getPerimeterPath as written. Its branches test which methods the
      object has: `getPath` first, then `__type === 'rectangle' ||
      getBounds`, then the circle. A circle has `getBounds`, so it takes the
      rectangle branch and gets the ring of its bounding box; the sampling
      branch is reached by no overlay drawn here. */
  function PerimeterAsWritten(sp: Sphere, shape: Shape): seq<LatLng>
  {
    match shape
    case PathShape(arr) => Unclosed(arr, 0)
    case Rect(b) => RectRing(b)
    case Circle(c, r) => RectRing(sp.circleBounds(c, r))
  }

  /** The boundary getPerimeterPath is meant to return: a circle is
      sampled, as its own branch does, instead of being caught by the
      bounds test. */
  function Perimeter(sp: Sphere, shape: Shape): seq<LatLng>
  {
    match shape
    case PathShape(arr) => Unclosed(arr, 0)
    case Rect(b) => RectRing(b)
    case Circle(c, r) =>
      var samples := seq(CircleSamples, i requires 0 <= i < CircleSamples => CirclePoint(sp, c, r, i));
      samples + [samples[0]]
  }

  /** A polygon's path loses a closing vertex, a rectangle gives its closed
      five-point ring, and a circle gives 64 samples at equal heading steps
      followed by the first sample again. */
  lemma PerimeterShape(sp: Sphere, shape: Shape)
    ensures var pts := Perimeter(sp, shape);
      (shape.PathShape? ==> |pts| <= |shape.path| && pts == shape.path[..|pts|]) &&
      (shape.Rect? ==> |pts| == 5 && pts[4] == pts[0]) &&
      (shape.Circle? ==>
        |pts| == CircleSamples + 1 && pts[CircleSamples] == pts[0] &&
        forall i :: 0 <= i < CircleSamples ==> pts[i] == CirclePoint(sp, shape.center, shape.radius, i))
  {
  }

  /** As written, a circular area's perimeter road follows its bounding
      box: the boundary is the box's closed ring, and the ring moved inward
      has its 4 corners. As intended it follows 64 points of the circle.
      Polygons and rectangles are treated alike by both. */
  lemma CirclePerimeterAsWritten(sp: Sphere, c: LatLng, r: real, dist: real)
    ensures PerimeterAsWritten(sp, Circle(c, r)) == RectRing(sp.circleBounds(c, r))
    ensures |Inward(sp, PerimeterAsWritten(sp, Circle(c, r)), dist)| == 4
    ensures |Inward(sp, Perimeter(sp, Circle(c, r)), dist)| == CircleSamples
    ensures forall shape: Shape :: !shape.Circle? ==> PerimeterAsWritten(sp, shape) == Perimeter(sp, shape)
  {
    var box := RectRing(sp.circleBounds(c, r));
    assert |Unclosed(box, 1)| == 4;
    PerimeterShape(sp, Circle(c, r));
    var pts := Perimeter(sp, Circle(c, r));
    assert |Unclosed(pts, 1)| == CircleSamples;
  }

  /** getPerimeterPath with the circle tested before the bounds: the circle
      is sampled in a loop. */
  method GetPerimeterPath(sp: Sphere, shape: Shape) returns (pts: seq<LatLng>)
    ensures pts == Perimeter(sp, shape)
  {
    match shape
    case PathShape(arr) =>
      pts := Unclosed(arr, 0);
    case Circle(c, r) =>
      pts := [];
      for i := 0 to CircleSamples
        invariant |pts| == i
        invariant forall k :: 0 <= k < i ==> pts[k] == CirclePoint(sp, c, r, k)
      {
        pts := pts + [CirclePoint(sp, c, r, i)];
      }
      pts := pts + [pts[0]];
    case Rect(b) =>
      pts := RectRing(b);
  }

  // ---------- offsetClosedPathInward ----------

  /** The cyclic neighbours `(i - 1 + L) % L` and `(i + 1) % L`. */
  function Prev(i: nat, len: nat): (p: nat)
    requires i < len
    ensures p < len
    ensures i > 0 ==> p == i - 1
    ensures i == 0 ==> p == len - 1
  {
    (i - 1 + len) % len
  }

  function Next(i: nat, len: nat): (q: nat)
    requires i < len
    ensures q < len
    ensures i + 1 < len ==> q == i + 1
    ensures i + 1 == len ==> q == 0
  {
    (i + 1) % len
  }

  /** Walking the ring: the neighbours undo each other. */
  lemma NeighboursInverse(i: nat, len: nat)
    requires i < len
    ensures Next(Prev(i, len), len) == i
    ensures Prev(Next(i, len), len) == i
  {
  }

  /** The inward point of ring vertex i: the vertex moved by `dist` along
      the average of the headings arriving and leaving, turned 90 degrees to
      the left when the ring runs counter-clockwise and to the right
      otherwise. */
  function InwardPoint(sp: Sphere, ring: seq<LatLng>, dist: real, i: nat): LatLng
    requires i < |ring|
  {
    var len := |ring|;
    var hAvg := sp.average(sp.heading(ring[Prev(i, len)], ring[i]), sp.heading(ring[i], ring[Next(i, len)]));
    var normal := if sp.signedArea(ring) > 0.0 then hAvg - 90.0 else hAvg + 90.0;
    sp.offset(ring[i], dist, normal)
  }

  /** The open ring offsetClosedPathInward returns: one inward point per
      vertex of the path without its closing vertex. */
  function Inward(sp: Sphere, path: seq<LatLng>, dist: real): seq<LatLng>
  {
    var ring := Unclosed(path, 1);
    seq(|ring|, i requires 0 <= i < |ring| => InwardPoint(sp, ring, dist, i))
  }

  /** The inward ring has one point per distinct vertex, and a ring given
      explicitly closed yields the same points as the open one. */
  lemma InwardClosedSame(sp: Sphere, path: seq<LatLng>, dist: real)
    requires |path| >= 1
    requires !(|path| > 1 && path[0] == path[|path| - 1])
    ensures |Inward(sp, path, dist)| == |path|
    ensures Inward(sp, path + [path[0]], dist) == Inward(sp, path, dist)
  {
    UnclosedOfClosed(path, 1);
  }

  /** offsetClosedPathInward: a loop over the ring's vertices. */
  method OffsetClosedPathInward(sp: Sphere, path: seq<LatLng>, dist: real) returns (out: seq<LatLng>)
    ensures out == Inward(sp, path, dist)
  {
    var closed := Unclosed(path, 1);
    var ccw := sp.signedArea(closed) > 0.0;
    var len := |closed|;
    out := [];
    for i := 0 to len
      invariant |out| == i
      invariant forall k :: 0 <= k < i ==> out[k] == InwardPoint(sp, closed, dist, k)
    {
      var prev, curr, next := closed[(i - 1 + len) % len], closed[i], closed[(i + 1) % len];
      var hPrev := sp.heading(prev, curr);
      var hNext := sp.heading(curr, next);
      var hAvg := sp.average(hPrev, hNext);
      var normal := if ccw then hAvg - 90.0 else hAvg + 90.0;
      out := out + [sp.offset(curr, dist, normal)];
    }
  }

  // ---------- grid apply ----------

  /** The cells of rows 0 .. rows - 1, row by row, each row's columns in
      order. */
  function AllCells(rows: nat, cols: nat): (cells: seq<(nat, nat)>)
    decreases rows
  {
    if rows == 0 then [] else AllCells(rows - 1, cols) + RowCells(rows - 1, cols)
  }

  /** Columns 0 .. cols - 1 of row r. */
  function RowCells(r: nat, cols: nat): (cells: seq<(nat, nat)>)
    ensures |cells| == cols
    ensures forall k :: 0 <= k < cols ==> cells[k] == (r, k)
  {
    if cols == 0 then [] else RowCells(r, cols - 1) + [(r, cols - 1)]
  }

  /** The cells that are not the origin cell, in order. */
  function WithoutOrigin(cells: seq<(nat, nat)>): (r: seq<(nat, nat)>)
    ensures forall x :: x in r <==> x in cells && x != (0, 0)
  {
    if cells == [] then []
    else
      var last := cells[|cells| - 1];
      WithoutOrigin(cells[..|cells| - 1]) + (if last == (0, 0) then [] else [last])
  }

  /** The cells the grid loops visit: row-major order, the origin cell
      (where the originals sit) skipped. A non-positive count of rows or
      columns gives no cell. */
  function GridCells(rows: int, cols: int): seq<(nat, nat)>
  {
    if rows <= 0 || cols <= 0 then [] else WithoutOrigin(AllCells(rows, cols))
  }

  /** The block has rows * cols cells. */
  lemma {:induction false} AllCellsCount(rows: nat, cols: nat)
    ensures |AllCells(rows, cols)| == rows * cols
  {
    if rows > 0 {
      AllCellsCount(rows - 1, cols);
      assert (rows - 1) * cols + cols == rows * cols;
    }
  }

  /** The block holds exactly the cells of rows 0 .. rows - 1 and columns
      0 .. cols - 1. */
  lemma {:induction false} AllCellsMembers(rows: nat, cols: nat)
    ensures forall x :: x in AllCells(rows, cols) <==> x.0 < rows && x.1 < cols
  {
    if rows > 0 {
      AllCellsMembers(rows - 1, cols);
      forall x: (nat, nat) | x.0 < rows && x.1 < cols
        ensures x in AllCells(rows, cols)
      {
        if x.0 == rows - 1 {
          assert RowCells(rows - 1, cols)[x.1] == x;
        }
      }
    }
  }

  lemma {:induction false} WithoutOriginCount(cells: seq<(nat, nat)>, k: nat)
    requires k < |cells| && cells[k] == (0, 0)
    requires forall j :: 0 <= j < |cells| && j != k ==> cells[j] != (0, 0)
    ensures |WithoutOrigin(cells)| == |cells| - 1
  {
    var last := |cells| - 1;
    if k < last {
      WithoutOriginCount(cells[..last], k);
    } else {
      WithoutOriginAll(cells[..last]);
    }
  }

  lemma {:induction false} WithoutOriginAll(cells: seq<(nat, nat)>)
    requires forall j :: 0 <= j < |cells| ==> cells[j] != (0, 0)
    ensures WithoutOrigin(cells) == cells
  {
    if cells != [] {
      WithoutOriginAll(cells[..|cells| - 1]);
    }
  }

  /** The grid visits every cell of the rows x cols block except the
      origin, each once: rows * cols - 1 cells. */
  lemma GridCellsSpec(rows: int, cols: int)
    ensures forall x :: x in GridCells(rows, cols) <==> x.0 < rows && x.1 < cols && x != (0, 0)
    ensures rows > 0 && cols > 0 ==> |GridCells(rows, cols)| == rows * cols - 1
    ensures rows <= 0 || cols <= 0 ==> GridCells(rows, cols) == []
  {
    if rows > 0 && cols > 0 {
      AllCellsCount(rows, cols);
      AllCellsMembers(rows, cols);
      AllCellsFirst(rows, cols);
      AllCellsOriginOnce(rows, cols);
      WithoutOriginCount(AllCells(rows, cols), 0);
    }
  }

  lemma {:induction false} AllCellsFirst(rows: nat, cols: nat)
    requires rows > 0 && cols > 0
    ensures |AllCells(rows, cols)| > 0 && AllCells(rows, cols)[0] == (0, 0)
  {
    if rows > 1 {
      AllCellsFirst(rows - 1, cols);
    } else {
      assert AllCells(rows, cols) == [] + RowCells(0, cols);
    }
  }

  lemma {:induction false} AllCellsOriginOnce(rows: nat, cols: nat)
    requires rows > 0 && cols > 0
    ensures forall j :: 0 < j < |AllCells(rows, cols)| ==> AllCells(rows, cols)[j] != (0, 0)
  {
    if rows > 1 {
      AllCellsOriginOnce(rows - 1, cols);
      var prefix := AllCells(rows - 1, cols);
      forall j | 0 < j < |AllCells(rows, cols)|
        ensures AllCells(rows, cols)[j] != (0, 0)
      {
        if j >= |prefix| {
          assert AllCells(rows, cols)[j] == RowCells(rows - 1, cols)[j - |prefix|];
        }
      }
    }
  }

  /** The centre of grid cell (r, c): `c * sx` metres east of the group
      centre, then `r * sy` metres south. */
  function CellTarget(sp: Sphere, gc: LatLng, cell: (nat, nat), sx: real, sy: real): LatLng
  {
    var east := sp.offset(gc, (cell.1 as real) * sx, 90.0);
    sp.offset(east, (cell.0 as real) * sy, 180.0)
  }

  /** targetShift: an item keeps its distance and heading from the group
      centre, measured again from the cell's target. */
  function TargetShift(sp: Sphere, itemCenter: LatLng, gc: LatLng, target: LatLng): LatLng
  {
    sp.offset(target, sp.distance(gc, itemCenter), sp.heading(gc, itemCenter))
  }

  // ---------- roads H / V ----------

  /** The coordinate of road i of n: `lo + (i / (n + 1)) * (hi - lo)`. */
  function RoadLine(lo: real, hi: real, n: nat, i: nat): real
  {
    lo + ((i as real) / ((n + 1) as real)) * (hi - lo)
  }

  /** Roads 1 .. n split [lo, hi] evenly: each lies strictly inside the
      interval and each lies beyond the one before. */
  lemma RoadLinesInside(lo: real, hi: real, n: nat, i: nat)
    requires lo < hi && 1 <= i <= n
    ensures lo < RoadLine(lo, hi, n, i) < hi
    ensures i > 1 ==> RoadLine(lo, hi, n, i - 1) < RoadLine(lo, hi, n, i)
  {
    var d := (n + 1) as real;
    var t := (i as real) / d;
    assert 0.0 < t < 1.0;
    assert 0.0 < t * (hi - lo) < hi - lo;
    if i > 1 {
      var s := ((i - 1) as real) / d;
      assert s < t;
      assert s * (hi - lo) < t * (hi - lo);
    }
  }

  /** Bounds that cross the antimeridian have a west edge greater than
      their east edge. The same formula then puts every road strictly
      between the east and the west edge, which are the longitudes the
      bounds do not cover. */
  lemma RoadLinesWrapped(lo: real, hi: real, n: nat, i: nat)
    requires hi < lo && 1 <= i <= n
    ensures hi < RoadLine(lo, hi, n, i) < lo
  {
    var t := (i as real) / ((n + 1) as real);
    assert 0.0 < t < 1.0;
    assert hi - lo < t * (hi - lo) < 0.0;
  }

  /** The centerline of road i: a horizontal road spans the west-east
      extent of the bounds at an evenly spaced latitude, a vertical road the
      south-north extent at an evenly spaced longitude. */
  function RoadPath(b: Bounds, horizontal: bool, n: nat, i: nat): (path: seq<LatLng>)
    ensures |path| == 2
    ensures horizontal ==>
      path[0].lat == path[1].lat == RoadLine(b.sw.lat, b.ne.lat, n, i) &&
      path[0].lng == b.sw.lng && path[1].lng == b.ne.lng
    ensures !horizontal ==>
      path[0].lng == path[1].lng == RoadLine(b.sw.lng, b.ne.lng, n, i) &&
      path[0].lat == b.sw.lat && path[1].lat == b.ne.lat
  {
    if horizontal then
      var lat := RoadLine(b.sw.lat, b.ne.lat, n, i);
      [LatLng(lat, b.sw.lng), LatLng(lat, b.ne.lng)]
    else
      var lng := RoadLine(b.sw.lng, b.ne.lng, n, i);
      [LatLng(b.sw.lat, lng), LatLng(b.ne.lat, lng)]
  }
}
