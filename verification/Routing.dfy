/** Orthogonal edge routes between placed cards, and the bounds of the drawing. */
module Routing {
  import opened GraphModel
  import opened Placement

  // ---------- Geometry ----------

  /** q lies strictly inside the card of v. */
  ghost predicate InsideCard(c: Cards, p: Placing, v: nat, q: Point)
    requires |c.size| == |p.position| && v < |c.size|
  {
    && p.position[v].x < q.x < p.position[v].x + c.size[v].x
    && p.position[v].y < q.y < p.position[v].y + c.size[v].y
  }

  ghost predicate Between(a: real, q: real, b: real) {
    a <= q <= b || b <= q <= a
  }

  /** q lies on the axis-parallel leg from a to b. */
  ghost predicate OnLeg(a: Point, b: Point, q: Point) {
    (a.x == b.x || a.y == b.y) && Between(a.x, q.x, b.x) && Between(a.y, q.y, b.y)
  }

  ghost predicate LegClear(c: Cards, p: Placing, a: Point, b: Point)
    requires |c.size| == |p.position|
  {
    forall q, v :: OnLeg(a, b, q) && 0 <= v < |c.size| ==> !InsideCard(c, p, v, q)
  }

  /** An orthogonal polyline that never enters the interior of any card. */
  ghost predicate RouteClear(c: Cards, p: Placing, points: seq<Point>)
    requires |c.size| == |p.position|
  {
    && (forall i :: 0 <= i < |points| - 1 ==> points[i].x == points[i + 1].x || points[i].y == points[i + 1].y)
    && (forall i :: 0 <= i < |points| - 1 ==> LegClear(c, p, points[i], points[i + 1]))
  }

  /** No two cards share an interior point. */
  ghost predicate CardsDisjoint(c: Cards, p: Placing)
    requires |c.size| == |p.position|
  {
    forall a, b, q :: 0 <= a < |c.size| && 0 <= b < |c.size| && a != b && InsideCard(c, p, a, q) ==>
      !InsideCard(c, p, b, q)
  }

  // ---------- What placement gives ----------

  lemma {:induction false} BandsApart(c: Cards, p: Placing, i: nat, j: nat)
    requires Bands(c, p) && 0.0 < c.layerGap && i < j < |p.layerTop|
    ensures p.layerBottom[i] + c.layerGap <= p.layerTop[j]
  {
    assert Follows(c, p, j);
    if i < j - 1 {
      BandsApart(c, p, i, j - 1);
    }
  }

  /** Cards of one layer are a column gap apart, one way or the other. */
  lemma RowNeighboursApart(c: Cards, p: Placing, a: nat, b: nat)
    requires c.Valid() && Placed(c, p)
    requires a < c.g.count && b < c.g.count && a != b && c.layer[a] == c.layer[b] < |p.layerTop|
    ensures || p.position[a].x + c.size[a].x + c.columnGap <= p.position[b].x
            || p.position[b].x + c.size[b].x + c.columnGap <= p.position[a].x
  {
    assert InOrder(c, p, a, b);
    assert InOrder(c, p, b, a);
  }

  ghost predicate Ready(c: Cards, p: Placing) {
    && c.Valid() && Placed(c, p)
    && forall v :: 0 <= v < c.g.count ==> c.layer[v] < |p.layerTop|
  }

  lemma NoOverlap(c: Cards, p: Placing)
    requires Ready(c, p)
    ensures CardsDisjoint(c, p)
  {
    forall a, b, q | 0 <= a < |c.size| && 0 <= b < |c.size| && a != b && InsideCard(c, p, a, q)
      ensures !InsideCard(c, p, b, q)
    {
      assert Fits(c, p, a) && Fits(c, p, b);
      if c.layer[a] == c.layer[b] {
        RowNeighboursApart(c, p, a, b);
      } else if c.layer[a] < c.layer[b] {
        BandsApart(c, p, c.layer[a], c.layer[b]);
      } else {
        BandsApart(c, p, c.layer[b], c.layer[a]);
      }
    }
  }

  /** A horizontal leg in no band's interior is clear. */
  lemma GutterLegClear(c: Cards, p: Placing, a: Point, b: Point)
    requires Ready(c, p) && a.y == b.y
    requires forall k :: 0 <= k < |p.layerTop| ==> a.y <= p.layerTop[k] || p.layerBottom[k] <= a.y
    ensures LegClear(c, p, a, b)
  {
    forall q, v | OnLeg(a, b, q) && 0 <= v < |c.size| ensures !InsideCard(c, p, v, q) {
      assert Fits(c, p, v);
    }
  }

  /** A vertical leg beside all rows is clear. */
  lemma OuterLegClear(c: Cards, p: Placing, a: Point, b: Point)
    requires Ready(c, p) && a.x == b.x
    requires a.x <= p.left || p.right <= a.x
    ensures LegClear(c, p, a, b)
  {
    forall q, v | OnLeg(a, b, q) && 0 <= v < |c.size| ensures !InsideCard(c, p, v, q) {
      assert Fits(c, p, v);
    }
  }

  /** The gutter below layer k, and the one above it. */
  lemma GutterBelow(c: Cards, p: Placing, k: nat, y: real)
    requires Bands(c, p) && 0.0 < c.layerGap && k < |p.layerTop|
    requires p.layerBottom[k] <= y <= p.layerBottom[k] + c.layerGap
    ensures forall i :: 0 <= i < |p.layerTop| ==> y <= p.layerTop[i] || p.layerBottom[i] <= y
  {
    forall i | 0 <= i < |p.layerTop| ensures y <= p.layerTop[i] || p.layerBottom[i] <= y {
      if i < k {
        BandsApart(c, p, i, k);
      } else if k < i {
        BandsApart(c, p, k, i);
      }
    }
  }

  lemma GutterAbove(c: Cards, p: Placing, k: nat, y: real)
    requires Bands(c, p) && 0.0 < c.layerGap && k < |p.layerTop|
    requires p.layerTop[k] - c.layerGap <= y <= p.layerTop[k]
    ensures forall i :: 0 <= i < |p.layerTop| ==> y <= p.layerTop[i] || p.layerBottom[i] <= y
  {
    forall i | 0 <= i < |p.layerTop| ensures y <= p.layerTop[i] || p.layerBottom[i] <= y {
      if i < k {
        BandsApart(c, p, i, k);
      } else if k < i {
        BandsApart(c, p, k, i);
      }
    }
  }

  /** A vertical leg over card v, kept inside the gutters next to v's layer, is clear. */
  lemma PortLegClear(c: Cards, p: Placing, v: nat, a: Point, b: Point)
    requires Ready(c, p) && v < c.g.count && a.x == b.x
    requires p.position[v].x < a.x < p.position[v].x + c.size[v].x
    requires (&& p.position[v].y + c.size[v].y <= a.y && p.position[v].y + c.size[v].y <= b.y
              && a.y <= p.layerBottom[c.layer[v]] + c.layerGap && b.y <= p.layerBottom[c.layer[v]] + c.layerGap)
          || (&& a.y <= p.position[v].y && b.y <= p.position[v].y
              && p.layerTop[c.layer[v]] - c.layerGap <= a.y && p.layerTop[c.layer[v]] - c.layerGap <= b.y)
    ensures LegClear(c, p, a, b)
  {
    assert Fits(c, p, v);
    forall q, w | OnLeg(a, b, q) && 0 <= w < |c.size| ensures !InsideCard(c, p, w, q) {
      assert Fits(c, p, w);
      if c.layer[w] < c.layer[v] {
        BandsApart(c, p, c.layer[w], c.layer[v]);
      } else if c.layer[v] < c.layer[w] {
        BandsApart(c, p, c.layer[v], c.layer[w]);
      } else if w != v {
        RowNeighboursApart(c, p, v, w);
      }
    }
  }

  // ---------- Routes ----------

  /** Fraction of the source card's width at which an edge leaves it. */
  function Port(g: Graph, e: nat): real
    requires WellFormed(g) && e < |g.edges|
  {
    ((g.edges[e].slot + 1) as real) / ((|g.outgoing[g.edges[e].source]| + 1) as real)
  }

  lemma PortInRange(g: Graph, e: nat)
    requires WellFormed(g) && e < |g.edges|
    ensures 0.0 < Port(g, e) < 1.0
  {
    Fraction((g.edges[e].slot + 1) as real, (|g.outgoing[g.edges[e].source]| + 1) as real);
  }

  lemma Fraction(a: real, b: real)
    requires 0.0 < a < b
    ensures 0.0 < a / b < 1.0
  {
    Quotients(0.0, a, b);
    Quotients(a, b, b);
    assert 0.0 / b == 0.0 && b / b == 1.0;
  }

  lemma ScaledInRange(width: real, port: real)
    requires 0.0 < width && 0.0 < port < 1.0
    ensures 0.0 < width * port < width
  {
  }

  function Start(c: Cards, p: Placing, e: nat): Point
    requires WellFormed(c.g) && e < |c.g.edges| && |c.size| == |p.position| == c.g.count
  {
    var s := c.g.edges[e].source;
    Point(p.position[s].x + c.size[s].x * Port(c.g, e), p.position[s].y + c.size[s].y)
  }

  lemma StartOnCard(c: Cards, p: Placing, e: nat)
    requires Ready(c, p) && e < |c.g.edges|
    ensures var s := c.g.edges[e].source;
            p.position[s].x < Start(c, p, e).x < p.position[s].x + c.size[s].x
  {
    PortInRange(c.g, e);
    ScaledInRange(c.size[c.g.edges[e].source].x, Port(c.g, e));
  }

  /** Edges of one block leave it at separate points, left to right in edge order. */
  lemma PortsSpread(c: Cards, p: Placing, e: nat, f: nat)
    requires Ready(c, p) && e < |c.g.edges| && f < |c.g.edges|
    requires c.g.edges[e].source == c.g.edges[f].source && c.g.edges[e].slot < c.g.edges[f].slot
    ensures Start(c, p, e).x < Start(c, p, f).x
  {
    PortsRise(c.g, e, f);
    Scaled(c.size[c.g.edges[e].source].x, Port(c.g, e), Port(c.g, f));
  }

  lemma PortsRise(g: Graph, e: nat, f: nat)
    requires WellFormed(g) && e < |g.edges| && f < |g.edges|
    requires g.edges[e].source == g.edges[f].source && g.edges[e].slot < g.edges[f].slot
    ensures Port(g, e) < Port(g, f)
  {
    Quotients((g.edges[e].slot + 1) as real, (g.edges[f].slot + 1) as real,
              (|g.outgoing[g.edges[e].source]| + 1) as real);
  }

  lemma Quotients(i: real, j: real, b: real)
    requires i < j && 0.0 < b
    ensures i / b < j / b
  {
    assert (i / b) * b == i;
    assert (j / b) * b == j;
  }

  lemma Scaled(w: real, i: real, j: real)
    requires 0.0 < w && i < j
    ensures w * i < w * j
  {
  }

  /** The middle of the target card's top border. */
  function End(c: Cards, p: Placing, v: nat): Point
    requires |c.size| == |p.position| && v < |c.size|
  {
    Point(p.position[v].x + c.size[v].x * 0.5, p.position[v].y)
  }

  datatype Style = Style(padding: real, rowHeight: real)

  /** One routed edge: its polyline and where its label starts. */
  datatype Route = Route(points: seq<Point>, labelAt: Point)

  /** What every route of an in-graph edge promises. */
  ghost predicate Connects(c: Cards, p: Placing, e: nat, points: seq<Point>)
    requires Ready(c, p) && e < |c.g.edges| && c.g.edges[e].target.Some?
  {
    var v := c.g.edges[e].target.value;
    && (|points| == 4 || |points| == 6)
    && (|points| == 4 <==> !c.back[e] && c.layer[v] == c.layer[c.g.edges[e].source] + 1)
    && points[0] == Start(c, p, e)
    && points[|points| - 1] == End(c, p, v)
    && LegsInGutters(c, p, e, points) && RouteClear(c, p, points)
  }

  /**
   Horizontal legs run strictly inside gutters: exits in the upper half of the one
   below the source's layer, entries in the lower half of the one above the target's.
   The long vertical leg runs strictly outside all rows.
   */
  ghost predicate LegsInGutters(c: Cards, p: Placing, e: nat, points: seq<Point>)
    requires Ready(c, p) && e < |c.g.edges| && c.g.edges[e].target.Some? && (|points| == 4 || |points| == 6)
  {
    var v := c.g.edges[e].target.value;
    && InExitGutter(c, p, e, points[1].y) && points[1].x == points[0].x && points[2].y == points[1].y
    && (|points| == 4 ==> points[2].x == points[3].x)
    && (|points| == 6 ==>
          && (points[2].x < p.left || p.right < points[2].x) && points[3].x == points[2].x
          && p.layerTop[c.layer[v]] - c.layerGap * 0.5 < points[3].y < p.layerTop[c.layer[v]]
          && points[4].y == points[3].y && points[4].x == points[5].x)
  }

  /** An exit height strictly inside the gutter below the source's layer. */
  ghost predicate InExitGutter(c: Cards, p: Placing, e: nat, exitY: real)
    requires Ready(c, p) && e < |c.g.edges|
  {
    var bottom := p.layerBottom[c.layer[c.g.edges[e].source]];
    bottom < exitY < bottom + c.layerGap * 0.5
  }

  lemma ExitInGutter(c: Cards, p: Placing, e: nat)
    requires Ready(c, p) && e < |c.g.edges|
    ensures InExitGutter(c, p, e, p.layerBottom[c.layer[c.g.edges[e].source]]
                                  + c.layerGap * (0.38 + 0.12 * Port(c.g, e)))
  {
    PortInRange(c.g, e);
    Scaled(c.layerGap, 0.38 + 0.12 * Port(c.g, e), 0.5);
    Scaled(c.layerGap, 0.0, 0.38 + 0.12 * Port(c.g, e));
  }

  lemma ExitLegClear(c: Cards, p: Placing, e: nat, exitY: real)
    requires Ready(c, p) && e < |c.g.edges| && InExitGutter(c, p, e, exitY)
    ensures LegClear(c, p, Start(c, p, e), Point(Start(c, p, e).x, exitY))
  {
    StartOnCard(c, p, e);
    assert Fits(c, p, c.g.edges[e].source);
    PortLegClear(c, p, c.g.edges[e].source, Start(c, p, e), Point(Start(c, p, e).x, exitY));
  }

  lemma EntryLegClear(c: Cards, p: Placing, v: nat, y: real)
    requires Ready(c, p) && v < c.g.count
    requires p.layerTop[c.layer[v]] - c.layerGap <= y <= p.layerTop[c.layer[v]]
    ensures LegClear(c, p, Point(End(c, p, v).x, y), End(c, p, v))
  {
    assert Fits(c, p, v);
    PortLegClear(c, p, v, Point(End(c, p, v).x, y), End(c, p, v));
  }

  /** The four-point route between adjacent layers. */
  lemma ShortRouteClear(c: Cards, p: Placing, e: nat, exitY: real)
    requires Ready(c, p) && e < |c.g.edges| && c.g.edges[e].target.Some? && InExitGutter(c, p, e, exitY)
    requires c.layer[c.g.edges[e].target.value] == c.layer[c.g.edges[e].source] + 1
    ensures var start, end := Start(c, p, e), End(c, p, c.g.edges[e].target.value);
            RouteClear(c, p, [start, Point(start.x, exitY), Point(end.x, exitY), end])
  {
    var start, end := Start(c, p, e), End(c, p, c.g.edges[e].target.value);
    ExitLegClear(c, p, e, exitY);
    GutterBelow(c, p, c.layer[c.g.edges[e].source], exitY);
    GutterLegClear(c, p, Point(start.x, exitY), Point(end.x, exitY));
    assert Follows(c, p, c.layer[c.g.edges[e].target.value]);
    EntryLegClear(c, p, c.g.edges[e].target.value, exitY);
  }

  /** The six-point route around the outside. */
  lemma LongRouteClear(c: Cards, p: Placing, e: nat, exitY: real, outside: real, enterY: real)
    requires Ready(c, p) && e < |c.g.edges| && c.g.edges[e].target.Some? && InExitGutter(c, p, e, exitY)
    requires outside <= p.left || p.right <= outside
    requires var top := p.layerTop[c.layer[c.g.edges[e].target.value]]; top - c.layerGap <= enterY <= top
    ensures var start, end := Start(c, p, e), End(c, p, c.g.edges[e].target.value);
            RouteClear(c, p, [start, Point(start.x, exitY), Point(outside, exitY), Point(outside, enterY),
                              Point(end.x, enterY), end])
  {
    var start, end := Start(c, p, e), End(c, p, c.g.edges[e].target.value);
    ExitLegClear(c, p, e, exitY);
    GutterBelow(c, p, c.layer[c.g.edges[e].source], exitY);
    GutterLegClear(c, p, Point(start.x, exitY), Point(outside, exitY));
    OuterLegClear(c, p, Point(outside, exitY), Point(outside, enterY));
    GutterAbove(c, p, c.layer[c.g.edges[e].target.value], enterY);
    GutterLegClear(c, p, Point(outside, enterY), Point(end.x, enterY));
    EntryLegClear(c, p, c.g.edges[e].target.value, enterY);
  }

  method RouteInside(c: Cards, p: Placing, e: nat, lane: real) returns (points: seq<Point>)
    requires Ready(c, p) && e < |c.g.edges| && c.g.edges[e].target.Some? && 0.0 < lane
    ensures Connects(c, p, e, points)
    ensures |points| == 6 ==> points[2].x == (if points[0].x < 0.0 then p.left - lane else p.right + lane)
  {
    var s, v := c.g.edges[e].source, c.g.edges[e].target.value;
    var start, end := Start(c, p, e), End(c, p, v);
    var exitY := p.layerBottom[c.layer[s]] + c.layerGap * (0.38 + 0.12 * Port(c.g, e));
    ExitInGutter(c, p, e);
    if !c.back[e] && c.layer[v] == c.layer[s] + 1 {
      points := [start, Point(start.x, exitY), Point(end.x, exitY), end];
      ShortRouteClear(c, p, e, exitY);
    } else {
      var outside := if start.x < 0.0 then p.left - lane else p.right + lane;
      var enterY := p.layerTop[c.layer[v]] - c.layerGap * 0.25;
      points := [start, Point(start.x, exitY), Point(outside, exitY), Point(outside, enterY), Point(end.x, enterY),
                 end];
      LongRouteClear(c, p, e, exitY, outside, enterY);
    }
  }

  // ---------- All edges and the bounds ----------

  datatype Bounds = Bounds(min: Point, max: Point)

  predicate InBounds(b: Bounds, q: Point) {
    b.min.x <= q.x <= b.max.x && b.min.y <= q.y <= b.max.y
  }

  ghost predicate Contains(outer: Bounds, inner: Bounds) {
    && outer.min.x <= inner.min.x && outer.min.y <= inner.min.y
    && inner.max.x <= outer.max.x && inner.max.y <= outer.max.y
  }

  function Include(b: Bounds, q: Point): (r: Bounds)
    ensures InBounds(r, q) && Contains(r, b)
  {
    Bounds(Point(MinReal(b.min.x, q.x), MinReal(b.min.y, q.y)), Point(MaxReal(b.max.x, q.x), MaxReal(b.max.y, q.y)))
  }

  /** The whole route and its label lie within the bounds. */
  ghost predicate RouteInBounds(b: Bounds, r: Route, labelSize: Point) {
    && (forall i :: 0 <= i < |r.points| ==> InBounds(b, r.points[i]))
    && InBounds(b, r.labelAt)
    && InBounds(b, Point(r.labelAt.x + labelSize.x, r.labelAt.y + labelSize.y))
  }

  method CoverRoute(b0: Bounds, r: Route, labelSize: Point) returns (b: Bounds)
    requires 0.0 <= labelSize.x && 0.0 <= labelSize.y
    requires |r.points| > 1
    requires r.points[0].x <= r.labelAt.x
    requires r.points[0].y <= r.labelAt.y || r.points[1].y <= r.labelAt.y
    ensures Contains(b, b0) && RouteInBounds(b, r, labelSize)
  {
    b := b0;
    for i := 0 to |r.points|
      invariant Contains(b, b0)
      invariant forall k :: 0 <= k < i ==> InBounds(b, r.points[k])
    {
      b := Include(b, r.points[i]);
    }
    b := b.(max := Point(MaxReal(b.max.x, r.labelAt.x + labelSize.x), MaxReal(b.max.y, r.labelAt.y + labelSize.y)));
  }

  ghost predicate Routed(c: Cards, p: Placing, e: nat, r: Route)
    requires Ready(c, p) && e < |c.g.edges|
  {
    if c.g.edges[e].target.Some? then Connects(c, p, e, r.points)
    else
      && |r.points| == 2 && r.points[0] == Start(c, p, e)
      && r.points[1].x == r.points[0].x && r.points[0].y < r.points[1].y
  }

  ghost predicate EdgesRouted(c: Cards, p: Placing, routes: seq<Route>) {
    && Ready(c, p) && |routes| <= |c.g.edges|
    && forall e :: 0 <= e < |routes| ==> Routed(c, p, e, routes[e])
  }

  /** Label sizes are whatever the font measures; a missing entry measures nothing. */
  function LabelSize(labelSize: seq<Point>, e: nat): Point {
    if e < |labelSize| then labelSize[e] else Point(0.0, 0.0)
  }

  /** Cards, routes and labels all lie within the bounds. */
  ghost predicate DrawingInBounds(c: Cards, p: Placing, routes: seq<Route>, labelSize: seq<Point>, b: Bounds)
    requires |c.size| == |p.position|
  {
    && CardsInBounds(c, p, b)
    && forall e :: 0 <= e < |routes| ==> RouteInBounds(b, routes[e], LabelSize(labelSize, e))
  }

  method RouteEdges(c: Cards, p: Placing, style: Style, labelSize: seq<Point>)
    returns (routes: seq<Route>, bounds: Bounds)
    requires Ready(c, p) && |p.layerTop| > 0 && 0.0 < style.padding && 0.0 < style.rowHeight
    requires forall e :: 0 <= e < |labelSize| ==> 0.0 <= labelSize[e].x && 0.0 <= labelSize[e].y
    ensures |routes| == |c.g.edges| && EdgesRouted(c, p, routes)
    ensures DrawingInBounds(c, p, routes, labelSize, bounds)
  {
    routes := [];
    bounds := Bounds(Point(p.left, -c.layerGap * 0.5), Point(p.right, p.top - c.layerGap * 0.5));
    InitialBoundsHoldCards(c, p);
    var outerLane := 0;
    for e := 0 to |c.g.edges|
      invariant |routes| == e && 0 <= outerLane
      invariant EdgesRouted(c, p, routes) && DrawingInBounds(c, p, routes, labelSize, bounds)
    {
      var route: Route;
      route, outerLane := RouteEdge(c, p, style, e, outerLane);
      var before := bounds;
      bounds := CoverRoute(bounds, route, LabelSize(labelSize, e));
      StillInBounds(c, p, routes, labelSize, before, bounds);
      routes := routes + [route];
    }
  }

  lemma StillInBounds(c: Cards, p: Placing, routes: seq<Route>, labelSize: seq<Point>, before: Bounds, b: Bounds)
    requires |c.size| == |p.position| && DrawingInBounds(c, p, routes, labelSize, before) && Contains(b, before)
    ensures DrawingInBounds(c, p, routes, labelSize, b)
  {
  }

  method RouteEdge(c: Cards, p: Placing, style: Style, e: nat, outerLane: nat) returns (route: Route, lanes: nat)
    requires Ready(c, p) && e < |c.g.edges| && 0.0 < style.padding && 0.0 < style.rowHeight
    ensures Routed(c, p, e, route)
    ensures route.points[0].x <= route.labelAt.x
    ensures route.points[0].y <= route.labelAt.y || route.points[1].y <= route.labelAt.y
    ensures lanes == outerLane + if |route.points| == 6 then 1 else 0
  {
    var start := Start(c, p, e);
    lanes := outerLane;
    if c.g.edges[e].target.None? {
      ExitInGutter(c, p, e);
      assert Fits(c, p, c.g.edges[e].source);
      var exitY := p.layerBottom[c.layer[c.g.edges[e].source]] + c.layerGap * (0.38 + 0.12 * Port(c.g, e));
      var endY := exitY + (c.g.edges[e].slot as real) * style.rowHeight;
      route := Route([start, Point(start.x, endY)], Point(start.x + style.padding * 0.5, endY));
    } else {
      var lane := c.columnGap * 0.5 + ((outerLane % 12) as real) * style.padding;
      var points := RouteInside(c, p, e, lane);
      if |points| == 6 {
        lanes := lanes + 1;
      }
      route := Route(points, Point(start.x + style.padding * 0.5, start.y + style.padding * 0.3));
    }
  }

  ghost predicate CardsInBounds(c: Cards, p: Placing, b: Bounds)
    requires |c.size| == |p.position|
  {
    forall v :: 0 <= v < |c.size| ==>
      InBounds(b, p.position[v]) && InBounds(b, Point(p.position[v].x + c.size[v].x, p.position[v].y + c.size[v].y))
  }

  lemma InitialBoundsHoldCards(c: Cards, p: Placing)
    requires Ready(c, p) && |p.layerTop| > 0
    ensures CardsInBounds(c, p, Bounds(Point(p.left, -c.layerGap * 0.5), Point(p.right, p.top - c.layerGap * 0.5)))
  {
    var last := |p.layerTop| - 1;
    forall v | 0 <= v < |c.size|
      ensures 0.0 <= p.position[v].y && p.position[v].y + c.size[v].y <= p.layerBottom[last]
    {
      assert Fits(c, p, v);
      if 0 < c.layer[v] {
        BandsApart(c, p, 0, c.layer[v]);
      }
      if c.layer[v] < last {
        BandsApart(c, p, c.layer[v], last);
      }
    }
    forall v | 0 <= v < |c.size|
      ensures p.left <= p.position[v].x && p.position[v].x + c.size[v].x <= p.right
    {
      assert Fits(c, p, v);
    }
  }
}
