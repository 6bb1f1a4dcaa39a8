/**
 Card placement: each layer becomes a centred row of cards, ordered by the
 barycentre of the cards its blocks are reached from.
 */
module Placement {
  import opened Wrappers
  import opened Counting
  import opened GraphModel
  import opened Layering

  datatype Point = Point(x: real, y: real)

  function MaxReal(a: real, b: real): real {
    if a < b then b else a
  }

  function MinReal(a: real, b: real): real {
    if b < a then b else a
  }

  // ---------- Layer rows ----------

  /** Row r lists exactly the blocks of layer r, each once. */
  ghost predicate RowsMatch(rows: seq<seq<nat>>, layer: seq<nat>, layerCount: nat) {
    && |rows| == layerCount
    && (forall r, k :: 0 <= r < |rows| && 0 <= k < |rows[r]| ==> rows[r][k] < |layer| && layer[rows[r][k]] == r)
    && (forall v :: 0 <= v < |layer| ==> layer[v] < layerCount && v in rows[layer[v]])
    && (forall r :: 0 <= r < |rows| ==> Distinct(rows[r]))
  }

  ghost predicate Ascending(row: seq<nat>) {
    forall j, k :: 0 <= j < k < |row| ==> row[j] < row[k]
  }

  method BucketByLayer(layer: seq<nat>, layerCount: nat) returns (rows: seq<seq<nat>>)
    requires forall v :: 0 <= v < |layer| ==> layer[v] < layerCount
    ensures RowsMatch(rows, layer, layerCount)
    ensures forall r :: 0 <= r < |rows| ==> Ascending(rows[r])
  {
    rows := seq(layerCount, _ => []);
    for i := 0 to |layer|
      invariant |rows| == layerCount
      invariant forall r, k :: 0 <= r < |rows| && 0 <= k < |rows[r]| ==> rows[r][k] < i && layer[rows[r][k]] == r
      invariant forall v :: 0 <= v < i ==> v in rows[layer[v]]
      invariant forall r :: 0 <= r < |rows| ==> Ascending(rows[r])
    {
      rows := rows[layer[i] := rows[layer[i]] + [i]];
    }
  }

  // ---------- Barycentres ----------

  datatype Pull = Pull(sum: real, count: nat)

  /** Total and number of the centres the first k incoming forward edges come from. */
  ghost function PullOf(g: Graph, back: seq<bool>, centre: seq<real>, v: nat, k: nat): Pull
    requires WellFormed(g) && IncomingIndexed(g) && |back| == |g.edges| && |centre| == g.count
    requires v < g.count && k <= |g.incoming[v]|
  {
    if k == 0 then Pull(0.0, 0)
    else
      var e := g.incoming[v][k - 1];
      var p := PullOf(g, back, centre, v, k - 1);
      if back[e] then p else Pull(p.sum + centre[g.edges[e].source], p.count + 1)
  }

  /** The mean centre of v's forward predecessors, or its own index without any. */
  ghost function Barycentre(g: Graph, back: seq<bool>, centre: seq<real>, v: nat): real
    requires WellFormed(g) && IncomingIndexed(g) && |back| == |g.edges| && |centre| == g.count && v < g.count
  {
    var p := PullOf(g, back, centre, v, |g.incoming[v]|);
    if p.count == 0 then v as real else p.sum / (p.count as real)
  }

  /** Only centres of forward predecessors matter. */
  lemma {:induction false} PullReadsPredecessors(g: Graph, back: seq<bool>, a: seq<real>, b: seq<real>, v: nat, k: nat)
    requires WellFormed(g) && IncomingIndexed(g) && |back| == |g.edges| && |a| == |b| == g.count
    requires v < g.count && k <= |g.incoming[v]|
    requires forall e :: 0 <= e < |g.edges| && Forward(g, back, e) && g.edges[e].target == Some(v) ==>
      a[g.edges[e].source] == b[g.edges[e].source]
    ensures PullOf(g, back, a, v, k) == PullOf(g, back, b, v, k)
  {
    if k > 0 {
      PullReadsPredecessors(g, back, a, b, v, k - 1);
      assert !back[g.incoming[v][k - 1]] ==> Forward(g, back, g.incoming[v][k - 1]);
    }
  }

  /** e is a forward edge into v. */
  predicate ForwardInto(g: Graph, back: seq<bool>, e: nat, v: nat)
    requires |back| == |g.edges|
  {
    Forward(g, back, e) && g.edges[e].target == Some(v)
  }

  /** All centres that pull at v lie between these. */
  ghost predicate Pulls(g: Graph, back: seq<bool>, centre: seq<real>, v: nat, low: real, high: real)
    requires WellFormed(g) && |back| == |g.edges| && |centre| == g.count
  {
    forall e :: 0 <= e < |g.edges| && ForwardInto(g, back, e, v) ==> low <= centre[g.edges[e].source] <= high
  }

  lemma EntersAt(g: Graph, v: nat, k: nat)
    requires WellFormed(g) && IncomingIndexed(g) && v < g.count && k < |g.incoming[v]|
    ensures |g.incoming| == g.count && g.incoming[v][k] < |g.edges|
    ensures g.edges[g.incoming[v][k]].target == Some(v) && g.edges[g.incoming[v][k]].source < g.count
  {
  }

  lemma {:induction false} PullBetween(g: Graph, back: seq<bool>, centre: seq<real>, v: nat, k: nat,
                                       low: real, high: real)
    requires WellFormed(g) && IncomingIndexed(g) && |back| == |g.edges| && |centre| == g.count
    requires v < g.count && k <= |g.incoming[v]| && Pulls(g, back, centre, v, low, high)
    ensures Between(PullOf(g, back, centre, v, k), low, high)
  {
    hide OutgoingIndexed, TargetsInRange, IncomingIndexed, Between;
    NothingPulls(low, high);
    if k > 0 {
      EntersAt(g, v, k - 1);
      PullBetween(g, back, centre, v, k - 1, low, high);
      var e := g.incoming[v][k - 1];
      assert !back[e] ==> ForwardInto(g, back, e, v);
      OneMorePulls(PullOf(g, back, centre, v, k - 1), centre[g.edges[e].source], low, high);
    }
  }

  lemma {:induction false} PullCounts(g: Graph, back: seq<bool>, centre: seq<real>, v: nat, k: nat)
    requires WellFormed(g) && IncomingIndexed(g) && |back| == |g.edges| && |centre| == g.count
    requires v < g.count && k <= |g.incoming[v]|
    ensures PullOf(g, back, centre, v, k).count == 0 <==>
              forall j :: 0 <= j < k ==> !ForwardInto(g, back, g.incoming[v][j], v)
  {
    if k > 0 {
      EntersAt(g, v, k - 1);
      PullCounts(g, back, centre, v, k - 1);
    }
  }

  /** The mean, if there is one, lies between these. */
  ghost predicate Between(p: Pull, low: real, high: real) {
    low * p.count as real <= p.sum <= high * p.count as real
  }

  lemma NothingPulls(low: real, high: real)
    ensures Between(Pull(0.0, 0), low, high)
  {
  }

  lemma OneMorePulls(p: Pull, centre: real, low: real, high: real)
    requires Between(p, low, high)
    ensures low <= centre <= high ==> Between(Pull(p.sum + centre, p.count + 1), low, high)
  {
    var n := p.count as real;
    assert (p.count + 1) as real == n + 1.0;
    assert low * (n + 1.0) == low * n + low && high * (n + 1.0) == high * n + high;
  }

  /**
   A barycentre lies among the centres of the forward predecessors; with one predecessor, or several
   at one centre, it is that centre, and without any it is the block's index.
   */
  lemma BarycentreBetween(g: Graph, back: seq<bool>, centre: seq<real>, v: nat, low: real, high: real)
    requires WellFormed(g) && IncomingIndexed(g) && |back| == |g.edges| && |centre| == g.count && v < g.count
    requires Pulls(g, back, centre, v, low, high)
    ensures (exists e :: 0 <= e < |g.edges| && ForwardInto(g, back, e, v)) ==>
              low <= Barycentre(g, back, centre, v) <= high
    ensures (forall e :: 0 <= e < |g.edges| ==> !ForwardInto(g, back, e, v)) ==>
              Barycentre(g, back, centre, v) == v as real
  {
    hide OutgoingIndexed, TargetsInRange, Between, Pulls;
    var n := |g.incoming[v]|;
    PullBetween(g, back, centre, v, n, low, high);
    PullCounts(g, back, centre, v, n);
    var p := PullOf(g, back, centre, v, n);
    if e :| 0 <= e < |g.edges| && ForwardInto(g, back, e, v) {
      var j :| 0 <= j < n && g.incoming[v][j] == e;
      assert p.count > 0;
      Divided(p, low, high);
    }
  }

  lemma Divided(p: Pull, low: real, high: real)
    requires p.count > 0 && Between(p, low, high)
    ensures low <= p.sum / (p.count as real) <= high
  {
    assert p.sum == (p.sum / (p.count as real)) * (p.count as real);
  }

  method ComputeBarycentre(g: Graph, back: seq<bool>, centre: seq<real>, v: nat) returns (key: real)
    requires WellFormed(g) && IncomingIndexed(g) && |back| == |g.edges| && |centre| == g.count && v < g.count
    ensures key == Barycentre(g, back, centre, v)
  {
    var sum, count := 0.0, 0;
    for k := 0 to |g.incoming[v]|
      invariant Pull(sum, count) == PullOf(g, back, centre, v, k)
    {
      var e := g.incoming[v][k];
      if !back[e] {
        sum, count := sum + centre[g.edges[e].source], count + 1;
      }
    }
    key := if count == 0 then v as real else sum / (count as real);
  }

  // ---------- Stable sort ----------

  /** The order a stable sort by key gives to indices listed in increasing order. */
  predicate Before(key: seq<real>, a: nat, b: nat)
    requires a < |key| && b < |key|
  {
    key[a] < key[b] || (key[a] == key[b] && a < b)
  }

  ghost predicate SortedBy(key: seq<real>, row: seq<nat>) {
    && (forall k :: 0 <= k < |row| ==> row[k] < |key|)
    && (forall j, k :: 0 <= j < k < |row| ==> Before(key, row[j], row[k]))
  }

  /** `std::stable_sort` on an increasing index list, as a stable insertion sort. */
  method StableSort(row: seq<nat>, key: seq<real>) returns (sorted: seq<nat>)
    requires Ascending(row) && forall k :: 0 <= k < |row| ==> row[k] < |key|
    ensures SortedBy(key, sorted)
    ensures (forall v :: v in sorted <==> v in row) && Distinct(sorted)
  {
    sorted := [];
    for i := 0 to |row|
      invariant SortedBy(key, sorted) && Elements(sorted) == Elements(row[..i])
      invariant forall k :: 0 <= k < |sorted| && i < |row| ==> sorted[k] < row[i]
    {
      var at := |sorted|;
      while at > 0 && key[row[i]] < key[sorted[at - 1]]
        invariant 0 <= at <= |sorted|
        invariant forall k :: at <= k < |sorted| ==> key[row[i]] < key[sorted[k]]
      {
        at := at - 1;
      }
      InsertSorted(key, sorted, row[i], at);
      InsertElements(sorted, row[i], at);
      InsertElements(row[..i], row[i], i);
      assert row[..i + 1] == row[..i][..i] + [row[i]] + row[..i][i..];
      sorted := sorted[..at] + [row[i]] + sorted[at..];
    }
    assert row[..|row|] == row;
    SameElements(sorted, row);
  }

  lemma SameElements(s: seq<nat>, t: seq<nat>)
    requires Elements(s) == Elements(t)
    ensures forall v :: v in s <==> v in t
  {
    assert forall v :: v in s <==> v in Elements(s);
    assert forall v :: v in t <==> v in Elements(t);
  }

  lemma InsertElements(s: seq<nat>, v: nat, at: nat)
    requires at <= |s|
    ensures Elements(s[..at] + [v] + s[at..]) == Elements(s) + {v}
  {
    assert s == s[..at] + s[at..];
    assert forall x :: x in s[..at] + [v] + s[at..] <==> x in s || x == v;
  }

  lemma InsertSorted(key: seq<real>, sorted: seq<nat>, v: nat, at: nat)
    requires SortedBy(key, sorted) && v < |key| && at <= |sorted|
    requires forall k :: 0 <= k < |sorted| ==> sorted[k] < v
    requires forall k :: at <= k < |sorted| ==> key[v] < key[sorted[k]]
    requires at > 0 ==> key[sorted[at - 1]] <= key[v]
    ensures SortedBy(key, sorted[..at] + [v] + sorted[at..])
  {
    forall k | 0 <= k < at ensures Before(key, sorted[k], v) {
      if k < at - 1 {
        assert Before(key, sorted[k], sorted[at - 1]);
      }
    }
  }

  // ---------- One row ----------

  /** Everything placement is given. */
  datatype Cards = Cards(g: Graph, back: seq<bool>, layer: seq<nat>, size: seq<Point>, columnGap: real, layerGap: real)
  {
    ghost predicate Valid() {
      && WellFormed(g) && IncomingIndexed(g) && |back| == |g.edges|
      && |layer| == |size| == g.count && Rising(g, back, layer)
      && (forall v :: 0 <= v < |size| ==> 0.0 < size[v].x && 0.0 < size[v].y)
      && 0.0 < columnGap && 0.0 < layerGap
    }
  }

  /** Everything placement computes; `order` ends up holding the card centres. */
  datatype Placing = Placing(position: seq<Point>, order: seq<real>, layerTop: seq<real>, layerBottom: seq<real>,
                             left: real, right: real, top: real)

  /** Sum of card widths, each with the gap that follows it. */
  ghost function Extent(size: seq<Point>, gap: real, row: seq<nat>): real
    requires forall k :: 0 <= k < |row| ==> row[k] < |size|
  {
    if row == [] then 0.0
    else Extent(size, gap, row[..|row| - 1]) + size[row[|row| - 1]].x + gap
  }

  lemma {:induction false} ExtentGrows(size: seq<Point>, gap: real, row: seq<nat>, k: nat)
    requires forall j :: 0 <= j < |row| ==> row[j] < |size|
    requires forall v :: 0 <= v < |size| ==> 0.0 < size[v].x
    requires 0.0 < gap && k < |row|
    ensures 0.0 <= Extent(size, gap, row[..k])
    ensures Extent(size, gap, row[..k]) + size[row[k]].x + gap <= Extent(size, gap, row)
    decreases |row|
  {
    var front := row[..|row| - 1];
    if k < |front| {
      ExtentGrows(size, gap, front, k);
      assert front[..k] == row[..k];
    } else {
      assert front == row[..k];
      if k > 0 {
        ExtentGrows(size, gap, front, 0);
        assert front[..0] == [];
      }
    }
  }

  /** Centre coordinates of lower layers fix the barycentre of a block. */
  lemma BarycentreStable(c: Cards, a: seq<real>, b: seq<real>, v: nat)
    requires c.Valid() && |a| == |b| == c.g.count && v < c.g.count
    requires forall u :: 0 <= u < c.g.count && c.layer[u] < c.layer[v] ==> a[u] == b[u]
    ensures Barycentre(c.g, c.back, a, v) == Barycentre(c.g, c.back, b, v)
  {
    PullReadsPredecessors(c.g, c.back, a, b, v, |c.g.incoming[v]|);
  }

  /** Overwrite the order of every block of one layer with its barycentre. */
  method KeyRow(c: Cards, row: seq<nat>, r: nat, order0: seq<real>) returns (order: seq<real>)
    requires c.Valid() && |order0| == c.g.count
    requires forall k :: 0 <= k < |row| ==> row[k] < c.g.count && c.layer[row[k]] == r
    ensures |order| == c.g.count
    ensures forall u :: 0 <= u < c.g.count && c.layer[u] != r ==> order[u] == order0[u]
    ensures forall k :: 0 <= k < |row| ==> order[row[k]] == Barycentre(c.g, c.back, order0, row[k])
  {
    order := order0;
    for i := 0 to |row|
      invariant |order| == c.g.count
      invariant forall u :: 0 <= u < c.g.count && c.layer[u] != r ==> order[u] == order0[u]
      invariant forall k :: 0 <= k < i ==> order[row[k]] == Barycentre(c.g, c.back, order0, row[k])
    {
      BarycentreStable(c, order, order0, row[i]);
      var key := ComputeBarycentre(c.g, c.back, order, row[i]);
      order := order[row[i] := key];
    }
  }

  /** The width of all cards with the gaps between them, and a height that no card exceeds. */
  ghost predicate RowMeasured(c: Cards, row: seq<nat>, width: real, height: real)
    requires forall k :: 0 <= k < |row| ==> row[k] < |c.size|
  {
    && (row != [] ==> width == Extent(c.size, c.columnGap, row) - c.columnGap)
    && (row == [] ==> width == 0.0)
    && 0.0 <= height && forall k :: 0 <= k < |row| ==> c.size[row[k]].y <= height
  }

  method MeasureRow(c: Cards, row: seq<nat>) returns (width: real, height: real)
    requires c.Valid() && forall k :: 0 <= k < |row| ==> row[k] < c.g.count
    ensures RowMeasured(c, row, width, height)
  {
    width, height := if row == [] then 0.0 else -c.columnGap, 0.0;
    for i := 0 to |row|
      invariant row != [] ==> width == Extent(c.size, c.columnGap, row[..i]) - c.columnGap
      invariant row == [] ==> width == 0.0
      invariant 0.0 <= height && forall k :: 0 <= k < i ==> c.size[row[k]].y <= height
    {
      width := width + c.size[row[i]].x + c.columnGap;
      height := MaxReal(height, c.size[row[i]].y);
      assert row[..i + 1][..i] == row[..i];
    }
    assert row[..|row|] == row;
  }

  /** Where the k-th card of a row starts. */
  ghost function LeftOf(c: Cards, row: seq<nat>, start: real, k: nat): real
    requires k <= |row| && forall j :: 0 <= j < |row| ==> row[j] < |c.size|
  {
    start + Extent(c.size, c.columnGap, row[..k])
  }

  ghost predicate RowLaid(c: Cards, p: Placing, row: seq<nat>, start: real, top: real, k: nat)
    requires |p.position| == |p.order| == |c.size| && k <= |row|
    requires forall j :: 0 <= j < |row| ==> row[j] < |c.size|
  {
    forall j :: 0 <= j < k ==>
      && p.position[row[j]] == Point(LeftOf(c, row, start, j), top)
      && p.order[row[j]] == p.position[row[j]].x + c.size[row[j]].x * 0.5
  }

  method LayRow(c: Cards, row: seq<nat>, r: nat, start: real, top: real, p0: Placing) returns (p: Placing)
    requires c.Valid() && |p0.position| == |p0.order| == c.g.count && Distinct(row)
    requires forall k :: 0 <= k < |row| ==> row[k] < c.g.count && c.layer[row[k]] == r
    ensures p == p0.(position := p.position, order := p.order) && |p.position| == |p.order| == c.g.count
    ensures forall u :: 0 <= u < c.g.count && c.layer[u] != r ==>
              p.position[u] == p0.position[u] && p.order[u] == p0.order[u]
    ensures RowLaid(c, p, row, start, top, |row|)
  {
    p := p0;
    var left := start;
    for i := 0 to |row|
      invariant p == p0.(position := p.position, order := p.order) && |p.position| == |p.order| == c.g.count
      invariant forall u :: 0 <= u < c.g.count && c.layer[u] != r ==>
                  p.position[u] == p0.position[u] && p.order[u] == p0.order[u]
      invariant left == LeftOf(c, row, start, i)
      invariant RowLaid(c, p, row, start, top, i)
    {
      var v := row[i];
      p := p.(position := p.position[v := Point(left, top)],
              order := p.order[v := left + c.size[v].x * 0.5]);
      left := left + (c.size[v].x + c.columnGap);
      assert row[..i + 1][..i] == row[..i];
    }
  }

  // ---------- All rows ----------

  /** A card sits in its layer's band, inside the row extent, with its centre recorded. */
  ghost predicate Fits(c: Cards, p: Placing, v: nat)
    requires c.Valid() && |p.position| == |p.order| == c.g.count && v < c.g.count
    requires c.layer[v] < |p.layerTop| == |p.layerBottom|
  {
    && p.position[v].y == p.layerTop[c.layer[v]]
    && p.position[v].y + c.size[v].y <= p.layerBottom[c.layer[v]]
    && p.left <= p.position[v].x && p.position[v].x + c.size[v].x <= p.right
    && p.order[v] == p.position[v].x + c.size[v].x * 0.5
  }

  /** The barycentre of a card, from the final centres. */
  ghost function Key(c: Cards, p: Placing, v: nat): real
    requires c.Valid() && |p.order| == c.g.count && v < c.g.count
  {
    Barycentre(c.g, c.back, p.order, v)
  }

  ghost predicate KeyBefore(c: Cards, p: Placing, a: nat, b: nat)
    requires c.Valid() && |p.order| == c.g.count && a < c.g.count && b < c.g.count
  {
    Key(c, p, a) < Key(c, p, b) || (Key(c, p, a) == Key(c, p, b) && a < b)
  }

  /** Two cards of one layer stand in barycentre order, a column gap apart. */
  ghost predicate InOrder(c: Cards, p: Placing, a: nat, b: nat)
    requires c.Valid() && |p.position| == |p.order| == c.g.count && a < c.g.count && b < c.g.count
  {
    KeyBefore(c, p, a, b) ==> p.position[a].x + c.size[a].x + c.columnGap <= p.position[b].x
  }

  /** Band k starts a layer gap below band k - 1. */
  ghost predicate Follows(c: Cards, p: Placing, k: nat)
    requires 0 < k < |p.layerTop| == |p.layerBottom|
  {
    p.layerTop[k] == p.layerBottom[k - 1] + c.layerGap
  }

  /** Bands follow each other from y = 0 downwards, a layer gap apart. */
  ghost predicate Bands(c: Cards, p: Placing)
  {
    && |p.layerTop| == |p.layerBottom|
    && (forall k :: 0 <= k < |p.layerTop| ==> p.layerTop[k] <= p.layerBottom[k])
    && (forall k :: 0 < k < |p.layerTop| ==> Follows(c, p, k))
    && (|p.layerTop| > 0 ==> p.layerTop[0] == 0.0)
    && p.top == if |p.layerTop| == 0 then 0.0 else p.layerBottom[|p.layerTop| - 1] + c.layerGap
  }

  ghost predicate Placed(c: Cards, p: Placing)
    requires c.Valid()
  {
    && |p.position| == |p.order| == c.g.count && Bands(c, p)
    && p.left <= 0.0 <= p.right
    && (forall v :: 0 <= v < c.g.count && c.layer[v] < |p.layerTop| ==> Fits(c, p, v))
    && (forall a, b :: 0 <= a < c.g.count && 0 <= b < c.g.count && c.layer[a] == c.layer[b] < |p.layerTop| ==>
          InOrder(c, p, a, b))
  }

  method PlaceCards(c: Cards, layerCount: nat) returns (p: Placing)
    requires c.Valid() && LayersUsed(c.layer, layerCount)
    ensures Placed(c, p) && |p.layerTop| == layerCount
  {
    var rows := BucketByLayer(c.layer, layerCount);
    p := Placing(seq(c.g.count, _ => Point(0.0, 0.0)), seq(c.g.count, _ => 0.0), [], [], 0.0, 0.0, 0.0);
    for r := 0 to layerCount
      invariant Placed(c, p) && |p.layerTop| == r
    {
      p := PlaceLayer(c, rows[r], r, p);
    }
  }

  /** One turn of the layer loop: key, sort, measure and lay out one row. */
  method PlaceLayer(c: Cards, row: seq<nat>, r: nat, p0: Placing) returns (p: Placing)
    requires c.Valid() && Placed(c, p0) && |p0.layerTop| == r
    requires Ascending(row) && (forall k :: 0 <= k < |row| ==> row[k] < c.g.count && c.layer[row[k]] == r)
    requires forall v :: 0 <= v < c.g.count && c.layer[v] == r ==> v in row
    ensures Placed(c, p) && |p.layerTop| == r + 1
  {
    hide Distinct, Follows, Fits, InOrder, RowKeyed, RowMeasured, RowLaid;
    var order, sorted := SortLayer(c, row, r, p0.order);
    var width, height := MeasureRow(c, sorted);
    var keyed := p0.(order := order, layerTop := p0.layerTop + [p0.top],
                     layerBottom := p0.layerBottom + [p0.top + height]);
    var laid := LayRow(c, sorted, r, -width * 0.5, p0.top, keyed);
    p := laid.(left := MinReal(p0.left, -width * 0.5), right := MaxReal(p0.right, width * 0.5),
            top := p0.top + (height + c.layerGap));
    RowLaidSame(c, laid, p, sorted, -width * 0.5, p0.top);
    KeyedElsewhere(c, sorted, r, order, p0.order);
    LayerPlaced(c, sorted, r, order, p0, p, width, height);
  }

  /** Where a row lies is a matter of positions and centres only. */
  lemma RowLaidSame(c: Cards, q: Placing, p: Placing, row: seq<nat>, start: real, top: real)
    requires |q.position| == |q.order| == |c.size| && p.position == q.position && p.order == q.order
    requires (forall j :: 0 <= j < |row| ==> row[j] < |c.size|) && RowLaid(c, q, row, start, top, |row|)
    ensures RowLaid(c, p, row, start, top, |row|)
  {
  }

  /** The blocks of layer r, sorted by the barycentres that the centres so far give them. */
  ghost predicate RowKeyed(c: Cards, row: seq<nat>, r: nat, order: seq<real>, order0: seq<real>)
    requires c.Valid() && |order| == |order0| == c.g.count
    requires forall k :: 0 <= k < |row| ==> row[k] < c.g.count
  {
    && (forall u :: 0 <= u < c.g.count && c.layer[u] != r ==> order[u] == order0[u])
    && (forall v :: 0 <= v < c.g.count && c.layer[v] == r ==> v in row)
    && (forall k :: 0 <= k < |row| ==> order[row[k]] == Barycentre(c.g, c.back, order0, row[k]))
    && SortedBy(order, row)
  }

  lemma KeyedElsewhere(c: Cards, row: seq<nat>, r: nat, order: seq<real>, order0: seq<real>)
    requires c.Valid() && |order| == |order0| == c.g.count
    requires (forall k :: 0 <= k < |row| ==> row[k] < c.g.count) && RowKeyed(c, row, r, order, order0)
    ensures forall u :: 0 <= u < c.g.count && c.layer[u] != r ==> order[u] == order0[u]
  {
  }

  /** Key the blocks of a layer by barycentre and sort its row by key. */
  method SortLayer(c: Cards, row: seq<nat>, r: nat, order0: seq<real>) returns (order: seq<real>, sorted: seq<nat>)
    requires c.Valid() && |order0| == c.g.count
    requires Ascending(row) && (forall k :: 0 <= k < |row| ==> row[k] < c.g.count && c.layer[row[k]] == r)
    requires forall v :: 0 <= v < c.g.count && c.layer[v] == r ==> v in row
    ensures |order| == c.g.count && Distinct(sorted)
    ensures forall k :: 0 <= k < |sorted| ==> sorted[k] < c.g.count && c.layer[sorted[k]] == r
    ensures RowKeyed(c, sorted, r, order, order0)
  {
    order := KeyRow(c, row, r, order0);
    sorted := StableSort(row, order);
    forall k | 0 <= k < |sorted|
      ensures sorted[k] < c.g.count && c.layer[sorted[k]] == r
      ensures order[sorted[k]] == Barycentre(c.g, c.back, order0, sorted[k])
    {
      assert sorted[k] in row;
    }
  }

  /** The row just laid out, with everything known about it. */
  ghost predicate Laid(c: Cards, row: seq<nat>, r: nat, order: seq<real>, p0: Placing, p: Placing, width: real,
                       height: real)
    requires c.Valid()
  {
    && |p.position| == |p.order| == |p0.position| == |p0.order| == |order| == c.g.count
    && |p0.layerTop| == |p0.layerBottom| == r
    && p.layerTop == p0.layerTop + [p0.top] && p.layerBottom == p0.layerBottom + [p0.top + height]
    && p.left == MinReal(p0.left, -width * 0.5) && p.right == MaxReal(p0.right, width * 0.5)
    && p.top == p0.top + (height + c.layerGap)
    && (forall k :: 0 <= k < |row| ==> row[k] < c.g.count && c.layer[row[k]] == r)
    && RowKeyed(c, row, r, order, p0.order) && RowMeasured(c, row, width, height)
    && (forall u :: 0 <= u < c.g.count && c.layer[u] != r ==>
          p.position[u] == p0.position[u] && p.order[u] == p0.order[u])
    && RowLaid(c, p, row, -width * 0.5, p0.top, |row|)
  }

  lemma NewCardFits(c: Cards, row: seq<nat>, r: nat, order: seq<real>, p0: Placing, p: Placing, width: real,
                    height: real, k: nat)
    requires c.Valid() && Laid(c, row, r, order, p0, p, width, height) && k < |row|
    ensures Fits(c, p, row[k])
  {
    ExtentGrows(c.size, c.columnGap, row, k);
  }

  lemma NewCardsInOrder(c: Cards, row: seq<nat>, r: nat, order: seq<real>, p0: Placing, p: Placing, width: real,
                        height: real, j: nat, k: nat)
    requires c.Valid() && Laid(c, row, r, order, p0, p, width, height) && j < |row| && k < |row|
    ensures InOrder(c, p, row[j], row[k])
  {
    NewCardKey(c, row, r, order, p0, p, width, height, j);
    NewCardKey(c, row, r, order, p0, p, width, height, k);
    if j < k {
      RowGap(c, p, row, -width * 0.5, p0.top, j, k);
    } else if k < j {
      assert Before(order, row[k], row[j]);
    }
  }

  /** The key a card was sorted by is its barycentre over the final centres. */
  lemma NewCardKey(c: Cards, row: seq<nat>, r: nat, order: seq<real>, p0: Placing, p: Placing, width: real,
                   height: real, k: nat)
    requires c.Valid() && Laid(c, row, r, order, p0, p, width, height) && k < |row|
    ensures Key(c, p, row[k]) == order[row[k]]
  {
    BarycentreStable(c, p.order, p0.order, row[k]);
  }

  lemma RowGap(c: Cards, p: Placing, row: seq<nat>, start: real, top: real, j: nat, k: nat)
    requires c.Valid() && |p.position| == |p.order| == c.g.count && j < k < |row|
    requires forall i :: 0 <= i < |row| ==> row[i] < c.g.count
    requires RowLaid(c, p, row, start, top, |row|)
    ensures p.position[row[j]].x + c.size[row[j]].x + c.columnGap <= p.position[row[k]].x
  {
    ExtentGrows(c.size, c.columnGap, row[..k], j);
    assert row[..k][..j] == row[..j];
  }

  lemma OldCardsInOrder(c: Cards, row: seq<nat>, r: nat, order: seq<real>, p0: Placing, p: Placing, width: real,
                        height: real, a: nat, b: nat)
    requires c.Valid() && Laid(c, row, r, order, p0, p, width, height)
    requires a < c.g.count && b < c.g.count && c.layer[a] == c.layer[b] < r
    requires InOrder(c, p0, a, b)
    ensures InOrder(c, p, a, b)
  {
    BarycentreStable(c, p.order, p0.order, a);
    BarycentreStable(c, p.order, p0.order, b);
  }

  lemma BandsExtended(c: Cards, p0: Placing, p: Placing, height: real)
    requires Bands(c, p0) && 0.0 <= height
    requires p.layerTop == p0.layerTop + [p0.top] && p.layerBottom == p0.layerBottom + [p0.top + height]
    requires p.top == p0.top + (height + c.layerGap)
    ensures Bands(c, p)
  {
    forall k | 0 < k < |p.layerTop| ensures Follows(c, p, k) {
      assert k < |p0.layerTop| ==> Follows(c, p0, k);
    }
  }

  lemma LayerPlaced(c: Cards, row: seq<nat>, r: nat, order: seq<real>, p0: Placing, p: Placing, width: real,
                    height: real)
    requires c.Valid() && Placed(c, p0) && Laid(c, row, r, order, p0, p, width, height)
    ensures Placed(c, p)
  {
    BandsExtended(c, p0, p, height);
    if row != [] {
      ExtentGrows(c.size, c.columnGap, row, 0);
    }
    forall v | 0 <= v < c.g.count && c.layer[v] < |p.layerTop| ensures Fits(c, p, v) {
      if c.layer[v] == r {
        var k :| 0 <= k < |row| && row[k] == v;
        NewCardFits(c, row, r, order, p0, p, width, height, k);
      } else {
        assert Fits(c, p0, v);
      }
    }
    forall a, b | 0 <= a < c.g.count && 0 <= b < c.g.count && c.layer[a] == c.layer[b] < |p.layerTop|
      ensures InOrder(c, p, a, b)
    {
      if c.layer[a] == r {
        var j :| 0 <= j < |row| && row[j] == a;
        var k :| 0 <= k < |row| && row[k] == b;
        NewCardsInOrder(c, row, r, order, p0, p, width, height, j, k);
      } else {
        OldCardsInOrder(c, row, r, order, p0, p, width, height, a, b);
      }
    }
  }
}
