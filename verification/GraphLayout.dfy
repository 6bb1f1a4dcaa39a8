/**
 The whole layout: measure cards, collect edges, mark back edges, assign layers,
 place cards, route edges.
 */
module GraphLayout {
  import opened GraphModel
  import opened DepthFirst
  import opened Layering
  import opened Placement
  import opened Routing

  // ---------- Card sizes ----------

  /**
   One instruction row as measured: text widths, and the height its annotation
   takes once wrapped to the card (no annotation leaves the row height alone).
   */
  datatype TextRow = TextRow(instructionWidth: real, annotationWidth: real, annotated: bool, wrappedHeight: real)

  datatype RowBox = RowBox(offset: real, height: real)

  function Ceil(x: real): (r: real)
    ensures x <= r < x + 1.0
  {
    -((-x).Floor as real)
  }

  datatype Metrics = Metrics(fontSize: real, addressWidth: real)
  {
    ghost predicate Valid() { 0.0 < fontSize && 0.0 <= addressWidth }
    function Padding(): real { fontSize * 0.65 }
    function RowHeight(): real { Ceil(fontSize * 1.4) }
    function HeaderHeight(): real { RowHeight() + Padding() }
    function ColumnGap(): real { fontSize * 4.0 }
    function LayerGap(): real { fontSize * 6.0 }
  }

  /** Row k starts where row k - 1 ends. */
  ghost predicate Abuts(boxes: seq<RowBox>, k: nat)
    requires 0 < k < |boxes|
  {
    boxes[k - 1].offset + boxes[k - 1].height == boxes[k].offset
  }

  /** The rows fill the card body below the header, stacked without overlap. */
  ghost predicate RowsStacked(m: Metrics, boxes: seq<RowBox>, size: Point) {
    && (forall k :: 0 <= k < |boxes| ==> 0.0 <= boxes[k].offset && m.RowHeight() <= boxes[k].height)
    && (forall k :: 0 < k < |boxes| ==> Abuts(boxes, k))
    && (boxes != [] ==> boxes[0].offset == 0.0)
    && size.y == m.HeaderHeight() + m.Padding()
                 + (if boxes == [] then 0.0 else boxes[|boxes| - 1].offset + boxes[|boxes| - 1].height)
  }

  /** The widest text of a card, or nothing for a card without texts. */
  ghost predicate Widest(rows: seq<TextRow>, width: real) {
    && 0.0 <= width
    && (forall k :: 0 <= k < |rows| ==> rows[k].instructionWidth <= width && rows[k].annotationWidth <= width)
    && (width == 0.0 || exists k ::
          0 <= k < |rows| && (width == rows[k].instructionWidth || width == rows[k].annotationWidth))
  }

  /** The card is as wide as its widest text asks, between a minimum and a cap. */
  ghost predicate WidthFits(m: Metrics, rows: seq<TextRow>, width: real) {
    exists text :: Widest(rows, text)
      && width == MaxReal(m.fontSize * 25.0, m.addressWidth + m.Padding() * 5.0 + MinReal(text, m.fontSize * 52.0))
  }

  /** The size of a card and the boxes of its rows follow from its texts. */
  ghost predicate Measured(m: Metrics, rows: seq<TextRow>, size: Point, boxes: seq<RowBox>) {
    && WidthFits(m, rows, size.x) && 0.0 < size.y && |boxes| == |rows| && RowsStacked(m, boxes, size)
    && forall k :: 0 <= k < |rows| ==> boxes[k].height == HeightOf(m, rows[k])
  }

  method MeasureCard(m: Metrics, rows: seq<TextRow>) returns (size: Point, boxes: seq<RowBox>)
    requires m.Valid() && forall k :: 0 <= k < |rows| ==> 0.0 <= rows[k].wrappedHeight
    ensures m.fontSize * 25.0 <= size.x
    ensures forall k :: 0 <= k < |rows| && rows[k].instructionWidth <= m.fontSize * 52.0 ==>
              m.addressWidth + m.Padding() * 5.0 + rows[k].instructionWidth <= size.x
    ensures Measured(m, rows, size, boxes)
  {
    var textWidth := WidestText(rows);
    var width := MaxReal(m.fontSize * 25.0, m.addressWidth + m.Padding() * 5.0 + MinReal(textWidth, m.fontSize * 52.0));
    var body;
    boxes, body := StackRows(m, rows, width);
    size := Point(width, m.HeaderHeight() + m.Padding() + body);
  }

  method WidestText(rows: seq<TextRow>) returns (textWidth: real)
    ensures Widest(rows, textWidth)
  {
    textWidth := 0.0;
    for i := 0 to |rows|
      invariant Widest(rows[..i], textWidth)
    {
      ghost var before := textWidth;
      textWidth := MaxReal(textWidth, MaxReal(rows[i].instructionWidth, rows[i].annotationWidth));
      OneWider(rows[..i], rows[i], before, textWidth);
      assert rows[..i] + [rows[i]] == rows[..i + 1];
    }
    assert rows[..|rows|] == rows;
  }

  lemma OneWider(rows: seq<TextRow>, row: TextRow, before: real, width: real)
    requires Widest(rows, before) && width == MaxReal(before, MaxReal(row.instructionWidth, row.annotationWidth))
    ensures Widest(rows + [row], width)
  {
    var all := rows + [row];
    if width != 0.0 {
      if width == before {
        var k :| 0 <= k < |rows| && (before == rows[k].instructionWidth || before == rows[k].annotationWidth);
        assert all[k] == rows[k];
      } else {
        assert all[|rows|] == row;
      }
    }
  }

  function HeightOf(m: Metrics, row: TextRow): real {
    m.RowHeight() + if row.annotated then row.wrappedHeight + m.fontSize * 0.45 else 0.0
  }

  method StackRows(m: Metrics, rows: seq<TextRow>, width: real) returns (boxes: seq<RowBox>, body: real)
    requires m.Valid() && forall k :: 0 <= k < |rows| ==> 0.0 <= rows[k].wrappedHeight
    ensures |boxes| == |rows| && 0.0 <= body
    ensures RowsStacked(m, boxes, Point(width, m.HeaderHeight() + m.Padding() + body))
    ensures forall k :: 0 <= k < |rows| ==> boxes[k].height == HeightOf(m, rows[k])
  {
    boxes, body := [], 0.0;
    for i := 0 to |rows|
      invariant |boxes| == i && 0.0 <= body
      invariant RowsStacked(m, boxes, Point(width, m.HeaderHeight() + m.Padding() + body))
      invariant forall k :: 0 <= k < i ==> boxes[k].height == HeightOf(m, rows[k])
    {
      ghost var before := boxes;
      boxes := boxes + [RowBox(body, HeightOf(m, rows[i]))];
      body := body + HeightOf(m, rows[i]);
      forall k | 0 < k < |boxes| ensures Abuts(boxes, k) {
        assert k < |before| ==> Abuts(before, k);
      }
    }
  }

  // ---------- The layout object ----------

  /** Back marks are exactly what layering needs, and no more. */
  ghost predicate LoopsMarked(g: Graph, back: seq<bool>)
    requires |back| == |g.edges|
  {
    && BackClosesCycle(g, back)
    && !HasCycle(g, Skipped(back))
    && (!HasCycle(g, {}) ==> forall e :: 0 <= e < |back| ==> !back[e])
    && MarksGuided(g, back) && MarksFollowDominance(g, back)
  }

  class DisassemblyGraphLayout {
    var cards: Cards
    var rowBoxes: seq<seq<RowBox>>
    var placing: Placing
    var routes: seq<Route>
    var bounds: Bounds

    constructor ()
    {
      cards := Cards(Graph(0, [], [], []), [], [], [], 0.0, 0.0);
      rowBoxes, routes := [], [];
      placing := Placing([], [], [], [], 0.0, 0.0, 0.0);
      bounds := Bounds(Point(0.0, 0.0), Point(0.0, 0.0));
    }

    /**
     Lays out any graph. Cards never overlap; each in-graph edge runs from its
     port to its target without entering a card; back marks sit on real cycles
     only and leave none; layers are longest-path lengths.
     */
    method Build(blocks: seq<Block>, rows: seq<seq<TextRow>>, m: Metrics, labelSize: seq<Point>)
      requires |rows| == |blocks| && m.Valid()
      requires forall v, k :: 0 <= v < |rows| && 0 <= k < |rows[v]| ==> 0.0 <= rows[v][k].wrappedHeight
      requires forall e :: 0 <= e < |labelSize| ==> 0.0 <= labelSize[e].x && 0.0 <= labelSize[e].y
      modifies this
      ensures LaidOut(blocks, cards, placing) && CardsMeasured(m, rows, cards, rowBoxes)
      ensures |routes| == |cards.g.edges| && EdgesRouted(cards, placing, routes)
      ensures DrawingInBounds(cards, placing, routes, labelSize, bounds)
    {
      cards, rowBoxes, placing, routes, bounds := LayOut(blocks, rows, m, labelSize);
    }
  }

  /** Cards have the measured sizes, and the gaps are those of the font. */
  ghost predicate CardsMeasured(m: Metrics, rows: seq<seq<TextRow>>, c: Cards, boxes: seq<seq<RowBox>>) {
    && c.columnGap == m.ColumnGap() && c.layerGap == m.LayerGap() && |c.size| == |boxes| == |rows|
    && forall v :: 0 <= v < |rows| ==> Measured(m, rows[v], c.size[v], boxes[v])
  }

  /** Everything promised about marks, layers and cards. */
  ghost predicate LaidOut(blocks: seq<Block>, c: Cards, p: Placing) {
    && Ready(c, p) && Flattened(blocks, c.g, |blocks|, 0) && EdgesOrdered(c.g)
    && LoopsMarked(c.g, c.back)
    && (forall v :: 0 <= v < |blocks| ==> LongestWalkTo(c.g, c.back, v, c.layer[v]))
    && CardsDisjoint(c, p)
  }

  method LayOut(blocks: seq<Block>, rows: seq<seq<TextRow>>, m: Metrics, labelSize: seq<Point>)
    returns (c: Cards, boxes: seq<seq<RowBox>>, p: Placing, routes: seq<Route>, bounds: Bounds)
    requires |rows| == |blocks| && m.Valid()
    requires forall v, k :: 0 <= v < |rows| && 0 <= k < |rows[v]| ==> 0.0 <= rows[v][k].wrappedHeight
    requires forall e :: 0 <= e < |labelSize| ==> 0.0 <= labelSize[e].x && 0.0 <= labelSize[e].y
    ensures LaidOut(blocks, c, p) && CardsMeasured(m, rows, c, boxes)
    ensures |routes| == |c.g.edges| && EdgesRouted(c, p, routes)
    ensures DrawingInBounds(c, p, routes, labelSize, bounds)
  {
    var layerCount;
    c, boxes, layerCount := ArrangeBlocks(blocks, rows, m);
    p := PlaceCards(c, layerCount);
    NoOverlap(c, p);
    routes, bounds := RouteEdges(c, p, Style(m.Padding(), m.RowHeight()), labelSize);
  }

  /** Everything before placement: card sizes, edges, back marks and layers. */
  method ArrangeBlocks(blocks: seq<Block>, rows: seq<seq<TextRow>>, m: Metrics)
    returns (c: Cards, boxes: seq<seq<RowBox>>, layerCount: nat)
    requires |rows| == |blocks| && m.Valid()
    requires forall v, k :: 0 <= v < |rows| && 0 <= k < |rows[v]| ==> 0.0 <= rows[v][k].wrappedHeight
    ensures c.Valid() && LayersUsed(c.layer, layerCount) && Flattened(blocks, c.g, |blocks|, 0)
    ensures EdgesOrdered(c.g) && CardsMeasured(m, rows, c, boxes)
    ensures LoopsMarked(c.g, c.back)
    ensures forall v :: 0 <= v < |blocks| ==> LongestWalkTo(c.g, c.back, v, c.layer[v])
  {
    var g := CollectEdges(blocks);
    var size;
    size, boxes := MeasureCards(m, rows);
    c, layerCount := ArrangeLayers(g, size, m);
  }

  method MeasureCards(m: Metrics, rows: seq<seq<TextRow>>) returns (size: seq<Point>, boxes: seq<seq<RowBox>>)
    requires m.Valid()
    requires forall v, k :: 0 <= v < |rows| && 0 <= k < |rows[v]| ==> 0.0 <= rows[v][k].wrappedHeight
    ensures |size| == |boxes| == |rows|
    ensures forall v :: 0 <= v < |rows| ==>
              0.0 < size[v].x && 0.0 < size[v].y && Measured(m, rows[v], size[v], boxes[v])
  {
    size, boxes := [], [];
    for v := 0 to |rows|
      invariant |size| == |boxes| == v
      invariant forall w :: 0 <= w < v ==>
                  0.0 < size[w].x && 0.0 < size[w].y && Measured(m, rows[w], size[w], boxes[w])
    {
      var cardSize, cardBoxes := MeasureCard(m, rows[v]);
      size, boxes := size + [cardSize], boxes + [cardBoxes];
    }
  }

  /** Search, then layer: everything card placement needs to know about the graph. */
  method ArrangeLayers(g: Graph, size: seq<Point>, m: Metrics) returns (c: Cards, layerCount: nat)
    requires WellFormed(g) && IncomingIndexed(g) && |size| == g.count && m.Valid()
    requires forall v :: 0 <= v < |size| ==> 0.0 < size[v].x && 0.0 < size[v].y
    ensures c.Valid() && c.g == g && c.size == size && LayersUsed(c.layer, layerCount)
    ensures c.columnGap == m.ColumnGap() && c.layerGap == m.LayerGap()
    ensures LoopsMarked(g, c.back)
    ensures forall v :: 0 <= v < g.count ==> LongestWalkTo(g, c.back, v, c.layer[v])
  {
    var finish, back;
    ghost var rank;
    finish, back, rank := MarkBackEdges(g);
    UnmarkedEdgesAcyclic(g, back, rank);
    DominanceMarks(g, back);
    if !HasCycle(g, {}) {
      AcyclicGraphUnmarked(g, back);
    }
    var layer;
    layer, layerCount := AssignLayers(g, back, finish, rank);
    c := Cards(g, back, layer, size, m.ColumnGap(), m.LayerGap());
  }
}
