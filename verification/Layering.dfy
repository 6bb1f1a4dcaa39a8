/** Longest-path layering of a graph whose back edges have been marked. */
module Layering {
  import opened Wrappers
  import opened GraphModel
  import opened DepthFirst

  /** e joins two blocks of the graph and was not marked. */
  predicate Forward(g: Graph, back: seq<bool>, e: nat)
    requires |back| == |g.edges|
  {
    e < |g.edges| && g.edges[e].target.Some? && !back[e]
  }

  /** Every forward edge finishes its target before its source. */
  ghost predicate Topological(g: Graph, back: seq<bool>, rank: seq<int>)
    requires WellFormed(g) && |back| == |g.edges| && |rank| == g.count
  {
    forall e :: 0 <= e < |g.edges| && Forward(g, back, e) ==>
      rank[g.edges[e].target.value] < rank[g.edges[e].source]
  }

  // ---------- What the marks mean for cycles ----------

  lemma {:induction false} WalkDescends(g: Graph, back: seq<bool>, rank: seq<int>, p: seq<nat>, u: nat, v: nat)
    requires WellFormed(g) && |back| == |g.edges| && |rank| == g.count && Topological(g, back, rank)
    requires u < g.count && Walk(g, Skipped(back), p, u, v)
    ensures v < g.count && rank[v] + |p| <= rank[u]
    decreases |p|
  {
    if p == [] {
    } else {
      var e := p[|p| - 1];
      assert Forward(g, back, e);
      WalkDescends(g, back, rank, p[..|p| - 1], u, g.edges[e].source);
    }
  }

  /** Reverse finish order is topological, so the unmarked edges have no cycle. */
  lemma UnmarkedEdgesAcyclic(g: Graph, back: seq<bool>, rank: seq<int>)
    requires WellFormed(g) && |back| == |g.edges| && |rank| == g.count && BackIffFinishesLater(g, back, rank)
    ensures Topological(g, back, rank)
    ensures !HasCycle(g, Skipped(back))
  {
    forall p: seq<nat>, v: nat | p != [] && Walk(g, Skipped(back), p, v, v)
      ensures false
    {
      var e := p[|p| - 1];
      assert Forward(g, back, e) && v < g.count;
      WalkDescends(g, back, rank, p, v, v);
    }
  }

  /** A graph without cycles gets no back marks. */
  lemma AcyclicGraphUnmarked(g: Graph, back: seq<bool>)
    requires |back| == |g.edges| && BackClosesCycle(g, back)
    requires !HasCycle(g, {})
    ensures forall e :: 0 <= e < |back| ==> !back[e]
  {
    forall e | 0 <= e < |back| ensures !back[e] {
      if back[e] {
        CloseCycle(g, e);
      }
    }
  }

  // ---------- Which edge of a cycle is marked ----------

  /** Every walk from r to v visits d. */
  ghost predicate Dominates(g: Graph, r: nat, d: nat, v: nat) {
    d == v || forall p: seq<nat> :: Walk(g, {}, p, r, v) ==> !Avoids(g, p, d)
  }

  /** Where a cycle can only be entered through one block, the edges back to that block are marked, and no others. */
  ghost predicate MarksFollowDominance(g: Graph, back: seq<bool>) {
    forall e, r: nat :: 0 <= e < |back| && e < |g.edges| && Lowest(g, r, g.edges[e].source) ==> Dominated(g, back, e, r)
  }

  ghost predicate Dominated(g: Graph, back: seq<bool>, e: nat, r: nat)
    requires e < |back| && e < |g.edges|
  {
    g.edges[e].target.Some? ==>
      var u, v := g.edges[e].source, g.edges[e].target.value;
      && (Dominates(g, r, v, u) ==> back[e])
      && (Dominates(g, r, u, v) && u != v ==> !back[e])
  }

  lemma OneLowest(g: Graph, q: nat, r: nat, u: nat)
    requires Lowest(g, q, u) && Lowest(g, r, u)
    ensures q == r
  {
  }

  /** The part of a walk from its k-th edge on. */
  lemma {:induction false} WalkSuffix(g: Graph, skip: set<nat>, p: seq<nat>, u: nat, v: nat, k: nat)
    requires Walk(g, skip, p, u, v) && k < |p|
    ensures p[k] < |g.edges| && Walk(g, skip, p[k..], g.edges[p[k]].source, v)
    decreases |p|
  {
    var n := |p| - 1;
    if k < n {
      WalkSuffix(g, skip, p[..n], u, g.edges[p[n]].source, k);
      assert p[..n][k..] == p[k..][..|p[k..]| - 1];
    } else {
      assert p[k..] == [p[n]] && [p[n]][..0] == [];
    }
  }

  lemma {:induction false} WalkEdges(g: Graph, skip: set<nat>, p: seq<nat>, u: nat, v: nat)
    requires Walk(g, skip, p, u, v)
    ensures forall k :: 0 <= k < |p| ==> p[k] < |g.edges|
    decreases |p|
  {
    if p != [] {
      var n := |p| - 1;
      WalkEdges(g, skip, p[..n], u, g.edges[p[n]].source);
      assert forall k :: 0 <= k < n ==> p[k] == p[..n][k];
    }
  }

  /** An edge whose source must be passed on the way to its target is never marked. */
  lemma WayInUnmarked(g: Graph, back: seq<bool>, e: nat, r: nat)
    requires |back| == |g.edges| && MarksGuided(g, back) && e < |back| && g.edges[e].target.Some?
    requires Lowest(g, r, g.edges[e].source) && g.edges[e].source != g.edges[e].target.value
    requires Dominates(g, r, g.edges[e].source, g.edges[e].target.value)
    ensures !back[e]
  {
    if back[e] {
      var q, out, home :| GuidedBy(g, Skipped(back), e, q, out, home);
      OneLowest(g, q, r, g.edges[e].source);
      FewerSkipped(g, {}, Skipped(back), out, r, g.edges[e].target.value);
    }
  }

  /** An edge back to a block that must be passed on the way to its source is always marked. */
  lemma WayBackMarked(g: Graph, back: seq<bool>, e: nat, r: nat)
    requires |back| == |g.edges| && MarksGuided(g, back) && !HasCycle(g, Skipped(back))
    requires e < |back| && g.edges[e].target.Some? && g.edges[e].source < g.count
    requires Lowest(g, r, g.edges[e].source) && Dominates(g, r, g.edges[e].target.value, g.edges[e].source)
    ensures back[e]
  {
    if !back[e] {
      var u, v := g.edges[e].source, g.edges[e].target.value;
      assert Found(g, Skipped(back), u);
      var q, p :| FoundBy(g, Skipped(back), u, q, p);
      OneLowest(g, q, r, u);
      var home := [];
      if v != u {
        FewerSkipped(g, {}, Skipped(back), p, r, u);
        WalkEdges(g, {}, p, r, u);
        var k :| 0 <= k < |p| && g.edges[p[k]].source == v;
        WalkSuffix(g, Skipped(back), p, r, u, k);
        home := p[k..];
      }
      assert Walk(g, Skipped(back), home, v, u);
      assert (home + [e])[..|home|] == home;
      assert Walk(g, Skipped(back), home + [e], v, v);
    }
  }

  lemma DominanceMarks(g: Graph, back: seq<bool>)
    requires WellFormed(g) && |back| == |g.edges| && MarksGuided(g, back) && !HasCycle(g, Skipped(back))
    ensures MarksFollowDominance(g, back)
  {
    hide MarksGuided, HasCycle, Lowest, Dominates;
    forall e, r: nat | 0 <= e < |back| && e < |g.edges| && Lowest(g, r, g.edges[e].source)
      ensures Dominated(g, back, e, r)
    {
      if g.edges[e].target.Some? {
        var u, v := g.edges[e].source, g.edges[e].target.value;
        if Dominates(g, r, v, u) {
          WayBackMarked(g, back, e, r);
        }
        if Dominates(g, r, u, v) && u != v {
          WayInUnmarked(g, back, e, r);
        }
      }
    }
  }

  // ---------- Layers ----------

  /** Layers rise along every forward edge. */
  ghost predicate Rising(g: Graph, back: seq<bool>, layer: seq<nat>)
    requires WellFormed(g) && |back| == |g.edges| && |layer| == g.count
  {
    forall e :: 0 <= e < |g.edges| && Forward(g, back, e) ==>
      layer[g.edges[e].source] < layer[g.edges[e].target.value]
  }

  /** The forward edge that put v on its layer. */
  ghost predicate Tight(g: Graph, back: seq<bool>, layer: seq<nat>, e: nat, v: nat)
    requires WellFormed(g) && |back| == |g.edges| && |layer| == g.count && v < g.count
  {
    Forward(g, back, e) && g.edges[e].target == Some(v) && layer[g.edges[e].source] + 1 == layer[v]
  }

  ghost predicate Supported(g: Graph, back: seq<bool>, layer: seq<nat>)
    requires WellFormed(g) && |back| == |g.edges| && |layer| == g.count
  {
    forall v :: 0 <= v < g.count && layer[v] > 0 ==> exists e: nat :: Tight(g, back, layer, e, v)
  }

  /** d is the length of the longest forward walk that ends at v. */
  ghost predicate LongestWalkTo(g: Graph, back: seq<bool>, v: nat, d: nat) {
    && (exists p: seq<nat>, u: nat :: u < g.count && |p| == d && Walk(g, Skipped(back), p, u, v))
    && (forall p: seq<nat>, u: nat :: u < g.count && Walk(g, Skipped(back), p, u, v) ==> |p| <= d)
  }

  ghost predicate LayersUsed(layer: seq<nat>, layerCount: nat) {
    && 0 < layerCount
    && (forall v :: 0 <= v < |layer| ==> layer[v] < layerCount)
    && (|layer| > 0 ==> forall k: nat :: k < layerCount ==> k in layer)
  }

  lemma {:induction false} WalkBoundedByLayer(g: Graph, back: seq<bool>, layer: seq<nat>, p: seq<nat>, u: nat, v: nat)
    requires WellFormed(g) && |back| == |g.edges| && |layer| == g.count && Rising(g, back, layer)
    requires u < g.count && Walk(g, Skipped(back), p, u, v)
    ensures v < g.count && layer[u] + |p| <= layer[v]
    decreases |p|
  {
    if p == [] {
    } else {
      var e := p[|p| - 1];
      assert Forward(g, back, e);
      WalkBoundedByLayer(g, back, layer, p[..|p| - 1], u, g.edges[e].source);
    }
  }

  lemma {:induction false} WalkOfLayerLength(g: Graph, back: seq<bool>, layer: seq<nat>, v: nat)
    returns (p: seq<nat>, u: nat)
    requires WellFormed(g) && |back| == |g.edges| && |layer| == g.count && Supported(g, back, layer)
    requires v < g.count
    ensures u < g.count && |p| == layer[v] && Walk(g, Skipped(back), p, u, v)
    decreases layer[v]
  {
    if layer[v] == 0 {
      p, u := [], v;
    } else {
      var e: nat :| Tight(g, back, layer, e, v);
      p, u := WalkOfLayerLength(g, back, layer, g.edges[e].source);
      assert (p + [e])[..|p|] == p;
      p := p + [e];
    }
  }

  /** Rising and supported layers are exactly the longest-walk lengths. */
  lemma LayersAreLongestWalks(g: Graph, back: seq<bool>, layer: seq<nat>, v: nat)
    requires WellFormed(g) && |back| == |g.edges| && |layer| == g.count
    requires Rising(g, back, layer) && Supported(g, back, layer)
    requires v < g.count
    ensures LongestWalkTo(g, back, v, layer[v])
  {
    var p, u := WalkOfLayerLength(g, back, layer, v);
    forall q: seq<nat>, w: nat | w < g.count && Walk(g, Skipped(back), q, w, v) ensures |q| <= layer[v] {
      WalkBoundedByLayer(g, back, layer, q, w, v);
    }
  }

  /** Below an occupied layer every layer is occupied. */
  lemma {:induction false} NoGapBelow(g: Graph, back: seq<bool>, layer: seq<nat>, v: nat, k: nat) returns (w: nat)
    requires WellFormed(g) && |back| == |g.edges| && |layer| == g.count && Supported(g, back, layer)
    requires v < g.count && k <= layer[v]
    ensures w < g.count && layer[w] == k
    decreases layer[v]
  {
    if layer[v] == k {
      w := v;
    } else {
      var e: nat :| Tight(g, back, layer, e, v);
      w := NoGapBelow(g, back, layer, g.edges[e].source, k);
    }
  }

  // ---------- The relaxation loop ----------

  /** The reverse pass at position `at`, slot `slot`, has been over edge e. */
  ghost predicate Visited(g: Graph, rank: seq<int>, at: int, slot: int, e: nat)
    requires WellFormed(g) && |rank| == g.count && e < |g.edges|
  {
    var r := rank[g.edges[e].source];
    at < r || (at == r && g.edges[e].slot < slot)
  }

  /** Edges of `node` with slot below `slot`, and all edges of later blocks, are relaxed. */
  ghost predicate RelaxedTo(g: Graph, back: seq<bool>, rank: seq<int>, layer: seq<nat>, at: int, slot: int)
    requires WellFormed(g) && |back| == |g.edges| && |layer| == |rank| == g.count
  {
    forall e :: 0 <= e < |g.edges| && Forward(g, back, e) && Visited(g, rank, at, slot, e) ==>
      layer[g.edges[e].source] < layer[g.edges[e].target.value]
  }

  /** Support only ever comes from relaxed blocks. */
  ghost predicate HasSupport(g: Graph, back: seq<bool>, rank: seq<int>, layer: seq<nat>, k: int, v: nat)
    requires WellFormed(g) && |back| == |g.edges| && |layer| == |rank| == g.count && v < g.count
  {
    layer[v] > 0 ==> exists e: nat :: Tight(g, back, layer, e, v) && k <= rank[g.edges[e].source]
  }

  ghost predicate SupportedFrom(g: Graph, back: seq<bool>, rank: seq<int>, layer: seq<nat>, k: int)
    requires WellFormed(g) && |back| == |g.edges| && |layer| == |rank| == g.count
  {
    forall v :: 0 <= v < g.count ==> HasSupport(g, back, rank, layer, k, v)
  }

  ghost predicate MaximumPlusOne(layer: seq<nat>, layerCount: nat) {
    && 0 < layerCount
    && (forall v :: 0 <= v < |layer| ==> layer[v] < layerCount)
    && (if layer == [] then layerCount == 1 else layerCount - 1 in layer)
  }

  /** What the pass may rely on throughout. */
  ghost predicate Setting(g: Graph, back: seq<bool>, rank: seq<int>) {
    && WellFormed(g) && |back| == |g.edges| && |rank| == g.count && Topological(g, back, rank)
    && (forall u, v :: 0 <= u < g.count && 0 <= v < g.count && rank[u] == rank[v] ==> u == v)
  }

  /** What the pass has established at position `at`, slot `slot`. */
  ghost predicate Progress(g: Graph, back: seq<bool>, rank: seq<int>, layer: seq<nat>, layerCount: nat, at: int,
                           slot: int)
    requires Setting(g, back, rank)
  {
    && |layer| == g.count
    && RelaxedTo(g, back, rank, layer, at, slot)
    && SupportedFrom(g, back, rank, layer, at)
    && MaximumPlusOne(layer, layerCount)
  }

  method AssignLayers(g: Graph, back: seq<bool>, finish: seq<nat>, ghost rank: seq<int>)
    returns (layer: seq<nat>, layerCount: nat)
    requires WellFormed(g) && |back| == |g.edges|
    requires Permutation(finish, g.count) && FinishRank(finish, rank) && Topological(g, back, rank)
    ensures |layer| == g.count
    ensures Rising(g, back, layer) && Supported(g, back, layer)
    ensures forall v :: 0 <= v < g.count ==> LongestWalkTo(g, back, v, layer[v])
    ensures LayersUsed(layer, layerCount)
  {
    RanksAreDistinct(finish, rank);
    layer := seq(g.count, _ => 0);
    layerCount := 1;
    assert g.count > 0 ==> layer[0] == 0;
    var at := |finish|;
    while at > 0
      invariant 0 <= at <= |finish|
      invariant Progress(g, back, rank, layer, layerCount, at - 1, 0)
    {
      at := at - 1;
      layer, layerCount := RelaxBlock(g, back, rank, finish[at], layer, layerCount);
    }
    LayersSettled(g, back, rank, layer, layerCount);
  }

  /** The inner loop: push every forward successor of one block below it. */
  method RelaxBlock(g: Graph, back: seq<bool>, ghost rank: seq<int>, node: nat, before: seq<nat>, count: nat)
    returns (layer: seq<nat>, layerCount: nat)
    requires Setting(g, back, rank) && node < g.count
    requires Progress(g, back, rank, before, count, rank[node], 0)
    ensures Progress(g, back, rank, layer, layerCount, rank[node] - 1, 0)
  {
    layer, layerCount := before, count;
    for slot := 0 to |g.outgoing[node]|
      invariant Progress(g, back, rank, layer, layerCount, rank[node], slot)
    {
      layer, layerCount := RelaxEdge(g, back, rank, g.outgoing[node][slot], layer, layerCount);
    }
    BlockDone(g, back, rank, layer, layerCount, node);
  }

  lemma LayersSettled(g: Graph, back: seq<bool>, rank: seq<int>, layer: seq<nat>, layerCount: nat)
    requires Setting(g, back, rank) && (forall v :: 0 <= v < g.count ==> 0 <= rank[v])
    requires Progress(g, back, rank, layer, layerCount, -1, 0)
    ensures Rising(g, back, layer) && Supported(g, back, layer)
    ensures forall v :: 0 <= v < g.count ==> LongestWalkTo(g, back, v, layer[v])
    ensures LayersUsed(layer, layerCount)
  {
    forall e | 0 <= e < |g.edges| && Forward(g, back, e)
      ensures layer[g.edges[e].source] < layer[g.edges[e].target.value]
    {
      assert Visited(g, rank, -1, 0, e);
    }
    forall v | 0 <= v < g.count && layer[v] > 0 ensures exists e: nat :: Tight(g, back, layer, e, v) {
      assert HasSupport(g, back, rank, layer, -1, v);
    }
    forall v | 0 <= v < g.count ensures LongestWalkTo(g, back, v, layer[v]) {
      LayersAreLongestWalks(g, back, layer, v);
    }
    EveryLayerUsed(g, back, layer, layerCount);
  }

  lemma EveryLayerUsed(g: Graph, back: seq<bool>, layer: seq<nat>, layerCount: nat)
    requires WellFormed(g) && |back| == |g.edges| && |layer| == g.count && Supported(g, back, layer)
    requires MaximumPlusOne(layer, layerCount)
    ensures LayersUsed(layer, layerCount)
  {
    if g.count > 0 {
      var top :| 0 <= top < |layer| && layer[top] == layerCount - 1;
      forall k: nat | k < layerCount ensures k in layer {
        var w := NoGapBelow(g, back, layer, top, k);
        assert layer[w] == k;
      }
    }
  }

  lemma RanksAreDistinct(finish: seq<nat>, rank: seq<int>)
    requires FinishRank(finish, rank)
    ensures forall u, v :: 0 <= u < |rank| && 0 <= v < |rank| && rank[u] == rank[v] ==> u == v
  {
    forall u, v | 0 <= u < |rank| && 0 <= v < |rank| && rank[u] == rank[v] ensures u == v {
      assert finish[rank[u]] == u && finish[rank[v]] == v;
    }
  }

  /** Past the last slot, every edge of the block at this position has been visited. */
  lemma BlockDone(g: Graph, back: seq<bool>, rank: seq<int>, layer: seq<nat>, layerCount: nat, node: nat)
    requires Setting(g, back, rank) && node < g.count
    requires Progress(g, back, rank, layer, layerCount, rank[node], |g.outgoing[node]|)
    ensures Progress(g, back, rank, layer, layerCount, rank[node] - 1, 0)
  {
    forall e | 0 <= e < |g.edges| && Forward(g, back, e) && Visited(g, rank, rank[node] - 1, 0, e)
      ensures layer[g.edges[e].source] < layer[g.edges[e].target.value]
    {
      assert Visited(g, rank, rank[node], |g.outgoing[node]|, e);
    }
    var k := rank[node] - 1;
    forall v | 0 <= v < g.count ensures HasSupport(g, back, rank, layer, k, v) {
      assert HasSupport(g, back, rank, layer, rank[node], v);
    }
  }

  /** `target.layer = max(target.layer, source.layer + 1)`, and the running layer count. */
  method RelaxEdge(g: Graph, back: seq<bool>, ghost rank: seq<int>, e: nat, before: seq<nat>, count: nat)
    returns (layer: seq<nat>, layerCount: nat)
    requires Setting(g, back, rank) && e < |g.edges|
    requires Progress(g, back, rank, before, count, rank[g.edges[e].source], g.edges[e].slot)
    ensures Progress(g, back, rank, layer, layerCount, rank[g.edges[e].source], g.edges[e].slot + 1)
  {
    layer, layerCount := before, count;
    if g.edges[e].target.Some? && !back[e] {
      var v := g.edges[e].target.value;
      if layer[v] < layer[g.edges[e].source] + 1 {
        layer := layer[v := layer[g.edges[e].source] + 1];
      }
      if layerCount < layer[v] + 1 {
        layerCount := layer[v] + 1;
      }
    }
    RelaxKeeps(g, back, rank, e, before, count);
  }

  /** The layers after relaxing e. */
  function Raised(g: Graph, back: seq<bool>, e: nat, layer: seq<nat>): seq<nat>
    requires WellFormed(g) && |back| == |g.edges| && |layer| == g.count && e < |g.edges|
  {
    if Forward(g, back, e) && layer[g.edges[e].target.value] <= layer[g.edges[e].source] then
      layer[g.edges[e].target.value := layer[g.edges[e].source] + 1]
    else layer
  }

  function Counted(g: Graph, back: seq<bool>, e: nat, layer: seq<nat>, layerCount: nat): nat
    requires WellFormed(g) && |back| == |g.edges| && |layer| == g.count && e < |g.edges|
  {
    if Forward(g, back, e) && layerCount <= layer[g.edges[e].target.value] then layer[g.edges[e].target.value] + 1
    else layerCount
  }

  lemma RelaxKeeps(g: Graph, back: seq<bool>, rank: seq<int>, e: nat, layer: seq<nat>, layerCount: nat)
    requires Setting(g, back, rank) && e < |g.edges|
    requires Progress(g, back, rank, layer, layerCount, rank[g.edges[e].source], g.edges[e].slot)
    ensures var raised := Raised(g, back, e, layer);
            Progress(g, back, rank, raised, Counted(g, back, e, raised, layerCount),
                     rank[g.edges[e].source], g.edges[e].slot + 1)
  {
    SlotsAreDistinct(g, rank, e);
    RaiseKeepsOrder(g, back, rank, layer, e);
    RaiseKeepsSupport(g, back, rank, layer, e);
    if Forward(g, back, e) {
      MaximumAfterRaise(layer, layerCount, g.edges[e].target.value,
                        Raised(g, back, e, layer)[g.edges[e].target.value]);
    }
  }

  lemma MaximumAfterRaise(layer: seq<nat>, layerCount: nat, v: nat, wanted: nat)
    requires MaximumPlusOne(layer, layerCount) && v < |layer| && layer[v] <= wanted
    ensures var raised := layer[v := wanted];
            MaximumPlusOne(raised, if layerCount < wanted + 1 then wanted + 1 else layerCount)
  {
    var raised := layer[v := wanted];
    assert raised[v] == wanted;
    if wanted + 1 <= layerCount {
      var top :| 0 <= top < |layer| && layer[top] == layerCount - 1;
      assert raised[top] == layerCount - 1;
    }
  }

  ghost predicate OnlyEdgeAt(g: Graph, rank: seq<int>, e: nat)
    requires WellFormed(g) && |rank| == g.count && e < |g.edges|
  {
    forall f :: 0 <= f < |g.edges| && f != e && rank[g.edges[f].source] == rank[g.edges[e].source] ==>
      g.edges[f].slot != g.edges[e].slot
  }

  lemma SlotsAreDistinct(g: Graph, rank: seq<int>, e: nat)
    requires WellFormed(g) && |rank| == g.count && e < |g.edges|
    requires forall u, v :: 0 <= u < g.count && 0 <= v < g.count && rank[u] == rank[v] ==> u == v
    ensures OnlyEdgeAt(g, rank, e)
  {
    forall f | 0 <= f < |g.edges| && f != e && rank[g.edges[f].source] == rank[g.edges[e].source]
      ensures g.edges[f].slot != g.edges[e].slot
    {
      assert g.outgoing[g.edges[f].source][g.edges[f].slot] == f;
    }
  }

  /** Raising a target disturbs no visited edge: the target's own edges come later. */
  lemma RaiseKeepsOrder(g: Graph, back: seq<bool>, rank: seq<int>, layer: seq<nat>, e: nat)
    requires WellFormed(g) && |back| == |g.edges| && |layer| == |rank| == g.count && Topological(g, back, rank)
    requires e < |g.edges| && OnlyEdgeAt(g, rank, e)
    requires RelaxedTo(g, back, rank, layer, rank[g.edges[e].source], g.edges[e].slot)
    ensures RelaxedTo(g, back, rank, Raised(g, back, e, layer), rank[g.edges[e].source], g.edges[e].slot + 1)
  {
    var at, slot := rank[g.edges[e].source], g.edges[e].slot;
    var raised := Raised(g, back, e, layer);
    forall f | 0 <= f < |g.edges| && Forward(g, back, f) && Visited(g, rank, at, slot + 1, f)
      ensures raised[g.edges[f].source] < raised[g.edges[f].target.value]
    {
      if f != e {
        assert Visited(g, rank, at, slot, f);
      }
    }
  }

  /** Raising a target onto e supports it, and unsettles no other support. */
  lemma RaiseKeepsSupport(g: Graph, back: seq<bool>, rank: seq<int>, layer: seq<nat>, e: nat)
    requires WellFormed(g) && |back| == |g.edges| && |layer| == |rank| == g.count && Topological(g, back, rank)
    requires e < |g.edges| && SupportedFrom(g, back, rank, layer, rank[g.edges[e].source])
    ensures SupportedFrom(g, back, rank, Raised(g, back, e, layer), rank[g.edges[e].source])
  {
    var at := rank[g.edges[e].source];
    var raised := Raised(g, back, e, layer);
    if raised != layer {
      var v := g.edges[e].target.value;
      assert Tight(g, back, raised, e, v);
      forall w | 0 <= w < g.count ensures HasSupport(g, back, rank, raised, at, w) {
        assert HasSupport(g, back, rank, layer, at, w);
        if w != v && layer[w] > 0 {
          var f: nat :| Tight(g, back, layer, f, w) && at <= rank[g.edges[f].source];
          assert Tight(g, back, raised, f, w);
        }
      }
    }
  }
}
