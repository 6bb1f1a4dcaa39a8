/**
 A control-flow graph as the layout code sees it: blocks with addresses and
 outgoing edges, flattened into one edge vector with per-block index lists.
 */
module GraphModel {
  import opened Wrappers

  /** One edge of a block; `target` is an address, or None when unresolved. */
  datatype BlockEdge = BlockEdge(target: Option<nat>)

  datatype Block = Block(address: nat, edges: seq<BlockEdge>)

  /**
   One entry of the flat edge vector. `slot` is the position of the edge among
   its block's edges; `target` is a block index, None standing for `no_block`.
   */
  datatype Edge = Edge(source: nat, slot: nat, target: Option<nat>)

  /** The flat edge vector together with its two index lists per block. */
  datatype Graph = Graph(count: nat, edges: seq<Edge>, outgoing: seq<seq<nat>>, incoming: seq<seq<nat>>)

  /** `outgoing` is exactly the inverse of the (source, slot) pair of an edge. */
  ghost predicate OutgoingIndexed(g: Graph) {
    && |g.outgoing| == g.count
    && (forall e :: 0 <= e < |g.edges| ==>
          && g.edges[e].source < g.count
          && g.edges[e].slot < |g.outgoing[g.edges[e].source]|
          && g.outgoing[g.edges[e].source][g.edges[e].slot] == e)
    && (forall u, k :: 0 <= u < g.count && 0 <= k < |g.outgoing[u]| ==>
          && g.outgoing[u][k] < |g.edges|
          && g.edges[g.outgoing[u][k]].source == u
          && g.edges[g.outgoing[u][k]].slot == k)
  }

  ghost predicate TargetsInRange(g: Graph) {
    forall e :: 0 <= e < |g.edges| && g.edges[e].target.Some? ==> g.edges[e].target.value < g.count
  }

  /** `incoming[v]` lists, in increasing order, exactly the edges that enter v. */
  ghost predicate IncomingIndexed(g: Graph) {
    && |g.incoming| == g.count
    && (forall v, k :: 0 <= v < g.count && 0 <= k < |g.incoming[v]| ==>
          g.incoming[v][k] < |g.edges| && g.edges[g.incoming[v][k]].target == Some(v))
    && (forall e :: 0 <= e < |g.edges| && g.edges[e].target.Some? && g.edges[e].target.value < g.count ==>
          e in g.incoming[g.edges[e].target.value])
    && (forall v, j, k :: 0 <= v < g.count && 0 <= j < k < |g.incoming[v]| ==> g.incoming[v][j] < g.incoming[v][k])
  }

  ghost predicate WellFormed(g: Graph) {
    OutgoingIndexed(g) && TargetsInRange(g)
  }

  // ---------- Walks ----------

  /** `p` lists the edges of a walk from u to v that uses no edge in `skip`. */
  ghost predicate Walk(g: Graph, skip: set<nat>, p: seq<nat>, u: nat, v: nat) {
    if p == [] then u == v
    else
      var e := p[|p| - 1];
      && e < |g.edges| && e !in skip
      && g.edges[e].target == Some(v)
      && Walk(g, skip, p[..|p| - 1], u, g.edges[e].source)
  }

  ghost predicate Reaches(g: Graph, u: nat, v: nat) {
    exists p :: Walk(g, {}, p, u, v)
  }

  /** A non-empty closed walk: the graph minus `skip` has a cycle through v. */
  ghost predicate HasCycle(g: Graph, skip: set<nat>) {
    exists p, v :: p != [] && Walk(g, skip, p, v, v)
  }

  lemma ExtendReach(g: Graph, u: nat, e: nat)
    requires e < |g.edges| && g.edges[e].target.Some?
    requires Reaches(g, u, g.edges[e].source)
    ensures Reaches(g, u, g.edges[e].target.value)
  {
    var p :| Walk(g, {}, p, u, g.edges[e].source);
    assert (p + [e])[..|p|] == p;
    assert Walk(g, {}, p + [e], u, g.edges[e].target.value);
  }

  lemma ReachSelf(g: Graph, u: nat)
    ensures Reaches(g, u, u)
  {
    assert Walk(g, {}, [], u, u);
  }

  /** An edge from u to v closes a cycle as soon as v reaches u. */
  lemma CloseCycle(g: Graph, e: nat)
    requires e < |g.edges| && g.edges[e].target.Some?
    requires Reaches(g, g.edges[e].target.value, g.edges[e].source)
    ensures HasCycle(g, {})
  {
    var v := g.edges[e].target.value;
    var p :| Walk(g, {}, p, v, g.edges[e].source);
    assert (p + [e])[..|p|] == p;
    assert Walk(g, {}, p + [e], v, v);
  }

  // ---------- Building the flat edge vector ----------

  /** The first block carrying an address, as `unordered_map::emplace` keeps it. */
  ghost predicate FirstAt(blocks: seq<Block>, address: nat, i: nat) {
    && i < |blocks| && blocks[i].address == address
    && forall j :: 0 <= j < i ==> blocks[j].address != address
  }

  /** What an edge target resolves to: the first block there, or no block. */
  ghost predicate ResolvesTo(blocks: seq<Block>, target: Option<nat>, found: Option<nat>) {
    match found
    case Some(i) => target.Some? && FirstAt(blocks, target.value, i)
    case None => target.None? || forall i :: 0 <= i < |blocks| ==> blocks[i].address != target.value
  }

  method IndexAddresses(blocks: seq<Block>) returns (addresses: map<nat, nat>)
    ensures forall a :: a in addresses ==> FirstAt(blocks, a, addresses[a])
    ensures forall i :: 0 <= i < |blocks| ==> blocks[i].address in addresses
  {
    addresses := map[];
    for i := 0 to |blocks|
      invariant forall a :: a in addresses ==> addresses[a] < i && FirstAt(blocks, a, addresses[a])
      invariant forall j :: 0 <= j < i ==> blocks[j].address in addresses
    {
      if blocks[i].address !in addresses {
        addresses := addresses[blocks[i].address := i];
      }
    }
  }

  /** Edges already flattened: all of blocks [0, i), and the first k of block i. */
  ghost predicate Flattened(blocks: seq<Block>, g: Graph, i: nat, k: nat) {
    && g.count == |blocks| && |g.outgoing| == |blocks| && |g.incoming| == |blocks|
    && i <= |blocks| && (i < |blocks| ==> k <= |blocks[i].edges|)
    && (forall u :: 0 <= u < |blocks| ==>
          |g.outgoing[u]| == if u < i then |blocks[u].edges| else if u == i then k else 0)
    && (forall u, s :: 0 <= u < |blocks| && 0 <= s < |g.outgoing[u]| ==>
          && g.outgoing[u][s] < |g.edges|
          && ResolvesTo(blocks, blocks[u].edges[s].target, g.edges[g.outgoing[u][s]].target))
  }

  /** The flat edge vector is in block order, and in edge order within a block. */
  ghost predicate EdgesOrdered(g: Graph) {
    forall d, e :: 0 <= d < e < |g.edges| ==> Earlier(g.edges[d], g.edges[e])
  }

  ghost predicate Earlier(d: Edge, e: Edge) {
    d.source < e.source || (d.source == e.source && d.slot < e.slot)
  }

  lemma AppendKeepsOrder(g: Graph, blocks: seq<Block>, i: nat, k: nat, edge: Edge)
    requires WellFormed(g) && Flattened(blocks, g, i, k) && EdgesOrdered(g)
    requires edge.source == i < |blocks| && edge.slot == k
    ensures forall d, e :: 0 <= d < e < |g.edges| + 1 ==> Earlier((g.edges + [edge])[d], (g.edges + [edge])[e])
  {
    forall d, e | 0 <= d < e < |g.edges| + 1 ensures Earlier((g.edges + [edge])[d], (g.edges + [edge])[e]) {
      assert e < |g.edges| ==> Earlier(g.edges[d], g.edges[e]);
    }
  }

  function Edgeless(n: nat): (g: Graph)
    ensures g.count == n && g.edges == [] && |g.outgoing| == |g.incoming| == n
    ensures forall v :: 0 <= v < n ==> g.outgoing[v] == [] && g.incoming[v] == []
  {
    Graph(n, [], seq(n, _ => []), seq(n, _ => []))
  }

  lemma NothingCollected(blocks: seq<Block>)
    ensures var g := Edgeless(|blocks|);
            WellFormed(g) && IncomingIndexed(g) && Flattened(blocks, g, 0, 0) && EdgesOrdered(g)
  {
  }

  method CollectEdges(blocks: seq<Block>) returns (g: Graph)
    ensures WellFormed(g) && IncomingIndexed(g)
    ensures Flattened(blocks, g, |blocks|, 0) && EdgesOrdered(g)
  {
    hide WellFormed, IncomingIndexed, Flattened, EdgesOrdered;
    var addresses := IndexAddresses(blocks);
    g := Edgeless(|blocks|);
    NothingCollected(blocks);
    for i := 0 to |blocks|
      invariant WellFormed(g) && IncomingIndexed(g) && Flattened(blocks, g, i, 0) && EdgesOrdered(g)
    {
      g := CollectBlock(blocks, addresses, i, g);
    }
  }

  method CollectBlock(blocks: seq<Block>, addresses: map<nat, nat>, i: nat, before: Graph) returns (g: Graph)
    requires forall a :: a in addresses ==> FirstAt(blocks, a, addresses[a])
    requires forall j :: 0 <= j < |blocks| ==> blocks[j].address in addresses
    requires i < |blocks| && WellFormed(before) && IncomingIndexed(before) && Flattened(blocks, before, i, 0)
             && EdgesOrdered(before)
    ensures WellFormed(g) && IncomingIndexed(g) && Flattened(blocks, g, i + 1, 0) && EdgesOrdered(g)
  {
    g := before;
    for k := 0 to |blocks[i].edges|
      invariant WellFormed(g) && IncomingIndexed(g) && Flattened(blocks, g, i, k) && EdgesOrdered(g)
    {
      var wanted := blocks[i].edges[k].target;
      var target := if wanted.Some? && wanted.value in addresses then Some(addresses[wanted.value]) else None;
      assert ResolvesTo(blocks, wanted, target);
      AppendKeepsOrder(g, blocks, i, k, Edge(i, |g.outgoing[i]|, target));
      g := AppendEdge(g, i, target, blocks, k);
    }
  }

  /** The `outgoing`/`incoming`/`edges` push of one edge. */
  method AppendEdge(g: Graph, i: nat, target: Option<nat>, ghost blocks: seq<Block>, ghost k: nat) returns (h: Graph)
    requires WellFormed(g) && IncomingIndexed(g) && Flattened(blocks, g, i, k)
    requires i < |blocks| && k < |blocks[i].edges|
    requires ResolvesTo(blocks, blocks[i].edges[k].target, target)
    ensures WellFormed(h) && IncomingIndexed(h) && Flattened(blocks, h, i, k + 1)
    ensures h.edges == g.edges + [Edge(i, |g.outgoing[i]|, target)]
  {
    var edge := Edge(i, |g.outgoing[i]|, target);
    var incoming := g.incoming;
    if target.Some? {
      incoming := incoming[target.value := incoming[target.value] + [|g.edges|]];
    }
    var outgoing := g.outgoing[i := g.outgoing[i] + [|g.edges|]];
    h := Graph(g.count, g.edges + [edge], outgoing, incoming);
    AppendOutgoing(g, edge, h);
    AppendIncoming(g, edge, h);
  }

  lemma AppendOutgoing(g: Graph, edge: Edge, h: Graph)
    requires WellFormed(g)
    requires edge.source < g.count && edge.slot == |g.outgoing[edge.source]|
    requires edge.target.Some? ==> edge.target.value < g.count
    requires h.count == g.count && h.edges == g.edges + [edge]
    requires h.outgoing == g.outgoing[edge.source := g.outgoing[edge.source] + [|g.edges|]]
    ensures WellFormed(h)
  {
  }

  lemma AppendIncoming(g: Graph, edge: Edge, h: Graph)
    requires IncomingIndexed(g)
    requires h.count == g.count && h.edges == g.edges + [edge]
    requires edge.target.Some? ==> edge.target.value < g.count
    requires h.incoming == match edge.target
                           case Some(v) => g.incoming[v := g.incoming[v] + [|g.edges|]]
                           case None => g.incoming
    ensures IncomingIndexed(h)
  {
    forall e | 0 <= e < |h.edges| && h.edges[e].target.Some? && h.edges[e].target.value < h.count
      ensures e in h.incoming[h.edges[e].target.value]
    {
      if e < |g.edges| {
        assert e in g.incoming[g.edges[e].target.value];
      }
    }
  }
}
