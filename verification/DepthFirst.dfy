/**
 The depth-first search that marks back edges before layering. It runs on an
 explicit stack of (node, next edge) frames and a colour per block.
 */
module DepthFirst {
  import opened Wrappers
  import opened GraphModel
  import opened Counting

  datatype Color = White | Grey | Black

  datatype Frame = Frame(node: nat, next: nat)

  /**
   The local state of the search. `depth` and `rank` are the inverses of the
   stack and of the finish order, kept for the proof only: -1 means absent.
   */
  datatype State = State(color: seq<Color>, stack: seq<Frame>, finish: seq<nat>, back: seq<bool>)
  datatype Places = Places(depth: seq<int>, rank: seq<int>)

  // ---------- The result ----------

  ghost predicate Permutation(finish: seq<nat>, n: nat) {
    && |finish| == n
    && (forall k :: 0 <= k < n ==> finish[k] < n)
    && (forall v :: 0 <= v < n ==> v in finish)
    && (forall j, k :: 0 <= j < k < n ==> finish[j] != finish[k])
  }

  /** Position of a block in the finish order. */
  ghost predicate FinishRank(finish: seq<nat>, rank: seq<int>) {
    && |rank| == |finish|
    && (forall v :: 0 <= v < |rank| ==> 0 <= rank[v] < |finish| && finish[rank[v]] == v)
    && (forall k :: 0 <= k < |finish| ==> finish[k] < |rank| && rank[finish[k]] == k)
  }

  /** The in-graph edges split by finish order: back edges finish their target last. */
  ghost predicate BackIffFinishesLater(g: Graph, back: seq<bool>, rank: seq<int>)
    requires WellFormed(g) && |back| == |g.edges| && |rank| == g.count
  {
    forall e :: 0 <= e < |g.edges| ==>
      (back[e] <==> g.edges[e].target.Some? && rank[g.edges[e].source] <= rank[g.edges[e].target.value])
  }

  // ---------- The search invariant ----------

  ghost predicate Placed(g: Graph, s: State, p: Places) {
    && |s.color| == g.count && |p.depth| == g.count && |p.rank| == g.count && |s.back| == |g.edges|
    && (forall v :: 0 <= v < g.count ==> (s.color[v] == Grey <==> p.depth[v] >= 0))
    && (forall v :: 0 <= v < g.count ==> (s.color[v] == Black <==> p.rank[v] >= 0))
    && (forall v :: 0 <= v < g.count && p.depth[v] >= 0 ==> p.depth[v] < |s.stack| && s.stack[p.depth[v]].node == v)
    && (forall v :: 0 <= v < g.count && p.rank[v] >= 0 ==> p.rank[v] < |s.finish| && s.finish[p.rank[v]] == v)
    && (forall k :: 0 <= k < |s.stack| ==> s.stack[k].node < g.count && p.depth[s.stack[k].node] == k)
    && (forall k :: 0 <= k < |s.finish| ==> s.finish[k] < g.count && p.rank[s.finish[k]] == k)
  }

  /** Consecutive frames are joined by the edge the lower one last followed. */
  ghost predicate Linked(g: Graph, s: State)
    requires WellFormed(g)
  {
    && (forall k :: 0 <= k < |s.stack| ==>
          s.stack[k].node < g.count && s.stack[k].next <= |g.outgoing[s.stack[k].node]|)
    && (forall k :: 0 <= k < |s.stack| - 1 ==>
          && 0 < s.stack[k].next
          && g.edges[g.outgoing[s.stack[k].node][s.stack[k].next - 1]].target == Some(s.stack[k + 1].node))
  }

  /** Has the search already looked at edge e? */
  ghost predicate Seen(g: Graph, s: State, p: Places, e: nat)
    requires WellFormed(g) && Placed(g, s, p) && e < |g.edges|
  {
    var u := g.edges[e].source;
    match s.color[u]
    case White => false
    case Grey => g.edges[e].slot < s.stack[p.depth[u]].next
    case Black => true
  }

  /** A seen edge is the one the search is currently below. */
  ghost predicate Descending(g: Graph, s: State, p: Places, e: nat)
    requires WellFormed(g) && Placed(g, s, p) && e < |g.edges|
  {
    var u := g.edges[e].source;
    && s.color[u] == Grey && p.depth[u] < |s.stack| - 1
    && g.edges[e].slot == s.stack[p.depth[u]].next - 1
  }

  ghost predicate Classified(g: Graph, s: State, p: Places, e: nat)
    requires WellFormed(g) && Placed(g, s, p) && e < |g.edges|
  {
    var u := g.edges[e].source;
    if !Seen(g, s, p, e) || Descending(g, s, p, e) || g.edges[e].target.None? then !s.back[e]
    else
      var v := g.edges[e].target.value;
      if s.back[e] then
        && s.color[v] != White
        && (s.color[u] == Grey ==> s.color[v] == Grey && p.depth[v] <= p.depth[u])
        && (s.color[u] == Black && s.color[v] == Black ==> p.rank[u] <= p.rank[v])
      else
        s.color[v] == Black && (s.color[u] == Black ==> p.rank[v] < p.rank[u])
  }

  ghost predicate AllClassified(g: Graph, s: State, p: Places)
    requires WellFormed(g) && Placed(g, s, p)
  {
    forall e :: 0 <= e < |g.edges| ==> Classified(g, s, p, e)
  }

  ghost predicate BackClosesCycle(g: Graph, back: seq<bool>)
    requires |back| == |g.edges|
  {
    forall e :: 0 <= e < |g.edges| && back[e] ==>
      g.edges[e].target.Some? && Reaches(g, g.edges[e].target.value, g.edges[e].source)
  }

  ghost predicate Searching(g: Graph, s: State, p: Places) {
    && WellFormed(g) && Placed(g, s, p) && Linked(g, s)
    && AllClassified(g, s, p) && BackClosesCycle(g, s.back)
  }

  // ---------- The three moves ----------

  /** Every lower frame reaches every higher one. */
  lemma {:induction false} StackReaches(g: Graph, s: State, j: nat, k: nat)
    requires WellFormed(g) && Linked(g, s)
    requires j <= k < |s.stack|
    ensures Reaches(g, s.stack[j].node, s.stack[k].node)
  {
    if j == k {
      ReachSelf(g, s.stack[j].node);
    } else {
      var i := k - 1;
      StackReaches(g, s, j, i);
      assert g.edges[g.outgoing[s.stack[i].node][s.stack[i].next - 1]].target == Some(s.stack[i + 1].node);
      ExtendReach(g, s.stack[j].node, g.outgoing[s.stack[i].node][s.stack[i].next - 1]);
    }
  }

  /** The top block has no edge left: blacken it and pop its frame. */
  function Finished(s: State): State
    requires s.stack != [] && s.stack[|s.stack| - 1].node < |s.color|
  {
    var node := s.stack[|s.stack| - 1].node;
    s.(color := s.color[node := Black], finish := s.finish + [node], stack := s.stack[..|s.stack| - 1])
  }

  /** Step the top frame past its next edge. */
  function Advanced(s: State): State
    requires s.stack != []
  {
    var top := s.stack[|s.stack| - 1];
    s.(stack := s.stack[|s.stack| - 1 := top.(next := top.next + 1)])
  }

  function Marked(s: State, e: nat): State
    requires s.stack != [] && e < |s.back|
  {
    Advanced(s).(back := s.back[e := true])
  }

  function Entered(s: State, v: nat): State
    requires v < |s.color|
  {
    s.(color := s.color[v := Grey], stack := s.stack + [Frame(v, 0)])
  }

  /** The edge the top frame looks at next. */
  ghost function Current(g: Graph, s: State): (e: nat)
    requires WellFormed(g) && Linked(g, s) && s.stack != []
    requires s.stack[|s.stack| - 1].next < |g.outgoing[s.stack[|s.stack| - 1].node]|
    ensures e < |g.edges| && g.edges[e].source == s.stack[|s.stack| - 1].node
    ensures g.edges[e].slot == s.stack[|s.stack| - 1].next
  {
    g.outgoing[s.stack[|s.stack| - 1].node][s.stack[|s.stack| - 1].next]
  }

  lemma StartKeeps(g: Graph, s: State, p: Places, root: nat) returns (q: Places)
    requires Searching(g, s, p) && s.stack == []
    requires root < g.count && s.color[root] == White
    ensures Searching(g, Entered(s, root), q)
  {
    q := p.(depth := p.depth[root := 0]);
    var t := Entered(s, root);
    assert Placed(g, t, q);
    forall e | 0 <= e < |g.edges| ensures Classified(g, t, q, e) {
      assert Classified(g, s, p, e);
    }
  }

  lemma FinishKeeps(g: Graph, s: State, p: Places) returns (q: Places)
    requires Searching(g, s, p) && s.stack != []
    requires s.stack[|s.stack| - 1].next == |g.outgoing[s.stack[|s.stack| - 1].node]|
    ensures Searching(g, Finished(s), q)
  {
    var node := s.stack[|s.stack| - 1].node;
    q := Places(p.depth[node := -1], p.rank[node := |s.finish|]);
    var t := Finished(s);
    FinishPlaces(g, s, p, q);
    FinishLinks(g, s);
    forall e | 0 <= e < |g.edges| ensures Classified(g, t, q, e) {
      FinishClassifies(g, s, p, q, e);
    }
  }

  lemma FinishPlaces(g: Graph, s: State, p: Places, q: Places)
    requires Placed(g, s, p) && s.stack != []
    requires q == Places(p.depth[s.stack[|s.stack| - 1].node := -1], p.rank[s.stack[|s.stack| - 1].node := |s.finish|])
    ensures Placed(g, Finished(s), q)
  {
  }

  lemma FinishLinks(g: Graph, s: State)
    requires WellFormed(g) && Linked(g, s) && s.stack != [] && s.stack[|s.stack| - 1].node < |s.color|
    ensures Linked(g, Finished(s))
  {
    var t := Finished(s);
    forall k | 0 <= k < |t.stack| - 1
      ensures 0 < t.stack[k].next <= |g.outgoing[t.stack[k].node]|
      ensures g.edges[g.outgoing[t.stack[k].node][t.stack[k].next - 1]].target == Some(t.stack[k + 1].node)
    {
      assert t.stack[k] == s.stack[k] && t.stack[k + 1] == s.stack[k + 1];
    }
  }

  lemma FinishClassifies(g: Graph, s: State, p: Places, q: Places, e: nat)
    requires WellFormed(g) && Placed(g, s, p) && Linked(g, s) && s.stack != []
    requires s.stack[|s.stack| - 1].next == |g.outgoing[s.stack[|s.stack| - 1].node]|
    requires e < |g.edges| && Classified(g, s, p, e)
    requires q == Places(p.depth[s.stack[|s.stack| - 1].node := -1], p.rank[s.stack[|s.stack| - 1].node := |s.finish|])
    requires Placed(g, Finished(s), q)
    ensures Classified(g, Finished(s), q, e)
  {
  }

  lemma AdvanceKeeps(g: Graph, s: State, p: Places)
    requires Searching(g, s, p) && s.stack != []
    requires s.stack[|s.stack| - 1].next < |g.outgoing[s.stack[|s.stack| - 1].node]|
    requires var target := g.edges[Current(g, s)].target;
             target.Some? ==> s.color[target.value] == Black
    ensures Searching(g, Advanced(s), p)
  {
    var t := Advanced(s);
    AdvancePlaces(g, s, p);
    AdvanceLinks(g, s);
    forall e | 0 <= e < |g.edges| ensures Classified(g, t, p, e) {
      AdvanceClassifies(g, s, p, e);
    }
  }

  lemma AdvancePlaces(g: Graph, s: State, p: Places)
    requires Placed(g, s, p) && s.stack != []
    ensures Placed(g, Advanced(s), p)
  {
  }

  lemma AdvanceLinks(g: Graph, s: State)
    requires WellFormed(g) && Linked(g, s) && s.stack != []
    requires s.stack[|s.stack| - 1].next < |g.outgoing[s.stack[|s.stack| - 1].node]|
    ensures Linked(g, Advanced(s))
  {
    var t := Advanced(s);
    forall k | 0 <= k < |t.stack| - 1
      ensures 0 < t.stack[k].next <= |g.outgoing[t.stack[k].node]|
      ensures g.edges[g.outgoing[t.stack[k].node][t.stack[k].next - 1]].target == Some(t.stack[k + 1].node)
    {
      assert t.stack[k] == s.stack[k] && t.stack[k + 1].node == s.stack[k + 1].node;
    }
  }

  lemma AdvanceClassifies(g: Graph, s: State, p: Places, e: nat)
    requires WellFormed(g) && Placed(g, s, p) && Linked(g, s) && s.stack != []
    requires s.stack[|s.stack| - 1].next < |g.outgoing[s.stack[|s.stack| - 1].node]|
    requires var target := g.edges[Current(g, s)].target;
             target.Some? ==> s.color[target.value] == Black
    requires e < |g.edges| && Classified(g, s, p, e)
    requires Placed(g, Advanced(s), p)
    ensures Classified(g, Advanced(s), p, e)
  {
    if e == Current(g, s) {
      assert !Seen(g, s, p, e);
    }
  }

  lemma MarkKeeps(g: Graph, s: State, p: Places)
    requires Searching(g, s, p) && s.stack != []
    requires s.stack[|s.stack| - 1].next < |g.outgoing[s.stack[|s.stack| - 1].node]|
    requires var target := g.edges[Current(g, s)].target;
             target.Some? && s.color[target.value] == Grey
    ensures Searching(g, Marked(s, Current(g, s)), p)
  {
    var t := Marked(s, Current(g, s));
    MarkPlaces(g, s, p, Current(g, s));
    MarkLinks(g, s);
    forall e | 0 <= e < |g.edges| ensures Classified(g, t, p, e) {
      MarkClassifies(g, s, p, e);
    }
    MarkClosesCycle(g, s, p);
  }

  lemma MarkPlaces(g: Graph, s: State, p: Places, e: nat)
    requires Placed(g, s, p) && s.stack != [] && e < |s.back|
    ensures Placed(g, Marked(s, e), p)
  {
  }

  lemma MarkLinks(g: Graph, s: State)
    requires WellFormed(g) && Linked(g, s) && s.stack != [] && |s.back| == |g.edges|
    requires s.stack[|s.stack| - 1].next < |g.outgoing[s.stack[|s.stack| - 1].node]|
    ensures Linked(g, Marked(s, Current(g, s)))
  {
    var t := Marked(s, Current(g, s));
    forall k | 0 <= k < |t.stack| - 1
      ensures 0 < t.stack[k].next <= |g.outgoing[t.stack[k].node]|
      ensures g.edges[g.outgoing[t.stack[k].node][t.stack[k].next - 1]].target == Some(t.stack[k + 1].node)
    {
      assert t.stack[k].node == s.stack[k].node;
    }
  }

  lemma MarkClassifies(g: Graph, s: State, p: Places, e: nat)
    requires WellFormed(g) && Placed(g, s, p) && Linked(g, s) && s.stack != []
    requires s.stack[|s.stack| - 1].next < |g.outgoing[s.stack[|s.stack| - 1].node]|
    requires var target := g.edges[Current(g, s)].target;
             target.Some? && s.color[target.value] == Grey
    requires e < |g.edges| && Classified(g, s, p, e)
    requires Placed(g, Marked(s, Current(g, s)), p)
    ensures Classified(g, Marked(s, Current(g, s)), p, e)
  {
    if e == Current(g, s) {
      assert Marked(s, Current(g, s)).back[e];
    }
  }

  lemma MarkClosesCycle(g: Graph, s: State, p: Places)
    requires WellFormed(g) && Placed(g, s, p) && Linked(g, s) && s.stack != [] && BackClosesCycle(g, s.back)
    requires s.stack[|s.stack| - 1].next < |g.outgoing[s.stack[|s.stack| - 1].node]|
    requires var target := g.edges[Current(g, s)].target;
             target.Some? && s.color[target.value] == Grey
    ensures BackClosesCycle(g, Marked(s, Current(g, s)).back)
  {
    StackReaches(g, s, p.depth[g.edges[Current(g, s)].target.value], |s.stack| - 1);
  }

  lemma DescendKeeps(g: Graph, s: State, p: Places) returns (q: Places)
    requires Searching(g, s, p) && s.stack != []
    requires s.stack[|s.stack| - 1].next < |g.outgoing[s.stack[|s.stack| - 1].node]|
    requires var target := g.edges[Current(g, s)].target;
             target.Some? && s.color[target.value] == White
    ensures Searching(g, Entered(Advanced(s), g.edges[Current(g, s)].target.value), q)
  {
    var v := g.edges[Current(g, s)].target.value;
    q := p.(depth := p.depth[v := |s.stack|]);
    var t := Entered(Advanced(s), v);
    DescendPlaces(g, s, p, v);
    DescendLinks(g, s);
    forall e | 0 <= e < |g.edges| ensures Classified(g, t, q, e) {
      DescendClassifies(g, s, p, q, e);
    }
  }

  lemma DescendPlaces(g: Graph, s: State, p: Places, v: nat)
    requires Placed(g, s, p) && s.stack != [] && v < g.count && s.color[v] == White
    ensures Placed(g, Entered(Advanced(s), v), p.(depth := p.depth[v := |s.stack|]))
  {
  }

  lemma DescendLinks(g: Graph, s: State)
    requires WellFormed(g) && Linked(g, s) && s.stack != [] && |s.color| == g.count
    requires s.stack[|s.stack| - 1].next < |g.outgoing[s.stack[|s.stack| - 1].node]|
    requires g.edges[Current(g, s)].target.Some?
    ensures Linked(g, Entered(Advanced(s), g.edges[Current(g, s)].target.value))
  {
    var t := Entered(Advanced(s), g.edges[Current(g, s)].target.value);
    forall k | 0 <= k < |t.stack| - 1
      ensures 0 < t.stack[k].next <= |g.outgoing[t.stack[k].node]|
      ensures g.edges[g.outgoing[t.stack[k].node][t.stack[k].next - 1]].target == Some(t.stack[k + 1].node)
    {
      assert t.stack[k].node == s.stack[k].node;
    }
  }

  lemma DescendClassifies(g: Graph, s: State, p: Places, q: Places, e: nat)
    requires WellFormed(g) && Placed(g, s, p) && Linked(g, s) && s.stack != []
    requires s.stack[|s.stack| - 1].next < |g.outgoing[s.stack[|s.stack| - 1].node]|
    requires var target := g.edges[Current(g, s)].target;
             target.Some? && s.color[target.value] == White
    requires e < |g.edges| && Classified(g, s, p, e)
    requires q == p.(depth := p.depth[g.edges[Current(g, s)].target.value := |s.stack|])
    requires Placed(g, Entered(Advanced(s), g.edges[Current(g, s)].target.value), q)
    ensures Classified(g, Entered(Advanced(s), g.edges[Current(g, s)].target.value), q, e)
  {
  }

  // ---------- Which edge of a cycle is marked ----------

  /** Edges that take no part in layering. */
  ghost function Skipped(back: seq<bool>): set<nat> {
    set e: nat | e < |back| && back[e]
  }

  /** The lowest block from which another one can be reached. */
  ghost predicate Lowest(g: Graph, r: nat, u: nat) {
    r < g.count && Reaches(g, r, u) && forall q: nat :: q < r ==> !Reaches(g, q, u)
  }

  /** No edge of a walk leaves this block. */
  ghost predicate Avoids(g: Graph, p: seq<nat>, u: nat) {
    forall k :: 0 <= k < |p| ==> p[k] < |g.edges| && g.edges[p[k]].source != u
  }

  /** One way leads to the target of an edge without visiting its source, and one from the target to the source. */
  ghost predicate GuidedBy(g: Graph, skip: set<nat>, e: nat, r: nat, out: seq<nat>, home: seq<nat>)
    requires e < |g.edges| && g.edges[e].target.Some?
  {
    var u, v := g.edges[e].source, g.edges[e].target.value;
    Lowest(g, r, u) && Walk(g, skip, out, r, v) && (u != v ==> Avoids(g, out, u)) && Walk(g, skip, home, v, u)
  }

  ghost predicate Guided(g: Graph, skip: set<nat>, e: nat) {
    && e < |g.edges| && g.edges[e].target.Some?
    && exists r, out, home :: GuidedBy(g, skip, e, r, out, home)
  }

  ghost predicate FoundBy(g: Graph, skip: set<nat>, x: nat, r: nat, p: seq<nat>) {
    Lowest(g, r, x) && Walk(g, skip, p, r, x)
  }

  /** A block is found from the lowest block that reaches it. */
  ghost predicate Found(g: Graph, skip: set<nat>, x: nat) {
    exists r, p :: FoundBy(g, skip, x, r, p)
  }

  /** Marked edges run against a way around them, and every block is found, along unmarked edges alone. */
  ghost predicate MarksGuided(g: Graph, back: seq<bool>) {
    && (forall e: nat :: e < |back| && back[e] ==> Guided(g, Skipped(back), e))
    && (forall x: nat :: x < g.count ==> Found(g, Skipped(back), x))
  }

  /** The edges that the search has not passed yet, or has marked. */
  ghost function Unpassed(g: Graph, s: State, p: Places): set<nat>
    requires WellFormed(g) && Placed(g, s, p)
  {
    set e: nat | e < |g.edges| && (s.back[e] || !Seen(g, s, p, e))
  }

  /** So far, along edges passed and not marked. */
  ghost predicate Oriented(g: Graph, s: State, p: Places)
    requires WellFormed(g) && Placed(g, s, p)
  {
    && (forall e: nat :: e < |s.back| && s.back[e] ==> Guided(g, Unpassed(g, s, p), e))
    && (forall x: nat :: x < |s.color| && s.color[x] != White ==> Found(g, Unpassed(g, s, p), x))
  }

  /** Edges lead from these blocks to these blocks only. */
  ghost predicate Closed(g: Graph, done: set<nat>) {
    forall e :: 0 <= e < |g.edges| && g.edges[e].source in done && g.edges[e].target.Some? ==>
      g.edges[e].target.value in done
  }

  /** What was finished before this root stays finished, and holds all blocks below the root. */
  ghost predicate Rooted(s: State, done: set<nat>, root: nat) {
    && (forall x :: x in done ==> x < |s.color| && s.color[x] == Black)
    && (forall q: nat :: q < root ==> q in done)
    && (s.stack != [] ==> s.stack[0].node == root)
  }

  lemma {:induction false} FewerSkipped(g: Graph, fewer: set<nat>, skip: set<nat>, p: seq<nat>, u: nat, v: nat)
    requires fewer <= skip && Walk(g, skip, p, u, v)
    ensures Walk(g, fewer, p, u, v)
    decreases |p|
  {
    if p != [] {
      FewerSkipped(g, fewer, skip, p[..|p| - 1], u, g.edges[p[|p| - 1]].source);
    }
  }

  lemma GuidedStays(g: Graph, fewer: set<nat>, skip: set<nat>, e: nat)
    requires fewer <= skip && Guided(g, skip, e)
    ensures Guided(g, fewer, e)
  {
    var r, out, home :| GuidedBy(g, skip, e, r, out, home);
    FewerSkipped(g, fewer, skip, out, r, g.edges[e].target.value);
    FewerSkipped(g, fewer, skip, home, g.edges[e].target.value, g.edges[e].source);
    assert GuidedBy(g, fewer, e, r, out, home);
  }

  lemma FoundStays(g: Graph, fewer: set<nat>, skip: set<nat>, x: nat)
    requires fewer <= skip && Found(g, skip, x)
    ensures Found(g, fewer, x)
  {
    var r, p :| FoundBy(g, skip, x, r, p);
    FewerSkipped(g, fewer, skip, p, r, x);
    assert FoundBy(g, fewer, x, r, p);
  }

  lemma {:induction false} ClosedWalk(g: Graph, done: set<nat>, p: seq<nat>, u: nat, v: nat)
    requires Closed(g, done) && u in done && Walk(g, {}, p, u, v)
    ensures v in done
    decreases |p|
  {
    if p != [] {
      ClosedWalk(g, done, p[..|p| - 1], u, g.edges[p[|p| - 1]].source);
    }
  }

  /** The frames of the stack are joined by edges passed and not marked. */
  lemma {:induction false} StackWalk(g: Graph, s: State, p: Places, j: nat, k: nat) returns (w: seq<nat>)
    requires Searching(g, s, p) && j <= k < |s.stack|
    ensures Walk(g, Unpassed(g, s, p), w, s.stack[j].node, s.stack[k].node) && |w| == k - j
    ensures forall i :: 0 <= i < |w| ==> w[i] < |g.edges| && g.edges[w[i]].source == s.stack[j + i].node
    decreases k - j
  {
    hide Searching, Placed, Unpassed;
    if j == k {
      w := [];
    } else {
      var front := StackWalk(g, s, p, j, k - 1);
      var e := Link(g, s, p, k - 1);
      w := front + [e];
      assert w[..|w| - 1] == front;
    }
  }

  /** The edge between two frames. */
  lemma Link(g: Graph, s: State, p: Places, k: nat) returns (e: nat)
    requires Searching(g, s, p) && k + 1 < |s.stack|
    ensures e < |g.edges| && e !in Unpassed(g, s, p)
    ensures g.edges[e].source == s.stack[k].node && g.edges[e].target == Some(s.stack[k + 1].node)
  {
    var frame := s.stack[k];
    e := g.outgoing[frame.node][frame.next - 1];
    assert p.depth[frame.node] == k;
    assert Descending(g, s, p, e) && Seen(g, s, p, e);
    assert Classified(g, s, p, e);
  }

  /** The root is the lowest block that reaches any frame. */
  lemma BottomLowest(g: Graph, s: State, p: Places, done: set<nat>, root: nat, k: nat)
    requires Searching(g, s, p) && Closed(g, done) && Rooted(s, done, root) && k < |s.stack|
    ensures Lowest(g, root, s.stack[k].node)
  {
    var u := s.stack[k].node;
    StackReaches(g, s, 0, k);
    assert p.depth[u] == k;
    forall q: nat | q < root ensures !Reaches(g, q, u) {
      if Reaches(g, q, u) {
        var w :| Walk(g, {}, w, q, u);
        ClosedWalk(g, done, w, q, u);
      }
    }
  }

  /** The top frame is found. */
  lemma TopFound(g: Graph, s: State, p: Places, done: set<nat>, root: nat)
    requires Searching(g, s, p) && Closed(g, done) && Rooted(s, done, root) && s.stack != []
    ensures Found(g, Unpassed(g, s, p), s.stack[|s.stack| - 1].node)
  {
    var k := |s.stack| - 1;
    BottomLowest(g, s, p, done, root, k);
    var w := StackWalk(g, s, p, 0, k);
    assert FoundBy(g, Unpassed(g, s, p), s.stack[k].node, root, w);
  }

  /** An edge from the top frame to a lower one runs against the stack. */
  lemma TopGuided(g: Graph, s: State, p: Places, done: set<nat>, root: nat)
    requires Searching(g, s, p) && Closed(g, done) && Rooted(s, done, root) && s.stack != []
    requires s.stack[|s.stack| - 1].next < |g.outgoing[s.stack[|s.stack| - 1].node]|
    requires var target := g.edges[Current(g, s)].target;
             target.Some? && s.color[target.value] == Grey
    ensures Guided(g, Unpassed(g, s, p), Current(g, s))
  {
    var e, top := Current(g, s), |s.stack| - 1;
    var u, v := g.edges[e].source, g.edges[e].target.value;
    var k := p.depth[v];
    BottomLowest(g, s, p, done, root, top);
    var out := StackWalk(g, s, p, 0, k);
    var home := StackWalk(g, s, p, k, top);
    if u != v {
      forall i | 0 <= i < |out| ensures out[i] < |g.edges| && g.edges[out[i]].source != u {
        assert p.depth[s.stack[i].node] == i && p.depth[u] == top;
      }
    }
    assert GuidedBy(g, Unpassed(g, s, p), e, root, out, home);
  }

  /** Black stays black, and every frame is finished or still there, as far or further on. */
  ghost predicate Later(s: State, t: State) {
    && |t.color| == |s.color|
    && (forall v :: 0 <= v < |s.color| && s.color[v] == Black ==> t.color[v] == Black)
    && (forall k :: 0 <= k < |s.stack| ==> FrameLater(s, t, k))
  }

  ghost predicate FrameLater(s: State, t: State, k: nat)
    requires k < |s.stack|
  {
    || (s.stack[k].node < |t.color| && t.color[s.stack[k].node] == Black)
    || (k < |t.stack| && t.stack[k].node == s.stack[k].node && s.stack[k].next <= t.stack[k].next)
  }

  lemma PassesMore(g: Graph, s: State, p: Places, t: State, q: Places)
    requires WellFormed(g) && Placed(g, s, p) && Placed(g, t, q) && Later(s, t)
    requires forall e :: 0 <= e < |g.edges| && t.back[e] && !s.back[e] ==> !Seen(g, s, p, e)
    ensures Unpassed(g, t, q) <= Unpassed(g, s, p)
  {
    forall e: nat | e < |g.edges| && Seen(g, s, p, e) ensures Seen(g, t, q, e) {
      var u := g.edges[e].source;
      if s.color[u] == Grey {
        var k := p.depth[u];
        assert FrameLater(s, t, k);
        if t.color[u] != Black {
          assert q.depth[t.stack[k].node] == k;
        }
      }
    }
  }

  /** A turn keeps what is oriented when it passes more edges and orients what it adds. */
  lemma OrientedStays(g: Graph, s: State, p: Places, t: State, q: Places)
    requires WellFormed(g) && Placed(g, s, p) && Placed(g, t, q) && Oriented(g, s, p)
    requires Unpassed(g, t, q) <= Unpassed(g, s, p)
    requires forall e: nat :: e < |t.back| && t.back[e] && !s.back[e] ==> Guided(g, Unpassed(g, s, p), e)
    requires forall x: nat :: x < |t.color| && t.color[x] != White && s.color[x] == White ==>
               Found(g, Unpassed(g, t, q), x)
    ensures Oriented(g, t, q)
  {
    forall e: nat | e < |t.back| && t.back[e] ensures Guided(g, Unpassed(g, t, q), e) {
      GuidedStays(g, Unpassed(g, t, q), Unpassed(g, s, p), e);
    }
    forall x: nat | x < |t.color| && t.color[x] != White ensures Found(g, Unpassed(g, t, q), x) {
      if s.color[x] != White {
        FoundStays(g, Unpassed(g, t, q), Unpassed(g, s, p), x);
      }
    }
  }

  lemma FinishOrients(g: Graph, s: State, p: Places, q: Places)
    requires Searching(g, s, p) && s.stack != [] && Oriented(g, s, p)
    requires Searching(g, Finished(s), q)
    ensures Oriented(g, Finished(s), q) && Later(s, Finished(s))
  {
    hide Oriented, Linked, AllClassified, BackClosesCycle;
    var t := Finished(s);
    forall k | 0 <= k < |s.stack| ensures FrameLater(s, t, k) {
      assert k < |t.stack| ==> t.stack[k] == s.stack[k];
    }
    PassesMore(g, s, p, t, q);
    OrientedStays(g, s, p, t, q);
  }

  lemma AdvanceOrients(g: Graph, s: State, p: Places)
    requires Searching(g, s, p) && s.stack != [] && Oriented(g, s, p)
    requires Searching(g, Advanced(s), p)
    ensures Oriented(g, Advanced(s), p) && Later(s, Advanced(s))
  {
    hide Oriented, Linked, AllClassified, BackClosesCycle;
    var t := Advanced(s);
    forall k | 0 <= k < |s.stack| ensures FrameLater(s, t, k) {
    }
    PassesMore(g, s, p, t, p);
    OrientedStays(g, s, p, t, p);
  }

  lemma MarkOrients(g: Graph, s: State, p: Places, done: set<nat>, root: nat)
    requires Searching(g, s, p) && s.stack != [] && Oriented(g, s, p) && Closed(g, done) && Rooted(s, done, root)
    requires s.stack[|s.stack| - 1].next < |g.outgoing[s.stack[|s.stack| - 1].node]|
    requires var target := g.edges[Current(g, s)].target;
             target.Some? && s.color[target.value] == Grey
    requires Searching(g, Marked(s, Current(g, s)), p)
    ensures Oriented(g, Marked(s, Current(g, s)), p) && Later(s, Marked(s, Current(g, s)))
  {
    hide Oriented, Linked, AllClassified, BackClosesCycle, Rooted, Closed, Guided;
    var t, e := Marked(s, Current(g, s)), Current(g, s);
    forall k | 0 <= k < |s.stack| ensures FrameLater(s, t, k) {
    }
    assert p.depth[g.edges[e].source] == |s.stack| - 1;
    PassesMore(g, s, p, t, p);
    TopGuided(g, s, p, done, root);
    OrientedStays(g, s, p, t, p);
  }

  lemma DescendOrients(g: Graph, s: State, p: Places, v: nat, q: Places, done: set<nat>, root: nat)
    requires Searching(g, s, p) && s.stack != [] && Oriented(g, s, p) && Closed(g, done) && Rooted(s, done, root)
    requires v < |s.color| && s.color[v] == White && Searching(g, Entered(Advanced(s), v), q)
    ensures Oriented(g, Entered(Advanced(s), v), q) && Later(s, Entered(Advanced(s), v))
  {
    hide Oriented, Linked, AllClassified, BackClosesCycle, Closed, Found;
    var t := Entered(Advanced(s), v);
    forall k | 0 <= k < |s.stack| ensures FrameLater(s, t, k) {
    }
    PassesMore(g, s, p, t, q);
    TopFound(g, t, q, done, root);
    OrientedStays(g, s, p, t, q);
  }

  /** The first frame of a search. */
  lemma StartOrients(g: Graph, s: State, p: Places, root: nat, q: Places) returns (done: set<nat>)
    requires Searching(g, s, p) && s.stack == [] && Oriented(g, s, p)
    requires root < g.count && s.color[root] == White && forall v :: 0 <= v < root ==> s.color[v] != White
    requires Searching(g, Entered(s, root), q)
    ensures Closed(g, done) && Rooted(Entered(s, root), done, root) && Oriented(g, Entered(s, root), q)
  {
    hide Oriented, BackClosesCycle, Found;
    var t := Entered(s, root);
    done := set x: nat | x < |s.color| && s.color[x] == Black;
    FinishedClosed(g, s, p, done);
    assert Later(s, t);
    PassesMore(g, s, p, t, q);
    TopFound(g, t, q, done, root);
    OrientedStays(g, s, p, t, q);
  }

  /** With no frame left, edges of finished blocks lead to finished blocks. */
  lemma FinishedClosed(g: Graph, s: State, p: Places, done: set<nat>)
    requires Searching(g, s, p) && s.stack == [] && done == set x: nat | x < |s.color| && s.color[x] == Black
    ensures Closed(g, done)
  {
    forall e | 0 <= e < |g.edges| && g.edges[e].source in done && g.edges[e].target.Some?
      ensures g.edges[e].target.value in done
    {
      assert Classified(g, s, p, e) && Seen(g, s, p, e);
    }
  }

  /** With all blocks finished, the edges passed over are the marked ones. */
  lemma AllOriented(g: Graph, s: State, p: Places)
    requires Searching(g, s, p) && s.stack == [] && Oriented(g, s, p)
    requires forall v :: 0 <= v < g.count ==> s.color[v] != White
    ensures MarksGuided(g, s.back)
  {
    hide Guided, Found;
    assert forall v :: 0 <= v < g.count ==> s.color[v] == Black;
    assert Unpassed(g, s, p) == Skipped(s.back);
  }

  lemma RootedStays(s: State, t: State, done: set<nat>, root: nat)
    requires Rooted(s, done, root) && Later(s, t) && s.stack != []
    requires t.stack != [] ==> t.stack[0].node == s.stack[0].node
    ensures Rooted(t, done, root)
  {
  }

  // ---------- The search ----------

  ghost function Whites(color: seq<Color>): set<int> {
    set v | 0 <= v < |color| && color[v] == White
  }

  /** Edges the top frame has still to look at. */
  ghost function Remaining(g: Graph, s: State): int
    requires WellFormed(g) && Linked(g, s)
  {
    if s.stack == [] then 0
    else |g.outgoing[s.stack[|s.stack| - 1].node]| - s.stack[|s.stack| - 1].next
  }

  /** One turn of the inner loop: pop, step over, mark or descend. */
  method Step(g: Graph, s: State, ghost p: Places, ghost done: set<nat>, ghost root: nat)
    returns (t: State, ghost q: Places)
    requires Searching(g, s, p) && s.stack != []
    requires Oriented(g, s, p) && Closed(g, done) && Rooted(s, done, root)
    ensures Searching(g, t, q) && Oriented(g, t, q) && Rooted(t, done, root)
    ensures forall v :: 0 <= v < g.count && s.color[v] != White ==> t.color[v] != White
    ensures || Whites(t.color) < Whites(s.color)
            || (Whites(t.color) == Whites(s.color) && |t.stack| < |s.stack|)
            || (Whites(t.color) == Whites(s.color) && |t.stack| == |s.stack| && Remaining(g, t) < Remaining(g, s))
  {
    hide Oriented, Closed, Rooted, AllClassified, BackClosesCycle, Later;
    var top := s.stack[|s.stack| - 1];
    if top.next == |g.outgoing[top.node]| {
      q := FinishKeeps(g, s, p);
      t := Finished(s);
      FinishOrients(g, s, p, q);
      RootedStays(s, t, done, root);
      assert Whites(t.color) == Whites(s.color);
      return;
    }
    var e := g.outgoing[top.node][top.next];
    var target := g.edges[e].target;
    if target.Some? && s.color[target.value] == Grey {
      MarkKeeps(g, s, p);
      MarkOrients(g, s, p, done, root);
      t, q := Marked(s, e), p;
    } else if target.Some? && s.color[target.value] == White {
      q := DescendKeeps(g, s, p);
      t := Entered(Advanced(s), target.value);
      DescendOrients(g, s, p, target.value, q, done, root);
      assert Whites(t.color) == Whites(s.color) - {target.value as int};
    } else {
      AdvanceKeeps(g, s, p);
      AdvanceOrients(g, s, p);
      t, q := Advanced(s), p;
    }
    RootedStays(s, t, done, root);
  }

  /** The search below one white root. */
  method SearchFrom(g: Graph, s0: State, ghost p0: Places, root: nat) returns (s: State, ghost p: Places)
    requires Searching(g, s0, p0) && s0.stack == [] && Oriented(g, s0, p0)
    requires root < g.count && s0.color[root] == White && forall v :: 0 <= v < root ==> s0.color[v] != White
    ensures Searching(g, s, p) && s.stack == [] && Oriented(g, s, p)
    ensures forall v :: 0 <= v < g.count && (s0.color[v] != White || v == root) ==> s.color[v] != White
  {
    hide Oriented, Closed, Rooted, AllClassified, BackClosesCycle;
    p := StartKeeps(g, s0, p0, root);
    s := Entered(s0, root);
    ghost var done := StartOrients(g, s0, p0, root, p);
    while s.stack != []
      invariant Searching(g, s, p) && Oriented(g, s, p) && Rooted(s, done, root)
      invariant forall v :: 0 <= v < g.count && (s0.color[v] != White || v == root) ==> s.color[v] != White
      decreases Whites(s.color), |s.stack|, Remaining(g, s)
    {
      s, p := Step(g, s, p, done, root);
    }
  }

  /**
   Finishes every block exactly once; marks exactly the edges whose target does not finish
   before their source. Each of those closes a cycle, against the way in which the cycle is
   entered from the lowest block that reaches it.
   */
  method MarkBackEdges(g: Graph) returns (finish: seq<nat>, back: seq<bool>, ghost rank: seq<int>)
    requires WellFormed(g)
    ensures Permutation(finish, g.count) && FinishRank(finish, rank)
    ensures |back| == |g.edges| && BackIffFinishesLater(g, back, rank) && BackClosesCycle(g, back)
    ensures MarksGuided(g, back)
  {
    hide WellFormed, Linked, AllClassified, BackClosesCycle, Oriented, BackIffFinishesLater, Permutation, FinishRank,
         MarksGuided;
    var s := Unsearched(g);
    ghost var p := Nowhere(g);
    NothingSearched(g);
    for root := 0 to g.count
      invariant Searching(g, s, p) && s.stack == [] && Oriented(g, s, p)
      invariant forall v :: 0 <= v < root ==> s.color[v] != White
    {
      if s.color[root] == White {
        s, p := SearchFrom(g, s, p, root);
      }
    }
    finish, back, rank := s.finish, s.back, p.rank;
    AllFinished(g, s, p);
    AllOriented(g, s, p);
  }

  function Unsearched(g: Graph): State {
    State(seq(g.count, _ => White), [], [], seq(|g.edges|, _ => false))
  }

  ghost function Nowhere(g: Graph): Places { Places(seq(g.count, _ => -1), seq(g.count, _ => -1)) }

  lemma NothingSearched(g: Graph)
    requires WellFormed(g)
    ensures Searching(g, Unsearched(g), Nowhere(g)) && Oriented(g, Unsearched(g), Nowhere(g))
  {
  }

  lemma AllFinished(g: Graph, s: State, p: Places)
    requires Searching(g, s, p) && s.stack == []
    requires forall v :: 0 <= v < g.count ==> s.color[v] != White
    ensures Permutation(s.finish, g.count) && FinishRank(s.finish, p.rank)
    ensures BackIffFinishesLater(g, s.back, p.rank)
  {
    assert forall v :: 0 <= v < g.count ==> s.color[v] == Black;
    forall v | 0 <= v < g.count ensures v in s.finish {
      assert s.finish[p.rank[v]] == v;
    }
    ListingSize(s.finish, g.count);
    forall e | 0 <= e < |g.edges|
      ensures s.back[e] <==> g.edges[e].target.Some? && p.rank[g.edges[e].source] <= p.rank[g.edges[e].target.value]
    {
      assert Classified(g, s, p, e);
    }
  }
}
