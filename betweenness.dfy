/** The unweighted betweenness centrality engine (BetweennessCentrality.java):
    one pass per source node, each a traversal of the outgoing relationships
    that records shortest-path predecessors in lazily created `Path` buffers,
    followed by a dependency accumulation in reverse push order. The engine
    is modelled as the source writes it, including where it departs from the
    textbook algorithm (see the README). */
module Betweenness {
  import opened Sequences
  import opened PathStore
  import opened BetweennessSpec

  /** A predecessor buffer `b` with storage `s` holds `p`: a null buffer
      stands for None, otherwise its entries are the recorded ones. */
  ghost predicate BufferHolds(b: Path?, s: array?<int>, p: Option<seq<int>>)
    reads b, s
  {
    (b == null <==> p.None?) &&
    (b != null ==> s != null && b.nodes == s && b.Valid() && b.Elements() == p.value)
  }

  class BetweennessCentrality {
    const graph: Graph
    const centrality: array<real>
    const sigma: array<int>
    const delta: array<real>
    const d: array<int>
    const paths: array<Path?>
    /** The discovery stack (top at the end) and the deque, both used at
        their last end only. */
    var stack: seq<int>
    var queue: seq<int>
    /** What each predecessor buffer holds: None for a null entry of `paths`. */
    ghost var Preds: seq<Option<seq<int>>>
    /** The entries of `paths` and their storage arrays, as values. */
    ghost var Bufs: seq<Path?>
    ghost var Stores: seq<array?<int>>
    /** The path buffers and their storage arrays. */
    ghost var PathRepr: set<object>

    function N(): nat
    {
      graph.NodeCount()
    }

    ghost predicate Shaped()
    {
      graph.Valid() &&
      centrality.Length == N() && sigma.Length == N() && delta.Length == N() &&
      d.Length == N() && paths.Length == N() &&
      centrality != delta && sigma != d
    }

    ghost predicate Valid()
      reads this`Preds, this`Bufs, this`Stores, this`PathRepr, paths, PathRepr
    {
      Shaped() && |Preds| == N() && |Bufs| == N() && |Stores| == N() &&
      this !in PathRepr && paths !in PathRepr &&
      sigma !in PathRepr && d !in PathRepr && delta !in PathRepr && centrality !in PathRepr &&
      (forall i :: 0 <= i < N() ==> paths[i] == Bufs[i]) &&
      (forall i :: 0 <= i < N() ==>
        (Bufs[i] != null ==> Bufs[i] in PathRepr) && (Stores[i] != null ==> Stores[i] in PathRepr)) &&
      (forall i :: 0 <= i < N() ==> BufferHolds(Bufs[i], Stores[i], Preds[i])) &&
      (forall i, j :: 0 <= i < N() && 0 <= j < N() && i != j && Bufs[i] != null && Bufs[j] != null ==>
        Bufs[i] != Bufs[j] && Stores[i] != Stores[j])
    }

    /** The state of the breadth-first phase, as a value. */
    ghost function Scanned(): Scan
      reads this`stack, this`queue, this`Preds, sigma, d
    {
      Scan(stack, queue, Preds, sigma[..], d[..])
    }

    /** The tallies of the engine, as values. */
    ghost function Tally(): Tallies
      reads delta, centrality
    {
      Tallies(delta[..], centrality[..])
    }

    constructor (graph: Graph)
      requires graph.Valid()
      ensures Valid() && this.graph == graph && PathRepr == {}
      ensures fresh(centrality) && fresh(sigma) && fresh(delta) && fresh(d) && fresh(paths)
      ensures stack == [] && queue == []
      ensures forall i :: 0 <= i < N() ==>
        centrality[i] == 0.0 && sigma[i] == 0 && delta[i] == 0.0 && d[i] == 0 && Preds[i].None?
    {
      this.graph := graph;
      centrality := new real[graph.NodeCount()](_ => 0.0);
      stack := [];
      sigma := new int[graph.NodeCount()](_ => 0);
      d := new int[graph.NodeCount()](_ => 0);
      queue := [];
      paths := new Path?[graph.NodeCount()](_ => null);
      delta := new real[graph.NodeCount()](_ => 0.0);
      Preds := seq(graph.NodeCount(), _ => None);
      Bufs := seq(graph.NodeCount(), _ => null);
      Stores := seq(graph.NodeCount(), _ => null);
      PathRepr := {};
    }

    /** The first half of `append`: the buffer of `path` is created when it is null. */
    method EnsurePath(path: int)
      requires Valid() && 0 <= path < N()
      modifies this`Preds, this`Bufs, this`Stores, this`PathRepr, paths
      ensures Valid() && fresh(PathRepr - old(PathRepr))
      ensures paths[path] != null
      ensures Preds == old(Preds)[path := Some(Entries(old(Preds[path])))]
    {
      if paths[path] == null {
        var created := new Path.Default();
        paths[path] := created;
        PathRepr := PathRepr + {created, created.nodes};
        Preds := Preds[path := Some([])];
        Bufs := Bufs[path := created];
        Stores := Stores[path := created.nodes];
      }
    }

    /** The second half of `append`: `nodeId` is added to the existing buffer
        of `path`. */
    method AddToPath(path: int, nodeId: int)
      requires Valid() && 0 <= path < N() && paths[path] != null
      modifies this`Preds, this`Stores, this`PathRepr, PathRepr
      ensures Valid() && fresh(PathRepr - old(PathRepr))
      ensures Preds == old(Preds)[path := Some(Entries(old(Preds[path])) + [nodeId])]
    {
      var p: Path := paths[path];
      assert p == Bufs[path] && BufferHolds(Bufs[path], Stores[path], Preds[path]);
      assert forall i :: 0 <= i < N() && i != path && Bufs[i] != null ==>
        Bufs[i] != p && Stores[i] != p.nodes;
      p.Append(nodeId);
      PathRepr, Preds, Stores := PathRepr + {p.nodes}, Preds[path := Some(p.Elements())], Stores[path := p.nodes];
    }

    /** `append(path, nodeId)`: creates the buffer of `path` on first use and
        adds `nodeId` to it. */
    method Append(path: int, nodeId: int)
      requires Valid() && 0 <= path < N()
      modifies this`Preds, this`Bufs, this`Stores, this`PathRepr, paths, PathRepr
      ensures Valid() && fresh(PathRepr - old(PathRepr))
      ensures Preds == old(Preds)[path := Some(Entries(old(Preds[path])) + [nodeId])]
    {
      EnsurePath(path);
      AddToPath(path, nodeId);
    }

    /** `clearPaths`: empties every existing buffer and leaves null entries null. */
    method ClearPaths()
      requires Valid()
      modifies this`Preds, PathRepr
      ensures Valid() && PathRepr == old(PathRepr)
      ensures Preds == Cleared(old(Preds))
    {
      for i := 0 to N()
        invariant Valid() && PathRepr == old(PathRepr)
        invariant forall j :: 0 <= j < i ==> Preds[j] == Cleared(old(Preds))[j]
        invariant forall j :: i <= j < N() ==> Preds[j] == old(Preds[j])
      {
        ClearSlot(i);
      }
    }

    /** One step of `clearPaths`: the buffer of `i`, if any, is emptied. */
    method ClearSlot(i: int)
      requires Valid() && 0 <= i < N()
      modifies this`Preds, PathRepr
      ensures Valid() && PathRepr == old(PathRepr)
      ensures Preds == old(Preds)[i := if old(Preds[i]).None? then None else Some([])]
    {
      var p := paths[i];
      if p != null {
        p.Clear();
        Preds := Preds[i := Some([])];
      }
    }

    /** The reset at the start of `compute(node)`: buffers emptied, stack and
        deque cleared, path counts and dependencies zeroed, every distance
        unknown except the source's, and the source queued. */
    method Reset(node: int)
      requires Valid() && 0 <= node < N()
      modifies this`Preds, this`stack, this`queue, PathRepr, sigma, delta, d
      ensures Valid() && PathRepr == old(PathRepr)
      ensures Scanned() == StartScan(node, old(Preds))
      ensures forall i :: 0 <= i < N() ==> delta[i] == 0.0
    {
      ClearPaths();
      stack := [];
      queue := [];
      ResetCounters(node);
      queue := queue + [node];
      assert sigma[..] == StartScan(node, old(Preds)).sig;
      assert d[..] == StartScan(node, old(Preds)).dist;
    }

    /** The array part of the reset: path counts and dependencies zeroed,
        distances unknown, except a count of one and a distance of zero at
        the source. */
    method ResetCounters(node: int)
      requires Shaped() && 0 <= node < N()
      modifies sigma, delta, d
      ensures forall i :: 0 <= i < N() ==> sigma[i] == if i == node then 1 else 0
      ensures forall i :: 0 <= i < N() ==> delta[i] == 0.0
      ensures forall i :: 0 <= i < N() ==> d[i] == if i == node then 0 else -1
    {
      forall i | 0 <= i < sigma.Length {
        sigma[i] := 0;
      }
      forall i | 0 <= i < delta.Length {
        delta[i] := 0.0;
      }
      forall i | 0 <= i < d.Length {
        d[i] := -1;
      }
      sigma[node] := 1;
      d[node] := 0;
    }

    /** First sight of `target` from `v`: queued, one level below `v`. */
    method Discover(v: int, target: int)
      requires Shaped() && 0 <= v < N() && 0 <= target < N()
      modifies this`queue, d
      ensures queue == old(queue) + [target]
      ensures d[..] == old(d[..])[target := old(d[v]) + 1]
    {
      queue := queue + [target];
      d[target] := d[v] + 1;
    }

    /** `target` one level below `v`: it gains the path count of `v` and
        records `v` as a predecessor. */
    method Relax(v: int, target: int)
      requires Valid() && 0 <= v < N() && 0 <= target < N()
      modifies this`Preds, this`Bufs, this`Stores, this`PathRepr, paths, PathRepr, sigma
      ensures Valid() && fresh(PathRepr - old(PathRepr))
      ensures sigma[..] == old(sigma[..])[target := old(sigma[target] + sigma[v])]
      ensures Preds == old(Preds)[target := Some(Entries(old(Preds[target])) + [v])]
    {
      sigma[target] := sigma[target] + sigma[v];
      Append(target, v);
    }

    /** The relationship consumer of the breadth-first phase, for the
        relationship from `v` to `target`: an undiscovered target is queued,
        a target one level further gains paths, and any other target is left
        alone. */
    method Visit(v: int, target: int)
      requires Valid() && 0 <= v < N() && 0 <= target < N()
      modifies this`Preds, this`Bufs, this`Stores, this`PathRepr, this`queue, paths, PathRepr, sigma, d
      ensures Valid() && fresh(PathRepr - old(PathRepr))
      ensures Scanned() == VisitStep(old(Scanned()), v, target)
    {
      if d[target] < 0 {
        Discover(v, target);
      } else if d[target] == d[v] + 1 {
        Relax(v, target);
      }
    }

    /** The breadth-first phase from `node`: expands the most recently
        queued node until the deque is empty. */
    method Forward(node: int)
      requires Valid() && ScanFrontier(node, Scanned())
      modifies this`Preds, this`Bufs, this`Stores, this`PathRepr, this`stack, this`queue, paths, PathRepr, sigma, d
      ensures Valid() && fresh(PathRepr - old(PathRepr))
      ensures Scanned() == Explore(graph, node, old(Scanned()))
    {
      while queue != []
        invariant Valid() && fresh(PathRepr - old(PathRepr))
        invariant ScanFrontier(node, Scanned())
        invariant Explore(graph, node, Scanned()) == Explore(graph, node, old(Scanned()))
        decreases N() - |stack|
      {
        ExpandKeeps(graph, node, Scanned());
        Expand();
      }
    }

    /** One round of the breadth-first phase: the most recently queued node
        `v` leaves the deque, is pushed on the stack, and its outgoing
        relationships are visited. */
    method Expand()
      requires Valid() && queue != [] && 0 <= queue[|queue| - 1] < N()
      modifies this`Preds, this`Bufs, this`Stores, this`PathRepr, this`stack, this`queue, paths, PathRepr, sigma, d
      ensures Valid() && fresh(PathRepr - old(PathRepr))
      ensures Scanned() == ExpandStep(graph, old(Scanned()))
    {
      var v := queue[|queue| - 1];
      queue := queue[..|queue| - 1];
      stack := stack + [v];
      VisitAll(v);
    }

    /** `forEachRelationship(v, OUTGOING, ...)` of the breadth-first phase:
        every outgoing relationship of `v` is visited in order. */
    method VisitAll(v: int)
      requires Valid() && 0 <= v < N()
      modifies this`Preds, this`Bufs, this`Stores, this`PathRepr, this`queue, paths, PathRepr, sigma, d
      ensures Valid() && fresh(PathRepr - old(PathRepr))
      ensures Scanned() == VisitSteps(old(Scanned()), v, graph.adjacency[v])
    {
      for j := 0 to |graph.adjacency[v]|
        invariant Valid() && fresh(PathRepr - old(PathRepr))
        invariant Scanned() == VisitSteps(old(Scanned()), v, graph.adjacency[v][..j])
      {
        assert graph.adjacency[v][..j + 1][..j] == graph.adjacency[v][..j];
        Visit(v, graph.adjacency[v][j]);
      }
      assert graph.adjacency[v][..|graph.adjacency[v]|] == graph.adjacency[v];
    }

    /** The consumer of the predecessor loop for the popped node `w`, for
        the predecessor `v`. */
    method AccumulateOne(node: int, w: int, v: int)
      requires Shaped() && 0 <= w < N() && 0 <= v < N() && v != w && sigma[w] != 0
      modifies delta, centrality
      ensures Tally() == SweepOne(node, w, v, sigma[..], old(Tally()))
    {
      delta[v] := delta[v] + (sigma[v] as real / sigma[w] as real) * (delta[w] + 1.0);
      if w != node {
        centrality[w] := centrality[w] + delta[w];
      }
    }

    /** The predecessor loop for the popped node `w`, `paths[w].forEch`. */
    method Accumulate(node: int, w: int)
      requires Valid() && 0 <= w < N() && PredsWellFormed(Preds, N())
      requires Preds[w].Some? && (Preds[w].value != [] ==> sigma[w] != 0)
      modifies delta, centrality
      ensures Valid()
      ensures Tally() == Sweep(node, w, Preds[w].value, sigma[..], old(Tally()))
    {
      var p: Path := paths[w];
      assert BufferHolds(Bufs[w], Stores[w], Preds[w]);
      ghost var vs := Preds[w].value;
      for i := 0 to p.offset
        invariant p.nodes[..p.offset] == vs
        invariant Tally() == Sweep(node, w, vs[..i], sigma[..], old(Tally()))
      {
        assert vs[..i + 1][..i] == vs[..i];
        AccumulateOne(node, w, p.nodes[i]);
      }
      assert vs[..p.offset] == vs;
    }

    /** The backward phase from `node`: pops the stack and accumulates for
        each popped node, stopping where the source would dereference a null
        buffer or divide by a zero path count. */
    method Backward(node: int) returns (outcome: Outcome)
      requires Valid() && DrainReady(stack, Preds, sigma[..], Tally())
      modifies this`stack, delta, centrality
      ensures Valid()
      ensures Pass(outcome, Tally()) == Drain(node, old(stack), Preds, sigma[..], old(Tally()))
      ensures outcome.Completed? ==> stack == []
    {
      while stack != []
        invariant Valid()
        invariant DrainReady(stack, Preds, sigma[..], Tally())
        invariant Drain(node, stack, Preds, sigma[..], Tally()) ==
          Drain(node, old(stack), Preds, sigma[..], old(Tally()))
        decreases |stack|
      {
        var w := stack[|stack| - 1];
        stack := stack[..|stack| - 1];
        var p := paths[w];
        assert BufferHolds(Bufs[w], Stores[w], Preds[w]);
        if p == null {
          return NullPath(w);
        }
        if p.offset > 0 && sigma[w] == 0 {
          return ZeroSigma(w);
        }
        Accumulate(node, w);
      }
      return Completed;
    }

    /** One pass, `compute(node)`: reset, breadth-first phase, backward
        phase. Centralities never drop, the source's own does not change,
        nor does that of any node the pass does not reach; the pass completes
        exactly when every reached node has a buffer, and a path count where
        it has predecessors; a source without a buffer never completes. */
    method ComputeNode(node: int) returns (outcome: Outcome, ghost stacked: seq<int>)
      requires Valid() && 0 <= node < N()
      modifies this`Preds, this`Bufs, this`Stores, this`PathRepr, this`stack, this`queue,
        paths, PathRepr, sigma, delta, d, centrality
      ensures Valid() && fresh(PathRepr - old(PathRepr))
      ensures Traversed(graph, node, old(Preds)) == Scan(stacked, queue, Preds, sigma[..], d[..])
      ensures Pass(outcome, Tally()) == PassFrom(graph, node, old(Preds), old(centrality[..]))
      ensures Frontier(node, Preds, sigma[..], d[..], stacked, [])
      ensures Traversal(node, graph.adjacency, d[..], stacked)
      ensures forall i :: 0 <= i < N() ==> centrality[i] >= old(centrality[i])
      ensures centrality[node] == old(centrality[node])
      ensures forall i :: 0 <= i < N() && d[i] < 0 ==> centrality[i] == old(centrality[i])
      ensures outcome.Completed? <==>
        forall i :: 0 <= i < N() && d[i] >= 0 ==> Sound(Preds, sigma[..], i)
      ensures old(Preds[node]).None? ==> !outcome.Completed? && Preds[node].None?
      ensures forall i :: 0 <= i < N() && old(Preds[i]).Some? ==> Preds[i].Some?
    {
      ghost var held := centrality[..];
      Traverse(node);
      stacked := stack;
      PassFromFacts(graph, node, old(Preds), held);
      outcome := Settle(node, old(Preds), held);
    }

    /** The consumer `this::compute` that `compute()` hands to the node
        iteration: one pass, with what the iteration relies on. */
    method Consume(node: int) returns (outcome: Outcome)
      requires Valid() && 0 <= node < N()
      modifies this`Preds, this`Bufs, this`Stores, this`PathRepr, this`stack, this`queue,
        paths, PathRepr, sigma, delta, d, centrality
      ensures Valid() && fresh(PathRepr - old(PathRepr))
      ensures forall i :: 0 <= i < N() ==> centrality[i] >= old(centrality[i])
      ensures old(Preds[node]).None? ==> !outcome.Completed? && Preds[node].None?
      ensures forall i :: 0 <= i < N() && old(Preds[i]).Some? ==> Preds[i].Some?
      ensures Pass(outcome, Tally()) == PassFrom(graph, node, old(Preds), old(centrality[..]))
      ensures Preds == Traversed(graph, node, old(Preds)).preds
    {
      ghost var stacked;
      outcome, stacked := ComputeNode(node);
    }

    /** The backward phase of `compute(node)`, on the state its reset and
        breadth-first phase left over the buffers `preds` and the
        centralities `held`. */
    method Settle(node: int, ghost preds: seq<Option<seq<int>>>, ghost held: seq<real>) returns (outcome: Outcome)
      requires Valid() && 0 <= node < N() && |preds| == N() && |held| == N()
      requires Scanned() == Traversed(graph, node, preds)
      requires delta[..] == seq(N(), _ => 0.0) && centrality[..] == held
      modifies this`stack, delta, centrality
      ensures Valid()
      ensures Pass(outcome, Tally()) == PassFrom(graph, node, preds, held)
      ensures forall i :: 0 <= i < N() ==> centrality[i] >= held[i]
      ensures centrality[node] == held[node]
      ensures forall i :: 0 <= i < N() && d[i] < 0 ==> centrality[i] == held[i]
      ensures outcome.Completed? <==>
        forall i :: 0 <= i < N() && d[i] >= 0 ==> Sound(Preds, sigma[..], i)
      ensures preds[node].None? ==> !outcome.Completed?
    {
      PassFromFacts(graph, node, preds, held);
      ghost var r := Traversed(graph, node, preds);
      assert Tally() == Tallies(seq(N(), _ => 0.0), held);
      outcome := Backward(node);
      assert Preds == r.preds && sigma[..] == r.sig && d[..] == r.dist;
      ghost var pass := PassFrom(graph, node, preds, held);
      assert outcome == pass.outcome && centrality[..] == pass.tallies.centrality;
    }

    /** The reset and breadth-first phase of `compute(node)`: the state is
        `Traversed` of the buffers left by earlier passes, and no dependency
        has been accumulated yet. */
    method Traverse(node: int)
      requires Valid() && 0 <= node < N()
      modifies this`Preds, this`Bufs, this`Stores, this`PathRepr, this`stack, this`queue,
        paths, PathRepr, sigma, delta, d
      ensures Valid() && fresh(PathRepr - old(PathRepr))
      ensures Scanned() == Traversed(graph, node, old(Preds))
      ensures forall i :: 0 <= i < N() ==> delta[i] == 0.0
    {
      Reset(node);
      StartScanFrontier(node, old(Preds));
      Forward(node);
    }

    /** `compute()`: one pass per node in ascending id order, on top of the
        centralities already held; the first pass that fails ends it.
        `outcomes` records the outcome of each pass that ran, from source
        0 upwards. A pass can never create the buffer of its own source, so
        once node 0 has no buffer it never gets one, `compute()` never
        completes, and the centralities it leaves are those of the one pass
        from node 0. */
    method Compute() returns (outcome: Outcome, ghost outcomes: seq<Outcome>)
      requires Valid()
      modifies this`Preds, this`Bufs, this`Stores, this`PathRepr, this`stack, this`queue,
        paths, PathRepr, sigma, delta, d, centrality
      ensures Valid() && fresh(PathRepr - old(PathRepr))
      ensures forall i :: 0 <= i < N() ==> centrality[i] >= old(centrality[i])
      ensures |outcomes| <= N()
      ensures forall k :: 0 <= k < |outcomes| - 1 ==> outcomes[k].Completed?
      ensures outcome == if outcomes == [] then Completed else outcomes[|outcomes| - 1]
      ensures outcome.Completed? <==> |outcomes| == N() && forall k :: 0 <= k < |outcomes| ==> outcomes[k].Completed?
      ensures N() > 0 && old(Preds[0]).None? ==> |outcomes| == 1 && !outcome.Completed? && Preds[0].None?
      ensures N() > 0 && old(Preds[0]).None? ==>
        centrality[..] == PassFrom(graph, 0, old(Preds), old(centrality[..])).tallies.centrality
    {
      outcomes := [];
      for node := 0 to N()
        invariant Valid() && fresh(PathRepr - old(PathRepr))
        invariant forall i :: 0 <= i < N() ==> centrality[i] >= old(centrality[i])
        invariant |outcomes| == node && forall k :: 0 <= k < node ==> outcomes[k].Completed?
        invariant node == 0 ==> Preds == old(Preds)
        invariant node > 0 ==> old(Preds[0]).Some?
        invariant node == 0 ==> centrality[..] == old(centrality[..])
      {
        outcome := Consume(node);
        assert centrality[..] == Tally().centrality;
        outcomes := outcomes + [outcome];
        if !outcome.Completed? {
          return;
        }
      }
      outcome := Completed;
    }

    /** `resultStream`: one result per node, ascending, pairing the original
        id with the centrality. */
    function ResultStream(): (r: seq<Result>)
      reads centrality
      requires Shaped()
      ensures |r| == N()
      ensures forall i :: 0 <= i < N() ==> r[i] == Result(graph.ToOriginalNodeId(i), centrality[i])
    {
      seq(N(), i reads centrality requires 0 <= i < N() => Result(graph.ToOriginalNodeId(i), centrality[i]))
    }

    /** `forEach`: offers the results from the highest id down and stops
        right after the first one the consumer rejects; the result is what
        was offered. */
    method ForEach(consume: (int, real) -> bool) returns (offered: seq<Result>)
      requires Shaped()
      ensures offered == TakeUntilFalse(Reverse(ResultStream()), (r: Result) => consume(r.nodeId, r.value))
    {
      ghost var all := Reverse(ResultStream());
      ghost var accept := (r: Result) => consume(r.nodeId, r.value);
      offered := [];
      var i := N() - 1;
      while i >= 0
        invariant -1 <= i < N()
        invariant |offered| == N() - 1 - i && offered == all[..|offered|]
        invariant forall k :: 0 <= k < |offered| ==> accept(all[k])
      {
        ReverseAt(ResultStream(), N() - 1 - i);
        var r := Result(graph.ToOriginalNodeId(i), centrality[i]);
        assert all[N() - 1 - i] == r;
        offered := offered + [r];
        if !consume(r.nodeId, r.value) {
          TakeUntilFalseStops(all, accept, N() - 1 - i);
          return;
        }
        i := i - 1;
      }
      assert all[..|offered|] == all;
      TakeUntilFalseAllTrue(all, accept);
    }
  }

  /** A fresh engine never completes `compute()` on a non-empty graph, however
      often it is called: the source of the first pass has no buffer when
      the stack is drained, and no pass creates it. */
  method FreshEngineNeverCompletes(graph: Graph) returns (first: Outcome, second: Outcome)
    requires graph.Valid() && graph.NodeCount() > 0
    ensures !first.Completed? && !second.Completed?
  {
    var engine := new BetweennessCentrality(graph);
    ghost var outcomes;
    first, outcomes := engine.Compute();
    second, outcomes := engine.Compute();
  }
}
