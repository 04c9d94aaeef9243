/** The bounded backtracking search of algorithms.c: from every start node,
    every simple cycle of at most min(N, 8) + 1 nodes is recorded. */
module BruteForce {
  import opened GraphStore
  import opened Cycles

  /** The depth bound min(N, 8) of algorithms.c:59. */
  function MaxDepth(n: nat): (d: nat)
    ensures d <= n && d <= 8
    ensures d == n || d == 8
  {
    if n < 8 then n else 8
  }

  /** What the search may record: a simple cycle no longer than maxDepth + 1. */
  ghost predicate Recordable(adj: seq<int>, n: nat, maxDepth: int, c: seq<int>)
  {
    SimpleCycle(adj, n, c) && |c| <= maxDepth + 1
  }

  /** A store entry recorded while the search path was `prefix`. */
  ghost predicate SoundEntry(adj: seq<int>, n: nat, maxDepth: int, prefix: seq<int>, fc: FraudCycle)
  {
    Recordable(adj, n, maxDepth, fc.cycle) && prefix <= fc.cycle && fc.totalAmount == Weight(adj, n, fc.cycle)
  }

  /** A cycle extending `p` is explored once the loop over successors has passed
      the node it continues with (for `p` itself, the start node). */
  ghost predicate Explored(p: seq<int>, c: seq<int>, next: int)
    requires |p| >= 1 && p <= c
  {
    if |c| == |p| then c[0] < next else c[|p|] < next
  }

  /** The search state as values: `p` is a simple path from `start` and `marks`
      flags exactly its nodes. */
  ghost predicate Track(adj: seq<int>, n: nat, start: int, p: seq<int>, marks: seq<bool>)
  {
    && |marks| == n
    && 1 <= |p|
    && p[0] == start
    && InRange(n, p)
    && Distinct(p)
    && IsPath(adj, n, p)
    && (forall v :: 0 <= v < n ==> (marks[v] <==> v in p))
  }

  /** Pushing an unmarked successor keeps the state, and there is room for it. */
  lemma PushTrack(adj: seq<int>, n: nat, start: int, p: seq<int>, marks: seq<bool>, x: int)
    requires Track(adj, n, start, p, marks)
    requires 0 <= x < n && !marks[x] && HasEdge(adj, n, p[|p| - 1], x)
    ensures |p| < n
    ensures Track(adj, n, start, p + [x], marks[x := true])
  {
    var q := p + [x];
    assert Distinct(q);
    assert InRange(n, q);
    DistinctBound(n, q);
    assert IsPath(adj, n, q) by {
      forall k | 0 < k < |q| ensures HasEdge(adj, n, q[k - 1], q[k]) {
        if k < |p| {
          assert q[k - 1] == p[k - 1] && q[k] == p[k];
        }
      }
    }
  }

  /** Every entry of `s` is recordable, extends `prefix` and carries its weight. */
  ghost predicate AllSound(adj: seq<int>, n: nat, maxDepth: int, prefix: seq<int>, s: seq<FraudCycle>)
  {
    forall fc :: fc in s ==> SoundEntry(adj, n, maxDepth, prefix, fc)
  }

  /** Every recordable cycle extending `p` is among the paths of `s`. */
  ghost predicate Covers(adj: seq<int>, n: nat, maxDepth: int, p: seq<int>, s: seq<FraudCycle>)
  {
    forall c :: Recordable(adj, n, maxDepth, c) && p <= c ==> c in CyclePaths(s)
  }

  /** Every recordable cycle extending `p` that is explored by successor `next` is among the paths of `s`. */
  ghost predicate CoversUpTo(adj: seq<int>, n: nat, maxDepth: int, p: seq<int>, next: int, s: seq<FraudCycle>)
    requires |p| >= 1
  {
    forall c :: Recordable(adj, n, maxDepth, c) && p <= c && Explored(p, c, next) ==> c in CyclePaths(s)
  }

  /** Every entry of `s` extends `p` and was explored before successor `next`. */
  ghost predicate ExploredOnly(p: seq<int>, next: int, s: seq<FraudCycle>)
    requires |p| >= 1
  {
    forall fc :: fc in s ==> p <= fc.cycle && Explored(p, fc.cycle, next)
  }

  /** The loop of dfs_bruteforce_recursive, before successor `next`: what it has
      appended so far is sound, repeat-free, explored and covers everything explored. */
  ghost predicate Progress(adj: seq<int>, n: nat, maxDepth: int, p: seq<int>, next: int, added: seq<FraudCycle>)
    requires |p| >= 1
  {
    && AllSound(adj, n, maxDepth, p, added)
    && CoversUpTo(adj, n, maxDepth, p, next, added)
    && NoRepeat(added)
    && ExploredOnly(p, next, added)
  }

  lemma SoundAppend(adj: seq<int>, n: nat, maxDepth: int, p: seq<int>, s: seq<FraudCycle>, t: seq<FraudCycle>)
    requires AllSound(adj, n, maxDepth, p, s) && AllSound(adj, n, maxDepth, p, t)
    ensures AllSound(adj, n, maxDepth, p, s + t)
  {
    forall fc | fc in s + t ensures SoundEntry(adj, n, maxDepth, p, fc) {
      if fc !in s {
        assert fc in t;
      }
    }
  }

  /** Every entry recorded below `p + [x]` is also recorded below `p`. */
  lemma SoundWiden(adj: seq<int>, n: nat, maxDepth: int, p: seq<int>, x: int, s: seq<FraudCycle>)
    requires AllSound(adj, n, maxDepth, p + [x], s)
    ensures AllSound(adj, n, maxDepth, p, s)
  {
    forall fc | fc in s ensures SoundEntry(adj, n, maxDepth, p, fc) {
      assert SoundEntry(adj, n, maxDepth, p + [x], fc);
      assert fc.cycle[..|p|] == (p + [x])[..|p|] == p;
    }
  }

  /** A successor without an edge, or one that is on the path, explores nothing new. */
  lemma ExploreSkip(adj: seq<int>, n: nat, maxDepth: int, p: seq<int>, marks: seq<bool>,
                    next: int, added: seq<FraudCycle>)
    requires 1 <= |p| && Track(adj, n, p[0], p, marks) && 0 <= next < n
    requires !HasEdge(adj, n, p[|p| - 1], next) || (next == p[0] && |p| < 3) || (next != p[0] && marks[next])
    requires CoversUpTo(adj, n, maxDepth, p, next, added) && ExploredOnly(p, next, added)
    ensures CoversUpTo(adj, n, maxDepth, p, next + 1, added) && ExploredOnly(p, next + 1, added)
  {
  }

  /** Closing back to the start records the current path itself, which is sound
      when the search is not deeper than its bound. */
  lemma ExploreClose(adj: seq<int>, n: nat, maxDepth: int, p: seq<int>, marks: seq<bool>,
                     next: int, added: seq<FraudCycle>)
    requires 1 <= |p| && Track(adj, n, p[0], p, marks) && next == p[0] && |p| >= 3
    requires HasEdge(adj, n, p[|p| - 1], next) && |p| <= maxDepth + 1
    requires CoversUpTo(adj, n, maxDepth, p, next, added)
    requires AllSound(adj, n, maxDepth, p, added)
    requires NoRepeat(added) && ExploredOnly(p, next, added)
    ensures CoversUpTo(adj, n, maxDepth, p, next + 1, added + [FraudCycle(p, Weight(adj, n, p))])
    ensures AllSound(adj, n, maxDepth, p, added + [FraudCycle(p, Weight(adj, n, p))])
    ensures NoRepeat(added + [FraudCycle(p, Weight(adj, n, p))])
    ensures ExploredOnly(p, next + 1, added + [FraudCycle(p, Weight(adj, n, p))])
  {
    var fc := FraudCycle(p, Weight(adj, n, p));
    forall e | e in added ensures e.cycle != p {
      assert Explored(p, e.cycle, next);
    }
    NoRepeatAppend(added, [fc]);
    assert SoundEntry(adj, n, maxDepth, p, fc);
    SoundAppend(adj, n, maxDepth, p, added, [fc]);
    forall c | Recordable(adj, n, maxDepth, c) && p <= c && Explored(p, c, next + 1)
      ensures c in CyclePaths(added + [fc])
    {
      if |c| == |p| {
        assert c == p;
        assert fc in added + [fc];
      } else {
        assert c[|p|] != c[0];
        assert c in CyclePaths(added);
        var e :| e in added && e.cycle == c;
        assert e in added + [fc];
      }
    }
  }

  /** Descending into an unmarked successor covers every cycle that continues with it. */
  lemma ExploreDeeper(adj: seq<int>, n: nat, maxDepth: int, p: seq<int>, next: int,
                      added: seq<FraudCycle>, deeper: seq<FraudCycle>)
    requires 1 <= |p| && next != p[0]
    requires CoversUpTo(adj, n, maxDepth, p, next, added)
    requires Covers(adj, n, maxDepth, p + [next], deeper)
    requires AllSound(adj, n, maxDepth, p, added) && AllSound(adj, n, maxDepth, p + [next], deeper)
    requires NoRepeat(added) && ExploredOnly(p, next, added) && NoRepeat(deeper)
    ensures CoversUpTo(adj, n, maxDepth, p, next + 1, added + deeper)
    ensures AllSound(adj, n, maxDepth, p, added + deeper)
    ensures NoRepeat(added + deeper) && ExploredOnly(p, next + 1, added + deeper)
  {
    forall d | d in deeper ensures p <= d.cycle && |d.cycle| > |p| && d.cycle[|p|] == next {
      assert SoundEntry(adj, n, maxDepth, p + [next], d);
      assert d.cycle[..|p|] == (p + [next])[..|p|] == p;
      assert d.cycle[|p|] == (p + [next])[|p|];
    }
    forall e, d | e in added && d in deeper ensures e.cycle != d.cycle {
      assert Explored(p, e.cycle, next);
    }
    NoRepeatAppend(added, deeper);
    SoundWiden(adj, n, maxDepth, p, next, deeper);
    SoundAppend(adj, n, maxDepth, p, added, deeper);
    forall c | Recordable(adj, n, maxDepth, c) && p <= c && Explored(p, c, next + 1)
      ensures c in CyclePaths(added + deeper)
    {
      if Explored(p, c, next) {
        var fc :| fc in added && fc.cycle == c;
        assert fc in added + deeper;
      } else {
        assert |c| > |p|;
        assert p + [next] <= c;
        var fc :| fc in deeper && fc.cycle == c;
        assert fc in added + deeper;
      }
    }
  }

  /** Once every successor is passed, every cycle extending `p` is explored. */
  lemma ExploredAll(adj: seq<int>, n: nat, maxDepth: int, p: seq<int>, added: seq<FraudCycle>)
    requires 1 <= |p|
    requires CoversUpTo(adj, n, maxDepth, p, n, added)
    ensures Covers(adj, n, maxDepth, p, added)
  {
    forall c | Recordable(adj, n, maxDepth, c) && p <= c
      ensures c in CyclePaths(added)
    {
      assert Explored(p, c, n);
    }
  }

  /** dfs_context_t: the shared path and visited buffers of one search. */
  class DfsContext {
    const path: array<int>
    const visited: array<bool>
    var pathLen: nat
    var startNode: int
    const maxDepth: int
    const result: CycleResult
    const g: Graph

    constructor (path: array<int>, visited: array<bool>, result: CycleResult, g: Graph, maxDepth: int)
      ensures this.path == path && this.visited == visited && this.result == result
      ensures this.g == g && this.maxDepth == maxDepth
      ensures pathLen == 0 && startNode == 0
    {
      this.path := path;
      this.visited := visited;
      this.result := result;
      this.g := g;
      this.maxDepth := maxDepth;
      pathLen := 0;
      startNode := 0;
    }

    ghost function Adj(): seq<int>
      reads g.adjList
    {
      g.adjList[..]
    }

    /** The current search path path[0..pathLen). */
    ghost function Path(): seq<int>
      reads this, path
      requires pathLen <= path.Length
    {
      path[..pathLen]
    }

    /** The buffers fit the graph and do not alias its matrix, whose counts are never negative. */
    ghost predicate Valid()
      reads g.adjList
    {
      && g.adjList.Length == Product(g.numUsers, g.numUsers)
      && (forall k :: 0 <= k < g.adjList.Length ==> g.adjList[k] >= 0)
      && path.Length == g.numUsers
      && visited.Length == g.numUsers
      && path != g.adjList
      && 0 <= maxDepth
    }

    /** The search state: a simple path from the start node, marked exactly in `visited`. */
    ghost predicate OnTrack()
      reads this, path, visited, g.adjList
    {
      && pathLen <= path.Length
      && Track(Adj(), g.numUsers, startNode, Path(), visited[..])
    }
  }

  /** dfs_bruteforce_recursive: extends the current path by every unvisited
      successor and records the path whenever it closes back to the start.
      It restores the path and the visited marks, and what it records is exactly
      the recordable cycles that extend the current path, none of them twice. */
  method DfsBruteforceRecursive(ctx: DfsContext, node: int, depth: int) returns (ghost found: seq<FraudCycle>)
    requires ctx.Valid() && ctx.OnTrack() && ctx.result.Valid()
    requires 0 <= depth && ctx.pathLen == depth + 1
    requires node == ctx.path[ctx.pathLen - 1]
    modifies ctx, ctx.path, ctx.visited, ctx.result, ctx.result.cycles
    decreases ctx.g.numUsers - ctx.pathLen, 2
    ensures ctx.Valid() && ctx.OnTrack() && ctx.result.Valid()
    ensures ctx.pathLen == old(ctx.pathLen) && ctx.startNode == old(ctx.startNode)
    ensures ctx.Path() == old(ctx.Path())
    ensures ctx.visited[..] == old(ctx.visited[..])
    ensures ctx.result.cycles == old(ctx.result.cycles) || fresh(ctx.result.cycles)
    ensures ctx.result.Contents() == old(ctx.result.Contents()) + found
    ensures AllSound(ctx.Adj(), ctx.g.numUsers, ctx.maxDepth, old(ctx.Path()), found)
    ensures Covers(ctx.Adj(), ctx.g.numUsers, ctx.maxDepth, old(ctx.Path()), found)
    ensures NoRepeat(found)
  {
    ghost var adj := ctx.Adj();
    ghost var n := ctx.g.numUsers;
    ghost var p := ctx.Path();
    ghost var c0 := ctx.result.Contents();
    ghost var v0 := ctx.visited[..];
    if depth > ctx.maxDepth {
      return [];
    }

    var numUsers := ctx.g.numUsers;

    ghost var added: seq<FraudCycle> := [];
    for next := 0 to numUsers
      invariant ctx.Valid() && ctx.OnTrack() && ctx.result.Valid()
      invariant ctx.pathLen == |p| && ctx.Path() == p && ctx.startNode == old(ctx.startNode)
      invariant ctx.visited[..] == v0
      invariant ctx.result.cycles == old(ctx.result.cycles) || fresh(ctx.result.cycles)
      invariant ctx.result.Contents() == c0 + added
      invariant Progress(adj, n, ctx.maxDepth, p, next, added)
    {
      ghost var delta := VisitNext(ctx, node, depth, next, added);
      added := added + delta;
    }
    ExploredAll(adj, n, ctx.maxDepth, p, added);
    found := added;
  }

  /** One turn of the loop of dfs_bruteforce_recursive: a zero cell is skipped,
      a closing edge records the path, and an unvisited successor other than the
      start is searched from. */
  method VisitNext(ctx: DfsContext, node: int, depth: int, next: int, ghost added: seq<FraudCycle>)
    returns (ghost delta: seq<FraudCycle>)
    requires ctx.Valid() && ctx.OnTrack() && ctx.result.Valid()
    requires 0 <= depth <= ctx.maxDepth && ctx.pathLen == depth + 1
    requires node == ctx.path[ctx.pathLen - 1] && 0 <= next < ctx.g.numUsers
    requires Progress(ctx.Adj(), ctx.g.numUsers, ctx.maxDepth, ctx.Path(), next, added)
    modifies ctx, ctx.path, ctx.visited, ctx.result, ctx.result.cycles
    decreases ctx.g.numUsers - ctx.pathLen, 1
    ensures ctx.Valid() && ctx.OnTrack() && ctx.result.Valid()
    ensures ctx.pathLen == old(ctx.pathLen) && ctx.startNode == old(ctx.startNode)
    ensures ctx.Path() == old(ctx.Path())
    ensures ctx.visited[..] == old(ctx.visited[..])
    ensures ctx.result.cycles == old(ctx.result.cycles) || fresh(ctx.result.cycles)
    ensures ctx.result.Contents() == old(ctx.result.Contents()) + delta
    ensures Progress(ctx.Adj(), ctx.g.numUsers, ctx.maxDepth, old(ctx.Path()), next + 1, added + delta)
  {
    ghost var adj := ctx.Adj();
    ghost var n := ctx.g.numUsers;
    ghost var p := ctx.Path();
    ghost var v0 := ctx.visited[..];
    var cell := CellIndex(ctx.g.numUsers, node, next);
    if ctx.g.adjList[cell] == 0 {
      ExploreSkip(adj, n, ctx.maxDepth, p, v0, next, added);
      delta := [];
    } else if next == ctx.startNode && ctx.pathLen >= 3 {
      RecordClosedPath(ctx);
      ExploreClose(adj, n, ctx.maxDepth, p, v0, next, added);
      delta := [FraudCycle(p, Weight(adj, n, p))];
    } else if !ctx.visited[next] && next != ctx.startNode {
      delta := Descend(ctx, next, depth);
      ExploreDeeper(adj, n, ctx.maxDepth, p, next, added, delta);
    } else {
      ExploreSkip(adj, n, ctx.maxDepth, p, v0, next, added);
      delta := [];
    }
  }

  /** The closing branch of dfs_bruteforce_recursive: the current path, with the
      sum of the transaction counts around it, is appended to the store. */
  method RecordClosedPath(ctx: DfsContext)
    requires ctx.Valid() && ctx.OnTrack() && ctx.result.Valid()
    requires ctx.pathLen >= 1
    modifies ctx.result, ctx.result.cycles
    ensures ctx.result.Valid()
    ensures ctx.result.cycles == old(ctx.result.cycles) || fresh(ctx.result.cycles)
    ensures ctx.result.Contents() ==
              old(ctx.result.Contents()) + [FraudCycle(ctx.Path(), Weight(ctx.Adj(), ctx.g.numUsers, ctx.Path()))]
  {
    var total := ClosedWalkTotal(ctx.g.adjList, ctx.g.numUsers, ctx.path, ctx.pathLen);
    ctx.result.Add(ctx.path, ctx.pathLen, total);
  }

  /** The push, recursive call and pop of dfs_bruteforce_recursive for one
      unvisited successor `next`: it records exactly the recordable cycles that
      continue the current path with `next`. */
  method Descend(ctx: DfsContext, next: int, depth: int) returns (ghost found: seq<FraudCycle>)
    requires ctx.Valid() && ctx.OnTrack() && ctx.result.Valid()
    requires 0 <= depth && ctx.pathLen == depth + 1
    requires 0 <= next < ctx.g.numUsers && !ctx.visited[next]
    requires HasEdge(ctx.Adj(), ctx.g.numUsers, ctx.path[ctx.pathLen - 1], next)
    modifies ctx, ctx.path, ctx.visited, ctx.result, ctx.result.cycles
    decreases ctx.g.numUsers - ctx.pathLen, 0
    ensures ctx.Valid() && ctx.OnTrack() && ctx.result.Valid()
    ensures ctx.pathLen == old(ctx.pathLen) && ctx.startNode == old(ctx.startNode)
    ensures ctx.Path() == old(ctx.Path())
    ensures ctx.visited[..] == old(ctx.visited[..])
    ensures ctx.result.cycles == old(ctx.result.cycles) || fresh(ctx.result.cycles)
    ensures ctx.result.Contents() == old(ctx.result.Contents()) + found
    ensures AllSound(ctx.Adj(), ctx.g.numUsers, ctx.maxDepth, old(ctx.Path()) + [next], found)
    ensures Covers(ctx.Adj(), ctx.g.numUsers, ctx.maxDepth, old(ctx.Path()) + [next], found)
    ensures NoRepeat(found)
  {
    ghost var adj := ctx.Adj();
    ghost var p := ctx.Path();
    ghost var v0 := ctx.visited[..];
    PushTrack(adj, ctx.g.numUsers, ctx.startNode, p, v0, next);
    ctx.visited[next] := true;
    ctx.path[ctx.pathLen] := next;
    ctx.pathLen := ctx.pathLen + 1;
    assert ctx.Path() == p + [next];
    found := DfsBruteforceRecursive(ctx, next, depth + 1);
    ctx.pathLen := ctx.pathLen - 1;
    ctx.visited[next] := false;
    assert ctx.visited[..] == v0;
    assert ctx.Path() == p;
  }

  /** Every entry of `s` is a recordable cycle with its weight, found from a start node below `start`. */
  ghost predicate SoundBelow(adj: seq<int>, n: nat, maxDepth: int, start: int, s: seq<FraudCycle>)
  {
    forall fc :: fc in s ==>
      Recordable(adj, n, maxDepth, fc.cycle) && fc.totalAmount == Weight(adj, n, fc.cycle) && fc.cycle[0] < start
  }

  /** Every recordable cycle that starts below `start` is among the paths of `s`. */
  ghost predicate CoversBelow(adj: seq<int>, n: nat, maxDepth: int, start: int, s: seq<FraudCycle>)
  {
    forall c :: Recordable(adj, n, maxDepth, c) && c[0] < start ==> c in CyclePaths(s)
  }

  /** Entries appear grouped by their first node, in increasing order of it. */
  ghost predicate StartOrdered(s: seq<FraudCycle>)
  {
    forall a, b :: 0 <= a < b < |s| && s[a].cycle != [] && s[b].cycle != [] ==> s[a].cycle[0] <= s[b].cycle[0]
  }

  /** The search from `start` extends what the earlier start nodes found. */
  lemma StartDone(adj: seq<int>, n: nat, maxDepth: int, start: int, all: seq<FraudCycle>, found: seq<FraudCycle>)
    requires SoundBelow(adj, n, maxDepth, start, all) && CoversBelow(adj, n, maxDepth, start, all)
    requires StartOrdered(all)
    requires AllSound(adj, n, maxDepth, [start], found) && Covers(adj, n, maxDepth, [start], found)
    requires NoRepeat(all) && NoRepeat(found)
    ensures SoundBelow(adj, n, maxDepth, start + 1, all + found)
    ensures CoversBelow(adj, n, maxDepth, start + 1, all + found)
    ensures StartOrdered(all + found)
    ensures NoRepeat(all + found)
  {
    forall fc | fc in found ensures fc.cycle != [] && fc.cycle[0] == start {
      assert SoundEntry(adj, n, maxDepth, [start], fc);
    }
    NoRepeatAppend(all, found);
    var s := all + found;
    forall fc | fc in s
      ensures Recordable(adj, n, maxDepth, fc.cycle) && fc.totalAmount == Weight(adj, n, fc.cycle)
      ensures fc.cycle[0] < start + 1
    {
      if fc in found {
        assert SoundEntry(adj, n, maxDepth, [start], fc);
      }
    }
    forall c | Recordable(adj, n, maxDepth, c) && c[0] < start + 1 ensures c in CyclePaths(s) {
      var e: FraudCycle;
      if c[0] < start {
        e :| e in all && e.cycle == c;
      } else {
        assert [start] <= c;
        e :| e in found && e.cycle == c;
      }
      assert e in s;
    }
    forall a, b | 0 <= a < b < |s| && s[a].cycle != [] && s[b].cycle != []
      ensures s[a].cycle[0] <= s[b].cycle[0]
    {
      if b < |all| {
        assert s[a] == all[a] && s[b] == all[b];
      } else {
        assert s[b] == found[b - |all|] && s[b] in found;
        assert s[a] in s;
      }
    }
  }

  /** A recordable cycle is never longer than the number of users. */
  lemma RecordableBounds(adj: seq<int>, n: nat, maxDepth: int, c: seq<int>)
    requires Recordable(adj, n, maxDepth, c)
    ensures 3 <= |c| <= n && |c| <= maxDepth + 1
  {
    DistinctBound(n, c);
  }

  /** One round of the loop of find_cycles_dfs_bruteforce: reset the path to
      `start` and the marks to `start` alone, then search. It records exactly the
      recordable cycles that begin at `start`. */
  method SearchFrom(ctx: DfsContext, start: int) returns (ghost found: seq<FraudCycle>)
    requires ctx.Valid() && ctx.result.Valid() && 0 <= start < ctx.g.numUsers
    modifies ctx, ctx.path, ctx.visited, ctx.result, ctx.result.cycles
    ensures ctx.result.Valid()
    ensures ctx.result.cycles == old(ctx.result.cycles) || fresh(ctx.result.cycles)
    ensures ctx.result.Contents() == old(ctx.result.Contents()) + found
    ensures AllSound(ctx.Adj(), ctx.g.numUsers, ctx.maxDepth, [start], found)
    ensures Covers(ctx.Adj(), ctx.g.numUsers, ctx.maxDepth, [start], found)
    ensures NoRepeat(found)
  {
    ctx.startNode := start;
    ctx.pathLen := 1;
    ctx.path[0] := start;
    forall k | 0 <= k < ctx.visited.Length {
      ctx.visited[k] := false;
    }
    ctx.visited[start] := true;
    assert ctx.Path() == [start];
    found := DfsBruteforceRecursive(ctx, start, 0);
  }

  /** find_cycles_dfs_bruteforce: runs the bounded search from every start node
      with depth bound min(N, 8). What it records is exactly the simple cycles of
      at most min(N, 8) + 1 nodes, each node sequence once (a rotation is another
      sequence, found again from its own start node), each with the sum of its
      pair counts, grouped by start node in increasing order; the count it
      reports is the number of such node sequences. */
  method FindCyclesDfsBruteforce(g: Graph) returns (cycles: CycleResult, result: AlgoResult)
    requires g.Valid()
    ensures fresh(cycles) && cycles.Valid()
    ensures result.cyclesFound == cycles.count
    ensures forall fc :: fc in cycles.Contents() ==>
              && Recordable(g.adjList[..], g.numUsers, MaxDepth(g.numUsers), fc.cycle)
              && fc.totalAmount == Weight(g.adjList[..], g.numUsers, fc.cycle)
    ensures forall c :: Recordable(g.adjList[..], g.numUsers, MaxDepth(g.numUsers), c) <==>
              c in CyclePaths(cycles.Contents())
    ensures StartOrdered(cycles.Contents()) && NoRepeat(cycles.Contents())
    ensures result.cyclesFound == |CyclePaths(cycles.Contents())|
  {
    cycles := new CycleResult.Create();
    var numUsers := g.numUsers;
    var path := new int[numUsers];
    var visited := new bool[numUsers];
    var ctx := new DfsContext(path, visited, cycles, g, MaxDepth(numUsers));
    ghost var adj := g.adjList[..];
    ghost var md := MaxDepth(numUsers);
    ghost var all: seq<FraudCycle> := [];
    for start := 0 to numUsers
      invariant fresh(ctx) && fresh(path) && fresh(visited) && fresh(cycles) && fresh(cycles.cycles)
      invariant ctx.path == path && ctx.visited == visited && ctx.result == cycles && ctx.g == g
      invariant ctx.maxDepth == md && g.adjList[..] == adj
      invariant ctx.Valid() && cycles.Valid()
      invariant cycles.Contents() == all
      invariant SoundBelow(adj, numUsers, md, start, all) && CoversBelow(adj, numUsers, md, start, all)
      invariant StartOrdered(all) && NoRepeat(all)
    {
      ghost var found := SearchFrom(ctx, start);
      StartDone(adj, numUsers, md, start, all, found);
      all := all + found;
    }
    NoRepeatCount(all);
    result := AlgoResult(cycles.count);
  }
}
