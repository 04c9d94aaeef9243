/** Tarjan's strongly connected component decomposition of algorithms.c: every
    user is numbered in discovery order and pushed on a stack; a node whose low
    link equals its own number pops the stack down to itself as one component,
    and each component of more than one node is recorded with the sum of the
    pair counts around it, taken in pop order. */
module Tarjan {
  import opened GraphStore
  import opened Cycles
  import opened TarjanInvariant
  import opened TarjanScc

  /** Users are numbered at most once each, so the count never passes numUsers. */
  lemma OrderFits(ctx: TarjanContext)
    requires ctx.Valid()
    ensures |ctx.order| <= ctx.g.numUsers
  {
    Open(ctx);
    NumberedDistinct(ctx.g.numUsers, ctx.ids[..], ctx.order);
    DistinctBound(ctx.g.numUsers, ctx.order);
  }

  /** The reachability invariant over the context's buffers, for the call path `path`. */
  ghost predicate Scc(ctx: TarjanContext, path: seq<int>)
    reads ctx, ctx.ids, ctx.low, ctx.stack, ctx.g.adjList
    requires ctx.stackPtr <= ctx.stack.Length
  {
    Sealed(ctx.Depth(), ctx.Adj(), ctx.g.numUsers, ctx.ids[..], ctx.low[..], ctx.Stack(), ctx.order, ctx.groups, path)
  }

  /** The entry steps of tarjan_dfs: number `node`, set its low link to the same
      number and push it. */
  method Discover(ctx: TarjanContext, node: int, ghost path: seq<int>)
    requires ctx.Valid() && 0 <= node < ctx.g.numUsers && ctx.ids[node] == -1
    requires Scc(ctx, path)
    requires path == [] ==> ctx.stackPtr == 0
    requires path != [] ==> HasEdge(ctx.Adj(), ctx.g.numUsers, path[|path| - 1], node)
    modifies ctx, ctx.ids, ctx.low, ctx.stack, ctx.onStack
    ensures ctx.Valid() && Scc(ctx, path + [node])
    ensures ctx.order == old(ctx.order) + [node] && ctx.groups == old(ctx.groups)
    ensures ctx.Stack() == old(ctx.Stack()) + [node]
    ensures ctx.ids[..] == old(ctx.ids[..])[node := old(ctx.idCounter)]
    ensures ctx.low[..] == old(ctx.low[..])[node := old(ctx.idCounter)]
  {
    ghost var s0, ids0, low0, on0 := ctx.Stack(), ctx.ids[..], ctx.low[..], ctx.onStack[..];
    ghost var order0 := ctx.order;
    HeldDiscover(ctx.Depth(), ctx.g.numUsers, ids0, low0, on0, s0, order0, ctx.groups, node);
    SealedDiscover(ctx.Depth(), ctx.Adj(), ctx.g.numUsers, ids0, low0, on0, s0, order0, ctx.groups, path, node);
    Number(ctx, node);
    Push(ctx, node);
  }

  /** The numbering half of the entry of tarjan_dfs: `node` gets the next number
      as both its number and its low link. */
  method Number(ctx: TarjanContext, node: int)
    requires 0 <= node < ctx.ids.Length == ctx.low.Length && ctx.ids != ctx.low
    modifies ctx, ctx.ids, ctx.low
    ensures ctx.ids[..] == old(ctx.ids[..])[node := old(ctx.idCounter)]
    ensures ctx.low[..] == old(ctx.low[..])[node := old(ctx.idCounter)]
    ensures ctx.idCounter == old(ctx.idCounter) + 1 && ctx.stackPtr == old(ctx.stackPtr)
    ensures ctx.order == old(ctx.order) && ctx.groups == old(ctx.groups)
  {
    ctx.ids[node] := ctx.idCounter;
    ctx.low[node] := ctx.idCounter;
    ctx.idCounter := ctx.idCounter + 1;
  }

  /** The pushing half of the entry of tarjan_dfs: `node` goes on top of the
      stack and is flagged; the ghost discovery order records it. */
  method Push(ctx: TarjanContext, node: int)
    requires ctx.stackPtr < ctx.stack.Length && 0 <= node < ctx.onStack.Length
    modifies ctx, ctx.stack, ctx.onStack
    ensures ctx.stackPtr == old(ctx.stackPtr) + 1 && ctx.Stack() == old(ctx.Stack()) + [node]
    ensures ctx.onStack[..] == old(ctx.onStack[..])[node := true]
    ensures ctx.order == old(ctx.order) + [node] && ctx.groups == old(ctx.groups)
    ensures ctx.idCounter == old(ctx.idCounter)
  {
    ctx.stack[ctx.stackPtr] := node;
    ctx.stackPtr := ctx.stackPtr + 1;
    ctx.onStack[node] := true;
    ctx.order := ctx.order + [node];
  }

  /** The pop loop of tarjan_dfs: pop and unflag nodes into a fresh buffer until
      `node`, which sits at `pos`, has been popped. */
  method PopUntil(ctx: TarjanContext, node: int, ghost pos: nat) returns (scc: array<int>, sccSize: nat)
    requires ctx.stackPtr <= ctx.stack.Length == ctx.g.numUsers && ctx.onStack.Length == ctx.g.numUsers
    requires Distinct(ctx.Stack()) && InRange(ctx.g.numUsers, ctx.Stack())
    requires Flagged(ctx.g.numUsers, ctx.onStack[..], ctx.Stack())
    requires pos < ctx.stackPtr && ctx.stack[pos] == node
    modifies ctx, ctx.onStack
    ensures fresh(scc) && sccSize <= scc.Length
    ensures ctx.stackPtr == pos
    ensures scc[..sccSize] == Reverse(old(ctx.Stack())[pos..])
    ensures ctx.stack[..pos] == old(ctx.Stack())[..pos]
    ensures Flagged(ctx.g.numUsers, ctx.onStack[..], ctx.stack[..pos])
    ensures ctx.idCounter == old(ctx.idCounter) && ctx.order == old(ctx.order) && ctx.groups == old(ctx.groups)
  {
    var n := ctx.g.numUsers;
    ghost var s0 := ctx.Stack();
    ghost var top := ctx.stackPtr;
    scc := new int[n];
    sccSize := 0;
    while true
      invariant pos < ctx.stackPtr <= top && sccSize == top - ctx.stackPtr
      invariant forall k :: 0 <= k < sccSize ==> scc[k] == s0[top - 1 - k]
      invariant Flagged(n, ctx.onStack[..], s0[..ctx.stackPtr])
      invariant ctx.idCounter == old(ctx.idCounter) && ctx.order == old(ctx.order) && ctx.groups == old(ctx.groups)
      decreases ctx.stackPtr
    {
      ctx.stackPtr := ctx.stackPtr - 1;
      var popped := ctx.stack[ctx.stackPtr];
      ghost var flags := ctx.onStack[..];
      Unflag(n, flags, s0, ctx.stackPtr);
      ctx.onStack[popped] := false;
      assert ctx.onStack[..] == flags[popped := false];
      scc[sccSize] := popped;
      sccSize := sccSize + 1;
      if popped == node {
        break;
      }
      assert ctx.stackPtr != pos;
    }
    ghost var seg := s0[pos..];
    assert forall k :: 0 <= k < sccSize ==> scc[..sccSize][k] == seg[|seg| - 1 - k];
    ReverseByIndex(seg, scc[..sccSize]);
    assert s0[..pos] == ctx.stack[..pos];
  }

  /** The end of tarjan_dfs for a root: pop its component and record it when it
      has more than one node, with the sum of the pair counts around it, in pop order. */
  method PopComponent(ctx: TarjanContext, node: int, ghost pos: nat, ghost path: seq<int>)
    requires ctx.Valid() && 0 <= node < ctx.g.numUsers && pos < ctx.stackPtr && ctx.stack[pos] == node
    requires ctx.ids[node] == ctx.low[node]
    requires Scc(ctx, path + [node]) && Done(ctx.Adj(), ctx.g.numUsers, ctx.ids[..], ctx.low[..], ctx.Stack(), node, ctx.g.numUsers)
    requires path != [] ==> AllReach(ctx.Adj(), ctx.g.numUsers, ctx.Stack()[..pos], path[|path| - 1])
    modifies ctx, ctx.onStack, ctx.result, ctx.result.cycles
    ensures ctx.Valid() && Scc(ctx, path)
    ensures ctx.ids[..] == old(ctx.ids[..]) && ctx.low[..] == old(ctx.low[..])
    ensures ctx.result.cycles == old(ctx.result.cycles) || fresh(ctx.result.cycles)
    ensures ctx.stackPtr == pos && ctx.Stack() == old(ctx.Stack())[..pos] && ctx.order == old(ctx.order)
    ensures ctx.groups == old(ctx.groups) + [Reverse(old(ctx.Stack())[pos..])]
  {
    ghost var n := ctx.g.numUsers;
    ghost var s0, ids0, low0, onStack0 := ctx.Stack(), ctx.ids[..], ctx.low[..], ctx.onStack[..];
    ghost var groups0 := ctx.groups;
    ghost var c := Reverse(s0[pos..]);
    Open(ctx);
    StackDistinct(n, ids0, onStack0, s0);
    PoppedRooted(n, ids0, low0, onStack0, s0, pos);
    RecordedAppend(ctx.Adj(), n, groups0, c);
    SealedPop(ctx.Depth(), ctx.Adj(), n, ids0, low0, onStack0, s0, ctx.order, groups0, path, pos);
    PopAndRecord(ctx, node, pos);
    assert ctx.ids[..] == ids0 && ctx.low[..] == low0;
    assert ctx.Stack() == s0[..pos];
    PopStep(n, ctx.ids[..], ctx.low[..], onStack0, ctx.onStack[..], s0, ctx.order, groups0, pos,
            ctx.stack[..ctx.stackPtr], ctx.groups);
    Close(ctx);
  }

  /** The pop loop of tarjan_dfs followed by the recording of the popped component. */
  method PopAndRecord(ctx: TarjanContext, node: int, ghost pos: nat)
    requires ctx.stackPtr <= ctx.stack.Length == ctx.g.numUsers && ctx.onStack.Length == ctx.g.numUsers
    requires Distinct(ctx.Stack()) && InRange(ctx.g.numUsers, ctx.Stack())
    requires Flagged(ctx.g.numUsers, ctx.onStack[..], ctx.Stack())
    requires pos < ctx.stackPtr && ctx.stack[pos] == node
    requires ctx.g.adjList.Length == Product(ctx.g.numUsers, ctx.g.numUsers) && ctx.result.Valid()
    modifies ctx, ctx.onStack, ctx.result, ctx.result.cycles
    ensures ctx.stackPtr == pos
    ensures ctx.stack[..pos] == old(ctx.Stack())[..pos]
    ensures Flagged(ctx.g.numUsers, ctx.onStack[..], ctx.stack[..pos])
    ensures ctx.idCounter == old(ctx.idCounter) && ctx.order == old(ctx.order)
    ensures ctx.groups == old(ctx.groups) + [Reverse(old(ctx.Stack())[pos..])]
    ensures ctx.result.Valid() && ctx.Adj() == old(ctx.Adj())
    ensures ctx.result.cycles == old(ctx.result.cycles) || fresh(ctx.result.cycles)
    ensures ctx.result.Contents() == old(ctx.result.Contents()) +
              (var c := Reverse(old(ctx.Stack())[pos..]);
               if |c| > 1 then [FraudCycle(c, Weight(ctx.Adj(), ctx.g.numUsers, c))] else [])
  {
    ghost var s0 := ctx.Stack();
    ctx.groups := ctx.groups + [Reverse(s0[pos..])];
    var scc, sccSize := PopUntil(ctx, node, pos);
    assert InRange(ctx.g.numUsers, scc[..sccSize]) by {
      forall k | 0 <= k < sccSize ensures 0 <= scc[k] < ctx.g.numUsers {
        assert scc[k] == scc[..sccSize][k] == s0[|s0| - 1 - k];
      }
    }
    RecordGroup(ctx.g, ctx.result, scc, sccSize);
  }

  /** The recording step of tarjan_dfs: a component of more than one node is
      appended with the sum of the pair counts around it, in pop order. */
  method RecordGroup(g: Graph, result: CycleResult, scc: array<int>, sccSize: nat)
    requires g.adjList.Length == Product(g.numUsers, g.numUsers) && result.Valid()
    requires sccSize <= scc.Length && InRange(g.numUsers, scc[..sccSize])
    modifies result, result.cycles
    ensures result.Valid()
    ensures result.cycles == old(result.cycles) || fresh(result.cycles)
    ensures result.Contents() == old(result.Contents()) +
              (if sccSize > 1 then [FraudCycle(scc[..sccSize], Weight(g.adjList[..], g.numUsers, scc[..sccSize]))] else [])
  {
    if sccSize > 1 {
      assert forall k :: 0 <= k < sccSize ==> scc[k] == scc[..sccSize][k];
      var total := ClosedWalkTotal(g.adjList, g.numUsers, scc, sccSize);
      result.Add(scc, sccSize, total);
    }
  }

  /** The low-link update of tarjan_dfs: when `next` is still on the stack, the
      link of `node` drops to that of `next` if it is lower. */
  method LowerLink(ctx: TarjanContext, node: int, next: int, ghost path: seq<int>)
    requires ctx.Valid() && node in ctx.Stack() && 0 <= next < ctx.g.numUsers
    requires Scc(ctx, path) && node in path && HasEdge(ctx.Adj(), ctx.g.numUsers, node, next)
    modifies ctx.low
    ensures ctx.Valid() && Scc(ctx, path)
    ensures ctx.low[..] == if old(ctx.onStack[next]) then old(ctx.low[..])[node := Min(old(ctx.low[node]), old(ctx.low[next]))]
                           else old(ctx.low[..])
    ensures ctx.order == old(ctx.order) && ctx.groups == old(ctx.groups) && ctx.Stack() == old(ctx.Stack())
    ensures ctx.low[node] <= old(ctx.low[node])
    ensures next in ctx.Stack() ==> ctx.low[node] <= ctx.low[next] <= ctx.ids[next]
  {
    Open(ctx);
    if ctx.onStack[next] {
      ghost var low0 := ctx.low[..];
      LowerStep(ctx.g.numUsers, ctx.ids[..], low0, ctx.onStack[..], ctx.Stack(), ctx.order, ctx.groups, node, next);
      SealedLower(ctx.Depth(), ctx.Adj(), ctx.g.numUsers, ctx.ids[..], low0, ctx.Stack(), ctx.order, ctx.groups, path,
                  node, next);
      ctx.low[node] := Min(ctx.low[node], ctx.low[next]);
      assert ctx.low[..] == low0[node := Min(low0[node], low0[next])];
      Close(ctx);
    }
    assert next in ctx.Stack() ==> ctx.ids[next] >= 0;
  }

  /** tarjan_dfs: discover `node`, search every user it has paid, lowering its
      link through successors still on the stack, and pop its component when its
      link is its own number. The stack then either is back to what it was, with
      the invariant restored for the caller's call path, or still holds `node`,
      whose link is then lower than its number and all of whose successors are
      numbered. Numbers and links given before the call stay as they were, and
      the stack gains only users numbered during the call. */
  method TarjanDfs(ctx: TarjanContext, node: int, ghost path: seq<int>)
    requires ctx.Valid() && 0 <= node < ctx.g.numUsers && ctx.ids[node] == -1
    requires Scc(ctx, path)
    requires path == [] ==> ctx.stackPtr == 0
    requires path != [] ==> HasEdge(ctx.Adj(), ctx.g.numUsers, path[|path| - 1], node)
    modifies ctx, ctx.ids, ctx.low, ctx.onStack, ctx.stack, ctx.result, ctx.result.cycles
    decreases ctx.g.numUsers - |ctx.order|, 1
    ensures ctx.Valid()
    ensures ctx.result.cycles == old(ctx.result.cycles) || fresh(ctx.result.cycles)
    ensures old(ctx.order) + [node] <= ctx.order
    ensures old(ctx.groups) <= ctx.groups
    ensures old(ctx.Stack()) <= ctx.Stack()
    ensures ctx.stackPtr == old(ctx.stackPtr) ||
            (ctx.stackPtr > old(ctx.stackPtr) && ctx.stack[old(ctx.stackPtr)] == node && ctx.low[node] < ctx.ids[node])
    ensures ctx.stackPtr == old(ctx.stackPtr) ==> Scc(ctx, path)
    ensures ctx.stackPtr != old(ctx.stackPtr) ==>
              Scc(ctx, path + [node]) &&
              Done(ctx.Adj(), ctx.g.numUsers, ctx.ids[..], ctx.low[..], ctx.Stack(), node, ctx.g.numUsers)
    ensures Kept(old(ctx.ids[..]), old(ctx.low[..]), ctx.ids[..], ctx.low[..], node)
    ensures Newcomers(old(ctx.ids[..]), ctx.Stack(), old(ctx.stackPtr))
    ensures ctx.ids[node] == old(ctx.idCounter)
  {
    ghost var n := ctx.g.numUsers;
    ghost var pos := ctx.stackPtr;
    ghost var s0 := ctx.Stack();
    ghost var ids0, low0 := ctx.ids[..], ctx.low[..];
    if path != [] {
      SealedReachActive(ctx.Depth(), ctx.Adj(), n, ids0, low0, s0, ctx.order, ctx.groups, path);
    }
    Discover(ctx, node, path);
    ghost var ids1, low1 := ctx.ids[..], ctx.low[..];
    assert ctx.stack[pos] == ctx.Stack()[pos] == node;
    assert Kept(ids0, low0, ids1, low1, node);
    OrderFits(ctx);
    SearchSuccessors(ctx, node, path, s0);
    KeptTrans(ids0, low0, ids1, low1, ctx.ids[..], ctx.low[..], node);
    PrefixPlus(s0, node, ctx.Stack());
    NewcomersDiscover(ids0, ctx.Stack(), pos, node, ids1[node]);
    if ctx.ids[node] == ctx.low[node] {
      ghost var ids2, low2 := ctx.ids[..], ctx.low[..];
      PopComponent(ctx, node, pos, path);
      assert ctx.ids[..] == ids2 && ctx.low[..] == low2;
    }
  }

  /** The successor loop of tarjan_dfs: every user `node` has paid is searched in
      turn. Afterwards all of them are numbered, and each one still on the stack
      is numbered no lower than the link of `node`. */
  method SearchSuccessors(ctx: TarjanContext, node: int, ghost path: seq<int>, ghost s0: seq<int>)
    requires ctx.Valid() && 0 <= node < ctx.g.numUsers
    requires Scc(ctx, path + [node]) && ctx.Stack() == s0 + [node]
    modifies ctx, ctx.ids, ctx.low, ctx.onStack, ctx.stack, ctx.result, ctx.result.cycles
    decreases ctx.g.numUsers - |ctx.order|, 4
    ensures ctx.Valid() && Scc(ctx, path + [node])
    ensures Done(ctx.Adj(), ctx.g.numUsers, ctx.ids[..], ctx.low[..], ctx.Stack(), node, ctx.g.numUsers)
    ensures ctx.result.cycles == old(ctx.result.cycles) || fresh(ctx.result.cycles)
    ensures old(ctx.order) <= ctx.order && old(ctx.groups) <= ctx.groups && s0 + [node] <= ctx.Stack()
    ensures Kept(old(ctx.ids[..]), old(ctx.low[..]), ctx.ids[..], ctx.low[..], node)
    ensures Newcomers(old(ctx.ids[..]), ctx.Stack(), old(ctx.stackPtr))
    ensures ctx.low[node] <= ctx.ids[node]
  {
    var n := ctx.g.numUsers;
    ghost var order0, groups0 := ctx.order, ctx.groups;
    ghost var idsE, lowE := ctx.ids[..], ctx.low[..];
    ghost var adj := ctx.Adj();
    var next := 0;
    while next < n
      invariant 0 <= next <= n
      invariant ctx.Valid() && Scc(ctx, path + [node])
      invariant Done(adj, n, ctx.ids[..], ctx.low[..], ctx.Stack(), node, next)
      invariant ctx.result.cycles == old(ctx.result.cycles) || fresh(ctx.result.cycles)
      invariant order0 <= ctx.order && groups0 <= ctx.groups && s0 + [node] <= ctx.Stack()
      invariant Kept(idsE, lowE, ctx.ids[..], ctx.low[..], node) && Newcomers(idsE, ctx.Stack(), |s0| + 1)
    {
      if ctx.g.adjList[CellIndex(n, node, next)] != 0 {
        ghost var st, od, gr := ctx.Stack(), ctx.order, ctx.groups;
        ghost var ids1, low1 := ctx.ids[..], ctx.low[..];
        assert HasEdge(adj, n, node, next);
        OrderFits(ctx);
        VisitSuccessor(ctx, node, next, s0, path);
        PrefixTrans(order0, od, ctx.order);
        PrefixTrans(groups0, gr, ctx.groups);
        PrefixTrans(s0 + [node], st, ctx.Stack());
        KeptTrans(idsE, lowE, ids1, low1, ctx.ids[..], ctx.low[..], node);
        NewcomersTrans(idsE, lowE, ids1, low1, st, ctx.Stack(), |s0| + 1, node);
      } else {
        assert !HasEdge(adj, n, node, next);
        DoneSkip(adj, n, ctx.ids[..], ctx.low[..], ctx.Stack(), node, next);
      }
      next := next + 1;
    }
    Open(ctx);
    assert ctx.Stack()[|s0|] == node;
  }

  /** The body of the successor loop of tarjan_dfs for a user `next` that `node`
      has paid: search `next` if it is undiscovered, then lower the link of `node`
      to that of `next` if `next` is still on the stack. Afterwards `next` is
      numbered and, if still stacked, numbered no lower than the link of `node`. */
  method VisitSuccessor(ctx: TarjanContext, node: int, next: int, ghost s0: seq<int>, ghost path: seq<int>)
    requires ctx.Valid() && 0 <= node < ctx.g.numUsers && 0 <= next < ctx.g.numUsers
    requires s0 + [node] <= ctx.Stack()
    requires Scc(ctx, path + [node]) && HasEdge(ctx.Adj(), ctx.g.numUsers, node, next)
    requires Done(ctx.Adj(), ctx.g.numUsers, ctx.ids[..], ctx.low[..], ctx.Stack(), node, next)
    modifies ctx, ctx.ids, ctx.low, ctx.onStack, ctx.stack, ctx.result, ctx.result.cycles
    decreases ctx.g.numUsers - |ctx.order|, 3
    ensures ctx.Valid() && Scc(ctx, path + [node])
    ensures Done(ctx.Adj(), ctx.g.numUsers, ctx.ids[..], ctx.low[..], ctx.Stack(), node, next + 1)
    ensures ctx.result.cycles == old(ctx.result.cycles) || fresh(ctx.result.cycles)
    ensures old(ctx.order) <= ctx.order && old(ctx.groups) <= ctx.groups && old(ctx.Stack()) <= ctx.Stack()
    ensures Kept(old(ctx.ids[..]), old(ctx.low[..]), ctx.ids[..], ctx.low[..], node)
    ensures ctx.low[node] <= old(ctx.low[node])
    ensures Newcomers(old(ctx.ids[..]), ctx.Stack(), old(ctx.stackPtr))
  {
    ghost var n, adj := ctx.g.numUsers, ctx.Adj();
    ghost var ids0, low0, st := ctx.ids[..], ctx.low[..], ctx.Stack();
    PrefixPlus(s0, node, ctx.Stack());
    if ctx.ids[next] == -1 {
      SearchUnvisited(ctx, node, next, s0, path);
    } else {
      LowerLink(ctx, node, next, path + [node]);
    }
    DoneAfter(adj, n, ids0, low0, st, ctx.ids[..], ctx.low[..], ctx.Stack(), node, next);
  }

  /** The successor loop's turn for an undiscovered `next`: search it, then lower
      the link of `node` through it if it stayed on the stack. */
  method SearchUnvisited(ctx: TarjanContext, node: int, next: int, ghost s0: seq<int>, ghost path: seq<int>)
    requires ctx.Valid() && 0 <= node < ctx.g.numUsers && 0 <= next < ctx.g.numUsers && ctx.ids[next] == -1
    requires s0 + [node] <= ctx.Stack()
    requires Scc(ctx, path + [node]) && HasEdge(ctx.Adj(), ctx.g.numUsers, node, next)
    modifies ctx, ctx.ids, ctx.low, ctx.onStack, ctx.stack, ctx.result, ctx.result.cycles
    decreases ctx.g.numUsers - |ctx.order|, 2
    ensures ctx.Valid() && Scc(ctx, path + [node])
    ensures ctx.result.cycles == old(ctx.result.cycles) || fresh(ctx.result.cycles)
    ensures old(ctx.order) <= ctx.order && old(ctx.groups) <= ctx.groups && old(ctx.Stack()) <= ctx.Stack()
    ensures Kept(old(ctx.ids[..]), old(ctx.low[..]), ctx.ids[..], ctx.low[..], node)
    ensures ctx.low[node] <= old(ctx.low[node])
    ensures Newcomers(old(ctx.ids[..]), ctx.Stack(), old(ctx.stackPtr))
    ensures ctx.ids[next] != -1 && (next in ctx.Stack() ==> ctx.low[node] <= ctx.ids[next])
  {
    ghost var n, adj := ctx.g.numUsers, ctx.Adj();
    ghost var ids0, low0, st := ctx.ids[..], ctx.low[..], ctx.Stack();
    ghost var od, gr := ctx.order, ctx.groups;
    ghost var pos := ctx.stackPtr;
    PrefixPlus(s0, node, st);
    Open(ctx);
    assert st[|s0|] == node && node != next;
    Undiscovered(n, ids0, od, next);
    OffStack(n, ids0, ctx.onStack[..], st, next);
    SealedReachActive(ctx.Depth(), adj, n, ids0, low0, st, od, gr, path + [node]);
    TarjanDfs(ctx, next, path + [node]);
    PrefixTrans(s0 + [node], st, ctx.Stack());
    PrefixPlus(s0, node, ctx.Stack());
    assert ctx.ids[node] == ids0[node] && ctx.low[node] == low0[node];
    assert ctx.stack[|s0|] == ctx.Stack()[|s0|] == node;
    assert ctx.Stack()[..pos] == st;
    LowerThrough(ctx, node, next, path, |s0|, pos);
  }

  /** The low-link update that follows the search of an undiscovered `next` in
      the successor loop of tarjan_dfs. When `next` stayed on the stack, above
      `node` at `pos`, its link was lower than its number, so it belongs to the
      component of a node further down, and the call path may drop it. */
  method LowerThrough(ctx: TarjanContext, node: int, next: int, ghost path: seq<int>, ghost at: nat, ghost pos: nat)
    requires ctx.Valid() && 0 <= node < ctx.g.numUsers && 0 <= next < ctx.g.numUsers && node != next
    requires at < pos <= ctx.stackPtr && ctx.stack[at] == node
    requires HasEdge(ctx.Adj(), ctx.g.numUsers, node, next) && ctx.ids[next] != -1
    requires ctx.stackPtr == pos ==> Scc(ctx, path + [node])
    requires ctx.stackPtr != pos ==>
               ctx.stack[pos] == next && ctx.low[next] < ctx.ids[next] && Scc(ctx, path + [node] + [next]) &&
               Done(ctx.Adj(), ctx.g.numUsers, ctx.ids[..], ctx.low[..], ctx.Stack(), next, ctx.g.numUsers) &&
               AllReach(ctx.Adj(), ctx.g.numUsers, ctx.Stack()[..pos], node)
    modifies ctx.low
    ensures ctx.Valid() && Scc(ctx, path + [node])
    ensures ctx.low[..] == old(ctx.low[..])[node := ctx.low[node]] && ctx.low[node] <= old(ctx.low[node])
    ensures ctx.order == old(ctx.order) && ctx.groups == old(ctx.groups) && ctx.Stack() == old(ctx.Stack())
    ensures next in ctx.Stack() ==> ctx.low[node] <= ctx.ids[next]
  {
    ghost var n, adj := ctx.g.numUsers, ctx.Adj();
    ghost var low1, st1 := ctx.low[..], ctx.Stack();
    assert ctx.Stack()[at] == node;
    ghost var active := if ctx.stackPtr == pos then path + [node] else path + [node] + [next];
    LowerLink(ctx, node, next, active);
    if ctx.stackPtr != pos {
      ghost var low2 := ctx.low[..];
      DoneFrame(adj, n, ctx.ids[..], low1, st1, next, n, node, low2[node]);
      assert low2 == low1[node := low2[node]];
      assert st1[pos] == next;
      Open(ctx);
      SealedRetire(ctx.Depth(), adj, n, ctx.ids[..], low2, ctx.onStack[..], st1, ctx.order, ctx.groups,
                   path + [node], next, pos);
    }
  }

  /** A top-level search starts and ends with an empty stack: a node left on the
      stack would sit at its bottom with a link below its own number. */
  method TopLevel(ctx: TarjanContext, node: int)
    requires ctx.Valid() && ctx.stackPtr == 0 && 0 <= node < ctx.g.numUsers && ctx.ids[node] == -1
    requires Scc(ctx, [])
    modifies ctx, ctx.ids, ctx.low, ctx.onStack, ctx.stack, ctx.result, ctx.result.cycles
    ensures ctx.Valid() && ctx.stackPtr == 0 && Scc(ctx, [])
    ensures ctx.result.cycles == old(ctx.result.cycles) || fresh(ctx.result.cycles)
    ensures ctx.ids[node] != -1
    ensures forall v :: 0 <= v < ctx.g.numUsers && old(ctx.ids[v]) != -1 ==> ctx.ids[v] != -1
  {
    ghost var od, ids0 := ctx.order, ctx.ids[..];
    TarjanDfs(ctx, node, []);
    Open(ctx);
    assert forall v :: 0 <= v < ctx.g.numUsers && ids0[v] != -1 ==> ctx.ids[..][v] != -1;
  }

  /** The set-up of find_cycles_tarjan: per-user buffers with every number and
      link at -1, no flags, an empty stack, and the given empty store. */
  method NewContext(g: Graph, cycles: CycleResult) returns (ctx: TarjanContext)
    requires g.Valid() && cycles.Valid() && cycles.Contents() == []
    ensures fresh(ctx) && fresh(ctx.ids) && fresh(ctx.low) && fresh(ctx.onStack) && fresh(ctx.stack)
    ensures ctx.g == g && ctx.result == cycles
    ensures ctx.Valid() && ctx.stackPtr == 0 && ctx.idCounter == 0 && ctx.order == [] && ctx.groups == [] && Scc(ctx, [])
    ensures forall v :: 0 <= v < g.numUsers ==> ctx.ids[v] == -1 && ctx.low[v] == -1 && !ctx.onStack[v]
  {
    var numUsers := g.numUsers;
    var ids := new int[numUsers](_ => -1);
    var low := new int[numUsers](_ => -1);
    var onStack := new bool[numUsers](_ => false);
    var stack := new int[numUsers];
    ctx := new TarjanContext(ids, low, onStack, stack, cycles, g);
    InitialState(numUsers, ids[..], low[..], onStack[..]);
    Close(ctx);
    SealedInitial(ctx.Depth(), g.adjList[..], numUsers, ids[..], low[..]);
  }

  /** The loop of find_cycles_tarjan: a search from every user not yet numbered. */
  method SearchAll(ctx: TarjanContext)
    requires ctx.Valid() && ctx.stackPtr == 0 && Scc(ctx, [])
    modifies ctx, ctx.ids, ctx.low, ctx.onStack, ctx.stack, ctx.result, ctx.result.cycles
    ensures ctx.Valid() && ctx.stackPtr == 0 && Scc(ctx, [])
    ensures ctx.result.cycles == old(ctx.result.cycles) || fresh(ctx.result.cycles)
    ensures forall v :: 0 <= v < ctx.g.numUsers ==> ctx.ids[v] != -1
  {
    var numUsers := ctx.g.numUsers;
    for i := 0 to numUsers
      invariant ctx.Valid() && ctx.stackPtr == 0 && Scc(ctx, [])
      invariant ctx.result.cycles == old(ctx.result.cycles) || fresh(ctx.result.cycles)
      invariant forall v :: 0 <= v < i ==> ctx.ids[v] != -1
    {
      if ctx.ids[i] == -1 {
        TopLevel(ctx, i);
      }
    }
  }

  /** find_cycles_tarjan: every user still unnumbered starts a search. Afterwards
      every user carries a distinct number in [0, N) and a link no greater than
      it, the popped components partition the users, each ends with its root,
      and the store holds, in pop order, exactly the components of more than
      one node, each with the sum of the pair counts around it. */
  method FindCyclesTarjan(g: Graph) returns (cycles: CycleResult, result: AlgoResult,
                                              ghost groups: seq<seq<int>>, ghost ids: seq<int>, ghost low: seq<int>)
    requires g.Valid()
    ensures fresh(cycles) && cycles.Valid()
    ensures result.cyclesFound == cycles.count
    ensures cycles.Contents() == Recorded(g.adjList[..], g.numUsers, groups)
    ensures Partition(g.numUsers, groups)
    ensures |ids| == |low| == g.numUsers
    ensures forall k :: 0 <= k < |groups| ==> RootedGroup(ids, low, g.numUsers, groups[k])
    ensures forall v :: 0 <= v < g.numUsers ==> 0 <= low[v] <= ids[v] < g.numUsers
    ensures forall u, v :: 0 <= u < g.numUsers && 0 <= v < g.numUsers && u != v ==> ids[u] != ids[v]
    ensures forall k, x, y :: 0 <= k < |groups| && x in groups[k] && y in groups[k] ==>
              Reach(g.adjList[..], g.numUsers, x, y)
    ensures forall k1, k2, x, y ::
              0 <= k1 < |groups| && 0 <= k2 < |groups| && k1 != k2 && x in groups[k1] && y in groups[k2] ==>
              !(Reach(g.adjList[..], g.numUsers, x, y) && Reach(g.adjList[..], g.numUsers, y, x))
  {
    cycles := new CycleResult.Create();
    var ctx := NewContext(g, cycles);
    SearchAll(ctx);
    groups, ids, low := ctx.groups, ctx.ids[..], ctx.low[..];
    Open(ctx);
    FinalState(g.numUsers, ids, low, ctx.onStack[..], ctx.order, groups);
    SealedFinal(ctx.Depth(), g.adjList[..], g.numUsers, ids, low, ctx.Stack(), ctx.order, groups);
    result := AlgoResult(cycles.count);
  }
}
