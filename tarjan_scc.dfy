/** Why the groups popped by the Tarjan search of algorithms.c are strongly
    connected components: an invariant over the nodes whose calls of tarjan_dfs
    are active (the call path), with one lemma per step of the search. */
module TarjanScc {
  import opened Cycles
  import opened TarjanInvariant

  /** A walk: a non-empty sequence of users, each step a pair with a positive count. */
  ghost predicate Walk(adj: seq<int>, n: nat, p: seq<int>)
  {
    1 <= |p| && InRange(n, p) && IsPath(adj, n, p)
  }

  /** `v` can be reached from `u` by following pairs with a positive count. */
  ghost predicate Reach(adj: seq<int>, n: nat, u: int, v: int)
  {
    exists p :: Walk(adj, n, p) && p[0] == u && p[|p| - 1] == v
  }

  lemma EdgeInRange(adj: seq<int>, n: nat, u: int, w: int)
    requires HasEdge(adj, n, u, w)
    ensures 0 <= u < n && 0 <= w < n
  {
  }

  lemma ReachRefl(adj: seq<int>, n: nat, u: int)
    requires 0 <= u < n
    ensures Reach(adj, n, u, u)
  {
    assert Walk(adj, n, [u]);
  }

  lemma ReachTrans(adj: seq<int>, n: nat, u: int, v: int, w: int)
    requires Reach(adj, n, u, v) && Reach(adj, n, v, w)
    ensures Reach(adj, n, u, w)
  {
    var p :| Walk(adj, n, p) && p[0] == u && p[|p| - 1] == v;
    var q :| Walk(adj, n, q) && q[0] == v && q[|q| - 1] == w;
    var r := p + q[1..];
    forall k | 0 <= k < |r| ensures 0 <= r[k] < n {
      if k >= |p| {
        assert r[k] == q[k - |p| + 1];
      }
    }
    forall k | 0 < k < |r| ensures HasEdge(adj, n, r[k - 1], r[k]) {
      if k < |p| {
        assert r[k - 1] == p[k - 1] && r[k] == p[k];
      } else if k == |p| {
        assert r[k - 1] == q[0] && r[k] == q[1];
      } else {
        assert r[k - 1] == q[k - |p|] && r[k] == q[k - |p| + 1];
      }
    }
    assert Walk(adj, n, r);
    if |q| > 1 {
      assert r[|r| - 1] == q[|q| - 1];
    }
  }

  lemma ReachEdge(adj: seq<int>, n: nat, u: int, v: int, w: int)
    requires Reach(adj, n, u, v) && HasEdge(adj, n, v, w)
    ensures Reach(adj, n, u, w)
  {
    assert Walk(adj, n, [v, w]);
    ReachTrans(adj, n, u, v, w);
  }

  /** A set of users that every pair with a positive count leaves only into itself. */
  ghost predicate Closed(adj: seq<int>, n: nat, s: seq<int>)
  {
    forall u, w :: u in s && HasEdge(adj, n, u, w) ==> w in s
  }

  /** What can be reached from a closed set stays inside it. */
  lemma ClosedReach(adj: seq<int>, n: nat, s: seq<int>, u: int, w: int)
    requires Closed(adj, n, s) && u in s && Reach(adj, n, u, w)
    ensures w in s
  {
    var p :| Walk(adj, n, p) && p[0] == u && p[|p| - 1] == w;
    var k := 0;
    while k < |p| - 1
      invariant 0 <= k < |p| && p[k] in s
    {
      assert HasEdge(adj, n, p[k], p[k + 1]);
      k := k + 1;
    }
  }

  /** The nodes whose calls of tarjan_dfs are active, outermost first: all on the
      stack, in increasing order of number. */
  ghost predicate CallPath(n: nat, ids: seq<int>, stack: seq<int>, path: seq<int>)
  {
    && |ids| == n && InRange(n, path)
    && (forall i :: 0 <= i < |path| ==> path[i] in stack)
    && (forall i, j :: 0 <= i < j < |path| ==> ids[path[i]] < ids[path[j]])
  }

  /** Every stacked node reaches the stacked node whose number is its link. */
  ghost predicate LinksReach(adj: seq<int>, n: nat, low: seq<int>, stack: seq<int>, order: seq<int>)
  {
    && |low| == n && InRange(n, stack)
    && (forall i :: 0 <= i < |stack| ==> 0 <= low[stack[i]] < |order|)
    && forall i {:trigger Reach(adj, n, stack[i], order[low[stack[i]]])} :: 0 <= i < |stack| ==>
         && order[low[stack[i]]] in stack
         && Reach(adj, n, stack[i], order[low[stack[i]]])
  }

  lemma LinkOf(adj: seq<int>, n: nat, low: seq<int>, stack: seq<int>, order: seq<int>, i: int)
    requires LinksReach(adj, n, low, stack, order) && 0 <= i < |stack|
    ensures 0 <= low[stack[i]] < |order| && order[low[stack[i]]] in stack
    ensures Reach(adj, n, stack[i], order[low[stack[i]]])
  {
    assert Reach(adj, n, stack[i], order[low[stack[i]]]);
  }

  /** Every stacked node reaches the innermost active node. */
  ghost predicate ReachActive(adj: seq<int>, n: nat, stack: seq<int>, path: seq<int>)
  {
    |path| > 0 ==> forall i :: 0 <= i < |stack| ==> Reach(adj, n, stack[i], path[|path| - 1])
  }

  /** An active node reaches every stacked node numbered after it. */
  ghost predicate ActiveReaches(adj: seq<int>, n: nat, ids: seq<int>, stack: seq<int>, path: seq<int>)
  {
    && |ids| == n && InRange(n, stack) && InRange(n, path)
    && forall i, j :: 0 <= i < |path| && 0 <= j < |stack| && ids[stack[j]] >= ids[path[i]] ==>
         Reach(adj, n, path[i], stack[j])
  }

  /** A finished node still on the stack has a link no lower than that of the
      last active node numbered before it. */
  ghost predicate Segments(n: nat, ids: seq<int>, low: seq<int>, stack: seq<int>, path: seq<int>)
  {
    && |ids| == n && |low| == n && InRange(n, stack) && InRange(n, path)
    && forall i, j {:trigger low[path[i]], low[stack[j]]} ::
         0 <= i < |path| && 0 <= j < |stack| && stack[j] !in path && ids[path[i]] < ids[stack[j]] &&
         (i + 1 == |path| || ids[stack[j]] < ids[path[i + 1]])
         ==> low[path[i]] <= low[stack[j]]
  }

  /** Every user a finished node has paid is numbered, and one still on the stack
      is numbered no lower than the finished node's link. */
  ghost predicate Finished(adj: seq<int>, n: nat, ids: seq<int>, low: seq<int>, stack: seq<int>, path: seq<int>)
  {
    && |ids| == n && |low| == n
    && forall v, w {:trigger HasEdge(adj, n, v, w)} ::
         0 <= v < n && 0 <= w < n && ids[v] != -1 && v !in path && HasEdge(adj, n, v, w) ==>
         ids[w] != -1 && (w in stack ==> low[v] <= ids[w])
  }

  /** The same for the users below `m` that `node` has paid: what the successor
      loop of tarjan_dfs has established so far. */
  ghost predicate Done(adj: seq<int>, n: nat, ids: seq<int>, low: seq<int>, stack: seq<int>, node: int, m: int)
  {
    && |ids| == n && |low| == n && 0 <= node < n
    && forall w {:trigger HasEdge(adj, n, node, w)} :: 0 <= w < m && w < n && HasEdge(adj, n, node, w) ==>
         ids[w] != -1 && (w in stack ==> low[node] <= ids[w])
  }

  /** Each popped group is a strongly connected component, and nothing leads out
      of the popped groups. */
  ghost predicate Components(adj: seq<int>, n: nat, groups: seq<seq<int>>)
  {
    && Closed(adj, n, Flatten(groups))
    && (forall k, x, y :: 0 <= k < |groups| && x in groups[k] && y in groups[k] ==> Reach(adj, n, x, y))
    && (forall k, x, y :: 0 <= k < |groups| && x in groups[k] && Reach(adj, n, x, y) && Reach(adj, n, y, x) ==>
          y in groups[k])
  }

  /** The reachability invariant of the search, for the call path `path`. */
  ghost predicate SccInv(adj: seq<int>, n: nat, ids: seq<int>, low: seq<int>, stack: seq<int>, order: seq<int>,
                         groups: seq<seq<int>>, path: seq<int>)
  {
    && CallPath(n, ids, stack, path)
    && LinksReach(adj, n, low, stack, order)
    && ReachActive(adj, n, stack, path)
    && ActiveReaches(adj, n, ids, stack, path)
    && Segments(n, ids, low, stack, path)
    && Finished(adj, n, ids, low, stack, path)
    && Components(adj, n, groups)
  }

  /** On a stack ordered by number, the nodes numbered below the one at `pos` are
      exactly those under it. */
  lemma StackSplit(n: nat, ids: seq<int>, onStack: seq<bool>, stack: seq<int>, pos: int, x: int)
    requires Stacked(n, ids, onStack, stack) && 0 <= pos < |stack| && x in stack
    ensures ids[x] < ids[stack[pos]] ==> x in stack[..pos]
    ensures ids[x] >= ids[stack[pos]] ==> x in stack[pos..]
  {
    var j :| 0 <= j < |stack| && stack[j] == x;
    if j < pos {
      assert stack[..pos][j] == x;
    } else {
      assert stack[pos..][j - pos] == x;
    }
  }

  /** A member of the flattened groups belongs to one of them. */
  lemma {:induction false} WhichGroup(groups: seq<seq<int>>, x: int) returns (k: int)
    requires x in Flatten(groups)
    ensures 0 <= k < |groups| && x in groups[k]
  {
    var init := groups[..|groups| - 1];
    if x in groups[|groups| - 1] {
      k := |groups| - 1;
    } else {
      k := WhichGroup(init, x);
      assert groups[k] == init[k];
    }
  }

  /** Before the search starts, with no node numbered, the invariant holds with no call active. */
  lemma SccInitial(adj: seq<int>, n: nat, ids: seq<int>, low: seq<int>)
    requires |ids| == n && |low| == n && forall v :: 0 <= v < n ==> ids[v] == -1
    ensures SccInv(adj, n, ids, low, [], [], [], [])
  {
  }

  /** The nodes on the stack and on the call path are numbered before `node`, which
      is not numbered yet. */
  ghost predicate Fresh(n: nat, ids: seq<int>, order: seq<int>, stack: seq<int>, path: seq<int>, node: int)
  {
    && |ids| == n && 0 <= node < n && ids[node] == -1
    && (forall i :: 0 <= i < |stack| ==> 0 <= stack[i] < n && stack[i] != node && 0 <= ids[stack[i]] < |order|)
    && (forall i :: 0 <= i < |path| ==> 0 <= path[i] < n && path[i] != node && 0 <= ids[path[i]] < |order|)
  }

  lemma FreshNode(n: nat, ids: seq<int>, low: seq<int>, onStack: seq<bool>, stack: seq<int>,
                  order: seq<int>, groups: seq<seq<int>>, path: seq<int>, node: int)
    requires TarjanState(n, ids, low, onStack, stack, order, groups)
    requires CallPath(n, ids, stack, path)
    requires 0 <= node < n && ids[node] == -1
    ensures Fresh(n, ids, order, stack, path, node)
  {
    forall i | 0 <= i < |path| ensures 0 <= path[i] < n && path[i] != node && 0 <= ids[path[i]] < |order| {
      assert path[i] in stack;
    }
  }

  lemma DiscoverCallPath(n: nat, ids: seq<int>, order: seq<int>, stack: seq<int>, path: seq<int>, node: int)
    requires Fresh(n, ids, order, stack, path, node) && CallPath(n, ids, stack, path)
    ensures CallPath(n, ids[node := |order|], stack + [node], path + [node])
  {
    var ids', stack', path' := ids[node := |order|], stack + [node], path + [node];
    forall i | 0 <= i < |path'| ensures path'[i] in stack' {
      if i < |path| {
        assert path[i] in stack;
      }
    }
    forall i, j | 0 <= i < j < |path'| ensures ids'[path'[i]] < ids'[path'[j]] {
      if j < |path| {
        assert ids[path[i]] < ids[path[j]];
      }
    }
  }

  lemma DiscoverLinks(adj: seq<int>, n: nat, ids: seq<int>, low: seq<int>, order: seq<int>, stack: seq<int>,
                      path: seq<int>, node: int)
    requires Fresh(n, ids, order, stack, path, node) && LinksReach(adj, n, low, stack, order)
    ensures LinksReach(adj, n, low[node := |order|], stack + [node], order + [node])
  {
    var low', stack', order' := low[node := |order|], stack + [node], order + [node];
    forall i | 0 <= i < |stack'|
      ensures 0 <= low'[stack'[i]] < |order'| && order'[low'[stack'[i]]] in stack'
      ensures Reach(adj, n, stack'[i], order'[low'[stack'[i]]])
    {
      if i < |stack| {
        LinkOf(adj, n, low, stack, order, i);
        assert stack'[i] == stack[i] && low'[stack[i]] == low[stack[i]];
        assert order'[low[stack[i]]] == order[low[stack[i]]];
      } else {
        ReachRefl(adj, n, node);
      }
    }
  }

  lemma DiscoverActive(adj: seq<int>, n: nat, stack: seq<int>, path: seq<int>, node: int)
    requires 0 <= node < n && ReachActive(adj, n, stack, path)
    requires path == [] ==> stack == []
    requires path != [] ==> HasEdge(adj, n, path[|path| - 1], node)
    ensures ReachActive(adj, n, stack + [node], path + [node])
  {
    var stack' := stack + [node];
    forall i | 0 <= i < |stack'| ensures Reach(adj, n, stack'[i], node) {
      if i < |stack| {
        ReachEdge(adj, n, stack[i], path[|path| - 1], node);
      } else {
        ReachRefl(adj, n, node);
      }
    }
  }

  lemma DiscoverReaches(adj: seq<int>, n: nat, ids: seq<int>, order: seq<int>, stack: seq<int>, path: seq<int>,
                        node: int)
    requires Fresh(n, ids, order, stack, path, node) && CallPath(n, ids, stack, path)
    requires ActiveReaches(adj, n, ids, stack, path)
    requires path != [] ==> HasEdge(adj, n, path[|path| - 1], node)
    ensures ActiveReaches(adj, n, ids[node := |order|], stack + [node], path + [node])
  {
    var ids', stack', path' := ids[node := |order|], stack + [node], path + [node];
    forall i, j | 0 <= i < |path'| && 0 <= j < |stack'| && ids'[stack'[j]] >= ids'[path'[i]]
      ensures Reach(adj, n, path'[i], stack'[j])
    {
      if j == |stack| {
        if i == |path| {
          ReachRefl(adj, n, node);
        } else {
          var p := path[|path| - 1];
          assert p in stack;
          var jp :| 0 <= jp < |stack| && stack[jp] == p;
          if i < |path| - 1 {
            assert ids[path[i]] < ids[p];
          }
          assert Reach(adj, n, path[i], stack[jp]);
          ReachEdge(adj, n, path[i], p, node);
        }
      } else {
        assert stack'[j] == stack[j];
        assert i < |path|;
        assert path'[i] == path[i];
      }
    }
  }

  lemma DiscoverSegments(n: nat, ids: seq<int>, low: seq<int>, order: seq<int>, stack: seq<int>, path: seq<int>,
                         node: int)
    requires Fresh(n, ids, order, stack, path, node) && Segments(n, ids, low, stack, path)
    ensures Segments(n, ids[node := |order|], low[node := |order|], stack + [node], path + [node])
  {
    var ids', low', stack', path' := ids[node := |order|], low[node := |order|], stack + [node], path + [node];
    forall i, j |
      0 <= i < |path'| && 0 <= j < |stack'| && stack'[j] !in path' && ids'[path'[i]] < ids'[stack'[j]] &&
      (i + 1 == |path'| || ids'[stack'[j]] < ids'[path'[i + 1]])
      ensures low'[path'[i]] <= low'[stack'[j]]
    {
      assert j < |stack| && stack'[j] == stack[j];
      assert i < |path| && path'[i] == path[i];
      assert stack[j] !in path;
      if i + 1 < |path| {
        assert path'[i + 1] == path[i + 1];
      }
    }
  }

  lemma DiscoverFinished(adj: seq<int>, n: nat, ids: seq<int>, low: seq<int>, order: seq<int>, stack: seq<int>,
                         path: seq<int>, node: int)
    requires Fresh(n, ids, order, stack, path, node) && Finished(adj, n, ids, low, stack, path)
    ensures Finished(adj, n, ids[node := |order|], low[node := |order|], stack + [node], path + [node])
  {
    var ids', low', stack', path' := ids[node := |order|], low[node := |order|], stack + [node], path + [node];
    forall v, w | 0 <= v < n && 0 <= w < n && ids'[v] != -1 && v !in path' && HasEdge(adj, n, v, w)
      ensures ids'[w] != -1 && (w in stack' ==> low'[v] <= ids'[w])
    {
      assert v != node && ids[v] != -1 && v !in path;
      assert ids[w] != -1;
    }
  }

  /** Lines 102-106 of tarjan_dfs: numbering and pushing `node`, whose caller paid it,
      makes it the innermost active call. */
  lemma SccDiscover(adj: seq<int>, n: nat, ids: seq<int>, low: seq<int>, onStack: seq<bool>, stack: seq<int>,
                    order: seq<int>, groups: seq<seq<int>>, path: seq<int>, node: int)
    requires TarjanState(n, ids, low, onStack, stack, order, groups)
    requires SccInv(adj, n, ids, low, stack, order, groups, path)
    requires 0 <= node < n && ids[node] == -1
    requires path == [] ==> stack == []
    requires path != [] ==> HasEdge(adj, n, path[|path| - 1], node)
    ensures SccInv(adj, n, ids[node := |order|], low[node := |order|], stack + [node], order + [node], groups,
                   path + [node])
  {
    FreshNode(n, ids, low, onStack, stack, order, groups, path, node);
    DiscoverCallPath(n, ids, order, stack, path, node);
    DiscoverLinks(adj, n, ids, low, order, stack, path, node);
    DiscoverActive(adj, n, stack, path, node);
    DiscoverReaches(adj, n, ids, order, stack, path, node);
    DiscoverSegments(n, ids, low, order, stack, path, node);
    DiscoverFinished(adj, n, ids, low, order, stack, path, node);
  }

  lemma LowerLinks(adj: seq<int>, n: nat, low: seq<int>, stack: seq<int>, order: seq<int>, node: int, next: int)
    requires LinksReach(adj, n, low, stack, order)
    requires 0 <= node < n && HasEdge(adj, n, node, next) && next in stack
    ensures LinksReach(adj, n, low[node := Min(low[node], low[next])], stack, order)
  {
    var low' := low[node := Min(low[node], low[next])];
    var jn :| 0 <= jn < |stack| && stack[jn] == next;
    forall i | 0 <= i < |stack|
      ensures 0 <= low'[stack[i]] < |order| && order[low'[stack[i]]] in stack
      ensures Reach(adj, n, stack[i], order[low'[stack[i]]])
    {
      LinkOf(adj, n, low, stack, order, i);
      if stack[i] == node && low[next] < low[node] {
        assert Walk(adj, n, [node, next]);
        LinkOf(adj, n, low, stack, order, jn);
        ReachTrans(adj, n, node, next, order[low[next]]);
      }
    }
  }

  lemma LowerSegments(n: nat, ids: seq<int>, low: seq<int>, stack: seq<int>, path: seq<int>, node: int, m: int)
    requires Segments(n, ids, low, stack, path) && node in path && m <= low[node]
    ensures Segments(n, ids, low[node := m], stack, path)
  {
  }

  lemma LowerFinished(adj: seq<int>, n: nat, ids: seq<int>, low: seq<int>, stack: seq<int>, path: seq<int>,
                      node: int, m: int)
    requires Finished(adj, n, ids, low, stack, path) && node in path && 0 <= node < n
    ensures Finished(adj, n, ids, low[node := m], stack, path)
  {
  }

  /** Lines 112-119: lowering the link of an active node to that of a stacked user it paid. */
  lemma SccLower(adj: seq<int>, n: nat, ids: seq<int>, low: seq<int>, stack: seq<int>,
                 order: seq<int>, groups: seq<seq<int>>, path: seq<int>, node: int, next: int)
    requires SccInv(adj, n, ids, low, stack, order, groups, path)
    requires node in path && HasEdge(adj, n, node, next) && next in stack
    ensures SccInv(adj, n, ids, low[node := Min(low[node], low[next])], stack, order, groups, path)
  {
    EdgeInRange(adj, n, node, next);
    LowerLinks(adj, n, low, stack, order, node, next);
    LowerSegments(n, ids, low, stack, path, node, Min(low[node], low[next]));
    LowerFinished(adj, n, ids, low, stack, path, node, Min(low[node], low[next]));
  }

  lemma InRangeSnoc(n: nat, path: seq<int>, c: int)
    requires InRange(n, path + [c])
    ensures InRange(n, path) && 0 <= c < n
  {
    assert (path + [c])[|path|] == c;
    forall i | 0 <= i < |path| ensures 0 <= path[i] < n {
      assert (path + [c])[i] == path[i];
    }
  }

  lemma SegmentAt(n: nat, ids: seq<int>, low: seq<int>, stack: seq<int>, path: seq<int>, i: int, j: int)
    requires Segments(n, ids, low, stack, path)
    requires 0 <= i < |path| && 0 <= j < |stack| && stack[j] !in path && ids[path[i]] < ids[stack[j]]
    requires i + 1 == |path| || ids[stack[j]] < ids[path[i + 1]]
    ensures low[path[i]] <= low[stack[j]]
  {
  }

  lemma PrefixPath(n: nat, ids: seq<int>, stack: seq<int>, path: seq<int>, c: int)
    requires CallPath(n, ids, stack, path + [c])
    ensures CallPath(n, ids, stack, path) && 0 <= c < n
    ensures forall i :: 0 <= i < |path| ==> ids[path[i]] < ids[c]
  {
    InRangeSnoc(n, path, c);
    forall i | 0 <= i < |path| ensures path[i] in stack && ids[path[i]] < ids[c] {
      assert (path + [c])[i] == path[i];
      assert (path + [c])[|path|] == c;
    }
    forall i, j | 0 <= i < j < |path| ensures ids[path[i]] < ids[path[j]] {
      assert (path + [c])[i] == path[i] && (path + [c])[j] == path[j];
    }
  }

  lemma RetireActive(adj: seq<int>, n: nat, ids: seq<int>, low: seq<int>, onStack: seq<bool>, stack: seq<int>,
                     order: seq<int>, path: seq<int>, c: int, pos: int)
    requires Numbered(n, ids, order) && Stacked(n, ids, onStack, stack)
    requires LinksReach(adj, n, low, stack, order) && ReachActive(adj, n, stack, path + [c])
    requires path != [] && 0 <= pos < |stack| && stack[pos] == c && low[c] < ids[c]
    requires forall i :: 0 <= i < pos ==> Reach(adj, n, stack[i], path[|path| - 1])
    ensures ReachActive(adj, n, stack, path)
  {
    var p := path[|path| - 1];
    LinkOf(adj, n, low, stack, order, pos);
    var w := order[low[c]];
    StackSplit(n, ids, onStack, stack, pos, w);
    var jw :| 0 <= jw < pos && stack[..pos][jw] == w;
    assert Reach(adj, n, stack[jw], p);
    ReachTrans(adj, n, c, w, p);
    forall i | 0 <= i < |stack| ensures Reach(adj, n, stack[i], p) {
      if i >= pos {
        assert Reach(adj, n, stack[i], (path + [c])[|path|]);
        ReachTrans(adj, n, stack[i], c, p);
      }
    }
  }

  lemma RetireReaches(adj: seq<int>, n: nat, ids: seq<int>, stack: seq<int>, path: seq<int>, c: int)
    requires ActiveReaches(adj, n, ids, stack, path + [c])
    ensures ActiveReaches(adj, n, ids, stack, path)
  {
    forall i | 0 <= i < |path| ensures 0 <= path[i] < n {
      assert (path + [c])[i] == path[i];
    }
    forall i, j | 0 <= i < |path| && 0 <= j < |stack| && ids[stack[j]] >= ids[path[i]]
      ensures Reach(adj, n, path[i], stack[j])
    {
      assert (path + [c])[i] == path[i];
    }
  }

  lemma RetireSegments(n: nat, ids: seq<int>, low: seq<int>, order: seq<int>, stack: seq<int>, path: seq<int>,
                       c: int)
    requires Numbered(n, ids, order) && CallPath(n, ids, stack, path + [c])
    requires Segments(n, ids, low, stack, path + [c])
    requires path != [] && 0 <= path[|path| - 1] < n && 0 <= c < n && low[path[|path| - 1]] <= low[c]
    ensures Segments(n, ids, low, stack, path)
  {
    var path' := path + [c];
    PrefixPath(n, ids, stack, path, c);
    forall i, j |
      0 <= i < |path| && 0 <= j < |stack| && stack[j] !in path && ids[path[i]] < ids[stack[j]] &&
      (i + 1 == |path| || ids[stack[j]] < ids[path[i + 1]])
      ensures low[path[i]] <= low[stack[j]]
    {
      var x := stack[j];
      assert path'[i] == path[i];
      if i + 1 < |path| {
        assert path'[i + 1] == path[i + 1];
        assert x != c;
      } else if x != c {
        assert x !in path';
        assert path'[i + 1] == c;
        if ids[x] > ids[c] {
          assert path'[|path|] == c;
          SegmentAt(n, ids, low, stack, path', |path|, j);
        } else {
          assert ids[x] != ids[c] by {
            assert order[ids[x]] == x && order[ids[c]] == c;
          }
        }
      }
    }
  }

  lemma RetireFinished(adj: seq<int>, n: nat, ids: seq<int>, low: seq<int>, stack: seq<int>, path: seq<int>,
                       c: int)
    requires Finished(adj, n, ids, low, stack, path + [c]) && Done(adj, n, ids, low, stack, c, n)
    ensures Finished(adj, n, ids, low, stack, path)
  {
  }

  /** Lines 108-120, after a recursive call returns: a child left on the stack with a
      link below its own number becomes a finished node under its caller, whose link
      was just lowered to at most the child's. */
  lemma SccRetire(adj: seq<int>, n: nat, ids: seq<int>, low: seq<int>, onStack: seq<bool>, stack: seq<int>,
                  order: seq<int>, groups: seq<seq<int>>, path: seq<int>, c: int, pos: int)
    requires TarjanState(n, ids, low, onStack, stack, order, groups)
    requires SccInv(adj, n, ids, low, stack, order, groups, path + [c])
    requires path != [] && 0 <= path[|path| - 1] < n && 0 <= pos < |stack| && stack[pos] == c && low[c] < ids[c]
    requires Done(adj, n, ids, low, stack, c, n) && low[path[|path| - 1]] <= low[c]
    requires forall i :: 0 <= i < pos ==> Reach(adj, n, stack[i], path[|path| - 1])
    ensures SccInv(adj, n, ids, low, stack, order, groups, path)
  {
    PrefixPath(n, ids, stack, path, c);
    RetireActive(adj, n, ids, low, onStack, stack, order, path, c, pos);
    RetireReaches(adj, n, ids, stack, path, c);
    RetireSegments(n, ids, low, order, stack, path, c);
    RetireFinished(adj, n, ids, low, stack, path, c);
  }

  lemma PopCallPath(n: nat, ids: seq<int>, onStack: seq<bool>, stack: seq<int>, path: seq<int>, pos: int)
    requires Stacked(n, ids, onStack, stack) && 0 <= pos < |stack|
    requires CallPath(n, ids, stack, path + [stack[pos]])
    ensures CallPath(n, ids, stack[..pos], path)
  {
    PrefixPath(n, ids, stack, path, stack[pos]);
    forall i | 0 <= i < |path| ensures path[i] in stack[..pos] {
      StackSplit(n, ids, onStack, stack, pos, path[i]);
    }
  }

  lemma PopLinks(adj: seq<int>, n: nat, ids: seq<int>, low: seq<int>, onStack: seq<bool>, stack: seq<int>,
                 order: seq<int>, pos: int)
    requires Numbered(n, ids, order) && Stacked(n, ids, onStack, stack) && LowLinked(n, ids, low, stack)
    requires LinksReach(adj, n, low, stack, order) && 0 <= pos < |stack|
    ensures LinksReach(adj, n, low, stack[..pos], order)
  {
    var stack' := stack[..pos];
    forall i | 0 <= i < pos
      ensures order[low[stack'[i]]] in stack' && Reach(adj, n, stack'[i], order[low[stack'[i]]])
    {
      LinkOf(adj, n, low, stack, order, i);
      var w := order[low[stack[i]]];
      assert ids[w] == low[stack[i]] <= ids[stack[i]] < ids[stack[pos]];
      StackSplit(n, ids, onStack, stack, pos, w);
    }
  }

  lemma PopReaches(adj: seq<int>, n: nat, ids: seq<int>, stack: seq<int>, path: seq<int>, c: int, pos: int)
    requires ActiveReaches(adj, n, ids, stack, path + [c]) && 0 <= pos <= |stack|
    ensures ActiveReaches(adj, n, ids, stack[..pos], path)
  {
    RetireReaches(adj, n, ids, stack, path, c);
    forall i, j | 0 <= i < |path| && 0 <= j < pos && ids[stack[..pos][j]] >= ids[path[i]]
      ensures Reach(adj, n, path[i], stack[..pos][j])
    {
      assert stack[..pos][j] == stack[j];
    }
  }

  lemma PopSegments(n: nat, ids: seq<int>, low: seq<int>, onStack: seq<bool>, stack: seq<int>, path: seq<int>,
                    pos: int)
    requires Stacked(n, ids, onStack, stack) && 0 <= pos < |stack|
    requires CallPath(n, ids, stack, path + [stack[pos]]) && Segments(n, ids, low, stack, path + [stack[pos]])
    ensures Segments(n, ids, low, stack[..pos], path)
  {
    var c, path', stack' := stack[pos], path + [stack[pos]], stack[..pos];
    PrefixPath(n, ids, stack, path, c);
    forall i, j |
      0 <= i < |path| && 0 <= j < |stack'| && stack'[j] !in path && ids[path[i]] < ids[stack'[j]] &&
      (i + 1 == |path| || ids[stack'[j]] < ids[path[i + 1]])
      ensures low[path[i]] <= low[stack'[j]]
    {
      assert stack'[j] == stack[j] && ids[stack[j]] < ids[c];
      assert stack[j] !in path';
      assert path'[i] == path[i] && path'[i + 1] == (if i + 1 < |path| then path[i + 1] else c);
      SegmentAt(n, ids, low, stack, path', i, j);
    }
  }

  lemma PopFinished(adj: seq<int>, n: nat, ids: seq<int>, low: seq<int>, stack: seq<int>, path: seq<int>,
                    c: int, pos: int)
    requires Finished(adj, n, ids, low, stack, path + [c]) && Done(adj, n, ids, low, stack, c, n)
    requires 0 <= pos <= |stack|
    ensures Finished(adj, n, ids, low, stack[..pos], path)
  {
    forall v, w | 0 <= v < n && 0 <= w < n && ids[v] != -1 && v !in path && HasEdge(adj, n, v, w)
      ensures ids[w] != -1 && (w in stack[..pos] ==> low[v] <= ids[w])
    {
      assert w in stack[..pos] ==> w in stack;
    }
  }

  /** Every member of the popped group leads only into the group or into groups
      popped before: a successor still under the group's root would give some
      member a link below the root's number. */
  lemma PopClosed(adj: seq<int>, n: nat, ids: seq<int>, low: seq<int>, onStack: seq<bool>, stack: seq<int>,
                  order: seq<int>, groups: seq<seq<int>>, path: seq<int>, pos: int)
    requires TarjanState(n, ids, low, onStack, stack, order, groups)
    requires 0 <= pos < |stack| && low[stack[pos]] == ids[stack[pos]]
    requires CallPath(n, ids, stack, path + [stack[pos]])
    requires Segments(n, ids, low, stack, path + [stack[pos]])
    requires Finished(adj, n, ids, low, stack, path + [stack[pos]])
    requires Closed(adj, n, Flatten(groups))
    requires Done(adj, n, ids, low, stack, stack[pos], n)
    ensures Closed(adj, n, Flatten(groups + [Reverse(stack[pos..])]))
  {
    var c, path', top := stack[pos], path + [stack[pos]], stack[pos..];
    var grp := Reverse(top);
    FlattenAppend(groups, grp);
    MultisetReverse(top);
    PrefixPath(n, ids, stack, path, c);
    forall u, w | u in Flatten(groups) + grp && HasEdge(adj, n, u, w) ensures w in Flatten(groups) + grp {
      EdgeInRange(adj, n, u, w);
      if u in grp {
        assert u in multiset(top);
        var j :| 0 <= j < |top| && top[j] == u;
        assert ids[w] != -1 && (w in stack ==> ids[c] <= ids[w]) by {
          if j > 0 {
            assert ids[c] < ids[u];
            assert u !in path' by {
              forall i | 0 <= i < |path'| ensures path'[i] != u {
                if i < |path| {
                  assert ids[path[i]] < ids[c];
                }
              }
            }
            assert stack[pos + j] == u;
            assert path'[|path|] == c;
            SegmentAt(n, ids, low, stack, path', |path|, pos + j);
          }
        }
        DiscoveredIff(n, ids, order, w);
        assert w in multiset(order);
        if w in stack {
          StackSplit(n, ids, onStack, stack, pos, w);
          assert w in multiset(top);
        } else {
          assert w in multiset(Flatten(groups));
        }
      }
    }
  }

  /** The popped group is strongly connected, and no node outside it is strongly
      connected to one of its members. */
  lemma PopComponents(adj: seq<int>, n: nat, ids: seq<int>, low: seq<int>, onStack: seq<bool>, stack: seq<int>,
                      order: seq<int>, groups: seq<seq<int>>, path: seq<int>, pos: int)
    requires TarjanState(n, ids, low, onStack, stack, order, groups)
    requires 0 <= pos < |stack|
    requires ReachActive(adj, n, stack, path + [stack[pos]])
    requires ActiveReaches(adj, n, ids, stack, path + [stack[pos]])
    requires Components(adj, n, groups)
    requires Closed(adj, n, Flatten(groups + [Reverse(stack[pos..])]))
    ensures Components(adj, n, groups + [Reverse(stack[pos..])])
  {
    var c, path', top := stack[pos], path + [stack[pos]], stack[pos..];
    var grp := Reverse(top);
    var groups' := groups + [grp];
    FlattenAppend(groups, grp);
    MultisetReverse(top);
    assert path'[|path|] == c;
    NumberedDistinct(n, ids, order);
    forall x | x in grp ensures x in stack && Reach(adj, n, x, c) && Reach(adj, n, c, x) && x !in Flatten(groups) {
      assert x in multiset(top);
      var j :| 0 <= j < |top| && top[j] == x;
      assert stack[pos + j] == x;
      assert Reach(adj, n, stack[pos + j], path'[|path'| - 1]);
      assert Reach(adj, n, path'[|path|], stack[pos + j]);
      StackedNotGrouped(Flatten(groups), stack, order, x);
    }
    forall k, x, y | 0 <= k < |groups'| && x in groups'[k] && y in groups'[k] ensures Reach(adj, n, x, y) {
      if k == |groups| {
        ReachTrans(adj, n, x, c, y);
      } else {
        assert groups'[k] == groups[k];
      }
    }
    forall k, x, y | 0 <= k < |groups'| && x in groups'[k] && Reach(adj, n, x, y) && Reach(adj, n, y, x)
      ensures y in groups'[k]
    {
      if k == |groups| {
        assert x in Flatten(groups');
        ClosedReach(adj, n, Flatten(groups'), x, y);
        if y !in grp {
          var k' := WhichGroup(groups, y);
          InFlatten(groups, k', x);
          assert false;
        }
      } else {
        assert groups'[k] == groups[k];
      }
    }
  }

  /** Lines 122-131: the root of a component pops it; the invariant holds again for
      the caller's call path. */
  lemma SccPop(adj: seq<int>, n: nat, ids: seq<int>, low: seq<int>, onStack: seq<bool>, stack: seq<int>,
               order: seq<int>, groups: seq<seq<int>>, path: seq<int>, pos: int)
    requires TarjanState(n, ids, low, onStack, stack, order, groups)
    requires 0 <= pos < |stack| && low[stack[pos]] == ids[stack[pos]]
    requires SccInv(adj, n, ids, low, stack, order, groups, path + [stack[pos]])
    requires Done(adj, n, ids, low, stack, stack[pos], n)
    requires path != [] ==> forall i :: 0 <= i < pos ==> Reach(adj, n, stack[i], path[|path| - 1])
    ensures SccInv(adj, n, ids, low, stack[..pos], order, groups + [Reverse(stack[pos..])], path)
  {
    PopCallPath(n, ids, onStack, stack, path, pos);
    PopLinks(adj, n, ids, low, onStack, stack, order, pos);
    PopReaches(adj, n, ids, stack, path, stack[pos], pos);
    PopSegments(n, ids, low, onStack, stack, path, pos);
    PopFinished(adj, n, ids, low, stack, path, stack[pos], pos);
    PopClosed(adj, n, ids, low, onStack, stack, order, groups, path, pos);
    PopComponents(adj, n, ids, low, onStack, stack, order, groups, path, pos);
  }

  /** A user `node` has not paid adds nothing to what the successor loop must establish. */
  lemma DoneSkip(adj: seq<int>, n: nat, ids: seq<int>, low: seq<int>, stack: seq<int>, node: int, next: int)
    requires Done(adj, n, ids, low, stack, node, next) && !HasEdge(adj, n, node, next)
    ensures Done(adj, n, ids, low, stack, node, next + 1)
  {
  }

  /** Changing the link of another node leaves what was established for `node` as it was. */
  lemma DoneFrame(adj: seq<int>, n: nat, ids: seq<int>, low: seq<int>, stack: seq<int>, node: int, m: int,
                  other: int, x: int)
    requires Done(adj, n, ids, low, stack, node, m) && other != node && 0 <= other < n
    ensures Done(adj, n, ids, low[other := x], stack, node, m)
  {
  }

  /** Every user numbered in `ids0` keeps its number in `ids` and, unless it is
      `except`, its link from `low0` in `low`. */
  ghost predicate Kept(ids0: seq<int>, low0: seq<int>, ids: seq<int>, low: seq<int>, except: int)
  {
    && |ids0| == |low0| == |ids| == |low|
    && forall v :: 0 <= v < |ids0| && ids0[v] != -1 ==> ids[v] == ids0[v] && (v != except ==> low[v] == low0[v])
  }

  lemma KeptTrans(ids0: seq<int>, low0: seq<int>, ids1: seq<int>, low1: seq<int>, ids2: seq<int>, low2: seq<int>,
                  except: int)
    requires Kept(ids0, low0, ids1, low1, except) && Kept(ids1, low1, ids2, low2, except)
    ensures Kept(ids0, low0, ids2, low2, except)
  {
  }

  /** The entries of `stack` from position `from` on were all unnumbered in `ids0`. */
  ghost predicate Newcomers(ids0: seq<int>, stack: seq<int>, from: int)
  {
    forall i :: 0 <= from <= i < |stack| ==> 0 <= stack[i] < |ids0| && ids0[stack[i]] == -1
  }

  /** Two stretches of newcomers, the second unnumbered in a later state that
      kept the numbers of the first, make one stretch. */
  lemma NewcomersTrans(ids0: seq<int>, low0: seq<int>, ids1: seq<int>, low1: seq<int>, mid: seq<int>,
                       stack: seq<int>, from: int, except: int)
    requires Kept(ids0, low0, ids1, low1, except) && 0 <= from <= |mid| && mid <= stack
    requires Newcomers(ids0, mid, from) && Newcomers(ids1, stack, |mid|)
    ensures Newcomers(ids0, stack, from)
  {
    forall i | from <= i < |stack| ensures 0 <= stack[i] < |ids0| && ids0[stack[i]] == -1 {
      if i < |mid| {
        assert stack[i] == mid[i];
      }
    }
  }

  /** Newcomers after a user `node` that was unnumbered before it got number `c`
      and that sits at `from` are newcomers from `from` on. */
  lemma NewcomersDiscover(ids0: seq<int>, stack: seq<int>, from: int, node: int, c: int)
    requires 0 <= node < |ids0| && ids0[node] == -1 && 0 <= from < |stack| && stack[from] == node
    requires Newcomers(ids0[node := c], stack, from + 1)
    ensures Newcomers(ids0, stack, from)
  {
    forall i | from <= i < |stack| ensures 0 <= stack[i] < |ids0| && ids0[stack[i]] == -1 {
      if i > from && stack[i] != node {
        assert ids0[node := c][stack[i]] == ids0[stack[i]];
      }
    }
  }

  /** After one turn of the successor loop: numbers already given stay, the link
      of `node` only dropped, the stack only gained users unnumbered before the
      turn, and the user `next` is now numbered and, if still stacked, numbered no
      lower than the link of `node`. */
  lemma DoneAfter(adj: seq<int>, n: nat, ids0: seq<int>, low0: seq<int>, stack0: seq<int>,
                  ids1: seq<int>, low1: seq<int>, stack1: seq<int>, node: int, next: int)
    requires Done(adj, n, ids0, low0, stack0, node, next) && Kept(ids0, low0, ids1, low1, node)
    requires low1[node] <= low0[node]
    requires stack0 <= stack1 && Newcomers(ids0, stack1, |stack0|)
    requires 0 <= next < n && ids1[next] != -1 && (next in stack1 ==> low1[node] <= ids1[next])
    ensures Done(adj, n, ids1, low1, stack1, node, next + 1)
  {
    forall w | 0 <= w < next + 1 && w < n && HasEdge(adj, n, node, w)
      ensures ids1[w] != -1 && (w in stack1 ==> low1[node] <= ids1[w])
    {
      if w < next && w in stack1 {
        var i :| 0 <= i < |stack1| && stack1[i] == w;
        assert i < |stack0| && stack0[i] == w;
      }
    }
  }

  /** A user listed in two different groups is listed twice in their concatenation. */
  lemma {:induction false} TwoGroups(groups: seq<seq<int>>, k1: int, k2: int, y: int)
    requires 0 <= k1 < |groups| && 0 <= k2 < |groups| && k1 != k2 && y in groups[k1] && y in groups[k2]
    ensures multiset(Flatten(groups))[y] >= 2
  {
    var init, last := groups[..|groups| - 1], groups[|groups| - 1];
    assert Flatten(groups) == Flatten(init) + last;
    if k1 == |groups| - 1 {
      assert groups[k2] == init[k2];
      InFlatten(init, k2, y);
    } else if k2 == |groups| - 1 {
      assert groups[k1] == init[k1];
      InFlatten(init, k1, y);
    } else {
      assert groups[k1] == init[k1] && groups[k2] == init[k2];
      TwoGroups(init, k1, k2, y);
    }
  }

  /** When the popped groups partition the users and each is a strongly connected
      component, two users are in the same group exactly when each reaches the other. */
  lemma SccFinal(adj: seq<int>, n: nat, groups: seq<seq<int>>)
    requires Components(adj, n, groups) && Partition(n, groups)
    ensures forall k, x, y :: 0 <= k < |groups| && x in groups[k] && y in groups[k] ==> Reach(adj, n, x, y)
    ensures forall k1, k2, x, y ::
              0 <= k1 < |groups| && 0 <= k2 < |groups| && k1 != k2 && x in groups[k1] && y in groups[k2] ==>
              !(Reach(adj, n, x, y) && Reach(adj, n, y, x))
  {
    forall k1, k2, x, y |
      0 <= k1 < |groups| && 0 <= k2 < |groups| && k1 != k2 && x in groups[k1] && y in groups[k2]
      ensures !(Reach(adj, n, x, y) && Reach(adj, n, y, x))
    {
      if Reach(adj, n, x, y) && Reach(adj, n, y, x) {
        assert y in groups[k1];
        TwoGroups(groups, k1, k2, y);
        InFlatten(groups, k2, y);
        assert false;
      }
    }
  }

  /** SccInv under `depth` layers of recursion. A method holding the invariant at
      a depth the verifier cannot evaluate sees it as one fact instead of the
      pairwise quantifiers inside it; the lemmas below open it, take one step of
      the search and close it again. */
  ghost predicate Sealed(depth: nat, adj: seq<int>, n: nat, ids: seq<int>, low: seq<int>, stack: seq<int>,
                         order: seq<int>, groups: seq<seq<int>>, path: seq<int>)
    decreases depth
  {
    if depth == 0 then SccInv(adj, n, ids, low, stack, order, groups, path)
    else Sealed(depth - 1, adj, n, ids, low, stack, order, groups, path)
  }

  lemma {:induction false} Unseal(depth: nat, adj: seq<int>, n: nat, ids: seq<int>, low: seq<int>, stack: seq<int>,
                                  order: seq<int>, groups: seq<seq<int>>, path: seq<int>)
    requires Sealed(depth, adj, n, ids, low, stack, order, groups, path)
    ensures SccInv(adj, n, ids, low, stack, order, groups, path)
  {
    if depth > 0 {
      Unseal(depth - 1, adj, n, ids, low, stack, order, groups, path);
    }
  }

  lemma {:induction false} Seal(depth: nat, adj: seq<int>, n: nat, ids: seq<int>, low: seq<int>, stack: seq<int>,
                                order: seq<int>, groups: seq<seq<int>>, path: seq<int>)
    requires SccInv(adj, n, ids, low, stack, order, groups, path)
    ensures Sealed(depth, adj, n, ids, low, stack, order, groups, path)
  {
    if depth > 0 {
      Seal(depth - 1, adj, n, ids, low, stack, order, groups, path);
    }
  }

  /** Every user of `s` reaches `t`. */
  ghost predicate AllReach(adj: seq<int>, n: nat, s: seq<int>, t: int)
  {
    forall i :: 0 <= i < |s| ==> Reach(adj, n, s[i], t)
  }

  /** What a caller needs to see of the sealed invariant: every stacked node
      reaches the innermost active node. */
  lemma SealedReachActive(depth: nat, adj: seq<int>, n: nat, ids: seq<int>, low: seq<int>, stack: seq<int>,
                          order: seq<int>, groups: seq<seq<int>>, path: seq<int>)
    requires Sealed(depth, adj, n, ids, low, stack, order, groups, path) && path != []
    ensures AllReach(adj, n, stack, path[|path| - 1])
  {
    Unseal(depth, adj, n, ids, low, stack, order, groups, path);
  }

  lemma SealedInitial(depth: nat, adj: seq<int>, n: nat, ids: seq<int>, low: seq<int>)
    requires |ids| == n && |low| == n && forall v :: 0 <= v < n ==> ids[v] == -1
    ensures Sealed(depth, adj, n, ids, low, [], [], [], [])
  {
    SccInitial(adj, n, ids, low);
    Seal(depth, adj, n, ids, low, [], [], [], []);
  }

  lemma SealedDiscover(depth: nat, adj: seq<int>, n: nat, ids: seq<int>, low: seq<int>, onStack: seq<bool>,
                       stack: seq<int>, order: seq<int>, groups: seq<seq<int>>, path: seq<int>, node: int)
    requires Held(depth, n, ids, low, onStack, stack, order, groups)
    requires Sealed(depth, adj, n, ids, low, stack, order, groups, path)
    requires |ids| == |low| == |onStack| == n && 0 <= node < n && ids[node] == -1
    requires path == [] ==> stack == []
    requires path != [] ==> HasEdge(adj, n, path[|path| - 1], node)
    ensures Sealed(depth, adj, n, ids[node := |order|], low[node := |order|], stack + [node], order + [node], groups,
                   path + [node])
  {
    HeldIff(depth, n, ids, low, onStack, stack, order, groups);
    Unseal(depth, adj, n, ids, low, stack, order, groups, path);
    SccDiscover(adj, n, ids, low, onStack, stack, order, groups, path, node);
    Seal(depth, adj, n, ids[node := |order|], low[node := |order|], stack + [node], order + [node], groups,
         path + [node]);
  }

  lemma SealedLower(depth: nat, adj: seq<int>, n: nat, ids: seq<int>, low: seq<int>, stack: seq<int>,
                    order: seq<int>, groups: seq<seq<int>>, path: seq<int>, node: int, next: int)
    requires Sealed(depth, adj, n, ids, low, stack, order, groups, path)
    requires node in path && HasEdge(adj, n, node, next) && next in stack
    ensures 0 <= node < |low| && 0 <= next < |low|
    ensures Sealed(depth, adj, n, ids, low[node := Min(low[node], low[next])], stack, order, groups, path)
  {
    Unseal(depth, adj, n, ids, low, stack, order, groups, path);
    SccLower(adj, n, ids, low, stack, order, groups, path, node, next);
    Seal(depth, adj, n, ids, low[node := Min(low[node], low[next])], stack, order, groups, path);
  }

  lemma SealedRetire(depth: nat, adj: seq<int>, n: nat, ids: seq<int>, low: seq<int>, onStack: seq<bool>,
                     stack: seq<int>, order: seq<int>, groups: seq<seq<int>>, path: seq<int>, c: int, pos: int)
    requires TarjanState(n, ids, low, onStack, stack, order, groups)
    requires Sealed(depth, adj, n, ids, low, stack, order, groups, path + [c])
    requires path != [] && 0 <= path[|path| - 1] < n && 0 <= pos < |stack| && stack[pos] == c && low[c] < ids[c]
    requires Done(adj, n, ids, low, stack, c, n) && low[path[|path| - 1]] <= low[c]
    requires AllReach(adj, n, stack[..pos], path[|path| - 1])
    ensures Sealed(depth, adj, n, ids, low, stack, order, groups, path)
  {
    assert forall i :: 0 <= i < pos ==> stack[..pos][i] == stack[i];
    Unseal(depth, adj, n, ids, low, stack, order, groups, path + [c]);
    SccRetire(adj, n, ids, low, onStack, stack, order, groups, path, c, pos);
    Seal(depth, adj, n, ids, low, stack, order, groups, path);
  }

  lemma SealedPop(depth: nat, adj: seq<int>, n: nat, ids: seq<int>, low: seq<int>, onStack: seq<bool>,
                  stack: seq<int>, order: seq<int>, groups: seq<seq<int>>, path: seq<int>, pos: int)
    requires TarjanState(n, ids, low, onStack, stack, order, groups)
    requires 0 <= pos < |stack| && low[stack[pos]] == ids[stack[pos]]
    requires Sealed(depth, adj, n, ids, low, stack, order, groups, path + [stack[pos]])
    requires Done(adj, n, ids, low, stack, stack[pos], n)
    requires path != [] ==> AllReach(adj, n, stack[..pos], path[|path| - 1])
    ensures Sealed(depth, adj, n, ids, low, stack[..pos], order, groups + [Reverse(stack[pos..])], path)
  {
    assert forall i :: 0 <= i < pos ==> stack[..pos][i] == stack[i];
    Unseal(depth, adj, n, ids, low, stack, order, groups, path + [stack[pos]]);
    SccPop(adj, n, ids, low, onStack, stack, order, groups, path, pos);
    Seal(depth, adj, n, ids, low, stack[..pos], order, groups + [Reverse(stack[pos..])], path);
  }

  lemma SealedFinal(depth: nat, adj: seq<int>, n: nat, ids: seq<int>, low: seq<int>, stack: seq<int>,
                    order: seq<int>, groups: seq<seq<int>>)
    requires Sealed(depth, adj, n, ids, low, stack, order, groups, []) && Partition(n, groups)
    ensures forall k, x, y :: 0 <= k < |groups| && x in groups[k] && y in groups[k] ==> Reach(adj, n, x, y)
    ensures forall k1, k2, x, y ::
              0 <= k1 < |groups| && 0 <= k2 < |groups| && k1 != k2 && x in groups[k1] && y in groups[k2] ==>
              !(Reach(adj, n, x, y) && Reach(adj, n, y, x))
  {
    Unseal(depth, adj, n, ids, low, stack, order, groups, []);
    SccFinal(adj, n, groups);
  }
}
