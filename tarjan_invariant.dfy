/** The invariant of the Tarjan search of algorithms.c, stated over the contents
    of its buffers as values, with one lemma per step of tarjan_dfs showing that
    the step keeps it. */
module TarjanInvariant {
  import opened GraphStore
  import opened Cycles

  /** The members of `groups`, one group after the other. */
  ghost function Flatten(groups: seq<seq<int>>): seq<int>
  {
    if groups == [] then [] else Flatten(groups[..|groups| - 1]) + groups[|groups| - 1]
  }

  function Reverse(s: seq<int>): (r: seq<int>)
    ensures |r| == |s|
    ensures forall k :: 0 <= k < |s| ==> r[k] == s[|s| - 1 - k]
  {
    if s == [] then [] else Reverse(s[1..]) + [s[0]]
  }

  /** What the store holds after the components `groups` were popped: one entry
      per component of more than one node, with its total, in pop order. */
  ghost function Recorded(adj: seq<int>, n: nat, groups: seq<seq<int>>): seq<FraudCycle>
  {
    if groups == [] then []
    else
      var c := groups[|groups| - 1];
      Recorded(adj, n, groups[..|groups| - 1]) + (if |c| > 1 then [FraudCycle(c, Weight(adj, n, c))] else [])
  }

  /** A popped component: its members come off the stack in decreasing order of
      discovery, and the last one popped is its root, whose low link is its own number. */
  ghost predicate RootedGroup(ids: seq<int>, low: seq<int>, n: nat, c: seq<int>)
  {
    && |ids| == n && |low| == n
    && c != []
    && InRange(n, c)
    && (forall a, b :: 0 <= a < b < |c| ==> ids[c[a]] > ids[c[b]])
    && low[c[|c| - 1]] == ids[c[|c| - 1]]
  }

  lemma ReverseByIndex(s: seq<int>, r: seq<int>)
    requires |r| == |s| && forall k :: 0 <= k < |s| ==> r[k] == s[|s| - 1 - k]
    ensures r == Reverse(s)
  {
  }

  lemma MultisetReverse(s: seq<int>)
    ensures multiset(Reverse(s)) == multiset(s)
  {
    if s != [] {
      MultisetReverse(s[1..]);
      assert s == [s[0]] + s[1..];
    }
  }

  /** A node is listed at most once in a sequence without repetitions. */
  lemma {:induction false} DistinctOnce(s: seq<int>, v: int)
    requires Distinct(s)
    ensures multiset(s)[v] <= 1
  {
    if s != [] {
      var init := s[..|s| - 1];
      assert s == init + [s[|s| - 1]];
      DistinctOnce(init, v);
      if s[|s| - 1] == v {
        assert v !in init by {
          forall k | 0 <= k < |init| ensures init[k] != v {
            assert init[k] == s[k];
          }
        }
      }
    }
  }

  /** A sequence without repetitions drawn from [0, n) that misses `v` leaves room below n. */
  lemma RoomFor(n: nat, s: seq<int>, v: int)
    requires InRange(n, s) && Distinct(s) && 0 <= v < n && v !in s
    ensures |s| < n
  {
    var room := Below(n) - {v};
    forall k | 0 <= k < |s| ensures s[k] in room {
    }
    DistinctFits(s, room);
  }

  lemma FlattenAppend(groups: seq<seq<int>>, c: seq<int>)
    ensures Flatten(groups + [c]) == Flatten(groups) + c
  {
    assert (groups + [c])[..|groups|] == groups;
  }

  lemma RecordedAppend(adj: seq<int>, n: nat, groups: seq<seq<int>>, c: seq<int>)
    ensures Recorded(adj, n, groups + [c]) ==
              Recorded(adj, n, groups) + (if |c| > 1 then [FraudCycle(c, Weight(adj, n, c))] else [])
  {
    assert (groups + [c])[..|groups|] == groups;
  }

  /** A member of one group is a member of the flattened groups. */
  lemma {:induction false} InFlatten(groups: seq<seq<int>>, k: int, x: int)
    requires 0 <= k < |groups| && x in groups[k]
    ensures x in Flatten(groups)
  {
    var init := groups[..|groups| - 1];
    if k < |groups| - 1 {
      assert groups[k] == init[k];
      InFlatten(init, k, x);
    }
  }

  /** Changing ids and low links only at a node outside every group keeps the groups rooted. */
  lemma RootsFrame(ids: seq<int>, low: seq<int>, ids': seq<int>, low': seq<int>, n: nat,
                   groups: seq<seq<int>>, v: int)
    requires forall k :: 0 <= k < |groups| ==> RootedGroup(ids, low, n, groups[k])
    requires v !in Flatten(groups) && |ids| == n && |low| == n && |ids'| == n && |low'| == n
    requires forall u :: 0 <= u < n && u != v ==> ids'[u] == ids[u] && low'[u] == low[u]
    ensures forall k :: 0 <= k < |groups| ==> RootedGroup(ids', low', n, groups[k])
  {
    forall k | 0 <= k < |groups| ensures RootedGroup(ids', low', n, groups[k]) {
      var c := groups[k];
      assert RootedGroup(ids, low, n, c);
      forall i | 0 <= i < |c| ensures c[i] != v {
        if c[i] == v {
          InFlatten(groups, k, v);
        }
      }
    }
  }

  /** With every discovered node listed once, a node on the stack is in no group. */
  lemma StackedNotGrouped(flat: seq<int>, stacked: seq<int>, order: seq<int>, v: int)
    requires multiset(flat) + multiset(stacked) == multiset(order) && Distinct(order)
    requires v in stacked
    ensures v !in flat
  {
    DistinctOnce(order, v);
  }

  lemma PrefixTrans<T>(a: seq<T>, b: seq<T>, c: seq<T>)
    requires a <= b && b <= c
    ensures a <= c
  {
    assert a == b[..|a|];
    assert b == c[..|b|];
    assert c[..|b|][..|a|] == c[..|a|];
  }

  /** A sequence that extends `a + [x]` holds `x` right after `a`. */
  lemma PrefixPlus<T>(a: seq<T>, x: T, s: seq<T>)
    requires a + [x] <= s
    ensures |a| < |s| && s[|a|] == x && s[..|a|] == a && a <= s
  {
    assert (a + [x])[..|a|] == a;
    assert s[..|a| + 1][..|a|] == s[..|a|];
  }

  /** Discovery numbers: the k-th discovered node has number k, and a node not
      yet discovered has -1. */
  ghost predicate Numbered(n: nat, ids: seq<int>, order: seq<int>)
  {
    && |ids| == n
    && InRange(n, order)
    && (forall k :: 0 <= k < |order| ==> ids[order[k]] == k)
    && (forall v :: 0 <= v < n && ids[v] != -1 ==> 0 <= ids[v] < |order| && order[ids[v]] == v)
  }

  /** Different positions of the discovery order carry different numbers, so no
      node is discovered twice. */
  lemma NumberedDistinct(n: nat, ids: seq<int>, order: seq<int>)
    requires Numbered(n, ids, order)
    ensures Distinct(order)
  {
    forall a, b | 0 <= a < b < |order| ensures order[a] != order[b] {
      assert ids[order[a]] == a && ids[order[b]] == b;
    }
  }

  /** The stack holds discovered nodes in increasing order of discovery, and
      `onStack` flags exactly them. */
  ghost predicate Stacked(n: nat, ids: seq<int>, onStack: seq<bool>, stack: seq<int>)
  {
    && |ids| == n
    && (forall i :: 0 <= i < |stack| ==> 0 <= stack[i] < n && ids[stack[i]] >= 0)
    && (forall i, j :: 0 <= i < j < |stack| ==> ids[stack[i]] < ids[stack[j]])
    && Flagged(n, onStack, stack)
  }

  /** An unnumbered user is not on the stack. */
  lemma OffStack(n: nat, ids: seq<int>, onStack: seq<bool>, stack: seq<int>, v: int)
    requires Stacked(n, ids, onStack, stack) && 0 <= v < n && ids[v] == -1
    ensures v !in stack
  {
    assert forall i :: 0 <= i < |stack| ==> ids[stack[i]] >= 0;
  }

  /** The on-stack flags mark exactly the users on the stack. */
  ghost predicate Flagged(n: nat, onStack: seq<bool>, stack: seq<int>)
  {
    |onStack| == n && forall v :: 0 <= v < n ==> (onStack[v] <==> v in stack)
  }

  /** Popping the top of a stack without repetitions and clearing its flag keeps the flags exact. */
  lemma Unflag(n: nat, onStack: seq<bool>, stack: seq<int>, k: int)
    requires Distinct(stack) && 0 <= k < |stack| && 0 <= stack[k] < n
    requires Flagged(n, onStack, stack[..k + 1])
    ensures Flagged(n, onStack[stack[k] := false], stack[..k])
  {
    assert stack[..k + 1] == stack[..k] + [stack[k]];
    assert stack[k] !in stack[..k] by {
      forall i | 0 <= i < k ensures stack[i] != stack[k] {
      }
    }
  }

  /** A discovered node's low link lies between 0 and its own number, and on the
      stack it is at least the number of the bottom of the stack. */
  ghost predicate LowLinked(n: nat, ids: seq<int>, low: seq<int>, stack: seq<int>)
  {
    && |ids| == n && |low| == n
    && (forall v :: 0 <= v < n && ids[v] >= 0 ==> 0 <= low[v] <= ids[v])
    && (forall i :: 0 <= i < |stack| && 0 <= stack[0] < n && 0 <= stack[i] < n ==> ids[stack[0]] <= low[stack[i]])
  }

  /** Every discovered node is in exactly one popped group or on the stack. */
  ghost predicate Parted(stack: seq<int>, order: seq<int>, groups: seq<seq<int>>)
  {
    multiset(Flatten(groups)) + multiset(stack) == multiset(order)
  }

  ghost predicate Rooted(n: nat, ids: seq<int>, low: seq<int>, groups: seq<seq<int>>)
  {
    forall k :: 0 <= k < |groups| ==> RootedGroup(ids, low, n, groups[k])
  }

  /** The pair-count matrix is n by n, and the per-user buffers have one slot
      per user and alias neither each other nor the matrix. */
  ghost predicate Buffers(adjList: array<int>, n: nat, ids: array<int>, low: array<int>,
                          onStack: array<bool>, stack: array<int>)
  {
    && adjList.Length == Product(n, n)
    && ids.Length == n && low.Length == n && onStack.Length == n && stack.Length == n
    && ids != low && ids != stack && low != stack
    && ids != adjList && low != adjList && stack != adjList
  }

  /** The invariant of Tarjan's search, over the contents of its buffers. */
  ghost predicate TarjanState(n: nat, ids: seq<int>, low: seq<int>, onStack: seq<bool>, stack: seq<int>,
                              order: seq<int>, groups: seq<seq<int>>)
  {
    && Numbered(n, ids, order)
    && Stacked(n, ids, onStack, stack)
    && LowLinked(n, ids, low, stack)
    && Parted(stack, order, groups)
    && Rooted(n, ids, low, groups)
  }

  /** fmin on the ints it is given: the smaller of the two. */
  function Min(a: int, b: int): (m: int)
    ensures m <= a && m <= b
    ensures m == a || m == b
  {
    if a < b then a else b
  }

  /** A node numbered -1 has not been discovered. */
  lemma Undiscovered(n: nat, ids: seq<int>, order: seq<int>, node: int)
    requires Numbered(n, ids, order) && 0 <= node < n && ids[node] == -1
    ensures node !in order && |order| < n
  {
    forall k | 0 <= k < |order| ensures order[k] != node {
      assert ids[order[k]] == k;
    }
    NumberedDistinct(n, ids, order);
    RoomFor(n, order, node);
  }

  lemma NumberedDiscover(n: nat, ids: seq<int>, order: seq<int>, node: int)
    requires Numbered(n, ids, order) && 0 <= node < n && node !in order
    ensures Numbered(n, ids[node := |order|], order + [node])
  {
  }

  lemma StackedDiscover(n: nat, ids: seq<int>, onStack: seq<bool>, stack: seq<int>, order: seq<int>, node: int)
    requires Numbered(n, ids, order) && Stacked(n, ids, onStack, stack) && 0 <= node < n && ids[node] == -1
    ensures Stacked(n, ids[node := |order|], onStack[node := true], stack + [node])
  {
    var ids', stack' := ids[node := |order|], stack + [node];
    forall i | 0 <= i < |stack| ensures stack[i] != node && ids'[stack[i]] == ids[stack[i]] < |order| {
    }
    forall i, j | 0 <= i < j < |stack'| ensures ids'[stack'[i]] < ids'[stack'[j]] {
      if j < |stack| {
        assert stack'[i] == stack[i] && stack'[j] == stack[j];
      }
    }
  }

  lemma LowLinkedDiscover(n: nat, ids: seq<int>, low: seq<int>, stack: seq<int>, order: seq<int>, node: int)
    requires Numbered(n, ids, order) && LowLinked(n, ids, low, stack)
    requires forall i :: 0 <= i < |stack| ==> 0 <= stack[i] < n && ids[stack[i]] >= 0
    requires 0 <= node < n && ids[node] == -1
    ensures LowLinked(n, ids[node := |order|], low[node := |order|], stack + [node])
  {
    var ids', low', stack' := ids[node := |order|], low[node := |order|], stack + [node];
    forall i | 0 <= i < |stack| ensures stack[i] != node && ids'[stack[i]] == ids[stack[i]] < |order| {
    }
    forall i | 0 <= i < |stack'| && 0 <= stack'[0] < n && 0 <= stack'[i] < n
      ensures ids'[stack'[0]] <= low'[stack'[i]]
    {
      if i < |stack| {
        assert stack'[i] == stack[i] && stack'[0] == stack[0];
      }
    }
  }

  lemma PartedDiscover(stack: seq<int>, order: seq<int>, groups: seq<seq<int>>, node: int)
    requires Parted(stack, order, groups) && node !in order
    ensures Parted(stack + [node], order + [node], groups)
    ensures node !in Flatten(groups) && |stack| <= |order|
  {
    assert |multiset(order)| == |Flatten(groups)| + |stack|;
    assert multiset(Flatten(groups))[node] <= multiset(order)[node] == 0;
  }

  /** An undiscovered node leaves room for one more number and one more stack slot. */
  lemma DiscoverRoom(n: nat, ids: seq<int>, low: seq<int>, onStack: seq<bool>, stack: seq<int>,
                     order: seq<int>, groups: seq<seq<int>>, node: int)
    requires TarjanState(n, ids, low, onStack, stack, order, groups)
    requires 0 <= node < n && ids[node] == -1
    ensures |order| < n && |stack| < n
  {
    Undiscovered(n, ids, order, node);
    PartedDiscover(stack, order, groups, node);
  }

  /** DiscoverRoom and DiscoverStep on the sealed invariant. */
  lemma HeldDiscover(depth: nat, n: nat, ids: seq<int>, low: seq<int>, onStack: seq<bool>, stack: seq<int>,
                     order: seq<int>, groups: seq<seq<int>>, node: int)
    requires Held(depth, n, ids, low, onStack, stack, order, groups)
    requires |ids| == |low| == |onStack| == n && 0 <= node < n && ids[node] == -1
    ensures |order| < n && |stack| < n
    ensures Held(depth, n, ids[node := |order|], low[node := |order|], onStack[node := true], stack + [node],
                 order + [node], groups)
  {
    HeldIff(depth, n, ids, low, onStack, stack, order, groups);
    DiscoverRoom(n, ids, low, onStack, stack, order, groups, node);
    DiscoverStep(n, ids, low, onStack, stack, order, groups, node, ids[node := |order|], low[node := |order|],
                 onStack[node := true], stack + [node], order + [node]);
    HeldIff(depth, n, ids[node := |order|], low[node := |order|], onStack[node := true], stack + [node],
            order + [node], groups);
  }

  /** Numbering a fresh node and pushing it keeps the invariant. */
  lemma DiscoverStep(n: nat, ids: seq<int>, low: seq<int>, onStack: seq<bool>, stack: seq<int>,
                     order: seq<int>, groups: seq<seq<int>>, node: int,
                     ids': seq<int>, low': seq<int>, onStack': seq<bool>, stack': seq<int>, order': seq<int>)
    requires TarjanState(n, ids, low, onStack, stack, order, groups)
    requires 0 <= node < n && ids[node] == -1
    requires ids' == ids[node := |order|] && low' == low[node := |order|] && onStack' == onStack[node := true]
    requires stack' == stack + [node] && order' == order + [node]
    ensures TarjanState(n, ids', low', onStack', stack', order', groups)
  {
    Undiscovered(n, ids, order, node);
    NumberedDiscover(n, ids, order, node);
    StackedDiscover(n, ids, onStack, stack, order, node);
    LowLinkedDiscover(n, ids, low, stack, order, node);
    PartedDiscover(stack, order, groups, node);
    RootsFrame(ids, low, ids', low', n, groups, node);
  }

  /** Lowering the link of a node on the stack to that of another node on the stack keeps the invariant. */
  lemma LowerStep(n: nat, ids: seq<int>, low: seq<int>, onStack: seq<bool>, stack: seq<int>,
                  order: seq<int>, groups: seq<seq<int>>, node: int, next: int)
    requires TarjanState(n, ids, low, onStack, stack, order, groups)
    requires node in stack && 0 <= next < n && onStack[next]
    ensures TarjanState(n, ids, low[node := Min(low[node], low[next])], onStack, stack, order, groups)
  {
    var low' := low[node := Min(low[node], low[next])];
    var i :| 0 <= i < |stack| && stack[i] == node;
    var j :| 0 <= j < |stack| && stack[j] == next;
    assert ids[stack[0]] <= low[stack[i]] && ids[stack[0]] <= low[stack[j]];
    assert LowLinked(n, ids, low', stack);
    NumberedDistinct(n, ids, order);
    StackedNotGrouped(Flatten(groups), stack, order, node);
    RootsFrame(ids, low, ids, low', n, groups, node);
  }

  /** Numbers increase along the stack, so no node is on it twice. */
  lemma StackDistinct(n: nat, ids: seq<int>, onStack: seq<bool>, stack: seq<int>)
    requires Stacked(n, ids, onStack, stack)
    ensures Distinct(stack) && InRange(n, stack)
  {
    forall a, b | 0 <= a < b < |stack| ensures stack[a] != stack[b] {
      assert ids[stack[a]] < ids[stack[b]];
    }
  }

  /** The group popped down to `stack[pos]`, in pop order, is rooted when that node's low link is its number. */
  lemma PoppedRooted(n: nat, ids: seq<int>, low: seq<int>, onStack: seq<bool>, stack: seq<int>, pos: int)
    requires Stacked(n, ids, onStack, stack) && |low| == n
    requires 0 <= pos < |stack| && low[stack[pos]] == ids[stack[pos]]
    ensures RootedGroup(ids, low, n, Reverse(stack[pos..]))
  {
    var c := Reverse(stack[pos..]);
    assert c[|c| - 1] == stack[pos];
    forall a, b | 0 <= a < b < |c| ensures ids[c[a]] > ids[c[b]] {
      assert c[a] == stack[|stack| - 1 - a] && c[b] == stack[|stack| - 1 - b];
    }
    forall k | 0 <= k < |c| ensures 0 <= c[k] < n {
      assert c[k] == stack[|stack| - 1 - k];
    }
  }

  lemma PartedPop(stack: seq<int>, order: seq<int>, groups: seq<seq<int>>, pos: int)
    requires Parted(stack, order, groups) && 0 <= pos <= |stack|
    ensures Parted(stack[..pos], order, groups + [Reverse(stack[pos..])])
  {
    FlattenAppend(groups, Reverse(stack[pos..]));
    MultisetReverse(stack[pos..]);
    assert stack == stack[..pos] + stack[pos..];
  }

  /** Popping the stack down to `stack[pos]` as a new group keeps the invariant,
      when that node's low link is its own number. */
  lemma PopStep(n: nat, ids: seq<int>, low: seq<int>, onStack: seq<bool>, onStack': seq<bool>, stack: seq<int>,
                order: seq<int>, groups: seq<seq<int>>, pos: int, stack': seq<int>, groups': seq<seq<int>>)
    requires TarjanState(n, ids, low, onStack, stack, order, groups)
    requires 0 <= pos < |stack| && low[stack[pos]] == ids[stack[pos]]
    requires Flagged(n, onStack', stack[..pos])
    requires stack' == stack[..pos] && groups' == groups + [Reverse(stack[pos..])]
    ensures TarjanState(n, ids, low, onStack', stack', order, groups')
  {
    assert Stacked(n, ids, onStack', stack') by {
      forall i, j | 0 <= i < j < |stack'| ensures ids[stack'[i]] < ids[stack'[j]] {
        assert stack'[i] == stack[i] && stack'[j] == stack[j];
      }
    }
    assert LowLinked(n, ids, low, stack') by {
      forall i | 0 <= i < |stack'| && 0 <= stack'[0] < n && 0 <= stack'[i] < n
        ensures ids[stack'[0]] <= low[stack'[i]]
      {
        assert stack'[i] == stack[i] && stack'[0] == stack[0];
      }
    }
    PartedPop(stack, order, groups, pos);
    PoppedRooted(n, ids, low, onStack, stack, pos);
  }

  /** Before the search nothing is numbered, stacked or grouped. */
  lemma InitialState(n: nat, ids: seq<int>, low: seq<int>, onStack: seq<bool>)
    requires |ids| == n && |low| == n && |onStack| == n
    requires forall v :: 0 <= v < n ==> ids[v] == -1 && low[v] == -1 && !onStack[v]
    ensures TarjanState(n, ids, low, onStack, [], [], [])
  {
  }

  /** A node has a number exactly when it has been discovered. */
  lemma DiscoveredIff(n: nat, ids: seq<int>, order: seq<int>, v: int)
    requires Numbered(n, ids, order) && 0 <= v < n
    ensures ids[v] != -1 <==> v in order
  {
    if v in order {
      var k :| 0 <= k < |order| && order[k] == v;
      assert ids[order[k]] == k;
    }
  }

  /** The popped groups hold every user exactly once and nothing else. */
  ghost predicate Partition(n: nat, groups: seq<seq<int>>)
  {
    && InRange(n, Flatten(groups))
    && forall v :: 0 <= v < n ==> multiset(Flatten(groups))[v] == 1
  }

  /** Once every user is discovered and the stack is empty, the groups
      partition the users and the numbers are a permutation of [0, n). */
  lemma {:induction false} FinalState(n: nat, ids: seq<int>, low: seq<int>, onStack: seq<bool>,
                                      order: seq<int>, groups: seq<seq<int>>)
    requires TarjanState(n, ids, low, onStack, [], order, groups)
    requires forall v :: 0 <= v < n ==> ids[v] != -1
    ensures Partition(n, groups)
    ensures forall v :: 0 <= v < n ==> 0 <= low[v] <= ids[v] < n
    ensures forall u, v :: 0 <= u < n && 0 <= v < n && u != v ==> ids[u] != ids[v]
  {
    NumberedDistinct(n, ids, order);
    DistinctBound(n, order);
    assert multiset(Flatten(groups)) == multiset(order);
    forall v | 0 <= v < n ensures multiset(Flatten(groups))[v] == 1 && 0 <= ids[v] < n {
      DiscoveredIff(n, ids, order, v);
      DistinctOnce(order, v);
    }
    forall k | 0 <= k < |Flatten(groups)| ensures 0 <= Flatten(groups)[k] < n {
      var x := Flatten(groups)[k];
      assert x in multiset(order);
    }
  }

  /** TarjanState behind `depth` unfoldings. The context's invariant holds it at a
      depth the verifier cannot evaluate, so that the state is opened only where a
      step of the search needs it (HeldIff). */
  ghost predicate Held(depth: nat, n: nat, ids: seq<int>, low: seq<int>, onStack: seq<bool>, stack: seq<int>,
                       order: seq<int>, groups: seq<seq<int>>)
    decreases depth
  {
    if depth == 0 then TarjanState(n, ids, low, onStack, stack, order, groups)
    else Held(depth - 1, n, ids, low, onStack, stack, order, groups)
  }

  lemma {:induction false} HeldIff(depth: nat, n: nat, ids: seq<int>, low: seq<int>, onStack: seq<bool>,
                                   stack: seq<int>, order: seq<int>, groups: seq<seq<int>>)
    ensures Held(depth, n, ids, low, onStack, stack, order, groups) == TarjanState(n, ids, low, onStack, stack, order, groups)
  {
    if depth > 0 {
      HeldIff(depth - 1, n, ids, low, onStack, stack, order, groups);
    }
  }

  /** tarjan_context_t. The ghost `order` lists the nodes in discovery order and
      `groups` the components popped so far. */
  class TarjanContext {
    const ids: array<int>
    const low: array<int>
    const onStack: array<bool>
    const stack: array<int>
    var stackPtr: nat
    var idCounter: int
    const result: CycleResult
    const g: Graph
    ghost var order: seq<int>
    ghost var groups: seq<seq<int>>

    constructor (ids: array<int>, low: array<int>, onStack: array<bool>, stack: array<int>,
                 result: CycleResult, g: Graph)
      ensures this.ids == ids && this.low == low && this.onStack == onStack && this.stack == stack
      ensures this.result == result && this.g == g
      ensures stackPtr == 0 && idCounter == 0 && order == [] && groups == []
    {
      this.ids := ids;
      this.low := low;
      this.onStack := onStack;
      this.stack := stack;
      this.result := result;
      this.g := g;
      stackPtr := 0;
      idCounter := 0;
      order := [];
      groups := [];
    }

    ghost function Adj(): seq<int>
      reads g.adjList
    {
      g.adjList[..]
    }

    ghost function Stack(): seq<int>
      reads this, stack
      requires stackPtr <= stack.Length
    {
      stack[..stackPtr]
    }

    /** The buffers have one slot per user and do not alias each other or the matrix. */
    ghost predicate Shape()
      reads g.adjList
    {
      && Buffers(g.adjList, g.numUsers, ids, low, onStack, stack)
      && (forall k :: 0 <= k < g.adjList.Length ==> g.adjList[k] >= 0)
    }

    /** A depth the verifier cannot evaluate: the number of users is not a literal. */
    function Depth(): nat
      reads this
    {
      g.numUsers + 2
    }

    ghost predicate Valid()
      reads this, ids, low, onStack, stack, result, result.cycles, g.adjList
    {
      && Shape()
      && stackPtr <= stack.Length
      && idCounter == |order|
      && Held(Depth(), g.numUsers, ids[..], low[..], onStack[..], stack[..stackPtr], order, groups)
      && result.Valid()
      && result.Contents() == Recorded(Adj(), g.numUsers, groups)
    }
  }

  /** The search state of a valid context. */
  lemma Open(ctx: TarjanContext)
    requires ctx.Valid()
    ensures TarjanState(ctx.g.numUsers, ctx.ids[..], ctx.low[..], ctx.onStack[..], ctx.Stack(), ctx.order, ctx.groups)
  {
    HeldIff(ctx.Depth(), ctx.g.numUsers, ctx.ids[..], ctx.low[..], ctx.onStack[..], ctx.Stack(), ctx.order, ctx.groups);
  }

  /** Sealing a context's search state for its invariant. */
  lemma Close(ctx: TarjanContext)
    requires ctx.stackPtr <= ctx.stack.Length
    requires TarjanState(ctx.g.numUsers, ctx.ids[..], ctx.low[..], ctx.onStack[..], ctx.Stack(), ctx.order, ctx.groups)
    ensures Held(ctx.Depth(), ctx.g.numUsers, ctx.ids[..], ctx.low[..], ctx.onStack[..], ctx.Stack(), ctx.order, ctx.groups)
  {
    HeldIff(ctx.Depth(), ctx.g.numUsers, ctx.ids[..], ctx.low[..], ctx.onStack[..], ctx.Stack(), ctx.order, ctx.groups);
  }
}
