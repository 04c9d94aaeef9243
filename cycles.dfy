/** What the two cycle finders of algorithms.c share: paths, simple cycles and
    their totals over the flat adjacency matrix of a graph, and the loop that
    sums a closed walk. */
module Cycles {
  import opened GraphStore

  /** algo_result_t without its timing field. */
  datatype AlgoResult = AlgoResult(cyclesFound: int)

  /** The count of transactions i -> j, or 0 outside the matrix. */
  function AdjAt(adj: seq<int>, n: nat, i: int, j: int): int
  {
    if 0 <= i < n && 0 <= j < n && CellIndex(n, i, j) < |adj| then adj[CellIndex(n, i, j)] else 0
  }

  predicate HasEdge(adj: seq<int>, n: nat, i: int, j: int)
  {
    AdjAt(adj, n, i, j) > 0
  }

  ghost predicate InRange(n: nat, c: seq<int>)
  {
    forall k :: 0 <= k < |c| ==> 0 <= c[k] < n
  }

  ghost predicate Distinct(c: seq<int>)
  {
    forall a, b :: 0 <= a < b < |c| ==> c[a] != c[b]
  }

  /** Every consecutive pair of `c` is an edge. */
  ghost predicate IsPath(adj: seq<int>, n: nat, c: seq<int>)
  {
    forall k :: 0 < k < |c| ==> HasEdge(adj, n, c[k - 1], c[k])
  }

  /** A simple directed cycle c[0] -> c[1] -> ... -> c[|c|-1] -> c[0] of length at least 3. */
  ghost predicate SimpleCycle(adj: seq<int>, n: nat, c: seq<int>)
  {
    && 3 <= |c|
    && InRange(n, c)
    && Distinct(c)
    && IsPath(adj, n, c)
    && HasEdge(adj, n, c[|c| - 1], c[0])
  }

  /** Sum of adj over the first k steps c[i] -> c[i + 1] of the closed walk, where
      the step from the last node goes back to c[0]. */
  function PartialWeight(adj: seq<int>, n: nat, c: seq<int>, k: nat): int
    requires k <= |c|
  {
    if k == 0 then 0 else PartialWeight(adj, n, c, k - 1) + AdjAt(adj, n, c[k - 1], c[if k < |c| then k else 0])
  }

  lemma ModWrap(k: nat, m: nat)
    requires 0 < k <= m
    ensures k % m == if k < m then k else 0
  {
  }

  /** The total recorded with a cycle: adj summed over its consecutive pairs, closing back to c[0]. */
  function Weight(adj: seq<int>, n: nat, c: seq<int>): int
  {
    PartialWeight(adj, n, c, |c|)
  }

  /** The ids of the cycles in a store's contents. */
  ghost function CyclePaths(s: seq<FraudCycle>): set<seq<int>>
  {
    set fc | fc in s :: fc.cycle
  }

  /** No two entries of a store's contents carry the same cycle. */
  ghost predicate NoRepeat(s: seq<FraudCycle>)
  {
    forall a, b :: 0 <= a < b < |s| ==> s[a].cycle != s[b].cycle
  }

  /** Two repeat-free contents with no cycle in common stay repeat-free when joined. */
  lemma NoRepeatAppend(s: seq<FraudCycle>, t: seq<FraudCycle>)
    requires NoRepeat(s) && NoRepeat(t)
    requires forall x, y :: x in s && y in t ==> x.cycle != y.cycle
    ensures NoRepeat(s + t)
  {
    var u := s + t;
    forall a, b | 0 <= a < b < |u| ensures u[a].cycle != u[b].cycle {
      if b < |s| {
        assert u[a] == s[a] && u[b] == s[b];
      } else if a >= |s| {
        assert u[a] == t[a - |s|] && u[b] == t[b - |s|];
      } else {
        assert u[a] == s[a] && u[b] == t[b - |s|];
        assert s[a] in s && t[b - |s|] in t;
      }
    }
  }

  /** Without repeats, there are as many distinct cycles as entries. */
  lemma {:induction false} NoRepeatCount(s: seq<FraudCycle>)
    requires NoRepeat(s)
    ensures |CyclePaths(s)| == |s|
  {
    if s != [] {
      var init := s[..|s| - 1];
      var last := s[|s| - 1];
      assert s == init + [last];
      assert NoRepeat(init) by {
        forall a, b | 0 <= a < b < |init| ensures init[a].cycle != init[b].cycle {
          assert init[a] == s[a] && init[b] == s[b];
        }
      }
      NoRepeatCount(init);
      assert CyclePaths(s) == CyclePaths(init) + {last.cycle};
      assert last.cycle !in CyclePaths(init);
    }
  }

  /** A distinct sequence of ids below n has at most n elements. */
  lemma DistinctBound(n: nat, c: seq<int>)
    requires InRange(n, c) && Distinct(c)
    ensures |c| <= n
  {
    DistinctFits(c, Below(n));
  }

  /** A distinct sequence drawn from `s` is no longer than `s` is large. */
  lemma {:induction false} DistinctFits(c: seq<int>, s: set<int>)
    requires Distinct(c) && forall k :: 0 <= k < |c| ==> c[k] in s
    ensures |c| <= |s|
  {
    if c != [] {
      var x := c[|c| - 1];
      var init := c[..|c| - 1];
      assert forall k :: 0 <= k < |init| ==> init[k] in s - {x} by {
        forall k | 0 <= k < |init| ensures init[k] in s - {x} {
          assert init[k] == c[k] && c[k] != c[|c| - 1];
        }
      }
      DistinctFits(init, s - {x});
    }
  }

  /** The ids 0 .. n-1. */
  ghost function Below(n: nat): (r: set<int>)
    ensures |r| == n
    ensures forall v :: v in r <==> 0 <= v < n
  {
    if n == 0 then {} else Below(n - 1) + {n - 1}
  }

  /** Every edge has a count of at least one, so a closed walk weighs at least its length. */
  lemma {:induction false} WeightAtLeastLength(adj: seq<int>, n: nat, c: seq<int>)
    requires |c| >= 1 && IsPath(adj, n, c) && HasEdge(adj, n, c[|c| - 1], c[0])
    ensures Weight(adj, n, c) >= |c|
  {
    PartialWeightAtLeast(adj, n, c, |c|);
  }

  lemma {:induction false} PartialWeightAtLeast(adj: seq<int>, n: nat, c: seq<int>, k: nat)
    requires k <= |c| && IsPath(adj, n, c) && (|c| >= 1 ==> HasEdge(adj, n, c[|c| - 1], c[0]))
    ensures PartialWeight(adj, n, c, k) >= k
  {
    if k > 0 {
      PartialWeightAtLeast(adj, n, c, k - 1);
      if k < |c| {
        assert HasEdge(adj, n, c[k - 1], c[k]);
      }
    }
  }

  /** The total loop shared by both finders (algorithms.c:29-35 and 134-140):
      sum the matrix over nodes[i] -> nodes[(i + 1) % len]. */
  method ClosedWalkTotal(adjList: array<int>, numUsers: nat, nodes: array<int>, len: nat) returns (total: int)
    requires len <= nodes.Length
    requires adjList.Length == Product(numUsers, numUsers)
    requires forall k :: 0 <= k < len ==> 0 <= nodes[k] < numUsers
    ensures total == Weight(adjList[..], numUsers, nodes[..len])
  {
    total := 0;
    for i := 0 to len
      invariant total == PartialWeight(adjList[..], numUsers, nodes[..len], i)
    {
      var from := nodes[i];
      ModWrap(i + 1, len);
      var to := nodes[(i + 1) % len];
      total := total + adjList[CellIndex(numUsers, from, to)];
    }
  }
}
