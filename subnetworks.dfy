/** The post-processing of main.c: cycles are filed into subnetworks by their
    first node, and cycles are ordered by a lexicographic-then-length comparator. */
module Subnetworks {
  import opened GraphStore

  /** subnetwork_t: the root every item starts with, the items in the order they
      were filed, how many there are and how many the buffer can hold. */
  datatype Subnetwork = Subnetwork(root: int, items: seq<FraudCycle>, count: nat, capacity: nat)

  /** Every cycle has a first node. */
  ghost predicate AllNonEmpty(s: seq<FraudCycle>)
  {
    forall k :: 0 <= k < |s| ==> s[k].cycle != []
  }

  /** The node a cycle is filed under. */
  function RootOf(c: FraudCycle): int
    requires c.cycle != []
  {
    c.cycle[0]
  }

  /** The cycles of `s` that start with `r`, in the order of `s`. */
  ghost function Filed(s: seq<FraudCycle>, r: int): seq<FraudCycle>
    requires AllNonEmpty(s)
  {
    if s == [] then []
    else Filed(s[..|s| - 1], r) + (if RootOf(s[|s| - 1]) == r then [s[|s| - 1]] else [])
  }

  /** The position of the first cycle of `s` that starts with `r`, or |s| if there is none. */
  ghost function FirstAt(s: seq<FraudCycle>, r: int): nat
    requires AllNonEmpty(s)
  {
    if s == [] then 0 else if RootOf(s[0]) == r then 0 else 1 + FirstAt(s[1..], r)
  }

  /** The roots of a table of groups, in table order. */
  function Roots(gs: seq<Subnetwork>): (r: seq<int>)
    ensures |r| == |gs| && forall i :: 0 <= i < |gs| ==> r[i] == gs[i].root
  {
    if gs == [] then [] else Roots(gs[..|gs| - 1]) + [gs[|gs| - 1].root]
  }

  /** The sum of the group counts. */
  function TotalCount(gs: seq<Subnetwork>): int
  {
    if gs == [] then 0 else TotalCount(gs[..|gs| - 1]) + gs[|gs| - 1].count
  }

  /** A group holds, in insertion order, exactly the filed cycles that start with
      its root: at least one, and no more than its buffer holds. */
  ghost predicate GroupOf(s: seq<FraudCycle>, g: Subnetwork)
    requires AllNonEmpty(s)
  {
    g.items == Filed(s, g.root) && g.count == |g.items| && 1 <= g.count <= g.capacity
  }

  /** The table after the cycles `s` were filed: one group per distinct first node,
      in the order those nodes were first seen. */
  ghost predicate Table(s: seq<FraudCycle>, gs: seq<Subnetwork>)
  {
    && AllNonEmpty(s)
    && DistinctRoots(gs)
    && Covered(s, gs)
    && Groups(s, gs)
    && SeenInOrder(s, gs)
  }

  /** No two groups share a root. */
  ghost predicate DistinctRoots(gs: seq<Subnetwork>)
  {
    forall i, j :: 0 <= i < j < |gs| ==> gs[i].root != gs[j].root
  }

  /** Every cycle's first node has a group. */
  ghost predicate Covered(s: seq<FraudCycle>, gs: seq<Subnetwork>)
    requires AllNonEmpty(s)
  {
    forall k :: 0 <= k < |s| ==> RootOf(s[k]) in Roots(gs)
  }

  /** Every group holds what was filed under its root. */
  ghost predicate Groups(s: seq<FraudCycle>, gs: seq<Subnetwork>)
    requires AllNonEmpty(s)
  {
    forall i :: 0 <= i < |gs| ==> GroupOf(s, gs[i])
  }

  /** The groups are in the order their roots were first seen. */
  ghost predicate SeenInOrder(s: seq<FraudCycle>, gs: seq<Subnetwork>)
    requires AllNonEmpty(s)
  {
    forall i, j :: 0 <= i < j < |gs| ==> FirstAt(s, gs[i].root) < FirstAt(s, gs[j].root)
  }

  /** FirstAt finds the first cycle starting with `r`, and says |s| exactly when there is none. */
  lemma {:induction false} FirstAtSpec(s: seq<FraudCycle>, r: int)
    requires AllNonEmpty(s)
    ensures FirstAt(s, r) <= |s|
    ensures FirstAt(s, r) < |s| ==> RootOf(s[FirstAt(s, r)]) == r
    ensures forall j :: 0 <= j < FirstAt(s, r) && j < |s| ==> RootOf(s[j]) != r
  {
    if s != [] && RootOf(s[0]) != r {
      FirstAtSpec(s[1..], r);
      forall j | 0 <= j < FirstAt(s, r) && j < |s| ensures RootOf(s[j]) != r {
        if j > 0 {
          assert s[j] == s[1..][j - 1];
        }
      }
    }
  }

  /** Filing one more cycle leaves the first position of every earlier root alone. */
  lemma {:induction false} FirstAtAppend(s: seq<FraudCycle>, c: FraudCycle, r: int)
    requires AllNonEmpty(s) && c.cycle != []
    ensures AllNonEmpty(s + [c])
    ensures FirstAt(s + [c], r) ==
              if FirstAt(s, r) < |s| then FirstAt(s, r) else if RootOf(c) == r then |s| else |s| + 1
  {
    FirstAtSpec(s, r);
    if s != [] {
      assert (s + [c])[1..] == s[1..] + [c];
      FirstAtAppend(s[1..], c, r);
    } else {
      assert [] + [c] == [c];
    }
  }

  /** Each filed cycle starts with the root it was filed under and is a cycle of `s`;
      every cycle of `s` starting with `r` is filed under `r`. */
  lemma {:induction false} FiledSpec(s: seq<FraudCycle>, r: int)
    requires AllNonEmpty(s)
    ensures forall x :: x in Filed(s, r) ==> x in s && x.cycle != [] && RootOf(x) == r
    ensures forall k :: 0 <= k < |s| && RootOf(s[k]) == r ==> s[k] in Filed(s, r)
  {
    if s != [] {
      var init := s[..|s| - 1];
      FiledSpec(init, r);
      forall k | 0 <= k < |s| - 1 ensures s[k] == init[k] {
      }
    }
  }

  /** A root no cycle of `s` starts with has nothing filed under it. */
  lemma {:induction false} FiledNone(s: seq<FraudCycle>, r: int)
    requires AllNonEmpty(s) && forall k :: 0 <= k < |s| ==> RootOf(s[k]) != r
    ensures Filed(s, r) == []
  {
    if s != [] {
      FiledNone(s[..|s| - 1], r);
    }
  }

  lemma FiledAppend(s: seq<FraudCycle>, c: FraudCycle, r: int)
    requires AllNonEmpty(s) && c.cycle != []
    ensures AllNonEmpty(s + [c])
    ensures Filed(s + [c], r) == Filed(s, r) + (if RootOf(c) == r then [c] else [])
  {
    assert (s + [c])[..|s|] == s;
  }

  lemma RootsAppend(gs: seq<Subnetwork>, g: Subnetwork)
    ensures Roots(gs + [g]) == Roots(gs) + [g.root]
  {
    assert (gs + [g])[..|gs|] == gs;
  }

  /** The root of every group is the first node of some filed cycle. */
  lemma GroupSeen(s: seq<FraudCycle>, gs: seq<Subnetwork>, j: int)
    requires Table(s, gs) && 0 <= j < |gs|
    ensures FirstAt(s, gs[j].root) < |s|
  {
    assert GroupOf(s, gs[j]);
    FiledSpec(s, gs[j].root);
    FirstAtSpec(s, gs[j].root);
    var x := gs[j].items[0];
    assert x in Filed(s, gs[j].root);
    var k :| 0 <= k < |s| && s[k] == x;
  }

  /** Filing one more cycle keeps the first position of every group's root. */
  lemma FirstAtKept(s: seq<FraudCycle>, gs: seq<Subnetwork>, c: FraudCycle, j: int)
    requires Table(s, gs) && c.cycle != [] && 0 <= j < |gs|
    ensures AllNonEmpty(s + [c]) && FirstAt(s + [c], gs[j].root) == FirstAt(s, gs[j].root) < |s|
  {
    GroupSeen(s, gs, j);
    FirstAtAppend(s, c, gs[j].root);
  }

  /** Filing a cycle whose root has a group grows that group and no other. */
  lemma AddToGroup(s: seq<FraudCycle>, gs: seq<Subnetwork>, c: FraudCycle, i: int)
    requires Table(s, gs) && c.cycle != [] && 0 <= i < |gs| && gs[i].root == RootOf(c)
    ensures Table(s + [c], gs[i := Grown(gs[i], c)])
  {
    var s' := s + [c];
    var gs' := gs[i := Grown(gs[i], c)];
    assert Roots(gs') == Roots(gs);
    GrownGroups(s, gs, gs', c, i);
    GrownFirsts(s, gs, c, i);
    forall k | 0 <= k < |s'| ensures RootOf(s'[k]) in Roots(gs') {
      if k < |s| {
        assert s'[k] == s[k];
      }
    }
  }

  lemma GrownGroups(s: seq<FraudCycle>, gs: seq<Subnetwork>, gs': seq<Subnetwork>, c: FraudCycle, i: int)
    requires Table(s, gs) && c.cycle != [] && 0 <= i < |gs| && gs[i].root == RootOf(c)
    requires gs' == gs[i := Grown(gs[i], c)]
    ensures AllNonEmpty(s + [c])
    ensures forall j :: 0 <= j < |gs'| ==> GroupOf(s + [c], gs'[j])
  {
    FiledAppend(s, c, 0);
    forall j | 0 <= j < |gs'| ensures GroupOf(s + [c], gs'[j]) {
      FiledAppend(s, c, gs[j].root);
    }
  }

  lemma GrownFirsts(s: seq<FraudCycle>, gs: seq<Subnetwork>, c: FraudCycle, i: int)
    requires Table(s, gs) && c.cycle != [] && 0 <= i < |gs|
    ensures AllNonEmpty(s + [c])
    ensures forall j :: 0 <= j < |gs| ==> FirstAt(s + [c], gs[j].root) == FirstAt(s, gs[j].root)
  {
    FiledAppend(s, c, 0);
    forall j | 0 <= j < |gs| ensures FirstAt(s + [c], gs[j].root) == FirstAt(s, gs[j].root) {
      FirstAtKept(s, gs, c, j);
    }
  }

  /** Filing a cycle whose root has no group opens a group for it at the end. */
  lemma AddNewGroup(s: seq<FraudCycle>, gs: seq<Subnetwork>, c: FraudCycle)
    requires Table(s, gs) && c.cycle != [] && RootOf(c) !in Roots(gs)
    ensures Table(s + [c], gs + [Subnetwork(RootOf(c), [c], 1, 8)])
  {
    var s' := s + [c];
    var g := Subnetwork(RootOf(c), [c], 1, 8);
    var gs' := gs + [g];
    FiledAppend(s, c, 0);
    RootsAppend(gs, g);
    assert DistinctRoots(gs') by {
      forall i, j | 0 <= i < j < |gs'| ensures gs'[i].root != gs'[j].root {
        assert gs'[i] == gs[i] && Roots(gs)[i] == gs[i].root;
      }
    }
    assert Covered(s', gs') by {
      forall k | 0 <= k < |s'| ensures RootOf(s'[k]) in Roots(gs') {
        if k < |s| {
          assert s'[k] == s[k];
        } else {
          assert Roots(gs')[|gs|] == RootOf(c);
        }
      }
    }
    NewGroupFiled(s, gs, c);
    assert Groups(s', gs') by {
      forall i | 0 <= i < |gs'| ensures GroupOf(s', gs'[i]) {
        if i < |gs| {
          assert gs'[i] == gs[i];
        }
      }
    }
    NewGroupLast(s, gs, c);
    assert SeenInOrder(s', gs') by {
      forall i, j | 0 <= i < j < |gs'| ensures FirstAt(s', gs'[i].root) < FirstAt(s', gs'[j].root) {
        assert gs'[i] == gs[i];
        if j < |gs| {
          assert gs'[j] == gs[j];
        }
      }
    }
  }

  lemma NewGroupFiled(s: seq<FraudCycle>, gs: seq<Subnetwork>, c: FraudCycle)
    requires Table(s, gs) && c.cycle != [] && RootOf(c) !in Roots(gs)
    ensures AllNonEmpty(s + [c])
    ensures forall j :: 0 <= j < |gs| ==> GroupOf(s + [c], gs[j])
    ensures GroupOf(s + [c], Subnetwork(RootOf(c), [c], 1, 8))
  {
    forall k | 0 <= k < |s| ensures RootOf(s[k]) != RootOf(c) {
    }
    FiledNone(s, RootOf(c));
    FiledAppend(s, c, RootOf(c));
    forall j | 0 <= j < |gs| ensures GroupOf(s + [c], gs[j]) {
      FiledAppend(s, c, gs[j].root);
    }
  }

  lemma NewGroupLast(s: seq<FraudCycle>, gs: seq<Subnetwork>, c: FraudCycle)
    requires Table(s, gs) && c.cycle != [] && RootOf(c) !in Roots(gs)
    ensures AllNonEmpty(s + [c])
    ensures forall j :: 0 <= j < |gs| ==> FirstAt(s + [c], gs[j].root) == FirstAt(s, gs[j].root) < |s|
    ensures FirstAt(s + [c], RootOf(c)) == |s|
  {
    forall k | 0 <= k < |s| ensures RootOf(s[k]) != RootOf(c) {
    }
    FirstAtSpec(s, RootOf(c));
    FirstAtAppend(s, c, RootOf(c));
    forall j | 0 <= j < |gs| ensures FirstAt(s + [c], gs[j].root) == FirstAt(s, gs[j].root) < |s| {
      FirstAtKept(s, gs, c, j);
    }
  }

  /** The file-scope `subnets` table of main.c with its `subnet_count`; `added`
      lists the cycles filed so far. */
  class SubnetTable {
    var subnets: seq<Subnetwork>
    var subnetCount: nat
    ghost var added: seq<FraudCycle>

    ghost predicate Valid()
      reads this
    {
      subnetCount == |subnets| && Table(added, subnets)
    }

    /** The table starts out empty. */
    constructor ()
      ensures Valid() && subnets == [] && added == []
    {
      subnets := [];
      subnetCount := 0;
      added := [];
    }

    /** subnetwork_add: file `c` under its first node, into the existing group of
        that root (doubling the group's buffer when it is full), or else into a
        new group at the end of the table with room for eight. */
    method SubnetworkAdd(c: FraudCycle)
      requires Valid() && c.cycle != []
      modifies this
      ensures Valid()
      ensures added == old(added) + [c]
      ensures RootOf(c) in Roots(old(subnets)) ==>
                && |subnets| == |old(subnets)|
                && forall i :: 0 <= i < |subnets| ==>
                     subnets[i] == if old(subnets[i].root) == RootOf(c) then Grown(old(subnets[i]), c) else old(subnets[i])
      ensures RootOf(c) !in Roots(old(subnets)) ==>
                subnets == old(subnets) + [Subnetwork(RootOf(c), [c], 1, 8)]
    {
      var root := c.cycle[0];
      var i := FindGroup(root);
      ghost var s0, a0 := subnets, added;
      if i < subnetCount {
        var s := subnets[i];
        var capacity := s.capacity;
        if s.count >= s.capacity {
          capacity := s.capacity * 2;
        }
        var g := Subnetwork(root, s.items + [c], s.count + 1, capacity);
        assert g == Grown(s, c);
        AddToGroup(a0, s0, c, i);
        GrownOnlyAt(s0, i, c);
        subnets := subnets[i := g];
        added := added + [c];
      } else {
        AddNewGroup(a0, s0, c);
        subnetCount := subnetCount + 1;
        subnets := subnets + [Subnetwork(root, [c], 1, 8)];
        added := added + [c];
      }
    }

    /** The search loop of subnetwork_add: the position of the group of `root`,
        or subnetCount when there is none. */
    method FindGroup(root: int) returns (i: nat)
      requires subnetCount == |subnets|
      ensures i <= subnetCount
      ensures i < subnetCount ==> subnets[i].root == root
      ensures i == subnetCount <==> root !in Roots(subnets)
    {
      i := 0;
      while i < subnetCount
        invariant i <= subnetCount
        invariant forall j :: 0 <= j < i ==> subnets[j].root != root
      {
        if subnets[i].root == root {
          return;
        }
        i := i + 1;
      }
    }
  }

  /** A group after `c` is filed into it: the buffer doubles first when full. */
  function Grown(g: Subnetwork, c: FraudCycle): (h: Subnetwork)
    ensures h.root == g.root && h.items == g.items + [c] && h.count == g.count + 1
    ensures g.capacity <= h.capacity <= 2 * g.capacity
    ensures 1 <= g.capacity && g.count <= g.capacity ==> h.count <= h.capacity
  {
    Subnetwork(g.root, g.items + [c], g.count + 1, if g.count >= g.capacity then 2 * g.capacity else g.capacity)
  }

  /** With distinct roots, the group of `c`'s root is the one at `i` and no other. */
  lemma GrownOnlyAt(gs: seq<Subnetwork>, i: int, c: FraudCycle)
    requires forall a, b :: 0 <= a < b < |gs| ==> gs[a].root != gs[b].root
    requires c.cycle != [] && 0 <= i < |gs| && gs[i].root == RootOf(c)
    ensures RootOf(c) in Roots(gs)
    ensures forall j :: 0 <= j < |gs| ==>
              gs[i := Grown(gs[i], c)][j] == if gs[j].root == RootOf(c) then Grown(gs[j], c) else gs[j]
  {
    assert Roots(gs)[i] == RootOf(c);
  }

  /** The loop of main.c that files every Tarjan cycle, in store order. */
  method GroupCycles(tj: CycleResult) returns (table: SubnetTable)
    requires tj.Valid()
    requires forall k :: 0 <= k < tj.count ==> tj.cycles[k].cycle != []
    ensures fresh(table) && table.Valid() && table.added == tj.Contents()
  {
    table := new SubnetTable();
    for i := 0 to tj.count
      invariant table.Valid() && table.added == tj.cycles[..i]
    {
      table.SubnetworkAdd(tj.cycles[i]);
      assert tj.cycles[..i + 1] == tj.cycles[..i] + [tj.cycles[i]];
    }
    assert tj.cycles[..tj.count] == tj.Contents();
  }

  /** The number of entries of `rs` equal to `r`. */
  function Occurrences(rs: seq<int>, r: int): nat
  {
    if rs == [] then 0 else Occurrences(rs[..|rs| - 1], r) + (if rs[|rs| - 1] == r then 1 else 0)
  }

  /** A node listed once among distinct roots occurs there exactly once. */
  lemma {:induction false} OccursOnce(rs: seq<int>, r: int)
    requires forall i, j :: 0 <= i < j < |rs| ==> rs[i] != rs[j]
    ensures Occurrences(rs, r) == if r in rs then 1 else 0
  {
    if rs != [] {
      var init := rs[..|rs| - 1];
      OccursOnce(init, r);
      if rs[|rs| - 1] == r {
        assert r !in init by {
          forall k | 0 <= k < |init| ensures init[k] != r {
            assert init[k] == rs[k];
          }
        }
      }
      assert r in rs <==> r in init || rs[|rs| - 1] == r by {
        assert rs == init + [rs[|rs| - 1]];
      }
    }
  }

  /** The sizes of the filed sequences of the roots `rs`. */
  ghost function FiledSizes(s: seq<FraudCycle>, rs: seq<int>): int
    requires AllNonEmpty(s)
  {
    if rs == [] then 0 else FiledSizes(s, rs[..|rs| - 1]) + |Filed(s, rs[|rs| - 1])|
  }

  lemma {:induction false} FiledSizesAppend(s: seq<FraudCycle>, c: FraudCycle, rs: seq<int>)
    requires AllNonEmpty(s) && c.cycle != []
    ensures AllNonEmpty(s + [c])
    ensures FiledSizes(s + [c], rs) == FiledSizes(s, rs) + Occurrences(rs, RootOf(c))
  {
    FiledAppend(s, c, 0);
    if rs != [] {
      FiledSizesAppend(s, c, rs[..|rs| - 1]);
      FiledAppend(s, c, rs[|rs| - 1]);
    }
  }

  /** When distinct roots cover every cycle, the filed sequences together are as long as `s`. */
  lemma {:induction false} FiledSizesCover(s: seq<FraudCycle>, rs: seq<int>)
    requires AllNonEmpty(s)
    requires forall i, j :: 0 <= i < j < |rs| ==> rs[i] != rs[j]
    requires forall k :: 0 <= k < |s| ==> RootOf(s[k]) in rs
    ensures FiledSizes(s, rs) == |s|
  {
    if s == [] {
      FiledSizesEmpty(rs);
    } else {
      var init, c := s[..|s| - 1], s[|s| - 1];
      assert s == init + [c];
      FiledSizesCover(init, rs);
      FiledSizesAppend(init, c, rs);
      OccursOnce(rs, RootOf(c));
    }
  }

  lemma {:induction false} FiledSizesEmpty(rs: seq<int>)
    ensures FiledSizes([], rs) == 0
  {
    if rs != [] {
      FiledSizesEmpty(rs[..|rs| - 1]);
    }
  }

  lemma {:induction false} TotalIsFiledSizes(s: seq<FraudCycle>, gs: seq<Subnetwork>)
    requires AllNonEmpty(s) && forall i :: 0 <= i < |gs| ==> GroupOf(s, gs[i])
    ensures TotalCount(gs) == FiledSizes(s, Roots(gs))
  {
    if gs != [] {
      var init := gs[..|gs| - 1];
      TotalIsFiledSizes(s, init);
      RootsAppend(init, gs[|gs| - 1]);
      assert gs == init + [gs[|gs| - 1]];
      assert Roots(gs)[..|gs| - 1] == Roots(init);
    }
  }

  /** After filing the cycles `s`, the group counts add up to |s|. */
  lemma CountsSumToFiled(s: seq<FraudCycle>, gs: seq<Subnetwork>)
    requires Table(s, gs)
    ensures TotalCount(gs) == |s|
  {
    TotalIsFiledSizes(s, gs);
    FiledSizesCover(s, Roots(gs));
  }

  /** Every filed cycle is in the group of its first node and in no other group. */
  lemma InExactlyOneGroup(s: seq<FraudCycle>, gs: seq<Subnetwork>, k: int)
    requires Table(s, gs) && 0 <= k < |s|
    ensures exists i :: 0 <= i < |gs| && gs[i].root == RootOf(s[k]) && s[k] in gs[i].items
    ensures forall i :: 0 <= i < |gs| && s[k] in gs[i].items ==> gs[i].root == RootOf(s[k])
  {
    assert RootOf(s[k]) in Roots(gs);
    var i :| 0 <= i < |gs| && Roots(gs)[i] == RootOf(s[k]);
    FiledSpec(s, gs[i].root);
    forall j | 0 <= j < |gs| && s[k] in gs[j].items ensures gs[j].root == RootOf(s[k]) {
      FiledSpec(s, gs[j].root);
    }
  }

  /** A 32-bit `int`. */
  predicate IsInt32(x: int)
  {
    -0x8000_0000 <= x < 0x8000_0000
  }

  /** A fraud_cycle_t as C sees it: its length and its ids are 32-bit ints. */
  ghost predicate Int32Cycle(c: FraudCycle)
  {
    |c.cycle| < 0x8000_0000 && forall k :: 0 <= k < |c.cycle| ==> IsInt32(c.cycle[k])
  }

  /** Two's-complement wrap-around of a difference of two 32-bit ints. */
  function Wrap32(x: int): (r: int)
    ensures IsInt32(r)
    ensures IsInt32(x) ==> r == x
    ensures -0x1_0000_0000 < x < 0x1_0000_0000 ==> (r == 0 <==> x == 0)
  {
    (x + 0x8000_0000) % 0x1_0000_0000 - 0x8000_0000
  }

  /** The loop of compare_cycles from index `i` on: the first difference of
      elements decides, and otherwise the difference of the lengths. */
  function CompareFrom(a: seq<int>, b: seq<int>, i: nat): (r: int)
    requires i <= |a| && i <= |b| && |a| < 0x8000_0000 && |b| < 0x8000_0000
    requires forall k :: 0 <= k < |a| ==> IsInt32(a[k])
    requires forall k :: 0 <= k < |b| ==> IsInt32(b[k])
    decreases |a| - i
    ensures IsInt32(r)
    ensures r == 0 <==> a[i..] == b[i..]
  {
    if i == |a| || i == |b| then
      |a| - |b|
    else if a[i] != b[i] then
      assert a[i..][0] != b[i..][0];
      assert IsInt32(a[i]) && IsInt32(b[i]);
      Wrap32(a[i] - b[i])
    else
      assert a[i..] == [a[i]] + a[i + 1..] && b[i..] == [b[i]] + b[i + 1..];
      CompareFrom(a, b, i + 1)
  }

  /** compare_cycles: negative, zero or positive as `ca` sorts before, with or after `cb`. */
  function CompareCycles(ca: FraudCycle, cb: FraudCycle): (r: int)
    requires Int32Cycle(ca) && Int32Cycle(cb)
    ensures IsInt32(r)
    ensures r == 0 <==> ca.cycle == cb.cycle
  {
    assert ca.cycle[0..] == ca.cycle && cb.cycle[0..] == cb.cycle;
    CompareFrom(ca.cycle, cb.cycle, 0)
  }

  /** Lexicographic order with a proper prefix first: the order compare_cycles means. */
  predicate LexLess(a: seq<int>, b: seq<int>)
  {
    if a == [] then b != []
    else if b == [] then false
    else a[0] < b[0] || (a[0] == b[0] && LexLess(a[1..], b[1..]))
  }

  /** Ids of nodes: small enough that the subtraction of two cannot overflow. */
  ghost predicate NodeIds(c: FraudCycle)
  {
    |c.cycle| < 0x8000_0000 && forall k :: 0 <= k < |c.cycle| ==> 0 <= c.cycle[k] < 0x8000_0000
  }

  lemma {:induction false} CompareFromMeansLex(a: seq<int>, b: seq<int>, i: nat)
    requires i <= |a| && i <= |b| && |a| < 0x8000_0000 && |b| < 0x8000_0000
    requires forall k :: 0 <= k < |a| ==> 0 <= a[k] < 0x8000_0000
    requires forall k :: 0 <= k < |b| ==> 0 <= b[k] < 0x8000_0000
    decreases |a| - i
    ensures CompareFrom(a, b, i) < 0 <==> LexLess(a[i..], b[i..])
  {
    if i < |a| && i < |b| {
      assert a[i..][1..] == a[i + 1..] && b[i..][1..] == b[i + 1..];
      if a[i] == b[i] {
        CompareFromMeansLex(a, b, i + 1);
      }
    }
  }

  /** On node ids, compare_cycles is negative exactly when `ca` is lexicographically
      before `cb` (a proper prefix first). */
  lemma CompareIsLex(ca: FraudCycle, cb: FraudCycle)
    requires NodeIds(ca) && NodeIds(cb)
    ensures Int32Cycle(ca) && Int32Cycle(cb)
    ensures CompareCycles(ca, cb) < 0 <==> LexLess(ca.cycle, cb.cycle)
  {
    CompareFromMeansLex(ca.cycle, cb.cycle, 0);
    assert ca.cycle[0..] == ca.cycle && cb.cycle[0..] == cb.cycle;
  }

  function Sign(x: int): int
  {
    if x < 0 then -1 else if x == 0 then 0 else 1
  }

  lemma {:induction false} CompareFromAntisymmetric(a: seq<int>, b: seq<int>, i: nat)
    requires i <= |a| && i <= |b| && |a| < 0x8000_0000 && |b| < 0x8000_0000
    requires forall k :: 0 <= k < |a| ==> 0 <= a[k] < 0x8000_0000
    requires forall k :: 0 <= k < |b| ==> 0 <= b[k] < 0x8000_0000
    decreases |a| - i
    ensures Sign(CompareFrom(a, b, i)) == -Sign(CompareFrom(b, a, i))
  {
    if i < |a| && i < |b| && a[i] == b[i] {
      CompareFromAntisymmetric(a, b, i + 1);
    }
  }

  /** On node ids, swapping the arguments of compare_cycles flips the sign of its result. */
  lemma CompareAntisymmetric(ca: FraudCycle, cb: FraudCycle)
    requires NodeIds(ca) && NodeIds(cb)
    ensures Int32Cycle(ca) && Int32Cycle(cb)
    ensures Sign(CompareCycles(ca, cb)) == -Sign(CompareCycles(cb, ca))
  {
    CompareFromAntisymmetric(ca.cycle, cb.cycle, 0);
  }
}
