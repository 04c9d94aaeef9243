/** The graph store of the fraud-ring detector: a fixed set of users, an
    append-only transaction log kept in a buffer that doubles when full, a flat
    N×N matrix counting the transactions of every ordered pair of users, and
    the growable store into which the cycle finders record what they find. */
module GraphStore {

  /** One logged payment (the floating-point amount is not modelled). */
  datatype Transaction = Transaction(fromUser: int, toUser: int, timestamp: int)

  /** A user; the id is also its index in the user table. */
  datatype User = User(userId: int)

  /** A recorded cycle: a copy of the submitted node ids and its total. */
  datatype FraudCycle = FraudCycle(cycle: seq<int>, totalAmount: int)

  /** a × b written out as repeated addition, so that matrix sizes and cell
      positions stay linear for the verifier; ProductIsMul ties it to `*`. */
  function Product(a: nat, b: nat): nat
  {
    if a == 0 then 0 else Product(a - 1, b) + b
  }

  lemma {:induction false} ProductIsMul(a: nat, b: nat)
    ensures Product(a, b) == a * b
  {
    if a > 0 {
      ProductIsMul(a - 1, b);
    }
  }

  lemma {:induction false} ProductMono(a: nat, b: nat, n: nat)
    requires a <= b
    ensures Product(a, n) <= Product(b, n)
  {
    if a < b {
      ProductMono(a, b - 1, n);
    }
  }

  /** Position of cell (i, j) in a row-major n×n matrix: i * n + j. */
  function CellIndex(n: nat, i: int, j: int): (k: nat)
    requires 0 <= i < n && 0 <= j < n
    ensures k < Product(n, n)
  {
    CellBelowRowEnd(n, i, j, Product(i, n) + j);
    Product(i, n) + j
  }

  lemma CellBelowRowEnd(n: nat, i: nat, j: nat, k: int)
    requires i < n && j <= n && k == Product(i, n) + j
    ensures k <= Product(i + 1, n) <= Product(n, n)
    ensures j < n ==> k < Product(n, n)
  {
    ProductMono(i + 1, n, n);
  }

  /** A later row starts at or after the end of an earlier one. */
  lemma RowsOrdered(a: nat, b: nat, n: nat)
    requires a < b
    ensures Product(a, n) + n <= Product(b, n)
  {
    ProductMono(a + 1, b, n);
  }

  /** Two different cells never share a position. */
  lemma CellIndexInjective(n: nat, i: int, j: int, i': int, j': int)
    requires 0 <= i < n && 0 <= j < n && 0 <= i' < n && 0 <= j' < n
    requires CellIndex(n, i, j) == CellIndex(n, i', j')
    ensures i == i' && j == j'
  {
    if i < i' {
      RowsOrdered(i, i', n);
    } else if i' < i {
      RowsOrdered(i', i, n);
    }
  }

  /** Number of transactions in `log` that go from `i` to `j`. */
  function Count(log: seq<Transaction>, i: int, j: int): (c: nat)
    ensures c <= |log|
  {
    if log == [] then 0
    else (if log[0].fromUser == i && log[0].toUser == j then 1 else 0) + Count(log[1..], i, j)
  }

  /** Appending one transaction raises exactly the count of its own pair. */
  lemma {:induction false} CountAppend(log: seq<Transaction>, t: Transaction, i: int, j: int)
    ensures Count(log + [t], i, j) == Count(log, i, j) + (if t.fromUser == i && t.toUser == j then 1 else 0)
  {
    if log == [] {
      assert [] + [t] == [t];
    } else {
      assert (log + [t])[1..] == log[1..] + [t];
      CountAppend(log[1..], t, i, j);
    }
  }

  /** A pair has a positive count exactly when some logged transaction goes from `i` to `j`. */
  lemma {:induction false} CountPositiveIff(log: seq<Transaction>, i: int, j: int)
    ensures Count(log, i, j) > 0 <==> exists k :: 0 <= k < |log| && log[k].fromUser == i && log[k].toUser == j
  {
    if log != [] {
      CountPositiveIff(log[1..], i, j);
      if Count(log[1..], i, j) > 0 {
        var k :| 0 <= k < |log[1..]| && log[1..][k].fromUser == i && log[1..][k].toUser == j;
        assert log[k + 1] == log[1..][k];
      }
      if exists k :: 0 <= k < |log| && log[k].fromUser == i && log[k].toUser == j {
        var k :| 0 <= k < |log| && log[k].fromUser == i && log[k].toUser == j;
        if k > 0 {
          assert log[1..][k - 1] == log[k];
        }
      }
    }
  }

  /** Raising the cell of `t`'s pair keeps a matrix of counts in step with the log extended by `t`. */
  lemma CountsAfterAppend(n: nat, adj: seq<int>, log: seq<Transaction>, t: Transaction)
    requires |adj| == Product(n, n) && 0 <= t.fromUser < n && 0 <= t.toUser < n
    requires forall i, j :: 0 <= i < n && 0 <= j < n ==> adj[CellIndex(n, i, j)] == Count(log, i, j)
    ensures var cell := CellIndex(n, t.fromUser, t.toUser);
            forall i, j :: 0 <= i < n && 0 <= j < n ==>
              adj[cell := adj[cell] + 1][CellIndex(n, i, j)] == Count(log + [t], i, j)
  {
    var cell := CellIndex(n, t.fromUser, t.toUser);
    forall i, j | 0 <= i < n && 0 <= j < n
      ensures adj[cell := adj[cell] + 1][CellIndex(n, i, j)] == Count(log + [t], i, j)
    {
      CountAppend(log, t, i, j);
      if CellIndex(n, i, j) == cell {
        CellIndexInjective(n, i, j, t.fromUser, t.toUser);
      }
    }
  }

  /** Number of positive entries of `s`. */
  function Positives(s: seq<int>): (c: nat)
    ensures c <= |s|
  {
    if s == [] then 0 else Positives(s[..|s| - 1]) + (if s[|s| - 1] > 0 then 1 else 0)
  }

  lemma PositivesStep(s: seq<int>, k: nat)
    requires k < |s|
    ensures Positives(s[..k + 1]) == Positives(s[..k]) + (if s[k] > 0 then 1 else 0)
  {
    assert s[..k + 1][..k] == s[..k];
  }

  /** The double loop of graph_print_stats over an n×n matrix: rows, then columns. */
  method CountPositiveCells(adjList: array<int>, n: nat) returns (edges: nat)
    requires adjList.Length == Product(n, n)
    ensures edges == Positives(adjList[..])
  {
    edges := 0;
    var i := 0;
    ghost var rowStart := 0;
    while i < n
      invariant 0 <= i <= n
      invariant rowStart == Product(i, n) <= adjList.Length
      invariant edges == Positives(adjList[..rowStart])
    {
      var j := 0;
      while j < n
        invariant 0 <= j <= n
        invariant rowStart + j <= adjList.Length
        invariant edges == Positives(adjList[..rowStart + j])
      {
        var cell := CellIndex(n, i, j);
        assert cell == rowStart + j;
        PositivesStep(adjList[..], cell);
        if adjList[cell] > 0 {
          edges := edges + 1;
        }
        CellBelowRowEnd(n, i, j + 1, cell + 1);
        j := j + 1;
      }
      CellBelowRowEnd(n, i, n, rowStart + n);
      rowStart := rowStart + n;
      i := i + 1;
    }
    assert adjList[..rowStart] == adjList[..];
  }

  class Graph {
    const numUsers: nat
    const users: array<User>
    var transactions: array<Transaction>
    var numTransactions: nat
    var transactionCapacity: nat
    /** Flat row-major matrix: entry CellIndex(numUsers, i, j) counts transactions i -> j. */
    const adjList: array<int>

    /** The transactions logged so far, in the order they were added. */
    ghost function Log(): seq<Transaction>
      reads this, transactions
      requires numTransactions <= transactions.Length
    {
      transactions[..numTransactions]
    }

    /** The store's invariant: users are numbered by position, the log fits its
        buffer and only holds in-range ids, and every matrix cell equals the
        number of logged transactions of its pair. */
    ghost predicate Valid()
      reads this, users, transactions, adjList
    {
      && users.Length == numUsers
      && (forall i :: 0 <= i < numUsers ==> users[i].userId == i)
      && 1 <= transactionCapacity == transactions.Length
      && numTransactions <= transactionCapacity
      && (forall k :: 0 <= k < numTransactions ==>
            0 <= transactions[k].fromUser < numUsers && 0 <= transactions[k].toUser < numUsers)
      && adjList.Length == Product(numUsers, numUsers)
      && (forall k :: 0 <= k < adjList.Length ==> adjList[k] >= 0)
      && (forall i, j :: 0 <= i < numUsers && 0 <= j < numUsers ==>
            adjList[CellIndex(numUsers, i, j)] == Count(Log(), i, j))
    }

    /** graph_create: `numTransactions` is only a capacity hint. */
    constructor Create(numUsers: nat, numTransactions: int)
      ensures Valid()
      ensures this.numUsers == numUsers
      ensures this.numTransactions == 0 && Log() == []
      ensures transactionCapacity == if numTransactions > 0 then numTransactions else 1
      ensures forall i :: 0 <= i < numUsers ==> users[i].userId == i
      ensures forall k :: 0 <= k < adjList.Length ==> adjList[k] == 0
      ensures fresh(users) && fresh(transactions) && fresh(adjList)
    {
      this.numUsers := numUsers;
      this.numTransactions := 0;
      var capacity := if numTransactions > 0 then numTransactions else 1;
      transactionCapacity := capacity;
      var u := new User[numUsers];
      transactions := new Transaction[capacity];
      var a := new int[Product(numUsers, numUsers)];
      for i := 0 to numUsers
        invariant forall k :: 0 <= k < i ==> u[k].userId == k
      {
        u[i] := User(i);
      }
      forall k | 0 <= k < a.Length {
        a[k] := 0;
      }
      users := u;
      adjList := a;
    }

    /** graph_add_transaction, with the guard refusing every id outside [0, numUsers)
        (the source refuses only ids at or above numUsers; see GuardAsWritten).
        When the buffer is full it is doubled first; `growthSucceeds` is the
        outcome of that reallocation, and on failure nothing changes. */
    method AddTransaction(fromUser: int, toUser: int, timestamp: int, growthSucceeds: bool)
      requires Valid()
      modifies this, transactions, adjList
      ensures Valid()
      ensures transactions == old(transactions) || fresh(transactions)
      ensures
        var full := old(numTransactions) >= old(transactionCapacity);
        if !(0 <= fromUser < numUsers && 0 <= toUser < numUsers) || (full && !growthSucceeds) then
          && numTransactions == old(numTransactions)
          && Log() == old(Log())
          && transactionCapacity == old(transactionCapacity)
          && adjList[..] == old(adjList[..])
        else
          && numTransactions == old(numTransactions) + 1
          && Log() == old(Log()) + [Transaction(fromUser, toUser, timestamp)]
          && transactionCapacity == (if full then 2 * old(transactionCapacity) else old(transactionCapacity))
          && adjList[..] == old(adjList[..])[CellIndex(numUsers, fromUser, toUser) :=
                                             old(adjList[CellIndex(numUsers, fromUser, toUser)]) + 1]
    {
      if !(0 <= fromUser < numUsers && 0 <= toUser < numUsers) {
        return;
      }
      if numTransactions >= transactionCapacity {
        if !growthSucceeds {
          return;
        }
        GrowTransactions();
      }
      Record(Transaction(fromUser, toUser, timestamp));
    }

    /** The tail of graph_add_transaction once there is room: log `t` and raise
        the count of its pair. */
    method Record(t: Transaction)
      requires Valid() && numTransactions < transactionCapacity
      requires 0 <= t.fromUser < numUsers && 0 <= t.toUser < numUsers
      modifies this, transactions, adjList
      ensures Valid()
      ensures transactions == old(transactions) && transactionCapacity == old(transactionCapacity)
      ensures numTransactions == old(numTransactions) + 1 && Log() == old(Log()) + [t]
      ensures adjList[..] == old(adjList[..])[CellIndex(numUsers, t.fromUser, t.toUser) :=
                                             old(adjList[CellIndex(numUsers, t.fromUser, t.toUser)]) + 1]
    {
      ghost var log0 := Log();
      transactions[numTransactions] := t;
      numTransactions := numTransactions + 1;
      assert Log() == log0 + [t];

      var cell := CellIndex(numUsers, t.fromUser, t.toUser);
      ghost var adj0 := adjList[..];
      adjList[cell] := adjList[cell] + 1;
      CountsAfterAppend(numUsers, adj0, log0, t);
      assert adjList[..] == adj0[cell := adj0[cell] + 1];
    }

    /** The successful reallocation of graph_add_transaction: the log moves into
        a buffer of twice the capacity. */
    method GrowTransactions()
      requires Valid()
      modifies this
      ensures Valid()
      ensures fresh(transactions)
      ensures transactionCapacity == 2 * old(transactionCapacity)
      ensures numTransactions == old(numTransactions) && Log() == old(Log())
    {
      var newCapacity := transactionCapacity * 2;
      var resized := new Transaction[newCapacity];
      forall k | 0 <= k < transactions.Length {
        resized[k] := transactions[k];
      }
      assert resized[..numTransactions] == Log();
      transactions := resized;
      transactionCapacity := newCapacity;
    }

    /** The edge count of graph_print_stats: the number of cells with a positive count. */
    method EdgeCount() returns (edges: nat)
      requires Valid()
      ensures edges == Positives(adjList[..])
      ensures edges <= adjList.Length
    {
      edges := CountPositiveCells(adjList, numUsers);
    }

    /** graph_get_num_users. */
    function GetNumUsers(): (n: nat)
      reads this, users, transactions, adjList
      requires Valid()
      ensures n == users.Length && n * n == adjList.Length
    {
      ProductIsMul(numUsers, numUsers);
      numUsers
    }

    /** graph_get_users: the table where user i carries id i. */
    function GetUsers(): (u: array<User>)
      reads this, users, transactions, adjList
      requires Valid()
      ensures u == users && u.Length == numUsers
      ensures forall i :: 0 <= i < numUsers ==> u[i].userId == i
    {
      users
    }

    /** graph_get_adj_list: the matrix, whose cells agree with the log. */
    function GetAdjList(): (a: array<int>)
      reads this, users, transactions, adjList
      requires Valid()
      ensures a == adjList && a.Length == Product(numUsers, numUsers)
      ensures forall i, j :: 0 <= i < numUsers && 0 <= j < numUsers ==>
                a[CellIndex(numUsers, i, j)] == Count(Log(), i, j)
    {
      adjList
    }
  }

  /** The guard of graph_add_transaction as written: only ids at or above
      numUsers are refused. */
  predicate GuardAsWritten(numUsers: nat, fromUser: int, toUser: int)
  {
    !(fromUser >= numUsers || toUser >= numUsers)
  }

  /** With any user at all, the guard as written lets a sender of -1 through,
      whose row starts before the matrix: row offset -numUsers. */
  lemma GuardAdmitsNegative(numUsers: nat)
    requires numUsers > 0
    ensures exists f, t :: GuardAsWritten(numUsers, f, t) && f * numUsers + t < 0
  {
    assert GuardAsWritten(numUsers, -1, 0) && -1 * numUsers + 0 < 0;
  }

  /** A matrix cell is positive exactly when a logged transaction goes from `i` to `j`. */
  lemma EdgeIffLogged(g: Graph, i: int, j: int)
    requires g.Valid()
    requires 0 <= i < g.numUsers && 0 <= j < g.numUsers
    ensures g.adjList[CellIndex(g.numUsers, i, j)] > 0 <==>
            exists k :: 0 <= k < g.numTransactions && g.transactions[k].fromUser == i && g.transactions[k].toUser == j
  {
    CountPositiveIff(g.Log(), i, j);
    if exists k :: 0 <= k < g.numTransactions && g.transactions[k].fromUser == i && g.transactions[k].toUser == j {
      var k :| 0 <= k < g.numTransactions && g.transactions[k].fromUser == i && g.transactions[k].toUser == j;
      assert g.Log()[k] == g.transactions[k];
    }
  }

  /** The growable result store: cycles are copied in and appended, never deduplicated. */
  class CycleResult {
    var cycles: array<FraudCycle>
    var count: nat
    var capacity: nat

    ghost function Contents(): seq<FraudCycle>
      reads this, cycles
      requires count <= cycles.Length
    {
      cycles[..count]
    }

    ghost predicate Valid()
      reads this, cycles
    {
      1 <= capacity == cycles.Length && count <= capacity
    }

    /** cycle_result_create. */
    constructor Create()
      ensures Valid() && Contents() == [] && count == 0 && capacity == 1000
      ensures fresh(cycles)
    {
      cycles := new FraudCycle[1000];
      count := 0;
      capacity := 1000;
    }

    /** cycle_result_add: append a copy of the first `length` ids and the amount,
        doubling the buffer first when it is full. */
    method Add(cycle: array<int>, length: int, amount: int)
      requires Valid()
      requires 0 <= length <= cycle.Length
      modifies this, cycles
      ensures Valid()
      ensures cycles == old(cycles) || fresh(cycles)
      ensures count == old(count) + 1
      ensures Contents() == old(Contents()) + [FraudCycle(cycle[..length], amount)]
      ensures capacity == if old(count) >= old(capacity) then 2 * old(capacity) else old(capacity)
    {
      if count >= capacity {
        capacity := capacity * 2;
        var resized := new FraudCycle[capacity];
        forall k | 0 <= k < cycles.Length {
          resized[k] := cycles[k];
        }
        assert resized[..count] == old(Contents());
        cycles := resized;
      }
      cycles[count] := FraudCycle(cycle[..length], amount);
      count := count + 1;
      assert Contents() == old(Contents()) + [FraudCycle(cycle[..length], amount)];
    }
  }
}
