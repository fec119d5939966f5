/**
 * The memory budget of setup_ddict: sum the physical memory of every node,
 * give the store a tenth of the total, and request two managers on each
 * node. The node memories are an input (the program reads them from the
 * cluster). int(0.1 * total_mem) is modelled as the integer tenth
 * total_mem / 10; the rounding of the double product is not modelled.
 */
module Capacity {

  /** Managers the store is asked to place on each node. */
  const MANAGERS_PER_NODE: nat := 2

  /** The arguments of the DDict(...) construction. */
  datatype DDictRequest = DDictRequest(managersPerNode: nat, numNodes: nat, totalBytes: nat)

  /** The sum of a sequence, accumulated from the front as the loop does. */
  function Sum(s: seq<nat>): nat
  {
    if s == [] then 0 else Sum(s[..|s| - 1]) + s[|s| - 1]
  }

  /** The loop over the nodes: total_mem ends up as the sum of all node memories. */
  method TotalMemory(mems: seq<nat>) returns (total: nat)
    ensures total == Sum(mems)
  {
    total := 0;
    var i := 0;
    while i < |mems|
      invariant 0 <= i <= |mems|
      invariant total == Sum(mems[..i])
    {
      assert mems[..i + 1][..i] == mems[..i];
      total := total + mems[i];
      i := i + 1;
    }
    assert mems[..i] == mems;
  }

  /** int(0.1 * total_mem) in integer arithmetic: the largest b with 10 * b <= total. */
  function DictMem(total: nat): (b: nat)
    ensures b <= total
    ensures 10 * b <= total < 10 * (b + 1)
  {
    total / 10
  }

  /** setup_ddict: two managers per node, every node, a tenth of the cluster's memory. */
  method SetupDDict(mems: seq<nat>) returns (req: DDictRequest)
    ensures req.managersPerNode == MANAGERS_PER_NODE && req.numNodes == |mems|
    ensures req.totalBytes == DictMem(Sum(mems))
    ensures 10 * req.totalBytes <= Sum(mems)
  {
    var total := TotalMemory(mems);
    req := DDictRequest(MANAGERS_PER_NODE, |mems|, DictMem(total));
  }

  lemma {:induction false} SumAppend(a: seq<nat>, b: seq<nat>)
    ensures Sum(a + b) == Sum(a) + Sum(b)
    decreases |b|
  {
    if b == [] {
      assert a + b == a;
    } else {
      var n := |b| - 1;
      assert (a + b)[..|a + b| - 1] == a + b[..n];
      SumAppend(a, b[..n]);
    }
  }

  /** Every node's memory counts toward the total. */
  lemma {:induction false} SumBoundsEach(s: seq<nat>, i: nat)
    requires i < |s|
    ensures s[i] <= Sum(s)
  {
    assert s == s[..i] + [s[i]] + s[i + 1..];
    SumAppend(s[..i] + [s[i]], s[i + 1..]);
    SumAppend(s[..i], [s[i]]);
  }

  /** The total does not depend on the order in which the nodes are enumerated. */
  lemma {:induction false} SumPermutation(a: seq<nat>, b: seq<nat>)
    requires multiset(a) == multiset(b)
    ensures Sum(a) == Sum(b)
    decreases |a|
  {
    if a != [] {
      var n := |a| - 1;
      var x := a[n];
      assert x in multiset(b);
      var j :| 0 <= j < |b| && b[j] == x;
      var rest := b[..j] + b[j + 1..];
      assert b == b[..j] + [x] + b[j + 1..];
      assert a == a[..n] + [x];
      assert multiset(a[..n]) == multiset(a) - multiset{x};
      assert multiset(b) == multiset(b[..j]) + multiset{x} + multiset(b[j + 1..]);
      assert multiset(rest) == multiset(b) - multiset{x};
      assert multiset(a[..n]) == multiset(rest);
      SumPermutation(a[..n], rest);
      SumAppend(b[..j] + [x], b[j + 1..]);
      SumAppend(b[..j], [x]);
      SumAppend(b[..j], b[j + 1..]);
    }
  }

  /** A cluster with one more node never gets a smaller store. */
  lemma BudgetGrowsWithNodes(mems: seq<nat>, extra: nat)
    ensures DictMem(Sum(mems)) <= DictMem(Sum(mems + [extra]))
  {
  }
}
