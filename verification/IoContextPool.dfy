/** Round-robin hand-out of event loops. */
module IoContextPool {
  import opened Arithmetic

  class IoContext {
    constructor () {}
  }

  predicate Distinct(contexts: seq<IoContext>) {
    forall i, j | 0 <= i < j < |contexts| :: contexts[i] != contexts[j]
  }

  /** The log of a round-robin: its j-th entry is context j mod n. */
  predicate RoundRobin(contexts: seq<IoContext>, log: seq<IoContext>) {
    contexts != [] && forall j | 0 <= j < |log| :: log[j] == contexts[j % |contexts|]
  }

  lemma WrapNext(k: nat, n: nat)
    requires n > 0
    ensures (k + 1) % n == if k % n + 1 == n then 0 else k % n + 1
    ensures (k + 1) / n == if k % n + 1 == n then k / n + 1 else k / n
  {
    var q, r := k / n, k % n;
    assert k == q * n + r;
    assert (q + 1) * n == q * n + n;
    if r + 1 == n {
      DivModUnique(q + 1, n, 0);
    } else {
      DivModUnique(q, n, r + 1);
    }
  }

  class Pool {
    const contexts: seq<IoContext>
    var next: nat
    /** Every context handed out so far. */
    ghost var log: seq<IoContext>

    ghost predicate Valid()
      reads this
    {
      Distinct(contexts) && RoundRobin(contexts, log) && next == |log| % |contexts|
    }

    /** A pool with at least one context; an empty pool ends the process. */
    constructor (poolSize: nat)
      requires poolSize > 0
      ensures Valid() && |contexts| == poolSize && log == []
    {
      var made: seq<IoContext> := [];
      for i := 0 to poolSize
        invariant |made| == i && Distinct(made)
        invariant forall j | 0 <= j < |made| :: fresh(made[j])
      {
        var c := new IoContext();
        made := made + [c];
      }
      contexts := made;
      next, log := 0, [];
    }

    /** The j-th call after construction returns context j mod n. */
    method GetIoContext() returns (c: IoContext)
      requires Valid()
      modifies this
      ensures Valid() && log == old(log) + [c]
      ensures c == contexts[|old(log)| % |contexts|]
    {
      c := contexts[next];
      WrapNext(|log|, |contexts|);
      next := next + 1;
      if next == |contexts| {
        next := 0;
      }
      log := log + [c];
    }
  }

  /** How often c occurs in a log. */
  ghost function Uses(log: seq<IoContext>, c: IoContext): nat {
    if log == [] then 0 else Uses(log[..|log| - 1], c) + if log[|log| - 1] == c then 1 else 0
  }

  /** How often context i of n is due in the first k turns. */
  function Share(k: nat, n: nat, i: nat): nat
    requires n > 0
  {
    k / n + if i < k % n then 1 else 0
  }

  lemma ShareStep(k: nat, n: nat, i: nat)
    requires i < n
    ensures Share(0, n, i) == 0
    ensures Share(k + 1, n, i) == Share(k, n, i) + if i == k % n then 1 else 0
  {
    WrapNext(k, n);
  }

  lemma LastEntry(contexts: seq<IoContext>, log: seq<IoContext>, i: nat)
    requires Distinct(contexts) && RoundRobin(contexts, log) && i < |contexts| && log != []
    ensures RoundRobin(contexts, log[..|log| - 1])
    ensures log[|log| - 1] == contexts[i] <==> i == (|log| - 1) % |contexts|
  {
    var k := (|log| - 1) % |contexts|;
    assert log[|log| - 1] == contexts[k];
    assert i != k ==> contexts[i] != contexts[k];
  }

  lemma {:induction false} UsesExactly(contexts: seq<IoContext>, log: seq<IoContext>, i: nat)
    requires Distinct(contexts) && RoundRobin(contexts, log) && i < |contexts|
    ensures Uses(log, contexts[i]) == |log| / |contexts| + if i < |log| % |contexts| then 1 else 0
    decreases |log|
  {
    hide Distinct, RoundRobin;
    if log == [] {
      ShareStep(0, |contexts|, i);
    } else {
      LastEntry(contexts, log, i);
      UsesExactly(contexts, log[..|log| - 1], i);
      ShareStep(|log| - 1, |contexts|, i);
    }
  }

  /** However often a pool was asked, no context was handed out more than once more than another. */
  lemma Fair(pool: Pool, i: nat, j: nat)
    requires pool.Valid() && i < |pool.contexts| && j < |pool.contexts|
    ensures Uses(pool.log, pool.contexts[i]) <= Uses(pool.log, pool.contexts[j]) + 1
  {
    UsesExactly(pool.contexts, pool.log, i);
    UsesExactly(pool.contexts, pool.log, j);
  }
}
