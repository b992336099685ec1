/** The probing allocators of idmap/map_service.go: the successor of a counter, then one
    64-bit increment after the other until a number is not in use. */
module Probing {
  import opened Decimals

  /** The counter's successor as the allocator takes it: 1 when it is not positive. */
  function StartAfter(counter: int): (v: int)
    ensures IsInt64(v) && v > 0
  {
    var next := Wrap64(counter + 1);
    if next <= 0 then 1 else next
  }

  /** The n-th vUIN probed from `start`, with the wrap-around of a 64-bit increment. */
  function Probe(start: int, n: nat): int {
    Wrap64(start + n)
  }

  /** v is in use. */
  ghost predicate Taken(forward: map<string, int>, v: int) {
    exists k :: k in forward && forward[k] == v
  }

  /** v is the first number probed from `start` that is not in use. */
  ghost predicate FirstFree(forward: map<string, int>, start: int, v: int) {
    exists n: nat :: v == Probe(start, n) && !Taken(forward, v) && forall j: nat :: j < n ==>
      Taken(forward, Probe(start, j))
  }

  lemma ProbesDiffer(start: int, i: nat, j: nat)
    requires i < j < TWO_64
    ensures Probe(start, i) != Probe(start, j)
  {
    var a, b := start + i - MIN_INT64, start + j - MIN_INT64;
    assert 0 < b - a < TWO_64;
  }

  ghost predicate Reached(forward: map<string, int>, keys: set<string>, v: int) {
    exists k :: k in keys && k in forward && forward[k] == v
  }

  /** Different probes reached from a set of keys are no more than the keys. */
  lemma {:induction false} ProbesNoMoreThanKeys(forward: map<string, int>, keys: set<string>, start: int, n: nat)
    requires n <= TWO_64
    requires forall j: nat {:trigger Probe(start, j)} :: j < n ==> Reached(forward, keys, Probe(start, j))
    ensures n <= |keys|
  {
    if n > 0 {
      var last := Probe(start, n - 1);
      assert Reached(forward, keys, last);
      var k :| k in keys && k in forward && forward[k] == last;
      forall j: nat | j < n - 1 ensures Reached(forward, keys - {k}, Probe(start, j)) {
        ProbesDiffer(start, j, n - 1);
        assert Reached(forward, keys, Probe(start, j));
      }
      ProbesNoMoreThanKeys(forward, keys - {k}, start, n - 1);
    }
  }

  /** The first n probes were all in use. */
  ghost predicate ProbedTaken(forward: map<string, int>, start: int, n: nat) {
    n <= |forward| && forall j: nat {:trigger Probe(start, j)} :: j < n ==> Taken(forward, Probe(start, j))
  }

  lemma OneMoreProbed(forward: map<string, int>, start: int, n: nat, v: int)
    requires ProbedTaken(forward, start, n) && v == Probe(start, n) && Taken(forward, v) && |forward| < TWO_64
    ensures ProbedTaken(forward, start, n + 1) && Wrap64(v + 1) == Probe(start, n + 1)
  {
    forall j: nat | j < n + 1 ensures Reached(forward, forward.Keys, Probe(start, j)) {
      assert Taken(forward, Probe(start, j));
    }
    ProbesNoMoreThanKeys(forward, forward.Keys, start, n + 1);
    NextProbe(start, n);
  }

  lemma FreeFound(forward: map<string, int>, start: int, n: nat, v: int)
    requires ProbedTaken(forward, start, n) && v == Probe(start, n) && !Taken(forward, v)
    ensures FirstFree(forward, start, v)
  {
  }

  lemma NextProbe(start: int, n: nat)
    ensures Probe(start, n + 1) == Wrap64(Probe(start, n) + 1)
  {
    ModOfNext(start + n - MIN_INT64);
  }

  lemma ModOfNext(a: int)
    ensures (a % TWO_64 + 1) % TWO_64 == (a + 1) % TWO_64
  {
    var q, r := a / TWO_64, a % TWO_64;
    assert a == q * TWO_64 + r;
    if r + 1 < TWO_64 {
      assert (a + 1) / TWO_64 == q;
    } else {
      assert a + 1 == (q + 1) * TWO_64;
    }
  }
}
