/** A run of the message ID store in which the counter runs through all 64-bit numbers and a
    virtual ID is issued a second time. */
module MsgWrapped {
  import Strings
  import opened Decimals
  import Probing
  import opened MsgBuckets
  import opened MsgRuns

  /** n messages have been stored, each to expire at time 1. */
  ghost predicate Filled(m: Messages, n: nat) {
    && Sound(m) && m.counter == n
    && (forall s {:trigger m.expires[s]} :: s in m.expires ==> m.expires[s] == 1)
    && (forall k: nat {:trigger Decimal(k)} :: k > n ==> Decimal(k) !in m.forward)
  }

  ghost predicate FillingRun(states: seq<Messages>, ops: seq<MsgOp>, n: nat) {
    && IsRun(states, ops) && |ops| == n && Filled(states[n], n)
    && forall i {:trigger ops[i]} :: 0 <= i < n ==> ops[i].now == 0
  }

  lemma NextNumberFree(m: Messages)
    requires Counted(m) && 0 <= m.counter < MAX_INT64
    ensures Allocates(m, m.counter + 1)
  {
    var v := m.counter + 1;
    assert Probing.StartAfter(m.counter) == v && Probing.Probe(v, 0) == v;
    assert !Probing.Taken(m.forward, v);
  }

  lemma StoreOneMore(m: Messages, n: nat) returns (next: Messages)
    requires Filled(m, n) && n < MAX_INT64
    ensures Filled(next, n + 1) && Stores(m, Decimal(n + 1), 0, 1, Strings.Ok(n + 1), next)
  {
    var key := Decimal(n + 1);
    next := Messages(m.forward[key := n + 1], m.reverse[key := key], m.expires[key := 1], n + 1);
    NextNumberFree(m);
    StoreKeepsBijection(m, key, 0, 1, Strings.Ok(n + 1), next);
    StoreKeepsCounted(m, key, 0, 1, Strings.Ok(n + 1), next);
    forall k: nat | k > n + 1 ensures Decimal(k) !in next.forward {
      if Decimal(k) == key {
        DecimalInjective(k, n + 1);
      }
    }
  }

  lemma OneMoreStep(states: seq<Messages>, ops: seq<MsgOp>, op: MsgOp, next: Messages)
    requires IsRun(states, ops) && IsGoOp(op) && Step(states[|ops|], op, next)
    requires forall i {:trigger ops[i]} :: 0 <= i < |ops| ==> ops[i].now <= op.now
    ensures IsRun(states + [next], ops + [op])
  {
    var s, o := states + [next], ops + [op];
    forall i {:trigger o[i]} | 0 <= i < |o| ensures IsGoOp(o[i]) && Step(s[i], o[i], s[i + 1]) {
      if i < |ops| {
        assert o[i] == ops[i] && s[i] == states[i] && s[i + 1] == states[i + 1];
      }
    }
  }

  lemma {:induction false} Fill(n: nat) returns (states: seq<Messages>, ops: seq<MsgOp>)
    requires n <= MAX_INT64
    ensures FillingRun(states, ops, n)
  {
    if n == 0 {
      states, ops := [Messages(map[], map[], map[], 0)], [];
    } else {
      states, ops := Fill(n - 1);
      var next := StoreOneMore(states[n - 1], n - 1);
      var op := StoreMsg(Decimal(n), 0, 1);
      OneMoreStep(states, ops, op, next);
      states, ops := states + [next], ops + [op];
    }
  }

  lemma AllExpired(m: Messages, n: nat)
    requires Filled(m, n)
    ensures Cleaned(m, 2) == Messages(map[], map[], map[], n)
  {
    forall s | s in m.expires ensures ExpiredAt(m, s, 2) {
      assert m.expires[s] == 1;
    }
    forall r | r in m.forward ensures Decimal(m.forward[r]) in m.expires {
      assert m.forward[r] in m.forward.Values;
    }
  }

  /** After the largest number the count starts again at one. */
  lemma FirstAgain(realID: string)
    requires realID != ""
    ensures Stores(Messages(map[], map[], map[], MAX_INT64), realID, 2, 1, Strings.Ok(1),
                   Messages(map[realID := 1], map[Decimal(1) := realID], map[Decimal(1) := 3], 1))
  {
    assert Probing.StartAfter(MAX_INT64) == 1 && Probing.Probe(1, 0) == 1;
    assert !Probing.Taken(map[], 1);
  }

  lemma CleanAndStore(states: seq<Messages>, ops: seq<MsgOp>, realID: string)
    returns (longer: seq<Messages>, more: seq<MsgOp>)
    requires FillingRun(states, ops, MAX_INT64) && realID != ""
    ensures IsRun(longer, more) && |more| == |ops| + 2 && longer[..|states|] == states
    ensures Issues(longer, more, |ops| + 1, 1) && more[|ops| + 1].realID == realID
  {
    var empty := Messages(map[], map[], map[], MAX_INT64);
    var last := Messages(map[realID := 1], map[Decimal(1) := realID], map[Decimal(1) := 3], 1);
    AllExpired(states[|ops|], MAX_INT64);
    FirstAgain(realID);
    OneMoreStep(states, ops, Clean(2), empty);
    OneMoreStep(states + [empty], ops + [Clean(2)], StoreMsg(realID, 2, 1), last);
    longer, more := states + [empty] + [last], ops + [Clean(2)] + [StoreMsg(realID, 2, 1)];
  }

  /** A run that issues the virtual ID 1 to a first message and, when the counter has run through
      and the expired messages have been removed, to any other one. */
  lemma ReissueExists(realID: string) returns (states: seq<Messages>, ops: seq<MsgOp>, i: nat)
    requires realID != ""
    ensures IsRun(states, ops) && i < |ops| && RunThrough(states, i)
    ensures Issues(states, ops, i, 1) && IssuedBefore(states, ops, i, 1) && ops[i].realID == realID
  {
    var n := MAX_INT64;
    var before, filling := Fill(n);
    states, ops := CleanAndStore(before, filling, realID);
    i := n + 1;
    assert states[n] == before[n];
    assert states[n].counter == MAX_INT64;
    ReissuedIff(states, ops, i, 1);
  }
}
