/** Runs of the latest-message slots (idmap/map_service.go) with a clock that never goes back. */
module LatestRuns {
  import Strings
  import Decimals
  import opened MsgBuckets

  datatype SlotOp = StoreLatest(group: string, user: string, realID: string, now: int, ttl: int) | Clean(now: int)

  /** One operation; an Update that fails is rolled back and changes nothing. */
  ghost predicate Step(s: Slots, op: SlotOp, next: Slots) {
    || next == s
    || match op
       case StoreLatest(group, user, realID, now, ttl) => next == SlotStored(s, group, user, realID, now, ttl)
       case Clean(now) => next == SlotsCleaned(s, now)
  }

  ghost predicate IsRun(states: seq<Slots>, ops: seq<SlotOp>) {
    && |states| == |ops| + 1 && states[0] == Slots(map[], map[])
    && (forall i {:trigger ops[i]} :: 0 <= i < |ops| ==>
          Decimals.IsInt64(ops[i].now) && Step(states[i], ops[i], states[i + 1]))
    && (forall i, j :: 0 <= i <= j < |ops| ==> ops[i].now <= ops[j].now)
  }

  /** A store that is not refused. */
  predicate Writes(op: SlotOp) {
    op.StoreLatest? && op.group != "" && op.user != "" && op.realID != ""
  }

  /** Steps i + 1 to j - 1 store nothing for this slot. */
  ghost predicate SlotLeft(ops: seq<SlotOp>, i: nat, j: nat, key: string)
    requires j <= |ops|
  {
    forall n {:trigger ops[n]} :: i < n < j ==> Writes(ops[n]) ==> LatestKey(ops[n].group, ops[n].user) != key
  }

  /** Steps i + 1 to j - 1 store nothing for this pair. */
  ghost predicate PairLeft(ops: seq<SlotOp>, i: nat, j: nat, group: string, user: string)
    requires j <= |ops|
  {
    forall n {:trigger ops[n]} :: i < n < j ==> Writes(ops[n]) ==> (ops[n].group, ops[n].user) != (group, user)
  }

  /** The slot holds the message with expiry e, or that expired before `clock` and was cleaned up. */
  ghost predicate Holding(s: Slots, key: string, realID: string, e: int, clock: int) {
    if key in s.expires then key in s.latest && s.latest[key] == realID && s.expires[key] == e
    else 0 < e < clock
  }

  lemma StepKeepsHolding(s: Slots, op: SlotOp, next: Slots, key: string, realID: string, e: int, clock: int)
    requires Holding(s, key, realID, e, clock) && clock <= op.now && Step(s, op, next)
    requires Writes(op) ==> LatestKey(op.group, op.user) != key
    ensures Holding(next, key, realID, e, op.now)
  {
    if next != s && op.Clean? {
      assert key in next.expires <==> key in s.expires && !(0 < s.expires[key] < op.now);
    }
  }

  lemma {:induction false} HoldingThroughRun(states: seq<Slots>, ops: seq<SlotOp>, i: nat, j: nat)
    requires IsRun(states, ops) && i < j <= |ops| && Writes(ops[i])
    requires states[i + 1] == SlotStored(states[i], ops[i].group, ops[i].user, ops[i].realID, ops[i].now, ops[i].ttl)
    requires SlotLeft(ops, i, j, LatestKey(ops[i].group, ops[i].user))
    ensures Holding(states[j], LatestKey(ops[i].group, ops[i].user), ops[i].realID,
      Decimals.Wrap64(ops[i].now + ops[i].ttl), ops[j - 1].now)
    decreases j
  {
    var op := ops[i];
    if j > i + 1 {
      HoldingThroughRun(states, ops, i, j - 1);
      var last := ops[j - 1];
      assert ops[j - 2].now <= last.now;
      StepKeepsHolding(states[j - 1], last, states[j], LatestKey(op.group, op.user), op.realID,
        Decimals.Wrap64(op.now + op.ttl), ops[j - 2].now);
    }
  }

  /** A lookup finds the message stored last in a slot exactly until its expiry, whatever stores
      to other slots and cleanups come between; no expiry counts as expired. */
  lemma SlotFoundUntilExpiry(states: seq<Slots>, ops: seq<SlotOp>, i: nat, j: nat, now: int)
    requires IsRun(states, ops) && i < j <= |ops| && Writes(ops[i]) && ops[j - 1].now <= now
    requires states[i + 1] == SlotStored(states[i], ops[i].group, ops[i].user, ops[i].realID, ops[i].now, ops[i].ttl)
    requires SlotLeft(ops, i, j, LatestKey(ops[i].group, ops[i].user))
    ensures var e := Decimals.Wrap64(ops[i].now + ops[i].ttl);
            SlotFound(states[j], ops[i].group, ops[i].user, now) ==
            if e != 0 && now <= e then Strings.Some(ops[i].realID) else Strings.None
  {
    HoldingThroughRun(states, ops, i, j);
  }

  /** Step i stores a message for its pair, and no step behind it up to j stores for that pair. */
  ghost predicate LastForPair(states: seq<Slots>, ops: seq<SlotOp>, i: nat, j: nat) {
    && IsRun(states, ops) && i < j <= |ops| && Writes(ops[i])
    && states[i + 1] == SlotStored(states[i], ops[i].group, ops[i].user, ops[i].realID, ops[i].now, ops[i].ttl)
    && PairLeft(ops, i, j, ops[i].group, ops[i].user)
  }

  /** What the lookup of a pair is to answer after its message was stored by op. */
  function StillFound(op: SlotOp, now: int): Strings.Option<string>
    requires op.StoreLatest?
  {
    var e := Decimals.Wrap64(op.now + op.ttl);
    if e != 0 && now <= e then Strings.Some(op.realID) else Strings.None
  }

  /** If no other pair shares the slot, only stores for the same pair matter. */
  lemma LatestFoundUntilExpiry(states: seq<Slots>, ops: seq<SlotOp>, i: nat, j: nat, now: int)
    requires LastForPair(states, ops, i, j) && ops[j - 1].now <= now
    requires !SplitsElsewhere(ops[i].group, ops[i].user)
    ensures SlotFound(states[j], ops[i].group, ops[i].user, now) == StillFound(ops[i], now)
  {
    var group, user := ops[i].group, ops[i].user;
    forall n {:trigger ops[n]} | i < n < j && Writes(ops[n])
      ensures LatestKey(ops[n].group, ops[n].user) != LatestKey(group, user)
    {
      if LatestKey(ops[n].group, ops[n].user) == LatestKey(group, user) {
        OtherSplit(group, user, ops[n].group, ops[n].user);
      }
    }
    SlotFoundUntilExpiry(states, ops, i, j, now);
  }

  /** A lookup of the pair after step j - 1, step i being its last store. */
  ghost predicate LookedUp(states: seq<Slots>, ops: seq<SlotOp>, i: nat, j: nat, now: int, group: string,
      user: string) {
    LastForPair(states, ops, i, j) && ops[j - 1].now <= now && ops[i].group == group && ops[i].user == user
  }

  /** In all runs the pair's last message is found until its expiry. */
  ghost predicate KeepsItsLatest(group: string, user: string) {
    forall states: seq<Slots>, ops: seq<SlotOp>, i: nat, j: nat, now: int ::
      LookedUp(states, ops, i, j, now, group, user) ==>
        SlotFound(states[j], group, user, now) == StillFound(ops[i], now)
  }

  /** Two stores, the second for a pair that shares the slot: the second message is found. */
  lemma OtherPairFound(group: string, user: string, g: string, u: string) returns (states: seq<Slots>, ops: seq<SlotOp>)
    requires group != "" && user != "" && g != "" && u != ""
    requires (g, u) != (group, user) && LatestKey(g, u) == LatestKey(group, user)
    ensures LastForPair(states, ops, 0, 2) && ops[0] == StoreLatest(group, user, "a", 0, 1)
    ensures ops[1].now == 0 && SlotFound(states[2], group, user, 0) == Strings.Some("b")
  {
    var empty := Slots(map[], map[]);
    ops := [StoreLatest(group, user, "a", 0, 1), StoreLatest(g, u, "b", 0, 1)];
    var first := SlotStored(empty, group, user, "a", 0, 1);
    states := [empty, first, SlotStored(first, g, u, "b", 0, 1)];
    assert Step(states[0], ops[0], states[1]) && Step(states[1], ops[1], states[2]);
    assert forall i {:trigger ops[i]} :: 0 <= i < 2 ==> Step(states[i], ops[i], states[i + 1]);
  }

  /** A pair keeps its latest message in all runs if and only if no other pair shares its slot. */
  lemma KeepsItsLatestIff(group: string, user: string)
    requires group != "" && user != ""
    ensures KeepsItsLatest(group, user) <==> !SplitsElsewhere(group, user)
  {
    if SplitsElsewhere(group, user) {
      SplitTwice(group, user);
      var g, u :| g != "" && u != "" && (g, u) != (group, user) && LatestKey(g, u) == LatestKey(group, user);
      var states, ops := OtherPairFound(group, user, g, u);
      assert LookedUp(states, ops, 0, 2, 0, group, user) && StillFound(ops[0], 0) == Strings.Some("a");
    } else {
      forall states: seq<Slots>, ops: seq<SlotOp>, i: nat, j: nat, now: int
        | LookedUp(states, ops, i, j, now, group, user)
        ensures SlotFound(states[j], group, user, now) == StillFound(ops[i], now)
      {
        LatestFoundUntilExpiry(states, ops, i, j, now);
      }
    }
  }
}
