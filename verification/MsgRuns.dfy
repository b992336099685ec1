/** Runs of the message ID store with a clock that never goes back. */
module MsgRuns {
  import opened Strings
  import opened Decimals
  import Probing
  import opened MsgBuckets

  datatype MsgOp = StoreMsg(realID: string, now: int, ttl: int) | Clean(now: int)

  predicate IsTime(now: int) {
    0 <= now <= MAX_INT64 - 3600
  }

  predicate IsGoOp(op: MsgOp) {
    IsTime(op.now) && (op.StoreMsg? ==> IsInt64(op.ttl))
  }

  /** One operation; an Update that fails is rolled back and changes nothing. */
  ghost predicate Step(m: Messages, op: MsgOp, next: Messages) {
    || next == m
    || match op
       case StoreMsg(realID, now, ttl) => exists r :: Stores(m, realID, now, ttl, r, next)
       case Clean(now) => next == Cleaned(m, now)
  }

  ghost predicate IsRun(states: seq<Messages>, ops: seq<MsgOp>) {
    && |states| == |ops| + 1 && states[0] == Messages(map[], map[], map[], 0)
    && (forall i {:trigger ops[i]} :: 0 <= i < |ops| ==> IsGoOp(ops[i]) && Step(states[i], ops[i], states[i + 1]))
    && (forall i, j :: 0 <= i <= j < |ops| ==> ops[i].now <= ops[j].now)
  }

  /** The counter has not yet run through all 64-bit numbers. */
  ghost predicate NotExhausted(states: seq<Messages>) {
    forall i {:trigger states[i].counter} :: 0 <= i < |states| ==> states[i].counter < MAX_INT64
  }

  ghost predicate Sound(m: Messages) {
    Bijective(m) && Counted(m) && m.counter >= 0
  }

  lemma StepKeepsBijection(m: Messages, op: MsgOp, next: Messages)
    requires Bijective(m) && Step(m, op, next)
    ensures Bijective(next)
  {
    if next != m {
      match op
      case StoreMsg(realID, now, ttl) =>
        var r :| Stores(m, realID, now, ttl, r, next);
        StoreKeepsBijection(m, realID, now, ttl, r, next);
      case Clean(now) =>
        CleanKeepsBijection(m, now);
    }
  }

  lemma StepKeepsCounted(m: Messages, op: MsgOp, next: Messages)
    requires Counted(m) && 0 <= m.counter < MAX_INT64 && Step(m, op, next)
    ensures Counted(next) && m.counter <= next.counter
  {
    if next != m && op.StoreMsg? {
      var r :| Stores(m, op.realID, op.now, op.ttl, r, next);
      StoreKeepsCounted(m, op.realID, op.now, op.ttl, r, next);
    }
  }

  /** In every run real and virtual IDs stay a bijection with an expiry each. */
  lemma {:induction false} RunIsBijective(states: seq<Messages>, ops: seq<MsgOp>, i: nat)
    requires IsRun(states, ops) && i <= |ops|
    ensures Bijective(states[i])
  {
    if i > 0 {
      RunIsBijective(states, ops, i - 1);
      StepKeepsBijection(states[i - 1], ops[i - 1], states[i]);
    }
  }

  lemma {:induction false} RunIsCounted(states: seq<Messages>, ops: seq<MsgOp>, i: nat, j: nat)
    requires IsRun(states, ops) && NotExhausted(states) && i <= j <= |ops|
    ensures Counted(states[j]) && 0 <= states[i].counter <= states[j].counter
    decreases j
  {
    if j > 0 {
      RunIsCounted(states, ops, if i < j then i else j - 1, j - 1);
      assert states[j - 1].counter < MAX_INT64;
      StepKeepsCounted(states[j - 1], ops[j - 1], states[j]);
    }
  }

  /** Step i gives a message that had none the virtual ID v. */
  ghost predicate Issues(states: seq<Messages>, ops: seq<MsgOp>, i: nat, v: int)
    requires i < |ops| && |states| == |ops| + 1
  {
    && ops[i].StoreMsg? && ops[i].realID !in states[i].forward
    && Stores(states[i], ops[i].realID, ops[i].now, ops[i].ttl, Ok(v), states[i + 1])
  }

  /** A virtual ID is never issued a second time: each one is larger than all before it. */
  lemma IssuedOnce(states: seq<Messages>, ops: seq<MsgOp>, i: nat, v: int, j: nat, w: int)
    requires IsRun(states, ops) && NotExhausted(states) && i < j < |ops|
    requires Issues(states, ops, i, v) && Issues(states, ops, j, w)
    ensures v < w
  {
    RunIsCounted(states, ops, i + 1, j);
    RunIsCounted(states, ops, i, i);
    assert states[i].counter < MAX_INT64 && states[j].counter < MAX_INT64;
    StoreKeepsCounted(states[i], ops[i].realID, ops[i].now, ops[i].ttl, Ok(v), states[i + 1]);
    StoreKeepsCounted(states[j], ops[j].realID, ops[j].now, ops[j].ttl, Ok(w), states[j + 1]);
  }

  // ---- when a virtual ID is issued again

  /** Some step before i has issued v. */
  ghost predicate IssuedBefore(states: seq<Messages>, ops: seq<MsgOp>, i: nat, v: int)
    requires i <= |ops| && |states| == |ops| + 1
  {
    exists j: nat :: j < i && Issues(states, ops, j, v)
  }

  /** Before step i the counter has reached the largest number. */
  ghost predicate RunThrough(states: seq<Messages>, i: nat)
    requires i < |states|
  {
    exists n: nat :: n <= i && states[n].counter == MAX_INT64
  }

  lemma OneMoreIssued(states: seq<Messages>, ops: seq<MsgOp>, i: nat, v: int)
    requires i < |ops| && |states| == |ops| + 1
    ensures IssuedBefore(states, ops, i + 1, v) <==> IssuedBefore(states, ops, i, v) || Issues(states, ops, i, v)
  {
  }

  /** A step counts on by one and issues that number, or it neither counts nor issues. */
  lemma StepIssues(states: seq<Messages>, ops: seq<MsgOp>, i: nat, v: int)
    requires i < |ops| && |states| == |ops| + 1 && Step(states[i], ops[i], states[i + 1])
    requires Sound(states[i]) && states[i].counter < MAX_INT64
    ensures Issues(states, ops, i, v) <==> v == states[i].counter + 1 == states[i + 1].counter
    ensures states[i].counter <= states[i + 1].counter <= states[i].counter + 1
  {
    var m, op, next := states[i], ops[i], states[i + 1];
    if op.StoreMsg? && op.realID !in m.forward {
      if Issues(states, ops, i, v) {
        StoreKeepsCounted(m, op.realID, op.now, op.ttl, Ok(v), next);
      }
      if next != m {
        var r :| Stores(m, op.realID, op.now, op.ttl, r, next);
        StoreKeepsCounted(m, op.realID, op.now, op.ttl, r, next);
        assert Issues(states, ops, i, r.value);
      }
    }
  }

  /** Until the counter has run through, the numbers up to it are those issued so far. */
  lemma {:induction false} IssuedUpToCounter(states: seq<Messages>, ops: seq<MsgOp>, i: nat, v: int)
    requires IsRun(states, ops) && i <= |ops|
    requires forall n {:trigger states[n].counter} :: 0 <= n < i ==> states[n].counter < MAX_INT64
    ensures Sound(states[i]) && states[i].counter <= MAX_INT64
    ensures IssuedBefore(states, ops, i, v) <==> 1 <= v <= states[i].counter
  {
    RunIsBijective(states, ops, i);
    if i > 0 {
      IssuedUpToCounter(states, ops, i - 1, v);
      assert states[i - 1].counter < MAX_INT64;
      StepKeepsCounted(states[i - 1], ops[i - 1], states[i]);
      StepIssues(states, ops, i - 1, v);
      OneMoreIssued(states, ops, i - 1, v);
    }
  }

  lemma {:induction false} FirstRunThrough(states: seq<Messages>, i: nat) returns (n: nat)
    requires i < |states| && RunThrough(states, i)
    ensures n <= i && states[n].counter == MAX_INT64
    ensures forall m {:trigger states[m].counter} :: 0 <= m < n ==> states[m].counter != MAX_INT64
  {
    if i > 0 && RunThrough(states, i - 1) {
      n := FirstRunThrough(states, i - 1);
    } else {
      n := i;
    }
  }

  lemma {:induction false} NeverBeyond(states: seq<Messages>, ops: seq<MsgOp>, i: nat)
    requires IsRun(states, ops) && i <= |ops|
    ensures states[i].counter <= MAX_INT64
  {
    if i > 0 {
      NeverBeyond(states, ops, i - 1);
      var m, op, next := states[i - 1], ops[i - 1], states[i];
      if next != m && op.StoreMsg? {
        var r :| Stores(m, op.realID, op.now, op.ttl, r, next);
      }
    }
  }

  /** In every run a positive virtual ID is issued again exactly if the counter has reached the
      largest number before; every ID issued from then on is one issued before. */
  lemma ReissuedIff(states: seq<Messages>, ops: seq<MsgOp>, i: nat, v: int)
    requires IsRun(states, ops) && i < |ops| && Issues(states, ops, i, v) && v > 0
    ensures IssuedBefore(states, ops, i, v) <==> RunThrough(states, i)
  {
    if RunThrough(states, i) {
      var n := FirstRunThrough(states, i);
      forall m {:trigger states[m].counter} | 0 <= m < n ensures states[m].counter < MAX_INT64 {
        NeverBeyond(states, ops, m);
      }
      IssuedUpToCounter(states, ops, n, v);
      var j: nat :| j < n && Issues(states, ops, j, v);
    } else {
      forall m {:trigger states[m].counter} | 0 <= m <= i ensures states[m].counter < MAX_INT64 {
        NeverBeyond(states, ops, m);
      }
      IssuedUpToCounter(states, ops, i, v);
      StepIssues(states, ops, i, v);
    }
  }

  /** The first time this happens the counter stands at the largest number. */
  lemma FirstReissueIff(states: seq<Messages>, ops: seq<MsgOp>, i: nat, v: int)
    requires IsRun(states, ops) && i < |ops| && Issues(states, ops, i, v)
    requires forall n {:trigger states[n].counter} :: 0 <= n < i ==> states[n].counter < MAX_INT64
    ensures IssuedBefore(states, ops, i, v) <==> states[i].counter == MAX_INT64 && v > 0
  {
    IssuedUpToCounter(states, ops, i, v);
    if states[i].counter < MAX_INT64 {
      StepIssues(states, ops, i, v);
    } else {
      assert IsInt64(v);
    }
  }

  // ---- a stored message is found until its expiry

  /** The message is there with expiry e, or it expired before `clock` and has been cleaned up. */
  ghost predicate Tracked(m: Messages, realID: string, v: int, e: int, clock: int) {
    && realID != "" && 0 < v <= m.counter && 0 < e
    && if realID in m.forward then m.forward[realID] == v && Decimal(v) in m.expires && m.expires[Decimal(v)] == e
       else Decimal(v) !in m.reverse && e < clock
  }

  /** The expiry is the sum if the lifetime is positive and the sum a 64-bit number, else an hour. */
  lemma ExpiryInNumbers(now: int, ttl: int)
    requires IsTime(now) && IsInt64(ttl)
    ensures 0 < ttl <= MAX_INT64 - now ==> ExpiryAt(now, ttl) == now + ttl
    ensures !(0 < ttl <= MAX_INT64 - now) ==> ExpiryAt(now, ttl) == now + 3600
  {
  }

  lemma ExpiryLater(now: int, ttl: int)
    requires IsTime(now)
    ensures now < ExpiryAt(now, ttl)
  {
  }

  lemma StoreTracks(m: Messages, realID: string, now: int, ttl: int, v: int, next: Messages)
    requires Sound(m) && m.counter < MAX_INT64 && IsTime(now) && Stores(m, realID, now, ttl, Ok(v), next)
    ensures Tracked(next, realID, v, ExpiryAt(now, ttl), now)
  {
    ExpiryLater(now, ttl);
    StoreKeepsCounted(m, realID, now, ttl, Ok(v), next);
  }

  lemma StoreKeepsTracked(m: Messages, realID: string, v: int, e: int, clock: int, op: MsgOp, next: Messages)
    requires Sound(m) && m.counter < MAX_INT64 && Tracked(m, realID, v, e, clock)
    requires op.StoreMsg? && op.realID != realID && clock <= op.now && Step(m, op, next)
    ensures Tracked(next, realID, v, e, op.now)
  {
    if next != m {
      var r :| Stores(m, op.realID, op.now, op.ttl, r, next);
      StoreKeepsCounted(m, op.realID, op.now, op.ttl, r, next);
      if op.realID != "" {
        var w := r.value;
        if Decimal(w) == Decimal(v) {
          DecimalInjective(w, v);
          InUse(m, v);
        }
      }
    }
  }

  lemma CleanKeepsTracked(m: Messages, realID: string, v: int, e: int, clock: int, now: int)
    requires Sound(m) && Tracked(m, realID, v, e, clock) && clock <= now
    ensures Tracked(Cleaned(m, now), realID, v, e, now)
  {
  }

  lemma StepKeepsTracked(m: Messages, realID: string, v: int, e: int, clock: int, op: MsgOp, next: Messages)
    requires Sound(m) && m.counter < MAX_INT64 && Tracked(m, realID, v, e, clock)
    requires clock <= op.now && !(op.StoreMsg? && op.realID == realID) && Step(m, op, next)
    ensures Tracked(next, realID, v, e, op.now)
  {
    if op.StoreMsg? {
      StoreKeepsTracked(m, realID, v, e, clock, op, next);
    } else if next != m {
      CleanKeepsTracked(m, realID, v, e, clock, op.now);
    }
  }

  ghost predicate NotStoredAgain(ops: seq<MsgOp>, i: nat, j: nat, realID: string)
    requires j <= |ops|
  {
    forall n :: i < n < j ==> !(ops[n].StoreMsg? && ops[n].realID == realID)
  }

  lemma OtherStored(ops: seq<MsgOp>, i: nat, j: nat, realID: string, n: nat)
    requires j <= |ops| && NotStoredAgain(ops, i, j, realID) && i < n < j
    ensures !(ops[n].StoreMsg? && ops[n].realID == realID)
  {
  }

  lemma RunStep(states: seq<Messages>, ops: seq<MsgOp>, j: nat)
    requires IsRun(states, ops) && NotExhausted(states) && j < |ops|
    ensures Sound(states[j]) && states[j].counter < MAX_INT64
    ensures IsTime(ops[j].now) && Step(states[j], ops[j], states[j + 1])
    ensures j > 0 ==> ops[j - 1].now <= ops[j].now
  {
    RunIsBijective(states, ops, j);
    RunIsCounted(states, ops, j, j);
    assert states[j].counter < MAX_INT64;
  }

  lemma RunKeepsTracked(states: seq<Messages>, ops: seq<MsgOp>, j: nat, realID: string, v: int, e: int)
    requires IsRun(states, ops) && NotExhausted(states) && 1 < j <= |ops|
    requires Tracked(states[j - 1], realID, v, e, ops[j - 2].now)
    requires !(ops[j - 1].StoreMsg? && ops[j - 1].realID == realID)
    ensures Tracked(states[j], realID, v, e, ops[j - 1].now)
  {
    RunStep(states, ops, j - 1);
    StepKeepsTracked(states[j - 1], realID, v, e, ops[j - 2].now, ops[j - 1], states[j]);
  }

  lemma FirstTracked(states: seq<Messages>, ops: seq<MsgOp>, i: nat, v: int)
    requires IsRun(states, ops) && NotExhausted(states) && i < |ops| && ops[i].StoreMsg?
    requires Stores(states[i], ops[i].realID, ops[i].now, ops[i].ttl, Ok(v), states[i + 1])
    ensures Tracked(states[i + 1], ops[i].realID, v, ExpiryAt(ops[i].now, ops[i].ttl), ops[i].now)
  {
    RunStep(states, ops, i);
    StoreTracks(states[i], ops[i].realID, ops[i].now, ops[i].ttl, v, states[i + 1]);
  }

  lemma {:induction false} TrackedThroughRun(states: seq<Messages>, ops: seq<MsgOp>, i: nat, j: nat, v: int)
    requires IsRun(states, ops) && NotExhausted(states) && i < j <= |ops| && ops[i].StoreMsg?
    requires Stores(states[i], ops[i].realID, ops[i].now, ops[i].ttl, Ok(v), states[i + 1])
    requires NotStoredAgain(ops, i, j, ops[i].realID)
    ensures Tracked(states[j], ops[i].realID, v, ExpiryAt(ops[i].now, ops[i].ttl), ops[j - 1].now)
    decreases j
  {
    var first := ops[i];
    if j == i + 1 {
      FirstTracked(states, ops, i, v);
    } else {
      TrackedThroughRun(states, ops, i, j - 1, v);
      OtherStored(ops, i, j, first.realID, j - 1);
      RunKeepsTracked(states, ops, j, first.realID, v, ExpiryAt(first.now, first.ttl));
    }
  }

  /** Until the counter has run through, a lookup finds a message exactly until the expiry set when
      it was last stored, and nothing afterwards, whatever other stores and cleanups come between. */
  lemma FoundUntilExpiry(states: seq<Messages>, ops: seq<MsgOp>, i: nat, j: nat, v: int, now: int)
    requires IsRun(states, ops) && NotExhausted(states) && i < j <= |ops| && ops[i].StoreMsg?
    requires Stores(states[i], ops[i].realID, ops[i].now, ops[i].ttl, Ok(v), states[i + 1])
    requires NotStoredAgain(ops, i, j, ops[i].realID) && ops[j - 1].now <= now
    ensures var ttl, stored := ops[i].ttl, ops[i].now;
            Retrieved(states[j], Decimal(v), now) ==
            if now <= (if 0 < ttl <= MAX_INT64 - stored then stored + ttl else stored + 3600)
            then Some(ops[i].realID) else None
  {
    assert IsGoOp(ops[i]);
    ExpiryInNumbers(ops[i].now, ops[i].ttl);
    TrackedThroughRun(states, ops, i, j, v);
    RunIsBijective(states, ops, j);
  }

  // ---- the same in runs whose counter has run through

  /** The message is there with expiry e, or it expired before `clock` and has been cleaned up; its
      virtual ID may have gone to another message since. */
  ghost predicate Held(m: Messages, realID: string, v: int, e: int, clock: int) {
    && realID != "" && 0 < e
    && if realID in m.forward then m.forward[realID] == v && Decimal(v) in m.expires && m.expires[Decimal(v)] == e
       else e < clock
  }

  lemma StoreKeepsHeld(m: Messages, realID: string, v: int, e: int, clock: int, op: MsgOp, next: Messages)
    requires Bijective(m) && Held(m, realID, v, e, clock)
    requires op.StoreMsg? && op.realID != realID && clock <= op.now && Step(m, op, next)
    ensures Held(next, realID, v, e, op.now)
  {
    if next != m {
      var r :| Stores(m, op.realID, op.now, op.ttl, r, next);
      if realID in m.forward && op.realID != "" && Decimal(r.value) == Decimal(v) {
        DecimalInjective(r.value, v);
        assert m.reverse[Decimal(v)] == realID && Probing.Taken(m.forward, v);
      }
    }
  }

  lemma CleanKeepsHeld(m: Messages, realID: string, v: int, e: int, clock: int, now: int)
    requires Held(m, realID, v, e, clock) && clock <= now
    ensures Held(Cleaned(m, now), realID, v, e, now)
  {
  }

  lemma {:induction false} HeldThroughRun(states: seq<Messages>, ops: seq<MsgOp>, i: nat, j: nat, v: int)
    requires IsRun(states, ops) && i < j <= |ops| && ops[i].StoreMsg?
    requires Stores(states[i], ops[i].realID, ops[i].now, ops[i].ttl, Ok(v), states[i + 1])
    requires NotStoredAgain(ops, i, j, ops[i].realID)
    ensures Held(states[j], ops[i].realID, v, ExpiryAt(ops[i].now, ops[i].ttl), ops[j - 1].now)
    decreases j
  {
    if j == i + 1 {
      StoreHolds(states, ops, i, v);
    } else {
      HeldThroughRun(states, ops, i, j - 1, v);
      OtherStored(ops, i, j, ops[i].realID, j - 1);
      RunKeepsHeld(states, ops, j, ops[i].realID, v, ExpiryAt(ops[i].now, ops[i].ttl));
    }
  }

  lemma StoreHolds(states: seq<Messages>, ops: seq<MsgOp>, i: nat, v: int)
    requires IsRun(states, ops) && i < |ops| && ops[i].StoreMsg?
    requires Stores(states[i], ops[i].realID, ops[i].now, ops[i].ttl, Ok(v), states[i + 1])
    ensures Held(states[i + 1], ops[i].realID, v, ExpiryAt(ops[i].now, ops[i].ttl), ops[i].now)
  {
    assert IsGoOp(ops[i]);
    ExpiryLater(ops[i].now, ops[i].ttl);
  }

  lemma RunKeepsHeld(states: seq<Messages>, ops: seq<MsgOp>, j: nat, realID: string, v: int, e: int)
    requires IsRun(states, ops) && 1 < j <= |ops|
    requires Held(states[j - 1], realID, v, e, ops[j - 2].now)
    requires !(ops[j - 1].StoreMsg? && ops[j - 1].realID == realID)
    ensures Held(states[j], realID, v, e, ops[j - 1].now)
  {
    var last := ops[j - 1];
    assert Step(states[j - 1], last, states[j]) && ops[j - 2].now <= last.now;
    RunIsBijective(states, ops, j - 1);
    if last.StoreMsg? {
      StoreKeepsHeld(states[j - 1], realID, v, e, ops[j - 2].now, last, states[j]);
    } else if states[j] != states[j - 1] {
      CleanKeepsHeld(states[j - 1], realID, v, e, ops[j - 2].now, last.now);
    }
  }

  /** In every run a lookup answers with the message if and only if its lifetime has not passed; a
      lifetime that is not positive, or too long for 64 bits, counts as an hour. */
  lemma FoundIff(states: seq<Messages>, ops: seq<MsgOp>, i: nat, j: nat, v: int, now: int)
    requires IsRun(states, ops) && i < j <= |ops| && ops[i].StoreMsg?
    requires Stores(states[i], ops[i].realID, ops[i].now, ops[i].ttl, Ok(v), states[i + 1])
    requires NotStoredAgain(ops, i, j, ops[i].realID) && ops[j - 1].now <= now
    ensures 0 < ops[i].ttl <= MAX_INT64 - ops[i].now ==>
      (Retrieved(states[j], Decimal(v), now) == Some(ops[i].realID) <==> now <= ops[i].now + ops[i].ttl)
    ensures !(0 < ops[i].ttl <= MAX_INT64 - ops[i].now) ==>
      (Retrieved(states[j], Decimal(v), now) == Some(ops[i].realID) <==> now <= ops[i].now + 3600)
  {
    assert IsGoOp(ops[i]);
    ExpiryInNumbers(ops[i].now, ops[i].ttl);
    HeldThroughRun(states, ops, i, j, v);
    RunIsBijective(states, ops, j);
  }
}
