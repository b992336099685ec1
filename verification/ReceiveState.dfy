/** The sliding window and the permission flag of the receive-all detector
    (idmap/qq_group_receive_state.go), and what they say about the events seen so far. */
module ReceiveState {
  import Strings
  import opened Wire
  import opened ReceiveWire

  const WINDOW_SIZE := 10
  const CREATE_EVENT: nat := 1
  const AT_EVENT: nat := 2

  // ---- one event

  /** The entries with an identifier other than the given one. */
  function Without(recent: seq<Entry>, id: Bytes): seq<Entry> {
    if recent == [] then []
    else
      Without(recent[..|recent| - 1], id) +
      if recent[|recent| - 1].MessageID == [] || recent[|recent| - 1].MessageID == id then []
      else [recent[|recent| - 1]]
  }

  function LastTen(s: seq<Entry>): (t: seq<Entry>)
    ensures |t| <= WINDOW_SIZE
  {
    if |s| > WINDOW_SIZE then s[|s| - WINDOW_SIZE..] else s
  }

  function NextWindow(recent: seq<Entry>, e: Entry): seq<Entry> {
    LastTen(Without(recent, e.MessageID) + [e])
  }

  /** Ten entries, all of them normal messages. */
  predicate AllNormal(window: seq<Entry>) {
    |window| == WINDOW_SIZE && forall i :: 0 <= i < |window| ==> window[i].Event == CREATE_EVENT
  }

  function Advance(s: State, e: Entry): State {
    var recent := NextWindow(s.Recent, e);
    State(recent,
          if e.Event == CREATE_EVENT then s.Permitted || AllNormal(recent) else false,
          s.PersistedPermitted)
  }

  method AdvanceState(state: State, messageID: Bytes, eventType: nat) returns (next: State)
    ensures next == Advance(state, Entry(messageID, eventType))
  {
    var recent: seq<Entry> := [];
    for i := 0 to |state.Recent|
      invariant recent == Without(state.Recent[..i], messageID)
    {
      var entry := state.Recent[i];
      assert state.Recent[..i + 1][..i] == state.Recent[..i];
      if entry.MessageID == [] || entry.MessageID == messageID {
        continue;
      }
      recent := recent + [entry];
    }
    assert state.Recent[..|state.Recent|] == state.Recent;
    recent := recent + [Entry(messageID, eventType)];
    if |recent| > WINDOW_SIZE {
      recent := recent[|recent| - WINDOW_SIZE..];
    }
    var permitted := state.Permitted;
    if eventType == AT_EVENT {
      permitted := false;
    } else if eventType == CREATE_EVENT {
      if !permitted {
        permitted := AllCreated(recent);
      }
    } else {
      permitted := false;
    }
    next := State(recent, permitted, state.PersistedPermitted);
  }

  /** The window is full and holds nothing but normal messages. */
  method AllCreated(recent: seq<Entry>) returns (permitted: bool)
    ensures permitted == AllNormal(recent)
  {
    permitted := |recent| == WINDOW_SIZE;
    if permitted {
      for i := 0 to |recent|
        invariant permitted && forall j :: 0 <= j < i ==> recent[j].Event == CREATE_EVENT
      {
        if recent[i].Event != CREATE_EVENT {
          permitted := false;
          break;
        }
      }
    }
  }

  // ---- all events since the state was loaded

  /** The window after a history of events. */
  function Window(h: seq<Entry>): seq<Entry> {
    if h == [] then [] else NextWindow(Window(h[..|h| - 1]), h[|h| - 1])
  }

  /** The state after a history of events, when the flag was loaded as `loaded`. */
  function Replay(loaded: bool, h: seq<Entry>): State {
    if h == [] then State([], loaded, loaded) else Advance(Replay(loaded, h[..|h| - 1]), h[|h| - 1])
  }

  ghost predicate Redelivered(h: seq<Entry>, id: Bytes) {
    exists i :: 0 <= i < |h| && h[i].MessageID == id
  }

  /** The history with only the latest event of each message. */
  ghost function Latest(h: seq<Entry>): seq<Entry> {
    if h == [] then []
    else if Redelivered(h[1..], h[0].MessageID) then Latest(h[1..])
    else [h[0]] + Latest(h[1..])
  }

  /** Events as the recorder passes them on: a message always has an identifier. */
  predicate Named(h: seq<Entry>) {
    forall i :: 0 <= i < |h| ==> h[i].MessageID != []
  }

  predicate Distinct(s: seq<Entry>) {
    forall i, j :: 0 <= i < j < |s| ==> s[i].MessageID != s[j].MessageID
  }

  // ---- removing one identifier

  lemma {:induction false} WithoutConcat(a: seq<Entry>, b: seq<Entry>, id: Bytes)
    ensures Without(a + b, id) == Without(a, id) + Without(b, id)
  {
    if b == [] {
      assert a + b == a;
    } else {
      assert (a + b)[..|a + b| - 1] == a + b[..|b| - 1];
      WithoutConcat(a, b[..|b| - 1], id);
    }
  }

  lemma WithoutCons(e: Entry, s: seq<Entry>, id: Bytes)
    requires e.MessageID != []
    ensures Without([e] + s, id) == (if e.MessageID == id then [] else [e]) + Without(s, id)
  {
    WithoutConcat([e], s, id);
    assert [e][..0] == [];
    assert Without([e], id) == Without([], id) + if e.MessageID == id then [] else [e];
  }

  lemma {:induction false} WithoutAbsent(s: seq<Entry>, id: Bytes)
    requires Named(s) && !Redelivered(s, id)
    ensures Without(s, id) == s
  {
    if s != [] {
      var n := |s| - 1;
      assert !Redelivered(s[..n], id);
      assert s[n].MessageID != id;
      WithoutAbsent(s[..n], id);
      assert s == s[..n] + [s[n]];
    }
  }

  lemma {:induction false} WithoutMembers(s: seq<Entry>, id: Bytes, e: Entry)
    requires Named(s)
    ensures e in Without(s, id) <==> e in s && e.MessageID != id
  {
    if s != [] {
      var n := |s| - 1;
      WithoutMembers(s[..n], id, e);
      assert s == s[..n] + [s[n]];
    }
  }

  lemma {:induction false} WithoutDistinct(s: seq<Entry>, id: Bytes)
    requires Named(s) && Distinct(s)
    ensures Named(Without(s, id)) && Distinct(Without(s, id))
    ensures |s| - 1 <= |Without(s, id)| <= |s|
  {
    if s != [] {
      var front, last := s[..|s| - 1], s[|s| - 1];
      WithoutDistinct(front, id);
      if last.MessageID == id {
        WithoutAbsent(front, id);
        assert Without(s, id) == Without(front, id) + [];
      } else {
        forall e | e in Without(front, id) ensures e.MessageID != last.MessageID {
          WithoutMembers(front, id, e);
        }
        DistinctSnoc(Without(front, id), last);
        assert Without(s, id) == Without(front, id) + [last];
      }
    }
  }

  lemma DistinctSnoc(s: seq<Entry>, e: Entry)
    requires Distinct(s) && forall x :: x in s ==> x.MessageID != e.MessageID
    ensures Distinct(s + [e])
  {
  }

  // ---- the history with only the latest events

  lemma RedeliveredSnoc(h: seq<Entry>, e: Entry, id: Bytes)
    ensures Redelivered(h + [e], id) <==> Redelivered(h, id) || e.MessageID == id
  {
    if Redelivered(h, id) {
      var i :| 0 <= i < |h| && h[i].MessageID == id;
      assert (h + [e])[i].MessageID == id;
    }
    if e.MessageID == id {
      assert (h + [e])[|h|].MessageID == id;
    }
  }

  /** A new event replaces the earlier event of its message and goes to the end. */
  lemma LatestCons(x: Entry, t: seq<Entry>)
    ensures Latest([x] + t) == if Redelivered(t, x.MessageID) then Latest(t) else [x] + Latest(t)
  {
    assert ([x] + t)[1..] == t;
  }

  lemma LatestSnocStep(x: Entry, t: seq<Entry>, e: Entry)
    requires x.MessageID != [] && Latest(t + [e]) == Without(Latest(t), e.MessageID) + [e]
    ensures Latest([x] + t + [e]) == Without(Latest([x] + t), e.MessageID) + [e]
  {
    Strings.Associative([x], t, [e]);
    LatestCons(x, t);
    LatestCons(x, t + [e]);
    RedeliveredSnoc(t, e, x.MessageID);
    var w := Without(Latest(t), e.MessageID);
    if !Redelivered(t, x.MessageID) {
      WithoutCons(x, Latest(t), e.MessageID);
      if x.MessageID == e.MessageID {
        assert Without([x] + Latest(t), e.MessageID) == [] + w == w;
      } else {
        assert Without([x] + Latest(t), e.MessageID) == [x] + w;
        Strings.Associative([x], w, [e]);
      }
    }
  }

  lemma {:induction false} LatestSnoc(h: seq<Entry>, e: Entry)
    requires Named(h)
    ensures Latest(h + [e]) == Without(Latest(h), e.MessageID) + [e]
  {
    if h == [] {
      LatestCons(e, []);
      assert [e] + [] == [] + [e];
    } else {
      assert [h[0]] + h[1..] == h;
      LatestSnoc(h[1..], e);
      LatestSnocStep(h[0], h[1..], e);
    }
  }

  lemma {:induction false} LatestDistinct(h: seq<Entry>)
    requires Named(h)
    ensures Named(Latest(h)) && Distinct(Latest(h))
    ensures forall e :: e in Latest(h) ==> e in h
  {
    if h != [] {
      LatestDistinct(h[1..]);
      if !Redelivered(h[1..], h[0].MessageID) {
        forall e | e in Latest(h[1..]) ensures e.MessageID != h[0].MessageID {
          assert e in h[1..];
        }
      }
    }
  }

  // ---- the window

  /** Cutting down to ten entries before or after taking in an event makes no difference. */
  lemma TenSuffice(s: seq<Entry>, e: Entry)
    requires Named(s) && Distinct(s)
    ensures NextWindow(LastTen(s), e) == LastTen(Without(s, e.MessageID) + [e])
  {
    if |s| > WINDOW_SIZE {
      var cut := |s| - WINDOW_SIZE;
      var ten := s[cut..];
      assert s == s[..cut] + ten;
      WithoutConcat(s[..cut], ten, e.MessageID);
      WithoutDistinct(ten, e.MessageID);
      LastTenOfLongTail(Without(s[..cut], e.MessageID), Without(ten, e.MessageID), e);
    }
  }

  lemma LastTenOfLongTail(a: seq<Entry>, b: seq<Entry>, e: Entry)
    requires |b| >= WINDOW_SIZE - 1
    ensures LastTen(a + b + [e]) == LastTen(b + [e])
  {
  }

  lemma LastTenDistinct(s: seq<Entry>)
    requires Named(s) && Distinct(s)
    ensures Named(LastTen(s)) && Distinct(LastTen(s))
  {
  }

  /** The window kept step by step is the last ten entries of the whole history after
      keeping only each message's latest event; its identifiers are pairwise different. */
  lemma {:induction false} WindowIsLastTen(h: seq<Entry>)
    requires Named(h)
    ensures Window(h) == LastTen(Latest(h))
    ensures Distinct(Window(h)) && Named(Window(h))
  {
    LatestDistinct(h);
    LastTenDistinct(Latest(h));
    if h != [] {
      WindowIsLastTen(h[..|h| - 1]);
      WindowStep(h[..|h| - 1], h[|h| - 1]);
      assert h == h[..|h| - 1] + [h[|h| - 1]];
    }
  }

  lemma WindowStep(before: seq<Entry>, e: Entry)
    requires Named(before) && Window(before) == LastTen(Latest(before))
    ensures Window(before + [e]) == LastTen(Latest(before + [e]))
  {
    LatestDistinct(before);
    TenSuffice(Latest(before), e);
    LatestSnoc(before, e);
    assert (before + [e])[..|before|] == before;
  }

  lemma {:induction false} ReplayWindow(loaded: bool, h: seq<Entry>)
    ensures Replay(loaded, h).Recent == Window(h)
    ensures Replay(loaded, h).PersistedPermitted == loaded
  {
    if h != [] {
      ReplayWindow(loaded, h[..|h| - 1]);
    }
  }

  // ---- the permission

  ghost predicate OnlyNormalFrom(h: seq<Entry>, k: int) {
    forall n :: 0 <= k <= n < |h| ==> h[n].Event == CREATE_EVENT
  }

  /** After the first k events the window was all normal, and so were the events since. */
  ghost predicate EarnedAt(h: seq<Entry>, k: int) {
    0 < k <= |h| && AllNormal(Window(h[..k])) && OnlyNormalFrom(h, k)
  }

  lemma LastIsLast(recent: seq<Entry>, e: Entry)
    ensures NextWindow(recent, e) != [] && NextWindow(recent, e)[|NextWindow(recent, e)| - 1] == e
  {
  }

  ghost predicate Earned(h: seq<Entry>) {
    exists k :: EarnedAt(h, k)
  }

  lemma EarnedAtStep(before: seq<Entry>, e: Entry, k: int)
    requires e.Event == CREATE_EVENT && k <= |before|
    ensures EarnedAt(before + [e], k) <==> EarnedAt(before, k)
  {
    if 0 < k {
      var h := before + [e];
      assert h[..k] == before[..k];
      assert forall n :: 0 <= n < |before| ==> h[n] == before[n];
    }
  }

  lemma EarnedStays(before: seq<Entry>, e: Entry)
    requires e.Event == CREATE_EVENT && Earned(before)
    ensures Earned(before + [e])
  {
    var k :| EarnedAt(before, k);
    EarnedAtStep(before, e, k);
  }

  lemma EarnedBeforeOrNow(before: seq<Entry>, e: Entry)
    requires e.Event == CREATE_EVENT && Earned(before + [e])
    ensures Earned(before) || AllNormal(Window(before + [e]))
  {
    var k :| EarnedAt(before + [e], k);
    if k <= |before| {
      EarnedAtStep(before, e, k);
    } else {
      EarnedAtEnd(before + [e]);
    }
  }

  lemma EarnedStep(before: seq<Entry>, e: Entry)
    requires e.Event == CREATE_EVENT
    ensures Earned(before + [e]) <==> Earned(before) || AllNormal(Window(before + [e]))
  {
    if Earned(before + [e]) {
      EarnedBeforeOrNow(before, e);
    }
    if Earned(before) {
      EarnedStays(before, e);
    }
    EarnedAtEnd(before + [e]);
  }

  lemma EarnedAtEnd(h: seq<Entry>)
    requires h != []
    ensures EarnedAt(h, |h|) <==> AllNormal(Window(h))
  {
    assert h[..|h|] == h;
  }

  /** A window that ends in another event is not all normal. */
  lemma NotEarnedByOther(before: seq<Entry>, e: Entry)
    requires e.Event != CREATE_EVENT
    ensures !Earned(before + [e])
  {
    var h, n := before + [e], |before|;
    assert h[..n + 1] == h && h[..n] == before;
    LastIsLast(Window(before), e);
    forall k ensures !EarnedAt(h, k) {
      if 0 < k <= n {
        assert h[n].Event == e.Event;
      }
    }
  }

  /** Permission is granted exactly when it was loaded and never withdrawn, or was earned by
      ten normal messages in the window after the last other event. */
  lemma {:induction false} PermittedIff(loaded: bool, h: seq<Entry>)
    ensures Replay(loaded, h).Permitted <==> (loaded && OnlyNormalFrom(h, 0)) || Earned(h)
  {
    if h != [] {
      var before, e := h[..|h| - 1], h[|h| - 1];
      assert h == before + [e];
      PermittedIff(loaded, before);
      ReplayWindow(loaded, before);
      if e.Event == CREATE_EVENT {
        EarnedStep(before, e);
        assert OnlyNormalFrom(h, 0) <==> OnlyNormalFrom(before, 0);
      } else {
        NotEarnedByOther(before, e);
        assert !OnlyNormalFrom(h, 0);
      }
    }
  }

  // ---- how soon permission comes back after an AT event

  ghost function NormalIds(c: seq<Entry>): set<Bytes> {
    set i | 0 <= i < |c| && c[i].Event == CREATE_EVENT :: c[i].MessageID
  }

  /** An event whose message does not come again stays in front of everything after it. */
  lemma {:induction false} StaysInFront(p: seq<Entry>, at: Entry, c: seq<Entry>) returns (front: seq<Entry>)
    requires Named(p) && at.MessageID != [] && Named(c) && !Redelivered(c, at.MessageID)
    ensures Latest(p + [at] + c) == front + [at] + Latest(c)
  {
    if c == [] {
      assert p + [at] + c == p + [at];
      LatestSnoc(p, at);
      front := Without(Latest(p), at.MessageID);
      assert front + [at] + [] == front + [at];
    } else {
      var n := |c| - 1;
      var early, e := c[..n], c[n];
      assert c == early + [e];
      assert !Redelivered(early, at.MessageID) by {
        if Redelivered(early, at.MessageID) {
          RedeliveredSnoc(early, e, at.MessageID);
        }
      }
      var inner := StaysInFront(p, at, early);
      assert p + [at] + c == (p + [at] + early) + [e];
      LatestSnoc(p + [at] + early, e);
      LatestSnoc(early, e);
      front := Without(inner, e.MessageID);
      FrontStep(inner, at, Latest(early), e);
    }
  }

  lemma FrontStep(front: seq<Entry>, at: Entry, tail: seq<Entry>, e: Entry)
    requires at.MessageID != [] && at.MessageID != e.MessageID
    ensures Without(front + [at] + tail, e.MessageID) + [e] ==
            Without(front, e.MessageID) + [at] + (Without(tail, e.MessageID) + [e])
  {
    Strings.Associative(front, [at], tail);
    WithoutConcat(front, [at] + tail, e.MessageID);
    WithoutCons(at, tail, e.MessageID);
    var a, b := Without(front, e.MessageID), Without(tail, e.MessageID);
    Strings.Associative(a, [at], b);
    Strings.Associative(a + [at], b, [e]);
  }

  /** If the AT message is not delivered again as a later event, permission comes back only
      after at least ten different normal messages. */
  lemma TenNewMessagesNeeded(loaded: bool, p: seq<Entry>, at: Entry, c: seq<Entry>)
    requires Named(p) && Named(c) && at.MessageID != [] && at.Event != CREATE_EVENT
    requires !Redelivered(c, at.MessageID)
    requires Replay(loaded, p + [at] + c).Permitted
    ensures |NormalIds(c)| >= 10
  {
    var h := p + [at] + c;
    PermittedIff(loaded, h);
    assert h[|p|] == at;
    var k :| EarnedAt(h, k);
    assert k > |p|;
    var seen := c[..k - |p| - 1];
    assert h[..k] == p + [at] + seen;
    assert !Redelivered(seen, at.MessageID);
    var front := StaysInFront(p, at, seen);
    WindowIsLastTen(h[..k]);
    LatestDistinct(seen);
    WindowSkipsOther(front, at, Latest(seen));
    IdsCounted(Latest(seen), seen, c);
  }

  lemma StillInWindow(front: seq<Entry>, at: Entry, tail: seq<Entry>)
    requires |tail| < WINDOW_SIZE
    ensures var ten := LastTen(front + [at] + tail); exists i :: 0 <= i < |ten| && ten[i] == at
  {
    var ten := LastTen(front + [at] + tail);
    assert ten[|ten| - |tail| - 1] == at;
  }

  /** A window of normal entries does not reach back to the AT event. */
  lemma WindowSkipsOther(front: seq<Entry>, at: Entry, tail: seq<Entry>)
    requires at.Event != CREATE_EVENT && AllNormal(LastTen(front + [at] + tail))
    ensures |tail| >= WINDOW_SIZE && forall i :: |tail| - WINDOW_SIZE <= i < |tail| ==> tail[i].Event == CREATE_EVENT
  {
    var all := front + [at] + tail;
    if |tail| < WINDOW_SIZE {
      StillInWindow(front, at, tail);
    } else {
      forall i | |tail| - WINDOW_SIZE <= i < |tail| ensures tail[i].Event == CREATE_EVENT {
        assert tail[i] == LastTen(all)[i - (|tail| - WINDOW_SIZE)];
      }
    }
  }

  lemma IdsCounted(tail: seq<Entry>, seen: seq<Entry>, c: seq<Entry>)
    requires Distinct(tail) && (forall e :: e in tail ==> e in seen) && seen <= c && |tail| >= WINDOW_SIZE
    requires forall i :: |tail| - WINDOW_SIZE <= i < |tail| ==> tail[i].Event == CREATE_EVENT
    ensures |NormalIds(c)| >= 10
  {
    var ten := tail[|tail| - WINDOW_SIZE..];
    forall e | e in ten ensures e.MessageID in NormalIds(c) {
      assert e in tail && e in seen;
      var i :| 0 <= i < |seen| && seen[i] == e;
      assert c[i] == e;
    }
    DistinctCount(ten, NormalIds(c));
  }

  lemma {:induction false} DistinctCount(s: seq<Entry>, ids: set<Bytes>)
    requires Distinct(s) && forall e :: e in s ==> e.MessageID in ids
    ensures |s| <= |ids|
  {
    if s != [] {
      DistinctCount(s[1..], ids - {s[0].MessageID});
    }
  }

  /** One normal event right after an AT event brings permission back exactly when it
      delivers the AT message again and the nine other messages in the window are normal. */
  lemma ImmediateReturnIff(loaded: bool, p: seq<Entry>, at: Entry, e: Entry)
    requires Named(p) && at.MessageID != [] && at.Event != CREATE_EVENT && e.MessageID != [] && e.Event == CREATE_EVENT
    ensures var w := Window(p + [at]);
            Replay(loaded, p + [at] + [e]).Permitted <==>
              e.MessageID == at.MessageID && |w| == WINDOW_SIZE &&
              forall i :: 0 <= i < WINDOW_SIZE - 1 ==> w[i].Event == CREATE_EVENT
  {
    AfterOther(loaded, p, at, e);
    var rest := WindowBehindAt(p, at);
    if e.MessageID == at.MessageID {
      SameMessageAgain(rest, at, e);
      assert forall i :: 0 <= i < |rest| ==> rest[i] == (rest + [at])[i];
    } else {
      OtherMessageNext(rest, at, e);
    }
  }

  lemma WindowBehindAt(p: seq<Entry>, at: Entry) returns (rest: seq<Entry>)
    requires Named(p) && at.MessageID != []
    ensures Window(p + [at]) == rest + [at] && |rest| < WINDOW_SIZE
    ensures Named(rest + [at]) && Distinct(rest + [at])
  {
    var h := p + [at];
    assert h[..|p|] == p;
    WindowIsLastTen(h);
    LastIsLast(Window(p), at);
    rest := Window(h)[..|Window(h)| - 1];
    assert Window(h) == rest + [at];
  }

  lemma AfterOther(loaded: bool, p: seq<Entry>, at: Entry, e: Entry)
    requires at.Event != CREATE_EVENT && e.Event == CREATE_EVENT
    ensures !Replay(loaded, p + [at]).Permitted
    ensures Replay(loaded, p + [at] + [e]).Permitted <==> AllNormal(NextWindow(Window(p + [at]), e))
  {
    var h := p + [at];
    assert (h + [e])[..|h|] == h && h[..|p|] == p;
    ReplayWindow(loaded, h);
  }

  lemma SameMessageAgain(rest: seq<Entry>, at: Entry, e: Entry)
    requires Named(rest + [at]) && Distinct(rest + [at]) && |rest| < WINDOW_SIZE && e.MessageID == at.MessageID
    ensures NextWindow(rest + [at], e) == rest + [e]
    ensures e.Event == CREATE_EVENT ==>
              (AllNormal(rest + [e]) <==> |rest| == WINDOW_SIZE - 1 && forall i :: 0 <= i < |rest| ==>
                rest[i].Event == CREATE_EVENT)
  {
    if AllNormal(rest + [e]) {
      forall i | 0 <= i < |rest| ensures rest[i].Event == CREATE_EVENT {
        assert (rest + [e])[i] == rest[i];
      }
    }
    forall i | 0 <= i < |rest| ensures rest[i].MessageID != e.MessageID && rest[i].MessageID != [] {
      assert (rest + [at])[i] == rest[i] && (rest + [at])[|rest|] == at;
    }
    WithoutAbsent(rest, e.MessageID);
    assert (rest + [at])[..|rest|] == rest;
  }

  lemma OtherMessageNext(rest: seq<Entry>, at: Entry, e: Entry)
    requires at.MessageID != [] && at.Event != CREATE_EVENT && e.MessageID != at.MessageID
    ensures !AllNormal(NextWindow(rest + [at], e))
  {
    assert (rest + [at])[..|rest|] == rest;
    var next := Without(rest, e.MessageID) + [at] + [e];
    assert LastTen(next)[|LastTen(next)| - 2] == at;
  }

  lemma {:induction false} WindowOfDistinct(p: seq<Entry>)
    requires Named(p) && Distinct(p) && |p| <= WINDOW_SIZE
    ensures Window(p) == p
  {
    if p != [] {
      var n := |p| - 1;
      WindowOfDistinct(p[..n]);
      assert !Redelivered(p[..n], p[n].MessageID);
      WithoutAbsent(p[..n], p[n].MessageID);
      assert p == p[..n] + [p[n]];
    }
  }

  ghost function NineNormal(): (p: seq<Entry>)
    ensures |p| == 9 && Named(p) && Distinct(p)
  {
    seq(9, i requires 0 <= i < 9 => Entry([i], CREATE_EVENT))
  }

  /** Ten new messages are not always needed: after nine normal messages and an AT message,
      the AT message delivered again as a normal one is enough. */
  lemma OneMessageCanBeEnough()
    ensures var h := NineNormal() + [Entry([9], AT_EVENT)];
            && !Replay(false, h).Permitted
            && Replay(false, h + [Entry([9], CREATE_EVENT)]).Permitted
            && |NormalIds([Entry([9], CREATE_EVENT)])| == 1
  {
    var p, at, e := NineNormal(), Entry([9], AT_EVENT), Entry([9], CREATE_EVENT);
    var h := p + [at];
    assert h[..9] == p;
    WindowOfDistinct(h);
    AfterOther(false, p, at, e);
    ImmediateReturnIff(false, p, at, e);
    var again := [e];
    assert again[0] == e;
    assert NormalIds(again) == {e.MessageID};
  }
}
