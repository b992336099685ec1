/** When permission comes back after an AT event (idmap/qq_group_receive_state.go): the exact
    condition, for any run of normal messages that follows. */
module ReceiveReturn {
  import Strings
  import Wire
  import opened ReceiveWire
  import opened ReceiveState

  /** The entries whose message does not come in c. */
  ghost function NotIn(s: seq<Entry>, c: seq<Entry>): seq<Entry> {
    if s == [] then []
    else (if Redelivered(c, s[0].MessageID) then [] else [s[0]]) + NotIn(s[1..], c)
  }

  lemma {:induction false} NotInSnoc(s: seq<Entry>, c: seq<Entry>, e: Entry)
    requires Named(s)
    ensures NotIn(s, c + [e]) == Without(NotIn(s, c), e.MessageID)
  {
    if s != [] {
      NotInSnoc(s[1..], c, e);
      RedeliveredSnoc(c, e, s[0].MessageID);
      if Redelivered(c, s[0].MessageID) {
        assert [] + NotIn(s[1..], c) == NotIn(s[1..], c);
      } else {
        WithoutCons(s[0], NotIn(s[1..], c), e.MessageID);
      }
    }
  }

  lemma {:induction false} NotInNothing(s: seq<Entry>)
    ensures NotIn(s, []) == s
  {
    if s != [] {
      NotInNothing(s[1..]);
      assert !Redelivered([], s[0].MessageID);
    }
  }

  /** The latest events of a longer history: those from before whose message does not come
      again, then the latest of the new ones. */
  lemma {:induction false} LatestConcat(h: seq<Entry>, c: seq<Entry>)
    requires Named(h) && Named(c)
    ensures Latest(h + c) == NotIn(Latest(h), c) + Latest(c)
    decreases |c|
  {
    LatestDistinct(h);
    if c == [] {
      assert h + c == h;
      NotInNothing(Latest(h));
    } else {
      var n := |c| - 1;
      var early, e := c[..n], c[n];
      assert c == early + [e] && h + c == (h + early) + [e];
      LatestConcat(h, early);
      LatestSnoc(h + early, e);
      LatestSnoc(early, e);
      NotInSnoc(Latest(h), early, e);
      WithoutConcat(NotIn(Latest(h), early), Latest(early), e.MessageID);
      Strings.Associative(NotIn(Latest(h), c), Without(Latest(early), e.MessageID), [e]);
    }
  }

  ghost predicate AllNormalEvents(c: seq<Entry>) {
    forall i :: 0 <= i < |c| ==> c[i].Event == CREATE_EVENT
  }

  /** The last m entries are there and normal. */
  ghost predicate NormalTail(s: seq<Entry>, m: nat) {
    |s| >= m && forall i :: |s| - m <= i < |s| ==> s[i].Event == CREATE_EVENT
  }

  /** How many entries from before it takes to fill the window. */
  ghost function Lacking(c: seq<Entry>): nat {
    if |Latest(c)| >= WINDOW_SIZE then 0 else WINDOW_SIZE - |Latest(c)|
  }

  lemma TenNormal(s: seq<Entry>)
    ensures AllNormal(LastTen(s)) <==> NormalTail(s, WINDOW_SIZE)
  {
    var ten := LastTen(s);
    if |s| >= WINDOW_SIZE {
      assert ten == s[|s| - WINDOW_SIZE..];
      assert forall j :: |s| - WINDOW_SIZE <= j < |s| ==> s[j] == ten[j - (|s| - WINDOW_SIZE)];
    }
  }

  /** Normal entries at the end are taken as they are. */
  lemma TailOfBoth(rest: seq<Entry>, added: seq<Entry>, m: nat)
    requires AllNormalEvents(added)
    ensures NormalTail(rest + added, m) <==> NormalTail(rest, if |added| >= m then 0 else m - |added|)
  {
    var all := rest + added;
    assert forall j :: 0 <= j < |rest| ==> all[j] == rest[j];
    assert forall j :: |rest| <= j < |all| ==> all[j] == added[j - |rest|];
  }

  /** After any history, a run c of normal messages makes the window all normal if and only if
      the history's latest events, without those whose message came again, end in as many normal
      ones as c lacks to ten. */
  lemma WindowNormalIff(h: seq<Entry>, c: seq<Entry>)
    requires Named(h) && Named(c) && AllNormalEvents(c)
    ensures AllNormal(Window(h + c)) <==> NormalTail(NotIn(Latest(h), c), Lacking(c))
  {
    WindowIsLastTen(h + c);
    LatestConcat(h, c);
    LatestDistinct(c);
    forall i | 0 <= i < |Latest(c)| ensures Latest(c)[i].Event == CREATE_EVENT {
      assert Latest(c)[i] in c;
    }
    TenNormal(Latest(h + c));
    TailOfBoth(NotIn(Latest(h), c), Latest(c), WINDOW_SIZE);
  }

  /** An all-normal window stays all normal while normal messages come. */
  lemma NormalStays(w: seq<Entry>, e: Entry)
    requires Named(w) && Distinct(w) && AllNormal(w) && e.Event == CREATE_EVENT
    ensures AllNormal(NextWindow(w, e))
  {
    WithoutDistinct(w, e.MessageID);
    forall x | x in Without(w, e.MessageID) ensures x.Event == CREATE_EVENT {
      WithoutMembers(w, e.MessageID, x);
    }
    var all := Without(w, e.MessageID) + [e];
    assert forall i :: 0 <= i < |all| ==> all[i].Event == CREATE_EVENT;
  }

  lemma {:induction false} NormalThrough(h: seq<Entry>, k: nat)
    requires Named(h) && 0 < k <= |h| && AllNormal(Window(h[..k])) && OnlyNormalFrom(h, k)
    ensures AllNormal(Window(h))
    decreases |h| - k
  {
    if k < |h| {
      assert h[..k + 1][..k] == h[..k] && h[..k + 1][k] == h[k];
      WindowIsLastTen(h[..k]);
      NormalStays(Window(h[..k]), h[k]);
      NormalThrough(h, k + 1);
    } else {
      assert h[..k] == h;
    }
  }

  /** Permission after an AT event and any run of normal messages: exactly the condition above.
      Messages delivered again count for the window, and entries from before the AT event too. */
  lemma PermissionReturnsIff(loaded: bool, p: seq<Entry>, at: Entry, c: seq<Entry>)
    requires Named(p) && at.MessageID != [] && at.Event != CREATE_EVENT && Named(c) && AllNormalEvents(c)
    ensures Replay(loaded, p + [at] + c).Permitted <==> NormalTail(NotIn(Latest(p + [at]), c), Lacking(c))
  {
    var h := p + [at] + c;
    PermittedIff(loaded, h);
    WindowNormalIff(p + [at], c);
    assert h[|p|] == at;
    if Earned(h) {
      var k :| EarnedAt(h, k);
      NormalThrough(h, k);
    }
    if AllNormal(Window(h)) {
      EarnedAtEnd(h);
    }
  }

  /** The messages that come are counted by their latest events. */
  lemma {:induction false} LatestCounts(c: seq<Entry>)
    requires Named(c) && AllNormalEvents(c)
    ensures |Latest(c)| == |NormalIds(c)|
  {
    if c != [] {
      LatestCounts(c[1..]);
      assert c == [c[0]] + c[1..];
      var id := c[0].MessageID;
      assert NormalIds(c) == NormalIds(c[1..]) + {id} by {
        forall i | 0 <= i < |c| ensures c[i].MessageID in NormalIds(c[1..]) + {id} {
          assert i > 0 ==> c[i] == c[1..][i - 1];
        }
        forall i | 0 <= i < |c| - 1 ensures c[1..][i].MessageID in NormalIds(c) {
          assert c[1..][i] == c[i + 1];
        }
      }
      assert Redelivered(c[1..], id) <==> id in NormalIds(c[1..]);
    }
  }

  /** The AT event counts as long as its message does not come again. */
  lemma AfterAt(p: seq<Entry>, at: Entry, c: seq<Entry>) returns (rest: seq<Entry>)
    requires Named(p) && at.MessageID != []
    ensures NotIn(Latest(p + [at]), c) == if Redelivered(c, at.MessageID) then NotIn(Latest(p), c) else rest + [at]
  {
    LatestDistinct(p);
    LatestSnoc(p, at);
    rest := NotIn(Without(Latest(p), at.MessageID), c);
    NotInConcat(Without(Latest(p), at.MessageID), [at], c);
    assert NotIn([at], c) == if Redelivered(c, at.MessageID) then [] else [at];
    if Redelivered(c, at.MessageID) {
      NotInAgain(Latest(p), c, at.MessageID);
      assert rest + [] == rest;
    }
  }

  lemma LastSpoils(rest: seq<Entry>, at: Entry, m: nat)
    requires at.Event != CREATE_EVENT && m > 0
    ensures !NormalTail(rest + [at], m)
  {
    assert (rest + [at])[|rest|] == at;
  }

  /** Fewer than ten different new messages bring permission back if and only if the AT message
      is one of them and enough normal events from before stand at the end of the history. */
  lemma FewerThanTenIff(loaded: bool, p: seq<Entry>, at: Entry, c: seq<Entry>)
    requires Named(p) && at.MessageID != [] && at.Event != CREATE_EVENT && Named(c) && AllNormalEvents(c)
    requires |NormalIds(c)| < 10
    ensures Replay(loaded, p + [at] + c).Permitted <==>
            Redelivered(c, at.MessageID) && NormalTail(NotIn(Latest(p), c), 10 - |NormalIds(c)|)
  {
    LatestCounts(c);
    PermissionReturnsIff(loaded, p, at, c);
    var rest := AfterAt(p, at, c);
    if !Redelivered(c, at.MessageID) {
      LastSpoils(rest, at, WINDOW_SIZE - |NormalIds(c)|);
    }
  }

  lemma {:induction false} NotInConcat(a: seq<Entry>, b: seq<Entry>, c: seq<Entry>)
    ensures NotIn(a + b, c) == NotIn(a, c) + NotIn(b, c)
  {
    if a == [] {
      assert a + b == b;
    } else {
      assert (a + b)[1..] == a[1..] + b;
      NotInConcat(a[1..], b, c);
    }
  }

  /** Removing a message that comes in c first makes no difference. */
  lemma {:induction false} NotInAgain(s: seq<Entry>, c: seq<Entry>, id: Wire.Bytes)
    requires Named(s) && Redelivered(c, id)
    ensures NotIn(Without(s, id), c) == NotIn(s, c)
  {
    if s != [] {
      assert s == [s[0]] + s[1..];
      WithoutCons(s[0], s[1..], id);
      NotInAgain(s[1..], c, id);
      NotInConcat(if s[0].MessageID == id then [] else [s[0]], Without(s[1..], id), c);
    }
  }
}
