/** The byte order in which a bbolt bucket keeps its keys, and the cursor calls on it. */
module ByteOrder {
  import opened Strings

  predicate Leq(a: string, b: string) {
    a == "" || (b != "" && (a[0] < b[0] || (a[0] == b[0] && Leq(a[1..], b[1..]))))
  }

  lemma {:induction false} LeqReflexive(a: string)
    ensures Leq(a, a)
  {
    if a != "" {
      LeqReflexive(a[1..]);
    }
  }

  lemma {:induction false} LeqTotal(a: string, b: string)
    ensures Leq(a, b) || Leq(b, a)
  {
    if a != "" && b != "" {
      LeqTotal(a[1..], b[1..]);
    }
  }

  lemma {:induction false} LeqAntisymmetric(a: string, b: string)
    requires Leq(a, b) && Leq(b, a)
    ensures a == b
  {
    if a != "" && b != "" {
      LeqAntisymmetric(a[1..], b[1..]);
      assert a == [a[0]] + a[1..] && b == [b[0]] + b[1..];
    }
  }

  lemma {:induction false} LeqTransitive(a: string, b: string, c: string)
    requires Leq(a, b) && Leq(b, c)
    ensures Leq(a, c)
  {
    if a != "" && a[0] == b[0] == c[0] {
      LeqTransitive(a[1..], b[1..], c[1..]);
    }
  }

  lemma {:induction false} LeqBehind(p: string, a: string, b: string)
    ensures Leq(p + a, p + b) <==> Leq(a, b)
  {
    if p == "" {
      assert p + a == a && p + b == b;
    } else {
      assert (p + a)[1..] == p[1..] + a && (p + b)[1..] == p[1..] + b;
      LeqBehind(p[1..], a, b);
    }
  }

  /** A key with prefix p does not come before p. */
  lemma {:induction false} PrefixedNotBefore(p: string, k: string)
    requires p <= k
    ensures Leq(p, k)
  {
    if p != "" {
      PrefixedNotBefore(p[1..], k[1..]);
    }
  }

  /** The keys with prefix p stand together: once a key at or after p lacks the prefix, no
      later key has it. */
  lemma {:induction false} PrefixedStandTogether(p: string, k: string, later: string)
    requires Leq(p, k) && !(p <= k) && Leq(k, later)
    ensures !(p <= later)
  {
    if p != "" && p <= later && p[0] == k[0] == later[0] {
      PrefixedStandTogether(p[1..], k[1..], later[1..]);
    }
  }

  /** k is the first key at which a cursor looking from `from` on stops. */
  ghost predicate IsFirst(keys: set<string>, from: string, after: bool, k: Option<string>) {
    match k
    case None => forall x :: x in keys ==> !Follows(from, after, x)
    case Some(y) => y in keys && Follows(from, after, y) && forall x :: x in keys && Follows(from, after, x) ==>
      Leq(y, x)
  }

  predicate Follows(from: string, after: bool, x: string) {
    Leq(from, x) && (after ==> x != from)
  }

  /** Stands for the cursor calls Seek (after == false) and Next (after == true). */
  method First(keys: set<string>, from: string, after: bool) returns (k: Option<string>)
    ensures IsFirst(keys, from, after, k)
  {
    k := None;
    var rest := keys;
    ghost var done: set<string> := {};
    while rest != {}
      invariant rest + done == keys && rest !! done
      invariant IsFirst(done, from, after, k)
    {
      var x :| x in rest;
      rest, done := rest - {x}, done + {x};
      if Follows(from, after, x) && (k.None? || Leq(x, k.value)) {
        if k.Some? {
          forall y | y in done && Follows(from, after, y) ensures Leq(x, y) {
            if y != x {
              LeqTransitive(x, k.value, y);
            } else {
              LeqReflexive(x);
            }
          }
        } else {
          LeqReflexive(x);
        }
        k := Some(x);
      } else if k.Some? {
        LeqTotal(x, k.value);
      }
    }
    assert done == keys;
  }

  // ---- walking a cursor over the keys with a prefix

  ghost function Prefixed(keys: set<string>, prefix: string): set<string> {
    set s | s in keys && prefix <= s
  }

  /** The walk stands at k and has listed the prefixed keys before it. */
  ghost predicate Walked(keys: set<string>, prefix: string, k: Option<string>, listed: set<string>) {
    && (k.Some? ==> k.value in keys && Leq(prefix, k.value))
    && listed == set s | s in keys && prefix <= s && (k.None? || !Leq(k.value, s))
  }

  lemma WalkStart(keys: set<string>, prefix: string, k: Option<string>)
    requires IsFirst(keys, prefix, false, k)
    ensures Walked(keys, prefix, k, {})
  {
    forall s | s in keys && prefix <= s ensures k.Some? && Leq(k.value, s) {
      PrefixedNotBefore(prefix, s);
      assert Follows(prefix, false, s);
    }
  }

  lemma WalkStep(keys: set<string>, prefix: string, k: Option<string>, listed: set<string>, next: Option<string>)
    requires Walked(keys, prefix, k, listed) && k.Some? && prefix <= k.value
    requires IsFirst(keys, k.value, true, next)
    ensures Walked(keys, prefix, next, listed + {k.value}) && k.value !in listed
  {
    LeqReflexive(k.value);
    if next.Some? {
      LeqTransitive(prefix, k.value, next.value);
    }
    forall s | s in keys && prefix <= s
      ensures s in listed + {k.value} <==> next.None? || !Leq(next.value, s)
    {
      assert Follows(k.value, true, s) <==> Leq(k.value, s) && s != k.value;
      LeqTotal(k.value, s);
      if next.Some? && Leq(next.value, s) {
        LeqTransitive(k.value, next.value, s);
        if s == k.value {
          LeqAntisymmetric(next.value, k.value);
        }
      }
    }
  }

  lemma WalkEnd(keys: set<string>, prefix: string, k: Option<string>, listed: set<string>)
    requires Walked(keys, prefix, k, listed) && (k.None? || !(prefix <= k.value))
    ensures listed == Prefixed(keys, prefix)
  {
    forall s | s in Prefixed(keys, prefix) ensures s in listed {
      if k.Some? && Leq(k.value, s) {
        PrefixedStandTogether(prefix, k.value, s);
      }
    }
  }

  /** What the walk finds at its very start tells whether any key has the prefix. */
  lemma FirstTellsPresence(keys: set<string>, prefix: string, k: Option<string>)
    requires IsFirst(keys, prefix, false, k)
    ensures k.Some? && prefix <= k.value <==> exists s :: s in keys && prefix <= s
  {
    WalkStart(keys, prefix, k);
    if k.None? || !(prefix <= k.value) {
      WalkEnd(keys, prefix, k, {});
      forall s | s in keys ensures !(prefix <= s) {
        assert s !in Prefixed(keys, prefix);
      }
    }
  }
}
