/** The merged intervals are the connected components of the overlap relation. */
module Components {
  import opened Merging

  ghost predicate Overlap(a: Replacement, b: Replacement) {
    a.Start <= b.End && b.Start <= a.End
  }

  ghost predicate IsChain(input: set<Replacement>, path: seq<Replacement>) {
    && path != []
    && (forall k :: 0 <= k < |path| ==> path[k] in input)
    && (forall k :: 0 <= k < |path| - 1 ==> Overlap(path[k], path[k + 1]))
  }

  ghost predicate Linked(input: set<Replacement>, a: Replacement, b: Replacement) {
    exists path :: IsChain(input, path) && path[0] == a && path[|path| - 1] == b
  }

  ghost predicate SameRun(merged: seq<Replacement>, a: Replacement, b: Replacement) {
    exists k :: 0 <= k < |merged| && Inside(a, merged[k]) && Inside(b, merged[k])
  }

  ghost predicate NonEmpty(input: set<Replacement>) {
    forall r :: r in input ==> r.Start <= r.End
  }

  lemma {:induction false} ChainStaysInRun(input: set<Replacement>, merged: seq<Replacement>, path: seq<Replacement>,
      k: int)
    requires NonEmpty(input) && IsMerge(input, merged) && IsChain(input, path)
    requires 0 <= k < |merged| && Inside(path[0], merged[k])
    ensures Inside(path[|path| - 1], merged[k])
  {
    if |path| > 1 {
      assert Held(merged, path[1]);
      var j :| 0 <= j < |merged| && Inside(path[1], merged[j]);
      assert Overlap(path[0], path[1]);
      assert j == k;
      ChainStaysInRun(input, merged, path[1..], k);
    }
  }

  lemma Prepend(input: set<Replacement>, a: Replacement, b: Replacement, c: Replacement)
    requires a in input && Overlap(a, b) && Linked(input, b, c)
    ensures Linked(input, a, c)
  {
    var path :| IsChain(input, path) && path[0] == b && path[|path| - 1] == c;
    assert IsChain(input, [a] + path);
  }

  lemma {:induction false} RunIsLinked(input: set<Replacement>, m: Replacement, a: Replacement, b: Replacement)
    requires NonEmpty(input) && IsRun(input, m)
    requires a in input && b in input && Inside(a, m) && Inside(b, m)
    requires forall r {:trigger Overlap(r, m)} :: r in input && Overlap(r, m) ==> Inside(r, m)
    ensures Linked(input, a, b)
    decreases if a.End < b.Start then b.Start - a.End else if b.End < a.Start then a.Start - b.End else 0
  {
    if Overlap(a, b) {
      assert IsChain(input, [a, b]);
    } else {
      var x := if a.End < b.Start then a.End else a.Start - 1;
      assert Bridged(input, x);
      var r :| r in input && Bridges(r, x);
      assert Overlap(r, m);
      RunIsLinked(input, m, r, b);
      Prepend(input, a, r, b);
    }
  }

  lemma OverlapIsInside(input: set<Replacement>, merged: seq<Replacement>, k: int, r: Replacement)
    requires NonEmpty(input) && IsMerge(input, merged) && 0 <= k < |merged|
    requires r in input && Overlap(r, merged[k])
    ensures Inside(r, merged[k])
  {
    assert Held(merged, r);
    var j :| 0 <= j < |merged| && Inside(r, merged[j]);
    assert j == k;
  }

  /** Two replacements end up in the same merged interval exactly when a chain of
      overlapping replacements leads from one to the other. */
  lemma SameRunIffLinked(input: set<Replacement>, merged: seq<Replacement>, a: Replacement, b: Replacement)
    requires NonEmpty(input) && IsMerge(input, merged) && a in input && b in input
    ensures SameRun(merged, a, b) <==> Linked(input, a, b)
  {
    if SameRun(merged, a, b) {
      var k :| 0 <= k < |merged| && Inside(a, merged[k]) && Inside(b, merged[k]);
      forall r {:trigger Overlap(r, merged[k])} | r in input && Overlap(r, merged[k]) ensures Inside(r, merged[k]) {
        OverlapIsInside(input, merged, k, r);
      }
      assert IsRun(input, merged[k]);
      RunIsLinked(input, merged[k], a, b);
    }
    if Linked(input, a, b) {
      var path :| IsChain(input, path) && path[0] == a && path[|path| - 1] == b;
      assert Held(merged, a);
      var k :| 0 <= k < |merged| && Inside(a, merged[k]);
      ChainStaysInRun(input, merged, path, k);
    }
  }
}
