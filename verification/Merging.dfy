/** Merging overlapping replacements and splicing them into a text, as done in
    acnode/acnode.go. */
module Merging {

  datatype Replacement = Replacement(Start: int, End: int, Text: string)

  ghost predicate Comes(a: Replacement, b: Replacement) {
    a.Start < b.Start || (a.Start == b.Start && a.End >= b.End)
  }

  ghost predicate Sorted(s: seq<Replacement>) {
    forall j, k :: 0 <= j < k < |s| ==> Comes(s[j], s[k])
  }

  ghost predicate Inside(r: Replacement, m: Replacement) {
    m.Start <= r.Start && r.End <= m.End
  }

  /** x and x + 1 both belong to r. */
  ghost predicate Bridges(r: Replacement, x: int) {
    r.Start <= x < r.End
  }

  ghost predicate Bridged(input: set<Replacement>, x: int) {
    exists r :: r in input && Bridges(r, x)
  }

  ghost predicate Held(merged: seq<Replacement>, r: Replacement) {
    exists k :: 0 <= k < |merged| && Inside(r, merged[k])
  }

  /** r is the longest of the replacements that end where it ends. */
  ghost predicate LongestAtEnd(input: set<Replacement>, r: Replacement) {
    r in input && forall q :: q in input && q.End == r.End ==> r.Start <= q.Start
  }

  ghost predicate Disjoint(merged: seq<Replacement>) {
    && (forall k :: 0 <= k < |merged| ==> merged[k].Start <= merged[k].End)
    && (forall j, k :: 0 <= j < k < |merged| ==> merged[j].End < merged[k].Start)
  }

  /** m covers what its inputs cover, without a gap, and carries the text of the last of them. */
  ghost predicate IsRun(input: set<Replacement>, m: Replacement) {
    && (exists r :: r in input && r.Start == m.Start)
    && (exists r :: LongestAtEnd(input, r) && r.End == m.End && r.Text == m.Text)
    && (forall x :: m.Start <= x < m.End ==> Bridged(input, x))
  }

  /** merged lists the connected components of the input under overlap, from left to right. */
  ghost predicate IsMerge(input: set<Replacement>, merged: seq<Replacement>) {
    && Disjoint(merged)
    && (forall r {:trigger Held(merged, r)} :: r in input ==> Held(merged, r))
    && (forall k {:trigger IsRun(input, merged[k])} :: 0 <= k < |merged| ==> IsRun(input, merged[k]))
  }

  // ---- sorting

  function InsertSorted(r: Replacement, s: seq<Replacement>): (t: seq<Replacement>)
    ensures multiset(t) == multiset([r]) + multiset(s)
  {
    if s == [] || r.Start < s[0].Start || (r.Start == s[0].Start && r.End >= s[0].End) then [r] + s
    else
      assert s == [s[0]] + s[1..];
      [s[0]] + InsertSorted(r, s[1..])
  }

  lemma {:induction false} InsertSortedSorted(r: Replacement, s: seq<Replacement>)
    requires Sorted(s)
    ensures Sorted(InsertSorted(r, s))
  {
    if !(s == [] || r.Start < s[0].Start || (r.Start == s[0].Start && r.End >= s[0].End)) {
      InsertSortedSorted(r, s[1..]);
      var t := InsertSorted(r, s[1..]);
      forall k | 0 <= k < |t| ensures Comes(s[0], t[k]) {
        assert t[k] in multiset(t);
        assert t[k] == r || t[k] in s[1..];
      }
    }
  }

  /** Stands for the library call sort.Slice: only the order and the permutation are promised,
      so nothing below depends on how equal elements are arranged. */
  method SortByStart(a: array<Replacement>)
    modifies a
    ensures Sorted(a[..]) && multiset(a[..]) == multiset(old(a[..]))
  {
    ghost var input := a[..];
    var s: seq<Replacement> := [];
    for i := 0 to a.Length
      invariant a[..] == input && Sorted(s) && |s| == i && multiset(s) == multiset(input[..i])
    {
      InsertSortedSorted(a[i], s);
      assert input[..i + 1] == input[..i] + [a[i]];
      s := InsertSorted(a[i], s);
      assert |multiset(s)| == i + 1;
    }
    assert input == input[..a.Length];
    CopyInto(s, a);
  }

  method CopyInto(s: seq<Replacement>, a: array<Replacement>)
    requires |s| == a.Length
    modifies a
    ensures a[..] == s
  {
    for i := 0 to a.Length
      invariant a[..i] == s[..i]
    {
      a[i] := s[i];
    }
  }

  ghost function Members(s: seq<Replacement>): set<Replacement> {
    set r | r in s
  }

  lemma MembersOfPermutation(s: seq<Replacement>, t: seq<Replacement>)
    requires multiset(s) == multiset(t)
    ensures Members(s) == Members(t)
  {
    assert forall r :: r in s <==> r in multiset(s);
    assert forall r :: r in t <==> r in multiset(t);
  }

  // ---- merging

  lemma EndsByLast(read: set<Replacement>, merged: seq<Replacement>)
    requires IsMerge(read, merged) && merged != []
    ensures forall r :: r in read ==> r.End <= merged[|merged| - 1].End
  {
    forall r | r in read ensures r.End <= merged[|merged| - 1].End {
      assert Held(merged, r);
      var k :| 0 <= k < |merged| && Inside(r, merged[k]);
    }
  }

  /** The merge loop's body, as a step from the runs of the elements read so far. */
  lemma MergeStep(read: set<Replacement>, merged: seq<Replacement>, c: Replacement, next: seq<Replacement>)
    requires IsMerge(read, merged) && merged != [] && c.Start <= c.End
    requires forall r :: r in read ==> Comes(r, c)
    requires var last := merged[|merged| - 1];
             next == if c.Start > last.End then merged + [c]
                     else if c.End > last.End then merged[..|merged| - 1] + [Replacement(last.Start, c.End, c.Text)]
                     else merged
    ensures IsMerge(read + {c}, next)
  {
    var n, last := |merged| - 1, merged[|merged| - 1];
    assert IsRun(read, last);
    EndsByLast(read, merged);
    assert last.Start <= c.Start;
    DisjointKept(merged, c, next);
    CoverKept(read, merged, c, next);
    forall k {:trigger IsRun(read + {c}, next[k])} | 0 <= k < |next| ensures IsRun(read + {c}, next[k]) {
      if k < |merged| && next[k] == merged[k] {
        assert IsRun(read, merged[k]);
        RunKept(read, merged[k], c, last.End);
      } else {
        RunExtended(read, last, c, next[k]);
      }
    }
  }

  lemma DisjointKept(merged: seq<Replacement>, c: Replacement, next: seq<Replacement>)
    requires Disjoint(merged) && merged != [] && merged[|merged| - 1].Start <= c.Start <= c.End
    requires var last := merged[|merged| - 1];
             next == if c.Start > last.End then merged + [c]
                     else if c.End > last.End then merged[..|merged| - 1] + [Replacement(last.Start, c.End, c.Text)]
                     else merged
    ensures Disjoint(next) && |merged| <= |next|
    ensures forall k :: 0 <= k < |merged| - 1 ==> next[k] == merged[k]
  {
  }

  lemma CoverKept(read: set<Replacement>, merged: seq<Replacement>, c: Replacement, next: seq<Replacement>)
    requires forall r {:trigger Held(merged, r)} :: r in read ==> Held(merged, r)
    requires |merged| <= |next| && forall k :: 0 <= k < |merged| ==> Inside(merged[k], next[k])
    requires next != [] && Inside(c, next[|next| - 1])
    ensures forall r {:trigger Held(next, r)} :: r in read + {c} ==> Held(next, r)
  {
    forall r | r in read ensures Held(next, r) {
      assert Held(merged, r);
      var k :| 0 <= k < |merged| && Inside(r, merged[k]);
      assert Inside(r, next[k]);
    }
  }

  lemma RunKept(read: set<Replacement>, m: Replacement, c: Replacement, top: int)
    requires IsRun(read, m) && m.End <= top
    requires forall r :: r in read ==> Comes(r, c)
    ensures IsRun(read + {c}, m)
  {
    var r :| LongestAtEnd(read, r) && r.End == m.End && r.Text == m.Text;
    assert LongestAtEnd(read + {c}, r);
    forall x | m.Start <= x < m.End ensures Bridged(read + {c}, x) {
      assert Bridged(read, x);
    }
  }

  lemma RunExtended(read: set<Replacement>, last: Replacement, c: Replacement, m: Replacement)
    requires IsRun(read, last) && last.Start <= c.Start <= c.End && last.End < c.End
    requires forall r :: r in read ==> r.End <= last.End
    requires m == if c.Start > last.End then c else Replacement(last.Start, c.End, c.Text)
    ensures IsRun(read + {c}, m)
  {
    var all := read + {c};
    assert LongestAtEnd(all, c);
    forall x | m.Start <= x < m.End ensures Bridged(all, x) {
      if c.Start <= x {
        assert Bridges(c, x);
      } else {
        assert Bridged(read, x);
      }
    }
  }

  lemma MergeOfOne(r: Replacement)
    requires r.Start <= r.End
    ensures IsMerge({r}, [r])
  {
    assert LongestAtEnd({r}, r);
    assert Inside(r, [r][0]);
    forall x | r.Start <= x < r.End ensures Bridged({r}, x) {
      assert Bridges(r, x);
    }
  }

  method MergeOverlapping(replacements: array<Replacement>) returns (merged: seq<Replacement>)
    requires forall k :: 0 <= k < replacements.Length ==> replacements[k].Start <= replacements[k].End
    modifies replacements
    ensures IsMerge(old(Members(replacements[..])), merged)
  {
    if replacements.Length == 0 {
      return [];
    }
    ghost var input := replacements[..];
    assert forall r :: r in Members(input) ==> r.Start <= r.End;
    SortByStart(replacements);
    ghost var sorted := replacements[..];
    MembersOfPermutation(sorted, input);
    assert forall k :: 0 <= k < |sorted| ==> sorted[k] in Members(sorted);
    merged := [replacements[0]];
    MergeOfOne(replacements[0]);
    assert Members(sorted[..1]) == {sorted[0]};
    for i := 1 to replacements.Length
      invariant replacements[..] == sorted && merged != [] && IsMerge(Members(sorted[..i]), merged)
    {
      var current, last := replacements[i], merged[|merged| - 1];
      ghost var was := merged;
      if current.Start <= last.End {
        if current.End > last.End {
          merged := merged[..|merged| - 1] + [last.(End := current.End, Text := current.Text)];
        }
      } else {
        merged := merged + [current];
      }
      MergeStep(Members(sorted[..i]), was, current, merged);
      assert Members(sorted[..i + 1]) == Members(sorted[..i]) + {current};
    }
    assert sorted[..replacements.Length] == sorted;
  }
}
