/** The parent of each key in an indented text: the indentation stack of config/config.go
    finds the nearest earlier key line with a smaller indentation. */
module ConfigParents {
  import opened Strings
  import opened ConfigLines

  // ---- the parent of a line

  predicate HasKey(rows: seq<Row>, i: int) {
    0 <= i < |rows| && rows[i].key.Some?
  }

  /** Among the first n lines, the last key line indented less than d. */
  function NearestAbove(rows: seq<Row>, n: nat, d: nat): (r: Option<nat>)
    requires n <= |rows|
    ensures r.Some? ==> r.value < n && HasKey(rows, r.value) && rows[r.value].indent < d
    ensures forall j :: (if r.Some? then r.value else -1) < j < n && HasKey(rows, j) ==> rows[j].indent >= d
  {
    if n == 0 then None
    else if HasKey(rows, n - 1) && rows[n - 1].indent < d then Some(n - 1)
    else NearestAbove(rows, n - 1, d)
  }

  function ParentOf(rows: seq<Row>, i: nat): Option<string>
    requires i < |rows|
  {
    match NearestAbove(rows, i, rows[i].indent)
    case None => None
    case Some(j) => rows[j].key
  }

  /** Line i has the given key and a parent. */
  predicate Parented(rows: seq<Row>, i: int, key: string) {
    0 <= i < |rows| && rows[i].key == Some(key) && ParentOf(rows, i).Some?
  }

  function ParentsUpTo(rows: seq<Row>, n: nat): map<string, string>
    requires n <= |rows|
  {
    if n == 0 then map[]
    else
      var before := ParentsUpTo(rows, n - 1);
      if HasKey(rows, n - 1) && ParentOf(rows, n - 1).Some? then
        before[rows[n - 1].key.value := ParentOf(rows, n - 1).value]
      else before
  }

  function ParentMap(rows: seq<Row>): map<string, string> {
    ParentsUpTo(rows, |rows|)
  }

  predicate LastParented(rows: seq<Row>, n: nat, key: string, i: nat) {
    i < n <= |rows| && Parented(rows, i, key) && forall j :: i < j < n ==> !Parented(rows, j, key)
  }

  /** A key is mapped if one of its lines has a parent, and the last such line decides. */
  lemma {:induction false} MappedByLast(rows: seq<Row>, n: nat, key: string) returns (i: nat)
    requires n <= |rows|
    ensures key !in ParentsUpTo(rows, n) ==> forall j :: 0 <= j < n ==> !Parented(rows, j, key)
    ensures key in ParentsUpTo(rows, n) ==>
      LastParented(rows, n, key, i) && ParentOf(rows, i) == Some(ParentsUpTo(rows, n)[key])
  {
    if n == 0 {
      i := 0;
    } else if Parented(rows, n - 1, key) {
      i := n - 1;
    } else {
      i := MappedByLast(rows, n - 1, key);
    }
  }

  // ---- the stack

  datatype IndentKey = IndentKey(indent: nat, key: string)

  /** The stack holds the key lines `held`, in order. */
  ghost predicate Holds(rows: seq<Row>, stack: seq<IndentKey>, held: seq<nat>, n: nat) {
    && |held| == |stack|
    && (forall x :: 0 <= x < |held| ==>
          held[x] < n <= |rows| && rows[held[x]].key == Some(stack[x].key) && rows[held[x]].indent == stack[x].indent)
    && (forall x, y :: 0 <= x < y < |held| ==> held[x] < held[y])
  }

  ghost predicate CoveredAt(stack: seq<IndentKey>, held: seq<nat>, j: nat, d: nat, x: nat) {
    x < |held| == |stack| && held[x] >= j && stack[x].indent <= d
  }

  /** Line j is held, or a later line that is indented no deeper is. */
  ghost predicate Covered(stack: seq<IndentKey>, held: seq<nat>, j: nat, d: nat) {
    exists x: nat :: CoveredAt(stack, held, j, d, x)
  }

  ghost predicate AllCovered(rows: seq<Row>, stack: seq<IndentKey>, held: seq<nat>, n: nat) {
    n <= |rows| && forall j: nat {:trigger HasKey(rows, j)} :: j < n && HasKey(rows, j) ==>
      Covered(stack, held, j, rows[j].indent)
  }

  /** What is left on top after popping is the nearest line with a smaller indentation. */
  lemma TopIsNearest(rows: seq<Row>, stack: seq<IndentKey>, held: seq<nat>, n: nat, t: nat, d: nat)
    requires Holds(rows, stack, held, n) && AllCovered(rows, stack, held, n) && t <= |stack|
    requires forall x :: t <= x < |stack| ==> stack[x].indent >= d
    requires t > 0 ==> stack[t - 1].indent < d
    ensures NearestAbove(rows, n, d) == if t > 0 then Some(held[t - 1]) else None
  {
    if t > 0 {
      assert HasKey(rows, held[t - 1]);
    }
    var r := NearestAbove(rows, n, d);
    if r.Some? {
      var x: nat :| CoveredAt(stack, held, r.value, rows[r.value].indent, x);
      assert x < t;
      assert held[x] <= held[t - 1];
    }
  }

  lemma PushHolds(rows: seq<Row>, stack: seq<IndentKey>, held: seq<nat>, n: nat, t: nat)
    requires n < |rows| && Holds(rows, stack, held, n) && t <= |stack| && rows[n].key.Some?
    ensures Holds(rows, stack[..t] + [IndentKey(rows[n].indent, rows[n].key.value)], held[..t] + [n], n + 1)
  {
  }

  lemma PushCovers(rows: seq<Row>, stack: seq<IndentKey>, held: seq<nat>, n: nat, t: nat)
    requires n < |rows| && Holds(rows, stack, held, n) && AllCovered(rows, stack, held, n) && t <= |stack|
    requires rows[n].key.Some?
    requires forall x :: t <= x < |stack| ==> stack[x].indent >= rows[n].indent
    ensures AllCovered(rows, stack[..t] + [IndentKey(rows[n].indent, rows[n].key.value)], held[..t] + [n], n + 1)
  {
    var top := IndentKey(rows[n].indent, rows[n].key.value);
    forall j: nat {:trigger HasKey(rows, j)} | j < n + 1 && HasKey(rows, j)
      ensures Covered(stack[..t] + [top], held[..t] + [n], j, rows[j].indent)
    {
      if j == n {
        assert CoveredAt(stack[..t] + [top], held[..t] + [n], j, rows[j].indent, t);
      } else {
        var x: nat :| CoveredAt(stack, held, j, rows[j].indent, x);
        assert CoveredAt(stack[..t] + [top], held[..t] + [n], j, rows[j].indent, if x < t then x else t);
      }
    }
  }

  lemma SkipKeeps(rows: seq<Row>, stack: seq<IndentKey>, held: seq<nat>, n: nat)
    requires n < |rows| && Holds(rows, stack, held, n) && AllCovered(rows, stack, held, n) && rows[n].key.None?
    ensures Holds(rows, stack, held, n + 1) && AllCovered(rows, stack, held, n + 1)
  {
  }

  lemma NextParents(rows: seq<Row>, i: nat)
    requires i < |rows| && rows[i].key.Some?
    ensures ParentsUpTo(rows, i + 1) ==
            match NearestAbove(rows, i, rows[i].indent)
            case None => ParentsUpTo(rows, i)
            case Some(j) => ParentsUpTo(rows, i)[rows[i].key.value := rows[j].key.value]
  {
  }

  method PopDeeper(stack: seq<IndentKey>, indent: nat) returns (rest: seq<IndentKey>)
    ensures |rest| <= |stack| && rest == stack[..|rest|]
    ensures forall x :: |rest| <= x < |stack| ==> stack[x].indent >= indent
    ensures rest != [] ==> rest[|rest| - 1].indent < indent
  {
    rest := stack;
    while |rest| > 0 && rest[|rest| - 1].indent >= indent
      invariant |rest| <= |stack| && rest == stack[..|rest|]
      invariant forall x :: |rest| <= x < |stack| ==> stack[x].indent >= indent
    {
      rest := rest[..|rest| - 1];
    }
  }

  /** One line: pop what is indented as deep or deeper, record the parent, push. */
  method ReadKeyLine(ghost rows: seq<Row>, ghost i: nat, indent: nat, key: string, parentMap: map<string, string>,
      stack: seq<IndentKey>, ghost held: seq<nat>)
    returns (newMap: map<string, string>, newStack: seq<IndentKey>, ghost newHeld: seq<nat>)
    requires i < |rows| && rows[i] == Row(Some(key), indent) && parentMap == ParentsUpTo(rows, i)
    requires Holds(rows, stack, held, i) && AllCovered(rows, stack, held, i)
    ensures newMap == ParentsUpTo(rows, i + 1)
    ensures Holds(rows, newStack, newHeld, i + 1) && AllCovered(rows, newStack, newHeld, i + 1)
  {
    newMap := parentMap;
    newStack := PopDeeper(stack, indent);
    TopIsNearest(rows, stack, held, i, |newStack|, indent);
    NextParents(rows, i);
    PushHolds(rows, stack, held, i, |newStack|);
    PushCovers(rows, stack, held, i, |newStack|);
    newHeld := held[..|newStack|] + [i];
    if |newStack| > 0 {
      newMap := newMap[key := newStack[|newStack| - 1].key];
    }
    newStack := newStack + [IndentKey(indent, key)];
  }

  /** What the loop knows when it has read n lines. */
  ghost predicate ReadSoFar(lines: seq<string>, parentMap: map<string, string>, stack: seq<IndentKey>, n: nat) {
    exists held: seq<nat> :: ReadWith(lines, parentMap, stack, n, held)
  }

  ghost predicate ReadWith(lines: seq<string>, parentMap: map<string, string>, stack: seq<IndentKey>, n: nat,
      held: seq<nat>) {
    && n <= |lines| && parentMap == ParentsUpTo(Rows(lines), n)
    && Holds(Rows(lines), stack, held, n) && AllCovered(Rows(lines), stack, held, n)
  }

  lemma AllRead(lines: seq<string>, parentMap: map<string, string>, stack: seq<IndentKey>)
    requires ReadSoFar(lines, parentMap, stack, |lines|)
    ensures parentMap == ParentMap(Rows(lines))
  {
  }

  lemma NothingRead(lines: seq<string>)
    ensures ReadSoFar(lines, map[], [], 0)
  {
    assert ReadWith(lines, map[], [], 0, []);
  }

  method ReadLine(lines: seq<string>, i: nat, parentMap: map<string, string>, stack: seq<IndentKey>)
    returns (newMap: map<string, string>, newStack: seq<IndentKey>)
    requires i < |lines| && ReadSoFar(lines, parentMap, stack, i)
    ensures ReadSoFar(lines, newMap, newStack, i + 1)
  {
    ghost var rows := Rows(lines);
    ghost var held: seq<nat> :| ReadWith(lines, parentMap, stack, i, held);
    var key := ReadKey(lines[i]);
    if key.None? {
      SkipKeeps(rows, stack, held, i);
      assert ReadWith(lines, parentMap, stack, i + 1, held);
      return parentMap, stack;
    }
    ghost var newHeld;
    newMap, newStack, newHeld := ReadKeyLine(rows, i, Indent(lines[i]), key.value, parentMap, stack, held);
    assert ReadWith(lines, newMap, newStack, i + 1, newHeld);
  }

  method BuildParentKeyMap(templateContent: string) returns (parentMap: map<string, string>)
    ensures parentMap == ParentMap(Rows(Split(templateContent)))
  {
    parentMap := map[];
    var lines := Split(templateContent);
    var stack: seq<IndentKey> := [];
    NothingRead(lines);
    for i := 0 to |lines|
      invariant ReadSoFar(lines, parentMap, stack, i)
    {
      parentMap, stack := ReadLine(lines, i, parentMap, stack);
    }
    AllRead(lines, parentMap, stack);
  }

  // ---- climbing from a key to its parent, and so on

  /** At most n steps lead from the key to one without a parent. */
  predicate RootedIn(parents: map<string, string>, key: string, n: nat)
    decreases n
  {
    key !in parents || (n > 0 && RootedIn(parents, parents[key], n - 1))
  }

  ghost predicate Rooted(parents: map<string, string>, key: string) {
    exists n: nat :: RootedIn(parents, key, n)
  }

  predicate DistinctKeys(rows: seq<Row>) {
    forall i, j :: 0 <= i < j < |rows| && HasKey(rows, i) && HasKey(rows, j) ==> rows[i].key != rows[j].key
  }

  lemma {:induction false} RootedMore(parents: map<string, string>, key: string, n: nat, m: nat)
    requires RootedIn(parents, key, n) && n <= m
    ensures RootedIn(parents, key, m)
    decreases n
  {
    if key in parents {
      RootedMore(parents, parents[key], n - 1, m - 1);
    }
  }

  lemma {:induction false} LeastClimb(parents: map<string, string>, key: string, n: nat) returns (least: nat)
    requires RootedIn(parents, key, n)
    ensures least <= n && RootedIn(parents, key, least) && (least > 0 ==> !RootedIn(parents, key, least - 1))
  {
    if n > 0 && RootedIn(parents, key, n - 1) {
      least := LeastClimb(parents, key, n - 1);
    } else {
      least := n;
    }
  }

  /** A climb passes a different mapped key at every step. */
  lemma {:induction false} KeysOnClimb(parents: map<string, string>, key: string, n: nat) returns (keys: set<string>)
    requires RootedIn(parents, key, n) && (n > 0 ==> !RootedIn(parents, key, n - 1))
    ensures keys <= parents.Keys && |keys| == n && forall k :: k in keys ==> RootedIn(parents, k, n)
    decreases n
  {
    if n == 0 {
      keys := {};
    } else {
      var above := KeysOnClimb(parents, parents[key], n - 1);
      forall k | k in above ensures RootedIn(parents, k, n) {
        RootedMore(parents, k, n - 1, n);
      }
      assert key !in above;
      keys := above + {key};
    }
  }

  lemma {:induction false} SubsetSize(a: set<string>, b: set<string>)
    requires a <= b
    ensures |a| <= |b|
  {
    if a != {} {
      var k :| k in a;
      SubsetSize(a - {k}, b - {k});
    }
  }

  /** A climb that ends does so within as many steps as there are mapped keys. */
  lemma RootedIff(parents: map<string, string>, key: string)
    ensures Rooted(parents, key) <==> RootedIn(parents, key, |parents|)
  {
    if Rooted(parents, key) {
      var n: nat :| RootedIn(parents, key, n);
      var least := LeastClimb(parents, key, n);
      var keys := KeysOnClimb(parents, key, least);
      SubsetSize(keys, parents.Keys);
      RootedMore(parents, key, least, |parents|);
    }
  }

  lemma {:induction false} LineRooted(rows: seq<Row>, i: nat)
    requires DistinctKeys(rows) && HasKey(rows, i)
    ensures RootedIn(ParentMap(rows), rows[i].key.value, i)
  {
    var key := rows[i].key.value;
    var last := MappedByLast(rows, |rows|, key);
    if key in ParentMap(rows) {
      assert last == i;
      var j := NearestAbove(rows, i, rows[i].indent).value;
      LineRooted(rows, j);
      RootedMore(ParentMap(rows), rows[j].key.value, j, i - 1);
    }
  }

  /** With distinct keys every climb ends. */
  lemma DistinctKeysRooted(rows: seq<Row>, key: string)
    requires DistinctKeys(rows)
    ensures Rooted(ParentMap(rows), key)
  {
    var last := MappedByLast(rows, |rows|, key);
    if key in ParentMap(rows) {
      LineRooted(rows, last);
    } else {
      assert RootedIn(ParentMap(rows), key, 0);
    }
  }

  /** After n turns the climb is still at a key that has a parent. */
  predicate StillClimbing(parents: map<string, string>, key: string, n: nat)
    decreases n
  {
    key in parents && (n == 0 || StillClimbing(parents, parents[key], n - 1))
  }

  lemma {:induction false} ClimbingOrRooted(parents: map<string, string>, key: string, n: nat)
    ensures StillClimbing(parents, key, n) <==> !RootedIn(parents, key, n)
    decreases n
  {
    if key in parents && n > 0 {
      ClimbingOrRooted(parents, parents[key], n - 1);
    }
  }

  /** The climb goes on for ever exactly if it goes on for as many turns as there are mapped keys. */
  lemma EndlessClimbIff(parents: map<string, string>, key: string)
    ensures (forall n: nat :: StillClimbing(parents, key, n)) <==> !RootedIn(parents, key, |parents|)
  {
    RootedIff(parents, key);
    ClimbingOrRooted(parents, key, |parents|);
    forall n: nat | !Rooted(parents, key) ensures StillClimbing(parents, key, n) {
      ClimbingOrRooted(parents, key, n);
    }
  }

  lemma {:induction false} LoopNeverEnds(parents: map<string, string>, a: string, b: string, n: nat)
    requires a in parents && b in parents && parents[a] == b && parents[b] == a
    ensures !RootedIn(parents, a, n)
    decreases n
  {
    if n > 0 {
      LoopNeverEnds(parents, b, a, n - 1);
    }
  }

  lemma LoopUnrooted(parents: map<string, string>, a: string, b: string)
    requires a in parents && b in parents && parents[a] == b && parents[b] == a
    ensures !Rooted(parents, a)
  {
    forall n: nat ensures !RootedIn(parents, a, n) {
      LoopNeverEnds(parents, a, b, n);
    }
  }

  lemma {:induction false} IndentOfPadded(line: string, n: nat)
    requires n < |line| && line[n] != ' ' && line[n] != '\t' && forall i :: 0 <= i < n ==> line[i] == ' '
    ensures Indent(line) == n
  {
    if n > 0 {
      IndentOfPadded(line[1..], n - 1);
    }
  }

  /** The line of a key without a value, n blanks deep. */
  function Line(n: nat, key: string): string {
    seq(n, _ => ' ') + key + ":"
  }

  lemma RowOfLine(n: nat, key: string)
    requires IsName(key)
    ensures Row(KeyOf(Line(n, key)), Indent(Line(n, key))) == Row(Some(key), n)
  {
    var line := Line(n, key);
    assert line[n..] == key + ":" && line[n + |key|..] == ":" && line[n] == key[0];
    MatchIsKey(line, key, n);
    IndentOfPadded(line, n);
  }

  lemma RowsOfThree(a: string, b: string, c: string)
    ensures Rows([a, b, c]) == [Row(KeyOf(a), Indent(a)), Row(KeyOf(b), Indent(b)), Row(KeyOf(c), Indent(c))]
  {
  }
}
