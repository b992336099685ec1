/** Repair passes that also append what the comparison of the parsed structures found: exactly
    when one pass leaves nothing wanted, whatever the iteration order. */
module ConfigReflected {
  import Strings
  import opened ConfigLines
  import opened MissingKeys
  import opened ConfigRepair
  import opened ConfigPass

  // ---- the block of a key

  function IndexFrom(lines: seq<string>, key: string, i: nat): (r: nat)
    requires i <= |lines|
    ensures i <= r <= |lines| && (r < |lines| ==> Matches(lines[r], key))
    ensures forall j {:trigger Matches(lines[j], key)} :: i <= j < r ==> !Matches(lines[j], key)
    decreases |lines| - i
  {
    if i == |lines| || Matches(lines[i], key) then i else IndexFrom(lines, key, i + 1)
  }

  /** The block that is extracted for the key. */
  function BlockFor(lines: seq<string>, key: string): seq<string> {
    var i := IndexFrom(lines, key, 0);
    if i == |lines| then [] else lines[i..BlockEnd(lines, i + 1, MatchKey(lines[i], key).value)]
  }

  lemma BlockForIsBlock(lines: seq<string>, key: string)
    requires Found(lines, key)
    ensures IsBlockOf(lines, key, BlockFor(lines, key))
  {
    assert IsBlock(lines, key, IndexFrom(lines, key, 0), BlockFor(lines, key));
  }

  lemma BlockUnique(lines: seq<string>, key: string, block: seq<string>)
    requires IsBlockOf(lines, key, block)
    ensures block == BlockFor(lines, key)
  {
    var i: nat :| IsBlock(lines, key, i, block);
    assert i == IndexFrom(lines, key, 0);
  }

  /** A head with the given key, and everything behind it deeper. */
  ghost predicate KeyBlock(key: string, block: seq<string>) {
    && block != [] && !Blank(block[0]) && ':' in block[0] && KeyOf(block[0]) == Strings.Some(key)
    && forall x :: 0 < x < |block| ==> Inside(block[x], Indent(block[0]))
  }

  lemma BlockForShape(lines: seq<string>, key: string)
    requires IsKeyName(key) && Found(lines, key)
    ensures KeyBlock(key, BlockFor(lines, key))
  {
    var i := IndexFrom(lines, key, 0);
    var n := MatchKey(lines[i], key).value;
    MatchIsKey(lines[i], key, n);
    MatchCoversIndent(lines[i], key);
    BlockInside(lines, i, BlockEnd(lines, i + 1, n), n, Indent(lines[i]));
  }

  lemma BlockForInLines(lines: seq<string>, key: string)
    ensures forall l :: l in BlockFor(lines, key) ==> l in lines
  {
  }

  function Depth(lines: seq<string>, key: string): nat {
    if BlockFor(lines, key) == [] then 0 else Indent(BlockFor(lines, key)[0])
  }

  function BlocksFor(lines: seq<string>, order: seq<string>): (blocks: seq<seq<string>>)
    ensures |blocks| == |order| && forall i :: 0 <= i < |order| ==> blocks[i] == BlockFor(lines, order[i])
  {
    seq(|order|, i requires 0 <= i < |order| => BlockFor(lines, order[i]))
  }

  lemma BlocksForAre(lines: seq<string>, order: seq<string>, keys: set<string>)
    requires IsOrder(order, keys) && forall k :: k in keys ==> Found(lines, k)
    ensures Extracted(lines, keys, order, BlocksFor(lines, order), Flat(BlocksFor(lines, order)))
  {
    forall i | 0 <= i < |order| ensures IsBlockOf(lines, order[i], BlocksFor(lines, order)[i]) {
      assert order[i] in order;
      BlockForIsBlock(lines, order[i]);
    }
  }

  lemma ExtractedIsFlat(lines: seq<string>, keys: set<string>, order: seq<string>, blocks: seq<seq<string>>,
      result: seq<string>)
    requires Extracted(lines, keys, order, blocks, result)
    ensures blocks == BlocksFor(lines, order) && result == Flat(BlocksFor(lines, order))
  {
    forall i | 0 <= i < |order| ensures blocks[i] == BlockFor(lines, order[i]) {
      BlockUnique(lines, order[i], blocks[i]);
    }
  }

  // ---- where the blocks stand in the extracted lines

  ghost predicate Placed(lines: seq<string>, block: seq<string>, s: nat) {
    s + |block| <= |lines| && forall y :: 0 <= y < |block| ==> lines[s + y] == block[y]
  }

  ghost predicate PlacedAt(blocks: seq<seq<string>>, starts: seq<nat>, j: int, x: int) {
    0 <= j < |blocks| == |starts| && starts[j] <= x < starts[j] + |blocks[j]|
  }

  ghost predicate Within(blocks: seq<seq<string>>, starts: seq<nat>, x: int) {
    exists j :: PlacedAt(blocks, starts, j, x)
  }

  /** The blocks make up the lines, block j from starts[j] on. */
  ghost predicate Layout(lines: seq<string>, blocks: seq<seq<string>>, starts: seq<nat>) {
    && |starts| == |blocks|
    && (forall j {:trigger blocks[j]} :: 0 <= j < |blocks| ==> Placed(lines, blocks[j], starts[j]))
    && (forall x {:trigger Within(blocks, starts, x)} :: 0 <= x < |lines| ==> Within(blocks, starts, x))
  }

  lemma OneMorePlaced(lines: seq<string>, blocks: seq<seq<string>>, starts: seq<nat>, block: seq<string>)
    requires Layout(lines, blocks, starts)
    ensures Layout(lines + block, blocks + [block], starts + [|lines|])
  {
    var all, bs, ss := lines + block, blocks + [block], starts + [|lines|];
    forall j | 0 <= j < |bs| ensures Placed(all, bs[j], ss[j]) {
      if j < |blocks| {
        assert Placed(lines, blocks[j], starts[j]);
      }
    }
    forall x {:trigger Within(bs, ss, x)} | 0 <= x < |all| ensures Within(bs, ss, x) {
      if x < |lines| {
        assert Within(blocks, starts, x);
        var j :| PlacedAt(blocks, starts, j, x);
        assert PlacedAt(bs, ss, j, x);
      } else {
        assert PlacedAt(bs, ss, |blocks|, x);
      }
    }
  }

  lemma {:induction false} FlatLayout(blocks: seq<seq<string>>) returns (starts: seq<nat>)
    ensures Layout(Flat(blocks), blocks, starts)
    decreases |blocks|
  {
    if blocks == [] {
      starts := [];
    } else {
      var n := |blocks| - 1;
      starts := FlatLayout(blocks[..n]);
      OneMorePlaced(Flat(blocks[..n]), blocks[..n], starts, blocks[n]);
      starts := starts + [|Flat(blocks[..n])|];
      assert blocks[..n] + [blocks[n]] == blocks;
    }
  }

  lemma {:induction false} FlatConcat(a: seq<seq<string>>, b: seq<seq<string>>)
    ensures Flat(a + b) == Flat(a) + Flat(b)
    decreases |b|
  {
    if b == [] {
      assert a + b == a;
    } else {
      var n := |b| - 1;
      FlatConcat(a, b[..n]);
      assert (a + b)[..|a + b| - 1] == a + b[..n];
    }
  }

  ghost predicate AllKeyBlocks(keys: seq<string>, blocks: seq<seq<string>>) {
    |keys| == |blocks| && forall j {:trigger blocks[j]} :: 0 <= j < |blocks| ==> KeyBlock(keys[j], blocks[j])
  }

  lemma BlockIsUnder(key: string, block: seq<string>, lines: seq<string>, s: nat, y: nat)
    requires KeyBlock(key, block) && Placed(lines, block, s) && 0 < y < |block|
    ensures Under(lines, s, s + y)
  {
    assert lines[s + 0] == block[0];
    forall z | s < z <= s + y ensures Inside(lines[z], Indent(lines[s])) {
      assert lines[s + (z - s)] == block[z - s];
    }
  }

  lemma ClearInBlock(key: string, block: seq<string>, lines: seq<string>, s: nat, i: nat)
    requires KeyBlock(key, block) && Placed(lines, block, s) && s <= i < s + |block| && Clear(lines, i)
    ensures i == s && lines[i] == block[0]
  {
    assert lines[s + (i - s)] == block[i - s];
    if s < i {
      BlockIsUnder(key, block, lines, s, i - s);
    }
  }

  /** Where no block reaches over, a block begins. */
  lemma ClearIsHead(keys: seq<string>, blocks: seq<seq<string>>, lines: seq<string>, starts: seq<nat>, i: nat)
    returns (j: nat)
    requires AllKeyBlocks(keys, blocks) && Layout(lines, blocks, starts) && Clear(lines, i) && i < |lines|
    ensures j < |blocks| && i == starts[j] && lines[i] == blocks[j][0] && KeyBlock(keys[j], blocks[j])
  {
    assert Within(blocks, starts, i);
    j :| PlacedAt(blocks, starts, j, i);
    ClearInBlock(keys[j], blocks[j], lines, starts[j], i);
  }

  // ---- a block that no old block can swallow is written

  lemma HeadKey(key: string, block: seq<string>)
    requires KeyBlock(key, block)
    ensures KeyText(block[0]) == key
  {
  }

  lemma BlockLineInside(lines: seq<string>, key: string, block: seq<string>, s: nat, z: nat, n: nat)
    requires Placed(lines, block, s) && KeyBlock(key, block) && s < z < s + |block| && n <= Indent(block[0])
    ensures Inside(lines[z], n)
  {
    assert lines[s + (z - s)] == block[z - s];
    assert Inside(block[z - s], Indent(block[0]));
  }

  /** A group that begins at or shallower than the block, and not behind it, takes all of it. */
  lemma GroupTakesBlock(lines: seq<string>, i: nat, key: string, block: seq<string>, s: nat)
    requires i < |lines| && i <= s < BlockEnd(lines, i + 1, Indent(lines[i])) && Placed(lines, block, s) &&
      KeyBlock(key, block)
    ensures s + |block| <= BlockEnd(lines, i + 1, Indent(lines[i]))
    ensures i < s ==> Indent(lines[i]) < Indent(block[0])
  {
    assert lines[s + 0] == block[0];
    var e := BlockEnd(lines, i + 1, Indent(lines[i]));
    if i < s {
      assert Inside(lines[s], Indent(lines[i]));
    }
    if e < s + |block| {
      BlockLineInside(lines, key, block, s, e, Indent(lines[i]));
    }
  }

  lemma LinesOfGroup(existing: string, lines: seq<string>, i: nat, block: seq<string>, s: nat)
    requires i < |lines| && !Blank(lines[i]) && ':' in lines[i] && !Old(existing, KeyText(lines[i]))
    requires i <= s && s + |block| <= BlockEnd(lines, i + 1, Indent(lines[i])) && Placed(lines, block, s)
    ensures forall l :: l in block ==> l in Kept(existing, lines, i)
  {
    var e := BlockEnd(lines, i + 1, Indent(lines[i]));
    assert Kept(existing, lines, i) == lines[i..e] + Kept(existing, lines, e);
    forall y | 0 <= y < |block| ensures block[y] in lines[i..e] {
      assert lines[i..e][s + y - i] == lines[s + y];
    }
  }

  lemma KeptLater(existing: string, lines: seq<string>, i: nat, block: seq<string>)
    requires i < |lines| && !Blank(lines[i]) && ':' in lines[i]
    requires forall l :: l in block ==> l in Kept(existing, lines, BlockEnd(lines, i + 1, Indent(lines[i])))
    ensures forall l :: l in block ==> l in Kept(existing, lines, i)
  {
  }

  lemma {:induction false} KeepsBlock(existing: string, keys: seq<string>, blocks: seq<seq<string>>, lines: seq<string>,
      starts: seq<nat>, i: nat, g: nat)
    requires AllKeyBlocks(keys, blocks) && Layout(lines, blocks, starts) && Clear(lines, i)
    requires g < |blocks| && i <= starts[g] && !Old(existing, keys[g])
    requires forall j {:trigger blocks[j]} :: 0 <= j < |blocks| && Old(existing, keys[j]) ==>
      Indent(blocks[g][0]) <= Indent(blocks[j][0])
    ensures forall l :: l in blocks[g] ==> l in Kept(existing, lines, i)
    decreases |lines| - i
  {
    var block, s := blocks[g], starts[g];
    assert Placed(lines, block, s) && KeyBlock(keys[g], block);
    var j := ClearIsHead(keys, blocks, lines, starts, i);
    HeadKey(keys[j], blocks[j]);
    HeadKey(keys[g], block);
    var e := BlockEnd(lines, i + 1, Indent(lines[i]));
    ClearAfter(lines, i);
    if e <= s {
      KeepsBlock(existing, keys, blocks, lines, starts, e, g);
      KeptLater(existing, lines, i, block);
    } else {
      GroupTakesBlock(lines, i, keys[g], block, s);
      assert lines[s + 0] == block[0];
      LinesOfGroup(existing, lines, i, block, s);
    }
  }

  lemma ClearAtStart(keys: seq<string>, blocks: seq<seq<string>>, lines: seq<string>, starts: seq<nat>)
    requires AllKeyBlocks(keys, blocks) && Layout(lines, blocks, starts)
    ensures Clear(lines, 0)
  {
    if lines != [] {
      assert Within(blocks, starts, 0);
      var j :| PlacedAt(blocks, starts, j, 0);
      assert Placed(lines, blocks[j], starts[j]) && lines[starts[j] + 0] == blocks[j][0];
    }
  }

  // ---- which keys are in danger

  /** The old block of r is shallower than that of k and can swallow it, and k stands in no new
      block that r cannot swallow. */
  ghost predicate AtRisk(lines: seq<string>, existing: string, keys: set<string>, k: string, r: string) {
    && r in keys && Old(existing, r) && Depth(lines, r) < Depth(lines, k)
    && forall g :: g in keys && !Old(existing, g) && Depth(lines, g) <= Depth(lines, r) ==>
      k !in KeysOf(BlockFor(lines, g))
  }

  ghost predicate Endangered(lines: seq<string>, existing: string, keys: set<string>, k: string) {
    exists r :: AtRisk(lines, existing, keys, k, r)
  }

  /** The keys to append: their blocks can be extracted. */
  ghost predicate Extractable(lines: seq<string>, keys: set<string>) {
    forall k :: k in keys ==> IsKeyName(k) && Found(lines, k)
  }

  lemma {:induction false} LeastOld(lines: seq<string>, existing: string, keys: set<string>, r: string)
    returns (s: string)
    requires r in keys && Old(existing, r)
    ensures s in keys && Old(existing, s) && Depth(lines, s) <= Depth(lines, r)
    ensures forall o :: o in keys && Old(existing, o) ==> Depth(lines, s) <= Depth(lines, o)
    decreases Depth(lines, r)
  {
    if o :| o in keys && Old(existing, o) && Depth(lines, o) < Depth(lines, r) {
      s := LeastOld(lines, existing, keys, o);
    } else {
      s := r;
    }
  }

  lemma ShapeOfBlocks(lines: seq<string>, order: seq<string>, keys: set<string>)
    requires Extractable(lines, keys) && forall k :: k in order ==> k in keys
    ensures AllKeyBlocks(order, BlocksFor(lines, order))
  {
    forall j | 0 <= j < |order| ensures KeyBlock(order[j], BlocksFor(lines, order)[j]) {
      assert order[j] in order;
      BlockForShape(lines, order[j]);
    }
  }

  /** A new block that is no deeper than any old one is written in every order. */
  lemma BlockWritten(lines: seq<string>, existing: string, keys: set<string>, order: seq<string>, g: string)
    requires Extractable(lines, keys) && IsOrder(order, keys) && g in keys && !Old(existing, g)
    requires forall o :: o in keys && Old(existing, o) ==> Depth(lines, g) <= Depth(lines, o)
    ensures forall l :: l in BlockFor(lines, g) ==> l in Kept(existing, Flat(BlocksFor(lines, order)), 0)
  {
    var blocks := BlocksFor(lines, order);
    var result := Flat(blocks);
    ShapeOfBlocks(lines, order, keys);
    var starts := FlatLayout(blocks);
    ClearAtStart(order, blocks, result, starts);
    assert g in order;
    var i :| 0 <= i < |order| && order[i] == g;
    forall j {:trigger blocks[j]} | 0 <= j < |blocks| && Old(existing, order[j])
      ensures Indent(blocks[i][0]) <= Indent(blocks[j][0])
    {
      assert order[j] in order && order[j] in keys;
      assert Depth(lines, g) <= Depth(lines, order[j]);
    }
    KeepsBlock(existing, order, blocks, result, starts, 0, i);
  }

  lemma KeyOfBlock(lines: seq<string>, k: string)
    requires IsKeyName(k) && Found(lines, k)
    ensures k in KeysOf(BlockFor(lines, k))
  {
    BlockForShape(lines, k);
    KeyAmong(BlockFor(lines, k), 0);
  }

  lemma KeyOfLines(block: seq<string>, kept: seq<string>, k: string)
    requires k in KeysOf(block) && forall l :: l in block ==> l in kept
    ensures k in KeysOf(kept)
  {
    var i :| 0 <= i < |block| && KeyOf(block[i]) == Strings.Some(k);
    assert block[i] in block;
    KeyInKeys(kept, block[i]);
  }

  /** A key that is not in danger is there after the pass, whatever the order. */
  lemma SafeKeyWritten(lines: seq<string>, existing: string, keys: set<string>, order: seq<string>, k: string)
    requires Extractable(lines, keys) && IsOrder(order, keys) && k in keys && !Old(existing, k)
    requires !Endangered(lines, existing, keys, k)
    ensures k in KeysOf(Kept(existing, Flat(BlocksFor(lines, order)), 0))
  {
    var g := k;
    KeyOfBlock(lines, k);
    if r :| r in keys && Old(existing, r) && Depth(lines, r) < Depth(lines, k) {
      var s := LeastOld(lines, existing, keys, r);
      assert !AtRisk(lines, existing, keys, k, s);
      g :| g in keys && !Old(existing, g) && Depth(lines, g) <= Depth(lines, s) && k in KeysOf(BlockFor(lines, g));
    }
    BlockWritten(lines, existing, keys, order, g);
    KeyOfLines(BlockFor(lines, g), Kept(existing, Flat(BlocksFor(lines, order)), 0), k);
  }

  // ---- an order in which an endangered key is swallowed

  ghost predicate OldHead(existing: string, line: string) {
    ':' in line && Old(existing, KeyText(line))
  }

  /** From i to m all groups begin at old heads of depth d: nothing of them is written. */
  lemma {:induction false} OldGroupsSkipped(existing: string, lines: seq<string>, i: nat, m: nat, d: nat)
    requires i <= m <= |lines|
    requires forall x {:trigger lines[x]} :: i <= x < m && !Inside(lines[x], d) ==>
      OldHead(existing, lines[x]) && Indent(lines[x]) == d
    requires (i < m ==> !Inside(lines[i], d)) && (m < |lines| ==> !Inside(lines[m], d))
    ensures Kept(existing, lines, i) == Kept(existing, lines, m)
    decreases m - i
  {
    if i < m {
      var e := BlockEnd(lines, i + 1, Indent(lines[i]));
      assert Indent(lines[i]) == d && OldHead(existing, lines[i]);
      assert e <= m;
      OldGroupsSkipped(existing, lines, e, m, d);
      assert Kept(existing, lines, i) == [] + Kept(existing, lines, e);
    }
  }

  /** Blocks that are deeper than d, or old and just as deep. */
  ghost predicate Swallowed(existing: string, keys: seq<string>, blocks: seq<seq<string>>, d: nat) {
    |keys| == |blocks| && forall j {:trigger blocks[j]} :: 0 <= j < |blocks| ==>
      blocks[j] != [] && (Indent(blocks[j][0]) > d || (Indent(blocks[j][0]) == d && Old(existing, keys[j])))
  }

  lemma LineOfSwallowed(existing: string, keys: seq<string>, blocks: seq<seq<string>>, lines: seq<string>,
      starts: seq<nat>, d: nat, x: nat)
    requires AllKeyBlocks(keys, blocks) && Layout(lines, blocks, starts) && Swallowed(existing, keys, blocks, d)
    requires x < |lines| && !Inside(lines[x], d)
    ensures OldHead(existing, lines[x]) && Indent(lines[x]) == d
  {
    assert Within(blocks, starts, x);
    var j :| PlacedAt(blocks, starts, j, x);
    var block, y := blocks[j], x - starts[j];
    assert Placed(lines, block, starts[j]) && KeyBlock(keys[j], block) && lines[starts[j] + y] == block[y];
    if y == 0 {
      HeadKey(keys[j], block);
    }
  }

  lemma {:induction false} LineOfFlat(blocks: seq<seq<string>>, line: string) returns (j: nat)
    requires line in Flat(blocks)
    ensures j < |blocks| && line in blocks[j]
  {
    var n := |blocks| - 1;
    if line in blocks[n] {
      j := n;
    } else {
      j := LineOfFlat(blocks[..n], line);
    }
  }

  lemma HeadOfFlat(keys: seq<string>, blocks: seq<seq<string>>)
    requires AllKeyBlocks(keys, blocks) && blocks != []
    ensures Flat(blocks) != [] && Flat(blocks)[0] == blocks[0][0]
  {
    assert KeyBlock(keys[0], blocks[0]);
    assert Flat([]) == [] && [blocks[0]][..0] == [];
    assert Flat([blocks[0]]) == [] + blocks[0] == blocks[0];
    FlatConcat([blocks[0]], blocks[1..]);
    assert [blocks[0]] + blocks[1..] == blocks;
  }

  /** Swallowed blocks first, beginning with an old one, then blocks no deeper: of the first
      nothing is written. */
  lemma OnlyTheRest(existing: string, first: seq<string>, swallowed: seq<seq<string>>, second: seq<string>,
      others: seq<seq<string>>, d: nat)
    requires AllKeyBlocks(first, swallowed) && AllKeyBlocks(second, others) && Swallowed(existing, first, swallowed, d)
    requires swallowed != [] && Indent(swallowed[0][0]) == d
    requires forall j {:trigger others[j]} :: 0 <= j < |others| ==> Indent(others[j][0]) <= d
    ensures forall l :: l in Kept(existing, Flat(swallowed) + Flat(others), 0) ==> l in Flat(others)
  {
    var a, b := Flat(swallowed), Flat(others);
    var lines, m := a + b, |a|;
    var starts := FlatLayout(swallowed);
    assert forall x :: 0 <= x < m ==> lines[x] == a[x];
    forall x {:trigger lines[x]} | 0 <= x < m && !Inside(lines[x], d)
      ensures OldHead(existing, lines[x]) && Indent(lines[x]) == d
    {
      LineOfSwallowed(existing, first, swallowed, a, starts, d, x);
    }
    HeadOfFlat(first, swallowed);
    assert KeyBlock(first[0], swallowed[0]);
    if others != [] {
      HeadOfFlat(second, others);
      assert KeyBlock(second[0], others[0]) && lines[m] == b[0];
    }
    OldGroupsSkipped(existing, lines, 0, m, d);
    KeptWithin(existing, lines, m);
    assert lines[m..] == b;
  }

  lemma OrderInParts(s: string, a: set<string>, b: set<string>, oa: seq<string>, ob: seq<string>)
    requires IsOrder(oa, a) && IsOrder(ob, b) && s !in a && s !in b && a !! b
    ensures IsOrder([s] + oa + ob, {s} + a + b)
  {
    var o := [s] + oa + ob;
    forall i, j | 0 <= i < j < |o| ensures o[i] != o[j] {
      assert 0 < i <= |oa| ==> o[i] == oa[i - 1] && oa[i - 1] in oa;
      assert 0 < j <= |oa| ==> o[j] == oa[j - 1] && oa[j - 1] in oa;
      assert i > |oa| ==> o[i] == ob[i - 1 - |oa|] && ob[i - 1 - |oa|] in ob;
      assert j > |oa| ==> o[j] == ob[j - 1 - |oa|] && ob[j - 1 - |oa|] in ob;
    }
  }

  predicate Sinks(lines: seq<string>, existing: string, d: nat, g: string) {
    Depth(lines, g) > d || (Depth(lines, g) == d && Old(existing, g))
  }

  lemma DeepOrOldSwallowed(lines: seq<string>, existing: string, keys: set<string>, first: seq<string>, d: nat)
    requires Extractable(lines, keys)
    requires forall g :: g in first ==> g in keys && Sinks(lines, existing, d, g)
    ensures AllKeyBlocks(first, BlocksFor(lines, first)) && Swallowed(existing, first, BlocksFor(lines, first), d)
  {
    ShapeOfBlocks(lines, first, keys);
    var swallowed := BlocksFor(lines, first);
    forall j {:trigger swallowed[j]} | 0 <= j < |swallowed|
      ensures swallowed[j] != [] &&
        (Indent(swallowed[j][0]) > d || (Indent(swallowed[j][0]) == d && Old(existing, first[j])))
    {
      assert first[j] in first && KeyBlock(first[j], swallowed[j]);
    }
  }

  lemma ShallowOthers(lines: seq<string>, keys: set<string>, second: seq<string>, d: nat)
    requires Extractable(lines, keys) && forall g :: g in second ==> g in keys && Depth(lines, g) <= d
    ensures AllKeyBlocks(second, BlocksFor(lines, second))
    ensures forall j {:trigger BlocksFor(lines, second)[j]} :: 0 <= j < |second| ==>
      Indent(BlocksFor(lines, second)[j][0]) <= d
  {
    ShapeOfBlocks(lines, second, keys);
    forall j | 0 <= j < |second| ensures Indent(BlocksFor(lines, second)[j][0]) <= d {
      assert second[j] in second && KeyBlock(second[j], BlocksFor(lines, second)[j]);
    }
  }

  lemma BlocksForConcat(lines: seq<string>, a: seq<string>, b: seq<string>)
    ensures BlocksFor(lines, a + b) == BlocksFor(lines, a) + BlocksFor(lines, b)
  {
  }

  /** The swallowed blocks first: what is written comes from the others. */
  lemma WrittenFromOthers(lines: seq<string>, existing: string, keys: set<string>, first: seq<string>,
      second: seq<string>)
    requires Extractable(lines, keys) && first != [] && Old(existing, first[0])
    requires forall g :: g in first ==> g in keys && Sinks(lines, existing, Depth(lines, first[0]), g)
    requires forall g :: g in second ==> g in keys && Depth(lines, g) <= Depth(lines, first[0])
    ensures forall l :: l in Kept(existing, Flat(BlocksFor(lines, first + second)), 0) ==>
      l in Flat(BlocksFor(lines, second))
  {
    var d := Depth(lines, first[0]);
    DeepOrOldSwallowed(lines, existing, keys, first, d);
    ShallowOthers(lines, keys, second, d);
    var swallowed, others := BlocksFor(lines, first), BlocksFor(lines, second);
    assert KeyBlock(first[0], swallowed[0]);
    OnlyTheRest(existing, first, swallowed, second, others, d);
    BlocksForConcat(lines, first, second);
    FlatConcat(swallowed, others);
  }

  /** The new keys whose blocks are no deeper than d. */
  function Afloat(lines: seq<string>, existing: string, keys: set<string>, d: nat): (r: set<string>)
    ensures r <= keys
  {
    set g | g in keys && !Old(existing, g) && Depth(lines, g) <= d
  }

  lemma SetInParts(keys: set<string>, b: set<string>, s: string)
    requires b <= keys && s in keys && s !in b
    ensures {s} + (keys - b - {s}) + b == keys
  {
  }

  lemma FrontSinks(lines: seq<string>, existing: string, keys: set<string>, s: string, oa: seq<string>)
    requires s in keys && Old(existing, s) && forall o :: o in keys && Old(existing, o) ==>
      Depth(lines, s) <= Depth(lines, o)
    requires forall g :: g in oa ==> g in keys && g !in Afloat(lines, existing, keys, Depth(lines, s))
    ensures forall g :: g in [s] + oa ==> g in keys && Sinks(lines, existing, Depth(lines, s), g)
  {
    forall g | g in [s] + oa ensures g in keys && Sinks(lines, existing, Depth(lines, s), g) {
      if g != s {
        assert g in oa;
      }
    }
  }

  /** A key in danger is not written in some order. */
  lemma EndangeredLost(lines: seq<string>, existing: string, keys: set<string>, k: string) returns (order: seq<string>)
    requires Extractable(lines, keys) && Endangered(lines, existing, keys, k)
    ensures IsOrder(order, keys) && k !in KeysOf(Kept(existing, Flat(BlocksFor(lines, order)), 0))
  {
    var r :| AtRisk(lines, existing, keys, k, r);
    var s := LeastOld(lines, existing, keys, r);
    var b := Afloat(lines, existing, keys, Depth(lines, s));
    var a := keys - b - {s};
    var oa := SomeOrder(a);
    var ob := SomeOrder(b);
    order := [s] + oa + ob;
    OrderInParts(s, a, b, oa, ob);
    SetInParts(keys, b, s);
    FrontSinks(lines, existing, keys, s, oa);
    WrittenFromOthers(lines, existing, keys, [s] + oa, ob);
    NotAmongOthers(lines, existing, keys, k, r, ob, Kept(existing, Flat(BlocksFor(lines, order)), 0));
  }

  lemma NotAmongOthers(lines: seq<string>, existing: string, keys: set<string>, k: string, r: string, ob: seq<string>,
      kept: seq<string>)
    requires AtRisk(lines, existing, keys, k, r)
    requires forall g :: g in ob ==> g in keys && !Old(existing, g) && Depth(lines, g) <= Depth(lines, r)
    requires forall l :: l in kept ==> l in Flat(BlocksFor(lines, ob))
    ensures k !in KeysOf(kept)
  {
    if k in KeysOf(kept) {
      var i :| 0 <= i < |kept| && KeyOf(kept[i]) == Strings.Some(k);
      assert kept[i] in kept;
      var j := LineOfFlat(BlocksFor(lines, ob), kept[i]);
      assert ob[j] in ob;
      KeyInKeys(BlockFor(lines, ob[j]), kept[i]);
    }
  }

  // ---- the pass

  lemma WantedIsComputed(templateContent: string, content: string)
    requires SETTINGS !in Parents(templateContent)
    ensures Computed(templateContent, content, WantedKeys(templateContent, content))
  {
    var parents := Parents(templateContent);
    var second := SecondRoundExists(parents, Keys(content), Candidates(templateContent, content));
    var order := SomeOrder(second);
    var result := TopLevel(parents, DropChildren(parents, order, second));
    assert ComputedBy(templateContent, content, second, order, result);
    TopLevelSettings(templateContent, content, result);
  }

  /** Everything that the pass extracts. */
  function ToAppend(templateContent: string, content: string, reflected: set<string>): set<string> {
    reflected + WantedKeys(templateContent, content)
  }

  /** Some wanted key can be swallowed. */
  ghost predicate Endangers(templateContent: string, content: string, reflected: set<string>) {
    exists k :: k in WantedKeys(templateContent, content) &&
      Endangered(Split(templateContent), content, ToAppend(templateContent, content, reflected), k)
  }

  lemma RepairedByOrder(templateContent: string, content: string, reflected: set<string>, repaired: string)
    returns (order: seq<string>)
    requires Repaired(templateContent, content, reflected, repaired) && SETTINGS !in Parents(templateContent)
    ensures IsOrder(order, ToAppend(templateContent, content, reflected))
    ensures repaired == content + Appended(Kept(content, Flat(BlocksFor(Split(templateContent), order)), 0))
    ensures Keys(repaired) == Keys(content) + KeysOf(Kept(content, Flat(BlocksFor(Split(templateContent), order)), 0))
  {
    var missing, blocks, lines;
    missing, order, blocks, lines :|
      RepairedBy(templateContent, content, reflected, repaired, missing, order, blocks, lines);
    TopLevelSettings(templateContent, content, missing);
    ExtractedIsFlat(Split(templateContent), reflected + missing, order, blocks, lines);
    KeysAfterAppend(templateContent, content, reflected + missing, order, blocks, lines);
  }

  lemma OrderRepairs(templateContent: string, content: string, reflected: set<string>, order: seq<string>,
      repaired: string)
    requires SETTINGS !in Parents(templateContent) && IsOrder(order, ToAppend(templateContent, content, reflected))
    requires Extractable(Split(templateContent), ToAppend(templateContent, content, reflected))
    requires repaired == content + Appended(Kept(content, Flat(BlocksFor(Split(templateContent), order)), 0))
    ensures Repaired(templateContent, content, reflected, repaired)
  {
    var lines := Split(templateContent);
    WantedIsComputed(templateContent, content);
    BlocksForAre(lines, order, ToAppend(templateContent, content, reflected));
    assert RepairedBy(templateContent, content, reflected, repaired, WantedKeys(templateContent, content), order,
                      BlocksFor(lines, order), Flat(BlocksFor(lines, order)));
  }

  /** Without danger a pass leaves nothing wanted, whatever the order was. */
  lemma SafePassSuffices(templateContent: string, content: string, reflected: set<string>, repaired: string)
    requires SETTINGS !in Parents(templateContent) && SETTINGS in Keys(content)
    requires Extractable(Split(templateContent), ToAppend(templateContent, content, reflected))
    requires Repaired(templateContent, content, reflected, repaired) && !Endangers(templateContent, content, reflected)
    ensures WantedKeys(templateContent, repaired) == {}
  {
    var keys, lines := ToAppend(templateContent, content, reflected), Split(templateContent);
    var order := RepairedByOrder(templateContent, content, reflected, repaired);
    forall k | k in WantedKeys(templateContent, content) ensures k in Keys(repaired) {
      WantedAreNew(templateContent, content, k);
      SafeKeyWritten(lines, content, keys, order, k);
    }
  }

  /** With danger some order loses a wanted key. */
  lemma DangerousPassFails(templateContent: string, content: string, reflected: set<string>)
    returns (repaired: string, k: string)
    requires SETTINGS !in Parents(templateContent) && SETTINGS in Keys(content)
    requires Extractable(Split(templateContent), ToAppend(templateContent, content, reflected))
    requires Endangers(templateContent, content, reflected)
    ensures Repaired(templateContent, content, reflected, repaired) && k in WantedKeys(templateContent, repaired)
  {
    var keys, lines := ToAppend(templateContent, content, reflected), Split(templateContent);
    k :| k in WantedKeys(templateContent, content) && Endangered(lines, content, keys, k);
    var order := EndangeredLost(lines, content, keys, k);
    var result := Flat(BlocksFor(lines, order));
    repaired := content + Appended(Kept(content, result, 0));
    OrderRepairs(templateContent, content, reflected, order, repaired);
    BlocksForAre(lines, order, keys);
    KeysAfterAppend(templateContent, content, keys, order, BlocksFor(lines, order), result);
  }

  /** One pass leaves nothing wanted in every order if and only if no wanted key is in danger:
      no key that is appended although it stands two deep has a shallower block than it, or it
      stands in a new block as well that no such block can swallow. */
  lemma OnePassSufficesIff(templateContent: string, content: string, reflected: set<string>)
    requires SETTINGS !in Parents(templateContent) && SETTINGS in Keys(content)
    requires Extractable(Split(templateContent), ToAppend(templateContent, content, reflected))
    ensures !Endangers(templateContent, content, reflected) <==>
      forall repaired :: Repaired(templateContent, content, reflected, repaired) ==>
        WantedKeys(templateContent, repaired) == {}
  {
    if Endangers(templateContent, content, reflected) {
      var repaired, k := DangerousPassFails(templateContent, content, reflected);
    } else {
      forall repaired | Repaired(templateContent, content, reflected, repaired)
        ensures WantedKeys(templateContent, repaired) == {}
      {
        SafePassSuffices(templateContent, content, reflected, repaired);
      }
    }
  }
}
