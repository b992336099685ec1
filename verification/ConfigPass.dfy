/** A whole repair pass: everything extracted for new keys is written, and which keys are there
    afterwards. */
module ConfigPass {
  import opened Strings
  import opened ConfigLines
  import opened MissingKeys
  import opened ConfigRepair

  // ---- every extracted line is written

  /** The head of a block whose key is not configured two deep. */
  predicate Head(existing: string, line: string) {
    !Blank(line) && ':' in line && !Old(existing, KeyText(line))
  }

  /** Line x lies in the block that begins at h. */
  ghost predicate Under(lines: seq<string>, h: int, x: int) {
    0 <= h < x < |lines| && !Blank(lines[h]) && forall y :: h < y <= x ==> Inside(lines[y], Indent(lines[h]))
  }

  ghost predicate UnderHead(existing: string, lines: seq<string>, x: int) {
    exists h :: Under(lines, h, x) && Head(existing, lines[h])
  }

  ghost predicate Sheltered(existing: string, lines: seq<string>) {
    forall x :: 0 <= x < |lines| && !Blank(lines[x]) ==> Head(existing, lines[x]) || UnderHead(existing, lines, x)
  }

  /** No block reaches over index i. */
  ghost predicate Clear(lines: seq<string>, i: nat) {
    i <= |lines| && (i < |lines| ==> !Blank(lines[i])) && forall h :: !Under(lines, h, i)
  }

  lemma ClearAfter(lines: seq<string>, i: nat)
    requires i < |lines| && Clear(lines, i)
    ensures Clear(lines, BlockEnd(lines, i + 1, Indent(lines[i])))
  {
    var e := BlockEnd(lines, i + 1, Indent(lines[i]));
    forall h ensures !Under(lines, h, e) {
      assert h < i && Under(lines, h, e) ==> Under(lines, h, i);
      assert i < h < e ==> Inside(lines[h], Indent(lines[i]));
    }
  }

  /** Groups begin at heads only, so all lines are kept. */
  lemma {:induction false} AllKept(existing: string, lines: seq<string>, i: nat)
    requires Sheltered(existing, lines) && Clear(lines, i)
    ensures Kept(existing, lines, i) == lines[i..]
    decreases |lines| - i
  {
    if i < |lines| {
      var e := BlockEnd(lines, i + 1, Indent(lines[i]));
      assert Head(existing, lines[i]);
      ClearAfter(lines, i);
      AllKept(existing, lines, e);
      SliceTwo(lines, i, e);
    }
  }

  lemma SliceTwo(lines: seq<string>, i: nat, e: nat)
    requires i <= e <= |lines|
    ensures lines[i..e] + lines[e..] == lines[i..]
  {
  }

  predicate NewKey(existing: string, key: string) {
    IsKeyName(key) && !Old(existing, key)
  }

  /** A block as it stands in the result. */
  ghost predicate GoodBlock(existing: string, block: seq<string>) {
    && block != [] && Head(existing, block[0])
    && forall x :: 0 < x < |block| ==> Inside(block[x], Indent(block[0]))
  }

  lemma MatchIsHead(existing: string, line: string, key: string)
    requires Matches(line, key) && NewKey(existing, key)
    ensures Head(existing, line) && KeyOf(line) == Some(key) && Indent(line) <= MatchKey(line, key).value
  {
    MatchIsKey(line, key, MatchKey(line, key).value);
    MatchCoversIndent(line, key);
  }

  lemma BlockInside(lines: seq<string>, i: nat, e: nat, n: nat, d: nat)
    requires i < e <= |lines| && d <= n && forall x :: i + 1 <= x < e ==> Inside(lines[x], n)
    ensures forall x :: 0 < x < e - i ==> Inside(lines[i..e][x], d)
  {
    forall x | 0 < x < e - i ensures Inside(lines[i..e][x], d) {
      assert lines[i..e][x] == lines[i + x];
    }
  }

  lemma BlockIsGood(existing: string, lines: seq<string>, key: string, block: seq<string>)
    requires IsBlockOf(lines, key, block) && NewKey(existing, key)
    ensures GoodBlock(existing, block) && KeyOf(block[0]) == Some(key)
  {
    var i: nat :| IsBlock(lines, key, i, block);
    var n := MatchKey(lines[i], key).value;
    MatchIsHead(existing, lines[i], key);
    BlockInside(lines, i, BlockEnd(lines, i + 1, n), n, Indent(lines[i]));
  }

  lemma StillUnder(existing: string, lines: seq<string>, block: seq<string>, x: int)
    requires UnderHead(existing, lines, x)
    ensures UnderHead(existing, lines + block, x)
  {
    var h :| Under(lines, h, x) && Head(existing, lines[h]);
    var all := lines + block;
    assert forall y :: 0 <= y < |lines| ==> all[y] == lines[y];
    assert Under(all, h, x);
  }

  lemma InsideBehind(lines: seq<string>, block: seq<string>, d: nat)
    requires block != [] && forall x :: 0 < x < |block| ==> Inside(block[x], d)
    ensures forall y :: |lines| < y < |lines + block| ==> Inside((lines + block)[y], d)
  {
    forall y | |lines| < y < |lines + block| ensures Inside((lines + block)[y], d) {
      assert (lines + block)[y] == block[y - |lines|];
    }
  }

  lemma UnderNewHead(existing: string, lines: seq<string>, block: seq<string>, x: int)
    requires GoodBlock(existing, block) && |lines| < x < |lines + block|
    ensures UnderHead(existing, lines + block, x)
  {
    var all := lines + block;
    InsideBehind(lines, block, Indent(block[0]));
    assert all[|lines|] == block[0];
    assert Under(all, |lines|, x);
  }

  lemma OneMoreGood(existing: string, lines: seq<string>, block: seq<string>)
    requires Sheltered(existing, lines) && GoodBlock(existing, block)
    ensures Sheltered(existing, lines + block)
  {
    var all := lines + block;
    forall x | 0 <= x < |all| && !Blank(all[x]) ensures Head(existing, all[x]) || UnderHead(existing, all, x) {
      if x > |lines| {
        UnderNewHead(existing, lines, block, x);
      } else if x < |lines| && !Head(existing, lines[x]) {
        StillUnder(existing, lines, block, x);
      }
    }
  }

  lemma {:induction false} FlatIsSheltered(existing: string, blocks: seq<seq<string>>)
    requires forall i :: 0 <= i < |blocks| ==> GoodBlock(existing, blocks[i])
    ensures Sheltered(existing, Flat(blocks))
    ensures Flat(blocks) != [] ==> Head(existing, Flat(blocks)[0])
  {
    if blocks != [] {
      var n := |blocks| - 1;
      FlatIsSheltered(existing, blocks[..n]);
      OneMoreGood(existing, Flat(blocks[..n]), blocks[n]);
    }
  }

  /** Whatever is extracted for new keys is appended without exception. */
  lemma AllWritten(existing: string, lines: seq<string>, missing: set<string>, order: seq<string>,
      blocks: seq<seq<string>>, result: seq<string>)
    requires Extracted(lines, missing, order, blocks, result)
    requires forall k :: k in missing ==> NewKey(existing, k)
    ensures Kept(existing, result, 0) == result
  {
    forall i | 0 <= i < |blocks| ensures GoodBlock(existing, blocks[i]) {
      BlockIsGood(existing, lines, order[i], blocks[i]);
    }
    FlatIsSheltered(existing, blocks);
    AllKept(existing, result, 0);
    assert result[0..] == result;
  }

  /** The nonblank lines. */
  function Nonblank(lines: seq<string>): seq<string> {
    if lines == [] then [] else (if Blank(lines[0]) then [] else [lines[0]]) + Nonblank(lines[1..])
  }

  /** Lines without a key, outside all blocks, are written one by one, blank ones apart. */
  lemma {:induction false} KeylessKept(existing: string, lines: seq<string>, i: nat)
    requires i <= |lines| && forall x :: 0 <= x < |lines| ==> ':' !in lines[x]
    ensures Kept(existing, lines, i) == Nonblank(lines[i..])
    decreases |lines| - i
  {
    if i < |lines| {
      KeylessKept(existing, lines, i + 1);
      assert lines[i..][1..] == lines[i + 1..];
    }
  }

  // ---- blocks whose key stands two deep already

  /** A block whose head is there already. */
  ghost predicate OldBlock(existing: string, block: seq<string>) {
    && block != [] && !Blank(block[0]) && ':' in block[0] && Old(existing, KeyText(block[0]))
    && forall x :: 0 < x < |block| ==> Inside(block[x], Indent(block[0]))
  }

  lemma GroupIsPrefix(lines: seq<string>, n: nat)
    requires 0 < n <= |lines| && !Blank(lines[0])
    requires forall x :: 0 < x < n ==> Inside(lines[x], Indent(lines[0]))
    requires n < |lines| ==> !Inside(lines[n], Indent(lines[0]))
    ensures BlockEnd(lines, 1, Indent(lines[0])) == n
  {
  }

  /** A block that is there already is skipped, and with it a deeper block behind it; in the
      other order the deeper block is written. */
  lemma OrderOfBlocksMatters(existing: string, former: seq<string>, deeper: seq<string>)
    requires OldBlock(existing, former) && GoodBlock(existing, deeper) && Indent(former[0]) < Indent(deeper[0])
    ensures Kept(existing, former + deeper, 0) == [] && Kept(existing, deeper + former, 0) == deeper
  {
    var a, b := former + deeper, deeper + former;
    forall x | 0 < x < |a| ensures Inside(a[x], Indent(a[0])) {
      assert a[x] == if x < |former| then former[x] else deeper[x - |former|];
    }
    GroupIsPrefix(a, |a|);
    assert forall x :: 0 <= x < |b| ==> b[x] == if x < |deeper| then deeper[x] else former[x - |deeper|];
    GroupIsPrefix(b, |deeper|);
    assert b[..|deeper|] == deeper;
    OldSkipped(existing, b, |deeper|, former);
  }

  lemma OldSkipped(existing: string, lines: seq<string>, i: nat, block: seq<string>)
    requires i <= |lines| && lines[i..] == block && OldBlock(existing, block)
    ensures Kept(existing, lines, i) == []
  {
    forall x | i < x < |lines| ensures Inside(lines[x], Indent(lines[i])) {
      assert lines[x] == block[x - i];
    }
    assert lines[i] == block[0];
    assert BlockEnd(lines, i + 1, Indent(lines[i])) == |lines|;
  }

  // ---- the keys afterwards

  lemma {:induction false} FlatHasHead(blocks: seq<seq<string>>, i: nat)
    requires i < |blocks| && blocks[i] != []
    ensures blocks[i][0] in Flat(blocks)
  {
    var n := |blocks| - 1;
    if i < n {
      FlatHasHead(blocks[..n], i);
    }
  }

  lemma KeyInKeys(lines: seq<string>, line: string)
    requires line in lines && KeyOf(line).Some?
    ensures KeyOf(line).value in KeysOf(lines)
  {
    var i :| 0 <= i < |lines| && lines[i] == line;
    KeyAmong(lines, i);
  }

  lemma ExtractedHasKeys(existing: string, lines: seq<string>, missing: set<string>, order: seq<string>,
      blocks: seq<seq<string>>, result: seq<string>)
    requires Extracted(lines, missing, order, blocks, result)
    requires forall k :: k in missing ==> NewKey(existing, k)
    ensures missing <= KeysOf(result)
  {
    forall k | k in missing ensures k in KeysOf(result) {
      assert k in order;
      var i :| 0 <= i < |order| && order[i] == k;
      BlockIsGood(existing, lines, k, blocks[i]);
      FlatHasHead(blocks, i);
      KeyInKeys(result, blocks[i][0]);
    }
  }

  lemma {:induction false} SplitAppended(content: string, lines: seq<string>)
    requires forall i :: 0 <= i < |lines| ==> '\n' !in lines[i]
    ensures Split(content + Appended(lines)) == Split(content) + lines
  {
    if lines == [] {
      assert content + "" == content;
    } else {
      var n := |lines| - 1;
      SplitAppended(content, lines[..n]);
      SplitSingle(lines[n]);
      AssociativeFour(content, Appended(lines[..n]), "\n", lines[n]);
      SplitJoined(content + Appended(lines[..n]), lines[n]);
      assert lines[..n] + [lines[n]] == lines;
    }
  }

  lemma {:induction false} FlatFromLines(lines: seq<string>, order: seq<string>, blocks: seq<seq<string>>)
    requires AreBlocks(lines, order, blocks)
    requires forall i :: 0 <= i < |lines| ==> '\n' !in lines[i]
    ensures forall x :: 0 <= x < |Flat(blocks)| ==> '\n' !in Flat(blocks)[x]
    decreases |blocks|
  {
    if blocks != [] {
      var n := |blocks| - 1;
      FlatFromLines(lines, order[..n], blocks[..n]);
      var i: nat :| IsBlock(lines, order[n], i, blocks[n]);
    }
  }

  /** After one pass the keys are those from before and those that were missing, and more. */
  lemma KeysAfterPass(templateContent: string, content: string, missing: set<string>, order: seq<string>,
      blocks: seq<seq<string>>, result: seq<string>)
    requires Extracted(Split(templateContent), missing, order, blocks, result)
    requires forall k :: k in missing ==> NewKey(content, k)
    ensures Keys(content + Appended(Kept(content, result, 0))) == Keys(content) + KeysOf(result)
    ensures missing <= KeysOf(result)
  {
    var lines := Split(templateContent);
    AllWritten(content, lines, missing, order, blocks, result);
    FlatFromLines(lines, order, blocks);
    SplitAppended(content, result);
    KeysOfConcat(Split(content), result);
    ExtractedHasKeys(content, lines, missing, order, blocks, result);
  }

  // ---- when every missing key is found

  /** All spaces are of the kind that the pattern knows. */
  predicate OrdinarySpaces(s: string) {
    forall i :: 0 <= i < |s| && IsSpace(s[i]) ==> IsPatternSpace(s[i])
  }

  lemma {:induction false} ColonBehind(v: string, rest: string)
    requires AllPatternSpace(v)
    ensures ColonAfterSpaces(v + [':'] + rest)
  {
    if v != "" {
      assert (v + [':'] + rest)[1..] == v[1..] + [':'] + rest;
      ColonBehind(v[1..], rest);
    }
  }

  lemma PartsOfLine(line: string, w: string, key: string, v: string, b: string)
    requires line == (w + key + v) + [':'] + b
    ensures |w| + |key| <= |line| && line[..|w|] == w && line[|w| + |key|..] == v + [':'] + b
    ensures key <= line[|w|..] && v == line[|w| + |key|..|w| + |key| + |v|]
  {
  }

  lemma OrdinaryPiece(s: string, i: nat, j: nat)
    requires OrdinarySpaces(s) && i <= j <= |s| && AllSpace(s[i..j])
    ensures AllPatternSpace(s[i..j])
  {
    forall k | 0 <= k < j - i ensures IsPatternSpace(s[i..j][k]) {
      assert IsSpace(s[i..j][k]) && s[i..j][k] == s[i + k];
    }
  }

  lemma PartsMatch(line: string, w: string, key: string, v: string, b: string)
    requires line == (w + key + v) + [':'] + b && OrdinarySpaces(line) && AllSpace(w) && AllSpace(v)
    ensures MatchesAt(line, key, |w|)
  {
    PartsOfLine(line, w, key, v, b);
    OrdinaryPiece(line, 0, |w|);
    OrdinaryPiece(line, |w| + |key|, |w| + |key| + |v|);
    ColonBehind(v, b);
  }

  lemma LineMatches(line: string)
    requires KeyOf(line).Some? && OrdinarySpaces(line)
    ensures Matches(line, KeyOf(line).value)
  {
    var (a, b) := Cut(line, ':').value;
    var w, v := TrimParts(a);
    PartsMatch(line, w, TrimSpace(a), v, b);
  }

  /** With ordinary spaces every key of the template is found. */
  lemma AllFound(lines: seq<string>, key: string)
    requires forall i :: 0 <= i < |lines| ==> OrdinarySpaces(lines[i])
    requires key in KeysOf(lines)
    ensures Found(lines, key)
  {
    var i :| 0 <= i < |lines| && KeyOf(lines[i]) == Some(key);
    LineMatches(lines[i]);
  }

  // ---- the pass

  datatype Pass = Pass(content: string, restart: bool)

  lemma TwoDeepIsKey(lines: seq<string>, key: string)
    requires TwoDeep(lines, key)
    ensures key in KeysOf(lines)
  {
    var i :| 0 <= i < |lines| && TwoDeepAt(lines, key, i);
    KeyAmong(lines, i);
  }

  lemma WantedAreNew(templateContent: string, content: string, key: string)
    requires key in WantedKeys(templateContent, content)
    ensures NewKey(content, key)
  {
    var lines := Split(templateContent);
    var i :| 0 <= i < |lines| && KeyOf(lines[i]) == Some(key);
    KeyIsName(lines[i]);
    if Old(content, key) {
      TwoDeepIsKey(Split(content), key);
    }
  }

  lemma {:induction false} AppendedLength(lines: seq<string>)
    ensures |Appended(lines)| >= |lines|
  {
    if lines != [] {
      AppendedLength(lines[..|lines| - 1]);
    }
  }

  ghost predicate RepairedBy(templateContent: string, content: string, reflected: set<string>, repaired: string,
      missing: set<string>, order: seq<string>, blocks: seq<seq<string>>, lines: seq<string>) {
    && Computed(templateContent, content, missing)
    && Extracted(Split(templateContent), reflected + missing, order, blocks, lines)
    && repaired == content + Appended(Kept(content, lines, 0))
  }

  /** The text after a pass in some iteration order. */
  ghost predicate Repaired(templateContent: string, content: string, reflected: set<string>, repaired: string) {
    exists missing, order, blocks, lines ::
      RepairedBy(templateContent, content, reflected, repaired, missing, order, blocks, lines)
  }

  lemma NothingToAdd(content: string, kept: seq<string>)
    requires kept == []
    ensures content + Appended(kept) == content
  {
  }

  lemma NothingExtracted(lines: seq<string>)
    ensures Extracted(lines, {} + {}, [], [], [])
  {
  }

  lemma NothingToRepair(templateContent: string, content: string)
    requires Computed(templateContent, content, {})
    ensures Repaired(templateContent, content, {}, content)
  {
    NothingToAdd(content, Kept(content, [], 0));
    NothingExtracted(Split(templateContent));
    assert RepairedBy(templateContent, content, {}, content, {}, [], [], []);
  }

  lemma {:induction false} KeptWithin(existing: string, lines: seq<string>, i: nat)
    requires i <= |lines|
    ensures forall l :: l in Kept(existing, lines, i) ==> l in lines[i..]
    decreases |lines| - i
  {
    if i < |lines| {
      var e := if Blank(lines[i]) || ':' !in lines[i] then i + 1 else BlockEnd(lines, i + 1, Indent(lines[i]));
      KeptWithin(existing, lines, e);
      assert lines[i..] == lines[i..e] + lines[e..];
      assert lines[i..][0] == lines[i];
    }
  }

  /** Whatever was extracted, the lines kept come behind those from before. */
  lemma LinesAfterAppend(templateContent: string, content: string, missing: set<string>, order: seq<string>,
      blocks: seq<seq<string>>, result: seq<string>)
    requires Extracted(Split(templateContent), missing, order, blocks, result)
    ensures Split(content + Appended(Kept(content, result, 0))) == Split(content) + Kept(content, result, 0)
  {
    var kept := Kept(content, result, 0);
    FlatFromLines(Split(templateContent), order, blocks);
    KeptWithin(content, result, 0);
    forall i | 0 <= i < |kept| ensures '\n' !in kept[i] {
      assert kept[i] in kept && kept[i] in result[0..];
    }
    SplitAppended(content, kept);
  }

  /** The keys afterwards are those from before and those of the lines kept. */
  lemma KeysAfterAppend(templateContent: string, content: string, missing: set<string>, order: seq<string>,
      blocks: seq<seq<string>>, result: seq<string>)
    requires Extracted(Split(templateContent), missing, order, blocks, result)
    ensures Keys(content + Appended(Kept(content, result, 0))) == Keys(content) + KeysOf(Kept(content, result, 0))
  {
    LinesAfterAppend(templateContent, content, missing, order, blocks, result);
    KeysOfConcat(Split(content), Kept(content, result, 0));
  }

  lemma RepairKeepsKeys(templateContent: string, content: string, reflected: set<string>, repaired: string)
    requires Repaired(templateContent, content, reflected, repaired)
    ensures Keys(content) <= Keys(repaired)
  {
    var missing, order, blocks, lines :|
      RepairedBy(templateContent, content, reflected, repaired, missing, order, blocks, lines);
    KeysAfterAppend(templateContent, content, reflected + missing, order, blocks, lines);
  }

  /** What the text comparison and the comparison of the parsed structures (`reflected`) find
      lacking is appended; the program restarts if anything was written. */
  method EnsureConfigComplete(templateContent: string, content: string, reflected: set<string>)
    returns (r: Result<Pass, string>)
    requires ClimbsEnd(Parents(templateContent), Candidates(templateContent, content))
    ensures r.Err? ==> !Found(Split(templateContent), r.error)
    ensures r.Ok? ==> Repaired(templateContent, content, reflected, r.value.content)
    ensures r.Ok? ==> (r.value.restart <==> r.value.content != content)
  {
    var missing := GetMissingSettingsByText(templateContent, content);
    var all := reflected + missing;
    if all == {} {
      assert reflected == {} && missing == {};
      NothingToRepair(templateContent, content);
      return Ok(Pass(content, false));
    }
    var extracted, order, blocks := ExtractMissingConfigLines(all, templateContent);
    if extracted.Err? {
      return Err(extracted.error);
    }
    var file, written := AppendToConfigFile(content, extracted.value);
    AppendedLength(Kept(content, extracted.value, 0));
    assert RepairedBy(templateContent, content, reflected, file, missing, order, blocks, extracted.value);
    r := Ok(Pass(file, written > 0));
  }
}
