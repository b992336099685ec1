/** Runs of repair passes, each ending in a restart of the program (ensureConfigComplete in
    config/config.go): how many there can be, and when they never end. */
module ConfigRestarts {
  import Strings
  import opened ConfigLines
  import opened ConfigParents
  import opened MissingKeys
  import opened ConfigRepair
  import opened ConfigPass
  import opened ConfigReflected

  // ---- a pass that writes something writes the block of a new key

  /** The first group that is written begins with a block of a new key, and takes all of it. */
  lemma {:induction false} FirstWritten(existing: string, keys: seq<string>, blocks: seq<seq<string>>,
      lines: seq<string>, starts: seq<nat>, i: nat) returns (j: nat)
    requires AllKeyBlocks(keys, blocks) && Layout(lines, blocks, starts) && Clear(lines, i)
    requires Kept(existing, lines, i) != []
    ensures j < |blocks| && !Old(existing, keys[j])
    ensures forall l :: l in blocks[j] ==> l in Kept(existing, lines, i)
    decreases |lines| - i
  {
    var h := ClearIsHead(keys, blocks, lines, starts, i);
    HeadKey(keys[h], blocks[h]);
    ClearAfter(lines, i);
    if Old(existing, keys[h]) {
      j := FirstWritten(existing, keys, blocks, lines, starts, BlockEnd(lines, i + 1, Indent(lines[i])));
      KeptLater(existing, lines, i, blocks[j]);
    } else {
      j := h;
      assert Placed(lines, blocks[h], starts[h]);
      GroupTakesBlock(lines, i, keys[h], blocks[h], i);
      LinesOfGroup(existing, lines, i, blocks[h], i);
    }
  }

  lemma BlockOfNewKey(lines: seq<string>, existing: string, keys: set<string>, order: seq<string>) returns (g: string)
    requires Extractable(lines, keys) && IsOrder(order, keys)
    requires Kept(existing, Flat(BlocksFor(lines, order)), 0) != []
    ensures g in keys && !Old(existing, g)
    ensures forall l :: l in BlockFor(lines, g) ==> l in Kept(existing, Flat(BlocksFor(lines, order)), 0)
  {
    var blocks := BlocksFor(lines, order);
    ShapeOfBlocks(lines, order, keys);
    var starts := FlatLayout(blocks);
    ClearAtStart(order, blocks, Flat(blocks), starts);
    var j := FirstWritten(existing, order, blocks, Flat(blocks), starts, 0);
    assert order[j] in order;
    g := order[j];
  }

  lemma SecondIsMissing(parents: map<string, string>, current: set<string>, keys: set<string>, second: set<string>)
    requires IsSecondRound(parents, current, FirstRound(parents, current, keys - current), second)
    ensures second !! current
  {
  }

  /** Whatever the four rounds find is the name of a key that the configuration lacks. */
  lemma ComputedAreMissing(templateContent: string, content: string, missing: set<string>)
    requires Computed(templateContent, content, missing)
    ensures forall k :: k in missing ==> k !in Keys(content) && IsKeyName(k)
  {
    var second, order :| ComputedBy(templateContent, content, second, order, missing);
    var parents, lines := Parents(templateContent), Split(templateContent);
    SecondIsMissing(parents, Keys(content), Keys(templateContent), second);
    DroppedOnly(parents, order, second);
    forall k | k in missing ensures IsKeyName(k) {
      ParentsAreKeys(lines, k);
      var i :| 0 <= i < |lines| && KeyOf(lines[i]) == Strings.Some(k);
      KeyIsName(lines[i]);
    }
  }

  /** What a pass has extracted and written. */
  lemma PartsOfPass(templateContent: string, content: string, reflected: set<string>, repaired: string)
    returns (missing: set<string>, order: seq<string>, kept: seq<string>)
    requires Repaired(templateContent, content, reflected, repaired) && AreNames(reflected)
    ensures Computed(templateContent, content, missing) && IsOrder(order, reflected + missing)
    ensures Extractable(Split(templateContent), reflected + missing)
    ensures kept == Kept(content, Flat(BlocksFor(Split(templateContent), order)), 0)
    ensures repaired == content + Appended(kept) && Split(repaired) == Split(content) + kept
    ensures forall k :: k in missing ==> k !in Keys(content)
  {
    var lines := Split(templateContent);
    var blocks, result;
    missing, order, blocks, result :|
      RepairedBy(templateContent, content, reflected, repaired, missing, order, blocks, result);
    ComputedAreMissing(templateContent, content, missing);
    ExtractedAreFound(lines, reflected + missing, order, blocks, result);
    ExtractedIsFlat(lines, reflected + missing, order, blocks, result);
    LinesAfterAppend(templateContent, content, reflected + missing, order, blocks, result);
    kept := Kept(content, result, 0);
  }

  ghost predicate AreNames(keys: set<string>) {
    forall k :: k in keys ==> IsKeyName(k)
  }

  lemma ExtractedAreFound(lines: seq<string>, keys: set<string>, order: seq<string>, blocks: seq<seq<string>>,
      result: seq<string>)
    requires Extracted(lines, keys, order, blocks, result)
    ensures forall k :: k in keys ==> Found(lines, k)
  {
    forall k | k in keys ensures Found(lines, k) {
      assert k in order;
      var j :| 0 <= j < |order| && order[j] == k;
      var i: nat :| IsBlock(lines, k, i, blocks[j]);
    }
  }

  lemma TwoDeepAppended(lines: seq<string>, block: seq<string>, kept: seq<string>, key: string)
    requires TwoDeep(block, key) && forall l :: l in block ==> l in kept
    ensures TwoDeep(lines + kept, key)
  {
    var i :| 0 <= i < |block| && TwoDeepAt(block, key, i);
    assert block[i] in block;
    var j :| 0 <= j < |kept| && kept[j] == block[i];
    assert TwoDeepAt(kept, key, j);
    TwoDeepBehind(lines, kept, key);
  }

  /** What stood two deep still does. */
  lemma OldStaysOld(templateContent: string, content: string, reflected: set<string>, repaired: string, key: string)
    requires Repaired(templateContent, content, reflected, repaired) && AreNames(reflected) && Old(content, key)
    ensures Old(repaired, key)
  {
    var missing, order, kept := PartsOfPass(templateContent, content, reflected, repaired);
    TwoDeepInMore(Split(content), kept, key);
  }

  /** A pass that changes the text writes the block of a key that does not stand two deep. */
  lemma NewKeyWritten(templateContent: string, content: string, reflected: set<string>, repaired: string)
    returns (missing: set<string>, g: string)
    requires Repaired(templateContent, content, reflected, repaired) && AreNames(reflected) && repaired != content
    ensures Computed(templateContent, content, missing) && g in reflected + missing && !Old(content, g)
    ensures g in missing ==> g !in Keys(content)
    ensures g in Keys(repaired) && g in Keys(templateContent)
    ensures TwoDeep(BlockFor(Split(templateContent), g), g) ==> Old(repaired, g)
  {
    var lines := Split(templateContent);
    var order, kept;
    missing, order, kept := PartsOfPass(templateContent, content, reflected, repaired);
    if kept == [] {
      NothingToAdd(content, kept);
    }
    g := BlockOfNewKey(lines, content, reflected + missing, order);
    KeyOfBlock(lines, g);
    KeyOfLines(BlockFor(lines, g), kept, g);
    KeysOfConcat(Split(content), kept);
    BlockForInLines(lines, g);
    KeyOfLines(BlockFor(lines, g), lines, g);
    if TwoDeep(BlockFor(lines, g), g) {
      TwoDeepAppended(Split(content), BlockFor(lines, g), kept, g);
    }
  }

  // ---- progress

  ghost predicate AllOld(content: string, reported: set<string>) {
    forall r {:trigger r in reported} :: r in reported ==> IsKeyName(r) && Old(content, r)
  }

  /** If every reported key stands two deep already, a pass writes nothing or leaves fewer wanted
      keys: one that danger keeps from being repaired gets its turn later. */
  lemma PassProgress(templateContent: string, content: string, reflected: set<string>, repaired: string)
    requires SETTINGS !in Parents(templateContent) && AllOld(content, reflected)
    requires Repaired(templateContent, content, reflected, repaired)
    ensures repaired == content || WantedKeys(templateContent, repaired) < WantedKeys(templateContent, content)
  {
    if repaired != content {
      var missing, g := NewKeyWritten(templateContent, content, reflected, repaired);
      TopLevelSettings(templateContent, content, missing);
      RepairKeepsKeys(templateContent, content, reflected, repaired);
      assert g in WantedKeys(templateContent, content) && g !in WantedKeys(templateContent, repaired);
    }
  }

  /** The keys of the template that a pass can still add: those that the text lacks, and those
      that are to be, but are not yet, two deep. */
  function Unsettled(templateContent: string, content: string): set<string> {
    set k | k in Keys(templateContent) &&
      (k !in Keys(content) || (TwoDeep(BlockFor(Split(templateContent), k), k) && !Old(content, k)))
  }

  ghost predicate Settleable(templateContent: string, content: string, reported: set<string>) {
    forall r :: r in reported ==> IsKeyName(r) && (Old(content, r) || r in Unsettled(templateContent, content))
  }

  /** A pass never unsettles a key, and one that writes something settles one. No condition on the
      template, so this covers torn texts and every iteration order. */
  lemma PassSettles(templateContent: string, content: string, reflected: set<string>, repaired: string)
    requires Settleable(templateContent, content, reflected)
    requires Repaired(templateContent, content, reflected, repaired)
    ensures Unsettled(templateContent, repaired) <= Unsettled(templateContent, content)
    ensures repaired != content ==> Unsettled(templateContent, repaired) < Unsettled(templateContent, content)
  {
    RepairKeepsKeys(templateContent, content, reflected, repaired);
    forall k | k in Unsettled(templateContent, repaired) ensures k in Unsettled(templateContent, content) {
      if Old(content, k) {
        OldStaysOld(templateContent, content, reflected, repaired, k);
      }
    }
    if repaired != content {
      var missing, g := NewKeyWritten(templateContent, content, reflected, repaired);
      assert g in Unsettled(templateContent, content) && g !in Unsettled(templateContent, repaired);
    }
  }

  // ---- runs

  /** Pass i is given the report of the structure comparison, changes the text, and restarts. */
  ghost predicate PassAt(templateContent: string, contents: seq<string>, reports: seq<set<string>>, i: int) {
    && 0 <= i < |reports| && |contents| == |reports| + 1
    && Repaired(templateContent, contents[i], reports[i], contents[i + 1]) && contents[i + 1] != contents[i]
  }

  ghost predicate Restarts(templateContent: string, contents: seq<string>, reports: seq<set<string>>) {
    && |contents| == |reports| + 1
    && forall i {:trigger PassAt(templateContent, contents, reports, i)} :: 0 <= i < |reports| ==>
         PassAt(templateContent, contents, reports, i)
  }

  lemma LaterRestarts(templateContent: string, contents: seq<string>, reports: seq<set<string>>)
    requires Restarts(templateContent, contents, reports) && reports != []
    ensures Restarts(templateContent, contents[1..], reports[1..])
  {
    forall i | 0 <= i < |reports[1..]| ensures PassAt(templateContent, contents[1..], reports[1..], i) {
      assert PassAt(templateContent, contents, reports, i + 1);
    }
  }

  lemma SmallerSet(a: set<string>, b: set<string>)
    requires a < b
    ensures |a| < |b|
  {
    var k :| k in b && k !in a;
    SubsetSize(a, b - {k});
  }

  /** If every reported key stands two deep when it is reported, the program restarts at most as
      often as there are wanted keys at the start. */
  lemma {:induction false} RestartsAtMostWanted(templateContent: string, contents: seq<string>,
      reports: seq<set<string>>)
    requires SETTINGS !in Parents(templateContent) && Restarts(templateContent, contents, reports)
    requires forall i {:trigger AllOld(contents[i], reports[i])} :: 0 <= i < |reports| ==>
      AllOld(contents[i], reports[i])
    ensures |reports| <= |WantedKeys(templateContent, contents[0])|
    decreases |reports|
  {
    if reports != [] {
      assert PassAt(templateContent, contents, reports, 0) && AllOld(contents[0], reports[0]);
      PassProgress(templateContent, contents[0], reports[0], contents[1]);
      LaterRestarts(templateContent, contents, reports);
      forall i | 0 <= i < |reports[1..]| ensures AllOld(contents[1..][i], reports[1..][i]) {
        assert AllOld(contents[i + 1], reports[i + 1]);
      }
      SmallerSet(WantedKeys(templateContent, contents[1]), WantedKeys(templateContent, contents[0]));
      RestartsAtMostWanted(templateContent, contents[1..], reports[1..]);
    }
  }

  /** The keys that stand two deep. */
  function OldKeys(content: string): set<string> {
    set k | k in Keys(content) && Old(content, k)
  }

  lemma PassKeepsOld(templateContent: string, content: string, reflected: set<string>, repaired: string)
    requires Repaired(templateContent, content, reflected, repaired) && AreNames(reflected)
    ensures OldKeys(content) <= OldKeys(repaired)
  {
    forall k | k in OldKeys(content) ensures k in OldKeys(repaired) {
      OldStaysOld(templateContent, content, reflected, repaired, k);
      TwoDeepIsKey(Split(repaired), k);
    }
  }

  ghost predicate AllReportNames(reports: seq<set<string>>) {
    forall i {:trigger AreNames(reports[i])} :: 0 <= i < |reports| ==> AreNames(reports[i])
  }

  lemma PassOfRun(templateContent: string, contents: seq<string>, reports: seq<set<string>>, i: nat)
    requires Restarts(templateContent, contents, reports) && AllReportNames(reports) && 0 < i <= |reports|
    ensures OldKeys(contents[i - 1]) <= OldKeys(contents[i])
  {
    assert AreNames(reports[i - 1]) && PassAt(templateContent, contents, reports, i - 1);
    PassKeepsOld(templateContent, contents[i - 1], reports[i - 1], contents[i]);
  }

  lemma {:induction false} Ascending(sets: seq<set<string>>, i: nat)
    requires i < |sets| && forall j :: 0 < j < |sets| ==> sets[j - 1] <= sets[j]
    ensures sets[0] <= sets[i]
  {
    if i > 0 {
      Ascending(sets, i - 1);
    }
  }

  /** What stands two deep does so for ever. */
  lemma OldInRun(templateContent: string, contents: seq<string>, reports: seq<set<string>>, i: nat)
    requires Restarts(templateContent, contents, reports) && AllReportNames(reports) && i <= |reports|
    ensures OldKeys(contents[0]) <= OldKeys(contents[i])
  {
    var sets := seq(|contents|, n requires 0 <= n < |contents| => OldKeys(contents[n]));
    forall j | 0 < j < |sets| ensures sets[j - 1] <= sets[j] {
      PassOfRun(templateContent, contents, reports, j);
    }
    Ascending(sets, i);
  }

  lemma OldLater(content: string, later: string, keys: set<string>)
    requires AllOld(content, keys) && OldKeys(content) <= OldKeys(later)
    ensures AllOld(later, keys)
  {
    forall k | k in keys ensures Old(later, k) {
      TwoDeepIsKey(Split(content), k);
      assert k in OldKeys(content);
    }
  }

  /** It is enough that everything ever reported stands two deep at the start. */
  lemma OldThroughRun(templateContent: string, contents: seq<string>, reports: seq<set<string>>, keys: set<string>)
    requires Restarts(templateContent, contents, reports) && AllOld(contents[0], keys)
    requires forall i :: 0 <= i < |reports| ==> reports[i] <= keys
    ensures forall i {:trigger AllOld(contents[i], reports[i])} :: 0 <= i < |reports| ==>
      AllOld(contents[i], reports[i])
  {
    forall i {:trigger AllOld(contents[i], reports[i])} | 0 <= i < |reports| ensures AllOld(contents[i], reports[i]) {
      assert reports[i] <= keys && AllReportNames(reports);
      OldInRun(templateContent, contents, reports, i);
      OldLater(contents[0], contents[i], reports[i]);
    }
  }

  /** The same for all templates and all reports of keys that are unsettled or two deep. */
  lemma {:induction false} RestartsBounded(templateContent: string, contents: seq<string>, reports: seq<set<string>>)
    requires Restarts(templateContent, contents, reports)
    requires forall i {:trigger Settleable(templateContent, contents[i], reports[i])} :: 0 <= i < |reports| ==>
      Settleable(templateContent, contents[i], reports[i])
    ensures |reports| <= |Unsettled(templateContent, contents[0])|
    decreases |reports|
  {
    if reports != [] {
      assert PassAt(templateContent, contents, reports, 0) && Settleable(templateContent, contents[0], reports[0]);
      PassSettles(templateContent, contents[0], reports[0], contents[1]);
      LaterRestarts(templateContent, contents, reports);
      forall i | 0 <= i < |reports[1..]| ensures Settleable(templateContent, contents[1..][i], reports[1..][i]) {
        assert Settleable(templateContent, contents[i + 1], reports[i + 1]);
      }
      SmallerSet(Unsettled(templateContent, contents[1]), Unsettled(templateContent, contents[0]));
      RestartsBounded(templateContent, contents[1..], reports[1..]);
    }
  }

  // ---- restarts without end

  /** From this text the program can restart n times while the same key is reported each time. */
  ghost predicate RestartsTimes(templateContent: string, content: string, key: string, n: nat) {
    exists contents: seq<string>, reports: seq<set<string>> ::
      RunReporting(templateContent, content, key, contents, reports) && |reports| == n
  }

  ghost predicate RunReporting(templateContent: string, content: string, key: string, contents: seq<string>,
      reports: seq<set<string>>) {
    && Restarts(templateContent, contents, reports) && contents[0] == content
    && forall i :: 0 <= i < |reports| ==> reports[i] == {key}
  }

  /** Nothing is wanted, and the key can be extracted but can never come to stand two deep. */
  ghost predicate NeverSettles(templateContent: string, content: string, key: string) {
    && SETTINGS !in Parents(templateContent) && SETTINGS in Keys(content) && WantedKeys(templateContent, content) == {}
    && IsKeyName(key) && Found(Split(templateContent), key)
    && !Old(content, key) && !TwoDeep(BlockFor(Split(templateContent), key), key)
  }

  /** A key that stands two deep at the start causes no restart beyond those for the wanted keys. */
  lemma OldReportRestarts(templateContent: string, key: string, contents: seq<string>, reports: seq<set<string>>)
    requires contents != [] && RunReporting(templateContent, contents[0], key, contents, reports)
    requires SETTINGS !in Parents(templateContent) && AllOld(contents[0], {key})
    ensures |reports| <= |WantedKeys(templateContent, contents[0])|
  {
    OldThroughRun(templateContent, contents, reports, {key});
    RestartsAtMostWanted(templateContent, contents, reports);
  }

  lemma FlatOfOne(block: seq<string>)
    ensures Flat([block]) == block
  {
    assert Flat([block]) == Flat([]) + block;
  }

  lemma BlockKept(lines: seq<string>, existing: string, key: string)
    requires NewKey(existing, key) && Found(lines, key)
    ensures Kept(existing, Flat(BlocksFor(lines, [key])), 0) == BlockFor(lines, key) != []
    ensures IsOrder([key], {key}) && Extractable(lines, {key})
  {
    BlocksForAre(lines, [key], {key});
    AllWritten(existing, lines, {key}, [key], BlocksFor(lines, [key]), Flat(BlocksFor(lines, [key])));
    assert BlocksFor(lines, [key]) == [BlockFor(lines, key)];
    FlatOfOne(BlockFor(lines, key));
    BlockForShape(lines, key);
  }

  /** Then each pass appends its block once more. */
  lemma AppendedAgain(templateContent: string, content: string, key: string) returns (repaired: string)
    requires NeverSettles(templateContent, content, key)
    ensures Repaired(templateContent, content, {key}, repaired) && repaired != content
    ensures NeverSettles(templateContent, repaired, key)
  {
    var lines := Split(templateContent);
    var block := BlockFor(lines, key);
    BlockKept(lines, content, key);
    repaired := content + Appended(block);
    assert ToAppend(templateContent, content, {key}) == {key};
    OrderRepairs(templateContent, content, {key}, [key], repaired);
    AppendedLength(block);
    RepairKeepsKeys(templateContent, content, {key}, repaired);
    BlocksForAre(lines, [key], {key});
    LinesAfterAppend(templateContent, content, {key}, [key], BlocksFor(lines, [key]), Flat(BlocksFor(lines, [key])));
    if Old(repaired, key) {
      TwoDeepOfConcat(Split(content), block, key);
    }
  }

  lemma OneMoreReport(templateContent: string, content: string, key: string, repaired: string, contents: seq<string>,
      reports: seq<set<string>>)
    requires Repaired(templateContent, content, {key}, repaired) && repaired != content
    requires RunReporting(templateContent, repaired, key, contents, reports)
    ensures RunReporting(templateContent, content, key, [content] + contents, [{key}] + reports)
  {
    OneMoreRestart(templateContent, content, {key}, contents, reports);
  }

  lemma OneMoreRestart(templateContent: string, content: string, report: set<string>, contents: seq<string>,
      reports: seq<set<string>>)
    requires Restarts(templateContent, contents, reports)
    requires Repaired(templateContent, content, report, contents[0]) && contents[0] != content
    ensures Restarts(templateContent, [content] + contents, [report] + reports)
  {
    var cs, rs := [content] + contents, [report] + reports;
    forall i | 0 <= i < |rs| ensures PassAt(templateContent, cs, rs, i) {
      if i > 0 {
        assert PassAt(templateContent, contents, reports, i - 1);
        PassShifted(templateContent, content, report, contents, reports, i - 1);
      }
    }
  }

  lemma PassShifted(templateContent: string, content: string, report: set<string>, contents: seq<string>,
      reports: seq<set<string>>, i: int)
    requires PassAt(templateContent, contents, reports, i)
    ensures PassAt(templateContent, [content] + contents, [report] + reports, i + 1)
  {
    var cs, rs := [content] + contents, [report] + reports;
    assert cs[i + 1] == contents[i] && cs[i + 2] == contents[i + 1] && rs[i + 1] == reports[i];
  }

  lemma {:induction false} AlwaysOnceMore(templateContent: string, content: string, key: string, n: nat)
    returns (contents: seq<string>, reports: seq<set<string>>)
    requires NeverSettles(templateContent, content, key)
    ensures RunReporting(templateContent, content, key, contents, reports) && |reports| == n
    decreases n
  {
    if n == 0 {
      contents, reports := [content], [];
    } else {
      var repaired := AppendedAgain(templateContent, content, key);
      contents, reports := AlwaysOnceMore(templateContent, repaired, key, n - 1);
      OneMoreReport(templateContent, content, key, repaired, contents, reports);
      contents, reports := [content] + contents, [{key}] + reports;
    }
  }

  /** A key of the template whose block holds a line of it two deep is always fit to be reported. */
  lemma BlockSettles(templateContent: string, content: string, key: string)
    requires IsKeyName(key) && Found(Split(templateContent), key)
    requires TwoDeep(BlockFor(Split(templateContent), key), key)
    ensures Settleable(templateContent, content, {key})
  {
    var lines := Split(templateContent);
    BlockForInLines(lines, key);
    KeyOfBlock(lines, key);
    KeyOfLines(BlockFor(lines, key), lines, key);
  }

  lemma NoRestartWhenOld(templateContent: string, content: string, key: string)
    requires SETTINGS !in Parents(templateContent) && WantedKeys(templateContent, content) == {}
    requires AllOld(content, {key})
    ensures !RestartsTimes(templateContent, content, key, 1)
  {
    if RestartsTimes(templateContent, content, key, 1) {
      var contents: seq<string>, reports: seq<set<string>> :|
        RunReporting(templateContent, content, key, contents, reports) && |reports| == 1;
      assert PassAt(templateContent, contents, reports, 0) && reports[0] == {key};
      PassProgress(templateContent, content, {key}, contents[1]);
    }
  }

  lemma FewRestartsWhenSettling(templateContent: string, content: string, key: string)
    requires IsKeyName(key) && Found(Split(templateContent), key)
    requires TwoDeep(BlockFor(Split(templateContent), key), key)
    ensures !RestartsTimes(templateContent, content, key, |Unsettled(templateContent, content)| + 1)
  {
    var n := |Unsettled(templateContent, content)| + 1;
    if RestartsTimes(templateContent, content, key, n) {
      var contents: seq<string>, reports: seq<set<string>> :|
        RunReporting(templateContent, content, key, contents, reports) && |reports| == n;
      forall i {:trigger Settleable(templateContent, contents[i], reports[i])} | 0 <= i < n
        ensures Settleable(templateContent, contents[i], reports[i])
      {
        assert reports[i] == {key};
        BlockSettles(templateContent, contents[i], key);
      }
      RestartsBounded(templateContent, contents, reports);
    }
  }

  /** Where nothing is wanted and one key is reported again and again, the program restarts for
      ever exactly if the key does not stand two deep and does not do so in its block either. */
  lemma EndlessRestartsIff(templateContent: string, content: string, key: string)
    requires SETTINGS !in Parents(templateContent) && SETTINGS in Keys(content)
    requires WantedKeys(templateContent, content) == {} && IsKeyName(key) && Found(Split(templateContent), key)
    ensures (forall n: nat :: RestartsTimes(templateContent, content, key, n)) <==>
            !Old(content, key) && !TwoDeep(BlockFor(Split(templateContent), key), key)
  {
    if Old(content, key) {
      NoRestartWhenOld(templateContent, content, key);
    } else if TwoDeep(BlockFor(Split(templateContent), key), key) {
      FewRestartsWhenSettling(templateContent, content, key);
    } else {
      forall n: nat ensures RestartsTimes(templateContent, content, key, n) {
        var contents, reports := AlwaysOnceMore(templateContent, content, key, n);
      }
    }
  }

  // ---- after a pass without danger

  lemma ParentOfDeeper(rows: seq<Row>, i: nat, x: nat)
    requires i < x < |rows| && rows[i].key.Some? && rows[x].key.Some? && rows[i].indent < rows[x].indent
    ensures rows[x].key.value in ParentMap(rows)
  {
    assert HasKey(rows, i);
    assert NearestAbove(rows, x, rows[x].indent).Some?;
    assert Parented(rows, x, rows[x].key.value);
    var last := MappedByLast(rows, |rows|, rows[x].key.value);
  }

  /** Every line of a key below the first is indented deeper. */
  ghost predicate KeysDeeper(block: seq<string>) {
    forall y :: 0 < y < |block| && KeyOf(block[y]).Some? ==> Indent(block[y]) > Indent(block[0])
  }

  lemma KeysBelowHead(key: string, block: seq<string>)
    requires KeyBlock(key, block)
    ensures KeysDeeper(block) && KeyOf(block[0]) == Strings.Some(key)
  {
    forall y | 0 < y < |block| && KeyOf(block[y]).Some? ensures Indent(block[y]) > Indent(block[0]) {
      assert Inside(block[y], Indent(block[0]));
    }
  }

  lemma BlockStart(lines: seq<string>, key: string) returns (i: nat)
    ensures Placed(lines, BlockFor(lines, key), i)
  {
    i := IndexFrom(lines, key, 0);
  }

  lemma ParentOfLine(lines: seq<string>, i: nat, x: nat)
    requires i < x < |lines| && KeyOf(lines[i]).Some? && KeyOf(lines[x]).Some? && Indent(lines[i]) < Indent(lines[x])
    ensures KeyOf(lines[x]).value in ParentMap(Rows(lines))
  {
    ParentOfDeeper(Rows(lines), i, x);
  }

  lemma KeyBelowHasParent(lines: seq<string>, i: nat, block: seq<string>, y: nat)
    requires Placed(lines, block, i) && KeysDeeper(block) && 0 < y < |block|
    requires KeyOf(block[0]).Some? && KeyOf(block[y]).Some?
    ensures KeyOf(block[y]).value in ParentMap(Rows(lines))
  {
    assert lines[i + y] == block[y] && lines[i + 0] == block[0];
    ParentOfLine(lines, i, i + y);
  }

  lemma NotBelowHead(lines: seq<string>, i: nat, block: seq<string>, key: string, k: string)
    requires Placed(lines, block, i) && KeysDeeper(block) && block != [] && KeyOf(block[0]) == Strings.Some(key)
    requires k !in ParentMap(Rows(lines)) && k != key
    ensures k !in KeysOf(block)
  {
    if k in KeysOf(block) {
      var y :| 0 <= y < |block| && KeyOf(block[y]) == Strings.Some(k);
      KeyBelowHasParent(lines, i, block, y);
    }
  }

  /** Without a parent a key stands in no block but its own. */
  lemma NotInOtherBlock(lines: seq<string>, key: string, k: string)
    requires k !in ParentMap(Rows(lines)) && IsKeyName(key) && Found(lines, key) && k != key
    ensures k !in KeysOf(BlockFor(lines, key))
  {
    BlockForShape(lines, key);
    KeysBelowHead(key, BlockFor(lines, key));
    var i := BlockStart(lines, key);
    NotBelowHead(lines, i, BlockFor(lines, key), key, k);
  }

  lemma SettingsNotAppended(templateContent: string, content: string, reflected: set<string>, repaired: string)
    requires SETTINGS !in Parents(templateContent) && SETTINGS !in Keys(content) && SETTINGS !in reflected
    requires Repaired(templateContent, content, reflected, repaired) && AreNames(reflected)
    ensures SETTINGS !in Keys(repaired)
  {
    var lines := Split(templateContent);
    var missing, order, kept := PartsOfPass(templateContent, content, reflected, repaired);
    TopLevelSettings(templateContent, content, missing);
    KeysOfConcat(Split(content), kept);
    if SETTINGS in KeysOf(kept) {
      var i :| 0 <= i < |kept| && KeyOf(kept[i]) == Strings.Some(SETTINGS);
      KeptWithin(content, Flat(BlocksFor(lines, order)), 0);
      assert kept[i] in kept;
      var j := LineOfFlat(BlocksFor(lines, order), kept[i]);
      assert order[j] in order;
      KeyInKeys(BlockFor(lines, order[j]), kept[i]);
      NotInOtherBlock(lines, order[j], SETTINGS);
    }
  }

  /** After a first pass without danger nothing is wanted, whatever was reported. */
  lemma SafePassLeavesNothing(templateContent: string, content: string, reflected: set<string>, repaired: string)
    requires SETTINGS !in Parents(templateContent) && AreNames(reflected)
    requires SETTINGS in Keys(content) || SETTINGS !in reflected
    requires Repaired(templateContent, content, reflected, repaired) && !Endangers(templateContent, content, reflected)
    ensures WantedKeys(templateContent, repaired) == {}
  {
    if SETTINGS in Keys(content) {
      var missing, order, kept := PartsOfPass(templateContent, content, reflected, repaired);
      TopLevelSettings(templateContent, content, missing);
      SafePassSuffices(templateContent, content, reflected, repaired);
    } else {
      SettingsNotAppended(templateContent, content, reflected, repaired);
    }
  }

  /** And then no restart loop: a second pass writes nothing, whatever was reported in the first,
      provided that what is reported in the second stands two deep. */
  lemma SecondPassIdle(templateContent: string, content: string, reflected: set<string>, repaired: string,
      reported: set<string>, again: string)
    requires SETTINGS !in Parents(templateContent) && AreNames(reflected)
    requires SETTINGS in Keys(content) || SETTINGS !in reflected
    requires Repaired(templateContent, content, reflected, repaired) && !Endangers(templateContent, content, reflected)
    requires Repaired(templateContent, repaired, reported, again) && AllOld(repaired, reported)
    ensures again == repaired
    ensures Candidates(templateContent, repaired) <= Candidates(templateContent, content)
  {
    SafePassLeavesNothing(templateContent, content, reflected, repaired);
    PassProgress(templateContent, repaired, reported, again);
    RepairKeepsKeys(templateContent, content, reflected, repaired);
  }

  /** Where the structure comparison reports nothing there is no danger. */
  lemma NoReportNoDanger(templateContent: string, content: string)
    ensures !Endangers(templateContent, content, {})
  {
    forall k | k in WantedKeys(templateContent, content) ensures !Old(content, k) {
      WantedAreNew(templateContent, content, k);
    }
  }
}
