/** Repairing a configuration: the blocks of missing keys are cut out of the template and
    appended, in config/config.go. */
module ConfigRepair {
  import opened Strings
  import opened ConfigLines
  import opened MissingKeys

  // ---- blocks of the template

  /** A line that belongs to a block whose head is indented n deep. */
  predicate Inside(line: string, n: nat) {
    Blank(line) || Indent(line) > n
  }

  function BlockEnd(lines: seq<string>, j: nat, n: nat): (e: nat)
    requires j <= |lines|
    ensures j <= e <= |lines|
    ensures forall x {:trigger Inside(lines[x], n)} :: j <= x < e ==> Inside(lines[x], n)
    ensures e < |lines| ==> !Inside(lines[e], n)
    decreases |lines| - j
  {
    if j < |lines| && Inside(lines[j], n) then BlockEnd(lines, j + 1, n) else j
  }

  predicate Matches(line: string, key: string) {
    MatchKey(line, key).Some?
  }

  predicate FirstAt(lines: seq<string>, key: string, i: int) {
    0 <= i < |lines| && Matches(lines[i], key) && forall j {:trigger Matches(lines[j], key)} :: 0 <= j < i ==>
      !Matches(lines[j], key)
  }

  predicate Found(lines: seq<string>, key: string) {
    exists i {:trigger Matches(lines[i], key)} :: 0 <= i < |lines| && Matches(lines[i], key)
  }

  /** From the first line of the key to the next nonblank line indented no deeper. */
  ghost predicate IsBlock(lines: seq<string>, key: string, i: nat, block: seq<string>) {
    FirstAt(lines, key, i) && block == lines[i..BlockEnd(lines, i + 1, MatchKey(lines[i], key).value)]
  }

  ghost predicate IsBlockOf(lines: seq<string>, key: string, block: seq<string>) {
    exists i: nat :: IsBlock(lines, key, i, block)
  }

  /** The blocks of the keys, one after the other. */
  ghost predicate AreBlocks(lines: seq<string>, order: seq<string>, blocks: seq<seq<string>>) {
    |blocks| == |order| && forall i {:trigger blocks[i]} :: 0 <= i < |order| ==> IsBlockOf(lines, order[i], blocks[i])
  }

  function Flat(blocks: seq<seq<string>>): seq<string> {
    if blocks == [] then [] else Flat(blocks[..|blocks| - 1]) + blocks[|blocks| - 1]
  }

  method ExtractBlock(lines: seq<string>, key: string) returns (block: Option<seq<string>>)
    ensures block.None? ==> !Found(lines, key)
    ensures block.Some? ==> IsBlockOf(lines, key, block.value)
  {
    for i := 0 to |lines|
      invariant forall j :: 0 <= j < i ==> !Matches(lines[j], key)
    {
      var matched := MatchKey(lines[i], key);
      if matched.None? {
        continue;
      }
      var indent := matched.value;
      var taken := [lines[i]];
      var j := i + 1;
      while j < |lines| && Inside(lines[j], indent)
        invariant i < j <= |lines| && taken == lines[i..j]
        invariant BlockEnd(lines, i + 1, indent) == BlockEnd(lines, j, indent)
      {
        taken := taken + [lines[j]];
        j := j + 1;
      }
      assert IsBlock(lines, key, i, taken);
      return Some(taken);
    }
    return None;
  }

  lemma OneMoreBlock(lines: seq<string>, order: seq<string>, blocks: seq<seq<string>>, key: string, block: seq<string>)
    requires AreBlocks(lines, order, blocks) && IsBlockOf(lines, key, block)
    ensures AreBlocks(lines, order + [key], blocks + [block]) && Flat(blocks + [block]) == Flat(blocks) + block
  {
    assert (blocks + [block])[..|blocks|] == blocks;
  }

  /** An extraction in some order of the keys. */
  ghost predicate Extracted(lines: seq<string>, missing: set<string>, order: seq<string>, blocks: seq<seq<string>>,
      result: seq<string>) {
    IsOrder(order, missing) && AreBlocks(lines, order, blocks) && result == Flat(blocks)
  }

  lemma OneMoreKey(order: seq<string>, keys: set<string>, key: string)
    requires IsOrder(order, keys) && key !in keys
    ensures IsOrder(order + [key], keys + {key})
  {
  }

  lemma OneMoreExtracted(lines: seq<string>, visited: set<string>, order: seq<string>, blocks: seq<seq<string>>,
      result: seq<string>, key: string, block: seq<string>)
    requires Extracted(lines, visited, order, blocks, result) && key !in visited && IsBlockOf(lines, key, block)
    ensures Extracted(lines, visited + {key}, order + [key], blocks + [block], result + block)
  {
    OneMoreBlock(lines, order, blocks, key, block);
    OneMoreKey(order, visited, key);
  }

  method ExtractMissingConfigLines(missingSettings: set<string>, configTemplate: string)
    returns (r: Result<seq<string>, string>, ghost order: seq<string>, ghost blocks: seq<seq<string>>)
    ensures r.Ok? ==> Extracted(Split(configTemplate), missingSettings, order, blocks, r.value)
    ensures r.Err? ==> r.error in missingSettings && !Found(Split(configTemplate), r.error)
  {
    var missingConfigLines: seq<string> := [];
    order, blocks := [], [];
    var lines := Split(configTemplate);
    var pending := missingSettings;
    ghost var visited: set<string> := {};
    while pending != {}
      invariant visited !! pending && visited + pending == missingSettings
      invariant Extracted(lines, visited, order, blocks, missingConfigLines)
      decreases |pending|
    {
      var yamlKey :| yamlKey in pending;
      pending := pending - {yamlKey};
      var block := ExtractBlock(lines, yamlKey);
      if block.None? {
        return Err(yamlKey), order, blocks;
      }
      OneMoreExtracted(lines, visited, order, blocks, missingConfigLines, yamlKey, block.value);
      missingConfigLines := missingConfigLines + block.value;
      order, blocks, visited := order + [yamlKey], blocks + [block.value], visited + {yamlKey};
    }
    r := Ok(missingConfigLines);
  }

  // ---- appending

  predicate TwoDeepAt(lines: seq<string>, key: string, i: int) {
    0 <= i < |lines| && KeyOf(lines[i]) == Some(key) && Indent(lines[i]) == 2
  }

  /** The key stands in some line indented two deep. */
  predicate TwoDeep(lines: seq<string>, key: string) {
    exists i :: 0 <= i < |lines| && TwoDeepAt(lines, key, i)
  }

  lemma TwoDeepInMore(lines: seq<string>, more: seq<string>, key: string)
    requires TwoDeep(lines, key)
    ensures TwoDeep(lines + more, key)
  {
    var i :| 0 <= i < |lines| && TwoDeepAt(lines, key, i);
    assert TwoDeepAt(lines + more, key, i);
  }

  lemma TwoDeepOfConcat(a: seq<string>, b: seq<string>, key: string)
    requires TwoDeep(a + b, key)
    ensures TwoDeep(a, key) || TwoDeep(b, key)
  {
    var i :| 0 <= i < |a + b| && TwoDeepAt(a + b, key, i);
    assert if i < |a| then TwoDeepAt(a, key, i) else TwoDeepAt(b, key, i - |a|);
  }

  lemma TwoDeepOfOne(line: string, key: string)
    ensures TwoDeep([line], key) <==> KeyOf(line) == Some(key) && Indent(line) == 2
  {
    if KeyOf(line) == Some(key) && Indent(line) == 2 {
      assert TwoDeepAt([line], key, 0);
    }
  }

  lemma TwoDeepBehind(lines: seq<string>, kept: seq<string>, key: string)
    requires TwoDeep(kept, key)
    ensures TwoDeep(lines + kept, key)
  {
    var j :| 0 <= j < |kept| && TwoDeepAt(kept, key, j);
    assert (lines + kept)[|lines| + j] == kept[j];
    assert TwoDeepAt(lines + kept, key, |lines| + j);
  }

  lemma SlicesAt(lines: seq<string>, i: nat)
    requires i < |lines|
    ensures lines[..i + 1] == lines[..i] + [lines[i]] && lines == lines[..i + 1] + lines[i + 1..]
  {
  }

  lemma TwoDeepStep(lines: seq<string>, i: nat, key: string)
    requires i < |lines|
    ensures TwoDeep(lines[..i + 1], key) <==>
      TwoDeep(lines[..i], key) || (KeyOf(lines[i]) == Some(key) && Indent(lines[i]) == 2)
    ensures KeyOf(lines[i]) == Some(key) && Indent(lines[i]) == 2 ==> TwoDeep(lines, key)
  {
    SlicesAt(lines, i);
    TwoDeepOfOne(lines[i], key);
    if TwoDeep(lines[..i], key) {
      TwoDeepInMore(lines[..i], [lines[i]], key);
    }
    if TwoDeep([lines[i]], key) {
      TwoDeepBehind(lines[..i], [lines[i]], key);
      TwoDeepInMore(lines[..i + 1], lines[i + 1..], key);
    }
    if TwoDeep(lines[..i + 1], key) {
      TwoDeepOfConcat(lines[..i], [lines[i]], key);
    }
  }

  predicate Old(existing: string, key: string) {
    TwoDeep(Split(existing), key)
  }

  method KeyExistsInConfig(content: string, key: string) returns (found: bool)
    ensures found <==> Old(content, key)
  {
    var lines := Split(content);
    for i := 0 to |lines|
      invariant !TwoDeep(lines[..i], key)
    {
      var lineKey := ReadKey(lines[i]);
      TwoDeepStep(lines, i, key);
      if lineKey.None? || Indent(lines[i]) != 2 {
        continue;
      }
      if lineKey.value == key {
        return true;
      }
    }
    assert lines[..|lines|] == lines;
    return false;
  }

  /** The lines that are written from index i on: groups whose head key is not there yet. */
  function Kept(existing: string, lines: seq<string>, i: nat): seq<string>
    requires i <= |lines|
    decreases |lines| - i
  {
    if i == |lines| then []
    else if Blank(lines[i]) then Kept(existing, lines, i + 1)
    else if ':' !in lines[i] then [lines[i]] + Kept(existing, lines, i + 1)
    else
      var e := BlockEnd(lines, i + 1, Indent(lines[i]));
      (if Old(existing, KeyText(lines[i])) then [] else lines[i..e]) + Kept(existing, lines, e)
  }

  /** Each line behind a newline. */
  function Appended(lines: seq<string>): string {
    if lines == [] then "" else Appended(lines[..|lines| - 1]) + "\n" + lines[|lines| - 1]
  }

  lemma AppendedOne(lines: seq<string>, line: string)
    ensures Appended(lines + [line]) == Appended(lines) + "\n" + line
  {
    assert (lines + [line])[..|lines|] == lines;
  }

  method WriteLine(file: string, ghost existing: string, ghost done: seq<string>, line: string) returns (longer: string)
    requires file == existing + Appended(done)
    ensures longer == existing + Appended(done + [line])
  {
    longer := file + "\n" + line;
    AppendedOne(done, line);
    AssociativeFour(existing, Appended(done), "\n", line);
  }

  method WriteLines(file: string, ghost existing: string, ghost done: seq<string>, lines: seq<string>)
    returns (longer: string)
    requires file == existing + Appended(done)
    ensures longer == existing + Appended(done + lines)
  {
    longer := file;
    assert done + lines[..0] == done;
    for i := 0 to |lines|
      invariant longer == existing + Appended(done + lines[..i])
    {
      assert done + lines[..i + 1] == (done + lines[..i]) + [lines[i]];
      longer := WriteLine(longer, existing, done + lines[..i], lines[i]);
    }
    assert lines[..|lines|] == lines;
  }

  /** The group that starts at index i, by the loop over j. */
  method CollectGroup(lines: seq<string>, i: nat) returns (blockLines: seq<string>, j: nat)
    requires i < |lines|
    ensures j == BlockEnd(lines, i + 1, Indent(lines[i])) && blockLines == lines[i..j]
  {
    var indent := Indent(lines[i]);
    blockLines := [lines[i]];
    j := i + 1;
    while j < |lines| && Inside(lines[j], indent)
      invariant i < j <= |lines| && blockLines == lines[i..j]
      invariant BlockEnd(lines, i + 1, indent) == BlockEnd(lines, j, indent)
    {
      blockLines := blockLines + [lines[j]];
      j := j + 1;
    }
  }

  /** The part of the group at index i that is written. */
  function KeptGroup(existing: string, lines: seq<string>, i: nat): seq<string>
    requires i < |lines|
  {
    if Old(existing, KeyText(lines[i])) then [] else lines[i..BlockEnd(lines, i + 1, Indent(lines[i]))]
  }

  method AppendGroup(existing: string, lines: seq<string>, i: nat, file: string, written: nat, ghost done: seq<string>)
    returns (longer: string, count: nat, j: nat)
    requires i < |lines| && ':' in lines[i] && file == existing + Appended(done)
    ensures j == BlockEnd(lines, i + 1, Indent(lines[i]))
    ensures longer == existing + Appended(done + KeptGroup(existing, lines, i))
    ensures count == written + |KeptGroup(existing, lines, i)|
  {
    longer, count := file, written;
    KeyFromTrimmed(lines[i]);
    var key := KeyText(TrimSpace(lines[i]));
    var blockLines;
    blockLines, j := CollectGroup(lines, i);
    var found := KeyExistsInConfig(existing, key);
    if found {
      assert done + [] == done;
      return;
    }
    longer := WriteLines(file, existing, done, blockLines);
    count := count + |blockLines|;
  }

  lemma KeptStep(existing: string, lines: seq<string>, i: nat, done: seq<string>)
    requires i < |lines|
    ensures Blank(lines[i]) ==> Kept(existing, lines, i) == Kept(existing, lines, i + 1)
    ensures !Blank(lines[i]) && ':' !in lines[i] ==>
      done + Kept(existing, lines, i) == done + [lines[i]] + Kept(existing, lines, i + 1)
    ensures !Blank(lines[i]) && ':' in lines[i] ==>
      done + Kept(existing, lines, i) ==
      done + KeptGroup(existing, lines, i) + Kept(existing, lines, BlockEnd(lines, i + 1, Indent(lines[i])))
  {
    Associative(done, [lines[i]], Kept(existing, lines, i + 1));
    var e := BlockEnd(lines, i + 1, Indent(lines[i]));
    Associative(done, KeptGroup(existing, lines, i), Kept(existing, lines, e));
  }

  method AppendToConfigFile(existing: string, lines: seq<string>) returns (file: string, written: nat)
    ensures file == existing + Appended(Kept(existing, lines, 0))
    ensures written == |Kept(existing, lines, 0)|
  {
    file, written := existing, 0;
    ghost var done: seq<string> := [];
    var i := 0;
    while i < |lines|
      invariant i <= |lines| && written == |done| && file == existing + Appended(done)
      invariant done + Kept(existing, lines, i) == Kept(existing, lines, 0)
    {
      var trimmed := TrimSpace(lines[i]);
      KeyFromTrimmed(lines[i]);
      KeptStep(existing, lines, i, done);
      if trimmed == "" || ':' !in trimmed {
        if trimmed != "" {
          file := WriteLine(file, existing, done, lines[i]);
          done := done + [lines[i]];
          written := written + 1;
        }
        i := i + 1;
      } else {
        ghost var group := KeptGroup(existing, lines, i);
        file, written, i := AppendGroup(existing, lines, i, file, written, done);
        done := done + group;
      }
    }
    assert done + [] == done;
  }
}
