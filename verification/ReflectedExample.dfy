/** A configuration that a repair pass leaves as it is although a setting is wanted: the version
    number stands below `settings` instead of at the top. */
module ReflectedExample {
  import opened Strings
  import opened ConfigLines
  import opened ConfigParents
  import opened MissingKeys
  import opened MissingExamples
  import opened ConfigRepair
  import ConfigPass
  import opened ConfigReflected
  import opened ConfigRestarts

  lemma FirstIsMember(kept: seq<string>)
    ensures kept != [] ==> kept[0] in kept
  {
  }

  lemma NothingLeft(kept: seq<string>)
    requires forall l :: l in kept ==> l in Flat([])
    ensures kept == []
  {
    FirstIsMember(kept);
  }

  lemma NothingKept(lines: seq<string>, existing: string, keys: set<string>, order: seq<string>)
    requires Extractable(lines, keys) && order != [] && Old(existing, order[0])
    requires forall g :: g in order ==> g in keys && Sinks(lines, existing, Depth(lines, order[0]), g)
    ensures Kept(existing, Flat(BlocksFor(lines, order)), 0) == []
  {
    WrittenFromOthers(lines, existing, keys, order, []);
    assert order + [] == order && BlocksFor(lines, []) == [];
    NothingLeft(Kept(existing, Flat(BlocksFor(lines, order)), 0));
  }

  lemma OrderWithFirst(keys: set<string>, r: string) returns (order: seq<string>)
    requires r in keys
    ensures IsOrder(order, keys) && order != [] && order[0] == r
  {
    var rest := SomeOrder(keys - {r});
    order := [r] + rest;
    OrderInParts(r, keys - {r}, {}, rest, []);
    assert order + [] == order && {r} + (keys - {r}) + {} == keys;
  }

  lemma AllSink(lines: seq<string>, existing: string, keys: set<string>, order: seq<string>, r: string)
    requires IsOrder(order, keys) && Old(existing, r) && forall g :: g in keys && g != r ==>
      Depth(lines, r) < Depth(lines, g)
    ensures forall g :: g in order ==> g in keys && Sinks(lines, existing, Depth(lines, r), g)
  {
  }

  /** An old block shallower than all others swallows them if it comes first: nothing is written. */
  lemma AllSwallowed(templateContent: string, content: string, reflected: set<string>, r: string)
    requires SETTINGS !in Parents(templateContent) && r in reflected && Old(content, r)
    requires Extractable(Split(templateContent), ToAppend(templateContent, content, reflected))
    requires forall g :: g in ToAppend(templateContent, content, reflected) && g != r ==>
               Depth(Split(templateContent), r) < Depth(Split(templateContent), g)
    ensures ConfigPass.Repaired(templateContent, content, reflected, content)
  {
    var keys, lines := ToAppend(templateContent, content, reflected), Split(templateContent);
    var order := OrderWithFirst(keys, r);
    AllSink(lines, content, keys, order, r);
    NothingKept(lines, content, keys, order);
    ConfigPass.NothingToAdd(content, Kept(content, Flat(BlocksFor(lines, order)), 0));
    OrderRepairs(templateContent, content, reflected, order, content);
  }

  /** A line of the key, n deep, found by the pattern of the key. */
  predicate LineFor(line: string, n: nat, key: string) {
    KeyOf(line) == Some(key) && Indent(line) == n && Matches(line, key)
  }

  /** A line with anything behind the colon. */
  lemma ValueLineFor(n: nat, key: string, value: string)
    requires IsName(key)
    ensures LineFor(Line(n, key) + value, n, key)
  {
    var line := Line(n, key) + value;
    assert line[n..] == key + ":" + value && line[n + |key|..] == ":" + value && line[n] == key[0];
    assert MatchesAt(line, key, n);
    MatchIsKey(line, key, n);
    IndentOfPadded(line, n);
  }

  lemma OtherLineIsNot(line: string, n: nat, key: string, other: string)
    requires LineFor(line, n, key) && IsLineName(other) && key != other
    ensures !Matches(line, other)
  {
    if Matches(line, other) {
      MatchIsKey(line, other, MatchKey(line, other).value);
    }
  }

  lemma DepthAt(lines: seq<string>, i: nat, n: nat, key: string)
    requires i < |lines| && LineFor(lines[i], n, key) && IndexFrom(lines, key, 0) == i
    ensures Found(lines, key) && Depth(lines, key) == n
  {
  }

  lemma DepthOfThird(lines: seq<string>, n: nat, key: string)
    requires |lines| == 3 && LineFor(lines[2], n, key) && !Matches(lines[0], key) && !Matches(lines[1], key)
    ensures Found(lines, key) && Depth(lines, key) == n
  {
    assert IndexFrom(lines, key, 2) == 2;
    assert IndexFrom(lines, key, 1) == 2;
    DepthAt(lines, 2, n, key);
  }

  lemma FlatRows(rows: seq<Row>, a: string, b: string)
    requires rows == [Row(Some(a), 0), Row(Some(SETTINGS), 0), Row(Some(b), 2)]
    ensures ParentMap(rows) == map[b := SETTINGS]
  {
    assert ParentOf(rows, 0) == None && ParentOf(rows, 1) == None && ParentOf(rows, 2) == Some(SETTINGS);
    assert ParentsUpTo(rows, 1) == map[];
    assert ParentsUpTo(rows, 2) == map[];
  }

  lemma KeysOfOne(line: string, key: string)
    requires KeyOf(line) == Some(key)
    ensures KeysOf([line]) == {key}
  {
    KeyAmong([line], 0);
  }

  lemma KeysOfTwo(a: string, b: string, j: string, k: string)
    requires KeyOf(a) == Some(j) && KeyOf(b) == Some(k)
    ensures KeysOf([a, b]) == {j, k}
  {
    assert [a, b] == [a] + [b];
    KeysOfConcat([a], [b]);
    KeysOfOne(a, j);
    KeysOfOne(b, k);
  }

  lemma KeysOfThree(a: string, b: string, c: string, i: string, j: string, k: string)
    requires KeyOf(a) == Some(i) && KeyOf(b) == Some(j) && KeyOf(c) == Some(k)
    ensures KeysOf([a, b, c]) == {i, j, k}
  {
    assert [a, b, c] == [a, b] + [c];
    KeysOfConcat([a, b], [c]);
    KeysOfTwo(a, b, i, j);
    KeysOfOne(c, k);
  }

  ghost predicate Names(version: string, port: string) {
    IsLineName(version) && IsLineName(port) && version != port && version != SETTINGS && port != SETTINGS
  }

  /** A template with the version at the top and the port below `settings`. */
  ghost predicate TemplateShape(lines: seq<string>, version: string, port: string) {
    |lines| == 3 && LineFor(lines[0], 0, version) && LineFor(lines[1], 0, SETTINGS) && LineFor(lines[2], 2, port)
  }

  /** A configuration with the version below `settings`, and no port. */
  ghost predicate ConfigShape(lines: seq<string>, version: string) {
    |lines| == 2 && LineFor(lines[0], 0, SETTINGS) && LineFor(lines[1], 2, version)
  }

  lemma ThreeLinesAre(lines: seq<string>)
    requires |lines| == 3
    ensures lines == [lines[0], lines[1], lines[2]]
  {
  }

  lemma TemplateKeys(lines: seq<string>, version: string, port: string)
    requires TemplateShape(lines, version, port)
    ensures KeysOf(lines) == {version, SETTINGS, port}
  {
    ThreeLinesAre(lines);
    KeysOfThree(lines[0], lines[1], lines[2], version, SETTINGS, port);
  }

  lemma TemplateParents(lines: seq<string>, version: string, port: string)
    requires TemplateShape(lines, version, port)
    ensures ParentMap(Rows(lines)) == map[port := SETTINGS]
  {
    ThreeLinesAre(lines);
    RowsOfThree(lines[0], lines[1], lines[2]);
    FlatRows(Rows(lines), version, port);
  }

  lemma TemplateBlocks(lines: seq<string>, version: string, port: string)
    requires Names(version, port) && TemplateShape(lines, version, port)
    ensures Found(lines, version) && Found(lines, port) && Depth(lines, version) == 0 && Depth(lines, port) == 2
  {
    OtherLineIsNot(lines[0], 0, version, port);
    OtherLineIsNot(lines[1], 0, SETTINGS, port);
    DepthAt(lines, 0, 0, version);
    DepthOfThird(lines, 2, port);
  }

  lemma ConfigKeys(lines: seq<string>, version: string)
    requires ConfigShape(lines, version)
    ensures KeysOf(lines) == {SETTINGS, version}
  {
    assert lines == [lines[0], lines[1]];
    KeysOfTwo(lines[0], lines[1], SETTINGS, version);
  }

  lemma VersionTwoDeep(lines: seq<string>, version: string)
    requires ConfigShape(lines, version)
    ensures TwoDeep(lines, version)
  {
    assert TwoDeepAt(lines, version, 1);
  }

  lemma OnlyPortWanted(parents: map<string, string>, version: string, port: string)
    requires parents == map[port := SETTINGS] && version != port && port != SETTINGS
    ensures Wanted(parents, {version, SETTINGS, port}, {SETTINGS, version}) == {port}
  {
    assert {version, SETTINGS, port} - {SETTINGS, version} == {port};
    assert ChildOfSettings(parents, port);
  }

  /** The version is appended because it is missing at the top, but it stands two deep already. */
  ghost predicate VersionBelow(templateContent: string, content: string, version: string, port: string) {
    && SETTINGS !in Parents(templateContent) && SETTINGS in Keys(content) && Old(content, version)
    && WantedKeys(templateContent, content) == {port}
    && Extractable(Split(templateContent), {version, port})
    && Depth(Split(templateContent), version) < Depth(Split(templateContent), port)
  }

  lemma ExtractablePair(lines: seq<string>, a: string, b: string)
    requires IsKeyName(a) && IsKeyName(b) && Found(lines, a) && Found(lines, b)
    ensures Extractable(lines, {a, b})
  {
  }

  lemma PortIsWanted(templateContent: string, content: string, version: string, port: string)
    requires version != port && port != SETTINGS
    requires Parents(templateContent) == map[port := SETTINGS]
    requires Keys(templateContent) == {version, SETTINGS, port} && Keys(content) == {SETTINGS, version}
    ensures WantedKeys(templateContent, content) == {port}
  {
    OnlyPortWanted(Parents(templateContent), version, port);
  }

  lemma VersionIsBelow(templateContent: string, content: string, version: string, port: string)
    requires Names(version, port) && TemplateShape(Split(templateContent), version, port) &&
      ConfigShape(Split(content), version)
    ensures VersionBelow(templateContent, content, version, port)
  {
    var lines := Split(templateContent);
    TemplateKeys(lines, version, port);
    TemplateParents(lines, version, port);
    TemplateBlocks(lines, version, port);
    ConfigKeys(Split(content), version);
    VersionTwoDeep(Split(content), version);
    PortIsWanted(templateContent, content, version, port);
    ExtractablePair(lines, version, port);
  }

  lemma PairToAppend(templateContent: string, content: string, version: string, port: string)
    requires WantedKeys(templateContent, content) == {port}
    ensures ToAppend(templateContent, content, {version}) == {version, port}
  {
  }

  lemma OnlyVersionShallow(templateContent: string, content: string, version: string, port: string)
    requires VersionBelow(templateContent, content, version, port)
    ensures Extractable(Split(templateContent), ToAppend(templateContent, content, {version}))
    ensures forall g :: g in ToAppend(templateContent, content, {version}) && g != version ==>
      Depth(Split(templateContent), version) < Depth(Split(templateContent), g)
  {
    PairToAppend(templateContent, content, version, port);
  }

  lemma NothingDone(templateContent: string, content: string, version: string, port: string)
    requires VersionBelow(templateContent, content, version, port)
    ensures ConfigPass.Repaired(templateContent, content, {version}, content)
  {
    OnlyVersionShallow(templateContent, content, version, port);
    AllSwallowed(templateContent, content, {version}, version);
  }

  /** In one order its block swallows that of the port: the pass writes nothing, and the port,
      which is wanted, stays wanted. */
  lemma VersionBelowSettings(templateContent: string, content: string, version: string, port: string)
    requires Names(version, port) && TemplateShape(Split(templateContent), version, port) &&
      ConfigShape(Split(content), version)
    ensures WantedKeys(templateContent, content) == {port} &&
      ConfigPass.Repaired(templateContent, content, {version}, content)
  {
    VersionIsBelow(templateContent, content, version, port);
    NothingDone(templateContent, content, version, port);
  }

  lemma ValueLine(n: nat, key: string, value: string) returns (line: string)
    requires IsLineName(key) && '\n' !in value
    ensures line == Line(n, key) + value && LineFor(line, n, key) && '\n' !in line
  {
    ValueLineFor(n, key, value);
    LineHasNoNewline(n, key);
    line := Line(n, key) + value;
  }

  lemma SettingsLine() returns (line: string)
    ensures line == Line(0, SETTINGS) && LineFor(line, 0, SETTINGS) && '\n' !in line
  {
    SettingsIsName();
    line := ValueLine(0, SETTINGS, "");
    assert Line(0, SETTINGS) + "" == Line(0, SETTINGS);
  }

  lemma TemplateFrom(a: string, b: string, c: string, version: string, port: string) returns (templateContent: string)
    requires '\n' !in a && '\n' !in b && '\n' !in c
    requires LineFor(a, 0, version) && LineFor(b, 0, SETTINGS) && LineFor(c, 2, port)
    ensures Split(templateContent) == [a, b, c] && TemplateShape(Split(templateContent), version, port)
  {
    templateContent := JoinedThree(a, b, c);
  }

  lemma TemplateExists(version: string, port: string, x: string, y: string) returns (templateContent: string)
    requires Names(version, port) && '\n' !in x && '\n' !in y
    ensures Split(templateContent) == [Line(0, version) + x, Line(0, SETTINGS), Line(2, port) + y]
    ensures TemplateShape(Split(templateContent), version, port)
  {
    var a := ValueLine(0, version, x);
    var b := SettingsLine();
    var c := ValueLine(2, port, y);
    templateContent := TemplateFrom(a, b, c, version, port);
  }

  lemma ConfigExists(version: string, z: string) returns (content: string)
    requires IsLineName(version) && '\n' !in z
    ensures Split(content) == [Line(0, SETTINGS), Line(2, version) + z] && ConfigShape(Split(content), version)
  {
    var a := SettingsLine();
    var b := ValueLine(2, version, z);
    content := JoinedTwo(a, b);
  }

  /** Such texts exist, with any values x, y and z behind the colons, such as " 1" for the version:
      then the comparison of the parsed structures reports that it is missing at the top. */
  lemma VersionBelowExists(version: string, port: string, x: string, y: string, z: string)
    returns (templateContent: string, content: string)
    requires Names(version, port) && '\n' !in x && '\n' !in y && '\n' !in z
    ensures Split(templateContent) == [Line(0, version) + x, Line(0, SETTINGS), Line(2, port) + y]
    ensures Split(content) == [Line(0, SETTINGS), Line(2, version) + z]
    ensures TemplateShape(Split(templateContent), version, port) && ConfigShape(Split(content), version)
  {
    templateContent := TemplateExists(version, port, x, y);
    content := ConfigExists(version, z);
  }

  lemma OneWantedOneRestart(templateContent: string, version: string, port: string, contents: seq<string>,
      reports: seq<set<string>>)
    requires contents != [] && VersionBelow(templateContent, contents[0], version, port)
    requires RunReporting(templateContent, contents[0], version, contents, reports)
    ensures |reports| <= 1
  {
    OldReportRestarts(templateContent, version, contents, reports);
  }

  /** The program does not restart for ever on them: if the version is reported in each pass, it
      restarts once at most. */
  lemma VersionBelowRestarts(templateContent: string, version: string, port: string, contents: seq<string>,
      reports: seq<set<string>>)
    requires contents != [] && Names(version, port)
    requires TemplateShape(Split(templateContent), version, port) && ConfigShape(Split(contents[0]), version)
    requires RunReporting(templateContent, contents[0], version, contents, reports)
    ensures |reports| <= 1
  {
    VersionIsBelow(templateContent, contents[0], version, port);
    OneWantedOneRestart(templateContent, version, port, contents, reports);
  }

  lemma JoinedThree(a: string, b: string, c: string) returns (s: string)
    requires '\n' !in a && '\n' !in b && '\n' !in c
    ensures Split(s) == [a, b, c]
  {
    s := Joined([a, b, c]);
    SplitOfJoined([a, b, c]);
  }

  lemma JoinedTwo(a: string, b: string) returns (s: string)
    requires '\n' !in a && '\n' !in b
    ensures Split(s) == [a, b]
  {
    s := Joined([a, b]);
    SplitOfJoined([a, b]);
  }
}
