/** The keys missing from a configuration: four rounds of filtering over a Go map, whose
    iteration order is arbitrary, in config/config.go. */
module MissingKeys {
  import Strings
  import opened ConfigLines
  import opened ConfigParents

  const SETTINGS := "settings"

  lemma SettingsIsName()
    ensures IsName(SETTINGS) && '\n' !in SETTINGS
  {
    assert SETTINGS[0] == 's';
  }

  // ---- keys of a text

  function KeysOf(lines: seq<string>): set<string> {
    set i | 0 <= i < |lines| && KeyOf(lines[i]).Some? :: KeyOf(lines[i]).value
  }

  function Keys(content: string): set<string> {
    KeysOf(Split(content))
  }

  lemma KeysOfConcat(a: seq<string>, b: seq<string>)
    ensures KeysOf(a + b) == KeysOf(a) + KeysOf(b)
  {
    forall k | k in KeysOf(b) ensures k in KeysOf(a + b) {
      var i :| 0 <= i < |b| && KeyOf(b[i]) == Strings.Some(k);
      assert (a + b)[|a| + i] == b[i];
    }
    forall k | k in KeysOf(a) ensures k in KeysOf(a + b) {
      var i :| 0 <= i < |a| && KeyOf(a[i]) == Strings.Some(k);
      assert (a + b)[i] == a[i];
    }
  }

  lemma KeyAmong(lines: seq<string>, i: nat)
    requires i < |lines| && KeyOf(lines[i]).Some?
    ensures KeyOf(lines[i]).value in KeysOf(lines)
  {
  }

  lemma KeysStep(lines: seq<string>, i: nat)
    requires i < |lines|
    ensures KeysOf(lines[..i + 1]) == KeysOf(lines[..i]) + if KeyOf(lines[i]).Some? then {KeyOf(lines[i]).value} else {}
  {
    assert lines[..i + 1] == lines[..i] + [lines[i]];
    KeysOfConcat(lines[..i], [lines[i]]);
    if KeyOf(lines[i]).Some? {
      KeyAmong([lines[i]], 0);
    }
  }

  method ExtractKeysFromString(content: string) returns (keys: set<string>)
    ensures keys == Keys(content)
  {
    keys := {};
    var lines := Split(content);
    for i := 0 to |lines|
      invariant keys == KeysOf(lines[..i])
    {
      KeysStep(lines, i);
      var trimmed := TrimSpace(lines[i]);
      if trimmed == "" || "#" <= trimmed {
        continue;
      }
      if ':' in lines[i] {
        keys := keys + {KeyText(lines[i])};
      }
    }
    assert lines[..|lines|] == lines;
  }

  // ---- the specification

  predicate ChildOfSettings(parents: map<string, string>, key: string) {
    key in parents && parents[key] == SETTINGS
  }

  function TopLevel(parents: map<string, string>, keys: set<string>): set<string> {
    set k | k in keys && ChildOfSettings(parents, k)
  }

  /** The keys below `settings` that the configuration lacks, or none if it lacks `settings`. */
  function Wanted(parents: map<string, string>, templateKeys: set<string>, current: set<string>): set<string> {
    if SETTINGS in current then TopLevel(parents, templateKeys - current) else {}
  }

  // ---- the rounds

  predicate PassesFirst(parents: map<string, string>, current: set<string>, key: string) {
    key !in parents || parents[key] == SETTINGS || parents[key] !in current
  }

  function FirstRound(parents: map<string, string>, current: set<string>, missing: set<string>): set<string> {
    set k | k in missing && PassesFirst(parents, current, k)
  }

  /** n + 1 steps lead from the key up to a. */
  predicate AboveBy(parents: map<string, string>, a: string, key: string, n: nat)
    decreases n
  {
    key in parents && if n == 0 then parents[key] == a else AboveBy(parents, a, parents[key], n - 1)
  }

  ghost predicate Above(parents: map<string, string>, a: string, key: string) {
    exists n: nat :: AboveBy(parents, a, key, n)
  }

  ghost predicate AboveSome(parents: map<string, string>, a: string, keys: set<string>) {
    exists k :: k in keys && Above(parents, a, k)
  }

  ghost predicate AllRooted(parents: map<string, string>, keys: set<string>) {
    forall k :: k in keys ==> Rooted(parents, k)
  }

  /** The same as a test that ends. */
  predicate ClimbsEnd(parents: map<string, string>, keys: set<string>) {
    forall k :: k in keys ==> RootedIn(parents, k, |parents|)
  }

  lemma ClimbsEndIff(parents: map<string, string>, keys: set<string>)
    ensures ClimbsEnd(parents, keys) <==> AllRooted(parents, keys)
  {
    forall k | k in keys ensures Rooted(parents, k) <==> RootedIn(parents, k, |parents|) {
      RootedIff(parents, k);
    }
  }

  /** The ancestors that are missing as well. */
  ghost predicate IsSecondRound(parents: map<string, string>, current: set<string>, first: set<string>,
      second: set<string>) {
    forall p :: p in second <==> p in first || (p !in current && AboveSome(parents, p, first))
  }

  function DropOne(parents: map<string, string>, key: string, missing: set<string>): set<string> {
    if key in parents && parents[key] in missing then missing - {key} else missing
  }

  /** The third round in the given order of keys. */
  function DropChildren(parents: map<string, string>, order: seq<string>, missing: set<string>): set<string> {
    if order == [] then missing
    else DropOne(parents, order[|order| - 1], DropChildren(parents, order[..|order| - 1], missing))
  }

  ghost predicate IsOrder(order: seq<string>, keys: set<string>) {
    && (forall i, j :: 0 <= i < j < |order| ==> order[i] != order[j])
    && (forall k :: k in order <==> k in keys)
  }

  // ---- when the order does not matter

  /** `settings` is missing and will be dropped itself, and so will or will not a key below it. */
  ghost predicate Torn(parents: map<string, string>, second: set<string>) {
    && SETTINGS in second && SETTINGS in parents && parents[SETTINGS] in second
    && exists k :: k in second && k != SETTINGS && ChildOfSettings(parents, k)
  }

  function Result(parents: map<string, string>, second: set<string>): set<string> {
    if SETTINGS in second then {} else TopLevel(parents, second)
  }

  lemma {:induction false} DroppedOnly(parents: map<string, string>, order: seq<string>, missing: set<string>)
    ensures DropChildren(parents, order, missing) <= missing
    ensures forall k :: k in missing && k !in order ==> k in DropChildren(parents, order, missing)
    decreases |order|
  {
    if order != [] {
      var n := |order| - 1;
      DroppedOnly(parents, order[..n], missing);
      assert forall k :: k in order <==> k in order[..n] || k == order[n];
    }
  }

  /** Without `settings` no key below it is dropped. */
  lemma {:induction false} ChildrenStay(parents: map<string, string>, order: seq<string>, missing: set<string>)
    requires SETTINGS !in missing
    ensures TopLevel(parents, DropChildren(parents, order, missing)) == TopLevel(parents, missing)
    decreases |order|
  {
    if order != [] {
      DroppedOnly(parents, order[..|order| - 1], missing);
      ChildrenStay(parents, order[..|order| - 1], missing);
    }
  }

  /** While `settings` stays every visited key below it is dropped. */
  lemma {:induction false} ChildrenDropped(parents: map<string, string>, order: seq<string>, missing: set<string>)
    requires SETTINGS in DropChildren(parents, order, missing)
    ensures forall k :: k in order && ChildOfSettings(parents, k) ==> k !in DropChildren(parents, order, missing)
    decreases |order|
  {
    if order != [] {
      ChildrenDropped(parents, order[..|order| - 1], missing);
    }
  }

  /** Without a missing parent `settings` stays. */
  lemma {:induction false} SettingsStays(parents: map<string, string>, order: seq<string>, missing: set<string>)
    requires SETTINGS in missing && !(SETTINGS in parents && parents[SETTINGS] in missing)
    ensures SETTINGS in DropChildren(parents, order, missing)
    decreases |order|
  {
    if order != [] {
      DroppedOnly(parents, order[..|order| - 1], missing);
      SettingsStays(parents, order[..|order| - 1], missing);
    }
  }

  /** If `settings` is its own only child it goes, and nothing below it is left. */
  lemma {:induction false} NoChildLeft(parents: map<string, string>, order: seq<string>, missing: set<string>)
    requires SETTINGS in missing && ChildOfSettings(parents, SETTINGS)
    requires forall k :: k in missing && ChildOfSettings(parents, k) ==> k == SETTINGS
    requires SETTINGS in order
    ensures SETTINGS !in DropChildren(parents, order, missing)
    decreases |order|
  {
    var n := |order| - 1;
    if SETTINGS in order[..n] {
      NoChildLeft(parents, order[..n], missing);
    } else {
      DroppedOnly(parents, order[..n], missing);
    }
  }

  lemma Agree(parents: map<string, string>, order: seq<string>, second: set<string>)
    requires IsOrder(order, second) && !Torn(parents, second)
    ensures TopLevel(parents, DropChildren(parents, order, second)) == Result(parents, second)
  {
    DroppedOnly(parents, order, second);
    if SETTINGS !in second {
      ChildrenStay(parents, order, second);
    } else if SETTINGS in parents && parents[SETTINGS] in second {
      if parents[SETTINGS] == SETTINGS {
        NoChildLeft(parents, order, second);
      }
    } else {
      SettingsStays(parents, order, second);
      ChildrenDropped(parents, order, second);
    }
  }

  lemma {:induction false} SomeOrder(keys: set<string>) returns (order: seq<string>)
    ensures IsOrder(order, keys)
    decreases |keys|
  {
    if keys == {} {
      order := [];
    } else {
      var k :| k in keys;
      order := SomeOrder(keys - {k});
      order := order + [k];
    }
  }

  /** Torn: visiting `settings` last drops all keys below it, visiting it first keeps one. */
  lemma Differ(parents: map<string, string>, second: set<string>) returns (one: seq<string>, other: seq<string>)
    requires Torn(parents, second)
    ensures IsOrder(one, second) && IsOrder(other, second)
    ensures TopLevel(parents, DropChildren(parents, one, second)) !=
      TopLevel(parents, DropChildren(parents, other, second))
  {
    var rest := SomeOrder(second - {SETTINGS});
    one, other := [SETTINGS] + rest, rest + [SETTINGS];
    var k :| k in second && k != SETTINGS && ChildOfSettings(parents, k);
    SettingsFirst(parents, rest, second, k);
    SettingsLast(parents, rest, second);
  }

  lemma {:induction false} SettingsFirst(parents: map<string, string>, rest: seq<string>, missing: set<string>,
      k: string)
    requires SETTINGS in missing && SETTINGS in parents && parents[SETTINGS] in missing
    requires k in missing && k != SETTINGS && ChildOfSettings(parents, k)
    ensures k in DropChildren(parents, [SETTINGS] + rest, missing) &&
      SETTINGS !in DropChildren(parents, [SETTINGS] + rest, missing)
    decreases |rest|
  {
    var order := [SETTINGS] + rest;
    if rest == [] {
      assert order[..0] == [];
    } else {
      SettingsFirst(parents, rest[..|rest| - 1], missing, k);
      assert order[..|order| - 1] == [SETTINGS] + rest[..|rest| - 1];
    }
  }

  lemma SettingsLast(parents: map<string, string>, rest: seq<string>, second: set<string>)
    requires Torn(parents, second) && IsOrder(rest, second - {SETTINGS})
    ensures TopLevel(parents, DropChildren(parents, rest + [SETTINGS], second)) == {}
  {
    DroppedOnly(parents, rest, second);
    ChildrenDropped(parents, rest, second);
    assert (rest + [SETTINGS])[..|rest|] == rest;
  }

  /** The outcome of the last two rounds is the same for all orders exactly if nothing is torn. */
  lemma OrderIrrelevantIff(parents: map<string, string>, second: set<string>)
    ensures !Torn(parents, second) <==>
      forall order :: IsOrder(order, second) ==>
        TopLevel(parents, DropChildren(parents, order, second)) == Result(parents, second)
  {
    if Torn(parents, second) {
      var one, other := Differ(parents, second);
    } else {
      forall order | IsOrder(order, second)
        ensures TopLevel(parents, DropChildren(parents, order, second)) == Result(parents, second)
      {
        Agree(parents, order, second);
      }
    }
  }

  /** And then it is what was wanted. */
  lemma ResultIsWanted(parents: map<string, string>, templateKeys: set<string>, current: set<string>,
      second: set<string>)
    requires IsSecondRound(parents, current, FirstRound(parents, current, templateKeys - current), second)
    requires forall k :: k in parents ==> k in templateKeys && parents[k] in templateKeys
    ensures Result(parents, second) == Wanted(parents, templateKeys, current)
  {
    var first := FirstRound(parents, current, templateKeys - current);
    if SETTINGS in current {
      forall k | k in TopLevel(parents, second) ensures k in Wanted(parents, templateKeys, current) {
      }
    } else {
      forall k | k in TopLevel(parents, second) ensures SETTINGS in second {
        assert k in first && AboveBy(parents, SETTINGS, k, 0);
        assert Above(parents, SETTINGS, k);
        assert AboveSome(parents, SETTINGS, first);
      }
    }
  }

  // ---- the code

  method MissingFrom(templateKeys: set<string>, currentKeys: set<string>) returns (missing: set<string>)
    ensures missing == templateKeys - currentKeys
  {
    missing := {};
    var pending := templateKeys;
    while pending != {}
      invariant pending <= templateKeys && missing == (templateKeys - pending) - currentKeys
      decreases |pending|
    {
      var key :| key in pending;
      pending := pending - {key};
      if key !in currentKeys {
        missing := missing + {key};
      }
    }
  }

  /** Round one: a key goes if its parent is configured, unless the parent is `settings`. */
  method FilterConfigured(parents: map<string, string>, currentKeys: set<string>, missing: set<string>)
    returns (left: set<string>)
    ensures left == FirstRound(parents, currentKeys, missing)
  {
    left := missing;
    var pending := missing;
    while pending != {}
      invariant pending <= missing
      invariant forall k :: k in left <==> k in pending || (k in missing && PassesFirst(parents, currentKeys, k))
      decreases |pending|
    {
      var key :| key in pending;
      pending := pending - {key};
      if key in parents && parents[key] != SETTINGS && parents[key] in currentKeys {
        left := left - {key};
      }
    }
  }

  /** Round two has added nothing but missing ancestors of the first keys... */
  ghost predicate OnlyAncestors(parents: map<string, string>, current: set<string>, first: set<string>,
      missing: set<string>) {
    first <= missing && forall p :: p in missing && p !in first ==> p !in current && AboveSome(parents, p, first)
  }

  /** ... and all of those of one key. */
  ghost predicate AncestorsIn(parents: map<string, string>, current: set<string>, key: string, missing: set<string>) {
    forall p :: Above(parents, p, key) && p !in current ==> p in missing
  }

  lemma AboveOfStep(parents: map<string, string>, key: string, p: string)
    ensures Above(parents, p, key) <==> key in parents && (p == parents[key] || Above(parents, p, parents[key]))
  {
    if Above(parents, p, key) {
      var n: nat :| AboveBy(parents, p, key, n);
      if n > 0 {
        assert AboveBy(parents, p, parents[key], n - 1);
      }
    }
    if key in parents {
      if p == parents[key] {
        assert AboveBy(parents, p, key, 0);
      } else if Above(parents, p, parents[key]) {
        var n: nat :| AboveBy(parents, p, parents[key], n);
        assert AboveBy(parents, p, key, n + 1);
      }
    }
  }

  /** The climb of round two from one key. */
  method AddAncestors(parents: map<string, string>, currentKeys: set<string>, key: string, missing: set<string>)
    returns (more: set<string>)
    requires Rooted(parents, key)
    ensures missing <= more <= missing + parents.Values
    ensures forall p :: p in more && p !in missing ==> p !in currentKeys && Above(parents, p, key)
    ensures AncestorsIn(parents, currentKeys, key, more)
  {
    more := missing;
    var cur := key;
    ghost var n: nat :| RootedIn(parents, key, n);
    while cur in parents
      invariant RootedIn(parents, cur, n)
      invariant missing <= more <= missing + parents.Values
      invariant forall p :: p in more && p !in missing ==> p !in currentKeys && Above(parents, p, key)
      invariant forall p :: Above(parents, p, cur) ==> Above(parents, p, key)
      invariant forall p :: Above(parents, p, key) && p !in currentKeys ==> p in more || Above(parents, p, cur)
      decreases n
    {
      var p := parents[cur];
      forall q ensures Above(parents, q, cur) <==> q == p || Above(parents, q, p) {
        AboveOfStep(parents, cur, q);
      }
      if p !in currentKeys {
        more := more + {p};
      }
      cur := p;
      n := n - 1;
    }
    forall p ensures !Above(parents, p, cur) {
      AboveOfStep(parents, cur, p);
    }
  }

  lemma {:induction false} RootedAbove(parents: map<string, string>, a: string, key: string, n: nat)
    requires AboveBy(parents, a, key, n) && Rooted(parents, key)
    ensures Rooted(parents, a)
    decreases n
  {
    var m: nat :| RootedIn(parents, key, m);
    assert RootedIn(parents, parents[key], m - 1);
    if n > 0 {
      RootedAbove(parents, a, parents[key], n - 1);
    }
  }

  lemma {:induction false} AboveThrough(parents: map<string, string>, a: string, b: string, key: string, n: nat)
    requires Above(parents, a, b) && AboveBy(parents, b, key, n)
    ensures Above(parents, a, key)
    decreases n
  {
    AboveOfStep(parents, key, a);
    if n > 0 {
      AboveThrough(parents, a, b, parents[key], n - 1);
    }
  }

  lemma AncestorsOfMissing(parents: map<string, string>, current: set<string>, first: set<string>, missing: set<string>,
      key: string, more: set<string>)
    requires OnlyAncestors(parents, current, first, missing) && key in missing && missing <= more
    requires forall p :: p in more && p !in missing ==> p !in current && Above(parents, p, key)
    requires AllRooted(parents, missing)
    ensures OnlyAncestors(parents, current, first, more)
    ensures AllRooted(parents, more)
  {
    forall p | p in more && p !in missing ensures AboveSome(parents, p, first) && Rooted(parents, p) {
      var n: nat :| AboveBy(parents, p, key, n);
      RootedAbove(parents, p, key, n);
      if key !in first {
        var k :| k in first && Above(parents, key, k);
        var m: nat :| AboveBy(parents, key, k, m);
        AboveThrough(parents, p, key, k, m);
        assert k in first && Above(parents, p, k);
      }
    }
  }

  /** Round two: whether a key added on the way is visited as well is left to the map. */
  method AddMissingAncestors(parents: map<string, string>, currentKeys: set<string>, first: set<string>)
    returns (missing: set<string>)
    requires AllRooted(parents, first)
    ensures IsSecondRound(parents, currentKeys, first, missing)
  {
    missing := first;
    var pending := first;
    while pending != {}
      invariant pending <= missing <= first + parents.Values
      invariant OnlyAncestors(parents, currentKeys, first, missing)
      invariant AllRooted(parents, missing)
      invariant forall k :: k in first && k !in pending ==> AncestorsIn(parents, currentKeys, k, missing)
      decreases (first + parents.Values) - missing, pending
    {
      var key :| key in pending;
      pending := pending - {key};
      var more := AddAncestors(parents, currentKeys, key, missing);
      AncestorsOfMissing(parents, currentKeys, first, missing, key, more);
      assert more - missing == {} || ((first + parents.Values) - more) < ((first + parents.Values) - missing);
      var visited: set<string> := {};
      visited :| visited <= more - missing;
      pending, missing := pending + visited, more;
    }
  }

  /** Round three: a key goes if its parent is still missing. */
  method FilterChildren(parents: map<string, string>, missing: set<string>)
    returns (left: set<string>, ghost order: seq<string>)
    ensures IsOrder(order, missing) && left == DropChildren(parents, order, missing)
    ensures left <= missing
    ensures !Torn(parents, missing) ==> TopLevel(parents, left) == Result(parents, missing)
  {
    left, order := missing, [];
    var pending := missing;
    while pending != {}
      invariant pending <= missing && IsOrder(order, missing - pending)
      invariant left == DropChildren(parents, order, missing)
      decreases |pending|
    {
      var key :| key in pending;
      pending := pending - {key};
      assert (order + [key])[..|order|] == order;
      order := order + [key];
      if key in parents && parents[key] in left {
        left := left - {key};
      }
    }
    assert missing - pending == missing;
    DroppedOnly(parents, order, missing);
    if !Torn(parents, missing) {
      Agree(parents, order, missing);
    }
  }

  /** Round four. */
  method KeepTopLevel(parents: map<string, string>, missing: set<string>) returns (top: set<string>)
    ensures top == TopLevel(parents, missing)
  {
    top := {};
    var pending := missing;
    while pending != {}
      invariant pending <= missing
      invariant forall k :: k in top <==> k in missing && k !in pending && ChildOfSettings(parents, k)
      decreases |pending|
    {
      var key :| key in pending;
      pending := pending - {key};
      if key in parents && parents[key] == SETTINGS {
        top := top + {key};
      }
    }
  }

  // ---- the whole computation

  function Parents(templateContent: string): map<string, string> {
    ParentMap(Rows(Split(templateContent)))
  }

  function Candidates(templateContent: string, content: string): set<string> {
    FirstRound(Parents(templateContent), Keys(content), Keys(templateContent) - Keys(content))
  }

  function WantedKeys(templateContent: string, content: string): set<string> {
    Wanted(Parents(templateContent), Keys(templateContent), Keys(content))
  }

  ghost predicate ComputedBy(templateContent: string, content: string, second: set<string>, order: seq<string>,
      result: set<string>) {
    && IsSecondRound(Parents(templateContent), Keys(content), Candidates(templateContent, content), second)
    && IsOrder(order, second)
    && result == TopLevel(Parents(templateContent), DropChildren(Parents(templateContent), order, second))
  }

  /** A result that some iteration order leads to. */
  ghost predicate Computed(templateContent: string, content: string, result: set<string>) {
    exists second, order :: ComputedBy(templateContent, content, second, order, result)
  }

  /** The configuration lacks `settings`, a parent that the template gives it, and a key below it. */
  ghost predicate TornText(templateContent: string, content: string) {
    var parents, current := Parents(templateContent), Keys(content);
    && SETTINGS !in current && SETTINGS in parents && parents[SETTINGS] !in current
    && exists k :: k in Keys(templateContent) - current && k != SETTINGS && ChildOfSettings(parents, k)
  }

  lemma ParentsAreKeys(lines: seq<string>, key: string)
    requires key in ParentMap(Rows(lines))
    ensures key in KeysOf(lines) && ParentMap(Rows(lines))[key] in KeysOf(lines)
  {
    var rows := Rows(lines);
    var i := MappedByLast(rows, |rows|, key);
    KeyAmong(lines, i);
    KeyAmong(lines, NearestAbove(rows, i, rows[i].indent).value);
  }

  /** The texts decide whether the set after round two is torn. */
  lemma TornIffText(templateContent: string, content: string, second: set<string>)
    requires IsSecondRound(Parents(templateContent), Keys(content), Candidates(templateContent, content), second)
    ensures Torn(Parents(templateContent), second) <==> TornText(templateContent, content)
  {
    var parents, first, current := Parents(templateContent), Candidates(templateContent, content), Keys(content);
    if Torn(parents, second) {
      var k :| k in second && k != SETTINGS && ChildOfSettings(parents, k);
      ParentsAreKeys(Split(templateContent), k);
    }
    if TornText(templateContent, content) {
      var k :| k in Keys(templateContent) - current && k != SETTINGS && ChildOfSettings(parents, k);
      assert k in first;
      AboveOfStep(parents, k, SETTINGS);
      AboveOfStep(parents, SETTINGS, parents[SETTINGS]);
      AboveOfStep(parents, k, parents[SETTINGS]);
      assert AboveSome(parents, SETTINGS, first) && AboveSome(parents, parents[SETTINGS], first);
    }
  }

  lemma SecondRoundExists(parents: map<string, string>, current: set<string>, first: set<string>)
    returns (second: set<string>)
    ensures IsSecondRound(parents, current, first, second)
  {
    second := first + set p | p in parents.Values && p !in current && AboveSome(parents, p, first);
    forall p | AboveSome(parents, p, first) ensures p in parents.Values {
      var k :| k in first && Above(parents, p, k);
      var n: nat :| AboveBy(parents, p, k, n);
      AncestorIsValue(parents, p, k, n);
    }
  }

  lemma {:induction false} AncestorIsValue(parents: map<string, string>, p: string, key: string, n: nat)
    requires AboveBy(parents, p, key, n)
    ensures p in parents.Values
    decreases n
  {
    if n > 0 {
      AncestorIsValue(parents, p, parents[key], n - 1);
    }
  }

  lemma ComputedWithoutTear(templateContent: string, content: string, second: set<string>, order: seq<string>,
      result: set<string>)
    requires ComputedBy(templateContent, content, second, order, result) && !TornText(templateContent, content)
    ensures result == WantedKeys(templateContent, content)
  {
    var parents, lines := Parents(templateContent), Split(templateContent);
    TornIffText(templateContent, content, second);
    Agree(parents, order, second);
    forall k | k in parents ensures k in Keys(templateContent) && parents[k] in Keys(templateContent) {
      ParentsAreKeys(lines, k);
    }
    ResultIsWanted(parents, Keys(templateContent), Keys(content), second);
  }

  /** Torn texts: two iteration orders lead to different results. */
  lemma TornDiffers(templateContent: string, content: string) returns (x: set<string>, y: set<string>)
    requires TornText(templateContent, content)
    ensures Computed(templateContent, content, x) && Computed(templateContent, content, y) && x != y
  {
    var parents := Parents(templateContent);
    var second := SecondRoundExists(parents, Keys(content), Candidates(templateContent, content));
    TornIffText(templateContent, content, second);
    var one, other := Differ(parents, second);
    x, y := TopLevel(parents, DropChildren(parents, one, second)),
      TopLevel(parents, DropChildren(parents, other, second));
    assert ComputedBy(templateContent, content, second, one, x) &&
      ComputedBy(templateContent, content, second, other, y);
  }

  /** All iteration orders lead to the wanted keys exactly if the texts are not torn. */
  lemma ComputedIsWantedIff(templateContent: string, content: string)
    ensures !TornText(templateContent, content) <==>
      forall result :: Computed(templateContent, content, result) ==> result == WantedKeys(templateContent, content)
  {
    if TornText(templateContent, content) {
      var x, y := TornDiffers(templateContent, content);
    } else {
      forall result | Computed(templateContent, content, result)
        ensures result == WantedKeys(templateContent, content)
      {
        var second, order :| ComputedBy(templateContent, content, second, order, result);
        ComputedWithoutTear(templateContent, content, second, order, result);
      }
    }
  }

  /** A top-level `settings` is never torn. */
  lemma TopLevelSettings(templateContent: string, content: string, result: set<string>)
    requires SETTINGS !in Parents(templateContent) && Computed(templateContent, content, result)
    ensures result == WantedKeys(templateContent, content)
  {
    ComputedIsWantedIff(templateContent, content);
  }

  /** Each climb must end, or round two never does. */
  method GetMissingSettingsByText(templateContent: string, currentConfigContent: string)
    returns (topLevelMissing: set<string>)
    requires ClimbsEnd(Parents(templateContent), Candidates(templateContent, currentConfigContent))
    ensures Computed(templateContent, currentConfigContent, topLevelMissing)
    ensures SETTINGS !in Parents(templateContent) ==>
      topLevelMissing == WantedKeys(templateContent, currentConfigContent)
  {
    var templateKeys := ExtractKeysFromString(templateContent);
    var currentKeys := ExtractKeysFromString(currentConfigContent);
    var parentMap := BuildParentKeyMap(templateContent);
    var missing := MissingFrom(templateKeys, currentKeys);
    var first := FilterConfigured(parentMap, currentKeys, missing);
    assert first == Candidates(templateContent, currentConfigContent);
    ClimbsEndIff(parentMap, first);
    var second := AddMissingAncestors(parentMap, currentKeys, first);
    var third, order := FilterChildren(parentMap, second);
    topLevelMissing := KeepTopLevel(parentMap, third);
    assert ComputedBy(templateContent, currentConfigContent, second, order, topLevelMissing);
    if SETTINGS !in Parents(templateContent) {
      TopLevelSettings(templateContent, currentConfigContent, topLevelMissing);
    }
  }
}
