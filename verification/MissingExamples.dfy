/** Texts for which the computation of missing keys depends on the iteration order, or does not
    end. */
module MissingExamples {
  import opened Strings
  import opened ConfigLines
  import opened ConfigParents
  import opened MissingKeys

  /** A name that stands in one line. */
  predicate IsLineName(key: string) {
    IsName(key) && '\n' !in key
  }

  lemma NothingConfigured()
    ensures Keys("") == {}
  {
    assert KeyOf("") == None;
    assert Split("") == [""];
  }

  lemma LineHasNoNewline(n: nat, key: string)
    requires '\n' !in key
    ensures '\n' !in Line(n, key)
  {
  }

  /** Three keys, each below the one before. */
  lemma ThreeLines(templateContent: string, a: string, b: string, c: string)
    requires IsLineName(a) && IsLineName(b) && IsLineName(c)
    requires templateContent == Joined([Line(0, a), Line(1, b), Line(2, c)])
    ensures Rows(Split(templateContent)) == [Row(Some(a), 0), Row(Some(b), 1), Row(Some(c), 2)]
    ensures {a, b, c} <= Keys(templateContent)
  {
    var lines := [Line(0, a), Line(1, b), Line(2, c)];
    LineHasNoNewline(0, a);
    LineHasNoNewline(1, b);
    LineHasNoNewline(2, c);
    SplitOfJoined(lines);
    RowOfLine(0, a);
    RowOfLine(1, b);
    RowOfLine(2, c);
    RowsOfThree(Line(0, a), Line(1, b), Line(2, c));
    KeyAmong(lines, 0);
    KeyAmong(lines, 1);
    KeyAmong(lines, 2);
  }

  lemma ChainParents(rows: seq<Row>, a: string, b: string, c: string)
    requires rows == [Row(Some(a), 0), Row(Some(b), 1), Row(Some(c), 2)]
    ensures ParentMap(rows) == map[b := a, c := b]
  {
    assert ParentOf(rows, 0) == None && ParentOf(rows, 1) == Some(a) && ParentOf(rows, 2) == Some(b);
    assert ParentsUpTo(rows, 1) == map[];
    assert ParentsUpTo(rows, 2) == map[b := a];
  }

  /** A template with `settings` below another key, and an empty configuration. */
  lemma TornExample(templateContent: string, outer: string, inner: string)
    requires IsLineName(outer) && IsLineName(inner) && inner != SETTINGS
    requires templateContent == Joined([Line(0, outer), Line(1, SETTINGS), Line(2, inner)])
    ensures TornText(templateContent, "")
  {
    SettingsIsName();
    ThreeLines(templateContent, outer, SETTINGS, inner);
    ChainParents(Rows(Split(templateContent)), outer, SETTINGS, inner);
    NothingConfigured();
    assert ChildOfSettings(Parents(templateContent), inner) && inner in Keys(templateContent);
  }

  /** A template with a key nested below itself, and an empty configuration: round two climbs from
      that key and does not end. */
  lemma EndlessExample(templateContent: string, a: string, b: string)
    requires IsLineName(a) && IsLineName(b) && a != b
    requires templateContent == Joined([Line(0, a), Line(1, b), Line(2, a)])
    ensures a in Candidates(templateContent, "") && !Rooted(Parents(templateContent), a) &&
      !Rooted(Parents(templateContent), b)
    ensures !ClimbsEnd(Parents(templateContent), Candidates(templateContent, ""))
  {
    ThreeLines(templateContent, a, b, a);
    ChainParents(Rows(Split(templateContent)), a, b, a);
    NothingConfigured();
    LoopUnrooted(Parents(templateContent), a, b);
    LoopUnrooted(Parents(templateContent), b, a);
    RootedIff(Parents(templateContent), a);
  }
}
