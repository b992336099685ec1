/** Which keys directly below `settings` the repair sees: the parent map keeps one parent per
    key name, so a name used twice can hide a setting. */
module ShadowedKeys {
  import opened Strings
  import opened ConfigLines
  import opened ConfigParents
  import opened MissingKeys

  /** Some line of the key stands directly below `settings`. */
  ghost predicate Direct(rows: seq<Row>, key: string) {
    exists i :: Parented(rows, i, key) && ParentOf(rows, i) == Some(SETTINGS)
  }

  /** The last line of the key that has a parent stands below something else. */
  ghost predicate Shadowed(rows: seq<Row>, key: string) {
    exists i: nat :: LastParented(rows, |rows|, key, i) && ParentOf(rows, i) != Some(SETTINGS)
  }

  lemma ChildIff(rows: seq<Row>, key: string)
    ensures ChildOfSettings(ParentMap(rows), key) <==> Direct(rows, key) && !Shadowed(rows, key)
  {
    var last := MappedByLast(rows, |rows|, key);
    if key in ParentMap(rows) {
      assert LastParented(rows, |rows|, key, last);
    }
  }

  /** With `settings` configured the wanted keys are exactly the missing keys directly below
      `settings` if and only if no such key is shadowed. */
  lemma WantedExactlyIff(templateContent: string, content: string)
    requires SETTINGS in Keys(content)
    ensures var rows, missing := Rows(Split(templateContent)), Keys(templateContent) - Keys(content);
            (forall key :: key in missing ==> (key in WantedKeys(templateContent, content) <==> Direct(rows, key))) <==>
            (forall key :: key in missing && Direct(rows, key) ==> !Shadowed(rows, key))
  {
    var rows, missing := Rows(Split(templateContent)), Keys(templateContent) - Keys(content);
    forall key | key in missing
      ensures key in WantedKeys(templateContent, content) <==> Direct(rows, key) && !Shadowed(rows, key)
    {
      ChildIff(rows, key);
    }
  }

  /** With distinct names none is. */
  lemma DistinctNotShadowed(rows: seq<Row>, key: string)
    requires DistinctKeys(rows) && Direct(rows, key)
    ensures !Shadowed(rows, key)
  {
    var i :| Parented(rows, i, key) && ParentOf(rows, i) == Some(SETTINGS);
    forall j: nat | LastParented(rows, |rows|, key, j) ensures j == i {
      assert HasKey(rows, i) && HasKey(rows, j);
    }
  }

  lemma RowsOfFour(a: string, b: string, c: string, d: string)
    ensures Rows([a, b, c, d]) ==
            [Row(KeyOf(a), Indent(a)), Row(KeyOf(b), Indent(b)), Row(KeyOf(c), Indent(c)), Row(KeyOf(d), Indent(d))]
  {
  }

  lemma HiddenRows(rows: seq<Row>, inner: string, outer: string)
    requires rows == [Row(Some(SETTINGS), 0), Row(Some(inner), 2), Row(Some(outer), 2), Row(Some(inner), 4)]
    requires inner != outer
    ensures Direct(rows, inner) && ParentMap(rows) == map[inner := outer, outer := SETTINGS]
  {
    assert ParentOf(rows, 0) == None;
    assert ParentOf(rows, 1) == Some(SETTINGS);
    assert ParentOf(rows, 2) == Some(SETTINGS);
    assert ParentOf(rows, 3) == Some(outer);
    assert Parented(rows, 1, inner);
    assert ParentsUpTo(rows, 1) == map[];
    assert ParentsUpTo(rows, 2) == map[inner := SETTINGS];
    assert ParentsUpTo(rows, 3) == map[inner := SETTINGS, outer := SETTINGS];
  }

  lemma FourLines(a: string, b: string, c: string, d: string)
    requires IsName(a) && IsName(b) && IsName(c) && IsName(d)
    ensures Rows([Line(0, a), Line(2, b), Line(2, c), Line(4, d)]) ==
            [Row(Some(a), 0), Row(Some(b), 2), Row(Some(c), 2), Row(Some(d), 4)]
  {
    RowOfLine(0, a);
    RowOfLine(2, b);
    RowOfLine(2, c);
    RowOfLine(4, d);
    RowsOfFour(Line(0, a), Line(2, b), Line(2, c), Line(4, d));
  }

  lemma OnlyOuterWanted(parents: map<string, string>, inner: string, outer: string)
    requires parents == map[inner := outer, outer := SETTINGS] && inner != outer && outer != SETTINGS &&
      inner != SETTINGS
    ensures Wanted(parents, {SETTINGS, inner, outer}, {SETTINGS}) == {outer}
  {
    assert {SETTINGS, inner, outer} - {SETTINGS} == {inner, outer};
    assert ChildOfSettings(parents, outer) && !ChildOfSettings(parents, inner);
  }

  /** `inner` stands directly below `settings` and once more below `outer`: if both are missing,
      only `outer` is wanted. */
  lemma InnerHidden(rows: seq<Row>, inner: string, outer: string)
    requires IsName(inner) && IsName(outer) && inner != outer && inner != SETTINGS && outer != SETTINGS
    requires rows == Rows([Line(0, SETTINGS), Line(2, inner), Line(2, outer), Line(4, inner)])
    ensures Direct(rows, inner) && Wanted(ParentMap(rows), {SETTINGS, inner, outer}, {SETTINGS}) == {outer}
  {
    SettingsIsName();
    FourLines(SETTINGS, inner, outer, inner);
    HiddenRows(rows, inner, outer);
    OnlyOuterWanted(ParentMap(rows), inner, outer);
  }
}
