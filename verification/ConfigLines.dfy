/** Lines of a configuration text: splitting, trimming, indentation, and the key of a line. */
module ConfigLines {
  import opened Strings

  // ---- lines

  /** strings.Split(s, "\n") */
  function Split(s: string): (lines: seq<string>)
    ensures |lines| > 0
    ensures forall i :: 0 <= i < |lines| ==> '\n' !in lines[i]
  {
    if s == "" then [""]
    else if s[0] == '\n' then [""] + Split(s[1..])
    else
      var rest := Split(s[1..]);
      [[s[0]] + rest[0]] + rest[1..]
  }

  lemma {:induction false} SplitSingle(s: string)
    requires '\n' !in s
    ensures Split(s) == [s]
  {
    if s != "" {
      SplitSingle(s[1..]);
      assert s == [s[0]] + s[1..];
    }
  }

  /** Splitting undoes joining two texts with a newline. */
  lemma {:induction false} SplitJoined(a: string, b: string)
    ensures Split(a + "\n" + b) == Split(a) + Split(b)
  {
    var s := a + "\n" + b;
    if a == "" {
      assert s[1..] == b;
    } else {
      assert s[1..] == a[1..] + "\n" + b && s[0] == a[0];
      SplitJoined(a[1..], b);
    }
  }

  /** strings.Join(lines, "\n") */
  function Joined(lines: seq<string>): string
    requires lines != []
  {
    if |lines| == 1 then lines[0] else Joined(lines[..|lines| - 1]) + "\n" + lines[|lines| - 1]
  }

  lemma {:induction false} SplitOfJoined(lines: seq<string>)
    requires lines != [] && forall i :: 0 <= i < |lines| ==> '\n' !in lines[i]
    ensures Split(Joined(lines)) == lines
  {
    var n := |lines| - 1;
    SplitSingle(lines[n]);
    if n > 0 {
      SplitOfJoined(lines[..n]);
      SplitJoined(Joined(lines[..n]), lines[n]);
      assert lines[..n] + [lines[n]] == lines;
    } else {
      assert lines == [lines[0]];
    }
  }

  // ---- trimming

  /** unicode.IsSpace */
  predicate IsSpace(c: char) {
    var n := c as int;
    || 9 <= n <= 13 || n == 0x20 || n == 0x85 || n == 0xA0 || n == 0x1680 || 0x2000 <= n <= 0x200A
    || n == 0x2028 || n == 0x2029 || n == 0x202F || n == 0x205F || n == 0x3000
  }

  predicate AllSpace(s: string) {
    forall i :: 0 <= i < |s| ==> IsSpace(s[i])
  }

  function TrimHead(s: string): string {
    if s != "" && IsSpace(s[0]) then TrimHead(s[1..]) else s
  }

  function TrimTail(s: string): string {
    if s != "" && IsSpace(s[|s| - 1]) then TrimTail(s[..|s| - 1]) else s
  }

  /** strings.TrimSpace */
  function TrimSpace(s: string): string {
    TrimTail(TrimHead(s))
  }

  predicate Blank(s: string) {
    TrimSpace(s) == ""
  }

  predicate Trimmed(s: string) {
    s == "" || (!IsSpace(s[0]) && !IsSpace(s[|s| - 1]))
  }

  lemma {:induction false} TrimHeadSkips(w: string, s: string)
    requires AllSpace(w)
    ensures TrimHead(w + s) == TrimHead(s)
  {
    if w == "" {
      assert w + s == s;
    } else {
      assert (w + s)[0] == w[0] && (w + s)[1..] == w[1..] + s;
      TrimHeadSkips(w[1..], s);
    }
  }

  lemma {:induction false} TrimTailSkips(s: string, v: string)
    requires AllSpace(v)
    ensures TrimTail(s + v) == TrimTail(s)
  {
    if v == "" {
      assert s + v == s;
    } else {
      var n := |v| - 1;
      assert (s + v)[|s| + n] == v[n] && (s + v)[..|s| + n] == s + v[..n];
      TrimTailSkips(s, v[..n]);
    }
  }

  lemma {:induction false} TrimHeadParts(s: string) returns (w: string)
    ensures s == w + TrimHead(s) && AllSpace(w)
    ensures TrimHead(s) != "" ==> !IsSpace(TrimHead(s)[0])
  {
    if s != "" && IsSpace(s[0]) {
      var rest := TrimHeadParts(s[1..]);
      w := [s[0]] + rest;
    } else {
      w := "";
    }
  }

  lemma LastBack(s: string, t: string, v: string)
    requires s != "" && s[..|s| - 1] == t + v
    ensures s == t + (v + [s[|s| - 1]])
  {
    assert s == s[..|s| - 1] + [s[|s| - 1]];
  }

  lemma {:induction false} TrimTailParts(s: string) returns (v: string)
    ensures s == TrimTail(s) + v && AllSpace(v)
    ensures TrimTail(s) != "" ==> !IsSpace(TrimTail(s)[|TrimTail(s)| - 1])
  {
    if s != "" && IsSpace(s[|s| - 1]) {
      var rest := TrimTailParts(s[..|s| - 1]);
      v := rest + [s[|s| - 1]];
      LastBack(s, TrimTail(s[..|s| - 1]), rest);
    } else {
      v := "";
    }
  }

  /** Trimming takes spaces off both ends until none is left there... */
  lemma TrimParts(s: string) returns (w: string, v: string)
    ensures s == w + TrimSpace(s) + v && AllSpace(w) && AllSpace(v) && Trimmed(TrimSpace(s))
  {
    w := TrimHeadParts(s);
    v := TrimTailParts(TrimHead(s));
    var t := TrimSpace(s);
    assert s == w + (t + v) == w + t + v;
    if t != "" {
      assert TrimHead(s)[0] == t[0];
    }
  }

  /** ... and this determines the result. */
  lemma TrimUnique(w: string, t: string, v: string)
    requires AllSpace(w) && AllSpace(v) && Trimmed(t)
    ensures TrimSpace(w + t + v) == t
  {
    assert w + t + v == w + (t + v);
    TrimHeadSkips(w, t + v);
    if t == "" {
      assert t + v == v == v + "";
      TrimHeadSkips(v, "");
    } else {
      assert (t + v)[0] == t[0];
      TrimTailSkips(t, v);
    }
  }

  /** The first character that is no space comes first after trimming. */
  lemma FirstOfTrimmed(s: string, n: nat)
    requires n < |s| && AllSpace(s[..n]) && !IsSpace(s[n])
    ensures !Blank(s) && TrimSpace(s)[0] == s[n]
  {
    var t := s[n..];
    assert s == s[..n] + t;
    TrimHeadSkips(s[..n], t);
    var v := TrimTailParts(t);
    assert t[0] == s[n];
    if TrimTail(t) != "" {
      assert TrimTail(t)[0] == t[0];
    }
  }

  // ---- keys and indentation

  function BeforeColon(s: string): string {
    match Cut(s, ':')
    case None => s
    case Some(parts) => parts.0
  }

  function KeyText(s: string): string {
    TrimSpace(BeforeColon(s))
  }

  /** The key of a line; blank lines, comments and lines without a colon have none. */
  function KeyOf(line: string): Option<string> {
    if Blank(line) || "#" <= TrimSpace(line) || ':' !in line then None else Some(KeyText(line))
  }

  predicate IsKeyName(key: string) {
    Trimmed(key) && ':' !in key && !("#" <= key)
  }

  predicate IsName(key: string) {
    IsKeyName(key) && key != ""
  }

  /** The length of the leading blanks and tabs. */
  function Indent(line: string): (n: nat)
    ensures n <= |line|
    ensures forall i :: 0 <= i < n ==> line[i] == ' ' || line[i] == '\t'
    ensures n < |line| ==> line[n] != ' ' && line[n] != '\t'
  {
    if line != "" && (line[0] == ' ' || line[0] == '\t') then 1 + Indent(line[1..]) else 0
  }

  /** What the indentation stack reads from a line. */
  datatype Row = Row(key: Option<string>, indent: nat)

  function Rows(lines: seq<string>): (rows: seq<Row>)
    ensures |rows| == |lines| && forall i :: 0 <= i < |rows| ==> rows[i] == Row(KeyOf(lines[i]), Indent(lines[i]))
  {
    seq(|lines|, i requires 0 <= i < |lines| => Row(KeyOf(lines[i]), Indent(lines[i])))
  }

  lemma Padded(w: string, a: string, b: string, v: string)
    ensures w + (a + [':'] + b) + v == (w + a) + [':'] + (b + v)
  {
  }

  lemma SpacesHaveNoColon(s: string)
    requires AllSpace(s)
    ensures ':' !in s
  {
  }

  lemma KeyOfPadded(w: string, t: string, v: string)
    requires AllSpace(w) && AllSpace(v)
    ensures ':' in w + t + v <==> ':' in t
    ensures ':' in t ==> KeyText(w + t + v) == KeyText(t)
  {
    SpacesHaveNoColon(w);
    SpacesHaveNoColon(v);
    if ':' in t {
      var (a, b) := Cut(t, ':').value;
      Padded(w, a, b, v);
      CutUnique(w + a, ':', b + v);
      var x, y := TrimParts(a);
      AssociativeFour(w, x, TrimSpace(a), y);
      TrimUnique(w + x, TrimSpace(a), y);
    }
  }

  /** The key can be read from the line or from the trimmed line. */
  lemma KeyFromTrimmed(line: string)
    ensures ':' in TrimSpace(line) <==> ':' in line
    ensures ':' in line ==> KeyText(TrimSpace(line)) == KeyText(line)
  {
    var w, v := TrimParts(line);
    KeyOfPadded(w, TrimSpace(line), v);
  }

  /** The key as the functions of the repair read it: blank lines, comments and lines without a
      colon are passed over. */
  method ReadKey(line: string) returns (key: Option<string>)
    ensures key == KeyOf(line)
  {
    var trimmed := TrimSpace(line);
    KeyFromTrimmed(line);
    if trimmed == "" || "#" <= trimmed || ':' !in trimmed {
      return None;
    }
    key := Some(KeyText(trimmed));
  }

  lemma KeyStart(line: string, a: string, b: string, w: string, key: string, v: string)
    requires line == a + [':'] + b && a == w + key + v && key != "" && AllSpace(w)
    ensures |w| < |line| && line[|w|] == key[0] && AllSpace(line[..|w|])
  {
  }

  lemma KeyIsName(line: string)
    requires KeyOf(line).Some?
    ensures IsKeyName(KeyOf(line).value)
  {
    var (a, b) := Cut(line, ':').value;
    var key := TrimSpace(a);
    var w, v := TrimParts(a);
    assert forall i :: 0 <= i < |key| ==> a[|w| + i] == key[i];
    if "#" <= key {
      KeyStart(line, a, b, w, key, v);
      FirstOfTrimmed(line, |w|);
    }
  }

  /** A line whose key stands between spaces before its first colon. */
  ghost predicate HasForm(line: string, w: string, key: string, v: string, rest: string) {
    line == (w + key + v) + [':'] + rest && AllSpace(w) && AllSpace(v) && IsKeyName(key)
  }

  lemma FormHasKey(line: string, w: string, key: string, v: string, rest: string)
    requires HasForm(line, w, key, v, rest)
    ensures KeyOf(line) == Some(key)
  {
    SpacesHaveNoColon(w);
    SpacesHaveNoColon(v);
    CutUnique(w + key + v, ':', rest);
    TrimUnique(w, key, v);
    FormNotComment(line, w, key, v, rest);
  }

  lemma FormNotComment(line: string, w: string, key: string, v: string, rest: string)
    requires HasForm(line, w, key, v, rest)
    ensures !Blank(line) && !("#" <= TrimSpace(line))
  {
    if key == "" {
      var n := |w + v|;
      assert w + key + v == w + v && line[..n] == w + v && line[n] == ':';
      FirstOfTrimmed(line, n);
    } else {
      assert line[..|w|] == w && line[|w|] == key[0];
      FirstOfTrimmed(line, |w|);
    }
  }

  /** Exactly these lines have the key: no comments, and nothing but spaces around it. */
  lemma KeyOfIff(line: string, key: string)
    ensures KeyOf(line) == Some(key) <==> exists w, v, rest :: HasForm(line, w, key, v, rest)
  {
    if KeyOf(line) == Some(key) {
      var (a, rest) := Cut(line, ':').value;
      var w, v := TrimParts(a);
      KeyIsName(line);
      assert HasForm(line, w, key, v, rest);
    }
    if w, v, rest :| HasForm(line, w, key, v, rest) {
      FormHasKey(line, w, key, v, rest);
    }
  }

  // ---- finding the line of a key by pattern

  /** The class \s of the pattern. */
  predicate IsPatternSpace(c: char) {
    c == '\t' || c == '\n' || c == '\U{000C}' || c == '\r' || c == ' '
  }

  predicate AllPatternSpace(s: string) {
    forall i :: 0 <= i < |s| ==> IsPatternSpace(s[i])
  }

  /** \s*: */
  predicate ColonAfterSpaces(s: string) {
    s != "" && (s[0] == ':' || (IsPatternSpace(s[0]) && ColonAfterSpaces(s[1..])))
  }

  /** The line matches ^(\s*)key\s*: with n characters in the group. */
  predicate MatchesAt(line: string, key: string, n: nat) {
    n <= |line| && AllPatternSpace(line[..n]) && key <= line[n..] && ColonAfterSpaces(line[n + |key|..])
  }

  function GreatestMatch(line: string, key: string, n: nat): (r: Option<nat>)
    ensures r.Some? ==> r.value <= n && MatchesAt(line, key, r.value)
    ensures forall m :: (if r.Some? then r.value else -1) < m <= n ==> !MatchesAt(line, key, m)
  {
    if MatchesAt(line, key, n) then Some(n) else if n == 0 then None else GreatestMatch(line, key, n - 1)
  }

  /** The group is greedy: it takes as many characters as a match allows. */
  function MatchKey(line: string, key: string): Option<nat> {
    GreatestMatch(line, key, |line|)
  }

  lemma {:induction false} ColonSplit(s: string) returns (v: string, rest: string)
    requires ColonAfterSpaces(s)
    ensures s == v + [':'] + rest && AllSpace(v)
  {
    if s[0] == ':' {
      v, rest := "", s[1..];
    } else {
      v, rest := ColonSplit(s[1..]);
      v := [s[0]] + v;
    }
  }

  lemma MatchParts(line: string, key: string, n: nat, v: string, rest: string)
    requires n + |key| <= |line| && key <= line[n..] && line[n + |key|..] == v + [':'] + rest
    ensures line == (line[..n] + key + v) + [':'] + rest
  {
    assert line == line[..n] + key + line[n + |key|..];
  }

  /** The trimmed line begins with the key, or with the colon if the key is empty. */
  lemma MatchStart(line: string, key: string, n: nat, v: string, rest: string)
    requires n <= |line| && IsKeyName(key) && line == (line[..n] + key + v) + [':'] + rest
    requires AllSpace(line[..n]) && AllSpace(v)
    ensures !Blank(line) && !("#" <= TrimSpace(line))
  {
    if key == "" {
      assert line[..n + |v|] == line[..n] + v && line[n + |v|] == ':';
      FirstOfTrimmed(line, n + |v|);
    } else {
      assert line[n] == key[0];
      FirstOfTrimmed(line, n);
    }
  }

  /** A line that matches the pattern of a key has that key. */
  lemma MatchIsKey(line: string, key: string, n: nat)
    requires IsKeyName(key) && MatchesAt(line, key, n)
    ensures KeyOf(line) == Some(key)
  {
    var v, rest := ColonSplit(line[n + |key|..]);
    MatchParts(line, key, n, v, rest);
    MatchStart(line, key, n, v, rest);
    SpacesHaveNoColon(line[..n]);
    SpacesHaveNoColon(v);
    CutUnique(line[..n] + key + v, ':', rest);
    TrimUnique(line[..n], key, v);
  }

  lemma LongerMatch(line: string, n: nat)
    requires n < |line| && (line[n] == ' ' || line[n] == '\t') && MatchesAt(line, "", n)
    ensures MatchesAt(line, "", n + 1)
  {
    assert line[n + 0..][1..] == line[n + 1..];
    assert line[..n + 1] == line[..n] + [line[n]];
  }

  /** The group is at least as long as the indentation. */
  lemma MatchCoversIndent(line: string, key: string)
    requires IsKeyName(key) && MatchKey(line, key).Some?
    ensures Indent(line) <= MatchKey(line, key).value
  {
    var n := MatchKey(line, key).value;
    if key == "" && n < |line| && (line[n] == ' ' || line[n] == '\t') {
      LongerMatch(line, n);
    }
  }
}
