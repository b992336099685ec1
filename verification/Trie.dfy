/** The heap-shaped trie of acnode/acnode.go: insertion in place and the breadth-first
    construction of the fail links. */
module Trie {
  import opened BreadthFirst
  import opened FilterSpec
  import Merging
  import opened Occurrences
  import Splicing
  import opened Suffixes

  class ACNode {
    var children: map<char, ACNode>
    var fail: ACNode?
    var isEnd: bool
    var length: nat
    var replaceText: string
    // The runes read from the root to this node.
    ghost const path: string

    constructor (ghost path: string)
      ensures children == map[] && fail == null && !isEnd && this.path == path
    {
      children, fail, isEnd, length, replaceText := map[], null, false, 0, "";
      this.path := path;
    }
  }

  /** No node is there for nothing: every path is a prefix of an inserted word. */
  ghost predicate Lean(paths: set<string>, words: set<string>) {
    forall p {:trigger IsPrefixOfSome(p, words)} :: p in paths && p != "" ==> IsPrefixOfSome(p, words)
  }

  ghost predicate IsPrefixOfSome(p: string, words: set<string>) {
    exists w :: w in words && p <= w
  }

  lemma LeanAfterInsert(paths: set<string>, words: set<string>, word: string)
    requires Lean(paths, words)
    ensures Lean(paths + Prefixes(word), words + {word})
  {
    forall p | p in paths + Prefixes(word) && p != ""
      ensures IsPrefixOfSome(p, words + {word})
    {
      if p in paths {
        assert IsPrefixOfSome(p, words);
        var w :| w in words && p <= w;
        assert w in words + {word};
      } else {
        PrefixesAreAll(word, p);
        assert word in words + {word};
      }
    }
  }

  ghost predicate IsPick<T>(m: map<char, T>, order: seq<char>, picked: seq<T>) {
    |picked| == |order| && forall k :: 0 <= k < |order| ==> order[k] in m && picked[k] == m[order[k]]
  }

  lemma PickOneMore<T>(m: map<char, T>, order: seq<char>, picked: seq<T>, c: char)
    requires IsPick(m, order, picked) && c in m
    ensures IsPick(m, order + [c], picked + [m[c]])
  {
  }

  ghost predicate AtPaths<T>(m: map<string, T>, paths: seq<string>, picked: seq<T>) {
    |picked| == |paths| && forall k :: 0 <= k < |paths| ==> paths[k] in m && picked[k] == m[paths[k]]
  }

  /** The queue after its head has been replaced by the head's children at the far end. */
  lemma NextQueue<T>(nodes: map<string, T>, children: map<char, T>, done: set<string>,
                     paths: seq<string>, queue: seq<T>, order: seq<char>, added: seq<T>) returns (next: seq<string>)
    requires InOrder(nodes.Keys, done, paths) && AtPaths(nodes, paths, queue) && queue != []
    requires Enumerates(order, children.Keys) && IsPick(children, order, added)
    requires forall c :: c in children <==> Extend(paths[0], c) in nodes
    requires forall c :: c in children ==> children[c] == nodes[Extend(paths[0], c)]
    ensures InOrder(nodes.Keys, done + {paths[0]}, next) && AtPaths(nodes, next, queue[1..] + added)
    ensures forall p :: p in Seen(done + {paths[0]}, next) ==>
              p in Seen(done, paths) || (p != "" && Parent(p) == paths[0] && Last(p) in children)
  {
    var kids := ExtendAll(paths[0], order);
    ExtendAllListsChildren(nodes.Keys, paths[0], order, children.Keys);
    TakeHead(nodes.Keys, done, paths, kids);
    next := paths[1..] + kids;
    forall k | 0 <= k < |kids| ensures kids[k] in nodes && added[k] == nodes[kids[k]] {
      assert order[k] in order;
    }
  }

  /** What reading text[i] does to the specifications of the matching loops. */
  lemma ReadOne(paths: set<string>, words: set<string>, text: string, i: nat)
    requires IsTrie(paths) && words <= paths && i < |text|
    ensures Longest(paths, text[..i + 1]) == Longest(paths, Extend(Longest(paths, text[..i]), text[i]))
    ensures AllMatches(words, text[..i + 1]) ==
      AllMatches(words, text[..i]) + EndingAt(words, Longest(paths, text[..i + 1]), i)
    ensures TotalJumps(paths, text[..i + 1]) ==
      TotalJumps(paths, text[..i]) + Jumps(paths, Longest(paths, text[..i]), text[i])
  {
    var read := text[..i + 1];
    assert read[..|read| - 1] == text[..i] && read == Extend(text[..i], text[i]);
    LongestStep(paths, text[..i], text[i]);
    EndingAtLongest(paths, words, read, i);
  }

  class AhoCorasick {
    const root: ACNode
    // The node at the end of each path from the root.
    ghost var nodes: map<string, ACNode>
    // All nodes of this trie.
    ghost var repr: set<ACNode>
    // The inserted words with their replacement texts; the last insertion of a word wins.
    ghost var words: map<string, string>

    /** The nodes reachable from the root form a tree whose paths are those of `nodes`. */
    ghost predicate Shape()
      reads `nodes, `repr, repr`children
    {
      && IsTrie(nodes.Keys) && nodes[""] == root
      && (forall p :: p in nodes ==> nodes[p] in repr && nodes[p].path == p)
      && (forall p, c {:trigger Extend(p, c)} :: p in nodes ==>
            (c in nodes[p].children <==> Extend(p, c) in nodes))
      && (forall p, c {:trigger nodes[p].children[c]} :: p in nodes && c in nodes[p].children ==>
            Extend(p, c) in nodes && nodes[p].children[c] == nodes[Extend(p, c)])
    }

    /** The marks on the nodes are exactly the inserted words. */
    ghost predicate Marks()
      reads `nodes, `words, `repr, repr`isEnd, repr`length, repr`replaceText
    {
      && words.Keys <= nodes.Keys
      && (forall p :: p in nodes ==> nodes[p] in repr && (nodes[p].isEnd <==> p in words))
      && (forall w :: w in words ==> nodes[w].length == |w| && nodes[w].replaceText == words[w])
    }

    ghost predicate Valid()
      reads this, repr
    {
      Shape() && Marks() && Lean(nodes.Keys, words.Keys) && root.fail == null
    }

    /** The fail link of p leads to the node of the longest proper suffix of p in the trie. */
    ghost predicate FailIsLongest(p: string)
      requires p in nodes && p != "" && IsTrie(nodes.Keys)
      reads this, repr
    {
      nodes[p] in repr && nodes[p].fail == nodes[Longest(nodes.Keys, p[1..])]
    }

    ghost predicate Built()
      requires IsTrie(nodes.Keys)
      reads this, repr
    {
      forall p {:trigger FailIsLongest(p)} :: p in nodes && p != "" ==> FailIsLongest(p)
    }

    constructor ()
      ensures Valid() && words == map[] && nodes.Keys == {""}
      ensures fresh(repr)
    {
      var r := new ACNode("");
      root := r;
      nodes := map["" := r];
      repr := {r};
      words := map[];
    }

    /** Take the child of `node` for rune ch, creating it when there is none. */
    method ChildFor(ghost path: string, node: ACNode, ch: char) returns (child: ACNode)
      requires Shape() && Marks()
      requires path in nodes && nodes[path] == node
      modifies this`nodes, this`repr, node`children
      ensures Shape() && Marks()
      ensures Extend(path, ch) in nodes && nodes[Extend(path, ch)] == child
      ensures nodes.Keys == old(nodes.Keys) + {Extend(path, ch)}
      ensures forall p :: p in old(nodes) ==> nodes[p] == old(nodes)[p]
      ensures old(repr) <= repr && fresh(repr - old(repr))
    {
      assert ch in node.children <==> Extend(path, ch) in nodes;
      if ch !in node.children {
        AddChild(path, node, ch);
      }
      child := node.children[ch];
    }

    method AddChild(ghost path: string, node: ACNode, ch: char)
      requires Shape()
      requires path in nodes && nodes[path] == node && Extend(path, ch) !in nodes
      modifies this`nodes, this`repr, node`children
      ensures Shape()
      ensures Extend(path, ch) in nodes && repr == old(repr) + {nodes[Extend(path, ch)]}
      ensures fresh(nodes[Extend(path, ch)])
      ensures nodes[Extend(path, ch)].fail == null && !nodes[Extend(path, ch)].isEnd
      ensures nodes == old(nodes)[Extend(path, ch) := nodes[Extend(path, ch)]]
    {
      var child := new ACNode(Extend(path, ch));
      node.children := node.children[ch := child];
      nodes := nodes[Extend(path, ch) := child];
      repr := repr + {child};
    }

    /** The insertion loop: walk down the word, creating the nodes that are missing. */
    method Descend(word: string) returns (node: ACNode)
      requires Shape() && Marks()
      modifies `nodes, `repr, repr`children
      ensures Shape() && Marks()
      ensures word in nodes && node == nodes[word]
      ensures nodes.Keys == old(nodes.Keys) + Prefixes(word)
      ensures forall p :: p in old(nodes) ==> nodes[p] == old(nodes)[p]
      ensures old(repr) <= repr && fresh(repr - old(repr))
    {
      node := root;
      for i := 0 to |word|
        invariant Shape() && Marks()
        invariant word[..i] in nodes && node == nodes[word[..i]]
        invariant nodes.Keys == old(nodes.Keys) + Prefixes(word[..i])
        invariant forall p :: p in old(nodes) ==> nodes[p] == old(nodes)[p]
        invariant old(repr) <= repr && fresh(repr - old(repr))
      {
        assert word[..i + 1] == Extend(word[..i], word[i]);
        node := ChildFor(word[..i], node, word[i]);
      }
      assert word[..|word|] == word;
    }

    method Insert(word: string, replaceText: string)
      requires Valid()
      modifies `nodes, `words, `repr
      modifies repr`children, repr`isEnd, repr`length, repr`replaceText
      ensures Valid()
      ensures words == old(words)[word := replaceText]
      ensures nodes.Keys == old(nodes.Keys) + Prefixes(word)
      ensures forall p :: p in old(nodes) ==> nodes[p] == old(nodes)[p]
      ensures old(repr) <= repr && fresh(repr - old(repr))
    {
      var node := Descend(word);
      MarkEnd(node, word, replaceText);
      LeanAfterInsert(old(nodes.Keys), old(words.Keys), word);
      assert words.Keys == old(words.Keys) + {word};
    }

    method MarkEnd(node: ACNode, word: string, replaceText: string)
      requires Shape() && Marks()
      requires word in nodes && nodes[word] == node
      modifies this`words, node`isEnd, node`length, node`replaceText
      ensures Shape() && Marks()
      ensures words == old(words)[word := replaceText]
    {
      node.isEnd := true;
      node.length := |word|;
      node.replaceText := replaceText;
      words := words[word := replaceText];
    }

    /** Set the fail link of one child, given the fail links of all nodes above it. */
    method LinkChild(ghost path: string, current: ACNode, ch: char, child: ACNode)
      requires Shape() && root.fail == null
      requires path in nodes && nodes[path] == current
      requires ch in current.children && current.children[ch] == child
      requires forall p {:trigger FailIsLongest(p)} :: p in nodes && p != "" && |p| <= |path| ==> FailIsLongest(p)
      modifies child`fail
      ensures Extend(path, ch) in nodes && FailIsLongest(Extend(path, ch))
      ensures forall p {:trigger FailIsLongest(p)} :: p in nodes && p != "" && old(FailIsLongest(p)) ==>
        FailIsLongest(p)
    {
      ghost var target := Extend(path, ch)[1..];
      assert child == nodes[Extend(path, ch)];
      ExtendTail(path, ch);
      if current == root {
        child.fail := root;
      } else {
        assert FailIsLongest(path);
        var fail := current.fail;
        ghost var q := Longest(nodes.Keys, path[1..]);
        LongestStep(nodes.Keys, path[1..], ch);
        while fail != null
          invariant fail != null ==> q in nodes && nodes[q] == fail && |q| < |path|
          invariant fail != null ==> Longest(nodes.Keys, target) == Longest(nodes.Keys, Extend(q, ch))
          invariant fail == null ==> Longest(nodes.Keys, target) == ""
          decreases if fail == null then 0 else |q| + 1
        {
          assert ch in fail.children <==> Extend(q, ch) in nodes;
          if ch in fail.children {
            child.fail := fail.children[ch];
            break;
          }
          if q == "" {
            Arrive(nodes.Keys, q, ch);
          } else {
            assert old(FailIsLongest(q)) && nodes[q] != child;
            FailStep(nodes.Keys, q, ch);
            q := Longest(nodes.Keys, q[1..]);
          }
          fail := fail.fail;
        }
        if fail == null {
          child.fail := root;
        }
      }
    }

    /** Set the fail links of all children of a node, in any order, and list the children in that order. */
    method LinkChildren(ghost path: string, current: ACNode) returns (added: seq<ACNode>, ghost order: seq<char>)
      requires Shape() && root.fail == null
      requires path in nodes && nodes[path] == current
      requires forall p {:trigger FailIsLongest(p)} :: p in nodes && p != "" && |p| <= |path| ==> FailIsLongest(p)
      modifies repr`fail
      ensures root.fail == null && Enumerates(order, current.children.Keys)
      ensures IsPick(current.children, order, added)
      ensures forall ch {:trigger Extend(path, ch)} :: ch in current.children ==> FailIsLongest(Extend(path, ch))
      ensures forall p {:trigger FailIsLongest(p)} :: p in nodes && p != "" && old(FailIsLongest(p)) ==>
        FailIsLongest(p)
    {
      var children := current.children;
      added, order := [], [];
      var pending := children.Keys;
      while pending != {}
        invariant root.fail == null && pending <= children.Keys
        invariant Enumerates(order, children.Keys - pending) && IsPick(children, order, added)
        invariant forall ch {:trigger Extend(path, ch)} :: ch in children && ch !in pending ==>
          FailIsLongest(Extend(path, ch))
        invariant forall p {:trigger FailIsLongest(p)} :: p in nodes && p != "" && old(FailIsLongest(p)) ==>
          FailIsLongest(p)
      {
        var ch :| ch in pending;
        var child := children[ch];
        LinkChild(path, current, ch, child);
        EnumeratesOneMore(order, children.Keys, pending, ch);
        PickOneMore(children, order, added, ch);
        pending := pending - {ch};
        added, order := added + [child], order + [ch];
      }
    }

    /** One turn of the breadth-first loop: take the head of the queue, link its children, queue them. */
    method Visit(queue: seq<ACNode>, ghost done: set<string>, ghost paths: seq<string>)
      returns (rest: seq<ACNode>, ghost restPaths: seq<string>)
      requires Shape() && root.fail == null && queue != []
      requires InOrder(nodes.Keys, done, paths) && AtPaths(nodes, paths, queue)
      requires forall p {:trigger FailIsLongest(p)} :: p in Seen(done, paths) && p != "" ==> FailIsLongest(p)
      modifies repr`fail
      ensures root.fail == null && paths[0] in nodes && paths[0] !in done
      ensures InOrder(nodes.Keys, done + {paths[0]}, restPaths) && AtPaths(nodes, restPaths, rest)
      ensures forall p {:trigger FailIsLongest(p)} :: p in Seen(done + {paths[0]}, restPaths) && p != "" ==>
        FailIsLongest(p)
    {
      var current := queue[0];
      forall p | p in nodes && |p| <= |paths[0]| ensures p in Seen(done, paths) {
        ShallowIsSeen(nodes.Keys, done, paths, p);
      }
      rest := queue[1..];
      var added; ghost var order;
      added, order := LinkChildren(paths[0], current);
      rest := rest + added;
      restPaths := NextQueue(nodes, current.children, done, paths, queue, order, added);
      forall p | p in Seen(done + {paths[0]}, restPaths) && p != "" ensures FailIsLongest(p) {
        if p in Seen(done, paths) {
          assert old(FailIsLongest(p));
        } else {
          Rejoin(p);
        }
      }
    }

    method BuildFailPointer()
      requires Shape() && root.fail == null
      modifies repr`fail
      ensures root.fail == null && Built()
    {
      var queue := [root];
      ghost var paths, done := [""], {};
      assert Seen(done, paths) == {""};
      while |queue| > 0
        invariant root.fail == null
        invariant InOrder(nodes.Keys, done, paths) && AtPaths(nodes, paths, queue)
        invariant forall p {:trigger FailIsLongest(p)} :: p in Seen(done, paths) && p != "" ==> FailIsLongest(p)
        decreases nodes.Keys - done
      {
        ghost var path := paths[0];
        queue, paths := Visit(queue, done, paths);
        done := done + {path};
      }
      forall p | p in nodes ensures p in done {
        EmptyQueueMeansAll(nodes.Keys, done, p);
      }
    }

    /** Ready for matching: every fail link is in place. */
    ghost predicate Ready()
      reads this, repr
    {
      Valid() && Built()
    }

    /** The goto loop: from the node of `path` to the node of its longest continuation by ch. */
    method Advance(start: ACNode, ghost path: string, ch: char) returns (node: ACNode, ghost jumps: nat)
      requires Shape() && Built()
      requires path in nodes && nodes[path] == start
      ensures node == nodes[Longest(nodes.Keys, Extend(path, ch))]
      ensures jumps == Jumps(nodes.Keys, path, ch)
    {
      node, jumps := start, 0;
      ghost var q := path;
      while node != root && ch !in node.children
        invariant q in nodes && nodes[q] == node
        invariant Longest(nodes.Keys, Extend(path, ch)) == Longest(nodes.Keys, Extend(q, ch))
        invariant jumps + Jumps(nodes.Keys, q, ch) == Jumps(nodes.Keys, path, ch)
        decreases |q|
      {
        assert Extend(q, ch) !in nodes && FailIsLongest(q);
        FailStep(nodes.Keys, q, ch);
        q := Longest(nodes.Keys, q[1..]);
        node := node.fail;
        jumps := jumps + 1;
      }
      assert ch in node.children <==> Extend(q, ch) in nodes;
      Arrive(nodes.Keys, q, ch);
      if ch in node.children {
        node := node.children[ch];
      }
    }

    /** All positions where an inserted word occurs, by end and then longest first. */
    method MatchPositions(text: string) returns (positions: seq<Position>, ghost jumps: nat)
      requires Ready()
      ensures positions == AllMatches(words.Keys, text)
      ensures jumps == TotalJumps(nodes.Keys, text) && jumps <= |text|
    {
      var node := root;
      positions, jumps := [], 0;
      for i := 0 to |text|
        invariant node == nodes[Longest(nodes.Keys, text[..i])]
        invariant positions == AllMatches(words.Keys, text[..i])
        invariant jumps == TotalJumps(nodes.Keys, text[..i])
      {
        ghost var read, hops := text[..i + 1], 0;
        ReadOne(nodes.Keys, words.Keys, text, i);
        node, hops := Advance(node, Longest(nodes.Keys, text[..i]), text[i]);
        jumps := jumps + hops;
        positions := CollectAt(node, Longest(nodes.Keys, read), i, positions);
      }
      assert text[..|text|] == text;
      TotalJumpsBounded(nodes.Keys, text);
    }

    /** The walk over fail links that collects the words ending at index i. */
    method CollectAt(start: ACNode, ghost path: string, i: int, before: seq<Position>)
      returns (positions: seq<Position>)
      requires Ready()
      requires path in nodes && nodes[path] == start
      ensures positions == before + EndingAt(words.Keys, path, i)
    {
      positions := before;
      var tmp := start;
      ghost var q, all := path, before + EndingAt(words.Keys, path, i);
      while tmp != root
        invariant q in nodes && nodes[q] == tmp
        invariant positions + EndingAt(words.Keys, q, i) == all
        decreases |q|
      {
        assert q != "" && FailIsLongest(q);
        CollectStep(nodes.Keys, words.Keys, q, i, positions, all);
        if tmp.isEnd {
          var startPos := i - tmp.length + 1;
          assert startPos == i - |q| + 1;
          positions := positions + [Position(startPos, i)];
        }
        tmp := tmp.fail;
        q := Longest(nodes.Keys, q[1..]);
      }
    }

    method InWhitelist(white: seq<Position>, i: int, length: nat) returns (b: bool)
      ensures b <==> Whitelisted(white, i - length + 1, i)
    {
      b := false;
      for k := 0 to |white|
        invariant !b && !exists j :: 0 <= j < k && white[j].Start <= i - length + 1 && i <= white[j].End
      {
        if i - white[k].Start + 1 >= length && i <= white[k].End {
          b := true;
          return;
        }
      }
    }

    /** The walk over fail links that stops at the first word that is not whitelisted. */
    method FindAt(start: ACNode, ghost path: string, i: int, white: seq<Position>)
      returns (found: seq<Merging.Replacement>)
      requires Ready()
      requires path in nodes && nodes[path] == start
      ensures found == FoundAt(words, white, path, i)
    {
      found := [];
      var tmp := start;
      ghost var q := path;
      while tmp != root
        invariant q in nodes && nodes[q] == tmp
        invariant found == [] && FoundAt(words, white, q, i) == FoundAt(words, white, path, i)
        decreases |q|
      {
        assert q != "" && FailIsLongest(q);
        FindStep(nodes.Keys, words, white, q, i);
        if tmp.isEnd {
          var isInWhiteList := InWhitelist(white, i, tmp.length);
          if !isInWhiteList {
            var startPos := i - tmp.length + 1;
            assert startPos == i - |q| + 1;
            found := [Merging.Replacement(startPos, i, tmp.replaceText)];
            assert found[0] == Merging.Replacement(i - |q| + 1, i, words[q]);
            return;
          }
        }
        tmp := tmp.fail;
        q := Longest(nodes.Keys, q[1..]);
      }
    }

    method FilterWithWhitelist(text: string, white: seq<Position>) returns (result: string)
      requires Ready()
      ensures result == Filtered(words, white, text)
    {
      var node := root;
      var replacements: seq<Merging.Replacement> := [];
      for i := 0 to |text|
        invariant node == nodes[Longest(nodes.Keys, text[..i])]
        invariant replacements == Best(words, white, text, i)
      {
        ghost var read, hops := text[..i + 1], 0;
        ReadOne(nodes.Keys, words.Keys, text, i);
        FoundAtLongest(nodes.Keys, words, white, read, i);
        node, hops := Advance(node, Longest(nodes.Keys, text[..i]), text[i]);
        var found := FindAt(node, Longest(nodes.Keys, read), i, white);
        replacements := replacements + found;
      }
      if replacements != [] {
        result := Splice(text, white, replacements);
      } else {
        NothingToReplace(words, white, text);
        result := text;
      }
    }

    method Splice(text: string, ghost white: seq<Position>, replacements: seq<Merging.Replacement>)
      returns (result: string)
      requires replacements == Best(words, white, text, |text|)
      ensures result == Filtered(words, white, text)
    {
      forall k | 0 <= k < |replacements| ensures 0 <= replacements[k].Start <= replacements[k].End < |text| {
        BestAdmissible(words, white, text, replacements[k]);
      }
      var buffer := new Merging.Replacement[|replacements|](k requires 0 <= k < |replacements| => replacements[k]);
      assert buffer[..] == replacements;
      ghost var merged;
      result, merged := Splicing.ApplyReplacements(text, buffer);
      SplicedIsFiltered(words, white, text, merged);
    }
  }
}
