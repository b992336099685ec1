/** The queue discipline of a breadth-first walk over a trie, seen on paths. */
module BreadthFirst {
  import opened Suffixes

  ghost function Seen(done: set<string>, queue: seq<string>): set<string> {
    done + set p | p in queue
  }

  /** The paths seen so far are the root and the children of the paths that are done. */
  ghost predicate SeenIsFrontier(paths: set<string>, done: set<string>, seen: set<string>) {
    && "" in seen && done <= seen <= paths
    && (forall p {:trigger Parent(p)} :: p in paths && p != "" ==> (p in seen <==> Parent(p) in done))
  }

  /** The queue holds no path twice and no path that is done, shortest paths first. */
  ghost predicate ByDepth(done: set<string>, queue: seq<string>) {
    && (forall k :: 0 <= k < |queue| ==> queue[k] !in done && |queue[0]| <= |queue[k]| <= |queue[0]| + 1)
    && (forall j, k :: 0 <= j < k < |queue| ==> queue[j] != queue[k] && |queue[j]| <= |queue[k]|)
    && (queue != [] ==> forall p :: p in done ==> |p| <= |queue[0]|)
  }

  /** done holds the paths already taken from the queue, queue the ones still waiting. */
  ghost predicate InOrder(paths: set<string>, done: set<string>, queue: seq<string>) {
    IsTrie(paths) && SeenIsFrontier(paths, done, Seen(done, queue)) && ByDepth(done, queue)
  }

  /** Everything no deeper than the head of the queue has been seen. */
  lemma {:induction false} ShallowIsSeen(paths: set<string>, done: set<string>, queue: seq<string>, p: string)
    requires InOrder(paths, done, queue) && queue != []
    requires p in paths && |p| <= |queue[0]|
    ensures p in Seen(done, queue)
  {
    if p != "" {
      ShallowIsSeen(paths, done, queue, Parent(p));
    }
  }

  lemma {:induction false} EmptyQueueMeansAll(paths: set<string>, done: set<string>, p: string)
    requires InOrder(paths, done, []) && p in paths
    ensures p in done
  {
    if p != "" {
      EmptyQueueMeansAll(paths, done, Parent(p));
    }
  }

  /** kids lists the children of p in some order. */
  ghost predicate ListsChildren(paths: set<string>, p: string, kids: seq<string>) {
    && (forall k :: 0 <= k < |kids| ==> kids[k] in paths && kids[k] != "" && Parent(kids[k]) == p)
    && (forall j, k :: 0 <= j < k < |kids| ==> kids[j] != kids[k])
    && (forall q {:trigger Parent(q)} :: q in paths && q != "" && Parent(q) == p ==> q in kids)
  }

  /** order lists the members of s, each once. */
  ghost predicate Enumerates(order: seq<char>, s: set<char>) {
    && (forall j, k :: 0 <= j < k < |order| ==> order[j] != order[k])
    && (forall c :: c in s <==> c in order)
  }

  lemma EnumeratesOneMore(order: seq<char>, all: set<char>, pending: set<char>, c: char)
    requires Enumerates(order, all - pending) && c in pending && pending <= all
    ensures Enumerates(order + [c], all - (pending - {c}))
  {
  }

  ghost function ExtendAll(path: string, order: seq<char>): (kids: seq<string>)
    ensures |kids| == |order| && forall k :: 0 <= k < |kids| ==> kids[k] == Extend(path, order[k])
  {
    if order == [] then [] else [Extend(path, order[0])] + ExtendAll(path, order[1..])
  }

  lemma ExtendAllListsChildren(paths: set<string>, path: string, order: seq<char>, runes: set<char>)
    requires Enumerates(order, runes)
    requires forall c :: c in runes <==> Extend(path, c) in paths
    ensures ListsChildren(paths, path, ExtendAll(path, order))
  {
    var kids := ExtendAll(path, order);
    forall q | q in paths && q != "" && Parent(q) == path ensures q in kids {
      Rejoin(q);
      var k :| 0 <= k < |order| && order[k] == Last(q);
      assert kids[k] == q;
    }
    forall j, k | 0 <= j < k < |kids| ensures kids[j] != kids[k] {
      assert Last(kids[j]) == order[j] && Last(kids[k]) == order[k];
    }
  }

  lemma TakeHead(paths: set<string>, done: set<string>, queue: seq<string>, kids: seq<string>)
    requires InOrder(paths, done, queue) && queue != []
    requires ListsChildren(paths, queue[0], kids)
    ensures InOrder(paths, done + {queue[0]}, queue[1..] + kids)
    ensures Seen(done + {queue[0]}, queue[1..] + kids) == Seen(done, queue) + set q | q in kids
  {
    SeenAfterHead(done, queue, kids);
    assert queue[0] in Seen(done, queue);
    forall k | 0 <= k < |kids| ensures kids[k] !in Seen(done, queue) && |kids[k]| == |queue[0]| + 1 {
      assert Parent(kids[k]) == queue[0];
    }
    DepthAfterHead(done, queue, kids);
  }

  lemma SeenAfterHead(done: set<string>, queue: seq<string>, kids: seq<string>)
    requires queue != []
    ensures Seen(done + {queue[0]}, queue[1..] + kids) == Seen(done, queue) + set q | q in kids
  {
    assert queue == [queue[0]] + queue[1..];
  }

  lemma DepthAfterHead(done: set<string>, queue: seq<string>, kids: seq<string>)
    requires ByDepth(done, queue) && queue != []
    requires forall k :: 0 <= k < |kids| ==> kids[k] !in Seen(done, queue) && |kids[k]| == |queue[0]| + 1
    requires forall j, k :: 0 <= j < k < |kids| ==> kids[j] != kids[k]
    ensures ByDepth(done + {queue[0]}, queue[1..] + kids)
  {
    var next, n := queue[1..] + kids, |queue| - 1;
    forall k | 0 <= k < |next|
      ensures next[k] !in done + {queue[0]} && |queue[0]| <= |next[k]| <= |queue[0]| + 1
      ensures next[k] == if k < n then queue[k + 1] else kids[k - n]
    {
      assert queue[0] in Seen(done, queue);
    }
    forall j, k | 0 <= j < k < |next| ensures next[j] != next[k] && |next[j]| <= |next[k]| {
      if j < n <= k {
        assert next[j] in Seen(done, queue);
      }
    }
  }
}
