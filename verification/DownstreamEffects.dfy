/** The downstream effects of a check: an unbounded search along the causal links. */
module DownstreamEffects {
  import opened CausalGraph
  import opened CausalSearch
  import opened CausalWalks

  /** The entries are the ends of the log's paths from `from` on. */
  ghost predicate Lists(q: Query, entries: seq<Id>, log: seq<Path>, from: nat) {
    && from <= |log|
    && |entries| == |log| - from
    && forall i | 0 <= i < |entries| :: entries[i] == q.End(log[from + i])
  }

  ghost predicate Mirrors(q: Query, log: seq<Path>, head: nat, results: seq<Id>, visited: set<Id>, queue: seq<Id>) {
    visited == Ids(log) && Lists(q, results, log, 1) && Lists(q, queue, log, head)
  }

  /** Each check at the end of a nonempty forward walk is listed once, and no other is. */
  ghost predicate CorrectEffects(links: seq<Link>, active: set<Id>, checkId: Id, results: seq<Id>) {
    && (forall i, j | 0 <= i < j < |results| :: results[i] != results[j])
    && (forall id :: id in results <==> IsEffect(links, active, checkId, id))
  }

  ghost predicate IsEffect(links: seq<Link>, active: set<Id>, checkId: Id, id: Id) {
    exists nodes: seq<Id> :: IsWalkTo(Query(ToEffects, links, active, checkId), id, nodes)
  }

  lemma ListedIffFound(q: Query, results: seq<Id>, id: Id)
    requires Sound(q, SearchFrom(q)) && Lists(q, results, SearchFrom(q), 1)
    ensures id in results <==> id in Ids(SearchFrom(q))
  {
    var log := SearchFrom(q);
    if id in results {
      var i :| 0 <= i < |results| && results[i] == id;
      assert log[1 + i] in log;
    }
    if path :| path in log && path.Via? && path.last == id {
      var i :| 0 <= i < |log| && log[i] == path;
      assert results[i - 1] == q.End(log[1 + (i - 1)]);
    }
  }

  lemma FoundIsEffect(q: Query, path: Path)
    requires q.direction == ToEffects && path.Via? && q.IsWalk(path)
    ensures IsEffect(q.links, q.active, q.start, path.last)
  {
    PathIsWalk(q, path);
    assert IsWalkTo(q, path.last, path.Nodes());
  }

  lemma EffectIsFound(q: Query, id: Id, nodes: seq<Id>)
    requires q.direction == ToEffects && IsWalkTo(q, id, nodes)
    ensures id in Ids(SearchFrom(q))
  {
    WalkReaches(q, nodes);
  }

  lemma FoundIffEffect(q: Query, id: Id)
    requires q.direction == ToEffects
    ensures id in Ids(SearchFrom(q)) <==> IsEffect(q.links, q.active, q.start, id)
  {
    if id in Ids(SearchFrom(q)) {
      FoundIffWalk(q, id);
      var walk: Path :| walk.Via? && q.IsWalk(walk) && walk.last == id;
      FoundIsEffect(q, walk);
    }
    if IsEffect(q.links, q.active, q.start, id) {
      var nodes: seq<Id> :| IsWalkTo(q, id, nodes);
      EffectIsFound(q, id, nodes);
    }
  }

  lemma ListedEffectsAreCorrect(q: Query, results: seq<Id>)
    requires q.direction == ToEffects && Lists(q, results, SearchFrom(q), 1)
    ensures CorrectEffects(q.links, q.active, q.start, results)
  {
    SearchIsExact(q);
    forall id ensures id in results <==> IsEffect(q.links, q.active, q.start, id) {
      ListedIffFound(q, results, id);
      FoundIffEffect(q, id);
    }
    forall i, j | 0 <= i < j < |results| ensures results[i] != results[j] {
      assert results[i] == q.End(SearchFrom(q)[1 + i]) && results[j] == q.End(SearchFrom(q)[1 + j]);
    }
  }

  method ComputeDownstreamEffects(links: seq<Link>, active: set<Id>, checkId: Id) returns (results: seq<Id>)
    ensures var q := Query(ToEffects, links, active, checkId); Lists(q, results, SearchFrom(q), 1)
    ensures CorrectEffects(links, active, checkId, results)
  {
    var q := Query(ToEffects, links, active, checkId);
    ghost var log, head := [Start], 0;
    results := [];
    var visited: set<Id> := {};
    var queue := [checkId];
    RunningStarts(q);
    while queue != []
      invariant Running(q, log, head)
      invariant Mirrors(q, log, head, results, visited, queue)
      decreases active - Ids(log), |queue|
    {
      results, visited, queue, log := ExpandFirst(q, results, visited, queue, log, head);
      head := head + 1;
    }
    ListedEffectsAreCorrect(q, results);
  }

  /** One pass of the outer loop; an empty id is taken off the queue without being expanded. */
  method ExpandFirst(
    q: Query, results: seq<Id>, visited: set<Id>, queue: seq<Id>, ghost log: seq<Path>, ghost head: nat)
    returns (results': seq<Id>, visited': set<Id>, queue': seq<Id>, ghost log': seq<Path>)
    requires q.direction == ToEffects && queue != [] && Running(q, log, head)
    requires Mirrors(q, log, head, results, visited, queue)
    ensures Running(q, log', head + 1)
    ensures Mirrors(q, log', head + 1, results', visited', queue')
    ensures Extends(q, log, log') && (log' == log ==> |queue'| < |queue|)
  {
    RunningOn(q, log, head);
    var node := queue[0];
    assert node == q.End(log[head + 0]);
    results', visited', queue', log' := results, visited, queue[1..], log;
    if node.name != "" {
      for k := 0 to |q.links|
        invariant log' == Scan(q, log[head], log, k)
        invariant Mirrors(q, log', head + 1, results', visited', queue')
      {
        results', visited', queue', log' :=
          FollowLink(q, node, log[head], q.links[k], results', visited', queue', log', head + 1);
      }
    }
  }

  /** One link of the inner loop. */
  method FollowLink(
    q: Query, node: Id, ghost path: Path, link: Link,
    results: seq<Id>, visited: set<Id>, queue: seq<Id>, ghost log: seq<Path>, ghost head: nat)
    returns (results': seq<Id>, visited': set<Id>, queue': seq<Id>, ghost log': seq<Path>)
    requires q.direction == ToEffects && node == q.End(path)
    requires Mirrors(q, log, head, results, visited, queue)
    ensures log' == ScanLink(q, path, log, link)
    ensures Mirrors(q, log', head, results', visited', queue')
  {
    results', visited', queue', log' := results, visited, queue, log;
    if link.cause == node && link.effect in q.active && link.effect !in visited {
      IdsOfAppended(log, path, link.effect);
      visited' := visited + {link.effect};
      results' := results + [link.effect];
      queue' := queue + [link.effect];
      log' := log + [Via(path, link.effect)];
    }
  }
}
