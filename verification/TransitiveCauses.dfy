/** The transitive causes of an active check: a depth-limited search against the causal links. */
module TransitiveCauses {
  import opened CausalGraph
  import opened CausalSearch
  import opened CausalWalks

  datatype TransitiveCause = TransitiveCause(checkId: Id, path: seq<Id>, confidence: Confidence, depth: nat)

  /** The confidence of the first link from the cause to the effect. */
  function LinkConfidence(links: seq<Link>, cause: Id, effect: Id): Confidence {
    if links == [] then High
    else if links[0].cause == cause && links[0].effect == effect then links[0].confidence
    else LinkConfidence(links[1..], cause, effect)
  }

  lemma {:induction false} LinkConfidenceIsFirst(links: seq<Link>, j: nat)
    requires j < |links|
    requires forall i | 0 <= i < j :: !(links[i].cause == links[j].cause && links[i].effect == links[j].effect)
    ensures LinkConfidence(links, links[j].cause, links[j].effect) == links[j].confidence
  {
    if j > 0 {
      assert links[1..][j - 1] == links[j];
      forall i | 0 <= i < j - 1 ensures links[1..][i] == links[i + 1] {}
      LinkConfidenceIsFirst(links[1..], j - 1);
    }
  }

  /** The calibrated confidence of the step from an effect back to its cause. */
  function HopConfidence(links: seq<Link>, observations: Observations, cause: Id, effect: Id): Confidence {
    Calibrated(observations, cause, effect, LinkConfidence(links, cause, effect))
  }

  /** The weakest hop of a path of causes, and high for the empty one. */
  ghost function PathConfidence(q: Query, observations: Observations, path: Path): Confidence {
    match path
    case Start => High
    case Via(before, last) =>
      Weaker(HopConfidence(q.links, observations, last, q.End(before)), PathConfidence(q, observations, before))
  }

  ghost function Describe(q: Query, observations: Observations, path: Path): TransitiveCause {
    TransitiveCause(q.End(path), path.Nodes(), PathConfidence(q, observations, path), path.Depth())
  }

  // ---------- what the list of causes promises ----------

  /** The calibrated confidence of one step of a walk of causes. */
  function Hop(links: seq<Link>, observations: Observations, start: Id, nodes: seq<Id>, i: nat): Confidence
    requires i < |nodes|
  {
    HopConfidence(links, observations, nodes[i], Previous(start, nodes, i))
  }

  /** The confidence is that of the least certain step of the walk. */
  ghost predicate WeakestHop(links: seq<Link>, observations: Observations, start: Id, nodes: seq<Id>, c: Confidence) {
    && (forall i | 0 <= i < |nodes| :: AtMost(c, Hop(links, observations, start, nodes, i)))
    && (exists i :: 0 <= i < |nodes| && c == Hop(links, observations, start, nodes, i))
  }

  lemma HopStays(links: seq<Link>, observations: Observations, start: Id, nodes: seq<Id>, last: Id, i: nat)
    requires i <= |nodes|
    ensures Hop(links, observations, start, nodes + [last], i)
         == if i < |nodes| then Hop(links, observations, start, nodes, i)
            else HopConfidence(links, observations, last, Previous(start, nodes, i))
  {
    assert (nodes + [last])[i] == if i < |nodes| then nodes[i] else last;
    assert Previous(start, nodes + [last], i) == Previous(start, nodes, i);
  }

  lemma WeakestHopExtended(
    links: seq<Link>, observations: Observations, start: Id, nodes: seq<Id>, c: Confidence, last: Id)
    requires nodes == [] ==> c == High
    requires nodes != [] ==> WeakestHop(links, observations, start, nodes, c)
    ensures WeakestHop(links, observations, start, nodes + [last],
                       Weaker(HopConfidence(links, observations, last, Previous(start, nodes, |nodes|)), c))
  {
    var weakest := Weaker(HopConfidence(links, observations, last, Previous(start, nodes, |nodes|)), c);
    forall i | 0 <= i <= |nodes| ensures AtMost(weakest, Hop(links, observations, start, nodes + [last], i)) {
      HopStays(links, observations, start, nodes, last, i);
    }
    var best := |nodes|;
    if weakest != HopConfidence(links, observations, last, Previous(start, nodes, |nodes|)) {
      best :| 0 <= best < |nodes| && c == Hop(links, observations, start, nodes, best);
    }
    HopStays(links, observations, start, nodes, last, best);
  }

  lemma {:induction false} PathConfidenceIsWeakest(q: Query, observations: Observations, path: Path)
    requires path.Via?
    ensures WeakestHop(q.links, observations, q.start, path.Nodes(), PathConfidence(q, observations, path))
  {
    var before := path.before;
    PathIsWalk(q, before);
    if before.Via? {
      PathConfidenceIsWeakest(q, observations, before);
    }
    WeakestHopExtended(q.links, observations, q.start, before.Nodes(), PathConfidence(q, observations, before), path.last);
  }

  ghost function PathsOf(results: seq<TransitiveCause>): seq<seq<Id>> {
    seq(|results|, i requires 0 <= i < |results| => results[i].path)
  }

  ghost predicate CorrectCause(links: seq<Link>, observations: Observations, checkId: Id, cause: TransitiveCause) {
    && cause.path != [] && cause.checkId == Last(cause.path)
    && cause.depth == |cause.path| <= DEPTH_LIMIT
    && WeakestHop(links, observations, checkId, cause.path, cause.confidence)
  }

  /**
   * Each active check at the end of a backward walk of one to four links is
   * listed once, with a shortest such walk, its length, and its weakest
   * calibrated confidence; nothing else is listed.
   */
  ghost predicate CorrectCauses(
    links: seq<Link>, active: set<Id>, observations: Observations, checkId: Id, results: seq<TransitiveCause>)
  {
    && ShortestWalks(Query(ToCauses, links, active, checkId), PathsOf(results))
    && forall i | 0 <= i < |results| :: CorrectCause(links, observations, checkId, results[i])
  }

  lemma DescribedCauseIsCorrect(q: Query, observations: Observations, path: Path)
    requires q.direction == ToCauses && path.Via? && q.IsWalk(path)
    ensures CorrectCause(q.links, observations, q.start, Describe(q, observations, path))
  {
    PathIsWalk(q, path);
    PathConfidenceIsWeakest(q, observations, path);
  }

  lemma DescribedCausesAreCorrect(q: Query, observations: Observations, results: seq<TransitiveCause>)
    requires q.direction == ToCauses && Describes(q, observations, results, SearchFrom(q), 1, |SearchFrom(q)|)
    ensures CorrectCauses(q.links, q.active, observations, q.start, results)
  {
    SearchFindsShortestWalks(q);
    assert PathsOf(results) == AllNodes(SearchFrom(q)[1..]);
    SearchIsExact(q);
    forall i | 0 <= i < |results| ensures CorrectCause(q.links, observations, q.start, results[i]) {
      DescribedCauseIsCorrect(q, observations, SearchFrom(q)[1 + i]);
    }
  }

  /** More joint resolutions never lower a cause's confidence and change nothing else about the list. */
  lemma MoreResolvedKeepsCauses(
    q: Query, before: Observations, after: Observations, results: seq<TransitiveCause>, results': seq<TransitiveCause>)
    requires MoreResolved(before, after)
    requires Describes(q, before, results, SearchFrom(q), 1, |SearchFrom(q)|)
    requires Describes(q, after, results', SearchFrom(q), 1, |SearchFrom(q)|)
    ensures |results| == |results'|
    ensures forall i | 0 <= i < |results| ::
              && results'[i] == results[i].(confidence := results'[i].confidence)
              && AtMost(results[i].confidence, results'[i].confidence)
  {
    forall i | 0 <= i < |results|
      ensures results'[i] == results[i].(confidence := results'[i].confidence)
      ensures AtMost(results[i].confidence, results'[i].confidence)
    {
      PathConfidenceIsMonotone(q, before, after, SearchFrom(q)[i + 1]);
    }
  }

  lemma {:induction false} PathConfidenceIsMonotone(q: Query, before: Observations, after: Observations, path: Path)
    requires MoreResolved(before, after)
    ensures AtMost(PathConfidence(q, before, path), PathConfidence(q, after, path))
  {
    if path.Via? {
      var effect := q.End(path.before);
      CalibrationIsMonotone(before, after, path.last, effect, LinkConfidence(q.links, path.last, effect));
      PathConfidenceIsMonotone(q, before, after, path.before);
    }
  }

  // ---------- the search for causes ----------

  /** The entries describe the log from `from` up to `to`, in order. */
  ghost predicate Describes(
    q: Query, observations: Observations, entries: seq<TransitiveCause>, log: seq<Path>, from: nat, to: nat)
  {
    && from <= to <= |log|
    && |entries| == to - from
    && forall i | 0 <= i < |entries| :: entries[i] == Describe(q, observations, log[from + i])
  }

  /** The entries before `split` are still to be expanded, the others lie at the depth limit. */
  ghost predicate SplitAt(log: seq<Path>, split: nat) {
    && split <= |log|
    && forall i | 0 <= i < |log| :: i < split <==> log[i].Depth() < DEPTH_LIMIT
  }

  /** The variables of the search agree with its log, of which `head` entries have left the queue. */
  ghost predicate Mirrors(
    q: Query, observations: Observations, log: seq<Path>, head: nat, split: nat,
    results: seq<TransitiveCause>, visited: set<Id>, queue: seq<TransitiveCause>)
  {
    && visited == Ids(log)
    && Describes(q, observations, results, log, 1, |log|)
    && SplitAt(log, split)
    && Describes(q, observations, queue, log, head, split)
  }

  lemma DescribesOneMore(
    q: Query, observations: Observations, entries: seq<TransitiveCause>, log: seq<Path>, from: nat, path: Path)
    requires Describes(q, observations, entries, log, from, |log|)
    ensures Describes(q, observations, entries + [Describe(q, observations, path)], log + [path], from, |log| + 1)
  {
    hide Describe;
  }

  lemma DescribesStill(
    q: Query, observations: Observations, entries: seq<TransitiveCause>, log: seq<Path>, from: nat, to: nat, path: Path)
    requires Describes(q, observations, entries, log, from, to)
    ensures Describes(q, observations, entries, log + [path], from, to)
  {
    hide Describe;
  }

  lemma SplitOneMore(log: seq<Path>, split: nat, path: Path, last: Id)
    requires SplitAt(log, split) && NoDeeperThan(log, path.Depth() + 1) && log != [] && path.Depth() < DEPTH_LIMIT
    ensures SplitAt(log + [Via(path, last)], if path.Depth() < 3 then split + 1 else split)
  {
    if path.Depth() < 3 {
      NothingAtTheLimitYet(log, split, path.Depth());
    }
  }

  lemma NothingAtTheLimitYet(log: seq<Path>, split: nat, depth: nat)
    requires SplitAt(log, split) && NoDeeperThan(log, depth + 1) && log != [] && depth < 3
    ensures split == |log|
  {
    assert log[|log| - 1].Depth() <= depth + 1;
  }

  lemma MirrorsOneMore(
    q: Query, observations: Observations, log: seq<Path>, head: nat, split: nat,
    results: seq<TransitiveCause>, visited: set<Id>, queue: seq<TransitiveCause>, path: Path, last: Id)
    requires q.direction == ToCauses && q.Expandable(path) && NoDeeperThan(log, path.Depth() + 1)
    requires log != [] && Mirrors(q, observations, log, head, split, results, visited, queue)
    ensures var found := Describe(q, observations, Via(path, last));
            var pushed := path.Depth() < 3;
            Mirrors(q, observations, log + [Via(path, last)], head, if pushed then split + 1 else split,
                    results + [found], visited + {last}, if pushed then queue + [found] else queue)
  {
    hide Ids, SplitAt, Describes, Describe;
    IdsOfAppended(log, path, last);
    DescribesOneMore(q, observations, results, log, 1, Via(path, last));
    SplitOneMore(log, split, path, last);
    if path.Depth() < 3 {
      NothingAtTheLimitYet(log, split, path.Depth());
      DescribesOneMore(q, observations, queue, log, head, Via(path, last));
    } else {
      DescribesStill(q, observations, queue, log, head, split, Via(path, last));
    }
  }

  /** Taking the first entry off the queue. */
  lemma Dequeued(
    q: Query, observations: Observations, log: seq<Path>, head: nat, split: nat,
    results: seq<TransitiveCause>, visited: set<Id>, queue: seq<TransitiveCause>)
    requires q.direction == ToCauses && queue != []
    requires Mirrors(q, observations, log, head, split, results, visited, queue)
    ensures head < |log| && queue[0] == Describe(q, observations, log[head])
    ensures q.Expandable(log[head])
    ensures Mirrors(q, observations, log, head + 1, split, results, visited, queue[1..])
  {
    assert queue[0] == Describe(q, observations, log[head + 0]);
  }

  /** With an empty queue nothing is left to expand. */
  lemma QueueEmpty(
    q: Query, observations: Observations, log: seq<Path>, head: nat, split: nat,
    results: seq<TransitiveCause>, visited: set<Id>)
    requires q.direction == ToCauses && head <= |log|
    requires Mirrors(q, observations, log, head, split, results, visited, [])
    ensures Search(q, log, head) == log
  {
    SearchSkips(q, log, head);
  }

  /** What one more link adds to an entry. */
  function Beyond(observations: Observations, entry: TransitiveCause, link: Link): TransitiveCause {
    var calibrated := Calibrated(observations, link.cause, entry.checkId, link.confidence);
    TransitiveCause(link.cause, entry.path + [link.cause], Weaker(calibrated, entry.confidence), entry.depth + 1)
  }

  /** The link just reached is the first one for its pair, so it is the one that describes the new path. */
  lemma DescribesFound(q: Query, observations: Observations, path: Path, log: seq<Path>, k: nat)
    requires q.direction == ToCauses && k < |q.links| && Scanned(q, path, log, k)
    requires var link := q.links[k]; link.effect == q.End(path) && link.cause in q.active && link.cause !in Ids(log)
    ensures Describe(q, observations, Via(path, q.links[k].cause))
         == Beyond(observations, Describe(q, observations, path), q.links[k])
  {
    forall i | 0 <= i < k
      ensures !(q.links[i].cause == q.links[k].cause && q.links[i].effect == q.links[k].effect)
    {
    }
    LinkConfidenceIsFirst(q.links, k);
  }

  method ComputeTransitiveCauses(links: seq<Link>, active: set<Id>, observations: Observations, checkId: Id)
    returns (results: seq<TransitiveCause>)
    ensures var q := Query(ToCauses, links, active, checkId);
            Describes(q, observations, results, SearchFrom(q), 1, |SearchFrom(q)|)
    ensures CorrectCauses(links, active, observations, checkId, results)
  {
    var q := Query(ToCauses, links, active, checkId);
    ghost var log, head, split := [Start], 0, 1;
    results := [];
    var visited: set<Id> := {};
    var queue := [TransitiveCause(checkId, [], High, 0)];
    RunningStarts(q);
    while queue != []
      invariant Running(q, log, head)
      invariant Mirrors(q, observations, log, head, split, results, visited, queue)
      decreases active - Ids(log), |queue|
    {
      results, visited, queue, log, split :=
        ExpandFirst(q, observations, results, visited, queue, log, head, split);
      head := head + 1;
    }
    QueueEmpty(q, observations, log, head, split, results, visited);
    DescribedCausesAreCorrect(q, observations, results);
  }

  /** One pass of the outer loop. */
  method ExpandFirst(
    q: Query, observations: Observations,
    results: seq<TransitiveCause>, visited: set<Id>, queue: seq<TransitiveCause>,
    ghost log: seq<Path>, ghost head: nat, ghost split: nat)
    returns (results': seq<TransitiveCause>, visited': set<Id>, queue': seq<TransitiveCause>,
             ghost log': seq<Path>, ghost split': nat)
    requires q.direction == ToCauses && queue != [] && Running(q, log, head)
    requires Mirrors(q, observations, log, head, split, results, visited, queue)
    ensures Running(q, log', head + 1)
    ensures Mirrors(q, observations, log', head + 1, split', results', visited', queue')
    ensures Extends(q, log, log') && (log' == log ==> |queue'| < |queue|)
  {
    Dequeued(q, observations, log, head, split, results, visited, queue);
    RunningOn(q, log, head);
    results', visited', queue', log', split' :=
      FollowLinks(q, observations, queue[0], log[head], results, visited, queue[1..], log, head + 1, split);
  }

  /** The inner loop: tries every link from the entry taken off the queue. */
  method FollowLinks(
    q: Query, observations: Observations, entry: TransitiveCause, ghost path: Path,
    results: seq<TransitiveCause>, visited: set<Id>, queue: seq<TransitiveCause>,
    ghost log: seq<Path>, ghost head: nat, ghost split: nat)
    returns (results': seq<TransitiveCause>, visited': set<Id>, queue': seq<TransitiveCause>,
             ghost log': seq<Path>, ghost split': nat)
    requires q.direction == ToCauses && entry == Describe(q, observations, path)
    requires q.IsWalk(path) && q.Expandable(path) && Scanned(q, path, log, 0)
    requires Mirrors(q, observations, log, head, split, results, visited, queue)
    ensures log' == ScanAll(q, path, log)
    ensures Mirrors(q, observations, log', head, split', results', visited', queue')
    ensures log' == log ==> |queue'| == |queue|
  {
    results', visited', queue', log', split' := results, visited, queue, log, split;
    for k := 0 to |q.links|
      invariant log' == Scan(q, path, log, k) && Scanned(q, path, log', k)
      invariant Mirrors(q, observations, log', head, split', results', visited', queue')
      invariant |log| <= |log'| && (log' == log ==> |queue'| == |queue|)
    {
      ScanStep(q, path, log', k);
      results', visited', queue', log', split' :=
        FollowLink(q, observations, entry, path, k, results', visited', queue', log', head, split');
    }
  }

  /** One link: an active cause not met before is recorded, and queued above the depth limit. */
  method FollowLink(
    q: Query, observations: Observations, entry: TransitiveCause, ghost path: Path, k: nat,
    results: seq<TransitiveCause>, visited: set<Id>, queue: seq<TransitiveCause>,
    ghost log: seq<Path>, ghost head: nat, ghost split: nat)
    returns (results': seq<TransitiveCause>, visited': set<Id>, queue': seq<TransitiveCause>,
             ghost log': seq<Path>, ghost split': nat)
    requires q.direction == ToCauses && entry == Describe(q, observations, path)
    requires k < |q.links| && q.Expandable(path) && Scanned(q, path, log, k)
    requires Mirrors(q, observations, log, head, split, results, visited, queue)
    ensures log' == ScanLink(q, path, log, q.links[k])
    ensures Mirrors(q, observations, log', head, split', results', visited', queue')
    ensures log' == log ==> queue' == queue
  {
    hide Describes, SplitAt;
    results', visited', queue', log', split' := results, visited, queue, log, split;
    var link := q.links[k];
    if link.effect == entry.checkId && link.cause in q.active && link.cause !in visited {
      DescribesFound(q, observations, path, log, k);
      MirrorsOneMore(q, observations, log, head, split, results, visited, queue, path, link.cause);
      var found := Beyond(observations, entry, link);
      visited' := visited + {link.cause};
      results' := results + [found];
      if entry.depth < 3 {
        queue' := queue + [found];
        split' := split + 1;
      }
      log' := log + [Via(path, link.cause)];
    }
  }
}
