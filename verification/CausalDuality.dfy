/** How the list of causes of one check and the list of effects of another speak of each other. */
module CausalDuality {
  import opened CausalGraph
  import opened CausalSearch
  import opened CausalWalks
  import opened TransitiveCauses
  import opened DownstreamEffects

  /** The shortest walk from the query's start to the check has this many links. */
  ghost predicate IsDistance(q: Query, id: Id, distance: nat) {
    && HasWalk(q, id, distance)
    && forall n: nat | n < distance :: !HasWalk(q, id, n)
  }

  ghost predicate HasWalk(q: Query, id: Id, size: nat) {
    exists nodes: seq<Id> :: |nodes| == size && IsWalkTo(q, id, nodes)
  }

  /** The cause is listed, with this depth. */
  ghost predicate ListedAt(causes: seq<TransitiveCause>, cause: Id, depth: nat) {
    exists i :: 0 <= i < |causes| && causes[i].checkId == cause && causes[i].depth == depth
  }

  /** Walks of at most `DEPTH_LIMIT` links can be walked the other way. */
  lemma HasWalkBack(q: Query, id: Id, size: nat)
    requires WellFormed(q.links) && q.start in q.active && size <= DEPTH_LIMIT
    requires HasWalk(q, id, size)
    ensures HasWalk(Opposite(q, id), q.start, size)
  {
    var nodes: seq<Id> :| |nodes| == size && IsWalkTo(q, id, nodes);
    WalksReverse(q, nodes);
    assert IsWalkTo(Opposite(q, id), q.start, Backwards(q.start, nodes));
  }

  lemma BothWays(links: seq<Link>, active: set<Id>, cause: Id, effect: Id, size: nat)
    requires WellFormed(links) && cause in active && effect in active && size <= DEPTH_LIMIT
    ensures HasWalk(Query(ToCauses, links, active, effect), cause, size)
       <==> HasWalk(Query(ToEffects, links, active, cause), effect, size)
  {
    if HasWalk(Query(ToCauses, links, active, effect), cause, size) {
      HasWalkBack(Query(ToCauses, links, active, effect), cause, size);
    }
    if HasWalk(Query(ToEffects, links, active, cause), effect, size) {
      HasWalkBack(Query(ToEffects, links, active, cause), effect, size);
    }
  }

  lemma WalkIsRecorded(q: Query, walks: seq<seq<Id>>, id: Id, nodes: seq<Id>) returns (j: nat)
    requires ShortestWalks(q, walks) && IsWalkTo(q, id, nodes)
    ensures j < |walks| && walks[j] != [] && Last(walks[j]) == id && |walks[j]| <= |nodes|
  {
    assert Recorded(walks, Last(nodes), |nodes|);
    j :| 0 <= j < |walks| && walks[j] != [] && Last(walks[j]) == Last(nodes) && |walks[j]| <= |nodes|;
  }

  lemma NoShorterWalk(q: Query, walks: seq<seq<Id>>, i: nat, id: Id, size: nat)
    requires ShortestWalks(q, walks) && i < |walks| && walks[i] != [] && Last(walks[i]) == id
    requires HasWalk(q, id, size)
    ensures |walks[i]| <= size
  {
    var nodes: seq<Id> :| |nodes| == size && IsWalkTo(q, id, nodes);
    var j := WalkIsRecorded(q, walks, id, nodes);
    OneWalkPerCheck(q, walks, i, j);
  }

  lemma OneWalkPerCheck(q: Query, walks: seq<seq<Id>>, i: nat, j: nat)
    requires ShortestWalks(q, walks) && i < |walks| && j < |walks| && walks[i] != [] && walks[j] != []
    requires Last(walks[i]) == Last(walks[j])
    ensures i == j
  {
  }

  lemma RecordedAtDistance(q: Query, walks: seq<seq<Id>>, i: nat, id: Id)
    requires ShortestWalks(q, walks) && i < |walks| && walks[i] != [] && Last(walks[i]) == id
    ensures IsDistance(q, id, |walks[i]|)
  {
    assert IsWalkTo(q, id, walks[i]);
    forall n: nat | n < |walks[i]| ensures !HasWalk(q, id, n) {
      if HasWalk(q, id, n) {
        NoShorterWalk(q, walks, i, id, n);
      }
    }
  }

  /** A listed cause is as deep as its shortest walk is long. */
  lemma ListedAtDistance(
    links: seq<Link>, active: set<Id>, observations: Observations, effect: Id, causes: seq<TransitiveCause>, i: nat)
    requires CorrectCauses(links, active, observations, effect, causes) && i < |causes|
    ensures causes[i].depth <= DEPTH_LIMIT
    ensures IsDistance(Query(ToCauses, links, active, effect), causes[i].checkId, causes[i].depth)
  {
    assert CorrectCause(links, observations, effect, causes[i]);
    RecordedAtDistance(Query(ToCauses, links, active, effect), PathsOf(causes), i, causes[i].checkId);
  }

  /** A check within reach of a backward walk is listed. */
  lemma ReachedIsListed(
    links: seq<Link>, active: set<Id>, observations: Observations, effect: Id, causes: seq<TransitiveCause>,
    cause: Id, size: nat)
    returns (i: nat)
    requires CorrectCauses(links, active, observations, effect, causes)
    requires HasWalk(Query(ToCauses, links, active, effect), cause, size)
    ensures i < |causes| && causes[i].checkId == cause
  {
    var q := Query(ToCauses, links, active, effect);
    var nodes: seq<Id> :| |nodes| == size && IsWalkTo(q, cause, nodes);
    i := WalkIsRecorded(q, PathsOf(causes), cause, nodes);
    assert CorrectCause(links, observations, effect, causes[i]);
  }

  lemma DistanceIsUnique(q: Query, id: Id, a: nat, b: nat)
    requires IsDistance(q, id, a) && IsDistance(q, id, b)
    ensures a == b
  {
  }

  lemma DistanceBothWays(links: seq<Link>, active: set<Id>, cause: Id, effect: Id, distance: nat)
    requires WellFormed(links) && cause in active && effect in active && distance <= DEPTH_LIMIT
    ensures IsDistance(Query(ToCauses, links, active, effect), cause, distance)
       <==> IsDistance(Query(ToEffects, links, active, cause), effect, distance)
  {
    forall n: nat | n <= distance
      ensures HasWalk(Query(ToCauses, links, active, effect), cause, n)
         <==> HasWalk(Query(ToEffects, links, active, cause), effect, n)
    {
      BothWays(links, active, cause, effect, n);
    }
  }

  /**
   * The two lists are dual: among active checks, `cause` is listed among the
   * causes of `effect` at some depth exactly when `effect` is listed among the
   * effects of `cause` and that depth, at most four, is the length of the shortest
   * walk to it.
   */
  lemma CausesAndEffectsAreDual(
    links: seq<Link>, active: set<Id>, observations: Observations, cause: Id, effect: Id,
    causes: seq<TransitiveCause>, effects: seq<Id>, depth: nat)
    requires WellFormed(links) && cause in active && effect in active
    requires CorrectCauses(links, active, observations, effect, causes)
    requires CorrectEffects(links, active, cause, effects)
    ensures ListedAt(causes, cause, depth) <==>
            effect in effects && depth <= 4 && IsDistance(Query(ToEffects, links, active, cause), effect, depth)
  {
    var backward, forward := Query(ToCauses, links, active, effect), Query(ToEffects, links, active, cause);
    if ListedAt(causes, cause, depth) {
      var i :| 0 <= i < |causes| && causes[i].checkId == cause && causes[i].depth == depth;
      ListedAtDistance(links, active, observations, effect, causes, i);
      DistanceBothWays(links, active, cause, effect, depth);
      WalkIsEffect(links, active, cause, effect, depth);
    }
    if depth <= 4 && IsDistance(forward, effect, depth) {
      DistanceBothWays(links, active, cause, effect, depth);
      var i := ReachedIsListed(links, active, observations, effect, causes, cause, depth);
      ListedAtDistance(links, active, observations, effect, causes, i);
      DistanceIsUnique(backward, cause, causes[i].depth, depth);
    }
  }

  lemma WalkIsEffect(links: seq<Link>, active: set<Id>, cause: Id, effect: Id, size: nat)
    requires HasWalk(Query(ToEffects, links, active, cause), effect, size)
    ensures IsEffect(links, active, cause, effect)
  {
    var q := Query(ToEffects, links, active, cause);
    var nodes: seq<Id> :| |nodes| == size && IsWalkTo(q, effect, nodes);
  }
}
