/** What else would resolve if some checks were resolved: one step along the causal links. */
module WhatIf {
  import opened Wrappers
  import opened CausalGraph

  /** A link from a resolved check to an active effect, with its calibrated confidence. */
  datatype Hit = Hit(effect: Id, cause: Id, confidence: Confidence)

  datatype Resolution = Resolution(checkId: Id, confidence: Confidence, via: seq<Id>)

  /** The hits of one resolved check among the first `k` links. */
  function HitsOf(links: seq<Link>, active: set<Id>, observations: Observations, resolved: Id, k: nat): seq<Hit>
    requires k <= |links|
  {
    if k == 0 then []
    else
      var link := links[k - 1];
      HitsOf(links, active, observations, resolved, k - 1)
      + if link.cause == resolved && link.effect in active
        then [Hit(link.effect, resolved, Calibrated(observations, resolved, link.effect, link.confidence))]
        else []
  }

  /** The hits of the first `n` resolved checks, in the order they are met. */
  function AllHits(links: seq<Link>, active: set<Id>, observations: Observations, resolved: seq<Id>, n: nat): seq<Hit>
    requires n <= |resolved|
  {
    if n == 0 then []
    else AllHits(links, active, observations, resolved, n - 1)
         + HitsOf(links, active, observations, resolved[n - 1], |links|)
  }

  /** The effects hit, in the order of their first hit. */
  function Order(hits: seq<Hit>): seq<Id> {
    if hits == [] then []
    else
      var before, last := Order(hits[..|hits| - 1]), hits[|hits| - 1].effect;
      if last in before then before else before + [last]
  }

  /** The resolved checks behind an effect, one for each hit. */
  function Via(hits: seq<Hit>, id: Id): seq<Id> {
    if hits == [] then []
    else
      var last := hits[|hits| - 1];
      Via(hits[..|hits| - 1], id) + if last.effect == id then [last.cause] else []
  }

  function Best(hits: seq<Hit>, id: Id): Option<Confidence> {
    if hits == [] then None
    else
      var before, last := Best(hits[..|hits| - 1], id), hits[|hits| - 1];
      if last.effect != id then before
      else if before.None? || ConfidenceAsNumber(last.confidence) > ConfidenceAsNumber(before.value)
      then Some(last.confidence)
      else before
  }

  /** The best confidence is that of some hit, and no hit on the same effect beats it. */
  lemma {:induction false} BestIsStrongest(hits: seq<Hit>, id: Id)
    ensures Best(hits, id).None? <==> forall i | 0 <= i < |hits| :: hits[i].effect != id
    ensures Best(hits, id).Some? ==>
              && (exists i :: 0 <= i < |hits| && hits[i].effect == id && hits[i].confidence == Best(hits, id).value)
              && (forall i | 0 <= i < |hits| && hits[i].effect == id :: AtMost(hits[i].confidence, Best(hits, id).value))
  {
    if hits != [] {
      var before := hits[..|hits| - 1];
      BestIsStrongest(before, id);
      assert forall i | 0 <= i < |before| :: before[i] == hits[i];
    }
  }

  /** Each effect that was hit is listed once. */
  lemma {:induction false} OrderListsEffects(hits: seq<Hit>)
    ensures forall i, j | 0 <= i < j < |Order(hits)| :: Order(hits)[i] != Order(hits)[j]
    ensures forall id :: id in Order(hits) <==> Best(hits, id).Some?
  {
    if hits != [] {
      OrderListsEffects(hits[..|hits| - 1]);
    }
  }

  /** Effects are listed in the order of their first hits. */
  lemma {:induction false} OrderIsByFirstHit(hits: seq<Hit>, i: nat, j: nat) returns (first: nat)
    requires i < j < |Order(hits)|
    ensures first < |hits| && hits[first].effect == Order(hits)[i]
    ensures forall h | 0 <= h <= first :: hits[h].effect != Order(hits)[j]
  {
    var before := hits[..|hits| - 1];
    if j < |Order(before)| {
      first := OrderIsByFirstHit(before, i, j);
    } else {
      OrderListsEffects(before);
      BestIsStrongest(before, Order(hits)[i]);
      BestIsStrongest(before, Order(hits)[j]);
      first :| 0 <= first < |before| && before[first].effect == Order(hits)[i];
    }
  }

  /** The hits are the links from resolved checks to active effects. */
  lemma {:induction false} HitsAreLinks(links: seq<Link>, active: set<Id>, observations: Observations, resolved: Id, k: nat, hit: Hit)
    requires k <= |links|
    ensures hit in HitsOf(links, active, observations, resolved, k) <==>
            exists i :: 0 <= i < k && links[i].cause == resolved && links[i].effect in active
                        && hit == Hit(links[i].effect, resolved, Calibrated(observations, resolved, links[i].effect, links[i].confidence))
  {
    if k > 0 {
      HitsAreLinks(links, active, observations, resolved, k - 1, hit);
    }
  }

  /** The causes listed for an effect are those of its hits. */
  lemma {:induction false} ViaListsCauses(hits: seq<Hit>, id: Id, cause: Id)
    ensures cause in Via(hits, id) <==> exists i :: 0 <= i < |hits| && hits[i].effect == id && hits[i].cause == cause
  {
    if hits != [] {
      var before := hits[..|hits| - 1];
      ViaListsCauses(before, id, cause);
      assert forall i | 0 <= i < |before| :: before[i] == hits[i];
    }
  }

  /** One entry for each effect hit, with the strongest hit and every resolved check behind it. */
  ghost predicate Aggregates(hits: seq<Hit>, results: seq<Resolution>) {
    && |results| == |Order(hits)|
    && forall i | 0 <= i < |results| ::
         && results[i].checkId == Order(hits)[i]
         && Best(hits, results[i].checkId) == Some(results[i].confidence)
         && results[i].via == Via(hits, results[i].checkId)
  }

  /** The map under construction holds, for each effect hit so far, its best confidence and its causes. */
  ghost predicate Holds(hits: seq<Hit>, effects: map<Id, (Confidence, seq<Id>)>) {
    && (forall id :: id in effects <==> Best(hits, id).Some?)
    && (forall id | id in effects :: effects[id] == (Best(hits, id).value, Via(hits, id)))
  }

  method Record(ghost hits: seq<Hit>, hit: Hit, order: seq<Id>, effects: map<Id, (Confidence, seq<Id>)>)
    returns (order': seq<Id>, effects': map<Id, (Confidence, seq<Id>)>)
    requires order == Order(hits) && Holds(hits, effects)
    ensures order' == Order(hits + [hit]) && Holds(hits + [hit], effects')
  {
    hide Best, Via, Order;
    OrderListsEffects(hits);
    forall id {
      HitAppended(hits, hit, id);
    }
    order', effects' := order, effects;
    if hit.effect !in effects {
      NoHitNoVia(hits, hit.effect);
      assert Via(hits + [hit], hit.effect) == [hit.cause];
      order' := order + [hit.effect];
      effects' := effects[hit.effect := (hit.confidence, [hit.cause])];
    } else if ConfidenceAsNumber(hit.confidence) > ConfidenceAsNumber(effects[hit.effect].0) {
      effects' := effects[hit.effect := (hit.confidence, effects[hit.effect].1 + [hit.cause])];
    } else {
      effects' := effects[hit.effect := (effects[hit.effect].0, effects[hit.effect].1 + [hit.cause])];
    }
  }

  lemma HitAppended(hits: seq<Hit>, hit: Hit, id: Id)
    ensures Via(hits + [hit], id) == if hit.effect == id then Via(hits, id) + [hit.cause] else Via(hits, id)
    ensures Best(hits + [hit], id)
         == if hit.effect != id then Best(hits, id)
            else if Best(hits, id).None? || ConfidenceAsNumber(hit.confidence) > ConfidenceAsNumber(Best(hits, id).value)
            then Some(hit.confidence)
            else Best(hits, id)
    ensures Order(hits + [hit]) == if hit.effect in Order(hits) then Order(hits) else Order(hits) + [hit.effect]
  {
    assert (hits + [hit])[..|hits|] == hits;
  }

  lemma {:induction false} NoHitNoVia(hits: seq<Hit>, id: Id)
    requires Best(hits, id).None?
    ensures Via(hits, id) == []
  {
    if hits != [] {
      NoHitNoVia(hits[..|hits| - 1], id);
    }
  }

  /** The inner loop: every link from one resolved check. */
  method FollowLinks(
    links: seq<Link>, active: set<Id>, observations: Observations, resolved: Id, ghost before: seq<Hit>,
    order: seq<Id>, effects: map<Id, (Confidence, seq<Id>)>)
    returns (order': seq<Id>, effects': map<Id, (Confidence, seq<Id>)>)
    requires order == Order(before) && Holds(before, effects)
    ensures var hits := before + HitsOf(links, active, observations, resolved, |links|);
            order' == Order(hits) && Holds(hits, effects')
  {
    hide Order, Holds, DynamicConfidence;
    order', effects' := order, effects;
    ghost var hits := before;
    for k := 0 to |links|
      invariant hits == before + HitsOf(links, active, observations, resolved, k)
      invariant order' == Order(hits) && Holds(hits, effects')
    {
      var link := links[k];
      if link.cause == resolved && link.effect in active {
        var observation := ObservationOf(observations, resolved, link.effect);
        var calibrated := DynamicConfidence(link.confidence, observation.resolved, observation.active);
        var hit := Hit(link.effect, resolved, calibrated);
        order', effects' := Record(hits, hit, order', effects');
        hits := hits + [hit];
      }
    }
  }

  method WhatIfResolve(links: seq<Link>, active: set<Id>, observations: Observations, resolved: seq<Id>)
    returns (alsoResolves: seq<Resolution>)
    ensures Aggregates(AllHits(links, active, observations, resolved, |resolved|), alsoResolves)
  {
    var order: seq<Id>, effects: map<Id, (Confidence, seq<Id>)> := [], map[];
    ghost var hits := [];
    for n := 0 to |resolved|
      invariant hits == AllHits(links, active, observations, resolved, n)
      invariant order == Order(hits) && Holds(hits, effects)
    {
      order, effects := FollowLinks(links, active, observations, resolved[n], hits, order, effects);
      hits := hits + HitsOf(links, active, observations, resolved[n], |links|);
    }
    OrderListsEffects(hits);
    alsoResolves := seq(|order|, i requires 0 <= i < |order| && order[i] in effects =>
                                   Resolution(order[i], effects[order[i]].0, effects[order[i]].1));
  }

  // ---------- two runs ----------

  ghost predicate SameButStronger(hits: seq<Hit>, hits': seq<Hit>) {
    && |hits| == |hits'|
    && forall i | 0 <= i < |hits| ::
         && hits'[i].effect == hits[i].effect && hits'[i].cause == hits[i].cause
         && AtMost(hits[i].confidence, hits'[i].confidence)
  }

  lemma {:induction false} StrongerHits(
    links: seq<Link>, active: set<Id>, before: Observations, after: Observations, resolved: seq<Id>, n: nat)
    requires MoreResolved(before, after) && n <= |resolved|
    ensures SameButStronger(AllHits(links, active, before, resolved, n), AllHits(links, active, after, resolved, n))
  {
    if n > 0 {
      StrongerHits(links, active, before, after, resolved, n - 1);
      StrongerHitsOf(links, active, before, after, resolved[n - 1], |links|);
      StrongerConcat(
        AllHits(links, active, before, resolved, n - 1), AllHits(links, active, after, resolved, n - 1),
        HitsOf(links, active, before, resolved[n - 1], |links|), HitsOf(links, active, after, resolved[n - 1], |links|));
    }
  }

  lemma StrongerConcat(a: seq<Hit>, a': seq<Hit>, b: seq<Hit>, b': seq<Hit>)
    requires SameButStronger(a, a') && SameButStronger(b, b')
    ensures SameButStronger(a + b, a' + b')
  {
  }

  lemma {:induction false} StrongerHitsOf(
    links: seq<Link>, active: set<Id>, before: Observations, after: Observations, resolved: Id, k: nat)
    requires MoreResolved(before, after) && k <= |links|
    ensures SameButStronger(HitsOf(links, active, before, resolved, k), HitsOf(links, active, after, resolved, k))
  {
    if k > 0 {
      StrongerHitsOf(links, active, before, after, resolved, k - 1);
      CalibrationIsMonotone(before, after, resolved, links[k - 1].effect, links[k - 1].confidence);
      var last := HitsOf(links, active, before, resolved, k)[|HitsOf(links, active, before, resolved, k - 1)|..];
      var last' := HitsOf(links, active, after, resolved, k)[|HitsOf(links, active, after, resolved, k - 1)|..];
      StrongerConcat(
        HitsOf(links, active, before, resolved, k - 1), HitsOf(links, active, after, resolved, k - 1), last, last');
    }
  }

  lemma {:induction false} StrongerAggregates(hits: seq<Hit>, hits': seq<Hit>, id: Id)
    requires SameButStronger(hits, hits')
    ensures Order(hits') == Order(hits) && Via(hits', id) == Via(hits, id)
    ensures Best(hits, id).None? <==> Best(hits', id).None?
    ensures Best(hits, id).Some? ==> AtMost(Best(hits, id).value, Best(hits', id).value)
  {
    if hits != [] {
      StrongerAggregates(hits[..|hits| - 1], hits'[..|hits| - 1], id);
    }
  }

  /** More joint resolutions keep every prediction, its order and its causes, and never lower its confidence. */
  lemma MoreResolvedKeepsPredictions(
    links: seq<Link>, active: set<Id>, before: Observations, after: Observations, resolved: seq<Id>,
    results: seq<Resolution>, results': seq<Resolution>)
    requires MoreResolved(before, after)
    requires Aggregates(AllHits(links, active, before, resolved, |resolved|), results)
    requires Aggregates(AllHits(links, active, after, resolved, |resolved|), results')
    ensures |results| == |results'|
    ensures forall i | 0 <= i < |results| ::
              && results'[i] == results[i].(confidence := results'[i].confidence)
              && AtMost(results[i].confidence, results'[i].confidence)
  {
    StrongerHits(links, active, before, after, resolved, |resolved|);
    var hits := AllHits(links, active, before, resolved, |resolved|);
    var hits' := AllHits(links, active, after, resolved, |resolved|);
    forall id ensures Order(hits') == Order(hits) && Via(hits', id) == Via(hits, id)
      ensures Best(hits, id).Some? && Best(hits', id).Some? ==> AtMost(Best(hits, id).value, Best(hits', id).value)
    {
      StrongerAggregates(hits, hits', id);
    }
    StrongerAggregates(hits, hits', Id(""));
  }
}
