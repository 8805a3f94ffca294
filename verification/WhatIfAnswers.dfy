/** What the what-if predictions say link by link. */
module WhatIfAnswers {
  import opened Wrappers
  import opened CausalGraph
  import opened CausalAnswers
  import opened WhatIf

  /** The `k`th link leads from the resolved check to this effect, which is active. */
  ghost predicate Resolves(links: seq<Link>, active: set<Id>, resolved: Id, effect: Id, k: int) {
    0 <= k < |links| && links[k].cause == resolved && links[k].effect == effect && effect in active
  }

  lemma HitIsTold(links: seq<Link>, active: set<Id>, observations: Observations, resolved: Id, hit: Hit)
    ensures hit in HitsOf(links, active, observations, resolved, |links|) <==>
            exists k :: Resolves(links, active, resolved, hit.effect, k)
                        && hit.cause == resolved && hit.confidence == Told(links[k], observations)
  {
    HitsAreLinks(links, active, observations, resolved, |links|, hit);
    forall k | 0 <= k < |links| && links[k].cause == resolved
      ensures Calibrated(observations, resolved, links[k].effect, links[k].confidence) == Told(links[k], observations)
    {
      CalibratedByCounts(observations, resolved, links[k].effect, links[k].confidence);
    }
    if hit in HitsOf(links, active, observations, resolved, |links|) {
      var k :| 0 <= k < |links| && links[k].cause == resolved && links[k].effect in active
               && hit == Hit(links[k].effect, resolved, Calibrated(observations, resolved, links[k].effect, links[k].confidence));
      assert Resolves(links, active, resolved, hit.effect, k);
    }
    if k :| Resolves(links, active, resolved, hit.effect, k)
            && hit.cause == resolved && hit.confidence == Told(links[k], observations) {
      assert hit == Hit(links[k].effect, resolved, Calibrated(observations, resolved, links[k].effect, links[k].confidence));
    }
  }

  lemma {:induction false} AllHitsAreTold(
    links: seq<Link>, active: set<Id>, observations: Observations, resolved: seq<Id>, n: nat, hit: Hit)
    requires n <= |resolved|
    ensures hit in AllHits(links, active, observations, resolved, n) <==>
            exists m :: 0 <= m < n && hit in HitsOf(links, active, observations, resolved[m], |links|)
  {
    hide HitsOf;
    if n > 0 {
      AllHitsAreTold(links, active, observations, resolved, n - 1, hit);
    }
  }

  /** The predictions, told from the links: an effect is predicted exactly when some link leads to it from a resolved check. */
  lemma PredictionsAreTold(
    links: seq<Link>, active: set<Id>, observations: Observations, resolved: seq<Id>, results: seq<Resolution>, effect: Id)
    requires Aggregates(AllHits(links, active, observations, resolved, |resolved|), results)
    ensures (exists i :: 0 <= i < |results| && results[i].checkId == effect) <==>
            exists m, k :: 0 <= m < |resolved| && Resolves(links, active, resolved[m], effect, k)
  {
    hide Aggregates, Best, Order, Resolves, Told;
    var hits := AllHits(links, active, observations, resolved, |resolved|);
    PredictedIffHit(hits, results, effect);
    if i :| 0 <= i < |hits| && hits[i].effect == effect {
      AllHitsAreTold(links, active, observations, resolved, |resolved|, hits[i]);
      var m :| 0 <= m < |resolved| && hits[i] in HitsOf(links, active, observations, resolved[m], |links|);
      HitIsTold(links, active, observations, resolved[m], hits[i]);
    }
    if m, k :| 0 <= m < |resolved| && Resolves(links, active, resolved[m], effect, k) {
      ResolvesIsLink(links, active, resolved[m], effect, k);
      var hit := Hit(effect, resolved[m], Told(links[k], observations));
      HitIsTold(links, active, observations, resolved[m], hit);
      AllHitsAreTold(links, active, observations, resolved, |resolved|, hit);
      assert hit in hits;
    }
  }

  lemma ResolvesIsLink(links: seq<Link>, active: set<Id>, resolved: Id, effect: Id, k: int)
    requires Resolves(links, active, resolved, effect, k)
    ensures 0 <= k < |links|
  {
  }

  lemma PredictedIffHit(hits: seq<Hit>, results: seq<Resolution>, effect: Id)
    requires Aggregates(hits, results)
    ensures (exists i :: 0 <= i < |results| && results[i].checkId == effect) <==>
            exists i :: 0 <= i < |hits| && hits[i].effect == effect
  {
    OrderListsEffects(hits);
    BestIsStrongest(hits, effect);
    if effect in Order(hits) {
      var i :| 0 <= i < |Order(hits)| && Order(hits)[i] == effect;
      assert results[i].checkId == effect;
    }
  }

  /** A prediction is as certain as some link from a resolved check to its effect. */
  lemma PredictedConfidenceIsTold(
    links: seq<Link>, active: set<Id>, observations: Observations, resolved: seq<Id>, results: seq<Resolution>, i: nat)
    returns (m: nat, k: nat)
    requires Aggregates(AllHits(links, active, observations, resolved, |resolved|), results) && i < |results|
    ensures m < |resolved| && k < |links| && Resolves(links, active, resolved[m], results[i].checkId, k)
    ensures results[i].confidence == Told(links[k], observations)
  {
    hide Order, Via, Best, Told;
    var hits, effect := AllHits(links, active, observations, resolved, |resolved|), results[i].checkId;
    BestIsStrongest(hits, effect);
    var j :| 0 <= j < |hits| && hits[j].effect == effect && hits[j].confidence == results[i].confidence;
    AllHitsAreTold(links, active, observations, resolved, |resolved|, hits[j]);
    m :| 0 <= m < |resolved| && hits[j] in HitsOf(links, active, observations, resolved[m], |links|);
    HitIsTold(links, active, observations, resolved[m], hits[j]);
    k :| Resolves(links, active, resolved[m], hits[j].effect, k)
         && hits[j].cause == resolved[m] && hits[j].confidence == Told(links[k], observations);
  }

  /** And no such link is more certain. */
  lemma NoLinkIsMoreCertain(
    links: seq<Link>, active: set<Id>, observations: Observations, resolved: seq<Id>, results: seq<Resolution>, i: nat,
    m: nat, k: nat)
    requires Aggregates(AllHits(links, active, observations, resolved, |resolved|), results) && i < |results|
    requires m < |resolved| && k < |links| && Resolves(links, active, resolved[m], results[i].checkId, k)
    ensures AtMost(Told(links[k], observations), results[i].confidence)
  {
    hide Order, Via, Best, Told;
    var hits, effect := AllHits(links, active, observations, resolved, |resolved|), results[i].checkId;
    BestIsStrongest(hits, effect);
    var hit := Hit(effect, resolved[m], Told(links[k], observations));
    HitIsTold(links, active, observations, resolved[m], hit);
    AllHitsAreTold(links, active, observations, resolved, |resolved|, hit);
    var h :| 0 <= h < |hits| && hits[h] == hit;
  }

  /** The checks named for a prediction: each resolved check once for every link from it to the effect, in the order resolved. */
  ghost function Named(links: seq<Link>, active: set<Id>, resolved: seq<Id>, effect: Id): seq<Id> {
    if resolved == [] then []
    else Named(links, active, resolved[..|resolved| - 1], effect)
         + NamedFor(links, active, resolved[|resolved| - 1], effect)
  }

  ghost function NamedFor(links: seq<Link>, active: set<Id>, resolved: Id, effect: Id): seq<Id> {
    if links == [] then []
    else NamedFor(links[..|links| - 1], active, resolved, effect)
         + if links[|links| - 1].cause == resolved && links[|links| - 1].effect == effect && effect in active
           then [resolved] else []
  }

  lemma {:induction false} ViaOfConcat(a: seq<Hit>, b: seq<Hit>, id: Id)
    ensures Via(a + b, id) == Via(a, id) + Via(b, id)
    decreases |b|
  {
    if b == [] {
      assert a + b == a;
    } else {
      assert (a + b)[..|a + b| - 1] == a + b[..|b| - 1];
      ViaOfConcat(a, b[..|b| - 1], id);
    }
  }

  lemma NamedForOneMore(links: seq<Link>, active: set<Id>, resolved: Id, k: nat, effect: Id)
    requires 0 < k <= |links|
    ensures NamedFor(links[..k], active, resolved, effect)
         == NamedFor(links[..k - 1], active, resolved, effect)
            + if links[k - 1].cause == resolved && links[k - 1].effect == effect && effect in active then [resolved] else []
  {
    assert links[..k][..k - 1] == links[..k - 1];
  }

  lemma {:induction false} ViaOfHits(
    links: seq<Link>, active: set<Id>, observations: Observations, resolved: Id, k: nat, effect: Id)
    requires k <= |links|
    ensures Via(HitsOf(links, active, observations, resolved, k), effect) == NamedFor(links[..k], active, resolved, effect)
  {
    hide Calibrated;
    if k > 0 {
      ViaOfHits(links, active, observations, resolved, k - 1, effect);
      NamedForOneMore(links, active, resolved, k, effect);
      var before := HitsOf(links, active, observations, resolved, k - 1);
      var link := links[k - 1];
      if link.cause == resolved && link.effect in active {
        HitAppended(before,
          Hit(link.effect, resolved, Calibrated(observations, resolved, link.effect, link.confidence)), effect);
      } else {
        assert HitsOf(links, active, observations, resolved, k) == before;
      }
    }
  }

  lemma {:induction false} ViaIsNamed(
    links: seq<Link>, active: set<Id>, observations: Observations, resolved: seq<Id>, n: nat, effect: Id)
    requires n <= |resolved|
    ensures Via(AllHits(links, active, observations, resolved, n), effect) == Named(links, active, resolved[..n], effect)
  {
    if n > 0 {
      ViaIsNamed(links, active, observations, resolved, n - 1, effect);
      assert resolved[..n][..n - 1] == resolved[..n - 1];
      ViaOfHits(links, active, observations, resolved[n - 1], |links|, effect);
      assert links[..|links|] == links;
      ViaOfConcat(AllHits(links, active, observations, resolved, n - 1),
                  HitsOf(links, active, observations, resolved[n - 1], |links|), effect);
    }
  }

  /** Each prediction names exactly those checks, in that order. */
  lemma PredictionNamesItsCauses(
    links: seq<Link>, active: set<Id>, observations: Observations, resolved: seq<Id>, results: seq<Resolution>, i: nat)
    requires Aggregates(AllHits(links, active, observations, resolved, |resolved|), results) && i < |results|
    ensures results[i].via == Named(links, active, resolved, results[i].checkId)
  {
    ViaIsNamed(links, active, observations, resolved, |resolved|, results[i].checkId);
    assert resolved[..|resolved|] == resolved;
  }

  /** With one link its effect is predicted, with the calibrated confidence, when the cause is resolved. */
  lemma OneLinkPrediction(link: Link, active: set<Id>, observations: Observations, results: seq<Resolution>)
    requires link.effect in active && Aggregates(AllHits([link], active, observations, [link.cause], 1), results)
    ensures results == [Resolution(link.effect, Told(link, observations), [link.cause])]
  {
    CalibratedByCounts(observations, link.cause, link.effect, link.confidence);
    var hit := Hit(link.effect, link.cause, Told(link, observations));
    assert HitsOf([link], active, observations, link.cause, 0) == [];
    assert HitsOf([link], active, observations, link.cause, 1) == [hit];
    assert AllHits([link], active, observations, [link.cause], 0) == [];
    assert AllHits([link], active, observations, [link.cause], 1) == [hit];
    assert [hit][..0] == [];
    assert Order([]) == [] && Via([], link.effect) == [] && Best([], link.effect) == None;
    assert Order([hit]) == [link.effect] && Via([hit], link.effect) == [link.cause];
    assert Best([hit], link.effect) == Some(Told(link, observations));
  }
}
