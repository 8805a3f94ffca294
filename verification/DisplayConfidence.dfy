/** The confidence shown for a check: the strongest calibrated link from an active cause. */
module DisplayConfidence {
  import opened Wrappers
  import opened CausalGraph
  import opened CausalSearch
  import opened CausalWalks
  import opened TransitiveCauses

  predicate FromActiveCause(active: set<Id>, checkId: Id, link: Link) {
    link.effect == checkId && link.cause in active
  }

  function LinkCalibrated(observations: Observations, link: Link): Confidence {
    Calibrated(observations, link.cause, link.effect, link.confidence)
  }

  /** Nothing without a link from an active cause, otherwise the strongest such link. */
  ghost predicate Strongest(
    links: seq<Link>, active: set<Id>, observations: Observations, checkId: Id, shown: Option<Confidence>)
  {
    match shown
    case None => forall i | 0 <= i < |links| :: !FromActiveCause(active, checkId, links[i])
    case Some(c) =>
      && (exists i :: 0 <= i < |links| && FromActiveCause(active, checkId, links[i])
                      && c == LinkCalibrated(observations, links[i]))
      && (forall i | 0 <= i < |links| && FromActiveCause(active, checkId, links[i]) ::
            AtMost(LinkCalibrated(observations, links[i]), c))
  }

  lemma StrongestSkips(
    links: seq<Link>, active: set<Id>, observations: Observations, checkId: Id, shown: Option<Confidence>, link: Link)
    requires Strongest(links, active, observations, checkId, shown) && !FromActiveCause(active, checkId, link)
    ensures Strongest(links + [link], active, observations, checkId, shown)
  {
    hide LinkCalibrated;
    if shown.Some? {
      var i :| 0 <= i < |links| && FromActiveCause(active, checkId, links[i])
               && shown.value == LinkCalibrated(observations, links[i]);
      assert (links + [link])[i] == links[i];
    }
  }

  function Stronger(shown: Option<Confidence>, calibrated: Confidence): Option<Confidence> {
    if shown.None? || ConfidenceAsNumber(calibrated) > ConfidenceAsNumber(shown.value) then Some(calibrated) else shown
  }

  lemma StrongestTakes(
    links: seq<Link>, active: set<Id>, observations: Observations, checkId: Id, shown: Option<Confidence>, link: Link)
    requires Strongest(links, active, observations, checkId, shown) && FromActiveCause(active, checkId, link)
    ensures Strongest(links + [link], active, observations, checkId, Stronger(shown, LinkCalibrated(observations, link)))
  {
    hide LinkCalibrated;
    var longer := links + [link];
    assert longer[|links|] == link;
    if shown.Some? {
      var i :| 0 <= i < |links| && FromActiveCause(active, checkId, links[i])
               && shown.value == LinkCalibrated(observations, links[i]);
      assert longer[i] == links[i];
    }
  }

  method ComputeDisplayConfidence(links: seq<Link>, active: set<Id>, observations: Observations, checkId: Id)
    returns (shown: Option<Confidence>)
    ensures Strongest(links, active, observations, checkId, shown)
  {
    hide Strongest;
    NothingShown(active, observations, checkId);
    shown := None;
    for k := 0 to |links|
      invariant Strongest(links[..k], active, observations, checkId, shown)
    {
      assert links[..k + 1] == links[..k] + [links[k]];
      if FromActiveCause(active, checkId, links[k]) {
        StrongestTakes(links[..k], active, observations, checkId, shown, links[k]);
        var observation := ObservationOf(observations, links[k].cause, checkId);
        var calibrated := DynamicConfidence(links[k].confidence, observation.resolved, observation.active);
        if shown.None? || ConfidenceAsNumber(calibrated) > ConfidenceAsNumber(shown.value) {
          shown := Some(calibrated);
        }
      } else {
        StrongestSkips(links[..k], active, observations, checkId, shown, links[k]);
      }
    }
    assert links[..|links|] == links;
  }

  lemma NothingShown(active: set<Id>, observations: Observations, checkId: Id)
    ensures Strongest([], active, observations, checkId, None)
  {
  }

  /** The first hop of a walk of causes is a link from an active cause. */
  lemma WalkStartsWithCause(links: seq<Link>, active: set<Id>, checkId: Id, nodes: seq<Id>)
    requires nodes != [] && Walk(Query(ToCauses, links, active, checkId), nodes)
    ensures exists i :: 0 <= i < |links| && FromActiveCause(active, checkId, links[i])
  {
    var q := Query(ToCauses, links, active, checkId);
    StepOfWalk(q, nodes, 0);
    var i :| 0 <= i < |links| && q.From(links[i]) == checkId && q.To(links[i]) == nodes[0];
    assert FromActiveCause(active, checkId, links[i]);
  }

  /** A link from an active cause is a walk by itself. */
  lemma CauseIsWalk(links: seq<Link>, active: set<Id>, checkId: Id, i: nat)
    requires i < |links| && FromActiveCause(active, checkId, links[i])
    ensures Walk(Query(ToCauses, links, active, checkId), [links[i].cause])
  {
    var q := Query(ToCauses, links, active, checkId);
    assert q.From(links[i]) == checkId && q.To(links[i]) == links[i].cause;
  }

  lemma WalkMeansCauses(q: Query, walks: seq<seq<Id>>, nodes: seq<Id>)
    requires ShortestWalks(q, walks) && nodes != [] && Walk(q, nodes)
    ensures walks != []
  {
    assert Recorded(walks, Last(nodes), |nodes|);
  }

  /** A confidence is shown exactly for the checks that have a transitive cause. */
  lemma ShownIffCaused(
    links: seq<Link>, active: set<Id>, observations: Observations, checkId: Id,
    shown: Option<Confidence>, causes: seq<TransitiveCause>)
    requires Strongest(links, active, observations, checkId, shown)
    requires CorrectCauses(links, active, observations, checkId, causes)
    ensures shown == None <==> causes == []
  {
    hide Walk, WeakestHop, LinkCalibrated;
    var q, paths := Query(ToCauses, links, active, checkId), PathsOf(causes);
    if causes != [] {
      assert paths[0] != [] && Walk(q, paths[0]);
      WalkStartsWithCause(links, active, checkId, paths[0]);
    }
    if shown.Some? {
      var i :| 0 <= i < |links| && FromActiveCause(active, checkId, links[i]);
      CauseIsWalk(links, active, checkId, i);
      WalkMeansCauses(q, paths, [links[i].cause]);
    }
  }

  /** More joint resolutions never lower the confidence shown. */
  lemma MoreResolvedKeepsShown(
    links: seq<Link>, active: set<Id>, before: Observations, after: Observations, checkId: Id,
    shown: Option<Confidence>, shown': Option<Confidence>)
    requires MoreResolved(before, after)
    requires Strongest(links, active, before, checkId, shown) && Strongest(links, active, after, checkId, shown')
    ensures shown.None? <==> shown'.None?
    ensures shown.Some? ==> AtMost(shown.value, shown'.value)
  {
    if shown.Some? {
      var i :| 0 <= i < |links| && FromActiveCause(active, checkId, links[i])
               && shown.value == LinkCalibrated(before, links[i]);
      CalibrationIsMonotone(before, after, links[i].cause, links[i].effect, links[i].confidence);
    }
  }
}
