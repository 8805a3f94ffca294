/** What the causal answers say link by link: walks and confidences told from the links and the stored counts. */
module CausalAnswers {
  import opened Wrappers
  import opened CausalGraph
  import opened CausalSearch
  import opened CausalWalks
  import opened TransitiveCauses
  import opened DownstreamEffects
  import opened DisplayConfidence

  // ---------- walks ----------

  /** Some link has this cause and this effect. */
  ghost predicate Linked(links: seq<Link>, cause: Id, effect: Id) {
    exists k :: 0 <= k < |links| && links[k].cause == cause && links[k].effect == effect
  }

  /** From the check each step goes from an effect to an active cause of it. */
  ghost predicate IsCausePath(links: seq<Link>, active: set<Id>, checkId: Id, path: seq<Id>) {
    forall i | 0 <= i < |path| :: path[i] in active && Linked(links, path[i], Previous(checkId, path, i))
  }

  /** From the check each step goes from a named cause to an active effect of it. */
  ghost predicate IsEffectPath(links: seq<Link>, active: set<Id>, checkId: Id, path: seq<Id>) {
    forall i | 0 <= i < |path| ::
      var from := Previous(checkId, path, i);
      path[i] in active && Linked(links, from, path[i]) && from.name != ""
  }

  lemma LeadsIsLinked(q: Query, from: Id, to: Id)
    ensures q.Leads(from, to) <==>
            to in q.active && if q.direction == ToCauses then Linked(q.links, to, from) else Linked(q.links, from, to)
  {
    if q.Leads(from, to) {
      var i :| 0 <= i < |q.links| && q.From(q.links[i]) == from && q.To(q.links[i]) == to;
      assert if q.direction == ToCauses then Linked(q.links, to, from) else Linked(q.links, from, to);
    }
    if to in q.active && q.direction == ToCauses && Linked(q.links, to, from) {
      var k :| 0 <= k < |q.links| && q.links[k].cause == to && q.links[k].effect == from;
      assert q.From(q.links[k]) == from && q.To(q.links[k]) == to;
    }
    if to in q.active && q.direction == ToEffects && Linked(q.links, from, to) {
      var k :| 0 <= k < |q.links| && q.links[k].cause == from && q.links[k].effect == to;
      assert q.From(q.links[k]) == from && q.To(q.links[k]) == to;
    }
  }

  lemma CauseWalks(links: seq<Link>, active: set<Id>, checkId: Id, path: seq<Id>)
    ensures Walk(Query(ToCauses, links, active, checkId), path)
       <==> IsCausePath(links, active, checkId, path) && |path| <= 4
  {
    hide Query.Leads, Linked;
    var q := Query(ToCauses, links, active, checkId);
    forall i | 0 <= i < |path|
      ensures q.Leads(Previous(checkId, path, i), path[i]) <==>
              path[i] in active && Linked(links, path[i], Previous(checkId, path, i))
    {
      LeadsIsLinked(q, Previous(checkId, path, i), path[i]);
    }
    if Walk(q, path) && |path| > 0 {
      StepOfWalk(q, path, |path| - 1);
    }
    if IsCausePath(links, active, checkId, path) && |path| <= 4 {
      forall i | 0 <= i < |path|
        ensures q.Leads(Previous(checkId, path, i), path[i]) && q.MayLeave(Previous(checkId, path, i), i)
      {
        assert path[i] in active;
      }
    }
  }

  lemma EffectWalks(links: seq<Link>, active: set<Id>, checkId: Id, path: seq<Id>)
    ensures Walk(Query(ToEffects, links, active, checkId), path) <==> IsEffectPath(links, active, checkId, path)
  {
    hide Query.Leads, Linked;
    var q := Query(ToEffects, links, active, checkId);
    forall i | 0 <= i < |path|
      ensures q.Leads(Previous(checkId, path, i), path[i]) && q.MayLeave(Previous(checkId, path, i), i) <==>
              path[i] in active && Linked(links, Previous(checkId, path, i), path[i]) && Previous(checkId, path, i).name != ""
    {
      LeadsIsLinked(q, Previous(checkId, path, i), path[i]);
    }
  }

  // ---------- confidences ----------

  /** What a single link says once the counts stored for it are taken into account. */
  function Told(link: Link, observations: Observations): Confidence {
    var key := link.cause.name + "|" + link.effect.name;
    if key in observations
    then DynamicConfidence(link.confidence, observations[key].resolved, observations[key].active)
    else link.confidence
  }

  /** The confidence told by the first link from the cause to the effect. */
  ghost predicate IsHop(links: seq<Link>, observations: Observations, cause: Id, effect: Id, c: Confidence) {
    exists k :: IsFirst(links, cause, effect, k) && c == Told(links[k], observations)
  }

  ghost predicate IsFirst(links: seq<Link>, cause: Id, effect: Id, k: int) {
    && 0 <= k < |links| && links[k].cause == cause && links[k].effect == effect
    && forall j | 0 <= j < k :: !(links[j].cause == cause && links[j].effect == effect)
  }

  lemma {:induction false} FirstExists(links: seq<Link>, cause: Id, effect: Id, n: nat) returns (k: nat)
    requires n < |links| && links[n].cause == cause && links[n].effect == effect
    ensures k <= n && IsFirst(links, cause, effect, k)
  {
    if j :| 0 <= j < n && links[j].cause == cause && links[j].effect == effect {
      k := FirstExists(links, cause, effect, j);
    } else {
      k := n;
    }
  }

  lemma HopIsTold(links: seq<Link>, observations: Observations, cause: Id, effect: Id)
    requires Linked(links, cause, effect)
    ensures IsHop(links, observations, cause, effect, HopConfidence(links, observations, cause, effect))
  {
    var n :| 0 <= n < |links| && links[n].cause == cause && links[n].effect == effect;
    var k := FirstExists(links, cause, effect, n);
    LinkConfidenceIsFirst(links, k);
    CalibratedByCounts(observations, cause, effect, links[k].confidence);
  }

  /** The confidence is that of one step of the path, and no step is less certain. */
  ghost predicate IsWeakest(links: seq<Link>, observations: Observations, checkId: Id, path: seq<Id>, c: Confidence) {
    && (exists i :: 0 <= i < |path| && IsHop(links, observations, path[i], Previous(checkId, path, i), c))
    && forall i, d | 0 <= i < |path| && IsHop(links, observations, path[i], Previous(checkId, path, i), d) ::
         AtMost(c, d)
  }

  lemma HopIsUnique(links: seq<Link>, observations: Observations, cause: Id, effect: Id, c: Confidence, d: Confidence)
    requires IsHop(links, observations, cause, effect, c) && IsHop(links, observations, cause, effect, d)
    ensures c == d
  {
    var k :| IsFirst(links, cause, effect, k) && c == Told(links[k], observations);
    var n :| IsFirst(links, cause, effect, n) && d == Told(links[n], observations);
    assert k == n;
  }

  lemma WeakestIsTold(links: seq<Link>, active: set<Id>, observations: Observations, checkId: Id, path: seq<Id>, c: Confidence)
    requires IsCausePath(links, active, checkId, path) && WeakestHop(links, observations, checkId, path, c)
    ensures IsWeakest(links, observations, checkId, path, c)
  {
    hide IsHop, HopConfidence, Linked;
    forall i | 0 <= i < |path|
      ensures IsHop(links, observations, path[i], Previous(checkId, path, i),
                    Hop(links, observations, checkId, path, i))
    {
      HopIsTold(links, observations, path[i], Previous(checkId, path, i));
    }
    forall i, d | 0 <= i < |path| && IsHop(links, observations, path[i], Previous(checkId, path, i), d)
      ensures AtMost(c, d)
    {
      HopIsUnique(links, observations, path[i], Previous(checkId, path, i),
                  d, Hop(links, observations, checkId, path, i));
    }
    var i :| 0 <= i < |path| && c == Hop(links, observations, checkId, path, i);
  }

  /** A correct list of causes, told from the links: every entry is a path of one to four links back from the check. */
  lemma ListedCausesAreTold(
    links: seq<Link>, active: set<Id>, observations: Observations, checkId: Id, causes: seq<TransitiveCause>, i: nat)
    requires CorrectCauses(links, active, observations, checkId, causes) && i < |causes|
    ensures var cause := causes[i];
            && 1 <= |cause.path| <= 4 && cause.depth == |cause.path| && cause.checkId == cause.path[|cause.path| - 1]
            && IsCausePath(links, active, checkId, cause.path)
            && IsWeakest(links, observations, checkId, cause.path, cause.confidence)
  {
    hide Walk, IsCausePath, WeakestHop, IsWeakest;
    var cause := causes[i];
    assert CorrectCause(links, observations, checkId, cause) && PathsOf(causes)[i] == cause.path;
    CauseWalks(links, active, checkId, cause.path);
    WeakestIsTold(links, active, observations, checkId, cause.path, cause.confidence);
  }

  /** And every such path leads to an entry that is no deeper than the path is long. */
  lemma ToldCausesAreListed(
    links: seq<Link>, active: set<Id>, observations: Observations, checkId: Id, causes: seq<TransitiveCause>, path: seq<Id>)
    requires CorrectCauses(links, active, observations, checkId, causes)
    requires 1 <= |path| <= 4 && IsCausePath(links, active, checkId, path)
    ensures exists i :: 0 <= i < |causes| && causes[i].checkId == path[|path| - 1] && causes[i].depth <= |path|
  {
    hide Walk, IsCausePath, WeakestHop;
    CauseWalks(links, active, checkId, path);
    assert Recorded(PathsOf(causes), Last(path), |path|);
    var i :| 0 <= i < |causes| && PathsOf(causes)[i] != []
             && Last(PathsOf(causes)[i]) == Last(path) && |PathsOf(causes)[i]| <= |path|;
    assert CorrectCause(links, observations, checkId, causes[i]);
  }

  /** A correct list of effects holds exactly the ends of the forward paths. */
  lemma EffectsAreTold(links: seq<Link>, active: set<Id>, checkId: Id, effects: seq<Id>, id: Id)
    requires CorrectEffects(links, active, checkId, effects)
    ensures id in effects <==>
            exists path: seq<Id> :: path != [] && path[|path| - 1] == id && IsEffectPath(links, active, checkId, path)
  {
    hide Walk, IsEffectPath;
    if id in effects {
      var path: seq<Id> :| IsWalkTo(Query(ToEffects, links, active, checkId), id, path);
      EffectWalks(links, active, checkId, path);
    }
    if path: seq<Id> :| path != [] && path[|path| - 1] == id && IsEffectPath(links, active, checkId, path) {
      EffectWalks(links, active, checkId, path);
      assert IsWalkTo(Query(ToEffects, links, active, checkId), id, path);
    }
  }

  // ---------- one link ----------

  /** With one link from an active cause the effect has that cause, one step away, with the calibrated confidence. */
  lemma OneLinkCause(link: Link, active: set<Id>, observations: Observations, causes: seq<TransitiveCause>)
    requires link.cause in active && CorrectCauses([link], active, observations, link.effect, causes)
    ensures causes == [TransitiveCause(link.cause, [link.cause], Told(link, observations), 1)]
  {
    hide CorrectCauses, Told;
    var path := [link.cause];
    OneLinkPath(link, active, path);
    ToldCausesAreListed([link], active, observations, link.effect, causes, path);
    forall i | 0 <= i < |causes|
      ensures causes[i] == TransitiveCause(link.cause, [link.cause], Told(link, observations), 1)
    {
      ListedCausesAreTold([link], active, observations, link.effect, causes, i);
      OneLinkEntry(link, active, observations, causes, i);
    }
    ListedOnce([link], active, observations, link.effect, causes);
    assert |causes| > 1 ==> causes[0].checkId != causes[|causes| - 1].checkId;
    assert causes[0].checkId == causes[|causes| - 1].checkId;
  }

  lemma ListedOnce(
    links: seq<Link>, active: set<Id>, observations: Observations, checkId: Id, causes: seq<TransitiveCause>)
    requires CorrectCauses(links, active, observations, checkId, causes)
    ensures forall i, j | 0 <= i < j < |causes| :: causes[i].checkId != causes[j].checkId
  {
    forall i, j | 0 <= i < j < |causes| ensures causes[i].checkId != causes[j].checkId {
      var paths := PathsOf(causes);
      assert CorrectCause(links, observations, checkId, causes[i]);
      assert CorrectCause(links, observations, checkId, causes[j]);
      assert Last(paths[i]) != Last(paths[j]);
    }
  }

  lemma OneLinkPath(link: Link, active: set<Id>, path: seq<Id>)
    ensures path == [link.cause] && link.cause in active ==> IsCausePath([link], active, link.effect, path)
    ensures IsCausePath([link], active, link.effect, path) ==> forall i | 0 <= i < |path| :: path[i] == link.cause
  {
    if path == [link.cause] {
      assert [link][0] == link;
    }
  }

  lemma OneLinkHop(link: Link, observations: Observations, c: Confidence)
    requires IsHop([link], observations, link.cause, link.effect, c)
    ensures c == Told(link, observations)
  {
    hide Told;
    var k :| IsFirst([link], link.cause, link.effect, k) && c == Told([link][k], observations);
  }

  lemma OneLinkEntry(link: Link, active: set<Id>, observations: Observations, causes: seq<TransitiveCause>, i: nat)
    requires link.cause in active && CorrectCauses([link], active, observations, link.effect, causes) && i < |causes|
    ensures causes[i] == TransitiveCause(link.cause, [link.cause], Told(link, observations), 1)
  {
    var cause := causes[i];
    ListedCausesAreTold([link], active, observations, link.effect, causes, i);
    OneLinkPath(link, active, cause.path);
    OneLinkPath(link, active, [link.cause]);
    ToldCausesAreListed([link], active, observations, link.effect, causes, [link.cause]);
    var j :| 0 <= j < |causes| && causes[j].checkId == link.cause && causes[j].depth <= 1;
    ListedOnce([link], active, observations, link.effect, causes);
    assert i == j && cause.path == [link.cause];
    var k :| 0 <= k < |cause.path|
             && IsHop([link], observations, cause.path[k], Previous(link.effect, cause.path, k), cause.confidence);
    OneLinkHop(link, observations, cause.confidence);
  }

  /** And that confidence is shown for the effect. */
  lemma OneLinkShown(link: Link, active: set<Id>, observations: Observations, shown: Option<Confidence>)
    requires link.cause in active && Strongest([link], active, observations, link.effect, shown)
    ensures shown == Some(Told(link, observations))
  {
    CalibratedByCounts(observations, link.cause, link.effect, link.confidence);
    assert FromActiveCause(active, link.effect, [link][0]);
  }

  lemma LinkIsTold(observations: Observations, link: Link)
    ensures LinkCalibrated(observations, link) == Told(link, observations)
  {
    CalibratedByCounts(observations, link.cause, link.effect, link.confidence);
  }

  /** What is shown is the strongest of the links from active causes, each calibrated by its own counts. */
  lemma ShownIsTold(
    links: seq<Link>, active: set<Id>, observations: Observations, checkId: Id, shown: Option<Confidence>)
    requires Strongest(links, active, observations, checkId, shown)
    ensures forall k | 0 <= k < |links| && links[k].effect == checkId && links[k].cause in active ::
              shown.Some? && AtMost(Told(links[k], observations), shown.value)
    ensures shown.Some? ==>
              exists k :: 0 <= k < |links| && links[k].effect == checkId && links[k].cause in active
                          && shown.value == Told(links[k], observations)
  {
    hide Told, LinkCalibrated;
    forall k | 0 <= k < |links| ensures LinkCalibrated(observations, links[k]) == Told(links[k], observations) {
      LinkIsTold(observations, links[k]);
    }
    forall k | 0 <= k < |links| && links[k].effect == checkId && links[k].cause in active
      ensures shown.Some? && AtMost(Told(links[k], observations), shown.value)
    {
      assert FromActiveCause(active, checkId, links[k]);
    }
    if shown.Some? {
      var k :| 0 <= k < |links| && FromActiveCause(active, checkId, links[k])
               && shown.value == LinkCalibrated(observations, links[k]);
    }
  }
}
