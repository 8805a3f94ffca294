/** Which active checks a set of changed files puts at risk, directly or further along the causal links. */
module DeployRisk {
  import opened Texts
  import opened CausalGraph
  import opened CausalSearch
  import opened CausalWalks
  import opened DownstreamEffects

  /** An active check and the paths at which it can be fixed. */
  datatype Group = Group(checkId: Id, fixPaths: seq<string>)

  datatype RiskItem = RiskItem(checkId: Id, matchedFiles: set<string>, confidence: Confidence)

  predicate FileMatches(changed: string, path: string) {
    changed == path || EndsWith(changed, "/" + path) || EndsWith(changed, path)
  }

  /** The three tests of a file come down to the last one. */
  lemma FileMatchesIffEndsWith(changed: string, path: string)
    ensures FileMatches(changed, path) <==> EndsWith(changed, path)
  {
    if EndsWith(changed, "/" + path) {
      var n := |changed| - |path|;
      assert changed[n - 1..] == "/" + path;
      assert changed[n..] == changed[n - 1..][1..];
    }
  }

  function MatchedFiles(group: Group, changedFiles: seq<string>): set<string> {
    set path, changed | path in group.fixPaths && changed in changedFiles && FileMatches(changed, path) :: path
  }

  predicate Touched(group: Group, changedFiles: seq<string>) {
    MatchedFiles(group, changedFiles) != {}
  }

  function GroupIds(groups: seq<Group>): set<Id> {
    set group | group in groups :: group.checkId
  }

  function RiskIds(items: seq<RiskItem>): set<Id> {
    set item | item in items :: item.checkId
  }

  method MatchFiles(group: Group, changedFiles: seq<string>) returns (matched: set<string>)
    ensures matched == MatchedFiles(group, changedFiles)
  {
    matched := {};
    for i := 0 to |group.fixPaths|
      invariant matched == MatchedFiles(Group(group.checkId, group.fixPaths[..i]), changedFiles)
    {
      var path := group.fixPaths[i];
      ghost var before := matched;
      for j := 0 to |changedFiles|
        invariant matched == before + if exists c | c in changedFiles[..j] :: FileMatches(c, path) then {path} else {}
      {
        assert changedFiles[..j + 1] == changedFiles[..j] + [changedFiles[j]];
        if FileMatches(changedFiles[j], path) {
          matched := matched + {path};
        }
      }
      assert changedFiles[..|changedFiles|] == changedFiles;
      assert group.fixPaths[..i + 1] == group.fixPaths[..i] + [path];
    }
    assert group.fixPaths[..|group.fixPaths|] == group.fixPaths;
  }

  // ---------- the preview ----------

  function TouchedIds(groups: seq<Group>, changedFiles: seq<string>): set<Id> {
    set group | group in groups && Touched(group, changedFiles) :: group.checkId
  }

  /** The checks to which some touched check leads. */
  ghost predicate Endangered(links: seq<Link>, active: set<Id>, touched: set<Id>, id: Id) {
    exists from :: from in touched && IsEffect(links, active, from, id)
  }

  ghost predicate IsEndangeredSet(links: seq<Link>, active: set<Id>, touched: set<Id>, ids: set<Id>) {
    forall id :: id in ids <==> Endangered(links, active, touched, id)
  }

  lemma EndangeredGrows(
    links: seq<Link>, active: set<Id>, touched: set<Id>, ids: set<Id>, from: Id, effects: seq<Id>)
    requires IsEndangeredSet(links, active, touched, ids) && CorrectEffects(links, active, from, effects)
    ensures IsEndangeredSet(links, active, touched + {from}, ids + set effect | effect in effects)
  {
    hide IsEffect;
    forall id ensures id in ids || id in effects <==> Endangered(links, active, touched + {from}, id) {
      if id in ids {
        var other :| other in touched && IsEffect(links, active, other, id);
        assert other in touched + {from};
      }
      if id in effects {
        assert from in touched + {from} && IsEffect(links, active, from, id);
      }
    }
  }

  /** The items of the touched groups, with the files that touched them. */
  function DirectItems(groups: seq<Group>, changedFiles: seq<string>): seq<RiskItem> {
    if groups == [] then []
    else
      var last := groups[|groups| - 1];
      DirectItems(groups[..|groups| - 1], changedFiles)
      + if Touched(last, changedFiles) then [RiskItem(last.checkId, MatchedFiles(last, changedFiles), High)] else []
  }

  function ItemsOf(groups: seq<Group>, ids: set<Id>): seq<RiskItem> {
    if groups == [] then []
    else
      var last := groups[|groups| - 1];
      ItemsOf(groups[..|groups| - 1], ids) + if last.checkId in ids then [RiskItem(last.checkId, {}, Medium)] else []
  }

  lemma RiskIdsAppended(items: seq<RiskItem>, item: RiskItem)
    ensures RiskIds(items + [item]) == RiskIds(items) + {item.checkId}
  {
    assert item in items + [item];
    assert forall i | i in items :: i in items + [item];
    assert forall i | i in items + [item] :: i in items || i == item;
  }

  lemma GroupAppended(groups: seq<Group>, group: Group, changedFiles: seq<string>)
    ensures GroupIds(groups + [group]) == GroupIds(groups) + {group.checkId}
    ensures TouchedIds(groups + [group], changedFiles)
         == TouchedIds(groups, changedFiles) + if Touched(group, changedFiles) then {group.checkId} else {}
  {
    assert group in groups + [group];
    assert forall g | g in groups :: g in groups + [group];
    assert forall g | g in groups + [group] :: g in groups || g == group;
  }

  lemma {:induction false} DirectIds(groups: seq<Group>, changedFiles: seq<string>)
    ensures RiskIds(DirectItems(groups, changedFiles)) == TouchedIds(groups, changedFiles)
  {
    if groups != [] {
      var before, last := groups[..|groups| - 1], groups[|groups| - 1];
      DirectIds(before, changedFiles);
      assert groups == before + [last];
      GroupAppended(before, last, changedFiles);
      RiskIdsAppended(DirectItems(before, changedFiles), RiskItem(last.checkId, MatchedFiles(last, changedFiles), High));
    }
  }

  lemma {:induction false} ItemIds(groups: seq<Group>, ids: set<Id>)
    ensures RiskIds(ItemsOf(groups, ids)) == GroupIds(groups) * ids
  {
    if groups != [] {
      var before, last := groups[..|groups| - 1], groups[|groups| - 1];
      ItemIds(before, ids);
      assert groups == before + [last];
      GroupAppended(before, last, []);
      if last.checkId in ids {
        RiskIdsAppended(ItemsOf(before, ids), RiskItem(last.checkId, {}, Medium));
      } else {
        assert ItemsOf(groups, ids) == ItemsOf(before, ids);
      }
    }
  }

  /**
   * Direct risks are the touched checks, downstream risks the other checks they
   * endanger, each as one item of the right confidence, in the groups' order.
   */
  ghost predicate CorrectPreview(
    links: seq<Link>, groups: seq<Group>, changedFiles: seq<string>, direct: seq<RiskItem>, downstream: seq<RiskItem>)
  {
    var touched := TouchedIds(groups, changedFiles);
    && direct == DirectItems(groups, changedFiles)
    && downstream == ItemsOf(groups, RiskIds(downstream))
    && RiskIds(direct) == touched
    && RiskIds(direct) !! RiskIds(downstream)
    && (forall id :: id in RiskIds(downstream) <==> id !in touched && Endangered(links, GroupIds(groups), touched, id))
  }

  method PreviewDeployRisk(links: seq<Link>, groups: seq<Group>, changedFiles: seq<string>)
    returns (direct: seq<RiskItem>, downstream: seq<RiskItem>)
    ensures CorrectPreview(links, groups, changedFiles, direct, downstream)
  {
    hide Endangered, CorrectEffects, MatchedFiles, IsEndangeredSet, TouchedIds, RiskIds, GroupIds, CorrectPreview;
    var active := GroupIds(groups);
    direct := [];
    var reached: set<Id> := {};
    NothingEndangered(links, active, changedFiles);
    for i := 0 to |groups|
      invariant direct == DirectItems(groups[..i], changedFiles)
      invariant IsEndangeredSet(links, active, TouchedIds(groups[..i], changedFiles), reached)
    {
      var group := groups[i];
      assert groups[..i + 1] == groups[..i] + [group];
      GroupAppended(groups[..i], group, changedFiles);
      var matched := MatchFiles(group, changedFiles);
      if matched != {} {
        direct := direct + [RiskItem(group.checkId, matched, High)];
        var effects := ComputeDownstreamEffects(links, active, group.checkId);
        EndangeredGrows(links, active, TouchedIds(groups[..i], changedFiles), reached, group.checkId, effects);
        reached := reached + set effect | effect in effects;
      } else {
        assert TouchedIds(groups[..i + 1], changedFiles) == TouchedIds(groups[..i], changedFiles);
      }
    }
    assert groups[..|groups|] == groups;
    downstream := ListRemaining(groups, reached - RiskIds(direct));
    PreviewIsCorrect(links, groups, changedFiles, reached);
  }

  /** The last loop: the groups that were reached and are not at risk directly. */
  method ListRemaining(groups: seq<Group>, remaining: set<Id>) returns (items: seq<RiskItem>)
    ensures items == ItemsOf(groups, remaining)
  {
    items := [];
    for i := 0 to |groups|
      invariant items == ItemsOf(groups[..i], remaining)
    {
      assert groups[..i + 1][..i] == groups[..i];
      if groups[i].checkId in remaining {
        items := items + [RiskItem(groups[i].checkId, {}, Medium)];
      }
    }
    assert groups[..|groups|] == groups;
  }

  lemma NothingEndangered(links: seq<Link>, active: set<Id>, changedFiles: seq<string>)
    ensures IsEndangeredSet(links, active, TouchedIds([], changedFiles), {})
  {
  }

  lemma PreviewIsCorrect(links: seq<Link>, groups: seq<Group>, changedFiles: seq<string>, reached: set<Id>)
    requires IsEndangeredSet(links, GroupIds(groups), TouchedIds(groups, changedFiles), reached)
    ensures var direct := DirectItems(groups, changedFiles);
            CorrectPreview(links, groups, changedFiles, direct, ItemsOf(groups, reached - RiskIds(direct)))
  {
    hide Endangered, DirectItems, ItemsOf, RiskIds, TouchedIds;
    DirectIds(groups, changedFiles);
    var touched := TouchedIds(groups, changedFiles);
    EndangeredAreActive(links, GroupIds(groups), touched);
    ItemIds(groups, reached - touched);
    assert GroupIds(groups) * (reached - touched) == reached - touched;
  }

  lemma EndangeredAreActive(links: seq<Link>, active: set<Id>, touched: set<Id>)
    ensures forall id :: Endangered(links, active, touched, id) ==> id in active
  {
    forall id | Endangered(links, active, touched, id) ensures id in active {
      var from :| from in touched && IsEffect(links, active, from, id);
      var nodes: seq<Id> :| IsWalkTo(Query(ToEffects, links, active, from), id, nodes);
      StepOfWalk(Query(ToEffects, links, active, from), nodes, |nodes| - 1);
    }
  }

  // ---------- the order of the items ----------

  /** The items stand for the groups at these positions. */
  ghost predicate Picks(groups: seq<Group>, items: seq<RiskItem>, positions: seq<nat>) {
    && |positions| == |items|
    && (forall i | 0 <= i < |items| :: positions[i] < |groups| && items[i].checkId == groups[positions[i]].checkId)
    && (forall i, j | 0 <= i < j < |items| :: positions[i] < positions[j])
  }

  ghost predicate FollowsGroups(groups: seq<Group>, items: seq<RiskItem>) {
    exists positions :: Picks(groups, items, positions)
  }

  lemma NothingFollows()
    ensures FollowsGroups([], [])
  {
    assert Picks([], [], []);
  }

  lemma PicksNothing(groups: seq<Group>, group: Group, items: seq<RiskItem>)
    requires FollowsGroups(groups, items)
    ensures FollowsGroups(groups + [group], items)
  {
    var positions: seq<nat> :| Picks(groups, items, positions);
    assert Picks(groups + [group], items, positions);
  }

  lemma PicksLast(groups: seq<Group>, group: Group, items: seq<RiskItem>, item: RiskItem)
    requires FollowsGroups(groups, items) && item.checkId == group.checkId
    ensures FollowsGroups(groups + [group], items + [item])
  {
    var positions: seq<nat> :| Picks(groups, items, positions);
    assert Picks(groups + [group], items + [item], positions + [|groups|]);
  }

  lemma {:induction false} ItemsFollowGroups(groups: seq<Group>, changedFiles: seq<string>, ids: set<Id>)
    ensures FollowsGroups(groups, DirectItems(groups, changedFiles)) && FollowsGroups(groups, ItemsOf(groups, ids))
  {
    hide FollowsGroups, Touched, MatchedFiles;
    if groups == [] {
      NothingFollows();
    } else {
      var before, last := groups[..|groups| - 1], groups[|groups| - 1];
      ItemsFollowGroups(before, changedFiles, ids);
      assert groups == before + [last];
      if Touched(last, changedFiles) {
        PicksLast(before, last, DirectItems(before, changedFiles),
                  RiskItem(last.checkId, MatchedFiles(last, changedFiles), High));
      } else {
        PicksNothing(before, last, DirectItems(before, changedFiles));
        assert DirectItems(groups, changedFiles) == DirectItems(before, changedFiles);
      }
      if last.checkId in ids {
        PicksLast(before, last, ItemsOf(before, ids), RiskItem(last.checkId, {}, Medium));
      } else {
        PicksNothing(before, last, ItemsOf(before, ids));
        assert ItemsOf(groups, ids) == ItemsOf(before, ids);
      }
    }
  }

  /** Groups of different checks. */
  ghost predicate DistinctGroups(groups: seq<Group>) {
    forall i, j | 0 <= i < j < |groups| :: groups[i].checkId != groups[j].checkId
  }

  ghost predicate ListsOnce(items: seq<RiskItem>) {
    forall i, j | 0 <= i < j < |items| :: items[i].checkId != items[j].checkId
  }

  /** Both lists follow the groups, and no check is listed twice in either or in both. */
  lemma PreviewListsEachOnce(
    links: seq<Link>, groups: seq<Group>, changedFiles: seq<string>, direct: seq<RiskItem>, downstream: seq<RiskItem>)
    requires DistinctGroups(groups) && CorrectPreview(links, groups, changedFiles, direct, downstream)
    ensures FollowsGroups(groups, direct) && FollowsGroups(groups, downstream)
    ensures ListsOnce(direct + downstream)
  {
    ItemsFollowGroups(groups, changedFiles, RiskIds(downstream));
    PickedOnce(groups, direct);
    PickedOnce(groups, downstream);
    forall i, j | 0 <= i < |direct| && 0 <= j < |downstream| ensures direct[i].checkId != downstream[j].checkId {
      assert direct[i].checkId in RiskIds(direct) && downstream[j].checkId in RiskIds(downstream);
    }
  }

  lemma PickedOnce(groups: seq<Group>, items: seq<RiskItem>)
    requires DistinctGroups(groups) && FollowsGroups(groups, items)
    ensures ListsOnce(items)
  {
    var positions: seq<nat> :| Picks(groups, items, positions);
  }

  // ---------- the closure ----------

  /** No link leads from the set to an active check outside it. */
  ghost predicate Closed(links: seq<Link>, active: set<Id>, ids: set<Id>) {
    forall i | 0 <= i < |links| :: links[i].cause in ids && links[i].effect in active ==> links[i].effect in ids
  }

  lemma StaysInClosedSet(q: Query, ids: set<Id>, from: Id, to: Id)
    requires q.direction == ToEffects && Closed(q.links, q.active, ids) && from in ids && q.Leads(from, to)
    ensures to in ids
  {
  }

  lemma {:induction false} WalksStayInClosedSet(q: Query, ids: set<Id>, nodes: seq<Id>, i: nat)
    requires q.direction == ToEffects && Closed(q.links, q.active, ids) && q.start in ids
    requires Walk(q, nodes) && i <= |nodes|
    ensures Previous(q.start, nodes, i) in ids
  {
    hide Walk, Closed, Query.Leads;
    if i > 0 {
      WalksStayInClosedSet(q, ids, nodes, i - 1);
      StepOfWalk(q, nodes, i - 1);
      StaysInClosedSet(q, ids, Previous(q.start, nodes, i - 1), nodes[i - 1]);
    }
  }

  lemma EffectsOfEffects(links: seq<Link>, active: set<Id>, start: Id, i: nat)
    requires WellFormed(links) && i < |links| && links[i].effect in active
    requires links[i].cause == start || IsEffect(links, active, start, links[i].cause)
    ensures IsEffect(links, active, start, links[i].effect)
  {
    var q := Query(ToEffects, links, active, start);
    var nodes: seq<Id> := [];
    if links[i].cause != start {
      nodes :| IsWalkTo(q, links[i].cause, nodes);
    }
    assert q.From(links[i]) == links[i].cause && q.To(links[i]) == links[i].effect;
    WalkExtended(q, nodes, links[i].effect);
    assert IsWalkTo(q, links[i].effect, nodes + [links[i].effect]);
  }

  /** Direct and downstream risks together are the least set that holds the touched checks and is closed under active links. */
  lemma PreviewIsLeastClosure(
    links: seq<Link>, groups: seq<Group>, changedFiles: seq<string>, direct: seq<RiskItem>, downstream: seq<RiskItem>)
    requires WellFormed(links) && CorrectPreview(links, groups, changedFiles, direct, downstream)
    ensures var all := RiskIds(direct) + RiskIds(downstream);
            && TouchedIds(groups, changedFiles) <= all
            && Closed(links, GroupIds(groups), all)
            && (forall ids :: TouchedIds(groups, changedFiles) <= ids && Closed(links, GroupIds(groups), ids) ==> all <= ids)
  {
    var active, touched := GroupIds(groups), TouchedIds(groups, changedFiles);
    var all := RiskIds(direct) + RiskIds(downstream);
    forall i | 0 <= i < |links| && links[i].cause in all && links[i].effect in active
      ensures links[i].effect in all
    {
      var from :| from in touched && (links[i].cause == from || IsEffect(links, active, from, links[i].cause));
      EffectsOfEffects(links, active, from, i);
    }
    forall ids | touched <= ids && Closed(links, active, ids) ensures all <= ids {
      forall id | id in RiskIds(downstream) ensures id in ids {
        var from :| from in touched && IsEffect(links, active, from, id);
        var nodes: seq<Id> :| IsWalkTo(Query(ToEffects, links, active, from), id, nodes);
        WalksStayInClosedSet(Query(ToEffects, links, active, from), ids, nodes, |nodes|);
      }
    }
  }

  // ---------- the items in plain words ----------

  /** The fix paths of the group with which some changed file ends. */
  ghost function EndingPaths(group: Group, changedFiles: seq<string>): set<string> {
    set path | path in group.fixPaths && IsEnding(path, changedFiles) :: path
  }

  ghost predicate IsEnding(path: string, changedFiles: seq<string>) {
    exists front, changed :: changed in changedFiles && changed == front + path
  }

  lemma MatchedPathsAreEndings(group: Group, changedFiles: seq<string>)
    ensures MatchedFiles(group, changedFiles) == EndingPaths(group, changedFiles)
  {
    forall path ensures path in MatchedFiles(group, changedFiles) <==> path in EndingPaths(group, changedFiles) {
      if path in MatchedFiles(group, changedFiles) {
        var changed :| path in group.fixPaths && changed in changedFiles && FileMatches(changed, path);
        FileMatchesIffEndsWith(changed, path);
        EndsWithIsSuffix(changed, path);
      }
      if path in group.fixPaths && IsEnding(path, changedFiles) {
        var front, changed :| changed in changedFiles && changed == front + path;
        EndsWithIsSuffix(changed, path);
        FileMatchesIffEndsWith(changed, path);
      }
    }
  }

  lemma {:induction false} DirectItemsAreTold(groups: seq<Group>, changedFiles: seq<string>, item: RiskItem)
    ensures item in DirectItems(groups, changedFiles) <==>
            exists group :: group in groups && EndingPaths(group, changedFiles) != {}
                            && item == RiskItem(group.checkId, EndingPaths(group, changedFiles), High)
  {
    hide EndingPaths, MatchedFiles;
    if groups != [] {
      var before, last := groups[..|groups| - 1], groups[|groups| - 1];
      DirectItemsAreTold(before, changedFiles, item);
      MatchedPathsAreEndings(last, changedFiles);
      assert groups == before + [last];
    }
  }

  lemma {:induction false} ItemsAreTold(groups: seq<Group>, ids: set<Id>, item: RiskItem)
    ensures item in ItemsOf(groups, ids) <==>
            item.matchedFiles == {} && item.confidence == Medium && item.checkId in ids
            && exists group :: group in groups && item.checkId == group.checkId
  {
    if groups != [] {
      var before, last := groups[..|groups| - 1], groups[|groups| - 1];
      ItemsAreTold(before, ids, item);
      assert groups == before + [last];
    }
  }

  /**
   * Direct risks are the groups one of whose fix paths ends some changed file,
   * each with those paths and high confidence; downstream risks carry no files
   * and medium confidence, and each is the end of a walk from a direct one.
   */
  lemma PreviewIsTold(
    links: seq<Link>, groups: seq<Group>, changedFiles: seq<string>, direct: seq<RiskItem>, downstream: seq<RiskItem>,
    item: RiskItem)
    requires CorrectPreview(links, groups, changedFiles, direct, downstream)
    ensures item in direct <==>
            exists group :: group in groups && EndingPaths(group, changedFiles) != {}
                            && item == RiskItem(group.checkId, EndingPaths(group, changedFiles), High)
    ensures item in downstream ==>
              && item.matchedFiles == {} && item.confidence == Medium
              && (forall other | other in direct :: other.checkId != item.checkId)
              && exists other :: other in direct && IsEffect(links, GroupIds(groups), other.checkId, item.checkId)
  {
    hide EndingPaths, DirectItems, ItemsOf, GroupIds, TouchedIds, IsEffect;
    DirectItemsAreTold(groups, changedFiles, item);
    ItemsAreTold(groups, RiskIds(downstream), item);
    if item in downstream {
      assert item.checkId in RiskIds(downstream);
      forall other | other in direct ensures other.checkId != item.checkId {
        assert other.checkId in RiskIds(direct);
      }
      var from :| from in RiskIds(direct) && IsEffect(links, GroupIds(groups), from, item.checkId);
      var other :| other in direct && other.checkId == from;
    }
  }
}
