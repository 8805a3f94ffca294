/** Walks written as the list of checks they meet, and what a search finds in those terms. */
module CausalWalks {
  import opened CausalGraph
  import opened CausalSearch

  function Previous(start: Id, nodes: seq<Id>, i: nat): Id
    requires i <= |nodes|
  {
    if i == 0 then start else nodes[i - 1]
  }

  /** A walk, as the list of the checks after the start. */
  ghost predicate Walk(q: Query, nodes: seq<Id>) {
    forall i | 0 <= i < |nodes| ::
      q.Leads(Previous(q.start, nodes, i), nodes[i]) && q.MayLeave(Previous(q.start, nodes, i), i)
  }

  ghost function PathOf(nodes: seq<Id>): Path {
    if nodes == [] then Start else Via(PathOf(nodes[..|nodes| - 1]), nodes[|nodes| - 1])
  }

  lemma {:induction false} NodesOfPath(nodes: seq<Id>)
    ensures PathOf(nodes).Nodes() == nodes && PathOf(nodes).Depth() == |nodes|
  {
    if nodes != [] {
      NodesOfPath(nodes[..|nodes| - 1]);
    }
  }

  lemma {:induction false} PathIsWalk(q: Query, path: Path)
    ensures |path.Nodes()| == path.Depth() && q.End(path) == Previous(q.start, path.Nodes(), path.Depth())
    ensures q.IsWalk(path) <==> Walk(q, path.Nodes())
  {
    if path.Via? {
      PathIsWalk(q, path.before);
      WalkExtended(q, path.before.Nodes(), path.last);
    }
  }

  lemma WalkExtended(q: Query, nodes: seq<Id>, last: Id)
    ensures Walk(q, nodes + [last]) <==>
            Walk(q, nodes)
            && q.Leads(Previous(q.start, nodes, |nodes|), last)
            && q.MayLeave(Previous(q.start, nodes, |nodes|), |nodes|)
  {
    hide Query.Leads, Query.MayLeave;
    var longer := nodes + [last];
    forall i | 0 <= i < |nodes|
      ensures Previous(q.start, longer, i) == Previous(q.start, nodes, i) && longer[i] == nodes[i]
    {
    }
    assert longer[|nodes|] == last && Previous(q.start, longer, |nodes|) == Previous(q.start, nodes, |nodes|);
  }

  /** One recorded path for each check a walk leads to, itself a shortest such walk. */
  ghost predicate ShortestWalks(q: Query, walks: seq<seq<Id>>) {
    && (forall i | 0 <= i < |walks| :: walks[i] != [] && Walk(q, walks[i]))
    && (forall i, j | 0 <= i < j < |walks| && walks[i] != [] && walks[j] != [] :: Last(walks[i]) != Last(walks[j]))
    && (forall nodes: seq<Id> {:trigger Recorded(walks, Last(nodes), |nodes|)} | nodes != [] && Walk(q, nodes) ::
          Recorded(walks, Last(nodes), |nodes|))
  }

  function Last(nodes: seq<Id>): Id
    requires nodes != []
  {
    nodes[|nodes| - 1]
  }

  /** A walk that ends at this check. */
  ghost predicate IsWalkTo(q: Query, id: Id, nodes: seq<Id>) {
    nodes != [] && Last(nodes) == id && Walk(q, nodes)
  }

  ghost predicate Recorded(walks: seq<seq<Id>>, id: Id, size: nat) {
    exists i :: 0 <= i < |walks| && walks[i] != [] && Last(walks[i]) == id && |walks[i]| <= size
  }

  ghost function AllNodes(log: seq<Path>): seq<seq<Id>> {
    seq(|log|, i requires 0 <= i < |log| => log[i].Nodes())
  }

  /** The search of either direction, on any graph, finds a shortest walk to exactly the checks walks lead to. */
  lemma SearchFindsShortestWalks(q: Query)
    ensures |SearchFrom(q)| > 0
    ensures ShortestWalks(q, AllNodes(SearchFrom(q)[1..]))
  {
    SearchIsExact(q);
    var log := SearchFrom(q);
    NodesOfLog(q, log);
    forall nodes: seq<Id> | nodes != [] && Walk(q, nodes)
      ensures Recorded(AllNodes(log[1..]), Last(nodes), |nodes|)
    {
      NodesOfPath(nodes);
      PathIsWalk(q, PathOf(nodes));
      ReachesRecorded(q, log, Last(nodes), |nodes|);
    }
  }

  lemma NodesOfLog(q: Query, log: seq<Path>)
    requires Sound(q, log)
    ensures var walks := AllNodes(log[1..]);
            forall i | 0 <= i < |walks| ::
              walks[i] == log[i + 1].Nodes() && walks[i] != [] && Walk(q, walks[i]) && Last(walks[i]) == log[i + 1].last
  {
    forall i | 1 <= i < |log| ensures log[i].Nodes() != [] && Walk(q, log[i].Nodes()) && Last(log[i].Nodes()) == log[i].last {
      PathIsWalk(q, log[i]);
    }
  }

  lemma ReachesRecorded(q: Query, log: seq<Path>, id: Id, size: nat)
    requires Sound(q, log) && Reaches(log, id, size)
    ensures Recorded(AllNodes(log[1..]), id, size)
  {
    hide Query.IsWalk, Walk;
    NodesOfLog(q, log);
    var path :| path in log && path.Via? && path.last == id && path.Depth() <= size;
    var i :| 0 <= i < |log| && log[i] == path;
    PathIsWalk(q, path);
    assert AllNodes(log[1..])[i - 1] == path.Nodes();
  }

  // ---------- the two directions ----------

  function Opposite(q: Query, start: Id): Query {
    Query(if q.direction == ToCauses then ToEffects else ToCauses, q.links, q.active, start)
  }

  /** The same links, walked the other way. */
  function Backwards(start: Id, nodes: seq<Id>): seq<Id> {
    seq(|nodes|, i requires 0 <= i < |nodes| => Previous(start, nodes, |nodes| - 1 - i))
  }

  lemma WalksReverse(q: Query, nodes: seq<Id>)
    requires WellFormed(q.links) && q.start in q.active
    requires nodes != [] && |nodes| <= DEPTH_LIMIT && Walk(q, nodes)
    ensures Walk(Opposite(q, Last(nodes)), Backwards(q.start, nodes))
    ensures Last(Backwards(q.start, nodes)) == q.start
  {
    hide Query.Leads, Query.MayLeave;
    var back, r := Backwards(q.start, nodes), Opposite(q, Last(nodes));
    forall i | 0 <= i < |back|
      ensures r.Leads(Previous(r.start, back, i), back[i]) && r.MayLeave(Previous(r.start, back, i), i)
    {
      var k := |nodes| - 1 - i;
      assert Previous(r.start, back, i) == nodes[k] && back[i] == Previous(q.start, nodes, k);
      StepOfWalk(q, nodes, k);
      if k > 0 {
        StepOfWalk(q, nodes, k - 1);
        LeadsToActive(q, Previous(q.start, nodes, k - 1), nodes[k - 1]);
      }
      LeadsBack(q, r.start, Previous(q.start, nodes, k), nodes[k]);
    }
  }

  lemma StepOfWalk(q: Query, nodes: seq<Id>, i: nat)
    requires Walk(q, nodes) && i < |nodes|
    ensures q.Leads(Previous(q.start, nodes, i), nodes[i]) && q.MayLeave(Previous(q.start, nodes, i), i)
  {
  }

  lemma LeadsToActive(q: Query, from: Id, to: Id)
    requires q.Leads(from, to)
    ensures to in q.active
  {
  }

  /** A link between active checks, followed the other way. */
  lemma LeadsBack(q: Query, start: Id, from: Id, to: Id)
    requires WellFormed(q.links) && from in q.active && q.Leads(from, to)
    ensures Opposite(q, start).Leads(to, from)
    ensures forall depth: nat | depth < DEPTH_LIMIT :: Opposite(q, start).MayLeave(to, depth)
  {
    var j :| 0 <= j < |q.links| && q.From(q.links[j]) == from && q.To(q.links[j]) == to;
    assert Opposite(q, start).From(q.links[j]) == to && Opposite(q, start).To(q.links[j]) == from;
  }

  /** The forward search never leaves a check with an empty name, which is why the loader's guarantee matters. */
  lemma EmptyNameHasNoEffects(links: seq<Link>, active: set<Id>)
    ensures Ids(SearchFrom(Query(ToEffects, links, active, Id("")))) == {}
  {
    var q := Query(ToEffects, links, active, Id(""));
    forall path: Path | path.Via? ensures !q.IsWalk(path) {
      PathIsWalk(q, path);
      assert Walk(q, path.Nodes()) ==> q.MayLeave(Previous(q.start, path.Nodes(), 0), 0);
    }
    forall id ensures id !in Ids(SearchFrom(q)) {
      FoundIffWalk(q, id);
    }
  }

  lemma WalkReaches(q: Query, nodes: seq<Id>)
    requires nodes != [] && Walk(q, nodes)
    ensures Reaches(SearchFrom(q), Last(nodes), |nodes|)
  {
    SearchIsExact(q);
    NodesOfPath(nodes);
    PathIsWalk(q, PathOf(nodes));
  }
}
