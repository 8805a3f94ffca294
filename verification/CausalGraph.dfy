/** Causal links between checks and the confidence observations give them. */
module CausalGraph {
  import opened Wrappers

  /** The name of a check. */
  datatype Id = Id(name: string)

  datatype Confidence = High | Medium | Low

  datatype Link = Link(cause: Id, effect: Id, confidence: Confidence)

  /** How often a cause and its effect were active together, and resolved together. */
  datatype Observation = Observation(resolved: int, active: int)

  /** Keyed by the two ids joined with a bar. */
  type Observations = map<string, Observation>

  function ObservationKey(cause: Id, effect: Id): string {
    cause.name + "|" + effect.name
  }

  /** Joined keys tell apart any two pairs of ids, as long as no cause contains a bar itself. */
  lemma ObservationKeysAreDistinct(cause: Id, effect: Id, cause': Id, effect': Id)
    requires '|' !in cause.name && '|' !in cause'.name
    requires ObservationKey(cause, effect) == ObservationKey(cause', effect')
    ensures cause == cause' && effect == effect'
  {
    var key, n, n' := ObservationKey(cause, effect), |cause.name|, |cause'.name|;
    assert key[n] == '|' && key[n'] == '|';
    assert n == n' by {
      assert forall i | 0 <= i < n :: key[i] == cause.name[i];
      assert forall i | 0 <= i < n' :: key[i] == cause'.name[i];
    }
    assert cause.name == key[..n] && cause'.name == key[..n'];
    assert effect.name == key[n + 1..] && effect'.name == key[n' + 1..];
  }

  /** With a bar in a name two different pairs can share a key. */
  lemma BarsMakeKeysCollide()
    ensures ObservationKey(Id("a|b"), Id("c")) == ObservationKey(Id("a"), Id("b|c"))
  {
    assert "a|b" + "|" + "c" == "a" + "|" + "b|c";
  }

  function ConfidenceAsNumber(c: Confidence): real {
    match c
    case High => 1.0
    case Medium => 0.7
    case Low => 0.3
  }

  predicate AtMost(a: Confidence, b: Confidence) {
    ConfidenceAsNumber(a) <= ConfidenceAsNumber(b)
  }

  function Weaker(a: Confidence, b: Confidence): Confidence {
    if ConfidenceAsNumber(a) < ConfidenceAsNumber(b) then a else b
  }

  /**
   * Recalibrates a link's confidence once it was observed at least five times.
   * The three outcomes for each base are those of double arithmetic, where
   * 0.7 + 0.2 stays below 0.9 and 0.3 + 0.2 reaches 0.5.
   */
  function DynamicConfidence(base: Confidence, resolved: int, active: int): Confidence {
    if active < 5 then base
    else if 5 * resolved < active then
      match base case High => Medium case Medium => Low case Low => Low
    else if 10 * resolved > 7 * active then
      match base case High => High case Medium => Medium case Low => Medium
    else base
  }

  lemma DynamicConfidenceIsMonotone(base: Confidence, base': Confidence, resolved: int, resolved': int, active: int)
    requires AtMost(base, base') && resolved <= resolved'
    ensures AtMost(DynamicConfidence(base, resolved, active), DynamicConfidence(base', resolved', active))
  {
  }

  /** Observations can lower a link to any level, but never make one high that was not high. */
  lemma OnlyHighStaysHigh(base: Confidence, resolved: int, active: int)
    ensures DynamicConfidence(base, resolved, active) == High <==> base == High && (active < 5 || active <= 5 * resolved)
  {
  }

  /** A link is weakened exactly by few joint resolutions and strengthened exactly by many, never by more than one level. */
  lemma DynamicConfidenceMoves(base: Confidence, resolved: int, active: int)
    ensures var calibrated := DynamicConfidence(base, resolved, active);
            && (!AtMost(base, calibrated) <==> active >= 5 && 5 * resolved < active && base != Low)
            && (!AtMost(calibrated, base) <==> active >= 5 && 10 * resolved > 7 * active && base == Low)
            && !(base == High && calibrated == Low) && !(base == Low && calibrated == High)
  {
  }

  /**
   * The desktop's recalibration, with the outcomes of its single precision
   * arithmetic, where 0.7 + 0.2 is 0.9.
   */
  function DesktopConfidence(base: Confidence, resolved: int, active: int): Confidence {
    if active < 5 then base
    else if 5 * resolved < active then
      match base case High => Medium case Medium => Low case Low => Low
    else if 10 * resolved > 7 * active then
      match base case High => High case Medium => High case Low => Medium
    else base
  }

  /** The desktop is never weaker, and the two differ exactly on a medium link often resolved with its cause. */
  lemma DesktopIsMirrored(base: Confidence, resolved: int, active: int)
    ensures AtMost(DynamicConfidence(base, resolved, active), DesktopConfidence(base, resolved, active))
    ensures DynamicConfidence(base, resolved, active) == DesktopConfidence(base, resolved, active)
       <==> !(base == Medium && active >= 5 && 10 * resolved > 7 * active)
  {
  }

  function ObservationOf(observations: Observations, cause: Id, effect: Id): Observation {
    var key := ObservationKey(cause, effect);
    if key in observations then observations[key] else Observation(0, 0)
  }

  function Calibrated(observations: Observations, cause: Id, effect: Id, confidence: Confidence): Confidence {
    var observation := ObservationOf(observations, cause, effect);
    DynamicConfidence(confidence, observation.resolved, observation.active)
  }

  /** A link is calibrated by the counts stored under its cause, a bar and its effect, and left alone without any. */
  lemma CalibratedByCounts(observations: Observations, cause: Id, effect: Id, confidence: Confidence)
    ensures var key := cause.name + "|" + effect.name;
            Calibrated(observations, cause, effect, confidence)
            == if key in observations
               then DynamicConfidence(confidence, observations[key].resolved, observations[key].active)
               else confidence
  {
  }

  /** Every observation of `after` is one of `before`, with at least as many joint resolutions. */
  ghost predicate MoreResolved(before: Observations, after: Observations) {
    && before.Keys == after.Keys
    && forall key | key in before ::
         before[key].active == after[key].active && before[key].resolved <= after[key].resolved
  }

  lemma CalibrationIsMonotone(before: Observations, after: Observations, cause: Id, effect: Id, confidence: Confidence)
    requires MoreResolved(before, after)
    ensures AtMost(Calibrated(before, cause, effect, confidence), Calibrated(after, cause, effect, confidence))
  {
    var old', new' := ObservationOf(before, cause, effect), ObservationOf(after, cause, effect);
    DynamicConfidenceIsMonotone(confidence, confidence, old'.resolved, new'.resolved, old'.active);
  }

  // ---------- loading ----------

  /** The guarantee the graph loader gives: no link has an empty end. */
  ghost predicate WellFormed(links: seq<Link>) {
    forall i | 0 <= i < |links| :: links[i].cause.name != "" && links[i].effect.name != ""
  }

  /** A record of the generated graph, its names already trimmed; the fields need not be meaningful. */
  datatype RawLink = RawLink(cause: string, effect: string, confidence: string) | Malformed

  function ParseConfidence(value: string): Option<Confidence> {
    if value == "high" then Some(High)
    else if value == "medium" then Some(Medium)
    else if value == "low" then Some(Low)
    else None
  }

  function ParseLink(raw: RawLink): Option<Link> {
    if raw.Malformed? || raw.cause == "" || raw.effect == "" || ParseConfidence(raw.confidence).None? then None
    else Some(Link(Id(raw.cause), Id(raw.effect), ParseConfidence(raw.confidence).value))
  }

  /** A graph loads link by link, or fails at its first invalid record. */
  method ParseCausalGraph(raws: seq<RawLink>) returns (graph: Result<seq<Link>, nat>)
    ensures graph.Ok? ==>
              && WellFormed(graph.value) && |graph.value| == |raws|
              && forall i | 0 <= i < |raws| ::
                   && ParseLink(raws[i]) == Some(graph.value[i])
                   && raws[i].RawLink?
                   && graph.value[i].cause.name == raws[i].cause != ""
                   && graph.value[i].effect.name == raws[i].effect != ""
                   && (graph.value[i].confidence.High? <==> raws[i].confidence == "high")
                   && (graph.value[i].confidence.Medium? <==> raws[i].confidence == "medium")
                   && (graph.value[i].confidence.Low? <==> raws[i].confidence == "low")
    ensures graph.Err? ==>
              && graph.error < |raws| && ParseLink(raws[graph.error]).None?
              && (raws[graph.error].RawLink? ==>
                    || raws[graph.error].cause == "" || raws[graph.error].effect == ""
                    || raws[graph.error].confidence !in {"high", "medium", "low"})
              && forall i | 0 <= i < graph.error :: ParseLink(raws[i]).Some?
  {
    var links := [];
    for index := 0 to |raws|
      invariant WellFormed(links) && |links| == index
      invariant forall i | 0 <= i < index :: ParseLink(raws[i]) == Some(links[i])
    {
      var parsed := ParseLink(raws[index]);
      if parsed.None? {
        return Err(index);
      }
      links := links + [parsed.value];
    }
    return Ok(links);
  }
}
