/** The shared clients, the redirects they follow, and every address a client ever connects to. */
module HttpClient {
  import opened Wrappers
  import opened IpAddresses
  import opened NetworkPolicy
  import opened DnsCache

  const REDIRECT_LIMIT := 10

  /** A client: what it lets a page redirect it to, and the policy of the resolver it connects through. */
  datatype Client = Client(redirects: UrlPolicy, resolver: UrlPolicy, acceptsSelfSignedLoopback: bool)

  const PUBLIC_CLIENT := Client(Redirect(false), Scan, false)
  const LOCALHOST_CLIENT := Client(Redirect(true), Scan, true)
  const PRIVATE_NETWORK_CLIENT := Client(ScanTarget, ScanTarget, false)

  function ForScanOrigin(origin: LocalOrigin): Client {
    match origin
    case Loopback => LOCALHOST_CLIENT
    case PrivateNetwork => PRIVATE_NETWORK_CLIENT
    case LocalhostDomain => PUBLIC_CLIENT
    case LocalNetworkName => PUBLIC_CLIENT
    case Public => PUBLIC_CLIENT
  }

  /** Each origin's client redirects as the origin's policy says, `.localhost` names excepted, and only loopback is excused from certificates. */
  lemma ClientMatchesOrigin(origin: LocalOrigin)
    ensures ForScanOrigin(origin).redirects == SubordinatePolicy(origin) <==> origin != LocalhostDomain
    ensures ForScanOrigin(origin).acceptsSelfSignedLoopback <==> origin == Loopback
  {
  }

  /** For a `.localhost` origin the client refuses exactly the redirects back to the machine itself that the origin's policy allows. */
  lemma LocalhostDomainLosesItsException(url: Url)
    ensures ValidateRedirectTarget(url, SubordinatePolicy(LocalhostDomain)).Ok?
            && ValidateRedirectTarget(url, ForScanOrigin(LocalhostDomain).redirects).Err?
       <==> (url.scheme == "http" || url.scheme == "https") && url.host.Some?
            && match url.host.value
               case Literal(ip) => IsLoopbackIp(ip)
               case Domain(name) => IsLocalDevDomain(Normalized(name))
  {
    if url.host.Some? && url.host.value.Literal? {
      PolicyChain(url.host.value.ip);
    }
  }

  /** Whether a redirect is followed, given the urls already visited. */
  predicate Follows(policy: UrlPolicy, previous: seq<Url>, next: Url) {
    |previous| < REDIRECT_LIMIT && ValidateRedirectTarget(next, policy).Ok?
  }

  // ---------- runs ----------

  datatype Connection = Connection(url: Url, ip: Ip, redirected: bool)

  /** `previous` are the urls left behind by redirects; other users of the resolver share its cache. */
  datatype State = State(previous: seq<Url>, current: Url, cache: Cache, connections: seq<Connection>)

  ghost predicate Initial(s: State) {
    s.previous == [] && s.connections == []
  }

  ghost predicate Redirects(client: Client, s: State, s': State) {
    && Follows(client.redirects, s.previous + [s.current], s'.current)
    && s' == s.(previous := s.previous + [s.current], current := s'.current)
  }

  /** A literal host is connected to directly, a named one at any address its resolution hands out. */
  ghost predicate Connects(client: Client, s: State, s': State) {
    && s.current.host.Some?
    && |s'.connections| == |s.connections| + 1
    && var ip := s'.connections[|s.connections|].ip;
       && s' == s.(connections := s.connections + [Connection(s.current, ip, s.previous != [])], cache := s'.cache)
       && match s.current.host.value
          case Literal(own) => ip == own && s'.cache == s.cache
          case Domain(name) =>
            exists lookup, answer ::
              && Resolves(s.cache, client.resolver, name, lookup, answer)
              && answer.Ok? && ip in answer.value
              && s'.cache == CacheAfter(s.cache, client.resolver, name, lookup)
  }

  /** Evictions and other requests may leave any entries in the shared cache. */
  ghost predicate CacheChanges(s: State, s': State) {
    s' == s.(cache := s'.cache)
  }

  ghost predicate Step(client: Client, s: State, s': State) {
    Redirects(client, s, s') || Connects(client, s, s') || CacheChanges(s, s')
  }

  ghost predicate IsRun(client: Client, run: seq<State>) {
    && run != [] && Initial(run[0])
    && forall i | 0 <= i < |run| - 1 :: Step(client, run[i], run[i + 1])
  }

  /** Every redirect the client follows is a step, and it leaves the url it came from behind. */
  lemma FollowedRedirectIsStep(client: Client, s: State, next: Url)
    requires |s.previous| < 9 && ValidateRedirectTarget(next, client.redirects).Ok?
    ensures Step(client, s, State(s.previous + [s.current], next, s.cache, s.connections))
    ensures forall s' | Redirects(client, s, s') :: s'.previous == s.previous + [s.current] && s'.connections == s.connections
  {
    assert Redirects(client, s, State(s.previous + [s.current], next, s.cache, s.connections));
  }

  /** So is every connection to an address the resolver hands out, or to a literal one, and it is recorded as redirected if it is. */
  lemma MadeConnectionIsStep(client: Client, s: State, lookup: Option<seq<Ip>>, answer: Answer, ip: Ip)
    requires s.current.host.Some?
    requires match s.current.host.value
             case Literal(own) => ip == own
             case Domain(name) => Resolves(s.cache, client.resolver, name, lookup, answer) && answer.Ok? && ip in answer.value
    ensures var cache := if s.current.host.value.Literal? then s.cache
                         else CacheAfter(s.cache, client.resolver, s.current.host.value.name, lookup);
            Step(client, s,
                 State(s.previous, s.current, cache, s.connections + [Connection(s.current, ip, |s.previous| > 0)]))
  {
    hide Resolves, CacheAfter;
    var cache := if s.current.host.value.Literal? then s.cache
                 else CacheAfter(s.cache, client.resolver, s.current.host.value.name, lookup);
    var s' := State(s.previous, s.current, cache, s.connections + [Connection(s.current, ip, |s.previous| > 0)]);
    assert Connects(client, s, s');
  }

  // ---------- what every step keeps ----------

  /** The place a redirect led to is one the client's redirect policy accepts. */
  ghost predicate CurrentAccepted(client: Client, s: State) {
    s.previous != [] ==> ValidateRedirectTarget(s.current, client.redirects).Ok?
  }

  /** The connection's address is admitted for its host: by the resolver, and after a redirect by the origin's policy. */
  ghost predicate Within(origin: LocalOrigin, connection: Connection) {
    && connection.url.host.Some?
    && (connection.url.host.value.Domain? ==>
          AdmitsHost(ForScanOrigin(origin).resolver, connection.url.host.value, connection.ip))
    && (connection.redirected ==>
          && AdmitsHost(SubordinatePolicy(origin), connection.url.host.value, connection.ip)
          && (connection.url.scheme == "http" || connection.url.scheme == "https")
          && (connection.url.host.value.Domain? ==> Normalized(connection.url.host.value.name) != METADATA_HOST))
  }

  ghost predicate Safe(origin: LocalOrigin, s: State) {
    && |s.previous| < REDIRECT_LIMIT
    && CurrentAccepted(ForScanOrigin(origin), s)
    && forall i | 0 <= i < |s.connections| :: Within(origin, s.connections[i])
  }

  /** What the redirect check and the resolver of a client admit together, its origin's policy admits. */
  lemma ClientReachesNoFurther(origin: LocalOrigin, url: Url, ip: Ip)
    requires url.host.Some?
    requires ValidateRedirectTarget(url, ForScanOrigin(origin).redirects).Ok?
    requires match url.host.value
             case Literal(own) => ip == own
             case Domain(_) => AdmitsHost(ForScanOrigin(origin).resolver, url.host.value, ip)
    ensures AdmitsHost(SubordinatePolicy(origin), url.host.value, ip)
  {
    match url.host.value
    case Literal(own) => PolicyChain(own);
    case Domain(name) =>
      if !IsLocalDevDomain(Normalized(name)) {
        OutsideLocalhostScansAreRedirects(name, ip, SubordinatePolicy(origin) == Redirect(true));
      }
  }

  /**
   * Other than for `.localhost` origins a client's redirect check and its
   * resolver together admit exactly what the origin's policy admits: over http
   * or https, and never the cloud metadata host.
   */
  lemma ClientReachesExactly(origin: LocalOrigin, url: Url, ip: Ip)
    requires origin != LocalhostDomain && url.host.Some?
    ensures && ValidateRedirectTarget(url, ForScanOrigin(origin).redirects).Ok?
            && (match url.host.value
                case Literal(own) => ip == own
                case Domain(_) => AdmitsHost(ForScanOrigin(origin).resolver, url.host.value, ip))
       <==> && url.scheme in {"http", "https"}
            && AdmitsHost(SubordinatePolicy(origin), url.host.value, ip)
            && (url.host.value.Domain? ==> Normalized(url.host.value.name) != "metadata.google.internal")
  {
    hide IsLoopbackIp, IsPrivateNetworkIp, IsPrivateOrInternalIp, Normalized, IsLocalDevDomain;
    match url.host.value
    case Literal(own) =>
    case Domain(name) =>
      if !IsLocalDevDomain(Normalized(name)) {
        OutsideLocalhostScansAreRedirects(name, ip, false);
        OutsideLocalhostScansAreRedirects(name, ip, true);
      }
  }

  lemma ConnectionIsWithin(origin: LocalOrigin, s: State, s': State)
    requires Safe(origin, s) && Connects(ForScanOrigin(origin), s, s')
    ensures s'.connections == s.connections + [s'.connections[|s'.connections| - 1]]
    ensures Within(origin, s'.connections[|s'.connections| - 1])
  {
    var client, host := ForScanOrigin(origin), s.current.host.value;
    var connection := s'.connections[|s'.connections| - 1];
    if host.Domain? {
      var lookup, answer :| Resolves(s.cache, client.resolver, host.name, lookup, answer)
                            && answer.Ok? && connection.ip in answer.value;
      AnswersAreAdmitted(s.cache, client.resolver, host.name, lookup, answer, connection.ip);
    }
    if s.previous != [] {
      ClientReachesNoFurther(origin, s.current, connection.ip);
    }
  }

  lemma StepKeepsSafe(origin: LocalOrigin, s: State, s': State)
    requires Safe(origin, s) && Step(ForScanOrigin(origin), s, s')
    ensures Safe(origin, s')
  {
    if Connects(ForScanOrigin(origin), s, s') {
      ConnectionIsWithin(origin, s, s');
    }
  }

  /**
   * In every run of the client chosen for an origin, whatever the redirects,
   * the answers of lookups and the contents of the cache: each connection made
   * after a redirect is one the origin's policy admits, each connection to a
   * named host is one the resolver's policy admits, and fewer than
   * `REDIRECT_LIMIT` urls are ever left behind.
   */
  lemma {:induction false} RunsAreSafe(origin: LocalOrigin, run: seq<State>, i: nat)
    requires IsRun(ForScanOrigin(origin), run) && i < |run|
    ensures Safe(origin, run[i])
  {
    if i > 0 {
      RunsAreSafe(origin, run, i - 1);
      StepKeepsSafe(origin, run[i - 1], run[i]);
    }
  }

  /** No run leaves ten urls behind, and a redirect is followed exactly while it would not. */
  lemma TenRedirectsAtMost(origin: LocalOrigin, run: seq<State>, i: nat, next: Url)
    requires IsRun(ForScanOrigin(origin), run) && i < |run|
    ensures |run[i].previous| < 10
    ensures Follows(ForScanOrigin(origin).redirects, run[i].previous, next)
       <==> ValidateRedirectTarget(next, ForScanOrigin(origin).redirects).Ok?
    ensures |run[i].previous| == 9 ==>
              !Follows(ForScanOrigin(origin).redirects, run[i].previous + [run[i].current], next)
  {
    RunsAreSafe(origin, run, i);
  }

  /** A run never reaches internal addresses after a redirect when it began at a public origin. */
  lemma PublicRunsStayPublic(origin: LocalOrigin, run: seq<State>, i: nat, j: nat)
    requires origin == Public || origin == LocalNetworkName
    requires IsRun(ForScanOrigin(origin), run) && i < |run| && j < |run[i].connections|
    requires run[i].connections[j].redirected
    ensures !IsPrivateOrInternalIp(run[i].connections[j].ip)
  {
    RunsAreSafe(origin, run, i);
    PolicyChain(run[i].connections[j].ip);
    assert Within(origin, run[i].connections[j]);
  }

  // ---------- the redirect check and the full check ----------

  /** The redirect check, which looks nothing up, and the resolver's check at connection time make up the full check. */
  lemma RedirectAndResolverCheckAll(url: Url, answers: Option<seq<Ip>>, policy: UrlPolicy)
    ensures FullyAdmitted(url, answers, policy)
       <==> && ValidateRedirectTarget(url, policy).Ok?
            && (url.host.value.Domain? && !IsLocalDevDomain(Normalized(url.host.value.name)) ==>
                  answers.Some? && Usable(url.host.value.name, answers.value, policy))
  {
  }

  // ---------- origins of resolved names ----------

  method ClassifyResolved(host: Host, lookup: Option<seq<Ip>>) returns (origin: LocalOrigin)
    ensures origin == if host.Domain? && Classify(host) == Public && lookup.Some? && PrivateOnly(lookup.value)
                      then PrivateNetwork else Classify(host)
  {
    var sync := Classify(host);
    if host.Literal? || sync != Public || lookup.None? {
      return sync;
    }
    origin := FromResolvedAddresses(sync, lookup.value);
  }

  /**
   * A public-looking name gets the private client only if that client may reach
   * every answer; otherwise the client it gets refuses each private answer.
   */
  lemma PromotionMatchesReach(name: string, answers: seq<Ip>, ip: Ip)
    requires Classify(Domain(name)) == Public && ip in answers
    ensures PrivateOnly(answers) ==> AdmitsHost(ForScanOrigin(PrivateNetwork).resolver, Domain(name), ip)
    ensures IsPrivateNetworkIp(ip) ==> !AdmitsHost(ForScanOrigin(Public).resolver, Domain(name), ip)
  {
    PolicyChain(ip);
  }
}
