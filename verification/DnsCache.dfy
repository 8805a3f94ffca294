/** The caching resolver: answers are measured against the policy when fetched and again on every hit. */
module DnsCache {
  import opened Wrappers
  import opened IpAddresses
  import opened NetworkPolicy

  type Cache = map<string, seq<Ip>>

  type Answer = Result<seq<Ip>, Refusal>

  /** An answer that may be used: there are addresses, and the policy admits each of them for the host. */
  ghost predicate Usable(host: string, addrs: seq<Ip>, policy: UrlPolicy) {
    addrs != [] && forall i | 0 <= i < |addrs| :: AdmitsHost(policy, Domain(host), addrs[i])
  }

  /** The addresses a resolution has to judge: the cached ones if there are any, otherwise the looked-up ones. */
  function Candidates(cache: Cache, host: string, lookup: Option<seq<Ip>>): Option<seq<Ip>> {
    if host in cache then Some(cache[host]) else lookup
  }

  /** A resolution hands out exactly its candidates when they are usable, and fails otherwise. */
  ghost predicate Resolves(cache: Cache, policy: UrlPolicy, host: string, lookup: Option<seq<Ip>>, answer: Answer) {
    var candidates := Candidates(cache, host, lookup);
    if candidates.Some? && Usable(host, candidates.value, policy)
    then answer == Ok(candidates.value)
    else answer.Err?
  }

  /** Only a usable answer that was just looked up is stored. */
  ghost function CacheAfter(cache: Cache, policy: UrlPolicy, host: string, lookup: Option<seq<Ip>>): Cache {
    if host !in cache && lookup.Some? && Usable(host, lookup.value, policy)
    then cache[host := lookup.value]
    else cache
  }

  ghost predicate AllUsable(cache: Cache, policy: UrlPolicy) {
    forall host | host in cache :: Usable(host, cache[host], policy)
  }

  method ValidateResolvedAddrs(host: string, addrs: seq<Ip>, policy: UrlPolicy) returns (verdict: Verdict)
    ensures verdict.Ok? <==> Usable(host, addrs, policy)
    ensures addrs == [] ==> verdict == Err(Unresolvable)
    ensures addrs != [] && verdict.Err? ==>
              exists i :: 0 <= i < |addrs| && verdict == ValidateResolvedDomainIpTarget(host, addrs[i], policy)
                          && forall j | 0 <= j < i :: AdmitsHost(policy, Domain(host), addrs[j])
  {
    if addrs == [] {
      return Err(Unresolvable);
    }
    for i := 0 to |addrs|
      invariant forall j | 0 <= j < i :: AdmitsHost(policy, Domain(host), addrs[j])
    {
      verdict := ValidateResolvedDomainIpTarget(host, addrs[i], policy);
      if verdict.Err? {
        return;
      }
    }
    return Ok(());
  }

  class CachedDnsResolver {
    var cache: Cache
    const policy: UrlPolicy

    constructor ForPolicy(policy: UrlPolicy)
      ensures this.policy == policy && cache == map[]
    {
      this.policy := policy;
      cache := map[];
    }

    method Store(host: string, addrs: seq<Ip>)
      modifies this`cache
      ensures cache == old(cache)[host := addrs]
    {
      cache := cache[host := addrs];
    }

    /** Entries leave the cache by age or for want of room. */
    method Evict(hosts: set<string>)
      modifies this`cache
      ensures cache == old(cache) - hosts
    {
      cache := cache - hosts;
    }

    /** `lookup` is what the system resolver would answer. */
    method Resolve(host: string, lookup: Option<seq<Ip>>) returns (answer: Answer)
      modifies this`cache
      ensures Resolves(old(cache), policy, host, lookup, answer)
      ensures cache == CacheAfter(old(cache), policy, host, lookup)
      ensures host in old(cache) ==> cache == old(cache) && (answer.Ok? ==> answer.value == old(cache)[host])
      ensures host !in old(cache) && answer.Ok? ==>
                lookup == Some(answer.value) && cache == old(cache)[host := answer.value]
      ensures answer.Err? ==> cache == old(cache)
    {
      if host in cache {
        var verdict := ValidateResolvedAddrs(host, cache[host], policy);
        return if verdict.Ok? then Ok(cache[host]) else Err(verdict.error);
      }
      if lookup.None? {
        return Err(Unresolvable);
      }
      var verdict := ValidateResolvedAddrs(host, lookup.value, policy);
      if verdict.Err? {
        return Err(verdict.error);
      }
      Store(host, lookup.value);
      return Ok(lookup.value);
    }
  }

  /** An answer that is cached or else looked up is handed out exactly if it holds addresses and each is admitted. */
  lemma ResolutionIsTold(cache: Cache, policy: UrlPolicy, host: string, lookup: Option<seq<Ip>>, answer: Answer)
    requires Resolves(cache, policy, host, lookup, answer)
    ensures host in cache ==>
              if cache[host] != [] && forall ip | ip in cache[host] :: AdmitsHost(policy, Domain(host), ip)
              then answer == Ok(cache[host]) else answer.Err?
    ensures host !in cache && lookup.Some? ==>
              if lookup.value != [] && forall ip | ip in lookup.value :: AdmitsHost(policy, Domain(host), ip)
              then answer == Ok(lookup.value) else answer.Err?
    ensures host !in cache && lookup.None? ==> answer.Err?
  {
  }

  /** Whatever the cache holds, planted entries included, every address handed out is admitted. */
  lemma AnswersAreAdmitted(cache: Cache, policy: UrlPolicy, host: string, lookup: Option<seq<Ip>>, answer: Answer, ip: Ip)
    requires Resolves(cache, policy, host, lookup, answer) && answer.Ok? && ip in answer.value
    ensures AdmitsHost(policy, Domain(host), ip)
  {
  }

  /** Resolving and evicting keep a cache of usable answers. */
  lemma CacheStaysUsable(cache: Cache, policy: UrlPolicy, host: string, lookup: Option<seq<Ip>>, evicted: set<string>)
    requires AllUsable(cache, policy)
    ensures AllUsable(CacheAfter(cache, policy, host, lookup), policy)
    ensures AllUsable(cache - evicted, policy)
  {
  }
}
