/** Which addresses and hosts each URL policy admits, and how local a scan target is. */
module NetworkPolicy {
  import opened Texts
  import opened Wrappers
  import opened IpAddresses

  datatype UrlPolicy = ScanTarget | Scan | ExternalCallback | Redirect(allowLocalDev: bool)
  {
    predicate AllowLocalDev() {
      ScanTarget? || Scan? || (Redirect? && allowLocalDev)
    }

    predicate AllowsPrivateNetwork() {
      ScanTarget?
    }
  }

  datatype Refusal =
    | UnsupportedScheme(scheme: string)
    | MissingHost
    | CloudMetadata
    | LocalhostRefused
    | NonLoopbackThroughLocalhost(ip: Ip)
    | LoopbackThroughOtherName(ip: Ip)
    | InternalAddress(ip: Ip)
    | Unresolvable

  type Verdict = Result<(), Refusal>

  datatype Host = Literal(ip: Ip) | Domain(name: string)

  datatype Url = Url(scheme: string, host: Option<Host>)

  datatype LocalOrigin = Loopback | LocalhostDomain | LocalNetworkName | PrivateNetwork | Public

  // ---------- names ----------

  function LowerCase(c: char): char {
    if 'A' <= c <= 'Z' then (c as int + 32) as char else c
  }

  function WithoutTrailingDots(name: string): string {
    if name != "" && name[|name| - 1] == '.' then WithoutTrailingDots(name[..|name| - 1]) else name
  }

  function Normalized(name: string): string {
    var trimmed := WithoutTrailingDots(name);
    seq(|trimmed|, i requires 0 <= i < |trimmed| => LowerCase(trimmed[i]))
  }

  /** A trailing dot makes no difference, and normalizing twice is normalizing once. */
  lemma NormalizedNames(name: string)
    ensures Normalized(name + ".") == Normalized(name)
    ensures Normalized(Normalized(name)) == Normalized(name)
  {
    assert (name + ".")[..|name|] == name;
    NoTrailingDot(name);
    var trimmed, normalized := WithoutTrailingDots(name), Normalized(name);
    assert normalized != "" ==> normalized[|normalized| - 1] == LowerCase(trimmed[|trimmed| - 1]) != '.';
    assert WithoutTrailingDots(normalized) == normalized;
  }

  lemma {:induction false} NoTrailingDot(name: string)
    ensures var trimmed := WithoutTrailingDots(name); trimmed != "" ==> trimmed[|trimmed| - 1] != '.'
  {
    if name != "" && name[|name| - 1] == '.' {
      NoTrailingDot(name[..|name| - 1]);
    }
  }

  /** A localhost name, section 6.3 of RFC 6761; the name is already normalized. */
  predicate IsLocalDevDomain(normalized: string) {
    normalized == "localhost" || EndsWith(normalized, ".localhost")
  }

  /** Normalizing drops the dots at the end and writes each capital letter small. */
  lemma NamesAreNormalized(name: string, dots: string, i: nat)
    requires name == "" || name[|name| - 1] != '.'
    requires forall c | c in dots :: c == '.'
    requires i < |name|
    ensures |Normalized(name + dots)| == |name|
    ensures var c, lowered := name[i], Normalized(name + dots)[i];
            if 'A' <= c <= 'Z' then lowered as int - 'a' as int == c as int - 'A' as int else lowered == c
  {
    DotsAreDropped(name, dots);
  }

  lemma {:induction false} DotsAreDropped(name: string, dots: string)
    requires name == "" || name[|name| - 1] != '.'
    requires forall c | c in dots :: c == '.'
    ensures WithoutTrailingDots(name + dots) == name
    decreases |dots|
  {
    if dots == "" {
      assert name + dots == name;
    } else {
      var fewer := dots[..|dots| - 1];
      assert dots[|dots| - 1] in dots && forall c | c in fewer :: c in dots;
      assert (name + dots)[..|name + dots| - 1] == name + fewer;
      DotsAreDropped(name, fewer);
    }
  }

  /** The localhost names are `localhost` and whatever ends in `.localhost`. */
  lemma LocalhostNames(normalized: string)
    ensures IsLocalDevDomain(normalized) <==>
            normalized == "localhost" || exists front :: normalized == front + ".localhost"
  {
    EndsWithIsSuffix(normalized, ".localhost");
  }

  const METADATA_HOST := "metadata.google.internal"

  // ---------- addresses ----------

  function ValidateIpTarget(ip: Ip, policy: UrlPolicy): Verdict {
    if policy.AllowLocalDev() && IsLoopbackIp(ip) then Ok(())
    else if policy.AllowsPrivateNetwork() && IsPrivateNetworkIp(ip) then Ok(())
    else if IsPrivateOrInternalIp(ip) then Err(InternalAddress(ip))
    else Ok(())
  }

  predicate Admits(policy: UrlPolicy, ip: Ip) {
    ValidateIpTarget(ip, policy).Ok?
  }

  /**
   * The reach of the policies over all literal addresses: callbacks and public
   * redirects reach no internal address, local redirects and scans add exactly
   * loopback, and a named target adds exactly the private networks.
   */
  lemma PolicyChain(ip: Ip)
    ensures Admits(ExternalCallback, ip) <==> !IsPrivateOrInternalIp(ip)
    ensures Admits(Redirect(false), ip) <==> Admits(ExternalCallback, ip)
    ensures Admits(Scan, ip) <==> Admits(Redirect(true), ip)
    ensures Admits(Scan, ip) && !Admits(ExternalCallback, ip) <==> IsLoopbackIp(ip)
    ensures Admits(ScanTarget, ip) && !Admits(ExternalCallback, ip) <==> IsPrivateNetworkIp(ip)
    ensures Admits(ExternalCallback, ip) ==> Admits(Scan, ip)
    ensures Admits(Scan, ip) ==> Admits(ScanTarget, ip)
  {
    hide IsPrivateOrInternalIp, IsPrivateNetworkIp, IsLoopbackIp;
    PrivateNetworkIsInternal(ip);
  }

  /** No embedding of an IPv4 address reaches further than the address itself under the callback policy. */
  lemma EmbeddingsReachNoFurther(ip: bv32, other: bv32, s3: bv16, s4: bv16, s5: bv16, s6: bv16, s7: bv16)
    ensures Admits(ExternalCallback, Mapped(ip)) <==> Admits(ExternalCallback, V4(ip))
    ensures Admits(ExternalCallback, Compatible(ip)) <==> Admits(ExternalCallback, V4(ip))
    ensures Admits(ExternalCallback, Nat64(ip)) <==> Admits(ExternalCallback, V4(ip))
    ensures Admits(ExternalCallback, SixToFour(ip, s3, s4, s5, s6, s7)) <==> Admits(ExternalCallback, V4(ip))
    ensures Admits(ExternalCallback, Teredo(ip, s4, s5, other))
       <==> Admits(ExternalCallback, V4(ip)) && Admits(ExternalCallback, V4(other))
  {
    MappedFollowsIpv4(ip);
    CompatibleFollowsIpv4(ip);
    Nat64FollowsIpv4(ip);
    SixToFourFollowsIpv4(ip, s3, s4, s5, s6, s7);
    TeredoFollowsIpv4(ip, s4, s5, other);
  }

  /** Which policies make the two exceptions: loopback through localhost names, and private networks. */
  lemma ExceptionsByPolicy(policy: UrlPolicy, ip: Ip)
    ensures policy.AllowLocalDev() <==> policy in {ScanTarget, Scan, Redirect(true)}
    ensures policy.AllowsPrivateNetwork() <==> policy == ScanTarget
    ensures Admits(policy, ip) <==>
            || !IsPrivateOrInternalIp(ip)
            || (IsLoopbackIp(ip) && policy in {ScanTarget, Scan, Redirect(true)})
            || (IsPrivateNetworkIp(ip) && policy == ScanTarget)
  {
    hide IsPrivateOrInternalIp, IsPrivateNetworkIp, IsLoopbackIp;
  }

  // ---------- resolved names ----------

  function ValidateResolvedDomainIpTarget(domain: string, ip: Ip, policy: UrlPolicy): Verdict {
    if IsLocalDevDomain(Normalized(domain)) then
      if !policy.AllowLocalDev() then Err(LocalhostRefused)
      else if IsLoopbackIp(ip) then Ok(())
      else Err(NonLoopbackThroughLocalhost(ip))
    else if IsLoopbackIp(ip) then Err(LoopbackThroughOtherName(ip))
    else ValidateIpTarget(ip, policy)
  }

  /** The host may be reached at this address under the policy. */
  predicate AdmitsHost(policy: UrlPolicy, host: Host, ip: Ip) {
    match host
    case Literal(own) => ip == own && Admits(policy, ip)
    case Domain(name) => ValidateResolvedDomainIpTarget(name, ip, policy).Ok?
  }

  /** The check made when an address family has already been resolved: outside localhost, scans and redirects agree. */
  lemma OutsideLocalhostScansAreRedirects(domain: string, ip: Ip, allowLocalDev: bool)
    requires !IsLocalDevDomain(Normalized(domain))
    ensures ValidateResolvedDomainIpTarget(domain, ip, Scan)
         == ValidateResolvedDomainIpTarget(domain, ip, Redirect(allowLocalDev))
  {
  }

  /** Loopback is reached by name only through a localhost name, a localhost name reaches nothing else, and other addresses are judged as literals are. */
  lemma LoopbackOnlyThroughLocalhost(policy: UrlPolicy, name: string, ip: Ip)
    ensures IsLoopbackIp(ip) ==>
              (AdmitsHost(policy, Domain(name), ip) <==> IsLocalDevDomain(Normalized(name)) && policy.AllowLocalDev())
    ensures !IsLoopbackIp(ip) ==>
              (AdmitsHost(policy, Domain(name), ip) <==> !IsLocalDevDomain(Normalized(name)) && Admits(policy, ip))
  {
  }

  /** Which refusal an address meets: the three ways a name may not be used, and otherwise that of the address itself. */
  lemma RefusalsAreTold(domain: string, ip: Ip, policy: UrlPolicy)
    ensures !Admits(policy, ip) ==> ValidateIpTarget(ip, policy) == Err(InternalAddress(ip))
    ensures var name, verdict := Normalized(domain), ValidateResolvedDomainIpTarget(domain, ip, policy);
            if name == "localhost" || exists front :: name == front + ".localhost" then
              if policy !in {ScanTarget, Scan, Redirect(true)} then verdict == Err(LocalhostRefused)
              else if IsLoopbackIp(ip) then verdict == Ok(())
              else verdict == Err(NonLoopbackThroughLocalhost(ip))
            else if IsLoopbackIp(ip) then verdict == Err(LoopbackThroughOtherName(ip))
            else verdict == if Admits(policy, ip) then Ok(()) else Err(InternalAddress(ip))
  {
    hide IsLoopbackIp, IsPrivateNetworkIp, IsPrivateOrInternalIp, Normalized;
    LocalhostNames(Normalized(domain));
  }

  function ValidateRedirectTarget(url: Url, policy: UrlPolicy): Verdict {
    if url.scheme != "http" && url.scheme != "https" then Err(UnsupportedScheme(url.scheme))
    else match url.host
      case None => Err(MissingHost)
      case Some(Literal(ip)) => ValidateIpTarget(ip, policy)
      case Some(Domain(name)) =>
        var normalized := Normalized(name);
        if normalized == METADATA_HOST then Err(CloudMetadata)
        else if IsLocalDevDomain(normalized) && !policy.AllowLocalDev() then Err(LocalhostRefused)
        else Ok(())
  }

  /** What validating a named host means, given the answers of its lookup. */
  ghost predicate DomainAdmitted(domain: string, answers: Option<seq<Ip>>, policy: UrlPolicy) {
    && Normalized(domain) != METADATA_HOST
    && if IsLocalDevDomain(Normalized(domain)) then policy.AllowLocalDev()
       else
         && answers.Some? && answers.value != []
         && forall i | 0 <= i < |answers.value| :: AdmitsHost(policy, Domain(domain), answers.value[i])
  }

  method ValidateDomainTarget(domain: string, answers: Option<seq<Ip>>, policy: UrlPolicy) returns (verdict: Verdict)
    ensures verdict.Ok? <==> DomainAdmitted(domain, answers, policy)
    ensures Normalized(domain) == "metadata.google.internal" ==> verdict == Err(CloudMetadata)
    ensures Normalized(domain) == "localhost" && !policy.AllowLocalDev() ==> verdict == Err(LocalhostRefused)
    ensures Normalized(domain) != METADATA_HOST && !IsLocalDevDomain(Normalized(domain)) && verdict.Err? ==>
              if answers == None || answers == Some([]) then verdict == Err(Unresolvable)
              else exists i :: 0 <= i < |answers.value|
                               && verdict == ValidateResolvedDomainIpTarget(domain, answers.value[i], policy)
                               && forall j | 0 <= j < i :: AdmitsHost(policy, Domain(domain), answers.value[j])
  {
    var normalized := Normalized(domain);
    if normalized == METADATA_HOST {
      return Err(CloudMetadata);
    }
    if IsLocalDevDomain(normalized) {
      return if policy.AllowLocalDev() then Ok(()) else Err(LocalhostRefused);
    }
    if answers.None? {
      return Err(Unresolvable);
    }
    var sawAddr := false;
    for i := 0 to |answers.value|
      invariant sawAddr <==> i > 0
      invariant forall j | 0 <= j < i :: AdmitsHost(policy, Domain(domain), answers.value[j])
    {
      sawAddr := true;
      verdict := ValidateResolvedDomainIpTarget(domain, answers.value[i], policy);
      if verdict.Err? {
        return;
      }
    }
    return if sawAddr then Ok(()) else Err(Unresolvable);
  }

  /** What the full check of a url admits, given the answers of its lookup. */
  ghost predicate FullyAdmitted(url: Url, answers: Option<seq<Ip>>, policy: UrlPolicy) {
    && (url.scheme == "http" || url.scheme == "https")
    && match url.host
       case None => false
       case Some(Literal(ip)) => Admits(policy, ip)
       case Some(Domain(name)) => DomainAdmitted(name, answers, policy)
  }

  method ValidateUrlTarget(url: Url, answers: Option<seq<Ip>>, policy: UrlPolicy) returns (verdict: Verdict)
    ensures verdict.Ok? <==> FullyAdmitted(url, answers, policy)
    ensures url.scheme !in {"http", "https"} ==> verdict == Err(UnsupportedScheme(url.scheme))
    ensures url.scheme in {"http", "https"} && url.host == None ==> verdict == Err(MissingHost)
    ensures url.host.Some? && url.host.value.Domain? && Normalized(url.host.value.name) == "metadata.google.internal" ==>
              verdict.Err?
  {
    if url.scheme != "http" && url.scheme != "https" {
      return Err(UnsupportedScheme(url.scheme));
    }
    match url.host {
      case None => verdict := Err(MissingHost);
      case Some(Literal(ip)) => verdict := ValidateIpTarget(ip, policy);
      case Some(Domain(name)) => verdict := ValidateDomainTarget(name, answers, policy);
    }
  }

  // ---------- origins ----------

  function Classify(host: Host): LocalOrigin {
    match host
    case Literal(V4(ip)) =>
      if IsLoopback4(ip) then Loopback
      else if IsUnspecified4(ip) then LocalNetworkName
      else if IsPrivateNetworkIp(V4(ip)) then PrivateNetwork
      else Public
    case Literal(V6(ip)) =>
      if IsLoopback6(ip) then Loopback
      else if IsPrivateNetworkIp(V6(ip)) then PrivateNetwork
      else Public
    case Domain(name) =>
      var normalized := Normalized(name);
      if normalized == "localhost" then Loopback
      else if EndsWith(normalized, ".localhost") then LocalhostDomain
      else if EndsWith(normalized, ".local") then LocalNetworkName
      else Public
  }

  function SubordinatePolicy(origin: LocalOrigin): UrlPolicy {
    match origin
    case PrivateNetwork => ScanTarget
    case Loopback => Redirect(true)
    case LocalhostDomain => Redirect(true)
    case LocalNetworkName => Redirect(false)
    case Public => Redirect(false)
  }

  /** A page on a literal address may lead back to that address exactly when a person may name it. */
  lemma LiteralOriginsReachThemselves(ip: Ip)
    ensures Admits(SubordinatePolicy(Classify(Literal(ip))), ip) <==> Admits(ScanTarget, ip)
  {
    PolicyChain(ip);
    if ip.V4? {
      UnspecifiedIsNoPrivateNetwork(ip.v4);
    }
  }

  lemma UnspecifiedIsNoPrivateNetwork(ip: bv32)
    ensures IsUnspecified4(ip) ==> !IsPrivateNetwork4(ip)
  {
  }

  /** Among names, exactly the localhost ones earn their pages local reach, and no name earns private reach by itself. */
  lemma NamedOriginsAreLocalIfLocalhost(name: string)
    ensures SubordinatePolicy(Classify(Domain(name))).AllowLocalDev() <==> IsLocalDevDomain(Normalized(name))
    ensures !SubordinatePolicy(Classify(Domain(name))).AllowsPrivateNetwork()
  {
  }

  /** Which hosts are loopback and which are a local environment at all. */
  lemma OriginsByKind(host: Host)
    ensures Classify(host) == Loopback <==>
            (host.Literal? && IsLoopbackIp(host.ip)) || (host.Domain? && Normalized(host.name) == "localhost")
    ensures Classify(host) != Public <==>
            (host.Literal? && (IsPrivateNetworkIp(host.ip) || host.ip == V4(0)))
            || (host.Domain? && (IsLocalDevDomain(Normalized(host.name)) || EndsWith(Normalized(host.name), ".local")))
  {
    if host.Literal? {
      PrivateNetworkIsInternal(host.ip);
    }
  }

  /** The origin of a host in full: by address class for literals, by suffix for names. */
  lemma OriginsAreTold(host: Host)
    ensures host.Literal? ==>
              Classify(host) == if IsLoopbackIp(host.ip) then Loopback
                                else if host.ip == V4(0) then LocalNetworkName
                                else if IsPrivateNetworkIp(host.ip) then PrivateNetwork
                                else Public
    ensures host.Domain? ==>
              var name := Normalized(host.name);
              Classify(host) == if name == "localhost" then Loopback
                                else if exists front :: name == front + ".localhost" then LocalhostDomain
                                else if exists front :: name == front + ".local" then LocalNetworkName
                                else Public
  {
    hide IsPrivateNetworkIp, Normalized;
    match host
    case Literal(V4(ip)) => ZeroIsNoLoopback(ip);
    case Literal(V6(ip)) =>
    case Domain(name) =>
      EndsWithIsSuffix(Normalized(name), ".localhost");
      EndsWithIsSuffix(Normalized(name), ".local");
  }

  lemma ZeroIsNoLoopback(ip: bv32)
    ensures IsUnspecified4(ip) <==> ip == 0
    ensures IsLoopback4(ip) ==> ip != 0
  {
  }

  /** Every answer is a private address of another machine, and there is one. */
  ghost predicate PrivateOnly(answers: seq<Ip>) {
    && answers != []
    && forall ip | ip in answers :: !IsLoopbackIp(ip) && IsPrivateNetworkIp(ip)
  }

  method FromResolvedAddresses(sync: LocalOrigin, answers: seq<Ip>) returns (origin: LocalOrigin)
    ensures origin == if PrivateOnly(answers) then PrivateNetwork else sync
    ensures origin == if answers != [] && forall ip | ip in answers :: IsPrivateNetworkIp(ip) && !IsLoopbackIp(ip)
                      then PrivateNetwork else sync
  {
    var privateOnly := false;
    for i := 0 to |answers|
      invariant privateOnly <==> i > 0
      invariant forall j | 0 <= j < i :: !IsLoopbackIp(answers[j]) && IsPrivateNetworkIp(answers[j])
    {
      if IsLoopbackIp(answers[i]) || !IsPrivateNetworkIp(answers[i]) {
        return sync;
      }
      privateOnly := true;
    }
    return if privateOnly then PrivateNetwork else sync;
  }

  /** The order of the answers, and how often each is repeated, makes no difference. */
  lemma AnswerOrderIsIrrelevant(answers: seq<Ip>, answers': seq<Ip>)
    requires forall ip :: ip in answers <==> ip in answers'
    ensures PrivateOnly(answers) <==> PrivateOnly(answers')
  {
    if answers != [] {
      assert answers[0] in answers';
    }
    if answers' != [] {
      assert answers'[0] in answers;
    }
  }
}
