# SiteCMD: a verified model of its matching, causal, network and source-scanning logic

This project models the parts of SiteCMD whose correctness is hardest to see from the code, and proves what they promise:

- **Suppression globs** (`GlobTokens`, `GlobMatcher`, `GlobPatterns`, `RepoSuppressions`): the tokenizer, the simulation that advances all offsets through two swapped buffers, whole patterns, and the split of scan rows into kept and ignored ones. The simulation is proved to decide whether the path can be divided among the tokens.
- **Causal graph** (`CausalGraph`, `CausalSearch`, `CausalWalks`, `TransitiveCauses`, `DownstreamEffects`, `CausalDuality`, `DisplayConfidence`, `CausalAnswers`, `WhatIf`, `WhatIfAnswers`, `DeployRisk`, `CausalRanking`): both breadth-first searches, calibrated confidence, the shown confidence, what-if predictions, deploy risk and ranking. The searches are proved exact and shortest on every graph, cycles included, and their lists dual to each other.
- **Network policy** (`IpAddresses`, `NetworkPolicy`, `DnsCache`, `HttpClient`, `BodyReader`): address classes over all 32-bit and 128-bit addresses, host and origin rules, the resolver that judges its cache again on every hit, and runs of a client through redirects, lookups and connections, whatever the answers and the cache. Body reading stays within its budget.
- **Source scanning** (`RustScanner`, `RustTokens`, `RustReading`, `RustForms`, `CfgPredicate`, `SourceExcision`, `WrapperTracker`, `WrapperReports`): the block scanner of the guardrails is proved to find the end of a block exactly where the tokens of the text tell it, on every source, the `cfg` classifier to accept exactly its forms, the module exciser to keep line numbers, and the wrapper stack to agree with the nesting of the source and, bracketed well or not, with its bracket depths.
- **Prompt batches** (`PromptBatch`): the bounded join of fix prompts.

Code that changes variables step by step is a method with loops, proved against a specification; the resolver is a class. The specification functions stand beside lemmas that say what they mean. Beside the theorems that speak through the model's own definitions there are others that tell the same operations from literal text, links and numbers (`RustForms`, `CausalAnswers`, `WhatIfAnswers`, `WrapperReports`, and lemmas named `..Told`, `..Covers` or `..Passed`). `Wrappers` and `Texts` hold small shared definitions.

Inputs taken as given: database rows, links and observations; the calendar day; the fingerprint function; DNS answers, cache evictions and the arrival of body chunks (all arbitrary); parsed URLs; the module-header pattern, as any function that returns an in-range, nonempty match; the collation of ids, as any total and transitive comparison; the entry text of a fix prompt.

## Where the code and its own words differ

- `apps/mcp-server/src/db_correlation.ts:384` says the shown confidence mirrors the desktop by taking the maximum calibrated confidence. The maximum is the same, the calibration is not: the desktop's single precision 0.7 + 0.2 is 0.9, so a well-confirmed medium link becomes high there (expected in `apps/desktop/src-tauri/src/core/correlation/observations.rs:61-68`), while in double arithmetic the sum is less than 0.9 and the link stays medium here. `CausalGraph.DesktopIsMirrored` states exactly when the two agree, `CausalGraph.OnlyHighStaysHigh` when a link ends up high here.
- `apps/desktop/src-tauri/src/network_policy.rs:55-58` says the redirect exception applies to `.localhost` names, and their subordinate policy grants it, but `for_scan_origin` hands them the public client, which refuses such redirects. `HttpClient.LocalhostDomainLosesItsException` states exactly which ones.
- The three file tests of `previewDeployRisk` are one: `DeployRisk.FileMatchesIffEndsWith`.
- The forward search does not expand a check with an empty name (`CausalWalks.EmptyNameHasNoEffects`), the backward search does. Duality and closure are therefore stated for graphs the loader accepts, which have no empty names (`CausalGraph.ParseCausalGraph`).

## Model

| member | source | states |
|---|---|---|
| GlobTokens.TokenizeGlob | apps/mcp-server/src/suppressions.ts:75-92 | the tokens' spellings concatenate back to the pattern text |
| GlobTokens.NextToken | apps/mcp-server/src/suppressions.ts:78-89 | the token at an offset and how many characters it takes, with `**/` before `**` before `*` |
| GlobTokens.TokenizingIsLossless | apps/mcp-server/src/suppressions.ts:75-92 | spelling undoes tokenizing for every text |
| GlobTokens.TokenizingInvertsSpelling | apps/mcp-server/src/suppressions.ts:68-92 | tokenizing undoes spelling exactly on the token lists in which no `*` or `?` is a literal and no neighbours would have merged |
| GlobMatcher.MarkStarts | apps/mcp-server/src/suppressions.ts:101-110 | the marked offsets are the permitted starts: the front, and unless anchored every segment start |
| GlobMatcher.AdvanceOneCharacter | apps/mcp-server/src/suppressions.ts:114-127 | whatever the second buffer held, it ends up with exactly the offsets one literal or `?` reaches from a marked one |
| GlobMatcher.AdvanceSegmentRun | apps/mcp-server/src/suppressions.ts:128-136 | the same for `*`, whose run never crosses a separator |
| GlobMatcher.AdvancePathRun | apps/mcp-server/src/suppressions.ts:137-144 | the same for `**` |
| GlobMatcher.AdvanceDescendantPrefix | apps/mcp-server/src/suppressions.ts:145-153 | the same for `**/`, which takes nothing or a run ending in a separator |
| GlobMatcher.ReachedExtended | apps/mcp-server/src/suppressions.ts:96-98 | after a token the marks are the offsets at which some split of the path among the tokens so far can end |
| GlobMatcher.DeadEnd | apps/mcp-server/src/suppressions.ts:158 | once no offset is marked no further tokens can match, so stopping early is right |
| GlobMatcher.AnyEnd | apps/mcp-server/src/suppressions.ts:161-166 | found exactly when a marked offset lies at the path's end or before a separator |
| GlobMatcher.MatchesGlobTokens | apps/mcp-server/src/suppressions.ts:94-167 | true exactly when from some permitted start the path can be split among the tokens up to its end or a separator; the passes over single offsets are at most 3·(tokens+1)·(length+1) |
| GlobPatterns.PathMatchesSuppression | apps/mcp-server/src/suppressions.ts:169-175 | decides coverage of the normalized path by the pattern without its outer slashes, anchored by a leading or inner slash |
| GlobPatterns.MatchesThroughAncestor | apps/mcp-server/src/suppressions.ts:161-166 | a path matches exactly when it or a directory above it is consumed completely |
| GlobPatterns.DirectoryCoversChildren | apps/mcp-server/src/suppressions.ts:161-169 | a pattern that covers a directory covers every path beneath it |
| GlobPatterns.SlashFreeIsDescendant | apps/mcp-server/src/suppressions.ts:104-110 | a nonempty pattern without a slash means the same as with `**/` in front |
| GlobPatterns.SlashFreeIsAnchoredSomewhere | apps/mcp-server/src/suppressions.ts:104-110 | and the same as that pattern anchored at some segment of the path |
| GlobPatterns.TrailingSlashIsIgnored | apps/mcp-server/src/suppressions.ts:171-173 | one trailing slash changes nothing |
| GlobPatterns.PlainPatternCovers | apps/mcp-server/src/suppressions.ts:64-67 | an anchored text without metacharacters covers exactly that path and what lies beneath it |
| GlobPatterns.InnerSlashAnchors | apps/mcp-server/src/suppressions.ts:169-175 | a pattern with an inner slash means the same as with a leading one |
| GlobPatterns.PlainPathIsCovered | apps/mcp-server/src/suppressions.ts:161-175 | between slashes a text without metacharacters covers exactly that path and what lies beneath it, backslashes in the path read as slashes |
| GlobPatterns.QuestionMarkCovers | apps/mcp-server/src/suppressions.ts:120-127 | among plain text `?` stands for exactly one character other than a slash |
| GlobPatterns.StarCovers | apps/mcp-server/src/suppressions.ts:128-136 | `*` stands for any text without a slash |
| GlobPatterns.DoubleStarCovers | apps/mcp-server/src/suppressions.ts:137-144 | `**` not followed by a slash stands for any text |
| GlobPatterns.DescendantCovers | apps/mcp-server/src/suppressions.ts:145-153 | `**` and a slash stand for nothing or any text that ends in a slash |
| RepoSuppressions.Matches | apps/mcp-server/src/suppressions.ts:278-289 | an entry hits when each of rule, fingerprint and path that it gives agrees |
| RepoSuppressions.WithoutExpired | apps/mcp-server/src/suppressions.ts:239-245 | the entries that have not expired, in order |
| RepoSuppressions.ExpiredEntriesAreInert | apps/mcp-server/src/suppressions.ts:297-299 | dropping expired entries first changes no verdict |
| RepoSuppressions.FindHit | apps/mcp-server/src/suppressions.ts:310 | the first entry that hits, or none |
| RepoSuppressions.VerdictIsFirst | apps/mcp-server/src/suppressions.ts:310-312 | a row is ignored exactly when some live entry suppresses it, with the reason of the first one |
| RepoSuppressions.VerdictOfOneEntry | apps/mcp-server/src/suppressions.ts:239-312 | one entry ignores a row exactly if it has not expired before the day, the row is a finding, and each of rule, fingerprint and path that the entry gives agrees |
| RepoSuppressions.SidesFollowVerdicts | apps/mcp-server/src/suppressions.ts:301-314 | a row is kept exactly without a verdict and ignored exactly with the reason of its verdict |
| RepoSuppressions.ApplyRepoSuppressions | apps/mcp-server/src/suppressions.ts:291-315 | kept and ignored rows are those without and with a verdict, in order, on the day given |
| RepoSuppressions.PartitionConservesRows | apps/mcp-server/src/suppressions.ts:301-314 | the rows are an order-preserving merge of the two lists |
| RepoSuppressions.LaterEntriesOnlyIgnoreMore | apps/mcp-server/src/suppressions.ts:309-312 | adding entries at the end brings no row back and changes no reason |
| CausalGraph.ParseCausalGraph | apps/mcp-server/src/causal_graph.ts:32-53 | the graph loads link by link, cause, effect and confidence as written and no name empty, or fails at its first invalid record |
| CausalGraph.ObservationKeysAreDistinct | apps/mcp-server/src/db_correlation.ts:246-251 | joined keys tell pairs apart when cause names contain no bar |
| CausalGraph.BarsMakeKeysCollide | apps/mcp-server/src/db_correlation.ts:246-251 | with a bar in a name two pairs can share a key |
| CausalGraph.CalibratedByCounts | apps/mcp-server/src/db_correlation.ts:394-395 | a link is calibrated by the counts stored under its cause, a bar and its effect, and left as it is without any |
| CausalGraph.DynamicConfidenceIsMonotone | apps/mcp-server/src/db_correlation.ts:152-161 | a stronger base and more joint resolutions never give a weaker confidence |
| CausalGraph.OnlyHighStaysHigh | apps/mcp-server/src/db_correlation.ts:152-161 | the outcome is high exactly for a high base with few observations or at least a fifth of them resolved |
| CausalGraph.DynamicConfidenceMoves | apps/mcp-server/src/db_correlation.ts:152-161 | exactly when calibration weakens or strengthens a link, and by at most one level |
| CausalGraph.DesktopIsMirrored | apps/desktop/src-tauri/src/core/correlation/observations.rs:31-44 | the desktop's calibration is never weaker than this one, and differs exactly for a medium base with at least five observations of which more than seven tenths were resolved |
| CausalGraph.CalibrationIsMonotone | apps/mcp-server/src/db_correlation.ts:418-423 | the same through the lookup of a link's observation |
| CausalSearch.SearchIsExact | apps/mcp-server/src/db_correlation.ts:404-457 | on any graph each check some walk leads to is found once, nothing else is, and every recorded path is a walk |
| CausalSearch.RecordedPathsAreShortest | apps/mcp-server/src/db_correlation.ts:404-438 | no walk to a check is shorter than its recorded path |
| CausalWalks.SearchFindsShortestWalks | apps/mcp-server/src/db_correlation.ts:404-457 | the same with walks written as lists of linked, active checks |
| CausalWalks.EmptyNameHasNoEffects | apps/mcp-server/src/db_correlation.ts:445-446 | a check with an empty name has no downstream effects, whatever the links |
| TransitiveCauses.ComputeTransitiveCauses | apps/mcp-server/src/db_correlation.ts:404-438 | lists each active check that a backward walk of one to four links reaches, once, with a shortest such walk, its length and its weakest calibrated hop; nothing else; always terminates |
| TransitiveCauses.PathConfidenceIsWeakest | apps/mcp-server/src/db_correlation.ts:424-425 | the combined confidence is that of the least certain hop of the path |
| TransitiveCauses.DescribedCausesAreCorrect | apps/mcp-server/src/db_correlation.ts:404-438 | the search's log, described entry by entry, is a correct list of causes |
| TransitiveCauses.MoreResolvedKeepsCauses | apps/mcp-server/src/db_correlation.ts:418-425 | between two runs, more joint resolutions leave causes, order, depths and paths as they are and lower no confidence |
| DownstreamEffects.ComputeDownstreamEffects | apps/mcp-server/src/db_correlation.ts:440-457 | lists exactly the active checks at the end of nonempty forward walks, each once; always terminates |
| CausalDuality.CausesAndEffectsAreDual | apps/mcp-server/src/db_correlation.ts:404-457 | among active checks, one is listed as a cause of another at some depth exactly when the other is listed as its effect and that depth, at most four, is the length of the shortest forward walk between them |
| CausalAnswers.ListedCausesAreTold | apps/mcp-server/src/db_correlation.ts:404-438 | each cause listed is the end of one to four links back through active checks, as deep as its path is long, with the least confidence among its first links, each calibrated by its own counts |
| CausalAnswers.ToldCausesAreListed | apps/mcp-server/src/db_correlation.ts:404-438 | and the end of every such path is listed, no deeper than the path is long |
| CausalAnswers.EffectsAreTold | apps/mcp-server/src/db_correlation.ts:440-457 | the effects listed are the ends of the forward paths through active checks |
| CausalAnswers.OneLinkCause | apps/mcp-server/src/db_correlation.ts:404-438 | on one link the list of causes is exactly its cause, at depth one, with the link's calibrated confidence |
| CausalAnswers.OneLinkShown | apps/mcp-server/src/db_correlation.ts:385-402 | on one link exactly that confidence is shown |
| DisplayConfidence.ComputeDisplayConfidence | apps/mcp-server/src/db_correlation.ts:385-402 | nothing without a link from an active cause, otherwise the strongest calibrated one |
| DisplayConfidence.ShownIffCaused | apps/mcp-server/src/db_correlation.ts:385-438 | no confidence is shown exactly when the list of transitive causes is empty |
| DisplayConfidence.MoreResolvedKeepsShown | apps/mcp-server/src/db_correlation.ts:385-402 | more joint resolutions never lower the confidence shown |
| CausalAnswers.ShownIsTold | apps/mcp-server/src/db_correlation.ts:385-402 | what is shown is the strongest among the links from active causes, each calibrated by its own counts |
| WhatIf.WhatIfResolve | apps/mcp-server/src/db_correlation.ts:677-704 | one prediction for each effect hit, in order of first hit, with its strongest hit and the resolved check of every hit |
| WhatIf.Record | apps/mcp-server/src/db_correlation.ts:689-694 | one hit updates the confidence only if stronger and always extends the list of causes |
| WhatIf.HitsAreLinks | apps/mcp-server/src/db_correlation.ts:679-688 | the hits are exactly the links from a resolved check to an active effect, calibrated |
| WhatIf.BestIsStrongest | apps/mcp-server/src/db_correlation.ts:690 | the confidence is that of a hit and no hit beats it |
| WhatIf.OrderListsEffects | apps/mcp-server/src/db_correlation.ts:689-698 | exactly the effects hit are listed, each once |
| WhatIf.ViaListsCauses | apps/mcp-server/src/db_correlation.ts:691-693 | exactly the resolved checks that hit an effect are named for it |
| WhatIf.MoreResolvedKeepsPredictions | apps/mcp-server/src/db_correlation.ts:684-694 | more joint resolutions keep predictions, order and causes and lower no confidence |
| WhatIf.OrderIsByFirstHit | apps/mcp-server/src/db_correlation.ts:689-698 | predictions stand in the order in which their effects were first hit |
| WhatIfAnswers.PredictionsAreTold | apps/mcp-server/src/db_correlation.ts:677-704 | an effect is predicted exactly when some link leads to it, active, from a resolved check |
| WhatIfAnswers.PredictedConfidenceIsTold | apps/mcp-server/src/db_correlation.ts:683-690 | with the confidence of one of these links, calibrated by its own counts |
| WhatIfAnswers.NoLinkIsMoreCertain | apps/mcp-server/src/db_correlation.ts:690 | and none of these links is more certain |
| WhatIfAnswers.PredictionNamesItsCauses | apps/mcp-server/src/db_correlation.ts:691-693 | it names each resolved check once for every link, in the order resolved |
| WhatIfAnswers.OneLinkPrediction | apps/mcp-server/src/db_correlation.ts:677-704 | on one link the prediction is exactly its effect, its calibrated confidence and its cause |
| DeployRisk.MatchFiles | apps/mcp-server/src/db_correlation.ts:604-614 | the fix paths that some changed file names |
| DeployRisk.FileMatchesIffEndsWith | apps/mcp-server/src/db_correlation.ts:609 | the three file tests hold exactly when the last one does |
| DeployRisk.PreviewDeployRisk | apps/mcp-server/src/db_correlation.ts:593-638 | direct risks are the touched groups in order with the files that touch them and high confidence, downstream risks the untouched ones that forward walks reach from them, in the groups' order with medium confidence; the two are disjoint |
| DeployRisk.PreviewListsEachOnce | apps/mcp-server/src/db_correlation.ts:603-638 | with one group for each check, both lists follow the groups and no check occurs twice in them |
| DeployRisk.PreviewIsTold | apps/mcp-server/src/db_correlation.ts:603-638 | direct items are exactly the groups one of whose fix paths ends a changed file, with those paths and high confidence; downstream items carry no files, medium confidence, and are effects of direct ones |
| DeployRisk.PreviewIsLeastClosure | apps/mcp-server/src/db_correlation.ts:603-638 | both together are the least set with the touched checks that is closed under active links |
| CausalRanking.ComputeEffectiveRank | apps/mcp-server/src/causal_graph.ts:92-103 | the best severity among the issue and the active listed issues it affects |
| CausalRanking.RankWithCausalReach | apps/mcp-server/src/causal_graph.ts:87-112 | a permutation ordered by that rank, then own severity, then id, in which issues that tie keep their listed order |
| CausalRanking.StableOrderIsUnique | apps/mcp-server/src/causal_graph.ts:105-111 | such an order is the only one, whatever the ids and the collation |
| CausalRanking.BeforeIsTotal | apps/mcp-server/src/causal_graph.ts:105-111 | the comparator is total and transitive, and ties only issues of one id when the collation separates names |
| CausalRanking.SeveritiesInOrder | apps/mcp-server/src/severity.ts:3-14 | critical before high before medium before low before anything else |
| CausalRanking.RankIsTold | apps/mcp-server/src/causal_graph.ts:92-103 | the rank is the least among the issue and those first listed under the active effects of its links |
| CausalRanking.SortedIsTold | apps/mcp-server/src/causal_graph.ts:105-111 | of two ranked issues the earlier has the lesser rank, then the lesser severity rank, then no later id |
| CausalRanking.RankingIgnoresListing | apps/mcp-server/src/causal_graph.ts:87-112 | with distinct ids and a separating collation every listing of the same issues ranks the same |
| IpAddresses.OctetTestsAreBlocks | apps/desktop/src-tauri/src/network_policy.rs:394-435 | over all IPv4 addresses the octet tests describe exactly the listed blocks |
| IpAddresses.SegmentMasksAreRanges | apps/desktop/src-tauri/src/network_policy.rs:482-495 | the IPv6 masks cut out exactly these ranges of the first segment |
| IpAddresses.PrivateNetworkIsInternal | apps/desktop/src-tauri/src/network_policy.rs:384-450 | loopback is private-network, and private-network lies within the deny list |
| IpAddresses.PrivateNetworkIpv4 | apps/desktop/src-tauri/src/network_policy.rs:394-399 | over all IPv4 addresses a person's own networks and loopback, as ranges of numbers |
| IpAddresses.InternalIpv4 | apps/desktop/src-tauri/src/network_policy.rs:413-435 | over all IPv4 addresses the deny list, as ranges of numbers |
| IpAddresses.PrivateNetworkIpv6 | apps/desktop/src-tauri/src/network_policy.rs:400-407 | over all IPv6 addresses: loopback, fc00::/7 and the mapped IPv4 ones |
| IpAddresses.InternalIpv6 | apps/desktop/src-tauri/src/network_policy.rs:436-495 | over all IPv6 addresses: exactly the listed prefixes and the addresses that carry a denied IPv4 address in one of five ways |
| IpAddresses.PairIsNumber | apps/desktop/src-tauri/src/network_policy.rs:457-459 | two segments spell the number they are |
| IpAddresses.PairOfHalves | apps/desktop/src-tauri/src/network_policy.rs:457-465 | joining the halves of an address restores it, inverted halves to the inverse |
| IpAddresses.MappedFollowsIpv4 | apps/desktop/src-tauri/src/network_policy.rs:452-473 | a mapped address is denied exactly when its IPv4 address is |
| IpAddresses.CompatibleFollowsIpv4 | apps/desktop/src-tauri/src/network_policy.rs:452-473 | the same for compatible addresses, `::` and `::1` included |
| IpAddresses.Nat64FollowsIpv4 | apps/desktop/src-tauri/src/network_policy.rs:460-461 | the same for NAT64 addresses |
| IpAddresses.SixToFourFollowsIpv4 | apps/desktop/src-tauri/src/network_policy.rs:462 | the same for 6to4 addresses with any subnet and interface |
| IpAddresses.TeredoFollowsIpv4 | apps/desktop/src-tauri/src/network_policy.rs:463-465 | a Teredo address is denied exactly when its server or its inverted client is |
| NetworkPolicy.NormalizedNames | apps/desktop/src-tauri/src/network_policy.rs:252 | a trailing dot makes no difference and normalizing is idempotent |
| NetworkPolicy.NamesAreNormalized | apps/desktop/src-tauri/src/network_policy.rs:252 | the dots at the end are dropped and each capital letter is written small, nothing else |
| NetworkPolicy.LocalhostNames | apps/desktop/src-tauri/src/network_policy.rs:329-331 | the localhost names are `localhost` and what ends in `.localhost` |
| NetworkPolicy.PolicyChain | apps/desktop/src-tauri/src/network_policy.rs:333-347 | over all addresses: callbacks and public redirects agree, local redirects and scans agree, scans add exactly loopback and a named target adds exactly the private networks |
| NetworkPolicy.ExceptionsByPolicy | apps/desktop/src-tauri/src/network_policy.rs:333-347 | which policies admit loopback and private networks, and that nothing else internal is ever admitted |
| NetworkPolicy.RefusalsAreTold | apps/desktop/src-tauri/src/network_policy.rs:333-375 | which refusal an address meets, by name and policy |
| NetworkPolicy.EmbeddingsReachNoFurther | apps/desktop/src-tauri/src/network_policy.rs:452-473 | under the callback policy each embedding is admitted exactly when the addresses it carries are |
| NetworkPolicy.OutsideLocalhostScansAreRedirects | apps/desktop/src-tauri/src/network_policy.rs:349-375 | for names other than localhost the scan resolver and any redirect policy judge alike |
| NetworkPolicy.LoopbackOnlyThroughLocalhost | apps/desktop/src-tauri/src/network_policy.rs:349-375 | loopback is reached by name only through an allowed localhost name, and such a name reaches nothing else |
| NetworkPolicy.ValidateDomainTarget | apps/desktop/src-tauri/src/network_policy.rs:269-295 | passes exactly for an allowed localhost name, or a name other than the metadata host whose answers exist and are all admitted |
| NetworkPolicy.ValidateUrlTarget | apps/desktop/src-tauri/src/network_policy.rs:205-225 | the full check: scheme, host, literal address or named host |
| NetworkPolicy.LiteralOriginsReachThemselves | apps/desktop/src-tauri/src/network_policy.rs:76-170 | a page on a literal address may lead back to it exactly when a person may name it |
| NetworkPolicy.OriginsByKind | apps/desktop/src-tauri/src/network_policy.rs:76-115 | exactly which literal and named hosts are loopback, and which are a local environment |
| NetworkPolicy.OriginsAreTold | apps/desktop/src-tauri/src/network_policy.rs:76-101 | the origin of every host: by address class for literals, by suffix for names |
| NetworkPolicy.NamedOriginsAreLocalIfLocalhost | apps/desktop/src-tauri/src/network_policy.rs:87-170 | exactly localhost names give local reach, and no name gives private reach by itself |
| NetworkPolicy.FromResolvedAddresses | apps/desktop/src-tauri/src/network_policy.rs:137-155 | private reach exactly when there are answers and all are private and none loopback |
| NetworkPolicy.AnswerOrderIsIrrelevant | apps/desktop/src-tauri/src/network_policy.rs:137-155 | only the set of answers matters |
| DnsCache.ValidateResolvedAddrs | apps/desktop/src-tauri/src/dns_cache.rs:83-100 | passes exactly for a nonempty answer whose addresses are all admitted for the host |
| DnsCache.CachedDnsResolver.ForPolicy | apps/desktop/src-tauri/src/dns_cache.rs:30-46 | an empty cache under the policy given |
| DnsCache.CachedDnsResolver.Store | apps/desktop/src-tauri/src/dns_cache.rs:52-54 | the entry replaces any other for its host |
| DnsCache.CachedDnsResolver.Evict | apps/desktop/src-tauri/src/dns_cache.rs:38-46 | entries may leave by age or room |
| DnsCache.CachedDnsResolver.Resolve | apps/desktop/src-tauri/src/dns_cache.rs:57-80 | hands out the cached or looked-up addresses exactly when they are usable, and stores only usable new answers |
| DnsCache.AnswersAreAdmitted | apps/desktop/src-tauri/src/dns_cache.rs:61-66 | whatever the cache holds, every address handed out is admitted |
| DnsCache.ResolutionIsTold | apps/desktop/src-tauri/src/dns_cache.rs:57-100 | the cached answer, or else the one looked up, is handed out exactly if it holds addresses and each is admitted |
| DnsCache.CacheStaysUsable | apps/desktop/src-tauri/src/dns_cache.rs:68-78 | resolving and evicting keep a cache of usable answers |
| HttpClient.ClientMatchesOrigin | apps/desktop/src-tauri/src/http_client.rs:304-318 | a client redirects by its origin's policy except for `.localhost` origins, and only loopback gets the self-signed exception |
| HttpClient.LocalhostDomainLosesItsException | apps/desktop/src-tauri/src/http_client.rs:309-317 | for a `.localhost` origin the client refuses exactly the redirects back to loopback that the policy allows |
| HttpClient.ClientReachesNoFurther | apps/desktop/src-tauri/src/http_client.rs:304-348 | what a client's redirect check and resolver admit together, its origin's policy admits |
| HttpClient.ClientReachesExactly | apps/desktop/src-tauri/src/http_client.rs:304-348 | other than for `.localhost` origins redirect check and resolver together admit exactly what the origin's policy admits, over http or https and not the metadata host |
| HttpClient.FollowedRedirectIsStep | apps/desktop/src-tauri/src/http_client.rs:330-348 | every redirect the client follows is a step of the runs considered, and is recorded |
| HttpClient.MadeConnectionIsStep | apps/desktop/src-tauri/src/http_client.rs:330-348 | so is every connection to an address the resolver hands out |
| HttpClient.StepKeepsSafe | apps/desktop/src-tauri/src/http_client.rs:330-348 | redirects, connections and cache changes keep the run safe |
| HttpClient.RunsAreSafe | apps/desktop/src-tauri/src/http_client.rs:304-348 | in every run, each connection after a redirect is one the origin's policy admits, over http or https and not to the metadata host; each named connection is one the resolver's policy admits; fewer than ten urls are left behind |
| HttpClient.TenRedirectsAtMost | apps/desktop/src-tauri/src/http_client.rs:330-337 | no run leaves ten urls behind, and a redirect is followed exactly while it would not |
| HttpClient.PublicRunsStayPublic | apps/desktop/src-tauri/src/http_client.rs:304-318 | a run from a public origin reaches no internal address after a redirect |
| HttpClient.RedirectAndResolverCheckAll | apps/desktop/src-tauri/src/network_policy.rs:227-262 | the check without a lookup and the resolver's check together are the full check |
| HttpClient.ClassifyResolved | apps/desktop/src-tauri/src/network_policy.rs:117-135 | a name is promoted only from public, and only on private-only answers |
| HttpClient.PromotionMatchesReach | apps/desktop/src-tauri/src/network_policy.rs:137-155 | a promoted name's client may reach every answer; an unpromoted one's client refuses each private answer |
| BodyReader.ReadBodyLimited | apps/desktop/src-tauri/src/http_client.rs:47-93 | succeeds only with the concatenation of all chunks within the cap, otherwise reports the first thing that stopped it; the buffer never exceeds the cap |
| BodyReader.StopIsUnique | apps/desktop/src-tauri/src/http_client.rs:77-86 | every stream has one stopping point |
| BodyReader.OutcomeOfChunks | apps/desktop/src-tauri/src/http_client.rs:55-93 | chunks are handed out joined, first to last, if they fit together; otherwise the first that does not is reported with the bytes received so far |
| BodyReader.OutcomeOfFailure | apps/desktop/src-tauri/src/http_client.rs:76-93 | a broken or late transport is reported as such |
| RustScanner.EndOfBlock | apps/desktop/src-tauri/src/lib_tests.rs:271-307 | terminates on every source; an end found lies past the start, inside the source and just past a closing brace |
| RustScanner.Skip | apps/desktop/src-tauri/src/lib_tests.rs:288-303 | the step over a comment, literal or plain byte always advances and stays in the source |
| RustScanner.EndOfBlockComment | apps/desktop/src-tauri/src/lib_tests.rs:309-329 | the nested-comment loop computes the scan's step |
| RustScanner.EndOfStringLiteral | apps/desktop/src-tauri/src/lib_tests.rs:331-343 | the string loop computes the scan's step |
| RustScanner.FindRawStringHashes | apps/desktop/src-tauri/src/lib_tests.rs:345-370 | the quote and hash count of a raw string opening, if one is recognised |
| RustScanner.EndOfRawString | apps/desktop/src-tauri/src/lib_tests.rs:372-384 | the end of the first terminator, or of the source |
| RustScanner.EndOfCharLiteral | apps/desktop/src-tauri/src/lib_tests.rs:386-412 | the end of a recognised character literal, or one past the apostrophe |
| RustTokens.CommentIsSkipped | apps/desktop/src-tauri/src/lib_tests.rs:309-329 | a nested comment is left at its own terminator at whatever depth |
| RustTokens.LiteralIsSkipped | apps/desktop/src-tauri/src/lib_tests.rs:331-343 | a string with escapes is left at its closing quote |
| RustTokens.OpenerIsRecognised | apps/desktop/src-tauri/src/lib_tests.rs:345-370 | every raw string opening not inside an identifier is recognised, with its hashes |
| RustTokens.RecognisedIsOpener | apps/desktop/src-tauri/src/lib_tests.rs:345-370 | and nothing else is |
| RustTokens.RawContentIsSkipped | apps/desktop/src-tauri/src/lib_tests.rs:372-384 | raw content is left at the first quote with enough hashes |
| RustTokens.PlainCharIsSkipped | apps/desktop/src-tauri/src/lib_tests.rs:405-410 | a character literal of any UTF-8 length is stepped over whole |
| RustTokens.EscapedCharIsSkipped | apps/desktop/src-tauri/src/lib_tests.rs:390-402 | a single-escape literal is stepped over whole |
| RustTokens.UnicodeCharIsSkipped | apps/desktop/src-tauri/src/lib_tests.rs:392-402 | a unicode-escape literal is stepped over whole |
| RustTokens.LiteralFormFound | apps/desktop/src-tauri/src/lib_tests.rs:386-412 | where the scanner sees a literal, one of the known forms begins |
| RustTokens.TokenIsSkipped | apps/desktop/src-tauri/src/lib_tests.rs:288-304 | every token that is no brace is stepped over as a whole |
| RustTokens.StepsFindTheEnd | apps/desktop/src-tauri/src/lib_tests.rs:275-306 | a scan that steps from token to token ends where the tokens say |
| RustTokens.BlockEndsAtItsBrace | apps/desktop/src-tauri/src/lib_tests.rs:267-307 | for every stream of tokens in its place the scan returns the offset past the brace that closes the block, or nothing if none does; braces in literals and comments do not count |
| RustReading.CommentFound | apps/desktop/src-tauri/src/lib_tests.rs:309-329 | what the comment scan passes over before the source ends is a comment's text, nested ones included |
| RustReading.LiteralFound | apps/desktop/src-tauri/src/lib_tests.rs:331-343 | the same for a string's text |
| RustReading.StepIsToken | apps/desktop/src-tauri/src/lib_tests.rs:288-303 | each step that ends before the source does passes over exactly one token read in its place |
| RustReading.BlockEndsWhereTokensTell | apps/desktop/src-tauri/src/lib_tests.rs:267-307 | on every source the scan ends a block at an offset exactly when the source divides into tokens that end it there |
| RustForms.BracesAreCounted | apps/desktop/src-tauri/src/lib_tests.rs:276-287 | braces change the depth by one, the last closing one ends the block, and the end of the source leaves it open |
| RustForms.OtherBytesArePassed | apps/desktop/src-tauri/src/lib_tests.rs:303 | every other byte that begins nothing is passed over by itself |
| RustForms.LineCommentsArePassed | apps/desktop/src-tauri/src/lib_tests.rs:288-293 | a line comment is passed over up to its line break |
| RustForms.NestedCommentsArePassed | apps/desktop/src-tauri/src/lib_tests.rs:309-329 | a block comment is passed over, one nested in it included |
| RustForms.StringsArePassed | apps/desktop/src-tauri/src/lib_tests.rs:331-343 | a string is passed over, a backslash taking the next byte with it |
| RustForms.RawStringsArePassed | apps/desktop/src-tauri/src/lib_tests.rs:345-384 | after a byte that is no letter, digit or underscore a raw string is passed over as a whole; after one of these only its first letter is |
| RustForms.CharLiteralsArePassed | apps/desktop/src-tauri/src/lib_tests.rs:405-410 | a character literal is passed over, whatever the length of its UTF-8 form |
| RustForms.EscapedCharsArePassed | apps/desktop/src-tauri/src/lib_tests.rs:390-402 | so is one with a single escape |
| RustForms.UnicodeCharsArePassed | apps/desktop/src-tauri/src/lib_tests.rs:392-402 | and one with a unicode escape |
| RustForms.LifetimesArePassed | apps/desktop/src-tauri/src/lib_tests.rs:404-411 | an apostrophe that no literal ends is passed over by itself |
| CfgPredicate.CfgIsTestOnly | apps/desktop/src-tauri/src/lib_tests.rs:244-265 | the loop over the list decides whether some item is a bare `test` |
| CfgPredicate.ListIsSplit | apps/desktop/src-tauri/src/lib_tests.rs:255-264 | a list is split exactly at its own commas, not at those inside parentheses |
| CfgPredicate.AcceptedForms | apps/desktop/src-tauri/src/lib_tests.rs:239-265 | however spaced, exactly `test` and `all` with a direct `test` member are accepted |
| CfgPredicate.BareTestIsAccepted | apps/desktop/src-tauri/src/lib_tests.rs:245-248 | `test` is accepted with any white space around it |
| CfgPredicate.OtherTextIsRefused | apps/desktop/src-tauri/src/lib_tests.rs:245-248 | and with no other character next to it |
| CfgPredicate.OperatorsAreTold | apps/desktop/src-tauri/src/lib_tests.rs:239-265 | in literal text: `all` with a bare `test` anywhere in its list is accepted, `any` and `not` are refused |
| CfgPredicate.InnerTestsAreRefused | apps/desktop/src-tauri/src/lib_tests.rs:255-264 | a `test` within another operator does not count |
| CfgPredicate.AcceptedPredicatesNeedTest | apps/desktop/src-tauri/src/lib_tests.rs:239-243 | an accepted predicate is false in every configuration without `test` |
| SourceExcision.ProductionHalf | apps/desktop/src-tauri/src/lib_tests.rs:424-457 | for any header pattern the loop terminates and builds the production text |
| SourceExcision.PiecesTile | apps/desktop/src-tauri/src/lib_tests.rs:430-456 | kept and excised stretches follow one another without gap or overlap |
| SourceExcision.TestModuleVanishes | apps/desktop/src-tauri/src/lib_tests.rs:414-457 | told from the `cfg` expression and the tokens of the body, a test module vanishes up to its own brace |
| SourceExcision.OtherPredicateIsKept | apps/desktop/src-tauri/src/lib_tests.rs:239-243 | any other `cfg` expression keeps its module visible |
| SourceExcision.KeptLinesKeepTheirNumbers | apps/desktop/src-tauri/src/lib_tests.rs:419-422 | every kept character itself stands, in its own place, on the same line as in the source |
| SourceExcision.OutputIsKeptAndBlanks | apps/desktop/src-tauri/src/lib_tests.rs:419-456 | the kept characters keep their order, each in a place of its own, and whatever else the output holds is line breaks |
| SourceExcision.LineCountIsKept | apps/desktop/src-tauri/src/lib_tests.rs:452-454 | if every test module closes the number of line breaks is unchanged |
| SourceExcision.NewlinesAreCounted | apps/desktop/src-tauri/src/lib_tests.rs:452-454 | the line breaks counted are the newline characters |
| WrapperTracker.InlineSyncGitCalls | apps/desktop/src-tauri/src/lib_tests.rs:1761-1804 | the nested loops compute the run of the tracker over all lines |
| WrapperTracker.Track | apps/desktop/src-tauri/src/lib_tests.rs:1784-1801 | one character updates depth, stack and findings as the tracker does |
| WrapperTracker.ForestIsTracked | apps/desktop/src-tauri/src/lib_tests.rs:1752-1760 | through any well-nested stretch the stack comes back as it was and the findings are those of the nesting |
| WrapperTracker.StackIncreasesThroughForest | apps/desktop/src-tauri/src/lib_tests.rs:1785-1797 | the recorded depths increase at every step |
| WrapperTracker.ReportsUncoveredCalls | apps/desktop/src-tauri/src/lib_tests.rs:1752-1804 | a call is reported exactly when the latest signature is async and no wrapper's brackets enclose it |
| WrapperReports.SequenceHoldsLines | apps/desktop/src-tauri/src/lib_tests.rs:1775-1783 | every line, with its signature and its characters, stands in its place in the sequence scanned |
| WrapperReports.FindingsAreReports | apps/desktop/src-tauri/src/lib_tests.rs:1752-1804 | on every source, bracketed well or not, the findings are in order the lines of exactly the calls in async functions at which no wrapper is open: one is open until a closing bracket brings the depth back to where it began |
| WrapperReports.MarkIsReported | apps/desktop/src-tauri/src/lib_tests.rs:1776-1787 | told from line and column: reported exactly if a call begins there, the latest signature up to the line is async and no wrapper is open, under the line's number |
| WrapperReports.FindingsWithoutWrappers | apps/desktop/src-tauri/src/lib_tests.rs:1776-1787 | without wrappers every line after an async signature is reported once for each call on it |
| PromptBatch.FormatFixPromptBatch | apps/mcp-server/src/fix_prompt_format.ts:8-35 | the body fits the limit, is marked shortened exactly when it is not the join of all complete entries, is never shortened with more than six characters to spare, and only its last entry may be cut |
| PromptBatch.TakenIsTold | apps/mcp-server/src/fix_prompt_format.ts:22-30 | every entry but the last is complete, and the last is complete or cut and marked |
| PromptBatch.JoinOfConcat | apps/mcp-server/src/fix_prompt_format.ts:32 | entries are joined in order with a blank line between them |

## Left out

- SQL, SQLite, file reading, JSON decoding of rows, SHA-256: their results are inputs.
- CausalGraph.DynamicConfidence: compares the ratio of counts by cross multiplication, which agrees with double division for counts below 2^50; the sums are the table of double results, not real arithmetic.
- CausalGraph.DesktopConfidence: compares in the same way, which agrees with single precision division for counts below 2^22.
- GlobMatcher.MatchesGlobTokens: works on a sequence of characters; JavaScript's UTF-16 code units are not told apart from characters.
- RepoSuppressions.ApplyRepoSuppressions: reading and validating the configuration file, and extracting a row's identity from its JSON, are not modelled.
- DisplayConfidence.ComputeDisplayConfidence: filters while it loops instead of building the list of likely causes first.
- CausalRanking.RankWithCausalReach: JavaScript's own sort is modelled as a stable insertion sort with the same comparator.
- HttpClient.RunsAreSafe: the first url is checked before the client is used and so is not constrained here when its host is a literal address; TLS, timeouts and connection reuse are not modelled.
- DnsCache.CachedDnsResolver.Evict: when entries leave is arbitrary; concurrency within one resolution is not modelled.
- BodyReader.ReadBodyLimited: byte counts are unbounded integers, a timeout is one of the possible arrivals, and buffer capacity is not modelled.
- RustScanner.EndOfBlock: Rust's check that a slice begins at a character boundary is not modelled; on valid UTF-8 each slice begins right after or at an ASCII byte.
- RustTokens.BlockEndsAtItsBrace: an apostrophe that begins none of the recognised literal forms, as in a lifetime or a `\x` escape, is a token of its own, as it is to the scanner; the tokens are those of the scanner's subset, not of the Rust reference.
- CfgPredicate.AcceptedForms: atoms contain no commas or parentheses, so quoted feature values with such characters are outside it; predicates that imply `test` in other shapes are not accepted by the code either.
- SourceExcision.ProductionHalf: the regular expression is any function returning an in-range nonempty match; its offsets count bytes, while the predicate it captures is a sequence of characters, which is what Unicode trimming works on; how bytes decode to characters is not modelled.
- WrapperTracker.InlineSyncGitCalls: which characters begin a wrapper, a call or a signature is part of the input lines.
- PromptBatch.FormatFixPromptBatch: the text of one entry, with its quoting and causal block, is an input.
- Finding the fix locations of a check, historical regressions, impact scores, markdown formatting, fix-attempt and agent-request lifecycles, the desktop interface and the connected services are not modelled.
