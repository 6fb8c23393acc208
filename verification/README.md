# rangefinder, verified

rangefinder turns a description of a network (hosts, services, accounts, captured directory data) into a
cyber range: it composes the attack paths the range contains, scores and compiles detections for them, merges
captures into one estate, and plays the captured servers back. This project models the algorithms inside it
and proves what they compute. Each module follows one source file, or one part of it.

- **Attack paths** (`AttackGraph`, `ComposePaths`, `AttackLaws`, `Credentials`, `LiveVerdicts`). A credential is
  recoverable when some chain of readings and logins leads to it from an anonymously readable place. `AttackGraph`
  defines chains without reference to any algorithm. `ComposePaths` is the alternating loot/access fixpoint with its
  provenance maps; it finds exactly the recoverable credentials, each by a shortest chain.
- **Directory control** (`Acl`, `Escalation`, `ControlLaws`). From the entries of security descriptors to control
  edges, and from edges and group membership to everything a recovered account can take over.
- **Detections** (`Telemetry`, `Scoring`, `KillChain`, `KillChainWindow`, `SigmaCondition`, `SigmaCounts`,
  `SigmaExpression`, `Decimal`, `SigmaCompile`, `EventLaws`). Events are parsed trees. Single-event scoring, the
  per-source machine for ordered detections, the recursive-descent condition parser, and the compiler from
  objectives to Sigma rules.
- **Estate merge** (`Ipv4`, `EstateMerge`, `MergeTables`, `MergeRange`, `MergeHosts`, `MergeLaws`). The union of
  captured hosts, the address allocator, the hostname disambiguator, the derived subnet, accounts and objectives,
  against the schema of a range.
- **DNS** (`Octets`, `DnsName`, `DnsMessage`, `DnsReply`, `DnsTransfer`, `DnsZone`, `DnsLaws`). Names and records on
  the wire, replies, and zone transfers split over messages, from the query to what the client reads.
- **LDAP** (`LdapFilter`, `LdapScope`, `LdapSession`, `DirectoryLaws`). The substrings filter, search scopes, and
  bind state.
- **SMB capture** (`SmbTree`, `SmbCapture`, `SmbShares`, `ShareLaws`). The budgeted walk over the shares of a server.
- **SSH capture** (`SshKexinit`). Finding and reading a server's key exchange offer.

The modules named Laws say what an operation gives its caller in the fields of its inputs and its result, without
the predicates that the operation and its specification share. `Prelude` and `Pieces` hold text functions used
everywhere.

Objects whose fields the source changes in place are classes (`MergeHosts.Host`, `LiveVerdicts.LiveCredential`,
`SigmaCondition.ConditionParser`, `LdapSession.Session`, `SmbCapture.Budget`, `Pair`, `Walker`). Loops are
methods with invariants, each proved against a function or a predicate that the lemmas are about.

What lies outside is a parameter: lower-casing, pattern search, text of scalars and timestamps
(`Telemetry.Library`), the whole-token search for secrets (`Estate.wholeToken`), the hash that names a secret, the
reduction of a login to an account name, record values on the wire other than TXT, and what servers answer to a
capture (a tree, with the errors in it).

## What was found

Where the code and its own promises part, the code is modelled as it is, and the lemma named here says exactly
when the two agree.

- A `/31` or `/32` subnet offers its network address to hosts, which the range schema forbids
  (`MergeRange.TinySubnetBreaksSchema`: two captures of unplaced hosts). A merge that returns meets the schema
  always when the subnet is derived, and otherwise exactly when the given prefix is at most 30, or the gateway takes
  the network address, or every host may keep its own (`EstateMerge.AssignedValidIff`, `MergeRange.MergeMeetsSchema`).
- A condition with several matchers, or with `|` in its field name, can compile to a rule with another meaning.
  Under any given pattern search, the compiled test agrees with the scorer on every event exactly when nothing but
  the first matcher ever decides: there is one matcher, or there is a pattern that finds only text the matcher
  before it accepts; `equals` beside `contains` always disagrees, and so does a field name with `|`, unless its one
  matcher is a pattern that finds nothing (`SigmaCompile.AgreementIsExact`).
- With a time window the sequence machine can miss a chain that starts later than its anchor (a concrete log is in
  `KillChain.WindowMissesLaterStart`). For steps that look at neither the time nor the source of an event, and three
  moments around the window that can be read, it misses nothing on any readable log exactly when some step can never
  be met, or there is one step, or whatever meets the first step meets all others and there are two steps or the
  window has no length (`KillChainWindow.PlainStepsMissNothingIff`; `KillChainWindow.WindowMissesNothingIff` for any
  steps, given one source whose events at those moments are as varied as the steps can tell apart).
- The substrings filter looks for the middle pieces in the whole value, not between the prefix and the suffix.
  It decides a filter as section 4.5.1.7.2 of RFC 4511 does, on every value, exactly when no piece next to the
  prefix or the suffix can lie over it (`LdapFilter.ExactIffUnambiguous`).
- The name decoder has no guard against pointers that lead back. It runs forever exactly when it comes to an offset
  it has been at, and one turn more than the message has bytes is enough to tell (`DnsName.EndlessIff`); a name
  that is a pointer to itself does it (`DnsName.SelfPointerIsEndless`). Pointers to prior names, which section 4.1.4 of
  RFC 1035 asks for, never do (`DnsName.PriorPointersEnd`).
- From an empty base a subtree search of the directory finds only the empty name and names that end in a comma;
  from any other it finds exactly what lies below (`LdapScope.SubtreeIsExactIff`).
- A zone transfer is split so that its messages stay under the limit of DNS over TCP, but a record always goes out,
  however long: every message has a length that fits its prefix exactly when every record, alone with the question,
  would (`DnsTransfer.FramedIff`).
- A file that cannot be read has used up a place in both capture budgets (`SmbShares.BudgetIsConserved`).

## Model

| member | source | states |
|---|---|---|
| ComposePaths.ComposePaths | rangefinder/paths.py:207-266 | the credentials found are exactly those some chain recovers; each is reported by a shortest chain, with hops its number of logins; hosts reached are exactly those with a breached location; for every iteration order |
| AttackLaws.EveryLoginIsUsed | rangefinder/paths.py:185-242 | in the fields of the estate: each login of a recovered credential opens every location of its host and kind (for HTTP, of its route), so the host counts as reached, and each other secret of eight characters or more that stands there as a whole token, not where it is declared, is recovered within one hop more |
| AttackLaws.AnonymousTextIsRead | rangefinder/paths.py:211-229 | what such a text gives away that anyone can read is recovered without a login |
| AttackLaws.EveryFindHasASource | rangefinder/paths.py:211-242 | conversely each recovered credential is given away by a text anyone can read, or by one that a login of a credential one hop nearer opens |
| AttackLaws.EveryReachedHostHasALogin | rangefinder/paths.py:264-264 | each host reached has a location behind a login of a recovered credential |
| AttackLaws.ReportPrintsAChain | rangefinder/paths.py:269-291 | the printed steps are, three for each stage of a shortest chain: how the place is opened, that it is read, what is recovered |
| ComposePaths.Fixpoint | rangefinder/paths.py:211-242 | the loop ends, with provenance that is sound, has no short cut (rounds are shortest distances) and leaves no loot or access edge unfollowed; the readable set is the locations with provenance |
| ComposePaths.LootRound | rangefinder/paths.py:219-229 | one loot pass recovers everything readable text gives away, keeps every invariant, and changes something exactly when it says so |
| ComposePaths.FindLoot | rangefinder/paths.py:223-229 | the search over the locations finds a readable one that gives the principal away exactly when there is one |
| ComposePaths.AccessRound | rangefinder/paths.py:230-242 | one access pass opens everything held principals reach and keeps every invariant |
| ComposePaths.AccessGrant | rangefinder/paths.py:235-242 | after one grant every location it unlocks is open, recorded with the principal and account that opened it |
| ComposePaths.ProvenanceIsAChain | rangefinder/paths.py:269-308 | following provenance back visits strictly earlier rounds, so the cycle guard never fires and the printed steps and pivots are those of a genuine chain |
| ComposePaths.ChainIsFound | rangefinder/paths.py:216-242 | completeness: any chain of m stages ends at a principal recovered in round m or before |
| ComposePaths.LootedIff | rangefinder/paths.py:216-242 | at the end a principal is recovered exactly when some chain leads to it |
| ComposePaths.FoundIsShortest | rangefinder/paths.py:245-259 | what is reported of a recovered credential is a shortest chain to it, three lines a stage |
| ComposePaths.GatedIsBreached | rangefinder/paths.py:264-264 | the locations opened by a login are exactly those a chain opens |
| AttackGraph.ChainReportSizes | rangefinder/paths.py:269-308 | a chain of n stages has n - 1 pivots and 3n steps |
| AttackGraph.PivotAt | rangefinder/paths.py:301-308 | each pivot is the place opened at its stage and the account used |
| AttackGraph.OpeningNeverHelpsTheDefender | rangefinder/paths.py:196-242 | an estate that is at least as open loses no recoverable credential and raises no hop count |
| AttackGraph.AnonymiseOpens | rangefinder/paths.py:211-211 | making a location anonymous gives such an estate |
| Credentials.GroupPrincipals | rangefinder/paths.py:116-133 | the table of principals is exactly what the credentials declare, grouped by secret |
| Credentials.EveryLoginIsDeclaredAndLeaked | rangefinder/coherence.py:122-158 | every login of a chain is a declared grant of the principal recovered just before, whose secret is leaked by the blob read just before, elsewhere than where it is declared |
| Credentials.EveryPivotIsAGrant | rangefinder/paths.py:301-308 | and the pivot of that stage is this grant, host, kind, route and account |
| Credentials.ReportedPivotsAreGrants | rangefinder/paths.py:245-259 | so every pivot reported of a recovered credential is a declared grant |
| LiveVerdicts.CollapseVerdicts | rangefinder/paths.py:314-327 | each key gets the strongest verdict measured for it |
| LiveVerdicts.PathVerdictFromProbes | rangefinder/paths.py:330-358 | a path is confirmed exactly when it has a pivot and each was accepted somewhere; refuted exactly when some pivot was rejected and accepted nowhere |
| LiveVerdicts.AnsweredPathsAreDecided | rangefinder/paths.py:330-358 | when every declared login was answered, no reported path with a login stays untested: it is confirmed when all its logins were accepted somewhere, and refuted otherwise |
| LiveVerdicts.AnnotateLive | rangefinder/paths.py:330-358 | every credential is tagged in place with its path verdict and the table of its grants |
| LiveVerdicts.LiveCredential.TagGrants | rangefinder/paths.py:345-348 | the table of one credential's grants |
| LiveVerdicts.LastGrantDecides | rangefinder/paths.py:345-348 | the verdict shown for a label is that of the last grant that prints under it |
| LiveVerdicts.TableIs | rangefinder/paths.py:345-348 | the table has one line for each kind, host and route of a grant, and says there what was measured for the last such |
| Acl.AnalyzeAcls | rangefinder/acl.py:246-293 | the edges are exactly those that some object's descriptor amounts to |
| ControlLaws.EdgesAreInTheDescriptors | rangefinder/acl.py:246-299 | in the fields of the descriptors: an edge is there exactly when some object is owned by, or its entries give these mask bits and object types to, a trustee that is not privileged anyway; named by its captured label where there is one, else by one of five well-known names, else by its identifier |
| ControlLaws.BenignIsPrivileged | rangefinder/acl.py:169-172 | privileged anyway are nine well-known identifiers, and those of a domain that end in one of seven numbers |
| Acl.AnalyzeEntry | rangefinder/acl.py:262-293 | for one object: ownership, each right an entry names, DCSync only on a domain head and only with both replication rights or all extended rights, gathered over all entries |
| Acl.CollectRights | rangefinder/acl.py:271-278 | all entries in turn: what is accumulated is what some entry names, benign trustees left out |
| Acl.AddRights | rangefinder/acl.py:274-278 | rights go to the replication accumulator or become edges, none lost |
| Acl.AddReplication | rangefinder/acl.py:280-293 | the accumulated rights of each trustee become at most one edge |
| Acl.NamedIsHeld | rangefinder/acl.py:271-278 | a pair is accumulated exactly when some entry gives it and the trustee is not benign |
| Acl.EdgeIsJustified | rangefinder/acl.py:246-293 | the accumulators turned into edges are what the descriptor amounts to |
| Escalation.Escalate | rangefinder/paths.py:411-491 | controlled names are exactly those on a control path, and exactly those with an origin; a domain compromise is reported exactly when a controlled name may replicate; each takeover is reported once, with a genuine chain |
| ControlLaws.ControlIsClosed | rangefinder/paths.py:425-491 | control holds of every account of a recovered credential, passes to each group of a controlled name, and along each named edge other than replication |
| ControlLaws.ControlHasASource | rangefinder/paths.py:425-491 | and of nothing else |
| ControlLaws.TakeoversAreEdges | rangefinder/paths.py:475-489 | each takeover reported is an edge from a controlled trustee, with its right and target, and its chain ends with it |
| Escalation.WithGroups | rangefinder/paths.py:430-437 | the closure adds only groups the name is in, and leaves nothing a new group belongs to out |
| Escalation.SeedAccounts | rangefinder/paths.py:440-449 | every account of a recovered credential seeds control, degenerate handles excepted |
| Escalation.SeedGroups | rangefinder/paths.py:450-455 | control starts closed under group membership, with well-founded origins |
| Escalation.FollowEdge | rangefinder/paths.py:462-488 | one edge keeps every invariant; nothing recorded is overwritten; each change brings the loop nearer its end |
| Escalation.TakeTarget | rangefinder/paths.py:479-487 | a takeover extends the origins, reports once, and closes under membership again |
| Escalation.EscChainIsGenuine | rangefinder/paths.py:494-505 | origins are well-founded: the guard never fires and every chain goes back to a seed by real edges |
| Escalation.OriginsAreControlled | rangefinder/paths.py:439-487 | soundness: whatever has an origin is on a control path |
| Escalation.PathIsControlled | rangefinder/paths.py:457-487 | completeness: at the fixpoint everything on a control path is controlled |
| Escalation.ControlledIsExact | rangefinder/paths.py:411-491 | both together |
| Escalation.CompromiseIsExact | rangefinder/paths.py:469-476 | a domain-compromise step appears exactly when some replication edge's trustee is controlled |
| ControlLaws.CompromiseIsInTheDescriptors | rangefinder/paths.py:455-475 | end to end: a compromise is reported exactly when the descriptor of a domain head gives some unprivileged identifier all extended rights or both replication rights, and the name it goes by, its captured label where there is one, is under control |
| Scoring.EvalDetect | rangefinder/scoring.py:106-131 | a result exactly when some event fires; it counts the firing events, points at the first and names its sources |
| EventLaws.FiringIs | rangefinder/scoring.py:84-131 | in the fields of the events: an event counts exactly when it meets every condition of some signal |
| EventLaws.ConditionIs | rangefinder/scoring.py:58-81 | a condition holds when the keys of its dotted field lead to a value that is not null and prints, itself or an item of it, as a text that equals the wanted one, has it inside capitals aside, or is found by the pattern |
| EventLaws.SourcesAre | rangefinder/scoring.py:106-131 | the sources are what firing events have under source.ip, unless empty |
| Scoring.FindSignal | rangefinder/scoring.py:113-129 | the first signal that matches an event |
| KillChain.EvalSequence | rangefinder/scoring.py:134-176 | a detection has one true event per step, in order, in the window, from one source, and is made at the first event at which any source completes |
| EventLaws.VerdictIsWhatHappens | rangefinder/scoring.py:134-176 | in the fields of the events: what is detected has happened, in order, by one source, in the window; and without a window what happens is detected, no later than at its last event |
| KillChain.TrackIsSound | rangefinder/scoring.py:143-175 | what a source's state records is true of its own events, with or without a window |
| KillChain.TrackIsGreedy | rangefinder/scoring.py:143-175 | without a window progress is as far as any choice of events could get |
| KillChain.MetIffSubsequence | rangefinder/scoring.py:134-176 | without a window, detection within n events happens exactly when the steps are an ordered subsequence of some source's events |
| KillChain.CompletionUsesLastEvent | rangefinder/scoring.py:165-175 | the event that completes a source is the last of its chain |
| KillChain.MetInWindow | rangefinder/scoring.py:152-163 | with a window, a chain from the first possible start is found in time when times are readable and in order |
| KillChain.WindowMissesLaterStart | rangefinder/scoring.py:152-163 | a log with a chain in the window that is never found |
| KillChainWindow.WindowMissesNothingIff | rangefinder/scoring.py:134-176 | with a window, zero length included, every chain of every readable log is found exactly when there is one step, or whatever meets the first step meets all others and there are two steps or no length |
| KillChainWindow.PlainStepsMissNothingIff | rangefinder/scoring.py:134-176 | the same for steps that look at neither time nor source, where only three readable moments are asked for, and impossible steps count as missing nothing |
| KillChainWindow.NoWindowMissesNothing | rangefinder/scoring.py:134-176 | without a window nothing is missed |
| KillChainWindow.SmallCases | rangefinder/scoring.py:188-206 | two different steps within ten seconds, and three equal ones, can miss a chain; three equal ones within no time cannot |
| KillChainWindow.StartsAnewMissesNothing | rangefinder/scoring.py:152-163 | for such a sequence every chain in the window is found |
| KillChainWindow.LateLogExists | rangefinder/scoring.py:152-163 | for any other sequence there is a log, with fewer than twice as many events as steps |
| KillChainWindow.LateChainIsTimely | rangefinder/scoring.py:152-163 | which holds a whole chain in the window |
| KillChainWindow.LateLogNeverCompletes | rangefinder/scoring.py:152-163 | that the machine never finds |
| SigmaCondition.EvalCondition | rangefinder/detect.py:89-153 | lower-casing, splitting and the parser over an advancing position compute the function on token lists, failure included |
| SigmaCondition.TokensAre | rangefinder/detect.py:89-90 | a run of ASCII letters, digits, underscores and asterisks is one token, a parenthesis is one, other characters separate |
| SigmaCounts.CountMeans | rangefinder/detect.py:137-146 | "all of" holds exactly when every selection the target names matched, and a number exactly when some set of that many did |
| SigmaCounts.StarTargetNames | rangefinder/detect.py:141-142 | with one asterisk a target names what starts and ends as it does, the two not overlapping |
| SigmaCounts.PlainTargetNamesItself | rangefinder/detect.py:141-142 | without one, only itself |
| SigmaCounts.GlobStar | rangefinder/detect.py:141-142 | in any target an asterisk stands for any text |
| SigmaCounts.GlobPlain | rangefinder/detect.py:141-142 | and a piece without one for itself |
| SigmaCounts.NumeralIsRead | rangefinder/detect.py:144-144 | a decimal numeral is read as its number |
| SigmaCounts.ZeroInFront | rangefinder/detect.py:144-144 | zeros in front change nothing |
| SigmaCondition.ConditionParser.EvalOr | rangefinder/detect.py:111-116 | an or-level reads exactly the tokens its specification reads and moves forward |
| SigmaCondition.ConditionParser.EvalAnd | rangefinder/detect.py:118-123 | likewise for and |
| SigmaCondition.ConditionParser.EvalNot | rangefinder/detect.py:125-129 | likewise for not |
| SigmaCondition.ConditionParser.EvalAtom | rangefinder/detect.py:131-149 | likewise for names, parentheses and counts |
| SigmaExpression.WrittenMeansMeaning | rangefinder/detect.py:89-153 | evaluating the text of any expression, in any case, gives the boolean meaning of the expression with its names in lower case, counts included, reads every token and never runs off the end |
| SigmaExpression.SpellLower | rangefinder/detect.py:89-90 | lower-casing the tokens of an expression spells it with lower-case names |
| SigmaExpression.ParseSpelled | rangefinder/detect.py:111-149 | at every precedence level, reading a spelled expression computes its meaning and stops right after it |
| SigmaCompile.CompiledMeaning | rangefinder/detect.py:297-313 | a compiled condition tests its first matcher on the same field |
| SigmaCompile.CompiledImpliesScored | rangefinder/detect.py:297-313 | with plain field names a compiled condition never accepts what the scorer rejects |
| SigmaCompile.TranslatesAgrees | rangefinder/detect.py:41-77 | where nothing but the first matcher decides, a condition compiles to exactly the scorer's meaning |
| SigmaCompile.TranslatableTranslates | rangefinder/config/model.py:98-116 | a condition with one matcher and a plain field name is such a one, whatever its pattern means |
| SigmaCompile.AgreementIsExact | rangefinder/detect.py:297-313 | under any library, rule and scorer agree on a condition, on every event, exactly when it translates |
| SigmaCompile.UntranslatedDisagrees | rangefinder/detect.py:297-313 | under any library, a condition that does not translate disagrees on some event |
| SigmaCompile.PipeDisagrees | rangefinder/detect.py:41-46 | with the modifier separator in the field name, any text the scorer accepts makes an event that the rule misses |
| SigmaCompile.LaterMatcherDisagrees | rangefinder/scoring.py:68-81 | any text that a later matcher accepts and the first does not makes an event that the rule misses |
| SigmaCompile.EqualsAndContains | rangefinder/scoring.py:68-81 | with both an exact and a partial matcher there is always such a text |
| SigmaCompile.SelectionNamesAreDistinct | rangefinder/detect.py:332-337 | generated selection names never collide |
| SigmaCompile.CompileObjective | rangefinder/detect.py:316-352 | refused exactly when some condition has no matcher; otherwise the table holds one selection for each condition and the text joins them as compiled |
| EventLaws.FieldEntryIs | rangefinder/detect.py:41-77 | an entry of a rule holds when the event has a text under its field that some wanted value accepts, by the first modifier of re, contains, startswith, endswith and cased, or else as equal text capitals aside |
| EventLaws.MatchedPositionsAre | rangefinder/detect.py:166-167 | the positions a rule matches come in the order of the log, each once |
| EventLaws.SelectionsAddUp | rangefinder/detect.py:80-86 | an entry more asks for more, an alternative more accepts more, and no entries accept everything, no alternatives nothing |
| EventLaws.NoConditionMeansAny | rangefinder/detect.py:156-163 | a rule without a condition fires when any selection matches |
| EventLaws.ConditionDecides | rangefinder/detect.py:156-163 | with one it fires when the expression holds of the selections that match |
| SigmaCompile.CompileSignal | rangefinder/detect.py:332-339 | the selections of one signal are added and none before is lost |
| SigmaCompile.RuleFires | rangefinder/detect.py:156-163 | a compiled rule never fails to evaluate, and fires exactly when all compiled conditions of some signal hold |
| SigmaCompile.RuleImpliesScore | rangefinder/detect.py:316-352 | with plain field names a rule fires only on events the scorer counts |
| SigmaCompile.RuleAgreesWithScore | rangefinder/detect.py:316-352 | where all conditions translate, a rule fires on exactly the events the scorer counts |
| SigmaCompile.TruePositivesAreMatchCount | rangefinder/detect.py:166-167 | where all conditions translate, the matched positions are those the scorer counts, once each |
| Ipv4.DerivedNet | rangefinder/importers/nmap.py:229-234 | the network contains every host, and with a prefix below 24 none of the longer prefixes, up to 32, does |
| Ipv4.DeriveSubnet | rangefinder/importers/nmap.py:229-234 | the loop over the exclusive-ors derives that network |
| Ipv4.BitByBit | rangefinder/importers/nmap.py:230-232 | the exclusive-or and the or are those of each bit |
| Ipv4.NoTighterNet | rangefinder/importers/nmap.py:232-234 | no network that covers the hosts has a longer prefix, unless the derived prefix is 24 |
| Ipv4.DerivedPrefixIsLongest | rangefinder/importers/nmap.py:232-234 | the prefixes up to the derived one are exactly those up to 24 with which some network covers the hosts, and below 24 exactly those with which any does |
| Ipv4.DerivedNetIgnoresOrder | rangefinder/orchestrate/merge.py:174-179 | any listing of the same addresses derives the same network |
| EstateMerge.UnionAllIsUnion | rangefinder/orchestrate/merge.py:72-88 | the union succeeds exactly when the inputs agree on every port of every host, and then holds each measured service and nothing else |
| EstateMerge.UnionIgnoresOrder | rangefinder/orchestrate/merge.py:72-88 | the order of the inputs decides neither success nor what a host serves |
| EstateMerge.UnionKeepsFirst | rangefinder/orchestrate/merge.py:121-171 | a merged host keeps the first measured address, the first specific system and the first name |
| EstateMerge.PoolIsExact | rangefinder/orchestrate/merge.py:192-220 | the allocator's pool is, once each, the host addresses other than the gateway |
| EstateMerge.FreeIsExact | rangefinder/orchestrate/merge.py:192-220 | the free addresses are, once each, those of the pool that no host keeps |
| EstateMerge.AssignMeetsSchema | rangefinder/orchestrate/merge.py:192-230 | assigned addresses are distinct, in the network, never the gateway, and the network address only where the prefix is above 30 |
| EstateMerge.AssignedValidIff | rangefinder/orchestrate/merge.py:192-230 | exactly when the assignment meets the schema |
| EstateMerge.ValidAddressesStay | rangefinder/orchestrate/merge.py:192-213 | when all addresses are unique and valid, all are kept |
| EstateMerge.FirstFree | rangefinder/orchestrate/merge.py:233-253 | the least unused suffix exists |
| EstateMerge.TakenAreFew | rangefinder/orchestrate/merge.py:233-253 | at most as many suffixes are taken as names seen, so the unbounded search ends |
| EstateMerge.DedupDistinct | rangefinder/orchestrate/merge.py:233-253 | all hostnames end up different, and are left alone when they were |
| MergeTables.AppendNewIsFirst | rangefinder/orchestrate/merge.py:278-308 | a merged table starts with the one before, has each key of either once more at most, and each under its first definition |
| MergeTables.MergeBlocksIsUnion | rangefinder/orchestrate/merge.py:256-288 | directory blocks merge exactly when they are of one domain, into the first block with every account and group of any |
| MergeTables.MergeIdentities | rangefinder/orchestrate/merge.py:256-288 | the loop over the blocks computes that merge |
| MergeRange.MergeMeetsSchema | rangefinder/config/model.py:184-216 | a merge that returns meets every check of the schema when the subnet is derived, and exactly under a condition on the inputs when it is given |
| MergeRange.UsableAddressesStay | rangefinder/orchestrate/merge.py:192-230 | a host with an address no other host has, and that it can have in the network, keeps it, whoever else moves |
| MergeRange.MergeKeepsFirstDefinitions | rangefinder/orchestrate/merge.py:90-110 | objectives and accounts of the result are the first definitions of the inputs |
| MergeRange.TinySubnetBreaksSchema | rangefinder/orchestrate/merge.py:192-230 | two captures of unplaced hosts into a /31: the merge returns and the schema is broken |
| MergeRange.MergeFailsIff | rangefinder/orchestrate/merge.py:34-110 | each way a merge fails, and only those: nothing to merge, disagreeing services, too few addresses, or two directory domains |
| MergeRange.RemergeIsIdentity | rangefinder/orchestrate/merge.py:34-110 | merging a valid result again into its own subnet returns it unchanged, accounts, objectives, name and version included |
| MergeHosts.MergeConfigs | rangefinder/orchestrate/merge.py:34-110 | the merge over mutable hosts and growing tables computes the result that the lemmas are about |
| MergeLaws.MergedAddressesAreFirstFree | rangefinder/orchestrate/merge.py:182-230 | in a merge that returns a host keeps a usable address that is its own, and any other host gets the least still free from offset ten up, and only when none is left there the least below |
| MergeLaws.PlaceholdersGetTenAndEleven | rangefinder/orchestrate/merge.py:204-220 | two hosts at the placeholder address get .10 and .11 |
| MergeLaws.MergedNamesAreNew | rangefinder/orchestrate/merge.py:233-253 | a name no earlier host ended up with stays; any other gets a hyphen and the least number from two up that makes it new |
| MergeLaws.FoldByField | rangefinder/orchestrate/merge.py:148-171 | what of each field of a record gives way to a later one: only the placeholder address and the generic system |
| MergeLaws.UnionKeepsTags | rangefinder/orchestrate/merge.py:169-171 | a tag is on a merged host exactly when some input put it there, those of its first input in front |
| MergeLaws.MergedName | rangefinder/orchestrate/merge.py:99-100 | the name asked for, or the first an input has, or merged |
| MergeLaws.MergedVersion | rangefinder/orchestrate/merge.py:104-105 | the highest schema version of the inputs |
| MergeLaws.MergedGateway | rangefinder/orchestrate/merge.py:68-70 | the gateway the first input with one names, where it lies in the network, and otherwise none |
| MergeHosts.Host.FoldIn | rangefinder/orchestrate/merge.py:121-171 | folding a record in succeeds exactly when the services agree, and then the host is the union, field by field |
| MergeHosts.Host.AddServices | rangefinder/orchestrate/merge.py:124-146 | services are appended in place, or a disagreement is reported |
| MergeHosts.Host.AppendTags | rangefinder/orchestrate/merge.py:169-171 | tags not yet there are appended in order |
| MergeHosts.UnionHosts | rangefinder/orchestrate/merge.py:72-88 | the objects built are separate, fresh, and hold the united values in first-seen order |
| MergeHosts.Pin | rangefinder/orchestrate/merge.py:192-213 | the hosts that keep their address, and those addresses |
| MergeHosts.NextFree | rangefinder/orchestrate/merge.py:215-220 | the next unused address of the pool; none exactly when it is exhausted |
| MergeHosts.AssignAddresses | rangefinder/orchestrate/merge.py:192-230 | hosts are changed in place to the assigned addresses; fails exactly when they run out |
| MergeHosts.DedupHostnames | rangefinder/orchestrate/merge.py:233-253 | hosts are renamed in place as the specification renames the list |
| MergeHosts.FreeSuffix | rangefinder/orchestrate/merge.py:233-253 | the counting loop ends at the least unused suffix |
| DnsName.EncodeName | rangefinder/facades/dns.py:314-319 | encoding fails exactly on a label too long or not latin-1, and otherwise writes each non-empty label and a zero |
| DnsName.RunDecoder | rangefinder/facades/dns.py:292-311 | the decoder's loop, pointers and index errors included, for any number of turns |
| DnsName.ReadIffLaidOut | rangefinder/facades/dns.py:292-311 | a name can be read at an offset exactly when one is laid out there |
| DnsName.FinishedIsLaidOut | rangefinder/facades/dns.py:292-311 | what is read is the name laid out, every label in full |
| DnsName.EndlessIff | rangefinder/facades/dns.py:292-311 | the loop never ends exactly when it comes back to an offset, which shows within one turn more than the message has bytes |
| DnsName.SelfPointerIsEndless | rangefinder/facades/dns.py:300-306 | a query whose name is a pointer to itself |
| DnsName.PriorPointersEnd | rangefinder/facades/dns.py:300-306 | where every pointer met leads to before its own run of labels, the loop ends |
| DnsName.DecodeInvertsEncode | rangefinder/facades/dns.py:292-319 | a name encoded anywhere in a message decodes to itself and the offset just past it |
| DnsName.DecodeLaidOut | rangefinder/facades/dns.py:292-311 | any name laid out in a message, through any finite number of pointers, is read, and ends past the part in place |
| DnsName.DecodeCompressed | rangefinder/facades/dns.py:300-306 | labels and then a pointer read as the whole name and end past the first pointer |
| DnsName.MoreFuelSameName | rangefinder/facades/dns.py:292-311 | a finished decoding does not depend on the bound put on the loop |
| DnsMessage.ReadWritten | rangefinder/facades/dns.py:322-324 | a record written anywhere in a message reads back with every field, up to its end |
| DnsMessage.RecordIsElevenBytes | rangefinder/facades/dns.py:322-324 | no record is shorter than eleven bytes |
| DnsMessage.EncodeText | rangefinder/facades/dns.py:367-373 | TXT segmentation reads back as the text, and is never empty |
| DnsReply.RespondTo | rangefinder/facades/dns.py:117-152 | the reply, step by step, for every query: malformed ones dropped, transfers granted or refused, encoding failures answered as such |
| DnsZone.BuildResponse | rangefinder/facades/dns.py:117-190 | every answer to a query, the messages of a granted transfer included |
| DnsReply.CollectAnswers | rangefinder/facades/dns.py:154-165 | the answers are the encodable stored records of the type, in order, unless encoding one of them fails outright |
| DnsReply.RefusalReadsBack | rangefinder/facades/dns.py:167-184 | a transfer is granted over TCP, for the own zone, where allowed; otherwise the reply reads back as a refusal with the question and no answer |
| DnsReply.ReplyReadsBack | rangefinder/facades/dns.py:117-165 | the reply to a query reads back as its id, the question verbatim, and exactly the stored encodable records of that name and type in order |
| DnsLaws.QueryIsAnswered | rangefinder/facades/dns.py:117-165 | in the fields of the stored records: what a query is answered with is stored under the lower-cased name without dots at its end, of the type asked for or of any for 255, all that can be encoded, in stored order; the code is three where nothing is stored, two where a record of that type fails outright, and else zero; the header is that of a reply to the query |
| DnsLaws.TransferIsGranted | rangefinder/facades/dns.py:167-184 | a query of type 252 is granted or refused by these three facts alone |
| DnsLaws.NameEncodesIff | rangefinder/facades/dns.py:314-319 | a name is encoded exactly when its labels have at most 255 characters and no code above 255 |
| DnsLaws.PointerReadsAs | rangefinder/facades/dns.py:300-306 | two bytes from C0 up read as the name at the offset in their lower fourteen bits |
| DnsReply.MessageReadsBack | rangefinder/facades/dns.py:143-152 | any message built this way reads back as what it was built from |
| DnsTransfer.ChunkAxfr | rangefinder/facades/dns.py:336-357 | the loop sends one message for each block of the split, and no count overflows 16 bits |
| DnsTransfer.ChunksConserve | rangefinder/facades/dns.py:336-357 | the split loses, adds and reorders nothing, keeps every message within the limit unless it holds one record, and sends no empty message unless there is nothing to send |
| DnsTransfer.ChunksAreFewest | rangefinder/facades/dns.py:336-357 | no order-preserving split into messages that fit has fewer messages |
| DnsTransfer.GreedyStaysAhead | rangefinder/facades/dns.py:349-355 | filling greedily is never behind any other split |
| DnsTransfer.CountIsSmall | rangefinder/facades/dns.py:346-348 | records that fit a message cannot overflow its count |
| DnsTransfer.TransferReadsBack | rangefinder/facades/dns.py:336-357 | a client that reads every message gets the zone's records in order, with the question in each |
| DnsTransfer.FramedIff | rangefinder/facades/dns.py:104-106 | every message fits its two-byte length exactly when every record would alone |
| DnsZone.CollectZone | rangefinder/facades/dns.py:192-223 | the loops over names and records, with the search for the start of authority, collect the zone or fail where a record fails outright |
| DnsZone.TransferIsTheZone | rangefinder/facades/dns.py:192-223 | a transfer starts and ends with one start of authority, and carries between exactly the declared encodable records of the zone, and a name server where none is declared |
| DnsLaws.TransferCarries | rangefinder/facades/dns.py:192-223 | the same in the fields of the stored records, the made-up records spelled out |
| DnsLaws.SharedMessagesFit | rangefinder/facades/dns.py:336-357 | a message with more than one record stays within 65000 bytes |
| DnsZone.ZoneBodyJoins | rangefinder/facades/dns.py:197-207 | records go in the order their names were declared |
| DnsZone.GrantedTransferReadsBack | rangefinder/facades/dns.py:117-223 | from query to client: who asks for a transfer that is granted reads exactly that zone |
| LdapFilter.MatchSubstrings | rangefinder/facades/ldap.py:394-422 | accepts exactly when some value has the prefix, the suffix and some in-order placement of the middle pieces without overlap among them |
| DirectoryLaws.AcceptsIs | rangefinder/facades/ldap.py:403-421 | a value is accepted exactly when it starts with the prefix, ends with the suffix, and has the middle pieces one after the other |
| DirectoryLaws.FilterAsksFor | rangefinder/facades/ldap.py:394-402 | a filter asks for its pieces in lower case; a prefix or suffix given again replaces the one before |
| LdapFilter.PlaceAll | rangefinder/facades/ldap.py:412-419 | the leftmost search finds a placement exactly when there is one |
| LdapFilter.LeftmostIsEnough | rangefinder/facades/ldap.py:412-419 | taking the leftmost occurrence never spoils a later placement |
| LdapFilter.NeverMisses | rangefinder/facades/ldap.py:394-422 | every match of section 4.5.1.7.2 of RFC 4511 is accepted |
| LdapFilter.ExactIffUnambiguous | rangefinder/facades/ldap.py:394-422 | the search agrees with the standard on every value exactly when no piece next to the prefix or the suffix can lie over it |
| LdapFilter.AmbiguousOverAccepts | rangefinder/facades/ldap.py:406-419 | for any other filter, a value that is accepted wrongly |
| LdapFilter.OneCharacterTwice | rangefinder/facades/ldap.py:394-411 | a one-character value meets a filter with that prefix and that suffix, in any case |
| LdapScope.ScopesCountSteps | rangefinder/facades/ldap.py:343-357 | the three scopes are none, one and any number of steps towards the root; a subtree search from an empty base finds only the empty name and names that end in a comma |
| DirectoryLaws.ScopesAre | rangefinder/facades/ldap.py:351-357 | as compared, the base itself, names one component longer, and all names that end in a comma and the base |
| DirectoryLaws.NormIs | rangefinder/facades/ldap.py:343-344 | names are compared component by component, in lower case and without blanks around a component |
| LdapScope.SubtreeIsExactIff | rangefinder/facades/ldap.py:351-357 | subtree search finds exactly what lies below the base, for all names, exactly when the base is not empty |
| LdapScope.NormKeepsCommas | rangefinder/facades/ldap.py:343-348 | the parent step never fails |
| LdapSession.Serve | rangefinder/facades/ldap.py:533-570 | every answer of a connection follows from its requests: a search is let through by the latest bind alone |
| LdapSession.SearchMeaning | rangefinder/facades/ldap.py:735-768 | a search gives only entries asked for, at most the size limit, and says truncated exactly when there are more; otherwise it gives all of them |
| LdapSession.ClosedDirectoryNeedsThePassword | rangefinder/facades/ldap.py:662-732 | there, a search is answered exactly when the latest bind before it gave a known account's password |
| LdapSession.SelectedKeepsOrder | rangefinder/facades/ldap.py:750-754 | candidates keep the order of the directory |
| LdapSession.SelectedOnly | rangefinder/facades/ldap.py:750-754 | and are only entries in scope that match |
| SmbTree.EventsAreTheFiles | rangefinder/capture/smb.py:373-394 | the walk's order lists the files of the tree and nothing else |
| SmbTree.EventsAreDistinct | rangefinder/capture/smb.py:373-394 | it lists no path twice when no directory lists a name twice |
| SmbTree.OneFileEach | rangefinder/capture/smb.py:373-394 | so a share gives as many files as it captures |
| SmbCapture.Walker.Walk | rangefinder/capture/smb.py:373-394 | a walk captures the first files of the depth-first listing up to the first error, as many as both budgets allow, uses both budgets by the same amount, and ends in the error it reaches: the first there is, or, once the room is used up, that of a directory that comes next beside the last file |
| SmbCapture.Walker.Visit | rangefinder/capture/smb.py:380-394 | the same for one entry of a listing, with the signal to stop |
| SmbCapture.Budget.Take | rangefinder/capture/smb.py:345-349 | takes one exactly when there is room |
| SmbCapture.Pair.Take | rangefinder/capture/smb.py:362-367 | takes from both budgets or from neither |
| SmbCapture.PartEndsTheWalk | rangefinder/capture/smb.py:383-388 | once a part of the tree ends the walk, what follows changes nothing |
| SmbShares.CaptureShares | rangefinder/capture/smb.py:133-184 | the entries are those of the first wanted shares, each with the room the ones before it left; only an exhausted overall budget stops the loop early |
| ShareLaws.EntriesTell | rangefinder/capture/smb.py:136-187 | each entry has the name and comment of its share; with credentials it is gated unless a null session was seen to read it, without only when access was refused and nothing read |
| ShareLaws.WantedHas | rangefinder/capture/smb.py:136-142 | captured are the shares that are not administrative, by name or by a dollar sign at the end, and are in the selection if there is one |
| ShareLaws.WantedJoins | rangefinder/capture/smb.py:136-142 | in the order of the listing |
| ShareLaws.FilesAreBounded | rangefinder/capture/smb.py:136-187 | no share gives more files than its limit or than is left overall |
| SmbShares.CaptureShare | rangefinder/capture/smb.py:145-178 | the entry of one share: its files, and whether it is gated |
| SmbShares.BudgetIsConserved | rangefinder/capture/smb.py:131-184 | the overall budget is the room left, the files of all shares, and one for each walk that ended on a failed read |
| SmbShares.ShareYield | rangefinder/capture/smb.py:340-394 | a share yields the least of its readable files, the limit for a share, and the overall room |
| SmbShares.WholeShareIsCaptured | rangefinder/capture/smb.py:373-394 | a share without errors and with room is captured whole, path by path |
| ShareLaws.WholeShareIsKept | rangefinder/capture/smb.py:373-394 | with its content too: what leads down the tree to a file, past no dot entry, holds its bytes, or its size where that is above the limit |
| SshKexinit.PacketReadsBack | rangefinder/capture/ssh.py:153-167 | a packet with any padding gives its payload back and takes nothing of what follows |
| SshKexinit.ReadIsAPacket | rangefinder/capture/ssh.py:153-167 | only packets are read |
| SshKexinit.RefusedPackets | rangefinder/capture/ssh.py:153-167 | each way a packet is refused, by its size and padding |
| SshKexinit.ParseKexinit | rangefinder/capture/ssh.py:170-190 | the loop over the name-lists computes the lists, or rejects |
| SshKexinit.AcceptedIffTenLists | rangefinder/capture/ssh.py:170-190 | an offer is accepted exactly when ten name-lists stand after its head; section 7.1 of RFC 4253 |
| SshKexinit.OfferReadsBack | rangefinder/capture/ssh.py:170-190 | an offer of algorithm names gives the names back, list by list |
| SshKexinit.FindOffer | rangefinder/capture/ssh.py:141-147 | the first offer among eight packets, or the error met before it or in it |
| SshKexinit.OfferIsFound | rangefinder/capture/ssh.py:141-147 | up to seven other packets may come before the offer; after eight it is not found |
| SshKexinit.OfferIs | rangefinder/capture/ssh.py:170-180 | an offer has message type 20, and ten lists from byte seventeen on |
| SshKexinit.AsciiIs | rangefinder/capture/ssh.py:182-182 | bytes above 127 read as the replacement character |

## Left out

- MetInWindow: one direction, for a single log; what is exact for all logs of a sequence is WindowMissesNothingIff.
- AgreementIsExact: supposes that a space after a text does not change how the text is lower-cased.
- WindowMissesNothingIff: where steps look at time or source, it asks for one source with events at three moments around the window, as varied as the steps tell events apart.
- RuleAgreesWithScore: exact per condition (AgreementIsExact), and one direction for a whole objective, because a condition that disagrees may sit beside another that never holds.
- RuleFires: selection names are taken as already in lower case, which the generated ones are.
- WrittenMeansMeaning: names over ASCII letters, digits, underscore and asterisk.
- Serve: anonymous and simple binds and searches; not unbind, extended requests, or the NTLM and SASL binds.
- EveryLoginIsDeclaredAndLeaked: supposes that no two declared secrets share a truncated hash.
- EveryPivotIsAGrant: supposes that only HTTP locations and logins name a route, as those read out of a configuration do.
- RunDecoder: the source's loop has no bound; the model stops it after any given number of turns, and EndlessIff says when that matters.
- DecodeInvertsEncode: names with labels up to 191 bytes, more than the 63 the standard allows; longer ones encode to what the decoder takes for a pointer.
- ReplyReadsBack: (and QueryIsAnswered with it) names without empty labels, and fewer than 65536 answers; the count field of the source holds no more (BuildReply answers Oversized).
- GrantedTransferReadsBack: names of the zone without empty labels, as for ReplyReadsBack.
- ChunkAxfr: asks that each record be at least eleven bytes, as every encoded record is (RecordIsElevenBytes).
- ScopesCountSteps: supposes that lower-casing neither makes nor removes a comma, as SubtreeIsExactIff does.
- UnionAllIsUnion: asks for inputs whose hosts have unique ports, as the loader demands of every input.
- Display order, wording, warnings and masked labels of reports.
- Reading locations, credentials, group membership, naming contexts and security descriptors out of a configuration: they are inputs here.
- Addresses other than IPv4; parsing of subnets.
- The host identifiers made by the nmap importer.
- Building DNS records from a configuration, record values other than TXT, and telemetry of queries.
- LDAP: NTLM and SASL binds, attribute selection, message encoding, filters other than substrings; decoding of octets before they are compared.
- SMB: text of captured files after scrubbing, posture probes; paths are lists of names instead of joined text.
- SSH: the version exchange and authentication probes; names of the two language lists are read and dropped.
- Kerberos, RDP, HTTP and mail servers, live probes, Docker output, the command line, scrubbing.
