# A verified model of x509-validator

This project models the certification path validator `x509-validator` in Dafny and proves what its
search, its policy combinators and its name-matching rules mean, for all inputs.

- **The search** (`Validators`, `ChainSearch`, `SearchTraces`, `SearchProperties`, `ValidChains`, `SearchOrder`,
  `IssuerPreference`, `CycleRemoval`, `DiagnosticLaws`, with `Stores` and `Suitability`).
  `Validators.Validator` is the imperative validator: a work stack, two stores indexed by subject, candidates
  sorted in place, and an optional callback. It is proved to compute `RunResult`, which decides over a recursive
  enumeration of chains held in plain lists. The lemmas then say what that result is without mentioning any
  order of search: sound, complete up to cycles, preferring short cuts to roots, bounded in the number of
  visits, and truthful in its diagnostics.
- **Policies** (`PolicyBuilder`, `PolicyBlocks`). The trees the composition macros build, what they decide, and
  why a critical extension that a tree claims is enforced by some leaf policy that accepted the chain.
- **RFC 5280 policies** (`BasicConstraintsPolicy`, `NameConstraintsPolicy`, `NameConstraintLaws`,
  `IpConstraints`, `DnsNames`, `DnsConstraintLaws`, `DnsNameText`, `UriConstraints`, `UriText`). Loops with early
  exits, each proved against the rule it enforces.
- **RFC 6125 hostnames** (`ServerIdentityPolicy`, `HostnameText`) and the **framing** shared by the fuzzers and
  their seed corpus (`Frames`).

Conventions: octets are `bv8`; names are their raw DER bytes; a certificate is its decoded fields, with
`Malformed` where the code branches on a decoding failure. The signature check and the IP address literal
test are arbitrary functions of their arguments. A leaf policy is an arbitrary function of the chain. A
diagnostic callback is an object that keeps what it is told. The one long function of the validator is
divided into methods along its comments, one for each inner loop. What an operation decides is stated twice:
in the terms its loops are proved in, and over the certificates' fields and literal bytes.

Where the code and its comments differ, the code is followed:

- `server_identity_policy.rs` says the common name is consulted when no alternative name could be validated
  against; the code consults it only when there is no alternative name at all. A leaf with the right common
  name and an e-mail address is refused (`ServerIdentityPolicy.MailAddressRulesOutCommonName`), and
  `ServerIdentityPolicy.CommentsHoldExactly` gives the leaves on which code and comment agree.
- `sort_by_suitability_for_issuing` announces an early exit for a subject without an authority key
  identifier; the code has none, and needs none (`Suitability.RankedWithoutAki`).
- The search skips a certificate whose identity is in the chain because the chain "could have been shorter".
  Shortening may not avoid the leaf's identity, and the policy may not accept the shorter chain
  (`CycleRemoval.ReturnToLeafIsNotFound` and `CycleRemoval.LongChainIsNotFound` are paths missed for the one
  and the other reason). Among paths that do not return to the leaf's identity nothing is lost under a policy
  that goes on accepting when cycles are left out (`CycleRemoval.CompleteUpToCycles`), as the name constraints
  policy does and trees of such policies; `CycleRemoval.AlwaysCompleteExactly` says exactly under which policies
  nothing is lost, whatever the stores. The basic constraints policy is such a policy but for its counter, which
  wraps around: `CycleRemoval.BasicConstraintsCompleteExactly` says which paths are found under it and
  `CycleRemoval.WrappingPathIsNotFound` gives one that is missed.
- A `one_of!` block should claim an extension that every alternative handles, and a disabled alternative is not
  to count as one that succeeds. The code still counts it when it intersects the claims, so that such a block claims
  nothing and certificates are refused for extensions its other alternative does enforce
  (`PolicyBuilder.DisabledAlternativeDropsClaims`). `PolicyBuilder.ClaimsAreTight` says exactly when a tree
  claims all that it enforces.
- The path length counter is 32 bits wide and wraps around. `BasicConstraintsPolicy.LoopIsInOrder` says exactly
  what that changes, and `BasicConstraintsPolicy.WrappedCounterIsTooLenient` is a chain wrongly accepted, one that
  can be handed to the policy but not built by the search.

## Model

| member | source | states |
|---|---|---|
| Validators.Validator.ValidateInner | x509-validator/src/validator.rs:103-277 | terminates on all stores, cyclic ones included; the result is the first enumerated chain the policy accepts or every rejection in order, and does not depend on the callback; the callback hears exactly the preorder trace up to the first valid chain; one search event per popped partial chain |
| Validators.Validator.Validate | x509-validator/src/validator.rs:78-84 | validation without a callback has the same result: a chain valid over the fields of its certificates, or a failure when no chain is |
| Validators.Validator.ValidateWithDiagnostics | x509-validator/src/validator.rs:94-101 | validation with a callback has the same result and appends exactly the run's events |
| Validators.Validator.Search | x509-validator/src/validator.rs:164-276 | the work stack loop refines the recursive enumeration and its trace |
| Validators.Validator.Visit | x509-validator/src/validator.rs:167-270 | one turn replaces the popped partial chain by its continuations on the stack, or ends with an accepted chain, and reports one search event |
| Validators.Validator.TryLeaf | x509-validator/src/validator.rs:134-162 | only an exact match in the root store lets the leaf be trusted on its own, and only if the policy accepts it |
| Validators.Validator.TryRoots | x509-validator/src/validator.rs:196-234 | usable roots are tried in order until the policy accepts; every rejection is reported and kept |
| Validators.Validator.PushIntermediates | x509-validator/src/validator.rs:253-269 | pushing last to first leaves the most suitable usable intermediate to be popped first |
| Validators.Validator.ShouldSkipAddingCertificate | x509-validator/src/validator.rs:312-370 | skips exactly the candidates with an unhandled critical extension, a known identity or a signature that does not verify, reporting the first reason |
| SearchTraces.FullTraceConsiders | x509-validator/src/validator.rs:126-276 | a search that never stops early asks the policy about exactly the enumerated chains, in order |
| SearchTraces.FullTraceIsHonest | x509-validator/src/validator.rs:209-233 | every reported verdict is the policy's verdict on the reported chain |
| SearchTraces.ProgressDecides | x509-validator/src/validator.rs:213-232 | stopping at the first valid chain of a trace returns that chain; reaching the end returns every rejection |
| SearchProperties.EnumerationIsExact | x509-validator/src/validator.rs:164-270 | the enumerated chains are exactly the paths from the leaf through intermediates to a root that are linked, signed, free of unhandled critical extensions and without repeated identities |
| SearchProperties.ReturnedChainIsSound | x509-validator/src/validator.rs:134-276 | a returned chain is the leaf alone, found in the root store, or such a path; the policy accepts it and none of its certificates has an unhandled critical extension |
| SearchProperties.SucceedsExactly | x509-validator/src/validator.rs:126-276 | validation succeeds if and only if some candidate is accepted |
| SearchProperties.FailureListsEveryCandidate | x509-validator/src/validator.rs:372-395 | a failure carries every candidate chain, in the order considered, each with the policy's reason |
| SearchProperties.DecideExactly | x509-validator/src/validator.rs:196-234 | the accepted chain is the first acceptable one, all before it being rejected |
| SearchProperties.CriticalExtensionsAreEnforced | x509-validator/src/validator.rs:280-330 | every critical extension of every certificate in a returned chain is claimed by a leaf policy that accepted that chain |
| ValidChains.ValidatesExactly | x509-validator/src/validator.rs:103-277 | over the fields: a chain is returned exactly when one exists that is the leaf in the root store, or leads from it through intermediates to a root, each certificate signed by the next and none with the subject, key and names of another, every critical extension claimed, and the policy accepting; the returned one is such a chain |
| ValidChains.SimplePathsAreCertificationPaths | x509-validator/src/validator.rs:280-370 | a candidate path in those terms: only critical extensions must be claimed, the signature is that of the certificate below under the key above |
| ValidChains.SameIsSameId | x509-validator/src/certificate.rs:84-97 | two certificates have one identity exactly when subject, key and alternative names agree, unreadable names counting as none |
| ValidChains.UnhandledLeafFailsAlone | x509-validator/src/validator.rs:111-124 | a leaf with a critical extension nobody claims fails alone, with one diagnostic and no search |
| DiagnosticLaws.DiagnosticsAreTrue | x509-validator/src/validator.rs:103-277 | every reported diagnostic is true of the stores, the leaf, the signatures and the policy; of several reasons to skip a certificate it gives the first |
| DiagnosticLaws.SkippedIsReported | x509-validator/src/validator.rs:312-370 | in a run that finds nothing every unfit issuer of every searched partial chain is reported with its reason |
| SearchOrder.ReturnedChainIsPreferred | x509-validator/src/validator.rs:178-270 | where the returned chain parts from another acceptable one it ends at a root or goes by an issuer listed before every occurrence of the other's |
| SearchOrder.PreferenceIsAsymmetric | x509-validator/src/validator.rs:178-270 | no two chains are each preferred to the other, so the preference tells the returned chain from all others |
| IssuerPreference.ReturnedChainIsPreferredAsStored | x509-validator/src/validator.rs:178-310 | where the returned chain parts from another valid one it ends, or its issuer is the one with the key identifier asked for, or the other has another one, or it was appended to the store earlier |
| IssuerPreference.IssuersArePreferred | x509-validator/src/validator.rs:187-310 | issuers are tried by key identifier and then in the order they were appended |
| SearchOrder.NoShortcut | x509-validator/src/validator.rs:178-185 | no acceptable chain reaches a root straight from a proper part of the returned chain |
| SearchOrder.RunIsBounded | x509-validator/src/validator.rs:164-270 | at most (M + 1)^D partial chains are popped, M intermediates of D distinct identities other than the leaf's |
| SearchOrder.SimplePathsAreShort | x509-validator/src/validator.rs:332-346 | a candidate has at most one certificate per intermediate identity besides leaf and root |
| SearchOrder.DiagnosticsAreFaithful | x509-validator/src/validator.rs:154-276 | on a searched run the reported rejections are, in order, the returned failures, and a valid chain is reported last |
| CycleRemoval.ShorterPath | x509-validator/src/certificate.rs:93-97 | leaving out what lies between two certificates of one identity keeps a path a path, linkage depending only on subject and public key |
| CycleRemoval.SimplePath | x509-validator/src/validator.rs:332-346 | every accepted path that never returns to the leaf's identity can be made an accepted one without repeated identities, if acceptance survives leaving out cycles |
| CycleRemoval.CompleteUpToCycles | x509-validator/src/validator.rs:332-357 | under every policy whose acceptance survives leaving out cycles, validation succeeds if and only if the leaf is an accepted root or the policy accepts some path, repeating identities or not, that does not return to the leaf's identity |
| CycleRemoval.AlwaysCompleteExactly | x509-validator/src/validator.rs:332-357 | over all stores and signatures the skip loses nothing if and only if, of every chain it accepts, the policy accepts some rearrangement without repeated identities |
| CycleRemoval.TreesSurviveCuts | x509-validator/src/policy_builder.rs:22-104 | acceptance by a tree of policies survives leaving out cycles when that of its leaves does |
| CycleRemoval.FoundWhenCutsSurvive | x509-validator/src/validator.rs:332-357 | a path accepted for a reason that survives leaving out cycles is not missed |
| CycleRemoval.OrderSurvivesCuts | x509-validator/src/rfc5280/basic_constraints_policy.rs:89-133 | limits that cover the sub-CAs below still do when a cycle is left out |
| CycleRemoval.BasicConstraintsSurviveCuts | x509-validator/src/rfc5280/basic_constraints_policy.rs:67-136 | a chain the policy accepts without meeting a limit after its counter wrapped around is still so accepted when a cycle is left out |
| CycleRemoval.BasicConstraintsCompleteExactly | x509-validator/src/rfc5280/basic_constraints_policy.rs:67-136 | under the basic constraints policy validation succeeds if and only if the leaf is an accepted root or some accepted path does not return to the leaf's identity and either has no cycles or does not wrap the counter around |
| CycleRemoval.WrappingPathIsNotFound | x509-validator/src/rfc5280/basic_constraints_policy.rs:67-67 | a linked path around a cross-signing loop of 2^32 sub-CAs that the basic constraints policy accepts and the search misses, so the policy's verdict alone does not survive leaving out cycles |
| CycleRemoval.NameConstraintsSurviveCuts | x509-validator/src/rfc5280/name_constraints_policy.rs:41-51 | an allowed chain stays allowed when a cycle is left out |
| CycleRemoval.LongChainIsNotFound | x509-validator/src/validator.rs:332-346 | a concrete store and policy for which a path that never returns to the leaf's identity is accepted and missed |
| CycleRemoval.ReturnToLeafIsNotFound | x509-validator/src/validator.rs:332-346 | a concrete cross-signed path back through the leaf's identity that the search misses |
| Suitability.SortBySuitabilityForIssuing | x509-validator/src/validator.rs:290-310 | the slice is sorted in place into matching, undecided and mismatching candidates, ties in store order |
| Suitability.RankedIsSorted | x509-validator/src/validator.rs:298-309 | the sorted candidates are in order of rank |
| Suitability.RankedIsPermutation | x509-validator/src/validator.rs:309-309 | sorting neither loses nor adds candidates |
| Suitability.MatchingIssuersComeFirst | x509-validator/src/validator.rs:298-305 | issuers with the key identifier asked for precede all others, and issuers with another one follow all others |
| Suitability.RankedIsStable | x509-validator/src/validator.rs:309-309 | candidates of equal rank keep their store order among themselves |
| Suitability.RankedWithoutAki | x509-validator/src/validator.rs:294-296 | without an authority key identifier the candidates keep the store's order |
| Stores.CertificateStore.Append | x509-validator/src/store.rs:35-41 | the appended certificate is found last under its subject, other lookups are unchanged, and the index agrees with the plain list of what was appended |
| Stores.WithSubjectConcat | x509-validator/src/store.rs:35-48 | what is appended later is found later |
| Stores.CertificateStore.FromIter | x509-validator/src/store.rs:18-26 | a store made from a sequence holds that sequence |
| Stores.CertificateStore.FindBySubject | x509-validator/src/store.rs:43-48 | looking up a subject gives the appended certificates with that subject, in insertion order |
| PolicyBuilder.ClaimsAreEnforced | x509-validator/src/policy_builder.rs:22-104 | an extension claimed by an accepting tree is claimed by an accepting leaf, under AND, OR, either and both optional forms |
| PolicyBuilder.EnforcedExactly | x509-validator/src/policy_builder.rs:22-104 | however the leaves vote, a tree accepts only with an accepting leaf claiming the extension if and only if it can never accept or its alternatives that can accept claim it |
| PolicyBuilder.ClaimsAreTight | x509-validator/src/policy_builder.rs:169-252 | a tree claims exactly what it enforces if and only if it can accept at all and taking out the alternatives that cannot accept would claim nothing more |
| PolicyBuilder.EnabledTreesAreTight | x509-validator/src/policy_builder.rs:169-220 | in particular a tree without disabled alternatives claims exactly what it enforces |
| PolicyBuilder.DisabledAlternativeDropsClaims | x509-validator/src/policy_builder.rs:222-252 | any policy beside a disabled alternative enforces what it did alone, and claims nothing |
| PolicyBlocks.AllOfDecides | x509-validator/src/policy_builder.rs:35-168 | a policy! block accepts when every item that is on does, and otherwise gives the reason of the first that does not |
| PolicyBlocks.OneOfDecides | x509-validator/src/policy_builder.rs:192-316 | a one_of! block accepts when some item that is on does, and otherwise gives the reasons of all in order |
| PolicyBlocks.AllOfClaims | x509-validator/src/policy_builder.rs:22-104 | a policy! block claims what some item that is on claims |
| PolicyBlocks.OneOfClaims | x509-validator/src/policy_builder.rs:186-252 | a one_of! block claims what all its items claim, items that are off claiming nothing |
| BasicConstraintsPolicy.ChainMeetsPolicyRequirements | x509-validator/src/rfc5280/basic_constraints_policy.rs:21-137 | accepts exactly when a lone certificate may issue and every issuer may issue and allows its sub-CAs, counted modulo 2^32 |
| BasicConstraintsPolicy.AcceptedExactly | x509-validator/src/rfc5280/basic_constraints_policy.rs:21-137 | over the fields: each issuer is of version 1, or a CA whose limit, if it has one, covers the number modulo 2^32 of certificates between the leaf and it whose issuer is not their subject; a lone certificate is of version 1 or a CA |
| BasicConstraintsPolicy.LoopIsMachine | x509-validator/src/rfc5280/basic_constraints_policy.rs:67-136 | the root-to-leaf max_path_length machine of RFC 5280 accepts exactly what the leaf-to-root count accepts without meeting a limit after wrapping around |
| BasicConstraintsPolicy.LoopIsInOrder | x509-validator/src/rfc5280/basic_constraints_policy.rs:111-133 | the chains whose issuers' limits cover the certificates below that are not self-issued, the leaf aside, are exactly those accepted without meeting a limit after wrapping around; loop and promise agree if and only if the chain is not one accepted after wrapping around |
| BasicConstraintsPolicy.ShortChainsDoNotWrap | x509-validator/src/rfc5280/basic_constraints_policy.rs:67-67 | the counter never wraps around on chains of at most 2^32 certificates |
| BasicConstraintsPolicy.WrappedCounterIsTooLenient | x509-validator/src/rfc5280/basic_constraints_policy.rs:67-67 | a chain its limits forbid is accepted after the counter wrapped around |
| BasicConstraintsPolicy.MachineCountsSubCas | x509-validator/src/rfc5280/basic_constraints_policy.rs:86-98 | the machine succeeds exactly when every limit in force covers the sub-CAs below it |
| NameConstraintsPolicy.ChainMeetsPolicyRequirements | x509-validator/src/rfc5280/name_constraints_policy.rs:22-52 | accepts exactly when every issuer allows every certificate below it, a lone certificate itself |
| NameConstraintLaws.AllowedExactly | x509-validator/src/rfc5280/name_constraints_policy.rs:22-275 | over the fields: every certificate's constraints and the names of those below decode, all its subtrees are DNS names, addresses or URIs, each name with permitted subtrees of its form is in one and no name is in an excluded one |
| NameConstraintLaws.NoNameEscapes | x509-validator/src/rfc5280/name_constraints_policy.rs:110-121 | in an allowed chain every alternative name of every certificate is held against all constraints above it |
| NameConstraintLaws.EmptyExcludedNameRefusesAll | x509-validator/src/rfc5280/dns_names.rs:34-36 | an empty excluded dNSName subtree refuses every certificate with a valid dNSName |
| NameConstraintLaws.EmptyPermittedNameAdmitsAll | x509-validator/src/rfc5280/dns_names.rs:34-36 | an empty permitted dNSName subtree has every valid dNSName in it |
| NameConstraintsPolicy.ValidateNameConstraints | x509-validator/src/rfc5280/name_constraints_policy.rs:56-92 | an issuer's constraints must decode and be passed by every name of the certificates below |
| NameConstraintsPolicy.Names | x509-validator/src/rfc5280/name_constraints_policy.rs:94-126 | the names are the subject and all alternative names, or an error when one does not decode |
| NameConstraintsPolicy.ValidatePermittedSubtrees | x509-validator/src/rfc5280/name_constraints_policy.rs:204-275 | the scan stops at the first match and fails on an unsupported subtree or when comparable subtrees all miss |
| NameConstraintsPolicy.ValidateExcludedSubtrees | x509-validator/src/rfc5280/name_constraints_policy.rs:143-202 | passes exactly when no subtree is unsupported for the name or contains it |
| NameConstraintsPolicy.CertificatePassesExactly | x509-validator/src/rfc5280/name_constraints_policy.rs:78-126 | a certificate passes if and only if its names decode, no subtree is a directory name or unsupported, and each alternative name is permitted and not excluded |
| NameConstraintsPolicy.PermittedScanIsOrderless | x509-validator/src/rfc5280/name_constraints_policy.rs:208-275 | against supported subtrees the early exit does not make the order matter |
| NameConstraintsPolicy.SubjectChecksKinds | x509-validator/src/rfc5280/name_constraints_policy.rs:213-232 | scanning the subject rejects exactly the constraints with a subtree that cannot be evaluated |
| NameConstraintsPolicy.OrderDoesNotMatter | x509-validator/src/rfc5280/name_constraints_policy.rs:78-89 | the verdict depends only on which subtrees and names there are |
| IpConstraints.CheckAddressIsInSubnet | x509-validator/src/rfc5280/ip_constraints.rs:50-66 | the byte loop decides membership under a valid mask |
| IpConstraints.CheckIpAddressMatchesConstraint | x509-validator/src/rfc5280/ip_constraints.rs:12-21 | an address is looked for in a subnet of its own family, and in no other constraint |
| IpConstraints.ValidMasksArePrefixes | x509-validator/src/rfc5280/ip_constraints.rs:24-48 | the mask test accepts exactly leading one bits followed by zero bits |
| IpConstraints.SubnetIsCidr | x509-validator/src/rfc5280/ip_constraints.rs:50-66 | an address of n bytes is in a subnet if and only if the mask is a prefix of p ones and address and base have equal quotients by 2^(8n-p) |
| IpConstraints.IpConstraintIsCidr | x509-validator/src/rfc5280/ip_constraints.rs:12-21 | an address meets a constraint if and only if the constraint is a base and a prefix mask of the address's own length, 4 or 16 bytes, and the address shares the base's prefix |
| IpConstraints.SubnetsAreNestedOrDisjoint | x509-validator/src/rfc5280/ip_constraints.rs:10-11 | subnets with a common address are nested, the longer prefix inside |
| IpConstraints.ZeroPrefixCoversEverything | x509-validator/src/rfc5280/ip_constraints.rs:25-27 | the all-zero mask matches every address |
| DnsNames.CheckIsValidDnsName | x509-validator/src/rfc5280/dns_names.rs:85-171 | the scan decides the label-wise definition of a valid name or constraint |
| DnsNames.ScanLabels | x509-validator/src/rfc5280/dns_names.rs:110-162 | scanning from the left checks every label between periods, one trailing period tolerated |
| DnsNames.ScanLabel | x509-validator/src/rfc5280/dns_names.rs:178-190 | tells labels with a byte outside the alphabet, and labels that are all digits |
| DnsNames.ReverseDnsLabels.Next | x509-validator/src/rfc5280/dns_names.rs:221-245 | yields the labels between the periods from the last to the first |
| DnsNames.WalkLabels | x509-validator/src/rfc5280/dns_names.rs:44-81 | the loop over both iterators decides the walk over both label lists |
| DnsNames.WalkIsSuffix | x509-validator/src/rfc5280/dns_names.rs:53-81 | the walk succeeds if and only if the constraint's labels end the name, one more label being needed after a leading period |
| DnsNames.MaskIsFold | x509-validator/src/rfc5280/dns_names.rs:192-200 | ignoring the 0x20 bit is ignoring letter case, on the bytes valid names are made of |
| DnsNames.DnsNameMatchesConstraint | x509-validator/src/rfc5280/dns_names.rs:25-82 | matches exactly the valid names whose last labels are those of the valid constraint |
| DnsNameText.ValidNameAsText | x509-validator/src/rfc5280/dns_names.rs:85-190 | in bytes: a valid name has at most 253 and is empty, or parts of 1 to 63 letters, digits, hyphens and underscores, no hyphen at an edge, with periods between and perhaps one behind, the last part not a number; a constraint's first part may be empty, and an asterisk and a period may precede two parts or more |
| DnsNameText.MatchesAsText | x509-validator/src/rfc5280/dns_names.rs:25-82 | in lower case and without the constraint's last period: the constraint is empty, or is the name, or is preceded in it by a period and anything, or begins with a period and is preceded by something |
| DnsNameText.EmptyConstraintMatchesAll | x509-validator/src/rfc5280/dns_names.rs:34-36 | the empty constraint is satisfied by exactly the valid names |
| DnsNameText.FoldIsLowercase | x509-validator/src/rfc5280/dns_names.rs:192-200 | folding turns A to Z into a to z and leaves all else |
| DnsConstraintLaws.HostConstraintAsText | x509-validator/src/rfc5280/dns_names.rs:14-21 | a host constraint is satisfied by that host and by any name adding labels on its left |
| DnsConstraintLaws.DomainConstraintAsText | x509-validator/src/rfc5280/dns_names.rs:68-73 | a constraint with a leading period is satisfied by the names that put something before it |
| DnsConstraintLaws.MatchingIsTransitive | x509-validator/src/rfc5280/dns_names.rs:25-82 | a name satisfying a constraint satisfies what that constraint, as a name, satisfies |
| DnsConstraintLaws.AddingLabelsKeepsMatching | x509-validator/src/rfc5280/dns_names.rs:17-21 | adding labels on the left keeps a constraint satisfied while the name stays valid |
| DnsConstraintLaws.MatchingIgnoresCase | x509-validator/src/rfc5280/dns_names.rs:192-200 | the letter case of the name does not matter |
| LabelSplitting.SplitAtLastPeriod | x509-validator/src/rfc5280/dns_names.rs:227-244 | cutting at the last period takes off the last label |
| UriConstraints.UriNameMatchesConstraint | x509-validator/src/rfc5280/uri_constraints.rs:24-38 | a URI satisfies a constraint exactly when it has a host that is no address and satisfies it |
| UriConstraints.ExtractUndoesAssembly | x509-validator/src/rfc5280/uri_constraints.rs:42-90 | the host of a URI assembled from scheme, user information, host, port and tail is the lowercased host |
| UriConstraints.ExtractExactly | x509-validator/src/rfc5280/uri_constraints.rs:42-90 | a text has a host if and only if it is such a URI around that host |
| UriText.NamedHostInText | x509-validator/src/rfc5280/uri_constraints.rs:42-90 | in bytes: scheme://userinfo@host:port and a tail after / ? or # has the host in lower case |
| UriText.BracketedHostInText | x509-validator/src/rfc5280/uri_constraints.rs:42-90 | in bytes: so has a host in brackets, with colons in it or not |
| UriConstraints.UriMatchesAsItsHost | x509-validator/src/rfc5280/uri_constraints.rs:24-38 | an assembled URI satisfies a constraint exactly when its bare host, not an address, does |
| UriConstraints.AssembledTextIsUtf8 | x509-validator/src/rfc5280/uri_constraints.rs:43-43 | a URI assembled from UTF-8 parts is UTF-8 |
| UriText.Utf8Exactly | x509-validator/src/rfc5280/uri_constraints.rs:43-43 | a text is accepted as UTF-8 exactly when it encodes a sequence of characters as RFC 3629 has it |
| ServerIdentityPolicy.PrepareServerHostname | x509-validator/src/server_identity_policy.rs:233-267 | fails exactly on bytes outside the DNS alphabet; otherwise the buffer is the lowercased name without a trailing period and the index its first period |
| ServerIdentityPolicy.AnalyseCertificateHostname | x509-validator/src/server_identity_policy.rs:316-373 | accepts exactly names without an asterisk, or with one, in the first label, that are not IDNA names |
| ServerIdentityPolicy.WildcardMatchIsExact | x509-validator/src/server_identity_policy.rs:383-422 | a pattern matches if and only if the rests agree and the host's first label is prefix, something without periods, and suffix |
| ServerIdentityPolicy.MatchHostname | x509-validator/src/server_identity_policy.rs:157-170 | decides the hostname match as a relation between the two texts |
| HostnameText.MatchesAsText | x509-validator/src/server_identity_policy.rs:157-424 | in bytes: the hostname has letters, digits, hyphens and periods only, and in lower case and without a last period the certificate name is the same, or does not begin with xn-- and has one asterisk in its first label where the hostname has at least one byte and no period |
| HostnameText.MatchesItself | x509-validator/src/server_identity_policy.rs:272-274 | a hostname is good for itself exactly when it is made of letters, digits, hyphens and periods |
| ServerIdentityPolicy.HostnameMatchIgnoresCase | x509-validator/src/server_identity_policy.rs:285-292 | the letter case of neither name matters |
| ServerIdentityPolicy.TrailingPeriodDoesNotMatter | x509-validator/src/server_identity_policy.rs:250-261 | one trailing period added to either name does not matter |
| ServerIdentityPolicy.HasValidIdentityForService | x509-validator/src/server_identity_policy.rs:75-155 | accepts exactly when some alternative name is good, or there is none and the last common name is |
| HostnameText.LeafIsGoodExactly | x509-validator/src/server_identity_policy.rs:75-155 | over the fields: the alternative names decode and one of them is a matching DNS name or the address, or there is none and the last common name matches |
| ServerIdentityPolicy.UnmatchableNamesRuleOutCommonName | x509-validator/src/server_identity_policy.rs:98-126 | alternative names of kinds that are never matched still rule the common name out |
| ServerIdentityPolicy.CommentsHoldExactly | x509-validator/src/server_identity_policy.rs:80-126 | the code decides what its comments say if and only if names of other kinds alone do not shut out a good common name |
| ServerIdentityPolicy.MailAddressRulesOutCommonName | x509-validator/src/server_identity_policy.rs:98-126 | an e-mail address as the only alternative name has the right common name refused |
| Frames.Frame | admin/seed-fuzz-corpus:26-33 | writes every part after its two-byte length, or refuses when one is too long |
| Frames.DecodeFrames | fuzz/fuzzers/common.rs:1-25 | the loop reads frames up to the limit, the last one cut short by the end of the data |
| Frames.FrameInBytes | admin/seed-fuzz-corpus:26-33 | a frame is the part after its length in two bytes, the more significant first |
| Frames.DecodeInBytes | fuzz/fuzzers/common.rs:5-22 | the two bytes, the more significant first, are the length of the frame that follows them |
| Frames.DecodeCutShort | fuzz/fuzzers/common.rs:5-22 | a frame longer than the data left is the data left |
| Frames.DecodeUndoesEncode | fuzz/fuzzers/common.rs:1-25 | decoding an encoding with limit m gives its first m parts |
| Frames.EncodeUndoesDecode | fuzz/fuzzers/common.rs:5-22 | on arbitrary data every frame but a truncated last one re-encodes to the bytes it came from |
| Frames.DecodeIsBounded | fuzz/fuzzers/common.rs:5-5 | there are never more frames than the limit |

## Left out

- The panic on counter overflow in builds with overflow checks; the counter wraps around here as in builds without.
- DER parsing and extension decoding belong to a foreign library; decoded fields are taken as given, and two decoded names are equal when their bytes are.
- The signature algorithms and backends: one arbitrary verification function stands for them.
- The parser for IP address literals: an arbitrary test for URI hosts, and an already parsed server address.
- The standard library's sort: a stable insertion sort on the same array stands for it.
- Rendering of diagnostics and certificates, and the exact wording of reasons the policies format from a certificate.
- Effects of a diagnostic callback other than keeping what it is told.
- Version, expiry and extended key usage policies, and the wrappers that only forward to other policies: one check per certificate or pure delegation.
- The syntax of the composition macros: only the trees they build.
- Reading and writing of corpus files, benchmarks, test kits and the other fuzz targets.
