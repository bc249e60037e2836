# A verified model of the BoringSSL core

This repository puts a JNI socket layer on a vendored copy of BoringSSL. The project models the parts
of that copy in which the difficulty lies, and proves what they are for:

- **Shared state without locks.** The saturating reference count (`Refcount.dfy`) and the ex_data
  registry (`ExDataRegistry.dfy`) are transition systems: any number of threads, each with a program
  counter and locals, one atomic access per step. The results hold in every state of every run.
- **Name constraints** (section 4.2.1.10 of RFC 5280). `DnsNames.dfy`, `Rfc822Names.dfy` and
  `IpUtil.dfy` prove the character, bit and byte level matchers equal to label lists, mailbox scopes
  and CIDR blocks; `GeneralNames.dfy` and `NameConstraints.dfy` hold the parsing of the extension and
  the decisions over a certificate.
- **The RFC 2253 printer** (`Rfc2253.dfy`, `OidText.dfy`) and a strict reader that undoes it, and that it
  undoes (`Rfc2253Reader.dfy`); `StandardNames.dfy` ties the printed type names to their identifiers.
- **Revocation.** OCSP responses (`Ocsp.dfy`, RFC 6960) and CRLs (`Crl.dfy`, section 6.3.3 of RFC 5280).
- **DER values** (ITU-T X.690). Integers, times and the order of encodings (`DerIntegers.dfy`,
  `DerTimes.dfy`, `InputOrder.dfy`), and certificate policies (`CertificatePolicies.dfy`, `Sorting.dfy`).
- **Modular exponentiation** (`ModExp.dfy`) and **the /proc/cpuinfo parser** (`CpuInfo.dfy`).

Code that updates state in place is a class or a method with loops, proved against a specification
function; the theorems are about that function. Lemmas named `...InFields`, `...InStrings` and `...Are` say what
these functions answer in the raw data, without naming a helper that code and specification share. `dafny verify dfyconfig.toml` checks the project.

Three places where the code does not do what its comments or its own checks suggest are kept as they are:

- The assertion in `CRYPTO_free_ex_data` is off by one against the test in
  `CRYPTO_get_ex_new_index_ex`; returned indices still fit an `int`.
- Full matching takes a constraint that spells `*.d` as an exact match of the name `*.d`, so permitting
  the wildcard does not then by itself permit its hosts. `PermittedWildcardPermitsHostsIff` says exactly
  when a permitted wildcard does.
- The details of an OCSP answer can depend on the order of the responses when one of them is unreadable
  (`OrderCanChangeDetails`); `DetailsIgnoreOrderIff` says exactly when. The status never does.

## Model

| member | source | states |
|---|---|---|
| Refcount.StepIsAtomic | src/main/native/boringssl/crypto/refcount.cc:30-59 | One step of either compare-and-swap loop keeps every thread's local bounds and changes the count exactly as its visible event says: +1 on a return from inc below the maximum, -1 on a return from dec, nothing otherwise. |
| Refcount.Linearizable | src/main/native/boringssl/crypto/refcount.cc:30-59 | In every run, with any calls by any threads, each return is one atomic saturating increment or decrement of the shared word, and a zero report says exactly that the decrement left zero. |
| Refcount.SaturationIsPermanent | src/main/native/boringssl/crypto/refcount.cc:34-57 | Once the count is CRYPTO_REFCOUNT_MAX it stays there in every later state of every run, whatever compare-and-swaps were already prepared, and no decrement reports zero from then on. |
| Refcount.StepKeepsLiveInv | src/main/native/boringssl/crypto/refcount.cc:30-59 | A step of a client that uses only references it holds keeps the agreement between the count and the live references. |
| Refcount.CountIsExact | src/main/native/boringssl/crypto/refcount.cc:30-59 | In every interleaving of disciplined clients no thread aborts, no thread owes references, and the count is the number of live references unless it has saturated. |
| Refcount.ZeroMeansLast | src/main/native/boringssl/crypto/refcount.cc:42-59 | A decrement reports zero exactly when it did not start from the saturated count and it dropped the last live reference. |
| Refcount.ZeroIsReportedOnce | src/main/native/boringssl/crypto/refcount.cc:42-59 | Nothing can follow a zero report in a disciplined run, so there is at most one. |
| Refcount.SaturatesBeforeWrapping | src/main/native/boringssl/crypto/internal.h:583-600 | The count saturates at the last value before a 32-bit word would wrap to zero. |
| Refcount.FinishesAlone | src/main/native/boringssl/crypto/refcount.cc:30-59 | A call that runs alone without spurious failures finishes within four steps, whatever stale value it starts from. |
| Refcount.NeverStuck | src/main/native/boringssl/crypto/refcount.cc:30-59 | A call in progress can always take a step that is not a spurious failure. |
| Refcount.ChangeMeansReturn | src/main/native/boringssl/crypto/refcount.cc:34-57 | Lock freedom: the count differs between two moments only if some call returned in between, so a retry that is not spurious is paid for by another call. |
| ExDataRegistry.LinkKeepsMem | src/main/native/boringssl/crypto/ex_data.cc:59-67 | Writing the tail's `next` (or `funcs`) appends to the list in memory: the old links, the nodes and their order survive. |
| ExDataRegistry.OutsideIsStable | src/main/native/boringssl/crypto/ex_data.cc:109-134 | A thread outside the lock, a reader in mid-traversal included, keeps its facts under everything another thread may do. |
| ExDataRegistry.StepKeepsInv | src/main/native/boringssl/crypto/ex_data.cc:36-134 | Every atomic step of every thread, registering or traversing, keeps the whole invariant: list shape, lock, locals at each program point, node ownership, returned indices. |
| ExDataRegistry.LogGrows | src/main/native/boringssl/crypto/ex_data.cc:36-72 | Along every run registrations are only appended and the published counter never falls. |
| ExDataRegistry.ReaderSeesExactPrefix | src/main/native/boringssl/crypto/ex_data.cc:109-134 | A reader never follows a null or wild pointer, and one that loaded n has run exactly the free functions of the first n registrations, in order and with their indices. |
| ExDataRegistry.ReaderRunsEachOnce | src/main/native/boringssl/crypto/ex_data.cc:120-130 | A finished reader's calls have strictly increasing indices and are exactly the registrations below its count that have a free function, each under its own index: none is run twice, none is missed. |
| ExDataRegistry.CallbackStays | src/main/native/boringssl/crypto/ex_data.cc:38-46 | The node a registration allocates holds the arguments its caller passed, in every later state. |
| ExDataRegistry.ReturnedIsVisited | src/main/native/boringssl/crypto/ex_data.cc:36-134 | Real-time visibility: if a registration had returned its index when a reader loaded the count, that reader runs its free function, unless NULL, under that index. |
| ExDataRegistry.CountedIffPublished | src/main/native/boringssl/crypto/ex_data.cc:69-71 | The counter covers an index exactly when the registration that gets the index has stored the counter. |
| ExDataRegistry.NoDataRace | src/main/native/boringssl/crypto/internal.h:726-737 | The pointer cell an appending thread is about to write is never the cell a lock-free reader is about to follow. |
| ExDataRegistry.IndicesArePositions | src/main/native/boringssl/crypto/ex_data.cc:50-71 | A returned index is at least `num_reserved`, at most INT_MAX, and is the position of the caller's own node in the list. |
| ExDataRegistry.IndicesAreDistinct | src/main/native/boringssl/crypto/ex_data.cc:36-72 | Two registrations never get the same index. |
| ExDataRegistry.IndicesAreConsecutive | src/main/native/boringssl/crypto/ex_data.cc:36-72 | When no call is in progress, the returned indices are exactly those from `num_reserved` up to the counter. |
| ExDataRegistry.ReaderAssertionIff | src/main/native/boringssl/crypto/ex_data.cc:117-118 | The reader's assertion holds exactly when the registration that gets index INT_MAX had not been published before the reader's load. |
| ExDataRegistry.ReaderAssertionCanFail | src/main/native/boringssl/crypto/ex_data.cc:53-118 | For every `num_reserved` there is a run that fails the assertion: the test before the append admits one registration more than the assertion does. |
| ExDataObject.ExData.constructor | src/main/native/boringssl/crypto/ex_data.cc:107-107 | A new object has no stack. |
| ExDataObject.ExData.Set | src/main/native/boringssl/crypto/ex_data.cc:74-98 | Setting changes what is found at that index and at no other, even if padding fails half-way; it aborts exactly on a negative index and fails exactly when an allocation does. |
| ExDataObject.ExData.Get | src/main/native/boringssl/crypto/ex_data.cc:100-105 | Reading gives the stored pointer, or NULL for an index that is negative or past the stack. |
| DnsNames.FullMatchIsFoldedMatch | src/main/native/boringssl/pki/name_constraints.cc:57-113 | Without the wildcard rule the matcher compares case-folded names after removing one trailing dot, with the dot boundary in the right place. |
| DnsNames.DotSuffixIsLabelSuffix | src/main/native/boringssl/pki/name_constraints.cc:92-112 | A name ends with a dot and then d exactly when the labels of d are a proper suffix of its labels. |
| DnsNames.FullMatchIsSubtree | src/main/native/boringssl/pki/name_constraints.cc:57-113 | The character-level matcher equals the label-level subtree: label suffix ignoring case, proper suffix for a leading-dot constraint, everything for the empty one. |
| DnsNames.ExpansionInSubtree | src/main/native/boringssl/pki/name_constraints.cc:57-113 | Expanding `*.d` by a label lands in the subtree exactly when the constraint covers d or names that very child of d. |
| DnsNames.PartialMatchIsReach | src/main/native/boringssl/pki/name_constraints.cc:72-90 | For a wildcard name, partial matching holds exactly when the constraint covers the domain or has the same parent. |
| DnsNames.PartialMatchIsSomeExpansion | src/main/native/boringssl/pki/name_constraints.cc:57-113 | `*.d` matches partially exactly when some dot-free label puts its expansion in the subtree; leaving out the label `*`, exactly when some other label does or the constraint is `*.d` itself. |
| DnsNames.FullMatchIsEveryExpansion | src/main/native/boringssl/pki/name_constraints.cc:57-113 | `*.d` matches fully exactly when every expansion is in the subtree or the constraint spells `*.d`; the simple equivalence holds if and only if the constraint does not spell it. |
| Strings.EqualNoCaseIsSameUpToCase | src/main/native/boringssl/pki/string_util.cc:27-32 | Two strings are equal ignoring case exactly when they agree character by character up to the case of the letters A to Z. |
| Strings.SplitStringIs | src/main/native/boringssl/pki/string_util.cc:92-116 | How a string splits: the empty one into nothing, others at each separator, empty pieces kept. |
| DnsNames.NameDotIsIgnored | src/main/native/boringssl/pki/name_constraints.cc:64-66 | A trailing dot on the name changes no match. |
| DnsNames.ConstraintDotIsIgnored | src/main/native/boringssl/pki/name_constraints.cc:67-69 | A trailing dot on a non-empty constraint changes no match. |
| DnsNames.CaseIsIgnored | src/main/native/boringssl/pki/name_constraints.cc:57-113 | Writing the name or the constraint in other cases changes no match, full or partial. |
| DnsNames.FullMatchInStrings | src/main/native/boringssl/pki/name_constraints.cc:92-112 | Over strings without outer dots: a name matches d exactly when it is d, or ends with a dot and d, up to case; it matches `.d` exactly when it ends with a dot and d. |
| DnsNames.OnlyWildcardsMatchPartially | src/main/native/boringssl/pki/name_constraints.cc:77-90 | Partial matching adds nothing for a name that does not start with `*.`. |
| DnsNames.WildcardMatchesSibling | src/main/native/boringssl/pki/name_constraints.cc:77-90 | `*.d` matches `x.d` partially, for every dot-free x and every d without a final dot. |
| DnsNames.EmptyConstraintMatchesAll | src/main/native/boringssl/pki/name_constraints.cc:57-63 | The empty constraint matches every name. |
| Rfc822Names.DomainConstraint | src/main/native/boringssl/pki/name_constraints.cc:218-274 | A constraint that is a domain matches exactly the mailboxes at that host, or strictly below it for a leading dot, ignoring case. |
| Rfc822Names.MailboxConstraint | src/main/native/boringssl/pki/name_constraints.cc:218-274 | A constraint that is a mailbox matches exactly that mailbox, with case ignored in the domain and, if asked, in the local part. |
| Rfc822Names.MatchIsScope | src/main/native/boringssl/pki/name_constraints.cc:218-274 | Over all strings, a well-formed constraint matches exactly the mailboxes in its scope, and a malformed one matches if and only if it is an exclusion. |
| Rfc822Names.AllowedAre | src/main/native/boringssl/pki/name_constraints.cc:176-216 | Which characters local parts and domains may have, by ASCII code; neither may be empty. |
| Rfc822Names.MatchInStrings | src/main/native/boringssl/pki/name_constraints.cc:218-274 | A constraint matches as strings: the same host up to case, a host ending with the dotted constraint, or the same mailbox; malformed ones match if they exclude. |
| GeneralNames.ParseGeneralName | src/main/native/boringssl/pki/general_names.cc:98-217 | Accepts exactly the names with a known tag, ASCII text, a SEQUENCE for a directory name, and an address, or an address and a netmask, of the right size; adds the name to the list of its kind and marks its type present. |
| GeneralNames.CreateFromValue | src/main/native/boringssl/pki/general_names.cc:68-96 | A list of alternative names parses exactly when it is not empty and every name is acceptable, and collects every name once, in order. |
| GeneralNames.CollectedIsCoherent | src/main/native/boringssl/pki/general_names.cc:98-217 | After parsing, a supported type is marked present exactly when its list is not empty, and no list holds more than was read. |
| GeneralNames.CollectedSnoc | src/main/native/boringssl/pki/general_names.cc:98-217 | One more name extends the list of its kind at the end, adds its type, and leaves all else as it was. |
| GeneralNames.CollectedOne | src/main/native/boringssl/pki/general_names.cc:98-217 | What a single name of each kind is collected as, type and range halves included. |
| GeneralNames.AcceptableTextIs | src/main/native/boringssl/pki/general_names.cc:114-161 | Text names are accepted exactly when every byte is at most 127. |
| GeneralNames.AcceptableOthersAre | src/main/native/boringssl/pki/general_names.cc:106-213 | Unreadable names, unknown tags and directory names without a SEQUENCE are refused; directory names and the unsupported kinds are not. |
| GeneralNames.TextIsBytes | src/main/native/boringssl/pki/general_names.cc:117-131 | The text of a name is its bytes, one character each. |
| GeneralNames.AcceptableIpIs | src/main/native/boringssl/pki/general_names.cc:162-204 | Addresses are accepted with exactly 4 or 16 octets; ranges with 8 or 32, the second half being ones and then zeros. |
| GeneralNames.HalvesAre | src/main/native/boringssl/pki/general_names.cc:197-203 | The first half of a range is its address and the second half its mask. |
| GeneralNames.ParsedRangeIsBlock | src/main/native/boringssl/pki/general_names.cc:180-204 | Every address range that parsing lets through is a CIDR block: matching it is agreement above the lowest 8n - k bits, within its own family. |
| NameConstraints.ParseGeneralSubtrees | src/main/native/boringssl/pki/name_constraints.cc:121-174 | Parses exactly the non-empty lists of well-formed subtrees with acceptable names and no distance, and collects every name. |
| NameConstraints.FieldInFields | src/main/native/boringssl/pki/name_constraints.cc:121-174 | A field is readable exactly when it is absent, or lists at least one subtree and every one is well formed, acceptable and without a distance; its names are then the bases in order. |
| NameConstraints.NameConstraints.Parse | src/main/native/boringssl/pki/name_constraints.cc:303-363 | Parsing succeeds exactly when there is one SEQUENCE and nothing after it, both fields parse, one is present and nothing follows them; the constraints are then the names listed, and the constrained types those present, unsupported ones only if the extension is critical. |
| NameConstraints.PermittedIpIsByBlocks | src/main/native/boringssl/pki/name_constraints.cc:686-708 | An address is permitted by a parsed extension exactly when it is in no excluded CIDR block and, if any are permitted, in one of those. |
| NameConstraints.NameConstraints.IsPermittedDnsName | src/main/native/boringssl/pki/name_constraints.cc:635-661 | The two early-exit scans decide `PermittedDns`: outside every excluded subtree (partial matching) and, if DNS names are constrained, inside a permitted one (full matching). |
| NameConstraints.NameConstraints.IsPermittedRfc822Name | src/main/native/boringssl/pki/name_constraints.cc:529-633 | The scans decide whether a mailbox is well formed, outside every exclusion and inside a permitted constraint; malformed names are refused. |
| NameConstraints.NameConstraints.IsPermittedDirectoryName | src/main/native/boringssl/pki/name_constraints.cc:663-684 | The scans decide whether a directory name is outside every excluded and inside some permitted subtree. |
| NameConstraints.NameConstraints.IsPermittedIp | src/main/native/boringssl/pki/name_constraints.cc:686-708 | The scans decide whether an address is outside every excluded and inside some permitted range. |
| NameConstraints.NameConstraints.AreSubjectAltNamesPermitted | src/main/native/boringssl/pki/name_constraints.cc:428-481 | The alternative names pass exactly when no critically constrained unsupported type is present and each name is permitted. |
| NameConstraints.WrapIsDetected | src/main/native/boringssl/pki/name_constraints.cc:400-403 | Dividing a product wrapped at any limit by one factor gives the other factor exactly when nothing wrapped. |
| NameConstraints.GuardIsExact | src/main/native/boringssl/pki/name_constraints.cc:376-406 | The guard on the wrapped 64-bit product fires exactly when the unbounded product is over 2^20. |
| NameConstraints.NameConstraints.IsPermittedCert | src/main/native/boringssl/pki/name_constraints.cc:365-527 | Adds no error, TOO_MANY_CHECKS or NOT_PERMITTED exactly as the unbounded product and the per-name decisions say, for the SAN-present and the SAN-absent case, and leaves earlier errors alone. |
| NameConstraints.NoErrorWithSan | src/main/native/boringssl/pki/name_constraints.cc:365-527 | With alternative names there is no error exactly when the product of the counts is at most 2^20, no constrained unsupported type is present, every name is permitted, and so is a non-empty subject. |
| NameConstraints.NoErrorWithoutSan | src/main/native/boringssl/pki/name_constraints.cc:365-527 | Without them there is no error exactly when the product is at most 2^20, the subject is permitted and, if mailboxes are constrained, its e-mail addresses can be read and are permitted. |
| NameConstraints.ErrorsAreToldApart | src/main/native/boringssl/pki/name_constraints.cc:400-406 | Too many checks are reported alone, exactly when the product is over 2^20, and there is never more than one error. |
| NameConstraints.PermittedIsAllowed | src/main/native/boringssl/pki/name_constraints.cc:635-708 | DNS names, directory names and addresses follow one rule: no exclusion hits, and if the type is restricted some permission holds. |
| NameConstraints.PermittedMailboxIsAllowed | src/main/native/boringssl/pki/name_constraints.cc:529-633 | Mailboxes follow the same rule; malformed exclusions hit everything and malformed permissions hold nothing. |
| NameConstraints.OnlyMailboxesArePermitted | src/main/native/boringssl/pki/name_constraints.cc:529-560 | A name that is not a well-formed mailbox is refused. |
| NameConstraints.SupportedTypesAre | src/main/native/boringssl/pki/name_constraints.cc:35-37 | The supported types are exactly mailboxes, DNS names, directory names and addresses. |
| NameConstraints.HostIsPermitted | src/main/native/boringssl/pki/name_constraints.cc:635-661 | A permitted `*.d` permits every host it stands for, unless a permitted constraint spells `*.d`. |
| NameConstraints.AllHostsPermittedIff | src/main/native/boringssl/pki/name_constraints.cc:635-661 | Every host `l.d` is permitted exactly when each exclusion that matches `*.d` partially only spells `*.d`, and, if DNS names are restricted, some permitted constraint matches `*.d` fully without spelling it. |
| NameConstraints.PermittedWildcardPermitsHostsIff | src/main/native/boringssl/pki/name_constraints.cc:635-661 | A permitted `*.d` permits every host it stands for exactly when DNS names are not restricted or some permitted constraint matches `*.d` fully without spelling it. |
| NameConstraints.WildcardPermittedIff | src/main/native/boringssl/pki/name_constraints.cc:635-661 | `*.d` itself is permitted exactly when no exclusion spells it and either all its hosts are permitted, or a permitted constraint spells it and no exclusion matches it. |
| NameConstraints.SpelledWildcardCounterexample | src/main/native/boringssl/pki/name_constraints.cc:92-99 | The permitted constraint `*.a` lets `*.a` through while it permits no host under `a`. |
| NameConstraints.IgnoringCaseForbidsMore | src/main/native/boringssl/pki/name_constraints.cc:529-633 | Ignoring case in local parts of exclusions, as for subject e-mail addresses, can only forbid more. |
| NameConstraints.DomainCaseIsIrrelevant | src/main/native/boringssl/pki/name_constraints.cc:529-633 | Two spellings of a mailbox that differ only in the case of the domain get the same decision. |
| IpUtil.IsValidNetmask | src/main/native/boringssl/pki/ip_util.cc:9-34 | Accepts exactly the 4- or 16-byte masks of k ones followed by zeros. |
| IpUtil.PrefixMaskValue | src/main/native/boringssl/pki/ip_util.cc:9-34 | As an integer, such a mask of n bytes is 2^(8n) - 2^(8n-k). |
| IpUtil.IpAddressMatchesWithNetmask | src/main/native/boringssl/pki/ip_util.cc:36-47 | The byte loop decides agreement of all masked bytes, and refuses addresses and masks of different lengths. |
| IpUtil.MatchIsSameBlock | src/main/native/boringssl/pki/ip_util.cc:36-47 | Under a mask of k ones, matching is equality of the big-endian integers divided by 2^(8n-k): the mask is a CIDR block. |
| IpUtil.RangesNestOrAreDisjoint | src/main/native/boringssl/pki/ip_util.cc:36-47 | Two ranges of one family that share an address are nested, the one with the longer mask inside. |
| OidText.ReadIsMinimal | src/main/native/boringssl/crypto/bytestring/cbs.cc:243-265 | Base-128 reading accepts only the minimal octets of the number it returns, and leaves the rest untouched. |
| OidText.DecimalRoundTrip | src/main/native/boringssl/crypto/bytestring/cbs.cc:676-680 | Decimal printing of a component is undone by reading it. |
| OidText.OidToStringIsInjective | src/main/native/boringssl/crypto/bytestring/cbs.cc:705-746 | Different identifiers never have the same dotted text. |
| OidText.OidOfArcs | src/main/native/boringssl/crypto/bytestring/cbs.cc:705-746 | Every identifier whose numbers fit 64 bits prints as those numbers, the first two taken from their shared encoding. |
| StandardNames.ShortNamesAreStandard | src/main/native/boringssl/pki/parse_name.cc:85-109 | Which attribute types print by which name, by their dotted identifiers: exactly the nine of X.520 and PKCS #9 that the code knows. |
| Rfc2253.Escape | src/main/native/boringssl/pki/parse_name.cc:117-136 | The escaping loop, which treats the first and the last byte specially, gives the byte-by-byte escape and reports whether a hex pair was needed. |
| Rfc2253.AsRfc2253String | src/main/native/boringssl/pki/parse_name.cc:81-147 | Prints type and value, choosing short name or dotted type, escaped text or '#' and hex, and failing exactly when the type or the text cannot be read. |
| Rfc2253.ConvertToRfc2253 | src/main/native/boringssl/pki/parse_name.cc:208-232 | The nested loops print the attributes of each RDN in order and the RDNs in reverse, and fail exactly when an attribute does. |
| Rfc2253Reader.HexDecodeEncode | src/main/native/boringssl/pki/string_util.cc:75-82 | Hex encoding is undone by decoding, for all byte strings. |
| Rfc2253Reader.UnescapeEscape | src/main/native/boringssl/pki/parse_name.cc:117-136 | A strict reader undoes escaping from any position of any byte string. It refuses an unescaped special character, leading '#' or space, trailing space or unprintable character, and every escape that is not needed. |
| Rfc2253Reader.EscapeIsOnlySpelling | src/main/native/boringssl/pki/parse_name.cc:117-136 | The escaped text is the only one that reader takes for the bytes. |
| Rfc2253Reader.PrintUndoesRead | src/main/native/boringssl/pki/parse_name.cc:81-147 | Printing is canonical: a value that reads back prints as the same characters, text or '#' and upper-case hex. |
| Rfc2253Reader.ContentInFields | src/main/native/boringssl/pki/parse_name.cc:63-79 | Which bytes a printed value stands for, by attribute type and string tag; unprintable TeletexStrings and unnamed types are raw. |
| Rfc2253Reader.PrintedAttributeIs | src/main/native/boringssl/pki/parse_name.cc:81-147 | An attribute fails to print exactly when its value has no text or its unnamed type none; otherwise it reads back with its short name or dotted type. |
| Rfc2253Reader.SplitJoin | src/main/native/boringssl/pki/parse_name.cc:208-232 | Splitting at unescaped separators undoes joining, for pieces without one. |
| Rfc2253Reader.ReadPrintedAttribute | src/main/native/boringssl/pki/parse_name.cc:81-147 | Cutting a printed attribute at its first '=' and unescaping gives its type label and its value bytes. |
| Rfc2253Reader.ReadUndoesPrint | src/main/native/boringssl/pki/parse_name.cc:208-232 | For every name with non-empty RDNs that prints, the reader recovers each type and value, plain or hex, in the original order of RDNs and attributes. |
| Rfc2253Reader.ReadUndoesPrintIff | src/main/native/boringssl/pki/parse_name.cc:208-232 | For every name that prints, the round trip holds if and only if no RDN is empty. |
| Rfc2253Reader.LabelDeterminesType | src/main/native/boringssl/pki/parse_name.cc:81-104 | Equal printed types, short or dotted, mean equal identifiers. |
| Rfc2253Reader.PrintIsInjective | src/main/native/boringssl/pki/parse_name.cc:208-232 | Names that print alike agree attribute by attribute in identifier and content. |
| ModExp.Round | src/main/native/boringssl/fuzz/bn_mod_exp.cc:44-55 | One round of square-and-multiply, on reduced numbers, keeps r * base^exp congruent to the goal. |
| ModExp.ModExp | src/main/native/boringssl/fuzz/bn_mod_exp.cc:28-58 | For every integer a, p >= 0 and m >= 1 the loop ends with a^p reduced to [0, m), also for m = 1, p = 0 and negative a. |
| ModExp.PowAdds | src/main/native/boringssl/fuzz/bn_mod_exp.cc:28-58 | The power the result is measured by is exponentiation: x^0 = 1, x^1 = x, and exponents add. |
| InputOrder.LessThan | src/main/native/boringssl/pki/input.h:131-147 | The pointer-advancing loop decides lexicographic order. |
| InputOrder.LessIsTransitive | src/main/native/boringssl/pki/input.h:131-147 | The order is transitive. |
| InputOrder.LessIsTotal | src/main/native/boringssl/pki/input.h:131-147 | Of two inputs exactly one is less, unless they are equal byte for byte. |
| InputOrder.LessIsByFirstDifference | src/main/native/boringssl/pki/input.h:131-147 | One input is less than another exactly when it is a proper prefix or smaller in the first byte that differs. |
| ByteReader.ByteReader.ReadByte | src/main/native/boringssl/pki/input.h:165-190 | Reading takes the first byte off the remaining input, or fails and changes nothing at its end. |
| DerIntegers.LengthTestIsExact | src/main/native/boringssl/pki/parse_values.cc:138-203 | The octet count without a leading zero is at most 8 exactly when the value is below 2^64. |
| DerIntegers.ParseUint64 | src/main/native/boringssl/pki/parse_values.cc:181-203 | Accepts exactly the minimal non-negative encodings below 2^64 and returns the exact big-endian value, nine octets included. |
| DerIntegers.EncodingIsUnique | src/main/native/boringssl/pki/parse_values.cc:181-203 | Different accepted encodings have different values. |
| DerIntegers.EncodeUnsigned | src/main/native/boringssl/pki/parse_values.cc:169-203 | Every non-negative integer has a minimal encoding with that value, so parsing reaches all of them. |
| DerTimes.ValidateGeneralizedTime | src/main/native/boringssl/pki/parse_values.cc:72-127 | Accepts exactly the times whose month, day (by month and leap year), hour, minute and second are in range, a leap second included. |
| DerTimes.DecimalStringToUint | src/main/native/boringssl/pki/parse_values.cc:50-69 | Reads exactly `digits` decimal digits off the reader and returns their value, or fails if they are not there. |
| DerTimes.WriteTwoDigit | src/main/native/boringssl/pki/encode_values.cc:30-37 | Writes the two digits of a value below 100 and touches no other byte. |
| DerTimes.WriteFourDigit | src/main/native/boringssl/pki/encode_values.cc:16-28 | Dividing down by ten writes the four digits of a value below 10000. |
| DerTimes.EncodeGeneralizedTime | src/main/native/boringssl/pki/encode_values.cc:74-85 | Succeeds exactly when year and fields fit their digits, and fills the buffer with the time's encoding. |
| DerTimes.EncodeUtcTime | src/main/native/boringssl/pki/encode_values.cc:87-106 | Succeeds exactly for years 1950 to 2049 with fields that fit, and fills the buffer with the time's encoding. |
| DerTimes.ParseGeneralizedTime | src/main/native/boringssl/pki/parse_values.cc:344-364 | The inverse of encoding: accepts exactly the encodings of valid times with years below 10000, and returns that time. |
| DerTimes.ParseUtcTime | src/main/native/boringssl/pki/parse_values.cc:317-342 | The inverse of encoding: accepts exactly the encodings of valid times from 1950 to 2049, and returns that time with its century. |
| DerTimes.GeneralizedIsInjective | src/main/native/boringssl/pki/encode_values.cc:74-85 | Different encodable times have different GeneralizedTime encodings. |
| DerTimes.UtcIsInjective | src/main/native/boringssl/pki/encode_values.cc:87-106 | Different times from 1950 to 2049 have different UTCTime encodings. |
| DerTimes.ByteOrderIsTimeOrder | src/main/native/boringssl/pki/parse_values.cc:299-303 | On encodable times the byte order of GeneralizedTime encodings is the order of the times. |
| DerTimes.GeneralizedBytesAre | src/main/native/boringssl/pki/encode_values.cc:74-85 | The fifteen characters of a GeneralizedTime, each as a digit of its field. |
| DerTimes.UtcBytesAre | src/main/native/boringssl/pki/encode_values.cc:87-106 | The thirteen characters of a UTCTime, for the years 1950 to 2049. |
| DerTimes.ValidInFields | src/main/native/boringssl/pki/parse_values.cc:72-127 | The calendar by months of 31, 30 and 28 days, and 29 February in Gregorian leap years. |
| DerTimes.BeforeInFields | src/main/native/boringssl/pki/parse_values.cc:299-303 | The order of times is that of one number with a digit for each field, from the year down. |
| CpuInfo.Split | src/main/native/boringssl/crypto/cpu_arm_linux.h:54-67 | Splits at the first separator, also when an output is the input. |
| CpuInfo.GetDelimited | src/main/native/boringssl/crypto/cpu_arm_linux.h:73-84 | Takes the first entry off the text and leaves the entries after it, so that a scan sees each once and ends. |
| CpuInfo.Trim | src/main/native/boringssl/crypto/cpu_arm_linux.h:87-96 | Removes exactly the leading and trailing blanks. |
| CpuInfo.TrimmedIsUnique | src/main/native/boringssl/crypto/cpu_arm_linux.h:87-96 | A text has only one trimmed form. |
| CpuInfo.ExtractField | src/main/native/boringssl/crypto/cpu_arm_linux.h:101-119 | Returns the trimmed value of the first line whose trimmed key is the field, or reports that there is none. |
| CpuInfo.HasListItem | src/main/native/boringssl/crypto/cpu_arm_linux.h:123-131 | Decides whether the word is one of the space-separated entries. |
| CpuInfo.GetArmHwcap2FromCpuinfo | src/main/native/boringssl/crypto/cpu_arm_linux.h:135-156 | For every text, each capability bit is set exactly when the first Features line lists its word. |
| CpuInfo.EntriesAre | src/main/native/boringssl/crypto/cpu_arm_linux.h:73-84 | How a text falls into entries: up to the first separator, then the rest; a final separator starts none. |
| CpuInfo.TrimmedIs | src/main/native/boringssl/crypto/cpu_arm_linux.h:87-96 | Spaces and tabs around a text that has none at its ends are what trimming removes. |
| CpuInfo.FeaturesLineDecides | src/main/native/boringssl/crypto/cpu_arm_linux.h:101-156 | A first line `Features : words`, with any blanks around key and value, decides all features, whatever follows. |
| CpuInfo.OtherLineIsSkipped | src/main/native/boringssl/crypto/cpu_arm_linux.h:101-119 | A line with another key, or without a colon, is passed over. |
| CpuInfo.FieldLinesAre | src/main/native/boringssl/crypto/cpu_arm_linux.h:106-111 | A line is for a field exactly when the field, blanks aside, stands before its first colon. |
| Sorting.Sort | src/main/native/boringssl/pki/certificate_policies.cc:210-210 | Sorting gives an ordered permutation. |
| Sorting.AdjacentFind | src/main/native/boringssl/pki/certificate_policies.cc:211-217 | On a sorted list, the adjacent scan finds an equal pair, or the list is strictly increasing. |
| Sorting.PermutationKeepsDuplicates | src/main/native/boringssl/pki/certificate_policies.cc:208-217 | Sorting neither creates nor hides a duplicate. |
| CertificatePolicies.ParseCertificatePolicies | src/main/native/boringssl/pki/certificate_policies.cc:131-219 | Succeeds exactly when the list is there, non-empty, well formed and without a repeated OID, and then returns the OIDs in strictly increasing order; reports a duplicate exactly when the OIDs read hold one, and names an OID that occurs twice. |
| Revocation.InDateIsAnInterval | src/main/native/boringssl/pki/revocation_util.cc:19-57 | With or without a maximum age, the moments at which a response is in date form one interval. |
| Revocation.EmptyWindowIsNeverInDate | src/main/native/boringssl/pki/revocation_util.cc:36-42 | A response that expires no later than it starts is never in date. |
| Revocation.InDateIff | src/main/native/boringssl/pki/revocation_util.cc:19-57 | In date exactly when the time is in the years 0 to 9999, thisUpdate is not after it, nextUpdate is after it, and thisUpdate is not before the earliest time the maximum age allows. |
| Revocation.LargerAgeAcceptsMore | src/main/native/boringssl/pki/revocation_util.cc:44-54 | A larger maximum age, or none, accepts at least as much. |
| CertificatePolicies.ParsePolicyQualifiers | src/main/native/boringssl/pki/certificate_policies.cc:42-93 | Accepts exactly the non-empty lists of complete qualifiers, all of a known kind if that is asked; a qualifier is reported as unknown only if the list holds it. |
| CertificatePolicies.StrictAcceptsLess | src/main/native/boringssl/pki/certificate_policies.cc:193-205 | Refusing unknown qualifiers refuses exactly those entries that have one. |
| CertificatePolicies.AcceptableInFields | src/main/native/boringssl/pki/certificate_policies.cc:159-206 | An entry is accepted without qualifiers, or with complete ones that are CPS pointers or user notices where that is asked or the policy is anyPolicy. |
| Ocsp.GetRevocationStatusForCert | src/main/native/boringssl/pki/ocsp.cc:801-864 | If every response is readable the fold gives the strictest status among matching in-date responses and the details by which kinds occur; otherwise UNKNOWN, with the details as of the first unreadable response or the extension error of that response. |
| Ocsp.CertIdMatchesIsNamesCert | src/main/native/boringssl/pki/ocsp.cc:548-586 | A CertID matches exactly when its digest is SHA-1 or SHA-2, it hashes the certificate's issuer name and the issuer's key, and it has the certificate's serial number. |
| Ocsp.ExtensionsInFields | src/main/native/boringssl/pki/ocsp.cc:742-798 | Which extensions make a response unusable: malformed ones, and critical ones other than certificate transparency; in the response data, any critical one. |
| Ocsp.ReadableInFields | src/main/native/boringssl/pki/ocsp.cc:801-864 | A single response is readable if it parses, its extensions are understood and its CertID parses. |
| Ocsp.StatusInFields | src/main/native/boringssl/pki/ocsp.cc:801-864 | REVOKED exactly when the list is readable and a response that names the certificate and is in date says so; GOOD exactly when there is such a response and all of them say good. |
| Ocsp.DetailsInFields | src/main/native/boringssl/pki/ocsp.cc:801-864 | PROVIDED exactly when a response of a readable list names the certificate and is in date; NO_MATCHING_RESPONSE exactly when none names it. |
| Ocsp.OrderDoesNotMatter | src/main/native/boringssl/pki/ocsp.cc:801-864 | Permuting the responses never changes the status, and does not change the details if every response is readable. |
| Ocsp.OrderCanChangeDetails | src/main/native/boringssl/pki/ocsp.cc:801-864 | Two orders of the same two responses, one of them unreadable, give NO_MATCHING_RESPONSE and PROVIDED. |
| Ocsp.DetailsIgnoreOrderIff | src/main/native/boringssl/pki/ocsp.cc:801-864 | The details are the same in every order exactly when all responses are readable, or the unreadable ones all report one and the same extension error, or they report none and no response matches. |
| Ocsp.VerifyAuthorizedResponderCert | src/main/native/boringssl/pki/ocsp.cc:646-674 | A responder is authorized exactly when the issuer signed it and its extended key usage holds OCSPSigning. |
| Ocsp.VerifyOcspResponseSignature | src/main/native/boringssl/pki/ocsp.cc:687-738 | A response is accepted exactly when the issuer matches the responder ID and signed it, or an included, matching, authorized certificate did. |
| Ocsp.ResponderIdInFields | src/main/native/boringssl/pki/ocsp.cc:612-635 | A responder ID names a certificate by its subject or by the SHA-1 hash of its key. |
| Ocsp.AuthenticInFields | src/main/native/boringssl/pki/ocsp.cc:687-738 | In the fields of the certificates: the issuer matches and signed, or an included certificate matches, was signed by the issuer, holds the OCSPSigning usage, and signed. |
| Ocsp.CheckOcsp | src/main/native/boringssl/pki/ocsp.cc:866-964 | GOOD or REVOKED only from an authentic, readable response produced within the certificate's validity, with details PROVIDED, and then the strictest status; each failure has its own details, and a response that gets as far as the fold keeps the fold's details even if its signature is bad. |
| Ocsp.UsableInFields | src/main/native/boringssl/pki/ocsp.cc:866-964 | What a usable response is, in its fields, for parsed and for encoded certificates. |
| Crl.GetCrlStatusForCert | src/main/native/boringssl/pki/crl.cc:306-402 | UNKNOWN for a malformed or empty list or any unreadable entry, even after a match; REVOKED only with an entry of that serial number; GOOD with a list only if every entry has another; GOOD without one. |
| Crl.ListStatusInFields | src/main/native/boringssl/pki/crl.cc:306-402 | REVOKED exactly when every entry is readable and one has the serial number; GOOD exactly when there is no list, or every entry is readable and has another. |
| Crl.ReadableInFields | src/main/native/boringssl/pki/crl.cc:338-388 | An entry is readable if it parses to its end and has extensions only in v2 and none of them critical. |
| Crl.OrderDoesNotMatter | src/main/native/boringssl/pki/crl.cc:306-402 | Permuting the entries does not change the status. |
| Crl.ContainsExactMatchingName | src/main/native/boringssl/pki/crl.cc:39-47 | Sorting and intersecting two lists finds whether they share a name. |
| Crl.CheckExtensions | src/main/native/boringssl/pki/crl.cc:516-608 | Accepts exactly when the extensions parse, no critical one besides the issuing distribution point is there, and its names and scope cover the certificate. |
| Crl.CoversInFields | src/main/native/boringssl/pki/crl.cc:537-599 | The issuing distribution point covers a certificate exactly when the names share one, and user or CA scope fits its version and basic constraints. |
| Crl.InScopeInFields | src/main/native/boringssl/pki/crl.cc:516-608 | The only critical extension allowed is the issuing distribution point, which must parse and cover the certificate. |
| Crl.CheckCrl | src/main/native/boringssl/pki/crl.cc:407-671 | Answers from the list exactly when the CRL is current, complete, issued by the certificate's issuer, in scope and signed by a later certificate of the chain that may sign CRLs; otherwise UNKNOWN. |
| Crl.AnswerInFields | src/main/native/boringssl/pki/crl.cc:407-671 | An answer other than UNKNOWN implies each check of steps (a), (b), (f) and (g) in the fields, and REVOKED an entry with the certificate's serial number. |
| Crl.SignedCrlAnswers | src/main/native/boringssl/pki/crl.cc:407-671 | A current CRL in scope, signed by a certificate of the issuer, gives REVOKED or GOOD by whether the serial number is listed. |
| Crl.PrependingChangesNothing | src/main/native/boringssl/pki/crl.cc:622-670 | Prepending certificates and shifting the target index leaves the answer unchanged. |
| Crl.IssuerOrderDoesNotMatter | src/main/native/boringssl/pki/crl.cc:622-670 | Neither the order nor the repetition of the issuers above the target matters. |
| Crl.MoreIssuersOnlyDecide | src/main/native/boringssl/pki/crl.cc:622-670 | More issuers can turn UNKNOWN into an answer, but never one answer into another. |

## Left out

- The Java classes, the JNI socket layer and `socket_util.h`: system calls and JVM plumbing.
- CPU feature probing, thread wrappers, allocator hooks and fuzz drivers other than `mod_exp`: thin layers over the platform.
- The ASN.1 byte layer under `der::Parser`: the OCSP, CRL, policy and name models start from entries that are parsed or malformed.
- Signatures, digests, key extraction, certificate parsing, `NormalizeNameTLV`, `VerifyNameInSubtree`, `FindEmailAddressesInName`, `EncodePosixTimeAsGeneralizedTime` and the Universal and BMP string decoders: parameters, about which nothing is assumed, except that `InDateIsAnInterval` takes the time conversion to be order-preserving and defined on the years 0 to 9999.
- Memory order: each step of the two transition systems is atomic and seen by all threads at once. The acquire and release pairing that makes this sound is not modelled; `NoDataRace` states that unsynchronised pointer reads never meet a write.
- Registration and traversal (`ExDataRegistry`): a failed allocation of the node and an object without a stack are steps that touch nothing shared; the object and pointer passed to a free function, and the freeing of the object's stack at the end of `CRYPTO_free_ex_data`, are not modelled.
- Allocation failures inside `mod_exp`, whose BIGNUMs are unbounded integers here, and in the printers and parsers.
- `std::sort` and `std::set_intersection` work on sequences, not in place; the policy and CRL code does not depend on more than their results.
- The bytes of policy qualifiers, the filling of `policy_informations`, and the errors reported while general names are parsed.
- IsPermittedCert: requires that the two counts fit a `size_t` of 64 bits, as they count parts of certificates in memory; no bound on the total number of comparisons is stated, because the guard does not count the subject checks.
- `NameConstraints::CreateFromPermittedSubtrees`, policy constraints and mappings, OCSP requests and URLs, Base64 and whitespace helpers, constant-time memory helpers: conversions and buffers that no property above depends on.
