# Verified model of the InvestSystem consumption store

InvestSystem consumes immutable dataset releases from a research knowledge base.
It stores what it consumed, what it observed about each release, and which runs
were pinned to what, so that a run can be audited for ever while ordinary access
ends as soon as anything changes. This project models that store, the contract
values it depends on and the closure checks around it, and proves what they
promise: over every input, every stored state and every sequence of transactions.

`dafny verify dfyconfig.toml` checks all of it.

## How the project is built

**The store.** The program keeps everything twice: fast views (head pointers,
relational index rows, validators that look at a few rows) beside a slow truth
(canonical documents replayed by verifiers). The model keeps the two apart.

- `Ledger.dfy` is the slow truth as one value: the append-only log of
  observations, the documents and the pins, with the outcome of every
  transaction on it.
- `Database.dfy` is the tables as the program stores them, and `Tables`, the
  tables a given ledger has.
- `ReleaseCacheStore.dfy` is the class whose methods work on the tables alone,
  branch by branch as the program does, each proved to leave exactly the tables
  of the ledger the specification says. Its parts are in `StoreChecks`,
  `StoreRecording`, `StoreConsumption`, `StorePinning` and `StoreReading`.
- `Verifiers.dfy` states what each replay verifier demands of the tables.
- `LedgerInvariant.dfy` shows that transactions keep the ledger coherent;
  `LedgerRuns.dfy` proves the theorems about whole runs: access, audit,
  withdrawal, pins and repeated requests.
- `StatusEvents`, `ObservationChain`, `ObservationLog` and `RetentionIndex` hold
  the status rules, the chain walk, heads against history, and the index rows.
- `ContentStore.dfy` is the file level below a consumption: any number of writers,
  interleaved step by step, with a crash possible at every point. Every step of
  it is a growth of the files as the run theorems assume it.

**The contracts.** `RetentionGraph` is the closure's worklist and Kahn's
algorithm; `Factories` the constructors that order and hash; `UtcTime`,
`Numerals`, `CanonicalJson` and `ContractCodec` the canonical texts and their
strict parsers; `DocumentTexts` the stored texts of receipts and closures;
`ProviderCanonical` the provider's serialiser, which walks an
object graph with a set of active containers.

**Closures and arithmetic.** `StatusHistory` is the hash-linked status history
with its three readers, behind the schema in `StatusSchema` and with the program's
equality of values in `JsonEquality`; `ContextPack` is the evidence graph closure,
and `DecimalFactors` the turnover mean in 50-digit decimal arithmetic.

**The rules.** The specifications above are themselves functions and folds. A second
layer states, for each main operation, what it answers in terms of single rows, log
entries, list entries and literal texts, and proves the two equivalent: `LogEntries`
and `AppendRules` for appends, `PinRules` for pins, `ReadRules` for reads,
`ConsumptionRules` for consumptions, `VerifierRules` for the replay verifiers,
`GraphRules` and `PackRules` for the closure checks, `NormalRules` for normalising and
line files, `HistoryRules` for the status readers, `ContractRules` for the constructors,
`TextForms`, `DocumentForms` and `Calendar` for the canonical texts, `DecimalRules` for
the mean. `ContentProgress` says what the content store's protocol makes possible, where
`ContentStore` says what it rules out.

## Reading the model

- **Hashes.** SHA-256 is a function parameter. Injectivity is an assumption of
  exactly those results that mention it, and for documents it is assumed only
  within one kind. What is hashed is a canonical document value. That the value and
  its canonical text determine each other is proved in `CanonicalJson` for JSON
  values, in `ContractCodec` for observations and confirmations, and in
  `DocumentTexts` for receipts and closures, whose verifiers work on the text.
- **Times** are microseconds since year 1. The program compares timestamp texts;
  `UtcTime.TextOrderIsTimeOrder` is the reason this is the same.
- **Transactions** are atomic: a method works on a copy of the tables and installs
  it on commit. The clock is a parameter of each transaction. Only the theorem
  about repeated requests needs a clock that does not run backwards.
- **Tables** are maps. The append-only triggers become the proved fact that every
  transaction only adds rows; the head trigger becomes `OneHeadMoved`.
- **Text normal form** (NFC) is a parameter. Results say where it has to be
  idempotent, where it has to leave plain lower-case ASCII names and digests alone
  and produce them from nothing else (`PlainFixed`), and where it has to leave texts
  of ASCII characters and decimal digits alone (`ProfileFixed`).
- **Schemas.** The pinned schemas of status events and histories are modelled rule
  by rule, as a validator applies them; which characters a pattern takes for digits
  and the check of the date-time format are parameters.
- **Errors** are told apart where the program's callers can act on them: refused
  access, conflict with something stored, integrity failure, mismatched payload and
  an integer that no column holds. The program reports some payload mismatches as
  value errors and some as integrity errors; the model has one constructor for both.

## What the code does, where one might expect something else

- No order among building, validated and published is enforced. A history starts
  at building with sequence 1, and withdrawal is terminal; that is all.
- Failed status observations may follow a withdrawal. They end published access
  as well, so withdrawal is still final.
- Appending an admission demands the current status head; replay does not. The
  append-time check is the stronger one, and `Verifiers.AdmissionAccepted` is the
  direction in which they agree.
- In `_validate_confirmation_for_pin` the checks at lines 2905 and 2930 can never
  fire and 2932 adds nothing to 2934: `LedgerRuns.SkewChecksRedundant`, and the
  contract of `PinRun`, which never returns the two clock errors.
- JSONL output depends on the input order exactly when two different records have
  one key tuple: `ProviderCanonical.JsonlOrderExact`.
- The self-hash of a status event covers the event in text normal form, and the
  chain loops take events that are not in it. The loops alone can determine a
  history only up to that form: `SameHeadSameHistory` and `SameEventsAlsoValid`. No
  reader runs its loop alone. The pinned event schema in front of it admits no text
  that normalisation changes (`AdmittedNormal`), so one head hash names one history
  for every reader: `SameHeadSameResponse`, `SameHeadSameFile` and, across readers,
  `FileAndResponseAgree`.
- The loops compare positions with an equality in which `true` is 1 and `2.0` is 2.
  The schema refuses `true`, but counts `2.0` as an integer: the head of an accepted
  response may differ from its last event in the spelling of the position, and in
  nothing else (`HeadIsLast`). The export reader's loop checks only the length of a
  digest; `ReadersAgree` shows that this makes no difference when the hashes
  computed for these events are SHA-256 texts.
- The turnover mean is not always exact in 50 digits. While the sum, at the finest
  scale among its inputs, has at most 50 digits, `Adv20ExactIff` says exactly when
  it is: when five times the sum has at most 50 digits too, or the sum is even. In
  that range the order of the sessions does not matter. Beyond it every partial
  sum is rounded; `OrderMattersBeyond` is a list and a permutation of it, both
  accepted, with different factors.
- The loop over graph references looks up a reference whose kind is neither node nor
  edge among the edges, where none can list it; `RefsTwoWay` is stated of the loop.
  The context-pack schema, which this project does not model, admits no such kind.

## Model

| member | source | states |
|---|---|---|
| StatusEvents.ReplayEvents | src/invest_system/storage.py:1754-1793 | The replay verifier's loop, with its latest event and two identity maps, accepts a list of passed events exactly when it starts at building with sequence 1 and no predecessor, every later event repeats the latest or is its contiguous, hash-linked, not earlier successor after something other than a withdrawal, and no identifier or hash ever names two different events |
| StatusEvents.LatestRow | src/invest_system/storage.py:2393-2402 | The row put first by descending sequence, then observation time, or none for an empty table |
| StatusEvents.LatestIsLast | src/invest_system/storage.py:2393-2402 | For a history that replays, that row holds the last event of the history, whatever order the rows are in |
| StatusEvents.IdentityRemapped | src/invest_system/storage.py:2365-2392 | Says whether some row shares the new event's identifier or hash without being the same event |
| StatusEvents.ValidateEvent | src/invest_system/storage.py:2352-2437 | The append-time validator, which looks at one row and at the rows of the same identity, accepts a new passed event exactly when full replay accepts the whole history extended by it |
| StatusEvents.SequencesAscend | src/invest_system/storage.py:1782-1793 | Along a linked history sequence numbers and recording times never fall, and equal numbers are equal events |
| StatusEvents.WithdrawalIsTerminal | src/invest_system/storage.py:1785-1786 | Only repetitions of a withdrawal can follow it |
| StatusEvents.SequencesContiguous | src/invest_system/storage.py:1787-1788 | Every sequence number up to the last one occurs in the history |
| StatusEvents.ReplaysPrefix | src/invest_system/storage.py:1758-1793 | Every beginning of a history that replays also replays |
| ObservationLog.HeadIsLastMatch | src/invest_system/storage.py:2310-2322 | The head of a release and kind is the last observation appended for them |
| ObservationLog.HeadKept | src/invest_system/storage.py:2236-2239 | A head recorded at some point is still the head later exactly when nothing was appended for that release and kind since |
| ObservationLog.ChainMembers | src/invest_system/storage.py:1708-1712 | The chain of a release and kind holds exactly their observations |
| ObservationLog.ChainLast | src/invest_system/storage.py:2310-2322 | The head is the last element of its chain |
| ObservationLog.ChainsLinked | src/invest_system/storage.py:2236-2248 | In every coherent log each chain element supersedes the one before it and was not observed earlier |
| ObservationLog.HistoryReplays | src/invest_system/storage.py:2352-2437 | The passed events of every release, accepted one by one, replay as a whole |
| ObservationLog.HeadCarriesLastEvent | src/invest_system/storage.py:2393-2402 | A passed status head carries the last event of the release's history |
| ObservationLog.WithdrawnNeverPublished | src/invest_system/storage.py:2427-2428 | Once a passed withdrawn event is on record for a release, its status head never again counts as passed and published |
| LogEntries.HeadIsNewest | src/invest_system/storage.py:2310-2322 | A release has a head of a kind exactly when some entry is about them, and then the head is the newest such entry |
| ObservationChain.FindRoots | src/invest_system/storage.py:1720-1722 | Collects exactly the rows that supersede nothing |
| ObservationChain.LinkSuccessors | src/invest_system/storage.py:1723-1731 | Inverts the links, and refuses only when no path through the rows exists |
| ObservationChain.NextIsNew | src/invest_system/storage.py:1735-1736 | The successor of the walk's end was never visited, so the cycle test cannot fire |
| ObservationChain.WalkFrom | src/invest_system/storage.py:1732-1741 | Following successors from the root ends, and yields distinct rows linked one to the next |
| ObservationChain.WalkChain | src/invest_system/storage.py:1708-1743 | Accepts exactly the rows that form one simple path from the only root to the recorded head covering every row, returns that path, and never reports a cycle; forks, second roots and separate cycles are all refused |
| ObservationChain.PathUnique | src/invest_system/storage.py:1719-1743 | At most one path fits a set of rows, whatever the head |
| RetentionGraph.ReachableFrom | src/invest_system/retention.py:217-224 | The worklist ends and returns exactly the releases reachable from the root |
| RetentionGraph.CountIndegrees | src/invest_system/retention.py:232-235 | Each counter is the number of releases that depend on the release |
| RetentionGraph.RemoveSource | src/invest_system/retention.py:239-244 | Taking a source out keeps the counters and the ready list exact for the releases that are left |
| RetentionGraph.KahnVisits | src/invest_system/retention.py:231-246 | Kahn's algorithm visits every release exactly when no release depends on itself through others |
| RetentionGraph.TopologicalAcyclic | src/invest_system/retention.py:231-246 | An order with every predecessor in front rules out cycles |
| RetentionGraph.SourcelessIsCyclic | src/invest_system/retention.py:231-246 | A non-empty remainder without a source contains a cycle |
| RetentionGraph.RootAloneIsReady | src/invest_system/retention.py:236 | On an accepted graph the first ready list is exactly the root |
| RetentionGraph.WalkDescends | src/invest_system/retention.py:214-215 | Along any chain of dependencies cutoffs never rise |
| RetentionGraph.CutoffsBounded | src/invest_system/retention.py:214-215 | No retained release has a later cutoff than the root |
| RetentionGraph.ValidateReleaseGraph | src/invest_system/retention.py:198-246 | Accepts exactly the graphs that contain the root, are closed under dependencies, have non-increasing cutoffs along edges, are reachable from the root throughout, and are acyclic |
| GraphRules.GraphExact | src/invest_system/retention.py:198-246 | The graph is accepted exactly when its releases can be arranged from the root on, each later one named by an earlier one, and every dependency later in the arrangement with a cutoff that is not later |
| RetentionIndex.ReleaseIndexExact | src/invest_system/storage.py:2112-2121 | The release rows of a closure are its nodes, each with its manifest hash and size |
| RetentionIndex.ArtifactIndexed | src/invest_system/storage.py:2128-2140 | Every artifact of every node has its own index row with its own descriptor |
| RetentionIndex.IndexedArtifact | src/invest_system/storage.py:2128-2140 | Every artifact row comes from an artifact of a node |
| RetentionIndex.ReceiptIndexExact | src/invest_system/storage.py:2154-2165 | The artifact rows of a receipt are its artifacts and nothing else |
| Factories.CreatedReceiptValid | src/invest_system/consumption.py:184-274 | A created receipt is valid and lists exactly the given artifacts |
| Factories.ReceiptOrderIndependent | src/invest_system/consumption.py:184-274 | The order in which artifacts are given enters neither the receipt nor its hash |
| Factories.ReceiptRecreated | src/invest_system/consumption.py:225-274 | Every valid receipt is the one its own parts create |
| Factories.CreatedNodeValid | src/invest_system/retention.py:115-161 | A created node is valid, with exactly the given artifacts and dependencies |
| Factories.NodeOrderIndependent | src/invest_system/retention.py:115-161 | Neither the order of artifacts nor that of dependencies enters a node |
| Factories.CreateClosure | src/invest_system/retention.py:292-328 | Orders, checks and hashes a closure as the specification of closure creation says |
| Factories.CreatedClosureValid | src/invest_system/retention.py:273-328 | A created closure is valid: distinct ordered releases, the root among them, an accepted graph and a matching hash |
| Factories.ClosureOrderIndependent | src/invest_system/retention.py:184-195 | The order in which releases are given enters neither the closure, nor the graph verdict, nor the hash |
| Factories.ClosureRecreated | src/invest_system/retention.py:273-328 | Every valid closure is the one its own parts create |
| Factories.CreatedConfirmationValid | src/invest_system/status_confirmation.py:236-316 | A created confirmation is valid: its window, its root among the items, every check inside the window, and its hash; of the hash function only the one value it gives here has to be a digest |
| Factories.ConfirmationOrderIndependent | src/invest_system/status_confirmation.py:83-96 | The order of the items does not enter the confirmation or its hash |
| Factories.ConfirmationRecreated | src/invest_system/status_confirmation.py:196-316 | Every valid confirmation is the one its own parts create |
| ContractRules.ReleaseIdExact | src/invest_system/consumption.py:46-54 | A release identifier is an identifier other than latest in any mixture of capital and small letters |
| ContractRules.VersionExact | src/invest_system/consumption.py:72-75 | A version is three numbers without leading zeros, with optional labels of a pre-release and of a build |
| ContractRules.ObservationExact | src/invest_system/consumption.py:314-595 | The three constructors accept exactly the observations that obey these rules: identity and reference agree; a passed fetch has a receipt and artifacts and a failed one only reasons; a passed status has a whole event, the first one building and without a predecessor; an admission gives reasons exactly when it does not authorise |
| ContractRules.ConfirmationExact | src/invest_system/status_confirmation.py:112-234 | A confirmation is accepted exactly with its schema version, well spelled fields, requested no later than confirmed and confirmed before expiry, items in order with the root among them and every check inside the window, and the hash of all that |
| ContractRules.ReceiptExact | src/invest_system/consumption.py:174-240 | A receipt is accepted exactly with its schema version, a version, a reference, at least one artifact in order of identifiers, and the hash of these |
| ContractRules.NodeExact | src/invest_system/retention.py:105-161 | A release of a closure is accepted exactly with a reference, a non-empty manifest, such artifacts, and dependencies in order and none on itself |
| ContractRules.ClosureExact | src/invest_system/retention.py:273-290 | A closure is accepted exactly with its schema version, such releases in order with the root among them, growing from the root, and the hash of these |
| Ledgers.ReadContent | src/invest_system/storage.py:3395-3408 | The bytes a permitted read returns have the size and the hash the pinned artifact declares |
| LedgerInvariant.ObservationKeeps | src/invest_system/storage.py:2257-2322 | Appending an admissible observation keeps every cross-table condition of the store |
| LedgerInvariant.NewClosureCoherent | src/invest_system/storage.py:2059-2140 | After a consumption every node of the closure is stored in full: identity, manifest, artifacts and objects |
| LedgerInvariant.ConsumeKeeps | src/invest_system/storage.py:1963-2170 | A consumption, new or repeated or refused, keeps every cross-table condition |
| LedgerInvariant.ConsumeKeepsFiles | src/invest_system/storage.py:1951-1975 | After a consumption every registered object still has a file with its digest and size |
| LedgerInvariant.PinKeeps | src/invest_system/storage.py:3087-3249 | Pinning a run keeps every cross-table condition, including those of its binding and retained releases |
| LedgerInvariant.AcceptedTimely | src/invest_system/storage.py:3135-3202 | When a new pin is accepted, for every retained release recorded <= observed <= persisted <= manifest created <= pinned, with no skew allowance |
| LedgerRuns.NextKeeps | src/invest_system/storage.py:864-876 | Every transaction keeps the store coherent, only adds rows and files, and keeps registered files intact |
| LedgerRuns.RunKeeps | src/invest_system/storage.py:864-876 | The same along any sequence of transactions, from any coherent state |
| LedgerRuns.OrdinaryAccessExact | src/invest_system/storage.py:3411-3466 | The heads pinned for a bound run are current exactly when, since the pin, nothing was observed for the root and no status for any retained release |
| LedgerRuns.OrdinaryReadExact | src/invest_system/storage.py:3258-3466 | An ordinary read of a pinned root artifact succeeds exactly when the log has been quiet in that sense since the pin |
| LedgerRuns.AccessNeverRegained | src/invest_system/storage.py:3411-3466 | Ordinary access that a run has lost stays lost, whatever transactions follow |
| LedgerRuns.PinnedIsAuditable | src/invest_system/storage.py:3280-3408 | Every artifact of every release a pin retains can be read for audit |
| LedgerRuns.AuditReplayStable | src/invest_system/storage.py:3280-3408 | An audit read that succeeds once succeeds in every later state with the same bytes, through further observations, withdrawals and pins |
| LedgerRuns.AccessIsHeads | src/invest_system/storage.py:2511-2560 | Folding the whole observation history of a release, oldest first, gives the observations the heads point to |
| LedgerRuns.WithdrawnNotPinned | src/invest_system/storage.py:2563-2585 | No new pin over a closure containing a withdrawn release is accepted |
| LedgerRuns.WithdrawnNotReadable | src/invest_system/storage.py:3451-3466 | No ordinary read passes through a pin that retains a withdrawn release |
| LedgerRuns.WithdrawalFinal | src/invest_system/storage.py:195-202 | After a passed withdrawal, in every later state of every run the release is not authorised, no pin over it is accepted and every ordinary read through such a pin fails |
| LedgerRuns.RetainedCutoffs | src/invest_system/retention.py:214-215 | Every stored closure keeps the cutoffs of its releases at or below the root's |
| LedgerRuns.AcceptedPinExact | src/invest_system/storage.py:2973-3249 | A committed pin retains exactly the releases of its closure, each with its current published head, in time order without skew, and with a cutoff no later than the manifest's creation |
| LedgerRuns.SkewChecksRedundant | src/invest_system/storage.py:2903-2934 | For a valid confirmation confirmed by the time its manifest was created, the two checks against the local clock plus skew cannot fail, and the snapshot check against that clock follows from the one against the check time |
| LedgerRuns.CommittedPinKept | src/invest_system/storage.py:3205-3249 | A committed pin and its confirmation are on record, unchanged, in every later state |
| LedgerRuns.ExactRetryReplayed | src/invest_system/storage.py:3036-3085 | Repeating a committed request at any later time and state, also after a withdrawal, is recognised as a repetition and changes nothing |
| LedgerRuns.BindingsOneToOne | src/invest_system/storage.py:2804-2824 | In every state of a run bound runs and stored confirmations correspond one to one, a run keeps the confirmation it was bound to, and no other run is ever bound to that confirmation |
| LedgerRuns.LegacyRunsFixed | src/invest_system/storage.py:1011-1035 | The set of quarantined runs never changes after the upgrade |
| LedgerRuns.SameHashSameConfirmation | src/invest_system/storage.py:2818-2824 | With an injective hash, valid confirmations with one hash are one confirmation |
| LedgerRuns.ConfirmationNotStored | src/invest_system/storage.py:2813-2824 | A confirmation for a run that is not pinned is never already stored under its hash, so the same-hash branch is unreachable from pinning |
| LedgerRuns.ClosureFilesIntact | src/invest_system/storage.py:2587-2657 | While registered objects are intact, the files of every stored closure verify |
| AppendRules.AppendExact | src/invest_system/storage.py:2186-2322 | An append commits exactly when the observation is not from the future, its identity and identifier are free of conflict, it names the newest observation of its release and kind without being older, and its own kind's rule holds, each said of single log entries; it answers a repetition exactly when that very observation is in the log |
| AppendRules.AppendRepeated | src/invest_system/storage.py:2204-2226 | Once committed, an observation appended again in any later world, by any clock not before its observation, is recognised and changes nothing |
| AppendRules.AppendConflict | src/invest_system/storage.py:2211-2219 | An observation whose identifier stands in the log for another one is refused in every later world |
| AppendRules.EntryAcceptable | src/invest_system/storage.py:2196-2255 | Every entry of a coherent log met those conditions against the entries before it |
| AppendRules.RemapExact | src/invest_system/storage.py:2200-2248 | A refusal is a mapping conflict exactly when the release's reference, the identifier or the named predecessor is another on record |
| PinRules.PinExact | src/invest_system/storage.py:2973-3249 | A run is admitted exactly under the whole list of conditions on rows and newest entries: receipt and closure on record in time, the three heads of the root, an authority with a policy, an unexpired confirmation for this run, an item for each release and no other, each no older than maximal age plus skew and about the newest published event, material on record in time, files intact, nothing stored under hash, identifier or run; a repetition is recognised exactly for the same manifest and confirmation over intact files |
| PinRules.ExpiredRefused | src/invest_system/storage.py:2907-2908 | An unpinned run with an expired confirmation is refused |
| PinRules.PinnedExact | src/invest_system/storage.py:3205-3249 | A committed pin holds the manifest, the receipt's closure, the confirmation's hash and the moment, adds the confirmation, and changes nothing else |
| PinRules.PinnedStatusesExact | src/invest_system/storage.py:3135-3202 | It keeps, for each release of the closure and for no other, the newest status observation of that moment |
| PinRules.EveryPinAdmitted | src/invest_system/storage.py:2973-3249 | Every run pinned in the course of any sequence of transactions was admitted by one of them under that list of conditions, and its pin is the one made then |
| PinRules.RebindExact | src/invest_system/storage.py:3050-3074 | For a bound run the conflict is exactly another manifest, or another confirmation than the stored one |
| PinRules.PinInTime | src/invest_system/storage.py:3135-3202 | For every retained release of a committed pin the status was recorded, observed and persisted before the manifest and the pin, in this order and without slack, and its cutoff is not later than the manifest |
| ReadRules.ReadExact | src/invest_system/storage.py:3258-3486 | A read is granted exactly when the manifest is the pinned one, the purpose and the audit request fit, the release named by the request, or the root if it names none, is retained with that artifact, and the files hold; an ordinary read also needs a bound run, the root, and newest heads that are the pinned ones |
| ReadRules.ReadReturns | src/invest_system/storage.py:3393-3408 | It returns the file of the artifact listed for the named release, and that release's newest status and admission |
| ReadRules.RetainedAuditable | src/invest_system/storage.py:3280-3408 | Each artifact of each retained release can be read for audit under the name of that release |
| ReadRules.OtherReleaseRefused | src/invest_system/storage.py:3290-3293 | An ordinary read that names any release but the root of its manifest is refused |
| ReadRules.WithdrawnForEver | src/invest_system/storage.py:2563-2585 | Once a passed withdrawal of a release is in the log, in every later world no run whose closure retains it is admitted and no ordinary read through a pin that retains it is granted |
| Databases.TableLookup | src/invest_system/storage.py:2257-2309 | Every logged observation has its row, and a row in the subtype table of its own kind only |
| Databases.TableEntry | src/invest_system/storage.py:2257-2309 | Every observation row comes from a logged observation |
| Verifiers.ReceiptAccepted | src/invest_system/storage.py:1309-1385 | The receipt verifier accepts every stored receipt |
| Verifiers.ClosureAccepted | src/invest_system/storage.py:1387-1521 | The closure verifier accepts every stored closure with its three indexes |
| DocumentTexts.ReceiptTextExact | src/invest_system/storage.py:1309-1385 | Under the hash of a stored receipt the verifier accepts a text exactly when it is the canonical text of that receipt and the index rows match |
| DocumentTexts.ClosureTextExact | src/invest_system/storage.py:1387-1521 | The same for retention closures |
| DocumentTexts.StoredReceiptText | src/invest_system/storage.py:1309-1385 | Of all texts the verifier takes, for a receipt on record, exactly its own |
| DocumentTexts.StoredClosureText | src/invest_system/storage.py:1387-1521 | Of all texts the verifier takes, for a closure on record, exactly its own |
| Verifiers.ObservationAccepted | src/invest_system/storage.py:1533-1696 | The observation verifier accepts every stored observation |
| Verifiers.ChainIsPath | src/invest_system/storage.py:1708-1743 | The rows of every release and kind form one path that ends at the stored head |
| Verifiers.AdmissionAccepted | src/invest_system/storage.py:1794-1808 | Every stored admission targets a status of its own release, not later, and authorises only a passed published one |
| Verifiers.ChainVerified | src/invest_system/storage.py:1698-1809 | The chain verifier accepts the chain of every release and kind |
| Verifiers.PinObjectsExact | src/invest_system/storage.py:2587-2657 | Checking each index row of a stored closure against tables and files succeeds exactly when the closure's files verify |
| Verifiers.PinClosureExact | src/invest_system/storage.py:2659-2709 | The pin verifier accepts a stored pin exactly when the files of its closure verify |
| Verifiers.ConfirmationAccepted | src/invest_system/storage.py:2711-2802 | The confirmation verifier accepts every stored confirmation |
| Verifiers.CoherentVerifies | src/invest_system/storage.py:1309-1832 | The tables of every coherent state with intact files pass every verifier |
| Verifiers.NeverPoisoned | src/invest_system/storage.py:1309-1832 | In every state reached by any sequence of consumptions, appends and pins, every verifier accepts everything stored |
| VerifierRules.ReceiptExact | src/invest_system/storage.py:1309-1385 | The receipt verifier accepts exactly a row whose columns, hashes, release and artifact rows, one for each artifact and no other, are those of its document |
| VerifierRules.ClosureExact | src/invest_system/storage.py:1387-1521 | The closure verifier accepts exactly a row whose columns, hashes and release, dependency and artifact rows are those of its document |
| VerifierRules.ObservationExact | src/invest_system/storage.py:1533-1696 | The observation verifier accepts exactly a valid document with its columns, one row of its kind and none of another, and for a passed fetch a stored receipt with these artifacts |
| VerifierRules.ReplayExact | src/invest_system/storage.py:1754-1793 | The passed statuses of a release replay exactly when each one, taken with those before it, starts, repeats or continues the history and takes over no identifier or hash |
| VerifierRules.ChainExact | src/invest_system/storage.py:1698-1809 | A chain verifies exactly when all rows of the release and kind can be strung together, each superseding the one before, up to the head, no time going back, and each resting on those before it |
| VerifierRules.PinExact | src/invest_system/storage.py:2587-2709 | The pin verifier accepts exactly a run for which everything the closure lists is stored with its content and pinned row by row, each release with a passed published status, and nothing else is pinned |
| VerifierRules.ConfirmationExact | src/invest_system/storage.py:2711-2802 | The confirmation verifier accepts exactly a valid document with its columns and one row for each item |
| VerifierRules.StoreExact | src/invest_system/storage.py:1309-1832 | All verifiers together accept exactly the stores in which all of this holds |
| VerifierRules.HeadDetermined | src/invest_system/storage.py:1719-1743 | The stored observations decide the head of every release and kind: no two heads verify over the same ones |
| VerifierRules.ObservationsDecide | src/invest_system/storage.py:1533-1832 | Two stores that verify and hold the same observations have the same heads and the same columns but for the time of persisting |
| StoreChecks.VerifyPath | src/invest_system/storage.py:1744-1809 | Replaying the documents along a path accepts exactly the verified chains of that kind |
| StoreChecks.VerifyObservationChain | src/invest_system/storage.py:1698-1809 | Accepts exactly when the rows form one path to the head and the documents on it replay |
| StoreChecks.VerifyReleaseChains | src/invest_system/storage.py:1811-1832 | Accepts exactly when the release has heads and all three chains verify |
| StoreChecks.EnsureReleaseIdentity | src/invest_system/storage.py:1217-1242 | Refuses exactly a release already identified differently; otherwise leaves the tables of the store with that identity and empty heads for a new one |
| StoreChecks.ValidateFetch | src/invest_system/storage.py:2325-2349 | Accepts a fetch exactly when it failed or its receipt is stored for its release with the same artifacts |
| StoreChecks.SelectEventRows | src/invest_system/storage.py:2393-2402 | The passed status rows selected from the tables hold exactly the events of the release's history |
| StoreChecks.ValidateStatus | src/invest_system/storage.py:2352-2437 | On the stored tables accepts a status observation exactly when it failed or the whole history extended by its event replays |
| StoreChecks.ValidateAdmission | src/invest_system/storage.py:2439-2478 | Accepts an admission exactly when it targets the current status head, is not earlier, and authorises only a passed published status |
| StoreChecks.HeadIsTailOf | src/invest_system/storage.py:2486-2508 | Every stored head is an observation of its release and kind that nothing supersedes |
| StoreChecks.CurrentAccessIsFold | src/invest_system/storage.py:2511-2560 | The access read from the joined heads is the fold over the whole observation history |
| StoreRecording.IndexReleases | src/invest_system/storage.py:2112-2121 | Builds the release rows of a closure |
| StoreRecording.IndexDependencies | src/invest_system/storage.py:2122-2127 | Builds the dependency rows of a closure |
| StoreRecording.IndexArtifacts | src/invest_system/storage.py:2128-2140 | Builds the artifact rows of a closure |
| StoreRecording.IndexReceipt | src/invest_system/storage.py:2154-2165 | Builds the artifact rows of a receipt |
| StoreRecording.SameDescriptors | src/invest_system/storage.py:1877-1896 | Artifact lists in normal form with the same descriptors are the same list |
| StoreRecording.CheckRoot | src/invest_system/storage.py:1873-1896 | Accepts exactly when receipt and root node name the same release and list the same artifacts |
| StoreRecording.VerifyPayloads | src/invest_system/storage.py:1873-1949 | Accepts exactly the payloads that cover the closure, match every declared hash and size, have no empty manifest and show no hash collision, and collects one content per required digest |
| StoreRecording.UniquePayloads | src/invest_system/storage.py:1835-1852 | Refuses exactly the lists that name a payload twice, otherwise indexes them |
| StoreRecording.PayloadIndexExact | src/invest_system/storage.py:1835-1852 | The index holds every listed payload and no other |
| StoreRecording.PayloadOrderIndependent | src/invest_system/storage.py:1835-1852 | Neither refusal nor index depends on the order of the list |
| StoreRecording.AtomicWrite | src/invest_system/storage.py:1187-1205 | Keeps an existing file that verifies, refuses over one that does not, and otherwise adds the file and nothing else |
| StoreRecording.WriteAll | src/invest_system/storage.py:1951-1954 | Succeeds exactly when no existing file stands in the way; what it leaves, also on failure, is the old files and files under the hash of their content |
| StoreRecording.EnsureIdentities | src/invest_system/storage.py:1965-1968 | Succeeds exactly when no release of the closure is identified differently; known identities and heads are kept and new heads are empty |
| StoreRecording.EnsureObjects | src/invest_system/storage.py:1244-1265 | Succeeds exactly when no registered object has another size, and then registers exactly the missing ones |
| StoreRecording.InsertManifests | src/invest_system/storage.py:2059-2073 | Succeeds exactly when no manifest row differs, and then adds exactly the missing ones |
| StoreRecording.InsertArtifacts | src/invest_system/storage.py:2074-2098 | Succeeds exactly when no artifact row differs and no record count exceeds what a column holds, and then adds exactly the missing rows; the error says which of the two it was |
| StoreConsumption.ConsistencySplit | src/invest_system/storage.py:1965-2098 | The separate row checks together refuse exactly the closures that contradict something stored |
| StoreConsumption.FindContract | src/invest_system/storage.py:1981-1985 | Finds the receipt recorded for a release and consumer contract, if there is one |
| StoreConsumption.ContractFound | src/invest_system/storage.py:1981-1992 | That single lookup decides whether any other receipt holds the release and contract |
| StoreConsumption.CheckMappings | src/invest_system/storage.py:2015-2041 | Accepts exactly when every manifest and artifact row of the closure is stored as declared |
| StoreConsumption.ReplayConsumption | src/invest_system/storage.py:1993-2044 | A receipt already on record is either the same mapping throughout, and then nothing is left to insert, or a conflict |
| StoreConsumption.CheckStoredClosure | src/invest_system/storage.py:2046-2057 | Refuses exactly a closure hash stored for another closure; the stored one always verifies |
| StoreConsumption.RecordNew | src/invest_system/storage.py:2046-2170 | For a receipt not on record, commits exactly when nothing stored is contradicted and every record count fits its column, and leaves the tables of the new state |
| StoreConsumption.ConsumptionTables | src/invest_system/storage.py:2059-2169 | The rows inserted for a new consumption are exactly those of the state it leads to |
| StoreConsumption.RecordTransaction | src/invest_system/storage.py:1963-2170 | Refuses, recognises a repetition or commits exactly as specified for the whole state, tells integrity failures, conflicts and oversized counts apart, and leaves the tables of the resulting state |
| StorePinning.CheckReceipt | src/invest_system/storage.py:3002-3034 | Accepts exactly when the run's identity, receipt and closure are stored, belong together and were persisted by the manifest's creation |
| StorePinning.CheckRetry | src/invest_system/storage.py:3039-3085 | For a run already pinned, accepts exactly the same manifest with the same confirmation over intact files |
| StorePinning.RequirePublished | src/invest_system/storage.py:2563-2585 | Returns the status head exactly when it is passed and published |
| StorePinning.AdmitRoot | src/invest_system/storage.py:3087-3152 | Accepts exactly when the root's three heads are the ones the manifest names, passed, published and authorised, and none is later than the manifest |
| StorePinning.CheckItem | src/invest_system/storage.py:2916-2970 | Judges one confirmation item exactly as specified; for a check time not after the clock it never reports a clock error |
| StorePinning.CheckItems | src/invest_system/storage.py:2915-2971 | Accepts exactly when every item is current, and returns the status head of every release |
| StorePinning.ValidateConfirmation | src/invest_system/storage.py:2874-2971 | Accepts exactly the trusted, unexpired confirmations that bind this run and cover its closure with current statuses; the two clock errors are never reported |
| StorePinning.CheckMaterial | src/invest_system/storage.py:3172-3202 | Accepts exactly when nothing retained was observed or persisted after the manifest's creation |
| StorePinning.PersistConfirmation | src/invest_system/storage.py:2804-2872 | For a run that is not pinned, succeeds exactly when no stored confirmation has its hash, identifier or run, and then adds it and its items |
| StorePinning.CheckAdmission | src/invest_system/storage.py:3087-3205 | Admits exactly the runs that satisfy every condition of a new pin; an integrity failure means a file of the closure is broken |
| StorePinning.AdmitRun | src/invest_system/storage.py:3087-3249 | Leaves exactly the tables of the state with the new pin |
| StorePinning.PinnedTables | src/invest_system/storage.py:3206-3248 | The inserted pin, release, artifact, confirmation and binding rows are exactly those of the new state |
| StoreReading.CheckHistory | src/invest_system/storage.py:3323-3368 | On a valid store the historical checks of a pin pass exactly when the files of its closure verify |
| StoreReading.CheckRetainedChains | src/invest_system/storage.py:3369-3377 | On a valid store the chains of every retained release verify |
| StoreReading.ReadRetained | src/invest_system/storage.py:3379-3408 | Returns the verified bytes of exactly the artifacts the pin retains and refuses any other key |
| StoreReading.ReadAccess | src/invest_system/storage.py:3409 | The current access of a release is the fold over its history |
| StoreReading.CheckOrdinary | src/invest_system/storage.py:3411-3466 | Accepts exactly when the root's heads and authorisation and every retained status are the pinned ones |
| Stores.ReleaseCacheStore.constructor | src/invest_system/storage.py:987-995 | A new database is the empty state, and valid |
| Stores.ReleaseCacheStore.UpgradeV2 | src/invest_system/storage.py:1011-1035 | The upgrade quarantines exactly the pins that exist, binds none and changes no other row |
| Stores.ReleaseCacheStore.RecordVerifiedConsumption | src/invest_system/storage.py:1854-2170 | Over payload lists: succeeds exactly when no payload is listed twice, the payloads match, the files can be placed, no row conflicts and every new record count fits its column; success gives the tables of the new state, a refusal leaves every row as it was, and the step is one the run theorems cover |
| Stores.ReleaseCacheStore.RecordPayloads | src/invest_system/storage.py:1896-2170 | The same for payloads already indexed |
| Stores.ReleaseCacheStore.AppendObservation | src/invest_system/storage.py:2186-2323 | Commits, recognises a repetition or refuses exactly as specified; a commit moves exactly one head as the trigger permits, anything else changes nothing, and the store never finds itself inconsistent |
| Stores.ReleaseCacheStore.PinRun | src/invest_system/storage.py:2973-3249 | Commits, recognises a repetition or refuses exactly as specified; refusals change nothing, an integrity failure means a registered file is broken, and the two clock errors never occur |
| Stores.ReleaseCacheStore.ReadArtifact | src/invest_system/storage.py:3258-3486 | Succeeds exactly for permitted reads and returns the pinned bytes with the current access; an integrity failure means a registered file is broken |
| Stores.AppendMovesOneHead | src/invest_system/storage.py:603-651 | Every admissible append moves one head column, to an observation of that release and kind that supersedes the old value, and no other head |
| Stores.StoreVerifies | src/invest_system/storage.py:1309-1832 | A valid store over intact files passes every verifier |
| Stores.CheckNew | src/invest_system/storage.py:2224-2255 | An observation with a new identifier passes exactly when it supersedes the head, does not go back in time and is justified |
| ConsumptionRules.PayloadsExact | src/invest_system/storage.py:1835-1950 | Payload lists are taken exactly when no name occurs twice, each names something declared, everything declared is there with its size and hash, and no two contents share a hash |
| ConsumptionRules.PlaceableExact | src/invest_system/storage.py:1187-1205 | Nothing stands in the way exactly when each file already under a needed digest has that size and hash |
| ConsumptionRules.ConsumeExact | src/invest_system/storage.py:1976-2107 | A consumption commits exactly when nothing stored contradicts it, row by row, its receipt is new and its counts fit a column; it is a repetition exactly when this receipt and this closure are on record together |
| ConsumptionRules.ConsumedExact | src/invest_system/storage.py:2059-2170 | Afterwards the receipt is on record with its closure and every release with all its rows, what was there is unchanged, and whatever is new belongs to this closure |
| ConsumptionRules.ConsumptionRepeated | src/invest_system/storage.py:1993-2047 | A consumption on record is recognised in every later world and changes nothing |
| ConsumptionRules.OtherReceiptRefused | src/invest_system/storage.py:1981-1992 | Once a receipt is on record, no other one for its release and consumer contract is taken in any later world |
| ContentStore.StepKeepsObjects | src/invest_system/storage.py:1187-1205 | No step of any writer changes or removes an object file, also when two writers place the same object |
| ContentStore.StepKeeps | src/invest_system/storage.py:1187-1205 | Every step of every interleaving, including a crash at any point, keeps the content store sound |
| ContentStore.AlwaysSound | src/invest_system/storage.py:1951-1975 | In every reachable state each registered object has a complete file with its digest and size, and no partial receipt or closure is visible |
| ContentStore.RegisteredBytesFixed | src/invest_system/storage.py:1244-1265 | Once registered, an object keeps its bytes for ever |
| ContentStore.OnlyOrphansRemain | src/invest_system/storage.py:1863-1866 | A crash leaves beside the registered objects only unregistered complete objects and scratch files |
| ContentStore.CommitOverVerifiedFiles | src/invest_system/storage.py:1963-1975 | A commit happens only over files that all verify |
| ContentStore.StepGrowsFiles | src/invest_system/storage.py:1187-1205 | What readers see of each step is the growth that the run theorems assume of a consumption |
| ContentProgress.CanComplete | src/invest_system/storage.py:1951-1975 | From every sound state, and so after any history with crashes, a consumption can be placed and committed by its own steps alone, and then all its objects are registered and it is visible as a whole |
| ContentProgress.CanStop | src/invest_system/storage.py:1187-1205 | A crash, a failure or the death of a writer is possible at any point and leaves database and objects as they are |
| UtcTime.FixedWidth | src/invest_system/canonical.py:40-44 | Every timestamp text has 27 characters |
| UtcTime.TextOrderIsTimeOrder | src/invest_system/canonical.py:40-44 | Comparing two timestamp texts compares the instants, and equal texts are equal instants |
| UtcTime.EarlierExact | src/invest_system/canonical.py:40-44 | The order of calendar fields is the order in time |
| UtcTime.StampOfInstant | src/invest_system/canonical.py:28-44 | Every calendar date and time has its own instant |
| UtcTime.InstantOfStamp | src/invest_system/canonical.py:28-44 | Every instant in range is the one of its calendar date and time |
| UtcTime.ParseFormatted | src/invest_system/consumption.py:609-618 | A printed timestamp reads back as the same instant |
| UtcTime.FormatParsed | src/invest_system/consumption.py:609-618 | Every accepted timestamp text reprints to itself |
| Calendar.LengthExact | src/invest_system/consumption.py:609-618 | The months have the lengths of the Gregorian table, February 29 days in leap years |
| Calendar.StampExact | src/invest_system/consumption.py:609-618 | A timestamp is valid exactly when its day is within that table and its time on the clock |
| Calendar.NextDay | src/invest_system/canonical.py:40-44 | A day later by microseconds is the next day of the calendar at the same time |
| Calendar.FirstInstant | src/invest_system/canonical.py:40-44 | Instant zero is 0001-01-01T00:00:00 |
| Calendar.RangeExact | src/invest_system/canonical.py:40-44 | The instants that have a timestamp are exactly those from there to the end of year 9999 |
| Calendar.ClockExact | src/invest_system/canonical.py:40-44 | The time of day is read off the instant as hours, minutes, seconds and microseconds |
| Calendar.TextExact | src/invest_system/canonical.py:40-44 | In the 27 characters each separator and each field stand at their own positions |
| CanonicalJson.ReadPrinted | src/invest_system/canonical.py:109-118 | Reading printed text returns the value and stops exactly where it ends |
| CanonicalJson.ParsePrinted | src/invest_system/canonical.py:109-124 | Canonical text reads back as the value it prints |
| CanonicalJson.PrintInjective | src/invest_system/canonical.py:109-124 | Different values never share a canonical text |
| CanonicalJson.CanonicalTextExact | src/invest_system/canonical.py:79-124 | On the float-free profile a text is canonical for at most one value and reads back as it |
| TextForms.LessExact | src/invest_system/canonical.py:109-118 | Names are ordered by the first differing code point, a prefix first |
| TextForms.IntegerText | src/invest_system/canonical.py:109-118 | An integer is written in decimal digits without leading zeros, with a minus sign if negative |
| TextForms.StringText | src/invest_system/canonical.py:109-118 | A text is written between quotes with quote, backslash and the 32 control characters escaped by a literal table, and nothing else |
| TextForms.ListText | src/invest_system/canonical.py:109-118 | A list is written as its items between brackets with single commas |
| TextForms.ObjectText | src/invest_system/canonical.py:109-118 | An object is written as its members in the order of their names, each once |
| ContractCodec.TimeExact | src/invest_system/consumption.py:609-618 | A field is read as an instant exactly when it is that instant's canonical text |
| ContractCodec.RefExact | src/invest_system/consumption.py:628-645 | A field is read as a release reference exactly when it is that valid reference's five-member object |
| ContractCodec.ObservationReadBack | src/invest_system/consumption.py:648-717 | A printed observation of any kind reads back as itself |
| ContractCodec.ObservationReadValid | src/invest_system/consumption.py:648-717 | Whatever is read as an observation satisfies every rule of its constructor |
| ContractCodec.ObservationReadPrints | src/invest_system/consumption.py:648-717 | What is read as an observation prints as the value it was read from, up to the order of a fetch's artifact identifiers |
| ContractCodec.ObservationTextExact | src/invest_system/consumption.py:720-732 | A text is accepted exactly when it is the canonical text of that valid observation |
| ContractCodec.ObservationTextInjective | src/invest_system/consumption.py:720-732 | Different observations never share a canonical text |
| ContractCodec.ItemExact | src/invest_system/status_confirmation.py:383-402 | A value is read as a confirmation item exactly when it is that item's own object |
| ContractCodec.ConfirmationReadBack | src/invest_system/status_confirmation.py:405-428 | A printed confirmation reads back as itself |
| ContractCodec.ConfirmationReadValid | src/invest_system/status_confirmation.py:405-428 | Whatever is read as a confirmation satisfies every rule of its constructor |
| ContractCodec.ConfirmationTextExact | src/invest_system/status_confirmation.py:431-445 | A text is accepted exactly when it is the canonical text of that valid confirmation |
| ContractCodec.ConfirmationTextInjective | src/invest_system/status_confirmation.py:431-445 | Different confirmations never share a canonical text |
| DocumentForms.RefSpelled | src/invest_system/consumption.py:628-645 | Every member of an input reference, under its name and with its value as written |
| DocumentForms.ObservationSpelled | src/invest_system/consumption.py:648-717 | Every member of each kind of observation, under its name and with its value as written |
| DocumentForms.ItemSpelled | src/invest_system/status_confirmation.py:383-402 | Every member of a confirmation item, under its name and with its value as written |
| DocumentForms.ConfirmationSpelled | src/invest_system/status_confirmation.py:145-176 | Every member of a confirmation, under its name and with its value as written |
| DocumentForms.ArtifactSpelled | src/invest_system/consumption.py:165-181 | Every member of an artifact, under its name and with its value as written |
| DocumentForms.NodeSpelled | src/invest_system/retention.py:139-161 | Every member of a release of a closure, under its name and with its value as written |
| DocumentForms.ReceiptSpelled | src/invest_system/consumption.py:198-213 | Every member of a receipt, under its name and with its value as written |
| DocumentForms.ClosureSpelled | src/invest_system/retention.py:249-262 | Every member of a closure, under its name and with its value as written |
| DocumentForms.StoredTextsSpelled | src/invest_system/storage.py:1309-1521 | The stored texts of receipts and closures are these with the hash as one more member |
| ProviderCanonical.Normalizer.Normalize | src/invest_system/integrations/investment_research_kb/provider_canonical.py:33-100 | Ends on every finite heap, gives the result of the specification and leaves the set of active containers as it found it, also on failure |
| ProviderCanonical.Normalizer.NormalizeItems | src/invest_system/integrations/investment_research_kb/provider_canonical.py:54-70 | The same for the items of a list |
| ProviderCanonical.Normalizer.NormalizeEntries | src/invest_system/integrations/investment_research_kb/provider_canonical.py:72-98 | The same for the entries of an object, with the key checks in their order |
| ProviderCanonical.CycleExact | src/invest_system/integrations/investment_research_kb/provider_canonical.py:57-58 | A cycle is reported only for values that do not unfold to a finite tree, and no such value is accepted; containers shared without a cycle are fine |
| ProviderCanonical.CleanExact | src/invest_system/integrations/investment_research_kb/provider_canonical.py:33-100 | When all keys and leaves are acceptable, a cycle is reported exactly for values without a finite tree, and every other value is accepted |
| ProviderCanonical.NormalIsTreeNormal | src/invest_system/integrations/investment_research_kb/provider_canonical.py:33-100 | Objects that hold a tree normalise exactly when the tree has a normal form, and to that form |
| ProviderCanonical.NormalResult | src/invest_system/integrations/investment_research_kb/provider_canonical.py:52-96 | Every accepted result has all its keys and texts in normal form |
| ProviderCanonical.NormalIdempotent | src/invest_system/integrations/investment_research_kb/provider_canonical.py:103-106 | Normalising a result again changes nothing, provided the text normal form is idempotent |
| ProviderCanonical.CheckSortKeys | src/invest_system/integrations/investment_research_kb/provider_canonical.py:140-151 | Accepts exactly keys that are texts and stay distinct when normalised |
| ProviderCanonical.CanonicalJsonl | src/invest_system/integrations/investment_research_kb/provider_canonical.py:129-168 | Succeeds exactly when sort keys and all records are acceptable, and writes the normalised records in key order, one line each |
| ProviderCanonical.JsonlSorted | src/invest_system/integrations/investment_research_kb/provider_canonical.py:167-168 | The lines are the records, none lost and none added, in the order of their key tuples |
| ProviderCanonical.JsonlOrderExact | src/invest_system/integrations/investment_research_kb/provider_canonical.py:167-168 | The text is independent of the input order exactly when different records have different key tuples |
| ProviderCanonical.LinesInjective | src/invest_system/integrations/investment_research_kb/provider_canonical.py:168 | The text determines the records and their order |
| ProviderCanonical.ManifestHashExact | src/invest_system/integrations/investment_research_kb/provider_canonical.py:171-178 | With an injective hash, two manifests that normalise share a hash exactly when their normal forms agree in every member but the hash |
| ProviderCanonical.SealedTextExact | src/invest_system/integrations/investment_research_kb/provider_canonical.py:181-187 | Two manifests that normalise have one sealed text exactly when their normal forms are equal |
| ProviderCanonical.SealNormal | src/invest_system/integrations/investment_research_kb/provider_canonical.py:171-187 | A manifest with a hash written in normalises exactly when the hash member and everything else in it do |
| ProviderCanonical.SealedManifestVerifies | src/invest_system/integrations/investment_research_kb/provider_canonical.py:171-187 | Writing any hash member that normalises into a manifest that normalises gives one that normalises, with the same hash |
| ProviderCanonical.SealedReadsBack | src/invest_system/integrations/investment_research_kb/provider_canonical.py:171-187 | The sealed text reads back as the normal form, which has the same hash and is sealed to the same text |
| NormalRules.NormalExact | src/invest_system/integrations/investment_research_kb/provider_canonical.py:33-106 | Normalising succeeds with a value exactly when the objects hold it: every leaf a JSON value, every text and key normalised, no member lost and no two keys confused |
| NormalRules.WriteLines | src/invest_system/integrations/investment_research_kb/provider_canonical.py:129-168 | Lines are written exactly when every record is an object with a text under each sort name and no two names are the same normalised; each record is then on its own line, ordered by the first differing text and otherwise as given |
| NormalRules.ManifestShaExact | src/invest_system/integrations/investment_research_kb/provider_canonical.py:171-178 | The manifest hash is that of the text of what the objects hold without the member manifest_hash |
| NormalRules.SealedExact | src/invest_system/integrations/investment_research_kb/provider_canonical.py:181-187 | The sealed text is the text of what the objects hold and one line feed |
| StatusHistory.ExportChain | src/invest_system/integrations/investment_research_kb/export_package.py:167-183 | Accepts exactly the chains with the right release, consecutive numbers, linked hashes and self-hashes, and returns the last event |
| StatusHistory.HttpChain | src/invest_system/integrations/investment_research_kb/http_client.py:185-205 | The same, for a response whose declared head must equal the last event in the sense of the program's equality of JSON values |
| StatusHistory.EvidenceChain | src/invest_system/integrations/investment_research_kb/stage6b_status.py:118-142 | The same, and the head must be an object with status published |
| StatusHistory.ReadersAgree | src/invest_system/integrations/investment_research_kb/http_client.py:185-203 | The loops that check digests by length and by spelling accept the same event lists, whenever the hashes computed for these events are SHA-256 texts: every digest has to match a computed one |
| StatusHistory.SameHeadSameHistory | src/invest_system/integrations/investment_research_kb/http_client.py:185-203 | The loops alone, without the schema: with an injective hash, lists that one of them accepts with one head hash have one length and the same events up to text normal form; where digests are checked by length, whenever the hashes computed for these events are SHA-256 texts |
| StatusHistory.HeadInsideIsPrefix | src/invest_system/integrations/investment_research_kb/http_client.py:185-203 | The loops alone: a list whose head hash occurs in another is the beginning of the other, in the same sense |
| StatusHistory.SameEventsAlsoValid | src/invest_system/integrations/investment_research_kb/http_client.py:185-203 | The loops alone can conclude no more: a chain with events replaced by others of the same normal form is accepted with the same head hash |
| StatusHistory.SameHeadIdentical | src/invest_system/integrations/investment_research_kb/http_client.py:185-203 | Chains of events in text normal form with one head hash are identical, for a loop that checks digests by length as for one that checks their spelling |
| StatusHistory.HeadInsideIdentical | src/invest_system/integrations/investment_research_kb/http_client.py:185-203 | A chain in text normal form whose head hash occurs in another is exactly a prefix of the other |
| JsonEquality.EqualExact | src/invest_system/integrations/investment_research_kb/http_client.py:204 | Equal values without numbers are the same value |
| StatusSchema.AdmittedNormal | contracts/providers/investment_research_kb/v1/vendor/contracts/release-status-event.v1.schema.json:6-188 | An event that the schema admits is in text normal form, wherever normalisation leaves ASCII characters and decimal digits alone |
| StatusSchema.EqualEvents | contracts/providers/investment_research_kb/v1/vendor/contracts/release-status-event.v1.schema.json:6-188 | Events that the program takes for equal differ at most in the spelling of their position, when the schema admits the first |
| StatusHistory.GetStatusHistory | src/invest_system/integrations/investment_research_kb/http_client.py:420-436 | Accepts exactly the responses that the schema admits and whose chain is closed |
| StatusHistory.HeadIsLast | src/invest_system/integrations/investment_research_kb/http_client.py:204-205 | In an accepted response the declared head is the last event but for the spelling of its position |
| StatusHistory.EvidenceExact | src/invest_system/integrations/investment_research_kb/stage6b_status.py:118-142 | Of accepted responses the evidence reader takes exactly those whose last event is published |
| StatusHistory.SameHeadSameResponse | src/invest_system/integrations/investment_research_kb/http_client.py:420-436 | Two accepted responses for a release with one head hash hold the same events |
| StatusHistory.HeadInsideResponse | src/invest_system/integrations/investment_research_kb/http_client.py:420-436 | A response whose head hash an event of another declares holds exactly the events of the other up to that one |
| StatusHistory.ExportEvents | src/invest_system/integrations/investment_research_kb/export_package.py:135-164 | Accepts exactly the files of terminated lines without carriage returns in which every line is the canonical text of an event that the schema admits, and returns these events in order |
| StatusHistory.CanonicalLineNormal | src/invest_system/integrations/investment_research_kb/export_package.py:149-163 | An accepted line is the canonical text of an event in text normal form |
| StatusHistory.SameHeadSameFile | src/invest_system/integrations/investment_research_kb/export_package.py:135-183 | Two export files accepted with one head hash are identical, character by character |
| StatusHistory.FileAndResponseAgree | src/invest_system/integrations/investment_research_kb/export_package.py:135-183 | An export file and a response accepted with one head hash hold the same events |
| HistoryRules.FieldsExact | contracts/providers/investment_research_kb/v1/vendor/contracts/release-status-event.v1.schema.json:6-188 | The schema admits exactly events with the ten members, spelled as the patterns say, a reason for a withdrawal, and only the first one building and without a predecessor |
| HistoryRules.ChainExact | src/invest_system/integrations/investment_research_kb/http_client.py:185-203 | For either reading of a digest, admitted events form a chain exactly when each has the release, its own place as position, the hash member of the event before as predecessor, and as its own hash that of its canonical text without it |
| HistoryRules.HeadExact | src/invest_system/integrations/investment_research_kb/http_client.py:204-205 | The declared head is accepted exactly when it is the last event but for a position spelled either way |
| HistoryRules.ResponseExact | src/invest_system/integrations/investment_research_kb/http_client.py:420-436 | A response is accepted exactly when it has the four members, such a chain and such a head |
| HistoryRules.FileExact | src/invest_system/integrations/investment_research_kb/export_package.py:135-183 | An export file is accepted with certain events exactly when it is their printed lines and they form such a chain |
| ContextPack.Index | src/invest_system/integrations/investment_research_kb/stage3d_context_pack.py:132-140 | Succeeds exactly when identifiers are non-empty and distinct, and then finds every record under its own |
| ContextPack.ValidateDocumentsAndLinks | src/invest_system/integrations/investment_research_kb/stage3d_context_pack.py:434-544 | Accepts exactly the evidence that is closed: sources and documents correspond, all times are in order, and listed spans and links are the inverse of the pointers |
| ContextPack.ValidateGraph | src/invest_system/integrations/investment_research_kb/stage3d_context_pack.py:570-706 | Accepts exactly the graphs that close over the evidence: references, edges, known events, mappings and counterexamples, with every link used |
| ContextPack.ChainInTime | src/invest_system/integrations/investment_research_kb/stage3d_context_pack.py:482-635 | In an accepted pack every reference is the end of a chain in time order from document through span, review, publication and reference to graph object and cutoff, approved throughout |
| ContextPack.SpansTwoWay | src/invest_system/integrations/investment_research_kb/stage3d_context_pack.py:492-521 | A source lists a span exactly when the span points at its document |
| ContextPack.LinksTwoWay | src/invest_system/integrations/investment_research_kb/stage3d_context_pack.py:524-543 | A fact or event lists a link exactly when the link points at it |
| ContextPack.RefsTwoWay | src/invest_system/integrations/investment_research_kb/stage3d_context_pack.py:587-646 | A node or edge lists a reference exactly when the reference points at it |
| ContextPack.EvidenceRetained | src/invest_system/integrations/investment_research_kb/stage3d_context_pack.py:660-683 | Every fact link is cited by a reference resting on that fact, and every event link by a known event |
| ContextPack.EdgesJoinNodes | src/invest_system/integrations/investment_research_kb/stage3d_context_pack.py:644-659 | Every edge joins two nodes of the graph, by identifier and by name |
| PackRules.EvidenceExact | src/invest_system/integrations/investment_research_kb/stage3d_context_pack.py:434-544 | The evidence check accepts exactly the lists in which each document, span and link fits the records it names, said record by record |
| PackRules.GraphExact | src/invest_system/integrations/investment_research_kb/stage3d_context_pack.py:570-706 | The graph check accepts exactly the lists in which each reference has a link of its own stance, span, kind and target, in time order, and each mapping and counterexample names nodes, edges, facts and references of the pack |
| PackRules.Accept | src/invest_system/integrations/investment_research_kb/stage3d_context_pack.py:434-706 | Both checks together accept exactly the packs whose lists satisfy both |
| DecimalFactors.AddExact | src/invest_system/integrations/investment_research_kb/stage6_generic_adapter.py:720-722 | A sum that fits in 50 digits at some scale is computed exactly |
| DecimalFactors.TotalExact | src/invest_system/integrations/investment_research_kb/stage6_generic_adapter.py:720-722 | Every partial sum of non-negative inputs is exact while the whole sum, counted at one common scale, stays below 10^50 |
| DecimalFactors.DivideExact | src/invest_system/integrations/investment_research_kb/stage6_generic_adapter.py:722 | Dividing by 20 is exact when five times the coefficient stays below 10^50 |
| DecimalFactors.DivideExactIff | src/invest_system/integrations/investment_research_kb/stage6_generic_adapter.py:722 | A total of at most 50 digits is divided exactly if and only if five times it has at most 50 digits or it is even |
| DecimalFactors.MeanExact | src/invest_system/integrations/investment_research_kb/stage6_generic_adapter.py:712-722 | Under that guard on the sum the mean is exact: twenty times it is the sum |
| DecimalFactors.FewDigitsFit | src/invest_system/integrations/investment_research_kb/stage6_generic_adapter.py:720-722 | 20 inputs whose coefficients at a common scale stay below 10^48 meet both limits |
| DecimalFactors.MeanExactIff | src/invest_system/integrations/investment_research_kb/stage6_generic_adapter.py:722 | When the sum at its own scale has at most 50 digits, the mean is exact if and only if five times the sum has at most 50 digits or the sum is even |
| DecimalFactors.MeanBetween | src/invest_system/integrations/investment_research_kb/stage6_generic_adapter.py:712-722 | It lies between any bounds of the inputs |
| DecimalFactors.MeanOrderIndependent | src/invest_system/integrations/investment_research_kb/stage6_generic_adapter.py:722 | The sum is the same to the digit in whatever order the sessions come |
| DecimalFactors.PrintedReadsBack | src/invest_system/integrations/investment_research_kb/stage6_generic_adapter.py:692-709 | Every printed number is in the canonical grammar and reads back as the same number |
| DecimalFactors.Adv20Exact | src/invest_system/integrations/investment_research_kb/stage6_generic_adapter.py:712-722 | For 20 canonical texts under that guard the factor is the canonical text of their exact mean |
| DecimalFactors.Adv20ExactIff | src/invest_system/integrations/investment_research_kb/stage6_generic_adapter.py:712-722 | The same equivalence for the texts: the factor names the exact mean if and only if five times the sum has at most 50 digits or the sum is even |
| DecimalFactors.Adv20OrderIndependent | src/invest_system/integrations/investment_research_kb/stage6_generic_adapter.py:712-722 | While the sum stays below 10^50 at one scale, the factor does not depend on the order of the texts |
| DecimalFactors.OrderMattersBeyond | src/invest_system/integrations/investment_research_kb/stage6_generic_adapter.py:712-722 | Beyond the limit it does: one list of 20 canonical texts and a permutation of it are both accepted and give two different texts |
| DecimalRules.FixRounds | src/invest_system/integrations/investment_research_kb/stage6_generic_adapter.py:721-722 | A number of more than 50 digits is rounded to the nearest of 50, a tie to the even one |
| DecimalRules.AddRounds | src/invest_system/integrations/investment_research_kb/stage6_generic_adapter.py:720-722 | A sum is the exact sum at the smaller exponent, so rounded |
| DecimalRules.MeanRounds | src/invest_system/integrations/investment_research_kb/stage6_generic_adapter.py:720-722 | For any turnovers the mean is a twentieth of the rounded sum: exact where five times it fits or it is even, else the even one of the two nearest |
| DecimalRules.GrammarExact | src/invest_system/integrations/investment_research_kb/stage6_generic_adapter.py:23 | A text is canonical exactly when it is a sign or none, a whole number without leading zeros, and a fraction, if any, that does not end in zero |
| DecimalRules.SpelledRead | src/invest_system/integrations/investment_research_kb/stage6_generic_adapter.py:692-698 | It is read as its digits with the point taken out |
| DecimalRules.CanonicalUnique | src/invest_system/integrations/investment_research_kb/stage6_generic_adapter.py:700-709 | Canonical texts of one number other than zero are the same text |
| DecimalRules.WindowExact | src/invest_system/integrations/investment_research_kb/stage6_generic_adapter.py:712-719 | A factor is computed exactly for twenty canonical texts that are not negative |
| DecimalRules.FactorRounds | src/invest_system/integrations/investment_research_kb/stage6_generic_adapter.py:712-722 | Whatever the turnovers, the factor is the canonical text of that mean, and for zero it is 0 |

## Left out

- SQLite itself: table and index text, WAL mode, pragmas, schema inventory, the upgrade of an empty version 1 file, and the order in which several violated constraints are reported.
- Stores.ReleaseCacheStore.UpgradeV2: starts from tables that are those of a coherent state without confirmations; a version 2 file written by other hands is not covered.
- Columns that no check reads back: creation times of identities and objects, the binding time, the quarantine's time and reason, and relative paths derived from the digest.
- File-system details: symbolic and hard links, junctions, path resolution, `fsync` and deletion of scratch files after a failed check beyond what the content-store steps say.
- Contents of 2^63 bytes or more, whose size no column could hold.
- `quota_report` and its scan of the cache directory: a report that no transaction uses.
- The run manifest's remaining fields and its canonical profile version: one opaque text that is hashed with the rest.
- UTF-8 encoding and lone surrogates: canonical texts are sequences of characters.
- CanonicalJson.ParsePrinted: the reader takes compact JSON text only; any other spelling is refused by the reprint check that follows every strict parse.
- Projection of data classes, enumerations and time stamps to JSON values: the model starts from JSON values.
- ProviderCanonical.CycleExact: for values with an unacceptable key or leaf it says only which way a reported cycle points, since the program stops at whichever problem it meets first; `CleanExact` is the equivalence for all other values, and `NormalRules.NormalExact` says for all values which are accepted. Which of several problems the one exception's message names is left out.
- StatusHistory.GetStatusHistory: starts from the parsed data of a response; its envelope, the transport and the other documents of a release are not modelled.
- ContextPack.ValidateGraph: semantic hashes, the provider-neutral projection with its counts, and the spelling checks of single fields are left out; descriptive fields that are only compared as a whole are one value.
- JsonEquality.FloatIs: below 10^16 only a float equals an integer; from there on its shortest text has an exponent, and a position that high needs as many events.
- DecimalFactors.Adv20Exact: the sign of a zero and the exponent limits of the decimal type are not kept.
- DecimalFactors.Adv20ExactIff: stops at sums of 50 digits. Beyond them each partial sum is rounded on its own and the errors may cancel, so no condition on the sum decides whether the mean is exact; what it then is, addition by addition, `DecimalRules.MeanRounds` says. Of the two lists of `OrderMattersBeyond`, which have one sum, one has an exact mean and the other has not.
- The Beta120 regression: its rounding at every step admits no exact statement of comparable strength.
- `reference_fixture.py`: a second, stricter evidence chain of the same shape as the context pack's.
- The member set of immutable exports, ZIP reading and member paths: exact-match guards.
- Schemas other than those of status events and histories, HTTP execution, snapshot locks, dependency closure and data-profile projections of the generic adapter: unseen libraries or field-by-field copies.
- Concurrency inside the database: transactions are serialised, as `BEGIN IMMEDIATE` makes them; only the content files are modelled with interleaved writers.
