# The bay map and its protocols, verified

This project models the part of the shelf manager that must never point at the wrong drive, and
the state machines that run around it:

- reading the enclosure's configuration and additional element status pages (SES-3, section
  6.1.13) and turning them into the element an IDENT command addresses (`ConfigPage`, `AesPage`,
  `AesLaws`, `PageLaws`, `ElementTypes`, `SlotMap`, `Addressing`, `SasMap`, `Locate`,
  `LocateLaws`);
- IDENT requests, their timers and the origin verdict under every interleaving of polls, writes,
  publications and other actors (`Ident`, `IdentProtocol`);
- health alerts with commit on delivery, cooldown and restart (`Notify`, `NotifyRuns`);
- fast forms of simple things: the audit tail window, the pruned rate limiter, the WWID-validated
  disk cache (`AuditTail`, `RateLimit`, `DiskCache`);
- smaller protocols: the TLS settle-then-restart watcher, the re-entrant enclosure lock, JSON-RPC
  request and reply matching (JSON-RPC 2.0, section 5), and the identity join of a bay
  (`TlsWatch`, `EnclosureLock`, `RpcClient`, `BayJoin`).

Code that updates objects or runs loops is written as classes and methods, each proved equal to a
specification function; what the code promises is proved about those functions, over every input
or every run, and said on the inputs themselves wherever a specification function would only
repeat the code. Pages are sequences of classified lines. Clocks, the network, sysfs, `sg_ses`
output and failures are parameters or nondeterministic inputs. Concurrency is a state machine
over atomic steps, and runs are arbitrary sequences of enabled steps.

`dafny verify dfyconfig.toml` checks everything.

## Where the code and its documentation differ

The model follows the code. Each item below comes with the exact condition proved, and most
with a proved counterexample.

- `backend/ktnmgr/services/ident.py:274-294` argues that the publication order makes any torn
  `describe` harmless. Both publications of an OFF write can land between its two reads, and an LED
  only we ever lit is then called external (`IdentProtocol.TornDescribeCanLie`). It happens exactly
  when the first read would have credited our request and the record is gone at the second
  (`IdentProtocol.TornDescribeLiesIff`).
- Between the effect of an ON write and its record, a complete poll shows our own LED as external
  (`IdentProtocol.UnpublishedOnLooksExternal`). Outside that gap "external" always has a foreign
  cause (`IdentProtocol.ExternalIsForeign`), and `IdentProtocol.FalseExternalIff` says exactly when
  it has none.
- `backend/ktnmgr/services/ident.py:182-187` says the ordering rule cannot hide a foreign light
  switched on after our write. One can be hidden from a poll that starts after it
  (`IdentProtocol.StraddlingLightIsHidden`): exactly when it came between an OFF write's effect and
  its stamp and the poll started no later than the stamp (`IdentProtocol.ForeignLightIsHiddenIff`).
- `backend/ktnmgr/services/ident.py:373-388` decides before it waits for the lock, so a bay re-lit
  meanwhile can be cleared with the expired request. `Ident.NewerRequestIsDroppedIff` says when.
- `backend/ktnmgr/enclosure/locate.py:220-251` promises refusal on misnumbered pages. A complete
  block can be printed out of order, pass every check and name the wrong bay
  (`Addressing.UnindexedPermutationIsInvisible`, and over a run
  `Locate.MisprintedPageLightsTheWrongBay`). The page alone excludes that exactly when the block has
  a single entry, or prints an index at both ends and at the addressed entry or every other one
  (`Addressing.ProvedIffPinned`, `Locate.RunAddressIsProvedIff`). Failing that the answer is right
  when the page was printed in element order (`Locate.NoRunAddressesTheWrongBay`), which for a
  complete block is also necessary (`Addressing.InPlaceIffInOrder`).
- `backend/ktnmgr/services/notify.py:334-363` spaces attempts after failed ones only. After a
  delivered alert the next transition is announced at once (`NotifyRuns.DeliveryClearsTheCooldown`);
  `NotifyRuns.NextAttemptIff` says exactly when an attempt has to wait.
  A bay listed twice in one evaluation can be announced twice (`Notify.RepeatedBayAlertsTwice`), exactly
  when both listings are queued (`Notify.RepeatsIff`).
- `backend/ktnmgr/enclosure/disks.py:146-228`: a serial whose read failed beside a readable wwid is
  cached as missing while the disk keeps its name (`DiskCache.FailedSerialReadSticks`). Caching is
  invisible exactly while the disk reads the same from one ask to the next
  (`DiskCache.CacheIsInvisibleIff`).
- `backend/ktnmgr/services/audit.py:79-149`: after a write cut off mid-record, the next record is
  glued to the remains; `tail` shows it exactly when the two together still parse
  (`AuditTail.RecordedIsNewest`).
- `backend/ktnmgr/enclosure/access.py:92-98`: a nested entry yields True even under an outermost
  entry that degraded (`EnclosureLock.NestedYieldProvesNothing`); mutual exclusion is stated for
  outermost entries, and a True is worth exactly what the outermost entry was told
  (`EnclosureLock.YieldIsTrueIff`).

## Model

| member | source | states |
|---|---|---|
| ConfigPage.ReadDetails | backend/ktnmgr/enclosure/ses_parser.py:187-206 | the look-ahead loop finds the first count and the text line of a descriptor, within four lines and before the next type header |
| ConfigPage.ParseConfiguration | backend/ktnmgr/enclosure/ses_parser.py:150-217 | the line loop returns exactly the descriptors the page means, in page order |
| ConfigPage.IndexIsPosition | backend/ktnmgr/enclosure/ses_parser.py:207-214 | on every page, descriptor k has index k |
| ConfigPage.DescriptorsDoNotBorrow | backend/ktnmgr/enclosure/ses_parser.py:190-197 | a descriptor depends only on lines before the next type header: no count or label is stolen from a later one |
| PageLaws.TypeHeaderReadsAhead | backend/ktnmgr/enclosure/ses_parser.py:182-214 | each type header makes the next descriptor, from its own name and subenclosure and from what the at most four lines after it say up to the first text line or header: the first count, else 0, and the text, else none |
| ConfigPage.ParseInvertsPrint | backend/ktnmgr/enclosure/ses_parser.py:150-217 | any descriptor list, with or without text lines, survives printing and parsing |
| ConfigPage.ArraySlotTypeIndex | backend/ktnmgr/enclosure/ses_parser.py:371-389 | one pass with a fallback finds the first populated array-slot descriptor, or failing that the first populated device-slot one |
| ConfigPage.BayTypeIndexIs | backend/ktnmgr/enclosure/locate.py:170-175 | the index used for bays is a position in the page's own list and names the descriptor whose positive count anchors the integrity check; array slots win, first among equals |
| AesPage.TakeLine | backend/ktnmgr/enclosure/ses_parser.py:489-521 | one line inside a block keeps the block equal to the meaning of the lines read so far |
| AesPage.ParseAdditionalElementStatus | backend/ktnmgr/enclosure/ses_parser.py:444-523 | the stateful line loop returns exactly the blocks the page means, malformed flags included |
| AesPage.ParseIsCompositional | backend/ktnmgr/enclosure/ses_parser.py:467-486 | a page may be cut at any type line and the parts parse independently |
| AesPage.OrphanLinesContributeNothing | backend/ktnmgr/enclosure/ses_parser.py:477-486 | lines under an unparseable header reach no block |
| PageLaws.ElementReadsItsLines | backend/ktnmgr/enclosure/ses_parser.py:489-521 | an element line and the lines up to the next element line of any kind make one entry: its own index fields, and the first slot and first address among them |
| PageLaws.UnknownElementReadsNothing | backend/ktnmgr/enclosure/ses_parser.py:504-512 | lines under an unknown element header reach no entry |
| PageLaws.PlainLinesReadNothing | backend/ktnmgr/enclosure/ses_parser.py:514-515 | nor do lines before the first element line |
| PageLaws.HeaderReadsItsLines | backend/ktnmgr/enclosure/ses_parser.py:467-486 | a full type header and the lines up to the next type line make one block, flagged exactly when an unknown element line is among them |
| AesLaws.ParseInvertsPrint | backend/ktnmgr/enclosure/ses_parser.py:444-523 | printing any block list and parsing it gives it back, malformed flags included |
| AesLaws.ReparsingIsStable | backend/ktnmgr/enclosure/ses_parser.py:444-523 | for every page, parsing, printing and parsing again changes nothing |
| AesLaws.UnknownElementFlagsOnlyItsBlock | backend/ktnmgr/enclosure/ses_parser.py:504-512 | an unrecognised element header inserted anywhere flags exactly the block it stands in; no block or position moves, no other block changes, and in it only the entry just before the header can lose attribute lines |
| SlotMap.Offsets | backend/ktnmgr/enclosure/locate.py:274-278 | the collected offset set has at most one member exactly when all printed indexes sit at one offset from their position |
| SlotMap.GatherClaims | backend/ktnmgr/enclosure/locate.py:258-293 | the claims loop records, for every slot number, all its claims in page order with the right type and trust flags |
| SlotMap.Settle | backend/ktnmgr/enclosure/locate.py:295-306 | each claim list becomes its verdict: addressable, refused, or left out |
| SlotMap.BuildSlotMap | backend/ktnmgr/enclosure/locate.py:217-306 | the three loops compute the map the policy defines, for every page |
| SlotMap.SitesAreClaims | backend/ktnmgr/enclosure/locate.py:286-293 | the recorded sites of a slot are exactly the bay entries that print it, each once, in page order |
| SlotMap.AddressableIff | backend/ktnmgr/enclosure/locate.py:252-298 | a slot is addressable at p if and only if the page shows no misattribution and its only claim is entry p of the first bay block of the type in use, which passes every check |
| SlotMap.RefusedIff | backend/ktnmgr/enclosure/locate.py:299-306 | a slot is refused by name if and only if it is claimed twice, or its one claim is by an untrusted block of the type in use |
| SlotMap.AddressableIsInjective | backend/ktnmgr/enclosure/locate.py:279-298 | distinct addressable slots have distinct elements, all below the declared count |
| LocateLaws.MapSpeaks | backend/ktnmgr/enclosure/locate.py:252-298 | the map sends a slot to an element exactly when that printed entry speaks for it, said on the entries alone |
| LocateLaws.MapDoubts | backend/ktnmgr/enclosure/locate.py:299-306 | and refuses it by name exactly when it is printed twice, or once where it cannot be trusted |
| Addressing.CountCheckIsExact | backend/ktnmgr/enclosure/locate.py:234-236 | for entries in element order, the count check passes if and only if no element is missing, and then every entry stands at its element's position |
| Addressing.OffsetCheckIsExact | backend/ktnmgr/enclosure/locate.py:237-242 | with every index printed from one zero point and a right count, the offset check passes if and only if every entry stands at its element's position |
| Addressing.ProvedIffPinned | backend/ktnmgr/enclosure/locate.py:233-242 | of a complete block that passes the offset check, the page alone proves entry p to be element p, for every truth it allows, if and only if the block has one entry, or both ends print an index and so does p or every other entry |
| Addressing.BlockProvedIff | backend/ktnmgr/enclosure/locate.py:233-242 | it proves the whole block in place if and only if it has one entry at most, or both ends print an index and at most one entry does not |
| Addressing.InPlaceIffInOrder | backend/ktnmgr/enclosure/locate.py:222-227 | what the page cannot show: a complete block is in place if and only if it was printed in element order |
| Addressing.WrongBayIsNeverAddressed | backend/ktnmgr/enclosure/locate.py:217-306 | whenever the map sends slot s to p, entry p really describes element p, prints s, and nothing else on the page claims s |
| Addressing.AddressIsProvedIff | backend/ktnmgr/enclosure/locate.py:252-299 | an address the map gives is certain for every truth the page allows if and only if its entry is pinned by the printed indexes |
| Addressing.UnindexedPermutationIsInvisible | backend/ktnmgr/enclosure/locate.py:237-242 | the hypothesis is needed: a page that passes every check and names the wrong bay |
| SasMap.SlotSasAddresses | backend/ktnmgr/services/state.py:780-825 | the second implementation's poisoning loop computes the address map its policy defines |
| SasMap.AddressIff | backend/ktnmgr/services/state.py:797-825 | a slot has address a if and only if its one claim on an unsuspicious page is by an entry printing a in the first block of the type |
| LocateLaws.AddressIsShownIff | backend/ktnmgr/services/state.py:780-825 | a slot is shown an address exactly when one entry of an unsuspicious page prints the slot, in the first block of the index, with that address |
| SasMap.AddressNeverContradictsLed | backend/ktnmgr/services/state.py:769-825 | a displayed address belongs to a slot the LED map knows, and which it refuses or sends to the very entry that printed the address |
| SasMap.LedAddressExactly | backend/ktnmgr/services/state.py:798-824 | for a slot the LED map addresses, the address shown is that entry's, missing exactly when the entry printed none or a non-bay block of the type came first |
| SasMap.LaterAddressIsTheElementsIff | backend/ktnmgr/services/state.py:769-825 | the LED map is kept and addresses are re-read: an address a later page shows for an addressable slot is that element's if and only if the later page has the slot claimed at the same place |
| SasMap.RewiredShelfDisagrees | backend/ktnmgr/services/state.py:769-825 | otherwise it can be another entry's: a shelf whose slots swap places between the two pages |
| Locate.SesLocateWriter.Address | backend/ktnmgr/enclosure/locate.py:146-343 | resolving a slot through the range check, the enclosure lookup and both caches gives the outcome and the new caches, every refusal by its own cause; a failed step caches nothing |
| Locate.SesLocateWriter.Write | backend/ktnmgr/enclosure/locate.py:341-372 | a command is sent only for an addressed element and names that element; the observation equals the request if and only if some read before the deadline showed it |
| Locate.SettlePoll | backend/ktnmgr/enclosure/locate.py:366-372 | the settle loop returns the requested state if and only if some reading showed it with no earlier check past the deadline |
| Locate.TypesComeFromPages | backend/ktnmgr/enclosure/locate.py:161-175 | in any run, a cached type index was read from a configuration page of that enclosure |
| LocateLaws.CachedTypeIsPrinted | backend/ktnmgr/enclosure/locate.py:161-175 | over any run, a cached (index, count) was printed by that enclosure: the position and the count of the first populated array device slots, or failing any device slots |
| Locate.SlotsComeFromPages | backend/ktnmgr/enclosure/locate.py:189-215 | in any run, a cached map was built by the one call that filled it, from a status page of that enclosure, under the type still cached |
| Locate.NoRunAddressesTheWrongBay | backend/ktnmgr/enclosure/locate.py:341-348 | over any run on any enclosures, caches included, and for every truth about what the pages describe: if the page that filled the map was printed in element order or fully numbered, the element addressed truly is the bay asked for, and nothing else on that page claims it |
| Locate.RunAddressIsProvedIff | backend/ktnmgr/enclosure/locate.py:341-348 | over any run, caches included, an address is right for every truth allowed by the page that filled the map if and only if that page pins the element by its printed indexes |
| Locate.MisprintedPageLightsTheWrongBay | backend/ktnmgr/enclosure/locate.py:237-242 | that condition is about the world: a run on an unindexed page printed out of order lights the other bay |
| Locate.AnswersAreStable | backend/ktnmgr/enclosure/locate.py:131-144 | once a map is cached, each slot gets the same answer whenever the enclosure is attached, be it addressed, refused as ambiguous, or unmapped |
| Locate.UselessPageIsNotCached | backend/ktnmgr/enclosure/locate.py:203-213 | a page that maps nothing never stays cached, so it cannot pin later calls to refusal |
| LocateLaws.FreshCallAddressesIff | backend/ktnmgr/enclosure/locate.py:146-335 | with nothing cached, a call answers element (i, p) if and only if the shelf is there, the slot is in 0..1023, descriptor i holds the bays, and entry p of the first bay block of i alone prints the slot, in a regular block of the declared count on a page where only bays print slots: nothing vouched for is refused |
| LocateLaws.KnownTypeAddressesIff | backend/ktnmgr/enclosure/locate.py:189-328 | the same with the type known and the map still to be read |
| LocateLaws.FreshCallRefusesIff | backend/ktnmgr/enclosure/locate.py:56-75 | each refusal happens exactly for its own cause, the first thing wrong winning |
| Ident.IdentManager.DescribeBay | backend/ktnmgr/services/ident.py:150-198 | the verdict on a reading, ordered against our last verified write |
| Ident.IdentManager.Identify | backend/ktnmgr/services/ident.py:202-315 | only offered durations light; a refused or unverified write changes nothing; a verified one leaves exactly its record, ending the asked time from now, and its stamp, and touches no other slot |
| Ident.IdentManager.TickSlot | backend/ktnmgr/services/ident.py:374-416 | one slot's pass writes exactly when its record has expired and no backoff is open, with its clear, give-up and retry outcomes |
| Ident.IdentManager.ClearExpired | backend/ktnmgr/services/ident.py:382-416 | a decided clear acts on whatever the slot holds when it gets the lock |
| Ident.IdentManager.Tick | backend/ktnmgr/services/ident.py:368-425 | one pass gives every slot its own step, whatever the order, and writes to the due slots only |
| Ident.IdentManager.ReconcileSlot | backend/ktnmgr/services/ident.py:334-355 | one loaded record at startup: dropped when its LED is absent or dark, cleared when expired, kept otherwise |
| Ident.IdentManager.Reconcile | backend/ktnmgr/services/ident.py:319-364 | startup writes OFF only to loaded, lit, expired slots, and leaves only loaded records whose LED is lit |
| Ident.ReconciledIs | backend/ktnmgr/services/ident.py:333-358 | record by record at startup: unlit ones go, ended ones are cleared if the write works, others stay |
| Ident.FailingClearIsBounded | backend/ktnmgr/services/ident.py:389-416 | over any passes whose clears fail there are at most the allowed number of writes; until then the record stays with the right backoff, and at the limit record and retry are both gone |
| Ident.BackoffDoubles | backend/ktnmgr/services/ident.py:376-416 | failing write k+1 comes at least backoff times 2^(k-1) after write k |
| Ident.DelayDoubles | backend/ktnmgr/services/ident.py:412 | the first retry waits the configured time and every wait doubles the one before |
| Ident.ExpiredIsRetriedUntilCleared | backend/ktnmgr/services/ident.py:373-416 | below the limit, a pass writes if and only if the record has expired and the backoff is over, and the first success leaves the slot dark and unowned |
| Ident.TimedRequestEndsOnTime | backend/ktnmgr/services/ident.py:306-308 | after a verified ON at t for d seconds no pass before t + d touches the slot, the first from then on writes OFF, and if that clears the bay is dark and unowned |
| Ident.UntimedRequestStays | backend/ktnmgr/services/ident.py:306-308 | one without a duration is never written to |
| Ident.RequestShowsItsEnd | backend/ktnmgr/services/ident.py:188-200 | while it stands the bay shows the request and when it ends |
| Ident.NewerRequestIsDroppedIff | backend/ktnmgr/services/ident.py:373-416 | a pass drops a request that had not expired if and only if the last write published while it waited for the lock lit the bay again, and its clear succeeds or is the last one allowed |
| IdentProtocol.PublicationsAreIdentify | backend/ktnmgr/services/ident.py:295-315 | the two publication steps of the protocol together publish what `identify` does |
| IdentProtocol.RunKeepsInv | backend/ktnmgr/services/state.py:254-274 | every step of every interleaving keeps each poll in flight and the cached reading sound |
| IdentProtocol.HistoryIsWhatHappened | backend/ktnmgr/services/ident.py:188-200 | the history flags hold exactly when the run has a foreign light-up, a start without record, or a dropped record since the effect of our last (published) write |
| IdentProtocol.HeldReadingStaysSound | backend/ktnmgr/services/state.py:683-685 | a reading taken from the cache stays sound however late it is described |
| IdentProtocol.ExternalIsForeign | backend/ktnmgr/services/ident.py:188-200 | "external" is never said of an LED only we have lit, outside the gap between an ON write's effect and its record |
| IdentProtocol.FalseExternalIff | backend/ktnmgr/services/ident.py:188-200 | an LED only we have lit is called external if and only if an ON write has taken effect unpublished, no record answers for it, and it is believed lit |
| IdentProtocol.UnpublishedOnLooksExternal | backend/ktnmgr/services/ident.py:301-315 | that gap is real: a run in which only we act shows external |
| IdentProtocol.ForeignLightIsHiddenIff | backend/ktnmgr/services/ident.py:182-190 | a light another actor switched on, and left on, is hidden from a poll that started after it if and only if it came while an OFF write of ours had taken effect unpublished, and the poll started no later than that write's stamp |
| IdentProtocol.SettledReadingIsTrue | backend/ktnmgr/services/ident.py:182-200 | in particular a poll started after the last change of LED and stamp is shown true in every case: external exactly when lit with no record, the request's expiry when one owns it, dark when dark |
| IdentProtocol.StraddlingLightIsHidden | backend/ktnmgr/services/ident.py:182-190 | such a hidden light: a run in which it is sampled lit, by a poll started after it, and shown dark |
| IdentProtocol.TornDescribeLiesIff | backend/ktnmgr/services/ident.py:188-195 | a describe torn between its two reads calls an LED only we have lit external if and only if it would have credited our request at the first read and that record is gone at the second |
| IdentProtocol.TornDescribeIsSound | backend/ktnmgr/services/ident.py:188-195 | hence it is sound if no record is dropped between the reads |
| IdentProtocol.TornDescribeCanLie | backend/ktnmgr/services/ident.py:274-299 | both publications of an OFF write between the reads make it happen |
| Notify.HealthNotifier.Evaluate | backend/ktnmgr/services/notify.py:288-366 | the messages sent and both dictionaries after one evaluation, and that a writable state file never falls behind the committed states |
| Notify.HealthNotifier.ScanBays | backend/ktnmgr/services/notify.py:301-340 | the first loop settles what needs no message and collects what does, each bay seen after the listings before it |
| Notify.HealthNotifier.DeliverAll | backend/ktnmgr/services/notify.py:351-363 | the second loop commits what was delivered and backs off on the rest |
| Notify.ShelfIsItsBays | backend/ktnmgr/services/notify.py:303-363 | evaluating a shelf of distinct bays is one independent step per bay and leaves every other key alone |
| Notify.OneBayIsTold | backend/ktnmgr/services/notify.py:303-366 | one evaluation of one bay: exactly when a message is sent, in which words, and what is remembered after it |
| Notify.MessagesAreTheOutstanding | backend/ktnmgr/services/notify.py:318-355 | there is one message for each bay with an outstanding, cooled alert, and no other, naming its committed state |
| Notify.RepeatsIff | backend/ktnmgr/services/notify.py:303-355 | for any listing, one evaluation announces a bay twice if and only if two listings of it are both queued |
| Notify.RepeatedBayAlertsTwice | backend/ktnmgr/services/notify.py:303-355 | that happens: a failed bay listed twice is announced twice |
| NotifyRuns.CommitsFormAChain | backend/ktnmgr/services/notify.py:303-366 | over any run, each committed state starts where the one before ended, and is announced exactly when somebody must be told |
| NotifyRuns.DeliveredMessageIsItsCommit | backend/ktnmgr/services/notify.py:351-357 | a delivered message's "was" is the state the operator was last told |
| NotifyRuns.OneMessagePerCondition | backend/ktnmgr/services/notify.py:306-313 | while health stays constant at most one message is delivered, across restarts, and nothing is attempted after it |
| NotifyRuns.PersistentAlertIsDelivered | backend/ktnmgr/services/notify.py:318-366 | a persistent alert is delivered exactly at the first look past its cooldown that the endpoint accepts |
| NotifyRuns.RetriesAreSpaced | backend/ktnmgr/services/notify.py:334-363 | in particular, while a failed alert stands its next attempt comes no sooner than the retry interval |
| NotifyRuns.CooldownAfterAttempt | backend/ktnmgr/services/notify.py:306-363 | the cooldown standing after an attempt, over any looks and restarts up to the next one |
| NotifyRuns.NextAttemptIff | backend/ktnmgr/services/notify.py:334-363 | the next attempt comes exactly at a look that finds an alert outstanding, at once unless the last attempt failed and the alert stood through every look since, and then once the retry interval is over |
| NotifyRuns.DeliveryClearsTheCooldown | backend/ktnmgr/services/notify.py:352-355 | after a delivered one there is no spacing |
| NotifyRuns.CooldownMeansOutstanding | backend/ktnmgr/services/notify.py:303-363 | a cooldown is held only for a bay last seen in an uncommitted alert-worthy state |
| NotifyRuns.RestartOnlyForgetsCooldown | backend/ktnmgr/services/notify.py:102-124 | a restart changes nothing but forgotten cooldowns: past them, both runs commit and attempt alike |
| NotifyRuns.RestartLosesNothing | backend/ktnmgr/services/notify.py:102-113 | after a restart an undelivered alert is attempted at the next look if and only if it is outstanding |
| NotifyRuns.RestartIsPerBay | backend/ktnmgr/services/notify.py:102-124 | a notifier started on a current state file knows the same committed states and no cooldowns |
| NotifyRuns.ShelfRunsArePerBay | backend/ktnmgr/services/notify.py:288-366 | over any sequence of evaluations and restarts, each bay ends where its own looks alone would take it, so every law of one bay's runs holds of the whole notifier |
| NotifyRuns.ShelfRunMessages | backend/ktnmgr/services/notify.py:318-355 | in any such sequence a message about a bay is sent, and delivered, exactly when the bay's own run tries, and delivers, one there |
| AuditTail.SplitAfterNewline | backend/ktnmgr/services/audit.py:138-141 | text after a line feed splits into lines on its own, whatever stands before it |
| AuditTail.WindowIsEnough | backend/ktnmgr/services/audit.py:163-167 | a window with more line feeds than lines wanted ends in the same lines as the whole file |
| AuditTail.ReadTailBytes | backend/ktnmgr/services/audit.py:152-168 | the doubling window ends, with a suffix of the file that is everything or holds enough |
| AuditTail.AuditLog.Tail | backend/ktnmgr/services/audit.py:124-149 | for every file and limit, the result is that of reading the whole file: the parseable ones of its last lines, newest first |
| AuditTail.AuditLog.Record | backend/ktnmgr/services/audit.py:58-122 | one line is appended, after rotation when the size is reached; neither failure loses what was there |
| AuditTail.RecordedIsNewest | backend/ktnmgr/services/audit.py:108-149 | a record just appended heads what `tail` shows, before the earlier entries, if and only if the parser makes it out of the torn remains and the record together; with nothing torn that is the record itself |
| AuditTail.CompletedIsNotTorn | backend/ktnmgr/services/audit.py:115 | a file whose last record was completed has nothing torn |
| AuditTail.BreakIsOne | backend/ktnmgr/services/audit.py:138 | a line break is recognised only where one of the eleven break strings stands |
| AuditTail.OneIsABreak | backend/ktnmgr/services/audit.py:138 | and wherever one stands, in full |
| AuditTail.LinesAre | backend/ktnmgr/services/audit.py:138 | the lines of a text are what stands before its first break and the lines of what stands after it |
| AuditTail.TailIsNewestFirst | backend/ktnmgr/services/audit.py:132-149 | the entries of the last lines, newest first, as many as asked for, at least one, at most the maximum, and no fewer unless the file is shorter |
| AuditTail.UnparsableLineIsSkipped | backend/ktnmgr/services/audit.py:140-147 | a line that does not parse takes a place, shows nothing and moves nothing |
| RateLimit.RateLimiter.Check | backend/ktnmgr/services/auth.py:104-121 | admission and the new log, after pruning |
| RateLimit.RateLimiter.Prune | backend/ktnmgr/services/auth.py:123-136 | idle keys go, once per window |
| RateLimit.PruneIsInvisible | backend/ktnmgr/services/auth.py:123-136 | pruning changes no later count of any key |
| RateLimit.RefinesSimple | backend/ktnmgr/services/auth.py:104-140 | over any run with a clock that does not go back, every answer is that of a limiter that keeps all attempts for ever |
| RateLimit.AdmittedIff | backend/ktnmgr/services/auth.py:112-121 | over any run, a check is admitted if and only if fewer than the limit of its key's checks were admitted, since its last reset, less than a window ago |
| RateLimit.SlidingBound | backend/ktnmgr/services/auth.py:112-121 | between two resets no key is admitted more than the limit in any half-open window, wherever it starts |
| RateLimit.IdleKeysAreForgotten | backend/ktnmgr/services/auth.py:123-136 | after any check every key still held was admitted within the last two windows |
| DiskCache.DiskInfoReader.Read | backend/ktnmgr/enclosure/disks.py:146-228 | outcome and new cache of one read, for every combination of missing, refused and present attributes |
| DiskCache.IdentityIsOfThisDisk | backend/ktnmgr/enclosure/disks.py:173-228 | over any sysfs history, a returned identity carries the WWN read in that call, and all of it was read by one call that saw the same wwid under the same name |
| DiskCache.RefusalForgets | backend/ktnmgr/enclosure/disks.py:178-195 | it refuses if and only if the disk is present, silent and not revalidated, and then remembers nothing; no other name is touched |
| DiskCache.CacheIsInvisibleIff | backend/ktnmgr/enclosure/disks.py:178-228 | over a whole history caching changes no answer if and only if, between an identification and the next ask under the same name and wwid, the disk reads the same |
| DiskCache.CacheIsInvisible | backend/ktnmgr/enclosure/disks.py:153-165 | in particular when the wwid determines what can be read |
| DiskCache.AnswerSticks | backend/ktnmgr/enclosure/disks.py:179-181 | an identity once given is given at every later ask for as long as the disk keeps its name |
| DiskCache.FailedSerialReadSticks | backend/ktnmgr/enclosure/disks.py:183-228 | so a serial whose read failed once, beside a readable wwid, stays missing at every later ask while the disk keeps its name |
| DiskCache.NormaliseIsIdempotent | backend/ktnmgr/enclosure/disks.py:129-144 | normalising a normalised WWN changes nothing |
| DiskCache.WwnFormIs | backend/ktnmgr/enclosure/disks.py:136-144 | every spelling of one WWN, with any of the four prefixes, in either case, with space around or words after it, has one normal form |
| DiskCache.BareWwnFormIs | backend/ktnmgr/enclosure/disks.py:136-144 | one without a prefix keeps all its characters |
| DiskCache.SizeAndRotationAre | backend/ktnmgr/enclosure/disks.py:197-205 | a decimal size counts sectors of 512 bytes; only 0 and 1 are believed of rotation |
| DiskCache.ModelIs | backend/ktnmgr/enclosure/disks.py:207-210 | the vendor stands before the model unless the model starts with it |
| DiskCache.SerialIs | backend/ktnmgr/enclosure/disks.py:108-127 | the serial is the printable text after four header bytes of the unit serial page, else the attribute |
| DiskCache.UnreadableIff | backend/ktnmgr/enclosure/disks.py:183-195 | a present disk is unreadable exactly when it shows no identifier and one of the three sources was refused |
| DiskCache.StripIs | backend/ktnmgr/enclosure/disks.py:80 | stripping takes the white space off both ends and nothing else |
| TlsWatch.TlsWatcher.Check | backend/ktnmgr/services/tls_watch.py:179-260 | delay, restart and new state of one comparison, for every unreadable, unchanged, unusable and changed file |
| TlsWatch.PendingIsTheStreak | backend/ktnmgr/services/tls_watch.py:188-228 | the pending candidate is the current streak of equal looks since its first one, and `reload_pending` says just that |
| TlsWatch.RestartsExactlyAtFirstSettled | backend/ktnmgr/services/tls_watch.py:188-260 | over any looks and any clock, the app restarts exactly at the first look that ends a settled streak |
| TlsWatch.RestartsAtMostOnce | backend/ktnmgr/services/tls_watch.py:230-260 | hence at most once |
| TlsWatch.NextLookIsDue | backend/ktnmgr/services/tls_watch.py:188-260 | the next look is put off to the end of the settle period still to serve, by a settle period for an unparseable file, by the interval otherwise |
| EnclosureLock.Acquire | backend/ktnmgr/enclosure/access.py:126-144 | the retry loop acquires if and only if some try succeeds with no earlier failed try past the deadline |
| EnclosureLock.RunKeepsInv | backend/ktnmgr/enclosure/access.py:84-158 | over any interleaving, depth counters match the blocks a thread is in and the file lock matches who holds it |
| EnclosureLock.MutualExclusion | backend/ktnmgr/enclosure/access.py:128-158 | at most one thread is inside a block whose outermost entry said it held the lock, and who waits on the file holds nothing |
| EnclosureLock.YieldIsTrueIff | backend/ktnmgr/enclosure/access.py:92-158 | over any interleaving, a thread told it holds the lock is inside exactly one outermost entry, and really holds one if and only if that entry was told so |
| EnclosureLock.ExitRestores | backend/ktnmgr/enclosure/access.py:146-158 | a block left, normally or by exception, restores the thread's depth and locks |
| EnclosureLock.NestedYieldProvesNothing | backend/ktnmgr/enclosure/access.py:92-98 | two threads can both be told "held" when one of them is nested under a degraded entry |
| RpcClient.TrueNASClient.NextId | backend/ktnmgr/truenas/client.py:137-139 | each request takes the next id and is logged under it |
| RpcClient.TrueNASClient.WsRequest | backend/ktnmgr/truenas/client.py:178-216 | the receive loop's outcome on any incoming messages |
| RpcClient.TrueNASClient.ConnectSocket | backend/ktnmgr/truenas/client.py:110-127 | a socket is pooled only once its login was accepted |
| RpcClient.TrueNASClient.CallWs | backend/ktnmgr/truenas/client.py:146-176 | the retry loop: the first attempt's outcome unless it failed in transport, else the second's |
| RpcClient.ReceivedIsReply | backend/ktnmgr/truenas/client.py:199-216 | what is returned or refused is the first reply bearing the request's own id |
| RpcClient.ReceiveIs | backend/ktnmgr/truenas/client.py:199-216 | the first garbage, cancellation or own reply settles an exchange, each with its own outcome; a value is returned whatever it is, unless the call is the login and it is not true |
| RpcClient.CallIsBounded | backend/ktnmgr/truenas/client.py:159-176 | at most two requests and two logins per call, none after a refusal; a final transport failure leaves no pooled socket |
| RpcClient.PooledCallIsAnswered | backend/ktnmgr/truenas/client.py:159-170 | on a pooled socket a reply is the call's answer and the socket stays pooled |
| RpcClient.FreshCallIsAnswered | backend/ktnmgr/truenas/client.py:110-127 | without a socket the login comes first: accepted, the request follows; answered by anything but true, the call is refused, nothing is pooled and the request never sent |
| RpcClient.DroppedCallStartsAfresh | backend/ktnmgr/truenas/client.py:171-175 | a transport failure on a pooled socket drops it and the call is answered as one made without |
| RpcClient.IdsAreNeverReused | backend/ktnmgr/truenas/client.py:137-139 | ids strictly increase over the life of the client, across reconnects |
| RpcClient.RepliesAreNeverMismatched | backend/ktnmgr/truenas/client.py:146-216 | over any run, what a call returns is the body of a reply to its own last request, whose id no other request bears |
| BayJoin.ComposeBays | backend/ktnmgr/services/state.py:604-706 | each bay is composed from its own slot and live read |
| BayJoin.IdentityHasProvenance | backend/ktnmgr/services/state.py:662-675 | field by field, a bay shows the live value when there is one, else that of the record under its name, and that only when a live read placed the disk there without proven contradiction; so too the address |
| BayJoin.FailedReadsAreAsLoud | backend/ktnmgr/services/state.py:643-662 | a failed read reports the same condition and health as a confirmed disk, and names no drive |
| BayJoin.SwapShedsTheName | backend/ktnmgr/services/state.py:652-675 | a proven swap is composed as if nothing were cached under the name, and without the slot's address |
| BayJoin.HealthIs | backend/ktnmgr/services/state.py:112-172 | over every cache and live read, exactly when a bay is failed, empty, warning, ok and unknown, swaps judged by WWN and, failing that, serial |
| BayJoin.BayNeverWearsAnotherDisk | backend/ktnmgr/services/state.py:151-172 | over any sysfs history and any caches, a bay shows the WWN its disk has now, and when the cached record is another disk's, only what was read from this disk and nothing filed under the name |
| BayJoin.AlarmsAreThisDisks | backend/ktnmgr/services/state.py:652-656 | over any sysfs history and caches, for a disk with a WWN: no departed disk's fault is shown, and none of the disk that is there is hidden |

## Left out

- Regular expressions of text lines: pages are classified lines, one class per line; a line that carried both a slot number and an address would be two lines here. Numbers are already parsed.
- Subenclosure records, vendor and logical id lines of the configuration page, join output, telemetry and temperature parsing: display tables.
- `validate_request`'s identifier pattern and lower-casing of enclosure ids; only its slot range is modelled.
- The direct sysfs writer and the helper client and server: they add a socket hop around the same steps.
- AdditionalElementBlock is a value; the parser's reference to the open block and entry is the pair "in a block", "in an entry" and the last element of each list.
- Ident.IdentManager.Tick: exceptions other than the two the loop catches abort the rest of a pass, which is not modelled; a pass here does not wait for the lock between slots, what waiting can change is stated for one slot.
- Ident.IdentManager.Identify: the audit entries, the record's slot and creation time, and saving the state file are not part of it; the preliminary read can only make the attempt fail.
- IdentProtocol.ExternalIsForeign: a write that fails is taken to leave the LED as it was, `describe` to be one step (its torn form is treated separately), and a cached reading and its instant to be taken together.
- Locate.SettlePoll: the readings and clock checks are inputs whose last check is past the deadline, which stands for time passing.
- Notify.HealthNotifier.Evaluate: the endpoint is an arbitrary answer per bay; message text, severity, sending concurrently and scrubbing of logs are not modelled, nor is a state file that changes under a running notifier; a restart after a failed save falls back to the states last saved.
- AuditTail.AuditLog.Record: the entry's fields, credential scrubbing, permissions and partial writes (which appear as the torn part of a file) are outside it.
- AuditTail.AuditLog.Tail: decoding is represented by the byte forms of the line breaks and an arbitrary parser of a line's bytes.
- RateLimit.RateLimiter.Check: calls are atomic, as its lock makes them; the clock is a parameter.
- DiskCache.NormaliseIsIdempotent: case folding and white space are those of ASCII and Latin-1; a blank string, on which the code would raise, never reaches it from the reader.
- TlsWatch.TlsWatcher.Check: hashing and certificate parsing are inputs; expiry dates, the disabled reason, log throttling and exceptions of the restart itself are left out.
- EnclosureLock.Acquire: the tries and clock checks are inputs; file creation modes and once-only warnings are left out.
- RpcClient.TrueNASClient.CallWs: sends, receives, time-outs and cancellation are inputs; the REST fallback, its pause, TLS settings and the method allow-list are left out.
- BayJoin.ComposeBays: identities are values, so the assignment into the reader's cached object when there is no remote record is not captured; device path, power status and the IDENT fields of a bay are left out.
- Building the ZFS, SMART and disk indexes from appliance answers, SMART polling and system information: straight-line mappings.
- Accounts, sessions, password hashing, settings, routes and the web frontend.
