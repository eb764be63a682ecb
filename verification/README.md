# Offer exchange: verified model

This project models the node, client and tooling of an offer exchange in Dafny and proves what its parts promise. An offer is
a transaction posted to a data-availability layer; the node indexes it, follows the chain events that consume it, and tells
subscribers what happened. `dafny verify dfyconfig.toml` checks everything.

| Files | What they model |
|---|---|
| `OfferExpiry`, `OfferLiveness`, `OfferBook` | the ledger limits that set an offer's expiry, the ordered liveness checks, the tables and the effect of every input on them |
| `OfferBookInvariants`, `OfferBookRuns`, `OfferBookIds`, `OfferBookReplicas` | what every input keeps, what holds over whole runs, and that replicas differ only in local row ids |
| `RootWindow`, `OfferBookHistory` | that pruning roots is never visible, and admission in terms of the inputs processed so far |
| `OfferTerms`, `OfferBookRecords` | an offer's expiry and stored row in terms of what it declares; first sightings, who leaves the book and why, counters |
| `OfferBookMachine`, `Consumer` | the state machine updating its tables in place, and the book a subscriber rebuilds from the events |
| `EndToEnd` | machine, gate, bus and stream composed: the subscriber's book is the node's |
| `EventGate`, `UpdateStream` | the commit gate in front of the event bus; the numbering server, the unreliable channel and the gap-refusing client |
| `SnapshotRead` | answering from one committed state while a writer commits between any two queries |
| `TokenRegistry`, `RegistryValidation` | the registry document and the transaction that permutes unique colours through temporary ones |
| `Digits`, `FixedPoint`, `DecimalTokens`, `Amount`, `PriceMap` | decimal texts: comparison, conversion to base units, canonical printing, exact scaling |
| `Ladder`, `Sponsorship`, `PriceCache` | price ladders, the sponsorship threshold, the per-colour price cache |
| `SseSplitter`, `Settlement`, `MachO` | frame splitting, settlement deltas, the load-command patcher |

Each component that the source writes as code updating state is a class or a loop proved against a specification function, and
the promises are lemmas about that function.

## Assumptions

- A row id is never handed out twice, and a scheduled input does not fire before its time (`OfferBook.Enabled`).
- Blocks are processed in order, so heights and times do not go down (`RootWindow.Forward`, `EventGate.BlocksInOrder`); only the
  results that name these predicates use it.
- Offer hashes are not empty (`EndToEnd.RealHashes`), as digests are not.
- Every commit adds a higher block, and the rows of a block are committed with it (`SnapshotRead.Committed`).
- That an answer is given, rather than only a correct one, is said of a reader while nothing is committed and the backend is
  synchronized (`SnapshotRead.Reader.settled`).
- Stream ids are never reused, and a client receives only frames some server sent, or something that is no frame
  (`UpdateStream.Enabled`).
- The structural validator's and the proof verifier's verdicts are inputs; in `SnapshotRead` they are functions of the time they
  are asked at.

## Where the code and its own words differ

- The blob transition reconciles against nullifiers that arrived before their offer
  (packages/node/state-machine.ts:343-347, 892-921). The liveness check before it already refuses such an offer, so the loop
  never archives anything (`OfferBookInvariants.ReconcileNeverFires`).
- A quote's suggested amount is described as always sponsored (packages/node/market-mock.ts:82-86). With nothing given it is
  not (`Sponsorship.SuggestedIsGreatest`).
- The gate keys events by type and subject (packages/node/event-bus.ts:86-115). Rejections carry no row id, so two without a
  hash in one block are released as one (`EventGate.HashlessRejectionsCollapse`).
- A frame of exactly the bound is read or refused depending on where a chunk ends, because a divided separator leaves its first
  newline in the measured buffer (`SseSplitter.EveryChunkingExactly`).
- The live set of UTXOs is not checked against the spend record, so a repeated create event brings a spent UTXO back
  (`OfferBookRuns.LiveSetUnspentExactly`).
- The bracket of two equal anchors relies on every block having a timestamp, because the anchor query skips those without
  (`SnapshotRead.AnchorPinsCommitExactly`).
- An expired intent limit is said to be reported as EXPIRED (packages/node/offer-validation.ts:147-156). The verdict contract has
  no such code for a status not read yet, so this holds only after the proof, which is the step that finds it;
  told earlier it would be no answer (`SnapshotRead.Tellable`).
- The ladder rules are said to preserve an exact staircase (packages/solver-core/ladder-schema.ts:48-58). They accept other
  ladders too, and a quote is the staircase exactly for those whose neighbours differ by at most one output unit or by one
  input unit (`Ladder.QuoteIsStaircaseExactly`).
- Setting a flag bit goes through a signed 32-bit word, so a flags word with its top bit set is refused rather than patched
  (`MachO.SetsExactlyWhen`, `MachO.TopBitIsRefused`).
- Any finite price counts as a market price, also one below zero (packages/batcher/price-lookup.ts:165-168). With such a price
  giving more or asking less can lose a sponsorship (`Sponsorship.RaisingKeepsExactly`, `Sponsorship.LoweringKeepsExactly`,
  `Sponsorship.SignedPricesCost`).

## Model

| member | source | states |
|---|---|---|
| OfferExpiry.DeriveOfferExpiry | packages/node/state-machine.ts:223-233 | the loop over the limits computes the specified expiry, with the error of the first limit that does not parse |
| OfferExpiry.ExpiryIsEarliest | packages/node/state-machine.ts:206-233 | the expiry is the earliest of the root, intent and DUST limits that apply; the fallback decides exactly when none does; a limit that applies but is malformed is an error, never skipped |
| OfferExpiry.EarliestDustSpendDeadline | packages/node/state-machine.ts:185-200 | the loop over the intents computes the specified DUST deadline |
| OfferExpiry.DustDeadlineIsEarliest | packages/node/state-machine.ts:185-200 | the deadline is the earliest creation time of a DUST-spending intent plus the grace period, none exactly when no intent spends DUST, an error exactly when one of those times is unusable |
| OfferExpiry.OfferLifetimeSeconds | packages/node/state-machine.ts:242-247 | the served lifetime is max(0, expiry - creation) in whole seconds rounded down: it never over-promises and loses less than a second |
| OfferLiveness.EvaluateInStateMachine | packages/node/offer-liveness.ts:66-98 | the generator loop returns the first failing check |
| OfferLiveness.EvaluateFromDatabase | packages/node/offer-liveness.ts:24-61 | the lazy adapter gives the same verdict, and asks for the root clock at most once, exactly when the checks reach the roots |
| OfferLiveness.FirstDeadIsFirst | packages/validator/liveness.ts:116-128 | the reported check fails, and every check before it holds; none is reported only if all hold |
| OfferLiveness.VerdictOrder | packages/validator/liveness.ts:29-114 | which code is reported, both directions: a spent nullifier hides a dead UTXO, and both hide an unknown root |
| OfferBook.DeclaredMarkers | packages/node/marker-dedup.ts:86-100 | the markers are the declared commitments, then the declared unshielded outputs, in their order |
| OfferBookInvariants.NullifierKeepsInv | packages/node/state-machine.ts:301-377 | a nullifier event leaves no live offer that uses it; archived rows, schedule and log stay consistent |
| OfferBookInvariants.SpendKeepsInv | packages/node/state-machine.ts:383-464 | an unshielded spend removes the UTXO from the live set and every offer backed by it |
| OfferBookInvariants.CreateKeepsInv | packages/node/state-machine.ts:470-518 | a create event keeps every invariant of the book |
| OfferBookInvariants.RootKeepsInv | packages/node/state-machine.ts:525-544 | recording and pruning roots keeps every invariant of the book |
| OfferBookInvariants.RejectKeepsInv | packages/node/state-machine.ts:582-609 | a rejection keeps every invariant and announces or closes nothing |
| OfferBookInvariants.CleanupKeepsInv | packages/node/state-machine.ts:949-990 | a cleanup archives only an expired offer, and never leaves a live offer without its pending cleanup |
| OfferBookInvariants.DueMeansExpired | packages/node/state-machine.ts:923-935 | a scheduled cleanup that fires no earlier than its time always finds its offer expired: advertised expiry and sweep cannot drift |
| OfferBookInvariants.FirstIncumbentNone | packages/node/state-machine.ts:704-720 | no conflict is reported exactly when no live offer claims any declared marker; a reported hash is that of a live offer claiming one |
| OfferBookInvariants.RowClaimsDeclared | packages/node/state-machine.ts:834-857 | the rows inserted for an offer claim exactly the markers its transaction declares |
| OfferBookInvariants.AcceptedExactlyWhen | packages/node/state-machine.ts:611-800 | a blob is indexed if and only if it is well formed, unknown, live, proven, claims no taken marker and has a derivable expiry; the stored expiry is that one |
| OfferBookInvariants.RefusalOrder | packages/node/state-machine.ts:611-720 | which refusal each kind of bad offer gets, and that a marker conflict names a live offer claiming one of the markers |
| OfferBookInvariants.ReconcileNeverFires | packages/node/state-machine.ts:892-921 | the early-arrival loop changes nothing for an offer that passed the liveness checks |
| OfferBookInvariants.AcceptKeepsInv | packages/node/state-machine.ts:802-938 | indexing keeps hashes unique, markers disjoint, the cleanup pending at exactly the stored expiry |
| OfferBookInvariants.StepKeepsInv | packages/node/state-machine.ts:301-990 | every input keeps all invariants: unspent nullifiers, backed UTXOs, disjoint markers, unique hashes, exact schedule, exact lifetimes, honest archive reasons, exact event log |
| OfferBookInvariants.RunKeepsInv | packages/node/state-machine.ts:301-990 | the same over every run |
| OfferBookInvariants.EmptyIsInv | packages/node/state-machine.ts:301-990 | the empty book satisfies them |
| OfferBookRuns.RunExtends | packages/node/state-machine.ts:301-990 | over any run an indexed row stays verbatim in the live table or the history, and archive and spend records never change |
| OfferBookRuns.KnownOffersNeverReturn | packages/node/state-machine.ts:634-653 | once known, a hash is answered DUPLICATE_OFFER after any run, whatever became of the offer |
| OfferBookRuns.SpentNeverBacksAnOffer | packages/node/state-machine.ts:364-371 | after any run a nullifier once seen refuses every offer that uses it |
| OfferBookRuns.OncePerOffer | packages/node/state-machine.ts:338-362 | in the event log two closings, or two announcements, of one offer are the same event, and the announcement comes first |
| OfferBookRuns.BookIsItsLog | packages/node/state-machine.ts:936-981 | an offer is live exactly when it was announced and not closed, archived exactly when it was closed, each once |
| OfferBookRuns.LiveSetUnspentExactly | packages/node/state-machine.ts:470-518 | "in the live set" keeps meaning "not spent" exactly until a create event repeats a spent UTXO |
| OfferTerms.ExpiryExactly | packages/database/sql/queries.app.ts:1818-1825 | the stored expiry of an accepted offer is the earliest of: a window after the last sighting of each superseded proof root, a window after the block for the newest root, the intent limit, a grace period after each DUST-spending intent; and the policy lifetime exactly when there is none of these |
| OfferTerms.IndexedExactly | packages/node/state-machine.ts:611-800 | a blob is indexed exactly when it is an admissible, proven offer and every time its expiry is derived from is a date: the oldest root's first sighting, the DUST times, the earliest limits, the policy limit when it decides; when only that fails the whole input fails |
| OfferTerms.ExpiryFromHistory | packages/node/state-machine.ts:735-802 | the same after any run, with the sightings among the inputs processed so far in place of the root table |
| OfferTerms.RootWindowApplies | packages/node/state-machine.ts:765-800 | an accepted offer with proof roots always has a root limit, expires no later, and the limit is never already past |
| OfferTerms.StoredAsDeclared | packages/node/state-machine.ts:803-938 | the row and the announcement of an accepted offer carry what its transaction gives as gives and what it wants as wants, its hash, block and expiry; nothing else of the book changes |
| OfferTerms.OutputsAsDeclared | packages/node/marker-dedup.ts:86-100 | each declared output identity is stored once, with the type and value of its first declaration and the number of its declarations |
| OfferBookRecords.RunRecorded | packages/node/state-machine.ts:301-518 | after any run the record of a nullifier, commitment, spent or created UTXO is that of the first event that showed it: a repeat changes neither height nor transaction |
| OfferBookRecords.StepLeaves | packages/node/state-machine.ts:338-990 | which offers each input ends, with the reason and the time of its block; every other row stays as it is |
| OfferBookRecords.StepTells | packages/node/state-machine.ts:350-362 | each input's group of closings names the input as its cause and every ended offer by its hash; an input that ends none says nothing |
| OfferBookRecords.StepSchedules | packages/node/state-machine.ts:923-990 | a cleanup is pending from the indexing of its offer, for the stored expiry, until it fires; nothing else schedules or drops one |
| OfferBookRecords.RunMatches | packages/node/state-machine.ts:325-377 | after any run a nullifier is marked as matched exactly when a closing names it as its cause |
| OfferBookRecords.RunCounts | packages/node/state-machine.ts:582-609 | after any run the counter of a height and code is the number of rejections the log holds of them |
| OfferBookRecords.RefusalIsTold | packages/node/state-machine.ts:582-720 | a refusal changes only the counter and the log; the event names the refused offer by its own hash, and the live incumbent exactly for a marker conflict |
| RootWindow.LiveExactly | packages/node/state-machine.ts:525-544 | a root is live in the pruned table exactly when it was seen since the cutoff or the newest block carried it: what was deleted is never missed |
| RootWindow.NodeAgrees | packages/node/state-machine.ts:525-544 | over any run the pruned table is the full one without rows that are neither recent nor the newest |
| RootWindow.FirstSeenExactly | packages/node/state-machine.ts:525-544 | the first-seen time of a root is that of the sighting that brought it into the table, however often it was seen again |
| OfferBookHistory.RunSpent | packages/node/state-machine.ts:325-336 | after any run a nullifier is on record exactly when a nullifier event showed it |
| OfferBookHistory.RunUnspent | packages/node/state-machine.ts:383-518 | after any run a UTXO is in the live set exactly when it was created and not spent since |
| OfferBookHistory.RunKnown | packages/node/state-machine.ts:642-653 | after any run a hash is known, live or archived, exactly when a blob of that hash was indexed before |
| OfferBookHistory.AdmissionFromHistory | packages/node/state-machine.ts:611-800 | whether a blob is indexed after any run, in terms of the inputs processed so far: the tables lose nothing along the way |
| OfferBookIds.StepIds | packages/node/state-machine.ts:803-812 | after any input the row ids in use are those before it, and the new row's exactly when a blob was accepted |
| OfferBookReplicas.SameVerdict | packages/node/state-machine.ts:634-800 | replicas reach the same decision, code, conflicting hash and expiry whatever their local row ids |
| OfferBookReplicas.SameFirstIncumbent | packages/node/marker-dedup.ts:45-55 | the incumbent named in a marker conflict is the same on every replica |
| OfferBookReplicas.ReplicasStep | packages/node/state-machine.ts:301-990 | one shared input keeps two replicas equal up to a bijection of row ids, extended by the ids of a newly indexed offer |
| OfferBookReplicas.ReplicasAgree | packages/node/state-machine.ts:546-990 | equal input leaves equal books, event for event, up to the bijection, over any run |
| OfferBookReplicas.ReplicasAgreeFromEmpty | packages/node/state-machine.ts:546-990 | two replicas started empty agree, and the bijection covers exactly the indexed offers |
| OfferBookMachine.Machine.CommitmentTransition | packages/node/state-machine.ts:304-323 | the in-place update is the specified step: first sighting wins |
| OfferBookMachine.Machine.NullifierTransition | packages/node/state-machine.ts:325-377 | record, archive, mark matched only if something was archived, publish one event per row |
| OfferBookMachine.Machine.UnshieldedSpendTransition | packages/node/state-machine.ts:383-464 | record, delete from the live set, archive, publish; a malformed payload changes nothing |
| OfferBookMachine.Machine.UnshieldedCreateTransition | packages/node/state-machine.ts:470-518 | both tables, first wins; a malformed payload changes nothing |
| OfferBookMachine.Machine.RootTransition | packages/node/state-machine.ts:525-544 | upsert with first-seen kept, then prune; an empty root changes nothing |
| OfferBookMachine.Machine.PublishConsumed | packages/node/state-machine.ts:350-362 | the loop over the archived rows publishes exactly one event for each |
| OfferBookMachine.Machine.FindConflict | packages/node/state-machine.ts:704-720 | the probe loop with early return reports the first declared marker's incumbent |
| OfferBookMachine.Machine.Admit | packages/node/state-machine.ts:611-800 | the checks in their order compute the specified decision |
| OfferBookMachine.Machine.InsertOffer | packages/node/state-machine.ts:802-880 | the child-table loops build exactly the specified row |
| OfferBookMachine.Machine.ReconcileEarly | packages/node/state-machine.ts:892-921 | the reconciliation loop is the specified one, with its archived-early flag |
| OfferBookMachine.Machine.SaveOffer | packages/node/state-machine.ts:802-938 | insert, reconcile, then schedule and announce unless archived early |
| OfferBookMachine.Machine.RejectOffer | packages/node/state-machine.ts:582-609 | one more in the (height, code) counter, one event |
| OfferBookMachine.Machine.BlobTransition | packages/node/state-machine.ts:546-943 | the whole ingestion: reject, fail without a change, or save |
| OfferBookMachine.Machine.CleanupTransition | packages/node/state-machine.ts:949-990 | archive by TTL and publish, only at or after the stored expiry |
| OfferBookMachine.Machine.Process | packages/node/state-machine.ts:301-992 | every input refines the specified step, keeps all invariants and the exact list of published events; a failed blob changes nothing |
| OfferBookMachine.EventsTellTheBook | packages/node/state-machine.ts:301-990 | on the bus, each indexed offer was announced exactly once and exactly the archived ones were closed, once |
| Consumer.FoldGroup | packages/node/state-machine.ts:350-362 | the events of one archive statement fold to the same mirror in any order |
| Consumer.PublishedEventsAreTheBook | packages/node/state-machine.ts:301-990 | folding all published events gives exactly the live offers with their hashes and the closed ones with their reason |
| Consumer.SnapshotPlusUpdates | packages/node/offer-updates-stream.ts:226-256 | a snapshot read at any moment after the attachment, with the delivered updates, is the folded bus up to the later of the two, over any channel behaviour |
| EndToEnd.BookLivesDistinct | packages/node/event-bus.ts:86-115 | no two published events about the life of an offer agree in type and subject, so the gate's key tells them apart |
| EndToEnd.GateKeepsLives | packages/node/event-bus.ts:104-151 | while blocks are processed in order the gate drops none of them: what it accepts and what was emitted agree on every offer's life |
| EndToEnd.BusIsTheBook | packages/node/event-bus.ts:104-151 | whatever commits were reported, the bus folds to the book as some first part of the events left it, and what is held back leads on to the book as it is |
| EndToEnd.SubscriberHasTheBook | packages/node/offer-updates-stream.ts:226-256 | machine, gate, bus and stream together: a subscribed client with a snapshot read since its attachment keeps up with the bus, and has the book once the bus is through |
| EventGate.IdentityExact | packages/node/event-bus.ts:104-115 | equal keys mean equal type and equal subject, although both are joined into one text |
| EventGate.FlushSplits | packages/node/event-bus.ts:119-127 | a flush takes exactly what is at most the committed height, and both parts keep their order |
| EventGate.PendingInOrder | packages/node/event-bus.ts:137-151 | over any run the buffer is a subsequence of the emissions |
| EventGate.RunKeepsInv | packages/node/event-bus.ts:119-163 | over any run nothing with a height is released before a commit at or above it; the buffer lies above the committed height with distinct (height, key) |
| EventGate.RunConserves | packages/node/event-bus.ts:119-163 | over any run what was accepted is pending or published, counted with repeats |
| EventGate.DeliveredInOrder | packages/node/event-bus.ts:119-163 | while block heights do not go down the bus sees exactly the accepted events in emission order, up to those still held |
| EventGate.RetryIsIdempotent | packages/node/event-bus.ts:86-103 | reprocessing a rolled-back block, even with other row ids, leaves the gate as the first attempt left it |
| EventGate.KeepsAllExactlyWhen | packages/node/event-bus.ts:104-151 | a block's events all survive the gate if and only if no two agree in type and subject |
| EventGate.HashlessRejectionsCollapse | packages/node/event-bus.ts:104-151 | two rejections without a hash in one block are one event to the gate, whatever their codes |
| EventGate.DifferentEventsSurvive | packages/node/event-bus.ts:104-115 | two rejections with different hashes, two mints of different colours, two closings of different offers and an announcement and a closing of one offer all survive the gate |
| EventGate.RetriedOfferIsSame | packages/node/event-bus.ts:86-115 | an event about the same offer under another row id is the same event to the gate |
| EventGate.Bus.EmitAppEvent | packages/node/event-bus.ts:137-151 | the in-place update is the specified emission |
| EventGate.Bus.MarkBlockCommitted | packages/node/event-bus.ts:158-163 | the in-place update is the specified commit; a lower or non-finite height changes nothing |
| EventGate.Bus.Drain | packages/node/event-bus.ts:119-125 | the backward scan that splices and prepends is the order-preserving split |
| EventGate.Bus.Flush | packages/node/event-bus.ts:119-127 | everything due is delivered once, in order |
| UpdateStream.DeliveredIsUnbrokenPrefix | packages/solver-core/api-client.ts:1345-1404 | for any messages, the consumer gets exactly the events of the longest unbroken opening; the first message out of place ends the subscription, and one disconnect is reported if it had been announced |
| UpdateStream.StepKeepsInv | packages/node/offer-updates-stream.ts:144-274 | publish, upgrade, attach, refusal, shutdown and any delivery of a sent frame keep: frames numbered from the attachment on, none missing while open, clients holding a stretch of the bus, the connection cap |
| UpdateStream.RunKeepsInv | packages/node/offer-updates-stream.ts:144-340 | the same over any run |
| UpdateStream.ClientSeesItsStretch | packages/solver-core/api-client.ts:1345-1404 | over any channel that loses, repeats, reorders or misroutes frames, a client hands over a contiguous in-order stretch of the bus starting where its own stream's listener was attached |
| UpdateStream.NothingLostInOrder | packages/node/offer-updates-stream.ts:226-256 | a channel that keeps order, with frames of any sizes within the bound, delivers everything published since the attachment while the subscription is open |
| UpdateStream.SendsExactly | packages/node/offer-updates-stream.ts:176-207 | a frame is sent exactly when the socket is open, it is canonical and at most 65,536 bytes and the send does not throw; the subscription stays open exactly when moreover the backlog is at most 1,048,576 bytes |
| UpdateStream.StaysComplete | packages/node/offer-updates-stream.ts:144-274 | over any run in clear weather without an end or a shutdown an announced subscription stays open and has sent every event since its attachment |
| UpdateStream.EverythingArrives | packages/node/offer-updates-stream.ts:226-256 | so a client on a channel that keeps order is handed the whole bus from the attachment on, without condition |
| UpdateStream.AdmitsAndEnds | packages/node/offer-updates-stream.ts:278-340 | a connection is taken exactly while fewer than the capacity are open; ending one or all leaves the others and what was sent as they were |
| UpdateStream.EndsSilently | packages/solver-core/api-client.ts:1304-1321 | a client that was stopped hears nothing more, and the consumer is told of a disconnect exactly when the end comes to a subscription it knows of and did not stop |
| UpdateStream.ServerSubscription.Send | packages/node/offer-updates-stream.ts:176-207 | send or end, never skip: open afterwards exactly in clear weather, and the wire grows by exactly this frame or not at all |
| UpdateStream.ServerSubscription.SubscribeThenAnnounce | packages/node/offer-updates-stream.ts:219-256 | the listener is attached, then announced, with nothing in between |
| UpdateStream.ServerSubscription.OnBusEvent | packages/node/offer-updates-stream.ts:229-243 | each bus event advances the number by one and is sent with it |
| UpdateStream.ClientSubscription.Handle | packages/solver-core/api-client.ts:1345-1404 | the message handler is the specified client step |
| UpdateStream.ClientSubscription.End | packages/solver-core/api-client.ts:1304-1321 | finishing is idempotent and reports a disconnect only after an announcement |
| DecimalTokens.TokenOrderIsNumeric | packages/solver-core/api-client.ts:176-187 | comparing canonical tokens by length and then as strings is comparing the numbers, at any length |
| DecimalTokens.TextTokensExactly | packages/solver-core/api-client.ts:580-602 | the string branch accepts exactly the canonical spellings of 1 to 2^64 - 1 |
| DecimalTokens.AcceptedTokenExactly | packages/solver-core/api-client.ts:580-602 | both branches: what comes back is the canonical spelling of a positive integer within its bound |
| DecimalTokens.GuardExactly | packages/solver-core/api-client.ts:174-188 | the Content-Length guard refuses as too large exactly the canonical lengths above the limit, and passes exactly those up to it |
| DecimalTokens.HeightAtLeastIsNumeric | packages/solver-core/offer-updates-contract.ts:111-114 | the height comparison is the numeric one |
| SseSplitter.DrainConcat | packages/solver-core/api-client.ts:1032-1038 | splitting what came so far and going on is splitting everything at once, also across a divided separator |
| SseSplitter.BytesExactly | packages/solver-core/api-client.ts:1039-1051 | a character counts as the fewest bytes whose UTF-8 payload holds its code point |
| SseSplitter.SizeOfConcat | packages/solver-core/api-client.ts:1039-1051 | the measured size of a text is that of its parts together |
| SseSplitter.DrainJoins | packages/solver-core/api-client.ts:1036-1051 | the frames with a blank line after each, and the rest, are the text |
| SseSplitter.DrainSeparates | packages/solver-core/api-client.ts:1036-1051 | no blank line is left in a frame or in the rest |
| SseSplitter.LinesJoin | packages/solver-core/api-client.ts:1046-1049 | the lines of a frame joined by newlines are the frame, and none holds a newline |
| SseSplitter.OneLinePayload | packages/solver-core/api-client.ts:1046-1049 | a frame of one data line dispatches what follows the colon without the white space around it; any other line nothing |
| SseSplitter.ReadsTheWhole | packages/solver-core/api-client.ts:1018-1058 | what is dispatched depends only on the text; a reader fails exactly when some frame or some retained remainder is too large |
| SseSplitter.EveryChunkingExactly | packages/solver-core/api-client.ts:1032-1057 | every chunking is read if and only if all frames are shorter than the bound and the tail is within it: a frame of exactly the bound depends on the chunks |
| SseSplitter.Pump.OnChunk | packages/solver-core/api-client.ts:1018-1058 | one read is the specified step; the retained buffer then holds no separator and is within the bound |
| SseSplitter.Pump.Dispatch | packages/solver-core/api-client.ts:1046-1049 | the data lines of a frame are dispatched, trimmed, in order, and nothing else |
| SnapshotRead.AnchorPinsCommitExactly | packages/node/offer-validation.ts:185-193 | an unchanged anchor rules out a commit in between, for every pair of reads, if and only if no block after a stamped one lacks a timestamp |
| SnapshotRead.AnchorExactly | packages/node/offer-validation.ts:160-205 | the anchor is the newest block with a timestamp, when its height is a positive 64-bit number and the timestamp a date from the epoch on; otherwise there is none |
| SnapshotRead.UnstampedBlockTearsTheRead | packages/node/offer-validation.ts:261-361 | with such a block equal anchors can enclose a row and a root that no single state contains |
| SnapshotRead.LiveMeansUsable | packages/node/offer-validation.ts:261-361 | a state reads as live exactly when the row is bound to its hash, live, unexpired and passes every liveness check |
| SnapshotRead.EvaluatedExactly | packages/node/offer-validation.ts:267-350 | what a committed state says of an offer, read off its tables: no row, a row with another status, expired, a spent nullifier, a dead UTXO, an unknown root, in this order, each with its code, status and served expiry; and no answer exactly for a row that is not the offer's, or live without a usable expiry |
| SnapshotRead.PassedOnExactly | packages/node/offer-validation.ts:120-160 | a reason of the validator is passed on under its own name wherever verdicts have that name; otherwise it becomes one they have, except for three reasons this endpoint cannot meet |
| SnapshotRead.Reader.Attempt | packages/node/offer-validation.ts:267-357 | one attempt with commits between any two queries: a returned state is the evaluation of the one commit its anchor names |
| SnapshotRead.Reader.ReadBoundOfferState | packages/node/offer-validation.ts:261-361 | the same over the retries |
| SnapshotRead.Reader.RequireCurrentBackend | packages/node/offer-validation.ts:207-235 | a returned anchor is that of a committed state reached during the call, however stale the health report |
| SnapshotRead.Reader.FinalState | packages/node/offer-validation.ts:492-514 | the state returned after the proof is the evaluation of one commit made since the call, at a current anchor |
| SnapshotRead.Reader.ValidateOfferForUse | packages/node/offer-validation.ts:385-559 | VALID means: at the commit the verdict names the offer was usable, and the posted bytes hash to the id, are well formed, supported and proven at an earlier anchor; every other verdict given on a state answers for exactly one commit, the one its anchor names, with what its tables say, else the shape or the proof failure; one given before any state is read gives the first reason there is; while nothing is committed there is an answer if and only if its reason has a code the contract allows; every verdict obeys the frozen contract |
| TokenRegistry.Tables.RenameKnown | packages/database/token-registry.ts:363-370 | one row of the temporary renaming: it fails exactly on a clash, and colours stay unique |
| TokenRegistry.Tables.UpsertKnown | packages/database/token-registry.ts:377-387 | the upsert keeps the id of an existing row, fails exactly on a constraint, and leaves names, colours and ids unique |
| TokenRegistry.Tables.UpsertState | packages/database/token-registry.ts:388-398 | the provenance upsert, likewise |
| TokenRegistry.Tables.CheckGuards | packages/database/token-registry.ts:319-361 | the guard loops accept exactly the guarded tables |
| TokenRegistry.Tables.ApplyCanonicalRegistry | packages/database/token-registry.ts:300-409 | all or nothing: refused exactly when the names were imported only in part or some token meets an obstacle; otherwise exactly the canonical rows are replaced in both tables, and a refusal restores both |
| TokenRegistry.RefusedExactly | packages/database/token-registry.ts:319-399 | the obstacles: a hand-made row that differs from the token in colour, kind, decimals or asset; a recorded colour the row does not have; a colour held by another row; a temporary colour in use; an asset no table knows |
| TokenRegistry.UnmanagedRowsStay | packages/database/token-registry.ts:352-362 | a committed import leaves a row no importer wrote as it was, up to the letter case of its colour |
| TokenRegistry.LaterImportExactly | packages/database/token-registry.ts:344-361 | after an import the provenance guards never stop a later one |
| TokenRegistry.ReimportChangesNothing | packages/database/token-registry.ts:300-409 | importing the same registry again goes in exactly when no row holds a temporary colour, and then changes nothing |
| TokenRegistry.AnyPermutationGoesIn | packages/database/token-registry.ts:363-399 | from an imported state any permutation of the colours goes in |
| RegistryValidation.ValidateCanonicalRegistry | packages/database/token-registry.ts:216-294 | accepted exactly when complete: a ready head for the expected network and profile, the six symbols once each, one active deployment each on the document's own network, no colour twice; the result is that reading |
| RegistryValidation.AcceptedDeclares | packages/database/token-registry.ts:27-84 | an accepted document is headed for the expected network, with its protocol and profile, and declares exactly the six tokens with these names, decimals, privacy, amounts and separators, so one that differs in any field is refused |
| RegistryValidation.AcceptedDeploys | packages/database/token-registry.ts:148-281 | each token of an accepted document has sound deployments under different ids, and exactly one active one: the one it names, whose token id in lower case is the colour |
| RegistryValidation.GenuineIsAccepted | packages/database/token-registry.ts:216-294 | for every network there is a document that is accepted: six tokens with one active deployment each |
| RegistryValidation.ReadsAs | packages/database/token-registry.ts:216-294 | what is imported: six names with their kinds, decimals and assets, in this order |
| RegistryValidation.HexExactly | packages/database/token-registry.ts:108-115 | a token id is sixty-four hex digits in either case: exactly what becomes a colour in lower case |
| RegistryValidation.ColorsAreLocal | packages/database/token-registry.ts:269-281 | every colour that is imported was deployed on the expected network under its profile |
| RegistryValidation.SelectActive | packages/database/token-registry.ts:265-279 | the single active deployment named by the token, on the document's network, or nothing |
| RegistryValidation.ReadsOnce | packages/database/token-registry.ts:229-291 | a document has one reading |
| Amount.ConvertsExactly | packages/solver-core/amount.ts:63-95 | a spelled amount converts if and only if the number of base units it names is whole, and then to that number |
| Amount.ReadsExactly | packages/solver-core/amount.ts:63-95 | an amount is digits, perhaps a point and more digits, between white space; everything else is refused |
| Amount.WholeIsText | packages/solver-core/amount.ts:63-95 | a whole number of coins converts as its decimal spelling does |
| Amount.UnitsRoundTrip | packages/solver-core/amount.ts:109-121 | every base-unit amount survives the trip through its coin spelling, which has no redundant zero |
| Amount.NormalizeIsIdempotent | packages/solver-core/amount.ts:63-121 | the other composition is a normaliser: a normal spelling stays as it is |
| Amount.NormalizeIsCanonical | packages/solver-core/amount.ts:63-121 | two spellings have the same normal one if and only if they name the same number of base units |
| PriceMap.ParsesExactly | packages/database/price-map.ts:186-200 | what is read is exactly the spellings - sign, digits, point, more digits, exponent with its sign in either case, between white space - and each as the number it spells |
| PriceMap.SmallNumberReads | packages/database/price-map.ts:188-227 | 1e-7 is read as a ten-millionth and printed as 0.0000001 |
| PriceMap.PrintsPlainly | packages/database/price-map.ts:202-219 | what is printed is a minus for a negative number, a whole part without redundant zeros, and a fraction that does not end in zero; never an exponent |
| PriceMap.PrintedValue | packages/database/price-map.ts:202-219 | printing keeps the exact value |
| PriceMap.PrintsAlikeExactly | packages/database/price-map.ts:188-219 | two decimals print alike if and only if they are equal |
| PriceMap.CanonicalForm | packages/database/price-map.ts:225-227 | the printed text keeps the value, prints as itself, and is shared by exactly the texts of that value |
| PriceMap.PriceScalesExactly | packages/database/price-map.ts:239-248 | there is a price exactly for a number and decimals up to 38, and ten to the decimals times the per-base-unit price is the asset price, exactly |
| PriceMap.ScalingComposes | packages/database/price-map.ts:239-248 | scaling by a and then by b is scaling by a + b, up to 38 |
| Ladder.RejectLevels | packages/solver-core/ladder-schema.ts:59-77 | null exactly for an acceptable ladder; otherwise the fault of the first rung that breaks it |
| Ladder.AmountExactly | packages/solver-core/ladder-schema.ts:30-33 | an amount is the canonical spelling of a number below two to the 256 |
| Ladder.FaultMeans | packages/solver-core/ladder-schema.ts:59-77 | each fault in terms of the rung and its neighbour: malformed, not positive, input not above the one before, output below it |
| Ladder.InterpolateQuote | packages/solver-core/ladder-schema.ts:102-119 | the loop computes the specified quote, for any levels |
| Ladder.QuoteIsFlooredChord | packages/solver-core/ladder-schema.ts:92-119 | defined exactly on the range, exact at every rung, between two rungs the greatest whole amount on or under the chord |
| Ladder.QuoteMonotone | packages/solver-core/ladder-schema.ts:92-119 | a larger amount never quotes less, across rungs and despite flooring |
| Ladder.QuoteIsStaircaseExactly | packages/solver-core/ladder-schema.ts:48-58 | the quote is the staircase for every amount if and only if neighbouring rungs differ by at most one output unit or by one input unit |
| PriceCache.ParsePricesBody | packages/batcher/price-lookup.ts:119-180 | refused exactly without the documented shape; the discount is the body's when it lies in [0, 1) and the fallback otherwise |
| PriceCache.ParseTokens | packages/batcher/price-lookup.ts:153-178 | the loop keeps the last entry for each colour, downgrades what the node does not vouch for, and counts what it could not use |
| PriceCache.NoneDowngradedExactly | packages/batcher/price-lookup.ts:154-176 | nothing is counted as unusable exactly when every entry names a colour and is a usable market price or says itself that it is none |
| PriceCache.MarketPriceIsVouched | packages/batcher/price-lookup.ts:153-178 | a colour is on record exactly when some entry names it; the last such entry decides: a market price exactly when it has a finite one from one of the three market sources, otherwise a fallback with its number or zero |
| PriceCache.DowngradedExactly | packages/batcher/price-lookup.ts:154-176 | the count is the number of entries that name no colour or offer no market price without saying so |
| PriceCache.PriceLookup.FetchColors | packages/batcher/price-lookup.ts:310-349 | a failure changes nothing cached; an answer covers every colour asked for, also those it does not price |
| PriceCache.PriceLookup.Lookup | packages/batcher/price-lookup.ts:258-308 | each price is the last answer's and at most maxAge old; each asked colour, in lower case, is priced, unavailable or known without a price, once; unavailable if and only if never answered or older; asked for exactly when never answered or past its time to live, in pages of at most 50 that stop at the first failure; the discount is the last answer's |
| PriceCache.WantedExactly | packages/batcher/price-lookup.ts:258-270 | the colours considered are the asked ones in lower case, once each |
| PriceCache.FreshNotAsked | packages/batcher/price-lookup.ts:259-278 | a colour within its time to live is not asked for again |
| PriceCache.UnansweredKeepsLastWord | packages/batcher/price-lookup.ts:205-209 | a lookup without an answer for a colour leaves its last answer as it was |
| Sponsorship.RatioIsValue | packages/node/market-mock.ts:68-80 | a fraction is built exactly from the spelling of a positive price, and is its exact value |
| Sponsorship.SuggestedIsGreatest | packages/node/market-mock.ts:105-123 | quoted exactly for a discount in [0, 10000); an amount is then sponsored if and only if it is at most the suggested one; with nothing given none is, not even the suggested one |
| Sponsorship.QuoteIsDollarRule | packages/offer-guard/sponsorship.ts:130-150 | the quote's whole-number test is exactly wanted dollars at most given dollars less the discount |
| Sponsorship.EvaluateSponsorship | packages/offer-guard/sponsorship.ts:167-220 | the loops compute the specified sums, the unpriced colours once each in order, and the verdict |
| Sponsorship.SponsoredExactly | packages/offer-guard/sponsorship.ts:167-220 | the reported sums are those of the legs; unpriced exactly when some leg has no market price; sponsored exactly when all have one, something is given, and what is asked is worth at most what is given less the discount and 0.000000001 dollars |
| Sponsorship.OneCentOver | packages/offer-guard/sponsorship.ts:211-213 | a basket at the rule is sponsored, and one a cent over it is not |
| Sponsorship.UnpricedExactly | packages/offer-guard/sponsorship.ts:179-194 | no colour is unpriced exactly when every leg has a market price |
| Sponsorship.QuoteAgreesWithCheck | packages/offer-guard/sponsorship.ts:135-150 | a pair the quote marks sponsored is sponsored by the check, which exceeds the rule by at most its tolerance |
| Sponsorship.RaiseSafeExactly | packages/offer-guard/sponsorship.ts:211-213 | giving more units never loses the sponsorship, for every offer, if and only if their price is not negative |
| Sponsorship.LowerSafeExactly | packages/offer-guard/sponsorship.ts:211-213 | asking fewer units never loses it, for every offer, if and only if their price is not negative |
| Sponsorship.RaisingKeepsExactly | packages/offer-guard/sponsorship.ts:167-220 | over all baskets: giving more of a token keeps the sponsorship of every offer if and only if its price is not below zero or no price is above zero |
| Sponsorship.LoweringKeepsExactly | packages/offer-guard/sponsorship.ts:167-220 | asking less of a token keeps it under exactly the same condition |
| Sponsorship.SignedPricesCost | packages/offer-guard/sponsorship.ts:167-220 | two prices, 1 and -1, under which raising a give and lowering a want each lose the sponsorship |
| Settlement.NetReceipts | deploy/scripts/live-cow-case.ts:456-464 | the in-place deltas leave exactly what is given and paid in less what is wanted and demanded |
| Settlement.ExpectedReceiptCheck | deploy/scripts/live-cow-case.ts:456-474 | accepted if and only if the solver pays no asset and receives of each what was announced |
| Settlement.DeltasByActor | deploy/scripts/live-cow-case.ts:808-814 | each actor's delta of each asset is what its orders receive less what they pay, and with the solver's receipt the deltas sum to zero; refused exactly when an actor has no wallet |
| Settlement.ReceiptIsWhatActorsLose | deploy/scripts/live-cow-case.ts:456-474 | the solver receives of each asset exactly what the actors, taken together, lose |
| Settlement.ExpectedAfter | deploy/scripts/live-cow-case.ts:226-230 | every balance moves by its delta, whatever the order of the entries |
| Settlement.AssetsAreConserved | deploy/scripts/live-cow-case.ts:456-474 | actors' balances afterwards and the solver's receipt are what the actors held before |
| MachO.PatchSegmentFlag | scripts/patch-macos-celestia.ts:35-57 | the buffer afterwards and the result are the specified ones, also for short, foreign and out-of-range files |
| MachO.FindFlags | scripts/patch-macos-celestia.ts:38-55 | the loop over the load commands is the specified walk |
| MachO.TargetExactly | scripts/patch-macos-celestia.ts:36-55 | the flags word that is patched is that of the first segment with the name among as many commands as the header counts, each found by the sizes of those before; no segment exactly when all are others or the file has no such header |
| MachO.NameExactly | scripts/patch-macos-celestia.ts:41-43 | the name test is the source's: cut at the first zero byte from which no line end follows, what is left is the name |
| MachO.ChangesOneBit | scripts/patch-macos-celestia.ts:45-50 | at most bit 4 of the first byte of the flags word changes, from clear to set; every other byte stays |
| MachO.SetsExactlyWhen | scripts/patch-macos-celestia.ts:45-51 | when the segment is found, the patched file has the bit set if and only if it was set before or the top bit of the flags word is clear |
| MachO.TopBitIsRefused | scripts/patch-macos-celestia.ts:45-51 | a 104-byte file with the segment is patched with clear flags and refused with the top bit set |
| MachO.SecondIsFound | scripts/patch-macos-celestia.ts:38-55 | a segment that is the second command, after one of another size, is found and patched: the walk goes on by each command's own size |
| MachO.PatchIsIdempotent | scripts/patch-macos-celestia.ts:35-57 | a second run walks the same commands to the same word and changes nothing |

## Left out

- SQL: tables are maps and sets with the meaning of the queries; the framework's accounting table and its scrubbing are not modelled.
- The structural validator, the ledger library, bech32m, hashing and proof verification: their verdicts and hashes are inputs.
- Rejection reasons, log lines and the display fields of a quote (rates, discounts and dollar amounts).
- Doubles: prices, thresholds and dollar sums are exact rationals, so the sponsorship tolerance is the only slack.
- Wire shapes: JSON envelopes, stream id syntax and event payload syntax are taken as canonical or not.
- Fill-versus-cancel classification of archived offers, which is computed when an offer is read.
- Aborts and timeouts: a cancelled validation request, a connect timeout and a missed pong are ends without a cause.
- Listeners that emit again while an event is delivered, and two price lookups running at once.
- Unshielded owner and hex normalisation: identifiers arrive in canonical spelling.
- Texts a JavaScript number cannot hold: `Amount` and `PriceMap` take the number's own decimal spelling, and `RangeError` for absurd exponents is not modelled.
- The solver's derivation and journal, route handlers, rate limits, wallets, relay polling and the docs application.
- EventGate.KeepsAllExactlyWhen: speaks of one block on a buffer that holds nothing else at its height; across blocks `EventGate.RunConserves` counts what was accepted.
- TokenRegistry.Tables.StageKnown: renames rows in the order of the registry's names, because the order in which a multi-row update visits rows is not specified.
- OfferBookReplicas.ReplicasAgree: compares the order of events by archive statement, because the order of rows within one statement is not specified.
- SnapshotRead.Reader.ValidateOfferForUse: promises the single-commit reading when every block is stamped; the other case is `SnapshotRead.UnstampedBlockTearsTheRead`.
- TokenRegistry.ReimportChangesNothing: the `updated_at` stamp, which every import rewrites, is not modelled.
- RegistryValidation.ValidateCanonicalRegistry: the shape of the fields nothing else depends on (dates, addresses, toolchain, confirmation, artifact) is one flag of each deployment and of the head.
- SseSplitter.Pump.Dispatch: a caller that stops the stream between two lines of one frame is not modelled.
- PriceCache.ParsePricesBody: the feed status block, which is only reported, is not modelled.
- EndToEnd.BusIsTheBook: takes each event once; that a retried block changes nothing in the gate is `EventGate.RetryIsIdempotent`.
- PriceCache.PriceLookup.Lookup: one lookup at a time, with the node's replies and the clock as inputs.
