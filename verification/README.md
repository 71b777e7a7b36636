# mcp-telegram: verified protocols and codecs

Dafny models of the parts of mcp-telegram whose correctness spans loops, crashes and several functions. Code that
changes state is modelled by classes and methods proved against value functions; code made of expressions is
modelled by functions. Each file holds one module.

- `export_daemon`, `export_client`, `admin_log`: the resumable chat export. The daemon validates, filters and
  byte-trims a newest-first page; the client checks it again, commits every record with its cursor, and then moves
  the cursor over trimmed tails and empty slots. A crash is modelled by a budget of commits: an attempt stops after
  any number of them and keeps only the checkpoint. Below the frozen upper id messages may vanish while the export
  runs, but do not change; the admin log has no such boundary, so it is modelled over a timeline that grows on top
  and expires below.
- `checkpoint`, `census`, `incremental`, `whole_export`, `publication`, `published_base`: the durable store, the
  one-pass census of a base file, the base import and the group histories, the whole export over any number of
  attempts, the publication step with its announced fingerprint, and the closing of the circle: what is published is
  an acceptable base for the next update.
- `json`, `identity`, `identity_roundtrip`, `identity_writer`: interning of identities and back-references of recent
  reactions over recursive JSON, the round trip, and the two-pass writer with its frozen directory.
- `hot_sweep`, `cold_backfill` (over `telegram_pages`): the two peer sweeps as transition systems with any number of
  slices in flight, messages arriving and vanishing, retries, skips and restarts.
- `ipc_framing`: the three size regimes of a daemon reply and the reader that inverts them.
- `budget`: the unread budget, exact water-filling inside strict tiers.
- `pointer`, `removed_facts`, `public_projection`, `public_export`: the public copy of an export with its own identity
  list, its removed-facts list, and JSON pointers (RFC 6901, sections 3 and 4).
- `conversation_changes`, `base64url`: snapshot pagination over an append-only log, and the unpadded base64url codec
  of its tokens (RFC 4648, sections 3.5 and 5).

Results where the code does less than one might expect, each with its exact condition:

- Packing and expanding is not always the identity. An explicit null `date`, `reaction` or `peer_id` in the `raw`
  part of a reactor blocks the default when packing and is gone when expanding
  (`IdentityRoundTrip.MaskedDateIsNotRestored`); and a record without reactors may carry a recent event that reads as
  a reference to one (`IdentityRoundTrip.LoneReferenceIsRefused`). `IdentityRoundTrip.RoundTripExactlyWhenFaithful`
  gives the condition, both ways.
- The admin log of a finished export is not always complete. Most failures of a request, and an event too large for
  a reply, are answered as `unavailable`, and the client then marks the log done for good: with event 5 of the log
  {3, 5} saved, event 3 is lost to every resume and every update (`AdminLog.UnavailableLosesAnEvent`,
  `AdminLog.UpdateDoesNotRecoverIt`). `AdminLog.CompleteExactlyWhen`, `AdminLog.ResumeAdminLog` and `WholeExport.Run`
  give the condition, both ways: a page ended the walk, or no unexpired event was left below the cursor. It is
  enough that no admin request was answered `unavailable`. Messages are complete either way.
- The cold lease is not always a fence: a claim with an older reading of the wall clock can issue the lease of a slice
  in flight (`ColdBackfill.StaleClockReissuesLease`). `ColdBackfill.FenceHoldsExactlyWhen` gives the condition over
  all runs, both ways: no accepted claim's time plus its lease equals the lease of a slice in flight. Claims in the
  order of their times meet it (`ColdBackfill.InOrderFenceHolds`). On a flood wait the code releases the claim,
  although the module documentation says otherwise; the model follows the code.
- A completed cold walk can miss messages after such a claim: a fenced slice that found the history empty gets the row
  back and completes it (`ColdBackfill.CollisionCompletesTooEarly`). `ColdBackfill.WalkIsCompleteExactlyWhen` gives the
  condition over all runs, both ways: no outcome of a slice that started at the top is accepted after the row has
  moved down, over messages in between that are not stored.
- A foreign file at the export's destination can be lost. It is refused when it is there at a check; it is replaced
  when it arrives past the final check, unless it takes a free destination between the existence test and the link;
  and when it arrives between the move and the re-read, it is recorded as the published file, so that the next
  publication over the same checkpoint replaces it (`Publication.AdoptedFileIsLost`).
  `Publication.ReplacedExactlyWhen` and `Publication.ForeignFileIsReplacedExactlyWhen` give the condition over all
  sequences of attempts, both ways.

## Model

| member | source | states |
|---|---|---|
| ExportDaemon.OrderedPageIds | src/mcp_telegram/chat_export.py:410-417 | a response is accepted if and only if every id is an integer in range and the ids strictly descend |
| ExportDaemon.AdjacentDescending | src/mcp_telegram/chat_export.py:415-416 | comparing neighbours is enough: every pair of ids then descends |
| ExportDaemon.HistoryIds | src/mcp_telegram/chat_export.py:420-428 | a response is accepted if and only if its ids are valid, strictly descend and lie in the requested window |
| ExportDaemon.BoundedPage | src/mcp_telegram/chat_export.py:366-377 | the longest prefix of items that fits the reply; an error exactly when the first item alone does not fit |
| ExportDaemon.DeliveredIffNewer | src/mcp_telegram/chat_export.py:443-449 | a readable message of the page is delivered if and only if its id is at or above the continuation |
| ExportDaemon.NextIsExact | src/mcp_telegram/chat_export.py:445-449 | the continuation splits the window of the frozen history: messages at or above it were delivered, those below were not, whether bytes were trimmed or empty slots ended the page |
| ExportDaemon.DoneMeansExhausted | src/mcp_telegram/chat_export.py:446-449 | an empty response says that nothing is left in the window, and only then |
| ExportDaemon.TrimmedPageConforms | src/mcp_telegram/chat_export.py:431-449 | however far the byte limit trims a good response, the reply meets the contract the client relies on |
| ExportDaemon.ServeHistory | src/mcp_telegram/chat_export.py:431-449 | read off the raw response: an error exactly for unsound ids or a newest readable message that alone exceeds the reply; otherwise the readable messages above the lower boundary in page order, as many as fit, done exactly when no id is above the boundary, else on from the last item of a trimmed page or from the oldest id; and a good response gives a reply that conforms |
| ExportDaemon.LongestFitIsFull | src/mcp_telegram/chat_export.py:366-377 | a prefix of the readable messages that cannot be longer is exactly what the reply carries: the next one would exceed it |
| ExportDaemon.PageContinues | src/mcp_telegram/chat_export.py:443-449 | flag and continuation of a reply, read off the response |
| ExportDaemon.ContractPassesChecks | src/mcp_telegram/chat_export.py:410-428 | against Telegram's page contract no id check of the daemon fires |
| CheckpointStore.Checkpoint.Save | src/mcp_telegram/chat_export_checkpoint.py:289-292 | one commit holds the record and the cursor that says it is there |
| CheckpointStore.Checkpoint.MarkMany | src/mcp_telegram/chat_export_checkpoint.py:381-384 | one commit writes all the given state keys |
| CheckpointStore.Checkpoint.ImportBase | src/mcp_telegram/chat_export_checkpoint.py:352-379 | all base admin events, all base messages at or below their boundary and the flag, or nothing; a second import changes nothing; a changed base file is refused |
| ExportClient.OrderedId | src/mcp_telegram/chat_export_cli.py:110-116 | an item id is accepted exactly when it is positive, below the previous one and inside the frozen range |
| ExportClient.Advance | src/mcp_telegram/chat_export_cli.py:99-107 | a continuation is accepted exactly when it is positive, strictly below the old cursor, not below what was delivered and inside the frozen range |
| ExportClient.SavePage | src/mcp_telegram/chat_export_cli.py:363-371 | items are committed one by one in order until a crash or the first bad item; the rest of the store is unchanged |
| ExportClient.PutKeys | src/mcp_telegram/chat_export_checkpoint.py:289-292 | the saved rows are the old ones and exactly the items of the page |
| ExportClient.PutValues | src/mcp_telegram/chat_export_checkpoint.py:289-292 | each saved row holds its own item |
| ExportClient.WalkStaysBounded | src/mcp_telegram/chat_export_cli.py:363-371 | whatever the daemon answers, fresh ids stay strictly descending between the cursor and the frozen boundary and above the minimum |
| ExportClient.StillIsExact | src/mcp_telegram/chat_export_cli.py:363-376 | in a history that does not change, exactly its messages are saved in the range already walked |
| ExportClient.FaithfulItemAccepted | src/mcp_telegram/chat_export_cli.py:110-116 | no item check fires on a faithful page |
| ExportClient.FaithfulCursorAccepted | src/mcp_telegram/chat_export_cli.py:99-107 | no cursor check fires on a faithful page |
| ExportClient.AnswerHistory | src/mcp_telegram/chat_export.py:431-449 | the daemon and the client meet: failures are exactly those of the daemon, the page is the wire form of what fits, and whatever Telegram answers within its page contract, from the history of the moment, is a reply the page loop relies on |
| ExportClient.WalkStaysResumable | src/mcp_telegram/chat_export_cli.py:363-376 | the walked range grows down to the new cursor: every message that stayed is saved, and nothing that never was one |
| ExportClient.CrashMidPageIsResumable | src/mcp_telegram/chat_export_cli.py:363-371 | a crash after any number of commits of a page leaves a resumable checkpoint |
| ExportClient.AdvanceIsResumable | src/mcp_telegram/chat_export_cli.py:375-376 | moving the cursor over a trimmed tail and empty slots loses no message |
| ExportClient.ExhaustedIsComplete | src/mcp_telegram/chat_export_cli.py:372-374 | when the window below the cursor is empty, every message above the minimum that stayed is saved, with its content |
| ExportClient.PageCommitsStayResumable | src/mcp_telegram/chat_export_cli.py:363-371 | the invariant holds between any two commits of a page, and the next item of a faithful page is accepted |
| ExportClient.PageEndStaysResumable | src/mcp_telegram/chat_export_cli.py:372-376 | the completion flag or the moved cursor keeps the invariant, and a faithful continuation is accepted |
| ExportClient.WalkCounts | src/mcp_telegram/chat_export_cli.py:363-371 | each commit uses up an id below the cursor, which bounds the commits of a page |
| ExportClient.EndPage | src/mcp_telegram/chat_export_cli.py:372-376 | the end of the page loop: completion flag, refused continuation, crash or moved cursor, each with its exact state |
| ExportClient.TakePage | src/mcp_telegram/chat_export_cli.py:353-376 | one reply: a missing completion flag is refused before anything is saved; commits in order, the invariant kept, the cursor strictly lower, at most two commits per id of the range |
| ExportClient.HistoryPeer | src/mcp_telegram/chat_export_cli.py:353-376 | every attempt, cut off anywhere, keeps both invariants, only adds rows and ends after at most as many requests and twice as many commits as ids are left; against a daemon that serves the history of the moment, from which messages may vanish, no check fires, and with enough commits it finishes |
| AdminLog.LastReadableIsOldest | src/mcp_telegram/chat_export.py:579 | without empty slots the last event delivered is the oldest event of the page |
| AdminLog.PageIsHistoryPage | src/mcp_telegram/chat_export.py:564-588 | the admin reply is the history page of the same response, so the page contract carries over |
| AdminLog.ServeAdminLog | src/mcp_telegram/chat_export.py:546-646 | which requests are answered `unavailable` and which are errors, both exactly and read off the response; otherwise the events above the lower bound, as many as fit, continuing at the last one; a good response is never an error, and the reply to it is `unavailable` or a page that conforms |
| AdminLog.TimePasses | src/mcp_telegram/chat_export_cli.py:378-403 | events arriving on top and old events expiring between two requests keep the resume invariant |
| AdminLog.NothingBetween | src/mcp_telegram/chat_export_cli.py:387-397 | between the cursor and the next event of a faithful page the log has no other event |
| AdminLog.EventStaysResumable | src/mcp_telegram/chat_export_cli.py:387-398 | after each committed event everything the log still has between cursor and newest saved event is saved; no id check fires |
| AdminLog.DoneStaysResumable | src/mcp_telegram/chat_export_cli.py:399-401 | a faithful page that is done leaves nothing below the cursor |
| AdminLog.UnavailableStaysResumable | src/mcp_telegram/chat_export_cli.py:384-401 | an unavailable log is marked done where the walk stands; what is above the cursor stays exact |
| AdminLog.CompleteExactlyWhen | src/mcp_telegram/chat_export_cli.py:384-401 | once the log is marked done, the saved events are complete for the log the walk began with, minus expired ones, if and only if a page said so or nothing was left below the cursor |
| AdminLog.UnavailableIsAdmitted | src/mcp_telegram/chat_export.py:84-97 | a state and a reply the daemon may give after which the saved events stay incomplete |
| AdminLog.UnavailableLosesAnEvent | src/mcp_telegram/chat_export_cli.py:384-401 | with event 5 of the log {3, 5} saved, one unavailable reply ends the walk: whatever a resume is answered, event 3 is not saved |
| AdminLog.UpdateDoesNotRecoverIt | src/mcp_telegram/chat_export_cli.py:513-514 | nor by an update that starts above event 5 |
| AdminLog.SaveEvents | src/mcp_telegram/chat_export_cli.py:385-398 | commits in order until a crash or a bad event; whatever arrives, ids stay descending and above the minimum |
| AdminLog.EndEvents | src/mcp_telegram/chat_export_cli.py:399-403 | the completion flag or the moved cursor, each with its exact state |
| AdminLog.HandleReply | src/mcp_telegram/chat_export_cli.py:383-403 | an unavailable log is marked done at once and nothing else changes; a failure, a malformed reply or a missing completion flag changes nothing; events are taken; the walk ends by a page exactly when the page says so |
| AdminLog.ExportAdminLog | src/mcp_telegram/chat_export_cli.py:378-403 | every attempt, cut off anywhere, keeps both invariants; its cursor strictly descends; how the walk ended is how a request was answered; against a faithful daemon no check fires, requests and commits are bounded by the ids left, and with enough commits and no failure it finishes |
| AdminLog.ResumeAdminLog | src/mcp_telegram/chat_export_cli.py:378-403 | any number of interrupted attempts, the log growing meanwhile, any request failing or unavailable: if one finishes, the saved events are complete if and only if a page ended the walk or nothing was left below the cursor; without an unavailable reply they are complete |
| BaseCensus.IdsDescend | src/mcp_telegram/chat_export_checkpoint.py:200-202 | in a well-ordered file each peer's ids strictly descend |
| BaseCensus.BoundaryRank | src/mcp_telegram/chat_export_checkpoint.py:203-205 | exactly the newest min(refresh, n) messages of a peer lie above its boundary, which is a message of the peer or 0 |
| BaseCensus.OrderExtends | src/mcp_telegram/chat_export_checkpoint.py:198-201 | the two order checks of the pass accept a message if and only if the file read so far stays well ordered |
| BaseCensus.PrefixWellOrdered | src/mcp_telegram/chat_export_checkpoint.py:194-209 | the first bad message decides, whatever follows it |
| BaseCensus.Census.Message | src/mcp_telegram/chat_export_checkpoint.py:194-209 | a message is booked if and only if the prefix with it is well ordered |
| BaseCensus.Census.Count | src/mcp_telegram/chat_export_checkpoint.py:202-209 | counts, last ids and boundaries keep describing the prefix read so far |
| BaseCensus.TakeCensus | src/mcp_telegram/chat_export_checkpoint.py:224-239 | the file is accepted if and only if it is well formed: directory, admin order, per-peer descending runs in directory order, footer counts; the boundaries are the (refresh+1)-th largest ids |
| BaseCensus.CheckDirectory | src/mcp_telegram/chat_export_checkpoint.py:160-174 | the peer directory is accepted exactly when it is a duplicate-free list of negative ids that starts with the group |
| BaseCensus.CheckAdmins | src/mcp_telegram/chat_export_checkpoint.py:176-184 | admin events are accepted exactly when they belong to the group and descend |
| IncrementalExport.OtherPartsKept | src/mcp_telegram/chat_export_cli.py:516-517 | work on one group leaves every other group's part of the checkpoint intact |
| IncrementalExport.BaseRangeKept | src/mcp_telegram/chat_export_cli.py:516-517 | records at or below the boundary stay exactly the base records while newer ones are fetched |
| IncrementalExport.ImportedKeys | src/mcp_telegram/chat_export_checkpoint.py:358-376 | the import saves exactly the base messages at or below their boundary, with their content |
| IncrementalExport.ImportStartsAllParts | src/mcp_telegram/chat_export_checkpoint.py:352-379 | after the import every group starts from an exact base range and nothing above it |
| IncrementalExport.AllDoneIsFullExport | src/mcp_telegram/chat_export_cli.py:516-518 | once every group is done the rows hold every message that stayed, and only messages of the frozen histories, with their content |
| IncrementalExport.StillExportIsExact | src/mcp_telegram/chat_export_cli.py:516-518 | when nothing vanishes meanwhile, the rows are exactly the messages of the frozen histories |
| IncrementalExport.AllHistories | src/mcp_telegram/chat_export_cli.py:515-517 | the groups are worked one after another; whatever stops it, every part stays resumable; with reliable daemons and two commits per id it finishes |
| IncrementalExport.OnePeerWorked | src/mcp_telegram/chat_export_cli.py:516-517 | one worked group keeps the invariant of all of them |
| IncrementalExport.LoadBaseInfo | src/mcp_telegram/chat_export_cli.py:460-477 | the census is taken once and pinned to the fingerprint of the base; it is refused exactly when the base is malformed or not the one pinned |
| IncrementalExport.InvariantAfterPeers | src/mcp_telegram/chat_export_cli.py:484-491 | storing the peer list freezes the upper ids and keeps the invariant |
| IncrementalExport.InvariantAfterImport | src/mcp_telegram/chat_export_cli.py:494-495 | the import transaction keeps the invariant |
| IncrementalExport.ImportedAdminKeys | src/mcp_telegram/chat_export_checkpoint.py:364-376 | the import saves exactly the admin events of the base, with their content |
| IncrementalExport.AdminMaxIsNewest | src/mcp_telegram/chat_export_checkpoint.py:176-184 | the id above which an update asks for admin events is the newest of the base, or 0 |
| WholeExport.AdminStarts | src/mcp_telegram/chat_export_cli.py:513-514 | after the preparation the admin log starts fresh above the newest admin event of the base |
| WholeExport.EventsKeepInvariant | src/mcp_telegram/chat_export_cli.py:514-517 | the admin step leaves the message part of the checkpoint as it was |
| WholeExport.SafeAfterEvents | src/mcp_telegram/chat_export_cli.py:514 | the admin walk goes on from where an earlier attempt left it, whatever it was answered |
| WholeExport.SafeAfterHistories | src/mcp_telegram/chat_export_cli.py:514-517 | the group histories leave the admin part as it was |
| WholeExport.ImportOnce | src/mcp_telegram/chat_export_checkpoint.py:352-379 | the import happens once, in one transaction, and starts the message part and the admin part together |
| WholeExport.Prepare | src/mcp_telegram/chat_export_cli.py:480-500 | census, frozen peers and import are each committed once; wherever it is cut off, the invariants hold; it refuses exactly when the base is unusable or of another group |
| WholeExport.Attempt | src/mcp_telegram/chat_export_cli.py:503-518 | one attempt of the whole export, cut off after any number of commits, keeps the invariants whatever the admin log is answered; if it finishes, every message is saved; with a usable base, no failing request and enough commits it finishes |
| WholeExport.FinishedAdmins | src/mcp_telegram/chat_export_cli.py:514 | after a finished run every base admin event is there, and every newer unexpired event of the log the walk began with exactly when a page ended the walk or nothing was left below its cursor |
| WholeExport.AlwaysCoherent | src/mcp_telegram/chat_export_cli.py:521-526 | whatever a checkpoint holds once its groups are known can be published: positive ids, messages of its groups, admin events of the first |
| WholeExport.Run | src/mcp_telegram/chat_export_cli.py:503-526 | any number of attempts over one checkpoint, each cut off anywhere and each opening the group anew, the first saved list deciding: what is there can be published; if one finishes, the messages are the full export of the histories of that list, and the admin events are complete exactly when the log was not cut short, which takes an unavailable reply |
| WholeExport.UpdateAndFresh | src/mcp_telegram/chat_export_cli.py:503-518 | two runs, an update of a base and an export from nothing, each interrupted in its own way: if both finish over the same groups and histories and nothing vanishes, they saved the same messages |
| Publication.Resume | src/mcp_telegram/chat_export_cli.py:552-555 | an announced publication that did happen becomes the published one, so the next publish is accepted |
| Publication.Publish | src/mcp_telegram/chat_export_cli.py:414-457 | whatever effect a crash falls after, the destination is accounted for by the published or the announced fingerprint; a destination changed before the final check is not replaced and the state is untouched; past the check a change is replaced, except a file that takes a free destination right before the link, which fails and is kept, and one that arrives before the destination is read back, which is recorded as published |
| Publication.PublishUntilDone | src/mcp_telegram/chat_export_cli.py:414-457 | attempts that resume and publish, each crashing anywhere and with nobody else around, never refuse their own file and finish as soon as one is not cut off |
| Publication.PublishAttempts | src/mcp_telegram/chat_export_cli.py:414-457 | any number of publications over one checkpoint, resumed or not, cut off anywhere, while somebody else changes the destination at every moment, are runs of the publication as a function of what it sees |
| Publication.PublishedMeansAdopted | src/mcp_telegram/chat_export_cli.py:452-454 | over any run a foreign fingerprint becomes the published one only because an attempt read it back after its move |
| Publication.ReplacedExactlyWhen | src/mcp_telegram/chat_export_cli.py:443-453 | over any run, with any changes at any moments: an attempt replaces a foreign file if and only if it gets to its move and the file arrived past the final check, or an earlier attempt adopted it and it is still there |
| Publication.ForeignFileIsReplacedExactlyWhen | src/mcp_telegram/chat_export_cli.py:414-457 | over any sequence of attempts, for one foreign file put there at any moment: it is replaced if and only if it arrived past the final check and before a move it did not beat, or between a move and its mark with a later attempt that gets to its move; otherwise it is there at the end |
| Publication.AdoptedFileIsLost | src/mcp_telegram/chat_export_cli.py:449-453 | a foreign file that arrives between the link and the re-read is recorded as published, and the next publication over the same checkpoint replaces it |
| Publication.LateFileSurvivesExactlyWhen | src/mcp_telegram/chat_export_cli.py:443-453 | past the final check of one publication a foreign file is there afterwards if and only if it took a free destination between the existence test and the link, or arrived after the move; in the second case its fingerprint is recorded as published |
| PublishedBase.SectionPair | src/mcp_telegram/chat_export_checkpoint.py:302-311 | published messages of earlier groups come first, and within a group the newer comes first |
| PublishedBase.SectionOrdered | src/mcp_telegram/chat_export_cli.py:432-438 | the published messages are well ordered in the sense of the census |
| PublishedBase.SectionComplete | src/mcp_telegram/chat_export_cli.py:436-438 | every saved message of the export is published |
| PublishedBase.SectionMembers | src/mcp_telegram/chat_export_cli.py:436-438 | a published message is a saved row of its group, with its content and its reactor count |
| PublishedBase.AdminsPublished | src/mcp_telegram/chat_export_cli.py:432-435 | the published admin events are exactly the saved ones of the group, each as it was saved |
| PublishedBase.TotalsAgree | src/mcp_telegram/chat_export_checkpoint.py:341-350 | counting the rows of the table and counting the messages of the file give the same totals |
| PublishedBase.Summarize | src/mcp_telegram/chat_export_checkpoint.py:341-350 | the totals do not depend on the order in which the rows are visited |
| PublishedBase.RenderExport | src/mcp_telegram/chat_export_cli.py:429-440 | the written file is the admin events of the group, then each group's messages, newest first, then the totals |
| PublishedBase.SectionLists | src/mcp_telegram/chat_export_cli.py:436-438 | a group's section of a finished export lists every message that stayed and only messages of its history |
| PublishedBase.PublishedIsWellFormed | src/mcp_telegram/chat_export_cli.py:414-457 | every export a checkpoint can publish, finished or not, is accepted by the census of a later update |
| PublishedBase.PublishedMatchesLater | src/mcp_telegram/chat_export_cli.py:513-517 | a finished export, published, is a faithful base for every later history that has nothing new and nothing edited below the refreshed messages |
| PublishedBase.ExportThenUpdate | src/mcp_telegram/chat_export_cli.py:503-519 | the whole circle: an export run to its end is published, accepted as a base, and updated by a second run, which yields the full export of the later history |
| JsonValues.OmitIsSparse | src/mcp_telegram/chat_export_projection.py:9-20 | dropping blank facts once leaves none to drop |
| JsonValues.SparseExactlyWhenBlankFree | src/mcp_telegram/chat_export_projection.py:9-20 | sparse are exactly the values in which no object property, at any depth, is null, an empty object or an empty list |
| JsonValues.OmitIsBlankFreePart | src/mcp_telegram/chat_export_projection.py:9-20 | dropping blank facts drops object keys alone and leaves no blank property |
| JsonValues.OmitIsLargest | src/mcp_telegram/chat_export_projection.py:9-20 | and it keeps all else: every part of the value without blank properties lies in the sparse form |
| IdentityRoundTrip.RefTouchesPrefixOnly | src/mcp_telegram/chat_export_identity.py:82-90 | packing an identity removes all prefixed facts and changes nothing else but its reference |
| IdentityRoundTrip.InternedStaysReadable | src/mcp_telegram/chat_export_identity.py:37-67 | a reference reads as the sparse identity whatever the directory grows to |
| IdentityRoundTrip.RefRoundTrip | src/mcp_telegram/chat_export_identity.py:78-97 | expanding a reference restores exactly the sparse identity facts and touches nothing else |
| IdentityRoundTrip.SnapshotOfOmit | src/mcp_telegram/chat_export_identity.py:78-85 | taking the identity out of a record and dropping blanks commute |
| IdentityRoundTrip.RelatedRoundTrip | src/mcp_telegram/chat_export_identity.py:100-109 | related users come back in sparse form, slot by slot |
| IdentityRoundTrip.RelatedAreReferences | src/mcp_telegram/chat_export_identity.py:100-103 | each related user is packed to a number under which any later directory has its sparse identity |
| IdentityRoundTrip.ReactorsExpand | src/mcp_telegram/chat_export_identity.py:214-220 | packed reactors expand to the sparse reactors, slot by slot |
| IdentityRoundTrip.CanonicalIntInvertsSpelling | src/mcp_telegram/chat_export_identity.py:112-121 | an id text is read as a number exactly when it is how that number is printed |
| IdentityRoundTrip.PeerIdExactlyWhen | src/mcp_telegram/chat_export_identity.py:112-128 | an identity stands for a Telegram peer if and only if it carries its kind and its number in decimal: u for a user, -c for a group, -10^12 - c for a channel |
| IdentityRoundTrip.PeerIdIsPeer | src/mcp_telegram/chat_export_identity.py:112-128 | whatever an identity stands for is a peer it identifies |
| IdentityRoundTrip.CandidateIsRawWithDefaults | src/mcp_telegram/chat_export_identity.py:131-141 | the event a reactor stands for: its raw facts, and where they have no date, reaction or peer its own date and reaction, if not null, and the peer its identity names |
| IdentityRoundTrip.CandidateOfOmit | src/mcp_telegram/chat_export_identity.py:131-141 | building a reactor's event before or after dropping blanks gives the same event if and only if no blank raw fact masks a default |
| IdentityRoundTrip.MatchIsReplacedBy | src/mcp_telegram/chat_export_identity.py:144-157 | the search over packed reactors finds exactly the first reactor the flat record names |
| IdentityRoundTrip.ReplacedEventExpands | src/mcp_telegram/chat_export_identity.py:183-192 | a replaced event comes back as its sparse form if and only if its reactor masks nothing |
| IdentityRoundTrip.WireEventsExpand | src/mcp_telegram/chat_export_identity.py:160-206 | the list of recent events comes back if and only if no replacing reactor masks a default |
| IdentityRoundTrip.RecentFieldExpands | src/mcp_telegram/chat_export_identity.py:195-206 | the same for the nested field of the wire record, whether present, empty or absent |
| IdentityRoundTrip.RecentUntouched | src/mcp_telegram/chat_export_identity.py:195-206 | without a reactor list the recent events stay as they are, or the record is refused, exactly when one of them is a bare reference and there are no reactors |
| IdentityRoundTrip.AdminRoundTrip | src/mcp_telegram/chat_export_identity.py:209-244 | an admin record comes back as its sparse form |
| IdentityRoundTrip.MessageRoundTrip | src/mcp_telegram/chat_export_identity.py:209-244 | a message comes back as its sparse form if and only if it is faithful, and does not come back at all if and only if it lists no reactors and an event reads as a reference to one |
| IdentityRoundTrip.RoundTripExactlyWhenFaithful | src/mcp_telegram/chat_export_identity.py:209-244 | for every record the packer takes and any growth of the directory in between: expand after pack gives the sparse record if and only if no recent event is replaced by a reactor whose blank raw fact masks a default, and none is left as a reference to nothing |
| IdentityRoundTrip.SparseRoundTrip | src/mcp_telegram/chat_export_identity.py:209-244 | a record already in sparse form comes back as itself if and only if no event of it is left as a reference to nothing |
| IdentityRoundTrip.MaskedDateIsNotRestored | src/mcp_telegram/chat_export_identity.py:131-141 | a concrete record with an explicit null date in a raw reaction that does not come back |
| IdentityRoundTrip.LoneReferenceIsRefused | src/mcp_telegram/chat_export_identity.py:183-206 | a concrete record without reactors that packs and cannot be read back |
| IdentityWriter.InternStable | src/mcp_telegram/chat_export_identity.py:37-48 | a frozen directory that contains what was built gives the same reference and never rejects |
| IdentityWriter.EventsStable | src/mcp_telegram/chat_export_identity.py:160-180 | event compaction reads the directory only through the references of the reactors |
| IdentityWriter.PackStable | src/mcp_telegram/chat_export_identity.py:209-222 | packing with the partly built directory and with the final frozen one write the same record |
| IdentityWriter.PackAllStable | src/mcp_telegram/chat_export_identity.py:254-307 | the second pass writes what the first pass packed, over the whole stream |
| IdentityWriter.IdentityIndex.InternIdentity | src/mcp_telegram/chat_export_identity.py:37-48 | the directory only grows, has no duplicates, and a frozen one rejects new identities |
| IdentityWriter.IdentityIndex.PackRecord | src/mcp_telegram/chat_export_identity.py:209-222 | packing in place equals the packing function on the directory before |
| IdentityWriter.FileReadsBack | src/mcp_telegram/chat_export_identity.py:225-244 | every record of the written file expands, against the written directory, to its sparse form if and only if it is faithful |
| IdentityWriter.IndexExport | src/mcp_telegram/chat_export_identity.py:254-279 | the first pass accepts exactly the ordered, packable streams and leaves the directory of the whole stream |
| IdentityWriter.PackFrozen | src/mcp_telegram/chat_export_identity.py:282-308 | the second pass packs every record against the frozen directory |
| IdentityWriter.WriteExport | src/mcp_telegram/chat_export_identity.py:311-341 | over a repeatable stream the writer succeeds exactly on writable streams, those in order, packable, fitting the schemas and with a matching footer; its records are those of the first pass, its header is compacted, its directory has no duplicates |
| IdentityWriter.CompactKeepsDirectory | src/mcp_telegram/chat_export_projection.py:274-279 | compacting the header metadata keeps the peer directory a reader takes from it; a first peer that is the group itself is left with its dialog id alone, and no other peer is touched |
| IdentityWriter.RefusedEarly | src/mcp_telegram/chat_export_identity.py:275-276 | a record that does not fit its schema refuses the whole stream, whatever follows |
| IdentityWriter.SectionsInOrder | src/mcp_telegram/chat_export_identity.py:247-251 | a stream is in order if and only if nothing stands before the group or behind the footer, only the group before the header, and no message before an admin event |
| IdentityWriter.SelectsInOrder | src/mcp_telegram/chat_export_identity.py:282-308 | each section of the file holds exactly its records, in stream order |
| IdentityWriter.CountsMean | src/mcp_telegram/chat_export_identity.py:261-272 | the footer counts the messages, the admin events and every reactor of every message |
| HotSweep.PeerRow.BeginWindow | src/mcp_telegram/activity_hot_sweep.py:191-222 | the window in progress is reloaded, or one is opened at the committed cursor |
| HotSweep.PeerRow.PersistPageResult | src/mcp_telegram/activity_hot_sweep.py:314-351 | accepted exactly when the snapshot still matches; the new row is the one whose pages, completions and skips the three lemmas below describe; otherwise nothing changes |
| HotSweep.PeerRow.SaveCompleted | src/mcp_telegram/activity_hot_sweep.py:506-536 | completion commits the cursor, closes the window and raises or resets the empty streak |
| HotSweep.CommitLeavesNoGap | src/mcp_telegram/activity_hot_sweep.py:314-351 | moving the row over a stored page opens no gap, when the window goes on and when it completes |
| HotSweep.StepKeepsInvariant | src/mcp_telegram/activity_hot_sweep.py:191-351 | arrivals, removals, retries, skips, drops, access changes and commits of any slice keep the invariant |
| HotSweep.MatchesExactlyWhenReloaded | src/mcp_telegram/activity_hot_sweep.py:104-122 | a snapshot is accepted if and only if reloading the window now would give it again |
| HotSweep.OpenedWindowMatches | src/mcp_telegram/activity_hot_sweep.py:191-222 | every peer whose access is not lost gets a window, and the slice that opened it is accepted |
| HotSweep.LastPageCompletes | src/mcp_telegram/activity_hot_sweep.py:314-351 | an accepted page shorter than the limit, unless the daemon is being stopped, closes the window at the newest id seen, with the streak and the due time that follow |
| HotSweep.PageContinuesWindow | src/mcp_telegram/activity_hot_sweep.py:343-351 | a full page, or any non-empty one while stopping, moves the offset to its oldest id, adds to the window and changes nothing else |
| HotSweep.OnlyPagesMoveWindows | src/mcp_telegram/activity_hot_sweep.py:314-351 | nothing else moves the cursor or a window in progress: skips and empty pages while stopping only set the retry time, a flood wait and a stale snapshot change nothing |
| HotSweep.WindowAddsUp | src/mcp_telegram/activity_hot_sweep.py:318-351 | along any run the columns of an open window add up all its pages: the newest id, whether any had something new, and where to go on |
| HotSweep.CompletionSumsUpItsWindow | src/mcp_telegram/activity_hot_sweep.py:506-536 | a completed window commits the newest id of all its pages, and the empty streak starts anew exactly when one of them had something new and the cursor rose |
| HotSweep.PagesLowerRank | src/mcp_telegram/activity_hot_sweep.py:191-351 | along any run every committed page that does not complete its window lowers the distance from the offset to the cursor, and nothing raises it |
| HotSweep.WindowsComplete | src/mcp_telegram/activity_hot_sweep.py:191-351 | after more pages than there are ids above the cursor some window was completed |
| HotSweep.PageRaisesRevision | src/mcp_telegram/activity_hot_sweep.py:97-101 | a committed page always raises the revision strictly, so the scheduler sees progress |
| HotSweep.HotSweepHasNoGaps | src/mcp_telegram/activity_hot_sweep.py:191-351 | in every reachable state every message at or below the cursor, and between offset and window top mid-window, has been fetched |
| HotSweep.StepRaisesRevision | src/mcp_telegram/activity_hot_sweep.py:97-101 | every step keeps the revision or strictly raises it: cursor, then streak, then a lower offset |
| HotSweep.OpeningKeepsRevision | src/mcp_telegram/activity_hot_sweep.py:125-145 | opening a window is invisible to the revision |
| HotSweep.RevisionsOnlyRise | src/mcp_telegram/activity_hot_sweep.py:97-145 | along any run the revision never falls |
| HotSweep.RevisionNeverReturns | src/mcp_telegram/activity_hot_sweep.py:97-145 | no ABA: a revision seen again was there all the time in between |
| HotSweep.AcceptedMeansUnchanged | src/mcp_telegram/activity_hot_sweep.py:104-122 | a snapshot that matches again has missed no committed page |
| HotSweep.CappedEmptyInterval | src/mcp_telegram/activity_hot_sweep.py:539-546 | the doubling loop equals min(max, base * 2^streak) for every base that is not both negative and at least max, and max otherwise |
| ColdBackfill.PeerRow.Claim | src/mcp_telegram/activity_cold_backfill.py:350-398 | claimed exactly when the row is claimable, and then only status and lease change |
| ColdBackfill.PeerRow.SaveClaimed | src/mcp_telegram/activity_cold_backfill.py:401-415 | the columns change exactly when the lease still owns the row |
| ColdBackfill.PeerRow.ReleaseClaim | src/mcp_telegram/activity_cold_backfill.py:431-440 | a lease gives back only what it owns |
| ColdBackfill.PeerRow.FinishPeer | src/mcp_telegram/activity_cold_backfill.py:443-516 | each outcome changes the row as specified, and only under the lease; a flood wait releases the claim |
| ColdBackfill.ClaimStartsExactlyWhen | src/mcp_telegram/activity_cold_backfill.py:350-398 | a claim starts a slice if and only if the peer is reachable, not complete, stands where expected, and its retry time has come; a refused claim leaves the row alone |
| ColdBackfill.LeaseKeepsOthersOut | src/mcp_telegram/activity_cold_backfill.py:350-398 | while the lease of the owner runs no claim starts another slice |
| ColdBackfill.OutcomeSetsNextClaim | src/mcp_telegram/activity_cold_backfill.py:443-516 | after the owner's outcome: where the walk stands, and that the next slice may start at once after a page or a flood wait, from the retry time on after a skip, and never after the floor |
| ColdBackfill.NewLeaseIsLargest | src/mcp_telegram/activity_cold_backfill.py:581-583 | a claim that is not older than the ones before issues a lease above every lease in flight |
| ColdBackfill.StepKeepsLeases | src/mcp_telegram/activity_cold_backfill.py:350-440 | without a colliding claim the leases in flight stay distinct and the owner walks from the offset of the row |
| ColdBackfill.FencedStaysFenced | src/mcp_telegram/activity_cold_backfill.py:418-440 | with claims in the order of their times, a lease that expired and passed on never matches again after any step |
| ColdBackfill.FencedChangesNothing | src/mcp_telegram/activity_cold_backfill.py:401-440 | a slice that does not own the row stores no page and changes no column |
| ColdBackfill.RegainsExactlyWhenCollides | src/mcp_telegram/activity_cold_backfill.py:350-440 | of all steps of the system, only a claim that issues again the lease of a slice in flight gives that slice the row back |
| ColdBackfill.CollisionMakesTwoOwners | src/mcp_telegram/activity_cold_backfill.py:350-398 | after such a claim two slices own the row |
| ColdBackfill.FenceHoldsExactlyWhen | src/mcp_telegram/activity_cold_backfill.py:350-440 | over any run, with claims carrying any times: at most one slice ever owns the row, and none gets it back while in flight, if and only if no accepted claim issues the lease of a slice in flight |
| ColdBackfill.InOrderFenceHolds | src/mcp_telegram/activity_cold_backfill.py:581-586 | claims in the order of their times never collide, so the fence holds |
| ColdBackfill.NoLeaseNoHarm | src/mcp_telegram/activity_cold_backfill.py:443-516 | when the leases in flight are distinct, no accepted outcome is harmful |
| ColdBackfill.LeaseNeverReturns | src/mcp_telegram/activity_cold_backfill.py:350-440 | the same along any run with claims in the order of their times |
| ColdBackfill.StoreIsSound | src/mcp_telegram/activity_peer_sweep.py:239-300 | pages are stored only under a matching claim, and what a slice holds is then stored |
| ColdBackfill.DoneIsSound | src/mcp_telegram/activity_cold_backfill.py:443-516 | an accepted outcome moves the walk down or ends it without leaving a message behind if and only if it is not harmful |
| ColdBackfill.StepKeepsWalkExactlyWhen | src/mcp_telegram/activity_cold_backfill.py:350-516 | the walk stays complete over a step, whatever times the claims carry, if and only if the step does not accept the outcome of a slice that started at the top over messages below the row that are not stored |
| ColdBackfill.RunKeepsInvariant | src/mcp_telegram/activity_cold_backfill.py:550-650 | every state reached without a colliding claim, with any number of slices, arrivals and removals, keeps single ownership and completeness |
| ColdBackfill.NoCollisionNoHarm | src/mcp_telegram/activity_cold_backfill.py:350-516 | a run without a colliding claim accepts no harmful outcome |
| ColdBackfill.WalkIsCompleteExactlyWhen | src/mcp_telegram/activity_cold_backfill.py:350-516 | over any run, colliding claims included: the walk leaves no message behind, at any moment, if and only if no harmful outcome is accepted |
| ColdBackfill.CompleteMeansAllStored | src/mcp_telegram/activity_cold_backfill.py:443-516 | in a run that accepted no harmful outcome, complete means every message at or below the top of the first accepted page has been stored |
| ColdBackfill.WalkOnlyDescends | src/mcp_telegram/activity_cold_backfill.py:443-516 | a non-zero offset never rises and completion is final |
| ColdBackfill.AcceptedPageDescends | src/mcp_telegram/activity_cold_backfill.py:443-516 | every accepted page strictly lowers the walk, so it ends |
| ColdBackfill.CompletedByFloorOnly | src/mcp_telegram/activity_peer_sweep.py:575-632 | the row becomes complete only by an owned empty page of a reachable peer |
| ColdBackfill.StaleClockReissuesLease | src/mcp_telegram/activity_cold_backfill.py:350-398 | a run of the whole system in which a claim with an older clock reading issues the lease of a slice in flight, and both own the row |
| ColdBackfill.StaleClockMayBeHarmless | src/mcp_telegram/activity_cold_backfill.py:350-398 | a run with an older clock reading in which the fence holds: the order of the times is not the exact condition |
| ColdBackfill.CollisionCompletesTooEarly | src/mcp_telegram/activity_cold_backfill.py:350-516 | a run of the whole system in which a fenced floor gets the row back by a claim with an older time and completes the walk, while a message was never stored |
| IpcFraming.ChunkingIsUnique | src/mcp_telegram/daemon_ipc.py:29-43 | there is one way to cut a reply, so both encodings of it frame the same bytes |
| IpcFraming.FlushFull | src/mcp_telegram/daemon_ipc.py:39-41 | full frames leave the front of the buffer, nothing is lost or reordered |
| IpcFraming.ResponseChunks | src/mcp_telegram/daemon_ipc.py:29-43 | the chunks are the full-frame cutting of the encoded reply; overflow exactly above 64 MiB |
| IpcFraming.WriteResponse | src/mcp_telegram/daemon_ipc.py:46-76 | one line exactly below 2 MiB, frames from 2 MiB to 64 MiB, only the error line above |
| IpcFraming.BigEndianIsPositional | src/mcp_telegram/daemon_ipc.py:72-74 | frame sizes are in network byte order: every byte counts 256 times the next |
| IpcFraming.ReadFrames | src/mcp_telegram/daemon_ipc.py:95-106 | the reading loop computes the reassembly of the stream |
| IpcFraming.FramesReassemble | src/mcp_telegram/daemon_ipc.py:95-106 | frames reassemble to their concatenation and leave what follows on the stream |
| IpcFraming.LineRoundTrip | src/mcp_telegram/daemon_ipc.py:79-92 | a small reply is read back byte for byte |
| IpcFraming.FramedRoundTrip | src/mcp_telegram/daemon_ipc.py:46-106 | a framed reply is read back byte for byte |
| IpcFraming.AcceptedExactlyWhenFramed | src/mcp_telegram/daemon_ipc.py:95-106 | the reader of frames accepts a stream if and only if it starts with non-empty frames of at most 64 KiB, at least one, at most 64 MiB in all, and their terminator |
| IpcFraming.LineIsAcceptedExactlyWhen | src/mcp_telegram/daemon_ipc.py:79-92 | a reply that does not start with the frame header is accepted if and only if its first line is at most 2 MiB long and claims no frames; exactly that line is read |
| IpcFraming.OversizeIsReported | src/mcp_telegram/daemon_ipc.py:64-69 | of an oversized reply the peer sees the error line and nothing else |
| IpcFraming.TruncatedFramesRejected | src/mcp_telegram/daemon_ipc.py:95-106 | a framed stream cut anywhere, between frames or inside the terminator, is rejected |
| IpcFraming.TruncatedReplyRejected | src/mcp_telegram/daemon_ipc.py:79-106 | a framed reply cut anywhere after its header is rejected |
| Budget.Round | src/mcp_telegram/budget.py:53-61 | one round gives each unsaturated chat one unit in ranked order and moves the water line by one |
| Budget.AllocateTier | src/mcp_telegram/budget.py:49-64 | a tier ends water-filled: unsaturated chats differ by at most one, the extra unit goes to a prefix, the total is min(budget, wants), other chats are untouched |
| Budget.ServedAfterTier | src/mcp_telegram/budget.py:41-45 | filling the next tier keeps strict priority over the tiers served so far |
| Budget.AllocateMessageBudget | src/mcp_telegram/budget.py:32-46 | the allocation is fair: total min(limit, wants), a chat gets something only if every higher tier is saturated, one water line per tier; in plain terms, no chat takes more than it has unread or than the cap, with budget left over each takes all that, and within a tier earlier chats come first and differ by at most one unless saturated |
| Budget.TierInOrder | src/mcp_telegram/budget.py:41-43 | a tier lists its chats in ranked order |
| Budget.LevelsCompare | src/mcp_telegram/budget.py:49-64 | two water lines of one tier never cross |
| Budget.FairIsUnique | src/mcp_telegram/budget.py:32-64 | there is exactly one fair allocation, so fairness says all of it |
| Pointers.UnescapeInvertsEscape | devtools/public_chat_export.py:586 | the escaping of keys is undone by the two passes section 4 of RFC 6901 prescribes |
| Pointers.EscapeHead | devtools/public_chat_export.py:586 | escaping goes character by character: "~" to "~0", "/" to "~1", the rest as it is |
| Pointers.IndexRoundTrip | devtools/public_chat_export.py:597 | an array position is read back from its decimal text |
| Pointers.DecimalIsPositional | devtools/public_chat_export.py:597 | decimal text has the usual digits, each counting ten times the next |
| Pointers.DecimalNeedsNoEscape | devtools/public_chat_export.py:597 | positions may be appended without escaping |
| Pointers.PointerRoundTrip | devtools/public_chat_export.py:586-597 | every emitted pointer is read back as the path it came from |
| Pointers.RenderIsInjective | devtools/public_chat_export.py:586-597 | different paths have different pointers |
| RemovedFacts.PatchRestoresExactlyWhenOnlyDrops | devtools/public_chat_export.py:581-603 | at any position: patching the removed facts gives the original if and only if publishing only dropped keys |
| RemovedFacts.PatchKeys | devtools/public_chat_export.py:583-590 | patching the facts of some keys restores exactly those keys |
| RemovedFacts.PatchItems | devtools/public_chat_export.py:591-601 | patching the facts of some slots, or of some records of the message list, restores exactly those |
| RemovedFacts.RemovedApart | devtools/public_chat_export.py:581-603 | no emitted position lies inside another |
| RemovedFacts.NothingRemovedExactlyWhenUnchanged | devtools/public_chat_export.py:602-603 | the list is empty exactly when the record was published unchanged |
| RemovedFacts.FilesRestoreExactlyWhenOnlyDrops | devtools/public_chat_export.py:581-603 | resolving the written pointers one by one gives the original document if and only if publishing only dropped keys |
| PublicProjection.ProjectOnlyDrops | devtools/public_chat_export.py:28-69 | every projection, over every value, drops keys at object positions and adds none |
| PublicProjection.TopOnlyDrops | devtools/public_chat_export.py:412-426 | withholding a top reactor is visible as a shorter list; otherwise every entry keeps its position |
| PublicProjection.OmitOnlyDrops | devtools/public_chat_export.py:631-633 | dropping blank facts afterwards is still only dropping keys |
| PublicProjection.OmitConforms | devtools/public_chat_export.py:631-633 | dropping blank facts of a public value leaves a public value |
| PublicProjection.ProjectionConforms | devtools/public_chat_export.py:28-69 | whatever the source holds, only values of the allowlist grammar come out |
| PublicProjection.UnchangedExactlyWhenConforming | devtools/public_chat_export.py:28-69 | a value is published unchanged if and only if it conforms to the allowlist |
| PublicProjection.ProjectTwiceIsProjectOnce | devtools/public_chat_export.py:28-69 | publishing a public value again changes nothing |
| PublicProjection.ProjectionKeepsAllAllowed | devtools/public_chat_export.py:28-69 | nothing allowed is withheld: every conforming copy of the value lies within the projection |
| PublicProjection.TopStaysTop | devtools/public_chat_export.py:412-426 | a public top reactor is still one, and keeps its peer only if explicitly not anonymous |
| PublicProjection.TopListIsTheTopOnes | devtools/public_chat_export.py:412-426 | the published top reactors are exactly the top reactors, in order, each cut down to its own allowlist |
| PublicProjection.TopReactorShows | devtools/public_chat_export.py:412-426 | of a top reactor its scalars are shown, and its peer if and only if it says that it is not anonymous |
| PublicProjection.PositionsAreShown | devtools/public_chat_export.py:401-409 | a recent reaction given by the position of a reactor is shown as it is |
| PublicProjection.ProjectTakenFrom | devtools/public_chat_export.py:28-69 | nothing is made up: every published fact is the one at that place of the original, or says nothing |
| PublicProjection.NothingRemovedExactlyWhenConforming | devtools/public_chat_export.py:581-603 | the removed-facts list of a projection is empty exactly for conforming values |
| PublicExport.MessageFacts | devtools/public_chat_export.py:631-633 | what is published of a message, before its references are rewritten, is exactly its public part: its own facts alone, within the allowlist, without blanks from version 5 on, and all of every copy the allowlist allows |
| PublicExport.FactsArePublic | devtools/public_chat_export.py:28-69 | the same for every section, identity and message under its own allowlist |
| PublicExport.FactsShowAllAllowed | devtools/public_chat_export.py:631-633 | nothing allowed is withheld, in every format version |
| PublicExport.PublicIndex.Remap | devtools/public_chat_export.py:637-653 | the first position of the public part of the identity, or a new last one; an error exactly for an invalid reference |
| PublicExport.PublicIndex.RemapRecord | devtools/public_chat_export.py:606-613 | every reference of a record is rewritten to the public part of the identity it named and nothing else changes; new public identities come from this record alone; when all are known the list stays; refused exactly when a reference is invalid or a list malformed |
| PublicExport.StillRemapped | devtools/public_chat_export.py:606-653 | references go on naming the same public identity while the list grows |
| PublicExport.RemappedOnlyDrops | devtools/public_chat_export.py:606-613 | rewriting references drops nothing: the old reference is a removed fact |
| PublicExport.RemappedIsKnown | devtools/public_chat_export.py:655-663 | what one pass has rewritten, the next finds in the list |
| PublicExport.RemapIsUnique | devtools/public_chat_export.py:606-653 | in a list without duplicates a record can be rewritten in one way only |
| PublicExport.CollectIdentities | devtools/public_chat_export.py:655-663 | the first pass collects exactly the identities public messages refer to, each once; what it rewrote on the way is right for the finished list |
| PublicExport.RewriteMessages | devtools/public_chat_export.py:743-748 | the second pass writes every message as the first pass rewrote it, and leaves the list as it was written |
| PublicExport.CountedMeans | devtools/public_chat_export.py:738-761 | the declared totals agree with the records: messages, admin events, and every reactor of every message |
| PublicExport.PatchAppends | devtools/public_chat_export.py:737-740 | admin events removed one by one from a list published empty come back in order |
| PublicExport.PatchSection | devtools/public_chat_export.py:722-725 | the removed facts of a section, with its name in front of every pointer, give that section back |
| PublicExport.FileIsRestored | devtools/public_chat_export.py:623-766 | whatever a public copy dropped, the public file and the removed-facts file give the whole original file back, in every format version |
| PublicExport.PublishExport | devtools/public_chat_export.py:623-766 | publishing succeeds exactly when the counts agree and every public reference is valid; then group, header, identities and messages are exactly their public parts (within the allowlist, nothing allowed withheld, nothing made up, sparse from version 5 on), every reference names the public part of what it named, an identity is published only if a public message refers to it, and once, the totals count no admin events, and the original file can be restored |
| ConversationChanges.RowsAreTheMatches | src/mcp_telegram/conversation_changes.py:217-251 | the listing holds each selected event once, newest first, and no other |
| ConversationChanges.LaterEventsAreInvisible | src/mcp_telegram/conversation_changes.py:235 | events appended after the snapshot are never seen |
| ConversationChanges.ContinuesAfterPage | src/mcp_telegram/conversation_changes.py:246-250 | continuing after the last event of a page gives exactly the rest of the listing |
| ConversationChanges.PageIsNextStretch | src/mcp_telegram/conversation_changes.py:323-350 | a page is the next stretch of the listing, min(limit, what is left) long, and knows its number; there is a next token exactly when something is left; its cursor is the last event shown, keeps filter, snapshot and limit, strictly decreases and is readable again |
| ConversationChanges.AnsweredExactlyWhen | src/mcp_telegram/conversation_changes.py:72-214 | a request is answered if and only if its bounds, kinds and limit are allowed and its token, if any, is readable and not contradicted; its limit is the one it names, else that of the token, else 50 |
| ConversationChanges.PageHoldsItsLimit | src/mcp_telegram/conversation_changes.py:248-250 | a page holds min(limit, what the snapshot still has to show) events |
| ConversationChanges.SmallestWindow | src/mcp_telegram/conversation_changes.py:217-245 | a window of one second, one kind and one conversation selects exactly what happened there and then |
| ConversationChanges.WindowsTile | src/mcp_telegram/conversation_changes.py:236-245 | adjacent windows share nothing and leave nothing out, and an open bound adds everything it kept out |
| ConversationChanges.FilterReadsBack | src/mcp_telegram/conversation_changes.py:120-160 | the filters a token carries are read back as they were, so a client that repeats them is accepted |
| ConversationChanges.TraversalIsTheFirstSnapshot | src/mcp_telegram/conversation_changes.py:190-350 | following tokens with any fields of the client at each step and any appends in between either ends in a refusal or collects exactly the events of the first snapshot that match the first request, each once, descending, never mixing filters; it is not refused while every follow-up is valid and leaves the filters out or repeats them |
| ConversationChanges.PagesAreNumberedAndFull | src/mcp_telegram/conversation_changes.py:323-350 | the pages of a traversal are numbered from 1; every page but the last is full, with the limit its request names, else that of the page before, else 50 |
| Base64Url.SymbolsAreTheTable | src/mcp_telegram/conversation_changes.py:163-164 | the symbols are those of the URL-safe table, in its order |
| Base64Url.GroupIsOneNumber | src/mcp_telegram/conversation_changes.py:163-164 | a group is one 24-bit number, cut into bytes or six-bit parts, the most significant first |
| Base64Url.EncodedShape | src/mcp_telegram/conversation_changes.py:163-164 | encoded text has the alphabet, a length fixed by the byte count and never one symbol over a group |
| Base64Url.DecodesExactlyCanonicalEncodings | src/mcp_telegram/conversation_changes.py:167-173 | a text decodes to given bytes if and only if it is their encoding, not empty and within the length limit |
| Base64Url.EncodeDecodeRoundTrip | src/mcp_telegram/conversation_changes.py:163-173 | encoding then decoding gives the bytes back exactly for 1 to 6144 bytes |
| Base64Url.AcceptedExactlyWhenCanonical | src/mcp_telegram/conversation_changes.py:167-173 | what is accepted, without mentioning the encoder: alphabet, length, no lone symbol, zero trailing bits |

## Left out

- Telegram calls, retry sleeps, time-outs, progress and logging: a fetch is a page meeting the page contract, a failure, or a crash; deferred replies are waited out before the model's reply.
- SQLite and SQL text: rows are fields or maps, a transaction is one atomic step, `upgrade_records` and record migration are not modelled.
- ExportClient.HistoryPeer: assumes for its completeness part that below the frozen upper id no message is edited and none appears while the export runs; messages may vanish. The other part holds for any daemon.
- ExportClient.TakePage: it and EndPage split the body of the page loop; the source has them inline.
- AdminLog.ResumeAdminLog: assumes that new events are newer than all earlier ones and that events do not change; events may expire, and any request may fail or be answered `unavailable`.
- AdminLog.ServeAdminLog: the kinds of failure of a call are merged into two, those answered `unavailable` and those that stop the client; deferrals are waited out.
- WholeExport.Run: assumes the same of the histories below the frozen upper ids, for every list of groups an attempt may save; what it says about admin events assumes the same of the admin log. Publication is modelled on its own in Publication, and the partial file of an interrupted export is what `PublishedBase.PublishedIsWellFormed` speaks of.
- WholeExport.Prepare: opening the group and following its migration chain is a given list of peers.
- Enrichment of messages with roles, topics and reaction pages, and payload contents in the export protocol and in the sweeps.
- The comparison of saved options on resume, and the removal of a temporary file left by a hard crash.
- Publication.Publish: fingerprints are opaque values preserved by rename and link, and files are told apart by them; symbolic links, file-system errors and the removal of the checkpoint after a finished export are not modelled.
- JSON text, floating-point numbers, schema validation and streaming: the models work on JSON values with integers, and Python's equality of `1`, `1.0` and `True` does not arise.
- IdentityWriter.WriteExport: the record schemas are given predicates; for two different readings of the stream only the header, the directory and the first reading are described.
- HotSweep.HotSweepHasNoGaps: assumes that new messages get larger ids and that a page is the newest one of the moment; scheduling, jitter and account selection are not modelled.
- ColdBackfill.RunKeepsInvariant: the same assumptions on the history, and that no claim issues the lease of a slice in flight; what holds without the latter is the matter of ColdBackfill.WalkIsCompleteExactlyWhen.
- IpcFraming.WriteResponse: the encoder is a sequence of ASCII tokens; whether a line claims frames is a parameter of the reader.
- Budget.AllocateMessageBudget: the classification of chats into tiers is a given map.
- PublicProjection.ProjectOnlyDrops: holds for every table of allowlists whose named entries are guarded; the tables themselves are not copied, except the one for top reactors.
- PublicExport.PublishExport: that only allowed values are shown is stated for tables in which the allowlist of every constructor keeps its name, as all of the source do; works on a whole file at once, streaming and staging of the two files are not modelled; a list of reactors that is not a list is refused, which the source leaves to the schema check of the reader.
- RemovedFacts.FilesRestoreExactlyWhenOnlyDrops: the reader of the removed-facts file is not part of the source; it resolves each pointer in turn and appends at the position after the last item.
- PublicProjection.ProjectionKeepsAllAllowed: speaks of copies that keep the constructor name and do not turn a reaction into a bare reference, because those decide which allowlist applies.
- ConversationChanges.TraversalIsTheFirstSnapshot: a token is the cursor it signs; the signature itself, token text and the texts joined to an event are not modelled. Field types of a request are given.
- The archive windows of the activity sync, the working-set enrollment, configuration, command line and health checks.
