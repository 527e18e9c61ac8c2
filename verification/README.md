# A verified model of the GLH catalogue and inquiry system

The project models, in Dafny 4.11, the parts of the system whose correctness spans many steps: the
tag-stamped Redis cache and the product pages read through it, the delivery of inquiry emails with
its retries and operator commands, the writers of ZIP, PNG and PDF fixtures, the conversation with
the virus scanner, the category forest, the rate limiter and its client keys, product search, and the
lead table. Code that changes things step by step is modelled as methods over classes, arrays and
loops, each proved against a function of its inputs or of the old state; what the system promises is
then proved about those functions, for all inputs and for every sequence of steps.

`dafny verify dfyconfig.toml` checks everything.

| file | what it holds |
|---|---|
| `Prelude`, `Pieces`, `Decimal`, `ByteCodec`, `BitConversion` | text, sequences and filters, decimal numbers, fixed-width integers in buffers |
| `CacheHandler`, `ProductReads`, `ProductCoherence` | the cache handler; the two-hop product read; coherence over every run of a whole site |
| `FailureColumn`, `LeadTable` | the text column of delivery failures as a map; the lead rows, the attachment view and its sweep |
| `Delivery`, `DeliverySafety`, `DeliveryLedger`, `DeliveryRecovery`, `QueueOps` | the delivery protocol step by step; what every run of it keeps; what rows and jobs say of their past; what the operator can recover; the operator's loops |
| `Crc32`, `StoredZip`, `ZipReader`, `SolidPng`, `TinyPdf`, `PdfValues`, `PdfPages`, `PdfText` | the CRC table; the writers; readers that follow the formats |
| `ClamdFraming`, `ClamdReply`, `ClamdSession` | the INSTREAM wire; the reply; the race of events that settles a scan |
| `CategoryForest`, `CategoryAssembly`, `CategoryCycle` | the forest as a value; its assembly from linked nodes; the cycle check and all admin writes |
| `RateLimit`, `Ipv6Bucket` | the fixed-window counter; the /64 client key |
| `Search`, `SearchPage`, `SpecRows` | LIKE and its escaping; the condition list of a search; the rows of a product card |

## Where the code does less than its documentation says

Each of these is proved with a concrete input or run, beside a theorem that says exactly when the
promise does hold.

- `README.md:63` of the repository calls `queue:replay` "safe to run at any time". A replay that
  picked a lead while its job was still being retried can remove the record of a job that has failed
  for good in the meantime and then fail to add a new one; the lead is then in neither operator
  command's sight (`DeliveryRecovery.ReplayCanStrand`, and `StrandedForever` for what follows).
  `DeliverySafety.VisibleIffGuarded` is the exact condition, and `DeliveryRecovery.RecoverableIff` says
  exactly which leads worker and operator can still bring to their notification from any state; after a
  guarded run that is every owed lead inside the ceiling (`DeliveryRecovery.GuardedRunsRecover`).
- `src/server/repositories/lead.ts:246-251` puts a second accepted send down to a crash between accept
  and stamp. A provider that accepts and answers too late also causes one, without any crash
  (`DeliveryRecovery.UnheardAcceptSendsTwice`); `DeliverySafety.AcceptedExactly` counts both causes.
- `src/server/repositories/lead.ts:532-552` takes the 100 oldest matching leads before
  `scripts/queue-ops.ts:177-178` drops those past the 30-day ceiling, so a hundred old leads keep every
  younger one from being replayed, whatever joins later (`QueueOps.OldLeadsStarveTheRest`; exactly who is reached:
  `QueueOps.ReplayedIff`).
- `cache-handler.js:168` compares with a strict `>`, so an entry written in the very millisecond of
  a stamp survives it (`CacheHandler.RevalidateRefinesIff`), and an answer computed before a purge
  but written after it is served (`CacheHandler.LateWriteSurvives`, `ProductCoherence.OldFillReturnsThePast`;
  exactly when a purge cuts off the past, over every run: `ProductCoherence.PurgeCutsOffThePastIff`).
- `src/server/repositories/product.ts:160-163` promises that a publish transition takes effect on the
  next request "with no purge needed at all". That holds for a first publication
  (`ProductCoherence.FirstPublicationIsServedIff`), but a product that was withdrawn and is published
  again stays hidden behind the null that a request in between left under its page key
  (`ProductCoherence.RepublicationIsHidden`, `RepublicationExample`); exactly when the next request is
  served from the newest state: `ProductCoherence.ServedAsItIsNowIff`.
- `src/lib/rate-limit.ts:162-164` calls a dotted-decimal tail harmless. It is counted as one group,
  so `::2:3:4:5:0.6.0.7` lands in another bucket than the same address spelled in full
  (`Ipv6Bucket.HarmfulQuadSplitsAddress`); `Ipv6Bucket.BucketIsPrefixIff` is the exact condition.
- `src/lib/clamav.ts:180-186`: text behind the terminating NUL can make the verdict depend on how the
  network cuts the reply up (`ClamdSession.TextBehindTheNulCanMatter`), and need not
  (`TextBehindTheNulNeedNotMatter`). The verdict is the same for every cut exactly when every beginning
  of the reply that holds a NUL is judged like the whole (`ClamdSession.SameForEveryCutIff`).
- `src/server/admin/catalog/category-actions.ts:45-50` checks and writes in two statements: two admins
  who both check first can make a cycle (`CategoryCycle.StaleChecksCanCycle`). Links stay acyclic
  throughout exactly when every write would pass the check at the moment it lands
  (`CategoryCycle.LandedStayAcyclicIff`).
- `src/lib/lead-attachment.ts:115` shows a link for an empty key or name that
  `src/server/repositories/lead.ts:424-431` then refuses (`LeadTable.LinkWorksIff`).
- `src/server/repositories/product.ts:766`: with a limit of zero the total is zero whatever matches
  (`SearchPage.SearchProducts`).
- `src/server/repositories/product.ts:682-686` finds a product by a fragment of its model, but not by one
  that is all punctuation; exactly when a fragment finds it: `SearchPage.FragmentFindsProductIff`.
- `scripts/doc-fixtures.ts:24` promises a PDF "displaying `label`". A label such as `a)b` is cut off at
  the parenthesis (`PdfText.LabelCanBeCutOff`); the label reads back exactly when it holds no backslash
  and no carriage return and its parentheses are balanced (`PdfText.LabelReadsBackIff`).

Two remarks in `src/lib/clamav.ts:95-106` describe what cannot happen: the fallback `"unknown"` is
never taken (`ClamdReply.SignatureNeverEmpty`), and the order of the two tests does not matter
(`ClamdReply.VerdictIsLastWord`).

## Model

| member | source | states |
|---|---|---|
| CacheHandler.RedisCacheHandler.LatestStamp | cache-handler.js:166-167 | the loop over the tags' stamps finds the latest one, zero if there is none |
| CacheHandler.RedisCacheHandler.Get | cache-handler.js:150-212 | a read leaves the store and gives the answer that the read function says: miss when absent, expired, of another kind, or overtaken by a stamp (then dropped), and a miss without an answer when the call is lost |
| CacheHandler.RedisCacheHandler.Set | cache-handler.js:178-229 | only cacheable data is written, with its time and tags, and only if the call landed |
| CacheHandler.RedisCacheHandler.RevalidateTag | cache-handler.js:189-263 | every listed tag gets this moment's stamp, no entry is touched |
| CacheHandler.HitIff | cache-handler.js:150-176 | a read is a hit, with the entry's own value and time, exactly when a FETCH entry stands under the key, is not yet expired, and no tag of it carries a later stamp |
| CacheHandler.ServedForADay | cache-handler.js:178-187 | an entry that nothing overtakes is served for 24 hours and never after |
| CacheHandler.GetRefines | cache-handler.js:150-176 | a read answers what the cache that deletes on the spot answers, and its lazy deletion cannot be observed |
| CacheHandler.SetRefinesIff | cache-handler.js:178-187 | a write is the eager cache's write exactly when no tag of the entry carries a stamp from the future |
| CacheHandler.RevalidateRefinesIff | cache-handler.js:141-198 | a stamp is the deletion of every entry carrying the tag exactly when each of those was written strictly before the stamp |
| CacheHandler.StampingRefinesPurging | cache-handler.js:141-263 | over every sequence of gets, sets and revalidations at strictly later stamps, with entries expiring and calls lost on the way, all answers are those of the cache that deletes |
| CacheHandler.LateWriteSurvives | cache-handler.js:168-184 | an answer written at or after a stamp is served, however early it was computed |
| ProductReads.ProductRepository.FindId | src/server/repositories/product.ts:143-149 | the published product with this slug is found if there is one |
| ProductReads.ProductRepository.ResolveId | src/server/repositories/product.ts:167-171 | the cached id if there is one, and a fresh lookup whenever the cached answer is null |
| ProductReads.ProductRepository.GetBySlug | src/server/repositories/product.ts:202-214 | the two-hop read: answer and cache are those of the two cached lookups, each through the handler |
| ProductReads.KeysDistinguish | src/server/repositories/product.ts:168-213 | the cache keys of the two hops never collide, and page keys determine id and locale |
| ProductReads.KeysSpelled | src/server/repositories/product.ts:168-213 | the keys and tags as they stand in the store |
| ProductReads.ServingLeavesOtherAnswers | src/server/repositories/product.ts:185-196 | serving any slug first never changes what any slug is served afterwards |
| ProductCoherence.ActStepKeeps | src/server/repositories/product.ts:167-214 | every action of the site - edits, renames, purges, whole requests, first and second hops that stand apart, slow computations - keeps each entry what its own key asks of some database version |
| ProductCoherence.PurgeEndsIff | src/server/repositories/product.ts:167-213 | a purge ends the life of a slug's entry exactly when it names the catalogue, and of a page exactly when it names the catalogue or the page's own product |
| ProductCoherence.PurgeSparesOthers | src/server/repositories/product.ts:209-213 | purges of other products leave every slug's and every page's entry as it was |
| ProductCoherence.PurgeCutsOffThePastIff | src/server/repositories/product.ts:168-213 | over every run that follows a purge that reaches a slug's or a page's entry no older answer is ever again in a live, unstamped entry, exactly when no older computation of it is in flight as the purge lands |
| ProductCoherence.PageServedFrom | src/server/repositories/product.ts:202-214 | a second hop, however long after its first hop and through whichever slug, and every whole request that resolves to this id, gets the page of the id as one database version no older than the cut-off answered it |
| ProductCoherence.CoherentAfterPurge | src/server/repositories/product.ts:185-213 | after such a purge, over every further run, every page handed out for that id - by a second hop whose first hop came at any earlier time, or by a whole request through any slug - is from a database version no older than the purge |
| ProductCoherence.SlugCoherentAfterPurge | src/server/repositories/product.ts:167-171 | after a purge of the catalogue that no older computation outlives, whatever a slug resolves to over every further run it resolved to in a database version no older than the purge |
| ProductCoherence.ResolvedStaysReadable | src/server/repositories/product.ts:206-213 | an id that a first hop resolved to may be read by a second hop after any further run |
| ProductCoherence.ServeIsTwoHops | src/server/repositories/product.ts:206-213 | an uninterrupted request is its two hops one right after the other |
| ProductCoherence.OldFillReturnsThePast | cache-handler.js:184 | a page computed before a purge and written after it is what readers then get |
| ProductCoherence.ServedAsItIsNowIff | src/server/repositories/product.ts:155-165 | the next request for a published slug gets its product as the database has it now exactly when no live, unstamped page entry is from a version that answers otherwise and no such slug entry names another product |
| ProductCoherence.RepublicationIsHidden | src/server/repositories/product.ts:160-163 | from any empty site: request, withdraw, request, publish again, and the next request still gets nothing |
| ProductCoherence.FirstPublicationIsServedIff | src/server/repositories/product.ts:155-165 | after every run from an empty cache, a product published for the first time is served on the next request, whatever nulls were cached before, exactly when the cache does not still name another product for its slug |
| ProductCoherence.ServeIsGetProductBySlug | src/server/repositories/product.ts:202-214 | a site's request is the repository's two-hop read: same answer, same cache |
| FailureColumn.RecordReplacesOneKind | src/server/repositories/lead.ts:285-298 | recording a failure replaces that kind's entry in the text and is a map update that leaves the other kind alone |
| FailureColumn.SentRemovesOneKind | src/server/repositories/lead.ts:264-273 | a successful send removes that kind's entry from the text and from the map, null when nothing is left |
| FailureColumn.ReplayableIsMapLookup | src/server/repositories/lead.ts:538-546 | the null test and the substring test find exactly the maps that are empty or hold the unconfigured notification |
| FailureColumn.ColumnRefinesMap | src/server/repositories/lead.ts:253-298 | over every sequence of failures and sends the text encodes at most one entry per kind and is the map |
| FailureColumn.ReasonTexts | src/server/repositories/lead.ts:181-206 | the six reasons, letter by letter |
| FailureColumn.KeepsIff | src/server/repositories/lead.ts:258-296 | of a column's pieces, whatever they are, exactly the blank ones and those of one kind go |
| LeadTable.Leads.MarkDeliverySent | src/server/repositories/lead.ts:253-274 | exactly one row changes: its stamp is set and that kind's failure leaves the column; a missing row is an error |
| LeadTable.Leads.RecordDeliveryFailure | src/server/repositories/lead.ts:285-298 | exactly one row changes, and in it only the failure column |
| LeadTable.Leads.ExpireStalePendingScans | src/server/repositories/lead.ts:169-179 | every stale pending row fails with this moment as its scan time, no other row changes, and the count is how many did |
| LeadTable.Leads.GetServableLeadAttachment | src/server/repositories/lead.ts:412-433 | whatever it hands out is shown as clean at every time |
| LeadTable.Leads.DeleteLeadWithAttachment | src/server/repositories/lead.ts:150-155 | wherever it stops, no object is left that no row points at; an error keeps the row, success removes row and object |
| LeadTable.SentRowShows | src/server/repositories/lead.ts:253-274 | the row's stamp and text change is the delivery protocol's stamp |
| LeadTable.FailedRowShows | src/server/repositories/lead.ts:285-298 | the row's text change is the delivery protocol's record of a failure |
| LeadTable.OnlyDeliveryColumnsChange | src/server/repositories/lead.ts:253-298 | a stamp sets its own time and a failure the column; no other column of the row changes |
| LeadTable.AwaitingIsReplayable | src/server/repositories/lead.ts:536-547 | the query's where clause finds exactly the leads the protocol lets replay |
| LeadTable.SweepsAreInvisible | src/lib/lead-attachment.ts:82-120 | after sweeps at any earlier times a reader sees the state it would have seen without them |
| LeadTable.SweepsOnlyFailPending | src/server/repositories/lead.ts:169-174 | any number of sweeps only turn a stale pending scan into a failed one, stamped with one of their times |
| LeadTable.TimeOnlyFailsPending | src/lib/lead-attachment.ts:101-109 | as time passes a view changes at most from pending to failed |
| LeadTable.ShownIff | src/lib/lead-attachment.ts:82-120 | at every time and after every sweep: when a view is empty, infected, clean, pending or failed |
| LeadTable.LinkWorksIff | src/lib/lead-attachment.ts:115-117 | what can be downloaded is shown clean, and a clean link works exactly when key and name are not empty |
| LeadTable.UnscannedIsNeverServed | src/server/repositories/lead.ts:424-431 | no sequence of sweeps opens a file whose scan did not end clean |
| DeliverySafety.StepKeeps | src/server/rfq/notify.ts:244-352 | every step of worker, queue, operator and admin keeps the bookkeeping, and only a replay's removal of a record it may no longer replay hides a lead |
| DeliverySafety.VisibleIffGuarded | scripts/queue-ops.ts:201-233 | along a run no lead is ever invisible to both operator commands if and only if no replay removes the record of a lead its own query would not return |
| DeliverySafety.RecoveryComplete | src/server/repositories/lead.ts:512-552 | after every such run a lead owed its notification and past the age floor has a live job, a failed job, or is returned by the replay query |
| DeliverySafety.CompletedMeansSettled | src/server/rfq/notify.ts:254-352 | when a job completed, each of the two emails was stamped or recorded as never attempted |
| DeliverySafety.TalliesCount | src/server/rfq/notify.ts:291-347 | the tallies kept beside a lead count exactly the accepts, unheard accepts and lost stamps of the run |
| DeliverySafety.AcceptedExactly | src/server/repositories/lead.ts:243-274 | over every run the accepted sends of one kind of email are the stamped one, those whose attempt ended before the stamp, those never heard of, and the one in the window: at most one more than the losses |
| DeliveryLedger.ReasonIsLastNoted | src/server/rfq/notify.ts:254-352 | over every run the reason of one kind of email is the code of its last final refusal, or unconfigured if the last word was that, and nothing once it was stamped |
| DeliveryLedger.AttemptEnds | src/server/queue/worker-runtime.ts:81-125 | over every run an attempt that found its lead returns only when it is done with both emails, and completes its job exactly when none of its sends was refused; otherwise, and when it throws, the job is due again until five attempts have failed |
| DeliveryLedger.LeadChanges | src/server/repositories/lead.ts:253-298 | only a stamp marks an email as sent, exactly the one in the window, and only a deletion takes a lead away |
| DeliveryLedger.AgeIsSinceCommit | src/server/repositories/lead.ts:512-552 | over every run a lead's age counts from its commit |
| DeliveryLedger.AlwaysPossible | src/lib/queue.ts:61-73 | a running attempt may throw or lose its worker at any time; exactly completed records are evicted and failed ones retried |
| DeliveryLedger.PickedIff | scripts/queue-ops.ts:169-178 | a replay picks a lead exactly when it is owed its notification, was never tried or could not be, and is older than five minutes but not than thirty days |
| DeliveryRecovery.RecoverableIff | scripts/queue-ops.ts:124-242 | from any state some crash-free run of worker and operator steps ends with the notification stamped, exactly when the worker or the retry command still gets to it, or a replay holds it, or the replay query returns it before its 30-day ceiling |
| DeliveryRecovery.GuardedRunsRecover | src/server/repositories/lead.ts:512-552 | after every run without the stranding removal, every owed lead inside the ceiling can still be notified by worker and operator |
| DeliveryRecovery.StrandedForever | scripts/queue-ops.ts:147-167 | a stranded lead stays stranded over every run without a new enqueue |
| DeliveryRecovery.ReplayCanStrand | scripts/queue-ops.ts:212-232 | a concrete run of the system from nothing in which a replay strands a lead |
| DeliveryRecovery.UnheardAcceptSendsTwice | src/server/rfq/notify.ts:292-305 | a concrete run with two accepted notifications and no stamp lost to a crash |
| QueueOps.ReplayOneHonest | scripts/queue-ops.ts:206-232 | one turn of the replay loop counts a lead as already queued exactly when its job could be read and is unfinished, and then it stays; as enqueued exactly when no call that was made failed, and then a fresh job waits; otherwise as failed, and only a failed add took a finished record with it; nobody else's record is touched |
| QueueOps.ReplayAllHonest | scripts/queue-ops.ts:201-233 | the same for every outcome of a whole replay over distinct leads, whichever calls fail, between the records it found and those it leaves |
| QueueOps.ReplayOneIsProtocol | scripts/queue-ops.ts:206-232 | a loop turn is a run of the delivery protocol's replay steps |
| QueueOps.RfqQueue.ReplayUnnotified | scripts/queue-ops.ts:201-240 | the loop leaves the queue and the three counts that its turns say, and the counts add up to the leads |
| QueueOps.RfqQueue.RetryFailed | scripts/queue-ops.ts:125-145 | every listed failed job that does not refuse is waiting again, no other record changes, and the count says how many |
| QueueOps.RfqQueue.Add | src/lib/queue.ts:302-305 | adding under an existing job id changes nothing, and no record is ever replaced |
| QueueOps.ReplayedIff | src/server/repositories/lead.ts:532-552 | a matching lead is replayed exactly when it is inside the ceiling and fewer than 100 matching leads are older |
| QueueOps.OldLeadsStarveTheRest | scripts/queue-ops.ts:177-178 | nothing is replayed exactly when the hundredth oldest match is past the ceiling, and then never again, however many leads join behind |
| Crc32.TableEntry | scripts/attachment-fixtures.ts:115-117 | the running value after each of the eight passes is that many single-bit reductions of the index, so the entry for `n` is `n` reduced eight times |
| Crc32.CrcTable | scripts/attachment-fixtures.ts:114-118 | every entry of the table is its index after eight single-bit reduction steps |
| Crc32.LookupIsEightSteps | scripts/attachment-fixtures.ts:122 | one lookup and shift is eight single-bit steps, for every register and byte |
| Crc32.Crc32 | scripts/attachment-fixtures.ts:120-124 | the table-driven loop computes the bit-by-bit CRC of every byte string |
| Crc32.OneByteChangesCrc | scripts/media-fixtures.ts:64-68 | changing any one byte of any byte string changes its CRC |
| Crc32.CheckValue | scripts/attachment-fixtures.ts:114-124 | the CRC-32 of the digits 1 to 9 is the standard check value CBF43926 |
| StoredZip.BuildLocalHeader | scripts/attachment-fixtures.ts:144-150 | the field writes into the zeroed buffer give the local header's layout |
| StoredZip.BuildCentralHeader | scripts/attachment-fixtures.ts:152-160 | the same for the central directory header |
| StoredZip.BuildEndRecord | scripts/attachment-fixtures.ts:168-173 | the same for the end record |
| StoredZip.StoreZip | scripts/attachment-fixtures.ts:135-176 | the loop with its running offset gives the archive of the entries, and an exception exactly when a field cannot hold its value |
| ZipReader.ZipRoundTrip | scripts/attachment-fixtures.ts:135-176 | a reader that starts at the final 22 bytes and follows the directory to every local header gets back the names, bytes and checksums of all entries in order |
| ZipReader.NameSurvivesIff | scripts/attachment-fixtures.ts:141 | a name decodes to itself exactly when it is Latin-1 |
| ZipReader.SignaturesSpelled | scripts/attachment-fixtures.ts:144-173 | the three signatures as they stand in the file |
| ZipReader.FitsIff | scripts/attachment-fixtures.ts:135-176 | an archive is written exactly for fewer than 2^16 entries with names shorter than 2^16 and data shorter than 2^32, if local records and directory are shorter than 2^32 bytes each |
| ZipReader.DamageIsNoticed | scripts/attachment-fixtures.ts:120-176 | changing any one byte of any member's data makes the archive unreadable |
| SolidPng.FillLine | scripts/media-fixtures.ts:96-103 | the inner loop writes the filter byte and the pixels of one line and leaves all before it alone |
| SolidPng.Scanlines | scripts/media-fixtures.ts:93-104 | the nested loops write every line of the image and nothing else |
| SolidPng.BuildChunk | scripts/media-fixtures.ts:71-78 | a chunk is length, type, data and the CRC of type and data |
| SolidPng.BuildSolidPng | scripts/media-fixtures.ts:88-121 | the file is signature, header, data and end chunk, and an exception exactly when a 32-bit field cannot hold its value |
| SolidPng.SolidPngRoundTrip | scripts/media-fixtures.ts:80-121 | a reader of the format gets an image of that size in which bytes 3x, 3x+1 and 3x+2 of every line are that red, green and blue |
| SolidPng.FixedBytes | scripts/media-fixtures.ts:71-121 | the signature and the chunk types as the specification spells them |
| TinyPdf.WriteObjects | scripts/doc-fixtures.ts:34-39 | the loop pushes, for every object, the length the body had when it began |
| TinyPdf.WriteEntries | scripts/doc-fixtures.ts:42 | the loop appends one entry for every offset |
| TinyPdf.BuildTinyPdf | scripts/doc-fixtures.ts:25-45 | the text is the body, the table of its offsets, and a trailer that names the table's place |
| TinyPdf.EntryIsTwentyBytes | scripts/doc-fixtures.ts:42 | an entry is 20 bytes exactly when its offset has at most ten digits |
| TinyPdf.CrossReferencesLand | scripts/doc-fixtures.ts:36-43 | following startxref, the table and entry i leads to the position where object i begins, for every list of objects with ten-digit offsets |
| TinyPdf.EveryLabelLands | scripts/doc-fixtures.ts:25-45 | that holds for every label a JavaScript string can hold, as its low bytes stand in the file |
| TinyPdf.EveryLabelReads | scripts/doc-fixtures.ts:31 | the stream's stated length cuts out exactly its content, whatever the label holds |
| PdfValues.EntriesRead | scripts/doc-fixtures.ts:26-32 | every dictionary of names, numbers, references, arrays and dictionaries reads back entry by entry, whatever follows it |
| PdfPages.EveryDocumentOpens | scripts/doc-fixtures.ts:24-45 | for every label a reader that goes from the trailer, whose size is the table's, to the catalogue, the page tree, its first page, the page's content and font, each hop through the cross-reference table, finds the content, the page size and the font |
| PdfText.LabelReadsBackIff | scripts/doc-fixtures.ts:24-45 | opened that way, the page's string gives the label back exactly when it holds no backslash and no carriage return and its parentheses are balanced |
| PdfText.LabelCanBeCutOff | scripts/doc-fixtures.ts:24-31 | a label that closes a parenthesis it did not open is cut off there |
| ClamdFraming.WriteStream | src/lib/clamav.ts:163-178 | the loop covers each byte once in chunks of 1 to 65536 bytes; what a throwing socket got is a proper prefix of the whole stream |
| ClamdFraming.FramingRoundTrip | src/lib/clamav.ts:28-35 | decoding what is written gives the buffer, for every buffer |
| ClamdFraming.TruncatedNeverReads | src/lib/clamav.ts:171-173 | a stream cut short anywhere is never taken for complete: a zero length stands only at the end |
| ClamdReply.VerdictIsLastWord | src/lib/clamav.ts:101-110 | the outcome is infected or clean exactly when the last word of the line is FOUND or OK |
| ClamdReply.LineIs | src/lib/clamav.ts:102 | white space around the daemon's line and the NULs behind it do not matter |
| ClamdReply.StreamPrefixIff | src/lib/clamav.ts:105 | the prefix that is taken off is `stream:` in any case |
| ClamdReply.SignatureNeverEmpty | src/lib/clamav.ts:105-106 | the extracted signature is never empty |
| ClamdReply.SignatureReportedIff | src/lib/clamav.ts:104-106 | a signature is reported verbatim exactly when it neither begins nor ends with white space |
| ClamdSession.ScanSession.Finish | src/lib/clamav.ts:131-141 | the first outcome is the only one resolved, and the socket is destroyed with it |
| ClamdSession.ScanSession.OnConnect | src/lib/clamav.ts:163-178 | the whole stream goes out, or the scan fails with a cut-off one |
| ClamdSession.ScanSession.OnData | src/lib/clamav.ts:180-186 | text accumulates, and the first NUL settles the scan with the verdict on it |
| ClamdSession.ScanSession.OnClose | src/lib/clamav.ts:188-197 | a close settles with the verdict on what was received, or as unreachable if nothing was |
| ClamdSession.SettlesOnFirstDecision | src/lib/clamav.ts:126-198 | for every order of events the promise settles on the first deciding event, with that event's verdict, and not before |
| ClamdSession.NeverChanges | src/lib/clamav.ts:131-133 | a settled promise never changes, whatever follows |
| ClamdSession.CleanIffOk | src/lib/clamav.ts:108-109 | clean is reported exactly when the event that settles the scan is a complete reply, or the close after one, whose last word is OK |
| ClamdSession.SameForEveryCutIff | src/lib/clamav.ts:180-186 | a NUL-terminated reply gets the verdict on the whole of it for every way of cutting it up, exactly when every beginning that holds a NUL is judged like the whole |
| ClamdSession.FragmentationDoesNotMatter | src/lib/clamav.ts:180-186 | a line ended by NULs gets the same verdict however the network cuts it up |
| ClamdSession.JudgedAtClose | src/lib/clamav.ts:188-192 | without a NUL the verdict falls at the close, again however it was cut up |
| ClamdSession.TextBehindTheNulCanMatter | src/lib/clamav.ts:184-185 | text behind the NUL can give two verdicts for two ways of cutting the same reply |
| CategoryForest.FlattenIsExact | src/server/catalog-page.ts:97-99 | flattening the forest lists every row whose parents lead to a root exactly once and no row on or below a cycle |
| CategoryForest.FlattenIsInOrder | src/server/catalog-page.ts:97-99 | in the flattened list a parent stands before its children and siblings stand in input order |
| CategoryForest.SignalsAreExact | src/server/catalog-page.ts:121-129 | the page's totals are the published products of the grounded rows, the number of them whose name is a fallback, and their number |
| CategoryForest.NothingLostIff | src/server/catalog-page.ts:112-127 | every category is counted exactly when no row is on or below a cycle, and then so is every published product |
| CategoryAssembly.MakeNodes | src/server/repositories/category.ts:153-160 | the first loop makes one childless node for every id |
| CategoryAssembly.Place | src/server/repositories/category.ts:163-169 | one turn of the second loop pushes a node under its parent or among the roots, behind its elder siblings |
| CategoryAssembly.AssembleCategoryTree | src/server/repositories/category.ts:149-171 | every node hangs under its parent in input order, missing and empty parents make roots, and the links reachable from the roots are the finite forest |
| CategoryAssembly.FlattenNodes | src/server/catalog-page.ts:97-99 | the recursion over the linked nodes ends and lists what the forest holds |
| CategoryAssembly.PageSignals | src/server/catalog-page.ts:121-129 | assembly and traversal together count every grounded row exactly once, whatever the parent ids say |
| CategoryCycle.CategoryTable.WouldCreateCategoryCycle | src/server/repositories/category.ts:327-343 | the walk ends even on cyclic data and answers true exactly for the category itself and its ancestors |
| CategoryCycle.CategoryTable.UpdateCategoryAction | src/server/admin/catalog/category-actions.ts:43-53 | the action sets exactly this category's parent, to none as well, or refuses for a cycle, a missing category or a missing parent and changes nothing |
| CategoryCycle.CategoryTable.CreateCategoryAction | src/server/admin/catalog/category-actions.ts:22-41 | a new category gets the given parent and no other link changes |
| CategoryCycle.CategoryTable.DeleteCategoryAction | src/server/admin/catalog/category-actions.ts:56-68 | a category goes exactly when it exists and no child or product refers to it, and no other link changes |
| CategoryCycle.ApplySets | src/server/admin/catalog/category-actions.ts:22-68 | an action goes through exactly when it may, sets its own category's link, and no other |
| CategoryCycle.RunHoldsLastLinks | src/server/repositories/category.ts:345-361 | over every sequence of actions each category has the parent of the last accepted write on it |
| CategoryCycle.AcyclicIffNoOwnAncestor | src/server/repositories/category.ts:43-48 | every walk up ends exactly when no category is its own ancestor |
| CategoryCycle.UpdateKeepsAcyclicIff | src/server/repositories/category.ts:322-343 | on acyclic links an update keeps them acyclic exactly when the check answers false |
| CategoryCycle.WritesKeepAcyclic | src/server/admin/catalog/category-actions.ts:15-68 | over every sequence of creates, updates and deletes no category becomes its own ancestor and every parent exists |
| CategoryCycle.LandedStayAcyclicIff | src/server/admin/catalog/category-actions.ts:43-53 | writes that land in any order, checked at any time or not at all, keep the links acyclic throughout exactly when each would pass the check at the moment it lands |
| CategoryCycle.StaleChecksCanCycle | src/server/admin/catalog/category-actions.ts:45-50 | two updates that were both checked first make a cycle |
| CategoryCycle.AcyclicTableLosesNothing | src/server/repositories/category.ts:143-148 | acyclic links in the table mean that the page drops no category |
| RateLimit.RateLimiter.CheckRateLimit | src/lib/rate-limit.ts:94-141 | one check moves only this client's counter, as one step says, and tells the caller the step's decision |
| RateLimit.RateLimiter.Incr | src/lib/rate-limit.ts:114 | the increment starts from one when no live counter exists and keeps a live one's expiry |
| RateLimit.RateLimiter.ExpireNx | src/lib/rate-limit.ts:14-18 | an expiry is set only where there is none |
| RateLimit.WindowCountsEverything | src/lib/rate-limit.ts:28-30 | while a window lasts its counter counts every landed check, enforced or failed open, and its end stays put |
| RateLimit.ExpiryIsAnchored | src/lib/rate-limit.ts:14-18 | every counter a check leaves has an expiry, one window after its first hit; one without gets it |
| RateLimit.RunStaysAnchored | src/lib/rate-limit.ts:14-18 | over every run no expiry is ever more than one window away and none is lost |
| RateLimit.RetryAfterInRange | src/lib/rate-limit.ts:130-135 | a rejected caller is told to wait between one second and one window |
| RateLimit.RetryAfterIsTheRest | src/lib/rate-limit.ts:130-135 | a rejected caller is told what is left of the window, to half a second, and a whole window only when that rounds to nothing |
| RateLimit.AllowedIff | src/lib/rate-limit.ts:94-141 | a check is allowed exactly when its answer did not come in time or fewer than the limit landed before it in the window |
| RateLimit.FirstOnesAreAllowed | src/lib/rate-limit.ts:55-57 | within a window exactly the first limit landed checks are under the limit |
| RateLimit.FreshWindowBound | src/lib/rate-limit.ts:55-57 | one window holds at most the limit of enforced allows |
| RateLimit.SpanBound | src/lib/rate-limit.ts:14-30 | whatever counter is stored, a span of at most one window, both ends included, holds at most one fewer than twice the limit, and one millisecond more at most twice |
| RateLimit.AnySpanBound | src/lib/rate-limit.ts:14-30 | the bound for every span of every run |
| RateLimit.TwiceTheLimitIsReached | src/lib/rate-limit.ts:14-30 | for every limit and window a run reaches twice the limit in one millisecond more than a window |
| RateLimit.AlmostTwiceAtOnce | src/lib/rate-limit.ts:14-30 | for every limit and window two adjacent milliseconds hold one fewer than twice the limit |
| Ipv6Bucket.CanonicalIsHexText | src/lib/rate-limit.ts:173-176 | all spellings of one group, in any case and with any leading zeros, have the same canonical form |
| Ipv6Bucket.BucketIsPrefixIff | src/lib/rate-limit.ts:158-177 | the bucket of every spelling is the shortest form of the first 64 bits, except exactly when a dotted-decimal end behind `::` pushes a non-zero group of them back |
| Ipv6Bucket.SameBucketIffSame64 | src/lib/rate-limit.ts:143-157 | two spellings outside that case share a bucket exactly when the first 64 bits of their addresses agree |
| Ipv6Bucket.HarmfulQuadSplitsAddress | src/lib/rate-limit.ts:162-164 | every spelling in that case lands in another bucket than the same address written as eight groups |
| Ipv6Bucket.HarmfulQuadExists | src/lib/rate-limit.ts:162-164 | there is such a spelling |
| Search.EscapedLikeIsSubstring | src/server/repositories/product.ts:649-656 | for every query and name the escaped pattern never fails and matches exactly the names that contain the query |
| Search.UnescapedIsNotSubstring | src/server/repositories/product.ts:721-726 | without the escape a pattern can fail, and can match a name that does not hold the query |
| Search.ModelArmIsSubstring | src/server/repositories/product.ts:715-719 | the model pattern needs no escape and means substring of the normalised model |
| Search.RespellingNormalizesAlike | src/server/repositories/product.ts:637-647 | other letter cases and other punctuation normalise alike |
| Search.NormalizeKeeps | src/server/repositories/product.ts:645-647 | the normal form of an ASCII text is its letters, in lower case, and its digits, in order |
| Search.ModelFoundIff | src/server/repositories/product.ts:699-719 | a query finds a model exactly when its letters and digits stand side by side among the model's |
| Search.FragmentIsFound | src/server/repositories/product.ts:682-684 | every respelling of every fragment of a model matches that model |
| SearchPage.SearchArms | src/server/repositories/product.ts:702-732 | the arms hold for exactly the products whose shown name or normalised model holds the query, and an empty normalised query adds no arm |
| SearchPage.SearchConditions | src/server/repositories/product.ts:699-749 | the pushed conditions together are exactly what a search promises: published, matching, and within every filter asked for |
| SearchPage.WantedIff | src/server/repositories/product.ts:693-749 | what a search wants, filter by filter: published, of the category, manufacturer and series asked for, and named or modelled as the query says, an absent, empty or blank one asking nothing |
| SearchPage.SearchProducts | src/server/repositories/product.ts:693-779 | the page is the first limit of exactly the wanted products, and the total is their number exactly when the limit is not zero or nothing matches |
| SearchPage.FragmentFindsProductIff | src/server/repositories/product.ts:682-686 | a respelling of any fragment of its model finds a published product exactly when the query normalises to something, is blank, or stands in a shown name |
| SpecRows.ToSpecRows | src/server/repositories/product.ts:67-92 | the loop that stops when the card is full shows the first usable attributes in key order |
| SpecRows.LeastAreShown | src/server/repositories/product.ts:67-92 | the rows are those of usable attributes in the order of their keys' code units, as many as there is room for, and none left out comes before one shown |
| SpecRows.OrderDoesNotMatter | src/server/repositories/product.ts:49-61 | the rows are the same in whatever order the attributes come |

## Left out

- `src/lib/queue.ts` connection memo, liveness check and enqueue deadline: an enqueue is one step that happens or does not.
- `src/lib/email.ts` transports and recipients: a send is accepted, refused, or accepted without the answer arriving; `MemoryTransport` is the tally of accepts.
- `src/lib/email.ts:186-190` `Idempotency-Key`: what the provider does with a second request under the same key is its own; the counts are of sends the provider accepted, and a repeated one need not be a second email in the inbox.
- BullMQ's stalled-lock case, in which two workers hold one job, and completed records beyond one per lead: a job record is keyed by its lead.
- Read-modify-write races on the failure column: `markDeliverySent` and `recordDeliveryFailure` are one step each.
- `unstable_cache` and its stale-while-revalidate refresh: a cached read is a lookup through the handler, or a computation that is then stored; its key is the key parts joined by commas.
- Redis eviction, clock skew between servers, and the handler's client memo and log throttling.
- ProductReads.ServingLeavesOtherAnswers: both requests see one database state and complete their cache calls, because it isolates what one slug does to another; lost calls are in `CacheHandler.StampingRefinesPurging`, edits, purges and other requests between and within requests in `ProductCoherence`.
- Page contents: a product page carries its id, locale and row, not the resolved translations, which are pure mappings.
- PdfText.LabelReadsBackIff: the bytes of the string, not the glyphs the font has for them.
- TinyPdf.EveryLabelReads: a label outside Latin-1 keeps its length but not its characters, because the file holds the low byte of each code unit; the label is taken to those bytes before the text is assembled, the code after.
- SolidPng.SolidPngRoundTrip: `deflateSync` is any function with an inverse, because compression is a library.
- The `TextDecoder` of the scanner's reply: events carry text, so a multi-byte character split between two chunks is not modelled.
- ClamdSession.SettlesAtTheLatest: that a deadline event does occur is the timer's promise, not this code's.
- `describeClientKey` header parsing and `isIP`: `Ipv6Bucket` begins at a valid spelling.
- Search.ModelFoundIff: stated for ASCII models and queries; any other character counts as the ASCII letters and digits of its lower-case form.
- Search.FragmentIsFound: lower-casing is one character at a time and the same function in the program and the database; context-dependent cases such as the Greek final sigma are not in a model number.
- SQL execution plans, translations, card mapping, `humanizeSpecKey` and the suggestion query.
- CategoryCycle.WritesKeepAcyclic: admin actions are one after the other; what two at once can do is `StaleChecksCanCycle` and `LandedStayAcyclicIff`. Slug conflicts and translations do not touch the links; whether products refer to a category is a parameter of its deletion.
- User interface, sessions, passwords, object storage beyond its keys, SEO signals, seeds and message texts.
