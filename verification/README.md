# Verified model of the document portal's core protocols

The portal is an ISO 27001 document management system: versioned documents in spaces and
categories, a sealed audit journal, uploads, mail notifications and retention rules. This project
models its hardest logic in Dafny and proves what that logic is for. Each module follows one
component.

| module | component |
|---|---|
| `DocumentDiff`, `NormalizedLines` | comparison of two versions: lines, LCS table, forward walk, report |
| `CanonicalJson`, `CanonicalJsonFaithful`, `CanonicalJsonScan`, `JsonText` | the canonical serializer under the audit hash |
| `AuditChain`, `AuditLedger`, `AuditStore` | hash chain, runs of the journal, and the handlers over the event table |
| `UploadProtocol` | interleaved upload attempts with receipts and cleanup |
| `CategoryAcl`, `Authorization`, `AccessReasons`, `CategoryForest` | category rules, space access, mail audiences, category tree |
| `Der`, `OneTimeCodes`, `SmtpReader` | RFC 3161 requests and responses, base32 and one-time codes, SMTP replies |
| `StorageTargets`, `Delivery`, `Retention`, `VersionLabels` | optimistic edits, outbox and mail jobs, destruction, version numbers |
| `Wrappers`, `Powers`, `Utf16`, `Sorting` | absent values; powers; JavaScript strings; stable sorting and table queries |

Code that changes things step by step is a class or a loop, proved against a function or relation
about which the properties are then proved. Protocols whose steps interleave are state machines
over runs of any length with any number of participants. A database transaction is one step, a
clock never decreases, and SHA-256, HMAC, `Date.toISOString` and the mail directory are
parameters about which only what is written in `requires` is known.

## What the proofs say about the code

These are the places where the code does less than its documentation or a first reading suggests.
The code is modelled as it is; the condition under which it does more is stated exactly.

- The hashed text is the previous hash followed by the record without a separator. It is still
  unambiguous, even against a stored `prevHash` that is no digest at all: a canonical array is never a
  proper suffix of another one (`CanonicalJsonScan.SplitArrayText`). A digest of 64 digits cannot be
  injective on all texts, so tamper evidence asks for no collision among the texts at hand only.
- The retention purge orders by `occurredAt` alone. A purge keeps the chain valid exactly when it
  opens no hole (`AuditLedger.PurgeValidExactly`); a batch that ends inside one instant can open one,
  as a journal of 1002 simultaneous events shows (`AuditLedger.TiedPurgeBreaksChain`).
- A chain purged to the last event restarts at genesis under the old seals. It is then reported valid
  exactly while it is shorter than every old seal that is checked
  (`AuditStore.RestartReportsExactly`).
- Chaining keeps the time order exactly when the batch starts after the last chained event
  (`AuditLedger.ChainedOrderExactly`). An event that became visible too late can break the chain at
  a later purge (`AuditLedger.LateEventOpensHole`).
- The error handler of an upload can remove the object of its own row exactly when the transaction
  committed without a receipt, or is in doubt and can still commit
  (`UploadProtocol.MayLoseObjectExactly`, with a run for each case).
- Category handlers check and write in separate statements. Two moves checked on the same reading
  close a cycle exactly when each puts its category under the other
  (`CategoryForest.TwoMovesKeepForestExactly`).
- Retention decisions do the same. A run names two people throughout exactly when no approval was
  overtaken by a request of the approver or by a hold (`Retention.TwoPeopleExactly`); handlers that do
  not interleave always do (`Retention.AtomicHandlersNameTwo`). A destruction closes on a policy under
  legal hold exactly when the last rule saved since the claim set one (`Retention.ClosesOnHoldExactly`).
- The `length` and `oid` loops shift 32-bit integers: both round trips hold exactly below 2^31, and
  an identifier also needs its first two arcs to fit seven bits, which excludes 2.48 and above. A
  nonce that starts with a superfluous zero byte is not a DER integer.
- `verifyTotp` reads the clock once per offset; when a step begins between two readings one code
  of the window is missed (`OneTimeCodes.TotpWindow`).
- A storage test is sound because revisions are never reused
  (`StorageTargets.ReusedRevisionBreaks`), as the probe reads the target again while it runs.
- A stored empty category reference would be read as none by the access check and as a category by
  the query filter (`CategoryAcl.WhereSelectsAllowed`).

## Model

| member | source | states |
|---|---|---|
| DocumentDiff.NormalizeShape | apps/api/src/document-diff.ts:17-24 | at most 500 lines, none twice, none shorter than two code units |
| NormalizedLines.WhiteSpaceIs | apps/api/src/document-diff.ts:21 | the characters `\s` matches and `trim` removes, one by one |
| NormalizedLines.CleanLineIsWords | apps/api/src/document-diff.ts:21 | a cleaned line is the words of the extracted one with single spaces between them |
| NormalizedLines.NormalizeExactly | apps/api/src/document-diff.ts:17-24 | the lines of at least two characters, each once at its first place, the first 500 of them |
| DocumentDiff.KeptAtMostLcs | apps/api/src/document-diff.ts:144-151 | no script turning one suffix into the other keeps more lines than the table's recurrence says |
| DocumentDiff.WalkKeepsLcs | apps/api/src/document-diff.ts:170-183 | from any position the forward walk turns suffix into suffix and keeps exactly the table's number of lines |
| DocumentDiff.WalkIsShortest | apps/api/src/document-diff.ts:139-183 | the walk from the start is a shortest edit script among all scripts |
| DocumentDiff.WalkRemovesOnlyIfNoneKeeps | apps/api/src/document-diff.ts:177-182 | on ties: a line is removed only where no shortest script could still keep it |
| DocumentDiff.RunPairsInOrder | apps/api/src/document-diff.ts:159-169 | within a run, vanished and new lines are paired in order until one side runs out, and nothing is dropped |
| DocumentDiff.ReportAccountsForLines | apps/api/src/document-diff.ts:142-185 | each line absent from one side is reported exactly as often as it occurs on the other; a line on both sides never |
| DocumentDiff.SameLinesEmptyReport | apps/api/src/document-diff.ts:139-185 | the report is empty if and only if both texts have the same lines, in whatever order |
| DocumentDiff.ReportInOrder | apps/api/src/document-diff.ts:157-184 | the lists of the report follow the order of the text their lines come from, at strictly increasing places |
| DocumentDiff.ModifiedAtSamePlace | apps/api/src/document-diff.ts:139-140 | both halves of a modified pair lie in the script with no kept line between them |
| DocumentDiff.FillRow | apps/api/src/document-diff.ts:146-151 | one pass computes a row exactly from the row below and touches nothing else |
| DocumentDiff.FillTable | apps/api/src/document-diff.ts:144-151 | every entry is the LCS length of its two suffixes; no 16-bit wrap below 65536 lines on one side |
| DocumentDiff.ChangeReport.Flush | apps/api/src/document-diff.ts:159-169 | appends the report of the current run and empties both buffers |
| DocumentDiff.WalkTable | apps/api/src/document-diff.ts:170-183 | the walk over the table ends and feeds the report of the script it follows |
| DocumentDiff.DiffLines | apps/api/src/document-diff.ts:141-186 | exactly the lines of one side only, in the order of their text; the report of the shortest script whenever the table fits 16 bits |
| DocumentDiff.CompareDocumentVersions | apps/api/src/document-diff.ts:188-205 | the stored details are the first 100 entries of the shortest script's report, and the summary counts them |
| CanonicalJsonFaithful.QuoteInjective | apps/api/src/audit-chain.ts:13-21 | a quoted string determines where it ends and which string it quotes |
| CanonicalJsonFaithful.StablePrefix | apps/api/src/audit-chain.ts:11-22 | a canonical text followed by a delimiter determines the value and what follows |
| CanonicalJsonFaithful.StableRespectsMeaning | apps/api/src/audit-chain.ts:13-20 | key order never matters, at any depth |
| CanonicalJsonFaithful.StableIsFaithful | apps/api/src/audit-chain.ts:11-22 | equal canonical texts if and only if equal values with objects read as maps |
| JsonText.BodyReads | apps/api/src/audit-chain.ts:13-21 | a reader of JSON strings (RFC 8259, section 7) finds the string in its quoted form |
| JsonText.EscapedExactly | apps/api/src/audit-chain.ts:18-21 | which characters `JSON.stringify` escapes, and in which form |
| JsonText.StableIsText | apps/api/src/audit-chain.ts:11-22 | the canonical text is JSON text of the value by the grammar, without white space and with ascending keys |
| CanonicalJsonScan.NoProperSuffix | apps/api/src/audit-chain.ts:11-22 | no canonical array is a proper suffix of another |
| CanonicalJsonScan.SplitArrayText | apps/api/src/audit-chain.ts:37-53 | an array appended to a bracket-free prefix can be split off again, whatever the other prefix is |
| AuditChain.HashInputFaithful | apps/api/src/audit-chain.ts:37-53 | the hashed text determines the previous hash and every field of the record |
| AuditChain.LinkShape | apps/api/src/audit-chain.ts:65-80 | chaining yields an intact chain with consecutive indices over the events in order |
| AuditChain.TamperEvidence | apps/api/src/audit-chain.ts:148-200 | an intact chain that carries a trusted hash at index n holds the original records up to n |
| AuditLedger.EveryRunVerifies | apps/api/src/audit-chain.ts:56-114 | in every run of recording, chaining, sealing and purging the chain is intact, gapless and in time order, seals match, strictly advance and count every event |
| AuditLedger.ChainingProgress | apps/api/src/audit-chain.ts:67-80 | chains at most 2000 events, all settled, and leaves a settled one only behind 2000 earlier ones |
| AuditLedger.SealDueExactly | apps/api/src/audit-chain.ts:101-104 | a seal is due if and only if an event is behind no seal and the interval has passed since every seal |
| AuditLedger.PurgeProgress | apps/api/src/notification-outbox.ts:47-59 | deletes at most 1000 events, all expired and the earliest, and leaves an expired one only after 1000 |
| AuditLedger.PurgeValidExactly | apps/api/src/notification-outbox.ts:49-58 | a purge leaves an intact chain if and only if no deleted event lies between two that remain |
| AuditLedger.TiesMayBeSplitAnywhere | apps/api/src/notification-outbox.ts:49-54 | among expired events of one instant, any 1000 may be the ones deleted |
| AuditLedger.TiedPurgeBreaksChain | apps/api/src/notification-outbox.ts:49-58 | a journal in the invariant and a permitted purge of it that leaves a broken chain |
| AuditLedger.ChainedOrderExactly | apps/api/src/audit-chain.ts:67-80 | whatever the events, chaining keeps the links; it keeps the time order if and only if the batch starts after the last chained event |
| AuditLedger.LateEventOpensHole | apps/api/src/audit-chain.ts:7-8 | a late event inside the chain that expires before its neighbours breaks the chain at that purge |
| AuditLedger.EmptiedChainRestarts | apps/api/src/audit-chain.ts:65-66 | an emptied chain restarts at genesis and keeps the old seals |
| AuditLedger.OldSealMatchesExactly | apps/api/src/audit-chain.ts:194-200 | an old seal matches a restarted chain of other events if and only if that chain has not reached the sealed index |
| AuditStore.RestartReportsExactly | apps/api/src/audit-chain.ts:148-205 | a restarted journal is reported valid if and only if its chain is shorter than every checked old seal |
| AuditStore.Journal.Record | apps/api/src/audit-chain.ts:24-35 | an inserted event is pending and changes nothing else |
| AuditStore.Journal.ChainEvent | apps/api/src/audit-chain.ts:73-79 | one turn moves one pending event to the end of the chain |
| AuditStore.Journal.ChainAuditEvents | apps/api/src/audit-chain.ts:56-82 | query, loop and updates perform exactly the chaining step on the oldest settled events |
| AuditStore.Journal.SealAuditChain | apps/api/src/audit-chain.ts:85-114 | adds the seal of the newest chained event if one is due under the configured interval, and otherwise changes nothing |
| AuditStore.Journal.MaintainHistory | apps/api/src/notification-outbox.ts:47-59 | deletes exactly the oldest expired events, at most 1000, leaving the surviving chain |
| AuditStore.NoFindingsMeansIntact | apps/api/src/audit-chain.ts:164-187 | the verifier's loop reports nothing if and only if the chain is intact |
| AuditStore.FindingsAreFaults | apps/api/src/audit-chain.ts:164-187 | exactly the gaps, wrong links and wrong hashes are reported, each with its index and reason |
| AuditStore.FindingsAscend | apps/api/src/audit-chain.ts:164-187 | findings come in the order of the chain |
| AuditStore.CheckChain | apps/api/src/audit-chain.ts:152-188 | paging by cursor checks every chained row once, in index order, and finds what one pass would |
| AuditStore.NewestAreChecked | apps/api/src/audit-chain.ts:189-192 | the seals compared are the 500 newest by `createdAt`, or all of them |
| AuditStore.CountMismatches | apps/api/src/audit-chain.ts:193-200 | the number of compared seals that a stored event contradicts |
| AuditStore.VerifyAuditChain | apps/api/src/audit-chain.ts:148-205 | valid if and only if the whole chain is intact and none of the 500 newest seals is contradicted; with no more than 500, none at all |
| AuditStore.JournalVerifies | apps/api/src/audit-chain.ts:148-205 | the table of any journal in the invariant of a run is reported valid |
| AuditStore.ValidReportMeansUnaltered | apps/api/src/audit-chain.ts:148-205 | a valid report with a trusted seal means no stored record up to it was altered, moved or removed |
| UploadProtocol.UploadsAreIdempotent | apps/api/src/controllers.ts:990-1127 | in every interleaving at most one attempt of an upload commits, all successes return its document, and its object stays unless the commit landed after the cleanup's lookup |
| UploadProtocol.LookUpExactly | apps/api/src/upload-receipt.ts:32-62 | when the first lookup goes on, returns the stored document, or throws |
| UploadProtocol.RecoverExactly | apps/api/src/controllers.ts:1117-1127 | when the error handler removes its object, returns the stored document, or throws |
| UploadProtocol.AnswerIsReplayable | apps/api/src/upload-receipt.ts:45-61 | a document answered from a lookup is stored under the receipt, for the same payload, and not deleted |
| UploadProtocol.DisputeThrows | apps/api/src/upload-receipt.ts:46-57 | another payload or a deleted document under the receipt ends the attempt and removes no object |
| UploadProtocol.CommitReplacesCompared | apps/api/src/controllers.ts:1031-1096 | a commit follows the version its content was compared with, and creates a document exactly for an upload that named none |
| UploadProtocol.LateCommitReplacesCompared | apps/api/src/controllers.ts:1031-1096 | the same for a commit that was in doubt |
| UploadProtocol.CommittedObjectsStay | apps/api/src/controllers.ts:1117-1127 | every version's object was written by a committed attempt and is stored if that attempt had a receipt and did not commit late |
| UploadProtocol.CleanupLosesObjectExactly | apps/api/src/controllers.ts:1117-1127 | the error handler heads for the object of a committed row if and only if the attempt committed without a receipt |
| UploadProtocol.MayLoseObjectExactly | apps/api/src/controllers.ts:1117-1127 | the handler can end with its own row and no object if and only if it committed without a receipt, or is in doubt and can still commit |
| UploadProtocol.LostWithoutReceipt | apps/api/src/controllers.ts:1125-1126 | a run in which a committed upload without a receipt loses its object |
| UploadProtocol.LostByLateCommit | apps/api/src/controllers.ts:1117-1126 | a run in which a commit lands after the cleanup, for an upload with or without a receipt |
| CategoryAcl.WalkIsNearestRule | apps/api/src/category-permissions.ts:51-63 | on any parent graph, cyclic ones included, the nearest rule decides, else the root |
| CategoryAcl.WalkUp | apps/api/src/category-permissions.ts:53-61 | the parent loop ends and computes that walk |
| CategoryAcl.ResolveCategories | apps/api/src/category-permissions.ts:38-64 | returns exactly the categories whose nearest rule grants, in their order |
| CategoryAcl.NodesAre | apps/api/src/category-permissions.ts:43 | each listed category has the parent of its last entry |
| CategoryAcl.ResolvedInOrder | apps/api/src/category-permissions.ts:51-63 | granted categories keep the order of the list |
| CategoryAcl.WhereSelectsAllowed | apps/api/src/category-permissions.ts:8-36 | the query filter selects exactly the documents some scope allows; what differs for a stored empty reference |
| Authorization.PrefilterLosesNothing | apps/api/src/authorization.service.ts:66-103 | a space the prefilter drops would have granted nothing |
| Authorization.PermittedSpacesFor | apps/api/src/authorization.service.ts:48-189 | the filtered, grouped pass gives for each permission the scopes of all live spaces that grant something |
| Authorization.Can | apps/api/src/authorization.service.ts:229-294 | the decision equals its specification in all branches |
| Authorization.MayIsAllowed | apps/api/src/authorization.service.ts:237-294 | the category path and the counting path agree with the space's scope, and without a category with its root flag |
| AccessReasons.RootAnswerExactly | apps/api/src/authorization.service.ts:150-166 | access to a space is granted if and only if an active owner, a rule on the root valid now, or an unexpired grant of these groups gives it |
| AccessReasons.NearestRuleDecides | apps/api/src/authorization.service.ts:167-177 | on a category, the nearest ancestor-or-self with a rule valid now decides by its own rules |
| AccessReasons.NoRuleInherits | apps/api/src/authorization.service.ts:167-177 | without a rule up to the root, a category answers like the space |
| AccessReasons.NothingValidNoAccess | apps/api/src/authorization.service.ts:66-103 | groups with no valid rule or grant and no ownership are granted nothing, on any category |
| AccessReasons.NoSpaceNoAccess | apps/api/src/authorization.service.ts:66-69 | a missing or deleted space grants nothing |
| AccessReasons.SpaceListedExactly | apps/api/src/authorization.service.ts:144-186 | a space is listed if and only if its root or some category may be accessed |
| AccessReasons.ScopesInOrder | apps/api/src/authorization.service.ts:136-186 | listed spaces keep the order they were read in |
| Authorization.RootDistributes | apps/api/src/authorization.service.ts:150-166 | ownership and the root flag hold for groups exactly when they hold for one of them |
| Authorization.AllowedDistributes | apps/api/src/authorization.service.ts:138-185 | on one space a set of groups may do exactly what one of its groups may do |
| Authorization.AccessDistributes | apps/api/src/authorization.service.ts:229-294 | access distributes over groups |
| Authorization.AccessIsMonotone | apps/api/src/authorization.service.ts:229-294 | more groups never lose a right |
| Authorization.SpaceAudience | apps/api/src/notification.service.ts:267-305 | the loop over related groups collects the addresses of all groups that may act alone, and no other |
| Authorization.AudienceIsExact | apps/api/src/notification.service.ts:287-304 | asking one group at a time reaches a member exactly when all his groups together may act |
| CategoryForest.MoveKeepsForestExactly | apps/api/src/controllers.ts:3329-3347 | a move keeps the forest if and only if the new parent is not the category or below it |
| CategoryForest.DeleteKeepsForest | apps/api/src/controllers.ts:3400-3413 | handing the children to the parent keeps the forest |
| CategoryForest.DeleteKeepsGrants | apps/api/src/controllers.ts:3400-3413 | deleting a category without a rule changes no other category's result |
| CategoryForest.TwoMovesKeepForestExactly | apps/api/src/controllers.ts:3329-3365 | two moves checked on one reading close a cycle if and only if each puts its category under the other one |
| CategoryForest.InterleavedMovesMakeCycle | apps/api/src/controllers.ts:3329-3365 | such a pair of moves |
| CategoryForest.Categories.Create | apps/api/src/controllers.ts:3275-3306 | every outcome, the new row, and the forest kept and closed within spaces |
| CategoryForest.Categories.File | apps/api/src/controllers.ts:974-989 | a new document goes to a live space, under a live category of that space or none |
| CategoryForest.EmptyExactly | apps/api/src/controllers.ts:3348-3361 | a category may leave its space if and only if no live document and no live category names it |
| CategoryForest.Categories.MeetsOnTheWayUp | apps/api/src/controllers.ts:3334-3346 | the unguarded walk ends and finds the category if and only if the new parent is below it |
| CategoryForest.Categories.Update | apps/api/src/controllers.ts:3309-3389 | every outcome in the order of the checks; the forest stays closed within spaces and filed documents stay in their category's space |
| CategoryForest.Categories.Delete | apps/api/src/controllers.ts:3392-3422 | documents are unfiled, children move up, no live row changes its space, the forest is kept |
| Der.Length | apps/api/src/timestamp.ts:4-9 | the loop computes the length bytes the lemmas are about |
| Der.LengthRoundTripExactly | apps/api/src/timestamp.ts:4-9 | one to four size bytes that denote the size if and only if it is below 2^31 |
| Der.LengthIsMinimal | apps/api/src/timestamp.ts:4-9 | short form whenever it fits, otherwise no byte string denoting the size is shorter |
| Der.ReadTlvLoop | apps/api/src/timestamp.ts:47-62 | the reading loop computes tag, start and end, or the error |
| Der.TlvRoundTripExactly | apps/api/src/timestamp.ts:10-62 | reading where a value was written returns its tag and bytes, whatever surrounds them, if and only if it is below 2^31 bytes |
| Der.IntegerIsMinimalExactly | apps/api/src/timestamp.ts:13-14 | same non-negative number; in DER form if and only if the bytes have no superfluous leading zero |
| Der.ArcChunk | apps/api/src/timestamp.ts:19-21 | the inner loop computes the base-128 digits of one arc |
| Der.OidBytes | apps/api/src/timestamp.ts:15-25 | the loop over arcs computes the contents octets |
| Der.OidRoundTripExactly | apps/api/src/timestamp.ts:15-25 | decoding gives the arcs back if and only if they are below 2^31 and the first two fit seven bits |
| Der.Sha256OidBytes | apps/api/src/timestamp.ts:26-38 | the contents octets of id-sha256 |
| Der.ImprintFields | apps/api/src/timestamp.ts:37-40 | algorithm and digest tile the message imprint |
| Der.RequestFields | apps/api/src/timestamp.ts:28-45 | version, imprint, policy, nonce and certReq tile the request in this order, with nothing between or after |
| Der.GrantedResponseYieldsToken | apps/api/src/timestamp.ts:83-102 | a granted response yields exactly its token bytes or the missing-hash or missing-nonce error; any other status is refused |
| Der.NoTokenIsMissing | apps/api/src/timestamp.ts:95 | a granted response that ends with its status has no token |
| Der.OnlySequences | apps/api/src/timestamp.ts:88-89 | any other tag is no response |
| Der.CutShortIsTruncated | apps/api/src/timestamp.ts:60 | a response shorter than its length says is refused for that |
| Der.ContainsExactly | apps/api/src/timestamp.ts:98-100 | the hash and the nonce are looked for as parts of the token |
| OneTimeCodes.DecodeLoop | apps/api/src/auth.service.ts:30-40 | the loop over characters computes the decoded bytes or fails on an unknown one |
| OneTimeCodes.Base32RoundTrip | apps/api/src/auth.service.ts:30-49 | decoding undoes encoding for every byte string, any letter case and any padding |
| OneTimeCodes.LettersOfTable | apps/api/src/auth.service.ts:25 | the alphabet of RFC 4648, letter by letter |
| OneTimeCodes.EncodedDenotes | apps/api/src/auth.service.ts:42-49 | the letters denote in base 32 the number the bytes denote in base 256, with zeros added at the end |
| OneTimeCodes.DecodeFailsExactly | apps/api/src/auth.service.ts:32-35 | decoding fails if and only if a character is no letter, digit 2 to 7 or trailing padding |
| OneTimeCodes.CounterBytesInjective | apps/api/src/auth.service.ts:52-54 | distinct time steps are distinct messages |
| OneTimeCodes.Truncated | apps/api/src/auth.service.ts:58-59 | the four bytes lie inside the digest and the number has at most six digits |
| OneTimeCodes.CodeShowsFourBytes | apps/api/src/auth.service.ts:58-61 | the code is the number of the four bytes that follow as many bytes as the last nibble says, whatever the digest |
| OneTimeCodes.DecimalDenotes | apps/api/src/auth.service.ts:59-61 | the padded digits denote that number |
| OneTimeCodes.VerifyTotp | apps/api/src/auth.service.ts:623-631 | accepts exactly the codes of the three steps looked at, one per clock reading |
| OneTimeCodes.TotpWindow | apps/api/src/auth.service.ts:623-631 | within one step exactly T-1, T and T+1 pass; what is missed when a step begins between readings |
| SmtpReader.LinesConcat | apps/api/src/alert-delivery.service.ts:340-350 | cutting what is left plus what arrives continues cutting the whole |
| SmtpReader.LinesAreTerminated | apps/api/src/alert-delivery.service.ts:343-345 | lines joined with CRLF plus the rest are the text, and no line contains CRLF |
| SmtpReader.Reader.OnData | apps/api/src/alert-delivery.service.ts:340-350 | after a chunk the reader is in the state of the whole text received |
| SmtpReader.Reader.Next | apps/api/src/alert-delivery.service.ts:351-354 | a read adds one ticket and keeps the reader in the state of text and reads |
| SmtpReader.NeverBoth | apps/api/src/alert-delivery.service.ts:346-354 | a waiting read and a queued line never exist together |
| SmtpReader.Replay | apps/api/src/alert-delivery.service.ts:336-354 | any interleaving of chunks and reads leaves the state determined by text and number of reads |
| SmtpReader.FramingIgnoresChunks | apps/api/src/alert-delivery.service.ts:336-354 | two readers fed the same text in different chunks and interleavings end alike, read k holding line k |
| SmtpReader.ReadReply | apps/api/src/alert-delivery.service.ts:355-360 | a reply consumes its own lines, all of them and no other, and is judged by its last line |
| SmtpReader.ReplyIsUnique | apps/api/src/alert-delivery.service.ts:357-358 | a reply starting at a line has one extent |
| SmtpReader.ContinuationExactly | apps/api/src/alert-delivery.service.ts:357 | a line goes on if and only if it is a three-digit code, a hyphen and a text |
| SmtpReader.CodeExactly | apps/api/src/alert-delivery.service.ts:358 | a line has the expected code if and only if its first three characters are that code |
| SmtpReader.WrittenIsReply | apps/api/src/alert-delivery.service.ts:355-360 | the lines a server writes for a reply form one whole reply |
| SmtpReader.ReadWritten | apps/api/src/alert-delivery.service.ts:355-360 | reading a written reply consumes exactly its lines and accepts it if and only if its code is the expected one |
| StorageTargets.Copy.ApplyEdit | apps/api/src/storage-targets.service.ts:171-204 | which edits are refused, and the copy an accepted one saves |
| StorageTargets.AcceptedEditIsApplied | apps/api/src/storage-targets.service.ts:184-201 | what an accepted edit changes and what it leaves |
| StorageTargets.EditRefusedExactly | apps/api/src/storage-targets.service.ts:185-200 | when an edit is refused |
| StorageTargets.Copy.MarkTested | apps/api/src/storage-targets.service.ts:206-212 | the copy a test saves |
| StorageTargets.Store.Save | apps/api/src/storage-targets.service.ts:214-227 | compare-and-set on the revision that was read |
| StorageTargets.SuccessWasProbed | apps/api/src/storage.service.ts:290-306 | in every interleaving enabled implies success, success was probed with the stored credentials, and neither the destination nor server-managed credentials change |
| StorageTargets.ReusedRevisionBreaks | apps/api/src/storage.service.ts:85-92 | from any fresh target, a run with a revision drawn twice that records success for credentials no probe used |
| Delivery.MailJob.ServeRecipient | apps/api/src/notification.service.ts:802-817 | one recipient: skipped if accepted, otherwise sent to and saved, or the attempt ends |
| Delivery.MailJob.Process | apps/api/src/notification.service.ts:785-818 | a normal return means all recipients are accepted; accepted only grows, by recipients of this attempt |
| Delivery.Retry | apps/api/src/notification.service.ts:785-818 | over any attempts a recipient is mailed once if accepted, plus once per attempt that died before saving it |
| Delivery.RecipientIs | apps/api/src/notification.service.ts:804 | a recipient's name is the address without the blanks around it, in lower case |
| Delivery.DelayBacksOff | apps/api/src/notification-outbox.ts:25 | retry delays start at half a minute and double up to an hour |
| Delivery.ServedAt | apps/api/src/notification-outbox.ts:19-23 | what dispatching writes on each served entry |
| Delivery.PostponedIsDueLater | apps/api/src/notification-outbox.ts:24-32 | after a caught failure an entry is due again exactly when its delay has passed |
| Delivery.DuePageIs | apps/api/src/notification-outbox.ts:12-16 | the query takes due entries, at most 100, the longest waiting first, and leaves only later ones |
| Delivery.Outbox.ServeEntry | apps/api/src/notification-outbox.ts:18-38 | one entry: marked, postponed after a caught failure, or untouched when the process dies |
| Delivery.Outbox.Dispatch | apps/api/src/notification-outbox.ts:7-41 | query and loop: whole new table for any failure or crash; whatever is marked queued was handed over |
| Delivery.OldPageIs | apps/api/src/notification-outbox.ts:60-64 | the clean-up takes entries queued over thirty days ago, at most 1000, and all of them if fewer |
| Delivery.Outbox.Purge | apps/api/src/notification-outbox.ts:60-68 | only entries handed to the queue are deleted, so no inserted entry is lost |
| Retention.DestructionIsSafe | apps/api/src/ged-worker.ts:216-311 | in every interleaving claims see an approval and no hold, name two people unless an approval was overtaken, and no removed object is used by another document |
| Retention.PassesExactly | apps/api/src/governance.controller.ts:883-915 | the checks of a decision |
| Retention.DecisionsWereAllowed | apps/api/src/governance.controller.ts:883-915 | in every interleaving destruction is requested without a hold and after the retention, and decided on a request |
| Retention.ScanSeesAll | apps/api/src/ged-worker.ts:228-262 | the worker sees the stored and the distributed file of every version |
| Retention.DestructionIsComplete | apps/api/src/ged-worker.ts:263-284 | a closed destruction has removed every file it saw, unless purged before or used by another document |
| Retention.ClaimsAreApart | apps/api/src/ged-worker.ts:220-249 | an undisturbed destruction is not claimed again within 30 minutes |
| Retention.TwoPeopleExactly | apps/api/src/governance.controller.ts:883-936 | every approved or running destruction of a run names two people if and only if no approval was overtaken between its read and its write |
| Retention.AtomicHandlersNameTwo | apps/api/src/governance.controller.ts:883-936 | if each approval's check still holds at its write, all of them name two people |
| Retention.OvertakenRun | apps/api/src/governance.controller.ts:889-936 | a run in which one person requests and approves |
| Retention.ClosesOnHoldExactly | apps/api/src/ged-worker.ts:248-300 | a destruction closes under a hold if and only if the last rule saved since the claim set one; undisturbed, it closes on the two people it was claimed with |
| Retention.HoldAfterClaimIsIgnored | apps/api/src/ged-worker.ts:297-300 | from any state before the closing step, a hold may be saved and the destruction still closes, on a policy that names nobody |
| VersionLabels.LatestIsMax | apps/api/src/version-label.ts:33-35 | the reduced row has the highest version |
| VersionLabels.GroupByLocale | apps/api/src/version-label.ts:26-31 | the map holds the rows of each language in order |
| VersionLabels.Versions.PromoteLatestToMajor | apps/api/src/version-label.ts:12-43 | the loop over languages, in any order, promotes the latest row of each and nothing else |
| VersionLabels.PublicationMakesMajor | apps/api/src/version-label.ts:8-11 | after publication the latest version has minor 0 and a major above all others |
| VersionLabels.AppendKeeps | apps/api/src/ged.controller.ts:573-588 | a new row after the latest continues numbers, labels and comparisons |
| VersionLabels.RestorableExactly | apps/api/src/ged.controller.ts:579-580 | a version may be restored if and only if its language has a newer one |
| VersionLabels.EveryRunIsNumbered | apps/api/src/controllers.ts:1045-1096 | in every run versions are consecutive, labels step by one minor or to the next major, each upload was compared with its predecessor, and only older versions are restored |

## Left out

- Traffic with LDAP, Microsoft Graph, S3, SMB, Redis, ClamAV and the time-stamp authority: only success, failure or a crash of the call is modelled.
- Extraction of paragraphs from PDF and Office files, and the XML helpers of the comparison: the comparison starts from lists of lines.
- `generalizedTime`, a scan for a date in the token; and reading a header that runs past the buffer, where the program reads `undefined` and the model returns `ShortHeader`.
- Time-stamping of seals and stored files, and the token, pending and timestamp fields of the verifier's report, which do not affect its verdict; the report lists only the first 20 findings.
- Runs of the journal assume that an event is inserted within five minutes of the instant it carries, that the purge spares the newest chained event and does not split events of one instant. What happens without each of the three is stated by the lemmas on the purge, the restart and late events named above, on one step each and not over runs.
- Callers with an administrator or moderator group, and the ancestors `permittedSpaces` adds for `showMenu`. Group names are compared as already lower-cased.
- Category slugs and names, audit records and notifications written by the handlers, and hard deletion of documents. Category handlers are single steps except where a lemma says otherwise; more than two category writes on one reading are not considered.
- Antivirus status and document status of uploads; the derivation of receipt ids, which are given as keys.
- A chunk boundary inside a multi-byte character, which the SMTP reader decodes per chunk; codes such as ` 50` that `Number` accepts although they are not three digits.
- Upper and lower case and trimming outside ASCII in base32 secrets and mail addresses. Clock readings before 1970-01-01T00:00:30, for which `writeBigUInt64BE` throws.
- Several queue workers on one mail job at once, jobs whose resource is no longer eligible, and the review bookkeeping after the mails.
- Legacy versions without labels and moves of a version to another language, which can break the order of labels.
- Deletion and creation of storage targets; the probe's own object names.
