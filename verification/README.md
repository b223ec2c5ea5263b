# Verified models of the store operations backend

This project models the parts of the backend whose behaviour is hardest to see from the code,
and proves what they promise. Each module carries the state of the code it models: classes with
the same fields where the code mutates an object, loops where it loops, and functions where it
only computes. Specification functions beside the methods carry the theorems.

| part of the system | files |
|---|---|
| RTP/H.265 receive path: parsing, reassembly, grouping into access units | Bytes, Rtp, Depacketizer, LossSafety, Capture, AccessUnits, SentMedia, WholeStream |
| JSON object scanner for model answers | JsonGrammar, JsonScan |
| Login sessions: in-memory store, MySQL store, single use of a credential | AuthSession, MySQLSession, SessionCreates, SingleUse |
| Resource view of a store: relations, indexes, space forest, issues | Sorting, Strings, SpaceForest, SpacePaths, AreaRelations, StoreBindings, StoreCameras, StoreIssues, StoreDetail |
| Similar store names | EditDistance |
| Monitor stream slots per user | MonitorConcurrency |
| Snapshot save, audit and rollback, also overlapping; snapshot backfill | SnapshotTransaction, SnapshotWriters, SnapshotBackfill |
| Digital-twin whitelist with compare-and-set | DigitalTwinSettings, Decimals |
| Asset inventory, manifest and copy | AssetInventory, AssetKeys, AssetManifest, Assets |

`dafny verify dfyconfig.toml` checks everything.

## How the outside world enters

Bytes are 8-bit vectors; 16-bit sequence numbers are integers modulo 65536. Time is a parameter:
nanoseconds in the memory store, milliseconds per statement in the MySQL store. Every failure of a
database, a provider, an object store or an audit log is an input of the method that meets it, so a
theorem "for every run" is also for every pattern of failures. Hashes are taken to be injective and
random tokens to be fresh. Sorting is "some sorted permutation", map iteration is "some order".

The receive path follows sections 5.1 of RFC 3550 and 4.4.1 and 4.4.3 of RFC 7798 only as far as
the code does; the JSON grammar is that of sections 2 to 7 of RFC 8259.

## What the proofs turned up

- A fragment whose header has both the start and the end bit set is accepted as a whole NAL, although
  RFC 7798 forbids it; the model follows the code.
- Loss safety holds for every number of packets lost in a row except the positive multiples of 65536,
  where the sequence number comes round: exactly after those a fragment can be taken for another and
  halves of two NALs leave as one (`TakenForAwaited`, `SplicesExactlyWhenWrapping`).
- `spacePath` does not return on a space on a cycle of parents or below one, and exactly these spaces
  are missing from the tree, without an issue being raised (`HangsExactlyOnCycles`, `CyclesVanish`,
  `TwoParentsVanish`).
- A touch of the MySQL store whose clock is set back between its statements still answers like an
  in-memory touch at some instant, except that it may refuse a live session as idle when its second
  reading is past the 8 hours and its third is back before them (`MatchedByTouch`, with a witness in
  `ClockMustNotRunBack`); `MatchedAtReading` says when the instant can be one of the readings.
- The two session stores give different status answers for a session that is both revoked and eight
  hours old (`StatusAgreement`, `StatusDiffers`).
- The MySQL store trims a credential subject before it looks for the fingerprint format, locks an enabled
  user for it, and compares without regard to case, because of the collation of its column
  (db/mysql_auth_sessions.sql:100); the memory store does none of these. So both give a creation the same
  answer whatever is consumed exactly if a fingerprint comes trimmed, in lower case and for an enabled user
  (`CreateAnswers`), and leave the same sessions exactly if every subject comes trimmed besides
  (`CreateAgreement`); `DifferentAnswers` has one call for each way to differ. A login always passes a
  trimmed fingerprint in lower case (internal/app/auth.go:317), and runs of such creations of enabled users
  get the same answers from both stores (`PlainRunsAgree`).
- Every disable request for a URL that is not live can let its user hold one stream more than the limit:
  with n of them a user with the limit of 15 can hold 15 + n (`HeldIsCountPlusDebt`,
  `StraysExceedLimit`). The count is exact all the way exactly when each came while its user had no
  entry (`ExactAllTheWay`).
- The rollback of a snapshot restores the bytes but writes them as `image/jpeg`; that is the only change
  a refused upload can leave, and exactly when the old object had another type (`SaveSnapshot`, `TypeLost`).
- When requests for one camera overlap, a rollback can remove an upload that was already answered 204
  (`AcceptedUploadLost`), and two refused uploads can leave refused bytes behind
  (`RefusedUploadStays`). The object stays right at every moment exactly when what a rolled-back request
  read still stands and every other save since its reading was taken back before (`BytesAllTheWay`); at
  rest the last write decides in the same way (`UndisturbedIsLastAnswered`); one request at a time is
  enough (`OneAtATimeIsRight`).
- The version of the digital-twin list is a hash of its content, so an update that read an old version
  succeeds again once the list has come back to it: any later update succeeds by naming the version that
  the last success left, however old (`SuccessNamesLastVersion`), as after the lists 1, 2 and 1 again
  (`OldVersionReturns`).
- With an organisation filter, a run does not copy every object that the organisation references: it takes
  an object exactly when the first row that names it passes the filter (`TakenByKey`), so of two rows of
  different organisations that share an object only the first organisation gets it (`SharedObjectMissed`).

## Model

| member | source | states |
|---|---|---|
| Depacketizers.RefusedIsDemuxFailed | internal/nvrsnapshot/depacketizer.go:108-210 | every refusal has the one code and drops what was being assembled |
| Rtp.ParseEncode | internal/nvrsnapshot/depacketizer.go:45-72 | reading what a sender writes gives back sequence number, timestamp, marker and payload |
| Rtp.EncodeParse | internal/nvrsnapshot/depacketizer.go:45-72 | a packet is accepted exactly when it is the encoding of some packet with a payload: version 2, no padding, extension or sources, payload type 96; everything else is refused |
| Depacketizers.EmittedShape | internal/nvrsnapshot/depacketizer.go:121-210 | from a state whose buffer is in order, any packet leads to such a state and emits only a start code plus a NAL of a type other than 48-50 within the size limit |
| LossSafety.AnyInputShape | internal/nvrsnapshot/depacketizer.go:108-210 | whatever bytes a new depacketizer is fed, its buffer is in order and what it emits is such a NAL |
| Depacketizers.Depacketizer.constructor | internal/nvrsnapshot/depacketizer.go:85-89 | a new depacketizer is idle with the default limit of 4 MiB |
| Depacketizers.Depacketizer.WithMaxBytes | internal/nvrsnapshot/depacketizer.go:91-98 | a negative limit counts as 0 |
| Depacketizers.Depacketizer.FeedRTPWithMetadata | internal/nvrsnapshot/depacketizer.go:108-119 | one packet moves the fields and answers as the reassembly function says; every error resets the assembly |
| Depacketizers.Depacketizer.Feed | internal/nvrsnapshot/depacketizer.go:121-145 | single NALs pass or are refused by type, length and limit, and always drop a pending assembly |
| Depacketizers.Depacketizer.FeedFragment | internal/nvrsnapshot/depacketizer.go:142-201 | start, continuation and end of a fragmentation unit against the awaited sequence number, type, indicator and timestamp |
| Depacketizers.Depacketizer.FinishFU | internal/nvrsnapshot/depacketizer.go:212-216 | the buffer leaves as Annex B and the state is idle |
| Depacketizers.Depacketizer.Reset | internal/nvrsnapshot/depacketizer.go:218-226 | the assembly is dropped |
| LossSafety.AcceptedIsSent | internal/nvrsnapshot/depacketizer.go:45-201 | whatever bytes came before, bytes are accepted if and only if they encode a packet of some NAL of a type other than 48-50 that is a whole NAL or a first fragment that fits, or looks like the fragment awaited and has its number |
| LossSafety.ReceiveExpected | internal/nvrsnapshot/depacketizer.go:108-201 | after any losses (but no positive multiple of 65536 in a row) the receiver holds exactly the unbroken prefix of the NAL being sent, or nothing |
| LossSafety.ExpectedStep | internal/nvrsnapshot/depacketizer.go:121-201 | one more arriving packet keeps that invariant and emits only the right NAL |
| LossSafety.LossSafe | internal/nvrsnapshot/depacketizer.go:108-201 | a NAL is emitted exactly when its last packet arrives straight after all its other packets and it fits; the output is that NAL, its timestamp and marker; never a splice of two |
| LossSafety.EmittedInOrder | internal/nvrsnapshot/depacketizer.go:108-201 | emissions keep the sending order and no NAL is emitted twice |
| LossSafety.RoundTrip | internal/nvrsnapshot/depacketizer.go:142-216 | every NAL that fits, cut into fragments in any way, from any sequence number and any prior state: no output before the last packet, no refusal, and then start code plus the NAL |
| LossSafety.AwaitedPacket | internal/nvrsnapshot/depacketizer.go:164-170 | unless a positive multiple of 65536 packets is lost, the awaited 16-bit number means the awaited packet |
| LossSafety.ReassembledPrefix | internal/nvrsnapshot/depacketizer.go:154-199 | the rebuilt header and the first fragments are a prefix of the original NAL, and the NAL itself at the end |
| LossSafety.ContinuationFed | internal/nvrsnapshot/depacketizer.go:182-201 | a fragment that is not a first one is taken exactly when number, header bytes, type and timestamp match and it fits, whatever NAL it belongs to |
| LossSafety.TakenForAwaited | internal/nvrsnapshot/depacketizer.go:164-201 | after any losses that do not wrap and then any number in a row, such a fragment is taken exactly when it matches and the number lost is a multiple of 65536; only with none lost is it the awaited one |
| LossSafety.SpliceAfterWrap | internal/nvrsnapshot/depacketizer.go:164-201 | for every positive multiple of 65536 packets lost some stream makes the receiver emit a NAL that nobody sent |
| LossSafety.SplicesExactlyWhenWrapping | internal/nvrsnapshot/depacketizer.go:164-201 | and for no other number lost between two packets |
| Capture.AccessUnit.Append | internal/nvrsnapshot/capture.go:287-294 | an inactive unit takes the timestamp of its first NAL, an active one keeps its own; bytes and key-frame mark accumulate (the caller resets first on another timestamp) |
| Capture.AccessUnit.Reset | internal/nvrsnapshot/capture.go:296-302 | the unit is empty and inactive |
| Capture.CombineAccessUnit | internal/nvrsnapshot/capture.go:346-363 | the three parameter sets and the unit in order, or nothing when they are empty or exceed 8 MiB, whatever the size of the unit |
| Capture.HandleUnit | internal/nvrsnapshot/capture.go:231-274 | one completed NAL either changes parameter sets or open unit or ends the capture with media or an error, as the specification of the loop body says |
| Capture.CaptureMedia | internal/nvrsnapshot/capture.go:217-274 | the loop over the messages returns what the fold of that specification returns, which `CaptureMeaning`, `FailureMeaning` and `WaitingMeaning` explain for every result |
| Capture.StopsFor | internal/nvrsnapshot/capture.go:217-274 | once stopped, later messages never matter |
| AccessUnits.GroupExtends | internal/nvrsnapshot/capture.go:250-262 | a media NAL either starts a group or extends the maximal group of equal timestamps since the last marker |
| AccessUnits.RunMeansVerdict | internal/nvrsnapshot/capture.go:217-274 | before the first verdict the loop holds the latest parameter sets and the open group; the first verdict is its result |
| AccessUnits.RunIsRunUnits | internal/nvrsnapshot/capture.go:217-250 | reading messages and handling the units they complete is the same as demultiplexing first and handling the units after |
| AccessUnits.CaptureMeaning | internal/nvrsnapshot/capture.go:217-274 | media reaches the decoder if and only if, all reads being good so far, the first unit with a verdict completes an access unit with marker, key frame and all three parameter sets; the media is latest VPS, SPS, PPS and that group |
| AccessUnits.FailureMeaning | internal/nvrsnapshot/capture.go:222-270 | a capture fails with a code if and only if some message is the first to end it, all before being well received without a verdict: the deadline with the media timeout, a failed read with the connection failure, a message that is not binary or is refused, or one that completes more than 8 MiB, with the demux failure |
| AccessUnits.WaitingMeaning | internal/nvrsnapshot/capture.go:222-270 | it goes on if and only if all messages are well received without a verdict |
| AccessUnits.KindAgrees | internal/nvrsnapshot/capture.go:312-375 | the classification of units is that of the type numbers: 32, 33 and 34 are the parameter sets, 16 to 21 key frames, for what starts with a start code |
| AccessUnits.DecodesAfter | internal/nvrsnapshot/capture.go:217-274 | the message after which the decoder gets its media exists and is the one that completes the access unit |
| AccessUnits.DecodedWithinBounds | internal/nvrsnapshot/capture.go:346-375 | the media starts with the last video, sequence and picture parameter sets in this order, ends with a group that has a key frame of type 16-21, and stays within 8 MiB |
| SentMedia.UnitsAreSent | internal/nvrsnapshot/capture.go:217-250 | the units a capture sees over a lossy network are sent NALs at increasing positions |
| SentMedia.DecodedMediaWasSent | internal/nvrsnapshot/capture.go:217-274 | across parser, reassembly and grouping: whatever the network loses, the media is made of whole NALs that were sent, in sending order |
| JsonGrammar.BracedJsonIsObject | internal/channelai/minimax_recognizer.go:228-234 | a text in braces is valid JSON exactly when it is an object of the grammar |
| JsonScan.ObjectBodyIsBalanced | internal/channelai/minimax_recognizer.go:204-226 | between its braces every object of the grammar returns to its depth outside strings and never falls below it |
| JsonScan.ObjectClosesAtItsEnd | internal/channelai/minimax_recognizer.go:204-226 | the string-aware depth counter first reaches 0 exactly at the last character of every object |
| JsonScan.ScanCandidate | internal/channelai/minimax_recognizer.go:204-226 | the scan finds the first return to depth 0 from a brace, or that there is none |
| JsonScan.ObjectEndsAtClose | internal/channelai/minimax_recognizer.go:204-246 | if any object starts at a brace, it ends where the scan closes |
| JsonScan.FirstJSONObject | internal/channelai/minimax_recognizer.go:198-246 | the object starting at the leftmost position where any object starts that is valid and nested at most 10000 deep; nothing if and only if the text holds no such object |
| JsonScan.ExtractModelJSONText | internal/channelai/minimax_recognizer.go:187-196 | the text itself when it passes the validity test or holds no such object, and else its leftmost one |
| JsonScan.ObjectsSurviveTrim | internal/channelai/minimax_recognizer.go:198-246 | trimming white space neither loses nor creates objects |
| WholeStream.CompleteUnits | internal/nvrsnapshot/depacketizer.go:108-201 | while nothing is lost and every NAL is within 4 MiB, the units seen are exactly the NALs whose last packet has arrived |
| WholeStream.CaptureOfWholeStream | internal/nvrsnapshot/capture.go:217-274 | a capture of a stream that arrives whole stops with an outcome if and only if that is the first verdict on the NALs as the sender made them |
| AuthSession.MemoryAuthSessionStore.constructor | internal/app/auth_session.go:92-94 | the store starts without sessions |
| AuthSession.MemoryAuthSessionStore.CreateAuthSession | internal/app/auth_session.go:96-121 | a consumed fingerprint of the same user is refused and nothing changes; otherwise the session lives 30 minutes |
| AuthSession.MemoryAuthSessionStore.TouchAuthSession | internal/app/auth_session.go:123-150 | the verdict and the new row: activity never moves back, the deadline is the earlier of 30 minutes idle and 8 hours in all |
| AuthSession.MemoryAuthSessionStore.RevokeAuthSession | internal/app/auth_session.go:166-181 | only an unrevoked session of that user is revoked |
| AuthSession.MemoryAuthSessionStore.GetAuthSessionStatus | internal/app/auth_session.go:34-53 | remaining milliseconds or the refusal, the row unchanged |
| AuthSession.FingerprintFormat | internal/app/auth_session.go:157-164 | a fingerprint is the prefix jwt-sha256:v1: and 64 hexadecimal digits |
| AuthSession.ReachableRowsOK | internal/app/auth_session.go:96-181 | in every run each row keeps created <= activity < created + 8h and expires = min(activity + 30min, created + 8h) |
| AuthSession.TouchMeaning | internal/app/auth_session.go:123-150 | told by the history alone: a touch succeeds exactly when the token was created for this user less than 8 hours ago, was not revoked, and was created or touched less than 30 minutes ago |
| AuthSession.RefusalMeaning | internal/app/auth_session.go:123-140 | a refusal names the absolute timeout exactly when the token was created for this user at least 8 hours ago and not revoked since |
| AuthSession.StatusMeaning | internal/app/auth_session.go:34-53 | told by the history alone: the whole milliseconds to 30 minutes after the last activity or to the end of the 8 hours, and to that end, exactly while both are positive |
| AuthSession.RefusedCreation | internal/app/auth_session.go:108-114 | told by the history alone: a creation is refused exactly when its fingerprint was used by the last creation of some token for the same user |
| AuthSession.NeverRegresses | internal/app/auth_session.go:123-181 | even if the clock runs backwards, activity and deadlines never decrease and a revoked session stays revoked |
| AuthSession.RefusedForever | internal/app/auth_session.go:123-150 | under a monotone clock a refused session is refused by every later touch |
| AuthSession.FingerprintUsedOnce | internal/app/auth_session.go:108-114 | in every run a user opens at most one session with a fingerprint, expired and revoked ones included |
| AuthSession.StatusAgreesWithTouch | internal/app/auth_session.go:34-53 | a positive status implies that a touch succeeds, and the other way round once a millisecond is left |
| MySQLSession.MySQLStore.CreateAuthSession | internal/app/mysql_store.go:119-170 | with a fingerprint, a session is inserted exactly when the user row is enabled and no row consumed it in any spelling; a failed call is answered as one exactly when it is reached, and leaves the table unchanged |
| MySQLSession.MySQLStore.TouchAuthSession | internal/app/mysql_store.go:172-225 | conditional UPDATE, then the two SELECTs; a failed call or commit is answered as an error exactly when it is reached, and leaves the table unchanged |
| MySQLSession.MySQLStore.GetAuthSessionStatus | internal/app/mysql_store.go:227-246 | the answer that `StatusAgreement` compares with the memory store, or none when the query fails: the absolute limit is looked at before the revocation |
| MySQLSession.MySQLStore.RevokeAuthSession | internal/app/mysql_store.go:248-257 | an owned unrevoked row gets the revocation time and is refused at every clock from then on; a first revocation is final, every other row keeps its value, and a failed UPDATE changes nothing |
| MySQLSession.TouchRefines | internal/app/mysql_store.go:59-92 | over clock readings that do not run back, the three statements act as one in-memory touch at the first or the last of them: same verdict, same rows, also when the UPDATE changes nothing and reports 0 rows |
| MySQLSession.MatchedByTouch | internal/app/mysql_store.go:172-225 | over any clock readings, some in-memory touch gives the same answer and rows if and only if it is not a live row with the 8-hour deadline, unchanged by the UPDATE, whose second reading is past it and whose third is before it |
| MySQLSession.MatchedAtReading | internal/app/mysql_store.go:172-225 | and the exact condition on row and readings for such a touch at one of the three readings |
| MySQLSession.ClockMustNotRunBack | internal/app/mysql_store.go:172-225 | a session one minute short of 8 hours and three readings whose answer no in-memory touch gives at any instant |
| MySQLSession.RunRefines | internal/app/mysql_store.go:119-225 | every run of the SQL store whose readings meet that condition, and whose refused creations are of enabled users with a fingerprint in plain spelling over a table of such, has the same sessions, after every operation, as a run of the memory store |
| MySQLSession.AnswersRefine | internal/app/mysql_store.go:119-225 | and every creation, touch and revocation in it gets the same answer |
| MySQLSession.StatusAgreement | internal/app/mysql_store.go:94-101 | the status queries of both stores agree if and only if the session is not both revoked and 8 hours old |
| MySQLSession.StatusDiffers | internal/app/mysql_store.go:94-101 | a session revoked early and asked about at 8 hours, with the two answers |
| SessionCreates.ConsumedAgreement | internal/app/mysql_store.go:52-57 | over all tables of plainly spelled fingerprints, both stores agree on whether a fingerprint is consumed if and only if its own letters are in lower case |
| SessionCreates.CreateAnswers | internal/app/mysql_store.go:119-170 | both stores accept or refuse a creation alike over all such tables if and only if a subject that is a fingerprint once trimmed is trimmed already, in lower case and of an enabled user |
| SessionCreates.CreateAgreement | internal/app/mysql_store.go:119-170 | same answer and same sessions if and only if, besides, the subject is trimmed already |
| SessionCreates.DifferentAnswers | internal/app/mysql_store.go:119-170 | one row and three creations, in capitals, with a space in front and for a user who is not enabled: refused by the MySQL store, accepted by the memory store |
| SessionCreates.PlainRunsAgree | internal/app/auth.go:316-319 | in every run whose creations are as a login makes them and of enabled users, every operation gets the same answer from both stores, each creation being the very same call |
| SingleUse.StepKeepsSafe | internal/app/mysql_store.go:133-161 | every statement of every transaction keeps the locking invariant |
| SingleUse.RunIsSafe | internal/app/mysql_store.go:133-161 | the invariant holds after every interleaving |
| SingleUse.FingerprintCommitsOnce | internal/app/mysql_store.go:133-161 | no interleaving commits two sessions of one user with one fingerprint, however it is spelled |
| SingleUse.RecordsStay | internal/app/mysql_store.go:52-57 | a consumed fingerprint stays consumed after revocation or expiry |
| SingleUse.TwoCommitsDiffer | internal/app/mysql_store.go:133-161 | two transactions that both commit differ in user or fingerprint |
| SingleUse.FreshFingerprintCommits | internal/app/mysql_store.go:133-161 | after any run an unused fingerprint of an enabled user can still commit |
| SingleUse.OthersRollBack | internal/app/mysql_store.go:133-155 | of a user who is not enabled, or with a consumed fingerprint, a transaction ends without a record |
| SingleUse.CheckAloneIsNotEnough | internal/app/mysql_store.go:46-57 | without the row lock a run commits one fingerprint twice |
| Strings.StringLeMeans | internal/resourceview/service.go:887-897 | a string comes before another if it is a prefix or has the smaller character where they part |
| Sorting.SortingUnique | internal/resourceview/service.go:887-897 | where equal rank means equal there is one sorted permutation, so unstable sorting does not show |
| SpaceForest.GroupChildren | internal/resourceview/service.go:734-749 | each space is listed once, under its parent or under 0 when the parent is missing, sorted |
| SpaceForest.TreeIsTheRootedSpaces | internal/resourceview/service.go:734-767 | the recursion terminates and the nodes are exactly the spaces whose parent chain reaches 0 or a missing parent, each once, with its cameras, under its own parent |
| SpaceForest.AcyclicTreeHoldsEverySpace | internal/resourceview/service.go:734-767 | without cycles the tree is a rearrangement of all spaces |
| SpaceForest.CyclesVanish | internal/resourceview/service.go:734-767 | a space is in no node if and only if it is on a cycle of parents or below one |
| SpaceForest.TwoParentsVanish | internal/resourceview/service.go:734-767 | two spaces that are each other's parent and one below them: none is in the tree |
| SpaceForest.TreeInOrder | internal/resourceview/service.go:744-767 | on every level of the tree siblings come by level, sort order and ID |
| SpaceForest.SameIndexSameTree | internal/resourceview/service.go:734-767 | the tree depends only on the cameras the index gives each space |
| SpacePaths.SpacePath | internal/resourceview/service.go:813-824 | the loop returns the names from the root down |
| SpacePaths.PathExtendsParent | internal/resourceview/service.go:813-824 | a path is the path of the parent, the separator and the own name |
| SpacePaths.HangsExactlyOnCycles | internal/resourceview/service.go:813-824 | the walk does not end if and only if the space is on a cycle of parents or below one |
| SpacePaths.PathEndsExactlyInTree | internal/resourceview/service.go:813-824 | the walk ends exactly on the spaces of the tree |
| AreaRelations.NormalizedRelations | internal/resourceview/service.go:298-323 | one relation per trimmed key, the one with the lowest ID, in ID order |
| AreaRelations.LowestByKey | internal/resourceview/service.go:300-315 | the map holds the lowest relation of every key |
| AreaRelations.NormalizedOrderIndependent | internal/resourceview/service.go:298-323 | for unique IDs the result does not depend on input order, map order or tie-breaking |
| AreaRelations.ConnectionsSurvive | internal/resourceview/service.go:325-352 | deduplication and filtering lose no device-space connection |
| StoreBindings.BuildValidBindings | internal/resourceview/service.go:493-538 | camera c is listed under space s exactly when s is listed under c exactly when an applicable relation joins them; lists strictly ascending |
| StoreCameras.BuildCameras | internal/resourceview/service.go:354-401 | one camera per camera device with its sorted space paths, in ID order |
| StoreCameras.BuildSummary | internal/resourceview/service.go:550-595 | the camera counters, bound and unbound counted over the index |
| StoreCameras.CamerasUnique | internal/resourceview/service.go:382-400 | unique device IDs give unique cameras |
| StoreCameras.PathsMatchBindings | internal/resourceview/service.go:361-380 | each camera has as many space paths as bound spaces, although two passes compute them |
| StoreCameras.PathsAreOfBindings | internal/resourceview/service.go:361-392 | the space paths of a camera are exactly the paths of the spaces it is bound to, in text order |
| StoreCameras.UnboundCountsAgree | internal/resourceview/service.go:550-595 | the unbound counter equals the number of cameras without a path |
| StoreIssues.BuildIssues | internal/resourceview/service.go:607-732 | each issue is in the list exactly if the records call for it: a relation without a camera or without a space, a related space whose status is not 1, a camera whose NVR is missing, without a path or not online, an edge or NVR not online, several bindings of one camera or one space; each once, in the sorted order |
| StoreIssues.IssueOrder | internal/resourceview/service.go:887-897 | the list is ordered by the spelling of the type and then by entity ID |
| StoreIssues.KeyDetermines | internal/resourceview/service.go:607-732 | surviving issues have pairwise distinct type, entity type and entity ID |
| StoreIssues.IssueListUnique | internal/resourceview/service.go:887-897 | two lists of one store are equal whatever the map order and the sort do with ties |
| StoreIssues.UnboundIssuesMatchSummary | internal/resourceview/service.go:662-670 | the number of unbound-camera issues is the unbound counter of the summary |
| StoreDetail.NormalizedDevices | internal/resourceview/service.go:265-296 | the devices that are not deleted, trimmed, sorted by kind and ID |
| StoreDetail.BuildStoreDetail | internal/resourceview/service.go:101-130 | the passes together: relations, cameras, converse indexes, tree and issues fit one another, and bound plus unbound cameras are all cameras, the unbound ones those with an issue |
| StoreDetail.ShownDevices | internal/resourceview/service.go:132-144 | the devices shown are the trimmed records that are not deleted, of cameras only those of HikVision NVR channels with status 1: edges, NVRs, cameras, others, each by ID |
| StoreDetail.ShownRelations | internal/resourceview/service.go:325-352 | device and space are related in the view exactly when a relation of the records joins them, the device is such a camera, or absent and called a camera by the function type, and the space is not directly below the consulting area |
| StoreDetail.ShownBindings | internal/resourceview/service.go:493-538 | camera and space are bound, in either index, exactly when the records have such a camera, such a space and a relation of the two |
| StoreDetail.OrderIndependent | internal/resourceview/service.go:101-130 | permuted device records and relations give the same devices, relations, cameras, index, issues, summary and tree |
| EditDistance.MinInt | internal/designplan/duplicate.go:97-105 | a member of the list that none is below |
| EditDistance.LevenshteinDistance | internal/designplan/duplicate.go:63-95 | the two-row table computes the distance for all strings, empty ones included |
| EditDistance.FillRow | internal/designplan/duplicate.go:77-91 | a row of the table from the row above |
| EditDistance.CellRecurrence | internal/designplan/duplicate.go:77-91 | the cell of two prefixes from its three neighbours |
| EditDistance.DistanceIsShortestScript | internal/designplan/duplicate.go:63-95 | the distance is reached by some script of single insertions, deletions and substitutions, and no script is shorter |
| EditDistance.DistSymmetric | internal/designplan/duplicate.go:63-95 | the distance is symmetric |
| EditDistance.Triangle | internal/designplan/duplicate.go:63-95 | the distance satisfies the triangle inequality |
| EditDistance.SimilaritySymmetric | internal/designplan/duplicate.go:37-47 | whatever the normalization, similarity does not depend on which name comes first |
| EditDistance.SimilarityMeaning | internal/designplan/duplicate.go:37-47 | normalized names are similar exactly when they are equal, or neither is empty and one is part of the other or two edits join them |
| MonitorConcurrency.Service.AcquireConcurrency | internal/h5monitor/service.go:298-321 | a slot is taken below the limit of 15, or 20 for an administrator; a refusal leaves the count |
| MonitorConcurrency.Service.ReleaseConcurrency | internal/h5monitor/service.go:323-338 | a slot is given back, and the entry goes with the last one |
| MonitorConcurrency.Service.GetURL | internal/h5monitor/service.go:135-168 | a slot stays taken exactly when the provider answered; each refusal has its reason, the one for the limit with count and limit |
| MonitorConcurrency.Service.Play | internal/h5monitor/handler.go:140-151 | a slot stays taken exactly when the URL reaches the client; a failed audit gives it back; each answer is given exactly for its reason |
| MonitorConcurrency.Service.DisableURL | internal/h5monitor/service.go:239-259 | a slot is given back on every outcome |
| MonitorConcurrency.SharedSlots | internal/h5monitor/service.go:299-302 | user IDs share slots exactly when they agree up to white space around them, blank ones as anonymous |
| MonitorConcurrency.PlayOnItsOwn | internal/h5monitor/handler.go:140-151 | at any moment of any run the steps of one request without interruption are possible and do to every count what `Play` does |
| MonitorConcurrency.CountersBounded | internal/h5monitor/service.go:298-338 | in every interleaving, stray disables included, a stored count is between 1 and 20, or 15 for a user who never came as administrator, and at most what the user holds |
| MonitorConcurrency.CountersExact | internal/h5monitor/service.go:298-338 | if only live URLs of the user are disabled, the count is in-flight requests plus live URLs, and a request is refused exactly at the limit |
| MonitorConcurrency.NothingLeaks | internal/h5monitor/service.go:323-338 | when nothing is held, no entry is left |
| MonitorConcurrency.HeldIsCountPlusDebt | internal/h5monitor/service.go:239-259 | at every moment of every run what a user holds is the count plus the stray disables that found an entry less the requests that ended finding none; so at most the limit plus the stray disables |
| MonitorConcurrency.ExactAllTheWay | internal/h5monitor/service.go:239-259 | the count is exact at every moment if and only if every stray disable came when its user had no entry |
| MonitorConcurrency.StraysExceedLimit | internal/h5monitor/service.go:239-259 | for every n a run with n stray disables after which a user with the limit of 15 holds 15 + n |
| SnapshotTransaction.AssetSnapshotStore.Save | internal/nvrmonitor/snapshot_store.go:36-41 | a positive tenant and camera and a working store write exactly that object |
| SnapshotTransaction.AssetSnapshotStore.SaveSnapshotWithRollback | internal/nvrmonitor/snapshot_store.go:66-103 | the save happens exactly when the old object can be put back: read whole and within 2 MiB, or absent and the store can delete |
| SnapshotTransaction.AssetSnapshotStore.Undo | internal/nvrmonitor/snapshot_store.go:50-64 | the old bytes are back or the object is gone, or nothing happened |
| SnapshotTransaction.SnapshotHandler.SaveAudited | internal/nvrmonitor/handler.go:217-247 | prepare event, save, final event, rollback: objects, answer and audit log in every weather |
| SnapshotTransaction.SnapshotHandler.SaveSnapshot | internal/nvrmonitor/handler.go:188-248 | each request that is refused at once gets the answer of the first check it fails; 204 exactly when all checks, the save and both events succeed, which is exactly when the new bytes are stored and both events logged; any other answer but the failed rollback leaves all bytes as before, and the objects altogether unless a rollback rewrote an object of another type as a JPEG |
| SnapshotTransaction.UndoneTypes | internal/nvrmonitor/snapshot_store.go:50-64 | saved and rolled back, the objects are as before up to the content type, which changes exactly when it was not that of a JPEG |
| SnapshotTransaction.TypeLost | internal/nvrmonitor/snapshot_store.go:50-64 | a stored PNG, replaced and rolled back: the same bytes as a JPEG |
| SnapshotTransaction.KeyInjective | internal/nvrmonitor/snapshot_store.go:118-120 | two cameras never share an object key |
| SnapshotTransaction.KeyText | internal/nvrmonitor/snapshot_store.go:118-120 | tenant 7 and camera 12 have the key nvr-camera-snapshots/7/12.jpg |
| SnapshotTransaction.StoredIsLastAccepted | internal/nvrmonitor/handler.go:188-248 | over any run without a failed rollback each camera holds its last upload answered 204 |
| SnapshotWriters.RightExactly | internal/nvrmonitor/handler.go:217-247 | at any moment of any interleaving the object is the last upload not taken back if and only if its last write was a save, or a rollback by a request whose read still stands and since which every other save is taken back |
| SnapshotWriters.RightAllTheWay | internal/nvrmonitor/handler.go:217-247 | at every moment of a run if and only if, for every rollback, what the request read still stands and every other save between its reading and its rollback was taken back before |
| SnapshotWriters.BytesAllTheWay | internal/nvrmonitor/handler.go:217-247 | the same for the stored bytes, when bytes can tell the uploads apart |
| SnapshotWriters.RightMeansBytes | internal/nvrmonitor/snapshot_store.go:50-103 | the right object has the right bytes, and the other way round when bytes can tell the uploads apart |
| SnapshotWriters.StoredIsLastAnswered | internal/nvrmonitor/handler.go:217-247 | with no request under way and no failed rollback, the stored bytes are those of the last saved upload answered 204 under exactly that condition on the last write |
| SnapshotWriters.UndisturbedIsLastAnswered | internal/nvrmonitor/handler.go:217-247 | at rest, when no rollback before the last write was disturbed: these bytes if no other request disturbed the last write, and only then when bytes can tell the uploads apart |
| SnapshotWriters.RequestOnItsOwn | internal/nvrmonitor/handler.go:217-247 | at any moment of any run the steps of one request without interruption are possible and end with the objects and the answer of `SaveAudited` |
| SnapshotWriters.OneAtATimeIsRight | internal/nvrmonitor/handler.go:217-247 | requests that open the object one after the other keep it right in every run |
| SnapshotWriters.AcceptedUploadLost | internal/nvrmonitor/handler.go:217-247 | a run after which an upload answered 204 is gone |
| SnapshotWriters.RefusedUploadStays | internal/nvrmonitor/handler.go:217-247 | a run of two refused uploads after which refused bytes are stored |
| SnapshotBackfill.BackfillService.ProcessCandidate | internal/nvrsnapshot/service.go:119-135 | capture failure, invalid image, upload failure or a stored object |
| SnapshotBackfill.BackfillService.CaptureAll | internal/nvrsnapshot/service.go:76-116 | the loop ends with an open circuit exactly when its last three attempts failed to connect and never passes such a point; it is interrupted only by a failing check or rest; the summary counts every camera once and Failed is the sum of Failures |
| SnapshotBackfill.BackfillService.Run | internal/nvrsnapshot/service.go:56-116 | out-of-range options are refused before anything happens |
| SnapshotBackfill.TripsIsThreeInARow | internal/nvrsnapshot/service.go:105-115 | the circuit opens exactly at three failed connections with nothing but skipped cameras between |
| SnapshotBackfill.CircuitMeaning | internal/nvrsnapshot/service.go:105-115 | a run ends with an open circuit exactly after the first three attempts in a row, skipped cameras aside, whose codes are authorization failed, connect failed or connect timeout |
| SnapshotBackfill.InterruptionMeaning | internal/nvrsnapshot/service.go:79-97 | it is interrupted only where a check or a rest between two captures fails |
| SnapshotBackfill.AttemptMeaning | internal/nvrsnapshot/service.go:119-158 | each code of an attempt in terms of the capture, the picture (1 MiB, 640 pixels) and the upload; only success stores anything |
| SnapshotBackfill.OptionsMeaning | internal/nvrsnapshot/service.go:64-72 | the options that are let in: at most 20 seconds to capture, at least 2 to rest, 0 for these |
| SnapshotBackfill.StoresGrow | internal/nvrsnapshot/service.go:119-135 | stored objects stay stored |
| SnapshotBackfill.RerunSkipsStored | internal/nvrsnapshot/service.go:79-89 | a run that is not forced skips every camera an earlier run stored |
| SnapshotBackfill.KeysAgree | internal/nvrsnapshot/models.go:21-30 | backfill and monitor name one camera alike exactly for IDs that are not negative |
| Decimals.ShortlexIsNumeric | internal/app/digital_twin_settings_store.go:55-60 | shorter first, then as text, is numeric order on canonical decimals |
| Decimals.DecimalRoundTrip | internal/nvrmonitor/snapshot_store.go:118-120 | a printed number reads back as itself and as no other canonical numeral |
| DigitalTwinSettings.NormalizeStoreIDs | internal/app/digital_twin_settings_store.go:35-62 | accepted exactly when there are at most 100 canonical IDs of at most 18 digits; the result holds each once in numeric order |
| DigitalTwinSettings.StoreIDMeaning | internal/app/digital_twin_settings_store.go:39-48 | an acceptable ID is the decimal numeral of a positive number below 10 to the 18th |
| DigitalTwinSettings.NormalFormUnique | internal/app/digital_twin_settings_store.go:35-62 | two lists have the same normal form exactly when they hold the same IDs |
| DigitalTwinSettings.NormalFormStable | internal/app/digital_twin_settings_store.go:35-62 | normalizing again changes nothing, and every ID is a positive int64 |
| DigitalTwinSettings.MemoryStore.GetDigitalTwinSettings | internal/app/digital_twin_settings_store.go:170-180 | the default, the normalized list with its version, or an error for a stored text that is not valid |
| DigitalTwinSettings.MemoryStore.UpdateDigitalTwinSettings | internal/app/digital_twin_settings_store.go:182-210 | succeeds exactly when the IDs are valid, the version is current and the audit is written; each failure has its own condition and changes nothing |
| DigitalTwinSettings.RunContinues | internal/app/digital_twin_settings_store.go:182-210 | in every run the audit log is one unbroken chain from the default to what is stored, one event per success |
| DigitalTwinSettings.SuccessNamesLastVersion | internal/app/digital_twin_settings_store.go:199-201 | an update succeeds only by naming the version left by the previous success |
| DigitalTwinSettings.OldVersionReturns | internal/app/digital_twin_settings_store.go:199-209 | the lists 1, 2 and 1 again: the version of the first update, not current after the second, is current again |
| DigitalTwinSettings.SecondOfTwoReaders | internal/app/digital_twin_settings_store.go:199-209 | of two updates that read one version, the second succeeds exactly when it is in order and the first rewrote the same list |
| AssetInventory.LatestSnapshotRows | internal/app/ops_handler.go:1162-1191 | keeps, in order, the rows that are no snapshots, have no number, or are the latest of their channel |
| AssetInventory.OnlyLatestStay | internal/app/ops_handler.go:1162-1191 | a snapshot stays exactly when no other of its channel has a higher ID and its own is not negative, once any ID is positive |
| AssetInventory.BuildInventory | internal/app/ops_handler.go:1039-1096 | each row gets its logical key, status, rank among the rows of that key and their number; the summary counts them |
| AssetKeys.StripIsReference | internal/app/ops_handler.go:1218-1223 | a reference is cut at its first question mark or number sign |
| AssetKeys.NamesMeans | internal/app/ops_handler.go:1225-1254 | a reference names an object by its own key, by the snapshot proxy path, or by the upload proxy path with an ID and the name of one of three files, and nothing else |
| AssetKeys.KeyMeaning | internal/app/ops_handler.go:1200-1216 | a row names what its source key names and else what its old path names, unless one of them is remote |
| AssetKeys.SpellingsAgree | internal/app/ops_handler.go:1225-1254 | the proxy path of an uploaded file and its own key give one logical key |
| AssetKeys.ItemMeaning | internal/app/ops_handler.go:1054-1085 | each item: the object its row names, pending unless that is moved to OSS, else the reason; its rank among the rows of that object, and their number |
| AssetKeys.SummaryMeaning | internal/app/ops_handler.go:1072-1090 | the summary is the numbers of rows, of pending rows and of rows that share an object |
| AssetKeys.WhatStays | internal/app/ops_handler.go:1162-1191 | exactly which rows stay: all but the numbered snapshots with a negative ID or a higher one in their channel, and all when no ID is positive |
| AssetInventory.KeyIsPending | internal/app/ops_handler.go:1200-1254 | a logical key comes with the status pending and is never blank |
| AssetInventory.ReadyIsFirst | internal/assetmigration/manifest.go:188-200 | a row is ready exactly when it is the first to name an object that is not migrated |
| AssetInventory.AttemptedIsFirst | internal/assetmigration/manifest.go:107-156 | without a cap a row is taken exactly when it is the first to name an object that is not migrated and passes the filter |
| AssetInventory.TakenByKey | internal/assetmigration/manifest.go:107-156 | for any filter and no cap an object is taken exactly when it is not migrated and the first row that names it passes the filter, and never by two rows |
| AssetInventory.TakenExactlyOnce | internal/assetmigration/manifest.go:107-156 | with no filter and no cap each referenced object that is not migrated is taken by exactly one row, others by none |
| AssetInventory.FilterNeedsFirstRow | internal/assetmigration/manifest.go:120-126 | an object that is not migrated is taken if and only if its first row passes the filter, whatever rows follow |
| AssetInventory.SharedObjectMissed | internal/assetmigration/manifest.go:120-126 | two rows of organisations a and b with one object: a run for b takes nothing |
| AssetInventory.EveryObjectCopied | internal/assetmigration/manifest.go:107-178 | end to end and for any filter, the target gets the body of every object so taken that the source has, and nothing else changes |
| AssetManifest.CopyOne | internal/assetmigration/manifest.go:158-178 | the body under the target key with the first content type that is not blank, or nothing |
| AssetManifest.CopyManifest | internal/assetmigration/manifest.go:107-156 | each row is skipped with its reason, marked, copied or failed as the cap, the filter and its readiness say, and the target holds the copies |
| AssetManifest.CountersAddUp | internal/assetmigration/manifest.go:107-156 | the counters sum to the total and a positive cap bounds the attempts |
| AssetManifest.CountersCount | internal/assetmigration/manifest.go:107-156 | each counter is the number of rows with its action |
| AssetManifest.ResultMeaning | internal/assetmigration/manifest.go:107-156 | told by the results themselves: which rows are skipped for the cap, for the organisation or for a reason of their own, and which are marked, copied or failed |
| AssetManifest.ReadyMeans | internal/assetmigration/manifest.go:188-200 | the rows to copy: both keys given, and empty or pending status with rank 0 or 1, or skipped without a reason when asked for, in any case |
| AssetManifest.ReasonMeans | internal/assetmigration/manifest.go:202-223 | the reason for each row that is not copied |
| AssetManifest.TargetMeaning | internal/assetmigration/manifest.go:141-178 | after every run each key holds the body and type of the row last reported as copied to it, or what was there |
| AssetManifest.DryRunPredicts | internal/assetmigration/manifest.go:135-153 | a dry run marks exactly the rows an apply run tries |
| AssetManifest.TargetHolds | internal/assetmigration/manifest.go:141-153 | when no two rows write one key, the target holds each written object and everything else as before |

## Left out

- WebSocket dialing, ffmpeg and JPEG decoding: the receive path ends at the Annex B bytes handed over.
- Wiping of buffers: contents only, not the arrays left behind by growing slices.
- HTTP clients and signers, JWT and RSA checks, cookies, redirects, and the text of error messages.
- SQL text beyond the session statements, row scanning, table definitions, and InnoDB gap locks; a
  transaction that does not commit is taken to leave nothing behind.
- MySQLSession.MySQLStore.CreateAuthSession: of the collation only the case of ASCII letters is modelled;
  that is all that can differ between two fingerprints. A new token is taken not to be in the table.
- MySQLSession.MySQLStore.TouchAuthSession: statements of different transactions are not interleaved,
  because the UPDATE is one atomic statement; interleaving is modelled for the fingerprint
  transaction only (SingleUse).
- JsonScan.FirstJSONObject: the UTF-8 encoding is not modelled; strings are sequences of code points.
  Unmarshalling into the answer type is left out.
- JsonScan.ExtractModelJSONText: starts from the text without code fences; removing the fences is not
  part of this model.
- SpacePaths.SpacePath: requires a walk that ends, because the loop does not return on a cycle;
  `PathEndsExactlyInTree` says for which spaces that is.
- StoreCameras.BuildCameras: channel number, NVR name and thumbnail kind are left out: each is a
  single lookup or a keyword classification.
- StoreCameras.BuildSummary: the consultation and treatment counters (keyword classification of the
  displayed space type), the offline counter, and the space and warning counts (one length each).
- StoreDetail.BuildStoreDetail: requires what the database guarantees, unique positive IDs of devices,
  spaces and relations, and no related space below a cycle of parents, where `spacePath` hangs; the
  trimming and sorting of the spaces and the device tree are left out.
- EditDistance.SimilarityMeaning: names are taken as already normalized, and `SimilaritySymmetric` holds
  for any normalization; removing words from a name is not idempotent and has no statement of its own.
- MonitorConcurrency.Service.GetURL: the URL, quality and protocol fields, the time a slot was taken, and
  the audit events of refused requests.
- SnapshotTransaction.SnapshotHandler.SaveSnapshot: authorization, the parsing of headers and the
  distinction of the ways a lookup fails; a camera ID that does not parse counts as not positive.
- SnapshotWriters.RightExactly: starts from requests that passed the checks and the camera lookup, each
  for one object; a step is one call of the audit log or the object store.
- SnapshotBackfill.BackfillService.CaptureAll: the capture itself and real sleeping are inputs; listing
  the cameras from the database is left out.
- DigitalTwinSettings.MemoryStore.UpdateDigitalTwinSettings: the stored JSON text is the list it
  encodes; the MySQL variant of the update, a row lock around the same steps, is left out.
- AssetInventory.BuildInventory: the CSV text between inventory and copy, the columns the copy does not
  read, and the design, snapshot and sensitivity counters.
- AssetManifest.CopyManifest: source and target are two stores and both are configured; the source
  does not change while the run lasts.
- React and TypeScript code, mock adapters, field-renaming mappers, Excel and PDF writers, prompts,
  city tables, log redaction, and permission switches: they would only add easy members.
