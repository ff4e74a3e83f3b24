# Camera plugin and inference worker: a verified model

A camera plugin inside a video server sends raw frames over a local stream socket to an inference worker. The worker
crops, runs a detector, decodes and filters the boxes, gives every box a track id and replies. The plugin turns track
ids into UUIDs, so that a viewer sees one continuous object. This project models that pipeline in Dafny and proves what
it keeps.

How the files fit together:

* **Tracker.** `Geometry`, `ClassMatch`, `Greedy` (the matching as values: best-then-mask, sorted scan, stability,
  half-optimality), `GreedyLoop` (the in-place loop on a matrix), `TrackerSpec` (one update as a function),
  `TrackerRuns` (what every run keeps), `TrackerMeaning` (what an update does to each track), `Occlusion` (a track whose
  object is not seen), `ByteTrack` (the mutable tracker object), `MatchQuality` (what the matching theorems say about the
  tracker), `UpdateOrder` (the order of the detections),
  `UpdateQuality` (an update told from boxes and classes), `Cells` (overlap by counting).
* **Identity.** `UuidCache` (the bounded table, as a mutable class and as a function of past lookups), `TrackIdentity`
  (tracker and table together), `LiveCount` and `CrowdedSession` (a comment about the table that does not hold), `UuidRuns` (exactly when
  identity holds), `DeviceAgent` (the plugin's box loop and settings), `EndToEnd` (worker session to the objects shown).
* **Transport.** `Messages`, `Framing` (bytes of a stream), `TextCodec` (one way to write the messages), `WorkerReader` (the worker's receive loop), `Ipc` (the
  plugin's client object), `Lockstep` (both ends and every failure as one state machine), `ClientRuns` (the object's calls as its runs), `Channel` (that machine with
  the worker's session and the camera at its ends).
* **Worker session.** `Coordinates`, `Filtering` (what "in order, exactly" means), `Detections`, `ServeSpec` (the session
  as a function of its events), `ReplyContents` (what a reply holds, from the last config and the model's output),
  `SessionRuns` (which tracker runs a session makes), `Text` (names as users write them), `AdapterRecord` (what it knows about its adapter), `WorkerSession` (the same session as a mutable object).

Objects the program updates in place are classes whose methods are proved against functions; the long-run properties
are lemmas about those functions over arbitrary event sequences.

Findings about the code:

* The comment at `src/nx/vms_server_plugins/analytics/sample/device_agent.cpp:320-325` says a live track can
  lose its table entry only with more than 4096 concurrent tracks. Read literally that is false (`CrowdedSession.LiveCountDoesNotBound`): a newcomer is resolved before
  the oldest track comes back in the same frame, while the others are pruned. Exactly the runs that show fewer than 4096
  other ids between any two consecutive shows of an id keep every UUID (`UuidRuns.IdentityIff`,
  `EndToEnd.ObjectsKeepTheirUuidIff`); that the tracks before each update plus its births number at most 4096 is enough
  (`TrackIdentity.IdentityIsStable`, `EndToEnd.ObjectsKeepTheirUuid`).
* Masking a class mismatch to overlap 0 keeps classes apart only because the threshold is positive
  (`TrackerSpec.AgreementNeedsPositiveThreshold`), and the loop ends only because it is above -1
  (`GreedyLoop.LoopEndsIff`); the worker always passes 0.3.
* The worker records the device a model was asked for, not the one it runs on; the two differ exactly
  while the session in use came from a load that fell back (`AdapterRecord.DeviceIsReal`).
* A runtime given as blanks only gets the default adapter but is recorded as no runtime
  (`AdapterRecord.RuntimeIsRecorded`), because the default is applied before the trimming.
* The client sends as many pixels as it is given and the worker reads `h * stride` of them; the stream stays in step
  exactly when these agree (`WorkerReader.BodySizeMatters`).

Check the project with `dafny verify dfyconfig.toml` (Dafny 4.11).

## Model

| member | source | states |
|---|---|---|
| `EndToEnd.ObjectsKeepTheirUuid` | python/worker.py:208-509 | over every session of configs and frames from an empty table (later configs, failed inference, resolution and grace-period changes included) in which each frame's live tracks plus births fit the table, two objects in any of the packets built carry the same UUID exactly when the worker gave them the same track id |
| `EndToEnd.ObjectsKeepTheirUuidIff` | src/nx/vms_server_plugins/analytics/sample/device_agent.cpp:320-325 | over every session, fitting or not, they do so if and only if fewer than cap other ids are shown between any two consecutive shows of an id |
| `EndToEnd.IdentityOfObjectsIff` | src/nx/vms_server_plugins/analytics/sample/device_agent.cpp:520-575 | the same for any replies with one positive id per box |
| `EndToEnd.CameraResolves` | src/nx/vms_server_plugins/analytics/sample/device_agent.cpp:520-575 | over any such replies the box loop drives table and draws as the ids alone do, and the objects built are exactly the log of lookups |
| `Channel.TakenIsServed` | src/nx/vms_server_plugins/analytics/sample/ipc_client.cpp:216-254 | in every run over the byte channels (short sends and receives, failures, reconnects) the events handled are those of the messages issued, in order, and what the camera has taken is the first part of what arrives of the session's replies to them; between calls, while the worker is up, it is all of it, and while the connection is open every message issued is handled or still unfinished |
| `Channel.ObjectsOverTheChannel` | src/nx/vms_server_plugins/analytics/sample/device_agent.cpp:499-575 | in every such run whose handled frames fit the table, objects shown from the replies taken on a connection with an empty table carry one UUID exactly when the worker gave them one track id |
| `EndToEnd.CameraFollows` | src/nx/vms_server_plugins/analytics/sample/device_agent.cpp:499-552 | the camera's table, UUID draws and shown ids after the worker's replies are those of one tracker run linked to one table: replies are the only channel, and they lose nothing |
| `EndToEnd.SessionRunFits` | python/worker.py:283-300 | if every frame of a session fits the table, so does every update of the tracker living inside the session |
| `EndToEnd.RepliesAnswerTheStream` | python/worker.py:208-509 | however the byte stream is cut, the worker answers exactly the frames that lie whole before the cut, in the order sent and with their ids |
| `TrackIdentity.IdentityIsStable` | src/nx/vms_server_plugins/analytics/sample/device_agent.cpp:303-333 | over every run of updates and settings changes whose frames have live tracks + births at most the cap, a track id and its UUID determine each other across all frames, and every live track is still in the table |
| `TrackIdentity.FrameKeepsStep` | python/tracker.py:252-284 | one frame keeps the joint invariant: the live tracks are the first entries of the table, in order of age, and each id ever shown has one UUID of its own |
| `TrackIdentity.UseAllKeeps` | src/nx/vms_server_plugins/analytics/sample/device_agent.cpp:520-552 | resolving the ids of one reply in any box order never pushes out a live id, even one whose box comes last |
| `TrackIdentity.UseKeepsOrder` | src/nx/vms_server_plugins/analytics/sample/device_agent.cpp:306-332 | one lookup keeps live ids in front ordered by age, given room for a new id |
| `TrackIdentity.PruneKeepsOrder` | python/tracker.py:272-276 | pruning by age only cuts the live front of the table at its old end, for whatever max_age is in force |
| `TrackIdentity.AgesAfter` | python/tracker.py:263-284 | after an update the live ids are the labelled ones at age 0 and the unlabelled ones one older, minus those over max_age |
| `CrowdedSession.LiveCountDoesNotBound` | src/nx/vms_server_plugins/analytics/sample/device_agent.cpp:320-325 | the comment's bound on concurrent tracks does not hold as stated: for every cap of at least 2 and every grace period of at least 0 there is a session of the worker whose tracker never holds more than cap tracks, and in which two objects of one track id carry different UUIDs, or two of different ids the same |
| `LiveCount.CrowdedRun` | python/tracker.py:252-284 | the run behind it, built for any cap and grace period: all boxes proper and inside the frame, at most cap tracks at every moment, and one id shown under two UUIDs |
| `SessionRuns.TrackerRunsOfSessions` | python/worker.py:283-300 | the runs of a tracker that some session makes, for any grace period and mode to start with, are exactly those whose boxes have an interior inside the frame, with any changes of grace period and mode and none of the threshold |
| `UuidRuns.IdentityIff` | src/nx/vms_server_plugins/analytics/sample/device_agent.cpp:320-325 | the exact condition, for every run of tracker and table: no id changes its UUID, and ids and UUIDs determine each other, if and only if fewer than cap other ids are shown between any two consecutive shows of an id |
| `UuidCache.TrackUuidTable.ResolveTrackUuid` | src/nx/vms_server_plugins/analytics/sample/device_agent.cpp:303-333 | the new list, the UUID and the new-flag are those of the bounded move-to-front lookup, with list and index still describing the same distinct ids, at most cap of them |
| `UuidCache.TrackUuidTable.SpliceToFront` | src/nx/vms_server_plugins/analytics/sample/device_agent.cpp:309-312 | a hit moves that entry to the front and keeps the order of the others |
| `UuidCache.TrackUuidTable.Insert` | src/nx/vms_server_plugins/analytics/sample/device_agent.cpp:315-332 | a miss puts the new entry in front and keeps the most recent cap entries |
| `UuidCache.TrackUuidTable.EvictOver` | src/nx/vms_server_plugins/analytics/sample/device_agent.cpp:326-331 | evicts from the tail exactly what is over the cap |
| `UuidCache.CacheIsMostRecent` | src/nx/vms_server_plugins/analytics/sample/device_agent.cpp:303-333 | after any sequence of lookups the table holds exactly the cap most recently used distinct ids, in order of last use |
| `UuidCache.KeepsUuidIff` | src/nx/vms_server_plugins/analytics/sample/device_agent.cpp:320-325 | an id used again keeps its UUID if and only if fewer than cap distinct other ids were used in between; otherwise it takes the freshly drawn one |
| `GreedyLoop.GreedyMatch` | python/tracker.py:228-250 | for every threshold at which it ends the argmax-and-mask loop never meets the already-matched branch, and its three lists are exactly those of the best-then-mask recursion |
| `GreedyLoop.LoopEndsIff` | python/tracker.py:234-250 | on any non-empty matrix of overlaps the loop ends if and only if the threshold is above the mask value -1 |
| `GreedyLoop.ArgMax` | python/tracker.py:235-239 | the flat index of the largest entry, the first of them in row-major order |
| `GreedyLoop.Mask` | python/tracker.py:248-250 | exactly the row and the column are overwritten with -1 |
| `GreedyLoop.MaximumIsLive` | python/tracker.py:240-244 | a maximum at or above the threshold is always in an unmatched row and an unmatched column |
| `Greedy.ScanEqualsPicks` | python/tracker.py:232-250 | best-then-mask takes the same pairs in the same order as one scan of all pairs by descending weight, ties row-major |
| `Greedy.SortedIsSorted` | python/tracker.py:235-239 | the order of that scan lists every pair once, by descending weight and then row-major |
| `Greedy.GreedyIsStable` | python/tracker.py:228-250 | on any grid the chosen pairs are one-to-one, admissible, and leave no blocking pair |
| `Greedy.StableIsGreedy` | python/tracker.py:228-250 | when admissible weights differ pairwise the greedy choice is the only stable one |
| `Greedy.MatchIgnoresRowOrder` | python/tracker.py:228-250 | without ties, renaming the rows renames the choice and changes nothing else |
| `Greedy.GreedyIsHalfOptimal` | python/tracker.py:228-250 | the total weight chosen is at least half that of any one-to-one set of admissible pairs |
| `Greedy.ClashWeight` | python/tracker.py:246-250 | the charging step: masking one locked-in pair removes at most twice its weight from any matching |
| `Greedy.PartnersInverse` | python/tracker.py:229-247 | the row-wise and column-wise readings of the matches name each other |
| `MatchQuality.MatchingIsStable` | python/tracker.py:207-250 | the tracker's matches on class-masked overlap are one-to-one and unblocked |
| `MatchQuality.MatchingIsHalfOptimal` | python/tracker.py:207-250 | the tracker's total matched overlap is at least half of any admissible one-to-one choice |
| `MatchQuality.MatchingIsTheScan` | python/tracker.py:228-250 | the tracker's matches are those of the sorted scan |
| `MatchQuality.MatchingIgnoresOrder` | python/tracker.py:207-250 | without ties each track gets the same detection whatever order the detections come in |
| `UpdateOrder.OrderDoesNotMatter` | python/tracker.py:252-286 | without ties the order of the detections does not matter to the tracks there were: a detection gets the same old id at its new place, the same old tracks remain, and they remain the same |
| `MatchQuality.MatchingIgnoresCoordinates` | python/tracker.py:79-80 | moving all boxes by one positive scaling and translation per axis leaves the matching unchanged |
| `MatchQuality.MatchingIgnoresRemap` | python/worker.py:404-421 | the crop-to-frame remap is such a move |
| `Geometry.IouInUnitInterval` | python/tracker.py:71-103 | every value is in [0,1], reversed and empty boxes included |
| `Geometry.IouSymmetric` | python/tracker.py:71-103 | swapping the two boxes changes nothing |
| `Geometry.IouSelf` | python/tracker.py:71-103 | a box with an interior overlaps itself with ratio 1 |
| `Cells.IouCountsCells` | python/tracker.py:88-103 | intersection over union, by counting: for boxes with corners on any grid, so for all rational ones, the ratio times the number of cells in at least one box is the number of cells in both; 0 when they share none |
| `Geometry.IouPositiveIff` | python/tracker.py:88-103 | positive exactly when the interiors meet |
| `Geometry.IouAffineInvariant` | python/tracker.py:79-80 | unchanged by any positive per-axis scaling plus translation of both boxes, the 1e-9 guard included |
| `ClassMatch.CanonicalClassIsExact` | python/tracker.py:43-68 | canonical keys are equal exactly when the mode calls the classes interchangeable |
| `ClassMatch.ModeOfText` | python/tracker.py:150-155 | each mode is chosen by its name in any case and with any white space around it; every other text means vehicle_group |
| `Text.NameIsSpelled` | python/worker.py:238-239 | a name counts as the one its text spells, between any white space and with each letter small or capital; a missing one as the default |
| `Text.BlankCodes` | python/tracker.py:152 | the code points that count as white space |
| `TrackerSpec.MatchesOneToOne` | python/tracker.py:228-250 | matched rows and columns are in range and never repeat |
| `TrackerSpec.NothingDetected` | python/tracker.py:188-191 | the no-detections return equals the uniform update: everyone ages, the too old go |
| `TrackerSpec.NothingTracked` | python/tracker.py:200-205 | the no-tracks return equals the uniform update: every detection is born with the next id in order |
| `TrackerMeaning.UpdateMeans` | python/tracker.py:252-286 | a detection gets the id of a track exactly when the matching pairs them; the tracks afterwards are, by increasing id, exactly the detections under their labels (age 0, one hit more than the track of that id had) and the old tracks no detection was given, one tick older and within max_age |
| `UpdateQuality.UpdateIsStable` | python/tracker.py:207-250 | told from boxes, classes and labels alone, for a positive threshold and known classes: a detection carries the id of a track only if the mode calls their classes interchangeable and their boxes overlap by the threshold, and for any such pair, if it is not taken, one of its ends is taken by a pair that overlaps at least as much |
| `UpdateQuality.OneAgainstOne` | python/tracker.py:207-250 | one detection and one track: it gets the track's id if and only if the classes are interchangeable and the overlap reaches the threshold |
| `Occlusion.OccludedKeepsId` | python/tracker.py:7-9 | an object no detection of the next frames reaches at the threshold, whatever else they show and whatever settings change between them, and that one unrivalled detection then reaches, gets its id back if and only if at each of those frames its track was within the max_age in force |
| `Occlusion.OutlivesFrames` | python/tracker.py:7-9 | without settings changes that is: there are no such frames, or its age plus their number is at most max_age |
| `TrackerSpec.PositiveThresholdAgrees` | python/tracker.py:210-226 | with a positive threshold every match joins interchangeable classes |
| `TrackerSpec.AgreementNeedsPositiveThreshold` | python/tracker.py:236-238 | exactly the positive thresholds keep classes apart on every input |
| `ByteTrack.ByteTrackLite.Update` | python/tracker.py:180-286 | the mutated tracker is exactly that of the uniform update on all three paths, whatever the list of boxes; the id that stays on a record is the one of the place that is written last, and only tracks and track_id fields change |
| `ByteTrack.DistinctDecide` | python/tracker.py:252-284 | a record listed once keeps the id of its place |
| `ByteTrack.ByteTrackLite.SetParams` | python/tracker.py:157-174 | only the given parameters change; live tracks and the next id stay |
| `ByteTrack.ByteTrackLite.LiveCount` | python/tracker.py:176-178 | the number of live tracks |
| `ByteTrack.ByteTrackLite.AgeAndPrune` | python/tracker.py:294-298 | the same state as an update with no detections |
| `ByteTrack.ByteTrackLite.NewTrack` | python/tracker.py:288-292 | hands out the next id and appends one fresh track of age 0 with one hit |
| `ByteTrack.ByteTrackLite.GiveBirth` | python/tracker.py:278-284 | unmatched detections become tracks in input order after pruning; matched ones keep the id they were given |
| `ByteTrack.ByteTrackLite.MatchAndAge` | python/tracker.py:207-274 | matrix, loop, matches and ageing leave every old track ticked as the matching says |
| `ByteTrack.ApplyMatches` | python/tracker.py:252-261 | each matched track takes its detection, each matched box its track's id; nothing else |
| `ByteTrack.AgeUnmatched` | python/tracker.py:272-274 | exactly the unmatched tracks get older; the matched-list is indexed in range |
| `ByteTrack.Pruned` | python/tracker.py:275-276 | keeps, in order, the tracks within the grace period |
| `ByteTrack.WeightsMatch` | python/tracker.py:207-226 | the matrix built from the objects is the weighted grid of the specification |
| `TrackerRuns.UpdateKeepsWellFormed` | python/tracker.py:180-292 | track ids stay strictly increasing in the list and within [1, next_id) |
| `TrackerRuns.LabelsAreDistinct` | python/tracker.py:29-33 | every box of a frame gets an id of its own, at least 1, naming a live track or one born now |
| `TrackerRuns.UpdateConserves` | python/tracker.py:252-292 | live + pruned tracks grow by the ids handed out, and hits by the number of boxes |
| `TrackerRuns.AgesShift` | python/tracker.py:263-276 | at most the tracks of age k reach age k+1, and with max_age at least 0 those of age 0 are exactly this update's boxes |
| `TrackerRuns.EveryRunIsAccounted` | python/tracker.py:157-292 | over all runs: ids below next_id are live or pruned and never both, next_id - 1 = live + pruned, all hits sum to all boxes, and at most as many tracks have age k as boxes came k updates ago |
| `TrackerRuns.PrunedIdNeverReturns` | python/tracker.py:272-292 | a pruned id is never live again and labels no later box |
| `TrackerRuns.LiveCountBounded` | python/tracker.py:176-178 | right after an update the live count is at most the boxes of the last max_age + 1 updates |
| `Framing.BigEndianInverse` | python/worker.py:97 | the four length bytes decode to the length they encode |
| `Framing.MostSignificantFirst` | python/worker.py:97 | the first byte is the most significant |
| `Framing.BadLengthRefused` | python/worker.py:213-216 | lengths of 0 and over 64 MiB are refused |
| `Framing.BadSizeRefused` | python/worker.py:353-356 | a header announcing no pixels, or more than 128 MiB of them, is refused |
| `Framing.NotJsonSkipped` | python/worker.py:220-224 | a payload that is not JSON is skipped whole and alone: the rest of the stream is read as if it had not been there |
| `Framing.ReadPrefix` | python/worker.py:209-218 | on every proper prefix of a message the reader asks for more and never for a byte beyond that message; on the whole it yields what the text brings of it |
| `Framing.ReadOversized` | python/worker.py:353-356 | a body over the worker's limit is refused before any of it is taken for a message |
| `Framing.StreamIsUnambiguous` | python/worker.py:208-360 | any list of control messages and frames is recovered one by one, as their text delivers them and with their bodies as sent, whatever the raw bodies contain |
| `Framing.WholeIn` | python/worker.py:209-218 | how many messages lie whole in the first n bytes: that many end there and the next one does not |
| `Framing.CutStream` | python/worker.py:209-218 | a stream cut at any byte yields exactly the messages that lie whole before the cut, as their text delivers them |
| `Framing.EncodingIsInjective` | src/nx/vms_server_plugins/analytics/sample/ipc_client.cpp:116-129 | two lists with the same bytes have the same number of messages, and these differ in nothing but real numbers |
| `TextCodec.PlainIsFaithful` | python/worker.py:95-97 | texts as the transport theorems ask for exist: a plain way of writing keeps every config, frame header and reply up to its real numbers, and is short enough for the headers of all usual frames |
| `WorkerReader.RecvExact` | python/worker.py:83-92 | all n bytes or nothing, whatever chunks the socket hands out |
| `WorkerReader.RoundIsNext` | python/worker.py:209-218 | reading header, payload and body in turn stops where the incremental reader first has enough |
| `WorkerReader.ReadNext` | python/worker.py:209-223 | one round of the loop consumes exactly one message |
| `WorkerReader.ReadMessages` | python/worker.py:208-223 | the reading loop handles exactly the messages of the stream, in order, whatever the chunking |
| `WorkerReader.BodySizeMatters` | python/worker.py:349-360 | a frame ends for the reader where the client ended it, whatever follows, if and only if the client sent h*stride bytes of pixels |
| `Lockstep.StepKeeps` | src/nx/vms_server_plugins/analytics/sample/ipc_client.cpp:95-254 | every step of client, channel and worker (short sends and receives, failures, reconnects) keeps the joint invariant |
| `Lockstep.EveryReplyMatchesItsFrame` | src/nx/vms_server_plugins/analytics/sample/ipc_client.cpp:216-254 | in every run each reply the client takes carries the id of the frame it just sent, although it never compares them |
| `Lockstep.OneFrameOutstanding` | src/nx/vms_server_plugins/analytics/sample/ipc_client.cpp:216-254 | in every run, whatever has become of the worker, at most one frame of an open connection is unanswered, and reply bytes exist only while a frame is awaited: attach, config and detach get none |
| `Lockstep.GoodbyeIsTheEnd` | python/worker.py:232-235 | after a whole detach the worker does nothing more on that connection, whatever follows |
| `Lockstep.WritesAreWholeMessages` | src/nx/vms_server_plugins/analytics/sample/ipc_client.cpp:86-129 | in every run what a connection was given is a prefix of whole messages one after the other; between calls it is exactly those messages |
| `Ipc.IpcClient.EnsureConnected` | src/nx/vms_server_plugins/analytics/sample/ipc_client.cpp:37-84 | there is a connection afterwards exactly when there was one or the worker can be reached; an open one is left alone, a new one starts with nothing written or read |
| `Ipc.IpcClient.Disconnect` | src/nx/vms_server_plugins/analytics/sample/ipc_client.cpp:86-93 | the descriptor is gone and what it was given is on record |
| `Ipc.IpcClient.WriteRaw` | src/nx/vms_server_plugins/analytics/sample/ipc_client.cpp:95-114 | all bytes go out through any number of short sends, or the connection is closed after some first part of them |
| `Ipc.IpcClient.WriteFramed` | src/nx/vms_server_plugins/analytics/sample/ipc_client.cpp:116-129 | length and payload, all or closed; an oversized payload writes nothing and closes nothing |
| `Ipc.IpcClient.WriteMessage` | src/nx/vms_server_plugins/analytics/sample/ipc_client.cpp:233-240 | after success the connection holds exactly the messages issued; every closed connection holds whole messages with the last one possibly cut |
| `Ipc.IpcClient.ReadFramed` | src/nx/vms_server_plugins/analytics/sample/ipc_client.cpp:131-177 | exactly one framed reply of 1 byte to 64 MiB is taken off the stream, or the connection is closed because a call moved nothing or the length was bad |
| `Ipc.IpcClient.SendNoReply` | src/nx/vms_server_plugins/analytics/sample/ipc_client.cpp:179-214 | attach and config work out exactly when there is a connection, the message is not too long and every send moves something; they add one message and read no reply |
| `Ipc.IpcClient.SendDetach` | src/nx/vms_server_plugins/analytics/sample/ipc_client.cpp:194-204 | an open connection is given the detach message or a first part of it, and closed; without one nothing happens |
| `Ipc.IpcClient.SendFrameAndRecv` | src/nx/vms_server_plugins/analytics/sample/ipc_client.cpp:216-254 | for any body: on success one frame more was issued on this connection and the bytes returned are the one reply more that was read from it; without success there was no connection, the header was too long, a call moved nothing or a bad length was announced |
| `ClientRuns.WriteIsARun` | src/nx/vms_server_plugins/analytics/sample/ipc_client.cpp:233-240 | a message written in full leaves the client of the two-sided machine as the call leaves the object: issued, all its bytes sent, then waiting, idle or closed as its kind asks |
| `ClientRuns.CutIsARun` | src/nx/vms_server_plugins/analytics/sample/ipc_client.cpp:95-114 | a message cut after any number of bytes leaves it down with exactly those bytes sent |
| `ClientRuns.ReadIsARun` | src/nx/vms_server_plugins/analytics/sample/ipc_client.cpp:131-177 | a reply read in full is taken for the frame awaited, and the bytes behind it stay |
| `ClientRuns.LostReplyIsARun` | src/nx/vms_server_plugins/analytics/sample/ipc_client.cpp:131-177 | a reply of which only a first part of the length arrives costs the connection, with nothing taken |
| `ClientRuns.BadReplyIsARun` | src/nx/vms_server_plugins/analytics/sample/ipc_client.cpp:148-160 | so does a reply announced as empty or over 64 MiB |
| `Coordinates.CropToRoi` | python/worker.py:116-167 | the loop and branches compute the crop that the next two rows describe |
| `Coordinates.CropInFrame` | python/worker.py:159-167 | the crop is a non-empty rectangle inside the frame, at least 8 by 8 unless it is the frame |
| `Coordinates.CropCoversRoi` | python/worker.py:133-137 | the crop holds every ROI point, a point outside the frame counting as the nearest inside, up to the pixel its far edge truncates |
| `Coordinates.CropIsTight` | python/worker.py:144-167 | the crop is the whole frame when there is no ROI, fewer than two points or no two points 8 pixels apart on one axis; otherwise its edges are, on each axis, the lowest and the highest pixel of any ROI point |
| `Coordinates.LetterboxFits` | python/infer_utils.py:162-179 | the resized image fits the canvas in its middle, to half a pixel, and touches it on at least one axis |
| `Coordinates.RoundTripExact` | python/infer_utils.py:271-284 | on one axis crop, ideal letterbox, decode and remap give the coordinate back |
| `Coordinates.RoundTripError` | python/infer_utils.py:162-179 | on one axis with the image resized to whole pixels the error is at most 0.5/ratio frame pixels |
| `Coordinates.RemapStaysProper` | python/worker.py:408-421 | a proper box of the crop becomes a proper box of the frame inside the crop rectangle |
| `Coordinates.RemapKeepsIou` | python/worker.py:408-421 | the remap changes no overlap ratio |
| `Detections.BoxComesBack` | python/infer_utils.py:271-289 | a box inside the crop, ideally scaled, is never dropped by decoding and comes back as it was, score and class too |
| `Detections.BoxIsClipped` | python/infer_utils.py:271-289 | any box at all, ideally scaled, is decoded and remapped to its part inside the crop, and dropped exactly when it has none |
| `Detections.BoxComesBackNearly` | python/infer_utils.py:162-179 | with the crop resized to whole pixels every edge of a kept box is off by at most 0.5/ratio frame pixels |
| `Detections.BoxSurvivesIff` | python/infer_utils.py:277-284 | a box inside the crop is kept after a whole-pixel resize exactly when its near edges land inside the ideally scaled image and no side is resized to nothing |
| `Detections.DecodeBoxes` | python/infer_utils.py:271-289 | the boxes, in the order of the kept indices, of the rows that have something left inside the image |
| `Detections.DecodedAreProper` | python/infer_utils.py:277-284 | every decoded box has positive sides inside the unit square and comes from a row with its score and class |
| `Detections.SelectedExact` | python/infer_utils.py:215-231 | the selected rows are, in order and each once, exactly the confident ones of a wanted class |
| `Detections.DecodedInOrder` | python/infer_utils.py:271-289 | the decoded boxes are, in order and each once, exactly those of the rows of which something is left inside the image |
| `Detections.RemapBoxes` | python/worker.py:411-421 | every box record is rewritten in place by the remap, in order |
| `Detections.RemapFullFrame` | python/worker.py:390-391 | without a crop the remap would be the identity, so skipping it is right |
| `Detections.FilterBoxesByRegions` | python/infer_utils.py:103-138 | the kept records are, in order, those passing the centre test, and no new ones |
| `Detections.PassingExact` | python/infer_utils.py:103-138 | the boxes kept are, in order and each once, exactly those whose centre is in the inclusive polygon, if any, and not in the exclusive one |
| `Detections.PolygonIsPixels` | python/worker.py:428-436 | three points or more make a polygon, whose vertices are the pixels of the points in their order, x by the width and y by the height |
| `Filtering.KeptUnique` | python/infer_utils.py:103-138 | in order and each once, exactly what a test lets through: there is only one such list |
| `Detections.TranslateNames` | python/infer_utils.py:141-159 | the loop yields the ids of the known names in order, whatever their case and padding |
| `Detections.NamesToIdsExact` | python/infer_utils.py:141-159 | an id is wanted exactly when some name in the list, trimmed and in lower case, is known under it |
| `ServeSpec.AdapterImpliesTracker` | python/worker.py:283-330 | in every reachable state an adapter implies a tracker, and the polygon table equals recomputation from the current polygons at every resolution |
| `ServeSpec.ReplyIsExact` | python/worker.py:369-442 | in every reachable state the replied boxes are, in order, the decoded and remapped boxes that pass the current polygons, whatever the cache holds; none when every class is unticked, no model is ready, the stride is short or inference fails |
| `ServeSpec.ReplyBoxesAreWanted` | python/worker.py:394-401 | every replied box is proper, reaches the confidence threshold and is of a wanted class |
| `ReplyContents.StateFollowsSettings` | python/worker.py:237-300 | in every reachable state class filter, ROI and polygons are those of the last config, and threshold, the tracker's grace period and mode those of the last config that gave them |
| `ReplyContents.TriState` | python/worker.py:244-253 | the filter means what the user ticked: absent every class, a list exactly the classes named; the model is skipped exactly when no class is ticked |
| `ReplyContents.ReplyFollowsSettings` | python/worker.py:369-442 | in every reachable state, from the last config and the model's output alone: nothing is replied when no class is ticked or the model fails; otherwise, in the order of the indices the model keeps and each once, exactly those whose row becomes a box passing the polygons, the rows being, in order and each once, exactly the confident ones of a ticked class |
| `ReplyContents.RepliedIff` | python/worker.py:369-442 | a box is replied if and only if an index the model keeps leads to it through a row that is confident, of a ticked class, decodes to something and passes the polygons |
| `ReplyContents.RegionsDecide` | python/infer_utils.py:126-137 | over every session, with the centre and the inside test written out: a box of the frame is replied if and only if a class is ticked, the last config's inclusive polygon, if any, holds its centre and the exclusive one, if any, does not |
| `ReplyContents.ReportedIsReplied` | python/worker.py:369-442 | over every session: a box reported where the letterbox of the crop for the loaded model puts it, in a confident row of a ticked class that is kept, is replied as its part inside the crop, if it has one and its centre suits the polygons |
| `ServeSpec.ReplyIdsAreDistinct` | python/worker.py:446-456 | every replied box has a track id of its own, at least 1 |
| `ServeSpec.Defaults` | python/worker.py:237-300 | what a first config leaves open: onnx on cpu, confidence 0.3, every class, and a tracker with overlap 0.3, 90 updates of grace and vehicle_group |
| `ServeSpec.TrackerRunsInside` | python/worker.py:283-300 | the session's tracker is created by the first config, then sees one settings change per later config and exactly one update per accepted frame, with the boxes replied; nothing resets it |
| `AdapterRecord.RecordIsTrue` | python/worker.py:316-346 | over every session, failed swaps and loads included, told from the list of its configs alone: the adapter is that of the config that made it and there is none if there is no such config, the session is that of the last load that made one for this adapter, and runtime, model and device on record are those two configs' requests |
| `AdapterRecord.RuntimeIsRecorded` | python/worker.py:238-239 | over every session there is an adapter exactly when a runtime is recorded, unless the adapter was asked for under a name of blanks only; then there is one and none is recorded |
| `Text.BlankKey` | python/worker.py:238-239 | a name becomes empty exactly when it was given as blanks only: the default comes before the trimming |
| `AdapterRecord.DeviceIsReal` | python/adapter_openvino.py:92-98 | over every session the recorded device is the one in use if and only if the load that made the present session ended on the device it was asked for |
| `AdapterRecord.FallbackIsNotRecorded` | python/adapter_openvino.py:92-98 | an input on which it is not: cuda asked for, cpu used |
| `AdapterRecord.RepeatedConfig` | python/worker.py:316-346 | in every reachable state a config sent again changes nothing, whatever construction and loading would now do, if and only if the first time got the runtime, model and device asked for |
| `AdapterRecord.FailedLoadKeepsServing` | python/worker.py:343-346 | when a load fails, frames go on with the old session exactly when there was one and the runtime asked for is the one recorded |
| `WorkerSession.Connection.constructor` | python/worker.py:170-206 | a connection starts without adapter, tracker, filter and polygons |
| `WorkerSession.Connection.HandleConfig` | python/worker.py:237-346 | the fields after a config are those of the specification: defaults, tri-state, polygons, tracker, adapter swap, all-or-nothing load |
| `WorkerSession.Connection.ConfigureTracker` | python/worker.py:287-300 | the first config makes a tracker, later ones keep the object and its tracks |
| `WorkerSession.Connection.ConfigureAdapter` | python/worker.py:316-329 | a failed swap leaves no adapter and no runtime; a good one forgets device and model |
| `WorkerSession.Connection.ConfigureModel` | python/worker.py:331-346 | a load happens only on a change or without a session, and a failed one changes nothing |
| `WorkerSession.Connection.RegionsFor` | python/worker.py:428-436 | the polygons of this resolution, from the table or computed once and stored |
| `WorkerSession.Connection.DetectBoxes` | python/worker.py:369-442 | the boxes of a frame and the polygon table after it, on the skipped, failed and successful paths |
| `WorkerSession.Connection.Tick` | python/worker.py:491-498 | an existing tracker is updated once with the boxes, and its labels are written on them |
| `WorkerSession.Connection.HandleFrame` | python/worker.py:348-509 | state and replied boxes, track ids included, are those of the specification |
| `DeviceAgent.ClampMaxAge` | src/nx/vms_server_plugins/analytics/sample/device_agent.cpp:614-619 | the grace period sent is the setting, brought into [10, 300] |
| `DeviceAgent.ParseClasses` | src/nx/vms_server_plugins/analytics/sample/device_agent.cpp:58-77 | set or not, and the string items in order |
| `DeviceAgent.ClassFilterEndToEnd` | src/nx/vms_server_plugins/analytics/sample/device_agent.cpp:394-408 | from setting to worker: a class gets through the filter exactly when the setting has it on (unset or no array means every class, otherwise those of the names listed), and the model is skipped exactly when none is on |
| `DeviceAgent.Agent.EmitPacket` | src/nx/vms_server_plugins/analytics/sample/device_agent.cpp:520-575 | the objects of a packet, the table and the draws are those of taking the boxes in order: malformed ones skipped, ones without a usable id given a UUID of their own |
| `DeviceAgent.PacketFollowsIds` | src/nx/vms_server_plugins/analytics/sample/device_agent.cpp:541-557 | a worker's reply drives the table exactly as its track ids do, and each object shows the UUID of its id |
| `DeviceAgent.PacketPicturesBoxes` | src/nx/vms_server_plugins/analytics/sample/device_agent.cpp:526-573 | the objects of a packet are, in order, one per box with four coordinates, with exactly its corners and its class, 0 if it has none |
| `DeviceAgent.UntrackedStandAlone` | src/nx/vms_server_plugins/analytics/sample/device_agent.cpp:536-560 | a box without a usable track id gets a UUID that no other object of the packet and no entry of the table has |
| `EndToEnd.ObjectsFrameDetections` | src/nx/vms_server_plugins/analytics/sample/device_agent.cpp:520-575 | packet n shows the detections of reply n: as many, in their order, with their corners and classes |

## Left out

- Floating point: coordinates and overlaps are real numbers; float32 narrowing, rounding and NaN are not modelled.
- JSON text: encoding and decoding are any functions under which every message can be read back equal up to the values of its real numbers (TextCodec.PlainIsFaithful gives a pair); the parser and the exact text are not modelled, and whole numbers beyond 2^53, which some parsers read as doubles, count as kept. `Ipc` returns the bytes of a reply; decoding them is in `Lockstep`.
- Field validation of JSON values: the records of `Messages` hold values already coerced to their types, so polygon points that are not number pairs, boxes without four numbers on the worker's side and a missing `cls` (default 0) are not modelled there. A `classes` value that is not a list counts as absent.
- Foreign code: inference (its rows, or an exception), the indices kept by non-maximum suppression, the point-in-polygon test, adapter construction and model loading (all or nothing) are parameters; image pixels are not modelled, only their dimensions. The centre-and-size to corner conversion of the older model layout is part of the rows given.
- Text normalisation: runtimes, devices, modes and class names are trimmed of all white space and lower-cased as the code does it, but lower-casing of letters beyond ASCII is not modelled. A runtime's own spelling of a device counts as the one requested.
- Frames with width or height of 0 or less count as failed inference; the plugin never sends them (`src/nx/vms_server_plugins/analytics/sample/device_agent.cpp:488`).
- GreedyLoop.GreedyMatch: stated for thresholds above -1, which by GreedyLoop.LoopEndsIff are all those at which the original loop ends.
- ByteTrack.ByteTrackLite.Update: likewise for thresholds above -1.
- TrackIdentity.IdentityIsStable: covers one worker connection from an empty table and a grace period of at least 0 (the plugin clamps it to 10..300); across reconnects the worker's ids start again at 1 while the table is kept, so nothing is claimed there. UUIDs are drawn from an injective supply.
- ClientRuns.ReadIsARun: calls and runs are compared call by call; the object and the machine are not joined into one invariant.
- Channel.ObjectsOverTheChannel: as for TrackIdentity.IdentityIsStable; what a worker does after its camera has hung up is not recorded.
- UuidCache.TrackUuidTable.ResolveTrackUuid: the linked list is a sequence of entry objects; prev and next pointers and constant-time cost are not modelled.
- Ipc.IpcClient.EnsureConnected: whether a connection attempt is due and succeeds is a parameter; the clock and the 2 s cooldown are not modelled. The code waits only after a failed connection attempt, although `src/nx/vms_server_plugins/analytics/sample/ipc_client.h:27-28` says after any I/O error.
- Lockstep.StepKeeps: frames carry `h * stride` bytes of pixels, and client calls are serialised. The settings thread and the frame thread share the client without a lock; their races are not modelled.
- A reply without boxes makes no packet; in the model it makes an empty one.
- The worker's ROI argument of the region filter, which its caller always passes as none.
- Reply fields `infer_ms`, `runtime` and `device`, counters, logging, frame skipping, object type names, settings pages, manifests and deployment.
