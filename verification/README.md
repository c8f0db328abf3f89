# A verified model of the asset lifecycle and its neighbours

This project models the server's event-sourced asset lifecycle in Dafny and proves what it is relied upon for. It also
models the binary container code for images and a handful of compact algorithms. `dafny verify dfyconfig.toml` checks
everything.

**The asset lifecycle.** Assets are created, processed and deleted by events in one shared stream. Every server keeps
five maps, folded from that stream, and decides from them whether a processing event may be written.

- `AssetEvents` holds the events, `AssetView` the five maps and what one event does to them, `AssetRooms` the walk from
  an asset to its room.
- `AssetHistory` reads an asset's state off the log without folding: where its present life begins, the first outcome
  in it, the last start before that. The fold is proved equal to this reading for every log, and local to each asset.
- `ReplayGuard` is the guard against repeated deliveries; `AssetProjection` is the projection as a class whose maps are
  updated in place, with its parent walk and its breadth-first listing of a subtree; `AssetReplay` puts the two together
  for any feed of deliveries.
- `AssetProtocol` is the distributed protocol: any number of replicas that lag behind the log, any number of writers
  in the middle of an attempt, unfenced creates and deletes, lost acknowledgements. An invariant is kept by each of
  twelve actions and therefore holds after every run.
- `AssetModel` is the code of one server: the fenced append with its five attempts, outcome recording with cleanup,
  deletion. At every I/O point the rest of the world takes a turn: it appends what it likes under asset subjects, moves
  this server's projector on, or cancels the call. `AssetTurns` accounts for such a call: exactly what it has written
  itself, and that no failure comes without a cancelled step. `AssetOutputs` says what a success fact names.
- `AssetGraph` says what the child index means, `AssetIndex` reads it off the log and says when it is the inverse of the
  parent links. `AssetDeletion` says which rooms survive when assets are deleted, also while others append and when a
  delete fails, and why deleting leaves first keeps all of them; `AssetCollection` why the order is right although the
  log goes on while it is collected.

**Binary containers.** `GifWalker` proves that the block walker accepts exactly a printed grammar (GIF89a sections 15
to 22 and 27) within the limits. `GifCompositor` proves the compositor against a recursion for one pixel and against a
reading without recursion (GIF89a section 23). `WebpChunks` treats the two RIFF chunk walkers, one of which edits a
buffer in place (RFC 9649 sections 2.3 and 2.7). `ByteStrings` and `BigEndian` are shared helpers.

**Compact algorithms.** `Fingerprint` (the byte stream an idempotency fingerprint hashes), `TimelineCursor` (the opaque
cursor, with base64 of RFC 4648 section 5), `KeyTransfer` (key export and import), `PushDedupe` (one push subscription
for each browser client), `NotificationPreview` (truncation in two stages) and `AvatarFrame` (a rectangle inscribed in
a circle, over exact reals).

Where code and comments disagree, the model follows the code. `containRectangle` is commented as clipping no corner
(cli/internal/assets/avatar_framing.go:220-222); placement on whole pixels can move a corner out of the circle, and does
for every square source on the largest target. `AvatarFrame.CornersFitExactly` says for which sources and targets.

## Model

| member | source | states |
|---|---|---|
| AssetRooms.NearestRoomIsUnique | cli/internal/core/asset_projection.go:282-299 | "nearest non-empty room on the parent chain, or none" describes one room only, on chains of any shape, cyclic ones included |
| AssetRooms.WalkFindsNearestRoom | cli/internal/core/asset_projection.go:282-299 | the walk that stops when a parent id repeats returns that room on every set of links, cyclic ones included |
| AssetRooms.WalkIgnoresOthers | cli/internal/core/asset_projection.go:282-299 | removing assets that are not on the parent chain leaves the walk's room alone |
| AssetView.FoldIsConsistent | cli/internal/core/asset_projection.go:64-138 | for every log: tombstones are disjoint from live creations and from manifests, and no manifest holds both outcomes |
| AssetView.RedeliveryIsHarmless | cli/internal/core/asset_projection.go:53-140 | applying an event twice in a row equals applying it once, in every consistent state |
| AssetView.AppendIfMissing | cli/internal/core/room_timeline_projection.go:896-903 | adds the value at the end and nothing else, and keeps a list free of duplicates |
| AssetView.RemoveId | cli/internal/core/room_timeline_projection.go:905-913 | removes exactly that value and keeps a list free of duplicates |
| AssetView.RemoveClosesGap | cli/internal/core/room_timeline_projection.go:905-913 | what is left keeps its order |
| AssetHistory.StepIsLocal | cli/internal/core/asset_projection.go:64-138 | an event changes the creation, tombstone and manifest of its own asset as a per-asset step says, and of no other asset |
| AssetHistory.FoldIsLocal | cli/internal/core/asset_projection.go:53-140 | an asset's creation, tombstone and manifest in the projection are the fold of that asset's events alone |
| AssetHistory.ProjectionDecides | cli/internal/core/asset_projection.go:64-138 | an asset's state depends only on the subsequence of its own events |
| AssetHistory.InterleavingIsIrrelevant | cli/internal/core/asset_projection.go:64-138 | two logs that agree asset by asset give the same creations, tombstones and manifests |
| AssetHistory.LocalFoldIsReading | cli/internal/core/asset_projection.go:64-138 | the per-asset fold equals the reading: after the last delete skip to the next create, then the first outcome and the last start before it |
| AssetHistory.FoldReadsTheLog | cli/internal/core/asset_projection.go:53-140 | the same for the projection's maps, for every log and every asset |
| AssetHistory.QuietSuffix | cli/internal/core/asset_model.go:544-559 | entries of other assets after a prefix leave an asset's state as the prefix has it |
| ReplayGuard.Guard.SeenOrMark | cli/internal/core/projection_helpers.go:46-72 | judges and remembers as the value of the guard's fields says |
| ReplayGuard.Guard.CompleteReplay | cli/internal/core/projection_helpers.go:74-79 | ends startup replay; the ids are dropped unless duplicates were met |
| ReplayGuard.AppliedExactlyOnce | cli/internal/core/projection_helpers.go:28-79 | wherever replay ends and whatever is redelivered before, across or after that point, exactly the first deliveries pass, in order |
| ReplayGuard.DuplicateHistoryKeepsFirst | cli/internal/core/projection_helpers.go:46-79 | an event id met twice during replay is refused from then on, for good |
| ReplayGuard.AcceptedById | cli/internal/core/projection_helpers.go:46-79 | while startup runs, and ever after if startup met a duplicate, exactly the first deliveries by event id pass, in order; a delivery without an id always passes then |
| ReplayGuard.CompatibleExactly | cli/internal/core/projection_helpers.go:46-72 | startup puts the guard into that mode exactly if some event id repeats |
| AssetReplay.Feed | cli/internal/core/asset_projection.go:53-62 | a new projection fed a stream in order with any redeliveries, startup ending anywhere among them, holds the fold of the first lifecycle deliveries, in order; fed anything at all, it holds the fold of the first lifecycle deliveries by event id as long as the guard judges by ids |
| AssetReplay.ReplayLog | cli/internal/events/projector.go:622-698 | startup over any log ends with the fold of the first lifecycle entries by event id, and with a guard that judges by sequence exactly if none repeats an event id; then that is the fold of the whole log |
| AssetProjection.Projection.constructor | cli/internal/core/asset_projection.go:31-40 | five empty maps and a new guard |
| AssetProjection.Projection.Apply | cli/internal/core/asset_projection.go:53-140 | foreign events touch nothing, seen ones change no map, all others turn the maps into the next fold |
| AssetProjection.Projection.ApplyEvent | cli/internal/core/asset_projection.go:64-138 | the in-place updates of all five maps are one step of the fold |
| AssetProjection.Projection.CompleteStartupReplay | cli/internal/core/asset_projection.go:142-146 | ends replay for the guard and changes no map |
| AssetProjection.Projection.AssetRoomIDLocked | cli/internal/core/asset_projection.go:274-280 | the room remembered at deletion, else the one found by the walk |
| AssetProjection.Projection.AssetRoomID | cli/internal/core/asset_projection.go:187-195 | the asset's room, reported as found exactly if it is not empty |
| AssetProjection.Projection.RoomIDOfAssetCreatedLocked | cli/internal/core/asset_projection.go:282-299 | terminates on cyclic links and returns the nearest non-empty room, or none |
| AssetProjection.Projection.AssetSubtreeIDs | cli/internal/core/asset_projection.go:246-272 | terminates on every child graph; root first, no repeats, exactly the ids reachable through live ids, each after one that lists it as a child, breadth first and in the order of the child lists; nothing for an asset that is not live |
| AssetProjection.ListingIsUnique | cli/internal/core/asset_projection.go:246-272 | that description fits one listing only |
| AssetGraph.IndexInvertsParents | cli/internal/core/asset_projection.go:65-74 | a sufficient condition: if every id is created at most once and not before its delete, the child index is the inverse of the parent links, complete for parents not deleted, without duplicates |
| AssetGraph.DeleteKeepsInverse | cli/internal/core/asset_projection.go:122-137 | a delete keeps the child index the inverse of the parent links |
| AssetIndex.IndexReadsTheLog | cli/internal/core/asset_projection.go:65-74 | for every log: c is listed under p exactly if some create of c names p, with no later delete of p and no later delete of c while c stands under p |
| AssetIndex.StandingIsListed | cli/internal/core/asset_projection.go:122-137 | an asset that stands under p is listed there exactly if p has not been deleted since its last create |
| AssetIndex.IndexIsInverseExactly | cli/internal/core/asset_projection.go:64-138 | the exact condition, for every log: no child is left listed under a former parent, and no deleted parent that a child still names was created again |
| AssetIndex.MovedChildBreaksIndex | cli/internal/core/asset_projection.go:65-74 | in every log, creating a listed child once more under another parent breaks the inverse |
| AssetIndex.ReturnedParentBreaksIndex | cli/internal/core/asset_projection.go:65-74 | in every log, creating a deleted parent again while a child still names it breaks the inverse |
| AssetIndex.SameParentKeepsInverse | cli/internal/core/asset_projection.go:65-74 | creating an asset once more under the parent it has keeps it |
| AssetGraph.ParentsComeFirst | cli/internal/core/asset_projection.go:246-272 | with acyclic links every listed parent stands before all of its listed children, not only before one |
| AssetGraph.BystanderKeepsRoom | cli/internal/core/asset_projection.go:122-137 | deleting assets that are no ancestors of x keeps the room of x |
| AssetGraph.LeafFirstKeepsRooms | cli/internal/core/asset_projection.go:122-137 | deleted leaf first, every deleted asset still answers with the room it had before |
| AssetGraph.RootFirstLosesRooms | cli/internal/core/asset_projection.go:122-137 | deleted root first, a derivative can lose its room: the order matters |
| AssetDeletion.DeletionKeepsEveryRoom | cli/internal/core/asset_model.go:267-286 | deleting a leaf-first list of exactly the owned assets tombstones those and no others, counts them, and keeps every asset's room |
| AssetDeletion.RoomKeptExactly | cli/internal/core/asset_projection.go:274-299 | for an asset that had a room, when others only add and a set of assets goes without anything below the gone: it has the same room still exactly if it is gone itself, and so remembered, or nothing on the way from it to the asset that carries its room is gone; otherwise it has none |
| AssetDeletion.OneDeleteKeeps | cli/internal/core/asset_projection.go:64-138 | one delete with nothing gone on the way to the room, anywhere among entries that delete nothing and create fresh ids, remembers the room and leaves all that is left unchanged |
| AssetDeletion.TargetIsUncut | cli/internal/core/asset_model.go:267-287 | in leaf-first order nothing on the way from a target to its room is gone before it, whichever deletes have failed |
| AssetDeletion.TargetHandled | cli/internal/core/asset_model.go:267-287 | one target whose delete is written or not, among entries that delete nothing and create fresh ids, leaves what is gone remembered and the rest unchanged |
| AssetDeletion.NothingCutOff | cli/internal/core/asset_projection.go:122-137 | if everything below what is gone is gone too, every asset that had a room has the same room |
| AssetDeletion.FailedLeafLosesRoom | cli/internal/core/asset_model.go:268-274 | the order helps only if the deletes succeed: a live derivative without a room of its own loses its room with its parent |
| AssetDeletion.FailedDeleteLosesRoom | cli/internal/core/asset_model.go:267-274 | such a run: a leaf-first list, a first delete that fails, and a live asset that had a room and has none |
| AssetCollection.SparedIsListed | cli/internal/core/asset_projection.go:246-272 | whatever was owned through a reference at the beginning is in its subtree listed later, unless it or what it was owned through was deleted since |
| AssetCollection.ChildrenAreLater | cli/internal/core/asset_projection.go:246-272 | in a subtree listed while the log goes on, the children that an asset had when the collection began are listed, behind it, if the others only add and links stay acyclic |
| AssetCollection.VisitKeepsOrder | cli/internal/core/asset_model.go:237-264 | collecting an asset after all of its children keeps the list distinct, leaf first and complete, while the log goes on and whether the asset becomes a target or not |
| AssetCollection.QuietCollection | cli/internal/core/asset_model.go:225-265 | if the log stood still, the targets are exactly the owned assets, leaf first |
| AssetProtocol.Tail | cli/internal/events/publisher.go:465-482 | the position of the last entry under the asset's fence, zero if there is none |
| AssetProtocol.ReplicaIsExact | cli/internal/core/asset_model.go:544-555 | a replica at or beyond the asset's tail sees that asset exactly as the whole log has it, however far it lags otherwise |
| AssetProtocol.ClosedReading | cli/internal/core/asset_model.go:544-557 | a projection past the tail that finds the asset closed proves it closed at or after the moment the tail was read, even if it lags behind that moment |
| AssetProtocol.WriterSurvivesAppend | cli/internal/core/asset_model.go:539-568 | what a writer has established in the middle of an attempt survives any append by others |
| AssetProtocol.CheckKeepsInv | cli/internal/core/asset_model.go:618-631 | reading tombstone and manifest at two different moments is sound while the tail stands |
| AssetProtocol.PublishKeepsInv | cli/internal/core/asset_model.go:559-562 | a compare-and-append at the expected tail keeps the invariant, acknowledged or not |
| AssetProtocol.StepKeepsInv | cli/internal/core/asset_model.go:526-568 | each of the twelve actions keeps the invariant |
| AssetProtocol.BehaviorKeepsInv | cli/internal/core/asset_model.go:526-568 | after every run: a processing entry was only ever appended when the exact log before it had no tombstone and no outcome for its asset |
| AssetProtocol.NothingFencedIsIgnored | cli/internal/core/asset_projection.go:75-121 | after every run, the projection records each appended processing event; none is dropped |
| AssetProtocol.SettledUntilDeleted | cli/internal/core/asset_projection.go:75-137 | an outcome is undone by nothing but a delete |
| AssetProtocol.DeletedUntilCreated | cli/internal/core/asset_projection.go:65-70 | a tombstone is lifted by nothing but a create |
| AssetProtocol.FirstOutcomeWins | cli/internal/core/asset_model.go:539-568 | after every run, between two outcomes of one asset the log holds a delete and, after it, a create; also if the first was recorded before the replicas started |
| AssetProtocol.OutcomesAreTrue | cli/internal/core/asset_model.go:543-567 | what a writer reports is true of the log: appended means there exactly once, skipped or exhausted means not there, skipped means the asset was closed at some moment since this very attempt read the tail, exhausted means that since the writer began at least five entries were written under the fence of its asset; five attempts are the limit |
| AssetProtocol.OpenAssetCanBeAppendedTo | cli/internal/core/asset_model.go:539-568 | the protocol is not blocked: in every invariant state a writer that starts an attempt on an open asset, however far its replica lags, can append and report it |
| AssetProtocol.LegacyOutcomeEscapesFence | cli/internal/core/asset_projection.go:42-51 | in every log, an outcome on a legacy room lane closes an open asset and moves no fence, so those lanes have to be folded before the first append |
| AssetProtocol.LegacyOutcomeBreaksFence | cli/internal/core/asset_projection.go:42-51 | in every invariant state in which a writer may publish, it still may after such an outcome, and its entry is then written on a closed asset |
| AssetModel.Projector.CatchUp | cli/internal/events/projector.go:622-665 | feeding the next entries in order keeps the projection equal to the fold of the applied prefix |
| AssetModel.StartProjector | cli/internal/events/projector.go:557-698 | startup over a stream in which no lifecycle entry repeats an event id gives a projector from which everything below goes on |
| AssetTurns.WroteExactly | cli/internal/core/asset_model.go:539-568 | what a call has written itself between two moments is determined: nothing can be added or left out unnoticed |
| AssetTurns.WroteForLonger | cli/internal/core/asset_model.go:559-562 | a call that should write one entry wrote it if it succeeded, wrote nothing if it was refused, and one of the two if it was cut off, however long it waits before and after |
| AssetModel.StandingTailPins | cli/internal/core/asset_model.go:544-559 | while an asset's tail has not moved, its state has not changed |
| AssetModel.DecisionHolds | cli/internal/core/asset_model.go:555-562 | a decision taken at a tail is still valid when the entry is appended at that tail |
| AssetModel.OutcomesWrittenOpen | cli/internal/core/asset_model.go:539-568 | two outcomes of one asset that calls of this code wrote have a delete and then a create between them |
| AssetModel.Model.WaitForAssets | cli/internal/core/asset_model.go:570-572 | returns without error only once the projection has applied the position |
| AssetModel.Model.AppendAtFilter | cli/internal/events/publisher.go:236-245 | succeeds only if the last entry under the fence is the expected one, and the new entry then stands right at the end; a refused call writes nothing, and only a cancelled step cuts a call off; without interference exactly then |
| AssetModel.Model.ShouldAppendAssetProcessingEvent | cli/internal/core/asset_model.go:618-631 | yes at a tail the projection has passed means the asset is open now; no means it was closed at some moment since the tail was read; without interference exactly the asset's state |
| AssetModel.Model.ReadTail | cli/internal/core/asset_model.go:544-554 | the tail at some moment during the call, applied by the projection before it is returned; it fails only at a cancelled step |
| AssetModel.Model.ReadAndDecide | cli/internal/core/asset_model.go:544-557 | a positive decision holds for as long as the tail stands, and the tail was read during this attempt; a negative one means the asset was closed at some moment during this attempt; any other failure takes a cancelled step; nothing is written |
| AssetModel.Model.AppendAndWait | cli/internal/core/asset_model.go:558-565 | on success the entry was written at a moment when its asset was open, and is applied; on a conflict the tail had moved and nothing was written; any other failure takes a cancelled step |
| AssetModel.Model.AppendAssetProcessingEvent | cli/internal/core/asset_model.go:539-568 | under any interference: success means written while open, once, and applied; skipped means the asset was closed at some moment during the call; giving up means that at least five entries were written under the fence of the asset during the call; any other failure takes a cancelled step. So a call with no step cancelled and fewer than five further entries under its fence ends written or skipped. Unless it was cut off, a failed call has written nothing; five attempts take 21 I/O points at most. Without interference it writes exactly one entry if the asset is open and none otherwise |
| AssetModel.Model.PublishAssetProcessing | cli/internal/core/asset_model.go:398-416 | rejected as invalid exactly for a missing room, actor or asset or a room that is not the asset's, and nothing then happens; otherwise as the append, skips, conflicts and cancelled steps included |
| AssetModel.Model.RecordAssetDeleted | cli/internal/core/asset_model.go:508-537 | invalid exactly without actor, room or asset, and nothing then happens; any other failure takes a cancelled step; on success exactly one entry is written, the tombstone, and applied; if the others delete nothing it is the only new delete, and a failed call wrote it or nothing was deleted; without interference the maps are those after exactly this delete |
| AssetModel.Model.AppendAssetEventEventually | cli/internal/core/asset_model.go:526-537 | success means the entry was written once and is applied; failure takes a cancelled step |
| AssetModel.Model.CleanupVideoDerivativeOutput | cli/internal/core/asset_model.go:472-496 | the output is tombstoned or its failed deletion is reported, in the room it is known in or else the one given; nothing else is written, and a report takes a cancelled step |
| AssetModel.Model.CleanupVideoDerivativeOutputs | cli/internal/core/asset_model.go:462-470 | so is every output handed over, thumbnail and variants; nothing but deletes of these is written, one each at most, and there are no more reports than cancelled steps |
| AssetModel.Model.RecordAssetProcessed | cli/internal/core/asset_model.go:422-460 | under any interference, success means that the call wrote exactly its own entry, under its event id, while the asset was open, and that it is applied; or that the asset was closed at some moment during the call, every output is tombstoned or reported, and nothing but deletes of outputs was written. The entry names the thumbnail and the transcoded variants, each with its own quality and asset, in order. A call that may publish fails only after five further entries under the fence, having written nothing, or at a cancelled step |
| AssetOutputs.NameVariants | cli/internal/core/asset_model.go:427-436 | each variant with an attachment is named by its quality and its attachment's id, behind those that come before it, and nothing else is named |
| AssetOutputs.NamesIsUnique | cli/internal/core/asset_model.go:427-436 | that description fits one list only |
| AssetOutputs.RecordedOutputs | cli/internal/core/asset_model.go:422-460 | what a recorded fact names, as thumbnail or variant, are exactly the outputs handed to the call |
| AssetModel.Model.CollectDeletionTargets | cli/internal/core/asset_model.go:226-265 | while the world goes on between the reads: distinct targets, each of them owned at some moment of the collection; every asset owned at the beginning, if the references have rooms, unless it or what it was owned through was deleted since; leaf first across overlapping subtrees if the others only add and links are acyclic |
| AssetModel.Model.CollectSubtree | cli/internal/core/asset_model.go:238-264 | one subtree, as listed at one moment, from its last asset back to its root keeps those properties; of what was owned through it at the beginning nothing is left out but what was deleted since or stood below that |
| AssetModel.Model.ReadTarget | cli/internal/core/asset_model.go:249-259 | an asset that is still live is found, with its own room or else the one of its reference; it is passed over exactly if it was deleted since it was listed or if there is no room |
| AssetModel.Model.DeleteTargets | cli/internal/core/asset_model.go:267-287 | under any interference and whatever fails: the count is that of targets acknowledged as tombstoned, no more targets are left than steps were cancelled, nothing but one delete for each target at most is written, and all that are gone have a tombstone in the log; if the others delete nothing and create fresh ids only, what is gone is remembered with its room and the rest stands, failed deletes included |
| AssetTurns.CountedOneMore | cli/internal/core/asset_model.go:267-287 | one target more, deleted or left at the cost of a cancelled step, keeps that account |
| AssetModel.Model.DeleteTarget | cli/internal/core/asset_model.go:268-280 | one target: whatever becomes of its delete, what holds of the deletion so far holds after it |
| AssetModel.Model.DeleteMessageOwnedAssetsForUser | cli/internal/core/asset_model.go:225-288 | under any interference and whatever fails: what is listed was owned at some moment of the collection, and if the references have rooms it includes every asset owned at the beginning, unless others deleted it, or what it was owned through, before the collection ended. The deletion goes on after a failure: the count is that of listed assets tombstoned by this call, no more of them are left than steps were cancelled, and no other delete is written. If from the applied prefix on the others delete nothing, create fresh ids only and no parent cycle, an asset keeps its room exactly if it is gone or nothing between it and its room is gone, failed deletes included; if no step is cancelled either, every asset that had a room keeps it. Without interference exactly the owned assets are tombstoned |
| GifWalker.SkipSubBlocksFrom | cli/internal/assets/images.go:123-138 | advances over a run of sub-blocks within the bytes or reports their end |
| GifWalker.WalksPrintedBlocks | cli/internal/assets/images.go:140-187 | walking any printed list of blocks within the limits returns its number of images |
| GifWalker.ParseBlocks | cli/internal/assets/images.go:140-187 | whatever the walk accepts is a printed list of blocks within the limits, with that many images |
| GifWalker.AcceptsExactlyGifs | cli/internal/assets/images.go:108-187 | the walk returns n exactly for header, optional table, blocks with n images within all limits, trailer; a table is a list of three-byte colours, none or 2 to 256 by the packed field |
| GifWalker.TableSizeIsThreeTimesColours | cli/internal/assets/images.go:113-116 | for every packed field the walk skips three bytes for each of 0, 2, 4, 8, 16, 32, 64, 128 or 256 colours |
| GifWalker.InspectGIFFrames | cli/internal/assets/images.go:108-187 | the loop reads within bounds, always advances and returns n exactly for those bytes |
| GifCompositor.CanvasIsLastSettled | cli/internal/assets/images.go:654-685 | a canvas pixel shows the last earlier frame that stays and paints or clears there, and is transparent if there is none |
| GifCompositor.ShownIsSeen | cli/internal/assets/images.go:654-685 | a snapshot shows the frame's colour wherever the frame is solid, whatever its disposal, and elsewhere what the last earlier frame that stays and paints or clears there has left |
| GifCompositor.SeenIsUnique | cli/internal/assets/images.go:654-685 | that description fits one pixel only |
| GifCompositor.OnlyCoveringLayersMatter | cli/internal/assets/images.go:654-685 | frames that do not cover a point do not influence it |
| GifCompositor.DroppingPreviousFrame | cli/internal/assets/images.go:660-682 | removing a frame that restores the previous canvas leaves all other snapshots unchanged |
| GifCompositor.DrawOver | cli/internal/assets/images.go:666-667 | draws opaque entries of the frame, clipped to the canvas, and leaves all other pixels |
| GifCompositor.ClearRectangle | cli/internal/assets/images.go:675-677 | clears the frame's rectangle, clipped to the canvas, and leaves all other pixels |
| GifCompositor.ShowFrame | cli/internal/assets/images.go:654-685 | one round on the canvas in place: the snapshot before disposal, as just described, and the canvas after it, both pixel by pixel |
| GifCompositor.CompositeGIFFrames | cli/internal/assets/images.go:642-688 | one snapshot for each frame, pairwise distinct fresh images of the canvas size, each pixel as described and as the recursion says |
| GifCompositor.CanvasHoldsFirstFrame | cli/internal/assets/images.go:643-648 | the canvas has the screen's size, or else the smallest that holds the first frame |
| GifCompositor.MissingDisposalStays | cli/internal/assets/images.go:655-658 | a frame beyond the end of the disposal list stays, as with disposal 0 |
| GifCompositor.ListedDisposals | cli/internal/assets/images.go:655-658 | frames and disposals are taken pairwise, and a longer disposal list makes no difference |
| WebpChunks.ForceAnimatedWebPLoopForever | cli/internal/assets/avatar.go:181-214 | in place: the two loop bytes of the first ANIM chunk become zero, or the buffer is untouched and the error is the search's |
| WebpChunks.RewriteIsIdempotent | cli/internal/assets/avatar.go:181-214 | a second rewrite changes nothing |
| WebpChunks.RewriteStaysInside | cli/internal/assets/avatar.go:191-206 | only two bytes can change, past the first chunk head and within the RIFF extent, and they become zero |
| WebpChunks.AcceptsExactly | cli/internal/assets/avatar.go:186-213 | a buffer is accepted, with its position, exactly if within its extent stand chunks of other kinds and then an ANIM chunk of at least six bytes |
| WebpChunks.AcceptsPrinted | cli/internal/assets/avatar.go:191-213 | a serialised chunk list is accepted exactly if its first ANIM chunk has six bytes or more |
| WebpChunks.RewritesPrinted | cli/internal/assets/avatar.go:181-214 | rewriting a serialised chunk list gives the serialisation of the same list with only that chunk's two loop bytes zeroed |
| WebpChunks.IsAnimatedProfileBannerWebP | cli/internal/assets/profile_banner.go:25-45 | the loop decides the recursive reading of the whole buffer |
| WebpChunks.DetectsExactly | cli/internal/assets/profile_banner.go:25-45 | for every buffer: reported exactly if it is a WebP container in which chunks that show no animation are followed by the head of one that does |
| WebpChunks.DetectsPrinted | cli/internal/assets/profile_banner.go:25-45 | with nothing behind the extent, a serialised list is reported exactly if some chunk is ANIM, ANMF or an extended header with the animation bit |
| WebpChunks.WalkersAgree | cli/internal/assets/avatar.go:191-211 | whatever the rewriter accepts the detector reports, before the rewrite and after it |
| WebpChunks.DetectorReadsPastExtent | cli/internal/assets/profile_banner.go:29-43 | one way in which the converse fails, behind the extent: an ANIM head behind any container without animation is reported, and the rewriter does not look there |
| WebpChunks.AnimationWithoutAnim | cli/internal/assets/profile_banner.go:29-43 | another, within the extent: animation frames or an animated extended header without an ANIM chunk are reported, and the rewriter finds nothing |
| WebpChunks.ConverseExactly | cli/internal/assets/profile_banner.go:25-45 | with nothing behind the extent the converse holds exactly if no chunk shows an animation or the first ANIM chunk has at least six bytes |
| BigEndian.PutUint64 | cli/internal/connectapi/messages.go:92-93 | stores the eight digits at the given place and changes no other byte |
| BigEndian.Uint64RoundTrip | cli/internal/connectapi/room_timeline.go:275-304 | eight digits denote the 64-bit value they were made from |
| BigEndian.EightBytesDenote | cli/internal/connectapi/messages.go:92-93 | the most significant byte comes first |
| Fingerprint.CreateMessageRequestFingerprint | cli/internal/connectapi/messages.go:89-114 | the digest of the request's byte stream |
| Fingerprint.ReadsPreImage | cli/internal/connectapi/messages.go:89-114 | the stream can be read back to the request, whatever follows it |
| Fingerprint.PreImageIsPrefixFree | cli/internal/connectapi/messages.go:89-114 | equal streams mean equal requests in every field, and no stream is a proper prefix of another |
| TimelineCursor.Base64RoundTrip | cli/internal/connectapi/room_timeline.go:278-297 | every byte string survives encoding and decoding |
| TimelineCursor.QuantumIsBitwise | cli/internal/connectapi/room_timeline.go:278 | four characters are the 24 bits of three bytes, most significant bits first |
| TimelineCursor.LettersAreUrlSafe | cli/internal/connectapi/room_timeline.go:278 | the alphabet is the URL-safe one |
| TimelineCursor.EncodesWithoutPadding | cli/internal/connectapi/room_timeline.go:278 | the length of the encoding: no padding |
| TimelineCursor.FormatRoomTimelineCursor | cli/internal/connectapi/room_timeline.go:271-279 | the cursor it writes parses back to the sequence, zero included |
| TimelineCursor.FormatRoundTrips | cli/internal/connectapi/room_timeline.go:271-304 | the same for the specified cursor, for every 64-bit sequence |
| TimelineCursor.FormatIsInjective | cli/internal/connectapi/room_timeline.go:271-279 | no two sequences share a cursor |
| TimelineCursor.OpaqueCursorIsFrame | cli/internal/connectapi/room_timeline.go:292-304 | an opaque cursor parses to n exactly if, line breaks aside, it spells version byte and digits of n |
| TimelineCursor.StripDropsBreaks | cli/internal/connectapi/room_timeline.go:296 | a line break anywhere in the encoded part makes no difference |
| TimelineCursor.OpaqueCursorIsCanonical | cli/internal/connectapi/room_timeline.go:292-304 | without line breaks the only opaque cursor of a non-zero sequence is the formatted one |
| TimelineCursor.DecimalCursorRoundTrips | cli/internal/connectapi/room_timeline.go:285-291 | the decimal form parses to its number exactly within 64 bits |
| TimelineCursor.SequenceCursorIsDecimal | cli/internal/connectapi/room_timeline.go:285-291 | a sequence cursor parses to n exactly if it is the decimal form of n, behind zeros at most, within 64 bits |
| TimelineCursor.OtherCursorsAreRefused | cli/internal/connectapi/room_timeline.go:281-295 | the empty cursor is zero, and a cursor with neither prefix is refused |
| KeyTransfer.Bucket.Create | cli/cmd/keys.go:275-285 | adds an entry only where none is, and never replaces one |
| KeyTransfer.SelectImportable | cli/cmd/keys.go:261-273 | accepts exactly lists whose every key is a wrapped data key or valid, else reports the first fault |
| KeyTransfer.ValidRecords | cli/internal/kms/builtin.go:137-168 | user keys are valid exactly at 32 bytes, key-encryption keys at 32 bytes or as an envelope, and nothing else is |
| KeyTransfer.OneMoreKey | cli/cmd/keys.go:228-273 | an import passes over a ref that starts with `dek.` and takes in any other, under its ref or else under its user's; without either it is at fault |
| KeyTransfer.CreateAll | cli/cmd/keys.go:275-285 | stops at the first failed request; what was answered is merged and counted |
| KeyTransfer.ImportKeys | cli/cmd/keys.go:256-287 | an invalid key anywhere writes nothing and counts nothing; otherwise the bucket is the merge, the counters add up and imported is the growth of the bucket |
| KeyTransfer.MergeKeepsEntries | cli/cmd/keys.go:275-285 | an import never changes an entry that is there |
| KeyTransfer.MergeAddsFirst | cli/cmd/keys.go:275-285 | a new ref gets the bytes of the first record that carries it, and no other ref appears |
| KeyTransfer.SecondImportAddsNothing | cli/cmd/keys.go:275-285 | importing the same keys again changes nothing |
| KeyTransfer.ExportAllKeys | cli/cmd/keys.go:296-334 | succeeds exactly if every portable record is readable and valid; the selection is those records, and each counter counts its prefix |
| KeyTransfer.PortableRefs | cli/cmd/keys.go:305-331 | an export leaves out refs that start with `dek.` or `call.e2ee.` and takes in every other |
| KeyTransfer.ExportedKeyIsImported | cli/cmd/keys.go:228-254 | an exported key comes back under its own ref and passes validation |
| KeyTransfer.UserIdNamesSameKey | cli/cmd/keys.go:228-236 | an exported user key can be imported by its user id alone, and no other key carries a user id |
| KeyTransfer.ExportsAreImportable | cli/cmd/keys.go:228-334 | an import takes in every exported key and nothing else |
| KeyTransfer.ExportThenImport | cli/cmd/keys.go:256-334 | the target becomes exactly its extension by the source's records that are neither wrapped data keys nor call keys |
| PushDedupe.DedupePushSubscriptionsByClientID | cli/cmd/run.go:615-640 | the pass with its index map returns the deduplicated list described below |
| PushDedupe.DedupedIsDeduped | cli/cmd/run.go:615-640 | entries without a client all stay; each client keeps one entry at the place of its first: the earliest listed among those with the latest creation time, or its first if none has a time |
| PushDedupe.ReadingIsUnique | cli/cmd/run.go:615-640 | that description fits one list only |
| PushDedupe.StandInChallenged | cli/cmd/run.go:735-745 | a further entry of a client replaces the kept one exactly if it is newer |
| PushDedupe.DedupeIsIdempotent | cli/cmd/run.go:615-640 | deduplicating twice is deduplicating once |
| NotificationPreview.LimitNotificationMessagePreviewRunes | cli/internal/connectapi/notification_assembler.go:174-191 | the text, or its longest run of whole clusters within 511 runes and an ellipsis |
| NotificationPreview.TruncateNotificationMessagePreview | cli/internal/connectapi/notification_assembler.go:155-172 | cut at the last blank of clusters 81 to 99 or at 100; at most 512 runes; the text itself exactly if both limits are kept, else a strict prefix and one ellipsis |
| NotificationPreview.PreviewIsTextOrShortened | cli/internal/connectapi/notification_assembler.go:155-191 | the same for every result that fits the description, also when both stages cut and the cut text is segmented anew |
| NotificationPreview.PreviewIsUnique | cli/internal/connectapi/notification_assembler.go:155-191 | the description fits one preview only |
| AvatarFrame.ContainsSource | cli/internal/assets/avatar_framing.go:216-229 | inside the square, centred to within a pixel; width² + height² ≤ target² exactly for targets of at least 2, clamps included; one pixel more both ways would not fit |
| AvatarFrame.KeepsProportions | cli/internal/assets/avatar_framing.go:223-225 | each side is its own source side, scaled by the same ratio and rounded down, and the longer side stays the longer one |
| AvatarFrame.NothingToContain | cli/internal/assets/avatar_framing.go:217-219 | without a positive source and target the rectangle is empty |
| AvatarFrame.CornersFitExactly | cli/internal/assets/avatar_framing.go:216-229 | for every positive source and target: no corner is clipped exactly if the two scaled sides, each made up to the target's parity, still fit the circle |
| AvatarFrame.CornersByParity | cli/internal/assets/avatar_framing.go:223-228 | from targets of 2 on: nothing is clipped if both sides have the target's parity, a corner always is if neither has, and if one has it depends on whether the other could be one longer |
| AvatarFrame.SquareSourceIsClipped | cli/internal/assets/avatar_framing.go:187-228 | every square source on the largest target of 256 becomes 181 pixels, off centre both ways, and loses a corner |

## Left out

- AssetModel.Model.DeleteMessageOwnedAssetsForUser: which rooms are left is not said of runs in which others delete, create an id anew or close a parent cycle meanwhile, or had done so beyond the applied prefix, nor for maps whose child index has lost a child by then; there an ancestor may go before an asset below it.
- AssetModel.Model.CollectDeletionTargets: the list of a user's message assets, taken from the room timeline, is a parameter.
- AssetModel.Model.ShouldAppendAssetProcessingEvent: for events that are not processing events the server answers yes unless there is a tombstone; its callers in the server pass processing events.
- AssetModel.Model.RecordAssetDeleted: the conflict retries and delays of the eventual append are one append that may fail. Any failed I/O step of a call, not only a cancelled context, is a cancelled step here.
- AssetModel.StartProjector: a stream in which a lifecycle event id repeats leaves the guard judging by ids for good. `ReplayGuard.AcceptedById` and `AssetReplay.Feed` say what it accepts then; the calls of `AssetModel` start from a guard that judges by sequence. Legacy room lanes are folded before that point.
- GifWalker.InspectGIFFrames: the server does not check the signature, so the header is any thirteen bytes; error texts are error kinds.
- GifCompositor.CompositeGIFFrames: palette entries are fully opaque or fully transparent, as decoded GIFs have them; blending of partial opacity is not modelled.
- WebpChunks.ForceAnimatedWebPLoopForever: sizes are those of 64-bit integers, where the overflow checks never fire.
- KeyTransfer.ExportAllKeys: which bytes decode as a key envelope is a parameter; the file format, its encryption and the interactive parts are left out.
- NotificationPreview.TruncateNotificationMessagePreview: segmentation and blankness are parameters; text is valid Unicode.
- AvatarFrame.ContainsSource: arithmetic is exact; rounding of floating point is left out.
- Fingerprint.CreateMessageRequestFingerprint: the digest is a parameter; its strength is not a subject here.
- Acyclic parent links are assumed through a rank, for the deletion order only.
- Secure deletion and purging of stream messages, storage deletion, logging, metrics, locks and copies of protobuf messages.
- Image decoding, resampling and encoding; loop count and delay conversion of animations.
- Request handling, permissions, pagination, configuration, the command line and the clients.
