# A verified model of NFD's RIB and FIB updater, and of the ndn-cxx types around it

Named data is forwarded by name prefix. The RIB manager of NFD keeps *routes* (face, origin, flags, cost) under
name prefixes; the forwarder has a FIB of *next hops*. A route with the child-inherit flag also counts for longer
names; a route with the capture flag keeps shorter names' routes away from its name and everything under it. The
FIB updater turns every RIB change into a small list of next-hop additions and removals, sends them to the
forwarder, and lets the RIB change take place when they are acknowledged.

This project models that machinery in Dafny and proves what it does, for all tables, all updates and all runs:

* **The RIB tree** (`Names`, `RibLinks`, `RibTree`, `RibObjects`). Entries with parent and children links, the
  sorted table, the face index and the route count are changed in place by classes; each method is proved against
  a function on values, and the values are proved to stay exact under every sequence of `insert` and `erase`.
* **The FIB updater** (`FibSpec`, `FibOps`, `FibSubtree`, `FibCompute`, `FibApply`, `FibEdit`, `RouteLists`, `FibSteps`,
  `FibKnown`, `FibTheorem`, `FibCommit`, `FibRecapture`, `FibUpdaterObject`). The FIB that a RIB stands for is defined from the routes
  alone (`FibSpec.NextHop`). `FibTheorem.UpdateExact` says for every face, and for every table with whatever routes on
  whatever faces, that the incremental updates lead to exactly that FIB *if and only if* `SoundOn` holds, a condition on
  the table before the update. `FibRecapture.EveryUpdateExact` adds the registrations that change a capture flag, and so
  covers every update that the code can compute.
* **The protocol** (`FibUpdates`, `FibRecords`, `UpdateProtocol`, `UpdateProgress`, `UpdateData`, `FibRuns`,
  `DestroyedFaces`, `FaceRemoval`). Queue, batches, acknowledgements, timeouts, retries, 410 responses, destroyed faces: in every
  interleaving, face by face, whenever no batch is in flight the forwarder's FIB is the declarative one, as long as the
  batches were sound on the face, except for the hops of cost 0 that retried removals left behind; these are followed
  through the later batches until an update settles them. Every batch is finished after a bounded number of answers.
  The steps that keep one batch at a time are characterised exactly.
* **Where the code departs from that** (`Witnesses`, `FibSiblings`, `ProtocolLimits`). States and runs built from the
  empty RIB, and the update or the event that goes wrong there, with the exact condition.
* **Exclude** (`RangeMap`, `ExcludeFilter`, `ExcludeWire`, `ExcludeObject`). An interval set over name components: each request
  adds exactly what it asks for if and only if it fits; ranges recovered by the iterator; the wire elements.
* **Name components** (`Bytes`, `NameComponent`, `ComponentUri`). Canonical order by wire and by value, exact
  successor, URI round trip.
* **Interest matching** (`InterestMatch`) and **segmented files** (`SegmentedFile`, `SegmentedFetch`).

`dafny verify dfyconfig.toml` checks everything. There is no I/O in the project.

## Reading the model

* `Name` is a sequence of components; `p <= n` on names reads "p is a prefix of n".
* A `Table` maps names to entries whose links are names; the classes in `RibObjects` hold references, and
  `Rib.View()` is the table as a value. `View() == Tree.Insert(old(View()), ...)` is how the two meet.
* An `Op` is one emission of the updater: a next-hop change, with or without an inherited-route record.
* `SoundOn(t, u, f)`: on face `f` the update leaves the name's own next hop right, what it delivers to the names
  under it is what the name then sends down (or nobody there would use the face), and it takes nothing away from a
  name that keeps a leftover record beside a route of its own. `MissesOwn`, `Misdelivers` and `TakesAway` spell the three
  parts out, case by case, in terms of the table before the update.
* `Admissible`: a registration does not change the capture flag of a known route, and does not dereference null. Runs
  are made of admissible updates, with any number of routes of a name on one face. A changed capture flag has a condition
  of its own, `RecaptureSound`.
* `Covered`: whatever a name inherits on a face is recorded. Every sound update keeps it. `Tidy`: no record stands beside
  an own route; an update keeps that if and only if `NoLeftover` holds.
* `Good`: links, order, index, route count and capture counters are exact.
* `LeftOver(states, k, f)`: the names for which a retried removal has left a hop on face `f` in the forwarder. A completed
  batch adds those whose removal it retried and drops those for which it has another update.
* `Orderly`: a 410 on the batch face comes only for the last command on its way, and no update runs out of retries.
* The definitions that other results lean on are characterised by themselves, without naming the function that computes
  them: `FibSpec.NextHopMeans`, `Names.CompareIsLexicographic`, `NameComponent.CanonicalOrder`, `Routes.FlagBits`,
  `ExcludeWire.WireMeansFilter`, `InterestMatch.MatchesExactly`, `DestroyedFaces.StartSends`,
  `FaceRemoval.ExactRoutesAfterCommit`, `SegmentedFile.SegmentsAreThousands` and the rows on what URIs look like.

## Where the code and its documentation disagree

* `RibEntry` documents its counter as the number of routes with capture; re-registration does not maintain it
  (`FibCommit.CounterExactIff`). The model follows the code.
* The comment in `prepareNextData` promises packets up to eleven beyond the requested one. The first request prepares one
  fewer, and for a request above the last packet the unsigned difference wraps and nothing is prepared.
  `SegmentedFile.WindowPreparedIff` says exactly when the promise is kept. The model follows the code.
* A command that times out is documented as retried; a removal is retried as an addition
  (`ProtocolLimits.RetriedRemovalLeavesHop`, `FibRuns.RetriedRemovalDecides`). The model follows the code.

## Model

| member | source | states |
|---|---|---|
| `Names.CompareTotalOrder` | ndn/ndn-cxx/src/name.cpp:323-341 | name order is antisymmetric and its zero is equality; which name comes first is said by `CompareIsLexicographic` |
| `Names.CompareIsLexicographic` | ndn/ndn-cxx/src/name.cpp:323-341 | for every two names: behind their longest common front the components decide in their own order, or, where one name ends, the shorter one is first |
| `Names.FirstDifferenceDecides` | ndn/ndn-cxx/src/name.cpp:323-341 | for every common front, any two different components after it and whatever follows: the names compare as the components do |
| `Names.ShorterIsFirst` | ndn/ndn-cxx/src/name.cpp:323-341 | a proper prefix of a name comes before it |
| `Names.ExtensionsAreContiguous` | ndn/NFD/rib/rib.cpp:219-239 | every name between a prefix and one of its extensions in canonical order is an extension too: the reason the scan may stop early |
| `Names.ParentOfIff` | ndn/NFD/rib/rib.cpp:205-217 | the found parent is the longest proper prefix in the table, and there is none exactly when no proper prefix is |
| `Names.ParentAfterInsert` | ndn/NFD/rib/rib.cpp:125-156 | which names get a new parent when a name enters the table |
| `Names.ParentAfterErase` | ndn/NFD/rib/rib.cpp:255-293 | which names get a new parent when a name leaves the table |
| `RibTree.ScanIsUnder` | ndn/NFD/rib/rib.cpp:219-253 | the contiguous scan of `findDescendants` returns the same names as filtering the whole table |
| `RibTree.AttachExact` | ndn/NFD/rib/rib.cpp:125-156 | adopting those children of the parent that extend the new name makes parents and children exact again |
| `RibTree.DetachExact` | ndn/NFD/rib/rib.cpp:255-293 | handing the children up makes parents and children exact again, and the assertions of the links hold on the way |
| `RibTree.InsertKeepsExact` | ndn/NFD/rib/rib.cpp:83-160 | `insert` keeps sorted keys, exact parents, duplicate-free inverse children, distinct routes, face index and route count |
| `RibTree.EraseKeepsExact` | ndn/NFD/rib/rib.cpp:162-190 | `erase` keeps all of that, also when the entry leaves the table |
| `RibObjects.RibEntry.FindRouteIndex` | ndn/NFD/rib/rib-entry.cpp:37-47 | the first route with equal face and origin |
| `RibObjects.RibEntry.InsertRoute` | ndn/NFD/rib/rib-entry.cpp:49-66 | a known route is not inserted; a new one is appended and counted if it captures |
| `RibObjects.RibEntry.PutRoute` | ndn/NFD/rib/rib.cpp:91-121 | route list and counter after `insert`, with the counter untouched for a known route |
| `RibObjects.RibEntry.EraseRouteAt` | ndn/NFD/rib/rib-entry.cpp:113-129 | the route goes and the 64-bit counter is decremented if it captured |
| `RibObjects.RibEntry.HasFaceId` | ndn/NFD/rib/rib-entry.cpp:83-89 | some route is on the face |
| `RibObjects.RibEntry.HasInheritedRoute` | ndn/NFD/rib/rib-entry.cpp:145-158 | some record is on the face |
| `RibObjects.RibEntry.HasChildInheritOnFaceId` | ndn/NFD/rib/rib-entry.cpp:166-176 | some child-inherit route is on the face |
| `RibObjects.RibEntry.LowestCost` | ndn/NFD/rib/rib-entry.cpp:178-198 | the first of the cheapest routes on the face |
| `Routes.CheapestIsFirst` | ndn/NFD/rib/rib-entry.cpp:178-198 | no route on the face is cheaper than the chosen one, and none listed before it is as cheap |
| `RibObjects.RibEntry.LowestCostOffer` | ndn/NFD/rib/rib-entry.cpp:224-247 | the first of the cheapest child-inherit routes on the face |
| `Routes.CheapestOfferIsFirst` | ndn/NFD/rib/rib-entry.cpp:224-247 | the same among the child-inherit routes |
| `Routes.FlagBits` | ndn/NFD/rib/route.hpp:66-76 | child-inherit is the lowest bit of the flags and capture the next one |
| `RibObjects.RibEntry.RemoveInherited` | ndn/NFD/rib/rib-entry.cpp:137-143 | the first record on the face goes; there must be one |
| `Routes.RemoveFirstTakesOne` | ndn/NFD/rib/rib-entry.cpp:137-143 | exactly the record at the first position on the face is taken out |
| `RibObjects.RibEntry.AddChild` | ndn/NFD/rib/rib-entry.cpp:97-103 | the child is appended and gets its parent; the assertion is the precondition |
| `RibObjects.RibEntry.RemoveChild` | ndn/NFD/rib/rib-entry.cpp:105-111 | the child is removed and loses its parent; the assertion is the precondition |
| `RibObjects.Rib.FindParent` | ndn/NFD/rib/rib.cpp:205-217 | the entry of the longest proper prefix in the table |
| `RibObjects.Rib.FindDescendants` | ndn/NFD/rib/rib.cpp:219-239 | exactly the entries strictly under the name, in key order; nothing for a name that is not in the table |
| `RibObjects.Rib.FindDescendantsForNonInsertedName` | ndn/NFD/rib/rib.cpp:241-253 | every entry whose name extends the given one; for a name that is not in the table the same set as the scan |
| `RibObjects.Rib.Insert` | ndn/NFD/rib/rib.cpp:83-160 | the linked objects show `Insert` of the old table, and stay valid |
| `RibObjects.Rib.EraseEntry` | ndn/NFD/rib/rib.cpp:255-293 | the entry leaves, its children go to its parent; the assertions of `addChild` and `removeChild` hold |
| `RibObjects.Rib.Erase` | ndn/NFD/rib/rib.cpp:162-190 | the linked objects show `Erase` of the old table, and stay valid |
| `RibObjects.Rib.GetAncestorRoutes` | ndn/NFD/rib/rib.cpp:295-341 | terminates and collects the ancestor routes of an entry or of a name |
| `RibObjects.Rib.ModifyInheritedRoutes` | ndn/NFD/rib/rib.cpp:457-477 | the records after the list of inherited-route updates |
| `RibObjects.Rib.OnFibUpdateSuccess` | ndn/NFD/rib/rib.cpp:413-441 | in every valid state: the linked objects show the route change and then the records after the given list, and the next batch starts; that the list can be applied is the precondition |
| `RibObjects.Rib.CommitBatch` | ndn/NFD/rib/rib.cpp:413-477 | with the list computed for the update, the linked objects show its commit; no assertion fails and no erasure misses unless the update erases a record twice |
| `RibObjects.Rib.OnFibUpdateFailure` | ndn/NFD/rib/rib.cpp:443-455 | nothing of the RIB changes, the slot is free and the next batch starts |
| `RibObjects.Rib.FindRoutesWithFaceId` | ndn/NFD/rib/rib.cpp:479-504 | the loops through the face index give the removals that the value-level index calls for |
| `RibObjects.Rib.BeginRemoveFace` | ndn/NFD/rib/rib.cpp:355-368 | those removals join the queue in order, and the oldest batch starts unless one is in progress |
| `RibObjects.UpdateQueue.SendBatchFromQueue` | ndn/NFD/rib/rib.cpp:380-411 | the oldest batch leaves the queue and occupies the slot, unless the slot is taken or the queue is empty |
| `RibObjects.UpdateQueue.BeginApplyUpdate` | ndn/NFD/rib/rib.cpp:343-353 | the update joins the queue at its end, and the oldest batch starts unless one is in progress |
| `RibObjects.AdvancedIff` | ndn/NFD/rib/rib.cpp:343-411 | in every call that can start a batch: the batch taken and those left are those that waited, in order, and one is taken exactly when one waits and none is in progress |
| `FibCompute.AncestorRoutesExact` | ndn/NFD/rib/rib.cpp:295-341 | per face: the first child-inherit route of the nearest ancestor that offers one, cut after the first capturing ancestor |
| `FibSpec.NextHopMeans` | ndn/NFD/rib/rib.cpp:295-341 | what the declarative FIB is, in terms of the routes: a next hop of cost c exactly where c is the least cost of an own route on the face, or, without one and without an own capturing route, the cost of the offer of the nearest ancestor past which no name captures or offers |
| `Routes.OfferIsFirst` | ndn/NFD/rib/rib.cpp:295-316 | an ancestor's offer on a face is its first listed child-inherit route there |
| `FibSubtree.ProjectTraverse` | ndn/NFD/rib/fib-updater.cpp:649-697 | what a traversal emits about one name and face, for every finite tree |
| `FibSubtree.ProjectUnder` | ndn/NFD/rib/fib-updater.cpp:639-697 | the traversal reaches a name exactly when nothing on the way captures or offers the face itself |
| `FibEdit.EditExact` | ndn/NFD/rib/fib-updater.cpp:639-697 | with covering records, one or two traversals are a correct delta if and only if the own next hop comes out right, they deliver what the name sends down now or nobody would use it, and nothing is taken away at a name with a leftover record |
| `FibTheorem.UpdateExact` | ndn/NFD/rib/fib-updater.cpp:94-188 | from an exact FIB with covering records, in any table: an admissible update leads to the exact FIB on a face if and only if it is sound there, and the records then still cover |
| `FibRecapture.EveryUpdateExact` | ndn/NFD/rib/fib-updater.cpp:94-188 | the same for every update that can be computed: one that changes the capture flag of a known route is exact if and only if `RecaptureSound` holds |
| `FibRecapture.OtherCaptureIsOverlooked` | ndn/NFD/rib/fib-updater.cpp:538-561 | a reachable state in which capture is turned off on one of two capturing routes, and the name gets its ancestors' route though it still captures |
| `FibTheorem.RegisterNewName` | ndn/NFD/rib/fib-updater.cpp:378-423 | registering under a new name, with any flags and in any tree, is exact if and only if capture meets no leftover record below; always where there is none |
| `FibCommit.CommitKeepsGood` | ndn/NFD/rib/rib.cpp:413-477 | every update keeps links, order, index and count, and the capture counters exact if and only if it does not change the capture flag of a known route |
| `FibCommit.CommitKeepsExact` | ndn/NFD/rib/rib.cpp:413-477 | the same for links, order, index and count with the records of any emissions |
| `FibCommit.CommitIsClean` | ndn/NFD/rib/rib.cpp:457-477 | for every update: each inherited-route update names an existing entry and each removal finds a record, if and only if the update is not one registration that turns child-inherit off and capture on above a leftover record |
| `FibCommit.TidyIff` | ndn/NFD/rib/fib-updater.cpp:425-629 | no record stands beside an own route after the update if and only if it leaves none of its own |
| `FibCommit.CounterExactIff` | ndn/NFD/rib/rib.cpp:104-121 | `insert` keeps the capture counters exact if and only if it does not change the capture flag of a known route |
| `FibCommit.CounterWraps` | ndn/NFD/rib/rib-entry.cpp:113-129 | turning capture on by re-registration and then erasing the route wraps the counter around |
| `FibRecords.RecordsAreApplied` | ndn/NFD/rib/rib.cpp:457-477 | applying the list of inherited-route updates does what the emissions say, without hitting an assertion |
| `FibUpdates.ListsKeepMeaning` | ndn/NFD/rib/fib-updater.cpp:315-336 | the batch list and then the other list, each in any order, do what the raw sequence of updates does in order |
| `FibUpdates.ListOfKeepsLast` | ndn/NFD/rib/fib-updater.cpp:315-336 | each list holds the last update of every pair on its faces, once, and nothing else |
| `FibUpdaterObject.FibUpdater.AddFibUpdate` | ndn/NFD/rib/fib-updater.cpp:315-336 | an earlier update of the pair is replaced in place, in the list of its face |
| `FibUpdaterObject.FibUpdater.RemoveInheritedRoutes` | ndn/NFD/rib/fib-updater.cpp:366-376 | removals for the routes of which there is a record |
| `FibUpdaterObject.FibUpdater.AddInheritedRoutes` | ndn/NFD/rib/fib-updater.cpp:338-350 | additions for the routes on whose face the entry has none |
| `FibUpdaterObject.FibUpdater.AddInheritedRoutesExcept` | ndn/NFD/rib/fib-updater.cpp:352-364 | additions for the routes on other faces than the ignored one |
| `FibUpdaterObject.FibUpdater.TraverseSubTree` | ndn/NFD/rib/fib-updater.cpp:649-697 | the recursion over linked entries emits the traversal of the table, terminates, and keeps both lists |
| `FibUpdaterObject.FibUpdater.ModifyChildren` | ndn/NFD/rib/fib-updater.cpp:639-647 | the traversals of the children, one after the other |
| `FibUpdaterObject.FibUpdater.CreateForNewRibEntry` | ndn/NFD/rib/fib-updater.cpp:378-423 | the emissions for a new name |
| `FibUpdaterObject.FibUpdater.CreateForNewRoute` | ndn/NFD/rib/fib-updater.cpp:425-462 | the emissions for a further route |
| `FibUpdaterObject.FibUpdater.CreateForUpdatedRoute` | ndn/NFD/rib/fib-updater.cpp:464-561 | the emissions for a changed route; that no null pointer is dereferenced is the precondition |
| `FibUpdaterObject.FibUpdater.CreateForErasedRoute` | ndn/NFD/rib/fib-updater.cpp:563-629 | the emissions for an erased route |
| `FibUpdaterObject.FibUpdater.CreateForErasedRibEntry` | ndn/NFD/rib/fib-updater.cpp:631-637 | the emissions for an entry that leaves |
| `FibUpdaterObject.FibUpdater.ComputeForRegistration` | ndn/NFD/rib/fib-updater.cpp:94-146 | the emissions for a registration, whether name and route are known or not, unless it dereferences null |
| `FibUpdaterObject.FibUpdater.ComputeForUnregistration` | ndn/NFD/rib/fib-updater.cpp:148-188 | the emissions for an unregistration; none if there is nothing to unregister |
| `FibUpdaterObject.FibUpdater.ComputeUpdates` | ndn/NFD/rib/fib-updater.cpp:49-92 | both lists and the inherited-route updates are those of the emissions for the update, unless it dereferences null; nothing is kept for a destroyed face |
| `UpdateProtocol.StepKeepsProtocol` | ndn/NFD/rib/fib-updater.cpp:210-313 | every orderly step keeps the protocol invariant: one batch at a time, batch face first, bounded sends, updates in order |
| `UpdateProtocol.StepKeepsProtocolIff` | ndn/NFD/rib/fib-updater.cpp:257-313 | of all steps that the code can take exactly the orderly ones keep that invariant; after any other an update has thrown, or the slot is free with commands on their way |
| `UpdateProtocol.GoneFreesSlotIff` | ndn/NFD/rib/fib-updater.cpp:297-300 | a 410 on the batch face ends the batch as failed and frees the slot with every other command still on its way; nothing is on its way if and only if it was the only command |
| `UpdateProtocol.OrderlyRuns` | ndn/NFD/rib/rib.cpp:343-455 | over every orderly run: nothing outstanding between batches, only commands of the batch in flight, none on another face before the batch face is done, at most 11 sends of any update, the RIB is the fold of the applied updates, and every update is finished once, in enqueue order; what a batch sends is said by `DestroyedFaces.StartSends` and `RemovalsNeverFail` |
| `UpdateProtocol.ThrowsAfterElevenSends` | ndn/NFD/rib/fib-updater.cpp:287-312 | a timed-out update is sent again, as an addition, and throws exactly when it has been sent eleven times |
| `DestroyedFaces.StartSends` | ndn/NFD/rib/fib-updater.cpp:49-223 | what is on its way once a batch has started, in terms of its emissions: the last update of every pair on its own face, none of these if the face is being removed; if there is none, those of the other faces; if there is none either, the batch is applied at once |
| `DestroyedFaces.NothingToTell` | ndn/NFD/rib/fib-updater.cpp:83-88 | a batch that removes a face and whose emissions are all on it is applied when it starts, with nothing sent |
| `DestroyedFaces.RemovalsNeverFail` | ndn/NFD/rib/fib-updater.cpp:83-88 | over every orderly run: no command on the face of a face removal in progress is on its way, and no face removal has ever failed |
| `DestroyedFaces.DeadIffDestroyed` | ndn/NFD/daemon/fw/face-table.cpp:94-105 | over every orderly run the faces that answer with a 410 are exactly those that were destroyed |
| `DestroyedFaces.DeadFacesHoldNone` | ndn/NFD/daemon/table/cleanup.cpp:31-42 | over every orderly run no destroyed face holds a next hop |
| `UpdateProgress.StepProgresses` | ndn/NFD/rib/fib-updater.cpp:257-313 | an acknowledgement or ignored 410 leaves one command less to go and the last one finishes the batch, a timeout costs one of eleven tries, and nothing else changes what is to go |
| `UpdateProgress.NeverStuck` | ndn/NFD/rib/rib.cpp:381-411 | a batch in flight always has a command that can be answered, and otherwise a queued update can be taken up |
| `UpdateProgress.BatchProceeds` | ndn/NFD/rib/fib-updater.cpp:210-313 | over every orderly run, while a batch is in flight: the commands to go and the settled ones add up to what there was to go, and every answer or timeout uses up part of a fixed budget |
| `UpdateProgress.BatchFinishes` | ndn/NFD/rib/fib-updater.cpp:210-313 | over every orderly run: a batch is finished by exactly as many acknowledgements and ignored 410s as there were commands to go, unless a 410 ends it before, and after at most eleven times as many answers if some are timeouts |
| `UpdateData.StepKeepsData` | ndn/NFD/rib/fib-updater.cpp:210-313 | every orderly step keeps each settled pair at its final value: the result of the batch, or the cost of the update where a removal was retried |
| `UpdateData.SettleStep` | ndn/NFD/rib/fib-updater.cpp:263-313 | one acknowledgement or ignored 410 settles one pair, and the last one completes the batch |
| `FibRuns.StepKeepsRun` | ndn/NFD/rib/fib-updater.cpp:210-313 | every lawful step, also with lost removals and a lone 410 on the batch face, keeps protocol, data and RIB invariants |
| `FibRuns.StepKeepsRunIff` | ndn/NFD/rib/fib-updater.cpp:210-313 | of all steps that the code can take and that start an admissible batch, exactly the orderly ones keep them |
| `FibRuns.StepKeepsFace` | ndn/NFD/rib/fib-updater.cpp:210-313 | every step, also a lost removal, that starts only what is sound on a face keeps the FIB exact there between batches, but for the names left over |
| `FibRuns.RunsStayExact` | ndn/NFD/rib/fib-updater.cpp:49-313 | in every run, whatever timed out, and for every live face on which the batches were sound: between batches every next hop with its cost is the declarative one, except that a name left over has one of cost 0 and should have none; so the FIB is exact if and only if no name is left over |
| `FibRuns.NothingLostNothingLeft` | ndn/NFD/rib/fib-updater.cpp:287-295 | no name is left over on a face of which no removal timed out |
| `FibRuns.RetriedRemovalDecides` | ndn/NFD/rib/fib-updater.cpp:287-313 | in every run: when a batch that is sound on a live face completes from an exact FIB, the FIB is exact there if and only if every removal on the face was sent once |
| `FibRuns.PlainRunsStayExact` | ndn/NFD/rib/fib-updater.cpp:94-188 | runs of new names and of unregistrations of sole routes without capture need no soundness condition: the same on every live face |
| `FaceRemoval.FaceRemovalsComplete` | ndn/NFD/rib/rib.cpp:479-504 | the face index leads to every route on the face and to no other |
| `FaceRemoval.RemovedAsOftenAsListed` | ndn/NFD/rib/rib.cpp:479-504 | every route on the face is asked to be removed exactly as often as the index lists its name |
| `FaceRemoval.SiblingIsRemovedTwice` | ndn/NFD/rib/rib.cpp:99-106 | a further route on a face lists the name again, so that each of its routes there is asked to be removed more than once |
| `FaceRemoval.RoutesAfterCommit` | ndn/NFD/rib/rib.cpp:413-430 | a commit adds or removes exactly the route of the update, identified by name, face and origin |
| `FaceRemoval.ExactRoutesAfterCommit` | ndn/NFD/rib/rib.cpp:413-430 | the same with flags and cost: a registration leaves the route as asked for, an erasure none with its face and origin, and every other route stays as it was |
| `FaceRemoval.FaceIsDrained` | ndn/NFD/rib/rib.cpp:355-368 | when the removals are done, among any other updates that register nothing on the face, no route on the face is left |
| `FaceRemoval.RunDrainsFace` | ndn/NFD/rib/rib.cpp:355-455 | over every orderly run: once the removals that the index called for have been taken up and finished, with no registration on the face applied since, no route on the face is left |
| `FaceRemoval.QueuedRemovalsDrainFace` | ndn/NFD/rib/rib.cpp:355-455 | over every orderly run: if those removals are queued, and no registration on the face is queued, in progress or to come, no route on the face is left as soon as the queue is empty and no batch is in flight |
| `FaceRemoval.AppliedRemovalsDrainFace` | ndn/NFD/rib/rib.cpp:355-455 | over every run of enabled events, also with overlapping batches, lost removals and unsound batches: the same once the removals have been applied |
| `Witnesses.ErasedCaptureKeepsRoutesAway` | ndn/NFD/rib/fib-updater.cpp:569-585 | a reachable state in which erasing the last route of a capturing name leaves its subtree without the ancestors' routes |
| `Witnesses.CaptureTakesOwnOfferAway` | ndn/NFD/rib/fib-updater.cpp:444-452 | a reachable state in which a further capturing route takes from the subtree a face that the name offers itself |
| `Witnesses.ErasedOfferBringsWrongCost` | ndn/NFD/rib/fib-updater.cpp:587-599 | a reachable state in which erasing one of several offers gives the subtree the ancestor's cost on a face the name still offers |
| `Witnesses.LeftoverRecordLosesHop` | ndn/NFD/rib/fib-updater.cpp:669-673 | whenever an update takes a face away from a name in reach with a route of its own there, the next hop of that name stays right if and only if it keeps no leftover record; otherwise it is gone |
| `Witnesses.OwnHopIsLost` | ndn/NFD/rib/fib-updater.cpp:425-462 | a reachable run to that loss |
| `FibSiblings.SiblingRegistrationExact` | ndn/NFD/rib/fib-updater.cpp:425-462 | a further route on a face the name already uses, for every face: the own next hop is right unless capture takes it for an inherited one, and the names below are right if and only if the cheapest offer that is delivered costs what the first listed one costs, and capture meets no own offer and no leftover record |
| `FibSiblings.SiblingErasureExact` | ndn/NFD/rib/fib-updater.cpp:148-188 | erasing one of several routes on a face, for every face: the own next hop is right if and only if the route was a cheapest one, the two cheapest tie, or what arrives happens to cost the same; and exactly when the names below are right |
| `FibSiblings.DearerErasureLosesHop` | ndn/NFD/rib/fib-updater.cpp:174-180 | a reachable state in which erasing the dearer of two routes loses the next hop |
| `FibSiblings.CheaperOfferMisleads` | ndn/NFD/rib/fib-updater.cpp:425-462 | a reachable state in which a second, cheaper offer gives the subtree another cost than `getAncestorRoutes` would |
| `FibSiblings.NullIsDereferenced` | ndn/NFD/rib/fib-updater.cpp:476-492 | a reachable state and a registration that dereferences null: the cost rises from below to above a sibling, and no route on the face has child-inherit |
| `FibSiblings.RecordErasedTwice` | ndn/NFD/rib/rib.cpp:457-477 | a reachable state and a registration whose inherited-route updates erase past the end of a list |
| `RouteLists.SecondAgainstRest` | ndn/NFD/rib/rib-entry.cpp:200-222 | when the second cheapest route of a face costs what the cheapest remaining one costs |
| `ProtocolLimits.RetriedRemovalLeavesHop` | ndn/NFD/rib/fib-updater.cpp:287-295 | for every name and route without flags, a run from the empty RIB: registered, unregistered, the removal times out and its retry is acknowledged; the RIB is empty and the forwarder has a next hop of cost 0 |
| `ProtocolLimits.BatchesOverlap` | ndn/NFD/rib/fib-updater.cpp:297-300 | for every offer above a name, a run from the empty RIB: the face is destroyed, one of two commands gets a 410, and the next batch starts while the other command is on its way |
| `ProtocolLimits.LateAnswerCommitsFailedBatch` | ndn/NFD/rib/fib-updater.cpp:301-307 | the late 410 of that command then commits the batch that had failed, puts a route on a destroyed face into the RIB, and frees the slot of the batch in flight |
| `RangeMap.OneExact` | ndn/ndn-cxx/src/exclude.cpp:225-233 | adding one key adds exactly that key |
| `RangeMap.AfterExact` | ndn/ndn-cxx/src/exclude.cpp:294-315 | adding everything from a key on adds exactly that |
| `RangeMap.RangeExactAt` | ndn/ndn-cxx/src/exclude.cpp:259-292 | point by point: a range is added, except that a nested one loses the rest of the stretch it lies in |
| `RangeMap.RangesCover` | ndn/ndn-cxx/src/exclude.cpp:372-424 | the recovered ranges cover exactly the stored set |
| `RangeMap.RangesAscend` | ndn/ndn-cxx/src/exclude.cpp:372-424 | the recovered ranges ascend and are pairwise disjoint |
| `ExcludeFilter.RequestExactIff` | ndn/ndn-cxx/src/exclude.cpp:216-315 | a request makes the excluded set the old one plus what it asks for if and only if it fits, over all valid components |
| `ExcludeFilter.RequestsExact` | ndn/ndn-cxx/src/exclude.cpp:216-315 | the same over every sequence of requests that fit |
| `ExcludeFilter.ObeyKeepsFilter` | ndn/ndn-cxx/src/exclude.cpp:225-315 | keys stay strictly descending and valid, and negative infinity stays flagged |
| `ExcludeFilter.CombinedIff` | ndn/ndn-cxx/src/exclude.cpp:271-273 | no two neighbouring flags arise if and only if the request does not start at the upper end of a range |
| `ExcludeFilter.NestedRangeLosesComponents` | ndn/ndn-cxx/src/exclude.cpp:279-284 | for any five ascending components, [b, c] inside [a, e] takes d out |
| `ExcludeFilter.TouchingRangesStaySeparate` | ndn/ndn-cxx/src/exclude.cpp:374-382 | for any three ascending components, [b, c] after [a, b] makes the enumeration meet the failing assertion |
| `ExcludeFilter.EnumerationPassesIff` | ndn/ndn-cxx/src/exclude.cpp:372-382 | an enumeration meets the assertion of the iterator at every position if and only if no two neighbouring entries are flagged |
| `ExcludeFilter.WireRoundTrip` | ndn/ndn-cxx/src/exclude.cpp:105-205 | decoding the encoded elements rebuilds the identical entries |
| `ExcludeFilter.DecodeGivesFilter` | ndn/ndn-cxx/src/exclude.cpp:154-205 | whatever elements are read, in whatever order, the entries are a filter |
| `ExcludeWire.WireMeansFilter` | ndn/ndn-cxx/src/exclude.cpp:105-130 | the elements written exclude what the filter excludes: a component that is among them, or that lies where an `ANY` stands, above every component before it and below every one after it |
| `ExcludeWire.ReadMeansWire` | ndn/ndn-cxx/src/exclude.cpp:154-223 | what is read from well-formed elements in canonical order excludes what they say in that sense |
| `ExcludeWire.WireReproduced` | ndn/ndn-cxx/src/exclude.cpp:105-205 | encoding what was decoded from such elements gives them again |
| `ExcludeWire.WireAcceptedIff` | ndn/ndn-cxx/src/exclude.cpp:154-205 | accepted are exactly the non-empty lists of components and `ANY`s without two `ANY`s in a row |
| `ExcludeWire.ReadsFirst` | ndn/ndn-cxx/src/exclude.cpp:154-205 | in whatever order the elements come: the entries read are those of the components, each flagged exactly if an `ANY` follows where it is first, and negative infinity exactly if an `ANY` comes first |
| `ExcludeObject.Exclude.IsExcluded` | ndn/ndn-cxx/src/exclude.cpp:216-223 | membership in the excluded set |
| `ExcludeObject.Exclude.ExcludeOne` | ndn/ndn-cxx/src/exclude.cpp:225-233 | exactly the component is added, in place |
| `ExcludeObject.Exclude.ExcludeRange` | ndn/ndn-cxx/src/exclude.cpp:259-292 | in place: refused exactly if `from` is not less than `to`, and then nothing changes; otherwise the components from one to the other are added and nothing else changes, if and only if the range fits |
| `ExcludeObject.Exclude.ExcludeBefore` | ndn/ndn-cxx/src/exclude.cpp:235-239 | the same from negative infinity, never refused |
| `ExcludeObject.Exclude.ExcludeAfter` | ndn/ndn-cxx/src/exclude.cpp:294-315 | exactly the components from `from` on are added |
| `ExcludeObject.Exclude.WireEncode` | ndn/ndn-cxx/src/exclude.cpp:105-130 | the elements in ascending order; an empty filter is an error |
| `ExcludeObject.Exclude.WireDecode` | ndn/ndn-cxx/src/exclude.cpp:154-205 | the entries read, and whether the elements were well formed |
| `ExcludeObject.Exclude.Enumerate` | ndn/ndn-cxx/src/exclude.cpp:365-424 | the enumeration terminates and gives ascending disjoint ranges whose union is the excluded set |
| `ExcludeObject.ConstIterator.Advance` | ndn/ndn-cxx/src/exclude.cpp:372-382 | one range is passed; the assertion is the precondition |
| `NameComponent.CompareTotalOrder` | ndn/ndn-cxx/src/name-component.cpp:385-417 | canonical order is total and its zero is equality |
| `NameComponent.CanonicalOrder` | ndn/ndn-cxx/src/name-component.cpp:403-417 | the lower type is first, then the shorter value, then the lower octet where the values first differ |
| `NameComponent.WireOrderIsCanonical` | ndn/ndn-cxx/src/name-component.cpp:394-401 | comparing wires by `memcmp` over the shorter size is canonical order |
| `NameComponent.WireInjective` | ndn/ndn-cxx/src/name-component.cpp:385-392 | equal wires belong to equal components |
| `Bytes.VarNumberOctets` | ndn/ndn-cxx/src/encoding/tlv.hpp:389-430 | a TLV number below 253 is one octet; above, a marker of 253, 254 or 255 is followed by 2, 4 or 8 octets with the value in network order |
| `NameComponent.ValueOrderIsCanonicalIff` | ndn/ndn-cxx/src/name-component.cpp:403-417 | for all components, when the value-wise path has the sign of canonical order, and when it reads past the end: the 32-bit difference of the lengths decides |
| `NameComponent.GetSuccessor` | ndn/ndn-cxx/src/name-component.cpp:419-445 | the carry loop computes the incremented value, one octet longer on overflow; a digest of all ones has no successor of its type |
| `NameComponent.NextIsImmediate` | ndn/ndn-cxx/src/name-component.cpp:419-445 | the successor is strictly greater and no component of any type lies between |
| `ComponentUri.UnescapeEscape` | ndn/ndn-cxx/src/util/string-helper.cpp:110-136 | unescaping undoes escaping for every octet string |
| `ComponentUri.UriRoundTrip` | ndn/ndn-cxx/src/name-component.cpp:91-178 | every generic and every digest component reads back from its URI |
| `ComponentUri.UriInjective` | ndn/ndn-cxx/src/name-component.cpp:131-178 | different components have different URIs |
| `ComponentUri.WriteUri` | ndn/ndn-cxx/src/name-component.cpp:130-178 | the loops write the URI, whose text the next six rows describe |
| `ComponentUri.TextIsItsUri` | ndn/ndn-cxx/src/name-component.cpp:157-167 | a value of letters, digits and `+`, `-`, `.`, `_` that is not all periods is its own URI |
| `ComponentUri.OtherOctetIsEscaped` | ndn/ndn-cxx/src/name-component.cpp:167-172 | any other octet becomes `%` and two digits of 0-9A-F whose value is the octet |
| `ComponentUri.UriIsWrittenPartByPart` | ndn/ndn-cxx/src/name-component.cpp:155-174 | however a value that is not all periods is cut in two, its URI is made of what the two parts become, a part of periods staying as it is |
| `ComponentUri.UriLength` | ndn/ndn-cxx/src/name-component.cpp:139-178 | the URI is longer than the value by two for every octet that is escaped, or by three if the value is all periods |
| `ComponentUri.PeriodsUri` | ndn/ndn-cxx/src/name-component.cpp:149-154 | a value of periods only gets three more |
| `ComponentUri.DigestUri` | ndn/ndn-cxx/src/name-component.cpp:133-137 | the URI of a digest is `sha256digest=` and, for each octet, two digits of 0-9a-f whose value is the octet |
| `ComponentUri.UnescapeText` | ndn/ndn-cxx/src/util/string-helper.cpp:110-136 | the loop unescapes; a percent sign without two digits stands for itself |
| `ComponentUri.PercentSign` | ndn/ndn-cxx/src/util/string-helper.cpp:110-136 | a percent sign with two hexadecimal digits of either case reads as the octet of their value; with other characters, or too few, it stands for itself |
| `ComponentUri.NothingToUnescape` | ndn/ndn-cxx/src/util/string-helper.cpp:110-136 | text without a percent sign reads as itself |
| `ComponentUri.FromEscapedString` | ndn/ndn-cxx/src/name-component.cpp:91-128 | the parsed component or the refusal; what is accepted is a valid component |
| `ComponentUri.RefusedIff` | ndn/ndn-cxx/src/name-component.cpp:91-128 | refused, white space at the ends apart, is exactly what starts like a digest and does not go on with 64 hexadecimal digits, and what reads as no, one or two periods |
| `ComponentUri.FromHexIff` | ndn/ndn-cxx/src/util/string-helper.cpp:95-108 | read as octets are exactly the texts of an even number of hexadecimal digits of either case |
| `ComponentUri.FromHexPairs` | ndn/ndn-cxx/src/util/string-helper.cpp:95-108 | each octet read is the value of its pair of digits |
| `ComponentUri.TrimTakesBlanks` | ndn/ndn-cxx/src/name-component.cpp:94-95 | exactly the white space at both ends is taken off |
| `InterestMatch.MatchesData` | ndn/ndn-cxx/src/interest.cpp:131-213 | holds exactly when the full name extends the name of the Interest by a number of components within the bounds, first by one that is not excluded, and the key locator is the one asked for, if one is |
| `InterestMatch.MatchesExactly` | ndn/ndn-cxx/src/interest.cpp:104-129 | an Interest matches exactly the extensions of its name by a number of components within its bounds, the first of them not excluded |
| `InterestMatch.MinSuffixTakesOut` | ndn/ndn-cxx/src/interest.cpp:113-116 | setting the minimum takes out exactly the names with fewer further components |
| `InterestMatch.MaxSuffixTakesOut` | ndn/ndn-cxx/src/interest.cpp:118-121 | setting the maximum takes out exactly the names with more further components |
| `InterestMatch.ExcludeTakesOut` | ndn/ndn-cxx/src/interest.cpp:123-126 | setting an exclude filter takes out exactly the names that go on with an excluded component |
| `InterestMatch.BoundsOnAChain` | ndn/ndn-cxx/src/interest.cpp:104-129 | with both bounds 1, of a name and two successive extensions only the middle one matches |
| `InterestMatch.StricterMatchesFewer` | ndn/ndn-cxx/src/interest.cpp:104-129 | a fitting exclude request takes exactly the asked-for names out of what an Interest matches |
| `SegmentedFile.WindowPreparedIff` | repo-ng-mongo/tools/ndnputfile.cpp:163-180 | every segment up to eleven beyond the requested one is prepared if and only if the requested one was, or all are, or all fit the first eleven, or there is no such segment |
| `SegmentedFile.SegmentsAreThousands` | repo-ng-mongo/tools/ndnputfile.cpp:162-209 | the file is cut every thousand octets, only the last segment may be shorter, none is empty, and exactly the last one is marked final |
| `SegmentedFile.PreparedIs` | repo-ng-mongo/tools/ndnputfile.cpp:163-180 | how many packets are prepared after a request: eleven at first; up to eleven beyond the requested one, but no fewer than before, if it was prepared; and no more than before if it was not |
| `SegmentedFile.RequestsBeyondPrepared` | repo-ng-mongo/tools/ndnputfile.cpp:171-177 | with eleven or more packets prepared, no sequence of requests beyond them prepares anything, although the file has the segments |
| `SegmentedFile.RequestsInOrder` | repo-ng-mongo/tools/ndnputfile.cpp:163-208 | over every sequence of requests in order: eleven packets are prepared after the first one, and up to eleven beyond the requested segment after every later one, unless the file ends |
| `SegmentedFile.Producer.PrepareNextData` | repo-ng-mongo/tools/ndnputfile.cpp:162-209 | the packets stay the first segments of the file, in order and without a gap, and their number is the one the unsigned difference gives; an empty input is an error |
| `SegmentedFile.Producer.OnInterest` | repo-ng-mongo/tools/ndnputfile.cpp:278-318 | a reply is sent if and only if the segment exists and was prepared, or is among the first eleven at the start; it is genuine, marked final exactly if it is the last, and a consumer that asks in order is answered |
| `SegmentedFetch.StepKeepsInv` | repo-ng-mongo/tools/ndngetfile.cpp:75-205 | every arrival and timeout keeps the invariant, the segment assertion holds, and each arrival makes progress |
| `SegmentedFetch.GetReturnsFile` | repo-ng-mongo/tools/ndngetfile.cpp:62-205 | in every run the output is a prefix of one stored file, and the whole file once finished |
| `SegmentedFetch.FetchGoesOn` | repo-ng-mongo/tools/ndngetfile.cpp:75-205 | in every run: as long as the last segment has not come and there have been at most three timeouts since the last arrival that led on, the next segment is asked for, or at first anything under the name, and the store can answer; the fetch is given up at the fourth timeout and only then |
| `SegmentedFetch.FetchFinishes` | repo-ng-mongo/tools/ndngetfile.cpp:75-186 | in every run: the output is made of the first segments of the file whose packet came first, one for each arrival but for a first one that is not segment 0; finished is the same as complete, and as having as many arrivals as segments |
| `SegmentedFetch.FetchCanFinish` | repo-ng-mongo/tools/ndngetfile.cpp:75-186 | every run in which something is asked for goes on, by arrivals only, to the end of the file |
| `SegmentedFetch.TimeoutsInARow` | repo-ng-mongo/tools/ndngetfile.cpp:180-193 | as long as no packet is dropped, the timeouts that count are those in a row |
| `SegmentedFetch.DroppedAnswerCountsOn` | repo-ng-mongo/tools/ndngetfile.cpp:90-97 | a first packet that is not segment 0 does not reset the count: a run that is given up though no Interest timed out three times in a row |
| `SegmentedFetch.Consumer.OnData` | repo-ng-mongo/tools/ndngetfile.cpp:75-186 | a received segment changes the consumer's state as the step says |
| `SegmentedFetch.Consumer.FetchNextData` | repo-ng-mongo/tools/ndngetfile.cpp:168-186 | end of file or the next request; the assertion is the precondition |
| `SegmentedFetch.Consumer.OnTimeout` | repo-ng-mongo/tools/ndngetfile.cpp:188-205 | the state changes as the step says; what that comes to is in the next row |
| `SegmentedFetch.TimeoutAsksAgain` | repo-ng-mongo/tools/ndngetfile.cpp:188-205 | in every run: at a timeout after fewer than three since the last arrival that led on the same request is sent again, at the next one nothing is; what came stays |

## Left out

- Expiration of routes, timers and scheduler cancellation: `Route` has no expiration time, and `onRouteExpiration` is not modelled.
- Controller, Face, transport, KeyChain and signing: a command is sent, acknowledged, timed out or answered with 410; errors other than these end the run.
- A timed-out command takes effect before its timeout is noticed or not at all; a command that takes effect after it was retried is not modelled.
- Advancing the queue from within a callback: starting the next batch is a step of its own, enabled as soon as no batch is in flight.
- FibTheorem.UpdateExact: leaves the change of a capture flag to `FibRecapture.EveryUpdateExact`, and a registration that dereferences null (`FibSiblings.NullIsDereferenced`) has no behaviour to state.
- FibRecapture.EveryUpdateExact: is about one update from exact counters; what follows a changed capture flag is not followed further, because the counter on which later computations rely is wrong from then on (`FibCommit.CounterExactIff`).
- FibRuns.RunsStayExact: its runs consist of `Admissible` updates and orderly steps. A 410 on the batch face while other commands are on their way, and an update that runs out of retries and throws, end what it says; `UpdateProtocol.StepKeepsProtocolIff` says that these are the only such steps, and `ProtocolLimits` has a run with the first.
- FibRuns.PlainRunsStayExact: as RunsStayExact.
- FaceRemoval.RunDrainsFace: is about orderly runs, in which no removal can fail; for all others `AppliedRemovalsDrainFace` says what the applied removals do.
- The order in which `nth_element` leaves routes of equal cost: the model takes the earlier listed one.
- `Rib::insert` called directly from the RIB manager, which bypasses the FIB updater; `AutoPrefixPropagator`; the manager's own commands.
- The observers `afterInsertEntry`, `afterEraseEntry`, `m_onSendBatchFromQueue` and logging.
- Octet-level encoding of Exclude, Interest and Data: Exclude is encoded to a list of elements; cached wires (`m_wire`) are not modelled.
- `Exclude::toUri`, `Range` printing, the comparison operators.
- `Component` conversions to and from numbers, markers, versions, timestamps and segments: a segment number stands for its component.
- The digest of a Data packet is a given octet string; `getFullName` of a packet without a wire throws and is not modelled.
- Selectors of an Interest other than suffix counts, exclude and key locator; `matchesInterest`.
- Single-packet mode of the put and get tools, the insert and check commands, names without a segment in the get tool, and the overflow of its 32-bit byte count, which is only printed.
- Repo storage, configuration, logging, main programs, CityHash, network prefixes, Python and Java clients.
