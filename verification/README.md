# Verification models of the IPU compiler, driver and profiler stack

This project models the algorithms of the repository that carry an exact-equivalence claim and
proves the claims for all inputs. Each module stands for one source component:

- **Planner timeline** (`ProgramTimeline`, `Saturating`): nested counted repeats of tile-local work
  and global barriers are folded without unrolling; the fold equals the unrolled per-tile clocks,
  clamped to 64 bits, and both are counted on the operations alone.
- **Exchange row storage** (`ExchangeStorage`, `FingerprintOrder`): fingerprints of row sequences form a monoid modulo
  2^64; the closed form for many equal copy rows leaves the state of enumerating every
  chunk, and the fingerprint tells events and their order as far as their hashes do.
- **Host streaming** (`HostPlan`, `HostBatches`, `HostCalls`, `HostFiles`, `HostArena`, `HostSession`,
  `HostPackage`): bindings are cut into pages, dealt into batches that reuse one page slot per tile,
  and driven by an even/odd rendezvous with an abstract device; every input byte arrives and every
  output byte returns, on the streaming and on the prepared path, for a whole package of an
  initialization and a run. `HostFiles` says which byte of a file belongs to which address, on the
  bindings alone.
- **Checkpoint service** (`CheckpointService`): a polling host and tiles that move at their own pace;
  the device is driven by an arbitrary oracle, so the proofs cover every interleaving.
- **Memory analysis** (`AliasRoots`, `TileShards`, `ShardTotals`, `TileOwners`, `StorageSizes`,
  `StorageLiveness`, `StoragePlan`, `StorageAccounting`, `StorageAnalysis`, `StorageRefinements`,
  `StorageSweep`, `StorageScreen`, `StorageNeeds`, `StorageMeaning`, `StorageLayouts`): tile mappings and owner maps, alias roots by union-find, shard
  sizes, last uses over flattened repeats and their safety for the unrolled run, incremental
  saturating accounting, and the one-column bound. For every validated program the capacity screen on
  that bound accepts exactly when the analysis of every tile finds peaks that fit, and exactly when
  every tile has room in every step for what program, shards and literal memory elements call for
  (`StorageLayouts.AnalyzeValidated`).
- **Device kernels** (`OnlineSoftmax`, `AttentionLaws`, `LayerNorm`, `HalfWords`, `PackLayout`,
  `PackOrders`, `PackKernels`, `BroadcastAdd`): softmax attention and layer-norm moments over reals, packing and unpacking on
  32-bit words, broadcast addition; each for six workers in any order.
- **Linker** (`LinkerReach`, `LinkerPlacement`, `LinkerRelocation`, `BitFields`): reachable
  sections, placement and segments, relocation fields.
- **Intervals** (`RoleSweep`, `MemoryHistory`, `TileMemory`, `Alignment`): role cycles by an event
  sweep, conflict queries on a prefix-maximum index, the tile memory map and range algebra.
- **Number format** (`F143`): nearest, ties-to-even encoding that inverts decoding.
- **Report** (`ProfileFiles`, `ProfileReport`, `StreamSummary`): reading the written files gives the
  report back, but for the number of each step in its tile's plan; a stream's 32-bin summary counts
  every instant once.

`DivMod`, `MixedRadix` and `Permutations` hold the arithmetic laws and the sums over permutations
that several modules share.

Some claims are false of the code as it stands; each has a concrete input and the exact condition
under which the code meets it:

- The one-column memory bound does not dominate the tiles once its sums saturate
  (`StorageAnalysis.SaturatedBoundFails`). By plan and sizes alone: the memory reported for a step is
  the true sum less what the highest sum so far exceeds 64 bits, and there is none once a sum lies
  further below an earlier one than 64 bits can tell (`StorageAccounting.UsedAtIs`). The bound's peaks
  are above those of every refinement exactly when no sum has fallen so far and, in each dimension,
  what is left of some step covers the true need of every step (`StorageRefinements.PeaksDominateIff`).
  None of this reaches the planner's answer: a column that fits is sound
  (`StorageAnalysis.FittingBoundIsSound`), and tiles that fit bound the column
  (`StorageAnalysis.ScreenIsExact`).
- A poll of a device without faults can report a mismatch. While a trap is left, some interleaving of
  the poll does so exactly when some tile other than the first still shows the stop from which it was
  last resumed (`CheckpointService.MismatchIff`), and a run from the start reaches such a state
  (`CheckpointService.StaleSecondTileFails`).
- A failed allocation is called invalid instead of out of memory exactly when aligning a start or an
  end leaves the 32-bit addresses (`TileMemory.TileMemoryMap.Allocate`,
  `TileMemory.SameFailureTwoErrors`); either way no feasible place exists.
- The report files do not hold the number of a step in its tile's plan: reading them back gives the
  report exactly when every sample's number is its position, as the package validator demands of
  plans (`ProfileReport.WriteReport`, `ProfileFiles.NumberedIff`, `ProfileFiles.ReversedIsRenumbered`).
- Linked sections can share addresses when the regions given to the linker overlap, which it does not
  check, and only then (`LinkerPlacement.ApartIff`). The package builder and the command line give it
  disjoint regions.

One kernel taken alone falls short of its name: the layer-norm moments drop the last element of an odd
width and are exact if and only if the width is even or the last element and the mean are zero
(`LayerNorm.KernelMomentsIff`, `LayerNorm.WidthOfThreeIsInexact`). The compiler builds the kernel only
for widths that are multiples of four (crates/ipu-codegen/src/kernel/normalization.rs:118), so every
moment it computes is exact (`LayerNorm.BuiltWidthsAreExact`).

Sorting, hashing and kernel costs come from libraries or other components. Sorted orders are parameters
that range over every permutation the sort may leave; hashes and kernel costs are parameters without
further assumptions.

## Model

| member | source | states |
|---|---|---|
| ProgramTimeline.WorkTwice | crates/ipu-codegen/src/estimate/program.rs:69-104 | work given to the tiles in two parts advances every clock as their sum does |
| ProgramTimeline.LatestAfterBarrier | crates/ipu-codegen/src/estimate/program.rs:95-103 | after a barrier all clocks agree, so the latest clock is the barrier time plus the largest work since |
| ProgramTimeline.BarrierTwice | crates/ipu-codegen/src/estimate/program.rs:95-132 | two barriers with work between them equal one barrier of the summed span |
| ProgramTimeline.LocalMeans | crates/ipu-codegen/src/estimate/program.rs:86-93 | adding local work to a folded shape is running that work after it |
| ProgramTimeline.BarrierMeans | crates/ipu-codegen/src/estimate/program.rs:95-103 | adding a barrier to a folded shape is running the barrier after it |
| ProgramTimeline.BarrierRepeats | crates/ipu-codegen/src/estimate/program.rs:105-132 | repeating a body with barriers has the closed prefix, middle and tail that the fold computes |
| ProgramTimeline.RepeatMeans | crates/ipu-codegen/src/estimate/program.rs:105-132 | folding a repeat at once equals running its body the counted number of times on every clock state |
| ProgramTimeline.TimesStandFor | crates/ipu-codegen/src/estimate/program.rs:172-204 | a shape that stands for a body stands, repeated, for the unrolled repetition |
| ProgramTimeline.Timeline.AddLocal | crates/ipu-codegen/src/estimate/program.rs:86-93 | the saturating in-place update is the clamp of the exact shape with the work added |
| ProgramTimeline.Timeline.AddBarrier | crates/ipu-codegen/src/estimate/program.rs:95-103 | the saturating in-place update is the clamp of the exact shape with the barrier added |
| ProgramTimeline.Timeline.AddLocals | crates/ipu-codegen/src/estimate/program.rs:105-132 | adding an amount per tile in a loop is the clamp of adding all amounts at once |
| ProgramTimeline.Timeline.AddRepeat | crates/ipu-codegen/src/estimate/program.rs:105-132 | the saturating fold of a repeat is the clamp of the exact repeated shape |
| ProgramTimeline.Timeline.Cycles | crates/ipu-codegen/src/estimate/program.rs:134-146 | total and exchange time are the clamps of the exact finishing time and exchange sum |
| ProgramTimeline.Extends | crates/ipu-codegen/src/estimate/program.rs:172-204 | appending one operation to a shape appends it to the program the shape stands for |
| ProgramTimeline.AppendOperation | crates/ipu-codegen/src/estimate/program.rs:172-204 | one operation, a repeat included, keeps the timeline the clamp of the program walked so far, whose clocks and exchange time `OwnAdds` and `ExchangeAdds` count on the operations alone |
| ProgramTimeline.Region | crates/ipu-codegen/src/estimate/program.rs:172-204 | the recursive walk of nested repeats ends with the clamp of the whole region's unrolled run |
| ProgramTimeline.EstimateProgram | crates/ipu-codegen/src/estimate/program.rs:148-211 | for every nested program the estimate is exactly the unrolled run's finishing time and exchange sum, clamped to 64 bits; both are also given by counting on the unrolled operations: the finishing time from exchange to exchange by the slowest tile's own cycles, the exchange sum by the phases' occurrences |
| ProgramTimeline.FinishIsLatestClock | crates/ipu-codegen/src/estimate/program.rs:134-146 | the finishing time is the latest of all tile clocks, for any tile count |
| ProgramTimeline.OwnAdds | crates/ipu-codegen/src/estimate/program.rs:86-93 | without exchanges, the clock of every tile advances by the cycles of its own operations, each times the counts of the repeats around it, and no other clock does |
| ProgramTimeline.ExchangeAdds | crates/ipu-codegen/src/estimate/program.rs:182-189 | the exchange time of a run is the sum over phases of their cycles times the number of unrolled occurrences |
| ProgramTimeline.UnrolledRuns | crates/ipu-codegen/src/estimate/program.rs:148-211 | writing out every repeat its counted number of times changes nothing of a run |
| ProgramTimeline.FinishIs | crates/ipu-codegen/src/estimate/program.rs:134-146 | an unrolled run finishes when its last exchange does plus what the slowest tile has to do afterwards, and an exchange starts when the slowest tile gets there |
| ProgramTimeline.RenamingMirrors | crates/ipu-codegen/src/estimate/program.rs:148-211 | renaming the tiles of a program by a permutation permutes the clocks of its run and changes nothing else |
| ExchangeStorage.MulAddRegroups | crates/ipu-codegen/src/estimate/exchange_storage.rs:33-38 | wrapping multiply-and-add regroups modulo 2^64 |
| ExchangeStorage.ThenIsAssociative | crates/ipu-codegen/src/estimate/exchange_storage.rs:33-38 | concatenating fingerprints is associative modulo 2^64 |
| ExchangeStorage.PowerAdds | crates/ipu-codegen/src/estimate/exchange_storage.rs:39-49 | the (m+n)-fold concatenation is the m-fold followed by the n-fold |
| ExchangeStorage.PowerSquares | crates/ipu-codegen/src/estimate/exchange_storage.rs:39-49 | doubling the count is squaring, as repeated squaring uses it |
| ExchangeStorage.Repeat | crates/ipu-codegen/src/estimate/exchange_storage.rs:39-49 | repeated squaring yields the n-fold concatenation for every count |
| ExchangeStorage.DeltaPowerIs | crates/ipu-codegen/src/estimate/exchange_storage.rs:108-173 | the effect of n equal chunks is the n-th power of one chunk's effect |
| ExchangeStorage.RestIsEnumerated | crates/ipu-codegen/src/estimate/exchange_storage.rs:108-173 | full chunks and remainder in closed form equal the chunk-by-chunk enumeration of the rest of a row |
| ExchangeStorage.RowIsEnumerated | crates/ipu-codegen/src/estimate/exchange_storage.rs:108-173 | one row's closed form equals adding its chunks one by one, pointer continuation included |
| ExchangeStorage.RowsAreEnumerated | crates/ipu-codegen/src/estimate/exchange_storage.rs:108-173 | all rows in closed form equal adding every chunk of every row |
| ExchangeStorage.RowsSizes | crates/ipu-codegen/src/estimate/exchange_storage.rs:108-173 | byte and patch totals of the closed form are those of the enumeration |
| ExchangeStorage.BuildRow | crates/ipu-codegen/src/estimate/exchange_storage.rs:108-173 | the fingerprints built for one row are those of its enumeration |
| ExchangeStorage.BuildRows | crates/ipu-codegen/src/estimate/exchange_storage.rs:108-173 | the fingerprints built for all rows are those of their enumeration |
| ExchangeStorage.ExchangeStoragePhase.AddReceive | crates/ipu-codegen/src/estimate/exchange_storage.rs:82-90 | one receive changes bytes, patches, signature and receive end of its tile only, continuing a pointer that it meets |
| ExchangeStorage.ExchangeStoragePhase.AddConnection | crates/ipu-codegen/src/estimate/exchange_storage.rs:91-107 | one transfer is accounted on its source and its target, also when they are the same tile |
| ExchangeStorage.ExchangeStoragePhase.AddConnectionRows | crates/ipu-codegen/src/estimate/exchange_storage.rs:108-173 | many equal rows leave exactly the state of every chunk of every row added by itself |
| ExchangeStorage.ExchangeStoragePhase.AddManyRows | crates/ipu-codegen/src/estimate/exchange_storage.rs:127-173 | the closed-form branch for more than one row leaves the enumerated state |
| FingerprintOrder.RecordedJoins | crates/ipu-codegen/src/estimate/exchange_storage.rs:24-38 | the fingerprint of two lists of events after each other is the concatenation of their fingerprints |
| FingerprintOrder.SwapShows | crates/ipu-codegen/src/estimate/exchange_storage.rs:24-38 | two neighbouring events that change places, anywhere in a list, change its fingerprint exactly when their hashes differ modulo 2^63 |
| FingerprintOrder.ChangeShows | crates/ipu-codegen/src/estimate/exchange_storage.rs:24-38 | one event in place of another, anywhere in a list, changes the fingerprint exactly when their hashes differ modulo 2^64 |
| FingerprintOrder.RowsRecord | crates/ipu-codegen/src/estimate/exchange_storage.rs:82-173 | equal copy rows add to each tile's fingerprint exactly the events of the row, chunk by chunk, and to the target eight bytes for every receive and four for every pointer it must set |
| HostPlan.PagesKeepWrites | crates/ipu-codegen/src/host.rs:206-239 | cutting moves into pages changes nothing that any tile address receives |
| HostPlan.PagesKeepSources | crates/ipu-codegen/src/host.rs:206-239 | cutting moves into pages changes no source of any file position |
| HostPlan.SameOnTiles | crates/ipu-codegen/src/host.rs:241-279 | moves with the same pages in the same order on every tile deliver alike |
| HostPlan.LastWriteOnTile | crates/ipu-codegen/src/host.rs:241-279 | only the moves on its own tile decide what an address receives |
| HostPlan.AppendSlice | crates/ipu-codegen/src/host.rs:206-239 | one slice yields its pages in order, or an error exactly when a checked sum overflows |
| HostPlan.CollectSlices | crates/ipu-codegen/src/host.rs:192-205 | the slices of one binding yield their pages in order, or an error exactly when they do not fit |
| HostPlan.Collect | crates/ipu-codegen/src/host.rs:192-205 | all bindings yield their pages in order, each binding in a file region of its own behind those of the bindings before it, or an error exactly when some conversion or sum overflows |
| HostFiles.LengthReaches | crates/ipu-package/src/lib.rs:90-99 | every slice of a binding ends within its region, and unless the region is empty some slice ends with it |
| HostFiles.StartsOnce | crates/ipu-codegen/src/host.rs:192-205 | the starts of the regions are determined by the bindings: each is the sum of the lengths of the earlier regions |
| HostFiles.RegionsApart | crates/ipu-codegen/src/host.rs:192-205 | a file position that a binding asks for lies in its region, and no other binding asks for it |
| HostFiles.MovesAre | crates/ipu-codegen/src/host.rs:192-205 | the moves are the slices of the bindings, each at its own file offset behind the start of its region |
| HostFiles.SourcesAreAsked | crates/ipu-codegen/src/host.rs:192-205 | the moves take a file position from exactly the tile addresses that the bindings pair with it |
| HostFiles.BindingWrites | crates/ipu-codegen/src/host.rs:192-205 | an address receives the file byte that the last slice over it pairs with it |
| HostFiles.DeliveredIsPlaced | crates/ipu-codegen/src/host.rs:192-239 | delivering the moves puts the bytes of each binding where its slices say, and changes no other address |
| HostFiles.ScheduleEndsFile | crates/ipu-codegen/src/host.rs:241-279 | the slices of a schedule end exactly where the last position ends that a binding asks for |
| HostFiles.EndsOnce | crates/ipu-codegen/src/host.rs:192-205 | the bindings determine the length of their file |
| HostFiles.BindingsFitIff | crates/ipu-codegen/src/host.rs:206-239 | bindings can be collected exactly when every tile has a 16-bit number, every size and address 32 bits and every file position 64 |
| HostFiles.PagesAre | crates/ipu-codegen/src/host.rs:206-239 | a move is cut into as many pages of 4096 bytes as it needs, all full but the last, at consecutive addresses and file positions |
| HostFiles.EncodableIff | crates/ipu-codegen/src/host.rs:87-105 | bindings can be encoded exactly when their slices are whole words, outputs at word-aligned addresses, and inputs through a staging area aligned to 32 bytes |
| HostBatches.Enqueue | crates/ipu-codegen/src/host.rs:245-251 | every tile's queue holds its pages in order of arrival |
| HostBatches.PagesHaveSlots | crates/ipu-codegen/src/host.rs:256-276 | every page travels through the slot of its tile: the slot-th stretch of 4096 bytes of host page 1, which the device sees behind 4096 bytes of control data |
| HostBatches.DealRound | crates/ipu-codegen/src/host.rs:256-276 | one round takes the front page of every non-empty queue, in ascending tile order, and nothing else |
| HostBatches.FlattenAt | crates/ipu-codegen/src/host.rs:241-279 | a batch occupies exactly the slices between the ends of its neighbours |
| HostBatches.ExtendSchedule | crates/ipu-codegen/src/host.rs:255-279 | a round appended to a schedule keeps per-tile order and one page per tile and batch |
| HostBatches.Batch | crates/ipu-codegen/src/host.rs:241-279 | dealing keeps each tile's page order, gives each batch at most one page per tile, and needs as many batches as the busiest tile has pages |
| HostCalls.AssignSlots | crates/ipu-codegen/src/host.rs:75-82 | tiles that transfer get distinct page slots in ascending order; no other tile gets one |
| HostCalls.PlanCall | crates/ipu-codegen/src/host.rs:83-162 | a call plays its input batches, then its output batches, with the phase count of the rendezvous; it is refused exactly when some page is not made of aligned words |
| HostCalls.BatchesEncodable | crates/ipu-codegen/src/host.rs:87-105 | the batches can be encoded exactly when every page can |
| HostCalls.PlanBoth | crates/ipu-codegen/src/host.rs:72-162 | initialization and run are planned over one assignment of slots, exactly when every binding fits and every page is made of aligned words |
| HostCalls.Plan | crates/ipu-codegen/src/host.rs:46-190 | the package's calls realize the bindings, an initialization if there are weights, and the run; planning fails exactly when a binding does not fit, a page is not made of aligned words, or a tile's own program cannot be planned |
| HostCalls.ValidateBatchEnds | crates/ipu-package/src/lib.rs:663-688 | batch ends pass exactly when they cut the slices into non-empty consecutive runs that cover them |
| HostCalls.PlannedEndsAreValid | crates/ipu-package/src/lib.rs:663-688 | every plan's batch ends pass the package validator |
| HostCalls.HostCallReusesStorage | crates/ipu-driver/src/lib.rs:1668-1678 | the driver's test finds exactly whether two slices of the call meet in staging storage |
| HostCalls.OverlapIff | crates/ipu-driver/src/lib.rs:1668-1678 | slices that are not empty overlap exactly when they share a byte of one page other than the last that 64 bits can address |
| HostCalls.EmptyOverlapsInside | crates/ipu-driver/src/lib.rs:1668-1678 | an empty slice counts as overlapping another exactly when it lies strictly inside it |
| HostCalls.ReuseIsTwoPages | crates/ipu-driver/src/lib.rs:1668-1678 | a planned call reuses storage exactly when some tile transfers more than one page |
| HostArena.CapturedIsSource | crates/ipu-driver/src/lib.rs:1755-1771 | a captured file byte is the byte of one of its sources in tile memory, or zero if it has none |
| HostArena.Device.FetchBatch | crates/ipu-codegen/src/host.rs:87-97 | the device's fetch of a batch moves exactly the staged pages to their tile addresses |
| HostArena.Device.EmitBatch | crates/ipu-codegen/src/host.rs:98-105 | the device's emission of a batch puts exactly the tile bytes of its pages into their slots |
| HostArena.Device.Acknowledge | crates/ipu-driver/src/lib.rs:1545-1665 | an even phase fetches its input batch; an output batch is stored in its even phase or in the odd one after it, after the program has run |
| HostSession.HostSession.CopyInput | crates/ipu-driver/src/lib.rs:1730-1753 | copying stages each slice's input bytes in its slot and leaves all other slots alone |
| HostSession.HostSession.CaptureOutput | crates/ipu-driver/src/lib.rs:1755-1771 | capturing moves each slot's bytes to their file positions and keeps what was captured before |
| HostSession.HostSession.StageBatch | crates/ipu-driver/src/lib.rs:1520-1541 | staging batch b in reused slots keeps all earlier deliveries and all earlier captures |
| HostSession.HostSession.ReleaseBatch | crates/ipu-driver/src/lib.rs:1639-1663 | releasing batch b lets the device do exactly batch b |
| HostSession.HostSession.StreamPhase | crates/ipu-driver/src/lib.rs:1520-1541 | each even and odd phase keeps the streaming invariant although slots are reused |
| HostSession.HostSession.DriveStreaming | crates/ipu-driver/src/lib.rs:1627-1665 | the rendezvous loop ends with every batch exchanged |
| HostSession.HostSession.InvokeStreamingDeferred | crates/ipu-driver/src/lib.rs:1506-1543 | after a streaming call all inputs are delivered and all outputs captured or pending in their slots |
| HostSession.HostSession.PoisonOutput | crates/ipu-driver/src/lib.rs:1700-1709 | poisoning overwrites exactly the output slots |
| HostSession.HostSession.Prepare | crates/ipu-driver/src/lib.rs:1586-1592 | a prepared call has every input page staged and every output slot poisoned, or is refused for its length |
| HostSession.HostSession.PreparedPhase | crates/ipu-driver/src/lib.rs:1639-1663 | each phase of a prepared call keeps staged inputs and stored outputs when no slot is shared |
| HostSession.HostSession.DrivePrepared | crates/ipu-driver/src/lib.rs:1614-1665 | the prepared rendezvous ends with all outputs stored and nothing poisoned left |
| HostSession.HostSession.Finish | crates/ipu-driver/src/lib.rs:1547-1559 | finishing a deferred call captures what was still pending |
| HostSession.HostSession.Collect | crates/ipu-driver/src/lib.rs:1563-1575 | collecting joins the streamed part and the stored part to the whole output |
| HostSession.HostSession.Invoke | crates/ipu-driver/src/lib.rs:1465-1481 | either path returns the output of the program run on the delivered input, or refuses exactly a wrong length |
| HostSession.StreamedEnds | crates/ipu-driver/src/lib.rs:1506-1562 | a finished streaming run satisfies the same completion predicate as a prepared one |
| HostSession.PreparedEnds | crates/ipu-driver/src/lib.rs:1586-1626 | a finished prepared run satisfies the same completion predicate as a streaming one |
| HostSession.ScheduleDelivers | crates/ipu-codegen/src/host.rs:192-279 | delivering the batches delivers what the bindings ask for |
| HostSession.ScheduleReturns | crates/ipu-codegen/src/host.rs:192-279 | capturing the batches returns what the bindings ask for |
| HostSession.RunPlanned | crates/ipu-driver/src/lib.rs:1465-1667 | a planned call driven to its end puts the last input byte at every bound tile address, runs on exactly that memory, and returns every bound output byte at its file offset |
| HostPackage.RunCall | crates/ipu-driver/src/lib.rs:1465-1667 | one planned call on a device delivers its bindings and returns their outputs, or is refused exactly for a wrong length |
| HostPackage.RunPackage | crates/ipu-tests/src/diagnostic.rs:45-95 | planned, initialized and run: the weights and then the input reach every bound address, the program runs on exactly that memory, and every bound output byte returns; it fails exactly when planning does or a file has a wrong length. File positions and lengths are those of the bindings alone: a binding's region starts behind the lengths of the earlier ones, no two share a position, and each file is as long as its bindings need |
| CheckpointService.AfterAllEvolves | crates/ipu-tests/src/diagnostic.rs:99-206 | however tiles step, a stopped tile stays stopped, registers stay honest and no tile passes its trap |
| CheckpointService.ShownBitIsFresh | crates/ipu-codegen/src/lib.rs:110-114 | a tile that shows the alternating bit of the next checkpoint is really stopped at it |
| CheckpointService.FreshStops | crates/ipu-tests/src/diagnostic.rs:133-137 | once tiles with fresh registers have all shown a stop, each is really stopped at the next trap |
| CheckpointService.Host.AllShowStop | crates/ipu-tests/src/diagnostic.rs:133-137 | reading all stop flags, each at its own time, ends as the reference read does in the same interleaving |
| CheckpointService.Host.AllShowExpected | crates/ipu-tests/src/diagnostic.rs:138-157 | success means every tile is really stopped at the next checkpoint; failure names the first tile read that does not show it |
| CheckpointService.Host.ResumeAll | crates/ipu-tests/src/diagnostic.rs:194-202 | resuming tile by tile, whatever runs on meanwhile, moves every tile to the next checkpoint |
| CheckpointService.Host.StillAtPreviousStop | crates/ipu-tests/src/diagnostic.rs:111-129 | a stop from before the resume is recognized exactly by the old bit on the first tile |
| CheckpointService.Host.ServiceStopped | crates/ipu-tests/src/diagnostic.rs:130-205 | after a new stop, a checkpoint is serviced only with all tiles stopped at it |
| CheckpointService.Host.ServiceCheckpoint | crates/ipu-tests/src/diagnostic.rs:99-206 | in every interleaving each checkpoint is serviced at most once, in order, with all tiles stopped there; a ready device is serviced at once; without faults and without stale registers beyond the first tile there is no mismatch; outcome and device are those of the reference poll |
| CheckpointService.MismatchIff | crates/ipu-tests/src/diagnostic.rs:111-157 | while a trap is left, some fault-free interleaving of a poll reports a mismatch if and only if some tile other than the first still shows the stop from which it was last resumed |
| CheckpointService.RestingPoll | crates/ipu-tests/src/diagnostic.rs:99-206 | a poll during which no tile moves reports exactly what the registers show: no tiles, waiting for a missing stop or the old one, an extra stop, a mismatch on the first tile with another exception, a numerical error, or a serviced checkpoint; only the last changes tiles, and it resumes them all |
| CheckpointService.FreshNeverMismatches | crates/ipu-tests/src/diagnostic.rs:111-157 | if no register beyond the first tile is stale, no fault-free interleaving of the poll reports a mismatch |
| CheckpointService.StaleMismatches | crates/ipu-tests/src/diagnostic.rs:111-157 | for every stale tile beyond the first there is a fault-free interleaving that reports a mismatch |
| CheckpointService.NoTrapNoMismatch | crates/ipu-tests/src/diagnostic.rs:111-157 | when no trap is left, every fault-free poll waits |
| CheckpointService.StaleSecondTileFails | crates/ipu-tests/src/diagnostic.rs:99-206 | a run of host and device from their start: the first poll services checkpoint 0, the second fails although no tile has |
| AliasRoots.LabelsAreLeast | crates/ipu-codegen/src/estimate/mid.rs:139-176 | each class is labelled by its least member |
| AliasRoots.LabelsJoin | crates/ipu-codegen/src/estimate/mid.rs:139-176 | every alias pair ends in one class |
| AliasRoots.LabelsAreFinest | crates/ipu-codegen/src/estimate/mid.rs:139-176 | the classes are the finest that join all alias pairs |
| AliasRoots.Root | crates/ipu-codegen/src/estimate/mid.rs:140-145 | following parents ends at the root |
| AliasRoots.UnionRelabels | crates/ipu-codegen/src/estimate/mid.rs:146-150 | linking the larger root to the smaller relabels exactly the larger class |
| AliasRoots.Union | crates/ipu-codegen/src/estimate/mid.rs:146-150 | one alias step keeps the forest's answers those of the labelling |
| AliasRoots.PointAtRoots | crates/ipu-codegen/src/estimate/mid.rs:173-176 | shortcutting every entry to its root in place changes no root |
| AliasRoots.AliasRoots | crates/ipu-codegen/src/estimate/mid.rs:139-176 | union-find returns the finest labelling by least members that joins all aliases |
| StorageSizes.PadIsTight | crates/ipu-codegen/src/estimate/mid.rs:234-237 | padding is a multiple of the alignment less than one unit above the shard |
| StorageSizes.ShardGrows | crates/ipu-codegen/src/estimate/mid.rs:225-240 | a smaller shard needs no more bytes and overflows no checked step that a larger one passes |
| StorageSizes.NeedsBelow | crates/ipu-codegen/src/estimate/mid.rs:193-254 | no tile needs more for a root than the one-column measurement says |
| StorageSizes.MeasurableBelow | crates/ipu-codegen/src/estimate/mid.rs:193-254 | if the column can be measured, the tiles can exactly when every non-empty shard has an owner |
| StorageSizes.ColumnsMeasurable | crates/ipu-codegen/src/estimate/mid.rs:193-254 | if every tile can be measured and each largest shard is one of the shards, the column can be measured |
| StorageSizes.ColumnIsAttained | crates/ipu-codegen/src/estimate/mid.rs:193-254 | each size of the column is what some tile needs of that root |
| StorageSizes.Measure | crates/ipu-codegen/src/estimate/mid.rs:191-254 | measuring succeeds exactly when every value can be measured and finds each root's largest shard per tile |
| StorageSizes.MeasureForms | crates/ipu-codegen/src/estimate/mid.rs:191-254 | measuring both forms: if the column can be measured, the tiles can exactly when every shard with data has an owner, and no tile needs more than the column |
| StorageSizes.ScratchBelow | crates/ipu-codegen/src/estimate/mid.rs:421-438 | a tile's part of the kernel scratch is at most the whole, and equal for the largest shard |
| StorageSizes.MeasuredBounds | crates/ipu-codegen/src/estimate/mid.rs:191-254 | measuring a program by largest shards bounds measuring it tile by tile |
| StorageLiveness.ExposedIsAvailable | crates/ipu-codegen/src/mid/validate.rs:54-216 | what a run of a validated region reads before writing it is a root of the region's arguments |
| StorageLiveness.KeptWasTouched | crates/ipu-codegen/src/estimate/mid.rs:122-136 | a result that the rest of an unrolled run does not overwrite was touched by a step at or before the present one |
| StorageLiveness.NeededIsCovered | crates/ipu-codegen/src/estimate/mid.rs:255-274 | whatever the rest of an unrolled run still reads is used by a step at or after the present one, and was touched before or comes from outside |
| StorageLiveness.ReadIsCovered | crates/ipu-codegen/src/estimate/mid.rs:255-274 | whatever a step of the unrolled run reads is used at or after that step, and was touched before or comes from outside |
| StorageLiveness.MarkStep | crates/ipu-codegen/src/estimate/mid.rs:256-274 | a step gives its index to exactly the roots of its inputs and results, and of a repeat's iterated values and yields |
| StorageLiveness.ComputeLast | crates/ipu-codegen/src/estimate/mid.rs:255-287 | the loops give each root the last step that uses it, or the end if it is an output, a parameter or a resident sequence |
| StorageLiveness.LiveIff | crates/ipu-codegen/src/estimate/mid.rs:255-292 | a root is live in a step exactly when it is an input or touched before, and used at or after the step or kept to the end; unused inputs stay for the first step |
| StorageLiveness.NeededIsLive | crates/ipu-codegen/src/estimate/mid.rs:255-475 | for every validated program of nested repeats, whatever storage its unrolled run reads in a step, or still reads later, is live in the analysis of that step |
| StoragePlan.CollectAliases | crates/ipu-codegen/src/estimate/mid.rs:151-172 | the alias pairs of output aliases, body arguments, repeat results and first iterated values, of all steps in order; none exactly if an iterated list is empty |
| StoragePlan.PairsAlias | crates/ipu-codegen/src/estimate/mid.rs:151-172 | roots that agree on these pairs give every body argument the root of what is passed to it |
| StoragePlan.LabelsAreRoots | crates/ipu-codegen/src/estimate/mid.rs:139-176 | for every validated program the alias labels are such roots |
| StoragePlan.Analyze | crates/ipu-codegen/src/estimate/mid.rs:120-292 | flattening, union-find and last uses together: for every validated program, whatever storage the unrolled run reads in a step or still reads later is live in that step |
| StorageAccounting.LiveIff | crates/ipu-codegen/src/estimate/mid.rs:358-475 | given last indices that no touch exceeds, a root is live in a step exactly when its last index is not over and it is an input or was touched before |
| StorageAccounting.UpdateExactIff | crates/ipu-codegen/src/estimate/mid.rs:403-420 | an accounting pass keeps the true sum exactly when it starts from it and nothing on the way overflows, and never ends above it |
| StorageAccounting.OverflowShows | crates/ipu-codegen/src/estimate/mid.rs:403-420 | after an overflow the reported memory is at least the word limit less what was removed |
| StorageAccounting.UsedIsTotalIff | crates/ipu-codegen/src/estimate/mid.rs:303-420 | in every step the incremental memory equals the sum of the live sizes exactly when no sum has overflowed so far |
| StorageAccounting.FallsFarIff | crates/ipu-codegen/src/estimate/mid.rs:321-420 | a sum has fallen far if and only if two moments of the run show sums further apart than 64 bits can tell |
| StorageAccounting.UsedAtIs | crates/ipu-codegen/src/estimate/mid.rs:321-420 | from plan and sizes alone: nothing is reported once a sum has fallen far, else the live total less what the highest sum so far exceeds 64 bits |
| StorageAccounting.ReportIsClampIff | crates/ipu-codegen/src/estimate/mid.rs:321-420 | the report is the live total clamped to 64 bits if and only if no sum has fallen far and, once one has overflowed, none was above the present total |
| StorageAccounting.SmallNeverOverflows | crates/ipu-codegen/src/estimate/mid.rs:303-420 | if all reported memory stays below half the word range, nothing has overflowed |
| StorageAccounting.UsedBelow | crates/ipu-codegen/src/estimate/mid.rs:303-420 | smaller sizes are reported as less memory in every step while the larger never overflow |
| StorageAnalysis.UsageBelow | crates/ipu-codegen/src/estimate/mid.rs:358-471 | in every step each tile uses at most the column in both memory classes |
| StorageAnalysis.BoundDominates | crates/ipu-codegen/src/estimate/mid.rs:114-471 | while the column's sums never overflow, its peaks dominate those of every tile in all four dimensions, and every refinement can be computed |
| StorageAnalysis.SmallPeaksAreExact | crates/ipu-codegen/src/estimate/mid.rs:358-471 | peaks below half the word range are peaks of true sums |
| StorageAnalysis.FittingBoundIsSound | crates/ipu-codegen/src/estimate/mid.rs:89-112 | a bound that fits the budget means that the refined analysis succeeds and fits |
| StorageAnalysis.FittingTilesBoundColumn | crates/ipu-codegen/src/estimate/mid.rs:89-112 | if the peaks of the tiles fit, no sum of the column overflows |
| StorageAnalysis.ScreenIsExact | crates/ipu-codegen/src/estimate/mid.rs:89-112 | screening on the bound first accepts exactly the programs whose refined analysis exists and fits, if each size of the column is needed on some tile and all roots at the limit stay within 64 bits |
| StorageAnalysis.ComputableIff | crates/ipu-codegen/src/estimate/mid.rs:358-420 | an analysis finds peaks if and only if no true sum of a tile and class lies further below an earlier one than 64 bits can tell |
| StorageAnalysis.ScreenIffComputable | crates/ipu-codegen/src/estimate/mid.rs:89-112 | whatever the number of roots, the screen accepts exactly the programs whose refined analysis fits and whose column has no sum that falls so far |
| StorageAnalysis.SaturatedBoundFails | crates/ipu-codegen/src/estimate/mid.rs:114-471 | a concrete plan whose saturated bound reports a lower peak than its two tiles |
| StorageRefinements.UsedDominatesIff | crates/ipu-codegen/src/estimate/mid.rs:403-420 | in one step no smaller sizes are reported as more memory if and only if no true sum has fallen far on the way and, once one has overflowed, none was above the present total |
| StorageRefinements.PeaksBelowTrue | crates/ipu-codegen/src/estimate/mid.rs:358-471 | the peaks of every refinement that can be computed are below the clamped true peaks of the column |
| StorageRefinements.ReachingUsage | crates/ipu-codegen/src/estimate/mid.rs:358-471 | for each step some one-tile refinement that never overflows uses exactly the clamped true sum |
| StorageRefinements.PeaksDominateIff | crates/ipu-codegen/src/estimate/mid.rs:114-471 | the column has peaks, above those of every refinement that can be computed, if and only if none of its true sums falls far and, in each dimension, the true need of every step is at most what saturation leaves of some step |
| StorageRefinements.UncomputableBoundRejects | crates/ipu-codegen/src/estimate/mid.rs:91-112 | with limits that no target has, at which three roots leave 64 bits, a program fits on every tile and is turned down because the saturated column underflows |
| StorageSweep.AccountRoot | crates/ipu-codegen/src/estimate/mid.rs:404-418 | one root is added to or taken from every tile in its class, or an underflow is reported exactly |
| StorageSweep.WalkByClass | crates/ipu-codegen/src/estimate/mid.rs:404-418 | accounting for both classes in one pass is accounting for each on its own |
| StorageSweep.AccountChanges | crates/ipu-codegen/src/estimate/mid.rs:403-420 | updating only changed roots in place gives every tile the full accounting pass |
| StorageSweep.WalkIsUsage | crates/ipu-codegen/src/estimate/mid.rs:403-420 | one pass takes the memory of a step to that of the next |
| StorageSweep.SweepEntry | crates/ipu-codegen/src/estimate/mid.rs:358-470 | one step's accounting and observation extend the peaks by definition, or prove that there are none |
| StorageSweep.Sweep | crates/ipu-codegen/src/estimate/mid.rs:289-476 | the in-place sweep returns exactly the peaks by definition, or nothing exactly when a removal underflows |
| TileShards.CountCopies | crates/ipu-codegen/src/tensor/resolved.rs:438-467 | counting the tiles of every combination of partitions passes exactly when each lies on as many tiles as there are replicas |
| TileShards.HasRegularMapping | crates/ipu-codegen/src/tensor/resolved.rs:472-498 | the quick test passes exactly when the lowest stride divides the replicas and each next stride is the one before times its partitions |
| TileShards.RegularIsCovered | crates/ipu-codegen/src/tensor/resolved.rs:433-498 | whenever the quick test passes, counting would pass |
| TileShards.IsCovered | crates/ipu-codegen/src/tensor/resolved.rs:433-467 | quick test and counting together pass exactly when every combination of partitions lies on as many tiles as there are replicas |
| TileShards.WidestIsHeld | crates/ipu-codegen/src/tensor/resolved.rs:148-190 | some tile of a layout that passes holds the widest partition of every axis at once |
| TileShards.LargestIsHeld | crates/ipu-codegen/src/tensor/resolved.rs:148-190 | for linear and axis layouts the largest shard, worked out without visiting the tiles, is one of the shards and at least each of them, clamped to 64 bits |
| ShardTotals.TileHolds | crates/ipu-codegen/src/tensor/resolved.rs:42-44 | a tile holds the product of the widths of its partitions, the partition of an axis being the tile's number over the stride, counted around the axis |
| ShardTotals.TilesHoldTensor | crates/ipu-codegen/src/tensor/resolved.rs:137-182 | the shards of all tiles add up to the whole tensor: to whole grains, less than one more than it has elements, or to the padded tensor once for every replica |
| ShardTotals.GrainsAreEven | crates/ipu-codegen/src/tensor/resolved.rs:164-174 | grains are dealt evenly: an earlier tile holds as much as a later one, or one grain more |
| TileOwners.Validate | crates/ipu-codegen/src/tensor/owners.rs:125-141 | an owner map is accepted exactly when its domain and rotation fit the owners and its tiles are on the device and distinct |
| TileOwners.OwnersAreApart | crates/ipu-codegen/src/tensor/owners.rs:113-141 | every owner of an accepted map has a tile, and no two share one |
| TileOwners.TileIsRotated | crates/ipu-codegen/src/tensor/owners.rs:113-124 | an owner below the domain is moved on by the rotation, around the end of the domain, and takes the tile at that place; there are none beyond |
| StorageScreen.MarkProducts | crates/ipu-codegen/src/estimate/mid.rs:177-185 | the operands and results of matrix products are marked, and a first operand gets the tail of its last product |
| StorageScreen.SpreadScratch | crates/ipu-codegen/src/estimate/mid.rs:421-438 | scratch is spread over the owners of a result exactly when each has a tile and no product overflows, and each tile keeps its last owner's part |
| StorageNeeds.ShardTakes | crates/ipu-codegen/src/estimate/mid.rs:191-240 | the bytes of a shard, from program, shard and literal sizes: for a root that some product reads first or writes, the least multiple of 0x4000 bytes, or 0x8000 in interleaved memory, that holds shard and tail; for any other root the shard and tail themselves; times the copies; nothing exactly if 64 bits do not hold them. The tail is eight times the operand bytes of the last product that reads the root first |
| StorageNeeds.RowsAre | crates/ipu-codegen/src/estimate/mid.rs:191-254 | what either form measures for a root on a tile is the largest that the program needs of it there |
| StorageNeeds.ScratchesAre | crates/ipu-codegen/src/estimate/mid.rs:421-438 | the scratch of a step on a tile is its last owner's share of the whole, in proportion to its elements and rounded up |
| StorageNeeds.KnownIff | crates/ipu-codegen/src/estimate/mid.rs:191-438 | either form gets as far as adding up memory exactly when every layout resolves, every step has a price, every shard with data has a tile and a size, and every share of scratch can be computed |
| StorageScreen.FormsBound | crates/ipu-codegen/src/estimate/mid.rs:114-471 | where both forms of the analysis get as far as adding up memory, the column bounds the tiles in sizes and scratch |
| StorageScreen.FormsAttained | crates/ipu-codegen/src/estimate/mid.rs:191-254 | and each of the column's sizes is needed on some tile |
| StorageScreen.KnownTiles | crates/ipu-codegen/src/estimate/mid.rs:191-438 | where the column fits, the tiles can be measured and given their scratch exactly when every shard looked up has an owner: no product of scratch and elements overflows |
| StorageScreen.KnownColumn | crates/ipu-codegen/src/estimate/mid.rs:191-254 | where the tiles can be measured, so can the column |
| StorageScreen.ScreenAccepts | crates/ipu-codegen/src/estimate/mid.rs:89-112 | the analysis of every tile accepts a program if and only if the screen does and every shard looked up has an owner |
| StorageScreen.BuildPlan | crates/ipu-codegen/src/estimate/mid.rs:138-292 | roots, classes of roots, live inputs, touched roots and last uses of a validated program, computed as one plan |
| StorageScreen.AnalyzeStorage | crates/ipu-codegen/src/estimate/mid.rs:114-471 | one form of the analysis from the program to its peaks: nothing exactly when a layout, a price, a size, a scratch part or a removal fails. `StorageNeeds.RowsAre` and `StorageMeaning.ReportIs` give sizes and peaks on program, shards and literal memory elements |
| StorageScreen.AnalyzeWithBudget | crates/ipu-codegen/src/estimate/mid.rs:89-112 | the column's peaks if they fit, else those of every tile; accepted together with known owners exactly when the analysis of every tile accepts, which `StorageMeaning.AcceptsIff` gives on program, shards and literal memory elements |
| StorageMeaning.RootsAre | crates/ipu-codegen/src/estimate/mid.rs:139-176 | roots are the finest choice that gives aliased results, body arguments, repeat results and first iterated values the storage of what they alias |
| StorageMeaning.LiveAre | crates/ipu-codegen/src/estimate/mid.rs:255-292 | before the first step the inputs are live; in a step, a root that is an input or that a step so far has touched, if that step or a later one uses it or it is kept; unused inputs stay for the first step |
| StorageMeaning.PictureIsDrawn | crates/ipu-codegen/src/estimate/mid.rs:114-438 | the analysis works on the roots, classes, live storage, sizes and scratch that the program, its shards and literal sizes call for |
| StorageMeaning.PeaksAreOf | crates/ipu-codegen/src/estimate/mid.rs:294-471 | peaks below half the word range are attained in some entry on some tile, in each dimension, and exceeded in none |
| StorageMeaning.ReportIs | crates/ipu-codegen/src/estimate/mid.rs:114-471 | either form of the analysis reports the peaks of that storage |
| StorageMeaning.FitsIff | crates/ipu-codegen/src/estimate/mid.rs:294-471 | peaks exist and fit exactly when in every entry every tile has room for its live storage and scratch |
| StorageMeaning.AcceptsIff | crates/ipu-codegen/src/estimate/mid.rs:89-112 | a program whose memory can be measured is accepted exactly when every tile has room in every entry for what the program asks for there |
| StorageLayouts.AnalyzeValidated | crates/ipu-codegen/src/estimate/mid.rs:89-112 | for every validated program with layouts and owner maps, the screen accepts if and only if the analysis of every tile finds peaks and they fit, and that is if and only if all shards can be measured and every tile has room in every step for the live storage and scratch that program, shards and literal sizes call for |
| OnlineSoftmax.Rescale | device/flash_attention_online_f16.cpp:107-113 | raising the running maximum multiplies each shifted sum by the exponential of the difference |
| OnlineSoftmax.ShiftCancels | device/flash_attention_online_f16.cpp:138-140 | dividing the shifted sums gives the plain softmax average for every shift |
| OnlineSoftmax.LargestJoins | device/flash_attention_online_f16.cpp:99-107 | the maximum of the running and the block maximum is the maximum of all scores so far |
| OnlineSoftmax.LargestBounds | device/flash_attention_online_f16.cpp:99-107 | the running maximum is one of the scores and bounds all of them |
| OnlineSoftmax.AttentionDot | device/flash_attention_online_f16.cpp:38-57 | reading in pairs or singly gives the same sum of products |
| OnlineSoftmax.ScaleRow | device/flash_attention_online_f16.cpp:112-113 | one row is multiplied and nothing else changes |
| OnlineSoftmax.AddWeighted | device/flash_attention_online_f16.cpp:119-133 | a weighted value row is added to one row, in pairs or singly, and nothing else changes |
| OnlineSoftmax.ScoreBlock | device/flash_attention_online_f16.cpp:94-105 | the block's scores are the dot products of their key rows times the scale, with their maximum; `AttentionLaws` says what the scale does |
| OnlineSoftmax.AccumulateRescales | device/flash_attention_online_f16.cpp:108-113 | rescaled row and denominator are the sums scaled to the new maximum |
| OnlineSoftmax.AccumulateBlock | device/flash_attention_online_f16.cpp:115-134 | a block adds exactly its keys to row and denominator |
| OnlineSoftmax.AttendBlock | device/flash_attention_online_f16.cpp:92-136 | after each block maximum, denominator and row are those of all keys so far |
| OnlineSoftmax.AttendRow | device/flash_attention_online_f16.cpp:76-141 | for every key count and block size a query row ends as its softmax average; no other element changes |
| OnlineSoftmax.Compute | device/flash_attention_online_f16.cpp:68-143 | a worker finishes exactly every sixth row |
| OnlineSoftmax.Launch | device/flash_attention_online_f16.cpp:58-144 | the six workers in any order leave every output element its softmax average; by `AttentionLaws.OutputIs` that is the mean of the value rows, each weighed by the exponential of the scale times the inner product of query and key |
| AttentionLaws.AttentionIs | device/flash_attention_online_f16.cpp:92-141 | an average is the sum of the values, each times the exponential of the scale times the inner product of query row and key row, over the sum of those exponentials |
| AttentionLaws.OutputIs | device/flash_attention_online_f16.cpp:58-144 | an output whose rows are done is the list of these means, matrix by matrix and row by row |
| AttentionLaws.NoScaleIsMean | device/flash_attention_online_f16.cpp:102-103 | with scale 0 every output element is the plain mean of its column |
| AttentionLaws.OneKeyReturns | device/flash_attention_online_f16.cpp:92-141 | a single key returns its value, whatever query and scale are |
| AttentionLaws.ScaledQueries | device/flash_attention_online_f16.cpp:102-103 | multiplying every query element by a factor gives the output of the scale multiplied by it |
| HalfWords.PacksEven | device/rearrange_f16.cpp:117-118 | the masks and shifts of the even word pick the low halves of two words |
| HalfWords.PacksOdd | device/rearrange_f16.cpp:119-120 | the masks and shifts of the odd word pick the high halves of two words |
| HalfWords.PairOfHalves | device/unpack_amp_f16.cpp:75-78 | two extracted halves recombine to a word that holds both |
| HalfWords.HalvesMakeWord | device/unpack_amp_f16.cpp:75-78 | a word is its high half above the sixteen bits of its low half |
| HalfWords.HalvesAreOnly | device/unpack_amp_f16.cpp:75-78 | no other two halves make up a word |
| HalfWords.StoredHalf | device/rearrange_f16.cpp:128-131 | storing a word changes its two elements only |
| PackLayout.PlaceInside | device/rearrange_f16.cpp:61-141 | every element has a place inside the destination, in each order |
| PackLayout.PlaceReturns | device/rearrange_f16.cpp:61-141 | the destination element of a cell determines the cell, so no two share a place |
| PackLayout.PlaceFills | device/rearrange_f16.cpp:61-141 | every destination element is the place of a cell: each order is one-to-one onto the destination |
| PackLayout.PairPlaces | device/rearrange_f16.cpp:61-141 | the neighbours that a word stores together have consecutive places starting at an even one |
| PackLayout.WordHasOneWorker | device/rearrange_f16.cpp:61-141 | cells that share a word belong to one unit of work, so no two workers write a word |
| PackOrders.LeftCounts | device/rearrange_f16.cpp:93-97 | order 0 stores panels of `inner` columns, in each panel all matrices, in each matrix all rows |
| PackOrders.RightCounts | device/rearrange_f16.cpp:65-75 | order 1 stores, in each matrix, groups of rows, in each group panels of `inner` columns, in each panel the group's rows |
| PackOrders.BlocksCount | device/rearrange_f16.cpp:122-131 | order 2 stores, in each matrix, blocks of rows, in each of them blocks of columns, in each block its parts of `inner` rows, in each part the block's columns, for each column the part's rows |
| PackKernels.LeftAddress | device/rearrange_f16.cpp:93-97 | the kernel's word address in order 0 is the element's place |
| PackKernels.RightAddress | device/rearrange_f16.cpp:65-75 | the kernel's word address in order 1 is the element's place |
| PackKernels.BlockAddress | device/rearrange_f16.cpp:122-131 | the kernel's word address in order 2 is the element's place |
| PackKernels.StoreHolds | device/rearrange_f16.cpp:61-141 | a store changes an aligned cell and its neighbour, no other cell |
| PackKernels.PackLeft | device/rearrange_f16.cpp:61-100 | a worker of order 0 gives its rows their elements or zero and changes nothing else; words past the layout are kept |
| PackKernels.PackRight | device/rearrange_f16.cpp:61-81 | a worker of order 1 gives its rows their elements or zero and changes nothing else; words past the layout are kept |
| PackKernels.PackBlocks | device/rearrange_f16.cpp:102-140 | a worker of order 2 gives its row pairs their elements or zero and changes nothing else; words past the layout are kept |
| PackKernels.Unpack | device/unpack_amp_f16.cpp:47-84 | an unpacking worker gives its rows their packed elements or zero and changes nothing else; words past the layout are kept |
| PackKernels.Launch | device/rearrange_f16.cpp:47-143 | the six workers in any order store every element and zero in all padding; words past the layout are kept |
| PackKernels.PackedCells | device/rearrange_f16.cpp:47-143 | a cell's place holds the source's element in the same matrix, row and column, and 0 beyond the source's rows and columns |
| PackKernels.UnpackInvertsPack | device/unpack_amp_f16.cpp:47-84 | unpacking order 2 after packing returns every logical element and zero in the padding |
| PackKernels.RoundTrip | device/unpack_amp_f16.cpp:47-84 | packing and unpacking, each by six workers in any order, is the identity on the matrices: every element is back in its row and column, and all padding is 0 |
| LayerNorm.WorkersSum | device/elementwise_vector.hpp:121-158 | the strided sums of the six workers add every complete group once |
| LayerNorm.NormSum | device/elementwise_vector.hpp:27-158 | a worker's repeat counts and strides sum exactly its groups, on the narrow and the wide path |
| LayerNorm.PartialsSum | device/layer_norm_distributed.cpp:38-45 | six partial sums make up the plain, or centered, sum over all complete pairs |
| LayerNorm.Moments.ComputeSum | device/layer_norm_distributed.cpp:23-42 | a worker of either sum stage writes its own partial sum and no other |
| LayerNorm.Moments.PartialMean | device/layer_norm_distributed.cpp:38-40 | every worker of a later stage computes the same mean |
| LayerNorm.Moments.Finish | device/layer_norm_distributed.cpp:43-47 | the last stage writes the part's mean and variance |
| LayerNorm.Moments.Run | device/layer_norm_distributed.cpp:23-49 | three stages with workers in any order compute the kernel's moments, which are the part's exactly under the stated condition |
| LayerNorm.KernelMomentsIff | device/elementwise_vector.hpp:121-158 | at any width the moments are exact if and only if the width is even or the last element and the mean are zero |
| LayerNorm.BuiltWidthsAreExact | crates/ipu-codegen/src/kernel/normalization.rs:118-124 | at every width the compiler builds the kernel for, the moments are exact |
| LayerNorm.WidthOfThreeIsInexact | device/elementwise_vector.hpp:121-158 | a concrete odd width on which the kernel alone loses the last element |
| LayerNorm.PartSpread | device/layer_norm_distributed.cpp:72-78 | about any center a part's spread is its variance plus the squared distance of its mean, per element |
| LayerNorm.PartsCombine | device/layer_norm_distributed.cpp:67-80 | combining equal parts gives the population mean and variance of the whole row |
| LayerNorm.MomentsAre | device/layer_norm_distributed.cpp:67-80 | the mean times the count is the total, and variance plus the square of the mean, times the count, is the total of the squares |
| LayerNorm.CombineRow | device/layer_norm_distributed.cpp:67-80 | the mean and variance applied to a row are those of the row |
| LayerNorm.RowMoments | device/layer_norm_distributed.cpp:8-80 | a row of even parts, each summed on either path by six workers in any order in each stage, and combined, gets exactly its own moments |
| BroadcastAdd.Wrap | device/elementwise_f16.cpp:77-80 | repeated subtraction gives the remainder |
| BroadcastAdd.WrapAdvances | device/elementwise_f16.cpp:128-134 | a running wrapped index stays the remainder |
| BroadcastAdd.AddStride | device/elementwise_vector.hpp:7-28 | a worker adds every sixth group of a stretch and touches no other |
| BroadcastAdd.AddRows | device/elementwise_f16.cpp:94-126 | broadcasting over rows gives every element of the worker its wrapped sum |
| BroadcastAdd.AddWrappedPairs | device/elementwise_f16.cpp:127-135 | the general pair path gives every element of the worker its wrapped sum |
| BroadcastAdd.AddWrappedElements | device/elementwise_f16.cpp:138-155 | the path for odd lengths does the same, with the last element of an odd output written by worker zero |
| BroadcastAdd.Compute | device/elementwise_f16.cpp:81-157 | whichever path is chosen, a worker writes exactly the elements it owns, each with its wrapped sum |
| BroadcastAdd.Launch | device/elementwise_f16.cpp:72-157 | the six workers in any order give every element left[i mod L] + right[i mod R] |
| BroadcastAdd.WantRepeats | device/elementwise_f16.cpp:72-157 | after any number of passes through each operand, an element is the sum of the operands' elements reached |
| LinkerReach.ExportedGrows | crates/ipu-elf/src/lib.rs:610-622 | the exported definitions of part of the objects are a prefix of all of them |
| LinkerReach.CollectDefinitions | crates/ipu-elf/src/lib.rs:610-622 | the table holds exactly the exported definitions, and fails exactly when a name is exported twice |
| LinkerReach.PushRoots | crates/ipu-elf/src/lib.rs:624-632 | the worklist starts with the roots' definitions, and fails exactly when one is missing |
| LinkerReach.PushTargets | crates/ipu-elf/src/lib.rs:637-655 | a section's relocation targets are pushed, all of them and nothing else, and a bad symbol fails |
| LinkerReach.ReachableIsLeast | crates/ipu-elf/src/lib.rs:606-658 | reachable sections are in every closed set that contains the roots |
| LinkerReach.ReachableIsClosed | crates/ipu-elf/src/lib.rs:606-658 | the reachable sections contain the roots and are closed under relocation |
| LinkerReach.ReachableSections | crates/ipu-elf/src/lib.rs:606-658 | on every finite graph the worklist ends with the least set of sections that holds the roots' definitions and all that kept sections refer to, or with exactly the error that applies |
| LinkerReach.TableDefines | crates/ipu-elf/src/lib.rs:610-622 | the table leads from a name to the section in which some object exports it, and to no other |
| LinkerReach.ReachableIsLeastClosed | crates/ipu-elf/src/lib.rs:606-658 | the reachable sections are the least set that holds the definitions of the roots and every section that a kept section's relocations refer to, by number or by exported name |
| Alignment.NextMultipleIsLeast | crates/ipu-elf/src/lib.rs:673-685 | aligning gives the least multiple at or above the value |
| Alignment.PowersAreDoubled | crates/ipu-elf/src/lib.rs:673-685 | alignments are what repeated doubling makes of 1 |
| LinkerPlacement.PlaceSection | crates/ipu-elf/src/lib.rs:418-466 | a section goes to the lowest aligned address that fits, at or after the cursor or from the start of a later region; failure means that none has room, that aligning left the 32-bit addresses, or that the size needs more than 32 bits |
| LinkerPlacement.StepsOnce | crates/ipu-elf/src/lib.rs:418-464 | the placement rule admits one place at most |
| LinkerPlacement.StuckNeverEnds | crates/ipu-elf/src/lib.rs:432-443 | where the pass is stuck no complete placement by the rule exists |
| LinkerPlacement.OverflowIsStuck | crates/ipu-elf/src/lib.rs:418-443 | for disjoint regions an address overflow also means that no remaining region has room |
| LinkerPlacement.PlaceAll | crates/ipu-elf/src/lib.rs:391-466 | all sections are placed by the rule, aligned, inside one region, and apart in the image, in memory too if the regions are disjoint; it fails only where the pass is stuck, overflows, or an alignment is bad |
| LinkerPlacement.PlacedOnce | crates/ipu-elf/src/lib.rs:452-464 | placed addresses and image bytes correspond one to one |
| LinkerPlacement.ExtendSegment | crates/ipu-elf/src/lib.rs:576-589 | extending a segment over a section that meets it in memory and image keeps the mapping |
| LinkerPlacement.Coalesce | crates/ipu-elf/src/lib.rs:576-589 | the segments map exactly the placed addresses to exactly their image bytes, none could be merged further, and they ascend if the placements do |
| LinkerPlacement.LinkLayout | crates/ipu-elf/src/lib.rs:380-589 | placement and coalescing together give every occupied address its image byte, one only if the regions are disjoint |
| LinkerPlacement.ApartIff | crates/ipu-elf/src/lib.rs:387-466 | no choice of sections makes two share an address if and only if the sorted regions are disjoint |
| LinkerPlacement.OverlapShares | crates/ipu-elf/src/lib.rs:432-446 | for any two regions that overlap, concrete sections that share an address |
| LinkerRelocation.NumberOfBytes | crates/ipu-elf/src/lib.rs:791-809 | little-endian bytes read back as the number |
| BitFields.MergesLow18 | crates/ipu-elf/src/lib.rs:741-762 | masking and merging an 18-bit field is its quotient form |
| BitFields.MergesLow19 | crates/ipu-elf/src/lib.rs:741-762 | masking and merging a 19-bit field is its quotient form |
| BitFields.MergesLow20 | crates/ipu-elf/src/lib.rs:741-762 | masking and merging a 20-bit field is its quotient form |
| BitFields.MergesLow21 | crates/ipu-elf/src/lib.rs:741-762 | masking and merging a 21-bit field is its quotient form |
| BitFields.MergesRun | crates/ipu-elf/src/lib.rs:763-782 | the split field of a run instruction is merged into bits 16 to 19 and 0 to 11 |
| BitFields.InsertsQuotients | crates/ipu-elf/src/lib.rs:741-800 | for every kind of relocation that shares its word, the masks and shifts are the quotient form on 32-bit words |
| BitFields.InsertsNumber | crates/ipu-elf/src/lib.rs:741-800 | the number that the merged word stands for is the one that the relocation model computes from those of word and field |
| LinkerRelocation.InsertReads | crates/ipu-elf/src/lib.rs:687-789 | after merging, the field reads as the value and all other bits are as before, for every kind |
| LinkerRelocation.FieldAndRest | crates/ipu-elf/src/lib.rs:687-789 | field and remaining bits determine the word |
| LinkerRelocation.Write | crates/ipu-elf/src/lib.rs:801-809 | bytes are written at their offset if they fit the section, else nothing is |
| LinkerRelocation.StoreField | crates/ipu-elf/src/lib.rs:720-782 | the word at the offset takes the field, no other bit of the image changes |
| LinkerRelocation.ApplyRelocation | crates/ipu-elf/src/lib.rs:687-789 | a relocation succeeds exactly for values that its kind can express inside the section, and then refers to the value: four times an 18- or 19-bit field, 8, 16 or 32 times a shifted half, image base plus four times a relative half or run (a run may fall short by less than four where its base is not aligned), the field itself for the rest; it changes only its field bits, and writes nothing on an error |
| LinkerRelocation.RepresentableIs | crates/ipu-elf/src/lib.rs:720-782 | the values that each kind can express, as literal ranges and multiples, and the room it needs |
| LinkerRelocation.StoredRefers | crates/ipu-elf/src/lib.rs:720-809 | a stored field refers to the value in the terms of its kind, read little-endian from the bytes, and the other bits are as before |
| RoleSweep.RolesPartition | crates/ipu-profile/src/lib.rs:405-470 | idle and covered cycles make up the phase, and roles overlap consistently |
| RoleSweep.RolesAreSets | crates/ipu-profile/src/lib.rs:405-470 | the cycles of each role are the sizes of the sets of cycles in which sending, receiving or waiting activities run, of the first two together, and of none |
| RoleSweep.DepthIsOverlap | crates/ipu-profile/src/lib.rs:418-433 | clipped start and end events count the activities that cover a cycle, and cancel at the phase's end |
| RoleSweep.DepthPermutes | crates/ipu-profile/src/lib.rs:434-434 | the depth does not depend on how the sort orders equal times |
| RoleSweep.RoleBetween | crates/ipu-profile/src/lib.rs:436-463 | between two events the counters tell which kinds cover every cycle |
| RoleSweep.ExchangeRoleCycles | crates/ipu-profile/src/lib.rs:414-470 | the sweep counts for each role exactly the cycles of the phase in that role |
| MemoryHistory.InsertInterval | crates/ipu-codegen/src/exchange/hazards.rs:18-38 | inserting in order and repairing prefix ends keeps the index right and adds exactly the interval |
| MemoryHistory.LatestEndBounds | crates/ipu-codegen/src/exchange/hazards.rs:32-38 | a prefix's latest end is attained and bounds all its ends |
| MemoryHistory.History.Record | crates/ipu-codegen/src/exchange/hazards.rs:17-39 | after any recordings every element's index holds exactly the intervals recorded for it |
| MemoryHistory.LatestOfElement | crates/ipu-codegen/src/exchange/hazards.rs:41-52 | one prefix decides the latest overlapping end of one element |
| MemoryHistory.History.ConflictEnd | crates/ipu-codegen/src/exchange/hazards.rs:41-52 | the query gives the latest end over all recorded intervals that overlap it and share an element, or none exactly when there is none |
| TileMemory.CutRemoves | crates/ipu-codegen/src/memory.rs:79-84 | splicing a free range removes exactly the reserved addresses |
| TileMemory.RunInOne | crates/ipu-codegen/src/memory.rs:67-72 | a run of free addresses lies in one free range |
| TileMemory.TileMemoryMap.constructor | crates/ipu-codegen/src/memory.rs:51-57 | the new map is all free |
| TileMemory.TileMemoryMap.Reserve | crates/ipu-codegen/src/memory.rs:59-90 | a reservation succeeds exactly when all its addresses are free, and free ranges and reservations keep tiling the memory |
| TileMemory.LowestDecides | crates/ipu-codegen/src/memory.rs:103-119 | in a free range the lowest aligned start fits whenever any start does |
| TileMemory.TileMemoryMap.Allocate | crates/ipu-codegen/src/memory.rs:92-126 | a request gets the lowest feasible place and fails exactly when there is none; a well-formed request fails as invalid exactly when the search leaves the 32-bit addresses, else as out of memory |
| TileMemory.FeasibleIff | crates/ipu-codegen/src/memory.rs:92-126 | a place is feasible exactly for a proper request, with powers of two as alignments, and if a reservation from there is free: aligned at both ends, inside the bounds, with payload and guard, and no more than the end alignment asks for |
| TileMemory.RoomKeepsAddresses | crates/ipu-codegen/src/memory.rs:103-113 | room for the request and both alignments above memory and lower bound keeps every search inside the addresses |
| TileMemory.SameFailureTwoErrors | crates/ipu-codegen/src/memory.rs:92-126 | on one concrete map two requests too large for it fail, one as out of memory, one as invalid |
| TileMemory.TileMemoryMap.NextFree | crates/ipu-codegen/src/memory.rs:128-157 | the lowest aligned free address in the bounds, or an error exactly when there is none |
| TileMemory.MergeRanges | crates/ipu-codegen/src/memory.rs:182-195 | merging gives ranges with gaps that cover exactly the union |
| TileMemory.UncoveredRanges | crates/ipu-codegen/src/memory.rs:160-179 | the result is exactly what ranges sorted by start leave uncovered, in ascending order unless some range ends before it starts |
| TileMemory.FreeBetween | crates/ipu-codegen/src/memory.rs:160-195 | the uncovered part of merged ranges is the exact complement of the union |
| F143.BlockValue | crates/ipu-codegen/src/f143.rs:52-64 | the numbers of one exponent are evenly spaced up to the first of the next |
| F143.MagnitudeGrows | crates/ipu-codegen/src/f143.rs:52-64 | larger codes have strictly larger magnitudes |
| F143.EncodesBlock | crates/ipu-codegen/src/f143.rs:29-49 | below 240 the code is the rounded position in the magnitude's block, carry included, and the overflow branch is never taken |
| F143.EncodeIsNearest | crates/ipu-codegen/src/f143.rs:20-50 | no code is nearer than the one chosen, and of two equally near the even one is chosen |
| F143.EncodeIsMonotone | crates/ipu-codegen/src/f143.rs:20-50 | larger magnitudes get codes at least as large |
| F143.EncodeKeepsOrder | crates/ipu-codegen/src/f143.rs:20-50 | encoding keeps the order of all numbers, across signs and into saturation |
| F143.Saturates | crates/ipu-codegen/src/f143.rs:29-31 | 240 is the largest magnitude, and everything from there on, infinity included, encodes to it |
| F143.OnlyNaNIsNaN | crates/ipu-codegen/src/f143.rs:20-37 | only NaN gets the NaN code, so no number becomes a negative zero |
| F143.EncodeInvertsDecode | crates/ipu-codegen/src/f143.rs:15-65 | every byte but NaN decodes to a number that encodes to it again, and NaN to NaN, at every scale |
| F143.DecodesTo | crates/ipu-codegen/src/f143.rs:52-64 | at scale 0 bytes below 16 count steps of 1/1024, every eight codes values double, bytes above 0x80 are negative, and 0x80 is no number |
| F143.ScaleDoubles | crates/ipu-codegen/src/f143.rs:52-64 | one more in the scale doubles every decoded value |
| F143.EncodeScales | crates/ipu-codegen/src/f143.rs:15-50 | twice the value has the same code at one more in the scale |
| ProfileFiles.NumberedIff | crates/ipu-package/src/lib.rs:268-281 | numbering steps by position changes nothing if and only if every step's number is its position in its tile |
| ProfileFiles.ShownIff | crates/ipu-cli/src/profile_report.html:284-309 | the page shows a report as recorded if and only if its steps are numbered by position and no compute step is inactive |
| ProfileFiles.ShownAsIdle | crates/ipu-cli/src/profile_report.html:284-309 | the page turns a step into an idle one exactly if it is a compute step with the metadata entry "active" of value "false" |
| ProfileFiles.CountersWrap | crates/ipu-cli/src/profile_report.rs:115-116 | differences and sums of cycle counters are taken modulo 2^32 |
| ProfileFiles.ReversedIsRenumbered | crates/ipu-cli/src/profile_report.rs:312-347 | a tile recorded in reverse is not read back as it was |
| ProfileReport.Intern | crates/ipu-cli/src/profile_report.rs:30-40 | interning keeps all earlier indices, never stores a value twice, and its index reads back the value |
| ProfileReport.EncodeStep | crates/ipu-cli/src/profile_report.rs:58-92 | a step row reads back all fields and metadata of its step but its number, which no row stores |
| ProfileReport.EncodeSample | crates/ipu-cli/src/profile_report.rs:55-119 | a sample row reads back its step but the number, wrapped start and end, and stream |
| ProfileReport.EncodeTile | crates/ipu-cli/src/profile_report.rs:51-126 | a tile's rows read back its samples, one by one, under its physical number |
| ProfileReport.EncodeSamples | crates/ipu-cli/src/profile_report.rs:42-126 | from the final tables every row of every tile reads back its sample |
| ProfileReport.FlattenMetadata | crates/ipu-cli/src/profile_report.rs:128-139 | each metadata set is found in the flat list by its start and count |
| ProfileReport.SetReads | crates/ipu-cli/src/profile_report.html:201-207 | following a set's start and count through the flat list and the strings gives its metadata |
| ProfileReport.PhaseKeys | crates/ipu-cli/src/profile_report.rs:169-177 | each stream's key is the earliest phase of the samples that use it |
| ProfileReport.EarliestBounds | crates/ipu-cli/src/profile_report.rs:169-177 | no sample that uses a stream has an earlier phase than its key |
| ProfileReport.EarliestIsUsed | crates/ipu-cli/src/profile_report.rs:169-177 | a stream's key is the phase of one of the samples that use it |
| ProfileReport.RenumberedInOrder | crates/ipu-cli/src/profile_report.rs:169-184 | of two streams the one with the lower number is used by some row that is not later, in epoch and phase, than any row that uses the other |
| ProfileReport.Reorder | crates/ipu-cli/src/profile_report.rs:178-192 | the renumbering leads from every old stream to the same stream in the new order, which ascends by key |
| ProfileReport.Renumber | crates/ipu-cli/src/profile_report.rs:184-191 | every row of every tile gets the new number of its stream and nothing else changes |
| ProfileReport.CutChunks | crates/ipu-cli/src/profile_report.rs:193-219 | chunks follow one another over all streams, and only a last stream can exceed the event limit |
| ProfileReport.InOneChunk | crates/ipu-cli/src/profile_report.rs:193-219 | every stream is in a chunk, at its number minus the chunk's first |
| ProfileReport.ChunksHoldOnce | crates/ipu-cli/src/profile_report.rs:193-219 | no string, step or stream is stored twice |
| ProfileReport.ChunksApart | crates/ipu-cli/src/profile_report.rs:193-219 | no stream is in two chunks |
| ProfileReport.ChunksRead | crates/ipu-cli/src/profile_report.html:216-243 | a reader that looks a stream's number up in the chunks gets that stream |
| ProfileReport.Payload | crates/ipu-cli/src/profile_report.rs:42-151 | the single-file form holds tables, flattened metadata and counts, and rows that read back every sample |
| ProfileReport.SplitStreams | crates/ipu-cli/src/profile_report.rs:160-219 | reordering, renumbering and chunking the streams leads every row to the same stream |
| ProfileReport.ReportReads | crates/ipu-cli/src/profile_report.html:201-309 | files that hold the tables read back, tile by tile and sample by sample, as the report with steps numbered by position; the page shows it with inactive compute steps as idle |
| ProfileReport.WriteReport | crates/ipu-cli/src/profile_report.rs:157-227 | in either form and for any sort, reading the files gives the report with steps numbered by position, hence the report itself if and only if it is numbered so, and the page shows it as recorded if and only if besides no compute step is inactive; counts and chunk bounds are right; nothing is stored twice, every chunk but the last ends with the stream that reaches 20,000 events, and streams are numbered in the order of their phases |
| StreamSummary.CodeTells | crates/ipu-cli/src/profile_report.rs:258-265 | a code tells which directions run, whether tiles only wait, and which textures there are |
| StreamSummary.CodeShows | crates/ipu-cli/src/profile_report.rs:239-265 | the code of a cycle tells exactly whether a sending, receiving or waiting activity runs in it, and whether one is multicast or paired |
| StreamSummary.EndIsLatest | crates/ipu-cli/src/profile_report.rs:239-252 | no activity stops after the end, and unless it is 0 one stops there |
| StreamSummary.DepthIsRunning | crates/ipu-cli/src/profile_report.rs:239-253 | start and stop events count the activities that run in a cycle |
| StreamSummary.CodeBetween | crates/ipu-cli/src/profile_report.rs:253-277 | between two sorted events the counters tell the code of every instant |
| StreamSummary.InstantsAdd | crates/ipu-cli/src/profile_report.rs:266-273 | the scaled overlap added to a bin is the number of its instants with the code |
| StreamSummary.AddStretch | crates/ipu-cli/src/profile_report.rs:266-273 | one stretch accounts for its time once in every bin it reaches |
| StreamSummary.Dominant | crates/ipu-cli/src/profile_report.rs:279-289 | the shown code has the greatest weight, the last of several |
| StreamSummary.Summarize | crates/ipu-cli/src/profile_report.rs:239-291 | the weights of each of the 32 bins add up to exactly the stream's end, each counts the instants with its code, and each bin shows a dominant one |

## Left out

- ProgramTimeline.EstimateProgram: kernel prices and exchange spans are parameters, because the cost tables and the exchange estimator are other components.
- ExchangeStorage.ExchangeStoragePhase.AddConnectionRows: addresses and byte and patch counters are unbounded here, while the source keeps them in 64-bit words.
- ExchangeStorage.ExchangeStoragePhase.AddReceive: event hashes are an arbitrary function; no freedom from collisions is claimed. `send` and `disable_sharing`, two counters, are not modelled.
- HostCalls.Plan: whether a tile's own program can be planned (`plan_tile`: its packets for other tiles, and room for code and data in `DataArena`) is a parameter; packet encodings are taken to succeed on aligned words, and the staging address is a parameter.
- HostCalls.PlanCall: packet headers beyond word alignment are not modelled.
- HostSession.RunPlanned: staging storage is modelled apart from tile memory, so bindings are taken not to overlap it; a streaming call that failed earlier and left its partial output behind is excluded.
- HostArena.Device.Acknowledge: the device is an abstract agent that does exactly the batch released by each acknowledgement, storing an output batch in either of its two phases; bus access, timeouts and jitter are hardware and left out.
- CheckpointService.Host.ServiceCheckpoint: comparing results with the reference is a parameter of the poll; decoding exception registers is not modelled; stepping over a trap is one access.
- StorageAnalysis.ScreenIsExact: row storage estimates and cycle prices, which do not depend on the form of the analysis, are left out, as are observers.
- StorageScreen.AnalyzeWithBudget: a kernel's scratch is a parameter, none if the kernel has no price. Scratch is spread for all steps before memory is added up, where the source does both step by step; either way a failure leaves nothing. Values have 32-bit numbers, and memory limits are 32-bit sizes.
- StorageLayouts.AnalyzeValidated: the widths of an axis' partitions are parameters, so padding and blocking are left out; tensors are not empty, and no shard has 2^64 elements or more, where the source multiplies unchecked.
- StorageLiveness.NeededIsLive: the unrolled body reads every member of an iterated list through the root of the first, to which the analysis aliases the argument; later members count as read at the repeat's own step. That aliased values may share one storage, so that a write does not destroy another value still needed, is for the passes that make the aliases.
- StorageRefinements.PeaksDominateIff: says nothing of refinements that cannot be computed; those exist only where sums overflow.
- StorageSizes.Measure: takes the elements and the owner of every shard as parameters; `StorageLayouts` gets them from layouts and owner maps.
- OnlineSoftmax.Launch: over reals, with an exponential that is positive and turns sums into products; half-precision rounding is not modelled.
- PackKernels.Launch: as for all kernels here, the six workers run one after the other, in any order and each at least once; stores of different workers that interleave are not modelled, though they go to different words (`PackLayout.WordHasOneWorker`).
- LayerNorm.RowMoments: over reals; assembly loops are taken as their strided index patterns, and the lanes of an accumulator as one sum. Applying the moments to the elements, and the variants that add a residual first, are left out.
- PackKernels.Unpack: source order 3, the transposed variant of the same index map, is left out; shapes are divisible by their blocks, inner and column blocks even, as the kernels are instantiated.
- BroadcastAdd.Launch: operands are no longer than the output, beyond which the row path would write past it; addition is any commutative operation.
- LinkerReach.ReachableSections: names are taken to be readable; parsing object files is left out.
- LinkerPlacement.PlaceAll: the image offset is unbounded here.
- LinkerRelocation.ApplyRelocation: resolving relocation targets to addresses is left out; the relocation's value is given. Words are natural numbers here; `BitFields.InsertsNumber` ties them to the masks and shifts on 32-bit words.
- RoleSweep.ExchangeRoleCycles: counters are unbounded here; they never exceed the phase length.
- F143.EncodeIsNearest: over reals, in which scaling by a power of two and the mantissa steps are exact; `f143_scale`, a rounded logarithm, is left out.
- ProfileReport.WriteReport: the origin of the cycles (`cycle_origin`) is a parameter that the reader also gets, because the files do not hold it; table indices are unbounded here. JSON, the page's views and file names are left out.
- Profile queries, percentiles, grouping and `union_length` (`crates/ipu-profile`): sorting and counting over the samples, apart from the role sweep.
- Package validation beyond batch ends (`crates/ipu-package`): range and uniqueness tests of single fields. Tile images and boot framing: fixed byte layouts that hardware reads.
- Diagnostic index decoding and views (`crates/ipu-tests`): finite index arithmetic beside the packing orders above.
- Exchange scheduling, placement, kernel selection and the instruction encoders: not part of this model.
