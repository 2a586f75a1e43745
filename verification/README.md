# Surface G6 touch driver: a verified model

The Linux driver for the Surface Pro 11 touch panel turns Heat frames into
contacts, follows them from frame to frame, and keeps the link to the panel
alive through a QSPI controller fed by the GPI DMA engine.  Several of its parts
exist twice in the repository, once in the kernel and once as an offline tool.
This project models both where they matter and proves what each part keeps.

The modules follow the path of a frame:

- `HeatFormat`, `HeatSpec`, `HeatParser`, `HeatEncoding`: the report, its sections and
  blocks, the driver's parser and the offline decoder as they run, when they agree, and
  that both undo an encoder.
- `Grid`, `Candidates`, `FloodFill`, `Detection`, `ContactStore`, `Resegmentation`,
  `Ellipses`, `Geometry`, `Positions`, `Measurement`: connected components over a grid of any
  size, the filters, the ten strongest, the peak-relative passes, moments, eigenvalues and
  fixed-point positions.
- `HungarianSpec`, `Hungarian`, `Padding`, `Matchings`, `TrackAssignment`,
  `AssignmentOracle`: the in-place solver, why its padded matrix answers the gated
  question, and the dynamic-programming oracle.
- `Lifecycle`, `Motions`, `Tracker`, `ReferenceTracker`: what a track slot has seen, frame by
  frame, where its contacts lead, the driver's frame transaction over ten slots under two
  policies, and the offline tracker over a dictionary, for every setting of its limits.
- `ClassRules`, `ClassHistory`, `ClassOracle`: the opt-in class history and its
  offline twin over real scores.
- `CompletionLog`, `GpiRing`, `GpiChannel`, `GpiQspi`: descriptor lists, cookies, ring
  pointers and the deferred transmit completion, as steps in any order.
- `RecoveryLog`, `Recovery`, `TouchDriver`: resets, faults, bounded retry, the storm
  breaker, and the gate between the panel and the input device.
- `OutputMerge`: the offline merge pass over output records.
- `Numbers`, `Sums`: minimum, floors, integer root, finite sums and permutations.

Sizes are parameters (grid rows and columns, tracks, contacts, ring length); the
panel's 46 by 68 grid, ten slots and byte counters appear where a bound needs
them.  Values the hardware chooses (events, replies, time gaps, read results)
are arguments of the steps, so a statement over every call sequence is a
statement over every behaviour of the panel and the engine.

Where the code differs from what its comments or tests suggest, the code is
modelled and the difference is stated as a lemma:

- `gpi_issue_pending` queues the elements of the last issued descriptor only, so
  two submissions before one call, or a call with nothing new, break the ring
  account (`GpiChannel.Channel.IssuePending` gives the exact condition).
- A transmit completion event with a code other than end-of-transfer or
  end-of-block, while a descriptor waits in the slot, completes that descriptor a
  first time and leaves the slot pointing at it (`GpiQspi.Gpii.TransferComplete`
  gives the exact condition).
- A repeated transfer end moves the read pointer back to the waiting descriptor's
  end.  The ring account survives exactly when the later descriptors together stay
  below the ring size (`GpiQspi.EventAccount`), and
  `GpiQspi.RepeatedEndLosesAccount` is a run in which it does not.
- The driver reads every metadata section and rejects a second heat section; the
  offline decoder reads the first of each (`HeatSpec.DecodersAgreeExactly` gives the
  exact condition, `HeatSpec.TwoHeatsDiffer` and `HeatSpec.TwoMetadataDiffer` a
  report each).
- The padded matrix answers the gated question only below a bound on the gate
  (`Padding.GateBoundIsExact`); the driver's gates are below it.
- The offline tracker never reports a track in the frame that creates it, also when
  one frame of evidence is asked for (`ReferenceTracker.EarnedAtBirth`).
- Two resets in the same millisecond start the storm count over, and the count is
  a byte (`RecoveryLog.ThirdReset`, `Recovery.ThirdResetSelects`).
- The Q24 assignment coordinate is not always the rounded one
  (`Positions.AssignmentCoordinateCanFallShort`); the repository compares the two
  for strengths up to 64 only.

## Model

| member | source | states |
|---|---|---|
| `HungarianSpec.DualBound` | phase55/modules/mshw0485_touch.c:1924-1971 | Weak duality: every assignment costs at least the sum of feasible potentials, with equality when all its edges are tight |
| `HungarianSpec.SettledIsMinimum` | phase55/modules/mshw0485_touch.c:1924-1971 | Feasible potentials (u + v never above cost) that are tight on a full injective matching make that matching one of minimum total cost |
| `HungarianSpec.PotentialBounds` | phase55/modules/mshw0485_touch.c:1924-1971 | While rows are inserted, u stays in 0..top, v in -top..0 and v[0] at or above -n*top, the bound behind the absence of 32-bit overflow |
| `HungarianSpec.ShiftKeepsMatched` | phase55/modules/mshw0485_touch.c:1955-1962 | Shifting the potentials of the grown tree by the least slack keeps feasibility, tightness and the bounds |
| `Hungarian.Workspace.Relax` | phase55/modules/mshw0485_touch.c:1938-1954 | The inner scan folds the current row into minv and way and returns an unused column of least finite slack, never above twice the largest cost |
| `Hungarian.Workspace.Grow` | phase55/modules/mshw0485_touch.c:1924-1964 | The search visits each column at most once, keeps minv finite on unused columns, and ends at a free column with the way chain recorded |
| `Hungarian.Workspace.Augment` | phase55/modules/mshw0485_touch.c:1966-1971 | Walking way back to column 0 visits no column twice, matches exactly one more column and keeps the matching injective and tight |
| `Hungarian.Workspace.InsertRow` | phase55/modules/mshw0485_touch.c:1924-1971 | One outer round settles one more row: feasible, tight, injective, within the integer bounds |
| `Hungarian.Workspace.Solve` | phase55/modules/mshw0485_touch.c:1924-1971 | For every square cost matrix with entries in 0..top whose workspace fits 32 bits, the result is a perfect matching of minimum total cost |
| `Padding.PaddedAssignmentCost` | phase55/modules/mshw0485_touch.c:1906-1922 | Cost of any assignment of the padded matrix in terms of the real pairs it contains |
| `Padding.NoInvalidPair` | phase55/modules/mshw0485_touch.c:1973-1980 | An optimum of the padded matrix never contains a pair beyond the gate, because two dummies are cheaper |
| `Padding.PaddedOptimumIsLexOptimal` | phase55/modules/mshw0485_touch.c:1906-1980 | The real pairs of any padded optimum are a lexicographic optimum of the unpadded problem: most gated pairs, then least total cost, provided gate * min(tracks, contacts) stays below twice the unmatched cost |
| `Padding.GateBoundIsExact` | phase55/modules/mshw0485_touch.c:1906-1980 | For every number of tracks and contacts and every gate below the invalid cost, solving the padded matrix gives a lexicographic optimum of every gated problem exactly when gate * min(tracks, contacts) is below twice the unmatched cost |
| `Padding.LargeGateFails` | tools/track_heat_contacts.py:175-252 | At any size, when a full diagonal of one distance within the gate costs more than that, no optimum of the padded matrix will do for the staircase problem: that distance on the diagonal, zeros beside it, everything else invalid |
| `Matchings.TiesDiffer` | tools/track_heat_contacts.py:162-166 | Ties may pick different pairs: one track and two equally distant contacts have two optima |
| `TrackAssignment.FillCosts` | phase55/modules/mshw0485_touch.c:1906-1922 | The matrix filled in place is the padded one: distances, dummy rows and columns, zero corner |
| `TrackAssignment.WriteSlots` | phase55/modules/mshw0485_touch.c:1973-1981 | The filter over the solved columns writes exactly the real pairs to the contact slots and leaves -1 elsewhere |
| `TrackAssignment.AssignTracks` | phase55/modules/mshw0485_touch.c:1888-1985 | For up to ten tracks and any number of contacts that fits the workspace, contact slots are a lexicographic optimum over the active slots, with the early return for an empty side, and the match counter is its size |
| `AssignmentOracle.Solve` | tools/track_heat_contacts.py:149-172 | The memoised search returns an optimum over the remaining tracks and unused contacts |
| `AssignmentOracle.MinimumCostMatches` | tools/track_heat_contacts.py:123-174 | The offline oracle returns a lexicographic optimum of the gated problem |
| `AssignmentOracle.SolversAgree` | tests/test_contact_tracker.py:22-50 | Driver and oracle agree in number of matches and total distance on problems of every size, not only the sampled ones |
| `Grid.ClassesPartition` | phase55/modules/mshw0485_touch.c:1555-1590 | 4-connected reachability splits the active cells into disjoint classes |
| `Grid.ClosedIsClass` | phase55/modules/mshw0485_touch.c:1555-1590 | A set closed under active neighbours and reachable from one of its members is that member's class |
| `FloodFill.Scanner.PushNeighbours` | phase55/modules/mshw0485_touch.c:1570-1590 | One cell's neighbours are queued, each at most once and never an inactive one |
| `FloodFill.Scanner.Fill` | phase55/modules/mshw0485_touch.c:1545-1595 | The flood fill leaves in the queue exactly the class of its start, each cell once and never more than the grid holds, and its accumulators are that class's size, strength, peak, moments and tight bounding box |
| `Detection.ListedOnce` | phase55/modules/mshw0485_touch.c:1540-1553 | Every active cell lies in exactly one listed component |
| `Detection.Judge` | phase55/modules/mshw0485_touch.c:1597-1657 | A candidate is stored exactly when it passes the weak, noise and palm filters, with the position of its weighted mean |
| `Detection.FindContacts` | phase55/modules/mshw0485_touch.c:1535-1662 | Over the whole grid the candidates are the 4-connected classes, one each, and the kept contacts carry the greatest strengths among those the filters accept; every kept contact belongs to a listed class whose cells pass the filters, and its coordinates are the floors of that class's weighted mean column and row, as sums over its cells: scaled so that the last column and row become 32767, and in Q24 inside the box of its cells |
| `Detection.AcceptedByCells` | phase55/modules/mshw0485_touch.c:1597-1622 | A candidate passes the filters exactly when its cells do: three of them or a strong one, at most 48 within twelve columns and rows, and no loud noise bin at the row nearest to their weighted mean |
| `Detection.CompletedAtMean` | phase55/modules/mshw0485_touch.c:1624-1633 | The stored coordinates are the floors of the weighted mean of the cells the candidate describes, each along its own axis |
| `ContactStore.Store.Put` | phase55/modules/mshw0485_touch.c:1085-1102 | A full store replaces its first weakest contact only by a stronger one |
| `ContactStore.StoredKeepsLargest` | phase55/modules/mshw0485_touch.c:1085-1102 | After each candidate the stored strengths are the largest of all strengths seen |
| `ContactStore.LargestIsUnique` | tools/decode_heat_frame.py:706-736 | There is only one multiset of the largest strengths |
| `ContactStore.SortedPrefixIsLargest` | tools/decode_heat_frame.py:461-462 | Sorting by strength and taking the first ten gives that multiset too, so streaming replacement refines it |
| `Resegmentation.CutoffsNest` | phase55/modules/mshw0485_touch.c:1218-1235 | The three cutoffs never increase from pass to pass and never exclude the peak |
| `Resegmentation.RawCutoff` | phase55/modules/mshw0485_touch.c:1218-1235 | The cutoff lies a half, three quarters or seven eighths of the way from 157.6 to nine above the peak, within rounding twice to a whole value |
| `Resegmentation.LargestShrinks` | phase55/modules/mshw0485_touch.c:1269-1313 | A lower cutoff cannot make the largest accepted island larger |
| `Resegmentation.Pass` | phase55/modules/mshw0485_touch.c:1273-1308 | One pass lists the islands of its mask once each and returns their accepted count and largest size |
| `Resegmentation.SecondaryFeatures` | phase55/modules/mshw0485_touch.c:1250-1314 | The six features are the pass results, or the defaults of the early return |
| `Resegmentation.PassesNest` | phase55/modules/mshw0485_touch.c:1250-1314 | pixels >= largest 0 >= largest 1 >= largest 2 and every pass accepts an island, for every component, early return included |
| `Geometry.CauchySchwarz` | phase55/modules/mshw0485_touch.c:1330-1342 | Weighted moments satisfy Cauchy-Schwarz, for every nonnegative weighting |
| `Geometry.CentralRange` | phase55/modules/mshw0485_touch.c:1349-1355 | Products and scaled difference of a central moment fit 64 bits before the truncating division, the quotient is in range, and a variance is nonnegative |
| `Geometry.AxesInRange` | phase55/modules/mshw0485_touch.c:1356-1371 | From trace and discriminant on, the shifted eigenvalues, the scaled roots, both axes and the spread product fit their 64 and 32 bits |
| `Geometry.MomentsFit` | phase55/modules/mshw0485_touch.c:1316-1371 | For every component within the palm limit both variances are nonnegative and every intermediate fits: products, scaled differences, squared weight, discriminant, shifted eigenvalues, scaled roots, axes, spread |
| `Geometry.GeometryFeatures` | phase55/modules/mshw0485_touch.c:1316-1381 | The accumulation loop gives the component's weighted moments; the features are those of the ellipse with these moments: variances and covariance truncated in Q12, eigenvalues by their sum and product, axes and quotients by their floors; the ratio is at least 1.0 |
| `Ellipses.EigenvaluesObey` | phase55/modules/mshw0485_touch.c:1356-1364 | Within stated rounding the two eigenvalues add up to the trace and multiply to the determinant of the covariance matrix, and the higher one is a root of its characteristic polynomial; when truncation makes the determinant negative the lower one is zero |
| `Geometry.DegenerateIsThin` | phase55/modules/mshw0485_touch.c:1349-1371 | Equality in Cauchy-Schwarz for the central moments leaves the minor axis at exactly 1.0 |
| `Geometry.LineIsThin` | phase55/modules/mshw0485_touch.c:1316-1371 | A component whose cells with weight lie on one line, at any angle, has minor axis 1.0, and its ratio is its major axis |
| `Measurement.Measure` | phase55/modules/mshw0485_touch.c:1545-1643 | One component from its first cell on: the fill, its position in the bounding box and on the panel, the palm filter, the component array left as the mask of its class, and both feature passes over that mask: islands under the three cutoffs, ratio and spread of the ellipse of its moments |
| `Measurement.OutputCentroid` | phase55/modules/mshw0485_touch.c:1122-1150 | The output position of the low-latency policy is the weighted mean over the component, on the panel, or the logical position when no cell has weight |
| `Positions.CentroidInBox` | phase55/modules/mshw0485_touch.c:1624-1633 | Logical and sensor coordinates lie within the component's bounding box; logical ones are at most 32767 |
| `Positions.PositionsFit` | phase55/modules/mshw0485_touch.c:1618-1633 | On the 46 by 68 panel all products of the position formulas fit 64 bits |
| `Positions.AssignmentCoordinateNearlyRounds` | tools/windows_tracking_geometry.py:392-422 | The Q24 assignment coordinate is never above and at most one below the half-up rounding of centroid times scale |
| `Positions.AssignmentCoordinateCanFallShort` | phase55/modules/mshw0485_touch.c:1767-1772 | With the shipped horizontal scale a component of strength 319 really falls one short |
| `Positions.AssignmentCoordinateExact` | phase55/modules/mshw0485_touch.c:1767-1772 | Below the cap the two agree exactly when what quantisation drops does not carry the fraction over the next unit |
| `HeatFormat.WrittenDecidesTiling` | phase55/modules/mshw0485_touch.c:1049-1072 | Blocks that lie in the grid and do not overlap cover it exactly when their sizes add up to it |
| `HeatFormat.BlocksRoundTrip` | tools/decode_heat_frame.py:189-223 | Encoded blocks parse back, wherever they stand in a report |
| `HeatFormat.PaintOfCut` | tools/decode_heat_frame.py:189-223 | Painting any tiling cut from a grid returns the grid |
| `HeatSpec.NoiseFromRecords` | tools/decode_heat_frame.py:226-345 | The driver's single pass over the metadata records equals reading all of them and then judging the noise records |
| `HeatSpec.KernelFromIsFold` | phase55/modules/mshw0485_touch.c:1015-1075 | The driver's loop is a fold over the parsed sections |
| `HeatSpec.DecodersAgreeExactly` | tools/decode_heat_frame.py:151-345 | For every report, driver and offline decoder return the same result exactly when the decoder rejects it too, or it has one heat section and every metadata section after the first parses and carries no noise record; what the decoder rejects the driver rejects |
| `HeatSpec.TwoHeatsDiffer` | phase55/modules/mshw0485_touch.c:1043-1044 | A report of 43 bytes with two heat sections, which the driver rejects and the decoder reads |
| `HeatSpec.TwoMetadataDiffer` | phase55/modules/mshw0485_touch.c:1030-1037 | A report of 52 bytes with two metadata sections, from which the driver takes noise bins and the decoder none |
| `HeatEncoding.RoundTrip` | tools/decode_heat_frame.py:151-345 | Both decoders return the grid from any encoder's tiling of it, and the noise bins exactly when the report carries a record of them, for every list of up to sixteen 16-bit bins |
| `HeatParser.FrameBuffer.PlaceBlock` | phase55/modules/mshw0485_touch.c:1057-1069 | A block is accepted exactly when it lies in the grid and overlaps nothing placed before |
| `HeatParser.FrameBuffer.TakeHeat` | phase55/modules/mshw0485_touch.c:1043-1073 | One heat section fills the heatmap in place and succeeds exactly when its blocks tile the grid |
| `HeatParser.FrameBuffer.TakeHeatOffline` | tools/decode_heat_frame.py:189-223 | So does the decoder's variant, which counts written cells at the end |
| `HeatParser.FrameBuffer.TakeNoise` | phase55/modules/mshw0485_touch.c:952-991 | The metadata walk accepts at most one noise record, well formed |
| `HeatSpec.NoEntryMeansNoHeat` | phase55/modules/mshw0485_touch.c:1075-1078 | The driver reports a missing heat section only for a report whose sections all parse, metadata included, and of which none is a heat section |
| `HeatParser.FrameBuffer.ExtractHeatmap` | phase55/modules/mshw0485_touch.c:993-1078 | The driver's parser as it runs returns success with the grid and noise bins of its specification, or the error code of what went wrong: content too short, malformed, or no heat section |
| `HeatParser.FrameBuffer.ParseSections` | tools/decode_heat_frame.py:151-186 | The decoder's section walk |
| `HeatParser.FrameBuffer.DecodeOffline` | tools/decode_heat_frame.py:739-760 | The decoder as it runs equals its specification, errors included |
| `Lifecycle.EarnedBySummary` | phase55/modules/mshw0485_touch.c:1987-2032 | The counters a track carries decide the plain statement, for every hold time: matched in this frame, never more frames missed in a row since its creation than tracks are held for, and enough sightings of allowed shape |
| `Lifecycle.AliveMeansNoLongGap` | phase55/modules/mshw0485_touch.c:2071-2091 | A track lives exactly while no gap longer than the hold time has occurred since its creation, for every hold time |
| `Lifecycle.BirthIsLatest` | phase55/modules/mshw0485_touch.c:1987-2032 | What the counters of a track stand for: its requirement is that of its latest start, its evidence the sightings of allowed shape since, its age the frames since in which it was shown |
| `Lifecycle.FilterCoordinate` | phase55/modules/mshw0485_touch.c:1774-1791 | Smoothing stays between the previous output and the sample and passes fast motion through |
| `Lifecycle.Distance` | phase55/modules/mshw0485_touch.c:1793-1834 | A distance is the floored root of the squared distance from the predicted position, or the squared distance of assignment coordinates under the low-latency policy, exactly when that is within its gate, and invalid otherwise; `Motions.TwoSightings` and `Motions.TwoSensorSightings` say from contacts alone where the prediction lies |
| `Motions.TwoSightings` | phase55/modules/mshw0485_touch.c:1822-1833 | A track updated from contact a and then from b is at a distance from c that is the floored root of the squared gap between c and 2b - a clamped to the panel, invalid exactly beyond the gate, and 0 exactly at that point |
| `Motions.TwoSensorSightings` | phase55/modules/mshw0485_touch.c:1798-1820 | The same for sensor positions under the low-latency policy: the squared gap of assignment coordinates from 2b - a clamped, invalid from the radius on, 0 exactly where both coordinates agree |
| `Motions.DistanceOfMotion` | phase55/modules/mshw0485_touch.c:1793-1834 | The same after any number of missed frames: the step between the last two contacts is halved towards zero for each frame missed, which is a division by a power of two |
| `Tracker.SettledRequirement` | phase55/modules/mshw0485_touch.c:1857-1878 | Tracks started earlier in the same frame never change what a later contact requires |
| `Tracker.TrackTable.Assign` | phase55/modules/mshw0485_touch.c:2149-2150 | The frame's matching is a lexicographic optimum over distances measured from where the last two contacts of each track and its missed frames lead |
| `Tracker.TrackTable.UpdateMatched` | phase55/modules/mshw0485_touch.c:2152-2159 | Exactly the matched tracks are updated, each from its own contact; `Tracker.FrameOutputs` says what that makes of their outputs |
| `Tracker.TrackTable.AdvanceUnmatched` | phase55/modules/mshw0485_touch.c:2071-2091 | Exactly the unmatched active tracks coast or expire |
| `Tracker.TrackTable.ConfirmationRequirement` | phase55/modules/mshw0485_touch.c:1836-1881 | The loop computes the closed form: eight beside a track it may have split from, five when weak, misshapen or crowded, otherwise three, or two under the low-latency policy |
| `Tracker.TrackTable.CreateUnmatched` | phase55/modules/mshw0485_touch.c:2093-2110 | Unmatched contacts take the first free slots in order and are dropped only when none is free |
| `Tracker.CollectedAreEarned` | phase55/modules/mshw0485_touch.c:2112-2135 | The collected slots are exactly those that have earned it |
| `Tracker.FrameOutputs` | phase55/modules/mshw0485_touch.c:1987-2110 | A matched track's output lies, per coordinate, between its old output and its contact: three to one when at most 64 apart, one to three up to 256, each rounded half up, the contact's own beyond; under the low-latency policy it is the contact's output position; a new track starts at its contact and any other keeps its output |
| `Tracker.TrackTable.Frame` | phase55/modules/mshw0485_touch.c:2137-2178 | Under the default and the low-latency policy, on every run a slot is reported, once, exactly when it was matched or created this frame, never missed more than six frames in a row since creation, and has seen the required number of allowed contacts; the match is best for distances from where the contacts lead; every reported coordinate follows from the slot's old output and the same coordinate of its contact; the new state is the stated function of the old |
| `ReferenceTracker.SmoothAgrees` | tools/track_heat_contacts.py:109-120 | The reference filter equals the driver's on every pair of coordinates |
| `ReferenceTracker.ReportedIsEarned` | tools/track_heat_contacts.py:358-371 | A slot is in the result exactly when it has earned it by sightings and was matched, not created, in this frame |
| `ReferenceTracker.EarnedAtBirth` | tools/track_heat_contacts.py:316-356 | In its first frame a track has earned its report exactly when one sighting is enough, so with a confirmation of one frame the tracker reports one frame late |
| `ReferenceTracker.ContactTracker.RefreshMatched` | tools/track_heat_contacts.py:303-326 | Exactly the matched tracks are refreshed, each from its own sample and once |
| `ReferenceTracker.ContactTracker.DriftUnmatched` | tools/track_heat_contacts.py:328-340 | Exactly the tracks not matched drift, with floored velocities, or are deleted when they have missed more frames than they are held for |
| `ReferenceTracker.ContactTracker.ConfirmationRequirement` | tools/track_heat_contacts.py:272-285 | The loop computes the closed form of the evidence a new track needs |
| `ReferenceTracker.ContactTracker.OpenUnmatched` | tools/track_heat_contacts.py:342-356 | Unmatched samples take the free slots in order and are dropped only when none is left |
| `ReferenceTracker.ContactTracker.Update` | tools/track_heat_contacts.py:290-371 | For every setting of slots, gate, hold time, confirmation and direct coordinates, on every run the result lists, once each, exactly the slots that earned it and were matched in this frame, with raw position and age, and an output that follows from the old one and the sample; the match is best for distances rounded from where the last two samples lead; the tracks after a frame are the stated function of those before |
| `ClassRules.Newest` | phase55/modules/mshw0485_touch.c:1732-1741 | The buffer is always the newest min(k, 10) vectors, newest first |
| `ClassRules.OneNeverStepsToThree` | phase55/modules/g6ts_lifecycle_profile.h:110-120 | Under the shipped table class one never steps directly to class three |
| `ClassRules.NeverUnclassifiedAgain` | phase55/modules/mshw0485_touch.c:1743-1765 | Once classified a track is never unclassified again, under any table |
| `ClassRules.NoQuickReturn` | phase55/modules/mshw0485_touch.c:1689-1715 | A track that left a class and returns to it past the early age has stayed away for at least the depth of the returning rule |
| `ClassRules.ShippedNoQuickReturn` | phase55/modules/g6ts_lifecycle_profile.h:32-230 | The shipped table meets the condition of that statement for every pair of classes from the fourth frame on |
| `ClassHistory.TrackClass.Push` | phase55/modules/mshw0485_touch.c:1732-1741 | The in-place shift drops the oldest vector and keeps the others in order |
| `ClassHistory.TrackClass.HistoryPasses` | phase55/modules/mshw0485_touch.c:1689-1715 | The history gate passes exactly when every vector of the rule's depth clears it |
| `ClassHistory.TrackClass.Update` | phase55/modules/mshw0485_touch.c:1722-1765 | After every update the class is that of the whole run, age saturating at 65535 |
| `ClassOracle.BaseClassHistory.Update` | tools/extract_windows_lifecycle.py:948-994 | The offline update, over real scores and an unbounded age, with or without a point count: the class of the whole run, the decision record with the gate that decided, and the error for a negative count, which leaves the class alone |
| `ClassOracle.ClassesAgree` | tools/extract_windows_lifecycle.py:939-994 | Driver and offline tools select the same class after every sequence of score vectors, under every table |
| `GpiRing.Accounting` | phase55/modules/gpi.c:1713-1725 | Free elements are the ring less what unfinished descriptors still hold, less one |
| `GpiRing.Retire` | phase55/modules/gpi.c:1303-1310 | Retiring the oldest descriptor puts the read pointer at its doorbell value and leaves exactly the elements of the later ones occupied |
| `GpiRing.EventRing.Recycle` | phase55/modules/gpi.c:1743-1757 | The event ring's write pointer stays one element behind its read pointer |
| `GpiChannel.Channel.Prepare` | phase55/modules/gpi.c:2240-2302 | A descriptor is prepared only when its elements fit |
| `GpiChannel.Channel.Submit` | phase55/modules/dmaengine.h:29-41 | Submission moves one descriptor and gives it a cookie that is never below the minimum, also at the wrap |
| `GpiChannel.Channel.IssuePending` | phase55/modules/gpi.c:2305-2364 | All submitted descriptors become issued, but only the last one's elements are queued; ring accounting survives exactly when there is one new descriptor with room for it, or nothing to queue |
| `GpiChannel.Channel.Complete` | phase55/modules/dmaengine.h:52-57 | Completion takes the oldest issued descriptor; the driver's own check on its cookie cannot fail |
| `CompletionLog.CompletedInOrder` | phase55/modules/virt-dma.h:167-173 | Completions happen in issue order, so no descriptor completes twice |
| `CompletionLog.CompletedWasIssued` | phase55/modules/virt-dma.h:82-88 | A completed descriptor was issued before |
| `CompletionLog.CompletedAfterTerminal` | phase55/modules/gpi.c:1348-1366 | A completion by notification, by grace period or by a transfer end comes after the descriptor's terminal event and reports that event's residue; by grace only after the timer fired for it |
| `CompletionLog.TerminationIsFinal` | phase55/modules/gpi.c:1850-1914 | Nothing issued before a termination completes after it |
| `CompletionLog.NoSecondCompletion` | phase55/modules/dmaengine.h:52-57 | Completing a descriptor again would break the log, which is what the driver's check catches |
| `GpiRing.Repoint` | phase55/modules/gpi.c:1284-1301 | Moving the read pointer anywhere keeps the ring account exactly when the first unfinished descriptor stays unfinished and all unfinished elements stay below the ring size |
| `GpiQspi.Residue` | phase55/modules/gpi.c:1337-1339 | Residue and moved bytes add up to the length, or more was moved and the residue is zero |
| `GpiQspi.LateEndIgnored` | phase55/modules/gpi.c:1278-1301 | A transfer end one element beyond the retired descriptor is dropped exactly when the oldest descriptor has more than one element; a repeat of the retired end always is |
| `GpiQspi.TransmitIgnoresLateEnds` | phase55/modules/gpi.c:1278-1301 | On the transmit channel, whose descriptors all have at least two elements, neither is ever taken for an end of the oldest descriptor |
| `GpiQspi.EventAccount` | phase55/modules/gpi.c:1224-1376 | Whether any event on an active channel, other than a stray completion code, keeps the ring account: exactly when the new read pointer fits what is then unfinished; a fresh transfer end always, with the read pointer at the retired doorbell; a repeated one exactly when the later descriptors together stay below the ring size |
| `GpiQspi.RepeatedEndLosesAccount` | phase55/modules/gpi.c:1284-1301 | A run that loses the account: a later descriptor reports a block end, a new one is queued into the freed room, and the waiting descriptor's end is repeated |
| `GpiQspi.Gpii.TransferComplete` | phase55/modules/gpi.c:1224-1376 | On an inactive channel nothing changes; on an active one the log, slot, read pointer, issued list and completed cookie after every event, and the state stays sound exactly when the event is not another completion code for a descriptor already waiting in the slot |
| `GpiQspi.Gpii.Defer` | phase55/modules/gpi.c:1348-1368 | The slot takes the oldest transmit descriptor after its terminal event and arms the timer |
| `GpiQspi.Gpii.Notify` | phase55/modules/gpi.c:674-706 | A notification completes the waiting descriptor, and does nothing when none waits |
| `GpiQspi.Gpii.TimerFires` | phase55/modules/gpi.c:1507-1518 | The timer marks the waiting descriptor and schedules the tasklet, completing nothing |
| `GpiQspi.Gpii.TaskletEnds` | phase55/modules/gpi.c:1484-1505 | The tasklet completes the waiting descriptor exactly when its grace period has passed |
| `GpiQspi.Gpii.TerminateAll` | phase55/modules/gpi.c:1835-1914 | Termination empties the slot and stops both channels; which lists and rings are emptied and which channels run again follows the step whose command fails, and without a failure both do |
| `GpiQspi.Gpii.Send` | phase55/modules/gpi.c:2240-2364 | A client that prepares, submits and issues one descriptor at a time succeeds exactly when its elements fit, and always keeps the ring account |
| `RecoveryLog.NoOutputBeforeReopening` | phase55/modules/mshw0485_touch.c:2326-2346 | After a panel reset, a host fault, a suspend or an attempt there is no output until an attempt has succeeded and opened the input |
| `RecoveryLog.PressNeedsFrame` | phase55/modules/mshw0485_touch.c:2194-2203 | Where a first valid frame is awaited, every other report that produces output has such a frame between it and the opening |
| `RecoveryLog.ThirdReset` | phase55/modules/mshw0485_touch.c:2321-2337 | Three resets in a row make a storm exactly when the second and third came within the window and not in the same millisecond |
| `Recovery.StormSelectsHardware` | phase55/modules/mshw0485_touch.c:2321-2345 | With the breaker on, the third reset of a row selects hardware exactly when it and the second came within the window and not in the same millisecond as the one before, whatever quiet happens between |
| `Recovery.ThirdResetSelects` | phase55/modules/mshw0485_touch.c:2321-2345 | The same from a row of any length: also the count so far and two more, kept in a byte, must be at least three |
| `Recovery.StreakSelects` | phase55/modules/mshw0485_touch.c:2321-2345 | A rapid streak of any length selects hardware at its last reset exactly when its length modulo 256 is at least three |
| `Recovery.BoundedRetry` | phase55/modules/mshw0485_touch.c:3161-3224 | With no success or resume in between, at most four attempts fail, plus one for every suspend that failed meanwhile; at most three plus those when resets never select software; past 256 failures the bound repeats with the byte counter |
| `Recovery.Gate.NotePanelReset` | phase55/modules/mshw0485_touch.c:2317-2354 | A reset closes the input, selects the path and schedules recovery |
| `Recovery.Gate.NoteHostFault` | phase55/modules/mshw0485_touch.c:2357-2390 | A host fault closes the input and selects hardware, when the policy is on |
| `Recovery.SucceedsWhenAllGood` | phase55/modules/mshw0485_touch.c:2931-3159 | An attempt succeeds exactly when every stage of its path passed, in order |
| `Recovery.StopDecides` | phase55/modules/mshw0485_touch.c:2931-3159 | The outcome of an attempt is decided at its first stage whose reply does not let it go on |
| `Recovery.Gate.RunSequence` | phase55/modules/mshw0485_touch.c:2931-3159 | The exchanges in the order of the code, with and without the attach of the parity configuration, have the outcome of the stages of the path |
| `Recovery.Gate.Reinitialize` | phase55/modules/mshw0485_touch.c:2931-3159 | The sequence runs up to the first exchange that fails; a noticed reset, a dead transport and a refusal have their own effects, and only a complete pass opens the input |
| `Recovery.Gate.Failed` | phase55/modules/mshw0485_touch.c:3200-3223 | A failed software attempt falls back to hardware; a failed hardware attempt is repeated while the streak is short; a fatal error stops both |
| `Recovery.Gate.Work` | phase55/modules/mshw0485_touch.c:3161-3224 | With k the first stage of the taken path whose reply does not let it go on: a reply that kills the transport at k leaves the fatal flag and nothing scheduled; a reset seen by a stage that reads input adds exactly that reset with its gap before the end of the attempt; any other refusal leaves the fatal flag as it was; without such a k the attempt succeeds, and opens the input unless a stage was paused; when another attempt follows |
| `TouchDriver.Driver.HandleHeat` | phase55/modules/mshw0485_touch.c:2212-2234 | A malformed frame clears the tracks; a valid one reports exactly what tracks seen since the last clearing have earned |
| `TouchDriver.Driver.HandleReport` | phase55/modules/mshw0485_touch.c:2187-2235 | What each report adds to the output, and when the wait for a first valid frame ends |
| `TouchDriver.Driver.NotePanelReset` | phase55/modules/mshw0485_touch.c:2346-2354 | After a reset no slot remembers anything, so no earlier track is ever reported |
| `TouchDriver.Driver.Interrupt` | phase55/modules/mshw0485_touch.c:2392-2432 | The bounded drain loop adds exactly what its reads call for, ends where they say, counts an overflow as a fault, and does nothing while the input is closed |
| `TouchDriver.Driver.RecoveryWork` | phase55/modules/mshw0485_touch.c:3175-3180 | The worker clears the tracks, adds exactly one attempt that goes as its replies say, and leaves the input open only after every stage passed |
| `OutputMerge.JoinStep` | tools/windows_tracking_geometry.py:300-306 | Relabelling the second group of a pair as the first adds exactly that pair to the least equivalence |
| `OutputMerge.SamePartition` | tools/windows_tracking_geometry.py:300-310 | The final grouping does not depend on the order of the pairs |
| `OutputMerge.Merge` | tools/windows_tracking_geometry.py:269-312 | Two records end in one group exactly when the least equivalence with the initial grouping and all near pairs relates them; identifiers left are original; exactly the paired type-one records become type seven; the result is the paired tracks; a negative limit is an error |

## Left out

- TouchDriver.Driver.HandleHeat: takes the contacts found in a frame as an argument; parsing and detection are proved separately in `HeatParser` and `Detection`, and their contact records carry more fields than the tracker needs; that a measured component meets what the tracker demands of a contact is `Measurement.LocatedIsOnPanel`.
- TrackAssignment.AssignTracks: distances are an argument and the padded workspace is allocated with a capacity, where the driver's is fixed at twenty.
- Tracker.TrackTable.Frame: the default and the low-latency policy; under the third one, class history decides confirmation, which `ClassHistory` proves on its own, and its frame is not modelled.  The current-slot bit mask is a set.
- ClassHistory.TrackClass.Update: scores are unbounded integers; that differences of classifier scores fit 64 bits is assumed.
- ClassOracle.BaseClassHistory.Update: scores are real numbers, so rounding of the tools' floating point is not modelled.
- GpiQspi.Gpii.TerminateAll: one atomic step; the window between clearing the slot and stopping the channels is not modelled.
- GpiQspi.Gpii.TimerFires: fires only while armed and as one step; a timer callback running on another processor while a notification completes is not modelled.
- GpiQspi.Gpii.TransferComplete: event pointers name a ring element; misaligned or foreign addresses are not modelled, nor are immediate-data events, which QSPI descriptors do not use.
- Recovery.Gate.Reinitialize: a stage is one reply of the panel; the loops that skip stale input inside a stage, descriptor checks and feature contents are part of that reply. A stage the configuration leaves out (output report 0x09) is one that succeeds.
- OutputMerge.Merge: coordinates are real numbers and records are distinct entries of an array.
- ReferenceTracker.ContactTracker.Update: slot count, hold time and confirmation are not negative; samples are integers already rounded, and a distance is the exact nearest integer to the root, without floating-point error.
- Exact agreement of driver and reference tracker runs: false, since velocities are halved towards zero in one and floored in the other, and only one gates evidence on shape.
- The four-class classifier, halo ratio, local peaks, the tools' expanded-edge centroid, and all floating-point parity with the Windows runtime.
- Register access, doorbells, clocks, interconnect, runtime power management, GPIO and ACPI power sequencing, delays, probe, sysfs, devicetree; channel pause, resume and release; other GPI protocols.
- Memory of ring elements: which transfer element lies where is followed through the pointers only, not its contents; the power-of-two rounding of ring sizes is not modelled.
- Container extraction, header generation, log parsing, firmware resources and output records of the tools.
- The earlier drivers in phase54 and src, and both SPI controller drivers.
