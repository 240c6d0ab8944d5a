# WSClean image algorithms in Dafny

A Dafny model of the algorithms of WSClean that cut, clean, grid and decompose images, with proofs of what
they promise. Each module follows one component of the repository. Code that works step by step on buffers
is a method over arrays or a class with fields, proved against a specification; the lemmas beside it say what
the specification means.

`dafny verify dfyconfig.toml` checks the whole project.

## What is modelled

- **Splitting an image for parallel deconvolution.** `DividingPath` and `DijkstraSplitter`: the search for a
  cheapest dividing path; `CheapestWalks` says what one is in terms of pixels. `Division`, `FloodAreas` and
  `SplitLines`: strips, drawn dividers, flooded areas and bounding boxes. `SplitGrid`, `UserMask` and
  `ImageSplit`: the places of the grid, what the mask buffer that they share holds when it is the turn of each,
  also with a user mask, and the boundary masks cut out of it. `ParallelDeconvolution` and `ParallelSplit`: the
  workers, as schedules of their locked steps, over the subimages that the split returns. The chain is: every
  divider is a cheapest one, every pixel has one owner, and the outcome is the same under every schedule, for
  whatever algorithm that keeps to its own pixels, if and only if no box reaches a pixel that is left over in
  the mask buffer. `SplitOverlap` is an image on which one does.
- **Cleaning.** `PeakFinder`, `SimpleClean`, `CleanRuns`, `GenericClean`, `SubMinorLoop` and `MajorIteration`:
  the loop on the whole image, the sub-minor loop on a list of selected pixels, the major iteration around them,
  and the exact condition on the residual under which they take the same components; `UnselectedPeak` is an
  image on which they do not. `FoundPeak`: what the search finds, in terms of pixels. `PaddedConvolution`: the
  correction of the residual after a sub-minor run. `Reports`: what a major iteration reports, and when both
  loops report the same; `WeakPeak` and `DarkBorder` are images. `LocalClean` and `ParallelClean`: cleaning
  under a mask depends on the data under it only, so that the parallel clean does not depend on the schedule.
- **Gridding with w-layers.** `WLayers`, `UvPlane`, `UvCells` and `WStackingGridder`: layers and passes, the
  cells that a visibility reaches, gridding and degridding as adjoint operations, and the memory bound.
  `InversionLanes` and `PredictionOrder`: the threads that grid and predict, for every interleaving.
- **The isotropic undecimated wavelet transform.** `IuwtConvolution`, `ConvolveLoops` and `IuwtDecomposition`:
  the fast convolution, decomposition and perfect reconstruction; `Impulse` is an image. `ImageAnalysis`: flood
  fills over positions and scales. `BoxTrim`: cutting a box out of an image and putting it back in place.
- **The component list** (`ComponentSums`, `ComponentList`), a lazily merged list that keeps exact sums.
- **Big MPI messages** (`MpiBig`), sent in packages.
- **Channel groups and image sets** (`ChannelGroups`, `ImageSet`, `ChannelAverages`).

`Common`, `FiniteSets`, `RowMajor`, `Shares` and `BlockLists` hold what several of these need.

## How

- Pixels and visibilities are exact `real` values. Rounding, overflow and not-a-number are not modelled; where
  the code gives infinities or not-a-number the model gives `None`.
- Counts are unbounded. The wrap-around of `size_t` is written out where an expression can go below zero:
  the periodic uv indices, the bounds of the simple convolution, and the package count of a received message.
- Two-dimensional buffers are arrays indexed `[y, x]` where their flat layout is not the point, and flat
  arrays where it is: peak search, PSF subtraction, uv cells, box moves and merged components.
- Priority queues are a multiset (the path search) or a sorted sequence (the rows to write). Parallel loops
  over disjoint parts run one part after the other, in parts cut anywhere. Threads that share state are
  state machines whose runs are all interleavings.
- The per-subimage algorithm, the spectral fit, the integration over channels and the prediction of a row are
  arbitrary functions.

## Where the code does not do what is expected of it

The code is kept as it is; the condition under which it does meet the property is proved.

- The subimages share one mask buffer, of which `GetBoundingMask` writes the columns of one vertical area. A box
  that is made even can reach one column beyond them. The boundary masks partition the image, and the outcome of
  the parallel run is independent of the schedule, if and only if no such column holds a pixel of the place
  before, or one that the row of places above has left there, or in the first row one that the new buffer happened
  to hold (`PartitionIff`, `SplitIsSafeIff`); a user mask also overwrites the start of the buffer after every
  place, and then the condition is on what is left over after that. This is always so on images of odd width and
  with a single column of subimages (`PartitionForSure`). `SplitOverlaps` is an 8 by 8 image on which two
  subimages own the same column, whatever the buffer held at first; which of them decides it depends on the
  schedule (`Race`, `CleanRace`). Pixels that are left over nowhere are not affected (`SplitRun`).
- The vectorised peak search agrees with the scalar one if and only if some level exceeds `FLT_MIN`
  (`VectorisedAgrees`); otherwise it returns the first pixel instead of nothing (`DarkImage`). A clean loop then
  cleans that pixel if its value is above the threshold, although it may lie in the border (`BorderIsCleaned`).
- The subtraction window drops a column or row of an odd PSF; it is the whole PSF if and only if both sides
  are even (`WindowDropsOddSide`).
- On even sides, with a spectral fit that commutes with the gain and integrals that agree, the sub-minor loop
  takes the components of the plain loop if and only if at every loop test no unselected pixel is the one to be
  cleaned and the strongest selected one is no false peak (`SubMinorIsPlain`). Where negative components are
  cleaned like positive ones this says that every unselected pixel is at most at the threshold or outranked by a
  selected one, and with vector instructions that no first pixel of a dark residual is above the threshold
  (`UsualTest`). `UnselectedRises` is a 2 by 2 image on which an unselected pixel rises above the threshold. The
  documentation of `SubMinorLoop::SetThreshold` says that a separate threshold selects the pixels; the code
  compares them with the threshold of the loop.
- The sub-minor loop reports no peak if and only if the first peak is below the threshold of its loop
  (`SubMinorReportsIff`), which is the larger of the final threshold and the level of the major iteration. When no
  component is cleaned, as in the round that looks for peaks, both loops report the same value if and only if the
  first peak reaches that threshold; below it the sub-minor loop reports zero (`FirstReportedIff`). `WeakPeak` is an
  image with a peak above the final threshold and below the level.
- After the same components both loops report the same value if and only if the strongest selected pixel is a peak
  or zero and no unselected pixel is a peak with another value (`SameValueIff`). Where negative components are
  cleaned like positive ones, they agree on whether another major iteration is needed if and only if some selected
  pixel is above the final threshold or no unselected one is (`SameAnswerIff`).
- The correction of the residual after a sub-minor run pads the images by a tenth. Its periodic convolution
  takes no PSF value from the far end of any image if and only if no side is longer than four pixels
  (`EnoughPaddingIff`). The corrected residual is the one that the loop has cleaned if and only if nothing of
  the model is wrapped around (`CorrectedIffNoneWrapped`).
- For ends of opposite sign, `IsInLayerRange(wStart, wEnd)` skips needed data exactly when both ends lie on
  layers after a pass that has layers (`OppositeSigns`); `SkippedAcrossZero` is such a case.
- A big message arrives if and only if its size is not a multiple of the largest package
  (`ArrivesIffRemainder`): of a multiple, the last package is empty.
- The write thread reads the top of an empty queue after exactly those arrivals that complete the first rows
  (`PredictWriteThread`), so always after the last one. The model leaves the loop there.
- The five segments of the fast convolution are in order if and only if the side is at least four times the
  distance between the taps (`SegmentsFollow`); the bounds of the simple convolution stay on the line if and
  only if it is at least twice that distance (`TapBounds`).
- A deconvolution table for no channels has one empty deconvolution group, although its documentation says
  that one group is used (`GroupsFilledIffChannels`).

## Model

| member | source | states |
|---|---|---|
| DividingPath.SettledOnce | math/dijkstrasplitter.h:62-66 | a visit taken from the queue improves on the stored distance exactly when its pixel has not been settled before and is not too far to be told from "not visited" |
| DividingPath.SettleKeeps | math/dijkstrasplitter.h:65-85 | settling a pixel and queueing its moves keeps the search invariant: distances are those of predecessor chains, and every move is queued or useless |
| DividingPath.PopKeeps | math/dijkstrasplitter.h:60-66 | dropping a visit of a settled pixel, or of one that is too far, keeps the search invariant |
| DividingPath.NoCheaperDivider | math/dijkstrasplitter.h:59-63 | when the nearest visit has left the strip, no dividing path costs less than its distance |
| DividingPath.SearchSucceeds | math/dijkstrasplitter.h:59-63 | if some dividing path costs less than the value for "not visited", the queue is never empty before a visit has left the strip |
| DijkstraSplitter.LeavesOnlyIfFeasible | math/dijkstrasplitter.h:59-93 | a visit leaves the strip only if there is such a path, since its predecessors are one |
| DividingPath.DividerRuns | math/dijkstrasplitter.h:44-94 | a dividing path marks one non-empty contiguous run on every line |
| DividingPath.CheapestTransposes | math/dijkstrasplitter.h:106-157 | the mirror image of a cheapest path is cheapest in the mirrored strip, so both directions of dividing find the same paths up to ties |
| DijkstraSplitter.VisitDown | math/dijkstrasplitter.h:59-86 | one iteration keeps the invariant and the stored buffers, and settles a pixel or shortens the queue |
| DijkstraSplitter.SearchDown | math/dijkstrasplitter.h:58-86 | the search ends with a visit whose distance is that of its predecessor chain and at most the cost of every dividing path |
| DijkstraSplitter.TraceUp | math/dijkstrasplitter.h:87-93 | the predecessor trace ends, and marks a cheapest dividing path |
| DijkstraSplitter.DivideVertically | math/dijkstrasplitter.h:44-94 | marks exactly a cheapest path from the first row to the last inside the columns, and nothing outside them |
| DijkstraSplitter.DivideHorizontally | math/dijkstrasplitter.h:106-157 | the same along the other axis |
| CheapestWalks.CheapestIsBetween | math/dijkstrasplitter.h:44-157 | in terms of pixels: no walk of moves to the side or one line further, from the first line of the image to the last and between the same two positions, has a smaller sum of pixel sizes |
| Division.DivisionIsValid | deconvolution/paralleldeconvolution.cpp:284-311 | with average subimage sizes of at least 4 the cuts make a valid division |
| Division.SeedBetweenStrips | deconvolution/paralleldeconvolution.cpp:304-318 | every flood seed lies strictly between the strips of the dividers beside it |
| Division.StripsDisjoint | deconvolution/paralleldeconvolution.cpp:303-309 | the strips of different dividers are disjoint and in order, so that parallel searches share no pixel |
| Division.OneArea | math/dijkstrasplitter.h:170-238 | along one axis every pixel lies in exactly one area, which owns the divider before it |
| Division.AreaIsBetween | math/dijkstrasplitter.h:170-238 | an area holds exactly the pixels on or behind the divider before it that are not on or behind the next one |
| Division.FloodIsArea | math/dijkstrasplitter.h:170-238 | on every line the flood from a seed covers exactly the pixels of its area |
| FloodAreas.FloodVerticalArea | math/dijkstrasplitter.h:170-202 | on every row the mask holds the zeros around the seed and the divider on their left, and the bounds enclose them tightly |
| FloodAreas.FloodHorizontalArea | math/dijkstrasplitter.h:207-238 | the same on every column |
| FloodAreas.KeepEven | math/dijkstrasplitter.h:278-298 | the box is that of the bounds, made even on even sides, at the end or else at the start; it exists unless the bounds miss just the last pixel of an even side |
| SplitGrid.BoxAround | math/dijkstrasplitter.h:278-298 | the box of a place lies on the image, is even where the image is, and holds all that the place owns |
| SplitGrid.BoxIsTight | math/dijkstrasplitter.h:278-298 | it is the smallest such box, but for one column or row that makes it even: behind it, or before it where the image ends |
| FloodAreas.GetBoundingMask | math/dijkstrasplitter.h:255-298 | writes the common pixels of both areas inside the columns of the vertical area and nothing else, and returns the even box of their smallest bounds |
| SplitLines.FloodedArea | math/dijkstrasplitter.h:170-238 | a flood on the drawn dividers yields exactly the pixels of its area; its bounds hold exactly the positions that the area reaches |
| SplitGrid.OneOwner | deconvolution/paralleldeconvolution.cpp:334-357 | every pixel of the image belongs to exactly one place of the grid |
| SplitGrid.ExtentEven | math/dijkstrasplitter.h:285-298 | the pixels of an area do not reach from the first position of an even axis to just before the last |
| SplitGrid.OwnedBoundsEven | math/dijkstrasplitter.h:285-298 | for no place of the grid would keeping the box even move its start below zero |
| SplitLines.DrawDividers | deconvolution/paralleldeconvolution.cpp:303-309 | every divider is cheapest among all walks within a quarter of the average size around its cut, and everything outside the strips is zero |
| ImageSplit.FloodVerticals | deconvolution/paralleldeconvolution.cpp:310-318 | the trimmed masks of the vertical areas show exactly their pixels |
| UserMask.CopyToStart | deconvolution/paralleldeconvolution.cpp:359-361 | the box of the user mask is copied to the start of the flat mask buffer; the rest of the buffer stays |
| UserMask.Combine | deconvolution/paralleldeconvolution.cpp:362-363 | pixel by pixel the boundary mask and the user mask in the box |
| ImageSplit.MakeSubImage | deconvolution/paralleldeconvolution.cpp:340-364 | the box and the masks of a place: the boundary mask shows exactly the owned pixels, and those of the box outside the columns of the area that the buffer still holds from the places before; the clean mask is its intersection with the user mask; the buffer then is as the next place finds it |
| ImageSplit.SplitImage | deconvolution/paralleldeconvolution.cpp:282-366 | divider d of n is cheapest among all walks from the first line to the last between size * d / n - size / n / 4 and size * d / n + size / n / 4, on both axes; the subimages are in row-major order; the box and the masks of each are determined by the dividers, the sides of the image, the user mask and the first contents of the buffer |
| ImageSplit.RowByRow | deconvolution/paralleldeconvolution.cpp:334-345 | there is one subimage for each place, and that of column d in row e has the number e times the number of columns plus d |
| SplitGrid.NextColumn | math/dijkstrasplitter.h:285-298 | a column by which a box sticks out to the right of its area belongs to the next area on every line |
| SplitGrid.OnceIffNotLeft | math/dijkstrasplitter.h:255-298 | one mask alone selects a pixel if and only if the pixel is left over in no box, with or without a user mask |
| SplitGrid.LeftoverReaches | math/dijkstrasplitter.h:255-298 | without a user mask, the pixels that a mask selects without owning them are those in such a column that the row above, or in the first row the new buffer, left there, and those to the left that the place before has written |
| SplitGrid.PartitionIffNothingLeft | math/dijkstrasplitter.h:255-298 | the boundary masks partition the image if and only if nothing is left over in any box |
| SplitGrid.PartitionIff | math/dijkstrasplitter.h:255-298 | without a user mask, if and only if no box reaches such a pixel |
| SplitGrid.PartitionForSure | math/dijkstrasplitter.h:285-298 | on an image of odd width, and with a single column of subimages, they do, with or without a user mask |
| ParallelDeconvolution.StepKeeps | deconvolution/paralleldeconvolution.cpp:141-262 | every locked step of every worker keeps, also where masks share pixels: pixels in one mask alone were read as they were, and hold the result of their worker once it has merged; the model is the sum of the merged submodels |
| ParallelDeconvolution.EverySchedule | deconvolution/paralleldeconvolution.cpp:402-413 | after every finished schedule each pixel in one mask alone holds the result of its worker, computed from the original data there, and the model is the sum of all submodels |
| ParallelDeconvolution.ModelInOneBox | deconvolution/paralleldeconvolution.cpp:256-261 | on a pixel in one box only, in its mask or not, the model is what its worker has made of it |
| ParallelDeconvolution.OwnOutcome | deconvolution/paralleldeconvolution.cpp:402-413 | a worker that shares no pixel of its mask has the same outcome in all finished schedules, whatever the others share, if its outcome depends on the data of its own pixels only |
| ParallelDeconvolution.ScheduleIndependent | deconvolution/paralleldeconvolution.cpp:402-413 | all finished schedules end with the same data and the same model, if no mask shares a pixel and the outcome for a subimage depends on the data of its own pixels only |
| ParallelDeconvolution.Race | deconvolution/paralleldeconvolution.cpp:256-261 | when two masks share a pixel, there is for each of the two workers a finished schedule in which it decides the value, whatever the algorithm |
| ParallelDeconvolution.RaceMatters | deconvolution/paralleldeconvolution.cpp:256-261 | so the outcome depends on the schedule if the two workers make different values of the original data |
| ParallelDeconvolution.DisjointIffOrderIrrelevant | deconvolution/paralleldeconvolution.cpp:256-261 | the schedule makes no difference to any such algorithm if and only if no two masks share a pixel |
| ParallelDeconvolution.SubModelsSum | deconvolution/imageset.h:178-188 | the masked submodels add up to the original model on every pixel that one mask holds, and to nothing where none does |
| ParallelDeconvolution.OnlyTrims | deconvolution/paralleldeconvolution.cpp:379-388 | in the round that only looks for peaks, every worker is handed the same data and model under every schedule |
| ParallelDeconvolution.StartingThreshold | deconvolution/paralleldeconvolution.cpp:389-399 | the threshold is a fraction of the highest reported peak, of the first subimage that reports it |
| ParallelDeconvolution.NextIteration | deconvolution/paralleldeconvolution.cpp:417-437 | another major iteration follows if and only if a subimage asks for it and none has run out of iterations |
| ParallelDeconvolution.LockedTrim | deconvolution/paralleldeconvolution.cpp:148-161 | the subimages hold the box of the data, and the masked box of the model with zeros elsewhere |
| ParallelDeconvolution.LockedMerge | deconvolution/paralleldeconvolution.cpp:256-261 | masked pixels of the data are replaced, and the whole submodel is added |
| ParallelSplit.SplitIsSafeIff | deconvolution/paralleldeconvolution.cpp:282-413 | for the subimages of a split: the schedule makes no difference to any such algorithm if and only if nothing is left over in any box; without a user mask, if and only if no box reaches a pixel left in the mask buffer |
| SplitOverlap.SplitOverlaps | deconvolution/paralleldeconvolution.cpp:282-366 | splitting an 8 by 8 image with a zero column into two: both boundary masks select a column of the first subimage, and the outcome depends on the schedule |
| ParallelSplit.SplitRun | deconvolution/paralleldeconvolution.cpp:282-413 | from the split to the end of any schedule, for every pixel that is left over in no box, whatever happens at others: it has one owner, who read the original data there and whose result ends up there, and the submodels handed out add up to the model |
| LocalClean.LoopIsLocal | deconvolution/genericclean.cpp:69-149 | two finished loops over data that agree under the clean mask take the same components, make the same model and agree there afterwards |
| LocalClean.MajorIsLocal | deconvolution/genericclean.cpp:27-179 | the same for a whole major iteration, whose threshold depends on its first peak |
| ParallelClean.SplitMaskFits | deconvolution/paralleldeconvolution.cpp:352-364 | the clean mask that the split makes selects pixels of the boundary mask only |
| ParallelClean.CleanIsLocal | deconvolution/paralleldeconvolution.cpp:170-219 | a worker that cleans under such a mask depends on the data of its own pixels only |
| ParallelClean.ParallelCleanAgrees | deconvolution/paralleldeconvolution.cpp:282-413 | for the subimages of a split of which nothing is left over in any box, all schedules of the parallel clean end with the same data and the same model |
| ParallelClean.CleanRace | deconvolution/paralleldeconvolution.cpp:256-261 | where two boundary masks share a pixel of which two clean workers make different values, the outcome of the parallel clean depends on the schedule |
| PeakFinder.Simple | deconvolution/peakfinder.cpp:14-51 | returns the first highest considered pixel above FLT_MIN, or nothing |
| PeakFinder.FindWithMask | deconvolution/peakfinder.cpp:92-125 | the same among the masked pixels |
| PeakFinder.SkipBlock | deconvolution/peakfinder.cpp:212-231 | a block that does not exceed the possibly stale filter level holds no new peak |
| PeakFinder.Vectorised | deconvolution/peakfinder.cpp:191-245 | the search in blocks with a scalar tail finds what the scalar one finds, or the first pixel if there is nothing to find |
| PeakFinder.VectorisedAgrees | deconvolution/peakfinder.cpp:191-245 | the two searches agree if and only if some considered level exceeds FLT_MIN |
| PeakFinder.DarkImage | deconvolution/peakfinder.cpp:242-245 | an image for which they do not |
| PeakFinder.ConsideredIs | deconvolution/peakfinder.cpp:22-26 | the considered pixels are those in the rows searched, inside the borders, and in the mask |
| FoundPeak.FoundIs | deconvolution/genericclean.cpp:181-202 | the clean loops find exactly the first highest pixel, by rows and columns, inside the borders and in the mask: of the integrated and noise-weighted values, or of their sizes with negative components |
| FoundPeak.NothingFoundIs | deconvolution/genericclean.cpp:181-202 | and find nothing exactly if all these values are at most FLT_MIN |
| SimpleClean.SubtractRow | deconvolution/simpleclean.cpp:68-82 | the unrolled pairs and the odd tail subtract exactly n scaled values |
| SimpleClean.PartialSubtractImage | deconvolution/simpleclean.cpp:51-84 | takes the windowed PSF from every pixel of the row range and changes no other |
| SimpleClean.DoneJoins | deconvolution/simpleclean.cpp:51-84 | row ranges that meet add up to the subtraction from the joined range |
| SimpleClean.SubtractImage | deconvolution/genericclean.cpp:132-140 | subtracting in the row ranges of any number of threads is the subtraction from the whole image |
| SimpleClean.WindowDropsOddSide | deconvolution/simpleclean.cpp:55-71 | the window is the whole PSF for every PSF if and only if both sides are even |
| CleanRuns.FullPeakIsStrongest | deconvolution/subminorloop.cpp:10-31 | a full-image peak that is selected is the strongest selected pixel, with the same tie rule and value |
| CleanRuns.SubMinorIsPlain | deconvolution/subminorloop.cpp:33-101 | where both ways subtract the same and search alike, the sub-minor loop takes exactly the components of the plain loop if and only if, in the residual at each test, an unselected pixel that would be cleaned is outranked, and a selected one that would be cleaned is outranked by no unselected one; where vector instructions find no peak, the first pixel is the strongest selected one or neither is cleaned |
| CleanRuns.UsualTest | deconvolution/subminorloop.cpp:54-56 | where negative components are cleaned like positive ones, such a test holds if and only if every unselected pixel is at most at the threshold or outranked by a selected one, and the first pixel of a dark residual is not to be cleaned |
| CleanRuns.SameRun | deconvolution/subminorloop.cpp:57-97 | on even sides, with a fit that commutes with the gain, a run leaves the same residual and model through either loop, although one applies the gain before the fit and the whole PSF |
| UnselectedPeak.UnselectedRises | deconvolution/subminorloop.cpp:127-166 | an image on which an unselected pixel rises above the threshold: the sub-minor loop takes one component, the plain loop two |
| CleanRuns.ResidualIsDirtyMinusModel | deconvolution/subminorloop.cpp:177-200 | subtracting components one by one leaves the dirty image minus the zero-padded convolution of the model |
| CleanRuns.ModelAdds | deconvolution/genericclean.cpp:103-106 | the model of a run is the model before it plus what the run adds to an empty one |
| GenericClean.FindPeak | deconvolution/genericclean.cpp:181-202 | under the mask, with vector instructions or pixel by pixel, finds the peak; with vector instructions the first pixel where there is none |
| CleanRuns.PixelLoses | deconvolution/genericclean.cpp:136-138 | a component takes from every pixel of image i its value times the PSF that belongs to image i, at the offset of the pixel from the component |
| CleanRuns.ComponentIs | deconvolution/genericclean.cpp:127-131 | the component is the gain of the fitted spectrum of the pixel, or in the sub-minor loop the fit of its gain |
| DarkBorder.BorderIsCleaned | deconvolution/genericclean.cpp:109-148 | an image on which the loop goes on with a pixel in the border if and only if it searches with vector instructions |
| GenericClean.SubtractComponent | deconvolution/genericclean.cpp:132-140 | takes from every pixel of every image the value of the component for that image times its own PSF at the offset of the pixel, without the last column and row of odd sides |
| GenericClean.CleanPeak | deconvolution/genericclean.cpp:127-140 | one iteration adds the gained and fitted spectrum of the peak to the model at the peak only, and takes its PSFs from the residual |
| GenericClean.PlainClean | deconvolution/genericclean.cpp:109-148 | the plain loop ends, and leaves the residual, the model and the count of the run it made; the peak that it ends with is that of the later integration once a component has been cleaned |
| SubMinorLoop.FindPeakPositions | deconvolution/subminorloop.cpp:127-166 | lists exactly the considered pixels that reach the threshold, in row-major order |
| SubMinorLoop.MakeSets | deconvolution/subminorloop.cpp:103-116 | the list holds the residuals of the selected pixels and an empty model |
| SubMinorLoop.Loop.GetMaxComponent | deconvolution/subminorloop.cpp:10-31 | the first selected pixel of greatest strength, with its signed value |
| SubMinorLoop.Loop.CleanComponent | deconvolution/subminorloop.cpp:57-97 | adds the fit of the gained spectrum to the model of the selected pixel, takes from every selected pixel of image i the PSF that belongs to image i at their offset, and counts the iteration and the flux; keeps the list residual equal to dirty image minus convolved model on the selected pixels |
| SubMinorLoop.Loop.Run | deconvolution/subminorloop.cpp:33-101 | the loop ends, and is a whole sub-minor run over the selected pixels; returns the strongest selected value that is left, or nothing exactly if none is selected |
| SubMinorLoop.Loop.GetFullIndividualModel | deconvolution/subminorloop.cpp:168-175 | the model of the run on the full image, zero off the selected pixels |
| SubMinorLoop.Loop.CorrectResidualDirty | deconvolution/subminorloop.cpp:177-200 | leaves the dirty image minus the periodic convolution of the padded model of the run with the padded PSF |
| PaddedConvolution.NeverWrapsIff | deconvolution/subminorloop.cpp:181-197 | that convolution takes the PSF itself for all images if and only if each side is padded by half |
| PaddedConvolution.PeriodicKernelIs | deconvolution/subminorloop.cpp:181-197 | for a component at a pixel it takes from another pixel the PSF of the image at their offset and its copies one padded side away on each axis |
| PaddedConvolution.PaddedSideIs | deconvolution/genericclean.cpp:34-37 | the padded side is the smallest even one that is at least 1.1 times as long |
| PaddedConvolution.EnoughPaddingIff | deconvolution/genericclean.cpp:34-37 | with the padding of the code, if and only if no side is longer than four pixels |
| PaddedConvolution.CorrectedIs | deconvolution/subminorloop.cpp:177-200 | the corrected residual differs from the residual of the run by the wrapped part of the model |
| MajorIteration.SubMinorClean | deconvolution/genericclean.cpp:69-107 | the sub-minor branch leaves the corrected residual, the model and the count of its run on the full images |
| MajorIteration.CleanLoop | deconvolution/genericclean.cpp:69-149 | either branch leaves the outcome of its run, and the peak that the run ends with |
| MajorIteration.CorrectedIffNoneWrapped | deconvolution/subminorloop.cpp:177-200 | the corrected residual is the one that the loop has cleaned if and only if nothing of the model is wrapped around |
| MajorIteration.SameOutcome | deconvolution/genericclean.cpp:69-149 | as long as the tests on the residual agree, both branches leave the same model and count; and the same residual if and only if nothing is wrapped around |
| MajorIteration.ExecuteMajorIteration | deconvolution/genericclean.cpp:27-179 | ends early without a peak; otherwise every cleaned peak is above the final threshold, above the given level, and above what the major gain leaves of the first peak; the peak that is left is not above all three, unless iterations have run out or its sign stops the loop; and where another iteration is asked for, it is above the final threshold only |
| MajorIteration.LoopLevels | deconvolution/genericclean.cpp:55-60 | these levels hold for every finished loop, in either branch |
| MajorIteration.MoreToClean | deconvolution/genericclean.cpp:150-178 | a loop that did something and did not run out of iterations asks for another major iteration if and only if the peak it left would still be cleaned down to the final threshold |
| Reports.SubMinorReportsIff | deconvolution/subminorloop.cpp:46-48 | the sub-minor loop reports nothing if and only if the first peak is below the threshold of the loop |
| Reports.PlainReports | deconvolution/genericclean.cpp:109-148 | the plain loop cleans nothing of a first peak up to that threshold, and reports the first peak whenever it cleans nothing |
| Reports.FirstReportedIff | deconvolution/paralleldeconvolution.cpp:188-193 | when no component is cleaned, both loops report the same value for a first peak if and only if it reaches the threshold of the loop; below it the sub-minor loop reports zero |
| Reports.HadIterations | deconvolution/paralleldeconvolution.cpp:188-191 | in a round without iterations no component is cleaned |
| WeakPeak.OneReports | deconvolution/paralleldeconvolution.cpp:188-193 | an image with a peak between the final threshold and the level of the major iteration, of which the plain loop reports the peak and the sub-minor loop zero |
| Reports.SameValueIff | deconvolution/genericclean.cpp:150-178 | for the same residual both loops report the same value if and only if the strongest selected pixel is a peak or zero and no unselected pixel is a peak with another value; on a dark image the first pixel is what is reported |
| Reports.SameReport | deconvolution/genericclean.cpp:150-178 | after the same components the reported values are equal exactly under that condition, and then both agree on whether another major iteration is needed |
| Reports.SameAnswerIff | deconvolution/genericclean.cpp:150-178 | where negative components are cleaned like positive ones, both agree on that if and only if some selected pixel is above the final threshold or no unselected one is |
| WLayers.LayerRoundTrip | gridding/wstackinggridder.h:182-212 | the central w-value of a layer is placed on that layer |
| WLayers.WithinHalfSpacing | gridding/wstackinggridder.h:182-212 | the centre of the layer of a w-value is at most half a layer spacing away from it |
| WLayers.LayersSpan | gridding/wstackinggridder.h:182-212 | the first layer is at the smallest w-value and the last at the largest, or at minus the largest and the largest for complex values |
| WLayers.PassesPartitionLayers | gridding/wstackinggridder.h:566-568 | every layer is in exactly one pass |
| WLayers.OnePassPerSample | gridding/wstackinggridder.h:228-232 | every w-value that has a layer is gridded in exactly one pass |
| WLayers.NeverSkipsNeeded | gridding/wstackinggridder.h:247-260 | for complex values, or ends of one sign, no needed w-value between the ends is skipped |
| WLayers.ReadsOnlyNeeded | gridding/wstackinggridder.h:247-260 | whenever data are not skipped, some w-value between the ends is in a pass that has layers |
| WLayers.OppositeSigns | gridding/wstackinggridder.h:247-260 | for ends of opposite sign: something needed is skipped exactly when both lie after a pass that has layers |
| WLayers.SkippedAcrossZero | gridding/wstackinggridder.h:247-260 | with two layers in two passes, data from -1 to 1 are skipped in the first pass, to which 0 belongs |
| UvPlane.KernelIndexFits | gridding/wstackinggridder.cpp:549-556 | the kernel index is never below zero before its remainder is taken |
| UvCells.KernelIndexIs | gridding/wstackinggridder.cpp:551-556 | of n kernels, kernel k is used for exactly those offsets from the nearest cell whose nearest multiple of 1 / n is (k - n / 2) / n, up to whole cells |
| UvCells.MiddleKernel | gridding/wstackinggridder.cpp:551-556 | on the centre of a cell it is the middle kernel, and one step of 1 / n further the next one |
| UvCells.HasPosition | gridding/wstackinggridder.cpp:549-556 | every position has a nearest pixel, and a kernel along each axis |
| UvCells.WeightAround | gridding/wstackinggridder.cpp:557-592 | around a pixel the weight of a cell is the product of the elements of both kernels at its offset, the middle ones being on the pixel, and zero beyond the kernels |
| UvCells.GriddedAt | gridding/wstackinggridder.cpp:517-596 | gridding a visibility adds its value times the weight of the cell to every cell of its layer, if the nearest pixel of its position is on the plane, and changes nothing else |
| UvCells.ReadAt | gridding/wstackinggridder.cpp:599-688 | from a layer that is 1 in one cell a visibility is read as the weight of that cell |
| UvCells.MirrorsAlike | gridding/wstackinggridder.cpp:527-532 | a visibility with a negative w-value is gridded as its conjugate at the mirrored position, and read as the conjugate of what is read there |
| UvCells.ConjugatePart | gridding/wstackinggridder.cpp:522-526 | for the conjugate part of the image the conjugate is gridded at the mirrored position of the same layer |
| UvPlane.SpreadGather | gridding/wstackinggridder.cpp:557-592 | adding a value to the cells of a kernel changes an inner product by the value times what reading those cells gives |
| UvPlane.GridStep | gridding/wstackinggridder.cpp:517-688 | gridding one visibility changes the inner product with any layers by its correlation with the value read back |
| UvPlane.GriddingIsAdjoint | gridding/wstackinggridder.cpp:517-688 | gridding any list of visibilities is adjoint to reading them, through conjugation, edges and both grid modes |
| WStackingGridder.InteriorCell | gridding/wstackinggridder.cpp:564-592 | away from the edges the fast path reaches the same cells as the wrapping one |
| WStackingGridder.GridKernel | gridding/wstackinggridder.cpp:559-592 | both paths add the weighted value to exactly the kernel's cells |
| WStackingGridder.SampleKernel | gridding/wstackinggridder.cpp:641-674 | both paths read the weighted sum of exactly the kernel's cells |
| WStackingGridder.Gridder.PrepareWLayers | gridding/wstackinggridder.cpp:64-116 | the passes hold all layers, and no pass needs more memory than there is, unless it has one layer; however the layers are spread over one pass fewer, some pass with more than one layer does not fit; and the threads get their share of the memory exactly where their buffers leave too little |
| WStackingGridder.Gridder.StartInversionPass | gridding/wstackinggridder.cpp:119-137 | a pass starts with empty layers, as many as its range holds |
| WStackingGridder.Gridder.AddDataSample | gridding/wstackinggridder.cpp:517-596 | grids the visibility on its layer, if that is in this pass and the position is on the plane |
| WStackingGridder.Gridder.SampleDataSample | gridding/wstackinggridder.cpp:599-688 | reads the visibility back, or nothing where it would not be gridded |
| InversionLanes.OneWriterPerLayer | gridding/wsmsgridder.cpp:188-197 | a worker changes only layers of its own lane |
| InversionLanes.StepKeeps | gridding/wsmsgridder.cpp:245-256 | every step of reader and workers keeps: lanes are in order, and a layer holds what its one writer has gridded |
| InversionLanes.EveryInterleaving | gridding/wsmsgridder.cpp:157-206 | under every interleaving the layers end as if gridded one by one in row order |
| InversionLanes.NeverStuck | gridding/wsmsgridder.cpp:226-256 | no run stops before everything is gridded |
| InversionLanes.SkippingLosesNothing | gridding/wsmsgridder.cpp:159-203 | reading only the rows that may be in the pass grids the same as reading all |
| InversionLanes.ReadIsNeeded | gridding/wsmsgridder.cpp:159-203 | a row that is read has some w-value between the ends of its band on a layer of the pass |
| InversionLanes.EveryPass | gridding/wsmsgridder.cpp:418-446 | in every pass, under every interleaving, the layers end as if all rows had been gridded one by one |
| InversionLanes.GriddedInOnePass | gridding/wsmsgridder.cpp:418-446 | over all passes, a visibility with a layer and a position is gridded exactly once |
| PredictionOrder.EveryRowArrivesOnce | gridding/wsmsgridder.cpp:259-347 | whatever the threads do, the write thread receives every row once, with its own prediction |
| PredictionOrder.WrittenAreTheFirst | gridding/wsmsgridder.cpp:350-376 | the written rows are the longest run 0, 1, .. of rows that have arrived |
| PredictionOrder.EmptyWhenFirst | gridding/wsmsgridder.cpp:361-375 | after an arrival the queue is empty if and only if the rows so far are the first ones |
| PredictionOrder.PredictWriteThread | gridding/wsmsgridder.cpp:350-376 | for any arrival order a prefix is written in order and the rest waits; names the arrivals after which the code looks at an empty queue |
| PredictionOrder.WritePrediction | gridding/wsmsgridder.cpp:259-376 | finally all rows are written, row i as the i-th, with its own prediction, and the queue was found empty after the last |
| IuwtConvolution.AllTaps | iuwt/iuwtdecomposition.h:230-248 | the five taps are 1/16, 4/16, 6/16, 4/16 and 1/16 of the pixels at their distances, zero outside the line |
| IuwtConvolution.ConvolvedIsKernel | iuwt/iuwtdecomposition.h:230-248 | filtering rows and then columns is one convolution with the dilated 5 x 5 kernel, zero outside the image |
| IuwtConvolution.EndScaleFits | iuwt/iuwtdecomposition.h:169-171 | for sides of at least 12 every scale up to the end scale meets the size condition of the fast convolution |
| IuwtConvolution.EndScaleIs | iuwt/iuwtdecomposition.h:169-171 | the end scale is the largest one for which eight times its power of two is at most the side, and at least 2 |
| IuwtConvolution.SegmentsFollow | iuwt/iuwtdecomposition.cpp:76-126 | the five segments follow each other if and only if the side meets the size condition |
| IuwtConvolution.TapBounds | iuwt/iuwtdecomposition.h:186-212 | the loop bounds of all taps stay on the line if and only if the side is at least twice the tap distance |
| ConvolveLoops.Convolve | iuwt/iuwtdecomposition.h:230-248 | the simple convolution computes the convolution, also in place |
| ConvolveLoops.SegmentIsWhole | iuwt/iuwtdecomposition.cpp:76-126 | in each segment the unchecked taps are all taps that fall on the line |
| ConvolveLoops.ConvolveHorizontalPartial | iuwt/iuwtdecomposition.cpp:76-126 | filters a chunk of rows and changes no other |
| ConvolveLoops.ConvolveVerticalPartialFast | iuwt/iuwtdecomposition.cpp:157-234 | filters a chunk of columns and changes no other |
| ConvolveLoops.ConvolveVerticalPartialFastFailed | iuwt/iuwtdecomposition.cpp:129-155 | computes the same, one tap after the other |
| ConvolveLoops.ConvolveMT | iuwt/iuwtdecomposition.cpp:53-65 | in any chunks, the fast convolution equals the simple one |
| IuwtDecomposition.PerfectReconstruction | iuwt/iuwtdecomposition.h:87-135 | recomposing the coefficients and the smoothest image gives back the image, from every scale on |
| IuwtDecomposition.WithoutLargest | iuwt/iuwtdecomposition.h:108-135 | leaving out the largest scale leaves out exactly what the convolutions spread it to |
| IuwtDecomposition.DecomposedByKernel | iuwt/iuwtdecomposition.h:87-106 | the image carried from scale k to the next is filtered by the 5 x 5 kernel with taps 2^(k + 1) - 1 apart, and the coefficients are what filtering twice takes away |
| Impulse.SmoothedTwice | iuwt/iuwtdecomposition.h:87-106 | of a single bright pixel, two scales leave 36/256 of 36/256 at that pixel, since the second taps are three pixels apart |
| IuwtDecomposition.Decomposition.DecomposeST | iuwt/iuwtdecomposition.h:87-106 | at every pixel, the image carried from scale k to the next is the sum of the dilated 5 x 5 kernel with taps 2^(k + 1) - 1 apart over the one before; the coefficients of the scale are the image less that sum over the next one; the last one is the largest scale; and the input is kept |
| IuwtDecomposition.Decomposition.DecomposeMT | iuwt/iuwtdecomposition.cpp:5-51 | the same with the fast convolution, in any chunks, with or without the largest scale |
| IuwtDecomposition.Decomposition.Recompose | iuwt/iuwtdecomposition.h:108-135 | the recomposition, with or without the largest scale |
| IuwtDecomposition.RoundTrip | iuwt/iuwtdecomposition.h:79-135 | decomposing and recomposing with the largest scale returns the input |
| ImageAnalysis.PathIsNew | iuwt/imageanalysis.cpp:70-134 | what a path from the seed reaches passes its threshold, was not marked, and lies inside borders and scales |
| ImageAnalysis.FloodDone | iuwt/imageanalysis.cpp:70-134 | with an empty stack exactly the reachable cells have been added |
| ImageAnalysis.NeighboursAre | iuwt/imageanalysis.cpp:86-131 | from a cell inside the borders and scales a flood looks at exactly the cells inside them that are one step away in exactly one of x, y and scale |
| ImageAnalysis.ReachedIsFlood | iuwt/imageanalysis.cpp:70-202 | what it reaches is the smallest set that holds the seed and every new significant cell adjacent to one of its cells |
| ImageAnalysis.Floodfill | iuwt/imageanalysis.cpp:70-202 | ends, adds exactly the cells reachable from the seed, and counts them; from a seed inside the borders, the smallest set that holds the seed and every new significant cell adjacent to one of its cells |
| ImageAnalysis.SelectStructures | iuwt/imageanalysis.cpp:204-237 | the mask gains exactly the cells inside the borders and scales, in the prior mask, with a coefficient above the threshold of the scale, or beyond a negative one in size; the area is the number of new ones |
| BoxTrim.Trim | iuwt/iuwtdeconvolutionalgorithm.cpp:271-284 | a copy of the box |
| BoxTrim.MoveRow | iuwt/iuwtdeconvolutionalgorithm.cpp:293-301 | moving a row in place overwrites nothing that is still to be read |
| BoxTrim.Untrim | iuwt/iuwtdeconvolutionalgorithm.cpp:286-316 | the small image in the box, zeros around it |
| BoxTrim.TrimAfterUntrim | iuwt/iuwtdeconvolutionalgorithm.cpp:271-316 | cutting out what was put back is the identity |
| BoxTrim.UntrimAfterTrim | iuwt/iuwtdeconvolutionalgorithm.cpp:271-316 | putting back what was cut out is the image with zeros outside the box |
| ComponentSums.MergedKeepsSums | deconvolution/componentlist.h:167-206 | the merged list has the same sums, every position once, and no zero component |
| ComponentSums.MergingTwice | deconvolution/componentlist.h:167-206 | the merged list has the totals it was made from |
| ComponentList.MergeList | deconvolution/componentlist.h:167-206 | the merge through images lists the merged positions and values in the order of its scan |
| ComponentList.MergeKeeps | deconvolution/componentlist.h:167-206 | merging a list keeps its sum at every position and frequency |
| ComponentList.MergeIsIdempotent | deconvolution/componentlist.h:86-94 | merging a merged list gives the same list, in the same order |
| ComponentList.List.Add | deconvolution/componentlist.h:51-57 | every sum grows by exactly what is added, whether or not the automatic merge fires, which it does after the given number of added components |
| ComponentList.List.MergeDuplicates | deconvolution/componentlist.h:86-94 | keeps all sums; afterwards the counter is zero and, as the invariant says, every position is listed once |
| ComponentList.AddList | deconvolution/componentlist.h:59-69 | every sum grows by the shifted sum of the other list |
| ComponentList.ShiftedIsOther | deconvolution/componentlist.h:59-69 | what another list adds at (x, y) is its own sum at (x - dx, y - dy), and nothing outside its image |
| MpiBig.HeaderRoundTrip | distributed/mpibig.cpp:16-16 | the header is read as it was written |
| MpiBig.EncodedByte | distributed/mpibig.cpp:16-16 | byte k of the header is digit k of the number to the base 256, the lowest first |
| MpiBig.HeaderHoldsWord | distributed/mpibig.cpp:16-16 | the header holds any 64-bit number |
| MpiBig.PackageCountIs | distributed/mpibig.cpp:13-14 | the rounded-up quotient is the number of packages |
| MpiBig.SendBig | distributed/mpibig.cpp:11-32 | writes the header, keeps the rest of the buffer, and sends the packages of the message |
| MpiBig.RecvBig | distributed/mpibig.cpp:35-58 | receives as the specification of receiving says, with its errors |
| MpiBig.ArrivesIffRemainder | distributed/mpibig.cpp:11-58 | a message arrives, whatever the receive buffer held, if and only if its size is not a multiple of the largest package |
| ChannelGroups.GroupIsRange | deconvolution/deconvolutiontable.cpp:16-21 | the formula puts exactly the channels between two starts in a group |
| ChannelGroups.GroupSizes | deconvolution/deconvolutiontable.cpp:16-21 | group sizes differ by at most one, and the groups cover all channels |
| ChannelGroups.GroupsPartition | deconvolution/deconvolutiontable.cpp:16-21 | the groups are contiguous and not empty, and agree with the formula on every channel |
| ChannelGroups.GroupsFilledIffChannels | deconvolution/deconvolutiontable.cpp:6-22 | no group is empty if and only if there is at least one channel |
| ChannelGroups.DeconvolutionTable.constructor | deconvolution/deconvolutiontable.cpp:6-22 | makes the groups of the formula, as many as asked for, or one for each channel if that is not between one and their number |
| ChannelGroups.DeconvolutionTable.AddEntry | deconvolution/deconvolutiontable.cpp:24-33 | appends the entry to the table and to its original channel |
| ImageSet.AssignAndStoreResidual | deconvolution/imageset.cpp:230-248 | the residual of every entry becomes the image of its group and polarisation |
| ImageSet.LoadAndAverage | deconvolution/imageset.cpp:90-124 | every image becomes the weighted average of the residuals of its group, or no numbers if the weights add up to zero |
| ImageSet.StoreThenAverage | deconvolution/imageset.cpp:90-248 | averaging what was stored for all channels of a group gives the image of the group back exactly if the weights do not add up to zero |
| ImageSet.StoreAndLoad | deconvolution/imageset.cpp:90-248 | storing and loading restores every image whose weight sum is not zero, and no other |
| ImageSet.CalculateDeconvolutionFrequencies | deconvolution/imageset.cpp:396-428 | the frequency of a group is the weighted average over the channels that the table puts in it |
| ImageSet.LoadAndAveragePSFs | deconvolution/imageset.cpp:126-161 | the PSF of a group is the weighted average over the channels that the table puts in it |
| ChannelAverages.AverageIsMean | deconvolution/imageset.cpp:90-124 | every pixel of an averaged image, times the sum of the weights of the channels of its group, is the sum of their weighted residuals |
| ChannelAverages.FrequencyIsMean | deconvolution/imageset.cpp:396-428 | the frequency of a group is the weighted mean of those of its channels, or the plain one if the weights add up to nothing positive |
| ChannelAverages.PsfIsMean | deconvolution/imageset.cpp:126-161 | every pixel of the PSF of a group is the weighted mean over its channels, or zero if the weights add up to zero |
| ImageSet.EntryIndices | deconvolution/imageset.cpp:54-71 | with entries added in channel order, every entry is listed at its own index with the image of its group |
| ImageSet.PsfIndices | deconvolution/imageset.cpp:73-81 | every image uses the PSF of its group |
| ImageSet.CreateDeconvolutionTable | structures/imagingtable.cpp:102-149 | a table filled channel by channel, with any number of images each, has its entries in order, each in its channel, and the groups of the formula |
| ImageSet.FilledIsValid | deconvolution/imageset.cpp:54-81 | such a table has the form that the indices need if and only if all channels have the same number of images |

## Left out

- ImageSplit.SplitImage: the mask buffer is a new one, as in the code, and its first contents are arbitrary. Every strip needs a dividing path that costs less than the largest float.
- SplitLines.DrawDividers: the parallel loop over dividers runs one divider after the other; their strips are disjoint.
- ParallelDeconvolution.LockedTrim: an image set of one image; per-scale masks and the shared component list are not part of the model.
- ParallelDeconvolution.ScheduleIndependent: subimages may overlap outside their masks, so that an algorithm may see data there that others have merged; the lemma asks that this does not change its outcome on its own pixels. Cleaning under the boundary mask is such an algorithm (`ParallelClean.CleanIsLocal`).
- ParallelClean.CleanIsLocal: an image set of one image, as in the schedules; `LocalClean.MajorIsLocal` holds for any number.
- DijkstraSplitter.DivideVertically: needs a dividing path that costs less than the largest float, which the code uses for "not visited"; without one the queue runs dry and the code traces the last visit it took, which the model leaves out.
- PeakFinder.Vectorised: a block is compared lane by lane, without the instructions; the number of lanes is a parameter.
- CleanRuns.SubMinorIsPlain: compares the loops where the square integral of the plain loop agrees with the linear one, as it does without joined polarisations and squared channels, and where both subtract the same; the runs themselves are modelled without these conditions.
- MajorIteration.ExecuteMajorIteration: the two ways of integrating are given functions; the logged reason for stopping is not modelled.
- SubMinorLoop.Loop.CorrectResidualDirty: the Fourier transforms are not part of this model; their product is the periodic convolution around the centre pixel of the PSF. For odd sides the padding moves the centre, which is not modelled.
- SimpleClean.SubtractImage: the threaded tools are not part of this model; the rows are cut by height * k / threads.
- WLayers.NeverSkipsNeeded: a w-value below the range is placed on a negative layer; C++ leaves its conversion to `size_t` undefined.
- UvPlane.GriddingIsAdjoint: kernels are arbitrary, as many as the oversampling asks for; their shapes are not modelled.
- UvCells.GriddedAt: half a kernel is not longer than a side of the plane; with a longer one the unsigned index wraps around, as in `UvPlane.Wrap`.
- WStackingGridder.Gridder.PrepareWLayers: the size of a value is a parameter, and memory is a real number of bytes.
- InversionLanes.EveryInterleaving: the lane library is not part of this model; a lane is a bounded queue between the reader's write buffer and the worker's read buffer.
- PredictionOrder.WritePrediction: the loop ends at an empty queue, where the code reads its top.
- IuwtDecomposition.Decomposition.DecomposeMT: the difference of two images runs in one part.
- ImageAnalysis.Floodfill: the version with a prior mask is the same method with a mask given.
- ComponentList.List.Add: the sums are stated for positions inside the image.
- MpiBig.RecvBig: messages arrive complete and in order (section 3.5 of MPI 3.1); an error of the library ends the call.
- ImageSet.LoadAndAveragePSFs: the PSF and the weight of each channel are given; the code reads them from the first entry of the channel.
- AddVerticalDivider, AddHorizontalDivider, FloodFill2D, IsHighestOnScale0, boundingBox, DecomposeSimple, RecomposeSimple and SimpleClean::SubtractImage are not modelled: they are variants that other code does not build on.
- Auto masks, component export, model interpolation and loading a component list from images are not modelled.
- The shapes of kernels, FFTs, the w-correction of images, beams, reading and weighting of measurement sets, files, settings and logging are not modelled.
