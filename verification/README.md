# OxiGeo algorithmic cores: a Dafny model

This project models the self-contained algorithms of the OxiGeo repository and
proves what they are for. `dafny verify dfyconfig.toml` checks all of it.

| modules | what they model |
|---|---|
| `Names`, `DependencyGraph`, `Workspace`, `GenPublishOrder`, `CratesArray`, `VerifyPublishOrder` | the crate publish-order generator and the verifier of the release script's list |
| `RealFunctions`, `Matrix3`, `Classification` | the closed-form 3x3 eigenvalue solver, the dimensionality features, planarity of a point set |
| `Statistics`, `Raster`, `Convolution` | the scalar statistics and image-filter kernels |
| `Bytes`, `Wkb` | the recursive WKB decoder |
| `Decimal`, `RangeServer`, `TypedArray`, `FooterClient` | the byte-range server and the Parquet footer client, composed end to end |
| `TileStitching` | the two routines that stitch a raster out of tiles |
| `TileCache` | the tile worker's concurrent loads and bounded cache |
| `VaultLedger` | the vault's session ledger, pending queue, counters and seal |
| `RowGroupStrip` | the row-group strip and its bucketing |
| `TextOperations` | operational transformation of text: building, applying, transforming, composing, inverting |

Code that works step by step is a method or a class here: it is proved equal to
a specification function or predicate, and the lemmas are about that
specification. The main results are these.

* **Publish order.** Kahn's sort in batches is characterised without reference to
  the algorithm: a crate is in batch k exactly when its longest dependency chain
  has k edges; what is never emitted is exactly what depends on a cycle; order and
  leftovers are a permutation of the names, and the order is fixed by the graph
  alone. The generator's output passes the verifier on the same metadata, also
  after being printed as a bash array and parsed back, although the two scripts
  call different crates publishable. Listed crates follow their listed dependencies,
  and all their workspace dependencies if and only if none of those is unpublished.
* **Eigenvalues.** Over the reals and the laws of sqrt, cos and acos, the solver
  returns the spectrum in descending order if and only if the off-diagonal part is
  zero or above the cutoff; the clamp on r and the second shortcut never act. The
  covariance of any point set is positive semidefinite, so its planarity is a plain
  eigenvalue ratio in [0, 1], and it does not change under translation. It is also stated
  from the points alone: the covariance is the one matrix whose form is the least mean
  squared deviation in every direction, and the spectrum the numbers with an eigenvector.
* **Kernels.** Two separable passes are one two-dimensional convolution, which is linear
  in either kernel and for single-entry kernels picks the expected pixel; the direct
  3x3 Gaussian is its floor for binomial kernels; Welford's one pass gives the two-pass
  variance; covariance obeys Cauchy-Schwarz.
* **WKB.** The decoder finds a geometry in a buffer if and only if the buffer starts
  with an encoding of it, for every nesting, byte order mark, flags and type code at every
  node, unknown parts included; every read ends, within the buffer.
* **Range fetch.** Client and server composed: a cold opening succeeds exactly on
  properly laid out files and hands over exactly the footer, for any chunking on both
  sides. The footer cache is invisible over all runs if and only if no visit leaves a
  footer that another visit takes for its own.
* **Text operations.** The methods are proved equal to functions on single-byte steps,
  and each promise is given its exact condition on those: when two concurrent edits
  converge after `transform_pair`, when a composed operation does what its parts do one
  after the other, when it panics, and when an inverse undoes.
* **State machines.** For every interleaving of tile loads and for every run of vault
  events, by induction over the steps.

## Where code and documentation differ

* The verifier looks only at the last position of a repeated entry, so `a b a` passes
  although the first `a` comes before its dependency `b`, and the harmless `b a b` is
  reported (`VerifyPublishOrder.DuplicatesMislead`). `CleanTrustedIff` and
  `AlarmTrustedIff` say exactly on which lists a clean report means a safe order, and a
  safe order a clean report, in every workspace; lists without repetition are among both.
* A crate with a list of registries is publishable for the generator but not for the
  verifier (`scripts/gen-publish-order.py:86`, `scripts/verify-publish-order.py:82`).
  `GeneratedOrderIsClean` holds nevertheless.
* The header of the generated file promises that each crate comes after every other
  workspace crate it depends on (`scripts/gen-publish-order.py:145-148`). It is broken
  by a dependency that is not publishable, since that is filtered out
  (`VerifyPublishOrder.UnpublishedDependency`). `GeneratedOrderIsClean` says that it
  holds if and only if no publishable crate has such a dependency, and that among the
  listed crates it always holds.
* `transform_pair` promises that both sites end with the same text for any document
  (`crates/oxigeo-sync/src/ot/composer.rs:69-74`). A stretch that one side retains and
  the other has deleted is deleted once more
  (`crates/oxigeo-sync/src/ot/text_operation.rs:327-329`), so that the transformed
  operation expects a longer document than there is: retaining one byte against deleting
  it fails (`TextOperations.KeepAgainstDrop`). `ConvergesIff` says that the promise holds
  if and only if both sides delete the same bytes and insert single-byte characters only.
* Lengths of text operations are called characters but counted in bytes, while `apply`
  takes that many characters (`crates/oxigeo-sync/src/ot/text_operation.rs:172-206`). So it
  succeeds on documents of single-byte characters only, and `compose` promises the effect of
  the two operations in turn but then succeeds where they fail (`TextOperations.ComposeIff`), or
  cuts a string inside a character and panics (`TextOperations.TextOperation.Compose`).
* `invert` is to undo an operation (`crates/oxigeo-sync/src/ot/mod.rs:71-78`); the code's own
  comment admits that deleted text is lost. `InvertUndoesIff` is the exact condition.
* The solver's comment calls a matrix diagonal when the squares of its off-diagonal
  entries sum to at most 2 to the power -52; between zero and that bound the result
  is not the spectrum (`Classification.DiagonalBranch`).
* The decoder's comment says that the SRID flag is masked off. That is right for any
  flags that announce nothing (`Wkb.RoundTrip`), but the four SRID bytes that the flag
  announces are not skipped: a point decodes to itself exactly when its body repeats the
  SRID's bytes, and every other type takes the SRID for its count (`Wkb.SridOnPoint`,
  `SridOnLine`, `SridOnPolygon`, `SridOnCounted`).
* The range server answers 416 to `bytes=5-2`; section 14.1.1 of RFC 9110 calls such a
  range invalid, which lets a server ignore it. The model follows the code.
* With neither ETag nor Last-Modified the footer cache is validated by length alone,
  so replacing a file by another of equal length and footer length gives the old footer
  (`FooterClient.SameLengthIsStale`). `TransparentIff` says exactly over which sets of
  visits the cache cannot be noticed.
* A range asked of a directory is answered by the standard library with the whole page
  announced, but `copyfile` still sees the range and copies only as much as the last
  partial answer on the connection, or fails (`RangeServer.TrailerOfDirectory`).
  `MisannouncedIff` and `AlwaysAnnouncedIff` say exactly when body and announced length
  differ.

## Model

| member | source | states |
|---|---|---|
| `Names.SortSet` | scripts/gen-publish-order.py:133 | sorting a set visited in any order lists each element once, ascending by code point |
| `Names.LessMeans` | scripts/gen-publish-order.py:133 | one name sorts before another exactly if it is a proper prefix or smaller at the first character where they differ |
| `Names.AscendingUnique` | scripts/gen-publish-order.py:129 | two ascending lists with the same elements are equal, so the sorted batch does not depend on set iteration order |
| `DependencyGraph.DoneIffChainsShort` | scripts/gen-publish-order.py:128-136 | a crate is out after k batches exactly when every dependency chain from it has fewer than k edges |
| `DependencyGraph.BatchIsLongestChain` | scripts/gen-publish-order.py:128-136 | a crate is emitted in batch k exactly when its longest chain has k edges |
| `DependencyGraph.SettledFixed` | scripts/gen-publish-order.py:128-136 | as many batches as there are names exhaust the process, whatever the graph |
| `DependencyGraph.StuckIffDependsOnCycle` | scripts/gen-publish-order.py:138 | a crate is never emitted exactly when a chain from it runs into a cycle |
| `DependencyGraph.StuckEmptyIffAcyclic` | scripts/gen-publish-order.py:107-111 | `cycle_members` is empty exactly when the graph has no cycle |
| `DependencyGraph.OrderCharacterised` | scripts/gen-publish-order.py:124-139 | the order is each crate that depends on no cycle, once, by longest chain and then by name |
| `DependencyGraph.PrecedesAsymmetric` | scripts/gen-publish-order.py:124-139 | that ordering relation is strict, so it admits only one order |
| `DependencyGraph.DependenciesFirst` | scripts/gen-publish-order.py:124-136 | in the unfiltered order every emitted crate comes strictly after each of its in-set dependencies, which are all emitted |
| `DependencyGraph.OrderAndStuckPermute` | scripts/gen-publish-order.py:138-139 | order followed by cycle members lists every name exactly once |
| `Workspace.NodeDeps` | scripts/gen-publish-order.py:94-101 | the names collected from one node are its other workspace crates reached by a normal or build edge |
| `Workspace.NameMembers` | scripts/gen-publish-order.py:73-86 | each workspace name is mapped to the member that carries it and to its publishable flag, in any order of visit |
| `Workspace.BuildGraph` | scripts/gen-publish-order.py:60-103 | the loops produce exactly the graph that the metadata describes, and the publishable names |
| `Workspace.GraphOfEdges` | scripts/gen-publish-order.py:61-67 | edges are exactly the publish-time dependencies; none is a self-loop or leaves the workspace |
| `Workspace.NamesMeaning` | scripts/gen-publish-order.py:68-71 | the workspace names are the names of the packages that are members, when ids are unique |
| `Workspace.DependsMeaning` | scripts/gen-publish-order.py:89-103 | one crate depends on another exactly if a member of its name has an edge, normal or build in at least one kind, to a package with the name of the other, which is the name of some member |
| `Workspace.PublishableMeaning` | scripts/gen-publish-order.py:73-87 | a name is publishable to a script exactly if a member of that name meets its rule |
| `GenPublishOrder.CountInDegrees` | scripts/gen-publish-order.py:112-116 | each counter starts at the number of in-set dependencies |
| `GenPublishOrder.ReverseEdges` | scripts/gen-publish-order.py:118-122 | `dependents[d]` is exactly the set of crates that depend on d |
| `GenPublishOrder.ReleaseDependents` | scripts/gen-publish-order.py:133-136 | after emitting n the counters are the outstanding dependencies again, and exactly the crates n was the last to hold back became ready, once each |
| `GenPublishOrder.EmitBatch` | scripts/gen-publish-order.py:129-136 | one pass emits the batch and leaves counters and ready queue as the next batch needs them |
| `GenPublishOrder.TopoOrder` | scripts/gen-publish-order.py:106-139 | always terminates; order and sorted leftovers are the layered order and the stuck set of the graph |
| `GenPublishOrder.SameEdgesSameOrder` | scripts/gen-publish-order.py:90-92 | the result depends only on the names and their edge sets, not on how the dictionary stores them |
| `GenPublishOrder.FilterKeepsOrder` | scripts/gen-publish-order.py:208 | the publishable filter keeps exactly the wanted names and their relative order |
| `GenPublishOrder.Generate` | scripts/gen-publish-order.py:198-208 | succeeds exactly on acyclic workspaces, with an order that is a function of the metadata; otherwise reports, ascending, exactly the crates that depend on a cycle |
| `CratesArray.FindIsLeftmost` | scripts/verify-publish-order.py:139 | the search finds the first occurrence and fails only when there is none |
| `CratesArray.FirstOpeningDecides` | scripts/verify-publish-order.py:139 | backtracking to a later opening can never help the pattern match |
| `CratesArray.RoundTrip` | scripts/verify-publish-order.py:138-142 | parsing the printed array (printed at lines 226-229), after any text whose own openings do not interfere and before any text, gives the printed list if and only if every name is non-empty and without quote, and newline-parenthesis does not occur in it |
| `CratesArray.QuotedTake` | scripts/verify-publish-order.py:142 | a non-empty quoted text is taken and the scan goes on behind its closing quote |
| `CratesArray.QuotedElse` | scripts/verify-publish-order.py:142 | an empty pair of quotes opens at its second quote; a text without quotes or with an open one gives nothing |
| `CratesArray.SampleArray` | scripts/verify-publish-order.py:138-142 | a one-crate script read, and a two-crate list printed, character by character |
| `CratesArray.FirstOpening` | scripts/verify-publish-order.py:139 | whatever follows, the pattern matches at the first opening of the text before the printed one, if there is any |
| `CratesArray.EarlierArrayWins` | scripts/verify-publish-order.py:138-142 | an array opened and closed in the text before is read instead of the printed one |
| `CratesArray.EarlierOpeningRunsOn` | scripts/verify-publish-order.py:138-142 | an opening that is not closed before runs on: what is quoted between it and the end of the printed array is read |
| `VerifyPublishOrder.Positions` | scripts/verify-publish-order.py:188 | every entry is mapped to its last position |
| `VerifyPublishOrder.ViolationsOf` | scripts/verify-publish-order.py:193-195 | adds exactly the later-listed publishable dependencies of one crate |
| `VerifyPublishOrder.CollectViolations` | scripts/verify-publish-order.py:189-195 | finds exactly the out-of-order pairs among listed publishable crates |
| `VerifyPublishOrder.Check` | scripts/verify-publish-order.py:154-195 | reports a cycle exactly when there is one, and otherwise exactly the missing, stale and out-of-order entries of the metadata |
| `VerifyPublishOrder.ExitZeroIffClean` | scripts/verify-publish-order.py:197-222 | the exit code is 0 exactly when the list is complete, contains nothing foreign and has no violation |
| `VerifyPublishOrder.ExitMeaning` | scripts/verify-publish-order.py:158-222 | the exit code is 2 for a workspace with a cycle, otherwise 0 or 1 according to whether the list is clean |
| `VerifyPublishOrder.PublishableNames` | scripts/verify-publish-order.py:82 | publishable to the verifier: members with `publish` unset; to the generator: those, and members with a non-empty list of registries |
| `VerifyPublishOrder.CleanIffListedAndOrdered` | scripts/verify-publish-order.py:188-195 | for any list, repetitions included, what a clean report means |
| `VerifyPublishOrder.CleanTrustedIff` | scripts/verify-publish-order.py:188-195 | for any list: in every workspace a clean report means that every listed publishable crate is preceded by its publishable dependencies, if and only if no occurrence of a name precedes all occurrences of another name that a later occurrence follows |
| `VerifyPublishOrder.AlarmTrustedIff` | scripts/verify-publish-order.py:188-195 | for any list: a safe order is reported clean in every workspace if and only if no name is always preceded by another whose last occurrence follows its last |
| `VerifyPublishOrder.SingleEdgeReport` | scripts/verify-publish-order.py:182-195 | with one dependency in the workspace, clean means that it is met somewhere in the list, safe that it is met everywhere |
| `VerifyPublishOrder.CleanIffSafe` | scripts/verify-publish-order.py:188-195 | so without repetitions clean means: every listed publishable crate is preceded by all its publishable dependencies |
| `VerifyPublishOrder.DuplicatesMislead` | scripts/verify-publish-order.py:188 | where `a` needs `b`, the unsafe list `a b a` is clean and the safe list `b a b` is not |
| `VerifyPublishOrder.FilteredOrderIsClean` | scripts/verify-publish-order.py:164 | any filter of the topological order lists the kept crates once each, after their listed dependencies; after all their dependencies if and only if what is kept is closed under dependencies; and if nothing the verifier calls publishable is filtered out, the list is clean and safe |
| `VerifyPublishOrder.GeneratedOrderIsClean` | scripts/gen-publish-order.py:145-148 | the generator's list is exactly its publishable crates, each after its listed dependencies, and after all its dependencies, as the file's header promises, if and only if no publishable crate depends on one that is not; it passes the verifier on the same acyclic metadata |
| `VerifyPublishOrder.UnpublishedDependency` | scripts/gen-publish-order.py:202-208 | where `a` needs `b` and `b` is not to be published the list is `a` alone: clean, and against the header |
| `VerifyPublishOrder.EmittedArrayIsClean` | scripts/verify-publish-order.py:224-229 | the printed corrected array, read back by the verifier, is clean |
| `RealFunctions.ThirdAngles` | crates/oxigeo-3d/src/classification.rs:291-294 | the cosines the solver forms are the three roots of 4x^3 - 3x = r, largest first |
| `Matrix3.SpectrumIffSymmetricFunctions` | crates/oxigeo-3d/src/classification.rs:254-256 | three numbers are the eigenvalues exactly when they have the matrix's trace, minors and determinant |
| `Matrix3.EigenvectorIff` | crates/oxigeo-3d/src/classification.rs:254-256 | the roots of the characteristic polynomial are exactly the numbers that have an eigenvector |
| `Matrix3.SpectrumHasEigenvectors` | crates/oxigeo-3d/src/classification.rs:254-256 | a spectrum is exactly the numbers that have an eigenvector |
| `Matrix3.SpectrumUnique` | crates/oxigeo-3d/src/classification.rs:254-256 | in descending order a matrix has only one spectrum |
| `Matrix3.DetBound` | crates/oxigeo-3d/src/classification.rs:287-290 | a traceless symmetric matrix of squared norm 6 has determinant between -2 and 2 |
| `Matrix3.PsdSpectrum` | crates/oxigeo-3d/src/classification.rs:320-334 | eigenvalues of a positive semidefinite matrix are non-negative |
| `Matrix3.NullVectorSingular` | crates/oxigeo-3d/src/classification.rs:320-334 | a positive semidefinite matrix with a direction of no spread is singular |
| `Classification.Normalise` | crates/oxigeo-3d/src/classification.rs:278-285 | the filled matrix is (cov - qI) / p and symmetric |
| `Classification.SymmetricEig3x3` | crates/oxigeo-3d/src/classification.rs:256-297 | the solver's result on the array is the specified triple, in all three branches |
| `Classification.ScaleAboveCutoff` | crates/oxigeo-3d/src/classification.rs:274-277 | above the first cutoff the second one is never reached |
| `Classification.ClampInactive` | crates/oxigeo-3d/src/classification.rs:286-290 | r is always within [-1, 1], so the clamp changes nothing |
| `Classification.GeneralBranch` | crates/oxigeo-3d/src/classification.rs:272-296 | above the cutoff the result is the spectrum (roots of the characteristic polynomial with multiplicity), largest first |
| `Classification.DiagonalBranch` | crates/oxigeo-3d/src/classification.rs:265-271 | at or below the cutoff the sorted diagonal is the spectrum exactly when nothing is off the diagonal |
| `Classification.SolverExactIff` | crates/oxigeo-3d/src/classification.rs:254-297 | always descending; the spectrum exactly when the off-diagonal sum is zero or above the cutoff |
| `Classification.DimensionalityFeatures` | crates/oxigeo-3d/src/classification.rs:320-334 | the features are those of the solver's triple |
| `Classification.FeaturesPartition` | crates/oxigeo-3d/src/classification.rs:310-333 | on a sorted non-negative spectrum above the cutoff no clamp fires and the three features sum to 1 |
| `Classification.FeaturesClamped` | crates/oxigeo-3d/src/classification.rs:320-334 | on any sorted triple, negative ones included: all zero if the largest is negligible, otherwise the three ratios cut to [0, 1] |
| `Classification.PsdEigenvalues` | crates/oxigeo-3d/src/classification.rs:254-297 | on a positive semidefinite matrix the result is descending and non-negative in every branch |
| `Classification.Accumulate` | crates/oxigeo-3d/src/classification.rs:359-370 | one pass adds the outer product of the deviation to the upper triangle |
| `Classification.CovarianceOf` | crates/oxigeo-3d/src/classification.rs:356-380 | the loops leave the mean outer product of the deviations, symmetric |
| `Classification.CalculatePlanarity` | crates/oxigeo-3d/src/classification.rs:337-385 | the planarity of the point set, 0 for fewer than three points |
| `Classification.CovariancePsd` | crates/oxigeo-3d/src/classification.rs:356-380 | v^T C v is non-negative for every direction v |
| `Classification.CovarianceIff` | crates/oxigeo-3d/src/classification.rs:342-380 | a matrix is the covariance exactly if, in every direction, |points| times its form is the least sum of squared deviations over all centres, and attained |
| `Classification.PlanarityMeaning` | crates/oxigeo-3d/src/classification.rs:337-385 | from the points alone: for the matrix that measures their spread and its spectrum (or its sorted diagonal if there is next to nothing off it), planarity is (l2 - l3) / l1, and 0 for fewer than three points or negligible l1 |
| `Classification.PlanarityOfPoints` | crates/oxigeo-3d/src/classification.rs:336-385 | planarity lies in [0, 1]; above the cutoff it is (l2 - l3) / l1 and the features sum to 1 |
| `Classification.TranslationInvariant` | crates/oxigeo-3d/src/classification.rs:342-385 | moving all points together changes neither covariance nor planarity |
| `Classification.CoplanarSingular` | crates/oxigeo-3d/src/classification.rs:356-380 | points in one plane have a covariance of determinant zero |
| `Classification.CoplanarHasNoSphericity` | crates/oxigeo-3d/src/classification.rs:320-333 | where the solver is exact, coplanar points have sphericity 0 and the other two features sum to 1 |
| `Classification.CoplanarSphericityIff` | crates/oxigeo-3d/src/classification.rs:254-334 | in every branch: coplanar points have sphericity 0 if and only if the off-diagonal sum is above the cutoff, a diagonal entry is 0, or the whole diagonal is at or below the cutoff |
| `Statistics.SumOf` | crates/oxigeo-algorithms/benches/simd_vs_scalar.rs:119-125 | the loop computes the sum |
| `Statistics.VarianceOf` | crates/oxigeo-algorithms/benches/simd_vs_scalar.rs:165-174 | the mean squared deviation from the mean; no value without data |
| `Statistics.WelfordStep` | crates/oxigeo-algorithms/benches/simd_vs_scalar.rs:182-186 | one update keeps mean = average and m2 = sum of squared deviations from it |
| `Statistics.WelfordVariance` | crates/oxigeo-algorithms/benches/simd_vs_scalar.rs:177-190 | for every non-empty input the one-pass loop returns the mean and the two-pass variance |
| `Statistics.AnyCentre` | crates/oxigeo-algorithms/benches/simd_vs_scalar.rs:198-200 | around the mean of the first series it does not matter which centre the second gets |
| `Statistics.CovarianceOf` | crates/oxigeo-algorithms/benches/simd_vs_scalar.rs:193-202 | the covariance; with a longer second series, the covariance with as much of it as there is of the first |
| `Statistics.CovarianceWithSelf` | crates/oxigeo-algorithms/benches/simd_vs_scalar.rs:165-202 | covariance of a series with itself is its variance, which is not negative |
| `Statistics.CauchySchwarz` | crates/oxigeo-algorithms/benches/simd_vs_scalar.rs:198-200 | the squared cross sum is at most the product of the square sums, around any centres |
| `Statistics.CovarianceBound` | crates/oxigeo-algorithms/benches/simd_vs_scalar.rs:165-202 | covariance squared is at most the product of the variances; covariance is symmetric |
| `Statistics.OfTwo` | crates/oxigeo-algorithms/benches/simd_vs_scalar.rs:119-202 | sum, mean, variance and covariance of two elements |
| `Raster.AtInRange` | crates/oxigeo-algorithms/benches/simd_vs_scalar.rs:329-331 | the index of every pixel is inside the image and inside its row |
| `Raster.AtInjective` | demo/cog-viewer/main.js:989 | different pixels have different indices |
| `Convolution.TwoPassesAreOne` | crates/oxigeo-algorithms/benches/simd_vs_scalar.rs:323-345 | the column sum of row sums is the two-dimensional sum at inner columns and zero at border columns |
| `Convolution.HorizontalPass` | crates/oxigeo-algorithms/benches/simd_vs_scalar.rs:321-333 | the intermediate image holds row sums inside and zeros at the border, for every image and kernel size |
| `Convolution.VerticalRow` | crates/oxigeo-algorithms/benches/simd_vs_scalar.rs:337-344 | one output row becomes the convolution; nothing outside that row is written |
| `Convolution.SeparableConvolve` | crates/oxigeo-algorithms/benches/simd_vs_scalar.rs:311-346 | inner pixels get the two-dimensional convolution with the outer product of the kernels, border columns of inner rows zero, border rows and anything past the image keep their content; no index is out of range |
| `Convolution.FilteredPixels` | crates/oxigeo-algorithms/benches/simd_vs_scalar.rs:311-346 | the same pixel by pixel, at index y * w + x, with the borders written out |
| `Convolution.UnitPicksPixel` | crates/oxigeo-algorithms/benches/simd_vs_scalar.rs:321-344 | with kernels that are 1 at k and l only, the result at (y, x) is the pixel at (y + l - height/2, x + k - width/2) for the kernel height and width |
| `Convolution.ConvolveLinear` | crates/oxigeo-algorithms/benches/simd_vs_scalar.rs:321-344 | the result is linear in either kernel, so those pixels determine it |
| `Convolution.NineTerms` | crates/oxigeo-algorithms/benches/simd_vs_scalar.rs:280-284 | the separable [1/4, 1/2, 1/4] convolution is the sum of nine pixels with the sixteenths of the direct kernel |
| `Convolution.SmoothedWithin` | crates/oxigeo-algorithms/benches/simd_vs_scalar.rs:287-294 | the weighted sum lies between any bounds of its window |
| `Convolution.SmoothedByte` | crates/oxigeo-algorithms/benches/simd_vs_scalar.rs:295 | on bytes the clamp never fires and the floor respects whole-number bounds of the window |
| `Convolution.KernelSum` | crates/oxigeo-algorithms/benches/simd_vs_scalar.rs:287-294 | the two inner loops compute the separable convolution at that pixel |
| `Convolution.GaussianBlur3x3` | crates/oxigeo-algorithms/benches/simd_vs_scalar.rs:277-298 | each inner pixel is the floor of the separable convolution; no other pixel changes |
| `Bytes.U32RoundTrip` | demo/cog-viewer/formats.js:615 | four bytes written in either byte order read back as the number |
| `Wkb.ReadPositions` | demo/cog-viewer/formats.js:634-638 | a successful read of n positions consumes exactly 16n bytes inside the buffer |
| `Wkb.ReadRings` | demo/cog-viewer/formats.js:643-655 | each ring consumes at least 4 bytes and the end stays inside the buffer whatever the declared counts |
| `Wkb.ReadItems` | demo/cog-viewer/formats.js:660-669 | each nested geometry consumes at least 5 bytes, which bounds the recursion on arbitrary bytes |
| `Wkb.ReadGeometry` | demo/cog-viewer/formats.js:622-717 | a successful read never goes back and never ends past the buffer |
| `Wkb.ReadPositionLoop` | demo/cog-viewer/formats.js:634-638 | the loop with its moving offset is the recursive reading |
| `Wkb.ReadRingLoop` | demo/cog-viewer/formats.js:643-655 | the same for rings |
| `Wkb.ReadItemLoop` | demo/cog-viewer/formats.js:703-711 | the same for nested geometries, unknown types skipped |
| `Wkb.ReadGeometryAt` | demo/cog-viewer/formats.js:622-717 | the imperative reader, mutually recursive with its loops, terminates and is the recursive reading |
| `Wkb.DecodeWkb` | demo/cog-viewer/formats.js:609-620 | the decoder's answer, no geometry for short, malformed or unknown input |
| `Wkb.BodyHeld` | demo/cog-viewer/formats.js:622-717 | pointed at an encoded body anywhere in a buffer, the reader returns its geometry and stops where the encoding does |
| `Wkb.RoundTrip` | demo/cog-viewer/formats.js:603-620 | decoding the encoding of any nested geometry, with any byte order mark, upper half of the type word and known type code (1 to 7, 2001 to 2007) or unknown one at every node, gives it back with end offset the encoded length |
| `Wkb.DecodesIff` | demo/cog-viewer/formats.js:609-717 | for any buffer: a geometry is decoded if and only if the buffer starts with an encoding of it |
| `Wkb.BodyRead` | demo/cog-viewer/formats.js:622-717 | whatever the reader reads anywhere in a buffer is the body of a node, read to its end |
| `Wkb.UnknownIsNothing` | demo/cog-viewer/formats.js:610-715 | a buffer shorter than 5 bytes, or with a type code outside 1 to 7 and 2001 to 2007, decodes to nothing |
| `Wkb.UnknownPartSkipped` | demo/cog-viewer/formats.js:664-668 | a part of unknown type adds nothing to the parts |
| `Wkb.SampleDecoded` | demo/cog-viewer/formats.js:609-717 | the bytes of a collection of a big-endian polygon, a Point Z and a little-endian line, and what is decoded |
| `Wkb.EncodingDeterminesGeometry` | demo/cog-viewer/formats.js:603-620 | equal encodings stand for equal geometries |
| `Wkb.SridOnPoint` | demo/cog-viewer/formats.js:615-629 | with SRID bytes present, in either byte order, a point decodes to the position that starts with them, and to itself if and only if all four words of its body equal the SRID |
| `Wkb.SridOnLine` | demo/cog-viewer/formats.js:630-640 | a line string then decodes if and only if the SRID is at most its number of points, and to itself if and only if the SRID is that number and the points repeat its bytes |
| `Wkb.SridOnPolygon` | demo/cog-viewer/formats.js:641-657 | a polygon with SRID bytes present decodes to itself if and only if the SRID is its number of rings and everything after the count repeats the SRID's bytes |
| `Wkb.SridOnCounted` | demo/cog-viewer/formats.js:641-713 | in every type with rings or parts the SRID is read as their count, so nothing is decoded unless the buffer has 4 bytes for each ring, or 5 for each part |
| `Decimal.ParseShown` | demo/geoparquet/main.js:241 | parsing a printed number gives the number |
| `Decimal.ShownDigits` | demo/geoparquet/serve.py:67 | decimal text has its most significant digit first |
| `RangeServer.ResolveCovers` | demo/geoparquet/serve.py:48-57 | the resolved span is exactly the set of positions the range names, and 416 is answered exactly when it names none |
| `RangeServer.MatchParts` | demo/geoparquet/serve.py:20-34 | which headers the pattern accepts, and with which groups |
| `RangeServer.MatchRangeIff` | demo/geoparquet/serve.py:20-34 | a header is a range exactly if it is bytes=, digits, a dash and digits, not both groups empty, and it has those groups |
| `RangeServer.NamedIsSent` | demo/geoparquet/serve.py:48-73 | a range that names the positions from a to b gets 206 with exactly those bytes, their count and `bytes a-b/size` |
| `RangeServer.NothingIsRefused` | demo/geoparquet/serve.py:58-64 | a range that names nothing gets 416 with `bytes */size` and no body |
| `RangeServer.OtherHeader` | demo/geoparquet/serve.py:35-36 | any other header gets the whole file |
| `RangeServer.OtherTargets` | demo/geoparquet/serve.py:35-46 | what anything but a file gets: 404 if unreadable, the stock status, or the stock page, cut to what the last partial answer left if a range was asked |
| `RangeServer.FileLeaves` | demo/geoparquet/serve.py:72-85 | a file answered in part leaves the length sent on the connection, any other answer leaves what was there |
| `RangeServer.Source.Read` | demo/geoparquet/serve.py:80 | a read returns the next bytes, never more than asked, nothing only at the end |
| `RangeServer.RangeRequestHandler.StockSendHead` | demo/geoparquet/serve.py:35-40 | the standard library's answer, which takes no notice of the range: a whole file or page, or something it has sent itself |
| `RangeServer.RangeRequestHandler.SendHead` | demo/geoparquet/serve.py:28-73 | for a file, a file that cannot be opened, a directory or nothing: what is announced, what is left to copy from where, and which handler fields change |
| `RangeServer.RangeRequestHandler.CopyFile` | demo/geoparquet/serve.py:75-85 | for any chunking, with a range exactly `range_remaining` bytes from the current position or what the file has, a failure if that field was never set, and everything without a range |
| `RangeServer.Serve` | demo/geoparquet/serve.py:28-85 | the whole answer to a request for any path, and what it leaves behind on the connection |
| `RangeServer.ServeConnection` | demo/geoparquet/serve.py:26-85 | one handler serving any requests in turn gives exactly the specified answers |
| `RangeServer.MisannouncedIff` | demo/geoparquet/serve.py:35-85 | the body differs in length from what was announced if and only if a range was asked of a directory that answers with a page longer than the last partial answer on the connection |
| `RangeServer.AlwaysAnnouncedIff` | demo/geoparquet/serve.py:35-85 | over all connections with requests from a set, every body is as long as announced if and only if no request of the set asks for a range of a directory with a non-empty page |
| `RangeServer.TrailerOfDirectory` | demo/geoparquet/serve.py:38-40 | the last 8 bytes asked of such a directory: nothing is sent on a new connection, 8 bytes after an 8-byte answer, the whole page announced |
| `TypedArray.Set` | demo/geoparquet/main.js:218 | copying at an offset replaces that stretch and nothing else |
| `FooterClient.ReadWithProgress` | demo/geoparquet/main.js:202-220 | the reassembled body is the concatenation of the chunks, in order |
| `FooterClient.FooterOfLayout` | demo/geoparquet/main.js:234-246 | trailer arithmetic finds a footer exactly when the file is body, non-empty footer, its length, PAR1 |
| `FooterClient.TrailerOfLayout` | demo/geoparquet/main.js:242-246 | a trailer is four bytes and PAR1 at the end of the file, and those four bytes are the little-endian footer length |
| `FooterClient.TrailerAnswer` | demo/geoparquet/main.js:235-245 | what the server answers to the suffix range of 8, short and empty files included |
| `FooterClient.TotalParsed` | demo/geoparquet/main.js:240-241 | the client recovers the file size from the server's Content-Range |
| `FooterClient.AnswerToHeader` | demo/geoparquet/main.js:259 | status, Content-Range, length and body for any computed start and end, negative ones included |
| `FooterClient.FooterAnswer` | demo/geoparquet/main.js:258-262 | the footer request gets 206 exactly when the announced length is positive and fits, and then exactly those bytes |
| `FooterClient.FetchTrailer` | demo/geoparquet/main.js:234-246 | yields size and footer length exactly when the file ends in a trailer |
| `FooterClient.FetchFooter` | demo/geoparquet/main.js:258-268 | yields exactly the footer, or nothing when there is none, for any chunking on both sides |
| `FooterClient.Client.OpenDataset` | demo/geoparquet/main.js:227-270 | outcome, cache and dataset after one opening, warm or cold; a failed opening keeps the dataset |
| `FooterClient.ColdOpen` | demo/geoparquet/main.js:234-268 | with nothing cached, opening hands over a footer exactly when the file is laid out with it, and fails exactly when it is laid out with none |
| `FooterClient.EntriesComeFromVisits` | demo/geoparquet/main.js:166-189 | every cached footer was the footer of a file visited at that url with that validator |
| `FooterClient.TransparentIff` | demo/geoparquet/main.js:247-270 | over all runs of visits from a set, every opening ends as without a cache if and only if no visit of the set leaves a footer that another one, at the same url with the same validator and footer length, would wrongly take |
| `FooterClient.SecondVisit` | demo/geoparquet/main.js:247-252 | after a visit that left a footer, the next one to the url takes it if and only if the footer lengths agree and the same string decides, else it fetches its own |
| `FooterClient.SameDecidesIff` | demo/geoparquet/main.js:247-248 | the same string decides for two ETags, for two dates without ETags, and for two lengths without either, if and only if they are equal |
| `FooterClient.CacheFollowsLastVisit` | demo/geoparquet/main.js:166-189 | what is cached for a url belongs to the last visit that found a trailer there, and is the footer it opened |
| `FooterClient.CacheIsTransparent` | demo/geoparquet/main.js:247-270 | so in any one run it is enough that equal validators mean equal contents |
| `FooterClient.SameLengthIsStale` | demo/geoparquet/main.js:247-252 | without validator headers, equal lengths and footer lengths give the earlier footer |
| `FooterClient.SuchFilesExist` | demo/geoparquet/main.js:247-252 | files that the length validator confuses exist |
| `TileStitching.TilePlace` | demo/geovault/workstation.js:381-382 | tile number and place determine a coordinate and are determined by it |
| `TileStitching.VisitedStep` | demo/cog-viewer/main.js:984-989 | one step of the innermost loop passes exactly one new pixel |
| `TileStitching.VisitedEnd` | demo/cog-viewer/main.js:973-1003 | at the end every pixel has been passed, ragged edge tiles included |
| `TileStitching.AssembleElevation` | demo/geovault/workstation.js:369-388 | pixel y * w + x holds sample (y mod th) * tw + (x mod tw) of tile (x div tw, y div th), for every image and tile size, and is written exactly once, or never if the tile has no such sample |
| `TileStitching.ScanTiles` | demo/cog-viewer/main.js:973-1003 | the loops over all tiles scan every pixel and write it exactly once, those of failed tiles never |
| `TileStitching.StoreSample` | demo/cog-viewer/main.js:988-998 | exactly one cell of each grid changes, by validity of the sample |
| `TileStitching.ScanTile` | demo/cog-viewer/main.js:975-1000 | a tile that was read advances the scan by its pixels; a failed one leaves its cells blank and out of the extremes |
| `TileStitching.FillNodata` | demo/cog-viewer/main.js:1012-1016 | exactly the NaN cells become the minimum |
| `TileStitching.AssembleElevationGrid` | demo/cog-viewer/main.js:963-1018 | fails exactly when no tile that was read has a number above -32767 and of at most 10^30 under a pixel; otherwise mask is 1 exactly at those pixels, which keep their number, other pixels hold the least such number, pixels of failed tiles 0, and min and max are the extremes of those numbers, or min and min + 1 if they are all equal |
| `TileCache.KeyInjective` | demo/cog-viewer/cog-worker.js:60 | equal cache keys mean equal requests, colons in the url or not |
| `TileCache.PutEvictValid` | demo/cog-viewer/cog-worker.js:82-89 | insertion and eviction keep distinct keys, at most 100, the newest 100 in order, and the other tiles' values |
| `TileCache.StepKeepsInvariant` | demo/cog-viewer/cog-worker.js:43-96 | each atomic step between awaits keeps bound, key-value agreement and correct answers |
| `TileCache.EveryRunFaithful` | demo/cog-viewer/cog-worker.js:43-107 | in every interleaving at most 100 tiles are cached, each is the viewer's tile for its key, and every answer equals an uncached read |
| `TileCache.KeepsLastInserted` | demo/cog-viewer/cog-worker.js:85-89 | the cache always holds the last 100 insertions, oldest first |
| `TileCache.LoadStarts` | demo/cog-viewer/cog-worker.js:58-72 | in any run a load is answered at once and marked cached if its tile is among the last 100 inserted, else it goes on to reading if a viewer was opened for its url, else to opening one |
| `TileCache.LoadMoves` | demo/cog-viewer/cog-worker.js:43-96 | in any run only its own events move a load: from opening to reading, from reading to its answer, or from either to rejected |
| `TileCache.LoadEnds` | demo/cog-viewer/cog-worker.js:48-95 | in any run a load is answered without the cache exactly if its tile was read, and rejected exactly if its viewer or its read failed |
| `TileCache.ViewersMeaning` | demo/cog-viewer/cog-worker.js:43-52 | a viewer is known for a url exactly once some load opened it |
| `TileCache.AnswersStay` | demo/cog-viewer/cog-worker.js:58-96 | a step never drops a load or changes its request, and an answer or failure once given is final |
| `TileCache.SpawnedInOrder` | demo/cog-viewer/cog-worker.js:102-104 | a batch call starts exactly one load for each coordinate, in order |
| `TileCache.BatchIsOrdered` | demo/cog-viewer/cog-worker.js:101-107 | whatever happens before, between and after, a batch that answers gives the viewer's tiles in the order of the coordinates |
| `TileCache.BatchSettles` | demo/cog-viewer/cog-worker.js:102-106 | a batch that has answered or failed stays so in every continuation |
| `TileCache.Worker.BeginLoad` | demo/cog-viewer/cog-worker.js:58-72 | a load up to its first await is the step that starts it |
| `TileCache.Worker.ViewerOpened` | demo/cog-viewer/cog-worker.js:48-52 | continuing after the viewer opened is the step of that event |
| `TileCache.Worker.Remember` | demo/cog-viewer/cog-worker.js:82-89 | inserting and deleting the first key is the specified insertion with eviction |
| `TileCache.Worker.TileArrived` | demo/cog-viewer/cog-worker.js:73-95 | continuing after the tile was read is the step of that event |
| `TileCache.Worker.LoadFailed` | demo/cog-viewer/cog-worker.js:49-73 | a rejected await ends that load and changes nothing else |
| `TileCache.Drive` | demo/cog-viewer/cog-worker.js:43-107 | a worker driven through any events is in the state the run theorems are about, and satisfies their invariant |
| `VaultLedger.Vault.VaultLog` | demo/geovault/vault-ui.js:196-219 | appends, queues or ignores, depending on session and seal |
| `VaultLedger.Vault.FlushPending` | demo/geovault/vault-ui.js:221-241 | the queue moves to the end of the ledger in order and is emptied |
| `VaultLedger.Vault.SyncTraffic` | demo/geovault/vault-ui.js:247-252 | totals are noted only in an unsealed session |
| `VaultLedger.Vault.AddIngress` | demo/geovault/vault-ui.js:254-259 | the counter grows by positive amounts only and is noted |
| `VaultLedger.Vault.AddEgress` | demo/geovault/vault-ui.js:345-349 | the same for bytes sent by beacons |
| `VaultLedger.Vault.RecordBlocked` | demo/geovault/vault-ui.js:261-269 | counter and record advance together unless sealed |
| `VaultLedger.Vault.SealSession` | demo/geovault/vault-ui.js:472-485 | binds the current totals and freezes; a failed seal leaves the session open |
| `VaultLedger.Vault.InitVault` | demo/geovault/vault-ui.js:585-601 | a new session starts with the start record, unless the vault is sealed, then the queued operations, and the current totals |
| `VaultLedger.LedgerOfAnyRun` | demo/geovault/vault-ui.js:196-241 | in any run, however often initialised, the ledger is what the last initialisation opened it with and then the operations since in arrival order, none after a seal |
| `VaultLedger.LedgerIsArrivalOrder` | demo/geovault/vault-ui.js:196-241 | so with one initialisation the ledger is the start record and then all operations in arrival order; before the session exists they wait in that order |
| `VaultLedger.SealedIsFrozen` | demo/geovault/vault-ui.js:472-485 | after sealing no event but a second initialisation changes the session, and none changes the attestation |
| `VaultLedger.SealBindsTotals` | demo/geovault/vault-ui.js:475-485 | in every continuation of a sealed run the attestation is the session at the moment of sealing, with the totals of that moment; the session still equals it if and only if no further initialisation came, which empties it |
| `VaultLedger.BlockedCounted` | demo/geovault/vault-ui.js:261-269 | in every run, however often initialised, the counter equals the blocked records in ledger and queue, up to exactly the requests blocked after the seal, operations logged under the reserved name, and blocked records that a further initialisation discarded; of the last there are none with one initialisation |
| `VaultLedger.BlockedBeforeReinit` | demo/geovault/vault-ui.js:573 | a request blocked before a second initialisation is counted but no longer on record |
| `VaultLedger.TotalsCurrent` | demo/geovault/vault-ui.js:247-269 | in every run the totals in an unsealed session are the counters |
| `VaultLedger.CountersMeaning` | demo/geovault/vault-ui.js:254-269 | in every run, sealed or not, the counters are the sums of the positive amounts and the number of blocked requests |
| `VaultLedger.PhaseMeaning` | demo/geovault/vault-ui.js:472-485 | in every run there is a session exactly after an initialisation, and it is sealed, with an attestation, exactly after a successful seal behind one |
| `VaultLedger.SampleRun` | demo/geovault/vault-ui.js:585-601 | the records of a small run word for word |
| `VaultLedger.SecondInitLosesLedger` | demo/geovault/vault-ui.js:573 | the documented once-only condition is needed: after any run a further initialisation leaves only its start record, and after a seal nothing |
| `RowGroupStrip.ColumnsAbut` | demo/geoparquet/rg-strip.js:88-90 | with more groups than columns each column is non-empty and ends where the next begins; the `max` never acts |
| `RowGroupStrip.ColumnsPartition` | demo/geoparquet/rg-strip.js:86-97 | the columns partition the row groups |
| `RowGroupStrip.ColumnMeaning` | demo/geoparquet/rg-strip.js:88-90 | group i is in column x exactly if x * total < (i + 1) * width <= (x + 1) * total |
| `RowGroupStrip.Strip.SetTotal` | demo/geoparquet/rg-strip.js:31-36 | all groups pruned and no plan |
| `RowGroupStrip.Strip.SetSurvivors` | demo/geoparquet/rg-strip.js:39-46 | exactly the survivors that exist are marked, everything else is pruned |
| `RowGroupStrip.Strip.MarkFetched` | demo/geoparquet/rg-strip.js:49-54 | exactly the given groups that exist become fetched |
| `RowGroupStrip.Strip.Reset` | demo/geoparquet/rg-strip.js:57-61 | all groups pruned, the size kept |
| `RowGroupStrip.Strip.ColumnState` | demo/geoparquet/rg-strip.js:89-94 | the highest state in the column's bucket |
| `RowGroupStrip.Strip.Draw` | demo/geoparquet/rg-strip.js:64-98 | idle before a plan, one cell per group while they fit, else the highest state of each column's bucket |
| `RowGroupStrip.NothingHidden` | demo/geoparquet/rg-strip.js:87 | no group is hidden behind a lower state, and a column shows pruned exactly when all its groups are |
| `RowGroupStrip.HighestState` | demo/geoparquet/rg-strip.js:12-14 | a column shows fetched if a group of it is fetched, surviving if one survives and none is fetched, pruned if all are pruned |
| `TextOperations.TextOperation.Retain` | crates/oxigeo-sync/src/ot/text_operation.rs:98-114 | what was built keeps the new bytes at the end; the two lengths stay those taken up and left; nothing empty is stored and neighbours of one kind are merged |
| `TextOperations.TextOperation.Insert` | crates/oxigeo-sync/src/ot/text_operation.rs:121-136 | the same for inserted text |
| `TextOperations.TextOperation.Delete` | crates/oxigeo-sync/src/ot/text_operation.rs:143-158 | the same for deleted bytes |
| `TextOperations.Advance` | crates/oxigeo-sync/src/ot/text_operation.rs:186-194 | taking n characters moves past n characters or finds too few; on single-byte text it moves n bytes |
| `TextOperations.PlainByChars` | crates/oxigeo-sync/src/ot/text_operation.rs:172 | a text has as many characters as bytes exactly when all of them are single bytes |
| `TextOperations.Utf8Counts` | crates/oxigeo-sync/src/ot/text_operation.rs:172-187 | the characters counted in UTF-8 text are the code points encoded, and the text is single-byte exactly if all are ASCII |
| `TextOperations.TextOperation.Apply` | crates/oxigeo-sync/src/ot/text_operation.rs:169-219 | succeeds exactly if the declared length is right, the document has the base length in bytes and consists of single-byte characters; then with the text that the steps make |
| `TextOperations.PerformIsText` | crates/oxigeo-sync/src/ot/text_operation.rs:180-218 | what is made of a single-byte text is UTF-8 text that starts with a whole character |
| `TextOperations.AppliedMeaning` | crates/oxigeo-sync/src/ot/text_operation.rs:169-219 | in terms of the operations: stretches of the document kept, texts put in and stretches left out, or a failure |
| `TextOperations.TextOperation.TransformAgainst` | crates/oxigeo-sync/src/ot/text_operation.rs:249-366 | fails exactly on undeclared or unequal base lengths; otherwise the loop over stretches has the specified steps and keeps its lengths |
| `TextOperations.TransformPair` | crates/oxigeo-sync/src/ot/composer.rs:84-91 | both operands transformed against each other, the first with priority, or neither |
| `TextOperations.TransformedLength` | crates/oxigeo-sync/src/ot/text_operation.rs:299-356 | the transformed operation takes up what the other leaves and, in excess, each byte that it keeps and the other deletes |
| `TextOperations.TransformedMerges` | crates/oxigeo-sync/src/ot/text_operation.rs:265-363 | where it applies, the transformed operation leads to the merge of both edits: all insertions, the first side first at the same place, and the bytes that both keep |
| `TextOperations.TransformedInserts` | crates/oxigeo-sync/src/ot/text_operation.rs:279-293 | transforming keeps exactly what is inserted |
| `TextOperations.BothWaysMeet` | crates/oxigeo-sync/src/ot/composer.rs:69-74 | if both delete the same bytes, both ways around lead to the same text |
| `TextOperations.ConvergesIff` | crates/oxigeo-sync/src/ot/composer.rs:69-74 | for concurrent operations and any document they apply to, both ways around succeed with the same text if and only if both delete the same bytes and insert single-byte characters only |
| `TextOperations.EditConcurrently` | crates/oxigeo-sync/src/ot/text_operation.rs:664-685 | two sites that apply their own operation and then the transformed other end with the same text, on any document, if and only if both operations are for its length, delete the same bytes, and all text is single-byte; that text is the merge, with the first operation's insertions first |
| `TextOperations.KeepAgainstDrop` | crates/oxigeo-sync/src/ot/text_operation.rs:327-329 | retaining one byte against deleting it: one way leaves the empty text, the other fails |
| `TextOperations.TextOperation.Compose` | crates/oxigeo-sync/src/ot/text_operation.rs:368-478 | fails exactly on undeclared lengths or unequal target and base length, panics exactly if some operation of the second ends inside an inserted character, and otherwise has the specified steps; correct lengths stay correct |
| `TextOperations.PanicNeedsWide` | crates/oxigeo-sync/src/ot/text_operation.rs:427-428 | composing after single-byte insertions never panics |
| `TextOperations.ComposedPerforms` | crates/oxigeo-sync/src/ot/mod.rs:57-60 | the composed steps make of every document what the two in turn make of it |
| `TextOperations.ComposeIff` | crates/oxigeo-sync/src/ot/mod.rs:57-60 | applying the composed operation gives the same outcome as applying the two in turn, failures included, if and only if the first inserts single-byte characters only or does not apply |
| `TextOperations.TextOperation.Invert` | crates/oxigeo-sync/src/ot/text_operation.rs:480-504 | fails exactly on a wrong declared length; otherwise keeps what was kept, deletes what was inserted and nothing else, with the two lengths exchanged; of an operation that was built, the result has correct lengths and stretches exactly if nothing was deleted |
| `TextOperations.InverseLength` | crates/oxigeo-sync/src/ot/text_operation.rs:483-485 | the inverse takes up what the operation left, and leaves what it took up exactly if it deleted nothing |
| `TextOperations.InversePerforms` | crates/oxigeo-sync/src/ot/text_operation.rs:487-500 | the inverse brings back exactly the bytes that were kept |
| `TextOperations.InvertUndoesIff` | crates/oxigeo-sync/src/ot/mod.rs:71-78 | on any document it applies to, applying an operation and then its inverse gives the document back if and only if it deletes nothing and inserts single-byte characters only |

## Left out

Arithmetic
- IEEE rounding, overflow and NaN in the Rust kernels: they are over exact reals, as is the `max = min + 1` of a flat scene. For the Gaussian kernel this is exact, since inputs are bytes and weights sixteenths.
- The non-finite guard at the top of the eigenvalue solver: every real is finite.
- sqrt, cos, sin, acos and pi are parameters; their textbook laws (`RealFunctions.Lawful`) are hypotheses of the lemmas that need them, not proved from a construction of the functions.
- Statistics.VarianceOf and Statistics.CovarianceOf: the NaN that an empty series gives is the value None.
- Rounding of `x * total / width` in the strip: JavaScript doubles are exact here while the product stays below 2 to the power 53.
- The canvas geometry of discrete cells and the hairline gaps; `Draw` returns states, not rectangles.
- Rounding of elevation samples to 32-bit floats.

Publish scripts
- Running `cargo metadata`, file access, arguments, the rendered header and `--check`.
- Workspace.DependsMeaning: with repeated package or node ids, which Cargo does not emit, the last one counts, in the model as in the scripts; the statement in terms of the metadata is for unique ids.
- Workspace.BuildGraph: assumes distinct names of workspace members, as Cargo enforces; with equal names the scripts' result would depend on set iteration order.
- GenPublishOrder.ReleaseDependents: the deque and the dictionaries are values that the method reassigns.
- The verifier's run without an external script, which only prints the order.

WKB
- Wkb.SridOnCounted: for Multi* geometries and collections it bounds the number of parts read but does not say which of them, with an SRID present, happen to decode to themselves, because the four bytes shift the byte order marks of the parts onto arbitrary data.
- An SRID inside a nested geometry.
- A float64 is its eight bytes, so different NaN payloads count as different.
- Stack overflow on very deep nesting, which the code turns into "no geometry".
- Hexadecimal input (`hexToBytes`).

Range server and client
- What the standard library does for a directory or a missing path is a parameter: a page that it hands back to be copied, or an answer that it sends itself and that is not looked into. A file that changes between the size query and the reads; HEAD requests.
- Non-ASCII decimal digits and a trailing newline, which the server's pattern would also accept; stripping of the header value.
- The body reader's fallback without streams, cache storage that is missing or fails, and decoding of the footer inside WASM.
- FooterClient.Client.OpenDataset: chunking of the received body is an arbitrary function that loses no bytes; the server is the modelled one, on one file version per opening.

Tiles
- The worker's prefetching, metadata and error messages; a viewer is a function of url and coordinates, and a tile is a value: messages are posted without a transfer list, so cached buffers are copied, not given away.
- TileCache.Worker.ViewerOpened: viewers are represented by their url, two concurrent openings of one url giving equal viewers. The loads under way, which the JavaScript runtime keeps, are a field of the worker.
- Progress messages and tile size zero. A read error aborts the plain stitch and is not modelled there; it is in the masked one.

Vault
- Hashing, signatures and JSON: the session is an append-only list with a last noted pair of totals. An append to an unsealed session succeeds.
- The guards' classification of urls, the ledger's rendering and the verification dialog.
- The part of `initVault` before the session object exists, and the interface updates after it.

Text operations
- TextOperations.TextOperation.Compose: an operation with an empty insertion, as `invert` makes one from a deletion, may be composed second, transformed or inverted, but composing it first is not covered: the order of the steps would then depend on the empty insertion.
- TextOperations.TextOperation.Apply: for operations with a correct base length, so that the final check for unconsumed input never fires (`NothingLeftOver`) and is not written out.
- TextOperations.TextOperation.TransformAgainst: the operation vectors are values that the loop shortens, where the code counts indices up.
- Operations read back from their serialised form, which may hold empty stretches, unmerged neighbours or wrong lengths.
- Lengths past the machine's word size; error messages; `is_noop` and the accessors.
- The fold of `OperationComposer`, which calls `compose` along a list.

Elsewhere in the repository
- The other data types of `oxigeo-sync`: replicated types, vector clocks, Merkle trees, deltas.
- Everything behind the WASM boundary and in crates that are not among the modelled files; the benchmark drivers; the classification pipeline that depends on a spatial index; user interface, maps, downloads and reports.
