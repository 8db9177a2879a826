# jun-simulate capture geometry, in Dafny

A model of the capture-region core of jun-simulate. The simulator places receivers among radio transmitters. A transmitter `t1` is *captured* at a point when its signal there is strong enough to be received despite a second transmitter `t2`. For a capture ratio β this region is a disk, the *capture disk* of the ordered pair `(t1, t2)`.

The model covers the following:

- **Capture-disk construction** (`generateCaptureDisk`, module `CaptureGeometry`). The disk is the Apollonius circle of the two positions. `t1` is strictly inside it, `t2` strictly outside, and a point is inside exactly when it is closer to `t1` than β times its distance to `t2`.
- **Intersection of two capture disks** (`generateIntersections`, module `Intersections`). The standard chord construction gives two candidates. Each lies on both circles, and every common point is one of them. Candidates outside the universe rectangle are dropped.
- **Disk identity** (`CaptureDisk.equals`/`hashCode`, module `CaptureDisks`). A disk is equal to another when their transmitter pairs match, else when their circles do. The hash looks at the circle alone.
- **Per-receiver contention count** (`Receiver.draw`, module `Receivers`). The covering disks are tallied by captured transmitter, and the receiver is labelled `R<disks>/<distinct transmitters>`.
- **Deterministic set-up in `Main`** (module `Setup`). This covers the output path, experiment and distribution selection from configuration strings, the sanitising of each distribution's parameters, and the statistics array.
- **The `java.lang.String` operations these rely on** (module `JavaStrings`): `trim`, `startsWith`, `equalsIgnoreCase`, `split("\\s")` and decimal rendering.

Arithmetic is exact: `double` and `float` become `real`. Distances are compared squared. Where the source calls `Math.sqrt`, the caller passes a witness `s` with `IsSqrt(s, v)` (`s >= 0` and `s * s == v`), and `Geometry.SqrtUnique` shows that the witness is the square root.

The code's NaN tests become explicit guards: a zero distance between the centres, or a negative squared half chord.

β is the capture ratio, meant to lie in (0, 1), but the code never checks it. So `GenerateCaptureDisk` requires only β² ≠ 1, which the code needs to avoid a division by zero. The geometric lemmas state the range they need.

## Model

| member | source | states |
|---|---|---|
| CaptureDisks.Transmitter.AddDisk | src/main/java/edu/rutgers/winlab/junsim/Main.java:673 | registering a disk appends exactly that disk to the transmitter's list |
| CaptureDisks.CaptureDisk.constructor | src/main/java/edu/rutgers/winlab/junsim/Main.java:646-649 | a new disk holds the given circle and the given ordered pair |
| CaptureDisks.CaptureDisk.Equals | src/main/java/edu/rutgers/winlab/junsim/CaptureDisk.java:50-55 | a disk equals itself and every disk with the same circle; disks with different circles are equal only when both transmitters sit at the same positions |
| CaptureDisks.CaptureDisk.EqualsObject | src/main/java/edu/rutgers/winlab/junsim/CaptureDisk.java:43-48 | `equals(Object)` can hold only for a capture disk, and for one it is exactly the typed `equals` |
| CaptureDisks.CaptureDisk.HashCode | src/main/java/edu/rutgers/winlab/junsim/CaptureDisk.java:65-67 | the hash code is the circle's hash and depends on nothing else |
| CaptureDisks.SameTransmitterIsEquivalence | src/main/java/edu/rutgers/winlab/junsim/CaptureDisk.java:50-53 | transmitter equality, on which disk equality rests, is reflexive, symmetric and transitive |
| CaptureDisks.EqualByPair | src/main/java/edu/rutgers/winlab/junsim/CaptureDisk.java:50-53 | disks over equal (t1, t2) pairs are equal whatever their circles |
| CaptureDisks.EqualWhenPairsDiffer | src/main/java/edu/rutgers/winlab/junsim/CaptureDisk.java:50-55 | when the pairs differ, disks are equal exactly when their circles are |
| CaptureDisks.EqualsReflexiveSymmetric | src/main/java/edu/rutgers/winlab/junsim/CaptureDisk.java:50-55 | every disk equals itself, and equality is symmetric |
| CaptureDisks.EqualsNotTransitive | src/main/java/edu/rutgers/winlab/junsim/CaptureDisk.java:50-55 | three disks exist with c = m and m = o but c ≠ o: equality is not transitive |
| CaptureDisks.EqualsObjectDelegates | src/main/java/edu/rutgers/winlab/junsim/CaptureDisk.java:43-48 | `equals(Object)` agrees with the typed `equals` on a disk and is false for any other object |
| CaptureDisks.HashFollowsGeometry | src/main/java/edu/rutgers/winlab/junsim/CaptureDisk.java:65-67 | equal circles give equal hash codes |
| CaptureDisks.HashDisagreesWithEquals | src/main/java/edu/rutgers/winlab/junsim/CaptureDisk.java:50-67 | whenever the circle hash separates two circles, there are equal disks with different hash codes |
| CaptureGeometry.CaptureCircle | src/main/java/edu/rutgers/winlab/junsim/Main.java:650-671 | the circle's centre and radius, multiplied by 1 − β², are P1 − β²·P2 and β·d |
| CaptureGeometry.CaptureCircleIdentity | src/main/java/edu/rutgers/winlab/junsim/Main.java:650-671 | for every point q, (1 − β²)(\|q − C\|² − r²) = \|q − P1\|² − β²\|q − P2\|² |
| CaptureGeometry.CaptureRegion | src/main/java/edu/rutgers/winlab/junsim/Main.java:650-671 | for β² < 1, q is strictly inside, on or strictly outside the disk exactly when \|q − P1\|² is <, = or > β²\|q − P2\|² |
| CaptureGeometry.CaptureDiskSeparatesPair | src/main/java/edu/rutgers/winlab/junsim/Main.java:650-671 | for 0 < β < 1 and P1 ≠ P2: P1 strictly inside, P2 strictly outside, radius positive |
| CaptureGeometry.GeneratedDisksHashConsistently | src/main/java/edu/rutgers/winlab/junsim/CaptureDisk.java:50-67 | among disks built with one β, equal disks have equal circles and so equal hash codes |
| CaptureGeometry.GenerateCaptureDisk | src/main/java/edu/rutgers/winlab/junsim/Main.java:641-676 | no disk exactly when the pair is equal or more than 2·maxRange apart (the test is strict); otherwise a fresh disk for (t1, t2) with the Apollonius circle, appended to t1's disks; t2 is never changed and t1 is unchanged on the no-disk paths |
| Intersections.Along | src/main/java/edu/rutgers/winlab/junsim/Main.java:701 | the foot of the common chord is where both circles leave the same squared half chord: r1² − a² = r2² − (d − a)², with 2·d·a = r1² − r2² + d² |
| Intersections.HeightSq | src/main/java/edu/rutgers/winlab/junsim/Main.java:701-708 | 4d² times the squared half chord is Heron's product (d + r2 − r1)(r1 + r2 − d)(d + r1 − r2)(r1 + r2 + d) |
| Intersections.Candidates | src/main/java/edu/rutgers/winlab/junsim/Main.java:710-721 | the first candidate is reached from c1 by a along c1 → c2 and h across it, the second by a along and −h across |
| Intersections.CandidatesOnBothCircles | src/main/java/edu/rutgers/winlab/junsim/Main.java:701-721 | for d > 0 and h² = r1² − a², both candidates lie on both circles |
| Intersections.CommonPointGivesHeight | src/main/java/edu/rutgers/winlab/junsim/Main.java:701-708 | if the circles share a point, the squared half chord is not negative, so `Math.sqrt` gives no NaN |
| Intersections.CommonPointCoordinates | src/main/java/edu/rutgers/winlab/junsim/Main.java:701-714 | a common point lies at distance a along c1 → c2 from c1, and its offset across is a square root of r1² − a² |
| Intersections.CommonPointIsCandidate | src/main/java/edu/rutgers/winlab/junsim/Main.java:701-721 | every point on both circles is one of the two candidates, so the construction misses none |
| Intersections.HeightSqSign | src/main/java/edu/rutgers/winlab/junsim/Main.java:701-708 | for d > 0 and non-negative radii, r1² − a² ≥ 0 exactly when \|r1 − r2\| ≤ d ≤ r1 + r2 |
| Intersections.HeightSqPositive | src/main/java/edu/rutgers/winlab/junsim/Main.java:701-708 | for d > 0 and non-negative radii, r1² − a² > 0 exactly when \|r1 − r2\| < d < r1 + r2 |
| Intersections.CrossingCirclesGiveTwoPoints | src/main/java/edu/rutgers/winlab/junsim/Main.java:708-721 | circles with \|r1 − r2\| < d < r1 + r2 give two different candidates |
| Intersections.TangentCandidatesCoincide | src/main/java/edu/rutgers/winlab/junsim/Main.java:716-721 | with h = 0 the two candidates are the same point |
| Intersections.CandidatesDistinct | src/main/java/edu/rutgers/winlab/junsim/Main.java:716-721 | with h ≠ 0 the two candidates differ |
| Intersections.Kept | src/main/java/edu/rutgers/winlab/junsim/Main.java:728-737 | clipping keeps only points in [0, W]×[0, H], keeps all of those, and never adds points |
| Intersections.KeptPreservesOrder | src/main/java/edu/rutgers/winlab/junsim/Main.java:728-737 | clipping keeps the order of the points it keeps |
| Intersections.TangentPointReportedTwice | src/main/java/edu/rutgers/winlab/junsim/Main.java:728-737 | a tangent pair whose touching point is in the universe reports that point twice |
| Intersections.GenerateIntersections | src/main/java/edu/rutgers/winlab/junsim/Main.java:688-738 | `None` exactly when the disks are equal, d > r1 + r2, d = 0 or r1² − a² < 0; otherwise the in-universe candidates, (x4i, y4i) first, at most two, each on both circles, including every common point in the universe |
| JavaStrings.Trim | src/main/java/edu/rutgers/winlab/junsim/Main.java:783 | `trim` keeps an infix and drops only characters ≤ U+0020 around it; the infix neither starts nor ends with one; the result is empty exactly when every character is ≤ U+0020 |
| JavaStrings.TrimIdempotent | src/main/java/edu/rutgers/winlab/junsim/Main.java:783 | trimming a trimmed string changes nothing |
| JavaStrings.Split | src/main/java/edu/rutgers/winlab/junsim/Main.java:213-214 | `split("\\s")` returns a whitespace-free string whole; otherwise it returns the pieces between whitespace characters, in order, less the trailing empty ones: no more than the separators plus one, none containing whitespace, the last one non-empty |
| JavaStrings.PiecesJoin | src/main/java/edu/rutgers/winlab/junsim/Main.java:213-214 | putting the whitespace characters back between the pieces gives the string back |
| JavaStrings.StartsWith | src/main/java/edu/rutgers/winlab/junsim/Main.java:209 | `startsWith` holds exactly when the string is the prefix followed by something |
| JavaStrings.EqualsIgnoreCase | src/main/java/edu/rutgers/winlab/junsim/Main.java:292 | `equalsIgnoreCase` holds exactly when the two strings are equal once every letter is folded to lower case |
| JavaStrings.SplitThreeWords | src/main/java/edu/rutgers/winlab/junsim/Main.java:213-219 | three words joined by single spaces, the last non-empty, split back into those three words |
| JavaStrings.NatToString | src/main/java/edu/rutgers/winlab/junsim/Receiver.java:153-154 | an `int` ≥ 0 in a string concatenation renders as decimal digits with no leading zero |
| JavaStrings.RenderInjective | src/main/java/edu/rutgers/winlab/junsim/Receiver.java:153-154 | different numbers render differently, by the parse-after-render round trip `ParseRendered` |
| Setup.BuildPath | src/main/java/edu/rutgers/winlab/junsim/Main.java:782-788 | the result ends with the path; it is the path alone exactly when the base path is only whitespace; otherwise trimmed base + separator + path |
| Setup.BuildPathTrimsBase | src/main/java/edu/rutgers/winlab/junsim/Main.java:782-788 | a base path that is already trimmed builds the same path |
| Setup.SelectExperiment | src/main/java/edu/rutgers/winlab/junsim/Main.java:291-300 | each of "binned", "grid" and "recursive" is selected exactly when the type equals it ignoring case; anything else is the basic experiment |
| Setup.SelectExperimentIgnoresCase | src/main/java/edu/rutgers/winlab/junsim/Main.java:291-300 | names that differ only in letter case select the same experiment |
| Setup.Parameter | src/main/java/edu/rutgers/winlab/junsim/Main.java:230-234 | a present, non-empty word is parsed; otherwise the default is used |
| Setup.ClusteredFrom | src/main/java/edu/rutgers/winlab/junsim/Main.java:211-221 | with no non-empty second word, (0.5, 0.1); otherwise the probability is the parsed second word and the radius the parsed non-empty third word, or 0.1 without one; `None` exactly when one of the words it reads fails to parse |
| Setup.SelectDistribution | src/main/java/edu/rutgers/winlab/junsim/Main.java:209-272 | the first matching prefix among clustered, rectangled, circled and sine decides the distribution; any other name is uniform; a clustered name is read as `ClusteredFrom` says; the other three take the parsed non-empty second word, or a tenth (a fifth for sine) of the shorter square side without one, and are `None` exactly when that word fails to parse |
| Setup.DefaultClustered | src/main/java/edu/rutgers/winlab/junsim/Main.java:209-223 | "clustered" alone gives probability 0.5 and radius 0.1 |
| Setup.DefaultRectangled | src/main/java/edu/rutgers/winlab/junsim/Main.java:225-238 | "rectangled" alone gives a width of a tenth of the shorter square side |
| Setup.DefaultCircled | src/main/java/edu/rutgers/winlab/junsim/Main.java:240-252 | "circled" alone gives a width of a tenth of the shorter square side |
| Setup.DefaultSine | src/main/java/edu/rutgers/winlab/junsim/Main.java:254-266 | "sine" alone gives a radius of a fifth of the shorter square side |
| Setup.ClusteredParameters | src/main/java/edu/rutgers/winlab/junsim/Main.java:211-221 | "clustered p r" with both numbers parseable gives exactly those two parameters |
| Setup.ClusteredProbabilityOnly | src/main/java/edu/rutgers/winlab/junsim/Main.java:211-221 | "clustered p" reads the probability and keeps the default radius 0.1 |
| Setup.SineParameter | src/main/java/edu/rutgers/winlab/junsim/Main.java:254-264 | "sine r" with r parseable gives radius r |
| Setup.RectangledParameter | src/main/java/edu/rutgers/winlab/junsim/Main.java:225-237 | "rectangled w" with w parseable gives width w |
| Setup.CircledParameter | src/main/java/edu/rutgers/winlab/junsim/Main.java:240-251 | "circled w" with w parseable gives width w |
| Setup.ClusterProbability | src/main/java/edu/rutgers/winlab/junsim/Main.java:403-408 | the probability lands in [0, 1], is unchanged when already there, and is the point of [0, 1] nearest the request |
| Setup.ClusterRadius | src/main/java/edu/rutgers/winlab/junsim/Main.java:409-414 | the radius fraction lands in [0, 1], is unchanged when already there; a negative request gives 0.1 and one above 1 gives 1 |
| Setup.ClusterSanitisingIdempotent | src/main/java/edu/rutgers/winlab/junsim/Main.java:403-414 | sanitising an already sanitised probability or radius changes nothing |
| Setup.ClusterProbabilityMonotone | src/main/java/edu/rutgers/winlab/junsim/Main.java:403-408 | a larger requested probability never gives a smaller one |
| Setup.BandWidth | src/main/java/edu/rutgers/winlab/junsim/Main.java:466-474 | the width never exceeds half the shorter side, is unchanged when already in (0, that half], becomes exactly that half when larger, a non-positive one becomes min(1, that half), and it is positive for a square with positive sides |
| Setup.BandWidthIdempotent | src/main/java/edu/rutgers/winlab/junsim/Main.java:512-520 | for the circled generator too (which uses the same clamp), sanitising a sanitised width changes nothing |
| Setup.SineRadius | src/main/java/edu/rutgers/winlab/junsim/Main.java:570-578 | the radius never exceeds a quarter of the shorter side, is kept when in [0, that quarter], and otherwise becomes that quarter |
| Setup.SineRadiusIdempotent | src/main/java/edu/rutgers/winlab/junsim/Main.java:570-578 | sanitising a sanitised radius changes nothing |
| Setup.SquareClampAsWritten | src/main/java/edu/rutgers/winlab/junsim/Main.java:436-446 | as written, a coordinate in [offset, offset + size] is kept, one below the offset becomes the offset, and one beyond the far edge becomes `size` |
| Setup.AsWrittenLeavesSquare | src/main/java/edu/rutgers/winlab/junsim/Main.java:436-446 | as written, when the square's side is less than its offset, a coordinate beyond the far edge is moved outside the square |
| Setup.AsWrittenExample | src/main/java/edu/rutgers/winlab/junsim/Main.java:436-446 | a 100-wide square in a 400-wide universe: coordinate 260 is clamped to 100, outside [150, 250] |
| Setup.AsWrittenSineExample | src/main/java/edu/rutgers/winlab/junsim/Main.java:613-623 | in the sine-wave generator's copy of the clamp, with the same square, x = 251 is clamped to 100, outside [150, 250] |
| Setup.SquareClamp | src/main/java/edu/rutgers/winlab/junsim/Main.java:436-446 | the intended clamp lands in [offset, offset + size], keeps values already there, and picks the nearest point of the square |
| Setup.ClampsAgree | src/main/java/edu/rutgers/winlab/junsim/Main.java:613-623 | the written and intended clamps agree exactly when the far edge is not crossed or the offset is 0 |
| Setup.SquareClampIdempotent | src/main/java/edu/rutgers/winlab/junsim/Main.java:436-446 | clamping a clamped coordinate changes nothing |
| Setup.InitStats | src/main/java/edu/rutgers/winlab/junsim/Main.java:193-199 | one fresh, distinct record per receiver count: record i has i + 1 receivers, and its transmitter count is the configured number when positions are generated, else the number loaded |
| Receivers.Receiver.CoverageCounts | src/main/java/edu/rutgers/winlab/junsim/Receiver.java:83-93 | the tally's keys are exactly the captured transmitters; each value counts that transmitter's disks and is ≥ 1; the values sum to the number of disks; the coverage count is the number of keys, ≤ the number of disks and 0 exactly when there are none; the disk list is untouched |
| Receivers.Receiver.DrawnLabel | src/main/java/edu/rutgers/winlab/junsim/Receiver.java:153-154 | the label is built from the number of covering disks and the number of distinct captured transmitters |
| Receivers.CountPositive | src/main/java/edu/rutgers/winlab/junsim/Receiver.java:85-91 | a transmitter's count is positive exactly when some disk captures it |
| Receivers.CapturedBound | src/main/java/edu/rutgers/winlab/junsim/Receiver.java:85-93 | there are no more distinct captured transmitters than disks |
| Receivers.CapturedEmpty | src/main/java/edu/rutgers/winlab/junsim/Receiver.java:85-93 | no transmitter is captured exactly when there are no disks |
| Receivers.DistinctLists | src/main/java/edu/rutgers/winlab/junsim/Receiver.java:85-93 | the first-capture order lists each captured transmitter exactly once |
| Receivers.CountsSumToSize | src/main/java/edu/rutgers/winlab/junsim/Receiver.java:85-93 | the counts over all captured transmitters add up to the number of disks |
| Receivers.TallyStep | src/main/java/edu/rutgers/winlab/junsim/Receiver.java:86-90 | one loop step turns the tally of the first i disks into the tally of the first i + 1 |
| Receivers.Label | src/main/java/edu/rutgers/winlab/junsim/Receiver.java:153-154 | the label starts with "R" and has at least four characters |
| Receivers.LabelInjective | src/main/java/edu/rutgers/winlab/junsim/Receiver.java:153-154 | the label determines both counts: different (disks, coverage) pairs never share a label |

## Left out

- Floating point. The `(float)` casts, `Math.pow`, IEEE rounding, infinities and NaN propagation are all replaced by exact reals with explicit guards.
- CaptureGeometry.GenerateCaptureDisk: requires β² ≠ 1. With β² = 1 the source divides by zero and stores infinite or NaN coordinates, which this model does not represent.
- Square roots are not computed. The caller supplies `d` and `h` as witnesses for them.
- `Transmitter.java` is not part of this model.
  - Transmitter equality is taken as equality of coordinates (a transmitter is a `Point2D`).
  - `addDisk` is taken as an append to the transmitter's disk list.
  - Float-specific `Point2D.equals` details (−0.0, NaN) are left out.
- The `Circle` class is not part of this model. Its equality is value equality of centre and radius, and its hash function is the parameter `circleHash`.
- `Float.parseFloat` and `File.separator` are parameters. `None` from `parseFloat` stands for the `NumberFormatException` it throws.
- JavaStrings.EqualsIgnoreCase folds ASCII letters only. Java's Unicode case mapping is not modelled.
- Only the `\s` pattern of `String.split` is modelled.
- A `null` experiment type is not modelled. It would select the basic experiment.
- Java `int` overflow in counts, sizes and the `i + 1` of the statistics loop is not modelled. These are unbounded naturals here.
- Random transmitter placement is left out. It covers uniform, clustered, rectangled, circled and sine, and includes the branch that regenerates uniform positions when positions are loaded from file. It depends on `java.util.Random`, `Math.cos` and `Math.sin`, and some rejection loops end only with probability 1. Only the parameter sanitising before the draw and the coordinate clamp after it are modelled.
- I/O and plumbing are left out: reading transmitters from file, writing results, configuration loading, the thread pool, image saving and all drawing, including the rest of `Receiver.draw`, `CaptureDisk.draw` and `DisplayPanel.java`.
- The experiments are left out: the greedy placement engine, the binned, grid and recursive variants, and the `ExperimentStats` reducers. Their code is not part of this model. The experiment is modelled as the choice of its kind, and a statistics record as the two fields that set-up fills.
- Setup.InitStats: takes the receiver count as a natural number. A negative configured count makes `new ExperimentStats[...]` throw `NegativeArraySizeException`, and that error path is not modelled.
- `LinkedList` and `HashMap` become `seq` and `map`. HashMap iteration order is not observable in the modelled code.

## Findings

| source | as written | input that shows it | evidently intended | confidence | as-written member | corrected member |
|---|---|---|---|---|---|---|
| src/main/java/edu/rutgers/winlab/junsim/Main.java:436-446 | a clustered transmitter beyond the square's far edge gets coordinate `squareWidth` (`squareHeight` for y) | universeWidth 400, squareWidth 100 (xOffset 150), coordinate 260: clamped to 100, outside the square [150, 250] | clamp to the far edge `squareWidth + xOffset`, as the near edge is clamped to `xOffset` | high, not executed | Setup.AsWrittenLeavesSquare | Setup.SquareClamp |
| src/main/java/edu/rutgers/winlab/junsim/Main.java:613-623 | the sine-wave generator repeats the same clamp | the same square: the right half-wave reaches x up to 150 + 75 + 25 + 1.25 = 251.25, and x = 251 is clamped to 100, outside [150, 250] | the same far-edge clamp | high, not executed | Setup.AsWrittenSineExample | Setup.SquareClamp |
