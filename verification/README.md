# Proofs about the coursework repository

This project models the algorithmic core of the repository in Dafny and proves what it is meant to
do: k-means with its decision tree, five interpolation formulas, polynomial least squares, the
solvers for ordinary differential equations, a stream cipher and a grille cipher, the certificate
database of `openssl ca`, and the route collection with its token parser.

`dafny verify dfyconfig.toml` checks everything.

| file | what it covers |
|---|---|
| `Ranges.dfy`, `Counting.dfy`, `Wrappers.dfy` | sums and products over index ranges, the pigeonhole principle, `Option` |
| `Interpolation.dfy`, `EquispacedInterpolation.dfy`, `GaussInterpolation.dfy` | `vmath/vmath5/interpolate.py` |
| `LeastSquares.dfy` | `vmath/vmath4/approximation.py` |
| `Differential.dfy`, `DifferentialExactness.dfy` | `vmath/vmath6/differential.py` |
| `KMeans.dfy`, `ClusterTree.dfy`, `TreeAnswers.dfy` | `ai/mod2/k-means-tree` |
| `Lfsr.dfy`, `StreamCipher.dfy`, `KeyStream.dfy`, `Cardan.dfy` | `information_security/crypto/endec/src` |
| `CaRevocation.dfy`, `CaDatabase.dfy` | `soa/lab3/haproxy/openssl/apps/ca.c` |
| `JsonTokens.dfy`, `Routes.dfy`, `SavedRoutes.dfy` | `programming/ProgLab5` |

## How the source is represented

- Floating-point numbers are exact reals. A numpy column slice `xy[:, lo:hi]` is passed as its bounds.
  `Times` is the product under a name; proofs that only move products around hide its body.
- A `u128` and a `u8` are the sequences of their bits, bit 0 first; Java's `int` counter wraps around.
- Loops over arrays, lists and fields are methods with loops; each is proved against a function that
  is defined apart from it, and the properties are lemmas about that function.
- `np.linalg.solve`, the gain of the tree, the stopping distance of k-means, random symbols, the clock
  and the ASN.1 library are parameters or arbitrary values. What is asked of them is written in the
  `requires` clauses (`SolverContract`, `Chooses`, `Lipschitz`, `JavaNumbers`) and nowhere else.
- Moduli in `compareTo` are compared through their squares, because the root is increasing.
- Printing and reading of numbers in a saved file is a parameter; `JavaNumbers` says what Java promises of it:
  doubles from 0.001 to 10000000 and all integers are read as printed, other doubles carry an exponent.

## Where the code does less than its purpose

- `Pn` left of the middle node pairs the products of the backward formula with the rows of the forward
  one. `GaussInterpolation.Pn` states the exact error; `LeftBranchRightForAllValues` shows that it
  vanishes for all values only on two nodes.
- `Adams` scales the differences by powers of the step and is exact on cubics for step one only:
  `AdamsOtherStep`.
- The corrector loop of `Miln` runs for ever on f(x, y) = c*y when |h*c/3| >= 1 and the predicted value is
  not yet close: `LinearCorrectorStops`.
- `encode` of the grille never returns when no position is open and the message is not empty:
  `EncodeEndsIff`, with `OpenIffKeyBit` for the keys concerned.
- The gain divides by zero on a constant column, so the tree cannot be built from all data: for every choice of
  attributes it can if and only if, wherever two rows of different labels agree on a column, a third row agrees
  with them on their other common columns and differs on this one (`TreeBuiltIff`). `ConstantColumnFails` is the
  case of one node, `FailsBelowTheRoot` an input that fails only after a split.
- A revocation recorded after 2049 carries a GeneralizedTime, which the next start-up check refuses:
  `RevokeKeepsSound`, `RunSoundIff` and `UnpackRestores` are equivalences in the kind of time.
- The route counter wraps after 2147483647: `StepKeepsGood` and `RunKeepsGood` are equivalences.
- The parser reads a quoted text that contains "null" as null and drops exponents (`StringKeptIff`,
  `NumberKeptIff`). A saved route with such a name is lost and one with such a number changes or is lost; the
  saved list comes back as it was if and only if there are none (`ReloadRestoresIff`, `NullableIsLost`,
  `LongRouteChanges`).

## Model

| member | source | states |
|---|---|---|
| `Interpolation.Grow` | vmath/vmath5/interpolate.py:6-7 | a window of nodes that grows by one node on either side changes Lagrange's value by exactly one Newton term |
| `Interpolation.DividedDifferenceIsSymmetric` | vmath/vmath5/interpolate.py:11-17 | the recursive divided difference is the symmetric sum y_i over the product of x_i - x_j, so the order of the nodes does not enter it |
| `Interpolation.NewtonIsLagrange` | vmath/vmath5/interpolate.py:6-18 | for every table with distinct nodes and every x, Newton's form equals Lagrange's |
| `Interpolation.LagrangeReproduces` | vmath/vmath5/interpolate.py:6-7 | Lagrange's form on any window returns y_k at x_k for every node of the window |
| `Interpolation.GeneralFormsReproduce` | vmath/vmath5/interpolate.py:6-18 | both general forms return y_k at x_k |
| `EquispacedInterpolation.Dy` | vmath/vmath5/interpolate.py:21-27 | the loops fill the table with all finite differences and leave zero where none exists |
| `EquispacedInterpolation.DeltaIsDividedDifference` | vmath/vmath5/interpolate.py:17-26 | the table entry (j, k) is the divided difference of the nodes j to j+k times k! h^k |
| `EquispacedInterpolation.Search` | vmath/vmath5/interpolate.py:32-34 | the search ends with 0 <= start <= n-2, all nodes after the first up to start below x, and x not above the next node unless it is the last |
| `EquispacedInterpolation.Nnh` | vmath/vmath5/interpolate.py:30-42 | the left branch equals Lagrange's form on the nodes from start on, the right branch on all nodes, for steps of either sign |
| `EquispacedInterpolation.NnhReproduces` | vmath/vmath5/interpolate.py:30-42 | every table value is reproduced exactly |
| `GaussInterpolation.Pn` | vmath/vmath5/interpolate.py:45-61 | from the middle node on, Lagrange's form on all nodes (odd number) or all but the first (even number); left of it that value plus LeftDefect |
| `GaussInterpolation.LeftValueThreeNodes` | vmath/vmath5/interpolate.py:56-61 | on three nodes the left branch gives 2 y_1 - y_2 at the first node instead of y_0 |
| `GaussInterpolation.LeftDefectFewNodes` | vmath/vmath5/interpolate.py:48-61 | on three or four nodes the left branch is right exactly when the central second difference is zero |
| `GaussInterpolation.LeftDefectVanishes` | vmath/vmath5/interpolate.py:48-61 | the left branch is right when all central differences of even order vanish |
| `GaussInterpolation.LeftBranchRightForAllValues` | vmath/vmath5/interpolate.py:48-61 | for given nodes and x left of the middle it is right for every column of values if and only if there are at most two nodes |
| `LeastSquares.LeastSquares.Polynomial` | vmath/vmath4/approximation.py:17-23 | when the solver succeeds the fit has no residual moment up to order m, x_aprx holds its values, and S is the sum of its squared deviations and at most that of any coefficients of the degree; otherwise nothing changes |
| `LeastSquares.SolutionIsNormalFit` | vmath/vmath4/approximation.py:18-22 | a solution of the system sliced from the power sums, flipped, leaves residuals orthogonal to 1, x, ..., x^m |
| `LeastSquares.Pythagoras` | vmath/vmath4/approximation.py:17-23 | S(b) = S(a) + sum (p_b(x_i) - p_a(x_i))^2 for the fit a and all coefficients b of the same degree |
| `LeastSquares.PolynomialIsOptimal` | vmath/vmath4/approximation.py:68-69 | no coefficients of that degree have a smaller S, and equal S means equal fitted values |
| `LeastSquares.HigherDegreeIsNoWorse` | vmath/vmath4/approximation.py:17-23 | a solved fit of degree m+1 never has a larger S than any fit of degree m |
| `Differential.RK` | vmath/vmath6/differential.py:21-30 | the list holds y0 and then each Runge-Kutta step from its predecessor |
| `Differential.Adams` | vmath/vmath6/differential.py:33-45 | four values by RK, then each value by the Adams extrapolation |
| `Differential.AdamsCorrected` | vmath/vmath6/differential.py:48-63 | predicted values, then corrections in place that read corrected predecessors and all use the last step of the grid |
| `Differential.EnoughRounds` | vmath/vmath6/differential.py:73-75 | a contraction by q below one brings any distance below e after some number of rounds |
| `Differential.CorrectorContracts` | vmath/vmath6/differential.py:72-75 | with \|h\|·L/3 <= q two corrector values are closer than their arguments by the factor q |
| `Differential.Correct` | vmath/vmath6/differential.py:72-76 | the corrector loop terminates from every start value and its result misses the implicit Simpson equation by at most q·e |
| `Differential.Miln` | vmath/vmath6/differential.py:66-77 | four values by RK, every later one within q·e of its implicit Simpson equation |
| `Differential.LinearCorrectorStops` | vmath/vmath6/differential.py:72-76 | for f(x, y) = c·y the loop stops if and only if \|h·c/3\| < 1 or the start value is already within e |
| `DifferentialExactness.RKExact` | vmath/vmath6/differential.py:21-30 | for f a cubic in x alone, RK on any grid returns y0 + P(x_i) - P(x_0) |
| `DifferentialExactness.RKAffineStep` | vmath/vmath6/differential.py:24-29 | for f(x, y) = c·y + g(x) with any c and g, the step of RK in closed form: y times the exponential series up to order four, and the weights of g at the start, in the middle and at the end |
| `DifferentialExactness.RKLinear` | vmath/vmath6/differential.py:21-30 | for f(x, y) = c·y on every grid, y[i] is y0 times the product of 1 + z + z^2/2 + z^3/6 + z^4/24 over the steps, z = c·(x[j] - x[j-1]) |
| `DifferentialExactness.AdamsCorrectedExact` | vmath/vmath6/differential.py:48-63 | the same for AdamsCorrected on every uniform grid |
| `DifferentialExactness.CubicContracts` | vmath/vmath6/differential.py:66-77 | such an f meets the demands of Miln with contraction by zero |
| `DifferentialExactness.MilnExact` | vmath/vmath6/differential.py:66-77 | Miln is exact for such an f on every uniform grid |
| `DifferentialExactness.AdamsStaysOnSolution` | vmath/vmath6/differential.py:35-44 | if a quartic solves y' = f(x, y), f arbitrary off it, Adams with step one stays on it from four values on it |
| `DifferentialExactness.CorrectedStaysOnSolution` | vmath/vmath6/differential.py:50-62 | the same for prediction and correction on every uniform grid |
| `DifferentialExactness.SimpsonStaysOnSolution` | vmath/vmath6/differential.py:72-72 | the next value of such a solution satisfies the implicit equation of Miln |
| `DifferentialExactness.AdamsUnitStepExact` | vmath/vmath6/differential.py:33-45 | Adams is exact for such an f on grids of step one |
| `DifferentialExactness.AdamsOtherStep` | vmath/vmath6/differential.py:43-44 | on f(x, y) = x one Adams step is exact if and only if the step is one or zero |
| `KMeans.NearestCentroid` | ai/mod2/k-means-tree/kmeans.py:49-57 | the label is the first of the centroids at least distance |
| `KMeans.Assign` | ai/mod2/k-means-tree/kmeans.py:47-58 | each cluster holds, in order, the rows whose nearest centroid it is |
| `KMeans.Update` | ai/mod2/k-means-tree/kmeans.py:60-62 | every non-empty cluster's centroid becomes its mean, the others stay |
| `KMeans.ParallelAxis` | ai/mod2/k-means-tree/kmeans.py:62-62 | around any centre the squared errors exceed those around the mean by the number of rows times the squared distance |
| `KMeans.MeanMinimises` | ai/mod2/k-means-tree/kmeans.py:62-62 | the mean is the unique minimiser of the squared errors of a cluster |
| `KMeans.MeansDescend` | ai/mod2/k-means-tree/kmeans.py:60-62 | replacing the centroids by means never raises the SSE and keeps it only when no centroid moves |
| `KMeans.LabelsDescend` | ai/mod2/k-means-tree/kmeans.py:48-58 | no assignment has a smaller SSE than the one to the nearest centroids |
| `KMeans.RoundDescends` | ai/mod2/k-means-tree/kmeans.py:46-63 | a whole round never raises the SSE, and keeps it if and only if no centroid moves |
| `KMeans.SseFalls` | ai/mod2/k-means-tree/kmeans.py:46-65 | along the run the SSE falls from round to round until no centroid moves, as long as no cluster is empty |
| `KMeans.FallingIsShort` | ai/mod2/k-means-tree/kmeans.py:46-65 | a sequence of assignments of falling energy has at most k^n members |
| `KMeans.ClusterCentroids` | ai/mod2/k-means-tree/kmeans.py:44-66 | the loop stops in the first round from the initial centroids that meets an empty cluster or passes the stopping test, within k^n + 1 rounds; it converges if and only if no cluster is empty up to the first passing round, to the centroids of that round, with no larger SSE than at the start |
| `KMeans.Predict` | ai/mod2/k-means-tree/kmeans.py:69-82 | the list of nearest-centroid labels |
| `ClusterTree.CreateNode` | ai/mod2/k-means-tree/tree.py:49-71 | the recursive construction yields the tree of the data frame, or fails where a gain divides by zero |
| `ClusterTree.ConstantColumnFails` | ai/mod2/k-means-tree/tree.py:26-35 | at one node with a constant column the construction fails exactly when two labels differ |
| `ClusterTree.Construct` | ai/mod2/k-means-tree/tree.py:77-85 | the tree built from the k-means labels, all columns and their unique values |
| `ClusterTree.Predict` | ai/mod2/k-means-tree/tree.py:87-94 | the walk with a moving node returns the lookup of each row |
| `ClusterTree.BuildReproduces` | ai/mod2/k-means-tree/tree.py:49-71 | without a depth limit every row used in the construction is looked up to its own label, whatever attributes were picked |
| `ClusterTree.BuildsIffSeparable` | ai/mod2/k-means-tree/tree.py:34-71 | the construction succeeds for every way to pick attributes, with or without a depth limit, if and only if no column is constant among the rows that agree with two rows of different labels on columns that can be split before |
| `ClusterTree.SeparableMeansAll` | ai/mod2/k-means-tree/tree.py:34-71 | without a depth limit this says: wherever two rows of different labels agree on a column, some row agrees with them on their other common columns and differs there |
| `ClusterTree.FailsBelowTheRoot` | ai/mod2/k-means-tree/tree.py:57-69 | four rows on which every gain is defined at the root and the construction fails one level down |
| `ClusterTree.BuildFits` | ai/mod2/k-means-tree/tree.py:49-71 | no path is longer than the number of attributes or than the depth limit allows |
| `ClusterTree.TreeBuiltIff` | ai/mod2/k-means-tree/tree.py:77-85 | the tree of the data labelled by k-means can be built for every way to pick attributes if and only if the data are separable |
| `ClusterTree.TreeReproducesLabels` | ai/mod2/k-means-tree/tree.py:77-94 | from separable data a tree is built and predict on the training data returns exactly the k-means labels |
| `ClusterTree.TreeFits` | ai/mod2/k-means-tree/tree.py:87-94 | from separable data a tree is built in which every lookup descends at most as many levels as there are attributes |
| `ClusterTree.LimitedTreeFits` | ai/mod2/k-means-tree/tree.py:59-61 | with a depth limit, from data separable as far as the limit goes, a tree is built in which every lookup descends at most that many levels |
| `ClusterTree.UniquesInOrder` | ai/mod2/k-means-tree/tree.py:84-84 | the unique values of a column are values of its rows, in the order in which they first appear |
| `TreeAnswers.TreeAnswersTraining` | ai/mod2/k-means-tree/tree.py:49-94 | with any depth limit a row of the data is looked up to the most frequent k-means label, and the smallest of several, among the rows that agree with it on the columns tested on its way; the way ends only when these have one label, all columns are tested or the limit is reached |
| `TreeAnswers.TreeAnswersAll` | ai/mod2/k-means-tree/tree.py:59-94 | any row gets that label; if no row agrees with it on all columns tested, the label that wins without the last of them; if its value has no child, the first most frequent of the clusters of the children, in the order of the values |
| `Lfsr.LFSR.Tact` | information_security/crypto/endec/src/stream/lfsr.rs:21-31 | the shifted and masked words amount to a shift down with the parity of the taps entering at bit N, and that parity is returned |
| `Lfsr.NeverZero` | information_security/crypto/endec/src/stream/lfsr.rs:8-31 | from any nonzero 128-bit start the register never becomes zero |
| `Lfsr.NextInjective` | information_security/crypto/endec/src/stream/lfsr.rs:21-31 | tact is injective on the states below 2^(N+1) |
| `Lfsr.RunClean` | information_security/crypto/endec/src/stream/lfsr.rs:21-31 | the states below 2^(N+1) are never left |
| `Lfsr.PurelyPeriodic` | information_security/crypto/endec/src/stream/lfsr.rs:21-31 | from a nonzero state below 2^(N+1) the run is purely periodic with a period of at most 2^(N+1) - 1 |
| `Lfsr.EventuallyClean` | information_security/crypto/endec/src/stream/lfsr.rs:21-31 | from any start all bits above N are gone after 127-N tacts, for good |
| `Lfsr.RegisterIsWindow` | information_security/crypto/endec/src/stream/lfsr.rs:21-31 | from then on the register is the window s[k..k+N] of the stream of low bits |
| `Lfsr.Recurrence` | information_security/crypto/endec/src/stream/lfsr.rs:21-31 | the produced bits satisfy s[k+N+1] = s[k+N] xor s[k+A] xor s[k+B] xor s[k+C] xor s[k] |
| `StreamCipher.Var.NextGamma` | information_security/crypto/endec/src/stream/mod.rs:25-39 | bit j of the byte combines the first register after j+1 tacts with the second after 3(j+1), despite the shift in and the reversal |
| `StreamCipher.KeyByteShifts` | information_security/crypto/endec/src/stream/mod.rs:25-39 | byte m combines the states after 8m+j+1 and 24m+3(j+1) tacts |
| `StreamCipher.Stream` | information_security/crypto/endec/src/stream/mod.rs:42-56 | each output byte is the input byte xor the key byte of its position |
| `StreamCipher.StreamRestores` | information_security/crypto/endec/src/stream/mod.rs:42-56 | streaming any bytes twice from fresh generators restores them |
| `StreamCipher.StreamPrefix` | information_security/crypto/endec/src/stream/mod.rs:42-56 | the output for a prefix is a prefix of the output |
| `StreamCipher.StreamOfZeros` | information_security/crypto/endec/src/stream/mod.rs:47-51 | zero bytes are turned into the keystream itself |
| `KeyStream.FirstByteBit` | information_security/crypto/endec/src/stream/mod.rs:25-39 | each bit of the first key byte in terms of the bits of the two start values |
| `KeyStream.FirstKeyByte` | information_security/crypto/endec/src/stream/mod.rs:17-39 | from the start values of the program the first key byte is 0x41 |
| `Cardan.OpenIffKeyBit` | information_security/crypto/endec/src/classic/cardan.rs:32-62 | a grille has an open position exactly when bit 2, 5, 8 or 11 of its key is set |
| `Cardan.HolesDisjoint` | information_security/crypto/endec/src/classic/cardan.rs:67-94 | the open positions of a grille are distinct and lie in the block |
| `Cardan.HolesAreTurns` | information_security/crypto/endec/src/classic/cardan.rs:32-94 | three bits of the key open one position of the upper left quarter of the 4x4 block, turned as many quarters as the lower two say if the third is set; the places are used in the order 0, 1, 4, 5 |
| `Cardan.TurnsDistinct` | information_security/crypto/endec/src/classic/cardan.rs:67-94 | turns of different positions of that quarter, or by different numbers of quarters, never meet |
| `Cardan.TurnsCover` | information_security/crypto/endec/src/classic/cardan.rs:67-94 | every position of the block is such a turn |
| `Cardan.CypherBlock` | information_security/crypto/endec/src/classic/cardan.rs:64-100 | a block carries the next symbols of the message in its open positions and consumes exactly those |
| `Cardan.DecypherBlock` | information_security/crypto/endec/src/classic/cardan.rs:102-135 | the symbols in the open positions, in order |
| `Cardan.Encode` | information_security/crypto/endec/src/classic/cardan.rs:138-149 | with h >= 1 open positions, 16·ceil(n/h) symbols with symbol b·h+q of the message in hole q of block b |
| `Cardan.Decode` | information_security/crypto/endec/src/classic/cardan.rs:151-170 | h symbols for every whole block and for the padded rest of any input |
| `Cardan.DecodeRestores` | information_security/crypto/endec/src/classic/cardan.rs:138-170 | decoding an encoding has length h·(ceil(n/h)+1) and the message as prefix, whatever padding was drawn |
| `Cardan.EncodeEndsIff` | information_security/crypto/endec/src/classic/cardan.rs:143-146 | for a grille and a message the loop ends if and only if a position is open or the message is empty |
| `CaRevocation.MakeRevocationStr` | soa/lab3/haproxy/openssl/apps/ca.c:2341-2423 | the bounded copies lose nothing: revtime[,reason[,extra]], or NULL for refused arguments |
| `CaRevocation.UnpackRevinfo` | soa/lab3/haproxy/openssl/apps/ca.c:2528-2637 | time, reason code and argument of a field, or failure |
| `CaRevocation.ReasonsFound` | soa/lab3/haproxy/openssl/apps/ca.c:2316-2330 | every listed reason is found at its own position, comparing without case |
| `CaRevocation.UnpackRestores` | soa/lab3/haproxy/openssl/apps/ca.c:2341-2637 | for every type and accepted argument the printed field reads back as the same time and argument with the code of section 5.3.1 of RFC 5280, exactly when the time is a UTCTime |
| `CaRevocation.ReasonsFollowRfc` | soa/lab3/haproxy/openssl/apps/ca.c:2316-2330 | each of the eight reason names of RFC 5280, in any case, is accepted, is written in the spelling of the database and reads back with its code 0, 1, 2, 3, 4, 5, 6 or 8 |
| `CaRevocation.ReasonAcceptedIff` | soa/lab3/haproxy/openssl/apps/ca.c:2354-2366 | no other text is accepted as a reason |
| `CaRevocation.FieldsWritten` | soa/lab3/haproxy/openssl/apps/ca.c:2367-2423 | hold, key time and CA key time are written as time,holdInstruction,argument and time,keyTime,argument and time,CAkeyTime,argument, and are refused exactly for an argument the library refuses |
| `CaDatabase.StartUpCheck` | soa/lab3/haproxy/openssl/apps/ca.c:690-726 | accepts exactly the databases all of whose rows are in order |
| `CaDatabase.SerialTextOk` | soa/lab3/haproxy/openssl/apps/ca.c:2108-2111 | every serial number that the tool writes passes the start-up check |
| `CaDatabase.SerialsIdentify` | soa/lab3/haproxy/openssl/apps/lib/apps.c:1465-1473 | two certificates meet in the index of serials exactly when their serial numbers are equal |
| `CaDatabase.CertificateDb.Insert` | soa/lab3/haproxy/openssl/apps/ca.c:1804-1928 | succeeds exactly for a confirmed certificate whose serial number no row has and whose name no indexed row has where names are unique; then its valid row is at the end, otherwise nothing changes |
| `CaDatabase.CertificateDb.DoRevoke` | soa/lab3/haproxy/openssl/apps/ca.c:2093-2197 | the exact condition of success; then the row of the certificate is revoked, its field reads as the time, reason and argument asked for, and all other rows are as before; otherwise at most a missing row is added; re-enters itself at most once |
| `CaDatabase.RevokeRecords` | soa/lab3/haproxy/openssl/apps/ca.c:2093-2197 | the same of the specification of do_revoke |
| `CaDatabase.CertificateDb.UpdateDb` | soa/lab3/haproxy/openssl/apps/ca.c:2266-2314 | every valid row whose time has come becomes expired and no other row changes, up to the first valid row with an unreadable time, at which it fails; counts the marked rows |
| `CaDatabase.InsertKeepsSound` | soa/lab3/haproxy/openssl/apps/ca.c:1903-1928 | insertion keeps all rows acceptable, serials distinct and names indexed if and only if a confirmed certificate without a clash has a readable expiry time |
| `CaDatabase.RevokeKeepsSound` | soa/lab3/haproxy/openssl/apps/ca.c:2093-2197 | revocation keeps the same if and only if a row that the guards let it add has a readable expiry time and a row that they let it mark gets a UTCTime |
| `CaDatabase.UpdateKeepsSound` | soa/lab3/haproxy/openssl/apps/ca.c:2282-2310 | expiry marking keeps the same and never fails on a sound database |
| `CaDatabase.PerformMoves` | soa/lab3/haproxy/openssl/apps/ca.c:2093-2314 | one operation moves a row only from valid to expired or from unrevoked to revoked, in nothing else |
| `CaDatabase.RunSoundIff` | soa/lab3/haproxy/openssl/apps/ca.c:690-726 | a run of insertions, revocations, expiry marking and restarts keeps the database acceptable at every moment if and only if each operation stores fitting times |
| `CaDatabase.RunKeepsSound` | soa/lab3/haproxy/openssl/apps/ca.c:690-726 | with certificates that carry times and a clock that gives UTCTimes, the start-up check accepts all rows after every run |
| `CaDatabase.RunDescends` | soa/lab3/haproxy/openssl/apps/ca.c:2093-2314 | over a whole run no row is lost, none changes its certificate, and a revoked row never changes again |
| `JsonTokens.Parser.ParseListLoop` | programming/ProgLab5/workwithexternaldata/JSONToParsedObject.java:46-66 | the loop over the shared index computes the recursive specification, on every token list |
| `JsonTokens.Parser.ParseMapLoop` | programming/ProgLab5/workwithexternaldata/JSONToParsedObject.java:68-81 | the same for maps, whose loop stops one token early |
| `JsonTokens.Parser.ParseValueStep` | programming/ProgLab5/workwithexternaldata/JSONToParsedObject.java:83-94 | the same for values |
| `JsonTokens.StringKeptIff` | programming/ProgLab5/workwithexternaldata/JSONToParsedObject.java:96-104 | a quoted text is kept if it does not contain "null" and read as null otherwise |
| `JsonTokens.NumberRead` | programming/ProgLab5/workwithexternaldata/JSONToParsedObject.java:106-110 | of a printed number the part before the exponent is read |
| `JsonTokens.NumberKeptIff` | programming/ProgLab5/workwithexternaldata/JSONToParsedObject.java:106-110 | a printed number is read whole if and only if it has no exponent |
| `JsonTokens.ParseValueRestores` | programming/ProgLab5/workwithexternaldata/JSONToParsedObject.java:83-94 | parsing the tokens of any document, anywhere in a token list, yields its meaning and leaves the index on its last token |
| `JsonTokens.ParseListRestores` | programming/ProgLab5/workwithexternaldata/JSONToParsedObject.java:46-66 | the items are read up to the matching bracket, where the index stays |
| `JsonTokens.ParseMapRestores` | programming/ProgLab5/workwithexternaldata/JSONToParsedObject.java:68-81 | the entries are read up to the matching brace, where the index stays, also at the very end of the tokens |
| `JsonTokens.ParseFileRestores` | programming/ProgLab5/workwithexternaldata/JSONToParsedObject.java:41-66 | the tokens of a whole file give its list back |
| `JsonTokens.EntriesKept` | programming/ProgLab5/workwithexternaldata/JSONToParsedObject.java:72-75 | with distinct keys the parsed map has exactly the keys of the document with their values |
| `Routes.CompareFlips` | programming/ProgLab5/route/Route.java:140-156 | compareTo is antisymmetric |
| `Routes.CompareTransitive` | programming/ProgLab5/route/Route.java:140-156 | compareTo is transitive, strictly when either comparison is strict |
| `Routes.CompareStringsIff` | programming/ProgLab5/route/Route.java:152-152 | names compare as in a dictionary: negative for a proper start or the smaller character at the first difference |
| `Routes.CompareIsOrder` | programming/ProgLab5/route/Route.java:140-156 | compareTo is negative for the route that is before and positive for the one after in the order by distance, squared modulus of the coordinates, of the start, name of the start, squared modulus of the end, name |
| `Routes.Collection.AddRoute` | programming/ProgLab5/consoleapplication/MainInterface.java:215-218 | the new route takes the next id and goes to the end; refused fields leave counter and list alone |
| `Routes.Collection.UpdateRoute` | programming/ProgLab5/consoleapplication/MainInterface.java:223-232 | the first route with the id gets the new fields in place and keeps its id |
| `Routes.Collection.RemoveRouteById` | programming/ProgLab5/consoleapplication/MainInterface.java:237-246 | the first route with the id is removed |
| `Routes.Collection.AddRouteIfMax` | programming/ProgLab5/consoleapplication/MainInterface.java:292-300 | compares with the greatest route; an empty list throws after the counter has moved |
| `Routes.GreaterThanGreatest` | programming/ProgLab5/consoleapplication/MainInterface.java:295-296 | the route is stored exactly when it is greater than every route |
| `Routes.AddIfMaxStores` | programming/ProgLab5/consoleapplication/MainInterface.java:292-300 | the route is stored exactly when all others are before it: always if it is the longest, never if another is longer |
| `Routes.Collection.RemoveWhere` | programming/ProgLab5/consoleapplication/MainInterface.java:308-311 | removal from the end of the list in place is an order-preserving filter |
| `Routes.Collection.RemoveGreaterRoutes` | programming/ProgLab5/consoleapplication/MainInterface.java:305-314 | keeps exactly the routes that are not greater, in order, and uses up one id |
| `Routes.Collection.RemoveLowerRoutes` | programming/ProgLab5/consoleapplication/MainInterface.java:319-328 | keeps exactly the routes that are not lower, in order, and uses up one id |
| `Routes.RemoveGreaterKeeps` | programming/ProgLab5/consoleapplication/MainInterface.java:305-314 | exactly the routes not after the given one stay, in order; no longer one is left and all shorter ones stay |
| `Routes.RemoveLowerKeeps` | programming/ProgLab5/consoleapplication/MainInterface.java:319-328 | exactly the routes not before the given one stay, in order; no shorter one is left and all longer ones stay |
| `Routes.FilterKeeps` | programming/ProgLab5/consoleapplication/MainInterface.java:305-328 | the filter keeps exactly the entries that satisfy its test and keeps ids increasing |
| `Routes.Collection.RemoveRouteByDistance` | programming/ProgLab5/consoleapplication/MainInterface.java:333-346 | the first route within 1e-8 of the distance is removed |
| `Routes.Collection.ClearRoutes` | programming/ProgLab5/consoleapplication/MainInterface.java:251-254 | the list becomes empty and the counter stays |
| `Routes.Collection.NewRoute` | programming/ProgLab5/route/Route.java:41-56 | a route is refused exactly for an empty name, an empty start name, x not above -140 or a distance not above 1; otherwise it takes the successor of the counter as its id, wrapping around |
| `Routes.StepKeepsGood` | programming/ProgLab5/route/Route.java:54-55 | a command keeps ids positive, strictly increasing and at most the counter unless it makes a route at the counter's last value |
| `Routes.RunKeepsGood` | programming/ProgLab5/consoleapplication/MainInterface.java:215-328 | a run keeps this at every moment if and only if the counter has room for all routes it makes |
| `Routes.ConvertToList` | programming/ProgLab5/consoleapplication/workwithroute/ParsedObjectToListRoute.java:20-36 | the loader takes each object in turn through the constructor that checks ids |
| `Routes.LoadTakesAllIff` | programming/ProgLab5/route/Route.java:21-39 | loading rejects nothing and keeps the order if and only if ids rise from above the counter and all fields are acceptable |
| `Routes.LoadKeepsIff` | programming/ProgLab5/consoleapplication/workwithroute/ParsedObjectToListRoute.java:20-36 | a good collection is loaded as it was, and is good again, if and only if every object reaches the loader as it was |
| `Routes.LoadFilters` | programming/ProgLab5/consoleapplication/workwithroute/ParsedObjectToListRoute.java:23-33 | objects that throw are skipped and the others are taken in order |
| `SavedRoutes.SaveInFile` | programming/ProgLab5/consoleapplication/workwithroute/ListRouteToFileJSON.java:20-34 | the loop writes the tokens of the list of routes |
| `SavedRoutes.LoadFile` | programming/ProgLab5/Main.java:28-29 | the parser with its shared index, the extraction and the loader compute the reloaded collection |
| `SavedRoutes.RouteTokens` | programming/ProgLab5/route/Route.java:170-181 | the tokens that are written for a route, with their keys in order |
| `SavedRoutes.CoordinatesTokens` | programming/ProgLab5/route/Coordinates.java:59-66 | the tokens of the coordinates |
| `SavedRoutes.FromTokens` | programming/ProgLab5/route/location/first/Location.java:83-95 | the tokens of the first location |
| `SavedRoutes.ToTokens` | programming/ProgLab5/route/location/second/Location.java:68-79 | the tokens of the second location |
| `SavedRoutes.RouteKeptIff` | programming/ProgLab5/consoleapplication/workwithroute/ParsedObjectToListRoute.java:38-76 | the route that toJSON writes is extracted as it was if and only if no name contains "null" and no number has an exponent; with such a name it is not extracted at all |
| `SavedRoutes.ReloadRestoresIff` | programming/ProgLab5/route/Route.java:170-181 | saving a good collection and loading it into a fresh program gives the same list back, again good, if and only if no name contains "null" and no number is printed with an exponent |
| `SavedRoutes.ReloadFilters` | programming/ProgLab5/consoleapplication/workwithroute/ParsedObjectToListRoute.java:20-36 | where no number has an exponent, exactly the routes with a "null" in a name are lost and the others keep their order |
| `SavedRoutes.NullableIsLost` | programming/ProgLab5/workwithexternaldata/JSONToParsedObject.java:97-98 | a route called nullable does not come back |
| `SavedRoutes.LongRouteChanges` | programming/ProgLab5/workwithexternaldata/JSONToParsedObject.java:106-109 | a route of distance 1.0E7 does not come back as it was |
| `SavedRoutes.RunReloads` | programming/ProgLab5/consoleapplication/MainInterface.java:215-328 | after every run of commands with savable routes in a fresh program the saved list comes back as it was |

## Left out

- Rounding, NaN and infinity of floating-point numbers: all arithmetic is exact.
- `initialize_clusters`, `random_symbol`, `stable_hash` and the clock: arbitrary values.
- The dictionary keys of k-means clusters: a label is the position of a centroid, also where the initial choice left a gap in the keys.
- The value of `gain` and `intracluster_distance`: the chosen attribute is arbitrary and the stopping distance any function of centroids and clusters.
- The tree nodes are values, not objects: sharing of nodes is not captured; they are never changed once built.
- A data frame whose row index is not 0, 1, 2, ...: the labels would be aligned with other rows.
- `power`, `exp`, `log`, `R2`, `pearson_corr_coef` and the formula text of `approximation.py`: transcendental functions and plain expressions.
- `Euler`, `Euler2`: one-line steps. MilnPredictor: its expression is not the textbook one, so nothing but its use as a start value is stated.
- The underflow in the grille's key reduction when the hash is a multiple of 4097; RC6, OFB and the block padding.
- `openssl ca` outside the database: options, files, policies, extensions, signing, CRLs, `TXT_DB` text escaping and memory failures; the suspended status is only carried along.
- Tokenising of JSON text, splitting at commas, and the numeric value of number texts; names are taken to hold no quotation mark.
- The narrower float of the second location's z is treated as a double.
- Input dialogues, the file dialogue of `save`, `execute_script`, `show` and the filters that only print; the null checks of `Route` are covered by the objects that the loader skips.
- The front ends, services and laboratories that are user interface, input and output or simple state.
