# A Dafny model of the core of the zero-knowledge toolkit

A Dafny model of the parts of this repository where a fast, stateful implementation stands for a short mathematical
statement, with the proof that it does. Each file models one component in the form its code has: loops over arrays,
limbs and maps are methods with invariants, proved against functions on sequences and integers, and what those
functions mean is proved in lemmas.

- **AS-Waksman permutation network** (`Waksman*.dfy`, `Permutation.dfy`). The grid that `AsWaksmanTopology` builds, the
  back-and-forth routing of `AsWaksmanRoute`, the simulation, and dumping and assigning of switches. Routing is shown to
  be a two-colouring of wires (`WaksmanLooping`) that the maps, flags and permutations of the loop track step by step.
  The main theorem, `RouteAndSimulate`, covers every permutation of every size from two.
- **Fourier transform** (`Spaces.dfy`, `Fft*.dfy`, `Polynomials.dfy`, `Threads.dfy`). The in-place radix-2 transform, the
  split parallel one under every order of its threads, and the inverse and coset transforms, over residues and points
  alike through the laws of the `Group` trait; and products of polynomials.
- **Prime field arithmetic** (`Limbs.dfy`, `FieldInverse.dfy`, `Montgomery*.dfy`, `PrimeFields.dfy`,
  `EulerCriterion.dfy`, `TonelliShanks.dfy`). The generated code on 64-bit limbs for any number of limbs: Montgomery
  reduction, schoolbook and interleaved products, squaring, binary Euclidean inversion; and square roots on residues.
- **Scalar multiplication** (`Groups.dfy`, `BaseSource.dfy`, `Multiexp.dfy`, `Wnaf.dfy`). Pippenger's buckets over an
  abstract commutative group, filtered by a density and dense with a shared sum, and the windowed non-adjacent form.
- **Constraint systems** (`ConstraintColumns.dfy`, `Sap*.dfy`, `Qap*.dfy`). The column-wise assemblies of the two
  generators, the reduction of rank-one constraints to squares, and the quadratic arithmetic program at tau.
- **FFLONK opening argument** (`Sparse*.dfy`, `Lagrange.dfy`, `OpeningSets.dfy`, `Interpolation.dfy`,
  `UnionInterpolation.dfy`, `BasisEvaluations.dfy`, `CombinedPolynomials.dfy`, `Opening*.dfy`). From combining the
  polynomials of a round to the verifier's aggregated check, with a commitment standing for the value of its polynomial
  at a hidden point and the pairing check for an equation between such values.

`Modular.dfy` defines residues by `Red(p, x)`, the representative of x below p, and states congruence as equality of
residues. Threads are modelled by the order in which their chunks take effect, which is a parameter everywhere.
`dafny verify dfyconfig.toml` checks the whole project.

## Model

| member | source | states |
|---|---|---|
| WaksmanTopology.AsWaksmanTopology.ConstructInner | crates/franklin-crypto/src/as_waksman.rs:32-115 | For every rectangle, odd or even, with or without columns to spare, the recursion writes exactly the cells of the network the rectangle holds, with the last column leading to the given destinations, and leaves every other cell of the grid as it was. |
| WaksmanTopology.WalkIsOut | crates/franklin-crypto/src/as_waksman.rs:32-115 | Following the cells column by column from a row brings a packet to the row that the recursive description of the network sends it to, for every setting of the switches. |
| WaksmanRouting.LevelPass.RightSwitchIsFree | crates/franklin-crypto/src/as_waksman.rs:398-404 | Whenever the loop arrives at the right side from the left, at a wire other than the last one, the switch there has not been set: the assertion on `rhs_switch` holds in every run. |
| WaksmanRouting.LevelPass.RightSwitchIsSet | crates/franklin-crypto/src/as_waksman.rs:416-431 | Whenever the loop routes back from the right, the switch it stands at is set, and a left switch that is already set has the setting demanded: both assertions hold in every run. |
| WaksmanRouting.LevelPass.ArriveAtHigh | crates/franklin-crypto/src/as_waksman.rs:388-397 | Arriving at the straight wire of an odd size, or at `high` of an even one, records the connection, restarts from the highest unrouted wire and keeps the invariant of the walk, with strictly more wires routed. |
| WaksmanRouting.LevelPass.Run | crates/franklin-crypto/src/as_waksman.rs:374-462 | The loop ends for every permutation with every left wire routed, and changes no switch outside its rows. |
| WaksmanRouting.LevelPass.Finalize | crates/franklin-crypto/src/as_waksman.rs:464-480 | After the loop the two columns hold exactly the switches of their size, the new permutation and its inverse undo each other and map the upper half to the upper half, and every wire crosses the level to where its image leaves it. |
| WaksmanRoute.AsWaksmanRoute.ConstructInner | crates/franklin-crypto/src/as_waksman.rs:277-482 | Routing any permutation of the rows into an empty rectangle meets every assertion of the recursion and puts in switches that realise that permutation, and touches nothing outside. |
| WaksmanRoute.AsWaksmanRoute.constructor | crates/franklin-crypto/src/as_waksman.rs:239-250 | Every permutation of two or more wires gets a route whose columns hold exactly the switches of the network, and these realise the permutation. |
| WaksmanRoute.AsWaksmanRoute.CalculatePermutation | crates/franklin-crypto/src/as_waksman.rs:563-598 | For every route, whatever its switches are set to, running the packets through the grid gives a valid permutation, and it is the one that the switches realise. |
| WaksmanRoute.AsWaksmanRoute.ValidateRoutingForPermutation | crates/franklin-crypto/src/as_waksman.rs:484-519 | For every list in range, a permutation or not, the comparison succeeds if and only if what the switches realise has as its inverse the list that `inverse` writes; when the list is a permutation, or what is written is none, that is if and only if the switches realise the list. |
| WaksmanRoute.AsWaksmanRoute.AcceptsOtherList | crates/franklin-crypto/src/as_waksman.rs:484-519 | For every other list in range some route is accepted that does not realise it, so that condition is exact. |
| WaksmanRoute.AsWaksmanRoute.RouteAndSimulate | crates/franklin-crypto/src/as_waksman.rs:239-250 | Routing a permutation and simulating the route gives that permutation back, and validation accepts it, for every size and every permutation. |
| WaksmanShape.OutInjective | crates/franklin-crypto/src/as_waksman.rs:563-598 | Whatever the switches, two packets never leave on the same row. |
| WaksmanGates.GateCount | crates/franklin-crypto/src/as_waksman.rs:521-528 | The stored switches of a valid route of n wires number the sum of ceil(log2 i) for i = 1..n. |
| WaksmanRoute.AsWaksmanRoute.GetNumberOfGates | crates/franklin-crypto/src/as_waksman.rs:521-528 | The loop over the columns counts that sum, whatever the settings. |
| WaksmanGates.DumpDetermines | crates/franklin-crypto/src/as_waksman.rs:545-559 | Two routes with the same switch positions and the same dump have the same settings. |
| WaksmanRoute.AsWaksmanRoute.DumpAssignments | crates/franklin-crypto/src/as_waksman.rs:545-559 | The dump is the list of settings, column by column and from the highest key down. |
| WaksmanRoute.AsWaksmanRoute.AssignSwitches | crates/franklin-crypto/src/as_waksman.rs:530-543 | Assigning a list of the right length gives a valid route whose dump is that list. |
| WaksmanRoute.AsWaksmanRoute.TransferAssignments | crates/franklin-crypto/src/as_waksman.rs:530-559 | Assigning the dump of one route to another of the same size copies every setting, so the other route comes to realise the same permutation. |
| Permutation.IntegerPermutation.IsValid | crates/franklin-crypto/src/as_waksman.rs:212-229 | The membership pass answers true if and only if the images are a permutation of `min ..= max`. |
| Permutation.IntegerPermutation.Inverse | crates/franklin-crypto/src/as_waksman.rs:203-210 | Every list in range is written position by image; for a permutation the result and the list undo each other. |
| Permutation.RepetitionWritesIdentity | crates/franklin-crypto/src/as_waksman.rs:203-210 | The list 1, 1, 2 is no permutation, and what is written for it is the identity. |
| Spaces.ScalarsValid | crates/bellman/src/group.rs:48-75 | The residues modulo p with the operations of `Scalar` meet all laws that the transforms need of the trait. |
| Spaces.PointsValid | crates/bellman/src/group.rs:8-46 | So do the points of every commutative group in which p times any point is zero, scaled by the representative of the residue. |
| FftSerial.SerialFft | crates/bellman/src/domain.rs:277-318 | Bit reversal and butterflies in place leave in every position k the sum of the entries scaled by the powers of omega^k, over every space with the operations of the `Group` trait, for every power-of-two size and every modulus in which omega^(n/2) is minus one. |
| FftParallel.ParallelFft | crates/bellman/src/domain.rs:321-371 | Over every such space the split transform leaves the same array, for every number of threads up to the size and every order in which they finish. |
| FftParallel.BestFft | crates/bellman/src/domain.rs:267-275 | Over every such space the result does not depend on the worker: either branch is the transform. |
| FftInverse.InvertedAfter | crates/bellman/src/domain.rs:147-161 | Inverting a transform gives the entries back, over every such space. |
| FftInverse.InvertedBefore | crates/bellman/src/domain.rs:143-161 | Transforming an inverse transform gives the entries back, over every such space. |
| FftInverse.FourierOfResidues | crates/bellman/src/domain.rs:267-275 | On residues the transform is the list of values at the powers of omega of the polynomial with those coefficients. |
| FftInverse.ProductTheorem | crates/bellman/src/domain.rs:143-161 | Transforming two coefficient lists, multiplying pointwise and inverting gives the coefficients of the product, whenever the product fits the domain. |
| FftDomain.EvaluationDomain.FromCoeffs | crates/bellman/src/domain.rs:44-90 | Coefficients, residues or points, are refused if and only if there are more than 2^S - 1 of them; otherwise the domain is the smallest that holds them, padded with zeros, its root is the root of unity of the field squared S - exp times, and its stored inverses are the reduced ones. |
| FftDomain.EvaluationDomain.ThereAndBack | crates/bellman/src/domain.rs:143-161 | `fft` and `ifft`, in either order and with any two workers, leave the coefficients as they were, residues or points. |
| FftDomain.EvaluationDomain.CosetThereAndBack | crates/bellman/src/domain.rs:163-187 | `coset_fft` and `icoset_fft`, in either order, with any two workers and any chunking of the powers, leave the coefficients as they were, residues or points. |
| FftDomain.Multiply | crates/bellman/src/domain.rs:143-249 | On two domains of residues, `fft` on both, `mul_assign` and `ifft` leave the coefficients of the product, reduced and padded. |
| FftDomain.MultiplyPolynomials | crates/bellman/src/domain.rs:377-415 | Two coefficient lists, padded to the sum of their lengths and put into domains of their own, come out of the transforms as the coefficients of their product, unless the sum exceeds 2^S - 1; the two domains have the same root. |
| FieldInverse.Inverse | crates/ff_derive/src/lib.rs:1189-1242 | On limbs of any number, the binary Euclidean loop ends for every element, returns none if and only if the element is zero, and otherwise the limbs below the modulus whose product with it is congruent to `R2`. |
| FieldInverse.InverseOf | crates/ff/src/lib.rs:53 | Among residues this is the inverse: none for zero only, and else the product is one. |
| Montgomery.ComputeInv | crates/ff_derive/src/lib.rs:507-513 | The 63 wrapping rounds give the negated inverse of every odd limb modulo 2^64. |
| Montgomery.MontReduce | crates/ff_derive/src/lib.rs:579-627 | For any number of limbs, the reduction of every value below m * 2^(64 n) returns limbs below m whose product with 2^(64 n) is congruent to it. |
| Montgomery.MulAssign | crates/ff_derive/src/lib.rs:714-751 | The schoolbook product followed by the reduction returns a reduction of the product of the two elements. |
| MontgomeryFast.ReductionUnique | crates/ff_derive/src/lib.rs:1294-1306 | There is only one element below m that is a reduction of a given value. |
| MontgomeryFast.CiosMulAssign | crates/ff_derive/src/lib.rs:753-823 | The interleaved product keeps its running value below twice the modulus, so that the last carries fit one limb, and returns a reduction of the product. |
| MontgomeryFast.MultiplicationsAgree | crates/ff_derive/src/lib.rs:714-823 | Both multiplications return the same limbs for all elements. |
| MontgomeryFast.MultiplyElements | crates/ff_derive/src/lib.rs:1250-1254 | Multiplying the Montgomery forms of x and y gives the Montgomery form of x y. |
| MontgomeryFast.InverseTimesElement | crates/ff_derive/src/lib.rs:1189-1242 | Inverting the Montgomery form of an element fails if and only if the element is zero, and multiplying back gives the Montgomery form of one. |
| MontgomerySquare.SquareAgrees | crates/ff_derive/src/lib.rs:629-712 | The generated squaring returns the limbs of multiplying the element by itself. |
| EulerCriterion.ResidueSymbol | crates/ff_derive/src/lib.rs:405-415 | Raising to (p - 1) / 2 gives 0 for zero, 1 for the other squares and p - 1 for the rest, for every odd prime. |
| TonelliShanks.Legendre | crates/ff_derive/src/lib.rs:405-415 | The symbol is Zero for zero, QuadraticResidue exactly for the other squares and QuadraticNonResidue exactly for the rest. |
| TonelliShanks.RootFromGenerator | crates/ff_derive/src/lib.rs:390-401 | If the generator is no square then its t-th power is a root of order exactly 2^s. |
| TonelliShanks.SqrtConstants | crates/ff_derive/src/lib.rs:390-401 | The constants computed from any non-square generator of any odd prime are those that the square root needs, and the root of unity is the t-th power of that generator. |
| TonelliShanks.Sqrt | crates/ff_derive/src/lib.rs:447-496 | The loop ends, and returns a square root if and only if the element is a square, for every odd prime with such constants; of the two roots it is the one that is x^((t + 1) / 2) times a power of the root of unity below 2^(s - 1). |
| TonelliShanks.ChosenIsUnique | crates/ff_derive/src/lib.rs:447-496 | Only one of the two roots has such an exponent. |
| TonelliShanks.SqrtThreeModFour | crates/ff_derive/src/lib.rs:417-446 | For primes that are 3 modulo 4 the short form returns a square root if and only if the element is a square, and it is x^((p + 1) / 4). |
| BaseSource.Source.AddAssignMixed | crates/bellman/src/source.rs:37-51 | A base is added and the cursor moved if and only if there is one and it is not the identity; the error says which of the two failed, and then the cursor stays. |
| BaseSource.Source.Skip | crates/bellman/src/source.rs:53-61 | Skipping fails if and only if the bases are used up, and otherwise moves the cursor by the amount. |
| BaseSource.DensityTracker.AddElement | crates/bellman/src/source.rs:116-118 | A new element starts with its bit off, and the total stays the number of set bits. |
| BaseSource.DensityTracker.Inc | crates/bellman/src/source.rs:126-131 | Setting a bit keeps the total equal to the number of set bits, also when it was set before. |
| Multiexp.MultiexpWithFixedWidth | crates/bellman/src/multiexp.rs:560-598 | For every window width below a limb: the result is Ok if and only if every dense item has a base and none with a nonzero exponent has the identity, and then it is the sum of the exponents times the bases counted by the density. Otherwise the error is that of the highest window, which starts at the multiple of the width with at most that many bits above it: UnexpectedEof if and only if it runs out of bases before it meets an identity, else UnexpectedIdentity. |
| Multiexp.DenseMultiexp | crates/bellman/src/multiexp.rs:652-766 | An error if and only if the lengths differ; otherwise the sum of the exponents times the bases, for every chunking and every order in which the threads add into the shared sum. |
| Wnaf.WnafForm | crates/pairing/src/wnaf.rs:18-47 | For every window up to 61 the recoding ends for every scalar, its digits are zero or odd and below 2^window in magnitude (0 or 1 for window 0), nonzero digits lie more than `window` apart, the last one is not zero, and they sum to the scalar, or to 2^bits less if and only if an addition wraps. |
| Wnaf.DigitsSumToScalar | crates/pairing/src/wnaf.rs:18-47 | The digits sum back to the scalar if and only if it is even or at most 2^bits - 2^window. |
| Wnaf.LargestScalarIsLost | crates/pairing/src/wnaf.rs:29-38 | The largest scalar recodes to the single digit -1, so the digits do not sum back to it, for every window and every width. |
| Wnaf.LowestLimbDecides | crates/pairing/src/wnaf.rs:25-27 | The digit read from the lowest limb alone is the scalar modulo 2^(window + 1). |
| Wnaf.WnafExp | crates/pairing/src/wnaf.rs:49-71 | Over the table of the same window every lookup is in bounds, and the result is the sum of the digits times the base. |
| Wnaf.WnafMultiply | crates/pairing/src/wnaf.rs:4-71 | Table, recoding and exponentiation together give the scalar times the base whenever nothing wraps, and 2^bits times the base less when something does. |
| SapReduction.ReductionKeepsMeaning | crates/bellman/src/gm17/generator.rs:103-170 | An assignment satisfies all rank-one constraints if and only if it can be extended to the variables made by `enforce` so that the two rows of every constraint hold as squares, in odd characteristic. |
| SapReduction.AllRowsKeepMeaning | crates/bellman/src/gm17/generator.rs:103-170 | When nothing but constraints has been enforced, so that there are two rows for each, that is so that every stored row holds as squares. |
| SapReduction.ExtensionUnique | crates/bellman/src/gm17/generator.rs:103-170 | That extension is unique modulo the field. |
| SapReduction.IdentityRowMeans | crates/bellman/src/gm17/generator.rs:229-246 | The row pushed for input 0 holds if and only if the square of input 0 is zero, so it never holds at the assignment 1 it is meant for. |
| SapAssembly.KeypairAssembly.Alloc | crates/bellman/src/gm17/generator.rs:65-83 | A new auxiliary variable grows every column list and the counters together and keeps all stored constraints. |
| SapAssembly.KeypairAssembly.Enforce | crates/bellman/src/gm17/generator.rs:103-170 | From every state a run can reach, a constraint adds two rows and one variable, keeps the columns consistent with all constraints so far and every earlier row as it was, and keeps num_aux = num_r1cs_aux + num_r1cs_constraints. |
| SapAssembly.KeypairAssembly.ConstrainInputs | crates/bellman/src/gm17/generator.rs:250-275 | Constraining the inputs meets the three counting assertions and adds exactly the constraints x_i * x_0 = x_i, one for each input after the first, in order and in the rows that follow. |
| SapAssembly.KeypairAssembly.ConstrainIdentityAndInputs | crates/bellman/src/gm17/generator.rs:229-275 | The same with the single row pushed before, which has input 0 on its A side and nothing on its C side: that row comes next, then exactly the rows of x_i * x_0 = x_i, and all earlier rows stay as they were. |
| SapRows.FinishedMeans | crates/bellman/src/gm17/generator.rs:103-275 | For the rows that a circuit and these additions leave, an assignment extends to one that satisfies every row if and only if it satisfies all constraints and the square of input 0 is zero; with input 0 equal to 1 no extension does. |
| QapGenerator.KeypairAssembly.Enforce | crates/bellman/src/groth16/generator.rs:93-115 | A constraint adds one row to each of the three matrices and keeps the columns consistent with all constraints so far. |
| QapGenerator.KeypairAssembly.ConstrainInputs | crates/bellman/src/groth16/generator.rs:159-162 | Exactly the rows x_i * 0 = 0 are added, one for each input in order, and they leave the satisfying assignments as they were. |
| QapEvaluation.LagrangeValue | crates/bellman/src/domain.rs:147-161 | Entry j of the inverse transform of the powers of tau is the value at tau of the polynomial that is one at omega^j and zero at the other points. |
| QapEvaluation.ColumnPolynomialValues | crates/bellman/src/groth16/generator.rs:321-333 | The polynomial of a column takes at omega^j the coefficient that the column holds for row j. |
| QapEvaluation.ColumnValue | crates/bellman/src/groth16/generator.rs:321-333 | Weighting a column with those entries gives the value of its polynomial at tau. |
| QapEvaluation.QapValue | crates/bellman/src/groth16/generator.rs:321-333 | Weighting every column with those entries and summing over the variables gives the value at tau of the polynomial that takes the value of row j at omega^j. |
| QapAssembly.SatisfiedIffDivides | crates/bellman/src/groth16/generator.rs:93-115 | An assignment satisfies all rows if and only if x^m - 1 divides A B - C, for the polynomials that interpolate the rows. |
| QapParameters.HQuery | crates/bellman/src/groth16/generator.rs:217-245 | From the powers of tau, threads that each fill one chunk, in any order, leave tau^i * (tau^m - 1) / delta in entry i of the H query. |
| QapGenerator.FillPowers | crates/bellman/src/groth16/generator.rs:201-214 | The threads that fill the powers, each starting from its own, leave tau^i in entry i for every chunking and order. |
| QapParameters.GenerateQueries | crates/bellman/src/groth16/generator.rs:189-416 | On a domain that holds the rows, generation fails with UnexpectedIdentity if and only if gamma or delta is zero, with UnconstrainedVariable if and only if they are not and beta A + alpha B + C vanishes at tau for the column polynomials of some auxiliary variable, and otherwise the exponents of all queries are those of the rows. |
| QapParameters.GenerateParameters | crates/bellman/src/groth16/generator.rs:135-416 | The same from the synthesized assembly on: exactly the rows x_i * 0 = 0 are added, PolynomialDegreeTooLarge is returned if and only if there are then more than 2^S - 1 rows, and no error but the three named ones ever is; the domain is the smallest that holds the rows, with the root of its size, and the exponents add up, at every assignment, to the values at tau of the row polynomials. |
| QapParameters.SatisfiedEquation | crates/bellman/src/groth16/generator.rs:135-416 | For every satisfying assignment the coefficients of the quotient H, with A(x) B(x) - C(x) = H(x) (x^m - 1) at every x, make the queries satisfy A B = C + H delta at tau. |
| CombinedPolynomials.CombineMixedDegreeMonomials | crates/fflonk/src/utils.rs:86-109 | The combined polynomial is the sum of x^j * f_j(x^k) over the k polynomials, at every x and for all lengths, with as many coefficients as k times the longest of them and k - 1 more. |
| SparseArithmetic.MultiplyMonomialWithSparsePoly | crates/fflonk/src/utils.rs:149-167 | The result is the product with one binomial x^d - c, coefficient by coefficient. |
| SparseArithmetic.MultiplyMonomialWithMultipleSparsePolys | crates/fflonk/src/utils.rs:111-147 | The result is the product with all binomials x^d - c, coefficient by coefficient. |
| SparseDivision.DivideByHigherDegreeTerm | crates/fflonk/src/utils.rs:1299-1326 | The loop indexes below zero if and only if the lowest quotient coefficient is zero and the remainder is not; otherwise it returns the quotient. |
| SparseDivision.RoundTrip | crates/fflonk/src/utils.rs:1328-1339 | Dividing any polynomial congruent to a product with a list of binomials by that list completes, and returns the other factor. |
| SparseDivision.TimesAndBack | crates/fflonk/src/utils.rs:111-147 | Multiplying by any nonempty list of binomials of positive degree and dividing by it again returns the polynomial. |
| Interpolation.DivideByLinearTerm | crates/fflonk/src/utils.rs:1270-1297 | The loop returns the quotient by x - point. |
| Interpolation.HornerEvaluation | crates/fflonk/src/utils.rs:645-655 | The loop returns the value of the polynomial at the point. |
| Interpolation.BatchInversion | crates/fflonk/src/utils.rs:614-643 | One inversion and two passes return the inverse of every entry; there is none if and only if some entry is zero. |
| Interpolation.InterpolateRMonomial | crates/fflonk/src/utils.rs:1087-1126 | The returned polynomial takes the given values on the coset of the point, for every size and every coset of distinct points. |
| UnionInterpolation.InterpolateRMonomialFromUnionSet | crates/fflonk/src/utils.rs:1128-1268 | The returned polynomial takes both lists of values on the union of two disjoint cosets. |
| UnionInterpolation.InterpolateUnionSet | crates/fflonk/src/utils.rs:1538-1575 | Over either kind of opening set, the returned polynomial takes at every point the combination of the evaluations that belongs there. |
| BasisEvaluations.ComputeLagrangeBasisInverses | crates/fflonk/src/utils.rs:188-331 | The inverses exist if and only if y is outside the opening set, and then they are the inverses of all barycentric denominators. |
| BasisEvaluations.PrecomputeLagrangeBasisEvaluationsFromInverses | crates/fflonk/src/utils.rs:333-488 | The assertion on the supplied inverses holds if and only if each is the inverse of its denominator, and then the returned values are those of the Lagrange basis at y. |
| BasisEvaluations.EvaluationsAgree | crates/fflonk/src/utils.rs:992-1085 | The value at y that the verifier adds up from supplied inverses and evaluations is the value at y of the interpolated polynomial r. |
| OpeningProver.NumeratorDivides | crates/fflonk/src/prover.rs:895-947 | If each C_i - r_i is divisible by the binomials of its own set, then the sum of the shifted differences with powers of alpha is divisible by the binomials of all sets. |
| OpeningProver.ComputeF | crates/fflonk/src/prover.rs:919-939 | The size assertions of the three subtractions and the three additions hold exactly under the stated inequalities, and then f is congruent to that sum. |
| OpeningVerifier.ComputeWPrime | crates/fflonk/src/prover.rs:1021-1027 | The inverse exists if and only if the setup difference does not vanish at y; then W' has the coefficients of the quotient of L by x - y, divided by that value, and W' times that value and x - y is L minus its value at y, at every x. |
| OpeningVerifier.AggregatePointsAndCheckPairing | crates/fflonk/src/verifier.rs:334-444 | The final check is true if and only if W' (s - y), times the setup difference at y, equals the linear combination of the commitments, the claimed evaluations and W at the hidden point s. |
| OpeningCompleteness.PrepareRound | crates/fflonk/src/utils.rs:86-109 | A round holds the values of all its polynomials at z, and at z omega when it is opened there, the coefficients of the sum of x^j * f_j(x^k), and the polynomial r that takes the combined evaluations on the opening set. |
| OpeningCompleteness.ProveFirst | crates/fflonk/src/prover.rs:843-947 | The first half of the opening gets through if and only if the sizes fit, that each round is at least as long as its opening set among them, and then W times the vanishing polynomial of all sets is f, coefficient by coefficient. |
| OpeningCompleteness.ProveSecond | crates/fflonk/src/prover.rs:952-1032 | The second half gets through if and only if y lies outside all three opening sets; then the evaluations are sent with the true inverses of their denominators, and W' times x - y and the setup difference at y is L at every x. |
| OpeningCompleteness.Complete | crates/fflonk/src/verifier.rs:237-444 | Combining, interpolating, proving and verifying gets through if and only if the sizes fit and y is outside all opening sets. Then the evaluations sent are those of the given polynomials, the commitments are the values at s of their combinations, W and W' are the quotients, and the verifier's check on exactly these is true at every hidden point s and for every alpha. |

## Findings

Laws that the code does not meet on all inputs, each with an input that shows it and the exact condition.

| where | what fails | input | holds exactly when |
|---|---|---|---|
| crates/pairing/src/wnaf.rs:20-45 | `add_nocarry` drops the carry out of the top limb, so the digits need not sum back to the scalar | the largest scalar recodes to the single digit -1 (`Wnaf.LargestScalarIsLost`) | the scalar is even or at most 2^bits - 2^window (`Wnaf.DigitsSumToScalar`) |
| crates/bellman/src/gm17/generator.rs:229-246 | the row for input 0, meant as 1 * 1 = 1, is pushed on the A side only and says that the square of input 0 is 0 | every assignment with input 0 equal to 1 (`SapReduction.IdentityRowMeans`) | the square of input 0 is 0 (`SapReduction.IdentityRowMeans`; for all rows together `SapRows.FinishedMeans`) |
| crates/fflonk/src/utils.rs:1299-1326 | the early exit is missed when the lowest quotient coefficient is zero, and the loop then subtracts degrees below zero | the constant 1 written with d leading zeros, divided by any x^d - c (`SparseDivision.ConstantRunsOff`) | that coefficient is not zero or the division leaves no remainder (`SparseDivision.DivideByHigherDegreeTerm`); exact divisions always complete (`SparseDivision.RoundTrip`) |
| crates/franklin-crypto/src/as_waksman.rs:484-519 | a list is compared through `inverse()`, which loses repeated images, so a routing can be accepted for a list that is no permutation | the list 1, 1, 2 with the routing of the identity (`Permutation.RepetitionWritesIdentity`) | the list is a permutation, or what `inverse()` writes for it is none (`WaksmanRoute.AsWaksmanRoute.ValidateRoutingForPermutation`, `WaksmanRoute.AsWaksmanRoute.AcceptsOtherList`) |

In `EvaluationDomain::from_coeffs` the second PolynomialDegreeTooLarge (crates/bellman/src/domain.rs:68-70) cannot be
reached after the first; the proof of `FftDomain.EvaluationDomain.FromCoeffs` asserts so.

## Left out

- WaksmanShape.NumColumns: computes 2 * ceil(log2 n) - 1 in integers, where the code rounds a floating-point logarithm.
- WaksmanTopology.AsWaksmanTopology.SwitchDestinations: fills the destinations of the halves in a pass of its own, where
  the code does so in the pass that fills the two columns; nothing is read in between.
- `IntegerPermutation::make_permutation` shuffles with a random generator, which is not modelled.
- FftDomain.EvaluationDomain.Ifft: multiplies by the inverse of the size in one loop, and so does `mul_assign`
  pointwise, where the code cuts the array into chunks for threads that touch different elements.
- `from_coeffs_into_sized`, `sub_assign`, `divide_by_z_on_coset` and the transforms of powers of tau on the domain would
  add only easy members.
- FftParallel.ParallelFft: a thread's work is one step in the order given; interleavings inside two threads are left out,
  since each writes its own part only.
- Optimistic CIOS squaring and the `mul_double_add_*` helpers (crates/ff/src/lib.rs:465-572), whose doubled 128-bit sums
  carry no bound that excludes overflow.
- TonelliShanks.Sqrt: works on residues; that limbs in Montgomery form follow the same steps is what
  `MontgomeryFast.MultiplyElements` and `MontgomerySquare.SquareAgrees` say of each multiplication.
- Cube roots (`compute_cube_root_via_tonelli_shanks`), whose update need not lower the order.
- `shr`, `shl`, `mul2`, `num_bits`, reading and writing of representations, and the reading of exponents bit by bit:
  powers are the function `FieldPow`.
- Multiexp.MultiexpWithFixedWidth: takes the window width as a parameter, so it covers `multiexp` with the width its
  logarithm gives, and requires as many exponents as density bits, which the code asserts. Futures are joined in order.
- Multiexp.DenseMultiexp: takes the width and chunk size as parameters, and the mutex as the order of the additions.
- Curve formulas, pairings and affine conversion: groups are any commutative group.
- Wnaf.WnafForm: requires a window of at most 61, since 1 << (window + 1) and the signed digits are computed in 64-bit
  words; the windows the repository recommends are at most 22. The table of `wnaf_table` needs a window of at least 1,
  as 1 << (window - 1) does. The builder types around the three functions are left out.
- QapParameters.GenerateParameters: gives the queries as exponents. Their exponentiation by wNAF in both groups, the
  batch normalization, the filtering of identities and the verifying key are left out, and synthesis is any run of
  `Alloc`, `AllocInput` and `Enforce`.
- QapParameters.GenerateQueries: gives the queries as exponents, as above; its variables are evaluated in order, where
  the code splits them over threads that touch different entries.
- SapAssembly.KeypairAssembly.ConstrainIdentityAndInputs: ends where the counting assertions do; the queries of the gm17
  generator are not modelled.
- OpeningCompleteness.Complete: opens the setup at one point only. With lookups the code opens it at a shifted point as
  well, while `construct_set_difference_monomials` has no argument for it; the prover's assertions exclude lookups and
  custom gates, and these are left out.
- OpeningCompleteness.Complete: requires as many polynomials in a round as its opening set has points per coset, which
  stands for two assertions of the code: that their number is a power of two (crates/fflonk/src/utils.rs:56), and that
  the basis has one or two values for each of them (crates/fflonk/src/utils.rs:1057 and 1073).
- OpeningCompleteness.Complete: is given challenges, opening points as cosets with their n-th powers, and evaluations per
  round, where the code draws challenges from a transcript, computes the points from a root and flattens the
  evaluations; recomputing the quotient evaluations from the gates is left out.
- Interpolation.InterpolateRMonomial: is proved for every size; the code asserts powers of two for some.
- SparseDivision.DivideByHigherDegreeTerm: requires a divisor of positive degree below the length of the polynomial, as
  the unsigned subtraction of the degrees does; `OpeningCompleteness.ProveFirst` answers none where the prover would
  get there with a shorter one.
- Transcripts, hashing, serialization, Solidity templates, closures and namespaces of `ConstraintSystem`, prefetching,
  timing and logging, and crates/bellman/src/multiexp_experiments.rs.
