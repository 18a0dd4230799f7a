# Verified model of the precision-exploration numerics

This project models the exact-arithmetic certificates, the certified fast paths
and the analytical sweeps of the repository in Dafny 4.11, and proves what they
promise for all inputs. `dafny verify dfyconfig.toml` checks everything.

The thread that runs through it: a cheap check (a gcd step, a modular distance,
an a-priori error bound, a prefix bound, an event count) or a cheaper
computation (a histogram, an integer reduction, classes of equal tiles, a memo)
agrees with a simple reference on every input.

* `ExactArithmetic`, `IntArithmetic`, `IntegerSum`, `Quantum`, `FloatAccumulator`,
  `MacError`: exact rationals (written on reals), powers of two, floors and
  residues, gcd quanta and lattices, roundTiesToEven as in section 4.3.1 of IEEE
  754-2019, and the error bound of a sequential reduction.
* `Codebook`, `NearestStore`, `FormatStore`, `StoreMargin`, `SiteCheck`, `Operands`,
  `WeightHistogram`, `DyadicMac`, `PositMac`, `MarginMac`, `MappedMean`, `GraphRun`,
  `StoredGraph`, `DyadicGraph`, `CertifiedGraphs`: the store, its thresholds, and the
  MAC, mean and graph certificates.
* `MatrixProduct`, `GridUnits`, `GridBackend`, `GridConvolution`, `NarrowReduction`,
  `Convolution`, `RationalPacking`: the native fast paths and their weight cache.
* `TileSchedule`, `MemoryLayout`: the tiled memory schedule and packed layout.
* `SaturatingRegister`, `WidthCertificate`, `WidthPlan`, `DerivedWidths`: the
  accumulator-width sweep.
* `BlockedTensor`, `AccumulatorBounds`, `HolmAdjustment`: shared-scale tensors,
  a-priori accumulator bounds, and Holm's adjustment.

Loops and objects of the source are methods and classes here, each proved against
a specification function or predicate; the lemmas are about those.

Where the code does not do what it is described to do, the model follows the code
and says exactly when:

* The location phase of the width sweep is described as staying within 63 bits,
  but with 62 bits at half, 63 bits above and a certified width beyond 64 it keeps
  asking for 64 bits and never completes (`WidthPlan.LocationMayStall`,
  `WidthPlan.CompleteIff`).
* Holm's adjustment multiplies in binary64, so a product just above alpha can be
  rounded to alpha and rejected (`HolmAdjustment.RoundingRejects`,
  `HolmAdjustment.RejectsAsExact`).
* The weight cache trusts the read-only flag of an array; a writable view of the
  same memory makes it stale (`GridBackend.CertifiedBackend.AliasedWrite`,
  `GridBackend.CertifiedBackend.WritesKeepCurrent`).

## Model

| member | source | states |
|---|---|---|
| FloatAccumulator.RoundedError | public/inference/reference/arithmetic.py:104-131 | one store into a float accumulator moves a value by at most u times its magnitude plus half the smallest subnormal, subnormals and ties included |
| FloatAccumulator.NoOverflow | public/inference/reference/arithmetic.py:119-131 | a magnitude of at most the largest finite value never rounds to infinity |
| FloatAccumulator.RoundedMonotone | public/inference/reference/arithmetic.py:104-131 | rounding keeps the order of nonnegative values, across subnormals, binades and overflow to infinity |
| FloatAccumulator.RoundedFinite | public/analysis/phase3/fp64_bounds.py:32-34 | the range check of the bound keeps every stored value a real number |
| FloatAccumulator.RoundedExact | public/analysis/phase3/finite_fp64_nonmac.py:17-25 | an integer of at most p bits times a power of two not below the smallest subnormal is stored unchanged |
| FloatAccumulator.RoundedNearest | public/inference/reference/arithmetic.py:104-131 | no representable number is nearer to the value than the stored one |
| FloatAccumulator.RoundedRepresentable | public/inference/reference/arithmetic.py:104-131 | what is stored is representable: at most a full significand times a power of two not below the smallest subnormal |
| FloatAccumulator.RoundedTie | public/inference/reference/arithmetic.py:54-61 | a value half way between two neighbours, subnormals included, is stored as the one with the even significand |
| FloatAccumulator.OverflowsExactly | public/inference/reference/arithmetic.py:116-130 | a magnitude becomes infinite exactly from half a step beyond the largest finite value on |
| FloatAccumulator.SignKept | public/inference/reference/arithmetic.py:106-115 | zeros and infinities keep the sign of the value: a negative one that vanishes is the negative zero |
| FloatAccumulator.Binary64Constants | public/analysis/phase3/fp64_bounds.py:13-15 | unit roundoff, half smallest subnormal and largest finite value of the FP64 accumulator are the declared constants |
| MacError.ReductionError | public/analysis/phase3/fp64_bounds.py:18-34 | every prefix of a sequential reduction stays finite and within the growth bound of its exact sum, by induction over the roundings |
| MacError.ReductionBound | public/analysis/phase3/fp64_bounds.py:18-34 | the bound without a bias holds for every sequence of products of at most the given magnitude |
| MacError.MacBound | public/analysis/phase3/fp64_bounds.py:18-34 | with a bias, two more roundings: stored bias, final addition; the result of the whole model is within the bound of the exact dot product plus bias |
| MacError.ErrorBoundMeaning | public/analysis/phase3/fp64_bounds.py:19-34 | what a successful bound reports: rounding count, magnitude, error as a growth bound, and the exact overflow condition |
| MacError.ErrorBoundFails | public/analysis/phase3/fp64_bounds.py:19-34 | and when it is refused: no products, a negative magnitude, or so many roundings that n*u reaches one |
| MacError.SpecialSums | public/inference/reference/arithmetic.py:43-51 | sums of special values: they commute, infinities absorb numbers and cancel into no number, only two negative zeros stay one |
| Quantum.QuantumDivides | public/analysis/phase3/fixed_mac_bounds.py:10-14 | every value is an integer multiple of the gcd quantum |
| Quantum.QuantumGreatest | public/analysis/phase3/fixed_mac_bounds.py:10-14 | every step that all values are multiples of has the quantum as a multiple, so no larger step exists |
| Quantum.ExactGridSound | public/analysis/phase3/finite_fp64_nonmac.py:17-25 | when the test accepts, every bounded multiple of the step is exactly representable |
| Quantum.ExactGridIff | public/analysis/phase3/finite_fp64_nonmac.py:17-25 | on a maximum that is a site of the grid the test is exact: it accepts if and only if every bounded multiple of the power of two in the step is representable |
| Quantum.LowestTerms | public/analysis/phase3/finite_fp64_nonmac.py:22-24 | the reduced denominator divides that of every fraction of the same value |
| Codebook.BestIsBest | public/formats/oracle/number_format.py:261-270 | the stored entry is at least as near as any other, ties to even codes, then to the smaller code |
| Codebook.StoreConstant | development/acceptance_proofs/dyadic_fp_mac_store.py:72-76 | two targets with no threshold between them, ends included, store the same code, zero counting as a threshold when its sign is stored |
| Codebook.TiesToEven | public/formats/oracle/number_format.py:264-265 | of two equally near entries an even code is stored, and the smaller of two of one parity |
| Codebook.StoredCode | public/formats/oracle/number_format.py:268-270 | a stored zero takes the sign of the target where zeros are signed, and otherwise the code is that of the nearest entry |
| Codebook.ThresholdSeparates | development/acceptance_proofs/dyadic_fp_mac_store.py:72-75 | no threshold is superfluous: as near to it as one likes two targets have different nearest values, the zero of signed zeros apart |
| NearestStore.BisectLeft | public/formats/oracle/number_format.py:256 | binary search splits the table at the target |
| NearestStore.Store | public/formats/oracle/number_format.py:237-270 | for rounding to nearest even with saturation: saturation, bisection and the three-entry window always store a nearest value, and equal the search of the whole table when no value but a signed zero has two codes |
| NearestStore.WindowIsBest | public/formats/oracle/number_format.py:256-267 | the window's tie-breaking choice has the value of the best entry of the whole table |
| FormatStore.StepAtEnd | public/formats/oracle/number_format.py:248-251 | the step that overflow is tested against, or none exactly when the table has a single value |
| FormatStore.InsideAway | public/formats/oracle/number_format.py:257-267 | the window's choice is nearest in the whole table and of the largest magnitude among the nearest |
| FormatStore.InsideTruncated | public/formats/oracle/number_format.py:258-260 | the window's choice is the nearest of the whole table between zero and the target, or none exactly when there is none |
| FormatStore.StoreInside | public/formats/oracle/number_format.py:256-270 | every rounding mode inside the table; nearest-even is the search of the whole table where codes are unambiguous |
| FormatStore.Store | public/formats/oracle/number_format.py:224-270 | the stated code for every target, infinite ones and overflow to infinity included; a failure exactly for a missing NaN code, a single-valued table whose overflow is tested, or a truncation with nothing between zero and the target |
| FormatStore.OverflowBoundary | public/formats/oracle/number_format.py:245-251 | a target overflows exactly when it reaches the value one step beyond the table when truncating, and when it is at least as near to that value as to the end otherwise |
| FormatStore.InfinityOrExtreme | public/formats/oracle/number_format.py:232-236 | an infinite target is stored as the infinity of its sign, or without one as the extreme entry on that side |
| StoreMargin.GapBelow | development/acceptance_proofs/dyadic_fp_mac_store.py:88 | the modular gap of a residue is a lower bound for the distance of every site of the shifted lattice to the threshold |
| StoreMargin.GapAttained | development/acceptance_proofs/dyadic_fp_mac_store.py:88 | and some site is exactly that far away |
| StoreMargin.ThresholdDistance | development/acceptance_proofs/q1_6_mac_store.py:34-40 | the minimum over residues is the distance between the shifted lattice and the set of thresholds; it exceeds e exactly when the lattice is clear by e |
| StoreMargin.SiteRange | development/acceptance_proofs/dyadic_fp_mac_store.py:102-103 | the ceiling and floor indices bracket exactly the sites within the error of a threshold |
| StoreMargin.FewSites | development/acceptance_proofs/posit_mac_store.py:87-94 | at most one site per threshold when 2e < q, at most 17 when 2e is at most 16q |
| StoreMargin.SensitiveSites | development/acceptance_proofs/dyadic_fp_mac_store.py:100-107 | the loops collect exactly the bounded sites within the error of some threshold |
| StoreMargin.ClearStore | development/acceptance_proofs/dyadic_fp_mac_store.py:88-95 | a model value within e of a site that clears every threshold by more than e stores the same code |
| SiteCheck.InsensitiveSite | development/acceptance_proofs/dyadic_fp_mac_store.py:92-107 | a site outside the sensitive set is stored alike by exact and modelled arithmetic |
| SiteCheck.SensitiveSettle | development/acceptance_proofs/dyadic_fp_mac_store.py:92-121 | agreement at the sensitive sites is agreement at every bounded lattice site |
| SiteCheck.Mismatches | development/acceptance_proofs/dyadic_fp_mac_store.py:108-116 | the loop that stops at four examples is empty exactly when all listed sites agree |
| SiteCheck.CheckSites | development/acceptance_proofs/posit_mac_store.py:84-105 | no mismatch among the listed sites exactly when every bounded lattice site is stored alike; every reported one is sensitive and differs |
| Operands.DotOnLattice | development/acceptance_proofs/dyadic_fp_mac_store.py:71 | every dot product of finite codes, padding zeros included, is a multiple of the product of the two quanta |
| Operands.DotMagnitude | development/acceptance_proofs/dyadic_fp_mac_store.py:77-81 | the weight-magnitude bound covers the absolute products of every vector |
| Operands.ReductionExact | development/acceptance_proofs/dyadic_fp_mac_store.py:85 | on an exact grid no prefix of the reduction is ever rounded |
| WeightHistogram.CountCodes | development/acceptance_proofs/dyadic_fp_mac_store.py:80 | the counter holds the multiplicity of every code |
| WeightHistogram.WeightMagnitude | development/acceptance_proofs/dyadic_fp_mac_store.py:80-81 | the sum over the histogram is the sum over all weight positions |
| DyadicMac.SiteError | development/acceptance_proofs/dyadic_fp_mac_store.py:92-96 | adding the stored bias to an exact site and rounding once stays within the channel's error bound |
| DyadicMac.SitesNear | development/acceptance_proofs/dyadic_fp_mac_store.py:84-96 | every bounded lattice site is modelled by a number within the error bound |
| DyadicMac.VectorSite | development/acceptance_proofs/dyadic_fp_mac_store.py:71-85 | every vector of finite codes reaches a bounded lattice site, exactly, in the ordered reduction |
| DyadicMac.SitesSettleChannel | development/acceptance_proofs/dyadic_fp_mac_store.py:79-121 | agreement at every bounded lattice site is agreement for every vector of finite codes |
| DyadicMac.DecideSites | development/acceptance_proofs/dyadic_fp_mac_store.py:88-121 | strict margin exactly when the lattice is clear; otherwise proven exactly when the bias is stored as a plain number and every bounded site is stored alike |
| DyadicMac.CertifyChannel | development/acceptance_proofs/dyadic_fp_mac_store.py:79-121 | a proven channel stores, for every vector of finite codes, the same code under exact and FP64 arithmetic; each verdict is given exactly under its condition, a bias stored as negative zero included |
| GraphRun.RunsAgree | development/acceptance_proofs/dyadic_fp_mac_store.py:51-58 | two executions that agree at each MAC on the tensors fed to it agree on the stored codes of every node, by induction over the node list |
| GraphRun.Weight.RowAt | development/acceptance_proofs/dyadic_fp_mac_store.py:80 | code j of a channel is code channel*k + j of the constant |
| GraphRun.Weight.RowsAreCodes | development/acceptance_proofs/dyadic_fp_mac_store.py:80 | the rows of all channels, one after the other, are the codes of the constant |
| GraphRun.Layer.BiasOfChannel | development/acceptance_proofs/dyadic_fp_mac_store.py:82 | channel c has bias c of the list, or none without a list |
| GraphRun.Executed | public/quantization/graph/executable.py:120-152 | a node is evaluated on what its predecessors stored, and its tensor stays until its name is stored again |
| GraphRun.FedBySource | public/quantization/graph/executable.py:126 | a MAC reads the tensor of the last node before it that stores under its source, or the input of that name |
| GraphRun.MacOutput | public/quantization/graph/executable.py:145-152 | each output of a MAC is the store of its channel on what its taps deliver: decoded codes, and zero for padding |
| GraphRun.OtherOutput | public/quantization/graph/executable.py:126-152 | any other operator is applied to the tensors under its source and its further inputs |
| StoredGraph.GatheredOperands | development/acceptance_proofs/dyadic_fp_mac_store.py:71-71 | finite codes, and padding, reach a layer as operands of the format |
| StoredGraph.SettledGraphAgrees | development/acceptance_proofs/dyadic_fp_mac_store.py:122-132 | a graph whose layers are settled for all finite codes has equal runs under any two stores |
| StoredGraph.DyadicDomain | development/acceptance_proofs/dyadic_fp_mac_store.py:33-36 | the proof takes exactly the nonempty formats with signed zeros whose values are integers over powers of two |
| StoredGraph.ExactStored | development/acceptance_proofs/dyadic_fp_mac_store.py:109-114 | exact arithmetic stores the code of the dot product with the row of the channel plus its bias |
| DyadicGraph.CertifiedLayerAgrees | development/acceptance_proofs/dyadic_fp_mac_store.py:56-71 | a settled layer stores the same codes for every tensor of finite codes, padding taps included |
| DyadicGraph.CertifiedGraphAgrees | development/acceptance_proofs/dyadic_fp_mac_store.py:122-132 | a certified graph has equal exact and rounded runs on every environment with finite MAC inputs, for formats with and without signed zeros |
| DyadicGraph.CertifyLayer | development/acceptance_proofs/dyadic_fp_mac_store.py:78-124 | the channel loop: no pending channel means every channel is settled; counts and pending list follow the verdict of every channel; it fails exactly when a channel has no rounding bound |
| DyadicGraph.CheckMac | development/acceptance_proofs/dyadic_fp_mac_store.py:58-70 | the checks pass exactly for the declared accumulator, unscaled encodings of the format, finite weight codes and matching populations |
| DyadicGraph.ProveGraph | development/acceptance_proofs/dyadic_fp_mac_store.py:47-132 | a report exists exactly when there is a MAC and every node is accepted, one true row per MAC in node order; no pending channel implies that the exact and the FP64 run store the same codes at every node for every finite input |
| CertifiedGraphs.QuireGraphAgrees | development/acceptance_proofs/posit_mac_store.py:114-121 | a graph of proven posit channels stores the exact codes at every node |
| CertifiedGraphs.MappedGraphAgrees | development/acceptance_proofs/mapped_mac_store.py:71-80 | a graph of passed binary or ternary channels, each layer with its own scales, stores the codes of exact arithmetic at every node |
| CertifiedGraphs.MappedStored | development/acceptance_proofs/mapped_mac_store.py:55-66 | scaled exact arithmetic sums the scaled products, adds the bias and stores the quotient by the output scale |
| CertifiedGraphs.MeanLayerSettled | development/acceptance_proofs/mapped_mean.py:76-93 | an average over windows of the certified count is stored alike for all finite codes |
| CertifiedGraphs.AveragingGraphAgrees | development/acceptance_proofs/mapped_mean.py:76-93 | a graph of settled MACs and certified averages has equal runs |
| PositMac.QuireReduction | public/analysis/phase3/fixed_mac_bounds.py:49-57 | with products on the quire grid and headroom, every prefix of the saturating fixed-point reduction is exact |
| PositMac.QuireNearest | public/inference/reference/arithmetic.py:91-103 | what the quire stores is a code of its width over 2^fractional, and no other such value is nearer |
| PositMac.QuireTie | public/inference/reference/arithmetic.py:54-61 | a value half way between two register values is stored as the even one |
| PositMac.HeadroomFromChecks | public/analysis/phase3/fixed_mac_bounds.py:50-61 | the per-code grid check and the headroom inequality cover every vector of finite codes |
| PositMac.QuireModel | development/acceptance_proofs/posit_mac_store.py:70-79 | then the model is the exact dot product plus the stored bias |
| PositMac.DecideBias | development/acceptance_proofs/posit_mac_store.py:79-110 | each verdict exactly under its condition: exact bias store, strict margin, or a bias error of at most eight lattice steps with every bounded site stored alike |
| PositMac.CertifyQuireChannel | development/acceptance_proofs/posit_mac_store.py:69-110 | a proven posit channel stores the exact code for every vector of finite codes, and the verdict is the one its bias calls for |
| MarginMac.StrictMarginSettles | development/acceptance_proofs/q1_6_mac_store.py:46-49 | a reduction within its bound of a lattice that clears the thresholds is stored exactly |
| MarginMac.BiasedLatticeSettles | development/acceptance_proofs/q1_6_mac_store.py:50-51 | when the whole biased lattice is representable the model equals the exact value, so ties are safe |
| MarginMac.CertifyFixedPoint | development/acceptance_proofs/q1_6_mac_store.py:77-91 | both proven methods settle every input; each verdict exactly under its condition, and a pending channel reports the distance of the lattice from the thresholds; refused exactly without a bound |
| MarginMac.ScaledStore | development/acceptance_proofs/mapped_mac_store.py:55-56 | storing a value over a positive scale is storing it in the scaled table, ties included |
| MarginMac.ScaledTableStores | development/acceptance_proofs/mapped_mac_store.py:55-56 | agreement on the scaled table of the proof is agreement of the quotients stored in the unscaled table |
| MarginMac.MappedNearest | development/acceptance_proofs/mapped_mac_store.py:55-56 | the code of a mapped value is that of a table value that no other is nearer to the value over the scale |
| MarginMac.MappedOnLattice | development/acceptance_proofs/mapped_mac_store.py:58-62 | scaled dot products lie on the step formed from quanta and per-channel scales |
| MarginMac.ScaleOfChannel | development/acceptance_proofs/mapped_mac_store.py:61 | channel c has scale c, and one scale serves all channels |
| MarginMac.MappedMagnitude | development/acceptance_proofs/mapped_mac_store.py:57-65 | and within the scaled magnitude bound |
| MarginMac.CertifyMapped | development/acceptance_proofs/mapped_mac_store.py:60-75 | a passed channel stores, for every vector, the code of the exact value over the output scale; it passes exactly when the scaled lattice is clear |
| MappedMean.SumSite | development/acceptance_proofs/mapped_mean.py:28-34 | every sum of count stored values, in any order, is origin plus an index times the step, the index within the last site |
| MappedMean.LastSite | development/acceptance_proofs/mapped_mean.py:31-34 | the last index is an integer, so the refusal of an off-lattice domain cannot happen |
| MappedMean.CandidatesSuffice | development/acceptance_proofs/mapped_mean.py:42-48 | for every site some clipped candidate is no farther from the threshold, nonzero if it is, and the site itself if it is a tie |
| MappedMean.TryThreshold | development/acceptance_proofs/mapped_mean.py:42-48 | four deduplicated sites give the one possible tie and the nonzero minimum of scanning all sites of a threshold |
| MappedMean.ScanThresholds | development/acceptance_proofs/mapped_mean.py:39-49 | margin and number of ties over all thresholds are those of scanning every site |
| MappedMean.MeanError | development/acceptance_proofs/mapped_mean.py:35-38 | the rounded mean is within the bound: summation error over the count plus one more rounding |
| MappedMean.ProveMean | development/acceptance_proofs/mapped_mean.py:17-57 | a safe verdict stores the exact code for every order of count stored values; error, overflow, margin and ties are exactly those of the whole sum lattice |
| GridUnits.FiniteCodebook | public/inference/native_fp64_grid_v2.py:97-123 | integer units represent every finite code exactly; refused exactly for empty, non-dyadic or non-INT16 codebooks |
| GridUnits.UnitsExist | public/inference/native_fp64_grid_v2.py:112-122 | once the shift covers the denominator the scaled value is an integer, so only its size can be refused |
| GridUnits.AllowedUnits | public/inference/native_fp64_grid_v2.py:165-172 | the table marks exactly the units of finite codes |
| GridUnits.ScaledExact | public/inference/native_fp64_grid_v2.py:230-234 | ldexp of a record in the native range is exact |
| GridUnits.AdmittedValue | public/inference/native_fp64_grid_v2.py:228-242 | an admitted record carries exactly the value of its units, a finite value of the codebook |
| GridUnits.CodebookAdmitted | public/inference/native_fp64_grid_v2.py:228-242 | every record with a finite value of the codebook is admitted |
| GridUnits.PrefixBound | public/inference/native_fp64_grid_v2.py:199-205 | every prefix of the integer reduction is within the actual-weight bound |
| GridUnits.GridExact | public/inference/cpp/fp64_grid_v2.cpp:21-41 | the integer total times a power of two is the state of the fold that rounds after every fused multiply-add (section 5.4.1 of IEEE 754-2019), signed zeros included |
| GridUnits.AnyOrder | public/inference/native_fp64_grid_v2.py:3-7 | two orders of the same products leave the same state |
| GridUnits.SpecialProducts | public/inference/reference/arithmetic.py:43-51 | products of special values: they commute, signs of infinite and negative-zero products, no number for infinity times zero |
| GridUnits.RecordKinds | public/inference/native.py:55-61 | records of the five kinds decode to numbers, signed infinities, no number and the negative zero |
| GridBackend.CertifyMac | public/inference/native_fp64_grid_v2.py:190-218 | the recorded bounds are those of the units, channel by channel, with their attained maximum; refused exactly for nonfinite weights, no channels, or a bound beyond INT32 |
| GridBackend.CertifiedBackend.Weight | public/inference/native_fp64_grid_v2.py:283-303 | an entry answers from when it was made and everything else from the current contents; while the cache is valid that is what recomputing answers |
| GridBackend.FreshComplete | public/inference/native_fp64_grid_v2.py:292-303 | the lookup answers with the only record of these contents when units and attributes match |
| GridBackend.CertifiedBackend.Assign | public/inference/native_fp64_grid_v2.py:297-301 | a write through a view of memory that is not cached keeps the cache valid |
| GridBackend.CertifiedBackend.WritesKeepCurrent | public/inference/native_fp64_grid_v2.py:283-301 | every write through a view keeps every entry current if and only if the cache holds no view of the same memory, or that memory is empty |
| GridBackend.CertifiedBackend.AliasedWrite | public/inference/native_fp64_grid_v2.py:283-303 | after a write through a writable alias of a cached array the lookup still gives the old answer, where recomputing gives none |
| GridBackend.CertifiedBackend.Interleave | public/inference/native_fp64_grid_v2.py:283-303 | any interleaving of lookups and writes is answered from the contents of that moment, even when addresses are reused, as long as no writable view shares memory with a read-only one |
| GridBackend.GemmExact | public/inference/native_fp64_grid_v2.py:330-342 | integer kernel and sequential reduction agree at every output of a certified product |
| GridBackend.CertifiedBackend.FlexGemm | public/inference/native_fp64_grid_v2.py:330-346 | whichever kernel runs, every output state is that of the sequential reduction, for the certified kernel on records within the native range; it runs exactly on its conditions |
| GridConvolution.GridOutput | public/inference/cpp/fp64_grid_v2.cpp:45-75 | the kernel that skips taps outside the image computes the dot product over padded taps |
| GridConvolution.ConvolutionExact | public/inference/native_fp64_grid_v2.py:348-376 | for certified weights and admitted inputs that total is the state of the padded sequential reduction |
| GridConvolution.KernelIndices | public/inference/cpp/fp64_grid_v2.cpp:52-56 | the indices divided off one after the other are those of the state's output |
| GridConvolution.StatesOfImage | public/inference/cpp/fp64_grid_v2.cpp:40-56 | there is one state for every output channel and position of every image |
| GridConvolution.ConvolutionKernel | public/inference/cpp/fp64_grid_v2.cpp:40-75 | the kernel's loops write every output the state of its integer total |
| GridConvolution.ConvolutionAgrees | public/inference/native_fp64_grid_v2.py:359-371 | for certified weights and admitted inputs every state is that of the padded sequential reduction |
| GridConvolution.FlexConv2d | public/inference/native_fp64_grid_v2.py:349-374 | whichever kernel runs, every output state is that of the sequential reduction over padded taps, for the certified kernel on records within the native range; it runs exactly on its conditions |
| NarrowReduction.ShiftFits | public/inference/native.py:175-178 | the accepted shift never overflows 64 bits |
| NarrowReduction.MaximumInteger | public/inference/native.py:166-187 | the attained maximum of exact integer operands, prepared records or plain values, or none when one is not an integer or the records are too wide |
| NarrowReduction.MaximumOfValues | public/inference/native.py:180-185 | the branch over plain sequences: the largest numerator, refused exactly when some value is no integer |
| NarrowReduction.NarrowState | public/inference/native.py:188-193 | under the bound all prefixes fit INT32 and the widened two's-complement state is the INT64 code |
| NarrowReduction.Int32ReductionBound | public/inference/native.py:158-189 | acceptance decided exactly by the product of maxima, and sound for every reduction drawn from the operands and padding |
| NarrowReduction.WidenedProduct | public/inference/native.py:192-193 | under the bound the widened INT32 product is the INT64 product at every output |
| NarrowReduction.FlexGemm | public/inference/native.py:275-280 | the INT32 kernel runs exactly when the bound accepts and both sequences convert, and then its widened states are the INT64 states |
| Convolution.PaddedRange | public/inference/native.py:295-296 | by the output-size equation taps stay in the padded axis, and one more output would not |
| Convolution.TapsInPaddedImage | public/inference/native.py:318 | every tap row and column of every output lies in the padded image |
| Convolution.TapAt | public/inference/native.py:315-319 | the patch of an output lists its taps by channel, kernel row and kernel column |
| Convolution.BuildPatches | public/inference/native.py:310-319 | the nested loops build exactly the patches of all outputs in order |
| Convolution.PatchAt | public/inference/native.py:310-321 | row r of the patch matrix is the tap list of output r |
| Convolution.StateAddress | public/inference/native.py:322-325 | row and channel address their own state, injectively |
| Convolution.StateAddressed | public/inference/native.py:322-325 | and every state is addressed, so the scatter writes each exactly once |
| Convolution.TapOffset | public/inference/native.py:320-321 | a tap inside the image reads the input at its row-major offset, and padding contributes outside |
| Convolution.StateRowMajor | public/inference/native.py:324-327 | the state of an output is its row-major offset in the output image |
| Convolution.CheckGeometry | public/inference/native.py:287-294 | the checks accept exactly the 31-bit, positive, divisible geometries that meet both output-size equations |
| Convolution.GroupsCover | public/inference/native.py:291-296 | the groups take all input and output channels, and K counts the taps of one group |
| Convolution.Scatter | public/inference/native.py:322-325 | the scatter places a group's product and leaves every other state alone |
| Convolution.FlexConv2d | public/inference/native.py:286-326 | patches, group products and scatter give every output the reduction of direct grouped convolution in the same tap order; refused exactly for invalid geometry, a value of 2^31 or more included, for invalid payload, or for a product dimension of 2^31 or more |
| RationalPacking.CommonDivides | public/inference/rational.py:37 | the common denominator is a multiple of every finite operand's |
| RationalPacking.CommonLeast | public/inference/rational.py:34 | and it divides every number that they all divide |
| RationalPacking.ExactLowest | public/inference/rational.py:32-34 | an operand's denominator divides that of every fraction of its value |
| RationalPacking.AlignmentFactor | public/inference/rational.py:48-53 | the alignment factor is always a power of two, so its refusal cannot happen |
| RationalPacking.ProductExact | public/inference/rational.py:48-55 | the packed product, shifted and over the denominator, is exactly x times w |
| RationalPacking.PreparedPair | public/inference/rational.py:48-57 | the aligned product of every pair of operands is exact and fits the limbs |
| RationalPacking.LimbsReconstruct | public/inference/rational.py:64-65 | limbs reconstruct every number that fits them |
| RationalPacking.LimbsUnique | public/inference/rational.py:64-65 | two rows of the same number of 32-bit limbs that stand for one number are the same row |
| RationalPacking.Pack | public/inference/rational.py:67-82 | the memoised packing of every operand is its fresh packing |
| RationalPacking.PackingRoundTrip | public/inference/rational.py:61-82 | unpacking a row gives back the operand: value, infinity, no number or minus zero, with the sign of a number in its bit |
| RationalPacking.PreparedStates | public/inference/rational.py:46-57 | every finite state of the accumulator is an integer over the denominator that leaves four bits of the limbs free, the guarded denominator too |
| RationalPacking.FloatState | public/inference/rational.py:35-39 | every finite stored value of a float accumulator is an integer over 2^max(0, bias+m-1) of at most the declared state bits |
| RationalPacking.FixedState | public/inference/rational.py:40-44 | every code of a fixed-point accumulator is an integer over 2^fractional within its width |
| RationalPacking.AdditionFits | public/inference/rational.py:53-57 | a state and an aligned product add up within the limbs, whatever their signs |
| RationalPacking.DenominatorLeast | public/inference/rational.py:45-46 | every denominator that holds the products and all states is a multiple of the chosen one |
| RationalPacking.RequiredExactly | public/inference/rational.py:51-56 | a width suffices exactly when operands, aligned products, states and guard bits fit with four bits to spare |
| RationalPacking.Prepare | public/inference/rational.py:26-83 | a prepared kernel call represents operands, aligned products, denominator and every finite accumulator state exactly, each row in exactly the chosen number of 32-bit limbs, the smallest of 32, 64, 128 and 320 that suffices; refused exactly for special values in a fixed accumulator or more than 10240 bits |
| MemoryLayout.BankLoadsTotal | public/analysis/memory_model.py:69-72 | bank loads add up to the words and their maximum is ceil(words/banks), attained at bank zero |
| MemoryLayout.ArrayPacked | public/analysis/memory_model.py:57-66 | an array takes the fewest words on which every line starts on a word of its own |
| MemoryLayout.LoadDealt | public/analysis/memory_model.py:69-72 | the load of a bank is what it receives when the words are dealt round robin |
| MemoryLayout.TestIsStraddling | public/analysis/memory_model.py:149-150 | the modular test finds exactly the values with bits in two words |
| MemoryLayout.TestRepeats | public/analysis/memory_model.py:148-150 | the pattern repeats with period word/gcd(word, bits) |
| MemoryLayout.CrossesWord | public/analysis/memory_model.py:148-150 | checking one period decides whether any value of the line straddles a boundary |
| TileSchedule.ClassesAreTiles | public/analysis/memory_schedule.py:84-86 | a sum over classes with multiplicities is the sum over single tiles, for any cost |
| TileSchedule.PartsShape | public/analysis/memory_schedule.py:84-86 | classes have the sizes of the tiles, all different, and the same last size |
| TileSchedule.BankWords | public/analysis/memory_schedule.py:102-109 | the loop adds up the striped loads of all fields |
| TileSchedule.LastSegment | public/analysis/memory_schedule.py:194-204 | charging all segments alike and correcting the last is charging them in order, with output, bias and scale combined into the last one |
| TileSchedule.ChargeClass | public/analysis/memory_schedule.py:160-206 | one class changes every counter by its multiplicity times a single tile's cost, corrected once per output tile on the last class |
| TileSchedule.ChargeSpills | public/analysis/memory_schedule.py:208-218 | spills charge one round trip between consecutive segments |
| TileSchedule.ChargeCell | public/analysis/memory_schedule.py:145-218 | one class of output tiles changes every counter by its multiplicity times the naive cost of one tile |
| TileSchedule.ChargeLayer | public/analysis/memory_schedule.py:144-218 | all eleven totals equal the naive triple loop over single tiles, and external traffic is the sum of its parts |
| TileSchedule.Peak | public/analysis/memory_schedule.py:172-184 | the running maximum over classes is the attained maximum over all single tiles, for each of the six storage peaks |
| TileSchedule.EvaluateLayer | public/analysis/memory_schedule.py:116-223 | totals before and after mapped-scale caching against the naive loop; all six storage peaks; all-fit exactly when every single tile fits, and not reported without a bank depth |
| TileSchedule.TileArrays | public/analysis/memory_schedule.py:147-162 | a tile has m lines of k weights, p or m*p lines of k inputs, m lines of p outputs and their biases, each packed on the fewest words, with the scales its format asks for |
| TileSchedule.SegmentCycles | public/analysis/memory_schedule.py:187-204 | a segment's port cycles are the fewest that serve every bank its share, with output scales, biases and outputs on the last one |
| TileSchedule.OccupancyOfBanks | public/analysis/memory_schedule.py:171-186 | the occupancy is the least depth that holds every bank, operands twice when double-buffered |
| TileSchedule.UsedByTile | public/analysis/memory_schedule.py:150-184 | the storage of a tile in terms of its allocated arrays, two copies of operands when double-buffered |
| TileSchedule.AllocatedRows | public/analysis/memory_model.py:57-66 | an allocation is the fewest whole rows of banks that hold its words |
| TileSchedule.SegmentCompute | public/analysis/memory_schedule.py:205-211 | a segment computes for the fewest cycles that perform its products, and a spill moves the fewest words that hold its accumulators |
| TileSchedule.ProductsConserved | public/analysis/memory_schedule.py:132 | the tiles perform every product of the layer exactly once |
| SaturatingRegister.Saturating | tools/scaled_bridge_v2/oracles.py:21-30 | the loop computes the register and counts upward and downward clamps apart; the total fits, is exact without a clamp, and a last add that clamped ends at the end of the range it left |
| SaturatingRegister.RegisterNearest | tools/scaled_bridge_v2/oracles.py:25-29 | one clamped add leaves the number of the range nearest to the exact sum |
| SaturatingRegister.LastClamp | tools/scaled_bridge_v2/oracles.py:26-29 | an add clamped upward leaves the largest number of the width, one clamped downward the smallest |
| SaturatingRegister.QuietIffPrefixesFit | tools/scaled_bridge_v2/oracles.py:21-30 | no event exactly when every exact prefix sum fits the width |
| SaturatingRegister.WiderIsQuiet | tools/accumulator_sweep_v1/protocol.py:89-91 | an event-free width is event-free and equal at every wider width |
| SaturatingRegister.QuietRunIsExact | tools/accumulator_sweep_v1/protocol.py:89-91 | an event-free network run is the exact run at every node |
| SaturatingRegister.QuietRunsWiden | tools/accumulator_sweep_v1/score.py:55-60 | over a whole network, whose wider runs feed their own codes forward, an event-free width makes every wider width event-free and exact |
| WidthCertificate.PrefixInRange | tools/scaled_bridge_v2/certificates.py:3-7 | every prefix of a channel's products lies between the sums of the smallest and of the largest terms |
| WidthCertificate.RangeWithinAbsolute | tools/scaled_bridge_v2/certificates.py:199-202 | the absolute bound of a channel covers that interval |
| WidthCertificate.SignedBitsSmallest | tools/scaled_bridge_v2/certificates.py:152-157 | signed_bits is the smallest register that holds an interval: exactly the widths from it upward do |
| WidthCertificate.RangeAttained | tools/scaled_bridge_v2/certificates.py:197-202 | inputs at the ends of the code range reach both ends of the interval, and inputs of the largest magnitude the absolute bound |
| WidthCertificate.NetworkBitsSmallest | tools/scaled_bridge_v2/certificates.py:213-227 | the certified width is the smallest that holds the absolute bound of every channel of every MAC |
| WidthCertificate.ChannelIsQuiet | tools/scaled_bridge_v2/certificates.py:3-10 | a register of the absolute width has no event on any tensor of codes, padding included |
| WidthCertificate.CertifiedRunIsQuiet | tools/scaled_bridge_v2/certificates.py:213-227 | no register of at least the network's certified width has an event at any node, on any input |
| WidthPlan.Ladder | tools/accumulator_sweep_v1/plan.py:18-26 | rungs descend by three within [2, 63], at most twelve, and stop only at twelve or below two |
| WidthPlan.CleanTop | tools/accumulator_sweep_v1/plan.py:44-48 | the scan finds the narrowest width with no event at it or above |
| WidthPlan.Refine | tools/accumulator_sweep_v1/plan.py:34-56 | exactly the unmeasured widths beside the two transitions, widest first |
| WidthPlan.RefineMayLeaveTheCap | tools/accumulator_sweep_v1/plan.py:53-56 | in a run certified at 75 bits that measured 61 to 63, all with events and only 63 above half, refine proposes width 64 |
| WidthPlan.LocationMayStall | tools/run/accumulator_sweep_run.py:248-261 | that run has monotone events and is exact where event-free, and its location phase never completes |
| WidthPlan.RefineAdmissible | tools/accumulator_sweep_v1/plan.py:53-56 | refine stays within 63 bits exactly outside that pattern |
| WidthPlan.Bracket | tools/accumulator_sweep_v1/plan.py:63-82 | 2 <= bottom <= top <= min(certified-1, 63), top from the narrowest clean width, bottom from the widest width at or below half |
| WidthPlan.RefinedTop | tools/accumulator_sweep_v1/plan.py:34-82 | once the ladder met an event, the refined measurements pin the transition |
| WidthPlan.ProposedIsClimbed | tools/accumulator_sweep_v1/plan.py:53-56 | below an eventful first rung of 63, refine adds only widths climbed to from the widest rung at half |
| WidthPlan.CompleteIff | tools/run/accumulator_sweep_run.py:248-261 | the location phase completes if and only if the measurements are not of the stalling pattern, stated on the certified width and the measurements alone |
| WidthPlan.Settle | tools/run/accumulator_sweep_run.py:215-228 | the refinements end with every proposed width measured, except those that no register has |
| WidthPlan.HalfSettled | tools/accumulator_sweep_v1/plan.py:53-56 | once complete, the two widths above the widest one at half are measured and above half |
| WidthPlan.Locate | tools/run/accumulator_sweep_run.py:199-261 | ladder, refinements, bracket: a bracket exists exactly when the phase completes; the ladder stops at its first rung at half; if a measured rung had an event the top is the narrowest event-free width, or the cap when there is none; the bottom lies a margin below the widest width at half, whose upper neighbours are measured |
| WidthPlan.Screen | tools/run/accumulator_sweep_run.py:304-314 | iterating the extensions ends event-free or at the cap, and with two widths below half or at two bits; each width added below was still called for |
| DerivedWidths.Narrowest | tools/accumulator_sweep_v1/score.py:66-72 | the scan returns the least safe setting whose condition holds there and at every safer one, or none exactly when the safest fails |
| DerivedWidths.NoEventThreshold | tools/accumulator_sweep_v1/score.py:73-74 | with monotone events, noevent is the least safe event-free measured setting |
| DerivedWidths.HardwareDerivedIsExact | tools/accumulator_sweep_v1/plan.py:97-100 | every derived hardware width gives the exact run at every node of every input, with the certified width taken from the weights |
| DerivedWidths.HardwareWidths | tools/accumulator_sweep_v1/plan.py:97-100 | of the widths 16, 20, 24, 28 and 32 exactly those above an event-free width or at least the certified one |
| DerivedWidths.MeasuredSettings | tools/accumulator_sweep_v1/score.py:55-63 | settings taken from monotone measurements have monotone events, with larger widths safer and with smaller deficits safer |
| DerivedWidths.SaferOrder | tools/accumulator_sweep_v1/score.py:63 | of two settings the larger width, or the smaller deficit, is the safer one |
| DerivedWidths.ImagesCounted | tools/accumulator_sweep_v1/score.py:22 | the event count of a width is the number of inputs whose run is not quiet |
| DerivedWidths.MeasurementsAreMonotone | tools/accumulator_sweep_v1/protocol.py:89-91 | measurements of whole runs have monotone events, and the exact score wherever they have none, which is what the search relies on |
| BlockedTensor.Offset | public/inference/tensor.py:69-77 | the loop computes the row-major offset, refused exactly for a wrong rank or a position outside |
| BlockedTensor.OffsetOfIndex | public/inference/tensor.py:69-77 | offset inverts the index at an offset |
| BlockedTensor.IndexOfOffset | public/inference/tensor.py:69-77 | and the index at the offset is the index, so offset is a bijection |
| BlockedTensor.IndicesAt | public/inference/tensor.py:65-66 | the enumeration of indices follows the offsets |
| BlockedTensor.BlockOwnsAddress | public/inference/tensor.py:54-60 | every element of a block belongs to that block and to no other |
| BlockedTensor.AddressInBlock | public/inference/tensor.py:122-130 | every element is an element of its block |
| BlockedTensor.BlockScales | public/inference/tensor.py:51-61 | the loops compute one scale per block from exactly its values, in the order of the scale shape |
| BlockedTensor.Quantize | public/inference/tensor.py:152-165 | every element is coded with the scale addressed by its own index |
| BlockedTensor.ScaleGranularity | public/inference/tensor.py:122-130 | which elements share a scale: all of them, those of one position along the axis, or those of one block |
| BlockedTensor.ValidateShape | public/inference/tensor.py:105-120 | the checks accept exactly positive dimensions, an axis inside the rank and the number of scales of the scaling |
| BlockedTensor.QuantizeShared | public/inference/tensor.py:46-62 | every element is stored and read with the scale of exactly the block that contains it |
| AccumulatorBounds.WidthHolds | tools/analysis/phase2_accumulator_bounds.py:24-45 | every prefix of every length-k product of finite codes is a grid integer that fits the reported signed width |
| AccumulatorBounds.WidthSmallest | tools/analysis/phase2_accumulator_bounds.py:31-46 | a register holds every sum of k products of finite codes exactly when it has at least the reported width |
| AccumulatorBounds.PrecisionSmallest | tools/analysis/phase2_accumulator_bounds.py:41-43 | the precision is the least p with the magnitude below 2^p grid steps |
| AccumulatorBounds.CoversExactly | tools/analysis/phase2_accumulator_bounds.py:44-45 | a format covers the grid exactly when it has the step and the magnitude fits its range and its significand |
| AccumulatorBounds.BoundsFail | tools/analysis/phase2_accumulator_bounds.py:21-30 | no bounds exactly for no terms or a zero quantum |
| AccumulatorBounds.CoveredReductionIsExact | tools/analysis/phase2_accumulator_bounds.py:38-46 | when a format covers the grid, the sequential reduction in it never rounds |
| HolmAdjustment.Sorted | tools/analysis/b_stage_balanced_comparisons.py:48 | a sorting of the indices that keeps ties in index order |
| HolmAdjustment.Holm | tools/analysis/b_stage_balanced_comparisons.py:47-53 | the in-place loop leaves the running maximum of the rounded products at every index |
| HolmAdjustment.Adjust | tools/analysis/b_stage_balanced_comparisons.py:47-53 | the same with the order computed from the values |
| HolmAdjustment.RejectsAsStepDown | tools/analysis/b_stage_balanced_comparisons.py:49-52 | an adjusted value is at most alpha exactly when the binary64 product of every rank so far is at most alpha |
| HolmAdjustment.RejectsAsExact | tools/analysis/b_stage_balanced_comparisons.py:49-52 | against exact products: rejected exactly when every product so far is at most alpha or is rounded to alpha; below alpha the two procedures agree |
| HolmAdjustment.RoundingRejects | tools/analysis/b_stage_balanced_comparisons.py:51-51 | with seven values, 7 * 0.0071428571428571435 exceeds 0.05 and is rounded to it |
| HolmAdjustment.RunningGrows | tools/analysis/b_stage_balanced_comparisons.py:49-52 | results are monotone in p |
| HolmAdjustment.RunningBounds | tools/analysis/b_stage_balanced_comparisons.py:49-52 | results lie between p and one |
| HolmAdjustment.TiesDoNotMatter | tools/analysis/b_stage_balanced_comparisons.py:48-52 | the result of an index does not depend on how equal values are ordered |

## Left out

- Files, JSON, hashes, archives, ctypes binding, builds and report writers: input and output with identity comparisons only.
- Content hashes: a weight is identified by its records and units themselves, as if SHA-256 had no collisions.
- Native kernel bodies: a kernel is the fold it implements; the INT32 and rational kernels are not modelled instruction by instruction.
- Bit layouts of number formats: a format is its list of finite codes and exact values; logarithmic formats enter with the values the oracle declares.
- Decimal precision of the oracle (200 and 1200 digits): scales, quotients and codes are exact rationals.
- NaN, infinite and NaR operands of the MAC certificates, which the source excludes as well; the grid backend's fallback does handle them.
- Fused activations between accumulation and store, and other graph operators: a non-MAC operator is any function of stored codes, the same in both executions.
- Graph loops of the posit, Q1.6, mapped and mean proofs: their channel and count decisions and what those mean for whole graphs are proved, and the loop that checks and reports every node is modelled once, for the dyadic formats.
- Reported examples, record order and counters of the certificate reports beyond their counts and pending channels; sensitive sites are kept in discovery order.
- GraphGridCertificate's list of selected graphs, its 21-node requirement and its duplicate check: records are those of any certified weights.
- GridBackend.CertifiedBackend.FlexGemm: says nothing about the certified kernel on records outside the native range, which the constructor of native values excludes but a later write to a writable array would not; refusals of the fallback are not modelled.
- GridConvolution.FlexConv2d: the same for convolutions; geometry values are natural numbers.
- NarrowReduction.FlexGemm: whether plain values convert to native records is an input; the same dispatch of convolutions is not modelled.
- GridBackend.CertifiedBackend.Assign: read-only views stay read-only, so setting the writeable flag back is not modelled; two views share all of their memory or none.
- NearestStore.Store: equality with the whole-table search is stated for tables in which only a signed zero repeats a value.
- FormatStore.Store: the division of the target by a scale, which callers do on exact quotients.
- RationalPacking.Prepare: accumulator families without a mantissa or fractional field, unsigned accumulators and shape mismatches are refused before this point.
- TileSchedule.EvaluateLayer: float-valued rates, roofs and delivered bandwidth, and the packed sizes of whole activations.
- WidthPlan.Locate: jobs of admissible widths that fail, and jobs that run at the same time; the measurement of a width is a function of the width.
- WidthCertificate: structural and closure input ranges, and the choice of kernel operands.
- DerivedWidths: image_scores and node_event_rates, which only copy and count fields.
- HolmAdjustment.Holm: the factor len - rank is exact, as it is for fewer than 2^53 values.
- HolmAdjustment: bootstrap intervals, McNemar tests and the report around the adjustment.
- covering of measured tiles, arithmetic_envelope, throughput roofs, COCO evaluation and model execution.
