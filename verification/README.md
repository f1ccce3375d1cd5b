# FluxScript core: a Dafny model

Dafny models of eight components of FluxScript and proofs about them. Each model takes the form of the code it
stands for: in-place algorithms work on arrays, objects that update their fields are classes, and the functions
those methods are proved against carry the theorems. `dafny verify dfyconfig.toml` checks the whole project.

* **Fast Fourier transform** (`Complex`, `Trigonometry`, `Fft`, `FftLaws`, `FftTones`, `Spectrum`, `SpectrumLaws`,
  `FundamentalNoise`, `ReportLaws`). The in-place Cooley-Tukey recursion computes the discrete Fourier sum for every input of length n
  exactly when n is 0 or a power of two. It multiplies energy by n, is injective, mirrors real signals, keeps the
  spectrum of a padded power-of-two signal in the even bins, and finds a tone of p turns at bin p and nowhere else. The report's peak, harmonic and noise figures are tied to
  that sum. Arithmetic is exact; the library functions are a record `Libm` whose laws (`TrigLaws`, `RootLaws`, `LogLaws`) are the addition,
  opposite-angle and half-turn laws, the square root law, the sign of the logarithm below 1 and, for the decibel figures,
  its value at 1 and at products with 10. The twiddle laws
  are derived from them.
* **Lowering to SSA** (`FluxAst`, `Ssa`, `Lowering`, `ModuleLowering`, `LoweringLaws`, `LoweringHealth`, `ModuleLaws`,
  `ProgramLaws`, `ComparisonLaws`, `Signatures`, `SignatureLaws`, `Diagnostics`, `DiagnosticLaws`).
  The pass with its scope stack, symbol table and op stream against an evaluator with plain lexical environments.
  Running the emitted operations gives the value and the history of calls that evaluation gives, for every meaning of
  the arithmetic and of the called functions. Programs lower exactly when a static scope rule accepts them, and
  lowered modules are well-formed. Every symbol has the signature that the program's prototypes give its name, whole
  programs mean the same before and after (`ProgramLaws`), and the error of a refused program is the first one in it.
* **Dependency resolution** (`Decimals`, `Strings`, `Versions`, `Resolver`, `DependencyResolver`, `ResolverLaws`,
  `ResolutionLaws`, `DepthLimit`, `Completeness`, `Ranges`, `VersionLaws`). The recursive search with its in-place assignment and path: soundness on every registry,
  termination and the depth guard, the conflict chain, selection of the greatest version, and the least solution when
  every package has one version.
* **Tiered JIT bookkeeping** (`JumpPatch`, `Jit`, `JitLaws`, `JitRuns`, `JitLookups`,
  `JitAdditions`, `FluxJit`). A state machine over the maps,
  counters, saved copies and code bytes: every address ever handed out for a name keeps running that name's definition
  after at most one jump, and promotion happens exactly when the counters say so.
* **Parallel task claiming** (`TaskClaim`) as interleaved atomic steps of any number of workers: every
  schedule is finite and ends with the sequential result.
* **Laplacian matrices** (`SparseMatrix`, `LaplacianLaws`, `LaplacianQuadratics`): the builders, their stencils,
  symmetry and negative definiteness for every grid, and exactness on quadratics.
* **Worst-case analysis** (`WorstCase`, `WorstCaseLaws`): which corners the bit masks visit and when they bound the
  whole tolerance box.
* **TOML and percent-encoding** (`Toml`, `TomlLaws`, `TomlForms`, `UrlCodec`): for which documents and strings printing and
  parsing undo each other.

Where the code does not do what its comments or its name promise, the model follows the code:

* A closed version range `>=a,<=b` loses its upper end (`ClosedRangeLosesItsEnd`); only ranges of `>=` and `<` mean both
  of their halves (`RangesMeanBothExactly`).
* The fundamental's own bin is filed under noise exactly from bin 2 on (`NoiseIgnoresFundamentalExactly`), and then the
  reported signal-to-noise ratio is negative (`RatioIsNegative`), for a single clean tone too (`SineIsReportedAsNoise`).
* The lowering emits the ordered `!=`, where the code generator (src/compiler/core/binary_codegen.cpp:1107) emits the
  unordered one: a NaN differs from itself in the one and not in the other (`ReadingsAgreeExactly`).
* The corner loop stops at 256 corners, so the extremes bound the box exactly when no component after the eighth has a
  tolerance (`CornersBoundBoxExactly`).
* A module that is rejected leaves its saved copies behind, and a later promotion of the same name recompiles the
  rejected definition (`RejectedCopyIsPromoted`); `AddDecidesPromotion` says exactly when.
* A name looked up before a module defines it keeps the pointer of the process (`ProcessPointerIsReturned`);
  `FirstLookupRunsExactly` says exactly when a first lookup runs the definition.
* The greedy search never goes back to an older version (`GreedyCanMiss`), and its depth is limited (`LimitIsTight`):
  it is complete on the registries with given versions exactly when no package has more than one version and there are
  at most 100 packages (`SearchIsCompleteExactly`).
* A TOML value that starts with an integer is read as that integer, so a double with digits before its point loses its
  fraction (`NumbersLoseTheirTail`).
* The patch of a function unprotects one page only, which holds all five bytes exactly when the patch starts early
  enough in the page (`PatchFitsPage`).

## Model

| member | source | states |
|---|---|---|
| Trigonometry.TwiddleAdds | src/analysis/fft_engine.cpp:91 | The factor at a sum of indices is the product of the factors. |
| Trigonometry.TwiddleHalf | src/analysis/fft_engine.cpp:91 | The factor half way round is -1. |
| Trigonometry.TwiddleDoubles | src/analysis/fft_engine.cpp:91 | The factor of the double length at the double index is the factor of the length. |
| Trigonometry.TwiddlePeriodic | src/analysis/fft_engine.cpp:91 | The factors repeat with the length. |
| Trigonometry.TwiddleConjugates | src/analysis/fft_engine.cpp:91 | The factor at the opposite index is the conjugate. |
| Trigonometry.TwiddleIsUnit | src/analysis/fft_engine.cpp:91 | Every factor has modulus 1. |
| FourierTransform.Divide | src/analysis/fft_engine.cpp:78-83 | The two new vectors hold the even and the odd samples. |
| FourierTransform.Butterflies | src/analysis/fft_engine.cpp:89-94 | Writing over x in place yields the combine function of the old x and the two halves, whatever the length. |
| FourierTransform.Fft | src/analysis/fft_engine.cpp:72-95 | The in-place recursion leaves the recursive transform of the old x; on a power-of-two length that is the discrete Fourier sum of the old x. |
| FourierTransform.CombineIsDft | src/analysis/fft_engine.cpp:89-94 | One combine step of the Fourier sums of the halves is the Fourier sum of the whole, for every even length. |
| FourierTransform.SumSplits | src/analysis/fft_engine.cpp:89-94 | The Fourier sum splits by the parity of the sample index into two half-length sums, one of them rotated. |
| FourierTransform.TransformIsDft | src/analysis/fft_engine.cpp:72-95 | On every power-of-two length the recursion is the discrete Fourier transform. |
| FftTones.ToneIsFound | src/analysis/fft_engine.cpp:72-95 | The samples exp(2 pi i p k / n), written with the cosine and the sine, come out as n at output p and as 0 at every other one. |
| FourierLaws.LastSampleIsDropped | src/analysis/fft_engine.cpp:72-95 | On every other positive length the recursion loses a last-sample impulse from output 0. |
| FourierLaws.TransformIsDftExactly | src/analysis/fft_engine.cpp:72-95 | All inputs of length n are transformed correctly if and only if n is 0 or a power of two. |
| FourierLaws.CombineEnergy | src/analysis/fft_engine.cpp:89-94 | The first k butterflies double the energy of the first k entries of the two halves. |
| FourierLaws.EnergyScales | src/analysis/fft_engine.cpp:72-95 | Parseval: the output carries n times the energy of the input. |
| FourierLaws.TransformIsInjective | src/analysis/fft_engine.cpp:72-95 | Two signals with the same spectrum are the same signal. |
| FourierLaws.RealSpectrumMirrors | src/analysis/fft_engine.cpp:119-133 | For a real signal the outputs at k and n - k are conjugate, which is why the report looks at the first half. |
| FourierLaws.PaddingKeepsEvenBins | src/analysis/fft_engine.cpp:107-111 | Appending as many zeros as there are samples keeps the spectrum of a power-of-two signal in the even bins. |
| SpectrumAnalysis.FftEngine.constructor | src/analysis/fft_engine.cpp:31 | Sample rate 1000 and a hanning window. |
| SpectrumAnalysis.FftEngine.SetSampleRate | src/analysis/fft_engine.cpp:35-38 | The sample rate is replaced. |
| SpectrumAnalysis.FftEngine.SetWindowType | src/analysis/fft_engine.cpp:40-43 | The window type is replaced. |
| SpectrumAnalysis.FftEngine.ApplyWindow | src/analysis/fft_engine.cpp:49-66 | Every sample is scaled by its window weight in place; with no window nothing changes. |
| SpectrumAnalysis.FftEngine.PaddedLength | src/analysis/fft_engine.cpp:107-111 | The padded length is a power of two, at least twice the size and below four times a nonempty size. |
| SpectrumAnalysis.FftEngine.FindPeak | src/analysis/fft_engine.cpp:119-151 | The loop finds the first greatest magnitude of the first half (bin 0 for silence) and records every point of it. |
| SpectrumAnalysis.FftEngine.SplitPower | src/analysis/fft_engine.cpp:156-175 | The loop files the power of every bin from 2 on under harmonics or under noise. |
| SpectrumAnalysis.FftEngine.SearchHarmonic | src/analysis/fft_engine.cpp:163-171 | The loop decides whether some multiple from 2 to 10 of the fundamental lies within two bins. |
| SpectrumAnalysis.FftEngine.Compute | src/analysis/fft_engine.cpp:101-186 | The report is the one of the plain Fourier sum of the padded, windowed signal, at its first greatest magnitude. |
| ReportLaws.WindowsWeigh | src/analysis/fft_engine.cpp:49-66 | What each window weighs at its ends, in its middle and a quarter in. |
| ReportLaws.WindowsAreSymmetric | src/analysis/fft_engine.cpp:49-66 | A window is the same forwards and backwards. |
| ReportLaws.BinIsFrequency | src/analysis/fft_engine.cpp:134 | Bin p is reported as the frequency whose tone turns p times in the padded signal. |
| ReportLaws.DistortionIsPercentage | src/analysis/fft_engine.cpp:177-183 | The squared distortion times the squared peak is 10000 times the harmonic power; without a peak it is 0. |
| ReportLaws.DecibelsCountDecades | src/analysis/fft_engine.cpp:138 | A magnitude of one sample in n is at 0 dB, and a tenfold argument 20 dB higher. |
| ReportLaws.RatioCountsDecades | src/analysis/fft_engine.cpp:179-183 | Equal power is 0 dB, a tenfold power ratio 10 dB more, silence -120 dB. |
| ReportLaws.ReportFields | src/analysis/fft_engine.cpp:101-155 | The frequencies, rate and sizes of a report in terms of the signal. |
| SpectrumLaws.PeakIsUnique | src/analysis/fft_engine.cpp:141-144 | A spectrum has exactly one reported peak: nothing before it is as great, nothing behind it is greater. |
| SpectrumLaws.HarmonicByIndex | src/analysis/fft_engine.cpp:159-171 | At every positive sample rate the frequency test is a test on bin numbers, within one bin of a multiple; at any other rate nothing passes it. |
| SpectrumLaws.DcPeakHasNoDistortion | src/analysis/fft_engine.cpp:156-183 | A spectrum that peaks at bin 0 is reported with no distortion. |
| SpectrumLaws.NoiseHoldsBin | src/analysis/fft_engine.cpp:172-174 | The noise power contains the power of the fundamental's own bin from bin 2 on. |
| SpectrumLaws.RatioIsNegative | src/analysis/fft_engine.cpp:172-183 | With a fundamental at bin 2 or later the reported signal-to-noise ratio is below 0 dB. |
| FundamentalNoise.NoiseIgnoresFundamentalExactly | src/analysis/fft_engine.cpp:156-175 | The noise power does not depend on the fundamental's own bin if and only if that bin is 0 or 1. |
| FundamentalNoise.SineIsReportedAsNoise | src/analysis/fft_engine.cpp:101-186 | The unwindowed signal 1, 0, -1, 0 is padded to 8 samples, has its fundamental at bin 2 and is reported below 0 dB, at every sample rate. |
| SpectrumLaws.PowerIsConserved | src/analysis/fft_engine.cpp:156-175 | Twice the harmonic and noise power, plus the bins the loop skips, is n times the energy of the real signal. |
| FluxAst.ScopeDecides | src/mlir/flux_mlir.cpp:281-434 | Evaluation is defined exactly where the static scope rule says, and binds exactly the names it says, whatever the values. |
| LoweringLaws.ScopesAreKept | src/mlir/flux_mlir.cpp:281-434 | On success and on failure the scope depth is unchanged, no scope but the innermost changes, and operations are only appended. |
| LoweringLaws.OperatorAgrees | src/mlir/flux_mlir.cpp:315-377 | Arithmetic, power and comparisons compute on the emitted operands what evaluation computes. |
| LoweringLaws.ArgsAgree | src/mlir/flux_mlir.cpp:380-387 | The arguments are lowered from left to right, stopping at the first failure, as evaluation takes them. |
| LoweringLaws.CallAgrees | src/mlir/flux_mlir.cpp:379-402 | A call passes the evaluated arguments to the named function, declared or not, and fails exactly when it returns nothing. |
| LoweringLaws.LetInAgrees | src/mlir/flux_mlir.cpp:404-419 | A `let` with a body shadows inside the body only. |
| LoweringLaws.BlockAgrees | src/mlir/flux_mlir.cpp:421-434 | A block yields its last value, or 0.0, and gives its bindings back. |
| LoweringLaws.BlockStartsWithZero | src/mlir/flux_mlir.cpp:421-423 | A block starts with 0.0, all bits zero, and so do the operations it is lowered to. |
| LoweringLaws.LoweringAgrees | src/mlir/flux_mlir.cpp:281-434 | An expression lowers exactly when it has a meaning, and running the emitted operations gives its value, its bindings and its calls, with `!=` false of unordered operands. |
| LoweringLaws.PopUndoesPush | src/mlir/flux_mlir.cpp:247-249 | Leaving a scope restores exactly the stack it was entered with. |
| LoweringHealth.LoweringIsHealthy | src/mlir/flux_mlir.cpp:281-434 | Whether or not an expression lowers, every operand emitted is defined earlier, every callee is declared and every symbol declared once. |
| Lowering.SymbolsGrow | src/mlir/flux_mlir.cpp:389-398 | Lowering an expression changes no symbol and adds declarations only. |
| ModuleLaws.FunctionAgrees | src/mlir/flux_mlir.cpp:486-529 | A definition lowers exactly when its body has a meaning under its parameters; the body emitted returns that meaning, or nothing for a void function. |
| ModuleLaws.FunctionsLowerExactly | src/mlir/flux_mlir.cpp:109-137 | The definitions lower exactly when no name is defined twice and every body obeys the scope rule. |
| ModuleLaws.DeclarationsFailExactly | src/mlir/flux_mlir.cpp:180-204 | Declaring fails exactly when the first prototype of a name takes an argument of no type. |
| SignatureLaws.ProgramIsDeclared | src/mlir/flux_mlir.cpp:180-235 | Every name is declared with the arguments and the result of its builtin, else of the program's first prototype of that name. |
| SignatureLaws.DeclaringFailsExactly | src/mlir/flux_mlir.cpp:180-204 | Declaring fails exactly when a prototype that counts takes an argument of no type. |
| SignatureLaws.ModuleLowersExactly | src/mlir/flux_mlir.cpp:109-137 | The whole pass succeeds on exactly the programs whose prototypes take no void, whose definitions have different names and whose bodies obey the scope rule, void calls taken from the prototypes. |
| SignatureLaws.ModuleSignatures | src/mlir/flux_mlir.cpp:109-137 | In a lowered module every name of the program has the arguments of its first prototype and a result exactly when that prototype returns a double; a name that is only called returns a double. |
| DiagnosticLaws.ErrorIsFirst | src/mlir/flux_mlir.cpp:281-434 | Lowering an expression leaves the first error that checking it from left to right finds, unless there was one before. |
| DiagnosticLaws.ErrorIsReported | src/mlir/flux_mlir.cpp:109-151 | The error of a whole program is the first refused prototype, else the first error of the first definition that does not lower; calling a function without result is none. |
| ModuleLaws.ModuleMeans | src/mlir/flux_mlir.cpp:486-529 | In a lowered program every body returns, for all arguments and all meanings of operations and calls, what its definition evaluates to. |
| ModuleLaws.ModuleIsHealthy | src/mlir/flux_mlir.cpp:180-235 | In a lowered program symbols are distinct, operands and returned values are defined before use, callees are declared, and a body returns a value exactly when its declaration has a result. |
| ProgramLaws.DefinedHaveBodies | src/mlir/flux_mlir.cpp:118-126 | In a lowered program exactly the defined names have bodies, with the arguments and results of their prototypes. |
| ProgramLaws.DefinitionIsPreserved | src/mlir/flux_mlir.cpp:486-529 | A function of the lowered module returns what its definition evaluates to, and nothing exactly when its first prototype is void. |
| ProgramLaws.LoweredNamesArguments | src/mlir/flux_mlir.cpp:502-504 | A program that lowers has a name for every argument, so that the next statement applies to it. |
| ProgramLaws.ProgramIsPreserved | src/mlir/flux_mlir.cpp:109-137 | Whole programs, calls running the program's own functions: at every call depth a function of the lowered module gives the result, the effects and the failures of the source function, its signature read off the program's prototypes; with the code generator's reading of `!=` too, when the program has none or nothing is unordered. |
| ComparisonLaws.ComparisonsAgreeExactly | src/mlir/flux_mlir.cpp:343-372 | The emitted predicate agrees with the code generator's comparison if and only if it is not `!=` on unordered operands. |
| ComparisonLaws.ReadingsAgree | src/mlir/flux_mlir.cpp:343-372 | Which way `!=` is read on unordered operands matters to no expression without `!=`, and to none where nothing is unordered. |
| ComparisonLaws.UnequalTellsApart | src/compiler/core/binary_codegen.cpp:1102-1107 | The expression a != b tells the two readings apart if and only if its operands are unordered and the two bits differ as doubles. |
| ComparisonLaws.ReadingsAgreeExactly | src/compiler/core/binary_codegen.cpp:1071-1107 | Both readings give every expression the same meaning if and only if no two doubles are unordered. |
| ModuleLoweringPass.ModuleLowering.SetError | src/mlir/flux_mlir.cpp:147-151 | The first error is kept. |
| ModuleLoweringPass.ModuleLowering.LookupValue | src/mlir/flux_mlir.cpp:237-245 | The search from the innermost scope outwards finds the innermost binding. |
| ModuleLoweringPass.ModuleLowering.BindValue | src/mlir/flux_mlir.cpp:251-255 | Only the innermost scope changes; without a scope nothing does. |
| ModuleLoweringPass.ModuleLowering.LookupOrDeclare | src/mlir/flux_mlir.cpp:389-398 | An unknown callee is declared with the arity of the call; a known one is left alone. |
| ModuleLoweringPass.ModuleLowering.LowerBinary | src/mlir/flux_mlir.cpp:329-376 | The operations emitted for each operator, with `pow` called for powers and comparisons widened to doubles. |
| ModuleLoweringPass.ModuleLowering.LowerExpression | src/mlir/flux_mlir.cpp:281-484 | The method that updates the scopes, symbols, operations and error refines the lowering function. |
| ModuleLoweringPass.ModuleLowering.LowerArguments | src/mlir/flux_mlir.cpp:380-387 | The argument loop refines the lowering of arguments, early exit included. |
| ModuleLoweringPass.ModuleLowering.LowerBlock | src/mlir/flux_mlir.cpp:421-434 | The statement loop refines the lowering of statements, early exit included. |
| ModuleLoweringPass.ModuleLowering.DeclareAllBuiltins | src/mlir/flux_mlir.cpp:206-235 | The eighteen builtins are declared with their arities. |
| ModuleLoweringPass.ModuleLowering.DeclareFunction | src/mlir/flux_mlir.cpp:180-204 | A known name is accepted as it is, a void argument is refused, anything else is appended. |
| ModuleLoweringPass.ModuleLowering.BindParameters | src/mlir/flux_mlir.cpp:502-504 | The declared arguments are bound to the names of this definition, the later of two equal names last. |
| ModuleLoweringPass.ModuleLowering.LowerDefinition | src/mlir/flux_mlir.cpp:486-529 | The method refines the lowering of a definition, errors included. |
| ModuleLoweringPass.ModuleLowering.Lower | src/mlir/flux_mlir.cpp:109-137 | The method refines the whole pass: builtins, externs, prototypes, bodies, stopping at the first failure, with its error. |
| Decimals.SpaceAndPlusAreSkipped | src/package/dependency_resolver.cpp:33 | White space in front of a number and a plus sign do not matter. |
| Decimals.NothingIsScanned | src/package/dependency_resolver.cpp:33-35 | Without a digit behind white space and a sign there is no number. |
| Decimals.NumeralScansBack | src/package/dependency_resolver.cpp:30-53 | A printed integer followed by anything but a digit is scanned back. |
| Versions.NumbersReadBack | src/package/dependency_resolver.cpp:30-53 | The three numbers of a printed version are read back whatever their signs. |
| Versions.ParseUndoesStrExactly | src/package/dependency_resolver.cpp:30-53 | A printed version parses back if and only if none of its numbers is negative. |
| Versions.VersionOrder | src/package/dependency_resolver.cpp:55-79 | The comparison is a strict total order that agrees with equality. |
| VersionLaws.NumbersDecide | src/package/dependency_resolver.cpp:55-62 | The first number in which two versions differ decides, the larger one being newer, whatever follows it. |
| VersionLaws.TextOrder | src/package/dependency_resolver.cpp:68 | Prereleases stand as their texts do at the first differing character, a proper prefix first. |
| VersionLaws.PrereleasesDecide | src/package/dependency_resolver.cpp:63-68 | With equal numbers a prerelease comes before its release, and two prereleases stand as their texts do. |
| VersionLaws.SelectsHighestNumbers | src/package/dependency_resolver.cpp:297-333 | No candidate has higher numbers than the selected version, in the order major, minor, patch. |
| VersionLaws.OperatorsMean | src/package/dependency_resolver.cpp:85-174 | What each operator in front of a version admits, in terms of the order alone. |
| VersionLaws.CaretAndTildeKeepNumbers | src/package/dependency_resolver.cpp:108-124 | A caret keeps the major number and a tilde the minor one too, up to prereleases of the next. |
| VersionLaws.VersionsLookLikeThis | src/package/dependency_resolver.cpp:46-53 | Two versions and their printed texts. |
| VersionLaws.ShortVersions | src/package/dependency_resolver.cpp:30-44 | Missing numbers read as 0, and a text without a number as 0.0.0. |
| VersionLaws.MarkerIsNotFound | src/package/dependency_resolver.cpp:257-266 | A registered version 0.0.0 is taken for none, and the resolution fails. |
| Versions.SolutionsAreConvex | src/package/dependency_resolver.cpp:150-174 | The versions a constraint admits have no gaps. |
| Versions.TildeWithinCaret | src/package/dependency_resolver.cpp:108-124 | Whatever the tilde of a version admits, its caret admits. |
| Versions.RangeMeansBoth | src/package/dependency_resolver.cpp:95-106 | A half-open range admits exactly what both of its halves admit. |
| Versions.ClosedRangeLosesItsEnd | src/package/dependency_resolver.cpp:95-106 | A closed range admits exactly what both halves admit, except its upper end. |
| Ranges.TextIsHalf | src/package/dependency_resolver.cpp:108-147 | Every text without a comma is a half: its operator and its version decide what it admits. |
| Ranges.RangesMeanBothExactly | src/package/dependency_resolver.cpp:95-106 | A range of two kinds of halves means both of them, whatever their versions, if and only if they are `>=` and `<`. |
| ResolverLaws.RegisterKeepsRegistry | src/package/dependency_resolver.cpp:186-189 | Registering keeps the tables ordered, adds the package, replaces its own version only and touches no other name. |
| ResolverLaws.SelectsGreatest | src/package/dependency_resolver.cpp:297-333 | The selected version is the greatest registered one that satisfies the constraint without a conflict, whenever there is one. |
| ResolverLaws.SelectsNothing | src/package/dependency_resolver.cpp:297-333 | Without such a version the marker 0.0.0 is returned. |
| ResolverLaws.ConflictMeans | src/package/dependency_resolver.cpp:335-356 | A version conflicts when it is unknown, or a chosen version does not meet one of its dependencies. |
| ResolverLaws.VisitIsSound | src/package/dependency_resolver.cpp:232-295 | A successful call meets its dependency and settles every package it added, cycles included. |
| ResolverLaws.VisitReaches | src/package/dependency_resolver.cpp:232-295 | Every package a successful call added is reachable from the one asked for through chosen versions. |
| ResolutionLaws.ResolveIsSound | src/package/dependency_resolver.cpp:203-295 | A successful resolution meets the roots and the dependencies of every chosen version with registered versions, and chooses only what a root reaches. |
| ResolutionLaws.DepthErrorNeedsManyPackages | src/package/dependency_resolver.cpp:236-239 | The depth error needs at least 101 registered packages, however cyclic they are. |
| ResolutionLaws.LimitIsIdle | src/package/dependency_resolver.cpp:232-295 | A depth limit of at least the number of packages never changes the outcome: the search ends by itself. |
| ResolutionLaws.VisitPath | src/package/dependency_resolver.cpp:232-295 | A successful call leaves the path as it found it; a failing one leaves the frames that lead to the failure: each entered with the assignment the search had reached, each next one a dependency of the version chosen there. |
| ResolutionLaws.FailureErases | src/package/dependency_resolver.cpp:284-290 | A failing call takes its own choice back and keeps every choice made before it. |
| ResolutionLaws.ConflictChainIsReal | src/package/dependency_resolver.cpp:210-219 | The conflict chain starts at a root, each entry is a dependency of the version the search chose for the one before under the assignment it had reached, the last entry is the one the error is about, and only the last name may repeat. |
| ResolutionLaws.ResolveFindsLeast | src/package/dependency_resolver.cpp:203-333 | With one version per package and at most 100 packages, resolution succeeds exactly when a solution exists, and its answer is contained in every solution. |
| DepthLimit.LimitIsTight | src/package/dependency_resolver.cpp:232-295 | All registries of n packages with one version each are resolved completely if and only if n is at most 100. |
| DepthLimit.RingFailsWithSolution | src/package/dependency_resolver.cpp:236-239 | A ring of more than 100 packages, whatever their names and versions, has a solution, and the depth limit hides it. |
| ResolutionLaws.GreedyCanMiss | src/package/dependency_resolver.cpp:257-291 | With two versions of a package a solution can exist and the search still fail. |
| Completeness.SearchIsCompleteExactly | src/package/dependency_resolver.cpp:203-333 | For given registered versions, the search is complete whatever the dependencies and the roots if and only if no package has more than one version and there are at most 100 packages. |
| DependencyResolution.SuccessLeavesNoTrace | src/package/dependency_resolver.cpp:284-294 | Successful calls over a dependency list raise no error and restore the path. |
| DependencyResolution.DependencyResolver.RegisterPackage | src/package/dependency_resolver.cpp:186-189 | The registry becomes the registry with that entry, and stays ordered. |
| DependencyResolution.DependencyResolver.ClearRegistry | src/package/dependency_resolver.cpp:198-201 | The registry becomes empty. |
| DependencyResolution.DependencyResolver.SelectBestVersion | src/package/dependency_resolver.cpp:297-333 | The loop from the newest version down returns the greatest candidate. |
| DependencyResolution.DependencyResolver.HasConflicts | src/package/dependency_resolver.cpp:335-356 | Says whether the version has a dependency that an already chosen version violates. |
| DependencyResolution.DependencyResolver.FindBestVersion | src/package/dependency_resolver.cpp:358-362 | Selection with nothing chosen yet. |
| DependencyResolution.DependencyResolver.ResolveRecursive | src/package/dependency_resolver.cpp:232-295 | The recursion that updates assignment, path and error in place refines the search function and terminates on every registry. |
| DependencyResolution.DependencyResolver.Resolve | src/package/dependency_resolver.cpp:203-230 | The loop over the roots, a fresh path for each, refines the resolution function. |
| JumpPatch.OffsetIsRecovered | src/jit/flux_jit.cpp:769-781 | The four offset bytes decode to the offset, for every offset the range check lets through. |
| JumpPatch.PatchJumpsTo | src/jit/flux_jit.cpp:804-810 | After the five bytes are written, the processor goes from the old address to exactly the new one. |
| JumpPatch.PatchIsWritten | src/jit/flux_jit.cpp:804-810 | The patch is E9 and the distance from behind it, low byte first, in two's complement; no other byte changes. |
| JumpPatch.OutOfReach | src/jit/flux_jit.cpp:776-780 | No jump of this kind reaches a target that the range check refuses. |
| JumpPatch.PatchFitsPage | src/jit/flux_jit.cpp:794-801 | The unprotected page holds all five bytes if and only if the patch starts at least five bytes before its end. |
| JitLaws.RedirectJumps | src/jit/flux_jit.cpp:762-825 | A redirect makes the old address jump to the new one or leaves memory as it was. |
| JitLaws.RedirectSucceedsExactly | src/jit/flux_jit.cpp:762-801 | A redirect happens exactly between two addresses within a signed 32-bit distance, once the page is writable. |
| JitLaws.PatchRuns | src/jit/flux_jit.cpp:926-931 | Patching the old code of a promoted name keeps every address running its name's code, that name's through one jump. |
| JitLaws.PromoteKeeps | src/jit/flux_jit.cpp:827-934 | A promotion keeps every address running its name's definition and returns one that does. |
| JitLaws.PromotionRedirects | src/jit/flux_jit.cpp:910-931 | A promotion makes the cached address jump to the promoted code when that is in reach, and otherwise writes nothing but that code. |
| JitLaws.FindKeeps | src/jit/flux_jit.cpp:936-978 | A lookup in cache, linker and process does the same. |
| JitRuns.UserLinksStand | src/jit/flux_jit.cpp:655-670 | No definition that a module keeps external carries the name of a linked user function, so no addition relinks one. |
| JitRuns.AddKeeps | src/jit/flux_jit.cpp:648-751 | An addition, accepted or rejected, keeps the invariant and every running address. |
| JitRuns.LookupKeeps | src/jit/flux_jit.cpp:936-1032 | So does a counted lookup with the promotion it may start. |
| JitRuns.StepKeeps | src/jit/flux_jit.cpp:648-1060 | So does every kind of step. |
| JitRuns.RunsKeepInvariant | src/jit/flux_jit.cpp:648-1060 | The invariant holds after every legal run. |
| JitRuns.IssuedAddressesRun | src/jit/flux_jit.cpp:762-1032 | Over every legal run in any process, every address ever returned for a linked name has that name's definition standing unpatched at it, or a jump to where the promoted definition stands unpatched. |
| JitRuns.AddDecidesPromotion | src/jit/flux_jit.cpp:672-749 | A module that newly links a name has its own definition promoted if and only if no earlier module left a saved copy of another. |
| JitLookups.RunsPlaceLinked | src/jit/flux_jit.cpp:648-1060 | In every legal run code is placed for linked names only. |
| JitLookups.FirstLookupRunsExactly | src/jit/flux_jit.cpp:936-1032 | After any legal run and an accepted addition of a new user function, the next lookup hands out an address that runs it if and only if the name was not in the pointer cache and was compiled (or, when that lookup promotes, if and only if no other definition was saved under the name). |
| JitLookups.ProcessPointerIsReturned | src/jit/flux_jit.cpp:957-963 | A name looked up while only the process has it, then defined by a module: the next lookup still returns the process pointer, which does not run the definition. |
| JitLookups.RejectedCopyIsPromoted | src/jit/flux_jit.cpp:672-707 | An invalid module leaves a copy of a name, a valid one defines it, and the promoting lookup hands out the invalid module's code. |
| JitRuns.EachNameIsSavedOnce | src/jit/flux_jit.cpp:655-702 | When every addition succeeds, each name has at most one saved copy, of a linked name, and no run breaks the rule about saved copies. |
| JitRuns.LookupPromotesExactly | src/jit/flux_jit.cpp:980-1029 | A counted lookup that finds a pointer adds one to the count and promotes exactly at or beyond a positive threshold, when recompilation succeeds. |
| JitRuns.PromotionsStand | src/jit/flux_jit.cpp:827-834 | No step undoes a promotion or moves it. |
| JitRuns.PromotionIsPrompt | src/jit/flux_jit.cpp:980-1029 | In every run whose recompilations succeed and whose threshold is set only while nothing is counted, a counted name that is not promoted is still below a positive threshold. |
| JitRuns.ThresholdStands | include/flux/jit/flux_jit.h:280-281 | Until it is set, the promotion threshold is 10. |
| JitRuns.TenLookupsPromote | src/jit/flux_jit.cpp:980-1029 | In a run that leaves the threshold alone and whose recompilations succeed, a counted name that is not promoted has been looked up less than ten times. |
| JitAdditions.AnonymousNames | src/jit/flux_jit.cpp:655-670 | A name is anonymous exactly when it contains `anon_expr`. |
| JitAdditions.DeclarationsAddNothing | src/jit/flux_jit.cpp:655-749 | A function that is only declared, private, nameless or already known leaves link, symbol, count and saved copy of its name as they were. |
| JitAdditions.OtherNamesAreLeft | src/jit/flux_jit.cpp:655-749 | So does a module for every name it does not mention. |
| JitAdditions.DefinitionsAreAdded | src/jit/flux_jit.cpp:672-749 | An external function with a body and a new name is linked to its own code, recorded, counted from 0 and saved. |
| JitAdditions.AnonymousIsOnlyLinked | src/jit/flux_jit.cpp:672-749 | An anonymous expression with a body is linked and neither recorded nor counted nor saved. |
| JitAdditions.RejectedOnlySaves | src/jit/flux_jit.cpp:672-733 | A module that is not accepted leaves copies of its new functions behind and changes nothing else. |
| JitAdditions.RegisteredIsAnswered | src/jit/flux_jit.cpp:1052-1095 | A registered host function answers for its name from then on, and no module redefines it. |
| JitAdditions.ProcessAnswers | src/jit/flux_jit.cpp:936-978 | A name nobody has defined or looked up is answered by the process, and the answer is kept. |
| FluxJitEngine.FluxJIT.constructor | include/flux/jit/flux_jit.h:258-300 | Nothing added, counted or promoted, and the default threshold. |
| FluxJitEngine.FluxJIT.Internalize | src/jit/flux_jit.cpp:655-670 | The loop makes exactly the definitions of known symbols private. |
| FluxJitEngine.FluxJIT.AddModuleToJit | src/jit/flux_jit.cpp:648-751 | The method refines the addition step, its two early returns included. |
| FluxJitEngine.FluxJIT.Record | src/jit/flux_jit.cpp:735-750 | The names become known symbols and their counts become zero. |
| FluxJitEngine.FluxJIT.RedirectFunction | src/jit/flux_jit.cpp:762-825 | On success the old address jumps to the new one; otherwise memory is as it was. |
| FluxJitEngine.FluxJIT.FindSaved | src/jit/flux_jit.cpp:845-864 | The loop finds the first saved copy of the name. |
| FluxJitEngine.FluxJIT.PromoteFunction | src/jit/flux_jit.cpp:827-934 | The method refines the promotion step, its failures included. |
| FluxJitEngine.FluxJIT.FindPointer | src/jit/flux_jit.cpp:936-978 | The method refines the lookup in cache, linker (which may fail to compile the name) and process. |
| FluxJitEngine.FluxJIT.GetPointerToFunction | src/jit/flux_jit.cpp:936-1032 | The method refines the counted lookup with its promotion. |
| FluxJitEngine.FluxJIT.ResetCallCounts | src/jit/flux_jit.cpp:1040-1044 | Every count becomes zero and nothing else changes. |
| FluxJitEngine.FluxJIT.IsPromoted | src/jit/flux_jit.cpp:1046-1050 | Says whether the name has been promoted. |
| FluxJitEngine.FluxJIT.RegisterHostFunction | src/jit/flux_jit.cpp:1052-1095 | The pointer is cached, known to the process and its name recorded as a symbol. |
| TaskClaim.StepKeeps | src/jit/scaling_security.cpp:396-419 | Whichever worker moves next, claims, slots, flag and counter stay consistent. |
| TaskClaim.StepUsesUp | src/jit/scaling_security.cpp:396-419 | Every step of an unfinished worker uses up one of finitely many steps. |
| TaskClaim.SchedulesEnd | src/jit/scaling_security.cpp:396-419 | Every schedule keeps the invariant and is no longer than the steps left. |
| TaskClaim.EndIsSequential | src/jit/scaling_security.cpp:387-442 | At the end each index is claimed by one worker, no slot is written twice, and outputs, verdict and counter are the sequential ones. |
| TaskClaim.EveryScheduleAgrees | src/jit/scaling_security.cpp:387-442 | Every interleaving ends within four steps a task and one a worker, with the sequential outputs, the verdict true exactly when all succeed, the counter at tasks plus workers, every index claimed by one worker and no slot written twice; the slot of an absent component keeps what the caller had there. |
| TaskClaim.EvaluateComponentsParallel | src/jit/scaling_security.cpp:387-442 | The run with a free scheduler terminates with that result; without workers it reports success and evaluates nothing. |
| SparseMatrices.SparseMatrixWrapper.SetCoefficient | src/jit/scaling_security.cpp:473-476 | Inserts at a place that must be inside the matrix and empty. |
| SparseMatrices.CreateLaplacian1D | src/jit/scaling_security.cpp:654-670 | Every coefficient is inserted in range and once; the matrix is the tridiagonal one. |
| SparseMatrices.InsertPoint | src/jit/scaling_security.cpp:683-694 | One grid point fills exactly its own row, with its own and its neighbours' coefficients. |
| SparseMatrices.CreateLaplacian2D | src/jit/scaling_security.cpp:672-698 | Every coefficient is inserted in range and once; the matrix is the five-point one, and empty without columns. |
| LaplacianLaws.Stencil1D | src/jit/scaling_security.cpp:654-670 | The line matrix takes second differences. |
| LaplacianLaws.Stencil2D | src/jit/scaling_security.cpp:672-698 | The grid matrix takes second differences along the row and along the column of a point. |
| LaplacianLaws.GridIsSumOfLines | src/jit/scaling_security.cpp:654-698 | The grid matrix is the line matrix along every row plus the line matrix along every column. |
| LaplacianQuadratics.LineDifferentiatesTwice | src/jit/scaling_security.cpp:654-670 | Away from its ends the line matrix takes a x² + b x + c, sampled at the multiples of its step, to 2 a. |
| LaplacianQuadratics.GridDifferentiatesTwice | src/jit/scaling_security.cpp:672-698 | At every inner point the grid matrix takes a x² + b y² + c x + d y + e to 2 a + 2 b. |
| LaplacianLaws.LineIsSymmetric | src/jit/scaling_security.cpp:654-670 | The line matrix is symmetric. |
| LaplacianLaws.GridIsSymmetric | src/jit/scaling_security.cpp:672-698 | The grid matrix is symmetric. |
| LaplacianLaws.SummedByParts | src/jit/scaling_security.cpp:654-670 | The form of a line is minus a sum of squares of differences, up to its boundary terms. |
| LaplacianLaws.LineMatrixIsDefinite | src/jit/scaling_security.cpp:654-670 | The form of the line matrix is never positive, and zero only for the zero vector. |
| LaplacianLaws.GridMatrixIsDefinite | src/jit/scaling_security.cpp:672-698 | The form of the grid matrix is never positive, and zero only for the zero grid. |
| WorstCase.WorstCaseAnalyzer.constructor | src/analysis/advanced_analysis.cpp:540-543 | No components, and limits that admit everything. |
| WorstCase.WorstCaseAnalyzer.AddComponent | src/analysis/advanced_analysis.cpp:547-552 | The component is appended. |
| WorstCase.WorstCaseAnalyzer.SetSpecLimits | src/analysis/advanced_analysis.cpp:554-558 | The limits are replaced. |
| WorstCase.WorstCaseAnalyzer.CornerValues | src/analysis/advanced_analysis.cpp:576-585 | The inner loop builds the corner that the bits of the mask choose. |
| WorstCase.WorstCaseAnalyzer.RunCorners | src/analysis/advanced_analysis.cpp:573-598 | The extremes are the first least and first greatest outputs over all visited corners. |
| WorstCase.WorstCaseAnalyzer.Analyze | src/analysis/advanced_analysis.cpp:566-612 | The verdict holds exactly when every corner output is within the limits; the margin is the greatest distance by which the worst cases may still move outwards. |
| WorstCaseLaws.CornerMeans | src/analysis/advanced_analysis.cpp:573-585 | At corner i component j is at the upper end of its range exactly when i / 2^j is odd, else at the lower end, and every corner lies in the box. |
| WorstCaseLaws.FirstsAreUnique | src/analysis/advanced_analysis.cpp:590-597 | The reported corners are the only first least and first greatest ones. |
| WorstCaseLaws.EveryChoiceOnce | src/analysis/advanced_analysis.cpp:573-585 | With at most eight components each choice of signs is visited at exactly one mask. |
| WorstCaseLaws.CornersBoundBox | src/analysis/advanced_analysis.cpp:566-598 | For an output whose value lies between those at the ends of each component's range, the extremes bound it over the whole box. |
| WorstCaseLaws.ExtremesBoundBox | src/analysis/advanced_analysis.cpp:566-598 | The reported worst cases, the first least and first greatest corner outputs, bound the output at every point of the box. |
| WorstCaseLaws.CornersBoundBoxExactly | src/analysis/advanced_analysis.cpp:573-598 | The extremes bound every output affine in each component separately if and only if no component beyond the eighth has a tolerance. |
| Toml.TomlDocument.LoadLine | src/package/toml_parser.cpp:56-85 | One turn of the loop refines the parsing of a line: comments, tables, entries and lines that are neither. |
| Toml.TomlDocument.Load | src/package/toml_parser.cpp:49-87 | The loop refines the parsing of all lines in turn. |
| Toml.TomlDocument.PrintEntry | src/package/toml_parser.cpp:212-219 | An entry is printed as one line; values of other types print as nothing. |
| Toml.TomlDocument.ToString | src/package/toml_parser.cpp:208-223 | The loop prints the entries in the order of the map. |
| TomlLaws.ValueReadsBack | src/package/toml_parser.cpp:89-132 | A printed boolean, 64-bit integer or one-line text, quotes inside included, reads back as itself. |
| TomlLaws.EntryReadsBack | src/package/toml_parser.cpp:55-86 | The line of a good key adds exactly that key with what its printed value reads as. |
| TomlForms.TrimStrips | src/package/toml_parser.cpp:225-232 | Spaces, tabs, carriage returns and line feeds come off at both ends, and nothing else does. |
| TomlForms.CommentIsIgnored | src/package/toml_parser.cpp:55-60 | A line that starts with `#` after blanks changes nothing. |
| TomlForms.HeaderNamesTable | src/package/toml_parser.cpp:62-69 | A header names the table, whatever follows its first closing bracket. |
| TomlForms.EntryBelongsToTable | src/package/toml_parser.cpp:49-87 | A table lasts until the next header: an entry in between gets its key behind the table and a dot. |
| TomlForms.SectionComesBack | src/package/toml_parser.cpp:49-87 | A printed document below a header reads back with the table in front of every key. |
| TomlForms.NumeralsAreDecimal | src/package/toml_parser.cpp:214-215 | Integers are printed in decimal notation. |
| TomlForms.NumbersLoseTheirTail | src/package/toml_parser.cpp:115-128 | A value that starts with an integer is that integer, whatever follows; only one beyond 64 bits is left to `std::stod`. |
| TomlForms.QuotesMakeTexts | src/package/toml_parser.cpp:99-102 | Either kind of quotes makes a text, and the text is what stands between them. |
| TomlForms.ArraysListTheirItems | src/package/toml_parser.cpp:104-113 | An array is the list of its trimmed items, which stay texts. |
| TomlLaws.ParsedIsClean | src/package/toml_parser.cpp:49-87 | No parsed key and no parsed text holds a line break. |
| TomlLaws.SilentLinesCost | src/package/toml_parser.cpp:58-69 | A comment or table line adds no entry, so a printed key that looks like one is lost. |
| TomlLaws.PrintableComesBack | src/package/toml_parser.cpp:208-223 | Every printable document comes back, `#` and `=` inside texts included, in any order of its keys. |
| TomlLaws.ComesBackExactly | src/package/toml_parser.cpp:49-132 | A document comes back if and only if its keys are trimmed, free of `=` and line breaks and open no comment or table, and its values are booleans, integers or one-line texts. |
| UrlCodec.EncodeUrl | src/package/http_client.cpp:284-299 | The loop refines encoding, and decoding its result gives the input back. |
| UrlCodec.DecodeUrl | src/package/http_client.cpp:301-318 | The loop with its moving index refines decoding, whatever the uninitialised variable of an escape of two blanks holds. |
| UrlCodec.DecodeUndoesEncode | src/package/http_client.cpp:284-318 | Every byte string survives encoding and decoding, `+` and space included. |
| UrlCodec.EncodeJoins | src/package/http_client.cpp:284-299 | Encoding goes character by character. |
| UrlCodec.CharacterEncodes | src/package/http_client.cpp:284-299 | A letter, a digit and one of `-_.~` is kept, any other character is `%` and its two lower-case digits. |
| UrlCodec.PlainDecodes | src/package/http_client.cpp:311-315 | Without escapes every `+` becomes a space and every other character stays. |
| UrlCodec.EscapeDecodes | src/package/http_client.cpp:305-310 | An escape of two digits in either case decodes to its byte, and decoding goes on behind it. |
| UrlCodec.LastDigitReads | src/package/http_client.cpp:306-309 | A second digit behind a blank or a plus sign is its value, behind a minus sign the negative as a byte, behind anything else 0. |
| UrlCodec.FirstDigitReads | src/package/http_client.cpp:306-309 | A first digit in front of anything else is its value; without a digit the byte is 0, and two blanks leave the variable as it was. |
| UrlCodec.CutEscapeDecodes | src/package/http_client.cpp:305-315 | A `%` with fewer than two characters behind it stands for itself. |
| UrlCodec.EncodeIsInjective | src/package/http_client.cpp:284-299 | Different strings have different encodings. |
| UrlCodec.EncodeEncodes | src/package/http_client.cpp:284-299 | An encoding consists of unreserved bytes and escapes with lower-case digits of all other bytes. |
| UrlCodec.EncodeUndoesDecodeExactly | src/package/http_client.cpp:284-318 | Encoding undoes decoding if and only if the string is such an encoding. |

## Left out

- Floating point: rounding, infinities and NaN. The transform, the windows, the Laplacian, the corners and TOML doubles
  are over real numbers; the double operations of lowered programs are uninterpreted, so that theorem does not depend
  on rounding.
- SpectrumAnalysis.FftEngine.ApplyWindow: does not model a single sample, where the code divides by N - 1 = 0; the
  report always windows at least two samples.
- Spectrum report: the phase of a bin, the text and ASCII output.
- Lowering: `int`, `float`, vector and matrix types with their casts, imports, the parser, null expression pointers,
  the wording of errors and the printed module; every expression kind that the pass refuses is one constructor. The number of arguments of a call
  is not checked by the pass and not by the model's machine.
- ModuleLoweringPass.ModuleLowering.Lower: requires that a definition has at least as many parameters as the symbol
  already declared under its name (an extern or a builtin); otherwise the code reads past the end of the parameter list.
- ModuleLoweringPass.ModuleLowering.LowerDefinition: requires the same of its definition.
- LoweringLaws.LoweringAgrees: reads `!=` as the pass does; `ReadingsAgree` and `ReadingsAgreeExactly` say when the
  code generator's reading makes a difference.
- ProgramLaws.ProgramIsPreserved: a call with the wrong number of arguments ends the run in both programs.
- ResolutionLaws.ResolveFindsLeast: needs one version per package, because the search is incomplete otherwise
  (`SearchIsCompleteExactly`), and a version other than 0.0.0, which the code uses as its marker for "none".
- Resolver: the wording of errors (a datatype instead), path entries as texts (the dependencies themselves instead), the
  dependency tree and the other queries, and integers beyond the range that `sscanf` can store.
- JIT: LLVM and ORC, pass pipelines, profiling, automatic tuning, the name of the last anonymous expression, locks and
  counter overflow. Where code is placed, and whether verifying, linking, compiling and unprotecting succeed, are
  parameters of the steps. A module's functions are placed when they are first looked up, as lazy compilation does.
- JitRuns.IssuedAddressesRun: holds for legal runs, in which an accepted module names its anonymous expression afresh,
  defines no name that is in the pointer cache and none that a rejected module left a saved copy of another definition
  of (`FirstLookupRunsExactly` shows that both are needed for user functions); a linked name is compiled when it is
  looked up, or the process has no symbol of that name; a host function is not registered under a linked name; only
  linked names are promoted by hand; and code is placed in fresh blocks of at least five bytes.
- JitRuns.AddKeeps: holds for the same accepted modules.
- JitRuns.StepKeeps: holds for the steps of such runs.
- JitRuns.RunsKeepInvariant: holds for such runs.
- JitLookups.FirstLookupRunsExactly: the promoted code is placed clear of the five bytes at the cached address.
- FluxJitEngine.FluxJIT.RedirectFunction: does not model the fault of a patch that crosses the end of the unprotected
  page; `PatchFitsPage` says which patches do.
- Parallel evaluation: what evaluating a component does is a fixed outcome per index; timing, statistics and overflow
  of the counter are not modelled.
- SparseMatrices.CreateLaplacian2D: does not model overflow of `nx * ny`; Eigen's storage, solvers and exports are left
  out.
- WorstCase.WorstCaseAnalyzer.Analyze: requires at most 30 components, since the code shifts a 32-bit 1 by their number;
  `runCorner`, a placeholder in the code, is a parameter, and messages are counted instead of worded.
- WorstCase.WorstCaseAnalyzer.RunCorners: requires the same.
- WorstCaseLaws.CornersBoundBox: needs distinct component names and tolerances that are not negative.
- TOML: reading files, `get` and the other queries, and version numbers. `std::stod` is a parameter that fails on the
  empty string; the order of a map's keys is any enumeration of them.
- HTTP: everything but the percent-encoding.
- Waveform generators, the other analysers, hot reload, sandboxing, editors and bridges would add members that are easy
  or that the code does not decide.
