# Verified models of eight algorithms of the LLVM tree

This project models eight self-contained cores of the repository in Dafny and proves what they are
for, on all inputs. Every core has its own modules; nothing is shared between them but a few facts
about integers (`arithmetic.dfy`, `words.dfy`), a sort (`sorting.dfy`) and an option type
(`options.dfy`). Inductions are written out in the lemmas; none relies on automatic induction.

## What is modelled

**The BrainF compiler** (`brainf_*.dfy`). `brainf_language.dfy` has the language with a big-step
meaning cut off by fuel, so that runs which never end can be compared too, and the reader as a function
from characters to programs. `brainf_target.dfy` has basic blocks of register instructions with phi
nodes and a one-instruction-at-a-time machine with two error states: *stuck* (an undefined register, a
phi node without a value for the block it is entered from, a missing terminator) and *fault* (an access
outside the tape). `brainf_compiler.dfy` has the compiler as a class with the fields of the original
and a specification of what it emits; `brainf_correctness.dfy` proves that source and code agree in
both directions, `brainf_text.dfy` that the code does what a machine does which runs the characters of
the text one by one, and `brainf_wellformed.dfy` that the code is well-formed SSA. The code of a folded
program is compared with the program read one character at a time. Without bounds checking the two
always agree. With it the head is only looked at where a run of moves ends, and they agree for every
program in which no run strays outside the span between its two ends (`BrainFLanguage.Direct`); for a
run by itself this condition is exact.

**Index arithmetic of the basic alias analysis** (`basic_aa_*.dfy`). The decomposition of an index
into scale times base plus offset at a fixed width, looking through zero and sign extensions; the
subtraction of two lists of variable indices in place; and the end of `aliasGEP`. The decomposition
is not right for every index: at each extension that it looks through, scale and offset must be kept
(`BasicAALinear.Kept`, a property of the constants but for one case), and at a single extension this
is exactly when the identity holds. Each rule of `aliasGEP` is proved sound for all values of the
variables: the constant and the modulus rule in arithmetic modulo 2^64, whatever wraps; the
all-positive and the minimum-distance rule where addresses do not wrap. Where they do, the
two rules are right if and only if the distance of the two addresses, modulo 2^64, leaves room for
both accesses, which it does when the widths and scales of the variables do not let them reach
further. `basic_aa_answers.dfy` has the other direction: for every rule, exactly when it has to speak, in
terms of the distances that are possible.

**The alias set tracker** (`alias_set*.dfy`). A union-find of pointer sets with forwarding and path
compression, must/may downgrades, merging and saturation, driven by an alias oracle. What the counter
counts, and that one live set with every pointer remains past the threshold, holds for every oracle
(`AliasSetTables.RunsSaturate`). The central result is that pointers in different live sets do not
alias although must-alias sets are asked through one member only. For it, four laws are asked of the
oracle (`AliasSets.Reasonable`), on the locations in use alone (`AliasSetRuns.ReasonableInUse`);
undefined pointers and empty accesses, which alias nothing, not even themselves, obey them. It needs
the first pointer of a must-alias set to have the largest size; every add keeps that exactly unless a
pointer outgrows its set (`AliasSetsApart.Outgrows`), and so do runs of adds of which none does
(`AliasSetRuns.Calm`), a condition that is exact for an oracle that knows all addresses. There are two
ways to outgrow a set that the code does not notice: past the first pointer of its own set, and, for a
pointer first accessed at a size at which it aliased nothing, as the merge of its set with another at
the same address goes by the order of the sets and not by the sizes. For each of them a run of four
adds shows that then a real alias is missed. The other way round, pointers are only put together for a
reason (`alias_set_links.dfy`): until saturation every set hangs together by chains of pointers that
alias, so that in calm runs the sets are exactly the connected components of the alias relation.

**Block frequencies** (`block_*.dfy`, `irreducible_headers.dfy`, `loop_unwrapping.dfy`). Weights are
collected, combined (sorted in place over an array, or through a hash table), and normalized to 32
bits; masses are split without loss by a fixed-point product computed digit by digit; mass is
propagated through a function, a loop or an irreducible loop without ever saturating, and every mass is
the sum of the portions that the nodes before it split off for it; headers of irreducible components
cut every cycle; and unwrapping the loop tree, one visit for each loop, gives every block the product
over all its loops (with exact rationals). The extra bit of shift in `Distribution::normalize` does not
always keep the total in 32 bits, as the assertion at its end says. `BlockNormalize.TotalFits` is the
exact bound on the sum for each number of targets: up to 2^31 targets always fit as long as the 64-bit
sum does not overflow, and where it does, n of them fit up to 2^65 - (n - 1) * 2^33 + n - 3.

**The exception personality** (`exception_tables.dfy`, `exception_frames.dfy`). LEB128 numbers and
action chains as bytes, in the layout that LLVM's own emitter writes (clauses numbered from the last
one up, each record linked to the one before it), the call-site walk of the two phases, the blocks
that the generator emits around a call with an interpreter for them, and unwinding through any number
of such frames.

**The case folding generator** (`case_fold.dfy`). From the lines of the Unicode database to a chain of
comparisons that folds every integer as the table does (the table of section 3.13 of the Unicode
Standard, common and simple mappings).

**The thread barrier** (`thread_barrier.dfy`). The methods of `WaitForThreads`, and all interleavings of
N workers and a releaser as steps under one mutex.

**Post-dominance** (`post_dominance.dfy`). The two sets that `BranchProbabilityInfo` builds along its
walk, and the paths that they speak about. What the walk finds always has the property that the sets
stand for; whether it finds all that has it depends on the order, and the condition is exact.

## Model

| member | source | states |
|---|---|---|
| BrainFLanguage.FoldKeepsMeaning | llvm/examples/BrainF/BrainF.cpp:324-414 | joining runs of `+-` and of `<>` into one command each does not change what an unchecked program does, at any fuel |
| BrainFLanguage.FoldKeepsChecks | llvm/examples/BrainF/BrainF.cpp:246-276 | with bounds checking, folding changes nothing that can be told from outside, for all limits, programs whose runs are direct, states with the head on the tape, and fuels |
| BrainFLanguage.RunFoldsIffDirect | llvm/examples/BrainF/BrainF.cpp:246-276 | the condition is exact: a run of moves folds without a difference on every tape if and only if it does not leave the span between its ends |
| BrainFLanguage.FoldedChecksSkipInsideRuns | llvm/examples/BrainF/BrainF.cpp:246-276 | any two moves in opposite directions have a tape on which the per-character program is reported and the folded one is not |
| BrainFLanguage.OneWayIsDirect | llvm/examples/BrainF/BrainF.cpp:246-276 | a run of only `<` or only `>` is direct |
| BrainFLanguage.ParseThenFlatten | llvm/examples/BrainF/BrainF.cpp:192-476 | writing a program out as tokens undoes parsing it |
| BrainFLanguage.FlattenThenParse | llvm/examples/BrainF/BrainF.cpp:192-476 | parsing undoes writing a program out, whatever follows |
| BrainFLanguage.ParsesIffBalanced | llvm/examples/BrainF/BrainF.cpp:426-475 | a text is one whole program exactly when every `]` has its `[` and none is left open |
| BrainFLanguage.LexedProgramIsFolded | llvm/examples/BrainF/BrainF.cpp:319-424 | the program of the reader, which joins maximal runs and skips other characters, is the folded per-character program, and both readers fail on the same texts |
| BrainFCompiler.BrainF.WriteHeader | llvm/examples/BrainF/BrainF.cpp:65-190 | emits tape allocation and clearing, the end block that frees it and, with bounds checking, the block that reports |
| BrainFCompiler.BrainF.WriteSymbol | llvm/examples/BrainF/BrainF.cpp:208-291 | emits one read, write, move (with its check) or change at the insertion point and moves the head |
| BrainFCompiler.BrainF.WriteMove | llvm/examples/BrainF/BrainF.cpp:246-276 | moves the head and, with bounds checking, jumps to the error block or to a fresh one |
| BrainFCompiler.BrainF.Look | llvm/examples/BrainF/BrainF.cpp:330-420 | one character and the one-symbol lookahead: nothing read is lost, and a run is extended or ended |
| BrainFCompiler.BrainF.ReadSymbol | llvm/examples/BrainF/BrainF.cpp:319-424 | reads the next symbol: what is pending and what is still to be read together are the joined tokens of the input |
| BrainFCompiler.BrainF.WriteLoopStart | llvm/examples/BrainF/BrainF.cpp:292-312 | opens a loop: body block, test block, jump to the test, head phi with its first value |
| BrainFCompiler.BrainF.WriteLoopEnd | llvm/examples/BrainF/BrainF.cpp:426-464 | closes a loop: the test, the back-patched phi with the body's last head and block, and the block after the loop |
| BrainFCompiler.BrainF.ReadLoop | llvm/examples/BrainF/BrainF.cpp:192-476 | reads and emits up to the matching bracket or the end, or stops with the error of that case |
| BrainFCompiler.BrainF.Translate | llvm/examples/BrainF/BrainF.cpp:53-63 | compiles a text if and only if its brackets balance, and then emits the specified code of its folded program |
| BrainFCorrectness.Simulates | llvm/examples/BrainF/BrainF.cpp:192-476 | from wherever a program's code was emitted, inside any loops, the machine follows the program through all loop iterations |
| BrainFCorrectness.CompiledRuns | llvm/examples/BrainF/BrainF.cpp:65-476 | forward: a program that ends makes its code end with the same tape, input and output, and one that is still running after n loop tests keeps its code running for n steps |
| BrainFCorrectness.CompiledEquivalent | llvm/examples/BrainF/BrainF.cpp:65-476 | both directions: the code ends in a world if and only if the program does, checked or not, so that one diverges exactly when the other does |
| BrainFCorrectness.TextAndCodeAgree | llvm/examples/BrainF/BrainF.cpp:192-476 | the whole compiler, checked or not: the code of a text ends in a world if and only if the text, run one character at a time, does; with bounds checking for a non-empty tape and direct runs |
| BrainFText.CompiledRunsText | llvm/examples/BrainF/BrainF.cpp:192-476 | against a machine that runs the characters of the text themselves, each bracket jumping to the matching one: for every text with balanced brackets the code ends in a world if and only if the machine comes to the end of the text in it; with bounds checking the machine looks at the head where a run of moves ends, or after every move if all runs are direct |
| BrainFCorrectness.CompiledIsSafe | llvm/examples/BrainF/BrainF.cpp:118-127 | no step of any run is stuck, and with bounds checking and a non-empty tape none is a fault |
| BrainFCorrectness.AccessesStayOnTape | llvm/examples/BrainF/BrainF.cpp:246-312 | with bounds checking, the next load or store of every reachable configuration is inside the tape |
| BrainFCorrectness.EmptyTapeFaults | llvm/examples/BrainF/BrainF.cpp:246-291 | an empty tape is not safe: the head is used before it is ever checked |
| BrainFCorrectness.CheckedCodeIsSafeIff | llvm/examples/BrainF/BrainF.cpp:65-476 | checked code is safe for all programs and inputs if and only if the tape is not empty |
| BrainFWellFormed.CompiledIsWellFormed | llvm/examples/BrainF/BrainF.cpp:202-464 | every block has one terminator, every jump a target, every phi exactly one value for each predecessor and no other, every register one definition, and on every path every use comes after its definition |
| BasicAAArithmetic.LowBitDivides | llvm/lib/Analysis/BasicAliasAnalysis.cpp:1387-1387 | `m ^ (m & (m - 1))` is the largest power of two that divides m |
| BasicAAArithmetic.MaskIsMod | llvm/lib/Analysis/BasicAliasAnalysis.cpp:1392-1392 | masking with 2^k - 1 is the remainder modulo 2^k |
| BasicAAArithmetic.OrDivides | llvm/lib/Analysis/BasicAliasAnalysis.cpp:1352-1361 | a power of two that divides an or divides both operands |
| BasicAAArithmetic.DisjointOrIsAdd | llvm/lib/Analysis/BasicAliasAnalysis.cpp:256-268 | or-ing numbers without a common bit adds them |
| BasicAALinear.LinearFits | llvm/lib/Analysis/BasicAliasAnalysis.cpp:221-372 | at any recursion depth, when the extensions are kept, a value is scale * base + offset modulo 2 to its own width, the base being sign- and then zero-extended by the bits counted, and it is a known affine function of the base over the integers as long as the signed or the unsigned flag survives |
| BasicAALinear.LinearIsExact | llvm/lib/Analysis/BasicAliasAnalysis.cpp:221-372 | a whole index whose extensions are kept is (scale * base + offset) modulo 2^width |
| BasicAALinear.KeptIsExact | llvm/lib/Analysis/BasicAliasAnalysis.cpp:329-368 | at an extension that is looked through, the identity holds for two neighbouring values of the base if and only if scale and offset are kept |
| BasicAALinear.NegativeIsMisread | llvm/lib/Analysis/BasicAliasAnalysis.cpp:354-368 | a sign extension above a zero extension is taken for a zero extension, which is right if and only if its operand is not negative |
| BasicAALinear.OneOperation | llvm/lib/Analysis/BasicAliasAnalysis.cpp:250-350 | one flagged operation under a sign extension: additions, and shifts, which are not looked through, are always kept, subtractions unless of the least number, products unless of a negative one |
| BasicAALinear.ZeroExtensionsAreKept | llvm/lib/Analysis/BasicAliasAnalysis.cpp:354-368 | without sign extensions everything is kept |
| BasicAALinear.SignExtensionLosesScale | llvm/lib/Analysis/BasicAliasAnalysis.cpp:333-350 | an index for which the identity fails: the offset is sign-extended, the scale is not |
| BasicAALinear.SignExtensionCutsOffset | llvm/lib/Analysis/BasicAliasAnalysis.cpp:336-340 | another: the offset is cut to the width of the operand |
| BasicAALinear.LooksThroughOperations | llvm/lib/Analysis/BasicAliasAnalysis.cpp:221-328 | without extensions the base is what is under all operations, disjoint ors among them, unless there are more than six |
| BasicAALinear.LooksThroughExtensions | llvm/lib/Analysis/BasicAliasAnalysis.cpp:221-372 | if every operation is flagged, extensions are looked through as well, and both flags survive |
| BasicAALinear.ExtensionsMakeWidth | llvm/lib/Analysis/BasicAliasAnalysis.cpp:329-368 | the bits counted for the base make up the width of the index |
| BasicAAGep.SubtractIndex | llvm/lib/Analysis/BasicAliasAnalysis.cpp:1766-1793 | one index is subtracted from the list: its entry loses the scale, is erased, or a negated entry is appended |
| BasicAAGep.GetIndexDifference | llvm/lib/Analysis/BasicAliasAnalysis.cpp:1760-1794 | the loop computes the symbolic difference of two lists |
| BasicAAGep.DifferenceSum | llvm/lib/Analysis/BasicAliasAnalysis.cpp:1760-1794 | for all values of the variables the difference of the lists is the difference of their sums, modulo 2^64 |
| BasicAAGep.DifferenceIsExact | llvm/lib/Analysis/BasicAliasAnalysis.cpp:1760-1794 | and exactly, when no scale overflows on the way |
| BasicAAAnswers.NothingIsLeft | llvm/lib/Analysis/BasicAliasAnalysis.cpp:1760-1794 | a list of stable values subtracted from itself leaves nothing |
| BasicAAAnswers.NoZeroIsLeft | llvm/lib/Analysis/BasicAliasAnalysis.cpp:1760-1794 | no subtraction leaves an index with scale zero |
| BasicAAGep.AliasGepTail | llvm/lib/Analysis/BasicAliasAnalysis.cpp:1313-1410 | the end of aliasGEP with its loop over the indices gives the specified verdict |
| BasicAAAnswers.ConstantAnswers | llvm/lib/Analysis/BasicAliasAnalysis.cpp:1313-1346 | without variables and for known sizes: no-alias if and only if the accesses are apart, must-alias if and only if they start together, partial-alias otherwise; it is left open only for an unknown size that matters |
| BasicAAAnswers.HasLargestModulus | llvm/lib/Analysis/BasicAliasAnalysis.cpp:1352-1387 | there always is a largest power of two, up to 2^64, that divides all scales |
| BasicAAAnswers.ModulusIsExact | llvm/lib/Analysis/BasicAliasAnalysis.cpp:1352-1395 | the modulus rule speaks if and only if the accesses are apart at every distance that is congruent to the constant one modulo the largest power of two, up to 2^64, that divides all scales |
| BasicAAAnswers.PositiveIsExact | llvm/lib/Analysis/BasicAliasAnalysis.cpp:1363-1385 | a term counts as positive if and only if no value that is known to be possible makes it negative |
| BasicAAAnswers.FarApartIsExact | llvm/lib/Analysis/BasicAliasAnalysis.cpp:1796-1845 | the minimum-distance rule speaks if and only if the indices are one variable with opposite scales and two offsets, and no distance that these allow, however it wraps, reaches over the constant one |
| BasicAAAnswers.RulesSpeak | llvm/lib/Analysis/BasicAliasAnalysis.cpp:1387-1402 | for all constants and sizes: no-alias if the accesses are apart modulo the scales, or if the first starts past the second and no term can be negative |
| BasicAAAnswers.VariablesAnswer | llvm/lib/Analysis/BasicAliasAnalysis.cpp:1349-1410 | with variables: no-alias if and only if one of the three rules has its reason, may-alias otherwise |
| BasicAAAnswers.SameIndicesAnswer | llvm/lib/Analysis/BasicAliasAnalysis.cpp:1280-1346 | two decomposed addresses with the same stable indices: the answer is exact for the difference of their constants |
| BasicAAAnswers.DifferentIndicesAnswer | llvm/lib/Analysis/BasicAliasAnalysis.cpp:1280-1410 | and for two whose indices do not cancel it is no-alias if and only if one of the rules has its reason |
| BasicAAGep.ModularSound | llvm/lib/Analysis/BasicAliasAnalysis.cpp:1313-1395 | whatever wraps: must-alias means equal addresses, partial-alias overlapping accesses, no-alias disjoint ones, for the constant and the modulus rule |
| BasicAAGep.ModulusIsRight | llvm/lib/Analysis/BasicAliasAnalysis.cpp:1352-1395 | the lowest bit of all scales is a modulus that keeps the accesses apart, also when all scales vanish and it is 2^64 |
| BasicAAGep.ExactSound | llvm/lib/Analysis/BasicAliasAnalysis.cpp:1313-1410 | over mathematical integers every verdict is right, for all four rules; only the minimum-distance rule asks for indices that are decomposed exactly and sizes below 2^63 |
| BasicAAGep.FarApartIsRight | llvm/lib/Analysis/BasicAliasAnalysis.cpp:1796-1845 | indices that differ by a constant d stay min(d, 2^w - d) scales apart however they wrap, sign extensions inside them that are kept included |
| BasicAAGep.AliasGepModular | llvm/lib/Analysis/BasicAliasAnalysis.cpp:1280-1395 | the subtraction and the rules together, for two decomposed addresses computed modulo 2^64 |
| BasicAAGep.AliasGepExact | llvm/lib/Analysis/BasicAliasAnalysis.cpp:1280-1410 | all rules together, for addresses that do not wrap and scales whose differences fit |
| BasicAAGep.AllPositiveOnTheCircle | llvm/lib/Analysis/BasicAliasAnalysis.cpp:1397-1402 | for addresses that may wrap: the answer of the all-positive rule is right if and only if the distance modulo 2^64 is at least the second size and at most 2^64 less the first; a distance that, added to the first size, is at most 2^64 is enough, and no distance is larger than widths and scales allow |
| BasicAAGep.AliasGepOnTheCircle | llvm/lib/Analysis/BasicAliasAnalysis.cpp:1280-1402 | the same for two decomposed addresses computed modulo 2^64, with a bound from the constant offsets, the widths and the scales that is enough |
| BasicAAGep.FarApartOnTheCircle | llvm/lib/Analysis/BasicAliasAnalysis.cpp:1404-1407 | the minimum-distance rule for addresses that may wrap: right if and only if the distance modulo 2^64 leaves room for both accesses, which it does when it comes round to neither of them |
| BasicAAGep.AliasGepFarOnTheCircle | llvm/lib/Analysis/BasicAliasAnalysis.cpp:1280-1407 | the same for two decomposed addresses computed modulo 2^64, with a bound from the constant offsets, the widths and the scales that is enough |
| BasicAAGep.WrappingMisleadsAllPositive | llvm/lib/Analysis/BasicAliasAnalysis.cpp:1397-1402 | an input on which the rule declares overlapping accesses disjoint |
| BasicAAGep.WrappingMisleadsMinimumDistance | llvm/lib/Analysis/BasicAliasAnalysis.cpp:1796-1845 | an input on which the minimum-distance rule does |
| AliasSetsProofs.CollapseKeepsRoots | llvm/include/llvm/Analysis/AliasSetTracker.h:276-287 | following forwards while shortening them leaves every set where it was |
| AliasSetsProofs.MergeSetInCore | llvm/lib/Analysis/AliasSetTracker.cpp:49-109 | whatever the oracle answers, merging two live sets keeps lists, entries, forwards and the may counter consistent |
| AliasSetsProofs.AddPointerCore | llvm/lib/Analysis/AliasSetTracker.cpp:128-171 | so does adding a new pointer to a live set |
| AliasSetRuns.AskedThroughFirstInUse | llvm/lib/Analysis/AliasSetTracker.cpp:185-205 | asking the first member of a must-alias set that has the largest size is as good as asking all, for oracles that are reasonable on the locations in use |
| AliasSetsProofs.MergeForMerges | llvm/lib/Analysis/AliasSetTracker.cpp:264-280 | whatever the oracle answers, after the merging walk no live set but the one found aliases the pointer |
| AliasSetTables.MergeAllSaturates | llvm/lib/Analysis/AliasSetTracker.cpp:554-589 | a full merge leaves one live set, which holds every pointer |
| AliasSetTables.AddKeepsValid | llvm/lib/Analysis/AliasSetTracker.cpp:305-348 | whatever the oracle answers, every add keeps the table valid, returns the live set that the pointer is in, and once saturated the one set |
| AliasSetRuns.AddKeepsApartInUse | llvm/lib/Analysis/AliasSetTracker.cpp:305-348 | for oracles that are reasonable on the locations in use: every add keeps must-alias sets at one address and aliasing pointers in one set while first pointers are the largest, and they stay so if and only if the added pointer does not outgrow its set, past its first pointer or past that of a set at the same address |
| AliasSetRuns.CalmRunsKeepApart | llvm/lib/Analysis/AliasSetTracker.cpp:49-348 | in every run of adds in which no pointer outgrows its set, pointers in different sets at the end do not alias, for oracles that are reasonable on the locations in use |
| AliasSetRuns.RunsKeepApart | llvm/lib/Analysis/AliasSetTracker.cpp:49-348 | so in every run with one size for each pointer |
| AliasSetLinks.AddKeepsLinks | llvm/lib/Analysis/AliasSetTracker.cpp:305-348 | every add that does not saturate keeps every set connected by aliasing pointers, for reasonable oracles |
| AliasSetLinks.RunsLink | llvm/lib/Analysis/AliasSetTracker.cpp:49-348 | in every run, until saturation, a chain of pointers of their set joins any two pointers of one set, each aliasing the next at the sizes of the final table, for oracles that are reasonable on the locations in use |
| AliasSetLinks.SetsAreComponents | llvm/lib/Analysis/AliasSetTracker.cpp:49-348 | in every calm run, until saturation, the sets are exactly the connected components of the alias relation |
| AliasSetLinks.RunsDowngradeForReason | llvm/lib/Analysis/AliasSetTracker.cpp:49-171 | for every oracle, in every run, until saturation, a set is a may-alias set only if two of its pointers did not must-alias |
| AliasSetTables.RunsSaturate | llvm/lib/Analysis/AliasSetTracker.cpp:554-604 | for every oracle, in every run, the counter is the number of pointers in may-sets; past the threshold one live set remains, with every pointer, and every later add returns it |
| AliasSetTables.AddSplits | llvm/lib/Analysis/AliasSetTracker.cpp:591-604 | for every oracle, an add saturates the table if and only if the search for a set leaves more pointers in may-sets than the threshold |
| AliasSetRanges.RangesAreReasonable | llvm/lib/Analysis/BasicAliasAnalysis.cpp:1572-1599 | the oracle that knows all addresses, with undefined pointers and empty accesses that alias nothing, meets the laws that are asked of an oracle |
| AliasSetRanges.CalmIffRobust | llvm/lib/Analysis/AliasSetTracker.cpp:49-348 | the condition on runs is exact for the oracle that knows all addresses: some pointer outgrows its set if and only if at some point of the run a new pointer, accessed for one byte, would be put apart from a pointer that it overlaps |
| AliasSetExamples.OutgrownSetMissesAlias | llvm/lib/Analysis/AliasSetTracker.cpp:319-334 | a pointer that grows past the first one of its must-set goes unnoticed: the run is not calm, and a later pointer that overlaps it gets its own set |
| AliasSetExamples.EmptyAccessMissesAlias | llvm/lib/Analysis/AliasSetTracker.cpp:49-109 | so does a pointer first accessed for no bytes that grows: its set merges with a larger one at the same address, which from then on is asked for the smaller size |
| AliasSetExamples.LargeFirstHidesAlias | llvm/lib/Analysis/AliasSetTracker.cpp:185-205 | the law that an alias does not go away as an access grows is needed: with an oracle that meets the other three, a calm run of three adds misses an alias of a must-set whose first pointer has a larger size |
| AliasSetTracking.AliasSetTracker.AliasesPointer | llvm/lib/Analysis/AliasSetTracker.cpp:185-220 | asks a must-set through its first pointer and a may-set through all |
| AliasSetTracking.AliasSetTracker.MergeSetInto | llvm/lib/Analysis/AliasSetTracker.cpp:49-109 | merges one set into another and forwards it |
| AliasSetTracking.AliasSetTracker.AddToSet | llvm/lib/Analysis/AliasSetTracker.cpp:128-171 | appends a pointer, downgrading a must-set that it does not match |
| AliasSetTracking.AliasSetTracker.MergeForPointer | llvm/lib/Analysis/AliasSetTracker.cpp:264-280 | merges all live sets that alias a location into the first one |
| AliasSetTracking.AliasSetTracker.ForwardedTarget | llvm/include/llvm/Analysis/AliasSetTracker.h:276-287 | finds the live set at the end of the forwards and shortens the way |
| AliasSetTracking.AliasSetTracker.KnownSetFor | llvm/lib/Analysis/AliasSetTracker.cpp:319-337 | a pointer added again: its size grows, sets that now alias it are merged, its entry is settled |
| AliasSetTracking.AliasSetTracker.AliasSetFor | llvm/lib/Analysis/AliasSetTracker.cpp:305-348 | finds or makes the set of a pointer |
| AliasSetTracking.AliasSetTracker.MergeAllSets | llvm/lib/Analysis/AliasSetTracker.cpp:554-589 | merges everything into one new set |
| AliasSetTracking.AliasSetTracker.AddPointerToTracker | llvm/lib/Analysis/AliasSetTracker.cpp:591-604 | an add, with the saturation test: the new state, its validity and what it keeps apart |
| BlockMass.ProbabilityIsNearest | llvm/lib/Support/BranchProbability.cpp:39-49 | the numerator over 2^31 is the nearest one, at most 2^31, and 2^31 for all of the weight |
| BlockMass.ScaleIsExact | llvm/lib/Support/BranchProbability.cpp:67-108 | the digit-wise product and division give num * n / d rounded down, or all ones if that does not fit |
| BlockMass.PortionsConserveMass | llvm/lib/Analysis/BlockFrequencyInfoImpl.cpp:105-121 | portions of any mass for any non-empty weights add up to exactly the mass |
| BlockMass.PortionIsProportional | llvm/lib/Analysis/BlockFrequencyInfoImpl.cpp:112-121 | a portion is the share of its weight up to one unit and half a unit of the probability |
| BlockMass.PortionsAreFair | llvm/lib/Analysis/BlockFrequencyInfoImpl.cpp:105-121 | in the whole split every portion is the share of its weight, up to one unit and half a unit of the probability for it and each one before it |
| BlockMass.DitheringDistributer.TakeMass | llvm/lib/Analysis/BlockFrequencyInfoImpl.cpp:112-121 | takes a portion and lowers remaining weight and mass by exactly that |
| BlockWeights.CombineAdjacent | llvm/lib/Analysis/BlockFrequencyInfoImpl.cpp:156-175 | combines runs of weights to one target in place over the array |
| BlockWeights.CombineWeightsBySorting | llvm/lib/Analysis/BlockFrequencyInfoImpl.cpp:156-175 | one weight for every target, with the saturated sum, whatever order the sort leaves equal targets in |
| BlockWeights.CombineWeightsByHashing | llvm/lib/Analysis/BlockFrequencyInfoImpl.cpp:177-194 | the same through a table, whatever its order |
| BlockWeights.CombineWeights | llvm/lib/Analysis/BlockFrequencyInfoImpl.cpp:196-204 | the same, choosing by the number of weights |
| BlockWeights.CombineRunsIsCombined | llvm/lib/Analysis/BlockFrequencyInfoImpl.cpp:140-175 | combining the runs of a sorted list leaves one weight for every target, in order |
| BlockWeights.CombinationIsUnique | llvm/lib/Analysis/BlockFrequencyInfoImpl.cpp:156-194 | sorting and hashing give the same weights up to order |
| BlockNormalize.CombiningKeepsSum | llvm/lib/Analysis/BlockFrequencyInfoImpl.cpp:244-254 | combining keeps the sum unless it saturates, which the sum fitting into 64 bits rules out |
| BlockNormalize.RoundsToNearest | llvm/lib/Analysis/BlockFrequencyInfoImpl.cpp:206-212 | the rounding shift is off by at most half a unit of the shifted scale, and rounds up in the middle |
| BlockNormalize.ShiftBounds | llvm/lib/Analysis/BlockFrequencyInfoImpl.cpp:230-238 | a sum that does not fit into 32 bits is shifted down to exactly 31 bits, one more than needed, and by 33 bits if it overflowed |
| BlockNormalize.Distribution.Add | llvm/lib/Analysis/BlockFrequencyInfoImpl.cpp:123-138 | total and overflow flag together know the true sum; the assertion against a second overflow holds |
| BlockNormalize.Distribution.Normalize | llvm/lib/Analysis/BlockFrequencyInfoImpl.cpp:214-268 | within the bound of `TotalFits`: one positive weight for every target, its share rounded to the nearest unit, with a total that is their exact sum and at most 2^32 - 1 |
| BlockNormalize.TotalFitsExactly | llvm/lib/Analysis/BlockFrequencyInfoImpl.cpp:214-268 | the bound is exact: it holds of a sum and a number of targets if and only if the assertion on the total holds for all distributions that have them |
| BlockNormalize.HugeWeightsDoNotFit | llvm/lib/Analysis/BlockFrequencyInfoImpl.cpp:226-267 | the least sums that do not fit, for 2 to 2^31 targets: 2^65 - (n - 1) * 2^33 + n - 2, with the weights whose total is 2^32 |
| BlockNormalize.ManyWeightsDoNotFit | llvm/lib/Analysis/BlockFrequencyInfoImpl.cpp:226-267 | with 2^31 + 1 targets the least such sum does not overflow |
| BlockPropagation.MassRegion.AddToDist | llvm/lib/Analysis/BlockFrequencyInfoImpl.cpp:290-350 | an edge is a backedge to one of the headers, an exit or local, or it runs backwards and stops the propagation |
| BlockPropagation.MassRegion.DistributeMass | llvm/lib/Analysis/BlockFrequencyInfoImpl.cpp:424-457 | every weight's portion goes to the place of that weight: a node, the backedge mass of its header, or an exit |
| BlockPropagation.SharesConserve | llvm/lib/Analysis/BlockFrequencyInfoImpl.cpp:424-457 | handing out the mass of a node leaves the outstanding mass as it is, without saturating, and touches no node handled before |
| BlockPropagation.MassRegion.PropagateMassToSuccessors | llvm/include/llvm/Analysis/BlockFrequencyInfoImpl.h:1303-1331 | succeeds exactly if no edge of the node runs backwards; then its mass is split without loss over the normal form of its edges, in fair portions, and every portion has been added to the node, the header or the exit that its target stands for, and nothing anywhere else |
| BlockPropagation.MassRegion.DistributeHeaderMass | llvm/include/llvm/Analysis/BlockFrequencyInfoImpl.h:1155-1202 | the headers of an irreducible loop get the full mass in proportion to their normalized weights, where a header without metadata has the smallest weight that is given, or 1 |
| BlockPropagation.NoHeaderWeights | llvm/include/llvm/Analysis/BlockFrequencyInfoImpl.h:1155-1202 | they get nothing at all exactly when there is metadata and all of it says 0 |
| BlockPropagation.HeaderAmount | llvm/include/llvm/Analysis/BlockFrequencyInfoImpl.h:1155-1202 | the weight of a header is what its metadata says; without any it is the least weight that is given, or 1 if none is |
| BlockPropagation.BackedgeAmount | llvm/lib/Analysis/BlockFrequencyInfoImpl.cpp:797-831 | when the headers are adjusted, the weight of each is the mass that flowed back to it |
| BlockPropagation.MassRegion.AdjustLoopHeaderMass | llvm/lib/Analysis/BlockFrequencyInfoImpl.cpp:797-831 | afterwards the headers that mass flowed back to share the full mass in proportion to it, and all other masses are as before |
| BlockPropagation.MassRegion.ComputeMass | llvm/include/llvm/Analysis/BlockFrequencyInfoImpl.h:1150-1242 | over the whole walk, for functions, loops and irreducible loops: every node splits its mass over the normal form of its edges; the mass of a node is what it started with and all portions for it, the backedge mass of a header all portions for it, and the exits to a place add up to all portions for it; so all of the starting mass comes back to a header, leaves through exits or ends in nodes without successors |
| IrreducibleHeaders.FindIrreducibleHeaders | llvm/lib/Analysis/BlockFrequencyInfoImpl.cpp:676-741 | splits the component into sorted headers (entries, and targets of backward edges from non-entries) and others |
| IrreducibleHeaders.EveryNodeOnce | llvm/lib/Analysis/BlockFrequencyInfoImpl.cpp:676-741 | every node is on exactly one side |
| IrreducibleHeaders.HeadersExactly | llvm/lib/Analysis/BlockFrequencyInfoImpl.cpp:676-741 | a node is a header if and only if something outside the component leads to it, or something that does not come before it and that nothing outside leads to |
| IrreducibleHeaders.OthersRunForward | llvm/lib/Analysis/BlockFrequencyInfoImpl.cpp:711-738 | edges between others run forward, so that propagation through the loop is never stopped by them |
| IrreducibleHeaders.EveryCycleHasHeader | llvm/lib/Analysis/BlockFrequencyInfoImpl.cpp:676-741 | every cycle inside the component passes through a header |
| LoopUnwrapping.NodeOf | llvm/include/llvm/Analysis/BlockFrequencyInfoImpl.h:278-340 | a node of a loop is a block of it, or stands for exactly one packaged loop right inside it, which climbing the parents finds |
| LoopUnwrapping.ScaledMass | llvm/lib/Analysis/BlockFrequencyInfoImpl.cpp:43-47 | as a number a mass is one part of 2^64 more than it says, and exactly 1 for the full mass alone |
| LoopUnwrapping.BlockFrequencies.GetPackagedLoop | llvm/include/llvm/Analysis/BlockFrequencyInfoImpl.h:314-321 | climbs to the outermost packaged loop |
| LoopUnwrapping.BlockFrequencies.UnwrapLoop | llvm/lib/Analysis/BlockFrequencyInfoImpl.cpp:498-518 | multiplies everything right inside a loop with the loop's total and nothing else |
| LoopUnwrapping.BlockFrequencies.UnwrapLoops | llvm/lib/Analysis/BlockFrequencyInfoImpl.cpp:520-527 | every block ends with its mass times scale and mass of every loop around it |
| ExceptionTables.ReadULEB128 | llvm/examples/ExceptionDemo/ExceptionDemo.cpp:335-351 | reads the number its bytes stand for and the position after it (section 7.6 of DWARF 3) |
| ExceptionTables.ReadSLEB128 | llvm/examples/ExceptionDemo/ExceptionDemo.cpp:359-380 | the same for signed numbers |
| ExceptionTables.SlebRoundTrip | llvm/examples/ExceptionDemo/ExceptionDemo.cpp:359-380 | reads back what was encoded, wherever it stands |
| ExceptionTables.UlebRoundTrip | llvm/examples/ExceptionDemo/ExceptionDemo.cpp:335-351 | the same for unsigned numbers |
| ExceptionTables.FourBytes | llvm/examples/ExceptionDemo/ExceptionDemo.cpp:359-380 | four bytes hold exactly the signed numbers of 28 bits |
| ExceptionTables.ChainIsUnique | llvm/examples/ExceptionDemo/ExceptionDemo.cpp:533-579 | the bytes determine the chain of records |
| ExceptionTables.ChainRoundTrip | llvm/lib/CodeGen/AsmPrinter/EHStreamer.cpp:126-146 | a chain laid out as the emitter does, the last record first and every other one linked back to its successor, is read back from its first record |
| ExceptionTables.HandleActionValue | llvm/examples/ExceptionDemo/ExceptionDemo.cpp:502-582 | finds the position of the first record that names the exception's type, and nothing for a foreign exception |
| ExceptionTables.HandleLsda | llvm/examples/ExceptionDemo/ExceptionDemo.cpp:596-765 | answers for the first call site with a landing pad that covers the program counter |
| ExceptionTables.LandsAtFirstSite | llvm/examples/ExceptionDemo/ExceptionDemo.cpp:653-762 | outside the search phase, whatever is selected, the landing pad is that of the first call site that has one and whose range contains the program counter; without such a site both phases go on unwinding |
| ExceptionTables.PhasesAgree | llvm/examples/ExceptionDemo/ExceptionDemo.cpp:653-762 | a handler is found exactly when the other phase installs a selector that is not zero, and that is the position of the first record that names the type |
| ExceptionFrames.Generator.CreateFinallyBlock | llvm/examples/ExceptionDemo/ExceptionDemo.cpp:948-1009 | the finally block resumes exactly if the flag says thrown |
| ExceptionFrames.Generator.CreateCatchBlock | llvm/examples/ExceptionDemo/ExceptionDemo.cpp:1024-1054 | a catch block sets the flag and goes on to the given block |
| ExceptionFrames.Generator.CreateCatchWrappedInvokeFunction | llvm/examples/ExceptionDemo/ExceptionDemo.cpp:1076-1324 | emits the blocks around a call, for any number of clauses |
| ExceptionFrames.FrameRuns | llvm/examples/ExceptionDemo/ExceptionDemo.cpp:1166-1318 | however the call ends, the generated code runs its finally block once, deletes the exception exactly if a catch block took it, and passes it on otherwise |
| ExceptionFrames.PersonalitySelects | llvm/examples/ExceptionDemo/ExceptionDemo.cpp:653-762 | in both phases the personality picks the first clause of the frame that names the type, for every table whose chain lists the clauses, however the types are numbered, and it lands at the landing block |
| ExceptionFrames.FramesExist | llvm/lib/CodeGen/MachineFunction.cpp:757-821 | every list of fewer than 2^27 types has a frame whose table is numbered and laid out as the emitter does: clauses reversed, equal types under one number |
| ExceptionFrames.DistinctTypesCountDown | llvm/lib/CodeGen/MachineFunction.cpp:793-821 | the chain of n different types is n, .., 2, 1, 0 |
| ExceptionFrames.ExceptionIsHandledOnce | llvm/examples/ExceptionDemo/ExceptionDemo.cpp:1060-1324 | through any number of frames the innermost one that lists the type catches and deletes an exception of our own, foreign ones are never caught or deleted, and every frame runs its finally block once (section 1.6 of the Itanium C++ ABI: Exception Handling) |
| CaseFold.ReadMappings | llvm/utils/unicode-case-fold.py:29-42 | keeps the C and S lines and fails exactly if they are not strictly increasing |
| CaseFold.LinesFold | llvm/utils/unicode-case-fold.py:29-42 | every C or S line folds its character to what it maps to, everything else folds to itself, and the table is in order exactly when these lines are |
| CaseFold.DumpBlock | llvm/utils/unicode-case-fold.py:60-93 | appends the statements of a block, with its three special cases |
| CaseFold.BlockIsServed | llvm/utils/unicode-case-fold.py:60-93 | they map the block's characters, and answer for any other one only with itself and only below the block's end |
| CaseFold.ServesMore | llvm/utils/unicode-case-fold.py:60-93 | a block may follow a chain for everything before it, although single-entry blocks have no lower bound check |
| CaseFold.GroupMappings | llvm/utils/unicode-case-fold.py:95-117 | the grouping loop makes a chain that serves the whole table |
| CaseFold.Generate | llvm/utils/unicode-case-fold.py:29-136 | for every database the generator fails exactly if its C and S lines are not strictly increasing or there are none, and otherwise its chain folds the character of each such line to what it maps to and every other integer to itself |
| ThreadBarrier.WaitForThreads.Block | llvm/examples/ParallelJIT/ParallelJIT.cpp:166-191 | the critical section of block() and that its assertion holds when it should |
| ThreadBarrier.WaitForThreads.ReleaseThreads | llvm/examples/ParallelJIT/ParallelJIT.cpp:196-214 | the critical section of releaseThreads() |
| ThreadBarrier.StepKeepsInvariant | llvm/examples/ParallelJIT/ParallelJIT.cpp:166-233 | every step of every thread keeps the invariant of the protocol |
| ThreadBarrier.BarrierHolds | llvm/examples/ParallelJIT/ParallelJIT.cpp:166-233 | in every state of every run: nobody has left before all workers have entered and the releaser has called, the counter is the number of waiting workers, and the assertion does not fail |
| ThreadBarrier.NoDeadlock | llvm/examples/ParallelJIT/ParallelJIT.cpp:166-233 | until all threads are done some thread can move |
| ThreadBarrier.EveryRunReleasesAll | llvm/examples/ParallelJIT/ParallelJIT.cpp:166-233 | every run ends after at most five steps for each thread, and one that cannot go on has released every thread |
| PostDominance.BranchProbabilityInfo.UpdatePostDominatedByUnreachable | llvm/lib/Analysis/BranchProbabilityInfo.cpp:136-163 | one visit adds a block exactly under the rule of the first set |
| PostDominance.BranchProbabilityInfo.UpdatePostDominatedByColdCall | llvm/lib/Analysis/BranchProbabilityInfo.cpp:166-199 | one visit adds a block exactly under the rule of the second set |
| PostDominance.BranchProbabilityInfo.Calculate | llvm/lib/Analysis/BranchProbabilityInfo.cpp:967-970 | the walk collects both sets |
| PostDominance.BlocksDecide | llvm/lib/Analysis/BranchProbabilityInfo.cpp:136-199 | a block visited once is in the first set if and only if it has no successors and is unreachable or deoptimizes, or its normal destination (for an invoke) or all its successors were in the set before; in the second if and only if it has successors and a cold call, or the same held of that set |
| PostDominance.MembersAreInevitable | llvm/lib/Analysis/BranchProbabilityInfo.cpp:136-199 | on any graph, in any order: from a member every way meets a goal in boundedly many steps, without ending or coming back before |
| PostDominance.DeadEnds | llvm/lib/Analysis/BranchProbabilityInfo.cpp:136-163 | a walk from a member of the first set is finite, and if complete it ends in an unreachable or deoptimize block |
| PostDominance.ExactIff | llvm/lib/Analysis/BranchProbabilityInfo.cpp:965-970 | on any graph, for either set, in any order that visits each block once: membership is exact if and only if every block from which a goal is inevitable, and that is no goal itself, is visited after all its successors |
| PostDominance.PostOrderIsExact | llvm/lib/Analysis/BranchProbabilityInfo.cpp:967-970 | so it is in post-order, when every edge back along a cycle closes one that meets no goal |
| PostDominance.DeadIsExact | llvm/lib/Analysis/BranchProbabilityInfo.cpp:136-163 | and for the first set in the post-order of every depth-first walk on graphs in which no edge to an unwind destination lies on a cycle |
| PostDominance.AcyclicIsExact | llvm/lib/Analysis/BranchProbabilityInfo.cpp:136-199 | on acyclic graphs visited in post-order both sets are exact |
| PostDominance.CyclesCanHideColdCalls | llvm/lib/Analysis/BranchProbabilityInfo.cpp:166-199 | in the post-order of a depth-first walk around a cycle with a cold call on it, from an entry block without predecessors, the second set misses a block |

## Left out

- BrainF: printing of the compiled module, the JIT, and failure of `malloc`; addresses and folded run counts are integers that do not wrap, tape cells and written characters are bytes.
- BasicAALinear.KeptIsExact: exact where a sign extension meets no zero extension and the unsigned reading is known; the case of a sign extension above a zero extension is `NegativeIsMisread`.
- BasicAAGep.ExactSound: the minimum-distance rule is proved for addresses that do not wrap and for indices that are decomposed exactly; where addresses wrap, see `FarApartOnTheCircle` and `AllPositiveOnTheCircle`.
- BasicAAAnswers.VariablesAnswer: accesses of less than 2^63 bytes and a minimum distance that fits into 64 bits, beyond which the arithmetic of the heuristic wraps; `RulesSpeak` has the other two rules for all sizes.
- BasicAAGep.GetIndexDifference: whether a value may change between the iterations of a cycle is an oracle that only makes fewer entries match; both addresses are taken in one iteration, and erasing and updating work on sequence values.
- Basic alias analysis: decomposing getelementptr instructions into offsets, phi and select speculation, and the alias cache.
- AliasSetTracking.AliasSetTracker.AddPointerToTracker: reference counts and the removal of sets nobody refers to, access kinds and volatility, alias metadata, unknown instructions, and deleting values; sets that were merged away stay in the list as forwards. Up to saturation sets forward to earlier ones only (`AliasSets.Backward`), so that the full merge, which walks them in order, drops references to sets it has already walked.
- AliasSetRuns.AddKeepsApartInUse: oracles that break one of the four laws on the locations in use, that is, whose answers depend on the order of the two locations, that see an alias of a location which they do not see of itself, that give up an alias as an access grows (as BasicAAResult does once it is larger than the object on the other side), or that tell must-alias pointers apart; that the third is needed is `AliasSetExamples.LargeFirstHidesAlias`.
- BlockNormalize.Distribution.Normalize: beyond the bound of `TotalFits`, where the assertion on the total fails for some weights.
- BlockPropagation.MassRegion.AddToDist: nodes are given by their place in the region, headers first, and packaged inner loops are given as one node whose edges are their exits; resolving a block to the loop it is packaged into is `LoopUnwrapping.BlockFrequencies.GetPackagedLoop`.
- BlockPropagation.MassRegion.DistributeHeaderMass: headers without metadata are visited in order, where the original walks a hash set; a region has at most 2^31 headers.
- LoopUnwrapping.BlockFrequencies.UnwrapLoops: frequencies are exact rationals; the rounding of the scaled numbers and their conversion to integers live in a header that is not part of this model.
- Irreducible loops: building the graph and finding its components.
- ExceptionTables.ReadULEB128: numbers of at most four bytes; a fifth byte is shifted by 28 bits as a 32-bit `int`, which C++ does not define for all of them.
- ExceptionTables.ReadSLEB128: the same.
- ExceptionTables.HandleActionValue: chains of such numbers that end; filters are not supported by the original either.
- ExceptionTables.HandleLsda: call sites are read already decoded; encoded pointers and the table header are not.
- ExceptionFrames.ExceptionIsHandledOnce: the table of a frame is any table that covers the call and whose chain lists the frame's clauses in order. Failure to find any frame is the outer C++ handler's business.
- ExceptionTables.ChainRoundTrip: sharing of records between the landing pads of one function, and filters.
- CaseFold: parsing lines with a regular expression, downloading the file, and the text of the generated C++.
- ThreadBarrier: spurious wakeups, which the original does not guard against, and failing system calls.
- PostDominance: the weights that the two sets lead to, and the other heuristics.
