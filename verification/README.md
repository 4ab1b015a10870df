# lccc: verified models of the hard parts

This project models, in Dafny, the algorithms of the lccc repository whose correctness is not visible
from reading one function, and proves what their documentation and tests promise.

* **Strength reduction of division** (`src/passes/div_by_const.rs`). The magic-number searches, the
  instruction sequences they parameterise, and an interpreter of the intermediate language with its
  wrapping arithmetic. Every sequence computes the quotient or remainder it replaces, for every
  register state and every divisor, and the model says exactly when a sequence is produced.
* **Phi elimination** (`src/ir/mem2reg/phi_eliminate.rs`). Both copy planners and the emitter. On every
  edge the copies have the meaning of the simultaneous assignment, and the cycle-accurate planner
  spends a temporary exactly on the copies that lie on a dependency cycle. The order it returns is
  determined round by round, and the pass that then sinks computed sources to their copies changes no
  register.
* **The Arm documentation checker** (`scripts/aarch64_doccheck_2026_09.py`). A register diagram and a
  `bitdiffs` text are compiled to a mask, a value and reject patterns. Model: text, syntax tree, direct
  evaluator, compiled form, and the loops that produce it.
* **Bit loops, carry-less products, SHA-256 and float rounding** in the bundled headers.
* **Differential drivers** (`scripts/aarch64_encoder_differential.py`,
  `scripts/aarch64_operand_legality_matrix.py`, `scripts/aarch64_sysreg_table.py`). Bisection and
  batching give the verdicts of testing one line at a time, with a bound on the work.
* **Two state machines**: the aligned allocator of `include/xmmintrin.h` and the archive-then-delete
  protocol of `scripts/archive_checkpoint_history.py`, over every interleaving and every stop.

`dafny verify dfyconfig.toml` checks the whole project.

## How the model is built

Integers used as bit strings are `nat`s; the bitwise operators are recursive functions characterised
position by position (`Bits`). Register widths are parameters wherever the code is the same at several
widths. Loops of the source are methods with loops, tied by their `ensures` to specification functions
about which the properties are proved. Exceptions, fatal exits and `None` are `Option` or outcome values.
An assembler is a function from a line (and its address) to bytes or a refusal; a compression format is
represented by what reading it back yields; the rounding mode, other processes' actions and the C
library's allocator are parameters that may take any value their contract allows.

Places where the code and its own description differ:

* The planner's order is described as the lexicographically smallest topological order. It goes by
  round and then by index, and is the smallest exactly when no copy is overtaken while it waits for a
  higher-numbered one (`PhiOrder.SmallestExactly`); `PhiOrder.SmallestIsMissed` has three copies where
  it is not.
* The planner's comment allows for copies that are merely downstream of a cycle; there are none
  (`PhiGraph.StuckIsCycle`).
* The fold of computed incomings is described as dropping the copy and requiring a single use; the code
  only moves the definition, and that alone keeps the meaning (`PhiSink.FoldKeepsMeaning`).
* Two positive equalities on one field (`f == 0 && f == 1`): the later one silently replaces the earlier
  (`BitdiffFold.ClashText`, `BitdiffFold.LaterEqualityWins`). `BitdiffFold.CompiledMeaning` says what
  every compiled predicate means, and `BitdiffFold.MeaningPreservedExactly` when that is the meaning of
  the text.
* The byte-count test of `batch_encode` is described as catching lines that do not encode to one word;
  a long and an empty line cancel out (`BatchEncode.ByteCountIsNotEnough`). Batching agrees with
  single encoding exactly when each accepted line is one word (`BatchEncode.BatchRefinesSingle`).
* The bisection of the encoder differential judges a line that emits less than a word differently in a
  batch and alone (`EncoderDiffer.SilentLineDiffers`). Where no line moves the next ones, every
  instruction gets its lone verdict exactly when the bisection leaves each such line to a file of its
  own (`EncoderDiffer.Differ.Batch`, `EncoderDiffer.ComparedExactly`).
* `_bisect_failing_line` is described as finding the first refused line; with one word per line it only
  ever finds the first line of the file (`SysregTable.BisectFailingLine`,
  `SysregTable.LaterRefusalIsNotFound`). A per-register verdict is therefore given exactly when the
  refused names form a prefix (`SysregTable.PerRegisterExactly`); the clean verdict is right.
* `_mm_malloc` does not guard its size computation: slot and payload fit the block exactly when the
  request does not wrap (`AlignedAlloc.FitsExactly`, `AlignedAlloc.WrappingRequest`). Its results for
  alignments up to the pointer size carry no back-pointer, and `_mm_free` frees a pointer correctly in
  every continuation exactly when its alignment is larger (`AlignedFree.PassedBackExactly`).
* `vsha256su1q_u32` adds the words one place too late and feeds lanes 2 and 3 from its argument; it
  agrees with FIPS 180-4 exactly when those words happen to (`Sha256.ArmScheduleExactly`).

## Model

| member | source | states |
|---|---|---|
| `MagicNumbers.ComputeUnsignedMagic` | src/passes/div_by_const.rs:1918-1937 | The search returns a multiplier and the least shift whose overshoot is small enough; it succeeds if and only if the overshoot at the largest shift is, and always for divisors up to half the range; one method for the 32-bit and 64-bit forms. |
| `MagicNumbers.ReciprocalDivides` | src/passes/div_by_const.rs:2368-2389 | Multiplying by any close enough reciprocal and dropping the low digits is division, for every word. |
| `MagicNumbers.PlainDivides` | src/passes/div_by_const.rs:1970-2006 | The high word shifted right is the quotient when the multiplier fits the word. |
| `MagicNumbers.AddedDivides` | src/passes/div_by_const.rs:2008-2064 | With a multiplier one bit too wide, half the difference plus the high word, shifted one place less, is the quotient and never overflows. |
| `MagicNumbers.MultiplierFits` | src/passes/div_by_const.rs:1928-1934 | The multiplier exceeds the word by at most one bit, so the reduced form always fits. |
| `MagicNumbers.ComputeSignedMagic` | src/passes/div_by_const.rs:2076-2111 | The doubling loop stops with a shift below the width, its multiplier fits the word and is a signed reciprocal; 32-bit and 64-bit forms at once. |
| `MagicNumbers.SignedReciprocalDivides` | src/passes/div_by_const.rs:2563-2600 | For every signed dividend including the most negative one, the floored product is the truncated quotient, or one below it for negative dividends. |
| `MagicNumbers.SignedMagicDivides` | src/passes/div_by_const.rs:2154-2207 | The same in the steps the code takes: high word, then arithmetic shift. |
| `DivByConst.ExpandUdiv32` | src/passes/div_by_const.rs:1939-2068 | The emitted code computes the unsigned quotient in every register state and writes only its destination and fresh values; it is produced if and only if the divisor is at least two and is a power of two or has a close enough 32-bit reciprocal. |
| `DivByConst.ExpandUdiv64` | src/passes/div_by_const.rs:2391-2530 | The same at 64 bits for signed-typed and unsigned-typed operands, and for every divisor from two up, by shift, comparison or magic. |
| `DivByConst.ExpandUrem32` | src/passes/div_by_const.rs:2245-2277 | The emitted code computes the unsigned remainder. |
| `DivByConst.ExpandUrem64` | src/passes/div_by_const.rs:2709-2771 | The same at 64 bits, with one conditional subtraction for divisors of at least half the range. |
| `DivByConst.RemainderFromQuotient` | src/passes/div_by_const.rs:2256-2274 | Any code that divides, followed by multiply and subtract, leaves the remainder, because the operand survives the division code. |
| `DivByConst.PowerOfTwoIs` | src/passes/div_by_const.rs:1950-1959 | A number with one set digit is two to its trailing zeros. |
| `SignedDivByConst.ExpandSdiv` | src/passes/div_by_const.rs:2113-2240 | 32-bit and 64-bit signed division: the code computes the quotient rounded towards zero in every register state, for every divisor from two up. |
| `SignedDivByConst.Sdiv64Runs` | src/passes/div_by_const.rs:2602-2704 | The 64-bit magic sequence is right also when the magic word is negative as a signed number and the dividend must be added back. |
| `SignedDivByConst.SdivPow2Runs` | src/passes/div_by_const.rs:2125-2169 | Adding the narrowed sign broadcast before the arithmetic shift divides by a power of two towards zero. |
| `SignedDivByConst.ExpandSrem` | src/passes/div_by_const.rs:2281-2362 | The code computes the remainder with the dividend's sign, by masking for powers of two. |
| `SignedDivByConst.SremPow2Runs` | src/passes/div_by_const.rs:2292-2341 | Mask the biased value and subtract the bias: the truncated remainder by a power of two. |
| `SignedDivByConst.ExpandSdiv32InI64` | src/passes/div_by_const.rs:2987-3111 | The 64-bit sequence for operands that fit 32 bits divides the sign-extended low half, for every operand. |
| `SignedDivByConst.NarrowIsWide` | src/passes/div_by_const.rs:69-70 | On an operand that fits 32 bits that is the 64-bit division. |
| `SignedDivByConst.ExpandSdivNeg` | src/passes/div_by_const.rs:3113-3137 | Division by a negative constant as the negated division by its absolute value, which cannot overflow; 32-bit, 64-bit and narrow 64-bit operands. |
| `SignedDivByConst.SameRemainder` | src/passes/div_by_const.rs:43-44 | The remainder does not depend on the divisor's sign. |
| `SignedDivByConst.TypeMinDivides` | src/passes/div_by_const.rs:3159-3203 | Division and remainder by the most negative word are one comparison and one selection. |
| `WordIr.OthersUnchanged` | src/passes/div_by_const.rs:638-642 | Code that writes only its destination and fresh values changes nothing else. |
| `WordIr.RemainderReads` | src/ir/ops.rs:308-318 | Multiply and subtract in wrapping arithmetic depend only on what the operands read as. |
| `PhiPlan.PlanAcyclic` | src/ir/mem2reg/phi_eliminate.rs:497-583 | For any guards: the order is topological and without repetition, the set served by temporaries is exactly the copies on a cycle, and everything else that is not a self-copy is ordered. With no guards, or guards that can be met together with the precedences, the order goes by round and then by index and every guarded computation precedes the copy that overwrites its operand. |
| `PhiOrder.PlanDetermined` | src/ir/mem2reg/phi_eliminate.rs:467-469 | Two such plans of the same copies are the same plan: planning is deterministic. |
| `PhiOrder.RoundFromLatest` | src/ir/mem2reg/phi_eliminate.rs:545-562 | A copy's round is that of its latest predecessor, plus one when that one's index is higher. |
| `PhiOrder.SmallestExactly` | src/ir/mem2reg/phi_eliminate.rs:467-469 | The order is the lexicographically smallest valid one if and only if no copy i waits for a later p > i while some k > p of the round of p comes out in between. |
| `PhiOrder.SmallestIsMissed` | src/ir/mem2reg/phi_eliminate.rs:467-469 | Three copies for which the planner's order is 1, 2, 0 although 1, 0, 2 is valid and smaller. |
| `PhiGraph.StuckIsCycle` | src/ir/mem2reg/phi_eliminate.rs:574-581 | Every copy that can never run is itself on a dependency cycle. |
| `PhiGraph.CycleNotOrdered` | src/ir/mem2reg/phi_eliminate.rs:536-572 | No copy on a cycle is ever emitted directly. |
| `PhiGraph.BeforeExactly` | src/ir/mem2reg/phi_eliminate.rs:506-531 | One copy must precede another if and only if it reads what the other, the first copy with that destination, overwrites. |
| `PhiPlan.NeverStarves` | src/ir/mem2reg/phi_eliminate.rs:540-570 | When precedences and guards can be met together, a pass with deferral that emits nothing leaves only copies that cannot run, so deferral is never overridden. |
| `PhiPlan.BuildPreds` | src/ir/mem2reg/phi_eliminate.rs:506-531 | The predecessor lists and the skip table are those of the precedence relation. |
| `PhiPlan.PlanLegacy` | src/ir/mem2reg/phi_eliminate.rs:593-626 | The historical planner marks exactly the copies that read a destination or have one read by such a copy. |
| `PhiPlan.LegacyMarksCycles` | src/ir/mem2reg/phi_eliminate.rs:585-592 | Every copy on a cycle is also marked by the historical planner. |
| `PhiPlan.ExactIsSerial` | src/ir/mem2reg/phi_eliminate.rs:437-446 | In the planned order no copy finds its source overwritten, also when more copies get temporaries than this edge needs. |
| `PhiPlan.LegacyIsSerial` | src/ir/mem2reg/phi_eliminate.rs:617-625 | The same for the historical order. |
| `PhiCopies.EmitMultiPhi` | src/ir/mem2reg/phi_eliminate.rs:795-873 | Under both policies, on every edge and in every register state, the edge's copies followed by the block's give each phi its incoming value as if all were assigned at once and change no other value. A phi has a temporary if and only if some edge wants one for it (with the cycle-accurate policy: it is on a cycle there); the counter advances by the number of temporaries, which are distinct and lie between its old and new value, and nothing is written but them and the phis' destinations. |
| `PhiCopies.EdgeIsSimultaneous` | src/ir/mem2reg/phi_eliminate.rs:992-1048 | Saves, ordered direct copies and restores compose to the simultaneous assignment. |
| `PhiCopies.BuildEdgeCopies` | src/ir/mem2reg/phi_eliminate.rs:992-1048 | The two emission loops produce the saves followed by the direct copies. |
| `PhiCopies.PlanAllEdges` | src/ir/mem2reg/phi_eliminate.rs:906-936 | Every edge is planned by the selected policy. |
| `PhiCopies.InfoReads` | src/ir/mem2reg/phi_eliminate.rs:879-898 | The planner sees a register as the source exactly when the incoming operand is that register. |
| `PhiBlocks.EliminatePhis` | src/ir/mem2reg/phi_eliminate.rs:696-706 | Over all blocks of a function each block's copies have the meaning of its phis, and no copy of one block writes a temporary of another. |
| `PhiBlocks.EmitSinglePhi` | src/ir/mem2reg/phi_eliminate.rs:772-790 | A single phi gets one copy per edge, none where it keeps its value, and no temporary. |
| `PhiBlocks.SingleIsSimultaneous` | src/ir/mem2reg/phi_eliminate.rs:772-790 | That copy alone has the meaning of the block's phis. |
| `PhiSink.FoldBlock` | src/ir/mem2reg/phi_eliminate.rs:1806-1944 | The fold over one block permutes it and leaves every register as it was in every state. In a block with one relay copy, its definition ends up immediately before the copy and all else in order if and only if the hazard scan is clear and the phi home is pending; otherwise, and without a definition or a relay, the block is unchanged. |
| `PhiSink.FoldLone` | src/ir/mem2reg/phi_eliminate.rs:1826-1943 | The same for the specification of the fold. |
| `PhiSink.LastRelayFirst` | src/ir/mem2reg/phi_eliminate.rs:1806-1826 | The last relay of a block is dealt with first, and then the ones above it in the block that results. |
| `PhiSink.SinkOneIs` | src/ir/mem2reg/phi_eliminate.rs:1829-1943 | One candidate: the first definition above the first such copy moves to just before it, or nothing does. |
| `PhiSink.TouchesExactly` | src/ir/mem2reg/phi_eliminate.rs:1896-1919 | What the hazard scan takes as read and written. |
| `PhiSink.SinksPastOne` | src/ir/mem2reg/phi_eliminate.rs:1864-1943 | A pure definition, any one instruction and the relay: exactly when the first two change places. |
| `PhiSink.FoldKeepsMeaning` | src/ir/mem2reg/phi_eliminate.rs:1826-1944 | The same for any list of candidates. |
| `PhiSink.SinkKeepsMeaning` | src/ir/mem2reg/phi_eliminate.rs:1896-1919 | Moving a definition past instructions that pass the hazard scan changes no register in any state. |
| `PhiSink.SlotIsReachable` | src/ir/mem2reg/phi_eliminate.rs:471-479 | With a plan that meets its guards, no save and no earlier copy of the edge is a hazard for the computation behind a later copy. |
| `PhiSink.OperandsIntact` | src/ir/mem2reg/phi_eliminate.rs:540-551 | No copy emitted earlier overwrites an operand of a guarded computation. |
| `BitdiffText.SplitTopLoop` | scripts/aarch64_doccheck_2026_09.py:210-239 | The depth-tracking loop computes the recursive top-level split. |
| `BitdiffText.SplitKeepsText` | scripts/aarch64_doccheck_2026_09.py:222-238 | Joining the pieces with the separator gives the text back. |
| `BitdiffText.SplitRefusesOr` | scripts/aarch64_doccheck_2026_09.py:233-235 | The splitter gives up exactly on the texts with a disjunction outside every bracket. |
| `BitdiffReads.AtomReads` | scripts/aarch64_doccheck_2026_09.py:315-334 | Every conjunct `f == lit`, `f != lit` or `f IN {..}` is read, with any spacing. |
| `BitdiffReads.AtomRead` | scripts/aarch64_doccheck_2026_09.py:315-334 | Whatever is read as a conjunct has that shape. |
| `BitdiffReads.LiteralBare` | scripts/aarch64_doccheck_2026_09.py:251-252 | A literal without brackets is one alternative, its blanks left out. |
| `BitdiffReads.RemoveSpacesConcat` | scripts/aarch64_doccheck_2026_09.py:248-252 | Leaving out blanks works piece by piece. |
| `BitdiffReads.LiteralParenthesised` | scripts/aarch64_doccheck_2026_09.py:246-248 | So is one in parentheses. |
| `BitdiffReads.LiteralBraced` | scripts/aarch64_doccheck_2026_09.py:249-250 | A list in braces is its trimmed pieces between the commas. |
| `BitdiffReads.NegationReads` | scripts/aarch64_doccheck_2026_09.py:305-310 | `! ( .. )` with any blanks is a negation of what is inside. |
| `BitdiffReads.NegationRead` | scripts/aarch64_doccheck_2026_09.py:305-310 | Whatever is taken as a negation has that shape. |
| `BitdiffReads.PiecesRead` | scripts/aarch64_doccheck_2026_09.py:210-239 | Balanced pieces joined by `&&` come back trimmed, one by one. |
| `BitdiffReads.CharacterClasses` | scripts/aarch64_doccheck_2026_09.py:255 | The blanks and the digits, spelled out. |
| `BitdiffPrint.SpecRoundTrip` | scripts/aarch64_doccheck_2026_09.py:295-334 | Printing any well-formed predicate and reading the text returns the same tree. |
| `BitdiffPrint.TopOrIsRefused` | scripts/aarch64_doccheck_2026_09.py:295-303 | A text with a top-level disjunction is never read. |
| `BitdiffPrint.NegatedOrIsRefused` | scripts/aarch64_doccheck_2026_09.py:310-313 | Nor is a negation with a disjunction directly inside it. |
| `BitdiffCompile.LiteralCube` | scripts/aarch64_doccheck_2026_09.py:257-266 | The mask and value of a literal are the bits its constant characters name. |
| `BitdiffCompile.FitsExactly` | scripts/aarch64_doccheck_2026_09.py:255 | A literal fits a field when it has one character of `01xX` for each of its bits. |
| `BitdiffCompile.LiteralCubes` | scripts/aarch64_doccheck_2026_09.py:253-267 | One cube per alternative, or nothing exactly when one does not fit. |
| `BitdiffCompile.CubeExact` | scripts/aarch64_doccheck_2026_09.py:398-407 | A word matches the cube if and only if the literal holds of the field, character by character. |
| `BitdiffCompile.Complement` | scripts/aarch64_doccheck_2026_09.py:363-374 | The enumeration over all field values rejects exactly the words no listed alternative matches, don't-care digits included. |
| `BitdiffFold.CompilePositive` | scripts/aarch64_doccheck_2026_09.py:350-392 | One positive conjunct yields the pin or the reject pattern that means it, or is refused exactly when it is not readable. |
| `BitdiffFold.CompileNegated` | scripts/aarch64_doccheck_2026_09.py:310-349 | A negated conjunction becomes one pattern that matches exactly the forbidden words. |
| `BitdiffFold.CompileTerm` | scripts/aarch64_doccheck_2026_09.py:304-394 | Each term, either sign. |
| `BitdiffFold.ApplyBitdiffs` | scripts/aarch64_doccheck_2026_09.py:270-395 | A variant comes back exactly when the text can be read against the diagram; otherwise exactly one reason is recorded, and it says what is wrong with the first term, and in a negation the first conjunct, that cannot be used. |
| `BitdiffFold.MeaningPreserved` | scripts/aarch64_doccheck_2026_09.py:270-407 | Without clashing equalities, for every word: the compiled variant matches if and only if diagram and predicate hold. |
| `BitdiffFold.CompiledMeaning` | scripts/aarch64_doccheck_2026_09.py:382-407 | For every diagram and every readable predicate: the variant matches exactly the words of the text read with the last equality on a bit winning. |
| `BitdiffFold.ConsistentMeaning` | scripts/aarch64_doccheck_2026_09.py:382-392 | Without clashes on a non-overlapping diagram that is the plain reading. |
| `BitdiffFold.ClashIsUnsatisfiable` | scripts/aarch64_doccheck_2026_09.py:390-392 | No word satisfies a text with clashing equalities. |
| `BitdiffFold.MeaningPreservedExactly` | scripts/aarch64_doccheck_2026_09.py:390-392 | Compiled and source meaning agree on all words if and only if no equalities clash or the last-wins reading is empty. |
| `BitdiffFold.LaterEqualityWins` | scripts/aarch64_doccheck_2026_09.py:392 | A concrete text and word on which they differ. |
| `BitdiffFold.ClashText` | scripts/aarch64_doccheck_2026_09.py:289-392 | That text reads as the clashing terms and is accepted. |
| `RegDiagram.DiagramConstraints` | scripts/aarch64_doccheck_2026_09.py:143-207 | A constraint comes back if and only if every box can be read, and it is the one the boxes describe, field by field and bit by bit. |
| `RegDiagram.DiagramMeaning` | scripts/aarch64_doccheck_2026_09.py:184-191 | On non-overlapping boxes the mask test says exactly that every constant column is met. |
| `RegDiagram.DiagramUsable` | scripts/aarch64_doccheck_2026_09.py:195-206 | Every readable diagram, overlapping or not, has contiguous fields and a value inside its mask. |
| `RegDiagram.MaskAccepts` | scripts/aarch64_doccheck_2026_09.py:184-191 | On any diagram the mask test says that a pinned bit is one exactly when some box wants a one there. |
| `RegDiagram.CellReads` | scripts/aarch64_doccheck_2026_09.py:170-193 | Constants, bare or in parentheses and with any blanks around them, fill exactly as many columns as they have digits. |
| `RegDiagram.CellOpen` | scripts/aarch64_doccheck_2026_09.py:176-195 | An empty cell or a constraint leaves its columns open; any other text is refused. |
| `RegDiagram.DiagramWellFormed` | scripts/aarch64_doccheck_2026_09.py:195-206 | A non-overlapping diagram's fields repeat what its mask and value say. |
| `Doccheck.ConstraintUnique` | scripts/aarch64_doccheck_2026_09.py:143-207 | A diagram has only one constraint. |
| `Doccheck.EncodingVariants` | scripts/aarch64_doccheck_2026_09.py:410-432 | The usable variants of any page match exactly the words it accepts, and no reason is recorded if and only if everything was read. |
| `Doccheck.PageSound` | scripts/aarch64_doccheck_2026_09.py:410-432 | Without overlapping boxes and clashing equalities a page accepts exactly the words its diagrams and texts document. |
| `Doccheck.DiagramChoice` | scripts/aarch64_doccheck_2026_09.py:424-428 | An encoding refines its own diagram whatever the class has, without one that of its class, and with neither it contributes nothing; a class without encodings stands for its diagram: for what is accepted, documented and read. |
| `Doccheck.EncodingsAlternate` | scripts/aarch64_doccheck_2026_09.py:423-430 | The encodings of a class are alternatives, and all of them have to be read. |
| `Doccheck.EncodingVariant` | scripts/aarch64_doccheck_2026_09.py:424-431 | One encoding over one diagram. |
| `Doccheck.ClassVariants` | scripts/aarch64_doccheck_2026_09.py:418-431 | One class with its own or inherited diagrams. |
| `Doccheck.MatchRow` | scripts/aarch64_doccheck_2026_09.py:696-712 | A golden word is matched if and only if some candidate page accepts it, and unread forms are counted on every page looked at. |
| `Doccheck.RowSound` | scripts/aarch64_doccheck_2026_09.py:696-712 | On sound pages a row is accepted if and only if its word is documented. |
| `Doccheck.CheckGoldens` | scripts/aarch64_doccheck_2026_09.py:683-756 | The exit status is zero if and only if every row is accepted or aliased and rests on pages read in full. The number validated is the number of rows accepted or aliased. |
| `BitScatter.ExtractOfDeposit` | include/bmi2intrin.h:43-67 | Extracting what was deposited returns the low digits, as many as the mask has. |
| `BitScatter.DepositOfExtract` | include/bmi2intrin.h:43-67 | Depositing what was extracted masks the word. |
| `BitScatter.DepositBijection` | scripts/aarch64_doccheck_2026_09.py:363-371 | Every submask is deposited from exactly one value. |
| `BitScatter.PdepLoop` | include/bmi2intrin.h:43-54 | The portable loop computes the deposit at any width, in exactly as many turns as the mask has digits. |
| `BitScatter.PextLoop` | include/bmi2intrin.h:56-67 | The portable loop computes the extraction, likewise. |
| `BitScatter.BzhiKeepsLow` | include/bmi2intrin.h:6-33 | The portable form keeps the digits below the index, which is read modulo 256 and saturates. |
| `BitScatter.ExtractOfDepositIsBzhi` | include/bmi2intrin.h:93-126 | Deposit then extract is the zero-high-bits operation at the population count. |
| `BitScatter.BlsiIsLowest` | include/bmiintrin.h:54-57 | Isolates the lowest set bit. |
| `BitScatter.BlsrClearsLowest` | include/bmiintrin.h:78-81 | Clears exactly the lowest set bit. |
| `BitScatter.BlsmskIsMask` | include/bmiintrin.h:66-69 | Keeps the lowest set bit and all below it; all ones at zero. |
| `BitScatter.BextrIsExtract` | include/bmiintrin.h:37-45 | Bit-field extraction is the parallel extraction with a run of ones. |
| `Clmul.CoefficientIsConvolution` | include/arm_neon.h:968-978 | Coefficient k of the product is the sum modulo two of the products with indices adding up to k. |
| `Clmul.Commutes` | include/arm_neon.h:968-978 | Commutative. |
| `Clmul.Associates` | include/arm_neon.h:968-978 | Associative. |
| `Clmul.DistributesLeft` | include/arm_neon.h:968-978 | Distributes over xor in the first operand. |
| `Clmul.DistributesRight` | include/arm_neon.h:968-978 | Distributes over xor in the second operand. |
| `Clmul.DegreeAdds` | include/arm_neon.h:968-978 | The degree of a product is the sum of the degrees. |
| `Clmul.ZeroProduct` | include/arm_neon.h:968-978 | A product is zero only if an operand is. |
| `Clmul.ProductFits` | include/arm_neon.h:968-978 | Two n-digit operands give at most 2n-1 digits. |
| `Clmul.Vmull` | include/arm_neon.h:968-978 | The shift-xor loop computes the polynomial product at any width. |
| `Clmul.MulLane` | include/arm_neon.h:953-960 | One lane is the low eight digits of the product. |
| `Clmul.VmulqP8` | include/arm_neon.h:947-963 | Sixteen independent lanes. |
| `FloatRounding.AddMagicSigned` | include/xmmintrin.h:600-609 | In every rounding mode the sum with the signed magic constant has exactly one correctly rounded value, the rounded integer plus the constant. |
| `FloatRounding.SubtractMagicExact` | include/xmmintrin.h:600-609 | Subtracting the constant again is exact. |
| `FloatRounding.EmulationExact` | include/xmmintrin.h:592-612 | For every format wide enough, every mode and every float including NaN, infinities and the already integral range, the emulation equals the specified conversion. |
| `FloatRounding.ConvertExactly` | include/xmmintrin.h:589-611 | The converted value is the integer the mode picks where it fits 64 bits, and the least 64-bit integer otherwise and for NaN and infinities. |
| `FloatRounding.RoundToIntExactly` | include/xmmintrin.h:598-602 | Every mode picks exactly one integer, by its distance and parity. |
| `FloatRounding.CvtssSi64` | include/xmmintrin.h:592-612 | The single-precision instance. |
| `FloatRounding.CvtsdSi64` | include/emmintrin.h:1179-1199 | The double-precision instance. |
| `Sha256.Rnds2IsTwoRounds` | include/shaintrin.h:129-184 | One call performs two rounds of section 6.2.2 of FIPS 180-4 on the split state. |
| `Sha256.Chooses` | include/shaintrin.h:151 | The choice function takes each bit from its second or third argument by the first. |
| `Sha256.MajorityDecides` | include/shaintrin.h:152 | Any two equal arguments decide the majority function. |
| `Sha256.Xor3Cancels` | include/shaintrin.h:154-155 | Two equal terms of a sigma cancel. |
| `Sha256.X86FoldIsRounds` | include/shaintrin.h:129-184 | Any number of calls with the halves swapped equals the plain rounds on the flattened words. |
| `Sha256.FourRounds` | include/arm_neon.h:1863-1884 | The four-step loop performs four plain rounds. |
| `Sha256.HashUpdate` | include/arm_neon.h:1863-1884 | The first half of the new state. |
| `Sha256.HashUpdate2` | include/arm_neon.h:1887-1908 | The second half of the new state. |
| `Sha256.ArmPair` | include/arm_neon.h:1863-1908 | A pair of calls, both reading the old halves, is one step of four rounds. |
| `Sha256.ArmFoldIsRounds` | include/arm_neon.h:1863-1908 | Any number of pairs equals the plain rounds. |
| `Sha256.ArmAgreesWithX86` | include/shaintrin.h:129-184 | Arm pairs and twice as many x86 calls on the same words end in the same state up to a fixed lane permutation. |
| `Sha256.ScheduleStep` | include/shaintrin.h:188-230 | One step on a correct prefix, the second helper's lanes written in place and reread, gives the next four words of the schedule. |
| `Sha256.ArmScheduleExactly` | include/arm_neon.h:1827-1860 | The Arm schedule pair extends a correct prefix correctly if and only if the words it adds agree with the words the standard adds, lane by lane. |
| `Sha256.ArmScheduleDiffers` | include/arm_neon.h:1841-1860 | A block with a single one for which the pair is wrong. |
| `Sha256.X86ScheduleIsFips` | include/shaintrin.h:188-230 | For every block and number of steps the helpers produce the message schedule of section 6.2.2 of FIPS 180-4. |
| `EncoderDiffer.Src` | scripts/aarch64_encoder_differential.py:536-550 | The emitted source is the pinned one, or the error is raised. |
| `EncoderDiffer.SourceOfTwo` | scripts/aarch64_encoder_differential.py:540-549 | An `.org` comes before the first instruction unless it is at zero, and before the next only across a gap. |
| `EncoderDiffer.SourceDefined` | scripts/aarch64_encoder_differential.py:540-547 | The error is raised exactly when addresses overlap or go backwards. |
| `EncoderDiffer.EmitPinned` | scripts/aarch64_encoder_differential.py:538-550 | When every accepted line is one word or ends before a next line with its own `.org`, a file assembles if and only if each line does at its own address, and then holds its bytes there and ends with the last of them. |
| `EncoderDiffer.AssemblePinned` | scripts/aarch64_encoder_differential.py:556-567 | The same for the whole file, so the length test passes exactly when the last line fills its word. |
| `EncoderDiffer.FilesBound` | scripts/aarch64_encoder_differential.py:609-612 | Bisection assembles one file, and per refused or short instruction at most twice the rounded-up logarithm more. |
| `EncoderDiffer.CeilLog2Exact` | scripts/aarch64_encoder_differential.py:609-610 | The logarithm in the bound is the least exponent reaching the batch size. |
| `EncoderDiffer.Differ.Batch` | scripts/aarch64_encoder_differential.py:552-612 | One finding per item. Where no line moves the next ones, the findings are those of testing each item alone, in order, if and only if no short line is compared inside a longer file, and then each status says what the two encodings at the item's own address are (Ok, for one, exactly when both are the decoded word) and shows their bytes. With k refused or short items the counter grows by at most 2 + 4·k·⌈log2 n⌉, by exactly 2 when k is zero. The error is raised exactly on unspaced addresses. |
| `EncoderDiffer.SingleVerdict` | scripts/aarch64_encoder_differential.py:561-607 | The status, bytes and error texts of one instruction tested alone, by what each assembler makes of its line. |
| `EncoderDiffer.MisencodingIsReported` | scripts/aarch64_encoder_differential.py:577-581 | When gas gives the decoded word back and lccc another one, that is a misencoding. |
| `EncoderDiffer.ComparedExactly` | scripts/aarch64_encoder_differential.py:561-587 | A compared file gives the lone verdicts if and only if no line in it is short. |
| `EncoderDiffer.ShortDiffers` | scripts/aarch64_encoder_differential.py:563-607 | Whatever the bytes, a short line is never judged in a comparison as it is alone. |
| `EncoderDiffer.WholeChunks` | scripts/aarch64_encoder_differential.py:614-623 | When accepted lines fill their words, every chunk size gives the lone verdicts. |
| `EncoderDiffer.SilentLineDiffers` | scripts/aarch64_encoder_differential.py:561-607 | A line that emits nothing: the batch compares padding, the lone file is refused. |
| `EncoderDiffer.Differ.Run` | scripts/aarch64_encoder_differential.py:614-623 | The same over all chunks of a corpus: the lone verdicts, with the same meaning of each status, if and only if each chunk gives them, with the cost summed. |
| `EncoderDiffer.Differ.CompareAll` | scripts/aarch64_encoder_differential.py:563-587 | Each instruction is judged on the slices at its own address: drift, misencoding or ok by how they compare with the decoded word. |
| `EncoderDiffer.SelectCorpus` | scripts/aarch64_encoder_differential.py:491-520 | A subsequence with distinct texts and at most the cap per mnemonic; nothing is passed over without cause; spacing is kept. |
| `EncoderDiffer.PickedSpaced` | scripts/aarch64_encoder_differential.py:491-520 | A selection from a spaced corpus can be pinned. |
| `BatchEncode.BatchEncode` | scripts/aarch64_operand_legality_matrix.py:1386-1472 | For any assembler process: a table comes back if and only if the instructions differ, exit status and diagnostics agree, only lines of the block are blamed, the second run succeeds and the byte count is right; then exactly the blamed lines are refused and the others get consecutive words. With an honest process only the byte count can be fatal. |
| `BatchEncode.BatchRefinesSingle` | scripts/aarch64_operand_legality_matrix.py:1374-1472 | The table agrees with single encoding on every instruction if and only if each accepted line is one word. |
| `BatchEncode.ByteCountIsNotEnough` | scripts/aarch64_operand_legality_matrix.py:1462-1468 | A file that passes the byte count and gets a wrong verdict. |
| `BatchEncode.Expand` | scripts/aarch64_operand_legality_matrix.py:1294-1319 | Keeps the first occurrence of each instruction in order, so the uniqueness batching needs always holds. |
| `SysregTable.EncodingInjective` | scripts/aarch64_sysreg_table.py:105-107 | Two registers share an encoding if and only if their fields agree on the bits kept; sixteen bits suffice. |
| `SysregTable.EncodingDecodes` | scripts/aarch64_sysreg_table.py:105-107 | Shifts and masks give legal field values back. |
| `SysregTable.BisectFailingLine` | scripts/aarch64_sysreg_table.py:433-453 | Nothing exactly when the first line alone sweeps, otherwise a line where a refused prefix begins; with one word per line only ever the first line. |
| `SysregTable.LaterRefusalIsNotFound` | scripts/aarch64_sysreg_table.py:433-453 | A later refused line after an accepted first one is not named. |
| `SysregTable.LaterRefusalHappens` | scripts/aarch64_sysreg_table.py:433-453 | A compiler for which that happens. |
| `SysregTable.RunDirection` | scripts/aarch64_sysreg_table.py:472-500 | One direction is silent if and only if the whole sweep assembles to one word per name and shows every name its field; with one word per line it reports a closed form of table and compiler; within 65 rounds. |
| `SysregTable.CompareWords` | scripts/aarch64_sysreg_table.py:483-491 | One problem per name whose slice differs from the table. |
| `SysregTable.SameMismatches` | scripts/aarch64_sysreg_table.py:402-430 | With one word per line the slices are the names' own words. |
| `SysregTable.RunLccc` | scripts/aarch64_sysreg_table.py:456-501 | No problems if every name reads (`mrs x0,name`) and writes (`msr name,x0`) as one word with the table's field in bits 5 to 20, and, when no line is more or less than a word, only then; the report is then the closed form of both directions. |
| `SysregTable.CleanExactly` | scripts/aarch64_sysreg_table.py:470-491 | The clean verdict of both directions in the compiler's own terms. |
| `SysregTable.VerdictsExact` | scripts/aarch64_sysreg_table.py:479-500 | Where every problem names a register, a name is reported as rejected exactly when it is, and as a mismatch exactly with the field it assembles to and the one wanted. |
| `SysregTable.CleanReport` | scripts/aarch64_sysreg_table.py:456-501 | A direction is silent exactly when it is clean. |
| `SysregTable.PerRegisterExactly` | scripts/aarch64_sysreg_table.py:460-469 | Every problem names a register if and only if the refused names are a prefix that the round limit covers. |
| `SysregText.RowRoundTrip` | scripts/aarch64_sysreg_table.py:97 | The row pattern reads back every rendered row. |
| `SysregText.RowReads` | scripts/aarch64_sysreg_table.py:97 | The pattern takes every row, with any blanks. |
| `SysregText.RowRead` | scripts/aarch64_sysreg_table.py:97 | And no other line. |
| `SysregText.HexDigitExactly` | scripts/aarch64_sysreg_table.py:97 | The digits it takes, and their values. |
| `SysregText.TableRoundTrip` | scripts/aarch64_sysreg_table.py:345-379 | The rendered file read back is the table, whatever prose surrounds the rows. |
| `AlignedAlloc.FitsExactly` | include/xmmintrin.h:306-309 | Aligned pointer, slot and payload lie inside the block if and only if the request does not wrap. |
| `AlignedAlloc.WrappingRequest` | include/xmmintrin.h:306 | A size for which eight bytes are asked for. |
| `AlignedAlloc.MallocReturns` | include/xmmintrin.h:296-312 | Null when the library says so or for no bytes at a large alignment, the library's pointer for alignments up to eight, otherwise the first multiple of the alignment with eight bytes below it. |
| `AlignedAlloc.LoadOfStore` | include/xmmintrin.h:310 | The stored back-pointer is read back byte by byte. |
| `AlignedAlloc.MallocKeeps` | include/xmmintrin.h:296-312 | A successful call adds one well-placed block and disturbs no other. |
| `AlignedAlloc.FreeKeeps` | include/xmmintrin.h:314-319 | Freeing passes on exactly the library's pointer for the block and keeps the rest. |
| `AlignedAlloc.PokeKeeps` | include/xmmintrin.h:296-319 | Clients writing their own payloads never touch a back-pointer. |
| `AlignedAlloc.RunsKeep` | include/xmmintrin.h:296-319 | The invariant holds after every interleaving of allocation, release, client writes and other users of the C library. |
| `AlignedAlloc.ClientsSeparate` | include/xmmintrin.h:296-319 | In every run pointers are aligned, and slots and payloads lie inside their blocks and apart from all others. |
| `AlignedAlloc.FreesWhatWasObtained` | include/xmmintrin.h:314-319 | In every run the pointer handed to the library is the live one it returned for that block. |
| `AlignedFree.PassedBackExactly` | include/xmmintrin.h:296-319 | For every pointer returned in any run, at any alignment: freeing it frees what the library returned for it in every continuation if and only if the alignment exceeds the pointer size. |
| `AlignedFree.SmallAlignmentFreesNull` | include/xmmintrin.h:300-301 | A first allocation at alignment 8, and the pointer that freeing it would pass on. |
| `AlignedFree.Continues` | include/xmmintrin.h:296-319 | A run and its continuation are one run. |
| `AlignedAlloc.Heap.MmMalloc` | include/xmmintrin.h:296-312 | The statements compute the specified state. |
| `AlignedAlloc.Heap.MmFree` | include/xmmintrin.h:314-319 | Likewise for any pointer, with the word passed on; for a held pointer it is the library's own and the invariant stays. |
| `ArchiveHistory.Archive` | scripts/archive_checkpoint_history.py:35-74 | With an injective digest, in every state of the disk each selected checkpoint is in its unchanged original or in the published archive, and nothing is removed whose content the archive does not hold, whatever the archive writer produced and whatever others do after publication; an existing archive is never overwritten, and one is published if and only if everything decompresses and the stored archive matches. The run succeeds if and only if one is published and no file to be removed has changed. |
| `ArchiveHistory.PassesExactly` | scripts/archive_checkpoint_history.py:58-64 | An archive passes the comparison if and only if it holds every checkpoint's patch under its name and besides them only the manifest. |
| `ArchiveHistory.QuietRemoval` | scripts/archive_checkpoint_history.py:66-71 | With nobody interfering every file is found and exactly the selected ones go. |
| `ArchiveHistory.RemoveOriginals` | scripts/archive_checkpoint_history.py:66-71 | The removal loop under interference, step by step; it completes if and only if every file is found with its recorded digest. |
| `ArchiveHistory.Describe` | scripts/archive_checkpoint_history.py:46-52 | The manifest describes every selected file, or decompression failed. |
| `ArchiveHistory.MatchingHolds` | scripts/archive_checkpoint_history.py:58-64 | An archive that passes the read-back comparison holds every checkpoint. |
| `ArchiveHistory.PatchNamesDiffer` | scripts/archive_checkpoint_history.py:49 | Different checkpoints have different member names, none of them the manifest's. |
| `ArchiveHistory.SelectedListing` | scripts/archive_checkpoint_history.py:38-41 | The selection is exactly the listed checkpoints numbered up to the limit. |

## Left out

- The rest of the compiler: front end, back ends, linker, and every pass not named above.
- Range-based divisions of `src/passes/div_by_const.rs` (`BoundedDivAnalysis`, the unsigned and remainder I64-promoted forms, the 16-bit forms, exact division): they reuse the sequences modelled here under facts about operand ranges.
- Placing copies on edges (trampolines, self-loop absorption, hoisting) in `src/ir/mem2reg/phi_eliminate.rs`; phi-web coalescing.
- PhiSink.FoldBlock: which values dominated blocks touch is an arbitrary function, so the dominance query is not modelled; instructions are those of `WordIr`, without memory access and calls.
- EncoderDiffer.Differ.Batch: where a line that is not one word is followed directly by the next instruction, the later lines assemble at other addresses, and only the number of findings is stated.
- EncoderDiffer.Differ.Run: the same.
- PhiPlan.PlanAcyclic: guards are arbitrary sets; when they cannot be met together with the precedences, only validity of the order is stated, not which order it is.
- PhiCopies.EmitMultiPhi: incoming operands are a map from predecessor to operand, so repeated entries for one predecessor are not distinguished.
- SHA-1 helpers of `include/shaintrin.h` are not modelled.
- AlignedAlloc.MallocKeeps: assumes the C library returns fresh blocks inside the address space.
- FloatRounding.EmulationExact: exponents are unbounded above, because no sum in the emulated range can overflow; exception flags are not modelled.
- Text models use ASCII white space; the wording and truncation of messages is not modelled.
- XML, JSON, regular expression, compression and subprocess libraries are represented by what they return; the mnemonic index and the cross-mnemonic alias table of the documentation checker are a list of candidates and a boolean per row.
- `batch_assemble`, `probe_both_directions`, `parse_table`, `write_table` and the fixed header of `render_table`: two-run batching again, and file formats without further logic.
- SysregText.TableRoundTrip: the row pattern is applied line by line, and the name order of the rendered rows is any listing of the table.
- ArchiveHistory.Archive: others change the directory only after publication and not between a comparison and the removal that follows it; before publication the lock is trusted. The session number in a file name is an arbitrary function of the name.
- Generated instruction tables and sweeps, lane-by-lane intrinsics, and intrinsics that only forward to a builtin.
