# Verified models of the configuration engine, the softfloat words, the MMU cache and the SPI flash

The repository is a MIPS32 system simulator with a copy of the Kconfig configuration language. This project models
four of its cores in Dafny and proves properties of them for all inputs and all runs.

* **The configuration engine** (`kconfig/`). Conditions are expressions over three values n < m < y with && as minimum,
  || as maximum and ! as reflection. `Expressions` gives their meaning, with comparisons as `expr_calc_value` makes
  them: textual, signed or unsigned. `ExprEquality` (matching and the submenu superset test), `ExprPairing` (what
  equality decides), `ExprDups` (removal of redundant operands), `ExprTransform` (normal form, the reductions of
  `menu_finalize`) and `ExprPrint` (printing and the grammar) are the rewriting passes. `SymbolDeps` is the cycle
  checker, `SymbolValues` the memoising evaluator of symbol values against the equations that define them, and
  `SymbolMeaning` what these equations give in terms of prompts, defaults, selections and implications. `MenuTree` says
  which tree `menu_finalize` makes, `Menu` is the relinking that makes it and the walk over it. `ConfString` is the
  escaping of string values.
* **Multiword arithmetic** (`include/softfloat/softfloat-macros.h`): `WideArithmetic`, `WordBits`, `WideDivision`, over
  `Modular` and `Bitwise`. `Basics` holds what all share.
* **Address translation** (`src/cpu/`): `Translation` is the machine without its cache, `MmuCache` the machine with it,
  `TlbUse` what software sees of translation, `Unaligned` the instructions swl, swr, lwl and lwr on top.
* **SPI controller and flash** (`src/dev/`): `FlashChip` and `SpiModel` are the steps as functions, `FlashRuns` and
  `SpiModel` what every run keeps, `FlashAddressing` and `FlashCommands` what single
  commands do, `FlashDevice` and `SpiDevice` the devices that change in place, each operation
  proved to be the step.

Where the source updates state in place the model is a class whose methods are proved against functions of the old
state: `Simplifier` (the counter of joins), `Checker` (flags and stack of the cycle checker), `Solver` (VALID flags and
computed fields), `Menus` (list, next and parent links), `Machine` (TLB, CP0, memory and the cache array), `Core`
(registers), `Device` (flash), `Fifo` (ring over a fixed array) and `Controller`.

Conventions. A menu entry or a symbol is an index; -1 is the null link. Words are integers with their bound, and
every wrap-around is written out. A failed assertion or panic of the simulator is the result `None`. Memory is a map
from physical addresses to bytes. What devices other than memory answer and what the random register holds are
arbitrary. The outcome of the dependency tests in `menu_finalize` is a parameter, any function of the symbol and the
entry tested (`Rules`).

Where the code departs from what is said about it, the model follows the code:

* The comment on `expr_eq` promises equality when every operand of one side equals some operand of the other. The code
  pairs operands off one to one: for expressions without y and n operands this is exactly what it decides
  (`ExprEqPairing`), and equality is an equivalence there. `RepeatedOperandsNotEqual` has two expressions of the same
  value that it tells apart. With y or n operands it is not even transitive (`NotTransitive`).
* The rule `(a='b') && (a!='c') -> a='b'` compares the constants as symbols. A literal such as "2" compares equal to y,
  so the rule is wrong for `A="y" && A!="2"` (`NumericConstantJoinedWrongly`). `expr_join_and` keeps the value exactly
  when it is not given such a pair, in either order (`JoinAndExact`). The predicate `Clean` excludes quoted literals of
  this kind from equality tests where whole passes are concerned.
* The submenu test reads "not n" by turning `!A` into `A=n`, which is not the same while A is m, and `FOO` into `FOO!=n`,
  which is not the same if FOO is undefined or not bool or tristate. The test may then put an entry below a symbol that
  is invisible while the entry is not (`SupersetMissesNegatedMod`, `SupersetMissesUndefined`). It is sound whenever no
  negated symbol is m and all operands are readable (`SupersetTest`); which symbols are readable is exact
  (`ReadableExact`).
* `expr_trans_bool` keeps "not n" on expressions with negations at symbols only (`TransBoolKeepsNo`), and does not
  with others: for `!(A!=n)` it does exactly when A is not m (`TransBoolBelowNegation`).
* Order comparisons with y, m or n compare the letters, so that m < n < y (`LettersCompare`), while tristate symbols and
  numbers compare by n < m < y (`NumbersCompare`).
* `sym_set_tristate_value` with the value that a symbol already has stores it without a check and without clearing the
  VALID flags. The symbol may then come out different on the next evaluation (`SameValueMayNotStay`);
  `SetTristateValue`, `UserChange` and `StaysExact` say exactly when it does not.
* Address and dummy bytes of a flash read are collected in a buffer of 16 bytes. A part configured for more dummy bytes
  than fit never reads (`TooManyDummies`); every read whose bytes fit answers the storage (`ReadAnywhere`).
* `tlbr` overwrites the current ASID without clearing the translation cache, and a load may then read another address
  space's memory (`TlbrLeavesStaleLine`). Until the next step that clears the cache, runs are restricted to pages that
  every ASID translates alike; `AsidChangeExact`, `AsidChangeOwnEntry` and `AsidChangeNoEntry` say which cached lines
  survive the change.

## Model

| member | source | states |
|---|---|---|
| Expressions.CompareConstant | kconfig/expr.c:992-1096 | a bool or tristate symbol, or one of y, m and n, compares equal to a constant exactly when the constant denotes its value |
| Expressions.NumbersCompare | kconfig/expr.c:992-1096 | every relation between two operands that denote numbers is that of the numbers, bool and tristate symbols as 0, 1, 2 |
| Expressions.LettersCompare | kconfig/expr.c:992-1096 | every relation between a bool or tristate symbol and one of y, m and n is that of the letters, m before n before y |
| ExprEquality.EliminateYNValue | kconfig/expr.c:310-391 | eliminating y and n operands keeps the value under every assignment |
| ExprEquality.EliminateYNShrinks | kconfig/expr.c:310-391 | it makes an expression with such an operand strictly smaller and no expression larger |
| ExprEquality.EqPassSound | kconfig/expr.c:151-214 | a matching pass takes the same value off both sides: each side is its remainder joined with one common value |
| ExprEquality.ExprEqSound | kconfig/expr.c:253-297 | expressions that expr_eq calls equal have the same value under every assignment; the mutual recursion with the pass terminates |
| ExprEquality.ExprEqReflexive | kconfig/expr.c:253-297 | every expression is equal to itself |
| ExprEquality.PassIsMatchAll | kconfig/expr.c:151-214 | the recursion over two trees is the double loop over their operand lists, in order, each operand with what earlier rounds left of the other list |
| ExprEquality.SupersetSound | kconfig/expr.c:222-244 | when elimination leaves y of the second expression, the first is at most the second under every assignment |
| ExprEquality.SupersetComplete | kconfig/expr.c:222-244 | eliminating a conjunction that extends the base against the base leaves y of the base, unless the base has an operand n |
| ExprEquality.RepeatedOperandsNotEqual | kconfig/expr.c:247-297 | two expressions that the comment calls equal, and that have the same value, are told apart |
| ExprPairing.ExprEqPairing | kconfig/expr.c:247-297 | two conjunctions or two disjunctions without y and n are equal if and only if their operands can be paired off one to one by equality |
| ExprPairing.ExprEqSymmetric | kconfig/expr.c:253-297 | on expressions without y and n equality is symmetric |
| ExprPairing.ExprEqTransitive | kconfig/expr.c:253-297 | on expressions without y and n equality is transitive |
| ExprPairing.NotTransitive | kconfig/expr.c:253-297 | three expressions with operands n for which it is not |
| ExprDups.JoinOrSound | kconfig/expr.c:425-487 | whatever expr_join_or returns has the value of the disjunction |
| ExprDups.JoinExact | kconfig/expr.c:425-588 | two operands are joined if and only if they are equal by expr_eq or, in either order, redundant: two tests of one tristate symbol, a symbol beside its test or its negation, as listed in `RedundantInOrder` |
| ExprDups.JoinAndSound | kconfig/expr.c:489-588 | whatever expr_join_and returns has the value of the conjunction, unless the pair is misjoined |
| ExprDups.JoinAndExact | kconfig/expr.c:489-588 | the result has the value of the conjunction under every assignment if and only if the pair is not a test `a='b'` beside `a!='c'`, in either order, for different constants that denote the same value |
| ExprDups.NumericConstantJoinedWrongly | kconfig/expr.c:534-547 | a concrete pair for which the rule changes the value |
| ExprDups.Simplifier.Meet | kconfig/expr.c:615-640 | one meeting of two operands, with the pass over the levels below the first, keeps the value of the list and joins the two exactly when they are equal or redundant, counting every join |
| ExprDups.Simplifier.EliminateDups1 | kconfig/expr.c:590-650 | a pass over all pairs keeps the value, leaves a y or n to eliminate if anything was joined, and joins something if and only if some pair of operands at some level is equal or redundant |
| ExprDups.Simplifier.EliminateDups | kconfig/expr.c:658-680 | the loop terminates, keeps the value under every assignment, leaves no two operands of one level that are equal or redundant, leaves an expression without such a pair as it is, never grows the expression and restores trans_count |
| ExprTransform.Transform | kconfig/expr.c:688-843 | the rewriting terminates although De Morgan steps grow the tree; the result is in negation normal form with as many junctions as before |
| ExprTransform.TransformValue | kconfig/expr.c:688-843 | the tristate value is kept under every assignment |
| ExprTransform.TransformFixes | kconfig/expr.c:688-843 | expressions in normal form are left as they are, so transforming twice is transforming once |
| ExprTransform.TransformNot | kconfig/expr.c:688-843 | transforming a negation gives the negation normal form with every junction, test and symbol flipped |
| ExprTransform.RewriteMValue | kconfig/menu.c:81-104 | replacing m by m && MODULES gives the value of the expression with that meaning of m |
| ExprTransform.TransBoolKeepsNo | kconfig/expr.c:396-420 | with negations at symbols only, whether the value is n does not change |
| ExprTransform.TransBoolRemoves | kconfig/expr.c:396-420 | no test `A!=n` of a tristate symbol is left at any level, and an expression is left as it is if and only if it has none |
| ExprTransform.TransBoolBelowNegation | kconfig/expr.c:396-420 | for `!(A!=n)` whether the value is n is kept if and only if A is not m |
| ExprTransform.FinalizeCondition | kconfig/menu.c:386-392 | the propagated condition of a property has, as far as the symbol's type can tell, the value of the parent's dependency and the property's own condition together |
| ExprTransform.TransCompareExact | kconfig/expr.c:916-979 | comparison with y or n inserted into an expression with readable operands tests its two-valued reading exactly, m read as n or y |
| ExprTransform.ReadableExact | kconfig/expr.c:966-979 | an operand is read right under every assignment if and only if it is bool or tristate, one of y, m and n, or an undefined symbol whose name compares as n does |
| ExprTransform.RoundedUp | kconfig/expr.c:916-979 | that reading implies "not n", and equals it when no negated symbol is m |
| ExprTransform.RoundedUpNegation | kconfig/expr.c:916-979 | for a negated symbol the reading equals "not n" if and only if the symbol is not m |
| ExprTransform.DependsSymbolSound | kconfig/expr.c:873-900 | an expression with an absolute dependency on a symbol is n while the symbol is n |
| ExprTransform.Reading | kconfig/menu.c:442-444 | the condition prepared for the submenu test is the two-valued reading of the prompt condition, and is left as it is when there is nothing to join |
| ExprTransform.ReadingOfBoth | kconfig/menu.c:442-465 | a conjunction is read operand by operand |
| ExprTransform.SupersetTest | kconfig/menu.c:442-477 | for conditions with readable operands and no literal in disguise, an accepted entry is not visible while the parent's prompt is not: for the two-valued readings always, for the values when no negated symbol of the entry's condition is m; a condition that extends the parent's by a conjunct is accepted if its reading has nothing to join and the parent's has no operand n |
| ExprTransform.SupersetMissesNegatedMod | kconfig/menu.c:442-477 | the test itself accepts a concrete condition that is m while the base is n |
| ExprTransform.SupersetMissesUndefined | kconfig/menu.c:442-477 | the test itself accepts a concrete condition that is y while the base, an undefined symbol, is n |
| ExprPrint.PrintParse | kconfig/expr.c:1098-1222 | reading back the printed tokens with the grammar's precedences gives the expression re-associated to the left, which has the same value |
| ExprPrint.ParenthesesNeeded | kconfig/expr.c:1098-1222 | there are exactly as many parentheses as operands that the precedences would misread: an or-expression below &&, and any junction below ! |
| ExprPrint.LeftAssocLeaves | kconfig/parser.y:87-91 | re-association keeps the operands of every chain, in order |
| ExprPrint.OrRoundTrip | kconfig/parser.y:450-461 | the tokens of any expression, followed by anything that cannot continue it, are consumed exactly |
| SymbolDeps.TopologicalAcyclic | kconfig/symbol.c:1125-1206 | a table whose symbols can be listed with dependencies first has no dependency cycle |
| SymbolDeps.DepsExact | kconfig/symbol.c:1160-1206 | the graph has an edge to exactly the symbols in the expressions that decide about a symbol: its dependencies, reverse dependencies and implications, the conditions of its prompts and defaults and the values of its defaults, but not its select and imply properties |
| SymbolDeps.Checker.CheckExprDeps | kconfig/symbol.c:1125-1157 | the search below an expression reports a symbol exactly when a cycle is met, and then there is one |
| SymbolDeps.Checker.CheckSymDeps | kconfig/symbol.c:1160-1206 | the same for all the expressions of a symbol: reverse dependency, implication, prompts and defaults |
| SymbolDeps.Checker.CheckDeps | kconfig/symbol.c:1245-1274 | a symbol is either being checked (a cycle), checked before, or searched; without a report everything it depends on is in the list of finished symbols |
| SymbolDeps.Checker.CheckAll | kconfig/parser.y:517-520 | the error count is zero if and only if the dependency graph is acyclic, in spite of the early exits that leave flags set; then the finished symbols are in dependency order |
| SymbolValues.SolutionFacts | kconfig/symbol.c:378-460 | in a solution of the equations boolean symbols are never m, every symbol is at least what selects it, and nothing is m that is implied as y |
| SymbolMeaning.UserDecides | kconfig/symbol.c:370-406 | a visible symbol with a user value has that value, capped by its largest prompt condition and raised to what it is selected to, with m as y if it is two-valued or implied as y |
| SymbolMeaning.DefaultDecides | kconfig/symbol.c:370-406 | an invisible symbol, or one without user value, has the minimum of value and condition of the first default whose condition is not n, raised to what it is implied as and selected to; an implication counts only while the dependencies are not n |
| SymbolMeaning.NoDefaultDecides | kconfig/symbol.c:370-406 | without such a default it has what it is implied as and selected to, so n if neither |
| SymbolMeaning.PlainDefault | kconfig/symbol.c:387-392 | not asked for, not selected and not implied: the first default capped by its condition, with m as y if the symbol is two-valued |
| SymbolMeaning.FieldsMean | kconfig/symbol.c:171-232 | the stored visibility is the largest prompt condition; the stored reverse dependency and implication are what the symbol is selected to and implied as |
| SymbolValues.SolveSolves | kconfig/symbol.c:171-460 | computing in dependency order gives a solution |
| SymbolValues.SolutionUnique | kconfig/symbol.c:171-460 | on an acyclic table there is only one |
| SymbolValues.SolutionsAgree | kconfig/symbol.c:171-460 | solutions for different user values agree on everything before the first symbol whose user value differs |
| SymbolValues.Solver.CalcExpr | kconfig/expr.c:1024-1096 | evaluation that computes symbols on the way gives the value in the solution |
| SymbolValues.Solver.CalcVisibility | kconfig/symbol.c:171-232 | the condition fields of a symbol are those of its equations |
| SymbolValues.Solver.CalcValue | kconfig/symbol.c:319-460 | setting VALID before the value is known does no harm: only lower symbols are asked for, all fields come out as in the solution, whose values `SymbolMeaning` gives |
| SymbolValues.Solver.Value | kconfig/symbol.c:319-460 | whatever was asked before, in whatever order, the answer is the value in the unique solution |
| SymbolValues.Solver.ClearAllValid | kconfig/symbol.c:462-471 | the flags are cleared, MODULES is computed anew, and all valid fields are right |
| SymbolValues.Solver.SetTristateValue | kconfig/symbol.c:494-528 | success exactly for the present value or one in range; a changed value that is accepted is the symbol's value in the new solution; the present value stays exactly when the symbol's own equation still gives it |
| SymbolValues.SetTakesEffect | kconfig/symbol.c:473-528 | a value in range is what the symbol gets, since its conditions do not depend on its own user value |
| SymbolValues.RangeExact | kconfig/symbol.c:473-492 | a value is in range if and only if the symbol is visible above what it is selected to, the value is at most the visibility, and storing it makes it the value in the new solution |
| SymbolValues.UserChange | kconfig/symbol.c:494-528 | storing a user value keeps a solution if and only if the symbol is invisible or its equation still gives its value |
| SymbolValues.StaysExact | kconfig/symbol.c:378-406 | that is if and only if the prompt is invisible or admits the value, or the symbol is selected to it, or it is implied as y |
| SymbolValues.SameValueMayNotStay | kconfig/symbol.c:494-528 | a concrete symbol whose value changes when its present value is stored |
| Menu.Menus.Finalize | kconfig/menu.c:417-570 | an entry gets below it the gathered tree with entries without a prompt text dissolved, and keeps as siblings what gathering leaves; depth-first order kept, every link right, links elsewhere unchanged; the recursion terminates |
| Menu.Menus.FinalizeRoot | kconfig/menu.c:417-570 | after finalizing the root the parent link of every entry is its nearest ancestor with a prompt text in the gathered tree, or the root |
| Menu.ParentHeld | kconfig/menu.c:290-570 | the parent links of a tree held in the links are the parents in the tree |
| MenuTree.GatheredOrder | kconfig/menu.c:417-488 | gathering keeps depth-first order and leaves a suffix of the siblings as it is |
| MenuTree.GatheredMaximal | kconfig/menu.c:417-488 | a symbol that had no children has taken exactly the longest run of following entries that pass its test, each gathered first; the entry after them does not pass; entries with children and entries that are no symbols take none |
| MenuTree.FlatteningKeeps | kconfig/menu.c:561-570 | in a pass over siblings each one with a prompt text stays with exactly the children it had, and each other one stays without children |
| MenuTree.FlatteningDissolves | kconfig/menu.c:417-570 | the pass over siblings, after the same below each, dissolves all entries without a prompt text at all levels |
| MenuTree.DissolvedFlat | kconfig/menu.c:561-570 | then only entries with a prompt text have children, and depth-first order is kept |
| MenuTree.DissolvedParent | kconfig/menu.c:561-570 | the parent of every entry is then its nearest ancestor with a prompt text |
| MenuTree.SubmenuKept | kconfig/menu.c:417-570 | an entry with a prompt text and children has in the end exactly the same entries below it, in the same order |
| Menu.Menus.FinalizeChildren | kconfig/menu.c:417-418 | finalizing the children in turn, while each may adopt later ones, gives the gathered list with everything below its entries dissolved, in the old order |
| Menu.Menus.Adopt | kconfig/menu.c:446-488 | automatic submenu creation moves below the symbol exactly the later siblings up to the first that does not pass the test, each finalized before, and leaves the others |
| Menu.Menus.FlattenChildren | kconfig/menu.c:492-570 | flattening keeps the order; every sibling with a prompt text stays with exactly its children, every other one stays without, its children behind it |
| Menu.Menus.FlattenOne | kconfig/menu.c:561-570 | the children of one entry are spliced behind it, below its parent |
| Menu.Menus.Reparent | kconfig/menu.c:562-566 | all of a list of siblings get the new parent, and the last of them is found |
| Menu.HoldsUnique | kconfig/menu.c:290-570 | the links determine the tree |
| Menu.Menus.Walk | kconfig/confdata.c:887-931 | the walk along list, next and parent links terminates and enters and leaves the entries in nested order |
| Menu.Menus.Climb | kconfig/confdata.c:918-930 | going up ends at the next entry to visit, leaving each finished entry once, or at the end |
| Menu.WalkedPreorder | kconfig/confdata.c:887-931 | a walk in nested order enters each entry once, in depth-first order |
| Menu.Menus.FinalizeAndWalk | kconfig/confdata.c:887-931 | after finalizing from the root the walk visits every entry exactly once, in the order of the files before, nested as the gathered and dissolved tree is |
| ConfString.BufferSize | kconfig/symbol.c:877-891 | the first pass counts exactly the bytes of the escaped string, its quotes and the terminator |
| ConfString.EscapeStringValue | kconfig/symbol.c:870-911 | the second pass fills that buffer exactly, without overrun, with the quoted escaped string |
| ConfString.SetStringValue | kconfig/confdata.c:261-276 | the loop that edits the line in place, dropping backslashes with memmove, yields what a left-to-right reading of the text gives, also when the text is unquoted, unterminated or ends in a backslash |
| ConfString.UnescapePieces | kconfig/confdata.c:261-276 | plain characters and escaped characters in front of any text are read as those characters in front of what the text is read as |
| ConfString.ReadExactly | kconfig/confdata.c:261-276 | a text is read as a string if and only if it is that string spelled in plain and escaped characters, a closing quote and anything |
| ConfString.RoundTrip | kconfig/confdata.c:261-276 | reading what was escaped gives the original string, whatever follows the closing quote |
| ConfString.WriteThenRead | kconfig/confdata.c:261-276 | the two routines in a row, on buffers, give back every string without NUL |
| WideArithmetic.Add128 | include/softfloat/softfloat-macros.h:353-363 | exact modulo 2^128 |
| WideArithmetic.Sub128 | include/softfloat/softfloat-macros.h:411-420 | exact modulo 2^128 |
| WideArithmetic.Add192 | include/softfloat/softfloat-macros.h:373-401 | exact modulo 2^192, with carries found by comparison |
| WideArithmetic.Sub192 | include/softfloat/softfloat-macros.h:429-457 | exact modulo 2^192, with borrows found by comparison |
| WideArithmetic.Mul64To128 | include/softfloat/softfloat-macros.h:465-487 | the exact product of two words |
| WideArithmetic.Mul128By64To192 | include/softfloat/softfloat-macros.h:495-515 | the exact product |
| WideArithmetic.Mul128To256 | include/softfloat/softfloat-macros.h:523-551 | the exact 256-bit product |
| WordBits.Shift128JamExact | include/softfloat/softfloat-macros.h:190-220 | for every count the two words are the floor shift of the 128-bit value, with the lowest bit set if anything was lost |
| WordBits.JamCompose | include/softfloat/softfloat-macros.h:190-220 | two sticky shifts are one by the sum of the counts |
| WordBits.Shift128Compose | include/softfloat/softfloat-macros.h:190-220 | so the routine may be applied in steps, word for word |
| WideDivision.EstimateDiv128To64 | include/softfloat/softfloat-macros.h:553-582 | for a divisor with the top bit set the result is between the truncated quotient and two above it, or all ones when the quotient does not fit; the correction loop runs at most twice |
| WideDivision.SignTest | include/softfloat/softfloat-macros.h:573-577 | the sign of the wrapped remainder is the sign of the true one |
| WideDivision.MiddleWord | include/softfloat/softfloat-macros.h:578-580 | shifting the high remainder word left by 32 loses nothing |
| WideDivision.SecondError | include/softfloat/softfloat-macros.h:578-580 | the second digit is at most two above the true one |
| MmuCache.LoadHit | src/cpu/cpu.c:106-118 | a load that hits a right line gives what the slow path would give |
| MmuCache.StoreHit | src/cpu/cpu.c:127-135 | a store that hits a right line that can be written does not fault on the slow path and has the same effect |
| MmuCache.Machine.PageTranslate | src/cpu/mmu.c:86-137 | the loop over the TLB finds the first matching entry, or the fault it causes |
| TlbUse.TlbwiTakesEffect | src/cpu/mmu.c:48-137 | after tlbwi with 4 KB pages, if no entry before it matches, the even page of EntryHi is reached at the frame of EntryLo0 and the odd page at that of EntryLo1: loads if valid, stores if valid and dirty, otherwise the fault with the page in BadVAddr and EntryHi |
| TlbUse.TlbwiThenTlbr | src/cpu/mmu.c:30-72 | tlbwi and then tlbr give back page mask, ASID, both EntryLo and the page, but for the bits under the page mask and the global bit, which is set if both were |
| TlbUse.RefillAndRetry | src/cpu/exec/system.h:23-85 | a load of a page that no entry matches faults so that setting EntryLo, tlbwr and eret are enough: afterwards the page is reached as EntryLo says and memory is unchanged |
| TlbUse.ClearedBits | src/cpu/mmu.c:30-72 | masking with the complement of a page mask clears its bits and no others |
| MmuCache.Machine.ProtAddr | include/cpu/memory.h:62-85 | segment decoding: direct segments, mapped segments, the invalid one |
| TlbUse.DirectSegments | include/cpu/memory.h:62-85 | a load at a virtual address in one of the two direct segments reads memory at its low 29 bits, in the top segment it stops the simulator, and with ERL set the low addresses are direct too |
| MmuCache.Machine.ClearMmuCache | src/cpu/mmu-cache.h:20-25 | every line is empty, so the cache agrees with any translation |
| MmuCache.Machine.UpdateMmuCache | src/cpu/mmu-cache.h:35-48 | filling a line keeps the agreement |
| MmuCache.Machine.VaddrRead | src/cpu/cpu.c:106-125 | hit or miss, data and state are those of the machine without a cache, and the cache agrees afterwards |
| MmuCache.Machine.VaddrWrite | src/cpu/cpu.c:127-142 | the same for stores |
| MmuCache.Machine.Mtc0ToStatus | src/cpu/exec/system.h:114-132 | clearing only when ERL changes is enough |
| MmuCache.Machine.TlbPresent | src/cpu/mmu.c:13-28 | the probe finds the first entry matching EntryHi |
| TlbUse.TlbpFinds | src/cpu/mmu.c:13-28 | tlbp gives the least index of a matching entry and clears the miss bit, or sets the miss bit when there is none |
| MmuCache.Machine.System | src/cpu/exec/system.h:6-33 | every TLB and CP0 instruction, exception and eret does the step of the machine without a cache and keeps the agreement: for all pages, or for steady ones when tlbr has changed the ASID |
| MmuCache.Machine.Execute | src/cpu/cpu.c:106-142 | over every run of loads, stores, TLB instructions, CP0 moves, exceptions and returns, the cached machine yields the data of the machine without a cache and ends in the same state, memory included; after a tlbr that changes the ASID, until the cache is cleared, the accesses are to steady pages |
| MmuCache.SteadyRight | src/cpu/exec/system.h:8-12 | a line for a page outside the TLB, or with global entries only, stays right when the ASID changes |
| MmuCache.AsidChangeExact | src/cpu/exec/system.h:8-12 | if at most one entry matches under the old or the new ASID, a cached line survives the change without a clear if and only if that entry is global or the ASID is the same |
| MmuCache.AsidChangeOwnEntry | src/cpu/exec/system.h:8-12 | if the new ASID has an entry, the line survives if and only if that entry's half is valid, leads to the same frame and is dirty if the line can be written |
| MmuCache.AsidChangeNoEntry | src/cpu/exec/system.h:8-12 | if it has none, the line does not survive |
| MmuCache.TlbrLeavesStaleLine | src/cpu/exec/system.h:8-12 | two address spaces map page 0 to different frames: after tlbr the line still leads to the first one's frame where translation gives the second one's |
| Unaligned.StoreUnaligned | src/cpu/exec/memory.h:48-66 | swl at A+3 and swr at A write exactly the four little-endian bytes at A to A+3, across words and pages, and nothing else |
| Unaligned.LoadUnaligned | src/cpu/exec/memory.h:67-94 | lwl at A+3 and lwr at A load the word in the four bytes, whatever the register held, from pages that can be read at least |
| Unaligned.StoreThenLoad | src/cpu/exec/memory.h:48-94 | a stored register is restored into a register that held anything |
| Unaligned.MergeLeftValue | src/cpu/exec/memory.h:68-82 | lwl replaces the high bytes of the register and keeps the low ones |
| Unaligned.MergeRightValue | src/cpu/exec/memory.h:84-94 | lwr replaces the low bytes and keeps the high ones |
| Unaligned.Core.ExecSwl | src/cpu/exec/memory.h:48-57 | the handler on the cached machine, with its own faulting address, is the step on the machine without a cache |
| Unaligned.Core.ExecSwr | src/cpu/exec/memory.h:59-65 | the same for swr |
| Unaligned.Core.ExecLwl | src/cpu/exec/memory.h:67-82 | the same for lwl; a fault leaves the register alone |
| Unaligned.Core.ExecLwr | src/cpu/exec/memory.h:84-94 | the same for lwr |
| FlashChip.AlignedEraseFits | src/dev/flash.c:517-563 | an erase at a multiple of its size stays inside an array that is a multiple of it too |
| FlashRuns.TransferKeeps | src/dev/flash.c:1090-1156 | every byte sent keeps storage and backing file equal outside the dirty page |
| FlashRuns.SelectSyncs | src/dev/flash.c:1073-1088 | selecting the chip leaves them equal everywhere and the chip idle |
| FlashRuns.RunKeeps | src/dev/flash.c:1073-1156 | both over every run of bytes and selects whose erases stay inside the array |
| Bitwise.MaskIsRemainder | src/dev/flash.c:629-629 | masking an address with the size less one is the remainder by the size, for a power of two |
| FlashRuns.ReadCommand | src/dev/flash.c:1090-1156 | an idle chip answers a read command with four zero bytes and then storage[(addr+i) mod size] |
| FlashRuns.ProgramCommand | src/dev/flash.c:573-596 | programming an erased stretch stores the bytes sent there and changes nothing else |
| FlashRuns.ProgramThenRead | src/dev/flash.c:1073-1156 | program, select and read give back the bytes, which are by then in the backing file |
| FlashAddressing.ReadAnywhere | src/dev/flash.c:598-712 | every read command in every address mode: after command, two, three or four address bytes and the dummy bytes, all answered with zero, the storage is answered from the place that the bytes denote, most significant first and three of them below the extended address, modulo the size |
| FlashAddressing.TooManyDummies | src/dev/flash.c:1112-1121 | when address and dummy bytes exceed the buffer of 16 bytes no read takes place: the chip gives up on the byte that does not fit and takes the next one as a command |
| FlashAddressing.ProgramAnywhere | src/dev/flash.c:573-712 | every program command in every address mode stores the bytes sent in an erased stretch from that place on and changes nothing else |
| FlashAddressing.EraseAnywhere | src/dev/flash.c:517-563 | an erase command with its address clears to 0xff exactly 4 KB, 32 KB or a sector from that place on if writing is enabled, and nothing otherwise |
| FlashAddressing.ModeThenRead | src/dev/flash.c:985-990 | after entering four-byte mode a plain read takes four address bytes, after leaving it three below the extended address |
| FlashAddressing.ExtendedThenRead | src/dev/flash.c:999-1005 | write enable and a write to the extended address register: a three-byte read is then above that register |
| FlashCommands.BulkErase | src/dev/flash.c:973-981 | a bulk erase clears every byte if writing is enabled, and none otherwise |
| FlashCommands.EnableThenErase | src/dev/flash.c:929-930 | write enable and then an erase command clear the bytes, whatever was enabled before |
| FlashCommands.ProgramByte | src/dev/flash.c:573-596 | programming a byte clears the bits that are zero in the byte sent and keeps the others, an EEPROM takes the byte, and no other byte changes |
| FlashCommands.StatusRead | src/dev/flash.c:932-938 | bit 1 of the status byte is set exactly when writing is enabled |
| FlashCommands.EnableThenStatus | src/dev/flash.c:929-938 | a status read reports what the last write enable or disable did |
| FlashCommands.Identify | src/dev/flash.c:954-971 | the identification command answers the bytes of the part, in order |
| FlashCommands.ResetPair | src/dev/flash.c:714-773 | reset enable and reset: storage kept, writing disabled, three-byte addresses without extension, except that Numonyx chips take address mode, extension and dummy bytes from their non-volatile configuration |
| FlashCommands.ResetNeedsEnable | src/dev/flash.c:865-871 | a reset with any other command before it does nothing |
| FlashDevice.Device.Erase | src/dev/flash.c:517-563 | clears the area in storage and file, or does nothing while writing is disabled |
| FlashDevice.Device.SyncDirtyPage | src/dev/flash.c:565-571 | writes the dirty page to the file unless it is the new one |
| FlashDevice.Device.WriteByte | src/dev/flash.c:573-596 | programs one byte and moves the dirty page |
| FlashDevice.Device.CollectByte | src/dev/flash.c:619-712 | takes an address or register byte and completes the command with the last one |
| FlashDevice.Device.Transfer8 | src/dev/flash.c:1090-1156 | the byte step in place is the step of the model |
| FlashDevice.Device.Cs | src/dev/flash.c:1073-1088 | the select in place is the step of the model |
| SpiModel.AccessesKeep | src/dev/xlnx-spi.c:132-206 | over every sequence of register accesses, whatever the chip does, the status describes the two queues exactly, as fields and as the word that a read of the status register gives, and nothing waits to be sent while the master is enabled |
| SpiModel.AfterReset | src/dev/xlnx-spi.c:88-98 | the same from a reset in any state |
| SpiModel.ConsistentTold | src/dev/xlnx-spi.c:132-155 | bits 0 to 3 of the word read from the status register are: receive queue empty, full, transmit queue empty, full; bit 5 is slave mode |
| SpiModel.StatusAfterReset | src/dev/xlnx-spi.c:88-206 | the same after a reset in any state and any accesses, with bit 5 set throughout |
| SpiModel.ResetRegisters | src/dev/xlnx-spi.c:88-98 | directly after a reset the guest reads 0x25 as status, 0x180 as control, all ones as slave select and zero elsewhere |
| SpiModel.PlainRegister | src/dev/xlnx-spi.c:132-206 | a register without a function of its own reads back what was written |
| SpiModel.FlushKeeps | src/dev/xlnx-spi.c:105-130 | the flush loop empties the transmit queue and leaves all four bits right |
| SpiModel.InterruptLine | src/dev/xlnx-spi.c:69-86 | the interrupt line is raised exactly when interrupts are enabled globally and some enabled one is pending, recorded or demanded by the receive queue |
| SpiModel.InterruptToggle | src/dev/xlnx-spi.c:177-180 | ones written to the interrupt status register toggle those bits, and what the receive queue demands comes back at once |
| SpiModel.SendOne | src/dev/xlnx-spi.c:160-168 | a byte written to an enabled controller is sent at once and the answer queued |
| SpiModel.SendWhenFull | src/dev/xlnx-spi.c:105-130 | with the receive queue full a byte is still sent, the answer is dropped and the overrun interrupt is recorded |
| SpiModel.TransactionAnswers | src/dev/xlnx-spi.c:105-206 | with room in the receive queue, what is read back is what was queued before and then the chip's answers, in order |
| SpiModel.ReadThroughController | src/dev/xlnx-spi.c:105-206 | a read command over the controller gives the guest, after what was queued before, four zero bytes and then storage[(addr+i) mod size] |
| SpiModel.WriteGood | src/dev/xlnx-spi.c:157-206 | every register write in range keeps storage and backing file equal outside the dirty page; a reset or a slave select write makes them equal |
| SpiDevice.Fifo.Push | include/utils/fifo.h:25-32 | appends to the contents, or drops the byte when full, over a ring in an array |
| SpiDevice.Fifo.Pop | include/utils/fifo.h:34-42 | takes the first byte of the contents; an empty queue stays empty |
| SpiDevice.Fifo.Reset | include/utils/fifo.h:16-19 | empties the queue |
| SpiDevice.Controller.FlushTxFifo | src/dev/xlnx-spi.c:105-130 | the loop over the rings is the flush of the model |
| SpiDevice.Controller.DoReset | src/dev/xlnx-spi.c:88-98 | the reset is that of the model |
| SpiDevice.Controller.UpdateIrqLine | src/dev/xlnx-spi.c:69-86 | pending bits from the receive queue, and the interrupt line |
| SpiDevice.Controller.ReadRegister | src/dev/xlnx-spi.c:132-155 | every register read is the step of the model, and the status register tells the state of both queues |
| SpiDevice.Controller.WriteRegister | src/dev/xlnx-spi.c:157-206 | every register write is the step of the model |

## Left out

- Expression nodes are values: reuse and freeing of nodes in place, and aliasing of shared subtrees, are not modelled; a pass of `expr_eliminate_dups1` works on a list of operand slots, which is what the aliased call amounts to.
- E_LIST and E_RANGE nodes, and `expr_eliminate_dups` on them.
- Choices (`sym_calc_choice`, `sym_check_choice_deps`), range clamping, and int, hex and string symbols in the solver: their values enter as given; the value of MODULES that decides whether tristate symbols act as booleans is fixed.
- The flags SYMBOL_WRITE, SYMBOL_CHANGED and the warnings of the configuration tools.
- `expr_trans_compare` with m, for which the code promises nothing.
- ExprDups.Simplifier.EliminateDups: the value is kept for expressions without quoted literals in disguise in equality tests; the exact condition for one join is `JoinAndExact`.
- ExprTransform.SupersetTest: the conclusion on values needs readable operands and that no negated symbol of the condition is m; `SupersetMissesUndefined` and `SupersetMissesNegatedMod` show why. Acceptance of an extended condition needs that its reading has nothing to join, since a join may absorb the base.
- Menu.Menus.Finalize: the outcome of the dependency tests is a function of the symbol and the entry; what the tests mean is proved in `ExprTransform`. The dependency fields of entries and the parser that builds the first tree are not part of this model.
- The line reader in front of `conf_set_sym_val`, so a newline inside a string is not followed through a file.
- The sticky shifts of 32 and 64 bits and those with an extra word: the same reasoning in smaller or wider form.
- `estimateSqrt32`, a table-driven numeric bound, and the softfloat routines and NaN rules above the macros.
- Page masks other than 4 KB pages, which the simulator refuses by an assertion, and fields of CP0 that do not enter translation.
- MmuCache.Machine.Execute: after a `tlbr` that changes the current ASID, accesses to pages that depend on it are excluded until the cache is cleared, because the code leaves the cache as it is; see `TlbrLeavesStaleLine`.
- The decode cache, delay slots, floating-point instructions and all other instruction handlers.
- FlashRuns.RunKeeps: erases that leave the array are excluded, since the code neither aligns nor bounds them; the backing file is as long as the storage.
- The table of flash parts: a part is any description whose size is a multiple of the page and sector size, and a power of two where addresses are masked.
- User interfaces, consoles, networking, debugger sockets, ELF loading, and reading and writing of files.
