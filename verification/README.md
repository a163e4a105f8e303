# Proofs about the harder parts of the system software tree

This project models, in Dafny, the parts of the repository whose correctness cannot be seen by reading one function,
and proves what they promise.

* **Kconfig expressions** (`KconfigExpr`, `KconfigEq`, `KconfigEqExact`, `KconfigDups`, `KconfigTransform`,
  `KconfigMenu`). The rewriter of dependency expressions over n < m < y: every step keeps the value under every
  assignment (or changes it in one stated way), every loop and recursion ends, and the menu pipeline and the submenu
  test built on it mean what they should.
* **Recursive dependencies** (`KconfigDeps`). The depth-first check over symbols reports an error exactly if a
  dependency cycle exists.
* **miniRV lowering** (`MiniRvTables`, `MiniRvMachine`, `MiniRvArith`, `MiniRvBranch`, `MiniRvShift`). Each assembler
  macro, run on a machine with eight base instructions, the generated lookup tables and scratch slots below sp, leaves
  the RV32I result (sections 2.4 to 2.6 of the RISC-V Unprivileged ISA) and disturbs nothing but what it may.
* **Page tables** (`VmeEntry`, `VmeTree`, `Vme`). The two-level tables of x86 (section 4.3 of volume 3A of the Intel
  SDM) agree with a flat page map over any run of map and unmap calls, and their pages are allocated and freed exactly.
* **64-bit arithmetic** (`Arithmetic`, `Bits`, `Int64Bits`, `Int64Div`, `Multi3`). Shift-subtract division with all its special
  cases, its signed wrappers, zero counts, and double-word multiplication for every word width.
* **Cache simulator** (`CacheTrace`, `Cache`). What counts as a hit is stated on the trace alone and proved of the
  lines-and-ages machine, for LRU and FIFO.
* **Host interface** (`Htif`, `HtifConsole`). The mailbox under its spinlock and the console on top of it, for every
  interleaving of any number of harts and the host.
* **Debugger expressions** (`SdbSyntax`, `SdbEval`, `SdbMeaning`, `SdbLaws`). What the evaluator computes for every
  well-formed expression, when that is the usual value, and what each operator does.
* **GDB packets** (`Gdb`, `GdbPacket`, `GdbExact`). The decoder inverts every encoding with escapes and run lengths,
  and exactly the payloads in which every byte means itself survive being sent raw.

Where the source changes state step by step the model does so too: classes with fields and `modifies` clauses
(`KconfigDups.Rewriter`, `KconfigDeps.Checker`, `MiniRvMachine.Machine`, `Vme.Machine`, `Cache.Simulator`), arrays
written in place (`SdbEval.RetagLoop`, `GdbPacket.RecvPacket`), and loops with invariants. Concurrency is a state
machine over single accesses to shared memory. Words are integers with explicit wrap-around.

Calls into code outside the model are parameters or arbitrary choices: `pgalloc` may return any free aligned page or
fail, the random replacement policy may pick any way, the HTIF host acts whenever it likes, register and memory reads of
the debugger are an environment, and the bytes of a connection are a sequence.

Verify with `dafny verify dfyconfig.toml`.

## Model

| member | source | states |
|---|---|---|
| `KconfigExpr.CompareValues` | nemu/tools/kconfig/expr.c:1062-1102 | between bool and tristate symbols the six comparisons are those of the values n < m < y |
| `KconfigExpr.CompareLetters` | nemu/tools/kconfig/expr.c:1062-1102 | with y, m or n on the right they are those of the letters in the alphabet |
| `KconfigExpr.EliminateYnValue` | nemu/tools/kconfig/expr.c:316-397 | removing y and n operands keeps the value under every assignment |
| `KconfigExpr.EliminateYnShrinks` | nemu/tools/kconfig/expr.c:316-397 | no y or n operand is left outside negations; a connective disappears whenever there was one |
| `KconfigExpr.EliminateYnForm` | nemu/tools/kconfig/expr.c:316-397 | negation normal form and the scope of comparisons are kept |
| `KconfigEq.EliminateEqWalk` | nemu/tools/kconfig/expr.c:150-219 | the walk ends: neither tree grows, so the mutual recursion with the comparison has a measure |
| `KconfigEq.EliminateEqWalkFactors` | nemu/tools/kconfig/expr.c:150-219 | there is one value v with e1 = v op rest1 and e2 = v op rest2, op being min for AND and max for OR |
| `KconfigEq.EliminateEqFactors` | nemu/tools/kconfig/expr.c:221-249 | the same for the entry point: one common value is taken out of both trees, both by min or both by max |
| `KconfigEq.WalkKeepsOtherConnective` | nemu/tools/kconfig/expr.c:221-249 | a walk for one connective does not touch the top of a tree of the other, so the second walk meets the form the first one left |
| `KconfigEq.EqSound` | nemu/tools/kconfig/expr.c:252-311 | trees reported equal are equal under every assignment |
| `KconfigEq.EqOptSound` | nemu/tools/kconfig/expr.c:252-311 | the same with a missing tree reading as y |
| `KconfigEqExact.EqExact` | nemu/tools/kconfig/expr.c:252-311 | where no connective has y or n as an operand, the comparison is true exactly if the trees are equal up to reordering and regrouping the operands at every level |
| `KconfigEqExact.WalkExact` | nemu/tools/kconfig/expr.c:150-219 | the walk takes out of both sides exactly the common operands, with their multiplicities |
| `KconfigEqExact.EliminateEqLevel` | nemu/tools/kconfig/expr.c:221-249 | of two trees of one connective exactly the operands remain that the other does not have, with multiplicities |
| `KconfigEqExact.EliminateEqOperand` | nemu/tools/kconfig/expr.c:221-249 | the same of a tree and a single operand |
| `KconfigEqExact.EliminateEqMixed` | nemu/tools/kconfig/expr.c:221-249 | of trees of different connectives one is cancelled as an operand of the other if it is one, and nothing else goes |
| `KconfigEqExact.EqWithConstant` | nemu/tools/kconfig/expr.c:316-397 | with y or n as an operand it can be true of other trees, whose value the constant decides |
| `KconfigDups.JoinOrSound` | nemu/tools/kconfig/expr.c:431-493 | every OR join equals the maximum of the two operands it replaces; QuietIrredundant says which joins there must be |
| `KconfigDups.JoinAndSound` | nemu/tools/kconfig/expr.c:495-588 | every AND join equals the minimum of the two operands it replaces, except for one rule |
| `KconfigDups.DenotedSound` | nemu/tools/kconfig/expr.c:998-1083 | a tristate equals a constant exactly if it has the value the constant stands for: y, m, n, or text that is the number 2, 1 or 0 |
| `KconfigDups.JoinAndClash` | nemu/tools/kconfig/expr.c:539-554 | that rule: a='b' && a!='c' of a tristate, where different constants stand for the same value, is wrong wherever the symbol has that value |
| `KconfigDups.JoinAndExact` | nemu/tools/kconfig/expr.c:495-588 | so an AND join keeps the value under every assignment exactly if it is not by that rule |
| `KconfigDups.JoinForm` | nemu/tools/kconfig/expr.c:431-588 | a join is no larger than what it replaces, has no connective, and keeps normal form and scope |
| `KconfigDups.PassValue` | nemu/tools/kconfig/expr.c:596-662 | a pass over all ordered pairs of operands, with its recursion into the other connective, keeps the value |
| `KconfigDups.PassProgress` | nemu/tools/kconfig/expr.c:596-662 | a pass adds no connective; counting nothing it changes nothing, otherwise some connective now has a y or n operand |
| `KconfigDups.PassShape` | nemu/tools/kconfig/expr.c:596-662 | a pass keeps normal form and scope |
| `KconfigDups.NothingToJoin` | nemu/tools/kconfig/expr.c:596-662 | a pass counts nothing exactly if no two distinct operands can be joined, in either order, here or in nested operands; QuietIrredundant says what that means for the operands themselves |
| `KconfigDups.QuietIrredundant` | nemu/tools/kconfig/expr.c:431-588 | where nothing can be joined, at every level: no two operands equal up to reordering; under OR no two `=` tests of one tristate with different constants of y, m, n and no bool beside its negation; under AND no symbol beside its own `=y`, `!=n` or `!=m`, no two such `!=` tests, and no `=` and `!=` test of one tristate with constants |
| `KconfigDups.RoundSound` | nemu/tools/kconfig/expr.c:664-686 | one round of the loop keeps the value and, if it joined anything, strictly lowers the number of connectives |
| `KconfigDups.Rewriter.EliminateDups` | nemu/tools/kconfig/expr.c:664-686 | the loop ends; the result has the same value under every assignment, no redundant operands at any level and no more connectives, and trans_count is restored |
| `KconfigDups.EliminatedDupsSound` | nemu/tools/kconfig/expr.c:664-686 | the same of the function that specifies the loop |
| `KconfigTransform.Transform` | nemu/tools/kconfig/expr.c:694-849 | the rewriting ends although De Morgan steps enlarge the tree: a weight that doubles under negation never rises |
| `KconfigTransform.DeMorganWeight` | nemu/tools/kconfig/expr.c:794-816 | the De Morgan steps strictly lower the weight |
| `KconfigTransform.TransformValue` | nemu/tools/kconfig/expr.c:694-849 | the value is kept under every assignment |
| `KconfigTransform.TransformNormal` | nemu/tools/kconfig/expr.c:694-849 | afterwards NOT stands only over non-constant symbols and no bool symbol is compared with y, m or n |
| `KconfigTransform.NormalIffFixed` | nemu/tools/kconfig/expr.c:694-849 | an expression is in that form exactly if the rewriting leaves it alone |
| `KconfigTransform.TransformIdempotent` | nemu/tools/kconfig/expr.c:694-849 | rewriting twice is rewriting once |
| `KconfigTransform.TransBoolPolarity` | nemu/tools/kconfig/expr.c:402-426 | where every rewritten FOO!=n stands under an even number of negations the value is n exactly if it was n and never rises; under an odd number it is y exactly if it was y and never falls |
| `KconfigTransform.TransBoolKeepsNo` | nemu/tools/kconfig/expr.c:402-426 | so on negation normal expressions the value is n exactly if it was n, and never rises |
| `KconfigTransform.TransBoolComplete` | nemu/tools/kconfig/expr.c:402-426 | no FOO!=n test of a tristate is left anywhere, the size stays, and exactly the trees without such a test are left alone |
| `KconfigTransform.TransBoolUnderNegation` | nemu/tools/kconfig/expr.c:402-426 | under one negation the value n can become m: a concrete expression and assignment |
| `KconfigTransform.TransBoolMasked` | nemu/tools/kconfig/expr.c:402-426 | another operand can hide that for every assignment, so no condition on positions alone is exact |
| `KconfigTransform.TransCompareNoSound` | nemu/tools/kconfig/expr.c:922-985 | the comparison with n is two-valued, holds where the expression is y and fails where it is n |
| `KconfigTransform.TransCompareNoExact` | nemu/tools/kconfig/expr.c:922-985 | for every expression, exactly: the value with each symbol counted as y unless it equals n, or its negation |
| `KconfigTransform.LiftedSound` | nemu/tools/kconfig/expr.c:922-985 | that value is y where the expression is y and n where it is n |
| `KconfigTransform.NegatedMod` | nemu/tools/kconfig/expr.c:928-951 | it is not the comparison of the expression's value with n: !FOO with FOO = m |
| `KconfigTransform.ComparesValue` | nemu/tools/kconfig/expr.c:922-985 | without a negation above a value of m it is |
| `KconfigMenu.RewriteMValue` | nemu/tools/kconfig/menu.c:82-105 | m is rewritten so that it counts as n exactly where modules are off |
| `KconfigMenu.PropagateSound` | nemu/tools/kconfig/menu.c:351-406 | the pipeline yields the minimum of the enclosing and the written dependency, in normal form and without redundant operands |
| `KconfigMenu.NestedSound` | nemu/tools/kconfig/menu.c:351-406 | through any depth of menus the result is the minimum of all written dependencies |
| `KconfigMenu.Best` | nemu/tools/kconfig/symbol.c:189-201 | the largest value of a prompt, n without prompts |
| `KconfigMenu.CalcVisibility` | nemu/tools/kconfig/symbol.c:183-203 | the loop over prompts finds the largest prompt value and promotes m to y for symbols that are not tristate or without modules |
| `KconfigMenu.TransBoolKeepsVisibility` | nemu/tools/kconfig/symbol.c:189-203 | the visibility of a symbol that is not tristate is the same with and without the rewriting for bools |
| `KconfigMenu.PipelineVisibility` | nemu/tools/kconfig/menu.c:351-406 | for any prompts under any menus, from the conditions as written to the visibility of a symbol that is not tristate: the same with and without the rewriting for bools, namely y exactly if some prompt's dependencies together are not n |
| `KconfigMenu.DependsSymbolSound` | nemu/tools/kconfig/expr.c:879-911 | an expression that depends on a symbol is n wherever the symbol is n |
| `KconfigMenu.DependsExact` | nemu/tools/kconfig/expr.c:879-911 | it depends on the symbol exactly if one of its conjuncts is the symbol, `=y`, `=m` or `!=n` of it |
| `KconfigMenu.ContainsExact` | nemu/tools/kconfig/expr.c:851-877 | an expression contains a symbol exactly if the symbol is among those of the tree |
| `KconfigMenu.AsNotNoExact` | nemu/tools/kconfig/menu.c:456-481 | the prepared comparison has exactly the value with each symbol counted as y unless it equals n |
| `KconfigMenu.AsNotNoSound` | nemu/tools/kconfig/menu.c:456-481 | so it is y where the expression is y and n where it is n |
| `KconfigMenu.SupersetLifted` | nemu/tools/kconfig/menu.c:478-490 | passing the superset test means that this value of the item is nowhere above that of the parent's prompt |
| `KconfigMenu.SupersetSound` | nemu/tools/kconfig/menu.c:478-490 | so such an item is y only where the parent's prompt is not n |
| `KconfigMenu.PlacedSound` | nemu/tools/kconfig/menu.c:456-496 | an item placed in a submenu is y only where the symbol is set or its prompt visible |
| `KconfigMenu.CollectSubmenu` | nemu/tools/kconfig/menu.c:456-496 | the loop takes the longest run of following items that belong into the submenu, each with that property |
| `KconfigDeps.Checker.CheckDeps` | nemu/tools/kconfig/symbol.c:1250-1279 | a reported symbol is on a dependency cycle; if nothing has been reported the checked symbols are closed under dependencies and topologically ordered |
| `KconfigDeps.Checker.CheckNew` | nemu/tools/kconfig/symbol.c:1272-1276 | the flags around the recursion: CHECK is set during it and cleared after it, CHECKED stays |
| `KconfigDeps.Checker.CheckSymDeps` | nemu/tools/kconfig/symbol.c:1165-1211 | with no report, everything the symbol depends on has passed before it; the stack is restored |
| `KconfigDeps.Checker.CheckExprDeps` | nemu/tools/kconfig/symbol.c:1130-1162 | with no report, every symbol in the expression has passed; the recursion ends |
| `KconfigDeps.Checker.CheckProps` | nemu/tools/kconfig/symbol.c:1190-1205 | the loop over properties covers every visibility and default expression |
| `KconfigDeps.StackCycle` | nemu/tools/kconfig/symbol.c:1255-1258 | a symbol met while it is being checked closes a real cycle, which is on the stack |
| `KconfigDeps.NoCycleReachable` | nemu/tools/kconfig/symbol.c:1259-1260 | from a symbol that passed no path leads to a cycle |
| `KconfigDeps.CheckAll` | nemu/tools/kconfig/parser.y:514-517 | checking the symbols of the hash table counts no error exactly if there is no recursive dependency |
| `MiniRvTables.GenTable` | abstract-machine/tools/minirv/gen-lut.c:10-24 | the nested loops write, for every row and column, the operator's byte or the little-endian shifted word |
| `MiniRvTables.TableMeaning` | abstract-machine/tools/minirv/gen-lut.c:19-24 | the entry of every row and column: the bitwise and, or, xor of the two, the left shift modulo 2^32, and both right shifts as division with remainder |
| `Bits.BitwiseMeaning` | nemu/src/isa/riscv32/inst.c:168-172 | what the bitwise operators do to every single bit |
| `Bits.OrXorSums` | nemu/src/isa/riscv32/inst.c:168-172 | or plus and is the sum of the operands, and so is xor plus twice the and |
| `MiniRvTables.RightShiftsDivide` | nemu/src/isa/riscv32/inst.c:169-170 | the right shifts divide the unsigned and the signed value by 2^s, rounding down |
| `MiniRvTables.LogicByBytes` | abstract-machine/tools/minirv/inst-replace.h:165-200 | looking up the four byte pairs gives the 32-bit and, or, xor |
| `MiniRvTables.SllRecombines` | abstract-machine/tools/minirv/inst-replace.h:412-429 | the four table words, moved to their places, add up to the left shift modulo 2^32 |
| `MiniRvTables.SrlRecombines` | abstract-machine/tools/minirv/inst-replace.h:463-512 | the bytes of the four table words add up without carry to the logical right shift |
| `MiniRvTables.SraTopEntry` | abstract-machine/tools/minirv/inst-replace.h:504-509 | replacing only the top byte's entry by the arithmetic one gives the arithmetic shift |
| `MiniRvMachine.Machine.La` | abstract-machine/tools/minirv/inst-replace.h:605-608 | the rounded upper part plus the sign-extended lower part is the address |
| `MiniRvArith.Not` | abstract-machine/tools/minirv/inst-replace.h:629-657 | rd gets the complement; only rd, tp and three slots change |
| `MiniRvArith.Sub` | abstract-machine/tools/minirv/inst-replace.h:110-115 | rd gets the difference modulo 2^32 for every register content and allowed aliasing; only rd, tp and slots below sp change |
| `MiniRvArith.GetByte` | abstract-machine/tools/minirv/inst-replace.h:117-120 | rd gets the chosen byte; one slot changes |
| `MiniRvArith.Msb` | abstract-machine/tools/minirv/inst-replace.h:122-126 | rd gets the sign bit |
| `MiniRvArith.CompareTables` | abstract-machine/tools/minirv/inst-replace.h:61-63 | the eight-entry tables, indexed by the signs of both operands and of their difference, decide signed and unsigned order |
| `MiniRvArith.Compare` | abstract-machine/tools/minirv/inst-replace.h:128-153 | rd gets the comparison; s0, s1 and all other registers are as before except tp and gp |
| `MiniRvArith.Slt` | abstract-machine/tools/minirv/inst-replace.h:155-158 | slt as in the direct instruction |
| `MiniRvArith.Sltu` | abstract-machine/tools/minirv/inst-replace.h:160-163 | sltu as in the direct instruction |
| `MiniRvArith.LogicMacro` | abstract-machine/tools/minirv/inst-replace.h:165-211 | rd gets the bitwise and, or, xor; only rd, tp and slots below sp change |
| `MiniRvArith.CompareImmediate` | abstract-machine/tools/minirv/inst-replace.h:80-86 | slti and sltiu through tp |
| `MiniRvArith.LogicImmediate` | abstract-machine/tools/minirv/inst-replace.h:80-86 | rd gets the bitwise and, or, xor with the sign-extended immediate, through tp |
| `MiniRvBranch.CheckSame` | abstract-machine/tools/minirv/inst-replace.h:213-224 | storing 1 and then 0 through two byte indices reads back 0 exactly if the bytes are equal |
| `MiniRvBranch.Seq` | abstract-machine/tools/minirv/inst-replace.h:226-247 | rd tells equality of two registers, except for rd = s0 or s1: rd is written before they are restored and so keeps its old value |
| `MiniRvBranch.Seqz` | abstract-machine/tools/minirv/inst-replace.h:249-273 | rd tells equality with zero, except for rd = s0, which keeps its old value |
| `MiniRvBranch.BranchResolve` | abstract-machine/tools/minirv/inst-replace.h:277-296 | tp selects one of two saved addresses and control goes there |
| `MiniRvBranch.BranchEqual` | abstract-machine/tools/minirv/inst-replace.h:299-327 | beq and bne take the branch exactly if the direct instruction does, with the short forms for x0 |
| `MiniRvBranch.NotPositive` | abstract-machine/tools/minirv/inst-replace.h:335-344 | the two sign bits decide whether a signed number is at most 0 |
| `MiniRvBranch.BranchLess` | abstract-machine/tools/minirv/inst-replace.h:329-376 | blt and bge take the branch exactly if the direct instruction does, with the short forms for x0 |
| `MiniRvBranch.BranchLessUnsigned` | abstract-machine/tools/minirv/inst-replace.h:353-382 | bltu and bgeu take the branch exactly if the direct instruction does |
| `MiniRvShift.GetShamt` | abstract-machine/tools/minirv/inst-replace.h:384-390 | the and table masks the amount to five bits |
| `MiniRvShift.GetShiftByte` | abstract-machine/tools/minirv/inst-replace.h:392-397 | tp gets the table word for a byte of the operand |
| `MiniRvShift.Sll` | abstract-machine/tools/minirv/inst-replace.h:399-430 | sll as in the direct instruction; only rd, tp, gp and slots below sp change |
| `MiniRvShift.ShiftRightRegister` | abstract-machine/tools/minirv/inst-replace.h:432-523 | srl and sra as in the direct instructions; only rd, tp, gp and slots below sp change |
| `MiniRvShift.ShiftRight24` | abstract-machine/tools/minirv/inst-replace.h:433-444 | the fast path for 24 |
| `MiniRvShift.ShiftRightImmediate` | abstract-machine/tools/minirv/inst-replace.h:432-562 | srli and srai for every amount, through the fast path or not |
| `MiniRvShift.Slli` | abstract-machine/tools/minirv/inst-replace.h:526-552 | slli for every amount, through the byte move, the halfword move or doubling |
| `MiniRvShift.Lb` | abstract-machine/tools/minirv/inst-replace.h:570-576 | the sign-extended byte, from any address outside the scratch slots |
| `MiniRvShift.Lhu` | abstract-machine/tools/minirv/inst-replace.h:578-585 | the zero-extended halfword |
| `MiniRvShift.Lh` | abstract-machine/tools/minirv/inst-replace.h:587-595 | the sign-extended halfword |
| `MiniRvShift.Sh` | abstract-machine/tools/minirv/inst-replace.h:597-601 | the two bytes are stored and no other memory outside the slots changes |
| `VmeEntry.IndexOfLevels` | abstract-machine/am/src/x86/qemu/vme.c:16-20 | mask and shift of each level pick the directory and table index of an address |
| `VmeEntry.BaseOf` | abstract-machine/am/src/x86/qemu/vme.c:53-55 | masking rounds down to the page |
| `VmeEntry.EntryOf` | abstract-machine/am/src/x86/qemu/vme.c:67-70 | an entry made from a page and flags is present and gives the page back |
| `VmeEntry.PteOf` | abstract-machine/am/src/x86/qemu/vme.c:152 | a page entry is the page with P, U and, if asked for, W |
| `VmeTree.NewRoot` | abstract-machine/am/src/x86/qemu/vme.c:66-69 | adding a directory changes no lookup and no other space |
| `VmeTree.NewLeaf` | abstract-machine/am/src/x86/qemu/vme.c:66-69 | adding a table changes no lookup, no shared entry and no other space |
| `VmeTree.SetEntry` | abstract-machine/am/src/x86/qemu/vme.c:146-154 | setting the entry of an address changes the lookup of its page and of no other |
| `VmeTree.TidyElsewhere` | abstract-machine/am/src/x86/qemu/vme.c:57-75 | what happens in one space changes neither the tree nor a lookup of another |
| `Vme.Machine.PgAllocZ` | abstract-machine/am/src/x86/qemu/vme.c:40-47 | a page that was not in use, zeroed |
| `Vme.Machine.PtWalk` | abstract-machine/am/src/x86/qemu/vme.c:57-75 | the entry of the address; tables are added only where missing, every lookup stays the same, and all pages taken belong to this space |
| `Vme.Machine.Map` | abstract-machine/am/src/x86/qemu/vme.c:141-156 | after an unmap the page looks up 0, after a map the physical page with P, U and, exactly if asked for, W; every other page looks up what it did; each panic happens exactly under its condition, or for want of a page |
| `Vme.Machine.MapAll` | abstract-machine/am/src/x86/qemu/vme.c:141-156 | after any run of calls every user address looks up what the last call for its page asked for, 0 if that was an unmap; untouched pages, other spaces and kernel tables are as before |
| `Vme.LastExists` | abstract-machine/am/src/x86/qemu/vme.c:141-156 | every page that some call touched has a last call, so the statement covers all user addresses |
| `Vme.OthersKept` | abstract-machine/am/src/x86/qemu/vme.c:141-156 | every other space and the kernel look up what they did before |
| `Vme.SharedKernel` | abstract-machine/am/src/x86/qemu/vme.c:117-135 | in the kernel's part every protected space looks up what the kernel does |
| `Vme.Machine.CopyArea` | abstract-machine/am/src/x86/qemu/vme.c:124-129 | the loop copies the directory entries of an area, wrapping around at the end of the address space |
| `Vme.Machine.Protect` | abstract-machine/am/src/x86/qemu/vme.c:117-135 | one new page, the directory, with the kernel's entries and no user page |
| `Vme.Machine.Teardown` | abstract-machine/am/src/x86/qemu/vme.c:77-87 | exactly the tables of the space below the level are freed, each once; kernel tables and data pages are not |
| `Vme.Machine.Unprotect` | abstract-machine/am/src/x86/qemu/vme.c:137-139 | the pages given back are exactly those taken for this space |
| `Vme.Machine.Lifetime` | abstract-machine/am/src/x86/qemu/vme.c:117-156 | protect, any run of map calls and unprotect leave allocation and all tables as they were |
| `Vme.Machine.VmeInit` | abstract-machine/am/src/x86/qemu/vme.c:97-109 | every kernel address maps to itself, writable and not for users, and nothing else is mapped |
| `Int64Bits.Clzsi2` | abstract-machine/klib/src/int64.c:626-655 | the number of leading zeros of a 32-bit word |
| `Int64Bits.Ctzsi2` | abstract-machine/klib/src/int64.c:661-695 | the number of trailing zeros |
| `Int64Bits.Clzdi2` | abstract-machine/klib/src/int64.c:711-717 | the same for 64 bits, through masks |
| `Int64Bits.Ctzdi2` | abstract-machine/klib/src/int64.c:703-709 | the same for 64 bits, through masks |
| `Int64Div.ShiftSubtract` | abstract-machine/klib/src/int64.c:598-616 | the masked-subtract loop divides, for divisors of 2^63 and more too |
| `Int64Div.LongDivision` | abstract-machine/klib/src/int64.c:491-616 | the set-up of quotient and remainder words for shift counts below, at and above 32 |
| `Int64Div.DivideByHighWord` | abstract-machine/klib/src/int64.c:446-507 | the special cases of a divisor whose low word is 0 |
| `Int64Div.DivideByLowWord` | abstract-machine/klib/src/int64.c:510-558 | the special cases of a divisor of one word, powers of two included |
| `Int64Div.DivideByHighBits` | abstract-machine/klib/src/int64.c:559-590 | the special cases of a divisor of two words |
| `Int64Div.Udivmoddi4` | abstract-machine/klib/src/int64.c:413-620 | a = q * b + r and 0 <= r < b for every 64-bit a and every b but 0 |
| `Int64Div.Divdi3` | abstract-machine/klib/src/int64.c:356-365 | the quotient truncated toward zero, except exactly for INT64_MIN / -1, which gives INT64_MIN |
| `Int64Div.Moddi3` | abstract-machine/klib/src/int64.c:380-390 | the remainder of truncated division, with the sign of the dividend |
| `Int64Div.Divmoddi4` | abstract-machine/klib/src/int64.c:370-375 | quotient and remainder together, with the same one exception |
| `Multi3.MultiplyWords` | abstract-machine/am/src/riscv/npc/libgcc/multi3.c:40-75 | the shift-add loop gives the double-word product of two words, for every word width |
| `Multi3.Multi3` | abstract-machine/am/src/riscv/npc/libgcc/multi3.c:40-86 | the product modulo the double word |
| `CacheTrace.CacheableRanges` | npc/tools/cachesim/cachesim.cpp:47-58 | the shifted comparisons are three address ranges, and `all` is their union |
| `CacheTrace.BlocksAreLines` | npc/tools/cachesim/cachesim.cpp:185 | two addresses share a block exactly if they lie in one aligned line of lineSize bytes |
| `CacheTrace.SetsInTurn` | npc/tools/cachesim/cachesim.cpp:186 | any `sets` consecutive lines go to pairwise different sets, in turn from set 0 |
| `CacheTrace.SameBlock` | npc/tools/cachesim/cachesim.cpp:185-187 | set and tag together identify the block |
| `CacheTrace.LruInclusion` | npc/tools/cachesim/cachesim.cpp:189-227 | an LRU hit with some number of ways is a hit with more |
| `CacheTrace.MoreWaysMoreHits` | npc/tools/cachesim/cachesim.cpp:249-255 | on no trace do more ways lose hits |
| `Cache.HeldIffHit` | npc/tools/cachesim/cachesim.cpp:189-197 | a tag is held exactly if fewer than `ways` other blocks of its set were accessed since its last access (LRU), or it is among the last `ways` fills (FIFO) |
| `Cache.MissStep` | npc/tools/cachesim/cachesim.cpp:199-227 | replacing the victim keeps the tags distinct and the policy's invariant |
| `Cache.HitStep` | npc/tools/cachesim/cachesim.cpp:189-197 | a hit keeps them too |
| `Cache.ChooseVictim` | npc/tools/cachesim/cachesim.cpp:200-223 | the first invalid way, otherwise one of least age, or any for the random policy |
| `Cache.AccessSet` | npc/tools/cachesim/cachesim.cpp:189-227 | search, replacement and update within a set keep its invariants, and a hit is exactly what the reference says |
| `Cache.Simulator.Access` | npc/tools/cachesim/cachesim.cpp:171-228 | a hit is reported exactly if the reference on the trace says so; hits and misses add up to accesses, for all policies |
| `Cache.Simulator.Run` | npc/tools/cachesim/cachesim.cpp:249-255 | over a whole trace the reported hits are the number of hits by the reference |
| `Cache.MoreWaysReportMoreHits` | npc/tools/cachesim/cachesim.cpp:249-255 | two simulators on one trace: more ways report no fewer hits and no more misses |
| `Htif.InvNext` | abstract-machine/am/src/riscv/spike/htif.c:19-81 | every step of a hart, and of a host that may send anything into an empty mailbox, keeps the invariant |
| `Htif.MutexStep` | abstract-machine/am/src/riscv/spike/atomic.h:43-63 | acquiring and releasing the lock keep at most one hart in the critical section |
| `Htif.Safety` | abstract-machine/am/src/riscv/spike/htif.c:19-81 | in every state of every run, whatever the host sends: one lock holder, and what was posted and sent is what was taken and consumed, in order, plus what is in the mailboxes |
| `Htif.NothingOverwritten` | abstract-machine/am/src/riscv/spike/htif.c:39-44 | a command is written only into an empty mailbox, and only the message the hart has read is cleared |
| `Htif.OrderlyNext` | abstract-machine/am/src/riscv/spike/htif.c:19-81 | with a host that keeps to the protocol every step also keeps the bookkeeping of calls |
| `Htif.NoAssertionFires` | abstract-machine/am/src/riscv/spike/htif.c:26-36 | with such a host no assertion of the message dispatch ever fires |
| `Htif.CallGetsItsReply` | abstract-machine/am/src/riscv/spike/htif.c:65-81 | with such a host exactly one call is in flight while a call waits, and when it clears the mailbox that holds the reply |
| `Htif.Fields` | abstract-machine/am/src/riscv/spike/htif.h:9-18 | the host finds device, command and data of every posted command as the operation means them |
| `HtifConsole.GetcharExact` | abstract-machine/am/src/riscv/spike/htif.c:46-63 | in every run htif_console_getchar returns the character that arrived since the last call, the latest if several; without one -1 the first time and -2 afterwards |
| `HtifConsole.CharactersArrive` | abstract-machine/am/src/riscv/spike/htif.c:19-37 | the characters put into the buffer are those of the keyboard messages consumed, in order and without loss |
| `HtifConsole.CommandsPosted` | abstract-machine/am/src/riscv/spike/htif.c:39-101 | every operation posts exactly its command, once, in the order of the lock; a read posts its request exactly if it found a value |
| `SdbEval.CheckParentheses` | nemu/src/monitor/sdb/expr.c:174-192 | true exactly if one matching pair encloses the range |
| `SdbEval.FindMainOperator` | nemu/src/monitor/sdb/expr.c:194-233 | the loop computes the scan over tokens outside parentheses |
| `SdbEval.ScanFinds` | nemu/src/monitor/sdb/expr.c:224-228 | that is the operator that binds least: of equals the last, of `*` and `/` the first |
| `SdbEval.Eval` | nemu/src/monitor/sdb/expr.c:235-298 | the recursion over index ranges is a function of the tokens in the range; SdbLaws says what it computes at each operator |
| `SdbEval.RetagLoop` | nemu/src/monitor/sdb/expr.c:311-328 | in place, exactly the `*` and `-` that do not follow an operand become unary |
| `SdbEval.Expr` | nemu/src/monitor/sdb/expr.c:300-333 | the empty expression fails; otherwise the retagged tokens are evaluated |
| `SdbMeaning.RetagRender` | nemu/src/monitor/sdb/expr.c:311-328 | on the tokens of a well-formed expression retagging finds exactly its unary operators |
| `SdbMeaning.EvalIsNested` | nemu/src/monitor/sdb/expr.c:235-298 | for every well-formed expression: the value with products nested to the right and only the last of adjacent unary operators |
| `SdbMeaning.ExprIsNested` | nemu/src/monitor/sdb/expr.c:300-333 | the same from the tokens before retagging; this is the exact statement of what expr computes |
| `SdbMeaning.ExprIsMeaning` | nemu/src/monitor/sdb/expr.c:300-333 | without adjacent unary operators and without `/` in longer products: the usual left-associative value modulo 2^32 |
| `SdbLaws.Atoms` | nemu/src/monitor/sdb/expr.c:242-256 | a single token: a number is its value, a register its content or a failure, anything else aborts |
| `SdbLaws.Parentheses` | nemu/src/monitor/sdb/expr.c:257-259 | parentheses around an expression change nothing |
| `SdbLaws.WordArithmetic` | nemu/src/monitor/sdb/expr.c:281-283 | for all operands with values x and y: x-y plus y is x, x+y less y is x, and x*y is the product, modulo 2^32 |
| `SdbLaws.WordTests` | nemu/src/monitor/sdb/expr.c:273-280 | the logical operators and comparisons give 1 or 0, the order being that of the signed values |
| `SdbLaws.WordDivision` | nemu/src/monitor/sdb/expr.c:284-290 | the signed quotient leaves a remainder smaller than the divisor with the sign of the dividend; the divisor 0 and -2^31 / -1 abort |
| `SdbLaws.WordPrefixes` | nemu/src/monitor/sdb/expr.c:291-292 | -y plus y is 0 modulo 2^32, and *y is the word at y |
| `SdbLaws.ThreeOperands` | nemu/src/monitor/sdb/expr.c:204-228 | how x p y q z is read for any two operators, by an explicit list of levels: the middle operand goes to the one that binds tighter, of equals to the left one, of `*` and `/` to the right one |
| `SdbLaws.SuccessExact` | nemu/src/monitor/sdb/expr.c:235-298 | an expression succeeds exactly if every register it names is known, and aborts only where it has a division |
| `SdbMeaning.PlainNotNecessary` | nemu/src/monitor/sdb/expr.c:300-333 | that condition is only sufficient: a logical or of `--x` and y always has its usual value |
| `SdbMeaning.DivisionChain` | nemu/src/monitor/sdb/expr.c:224-228 | 8/4/2 gives 4, not 1 |
| `SdbMeaning.AdjacentUnary` | nemu/src/monitor/sdb/expr.c:266-291 | --1 gives -1, not 1 |
| `Gdb.HexRoundTrip` | nemu/tools/qemu-diff/src/protocol.c:39-52 | both ways of writing a byte in hexadecimal read back as it |
| `Gdb.HexDigits` | nemu/tools/qemu-diff/src/protocol.c:44-46 | the digits are those of the two alphabets |
| `Gdb.DecodeHexStr` | nemu/tools/qemu-diff/src/protocol.c:54-63 | the little-endian number of the leading digit pairs modulo 2^64 |
| `Gdb.DecodeHexStrRoundTrip` | nemu/tools/qemu-diff/src/protocol.c:44-63 | up to eight bytes written in hexadecimal decode to their number |
| `GdbPacket.RecvPacket` | nemu/tools/qemu-diff/src/protocol.c:173-274 | the loop with its growing buffer computes the decoding function, and never writes outside the buffer |
| `GdbPacket.SumIsTotal` | nemu/tools/qemu-diff/src/protocol.c:138-143 | the running sum is the integer sum of all bytes modulo 256 |
| `GdbPacket.FlipIsXor` | nemu/tools/qemu-diff/src/protocol.c:250-254 | an escaped byte is its exclusive or with 0x20 |
| `GdbPacket.ReceiveChecked` | nemu/tools/qemu-diff/src/protocol.c:173-274 | every encoding is received as its payload, after junk and after packets that were broken off by a new start, and the checksum is accepted exactly if its two digits are the sum of the bytes sent modulo 256 |
| `GdbPacket.ReceiveEncoded` | nemu/tools/qemu-diff/src/protocol.c:173-274 | every encoding with raw bytes, escapes and run lengths is received as its payload with the checksum right, whatever comes before and after |
| `GdbPacket.EscapedPayload` | nemu/tools/qemu-diff/src/protocol.c:215-217 | every payload has such an encoding |
| `GdbPacket.SendPacket` | nemu/tools/qemu-diff/src/protocol.c:138-158 | start, payload, end and the two digits of the sum of the bytes modulo 256 |
| `GdbPacket.SendThenReceive` | nemu/tools/qemu-diff/src/protocol.c:138-274 | receiving what was sent is the identity if no byte is `$`, `#` or `}` and no `*` after the first byte is followed by a count |
| `GdbExact.LostForever` | nemu/tools/qemu-diff/src/protocol.c:187-266 | once what was put out has fallen behind the payload, or run ahead of it in `*`, no escape, restart or run length brings it back |
| `GdbExact.SendThenReceiveExact` | nemu/tools/qemu-diff/src/protocol.c:138-274 | receiving what was sent is the identity exactly if every byte means itself: none is `$`, `#` or `}`, and no `*` after the first byte is followed by a count |
| `GdbPacket.SendThenReceivePlain` | nemu/tools/qemu-diff/src/protocol.c:138-274 | in particular without any of `$ # } *` |

## Left out

- Kconfig trees are values: rewriting nodes in place through pointers, sharing and freeing are not captured; the loop of expr_eliminate_dups and its counter are a method.
- Kconfig expressions of kinds E_LIST and E_RANGE, and choices; a comparison with a symbol of another type, and the order of text, are arbitrary but fixed in an assignment; what strtoll reads a text as is given with the text; menu_finalize relinking of menu nodes.
- KconfigEqExact.EqExact: exact only where no connective has y or n as an operand; elsewhere soundness is proved, and EqWithConstant shows that the comparison is then coarser than operand by operand.
- KconfigDups.EliminatedDupsSound: on trees in which no tristate is tested for equality with text that is the number 0, 1 or 2; JoinAndExact gives the one rule that can be wrong there.
- KconfigTransform.TransBoolKeepsNo: TransBoolPolarity gives the condition in one direction; there is no converse in terms of where the rewritten leaves stand, because other operands can mask them.
- KconfigTransform.TransCompareNoSound: says nothing where the expression is m; TransCompareNoExact does.
- KconfigDeps: symbols that are choices or choice values, and the text of the error message.
- miniRV: `.rodata` is laid out as one assembly unit emits it; jal, call, tail and the pseudo-instructions that only rename operands are left out; operands are not sp, gp or tp except where a macro passes them.
- MiniRvBranch.Seq: for rd = s0 and rd = s1 the macro does not compute the comparison; the branches use it with rd = tp.
- MiniRvBranch.Seqz: the same for rd = s0.
- Page tables: the four-level x86_64 variant, whose kernel tables are built elsewhere; user contexts, CR3 and CR0; memory other than table pages.
- __muluw3 in longlong.h is taken to be multiplication modulo the word; the rem == NULL variants of the division and __udivdi3, __umoddi3 only drop a result.
- Cache simulator: the time counter does not wrap around at 2^64; option parsing, floating-point figures and the distribution of random victims.
- HTIF: htif_poweroff, which writes both mailboxes without the lock; memory is sequentially consistent, as the fences ask for.
- Htif.NoAssertionFires: assumes that the host sends a device 0 message only as the reply to a call it has taken, and otherwise messages of device 1 with command 0 or 1, and that calls pass a non-null argument address below 2^48; Safety and NothingOverwritten do not.
- Htif.CallGetsItsReply: under the same assumption.
- Debugger: make_token and its regular expressions; a decimal literal is its value modulo 2^32, and dividing -2^31 by -1, which C leaves undefined, counts as a failed assertion.
- GDB: sockets, acknowledgements and resending; running out of memory.
- SdbMeaning.ExprIsMeaning: sufficient only, because operators that look at truth alone can hide a wrong operand; ExprIsNested is exact.
- Configuration files, user interface, device models, interpreters of other architectures, the C library and watchpoints.
