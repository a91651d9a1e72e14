# Dafny model of Mac-on-Linux's configuration tool and boot loader

This project models the algorithmic parts of two programs of Mac-on-Linux and proves what they promise.

**The configuration tool** (`config/kconfig`). A configuration symbol is offered or hidden by a dependency
formula over the values n, m and y. The tool rewrites these formulas constantly: it pulls out constants, brings
them into negation normal form, cancels what two formulas have in common, joins duplicate operands, and replaces
contradictions. `Tristate`, `Expr` and the `Expr*` modules give the formulas and their meaning, and prove of
every rewrite what it keeps. `ExprPrint` proves that a printed formula is read back. `DepCheck` is the search for
recursive dependencies, `MenuDeps` the test that decides where a menu entry belongs, `MenuInherit` the
handing down of dependencies over the whole menu, and `MenuTree`, `MenuExact`, `MenuFinal`, `MenuWalk` and
`MenuBuild` follow the menu entries as linked objects from the parser through `menu_finalize` to the walk that
writes the configuration.

**The boot loader** (`bootx`). `Heap`, `HeapSteps` and `HeapRuns` say what the two tables of its allocator mean
and what every run of malloc and free keeps; `Zalloc` is the allocator itself, on arrays. `Cache` is the block cache,
`Extents`, `ReadExtents` and `ExtentsEntry` the reading of a file through its extents, `KeyOrder` and `BTree` the
search in the catalog and extents trees of HFS and HFS+, `DirWalk` the listing of directories, and `Utf8` the codec
for file names. `Drivers` marks the libraries of the drivers to load, `Numbers` and `Format` print and read
numbers, `PowerPc`, `Replace` and `ReplacePass` replace privileged instructions by generated code, and `Adler` is
the checksum.
`Sequences` and `Options` hold what several modules share.

Conventions. A C object whose fields are updated is a class here, an array that is updated in place is an array,
and loops are loops; each such method is proved against a specification function, and the lemmas are about that
function. Formulas are values: a `struct expr **` into a formula is a path. A boolean symbol is never m
(`config/kconfig/symbol.c:285-292`), so an assignment holds booleans for boolean symbols. "Refines" means that an
answer n or y stays, while m may become anything. A formula is "regular" if it is in negation normal form and no
operand of its && and || is a constant (`ExprExact.Regular`), and "sharp" at an assignment if there every && that
has a || among its operands is n or y, or can be y at some assignment, and likewise every || that has a && can be n
(`ExprExact.Sharp`).

Where the code and its own comments differ, the model follows the code:

- The comment at `config/kconfig/expr.c:479` turns `(a!='m') && (a!='n')` into `(a='m')`; the code yields `(a='y')`.
- The comment at `bootx/fs/HFSCompare.c:203-219` admits only the shortest encoding of a character; the decoder accepts longer
  ones (`Utf8.OverlongAccepted`); which ones is decided by their bytes (`Utf8.ShortestExactly`).
- The comment at `bootx/fs/hfs.c:709` calls the parent directory number unsigned; the code compares it as a signed long, which is
  the same order exactly when both numbers are on the same side of 2^31 (`KeyOrder.ParentOrder`).
- The comment at `bootx/fs/HFSCompare.c:221-227` gives `utf_encodestr` a buffer of bufsize bytes; the code writes its terminating NUL
  behind it exactly if some prefix of the name fills the buffer (`Utf8.EncodeStr`, `Utf8.FillsOne`).
- The comment at `bootx/fs/HFSCompare.c:265-271` gives `utf_decodestr` a buffer of bufsize bytes; for an odd size the code writes one
  byte behind it exactly if not all characters fit (`Utf8.DecodeStr`).
- The comment at `bootx/libc/zalloc.c:66` says that `malloc_init` gets the block to use; the code manages the full size,
  but starting behind the two tables, so the range ends behind that block (`Zalloc.Zalloc.MallocInit`).

## Model

| member | source | states |
|---|---|---|
| Expr.OpLaws | config/kconfig/expr.h:48-50 | min and max are commutative, associative and idempotent, and 2-x exchanges them |
| Expr.LatticeLaws | config/kconfig/expr.h:48-50 | min and max distribute over and absorb each other, with y and n as their neutral and absorbing constants |
| ExprYn.EliminateYnValue | config/kconfig/expr.c:231-312 | constant elimination keeps the value under every three-valued assignment |
| ExprYn.EliminateYnReduces | config/kconfig/expr.c:231-312 | its result holds no constant operand, and it is smaller than the input exactly when the input held one |
| ExprTransform.TransformIsNnf | config/kconfig/expr.c:626-761 | the repeated local rewriting computes the one-pass negation normal form, and terminates by a weight in which ! doubles its operand |
| ExprTransform.NnfNormal | config/kconfig/expr.c:626-761 | the normal form has ! only on non-constant symbols and compares no boolean symbol with y, m or n |
| ExprTransform.NnfValue | config/kconfig/expr.c:626-761 | pushing a sign down is exact for all three values |
| ExprTransform.TransformValue | config/kconfig/expr.c:626-761 | expr_transform keeps the value under every assignment |
| ExprTransform.TransformFixpoint | config/kconfig/expr.c:626-761 | exactly the negation normal forms are left unchanged by it, and its results are such forms |
| ExprCompare.TransCompareTwoValued | config/kconfig/expr.c:867-926 | a pushed-down comparison with y or n is never m |
| ExprCompare.TransCompareExact | config/kconfig/expr.c:867-926 | it is y exactly when the comparison holds, operands of ! being two-valued |
| ExprCompare.TransCompareNot | config/kconfig/expr.c:867-926 | under a ! the comparison is answered correctly if and only if the operand is not m |
| ExprCompare.TransCompareMod | config/kconfig/expr.c:867-926 | a && or \|\| compared with m is answered correctly if and only if it is n |
| ExprCompare.TransCompareModLiteral | config/kconfig/expr.c:867-926 | a symbol or a comparison compared with m is answered correctly |
| ExprCompare.TransBoolKeepsNotNo | config/kconfig/expr.c:317-342 | expr_trans_bool only ever lowers y to m, so "not n" is kept, when no test of a tristate symbol lies below a ! |
| ExprCompare.TransBoolCondition | config/kconfig/expr.c:317-342 | negation normal forms meet that condition, and the simplest formula that does not changes from n to m |
| ExprCompare.TransBoolTests | config/kconfig/expr.c:317-342 | no test FOO!=n of a tristate symbol is left anywhere, and a formula without one is unchanged |
| ExprCompare.DependsForces | config/kconfig/expr.c:787-814 | if expr_depends_symbol says yes, the formula is n wherever the symbol is n |
| ExprCompare.DependsForcesExactly | config/kconfig/expr.c:787-814 | this holds of a symbol if and only if it is boolean, tristate, y, m or n: a string symbol and a quoted constant each have a formula on which it fails |
| ExprCompare.DependsLiteral | config/kconfig/expr.c:787-814 | of the comparisons of a boolean or tristate symbol with y, m or n, expr_depends_symbol accepts exactly those that are n wherever the symbol is n |
| ExprCompare.DependsOperand | config/kconfig/expr.c:787-814 | a formula depends on a symbol if and only if one of its && operands does, and that is the symbol or a comparison of it |
| ExprCompare.ContainsDecides | config/kconfig/expr.c:763-785 | a formula's value depends on no symbol that expr_contains_symbol does not find in it |
| ExprCanon.CleanEliminate | config/kconfig/expr.c:231-312 | constant elimination keeps the operand multiset of a formula and leaves the neutral constant exactly when it is empty |
| ExprPath.PutValue | config/kconfig/expr.c:494-624 | any operand can be pulled out of a chain, the neutral constant put in its place |
| ExprPath.GetBounds | config/kconfig/expr.c:546-597 | every operand bounds the chain it stands in |
| ExprPath.PutJoin | config/kconfig/expr.c:494-541 | two operands of a chain may be replaced by the neutral constant and their join |
| ExprPath.PutUnreduced | config/kconfig/expr.c:602-624 | a round that rewrote something left a constant operand behind, so the constant elimination that follows shrinks the formula |
| ExprJoin.JoinRuleValue | config/kconfig/expr.c:346-492 | every rule that joins two operands of && or \|\| is exact for all three values |
| ExprJoin.JoinTristate | config/kconfig/expr.c:376-481 | two different comparisons of a tristate symbol with constants are joined to the right one, in either order, and so is the symbol with =y and !=n |
| ExprJoin.JoinBoolean | config/kconfig/expr.c:392-398 | a boolean symbol and its negation are joined to y under \|\| |
| ExprCancel.SplitsTwice | config/kconfig/expr.c:133-164 | common factors taken out one after the other form one common factor |
| ExprCancel.OpsCancelledFork | config/kconfig/expr.c:133-164 | cancelling the operands of a chain one by one removes the multiset intersection |
| ExprCancel.CancelDecides | config/kconfig/expr.c:191-229 | what is left after cancelling is one and the same symbol exactly when nothing is left on either side |
| ExprCancel.CancelledToYes | config/kconfig/expr.c:166-189 | both rounds of cancelling leave y of the second formula exactly if all its && operands are && operands of the first one, which is a && |
| ExprCancel.CancelsItself | config/kconfig/expr.c:166-189 | so a formula other than y cancels against itself exactly if it is a &&; two equal \|\| are not recognised |
| ExprDups.ContradictionSound | config/kconfig/expr.c:546-597 | replacing an operand whose negation is found elsewhere refines the formula, and is exact if and only if its value is not m |
| ExprDups.TwoValuedExact | config/kconfig/expr.c:602-624 | a refinement is equality under every assignment that gives no leaf m |
| ExprDups.JoinSound | config/kconfig/expr.c:494-541 | joining two operands in place keeps value and shape, does not grow the formula, and leaves a constant behind |
| ExprExact.SharpAbsorbed | config/kconfig/expr.c:546-597 | replacing an operand whose negation is found keeps every answer, also m, at every assignment where the formula is sharp: no && or \|\| with a dual chain among its operands is m there without being able to be y, or n |
| ExprExact.SharpJoin | config/kconfig/expr.c:494-541 | joining two operands keeps a formula sharp |
| ExprExact.SharpEliminate | config/kconfig/expr.c:231-312 | constant elimination keeps a formula sharp |
| ExprExact.ContradictionFound | config/kconfig/expr.c:546-597 | a contradiction is found in a regular formula only if there is one |
| ExprEngine.Engine.ExprEq | config/kconfig/expr.c:191-229 | yes only for formulas equal under every assignment; on formulas without constant operands, yes exactly if they are equal up to order and grouping |
| ExprEngine.Engine.EliminateEqRec | config/kconfig/expr.c:133-164 | some c was taken out of both formulas; exactly the common operands are gone; no formula grows; the rewrite count is unchanged only if nothing changed |
| ExprEngine.Engine.EliminateEqBoth | config/kconfig/expr.c:166-189 | both formulas are what is left of them with the same removed factors put back; on tidy formulas the second one is left as y exactly if it cancels |
| ExprEngine.Engine.EliminateEq | config/kconfig/expr.c:166-189 | the same, NULL formulas being left alone |
| ExprEngine.Engine.ExtractEqRec | config/kconfig/expr.c:838-865 | the factor collected is the factor taken out of both, and consists of exactly the common operands |
| ExprEngine.Engine.ExtractEq | config/kconfig/expr.c:816-836 | the common factor and the two rests, unchanged if there is no common operand |
| ExprEngine.Engine.Join | config/kconfig/expr.c:346-492 | the joined formula has the value of both operands together under all three-valued assignments; which pairs join is decided by the rule table |
| ExprEngine.Engine.Dups1 | config/kconfig/expr.c:494-541 | duplicate joining through two pointers into one formula, aliased or not, keeps the value exactly; on regular formulas it rewrites nothing if and only if no two operands join |
| ExprEngine.Engine.Dups2 | config/kconfig/expr.c:546-597 | contradiction replacement keeps every n or y answer, and m where the formula is sharp; on regular formulas it rewrites nothing if and only if there is no contradiction |
| ExprEngine.Engine.Dups2Operand | config/kconfig/expr.c:551-595 | the same for an operand that is itself a chain |
| ExprEngine.Engine.EliminateDups | config/kconfig/expr.c:602-624 | the loop terminates, keeps every n or y answer and, where the formula is sharp, m; it keeps negation normal form, does not grow the formula, restores the rewrite count, and its result is free of duplicates and contradictions at every level; a formula that is no chain, or a regular one free of both, is returned as it is |
| MenuDeps.Visible | config/kconfig/menu.c:190-192 | the simplified formula "not n" has the value of the pushed-down comparison under every assignment, is regular if that is, and is the very formula if there is nothing to simplify |
| MenuDeps.TestRegular | config/kconfig/menu.c:190-192 | the test is regular if no boolean symbol is compared with m |
| MenuDeps.BelongsBelow | config/kconfig/menu.c:190-209 | an entry belongs below a symbol if and only if it mentions it and either depends on it or the && operands of the test of the prompt are && operands of its own test; without a condition on the prompt, if and only if it mentions it; it is then invisible wherever the symbol is n or, where the tests are exact, wherever the prompt is invisible |
| MenuDeps.Inherit | config/kconfig/menu.c:163-166 | the dependency stored for an entry says n or y wherever the condition above and its own together do, and m where their conjunction is sharp; it is free of duplicates and contradictions, the conjunction itself if there is nothing to simplify, and stays in negation normal form |
| MenuDeps.InheritProperty | config/kconfig/menu.c:174-179 | the visibility stored for a property is n wherever the conditions are n and not n wherever they are y, for every type of symbol, and m where their conjunction is m and sharp; for a tristate symbol or none, or while no symbol is m, it also keeps the y; for a tristate symbol or none it is free of duplicates, for another one free of tests FOO!=n |
| MenuDeps.StoredAnswers | config/kconfig/menu.c:177-179 | all n and y answers are kept by the last step if and only if the entry has a tristate symbol or none: FOO!=n becomes FOO |
| MenuDeps.StoredDupFree | config/kconfig/menu.c:177-179 | freedom from duplicates is kept by the last step if and only if the entry has a tristate symbol or none: FOO \|\| FOO!=n becomes FOO \|\| FOO |
| MenuInherit.InheritAll | config/kconfig/menu.c:143-188 | every entry, at any depth, stores what is handed down from the prompt or dependency stored above it, no condition being demanded of the declared formulas |
| MenuInherit.HandedNnf | config/kconfig/menu.c:143-188 | all stored dependencies and visibilities are in negation normal form |
| MenuInherit.HandedHidesBelow | config/kconfig/menu.c:143-188 | wherever the condition of an entry is n, every dependency and visibility stored below it, at any depth, is n, down to the entries of a choice |
| MenuInherit.HandedComposed | config/kconfig/menu.c:143-188 | while nothing is m, every stored dependency is the minimum of all conditions declared on the way down to it, from the nearest choice above it on |
| MenuInherit.InheritTree | config/kconfig/menu.c:136-188 | from the root on, the whole tree gets all of this |
| ExprDups.EliminateYnNnf | config/kconfig/expr.c:231-312 | constant elimination keeps negation normal form |
| ExprJoin.JoinRuleNnf | config/kconfig/expr.c:346-492 | no joining rule leaves negation normal form |
| ExprPrint.PrintParse | config/kconfig/expr.c:969-1065 | parsing the printed tokens gives the formula back up to the grouping of && and \|\| chains, with the same value |
| ExprPrint.PrintParseExact | config/kconfig/expr.c:969-1065 | it gives back the very same tree if and only if all chains were grouped to the left |
| ExprPrint.ReadLevel | config/kconfig/zconf-y.c:1789-1822 | what expr_print prints inside a weaker operator is read by the grammar level of that operator |
| ExprPrint.PrintInjective | config/kconfig/expr.c:1001-1065 | two formulas print alike if and only if they differ in grouping only |
| ExprPrint.Precedence | config/kconfig/zconf-y.c:1789-1822 | && binds tighter than \|\|, ! tighter than both, parentheses tightest, and chains group to the left |
| ExprPrint.RegroupValue | config/kconfig/zconf-y.c:1789-1822 | regrouping keeps the value |
| DepCheck.CycleIsRecursive | config/kconfig/symbol.c:675-739 | the dependency graph has a cycle if and only if a path from some symbol runs into one |
| DepCheck.DepsExactly | config/kconfig/symbol.c:675-739 | the edges are exactly the symbols contained in the reverse dependency, in a visibility, or in a default of a symbol that is no choice, properties listing choice values aside |
| DepCheck.DepChecker.CheckExprDeps | config/kconfig/symbol.c:675-703 | finds a recursion exactly when a symbol of the formula runs into a cycle |
| DepCheck.DepChecker.CheckDeps | config/kconfig/symbol.c:705-739 | the flag-marked search terminates, marks the symbol as checked, finds a recursion exactly when there is one, and marks a symbol newly only if it runs into none |
| DepCheck.DepChecker.CheckEntry | config/kconfig/symbol.c:705-739 | the edges of a symbol are searched, all of them unless a recursion is found |
| DepCheck.DepChecker.CheckAll | config/kconfig/zconf-y.c:2127-2132 | every symbol gets checked, and something is reported if and only if the dependency graph has a cycle |
| MenuTree.FinalOrder | config/kconfig/menu.c:136-256 | menu_finalize keeps the preorder of the entries, for all answers of its dependency tests |
| MenuTree.FinalTidied | config/kconfig/menu.c:221-255 | below a finalized entry only entries with a prompt text have entries below them |
| MenuTree.FinalLeaves | config/kconfig/menu.c:189-220 | entries move below a symbol without a list only, from directly after it, up to the first entry the tests keep out; the rest is untouched |
| MenuTree.FinalFixed | config/kconfig/menu.c:136-256 | a tidy menu in which the tests move nothing stays as it is |
| MenuExact.FinalListRun | config/kconfig/menu.c:136-256 | what menu_finalize leaves of a list is a grouping at every depth, dissolved: each symbol declared without a list gets below it the longest run of entries accepted for it and nothing else, every other entry its list; then untitled entries give up what is below them |
| MenuExact.FinalExactly | config/kconfig/menu.c:136-256 | every grouping of a list, dissolved, is what menu_finalize leaves, so there is one way only |
| MenuExact.FinalExactlyOne | config/kconfig/menu.c:136-256 | the same for what one entry gets below it and what stays after it |
| MenuExact.HoistUnder | config/kconfig/menu.c:221-256 | when untitled entries give up their lists, every titled entry keeps exactly what was below it |
| MenuFinal.MenuFinalize | config/kconfig/menu.c:136-256 | the next, list and parent links come to spell out the finalized forest, every entry of a list having the entry above it as parent |
| MenuFinal.FinalizeList | config/kconfig/menu.c:187-188 | the entries of a list are finalized one after the other, each changing only itself and what follows it |
| MenuFinal.StealNext | config/kconfig/menu.c:189-220 | the entries judged to belong below are cut out of the list and become the symbol's list |
| MenuFinal.HoistList | config/kconfig/menu.c:221-256 | the splicing loop, which also visits the entries it splices in, computes the hoisted list |
| MenuFinal.HoistEntry | config/kconfig/menu.c:246-255 | the entries below an untitled one get its parent and stand between it and the next entry |
| MenuWalk.Climb | config/kconfig/confdata.c:406-411 | climbing by parent links finds the next entry in preorder |
| MenuWalk.NextEntry | config/kconfig/confdata.c:399-411 | one step of the stackless walk goes to the next entry in preorder |
| MenuWalk.Walk | config/kconfig/confdata.c:309-412 | the walk visits every entry below the root exactly once, in preorder |
| MenuBuild.Link | config/kconfig/menu.c:36-38 | a store through the pointer to a list or next field appends to the current list |
| MenuBuild.MenuBuilder.constructor | config/kconfig/menu.c:19-23 | an empty menu with the root as the current one |
| MenuBuild.MenuBuilder.AddEntry | config/kconfig/menu.c:25-39 | the new entry is the last one declared and the last one of the current menu |
| MenuBuild.MenuBuilder.AddMenu | config/kconfig/menu.c:45-49 | the entry just added becomes the current menu; the order is kept |
| MenuBuild.MenuBuilder.EndMenu | config/kconfig/menu.c:51-55 | the menu around it becomes current again; the order is kept |
| MenuBuild.MenuBuilder.FinalizeAndWrite | config/kconfig/zconf-y.c:2124-2126 | after any sequence of declarations and any answers of the tests, the links spell out the one grouping of the declared entries, dissolved, and the writing walk visits every entry once, in the order of declaration |
| Heap.CountBound | bootx/libc/zalloc.c:38-84 | with no two free blocks adjacent, there is at most one more free block than allocated ones |
| Heap.FreeSorted | bootx/libc/zalloc.c:133-196 | the free blocks of a layout come in order of address |
| HeapSteps.AllocateKeeps | bootx/libc/zalloc.c:91-131 | malloc keeps the tables consistent with a tiling of the managed range |
| HeapSteps.ReleaseKeeps | bootx/libc/zalloc.c:133-196 | free keeps them so, merging with both neighbours |
| HeapSteps.ConsistentBounds | bootx/libc/zalloc.c:67-256 | consistent tables are within bounds, sorted, in range, and no free block touches the next |
| HeapSteps.UsedDisjoint | bootx/libc/zalloc.c:91-131 | allocated blocks never overlap |
| HeapSteps.FreeUsedDisjoint | bootx/libc/zalloc.c:91-196 | no free block overlaps an allocated one |
| HeapRuns.RunConsistent | bootx/libc/zalloc.c:67-256 | every run of legal requests keeps the tables consistent |
| HeapRuns.RunPromises | bootx/libc/zalloc.c:67-256 | from initialisation on, after every run: a tiling without overlap, sorted free blocks that never touch, at most one more free than allocated block |
| HeapRuns.AllocateFails | bootx/libc/zalloc.c:91-131 | malloc fails if and only if no free block is large enough, and else takes the front of the lowest one that is |
| HeapRuns.AllocateFresh | bootx/libc/zalloc.c:91-131 | the block handed out lies in the managed range and overlaps no block handed out before |
| HeapRuns.AllocateRelease | bootx/libc/zalloc.c:91-196 | free right after malloc restores both tables exactly |
| HeapRuns.ReleaseExactly | bootx/libc/zalloc.c:133-162 | free takes exactly the block at the address off the allocated ones, whichever it is |
| HeapRuns.ReleaseUnknown | bootx/libc/zalloc.c:133-162 | an address that was not handed out changes nothing |
| HeapRuns.AllocateExactly | bootx/libc/zalloc.c:91-131 | malloc adds exactly the block handed out to the allocated ones, or changes nothing |
| HeapRuns.EveryAddress | bootx/libc/zalloc.c:67-256 | every address of the managed range is free if and only if it is not allocated |
| HeapRuns.RoundUpRoom | bootx/libc/zalloc.c:103 | rounding a request up leaves room for it if and only if it does not wrap around 2^32 |
| HeapRuns.ZeroRequest | bootx/libc/zalloc.c:91-131 | a request for nothing gets an address that the next one gets too, so requests must be positive |
| Zalloc.Zalloc.MallocInit | bootx/libc/zalloc.c:67-84 | one free block of the full size behind the two tables |
| Zalloc.Zalloc.ZInsert | bootx/libc/zalloc.c:209-224 | the entries from the index on move up by one, the last one is dropped |
| Zalloc.Zalloc.ZDelete | bootx/libc/zalloc.c:226-239 | the entries behind the index move down by one |
| Zalloc.Zalloc.Malloc | bootx/libc/zalloc.c:91-131 | the arrays come to hold what first-fit allocation gives; 0 on failure, with the error handler called |
| Zalloc.Zalloc.ZCoalesce | bootx/libc/zalloc.c:242-256 | the first touching pair of free blocks is merged |
| Zalloc.Zalloc.Free | bootx/libc/zalloc.c:133-162 | the arrays come to hold what release gives; an address not handed out is ignored |
| Zalloc.Zalloc.FreeBlock | bootx/libc/zalloc.c:164-195 | the merging cases and the final coalescing together put the block into its place, merged with the neighbours it touches |
| Zalloc.LastRoom | bootx/libc/zalloc.c:190-193 | the write behind the last entry of the free table is always inside the table |
| Cache.HoldsLastUsed | bootx/fs/cache.c:76-140 | the least-recently-used order holds exactly the keys used last, as many as fit |
| Cache.LastUseOrder | bootx/fs/cache.c:76-140 | that order is of all keys ever used, the one whose last use is longer ago first |
| Cache.BlockCache.CacheInit | bootx/fs/cache.c:56-74 | an empty cache for the device, or no change at all for a block size out of range |
| Cache.BlockCache.Lookup | bootx/fs/cache.c:84-91 | finds the live entry of the offset if and only if there is one |
| Cache.BlockCache.Victim | bootx/fs/cache.c:111-129 | a free entry if there is one, else the entry used least recently |
| Cache.BlockCache.CacheRead | bootx/fs/cache.c:76-140 | the caller gets the disk's bytes; entries stay faithful to the disk and unique; the order, hit, miss and eviction counts change as a least-recently-used cache's do |
| Cache.BlockCache.RunOne | bootx/fs/cache.c:56-140 | what one initialisation, effective or not, or one read of any device changes |
| Cache.BlockCache.RunAll | bootx/fs/cache.c:56-140 | over every run of initialisations and reads of any devices, each read returns its device's bytes, hits plus misses equal the reads with the cache flag since the last effective initialisation, and the cache holds the blocks used last since then |
| Extents.HoldsOnce | bootx/fs/hfs.c:593-672 | a block of a fork lies in one extent at most, also with zero-length extents |
| Extents.ByteInExtent | bootx/fs/hfs.c:653-662 | inside one extent the bytes of a fork are consecutive on the disk |
| ReadExtents.Volume.FindExtent | bootx/fs/hfs.c:616-651 | the extent walk terminates at the extent that holds the block, each overflow record on the way being looked up once |
| ReadExtents.Volume.NextPiece | bootx/fs/hfs.c:653-659 | each piece is not empty, stays within the request and is the next part of the fork |
| ReadExtents.Volume.ReadExtent | bootx/fs/hfs.c:593-672 | delivers exactly the bytes [offset, offset + size) of the fork when its extents, inline and filed in the extents tree, cover them; nothing beyond the end |
| ExtentsEntry.ReadExtentsEntry | bootx/fs/hfs.c:431-449 | fetches the record that continues the fork; without one the buffer keeps what it held |
| ExtentsEntry.ReadNeeded | bootx/fs/hfs.c:635-639 | a record filed in a well-formed tree is fetched, its key never being below the first one |
| KeyOrder.FastRelString | bootx/fs/HFSCompare.c:51-127 | the comparison is lexicographic order on the mapped bytes |
| KeyOrder.LexLess | bootx/fs/HFSCompare.c:51-127 | lexicographically smaller means a proper beginning, or smaller at the first difference |
| KeyOrder.NextChar | bootx/fs/HFSCompare.c:171-186 | the next character that is not ignorable, folded |
| KeyOrder.FastUnicodeCompare | bootx/fs/HFSCompare.c:160-199 | the comparison is lexicographic order on the folded names with ignorable characters removed |
| KeyOrder.FoldedSnoc | bootx/fs/HFSCompare.c:160-199 | every character of a name counts as the table folds it, and not at all if that is 0 |
| KeyOrder.CompareHFSCatalogKeys | bootx/fs/hfs.c:698-718 | parent directory first, then the name, in lexicographic order |
| KeyOrder.CompareHFSPlusCatalogKeys | bootx/fs/hfs.c:720-746 | the same for Unicode names, an empty name being below all others |
| KeyOrder.CompareExtentsKeys | bootx/fs/hfs.c:748-814 | file, fork and start block in lexicographic order |
| KeyOrder.HFSOrder | bootx/fs/hfs.c:698-718 | a key is below another one if and only if its parent is, or the parents agree and its name is |
| KeyOrder.HFSPlusOrder | bootx/fs/hfs.c:720-746 | the same for Unicode names, an empty name being below all others |
| KeyOrder.ExtentOrder | bootx/fs/hfs.c:748-814 | the file decides, then the fork, then the start block |
| KeyOrder.ComparePreorder | bootx/fs/hfs.c:698-814 | every comparator is a total preorder |
| KeyOrder.CompareEqual | bootx/fs/hfs.c:720-746 | catalog keys are equal if and only if parent and folded name agree and both names or none are empty |
| KeyOrder.ParentOrder | bootx/fs/hfs.c:706-711 | parent numbers compared as longs are in the order of the unsigned numbers if and only if both or neither are below 2^31 |
| KeyOrder.ParentOrderDiffers | bootx/fs/hfs.c:706-711 | 2^31 is taken to be below 2 |
| BTree.SearchNode | bootx/fs/hfs.c:503-532 | the binary search ends at the last key not above the one searched, and at -1 if and only if that is below the first key |
| BTree.DescentFinds | bootx/fs/hfs.c:535-537 | the record searched, if it exists, is below the child descended to |
| BTree.RecordOnce | bootx/fs/hfs.c:451-574 | at most one record of a well-formed tree has an equal key |
| BTree.RecordNotBelow | bootx/fs/hfs.c:451-574 | the key of no record is below the first key of the tree |
| BTree.ReadBTreeEntry | bootx/fs/hfs.c:451-574 | returns the data of the leaf record whose key compares equal if there is one and fails if there is none; the directory index names the record behind it |
| DirWalk.GetCatalogEntry | bootx/fs/hfs.c:350-402 | delivers the record that a directory index names, and the index of the record behind it, in the same or the next leaf |
| DirWalk.HFSGetDirEntry | bootx/fs/hfs.c:192-219 | delivers the records of the leaf chain one after the other, and -1 behind the last one or at a record that is neither folder nor file |
| DirWalk.ListDir | bootx/fs/fs.c:116-132 | the loop of a caller gets exactly the records from the one the index names up to the first that is neither folder nor file, in order |
| DirWalk.FoundNext | bootx/fs/hfs.c:561-569 | the directory index delivered with a record names the record behind it in the leaf chain |
| Drivers.ClosureUnique | bootx/main/drivers.c:477-512 | the least closed set containing the marked modules is unique |
| Drivers.NeedsExactly | bootx/main/drivers.c:486-500 | a module needs exactly the modules that are the first ones with an identifier it lists as a library |
| Drivers.ModuleList.MarkLibrary | bootx/main/drivers.c:492-500 | marks the first module with the name if it is not marked yet, and changes nothing else |
| Drivers.SweepProcesses | bootx/main/drivers.c:484-508 | a sweep processes every module that is marked when it comes to it, and so every one marked before |
| Drivers.ModuleList.Sweep | bootx/main/drivers.c:484-508 | the marks after a sweep are those of visiting the modules in order; it is the last one only if none was left to process |
| Drivers.ModuleList.MatchLibraries | bootx/main/drivers.c:477-512 | terminates with exactly the least set marked that contains the marked modules and the first module named by each library of a marked one |
| Utf8.DecodeEncode | bootx/fs/HFSCompare.c:228-328 | decoding inverts encoding on every name without NUL, also with the terminator behind it, in the forms of section 3 of RFC 3629 |
| Utf8.RoundTrip | bootx/fs/HFSCompare.c:228-328 | utf_decodestr of what utf_encodestr wrote is the longest prefix that fits in the buffer, the whole name if it fits |
| Utf8.EncodeInjective | bootx/fs/HFSCompare.c:228-271 | different names without NUL have different encodings |
| Utf8.EncodeForms | bootx/fs/HFSCompare.c:228-271 | the ranges of the one, two or three bytes of a character, and how they add up to it |
| Utf8.OverlongAccepted | bootx/fs/HFSCompare.c:273-328 | the decoder accepts an encoding longer than the shortest one: c1 81 for A |
| Utf8.ShortestExactly | bootx/fs/HFSCompare.c:273-328 | of all sequences the decoder accepts, exactly those with a two-byte lead from c2 on, and a second byte from a0 on behind the lead e0, are what the encoder writes |
| Utf8.EncodeStr | bootx/fs/HFSCompare.c:228-271 | writes the encoding of the longest prefix that fits and never a part of a character; the terminator goes behind the buffer if and only if some prefix fills it exactly |
| Utf8.FillsExactly | bootx/fs/HFSCompare.c:228-271 | the prefix at which the encoder stops fills the buffer if and only if some prefix does |
| Utf8.FillsOne | bootx/fs/HFSCompare.c:228-271 | the name A fills a buffer of one byte |
| Utf8.DecodeStr | bootx/fs/HFSCompare.c:273-328 | writes as many of the decoded characters as fit and reads no byte behind the terminator; the second byte of the last one goes behind the buffer if and only if its size is odd and the characters do not all fit |
| Utf8.ReadChar | bootx/fs/HFSCompare.c:284-320 | one turn of the decoder reads one character, or stops at the end or a malformed sequence |
| Numbers.DigitsValue | bootx/libc/vsprintf.c:82-93 | the digits of a number have its value, in every base |
| Numbers.PrintedLength | bootx/libc/vsprintf.c:48-120 | the output is as long as the width, or as sign, prefix and the larger of precision and digits need |
| Numbers.PrintedMarks | bootx/libc/vsprintf.c:48-120 | a minus, a plus, 0x and blanks before, behind or anywhere in the output show if and only if sign, value, flags and width ask for them, and letters have the case asked for |
| Numbers.ReadPrinted | bootx/libc/vsprintf.c:48-120 | for every base from 2 to 36, every 32-bit number, width, precision and mix of flags, the value read from the output is the number, or without a sign its 32-bit pattern as far as that is a long; only blanks are behind the end |
| Numbers.ReadForm | bootx/libc/strtol.c:114-198 | blanks, a sign, and digits of the base, or with 0x, 0b, a leading 0 or none of these when the base is to be detected, are read as their clamped value up to their end |
| Format.Number | bootx/libc/vsprintf.c:48-120 | the loops write blanks, sign, prefix, zeros, digits and blanks as specified; no text for a base out of range |
| Format.DigitLoop | bootx/libc/vsprintf.c:82-93 | the digit loop produces the digits in reverse |
| Format.Strtol | bootx/libc/strtol.c:114-198 | the digit value clamped to the range of a long, and the end of the number, or the start if there is no digit |
| Format.Accumulate | bootx/libc/strtol.c:170-190 | the overflow test trips exactly when the value exceeds the limit, and never lets an intermediate value exceed it |
| Format.Cutoff | bootx/libc/strtol.c:170-183 | comparing with quotient and remainder of the limit decides whether the next value exceeds it |
| Format.RoundTrip | bootx/libc/strtol.c:114-198 | strtol of the number printed is the number, in the same base; without a sign its 32-bit pattern as far as that is a long |
| Replace.HiAlgAdds | bootx/accel/mol.c:111-116 | the adjusted upper half and the sign-extended lower half add up to the address |
| Replace.BranchOffset | bootx/accel/mol.c:106-107 | a generated branch goes to its target if and only if the distance is a multiple of 4 below 2^25 forwards or up to 2^25 backwards |
| Replace.BranchMisses | bootx/accel/mol.c:106-107 | a branch from 0 to 0x02000000 goes to 0xfe000000 |
| Replace.ReplacedRead | bootx/accel/mol.c:143-158 | executing the patched branch and the generated code loads the word into the destination, changes no other register and no memory, and resumes behind the instruction |
| ReplacePass.LookupInst | bootx/accel/mol.c:320-357 | the table search gives the action of the first row that matches |
| ReplacePass.LookupEncoded | bootx/accel/mol.c:187-254 | every mfmsr, mfsr and supported mfspr is found with its register and the word kept for it |
| ReplacePass.LookupMeans | bootx/accel/mol.c:301-357 | nothing else is replaced by a load, and the load is of the right word into the right register |
| ReplacePass.LookupWrite | bootx/accel/mol.c:208-292 | every mtmsr, mtsr, supported mtspr and rfi gets the stub for it, which is told the register, or for mtsr the instruction |
| ReplacePass.LookupStubs | bootx/accel/mol.c:301-357 | nothing else gets a stub |
| ReplacePass.StubTells | bootx/accel/mol.c:256-293 | what a stub is told says which instruction it stands for |
| ReplacePass.LookupDropped | bootx/accel/mol.c:294-315 | exactly eieio and tlbie are dropped |
| ReplacePass.LookupDec | bootx/accel/mol.c:246-249 | exactly the reading of the decrementer is replaced by code that has it updated first |
| ReplacePass.ElementNext | bootx/accel/mol.c:203 | the words kept for the registers of an array follow each other |
| ReplacePass.GeneratedCounted | bootx/accel/mol.c:381-418 | the real pass generates no more words for an instruction than the dry run counted |
| ReplacePass.DryRun | bootx/accel/mol.c:381-418 | counts the words to be generated and changes nothing but the instructions to be dropped |
| ReplacePass.WriteMregsRead | bootx/accel/mol.c:143-158 | writes the load sequence and nothing before it |
| ReplacePass.WriteMfdec | bootx/accel/mol.c:160-182 | writes the decrementer sequence, or reports 0 if there is no stub |
| ReplacePass.InstReplacements | bootx/accel/mol.c:359-420 | both passes stay inside the buffer sized by the dry run, and leave every instruction unchanged, dropped, branching to its stub, or branching to its generated code |
| ReplacePass.PatchedLoads | bootx/accel/mol.c:359-420 | after both passes a supported instruction still does what it did, by a load from the register file |
| ReplacePass.DecToStub | bootx/accel/mol.c:160-182 | the generated code for the decrementer goes to the stub with nothing changed but the register |
| ReplacePass.DecFromStub | bootx/accel/mol.c:160-182 | back from the stub it loads the word then kept for the decrementer and resumes |
| ReplacePass.PatchedDec | bootx/accel/mol.c:359-420 | after both passes a read of the decrementer asks the stub for the update, tells it where it was branched from, and then loads the updated word |
| Adler.Alder32 | bootx/main/util.c:30-55 | the checksum with reductions every 5000 bytes is the byte-by-byte one of sections 2.2 and 8.2 of RFC 1950, and no 32-bit sum overflows |
| Adler.ClosedForm | bootx/main/util.c:30-55 | the halves are 1 plus the sum of the bytes, and the number of bytes plus the sum weighted by the distance from the end, modulo 65521 |

## Left out

- E_CHOICE, E_RANGE and E_NONE formulas, memory release and warnings in `config/kconfig/expr.c`; formulas are values, so sharing of nodes between formulas is not captured, only two pointers into the same formula.
- The text of a quoted constant when printed: tokens are compared, not characters. The scanner and the parser tables of the grammar; the expression grammar is a parser by precedence.
- MenuDeps.BelongsBelow: where a boolean symbol is compared with m, the tests may hold constants, and then only the two implications and the case of a prompt without condition are stated.
- MenuTree.FinalOrder: the dependency tests are arbitrary answers there; what an answer of the code means is the contract of `MenuDeps.BelongsBelow`. choice values and the reverse dependencies built on the way are not modelled.
- MenuInherit.InheritTree: the conditions are values in the declared tree, apart from the links of `MenuFinal`; the entries of a list are handled one by one, each with those below it, where the code first handles the list. Whether a symbol is tristate is given, and a type that a choice entry gets on the way is not followed. The entries of a choice depend on its symbol, not on its prompt.
- MenuWalk.Walk: which symbols are written and in what syntax; the model gives the entries visited.
- Symbol value calculation, ranges and user input in `config/kconfig/symbol.c`, reading of configuration files, and all user interfaces.
- `realloc` in `bootx/libc/zalloc.c`, the bytes of the blocks, and the memory the tables themselves occupy. A request for 0 bytes and one with a full allocated table are excluded by the callers' duty (`HeapRuns.ZeroRequest` says why).
- Zalloc.Zalloc.Malloc: calling the error handler is a flag in the result; what the handler does is not modelled.
- Cache.BlockCache.CacheRead: the clock and counters are unbounded integers; the handle 0, which marks free entries, is excluded.
- BTree.ReadBTreeEntry: a search key below the first key of a tree with index nodes is excluded: there, and only there, the search of the root ends at index -1 (`BTree.SearchNode`), and the code reads a record with that index. The bytes of a node are given as keys and records, not decoded; the catalog lookup by path is not modelled.
- KeyOrder.FastUnicodeCompare: the folding table is an arbitrary function with 0 for ignorable characters.
- ReadExtents.Volume.ReadExtent: the code ignores that a record is missing; the theorem is about forks whose needed records are filed. The product of block and block size at `bootx/fs/hfs.c:653-654` is formed in 32 bits by the code and is unbounded here, and so are the 16-bit fields of HFS extents.
- Drivers.ModuleList.MatchLibraries: module lists and dictionaries are given; parsing and loading of drivers is not modelled.
- Format.Number: the conversion specifications of vsprintf around it.
- ReplacePass.InstReplacements: the stubs, the decrementer update behind a stub and cache flushing are foreign; a stub is an arbitrary address. `Replace.ReplacedRead` needs the branches to be in range, which the code does not test.
- `src/drivers/dbdma.c`, `bootx/fs/ext2fs.c`, the emulator core, devices and everything that only passes data on.
