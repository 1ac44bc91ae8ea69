# Proofs about the configuration tools, the ownership tracker and the page-fragment simulator

This project models the parts of the repository whose correctness is hardest to see from reading one function, and
proves what they promise: the Kconfig expression simplifier and everything that is built on it (`scripts/config`),
the receive-buffer ownership tracker (`tools/rxown.c`), the page-fragment cache and its replay simulator
(`simulator /pagefrag_sim.py`), and the digest program (`scripts/mkhash.c`).

`dafny verify dfyconfig.toml` checks all of it.

## What is modelled

**Expressions.** `Expr` holds the three-valued logic n < m < y and the meaning of an expression under a valuation of
its symbols: bool symbols never take m, and the string of a bool or tristate symbol is the name of its tristate. Where
two constants are compared with one symbol, the results assume that the expression is plain: no tristate symbol equals
another constant than y, m or n that it is compared with. `Equality`, `Dups` and `Transform` are the rewriting steps of
`expr.c` on trees, with their counters, and `UpToOrder` says which expressions compare equal. `expr_eliminate_dups1`
gets the same tree as both arguments; a slot of that tree is therefore named by its path from the root, and the pointer
comparison becomes the comparison of two paths. `Simplifier` is the same work done in place, on one tree with the
global `trans_count`, and refines those functions. `SupersetTest` says for which values the test for automatic submenus
is right. `PrintParse` is the printer together with the grammar's expression rules. `Conditions` is what
`menu_finalize` does to conditions on the way down the tree.

**Menus and symbols.** `MenuTree` has the menu nodes as objects with `next`, `list` and `parent`, and a ghost tree that
the links stand for, and a recursive definition of the tree that finalizing ends with; `MenuWalk` has the two walks
that follow the links without recursion. `SymCheck` is the search for recursive dependencies with its two flag bits,
its stack and the loops it prints. `MacroModel` says what a string expands to under a table of variables whose
expansions in progress are counted, `MacroReferences` what a reference in it means, and `MacroExpander` is the expander
with its cursors and counters. `DotConfig` writes values as lines of a .config file and reads them back.

**Ownership tracker.** `RxOwnModel` defines every number the tracker keeps as a sum over the live records, `RxOwnSteps`
proves for each kind of change that the numbers agree again, `RxOwnRuns` says of a whole run which buffers may be
posted on the way, `RxOwnExact` what each of its steps does and what follows for a buffer from its allocation on, and
`RxOwn` has the probe handlers as methods on one object. Each handler's locked section is one step. What an entry
handler leaves for its return handler is a value, and a run is any sequence of steps, so that calls overlap in every
possible way. A new record's generation is drawn in a step of its own, before the lock. The ring, caller and page
tables are fields of that object, indexed by slot or by page.

**Page fragments.** `PageFrag` defines the allocator and the cache on values and proves their invariants for any number
of caches; `PageFragCache` has the two classes, updated in place, and refines it. `ReplayModel` and `Replay` are the
replay of events with its incrementally kept aggregate, and `Placement` says which buffers share pages under which
policy; `Stream` is what makes a sequence of events replayable; `Traffic` is what the traffic of a configuration has to
be; `EventBuilder` generates such a stream; `Timeline` is the replay loop with its clock and its rows.

**Digests.** `Blocks` is folding and padding; `Md5` and `Sha256` each hold the standard's definition, the operations as
the program writes them, and the buffering context; `Sha256Constants` says where the constants come from. `Basics`
holds the few things that several files share.

The generator of the event builder, the sampled values of the tracker's table counts, built-in functions and the
environment of the macro expander, and symbol lookup by name are parameters or arbitrary values: every statement holds
for all of them.

## Results that are not what one would expect

- `expr_trans_bool` says in its comment that it rewrites comparisons of bool symbols; its code tests for tristate
  symbols. The model follows the code. On the forms it gets this keeps "not n" (`Transform.TransBoolKeepsNonN`); on
  a negated comparison it does so exactly when the symbol is not m (`Transform.TransBoolUnderNot`).
- `expr_trans_compare` reads a negation in two values: `!x` has the compared value exactly when x has not
  (`Transform.TransCompareExact`). The superset test of `menu_finalize` is therefore always sound for that reading.
  For the real values a negated m in the sibling breaks it, and only there: negations in the prompt do no harm
  (`Transform.SupersetSound`), `Transform.SupersetUnsoundUnderNegatedMod` gives a prompt and a sibling for which the
  test takes the sibling wrongly, and `SupersetTest.SupersetRightExactly` says when it does: if and only if the
  compared sibling is a conjunction that is not n in value but n when its negations are read in two values.
- `expr_join_and` makes `a="2"` of `a="2" && a!="0x2"`. A tristate symbol that is y equals both constants, as
  comparisons are by number, and then the value changes (`Dups.JoinAndExact`); for all expressions to keep their
  values it is necessary and sufficient that no tristate symbol equals a number (`Dups.EliminateDupsExactly`).
- Without `recursive_is_error` a dependency loop is printed but never returned as an error
  (`SymCheck.DependencyCheck.Sweep`, `SymCheck.SelfDependencyPasses`).

## Model

| member | source | states |
|---|---|---|
| Equality.ElimYnValue | scripts/config/expr.c:316-397 | dropping y under && and n under \|\| keeps the value under every well-typed valuation |
| Equality.ElimEq1Splits | scripts/config/expr.c:150-216 | walking two operand trees takes one common part out of both: each original is its residual combined with the same value |
| Equality.ElimEqReflectsOrder | scripts/config/expr.c:221-247 | if the residuals are ordered (or equal), so were the originals, through both phases |
| Equality.ExprEqSound | scripts/config/expr.c:249-303 | expressions that compare equal have the same value everywhere |
| Equality.ExprEqReflexive | scripts/config/expr.c:249-303 | every expression compares equal to itself, although the comparison works by elimination |
| UpToOrder.ExprEqUpToOrder | scripts/config/expr.c:249-303 | two expressions without y and n as operands compare equal if and only if they are the same up to the order and the grouping of the operands of each && and \|\|, at every depth |
| Dups.JoinOrSound | scripts/config/expr.c:431-493 | a joined operand of \|\| has the value of the two it replaces, in every well-typed valuation |
| Dups.JoinAndExact | scripts/config/expr.c:495-587 | for every two operands of && that are joined: the joined one has their value if and only if they are not an equality and an inequality of a symbol that equals both constants |
| Dups.Dups1Value | scripts/config/expr.c:596-640 | the pairwise pass over one tree given as both arguments keeps its value |
| Dups.Dups1Shrinks | scripts/config/expr.c:596-640 | a pass that counts zero changes nothing, and one that counts something leaves a leaf for `expr_eliminate_yn` to remove |
| Dups.OnePassShrinks | scripts/config/expr.c:661-686 | every round of the loop that goes on leaves a strictly smaller expression |
| Dups.EliminateDupsValue | scripts/config/expr.c:661-686 | removing duplicates does not change what a plain expression means |
| Dups.EliminateDupsExactly | scripts/config/expr.c:661-686 | removing duplicates keeps the value of all expressions if and only if no tristate symbol equals a constant other than y, m and n |
| Dups.EliminateDupsIdempotent | scripts/config/expr.c:661-686 | its result is a fixed point: nothing is left to join |
| Dups.NoDuplicatesLeft | scripts/config/expr.c:431-686 | in the result no two different operands of the top level compare equal, and no two are one of the pairs that the source joins, such as `a=y` and `a=m` of a tristate under \|\|, or `b` and `!b` of a bool |
| Simplifier.Simplifier.EliminateEq1 | scripts/config/expr.c:150-216 | the in-place walk leaves in its two slots, and adds to the counter, what the model says |
| Simplifier.Simplifier.Equal | scripts/config/expr.c:249-303 | the comparison decides equality and puts the change counter back |
| Simplifier.Simplifier.EliminateDups1 | scripts/config/expr.c:596-640 | the in-place pass computes the model's tree and advances the counter by the model's count |
| Simplifier.Simplifier.ExprJoinOr | scripts/config/expr.c:431-493 | the function joins what the model joins, of which `Dups.NoDuplicatesLeft` says that nothing is overlooked, and puts back the counter that its comparison used |
| Simplifier.Simplifier.ExprJoinAnd | scripts/config/expr.c:495-587 | the same for operands of && |
| Simplifier.Simplifier.RemoveDups | scripts/config/expr.c:661-686 | the loop ends, with the model's result and the counter restored |
| Transform.TransformValue | scripts/config/expr.c:694-849 | `expr_transform` keeps the value: De Morgan and the bool comparisons are right in three values |
| Transform.TransformNormal | scripts/config/expr.c:694-849 | its result negates only symbols other than y, m, n, and compares no bool symbol with them |
| Transform.TransformIdempotent | scripts/config/expr.c:694-849 | it fixes exactly the expressions of that form, so doing it twice is doing it once |
| Transform.TransBoolKeepsNonN | scripts/config/expr.c:399-426 | on that form `expr_trans_bool` keeps "is n" both ways and raises nothing |
| Transform.TransBoolUnderNot | scripts/config/expr.c:399-426 | under a negation it keeps "is n" if and only if the compared symbol is not m |
| Transform.TransBoolExactly | scripts/config/expr.c:399-426 | it leaves no `a!=n` of a tristate symbol, and changes nothing if and only if there is none |
| Transform.TransCompareExact | scripts/config/expr.c:922-985 | for every expression over bool and tristate symbols: comparing with y or n decides its value with every negation read in two values |
| Transform.TransCompareDecides | scripts/config/expr.c:922-985 | comparing with y or n decides whether the expression has that value, if no operand of a negation is m |
| Transform.TransCompareNegation | scripts/config/expr.c:922-985 | for a negation the comparison is right if and only if its operand is not m |
| Transform.NonNFormDecides | scripts/config/menu.c:435-469 | the comparison form of a dependency is y when the dependency is not n, and n otherwise |
| Transform.SupersetSoundAsRead | scripts/config/menu.c:454-469 | without further conditions the test is sound when negations are read in two values |
| Transform.SupersetSound | scripts/config/menu.c:454-469 | when the test succeeds under any transformed prompt, a sibling without negated m that is not n implies a prompt that is not n |
| Transform.SupersetSoundNegationFree | scripts/config/menu.c:454-469 | a sibling without negations is never taken wrongly |
| Transform.DependsSymbolSound | scripts/config/expr.c:879-920 | an absolute dependency on a symbol is n when the symbol is n |
| Transform.DependsExactly | scripts/config/expr.c:879-920 | an expression depends on a symbol if and only if one of the operands of its && is the symbol itself, the symbol compared with y or m for equality, or the symbol compared with n for inequality |
| Transform.ContainsExactly | scripts/config/expr.c:851-877 | an expression contains a symbol if and only if it mentions it, on either side of a comparison or on its own |
| Transform.NotContained | scripts/config/expr.c:851-877 | an expression that does not mention a symbol has the same value whatever the symbol is |
| Transform.AbsoluteGoes | scripts/config/menu.c:437-442 | a sibling with an absolute dependency on the symbol as an operand, the right one of && included, goes into the submenu |
| Transform.SubmenuSound | scripts/config/menu.c:440-469 | a sibling without negated m in an automatic submenu is not available while its symbol is n and the symbol's prompt is hidden |
| Transform.SupersetUnsoundUnderNegatedMod | scripts/config/menu.c:454-469 | a transformed prompt and a transformed sibling for which the test succeeds and the implication fails |
| SupersetTest.SupersetRightExactly | scripts/config/menu.c:454-469 | the test is right about a sibling under every transformed prompt if and only if the sibling is not a conjunction that is not n in value and n as read |
| PrintParse.PrintParseRoundTrip | scripts/config/expr.c:1104-1228 | reading what was printed gives the expression with its chains of && and \|\| regrouped to the left, and the same value |
| PrintParse.LeftGroupedOperands | scripts/config/parser.tab.c:1665-1707 | regrouping keeps the operands of every chain, in order |
| PrintParse.ReprintStable | scripts/config/expr.c:1104-1228 | printing the expression that was read gives the same tokens |
| PrintParse.ParenthesesNeeded | scripts/config/expr.c:1104-1228 | as many parentheses are printed as there are operands that bind less tightly than what stands above them |
| Conditions.RewriteMValue | scripts/config/menu.c:79-106 | m stands for m when modules are on and for n when they are off |
| Conditions.EliminateDupsNormal | scripts/config/expr.c:661-686 | removing duplicates keeps the form that `expr_transform` makes |
| Conditions.NarrowValue | scripts/config/menu.c:335-339 | an element's dependency becomes the smaller of its own, with m limited by MODULES, and what is around it |
| Conditions.ShownValue | scripts/config/menu.c:375-385 | a prompt is hidden exactly when its condition or its element is n; for tristate symbols the value is exact |
| MenuWalk.PropagatedNormal | scripts/config/menu.c:335-385 | every condition that the finalizing leaves on an element or a prompt is in the form that `expr_transform` makes |
| SymCheck.DependencyCheck.PrintRecursive | scripts/config/symbol.c:975-1062 | the stack entry is always found, and the printed entries are a closed chain of dependencies with their reasons |
| SymCheck.DependencyCheck.CheckExprDeps | scripts/config/symbol.c:1064-1097 | the stack and the CHECK bits are as before, and without a report every mentioned symbol is finished |
| SymCheck.DependencyCheck.CheckSymDeps | scripts/config/symbol.c:1099-1145 | all dependency edges of a symbol are followed, in order, with the reason in the stack entry |
| SymCheck.DependencyCheck.CheckDeps | scripts/config/symbol.c:1184-1216 | CHECK marks exactly the stack, the number of symbols without CHECKED falls, and a result means a report |
| SymCheck.DependencyCheck.Sweep | scripts/config/parser.tab.c:1965-1968 | a loop is printed if and only if the dependencies are cyclic, and is an error if and only if `recursive_is_error` is set too |
| SymCheck.FinishedAcyclic | scripts/config/symbol.c:1184-1216 | symbols finished in dependency order cannot form a cycle |
| SymCheck.LoopIsCycle | scripts/config/symbol.c:975-1062 | every printed loop is a cycle of the dependency graph |
| SymCheck.SelfDependencyPasses | scripts/config/symbol.c:1212-1213 | a symbol depending on itself gives no error when `recursive_is_error` is not set |
| MenuTree.Finalize | scripts/config/menu.c:285-592 | nodes keep their preorder and are finalized once each, links agree with the new tree, conditions are propagated, a symbol takes exactly the siblings the test chooses and stops at none that depends on it absolutely, and the whole resulting forest is the one defined by what the siblings offer |
| MenuTree.AutoSubmenu | scripts/config/menu.c:412-481 | the siblings taken become the list of the symbol's node with their parents set, the first one not taken does not depend absolutely on the symbol, and the rest stays as it was |
| MenuTree.Splice | scripts/config/menu.c:554-563 | the children of a node without title become its next siblings, with their new parent |
| MenuTree.Flatten | scripts/config/menu.c:485-565 | after flattening only titled nodes have children, the preorder is unchanged, and whatever hung below an untitled node follows behind it |
| MenuTree.Propagate | scripts/config/menu.c:329-385 | every child and its prompt are narrowed by the parent's dependency |
| MenuTree.Spliced | scripts/config/menu.c:554-563 | moving children behind their parent keeps the preorder and shortens what is left to do |
| MenuWalk.PropagatedWorth | scripts/config/menu.c:329-385 | along every path an element is worth the smallest condition around it, and prompts are hidden accordingly |
| MenuWalk.WalkDefconfig | scripts/config/confdata.c:854-909 | the walk ends, and visits every node but the root once, in preorder |
| MenuWalk.WalkWrite | scripts/config/confdata.c:958-1003 | the walk ends, and beginnings and ends of menus are properly nested, the root's end last |
| MenuWalk.TraceIsPreorder | scripts/config/confdata.c:958-1003 | the beginnings, in order, are the nodes in preorder |
| MenuWalk.FinalizeAndWalk | scripts/config/menu.c:285-592 | finalizing the root and walking afterwards visits the nodes in the order in which they were parsed |
| MacroModel.CloseMatches | scripts/config/preprocess.c:472-482 | the parenthesis found closes a balanced text |
| MacroModel.UnterminatedExactly | scripts/config/preprocess.c:472-485 | a reference is unterminated exactly when no prefix of the text after it closes more than is open |
| MacroModel.SplitJoined | scripts/config/preprocess.c:369-402 | the pieces of a clause, joined with commas, are the clause |
| MacroModel.ExpandStops | scripts/config/preprocess.c:498-540 | the cursor stops at the first terminator outside every matched reference, whatever the variables are |
| MacroModel.ExpandTransparent | scripts/config/preprocess.c:251-277 | counters decide whether an expansion succeeds, never its result |
| MacroModel.ExpandConcat | scripts/config/preprocess.c:498-540 | complete text expands the same whatever follows it |
| MacroModel.SelfReferenceReported | scripts/config/preprocess.c:260-262 | a variable that comes to a plain reference to itself is reported, in every table |
| MacroReferences.SplitAtTopCommas | scripts/config/preprocess.c:382-402 | a clause is split at every comma outside all parentheses and at no other |
| MacroReferences.ArgumentReference | scripts/config/preprocess.c:356-366 | `$(n)` is the n-th argument, whatever variable has the number as its name |
| MacroReferences.NameMeans | scripts/config/preprocess.c:405-437 | a name is the first variable of that name; else a built-in function, called with the texts between the commas in order; else, without arguments, the environment variable; and otherwise nothing |
| MacroReferences.FunctionReference | scripts/config/preprocess.c:251-277 | a user-defined function puts its n-th argument in the place of `$(n)` |
| MacroExpander.Preprocessor.ExpandString | scripts/config/preprocess.c:498-540 | expansion ends with the model's result or error; on success all counters are restored and the cursor is where the model stops |
| MacroExpander.Preprocessor.ExpandDollar | scripts/config/preprocess.c:456-491 | a reference is cut out up to its closing parenthesis, or reported as unterminated |
| MacroExpander.Preprocessor.EvalClause | scripts/config/preprocess.c:346-442 | argument, variable, function, environment or empty, in that order |
| MacroExpander.Preprocessor.SplitTokens | scripts/config/preprocess.c:382-402 | at most sixteen pieces, the same as the model's, or an error |
| MacroExpander.Preprocessor.ExpandVariable | scripts/config/preprocess.c:251-277 | the counter is up during the expansion and back afterwards; self-reference and depth are reported as the model says |
| MacroExpander.Preprocessor.ExpandOneToken | scripts/config/preprocess.c:562-578 | the token ends where the model stops for token characters |
| DotConfig.UnescapeEscape | scripts/config/confdata.c:253-269 | an escaped string is read back as it was, whatever follows the closing quote |
| DotConfig.EscapedSize | scripts/config/confdata.c:656-668 | the length computed beforehand is the length of what is written, terminator included |
| DotConfig.EscapeStringValue | scripts/config/confdata.c:649-689 | the buffer is filled exactly, with the escaped string and its terminator |
| DotConfig.UnescapeInPlace | scripts/config/confdata.c:257-267 | the in-place loop leaves the unescaped string in the buffer, and fails exactly when there is no closing quote |
| DotConfig.SetStringVal | scripts/config/confdata.c:251-269 | a quoted value is set to its unescaped text; an unquoted one sets nothing; an unclosed one fails |
| DotConfig.LineRoundTrip | scripts/config/confdata.c:693-716 | every value of every type is read back from the line that was written for it |
| DotConfig.OneLine | scripts/config/confdata.c:693-716 | what is written is one line |
| DotConfig.LineForm | scripts/config/confdata.c:693-716 | n is written as the comment that the symbol is not set, y and m as they are, a string in quotes with a backslash before its quotes and backslashes only, and a number as it is |
| RxOwnModel.PageCountsFit | tools/rxown.c:427-448 | no 16-bit page count can overflow |
| RxOwnModel.OwnCountsPositive | tools/rxown.c:450-547 | counts of a live record are positive, so no warning or nonzero guard can fire |
| RxOwn.Tracker.DrawGeneration | tools/rxown.c:689-699 | outside the lock a record draws a generation that was never drawn before |
| RxOwn.Tracker.NetdevAllocReturn | tools/rxown.c:678-783 | a new buffer, with any drawn generation that no record has had, is tracked exactly when there is room for it, its page exactly when that is tracked or can be; the page's history follows, and all numbers agree with the records again |
| RxOwn.Tracker.PageAdd | tools/rxown.c:427-448 | the page counts follow the new record |
| RxOwn.Tracker.TransitionPage | tools/rxown.c:517-547 | the page counts follow a change of state |
| RxOwn.Tracker.Promote | tools/rxown.c:549-578 | a buffer moves to a ring, with every count, and the ring enters the history of its page |
| RxOwn.Tracker.IdrAllocEntry | tools/rxown.c:785-846 | a call is tracked if and only if a ring has the table, or the buffer waits for a ring that has it, has none, or can get a slot; a waiting buffer is then promoted to that ring, and the call remembers the record it found there |
| RxOwn.Tracker.IdrAllocReturn | tools/rxown.c:848-911 | exactly the record that the entry of the same call saw is posted, if it is still there |
| RxOwn.Tracker.IdrRemoveEntry | tools/rxown.c:913-937 | the call is for the ring with this table, or for none |
| RxOwn.Tracker.IdrRemoveReturn | tools/rxown.c:939-986 | a posted buffer of the ring is reaped and counted, anything else stays |
| RxOwn.Tracker.SkbRelease | tools/rxown.c:988-1025 | the record loses its skb pointer and nothing else |
| RxOwn.Tracker.PageFree | tools/rxown.c:1027-1089 | the record goes, with its share of every count; releases while posted are counted as such |
| RxOwn.Tracker.PageRemove | tools/rxown.c:450-483 | the page counts follow a record that goes, and the page is forgotten with its last one |
| RxOwn.Tracker.AccountAdd | tools/rxown.c:485-498 | the byte and record accounts follow a record that enters |
| RxOwn.Tracker.AccountRemove | tools/rxown.c:500-515 | the accounts follow a record that leaves, and no guard changes anything |
| RxOwn.Tracker.SnapshotPages | tools/rxown.c:1091-1144 | the four classes are counted exactly and partition the tracked pages; the single-ring pages are counted by whether they have had a buffer of another ring or of none |
| RxOwn.Tracker.SnapshotScoped | tools/rxown.c:1091-1144 | scoped and unscoped records of a snapshot are all records |
| RxOwn.Tracker.Run | tools/rxown.c:678-1089 | after any interleaving of handlers all counters agree with the live records and the conservation laws hold, and each step on the way does to the records, the rings and the page histories exactly what the source says, given the steps before it |
| RxOwnRuns.PostedWasSeen | tools/rxown.c:785-911 | in such a run a buffer that becomes posted was found by its skb at the entry of the very call that posts it, with the same head, page, generation and ring |
| RxOwnExact.PostedAfterReturn | tools/rxown.c:785-911 | if the entry of a call found a buffer in its ring, and it is not released before the call returns an id, it is posted after the return |
| RxOwnExact.EntryFindsExactly | tools/rxown.c:800-833 | an entry finds the buffer in its ring if and only if it is there already, in the ring with the table, or waits for a ring that may have the table |
| RxOwnExact.AllocatedThenPosted | tools/rxown.c:678-911 | a buffer allocated in the scope of a ring, and entered in a table that the ring may have, ends up posted in a ring with that table, whatever other calls do meanwhile |
| RxOwnExact.ReapedAfterReturn | tools/rxown.c:913-986 | a posted buffer whose skb comes out of its ring's table is reaped when the call returns, unless it is released before |
| RxOwnExact.HistoryExactly | tools/rxown.c:427-578 | what is remembered of a page is exactly the rings that have had a buffer on it since it began to be tracked, and whether it had one of no ring or one released before it got its ring |
| PageFrag.ServeKeepsInv | simulator /pagefrag_sim.py:114-178 | a request raises exactly when it is improper, keeps the invariant of all caches, and frees no page twice |
| PageFrag.RunKeepsInv | simulator /pagefrag_sim.py:66-178 | the same over every sequence of requests on any number of caches |
| PageFrag.LiveFragmentsDisjoint | simulator /pagefrag_sim.py:114-154 | live fragments of all caches lie inside their pages and do not overlap |
| PageFrag.FreedExactly | simulator /pagefrag_sim.py:82-88 | a page is freed exactly when nothing refers to it, and its refcount is the references |
| PageFrag.AllReturned | simulator /pagefrag_sim.py:156-178 | when all fragments are freed and all caches drained, every page has been freed once |
| PageFrag.ReuseOnlyEmpty | simulator /pagefrag_sim.py:124-140 | a page is reused only when it has no live fragment |
| PageFrag.AllocateExactly | simulator /pagefrag_sim.py:114-154 | a request is served below what has been cut, while it fits; from the end of the same page, if it is empty and not from the emergency reserve; and else from a new page, the old one being freed if and only if it is empty |
| PageFrag.AllocateResult | simulator /pagefrag_sim.py:114-154 | what an allocation returns: a fresh fragment of the current page, or none from a page that is too small |
| PageFragCache.PageFragCache.Allocate | simulator /pagefrag_sim.py:114-154 | the class does to its fields, the page and the allocator what the model says |
| PageFragCache.PageFragCache.Free | simulator /pagefrag_sim.py:156-164 | the same for freeing |
| PageFragCache.PageFragCache.Drain | simulator /pagefrag_sim.py:166-178 | the same for draining |
| ReplayModel.SlackNonNegative | simulator /pagefrag_sim.py:609-611 | live aligned bytes on a page never exceed its size |
| ReplayModel.EmptyUsage | simulator /pagefrag_sim.py:659-661 | a page without fragments keeps no bytes, rings or lifetimes, so the check never raises |
| ReplayModel.UsageRemoveAgrees | simulator /pagefrag_sim.py:647-661 | usage stays the sum over the live records when one goes |
| Replay.AggregateMove | simulator /pagefrag_sim.py:630-634 | taking contributions out before a change and putting them back after it keeps the aggregate the sum over all pages |
| Replay.ScenarioReplay.AllocatePagefrag | simulator /pagefrag_sim.py:663-678 | a cache allocation keeps usage and aggregate right, and fails exactly for sizes no page has |
| Replay.ScenarioReplay.AllocateDirect | simulator /pagefrag_sim.py:680-694 | the same for a page of its own |
| Replay.ScenarioReplay.Release | simulator /pagefrag_sim.py:728-743 | freeing a record keeps usage and aggregate right under every policy |
| Replay.ScenarioReplay.Process | simulator /pagefrag_sim.py:745-755 | an event succeeds exactly when it makes sense, and then pages, caches, records and tags are what the step defined on values gives, and the aggregate equals the one computed from scratch; `Placement` says what that step does to pages |
| Placement.PageMates | simulator /pagefrag_sim.py:593-602 | two buffers come from one cache if and only if the policy says so of their sources, rings and lanes; buffers that ever share a page come from one cache; without page fragments each has a page of its own |
| Placement.FieldsMean | simulator /pagefrag_sim.py:604-628 | the mixed, cross-lifetime and single-ring fields of a page are what the events placed on it say: rings and lifetimes of those live, and of all that ever were |
| Placement.SameRingOnlyCounts | simulator /pagefrag_sim.py:604-628 | isolated by owner and ring, every page in use counts as a single-ring page |
| Stream.SortKeepsRun | simulator /pagefrag_sim.py:496 | sorting by time keeps a stream replayable with the same outcome when each buffer's own events are in order |
| Stream.OnceSorted | simulator /pagefrag_sim.py:496 | sorting keeps it so that no id is given out twice |
| Stream.SortSorts | simulator /pagefrag_sim.py:496 | the sorted stream is ordered by time and sequence number |
| Stream.NetCounts | simulator /pagefrag_sim.py:696-726 | the posted buffers after a prefix are its posts minus its reaps |
| Stream.PostedAt | simulator /pagefrag_sim.py:696-726 | at every time, what is posted in a stream in time order is its posts minus its reaps up to then |
| EventBuilder.PickLane | simulator /pagefrag_sim.py:314-320 | the lane whose share contains the roll; the last error cannot be reached |
| EventBuilder.SplitMix64.Shuffle | simulator /pagefrag_sim.py:278-281 | shuffling loses and adds nothing |
| EventBuilder.EventBuilder.Lifetime | simulator /pagefrag_sim.py:322-326 | at least one, and within the jitter of the base |
| EventBuilder.EventBuilder.EventTimes | simulator /pagefrag_sim.py:328-347 | as many times as the rate asks for, ascending, each between a third of a gap before the earliest place its burst can start at and a third of a gap and a burst after its own place |
| EventBuilder.EventBuilder.SeedRings | simulator /pagefrag_sim.py:375-401 | every slot of every ring gets a buffer of its own at time 0, and each source as many as its rings have slots |
| EventBuilder.EventBuilder.TurnOver | simulator /pagefrag_sim.py:414-444 | one turnover reaps one buffer and posts one in the same slot at the same time; it frees the old one when its hold ends, keeps every slot filled, every id posted once, and the number of posted buffers at every time |
| EventBuilder.EventBuilder.AddRingTurnover | simulator /pagefrag_sim.py:403-444 | one turnover for each of the times that the rate asks for |
| EventBuilder.EventBuilder.AddCeTransients | simulator /pagefrag_sim.py:446-473 | one allocation for each of the times that the rate asks for, freed when its hold ends; no slot and no posted count changes |
| EventBuilder.EventBuilder.Build | simulator /pagefrag_sim.py:475-496 | the stream replays from nothing to its end, in time order, gives every id out once, and has all ring slots posted at every time; each source has as many reaps or allocations as its rate asks for, spread over the time, and as many posts as slots and reaps; every event has its reason: a reaped buffer was posted there, another is posted in its place, and it is freed within the jitter of its hold unless that may be after the end |
| Traffic.SortedSpread | simulator /pagefrag_sim.py:328-347 | times that are near their places burst by burst are so again after sorting |
| Traffic.TimesOfSorted | simulator /pagefrag_sim.py:496 | sorting the stream leaves the events of one kind at the times at which they were built |
| Timeline.TimedReplay.Replay | simulator /pagefrag_sim.py:797-819 | a sensible stream in time order replays to the end; there is one row per sample time whose live, posted and reaped counts and whose aggregate are the ones computed from scratch for the pages and buffers that the events up to then lead to under the policy, and the integrals are the sums over nanoseconds |
| Timeline.RowFixed | simulator /pagefrag_sim.py:769-795 | the policy and the events up to its time determine every field of a right row |
| Timeline.TimedReplay.IntegrateTo | simulator /pagefrag_sim.py:757-767 | raises exactly when time would run backwards, and adds the level for every nanosecond |
| Timeline.Simulate | simulator /pagefrag_sim.py:847-849 | for every valid configuration, seed and policy the replay succeeds on a stream with the traffic that the configuration asks for; every row is right for it, and shows all ring slots posted and all other live buffers as reaped |
| Blocks.PadZerosLeast | scripts/mkhash.c:351-365 | the padding is the least that leaves room for exactly the length |
| Blocks.Absorbed | scripts/mkhash.c:321-342 | completing the pending block and going on with whole blocks folds the message's blocks |
| Blocks.PaddedFold | scripts/mkhash.c:351-377 | padding makes one or two blocks of the bytes left over |
| Md5.LineIsStep | scripts/mkhash.c:144-281 | a STEP with its macro, word, constant and shift is the operation of section 3.4 of RFC 1321 |
| Md5.LineIsSteps | scripts/mkhash.c:211-281 | a line of four STEPs is four operations with the registers moving round |
| Md5.CountedMore | scripts/mkhash.c:316-319 | the 29-bit low part and the high part with its carry are the total length |
| Md5.Md5Context.Body | scripts/mkhash.c:189-297 | all blocks of the data are folded into the registers |
| Md5.Md5Context.Hash | scripts/mkhash.c:310-343 | after any data the context holds the state of everything fed so far |
| Md5.Md5Context.End | scripts/mkhash.c:345-396 | the result is the digest of everything fed |
| Md5.Md5Hash | scripts/mkhash.c:700-713 | for every way to cut a message into chunks the result is the digest of RFC 1321 of the whole |
| Sha256.RndIsRound | scripts/mkhash.c:489-501 | a round on the rotating array is a round of section 6.2.2 of FIPS 180-4 |
| Sha256.Transform | scripts/mkhash.c:458-563 | schedule, rounds and final addition are the standard's compression of one block |
| Sha256Constants.ConstantsAreCubeRoots | scripts/mkhash.c:461-479 | round constant t is the first 32 binary places of the cube root of the t-th prime |
| Sha256Constants.InitialAreSquareRoots | scripts/mkhash.c:602-618 | the initial variables are those of the square roots of the first eight primes |
| Sha256.EncodeCount | scripts/mkhash.c:98-116 | the eight length bytes are the bit count, high-order byte first |
| Sha256.Sha256Context.Update | scripts/mkhash.c:621-658 | after any data the context holds the state of everything fed so far |
| Sha256.Sha256Context.Pad | scripts/mkhash.c:573-599 | padding and length complete the fold of the padded message |
| Sha256.Sha256Hash | scripts/mkhash.c:715-728 | for every way to cut a message into chunks the result is the digest of FIPS 180-4 of the whole |

## Left out
- Expression nodes for lists and ranges, and `E_NONE`: only choices and value ranges use them. A null expression is
  an absent one where the source allows it.
- Freeing and reuse of nodes: `expr_eliminate_yn`, `expr_transform` and `expr_trans_bool` are functions on trees, so
  which node object holds the result, and that the old ones are freed, is not captured; `Simplifier` has the steps
  whose aliasing and counter matter.
- PrintParse.PrintParseRoundTrip: the table-driven parser stands as the grammar and the precedences it was generated
  from, on tokens; numbers and quoted words are symbol tokens.
- Numeric and string comparison in `expr_calc_value`: a valuation gives the sign of every comparison of two symbols,
  and only what comparisons with y, m and n mean is assumed of it.
- Dups.EliminateDupsValue: holds for plain expressions. Constants written as numbers compare by number in the
  source, so that one tristate value can equal two different constants; `Dups.JoinAndExact` and
  `Dups.EliminateDupsExactly` say exactly when that changes a value.
- Dups.Dups1Value: holds for plain trees, for the same reason.
- MenuWalk.PropagatedWorth: holds when all conditions of the tree are plain, for the same reason.
- Conditions.NarrowValue: holds for plain conditions, for the same reason.
- Conditions.ShownValue: holds for plain conditions, for the same reason.
- Transform.SupersetSound: holds for plain prompts and siblings, for the same reason; the negated m it excludes is
  treated exactly in `SupersetTest.SupersetRightExactly`.
- Transform.SubmenuSound: the same.
- UpToOrder.ExprEqUpToOrder: expressions with y or n as operands of && or || are left out; the comparison drops
  them, and two conjunctions with n are equal to it whatever else is in them.
- Choice groups: their dependency check, their part of `menu_finalize`, and choice values in .config files.
- MenuTree.Finalize: the prompt stands for all properties of a node; what selects, implies and optional choices add
  to other symbols' dependencies, and the warnings, are not modelled.
- SymCheck.DependencyCheck.PrintRecursive: the wording of the messages and the file positions.
- MacroExpander.Preprocessor.EvalClause: built-in functions are any function that gives a string or an error;
  `variable_add`, which changes the table, is not modelled, and neither is the memory that nested expansion takes.
- DotConfig.LineRoundTrip: unknown symbols, files that were not written by the program, and the other output
  formats; names without blank, equals sign and newline are what the lexer admits.
- RxOwn.Tracker.Run: finding the scope of the running task is a parameter of the handlers; the scope table, the ring
  buffer of recent events, the control file, switching collection on and off, and the samples taken at releases are
  left out; of the rings, what is only counted about calls is not part of the moments of a run.
- RxOwn.Tracker.SnapshotPages: the byte totals of a snapshot and its copies of the ring and caller tables.
- RxOwn.Tracker.NetdevAllocReturn: byte and event counters do not wrap at their upper end; the 16-bit page counts,
  the guards against zero and the subtraction of byte counters are as the source has them.
- Replay.ScenarioReplay.Process: the allocator and the caches are held as values, which the two classes of
  `PageFragCache` refine; the error raised for an event that makes no sense is a false result, and nothing is said
  of the state after it.
- Timeline.TimedReplay.Replay: refill, reuse and free counts of the rows, the summary and the text fields; all
  fields are integrated, where the source integrates four.
- EventBuilder.EventBuilder.EventTimes: decimal arithmetic is exact; a shuffled list is an array of the same seeds.
- EventBuilder.EventBuilder.Build: that a configuration passes validation is a precondition, where the source raises
  an error.
- Md5.Md5Context.Body: the 64 written-out steps are a loop over sixteen lines with the same words, constants and
  shifts; words are read in little-endian order on every machine. The constants themselves are the source's, not
  computed from the sine.
- Sha256.Transform: the written-out rounds and schedule steps are loops of sixteen; the sum of the round's terms is
  grouped as in the source.
- Reading files, printing digests as text, terminal interfaces, generated scanners and parsers, and the scripts for
  firmware images: outside these results.
