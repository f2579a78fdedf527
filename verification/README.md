# XED example utilities and table generators: a verified model

This project models the data structures and algorithms of the XED example programs (`examples/*.c`)
and of the Python generators (`pysrc/*.py`) that turn the instruction database into C tables, and
proves what they are for.

* **AVL tree, its iterator and the symbol table.** `AvlSpec.dfy` has the tree as a value, `AvlTree.dfy`
  the nodes that are relinked in place, `AvlIter.dfy` the queue iterator, `SymbolTable.dfy` the
  two-level symbol map and the disassembly callback.
* **Decision-table compiler.** `ConstraintVec.dfy` and `ConstraintVecGen.dfy` expand rules to tuples
  and pack them into keys, `DecDyn.dfy` emits key code and switch as lines of a small language with an
  interpreter, `CaptureChain.dfy` the functions that chain captures, `ActionsCodegen.dfy` table rows
  and guarded assignments.
* **Region scanner.** `DisasScan.dfy` has the loop of `xed_disas_test` over an arbitrary decoder.
* **Dependence graph.** `DotGraph.dfy` has reaching definitions over a trace, and the builder with its
  linked lists.
* **Generators that expand, intern or compress.** `ChipModel.dfy`, `FlagGen.dfy`, `ArrayGen.dfy`,
  `Enumer.dfy`, and the line parser in `AsmParse.dfy`; `Numerals.dfy` has the digits both use.

In each of them, methods with loops and updates follow the source, functions say what they compute,
and lemmas say what the functions mean.

Where the code does not do what it is meant for on all inputs, the exact condition is proved:

* The disassembly callback reports the nearest symbol if and only if that symbol has a name
  (`SymbolSpec.NearestIsReportedIfNamed`); otherwise it answers nothing or with another symbol, and can
  put two symbols together (`SymbolSpec.NamelessNearest`, `SymbolSpec.NullNameExample`). A null name
  is possible only through the interface of the table: the readers of symbol files check the name
  (`examples/xed-util-disas-elf.c:526`), copy it, or point into the mapped string table
  (`examples/xed-util-disas-macho.c:230`), and add no null pointer.
* The emitted `uint32` key tells operand values apart if and only if their widths add up to at most 32
  bits (`DecDyn.KeysTellApart`). C converts the case labels to the type of the key, so it rejects the
  switch when two bound tuples share a key (`DecDyn.LabelsCompile`), and the switch takes a wrong branch
  for operand values that share one with a bound tuple (`DecDyn.JumpsAreBindings`). C defines the shifts
  only when the widths before the last add up to less than 32 (`DecDyn.ShiftsAreDefined`); an undefined
  shift yields an arbitrary number here.
* The emitted guard drops a negative value of a field that not all rules bind
  (`ActionsCodegen.RowRunsRule`).
* Flag records of more than 100 actions can be given the actions of another record
  (`FlagGen.LongListsCollide`).
* A dense enumeration accepts a decimal text with a leading zero, which C reads as octal
  (`EnumSpec.DenseIsPositional`, `EnumSpec.MisreadExample`). The direct look-up of names needs every
  value at its own position (`Enumer.AgreementNeedsPositions`).
* The test in `asm_isnumber` for values too big to be negated compares an arithmetic right shift with
  1 and never holds; its branch is proved dead (`AsmNumber.AsmIsNumber`). A printed number is read back
  if and only if it fits a signed 64-bit value (`AsmNumber.ReadsBack`); beyond that C leaves the overflow
  undefined, and the model wraps.

What the program gets from outside becomes a parameter: the decoder, the symbol predicate and the
operand texts of an instruction, the enclosing registers, the constants and capture functions that
emitted code refers to, upper-casing, and the refinement of one operand.

## Model

| member | source | states |
|---|---|---|
| AvlSpec.JoinBalanced | examples/avltree.c:201-217 | refreshing a node over two balanced subtrees gives a balanced tree exactly when their heights differ by at most one |
| AvlSpec.RotationsRebuild | examples/avltree.c:218-266 | each of the four rotations is the regrouping of three or four subtrees that it is meant to be, with all stored heights and balances recomputed |
| AvlSpec.RebalanceLeftRestores | examples/avltree.c:297-308 | a left subtree that grew by one level never has balance 0, so the dispatch on exactly +1 and -1 covers every case, and the rotation restores balance and the old height bound |
| AvlSpec.RebalanceRightRestores | examples/avltree.c:309-320 | the same on the right |
| AvlSpec.Insert | examples/avltree.c:268-328 | insertion into a balanced tree gives a balanced tree that is at most one level higher; a subtree that grew is a single node or has balance other than 0; the final assertion on the balance cannot fire |
| AvlSpec.RebalanceKeepsOrder | examples/avltree.c:218-328 | rebalancing keeps the search order and what every key finds |
| AvlSpec.InsertSets | examples/avltree.c:268-328 | insertion keeps the search order; afterwards the key finds the new data and every other key what it found before |
| AvlSpec.InsertUpdatesMap | examples/avltree.c:268-340 | the map of a valid tree after insertion is the old map updated at the key, and the tree stays valid |
| AvlSpec.RunsAreMaps | examples/avltree.c:330-340 | after any sequence of insertions the tree is valid and every key finds what was written to it last |
| AvlSpec.FindIsLookup | examples/avltree.c:95-115 | the exact search, which goes right also for smaller keys when there is no left child, is the look-up in the map of the whole tree |
| AvlSpec.LowerBoundIsFloor | examples/avltree.c:131-173 | the lower-bound search, with the same wandering to the right, returns the greatest key of the whole tree that is not above the query, or nothing when there is none |
| AvlSpec.FloorIsUnique | examples/avltree.c:131-173 | the entry that the lower-bound search has to return is unique |
| AvlSpec.StoredHeightIsTrue | examples/avltree.c:201-217 | the stored height of a balanced tree is its real height |
| AvlSpec.HeightNeedsFibNodes | examples/avltree.c:201-217 | a balanced tree of height h has at least Fib(h + 2) - 1 nodes (heights counted in levels) |
| AvlSpec.DepthBound | examples/avltree.c:201-217 | with distinct 64-bit keys the height is at most 91, so neither the 32-bit height nor the subtraction of two heights overflows |
| Avl.UpdateHeightAndBalance | examples/avltree.c:201-217 | in place: the node represents the join of its two subtrees with fresh height and balance |
| Avl.LeftLeft | examples/avltree.c:218-229 | in place: the nodes are relinked as one single rotation and represent the rotated tree, with the same set of nodes |
| Avl.RightRight | examples/avltree.c:255-266 | the mirror image |
| Avl.LeftRight | examples/avltree.c:231-241 | in place: the child is rotated left, its heights refreshed |
| Avl.RightLeft | examples/avltree.c:243-253 | the mirror image |
| Avl.RebalanceLeft | examples/avltree.c:297-308 | in place: the dispatch for a node heavy on the left represents the rebalanced tree over the same nodes |
| Avl.RebalanceRight | examples/avltree.c:309-320 | the mirror image |
| Avl.InsertNode | examples/avltree.c:268-328 | in place: the recursive insertion represents the inserted tree, keeps the nodes distinct and adds only fresh ones |
| Avl.FindNode | examples/avltree.c:95-104 | on the heap: the node found carries the data of the look-up, and is one of the tree |
| Avl.FindNodeLowerBound | examples/avltree.c:131-158 | on the heap: the node found carries the entry of the lower-bound search |
| Avl.AvlTree.constructor | examples/avltree.c:72-75 | an empty valid tree |
| Avl.AvlTree.Insert | examples/avltree.c:330-340 | the tree stays valid and its map is the old one updated at the key |
| Avl.AvlTree.Find | examples/avltree.c:106-129 | the result is the look-up in the map |
| Avl.AvlTree.FindLowerBound | examples/avltree.c:160-182 | the result is the entry with the greatest key not above the query, over the whole map |
| AvlLevelOrder.LevelOrderVisitsAll | examples/avltree.c:346-390 | the subtrees in the queue hold exactly the entries still to be visited, each once, and as many as there are |
| AvlLevelOrder.LevelOrderIsSorted | examples/avltree.c:378-385 | entries come in non-decreasing order of depth |
| AvlLevelOrder.LevelOrderOfTree | examples/avltree.c:346-390 | for a whole tree: every entry once, by depth, as many as the tree has |
| AvlIter.IncrementKeepsPlan | examples/avltree.c:378-385 | what was visited together with what is planned does not change by an increment |
| AvlIter.LevelOrderIsLevelSorted | examples/avltree.c:346-390 | of two visits of an ordered tree the earlier one is less deep, or as deep with the smaller key |
| AvlIter.AvlIter.constructor | examples/avltree.c:346-359 | the queue holds the top node, or nothing |
| AvlIter.AvlIter.Current | examples/avltree.c:361-364 | the data of the node at the head of the queue |
| AvlIter.AvlIter.AddLinkNode | examples/avltree.c:366-377 | in place: the node is linked at the tail of the queue |
| AvlIter.AvlIter.Increment | examples/avltree.c:378-385 | in place: the head leaves the queue and its children join at the tail |
| AvlIter.Walk | examples/avltree.c:346-390 | a whole iteration visits every key of the tree's map exactly once and returns the data of the visits, by depth and from left to right in each level, after exactly as many increments as there are entries |
| SymbolSpec.MadeThenAdded | examples/xed-symbol-table.c:61-69 | making an empty map for a new section first has no effect on the result of adding a symbol |
| SymbolSpec.LocalsStayApart | examples/xed-symbol-table.c:61-69 | adding a local symbol updates its own section at the address, is not seen by any other section, and changes the current symbols only when the current table is the section's |
| SymbolSpec.GlobalsAreWritten | examples/xed-symbol-table.c:71-74 | after any operations the globals hold exactly the names written last to each address |
| SymbolSpec.LocalsAreWritten | examples/xed-symbol-table.c:44-69 | after any operations a section holds exactly the names written last to it since its table was made |
| SymbolSpec.CurrentIsWritten | examples/xed-symbol-table.c:44-69 | after any operations the current symbols are those of the table that the section set last had when it was set, or none when it had none |
| SymbolSpec.AnswerIsSymbolFound | examples/xed-symbol-table.c:79-151 | the second look-up finds the symbol of the first one except exactly when a nameless global is the nearest one and the section's nearest symbol shares its address with another global of a different name |
| SymbolSpec.NearestIsReportedIfNamed | examples/xed-symbol-table.c:79-151 | in every state the callback reports the nearest symbol under its own name, or nothing when there is none, if and only if that symbol has a name |
| SymbolSpec.NamelessNearest | examples/xed-symbol-table.c:79-151 | what the callback answers when the nearest symbol has no name: nothing, or the nearest named symbol of the section, with the name of a global at its address where there is one |
| SymbolSpec.RunsStayNamed | examples/xed-symbol-table.c:61-74 | insertions with non-null names keep all names non-null |
| SymbolSpec.NearestSymbolIsReported | examples/xed-symbol-table.c:79-151 | after any insertions with non-null names the callback reports the nearest global symbol that they left at or below the address, otherwise the nearest one that they left in the current table, under the name written there last, otherwise nothing; said in terms of the operations alone |
| SymbolSpec.NullNameExample | examples/xed-symbol-table.c:110-122 | a null global name makes the callback report the address of a local symbol under the name of another global symbol at that address |
| SymbolTable.SymbolTable.GetLocalMap | examples/xed-symbol-table.c:36-42 | the table of a section, if it has one |
| SymbolTable.SymbolTable.MakeLocalMap | examples/xed-symbol-table.c:44-53 | the section gets a new empty table; the one it may have had before is lost, except that it stays current if it was |
| SymbolTable.SymbolTable.SetCurrentTable | examples/xed-symbol-table.c:55-59 | the current section changes as specified, to none when it has no table |
| SymbolTable.SymbolTable.AddGlobalSymbol | examples/xed-symbol-table.c:71-74 | the global map is updated at the address, nothing else changes |
| SymbolTable.SymbolTable.AddLocalSymbol | examples/xed-symbol-table.c:61-69 | the map of the one section is updated at the address and made first when absent; other sections are not affected |
| SymbolTable.SymbolTable.FindSymbolAddressGlobal | examples/xed-symbol-table.c:93-107 | the address of the nearest symbol, global before local |
| SymbolTable.SymbolTable.GetSymbolName | examples/xed-symbol-table.c:110-122 | the exact look-up, global before local |
| SymbolTable.SymbolTable.DisassemblyCallback | examples/xed-symbol-table.c:125-151 | the answer of the two look-ups with the offset, and the name cut to the buffer; in terms of the operations so far when their names are not null |
| ConstraintSpec.CrossIsAdmitted | pysrc/constraint_vec_gen.py:81-112 | a tuple is among the products of a rule exactly when each component is among the rule's values for that name, or in the state space where the rule does not constrain it |
| ConstraintSpec.CrossLists | pysrc/constraint_vec_gen.py:81-112 | a tuple is among the products of a rule exactly when each component is in the rule's list for that name, or, where the rule has none, in the state space |
| ConstraintSpec.BindableMeans | pysrc/constraint_vec_gen.py:71-125 | the rules can be bound exactly when each has values for all names, no two list a common tuple, and none lists a value twice unless it has an empty list |
| ConstraintSpec.CrossDistinct | pysrc/constraint_vec_gen.py:81-112 | a product is empty exactly when some value list is; otherwise it repeats a tuple exactly when one of the value lists repeats a value |
| ConstraintSpec.NoClashIsNoRepeat | pysrc/constraint_vec_gen.py:113-125 | no tuple comes up twice over all rules exactly when no two rules admit a common tuple and every rule's lists are free of repetitions, unless one of the rule's lists is empty |
| ConstraintSpec.BindsListedIsAdmitted | pysrc/constraint_vec_gen.py:113-117 | the map binds a tuple to a rule exactly when the rule admits it |
| ConstraintSpec.UnpackPack | pysrc/constraint_vec_gen.py:127-143 | a packed tuple whose components fit their widths is decoded to itself and lies below two to the total width |
| ConstraintSpec.PackInjective | pysrc/constraint_vec_gen.py:127-143 | fitting tuples with the same packed value are equal |
| ConstraintSpec.ComponentBits | pysrc/constraint_vec_gen.py:127-143 | the component of each name is found in the packed tuple above the bits of the names before it |
| ConstraintSpec.InverseStep | pysrc/constraint_vec_gen.py:142-145 | entering a new tuple with a new value keeps the two maps mutual inverses |
| ConstraintSpec.RestrictedInverse | pysrc/constraint_vec_gen.py:156-172 | the inverse built from a restricted map is the restriction of the inverse |
| ConstraintSpec.PartsAnswerAlike | pysrc/constraint_vec_gen.py:156-172 | parts that together cover the tuples answer every look-up as the whole does |
| ConstraintVecGen.Sort | pysrc/constraint_vec_gen.py:62-70 | the names in increasing order, none lost |
| ConstraintVecGen.BeforeIsLexicographic | pysrc/constraint_vec_gen.py:62-70 | names are in the order of their first different character, a name before its extensions |
| ConstraintVecGen.Generator.CaptureCnames | pysrc/constraint_vec_gen.py:56-70 | all constrained names of all rules in order; it dies exactly when there are rules without any constraint |
| ConstraintVecGen.Generator.MakeTuple2Rule | pysrc/constraint_vec_gen.py:71-125 | it succeeds exactly when every rule has values for all names and no two products clash, raises the key error exactly when a rule lacks values for a name and the rules before it do not clash, and dies otherwise; on success every tuple is bound to the rule that admits it |
| ConstraintVecGen.Generator.GenTuple2Int | pysrc/constraint_vec_gen.py:127-154 | it succeeds exactly when there is nothing to pack or all widths are known and no two tuples pack to the same value, raises the key error exactly when a width is missing, and dies otherwise; on success the two maps are mutual inverses over all tuples |
| ConstraintVecGen.FittingKeysAreDistinct | pysrc/constraint_vec_gen.py:146-154 | the conflict branch is unreachable when every component fits its width |
| ConstraintVecGen.Generator.Work | pysrc/constraint_vec_gen.py:50-55 | the three steps together: the exact conditions for success and for the key error, in terms of rules, state space and widths; every other run dies |
| ConstraintVecGen.Generator.FilterTuples | pysrc/constraint_vec_gen.py:156-172 | the new generator holds the restrictions of all maps, still mutual inverses; the only failure is a missing tuple |
| CaptureCode.EnterIffLabel | pysrc/dec_dyn.py:278-303 | the groups have a label as written exactly for the labels that were emitted |
| CaptureCode.JumpIffLabel | pysrc/dec_dyn.py:278-303 | the switch jumps exactly for the values that some case label has when C converts it to uint32 |
| CaptureCode.JumpIsEnter | pysrc/dec_dyn.py:278-303 | where no other label converts to the same value, the switch jumps behind the label as written |
| CaptureCode.ExecBody | pysrc/dec_dyn.py:238-241 | straight lines followed by a break run exactly these lines |
| DecDyn.RhsLinesRun | pysrc/dec_dyn.py:197-236 | the emitted right-hand-side lines do what the rule's captures and operand assignments mean, in order |
| DecDyn.RuleEffectDoes | pysrc/dec_dyn.py:197-236 | a rule with an error operand sets the general error; any other captures its pattern nonterminals in order and then its operands in order, each as the source says for its kind |
| DecDyn.KeyLinesPack | pysrc/dec_dyn.py:133-161 | when C defines every emitted shift, the emitted key code computes the packed tuple modulo two to the 32, for any operand values |
| DecDyn.ShiftsAreDefined | pysrc/dec_dyn.py:144-161 | C defines every emitted shift if and only if the widths of all names but the last add up to less than 32 |
| DecDyn.KeyIsExact | pysrc/dec_dyn.py:133-161 | for every fitting tuple the uint32 key is the packed tuple itself, if and only if the widths add up to at most 32 |
| DecDyn.KeysTellApart | pysrc/dec_dyn.py:133-161 | no two fitting tuples have the same uint32 key if and only if the widths add up to at most 32 |
| DecDyn.SelectsStep | pysrc/dec_dyn.py:278-292 | adding the group of one rule makes its keys select that rule and disturbs no earlier selection |
| DecDyn.SwitchRuns | pysrc/dec_dyn.py:278-303 | where no other selected key converts to the same uint32 value, the emitted switch runs the selected rule's lines, and the default lines when no label matches |
| DecDyn.SelectionIsBinding | pysrc/dec_dyn.py:242-303 | when no other bound tuple has the same uint32 key, a tuple's key is selected exactly when the tuple is bound, and for the rule that it is bound to |
| DecDyn.LabelsCompile | pysrc/dec_dyn.py:242-292 | no two emitted case labels are equal for C if and only if no two bound tuples have the same uint32 key |
| DecDyn.JumpsAreBindings | pysrc/dec_dyn.py:133-292 | C accepts the labels and the switch jumps for exactly the bound ones among all fitting operand values, if and only if no bound tuple shares its uint32 key with another one or with other fitting operand values |
| DecDyn.CompiledMeaning | pysrc/dec_dyn.py:133-303 | when no other bound tuple has the uint32 key of the operand values and C defines the shifts, key code and switch together do what the one admitting rule does, and take the default when no rule admits the operand values |
| DecDyn.AddKeyLines | pysrc/dec_dyn.py:133-161 | the loop appends the key lines with the shift of each name |
| DecDyn.AddRhsAssignments | pysrc/dec_dyn.py:197-236 | the loop appends the lines of the rule's right-hand side |
| DecDyn.AddOperand | pysrc/dec_dyn.py:211-234 | the lines of one operand: skipped, captured, or assigned with its register error |
| DecDyn.MakeKeys | pysrc/dec_dyn.py:251-276 | the key maps are mutual inverses; it fails exactly when two tuples pack to the same key |
| DecDyn.AddRuleGroup | pysrc/dec_dyn.py:286-292 | a rule's labels and body are appended once |
| DecDyn.AddDefault | pysrc/dec_dyn.py:293-303 | the default sets the error unless otherwise_ok |
| DecDyn.AddSwitchCaseLines | pysrc/dec_dyn.py:242-303 | it fails exactly when two tuples pack to one key; otherwise the groups select every bound tuple's rule |
| DecDyn.GenCapture | pysrc/dec_dyn.py:306-327 | with constraints the emitted function preserves the meaning of the rules when no fitting operand values share a uint32 key with a bound tuple, which holds for keys of 32 bits; C accepts its case labels exactly when no two bound tuples share one; it fails exactly when two tuples pack to one key; without constraints it is the right-hand side of the one rule, and preserves its meaning |
| DecDyn.PreservesMeans | pysrc/dec_dyn.py:133-327 | preserving the meaning comes to this: for operand values that fit their widths, the lines do what a rule does that lists them, and set the general error, or nothing with otherwise_ok, when none does |
| CaptureChain.LinkRuns | pysrc/dec_dyn.py:377-400 | the lines for one operand do its capture and return on an error |
| CaptureChain.PrefixRuns | pysrc/dec_dyn.py:421-433 | as long as no capture fails, the function goes on behind its lines |
| CaptureChain.ChainStopsAtFirstError | pysrc/dec_dyn.py:356-434 | a chain function runs its captures in order, stops behind the first that reports an error and returns it, and returns no error when none did |
| CaptureChain.ChainDoes | pysrc/dec_dyn.py:356-434 | the states of a chain follow each other link by link up to the first call that leaves an error, which is returned, or through all links |
| CaptureChain.GenCaptureChain | pysrc/dec_dyn.py:403-434 | the loop emits the lines of a chain of nonterminals |
| CaptureChain.GenNtlufChain | pysrc/dec_dyn.py:356-401 | the loop emits the lines of a chain of operands |
| ActionsCodegen.RowIsAligned | pysrc/actions_codegen.py:138-158 | with one binding per field, the row has one entry per field, in the order of the columns |
| ActionsCodegen.LowerIs | pysrc/actions_codegen.py:53-77 | a field name is put in lower case character by character |
| ActionsCodegen.BindingsAre | pysrc/actions_codegen.py:138-158 | a rule's bindings leave in every field that they name its value and all other fields alone |
| ActionsCodegen.GuardedRowRuns | pysrc/actions_codegen.py:252-270 | a row without negative guarded values does to every state what the rule's own bindings do |
| ActionsCodegen.NegativeIsDropped | pysrc/actions_codegen.py:252-270 | a negative value of a guarded field is lost |
| ActionsCodegen.RowRunsRule | pysrc/actions_codegen.py:138-158 | row and guarded assignments equal the rule's bindings in every state if and only if no guarded field is bound to a negative value |
| ActionsCodegen.Generator.GatherAllFb | pysrc/actions_codegen.py:53-77 | all fields of all rules, and those common to all of them |
| ActionsCodegen.Generator.CreateFbActions | pysrc/actions_codegen.py:138-158 | the row of a rule, -1 where it does not bind a field |
| ActionsCodegen.Generator.Preprocess | pysrc/actions_codegen.py:175-202 | every tuple gets the row of its rule |
| ActionsCodegen.Generator.TableRunsRules | pysrc/actions_codegen.py:230-250 | the stored row of a tuple has the effect of its rule in every state if and only if no guarded field of the rule is bound to a negative value |
| ActionsCodegen.Generator.Compile | pysrc/actions_codegen.py:175-270 | table and code together: the emitted assignments, run on the stored row of a tuple, do what its rule does in every state if and only if the rule binds negative values only to fields that every rule binds |
| ActionsCodegen.Generator.EmitActions | pysrc/actions_codegen.py:252-270 | the emitted assignments: a column per field, guarded unless all rules bind the field |
| ActionsCodegen.CodeRunsRow | pysrc/actions_codegen.py:252-270 | executing the emitted assignments on a row is running the row |
| DisasScan.CheckResync | examples/xed-examples-util.c:1123-1148 | the first offset inside the instruction that has a symbol, or 0 when there is none |
| DisasScan.DisasInfo.DecodeAt | examples/xed-examples-util.c:1268-1339 | one decode: shown, undecodable, rejected by resynchronisation, or the fatal zero length |
| DisasScan.DisasInfo.Turn | examples/xed-examples-util.c:1230-1261 | the two flags make a window be skipped exactly when it and the window before are all zeros |
| DisasScan.DisasInfo.DisasTest | examples/xed-examples-util.c:1196-1391 | the events are a run from the clipped start, stay within the limit and the number of instructions asked for, end for one of the stated reasons, and their errors are counted; also in terms of the bytes, addresses, decoder and symbols alone |
| DisasScan.RunTiles | examples/xed-examples-util.c:1214-1374 | with a decoder that stays within its window, every byte from the start to the end of the scan belongs to exactly one event, nothing else does, and there are no more events than bytes |
| DisasScan.SkippedIffZerosTwice | examples/xed-examples-util.c:1241-1261 | an event is skipped exactly when its window and that of the event before are all zeros |
| DisasScan.SkippedBytesAreZero | examples/xed-examples-util.c:1241-1261 | every byte of a skipped event is zero |
| DisasScan.SymbolsStartEvents | examples/xed-examples-util.c:1123-1148 | with resynchronisation on, outside the skipped zeros only the first byte of an event can have a symbol at its address, which is the load address plus the offset, modulo two to the 64 |
| DisasScan.ResyncEndsAtSymbol | examples/xed-examples-util.c:1304-1308 | a rejected instruction is cut short of its length where the load address plus the offset has a symbol, and the next event starts there |
| DisasScan.RunIsUnique | examples/xed-examples-util.c:1214-1374 | the region determines the run: of two runs one is a prefix of the other |
| DisasScan.RunTells | examples/xed-examples-util.c:1123-1374 | what each event of a run says of the bytes at its position: zeros twice in a row skipped, otherwise the decoder's error and length, with no symbol inside, or cut at the first symbol inside |
| DotSpec.WritersAfterAt | examples/xed-util-dot-prep.c:121-150 | installing an instruction's writes changes exactly the entries of the enclosing registers that it writes |
| DotSpec.WritersReach | examples/xed-util-dot-prep.c:121-150 | the table of writers of a whole trace is the table of reaching definitions |
| DotSpec.ReadLinksAt | examples/xed-util-dot-prep.c:70-118 | the edges for the reads of an instruction come from exactly the nodes in the table for registers that it reads |
| DotSpec.DashedLinksAt | examples/xed-util-dot-prep.c:121-150 | the output edges come from the writer before each written operand, the node itself when it has already written the register |
| DotSpec.SolidIsReaching | examples/xed-util-dot-prep.c:52-118 | over a whole trace there is a solid edge between two instructions if and only if the newer reads a register whose latest earlier writer is the older |
| DotSpec.SolidEdges | examples/xed-util-dot-prep.c:52-118 | the same over the operands: a register operand that is read, or a base or index register other than the invalid one, whose enclosing register the older instruction was the latest to write |
| DotSpec.StartIsIndependent | examples/xed-util-dot-prep.c:114-118 | there is an edge from the start node if and only if nothing that the instruction reads was written before |
| DotSpec.StartEdges | examples/xed-util-dot-prep.c:114-118 | the same over the operands |
| DotSpec.DashedIsOutput | examples/xed-util-dot-prep.c:121-150 | there is a dashed edge if and only if the instruction overwrites what the source wrote last; it is a loop exactly where an instruction writes one enclosing register twice |
| DotSpec.DashedEdges | examples/xed-util-dot-prep.c:121-150 | the same over the operands: a register operand that is written |
| DotSpec.SolidGoesForward | examples/xed-util-dot-prep.c:52-118 | solid edges go from an older node to a newer one, so there is no cycle |
| DotSpec.AllReachable | examples/xed-util-dot-prep.c:114-118 | every instruction is reached from the start node along solid edges |
| DotGraph.DotList.Node | examples/xed-util-dot.c:68-78 | the node is prepended to the list of nodes, which otherwise stays as it was |
| DotGraph.DotList.Edge | examples/xed-util-dot.c:81-97 | the edge is prepended to the list of edges |
| DotGraph.DotGraph.constructor | examples/xed-util-dot-prep.c:27-42 | a graph with the start node and no writers |
| DotGraph.DotGraph.AddEdge | examples/xed-util-dot-prep.c:52-68 | an edge from the last writer of the enclosing register, if there is one |
| DotGraph.DotGraph.AddReadOperands | examples/xed-util-dot-prep.c:70-118 | the solid edges of one instruction, or the one from the start node |
| DotGraph.DotGraph.AddWriteOperands | examples/xed-util-dot-prep.c:121-150 | the dashed edges of one instruction, and the table after its writes |
| DotGraph.DotGraph.AddInstruction | examples/xed-util-dot-prep.c:155-214 | the edges stay the graph of the trace, which is extended by the instruction |
| ChipSpec.ExpansionIs | pysrc/chipmodel.py:94-135 | a chip has an isa-set exactly when its line names it, or some ALL_OF or COMMON_SUBSET word brings it in and no NOT word takes it out |
| ChipSpec.DefinedIs | pysrc/chipmodel.py:94-135 | a chip is defined exactly when it has a line and all chips that its ALL_OF and COMMON_SUBSET words name are defined |
| ChipSpec.ExpansionIsUnique | pysrc/chipmodel.py:138-149 | neither whether a chip is defined nor its isa-sets depend on the witness of acyclicity |
| ChipSpec.ExpansionIsIdempotent | pysrc/chipmodel.py:138-149 | a table without operators is its own expansion |
| ChipModel.Uniquify | pysrc/chipmodel.py:52-56 | plain words, each once, none lost |
| ChipModel.RemoveNots | pysrc/chipmodel.py:118-124 | every occurrence of the names under NOT is removed from what came in, and nothing else |
| ChipModel.OwnWords | pysrc/chipmodel.py:118-135 | what came in, less the NOT words, with the chip's own words, each once |
| ChipModel.ChipModel.ExpandAllOf | pysrc/chipmodel.py:97-103 | the loop brings in the expansions of the ALL_OF chips, in place, whatever was expanded before; it fails exactly on an undefined chip |
| ChipModel.ChipModel.ExpandCommon | pysrc/chipmodel.py:105-116 | the loop brings in the intersections of the COMMON_SUBSET chips |
| ChipModel.ChipModel.ExpandChip | pysrc/chipmodel.py:94-135 | in place: the chip's line becomes its expansion without operators or repetitions; only chips of lower rank change besides, each to its own expansion; it fails exactly when a definition is missing |
| ChipModel.ChipModel.RecursiveExpand | pysrc/chipmodel.py:138-149 | for any order of the chips: every line becomes its chip's isa-sets as plain words, each once, or a definition is missing |
| ChipModel.FeatureWords | pysrc/chipmodel.py:322-362 | a bit is in a word exactly when the isa-set at that position is a feature of the chip, and all shifts are below 64; it dies exactly when a feature has no position below 448 |
| FlagSpec.IdentifierIsInjective | pysrc/flag_gen.py:249-257 | different lists of flag actions have different identifiers |
| FlagSpec.PrefixInstalled | pysrc/flag_gen.py:397-403 | pointing a prefix at the new actions keeps every identifier of the table pointing at its own actions, also when the prefix is moved |
| FlagSpec.RecoversStays | pysrc/flag_gen.py:383-412 | what a record was given in the simple table stays right while the tables grow |
| FlagSpec.RecoversAll | pysrc/flag_gen.py:383-412 | with at most 100 actions the index and count of the row lead to exactly the record's actions |
| FlagSpec.RowMeans | pysrc/flag_gen.py:419-456 | the row that a record leads to has its MAY and MUST, reads exactly the flags that it tests, writes those with any other action, leaves undefined those with the action u, and leads to its first 100 actions |
| FlagGen.Identify | pysrc/flag_gen.py:249-257 | the identifier of the first limit + 1 actions; it dies exactly on a bogus flag among them |
| FlagGen.FlagTables.AssignActionIndex | pysrc/flag_gen.py:383-412 | known actions are reused and unknown ones emitted, and the index leads to the first 100 of them |
| FlagGen.FlagTables.InternRow | pysrc/flag_gen.py:438-456 | an identical simple row is reused, a new one gets the next id |
| FlagGen.FlagTables.EmitRecord | pysrc/flag_gen.py:422-456 | the id leads to a row of the record's own flags and to its actions |
| FlagGen.FindCase | pysrc/flag_gen.py:478-488 | the simple row of the first record of a case, 0 when there is none; it dies exactly when a record without qualifier comes first |
| FlagGen.FlagTables.EmitDataRecord | pysrc/flag_gen.py:414-502 | following the returned index leads, in the simple or the complex table, to the record's own actions case by case, and nothing emitted before is changed; with proper flags it dies exactly when there is no record or a case search meets a record without qualifier |
| FlagGen.ComplexMeans | pysrc/flag_gen.py:458-492 | a complex row tells whether there are repeat and immediate qualifiers, and for IMM0, IMM1, IMMx, REP and NOREP leads to the first record with that qualifier, or is 0 |
| FlagGen.DiesMeans | pysrc/flag_gen.py:350-362 | a case search dies exactly when a record without one of the five qualifiers comes before any record with the case's own |
| FlagGen.LeadsStays | pysrc/flag_gen.py:414-502 | what an instruction was given, in the simple table or case by case in the complex one, stays right while the tables grow |
| FlagGen.EmitAll | pysrc/generator.py:4098-4108 | after the instructions of a whole database every id leads, in the final tables, to the actions of its own instruction; with proper flags the program dies exactly when one of them makes it die |
| FlagGen.LongListsCollide | pysrc/flag_gen.py:249-257 | every list of more than 100 actions is confused with another one interned before it |
| ArrayGen.PassDecreases | pysrc/codegen.py:1020-1056 | a pass that had something to fill lowers the largest number of missing indices |
| ArrayGen.PassMeans | pysrc/codegen.py:1027-1056 | a pass does not change the value that any position gets |
| ArrayGen.PassKeepsPresent | pysrc/codegen.py:997-1003 | when every index has a value somewhere, a pass changes no index's set of present values |
| ArrayGen.CompleteMeans | pysrc/codegen.py:1020-1056 | when nothing is missing any more the entries mean what the original ones did, also when some index has no value anywhere |
| ArrayGen.RunMeans | pysrc/codegen.py:1058-1068 | executing the lines leaves the value of the last entry at a position |
| ArrayGen.ArrayGen.ComputeMissingValues | pysrc/codegen.py:997-1003 | the present values of an index, each once, in order of first use |
| ArrayGen.ArrayGen.Pass | pysrc/codegen.py:1021-1056 | one pass: complete entries are kept, the others replicated over the present values of their last missing index |
| ArrayGen.ArrayGen.Replicate | pysrc/codegen.py:1019-1056 | the loop ends with no index missing and the meaning kept |
| ArrayGen.ArrayGen.EmitInitialization | pysrc/codegen.py:1012-1068 | executing the emitted lines gives every position the value of the last original entry that covers it, a missing index taking any value present for it, and leaves other positions alone; also in terms of the entries and lines alone |
| EnumSpec.ReadingsAgree | pysrc/enumer.py:244-249 | Python and C read a number alike if and only if it is not a decimal of 8 or more behind a leading zero |
| EnumSpec.MakeNumberIs | pysrc/enumer.py:244-249 | hexadecimal behind 0x, decimal otherwise; an empty text and 0x without hexadecimal digits only behind it raise an error |
| EnumSpec.CConstantIs | pysrc/enumer.py:354-387 | a C constant is hexadecimal behind 0x, octal behind another 0, decimal otherwise |
| EnumSpec.CValueIs | pysrc/enumer.py:354-387 | an enumerator counts on from the last one before it that was given a number, or from zero |
| EnumSpec.DensePositions | pysrc/enumer.py:260-297 | in an accepted list every number given is the position of its name, as Python reads it |
| EnumSpec.DenseIsPositional | pysrc/enumer.py:354-387 | C numbers an accepted list by position if and only if none of its numbers is misread |
| EnumSpec.MisreadExample | pysrc/enumer.py:244-249 | an eleventh name with the value text 010 is accepted as ten and is eight in C |
| EnumSpec.AliasRefersBack | pysrc/enumer.py:283-293 | every alias names an enumerator emitted before it |
| EnumSpec.AliasHasValue | pysrc/enumer.py:375-386 | in a list numbered by position every alias has the value of a name of the table |
| EnumSpec.AliasValueIs | pysrc/enumer.py:375-386 | an alias has the value of the enumerator that it names |
| Enumer.Unique | pysrc/enumer.py:298-319 | every name once with its latest value, INVALID first and the others in order of first use; it fails exactly when a name comes with two values |
| Enumer.ScanForDense | pysrc/enumer.py:260-297 | the scan accepts exactly the dense lists and then marks exactly the aliases; it raises an error exactly when the first value that is neither in place nor an alias is a text taken for a number that is none: empty, or 0x without hexadecimal digits only behind it |
| Enumer.DenseIsMarked | pysrc/enumer.py:260-297 | a list is accepted exactly when its values can be marked so that every marked one names an earlier value, and every other one has no number or the count of the unmarked ones before it |
| Enumer.PartitionDuplicates | pysrc/enumer.py:251-259 | exactly the unmarked and exactly the marked values, each in order; after the scan these are the enumerators and the aliases |
| Enumer.DenseTableIsDirect | pysrc/enumer.py:420-428 | the name table has every value at its own position if and only if no number is misread |
| Enumer.DenseToString | pysrc/enumer.py:567-581 | in a table with every value at its own position: the name that the search finds for the value, cut at the last one |
| Enumer.SparseToString | pysrc/enumer.py:547-565 | the search for the first row with the value |
| Enumer.DenseAgreesWithSparse | pysrc/enumer.py:547-581 | the two agree on every value up to the last, and the search finds nothing above it |
| Enumer.AgreementNeedsPositions | pysrc/enumer.py:547-581 | with names that differ from each other and from the unknown text, direct look-up and search agree up to the last value if and only if every value is at its own position |
| Enumer.FromString | pysrc/enumer.py:504-539 | the first row with the name, then the first alias, then the invalid value |
| Enumer.RoundTrip | pysrc/enumer.py:504-581 | parsing what is shown gives every value back if and only if no two shown texts are equal |
| Enumer.AliasParses | pysrc/enumer.py:504-539 | the text of every alias, also one that stands for another alias, where no table name and no earlier alias has the same text, parses to the value that C gives the alias; in a table with every value at its own position, that value is shown as a name of the table |
| AsmNumber.WrapStep | examples/xed-util-asmparse.c:523-560 | one digit more on a 64-bit value equals the digit on the unbounded number, wrapped |
| AsmNumber.AsmIsNumber | examples/xed-util-asmparse.c:485-583 | exactly the literals of the four bases are accepted, with their value wrapped to 64 bits; the branch for a value too big to be negated is never taken |
| AsmNumber.LiteralBases | examples/xed-util-asmparse.c:514-567 | a literal without a sign is binary behind 0B, hexadecimal behind 0X, octal behind another 0 and decimal otherwise, and none when a character is no digit of its base |
| AsmNumber.LiteralSigns | examples/xed-util-asmparse.c:508-516 | a minus sign, or the caller's wish, negates the number, once; a plus sign does not |
| AsmNumber.LiteralStarts | examples/xed-util-asmparse.c:508-519 | a literal starts with a digit behind at most one sign |
| AsmNumber.LiteralInvertsPrinting | examples/xed-util-asmparse.c:485-583 | reading a number printed in binary, octal, decimal or hexadecimal gives it back, for every integer |
| AsmNumber.ReadsBack | examples/xed-util-asmparse.c:485-583 | the parser reads a printed number back if and only if it fits in 64 bits with a sign |
| AsmLine.PrefixesAreMaximal | examples/xed-util-asmparse.c:254-308 | the prefixes are the maximal leading run of prefix words, and the other words are left |
| AsmLine.PrefixesAre | examples/xed-util-asmparse.c:257-263 | the twelve prefix words |
| AsmLine.SpacesAre | examples/xed-util-asmparse.c:254-327 | the six characters that separate words |
| AsmLine.OperandsAreTrimmed | examples/xed-util-asmparse.c:329-369 | no operand has spaces around it or a comma in it |
| AsmLine.LineInvertsWriting | examples/xed-util-asmparse.c:1015-1046 | prefixes, mnemonic and operands of a line that is written out are read back |
| AsmParse.LineParsed.GrabPrefixes | examples/xed-util-asmparse.c:254-308 | the prefixes of the text are put in front of the list, in reverse |
| AsmParse.LineParsed.GrabInst | examples/xed-util-asmparse.c:310-327 | the next word, and what follows it |
| AsmParse.LineParsed.GrabOperand | examples/xed-util-asmparse.c:329-369 | the trimmed text up to the next comma is put in front of the list |
| AsmParse.LineParsed.RefineOperands | examples/xed-util-asmparse.c:1001-1012 | the refined operands are the reverse of the list; it fails exactly on a bad operand |
| AsmParse.LineParsed.ParseLine | examples/xed-util-asmparse.c:1015-1046 | prefixes, mnemonic and operands are those of the line, and the refined operands are in the order of the line |
| AsmParse.WrittenIsParsed | examples/xed-util-asmparse.c:1015-1046 | a line that is written out is parsed to its own prefixes, mnemonic and operands |

## Left out

- The XED decoder, encoder and formatter, and the datafiles: not part of this model; the decoder is an arbitrary function, with a bound on its length only where a lemma says so.
- `tup2int`, `ild_cdict` and the perfect hash of the tables are not part of this model; the packing of `constraint_vec_gen.py` stands for the first, a map from tuples to rows for the last.
- Allocation failure, freeing and the destructors of the C data structures.
- The symbol table keeps its trees as values: a local table is an index into the list of all tables made, so the section tree and the current table can share one, but the nodes are not on the heap there; `Avl.AvlTree` has them on the heap.
- The buffer writes of the callback beyond the cut name, and the null characters that the line parser writes into its buffer: texts are values.
- SymbolTable.SymbolTable.DisassemblyCallback: not for a buffer of length zero, for which the C function subtracts one from the unsigned length and writes the terminator outside the buffer.
- The decode-and-encode mode of the scanner, its printing, statistics and graph output.
- DisasScan.RunTiles: assumes that the decoder reports no more bytes than it was given, as a decoder must; without it the position can leave the region.
- The names and layout of nodes in the graph file, and the dotted edge style, which nothing uses.
- Nonterminal and lookup-function columns, return statements and emit actions of `actions_codegen.py`: they repeat the column scheme of the fields.
- Emission of C text: emitted functions are sequences of abstract lines; comments and layout are dropped.
- Parsing of the chip file, and the additional chip ALL with its sorted isa-set list, which only collects names.
- Cyclic chip definitions, on which the program recurses without end: `ChipModel.ChipModel` starts from a rank that falls along every reference.
- The bit layout of the hexadecimal flag masks: a simple row holds the sets of flags read, written and undefined.
- FlagGen.FlagTables.AssignActionIndex: for more than 100 actions only the first 100 are recovered; `FlagGen.LongListsCollide` shows that no more can be said.
- The index dictionaries that `emit_initialization` rejects because they hold dictionaries, the lookup functions of arrays, and the splitting of function lists into files.
- Values that Python's `int` reads with underscores or surrounding space in enumerations; values of sparse enumerations in C.
- Enumerator values given as names in sparse enumerations behind the first misfit, which are emitted without a prefix.
- Memory references, registers, decorators and far pointers of the line parser: `refine_operand` is a parameter.
- The tokenizer and the hexadecimal printing helpers of `xed-examples-util.c`, the ELF, Mach-O, PE and nm readers, the build scripts, and `enc2test.py`, `enc2argcheck.py`, `classifier.py`, `ctables.py`, `cpuid_rdr.py`: not part of this model; they read or write file formats of other programs, print, or run tools, and keep no data structure whose properties go beyond those above.
