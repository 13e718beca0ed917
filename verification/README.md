# Verified models of the P4 compiler core

Dafny models of the parts of the P4 reference compiler whose correctness rests on invariants over many steps:
the IR visitors over shared graphs, the pass manager with backtracking, the generation of P4Runtime control-plane
data, the multiword bit vectors, the printers and parsers that go with them, and the vectors that a visitor rewrites
in place. `dafny verify dfyconfig.toml` checks everything.

* **IR visitors.** `IrGraph` has the graphs of nodes and the trees they unfold to. `IrModifier` models the
  `ChangeTracker` and `Modifier`: the memo table, cloning, forwarding of children and the comparison that decides whether
  the clone is kept. One application is the bottom-up recursion over the unfolded tree, and it fails exactly on graphs
  with a loop. `EdgeCount`, `SetupPass` and `JoinPass` model `ControlFlowVisitor`: a first traversal counts the edges into
  every node, a second one visits each node in the merged state when the last edge into it has been traversed. `FlowLog`
  follows the states: what each visit starts from, sends along each edge, gets back and ends with, and how the
  branches of an if statement are visited by clones of the visitor and merged.
* **Pass manager.** `Backtracking` keeps a history of runs and questions; which event may come next is stated without the
  backup stack, and the loop with the stack produces exactly such histories. `PassRepeated` repeats rounds.
* **P4Runtime.** `MatchMeaning` has what key expressions mean in P4 and what field matches mean in P4Runtime (section
  9.1.1, "Match Format", of the P4Runtime specification), `EntriesConverter` the translation of `const entries`,
  `Acceptance` which of them are translated, `Priorities` which tables need priorities, `LpmOrder` tables without, `MaskSets` the
  sets of keys under masks, `Bytestrings` and `BigInt` the numbers. `SymbolIds` and `SymbolTable` assign ids by hashing and
  probing, `SymbolNames` and `SuffixTrie` find aliases, `FieldIds` numbers match fields and parameters, `EvaluatedBlocks` is the block worklist.
* **Bit vectors.** A `Bitvec` holds one word or an array of 64-bit words and stands for a set of numbers (`BitWords`,
  `WordRanges`, module `BitVectors` in Bitvec.dfy, `SizeBits` for its growth). `BitRotation`, `BitRanges` and `BitHex` build on it.
* **Text.** `JsonGrammar` says which texts stand for a tree by RFC 8259, `JsonLayout` how they are laid out; `JsonStrings`, `JsonText`,
  `JsonReading`, `JsonRoundTrip`, `JsonReadBack` and `JsonStreams` are the JSON writer and reader;
  `MatchText` and `DecimalText` are the ternary `match_t`.
* **Vectors.** `IrVectors` has `IR::Vector` and `IR::IndexedVector` with its name index.

Objects that the source updates in place are classes, and their methods are proved against functions and predicates on
values; what the source promises is proved about those. Some predicates read `forall z | Open(s, z) :: P` (or `Look`,
`Peek`, `Opened`, `Reading`, `OpenPlan`, `OpenLog`, `OpenGrown`, `OpenBranches`, `EnteredOpen`): the guard is always true, so they say `P`; a proof mentions the guard where it needs to look inside.

Where the code does not do what its documentation or its callers expect, the model follows the code, and the exact
condition is a theorem:

* The converter reads the value under a cast and ignores the cast. What it writes for a single value or the bounds of a range keeps its
  meaning if and only if the casts do not change the value; under a mask, if and only if the mask is what it means within the
  width and the value has the same bits under it (`EntriesConverter.KeepsMeaning`). With `enum bit<8> E { A = 31 }`, the entry
  `(bit<8>)(bit<4>)(bit<8>)E.A` matches 15 and is written as 31 (`LossyCast`); under the mask 15 it keeps its meaning, under
  16 it does not (`LossyCastMasked`). `SignExtended` has a cast that extends a sign.
* An LPM mask that passes the prefix test keeps its meaning only if it is within the width of the key, and then for a value that no cast
  changes (`EntriesConverter.LpmMaskLowered`, `LpmMaskWithinWidth`; `WideLpmMask` has `0 &&& 22` on 4 bits). Type inference cuts constants to the width of
  their type (ir/expression.cpp:64-109), so such a mask gets here only in IR that has not been typed in this way.
* Members of enums without a representation, like `error.NoError`, are given up without a word. What is written then means what
  the entry means only if the field is left out and the expression matches every key: for a single value if and only if
  the key has no bits and the value is 0 (`EntriesConverter.SilentValue`, `SilentMask`, `SilentRange`).
* Emitted matches number the key fields of supported kinds by position, while P4Info numbers all key elements with
  `FieldIdAllocator`. The two agree if and only if the annotation of every supported element is its number, annotations of
  other elements are above all numbers, and before a supported element without an annotation there are unsupported
  ones with annotations only: none before the first such element, and at most one since the one before
  (`FieldIds.NumbersAgree`). If all kinds are supported this says that every annotation is a position (`PositionsAgree`); if
  all annotations are positions, that no unsupported element comes before a supported one (`UnsupportedComeLast`).
  `SelectorFirst` and `SelectorFirstAnnotated` have a key with a selector in front. Otherwise some entry changes its meaning
  (`MatchMeaning.NumbersMatter`).
* Without priorities, in a table with a single LPM field, the longest prefix is the first match for all keys if and only if
  each entry whose prefix is within that of an earlier entry is covered by the entries before that one; covered means that it is within
  one of their prefixes, or that both its halves are covered (`LpmOrder.SameChoiceExactly`; `ShortBeforeLong` has an input).
* An alias is the text of the shortest unique suffix if and only if that suffix does not begin with an empty component
  followed by another (`SymbolNames.AliasIsNeeded`). Two symbols have the same alias if and only if what one of them needs is
  the other, whole, after empty components (`SymbolNames.SameAliasExactly`): `t` and `.t` have (`SameAlias`), `.a` and `b.a` have
  not, although the first loses its dot (`LostDotAlone`).
* The ids right after the symbols have been added do not depend on their order if and only if no two annotations contradict
  each other (`SymbolIds.OrderMattersUnless`). The same is true of the final ids (`SymbolIds.FinalOrderMattersUnless`) unless one symbol is
  added both with a valid id and without one: then it depends on the hash.
* The formula in the comment on `match_t` agrees with `matches` if and only if every bit is set in one of the two words
  (`MatchText.DocumentedExactly`).
* Octal text shifts its mask out at bit 63 and then shows only some of the bits; the condition under which printing and parsing
  preserve a match is `MatchText.PrintThenParse`, spelled out by `MatchText.AllDigitsFit` and `MatchText.OctalCutsOff`; `OctalLosesBit`
  has a match that loses bit 4.
* Decimal text is read as the number it denotes if and only if no digit shares a bit with ten times the number before it, and
  as a smaller one otherwise (`DecimalText.ReadExactly`); 12 is read as 10 (`TwelveIsTen`).
* The JSON reader reads a string back if and only if it is escape-closed (`JsonStrings.StringReadBack`), and a number if and only if
  something other than a digit follows (`JsonRoundTrip.NumberReadBack`). A tree is read back if and only if all its strings and labels
  are escape-closed and a number at the root is followed so (`JsonReadBack.TextReadBack`); everything that the reader returns
  is such a tree (`JsonReadBack.ReadAgain`). A number with a leading zero, which is not JSON, is read in base eight
  (`JsonGrammar.LeadingZeroIsOctal`). At the end of the input it does not come back from a number
  (`NumberAtEnd`).
* Exchanging the names of two declarations marks an `IndexedVector` as invalid although no two names are the same in
  the end (`IrVectors.ExchangeClashes`).
* With `setRepeats(n)` there are n + 1 rounds if and only if none of the first n is the last (`PassRepeated.OneRoundMore`);
  `TwoRoundsForOne` has two rounds for a limit of one.

## Model

| member | source | states |
|---|---|---|
| IrModifier.Modifier.Apply | ir/visitor.cpp:280-310 | stops with a loop error exactly if the root has no finite unfolding; otherwise the result unfolds to the bottom-up map of the hooks over the unfolded input, is the same pointer exactly if that tree is unchanged, given nodes stay as they were, each hook is applied once to every reachable node and to nothing else, all parents get the same result of a shared child, and the postorder hook is given the data after preorder and, in order, nothing for a null child and the data of the result's child for every other; with and without forwarding of children |
| IrModifier.Modifier.ApplyVisitor | ir/visitor.cpp:280-310 | the same for one pointer in the middle of a traversal: nodes made by it come back as they are, given nodes become the result that the table keeps for them, and earlier results stay |
| IrModifier.Modifier.VisitNewNode | ir/visitor.cpp:291-304 | a node met for the first time ends up finished in the table with the rewriting of its tree, whatever was in progress above it |
| IrModifier.Modifier.StartNode | ir/visitor.cpp:292-299 | a fresh clone enters the heap with the data after preorder and children that are the original ones or their results; the node is in progress |
| IrModifier.Modifier.ForwardChildren | ir/visitor.cpp:269-277 | exactly the children that are done become their results; nothing else in the heap changes |
| IrModifier.Modifier.VisitChildren | ir/visitor.cpp:300 | all children of the clone become results of the original ones, in their places; the data of the clone and all other nodes stay |
| IrModifier.Modifier.VisitChild | ir/visitor.cpp:300 | one more child is a result, also if forwarding had replaced it before; the others stay as they were |
| IrModifier.Modifier.FinishNode | ir/visitor.cpp:302-304 | the clone becomes the result if it differs from the original, and the original is kept if not |
| IrModifier.Modifier.constructor | ir/visitor.cpp:280-310 | the graph, the hooks and the forwarding flag are those given |
| IrModifier.ChangeTracker.Start | ir/visitor.cpp:45-58 | adds an entry in progress for a new node and keeps an existing one as it is; the loop error comes exactly for a node in progress |
| IrModifier.ChangeTracker.Finish | ir/visitor.cpp:73-96 | a node has changed exactly if it was removed, differs from the original or is one already visited; its result is recorded and a new result is itself finished; other entries stay |
| IrModifier.ChangeTracker.Clear | ir/visitor.cpp:305-308 | nothing is tracked any more |
| IrModifier.ChangeTracker.constructor | ir/visitor.cpp:32-39 | nothing is tracked at first |
| IrModifier.RewrittenFromChildren | ir/visitor.cpp:291-304 | a node with rewritten children and the postorder data unfolds to the rewritten tree, and equals the original exactly if that tree is unchanged |
| IrModifier.HookSawChildren | ir/visitor.cpp:300-302 | the data of a result is what the postorder hook makes of one argument for each child, in order: nothing exactly for null pointers, and else the data of the node that the child pointer of the result leads to |
| IrModifier.AddsUp | ir/visitor.cpp:280-310 | with a postorder hook that adds the data of all children, the data of the result is the sum over all nodes of the unfolded input |
| IrModifier.EntriesAfterStart | ir/visitor.cpp:45-58 | starting a reachable node keeps all entries of the table correct |
| IrModifier.EntriesAfterFinish | ir/visitor.cpp:73-96 | finishing a node keeps all entries correct, whether the clone is kept or dropped |
| IrModifier.ChildIsBelow | ir/visitor.cpp:284-300 | below a node with a finite tree everything in progress lies strictly above a child, so that meeting it again means a loop |
| IrModifier.InvAtEnd | ir/visitor.cpp:280-310 | what holds between steps gives the refinement, the set of nodes visited and the sharing of results once nothing is in progress |
| IrGraph.UnfoldsUnique | ir/visitor.cpp:280-310 | a pointer unfolds to at most one tree, so the meaning of a graph is well defined |
| SetupPass.SetupJoinPoints.ApplyVisitor | ir/visitor.cpp:312-336 | every arrival is counted once and finished nodes stay finished; the loop error means that a loop can be reached |
| SetupPass.SetupJoinPoints.VisitNewNode | ir/visitor.cpp:321-330 | a node met for the first time is finished, with all nodes below it, and every edge followed on the way has been counted |
| SetupPass.SetupJoinPoints.VisitChildren | ir/visitor.cpp:325 | all edges out of the node have been followed and counted, and the nodes they lead to are finished |
| SetupPass.SetupJoinPoints.VisitChild | ir/visitor.cpp:325 | one more edge has been followed and counted |
| SetupPass.SetupJoinPoints.FinishNode | ir/visitor.cpp:328-330 | the node is done, and ranks above all nodes it has edges to |
| SetupPass.AfterRevisit | ir/visitor.h:381 | one more on the counter of a node already met makes up for the edge just followed |
| SetupPass.NoCycleInOrder | ir/visitor.h:371-384 | an order that puts children first excludes loops |
| JoinPass.SetupGivesPlan | ir/visitor.h:376-384 | after the first traversal the counters are the numbers of edges into reachable nodes, and join points are exactly the nodes with more than one |
| JoinPass.ControlFlowVisitor.Apply | ir/visitor.cpp:312-336 | fails exactly if a loop can be reached; otherwise every reachable node is visited, none twice, none before a node with an edge to it, and each in the merge of all the states that arrived, one for every edge into it; the states that arrive are those sent along the edges; a visit sends along its first edge what preorder made of its entry state and along each next one what came back from the last, which is the exit state of the child if it was visited along that edge; the branches of a node are all entered in the state before the first one, and what comes back from them is merged in order; the visit ends in what postorder makes of the last state, and the traversal in the exit state of the root |
| JoinPass.ControlFlowVisitor.InitJoinFlows | ir/visitor.cpp:446-456 | the counters are the numbers of edges from reachable nodes, and nothing has been visited |
| JoinPass.ControlFlowVisitor.SetJoinPoints | ir/visitor.cpp:446-456 | a join point without an accumulator for every node counted more than once |
| JoinPass.ControlFlowVisitor.JoinFlows | ir/visitor.cpp:458-488 | a visit is put off exactly if an edge into the node is still to come; the accumulator takes in the state, and the last arrival takes in the accumulator |
| JoinPass.ControlFlowVisitor.ArriveAt | ir/visitor.cpp:458-488 | an arrival that is put off keeps the whole invariant and the state; one that is the last leaves the node ready to be entered in the merged state |
| JoinPass.ControlFlowVisitor.ApplyVisitor | ir/visitor.cpp:312-336 | one arrival keeps the invariant that ties counters, accumulators, visited nodes, the order of visits and the flow of states together; the state arrives, and what comes back is the exit state of the node if it was visited now, and the state unchanged if not |
| JoinPass.ControlFlowVisitor.VisitNode | ir/visitor.cpp:321-330 | a visit started on the last arrival finishes the node, leaves its exit state and keeps that invariant |
| JoinPass.ControlFlowVisitor.StartNode | ir/visitor.cpp:321-324 | the visit is entered in the current state along the current edge, and goes on in what preorder makes of it |
| JoinPass.ControlFlowVisitor.FinishNode | ir/visitor.cpp:327-330 | the visit ends in what postorder makes of the state after the last edge |
| JoinPass.ControlFlowVisitor.VisitChildren | ir/visitor.cpp:325 | all edges out of the node have been followed, each from the state that the one before left, except for the branches, which are followed from the same state and merged |
| JoinPass.ControlFlowVisitor.VisitBranches | ir/ir.def:446-452 | all branches have been followed and the state is that of the first one with the others merged in, in order |
| JoinPass.ControlFlowVisitor.VisitClones | ir/ir-inline.h:116-129 | the branches after the first have been followed from the state before the first and merged in |
| JoinPass.ControlFlowVisitor.VisitBranch | ir/expression.def:339-342 | one more branch has been followed by a clone and merged in |
| JoinPass.ControlFlowVisitor.VisitChild | ir/visitor.cpp:325 | one more edge has been followed from the current state, which is that of the visitor or of a clone, and the state that came back is the current one |
| FlowLog.SendOk | ir/visitor.cpp:325 | sending the current state along the next edge keeps the account of states right |
| FlowLog.ArriveOk | ir/visitor.cpp:458-488 | an arrival along an edge that has just been sent along keeps it right |
| FlowLog.EnterOk | ir/visitor.cpp:314-324 | entering a node on its last arrival keeps it right |
| FlowLog.ReturnOk | ir/visitor.cpp:325 | coming back along an edge keeps it right: with the exit state of a child that was entered along it, with the same state otherwise |
| FlowLog.ExitOk | ir/visitor.cpp:327-330 | ending a visit in the postorder state keeps it right |
| FlowLog.BranchesAlike | ir/ir.def:446-452 | all branches of a node are entered in the same state |
| FlowLog.VisitExactly | ir/visitor.cpp:321-330 | in an ended visit preorder comes first and postorder last, each edge gets what came back from the one before, branches all get what the first one gets, and what follows them gets their results merged; the exit state comes back from a child entered along the edge, and else what was sent |
| JoinPass.RootEntered | ir/visitor.cpp:446-456 | the root is visited by the initial call and along no edge |
| JoinPass.StillWaiting | ir/visitor.cpp:459-471 | an edge never leads to a node that has had all its arrivals: no join point is reached too often |
| JoinPass.LastArrival | ir/visitor.cpp:469-473 | when the last edge into a node is followed, every node with an edge to it has been visited |
| JoinPass.NoneLeftWaiting | ir/visitor.cpp:458-488 | in the end no reachable node is left waiting |
| JoinPass.VisitsInOrder | ir/visitor.cpp:312-336 | the visits are a topological order of the reachable nodes, each once |
| JoinPass.TraversedAtEnd | ir/visitor.cpp:312-336 | the invariant and finished visits give the guarantee of the whole traversal |
| JoinPass.PlanHoldsReachable | ir/visitor.cpp:446-456 | exactly counted edges imply that no loop can be reached |
| JoinPass.MergeAllIsJoin | ir/visitor.cpp:471-486 | if merging is a join, the state of a visit is the least upper bound of all states that arrived, whatever their order |
| JoinPass.FoldIsJoin | ir/visitor.cpp:471-486 | if merging is a join, what is left after the branches, or in the accumulator of a join point, is the least upper bound of what was merged |
| Backtracking.PassManager.ApplyVisitor | ir/pass_manager.cpp:47-101 | the history is one that the rules for successes, errors, null programs, early exits and triggers allow up to its end, and the outcome is the one they give; the loop ends if triggers are accepted a bounded number of times |
| Backtracking.PassManager.RunPass | ir/pass_manager.cpp:64-77 | a run is an event of the history and decides what may come next |
| Backtracking.PassManager.Unwind | ir/pass_manager.cpp:78-93 | either nothing accepts and the trigger leaves the pass manager, or the nearest earlier pass that accepts is next, on the program saved for it |
| Backtracking.PassManager.Ask | ir/pass_manager.cpp:84-89 | a question is an event of the history; acceptance means running that pass on its saved program, refusal means asking the next earlier one |
| Backtracking.PassManager.constructor | ir/pass_manager.cpp:47-62 | the passes and answers are those given, and the manager may be applied |
| Backtracking.PushAndRun | ir/pass_manager.cpp:61-67 | saving the program before a run keeps the stack in pass order, with the last input of every pass that may catch a trigger before the current one |
| Backtracking.NearestIsLast | ir/pass_manager.cpp:80-86 | the last entry for another pass is the nearest earlier pass that may catch a trigger |
| Backtracking.EmptyStack | ir/pass_manager.cpp:80-92 | an empty stack means that there is no such pass |
| Backtracking.PrevCapable | ir/pass_manager.cpp:61-63 | the nearest pass strictly before another that may catch a trigger, if there is one |
| Backtracking.PathIsConsistent | ir/pass_manager.cpp:59-98 | in every history each program on the current path is what the last run of the pass before it made of the program before it |
| Backtracking.AcceptedTriggerResumes | ir/pass_manager.cpp:84-93 | a pass that accepts is run next on exactly the program that it was given on the current path |
| Backtracking.TriggerUnwinds | ir/pass_manager.cpp:78-93 | the questions about a trigger go to strictly earlier passes, each at most once and none skipped, up to the first that accepts |
| Backtracking.QuestionFollows | ir/pass_manager.cpp:80-89 | a question follows a trigger or a refusal, and goes to the nearest earlier pass |
| Backtracking.RethrownOnlyIfAllRefuse | ir/pass_manager.cpp:90-92 | a trigger leaves the pass manager only when all passes before the thrower that may catch it have refused it |
| Backtracking.AfterEachRun | ir/pass_manager.cpp:68-98 | in every history a successful run with new errors is the last event, and the outcome is its input, if errors are to stop the passes; one that returned nothing, came after a request for an early exit or was of the last pass is the last event, and the outcome is what it returned; after every other the next pass runs on what it returned |
| Backtracking.FinishedOnlyThen | ir/pass_manager.cpp:72-101 | the passes finish only after such a run, or if there are none |
| Backtracking.AfterEachTrigger | ir/pass_manager.cpp:78-94 | a run that threw a trigger is followed by a question about it or by the end with it, and each answer is that of the pass asked |
| PassRepeated.ApplyVisitor | ir/pass_manager.cpp:126-144 | the rounds go on up to the first that returns nothing, changes nothing or fails, or until there have been one more than the limit; no round before the last has reported errors that are to stop them, and if the last one has, the result is its input, and else what it returned |
| PassRepeated.FixedPoint | ir/pass_manager.cpp:130-143 | if there is no limit and a round does the same whenever it happens, all further rounds would return the result of the last one |
| PassRepeated.OneRoundMore | ir/pass_manager.cpp:138-140 | with a limit of n there are n + 1 rounds exactly if none of the first n is the last |
| PassRepeated.TwoRoundsForOne | ir/pass_manager.cpp:138-140 | a limit of one round and two rounds |
| EntriesConverter.Converter.AddTableEntries | control-plane/p4RuntimeSerializer.cpp:1463-1500 | appends one message per entry, with priorities n to 1 or none; reports an error exactly if some key expression is not acceptable; and if there is none, every key expression keeps its meaning (no cast changes a single value or a bound, what a mask keeps, or the mask; LPM masks within the width; nothing given up that matters) and the fields are numbered in order, the message chosen for a key tuple is that of the first entry in program order that matches, where priorities are needed, which `Priorities.PriorityExactly` tells |
| EntriesConverter.Converter.AddTableEntry | control-plane/p4RuntimeSerializer.cpp:1476-1491 | appends one message with the table id, the priority if one is needed, and the translation of the key, which means what the key means if every key expression keeps its meaning |
| EntriesConverter.Converter.TableNeedsPriority | control-plane/p4RuntimeSerializer.cpp:1504-1515 | true exactly if some key element is a ternary, range or optional match, which is when some entries need priorities (`Priorities.PriorityExactly`) |
| EntriesConverter.Converter.AddMatchKey | control-plane/p4RuntimeSerializer.cpp:1561-1590 | the matches of all key fields in order, each of the kind of its field, numbered from 1 without the unsupported kinds; an error exactly if some expression is not acceptable for its kind; without one, translations of the key expressions if all keep their meaning |
| EntriesConverter.Converter.AddKeyField | control-plane/p4RuntimeSerializer.cpp:1573-1588 | the match of the kind of the field, which means what the expression means exactly if it keeps its meaning; a kind that is not supported adds nothing and accepts only the don't care |
| EntriesConverter.Converter.ConvertSimpleKeyExpression | control-plane/p4RuntimeSerializer.cpp:1595-1620 | bytes that decode to the value, exactly for expressions whose value is found and not negative, whatever their casts; otherwise none, without an error for a member that does not resolve and with one error for all else; the width of an enum has to be that of the key, or the compiler stops with a bug |
| EntriesConverter.Converter.SimpleKeyExpressionValue | control-plane/p4RuntimeSerializer.cpp:1625-1646 | the value of a constant, boolean or enum member under any casts; otherwise none, without an error for a member that does not resolve and with one error for all else |
| EntriesConverter.Converter.AddExact | control-plane/p4RuntimeSerializer.cpp:1648-1657 | no error exactly if the value is found and not negative or is a member that does not resolve; without one, a canonical match that holds of exactly the values that the expression matches, exactly if the value found is the value meant: a cast that changes it breaks this, and for the member the value is unset |
| EntriesConverter.Converter.AddLpm | control-plane/p4RuntimeSerializer.cpp:1659-1700 | an error exactly if a value is not found and reported or negative, or the mask is no prefix by the test; without one, a canonical prefix match of the same meaning, or none for a don't care, exactly if the mask is within the width and keeps the bits meant of the value, a single value is the one meant, or what is given up matches everything |
| EntriesConverter.Converter.AddTernary | control-plane/p4RuntimeSerializer.cpp:1702-1734 | without an error, a canonical match of the same meaning with the value masked, or none for a don't care, exactly if the mask is the one meant within the width and keeps the bits meant of the value, a single value is the one meant, or what is given up matches everything |
| EntriesConverter.Converter.AddRange | control-plane/p4RuntimeSerializer.cpp:1736-1770 | an error for an empty range; without one, a range match of the same meaning, or none for the full range, exactly if the bounds found are those meant, or what is given up matches everything |
| EntriesConverter.Converter.AddOptional | control-plane/p4RuntimeSerializer.cpp:1772-1783 | without an error, a canonical match of the same meaning, or none for a don't care, exactly if the value found is the one meant: for a member that does not resolve it is unset |
| EntriesConverter.LpmMaskLowered | control-plane/p4RuntimeSerializer.cpp:1666-1699 | the prefix written for a mask that passes the test means the same if and only if the mask is within the width and casts have not changed the bits that it keeps of the value |
| EntriesConverter.LpmMaskWithinWidth | control-plane/p4RuntimeSerializer.cpp:1666-1699 | for a value that no cast changes, if and only if the mask is below two to the width |
| EntriesConverter.WideLpmMask | control-plane/p4RuntimeSerializer.cpp:1675-1679 | a mask of 22 on 4 bits passes the test, and the prefix does not match 8, which the mask does |
| EntriesConverter.SilentValue | control-plane/p4RuntimeSerializer.cpp:1601-1605 | leaving out a single value that is given up keeps the meaning exactly if the key has no bits and the value is 0 |
| EntriesConverter.SilentMask | control-plane/p4RuntimeSerializer.cpp:1709-1713 | leaving out a mask keeps the meaning exactly if it has no bits within the width and the value has none under it |
| EntriesConverter.SilentRange | control-plane/p4RuntimeSerializer.cpp:1742-1746 | leaving out a range keeps the meaning exactly if it is the whole range |
| EntriesConverter.TernaryMaskLowered | control-plane/p4RuntimeSerializer.cpp:1709-1733 | the masked value with its mask is canonical and means the same if and only if the mask is the one meant within the width and the value under it is |
| EntriesConverter.RangeLowered | control-plane/p4RuntimeSerializer.cpp:1742-1769 | the bounds as byte strings mean the same if and only if they are those meant |
| EntriesConverter.DontCareLowered | control-plane/p4RuntimeSerializer.cpp:1662-1663 | a default matches every key, as does a field left out |
| EntriesConverter.ZeroMaskLowered | control-plane/p4RuntimeSerializer.cpp:1720-1721 | leaving out a mask found to be 0 is right if and only if it means 0 within the width and the value has no bits under it |
| EntriesConverter.WholeRangeLowered | control-plane/p4RuntimeSerializer.cpp:1756-1757 | leaving out the whole range is right if and only if the bounds are those meant |
| EntriesConverter.LossyCast | control-plane/p4RuntimeSerializer.cpp:1612-1613 | `(bit<8>)(bit<4>)(bit<8>)E.A` with 31 for `E.A` is acceptable, means 15 and is written as 31 |
| EntriesConverter.LossyCastMasked | control-plane/p4RuntimeSerializer.cpp:1640-1641 | under the mask 15 the same value keeps its meaning, under 16 it does not |
| EntriesConverter.SignExtended | control-plane/p4RuntimeSerializer.cpp:1612-1613 | a cast through a signed type means 255 where 15 is found |
| MaskSets.SameMaskedKeys | control-plane/p4RuntimeSerializer.cpp:1709-1733 | two masked values match the same keys if and only if the masks agree within the width and the values are the same |
| MaskSets.AllKeys | control-plane/p4RuntimeSerializer.cpp:1709-1713 | a mask matches all keys if and only if it has no bits within the width and the value is 0 |
| MatchMeaning.SimpleExpr | control-plane/p4RuntimeSerializer.cpp:1625-1646 | an expression has a value for P4 exactly if the converter finds one or gives it up without a word, never both |
| EntriesConverter.ProgramOrderIsPriority | control-plane/p4RuntimeSerializer.cpp:1474-1491 | for every key tuple the entry of highest priority that matches is the first in program order, in both directions |
| EntriesConverter.ProbeIsAccepted | control-plane/p4RuntimeSerializer.cpp:1561-1590 | the entry that shows a different numbering to matter is translated without an error |
| Priorities.PriorityExactly | control-plane/p4RuntimeSerializer.cpp:1504-1515 | the table gets priorities if and only if there are two entries, translated without an error and with their meaning kept, whose messages hold of one tuple although in some field neither exact values nor longer prefixes decide between them |
| Priorities.PrefixesDecide | control-plane/p4RuntimeSerializer.cpp:1504-1515 | in a table that gets none, two messages that hold of one tuple have the same exact values and nested prefixes |
| Priorities.ZeroAndAny | control-plane/p4RuntimeSerializer.cpp:1504-1515 | for each of the ternary, range and optional kinds there are two such entries |
| Priorities.FieldTranslated | control-plane/p4RuntimeSerializer.cpp:1573-1588 | in the message for an entry the match with the number of a field is of its kind and means what its key expression means |
| Priorities.ChosenOrDecided | control-plane/p4RuntimeSerializer.cpp:1474-1491 | either priorities choose the first entry that matches, or any two messages that hold of one tuple are decided in every field |
| Acceptance.DefaultAccepted | control-plane/p4RuntimeSerializer.cpp:1659-1663 | a don't care is translated for all kinds but exact |
| Acceptance.ValueAccepted | control-plane/p4RuntimeSerializer.cpp:1595-1620 | a value is translated for all supported kinds exactly if it is not negative |
| Acceptance.MaskAccepted | control-plane/p4RuntimeSerializer.cpp:1666-1679 | a mask is translated for a ternary field exactly if it is not negative, for an LPM field, within its width, exactly if it is ones followed by zeros, and for no other |
| Acceptance.RangeAccepted | control-plane/p4RuntimeSerializer.cpp:1742-1757 | a range is translated for a range field exactly if it is not empty and does not begin below zero, and for no other |
| Acceptance.PrefixMaskExactly | control-plane/p4RuntimeSerializer.cpp:1670-1679 | within the width the test for prefix masks is passed exactly by ones followed by zeros |
| LpmOrder.SameChoiceExactly | control-plane/p4RuntimeSerializer.cpp:1474-1491 | in a table with a single LPM field and no priorities, the entry with the longest prefix is the first that matches, for all keys, if and only if each entry whose prefix is within an earlier one is covered by the entries before that one |
| LpmOrder.CoveredExactly | control-plane/p4RuntimeSerializer.cpp:1474-1491 | a prefix is covered, by one prefix or half by half, if and only if each of its keys has one of the prefixes |
| LpmOrder.EntryIsPrefix | control-plane/p4RuntimeSerializer.cpp:1659-1700 | a kept entry of an LPM field matches exactly the keys with the prefix of its value and mask |
| LpmOrder.EmittedLength | control-plane/p4RuntimeSerializer.cpp:1687-1699 | the message for an entry asks for the length of that prefix: no other length has the same keys |
| LpmOrder.ShortBeforeLong | control-plane/p4RuntimeSerializer.cpp:1474-1491 | two entries of which the program takes the first and P4Runtime the second |
| MatchMeaning.EmittedMeansSame | control-plane/p4RuntimeSerializer.cpp:1561-1590 | if the fields are numbered in order, the matches of a message hold of exactly the key tuples that the entry matches, don't cares left out |
| MatchMeaning.NumbersMatter | control-plane/p4RuntimeSerializer.cpp:1566-1583 | if a field has another number in P4Info, the messages for some entry hold of other key tuples |
| MatchMeaning.PrefixBits | control-plane/p4RuntimeSerializer.cpp:1670-1679 | a mask within the width that passes the test has exactly the high bits from its trailing zeros on |
| MatchMeaning.PrefixAgree | control-plane/p4RuntimeSerializer.cpp:1676-1688 | numbers agree under such a mask exactly if their prefixes do |
| MatchMeaning.WideMaskIsNoPrefix | control-plane/p4RuntimeSerializer.cpp:1676-1679 | for every wider mask that passes the test there is a key that it accepts and the prefix does not |
| MatchMeaning.MaskTwice | control-plane/p4RuntimeSerializer.cpp:1680-1685 | the value with masked-off bits cleared has no masked-off bits left |
| Bytestrings.StringReprConstant | control-plane/bytestrings.cpp:28-52 | no bytes for negative values; otherwise as many bytes as the width needs, which decode to the value, the highest bits first |
| BigInt.BitCount | lib/gmputil.h:79-84 | the number of one bits; all ones for negative numbers |
| BigInt.DropLowestOne | lib/gmputil.h:82 | each step of the count removes exactly one one bit |
| BigInt.FloorLog2 | lib/gmputil.h:91-95 | the exponent of the largest power of two that is not greater; -1 if there is none |
| SymbolTable.ExternalId | control-plane/p4RuntimeSerializer.cpp:224-247 | an annotation is used exactly if its prefix is absent or right; the id has the prefix of the type and the lower bits of the annotation |
| SymbolTable.P4RuntimeSymbolTable.constructor | control-plane/p4RuntimeSerializer.cpp:438 | the table starts empty |
| SymbolTable.P4RuntimeSymbolTable.TryToAssignId | control-plane/p4RuntimeSerializer.cpp:443-457 | an id that is free is taken; one that is in use is an error and gives the invalid id |
| SymbolTable.P4RuntimeSymbolTable.Add | control-plane/p4RuntimeSerializer.cpp:398-407 | a new symbol gets its initial id, with an error exactly if the id is in use; a duplicate changes nothing |
| SymbolTable.P4RuntimeSymbolTable.ProbeForId | control-plane/p4RuntimeSerializer.cpp:518-530 | a free id of the type, or none exactly if all of them are in use, with the value wrapping around at 32 bits |
| SymbolTable.P4RuntimeSymbolTable.ComputeIdsForSymbols | control-plane/p4RuntimeSerializer.cpp:464-506 | the symbols of the type without an id get theirs in the order of their names, each by probing from the hash of its name, up to the first for which there is none |
| SymbolTable.P4RuntimeSymbolTable.Create | control-plane/p4RuntimeSerializer.cpp:376-389 | no error is added exactly if every type has as many free ids as symbols without one; then all ids are valid, distinct over all types, accepted user ids are kept, and the others carry the prefix of their type; an automatic id is the first one from the hash of the name on that nobody has requested and no symbol of the type with a smaller name has got |
| SymbolTable.P4RuntimeSymbolTable.AddAll | control-plane/p4RuntimeSerializer.cpp:378-382 | the symbols requested get their initial ids in order, with one error for each first request for a symbol whose id another symbol has asked for before |
| SymbolTable.P4RuntimeSymbolTable.ComputeIds | control-plane/p4RuntimeSerializer.cpp:384-386 | type by type the symbols without an id get theirs, with an error exactly if some type runs out of ids |
| SymbolIds.ConstructId | control-plane/p4RuntimeSerializer.cpp:492-494 | the upper 8 bits are the type, and the id stays within the type |
| SymbolIds.ProbeFinds | control-plane/p4RuntimeSerializer.cpp:519-530 | probing finds an id exactly if there is a free one of that type |
| SymbolIds.CollectSound | control-plane/p4RuntimeSerializer.cpp:398-407 | after any requests the ids in use are recorded and distinct |
| SymbolIds.AssignWorks | control-plane/p4RuntimeSerializer.cpp:484-505 | all symbols of a type get new distinct ids with its prefix, exactly if there are enough; nothing else changes |
| SymbolIds.TypesWork | control-plane/p4RuntimeSerializer.cpp:385-386 | the same over all types |
| SymbolIds.TypesAssignFirstFree | control-plane/p4RuntimeSerializer.cpp:484-505 | every automatic id is the type followed by the lowest 24 bits of the hash of the name plus the least number for which this id is neither requested nor that of a symbol of the type with a smaller name |
| SymbolIds.HashedIdIsKept | control-plane/p4RuntimeSerializer.cpp:487-494 | a symbol whose hashed id nobody has requested and no other symbol has gets exactly that id |
| SymbolIds.CollectExactly | control-plane/p4RuntimeSerializer.cpp:398-457 | after any requests a symbol has the id that the first request for it asks for, unless an earlier such request for another symbol has asked for it, and the ids in use are those asked for |
| SymbolIds.NextClash | control-plane/p4RuntimeSerializer.cpp:443-457 | a request is reported exactly if it is the first for its symbol and asks for an id that an earlier such request has asked for |
| SymbolIds.OrderIrrelevant | control-plane/p4RuntimeSerializer.cpp:376-407 | requests that do not contradict each other give the same ids, before and after the others are computed, and the same errors then, in every order, repetitions included |
| SymbolIds.OrderMattersUnless | control-plane/p4RuntimeSerializer.cpp:398-406 | the ids after all symbols have been added, before any other id is computed, are the same in every order exactly if no two requests contradict each other |
| SymbolIds.FinalOrderMattersUnless | control-plane/p4RuntimeSerializer.cpp:376-407 | the same of the final ids, if no symbol is added both with a valid id and without one |
| NameOrder.LessTotal | control-plane/p4RuntimeSerializer.cpp:472-477 | names are totally ordered, so that the first one is determined |
| SymbolNames.JoinSplit | control-plane/p4RuntimeSerializer.cpp:301 | joining the components gives the name |
| SymbolNames.SplitJoin | control-plane/p4RuntimeSerializer.cpp:301 | the components can be read off a joined name |
| SymbolNames.Needed | control-plane/p4RuntimeSerializer.cpp:307-321 | the least number of components from the end that fewer than two symbols share, or all components |
| SymbolNames.ChosenDiffer | control-plane/p4RuntimeSerializer.cpp:303-321 | no two symbols get the same components |
| SymbolNames.SameAliasExactly | control-plane/p4RuntimeSerializer.cpp:297-334 | two symbols have the same alias exactly if what one of them needs is the other, whole, after empty components |
| SymbolNames.AliasesDiffer | control-plane/p4RuntimeSerializer.cpp:297-334 | in particular distinct symbols have distinct aliases unless one of them loses a dot |
| SymbolNames.LostDotAlone | control-plane/p4RuntimeSerializer.cpp:326-331 | two symbols of which one loses its dot and the aliases differ all the same |
| SymbolNames.AliasIsNeeded | control-plane/p4RuntimeSerializer.cpp:326-333 | the alias has exactly the components needed if and only if no dot is lost; if one is, the alias is also a suffix of another symbol |
| SymbolNames.NoEmptyComponent | control-plane/p4RuntimeSerializer.cpp:326-331 | no dot is lost in names without empty components |
| SymbolNames.SameAlias | control-plane/p4RuntimeSerializer.cpp:326-331 | a name without dots and the same name after a dot have one alias |
| SuffixTrie.P4SymbolSuffixSet.constructor | control-plane/p4RuntimeSerializer.cpp:355-357 | a root alone is the tree of no symbols |
| SuffixTrie.P4SymbolSuffixSet.AddSymbol | control-plane/p4RuntimeSerializer.cpp:257-295 | the tree has a node for exactly each suffix of a symbol, each counting the distinct symbols with that suffix, also after a symbol is added again |
| SuffixTrie.P4SymbolSuffixSet.Step | control-plane/p4RuntimeSerializer.cpp:289-293 | the node one component on, made if it was missing, with counts that run one ahead along the path of the new symbol |
| SuffixTrie.P4SymbolSuffixSet.ShortestUniqueSuffix | control-plane/p4RuntimeSerializer.cpp:297-334 | the alias made of the shortest suffix that one symbol has, or the whole name |
| SuffixTrie.P4SymbolSuffixSet.AliasOf | control-plane/p4RuntimeSerializer.cpp:326-333 | the text of the components, with no dot while it is empty |
| SuffixTrie.NodeHasEdge | control-plane/p4RuntimeSerializer.cpp:288-292 | a suffix with one component more is in the tree only along an edge |
| SuffixTrie.NewNode | control-plane/p4RuntimeSerializer.cpp:289-291 | a new node keeps the shape of the tree |
| SuffixTrie.CountOneMore | control-plane/p4RuntimeSerializer.cpp:292-293 | counting at a node keeps the counts exact along the path |
| SuffixTrie.CountSymbol | control-plane/p4RuntimeSerializer.cpp:288-294 | after the whole path the counts are those of the set with the new symbol |
| FieldIds.FieldIdAllocator.constructor | control-plane/p4RuntimeSerializer.cpp:573-608 | the ids are those that the two passes give; annotated elements have their ids, every other id is unique, not zero and at most n + u; an error exactly if annotations are zero or repeated; ids are the positions exactly if the annotations are |
| FieldIds.FieldIdAllocator.ReadAnnotations | control-plane/p4RuntimeSerializer.cpp:578-590 | exactly the annotated elements have ids, the annotated ones, and an error is reported exactly for zero or repeated annotations |
| FieldIds.FieldIdAllocator.AllocateMissing | control-plane/p4RuntimeSerializer.cpp:595-607 | every element without an annotation gets the first free id from the candidate on, and annotated ones move the candidate on |
| FieldIds.IdsAllocated | control-plane/p4RuntimeSerializer.cpp:595-607 | these ids are new, not zero and at most n + u, and annotated elements keep theirs |
| FieldIds.FieldIdAllocator.NextFree | control-plane/p4RuntimeSerializer.cpp:601-604 | the first index from the candidate on that is not in use |
| FieldIds.AllIdsDistinct | control-plane/p4RuntimeSerializer.cpp:573-608 | with proper annotations all ids are distinct and none is zero |
| FieldIds.PositionsAreIds | control-plane/p4RuntimeSerializer.cpp:592-607 | the ids are 1 to n in order exactly if each annotation is the position of its element |
| FieldIds.NumbersAgree | control-plane/p4RuntimeSerializer.cpp:742-780 | the ids of P4Info are the numbers in emitted matches if and only if annotations of supported elements are their numbers, those of others are above all numbers, and before a supported element without one there are annotated unsupported ones only, at most one since the last such element and none before the first |
| FieldIds.PositionsAgree | control-plane/p4RuntimeSerializer.cpp:742-780 | if all kinds are supported, they agree exactly if each annotation is a position |
| FieldIds.UnsupportedComeLast | control-plane/p4RuntimeSerializer.cpp:751-759 | if all annotations are positions, they agree exactly if no unsupported element comes before a supported one |
| FieldIds.SelectorFirst | control-plane/p4RuntimeSerializer.cpp:751-759 | a key with a selector in front and no annotations, for which they differ |
| FieldIds.SelectorFirstAnnotated | control-plane/p4RuntimeSerializer.cpp:751-759 | the same key with an annotation that is no position, for which they agree |
| EvaluatedBlocks.Worker.ForAll | control-plane/p4RuntimeArchHandler.h:217-240 | the function is called exactly once on each block that can be reached, on nothing else, and first on the given one; cycles included |
| EvaluatedBlocks.Worker.Visit | control-plane/p4RuntimeArchHandler.h:222-239 | one block is called and leaves the frontier, and its children are called or wait |
| EvaluatedBlocks.Worker.AddChild | control-plane/p4RuntimeArchHandler.h:231-238 | a child that is a block waits unless it has been called; nothing is listed twice |
| EvaluatedBlocks.Worker.constructor | control-plane/p4RuntimeArchHandler.h:219-220 | nothing has been called |
| EvaluatedBlocks.AllVisited | control-plane/p4RuntimeArchHandler.h:222-240 | when nothing waits, everything that can be reached has been called |
| JsonStrings.EscapeJson | lib/cstring.cpp:236-259 | the escaped text of the string |
| JsonStrings.EscapeIsClosed | lib/cstring.cpp:236-259 | escaped text has no unescaped quote, does not end in the middle of an escape, and has no raw control character |
| JsonStrings.UnescapeEscape | lib/cstring.cpp:236-259 | by section 7 of RFC 8259 the escaped text means the string |
| JsonStrings.EscapingIsOdd | ir/json_parser.cpp:168-171 | an odd number of backslashes at the end means that the next character is escaped |
| JsonStrings.StringReadBack | ir/json_parser.cpp:165-178 | a written string is read back, and the rest left, if and only if it is escape-closed |
| JsonReadBack.TextReadBack | ir/json_parser.cpp:124-210 | for any tree, reading what was written gives the same tree, with null for null pointers, and leaves the rest of the input, if and only if all strings and labels are escape-closed and a number at the root is followed by something other than a digit |
| JsonReadBack.ReadAgain | ir/json_parser.cpp:124-210 | whatever has been read can be written and read again |
| JsonReadBack.ReadIsReadable | ir/json_parser.cpp:124-210 | a tree that is read has escape-closed strings, different labels and no null pointers |
| JsonReadBack.StringIsClosed | ir/json_parser.cpp:165-178 | a string that is read is escape-closed, whatever the input |
| JsonGrammar.WrittenIsRead | ir/json_parser.cpp:124-210 | every text that denotes a tree by RFC 8259, with any whitespace around every token, is read as what it means and the rest is left; a number has to be followed by something other than a digit and takes the whitespace along |
| JsonGrammar.LastValueWins | ir/json_parser.cpp:140 | the fields read for an object are one for each label, in the order in which labels first occur, with the values that they occur with last |
| JsonGrammar.SpaceIsBlank | ir/json_parser.cpp:149 | the whitespace skipped is that of RFC 8259 with the vertical tab and the form feed |
| JsonGrammar.LeadingZeroIsOctal | ir/json_parser.cpp:179-192 | a number with a leading zero is read in base eight, or rejected if a digit is eight or nine |
| JsonRoundTrip.TextIsWritten | lib/json.cpp:67-189 | the text written for a tree with escape-closed strings and different labels denotes it by RFC 8259 |
| JsonLayout.TextIndented | lib/json.cpp:115-189 | lines inside a tree are indented by two spaces for each level, and objects and long arrays close at the indentation of the line that they open on |
| JsonLayout.OneLineExactly | lib/json.cpp:116-138 | an array is on one line exactly if none of its elements is an array, an object or a null pointer |
| JsonRoundTrip.RoundTrip | ir/json_parser.cpp:124-210 | so it does for every object and array |
| JsonRoundTrip.NumberReadBack | ir/json_parser.cpp:185-191 | a number is read back if and only if something other than a digit follows it, after whitespace or not |
| JsonRoundTrip.NumberAtEnd | ir/json_parser.cpp:185-188 | at the end of the input the reader does not come back from any number |
| JsonRoundTrip.NumberTextValue | ir/json_parser.cpp:185-190 | decimal text is never taken for octal and reads as the number |
| JsonStreams.WriteThenRead | lib/json.cpp:67-189 | the writer followed by the reader, on streams, for any tree: the tree comes back and the rest is left if and only if all strings and labels are escape-closed and a number at the root is followed by something that ends it |
| JsonStreams.JsonObject.Emplace | lib/json.cpp:191-203 | throws exactly for an empty label and for one with a value; a label with a null pointer stays; a well-formed object stays well-formed |
| JsonStreams.JsonObject.constructor | lib/json.cpp:174-189 | an object starts without fields |
| JsonStreams.AppendField | lib/json.cpp:201 | a new label keeps labels unique and the object well-formed |
| JsonStreams.JsonWriter.Serialize | lib/json.cpp:67-85 | appends the text of the value at the current indentation, which is restored |
| JsonStreams.JsonWriter.SerializeArray | lib/json.cpp:115-142 | appends the text of an array, on one line exactly if all elements are plain values |
| JsonStreams.JsonWriter.SerializeElems | lib/json.cpp:124-138 | appends the elements with their separators |
| JsonStreams.JsonWriter.AllValues | lib/json.cpp:116-120 | true exactly if no element is an array, an object or a null pointer |
| JsonStreams.JsonWriter.SerializeObject | lib/json.cpp:174-189 | appends the text of an object |
| JsonStreams.JsonWriter.SerializeFields | lib/json.cpp:176-187 | appends the fields with their separators and labels |
| JsonStreams.JsonWriter.EndLine | lib/indent.h:47-48 | appends a line end and the indentation |
| JsonStreams.JsonReader.ReadFrom | ir/json_parser.cpp:124-210 | the outcome for every input, malformed ones included, and what is left of it; what it is for JSON is `JsonGrammar.WrittenIsRead` |
| JsonStreams.JsonReader.ReadValue | ir/json_parser.cpp:125-209 | the same for a value inside another |
| JsonStreams.JsonReader.ReadObject | ir/json_parser.cpp:129-146 | fields up to the brace or the end of the input; a repeated label replaces the value; a key that is not a string fails |
| JsonStreams.JsonReader.ReadArray | ir/json_parser.cpp:147-164 | elements up to the bracket or the end of the input, whatever separates them |
| JsonStreams.JsonReader.ReadStr | ir/json_parser.cpp:165-178 | the string up to the first quote after an even number of backslashes |
| JsonStreams.JsonReader.CountBackslashes | ir/json_parser.cpp:169-170 | the number of backslashes at the end |
| JsonStreams.JsonReader.ReadNum | ir/json_parser.cpp:179-192 | the digits, with whitespace between them skipped, as a number; never an end on a digit at the end of the input |
| BitVectors.Bitvec.constructor | lib/bitvec.h:152 | the bits of one word |
| BitVectors.Bitvec.Copy | lib/bitvec.h:163-168 | the same words in an array of its own |
| BitVectors.Bitvec.Word | lib/bitvec.h:65 | the word of either representation, and zero beyond the end |
| BitVectors.Bitvec.GetBit | lib/bitvec.h:271-272 | whether a number is in the set |
| BitVectors.Bitvec.Expand | lib/bitvec.h:463-486 | at least the size asked for, with the old words and then zeros |
| SizeBits.RoundUp | lib/bitvec.h:465-472 | rounds up by at most a quarter, for any size; below 2^35 words to a multiple of a power of two that is more than an eighth |
| SizeBits.Smear | lib/bitvec.h:467-471 | each bit tells whether one of the 32 bits from there on was set; below 2^32 all bits from the highest one down |
| SizeBits.SmearStep | lib/bitvec.h:467-471 | each shift doubles the reach |
| BitVectors.Bitvec.SetBit | lib/bitvec.h:187-193 | adds one number, growing if needed |
| BitVectors.Bitvec.ClrBit | lib/bitvec.h:243-249 | removes one number |
| BitVectors.Bitvec.SetRange | lib/bitvec.h:194-209 | adds exactly the range, across words and growth |
| BitVectors.Bitvec.ClrRange | lib/bitvec.h:250-270 | removes exactly the range, also beyond the end |
| BitVectors.Bitvec.GetRange | lib/bitvec.h:273-287 | the bits of the range as a number and nothing above |
| BitVectors.Bitvec.PutRange | lib/bitvec.h:288-306 | the bits of the range are those of the value and all others stay |
| BitVectors.Bitvec.Clear | lib/bitvec.h:184-186 | the empty set, at the same size |
| BitVectors.Bitvec.IsEmpty | lib/bitvec.h:326-329 | true exactly for the empty set |
| BitVectors.Bitvec.OrAssign | lib/bitvec.h:358-372 | union for any sizes, also of a vector with itself; true exactly if the set has changed |
| BitVectors.Bitvec.OrAssignWord | lib/bitvec.h:373-378 | the same for a word |
| BitVectors.Bitvec.AndAssign | lib/bitvec.h:331-352 | intersection for any sizes, also of a vector with itself; true exactly if the set has changed |
| BitVectors.Bitvec.SubAssign | lib/bitvec.h:401-417 | difference for any sizes, also of a vector and itself; true exactly if the set has changed |
| BitVectors.Bitvec.Equals | lib/bitvec.h:420-423 | equality of the sets, whatever the sizes |
| BitVectors.Bitvec.Less | lib/bitvec.h:425-430 | the order of the sets as binary numbers: the highest bit in which they differ decides |
| BitVectors.Bitvec.Ffs | lib/bitvec.cpp:140-156 | the first number in the set from a start on, or -1 |
| BitVectors.Bitvec.Ffz | lib/bitvec.cpp:158-173 | the first number from a start on that is not in the set |
| BitVectors.Bitvec.Next | lib/bitvec.h:85-99 | the next number in the set, or -1 |
| BitVectors.Bitvec.Prev | lib/bitvec.h:100-114 | the previous number in the set, or -1 |
| BitVectors.Bitvec.Max | lib/bitvec.h:313-314 | the greatest number in the set, or -1 |
| BitVectors.Bitvec.ShiftRightAssign | lib/bitvec.cpp:71-93 | bit i is bit i + n of before, across words, shrinking and the one-word form |
| BitVectors.Bitvec.ShiftLeftAssign | lib/bitvec.cpp:95-111 | bit i is bit i - n of before, and none is lost |
| BitVectors.Bitvec.Shrink | lib/bitvec.cpp:87-91 | dropping zero words leaves every word as it reads |
| BitVectors.Union | lib/bitvec.h:363-365 | word by word disjunction is union, and the words change exactly if the set does |
| BitVectors.Intersection | lib/bitvec.h:335-345 | word by word conjunction with zeros beyond the end is intersection, with the same test for a change |
| BitVectors.Difference | lib/bitvec.h:405-407 | the same for difference |
| BitVectors.FirstDifference | lib/bitvec.h:426-429 | the highest word in which two vectors differ decides their order |
| BitWords.SameSet | lib/bitvec.h:420-423 | two sequences of words are the same set exactly if they agree wherever one has a word |
| WordRanges.RangeSetBits | lib/bitvec.h:197-209 | words with the masks of a range added are the union with the range |
| WordRanges.RangeClearedBits | lib/bitvec.h:255-270 | words without the masks are the difference |
| WordRanges.ShiftedDownBits | lib/bitvec.cpp:80-86 | words put together from two neighbours are the set moved down |
| WordRanges.ShiftedUpBits | lib/bitvec.cpp:103-110 | the same upwards, with no bit lost if there is room |
| BitRotation.ShiftBack | lib/bitvec.h:446-447 | shifting left and back right gives the same set, and shifting left keeps the number of bits |
| BitRotation.ShiftRight | lib/bitvec.h:446 | a new vector with all bits moved down |
| BitRotation.ShiftLeft | lib/bitvec.h:447 | a new vector with all bits moved up |
| BitRotation.And | lib/bitvec.h:353-357 | a new vector with the intersection, of the smaller size |
| BitRotation.Or | lib/bitvec.h:382-383 | a new vector with the union |
| BitRotation.Minus | lib/bitvec.h:418-419 | a new vector with the difference |
| BitRotation.RangeVector | lib/bitvec.h:162 | a new vector with exactly the range |
| BitRotation.RotateRightHelper | lib/bitvec.cpp:182-191 | exactly the rotated bits of the section |
| BitRotation.RotateRight | lib/bitvec.cpp:199-203 | the permutation of std::rotate on the section, and every other bit as before |
| BitRotation.RotateRightCopy | lib/bitvec.cpp:205-210 | the same permutation in a new vector |
| BitRotation.RotatedOnce | lib/bitvec.cpp:199-210 | a rotation has one result, so rotating in place and copying agree |
| BitRotation.RotatedBack | lib/bitvec.cpp:193-198 | rotating about start + end - rotation undoes a rotation |
| BitRotation.RotatedPopcount | lib/bitvec.cpp:193-198 | rotation keeps the number of bits |
| BitRanges.Iter.constructor | lib/bitrange.h:41 | the iterator has read the first range |
| BitRanges.Iter.Advance | lib/bitrange.h:31-37 | reads from the current bit to the end of its run and stops at the first bit after the gap |
| BitRanges.Ranges | lib/bitrange.h:45-49 | iteration yields the maximal runs in ascending order, disjoint and not adjacent, whose union is the set, and ends |
| BitRanges.RunsStep | lib/bitrange.h:31-37 | one more range keeps the list complete up to the iterator |
| BitHex.Print | lib/bitvec.cpp:21-37 | hexadecimal text of exactly the set, without leading zeros |
| BitHex.PrintWords | lib/bitvec.cpp:25-35 | the same for several words, however many leading ones are zero |
| BitHex.Parse | lib/bitvec.cpp:59-69 | accepts exactly hexadecimal text; the vector becomes the set shown, or that of the text up to the first bad character |
| BitHex.ReadBack | lib/bitvec.cpp:21-69 | the text of any vector makes any other vector equal to it |
| HexDigits.HexDigitsExactly | lib/bitvec.cpp:64-66 | the hexadecimal digits are these, small letters and capitals, and no others |
| BitHex.DigitsBits | lib/bitvec.cpp:29-32 | the digits of a word show its bits |
| BitHex.ShowsOneMore | lib/bitvec.cpp:26-32 | a word more in front, padded unless it is the first, keeps what the text shows exact |
| BitHex.HexConcat | lib/bitvec.cpp:61-67 | text followed by more text shows its bits that much higher |
| IrVectors.Vector.VisitChildren | ir/ir-inline.h:48-77 | the visitor is applied once to each original element in order, and the vector is the flat-map of its results; a bug exactly at the first result of a wrong type |
| IrVectors.Vector.Replace | ir/ir-inline.h:51-75 | an element is replaced by nothing, itself, a node or nodes; the others stay and the position is after them |
| IrVectors.Vector.Overwrite | ir/ir-inline.h:63-69 | nodes of another vector are put in one by one, up to the first of a wrong type |
| IrVectors.Vector.constructor | ir/ir-inline.h:48-77 | the elements given |
| IrVectors.StageStep | ir/ir-inline.h:48-77 | replacing one element moves the flat-map on by one |
| IrVectors.FallsIntoParts | ir/ir-inline.h:48-77 | the vector falls into parts, one for each original element in order: nothing for one that the visitor drops, and else just what it returns |
| IrVectors.IndexedVector.VisitChildren | ir/ir-inline.h:144-162 | the vector is the flat-map and the index agrees with it unless it is marked; it ends unmarked without a bug exactly if all results fit and names are distinct at every step |
| IrVectors.IndexedVector.VisitChild | ir/ir-inline.h:146-160 | one element is replaced, the index kept, and the vector marked exactly if names clash then |
| IrVectors.IndexedVector.InsertInMap | ir/indexed_vector.h:44-55 | a new name is added; one that is there marks the vector and changes nothing |
| IrVectors.IndexedVector.RemoveFromMap | ir/indexed_vector.h:56-66 | the name is removed; a declaration without an entry is a bug |
| IrVectors.IndexedVector.Erase | ir/indexed_vector.h:107-109 | the element and its name go; a bug only in a vector that is marked |
| IrVectors.IndexedVector.Insert | ir/indexed_vector.h:110-114 | the elements are inserted; the vector is marked exactly if it was or names clash |
| IrVectors.IndexedVector.InsertOne | ir/indexed_vector.h:126-128 | the same for one element |
| IrVectors.IndexedVector.Replace | ir/indexed_vector.h:115-119 | one element is exchanged with its name; a bug only in a vector that is marked |
| IrVectors.IndexedVector.constructor | ir/indexed_vector.h:72 | empty, with an empty index |
| IrVectors.IndexInsert | ir/indexed_vector.h:110-114 | a declaration with a new name keeps the index exact, wherever it is put |
| IrVectors.OldName | ir/indexed_vector.h:49-53 | a name in the index is in the vector, so the mark is never set without a clash |
| IrVectors.IndexErase | ir/indexed_vector.h:107-109 | an element of the vector is in the index, and removing both keeps it exact |
| IrVectors.ExchangeClashes | ir/ir-inline.h:155-156 | exchanging two names clashes on the way though not in the end |
| MatchText.MatchesBits | lib/match.h:38-39 | the formula says, bit by bit, that a bit is free or as in the second word |
| MatchText.DocumentedExactly | lib/match.h:23-30 | the documented formula agrees with the code for all inputs if and only if every bit is set in one of the words |
| MatchText.TernaryMatches | lib/match.h:40-48 | a match made of size, value and mask matches the values that agree under the mask and fit the size |
| MatchText.SameMatchesBits | lib/match.h:38-39 | two matches match the same values exactly if they agree on free bits and on the second word |
| MatchText.ChkMask | lib/match.cpp:19-28 | -1 exactly if some digit has both free and other bits, else the position of the highest digit |
| MatchText.Print | lib/match.cpp:30-51 | the first of the bases 16, 8 and 2 without such a digit, and its digits from the highest on |
| MatchText.PrintDigits | lib/match.cpp:44-50 | the digits, each under the mask that the shifts have left of its own |
| MatchText.Parse | lib/match.cpp:53-90 | what the digits of a text stand for in base 16, 8, 2 or ten, or nothing if one is bad |
| MatchText.ParseDecimal | lib/match.cpp:63-89 | the match of the single word that the decimal digits give |
| MatchText.MatchesExactly | lib/match.cpp:87 | that match matches the word and nothing else |
| DecimalText.ReadExactly | lib/match.cpp:83-86 | decimal text is read as the number it denotes exactly if every digit has no bit in common with ten times the number before it, which fits a word; else as a smaller one |
| DecimalText.TwelveIsTen | lib/match.cpp:83-86 | 12 is read as 10 |
| MatchText.BadDigit | lib/match.cpp:81-82 | a bad character anywhere rejects the whole text |
| MatchText.ReadBack | lib/match.cpp:30-90 | printing and parsing gives a match of the same values if and only if no set bit is cut off; the star printed for the match without bits is not read back |
| MatchText.PrintThenParse | lib/match.cpp:30-90 | the same of the texts |
| MatchText.AllDigitsFit | lib/match.cpp:44-50 | nothing is cut off in bases 16 and 2, nor in base 8 if bit 63 is clear in both words |
| MatchText.OctalCutsOff | lib/match.cpp:44-45 | in base 8 with bit 63 set, nothing is cut off exactly if only the lowest bits of digits are ones |
| MatchText.OctalLosesBit | lib/match.cpp:44-45 | a match that is printed in base 8 and read back as one of other values |

## Left out

- IrModifier.Modifier.Apply: hooks change the data of a node only, the preorder hook never prunes, and `visitDagOnce` is true; `Transform`, `visitAgain`, `loop_revisit` hooks that continue, and parallel visits are not modelled.
- JoinPass.ControlFlowVisitor.Apply: `filter_join_point` filters nothing, the state of a visitor is a value instead of a cloned object, the branches of a node are consecutive children, and hooks see the node and the state but start no visits of their own.
- Backtracking.PassManager.ApplyVisitor: needs a bound on the number of accepted triggers, without which the loop need not end; passes are functions of the number of the run and the program; debug hooks, logging and memory statistics are not modelled.
- PassRepeated.ApplyVisitor: without a limit it needs a round after which the program no longer changes. `PassRepeatUntil` (a loop until a callback says so) and `PassIf` (a conditional pass) have no state of their own and are not modelled.
- EntriesConverter.Converter.AddTableEntries: the action of an entry is not part of the messages (its parameters are numbered and encoded in the same way); where the converter stops with a bug (a value or bound that does not fit the key, an enum of another width, an LPM mask that is no constant, a number without a width) is a precondition, and so is that a bound has been cast to the type of the key, as the type checker demands; keys are bit patterns, so that a range on a signed key is read without its sign; the warnings are not modelled.
- EntriesConverter.Converter.ConvertSimpleKeyExpression: enum members are given with their values and widths, and members that do not resolve with the value that the target has for them.
- LpmOrder.SameChoiceExactly: tables with exact fields beside the LPM field are not covered.
- FieldIds.FieldIdAllocator.constructor: the 32-bit index is unbounded, which the bound n + u makes the same below 2^32 elements.
- SymbolTable.P4RuntimeSymbolTable.Create: the hash is an arbitrary function of the name, the tables per type are one map from symbols to ids, and the suffix set beside them is modelled separately.
- SuffixTrie.P4SymbolSuffixSet.AddSymbol: nodes are positions in one sequence instead of pointers, which gives up aliasing between trees; null names are not modelled.
- JsonStreams.JsonReader.ReadFrom: an uninitialised result, an exception and a reader that does not end are outcomes instead of effects, and what is left of the input after them is not stated: inside a tree the source goes on with an uninitialised pointer.
- JsonStreams.JsonReader.ReadValue: the same.
- JsonStreams.JsonReader.ReadObject: the same.
- JsonStreams.JsonReader.ReadArray: the same.
- JsonStreams.JsonReader.ReadNum: the same.
- JsonStreams.JsonObject.Emplace: a null value for a label that has a value dereferences a null pointer in the source (lib/json.cpp:196) instead of throwing.
- JsonStreams.JsonWriter.SerializeArray: a null element counts as something other than a plain value, where the source asks a null pointer for its type.
- `bitvec::setraw`, `^=`, `intersects`, `contains` and the overloads for integers wider than a word: not modelled; they go through the words one by one as `|=`, `&=` and `==` do.
- BitVectors.Bitvec.ShiftLeftAssign: shifting an empty vector of one word by exactly 64 is excluded because the C++ shift is undefined.
- BitRotation.RotateRight: excludes the rotations that need that shift.
- BitHex.Parse: the form for C strings; the one for streams differs in skipping whitespace and putting back the character after the number.
- IrVectors.Vector.VisitChildren: results are classified as null, node, vector of the same type, other vector or other type; the visitor keeps null elements.
- `bitvec::getslice`: for more than one word the last word lacks the bits from the next source word, so the natural statement does not hold.
- `LTBitMatrix`: its printer skips the diagonal and its parser does not, so they are no inverses.
- The printer of `JsonData`: it leaves keys unquoted, so it has no inverse.
- The pointer arithmetic of move constructors and the garbage collector: memory management.
- Protobuf messages, annotations, architecture handlers, BF-RT schemas, type and reference maps: plumbing around the parts modelled here.
- Error texts, options, file output, profiling and logging: input and output.
