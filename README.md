# angmar memory engine, number and quoted-identifier parsers, and two node analyzers, in Dafny

This project models three parts of angmar, an interpreter for the Lexem pattern language.

The **memory engine** is the chain of memory generations (`BigNode`). Each generation stores only the heap cells and stack levels it changed since its predecessor. Reads fall through to older generations, and writes copy ("shift") a cell or level into the newest one. The model covers:

- the heap cells (`BigNodeCell`) and the free list threaded through freed cells;
- the second-level page table (`BigNodeL2HeapPage`);
- the stack operations;
- allocation, freeing and reference counting;
- the garbage-collection sweep and its threshold;
- `destroy`;
- `collapseTo`, which merges the generations after a destination into it.

Two **parsers** read from a text and a cursor:

- `NumberNode` reads digit sequences with `_` separators, radix prefixes, a decimal part and an exponent.
- `QuotedIdentifierNode` reads identifiers between backticks, made of text sections separated by escapes.

Two **node analyzers** are signal-driven state machines:

- `AnyLexemeAnalyzer` runs a lexeme with optional data capturing and an optional lazy or greedy, atomic or non-atomic quantifier.
- `UnicodeIntervalElementAnalyzer` adds one element of a unicode interval literal to the interval being built.

Code that changes state in place is modelled as classes with `modifies` clauses: `BigNode`, `BigNodeCell`, `BigNodeL2HeapPage`, the text reader and the quoted identifier node. Each class method is proved against a pure function, and lemmas state the promised properties of that function. Files, one module each:

- `wrappers.dfy`, `errors.dfy`, `values.dfy`: results, error kinds, and the values the memory stores.
- `stack_levels.dfy` (`StackLevels`): the resolved stack and what each stack operation does to it.
- `big_node_cell.dfy` (`Cells`), `free_list.dfy` (`FreeLists`), `big_node.dfy` (`BigNodes`): cells, the free-list invariant, and the generation class.
- `overlays.dfy` (`Overlays`), `chain.dfy` (`Chains`): generation chains as values, `collapseTo` as intended and as written, and the `getFromStack` fallback.
- `l2_heap_page.dfy` (`L2HeapPages`), `number_node.dfy` (`Numbers`), `quoted_identifier_node.dfy` (`QuotedIdentifiers`).
- `analyzer.dfy` (`Analyzers`): the analyzer as the node analyzers see it.
- `any_lexeme_analyzer.dfy`, `unicode_interval_element_analyzer.dfy`: the two node analyzers.

Details of the memory engine that the model keeps as the code has them:

- **Shifting a read cell.** `getCell` copies a cell it read from a predecessor into the newest generation when the hop distance is at least `maxDistanceToShift` (the comparison is `>=`), or when `forceShift` is set (`BigNode.kt:243`).
- **Freed cells.** A freed cell's `referenceCount` holds the next free position (`BigNodeCell.kt:79`).
- **The sweep's range.** The sweep visits every position below the heap size through `getCell` (`BigNode.kt:435-443`), so it also reaches cells held only by predecessors.
- **Stack lookups.** `getFromStack` falls back to the predecessor generation (`BigNode.kt:120`). The lookup as written is modelled and reported under Findings; the rest of the model, the analyzers included, uses the corrected lookup.

## Model

Source paths are relative to the repository root.

| member | source | states |
|---|---|---|
| StackLevels.FindLevel | src/main/kotlin/org/lexem/angmar/analyzer/memory/BigNode.kt:112-118 | the level found binds the name and no level above it does; no level is found only when none binds it |
| StackLevels.FindLevelAt | src/main/kotlin/org/lexem/angmar/analyzer/memory/BigNode.kt:131-140 | conversely, a level that binds the name with none above it binding it is the one the downward search stops at |
| StackLevels.LookupSpec | src/main/kotlin/org/lexem/angmar/analyzer/memory/BigNode.kt:111-122 | `getFromStack` finds a value exactly when some level binds the name, and the value is the topmost binding |
| StackLevels.Push | src/main/kotlin/org/lexem/angmar/analyzer/memory/BigNode.kt:75-106 | `addToStack` keeps every level below the top, grows the stack by one level exactly when there is no level or the top already binds the name, and leaves a non-empty top |
| StackLevels.PushSpec | src/main/kotlin/org/lexem/angmar/analyzer/memory/BigNode.kt:75-106 | after `addToStack(name, v)` the name yields `v`, every other name yields what it did, and there is one binding more |
| StackLevels.PushIntoTop | src/main/kotlin/org/lexem/angmar/analyzer/memory/BigNode.kt:93-105 | when the top level lacks the name, the binding joins it: the name yields the new value, other names are unchanged, one binding more |
| StackLevels.PushShadows | src/main/kotlin/org/lexem/angmar/analyzer/memory/BigNode.kt:87-92 | when the top level already binds the name, a new level holding only the new binding is pushed and the shadowed binding survives underneath |
| StackLevels.PopEmptyLevels | src/main/kotlin/org/lexem/angmar/analyzer/memory/BigNode.kt:157-177 | the levels kept are a prefix with a non-empty top, and every level dropped was empty |
| StackLevels.PopEmptyLevelsKeepsBindings | src/main/kotlin/org/lexem/angmar/analyzer/memory/BigNode.kt:163-177 | dropping the empty top levels loses no binding and changes no lookup |
| StackLevels.RemoveSpec | src/main/kotlin/org/lexem/angmar/analyzer/memory/BigNode.kt:127-181 | `removeFromStack` fails with StackNotFoundElement exactly when the name is unbound; otherwise it returns the topmost value, after which the name resolves to its binding in the levels below the one it was removed from; every other name keeps its value, one binding is released and the stack stays well formed |
| StackLevels.RemovedAt | src/main/kotlin/org/lexem/angmar/analyzer/memory/BigNode.kt:131-160 | the same, given the level the search found |
| StackLevels.RemoveAfterPush | src/main/kotlin/org/lexem/angmar/analyzer/memory/BigNode.kt:75-181 | removing a name right after pushing it gives back exactly the previous stack and the pushed value (push and remove are inverse) |
| StackLevels.RemoveAfterPushIntoTop | src/main/kotlin/org/lexem/angmar/analyzer/memory/BigNode.kt:93-160 | the inverse property in the case where the binding joined the top level |
| StackLevels.ReplaceSpec | src/main/kotlin/org/lexem/angmar/analyzer/memory/BigNode.kt:186-219 | `replaceStackCell` fails exactly when the name is unbound; otherwise the name yields the new value, the replaced value was the topmost, the level count, the binding count and every other name are unchanged, and well-formedness is kept |
| Cells.NewCell | src/main/kotlin/org/lexem/angmar/analyzer/memory/BigNodeCell.kt:137-149 | a new cell has the given position and value and no references |
| Cells.Realloc | src/main/kotlin/org/lexem/angmar/analyzer/memory/BigNodeCell.kt:52-56 | a reallocated cell is live, holds the new value, has no references and keeps its position |
| Cells.FreeState | src/main/kotlin/org/lexem/angmar/analyzer/memory/BigNodeCell.kt:61-81 | freeing fails exactly outside garbage-collection mode on a freed cell (HeapSegmentationFault) or a referenced one (ReferencedHeapCellFreed); otherwise the cell is freed in place and a live one stores the free-list head |
| Cells.Increase | src/main/kotlin/org/lexem/angmar/analyzer/memory/BigNodeCell.kt:86-93 | adding references fails exactly on a freed cell; otherwise only the count grows, by `count` |
| Cells.Decrease | src/main/kotlin/org/lexem/angmar/analyzer/memory/BigNodeCell.kt:98-119 | a freed cell is untouched, silently in garbage-collection mode and with a segmentation fault outside it; a live one loses `count` references, underflows exactly below zero and asks to be freed exactly at zero |
| Cells.BigNodeCell.New | src/main/kotlin/org/lexem/angmar/analyzer/memory/BigNodeCell.kt:137-149 | the object's fields are those of `NewCell` |
| Cells.BigNodeCell.Destroy | src/main/kotlin/org/lexem/angmar/analyzer/memory/BigNodeCell.kt:29-37 | position -1, no references, no value |
| Cells.BigNodeCell.ShiftCell | src/main/kotlin/org/lexem/angmar/analyzer/memory/BigNodeCell.kt:42-47 | a fresh object with the same position, references and value |
| Cells.BigNodeCell.ReallocCell | src/main/kotlin/org/lexem/angmar/analyzer/memory/BigNodeCell.kt:52-56 | the object becomes `Realloc` of its old state |
| Cells.BigNodeCell.SetValue | src/main/kotlin/org/lexem/angmar/analyzer/memory/BigNode.kt:269-270 | the value is installed and the references are kept |
| Cells.BigNodeCell.FreeCell | src/main/kotlin/org/lexem/angmar/analyzer/memory/BigNodeCell.kt:61-81 | on failure the object is unchanged and the error is `FreeState`'s; otherwise the object becomes `FreeState`'s cell |
| Cells.BigNodeCell.IncreaseReferences | src/main/kotlin/org/lexem/angmar/analyzer/memory/BigNodeCell.kt:86-93 | the object and the outcome follow `Increase`, unchanged on failure |
| Cells.BigNodeCell.DecreaseReferences | src/main/kotlin/org/lexem/angmar/analyzer/memory/BigNodeCell.kt:98-119 | the object and the outcome follow `Decrease` |
| FreeLists.EmptyHeap | src/main/kotlin/org/lexem/angmar/analyzer/memory/BigNode.kt:49-62 | the first generation's empty heap, with head equal to size 0, satisfies the heap invariant |
| FreeLists.HeadInHeap | src/main/kotlin/org/lexem/angmar/analyzer/memory/BigNode.kt:279 | the head equals the heap size exactly when no cell is free; otherwise it is a freed position inside the heap |
| FreeLists.PopHead | src/main/kotlin/org/lexem/angmar/analyzer/memory/BigNode.kt:294-298 | making the head cell live leaves the rest of the chain linked, distinct and complete |
| FreeLists.AllocAtEnd | src/main/kotlin/org/lexem/angmar/analyzer/memory/BigNode.kt:279-291 | with no free cell, appending a new live cell at the heap size keeps the invariant with size, used count and head one higher |
| FreeLists.AllocReuse | src/main/kotlin/org/lexem/angmar/analyzer/memory/BigNode.kt:294-300 | with a free cell, the head is reused, the rest of the chain remains and the link it stored becomes the new head |
| FreeLists.FreeLive | src/main/kotlin/org/lexem/angmar/analyzer/memory/BigNode.kt:306-314 | freeing a live cell pushes it on the list: it stores the old head, becomes the head, and the used count drops by one |
| FreeLists.UpdateLive | src/main/kotlin/org/lexem/angmar/analyzer/memory/BigNode.kt:263-271 | replacing a live cell by another live cell at the same position keeps the list |
| FreeLists.FreeThenAlloc | src/main/kotlin/org/lexem/angmar/analyzer/memory/BigNode.kt:277-314 | free followed by alloc gives back the same position, and the list, head and used count return to what they were |
| BigNodes.GrowKeepsPositive | src/main/kotlin/org/lexem/angmar/analyzer/memory/BigNode.kt:445-448 | growing the collection threshold never lowers it |
| BigNodes.SweepStep | src/main/kotlin/org/lexem/angmar/analyzer/memory/BigNode.kt:435-443 | one step of the cleaning loop frees the position when unmarked and keeps it when marked, extending the swept prefix by one |
| BigNodes.PushLevel | src/main/kotlin/org/lexem/angmar/analyzer/memory/BigNode.kt:79-105 | the level `addToStack` writes, at the index it picks, resolves to `Push` and keeps the stack invariant with one binding more |
| BigNodes.IncreaseAt | src/main/kotlin/org/lexem/angmar/analyzer/memory/BigNode.kt:209-212 | adding a reference through `getCell(forceShift)` succeeds exactly at a live position inside the heap and changes no other cell |
| BigNodes.PopEmptyLevelsTo | src/main/kotlin/org/lexem/angmar/analyzer/memory/BigNode.kt:163-176 | the empty-level loop stops below the first non-empty level |
| BigNodes.Trim | src/main/kotlin/org/lexem/angmar/analyzer/memory/BigNode.kt:157-177 | the levels `removeFromStack` keeps are a prefix of the updated levels |
| BigNodes.RemoveLevels | src/main/kotlin/org/lexem/angmar/analyzer/memory/BigNode.kt:147-177 | levels agreeing with the trimmed result keep the stack invariant with one binding fewer and resolve to `Remove` |
| BigNodes.ReplaceLevel | src/main/kotlin/org/lexem/angmar/analyzer/memory/BigNode.kt:203-215 | the level `replaceStackCell` writes resolves to `Replace` with the same counters |
| BigNodes.BigNode.Root | src/main/kotlin/org/lexem/angmar/analyzer/memory/BigNode.kt:11-62 | the first generation is valid: an empty heap, an empty stack, zero counters, the initial threshold and no collection request |
| BigNodes.BigNode.Next | src/main/kotlin/org/lexem/angmar/analyzer/memory/BigNode.kt:11-62 | a new generation inherits its predecessor's cumulative counters and resolves to the same heap, stack and free list |
| BigNodes.BigNode.GetCellRecursive | src/main/kotlin/org/lexem/angmar/analyzer/memory/BigNode.kt:255-258 | a position is found exactly when the resolved heap holds it, and the cell found is the resolved one, at least `distance` hops away |
| BigNodes.BigNode.GetStackLevelRecursively | src/main/kotlin/org/lexem/angmar/analyzer/memory/BigNode.kt:224-225 | a level is found exactly when the resolved levels hold it, and it is the resolved one |
| BigNodes.BigNode.GetCell | src/main/kotlin/org/lexem/angmar/analyzer/memory/BigNode.kt:230-250 | a segmentation fault at or past the heap size, unreachable below zero, otherwise the resolved cell; the cell is copied into this generation exactly when forced or far enough away, and the resolved heap never changes |
| BigNodes.BigNode.SetCell | src/main/kotlin/org/lexem/angmar/analyzer/memory/BigNode.kt:263-271 | outside the heap it fails and changes nothing; inside it installs the value and keeps the references; the invariant holds unless the cell was freed |
| BigNodes.BigNode.Alloc | src/main/kotlin/org/lexem/angmar/analyzer/memory/BigNode.kt:277-301 | with no free cell, a new cell at the end, one more used cell, and a collector request when the size reached the threshold; otherwise the head of the free list is reused and its link becomes the head; the invariant is kept |
| BigNodes.BigNode.Free | src/main/kotlin/org/lexem/angmar/analyzer/memory/BigNode.kt:306-314 | outside the heap an error; a freed cell is left alone; a referenced cell outside garbage-collection mode is an error; otherwise the cell is pushed on the free list, with one used cell fewer |
| BigNodes.BigNode.IncreaseReferences | src/main/kotlin/org/lexem/angmar/analyzer/memory/BigNodeCell.kt:86-93 | the cells and the outcome follow `IncreaseAt`; nothing else changes |
| BigNodes.BigNode.DecreaseReferences | src/main/kotlin/org/lexem/angmar/analyzer/memory/BigNodeCell.kt:98-119 | the cell follows `Decrease`; a count that reaches zero frees the cell in this generation, pushing it on the free list |
| BigNodes.BigNode.DecreaseCell | src/main/kotlin/org/lexem/angmar/analyzer/memory/BigNodeCell.kt:98-115 | the count update alone: the new cell and outcome are `Decrease`'s and no other cell changes |
| BigNodes.BigNode.FindStackLevel | src/main/kotlin/org/lexem/angmar/analyzer/memory/BigNode.kt:112-118 | the downward search over the resolved levels returns `FindLevel` of the resolved stack |
| BigNodes.BigNode.GetFromStack | src/main/kotlin/org/lexem/angmar/analyzer/memory/BigNode.kt:111-122 | the topmost binding in this generation's resolved stack, or StackNotFoundElement (the corrected lookup; see Findings) |
| BigNodes.BigNode.AddToStack | src/main/kotlin/org/lexem/angmar/analyzer/memory/BigNode.kt:75-106 | the resolved stack becomes `Push` of the old one, the binding count grows by one, and the heap side is unchanged |
| BigNodes.BigNode.PlanPush | src/main/kotlin/org/lexem/angmar/analyzer/memory/BigNode.kt:80-101 | level 0 when there is no level; a new level when the top binds the name; otherwise the top level extended |
| BigNodes.BigNode.RemoveFromStack | src/main/kotlin/org/lexem/angmar/analyzer/memory/BigNode.kt:127-181 | when `Remove` fails the stack is untouched and the error is returned; otherwise the resolved stack becomes `Remove`'s, with one binding fewer; the heap side is unchanged |
| BigNodes.BigNode.RemoveAt | src/main/kotlin/org/lexem/angmar/analyzer/memory/BigNode.kt:147-177 | once the level is found, the resolved stack becomes `Remove`'s |
| BigNodes.BigNode.ReplaceStackCell | src/main/kotlin/org/lexem/angmar/analyzer/memory/BigNode.kt:186-219 | StackNotFoundElement when unbound; a reference first gains one reference and its failure leaves everything as it was; otherwise the resolved stack becomes `Replace`'s |
| BigNodes.BigNode.DropEmptyLevels | src/main/kotlin/org/lexem/angmar/analyzer/memory/BigNode.kt:164-176 | the loop keeps a prefix whose top is non-empty and drops only empty levels |
| BigNodes.BigNode.TrimLevels | src/main/kotlin/org/lexem/angmar/analyzer/memory/BigNode.kt:157-177 | the levels left are `Trim` of the updated levels |
| BigNodes.BigNode.Destroy | src/main/kotlin/org/lexem/angmar/analyzer/memory/BigNode.kt:390-411 | no predecessor, cells or levels, zero counters, threshold and mark left as they were; the result is a valid empty memory |
| BigNodes.BigNode.ClearStack | src/main/kotlin/org/lexem/angmar/analyzer/memory/BigNode.kt:391-406 | no levels and zero stack counters; the heap side is unchanged |
| BigNodes.BigNode.ClearHeap | src/main/kotlin/org/lexem/angmar/analyzer/memory/BigNode.kt:396-408 | no predecessor, no cells, zero heap counters; the stack side is unchanged |
| BigNodes.BigNode.Emptied | src/main/kotlin/org/lexem/angmar/analyzer/memory/BigNode.kt:401-408 | a generation with nothing and zero counters satisfies the invariant with an empty stack |
| BigNodes.BigNode.Sweep | src/main/kotlin/org/lexem/angmar/analyzer/memory/BigNode.kt:434-443 | afterwards exactly the unmarked and the already freed cells are freed, every other cell is as it was, and the invariant holds |
| BigNodes.BigNode.SpatialGarbageCollect | src/main/kotlin/org/lexem/angmar/analyzer/memory/BigNode.kt:416-451 | unforced with enough free space it changes nothing; otherwise the sweep result, the threshold grown exactly when free space is still short, and no collector request |
| BigNodes.BigNode.Collect | src/main/kotlin/org/lexem/angmar/analyzer/memory/BigNode.kt:434-450 | the collection proper: swept heap, threshold rule, mark cleared, stack unchanged |
| L2HeapPages.LastIndex | src/main/kotlin/org/lexem/angmar/analyzer/memory/bignode/BigNodeL2HeapPage.kt:26 | the complement plus one wraps at 32 bits: mask 0 gives 0 and the all-ones mask gives 1 |
| L2HeapPages.LastIndexIsSpan | src/main/kotlin/org/lexem/angmar/analyzer/memory/bignode/BigNodeL2HeapPage.kt:26 | for a mask clearing the low `k` bits, `lastIndex` is the page span `2^k` |
| L2HeapPages.MaskRoundsDown | src/main/kotlin/org/lexem/angmar/analyzer/memory/bignode/BigNodeL2HeapPage.kt:34 | on 32-bit patterns, `position and PageMask(k)` equals `(position >> k) << k`: it clears the low `k` bits |
| L2HeapPages.PageIndexBounds | src/main/kotlin/org/lexem/angmar/analyzer/memory/bignode/BigNodeL2HeapPage.kt:34 | a position lies in the span starting at its page index |
| L2HeapPages.NoPagesNoCells | src/main/kotlin/org/lexem/angmar/analyzer/memory/bignode/BigNodeL2HeapPage.kt:16 | a valid table has no page exactly when it holds no cell |
| L2HeapPages.L2HeapPage.constructor | src/main/kotlin/org/lexem/angmar/analyzer/memory/bignode/BigNodeL2HeapPage.kt:10-11 | a new table is valid and holds no cell |
| L2HeapPages.L2HeapPage.Size | src/main/kotlin/org/lexem/angmar/analyzer/memory/bignode/BigNodeL2HeapPage.kt:16 | the number of level-1 pages, zero exactly when no cell is held |
| L2HeapPages.L2HeapPage.GetCell | src/main/kotlin/org/lexem/angmar/analyzer/memory/bignode/BigNodeL2HeapPage.kt:33-39 | a segmentation fault exactly when the position's page is absent; otherwise the cell held there |
| L2HeapPages.L2HeapPage.SetCell | src/main/kotlin/org/lexem/angmar/analyzer/memory/bignode/BigNodeL2HeapPage.kt:45-54 | the cell is held afterwards; `true` exactly when the position was new; no other position and no other page changes |
| L2HeapPages.L2HeapPage.RemoveCell | src/main/kotlin/org/lexem/angmar/analyzer/memory/bignode/BigNodeL2HeapPage.kt:59-68 | a segmentation fault exactly when the page is absent; otherwise the position holds nothing, an emptied page is dropped and nothing else changes |
| Overlays.MoveTopDownKeepsOverlay | src/main/kotlin/org/lexem/angmar/analyzer/memory/BigNode.kt:362-378 | moving the newest layer's entries into the destination and deleting the superseded copies in between keeps what the layers resolve to |
| Chains.Destroyed | src/main/kotlin/org/lexem/angmar/analyzer/memory/BigNode.kt:401-405 | `destroy` zeroes the stack and heap counters and leaves the threshold and the mark |
| Chains.NewestHolder | src/main/kotlin/org/lexem/angmar/analyzer/memory/BigNode.kt:344-354 | the generation found holds the level and no newer one in range does; none is found only when no generation in range holds it |
| Chains.OverlayNewest | src/main/kotlin/org/lexem/angmar/analyzer/memory/BigNode.kt:344-354 | the search's answer is what the generations in range resolve the level to |
| Chains.PruneLevels | src/main/kotlin/org/lexem/angmar/analyzer/memory/BigNode.kt:334-340 | the corrected pruning keeps only the destination's levels below the level count |
| Chains.MovedLevelsOverlay | src/main/kotlin/org/lexem/angmar/analyzer/memory/BigNode.kt:343-356 | the moved levels are exactly what the destination and its successors resolve, below the level count |
| Chains.CollapseHeaps | src/main/kotlin/org/lexem/angmar/analyzer/memory/BigNode.kt:360-385 | the heap recursion stopped at the destination leaves it holding the overlay of the merged generations |
| Chains.CollapseTo | src/main/kotlin/org/lexem/angmar/analyzer/memory/BigNode.kt:319-358 | the chain ends at the destination, the older generations are untouched, the destination takes the newest counters, and collapsing onto the newest generation changes nothing |
| Chains.CollapseToKeepsHeap | src/main/kotlin/org/lexem/angmar/analyzer/memory/BigNode.kt:319-385 | collapse transparency for the heap: the destination resolves every position as the newest generation did |
| Chains.CollapseToKeepsStack | src/main/kotlin/org/lexem/angmar/analyzer/memory/BigNode.kt:319-358 | collapse transparency for the stack: the resolved stack is unchanged |
| Chains.CollapsedLevelView | src/main/kotlin/org/lexem/angmar/analyzer/memory/BigNode.kt:342-356 | below the level count every level resolves after the collapse as before |
| Chains.CollapsedLayers | src/main/kotlin/org/lexem/angmar/analyzer/memory/BigNode.kt:333-356 | the collapsed levels are the older generations' levels overridden by the pruned and moved levels |
| Chains.PruneLevelsAsWritten | src/main/kotlin/org/lexem/angmar/analyzer/memory/BigNode.kt:334-340 | the pruning as written keeps only levels below the binding count |
| Chains.MoveLevelAsWritten | src/main/kotlin/org/lexem/angmar/analyzer/memory/BigNode.kt:343-355 | one round of the level loop as written keeps the number of generations |
| Chains.CollapseHeapsAsWritten | src/main/kotlin/org/lexem/angmar/analyzer/memory/BigNode.kt:360-385 | the heap recursion as written keeps the number of generations |
| Chains.CollapseToAsWritten | src/main/kotlin/org/lexem/angmar/analyzer/memory/BigNode.kt:319-385 | `collapseTo` as written leaves a chain that ends at the destination |
| Chains.GetFromStackAsWritten | src/main/kotlin/org/lexem/angmar/analyzer/memory/BigNode.kt:111-122 | the lookup with its fallback into the predecessor fails only with StackNotFoundElement |
| Chains.PruneAsWrittenDropsLiveLevel | src/main/kotlin/org/lexem/angmar/analyzer/memory/BigNode.kt:335 | a well-formed stack with more levels than bindings loses a live level to the pruning as written, which the corrected pruning keeps |
| Chains.CollapseAsWrittenLosesLevel | src/main/kotlin/org/lexem/angmar/analyzer/memory/BigNode.kt:343-355 | collapsing as written onto the generation that wrote level 0 leaves level 0 unresolvable |
| Chains.CollapseAsWrittenLosesCell | src/main/kotlin/org/lexem/angmar/analyzer/memory/BigNode.kt:360-385 | collapsing as written onto the generation that holds a cell loses that cell |
| Chains.CollapseAsWrittenOntoOldestDestroys | src/main/kotlin/org/lexem/angmar/analyzer/memory/BigNode.kt:380-381 | collapsing as written onto the oldest generation ends with it destroyed: no cell, no level, zero counters |
| Chains.GetFromStackAsWrittenResurrects | src/main/kotlin/org/lexem/angmar/analyzer/memory/BigNode.kt:120-121 | after the only binding of `x` was removed, the lookup as written still returns it from the predecessor |
| Numbers.ScanRest | src/main/kotlin/org/lexem/angmar/parser/literals/NumberNode.kt:334-361 | the loop stops inside the text, or fails only with NumberWithSequenceEndedWithADigitSeparator |
| Numbers.ScanInteger | src/main/kotlin/org/lexem/angmar/parser/literals/NumberNode.kt:312-365 | `readInteger` fails only with one of the two separator errors; a result is at least one digit of the radix and moves the cursor forward |
| Numbers.ReadInteger | src/main/kotlin/org/lexem/angmar/parser/literals/NumberNode.kt:312-365 | the imperative `while (true)` loop with its string builder returns what `ScanInteger` specifies |
| Numbers.ScanRestSound | src/main/kotlin/org/lexem/angmar/parser/literals/NumberNode.kt:334-361 | where the loop stops, what it read is a run followed by neither a digit nor a separator; where it fails, a run ends in a dangling separator |
| Numbers.ScanRestThrough | src/main/kotlin/org/lexem/angmar/parser/literals/NumberNode.kt:334-361 | the loop runs through a whole run |
| Numbers.ScanIntegerSound | src/main/kotlin/org/lexem/angmar/parser/literals/NumberNode.kt:312-365 | a leading separator is an error exactly when present; nothing is read exactly when no digit or separator starts; a result is the separator-free maximal run |
| Numbers.ScanIntegerComplete | src/main/kotlin/org/lexem/angmar/parser/literals/NumberNode.kt:312-365 | conversely, a maximal run is read in full, and a run ending in a dangling separator fails |
| Numbers.ParseExponent | src/main/kotlin/org/lexem/angmar/parser/literals/NumberNode.kt:217-258 | without a separator letter the node and cursor are unchanged; after a separator (and an optional sign) NumberWithoutDigitAfterExponentSeparator is returned exactly when no digit or digit separator follows; the sign is negative exactly after `-`; the exponent digits are digits of the radix |
| Numbers.ParseDecimal | src/main/kotlin/org/lexem/angmar/parser/literals/NumberNode.kt:136-261 | no prefix when it is compulsory yields nothing; NumberWithoutDigitAfterPrefix is returned when, and only after, a prefix with no digit after it; an optional prefix absent and no digit yields nothing; a result has the radix, the integer digits `readInteger` reads, non-empty digit strings of that radix, and consumes text |
| Numbers.ParseFraction | src/main/kotlin/org/lexem/angmar/parser/literals/NumberNode.kt:183-260 | keeps the integer part; the decimal and exponent read are digit strings of the radix; a separator with no digit after it is NumberWithoutDigitAfterDecimalSeparator when no identifier follows, and otherwise the number ends before the separator with the node unchanged |
| Numbers.ParseInteger | src/main/kotlin/org/lexem/angmar/parser/literals/NumberNode.kt:263-310 | as `ParseDecimal` for the prefix and its errors (NumberIntegerWithoutDigitAfterPrefix); the node has no decimal part and no exponent, and its digits and end cursor are those `readInteger` returns after the prefix |
| Numbers.ParseAnyNumberDefaultDecimal | src/main/kotlin/org/lexem/angmar/parser/literals/NumberNode.kt:90-100 | a result has radix 2, 8, 10 or 16, and a radix other than 10 was introduced by its prefix |
| Numbers.ParseAnyIntegerDefaultDecimal | src/main/kotlin/org/lexem/angmar/parser/literals/NumberNode.kt:105-114 | a result has one of the four radixes, a non-decimal radix only after its prefix, and neither a decimal part nor an exponent |
| Numbers.ToString | src/main/kotlin/org/lexem/angmar/parser/literals/NumberNode.kt:22-48 | unreachable exactly for a radix other than 2, 8, 10 and 16; otherwise the text starts with the radix prefix |
| Numbers.HexadecimalExponentLetters | src/main/kotlin/org/lexem/angmar/parser/literals/NumberNode.kt:74-83 | in hexadecimal `e` and `E` are digits, not separators; `p` is a separator of every radix and never a digit |
| Numbers.ExponentStart | src/main/kotlin/org/lexem/angmar/parser/literals/NumberNode.kt:38-46 | the exponent `toString` writes starts with `p` and is at least two characters long |
| Numbers.ScanWritten | src/main/kotlin/org/lexem/angmar/parser/literals/NumberNode.kt:312-365 | a digit string followed by neither a digit nor a separator is read back in full |
| Numbers.ParseExponentWritten | src/main/kotlin/org/lexem/angmar/parser/literals/NumberNode.kt:217-258 | the exponent `toString` writes is read back with its sign and digits |
| Numbers.ExponentStep | src/main/kotlin/org/lexem/angmar/parser/literals/NumberNode.kt:218-257 | a separator, a sign and digits give that exponent, signed by the sign read |
| Numbers.ParseFractionWritten | src/main/kotlin/org/lexem/angmar/parser/literals/NumberNode.kt:183-258 | the decimal part and exponent `toString` writes are read back, consuming the text |
| Numbers.DecimalWritten | src/main/kotlin/org/lexem/angmar/parser/literals/NumberNode.kt:185-215 | with a decimal part, the separator, the digits and the exponent are read back |
| Numbers.NoDecimalWritten | src/main/kotlin/org/lexem/angmar/parser/literals/NumberNode.kt:217-258 | without a decimal part, the exponent is read right after the integer |
| Numbers.FractionThroughDecimal | src/main/kotlin/org/lexem/angmar/parser/literals/NumberNode.kt:185-218 | after a separator and decimal digits, the rest is what the exponent reader makes of it |
| Numbers.DecimalThroughInteger | src/main/kotlin/org/lexem/angmar/parser/literals/NumberNode.kt:148-185 | after the prefix and integer digits, the number is what the fraction reader makes of the rest |
| Numbers.ParseDecimalWritten | src/main/kotlin/org/lexem/angmar/parser/literals/NumberNode.kt:136-261 | a number written with its prefix, read with its radix's parameters, is that number, consuming the text |
| Numbers.ParseToString | src/main/kotlin/org/lexem/angmar/parser/literals/NumberNode.kt:22-48 | round trip: what `toString` writes, read back by `parseAnyNumberDefaultDecimal`, is the same number, taking the whole text |
| QuotedIdentifiers.RunLength | src/main/kotlin/org/lexem/angmar/parser/commons/QuotedIdentifierNode.kt:126-144 | the run stays inside the text, or fails only as multiline |
| QuotedIdentifiers.Section | src/main/kotlin/org/lexem/angmar/parser/commons/QuotedIdentifierNode.kt:115-145 | a section read takes at least one character and stays inside the text |
| QuotedIdentifiers.Round | src/main/kotlin/org/lexem/angmar/parser/commons/QuotedIdentifierNode.kt:65-66 | a round read consumes at least one character and stays inside the text |
| QuotedIdentifiers.SectionsFrom | src/main/kotlin/org/lexem/angmar/parser/commons/QuotedIdentifierNode.kt:64-67 | the loop reads as many sections as escapes and stays inside the text |
| QuotedIdentifiers.Sections | src/main/kotlin/org/lexem/angmar/parser/commons/QuotedIdentifierNode.kt:62-67 | the body holds one section more than escapes and stays inside the text |
| QuotedIdentifiers.ParseSpec | src/main/kotlin/org/lexem/angmar/parser/commons/QuotedIdentifierNode.kt:54-110 | nothing exactly without a leading backtick; a result has one section more than escapes, is not the empty identifier and consumes text |
| QuotedIdentifiers.RunPlain | src/main/kotlin/org/lexem/angmar/parser/commons/QuotedIdentifierNode.kt:126-144 | a run holds only allowed, non-end-of-line characters and stops at a character that is not allowed |
| QuotedIdentifiers.RunMultiline | src/main/kotlin/org/lexem/angmar/parser/commons/QuotedIdentifierNode.kt:126-142 | a run fails as multiline exactly when an end-of-line comes before any character that is not allowed |
| QuotedIdentifiers.SectionPlain | src/main/kotlin/org/lexem/angmar/parser/commons/QuotedIdentifierNode.kt:115-145 | a section holds neither a backtick, nor the escape start, nor an end-of-line, and stops before a character that is not allowed |
| QuotedIdentifiers.SectionNothing | src/main/kotlin/org/lexem/angmar/parser/commons/QuotedIdentifierNode.kt:119-123 | a section yields nothing exactly when its first character is missing, not allowed or an end-of-line |
| QuotedIdentifiers.SectionMultiline | src/main/kotlin/org/lexem/angmar/parser/commons/QuotedIdentifierNode.kt:127-142 | the multiline error comes exactly from an end-of-line after the first character, before any character that is not allowed |
| QuotedIdentifiers.EmptyIdentifier | src/main/kotlin/org/lexem/angmar/parser/commons/QuotedIdentifierNode.kt:69-89 | two backticks with no escape between them are QuotedIdentifiersEmpty |
| QuotedIdentifiers.WithoutEndQuote | src/main/kotlin/org/lexem/angmar/parser/commons/QuotedIdentifierNode.kt:91-107 | a body followed by neither the end quote nor the end bracket is QuotedIdentifiersWithoutEndQuote |
| QuotedIdentifiers.ParseQuoted | src/main/kotlin/org/lexem/angmar/parser/commons/QuotedIdentifierNode.kt:91-107 | after a non-empty body, the end quote, else the end bracket, ends the identifier, else it is an error |
| QuotedIdentifiers.WritableSpec | src/main/kotlin/org/lexem/angmar/parser/commons/QuotedIdentifierNode.kt:54-110 | the nodes `parse` can build: one more section than escapes, not empty, plain sections, escapes the escape parser reads back |
| QuotedIdentifiers.ParseWritten | src/main/kotlin/org/lexem/angmar/parser/commons/QuotedIdentifierNode.kt:22-30 | round trip: what `toString` writes for such a node, `parse` reads back as the same sections and escapes, taking the whole text |
| QuotedIdentifiers.Reader.ReadText | src/main/kotlin/org/lexem/angmar/parser/commons/QuotedIdentifierNode.kt:58 | moves past the text exactly when the text at the cursor starts with it |
| QuotedIdentifiers.Reader.ReadNegativeAnyChar | src/main/kotlin/org/lexem/angmar/parser/commons/QuotedIdentifierNode.kt:119 | reads the character at the cursor exactly when it is present and allowed; otherwise the cursor stays |
| QuotedIdentifiers.ReadStringSection | src/main/kotlin/org/lexem/angmar/parser/commons/QuotedIdentifierNode.kt:115-145 | the imperative reader returns, and moves the cursor by, what `Section` specifies for the text from the cursor |
| QuotedIdentifiers.QuotedIdentifierNode.constructor | src/main/kotlin/org/lexem/angmar/parser/commons/QuotedIdentifierNode.kt:19-20 | a node starts with no section and no escape |
| QuotedIdentifiers.QuotedIdentifierNode.ToString | src/main/kotlin/org/lexem/angmar/parser/commons/QuotedIdentifierNode.kt:22-30 | the loop writes `Written`: the quotes around sections alternated with escapes |
| QuotedIdentifiers.ReadRound | src/main/kotlin/org/lexem/angmar/parser/commons/QuotedIdentifierNode.kt:65-66 | one round appends the escape and section `Round` specifies, or stops with the cursor unmoved |
| QuotedIdentifiers.ReadSections | src/main/kotlin/org/lexem/angmar/parser/commons/QuotedIdentifierNode.kt:64-67 | the loop appends what `SectionsFrom` specifies and moves the cursor past it |
| QuotedIdentifiers.ReadBody | src/main/kotlin/org/lexem/angmar/parser/commons/QuotedIdentifierNode.kt:62-67 | the first section and the loop append what `Sections` specifies |
| QuotedIdentifiers.Parse | src/main/kotlin/org/lexem/angmar/parser/commons/QuotedIdentifierNode.kt:54-110 | the node and the cursor are what `ParseSpec` specifies; nothing leaves the cursor unmoved |
| Analyzers.RenamedSpec | src/main/kotlin/org/lexem/angmar/analyzer/nodes/descriptive/AnyLexemeAnalyzer.kt:43 | renaming `Last` fails exactly when it is unbound; otherwise the new name yields its value, names other than `Last` are unchanged and the binding count is kept |
| Analyzers.CollapsedSpec | src/main/kotlin/org/lexem/angmar/analyzer/nodes/descriptive/AnyLexemeAnalyzer.kt:178-183 | collapsing onto a generation of the chain succeeds and only drops the rollback points frozen from it on; onto the newest generation it changes nothing |
| AnyLexemeAnalyzer.DecideBacktracks | src/main/kotlin/org/lexem/angmar/analyzer/nodes/descriptive/AnyLexemeAnalyzer.kt:134-171 | both kinds of quantifier backtrack exactly when neither satisfied nor allowed another iteration |
| AnyLexemeAnalyzer.DecideLazy | src/main/kotlin/org/lexem/angmar/analyzer/nodes/descriptive/AnyLexemeAnalyzer.kt:134-150 | lazy: leave, keeping a rollback point to iterate, exactly when satisfied; iterate exactly when unsatisfied and allowed |
| AnyLexemeAnalyzer.DecideGreedy | src/main/kotlin/org/lexem/angmar/analyzer/nodes/descriptive/AnyLexemeAnalyzer.kt:151-171 | greedy: iterate whenever allowed, keeping an exit point exactly when also satisfied; leave exactly when not allowed but satisfied |
| AnyLexemeAnalyzer.StartSpec | src/main/kotlin/org/lexem/angmar/analyzer/nodes/descriptive/AnyLexemeAnalyzer.kt:26-40 | start binds `AtomicFirstIndex` to the newest generation, shadowing nothing else, and hands over to data capturing, else the quantifier, else the lexeme |
| AnyLexemeAnalyzer.FinishedRemovesAll | src/main/kotlin/org/lexem/angmar/analyzer/nodes/descriptive/AnyLexemeAnalyzer.kt:225-236 | `finish` removes the node's names one after another |
| AnyLexemeAnalyzer.RemovedAllSpec | src/main/kotlin/org/lexem/angmar/analyzer/nodes/descriptive/AnyLexemeAnalyzer.kt:225-236 | removing distinct names succeeds exactly when all are bound, releases one binding each and changes nothing else |
| AnyLexemeAnalyzer.FinishSpec | src/main/kotlin/org/lexem/angmar/analyzer/nodes/descriptive/AnyLexemeAnalyzer.kt:225-236 | `finish` removes exactly the names the node pushed, succeeds exactly when they are bound, and changes nothing else |
| AnyLexemeAnalyzer.ControlSpec | src/main/kotlin/org/lexem/angmar/analyzer/nodes/descriptive/AnyLexemeAnalyzer.kt:109-118 | a control signal finishes the node and passes the same signal to the parent |
| AnyLexemeAnalyzer.OtherSignalSpec | src/main/kotlin/org/lexem/angmar/analyzer/nodes/descriptive/AnyLexemeAnalyzer.kt:121 | any other signal returns to the parent with the node's parent signal, changing nothing else |
| AnyLexemeAnalyzer.IncrementedSpec | src/main/kotlin/org/lexem/angmar/analyzer/nodes/descriptive/AnyLexemeAnalyzer.kt:215-220 | the union's index grows by one in its own cell and nothing else changes |
| AnyLexemeAnalyzer.EndLexemWithQuantifier | src/main/kotlin/org/lexem/angmar/analyzer/nodes/descriptive/AnyLexemeAnalyzer.kt:67-85 | with a quantifier, the end of an iteration removes the result, increments the index and evaluates the condition on the next index |
| AnyLexemeAnalyzer.EndLexemWithoutQuantifier | src/main/kotlin/org/lexem/angmar/analyzer/nodes/descriptive/AnyLexemeAnalyzer.kt:77-88 | without a quantifier, the end removes the result and finalizes non-atomically, keeping the rollback points |
| AnyLexemeAnalyzer.CapturedKeeps | src/main/kotlin/org/lexem/angmar/analyzer/nodes/descriptive/AnyLexemeAnalyzer.kt:196-210 | the data capture changes nothing but the captured targets |
| AnyLexemeAnalyzer.CapturedSpec | src/main/kotlin/org/lexem/angmar/analyzer/nodes/descriptive/AnyLexemeAnalyzer.kt:196-210 | stores the first captured element without a quantifier and the list with one; fails exactly on an empty list without a quantifier; no other target changes |
| AnyLexemeAnalyzer.AppendedSpec | src/main/kotlin/org/lexem/angmar/analyzer/nodes/descriptive/AnyLexemeAnalyzer.kt:70-75 | each lexeme result is appended to the end of the capturing list |
| AnyLexemeAnalyzer.FinalizedKeepsRollback | src/main/kotlin/org/lexem/angmar/analyzer/nodes/descriptive/AnyLexemeAnalyzer.kt:177-191 | a non-atomic finalization keeps the rollback points |
| AnyLexemeAnalyzer.FinalizedAtomic | src/main/kotlin/org/lexem/angmar/analyzer/nodes/descriptive/AnyLexemeAnalyzer.kt:178-183 | an atomic finalization collapses onto the saved generation and drops the rollback points frozen since |
| AnyLexemeAnalyzer.AtomicLeavesNoRollbackPoint | src/main/kotlin/org/lexem/angmar/analyzer/nodes/descriptive/AnyLexemeAnalyzer.kt:178-183 | an atomic lexeme leaves exactly the rollback points it started with |
| AnyLexemeAnalyzer.PlainLexemeRestoresStack | src/main/kotlin/org/lexem/angmar/analyzer/nodes/descriptive/AnyLexemeAnalyzer.kt:24-122 | a plain lexeme, started and then ended with its result, returns to its parent with the stack it found |
| AnyLexemeAnalyzer.StateMachine | src/main/kotlin/org/lexem/angmar/analyzer/nodes/descriptive/AnyLexemeAnalyzer.kt:24-122 | handling a signal on the analyzer object gives the outcome and state `Step` specifies |
| AnyLexemeAnalyzer.EndDataCapture | src/main/kotlin/org/lexem/angmar/analyzer/nodes/descriptive/AnyLexemeAnalyzer.kt:41-54 | the end-of-data-capturing branch agrees with `Step` |
| AnyLexemeAnalyzer.EndQuantification | src/main/kotlin/org/lexem/angmar/analyzer/nodes/descriptive/AnyLexemeAnalyzer.kt:55-66 | the end-of-quantifier branch agrees with `Step` |
| AnyLexemeAnalyzer.EndLexeme | src/main/kotlin/org/lexem/angmar/analyzer/nodes/descriptive/AnyLexemeAnalyzer.kt:67-89 | the end-of-lexeme branch agrees with `Step` |
| AnyLexemeAnalyzer.EvaluateCondition | src/main/kotlin/org/lexem/angmar/analyzer/nodes/descriptive/AnyLexemeAnalyzer.kt:127-172 | agrees with `Condition`, whose decision the Decide lemmas characterise |
| AnyLexemeAnalyzer.Finalization | src/main/kotlin/org/lexem/angmar/analyzer/nodes/descriptive/AnyLexemeAnalyzer.kt:177-191 | agrees with `Finalized` |
| AnyLexemeAnalyzer.SetDataCapturing | src/main/kotlin/org/lexem/angmar/analyzer/nodes/descriptive/AnyLexemeAnalyzer.kt:196-210 | agrees with `Captured` |
| AnyLexemeAnalyzer.IncrementIterationIndex | src/main/kotlin/org/lexem/angmar/analyzer/nodes/descriptive/AnyLexemeAnalyzer.kt:215-220 | agrees with `Incremented` |
| AnyLexemeAnalyzer.Finish | src/main/kotlin/org/lexem/angmar/analyzer/nodes/descriptive/AnyLexemeAnalyzer.kt:225-236 | agrees with `Finished` |
| AnyLexemeAnalyzer.FindUnion | src/main/kotlin/org/lexem/angmar/analyzer/nodes/descriptive/AnyLexemeAnalyzer.kt:129-130 | the union bound to `LexemeUnion`, dereferenced and cast, is `Union` |
| UnicodeIntervalElementAnalyzer.RangeSpec | src/main/kotlin/org/lexem/angmar/analyzer/nodes/literals/UnicodeIntervalElementAnalyzer.kt:115 | a code point is in the range exactly between its bounds; a single point is a one-point range; reversed bounds give the empty range |
| UnicodeIntervalElementAnalyzer.OperatedSpec | src/main/kotlin/org/lexem/angmar/analyzer/nodes/literals/UnicodeIntervalElementAnalyzer.kt:113-119 | `operate` succeeds exactly when `Accumulator` holds an interval, then replaces it in place by its union with the range, changing no other name |
| UnicodeIntervalElementAnalyzer.OperatedErrors | src/main/kotlin/org/lexem/angmar/analyzer/nodes/literals/UnicodeIntervalElementAnalyzer.kt:114 | the only errors are an unbound accumulator and a cast failure |
| UnicodeIntervalElementAnalyzer.ConstantValueSpec | src/main/kotlin/org/lexem/angmar/analyzer/nodes/literals/UnicodeIntervalElementAnalyzer.kt:25-29 | an element with a constant range adds it at once and returns to the parent |
| UnicodeIntervalElementAnalyzer.NoConstantSpec | src/main/kotlin/org/lexem/angmar/analyzer/nodes/literals/UnicodeIntervalElementAnalyzer.kt:26 | without a constant range the left expression runs first |
| UnicodeIntervalElementAnalyzer.LeftIncompatible | src/main/kotlin/org/lexem/angmar/analyzer/nodes/literals/UnicodeIntervalElementAnalyzer.kt:30-53 | a left value is an IncompatibleType error exactly when it is not an integer |
| UnicodeIntervalElementAnalyzer.RightIncompatible | src/main/kotlin/org/lexem/angmar/analyzer/nodes/literals/UnicodeIntervalElementAnalyzer.kt:65-83 | a right value is an IncompatibleType error exactly when it is not an integer |
| UnicodeIntervalElementAnalyzer.IncorrectRangeBoundsSpec | src/main/kotlin/org/lexem/angmar/analyzer/nodes/literals/UnicodeIntervalElementAnalyzer.kt:85-97 | integer bounds fail with IncorrectRangeBounds exactly when left exceeds right |
| UnicodeIntervalElementAnalyzer.LeftThenRightSpec | src/main/kotlin/org/lexem/angmar/analyzer/nodes/literals/UnicodeIntervalElementAnalyzer.kt:55-58 | a left value with a right expression to come is kept as `Left` and the right expression runs |
| UnicodeIntervalElementAnalyzer.SingleValueSpec | src/main/kotlin/org/lexem/angmar/analyzer/nodes/literals/UnicodeIntervalElementAnalyzer.kt:60-63 | a single value `v` adds `{v}`, drops `Last` and returns to the parent, changing no other name |
| UnicodeIntervalElementAnalyzer.RangeValueSpec | src/main/kotlin/org/lexem/angmar/analyzer/nodes/literals/UnicodeIntervalElementAnalyzer.kt:99-103 | an ordered range is added and `Left` and `Last` are dropped, changing no other name |
| UnicodeIntervalElementAnalyzer.DropLeftAndLast | src/main/kotlin/org/lexem/angmar/analyzer/nodes/literals/UnicodeIntervalElementAnalyzer.kt:101-103 | removing `Left` then `Last` releases two bindings and nothing else |
| UnicodeIntervalElementAnalyzer.EndRightReturns | src/main/kotlin/org/lexem/angmar/analyzer/nodes/literals/UnicodeIntervalElementAnalyzer.kt:107 | after the right bound the element returns to its parent when the range is added, and fails exactly when adding it fails |
| UnicodeIntervalElementAnalyzer.StateMachine | src/main/kotlin/org/lexem/angmar/analyzer/nodes/literals/UnicodeIntervalElementAnalyzer.kt:23-108 | handling a signal on the analyzer object gives the outcome and state `Step` specifies |
| UnicodeIntervalElementAnalyzer.Operate | src/main/kotlin/org/lexem/angmar/analyzer/nodes/literals/UnicodeIntervalElementAnalyzer.kt:113-119 | agrees with `Operated` |
| UnicodeIntervalElementAnalyzer.EndRightSide | src/main/kotlin/org/lexem/angmar/analyzer/nodes/literals/UnicodeIntervalElementAnalyzer.kt:65-104 | agrees with `RightEnded` |

## Left out

- `LexemMemory`, `LexemAnalyzer`, the `Lxm...` value classes, `BigNodeStackLevel` and `BigNodeL1HeapPage` are not part of this model. `Analyzers` states only the effect of their operations on the resolved stack and heap, and a level-1 page is a map from positions to cells.
- `maxDistanceToShift`, the initial collection threshold, the threshold growth factor and `heapPageL3Mask` are not defined in `Consts.kt`; `Consts.Memory` is not part of this model. They are parameters: `Config`, and the page bits `k`, whose mask `PageMask(k)` keeps all but the low `k` bits.
- `freeSpacePercentage` is floating point. The 20% comparison is stated exactly on integers (`EnoughFreeSpace`), and the grown threshold is truncated.
- Reference counting is modelled on cells, but the recursive release of what a value references (`memoryDealloc`, `memoryShift`, `decreaseReferences` on the values removed from the stack) is not. Neither is the reference taken by `addToStack`.
- The marking phase of `spatialGarbageCollect`, which walks from the standard-library context and the stack, is a parameter (`marked`). The per-cell garbage flags are left out.
- The `BigNodeCell` instance pool and `nextNode` links are left out, including the forward cascade of `destroy` (`BigNode.kt:409`). The pool does not change what the memory resolves to. The cascade does: the collapse as written ends with `destroy()` on the oldest generation (`BigNode.kt:380-381`), which also destroys every newer generation. The model only records that the oldest generation is destroyed (`Chains.CollapseAsWrittenOntoOldestDestroys`).
- The parsers' `fromBuffer` memoisation, node positions and the `finalizeNode` bookkeeping are left out. The reader is a text and a cursor.
- `Commons.checkIdentifier`, `Commons.parseSimpleEscape`, the end-of-line characters, the escape start token and `UnicodeEscapeNode.endBracket` belong to other parsers. They are parameters. An escape is represented by the text its node prints.
- Exception messages and source-code reports are left out; only the exception type is kept.
- The text cursor of a rollback point is left out, and so is `restoreCopy`.
- Identifier names are distinct placeholder strings.
- A collapse onto a generation that is not in the chain cannot be expressed. `Collapsed` returns an error for a handle on no generation.
- Kotlin `Int` overflow is not modelled. Integers are unbounded, except the 32-bit page mask arithmetic.
- `IntegerRange.new(left, right)` with `left > right` is taken to be empty.
- Analyzers.Collapsed: the analyzers' `collapseTo` is the corrected collapse, which keeps the resolved stack and heap. The collapse as written (Findings) can drop a level the destination wrote, so an analyzer step that reads a name after a collapse, such as `AnyLexemeAnalyzer` finishing an atomic lazy quantifier (`AnyLexemeAnalyzer.kt`, lines 138-141, 182 and 227), may fail with StackNotFoundElement in the code where the model succeeds.
- Analyzers.Got: the analyzers read the stack with the corrected lookup, without the fallback to the predecessor generation (`BigNode.kt:120-121`, Findings).
- Chains.PruneLevelsAsWritten: removing a key from `stackLevels` while iterating its keys (`BigNode.kt:334-340`) throws `ConcurrentModificationException` when another key follows the removed one in iteration order. The model removes all the levels at once and does not capture that exception. The Findings counterexample removes only the last key, so it is not affected.
- L2HeapPages.MaskRoundsDown: states the mask's rounding on 32-bit patterns only. That `position and PageMask(k)` read as an integer equals `PageIndex(position, k)` is not proved, because the solver cannot convert between bit-vectors and integers within the resource limit. The page table uses `PageIndex`.

## Findings

| source | as written | input that shows it | evidently intended | confidence | as-written member | corrected member |
|---|---|---|---|---|---|---|
| src/main/kotlin/org/lexem/angmar/analyzer/memory/BigNode.kt:335 | the destination's levels at or above `actualStackSize`, the number of bindings, are removed | a stack `[{}, {y: 2}]` whose empty middle level was left by `removeFromStack`: 2 levels, 1 binding, so level 1 is removed | remove the levels at or above `actualStackLevelSize`, the number of levels | not executed | Chains.PruneAsWrittenDropsLiveLevel | Chains.CollapseToKeepsStack |
| src/main/kotlin/org/lexem/angmar/analyzer/memory/BigNode.kt:343-355 | the search for level `i` runs down to the oldest generation; the level found is removed from its holder, even when the holder is the destination itself | a three-generation chain where generation 1 wrote level 0 and generation 2 is the newest; collapse generation 2 onto generation 1 (collapsing a generation onto itself returns at once, `BigNode.kt:319-321`) | stop at the destination and keep its own level | not executed | Chains.CollapseAsWrittenLosesLevel | Chains.CollapseToKeepsStack |
| src/main/kotlin/org/lexem/angmar/analyzer/memory/BigNode.kt:360-385 | `collapseToRecursively` runs past the destination, moves the destination's own cells into itself and removes them; on the oldest generation it ends with `destroy()` | a three-generation chain whose generation 1 holds cell 0, with generation 2 collapsed onto generation 1; any chain of two or more generations collapsed onto generation 0 | stop the recursion at the destination | not executed | Chains.CollapseAsWrittenLosesCell | Chains.CollapseToKeepsHeap |
| src/main/kotlin/org/lexem/angmar/analyzer/memory/BigNode.kt:120-121 | a name missing from the newest generation's stack is looked up in the predecessor's stack | `x` bound in generation 0 and removed in generation 1: generation 1's stack is empty, yet `x` is found | search only the resolved stack, which already includes the predecessors' levels | not executed | Chains.GetFromStackAsWrittenResurrects | BigNodes.BigNode.GetFromStack |
