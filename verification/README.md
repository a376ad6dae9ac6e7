# Verified model of the radix tree, the KV planner and the text tools

This project models parts of a C inference engine in Dafny and proves what its code promises.

- **`rax.c`**, a radix tree that maps byte strings to pointers. Nodes may be compressed, and a child
  slot may hold a value instead of a node. The model has two layers. A `Tree` is a value; every node
  carries the address of its allocation. A `Heap` maps addresses to nodes, and `Holds` says that the
  heap stores a tree, uses every allocation once and has leaked none. Methods of the C file work on
  the heap in the same steps (realloc, stores into the parent's link, free), with `numele` and
  `numnodes` as fields. A position in the tree is a path of parents with a hole (`Ctx`); the parent
  stack, the parent links and the iterator are concrete forms of it.
- **`RaxPacked`** goes one level down: the bytes of one node, where edges, padding, child words and
  value share a block, and the 16-bit leaf bitmap. `RaxEncode` is the way back, from nodes to bytes.
- **`engine/context.c`, `engine/layer_state.c`**: saturating KV budgets, arenas per stage and views
  per layer; tensor shapes; per-expert spans and the arena span of a feed-forward layer.
- **`linenoise.c`**: the edit buffer with its folds, the rendered line, bracketed paste, and runs of edits.
- **`ds4_pack.c`, `ds4_gpu_arena_stub.c`, `ds4_source_formats.c`, `ds4_cli.c`**: reconciliation of a
  pack index, indexed decoding against the reference decoders, the `<think>` filter, and the UTF-8
  validator.

`dafny verify dfyconfig.toml` checks the whole project; the configuration sets a resource limit in place
of a time limit.

## What turned out not to hold

- `raxRemove` scans a chain twice, and only the first scan stops at 65535 bytes
  (`rax.c:1399`, `rax.c:1426-1443`), so the second one may copy past the new node.
  `RaxRemove.Remove` reports that as `overrun`, exactly when `RemovalOverruns` holds of the tree and
  the key: recompression is tried, the first scan finds something to merge, and the whole chain has
  more than 65535 bytes. `RaxMerging.RemoveLong` reaches it from a valid tree. It needs a key of more
  than 65535 bytes.
- The comment at `rax.c:1343-1354` removes "FOO" from a tree with "FOOBAR" and shows a merge that the
  code does not try (`rax.c:1316`): `RaxMerging.FooStaysApart` and `RaxMerging.RemoveFoo`.
  `RaxMerging.TriedExactly` says when recompression is tried, and `RaxMerging.MergedExactly` when a
  removal leaves a single node behind.
- `parse_shape_dims` takes an `x` before the closing bracket, and leading zeros.
  `Shapes.AcceptsIsStrict` says that the accepted strings are the well-formed shapes and those with
  one such `x`; `Shapes.PrintedExactly` says which of them are printed.
- A 3D mxfp4 tensor whose rows end inside a block passes the flat byte formula, but its experts come
  out empty (`LayerSpan.HalfBlockRows`); of more than 2^32 experts the last ones cannot be named
  (`LayerSpan.TooManyExperts`). `LayerSpan.ExpertsTileExactly` says exactly when the spans tile the
  tensor.
- The byte length of an f8 tensor rounds its elements up to blocks in wrapping arithmetic
  (`engine/context.c:581-582`). From 2^64 - 127 elements on, the scale bytes are lost and a length that
  does not fit is accepted; `LayerSpan.F8BytesExactly` says that it is exact below, and only there.
- Arena sums saturate. `KvPlan.PlanLaidOut` shows that a stage's views tile its arena exactly when
  what the stage needs, computed without a bound, is at most the largest 64-bit number, and
  `KvPlan.TooManySlots` gives the inputs for which it is not.

## Model

| member | source | states |
|---|---|---|
| Keys.LessTransitive | rax.c:1899-2108 | the byte order that seeks and scans refer to is an order |
| RaxTree.EntriesSorted | rax.c:559-620 | iteration order of a well-formed tree is strictly increasing byte order, so no key occurs twice |
| RaxTree.MapOfSize | rax.c:629-1083 | an ordered entry list has as many entries as its map has keys |
| RaxZipper.PlugEntries | rax.c:559-620 | the keys of a tree are those before a position, those at it and those after it |
| RaxZipper.CtxOrder | rax.c:559-620 | every key before a position is smaller, and every key after it larger, than any string that starts with the position's bytes |
| RaxZipper.UpdateAt | rax.c:629-1083 | replacing what one position holds is a map update of the whole tree |
| RaxHeap.Replace | rax.c:629-1083 | rebuilding a subtree elsewhere and overwriting one link gives the heap of the changed tree, with nothing leaked or shared |
| RaxHeap.RepFrame | rax.c:629-1083 | a subtree is unaffected by writes outside its own allocations |
| RaxCore.Rax.constructor | rax.c:248-260 | a new tree is well formed and empty, with one node |
| RaxCore.LowWalk | rax.c:559-620 | the walk stops where the key's fate is decided: matched bytes, link, split position, stack and inline leaf all describe that position, which the tree and the key determine |
| RaxCore.StoppedLookup | rax.c:1101-1117 | below the stop, the key is present exactly when the whole key was consumed, not inside a compressed node, at a key node |
| RaxCore.Find | rax.c:1101-1117 | find is lookup in the map of the tree |
| RaxInsert.MaterializeInlineLeaf | rax.c:212-226 | an inline leaf becomes a real key node at the same position, one more node |
| RaxInsert.SplitOnMismatch | rax.c:629-1083 | ALGO 1 keeps every entry and leaves a branching node at the mismatch, whose bytes are spelled correctly |
| RaxInsert.SplitAtKey | rax.c:629-1083 | ALGO 2 adds exactly the new key |
| RaxInsert.AddChildNoAlloc | rax.c:307-454 | one edge is inserted in order, inline child 12 is moved to a node of its own when it would land in slot 13 |
| RaxInsert.AddChild | rax.c:465-478 | the grown node is linked into its parent and the new child into the node |
| RaxInsert.CompressNode | rax.c:514-528 | a node without children becomes a compressed node with one child |
| RaxInsert.AddInlineChild | rax.c:629-1083 | the last byte of a key as an inline leaf adds exactly that key |
| RaxInsert.AddEmptyChild | rax.c:629-1083 | one more byte of a key is spelled out without changing any entry |
| RaxInsert.InsertRest | rax.c:629-1083 | the tail loop adds exactly the new key, for keys of any length |
| RaxInsert.UpdateNode | rax.c:629-1083 | an existing node becomes a key or gets a new value; nothing else changes |
| RaxInsert.GenericInsert | rax.c:629-1083 | insertion is map update: m[k:=v], or m when the key exists and overwrite is off; it reports whether k was new and the previous value; the tree stays well formed and both counters exact |
| RaxRemove.RemoveChildAtPtr | rax.c:1141-1205 | the parent loses exactly one edge and slot |
| RaxRemove.RemoveCleanup | rax.c:1226-1265 | useless ancestors are freed upward; every entry outside the removed position stays |
| RaxRemove.ChainEntries | rax.c:1388-1450 | merging a chain into one compressed node changes no entry |
| RaxRemove.ScansAgree | rax.c:1388-1443 | the two scans of a chain agree if and only if the bytes of the whole chain fit into one node |
| RaxRemove.LongChainLongKey | rax.c:1388-1443 | a chain that does not fit belongs to a key of more than 65535 bytes |
| RaxRemove.MergeChain | rax.c:1403-1458 | recompressing a chain of n nodes keeps every entry, lowers numnodes by n-1, and overruns exactly when the chain is longer than was measured |
| RaxRemove.Recompress | rax.c:1370-1462 | the chain through the changed node becomes one node of the same entries, or the copy overruns: exactly when the first scan stops in the middle of a chain of more than 65535 bytes |
| RaxRemove.Remove | rax.c:1269-1465 | removal is map deletion; it reports whether the key was there and its value; every other key keeps its value, the tree stays well formed and both counters exact; the copy overruns if and only if the tree and the key say so |
| RaxMerging.TriedExactly | rax.c:1309-1320 | recompression is tried at every changed node that could be part of a chain, except at a compressed node that was a key |
| RaxMerging.MergedExactly | rax.c:1269-1465 | after a removal the chain through the changed node is one node if and only if it was one before, or the changed node has size 1 and the bytes of the chain fit into one node |
| RaxMerging.FooStaysApart | rax.c:1343-1354 | removing FOO from FOO and FOOBAR leaves two nodes that could be one |
| RaxMerging.RemoveFoo | rax.c:1316-1320 | the same on a stored tree |
| RaxMerging.LongOverruns | rax.c:1388-1443 | a tree and a key for which removal overruns |
| RaxMerging.RemoveLong | rax.c:1388-1443 | the same on a stored tree |
| RaxIter.EnterChild | rax.c:1578-1597 | the iterator descends into a child, inline or not, and its key grows by the child's label |
| RaxIter.NextStep | rax.c:1680-1785 | a forward step lands on the first entry after the current one, or is at EOF exactly when there is none |
| RaxIter.SeekGreatest | rax.c:1790-1798 | descends to the last entry of a subtree |
| RaxIter.PrevStep | rax.c:1803-1893 | a backward step lands on the last entry before the current one, or is at EOF exactly when there is none |
| RaxSeek.RebuildKey | rax.c:1899-2108 | the key of a stop is rebuilt from the parent stack |
| RaxSeek.AroundNode | rax.c:1899-2108 | after a stop at a node, the entries below, at and above the sought string |
| RaxSeek.AroundCompressed | rax.c:1899-2108 | the same after a mismatch inside a compressed node |
| RaxSeek.AroundMismatch | rax.c:1899-2108 | the same after a missing edge |
| RaxSeek.Seek | rax.c:1899-2108 | for every tree, operator string and sought string: `>`, `<`, each with or without `=`, `=`, `^` and `$` land on the least key > or >=, the greatest key < or <=, the equal key, the first or the last key, with its value, and on EOF exactly when no key matches; every other string is refused |
| RaxScan.Next | rax.c:2113-2123 | the first call after a seek stays, later calls advance by one entry |
| RaxScan.Prev | rax.c:2128-2138 | the same backwards |
| RaxScan.ScanForward | rax.c:2113-2123 | from "^", next yields every key once, in increasing order, with its value, and then ends |
| RaxScan.ScanBackward | rax.c:2128-2138 | from "$", previous yields the reverse |
| RaxFree.RecursiveFree | rax.c:1469-1494 | frees exactly the allocations of a subtree and hands every non-NULL value to the callback, each node after its children, the last child first |
| RaxFree.FreeOrderIsValues | rax.c:1469-1494 | the callback sees the non-NULL values of the map from the greatest key down to the least |
| RaxFree.ValuesAre | rax.c:1469-1494 | every value but NULL occurs as often as there are entries with it |
| RaxFree.FreeWithCallback | rax.c:1498-1502 | no node is left, as the code asserts, nothing stays allocated, and the callback has seen every non-NULL value once per key, in descending key order |
| RaxFree.Run | rax.c:1087-1117 | over every run of insert, try-insert and remove from a new tree the content is that of a plain map, and an overrun needs an inserted key of more than 65535 bytes |
| RaxFree.KeysWereInserted | rax.c:1087-1117 | a key in the map after a run was inserted in it |
| RaxPacked.InsertBits | rax.c:438-445 | making room at a position moves the bits from there on up by one and clears the position, for slots below 13 |
| RaxPacked.RemoveBits | rax.c:1189-1197 | closing a gap moves the bits after it down by one |
| RaxPacked.WidenBlock | rax.c:366-435 | the four overlapping moves, in their order, insert one edge byte and one child word and keep the value word |
| RaxPacked.WidenedSlots | rax.c:366-451 | decoded, the child words have one more entry at the position, and a spilled child 12 arrives in slot 13 as a pointer |
| RaxPacked.AddChildNoAlloc | rax.c:307-454 | the bytes of the node decode to the node with one edge and one slot inserted, same value, edges still sorted, bits only below the number of children |
| RaxPacked.ChildAddedIsAddKid | rax.c:307-454 | that is the step the tree model makes |
| RaxPackedRemove.NarrowBlock | rax.c:1167-1187 | the three moves take out one edge byte and one child word and keep the value word |
| RaxPackedRemove.SetData | rax.c:271-281 | on any node the key gets the new value, also over a NULL one, and nothing else changes |
| RaxPackedRemove.RemoveChildAtPtr | rax.c:1141-1205 | the bytes decode to the node without that edge and slot; a compressed node becomes one without children, its null flag set exactly for a NULL value |
| RaxPackedRemove.ChildRemovedIsRemoveKid | rax.c:1141-1205 | that is the step the tree model makes |
| RaxPacked.PaddingLeast | rax.c:157 | the padding is the least that aligns the child words |
| RaxEncode.Layout | rax.c:157-182 | what the bytes of a node say, by plain offsets: edges, padding to a multiple of eight, a word for every child, or one for a compressed node, and the value word last |
| RaxEncode.EncodeDecode | rax.c:157-182 | every node whose words fit 64 bits can be stored as bytes, and reading them back gives the node |
| RaxPacked.WordInjective | rax.c:157-182 | different words have different bytes, so a block decodes to one node only |
| RaxDefrag.WalkNodes | rax.c:2427-2514 | the walk visits every allocation of the tree exactly once |
| RaxDefrag.WalkValues | rax.c:2427-2514 | the walk visits every non-NULL value once, in key order, with its full key |
| RaxDefrag.WalkInOrder | rax.c:2427-2514 | the walk is a preorder: keys never decrease, and a node comes right before its own value and before everything below it |
| RaxDefrag.NodeSizeExact | rax.c:2453 | the size of a node item is the length of every block that decodes to the node, and that many bytes decode to it |
| RaxDefrag.NodeSizeStored | rax.c:2453 | the same size in numbers: header, edges, padding, a word for every child and one for a value that is not NULL; the stored node takes exactly these bytes |
| RaxDefrag.AdvanceRest | rax.c:2436-2514 | one turn of the loop moves at most one item from what is left to the caller, and the loop ends |
| RaxDefrag.DefragIterator.constructor | rax.c:2410-2425 | a new walk has the whole preorder before it |
| RaxDefrag.Next | rax.c:2436-2514 | returns the first item that is left, with its key, or reports the end exactly when none is; a node item carries its address, its place in the parent, its flags and the length of its block, a value item its value and size 0 |
| RaxDefrag.ReplaceNode | rax.c:2523-2555 | a copy takes the node's place, the caller gets the original, entries, the other allocations and the rest of the walk are unchanged; error cases change nothing |
| RaxDefrag.ReplaceData | rax.c:2564-2585 | the current key gets the new value; every other key, every node and the rest of the walk are unchanged |
| RaxDefrag.DefragAll | rax.c:2428-2585 | moving every node and replacing every value during one walk visits each exactly once, leaves allocated exactly the copies, and yields the old map with the new values |
| KvPlan.SatMulExact | engine/context.c:172-175 | saturating multiplication is the exact product, cut off |
| KvPlan.AlignUpExact | engine/context.c:182-188 | saturating alignment is the least multiple of 256 that is not smaller, cut off |
| KvPlan.BudgetExact | engine/context.c:190-231 | every field of a budget is the exact need, cut off: saturation never hides a wrong intermediate result |
| KvPlan.BudgetEmpty | engine/context.c:190-199 | a layer needs nothing exactly when it does not exist, or there are no tokens or no slots |
| KvPlan.NeedRows | engine/context.c:190-231 | the need in stored rows: 128 window rows of 512 values per slot, one compressed row for every full group of 4 or 128 tokens, an indexer row of 128 values beside it in the first case |
| KvPlan.Classes | engine/context.c:157-161 | layers 0 and 1 have a window only; after them even layers keep every fourth token and odd ones every 128th |
| KvPlan.StateSplitSums | engine/context.c:233-258 | the four state pieces of a layer sum to its compression-state budget |
| KvPlan.StateDividedOnce | engine/context.c:233-258 | key/value and score parts are equal, the indexer parts are a quarter of the attention parts and exist on every second layer only; with the sum this leaves one division |
| KvPlan.StatePieces | engine/context.c:430-484 | the state pieces of every planned view are divided that way |
| KvPlan.Context.SumBudgets | engine/context.c:374-396 | the sums per stage and region are exact, cut off |
| KvPlan.Context.PlaceArenas | engine/context.c:397-420 | each arena has four regions at exact aligned offsets, cut off |
| KvPlan.PlaceView | engine/context.c:430-484 | each piece of a view is placed after the pieces before it, and the cursors move past it |
| KvPlan.Context.ApplyDerivedKvPlan | engine/context.c:371-485 | the whole plan is the exact layout, cut off, with the state of every planned layer divided between attention and indexer as it should be; nothing changes without a context length |
| KvPlan.Open | engine/context.c:828-855 | a context is refused exactly when it has a context length but no slots, or a cache size beside it; otherwise it is planned when it has a context length |
| KvPlan.RegionTiled | engine/context.c:425-485 | the pieces of a region follow each other without gap or overlap |
| KvPlan.PlanLaidOut | engine/context.c:371-485 | a stage's views tile its four regions, in order and inside the arena, if and only if the exact need of the stage is at most the largest number |
| KvPlan.PlanAligned | engine/context.c:397-420 | region offsets are multiples of 256 in every plan that is laid out, and so is the total unless rounding it up saturates |
| KvPlan.StateOutside | engine/context.c:371-485 | when a stage needs more, its state region ends beyond the arena |
| KvPlan.TooManySlots | engine/context.c:190-258 | more than 2^47 - 1 slots are too many for every stage and context length |
| KvPlan.ViewsDisjoint | engine/context.c:425-485 | all pieces of a stage are pairwise disjoint and inside the arena |
| KvPlan.TilesCover | engine/context.c:425-485 | every byte of a region belongs to a piece |
| Shapes.ParseShapeDims | engine/context.c:527-560 | a shape string is accepted if and only if it is, but for one `x` before the bracket, a bracketed list of one to cap positive numbers joined by `x` whose product fits 64 bits; the dimensions and the product are returned |
| Shapes.AcceptsIsStrict | engine/context.c:527-560 | what the parser takes are the well-formed shapes and those with one `x` too many before the bracket |
| Shapes.PrintedExactly | engine/context.c:527-560 | a string is a printed shape if and only if it is well formed and no number has a leading zero |
| Shapes.RoundTrip | engine/context.c:527-560 | parsing a printed shape gives the dimensions back |
| LayerSpan.MxBytes | engine/context.c:584-589 | seventeen bytes for every block of 32 elements, refused exactly when that overflows or leaves a remainder |
| LayerSpan.PlainBytes | engine/context.c:566-594 | two or four bytes an element, refused exactly when that does not fit; unknown types have no size |
| LayerSpan.F8BytesExactly | engine/context.c:580-583 | the f8 length is exact if and only if the number of elements plus 127 fits 64 bits |
| LayerSpan.RowBytesSmall | engine/layer_state.c:151-155 | an expert has seventeen bytes for every block of its rows, none when a row ends inside a block, and the products fit 64 bits |
| LayerSpan.WholeBlocksTile | engine/layer_state.c:132-161 | expert e has its exact bytes at e times that many, and together they tile the binding |
| LayerSpan.ExpertsTileExactly | engine/layer_state.c:132-161 | the spans tile the binding if and only if rows are whole blocks, rows and columns fit 32 bits, and every expert has a 32-bit number |
| LayerSpan.HalfBlockRows | engine/layer_state.c:132-161 | a binding that passes the flat formula although its experts are empty |
| LayerSpan.TooManyExperts | engine/layer_state.c:132-161 | a binding that passes the flat formula although its last expert cannot be named |
| LayerSpan.ExpertShape | engine/layer_state.c:132-161 | the fields of an expert's matrix: dimensions modulo 2^32, seventeen bytes for every block of a row |
| LayerSpan.ExpertEnd | engine/layer_state.c:723-747 | an expert's matrix ends inside its binding, also in the arena, where its sums do not wrap |
| LayerSpan.FfnArenaSpan | engine/layer_state.c:749-808 | it succeeds exactly when every selected expert exists, can be cut out of its three tensors, and everything needed ends within 64 bits; the span is then the greatest end of the four fixed matrices and the selected experts' |
| LayerSpan.WantedExactly | engine/layer_state.c:749-808 | the matrices the loops visit are the four fixed ones and, for every selected expert, one of each expert tensor |
| LayerSpan.LubLeast | engine/layer_state.c:749-808 | any bound of all ends bounds the span |
| LayerSpan.SelectionAsSet | engine/layer_state.c:749-808 | reordering or repeating the selected experts changes neither success nor span |
| SourceFormats.PackedRowBytes | ds4_source_formats.c:49-56 | the bytes of a row of whole blocks; 0 exactly when the width is 0, ends inside a block or needs more than 64 bits |
| SourceFormats.F8RowToF32 | ds4_source_formats.c:131-153 | the row decoder writes the blocks' values one after the other and nothing else |
| SourceFormats.MxRowToF32 | ds4_source_formats.c:181-208 | the same for mxfp4 |
| SourceFormats.F8RowAt | ds4_source_formats.c:131-153 | column c of a row is byte 129 * (c / 128) + 1 + c mod 128 with the scale at byte 129 * (c / 128) |
| SourceFormats.MxRowAt | ds4_source_formats.c:181-208 | column c of an mxfp4 row is a nibble of byte 17 * (c / 32) + 1 + c mod 16, the low one in the first half of a block and the high one in the second, with the scale at byte 17 * (c / 32) |
| ArenaDecode.F8RangeOk | ds4_gpu_arena_stub.c:104-136 | a request is accepted if and only if, in unbounded arithmetic, it fits the arena, the view, the rows and the output |
| ArenaDecode.Bf16RangeOk | ds4_gpu_arena_stub.c:68-102 | the same for bf16 views, with even offsets |
| ArenaDecode.F8RowDecode | ds4_gpu_arena_stub.c:347-370 | every byte read lies in the arena; each output row is the reference decoder applied to that row's bytes; a refused request changes nothing |
| ArenaDecode.F8Decoded | ds4_gpu_arena_stub.c:347-370 | value k of block b of the i-th row asked for is output element i * cols + 128 * b + k, and comes from the two arena bytes that the view's offset, the stride and the 129-byte blocks determine |
| ArenaDecode.Bf16RowGather | ds4_gpu_arena_stub.c:272-294 | the same for bf16 rows |
| ArenaDecode.Bf16Gathered | ds4_gpu_arena_stub.c:272-294 | output element i * cols + c is the little-endian 16-bit element c of the i-th row asked for |
| LineFolds.FoldList.Add | linenoise.c:1095-1108 | a fold is inserted after those that do not start later, unless it is empty or all slots are in use |
| LineFolds.FoldList.Remove | linenoise.c:1116-1122 | exactly one fold is taken out |
| LineFolds.FoldList.AdjustAfterInsert | linenoise.c:1138-1152 | folds behind an insertion move, one around it is forgotten |
| LineFolds.FoldList.AdjustAfterDelete | linenoise.c:1156-1171 | folds behind a deletion move, folds it touches are forgotten |
| LineFolds.FoldList.RangeOverlaps | linenoise.c:1125-1134 | whether a range meets a fold |
| LineFolds.AfterOk | linenoise.c:1138-1171 | every edit keeps the folds non-empty, sorted, disjoint and inside the text |
| LineFolds.AfterTexts | linenoise.c:1138-1171 | the folds that survive an edit cover exactly the bytes they covered before |
| LineFolds.SurvivesIf | linenoise.c:1138-1171 | a fold survives an edit exactly when none of its bytes is deleted and nothing is inserted between two of them |
| LineFolds.SurvivorsAre | linenoise.c:1138-1171 | the folds left after an edit are exactly those that survive it |
| LineEdit.Line.Grow | linenoise.c:1454-1482 | growing succeeds exactly when the text fits the buffer or the configured maximum; the new buffer is the old one doubled until it fits, or the maximum |
| LineEdit.Line.InsertNoRefresh | linenoise.c:1487-1504 | the text goes in at the cursor, folds keep their bytes, or nothing changes |
| LineEdit.Line.Delete | linenoise.c:1618-1627 | exactly one character, or the hidden range that starts there, goes after the cursor |
| LineEdit.Line.Backspace | linenoise.c:1630-1640 | exactly one character, or the hidden range that ends there, goes before the cursor |
| LineEdit.UnitOfFold | linenoise.c:1618-1640 | at an end of a fold the unit is the whole hidden range, unless the text is masked; anywhere else it is one character |
| LineEdit.Line.DeletePrevWord | linenoise.c:1644-1659 | the spaces before the cursor go, unit by unit, and then the units before them up to a space or the start of the line; something goes unless the cursor is at the start |
| LineEdit.SkippedBytes | linenoise.c:1644-1659 | where units are single bytes, the first part that goes is all spaces and the second has none |
| LineEdit.Line.Transpose | linenoise.c:1933-1951 | the characters before and after the cursor change places if and only if they fit the buffer and touch no fold; no fold changes |
| LineEdit.FoldedTexts | linenoise.c:903-907 | a text is folded if and only if it has a line feed or at least 200 bytes |
| LineEdit.Line.BuildHistoryFold | linenoise.c:927-968 | a text is folded exactly when it should be; eight characters stay visible at either end, unless a line feed is among them or nothing would be left to hide |
| LineEdit.HistoryContext | linenoise.c:927-968 | of a long text of single-byte characters eight stay visible at either end, none at an end whose eight hold a line feed |
| LineEdit.AheadSplit | linenoise.c:927-968 | characters of any length are counted one after the other |
| LineEdit.Line.Recall | linenoise.c:1575-1613 | the line is the recalled entry, cut to the buffer exactly when it does not fit, with its fold |
| LineRender.RenderBuffer | linenoise.c:998-1062 | the output is the text with every fold replaced by its marker, in a buffer of exactly the computed length, and the cursor is translated |
| LineRender.MarkerText | linenoise.c:893-925 | a marker names the number of hidden lines, or of hidden bytes when they are a single line |
| LineRender.TranslateMonotone | linenoise.c:998-1062 | the translation of the cursor is monotone |
| LineRender.TranslateBounds | linenoise.c:998-1062 | it stays inside the rendered text, and the end goes to the end |
| LineRender.TranslateExact | linenoise.c:998-1062 | outside folds, what is displayed before the cursor is the rendering of the text before the cursor |
| LineRender.TranslateFold | linenoise.c:998-1062 | a cursor inside a fold is displayed behind the marker, which is what is displayed for the fold |
| LinePaste.PendingStep | linenoise.c:1788-1819 | after every byte the matcher knows exactly how much of the terminator may have begun |
| LinePaste.Collect | linenoise.c:1788-1819 | the matcher collects exactly the bytes before the first terminator, or all but a terminator that had begun |
| LinePaste.Normalize | linenoise.c:1825-1839 | the pass in place rewrites each CRLF and lone CR as one LF; one byte goes for every CRLF |
| LinePaste.NormalizedLineEnds | linenoise.c:1825-1839 | CRLF becomes one LF, a CR before anything else becomes an LF, and any other byte stays |
| LinePaste.NormalizedLength | linenoise.c:1825-1839 | the length falls by the number of CRLF pairs |
| LinePaste.NormalizedPlain | linenoise.c:1825-1839 | a text without CR is unchanged |
| LinePaste.NormalizedNoCR | linenoise.c:1825-1839 | no CR is left and the text does not grow |
| LinePaste.NormalizedAppend | linenoise.c:1825-1839 | lines are normalised independently: a text can be cut anywhere but inside a CRLF |
| LinePaste.EditPaste | linenoise.c:1776-1853 | a paste that fits the buffer or the configured maximum and finds a free fold slot if it needs one goes in at the cursor, normalised, and as a fold when it is long or has several lines; any other changes nothing |
| LineRun.Apply | linenoise.c:1875-2076 | one key or paste changes text, cursor, buffer size and folds exactly as it should: thirteen edits, each with the cases in which nothing happens |
| LineRun.StepHides | linenoise.c:1875-2076 | one edit forgets some hidden texts, keeps the others byte for byte, and adds at most one: the normalised paste, or the middle of the recalled entry |
| LineRun.Origin | linenoise.c:1875-2076 | every hidden text goes back to the edit that hid it |
| LineRun.Run | linenoise.c:1875-2076 | over every sequence of edits each does what it should, the folds stay valid, and each covers exactly the bytes that a paste or recall among them hid, which stayed hidden after every edit since |
| Pack.RowStatusOk | ds4_pack.c:399-412 | a row is OK exactly when it agrees with its tensor, lies in the file and names an existing GPU; otherwise the status names the first of these that fails |
| Pack.PackIndex.AddRow | ds4_pack.c:197-260 | a row is appended if and only if its numbers are valid and both of its names are new; each error says which test failed first |
| Pack.AcceptedIsPairing | ds4_pack.c:414-492 | what the counters decide is whether a one-to-one correspondence exists; distinct tensor names follow by counting |
| Pack.Reconcile | ds4_pack.c:414-492 | reconciliation succeeds if and only if rows and tensors correspond one to one by name and agree; always ok + failed = sources + extra rows |
| Pack.OkCountIs | ds4_pack.c:414-492 | the number of OK rows is that of the tensors whose row agrees with them |
| Pack.ExtraCountIs | ds4_pack.c:414-492 | the number of extra rows is that of the rows no tensor has found |
| ThinkFilter.HeldBack | ds4_cli.c:377-421 | what is held back is the beginning of a tag and fits the 16-byte buffer |
| ThinkFilter.FilterSplit | ds4_cli.c:377-421 | filtering a text in two pieces is filtering it at once |
| ThinkFilter.ChunksIrrelevant | ds4_cli.c:377-429 | any two ways of cutting a text give the same output and final state |
| ThinkFilter.WritesPlain | ds4_cli.c:377-421 | without colour, the output is the text without its tags, with a line end after a closing tag unless there is one |
| ThinkFilter.PlainTags | ds4_cli.c:357-421 | tags leave nothing but the line end of a closing tag |
| ThinkFilter.PlainUntagged | ds4_cli.c:377-421 | a text without tags is written as it is |
| ThinkFilter.ShowsMarked | ds4_cli.c:339-421 | with colour, the same characters are displayed, and exactly those between an opening and a closing tag are grey |
| ThinkFilter.GreyKept | ds4_cli.c:357-375 | grey is on only inside a think block |
| ThinkFilter.TokenPrinter.Process | ds4_cli.c:377-421 | the loop computes the filter |
| ThinkFilter.TokenPrinter.Finish | ds4_cli.c:423-429 | what was held back is written and the colour is reset |
| ThinkFilter.PrintChunks | ds4_cli.c:377-429 | for every way of splitting a text, everything written and the final state are those of one pass over the whole text |
| Utf8.FirstChar | ds4_cli.c:575-598 | a valid string goes on validly after its first character |
| Utf8.Rejected | ds4_cli.c:575-598 | a string that fails a test on its first sequence is not valid |
| Utf8.JsonUtf8Valid | ds4_cli.c:575-598 | accepts a string if and only if it is a concatenation of sequences in the grammar of section 4 of RFC 3629 |

## Left out

- Allocation failure, the `stack.oom` paths and their `errno` values: every allocation succeeds.
- Node callbacks, `raxRandomWalk`, `raxTouch`, `raxShow` and debug output.
- In the tree model a child slot is tagged, as the leaf bitmap does in the bytes; a `void *` is a number and 0 is NULL.
- `iskey`, `isnull` and the value word are one optional value in the tree model; a null flag left over on a node that is no key is not visible there. `RaxPacked` has the three fields.
- Key buffers, the parent stack and the counters have no size limit, and their growth is not modelled.
- RaxInsert.SplitOnMismatch: allocates the new nodes already filled, so the order of the stores inside ALGO 1 is not modelled.
- RaxRemove.Remove: says nothing about the tree after an overrun.
- How far a whole tree is compressed; `RaxMerging` speaks of the chain through the node that a removal changed.
- RaxPacked.AddChildNoAlloc: takes the address of the spilled value node as a parameter; its allocation is in `RaxInsert.AddChildNoAlloc`.
- raxCompressNode, raxReallocForData and the splitting of nodes are modelled on whole nodes, not on bytes.
- KvPlan.AlignUp: clearing the low bits is written with a remainder, which is the same for a power of two.
- The stage table, scratch, relay and device checks of `engine/context.c`, and report printing.
- LayerSpan.FfnArenaSpan: the TurboMind branch, which does not look at the selected experts beyond their range, is not modelled.
- The other `make_*_matrix` functions and the attention span repeat the ones modelled.
- Scalar conversions and multiplication of the decoders are parameters; rounding is not modelled, and dot products are left out.
- The arena bytes of `ArenaDecode` and the text of `LineEdit` are sequences, so overlap with the output buffer and the `memmove` of the text are not modelled. The fold arrays, the temporary paste buffer and the rendered line are arrays.
- The length of a character is a parameter of `LineEdit` with the bounds that valid UTF-8 gives; grapheme rules, display widths, hints, history files, the choice of a history entry and escape output are left out. Accepting a completion is not modelled.
- LinePaste.Collect: the growth of the edit buffer while a paste is read is not modelled; `LineEdit.Line.Grow` says when it succeeds.
- Fields of pack rows arrive parsed; reading files, splitting lines and the shard checks are left out, and so is the reconciliation report.
- `token_printer_write_text` without thinking, token lookup and the terminal.
