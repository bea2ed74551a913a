# Gantry layout engine, modelled in Dafny

This project models the `Layout` class of Gantry5
(`src/classes/Gantry/Component/Layout/Layout.php`). The class holds a page layout as a forest of typed
node objects: wrappers, containers, sections, grids, blocks, off-canvas areas, atoms and particles.
It resolves that forest in memory:

- it indexes the nodes by id, by type and subtype, and by the block holding them;
- it lets nodes borrow attributes, block attributes or children from another outline;
- it balances block widths so that sibling blocks add up to 100;
- it moves content from an old layout into the matching sections of a new one;
- it prunes empty leaf nodes;
- it derives the summaries stored in a layout index.

The model keeps the class's own shape. `Layouts.Layout` is a Dafny `class` with the PHP fields:

- the name, timestamp, preset and existence flag;
- the items;
- the four indices `references`, `types`, `blocks` and `inherit`.

Every method of it that changes those fields is proved equal to a specification function in one of the
other modules. The properties the code promises are then proved as lemmas about those functions.

Node objects are shared in PHP: the same object sits in the tree, in the id index and in the block
index, and inheritance writes through those aliases. The model keeps the objects in an arena
(`Heap`, a `seq<Cell>`); a handle is an index into it. Children always have larger handles than their
parent, and sibling handles increase. A layout document before loading is a `Tree` value.
`FlattenList` loads it into the arena, `UnfoldAll` reads it back, and the two are proved inverse.

PHP arrays whose order is observable (type buckets, the inherit list, leftover, the summaries) are
association lists with PHP's assignment rule:

- a key already present keeps its position and takes the new value;
- a new key goes to the end;
- `[] =` appends under one more than the largest integer key.

Modules, in dependency order:

- `Php`: options, emptiness, `round()`, ordered arrays (`Put`, `Append`, `Union`, `PutAll`).
- `Heap`: nodes, the arena, flattening and unfolding, grafting copied subtrees.
- `Indexer`: `initReferences` as a fold of its loop body over the pre-order visits; `find`,
  `referencesByType`.
- `Inheritance`: `inherit()` grouping and `initInheritance` with its three parts.
- `Widths`: `calcWidths`: the default fill, the tally, and the rescale with its rounding carry.
- `Pruning`: `clearChildren`, and the atoms removal before a save.
- `Sections`: `copySections` / `copyData`.
- `Summaries`: `positions`, `sections`, `particles`, `atoms`, `buildIndex`, the freshness test and default
  fill of `loadIndex`, and the constructor's preset.
- `Names`: the save-directory sanitiser and the preset scope and title rule.
- `Layouts`: the `Layout` class.

The code (line 586) puts the inherited attributes on the left of PHP's `+`, so the inherited value
wins; `Inheritance.BlockMerged` states this.

Other outlines used by inheritance are a parameter: `outlines`, a map from outline name to an indexed
snapshot. A missing outline is an empty layout. The file's new modification time in `save()` is a
parameter too.

## Model

| member | source | states |
|---|---|---|
| Php.Round | src/classes/Gantry/Component/Layout/Layout.php:718 | PHP `round()`: the result is within one half of the input, and an exact half goes away from zero |
| Php.Round1 | src/classes/Gantry/Component/Layout/Layout.php:699 | `round(x, 1)`: a multiple of one tenth within one twentieth of the input |
| Php.NumOfDecimal | src/classes/Gantry/Component/Layout/Layout.php:689-691 | a size given as the decimal string of a whole number, with or without a minus sign, counts as that number in the sums |
| Php.Put | src/classes/Gantry/Component/Layout/Layout.php:631-632 | keyed array assignment: the key reads the new value and every other key reads what it did; an existing key keeps its position, a new key is appended; distinct keys stay distinct |
| Php.Append | src/classes/Gantry/Component/Layout/Layout.php:638 | `[] =` stores at the end, under an integer key no entry had |
| Php.Union | src/classes/Gantry/Component/Layout/Layout.php:162-166 | PHP array `+`: the keys of both operands, with the left operand's value wherever both have the key |
| Php.PutAllLookup | src/classes/Gantry/Component/Layout/Layout.php:378-380 | after a loop of assignments, a key holds the value of its last assignment, or its old value if it had none |
| Heap.FlattenListRoundTrip | src/classes/Gantry/Component/Layout/Layout.php:147-150 | a layout document loaded into the arena unfolds back to the same document |
| Heap.Graft | src/classes/Gantry/Component/Layout/Layout.php:555 | the children of a node are replaced by fresh copies; every other node object is unchanged and the arena stays a forest |
| Heap.GraftRoundTrip | src/classes/Gantry/Component/Layout/Layout.php:555 | the grafted children unfold to exactly the trees that were copied |
| Indexer.FoldReferences | src/classes/Gantry/Component/Layout/Layout.php:630-631 | after the pass, `references[id]` is the last visited node with that id, or what it was before when none has it |
| Indexer.FoldTypes | src/classes/Gantry/Component/Layout/Layout.php:618-632 | after the pass, entry `id` of bucket `types[type][subtype]` is the last visited node with that id, type and subtype (the type when the subtype is empty) |
| Indexer.AppendEntryLookup | src/classes/Gantry/Component/Layout/Layout.php:637-638 | a node without an id goes to a positional key and never disturbs an id entry |
| Indexer.FoldBlocks | src/classes/Gantry/Component/Layout/Layout.php:621-622 | after the pass, `blocks[id]` is the block passed down to the last visit with that id that had one |
| Indexer.PreorderBlocks | src/classes/Gantry/Component/Layout/Layout.php:641-642 | a visit that carries a block is a top-level item given that block, or a direct child of a `block` node; grandchildren of a block never carry it |
| Indexer.PreorderBlockChildren | src/classes/Gantry/Component/Layout/Layout.php:641-642 | each child of a `block` node is visited with that block, and each child of any other node with none |
| Indexer.PreorderClosed | src/classes/Gantry/Component/Layout/Layout.php:616-643 | the pass visits every item and every descendant of a visited node |
| Indexer.FoldInheritList | src/classes/Gantry/Component/Layout/Layout.php:634-636 | after the pass, entry `id` of the inherit list is the last visited node with that id whose tagged form names an outline |
| Indexer.TaggedKeeps | src/classes/Gantry/Component/Layout/Layout.php:625-628 | tagging changes only the inheritance marker of a node |
| Indexer.TaggedTwice | src/classes/Gantry/Component/Layout/Layout.php:625-628 | tagging twice under one context is tagging once |
| Indexer.FoldTags | src/classes/Gantry/Component/Layout/Layout.php:625-628 | after the pass every visited node is in its tagged form and every other node is untouched |
| Indexer.IndexTagsTrees | src/classes/Gantry/Component/Layout/Layout.php:625-628 | the items of a forest indexed under a context unfold to the forest with every node tagged |
| Indexer.Find | src/classes/Gantry/Component/Layout/Layout.php:465-474 | the indexed node exactly when the id is indexed; otherwise a stub carrying only the id |
| Indexer.ReferencesByType | src/classes/Gantry/Component/Layout/Layout.php:337-347 | an empty type selects the whole index; an empty subtype selects the subtypes of the type (none when absent); otherwise the bucket, empty when absent |
| Inheritance.GroupsPartition | src/classes/Gantry/Component/Layout/Layout.php:417-427 | the group of an outline lists exactly the inherit-list names whose node names that outline, in list order, and is present exactly when that list is not empty |
| Inheritance.JobsOfGroups | src/classes/Gantry/Component/Layout/Layout.php:569-572 | the pass handles exactly the ids of the inherit list, each under the outline its node names |
| Inheritance.AttributesReplaced | src/classes/Gantry/Component/Layout/Layout.php:579-581 | `attributes` replaces the node's attributes wholesale with the source node's, empty when the source id is unknown; nothing else changes |
| Inheritance.BlockMerged | src/classes/Gantry/Component/Layout/Layout.php:582-586 | `block`: the local block keeps every key it had, gains the source block's keys except `fixed` and `size` with the source's values winning, and is unchanged when the source has no owning block |
| Inheritance.ChildrenCopied | src/classes/Gantry/Component/Layout/Layout.php:588-591 | `children` with a non-empty source: the node's children unfold to the source's subtrees, each content node tagged with the outline and the parts `attributes` and `block` |
| Inheritance.CopyKeepsOld | src/classes/Gantry/Component/Layout/Layout.php:591 | re-indexing the copied children touches no node that existed before |
| Inheritance.ChildrenCleared | src/classes/Gantry/Component/Layout/Layout.php:592-593 | `children` with an empty or missing source leaves the node with no children and changes nothing else |
| Inheritance.ItemWithoutMarker | src/classes/Gantry/Component/Layout/Layout.php:572-577 | an id that is no longer indexed, or whose node has no marker, borrows nothing |
| Widths.RescaleOne | src/classes/Gantry/Component/Layout/Layout.php:717-720 | the new size is an integer, new size plus carry is the scaled size plus the old carry, the carry is within one half, and nothing but the size changes |
| Widths.RescaleCells | src/classes/Gantry/Component/Layout/Layout.php:706-720 | the second loop changes only dynamic blocks among the children, each to an integer size with its other attributes kept |
| Widths.RescaleCarry | src/classes/Gantry/Component/Layout/Layout.php:704-721 | the new dynamic sizes plus the final carry equal the multiplier times the old dynamic sum; the carry is within one half; fixed sizes and the block count do not change |
| Widths.RescaleBalances | src/classes/Gantry/Component/Layout/Layout.php:704-721 | with a multiplier that takes the dynamic sum to `100 - fixedSize` (as line 705's does when that sum is not zero), dynamic blocks get integer sizes, fixed blocks and other children are untouched, the new dynamic sizes are within one half of `100 - fixedSize`, and equal it when `fixedSize` is an integer |
| Widths.MultiplierFills | src/classes/Gantry/Component/Layout/Layout.php:705 | the multiplier scales a non-zero dynamic sum to the room the fixed blocks leave |
| Widths.BalanceFills | src/classes/Gantry/Component/Layout/Layout.php:677-721 | for one node whose second loop runs on a non-zero dynamic sum: dynamic block children get integer sizes, fixed sizes stay as filled, and fixed plus dynamic sizes are 100 within one half, exactly 100 when the fixed sum is whole |
| Widths.PrepareDefaults | src/classes/Gantry/Component/Layout/Layout.php:685-687 | a block without a size gets 100 divided by the number of all children; every other child is left as it is |
| Widths.PrepareTally | src/classes/Gantry/Component/Layout/Layout.php:677-693 | the first loop's tally is the block count and the dynamic and fixed sums over the filled children |
| Widths.BalanceTally | src/classes/Gantry/Component/Layout/Layout.php:677-721 | a node's children are filled, tallied, and rescaled with the multiplier exactly when the tally asks for it |
| Widths.BalanceSkips | src/classes/Gantry/Component/Layout/Layout.php:695-703 | with no block children, or a one-decimal dynamic sum of 100 or of the canonical split, no size is rescaled |
| Widths.CanonicalSumIsProduct | src/classes/Gantry/Component/Layout/Layout.php:700-703 | the canonical sum is the table share times the child count, 0 for counts not in the table |
| Widths.WidthsStep | src/classes/Gantry/Component/Layout/Layout.php:670-675 | widths are balanced post-order: a node's subtree first, then the node itself |
| Pruning.Prune | src/classes/Gantry/Component/Layout/Layout.php:494-507 | pruning changes no node's fields and no node at or before the parent; the kept list is drawn from the items and stays in order |
| Pruning.PruneItem | src/classes/Gantry/Component/Layout/Layout.php:497-499 | pruning a subtree changes only that node and its descendants, and the node keeps only children it had |
| Pruning.PruneKeeps | src/classes/Gantry/Component/Layout/Layout.php:501-506 | the returned list is exactly the items that are not of a clearable type or still have children once their subtrees are pruned, in order |
| Pruning.NoEmptyClearable | src/classes/Gantry/Component/Layout/Layout.php:501-503 | no node of type grid, block, particle, position, spacer or system is kept without children |
| Pruning.KeepsStructure | src/classes/Gantry/Component/Layout/Layout.php:501-503 | a node of any other type is always kept |
| Pruning.WithoutAtoms | src/classes/Gantry/Component/Layout/Layout.php:246-250 | exactly the items whose type is not `atoms`, in order |
| Sections.FirstMatch | src/classes/Gantry/Component/Layout/Layout.php:552-558 | the first node of the bucket whose id is identical to the old item's, or none when no node has it |
| Sections.FirstMatchAt | src/classes/Gantry/Component/Layout/Layout.php:553-556 | the search stops at the first node whose id is identical |
| Sections.CopyMatched | src/classes/Gantry/Component/Layout/Layout.php:553-556 | a matched node's children become a copy of the old item's children, empty ones included; no other node changes and nothing is reported |
| Sections.CopyUnmatched | src/classes/Gantry/Component/Layout/Layout.php:560-562 | an unmatched old item changes no node and is reported as id to title exactly when it has children |
| Sections.NoBucketNoMatch | src/classes/Gantry/Component/Layout/Layout.php:551 | an old item whose subtype has no bucket in the current category finds no match |
| Sections.CategorySkipped | src/classes/Gantry/Component/Layout/Layout.php:519-541 | a category the current layout has no node of changes nothing and reports nothing |
| Sections.CopyJobsMembers | src/classes/Gantry/Component/Layout/Layout.php:548-549 | the loops of `copyData` visit exactly the old items of every subtype bucket |
| Sections.CopyDataKeepsLeftover | src/classes/Gantry/Component/Layout/Layout.php:560-562 | an id already reported stays reported |
| Summaries.PositionsLookup | src/classes/Gantry/Component/Layout/Layout.php:354-367 | a key is listed exactly when some indexed position sets it, and maps to the title of the last such position |
| Summaries.SectionTitlesLookup | src/classes/Gantry/Component/Layout/Layout.php:374-390 | an id maps to the title of its last off-canvas section, else of its last section |
| Summaries.ChildEntries | src/classes/Gantry/Component/Layout/Layout.php:403-407 | each listed particle is a child that is neither a layout node nor flagged `layout`, and each such child is listed |
| Summaries.ParticlesLookup | src/classes/Gantry/Component/Layout/Layout.php:397-411 | a particle is listed under its subtype and id with the title of the last particle stored there, and nothing else is listed |
| Summaries.FirstAtoms | src/classes/Gantry/Component/Layout/Layout.php:439-442 | the first top-level `atoms` section that has children, or none when there is no such section |
| Summaries.Atoms | src/classes/Gantry/Component/Layout/Layout.php:435-459 | null exactly when no top-level `atoms` section has children |
| Summaries.AtomsOfGridsFrom | src/classes/Gantry/Component/Layout/Layout.php:446-452 | every atom listed is the first child of a block two levels below the atoms section |
| Summaries.AtomsOfBlocksComplete | src/classes/Gantry/Component/Layout/Layout.php:447-451 | the inner loop lists one atom per block with children, and each such block's first child sits at the position counting the blocks with children before it |
| Summaries.AtomsOfGridsComplete | src/classes/Gantry/Component/Layout/Layout.php:446-452 | the first child of every block with children under every grid is listed, in grid-then-block order |
| Summaries.BuildIndex | src/classes/Gantry/Component/Layout/Layout.php:197-209 | the index carries the layout's name, timestamp and preset and the current version 3 |
| Summaries.WithDefaults | src/classes/Gantry/Component/Layout/Layout.php:807-817 | only missing top-level keys are filled with their defaults; present ones are kept |
| Summaries.DefaultsIdempotent | src/classes/Gantry/Component/Layout/Layout.php:807-817 | filling defaults twice is filling once, and a complete stored index is left alone |
| Summaries.LoadedIndexFresh | src/classes/Gantry/Component/Layout/Layout.php:797-801 | the index `loadIndex` returns is never stale; a fresh stored index is returned as it was, with defaults filled |
| Summaries.ChoosePreset | src/classes/Gantry/Component/Layout/Layout.php:154-166 | the given preset when not empty, else the document's, else none; then every missing default key is added and no key of the chosen preset is overwritten |
| Names.SanitizeName | src/classes/Gantry/Component/Layout/Layout.php:223 | same length; only lower-case letters, digits, `_` and `-`; a character becomes `_` exactly when it was `_` or outside letters, digits, `_` and `-`; upper case becomes lower case |
| Names.SanitizeIdempotent | src/classes/Gantry/Component/Layout/Layout.php:223 | a sanitised name is its own sanitised form |
| Names.SanitizeIgnoresCase | src/classes/Gantry/Component/Layout/Layout.php:223 | names that differ only in letter case are saved under the same directory |
| Names.SaveDirectory | src/classes/Gantry/Component/Layout/Layout.php:219-223 | an empty name is refused; any other is saved under its sanitised form |
| Names.PresetScope | src/classes/Gantry/Component/Layout/Layout.php:85 | a preset is a system preset exactly when its name is empty or starts with `_` |
| Names.SlashesAppend | src/classes/Gantry/Component/Layout/Layout.php:86 | the `/` replacement works piece by piece: the replacement of a concatenation is the concatenation of the replacements |
| Names.SlashesChar | src/classes/Gantry/Component/Layout/Layout.php:86 | a single `/` becomes ` / `, and any other character is kept |
| Names.Trim | src/classes/Gantry/Component/Layout/Layout.php:86 | `trim()` neither starts nor ends with a trimmed character and adds no character |
| Names.TrimDropsOnlyBlanks | src/classes/Gantry/Component/Layout/Layout.php:86 | `trim()` is a slice of the string and drops only trimmed characters around it |
| Names.UcWords | src/classes/Gantry/Component/Layout/Layout.php:86 | `ucwords()` upper-cases the first character and each character after a separator, and leaves the rest |
| Names.PresetTitlePlain | src/classes/Gantry/Component/Layout/Layout.php:86 | the title of a name made only of letters, digits and `-` is that name with its first letter upper-cased |
| Names.PresetTitleShape | src/classes/Gantry/Component/Layout/Layout.php:86 | a preset title has no `_` and neither starts nor ends with blank space |
| Names.PresetTitleWords | src/classes/Gantry/Component/Layout/Layout.php:86 | no word of a preset title starts with a lower-case letter |
| Layouts.FlattenFresh | src/classes/Gantry/Component/Layout/Layout.php:147-151 | a loaded document is a valid forest with empty indices that unfolds back to the document |
| Layouts.SavedWithoutAtoms | src/classes/Gantry/Component/Layout/Layout.php:246-255 | the items `save()` stores contain no top-level `atoms` section |
| Layouts.Layout.constructor | src/classes/Gantry/Component/Layout/Layout.php:147-166 | the document's items are loaded and unfold back to it, the layout exists exactly when a document was given, the preset is the chosen one with defaults, and nothing is indexed |
| Layouts.Layout.Init | src/classes/Gantry/Component/Layout/Layout.php:182-190 | on first use the indices are rebuilt and inheritance runs; afterwards nothing changes |
| Layouts.Layout.InitReferences | src/classes/Gantry/Component/Layout/Layout.php:607-614 | the id, type and inherit indices are reset, the block index kept, and the items indexed as the pre-order fold specifies |
| Layouts.Layout.IndexItems | src/classes/Gantry/Component/Layout/Layout.php:616-645 | the recursive pass leaves the arena and the indices exactly as the fold of its loop body over the pre-order visits |
| Layouts.Layout.VisitNode | src/classes/Gantry/Component/Layout/Layout.php:617-639 | one node: block entry, tag, id entry, type entry and inherit entry, as one loop iteration specifies |
| Layouts.Layout.RegisterType | src/classes/Gantry/Component/Layout/Layout.php:632-638 | the node joins its type and subtype bucket, under its id or appended |
| Layouts.Layout.InitInheritance | src/classes/Gantry/Component/Layout/Layout.php:567-600 | the arena and indices after the pass are those of the grouped inheritance jobs folded in order |
| Layouts.Layout.InheritFrom | src/classes/Gantry/Component/Layout/Layout.php:572-597 | the node currently indexed under the id borrows its parts from the source in the outline |
| Layouts.Layout.InheritPart | src/classes/Gantry/Component/Layout/Layout.php:578-596 | one part of the switch, as `ApplyPart` specifies |
| Layouts.Layout.PrepareWidths | src/classes/Gantry/Component/Layout/Layout.php:653-660 | after `init()`, every node with children is balanced |
| Layouts.Layout.CalcWidths | src/classes/Gantry/Component/Layout/Layout.php:668-724 | the arena after the recursion is the post-order balance of the list |
| Layouts.Layout.BalanceAt | src/classes/Gantry/Component/Layout/Layout.php:677-722 | one node's children are filled, tallied and, when asked for, rescaled |
| Layouts.Layout.TallyChildren | src/classes/Gantry/Component/Layout/Layout.php:677-693 | the first loop's arena and tally |
| Layouts.Layout.RescaleChildren | src/classes/Gantry/Component/Layout/Layout.php:704-721 | the second loop's arena and final carry |
| Layouts.Layout.ClearSections | src/classes/Gantry/Component/Layout/Layout.php:487-492 | the top-level items become the survivors of pruning |
| Layouts.Layout.ClearChildren | src/classes/Gantry/Component/Layout/Layout.php:494-507 | the arena and the returned list are those of pruning the list |
| Layouts.Layout.CopySections | src/classes/Gantry/Component/Layout/Layout.php:509-544 | after `init()`, the indices stay as `init()` left them and the arena and leftover are those of copying from the indexed old layout, category by category |
| Layouts.Layout.CopyDataInto | src/classes/Gantry/Component/Layout/Layout.php:546-565 | the arena and leftover after the two loops are the fold of one old item over every old item in order |
| Layouts.Layout.CopyOne | src/classes/Gantry/Component/Layout/Layout.php:549-562 | one old item is copied into its first match or reported |
| Layouts.Layout.FindSection | src/classes/Gantry/Component/Layout/Layout.php:552-558 | the loop finds the first node with an identical id |
| Layouts.Layout.References | src/classes/Gantry/Component/Layout/Layout.php:325-330 | the id index after `init()` |
| Layouts.Layout.ReferencesByType | src/classes/Gantry/Component/Layout/Layout.php:337-347 | the type-index selection after `init()` |
| Layouts.Layout.Find | src/classes/Gantry/Component/Layout/Layout.php:465-474 | after `init()`, the indexed node or a stub |
| Layouts.Layout.Block | src/classes/Gantry/Component/Layout/Layout.php:480-485 | after `init()`, the block holding the id exactly when the block index has it |
| Layouts.Layout.Positions | src/classes/Gantry/Component/Layout/Layout.php:354-367 | the loop's list is the position summary of the indexed layout |
| Layouts.Layout.SectionTitles | src/classes/Gantry/Component/Layout/Layout.php:374-390 | the two loops' list is the section summary of the indexed layout |
| Layouts.Layout.Particles | src/classes/Gantry/Component/Layout/Layout.php:397-412 | the nested loops' list is the particle summary of the indexed layout |
| Layouts.Layout.InheritGroups | src/classes/Gantry/Component/Layout/Layout.php:417-427 | the loop's list is the grouping of the inherit list by outline |
| Layouts.Layout.Atoms | src/classes/Gantry/Component/Layout/Layout.php:435-459 | the loops' result is the atoms summary of the items |
| Layouts.Layout.BuildIndex | src/classes/Gantry/Component/Layout/Layout.php:197-209 | after `init()`, the index built from the layout's summaries |
| Layouts.Layout.Save | src/classes/Gantry/Component/Layout/Layout.php:217-262 | an unnamed layout is refused with nothing changed; otherwise the atoms sections leave the items, the document stored under the sanitised name has no atoms section, the head atoms are saved only when cascading, and the timestamp and existence flag are set |
| Layouts.Layout.WithoutAtomsList | src/classes/Gantry/Component/Layout/Layout.php:246-250 | the loop keeps exactly the items that are not atoms sections |

## Left out

- File access. The model leaves out the preset directory listing and `preset()` lookup, and the file reads and writes of `load`, `loadIndex`, `save` and `saveIndex`. It also leaves out YAML and JSON encoding, locking and cache paths. The pure pieces are modelled: the preset scope and title rule, the staleness test, the default fill, the name sanitiser and the atoms removal. The stored document is returned as a value, and the file's modification time is a parameter.
- `LayoutReader::store`, the YAML file classes and the service locator are not part of this model.
- The static registries `$instances` and `$indexes`, with `instance()` and `index()`, hold process-wide memoisation. Other outlines are a parameter instead: a map of already-indexed snapshots. Recursive outline loading and cycles are not modelled.
- `exists()` is a plain getter of the `present` field and has no member of its own. `getLayoutTypes()` and `isLayoutType()` are the constant `Heap.LayoutTypes` and the predicate `Heap.IsLayoutType`.
- Widths.Size: a string size is read by its leading decimal number after blanks and a sign, as PHP 7 does; the exponent form (`"1e2"`) is read only up to the `e`, and PHP 8's warning or `TypeError` for a string that is not wholly numeric is not modelled.
- Sizes are exact reals. PHP double rounding, float-to-string formatting and the `(string)` casts in the comparison on line 703 are not modelled; the rounded values are compared directly.
- Widths.RescaleBalances: the sum is stated for a multiplier that takes the dynamic sum to `100 - fixedSize`. When the dynamic sum is zero, line 705 divides by 1 instead, and only `RescaleCarry` (any multiplier) covers that case.
- Strings are compared as ASCII. The sanitiser's Unicode letter classes, and `ucwords` and `strtolower` on non-ASCII text, are not modelled.
- Array-key coercion is not modelled. PHP turns the numeric string `"12"` into `12`, and the float `1.0` and `true` into `1`, so `VNum(1.0)`, `VBool(true)` and `VStr("1")` are one key in the list built by `positions()` (line 363) but three keys of `Assoc<Value, string>`. An absent id is the key `""`, as PHP does for `null`.
- `references`, `blocks` and the top level of `types` are Dafny maps, so their PHP insertion order is not kept. `referencesByType()` with no type (lines 341-342) returns `types` whole, in PHP's insertion order, which the model loses; nothing else in the class reads that order.
- PHP shares objects where the model copies values. Children copied by inheritance or by `copySections` are fresh copies in this layout's arena; PHP shares them with the other layout. Writes made to them here (inheritance tags, and the sizes `calcWidths()` sets on line 718) therefore do not reach the other outline's objects, as they do in PHP.
- Nested pruning. In `clearChildren` the recursive result goes to a stray `$this->children` property, and nested lists are filtered only through the by-reference `unset`. They keep their old keys with gaps, which matters to the `isset($block->children[0])` test of `atoms()`. The model stores the surviving children in order without key gaps.
- The stray `$this->children` property written by `clearChildren` is not modelled.
- Layouts.Layout.InheritPart: a `block` part whose node has no owning block changes nothing. PHP 7 warns and writes to a temporary object; PHP 8 raises an error, which is not modelled.
- Items that are not objects are skipped by `initReferences`; the model has only node objects.
- An inheritance source id that is not indexed gives the stub object of `find()`, whose `attributes` PHP reads as `null` (lines 470, 580); the model sets the node's attributes to the empty map instead.
- A `null` attribute is the value `VNull`, and `isset` treats it as absent. PHP's distinction between a missing property and an unset one is otherwise not modelled.
- A `null` type or subtype is the empty string. `inherit.include` is a sequence of part names; other part names do nothing, as in the `switch`.
- A document `preset` entry that is not an array is not modelled: the preset is a map.
- Summaries.LoadIndex: the comparison on line 797 uses loose `!=`; the model compares integers exactly. The rebuilt index is a parameter.
- The `'name'` registry key on line 300 lies inside the registry code and is not modelled.
