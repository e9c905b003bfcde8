# metalsmith-autotoc table-of-contents builder, in Dafny

This project models the core of the metalsmith-autotoc plugin (`index.js`). The plugin finds the heading elements of an HTML document and gives each heading without an `id` one derived from its inner markup. It then builds a table-of-contents forest whose nesting follows the heading levels.

The modelled parts:

- the `TocItem` node and its `add` operation (class `TocItems.TocItem`);
- the default `slug` option and identifier assignment over the matched headings (`Headings`);
- the mapping of a heading to a record: tag stripping with `/<[^>]*>/g` and level parsing with `/^h([123456])$/i` (`Headings`);
- `getRootLevel` (`Headings.RootLevel`);
- `buildTocItems` (`Builder.BuildTocItems`), proved equal to a reference definition (`TocTree.Forest`).

`Forest` inserts each heading, in order, on the rightmost path of the forest at depth `level - rootLevel`. It creates placeholder entries where that path stops short. Everything promised about the tree is proved about `Forest`:

- depth and document order;
- one entry per heading;
- the placeholders a level jump adds;
- siblings for equal levels;
- failure exactly when a level-1 heading is present.

Files:

- `wrappers.dfy`: `Option` and `Result`.
- `headings.dfy`: module `Headings`, covering elements, records, slugging, stripping, level parsing and the root level.
- `toc_tree.dfy`: module `TocTree`, covering the `TocNode` value, `Insert`, `Forest` and the lemmas about them.
- `builder.dfy`: module `Builder`, covering the imperative builder, the whole-build lemmas and worked examples.
- `toc_item.dfy`: module `TocItems`, covering the `TocItem` class.

Level-1 headings: `getRootLevel` falls back to 1 when the shallowest level is 1. The `|| 1` fallback reads as if level-1 headings were meant to become top-level entries. As written, though, the first level-1 heading makes the cursor climb from the root to its `null` parent (index.js:97), and the next use of the cursor throws. The model follows the code. `Builder.BuildTocItems` returns `Failure(AscendPastRoot)`, and `TocTree.ForestFailsIffLevelOne` and `Builder.ExampleLevelOne` state it. The default selector matches only h2 to h6, so only a custom selector reaches this case.

## Model

| member | source | states |
|---|---|---|
| TocItems.TocItem.constructor | index.js:18-25 | an absent id or text becomes '', dataHref is kept as given, no children, no parent |
| TocItems.TocItem.Add | index.js:29-35 | a node with a parent is refused and nothing changes; otherwise its parent becomes the receiver, it is appended as last child, earlier children unchanged |
| TocItems.AddTwice | index.js:30-33 | after a successful add, adding the same node again (to any node) is refused: a node is attached at most once |
| Headings.DefaultSlug | index.js:57-62 | a non-empty existing id is returned unchanged; otherwise headerIdPrefix + slug(raw inner markup) |
| Headings.DefaultSlugIdempotent | index.js:57-62 | applying the default policy to its own result returns that result |
| Headings.AssignIdentifiers | index.js:143-148 | one header per element, in order; id becomes slugFn(innerHTML, id); tag, markup and data-href carried over |
| Headings.AssignDefaultIds | index.js:144-146 | under the default policy existing ids are kept, missing ones are prefix + slug(raw markup), and data-href never influences the id |
| Headings.AssignDefaultIdsIdempotent | index.js:143-148 | assigning ids twice with the default policy equals assigning once |
| Headings.StripTags | index.js:81 | result no longer than the input, made only of input characters, and contains no `<` followed later by `>` |
| Headings.StripTagsPlainPrefix | index.js:81 | text without `<` is kept as is and the rest is stripped independently |
| Headings.StripTagsRemovesTag | index.js:81 | `<t>` with no `>` inside t is removed entirely |
| Headings.StripTagsUnclosed | index.js:81 | a `<` with no later `>` is kept with everything after it |
| Headings.StripTagsNoTagFixed | index.js:81 | text the pattern cannot match is unchanged |
| Headings.StripTagsIdempotent | index.js:81 | stripping twice equals stripping once |
| Headings.ParseLevel | index.js:83 | a tag name that parses is the two-character h or H tag of the level it yields; with ParseLevelRoundTrip, exactly h1..h6 and H1..H6 parse |
| Headings.ParseLevelRoundTrip | index.js:83 | h1..h6 and H1..H6 parse to their digit |
| Headings.ParseLevelOnlyHeadingTags | index.js:83 | only those tag names parse; every other one yields no level |
| Headings.ToRecord | index.js:79-84 | record has the element's id and data-href, stripped text and parsed level; a tag name that does not parse is a BadTagName failure |
| Headings.ToRecords | index.js:78-85 | all elements map in order to their records, or the first element whose tag fails gives the failure |
| Headings.ToRecordsAll | index.js:78-85 | when every element maps to its record, the mapping yields exactly those records |
| Headings.MinLevel | index.js:65-67 | the smallest level: it occurs in the list and no level is smaller |
| Headings.RootLevel | index.js:64-68 | 1 when a level-1 heading is present (and for no headings); otherwise one less than the shallowest level, so every level is deeper and some level is exactly one deeper |
| TocTree.Insert | index.js:107-113 | the forest is non-empty after an entry is attached |
| TocTree.InsertUnderLast | index.js:99-113 | below the top level an entry goes into the forest's last node, whose children receive it one level shallower; the other nodes are untouched |
| TocTree.WalkInsert | index.js:107-115 | inserting a heading appends exactly its visit, at the inserted depth, to the pre-order walk |
| TocTree.PlaceholdersInsert | index.js:99-104 | inserting deeper than the rightmost path adds exactly the missing depths as placeholders, else none |
| TocTree.SpineInsert | index.js:95-115 | after insertion the rightmost path has the inserted depth and ends in the new entry; the positions below the old path are placeholders |
| TocTree.SiblingsInsert | index.js:95-98 | inserting at a depth the path reaches appends to that depth's children list and keeps its earlier entries |
| TocTree.SiblingsEndOnSpine | index.js:95-98 | the children list at a depth on the path ends in the path's node there |
| TocTree.Forest | index.js:89-116 | the reference build; its own contract states that a failed build fails with AscendPastRoot, and the lemmas below state what a successful one builds |
| TocTree.ForestStep | index.js:89-116 | one more heading is inserted at depth level - rootLevel, or the build fails with AscendPastRoot |
| TocTree.ForestSnoc | index.js:89-116 | the same step, stated for a heading appended to a list that builds |
| TocTree.ForestFailurePersists | index.js:97 | once a prefix fails, the whole build fails the same way |
| TocTree.ForestFailsIff | index.js:95-97 | the build fails exactly when some heading is not below the root level, and the failure is AscendPastRoot |
| TocTree.ForestFailsIffLevelOne | index.js:64-68 | with the computed root level, the build fails exactly when a level-1 heading is present |
| TocTree.ForestWalk | index.js:89-116 | pre-order walk without placeholders lists each heading once, in input order, with its id, text, dataHref and depth level - rootLevel |
| TocTree.ForestSpine | index.js:114-115 | after a build the cursor's path has depth lastLevel - rootLevel and ends in the last heading's entry |
| TocTree.PlaceholdersForJump | index.js:99-104 | a jump of k > 1 levels adds exactly k - 1 placeholders, chained on the path, with the heading under the deepest; each has id '', text '' and no dataHref |
| TocTree.SameLevelSiblings | index.js:95-98 | consecutive headings at one level become siblings: the second is appended right after the first, in the same children list |
| Builder.Close | index.js:118 | closing the open path keeps the root node's own fields |
| Builder.Ascend | index.js:97-98 | climbing shortens the path by one |
| Builder.AscendKeepsTree | index.js:96-98 | climbing does not change the tree that the path denotes |
| Builder.AttachIsInsert | index.js:113-114 | attaching at the cursor equals inserting at the cursor's depth + 1 |
| Builder.DescendIsInsert | index.js:100-103 | pushing a placeholder under a childless cursor leaves any deeper insertion unchanged |
| Builder.TocFor | index.js:70-118 | no headings give an empty forest; a failure is either AscendPastRoot or BadTagName of some element's tag name |
| Builder.BuildTocItems | index.js:70-86 | the result equals TocFor: empty input gives an empty forest; otherwise the parse failure, or Forest(records, RootLevel(records)) |
| Builder.BuildFromRecords | index.js:87-118 | walking the records with the cursor and returning the root's children yields Forest(records, rootLevel), including its AscendPastRoot failure |
| Builder.TocForFailsIff | index.js:78-113 | a build fails exactly when some tag name is not h1..h6 or some heading is level 1 |
| Builder.TocForWalk | index.js:78-118 | a successful build lists every heading once, in order, with its id, stripped text, data-href and depth level - rootLevel |
| Builder.ExampleSiblings | index.js:89-116 | levels 2,3,3,2 with texts A,B,C,D give [A[B, C], D] |
| Builder.ExampleGap | index.js:99-104 | levels 2,4 give A holding one placeholder that holds B |
| Builder.ExampleLevelOne | index.js:64-68 | two level-1 headings make the build fail, not give two siblings |

## Left out

- The parsing of the document (jsdom), heading selection with `querySelectorAll`, re-serialisation of the body and the `Buffer` conversion (index.js:132-150). Headings come in as `Element` values with tag name, inner markup, id and data-href.
- Path filtering with `minimatch` (index.js:127-131), which is a foreign glob library.
- The `async.each` iteration and its completion callbacks (index.js:126-158). This is orchestration across documents.
- The slug module `./slug`, which is not part of this model. The default policy takes it as a parameter `slug: string -> string`. A custom `options.slug` is a parameter `slugFn` of `AssignIdentifiers`.
- `toJSON` (index.js:37-44). The `TocNode` datatype is the serialised shape (id, text, dataHref, children, with no parent). The model does not show one difference: `JSON.stringify` omits a placeholder's `undefined` dataHref, but writes `null` for a heading without `data-href`.
- The lexicographic `.sort()` inside `getRootLevel`. For levels 1 to 6 it orders the same way as numbers, so it is modelled as a minimum.
- Builder.BuildTocItems: builds on values, not on `TocItem` objects. The cursor's ancestry is an explicit path of open nodes, and the cursor climbs by closing the top node into its parent instead of following `parent`. The model therefore does not capture the in-place growth of shared objects. It also does not capture the `parent` pointers of the returned entries, which in the source still lead to the discarded synthetic root. `TocItem.add` itself is modelled on the class.
- Placeholders are a separate constructor (`Placeholder`), so that lemmas can skip them. In the source a placeholder is an ordinary `TocItem` with id '', text '' and no dataHref, and cannot be told apart from a real heading that has the same empty fields. `TocNode.Id`, `Text` and `DataHref` give those same values, as `TocTree.PlaceholdersForJump` states.
- TocTree.Forest: its own contract states only the kind of failure. What it builds is stated by `ForestWalk`, `ForestSpine`, `ForestFailsIff`, `PlaceholdersForJump` and `SameLevelSiblings`.
- TocTree.Insert: its own contract states only that the result is non-empty. What it does is stated by `WalkInsert`, `SpineInsert`, `SiblingsInsert` and `PlaceholdersInsert`.
