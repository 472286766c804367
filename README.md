# drive-cms document preparation, modelled in Dafny

drive-cms turns the HTML export of a Google Docs document into publishable
content plus a `meta` dictionary. This project models the part of that work
with non-trivial logic and proves properties of it:

- **Sibling scanners** (`findPriorSiblingWithContent`,
  `findNextSiblingWithContent`). Given an element, each returns the
  nearest earlier (or later) element sibling with non-empty
  `textContent`, or `null`.
- **`findElementsWithMatcher`**: the elements a selector matches, in
  document order, filtered by a predicate on the element.
- **The metadata table.**
  - `findMetaTable` picks the table that has no content before it or no
    content after it among its siblings. When several tables qualify, it
    picks the last one.
  - `getTableMetadata` turns its rows into a dictionary.
  - `extractTableMetadata` reads that dictionary and removes the table from
    the document.
- **`prepareDocument`** runs these stages on the parsed document, in this
  order, each behind its own option flag:
  1. the four cleaning stages;
  2. the metadata table;
  3. the snippet;
  4. the title.

  It then serialises what is left. Serialisation always runs.

Files:

- `wrappers.dfy` holds `Option`.
- `seqs.dfy` holds the generic filter and last-match functions and their lemmas.
- `dom.dfy` models the document tree and the DOM operations the core uses:
  - `textContent`;
  - `previousElementSibling` and `nextElementSibling`;
  - tree-order queries;
  - `remove()`.
- `utils.dfy` models `src/dom-utils/utils.ts`.
- `table_metadata.dfy` models `src/dom-utils/table-metadata.ts`.
- `drive_cms.dfy` models `prepareDocument` of `src/drive-cms.ts`.

How the model represents the source:

- **The document is a value.** A `Node` is an element (tag and children) or
  a text node. The document is the root `Node`. Every query enumerates the
  root's descendants in tree order.
- **Elements are positions.** An element is identified by its `Path`, the
  child indices from the root.
- **Mutation returns a new tree.** `ExtractTableMetadata` and the stages
  `prepareDocument` calls return the new tree in place of changing a shared
  JSDOM object. `PrepareDocument` threads that tree through a local
  variable, as the source does with its local `dom`, and returns only
  `content` and `meta`.
- **Methods are proved against functions.** Each method `ensures` that its
  result equals a specification function. The source's promises are proved
  as lemmas about those functions.

The model follows the code as written. In particular:

- A sibling counts as having content when its `textContent` is non-empty.
  Text that is only whitespace is therefore content.
- When several tables are first or last among their siblings,
  `findMetaTable` keeps the last of them in document order.
- No check is made that the table has two columns. A row contributes
  when it has at least two `td` cells, and only the first two are read.
- A cell's value is its `textContent`. Images in cells are not read.
- `prepareDocument` removes the metadata table before the snippet and title
  are extracted, so both extractors see the document without it.
- `meta.snippet` and `meta.title` are written after the table's entries.
  So they overwrite a table row with key `snippet` or `title`, not the other
  way round (`DriveCms.MetaAssembly`).
- `src/dom-utils.test.ts` is stale with respect to this code. Its
  thead/metadata-flag expectations and its `ignoreMeta` ⇒ `{}` expectation
  do not hold for the modelled functions:
  - a table without a `thead` still qualifies;
  - `ignoreMeta` alone still yields `snippet` and `title`
    (`DriveCms.IgnoreMetaDetachesNothing`).

## Model

| member | source | states |
|---|---|---|
| Dom.TextContent | src/dom-utils/utils.ts:13 | `textContent` of an element is empty exactly when the `textContent` of every child is empty. A text node's is its own data. |
| Dom.PreviousElementSibling | src/dom-utils/utils.ts:13 | `previousElementSibling`: the nearest earlier sibling that is an element, with only text nodes between. `null` when only text precedes. |
| Dom.NextElementSibling | src/dom-utils/utils.ts:26 | `nextElementSibling`: the nearest later sibling that is an element, with only text nodes between. `null` when only text follows. |
| DomUtils.FindPriorSiblingWithContent | src/dom-utils/utils.ts:9-16 | A `null` start gives `null`. A found sibling is an earlier element whose `textContent` is non-empty, and every element between it and the start is empty. `null` for a real start means every earlier element sibling is empty. |
| DomUtils.FindNextSiblingWithContent | src/dom-utils/utils.ts:22-29 | Mirror image: the nearest later element with non-empty `textContent`. Every element before it is empty. `null` means every later element sibling is empty. |
| DomUtils.PriorIgnoresTextSiblings | src/dom-utils/utils.ts:13-15 | The prior scan steps through `previousElementSibling` only. Two child lists with the same elements at the same positions give the same result, whatever their text nodes say. |
| DomUtils.NextIgnoresTextSiblings | src/dom-utils/utils.ts:26-28 | The same for the next scan and `nextElementSibling`. |
| DomUtils.WhitespaceIsContent | src/dom-utils/utils.ts:13-14 | The content test is truthiness of `textContent`, so a paragraph holding a single space next to the start is returned by both scans. |
| Dom.DescendantPaths | src/dom-utils/utils.ts:37 | The elements `querySelectorAll` walks: every listed position is a descendant element of the document. |
| Dom.DescendantPathsExact | src/dom-utils/utils.ts:37 | The walk lists a position exactly when it is a descendant element. It lists them in strict tree order (preorder), so none twice. |
| Seqs.Filter | src/dom-utils/utils.ts:39 | `Array.prototype.filter`: the result is no longer than the input, holds only accepted input elements, and holds every accepted one. |
| Seqs.FilterIsSubsequence | src/dom-utils/utils.ts:39 | The filter's result is the subsequence of the input at the strictly increasing positions whose element is accepted, and at no other positions. So each accepted element appears once per occurrence, in input order. |
| Seqs.FilterKeepsPairwise | src/dom-utils/utils.ts:39 | Filtering an input in which every earlier element precedes every later one (tree order, say) gives a result with the same property. |
| DomUtils.FindElementsWithMatcher | src/dom-utils/utils.ts:31-40 | Every result is a descendant of the document that the selector and the matcher both accept. Every descendant they both accept is among the results. |
| DomUtils.FindElementsWithMatcherExact | src/dom-utils/utils.ts:31-40 | The result holds a position exactly when it is a descendant element that the selector and the matcher accept, each once, in document (tree) order. That fixes the result completely. |
| Dom.ElementsByTag | src/dom-utils/table-metadata.ts:19 | `querySelectorAll("table")`, `querySelectorAll("tr")`, `getElementsByTagName("td")`: every result is a descendant element with that tag. |
| Dom.ElementsByTagExact | src/dom-utils/table-metadata.ts:19 | A position is listed exactly when it is a descendant element with that tag. The list is in strict tree order, without repeats. |
| TableMetadata.FirstElementMeans | src/dom-utils/table-metadata.ts:21 | `isFirstElement` holds exactly when every earlier element sibling has empty `textContent`. |
| TableMetadata.LastElementMeans | src/dom-utils/table-metadata.ts:22 | `isLastElement` holds exactly when every later element sibling has empty `textContent`. |
| TableMetadata.Tables | src/dom-utils/table-metadata.ts:19 | Every table found is a `table` element other than the document itself, so it has a sibling list to scan. |
| Seqs.LastWhereIsLast | src/dom-utils/table-metadata.ts:18-25 | The overwrite-on-match loop yields `null` exactly when no element qualifies. Otherwise it yields a qualifying element after which none qualifies. |
| TableMetadata.MetaTable | src/dom-utils/table-metadata.ts:17-26 | The chosen table, if any, is a `table` element that is first or last among its siblings. |
| TableMetadata.MetaTableIsLastBoundary | src/dom-utils/table-metadata.ts:17-26 | There is no metadata table exactly when no table of the document is first or last among its siblings (by content). Otherwise it is such a table, and no later table in document order is. |
| TableMetadata.FindMetaTable | src/dom-utils/table-metadata.ts:17-26 | The loop over all tables returns the table `MetaTableIsLastBoundary` characterises. |
| TableMetadata.AddRow | src/dom-utils/table-metadata.ts:35-36 | One `forEach` step adds the first cell as key, with the second as value, when the row has both. It keeps every other entry, and adds nothing for a shorter row. |
| TableMetadata.RowsToMetadataKeys | src/dom-utils/table-metadata.ts:28-39 | The keys of `RowsToMetadata` are exactly the first-cell texts of the rows that have at least two `td` cells. |
| TableMetadata.RowsToMetadataLastWins | src/dom-utils/table-metadata.ts:36 | A key given by several rows takes the value of the last of them. |
| TableMetadata.ShortRowAddsNothing | src/dom-utils/table-metadata.ts:35 | A row with fewer than two cells (a missing key or value) can be removed from any position without changing the dictionary. |
| TableMetadata.ExtraCellsIgnored | src/dom-utils/table-metadata.ts:32-34 | Only the first two cells of a row are read. Cutting every row to two cells gives the same dictionary. |
| TableMetadata.HeaderRowAddsNothing | src/dom-utils/table-metadata.ts:32-35 | A row with no `td` below it (a `th` header row) yields no cells and adds nothing. |
| TableMetadata.GetTableMetadata | src/dom-utils/table-metadata.ts:28-39 | The `forEach` over the `tr` elements, starting from `{}`, builds the dictionary of the row fold these lemmas characterise. |
| Dom.RemoveAt | src/dom-utils/table-metadata.ts:57 | `remove()`: the root keeps its tag. It loses one child when the removed node is its own child, and keeps its child count otherwise. |
| Dom.RemoveAtParent | src/dom-utils/table-metadata.ts:57 | The parent's children become their old sequence without the removed index. |
| Dom.RemoveAtAncestors | src/dom-utils/table-metadata.ts:57 | Every ancestor of the parent keeps its tag and its number of children. |
| Dom.RemoveAtElsewhere | src/dom-utils/table-metadata.ts:57 | Every node that is neither an ancestor of the parent nor inside it is unchanged. |
| Dom.RemoveAtDetachesOnly | src/dom-utils/table-metadata.ts:57 | Together: `remove()` detaches that node and changes nothing else. |
| TableMetadata.ExtractTableMetadata | src/dom-utils/table-metadata.ts:50-59 | It returns `ExtractedTableMetadata`. With no metadata table, that is `{}` and the document unchanged. Otherwise it is the table's dictionary, read before removal, and the document with that table removed. |
| TableMetadata.ExtractionDetachesOnlyTheTable | src/dom-utils/table-metadata.ts:53-57 | No table leaves the tree as it was. Otherwise the removed node is a boundary `table`, and its parent loses exactly that child. Its ancestors keep their tags and child counts, and every node off the path to the parent is unchanged. |
| DriveCms.Cleaned | src/drive-cms.ts:168-172 | Parsing, then the four cleaning stages in order, each skipped by its flag. With all four `keep*` flags set, the tree is the parsed one. |
| DriveCms.TableStage | src/drive-cms.ts:173 | `meta` starts as `{}` (line 167). Unless `ignoreMeta` is set, it becomes the metadata table's dictionary, and the tree loses that table. With `ignoreMeta`, or with no table, the tree is unchanged. |
| DriveCms.SnippetStage | src/drive-cms.ts:174 | Unless `ignoreSnippet` is set, `snippet` is added or overwritten with the extractor's result and no other key changes. When skipped, the tree is left alone. |
| DriveCms.TitleStage | src/drive-cms.ts:175 | The same for `title` and `ignoreTitle`. |
| DriveCms.Prepare | src/drive-cms.ts:154-179 | `meta` holds `snippet` unless `ignoreSnippet` and `title` unless `ignoreTitle`. With `ignoreMeta`, `ignoreSnippet` and `ignoreTitle` all set, it is `{}`. |
| DriveCms.PrepareDocument | src/drive-cms.ts:154-179 | The method threads one tree through the enabled stages in the source's order. The content it returns and its `meta` are those of `Prepare`. |
| DriveCms.DefaultsRunEveryStage | src/drive-cms.ts:156-176 | `{}` gives every flag `false` and `snippetLength` 200. With it every stage runs, in order: styles, empty spans, link hrefs, image referrer, table, snippet, title, then serialisation. |
| DriveCms.KeepStylesSkipsStyleStage | src/drive-cms.ts:169 | `keepStyles` is the same as a no-op style stage. Nothing else changes. |
| DriveCms.KeepEmptyTextSkipsSpanStage | src/drive-cms.ts:170 | `keepEmptyText` is the same as a no-op empty-span stage. |
| DriveCms.KeepGoogleLinksSkipsHrefStage | src/drive-cms.ts:171 | `keepGoogleLinks` is the same as a no-op link stage. |
| DriveCms.KeepReferrerSkipsReferrerStage | src/drive-cms.ts:172 | `keepReferrer` is the same as a no-op referrer stage. |
| DriveCms.IgnoreSnippetSkipsSnippetStage | src/drive-cms.ts:174 | `ignoreSnippet` gives the same `content`, and the same `meta` apart from `snippet`, as an extractor that leaves the tree alone. `snippet` then holds only what the table gave it. |
| DriveCms.IgnoreTitleSkipsTitleStage | src/drive-cms.ts:175 | The same for `ignoreTitle` and `title`. |
| DriveCms.MetaAssembly | src/drive-cms.ts:167-175 | The keys of `meta` are the table's keys, plus `snippet` unless `ignoreSnippet` and `title` unless `ignoreTitle`. Those two hold the extractors' results and overwrite table rows of the same key. Every other key keeps the table's value. |
| DriveCms.IgnoreMetaDetachesNothing | src/drive-cms.ts:173 | With `ignoreMeta` no table is read or removed, so the snippet stage sees the cleaned tree. `meta` has exactly the keys `snippet` and `title` of the extractors that ran. |
| DriveCms.ContentAfterStages | src/drive-cms.ts:173-176 | For every extractor: the tree handed to the snippet stage is the cleaned tree, minus the metadata table when one is extracted. `content` is the serialisation of what the enabled snippet and title extractors make of that tree. |
| DriveCms.ContentOmitsMetaTable | src/drive-cms.ts:173-176 | A corollary: when the snippet and title extractors leave the tree as they find it, the serialised tree is the cleaned tree, minus the metadata table when one was extracted. |

`CellTexts`, `RowCells` and `RowsToMetadata` are specified by the lemmas
about them (`HeaderRowAddsNothing`, `RowsToMetadataKeys`,
`RowsToMetadataLastWins`, `ShortRowAddsNothing`, `ExtraCellsIgnored`), and
by `ElementsByTagExact` for which `tr` and `td` elements they read.
`TableMetadataOf`, the dictionary `GetTableMetadata` builds, is
`RowsToMetadata` of `RowCells`, so the same lemmas specify it.
`RowCellsAt` only unfolds `RowCells` at one index for the loop of
`GetTableMetadata`.
`IsFirstElement` and `IsLastElement` are specified by `FirstElementMeans`
and `LastElementMeans`. `ExtractedTableMetadata` is pinned down by the
contract of `ExtractTableMetadata`. The defaults of
`DriveCms.DocumentOptions` are stated by `DefaultsRunEveryStage`.

## Left out

- The `DriveCMS` class is not part of this model: the Google Drive client, authentication, file listing and export. It is I/O.
- `toBase64` (src/dom-utils/utils.ts:42-46) fetches over the network and is not modelled.
- The `dom-utils` index module that src/drive-cms.ts imports is not part of this model. The model assumes that the `extractTableMetadata` which `prepareDocument` calls is the one in src/dom-utils/table-metadata.ts.
- The other stages `prepareDocument` calls are parameters of the model (`DriveCms.Stages`), because their code is not part of this model:
  - parsing (`new JSDOM`);
  - `removeDocumentStyles`, `removeEmptySpans`, `replaceGoogleHrefs` and `removeImageReferrer`;
  - `extractSnippet` and `extractTitle`, which may change the tree;
  - `extractDocumentHtml`.

  Every result about `prepareDocument` holds whatever they do, except `ContentOmitsMetaTable`. That lemma assumes the two extractors leave the tree unchanged.
- Attributes, comments and node kinds other than elements and text are not represented. The modelled DOM code never reads them.
- DomUtils.FindElementsWithMatcher: the CSS selector string is not parsed. The selector and the matcher are given as tests on the positions of the document, so the matcher may look at anything around the element, but not at attributes the tree does not hold.
- Element identity is a position in the tree, not an object reference. The aliasing of a JSDOM node held elsewhere after `remove()` is not modelled.
- HTML tag names are compared as given, with no case folding. Trees are assumed to carry the lower-case names the HTML parser produces.
- `meta` is a map. JavaScript key order and the `__proto__` key's special assignment are not modelled.
- DocumentOptions.snippetLength is an integer, where the source takes any JavaScript number.
- A `matcher` or selector that throws or has side effects is not modelled. Matchers are total functions.
