# Virtual document and notebook mapper of jupyterlab-lsp, in Dafny

This project models the two places where jupyterlab-lsp translates line
numbers between a notebook's many cells and one flat "virtual" document that
a language server sees, and proves what those translations promise.

- `VirtualDocument` (`packages/jupyterlab-lsp/src/virtual/document.ts`) is
  modelled in module `VirtualDocuments`. Appending a cell records one virtual
  line per transformed line, then the blank separator lines. It also records
  one source line per original line of the cell, with its editor shift. Cell
  and line magics are masked on the way in and unmasked by
  `decodeCodeBlock`. Foreign documents (embedded languages) are chosen,
  reused from a pool, or opened. `closeExpiredDocuments` ages out the unused
  ones. The class keeps the source's fields: `virtualLines` and `sourceLines`
  as maps, `lineBlocks` as a sequence, `lastVirtualLine`/`lastSourceLine` as
  counters, and `foreignDocuments` as a map. Because the source iterates that
  JavaScript Map in insertion order, the model also keeps the order as
  `foreignOrder`. Its methods update these fields in loops, as the source
  does. Foreign documents are a class `ForeignDocument`, whose
  `remainingLifetime` and disposed flag are updated in place.
- `NotebookAsSingleEditor` (`src/notebook_mapper.ts`) is modelled in module
  `NotebookMapper`. `getValue` clears and refills `line_cell_map`,
  `cell_line_map` and `cm_editor_to_ieditor`, and returns the flat text.
  `get_editor_at` and `transform` look a flat line up, and the line shift of
  `coordsChar` maps back. `GetValue` is proved against two specification
  folds over the cells: `FlatText`, for the text, and `Compose`, for the
  maps and the running `last_line`. The lemmas are stated about those folds.
- `Lines` models JavaScript's `split('\n')` and `join('\n')`, with the
  round trips between them. `Overrides` models the reversible overrides map
  abstractly: each direction is given by functions for what its rules
  compute. `Wrappers` holds `Option` and `Result`.

Failures that the source signals by throwing, or by reading a field of
`undefined`, become `Err` results. Nothing in the model is bounded: line
numbers are `nat`/`int`, and lifetimes are `int`.

## Model

| member | source | states |
|---|---|---|
| Lines.NewlineIndex | packages/jupyterlab-lsp/src/virtual/document.ts:50 | the index returned lies within the text, and there is a newline at it unless it is the text's end |
| Lines.NewlineIndexFirst | packages/jupyterlab-lsp/src/virtual/document.ts:50 | no newline comes before that index |
| Lines.Split | packages/jupyterlab-lsp/src/virtual/document.ts:99 | `split('\n')` always yields at least one piece, even for the empty string |
| Lines.SplitNoNewline | packages/jupyterlab-lsp/src/virtual/document.ts:99 | no piece of a split holds a newline |
| Lines.NewlineIndexAt | packages/jupyterlab-lsp/src/virtual/document.ts:50 | the first newline is exactly where the non-newline characters stop |
| Lines.SplitSingle | packages/jupyterlab-lsp/src/virtual/document.ts:75 | text without a newline splits into itself alone |
| Lines.SplitConcat | src/notebook_mapper.ts:256-257 | splitting `a + '\n' + b` gives the lines of `a` followed by those of `b` |
| Lines.SplitAfterLineEnd | src/notebook_mapper.ts:256-257 | text that is empty or ends in a newline contributes its complete lines, and what follows starts a fresh line |
| Lines.JoinSplit | packages/jupyterlab-lsp/src/virtual/document.ts:49-52 | `split('\n').join('\n')` gives back the text, for every text |
| Lines.SplitJoin | packages/jupyterlab-lsp/src/virtual/document.ts:52 | splitting the join of newline-free lines gives back the lines |
| Lines.Join | packages/jupyterlab-lsp/src/virtual/document.ts:52 | `join('\n')`: the pieces with a newline between each two; `JoinSplit` and `SplitJoin` prove it the inverse of `Split` |
| Overrides.ReplaceAll | packages/jupyterlab-lsp/src/virtual/document.ts:79-81 | `replaceAll` keeps the line count, rewrites each line on its own, and flags exactly the lines on which a rule fired |
| Overrides.ReverseReplaceAll | packages/jupyterlab-lsp/src/virtual/document.ts:49-51 | `reverseReplaceAll`: the backward line rules applied to each line on its own; `DecodeInvertsPrepare` and `DecodePreservesLineCount` state what decoding gets from it |
| Overrides.NoOverrides | packages/jupyterlab-lsp/src/virtual/document.ts:31-36 | the map of a language with no registered overrides: no rule matches, in either direction |
| VirtualDocuments.VirtualDocument.constructor | packages/jupyterlab-lsp/src/virtual/document.ts:25-40 | the cell and line overrides are those registered for the document's language, or empty when it has none; all maps and counters start empty |
| VirtualDocuments.PrepareCodeBlock | packages/jupyterlab-lsp/src/virtual/document.ts:59-85 | a matching cell override replaces the whole cell and marks every line with `[idPath]`; otherwise each line is masked on its own and marked with `[idPath]` exactly when its override fired; there is one skip entry per line, and the foreign-documents map is passed through |
| VirtualDocuments.SkipWhere | packages/jupyterlab-lsp/src/virtual/document.ts:73-81 | the skip list has one entry per flag: `[idPath]` where the flag is set, `[]` elsewhere |
| VirtualDocuments.DecodeCodeBlock | packages/jupyterlab-lsp/src/virtual/document.ts:43-54 | the reverse cell override when one matches the raw code, otherwise the raw lines unmasked one by one by the reverse line overrides and joined; `DecodeInvertsPrepare` and `DecodePreservesLineCount` state what it promises |
| VirtualDocuments.DecodeInvertsPrepare | packages/jupyterlab-lsp/src/virtual/document.ts:43-54 | decoding the joined prepared lines gives back the kept cell code: through the reverse cell override when a cell override applied, otherwise through the reverse line overrides, when the rules invert each other |
| VirtualDocuments.DecodePreservesLineCount | packages/jupyterlab-lsp/src/virtual/document.ts:49-52 | when no reverse cell override matches, decoding keeps the number of lines, provided that the reverse line rules produce no newline |
| VirtualDocuments.SourceShift | packages/jupyterlab-lsp/src/virtual/document.ts:116-119 | a recorded shift plus the virtual shift (0 when absent) is the editor shift; the column shift is nonzero only on line 0 |
| VirtualDocuments.VirtualDocument.AppendCodeBlock | packages/jupyterlab-lsp/src/virtual/document.ts:87-146 | on a disposed document nothing changes; otherwise the earlier records are kept, and transformed line i is virtual line `lastVirtualLine+i` with its skip path, its editor and source line `lastSourceLine+i`; then come `blankLinesBetweenCells` separator lines (no source line, skip `[idPath]`); original line i is source line `lastSourceLine+i` with editor line i, its shift, the cell's foreign documents and virtual line `lastVirtualLine+i`; the counters advance by `|lines|+blank` and by `|sourceLines|`, and one block (lines joined, plus a newline) is pushed |
| VirtualDocuments.VirtualDocument.RecordLines | packages/jupyterlab-lsp/src/virtual/document.ts:105-145 | the three loops of append write exactly the transformed-line, separator-line and source-line records above, keep everything before them, and keep the line maps contiguous from 0 |
| VirtualDocuments.WithTransformedLines | packages/jupyterlab-lsp/src/virtual/document.ts:105-112 | the first loop adds one virtual-line record per transformed line and keeps the earlier ones |
| VirtualDocuments.WithSourceLines | packages/jupyterlab-lsp/src/virtual/document.ts:113-126 | the second loop adds one source-line record per original line and keeps the earlier ones |
| VirtualDocuments.WithSeparatorLines | packages/jupyterlab-lsp/src/virtual/document.ts:136-142 | the separator loop adds `blankLinesBetweenCells` records with no source line, skipped by the document's inspections |
| VirtualDocuments.VirtualDocument.GetForeignDocuments | packages/jupyterlab-lsp/src/virtual/document.ts:200-208 | a map is returned exactly when some source line of the given editor carries it, and no map is returned twice |
| VirtualDocuments.VirtualDocument.OpenForeign | packages/jupyterlab-lsp/src/virtual/document.ts:234-238 | a fresh, live document of the given language, kind and file extension, with the configured lifetime, is registered under the new id (for a shared document, its language), and the id joins the end of the registration order if it is new; nothing else changes |
| VirtualDocuments.VirtualDocument.ChooseForeignDocument | packages/jupyterlab-lsp/src/virtual/document.ts:213-242 | for a non-standalone language that has a document, that document is returned and nothing changes; for a standalone language with a non-empty pool, the last pooled document is popped and removed from the unused set; otherwise a new document is opened and registered, at the end of the registration order when its id is new; a shared document is always left registered under its language |
| VirtualDocuments.VirtualDocument.ChooseSharedTwice | packages/jupyterlab-lsp/src/virtual/document.ts:217-220 | two requests in a row for one shared (non-standalone) language return the same document, the one registered under that language |
| VirtualDocuments.VirtualDocument.ChooseStandaloneTwice | packages/jupyterlab-lsp/src/virtual/document.ts:221-239 | two requests in a row for one standalone language return two different documents: with a pool that holds no document twice, the first takes the last pooled document and the second the one before it, where the pool holds them; a request that finds the pool empty gets a new document, so the two never coincide |
| VirtualDocuments.VirtualDocument.StandalonePool | packages/jupyterlab-lsp/src/virtual/document.ts:223-225 | the pool of reusable standalone documents of a language, empty for a language that has none; the pop of `ChooseForeignDocument` is stated on it |
| VirtualDocuments.VirtualDocument.CollectUsedDocuments | packages/jupyterlab-lsp/src/virtual/document.ts:153-158 | the set built is exactly the foreign documents that some source line refers to |
| VirtualDocuments.VirtualDocument.CollectDocumentIds | packages/jupyterlab-lsp/src/virtual/document.ts:160-169 | the id lists built while walking the registry in order are `RecordedIds`: each visit overwrites the list with the current id |
| VirtualDocuments.UsedDocuments | packages/jupyterlab-lsp/src/virtual/document.ts:153-158 | the documents referred to by the foreign-documents map of some source line; `CollectUsedDocuments` is proved to compute it |
| VirtualDocuments.RecordedIds | packages/jupyterlab-lsp/src/virtual/document.ts:160-169 | the id lists as the walk over the registry leaves them, each visit overwriting its document's list; `RecordedIdsAreLastIds` and `RecordedIdsMatchLastIds` state what it holds |
| VirtualDocuments.RecordedIdsAreLastIds | packages/jupyterlab-lsp/src/virtual/document.ts:164-168 | every registered document gets a list, each list holds a single id, and that id is the last one under which the document is registered |
| VirtualDocuments.EarlierIdSurvivesExpiry | packages/jupyterlab-lsp/src/virtual/document.ts:160-182 | a document registered under two ids does not have the earlier id in its list, so the sweep that deletes the last id keeps the earlier one; a later sweep that finds the document unused again deletes it |
| VirtualDocuments.RecordedIdsMatchLastIds | packages/jupyterlab-lsp/src/virtual/document.ts:160-170 | the documents with a list are exactly the registered documents, and an id is the recorded one of its document exactly when it is that document's last id |
| VirtualDocuments.LastIdUnique | packages/jupyterlab-lsp/src/virtual/document.ts:164-168 | a document has one last id |
| VirtualDocuments.VirtualDocument.CloseExpiredDocuments | packages/jupyterlab-lsp/src/virtual/document.ts:151-185 | a registered document that some source line refers to keeps its lifetime and its disposed flag; every other one loses exactly 1 and is disposed once at 0 or below; an id is deleted exactly when it is the last id of an unused document whose lifetime was at most 1; the remaining ids keep their documents and their order |
| VirtualDocuments.VirtualDocument.ExpireUnusedDocuments | packages/jupyterlab-lsp/src/virtual/document.ts:160-184 | the same outcome, for the used set that the first pass found |
| VirtualDocuments.VirtualDocument.ExpireDocuments | packages/jupyterlab-lsp/src/virtual/document.ts:175-184 | each unused document loses one unit of lifetime and is disposed at 0 or below; the ids deleted are exactly the listed ids of the documents that expired |
| VirtualDocuments.VirtualDocument.ExpireOne | packages/jupyterlab-lsp/src/virtual/document.ts:176-183 | one document loses one unit of lifetime; at 0 or below it is disposed and its listed id is deleted, otherwise the registry is untouched |
| VirtualDocuments.VirtualDocument.DeleteIds | packages/jupyterlab-lsp/src/virtual/document.ts:180-182 | exactly the listed ids leave the registry; the other ids keep their documents and their order |
| VirtualDocuments.ForeignDocument.Dispose | packages/jupyterlab-lsp/src/virtual/document.ts:178 | disposing sets the disposed flag and leaves the lifetime alone |
| VirtualDocuments.ForeignDocument.constructor | packages/jupyterlab-lsp/src/virtual/document.ts:234-238 | a new foreign document has the language, kind, file extension and lifetime it is opened with, and is not disposed |
| VirtualDocuments.Without | packages/jupyterlab-lsp/src/virtual/document.ts:181 | deleting keys from a JavaScript Map keeps exactly the keys not deleted |
| VirtualDocuments.WithoutKeepsOrder | packages/jupyterlab-lsp/src/virtual/document.ts:181 | the keys that remain keep their order: the result is a subsequence of the original order |
| VirtualDocuments.WithoutKeepsDistinct | packages/jupyterlab-lsp/src/virtual/document.ts:181 | deleting keys keeps the remaining keys distinct |
| VirtualDocuments.WithoutMore | packages/jupyterlab-lsp/src/virtual/document.ts:180-182 | deleting one more id after some have been deleted is the same as deleting them all at once |
| NotebookMapper.NotebookAsSingleEditor.GetValue | src/notebook_mapper.ts:237-272 | the three maps are cleared and rebuilt from the current cells alone: the returned text is `FlatText(cells)`, and the maps are those of `Compose(cells)` |
| NotebookMapper.NotebookAsSingleEditor.MapCellLines | src/notebook_mapper.ts:259-264 | the inner loop maps the `n` lines from `last_line` on to `{editor, line_shift: last_line}`, and adds nothing else |
| NotebookMapper.NotebookAsSingleEditor.constructor | src/notebook_mapper.ts:52-58 | the three maps start empty |
| NotebookMapper.Included | src/notebook_mapper.ts:249-254 | a cell takes part in the flat text exactly when it is a code cell whose text does not start with `%%` |
| NotebookMapper.StartsWith | src/notebook_mapper.ts:253 | `startsWith(prefix)`: the text begins with the prefix; `Included` uses it for the `%%` check |
| NotebookMapper.CellText | src/notebook_mapper.ts:256 | what a cell adds to the value: its text and `'\n' + '\n\n'` when included, nothing otherwise; `CellValue` and `ValueShape` state it |
| NotebookMapper.FlatText | src/notebook_mapper.ts:238-271 | the value `getValue` accumulates over the cells in order; `GetValue` is proved to return it |
| NotebookMapper.Step | src/notebook_mapper.ts:244-266 | what one cell does to the maps and `last_line`; the lemmas about `Compose` state its effect |
| NotebookMapper.Compose | src/notebook_mapper.ts:238-271 | the maps and `last_line` that `getValue` builds from cleared maps; `GetValue` is proved to leave them, and `CellLinesMapped`, `CellShiftRecorded` and `EditorsRegistered` state their content |
| NotebookMapper.CellLines | src/notebook_mapper.ts:259-264 | the lines mapped are exactly `start .. start+n-1`, and each maps to the same `ICellTransform` |
| NotebookMapper.IncludedCells | src/notebook_mapper.ts:249-254 | every cell kept is a code cell that does not start with `%%`, and the kept cells are at most the cells given |
| NotebookMapper.OnlyIncludedCellsCount | src/notebook_mapper.ts:247-254 | a cell that is not code, or starts with `%%`, adds nothing but its editor-registry entry: the text and the line maps are those of the included cells alone |
| NotebookMapper.EditorsRegistered | src/notebook_mapper.ts:247 | every cell, included or not, registers its CodeMirror editor, and with distinct editors each maps to its own wrapper |
| NotebookMapper.FlatTextAppend | src/notebook_mapper.ts:256 | the flat text of two runs of cells is the text of the first followed by the text of the second |
| NotebookMapper.CellValue | src/notebook_mapper.ts:256 | an included cell contributes its text followed by `'\n' + '\n\n'`, between the text of the cells before it and that of the cells after it |
| NotebookMapper.ValueShape | src/notebook_mapper.ts:256-266 | the flat text is empty or ends a line, and has `last_line + 1` lines |
| NotebookMapper.ThreeNewlines | src/notebook_mapper.ts:256 | the separator `'\n' + '\n\n'` ends the cell's last line and adds two empty lines |
| NotebookMapper.CellLinesText | src/notebook_mapper.ts:256-266 | the flat lines from a cell's `last_line` on are the cell's own lines, followed by two empty lines |
| NotebookMapper.LinesAround | src/notebook_mapper.ts:256 | after complete lines, a text and three newlines yield the text's lines, then two empty lines |
| NotebookMapper.ComposeKeys | src/notebook_mapper.ts:258-266 | every mapped line lies below `last_line`, and so do every recorded cell start and the two lines after it |
| NotebookMapper.ComposeExtends | src/notebook_mapper.ts:258-266 | later cells never change or remove a line mapping made by earlier cells |
| NotebookMapper.CellLinesMapped | src/notebook_mapper.ts:258-266 | each line `last_line .. last_line+n-1` of an included cell maps to `{editor, line_shift: last_line}`, `last_line` advances by `n+2`, and the two lines after the cell are unmapped |
| NotebookMapper.NextCellStart | src/notebook_mapper.ts:253-266 | the next included cell starts exactly `n+2` lines after this one, whatever skipped cells lie between |
| NotebookMapper.CellShiftRecorded | src/notebook_mapper.ts:253-258 | with distinct cells, `cell_line_map[cell]` is the cell's first flat line, and a skipped cell has no entry |
| NotebookMapper.CellNeverIncluded | src/notebook_mapper.ts:258 | a cell absent from the run has no `cell_line_map` entry |
| NotebookMapper.MappedLineHasCell | src/notebook_mapper.ts:258-264 | every mapped flat line lies within one included cell and maps to that cell's editor and first line |
| NotebookMapper.StepIgnoresEditors | src/notebook_mapper.ts:247-266 | laying out a cell does not depend on the editor registry built so far |
| NotebookMapper.NotebookAsSingleEditor.GetEditorAt | src/notebook_mapper.ts:225-227 | succeeds exactly on a mapped line, otherwise fails naming the line |
| NotebookMapper.NotebookAsSingleEditor.Transform | src/notebook_mapper.ts:229-235 | keeps the column, succeeds exactly on a mapped line, and otherwise fails naming the line |
| NotebookMapper.NotebookAsSingleEditor.CoordsCharShift | src/notebook_mapper.ts:118-124 | keeps the column, succeeds exactly for a cell with a recorded start, and otherwise fails with "cell not found" |
| NotebookMapper.TransformRoundTrip | src/notebook_mapper.ts:225-235 | after `getValue`, flat line `last_line+i` of an included cell gives that cell's editor and local line `i`, and shifting local line `i` back by the cell's recorded start gives the flat line |
| NotebookMapper.TransformIsLocal | src/notebook_mapper.ts:229-235 | any mapped flat line transforms to a local line in `[0, n)` of the cell whose editor it names |
| NotebookMapper.SeparatorLinesFail | src/notebook_mapper.ts:225-235 | the two lines after an included cell make both `get_editor_at` and `transform` fail |
| NotebookMapper.SkippedCellNotFound | src/notebook_mapper.ts:118-124 | a hit in a skipped cell cannot be shifted back and fails with "cell not found" |

## Left out

- Logging (`console.warn` when appending to a disposed document, `console.log`) is not modelled.
- `extractForeignCode` is a base-class member whose code is not part of this model. Its result for the cell (the kept code and the foreign-documents map) is a parameter of `AppendCodeBlock`.
- `VirtualDocuments.VirtualDocument.AppendCodeBlock`: the foreign-document choices that extraction makes for the cell (through `_chooseForeignDocument`: popping a standalone pool, removing from the unused set, opening and registering a document) are not performed. Its contract that the registry, the registration order, the unused set and the pools are unchanged holds of the model only; in the source, appending a cell with foreign code may change them as `ChooseForeignDocument` states.
- `openForeign` is not part of this model. `OpenForeign` stands in for it: it creates a live document and registers it under an id the caller supplies. A shared (non-standalone) document is required to be registered under its language, which is the key `_chooseForeignDocument` looks it up by; the id of a standalone document is not derived.
- `dispose` is not part of this model. `Dispose` only sets the flag.
- The reset of `remainingLifetime` when a document is reused is not modelled, because it lives in the base class.
- The workaround that installs `_chooseForeignDocument` at document.ts:39 is not modelled. `ChooseForeignDocument` is modelled directly.
- `transformVirtualToRoot` is not modelled. It only delegates to `transformVirtualToEditor` and `transformFromEditorToRoot`, which are not part of this model.
- The overrides registry and the internals of `ReversibleOverridesMap` are not part of this model. Their regular-expression rules become the functions in `Overrides.Rules`. Where a round trip is needed, `DecodeInvertsPrepare` takes it as a premise about the rules.
- `VirtualDocuments.VirtualDocument.GetForeignDocuments`: it deduplicates maps by value, whereas the source's `Set` compares object identity. Its contract states membership and distinctness but not the first-seen order of the result.
- `VirtualDocuments.VirtualDocument.ExpireDocuments`: it visits the unused documents in an arbitrary order (`:|`), where the source iterates the `Set` in insertion order. The outcome does not depend on the order.
- `VirtualDocuments.VirtualDocument.ExpireOne`: it requires a one-id list. `RecordedIdsAreLastIds` proves that every recorded id list has one element, so the source's loop over the list deletes that one id.
- In document.ts, the extra lines that separate cells are the configured `blankLinesBetweenCells`. In notebook_mapper.ts they are the three newlines after each cell, two of them blank. Both are modelled as written.
- notebook_mapper.ts: the stub CodeMirror methods, `DocDispatcher`, `addOverlay`, `execCommand`, `endOperation`, `on`, `charCoords` and `cursorCoords` are not modelled. They return constants, forward to CodeMirror, or compute DOM pixel geometry.
- `NotebookMapper.NotebookAsSingleEditor.CoordsCharShift`: it models only the line shift of `coordsChar`. The loop over the widgets, which hit-tests each editor by pixel coordinates, is DOM geometry; the model takes the hit cell and its local position as inputs.
- `NotebookMapper.NotebookAsSingleEditor.GetValue`: the `seperator` argument is not modelled. Each cell's text is taken as its editor returns it, and the source then splits that text on `'\n'`.
- Object identity of cells and editors is used only for map keys. Properties that need distinct cells or editors (`CellShiftRecorded`, `EditorsRegistered`, `TransformRoundTrip`, `SkippedCellNotFound`) state that as a premise, as a notebook guarantees.
