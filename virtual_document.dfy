/** The virtual document of the jupyterlab-lsp extension: one flat document
    composed of a notebook's cells, with maps between its lines and the cells'
    lines, the masking of magics, and the lifecycle of the foreign documents
    that hold code in embedded languages. */
module VirtualDocuments {
  import opened Wrappers
  import opened Lines
  import opened Overrides

  /** The editor of one cell; only its identity is used. */
  class Editor { }

  /** The path that identifies a document in skip-inspection markers. */
  type IdPath = string

  datatype Position = Position(line: int, column: int)

  datatype Range = Range(start: Position, end: Position)

  /** Where one excerpt of foreign code went. */
  datatype VirtualDocumentBlock = VirtualDocumentBlock(virtualDocument: ForeignDocument, editor: Editor)

  /** The foreign excerpts found in one cell, keyed by their range. */
  type ForeignDocumentsMap = map<Range, VirtualDocumentBlock>

  /** One cell to append: its text and its editor. */
  datatype CodeBlock = CodeBlock(value: string, ceEditor: Editor)

  /** What foreign-code extraction returns for one cell: the text that stays
      in this document and the excerpts moved to foreign documents. */
  datatype Extraction = Extraction(cellCodeKept: string, foreignDocumentsMap: ForeignDocumentsMap)

  /** The result of `prepareCodeBlock`. */
  datatype PreparedBlock = PreparedBlock(
    lines: seq<string>,
    foreignDocumentsMap: ForeignDocumentsMap,
    skipInspect: seq<seq<IdPath>>)

  /** A line of the virtual document; `sourceLine` is None on separator lines. */
  datatype VirtualLine = VirtualLine(skipInspect: seq<IdPath>, editor: Editor, sourceLine: Option<nat>)

  /** A line of the source, that is of the cells in append order. */
  datatype SourceLine = SourceLine(
    editorLine: nat,
    editorShift: Position,
    editor: Editor,
    foreignDocumentsMap: ForeignDocumentsMap,
    virtualLine: nat)

  /** The extractor that asks for a foreign document. */
  datatype ForeignCodeExtractor = ForeignCodeExtractor(language: string, standalone: bool, fileExtension: string)

  /** A foreign (nested) virtual document, reduced to the state this core
      reads and changes. */
  class ForeignDocument {
    const language: string
    const standalone: bool
    const fileExtension: string
    var remainingLifetime: int
    var isDisposed: bool

    constructor (language: string, standalone: bool, fileExtension: string, lifetime: int)
      ensures this.language == language && this.standalone == standalone
      ensures this.fileExtension == fileExtension
      ensures remainingLifetime == lifetime && !isDisposed
    {
      this.language := language;
      this.standalone := standalone;
      this.fileExtension := fileExtension;
      remainingLifetime := lifetime;
      isDisposed := false;
    }

    /** Stands in for the base class's `dispose`, of which only the flag matters here. */
    method Dispose()
      modifies this
      ensures isDisposed && remainingLifetime == old(remainingLifetime)
    {
      isDisposed := true;
    }
  }

  /** `cellCode.split('\n')` after the magics are masked: a matching cell
      override replaces the whole cell and marks every line, otherwise each
      line is masked on its own and marked exactly when its override fired. */
  function PrepareCodeBlock(
    cellMagics: ReversibleOverridesMap, lineMagics: ReversibleOverridesMap,
    idPath: IdPath, extracted: Extraction): (p: PreparedBlock)
    ensures |p.skipInspect| == |p.lines|
    ensures p.foreignDocumentsMap == extracted.foreignDocumentsMap
    ensures forall i :: 0 <= i < |p.lines| ==> p.skipInspect[i] == [] || p.skipInspect[i] == [idPath]
    ensures cellMagics.forward.overrideFor(extracted.cellCodeKept).Some? ==>
      && p.lines == Split(cellMagics.forward.overrideFor(extracted.cellCodeKept).value)
      && forall i :: 0 <= i < |p.lines| ==> p.skipInspect[i] == [idPath]
    ensures cellMagics.forward.overrideFor(extracted.cellCodeKept).None? ==>
      var source := Split(extracted.cellCodeKept);
      && |p.lines| == |source|
      && (forall i :: 0 <= i < |p.lines| ==> p.lines[i] == ApplyLine(lineMagics.forward, source[i]))
      && (forall i :: 0 <= i < |p.lines| ==>
            (p.skipInspect[i] == [idPath] <==> lineMagics.forward.replaceLine(source[i]).Some?))
  {
    var cellCode := extracted.cellCodeKept;
    match cellMagics.forward.overrideFor(cellCode)
    case Some(cellOverride) =>
      var lines := Split(cellOverride);
      PreparedBlock(lines, extracted.foreignDocumentsMap, SkipWhere(seq(|lines|, _ => true), idPath))
    case None =>
      var result := ReplaceAll(lineMagics.forward, Split(cellCode));
      PreparedBlock(result.lines, extracted.foreignDocumentsMap, SkipWhere(result.skipInspect, idPath))
  }

  /** The skip paths of a block: `[idPath]` on the lines flagged, none elsewhere. */
  function SkipWhere(flags: seq<bool>, idPath: IdPath): (r: seq<seq<IdPath>>)
    ensures |r| == |flags|
    ensures forall i :: 0 <= i < |flags| ==> r[i] == if flags[i] then [idPath] else []
  {
    if |flags| == 0 then [] else [if flags[0] then [idPath] else []] + SkipWhere(flags[1..], idPath)
  }

  /** `decodeCodeBlock`: the reverse cell override if one matches, otherwise
      the reverse line overrides line by line. */
  function DecodeCodeBlock(cellMagics: ReversibleOverridesMap, lineMagics: ReversibleOverridesMap, rawCode: string): string {
    match cellMagics.backward.overrideFor(rawCode)
    case Some(cellOverride) => cellOverride
    case None => Join(ReverseReplaceAll(lineMagics, Split(rawCode)))
  }

  /** Decoding the text of a prepared block gives back the kept cell code,
      provided that the override rules are reversible on it (an assumption
      about the rule sets, which are not modelled). */
  lemma {:induction false} DecodeInvertsPrepare(
    cellMagics: ReversibleOverridesMap, lineMagics: ReversibleOverridesMap,
    idPath: IdPath, extracted: Extraction)
    requires cellMagics.forward.overrideFor(extracted.cellCodeKept).Some? ==>
      cellMagics.backward.overrideFor(cellMagics.forward.overrideFor(extracted.cellCodeKept).value)
        == Some(extracted.cellCodeKept)
    requires cellMagics.forward.overrideFor(extracted.cellCodeKept).None? ==>
      cellMagics.backward.overrideFor(Join(ReplaceAll(lineMagics.forward, Split(extracted.cellCodeKept)).lines)) == None
    requires forall i :: 0 <= i < |Split(extracted.cellCodeKept)| ==>
      NoNewline(ApplyLine(lineMagics.forward, Split(extracted.cellCodeKept)[i]))
    requires forall i :: 0 <= i < |Split(extracted.cellCodeKept)| ==>
      LineRoundTrips(lineMagics, Split(extracted.cellCodeKept)[i])
    ensures DecodeCodeBlock(cellMagics, lineMagics,
              Join(PrepareCodeBlock(cellMagics, lineMagics, idPath, extracted).lines))
            == extracted.cellCodeKept
  {
    var code := extracted.cellCodeKept;
    var p := PrepareCodeBlock(cellMagics, lineMagics, idPath, extracted);
    match cellMagics.forward.overrideFor(code)
    case Some(cellOverride) =>
      JoinSplit(cellOverride);
    case None =>
      var source := Split(code);
      var masked := ReplaceAll(lineMagics.forward, source).lines;
      assert p.lines == masked;
      SplitJoin(masked);
      var unmasked := ReverseReplaceAll(lineMagics, masked);
      assert unmasked == source by {
        forall i | 0 <= i < |source| ensures unmasked[i] == source[i] {
          assert LineRoundTrips(lineMagics, source[i]);
        }
      }
      JoinSplit(code);
  }

  /** When no reverse cell override matches, decoding keeps the number of
      lines, as long as the reverse line overrides do not produce newlines. */
  lemma {:induction false} DecodePreservesLineCount(
    cellMagics: ReversibleOverridesMap, lineMagics: ReversibleOverridesMap, rawCode: string)
    requires cellMagics.backward.overrideFor(rawCode).None?
    requires forall i :: 0 <= i < |Split(rawCode)| ==> NoNewline(ApplyLine(lineMagics.backward, Split(rawCode)[i]))
    ensures |Split(DecodeCodeBlock(cellMagics, lineMagics, rawCode))| == |Split(rawCode)|
  {
    SplitJoin(ReverseReplaceAll(lineMagics, Split(rawCode)));
  }

  /** The shift recorded for line `i` of a cell: the editor's line shift less
      the virtual shift, and a column shift on the first line only. */
  function SourceShift(editorShift: Position, virtualShift: Option<Position>, i: nat): (shift: Position)
    ensures shift.line + (if virtualShift.Some? then virtualShift.value.line else 0) == editorShift.line
    ensures i == 0 ==> shift.column + (if virtualShift.Some? then virtualShift.value.column else 0) == editorShift.column
    ensures i != 0 ==> shift.column == 0
  {
    var shiftLine := match virtualShift case Some(v) => v.line case None => 0;
    var shiftColumn := match virtualShift case Some(v) => v.column case None => 0;
    Position(editorShift.line - shiftLine, if i == 0 then editorShift.column - shiftColumn else 0)
  }

  /** The foreign documents that some source line refers to. */
  ghost function UsedDocuments(sourceLines: map<nat, SourceLine>): set<ForeignDocument> {
    set s, r | s in sourceLines && r in sourceLines[s].foreignDocumentsMap ::
      sourceLines[s].foreignDocumentsMap[r].virtualDocument
  }

  /** `order` lists the keys of `docs` once each (the iteration order of a
      JavaScript Map). */
  ghost predicate OrderOf(order: seq<string>, docs: map<string, ForeignDocument>) {
    && (forall i, j :: 0 <= i < j < |order| ==> order[i] != order[j])
    && (forall id :: id in docs <==> id in order)
  }

  /** The id list that `closeExpiredDocuments` builds for each document while
      walking the registered ids in order: each visit overwrites the list
      with the current id alone. */
  function RecordedIds(order: seq<string>, docs: map<string, ForeignDocument>): map<ForeignDocument, seq<string>>
    requires forall i :: 0 <= i < |order| ==> order[i] in docs
  {
    if |order| == 0 then map[]
    else
      var id := order[|order| - 1];
      RecordedIds(order[..|order| - 1], docs)[docs[id] := [id]]
  }

  /** `id` is the last of the ids in `order` under which its document is registered. */
  ghost predicate IsLastIdOf(order: seq<string>, docs: map<string, ForeignDocument>, id: string)
    requires forall i :: 0 <= i < |order| ==> order[i] in docs
  {
    exists i :: 0 <= i < |order| && order[i] == id &&
      forall j :: i < j < |order| ==> docs[order[j]] != docs[id]
  }

  /** Only the last id of each document is recorded: the list for a document
      is a single id, and it is the document's last registered id. */
  lemma {:induction false} RecordedIdsAreLastIds(order: seq<string>, docs: map<string, ForeignDocument>)
    requires forall i :: 0 <= i < |order| ==> order[i] in docs
    ensures forall i :: 0 <= i < |order| ==> docs[order[i]] in RecordedIds(order, docs)
    ensures forall d :: d in RecordedIds(order, docs) ==>
      |RecordedIds(order, docs)[d]| == 1 &&
      RecordedIds(order, docs)[d][0] in docs &&
      docs[RecordedIds(order, docs)[d][0]] == d &&
      IsLastIdOf(order, docs, RecordedIds(order, docs)[d][0])
  {
    if |order| > 0 {
      var prefix := order[..|order| - 1];
      var id := order[|order| - 1];
      RecordedIdsAreLastIds(prefix, docs);
      var before := RecordedIds(prefix, docs);
      var after := RecordedIds(order, docs);
      forall d | d in after
        ensures |after[d]| == 1 && after[d][0] in docs && docs[after[d][0]] == d
        ensures IsLastIdOf(order, docs, after[d][0])
      {
        if d == docs[id] {
          assert after[d] == [id];
          assert order[|order| - 1] == id;
        } else {
          var k :| 0 <= k < |prefix| && prefix[k] == before[d][0] &&
            forall j :: k < j < |prefix| ==> docs[prefix[j]] != docs[before[d][0]];
          assert order[k] == after[d][0];
        }
      }
    }
  }

  /** A document registered under two ids keeps the earlier one when it
      expires: only the recorded (last) id is deleted. */
  lemma {:induction false} EarlierIdSurvivesExpiry(
    order: seq<string>, docs: map<string, ForeignDocument>, i: nat, j: nat)
    requires forall k :: 0 <= k < |order| ==> order[k] in docs
    requires i < j < |order| && docs[order[i]] == docs[order[j]]
    requires forall a, b :: 0 <= a < b < |order| ==> order[a] != order[b]
    ensures docs[order[i]] in RecordedIds(order, docs)
    ensures order[i] !in RecordedIds(order, docs)[docs[order[i]]]
  {
    RecordedIdsAreLastIds(order, docs);
    var d := docs[order[i]];
    var last := RecordedIds(order, docs)[d][0];
    var k :| 0 <= k < |order| && order[k] == last &&
      forall m :: k < m < |order| ==> docs[order[m]] != docs[last];
    assert k >= j;
  }

  /** `order` with the ids in `gone` left out. */
  function Without(order: seq<string>, gone: set<string>): (r: seq<string>)
    ensures forall id :: id in r <==> id in order && id !in gone
  {
    if |order| == 0 then []
    else (if order[0] in gone then [] else [order[0]]) + Without(order[1..], gone)
  }

  /** `a` is `b` with some elements left out, the rest in their order. */
  predicate Subsequence(a: seq<string>, b: seq<string>)
    decreases |b|
  {
    if |a| == 0 then true
    else if |b| == 0 then false
    else if a[0] == b[0] then Subsequence(a[1..], b[1..])
    else Subsequence(a, b[1..])
  }

  /** Deleting keys keeps the remaining ones in their order. */
  lemma {:induction false} WithoutKeepsOrder(order: seq<string>, gone: set<string>)
    ensures Subsequence(Without(order, gone), order)
  {
    if |order| > 0 {
      WithoutKeepsOrder(order[1..], gone);
      var rest := Without(order[1..], gone);
      if order[0] in gone {
        assert Without(order, gone) == rest;
        if |rest| > 0 {
          assert rest[0] in rest;
        }
      } else {
        assert Without(order, gone) == [order[0]] + rest;
        assert Without(order, gone)[1..] == rest;
      }
    }
  }

  lemma {:induction false} WithoutKeepsDistinct(order: seq<string>, gone: set<string>)
    requires forall i, j :: 0 <= i < j < |order| ==> order[i] != order[j]
    ensures forall i, j :: 0 <= i < j < |Without(order, gone)| ==> Without(order, gone)[i] != Without(order, gone)[j]
  {
    if |order| > 0 {
      WithoutKeepsDistinct(order[1..], gone);
      assert order[0] !in order[1..];
    }
  }

  lemma {:induction false} WithoutNothing(order: seq<string>)
    ensures Without(order, {}) == order
  {
    if |order| > 0 {
      WithoutNothing(order[1..]);
    }
  }

  lemma {:induction false} WithoutMore(order: seq<string>, gone: set<string>, id: string)
    ensures Without(Without(order, gone), {id}) == Without(order, gone + {id})
  {
    if |order| > 0 {
      WithoutMore(order[1..], gone, id);
      var head := if order[0] in gone then [] else [order[0]];
      assert Without(order, gone) == head + Without(order[1..], gone);
      WithoutConcat(head, Without(order[1..], gone), {id});
    }
  }

  lemma {:induction false} WithoutConcat(a: seq<string>, b: seq<string>, gone: set<string>)
    ensures Without(a + b, gone) == Without(a, gone) + Without(b, gone)
  {
    if |a| > 0 {
      var head := if a[0] in gone then [] else [a[0]];
      WithoutConcat(a[1..], b, gone);
      assert (a + b)[0] == a[0] && (a + b)[1..] == a[1..] + b;
      calc {
        Without(a + b, gone);
        head + Without(a[1..] + b, gone);
        head + (Without(a[1..], gone) + Without(b, gone));
        (head + Without(a[1..], gone)) + Without(b, gone);
      }
    } else {
      assert a + b == b;
    }
  }

  /** Two last ids of one document are the same id. */
  lemma LastIdUnique(order: seq<string>, docs: map<string, ForeignDocument>, a: string, b: string)
    requires OrderOf(order, docs)
    requires IsLastIdOf(order, docs, a) && IsLastIdOf(order, docs, b) && docs[a] == docs[b]
    ensures a == b
  {
    var i :| 0 <= i < |order| && order[i] == a && forall j :: i < j < |order| ==> docs[order[j]] != docs[a];
    var k :| 0 <= k < |order| && order[k] == b && forall j :: k < j < |order| ==> docs[order[j]] != docs[b];
  }

  /** The recorded ids cover every registered document, and the id recorded
      for the document of `id` is `id` exactly when `id` is the last id of
      that document. */
  lemma RecordedIdsMatchLastIds(order: seq<string>, docs: map<string, ForeignDocument>)
    requires OrderOf(order, docs)
    ensures RecordedIds(order, docs).Keys == docs.Values
    ensures forall d :: d in RecordedIds(order, docs) ==>
      |RecordedIds(order, docs)[d]| == 1 && RecordedIds(order, docs)[d][0] in docs &&
      docs[RecordedIds(order, docs)[d][0]] == d
    ensures forall id :: id in docs ==>
      (RecordedIds(order, docs)[docs[id]][0] == id <==> IsLastIdOf(order, docs, id))
  {
    RecordedIdsAreLastIds(order, docs);
    var recorded := RecordedIds(order, docs);
    forall d | d in docs.Values ensures d in recorded {
      var id :| id in docs && docs[id] == d;
      var i :| 0 <= i < |order| && order[i] == id;
    }
    forall id | id in docs && IsLastIdOf(order, docs, id) ensures recorded[docs[id]][0] == id {
      LastIdUnique(order, docs, id, recorded[docs[id]][0]);
    }
  }

  /** Virtual lines `vStart ..` hold the transformed lines of one cell: line i
      carries `skipInspect[i]` and points at source line `sStart + i`. */
  ghost predicate TransformedLinesAt(lines: map<nat, VirtualLine>, vStart: nat, sStart: nat,
                                     skipInspect: seq<seq<IdPath>>, editor: Editor)
  {
    forall k :: vStart <= k < vStart + |skipInspect| ==>
      k in lines && lines[k] == VirtualLine(skipInspect[k - vStart], editor, Some(sStart + (k - vStart)))
  }

  /** Virtual lines `vStart .. vStart + count` are separators: no source line,
      skipped by the inspections of the document `idPath`. */
  ghost predicate SeparatorLinesAt(lines: map<nat, VirtualLine>, vStart: nat, count: nat, idPath: IdPath, editor: Editor)
  {
    forall k :: vStart <= k < vStart + count ==> k in lines && lines[k] == VirtualLine([idPath], editor, None)
  }

  /** Source lines `sStart .. sStart + count` are the lines of one cell: line i
      is editor line i, has the shift of line i and points at virtual line `vStart + i`. */
  ghost predicate SourceLinesAt(lines: map<nat, SourceLine>, sStart: nat, count: nat, vStart: nat,
                                editorShift: Position, virtualShift: Option<Position>,
                                editor: Editor, foreignDocumentsMap: ForeignDocumentsMap)
  {
    forall k :: sStart <= k < sStart + count ==>
      k in lines && lines[k] == SourceLine(k - sStart, SourceShift(editorShift, virtualShift, k - sStart),
                                           editor, foreignDocumentsMap, vStart + (k - sStart))
  }

  /** The first loop of `appendCodeBlock`: transformed line i becomes virtual
      line `vStart + i`, pointing at source line `sStart + i`. */
  method WithTransformedLines(virtualLines: map<nat, VirtualLine>, vStart: nat, sStart: nat,
                              skipInspect: seq<seq<IdPath>>, editor: Editor)
    returns (r: map<nat, VirtualLine>)
    requires forall k: nat :: k in virtualLines <==> k < vStart
    ensures forall k: nat :: k in r <==> k < vStart + |skipInspect|
    ensures forall k :: 0 <= k < vStart ==> r[k] == virtualLines[k]
    ensures TransformedLinesAt(r, vStart, sStart, skipInspect, editor)
  {
    r := virtualLines;
    var i := 0;
    while i < |skipInspect|
      invariant 0 <= i <= |skipInspect|
      invariant forall k: nat :: k in r <==> k < vStart + i
      invariant forall k :: 0 <= k < vStart ==> r[k] == virtualLines[k]
      invariant forall k :: vStart <= k < vStart + i ==>
        r[k] == VirtualLine(skipInspect[k - vStart], editor, Some(sStart + (k - vStart)))
    {
      r := r[vStart + i := VirtualLine(skipInspect[i], editor, Some(sStart + i))];
      i := i + 1;
    }
  }

  /** The second loop of `appendCodeBlock`: original line i becomes source
      line `sStart + i`, pointing at virtual line `vStart + i`. */
  method WithSourceLines(sourceLines: map<nat, SourceLine>, vStart: nat, sStart: nat, count: nat,
                         editorShift: Position, virtualShift: Option<Position>,
                         editor: Editor, foreignDocumentsMap: ForeignDocumentsMap)
    returns (r: map<nat, SourceLine>)
    requires forall k: nat :: k in sourceLines <==> k < sStart
    ensures forall k: nat :: k in r <==> k < sStart + count
    ensures forall k :: 0 <= k < sStart ==> r[k] == sourceLines[k]
    ensures SourceLinesAt(r, sStart, count, vStart, editorShift, virtualShift, editor, foreignDocumentsMap)
  {
    r := sourceLines;
    var i := 0;
    while i < count
      invariant 0 <= i <= count
      invariant forall k: nat :: k in r <==> k < sStart + i
      invariant forall k :: 0 <= k < sStart ==> r[k] == sourceLines[k]
      invariant forall k :: sStart <= k < sStart + i ==>
        r[k] == SourceLine(k - sStart, SourceShift(editorShift, virtualShift, k - sStart),
                           editor, foreignDocumentsMap, vStart + (k - sStart))
    {
      r := r[sStart + i := SourceLine(i, SourceShift(editorShift, virtualShift, i),
                                      editor, foreignDocumentsMap, vStart + i)];
      i := i + 1;
    }
  }

  /** The third loop of `appendCodeBlock`: `count` separator lines from
      `vStart` on, with no source line and skipped by the document's inspections. */
  method WithSeparatorLines(virtualLines: map<nat, VirtualLine>, vStart: nat, count: nat,
                            idPath: IdPath, editor: Editor)
    returns (r: map<nat, VirtualLine>)
    requires forall k: nat :: k in virtualLines <==> k < vStart
    ensures forall k: nat :: k in r <==> k < vStart + count
    ensures forall k :: 0 <= k < vStart ==> r[k] == virtualLines[k]
    ensures SeparatorLinesAt(r, vStart, count, idPath, editor)
  {
    r := virtualLines;
    var i := 0;
    while i < count
      invariant 0 <= i <= count
      invariant forall k: nat :: k in r <==> k < vStart + i
      invariant forall k :: 0 <= k < vStart ==> r[k] == virtualLines[k]
      invariant forall k :: vStart <= k < vStart + i ==> r[k] == VirtualLine([idPath], editor, None)
    {
      r := r[vStart + i := VirtualLine([idPath], editor, None)];
      i := i + 1;
    }
  }

  class VirtualDocument {
    const idPath: IdPath
    const blankLinesBetweenCells: nat
    const cellMagicsOverrides: ReversibleOverridesMap
    const lineMagicsOverrides: ReversibleOverridesMap
    /** The lifetime a newly opened foreign document starts with. */
    const foreignLifetime: int

    var isDisposed: bool
    var virtualLines: map<nat, VirtualLine>
    var sourceLines: map<nat, SourceLine>
    var lineBlocks: seq<string>
    var lastVirtualLine: nat
    var lastSourceLine: nat
    /** The registered foreign documents, by id, and the ids in registration order. */
    var foreignDocuments: map<string, ForeignDocument>
    var foreignOrder: seq<string>
    var unusedDocuments: set<ForeignDocument>
    /** Pools of reusable standalone documents, by language (a missing language has an empty pool). */
    var unusedStandaloneDocuments: map<string, seq<ForeignDocument>>

    /** Line numbers are contiguous from 0 in both maps, and the id order
        lists the registered ids. */
    ghost predicate Valid()
      reads this
    {
      && (forall k: nat :: k in virtualLines <==> k < lastVirtualLine)
      && (forall k: nat :: k in sourceLines <==> k < lastSourceLine)
      && OrderOf(foreignOrder, foreignDocuments)
    }

    /** The overrides are those registered for the document's language, or none. */
    constructor (language: string, overridesRegistry: map<string, CodeOverrides>,
                 idPath: IdPath, blankLinesBetweenCells: nat, foreignLifetime: int)
      ensures Valid()
      ensures cellMagicsOverrides == (if language in overridesRegistry then overridesRegistry[language].cell else NoOverrides())
      ensures lineMagicsOverrides == (if language in overridesRegistry then overridesRegistry[language].line else NoOverrides())
      ensures this.idPath == idPath && this.blankLinesBetweenCells == blankLinesBetweenCells
      ensures this.foreignLifetime == foreignLifetime
      ensures !isDisposed && virtualLines == map[] && sourceLines == map[] && lineBlocks == []
      ensures lastVirtualLine == 0 && lastSourceLine == 0
      ensures foreignDocuments == map[] && foreignOrder == [] && unusedDocuments == {}
      ensures unusedStandaloneDocuments == map[]
    {
      this.idPath := idPath;
      this.blankLinesBetweenCells := blankLinesBetweenCells;
      this.foreignLifetime := foreignLifetime;
      if language in overridesRegistry {
        cellMagicsOverrides := overridesRegistry[language].cell;
        lineMagicsOverrides := overridesRegistry[language].line;
      } else {
        cellMagicsOverrides := NoOverrides();
        lineMagicsOverrides := NoOverrides();
      }
      isDisposed := false;
      virtualLines, sourceLines, lineBlocks := map[], map[], [];
      lastVirtualLine, lastSourceLine := 0, 0;
      foreignDocuments, foreignOrder := map[], [];
      unusedDocuments, unusedStandaloneDocuments := {}, map[];
    }

    /** `appendCodeBlock`: records one cell. `extracted` is what foreign-code
        extraction returns for the cell. On a disposed document nothing changes. */
    method AppendCodeBlock(block: CodeBlock, extracted: Extraction, editorShift: Position, virtualShift: Option<Position>)
      requires Valid()
      modifies this
      ensures Valid()
      ensures isDisposed == old(isDisposed)
      ensures foreignDocuments == old(foreignDocuments) && foreignOrder == old(foreignOrder)
      ensures unusedDocuments == old(unusedDocuments) && unusedStandaloneDocuments == old(unusedStandaloneDocuments)
      ensures old(isDisposed) ==>
        && virtualLines == old(virtualLines) && sourceLines == old(sourceLines)
        && lineBlocks == old(lineBlocks)
        && lastVirtualLine == old(lastVirtualLine) && lastSourceLine == old(lastSourceLine)
      // the records already there are kept
      ensures forall k :: k in old(virtualLines) ==> k in virtualLines && virtualLines[k] == old(virtualLines)[k]
      ensures forall k :: k in old(sourceLines) ==> k in sourceLines && sourceLines[k] == old(sourceLines)[k]
      // both counters advance: by the transformed lines and the separators, and by the original lines
      ensures !old(isDisposed) ==>
        lastVirtualLine == old(lastVirtualLine) + |PrepareCodeBlock(cellMagicsOverrides, lineMagicsOverrides, idPath, extracted).lines| + blankLinesBetweenCells
      ensures !old(isDisposed) ==> lastSourceLine == old(lastSourceLine) + |Split(block.value)|
      // transformed line i: the cell's editor, source line `old lastSourceLine + i`, its skip path
      ensures !old(isDisposed) ==>
        TransformedLinesAt(virtualLines, old(lastVirtualLine), old(lastSourceLine), PrepareCodeBlock(cellMagicsOverrides, lineMagicsOverrides, idPath, extracted).skipInspect, block.ceEditor)
      // then the separator lines: no source line, skipped by inspections
      ensures !old(isDisposed) ==>
        SeparatorLinesAt(virtualLines, old(lastVirtualLine) + |PrepareCodeBlock(cellMagicsOverrides, lineMagicsOverrides, idPath, extracted).lines|, blankLinesBetweenCells, idPath, block.ceEditor)
      // original line i: editor line i, its shift, the cell's foreign documents, virtual line `old lastVirtualLine + i`
      ensures !old(isDisposed) ==>
        SourceLinesAt(sourceLines, old(lastSourceLine), |Split(block.value)|, old(lastVirtualLine),
                      editorShift, virtualShift, block.ceEditor, extracted.foreignDocumentsMap)
      ensures !old(isDisposed) ==> lineBlocks == old(lineBlocks) + [Join(PrepareCodeBlock(cellMagicsOverrides, lineMagicsOverrides, idPath, extracted).lines) + "\n"]
    {
      if isDisposed {
        return;
      }
      var sourceCellLines := Split(block.value);
      var p := PrepareCodeBlock(cellMagicsOverrides, lineMagicsOverrides, idPath, extracted);
      RecordLines(block.ceEditor, p.skipInspect, |sourceCellLines|, p.foreignDocumentsMap, editorShift, virtualShift);
      lineBlocks := lineBlocks + [Join(p.lines) + "\n"];
    }

    /** The three loops of `appendCodeBlock`: one virtual line per entry of
        `skipInspect`, then the separator lines, and `sourceCount` source lines. */
    method RecordLines(editor: Editor, skipInspect: seq<seq<IdPath>>, sourceCount: nat,
                       foreignDocumentsMap: ForeignDocumentsMap, editorShift: Position, virtualShift: Option<Position>)
      requires Valid()
      modifies this`virtualLines, this`sourceLines, this`lastVirtualLine, this`lastSourceLine
      ensures Valid()
      ensures lastVirtualLine == old(lastVirtualLine) + |skipInspect| + blankLinesBetweenCells
      ensures lastSourceLine == old(lastSourceLine) + sourceCount
      ensures forall k :: 0 <= k < old(lastVirtualLine) ==> virtualLines[k] == old(virtualLines)[k]
      ensures forall k :: 0 <= k < old(lastSourceLine) ==> sourceLines[k] == old(sourceLines)[k]
      ensures TransformedLinesAt(virtualLines, old(lastVirtualLine), old(lastSourceLine), skipInspect, editor)
      ensures SeparatorLinesAt(virtualLines, old(lastVirtualLine) + |skipInspect|, blankLinesBetweenCells, idPath, editor)
      ensures SourceLinesAt(sourceLines, old(lastSourceLine), sourceCount, old(lastVirtualLine),
                            editorShift, virtualShift, editor, foreignDocumentsMap)
    {
      var vStart, sStart := lastVirtualLine, lastSourceLine;
      var newVirtualLines := WithTransformedLines(virtualLines, vStart, sStart, skipInspect, editor);
      var newSourceLines := WithSourceLines(sourceLines, vStart, sStart, sourceCount,
                                            editorShift, virtualShift, editor, foreignDocumentsMap);
      newVirtualLines := WithSeparatorLines(newVirtualLines, vStart + |skipInspect|, blankLinesBetweenCells, idPath, editor);
      virtualLines, sourceLines := newVirtualLines, newSourceLines;
      lastVirtualLine := vStart + |skipInspect| + blankLinesBetweenCells;
      lastSourceLine := sStart + sourceCount;
    }

    /** `getForeignDocuments`: the distinct foreign-document maps of the
        source lines that belong to `editor`, in first-seen order. */
    method GetForeignDocuments(editor: Editor) returns (maps: seq<ForeignDocumentsMap>)
      requires Valid()
      ensures forall m :: m in maps <==>
        exists s :: s in sourceLines && sourceLines[s].editor == editor && sourceLines[s].foreignDocumentsMap == m
      ensures forall i, j :: 0 <= i < j < |maps| ==> maps[i] != maps[j]
    {
      maps := [];
      var s: nat := 0;
      while s < lastSourceLine
        invariant s <= lastSourceLine
        invariant forall m :: m in maps <==>
          exists t: nat :: t < s && sourceLines[t].editor == editor && sourceLines[t].foreignDocumentsMap == m
        invariant forall i, j :: 0 <= i < j < |maps| ==> maps[i] != maps[j]
      {
        var line := sourceLines[s];
        if line.editor == editor && line.foreignDocumentsMap !in maps {
          maps := maps + [line.foreignDocumentsMap];
        }
        s := s + 1;
      }
    }

    /** Stands in for the base class's `openForeign`: a new foreign document,
        registered under `virtualId`. */
    method OpenForeign(language: string, standalone: bool, fileExtension: string, virtualId: string)
      returns (document: ForeignDocument)
      requires Valid()
      requires !standalone ==> virtualId == language
      modifies this
      ensures Valid()
      ensures fresh(document)
      ensures document.language == language && document.standalone == standalone
      ensures document.fileExtension == fileExtension
      ensures document.remainingLifetime == foreignLifetime && !document.isDisposed
      ensures foreignDocuments == old(foreignDocuments)[virtualId := document]
      ensures foreignOrder == if virtualId in old(foreignDocuments) then old(foreignOrder) else old(foreignOrder) + [virtualId]
      ensures isDisposed == old(isDisposed) && virtualLines == old(virtualLines) && sourceLines == old(sourceLines)
      ensures lineBlocks == old(lineBlocks) && lastVirtualLine == old(lastVirtualLine) && lastSourceLine == old(lastSourceLine)
      ensures unusedDocuments == old(unusedDocuments) && unusedStandaloneDocuments == old(unusedStandaloneDocuments)
    {
      document := new ForeignDocument(language, standalone, fileExtension, foreignLifetime);
      if virtualId !in foreignDocuments {
        foreignOrder := foreignOrder + [virtualId];
      }
      foreignDocuments := foreignDocuments[virtualId := document];
    }

    /** The pool of reusable standalone documents of `language`. */
    function StandalonePool(language: string): seq<ForeignDocument>
      reads this
    {
      if language in unusedStandaloneDocuments then unusedStandaloneDocuments[language] else []
    }

    /** `_chooseForeignDocument`: reuse the shared document of a non-standalone
        language, else pop a pooled standalone document, else open a new one
        (registered under `virtualId`). */
    method ChooseForeignDocument(extractor: ForeignCodeExtractor, virtualId: string)
      returns (document: ForeignDocument)
      requires Valid()
      requires !extractor.standalone ==> virtualId == extractor.language
      modifies this
      ensures Valid()
      // a shared (non-standalone) document is the one registered under its language
      ensures !extractor.standalone ==>
        extractor.language in foreignDocuments && foreignDocuments[extractor.language] == document
      ensures isDisposed == old(isDisposed) && virtualLines == old(virtualLines) && sourceLines == old(sourceLines)
      ensures lineBlocks == old(lineBlocks) && lastVirtualLine == old(lastVirtualLine) && lastSourceLine == old(lastSourceLine)
      // non-standalone with a registered document: that document, nothing changes
      ensures !extractor.standalone && extractor.language in old(foreignDocuments) ==>
        && document == old(foreignDocuments)[extractor.language]
        && foreignDocuments == old(foreignDocuments) && foreignOrder == old(foreignOrder)
        && unusedDocuments == old(unusedDocuments) && unusedStandaloneDocuments == old(unusedStandaloneDocuments)
      // standalone with a non-empty pool: the last pooled document, taken out of the pool and of the unused set
      ensures extractor.standalone && |old(StandalonePool(extractor.language))| > 0 ==>
        var pool := old(StandalonePool(extractor.language));
        && document == pool[|pool| - 1]
        && unusedStandaloneDocuments == old(unusedStandaloneDocuments)[extractor.language := pool[..|pool| - 1]]
        && unusedDocuments == old(unusedDocuments) - {document}
        && foreignDocuments == old(foreignDocuments) && foreignOrder == old(foreignOrder)
      // otherwise: a new document, registered
      ensures (if extractor.standalone then |old(StandalonePool(extractor.language))| == 0
               else extractor.language !in old(foreignDocuments)) ==>
        && fresh(document)
        && document.language == extractor.language && document.standalone == extractor.standalone
        && document.fileExtension == extractor.fileExtension
        && document.remainingLifetime == foreignLifetime && !document.isDisposed
        && foreignDocuments == old(foreignDocuments)[virtualId := document]
        && foreignOrder == (if virtualId in old(foreignDocuments) then old(foreignOrder) else old(foreignOrder) + [virtualId])
        && unusedDocuments == old(unusedDocuments) && unusedStandaloneDocuments == old(unusedStandaloneDocuments)
    {
      var foreignExists := extractor.language in foreignDocuments;
      if !extractor.standalone && foreignExists {
        document := foreignDocuments[extractor.language];
      } else {
        var unusedStandalone := StandalonePool(extractor.language);
        if extractor.standalone && |unusedStandalone| > 0 {
          document := unusedStandalone[|unusedStandalone| - 1];
          unusedStandaloneDocuments := unusedStandaloneDocuments[extractor.language := unusedStandalone[..|unusedStandalone| - 1]];
          unusedDocuments := unusedDocuments - {document};
        } else {
          document := OpenForeign(extractor.language, extractor.standalone, extractor.fileExtension, virtualId);
        }
      }
    }

    /** Two requests in a row for one shared (non-standalone) language give
        the same document: the first may open it, the second finds it. */
    method ChooseSharedTwice(extractor: ForeignCodeExtractor)
      returns (first: ForeignDocument, second: ForeignDocument)
      requires Valid() && !extractor.standalone
      modifies this
      ensures Valid()
      ensures first == second
      ensures extractor.language in foreignDocuments && foreignDocuments[extractor.language] == first
    {
      first := ChooseForeignDocument(extractor, extractor.language);
      second := ChooseForeignDocument(extractor, extractor.language);
    }

    /** Two requests in a row for one standalone language give two different
        documents: a pooled document is handed out once, and a new one is
        opened when the pool runs dry. */
    method ChooseStandaloneTwice(extractor: ForeignCodeExtractor, firstId: string, secondId: string)
      returns (first: ForeignDocument, second: ForeignDocument)
      requires Valid() && extractor.standalone
      requires forall i, j :: 0 <= i < j < |StandalonePool(extractor.language)| ==>
        StandalonePool(extractor.language)[i] != StandalonePool(extractor.language)[j]
      modifies this
      ensures Valid()
      ensures first != second
      ensures |old(StandalonePool(extractor.language))| > 0 ==>
        first == old(StandalonePool(extractor.language))[|old(StandalonePool(extractor.language))| - 1]
      ensures |old(StandalonePool(extractor.language))| > 1 ==>
        second == old(StandalonePool(extractor.language))[|old(StandalonePool(extractor.language))| - 2]
    {
      first := ChooseForeignDocument(extractor, firstId);
      second := ChooseForeignDocument(extractor, secondId);
    }

    /** The first pass of `closeExpiredDocuments`: the documents that some
        source line refers to. */
    method CollectUsedDocuments() returns (usedDocuments: set<ForeignDocument>)
      requires Valid()
      ensures usedDocuments == UsedDocuments(sourceLines)
    {
      usedDocuments := {};
      var s: nat := 0;
      while s < lastSourceLine
        invariant s <= lastSourceLine
        invariant usedDocuments == set t, r | t in sourceLines && t < s && r in sourceLines[t].foreignDocumentsMap ::
          sourceLines[t].foreignDocumentsMap[r].virtualDocument
      {
        var blocks := sourceLines[s].foreignDocumentsMap;
        usedDocuments := usedDocuments + set r | r in blocks :: blocks[r].virtualDocument;
        s := s + 1;
      }
    }

    /** The second pass of `closeExpiredDocuments`: the id list of every
        registered document, built in registration order. */
    method CollectDocumentIds() returns (documentIds: map<ForeignDocument, seq<string>>)
      requires Valid()
      ensures documentIds == RecordedIds(foreignOrder, foreignDocuments)
    {
      documentIds := map[];
      var n := 0;
      while n < |foreignOrder|
        invariant n <= |foreignOrder|
        invariant documentIds == RecordedIds(foreignOrder[..n], foreignDocuments)
      {
        var id := foreignOrder[n];
        var document := foreignDocuments[id];
        if document in documentIds {
          documentIds := documentIds[document := documentIds[document] + [id]];
        }
        documentIds := documentIds[document := [id]];
        assert foreignOrder[..n + 1][..n] == foreignOrder[..n];
        n := n + 1;
      }
      assert foreignOrder[..n] == foreignOrder;
    }

    /** `closeExpiredDocuments`: every registered document that no source
        line refers to loses one unit of lifetime; one that reaches zero or
        less is disposed, and the last id it is registered under is deleted. */
    method CloseExpiredDocuments()
      requires Valid()
      modifies this`foreignDocuments, this`foreignOrder, foreignDocuments.Values
      ensures Valid()
      // a document in use keeps its lifetime
      ensures forall d :: d in old(foreignDocuments.Values) && d in UsedDocuments(sourceLines) ==>
        d.remainingLifetime == old(d.remainingLifetime) && d.isDisposed == old(d.isDisposed)
      // an unused one loses exactly one, and is disposed once at zero or below
      ensures forall d :: d in old(foreignDocuments.Values) && d !in UsedDocuments(sourceLines) ==>
        d.remainingLifetime == old(d.remainingLifetime) - 1 &&
        d.isDisposed == (old(d.isDisposed) || d.remainingLifetime <= 0)
      // the ids deleted are the last ids of the documents that expired
      ensures forall id :: id in foreignDocuments ==> id in old(foreignDocuments) && foreignDocuments[id] == old(foreignDocuments)[id]
      ensures forall id :: id in old(foreignDocuments) ==>
        (id !in foreignDocuments <==>
          && IsLastIdOf(old(foreignOrder), old(foreignDocuments), id)
          && old(foreignDocuments)[id] !in UsedDocuments(sourceLines)
          && old(foreignDocuments[id].remainingLifetime) <= 1)
      ensures foreignOrder == Without(old(foreignOrder), old(foreignDocuments).Keys - foreignDocuments.Keys)
    {
      var usedDocuments := CollectUsedDocuments();
      ExpireUnusedDocuments(usedDocuments);
    }

    /** The second and third passes of `closeExpiredDocuments`, for the set
        `usedDocuments` that the first pass found. */
    method ExpireUnusedDocuments(usedDocuments: set<ForeignDocument>)
      requires Valid()
      modifies this`foreignDocuments, this`foreignOrder, foreignDocuments.Values
      ensures Valid()
      ensures forall d :: d in old(foreignDocuments.Values) && d in usedDocuments ==>
        d.remainingLifetime == old(d.remainingLifetime) && d.isDisposed == old(d.isDisposed)
      ensures forall d :: d in old(foreignDocuments.Values) && d !in usedDocuments ==>
        d.remainingLifetime == old(d.remainingLifetime) - 1 &&
        d.isDisposed == (old(d.isDisposed) || d.remainingLifetime <= 0)
      ensures forall id :: id in foreignDocuments ==> id in old(foreignDocuments) && foreignDocuments[id] == old(foreignDocuments)[id]
      ensures forall id :: id in old(foreignDocuments) ==>
        (id !in foreignDocuments <==>
          && IsLastIdOf(old(foreignOrder), old(foreignDocuments), id)
          && old(foreignDocuments)[id] !in usedDocuments
          && old(foreignDocuments[id].remainingLifetime) <= 1)
      ensures foreignOrder == Without(old(foreignOrder), old(foreignDocuments).Keys - foreignDocuments.Keys)
    {
      var documentIds := CollectDocumentIds();
      RecordedIdsMatchLastIds(foreignOrder, foreignDocuments);
      var allDocuments := documentIds.Keys;
      var unusedVirtualDocuments := allDocuments - usedDocuments;
      ghost var docs0, order0 := foreignDocuments, foreignOrder;
      ExpireDocuments(unusedVirtualDocuments, documentIds);
      WithoutKeepsDistinct(order0, docs0.Keys - foreignDocuments.Keys);
      assert OrderOf(foreignOrder, foreignDocuments);
    }

    /** The third pass of `closeExpiredDocuments`: each document of `unused`
        loses one unit of lifetime, and one that reaches zero or less is
        disposed and the ids `documentIds` lists for it are deleted. */
    method ExpireDocuments(unused: set<ForeignDocument>, documentIds: map<ForeignDocument, seq<string>>)
      requires forall d :: d in unused ==> d in documentIds && |documentIds[d]| == 1
      requires forall d :: d in unused ==> documentIds[d][0] in foreignDocuments && foreignDocuments[documentIds[d][0]] == d
      modifies this`foreignDocuments, this`foreignOrder, unused
      ensures forall d :: d in unused ==>
        d.remainingLifetime == old(d.remainingLifetime) - 1 &&
        d.isDisposed == (old(d.isDisposed) || d.remainingLifetime <= 0)
      ensures forall id :: id in foreignDocuments ==> id in old(foreignDocuments) && foreignDocuments[id] == old(foreignDocuments)[id]
      ensures forall id :: id in old(foreignDocuments) ==>
        (id !in foreignDocuments <==>
          && old(foreignDocuments)[id] in unused
          && documentIds[old(foreignDocuments)[id]][0] == id
          && old(foreignDocuments[id].remainingLifetime) <= 1)
      ensures foreignOrder == Without(old(foreignOrder), old(foreignDocuments).Keys - foreignDocuments.Keys)
    {
      ghost var docs0 := foreignDocuments;
      ghost var gone: set<string> := {};
      var todo := unused;
      WithoutNothing(foreignOrder);
      while todo != {}
        invariant todo <= unused
        invariant forall d :: d in unused && d !in todo ==>
          d.remainingLifetime == old(d.remainingLifetime) - 1 && d.isDisposed == (old(d.isDisposed) || d.remainingLifetime <= 0)
        invariant forall d :: d in todo ==> d.remainingLifetime == old(d.remainingLifetime) && d.isDisposed == old(d.isDisposed)
        invariant forall id :: id in foreignDocuments ==> id in docs0 && foreignDocuments[id] == docs0[id]
        invariant forall id :: id in docs0 ==>
          (id !in foreignDocuments <==>
            docs0[id] in unused && docs0[id] !in todo && documentIds[docs0[id]][0] == id && old(docs0[id].remainingLifetime) <= 1)
        invariant forall id :: id in gone <==> id in docs0 && id !in foreignDocuments
        invariant foreignOrder == Without(old(foreignOrder), gone)
        decreases |todo|
      {
        var document :| document in todo;
        var ids := documentIds[document];
        ghost var expires := document.remainingLifetime <= 1;
        ExpireOne(document, ids);
        if expires {
          WithoutMore(old(foreignOrder), gone, ids[0]);
          gone := gone + {ids[0]};
        }
        todo := todo - {document};
      }
      assert gone == docs0.Keys - foreignDocuments.Keys;
    }

    /** One step of the third pass: `document` loses one unit of lifetime and,
        at zero or less, is disposed and its ids are deleted. */
    method ExpireOne(document: ForeignDocument, ids: seq<string>)
      requires |ids| == 1
      modifies document, this`foreignDocuments, this`foreignOrder
      ensures document.remainingLifetime == old(document.remainingLifetime) - 1
      ensures document.isDisposed == (old(document.isDisposed) || document.remainingLifetime <= 0)
      ensures forall id :: id in foreignDocuments ==> id in old(foreignDocuments) && foreignDocuments[id] == old(foreignDocuments)[id]
      ensures document.remainingLifetime <= 0 ==>
        && (forall id :: id in old(foreignDocuments) ==> (id in foreignDocuments <==> id != ids[0]))
        && foreignOrder == Without(old(foreignOrder), {ids[0]})
      ensures document.remainingLifetime > 0 ==>
        foreignDocuments == old(foreignDocuments) && foreignOrder == old(foreignOrder)
    {
      document.remainingLifetime := document.remainingLifetime - 1;
      if document.remainingLifetime <= 0 {
        document.Dispose();
        DeleteIds(ids);
        assert (set id | id in ids) == {ids[0]};
      }
    }

    /** Deletes `ids` from the registered foreign documents. */
    method DeleteIds(ids: seq<string>)
      modifies this`foreignDocuments, this`foreignOrder
      ensures forall id :: id in foreignDocuments <==> id in old(foreignDocuments) && id !in ids
      ensures forall id :: id in foreignDocuments ==> foreignDocuments[id] == old(foreignDocuments)[id]
      ensures foreignOrder == Without(old(foreignOrder), set id | id in ids)
    {
      var j := 0;
      ghost var gone: set<string> := {};
      WithoutNothing(foreignOrder);
      while j < |ids|
        invariant j <= |ids|
        invariant forall id :: id in gone <==> id in ids[..j]
        invariant forall id :: id in foreignDocuments <==> id in old(foreignDocuments) && id !in gone
        invariant forall id :: id in foreignDocuments ==> foreignDocuments[id] == old(foreignDocuments)[id]
        invariant foreignOrder == Without(old(foreignOrder), gone)
      {
        WithoutMore(old(foreignOrder), gone, ids[j]);
        assert ids[..j + 1] == ids[..j] + [ids[j]];
        foreignDocuments := foreignDocuments - {ids[j]};
        foreignOrder := Without(foreignOrder, {ids[j]});
        gone := gone + {ids[j]};
        j := j + 1;
      }
      assert ids[..j] == ids;
      assert gone == set id | id in ids;
    }
  }
}
