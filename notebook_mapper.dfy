/** The older notebook mapper: a notebook presented to CodeMirror clients as
    one editor whose text is the code cells laid end to end, with maps from
    the flat text's lines back to the cells' editors and lines. */
module NotebookMapper {
  import opened Wrappers
  import opened Lines

  /** A CodeMirror editor, used only as an opaque map key and value. */
  class CmEditor { }

  /** The JupyterLab editor wrapping a CodeMirror editor. */
  class IEditor { }

  /** A notebook cell widget, used only as an opaque map key. */
  class Cell { }

  /** What the mapper reads of one cell of the notebook, in notebook order:
      the widget, its two editors, the model's cell type and the editor's text. */
  datatype CellView = CellView(cell: Cell, cmEditor: CmEditor, editor: IEditor, cellType: string, text: string)

  /** Where a flat line comes from: the cell's editor and the flat line of
      that cell's first line (`ICellTransform`). */
  datatype CellTransform = CellTransform(editor: CmEditor, lineShift: nat)

  /** A CodeMirror position. */
  datatype Position = Position(line: int, ch: int)

  /** Why a lookup fails: a flat line no cell occupies, or a cell that the
      last composition did not lay out. */
  datatype MapperError = LineNotMapped(line: int) | CellNotFound

  predicate StartsWith(s: string, prefix: string) {
    |prefix| <= |s| && s[..|prefix|] == prefix
  }

  /** A cell takes part in the flat text when it is a code cell that does not
      start with a cell magic (`%%`). */
  predicate Included(c: CellView) {
    c.cellType == "code" && !StartsWith(c.text, "%%")
  }

  /** The text one cell contributes to the flat text: an included cell's
      text, the newline ending its last line and two blank lines. */
  function CellText(c: CellView): string {
    if Included(c) then c.text + "\n" + "\n\n" else ""
  }

  /** The flat text of a run of cells: their contributions in order. */
  function FlatText(cells: seq<CellView>): string {
    if |cells| == 0 then "" else FlatText(cells[..|cells| - 1]) + CellText(cells[|cells| - 1])
  }

  /** The three maps built from a run of cells, and the flat line at which
      the next included cell would start. */
  datatype Composition = Composition(
    lineCellMap: map<int, CellTransform>,
    cellLineMap: map<Cell, nat>,
    editorMap: map<CmEditor, IEditor>,
    lastLine: nat)

  const Empty := Composition(map[], map[], map[], 0)

  /** Lays out one more cell. Every cell registers its editor pair; an
      included cell also maps each of its lines to itself, records where it
      starts and moves the start of the next cell past two blank lines. */
  function Step(acc: Composition, c: CellView): Composition {
    var editorMap := acc.editorMap[c.cmEditor := c.editor];
    if !Included(c) then acc.(editorMap := editorMap)
    else
      var start := acc.lastLine;
      var n := |Split(c.text)|;
      Composition(
        acc.lineCellMap + CellLines(CellTransform(c.cmEditor, start), n),
        acc.cellLineMap[c.cell := start],
        editorMap,
        start + n + 2)
  }

  /** The `n` flat lines from `t.lineShift` on, each mapped to `t`. */
  function CellLines(t: CellTransform, n: nat): (m: map<int, CellTransform>)
    ensures forall k :: k in m <==> t.lineShift <= k < t.lineShift + n
    ensures forall k :: k in m ==> m[k] == t
  {
    if n == 0 then map[] else CellLines(t, n - 1)[t.lineShift + n - 1 := t]
  }

  /** The layout of a whole run of cells, from nothing. */
  function Compose(cells: seq<CellView>): Composition {
    if |cells| == 0 then Empty
    else Step(Compose(cells[..|cells| - 1]), cells[|cells| - 1])
  }

  /** Updating a union updates its right-hand side. */
  lemma UpdateUnion<K, V>(a: map<K, V>, b: map<K, V>, k: K, v: V)
    ensures (a + b)[k := v] == a + b[k := v]
  {
  }

  /** The included cells of a run, in their order. */
  function IncludedCells(cells: seq<CellView>): (r: seq<CellView>)
    ensures |r| <= |cells|
    ensures forall i :: 0 <= i < |r| ==> Included(r[i])
    ensures forall i :: 0 <= i < |cells| && Included(cells[i]) ==> cells[i] in r
    ensures forall c :: c in r ==> c in cells
  {
    if |cells| == 0 then []
    else IncludedCells(cells[..|cells| - 1]) + if Included(cells[|cells| - 1]) then [cells[|cells| - 1]] else []
  }

  /** A composition with the editor registry forgotten. */
  function WithoutEditors(x: Composition): Composition {
    x.(editorMap := map[])
  }

  /** The lines one cell occupies in the flat text. */
  lemma StepLastLine(acc: Composition, c: CellView)
    ensures Step(acc, c).lastLine == acc.lastLine + if Included(c) then |Split(c.text)| + 2 else 0
  {
  }

  /** The text of an included cell ends in three newlines. */
  lemma IncludedCellText(c: CellView)
    requires Included(c)
    ensures CellText(c) == c.text + "\n\n\n"
  {
    assert c.text + "\n" + "\n\n" == c.text + "\n\n\n";
  }

  /** The flat text is additive over the cells. */
  lemma {:induction false} FlatTextAppend(a: seq<CellView>, b: seq<CellView>)
    ensures FlatText(a + b) == FlatText(a) + FlatText(b)
    decreases |b|
  {
    if |b| == 0 {
      assert a + b == a;
    } else {
      var b' := b[..|b| - 1];
      var c := b[|b| - 1];
      assert (a + b)[..|a + b| - 1] == a + b';
      assert (a + b)[|a + b| - 1] == c;
      FlatTextAppend(a, b');
    }
  }

  /** The flat text is empty or ends a line, and has one more line than
      the layout's line count (the empty line after the last newline). */
  lemma {:induction false} ValueShape(cells: seq<CellView>)
    ensures FlatText(cells) == "" || FlatText(cells)[|FlatText(cells)| - 1] == '\n'
    ensures |Split(FlatText(cells))| == Compose(cells).lastLine + 1
  {
    if |cells| == 0 {
      SplitSingle("");
    } else {
      var init := cells[..|cells| - 1];
      var c := cells[|cells| - 1];
      ValueShape(init);
      StepLastLine(Compose(init), c);
      if Included(c) {
        IncludedCellText(c);
        var v, w := FlatText(init), c.text + "\n\n\n";
        assert FlatText(cells) == v + w;
        SplitAfterLineEnd(v, w);
        ThreeNewlines(c.text, "");
        assert w + "" == w;
        SplitSingle("");
        assert |Split(v + w)| == |Split(v)| - 1 + |Split(c.text)| + 3;
      } else {
        assert FlatText(cells) == FlatText(init);
      }
    }
  }

  /** The lines of `text` followed by three newlines and `rest`: the text's
      lines, two empty lines, then the lines of `rest`. */
  lemma ThreeNewlines(text: string, rest: string)
    ensures Split(text + "\n\n\n" + rest) == Split(text) + ["", ""] + Split(rest)
  {
    SplitSingle("");
    assert text + "\n\n\n" + rest == text + "\n" + ("" + "\n" + ("" + "\n" + rest));
    SplitConcat(text, "" + "\n" + ("" + "\n" + rest));
    SplitConcat("", "" + "\n" + rest);
    SplitConcat("", rest);
    assert "" + "\n" + rest == "\n" + rest;
  }

  /** Every mapped flat line lies before the layout's end, and so does every
      cell's first line, its last line and its two separator lines. */
  lemma {:induction false} ComposeKeys(cells: seq<CellView>)
    ensures forall k :: k in Compose(cells).lineCellMap ==> 0 <= k < Compose(cells).lastLine
    ensures forall x :: x in Compose(cells).cellLineMap ==> Compose(cells).cellLineMap[x] + 3 <= Compose(cells).lastLine
  {
    if |cells| > 0 {
      ComposeKeys(cells[..|cells| - 1]);
    }
  }

  /** Laying out more cells never changes what an earlier prefix mapped. */
  lemma {:induction false} ComposeExtends(cells: seq<CellView>, j: nat)
    requires j <= |cells|
    ensures Compose(cells[..j]).lastLine <= Compose(cells).lastLine
    ensures forall k :: k in Compose(cells[..j]).lineCellMap ==>
      k in Compose(cells).lineCellMap && Compose(cells).lineCellMap[k] == Compose(cells[..j]).lineCellMap[k]
    ensures forall k :: k in Compose(cells).lineCellMap && k < Compose(cells[..j]).lastLine ==>
      k in Compose(cells[..j]).lineCellMap
    decreases |cells|
  {
    if j == |cells| {
      assert cells[..j] == cells;
    } else {
      var init := cells[..|cells| - 1];
      assert init[..j] == cells[..j];
      ComposeExtends(init, j);
      ComposeKeys(cells[..j]);
    }
  }

  /** The flat lines an included cell occupies: they start at the line count
      of the cells before it, each maps to that cell's editor with that start
      as its shift, and the cell's two separator lines are not mapped. */
  lemma CellLinesMapped(cells: seq<CellView>, j: nat)
    requires j < |cells| && Included(cells[j])
    ensures var s, n := Compose(cells[..j]).lastLine, |Split(cells[j].text)|;
      && Compose(cells[..j + 1]).lastLine == s + n + 2
      && (forall k :: s <= k < s + n ==>
            k in Compose(cells).lineCellMap &&
            Compose(cells).lineCellMap[k] == CellTransform(cells[j].cmEditor, s))
      && s + n !in Compose(cells).lineCellMap
      && s + n + 1 !in Compose(cells).lineCellMap
  {
    var s, n := Compose(cells[..j]).lastLine, |Split(cells[j].text)|;
    assert cells[..j + 1][..j] == cells[..j];
    ComposeKeys(cells[..j]);
    ComposeExtends(cells, j + 1);
    var q := Compose(cells[..j + 1]);
    assert s + n !in q.lineCellMap;
    assert s + n + 1 !in q.lineCellMap;
  }

  /** The flat text's lines at an included cell's place are the cell's own
      lines, followed by two empty separator lines. */
  lemma CellLinesText(cells: seq<CellView>, j: nat)
    requires j < |cells| && Included(cells[j])
    ensures LinesAt(Split(FlatText(cells)), Compose(cells[..j]).lastLine, Split(cells[j].text))
  {
    CellValue(cells, j);
    ValueShape(cells[..j]);
    LinesAround(FlatText(cells), Compose(cells[..j]).lastLine, FlatText(cells[..j]), cells[j].text, FlatText(cells[j + 1..]));
  }

  /** `lines` holds `cellLines` from index `s` on, then two empty lines. */
  predicate LinesAt(lines: seq<string>, s: nat, cellLines: seq<string>) {
    && s + |cellLines| + 1 < |lines|
    && (forall i :: 0 <= i < |cellLines| ==> lines[s + i] == cellLines[i])
    && lines[s + |cellLines|] == "" && lines[s + |cellLines| + 1] == ""
  }

  /** Lines of a text `p` that is empty or ends a line, followed by `text`,
      three newlines and `r`: `text`'s lines sit right after `p`'s complete
      lines, and the next two lines are empty. */
  lemma LinesAround(v: string, s: nat, p: string, text: string, r: string)
    requires p == "" || p[|p| - 1] == '\n'
    requires s == |Split(p)| - 1
    requires v == p + (text + "\n\n\n" + r)
    ensures LinesAt(Split(v), s, Split(text))
  {
    var w := text + "\n\n\n" + r;
    SplitAfterLineEnd(p, w);
    ThreeNewlines(text, r);
    LinesAtConcat(Split(p)[..|Split(p)| - 1], Split(text), Split(r));
  }

  /** A run of lines followed by two empty lines sits right after its head. */
  lemma LinesAtConcat(head: seq<string>, cellLines: seq<string>, rest: seq<string>)
    ensures LinesAt(head + (cellLines + ["", ""] + rest), |head|, cellLines)
  {
    var lines := head + (cellLines + ["", ""] + rest);
    assert forall i :: 0 <= i < |cellLines| ==> lines[|head| + i] == cellLines[i];
  }

  /** The flat text is that of the cells before, then this cell's text and
      three newlines, then that of the cells after. */
  lemma CellValue(cells: seq<CellView>, j: nat)
    requires j < |cells| && Included(cells[j])
    ensures FlatText(cells) == FlatText(cells[..j]) + (cells[j].text + "\n\n\n" + FlatText(cells[j + 1..]))
  {
    var c := cells[j];
    var before, after := cells[..j], cells[j + 1..];
    assert cells == before + ([c] + after);
    FlatTextAppend(before, [c] + after);
    FlatTextAppend([c], after);
    assert [c][..0] == [];
    IncludedCellText(c);
    assert FlatText([c]) == c.text + "\n\n\n";
  }

  /** Consecutive included cells are separated by exactly two unmapped lines:
      skipped cells in between take no lines. */
  lemma {:induction false} NextCellStart(cells: seq<CellView>, j: nat, k: nat)
    requires j < k <= |cells| && Included(cells[j])
    requires forall m :: j < m < k ==> !Included(cells[m])
    ensures Compose(cells[..k]).lastLine == Compose(cells[..j]).lastLine + |Split(cells[j].text)| + 2
    decreases k
  {
    assert cells[..k][..k - 1] == cells[..k - 1];
    StepLastLine(Compose(cells[..k - 1]), cells[k - 1]);
    if k - 1 > j {
      NextCellStart(cells, j, k - 1);
    }
  }

  /** No two views in the run are of the same cell widget. */
  predicate DistinctCells(cells: seq<CellView>) {
    forall a, b :: 0 <= a < b < |cells| ==> cells[a].cell != cells[b].cell
  }

  /** With distinct cells, an included cell's recorded start is where its
      lines begin, and a skipped cell has no recorded start. */
  lemma {:induction false} CellShiftRecorded(cells: seq<CellView>, j: nat)
    requires j < |cells| && DistinctCells(cells)
    ensures Included(cells[j]) ==>
      cells[j].cell in Compose(cells).cellLineMap &&
      Compose(cells).cellLineMap[cells[j].cell] == Compose(cells[..j]).lastLine
    ensures !Included(cells[j]) ==> cells[j].cell !in Compose(cells).cellLineMap
    decreases |cells|
  {
    var init := cells[..|cells| - 1];
    if j == |cells| - 1 {
      if !Included(cells[j]) {
        assert forall m :: 0 <= m < |init| ==> init[m].cell != cells[j].cell;
        CellNeverIncluded(init, cells[j].cell);
      }
    } else {
      assert init[..j] == cells[..j];
      assert init[j] == cells[j];
      CellShiftRecorded(init, j);
    }
  }

  /** A cell that appears in no view of the run has no recorded start. */
  lemma {:induction false} CellNeverIncluded(cells: seq<CellView>, x: Cell)
    requires forall m :: 0 <= m < |cells| ==> cells[m].cell != x
    ensures x !in Compose(cells).cellLineMap
  {
    if |cells| > 0 {
      CellNeverIncluded(cells[..|cells| - 1], x);
    }
  }

  /** Every mapped flat line belongs to exactly the included cell laid out
      around it, so the lines between cells are the only unmapped ones. */
  lemma {:induction false} MappedLineHasCell(cells: seq<CellView>, k: int)
    requires k in Compose(cells).lineCellMap
    ensures exists j :: (0 <= j < |cells| && Included(cells[j]) &&
      Compose(cells[..j]).lastLine <= k < Compose(cells[..j]).lastLine + |Split(cells[j].text)| &&
      Compose(cells).lineCellMap[k] == CellTransform(cells[j].cmEditor, Compose(cells[..j]).lastLine))
  {
    var init := cells[..|cells| - 1];
    var c := cells[|cells| - 1];
    var jLast := |cells| - 1;
    assert cells[..jLast] == init;
    if k in Compose(init).lineCellMap {
      MappedLineHasCell(init, k);
      var j :| 0 <= j < |init| && Included(init[j]) &&
        Compose(init[..j]).lastLine <= k < Compose(init[..j]).lastLine + |Split(init[j].text)| &&
        Compose(init).lineCellMap[k] == CellTransform(init[j].cmEditor, Compose(init[..j]).lastLine);
      assert init[..j] == cells[..j];
      assert init[j] == cells[j];
      ComposeExtends(cells, |cells| - 1);
    } else {
      assert Included(c);
      assert Compose(cells[..jLast]).lastLine <= k < Compose(cells[..jLast]).lastLine + |Split(cells[jLast].text)|;
    }
  }

  /** Skipped cells change nothing but the editor registry: the text and the
      line maps are exactly those of the included cells alone. */
  lemma {:induction false} OnlyIncludedCellsCount(cells: seq<CellView>)
    ensures FlatText(cells) == FlatText(IncludedCells(cells))
    ensures WithoutEditors(Compose(cells)) == WithoutEditors(Compose(IncludedCells(cells)))
  {
    if |cells| > 0 {
      var init := cells[..|cells| - 1];
      var c := cells[|cells| - 1];
      OnlyIncludedCellsCount(init);
      var ic := IncludedCells(init);
      if Included(c) {
        var ic' := ic + [c];
        assert ic'[..|ic'| - 1] == ic;
        StepIgnoresEditors(Compose(init), Compose(ic), c);
      } else {
        assert IncludedCells(cells) == ic;
      }
    }
  }

  /** The layout of a cell does not depend on the editor registry so far. */
  lemma StepIgnoresEditors(a: Composition, b: Composition, c: CellView)
    requires WithoutEditors(a) == WithoutEditors(b)
    ensures WithoutEditors(Step(a, c)) == WithoutEditors(Step(b, c))
  {
    assert a.lineCellMap == b.lineCellMap;
    assert a.cellLineMap == b.cellLineMap && a.lastLine == b.lastLine;
  }

  /** Every cell, included or not, registers its editor pair; with distinct
      editors each maps to its own wrapper. */
  lemma {:induction false} EditorsRegistered(cells: seq<CellView>, j: nat)
    requires j < |cells|
    requires forall a, b :: 0 <= a < b < |cells| ==> cells[a].cmEditor != cells[b].cmEditor
    ensures cells[j].cmEditor in Compose(cells).editorMap
    ensures Compose(cells).editorMap[cells[j].cmEditor] == cells[j].editor
  {
    var init := cells[..|cells| - 1];
    if j < |cells| - 1 {
      assert init[j] == cells[j];
      EditorsRegistered(init, j);
    }
  }

  /** The notebook seen as a single editor: the three maps that the last
      call of `GetValue` built. */
  class NotebookAsSingleEditor {
    var lineCellMap: map<int, CellTransform>
    var cellLineMap: map<Cell, nat>
    var cmEditorToIEditor: map<CmEditor, IEditor>

    constructor ()
      ensures lineCellMap == map[] && cellLineMap == map[] && cmEditorToIEditor == map[]
    {
      lineCellMap := map[];
      cellLineMap := map[];
      cmEditorToIEditor := map[];
    }

    /** The maps are those of laying out `cells`. */
    ghost predicate Reflects(cells: seq<CellView>)
      reads this
    {
      var c := Compose(cells);
      lineCellMap == c.lineCellMap && cellLineMap == c.cellLineMap && cmEditorToIEditor == c.editorMap
    }

    /** Clears the maps and rebuilds them by walking the cells in order,
        returning the flat text; the outcome is the layout of the current
        cells and nothing earlier. */
    method GetValue(cells: seq<CellView>) returns (value: string)
      modifies this
      ensures value == FlatText(cells)
      ensures Reflects(cells)
    {
      value := "";
      lineCellMap := map[];
      cellLineMap := map[];
      cmEditorToIEditor := map[];
      var lastLine: nat := 0;
      var j := 0;
      while j < |cells|
        invariant 0 <= j <= |cells|
        invariant value == FlatText(cells[..j])
        invariant Composition(lineCellMap, cellLineMap, cmEditorToIEditor, lastLine) == Compose(cells[..j])
      {
        var cell := cells[j];
        assert cells[..j + 1][..j] == cells[..j];
        assert Compose(cells[..j + 1]) == Step(Compose(cells[..j]), cell);
        cmEditorToIEditor := cmEditorToIEditor[cell.cmEditor := cell.editor];
        if cell.cellType == "code" {
          var lines := cell.text;
          if !StartsWith(lines, "%%") {
            value := value + lines + "\n" + "\n\n";
            var cellLines := |Split(lines)|;
            cellLineMap := cellLineMap[cell.cell := lastLine];
            MapCellLines(cell.cmEditor, lastLine, cellLines);
            lastLine := lastLine + cellLines + 2;
          }
        }
        j := j + 1;
      }
      assert cells[..j] == cells;
    }

    /** Maps the `n` flat lines from `start` on to `editor` with shift `start`. */
    method MapCellLines(editor: CmEditor, start: nat, n: nat)
      modifies this`lineCellMap
      ensures lineCellMap == old(lineCellMap) + CellLines(CellTransform(editor, start), n)
    {
      var i := 0;
      while i < n
        invariant 0 <= i <= n
        invariant lineCellMap == old(lineCellMap) + CellLines(CellTransform(editor, start), i)
      {
        UpdateUnion(old(lineCellMap), CellLines(CellTransform(editor, start), i), start + i, CellTransform(editor, start));
        lineCellMap := lineCellMap[start + i := CellTransform(editor, start)];
        i := i + 1;
      }
    }

    /** The editor of the cell holding flat line `pos.line`; fails on an
        unmapped line. */
    function GetEditorAt(pos: Position): (r: Result<CmEditor, MapperError>)
      reads this
      ensures r.Ok? <==> pos.line in lineCellMap
      ensures r.Err? ==> r.error == LineNotMapped(pos.line)
    {
      if pos.line in lineCellMap then Ok(lineCellMap[pos.line].editor) else Err(LineNotMapped(pos.line))
    }

    /** A flat position as a position in its cell's editor: same column, line
        less the cell's shift; fails on an unmapped line. */
    function Transform(pos: Position): (r: Result<Position, MapperError>)
      reads this
      ensures r.Ok? <==> pos.line in lineCellMap
      ensures r.Ok? ==> r.value.ch == pos.ch
      ensures r.Err? ==> r.error == LineNotMapped(pos.line)
    {
      if pos.line in lineCellMap then Ok(pos.(line := pos.line - lineCellMap[pos.line].lineShift))
      else Err(LineNotMapped(pos.line))
    }

    /** A position hit in `cell`'s editor as a flat position: same column,
        line plus the cell's recorded start; fails for a cell with none. */
    function CoordsCharShift(cell: Cell, local: Position): (r: Result<Position, MapperError>)
      reads this
      ensures r.Ok? <==> cell in cellLineMap
      ensures r.Ok? ==> r.value.ch == local.ch
      ensures r.Err? ==> r.error == CellNotFound
    {
      if cell in cellLineMap then Ok(local.(line := local.line + cellLineMap[cell]))
      else Err(CellNotFound)
    }
  }

  /** After laying out distinct cells, each line of an included cell maps to
      that cell's editor and local line, and shifting that local line by the
      cell's recorded start gives the flat line back. */
  lemma TransformRoundTrip(nb: NotebookAsSingleEditor, cells: seq<CellView>, j: nat, i: nat, ch: int)
    requires nb.Reflects(cells) && DistinctCells(cells)
    requires j < |cells| && Included(cells[j]) && i < |Split(cells[j].text)|
    ensures var flat := Position(Compose(cells[..j]).lastLine + i, ch);
      && nb.GetEditorAt(flat) == Ok(cells[j].cmEditor)
      && nb.Transform(flat) == Ok(Position(i, ch))
      && nb.CoordsCharShift(cells[j].cell, Position(i, ch)) == Ok(flat)
  {
    CellLinesMapped(cells, j);
    CellShiftRecorded(cells, j);
  }

  /** Any mapped flat line comes out as a line of its cell's editor, between
      0 and that cell's line count. */
  lemma TransformIsLocal(nb: NotebookAsSingleEditor, cells: seq<CellView>, pos: Position)
    requires nb.Reflects(cells) && pos.line in nb.lineCellMap
    ensures exists j :: (0 <= j < |cells| && Included(cells[j]) &&
      nb.GetEditorAt(pos) == Ok(cells[j].cmEditor) &&
      nb.Transform(pos).Ok? && 0 <= nb.Transform(pos).value.line < |Split(cells[j].text)|)
  {
    MappedLineHasCell(cells, pos.line);
  }

  /** The two separator lines after an included cell belong to no cell, so
      looking up their editor or local position fails. */
  lemma SeparatorLinesFail(nb: NotebookAsSingleEditor, cells: seq<CellView>, j: nat, ch: int)
    requires nb.Reflects(cells)
    requires j < |cells| && Included(cells[j])
    ensures var sep := Compose(cells[..j]).lastLine + |Split(cells[j].text)|;
      && nb.GetEditorAt(Position(sep, ch)) == Err(LineNotMapped(sep))
      && nb.Transform(Position(sep, ch)) == Err(LineNotMapped(sep))
      && nb.GetEditorAt(Position(sep + 1, ch)) == Err(LineNotMapped(sep + 1))
      && nb.Transform(Position(sep + 1, ch)) == Err(LineNotMapped(sep + 1))
  {
    CellLinesMapped(cells, j);
  }

  /** A skipped cell (not code, or a `%%` cell) has no recorded start, so a
      hit in its editor cannot be shifted. */
  lemma SkippedCellNotFound(nb: NotebookAsSingleEditor, cells: seq<CellView>, j: nat, local: Position)
    requires nb.Reflects(cells) && DistinctCells(cells)
    requires j < |cells| && !Included(cells[j])
    ensures nb.CoordsCharShift(cells[j].cell, local) == Err(CellNotFound)
  {
    CellShiftRecorded(cells, j);
  }
}
