/** The `Table` object of src/coreComponents/codingUtilities/Table.cpp: its
  * columns, stored rows, title and margins, and the steps of `draw` that
  * update them in place. Each method is proved against the functions of
  * `TableLayout`; `DrawnFrameCloses` there states what the drawing
  * promises. */
module Table {
  import opened TableLayout

  class Table {
    var columns: seq<Column>
    var cellsRows: seq<seq<string>>
    var tableTitle: string
    var borderMargin: nat
    var columnMargin: nat
    /** `marginTitle`, a constant of Table.hpp. */
    const marginTitle: nat

    /** `setMargin` is the only writer of the margins and keeps them tied. */
    predicate Valid()
      reads this
    {
      columnMargin == 2 * borderMargin + 1
    }

    /** A table whose columns are `headers`, centred and enabled; the margin
      * is `MarginValue::medium`, whose value is `mediumMargin`. */
    constructor FromHeaders(headers: seq<string>, mediumMargin: nat, marginTitle: nat)
      ensures Valid() && borderMargin == mediumMargin
      ensures columns == HeaderColumns(headers) && cellsRows == [] && tableTitle == ""
      ensures this.marginTitle == marginTitle
    {
      this.marginTitle := marginTitle;
      columns, cellsRows, tableTitle := [], [], "";
      borderMargin, columnMargin := 0, 1;
      new;
      SetMargin(mediumMargin);
      var idx := 0;
      while idx < |headers|
        invariant 0 <= idx <= |headers|
        invariant columns == HeaderColumns(headers)[..idx]
        invariant Valid() && borderMargin == mediumMargin && cellsRows == [] && tableTitle == ""
      {
        columns := columns + [Column(ColumnParam([headers[idx]], Middle, true), [], "")];
        idx := idx + 1;
      }
    }

    /** A table whose columns are the enabled ones of `columnParameter`. */
    constructor FromParams(columnParameter: seq<ColumnParam>, mediumMargin: nat, marginTitle: nat)
      ensures Valid() && borderMargin == mediumMargin
      ensures columns == EnabledColumns(columnParameter) && cellsRows == [] && tableTitle == ""
      ensures this.marginTitle == marginTitle
    {
      this.marginTitle := marginTitle;
      columns, cellsRows, tableTitle := [], [], "";
      borderMargin, columnMargin := 0, 1;
      new;
      SetMargin(mediumMargin);
      var idx := 0;
      while idx < |columnParameter|
        invariant 0 <= idx <= |columnParameter|
        invariant columns == EnabledColumns(columnParameter[..idx])
        invariant Valid() && borderMargin == mediumMargin && cellsRows == [] && tableTitle == ""
      {
        assert columnParameter[..idx + 1][..idx] == columnParameter[..idx];
        if columnParameter[idx].enabled {
          columns := columns + [Column(columnParameter[idx], [], "")];
        }
        idx := idx + 1;
      }
      assert columnParameter[..|columnParameter|] == columnParameter;
    }

    method SetMargin(marginType: nat)
      modifies this
      ensures borderMargin == marginType && columnMargin == 2 * marginType + 1 && Valid()
      ensures columns == old(columns) && cellsRows == old(cellsRows) && tableTitle == old(tableTitle)
    {
      borderMargin := marginType;
      columnMargin := marginType * 2 + 1;
    }

    method SetTitle(title: string)
      modifies this
      ensures tableTitle == title
      ensures columns == old(columns) && cellsRows == old(cellsRows)
      ensures borderMargin == old(borderMargin) && columnMargin == old(columnMargin)
    {
      tableTitle := title;
    }

    function GetTitle(): (title: string)
      reads this
      ensures title == tableTitle
    {
      tableTitle
    }

    /** Stores every row of `tableRows` without its cells in disabled
      * columns. A row longer than the column list would read past it. */
    method AddRowsFromVectors(tableRows: seq<seq<string>>)
      requires forall i :: 0 <= i < |tableRows| ==> |tableRows[i]| <= |columns|
      modifies this
      ensures columns == old(columns) && tableTitle == old(tableTitle)
      ensures cellsRows == old(cellsRows) + StoredRows(tableRows, columns)
      ensures borderMargin == old(borderMargin) && columnMargin == old(columnMargin)
    {
      var stored := cellsRows;
      var indexRow := 0;
      while indexRow < |tableRows|
        invariant unchanged(this)
        invariant 0 <= indexRow <= |tableRows|
        invariant stored == old(cellsRows) + StoredRows(tableRows[..indexRow], columns)
      {
        var row := tableRows[indexRow];
        var rowsValues := [];
        var indexValue := 0;
        while indexValue < |row|
          invariant 0 <= indexValue <= |row|
          invariant rowsValues == EnabledCells(row[..indexValue], columns)
        {
          assert row[..indexValue + 1][..indexValue] == row[..indexValue];
          var cellValue := row[indexValue];
          if columns[indexValue].parameter.enabled {
            rowsValues := rowsValues + [cellValue];
          }
          indexValue := indexValue + 1;
        }
        assert row[..|row|] == row;
        assert StoredRows(tableRows[..indexRow + 1], columns) == StoredRows(tableRows[..indexRow], columns) + [rowsValues];
        stored := stored + [rowsValues];
        indexRow := indexRow + 1;
      }
      assert tableRows[..|tableRows|] == tableRows;
      cellsRows := stored;
    }

    /** The lines `getline` extracts from a string stream over `s`. */
    static method GetLines(s: string) returns (parts: seq<string>)
      ensures parts == SplitLines(s)
    {
      parts := [];
      var rest := s;
      while |rest| > 0
        invariant parts + SplitLines(rest) == SplitLines(s)
        decreases |rest|
      {
        var k := 0;
        while k < |rest| && rest[k] != '\n'
          invariant 0 <= k <= |rest|
          invariant forall i :: 0 <= i < k ==> rest[i] != '\n'
        {
          k := k + 1;
        }
        FirstNewlineIs(rest, k);
        ghost var before := parts;
        parts := parts + [rest[..k]];
        if k == |rest| {
          assert rest[..k] == rest && SplitLines(rest) == [rest];
          assert parts + SplitLines([]) == before + SplitLines(rest);
          rest := [];
        } else {
          assert SplitLines(rest) == [rest[..k]] + SplitLines(rest[k + 1..]);
          assert parts + SplitLines(rest[k + 1..]) == before + SplitLines(rest);
          rest := rest[k + 1..];
        }
      }
    }

    /** Splits every column's first header name into its lines, appending
      * them to `splitHeader`, and raises `largestHeaderVectorSize` to the
      * largest line count. */
    method ParseAndStoreHeaderSections(largestHeaderVectorSize: nat, splitHeader: seq<seq<string>>)
      returns (largest: nat, split: seq<seq<string>>)
      requires forall c :: 0 <= c < |columns| ==> |columns[c].parameter.headerName| > 0
      ensures split == splitHeader + HeaderSplits(columns)
      ensures largest == LargestCount(HeaderSplits(columns), largestHeaderVectorSize)
    {
      ghost var H := HeaderSplits(columns);
      largest, split := largestHeaderVectorSize, splitHeader;
      var columnParamIdx := 0;
      while columnParamIdx < |columns|
        invariant 0 <= columnParamIdx <= |columns|
        invariant split == splitHeader + H[..columnParamIdx]
        invariant largest == LargestCount(H[..columnParamIdx], largestHeaderVectorSize)
      {
        var splitHeaderParts := GetLines(columns[columnParamIdx].parameter.headerName[0]);
        var cellSize := |splitHeaderParts|;
        assert H[..columnParamIdx + 1][..columnParamIdx] == H[..columnParamIdx];
        largest := Max(largest, cellSize);
        split := split + [splitHeaderParts];
        columnParamIdx := columnParamIdx + 1;
      }
      assert H[..|columns|] == H;
    }

    /** Pads every column's split header with `" "` lines up to `largest`
      * and stores it as the column's header lines. */
    method AdjustHeaderSizesAndStore(largestHeaderVectorSize: nat, splitHeader: seq<seq<string>>)
      requires |splitHeader| == |columns|
      modifies this
      ensures columns == AdjustedHeaders(old(columns), splitHeader, largestHeaderVectorSize)
      ensures cellsRows == old(cellsRows) && tableTitle == old(tableTitle)
      ensures borderMargin == old(borderMargin) && columnMargin == old(columnMargin)
    {
      ghost var A := AdjustedHeaders(columns, splitHeader, largestHeaderVectorSize);
      var cols := columns;
      var columnParamIdx := 0;
      while columnParamIdx < |cols|
        invariant unchanged(this)
        invariant 0 <= columnParamIdx <= |cols| == |columns|
        invariant cols == A[..columnParamIdx] + columns[columnParamIdx..]
      {
        var lines := splitHeader[columnParamIdx];
        if |lines| < largestHeaderVectorSize {
          lines := lines + seq(largestHeaderVectorSize - |lines|, j => " ");
        }
        var col := cols[columnParamIdx];
        cols := cols[columnParamIdx := col.(parameter := col.parameter.(headerName := lines))];
        assert cols == A[..columnParamIdx + 1] + columns[columnParamIdx + 1..];
        columnParamIdx := columnParamIdx + 1;
      }
      columns := cols;
    }

    /** Sets every column's widest string: the first longest of its header
      * lines, then of its values for the stored rows. */
    method FindAndSetMaxStringSize()
      requires forall c :: 0 <= c < |columns| ==>
        |columns[c].parameter.headerName| > 0 && |cellsRows| <= |columns[c].columnValues|
      modifies this
      ensures cellsRows == old(cellsRows) && tableTitle == old(tableTitle)
      ensures columns == LongestSet(old(columns), |cellsRows|)
      ensures borderMargin == old(borderMargin) && columnMargin == old(columnMargin)
    {
      ghost var L := LongestSet(columns, |cellsRows|);
      var cols, nbRows := columns, |cellsRows|;
      var idxColumn := 0;
      while idxColumn < |cols|
        invariant unchanged(this)
        invariant 0 <= idxColumn <= |cols| == |columns|
        invariant cols == L[..idxColumn] + columns[idxColumn..]
      {
        var col := cols[idxColumn];
        var maxStringSize := LongestCell(col.parameter.headerName, col.columnValues, nbRows);
        cols := cols[idxColumn := col.(maxStringSize := maxStringSize)];
        assert cols == L[..idxColumn + 1] + columns[idxColumn + 1..];
        idxColumn := idxColumn + 1;
      }
      columns := cols;
    }

    /** The first longest header line, then a value of the first `nbRows`
      * only if strictly longer: the inner loop of `findAndSetMaxStringSize`. */
    static method LongestCell(header: seq<string>, values: seq<string>, nbRows: nat) returns (maxStringSize: string)
      requires |header| > 0 && nbRows <= |values|
      ensures maxStringSize == FirstLongest(header + values[..nbRows])
    {
      maxStringSize := FirstLongest(header);
      assert header + values[..0] == header;
      var idxRow := 0;
      while idxRow < nbRows
        invariant 0 <= idxRow <= nbRows
        invariant maxStringSize == FirstLongest(header + values[..idxRow])
      {
        var strings := header + values[..idxRow + 1];
        assert strings[..|strings| - 1] == header + values[..idxRow];
        var cell := values[idxRow];
        if |maxStringSize| < |cell| {
          maxStringSize := cell;
        }
        idxRow := idxRow + 1;
      }
    }

    /** Widens every column by the title line's excess over the section
      * line, shared out and rounded up, and the last column by the column
      * margin too; each widest string is right-aligned in its new width. */
    method ComputeAndSetMaxStringSize(sectionlineLength: nat, titleLineLength: nat)
      requires |columns| > 0 && sectionlineLength < titleLineLength
      modifies this
      ensures cellsRows == old(cellsRows) && tableTitle == old(tableTitle)
      ensures borderMargin == old(borderMargin) && columnMargin == old(columnMargin)
      ensures columns == WidenedColumns(old(columns), ExtraPerColumn(titleLineLength - sectionlineLength, |old(columns)|), columnMargin)
    {
      var extraLines := titleLineLength - sectionlineLength;
      var extraLinesPerColumn := ExtraPerColumn(extraLines, |columns|);
      ghost var W := WidenedColumns(columns, extraLinesPerColumn, columnMargin);
      var cols := columns;
      var idxColumn := 0;
      while idxColumn < |cols|
        invariant unchanged(this)
        invariant 0 <= idxColumn <= |cols| == |columns|
        invariant forall c :: 0 <= c < |cols| ==> cols[c] == if c < idxColumn then W[c] else columns[c]
      {
        var col := cols[idxColumn];
        var newStringSize := extraLinesPerColumn + |col.maxStringSize|;
        if idxColumn == |cols| - 1 || |cols| == 1 {
          cols := cols[idxColumn := col.(maxStringSize := Format(col.maxStringSize, newStringSize + columnMargin, Right, ' '))];
        } else {
          cols := cols[idxColumn := col.(maxStringSize := Format(col.maxStringSize, newStringSize, Right, ' '))];
        }
        idxColumn := idxColumn + 1;
      }
      assert cols == W;
      columns := cols;
    }

    /** The first half of `computeAndBuildSeparator`: centres the title over
      * its title line and widens the columns when the title line is the
      * longer. */
    method FrameTitle()
      requires |columns| > 0
      modifies this
      ensures cellsRows == old(cellsRows)
      ensures borderMargin == old(borderMargin) && columnMargin == old(columnMargin)
      ensures tableTitle == CentredTitle(old(tableTitle), marginTitle)
      ensures columns == FramedColumns(old(columns), old(tableTitle), borderMargin, columnMargin, marginTitle)
    {
      var titleLineLength := |tableTitle| + marginTitle * 2;
      if tableTitle != [] {
        tableTitle := Format(tableTitle, titleLineLength, Middle, ' ');
      }
      var sectionlineLength := SectionWidth(columns, borderMargin, columnMargin);
      if sectionlineLength < titleLineLength {
        ComputeAndSetMaxStringSize(sectionlineLength, titleLineLength);
      }
    }

    /** Centres the title, widens the columns for it, and appends the
      * section separator to `sectionSeparator`; the top separator is as
      * long as the result. */
    method ComputeAndBuildSeparator(sectionSeparator: string) returns (topSeparator: string, separator: string)
      requires |columns| > 0 && Valid()
      modifies this
      ensures cellsRows == old(cellsRows) && Valid()
      ensures borderMargin == old(borderMargin) && columnMargin == old(columnMargin)
      ensures tableTitle == CentredTitle(old(tableTitle), marginTitle)
      ensures columns == FramedColumns(old(columns), old(tableTitle), borderMargin, columnMargin, marginTitle)
      ensures separator == sectionSeparator + Separator(columns, borderMargin, columnMargin)
      ensures |separator| >= 2 && topSeparator == TopSeparator(separator)
    {
      FrameTitle();
      separator := BuildSeparator(columns, borderMargin, columnMargin, sectionSeparator);
      SeparatorLength(columns, borderMargin, columnMargin);
      topSeparator := "+" + Fill(|separator| - 2, '-') + "+";
    }

    /** The width loop of `computeAndBuildSeparator`: the columns' widths
      * plus the inner borders and the two outer margins. */
    static method SectionWidth(columns: seq<Column>, borderMargin: nat, columnMargin: nat)
      returns (sectionlineLength: nat)
      requires |columns| > 0
      ensures sectionlineLength == SectionLineLength(columns, borderMargin, columnMargin)
    {
      var nbSpaceBetweenColumn := (|columns| - 1) * columnMargin + borderMargin * 2;
      sectionlineLength := 0;
      var i := 0;
      while i < |columns|
        invariant 0 <= i <= |columns|
        invariant sectionlineLength == SumWidths(columns, i)
      {
        sectionlineLength := sectionlineLength + |columns[i].maxStringSize|;
        i := i + 1;
      }
      sectionlineLength := sectionlineLength + nbSpaceBetweenColumn;
    }

    /** The separator loop of `computeAndBuildSeparator`. */
    static method BuildSeparator(columns: seq<Column>, borderMargin: nat, columnMargin: nat, sectionSeparator: string)
      returns (separator: string)
      requires |columns| > 0 && columnMargin > 0
      ensures separator == sectionSeparator + Separator(columns, borderMargin, columnMargin)
    {
      separator := sectionSeparator;
      if |columns| == 1 {
        separator := separator + ("+" + Fill(|columns[0].maxStringSize| + borderMargin - 1 + columnMargin, '-') + "+");
      } else {
        var idxColumn := 0;
        while idxColumn < |columns|
          invariant 0 <= idxColumn <= |columns|
          invariant separator == sectionSeparator + SeparatorParts(columns, borderMargin, columnMargin, idxColumn)
        {
          var cellSize := |columns[idxColumn].maxStringSize|;
          var part;
          if idxColumn == 0 {
            part := "+" + Fill(cellSize + borderMargin, '-');
          } else if idxColumn == |columns| - 1 {
            part := Format("+", columnMargin, Middle, '-') + Format("+", cellSize + borderMargin + 1, Right, '-');
          } else {
            part := Format("+", columnMargin, Middle, '-') + Fill(cellSize, '-');
          }
          assert part == SeparatorPart(columns, borderMargin, columnMargin, idxColumn);
          assert SeparatorParts(columns, borderMargin, columnMargin, idxColumn + 1)
            == SeparatorParts(columns, borderMargin, columnMargin, idxColumn) + part;
          AppendAssociates(sectionSeparator, SeparatorParts(columns, borderMargin, columnMargin, idxColumn), part);
          separator := separator + part;
          idxColumn := idxColumn + 1;
        }
      }
    }

    /** Draws the first `nbRows` rows of `section` after `rows`, one line
      * each, then the section separator unless there were none. A row
      * missing from a column's header lines or values would be read out of
      * range. */
    method BuildSectionRows(sectionSeparator: string, rows: string, nbRows: nat, section: TableSection)
      returns (drawn: string)
      requires forall c, r :: 0 <= c < |columns| && 0 <= r < nbRows ==> HasRow(columns[c], r, section)
      ensures drawn == rows + SectionRows(columns, sectionSeparator, nbRows, section, borderMargin, columnMargin)
    {
      ghost var lines := SectionLines(columns, section, borderMargin, columnMargin, nbRows);
      drawn := rows;
      var idxRow := 0;
      while idxRow < nbRows
        invariant 0 <= idxRow <= nbRows
        invariant drawn == rows + Concat(lines[..idxRow])
      {
        var line := BuildRowLine(columns, idxRow, section, borderMargin, columnMargin);
        assert lines[..idxRow + 1][..idxRow] == lines[..idxRow];
        AppendAssociates(rows, Concat(lines[..idxRow]), line);
        drawn := drawn + line;
        idxRow := idxRow + 1;
      }
      assert lines[..nbRows] == lines;
      if nbRows != 0 {
        AppendAssociates(rows, Concat(lines), sectionSeparator + "\n");
        drawn := drawn + (sectionSeparator + "\n");
      }
    }

    /** Line `r` of a section: the body of the row loop of `buildSectionRows`. */
    static method BuildRowLine(columns: seq<Column>, r: nat, section: TableSection, borderMargin: nat, columnMargin: nat)
      returns (line: string)
      requires forall c :: 0 <= c < |columns| ==> HasRow(columns[c], r, section)
      ensures line == RowLine(columns, r, section, borderMargin, columnMargin)
    {
      line := Format("|", 1 + borderMargin, Left, ' ');
      var cells := BuildRowCells(columns, r, section, columnMargin);
      line := line + cells;
      if |columns| == 1 {
        line := line + Format("|", columnMargin, Right, ' ');
      } else {
        line := line + Format("|", borderMargin + 1, Right, ' ');
      }
      line := line + "\n";
    }

    /** The cells and inner borders of row `r`, the inner loop of
      * `buildSectionRows`. */
    static method BuildRowCells(columns: seq<Column>, r: nat, section: TableSection, columnMargin: nat)
      returns (cells: string)
      requires forall c :: 0 <= c < |columns| ==> HasRow(columns[c], r, section)
      ensures cells == RowCells(columns, r, section, columnMargin, |columns|)
    {
      cells := "";
      var idxColumn := 0;
      while idxColumn < |columns|
        invariant 0 <= idxColumn <= |columns|
        invariant cells == RowCells(columns, r, section, columnMargin, idxColumn)
      {
        var col := columns[idxColumn];
        var cell := Cell(col, r, section);
        cells := cells + BuildValueCell(col.parameter.alignment, cell, |col.maxStringSize|);
        if idxColumn < |columns| - 1 {
          cells := cells + Format("|", columnMargin, Middle, ' ');
        }
        idxColumn := idxColumn + 1;
      }
    }

    /** Appends to every column its cell of every stored row. A stored row
      * shorter than the column list would be read out of range. */
    method FillColumnsValuesFromCellsRows()
      requires forall r :: 0 <= r < |cellsRows| ==> |columns| <= |cellsRows[r]|
      modifies this
      ensures cellsRows == old(cellsRows) && tableTitle == old(tableTitle)
      ensures borderMargin == old(borderMargin) && columnMargin == old(columnMargin)
      ensures columns == WithValues(old(columns), cellsRows)
    {
      var cols, rows := columns, cellsRows;
      assert forall c :: 0 <= c < |cols| ==> ColumnOf(rows[..0], c) == [] && WithValues(columns, rows[..0])[c] == cols[c];
      var idxRow := 0;
      while idxRow < |rows|
        invariant unchanged(this)
        invariant 0 <= idxRow <= |rows|
        invariant forall i :: 0 <= i < idxRow ==> |columns| <= |rows[..idxRow][i]|
        invariant cols == WithValues(columns, rows[..idxRow])
      {
        assert forall i :: 0 <= i <= idxRow ==> rows[..idxRow + 1][i] == rows[i];
        ghost var before := cols;
        ghost var after := WithValues(columns, rows[..idxRow + 1]);
        var idxColumn := 0;
        while idxColumn < |cols|
          invariant unchanged(this)
          invariant 0 <= idxColumn <= |cols| == |before| == |columns| == |after|
          invariant forall c :: 0 <= c < |cols| ==> cols[c] == if c < idxColumn then after[c] else before[c]
        {
          RowAppended(columns, rows, idxRow, idxColumn);
          var col := cols[idxColumn];
          cols := cols[idxColumn := col.(columnValues := col.columnValues + [rows[idxRow][idxColumn]])];
          idxColumn := idxColumn + 1;
        }
        assert cols == after;
        idxRow := idxRow + 1;
      }
      assert rows[..|rows|] == rows;
      columns := cols;
    }

    /** The sizing stages of `draw`: fill the values, split and even out the
      * header lines, then size every column by its longest string. */
    method SizeColumns() returns (largestHeaderVectorSize: nat)
      requires Drawable(columns, cellsRows)
      modifies this
      ensures cellsRows == old(cellsRows) && tableTitle == old(tableTitle)
      ensures borderMargin == old(borderMargin) && columnMargin == old(columnMargin)
      ensures largestHeaderVectorSize == HeaderRowCount(old(columns))
      ensures columns == DrawnColumns(old(columns), old(cellsRows))
    {
      ghost var c0, r0 := columns, cellsRows;
      DrawStages(c0, r0);
      FillColumnsValuesFromCellsRows();
      var splitHeader;
      largestHeaderVectorSize, splitHeader := ParseAndStoreHeaderSections(0, []);
      assert splitHeader == HeaderSplits(c0) && largestHeaderVectorSize == HeaderRowCount(c0);
      AdjustHeaderSizesAndStore(largestHeaderVectorSize, splitHeader);
      FindAndSetMaxStringSize();
    }

    /** The output stage of `draw`: the title row when there is a title, the
      * separator line, the `nbHeaderRows` header rows and the `nbValueRows`
      * value rows, then a blank line. */
    method Render(topSeparator: string, sectionSeparator: string, nbHeaderRows: nat, nbValueRows: nat)
      returns (tableOutput: string)
      requires |columns| > 0 && columnMargin > 0
      requires forall c, r :: 0 <= c < |columns| && 0 <= r < nbHeaderRows ==> HasRow(columns[c], r, Header)
      requires forall c, r :: 0 <= c < |columns| && 0 <= r < nbValueRows ==> HasRow(columns[c], r, Values)
      requires sectionSeparator == Separator(columns, borderMargin, columnMargin)
      requires |sectionSeparator| >= 2 && topSeparator == TopSeparator(sectionSeparator)
      ensures tableOutput == Drawing(columns, nbHeaderRows, nbValueRows, tableTitle, borderMargin, columnMargin)
    {
      var titleRows := "";
      if tableTitle != [] {
        titleRows := TitleRow(topSeparator, tableTitle, sectionSeparator);
      }
      DrawingPieces(columns, nbHeaderRows, nbValueRows, tableTitle, borderMargin, columnMargin);
      var rows := sectionSeparator + "\n";
      rows := BuildSectionRows(sectionSeparator, rows, nbHeaderRows, Header);
      rows := BuildSectionRows(sectionSeparator, rows, nbValueRows, Values);
      tableOutput := titleRows + rows + "\n";
    }

    /** Draws the whole table: sizes the columns, widens them for the title
      * and builds the separators, then renders the output. */
    method Draw() returns (tableOutput: string)
      requires Valid() && Drawable(columns, cellsRows)
      modifies this
      ensures columns == FramedColumns(DrawnColumns(old(columns), old(cellsRows)), old(tableTitle),
                                       borderMargin, columnMargin, marginTitle)
      ensures tableTitle == CentredTitle(old(tableTitle), marginTitle)
      ensures cellsRows == old(cellsRows) && Valid()
      ensures borderMargin == old(borderMargin) && columnMargin == old(columnMargin)
      ensures forall c, r :: 0 <= c < |columns| && 0 <= r < HeaderRowCount(old(columns)) ==> HasRow(columns[c], r, Header)
      ensures forall c, r :: 0 <= c < |columns| && 0 <= r < |cellsRows| ==> HasRow(columns[c], r, Values)
      ensures tableOutput == Drawing(columns, HeaderRowCount(old(columns)), |cellsRows|, tableTitle, borderMargin, columnMargin)
    {
      ghost var c0, r0 := columns, cellsRows;
      var largestHeaderVectorSize := SizeColumns();
      var topSeparator, sectionSeparator := ComputeAndBuildSeparator("");
      assert sectionSeparator == Separator(columns, borderMargin, columnMargin);
      DrawnColumnsShape(c0, r0);
      FramedShape(DrawnColumns(c0, r0), old(tableTitle), borderMargin, columnMargin, marginTitle,
                  largestHeaderVectorSize, |r0|);
      tableOutput := Render(topSeparator, sectionSeparator, largestHeaderVectorSize, |cellsRows|);
    }
  }
}
