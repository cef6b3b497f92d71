/** The text table of src/coreComponents/codingUtilities/Table.cpp: columns
  * with a header and an alignment, rows of cell strings, and the layout
  * that pads every cell to its column's widest string and frames the whole
  * in `+---+` separators and `|` borders. `GEOS_FMT` width specifiers are
  * modelled by `Format`: pad with a fill character up to the width, never
  * truncate, and put the padding after (`<`), before (`>`) or around
  * (`^`, the smaller half first) the value. Table.hpp is not part of this
  * model: the integer values of `MarginValue` and the constant
  * `marginTitle` are parameters. */
module TableLayout {

  /** `Table::Alignment`; `Unlisted` stands for any other value of the enum,
    * which reaches the `default` branch of `buildValueCell`. */
  datatype Alignment = Right | Left | Middle | Unlisted

  datatype ColumnParam = ColumnParam(headerName: seq<string>, alignment: Alignment, enabled: bool)

  datatype Column = Column(parameter: ColumnParam, columnValues: seq<string>, maxStringSize: string)

  /** `Table::Section`: which rows `buildSectionRows` draws. */
  datatype TableSection = Header | Values

  function Max(a: int, b: int): int {
    if a < b then b else a
  }

  // ---------------------------------------------------------------------
  // Padding.

  function Fill(k: nat, c: char): (s: string)
    ensures |s| == k && forall i :: 0 <= i < k ==> s[i] == c
  {
    seq(k, i => c)
  }

  /** The padding a width adds to a value: none when the value is as wide. */
  function Padding(value: string, width: nat): nat {
    if width > |value| then width - |value| else 0
  }

  /** Where the value starts inside its padded cell. */
  function Offset(value: string, width: nat, align: Alignment): nat {
    match align
    case Right => Padding(value, width)
    case Middle => Padding(value, width) / 2
    case _ => 0
  }

  /** `GEOS_FMT( "{:<fill><align>{}}", value, width )`. */
  function Format(value: string, width: nat, align: Alignment, fill: char): (s: string)
    ensures |s| == Max(|value|, width)
  {
    var pad := Padding(value, width);
    match align
    case Right => Fill(pad, fill) + value
    case Middle => Fill(pad / 2, fill) + value + Fill(pad - pad / 2, fill)
    case _ => value + Fill(pad, fill)
  }

  /** A formatted cell is as wide as the larger of the value and the width,
    * holds the value unchanged at its offset and the fill character
    * everywhere else. */
  lemma FormatLayout(value: string, width: nat, align: Alignment, fill: char)
    ensures var s, off := Format(value, width, align, fill), Offset(value, width, align);
      |s| == Max(|value|, width) && off + |value| <= |s| && s[off..off + |value|] == value
      && forall i :: 0 <= i < |s| && !(off <= i < off + |value|) ==> s[i] == fill
  {
    var s, off, pad := Format(value, width, align, fill), Offset(value, width, align), Padding(value, width);
    match align
    case Right =>
      assert s == Fill(pad, fill) + value;
      assert s[off..off + |value|] == value;
    case Middle =>
      assert s == Fill(pad / 2, fill) + value + Fill(pad - pad / 2, fill);
      assert s[off..off + |value|] == value;
    case Left =>
      assert s == value + Fill(pad, fill);
      assert s[off..off + |value|] == value;
    case Unlisted =>
      assert s == value + Fill(pad, fill);
      assert s[off..off + |value|] == value;
  }

  /** `buildValueCell`: `value` padded with spaces to `spaces` columns. */
  function BuildValueCell(alignment: Alignment, value: string, spaces: nat): (cell: string)
    ensures |cell| == Max(|value|, spaces)
  {
    Format(value, spaces, alignment, ' ')
  }

  /** The `default` branch: any other alignment is laid out as `left`. */
  lemma UnlistedAlignmentIsLeft(value: string, spaces: nat)
    ensures BuildValueCell(Unlisted, value, spaces) == BuildValueCell(Left, value, spaces)
    ensures BuildValueCell(Unlisted, value, spaces)[..|value|] == value
  {
    FormatLayout(value, spaces, Left, ' ');
  }

  // ---------------------------------------------------------------------
  // Header lines.

  /** The position of the first `'\n'` in `s`, or `|s|` when there is none. */
  function FirstNewline(s: string): (k: nat)
    ensures k <= |s| && (k < |s| ==> s[k] == '\n') && forall i :: 0 <= i < k ==> s[i] != '\n'
  {
    if |s| == 0 || s[0] == '\n' then 0 else 1 + FirstNewline(s[1..])
  }

  /** The lines `getline( ss, part, '\n' )` extracts from `s`: none from an
    * empty string, and no empty line after a final `'\n'`. */
  function SplitLines(s: string): seq<string>
    decreases |s|
  {
    if |s| == 0 then []
    else
      var k := FirstNewline(s);
      if k == |s| then [s] else [s[..k]] + SplitLines(s[k + 1..])
  }

  function JoinLines(parts: seq<string>): string {
    if |parts| == 0 then ""
    else if |parts| == 1 then parts[0]
    else parts[0] + "\n" + JoinLines(parts[1..])
  }

  /** Splitting loses nothing but a final newline. */
  lemma {:induction false} SplitLinesJoin(s: string)
    ensures JoinLines(SplitLines(s)) == (if 0 < |s| && s[|s| - 1] == '\n' then s[..|s| - 1] else s)
    decreases |s|
  {
    if |s| > 0 {
      var k := FirstNewline(s);
      if k < |s| {
        var rest := s[k + 1..];
        SplitLinesJoin(rest);
        assert SplitLines(s) == [s[..k]] + SplitLines(rest);
        if |rest| == 0 {
          assert s == s[..k] + "\n";
        } else {
          SplitLinesNonEmpty(rest);
          JoinCons(s[..k], SplitLines(rest));
          JoinAfterFirstLine(s, k);
        }
      }
    }
  }

  lemma JoinCons(line: string, parts: seq<string>)
    requires |parts| > 0
    ensures JoinLines([line] + parts) == line + "\n" + JoinLines(parts)
  {
    assert ([line] + parts)[1..] == parts;
  }

  lemma SplitLinesNonEmpty(s: string)
    requires |s| > 0
    ensures |SplitLines(s)| > 0
  {
    var k := FirstNewline(s);
    if k < |s| {
      assert SplitLines(s) == [s[..k]] + SplitLines(s[k + 1..]);
    }
  }

  lemma JoinAfterFirstLine(s: string, k: nat)
    requires k + 1 < |s| && s[k] == '\n'
    ensures var rest := s[k + 1..];
      s[..k] + "\n" + (if rest[|rest| - 1] == '\n' then rest[..|rest| - 1] else rest)
        == (if s[|s| - 1] == '\n' then s[..|s| - 1] else s)
  {
    var rest := s[k + 1..];
    assert rest[|rest| - 1] == s[|s| - 1];
    if s[|s| - 1] == '\n' {
      assert s[..|s| - 1] == s[..k] + "\n" + rest[..|rest| - 1];
    } else {
      assert s == s[..k] + "\n" + rest;
    }
  }

  /** No line holds a `'\n'`. */
  lemma {:induction false} SplitLinesHaveNoNewline(s: string)
    ensures forall j :: 0 <= j < |SplitLines(s)| ==> '\n' !in SplitLines(s)[j]
    decreases |s|
  {
    if |s| > 0 {
      var k := FirstNewline(s);
      assert '\n' !in s[..k] by {
        forall i | 0 <= i < k ensures s[..k][i] != '\n' { }
      }
      if k < |s| {
        SplitLinesHaveNoNewline(s[k + 1..]);
        assert SplitLines(s) == [s[..k]] + SplitLines(s[k + 1..]);
      } else {
        assert s[..k] == s;
      }
    }
  }

  /** The header lines of column `c`, padded with `" "` lines up to
    * `largest` (`adjustHeaderSizesAndStore`). */
  function PadLines(lines: seq<string>, largest: nat): (padded: seq<string>)
    ensures |padded| == Max(|lines|, largest) && padded[..|lines|] == lines
    ensures forall j :: |lines| <= j < |padded| ==> padded[j] == " "
  {
    if |lines| < largest then lines + seq(largest - |lines|, j => " ") else lines
  }

  /** The split first header name of every column. */
  function HeaderSplits(columns: seq<Column>): (split: seq<seq<string>>)
    requires forall c :: 0 <= c < |columns| ==> |columns[c].parameter.headerName| > 0
    ensures |split| == |columns|
  {
    seq(|columns|, c requires 0 <= c < |columns| => SplitLines(columns[c].parameter.headerName[0]))
  }

  /** `largestHeaderVectorSize` after the columns of `split`, from `init`. */
  function LargestCount(split: seq<seq<string>>, init: nat): (largest: nat)
    ensures init <= largest
    ensures forall c :: 0 <= c < |split| ==> |split[c]| <= largest
    ensures largest == init || exists c :: 0 <= c < |split| && |split[c]| == largest
  {
    if |split| == 0 then init
    else Max(LargestCount(split[..|split| - 1], init), |split[|split| - 1]|)
  }

  /** Padding every column's lines to the largest count gives every column
    * the same number of header lines, and keeps each column's own lines as
    * its first ones. */
  lemma HeadersEvenedOut(split: seq<seq<string>>, init: nat)
    ensures var largest := LargestCount(split, init);
      forall c :: 0 <= c < |split| ==>
        |PadLines(split[c], largest)| == largest && PadLines(split[c], largest)[..|split[c]|] == split[c]
  {
  }

  // ---------------------------------------------------------------------
  // Columns and rows.

  /** The columns of the header-list constructor. */
  function HeaderColumns(headers: seq<string>): (columns: seq<Column>)
    ensures |columns| == |headers|
  {
    seq(|headers|, i requires 0 <= i < |headers| => Column(ColumnParam([headers[i]], Middle, true), [], ""))
  }

  /** The columns of the `ColumnParam` constructor: the enabled ones, in order. */
  function EnabledColumns(params: seq<ColumnParam>): (columns: seq<Column>)
    ensures |columns| <= |params|
  {
    if |params| == 0 then []
    else
      var last := params[|params| - 1];
      EnabledColumns(params[..|params| - 1]) + (if last.enabled then [Column(last, [], "")] else [])
  }

  /** Each kept column is an enabled parameter, with no values yet, and
    * each enabled parameter is kept. */
  lemma {:induction false} EnabledColumnsKept(params: seq<ColumnParam>)
    ensures forall j :: 0 <= j < |EnabledColumns(params)| ==>
      var col := EnabledColumns(params)[j];
      col.parameter.enabled && col.parameter in params && col.columnValues == [] && col.maxStringSize == ""
    ensures forall p :: p in params && p.enabled ==> exists j :: 0 <= j < |EnabledColumns(params)| && EnabledColumns(params)[j].parameter == p
  {
    if |params| > 0 {
      var init, last := params[..|params| - 1], params[|params| - 1];
      EnabledColumnsKept(init);
      var E := EnabledColumns(params);
      assert E == EnabledColumns(init) + (if last.enabled then [Column(last, [], "")] else []);
      forall p | p in params && p.enabled
        ensures exists j :: 0 <= j < |E| && E[j].parameter == p
      {
        if p == last {
          assert E[|E| - 1].parameter == p;
        } else {
          assert p in init;
          var j :| 0 <= j < |EnabledColumns(init)| && EnabledColumns(init)[j].parameter == p;
          assert E[j] == EnabledColumns(init)[j];
        }
      }
    }
  }

  /** The values of `row` whose column is enabled (`addRowsFromVectors`). */
  function EnabledCells(row: seq<string>, columns: seq<Column>): (cells: seq<string>)
    requires |row| <= |columns|
    ensures |cells| <= |row|
  {
    if |row| == 0 then []
    else
      var k := |row| - 1;
      EnabledCells(row[..k], columns) + (if columns[k].parameter.enabled then [row[k]] else [])
  }

  predicate AllEnabled(columns: seq<Column>) {
    forall c :: 0 <= c < |columns| ==> columns[c].parameter.enabled
  }

  /** With every column enabled, as both constructors leave them, a row is
    * stored as given. */
  lemma {:induction false} EnabledCellsOfEnabledColumns(row: seq<string>, columns: seq<Column>)
    requires |row| <= |columns| && AllEnabled(columns)
    ensures EnabledCells(row, columns) == row
  {
    if |row| > 0 {
      EnabledCellsOfEnabledColumns(row[..|row| - 1], columns);
      assert row == row[..|row| - 1] + [row[|row| - 1]];
    }
  }

  lemma ConstructedColumnsAreEnabled(headers: seq<string>, params: seq<ColumnParam>)
    ensures AllEnabled(HeaderColumns(headers))
    ensures AllEnabled(EnabledColumns(params))
  {
    EnabledColumnsKept(params);
  }

  /** The first longest string of a non-empty list. */
  function FirstLongest(s: seq<string>): string
    requires |s| > 0
  {
    if |s| == 1 then s[0]
    else
      var m := FirstLongest(s[..|s| - 1]);
      if |m| < |s[|s| - 1]| then s[|s| - 1] else m
  }

  /** No string of the list is longer than `FirstLongest`. */
  lemma {:induction false} FirstLongestIsLongest(s: seq<string>)
    requires |s| > 0
    ensures forall k :: 0 <= k < |s| ==> |s[k]| <= |FirstLongest(s)|
  {
    if |s| > 1 {
      var init := s[..|s| - 1];
      FirstLongestIsLongest(init);
      assert forall k :: 0 <= k < |init| ==> s[k] == init[k];
    }
  }

  /** Every string before index `i` is strictly shorter than `s[i]`. */
  predicate ShorterBefore(s: seq<string>, i: nat)
    requires i < |s|
  {
    forall j :: 0 <= j < i ==> |s[j]| < |s[i]|
  }

  /** `FirstLongest` is in the list, and every string before its first
    * occurrence is strictly shorter: ties go to the earliest, as with
    * `std::max_element`. */
  lemma {:induction false} FirstLongestIsFirst(s: seq<string>)
    requires |s| > 0
    ensures exists i: nat :: i < |s| && s[i] == FirstLongest(s) && ShorterBefore(s, i)
  {
    if |s| == 1 {
      assert s[0] == FirstLongest(s) && ShorterBefore(s, 0);
    } else {
      var init := s[..|s| - 1];
      var last := |s| - 1;
      FirstLongestIsFirst(init);
      FirstLongestIsLongest(init);
      var m := FirstLongest(init);
      var i: nat :| i < |init| && init[i] == m && ShorterBefore(init, i);
      if |m| < |s[last]| {
        forall j | 0 <= j < last ensures |s[j]| < |s[last]| {
          assert s[j] == init[j];
        }
        assert s[last] == FirstLongest(s) && ShorterBefore(s, last);
      } else {
        forall j | 0 <= j < i ensures |s[j]| < |s[i]| {
          assert s[j] == init[j];
        }
        assert s[i] == init[i];
        assert s[i] == FirstLongest(s) && ShorterBefore(s, i);
      }
    }
  }

  /** The cells a column's widest string is chosen from: its header lines,
    * then the values of the `rows` stored rows. */
  function ColumnStrings(col: Column, rows: nat): seq<string>
    requires rows <= |col.columnValues|
  {
    col.parameter.headerName + col.columnValues[..rows]
  }

  // ---------------------------------------------------------------------
  // Widening for a long title.

  /** `extraLinesPerColumn` as written: `std::ceil` is applied to an integer
    * quotient, so it rounds down. */
  function ExtraPerColumnAsWritten(extraLines: nat, columnCount: nat): nat
    requires columnCount > 0
  {
    extraLines / columnCount
  }

  /** `extraLinesPerColumn` rounded up, as `std::ceil` means it to be. */
  function ExtraPerColumn(extraLines: nat, columnCount: nat): (e: nat)
    requires columnCount > 0
    ensures columnCount * e >= extraLines && (e == 0 || columnCount * (e - 1) < extraLines)
  {
    (extraLines + columnCount - 1) / columnCount
  }

  /** `computeAndSetMaxStringSize` with `extra` added to every column and
    * the column margin also to the last one, right-aligned. */
  function WidenedColumns(columns: seq<Column>, extra: nat, columnMargin: nat): (widened: seq<Column>)
    ensures |widened| == |columns|
  {
    seq(|columns|, c requires 0 <= c < |columns| =>
      var m := columns[c].maxStringSize;
      var size := extra + |m| + (if c == |columns| - 1 then columnMargin else 0);
      columns[c].(maxStringSize := Format(m, size, Right, ' ')))
  }

  /** Sum of the widest-string lengths of the first `k` columns. */
  function SumWidths(columns: seq<Column>, k: nat): nat
    requires k <= |columns|
  {
    if k == 0 then 0 else SumWidths(columns, k - 1) + |columns[k - 1].maxStringSize|
  }

  /** `sectionlineLength`: the widths plus the margins between and around
    * the columns. */
  function SectionLineLength(columns: seq<Column>, borderMargin: nat, columnMargin: nat): nat
    requires |columns| > 0
  {
    SumWidths(columns, |columns|) + (|columns| - 1) * columnMargin + 2 * borderMargin
  }

  /** Widening adds `extra` to every column and the column margin once. */
  lemma WidenedWidths(columns: seq<Column>, extra: nat, columnMargin: nat, k: nat)
    requires 0 < k <= |columns|
    ensures SumWidths(WidenedColumns(columns, extra, columnMargin), k)
      == SumWidths(columns, k) + k * extra + (if k == |columns| then columnMargin else 0)
  {
    var W := WidenedColumns(columns, extra, columnMargin);
    forall c | 0 <= c < |columns|
      ensures |W[c].maxStringSize|
        == |columns[c].maxStringSize| + extra + (if c == |columns| - 1 then columnMargin else 0)
    {
    }
    ShiftedWidths(columns, W, extra, columnMargin, k);
  }

  /** Sums over two column lists whose widths differ by `extra`, and by
    * `columnMargin` more in the last column. */
  lemma {:induction false} ShiftedWidths(columns: seq<Column>, W: seq<Column>, extra: nat, columnMargin: nat, k: nat)
    requires 0 < k <= |columns| == |W|
    requires forall c :: 0 <= c < |columns| ==>
      |W[c].maxStringSize| == |columns[c].maxStringSize| + extra + (if c == |columns| - 1 then columnMargin else 0)
    ensures SumWidths(W, k) == SumWidths(columns, k) + k * extra + (if k == |columns| then columnMargin else 0)
  {
    if k > 1 {
      ShiftedWidths(columns, W, extra, columnMargin, k - 1);
    }
    assert k * extra == (k - 1) * extra + extra;
  }

  /** With the quotient rounded up, widening makes the section line at
    * least as long as the title line. */
  lemma WideningCoversTitle(columns: seq<Column>, borderMargin: nat, columnMargin: nat, titleLineLength: nat)
    requires |columns| > 0
    requires SectionLineLength(columns, borderMargin, columnMargin) < titleLineLength
    ensures var extra := titleLineLength - SectionLineLength(columns, borderMargin, columnMargin);
      SectionLineLength(WidenedColumns(columns, ExtraPerColumn(extra, |columns|), columnMargin), borderMargin, columnMargin)
        >= titleLineLength
  {
    var extra := titleLineLength - SectionLineLength(columns, borderMargin, columnMargin);
    WidenedWidths(columns, ExtraPerColumn(extra, |columns|), columnMargin, |columns|);
  }

  /** As written, seven one-character columns under a title line six
    * characters longer than the section line get no extra width each, and
    * the last column's margin of 5 leaves the section line one short. */
  lemma WideningAsWrittenFallsShort()
    ensures var columns := seq(7, c => Column(ColumnParam(["h"], Middle, true), [], "h"));
      var section := SectionLineLength(columns, 2, 5);
      section == 41
      && ExtraPerColumnAsWritten(47 - section, 7) == 0
      && SectionLineLength(WidenedColumns(columns, ExtraPerColumnAsWritten(47 - section, 7), 5), 2, 5) == 46
  {
    var columns := seq(7, c => Column(ColumnParam(["h"], Middle, true), [], "h"));
    assert SumWidths(columns, 7) == 7 by {
      assert SumWidths(columns, 0) == 0;
      assert SumWidths(columns, 1) == 1;
      assert SumWidths(columns, 2) == 2;
      assert SumWidths(columns, 3) == 3;
      assert SumWidths(columns, 4) == 4;
      assert SumWidths(columns, 5) == 5;
      assert SumWidths(columns, 6) == 6;
    }
    WidenedWidths(columns, 0, 5, 7);
  }

  // ---------------------------------------------------------------------
  // Separators and rows.

  /** Part `k` of `sectionSeparator` when there are several columns. */
  function SeparatorPart(columns: seq<Column>, borderMargin: nat, columnMargin: nat, k: nat): string
    requires k < |columns|
  {
    var cellSize := |columns[k].maxStringSize|;
    if k == 0 then "+" + Fill(cellSize + borderMargin, '-')
    else if k == |columns| - 1 then
      Format("+", columnMargin, Middle, '-') + Format("+", cellSize + borderMargin + 1, Right, '-')
    else Format("+", columnMargin, Middle, '-') + Fill(cellSize, '-')
  }

  function SeparatorParts(columns: seq<Column>, borderMargin: nat, columnMargin: nat, k: nat): string
    requires k <= |columns|
  {
    if k == 0 then "" else SeparatorParts(columns, borderMargin, columnMargin, k - 1) + SeparatorPart(columns, borderMargin, columnMargin, k - 1)
  }

  /** What `computeAndBuildSeparator` appends to `sectionSeparator`. */
  function Separator(columns: seq<Column>, borderMargin: nat, columnMargin: nat): string
    requires |columns| > 0 && columnMargin > 0
  {
    if |columns| == 1 then "+" + Fill(|columns[0].maxStringSize| + borderMargin - 1 + columnMargin, '-') + "+"
    else SeparatorParts(columns, borderMargin, columnMargin, |columns|)
  }

  /** `topSeparator`: `+`, dashes, `+`, as long as the section separator. */
  function TopSeparator(sectionSeparator: string): string
    requires |sectionSeparator| >= 2
  {
    "+" + Fill(|sectionSeparator| - 2, '-') + "+"
  }

  lemma {:induction false} SeparatorPartsLength(columns: seq<Column>, borderMargin: nat, columnMargin: nat, k: nat)
    requires 0 < k <= |columns| && |columns| > 1 && columnMargin > 0
    ensures |SeparatorParts(columns, borderMargin, columnMargin, k)|
      == 1 + SumWidths(columns, k) + borderMargin + (k - 1) * columnMargin + (if k == |columns| then borderMargin + 1 else 0)
  {
    var cellSize := |columns[k - 1].maxStringSize|;
    if k > 1 {
      SeparatorPartsLength(columns, borderMargin, columnMargin, k - 1);
      FormatLayout("+", columnMargin, Middle, '-');
      FormatLayout("+", cellSize + borderMargin + 1, Right, '-');
      assert (k - 1) * columnMargin == (k - 2) * columnMargin + columnMargin;
    }
  }

  /** The section separator is as long as the section line plus its two
    * corners, and no shorter than its two corners. The top separator has
    * the same length and starts and ends with a corner. */
  lemma SeparatorLength(columns: seq<Column>, borderMargin: nat, columnMargin: nat)
    requires |columns| > 0 && columnMargin > 0
    ensures var sep := Separator(columns, borderMargin, columnMargin);
      |sep| == (if |columns| == 1 then |columns[0].maxStringSize| + borderMargin + columnMargin + 1
                else SectionLineLength(columns, borderMargin, columnMargin) + 2)
      && |sep| >= 2 && |TopSeparator(sep)| == |sep|
      && TopSeparator(sep)[0] == '+' && TopSeparator(sep)[|sep| - 1] == '+'
  {
    if |columns| > 1 {
      SeparatorPartsLength(columns, borderMargin, columnMargin, |columns|);
    }
  }

  /** What `centreTitle` leaves in `tableTitle`: centred over its title line. */
  function CentredTitle(title: string, marginTitle: nat): string {
    if title == [] then title else Format(title, |title| + 2 * marginTitle, Middle, ' ')
  }

  /** The title row's inner width, `sectionSeparator.length() - 2`, leaves
    * room for the title line once the columns are widened as intended. */
  lemma TitleFits(columns: seq<Column>, borderMargin: nat, columnMargin: nat, titleLineLength: nat)
    requires |columns| > 0 && columnMargin == 2 * borderMargin + 1
    ensures var section := SectionLineLength(columns, borderMargin, columnMargin);
      var cols := if section < titleLineLength
        then WidenedColumns(columns, ExtraPerColumn(titleLineLength - section, |columns|), columnMargin)
        else columns;
      |Separator(cols, borderMargin, columnMargin)| - 2 >= titleLineLength
  {
    var section := SectionLineLength(columns, borderMargin, columnMargin);
    var cols := if section < titleLineLength
      then WidenedColumns(columns, ExtraPerColumn(titleLineLength - section, |columns|), columnMargin)
      else columns;
    if section < titleLineLength {
      WideningCoversTitle(columns, borderMargin, columnMargin, titleLineLength);
      WidenedWidths(columns, ExtraPerColumn(titleLineLength - section, |columns|), columnMargin, |columns|);
    }
    SeparatorLength(cols, borderMargin, columnMargin);
    if |columns| == 1 {
      assert SumWidths(cols, 1) == |cols[0].maxStringSize|;
      assert SumWidths(columns, 1) == |columns[0].maxStringSize|;
    }
  }

  /** Row `r` of a section in column `col`. */
  predicate HasRow(col: Column, r: nat, section: TableSection) {
    match section
    case Header => r < |col.parameter.headerName|
    case Values => r < |col.columnValues|
  }

  function Cell(col: Column, r: nat, section: TableSection): string
    requires HasRow(col, r, section)
  {
    match section
    case Header => col.parameter.headerName[r]
    case Values => col.columnValues[r]
  }

  /** The cells and inner borders of the first `k` columns of row `r`. */
  function RowCells(columns: seq<Column>, r: nat, section: TableSection, columnMargin: nat, k: nat): string
    requires k <= |columns| && forall c :: 0 <= c < |columns| ==> HasRow(columns[c], r, section)
  {
    if k == 0 then ""
    else
      var col := columns[k - 1];
      RowCells(columns, r, section, columnMargin, k - 1)
      + BuildValueCell(col.parameter.alignment, Cell(col, r, section), |col.maxStringSize|)
      + (if k - 1 < |columns| - 1 then Format("|", columnMargin, Middle, ' ') else "")
  }

  /** Line `r` of a section: left border, cells, right border, newline. */
  function RowLine(columns: seq<Column>, r: nat, section: TableSection, borderMargin: nat, columnMargin: nat): string
    requires forall c :: 0 <= c < |columns| ==> HasRow(columns[c], r, section)
  {
    Format("|", 1 + borderMargin, Left, ' ')
    + RowCells(columns, r, section, columnMargin, |columns|)
    + (if |columns| == 1 then Format("|", columnMargin, Right, ' ') else Format("|", borderMargin + 1, Right, ' '))
    + "\n"
  }

  /** The first `n` lines of a section. */
  function SectionLines(columns: seq<Column>, section: TableSection, borderMargin: nat, columnMargin: nat, n: nat): (lines: seq<string>)
    requires forall c, r :: 0 <= c < |columns| && 0 <= r < n ==> HasRow(columns[c], r, section)
    ensures |lines| == n
    ensures forall r :: 0 <= r < n ==> lines[r] == RowLine(columns, r, section, borderMargin, columnMargin)
  {
    seq(n, r requires 0 <= r < n => RowLine(columns, r, section, borderMargin, columnMargin))
  }

  /** The lines one after the other. */
  function Concat(lines: seq<string>): string {
    if |lines| == 0 then "" else Concat(lines[..|lines| - 1]) + lines[|lines| - 1]
  }

  /** What `buildSectionRows` appends: `nbRows` lines, then the separator
    * line unless there were none. */
  function SectionRows(columns: seq<Column>, sectionSeparator: string, nbRows: nat, section: TableSection,
                       borderMargin: nat, columnMargin: nat): string
    requires forall c, r :: 0 <= c < |columns| && 0 <= r < nbRows ==> HasRow(columns[c], r, section)
  {
    Concat(SectionLines(columns, section, borderMargin, columnMargin, nbRows)) + (if nbRows != 0 then sectionSeparator + "\n" else "")
  }

  function LineCount(s: string): nat {
    if |s| == 0 then 0 else LineCount(s[..|s| - 1]) + (if s[|s| - 1] == '\n' then 1 else 0)
  }

  lemma {:induction false} LineCountAppend(a: string, b: string)
    ensures LineCount(a + b) == LineCount(a) + LineCount(b)
    decreases |b|
  {
    if |b| == 0 {
      assert a + b == a;
    } else {
      LineCountAppend(a, b[..|b| - 1]);
      assert (a + b)[..|a + b| - 1] == a + b[..|b| - 1];
    }
  }

  lemma {:induction false} NoNewlineNoLine(s: string)
    requires '\n' !in s
    ensures LineCount(s) == 0
    decreases |s|
  {
    if |s| > 0 {
      assert s[|s| - 1] in s;
      assert '\n' !in s[..|s| - 1] by {
        forall i | 0 <= i < |s| - 1 ensures s[i] != '\n' {
          assert s[i] in s;
        }
      }
      NoNewlineNoLine(s[..|s| - 1]);
    }
  }

  /** A fill has no newline, and a format of newline-free text has none. */
  lemma FormatNoNewline(value: string, width: nat, align: Alignment, fill: char)
    requires '\n' !in value && fill != '\n'
    ensures '\n' !in Format(value, width, align, fill)
  {
    var s, off := Format(value, width, align, fill), Offset(value, width, align);
    FormatLayout(value, width, align, fill);
    forall i | 0 <= i < |s| ensures s[i] != '\n' {
      if off <= i < off + |value| {
        assert s[i] == s[off..off + |value|][i - off];
        assert value[i - off] in value;
      }
    }
  }

  predicate CellsFit(columns: seq<Column>, r: nat, section: TableSection)
    requires forall c :: 0 <= c < |columns| ==> HasRow(columns[c], r, section)
  {
    forall c :: 0 <= c < |columns| ==>
      |Cell(columns[c], r, section)| <= |columns[c].maxStringSize| && '\n' !in Cell(columns[c], r, section)
  }

  lemma {:induction false} RowCellsLength(columns: seq<Column>, r: nat, section: TableSection, columnMargin: nat, k: nat)
    requires 0 < k <= |columns|
    requires forall c :: 0 <= c < |columns| ==> HasRow(columns[c], r, section)
    requires CellsFit(columns, r, section)
    requires columnMargin > 0
    ensures |RowCells(columns, r, section, columnMargin, k)|
      == SumWidths(columns, k) + (if k < |columns| then k else k - 1) * columnMargin
  {
    RowCellsStep(columns, r, section, columnMargin, k);
    if k > 1 {
      RowCellsLength(columns, r, section, columnMargin, k - 1);
    }
    GapsAdd(|RowCells(columns, r, section, columnMargin, k)|, |RowCells(columns, r, section, columnMargin, k - 1)|,
            SumWidths(columns, k), SumWidths(columns, k - 1), |columns[k - 1].maxStringSize|, k, |columns|, columnMargin);
  }

  /** The arithmetic of one step of `RowCellsLength`: one more cell, and one
    * more inner border unless it is the last. */
  lemma GapsAdd(len: int, prevLen: int, widths: int, prevWidths: int, w: int, k: nat, n: nat, columnMargin: nat)
    requires 0 < k <= n
    requires len == prevLen + w + (if k < n then columnMargin else 0)
    requires widths == prevWidths + w
    requires k == 1 ==> prevLen == 0 && prevWidths == 0
    requires k > 1 ==> prevLen == prevWidths + (k - 1) * columnMargin
    ensures len == widths + (if k < n then k else k - 1) * columnMargin
  {
    if k < n {
      assert k * columnMargin == (k - 1) * columnMargin + columnMargin;
    }
  }

  /** One more column adds its width, and the inner border unless it is the
    * last column. */
  lemma RowCellsStep(columns: seq<Column>, r: nat, section: TableSection, columnMargin: nat, k: nat)
    requires 0 < k <= |columns| && columnMargin > 0
    requires forall c :: 0 <= c < |columns| ==> HasRow(columns[c], r, section)
    requires CellsFit(columns, r, section)
    ensures |RowCells(columns, r, section, columnMargin, k)|
      == |RowCells(columns, r, section, columnMargin, k - 1)| + |columns[k - 1].maxStringSize|
         + (if k < |columns| then columnMargin else 0)
    ensures SumWidths(columns, k) == SumWidths(columns, k - 1) + |columns[k - 1].maxStringSize|
  {
    var col := columns[k - 1];
    assert |Cell(col, r, section)| <= |col.maxStringSize|;
  }

  lemma {:induction false} RowCellsNoNewline(columns: seq<Column>, r: nat, section: TableSection, columnMargin: nat, k: nat)
    requires k <= |columns|
    requires forall c :: 0 <= c < |columns| ==> HasRow(columns[c], r, section)
    requires CellsFit(columns, r, section)
    ensures '\n' !in RowCells(columns, r, section, columnMargin, k)
  {
    if k > 0 {
      RowCellsNoNewline(columns, r, section, columnMargin, k - 1);
      var col := columns[k - 1];
      CellTextNoNewline(col.parameter.alignment, Cell(col, r, section), |col.maxStringSize|, columnMargin, k - 1 < |columns| - 1);
      NoNewline3(RowCells(columns, r, section, columnMargin, k - 1),
                 BuildValueCell(col.parameter.alignment, Cell(col, r, section), |col.maxStringSize|),
                 if k - 1 < |columns| - 1 then Format("|", columnMargin, Middle, ' ') else "");
    }
  }

  /** One laid-out cell and the border after it are on one line. */
  lemma CellTextNoNewline(alignment: Alignment, cell: string, width: nat, columnMargin: nat, inner: bool)
    requires '\n' !in cell
    ensures '\n' !in BuildValueCell(alignment, cell, width)
    ensures '\n' !in (if inner then Format("|", columnMargin, Middle, ' ') else "")
  {
    FormatNoNewline(cell, width, alignment, ' ');
    FormatNoNewline("|", columnMargin, Middle, ' ');
  }

  /** Appending to a string built so far. */
  lemma AppendAssociates(a: string, b: string, c: string)
    ensures a + b + c == a + (b + c)
  {
  }

  lemma NoNewline3(a: string, b: string, c: string)
    requires '\n' !in a && '\n' !in b && '\n' !in c
    ensures '\n' !in a + b + c
  {
  }

  /** Every drawn row whose cells fit their columns is exactly as long as
    * the section separator, so the frame closes, and it is one line. */
  lemma RowLineMatchesSeparator(columns: seq<Column>, r: nat, section: TableSection, borderMargin: nat, columnMargin: nat)
    requires |columns| > 0 && columnMargin > 0
    requires forall c :: 0 <= c < |columns| ==> HasRow(columns[c], r, section)
    requires CellsFit(columns, r, section)
    ensures |RowLine(columns, r, section, borderMargin, columnMargin)| == |Separator(columns, borderMargin, columnMargin)| + 1
    ensures LineCount(RowLine(columns, r, section, borderMargin, columnMargin)) == 1
  {
    RowLineLength(columns, r, section, borderMargin, columnMargin);
    RowLineIsOneLine(columns, r, section, borderMargin, columnMargin);
  }

  lemma RowLineLength(columns: seq<Column>, r: nat, section: TableSection, borderMargin: nat, columnMargin: nat)
    requires |columns| > 0 && columnMargin > 0
    requires forall c :: 0 <= c < |columns| ==> HasRow(columns[c], r, section)
    requires CellsFit(columns, r, section)
    ensures |RowLine(columns, r, section, borderMargin, columnMargin)| == |Separator(columns, borderMargin, columnMargin)| + 1
  {
    RowCellsLength(columns, r, section, columnMargin, |columns|);
    SeparatorLength(columns, borderMargin, columnMargin);
    FormatLayout("|", 1 + borderMargin, Left, ' ');
    FormatLayout("|", columnMargin, Right, ' ');
    FormatLayout("|", borderMargin + 1, Right, ' ');
    if |columns| == 1 {
      assert SumWidths(columns, 1) == |columns[0].maxStringSize|;
    }
  }

  lemma RowLineIsOneLine(columns: seq<Column>, r: nat, section: TableSection, borderMargin: nat, columnMargin: nat)
    requires forall c :: 0 <= c < |columns| ==> HasRow(columns[c], r, section)
    requires CellsFit(columns, r, section)
    ensures LineCount(RowLine(columns, r, section, borderMargin, columnMargin)) == 1
  {
    RowCellsNoNewline(columns, r, section, columnMargin, |columns|);
    FormatNoNewline("|", 1 + borderMargin, Left, ' ');
    FormatNoNewline("|", columnMargin, Right, ' ');
    FormatNoNewline("|", borderMargin + 1, Right, ' ');
    var left := Format("|", 1 + borderMargin, Left, ' ');
    var cells := RowCells(columns, r, section, columnMargin, |columns|);
    var right := if |columns| == 1 then Format("|", columnMargin, Right, ' ') else Format("|", borderMargin + 1, Right, ' ');
    assert '\n' !in right;
    NoNewline3(left, cells, right);
    NoNewlineNoLine(left + cells + right);
    LineCountAppend(left + cells + right, "\n");
  }

  // ---------------------------------------------------------------------
  // The stages of `draw`, as functions of the table's state.

  /** `FirstNewline` is the first position holding `'\n'`, or the length. */
  lemma {:induction false} FirstNewlineIs(s: string, k: nat)
    requires k <= |s| && (k < |s| ==> s[k] == '\n') && forall i :: 0 <= i < k ==> s[i] != '\n'
    ensures FirstNewline(s) == k
  {
    if |s| > 0 && s[0] != '\n' {
      FirstNewlineIs(s[1..], k - 1);
    }
  }

  /** The rows `addRowsFromVectors` appends: each without its disabled cells. */
  function StoredRows(tableRows: seq<seq<string>>, columns: seq<Column>): (rows: seq<seq<string>>)
    requires forall i :: 0 <= i < |tableRows| ==> |tableRows[i]| <= |columns|
    ensures |rows| == |tableRows|
    ensures forall i :: 0 <= i < |tableRows| ==> rows[i] == EnabledCells(tableRows[i], columns)
  {
    seq(|tableRows|, i requires 0 <= i < |tableRows| => EnabledCells(tableRows[i], columns))
  }

  /** Column `c` of the stored rows. */
  function ColumnOf(rows: seq<seq<string>>, c: nat): (values: seq<string>)
    requires forall r :: 0 <= r < |rows| ==> c < |rows[r]|
    ensures |values| == |rows| && forall r :: 0 <= r < |rows| ==> values[r] == rows[r][c]
  {
    seq(|rows|, r requires 0 <= r < |rows| => rows[r][c])
  }

  /** `fillColumnsValuesFromCellsRows`: every column gets its cell of every
    * stored row appended to its values. */
  function WithValues(columns: seq<Column>, rows: seq<seq<string>>): (filled: seq<Column>)
    requires forall r :: 0 <= r < |rows| ==> |columns| <= |rows[r]|
    ensures |filled| == |columns|
  {
    seq(|columns|, c requires 0 <= c < |columns| =>
      columns[c].(columnValues := columns[c].columnValues + ColumnOf(rows, c)))
  }

  /** `adjustHeaderSizesAndStore`: each column's header lines are its split
    * lines padded to `largest`. */
  function AdjustedHeaders(columns: seq<Column>, split: seq<seq<string>>, largest: nat): (adjusted: seq<Column>)
    requires |split| == |columns|
    ensures |adjusted| == |columns|
  {
    seq(|columns|, c requires 0 <= c < |columns| =>
      columns[c].(parameter := columns[c].parameter.(headerName := PadLines(split[c], largest))))
  }

  /** `findAndSetMaxStringSize`: every column's widest string over its
    * header lines and the values of the first `rows` rows. */
  function LongestSet(columns: seq<Column>, rows: nat): (longest: seq<Column>)
    requires forall c :: 0 <= c < |columns| ==> |columns[c].parameter.headerName| > 0 && rows <= |columns[c].columnValues|
    ensures |longest| == |columns|
  {
    seq(|columns|, c requires 0 <= c < |columns| =>
      columns[c].(maxStringSize := FirstLongest(ColumnStrings(columns[c], rows))))
  }

  /** The number of header lines `draw` draws. */
  function HeaderRowCount(columns: seq<Column>): nat
    requires forall c :: 0 <= c < |columns| ==> |columns[c].parameter.headerName| > 0
  {
    LargestCount(HeaderSplits(columns), 0)
  }

  /** Some column has a non-empty first header name, so the tallest split
    * header has at least one line. */
  predicate SomeHeaderText(columns: seq<Column>)
    requires forall c :: 0 <= c < |columns| ==> |columns[c].parameter.headerName| > 0
  {
    exists c :: 0 <= c < |columns| && columns[c].parameter.headerName[0] != []
  }

  lemma SomeHeaderTextCounts(columns: seq<Column>)
    requires forall c :: 0 <= c < |columns| ==> |columns[c].parameter.headerName| > 0
    requires SomeHeaderText(columns)
    ensures HeaderRowCount(columns) > 0
  {
    var c :| 0 <= c < |columns| && columns[c].parameter.headerName[0] != [];
    SplitLinesNonEmpty(columns[c].parameter.headerName[0]);
    assert |HeaderSplits(columns)[c]| > 0;
  }

  /** The preconditions of `draw` on the stored state. */
  predicate Drawable(columns: seq<Column>, cellsRows: seq<seq<string>>) {
    |columns| > 0
    && (forall c :: 0 <= c < |columns| ==> |columns[c].parameter.headerName| > 0)
    && (forall r :: 0 <= r < |cellsRows| ==> |columns| <= |cellsRows[r]|)
    && SomeHeaderText(columns)
  }

  /** The columns once `draw` has filled them, split and padded their
    * headers, and chosen their widest strings. */
  function DrawnColumns(columns: seq<Column>, cellsRows: seq<seq<string>>): (drawn: seq<Column>)
    requires Drawable(columns, cellsRows)
    ensures |drawn| == |columns|
  {
    var filled := WithValues(columns, cellsRows);
    assert forall c :: 0 <= c < |columns| ==> filled[c].parameter == columns[c].parameter;
    var split := HeaderSplits(filled);
    var largest := LargestCount(split, 0);
    assert split == HeaderSplits(columns);
    SomeHeaderTextCounts(columns);
    LongestSet(AdjustedHeaders(filled, split, largest), |cellsRows|)
  }

  /** The columns after `computeAndBuildSeparator`: widened when the title
    * line is longer than the section line. */
  function FramedColumns(columns: seq<Column>, title: string, borderMargin: nat, columnMargin: nat, marginTitle: nat): (framed: seq<Column>)
    requires |columns| > 0
    ensures |framed| == |columns|
  {
    var section := SectionLineLength(columns, borderMargin, columnMargin);
    var titleLine := |title| + 2 * marginTitle;
    if section < titleLine then WidenedColumns(columns, ExtraPerColumn(titleLine - section, |columns|), columnMargin)
    else columns
  }

  /** What `buildTitleRow` builds: the top separator, then the title
    * centred between two `|`. */
  function TitleRow(topSeparator: string, title: string, sectionSeparator: string): string
    requires |sectionSeparator| >= 2
  {
    "\n" + topSeparator + "\n|" + BuildValueCell(Middle, title, |sectionSeparator| - 2) + "|\n"
  }

  /** A centred title that fits leaves the title line as long as the
    * section separator, so the frame closes. */
  lemma TitleRowFrame(topSeparator: string, title: string, sectionSeparator: string)
    requires |sectionSeparator| >= 2 && |title| <= |sectionSeparator| - 2
    ensures TitleRow(topSeparator, title, sectionSeparator)
      == "\n" + topSeparator + "\n" + ("|" + Format(title, |sectionSeparator| - 2, Middle, ' ') + "|") + "\n"
    ensures |"|" + Format(title, |sectionSeparator| - 2, Middle, ' ') + "|"| == |sectionSeparator|
  {
  }

  /** What `draw` writes, from the state it leaves. */
  function Drawing(columns: seq<Column>, nbHeaderRows: nat, nbValueRows: nat, title: string,
                   borderMargin: nat, columnMargin: nat): string
    requires |columns| > 0 && columnMargin > 0
    requires forall c, r :: 0 <= c < |columns| && 0 <= r < nbHeaderRows ==> HasRow(columns[c], r, Header)
    requires forall c, r :: 0 <= c < |columns| && 0 <= r < nbValueRows ==> HasRow(columns[c], r, Values)
  {
    var sep := Separator(columns, borderMargin, columnMargin);
    SeparatorLength(columns, borderMargin, columnMargin);
    (if title == [] then "" else TitleRow(TopSeparator(sep), title, sep))
    + sep + "\n"
    + SectionRows(columns, sep, nbHeaderRows, Header, borderMargin, columnMargin)
    + SectionRows(columns, sep, nbValueRows, Values, borderMargin, columnMargin)
    + "\n"
  }

  /** No stored value, old or new, holds a `'\n'`. */
  predicate NoNewlineValues(columns: seq<Column>, cellsRows: seq<seq<string>>) {
    (forall c, j :: 0 <= c < |columns| && 0 <= j < |columns[c].columnValues| ==> '\n' !in columns[c].columnValues[j])
    && (forall r, i :: 0 <= r < |cellsRows| && 0 <= i < |cellsRows[r]| ==> '\n' !in cellsRows[r][i])
  }

  /** Column `col` has `n` header lines and at least `rows` values, and each
    * header line fits its widest string and holds no `'\n'`. */
  predicate HeadersFit(col: Column, n: nat, rows: nat) {
    |col.parameter.headerName| == n && rows <= |col.columnValues|
    && forall r :: 0 <= r < n ==>
      |col.parameter.headerName[r]| <= |col.maxStringSize| && '\n' !in col.parameter.headerName[r]
  }

  /** The first `rows` values of `col` fit its widest string and hold no `'\n'`. */
  predicate ValuesFit(col: Column, rows: nat)
    requires rows <= |col.columnValues|
  {
    forall r :: 0 <= r < rows ==> |col.columnValues[r]| <= |col.maxStringSize| && '\n' !in col.columnValues[r]
  }

  lemma HeadersFitRows(columns: seq<Column>, n: nat, rows: nat, r: nat)
    requires forall c :: 0 <= c < |columns| ==> HeadersFit(columns[c], n, rows)
    requires r < n
    ensures forall c :: 0 <= c < |columns| ==> HasRow(columns[c], r, Header)
    ensures CellsFit(columns, r, Header)
  {
  }

  lemma ValuesFitRows(columns: seq<Column>, n: nat, rows: nat, r: nat)
    requires forall c :: 0 <= c < |columns| ==> HeadersFit(columns[c], n, rows) && ValuesFit(columns[c], rows)
    requires r < rows
    ensures forall c :: 0 <= c < |columns| ==> HasRow(columns[c], r, Values)
    ensures CellsFit(columns, r, Values)
  {
  }

  /** Drawn column `c`: padded split header lines, its values followed by
    * its cells of the stored rows, and the first longest of those. */
  lemma DrawnColumn(columns: seq<Column>, cellsRows: seq<seq<string>>, c: nat)
    requires Drawable(columns, cellsRows) && c < |columns|
    ensures var D, n := DrawnColumns(columns, cellsRows), HeaderRowCount(columns);
      var header := PadLines(HeaderSplits(columns)[c], n);
      var values := columns[c].columnValues + ColumnOf(cellsRows, c);
      |header| == n > 0 && |values| >= |cellsRows|
      && D[c].parameter.headerName == header && D[c].columnValues == values
      && D[c].maxStringSize == FirstLongest(header + values[..|cellsRows|])
  {
    SomeHeaderTextCounts(columns);
    var filled := WithValues(columns, cellsRows);
    assert forall c :: 0 <= c < |columns| ==> filled[c].parameter == columns[c].parameter;
    var split := HeaderSplits(filled);
    assert split == HeaderSplits(columns);
    var n := LargestCount(split, 0);
    var A := AdjustedHeaders(filled, split, n);
    assert A[c].parameter.headerName == PadLines(split[c], n);
    assert A[c].columnValues == columns[c].columnValues + ColumnOf(cellsRows, c);
    assert DrawnColumns(columns, cellsRows) == LongestSet(A, |cellsRows|);
  }

  /** The first longest string over the header lines and the first `rows`
    * values is no shorter than any of them. */
  lemma LongestCovers(header: seq<string>, values: seq<string>, rows: nat)
    requires |header| > 0 && rows <= |values|
    ensures var m := FirstLongest(header + values[..rows]);
      (forall r :: 0 <= r < |header| ==> |header[r]| <= |m|)
      && (forall r :: 0 <= r < rows ==> |values[r]| <= |m|)
  {
    var strings := header + values[..rows];
    FirstLongestIsLongest(strings);
    assert forall r :: 0 <= r < |header| ==> strings[r] == header[r];
    assert forall r :: 0 <= r < rows ==> strings[|header| + r] == values[r];
  }

  /** Padding with `" "` lines adds no `'\n'`. */
  lemma PaddedLinesHaveNoNewline(s: string, largest: nat)
    ensures var padded := PadLines(SplitLines(s), largest);
      forall r :: 0 <= r < |padded| ==> '\n' !in padded[r]
  {
    var lines := SplitLines(s);
    var padded := PadLines(lines, largest);
    SplitLinesHaveNoNewline(s);
    forall r | 0 <= r < |padded| ensures '\n' !in padded[r] {
      if r < |lines| {
        assert padded[r] == padded[..|lines|][r];
      }
    }
  }

  /** A column's values and its cells of the stored rows, none holding a
    * `'\n'`, hold none once appended. */
  lemma AppendedValuesHaveNoNewline(columns: seq<Column>, cellsRows: seq<seq<string>>, c: nat)
    requires c < |columns| && forall r :: 0 <= r < |cellsRows| ==> |columns| <= |cellsRows[r]|
    requires NoNewlineValues(columns, cellsRows)
    ensures var values := columns[c].columnValues + ColumnOf(cellsRows, c);
      forall r :: 0 <= r < |values| ==> '\n' !in values[r]
  {
    var old_ := columns[c].columnValues;
    var values := old_ + ColumnOf(cellsRows, c);
    forall r | 0 <= r < |values| ensures '\n' !in values[r] {
      if r < |old_| {
        assert values[r] == old_[r];
      } else {
        assert values[r] == cellsRows[r - |old_|][c];
      }
    }
  }

  /** Each drawn column has exactly `HeaderRowCount` header lines and a
    * value for every stored row, and every one of those cells fits its
    * column's widest string and holds no `'\n'`; the values do too when
    * none holds a `'\n'`. */
  lemma ColumnFits(columns: seq<Column>, cellsRows: seq<seq<string>>, c: nat)
    requires Drawable(columns, cellsRows) && c < |columns|
    ensures var D := DrawnColumns(columns, cellsRows);
      HeadersFit(D[c], HeaderRowCount(columns), |cellsRows|)
      && (NoNewlineValues(columns, cellsRows) ==> ValuesFit(D[c], |cellsRows|))
  {
    var D, n := DrawnColumns(columns, cellsRows), HeaderRowCount(columns);
    DrawnColumn(columns, cellsRows, c);
    var header := PadLines(HeaderSplits(columns)[c], n);
    var values := columns[c].columnValues + ColumnOf(cellsRows, c);
    assert HeaderSplits(columns)[c] == SplitLines(columns[c].parameter.headerName[0]);
    var col := D[c];
    var m := FirstLongest(header + values[..|cellsRows|]);
    assert col.parameter.headerName == header && col.columnValues == values && col.maxStringSize == m;
    LongestCovers(header, values, |cellsRows|);
    PaddedLinesHaveNoNewline(columns[c].parameter.headerName[0], n);
    assert HeadersFit(col, n, |cellsRows|) by {
      forall r | 0 <= r < n ensures |header[r]| <= |m| && '\n' !in header[r] { }
    }
    if NoNewlineValues(columns, cellsRows) {
      AppendedValuesHaveNoNewline(columns, cellsRows, c);
      assert ValuesFit(col, |cellsRows|) by {
        forall r | 0 <= r < |cellsRows| ensures |values[r]| <= |m| && '\n' !in values[r] { }
      }
    }
  }

  /** Widening only lengthens the widest strings, so cells that fitted still
    * fit. */
  lemma WidenedKeepsFit(columns: seq<Column>, extra: nat, columnMargin: nat, r: nat, section: TableSection)
    requires forall c :: 0 <= c < |columns| ==> HasRow(columns[c], r, section)
    requires CellsFit(columns, r, section)
    ensures var W := WidenedColumns(columns, extra, columnMargin);
      (forall c :: 0 <= c < |W| ==> HasRow(W[c], r, section)) && CellsFit(W, r, section)
  {
    var W := WidenedColumns(columns, extra, columnMargin);
    forall c | 0 <= c < |W|
      ensures W[c].parameter == columns[c].parameter && W[c].columnValues == columns[c].columnValues
      ensures |W[c].maxStringSize| >= |columns[c].maxStringSize|
    {
    }
  }

  /** Row `r` of `section` has a cell in every column, and each fits. */
  predicate RowDrawable(columns: seq<Column>, r: nat, section: TableSection) {
    (forall c :: 0 <= c < |columns| ==> HasRow(columns[c], r, section)) && CellsFit(columns, r, section)
  }

  /** Row `r` of `section` exists in every column and is drawn as a line
    * exactly one longer, its newline, than the section separator. */
  predicate RowCloses(columns: seq<Column>, r: nat, section: TableSection, borderMargin: nat, columnMargin: nat)
    requires |columns| > 0 && columnMargin > 0
  {
    (forall c :: 0 <= c < |columns| ==> HasRow(columns[c], r, section))
    && |RowLine(columns, r, section, borderMargin, columnMargin)| == |Separator(columns, borderMargin, columnMargin)| + 1
  }

  /** Each of the first `n` rows of `section` closes the frame. */
  predicate RowsClose(columns: seq<Column>, n: nat, section: TableSection, borderMargin: nat, columnMargin: nat)
    requires |columns| > 0 && columnMargin > 0
  {
    forall r :: 0 <= r < n ==> RowCloses(columns, r, section, borderMargin, columnMargin)
  }

  lemma RowsCloseWhenFit(columns: seq<Column>, n: nat, section: TableSection, borderMargin: nat, columnMargin: nat)
    requires |columns| > 0 && columnMargin > 0
    requires forall r :: 0 <= r < n ==> RowDrawable(columns, r, section)
    ensures RowsClose(columns, n, section, borderMargin, columnMargin)
  {
    forall r | 0 <= r < n
      ensures RowCloses(columns, r, section, borderMargin, columnMargin)
    {
      assert RowDrawable(columns, r, section);
      RowLineMatchesSeparator(columns, r, section, borderMargin, columnMargin);
    }
  }

  /** Every line `draw` writes for a header row, and for a value row when
    * no value holds a `'\n'`, is exactly as long as the separator lines,
    * and the centred title fits between the title row's borders, so the
    * frame closes. */
  lemma DrawnFrameCloses(columns: seq<Column>, cellsRows: seq<seq<string>>, title: string,
                         borderMargin: nat, columnMargin: nat, marginTitle: nat)
    requires Drawable(columns, cellsRows) && columnMargin == 2 * borderMargin + 1
    ensures var F := FramedColumns(DrawnColumns(columns, cellsRows), title, borderMargin, columnMargin, marginTitle);
      RowsClose(F, HeaderRowCount(columns), Header, borderMargin, columnMargin)
      && (NoNewlineValues(columns, cellsRows) ==> RowsClose(F, |cellsRows|, Values, borderMargin, columnMargin))
      && |CentredTitle(title, marginTitle)| <= |Separator(F, borderMargin, columnMargin)| - 2
  {
    var D := DrawnColumns(columns, cellsRows);
    var F := FramedColumns(D, title, borderMargin, columnMargin, marginTitle);
    var n := HeaderRowCount(columns);
    forall c | 0 <= c < |D|
      ensures HeadersFit(D[c], n, |cellsRows|)
      ensures NoNewlineValues(columns, cellsRows) ==> ValuesFit(D[c], |cellsRows|)
    {
      ColumnFits(columns, cellsRows, c);
    }
    forall r | 0 <= r < n
      ensures RowDrawable(F, r, Header)
    {
      HeadersFitRows(D, n, |cellsRows|, r);
      FramedKeepsFit(D, title, borderMargin, columnMargin, marginTitle, r, Header);
    }
    RowsCloseWhenFit(F, n, Header, borderMargin, columnMargin);
    if NoNewlineValues(columns, cellsRows) {
      forall r | 0 <= r < |cellsRows|
        ensures RowDrawable(F, r, Values)
      {
        ValuesFitRows(D, n, |cellsRows|, r);
        FramedKeepsFit(D, title, borderMargin, columnMargin, marginTitle, r, Values);
      }
      RowsCloseWhenFit(F, |cellsRows|, Values, borderMargin, columnMargin);
    }
    TitleFits(D, borderMargin, columnMargin, |title| + 2 * marginTitle);
    if title != [] {
      FormatLayout(title, |title| + 2 * marginTitle, Middle, ' ');
    }
  }

  lemma FramedKeepsFit(columns: seq<Column>, title: string, borderMargin: nat, columnMargin: nat, marginTitle: nat,
                       r: nat, section: TableSection)
    requires |columns| > 0
    requires forall c :: 0 <= c < |columns| ==> HasRow(columns[c], r, section)
    requires CellsFit(columns, r, section)
    ensures var F := FramedColumns(columns, title, borderMargin, columnMargin, marginTitle);
      (forall c :: 0 <= c < |F| ==> HasRow(F[c], r, section)) && CellsFit(F, r, section)
  {
    var section' := SectionLineLength(columns, borderMargin, columnMargin);
    var titleLine := |title| + 2 * marginTitle;
    if section' < titleLine {
      WidenedKeepsFit(columns, ExtraPerColumn(titleLine - section', |columns|), columnMargin, r, section);
    }
  }

  /** One more stored row appends one more cell to each column. */
  lemma RowAppended(columns: seq<Column>, rows: seq<seq<string>>, r: nat, c: nat)
    requires r < |rows| && c < |columns|
    requires forall i :: 0 <= i < |rows| ==> |columns| <= |rows[i]|
    ensures WithValues(columns, rows[..r + 1])[c]
      == WithValues(columns, rows[..r])[c].(columnValues := WithValues(columns, rows[..r])[c].columnValues + [rows[r][c]])
  {
    assert ColumnOf(rows[..r + 1], c) == ColumnOf(rows[..r], c) + [rows[r][c]];
  }

  /** Every drawn column has `HeaderRowCount` header lines and a value for
    * every stored row. */
  lemma DrawnColumnsShape(columns: seq<Column>, cellsRows: seq<seq<string>>)
    requires Drawable(columns, cellsRows)
    ensures var D := DrawnColumns(columns, cellsRows);
      forall c :: 0 <= c < |D| ==>
        |D[c].parameter.headerName| == HeaderRowCount(columns) > 0 && |cellsRows| <= |D[c].columnValues|
  {
    forall c | 0 <= c < |columns|
      ensures HeadersFit(DrawnColumns(columns, cellsRows)[c], HeaderRowCount(columns), |cellsRows|)
    {
      ColumnFits(columns, cellsRows, c);
    }
    SomeHeaderTextCounts(columns);
  }

  /** `Drawing` grouped the way `draw` builds it: the title rows, then `rows`
    * grown by the separator line and the two sections. */
  lemma DrawingPieces(columns: seq<Column>, nbHeaderRows: nat, nbValueRows: nat, title: string,
                      borderMargin: nat, columnMargin: nat)
    requires |columns| > 0 && columnMargin > 0
    requires forall c, r :: 0 <= c < |columns| && 0 <= r < nbHeaderRows ==> HasRow(columns[c], r, Header)
    requires forall c, r :: 0 <= c < |columns| && 0 <= r < nbValueRows ==> HasRow(columns[c], r, Values)
    ensures var sep := Separator(columns, borderMargin, columnMargin);
      |sep| >= 2 &&
      Drawing(columns, nbHeaderRows, nbValueRows, title, borderMargin, columnMargin)
      == (if title == [] then "" else TitleRow(TopSeparator(sep), title, sep))
         + (sep + "\n" + SectionRows(columns, sep, nbHeaderRows, Header, borderMargin, columnMargin)
            + SectionRows(columns, sep, nbValueRows, Values, borderMargin, columnMargin))
         + "\n"
  {
    var sep := Separator(columns, borderMargin, columnMargin);
    SeparatorLength(columns, borderMargin, columnMargin);
    var t := if title == [] then "" else TitleRow(TopSeparator(sep), title, sep);
    var h := SectionRows(columns, sep, nbHeaderRows, Header, borderMargin, columnMargin);
    var v := SectionRows(columns, sep, nbValueRows, Values, borderMargin, columnMargin);
    AppendAssociates(t, sep + "\n" + h, v);
    AppendAssociates(t, sep + "\n", h);
    AppendAssociates(t, sep, "\n");
  }

  /** Framing changes only the widest strings, so every header and value
    * row is still there. */
  lemma FramedShape(columns: seq<Column>, title: string, borderMargin: nat, columnMargin: nat, marginTitle: nat,
                    nbHeaderRows: nat, nbValueRows: nat)
    requires |columns| > 0
    requires forall c :: 0 <= c < |columns| ==>
      |columns[c].parameter.headerName| == nbHeaderRows && nbValueRows <= |columns[c].columnValues|
    ensures var F := FramedColumns(columns, title, borderMargin, columnMargin, marginTitle);
      (forall c, r :: 0 <= c < |F| && 0 <= r < nbHeaderRows ==> HasRow(F[c], r, Header))
      && (forall c, r :: 0 <= c < |F| && 0 <= r < nbValueRows ==> HasRow(F[c], r, Values))
  {
    var F := FramedColumns(columns, title, borderMargin, columnMargin, marginTitle);
    assert forall c :: 0 <= c < |F| ==>
      F[c].parameter == columns[c].parameter && F[c].columnValues == columns[c].columnValues;
  }

  /** The intermediate states of `draw`: filling keeps the header names,
    * padding leaves every column a line and a value per stored row, and
    * the widest strings of the result are the drawn columns. */
  lemma DrawStages(columns: seq<Column>, cellsRows: seq<seq<string>>)
    requires Drawable(columns, cellsRows)
    ensures var filled := WithValues(columns, cellsRows);
      (forall c :: 0 <= c < |filled| ==> filled[c].parameter == columns[c].parameter)
      && HeaderSplits(filled) == HeaderSplits(columns)
      && var adjusted := AdjustedHeaders(filled, HeaderSplits(columns), HeaderRowCount(columns));
      (forall c :: 0 <= c < |adjusted| ==>
        |adjusted[c].parameter.headerName| > 0 && |cellsRows| <= |adjusted[c].columnValues|)
      && DrawnColumns(columns, cellsRows) == LongestSet(adjusted, |cellsRows|)
  {
    var filled := WithValues(columns, cellsRows);
    assert forall c :: 0 <= c < |filled| ==> filled[c].parameter == columns[c].parameter;
    assert HeaderSplits(filled) == HeaderSplits(columns);
    SomeHeaderTextCounts(columns);
  }
}
