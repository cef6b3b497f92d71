/** The `#`-framed log banner of src/coreComponents/codingUtilities/Section.cpp:
  * a title, a list of description lines, and the row length that frames
  * both. Section.hpp is not part of this model: the constants
  * `m_marginBorder`, `m_nbSpecialChar` and `m_embeddingName` are
  * parameters. The stream the banner is written to is modelled as the
  * returned string. `GEOS_FMT` width specifiers are `TableLayout.Format`. */
module SectionLayout {
  import opened TableLayout

  /** `"End : "`, the footer's prefix. */
  const footer: string := "End : "

  /** `titleLength` of `computeMaxRowSize`: the footer line with its margins
    * and its special characters. */
  function FooterWidth(title: string, marginBorder: nat, nbSpecialChar: nat): nat {
    |footer| + |title| + marginBorder * 2 + nbSpecialChar * 2
  }

  /** The width a description needs: its text, its margins and its special
    * characters. */
  function DescriptionWidth(description: string, marginBorder: nat, nbSpecialChar: nat): nat {
    |description| + marginBorder * 2 + nbSpecialChar * 2
  }

  /** `m_rowLength` as `computeMaxRowSize` leaves it: the minimum width or
    * the footer's width, then the widest description's when there is one. */
  function RowLength(minWidth: int, title: string, descriptions: seq<string>,
                     marginBorder: nat, nbSpecialChar: nat): int
  {
    var r := Max(minWidth, FooterWidth(title, marginBorder, nbSpecialChar));
    if |descriptions| == 0 then r
    else Max(DescriptionWidth(FirstLongest(descriptions), marginBorder, nbSpecialChar), r)
  }

  /** The row length is the least bound of the three widths: no smaller than
    * the minimum, the footer or any description, and equal to one of them. */
  lemma RowLengthIsLeastBound(minWidth: int, title: string, descriptions: seq<string>,
                              marginBorder: nat, nbSpecialChar: nat)
    ensures var r := RowLength(minWidth, title, descriptions, marginBorder, nbSpecialChar);
      r >= minWidth && r >= FooterWidth(title, marginBorder, nbSpecialChar)
      && (forall i :: 0 <= i < |descriptions| ==> r >= DescriptionWidth(descriptions[i], marginBorder, nbSpecialChar))
      && (r == minWidth || r == FooterWidth(title, marginBorder, nbSpecialChar)
          || exists i :: 0 <= i < |descriptions| && r == DescriptionWidth(descriptions[i], marginBorder, nbSpecialChar))
  {
    if |descriptions| > 0 {
      FirstLongestIsLongest(descriptions);
      FirstLongestIsFirst(descriptions);
    }
  }

  /** The row length leaves room for the special characters on both sides
    * and one margin. */
  lemma RowLengthCoversMargins(minWidth: int, title: string, descriptions: seq<string>,
                               marginBorder: nat, nbSpecialChar: nat)
    ensures RowLength(minWidth, title, descriptions, marginBorder, nbSpecialChar) >= nbSpecialChar * 2 + marginBorder
  {
    RowLengthIsLeastBound(minWidth, title, descriptions, marginBorder, nbSpecialChar);
  }

  /** The lines `formatAndInsertDescriptions` appends: `"- name: "` and the
    * first value, then each further value after `|name| + embeddingName`
    * columns of spaces (at least one: the `" "` is never truncated). */
  function DescriptionLines(name: string, values: seq<string>, embeddingName: nat): (lines: seq<string>)
    requires |values| > 0
    ensures |lines| == |values|
  {
    seq(|values|, i requires 0 <= i < |values| =>
      if i == 0 then "- " + name + ": " + values[0]
      else Format(" ", |name| + embeddingName, Right, ' ') + values[i])
  }

  /** The first line names the description and holds the first value; every
    * further line is spaces up to `Max(1, |name| + embeddingName)` and then
    * its value. */
  lemma DescriptionLinesLayout(name: string, values: seq<string>, embeddingName: nat)
    requires |values| > 0
    ensures var lines := DescriptionLines(name, values, embeddingName);
      lines[0][..|name| + 4] == "- " + name + ": " && lines[0][|name| + 4..] == values[0]
      && forall i :: 1 <= i < |values| ==>
        var indent := Max(1, |name| + embeddingName);
        |lines[i]| == indent + |values[i]| && lines[i][indent..] == values[i]
        && forall j :: 0 <= j < indent ==> lines[i][j] == ' '
  {
    var lines := DescriptionLines(name, values, embeddingName);
    assert lines[0] == ("- " + name + ": ") + values[0];
    forall i | 1 <= i < |values|
      ensures var indent := Max(1, |name| + embeddingName);
        |lines[i]| == indent + |values[i]| && lines[i][indent..] == values[i]
        && forall j :: 0 <= j < indent ==> lines[i][j] == ' '
    {
      var pad := Format(" ", |name| + embeddingName, Right, ' ');
      FormatLayout(" ", |name| + embeddingName, Right, ' ');
      assert lines[i] == pad + values[i];
      forall j | 0 <= j < |pad| ensures pad[j] == ' ' {
        if j == |pad| - 1 {
          assert pad[Offset(" ", |name| + embeddingName, Right)..][0] == ' ';
        }
      }
    }
  }

  /** With an embedding of 4, the width of `"- "` and `": "`, every further
    * value starts in the column of the first. */
  lemma ValuesLineUp(name: string, values: seq<string>)
    requires |values| > 0
    ensures var lines := DescriptionLines(name, values, 4);
      forall i :: 0 <= i < |values| ==> |lines[i]| >= |name| + 4 && lines[i][|name| + 4..] == values[i]
  {
    DescriptionLinesLayout(name, values, 4);
  }

  /** `lineSection`: `rowLength` `#` and a newline. */
  function LineSection(rowLength: nat): string {
    Fill(rowLength, '#') + "\n"
  }

  /** A text centred between `##` and `##` over `width` columns. */
  function CentredLine(text: string, width: nat): string {
    "##" + Format(text, width, Middle, ' ') + "##\n"
  }

  /** One description line of `begin`: the margin, the description padded
    * to `width`, and a blank line after the last. */
  function DescriptionRow(description: string, marginBorder: nat, width: nat, last: bool): string {
    "##" + Format(" ", marginBorder, Left, ' ') + Format(description, width, Left, ' ') + "##"
    + (if last then "\n\n" else "\n")
  }

  function DescriptionRows(descriptions: seq<string>, marginBorder: nat, width: nat): (rows: seq<string>)
    ensures |rows| == |descriptions|
  {
    seq(|descriptions|, i requires 0 <= i < |descriptions| =>
      DescriptionRow(descriptions[i], marginBorder, width, i == |descriptions| - 1))
  }

  /** What `begin` writes once the row length is computed: a blank line, the
    * `#` line, the centred title, the `#` line, then the descriptions or a
    * blank line when there are none. */
  function BeginText(rowLength: nat, title: string, descriptions: seq<string>,
                     marginBorder: nat, nbSpecialChar: nat): string
    requires rowLength >= nbSpecialChar * 2 + marginBorder
  {
    var descriptionLength := rowLength - nbSpecialChar * 2 - marginBorder;
    "\n" + LineSection(rowLength) + CentredLine(title, rowLength - nbSpecialChar * 2) + LineSection(rowLength)
    + (if |descriptions| == 0 then "\n"
       else Concat(DescriptionRows(descriptions, marginBorder, descriptionLength)))
  }

  /** What `end` writes: a blank line, the centred footer, the `#` line and
    * a blank line. */
  function EndText(rowLength: nat, title: string, nbSpecialChar: nat): string
    requires rowLength >= nbSpecialChar * 2
  {
    "\n" + CentredLine(footer + title, rowLength - nbSpecialChar * 2) + LineSection(rowLength) + "\n"
  }

  /** The frame closes: with the two-character `##` borders that the format
    * strings hard-code and a margin of at least one column, the title line,
    * every description line and the footer line are exactly as long as the
    * `#` lines, once the row length is computed for that title and those
    * descriptions. */
  lemma BannerCloses(minWidth: int, title: string, descriptions: seq<string>, marginBorder: nat)
    requires marginBorder >= 1
    ensures var rowLength := RowLength(minWidth, title, descriptions, marginBorder, 2);
      rowLength >= 4 + marginBorder
      && |CentredLine(title, rowLength - 4)| == rowLength + 1
      && |CentredLine(footer + title, rowLength - 4)| == rowLength + 1
      && forall i :: 0 <= i < |descriptions| ==>
        |DescriptionRow(descriptions[i], marginBorder, rowLength - 4 - marginBorder, false)| == rowLength + 1
  {
    RowLengthIsLeastBound(minWidth, title, descriptions, marginBorder, 2);
  }

  /** The title sits in the middle of its line: the padding before it is
    * half the padding, rounded down. */
  lemma TitleCentred(title: string, width: nat)
    requires |title| <= width
    ensures var line := CentredLine(title, width);
      var off := 2 + (width - |title|) / 2;
      line[off..off + |title|] == title
      && forall j :: 2 <= j < off ==> line[j] == ' '
  {
    var cell := Format(title, width, Middle, ' ');
    FormatLayout(title, width, Middle, ' ');
    var line := CentredLine(title, width);
    assert line == "##" + cell + "##\n";
    assert forall j :: 2 <= j < 2 + |cell| ==> line[j] == cell[j - 2];
    assert line[2 + (width - |title|) / 2..2 + (width - |title|) / 2 + |title|]
      == cell[(width - |title|) / 2..(width - |title|) / 2 + |title|];
  }
}

/** The `Section` object: its title, its descriptions and the row length
  * `begin` computes, updated in place. */
module Section {
  import opened TableLayout
  import opened SectionLayout

  class Section {
    var rowMinWidth: int
    var rowLength: int
    var descriptions: seq<string>
    var sectionTitle: string
    /** The constants `m_marginBorder`, `m_nbSpecialChar` and
      * `m_embeddingName` of Section.hpp. */
    const marginBorder: nat
    const nbSpecialChar: nat
    const embeddingName: nat

    /** A section with no title and no description; the minimum width is
      * 20. */
    constructor(marginBorder: nat, nbSpecialChar: nat, embeddingName: nat)
      ensures rowMinWidth == 20 && descriptions == [] && sectionTitle == []
      ensures this.marginBorder == marginBorder && this.nbSpecialChar == nbSpecialChar
      ensures this.embeddingName == embeddingName
    {
      this.marginBorder, this.nbSpecialChar, this.embeddingName := marginBorder, nbSpecialChar, embeddingName;
      rowMinWidth := 20;
      descriptions, sectionTitle := [], [];
    }

    method SetName(title: string)
      modifies this
      ensures sectionTitle == title
      ensures rowMinWidth == old(rowMinWidth) && rowLength == old(rowLength) && descriptions == old(descriptions)
    {
      sectionTitle := title;
    }

    /** Appends one description at the end and changes nothing else. */
    method AddDescription(description: string)
      modifies this
      ensures descriptions == old(descriptions) + [description]
      ensures rowMinWidth == old(rowMinWidth) && rowLength == old(rowLength) && sectionTitle == old(sectionTitle)
    {
      descriptions := descriptions + [description];
    }

    method SetMinWidth(minWidth: int)
      modifies this
      ensures rowMinWidth == minWidth
      ensures rowLength == old(rowLength) && descriptions == old(descriptions) && sectionTitle == old(sectionTitle)
    {
      rowMinWidth := minWidth;
    }

    /** Sets the row length to the least bound of the minimum width, the
      * footer width of `title` and the widths of `rowsDescription`. */
    method ComputeMaxRowSize(title: string, rowsDescription: seq<string>)
      modifies this
      ensures rowMinWidth == old(rowMinWidth) && descriptions == old(descriptions) && sectionTitle == old(sectionTitle)
      ensures rowLength == RowLength(rowMinWidth, title, rowsDescription, marginBorder, nbSpecialChar)
    {
      var titleLength := FooterWidth(title, marginBorder, nbSpecialChar);
      rowLength := Max(rowMinWidth, titleLength);
      if |rowsDescription| == 0 {
        return;
      }
      var maxDescriptionSize := FirstLongest(rowsDescription);
      var maxDescriptionLength := DescriptionWidth(maxDescriptionSize, marginBorder, nbSpecialChar);
      rowLength := Max(maxDescriptionLength, rowLength);
    }

    /** Appends the lines of a named, multi-valued description. `values[0]`
      * is read unconditionally, so there must be one. */
    method FormatAndInsertDescriptions(descriptionName: string, descriptionValues: seq<string>)
      requires |descriptionValues| > 0
      modifies this
      ensures descriptions == old(descriptions) + DescriptionLines(descriptionName, descriptionValues, embeddingName)
      ensures rowMinWidth == old(rowMinWidth) && rowLength == old(rowLength) && sectionTitle == old(sectionTitle)
    {
      ghost var lines := DescriptionLines(descriptionName, descriptionValues, embeddingName);
      var descriptionLength := |descriptionName| + embeddingName;
      var descs := descriptions + ["- " + descriptionName + ": " + descriptionValues[0]];
      var idxValue := 1;
      while idxValue < |descriptionValues|
        invariant 1 <= idxValue <= |descriptionValues|
        invariant descs == descriptions + lines[..idxValue]
      {
        assert lines[..idxValue + 1] == lines[..idxValue] + [lines[idxValue]];
        descs := descs + [Format(" ", descriptionLength, Right, ' ') + descriptionValues[idxValue]];
        idxValue := idxValue + 1;
      }
      assert lines[..|descriptionValues|] == lines;
      descriptions := descs;
    }

    method Clear()
      modifies this
      ensures descriptions == [] && sectionTitle == []
      ensures rowMinWidth == old(rowMinWidth) && rowLength == old(rowLength)
    {
      descriptions := [];
      sectionTitle := [];
    }

    /** Computes the row length for the current title and descriptions and
      * writes the opening banner. */
    method Begin() returns (oss: string)
      modifies this
      ensures rowMinWidth == old(rowMinWidth) && descriptions == old(descriptions) && sectionTitle == old(sectionTitle)
      ensures rowLength == RowLength(rowMinWidth, sectionTitle, descriptions, marginBorder, nbSpecialChar)
      ensures rowLength >= nbSpecialChar * 2 + marginBorder
      ensures oss == BeginText(rowLength, sectionTitle, descriptions, marginBorder, nbSpecialChar)
    {
      ComputeMaxRowSize(sectionTitle, descriptions);
      RowLengthCoversMargins(rowMinWidth, sectionTitle, descriptions, marginBorder, nbSpecialChar);
      oss := Banner(rowLength, sectionTitle, descriptions, marginBorder, nbSpecialChar);
    }

    /** The writing part of `begin`, once the row length is known. */
    static method Banner(rowLength: nat, sectionTitle: string, descriptions: seq<string>,
                         marginBorder: nat, nbSpecialChar: nat) returns (oss: string)
      requires rowLength >= nbSpecialChar * 2 + marginBorder
      ensures oss == BeginText(rowLength, sectionTitle, descriptions, marginBorder, nbSpecialChar)
    {
      var lineSection := LineSection(rowLength);
      var titleLength := rowLength - nbSpecialChar * 2;
      var descriptionLength := rowLength - nbSpecialChar * 2 - marginBorder;
      oss := "\n" + lineSection;
      oss := oss + CentredLine(sectionTitle, titleLength);
      oss := oss + lineSection;
      if |descriptions| == 0 {
        oss := oss + "\n";
        return;
      }
      oss := DescriptionBlock(oss, descriptions, marginBorder, descriptionLength);
    }

    /** The description loop of `begin`. */
    static method DescriptionBlock(prefix: string, descriptions: seq<string>, marginBorder: nat, descriptionLength: nat)
      returns (oss: string)
      ensures oss == prefix + Concat(DescriptionRows(descriptions, marginBorder, descriptionLength))
    {
      ghost var rows := DescriptionRows(descriptions, marginBorder, descriptionLength);
      oss := prefix;
      var idx := 0;
      while idx < |descriptions|
        invariant 0 <= idx <= |descriptions|
        invariant oss == prefix + Concat(rows[..idx])
      {
        var line := "##" + Format(" ", marginBorder, Left, ' ') + Format(descriptions[idx], descriptionLength, Left, ' ') + "##";
        if idx != |descriptions| - 1 {
          line := line + "\n";
        } else {
          line := line + "\n\n";
        }
        assert rows[..idx + 1][..idx] == rows[..idx] && line == rows[idx];
        AppendAssociates(prefix, Concat(rows[..idx]), line);
        oss := oss + line;
        idx := idx + 1;
      }
      assert rows[..|descriptions|] == rows;
    }

    /** Writes the closing banner and clears the title and the descriptions.
      * A row length shorter than the two borders would be a negative width,
      * which the formatter rejects. */
    method End() returns (oss: string)
      requires rowLength >= nbSpecialChar * 2
      modifies this
      ensures descriptions == [] && sectionTitle == []
      ensures rowMinWidth == old(rowMinWidth) && rowLength == old(rowLength)
      ensures oss == EndText(rowLength, old(sectionTitle), nbSpecialChar)
    {
      var footerTitle := footer + sectionTitle;
      var titleLength := rowLength - nbSpecialChar * 2;
      var lineSection := LineSection(rowLength);
      oss := "\n";
      oss := oss + CentredLine(footerTitle, titleLength);
      oss := oss + lineSection;
      oss := oss + "\n";
      Clear();
    }
  }
}
