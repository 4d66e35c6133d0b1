/** The fixed-width text report over an array of PCs (PCReport.java):
    a 103-dash banner, the indented title, a second banner, one row per PC
    in input order, and a closing banner without a trailing newline. */
module PcReport {
  import opened Format
  import opened PcEntity

  const BannerWidth: nat := 103
  const TitleIndent: nat := 47
  const Title: string := "PCPROG REPORT"

  /** Length of the three opening lines: 104 + 61 + 104. */
  const HeaderLength: nat := 269

  function Banner(): string
  {
    Repeat('-', BannerWidth)
  }

  /** Banner, indented title and second banner, each ended by a newline. */
  function Header(): string
  {
    Banner() + "\n" + Repeat(' ', TitleIndent) + Title + "\n" + Banner() + "\n"
  }

  lemma HeaderSize()
    ensures |Header()| == HeaderLength
  {
  }

  /** One row: the 1-based index and the four fields of `v`, right-justified
      in cells of widths 3, 20, 6, 20 and 50 (`%3d %20s %6d %20s %50s`),
      then a newline. `compsText` is the text the component set renders as. */
  function Row(index: nat, v: PcView, compsText: CompSet -> string): string
  {
    PadLeft(IntText(index), 3) + " " +
    PadLeft(v.model, 20) + " " +
    PadLeft(IntText(v.year as int), 6) + " " +
    PadLeft(v.manufacturer, 20) + " " +
    PadLeft(compsText(v.comps), 50) + "\n"
  }

  /** The row texts for `vs`: row i carries index i + 1 and the fields of
      `vs[i]`. */
  function Rows(vs: seq<PcView>, compsText: CompSet -> string): seq<string>
  {
    seq(|vs|, i requires 0 <= i < |vs| => Row(i + 1, vs[i], compsText))
  }

  /** The whole report for the PCs `vs`. */
  function Report(vs: seq<PcView>, compsText: CompSet -> string): string
  {
    Header() + Concat(Rows(vs, compsText)) + Banner()
  }

  /** The fields of the PCs in `pcs`, in array order. */
  ghost function Snapshot(pcs: array<PC>): (vs: seq<PcView>)
    reads pcs, pcs[..]
    ensures |vs| == pcs.Length
    ensures forall i | 0 <= i < pcs.Length :: vs[i] == pcs[i].View()
  {
    seq(pcs.Length, i requires 0 <= i < pcs.Length reads pcs, pcs[..] => pcs[i].View())
  }

  /** Appends `n` copies of `c` to `s`, one character per iteration: the
      `for (...) report.append(c)` loops of `displayReport`. */
  method AppendRepeated(s: string, c: char, n: nat) returns (r: string)
    ensures r == s + Repeat(c, n)
  {
    r := s;
    for i := 0 to n
      invariant r == s + Repeat(c, i)
    {
      r := r + [c];
    }
  }

  /** `displayReport`: builds the report by appending to a growing string,
      one banner or indent character at a time and one row per PC. */
  method DisplayReport(pcs: array<PC>, compsText: CompSet -> string) returns (report: string)
    ensures report == Report(Snapshot(pcs), compsText)
  {
    report := AppendRepeated("", '-', 103);
    report := report + "\n";
    report := AppendRepeated(report, ' ', 47);
    report := report + "PCPROG REPORT" + "\n";
    report := AppendRepeated(report, '-', 103);
    report := report + "\n";
    ghost var header := Header();
    assert report == header;

    ghost var vs := Snapshot(pcs);
    ghost var rows := Rows(vs, compsText);
    for i := 0 to pcs.Length
      invariant report == header + Concat(rows[..i])
    {
      var pc := pcs[i];
      var row := PadLeft(IntText(i + 1), 3) + " " +
                 PadLeft(pc.model, 20) + " " +
                 PadLeft(IntText(pc.year as int), 6) + " " +
                 PadLeft(pc.manufacturer, 20) + " " +
                 PadLeft(compsText(pc.comps), 50) + "\n";
      assert row == Row(i + 1, vs[i], compsText) == rows[i];
      ConcatSnoc(rows, i);
      ConcatAssoc(header, Concat(rows[..i]), row);
      report := report + row;
    }
    assert rows[..pcs.Length] == rows;

    report := AppendRepeated(report, '-', 103);
    assert report == Report(vs, compsText);
    assert vs == Snapshot(pcs);
  }

  /** The opening lines: 103 dashes, 47 spaces and the title, 103 dashes,
      each followed by a newline. */
  lemma ReportOpening(vs: seq<PcView>, compsText: CompSet -> string)
    ensures var r := Report(vs, compsText);
      |r| >= HeaderLength &&
      r[..104] == Repeat('-', 103) + "\n" &&
      r[104..165] == Repeat(' ', 47) + "PCPROG REPORT\n" &&
      r[165..HeaderLength] == Repeat('-', 103) + "\n"
  {
    var a := Repeat('-', 103) + "\n";
    var b := Repeat(' ', 47) + "PCPROG REPORT\n";
    var rest := Concat(Rows(vs, compsText)) + Banner();
    assert Header() == a + b + a;
    assert Report(vs, compsText) == (a + b + a) + rest;
    SliceLeft(a + b + a, rest, 0, |a + b + a|);
    ThreeParts(a, b, a);
  }

  /** The report ends with 103 dashes and no trailing newline. */
  lemma ReportClosing(vs: seq<PcView>, compsText: CompSet -> string)
    ensures var r := Report(vs, compsText);
      |r| >= HeaderLength + BannerWidth &&
      r[|r| - 103..] == Repeat('-', 103) && r[|r| - 1] != '\n'
  {
    var r := Report(vs, compsText);
    assert r[|r| - 103..] == Banner();
  }

  /** The report is the fixed frame of 372 characters plus the rows. */
  lemma ReportLength(vs: seq<PcView>, compsText: CompSet -> string)
    ensures |Report(vs, compsText)| == 372 + |Concat(Rows(vs, compsText))|
  {
  }

  /** With no PCs the report is the frame alone: banner, title, banner,
      closing banner, 372 characters in all. */
  lemma EmptyReport(compsText: CompSet -> string)
    ensures Report([], compsText) == Header() + Banner()
    ensures |Report([], compsText)| == 372
  {
  }

  /** The report holds one row per PC, in input order: row k (0-based)
      carries index k + 1 and the fields of `vs[k]`, and starts right after
      the header and the rows before it. */
  lemma ReportRow(vs: seq<PcView>, k: nat, compsText: CompSet -> string)
    requires k < |vs|
    ensures |Rows(vs, compsText)| == |vs|
    ensures Rows(vs, compsText)[k] == Row(k + 1, vs[k], compsText)
    ensures var start := HeaderLength + |Concat(Rows(vs, compsText)[..k])|;
      var row := Rows(vs, compsText)[k];
      start + |row| <= |Report(vs, compsText)| &&
      Report(vs, compsText)[start..start + |row|] == row
  {
    var rows := Rows(vs, compsText);
    var h, z := Header(), Banner();
    HeaderSize();
    assert Report(vs, compsText) == h + Concat(rows) + z;
    PieceOfJoined(h, rows, z, k);
  }


  /** A row for a PC satisfying its invariant, with index below 1000 and year
      below 1,000,000, has its cells at fixed columns: index 0-2, model 4-23,
      year 25-30, manufacturer 32-51, comps from 53, a single space between
      cells. */
  lemma RowLayout(index: nat, v: PcView, compsText: CompSet -> string)
    requires ValidView(v)
    requires 1 <= index < 1000 && v.year < 1000000
    ensures var r := Row(index, v, compsText);
      var c := compsText(v.comps);
      |r| == 54 + Max(50, |c|) &&
      r[..3] == PadLeft(IntText(index), 3) &&
      r[3] == ' ' &&
      r[4..24] == PadLeft(v.model, 20) &&
      r[24] == ' ' &&
      r[25..31] == PadLeft(IntText(v.year as int), 6) &&
      r[31] == ' ' &&
      r[32..52] == PadLeft(v.manufacturer, 20) &&
      r[52] == ' ' &&
      r[53..|r| - 1] == PadLeft(c, 50) &&
      r[|r| - 1] == '\n'
  {
    var i3, m, y := PadLeft(IntText(index), 3), PadLeft(v.model, 20), PadLeft(IntText(v.year as int), 6);
    var f, c := PadLeft(v.manufacturer, 20), PadLeft(compsText(v.comps), 50);
    TextCellWidths(v);
    NumberCellWidths(index, v.year);
    CellColumns(i3, m, y, f, c);
    assert Row(index, v, compsText) == i3 + " " + m + " " + y + " " + f + " " + c + "\n";
  }

  /** In such a row the model is right-aligned: it ends exactly at the last
      column of its 20-character cell. */
  lemma RowModelAligned(index: nat, v: PcView, compsText: CompSet -> string)
    requires ValidView(v)
    requires 1 <= index < 1000 && v.year < 1000000
    ensures var r := Row(index, v, compsText);
      24 <= |r| && r[24 - |v.model|..24] == v.model
  {
    RowLayout(index, v, compsText);
    PadLeftKeepsText(v.model, 20);
    CellEnd(Row(index, v, compsText), 4, 24, v.model);
  }

  /** In such a row the manufacturer is right-aligned: it ends exactly at the
      last column of its 20-character cell. */
  lemma RowManufacturerAligned(index: nat, v: PcView, compsText: CompSet -> string)
    requires ValidView(v)
    requires 1 <= index < 1000 && v.year < 1000000
    ensures var r := Row(index, v, compsText);
      52 <= |r| && r[52 - |v.manufacturer|..52] == v.manufacturer
  {
    RowLayout(index, v, compsText);
    PadLeftKeepsText(v.manufacturer, 20);
    CellEnd(Row(index, v, compsText), 32, 52, v.manufacturer);
  }

  /** Under the invariant alone, the model and manufacturer cells are exactly
      20 characters: both fields have at most 20, so neither widens its cell. */
  lemma TextCellWidths(v: PcView)
    requires ValidView(v)
    ensures |PadLeft(v.model, 20)| == 20
    ensures |PadLeft(v.manufacturer, 20)| == 20
  {
  }

  /** The index and year cells are exactly 3 and 6 characters when the index
      is below 1000 and the year, at least 1940, is below 1,000,000. */
  lemma NumberCellWidths(index: nat, year: int32)
    requires 1 <= index < 1000
    requires ValidYear(year) && year < 1000000
    ensures |PadLeft(IntText(index), 3)| == 3
    ensures |PadLeft(IntText(year as int), 6)| == 6
  {
    DecimalTextLength(index, 3);
    DecimalTextLength(year as int, 6);
  }

  /** Where the five cells of a row sit once the first four have widths
      3, 20, 6 and 20. */
  lemma CellColumns(i3: string, m: string, y: string, f: string, c: string)
    requires |i3| == 3 && |m| == 20 && |y| == 6 && |f| == 20
    ensures var r := i3 + " " + m + " " + y + " " + f + " " + c + "\n";
      |r| == 54 + |c| &&
      r[..3] == i3 && r[3] == ' ' && r[4..24] == m && r[24] == ' ' &&
      r[25..31] == y && r[31] == ' ' && r[32..52] == f && r[52] == ' ' &&
      r[53..|r| - 1] == c && r[|r| - 1] == '\n'
  {
    var p1 := i3 + " ";
    var p2 := p1 + m;
    var p3 := p2 + " ";
    var p4 := p3 + y;
    var p5 := p4 + " ";
    var p6 := p5 + f;
    var p7 := p6 + " ";
    var p8 := p7 + c;
    var r := p8 + "\n";
    // the comps cell
    SliceLeft(p8, "\n", 53, |p8|);
    SliceRight(p7, c, 0, |c|);
    // the manufacturer cell
    SliceLeft(p8, "\n", 32, 52);
    SliceLeft(p7, c, 32, 52);
    SliceLeft(p6, " ", 32, 52);
    SliceRight(p5, f, 0, 20);
    // the year cell
    SliceLeft(p8, "\n", 25, 31);
    SliceLeft(p7, c, 25, 31);
    SliceLeft(p6, " ", 25, 31);
    SliceLeft(p5, f, 25, 31);
    SliceLeft(p4, " ", 25, 31);
    SliceRight(p3, y, 0, 6);
    // the model cell
    SliceLeft(p8, "\n", 4, 24);
    SliceLeft(p7, c, 4, 24);
    SliceLeft(p6, " ", 4, 24);
    SliceLeft(p5, f, 4, 24);
    SliceLeft(p4, " ", 4, 24);
    SliceLeft(p3, y, 4, 24);
    SliceLeft(p2, " ", 4, 24);
    SliceRight(p1, m, 0, 20);
    // the index cell
    SliceLeft(p8, "\n", 0, 3);
    SliceLeft(p7, c, 0, 3);
    SliceLeft(p6, " ", 0, 3);
    SliceLeft(p5, f, 0, 3);
    SliceLeft(p4, " ", 0, 3);
    SliceLeft(p3, y, 0, 3);
    SliceLeft(p2, " ", 0, 3);
    SliceLeft(p1, m, 0, 3);
    SliceLeft(i3, " ", 0, 3);
  }

  /** When every component text fits its 50-character cell, every row is 104
      characters, one more than the banner, so row k starts at character
      269 + 104 * k and the report is 372 + 104 * n characters long. */
  lemma UniformRows(vs: seq<PcView>, k: nat, compsText: CompSet -> string)
    requires k <= |vs| < 1000
    requires forall i | 0 <= i < |vs| :: ValidView(vs[i]) && vs[i].year < 1000000
    requires forall i | 0 <= i < |vs| :: |compsText(vs[i].comps)| <= 50
    ensures |Concat(Rows(vs, compsText)[..k])| == 104 * k
    ensures |Report(vs, compsText)| == 372 + 104 * |vs|
  {
    var rows := Rows(vs, compsText);
    forall i | 0 <= i < |vs|
      ensures |rows[i]| == 104
    {
      RowLayout(i + 1, vs[i], compsText);
    }
    ConcatUniform(rows, 104);
    ConcatUniform(rows[..k], 104);
  }
}
