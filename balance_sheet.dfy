/**
 * The balance sheet page: the asset, liability and equity accounts with their balances and the
 * three totals as the server reports them, the displayed "Liabilities + Equity" figure, and the
 * CSV and PDF exports.
 */
module BalanceSheet {
  import opened Wrappers
  import Text
  import Numbers
  import Csv
  import Pdf
  import opened Report

  /** The sheet as the server returns it; an account's `amount` is its balance, in cents. */
  datatype Sheet = Sheet(
    assets: seq<Account>, liabilities: seq<Account>, equity: seq<Account>,
    totalAssets: int, totalLiabilities: int, totalEquity: int)

  /** What the page shows. */
  datatype View =
    | SelectBook
    | Nothing
    | Shown(
        assetAmounts: seq<string>, totalAssets: string,
        liabilityAmounts: seq<string>, totalLiabilities: string,
        equityAmounts: seq<string>, totalEquity: string,
        /** The last row of the equity table. */
        tableLiabilitiesAndEquity: string,
        /** The summary line under the tables. */
        summaryAssets: string, summaryLiabilitiesAndEquity: string)

  /** `data.total_liabilities + data.total_equity`, as the page adds them up for display. */
  function LiabilitiesAndEquity(d: Sheet): int
  {
    d.totalLiabilities + d.totalEquity
  }

  /**
   * The page: without a book (`null` or 0) a request to pick one, without data nothing, and
   * otherwise the three tables with the server's totals, and the sum of the liabilities and
   * equity totals in the equity table and again in the summary.
   */
  function Render(bookId: Option<int>, data: Option<Sheet>): (r: View)
    ensures bookId == None || bookId == Some(0) ==> r == SelectBook
    ensures bookId.Some? && bookId.value != 0 && data == None ==> r == Nothing
    ensures bookId.Some? && bookId.value != 0 && data.Some? ==> r.Shown?
    ensures r.Shown? ==>
      (&& data.Some?
       && r.assetAmounts == AmountCells(data.value.assets)
       && r.liabilityAmounts == AmountCells(data.value.liabilities)
       && r.equityAmounts == AmountCells(data.value.equity)
       && Numbers.ParseNumber(r.totalAssets) == Some(data.value.totalAssets)
       && Numbers.ParseNumber(r.totalLiabilities) == Some(data.value.totalLiabilities)
       && Numbers.ParseNumber(r.totalEquity) == Some(data.value.totalEquity)
       && r.summaryAssets == r.totalAssets
       && r.summaryLiabilitiesAndEquity == r.tableLiabilitiesAndEquity
       && Numbers.ParseNumber(r.tableLiabilitiesAndEquity)
          == Some(LiabilitiesAndEquity(data.value)))
    ensures r.Shown? ==>
      (&& r.totalAssets == Numbers.Money(data.value.totalAssets)
       && r.totalLiabilities == Numbers.Money(data.value.totalLiabilities)
       && r.totalEquity == Numbers.Money(data.value.totalEquity)
       && r.tableLiabilitiesAndEquity == Numbers.Money(LiabilitiesAndEquity(data.value)))
  {
    if bookId == None || bookId == Some(0) then SelectBook
    else if data == None then Nothing
    else
      var d := data.value;
      Shown(
        AmountCells(d.assets), Numbers.Money(d.totalAssets),
        AmountCells(d.liabilities), Numbers.Money(d.totalLiabilities),
        AmountCells(d.equity), Numbers.Money(d.totalEquity),
        Numbers.Money(LiabilitiesAndEquity(d)),
        Numbers.Money(d.totalAssets), Numbers.Money(LiabilitiesAndEquity(d)))
  }

  // ---- CSV ----

  /** `Section,Account Code,Account Name,Balance`, written cell by cell. */
  const Header: string := "Section" + "," + "Account Code" + "," + "Account Name" + "," + "Balance"

  function HeaderCells(): seq<string>
  {
    ["Section", "Account Code", "Account Name", "Balance"]
  }

  /** The lines of the export: the header, then the asset, liability and equity lines. */
  function Lines(d: Sheet): seq<string>
  {
    [Header] + SectionLines("Asset", d.assets) + SectionLines("Liability", d.liabilities)
      + SectionLines("Equity", d.equity)
  }

  /** The exported text: every line, each ended by a newline. */
  function CsvText(d: Sheet): string
  {
    Csv.Terminated(Lines(d))
  }

  /** The cells of the export, row by row, as a reader of the file sees them. */
  function Table(d: Sheet): seq<seq<string>>
  {
    [HeaderCells()] + SectionCells("Asset", d.assets) + SectionCells("Liability", d.liabilities)
      + SectionCells("Equity", d.equity)
  }

  /** `exportCSV`: nothing without data, otherwise the header and the three sections. */
  method ExportCsv(data: Option<Sheet>) returns (file: Option<string>)
    ensures data == None ==> file == None
    ensures data.Some? ==> file == Some(CsvText(data.value))
  {
    if data == None {
      return None;
    }
    var d := data.value;
    var rows := Header + "\n";
    rows := AppendRows(rows, "Asset", d.assets);
    rows := AppendRows(rows, "Liability", d.liabilities);
    rows := AppendRows(rows, "Equity", d.equity);
    CsvTextParts(d);
    return Some(rows);
  }

  // ---- PDF ----

  /**
   * Where the PDF export draws what: the title at 10, "Assets" at 20 with its rows from 28,
   * and "Liabilities" and "Equity" each 4 below the last step of the section before.
   */
  function Layout(d: Sheet): seq<Pdf.Draw>
  {
    Page(RowTexts(d.assets), RowTexts(d.liabilities), RowTexts(d.equity))
  }

  /** The page for the given asset, liability and equity rows. */
  function Page(a: seq<string>, l: seq<string>, e: seq<string>): seq<Pdf.Draw>
  {
    [Pdf.Draw("Balance Sheet", 10, 10)]
      + Pdf.Section("Assets", 20, a)
      + Pdf.Section("Liabilities", 32 + 8 * |a|, l)
      + Pdf.Section("Equity", 44 + 8 * |a| + 8 * |l|, e)
  }

  /** `exportPDF`: the text drawn step by step with a running `y`. */
  method ExportPdf(d: Sheet) returns (doc: seq<Pdf.Draw>)
    ensures doc == Layout(d)
  {
    var top := [Pdf.Draw("Balance Sheet", 10, 10)];
    var doc1, y1 := DrawSection(top, 20, "Assets", d.assets);
    var doc2, y2 := DrawSection(doc1, y1 + 4, "Liabilities", d.liabilities);
    var doc3, y3 := DrawSection(doc2, y2 + 4, "Equity", d.equity);
    doc := doc3;
    PageSteps(RowTexts(d.assets), RowTexts(d.liabilities), RowTexts(d.equity), doc1, y1, doc2, y2, doc3);
  }

  // ---- Properties ----

  /** The header row as a record is the header line. */
  lemma HeaderRecord()
    ensures Csv.Record(HeaderCells()) == Header
  {
    Csv.Record4("Section", "Account Code", "Account Name", "Balance");
  }

  /** The header cells are clean. */
  lemma HeaderClean()
    ensures Csv.CleanTable([HeaderCells()])
  {
    var h := HeaderCells();
    assert forall c :: 0 <= c < |h| ==> Csv.CleanCell(h[c]);
  }

  /** The export is the header line followed by the ended asset, liability and equity lines. */
  lemma CsvTextParts(d: Sheet)
    ensures CsvText(d) == Header + "\n" + Csv.Terminated(SectionLines("Asset", d.assets))
      + Csv.Terminated(SectionLines("Liability", d.liabilities)) + Csv.Terminated(SectionLines("Equity", d.equity))
  {
    Csv.TerminatedSections(Header, SectionLines("Asset", d.assets), SectionLines("Liability", d.liabilities),
      SectionLines("Equity", d.equity));
  }

  /**
   * The rows of the export: the header first, then one `Asset` row per asset, one `Liability`
   * row per liability and one `Equity` row per equity account, each in the server's order.
   */
  lemma TableRows(d: Sheet)
    ensures var t := Table(d);
      && |t| == 1 + |d.assets| + |d.liabilities| + |d.equity|
      && t[0] == HeaderCells()
      && (forall i :: 1 <= i < 1 + |d.assets| ==> t[i] == Cells("Asset", d.assets[i - 1]))
      && (forall i :: 1 + |d.assets| <= i < 1 + |d.assets| + |d.liabilities| ==>
            t[i] == Cells("Liability", d.liabilities[i - (1 + |d.assets|)]))
      && (forall i :: 1 + |d.assets| + |d.liabilities| <= i < |t| ==>
            t[i] == Cells("Equity", d.equity[i - (1 + |d.assets| + |d.liabilities|)]))
  {
    ThreeSectionsAt(HeaderCells(), "Asset", d.assets, "Liability", d.liabilities, "Equity", d.equity);
  }

  /** Each line of the export is the record of the matching row of the table. */
  lemma LinesAreRecords(d: Sheet)
    ensures Lines(d) == Csv.Records(Table(d))
  {
    var a, l, e := SectionCells("Asset", d.assets), SectionCells("Liability", d.liabilities),
      SectionCells("Equity", d.equity);
    Csv.RecordsConcat([HeaderCells()] + a + l, e);
    Csv.RecordsConcat([HeaderCells()] + a, l);
    Csv.RecordsConcat([HeaderCells()], a);
    HeaderRecord();
    assert Csv.Records([HeaderCells()]) == [Header];
    SectionLinesAreRecords("Asset", d.assets);
    SectionLinesAreRecords("Liability", d.liabilities);
    SectionLinesAreRecords("Equity", d.equity);
  }

  /** With clean codes and names, every cell of the export is clean. */
  lemma TableClean(d: Sheet)
    requires forall i :: 0 <= i < |d.assets| ==> Csv.CleanCell(d.assets[i].code) && Csv.CleanCell(d.assets[i].name)
    requires forall i :: 0 <= i < |d.liabilities| ==>
      Csv.CleanCell(d.liabilities[i].code) && Csv.CleanCell(d.liabilities[i].name)
    requires forall i :: 0 <= i < |d.equity| ==> Csv.CleanCell(d.equity[i].code) && Csv.CleanCell(d.equity[i].name)
    ensures Csv.CleanTable(Table(d))
  {
    HeaderClean();
    ThreeSectionsClean(HeaderCells(), "Asset", d.assets, "Liability", d.liabilities, "Equity", d.equity);
  }

  /**
   * When no code or name holds a comma or a newline, the export reads back as its table
   * followed by nothing after the final newline, and has 1 + |assets| + |liabilities| + |equity| lines.
   */
  lemma CsvReadsBack(d: Sheet)
    requires forall i :: 0 <= i < |d.assets| ==> Csv.CleanCell(d.assets[i].code) && Csv.CleanCell(d.assets[i].name)
    requires forall i :: 0 <= i < |d.liabilities| ==>
      Csv.CleanCell(d.liabilities[i].code) && Csv.CleanCell(d.liabilities[i].name)
    requires forall i :: 0 <= i < |d.equity| ==> Csv.CleanCell(d.equity[i].code) && Csv.CleanCell(d.equity[i].name)
    ensures Csv.ParseCsv(CsvText(d)) == Table(d) + [[""]]
    ensures Text.CountChar(CsvText(d), '\n') == 1 + |d.assets| + |d.liabilities| + |d.equity|
  {
    TableClean(d);
    Csv.ParseTerminated(Table(d));
    LinesAreRecords(d);
  }

  /** The steps of the export, each section drawn after the one before, make up the page. */
  lemma PageSteps(a: seq<string>, l: seq<string>, e: seq<string>,
                  doc1: seq<Pdf.Draw>, y1: int, doc2: seq<Pdf.Draw>, y2: int, doc3: seq<Pdf.Draw>)
    requires doc1 == [Pdf.Draw("Balance Sheet", 10, 10)] + Pdf.Section("Assets", 20, a)
    requires y1 == 20 + 8 + 8 * |a|
    requires doc2 == doc1 + Pdf.Section("Liabilities", y1 + 4, l) && y2 == y1 + 4 + 8 + 8 * |l|
    requires doc3 == doc2 + Pdf.Section("Equity", y2 + 4, e)
    ensures doc3 == Page(a, l, e)
  {
    assert y1 + 4 == 32 + 8 * |a| && y2 + 4 == 44 + 8 * |a| + 8 * |l|;
  }

  /** The page goes down from the title to the last equity row. */
  lemma PageDescends(a: seq<string>, l: seq<string>, e: seq<string>)
    ensures Pdf.Descending(Page(a, l, e))
  {
    var y1, y2 := 32 + 8 * |a|, 44 + 8 * |a| + 8 * |l|;
    Pdf.ThreeSectionsBelow([Pdf.Draw("Balance Sheet", 10, 10)], "Assets", 20, a, "Liabilities", y1, l, "Equity", y2, e);
  }

  /**
   * The page has the title, three headings and one row per account: "Assets" at 20,
   * "Liabilities" 12 below the last asset row's step and "Equity" 12 below the last liability row's.
   */
  lemma PageShape(a: seq<string>, l: seq<string>, e: seq<string>)
    ensures var p := Page(a, l, e);
      && |p| == 4 + |a| + |l| + |e|
      && p[1] == Pdf.Draw("Assets", 10, 20)
      && p[2 + |a|] == Pdf.Draw("Liabilities", 10, 32 + 8 * |a|)
      && p[3 + |a| + |l|] == Pdf.Draw("Equity", 10, 44 + 8 * |a| + 8 * |l|)
  {
    var y1, y2 := 32 + 8 * |a|, 44 + 8 * |a| + 8 * |l|;
    var top := [Pdf.Draw("Balance Sheet", 10, 10)];
    var s1, s2, s3 := Pdf.Section("Assets", 20, a), Pdf.Section("Liabilities", y1, l), Pdf.Section("Equity", y2, e);
    Pdf.SectionAt("Assets", 20, a);
    Pdf.SectionAt("Liabilities", y1, l);
    Pdf.SectionAt("Equity", y2, e);
    assert (top + s1)[1] == s1[0];
    assert (top + s1 + s2)[2 + |a|] == s2[0];
    assert (top + s1 + s2 + s3)[3 + |a| + |l|] == s3[0];
  }

  /** The PDF goes down the page, one draw per heading and account. */
  lemma LayoutDescends(d: Sheet)
    ensures Pdf.Descending(Layout(d))
    ensures |Layout(d)| == 4 + |d.assets| + |d.liabilities| + |d.equity|
  {
    PageDescends(RowTexts(d.assets), RowTexts(d.liabilities), RowTexts(d.equity));
    PageShape(RowTexts(d.assets), RowTexts(d.liabilities), RowTexts(d.equity));
  }
}
