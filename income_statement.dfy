/**
 * The income statement page: the income and expense accounts with their amounts as the server
 * reports them, the two totals the page adds up, and the CSV and PDF exports.
 */
module IncomeStatement {
  import opened Wrappers
  import Text
  import Numbers
  import Csv
  import Pdf
  import opened Report

  /** The statement as the server returns it; the net income is the server's figure. */
  datatype Statement = Statement(income: seq<Account>, expense: seq<Account>, netIncome: int)

  /** `accounts.reduce((sum, acc) => sum + acc.amount, 0)`: amounts added from the first onwards. */
  function Total(accounts: seq<Account>): int
  {
    if accounts == [] then 0 else Total(accounts[..|accounts| - 1]) + accounts[|accounts| - 1].amount
  }

  /** The sum of the amounts taken from the back: a reference definition for `Total`. */
  function Sum(accounts: seq<Account>): int
  {
    if accounts == [] then 0 else accounts[0].amount + Sum(accounts[1..])
  }

  /** What the page shows. */
  datatype View =
    | SelectBook
    | Nothing
    | Shown(
        incomeAmounts: seq<string>, totalIncome: string,
        expenseAmounts: seq<string>, totalExpense: string,
        netIncome: string)

  /**
   * The page: without a book (`null` or 0) a request to pick one, without data nothing, and
   * otherwise both tables with their totals and the net income.
   */
  function Render(bookId: Option<int>, data: Option<Statement>): (r: View)
    ensures bookId == None || bookId == Some(0) ==> r == SelectBook
    ensures bookId.Some? && bookId.value != 0 && data == None ==> r == Nothing
    ensures bookId.Some? && bookId.value != 0 && data.Some? ==> r.Shown?
    ensures r.Shown? ==>
      (&& bookId.Some? && bookId.value != 0 && data.Some?
       && r.incomeAmounts == AmountCells(data.value.income)
       && r.expenseAmounts == AmountCells(data.value.expense)
       && Numbers.ParseNumber(r.totalIncome) == Some(Sum(data.value.income))
       && Numbers.ParseNumber(r.totalExpense) == Some(Sum(data.value.expense))
       && Numbers.ParseNumber(r.netIncome) == Some(data.value.netIncome))
    ensures r.Shown? ==>
      (&& r.totalIncome == Numbers.Fixed2(Sum(data.value.income))
       && r.totalExpense == Numbers.Fixed2(Sum(data.value.expense))
       && r.netIncome == Numbers.Fixed2(data.value.netIncome))
  {
    if bookId == None || bookId == Some(0) then SelectBook
    else if data == None then Nothing
    else
      var d := data.value;
      TotalIsSum(d.income);
      TotalIsSum(d.expense);
      Numbers.ParseFixed(Total(d.income));
      Numbers.ParseFixed(Total(d.expense));
      Numbers.ParseFixed(d.netIncome);
      Shown(
        AmountCells(d.income), Numbers.Fixed2(Total(d.income)),
        AmountCells(d.expense), Numbers.Fixed2(Total(d.expense)),
        Numbers.Fixed2(d.netIncome))
  }

  // ---- CSV ----

  /** `Section,Account Code,Account Name,Amount`, written cell by cell. */
  const Header: string := "Section" + "," + "Account Code" + "," + "Account Name" + "," + "Amount"

  function HeaderCells(): seq<string>
  {
    ["Section", "Account Code", "Account Name", "Amount"]
  }

  /** `,,Net Income,${data.net_income}`. */
  function NetText(net: int): string
  {
    ",,Net Income," + Numbers.CentsText(net)
  }

  /** The cells of the closing row. */
  function NetCells(net: int): seq<string>
  {
    ["", "", "Net Income", Numbers.CentsText(net)]
  }

  /** The lines of the export: the header, the income lines, the expense lines, the net income line. */
  function Lines(d: Statement): seq<string>
  {
    [Header] + SectionLines("Income", d.income) + SectionLines("Expense", d.expense) + [NetText(d.netIncome)]
  }

  /** The exported text: every line, each ended by a newline. */
  function CsvText(d: Statement): string
  {
    Csv.Terminated(Lines(d))
  }

  /** The cells of the export, row by row, as a reader of the file sees them. */
  function Table(d: Statement): (r: seq<seq<string>>)
    ensures |r| == 2 + |d.income| + |d.expense|
    ensures r[0] == HeaderCells()
    ensures forall i :: 0 <= i < |d.income| ==> r[1 + i] == Cells("Income", d.income[i])
    ensures forall j :: 0 <= j < |d.expense| ==> r[1 + |d.income| + j] == Cells("Expense", d.expense[j])
    ensures r[|r| - 1] == NetCells(d.netIncome)
  {
    [HeaderCells()] + SectionCells("Income", d.income) + SectionCells("Expense", d.expense) + [NetCells(d.netIncome)]
  }

  /** `exportCSV`: nothing without data, otherwise the header, both sections and the net income line. */
  method ExportCsv(data: Option<Statement>) returns (file: Option<string>)
    ensures data == None ==> file == None
    ensures data.Some? ==> file == Some(CsvText(data.value))
  {
    if data == None {
      return None;
    }
    var d := data.value;
    var rows := Header + "\n";
    rows := AppendRows(rows, "Income", d.income);
    rows := AppendRows(rows, "Expense", d.expense);
    var line := ",,Net Income," + Numbers.CentsText(d.netIncome);
    rows := rows + line + "\n";
    CsvTextParts(d);
    return Some(rows);
  }

  // ---- PDF ----

  /**
   * Where the PDF export draws what: the title at 10, "Income" at 20, income rows from 28,
   * "Expenses" 4 below the last income step, expense rows from 8 below that, and the net
   * income 8 below the last expense step.
   */
  function Layout(d: Statement): seq<Pdf.Draw>
  {
    Page(RowTexts(d.income), RowTexts(d.expense), "Net Income: " + Numbers.CentsText(d.netIncome))
  }

  /** The page for the given income rows, expense rows and closing line. */
  function Page(inc: seq<string>, exp: seq<string>, net: string): seq<Pdf.Draw>
  {
    [Pdf.Draw("Income Statement", 10, 10)]
      + Pdf.Section("Income", 20, inc)
      + Pdf.Section("Expenses", 32 + 8 * |inc|, exp)
      + [Pdf.Draw(net, 10, 48 + 8 * |inc| + 8 * |exp|)]
  }

  /** `exportPDF`: the text drawn step by step with a running `y`. */
  method ExportPdf(d: Statement) returns (doc: seq<Pdf.Draw>)
    ensures doc == Layout(d)
  {
    var top := [Pdf.Draw("Income Statement", 10, 10)];
    var doc1, y1 := DrawSection(top, 20, "Income", d.income);
    var doc2, y2 := DrawSection(doc1, y1 + 4, "Expenses", d.expense);
    var net := "Net Income: " + Numbers.CentsText(d.netIncome);
    doc := doc2 + [Pdf.Draw(net, 10, y2 + 8)];
    PageSteps(RowTexts(d.income), RowTexts(d.expense), net, doc1, y1, doc2, y2);
  }

  // ---- Properties ----

  /** The header row as a record is the header line. */
  lemma HeaderRecord()
    ensures Csv.Record(HeaderCells()) == Header
  {
    Csv.Record4("Section", "Account Code", "Account Name", "Amount");
  }

  /** The closing row as a record is the net income line. */
  lemma NetRecord(net: int)
    ensures Csv.Record(NetCells(net)) == NetText(net)
  {
    var x := Numbers.CentsText(net);
    Csv.Record4("", "", "Net Income", x);
    assert "" + "," + "" == ",";
    assert ",,Net Income," == "," + "," + "Net Income" + ",";
  }

  /** The header cells are clean. */
  lemma HeaderClean()
    ensures Csv.CleanTable([HeaderCells()])
  {
    var h := HeaderCells();
    assert forall c :: 0 <= c < |h| ==> Csv.CleanCell(h[c]);
  }

  /** The cells of the net income row are clean. */
  lemma NetClean(net: int)
    ensures Csv.CleanTable([NetCells(net)])
  {
    Csv.NumeralIsClean(Numbers.CentsText(net));
    var h := NetCells(net);
    assert forall c :: 0 <= c < |h| ==> Csv.CleanCell(h[c]);
  }

  /** The export is the header line, the ended income lines, the ended expense lines and the net income line. */
  lemma CsvTextParts(d: Statement)
    ensures CsvText(d) == Header + "\n" + Csv.Terminated(SectionLines("Income", d.income))
      + Csv.Terminated(SectionLines("Expense", d.expense)) + NetText(d.netIncome) + "\n"
  {
    Csv.TerminatedParts(Header, SectionLines("Income", d.income), SectionLines("Expense", d.expense),
      NetText(d.netIncome));
  }

  /** Each line of the export is the record of the matching row of the table. */
  lemma LinesAreRecords(d: Statement)
    ensures Lines(d) == Csv.Records(Table(d))
  {
    var inc, exp := SectionCells("Income", d.income), SectionCells("Expense", d.expense);
    Csv.RecordsConcat([HeaderCells()] + inc + exp, [NetCells(d.netIncome)]);
    Csv.RecordsConcat([HeaderCells()] + inc, exp);
    Csv.RecordsConcat([HeaderCells()], inc);
    HeaderRecord();
    assert Csv.Records([HeaderCells()]) == [Header];
    SectionLinesAreRecords("Income", d.income);
    SectionLinesAreRecords("Expense", d.expense);
    NetRecord(d.netIncome);
    assert Csv.Records([NetCells(d.netIncome)]) == [NetText(d.netIncome)];
  }

  /** The left fold adds up the same amounts as the reference sum. */
  lemma {:induction false} TotalIsSum(accounts: seq<Account>)
    ensures Total(accounts) == Sum(accounts)
  {
    if accounts != [] {
      var k := |accounts| - 1;
      TotalIsSum(accounts[..k]);
      SumSnoc(accounts[..k], accounts[k]);
      assert accounts[..k] + [accounts[k]] == accounts;
    }
  }

  lemma {:induction false} SumSnoc(accounts: seq<Account>, a: Account)
    ensures Sum(accounts + [a]) == Sum(accounts) + a.amount
  {
    if accounts != [] {
      assert (accounts + [a])[1..] == accounts[1..] + [a];
      SumSnoc(accounts[1..], a);
    }
  }

  /** The total of two lists of accounts together is the sum of their totals; no accounts total 0. */
  lemma {:induction false} TotalConcat(a: seq<Account>, b: seq<Account>)
    ensures Total(a + b) == Total(a) + Total(b)
    ensures Total([]) == 0
  {
    if b != [] {
      var k := |b| - 1;
      assert (a + b)[..|a + b| - 1] == a + b[..k];
      TotalConcat(a, b[..k]);
    } else {
      assert a + b == a;
    }
  }

  /** With no amount negative, the total bounds every amount. */
  lemma {:induction false} TotalBoundsAmounts(accounts: seq<Account>)
    requires forall i :: 0 <= i < |accounts| ==> accounts[i].amount >= 0
    ensures Total(accounts) >= 0
    ensures forall i :: 0 <= i < |accounts| ==> accounts[i].amount <= Total(accounts)
  {
    if accounts != [] {
      var k := |accounts| - 1;
      TotalBoundsAmounts(accounts[..k]);
      assert forall i :: 0 <= i < k ==> accounts[..k][i] == accounts[i];
    }
  }

  /** The export starts with the header line. */
  lemma CsvStartsWithHeader(d: Statement)
    ensures |CsvText(d)| > |Header| && CsvText(d)[..|Header| + 1] == Header + "\n"
  {
  }

  /**
   * When no code or name holds a comma or a newline, the export reads back as its table: the
   * header, one `Income` row per income account and one `Expense` row per expense account in
   * their order, the net income row, and nothing after the final newline. It has
   * 2 + |income| + |expense| lines.
   */
  lemma CsvReadsBack(d: Statement)
    requires forall i :: 0 <= i < |d.income| ==> Csv.CleanCell(d.income[i].code) && Csv.CleanCell(d.income[i].name)
    requires forall j :: 0 <= j < |d.expense| ==> Csv.CleanCell(d.expense[j].code) && Csv.CleanCell(d.expense[j].name)
    ensures Csv.ParseCsv(CsvText(d)) == Table(d) + [[""]]
    ensures Text.CountChar(CsvText(d), '\n') == 2 + |d.income| + |d.expense|
  {
    TableClean(d);
    Csv.ParseTerminated(Table(d));
    LinesAreRecords(d);
  }

  /** With clean codes and names, every cell of the export is clean. */
  lemma TableClean(d: Statement)
    requires forall i :: 0 <= i < |d.income| ==> Csv.CleanCell(d.income[i].code) && Csv.CleanCell(d.income[i].name)
    requires forall j :: 0 <= j < |d.expense| ==> Csv.CleanCell(d.expense[j].code) && Csv.CleanCell(d.expense[j].name)
    ensures Csv.CleanTable(Table(d))
  {
    var inc, exp := SectionCells("Income", d.income), SectionCells("Expense", d.expense);
    SectionCellsClean("Income", d.income);
    SectionCellsClean("Expense", d.expense);
    HeaderClean();
    NetClean(d.netIncome);
    Csv.CleanConcat([HeaderCells()], inc);
    Csv.CleanConcat([HeaderCells()] + inc, exp);
    Csv.CleanConcat([HeaderCells()] + inc + exp, [NetCells(d.netIncome)]);
  }

  /** The PDF goes down the page, one draw per heading and account, with the net income last. */
  lemma LayoutDescends(d: Statement)
    ensures Pdf.Descending(Layout(d))
    ensures |Layout(d)| == 4 + |d.income| + |d.expense|
    ensures Layout(d)[|Layout(d)| - 1].text == "Net Income: " + Numbers.CentsText(d.netIncome)
  {
    var net := "Net Income: " + Numbers.CentsText(d.netIncome);
    PageDescends(RowTexts(d.income), RowTexts(d.expense), net);
    PageShape(RowTexts(d.income), RowTexts(d.expense), net);
  }

  /** The steps of the export, each section drawn after the one before, make up the page. */
  lemma PageSteps(inc: seq<string>, exp: seq<string>, net: string,
                  doc1: seq<Pdf.Draw>, y1: int, doc2: seq<Pdf.Draw>, y2: int)
    requires doc1 == [Pdf.Draw("Income Statement", 10, 10)] + Pdf.Section("Income", 20, inc)
    requires y1 == 20 + 8 + 8 * |inc|
    requires doc2 == doc1 + Pdf.Section("Expenses", y1 + 4, exp) && y2 == y1 + 4 + 8 + 8 * |exp|
    ensures doc2 + [Pdf.Draw(net, 10, y2 + 8)] == Page(inc, exp, net)
  {
    assert y1 + 4 == 32 + 8 * |inc| && y2 + 8 == 48 + 8 * |inc| + 8 * |exp|;
  }

  /** The page goes down from the title to the closing line. */
  lemma PageDescends(inc: seq<string>, exp: seq<string>, net: string)
    ensures Pdf.Descending(Page(inc, exp, net))
  {
    var y1, y2 := 32 + 8 * |inc|, 48 + 8 * |inc| + 8 * |exp|;
    Pdf.TwoSectionsBelow([Pdf.Draw("Income Statement", 10, 10)], "Income", 20, inc, "Expenses", y1, exp, net, y2);
  }

  /** The page has the title, two headings, one row per account and the closing line, which comes last. */
  lemma PageShape(inc: seq<string>, exp: seq<string>, net: string)
    ensures |Page(inc, exp, net)| == 4 + |inc| + |exp|
    ensures Page(inc, exp, net)[|Page(inc, exp, net)| - 1].text == net
  {
    Pdf.SectionAt("Income", 20, inc);
    Pdf.SectionAt("Expenses", 32 + 8 * |inc|, exp);
  }

  /** An empty side totals 0, shown as "0.00". */
  lemma EmptySideShowsZero()
    ensures Total([]) == 0 && Numbers.Fixed2(Total([])) == "0.00"
  {
  }
}
