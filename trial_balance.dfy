/**
 * The trial balance page: one line per account with its debit, credit and balance as the
 * server reports them (each possibly missing), the two totals, the table that leaves zero and
 * missing figures blank, and the CSV export built with `map` and `join`.
 */
module TrialBalance {
  import opened Wrappers
  import Seqs
  import Text
  import Numbers
  import Csv

  /** An account line; the figures are in cents, `None` where the server sends `null`. */
  datatype Line = Line(code: string, name: string, debit: Option<int>, credit: Option<int>, balance: Option<int>)

  /** The trial balance as the server returns it. */
  datatype Data = Data(accounts: seq<Line>, totalDebit: int, totalCredit: int)

  /** A cell of the table as the page shows it. */
  datatype RowView = RowView(code: string, name: string, debit: string, credit: string, balance: string)

  /** What the page shows. */
  datatype View =
    | SelectBook
    | Nothing
    | Shown(rows: seq<RowView>, totalDebit: string, totalCredit: string)

  /**
   * `v ? v.toFixed(2) : ""`: a missing or zero figure is a blank cell, any other figure is
   * printed with two decimals.
   */
  function DisplayCell(v: Option<int>): (r: string)
    ensures r == "" <==> v == None || v == Some(0)
    ensures r != "" ==> Numbers.ParseNumber(r) == v
  {
    if v == None || v == Some(0) then ""
    else
      Numbers.ParseFixed(v.value);
      Numbers.Fixed2(v.value)
  }

  /** The table row of an account line. */
  function RowOf(a: Line): RowView
  {
    RowView(a.code, a.name, DisplayCell(a.debit), DisplayCell(a.credit), DisplayCell(a.balance))
  }

  /**
   * The page: without a book (`null` or 0) a request to pick one, without data nothing, and
   * otherwise one row per account in order and the two totals with two decimals.
   */
  function Render(bookId: Option<int>, data: Option<Data>): (r: View)
    ensures bookId == None || bookId == Some(0) ==> r == SelectBook
    ensures bookId.Some? && bookId.value != 0 && data == None ==> r == Nothing
    ensures bookId.Some? && bookId.value != 0 && data.Some? ==> r.Shown?
    ensures r.Shown? ==>
      (&& data.Some?
       && |r.rows| == |data.value.accounts|
       && (forall i :: 0 <= i < |r.rows| ==> r.rows[i] == RowOf(data.value.accounts[i]))
       && Numbers.ParseNumber(r.totalDebit) == Some(data.value.totalDebit)
       && Numbers.ParseNumber(r.totalCredit) == Some(data.value.totalCredit))
    ensures r.Shown? ==>
      r.totalDebit == Numbers.Fixed2(data.value.totalDebit) && r.totalCredit == Numbers.Fixed2(data.value.totalCredit)
  {
    if bookId == None || bookId == Some(0) then SelectBook
    else if data == None then Nothing
    else
      var d := data.value;
      Numbers.ParseFixed(d.totalDebit);
      Numbers.ParseFixed(d.totalCredit);
      Shown(Seqs.Map(d.accounts, RowOf), Numbers.Fixed2(d.totalDebit), Numbers.Fixed2(d.totalCredit))
  }

  // ---- CSV ----

  /** A figure as `join` renders it: `null` is an empty cell, a number is printed as JavaScript prints it. */
  function JoinCell(v: Option<int>): (r: string)
    ensures v == None ==> r == ""
    ensures v.Some? ==> Numbers.ParseNumber(r) == v
    ensures Csv.CleanCell(r)
  {
    match v
    case None => ""
    case Some(c) =>
      Numbers.ParsePrinted(c);
      Csv.NumeralIsClean(Numbers.CentsText(c));
      Numbers.CentsText(c)
  }

  /** The cells of an account's row: code, name, debit, credit, balance. */
  function Cells(a: Line): seq<string>
  {
    [a.code, a.name, JoinCell(a.debit), JoinCell(a.credit), JoinCell(a.balance)]
  }

  /** `[acc.account_code, acc.account_name, acc.debit, acc.credit, acc.balance].join(",")`. */
  function Row(a: Line): string
  {
    Csv.Record(Cells(a))
  }

  /** `Account Code,Account Name,Debit,Credit,Balance`, written cell by cell. */
  const Header: string := "Account Code" + "," + "Account Name" + "," + "Debit" + "," + "Credit" + "," + "Balance"

  function HeaderCells(): seq<string>
  {
    ["Account Code", "Account Name", "Debit", "Credit", "Balance"]
  }

  /** The rows of the export below the header, one per account in order. */
  function Table(accounts: seq<Line>): (r: seq<seq<string>>)
    ensures |r| == |accounts| && forall i :: 0 <= i < |accounts| ==> r[i] == Cells(accounts[i])
  {
    Seqs.Map(accounts, Cells)
  }

  /**
   * `exportCSV`: nothing without data, otherwise the header line and a newline followed by the
   * rows joined by newlines, with no newline after the last row.
   */
  function ExportCsv(data: Option<Data>): (r: Option<string>)
    ensures r == None <==> data == None
    ensures r.Some? ==> |r.value| > |Header| && r.value[..|Header| + 1] == Header + "\n"
  {
    if data == None then None
    else
      var rows := Text.Join(Seqs.Map(data.value.accounts, Row), '\n');
      assert (Header + "\n" + rows)[..|Header| + 1] == Header + "\n";
      Some(Header + "\n" + rows)
  }

  // ---- Properties ----

  /** The header row as a record is the header line. */
  lemma HeaderRecord()
    ensures Csv.Record(HeaderCells()) == Header
  {
    Csv.Record5("Account Code", "Account Name", "Debit", "Credit", "Balance");
  }

  /** The joined rows are the records of the table. */
  lemma RowsAreRecords(accounts: seq<Line>)
    ensures Seqs.Map(accounts, Row) == Csv.Records(Table(accounts))
  {
    var l, r := Seqs.Map(accounts, Row), Csv.Records(Table(accounts));
    assert |l| == |r|;
    forall i | 0 <= i < |l| ensures l[i] == r[i] {
    }
  }

  /** With clean codes and names, the header and every row are clean. */
  lemma TableClean(accounts: seq<Line>)
    requires forall i :: 0 <= i < |accounts| ==> Csv.CleanCell(accounts[i].code) && Csv.CleanCell(accounts[i].name)
    ensures Csv.CleanTable([HeaderCells()] + Table(accounts))
  {
    HeaderClean();
    RowsClean(accounts);
    Csv.CleanConcat([HeaderCells()], Table(accounts));
  }

  /** The header cells are clean. */
  lemma HeaderClean()
    ensures Csv.CleanTable([HeaderCells()])
  {
    var h := HeaderCells();
    assert forall c :: 0 <= c < |h| ==> Csv.CleanCell(h[c]);
  }

  /** With a clean code and name, every cell of an account's row is clean. */
  lemma CellsClean(a: Line)
    requires Csv.CleanCell(a.code) && Csv.CleanCell(a.name)
    ensures forall c :: 0 <= c < |Cells(a)| ==> Csv.CleanCell(Cells(a)[c])
  {
    Csv.CleanFive(a.code, a.name, JoinCell(a.debit), JoinCell(a.credit), JoinCell(a.balance));
  }

  /** With clean codes and names, every row below the header is clean. */
  lemma RowsClean(accounts: seq<Line>)
    requires forall i :: 0 <= i < |accounts| ==> Csv.CleanCell(accounts[i].code) && Csv.CleanCell(accounts[i].name)
    ensures Csv.CleanTable(Table(accounts))
  {
    var t := Table(accounts);
    forall i | 0 <= i < |t| ensures forall c :: 0 <= c < |t[i]| ==> Csv.CleanCell(t[i][c]) {
      CellsClean(accounts[i]);
    }
  }

  /**
   * When no code or name holds a comma or a newline, the export reads back as the header row
   * and one row per account in order, with missing figures as empty cells; with no accounts it
   * is the header line alone, ended by its newline. It holds one newline per account, and one
   * when there are none.
   */
  lemma CsvReadsBack(d: Data)
    requires forall i :: 0 <= i < |d.accounts| ==> Csv.CleanCell(d.accounts[i].code) && Csv.CleanCell(d.accounts[i].name)
    ensures var text := ExportCsv(Some(d)).value;
      && Csv.ParseCsv(text) == (if d.accounts == [] then [HeaderCells(), [""]] else [HeaderCells()] + Table(d.accounts))
      && Text.CountChar(text, '\n') == (if d.accounts == [] then 1 else |d.accounts|)
  {
    TableClean(d.accounts);
    RowsAreRecords(d.accounts);
    HeaderRecord();
    Csv.ParseHeaderJoined(HeaderCells(), Table(d.accounts));
  }

  /** With no accounts the export is the header line and its newline. */
  lemma NoAccountsHeaderOnly(d: Data)
    requires d.accounts == []
    ensures ExportCsv(Some(d)) == Some(Header + "\n")
  {
    assert Seqs.Map(d.accounts, Row) == [];
    assert Header + "\n" + [] == Header + "\n";
  }

  /**
   * The table and the export agree on every figure except zero: both leave a missing figure
   * blank and both read back as any other figure, but the export prints a zero as "0" where
   * the table leaves it blank.
   */
  lemma DisplayAndExportAgree(v: Option<int>)
    ensures v == None ==> DisplayCell(v) == "" && JoinCell(v) == ""
    ensures v.Some? && v.value != 0 ==>
      Numbers.ParseNumber(DisplayCell(v)) == v && Numbers.ParseNumber(JoinCell(v)) == v
    ensures v == Some(0) ==> DisplayCell(v) == "" && JoinCell(v) == "0"
  {
    if v == Some(0) {
      assert Numbers.NatText(0) == "0";
    }
  }
}
