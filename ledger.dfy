/**
 * The general ledger page: the account picked from a list, the ledger entries the server
 * returns for it, the resets when the book or the selection changes, and the CSV and PDF exports.
 */
module Ledger {
  import opened Wrappers
  import Seqs
  import Text
  import Numbers
  import Csv
  import Pdf

  /** A ledger entry as the server returns it; the figures are in cents. */
  datatype Entry = Entry(date: string, description: string, debit: int, credit: int, balance: int)

  /** The account the ledger is for. */
  datatype AccountInfo = AccountInfo(name: string, code: string, accountType: string)

  /** An account of the book, as the account list offers it. */
  datatype Choice = Choice(id: int, name: string, code: string)

  /** The server's answer: `data.ledger` and `data.account`, either of which may be missing. */
  datatype Response = Response(ledger: Option<seq<Entry>>, account: Option<AccountInfo>)

  /** A number or `null` is truthy when it is present and not 0. */
  predicate Truthy(v: Option<int>)
  {
    v.Some? && v.value != 0
  }

  // ---- CSV ----

  /** The cells of an entry's row: date, description, debit, credit, balance. */
  function Cells(e: Entry): seq<string>
  {
    [e.date, e.description, Numbers.CentsText(e.debit), Numbers.CentsText(e.credit), Numbers.CentsText(e.balance)]
  }

  /** `[l.date, l.description, l.debit, l.credit, l.balance].join(",")`. */
  function Row(e: Entry): string
  {
    Csv.Record(Cells(e))
  }

  /** `Date,Description,Debit,Credit,Balance`, written cell by cell. */
  const Header: string := "Date" + "," + "Description" + "," + "Debit" + "," + "Credit" + "," + "Balance"

  function HeaderCells(): seq<string>
  {
    ["Date", "Description", "Debit", "Credit", "Balance"]
  }

  /** The rows of the export below the header, one per entry in order. */
  function Table(ledger: seq<Entry>): (r: seq<seq<string>>)
    ensures |r| == |ledger| && forall i :: 0 <= i < |ledger| ==> r[i] == Cells(ledger[i])
  {
    Seqs.Map(ledger, Cells)
  }

  /**
   * `exportCSV`: nothing for an empty ledger, otherwise the header line and a newline followed
   * by the rows joined by newlines, with no newline after the last row.
   */
  function ExportCsv(ledger: seq<Entry>): (r: Option<string>)
    ensures r == None <==> ledger == []
    ensures r.Some? ==> |r.value| > |Header| && r.value[..|Header| + 1] == Header + "\n"
  {
    if |ledger| == 0 then None
    else
      var rows := Text.Join(Seqs.Map(ledger, Row), '\n');
      assert (Header + "\n" + rows)[..|Header| + 1] == Header + "\n";
      Some(Header + "\n" + rows)
  }

  // ---- PDF ----

  /** `${l.date} | ${l.description} | Debit: ${l.debit} | Credit: ${l.credit} | Balance: ${l.balance}`. */
  function RowText(e: Entry): string
  {
    e.date + " | " + e.description + " | Debit: " + Numbers.CentsText(e.debit) + " | Credit: "
      + Numbers.CentsText(e.credit) + " | Balance: " + Numbers.CentsText(e.balance)
  }

  /** The PDF texts of the entries, one per entry in order. */
  function RowTexts(ledger: seq<Entry>): (r: seq<string>)
    ensures |r| == |ledger| && forall i :: 0 <= i < |ledger| ==> r[i] == RowText(ledger[i])
  {
    Seqs.Map(ledger, RowText)
  }

  /** `Account: ${accountInfo.name} (${accountInfo.code})`. */
  function AccountLine(info: AccountInfo): string
  {
    "Account: " + info.name + " (" + info.code + ")"
  }

  /** The account line's text, when there is account info. */
  function AccountText(info: Option<AccountInfo>): (r: Option<string>)
    ensures r.Some? <==> info.Some?
  {
    match info
    case None => None
    case Some(a) => Some(AccountLine(a))
  }

  /** Where the PDF export draws what. */
  function Layout(ledger: seq<Entry>, info: Option<AccountInfo>): seq<Pdf.Draw>
  {
    Page(RowTexts(ledger), AccountText(info))
  }

  /** The title at 10, the account line at 18 when there is one, and the rows from 28, 8 apart. */
  function Page(texts: seq<string>, account: Option<string>): seq<Pdf.Draw>
  {
    Top(account) + Pdf.Rows(texts, 28)
  }

  /** What comes before the rows: the title at 10 and the account line at 18 when there is one. */
  function Top(account: Option<string>): (r: seq<Pdf.Draw>)
    ensures |r| == (if account.Some? then 2 else 1)
    ensures r[0] == Pdf.Draw(Title, 10, 10)
    ensures account.Some? ==> r[1] == Pdf.Draw(account.value, 10, 18)
  {
    [Pdf.Draw(Title, 10, 10)] + (if account.Some? then [Pdf.Draw(account.value, 10, 18)] else [])
  }

  const Title: string := "General Ledger"

  /** `exportPDF`: nothing for an empty ledger, otherwise the title, the account line and the rows drawn with a running `y`. */
  method ExportPdf(ledger: seq<Entry>, info: Option<AccountInfo>) returns (doc: Option<seq<Pdf.Draw>>)
    ensures ledger == [] ==> doc == None
    ensures ledger != [] ==> doc == Some(Layout(ledger, info))
  {
    if |ledger| == 0 {
      return None;
    }
    var start := [Pdf.Draw(Title, 10, 10)];
    if info.Some? {
      start := start + [Pdf.Draw(AccountLine(info.value), 10, 18)];
    }
    assert start == Top(AccountText(info));
    var d, _ := Pdf.DrawEach(start, 28, ledger, RowText);
    return Some(d);
  }

  // ---- What the page shows ----

  /** An entry of the account list: the value it selects (`None` for `""`) and its caption. */
  datatype MenuItem = MenuItem(value: Option<int>, caption: string)

  /** Below the heading: the entries' table, or a sentence saying why there is none. */
  datatype Body = Entries(header: seq<string>, rows: seq<seq<string>>) | Message(text: string)

  /** The page: the request for a book, or the account list, the export buttons, the account line and the body. */
  datatype View =
    | SelectBook
    | Shown(menu: seq<MenuItem>, exportDisabled: bool, account: Option<string>, body: Body)

  const BookPrompt: string := "Please select an accounting book."
  const NoEntries: string := "No ledger entries for this account."
  const AccountPrompt: string := "Select an account to view its ledger."

  /** `{acc.name} ({acc.code})`. */
  function ChoiceLabel(c: Choice): string
  {
    c.name + " (" + c.code + ")"
  }

  function ChoiceItem(c: Choice): MenuItem
  {
    MenuItem(Some(c.id), ChoiceLabel(c))
  }

  /** The account list: the empty choice "Select Account", then one item per account in order. */
  function Menu(accounts: seq<Choice>): (r: seq<MenuItem>)
    ensures |r| == |accounts| + 1 && r[0] == MenuItem(None, "Select Account")
    ensures forall i :: 0 <= i < |accounts| ==> r[i + 1] == MenuItem(Some(accounts[i].id), ChoiceLabel(accounts[i]))
  {
    [MenuItem(None, "Select Account")] + Seqs.Map(accounts, ChoiceItem)
  }

  /** `Account: {name} ({code}) | Type: {type}`. */
  function AccountBanner(info: AccountInfo): string
  {
    "Account: " + info.name + " (" + info.code + ") | Type: " + info.accountType
  }

  /**
   * The page for a book, the accounts of the book, the selection, the ledger and the account
   * info. Without a book (`null` or 0) it asks for one. Otherwise the list starts with the empty
   * choice and then offers every account; the export buttons are disabled exactly when there is
   * nothing to export; the account line shows when there is account info; and the body is the
   * entries' table when there are entries, otherwise a sentence that depends on whether an
   * account is selected.
   */
  function Render(bookId: Option<int>, accounts: seq<Choice>, selected: Option<int>,
                  ledger: seq<Entry>, info: Option<AccountInfo>): (r: View)
    ensures r == SelectBook <==> !Truthy(bookId)
    ensures r.Shown? ==> r.menu == Menu(accounts)
    ensures r.Shown? ==> (r.exportDisabled <==> ExportCsv(ledger) == None)
    ensures r.Shown? ==> (r.account.Some? <==> info.Some?)
    ensures r.Shown? && info.Some? ==> r.account == Some(AccountBanner(info.value))
    ensures r.Shown? ==> (r.body.Entries? <==> ledger != [])
    ensures r.Shown? && r.body.Entries? ==> r.body.header == HeaderCells() && r.body.rows == Table(ledger)
    ensures r.Shown? && ledger == [] ==> r.body == Message(if Truthy(selected) then NoEntries else AccountPrompt)
  {
    if !Truthy(bookId) then SelectBook
    else
      var menu := Menu(accounts);
      var account := if info.Some? then Some(AccountBanner(info.value)) else None;
      var body := if |ledger| > 0 then Entries(HeaderCells(), Table(ledger))
                  else Message(if Truthy(selected) then NoEntries else AccountPrompt);
      Shown(menu, |ledger| == 0, account, body)
  }

  /**
   * With clean dates and descriptions, the CSV export of a shown table reads back as exactly
   * what the page shows: its header row and then its rows.
   */
  lemma ShownTableIsExport(bookId: Option<int>, accounts: seq<Choice>, selected: Option<int>,
                           ledger: seq<Entry>, info: Option<AccountInfo>)
    requires forall i :: 0 <= i < |ledger| ==> Csv.CleanCell(ledger[i].date) && Csv.CleanCell(ledger[i].description)
    ensures var r := Render(bookId, accounts, selected, ledger, info);
      r.Shown? && r.body.Entries? ==>
        Csv.ParseCsv(ExportCsv(ledger).value) == [r.body.header] + r.body.rows
  {
    if ledger != [] {
      CsvReadsBack(ledger);
    }
  }

  // ---- Page state ----

  /** The page's state; `selected` is `None` for the empty choice `""`. */
  class LedgerPage {
    var selected: Option<int>
    var ledger: seq<Entry>
    var accountInfo: Option<AccountInfo>

    constructor ()
      ensures selected == None && ledger == [] && accountInfo == None
    {
      selected := None;
      ledger := [];
      accountInfo := None;
    }

    /** The book effect: with a book (not `null`, not 0) the selection, the ledger and the account info are reset. */
    method BookChanged(bookId: Option<int>)
      modifies this
      ensures Truthy(bookId) ==> selected == None && ledger == [] && accountInfo == None
      ensures !Truthy(bookId) ==> selected == old(selected) && ledger == old(ledger) && accountInfo == old(accountInfo)
    {
      if Truthy(bookId) {
        selected := None;
        ledger := [];
        accountInfo := None;
      }
    }

    /**
     * A pick in the account list: `setSelected(Number(e.target.value))`. The empty choice `""`
     * (here `None`) becomes `Number("")`, which is 0.
     */
    method Select(choice: Option<int>)
      modifies this
      ensures selected == Some(choice.GetOr(0))
      ensures ledger == old(ledger) && accountInfo == old(accountInfo)
    {
      selected := Some(choice.GetOr(0));
    }

    /**
     * The selection effect: with an account and a book selected, the server's answer, when it
     * comes, sets the ledger (`data.ledger || []`) and the account info (`data.account || null`);
     * otherwise both are cleared.
     */
    method SelectionChanged(bookId: Option<int>, response: Option<Response>)
      modifies this
      ensures selected == old(selected)
      ensures !(Truthy(selected) && Truthy(bookId)) ==> ledger == [] && accountInfo == None
      ensures Truthy(selected) && Truthy(bookId) && response.Some? ==>
        ledger == response.value.ledger.GetOr([]) && accountInfo == response.value.account
      ensures Truthy(selected) && Truthy(bookId) && response == None ==>
        ledger == old(ledger) && accountInfo == old(accountInfo)
    {
      if Truthy(selected) && Truthy(bookId) {
        if response.Some? {
          ledger := response.value.ledger.GetOr([]);
          accountInfo := response.value.account;
        }
      } else {
        ledger := [];
        accountInfo := None;
      }
    }

    /**
     * A change of book, taken as the book effect followed by the selection effect run on the
     * state the reset leaves, with the selection cleared and nothing left to export. In the page
     * both effects fire in the same commit, so the selection effect also runs once with the old
     * account; that run is not part of this method.
     */
    method ChangeBook(bookId: Option<int>)
      modifies this
      ensures Truthy(bookId) ==> selected == None && ledger == [] && accountInfo == None
      ensures Truthy(bookId) ==> ExportCsv(ledger) == None
    {
      BookChanged(bookId);
      SelectionChanged(bookId, None);
    }
  }

  // ---- Properties ----

  /** The header row as a record is the header line. */
  lemma HeaderRecord()
    ensures Csv.Record(HeaderCells()) == Header
  {
    Csv.Record5("Date", "Description", "Debit", "Credit", "Balance");
  }

  /** The joined rows are the records of the table. */
  lemma RowsAreRecords(ledger: seq<Entry>)
    ensures Seqs.Map(ledger, Row) == Csv.Records(Table(ledger))
  {
    var l, r := Seqs.Map(ledger, Row), Csv.Records(Table(ledger));
    assert |l| == |r|;
    forall i | 0 <= i < |l| ensures l[i] == r[i] {
    }
  }

  /** The header cells are clean. */
  lemma HeaderClean()
    ensures Csv.CleanTable([HeaderCells()])
  {
    var h := HeaderCells();
    assert forall c :: 0 <= c < |h| ==> Csv.CleanCell(h[c]);
  }

  /** With a clean date and description, every cell of an entry's row is clean. */
  lemma CellsClean(e: Entry)
    requires Csv.CleanCell(e.date) && Csv.CleanCell(e.description)
    ensures forall c :: 0 <= c < |Cells(e)| ==> Csv.CleanCell(Cells(e)[c])
  {
    Csv.NumeralIsClean(Numbers.CentsText(e.debit));
    Csv.NumeralIsClean(Numbers.CentsText(e.credit));
    Csv.NumeralIsClean(Numbers.CentsText(e.balance));
  }

  /** With clean dates and descriptions, every row below the header is clean. */
  lemma RowsClean(ledger: seq<Entry>)
    requires forall i :: 0 <= i < |ledger| ==> Csv.CleanCell(ledger[i].date) && Csv.CleanCell(ledger[i].description)
    ensures Csv.CleanTable(Table(ledger))
  {
    var t := Table(ledger);
    forall i | 0 <= i < |t| ensures forall c :: 0 <= c < |t[i]| ==> Csv.CleanCell(t[i][c]) {
      CellsClean(ledger[i]);
    }
  }

  /**
   * When no date or description holds a comma or a newline, the export of a ledger that is not
   * empty reads back as the header row and one row per entry in order, and holds exactly one
   * newline per entry.
   */
  lemma CsvReadsBack(ledger: seq<Entry>)
    requires ledger != []
    requires forall i :: 0 <= i < |ledger| ==> Csv.CleanCell(ledger[i].date) && Csv.CleanCell(ledger[i].description)
    ensures var text := ExportCsv(ledger).value;
      && Csv.ParseCsv(text) == [HeaderCells()] + Table(ledger)
      && Text.CountChar(text, '\n') == |ledger|
  {
    HeaderClean();
    RowsClean(ledger);
    Csv.CleanConcat([HeaderCells()], Table(ledger));
    RowsAreRecords(ledger);
    HeaderRecord();
    Csv.ParseHeaderJoined(HeaderCells(), Table(ledger));
  }

  /** Something is drawn at 18 exactly when there is an account line. */
  lemma AccountLineOnlyWithInfo(texts: seq<string>, account: Option<string>)
    ensures (exists j :: 0 <= j < |Page(texts, account)| && Page(texts, account)[j].y == 18) <==> account.Some?
  {
    var p := Page(texts, account);
    if account.Some? {
      assert p[1].y == 18;
    } else {
      Pdf.RowsAfter(Top(account), texts, 28, 1);
      forall j | 0 <= j < |p| ensures p[j].y != 18 {
        if j > 0 {
          assert p[j].y == 28 + 8 * (j - 1);
        }
      }
    }
  }

  /** The PDF goes down the page. */
  lemma PageDescends(texts: seq<string>, account: Option<string>)
    ensures Pdf.Descending(Page(texts, account))
  {
    var title := [Pdf.Draw(Title, 10, 10)];
    var top := Top(account);
    if account.Some? {
      Pdf.DrawBelow(title, account.value, 10, 18, 28);
      assert top == title + [Pdf.Draw(account.value, 10, 18)];
    } else {
      assert top == title;
    }
    Pdf.RowsDescending(texts, 28);
    Pdf.DescendingConcat(top, Pdf.Rows(texts, 28));
  }

  /** The exported PDF goes down the page. */
  lemma LayoutDescends(ledger: seq<Entry>, info: Option<AccountInfo>)
    ensures Pdf.Descending(Layout(ledger, info))
  {
    PageDescends(RowTexts(ledger), AccountText(info));
  }

  /**
   * The exported PDF holds the title, then the account line at 18 when there is account info,
   * then one row per entry, with entry `i` at 28 + 8·i.
   */
  lemma LayoutRows(ledger: seq<Entry>, info: Option<AccountInfo>)
    ensures var p := Layout(ledger, info); p != [] && p[0] == Pdf.Draw(Title, 10, 10)
    ensures info.Some? ==> var p := Layout(ledger, info);
      && |p| == 2 + |ledger| && p[1] == Pdf.Draw(AccountLine(info.value), 10, 18)
      && forall i :: 2 <= i < |p| ==> p[i] == Pdf.Draw(RowTexts(ledger)[i - 2], 10, 28 + 8 * (i - 2))
    ensures info.None? ==> var p := Layout(ledger, info);
      && |p| == 1 + |ledger|
      && forall i :: 1 <= i < |p| ==> p[i] == Pdf.Draw(RowTexts(ledger)[i - 1], 10, 28 + 8 * (i - 1))
  {
    PageRows(RowTexts(ledger), AccountText(info));
  }

  /** Where `Page` puts its title, its account line and its rows. */
  lemma PageRows(texts: seq<string>, account: Option<string>)
    ensures var p := Page(texts, account); p != [] && p[0] == Pdf.Draw(Title, 10, 10)
    ensures account.Some? ==> var p := Page(texts, account);
      && |p| == 2 + |texts| && p[1] == Pdf.Draw(account.value, 10, 18)
      && forall i :: 2 <= i < |p| ==> p[i] == Pdf.Draw(texts[i - 2], 10, 28 + 8 * (i - 2))
    ensures account.None? ==> var p := Page(texts, account);
      && |p| == 1 + |texts|
      && forall i :: 1 <= i < |p| ==> p[i] == Pdf.Draw(texts[i - 1], 10, 28 + 8 * (i - 1))
  {
    if account.Some? {
      Pdf.RowsAfter(Top(account), texts, 28, 2);
    } else {
      Pdf.RowsAfter(Top(account), texts, 28, 1);
    }
  }

  /** The exported PDF has a line at 18 exactly when there is account info. */
  lemma AccountLineIffInfo(ledger: seq<Entry>, info: Option<AccountInfo>)
    ensures (exists j :: 0 <= j < |Layout(ledger, info)| && Layout(ledger, info)[j].y == 18) <==> info.Some?
  {
    var texts, account := RowTexts(ledger), AccountText(info);
    assert Layout(ledger, info) == Page(texts, account);
    AccountLineOnlyWithInfo(texts, account);
  }
}
