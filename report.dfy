/**
 * What the income statement and the balance sheet share: an account line with a code, a name and
 * an amount, and the two loops both pages run over a section of such lines, one appending a CSV
 * row per account (`rows += ...`) and one drawing a PDF row per account while `y` grows by 8.
 */
module Report {
  import opened Wrappers
  import Seqs
  import Numbers
  import Csv
  import Pdf

  /** One account line of a report; the amount (an income, expense or balance) is in cents. */
  datatype Account = Account(code: string, name: string, amount: int)

  /** `${section},${acc.account_code},${acc.account_name},${acc.amount}`. */
  function SectionText(section: string, a: Account): string
  {
    section + "," + a.code + "," + a.name + "," + Numbers.CentsText(a.amount)
  }

  /** The CSV lines of a section, one per account in order. */
  function SectionLines(section: string, accounts: seq<Account>): (r: seq<string>)
    ensures |r| == |accounts| && forall i :: 0 <= i < |accounts| ==> r[i] == SectionText(section, accounts[i])
  {
    Seqs.Map(accounts, (a: Account) => SectionText(section, a))
  }

  /** The cells of one CSV row: section, code, name, amount as JavaScript prints it. */
  function Cells(section: string, a: Account): seq<string>
  {
    [section, a.code, a.name, Numbers.CentsText(a.amount)]
  }

  /** The row cells of a section's accounts, as a function to map over them. */
  function CellsOf(section: string): Account -> seq<string>
  {
    (a: Account) => Cells(section, a)
  }

  /** The cells of the CSV rows of a section. */
  function SectionCells(section: string, accounts: seq<Account>): (r: seq<seq<string>>)
    ensures |r| == |accounts| && forall i :: 0 <= i < |accounts| ==> r[i] == Cells(section, accounts[i])
  {
    Seqs.Map(accounts, CellsOf(section))
  }

  /** `data.<section>.forEach(acc => { rows += `...\n` })`: one ended line per account. */
  method AppendRows(rows: string, section: string, accounts: seq<Account>) returns (r: string)
    ensures r == rows + Csv.Terminated(SectionLines(section, accounts))
  {
    r := rows;
    ghost var lines := SectionLines(section, accounts);
    var i := 0;
    while i < |accounts|
      invariant 0 <= i <= |accounts|
      invariant r == rows + Csv.Terminated(lines[..i])
    {
      var acc := accounts[i];
      var line := section + "," + acc.code + "," + acc.name + "," + Numbers.CentsText(acc.amount);
      Csv.AppendStep(rows, lines, i, r, line);
      r := r + line + "\n";
      i := i + 1;
    }
    assert lines[..|accounts|] == lines;
  }

  /** The amounts column of a table, each `acc.amount.toFixed(2)` (`acc.balance.toFixed(2)` on the balance sheet). */
  function AmountCells(accounts: seq<Account>): (r: seq<string>)
    ensures |r| == |accounts|
    ensures forall i :: 0 <= i < |accounts| ==> Numbers.ParseNumber(r[i]) == Some(accounts[i].amount)
  {
    Seqs.Map(accounts, AmountText)
  }

  /** `acc.amount.toFixed(2)`. */
  function AmountText(a: Account): (r: string)
    ensures Numbers.ParseNumber(r) == Some(a.amount)
  {
    Numbers.Money(a.amount)
  }

  /** `${acc.account_code} | ${acc.account_name} | ${acc.amount}`. */
  function RowText(a: Account): string
  {
    a.code + " | " + a.name + " | " + Numbers.CentsText(a.amount)
  }

  /** The PDF texts of a section, one per account in order. */
  function RowTexts(accounts: seq<Account>): (r: seq<string>)
    ensures |r| == |accounts| && forall i :: 0 <= i < |accounts| ==> r[i] == RowText(accounts[i])
  {
    Seqs.Map(accounts, RowText)
  }

  /**
   * A heading and its section: `doc.text(heading, 10, y); y += 8;` and then the rows. The draws
   * are those of `Pdf.Section`, and `y` is left 8 below the last row.
   */
  method DrawSection(doc: seq<Pdf.Draw>, y: int, heading: string, accounts: seq<Account>)
    returns (doc': seq<Pdf.Draw>, y': int)
    ensures doc' == doc + Pdf.Section(heading, y, RowTexts(accounts))
    ensures y' == y + 8 + 8 * |accounts|
  {
    var start := doc + [Pdf.Draw(heading, 10, y)];
    doc', y' := Pdf.DrawEach(start, y + 8, accounts, RowText);
    Seqs.ConcatAssoc(doc, [Pdf.Draw(heading, 10, y)], Pdf.Rows(RowTexts(accounts), y + 8));
  }

  // ---- Properties ----

  /** Each CSV line of a section is the record of its cells. */
  lemma SectionLinesAreRecords(section: string, accounts: seq<Account>)
    ensures SectionLines(section, accounts) == Csv.Records(SectionCells(section, accounts))
  {
    var l, r := SectionLines(section, accounts), Csv.Records(SectionCells(section, accounts));
    forall i | 0 <= i < |accounts| ensures l[i] == r[i] {
      var a := accounts[i];
      Csv.Record4(section, a.code, a.name, Numbers.CentsText(a.amount));
    }
    assert |l| == |r|;
  }

  /** A header row and three sections put one after the other: where each section's rows end up. */
  lemma ThreeSectionsAt(h: seq<string>, s1: string, a1: seq<Account>, s2: string, a2: seq<Account>,
                        s3: string, a3: seq<Account>)
    ensures var t := [h] + SectionCells(s1, a1) + SectionCells(s2, a2) + SectionCells(s3, a3);
      && |t| == 1 + |a1| + |a2| + |a3| && t[0] == h
      && (forall i :: 1 <= i < 1 + |a1| ==> t[i] == Cells(s1, a1[i - 1]))
      && (forall i :: 1 + |a1| <= i < 1 + |a1| + |a2| ==> t[i] == Cells(s2, a2[i - (1 + |a1|)]))
      && (forall i :: 1 + |a1| + |a2| <= i < |t| ==> t[i] == Cells(s3, a3[i - (1 + |a1| + |a2|)]))
  {
    Seqs.MappedFour(h, a1, a2, a3, CellsOf(s1), CellsOf(s2), CellsOf(s3));
  }

  /** A clean header row and three clean sections put one after the other are clean. */
  lemma ThreeSectionsClean(h: seq<string>, s1: string, a1: seq<Account>, s2: string, a2: seq<Account>,
                           s3: string, a3: seq<Account>)
    requires Csv.CleanTable([h]) && Csv.CleanCell(s1) && Csv.CleanCell(s2) && Csv.CleanCell(s3)
    requires forall i :: 0 <= i < |a1| ==> Csv.CleanCell(a1[i].code) && Csv.CleanCell(a1[i].name)
    requires forall i :: 0 <= i < |a2| ==> Csv.CleanCell(a2[i].code) && Csv.CleanCell(a2[i].name)
    requires forall i :: 0 <= i < |a3| ==> Csv.CleanCell(a3[i].code) && Csv.CleanCell(a3[i].name)
    ensures Csv.CleanTable([h] + SectionCells(s1, a1) + SectionCells(s2, a2) + SectionCells(s3, a3))
  {
    var c1, c2, c3 := SectionCells(s1, a1), SectionCells(s2, a2), SectionCells(s3, a3);
    SectionCellsClean(s1, a1);
    SectionCellsClean(s2, a2);
    SectionCellsClean(s3, a3);
    Csv.CleanConcat([h], c1);
    Csv.CleanConcat([h] + c1, c2);
    Csv.CleanConcat([h] + c1 + c2, c3);
  }

  /** The cells of a section are clean when its codes and names are. */
  lemma SectionCellsClean(section: string, accounts: seq<Account>)
    requires Csv.CleanCell(section)
    requires forall i :: 0 <= i < |accounts| ==> Csv.CleanCell(accounts[i].code) && Csv.CleanCell(accounts[i].name)
    ensures Csv.CleanTable(SectionCells(section, accounts))
  {
    var t := SectionCells(section, accounts);
    forall i | 0 <= i < |t| ensures forall c :: 0 <= c < |t[i]| ==> Csv.CleanCell(t[i][c]) {
      Csv.NumeralIsClean(Numbers.CentsText(accounts[i].amount));
    }
  }
}
