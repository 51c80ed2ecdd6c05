/**
 * The comma-separated text the report pages export: a record is its cells joined by commas,
 * and a document is its lines, each ended by a newline or all joined by newlines. Reading a
 * document back (split at newlines, then at commas) is the partner the exports are proved against.
 */
module Csv {
  import Seqs
  import Text
  import Numbers

  /** `cells.join(",")`, or the same text written as a template with commas between the cells. */
  function Record(cells: seq<string>): string
  {
    Text.Join(cells, ',')
  }

  /** Each line followed by a newline, as `rows += line + "\n"` builds it. */
  function Terminated(lines: seq<string>): string
  {
    if lines == [] then [] else lines[0] + ['\n'] + Terminated(lines[1..])
  }

  /** A cell that reads back as itself: no comma and no newline. */
  predicate CleanCell(s: string)
  {
    ',' !in s && '\n' !in s
  }

  /** Every cell of every row is clean and every row has a cell. */
  predicate CleanTable(rows: seq<seq<string>>)
  {
    forall i :: 0 <= i < |rows| ==> |rows[i]| >= 1 && forall j :: 0 <= j < |rows[i]| ==> CleanCell(rows[i][j])
  }

  /** The records of the rows, one per row. */
  function Records(rows: seq<seq<string>>): (r: seq<string>)
    ensures |r| == |rows| && forall i :: 0 <= i < |rows| ==> r[i] == Record(rows[i])
  {
    Seqs.Map(rows, Record)
  }

  /** The records of two tables one after the other. */
  lemma RecordsConcat(a: seq<seq<string>>, b: seq<seq<string>>)
    ensures Records(a + b) == Records(a) + Records(b)
  {
    var l, r := Records(a + b), Records(a) + Records(b);
    forall i | 0 <= i < |l| ensures l[i] == r[i] {
      if i < |a| {
        assert (a + b)[i] == a[i];
      } else {
        assert (a + b)[i] == b[i - |a|];
      }
    }
    assert |l| == |r|;
  }

  /** Two clean tables one after the other are clean. */
  lemma CleanConcat(a: seq<seq<string>>, b: seq<seq<string>>)
    requires CleanTable(a) && CleanTable(b)
    ensures CleanTable(a + b)
  {
    var t := a + b;
    forall i | 0 <= i < |t| ensures |t[i]| >= 1 && forall j :: 0 <= j < |t[i]| ==> CleanCell(t[i][j]) {
      if i < |a| {
        assert t[i] == a[i];
      } else {
        assert t[i] == b[i - |a|];
      }
    }
  }

  /** Reading a document: split it into lines, and each line into cells. */
  function ParseCsv(s: string): (r: seq<seq<string>>)
    ensures |r| == Text.CountChar(s, '\n') + 1
  {
    Seqs.Map(Text.Split(s, '\n'), (line: string) => Text.Split(line, ','))
  }

  // ---- Properties ----

  /** Appending one more ended line, as each loop step does. */
  lemma {:induction false} TerminatedSnoc(lines: seq<string>, line: string)
    ensures Terminated(lines + [line]) == Terminated(lines) + line + ['\n']
  {
    if lines != [] {
      assert (lines + [line])[1..] == lines[1..] + [line];
      TerminatedSnoc(lines[1..], line);
    }
  }

  /** The ended lines up to `k`, and one more: how a loop over the lines grows its text. */
  lemma TerminatedPrefix(lines: seq<string>, k: int)
    requires 0 <= k < |lines|
    ensures Terminated(lines[..k + 1]) == Terminated(lines[..k]) + lines[k] + ['\n']
  {
    assert lines[..k + 1] == lines[..k] + [lines[k]];
    TerminatedSnoc(lines[..k], lines[k]);
  }

  /** The same step after a fixed prefix: the text built so far is `prefix` and the first `k` ended lines. */
  lemma AppendStep(prefix: string, lines: seq<string>, k: int, rows: string, line: string)
    requires 0 <= k < |lines| && rows == prefix + Terminated(lines[..k]) && line == lines[k]
    ensures rows + line + "\n" == prefix + Terminated(lines[..k + 1])
  {
    TerminatedPrefix(lines, k);
  }

  /** A record of four cells is the template `a,b,c,d`. */
  lemma Record4(a: string, b: string, c: string, d: string)
    ensures Record([a, b, c, d]) == a + "," + b + "," + c + "," + d
  {
    assert [a, b, c, d][1..] == [b, c, d];
    assert [b, c, d][1..] == [c, d];
    assert [c, d][1..] == [d];
    assert Text.Join([c, d], ',') == c + "," + d;
    assert Text.Join([b, c, d], ',') == b + "," + (c + "," + d);
    assert Text.Join([a, b, c, d], ',') == a + "," + (b + "," + (c + "," + d));
  }

  /** A record of five cells is the template `a,b,c,d,e`. */
  lemma Record5(a: string, b: string, c: string, d: string, e: string)
    ensures Record([a, b, c, d, e]) == a + "," + b + "," + c + "," + d + "," + e
  {
    assert [a, b, c, d, e][1..] == [b, c, d, e];
    Record4(b, c, d, e);
    assert Text.Join([a, b, c, d, e], ',') == a + "," + Text.Join([b, c, d, e], ',');
  }

  lemma {:induction false} TerminatedConcat(a: seq<string>, b: seq<string>)
    ensures Terminated(a + b) == Terminated(a) + Terminated(b)
  {
    if a == [] {
      assert a + b == b;
    } else {
      assert (a + b)[1..] == a[1..] + b;
      TerminatedConcat(a[1..], b);
    }
  }

  /** A header line, two groups of lines and a closing line, each line ended. */
  lemma TerminatedParts(h: string, a: seq<string>, b: seq<string>, n: string)
    ensures Terminated([h] + a + b + [n]) == h + "\n" + Terminated(a) + Terminated(b) + n + "\n"
  {
    TerminatedConcat([h] + a + b, [n]);
    TerminatedConcat([h] + a, b);
    TerminatedConcat([h], a);
    TerminatedOne(h);
    TerminatedOne(n);
  }

  /** A header line followed by three groups of lines, each line ended. */
  lemma TerminatedSections(h: string, a: seq<string>, b: seq<string>, c: seq<string>)
    ensures Terminated([h] + a + b + c) == h + "\n" + Terminated(a) + Terminated(b) + Terminated(c)
  {
    TerminatedConcat([h] + a + b, c);
    TerminatedConcat([h] + a, b);
    TerminatedConcat([h], a);
    TerminatedOne(h);
  }

  /** One line, ended. */
  lemma TerminatedOne(line: string)
    ensures Terminated([line]) == line + "\n"
  {
    assert [line][1..] == [];
  }

  /** Ending every line with a newline is joining the lines and one empty line with newlines. */
  lemma {:induction false} TerminatedIsJoin(lines: seq<string>)
    ensures Terminated(lines) == Text.Join(lines + [""], '\n')
  {
    if lines != [] {
      TerminatedIsJoin(lines[1..]);
      assert (lines + [""])[1..] == lines[1..] + [""];
    }
  }

  /** A record of clean cells holds no newline, and splits back into its cells. */
  lemma RecordReadsBack(cells: seq<string>)
    requires |cells| >= 1 && forall j :: 0 <= j < |cells| ==> CleanCell(cells[j])
    ensures '\n' !in Record(cells)
    ensures Text.Split(Record(cells), ',') == cells
  {
    Text.SplitJoin(cells, ',');
    NoNewlineInJoin(cells);
  }

  lemma {:induction false} NoNewlineInJoin(cells: seq<string>)
    requires forall j :: 0 <= j < |cells| ==> '\n' !in cells[j]
    ensures '\n' !in Text.Join(cells, ',')
  {
    if |cells| > 1 {
      NoNewlineInJoin(cells[1..]);
    }
  }

  /** The records of a clean table are lines without newlines. */
  lemma RecordsAreLines(rows: seq<seq<string>>)
    requires CleanTable(rows)
    ensures forall i :: 0 <= i < |Records(rows)| ==> '\n' !in Records(rows)[i]
  {
    forall i | 0 <= i < |rows| ensures '\n' !in Records(rows)[i] {
      RecordReadsBack(rows[i]);
    }
  }

  /** Reading back the lines of a clean table gives the table. */
  lemma ParseRecords(rows: seq<seq<string>>)
    requires CleanTable(rows)
    ensures Seqs.Map(Records(rows), (line: string) => Text.Split(line, ',')) == rows
  {
    var m := Seqs.Map(Records(rows), (line: string) => Text.Split(line, ','));
    forall i | 0 <= i < |rows| ensures m[i] == rows[i] {
      RecordReadsBack(rows[i]);
    }
  }

  /**
   * A document of ended records reads back as its table followed by one empty line with one
   * empty cell, and holds one newline per record.
   */
  lemma ParseTerminated(rows: seq<seq<string>>)
    requires CleanTable(rows)
    ensures ParseCsv(Terminated(Records(rows))) == rows + [[""]]
    ensures Text.CountChar(Terminated(Records(rows)), '\n') == |rows|
  {
    var lines := Records(rows);
    RecordsAreLines(rows);
    TerminatedIsJoin(lines);
    assert forall i :: 0 <= i < |lines + [""]| ==> '\n' !in (lines + [""])[i];
    Text.SplitJoin(lines + [""], '\n');
    ParseRecords(rows);
    var m := ParseCsv(Terminated(lines));
    assert |m| == |rows| + 1;
    forall i | 0 <= i <= |rows| ensures m[i] == (rows + [[""]])[i] {
      if i == |rows| {
        Text.SplitWithoutSeparator("", ',');
      } else {
        assert m[i] == Text.Split(lines[i], ',');
      }
    }
  }

  /**
   * A document of records joined by newlines, with nothing after the last, reads back as its
   * table and has one newline fewer than records.
   */
  lemma ParseJoined(rows: seq<seq<string>>)
    requires CleanTable(rows) && |rows| >= 1
    ensures ParseCsv(Text.Join(Records(rows), '\n')) == rows
    ensures Text.CountChar(Text.Join(Records(rows), '\n'), '\n') == |rows| - 1
  {
    var lines := Records(rows);
    RecordsAreLines(rows);
    Text.SplitJoin(lines, '\n');
    ParseRecords(rows);
  }

  /**
   * A header line and a newline followed by records joined by newlines (`header + rows.join("\n")`)
   * reads back as the header row and the table; with no records it reads back as the header row
   * and one empty line. It holds one newline per record, and at least one.
   */
  lemma ParseHeaderJoined(header: seq<string>, rows: seq<seq<string>>)
    requires CleanTable([header] + rows)
    ensures var text := Record(header) + "\n" + Text.Join(Records(rows), '\n');
      && ParseCsv(text) == (if rows == [] then [header, [""]] else [header] + rows)
      && Text.CountChar(text, '\n') == (if rows == [] then 1 else |rows|)
  {
    var text := Record(header) + "\n" + Text.Join(Records(rows), '\n');
    var all := if rows == [] then [header, [""]] else [header] + rows;
    assert CleanTable(all) by {
      if rows == [] {
        assert all == [header] + [[""]];
        CleanConcat([header], [[""]]);
      }
    }
    assert Records(all) == [Record(header)] + Records(if rows == [] then [[""]] else rows) by {
      if rows == [] {
        assert all == [header] + [[""]];
        RecordsConcat([header], [[""]]);
      } else {
        RecordsConcat([header], rows);
      }
    }
    JoinHeader(Record(header), Records(rows));
    ParseJoined(all);
  }

  /** The header line, a newline and the joined lines are the join of all lines; an empty line stands in for no lines. */
  lemma JoinHeader(h: string, lines: seq<string>)
    ensures h + "\n" + Text.Join(lines, '\n') == Text.Join([h] + (if lines == [] then [""] else lines), '\n')
  {
    var all := [h] + (if lines == [] then [""] else lines);
    assert all[1..] == (if lines == [] then [""] else lines);
    if lines == [] {
      assert Text.Join([""], '\n') == "";
    }
  }

  /** A row of five clean cells has only clean cells. */
  lemma CleanFive(a: string, b: string, c: string, d: string, e: string)
    requires CleanCell(a) && CleanCell(b) && CleanCell(c) && CleanCell(d) && CleanCell(e)
    ensures forall j :: 0 <= j < |[a, b, c, d, e]| ==> CleanCell([a, b, c, d, e][j])
  {
  }

  /** A printed number is a clean cell. */
  lemma NumeralIsClean(s: string)
    requires Numbers.IsNumeral(s)
    ensures CleanCell(s)
  {
  }
}
