/**
 * The journal page: the editable lines of a new entry (account, debit and credit as typed),
 * their conversion to numbers when the entry is posted, and the page state an accepted post
 * leaves behind.
 */
module Journal {
  import opened Wrappers
  import Numbers
  import Seqs

  /** One line of the entry form, with its three inputs as typed. */
  datatype Line = Line(accountId: string, debit: string, credit: string)

  /** The three inputs of a line. */
  datatype Field = AccountId | Debit | Credit

  /** The line the form starts with and adds. */
  function BlankLine(): (r: Line)
    ensures r.accountId == "" && r.debit == "" && r.credit == ""
  {
    Line("", "", "")
  }

  /** The lines of a fresh form: one blank line. */
  function InitialLines(): (r: seq<Line>)
    ensures |r| == 1 && r[0] == BlankLine()
  {
    [BlankLine()]
  }

  /** The value of one input of a line. */
  function Get(l: Line, f: Field): string
  {
    match f
    case AccountId => l.accountId
    case Debit => l.debit
    case Credit => l.credit
  }

  /** `{ ...l, [field]: value }`. */
  function Set(l: Line, f: Field, value: string): (r: Line)
    ensures Get(r, f) == value
    ensures forall g :: g != f ==> Get(r, g) == Get(l, g)
  {
    match f
    case AccountId => l.(accountId := value)
    case Debit => l.(debit := value)
    case Credit => l.(credit := value)
  }

  /** `addLine`: one more blank line at the end. */
  function AddLine(lines: seq<Line>): (r: seq<Line>)
    ensures |r| == |lines| + 1 && r[..|lines|] == lines && r[|lines|] == BlankLine()
  {
    lines + [BlankLine()]
  }

  /** `updateLine`: the input `f` of line `idx` becomes `value`; an index with no line changes nothing. */
  function UpdateLine(lines: seq<Line>, idx: int, f: Field, value: string): (r: seq<Line>)
    ensures |r| == |lines|
    ensures forall i :: 0 <= i < |lines| && i != idx ==> r[i] == lines[i]
    ensures 0 <= idx < |lines| ==> r[idx] == Set(lines[idx], f, value)
  {
    seq(|lines|, i requires 0 <= i < |lines| => if i == idx then Set(lines[i], f, value) else lines[i])
  }

  /**
   * A line as it is posted. Numbers are in hundredths; `accountId` is `None` where `Number`
   * gives `NaN`.
   */
  datatype PostedLine = PostedLine(accountId: Option<int>, debit: int, credit: int)

  /** `Number(s) || 0`: `NaN` becomes 0. */
  function NumberOrZero(s: string): (r: int)
    ensures Numbers.ParseNumber(s).Some? ==> r == Numbers.ParseNumber(s).value
    ensures Numbers.ParseNumber(s).None? ==> r == 0
  {
    Numbers.ParseNumber(s).GetOr(0)
  }

  /** One line of `formattedLines`. */
  function FormatLine(l: Line): PostedLine
  {
    PostedLine(Numbers.ParseNumber(l.accountId), NumberOrZero(l.debit), NumberOrZero(l.credit))
  }

  /** `formattedLines`: every line converted, in order. */
  function FormatLines(lines: seq<Line>): (r: seq<PostedLine>)
    ensures |r| == |lines|
    ensures forall i :: 0 <= i < |lines| ==> r[i] == FormatLine(lines[i])
  {
    Seqs.Map(lines, FormatLine)
  }

  /** An entry as the page adds it to its list. */
  datatype Entry = Entry(id: int, date: string, description: string, lines: seq<PostedLine>)

  /** The entry a post adds: the form's date and description, and its lines as posted. */
  function NewEntry(id: int, date: string, description: string, lines: seq<Line>): Entry
  {
    Entry(id, date, description, FormatLines(lines))
  }

  /** The journal page's state. */
  class JournalForm {
    var entries: seq<Entry>
    var date: string
    var description: string
    var lines: seq<Line>

    /** The page starts with no entries, today's date, an empty description and one blank line. */
    constructor (today: string)
      ensures entries == [] && date == today && description == "" && lines == InitialLines()
    {
      entries := [];
      date := today;
      description := "";
      lines := InitialLines();
    }

    /** The Add-line button. */
    method AddLineClicked()
      modifies this
      ensures lines == AddLine(old(lines))
      ensures entries == old(entries) && date == old(date) && description == old(description)
    {
      lines := lines + [BlankLine()];
    }

    /** Typing into input `f` of line `idx`. */
    method LineEdited(idx: int, f: Field, value: string)
      modifies this
      ensures lines == UpdateLine(old(lines), idx, f, value)
      ensures entries == old(entries) && date == old(date) && description == old(description)
    {
      lines := UpdateLine(lines, idx, f, value);
    }

    /**
     * `addEntry`. The post request either succeeds or throws; when it throws nothing after it
     * runs. On success the entry, with the lines as posted, is appended under the id `now`, and
     * the form goes back to today's date, no description and one blank line.
     */
    method AddEntry(now: int, today: string, requestOk: bool)
      modifies this
      ensures !requestOk ==>
        entries == old(entries) && date == old(date) && description == old(description) && lines == old(lines)
      ensures requestOk ==>
        && entries == old(entries) + [NewEntry(now, old(date), old(description), old(lines))]
        && date == today && description == "" && lines == InitialLines()
    {
      if requestOk {
        Accept(now, today);
      }
    }

    /** What an accepted post does: the entry is appended and the form is reset for the next entry. */
    method Accept(now: int, today: string)
      modifies this
      ensures entries == old(entries) + [NewEntry(now, old(date), old(description), old(lines))]
      ensures date == today && description == "" && lines == InitialLines()
    {
      entries := entries + [NewEntry(now, date, description, lines)];
      Reset(today);
    }

    /** The form back to today's date, no description and one blank line. */
    method Reset(today: string)
      modifies this
      ensures date == today && description == "" && lines == InitialLines()
      ensures entries == old(entries)
    {
      date := today;
      description := "";
      lines := InitialLines();
    }
  }

  // ---- Properties ----

  /** Lines that agree on every input are equal. */
  lemma LineExtensional(a: Line, b: Line)
    requires forall h :: Get(a, h) == Get(b, h)
    ensures a == b
  {
    assert Get(a, AccountId) == Get(b, AccountId);
    assert Get(a, Debit) == Get(b, Debit);
    assert Get(a, Credit) == Get(b, Credit);
  }

  /** The last write to an input wins. */
  lemma UpdateTwice(lines: seq<Line>, idx: int, f: Field, v: string, w: string)
    ensures UpdateLine(UpdateLine(lines, idx, f, v), idx, f, w) == UpdateLine(lines, idx, f, w)
  {
    var a := UpdateLine(UpdateLine(lines, idx, f, v), idx, f, w);
    var b := UpdateLine(lines, idx, f, w);
    forall i | 0 <= i < |lines| ensures a[i] == b[i] {
      if i == idx {
        LineExtensional(a[i], b[i]);
      }
    }
  }

  /** Edits to different inputs, or to different lines, can be made in either order. */
  lemma UpdatesCommute(lines: seq<Line>, i: int, f: Field, v: string, j: int, g: Field, w: string)
    requires i != j || f != g
    ensures UpdateLine(UpdateLine(lines, i, f, v), j, g, w) == UpdateLine(UpdateLine(lines, j, g, w), i, f, v)
  {
    var a := UpdateLine(UpdateLine(lines, i, f, v), j, g, w);
    var b := UpdateLine(UpdateLine(lines, j, g, w), i, f, v);
    forall k | 0 <= k < |lines| ensures a[k] == b[k] {
      if k == i && k == j {
        LineExtensional(a[k], b[k]);
      }
    }
  }

  /** A line left blank posts a zero debit and credit, and account 0, since `Number("")` is 0. */
  lemma BlankLinePostsZero()
    ensures FormatLine(BlankLine()) == PostedLine(Some(0), 0, 0)
  {
    Numbers.ParseBlank("");
  }

  /** A line whose inputs hold a chosen account id and printed amounts posts exactly those numbers. */
  lemma PrintedLinePostsItsNumbers(account: int, debit: int, credit: int)
    ensures FormatLine(Line(Numbers.IntText(account), Numbers.CentsText(debit), Numbers.CentsText(credit)))
      == PostedLine(Some(100 * account), debit, credit)
  {
    Numbers.ParseIntText(account);
    Numbers.ParsePrinted(debit);
    Numbers.ParsePrinted(credit);
  }

  /** Input that is not a number posts a zero amount rather than failing. */
  lemma UnreadableAmountIsZero(l: Line)
    requires Numbers.ParseNumber(l.debit).None? && Numbers.ParseNumber(l.credit).None?
    ensures FormatLine(l).debit == 0 && FormatLine(l).credit == 0
  {
  }

  /** Formatting the lines after an added blank line is formatting them and then the blank line. */
  lemma FormatAfterAddLine(lines: seq<Line>)
    ensures FormatLines(AddLine(lines)) == FormatLines(lines) + [PostedLine(Some(0), 0, 0)]
  {
    BlankLinePostsZero();
    FormatSnoc(lines, BlankLine());
  }

  /** Formatting goes line by line: one more line formats to one more posted line. */
  lemma FormatSnoc(lines: seq<Line>, l: Line)
    ensures FormatLines(lines + [l]) == FormatLines(lines) + [FormatLine(l)]
  {
    var a, b := FormatLines(lines + [l]), FormatLines(lines) + [FormatLine(l)];
    forall i | 0 <= i < |a| ensures a[i] == b[i] {
      if i < |lines| {
        assert (lines + [l])[i] == lines[i];
      }
    }
    assert |a| == |b|;
  }
}
