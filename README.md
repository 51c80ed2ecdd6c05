# CRM web app: task list, forms and accounting report pages

This project models the browser side of a small CRM and bookkeeping web application. The
application is written in TypeScript with React. The model covers:

- **Tasks.** The task list of the tasks page: add, toggle, delete and replace a task by id, and
  the visible list. The visible list is a case-insensitive search with a category filter,
  followed by an optional stable sort by due date or by priority.
- **Task form.** The task form loads the task being edited into six fields, with a default for
  each missing field. On submit it builds a task, sends it to the save-edit or the add
  callback, and clears the fields.
- **Sign-up.** The three validators, for email, phone and password, are regular expressions on
  the sign-up page. The page checks the form in a fixed order and reports the first problem it
  finds; only a form that passes every check is sent.
- **Accounting list editing.**
  - The chart of accounts: a guarded append and a reset of the inputs.
  - The journal form: its lines, their per-field edits, and their conversion with `Number(x) || 0`.
  - The contacts list.
  - The accounting layout: its list of books, the Create/Save/Delete dialogs and their disabled
    buttons, and the selected book, which is remembered in browser storage.
- **Report pages.** The income statement, balance sheet, trial balance and general ledger pages
  are covered in three parts:
  - what each page shows with no book, with no data, and with data (for the general ledger:
    with no account selected, with no entries, and with entries);
  - the CSV text each export builds;
  - where each PDF export draws each line.

Amounts are integers in cents. Printing an amount as JavaScript prints its number is
`Numbers.CentsText`, and `toFixed(2)` is `Numbers.Fixed2`. `Numbers.ParseNumber` is `Number()`
on the decimal forms the pages produce, with `None` standing for `NaN`. The model proves that
both printers read back through `ParseNumber` to the amount they printed. CSV text is read back
with `Csv.ParseCsv`, which splits the text at newlines and each line at commas. Every export is
proved to read back as the table it was built from, whenever no cell holds a comma or a newline.
The PDF is modelled as the sequence of `(text, x, y)` draws. Each layout is proved to go strictly
down the page.

The modules follow the program:

- `Tasks`, `TaskInput` and `Signup` model the task and sign-up pages.
- `AccountPage`, `Journal`, `Contacts` and `Books` model the editing pages and the accounting
  layout.
- `IncomeStatement`, `BalanceSheet`, `TrialBalance` and `Ledger` model the report pages.
  `Report` holds the account rows that the income statement and the balance sheet share.
- `Seqs`, `Text`, `Numbers`, `Sorting`, `Csv`, `Pdf` and `Wrappers` model the JavaScript
  behaviour the pages rely on:
  - `Array.prototype.map` and `filter`;
  - white space, `trim`, `toLowerCase`, `includes`, `join` and `split`;
  - number printing and `Number()`;
  - the stable `Array.prototype.sort`;
  - CSV records;
  - jsPDF `text` calls.

State that the source updates through React setters is modelled as a class whose methods
change its fields: the task form, the journal, account and contacts pages, the accounting layout
and the ledger page. Code the source writes as pure expressions is modelled as functions: the
task list, the validators, the trial balance export and the ledger CSV. The `forEach` loops that
build a CSV string or step a PDF `y` coordinate are methods with loops, proved equal to a layout
or text function:

- `Report.AppendRows`, `Report.DrawSection`, `Pdf.DrawEach`;
- `IncomeStatement.ExportCsv`, `IncomeStatement.ExportPdf`;
- `BalanceSheet.ExportCsv`, `BalanceSheet.ExportPdf`;
- `Ledger.ExportPdf`.

## Model

| member | source | states |
|---|---|---|
| Tasks.OrElse | src/pages/TasksPage.tsx:46 | `x \|\| fallback` on an optional string: a missing or empty value gives the fallback, any other value is kept |
| Tasks.IsDone | src/pages/TasksPage.tsx:30 | the truthiness of `completed`: only `true` counts as done, so `!t.completed` is true for `false` and for a missing value |
| Tasks.Toggled | src/pages/TasksPage.tsx:30 | `{ ...t, completed: !t.completed }`: only `completed` changes, it becomes a boolean, and it is done exactly when the task was not |
| Tasks.AddTask | src/pages/TasksPage.tsx:28 | the new task is last, the list grows by one and the earlier tasks are unchanged |
| Tasks.ToggleTask | src/pages/TasksPage.tsx:29-30 | same length; tasks with another id are unchanged; on a task with the id only `completed` changes, to the negation of its truthiness |
| Tasks.ToggleTwice | src/pages/TasksPage.tsx:29-30 | toggling twice turns a matching task's `completed` into the boolean it stood for and leaves every other task as it was |
| Tasks.ToggleTwiceRestores | src/pages/TasksPage.tsx:29-30 | when every task with the id has a boolean `completed`, toggling twice gives back the list |
| Tasks.DeleteTask | src/pages/TasksPage.tsx:31-32 | no remaining task has the id and each was in the list; every task without the id remains |
| Tasks.DeleteKeepsOrder | src/pages/TasksPage.tsx:31-32 | the remaining tasks are a subsequence of the list, so their relative order is kept |
| Tasks.DeleteRemovesOnlyTheId | src/pages/TasksPage.tsx:31-32 | kept and deleted tasks together are the original tasks, counted with multiplicity |
| Tasks.DeleteAbsent | src/pages/TasksPage.tsx:31-32 | deleting an id no task carries changes nothing |
| Tasks.DeleteAfterAdd | src/pages/TasksPage.tsx:28-32 | adding a task and deleting its id is the same as deleting that id from the old list |
| Tasks.ReplaceTask | src/pages/TasksPage.tsx:35 | same length; each task with the updated task's id becomes the updated task, every other task is unchanged |
| Tasks.ReplaceIdempotent | src/pages/TasksPage.tsx:35 | saving the same edit twice equals saving it once |
| Tasks.EditTask | src/pages/TasksPage.tsx:33 | the page enters edit mode with the given task and nothing else changes |
| Tasks.SaveEdit | src/pages/TasksPage.tsx:34-37 | the tasks are replaced by id, edit mode ends, and search, category and sort are kept |
| Tasks.SearchMatches | src/pages/TasksPage.tsx:41 | the case-insensitive search: the lower-cased search occurs in the lower-cased text (see Text.IncludesIffOccurs, Text.IncludesEmpty) |
| Tasks.CategoryMatches | src/pages/TasksPage.tsx:42 | no category chosen lets every task through; a chosen one only the tasks of that category |
| Tasks.Matches | src/pages/TasksPage.tsx:40-43 | the intended filter condition: the search on the description and the category |
| Tasks.FilteredAsWritten | src/pages/TasksPage.tsx:39-43 | the filter as written, reading `t.text`: it fails (the `TypeError`) exactly when some task has no `text`, and otherwise keeps only stored tasks |
| Tasks.Filtered | src/pages/TasksPage.tsx:39-43 | the filter on descriptions: a task is kept exactly when it is stored and matches the search and the category |
| Tasks.Visible | src/pages/TasksPage.tsx:39-53 | the filtered tasks sorted by the chosen comparator: the same tasks, each as often as it is filtered |
| Tasks.DueKey | src/pages/TasksPage.tsx:46 | `a.dueDate \|\| ""`: a missing or empty due date sorts as the empty string |
| Tasks.DueDateCmp | src/pages/TasksPage.tsx:46 | the due-date comparator is -1, 0 or 1, is 0 exactly for equal keys, and puts a task without a date before one with a date |
| Tasks.PriorityCmp | src/pages/TasksPage.tsx:48-51 | `order[b] - order[a]`, with `NaN` taken as 0: between -2 and 2, 0 for equal priorities, and positive exactly when `b` ranks above `a` when both are known |
| Tasks.Comparator | src/pages/TasksPage.tsx:44-53 | the comparator for each sort choice: 0 for no sort, the due-date and the priority comparators otherwise |
| Tasks.VisibleIsFilteredPermutation | src/pages/TasksPage.tsx:39-53 | the visible list is a permutation of the filtered tasks; a task is visible exactly when it is stored and matches the search and the category |
| Tasks.EmptyFilterKeepsAll | src/pages/TasksPage.tsx:39-43 | an empty search and no category keep every task, in order |
| Tasks.NoSortKeepsOrder | src/pages/TasksPage.tsx:44-53 | with no sort chosen the comparator returns 0, and the stable sort keeps the filtered order |
| Tasks.NothingChosenShowsAll | src/pages/TasksPage.tsx:39-53 | no search, no category and no sort show every task in stored order |
| Tasks.Rank | src/pages/TasksPage.tsx:49-50 | the order table read through `priority \|\| "low"`: a missing, empty or "low" priority ranks 1, "medium" 2, "high" 3, and any other has no rank (the difference is `NaN`) |
| Tasks.PriorityCmpRanks | src/pages/TasksPage.tsx:50 | with two known priorities the comparator is the rank of `b` minus the rank of `a` |
| Tasks.InsertAtRank | src/pages/TasksPage.tsx:48-51 | one insertion step of the sort puts a task after the strictly higher ranks and before the rest |
| Tasks.InsertIntoGroups | src/pages/TasksPage.tsx:48-51 | inserting into a list grouped high, medium, low puts the task at the front of its own group |
| Tasks.PrioritySortGroups | src/pages/TasksPage.tsx:48-51 | with all priorities known, the priority sort is the high tasks, then the medium, then the low, each group in stored order |
| Tasks.PriorityCmpConsistent | src/pages/TasksPage.tsx:49-50 | with all priorities known, the priority comparator is antisymmetric and transitive |
| Tasks.PrioritySortOrder | src/pages/TasksPage.tsx:48-51 | with all priorities known, no lower rank comes before a higher one |
| Tasks.DueDateCmpConsistent | src/pages/TasksPage.tsx:45-47 | the due-date comparator is antisymmetric and transitive on every list |
| Tasks.DueDateSortOrder | src/pages/TasksPage.tsx:45-47 | by due date: the result is sorted, tasks without a date come first, and tasks with equal dates keep their stored order |
| Tasks.MissingTextThrows | src/pages/TasksPage.tsx:41 | the filter as written reads `t.text`; one task without it makes the whole filter throw |
| Tasks.AllTextNeverThrows | src/pages/TasksPage.tsx:41 | the filter as written succeeds when every task has `text` |
| Tasks.AsWrittenAgreesOnText | src/pages/TasksPage.tsx:39-43 | when each task's `text` is its description, the filter as written equals the filter on descriptions |
| TaskInput.Blank | src/components/TaskInput.tsx:38-43 | the empty form: blank text, due date and notes; category "Work", recurrence "none", priority "medium" |
| TaskInput.Loaded | src/components/TaskInput.tsx:45-60 | with no task being edited the form is blank; with one, the text is that task's description |
| TaskInput.BuildTask | src/components/TaskInput.tsx:64-74 | the built task carries the six field values and no `text`; an edit keeps the id, `completed` and creation time; a new task takes the fresh id and the time and starts not completed |
| TaskInput.Submit | src/components/TaskInput.tsx:75-79 | the built task goes to save-edit exactly when a task is being edited and the save-edit callback is given, otherwise to add |
| TaskInput.TaskForm.constructor | src/components/TaskInput.tsx:38-43 | the form starts blank |
| TaskInput.TaskForm.LoadEditTask | src/components/TaskInput.tsx:45-61 | after the effect the fields are those loaded from the task being edited, or blank |
| TaskInput.TaskForm.HandleAddOrEdit | src/components/TaskInput.tsx:63-86 | the submission is built from the fields as they were and routed as `Submit` says, and the form becomes blank |
| TaskInput.LoadThenBuild | src/components/TaskInput.tsx:45-74 | loading a task and submitting it unchanged keeps id, description, `completed` and creation time, and fills each missing or empty field with its default |
| TaskInput.FormTaskRoundTrip | src/components/TaskInput.tsx:45-74 | a task the form built with no empty field loads back into the same fields and resubmits unchanged |
| TaskInput.SaveEditKeepsOthers | src/components/TaskInput.tsx:64-76 | a saved edit replaces exactly the tasks with the edited id, keeps their `completed`, and leaves edit mode |
| TaskInput.NewTaskTogglesBack | src/components/TaskInput.tsx:72 | a new task starts with a boolean `completed`, so toggling its id twice gives the list back |
| TaskInput.FormTaskBreaksSearch | src/components/TaskInput.tsx:66 | once the form has added a task, the list's filter as written throws |
| Signup.ValidateEmailMatchesPattern | src/pages/SignupPage.tsx:6-8 | the split-at-first-`@` check accepts exactly what the email regular expression describes |
| Signup.EmailPattern | src/pages/SignupPage.tsx:7 | the language of `/^[^\s@]+@[^\s@]+\.[^\s@]+$/`: a plain part, `@`, a plain part, `.`, a plain part, none containing white space or `@` |
| Signup.ValidateEmail | src/pages/SignupPage.tsx:6-8 | the email check, split at the first `@`; equal to the pattern by Signup.ValidateEmailMatchesPattern |
| Signup.ValidatePhone | src/pages/SignupPage.tsx:9-11 | `/^\d{10,15}$/`: ten to fifteen ASCII digits and nothing else |
| Signup.PasswordPattern | src/pages/SignupPage.tsx:13 | the language of `/^(?=.*[A-Za-z])(?=.*\d)[A-Za-z\d]{8,}$/`, lookaheads included |
| Signup.ValidatePassword | src/pages/SignupPage.tsx:12-14 | the password check; equal to the pattern by Signup.ValidatePasswordMatchesPattern |
| Signup.Message | src/pages/SignupPage.tsx:32-63 | the error text each failed check shows, word for word |
| Signup.ValidEmailMatches | src/pages/SignupPage.tsx:6-8 | what the check accepts, the regular expression matches |
| Signup.MatchedEmailValid | src/pages/SignupPage.tsx:6-8 | what the regular expression matches, the check accepts |
| Signup.MatchAtIsValid | src/pages/SignupPage.tsx:7 | a match with its `@` and its dot at given positions is accepted |
| Signup.MatchHasOneAt | src/pages/SignupPage.tsx:7 | a match of the regular expression has no `@` other than its separator |
| Signup.EmailHasOneAt | src/pages/SignupPage.tsx:7 | a string with two `@` signs never matches |
| Signup.ValidatePasswordMatchesPattern | src/pages/SignupPage.tsx:12-14 | the password check (eight or more letters and digits, with a letter and a digit) is exactly the lookahead regular expression |
| Signup.HasLetterAt | src/pages/SignupPage.tsx:13 | the recursive letter search finds a letter exactly when some position holds one |
| Signup.HasDigitAt | src/pages/SignupPage.tsx:13 | the recursive digit search finds a digit exactly when some position holds one |
| Signup.FirstProblem | src/pages/SignupPage.tsx:32-63 | a reported problem is one the form has; no report means the form has no problem at all |
| Signup.FirstProblemIsFirst | src/pages/SignupPage.tsx:32-63 | every check before the reported one passed |
| Signup.FirstProblemNoLater | src/pages/SignupPage.tsx:32-63 | a form with a problem reports that problem or one checked before it |
| Signup.NoProblemIffValid | src/pages/SignupPage.tsx:32-63 | the form is sent exactly when it has no problem |
| Signup.HandleSignup | src/pages/SignupPage.tsx:29-68 | both messages are cleared; the form is rejected exactly when a check fails, with that check's message; otherwise it is sent |
| Signup.SentFormIsValid | src/pages/SignupPage.tsx:30-68 | a sent form has non-blank names, an email and a phone and a password matched by their regular expressions, a matching confirmation and a ticked bot box, and its payload holds the six inputs |
| Signup.MismatchReported | src/pages/SignupPage.tsx:56-59 | a form that passes every earlier check but has a different confirmation is rejected with "Passwords do not match." |
| Signup.AfterResponse | src/pages/SignupPage.tsx:69-77 | a token is stored only for a successful response; a thrown `Error` shows its message, any other throw "Signup failed" |
| Journal.BlankLine | src/pages/JournalPage.tsx:14 | a blank line has empty account, debit and credit |
| Journal.InitialLines | src/pages/JournalPage.tsx:14 | the form starts with exactly one blank line |
| Journal.Set | src/pages/JournalPage.tsx:23 | `{ ...l, [field]: value }` sets that input and keeps the other two |
| Journal.AddLine | src/pages/JournalPage.tsx:21 | one blank line is appended and the existing lines are unchanged |
| Journal.UpdateLine | src/pages/JournalPage.tsx:22-24 | same length; only input `f` of line `idx` changes; an index with no line changes nothing |
| Journal.UpdateTwice | src/pages/JournalPage.tsx:22-24 | the last write to an input wins |
| Journal.UpdatesCommute | src/pages/JournalPage.tsx:22-24 | edits to different inputs or different lines commute |
| Journal.NumberOrZero | src/pages/JournalPage.tsx:29-30 | `Number(s) \|\| 0`: the number `s` reads as, or 0 for `NaN` |
| Journal.FormatLine | src/pages/JournalPage.tsx:27-31 | a posted line: `Number` of the account id (`NaN` kept) and `Number(x) \|\| 0` of debit and credit (see Journal.PrintedLinePostsItsNumbers, Journal.BlankLinePostsZero) |
| Journal.NewEntry | src/pages/JournalPage.tsx:36 | the entry added to the list: the given id, the form's date and description and the posted lines |
| Journal.FormatLines | src/pages/JournalPage.tsx:27-31 | one posted line per line, in order |
| Journal.BlankLinePostsZero | src/pages/JournalPage.tsx:27-31 | a line left blank posts account 0, debit 0 and credit 0 |
| Journal.PrintedLinePostsItsNumbers | src/pages/JournalPage.tsx:27-31 | a line holding a printed account id and printed amounts posts those numbers, each held in hundredths like every number of the model (account id `n` as `100·n`) |
| Journal.UnreadableAmountIsZero | src/pages/JournalPage.tsx:29-30 | amounts that are not numbers post as 0 rather than failing |
| Journal.FormatAfterAddLine | src/pages/JournalPage.tsx:21-31 | formatting after an added line is the old formatting and one zero line |
| Journal.FormatSnoc | src/pages/JournalPage.tsx:27-31 | formatting goes line by line |
| Journal.JournalForm.constructor | src/pages/JournalPage.tsx:10-14 | no entries, today's date, no description and one blank line |
| Journal.JournalForm.AddLineClicked | src/pages/JournalPage.tsx:21 | the lines become `AddLine` of the old lines; nothing else changes |
| Journal.JournalForm.LineEdited | src/pages/JournalPage.tsx:22-24 | the lines become `UpdateLine` of the old lines; nothing else changes |
| Journal.JournalForm.AddEntry | src/pages/JournalPage.tsx:26-38 | a failed post changes nothing; an accepted one appends the entry with the lines as posted, and resets the date, description and lines |
| Journal.JournalForm.Accept | src/pages/JournalPage.tsx:36-37 | the entry is appended and the form reset |
| Journal.JournalForm.Reset | src/pages/JournalPage.tsx:37 | today's date, no description, one blank line; the entries are kept |
| AccountPage.AccountsPage.constructor | src/pages/AccountPage.tsx:11-14 | no accounts; empty name and code; type "Asset" |
| AccountPage.AccountsPage.AddAccount | src/pages/AccountPage.tsx:20-28 | with an input missing, or a failed post, nothing changes; otherwise the account is appended as entered and the inputs reset to "", "Asset", ""; a list of complete accounts stays complete |
| AccountPage.Accepts | src/pages/AccountPage.tsx:21 | the guard `!name \|\| !type \|\| !code` lets the account through: all three are non-empty |
| AccountPage.AllComplete | src/pages/AccountPage.tsx:20-28 | every listed account passed the guard; kept by AccountPage.AccountsPage.AddAccount |
| AccountPage.MenuTypesPass | src/pages/AccountPage.tsx:8 | every type the menu offers passes the type check |
| Contacts.ContactsPage.constructor | src/pages/ContactsPage.tsx:7-12 | no contacts and five empty inputs |
| Contacts.ContactsPage.AddContact | src/pages/ContactsPage.tsx:14-26 | with a blank name nothing changes; otherwise the untrimmed contact is appended and the five inputs are cleared; every listed contact keeps a name |
| Contacts.NamesPresent | src/pages/ContactsPage.tsx:15-19 | every listed contact has a name that is not blank; kept by Contacts.ContactsPage.AddContact |
| Contacts.ContactsPage.Clear | src/pages/ContactsPage.tsx:20-24 | the five inputs are cleared and the list is kept |
| Contacts.NamesPresentSnoc | src/pages/ContactsPage.tsx:15-19 | appending a named contact keeps every listed contact named |
| Books.RenameBook | src/pages/AccountsLayout.tsx:290-296 | same length and ids; the books with the id get the new name; the others are unchanged |
| Books.RemoveBook | src/pages/AccountsLayout.tsx:322 | no remaining book has the id and each was in the list; every book without the id remains; order and multiplicity by Books.RemoveKeepsOrder and Books.RemoveKeepsCount |
| Books.Persist | src/pages/AccountsLayout.tsx:69-72 | a selected book other than `null` or 0 is stored as its decimal text; otherwise the storage is unchanged |
| Books.Restore | src/pages/AccountsLayout.tsx:63-67 | an absent or empty stored value leaves the selection as it is; otherwise a stored whole number selects that id and any other text selects no book (`Number`'s `NaN`) |
| Books.CreateEnabled | src/pages/AccountsLayout.tsx:262 | the Create button is enabled when `!newBookName.trim()` is false (see Books.EnabledIffVisibleName) |
| Books.SaveEnabled | src/pages/AccountsLayout.tsx:300 | the Save button is enabled when `!newName.trim()` is false (see Books.EnabledIffVisibleName) |
| Books.Layout.constructor | src/pages/AccountsLayout.tsx:45-57 | no books, no selection, every dialog closed and every name blank |
| Books.Layout.Select | src/pages/AccountsLayout.tsx:148 | the selection is set and persisted; nothing else changes |
| Books.Layout.RestoreSelection | src/pages/AccountsLayout.tsx:63-72 | a stored value selects its number, and the persist effect follows; without one nothing changes |
| Books.Layout.CreateClicked | src/pages/AccountsLayout.tsx:251-262 | a disabled button or a failed post changes nothing; otherwise the book is appended and selected, and the dialog closes with its name cleared |
| Books.Layout.SaveRenameClicked | src/pages/AccountsLayout.tsx:281-300 | a disabled button, no book in the dialog or a failed put changes nothing; otherwise the book is renamed and the dialog closes |
| Books.Layout.CloseRename | src/pages/AccountsLayout.tsx:297 | the rename dialog closes and forgets its book; nothing else changes |
| Books.Layout.DeleteClicked | src/pages/AccountsLayout.tsx:316-326 | a missing book or a failed request changes nothing; otherwise the book leaves the list and the dialog closes |
| Books.PersistThenRestore | src/pages/AccountsLayout.tsx:63-72 | a stored selection other than 0 is restored after a reload |
| Books.RestoreThenPersist | src/pages/AccountsLayout.tsx:63-72 | after a restore the persist effect writes back what it read |
| Books.FalsySelectionNotStored | src/pages/AccountsLayout.tsx:70 | book 0 and no selection are never stored |
| Books.EnabledIffVisibleName | src/pages/AccountsLayout.tsx:262 | Create and Save are enabled exactly when the name has a character that is not white space |
| Books.RenameKeepsIds | src/pages/AccountsLayout.tsx:290-296 | a rename keeps the list of ids |
| Books.RenameAfterRemove | src/pages/AccountsLayout.tsx:290-322 | renaming a removed id changes nothing |
| Books.RemoveKeepsOrder | src/pages/AccountsLayout.tsx:322 | the books that remain after a delete are a subsequence of the list: they keep their order |
| Books.RemoveKeepsCount | src/pages/AccountsLayout.tsx:322 | the remaining books and the books with the id together are the list as a multiset, so each book without the id remains as often as it was listed |
| Books.RemoveAbsent | src/pages/AccountsLayout.tsx:322 | removing an id no book has changes nothing |
| Books.RemoveCreated | src/pages/AccountsLayout.tsx:256-322 | deleting a book just created gives back the books before it, in order |
| Report.SectionLines | src/pages/IncomeStatementPage.tsx:22-27 | one CSV line per account, in order, each the section, code, name and amount |
| Report.SectionText | src/pages/IncomeStatementPage.tsx:23 | the line `section,code,name,amount` with the amount as JavaScript prints it |
| Report.Cells | src/pages/IncomeStatementPage.tsx:23 | the four cells of that line; the line is their record by Report.SectionLinesAreRecords |
| Report.SectionCells | src/pages/IncomeStatementPage.tsx:22-27 | one cell row per account, in order |
| Report.AppendRows | src/pages/IncomeStatementPage.tsx:22-24 | the `forEach` that adds `rows += line + "\n"` appends each section line ended by a newline |
| Report.AmountCells | src/pages/IncomeStatementPage.tsx:109 | each displayed amount reads back as that account's amount |
| Report.AmountText | src/pages/IncomeStatementPage.tsx:109 | `toFixed(2)` of an amount reads back as the amount |
| Report.RowTexts | src/pages/IncomeStatementPage.tsx:46 | one PDF text per account, in order |
| Report.RowText | src/pages/IncomeStatementPage.tsx:46 | the PDF text `code \| name \| amount` |
| Report.DrawSection | src/pages/IncomeStatementPage.tsx:43-48 | a heading at `y` and one row per account from `y + 8`, 8 apart; `y` ends 8 past the last row |
| Report.SectionLinesAreRecords | src/pages/IncomeStatementPage.tsx:23 | each section line is the comma record of its cells |
| Report.ThreeSectionsAt | src/pages/BalanceSheetPage.tsx:15-24 | in a header row followed by three sections, each account's row sits at its section's offset |
| Report.ThreeSectionsClean | src/pages/BalanceSheetPage.tsx:15-24 | a clean header and three clean sections make a clean table |
| Report.SectionCellsClean | src/pages/IncomeStatementPage.tsx:22-27 | a section's cells are clean when its codes and names are |
| IncomeStatement.TotalIsSum | src/pages/IncomeStatementPage.tsx:16-17 | the left-to-right `reduce` from 0 equals the reference sum of the amounts |
| IncomeStatement.Total | src/pages/IncomeStatementPage.tsx:16-17 | `reduce((sum, acc) => sum + acc.amount, 0)`, adding from the first account on; equal to the reference sum by IncomeStatement.TotalIsSum |
| IncomeStatement.Sum | src/pages/IncomeStatementPage.tsx:16-17 | the reference sum of the amounts, taken from the back |
| IncomeStatement.SumSnoc | src/pages/IncomeStatementPage.tsx:16 | the reference sum of one more account adds its amount |
| IncomeStatement.TotalConcat | src/pages/IncomeStatementPage.tsx:16-17 | the total of two lists is the sum of their totals; no accounts total 0 |
| IncomeStatement.TotalBoundsAmounts | src/pages/IncomeStatementPage.tsx:16-17 | with no negative amount, the total is at least 0 and at least every amount |
| IncomeStatement.EmptySideShowsZero | src/pages/IncomeStatementPage.tsx:114 | a side with no accounts totals 0 and shows "0.00" |
| IncomeStatement.Render | src/pages/IncomeStatementPage.tsx:13-158 | no book: a request to pick one; no data: nothing; otherwise each amount and both totals read back as the accounts' amounts and their sums, and the net income as the server's figure; each total is the `toFixed(2)` text of its figure |
| IncomeStatement.Table | src/pages/IncomeStatementPage.tsx:21-28 | the header row, one `Income` row per income account, one `Expense` row per expense account, in order, and the net income row last |
| IncomeStatement.ExportCsv | src/pages/IncomeStatementPage.tsx:19-28 | no data gives no file; otherwise the text is the header, the two sections and the net income line, each ended by a newline |
| IncomeStatement.NetText | src/pages/IncomeStatementPage.tsx:28 | the closing line `,,Net Income,<net>` with the net income as JavaScript prints it |
| IncomeStatement.Lines | src/pages/IncomeStatementPage.tsx:21-28 | the export's lines: header, income lines, expense lines, net income line |
| IncomeStatement.CsvText | src/pages/IncomeStatementPage.tsx:20-28 | the export's text, each line ended by a newline; it reads back by IncomeStatement.CsvReadsBack |
| IncomeStatement.HeaderRecord | src/pages/IncomeStatementPage.tsx:21 | the header line is the record of the header cells |
| IncomeStatement.NetRecord | src/pages/IncomeStatementPage.tsx:28 | the closing line is the record of two empty cells, "Net Income" and the net income |
| IncomeStatement.HeaderClean | src/pages/IncomeStatementPage.tsx:21 | the header cells are clean |
| IncomeStatement.NetClean | src/pages/IncomeStatementPage.tsx:28 | the closing row is clean |
| IncomeStatement.CsvTextParts | src/pages/IncomeStatementPage.tsx:21-28 | the text is the header line, then the ended income lines, expense lines and closing line |
| IncomeStatement.LinesAreRecords | src/pages/IncomeStatementPage.tsx:21-28 | each line of the export is the record of its table row |
| IncomeStatement.CsvStartsWithHeader | src/pages/IncomeStatementPage.tsx:21 | the export starts with the header line and a newline |
| IncomeStatement.TableClean | src/pages/IncomeStatementPage.tsx:21-28 | with clean codes and names the whole table is clean |
| IncomeStatement.CsvReadsBack | src/pages/IncomeStatementPage.tsx:21-28 | with clean codes and names the export reads back as its table and an empty last line, and holds 2 + income + expense newlines |
| IncomeStatement.ExportPdf | src/pages/IncomeStatementPage.tsx:38-57 | the draws of the stepping `y` loop are exactly the layout |
| IncomeStatement.Layout | src/pages/IncomeStatementPage.tsx:38-57 | the draws of the export for a statement; its shape and order by IncomeStatement.LayoutDescends |
| IncomeStatement.Page | src/pages/IncomeStatementPage.tsx:41-57 | the title at 10, "Income" at 20, "Expenses" 12 past the last income row, the net income 16 past the last expense row |
| IncomeStatement.PageSteps | src/pages/IncomeStatementPage.tsx:41-57 | the steps of the export, starting at the title, build the page |
| IncomeStatement.PageDescends | src/pages/IncomeStatementPage.tsx:41-57 | every draw lies below the one before |
| IncomeStatement.PageShape | src/pages/IncomeStatementPage.tsx:41-57 | the page has 4 + income + expense draws and ends with the net income line |
| IncomeStatement.LayoutDescends | src/pages/IncomeStatementPage.tsx:41-57 | the layout goes down the page, has one draw per heading and account, and ends with "Net Income: " and the server's figure |
| BalanceSheet.Render | src/pages/BalanceSheetPage.tsx:63-176 | no book: a request to pick one; no data: nothing; otherwise the balances and the three totals read back as the server's figures, and "Liabilities + Equity" reads back as their sum, the same in the table and in the summary; each total is the printed text of its figure |
| BalanceSheet.LiabilitiesAndEquity | src/pages/BalanceSheetPage.tsx:167 | the sum the page adds up for the "Liabilities + Equity" figure |
| BalanceSheet.ExportCsv | src/pages/BalanceSheetPage.tsx:13-24 | no data gives no file; otherwise the text is the header and the three ended sections |
| BalanceSheet.Lines | src/pages/BalanceSheetPage.tsx:15-24 | the export's lines: header, asset, liability and equity lines |
| BalanceSheet.CsvText | src/pages/BalanceSheetPage.tsx:15-24 | the export's text, each line ended by a newline; it reads back by BalanceSheet.CsvReadsBack |
| BalanceSheet.Table | src/pages/BalanceSheetPage.tsx:15-24 | the cells of the export row by row; laid out by BalanceSheet.TableRows |
| BalanceSheet.HeaderRecord | src/pages/BalanceSheetPage.tsx:15 | the header line is the record of the header cells |
| BalanceSheet.HeaderClean | src/pages/BalanceSheetPage.tsx:15 | the header cells are clean |
| BalanceSheet.CsvTextParts | src/pages/BalanceSheetPage.tsx:15-24 | the text is the header line, then the Asset, Liability and Equity lines, each ended |
| BalanceSheet.TableRows | src/pages/BalanceSheetPage.tsx:15-24 | the table is the header, then one row per asset, liability and equity account, in order |
| BalanceSheet.LinesAreRecords | src/pages/BalanceSheetPage.tsx:15-24 | each line of the export is the record of its table row |
| BalanceSheet.TableClean | src/pages/BalanceSheetPage.tsx:15-24 | with clean codes and names the whole table is clean |
| BalanceSheet.CsvReadsBack | src/pages/BalanceSheetPage.tsx:15-24 | with clean codes and names the export reads back as its table and an empty last line, and holds 1 + assets + liabilities + equity newlines |
| BalanceSheet.ExportPdf | src/pages/BalanceSheetPage.tsx:34-58 | the draws of the stepping `y` loop are exactly the layout |
| BalanceSheet.Layout | src/pages/BalanceSheetPage.tsx:34-58 | the draws of the export for a sheet; its order by BalanceSheet.LayoutDescends |
| BalanceSheet.Page | src/pages/BalanceSheetPage.tsx:37-58 | the title at 10, "Assets" at 20, and "Liabilities" and "Equity" each 12 past the last row of the section before |
| BalanceSheet.PageSteps | src/pages/BalanceSheetPage.tsx:37-58 | the steps of the export, starting at the title, build the page |
| BalanceSheet.PageDescends | src/pages/BalanceSheetPage.tsx:37-58 | every draw lies below the one before |
| BalanceSheet.PageShape | src/pages/BalanceSheetPage.tsx:37-58 | the three headings sit at 20, 12 past the last asset step and 12 past the last liability step |
| BalanceSheet.LayoutDescends | src/pages/BalanceSheetPage.tsx:37-58 | the layout goes down the page with one draw per heading and account |
| TrialBalance.DisplayCell | src/pages/TrialBalancePage.tsx:63-65 | a missing or zero figure is a blank cell; any other cell reads back as the figure |
| TrialBalance.Render | src/pages/TrialBalancePage.tsx:28-72 | no book: a request to pick one; no data: nothing; otherwise one row per account in order, and both totals read back as the server's figures and are their `toFixed(2)` texts |
| TrialBalance.RowOf | src/pages/TrialBalancePage.tsx:59-67 | a table row: code, name, and the three figures as TrialBalance.DisplayCell shows them |
| TrialBalance.JoinCell | src/pages/TrialBalancePage.tsx:17 | `join` leaves `null` empty and prints a number that reads back as itself, with no comma or newline |
| TrialBalance.Table | src/pages/TrialBalancePage.tsx:16-17 | one cell row per account, in order |
| TrialBalance.Cells | src/pages/TrialBalancePage.tsx:17 | the five exported cells of an account, figures as `join` prints them |
| TrialBalance.Row | src/pages/TrialBalancePage.tsx:17 | the comma record of those cells; the rows read back by TrialBalance.CsvReadsBack |
| TrialBalance.ExportCsv | src/pages/TrialBalancePage.tsx:13-19 | a file exactly when there is data, starting with the header line and a newline |
| TrialBalance.HeaderRecord | src/pages/TrialBalancePage.tsx:15 | the header line is the record of the header cells |
| TrialBalance.RowsAreRecords | src/pages/TrialBalancePage.tsx:16-17 | each row is the record of its cells |
| TrialBalance.HeaderClean | src/pages/TrialBalancePage.tsx:15 | the header cells are clean |
| TrialBalance.CellsClean | src/pages/TrialBalancePage.tsx:17 | with a clean code and name every cell of a row is clean |
| TrialBalance.RowsClean | src/pages/TrialBalancePage.tsx:16-17 | with clean codes and names every row is clean |
| TrialBalance.TableClean | src/pages/TrialBalancePage.tsx:15-17 | with clean codes and names the header and every row are clean |
| TrialBalance.CsvReadsBack | src/pages/TrialBalancePage.tsx:15-19 | with clean codes and names the export reads back as the header and one row per account (with no accounts, the header and an empty line), and holds max(1, accounts) newlines |
| TrialBalance.NoAccountsHeaderOnly | src/pages/TrialBalancePage.tsx:15-19 | with no accounts the export is the header line and its newline |
| TrialBalance.DisplayAndExportAgree | src/pages/TrialBalancePage.tsx:17-65 | the table and the export agree on every figure except zero, which the table leaves blank and the export prints as "0" |
| Ledger.Table | src/pages/LedgerPage.tsx:48-52 | one cell row per entry, in order |
| Ledger.Render | src/pages/LedgerPage.tsx:86-172 | exactly without a book (`null` or 0) the page asks for one; otherwise the account list is the empty choice followed by one item per account, the export buttons are disabled exactly when the CSV export gives nothing, the account line shows exactly when there is account info, and the body is the entries' table exactly when there are entries, otherwise "No ledger entries…" with a selected account and "Select an account…" without one |
| Ledger.Menu | src/pages/LedgerPage.tsx:118-129 | the empty choice "Select Account" first, then one item per account in order, selecting its id and labelled `name (code)` |
| Ledger.ShownTableIsExport | src/pages/LedgerPage.tsx:45-53 | with clean dates and descriptions, the CSV export of a shown table reads back as the table's header and rows |
| Ledger.Truthy | src/pages/LedgerPage.tsx:34 | a number or `null` is truthy when present and not 0, as the `selected && bookId` guard reads it |
| Ledger.Cells | src/pages/LedgerPage.tsx:50 | the five cells of an entry's row, figures as `join` prints them |
| Ledger.Row | src/pages/LedgerPage.tsx:50 | the comma record of those cells; the rows read back by Ledger.CsvReadsBack |
| Ledger.ExportCsv | src/pages/LedgerPage.tsx:45-53 | no file exactly when the ledger is empty; otherwise it starts with the header line and a newline |
| Ledger.HeaderRecord | src/pages/LedgerPage.tsx:47 | the header line is the record of the header cells |
| Ledger.RowsAreRecords | src/pages/LedgerPage.tsx:48-52 | each row is the record of its cells |
| Ledger.HeaderClean | src/pages/LedgerPage.tsx:47 | the header cells are clean |
| Ledger.CellsClean | src/pages/LedgerPage.tsx:50 | with a clean date and description every cell of a row is clean |
| Ledger.RowsClean | src/pages/LedgerPage.tsx:48-52 | with clean dates and descriptions every row is clean |
| Ledger.CsvReadsBack | src/pages/LedgerPage.tsx:47-53 | with a non-empty ledger and clean dates and descriptions, the export reads back as the header and one row per entry, and holds one newline per entry |
| Ledger.RowTexts | src/pages/LedgerPage.tsx:75-80 | one PDF text per entry, in order |
| Ledger.RowText | src/pages/LedgerPage.tsx:76-77 | the PDF text of an entry: date, description, debit, credit and balance joined by ` \| ` |
| Ledger.AccountText | src/pages/LedgerPage.tsx:67-73 | an account line exactly when there is account info |
| Ledger.Top | src/pages/LedgerPage.tsx:66-73 | the title at 10, then the account line at 18 when there is one |
| Ledger.ExportPdf | src/pages/LedgerPage.tsx:62-82 | nothing for an empty ledger; otherwise the draws of the loop are exactly the layout |
| Ledger.Layout | src/pages/LedgerPage.tsx:66-82 | the draws of the export for a ledger and its account info; positions by Ledger.LayoutRows |
| Ledger.Page | src/pages/LedgerPage.tsx:66-82 | the heading draws and then the rows from 28, 8 apart |
| Ledger.PageRows | src/pages/LedgerPage.tsx:66-82 | the title first; with an account line it comes second and row `i` is draw `i + 2` at `28 + 8·i`; without one row `i` is draw `i + 1` |
| Ledger.LayoutRows | src/pages/LedgerPage.tsx:66-82 | the same positions, for the ledger's own row texts and account line |
| Ledger.PageDescends | src/pages/LedgerPage.tsx:66-82 | every draw lies below the one before |
| Ledger.LayoutDescends | src/pages/LedgerPage.tsx:66-82 | the layout goes down the page |
| Ledger.AccountLineOnlyWithInfo | src/pages/LedgerPage.tsx:67-74 | some draw lies at 18 exactly when there is an account line |
| Ledger.AccountLineIffInfo | src/pages/LedgerPage.tsx:67-74 | the layout has a draw at 18 exactly when there is account info |
| Ledger.LedgerPage.constructor | src/pages/LedgerPage.tsx:20-22 | no selection, no ledger and no account info |
| Ledger.LedgerPage.BookChanged | src/pages/LedgerPage.tsx:24-31 | with a book (not `null`, not 0) the selection, ledger and account info are reset; otherwise nothing changes |
| Ledger.LedgerPage.Select | src/pages/LedgerPage.tsx:120 | the selection becomes the chosen id, and the empty choice becomes 0; nothing else changes |
| Ledger.LedgerPage.SelectionChanged | src/pages/LedgerPage.tsx:33-43 | without both an account and a book the ledger and account info are cleared; with both, the response sets them, a missing ledger giving `[]` and missing info `null` |
| Ledger.LedgerPage.ChangeBook | src/pages/LedgerPage.tsx:24-43 | after a change to a book, selection, ledger and account info are empty and there is nothing to export |
| Numbers.CentsText | src/pages/IncomeStatementPage.tsx:23 | a number in a template literal prints as a numeral |
| Numbers.Fixed2 | src/pages/IncomeStatementPage.tsx:109 | `toFixed(2)` prints a numeral with exactly two digits after the point |
| Numbers.ParsePrinted | src/pages/IncomeStatementPage.tsx:23 | what JavaScript prints for an amount reads back through `Number` as that amount |
| Numbers.ParseFixed | src/pages/IncomeStatementPage.tsx:109 | what `toFixed(2)` prints reads back as the same amount |
| Numbers.Money | src/pages/BalanceSheetPage.tsx:110 | a displayed total reads back as the amount |
| Numbers.ParseBlank | src/pages/JournalPage.tsx:28-30 | an empty or blank input reads as 0 |
| Numbers.ParseIntText | src/pages/JournalPage.tsx:28 | `Number(String(n))` is `n` |
| Numbers.WholeNumberOfIntText | src/pages/AccountsLayout.tsx:66-71 | a stored book id reads back as the id |
| Numbers.NatTextRoundTrip | src/pages/AccountsLayout.tsx:71 | the digits of a natural number denote it |
| Numbers.ParseNumber | src/pages/JournalPage.tsx:28-30 | `Number(s)` in cents, `None` for `NaN`: white space ignored, blank is 0, an optional sign, a decimal with at most two fraction digits; it reads back every printed amount (Numbers.ParsePrinted, Numbers.ParseFixed) |
| Numbers.WholeNumber | src/pages/AccountsLayout.tsx:66 | `Number(saved)` read as a whole id; a stored id reads back by Numbers.WholeNumberOfIntText |
| Numbers.IntText | src/pages/AccountsLayout.tsx:71 | `String(n)` of an integer; it reads back by Numbers.ParseIntText |
| Numbers.NatText | src/pages/AccountsLayout.tsx:71 | the decimal digits of a natural number; they denote it by Numbers.NatTextRoundTrip |
| Text.BlankIffAllSpace | src/pages/ContactsPage.tsx:15 | `!s.trim()` holds exactly when every character is white space |
| Text.IsSpace | src/pages/ContactsPage.tsx:15 | the characters `trim` and `\s` treat as white space |
| Text.Trim | src/pages/ContactsPage.tsx:15 | `trim()` gives the slice of the text that is left once the white space before it and after it is removed, so it neither starts nor ends with white space |
| Text.IsBlank | src/pages/ContactsPage.tsx:15 | `!s.trim()`; exactly the all-white-space strings by Text.BlankIffAllSpace |
| Text.TrimNoEdgeSpace | src/pages/ContactsPage.tsx:15 | trimming a string without white space at either end leaves it unchanged |
| Text.LowerChar | src/pages/TasksPage.tsx:41 | `toLowerCase` maps each ASCII capital to its small letter and leaves every other character |
| Text.ToLower | src/pages/TasksPage.tsx:41 | `toLowerCase()` keeps the length and lower-cases each character by Text.LowerChar |
| Text.Includes | src/pages/TasksPage.tsx:41 | `includes`; it holds exactly when the needle occurs, by Text.IncludesIffOccurs |
| Text.IncludesIffOccurs | src/pages/TasksPage.tsx:41 | `includes` holds exactly when the needle occurs at some position |
| Text.IncludesEmpty | src/pages/TasksPage.tsx:41 | the empty search is included in every text |
| Text.Split | src/pages/TrialBalancePage.tsx:16-18 | `split` gives one piece more than separators, none holding the separator |
| Text.SplitJoin | src/pages/TrialBalancePage.tsx:16-18 | splitting undoes `join` when no part holds the separator |
| Text.JoinSeparatorCount | src/pages/TrialBalancePage.tsx:16-18 | joining `n` clean parts puts `n - 1` separators in |
| Text.Join | src/pages/TrialBalancePage.tsx:17-18 | `join` with a one-character separator; undone by `split` (Text.SplitJoin) |
| Text.Compare | src/pages/TasksPage.tsx:46 | the ordinal comparison, by code point, is -1, 0 or 1 |
| Text.CompareZeroIffEqual | src/pages/TasksPage.tsx:46 | the comparison is 0 exactly for equal strings |
| Text.CompareAntisymmetric | src/pages/TasksPage.tsx:46 | swapping the strings flips the sign |
| Text.CompareTransitive | src/pages/TasksPage.tsx:46 | "sorts no later" is transitive |
| Text.EmptyComesFirst | src/pages/TasksPage.tsx:46 | a missing due date ("") sorts before every other date |
| Sorting.Sort | src/pages/TasksPage.tsx:44-53 | the sorted list is a permutation of the input |
| Sorting.SortSorted | src/pages/TasksPage.tsx:44-53 | under a consistent comparator the result is sorted |
| Sorting.SortStable | src/pages/TasksPage.tsx:44-53 | elements that compare equal keep their relative order |
| Sorting.SortAllEqual | src/pages/TasksPage.tsx:52 | a comparator that never orders two elements leaves the list as it is |
| Sorting.InsertAfterBlock | src/pages/TasksPage.tsx:44-53 | an element lands right after a block it sorts strictly after |
| Csv.Record4 | src/pages/IncomeStatementPage.tsx:23 | the template `a,b,c,d` is the record of four cells |
| Csv.Record5 | src/pages/TrialBalancePage.tsx:17 | `[a, b, c, d, e].join(",")` is the template `a,b,c,d,e` |
| Csv.Record | src/pages/TrialBalancePage.tsx:17 | a record: the cells joined by commas; it reads back by Csv.RecordReadsBack |
| Csv.Records | src/pages/TrialBalancePage.tsx:16-17 | one record per row, in order |
| Csv.Terminated | src/pages/IncomeStatementPage.tsx:22-24 | the lines each followed by a newline, as `rows += line + "\n"` builds them; read back by Csv.ParseTerminated |
| Csv.ParseCsv | src/pages/TrialBalancePage.tsx:15-19 | a document reads as one row per newline, plus one |
| Csv.RecordReadsBack | src/pages/TrialBalancePage.tsx:17 | a record of clean cells has no newline and splits back into its cells |
| Csv.ParseTerminated | src/pages/IncomeStatementPage.tsx:21-28 | lines each ended by a newline read back as the table and an empty last line, with one newline per record |
| Csv.ParseJoined | src/pages/TrialBalancePage.tsx:16-18 | records joined by newlines read back as the table, with one newline fewer than records |
| Csv.ParseHeaderJoined | src/pages/TrialBalancePage.tsx:15-19 | `header + rows.join("\n")` reads back as the header and the rows, or as the header and an empty line when there are no rows |
| Pdf.Rows | src/pages/LedgerPage.tsx:74-82 | row `i` is drawn at x = 10 and y = top + 8·i |
| Pdf.Section | src/pages/IncomeStatementPage.tsx:43-48 | a heading at `y` and its rows from `y + 8`; its shape by Pdf.SectionDescends |
| Pdf.DrawEach | src/pages/LedgerPage.tsx:74-82 | the `forEach` that draws and steps `y` by 8 adds exactly the rows from `y`, and leaves `y` 8 past each of them |
| Pdf.RowsDescending | src/pages/LedgerPage.tsx:74-82 | the rows go down the page |
| Pdf.SectionDescends | src/pages/IncomeStatementPage.tsx:43-48 | a section goes down the page from its heading, and its last row lies 8 per row below that heading |
| Pdf.ThreeSectionsBelow | src/pages/BalanceSheetPage.tsx:37-58 | a title and three sections, each starting below the previous one's end, go down the page |
| Pdf.TwoSectionsBelow | src/pages/IncomeStatementPage.tsx:41-57 | a title, two sections and a closing line, each starting below the previous one's end, go down the page |
| Pdf.DescendingConcat | src/pages/IncomeStatementPage.tsx:41-57 | two downward pieces, the second starting below the first, go down together |

## Left out

- Network and storage I/O:
  - every `apiFetch` call is left out. A request's outcome is a method parameter: `requestOk`,
    the created book, or the ledger response.
  - the account list the ledger page fetches for its menu (`src/pages/LedgerPage.tsx:26`)
    appears only in the menu and is not modelled.
  - `localStorage` is a field of `Books.Layout`. The JSON storage of tasks is not modelled.
  - React's effect timing and async scheduling are not modelled. An effect is a method the
    caller runs after the state change that triggers it.
- Downloads and PDF saving: Blob, object URLs, anchors and `doc.save` are left out. The model
  keeps the CSV text and the sequence of PDF draws.
- Clocks and randomness: `Math.random()`, `Date.now()`, `new Date().toISOString()` and today's
  date are parameters.
- Floating point: amounts are exact integers in cents.
  - A figure finer than a cent, a float rounding error in a `reduce` sum, and
    exponent notation in printed numbers are not modelled.
  - `Numbers.ParseNumber` reads only the plain decimal forms (an optional sign, digits, at most
    two fraction digits, surrounding white space). Anything else counts as `NaN`, which includes
    hex, exponent and `Infinity` forms that `Number()` would accept.
- Text:
  - `toLowerCase` lower-cases ASCII letters only.
  - `localeCompare` is modelled as an ordinal comparison of Unicode code points. It differs from
    both the locale's collation and UTF-16 code-unit order, which only disagree with code-point order
    when a character beyond U+FFFF meets one in U+E000 to U+FFFF.
- Tasks.PrioritySortOrder: holds only when every priority is low, medium, high or missing. For
  an unknown priority the source's comparator returns `NaN`, and JavaScript leaves the order of
  such a sort to the implementation. The model gives the insertion-sort order and proves
  nothing about it.
- Escaping: CSV cells are written unescaped by the source. The read-back lemmas therefore
  require that codes, names, dates and descriptions hold no comma and no newline. Without that,
  the exports are still modelled exactly; only the read-back lemmas do not apply.
- Missing values in the reports:
  - A `null` code or name printed into a template literal (as "null") is not modelled. Codes and
    names are strings, and `account_code || ""` (`src/pages/BalanceSheetPage.tsx:156`) is an
    identity on them.
  - Ledger entries carry integer figures. A `null` figure in a ledger row is not modelled.
  - The trial balance does model missing figures.
- The server's accounting engine (balances, totals, net income) is not part of the client code.
  Totals the server reports are inputs. Only the income statement's own totals and the
  displayed "Liabilities + Equity" figure are computed.
- Books.Restore: restores only a stored whole number. The page reads any stored text with
  `Number` and would select a fractional value such as `1.5`; the model selects nothing for it.
  The page itself only stores `String` of a whole book id, so only a value edited by hand
  differs.
- Ledger.Render: takes the account list as an input. Fetching it from `/accounts` when the book
  changes is not modelled.
- Ledger.LedgerPage.ChangeBook: runs the book effect and then the selection effect on the reset
  state. In the page both effects fire in the same commit, and the selection effect also runs once
  with the old account and book. The answer to that request can arrive after the reset and refill
  the ledger and account info. That stale run is not modelled.
- How the rename and delete dialogs open is not modelled, since no control in the layout opens
  them. Their Save and Delete actions are modelled.
- Code split into methods: each `forEach` loop is one method (`Report.AppendRows`,
  `Report.DrawSection`, `Pdf.DrawEach`) that its page's export method calls. Each export is the
  composition of those steps, with the same order of appends and draws.
- Rendering-only code is not modelled:
  - the styling of the JSX tables and layouts, the account menus other than the general
    ledger's, the navigation and the theme;
  - the notification permission request in `src/components/TaskInput.tsx:88-92`;
  - `TaskItem` and `TaskList`;
  - the dashboard, login and calendar pages;
  - the older report pages `BalancesheetPage.tsx`, `IncomestatementPage.tsx` and
    `TrialbalancePage.tsx`.
- Signup.AfterResponse: the redirect to the login page after 1.5 seconds is left out; it is a
  timer and a navigation.

## Findings

| source | as written | input that shows it | evidently intended | confidence | as-written member | corrected member |
|---|---|---|---|---|---|---|
| src/pages/TasksPage.tsx:41 | the search filter reads `t.text`. The task type declares `description` (`src/types/task.ts:3`), and the form writes only `description` (`src/components/TaskInput.tsx:66`). | any task added through the form, since it has no `text`, so `t.text.toLowerCase()` throws on the next render | search the task's `description` | not executed | Tasks.FilteredAsWritten, with Tasks.MissingTextThrows and TaskInput.FormTaskBreaksSearch | Tasks.Filtered, with Tasks.VisibleIsFilteredPermutation and Tasks.AsWrittenAgreesOnText |
