/**
 * The accounting layout: the list of books, the selected book (remembered in browser storage
 * under the key `selectedBook`), and the create, rename and delete dialogs.
 */
module Books {
  import opened Wrappers
  import Seqs
  import Text
  import Numbers

  /** A book as the server returns it. */
  datatype Book = Book(id: int, name: string)

  /** The rename of the list: every book with the id gets the new name. */
  function RenameBook(books: seq<Book>, id: int, newName: string): (r: seq<Book>)
    ensures |r| == |books|
    ensures forall i :: 0 <= i < |books| ==>
      r[i].id == books[i].id && r[i].name == (if books[i].id == id then newName else books[i].name)
  {
    Seqs.Map(books, (b: Book) => if b.id == id then b.(name := newName) else b)
  }

  /** The delete of the list: exactly the books without the id remain, in order. */
  function RemoveBook(books: seq<Book>, id: int): (r: seq<Book>)
    ensures forall i :: 0 <= i < |r| ==> r[i].id != id && r[i] in books
    ensures forall i :: 0 <= i < |books| && books[i].id != id ==> books[i] in r
  {
    Seqs.Filter(books, (b: Book) => b.id != id)
  }

  /** The Create button is enabled: `!newBookName.trim()` is false. */
  predicate CreateEnabled(newBookName: string)
  {
    !Text.IsBlank(newBookName)
  }

  /** The Save button of the rename dialog is enabled: `!newName.trim()` is false. */
  predicate SaveEnabled(newName: string)
  {
    !Text.IsBlank(newName)
  }

  /**
   * The storage after the persist effect: `if (selectedBook) setItem(String(selectedBook))`.
   * `null` and 0 are falsy and leave the stored value as it was.
   */
  function Persist(selected: Option<int>, stored: Option<string>): (r: Option<string>)
    ensures selected.Some? && selected.value != 0 ==> r == Some(Numbers.IntText(selected.value))
    ensures selected == None || selected == Some(0) ==> r == stored
  {
    if selected.Some? && selected.value != 0 then Some(Numbers.IntText(selected.value)) else stored
  }

  /**
   * The restore effect: `if (saved) setSelectedBook(Number(saved))`. `None` means the selection
   * is not set; `Some(None)` is a stored value that is not a whole number.
   */
  function Restore(saved: Option<string>): (r: Option<Option<int>>)
    ensures saved == None || saved == Some("") ==> r == None
    ensures saved.Some? && saved.value != "" ==> r == Some(Numbers.WholeNumber(saved.value))
  {
    if saved.Some? && saved.value != "" then Some(Numbers.WholeNumber(saved.value)) else None
  }

  /** The layout's state. */
  class Layout {
    var books: seq<Book>
    var selectedBook: Option<int>
    var bookDialog: bool
    var newBookName: string
    var renameOpen: bool
    var renameBook: Option<Book>
    var deleteOpen: bool
    var deleteBook: Option<Book>
    var newName: string
    /** The browser storage entry `selectedBook`. */
    var stored: Option<string>

    /** The layout on mount, before the books arrive, with the storage as the browser holds it. */
    constructor (stored: Option<string>)
      ensures books == [] && selectedBook == None && !bookDialog && newBookName == ""
      ensures !renameOpen && renameBook == None && !deleteOpen && deleteBook == None && newName == ""
      ensures this.stored == stored
    {
      books := [];
      selectedBook := None;
      bookDialog := false;
      newBookName := "";
      renameOpen := false;
      renameBook := None;
      deleteOpen := false;
      deleteBook := None;
      newName := "";
      this.stored := stored;
    }

    /** A new selection, followed by the persist effect. */
    method Select(book: Option<int>)
      modifies this
      ensures selectedBook == book && stored == Persist(book, old(stored))
      ensures books == old(books) && bookDialog == old(bookDialog) && newBookName == old(newBookName)
      ensures renameOpen == old(renameOpen) && renameBook == old(renameBook)
      ensures deleteOpen == old(deleteOpen) && deleteBook == old(deleteBook) && newName == old(newName)
    {
      selectedBook := book;
      if book.Some? && book.value != 0 {
        stored := Some(Numbers.IntText(book.value));
      }
    }

    /** The restore effect on mount, followed by the persist effect when it selected something. */
    method RestoreSelection()
      modifies this
      ensures Restore(old(stored)) == None ==> selectedBook == old(selectedBook) && stored == old(stored)
      ensures Restore(old(stored)).Some? ==>
        selectedBook == Restore(old(stored)).value && stored == Persist(selectedBook, old(stored))
      ensures books == old(books) && bookDialog == old(bookDialog) && newBookName == old(newBookName)
      ensures renameOpen == old(renameOpen) && renameBook == old(renameBook)
      ensures deleteOpen == old(deleteOpen) && deleteBook == old(deleteBook) && newName == old(newName)
    {
      if stored.Some? && stored.value != "" {
        Select(Numbers.WholeNumber(stored.value));
      }
    }

    /**
     * The Create button. A disabled button does nothing; a post that throws stops before any
     * change. Otherwise the returned book is appended and selected, and the dialog closes with
     * its name cleared.
     */
    method CreateClicked(created: Option<Book>)
      modifies this
      ensures !CreateEnabled(old(newBookName)) || created == None ==>
        books == old(books) && selectedBook == old(selectedBook) && bookDialog == old(bookDialog)
        && newBookName == old(newBookName) && stored == old(stored)
      ensures CreateEnabled(old(newBookName)) && created.Some? ==>
        && books == old(books) + [created.value]
        && selectedBook == Some(created.value.id)
        && stored == Persist(Some(created.value.id), old(stored))
        && !bookDialog && newBookName == ""
      ensures renameOpen == old(renameOpen) && renameBook == old(renameBook)
      ensures deleteOpen == old(deleteOpen) && deleteBook == old(deleteBook) && newName == old(newName)
    {
      if !CreateEnabled(newBookName) || created == None {
        return;
      }
      books := books + [created.value];
      Select(Some(created.value.id));
      bookDialog := false;
      newBookName := "";
    }

    /**
     * The Save button of the rename dialog. A disabled button does nothing; with no book in
     * the dialog `renameDialog.book.id` throws, and a put that throws stops; in each case
     * nothing changes. Otherwise the book is renamed in the list and the dialog closes.
     */
    method SaveRenameClicked(requestOk: bool)
      modifies this
      ensures !SaveEnabled(old(newName)) || old(renameBook) == None || !requestOk ==>
        books == old(books) && renameOpen == old(renameOpen) && renameBook == old(renameBook)
      ensures SaveEnabled(old(newName)) && old(renameBook).Some? && requestOk ==>
        books == RenameBook(old(books), old(renameBook).value.id, old(newName)) && !renameOpen && renameBook == None
      ensures selectedBook == old(selectedBook) && stored == old(stored) && newName == old(newName)
      ensures bookDialog == old(bookDialog) && newBookName == old(newBookName)
      ensures deleteOpen == old(deleteOpen) && deleteBook == old(deleteBook)
    {
      if SaveEnabled(newName) && renameBook.Some? && requestOk {
        var renamed := RenameBook(books, renameBook.value.id, newName);
        books := renamed;
        CloseRename();
      }
    }

    /** The rename dialog closes and forgets its book; nothing else changes. */
    method CloseRename()
      modifies this
      ensures !renameOpen && renameBook == None
      ensures books == old(books) && selectedBook == old(selectedBook) && stored == old(stored)
      ensures newName == old(newName) && bookDialog == old(bookDialog) && newBookName == old(newBookName)
      ensures deleteOpen == old(deleteOpen) && deleteBook == old(deleteBook)
    {
      renameOpen := false;
      renameBook := None;
    }

    /**
     * The Delete button. Every failure, a missing book as well as a request that throws, is
     * caught and changes nothing. Otherwise the book leaves the list and the dialog closes;
     * the selection is left as it was.
     */
    method DeleteClicked(requestOk: bool)
      modifies this
      ensures old(deleteBook) == None || !requestOk ==>
        books == old(books) && deleteOpen == old(deleteOpen) && deleteBook == old(deleteBook)
      ensures old(deleteBook).Some? && requestOk ==>
        books == RemoveBook(old(books), old(deleteBook).value.id) && !deleteOpen && deleteBook == None
      ensures selectedBook == old(selectedBook) && stored == old(stored) && newName == old(newName)
      ensures bookDialog == old(bookDialog) && newBookName == old(newBookName)
      ensures renameOpen == old(renameOpen) && renameBook == old(renameBook)
    {
      if deleteBook == None || !requestOk {
        return;
      }
      books := RemoveBook(books, deleteBook.value.id);
      deleteOpen := false;
      deleteBook := None;
    }
  }

  // ---- Properties ----

  /** A selected book survives a reload: what the persist effect stores, the restore effect reads back. */
  lemma PersistThenRestore(id: int, stored: Option<string>)
    requires id != 0
    ensures Restore(Persist(Some(id), stored)) == Some(Some(id))
  {
    Numbers.WholeNumberOfIntText(id);
    assert Numbers.IntText(id) != "" by {
      if id < 0 {
        assert Numbers.IntText(id)[0] == '-';
      }
    }
  }

  /** After a restore, the persist effect writes back the value it read. */
  lemma RestoreThenPersist(id: int)
    requires id != 0
    ensures var r := Restore(Some(Numbers.IntText(id)));
      r == Some(Some(id)) && Persist(r.value, Some(Numbers.IntText(id))) == Some(Numbers.IntText(id))
  {
    PersistThenRestore(id, None);
  }

  /** Book 0 and a cleared selection are never stored. */
  lemma FalsySelectionNotStored(stored: Option<string>)
    ensures Persist(Some(0), stored) == stored && Persist(None, stored) == stored
  {
  }

  /** The Create and Save buttons are enabled exactly when the name has a character that is not white space. */
  lemma EnabledIffVisibleName(name: string)
    ensures CreateEnabled(name) <==> exists k :: 0 <= k < |name| && !Text.IsSpace(name[k])
    ensures SaveEnabled(name) <==> CreateEnabled(name)
  {
    Text.BlankIffAllSpace(name);
  }

  /** Renaming keeps the list's ids and length, so a rename never adds or drops a book. */
  lemma {:induction false} RenameKeepsIds(books: seq<Book>, id: int, newName: string)
    ensures Seqs.Map(RenameBook(books, id, newName), (b: Book) => b.id) == Seqs.Map(books, (b: Book) => b.id)
  {
    var a := Seqs.Map(RenameBook(books, id, newName), (b: Book) => b.id);
    var c := Seqs.Map(books, (b: Book) => b.id);
    assert |a| == |c|;
    forall i | 0 <= i < |a| ensures a[i] == c[i] {
    }
  }

  /** Removing then renaming the removed id finds nothing to rename. */
  lemma {:induction false} RenameAfterRemove(books: seq<Book>, id: int, newName: string)
    ensures RenameBook(RemoveBook(books, id), id, newName) == RemoveBook(books, id)
  {
    var r := RemoveBook(books, id);
    var a := RenameBook(r, id, newName);
    forall i | 0 <= i < |r| ensures a[i] == r[i] {
    }
  }

  /** The books that remain after a delete keep their order in the list. */
  lemma RemoveKeepsOrder(books: seq<Book>, id: int)
    ensures Seqs.IsSubsequence(RemoveBook(books, id), books)
  {
    Seqs.FilterIsSubsequence(books, (b: Book) => b.id != id);
  }

  /** The remaining and the deleted books together are the list, counted with multiplicity. */
  lemma RemoveKeepsCount(books: seq<Book>, id: int)
    ensures multiset(RemoveBook(books, id)) + multiset(Seqs.Filter(books, (b: Book) => b.id == id)) == multiset(books)
  {
    Seqs.FilterSplitsMultiset(books, (b: Book) => b.id != id, (b: Book) => b.id == id);
  }

  /** Removing an id no book has changes nothing. */
  lemma RemoveAbsent(books: seq<Book>, id: int)
    requires forall i :: 0 <= i < |books| ==> books[i].id != id
    ensures RemoveBook(books, id) == books
  {
    Seqs.FilterAll(books, (b: Book) => b.id != id);
  }

  /** A book just created is removed again by deleting its id, and the other books stay in order. */
  lemma RemoveCreated(books: seq<Book>, created: Book)
    requires forall i :: 0 <= i < |books| ==> books[i].id != created.id
    ensures RemoveBook(books + [created], created.id) == books
  {
    Seqs.FilterConcat(books, [created], (b: Book) => b.id != created.id);
    RemoveAbsent(books, created.id);
  }
}
