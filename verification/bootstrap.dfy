/**
 * The bootstrap run: reset the schema, load the deduplicated authors in one
 * batch, then each work as a book followed by its author links.
 *
 * Every statement goes through `PgExec`, which commits it on success and
 * otherwise ends the run with a `Fatal` outcome carrying the message the
 * script prints, the store error, and the store as last committed.
 */
module Bootstrap {
  import opened Results
  import opened Schema
  import opened Catalog

  /** How a run ends when a statement fails: the printed message, the cause, and what stays committed. */
  datatype Fatal = Fatal(message: string, cause: StoreError, committed: Store)

  const DropError := "Error dropping tables."
  const CreateError := "Error creating tables."
  const AuthorsInsertError := "Error inserting into 'authors'."
  const BooksInsertError := "Error inserting into 'books'."
  const AuthorSelectError := "Error selecting from 'authors'."
  const LinkInsertError := "Error inserting into 'books_authors'."

  /** Stored in place of the isbn of a work whose entry has no `isbn` key. */
  const IsbnSentinel: Cell := Text("0")

  /**
   * One statement through the query wrapper: on success its result is
   * committed and returned; on an error the run stops, and the store keeps
   * what `committed`, the state before the statement, holds.
   */
  function PgExec<T>(committed: Store, r: Result<T, StoreError>, message: string): Result<T, Fatal> {
    match r
    case Ok(v) => Ok(v)
    case Err(e) => Err(Fatal(message, e, committed))
  }

  /** The isbn value inserted for a work. */
  function StoredIsbn(w: Work): Cell {
    match w.isbn
    case Some(isbn) => isbn
    case None => IsbnSentinel
  }

  /** The `CREATE TABLE` statements for `ts`, in order, each committed on its own. */
  function CreateEach(s: Store, ts: seq<Table>): Result<Store, Fatal>
    decreases |ts|
  {
    if |ts| == 0 then Ok(s)
    else
      var s' :- PgExec(s, CreateTable(s, ts[0]), CreateError);
      CreateEach(s', ts[1..])
  }

  /** Drop the three tables and create them again, whatever the store held. */
  function CreateTables(s: Store): (r: Result<Store, Fatal>)
    ensures r == Ok(Empty)
  {
    match PgExec(s, DropTables(s, AllTables), DropError)
    case Err(f) => Err(f)
    case Ok(dropped) =>
      assert CreateEach(dropped, TableOrder) == Ok(Empty) by {
        var withBooks := Store({Books}, [], [], [], 0, 0);
        var withAuthors := Store({Books, Authors}, [], [], [], 0, 0);
        assert {Books, Authors} + {BooksAuthors} == AllTables;
        assert CreateTable(withAuthors, BooksAuthors) == Ok(Empty);
        assert {Books} + {Authors} == {Books, Authors};
        assert CreateTable(withBooks, Authors) == Ok(withAuthors);
        assert dropped.tables + {Books} == {Books};
        assert CreateTable(dropped, Books) == Ok(withBooks);
        assert [BooksAuthors][1..] == [];
        assert CreateEach(Empty, []) == Ok(Empty);
        assert CreateEach(withAuthors, [BooksAuthors]) == Ok(Empty);
        assert [Authors, BooksAuthors][1..] == [BooksAuthors];
        assert CreateEach(withBooks, [Authors, BooksAuthors]) == Ok(Empty);
        assert TableOrder[1..] == [Authors, BooksAuthors];
      }
      CreateEach(dropped, TableOrder)
  }

  /** Insert the normalised authors of the works as one batch. */
  function DumpAuthors(s: Store, works: seq<Work>): Result<Store, Fatal> {
    PgExec(s, InsertAuthors(s, Normalize(works)), AuthorsInsertError)
  }

  /** Look up an author's id by name and link it to the book. */
  function LinkAuthor(s: Store, bookId: nat, name: string): Result<Store, Fatal> {
    var authorId :- PgExec(s, SelectAuthorId(s, name), AuthorSelectError);
    PgExec(s, InsertLink(s, bookId, authorId), LinkInsertError)
  }

  /** Link the book to each of `names`, in order, stopping at the first failure. */
  function LinkAuthors(s: Store, bookId: nat, names: seq<string>): Result<Store, Fatal>
    decreases |names|
  {
    if |names| == 0 then Ok(s)
    else
      var s' :- LinkAuthors(s, bookId, names[..|names| - 1]);
      LinkAuthor(s', bookId, names[|names| - 1])
  }

  /** Insert one work as a book, then link it to its authors. */
  function DumpWork(s: Store, w: Work): Result<Store, Fatal> {
    var inserted :- PgExec(s, InsertBook(s, w.title, StoredIsbn(w), w.description), BooksInsertError);
    LinkAuthors(inserted.0, inserted.1, w.authors)
  }

  /** Load the works one after another, stopping at the first failure. */
  function DumpBooks(s: Store, works: seq<Work>): Result<Store, Fatal>
    decreases |works|
  {
    if |works| == 0 then Ok(s)
    else
      var s' :- DumpBooks(s, works[..|works| - 1]);
      DumpWork(s', works[|works| - 1])
  }

  /** The whole run on the fetched works: reset, authors, then books and links. */
  function Run(s: Store, works: seq<Work>): Result<Store, Fatal> {
    var reset :- CreateTables(s);
    var withAuthors :- DumpAuthors(reset, works);
    DumpBooks(withAuthors, works)
  }
}
