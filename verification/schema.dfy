/**
 * The relational store of the bootstrap script, as an abstract in-memory state.
 *
 * There is one function per kind of SQL statement the script issues: the
 * `DROP TABLE IF EXISTS`, the three `CREATE TABLE`s, the inserts into
 * `authors`, `books` and `books_authors`, and the select of an author's id.
 * Each returns the new state or the error PostgreSQL would raise; a failing
 * statement changes nothing.  `Valid` collects the integrity constraints of the
 * three table definitions, and each statement is proved to preserve it.
 */
module Schema {
  import opened Results
  import opened Seqs

  /** The three relations of the bootstrap schema. */
  datatype Table = Books | Authors | BooksAuthors

  /** The order in which the table definitions are listed, and so created. */
  const TableOrder: seq<Table> := [Books, Authors, BooksAuthors]

  const AllTables: set<Table> := {Books, Authors, BooksAuthors}

  /** A nullable text value: a JSON string or null in a catalog entry, a text value or NULL in a column. */
  datatype Cell = Null | Text(s: string)

  /** A row of `books`: `book_id serial PRIMARY KEY`, `title text NOT NULL`, nullable `isbn` and `description`. */
  datatype BookRow = BookRow(bookId: nat, title: string, isbn: Cell, description: Cell)

  /** A row of `authors`: `author_id serial PRIMARY KEY`, `name text NOT NULL UNIQUE`. */
  datatype AuthorRow = AuthorRow(authorId: nat, name: string)

  /** A row of `books_authors`: two foreign keys forming the primary key `books_authors_pkey`. */
  datatype LinkRow = LinkRow(bookId: nat, authorId: nat)

  /**
   * The committed database.  `tables` are the relations that exist; the rows
   * of each are kept in insertion order.  `bookSerial` and `authorSerial` are
   * the last values handed out by the sequences behind the two `serial`
   * columns (0 before the first insert).
   */
  datatype Store = Store(
    tables: set<Table>,
    books: seq<BookRow>,
    authors: seq<AuthorRow>,
    links: seq<LinkRow>,
    bookSerial: nat,
    authorSerial: nat)

  /** Every set of tables is within the three relations of the schema. */
  lemma AllTablesComplete(ts: set<Table>)
    ensures ts <= AllTables
  {
    forall t | t in ts ensures t in AllTables {
      match t
      case Books =>
      case Authors =>
      case BooksAuthors =>
    }
  }

  /** The three relations, all empty, with fresh sequences. */
  const Empty: Store := Store(AllTables, [], [], [], 0, 0)

  /** The errors PostgreSQL raises for the statements of the script. */
  datatype StoreError =
    | UndefinedTable(table: Table)
    | DuplicateTable(table: Table)
    | DependentObjects(table: Table)
    | NotNullViolation(column: string)
    | UniqueViolation(constraint: string)
    | ForeignKeyViolation(constraint: string)

  const AuthorsNameKey := "authors_name_key"
  const BooksAuthorsPkey := "books_authors_pkey"
  const BookIdFkey := "books_authors_book_id_fkey"
  const AuthorIdFkey := "books_authors_author_id_fkey"

  predicate HasBookId(rows: seq<BookRow>, id: nat) {
    exists i :: 0 <= i < |rows| && rows[i].bookId == id
  }

  predicate HasAuthorId(rows: seq<AuthorRow>, id: nat) {
    exists i :: 0 <= i < |rows| && rows[i].authorId == id
  }

  predicate HasName(rows: seq<AuthorRow>, name: string) {
    exists i :: 0 <= i < |rows| && rows[i].name == name
  }

  /** Ids handed out by a `serial` column: positive, at most the sequence's last value, increasing in insertion order. */
  predicate SerialBookIds(rows: seq<BookRow>, serial: nat) {
    && (forall i :: 0 <= i < |rows| ==> 1 <= rows[i].bookId <= serial)
    && (forall i, j :: 0 <= i < j < |rows| ==> rows[i].bookId < rows[j].bookId)
  }

  predicate SerialAuthorIds(rows: seq<AuthorRow>, serial: nat) {
    && (forall i :: 0 <= i < |rows| ==> 1 <= rows[i].authorId <= serial)
    && (forall i, j :: 0 <= i < j < |rows| ==> rows[i].authorId < rows[j].authorId)
  }

  /** `name UNIQUE`: no two author rows share a name. */
  predicate UniqueNames(rows: seq<AuthorRow>) {
    forall i, j :: 0 <= i < j < |rows| ==> rows[i].name != rows[j].name
  }

  /** Every link references an existing book and an existing author. */
  predicate LinksReferenceRows(s: Store) {
    forall i :: 0 <= i < |s.links| ==> HasBookId(s.books, s.links[i].bookId) && HasAuthorId(s.authors, s.links[i].authorId)
  }

  /** The constraints of the three table definitions, and what it means for a relation not to exist. */
  predicate Valid(s: Store) {
    && (Books !in s.tables ==> s.books == [])
    && (Authors !in s.tables ==> s.authors == [])
    && (BooksAuthors !in s.tables ==> s.links == [])
    && (BooksAuthors in s.tables ==> Books in s.tables && Authors in s.tables)
    && SerialBookIds(s.books, s.bookSerial)
    && SerialAuthorIds(s.authors, s.authorSerial)
    && UniqueNames(s.authors)
    && NoDuplicates(s.links)
    && LinksReferenceRows(s)
  }

  /**
   * `DROP TABLE IF EXISTS` over the tables `ts`: missing ones are skipped; a
   * table still referenced by a `books_authors` that is not dropped as well
   * cannot go.  A dropped relation loses its rows and its sequence.
   */
  function DropTables(s: Store, ts: set<Table>): (r: Result<Store, StoreError>)
    ensures ts == AllTables ==> r == Ok(Store({}, [], [], [], 0, 0))
    ensures r.Ok? ==> r.value.tables == s.tables - ts
  {
    var kept := BooksAuthors in s.tables && BooksAuthors !in ts;
    if kept && Books in s.tables * ts then Err(DependentObjects(Books))
    else if kept && Authors in s.tables * ts then Err(DependentObjects(Authors))
    else
      AllTablesComplete(s.tables);
      assert ts == AllTables ==> s.tables - ts == {};
      Ok(Store(
      s.tables - ts,
      if Books in ts then [] else s.books,
      if Authors in ts then [] else s.authors,
      if BooksAuthors in ts then [] else s.links,
      if Books in ts then 0 else s.bookSerial,
      if Authors in ts then 0 else s.authorSerial))
  }

  /** `CREATE TABLE t`: refused when `t` exists, or when `books_authors` would reference a missing table. */
  function CreateTable(s: Store, t: Table): (r: Result<Store, StoreError>)
    ensures r.Ok? <==> t !in s.tables && (t == BooksAuthors ==> Books in s.tables && Authors in s.tables)
    ensures r.Ok? ==> r.value.tables == s.tables + {t}
    ensures r.Ok? && t == Books ==> r.value.books == [] && r.value.bookSerial == 0
    ensures r.Ok? && t == Authors ==> r.value.authors == [] && r.value.authorSerial == 0
    ensures r.Ok? && t == BooksAuthors ==> r.value.links == []
    ensures r.Ok? && t != Books ==> r.value.books == s.books && r.value.bookSerial == s.bookSerial
    ensures r.Ok? && t != Authors ==> r.value.authors == s.authors && r.value.authorSerial == s.authorSerial
    ensures r.Ok? && t != BooksAuthors ==> r.value.links == s.links
  {
    if t in s.tables then Err(DuplicateTable(t))
    else if t == BooksAuthors && Books !in s.tables then Err(UndefinedTable(Books))
    else if t == BooksAuthors && Authors !in s.tables then Err(UndefinedTable(Authors))
    else
      var s' := s.(tables := s.tables + {t});
      match t
      case Books => Ok(s'.(books := [], bookSerial := 0))
      case Authors => Ok(s'.(authors := [], authorSerial := 0))
      case BooksAuthors => Ok(s'.(links := []))
  }

  /** `INSERT INTO authors (name) VALUES (name)`: the new row takes the next `author_id`. */
  function InsertAuthor(s: Store, name: string): (r: Result<Store, StoreError>)
  {
    if Authors !in s.tables then Err(UndefinedTable(Authors))
    else if HasName(s.authors, name) then Err(UniqueViolation(AuthorsNameKey))
    else Ok(s.(authors := s.authors + [AuthorRow(s.authorSerial + 1, name)], authorSerial := s.authorSerial + 1))
  }

  /** The author rows a batch of `names` receives when the sequence last handed out `serial`. */
  function AuthorRows(serial: nat, names: seq<string>): seq<AuthorRow> {
    seq(|names|, i requires 0 <= i < |names| => AuthorRow(serial + i + 1, names[i]))
  }

  /**
   * The batched insert of author names: one insert per name, all in one
   * transaction, so a failing row fails the whole batch and none of it is
   * kept.  An empty batch sends no statement at all.
   */
  function InsertAuthors(s: Store, names: seq<string>): (r: Result<Store, StoreError>)
    ensures r.Ok? <==>
      && (|names| == 0 || Authors in s.tables)
      && NoDuplicates(names)
      && (forall i :: 0 <= i < |names| ==> !HasName(s.authors, names[i]))
    ensures r.Ok? ==> r.value == s.(authors := s.authors + AuthorRows(s.authorSerial, names),
                                    authorSerial := s.authorSerial + |names|)
    ensures r.Err? ==> r.error == UniqueViolation(AuthorsNameKey) || r.error == UndefinedTable(Authors)
    decreases |names|
  {
    if |names| == 0 then Ok(s)
    else
      var s' :- InsertAuthor(s, names[0]);
      NoDuplicatesCons(names);
      HasNameSnoc(s.authors, s.authorSerial + 1, names[0]);
      AuthorRowsCons(s.authorSerial, names);
      InsertAuthors(s', names[1..])
  }

  lemma HasNameSnoc(rows: seq<AuthorRow>, id: nat, name: string)
    ensures forall x :: HasName(rows + [AuthorRow(id, name)], x) <==> HasName(rows, x) || x == name
  {
    var t := rows + [AuthorRow(id, name)];
    forall x ensures HasName(t, x) <==> HasName(rows, x) || x == name {
      if HasName(rows, x) {
        var i :| 0 <= i < |rows| && rows[i].name == x;
        assert t[i].name == x;
      }
      if x == name {
        assert t[|rows|].name == x;
      }
    }
  }

  lemma AuthorRowsCons(serial: nat, names: seq<string>)
    requires |names| > 0
    ensures AuthorRows(serial, names) == [AuthorRow(serial + 1, names[0])] + AuthorRows(serial + 1, names[1..])
  {
  }

  /** `INSERT INTO books (title, isbn, description) ... RETURNING book_id`. */
  function InsertBook(s: Store, title: Cell, isbn: Cell, description: Cell): (r: Result<(Store, nat), StoreError>)
    ensures r.Ok? <==> Books in s.tables && title.Text?
    ensures r.Ok? ==> r.value.1 == s.bookSerial + 1
    ensures r.Ok? ==> r.value.0 == s.(books := s.books + [BookRow(r.value.1, title.s, isbn, description)],
                                      bookSerial := r.value.1)
  {
    if Books !in s.tables then Err(UndefinedTable(Books))
    else if title.Null? then Err(NotNullViolation("title"))
    else
      var id := s.bookSerial + 1;
      Ok((s.(books := s.books + [BookRow(id, title.s, isbn, description)], bookSerial := id), id))
  }

  /** The `author_id` of the first row named exactly `name`, if any. */
  function FindAuthor(rows: seq<AuthorRow>, name: string): (r: Option<nat>)
    ensures r.Some? <==> HasName(rows, name)
    ensures r.Some? ==> exists i :: 0 <= i < |rows| && rows[i] == AuthorRow(r.value, name) && !HasName(rows[..i], name)
  {
    if |rows| == 0 then None
    else if rows[0].name == name then Some(rows[0].authorId)
    else
      var r := FindAuthor(rows[1..], name);
      assert HasName(rows, name) ==> HasName(rows[1..], name) by {
        if HasName(rows, name) {
          var i :| 0 <= i < |rows| && rows[i].name == name;
          assert rows[1..][i - 1].name == name;
        }
      }
      assert r.Some? ==> HasName(rows, name) by {
        if r.Some? {
          var i :| 0 <= i < |rows| - 1 && rows[1..][i].name == name;
          assert rows[i + 1].name == name;
        }
      }
      if r.Some? then
        assert exists i :: 0 <= i < |rows| && rows[i] == AuthorRow(r.value, name) && !HasName(rows[..i], name) by {
          var i :| 0 <= i < |rows| - 1 && rows[1..][i] == AuthorRow(r.value, name) && !HasName(rows[1..][..i], name);
          assert rows[..i + 1] == [rows[0]] + rows[1..][..i];
          assert !HasName(rows[..i + 1], name);
          assert rows[i + 1] == AuthorRow(r.value, name);
        }
        r
      else r
  }

  /**
   * `SELECT author_id FROM authors WHERE name LIKE name`, fetching one row,
   * with the pattern read as an exact name.
   */
  function SelectAuthorId(s: Store, name: string): (r: Result<Option<nat>, StoreError>)
  {
    if Authors !in s.tables then Err(UndefinedTable(Authors))
    else Ok(FindAuthor(s.authors, name))
  }

  /**
   * `INSERT INTO books_authors (book_id, author_id)`.  An absent author id is
   * NULL, which the primary key's implied NOT NULL refuses; then the primary
   * key, then the two foreign keys are checked.
   */
  function InsertLink(s: Store, bookId: nat, authorId: Option<nat>): (r: Result<Store, StoreError>)
    ensures r.Ok? <==>
      && BooksAuthors in s.tables
      && authorId.Some?
      && LinkRow(bookId, authorId.value) !in s.links
      && HasBookId(s.books, bookId)
      && HasAuthorId(s.authors, authorId.value)
    ensures r.Ok? ==> r.value == s.(links := s.links + [LinkRow(bookId, authorId.value)])
  {
    if BooksAuthors !in s.tables then Err(UndefinedTable(BooksAuthors))
    else if authorId.None? then Err(NotNullViolation("author_id"))
    else if LinkRow(bookId, authorId.value) in s.links then Err(UniqueViolation(BooksAuthorsPkey))
    else if !HasBookId(s.books, bookId) then Err(ForeignKeyViolation(BookIdFkey))
    else if !HasAuthorId(s.authors, authorId.value) then Err(ForeignKeyViolation(AuthorIdFkey))
    else Ok(s.(links := s.links + [LinkRow(bookId, authorId.value)]))
  }

  // ---------------------------------------------------------------------------
  // Every statement keeps the constraints of the schema.
  // ---------------------------------------------------------------------------

  lemma HasBookIdSnoc(rows: seq<BookRow>, row: BookRow)
    ensures forall id :: HasBookId(rows, id) ==> HasBookId(rows + [row], id)
    ensures HasBookId(rows + [row], row.bookId)
  {
    forall id | HasBookId(rows, id) ensures HasBookId(rows + [row], id) {
      var i :| 0 <= i < |rows| && rows[i].bookId == id;
      assert (rows + [row])[i].bookId == id;
    }
    assert (rows + [row])[|rows|] == row;
  }

  lemma HasAuthorIdSnoc(rows: seq<AuthorRow>, row: AuthorRow)
    ensures forall id :: HasAuthorId(rows, id) ==> HasAuthorId(rows + [row], id)
  {
    forall id | HasAuthorId(rows, id) ensures HasAuthorId(rows + [row], id) {
      var i :| 0 <= i < |rows| && rows[i].authorId == id;
      assert (rows + [row])[i].authorId == id;
    }
  }

  lemma DropTablesPreservesValid(s: Store, ts: set<Table>)
    requires Valid(s)
    ensures DropTables(s, ts).Ok? ==> Valid(DropTables(s, ts).value)
  {
  }

  lemma CreateTablePreservesValid(s: Store, t: Table)
    requires Valid(s)
    ensures CreateTable(s, t).Ok? ==> Valid(CreateTable(s, t).value)
  {
  }

  lemma {:induction false} InsertAuthorPreservesValid(s: Store, name: string)
    requires Valid(s)
    ensures InsertAuthor(s, name).Ok? ==> Valid(InsertAuthor(s, name).value)
  {
    if InsertAuthor(s, name).Ok? {
      var row := AuthorRow(s.authorSerial + 1, name);
      HasAuthorIdSnoc(s.authors, row);
      HasNameSnoc(s.authors, row.authorId, name);
      var t := InsertAuthor(s, name).value;
      assert t.authors == s.authors + [row];
      forall i, j | 0 <= i < j < |t.authors| ensures t.authors[i].name != t.authors[j].name {
        if j == |s.authors| {
          assert t.authors[i] == s.authors[i];
          assert !HasName(s.authors, name);
        }
      }
    }
  }

  lemma {:induction false} InsertAuthorsPreservesValid(s: Store, names: seq<string>)
    requires Valid(s)
    ensures InsertAuthors(s, names).Ok? ==> Valid(InsertAuthors(s, names).value)
    decreases |names|
  {
    if |names| > 0 && InsertAuthor(s, names[0]).Ok? {
      InsertAuthorPreservesValid(s, names[0]);
      InsertAuthorsPreservesValid(InsertAuthor(s, names[0]).value, names[1..]);
    }
  }

  lemma {:induction false} InsertBookPreservesValid(s: Store, title: Cell, isbn: Cell, description: Cell)
    requires Valid(s)
    ensures InsertBook(s, title, isbn, description).Ok? ==> Valid(InsertBook(s, title, isbn, description).value.0)
    ensures InsertBook(s, title, isbn, description).Ok? ==> !HasBookId(s.books, InsertBook(s, title, isbn, description).value.1)
  {
    if InsertBook(s, title, isbn, description).Ok? {
      var id := s.bookSerial + 1;
      HasBookIdSnoc(s.books, BookRow(id, title.s, isbn, description));
    }
  }

  lemma {:induction false} InsertLinkPreservesValid(s: Store, bookId: nat, authorId: Option<nat>)
    requires Valid(s)
    ensures InsertLink(s, bookId, authorId).Ok? ==> Valid(InsertLink(s, bookId, authorId).value)
  {
    if InsertLink(s, bookId, authorId).Ok? {
      var row := LinkRow(bookId, authorId.value);
      NoDuplicatesSnoc(s.links, row);
      var t := InsertLink(s, bookId, authorId).value;
      assert t.links == s.links + [row];
      forall i | 0 <= i < |t.links|
        ensures HasBookId(t.books, t.links[i].bookId) && HasAuthorId(t.authors, t.links[i].authorId)
      {
        if i < |s.links| {
          assert t.links[i] == s.links[i];
        }
      }
    }
  }
}
