# Bootstrap loader model

A Dafny model of the core of `app/bootstrap.py`, the script that fills a
PostgreSQL database with the works of an O'Reilly catalog search. The model
covers four parts of the script:

- the author normaliser, which builds one list of distinct author names in
  first-seen order (`dump_authors`);
- the schema reset and the constraints of the three tables `books`,
  `authors` and `books_authors` (`DB_TABLES`, `create_tables`);
- the relational loader: one batch insert of the authors, then for each work
  a book insert, and for each of its authors a lookup by name followed by a
  link insert (`dump_authors`, `dump_books`);
- the fail-fast policy of the query wrapper `pg_exec`. A statement that
  succeeds is committed. The first statement that fails ends the run, and
  everything committed before it stays.

The database is an abstract store (`Schema.Store`). It holds the set of
existing tables, the rows of each table in insertion order, and the last
values handed out by the two `serial` sequences. Each SQL statement the
script issues is a function from a store to the new store or to the error
PostgreSQL raises. The run is `Bootstrap.Run`. It takes the catalog entries
as a `seq<Work>` and returns either the final store or a `Fatal` outcome.
A `Fatal` outcome carries the message the script prints, the store error
and the store as last committed.

Modules, in dependency order:

- `Results`: `Option` and `Result`.
- `Seqs`: `NoDuplicates` and `IndexOf`.
- `Schema`: the store, one function per statement, and the `Valid`
  integrity predicate with its preservation lemmas.
- `Catalog`: the `Work` entries and the author normaliser.
- `Bootstrap`: `pg_exec` and the run.
- `LoaderProofs`: the final state of a successful run and the theorem that
  characterises it.
- `FailFast`: what stays committed when the run stops.
- `Scenarios`: small concrete runs.

The central result is `LoaderProofs.RunOutcome`:

- the run succeeds exactly when every work has a non-null title and no
  repeated author (for the text values the database accepts: see the
  U+0000, `isbn` and `LIKE` lines under "## Left out");
- the store it then leaves is `Loaded(Normalize(works), works)`. This is a
  closed-form description of the tables: the books with ids `1..N`, the
  normalised authors with ids `1..M`, and one link per author mention.

Two behaviours of the script are worth stating:

- A looked-up author name with no row is not skipped. `fetchone()` gives
  `None`, the link is inserted with a NULL `author_id`, and the NOT NULL
  implied by the composite primary key makes that fatal
  (`FailFast.UnknownAuthorIsFatal`).
- Loading N works gives N book rows and one link per author mention only
  when each work has a title and lists each author once. A repeated author
  within one work violates `books_authors_pkey` and ends the run
  (`FailFast.DuplicateAuthorAborts`). A JSON-null title violates
  `title NOT NULL` (`FailFast.UntitledWorkAborts`).

## Model

| member | source | states |
|---|---|---|
| Catalog.Dedup | app/bootstrap.py:163-169 | the deduplicated list has no repeats, holds exactly the names of its input, and is no longer than it |
| Catalog.MentionsComplete | app/bootstrap.py:166-167 | a name is among the scanned mentions exactly when some work lists it |
| Catalog.DedupFirstSeenOrder | app/bootstrap.py:163-169 | kept names appear in the order of their first occurrence in the input |
| Catalog.AppendNew | app/bootstrap.py:167-169 | scanning one work's author list and appending each name not yet collected extends the deduplication by that list |
| Catalog.CollectAuthors | app/bootstrap.py:163-169 | the script's nested loop, appending each name not yet collected, computes the normalised list |
| Catalog.NormalizeSpec | app/bootstrap.py:163-169 | the author list has no repeats, holds exactly the names some work lists, is at most as long as the number of mentions, and is in first-seen order across and within works |
| Catalog.ExactNameEquality | app/bootstrap.py:168 | names that differ only in case or trailing space are kept as distinct authors |
| Schema.DropTables | app/bootstrap.py:77 | dropping all three tables succeeds from any store and leaves no table, rows or sequence; dropping leaves exactly the tables not named |
| Schema.CreateTable | app/bootstrap.py:80-85 | a create succeeds exactly when the table is absent and, for `books_authors`, both referenced tables exist; the new relation is empty with a fresh sequence, and the other relations, their rows and sequences are unchanged |
| Schema.InsertAuthors | app/bootstrap.py:171-183 | the batch succeeds exactly when it is empty or the table exists, has no repeated name and no name already stored; on success the rows get consecutive new ids in batch order; otherwise the error is the `name` UNIQUE violation or the missing table |
| Schema.InsertBook | app/bootstrap.py:228-234 | the insert succeeds exactly when `books` exists and the title is not null; the returned `book_id` is the next serial value and the row holds the given title, isbn and description |
| Schema.FindAuthor | app/bootstrap.py:243-249 | an author id is found exactly when some row has the name, and it is the id of the first such row |
| Schema.InsertLink | app/bootstrap.py:253-258 | a link insert succeeds exactly when the table exists, the author id is not NULL, the pair is new and both referenced rows exist; on success only the link is appended |
| Schema.DropTablesPreservesValid | app/bootstrap.py:77 | dropping tables keeps every schema constraint |
| Schema.CreateTablePreservesValid | app/bootstrap.py:38-54 | creating a table keeps every schema constraint |
| Schema.InsertAuthorPreservesValid | app/bootstrap.py:45-48 | an author insert keeps the serial ids and `name` UNIQUE |
| Schema.InsertAuthorsPreservesValid | app/bootstrap.py:171-183 | the author batch keeps every schema constraint |
| Schema.InsertBookPreservesValid | app/bootstrap.py:39-44 | a book insert keeps every constraint, and the new `book_id` was not already in use |
| Schema.InsertLinkPreservesValid | app/bootstrap.py:49-53 | a link insert keeps the composite primary key and the two foreign keys |
| Bootstrap.CreateTables | app/bootstrap.py:74-85 | the reset succeeds from any store and leaves the three tables existing and empty, with fresh sequences |
| Scenarios.ResetIdempotent | app/bootstrap.py:74-85 | resetting a reset store gives the same result; the three relations exist and are empty |
| LoaderProofs.FindAuthorInBatch | app/bootstrap.py:243-249 | after the author batch, a name is found exactly when it was in the batch, and its id is its 1-based position there |
| LoaderProofs.LinkAuthorsOutcome | app/bootstrap.py:238-258 | linking a book to its authors succeeds exactly when the list has no repeats and appends one link per author; otherwise it fails with the `books_authors` message and the primary key violation, keeping the books, the authors and the links present before the work |
| LoaderProofs.DumpWorkOutcome | app/bootstrap.py:219-258 | loading one more work succeeds exactly when it has a title and no repeated author; a null title fails at the book insert with the earlier works committed; a repeated author fails at a link with the book row committed |
| LoaderProofs.DumpBooksOutcome | app/bootstrap.py:219-258 | the book phase over the loaded authors succeeds exactly when every work is loadable, and then yields the closed-form final store |
| LoaderProofs.DumpAuthorsAfterReset | app/bootstrap.py:171-183 | the author batch into freshly reset tables never violates `name` UNIQUE and stores exactly the normalised names with ids 1 to M |
| LoaderProofs.RunOutcome | app/bootstrap.py:266-270 | the run succeeds exactly when every work is loadable, and then leaves the normalised authors, one book per work and one link per mention |
| LoaderProofs.RunBookRows | app/bootstrap.py:219-234 | N works give exactly N book rows with ids 1 to N in order, each with its work's title and description; a work without an `isbn` key stores "0", otherwise its isbn unchanged |
| LoaderProofs.RunAuthorRows | app/bootstrap.py:171-183 | the authors table holds exactly the normalised names, the i-th with id i + 1 |
| LoaderProofs.RunLinkRows | app/bootstrap.py:238-258 | there are as many links as author mentions, and a pair is linked exactly when it names an existing book and an existing author listed by that book's work |
| LoaderProofs.RunLookup | app/bootstrap.py:243-249 | after a run, looking up a name finds an id exactly when some work lists the name, and that id belongs to the row with that name |
| FailFast.LinkAuthorsCommits | app/bootstrap.py:143-157 | linking authors keeps every committed row and the constraints, whether it succeeds or fails |
| FailFast.DumpBooksCommits | app/bootstrap.py:143-157 | loading works keeps every committed row and the constraints, on success and on failure |
| FailFast.DumpBooksStopsAtError | app/bootstrap.py:143-148 | once loading has failed, further works change neither the outcome nor the committed store |
| FailFast.RunAfterAuthors | app/bootstrap.py:266-270 | the reset and the author batch of a run cannot fail, and the book phase starts from the loaded authors |
| FailFast.RunKeepsConstraints | app/bootstrap.py:143-157 | every run ends in a store that meets all constraints; on failure, the reset and the author batch stay committed |
| FailFast.DuplicateAuthorAborts | app/bootstrap.py:253-258 | a work that lists an author twice ends the run at a link insert with the primary key violation; everything the earlier works loaded (books, authors, links) stays committed, as does the failing work's book row, and later works are not loaded |
| FailFast.UntitledWorkAborts | app/bootstrap.py:228-234 | a work with a null title ends the run at its book insert; exactly the works before it stay loaded |
| FailFast.UnknownAuthorIsFatal | app/bootstrap.py:243-258 | a name with no author row leads to a NULL `author_id` insert that ends the run with nothing new committed |
| Scenarios.SingleWork | app/bootstrap.py:266-270 | the "Fluent Python" work alone yields one book, one author "Luciano Ramalho" and one link between them |
| Scenarios.SharedAuthor | app/bootstrap.py:266-270 | any two titled works each listing only "Jane Doe" yield one author row and two links to it, one per work; the first, lacking an `isbn` key, stores "0" |
| Scenarios.CaseSensitiveLookup | app/bootstrap.py:207 | after loading a work by "Jane Doe", looking up "Jane Doe" gives id 1 and "jane doe" gives nothing |

## Left out

- `query_api`: the HTTP request, charset decoding and JSON parsing are network I/O. The run takes the `results` entries as its `works` parameter.
- `db_connect` and the credentials read from the environment: connection plumbing.
- Logging, the `DEBUG` switch and `sys.exit`: termination is the `Fatal` outcome of `Run`.
- psycopg2 specifics are not modelled: SQL text composition, cursor handling and the page size of `execute_batch`. A batch is all-or-nothing, because it is committed once.
- Schema.SelectAuthorId: `LIKE` is read as an exact name match. In PostgreSQL the name is a pattern: `%` and `_` match other characters, and backslash is the escape character. A name containing a backslash usually does not match itself (`a\b` matches `ab`, not `a\b`). Its lookup then finds no row, and the run ends at the NULL `author_id`. Or it finds the row of another name the pattern matches, and the book is linked to the wrong author, or the link hits `books_authors_pkey` when the work also lists that author. A name ending in a backslash is an invalid pattern, and the select itself fails with "Error selecting from 'authors'.". The model promises neither.
- Schema.InsertBook: the `bigint` coercion of `isbn` is not modelled. The isbn is an opaque value, stored as given. In PostgreSQL an isbn that is not an integer literal makes the `books` insert fail and ends the run, so `LoaderProofs.RunOutcome`'s "succeeds exactly when" holds only for isbns the column accepts.
- Catalog.Work: an entry missing `title`, `description` or `authors`, or whose `authors` is not a list of strings, is not modelled, because every `Work` has those fields and its `authors` is a `seq<string>`. In the script, a missing key raises `KeyError`, and `"authors": null` raises `TypeError` at the scan of line 167, after the reset has run. A JSON string as `authors` is scanned one character at a time. Author names are `string`, not nullable: a JSON null inside an `authors` array would make the author batch violate `name NOT NULL`. So `FailFast.RunAfterAuthors`' "the author batch cannot fail" holds only for entries whose author names are all strings.
- Schema.InsertAuthors: a name containing the character U+0000 is accepted by the model. The script cannot store one: psycopg2 refuses to quote such a string and PostgreSQL `text` cannot hold it. The exception is caught at line 143, so the author batch fails with "Error inserting into 'authors'." right after the reset. `LoaderProofs.DumpAuthorsAfterReset`, `FailFast.RunAfterAuthors` and `LoaderProofs.RunOutcome` hold only for author names without U+0000.
- Schema.InsertBook: a title, isbn or description containing U+0000 is accepted by the model. The script's book insert would fail with "Error inserting into 'books'.". The "succeeds exactly when" of `Schema.InsertBook`, `LoaderProofs.DumpWorkOutcome` and `LoaderProofs.RunOutcome` holds only for text values without U+0000.
- Schema.InsertBook: a failed insert does not advance the `serial` sequence in the model, though PostgreSQL's does. The run ends at that failure, so no later id is affected.
- Connection loss and other server failures are not modelled at all. Every statement's outcome depends only on the store, so no statement can fail because the server is lost. `FailFast.DumpBooksStopsAtError` and the other fail-fast lemmas cover only the failures the model can produce: the constraint violations and missing tables of `Schema`.
- Schema.FindAuthor: it scans rows in insertion order and returns the first match. `SELECT` without `ORDER BY` returns rows in an unspecified order, and `fetchone()` takes whichever comes first. Under exact matching this cannot matter, because `name` UNIQUE allows at most one matching row. Under PostgreSQL's `LIKE`, a name containing `%` or `_` can match several distinct names, and then any of their ids may be linked.
- Closing the cursor and the connection on error is not modelled; neither changes the committed data.
