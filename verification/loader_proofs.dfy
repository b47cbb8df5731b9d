/**
 * What a bootstrap run leaves in the store.
 *
 * `Loaded(names, works)` is a reference description of the store after the
 * authors `names` and then `works` have been loaded, written independently of
 * the statement-by-statement functions of `Bootstrap`.  `RunOutcome` proves
 * that a run succeeds exactly when every work has a title and lists no author
 * twice, and that it then ends in `Loaded(Normalize(works), works)`; the
 * lemmas after it read the row counts, the sentinel isbn and the links off
 * that description, and pin down how and where a failing run stops.
 */
module LoaderProofs {
  import opened Results
  import opened Seqs
  import opened Schema
  import opened Catalog
  import opened Bootstrap

  /** A work the loader accepts: it has a title and lists no author twice. */
  predicate Loadable(w: Work) {
    w.title.Text? && NoDuplicates(w.authors)
  }

  predicate AllLoadable(works: seq<Work>) {
    forall k :: 0 <= k < |works| ==> Loadable(works[k])
  }

  /** Every author some work mentions is among `names`. */
  predicate Covers(names: seq<string>, works: seq<Work>) {
    forall a :: a in Mentions(works) ==> a in names
  }

  /** The `author_id` the batch insert gives `name`: one more than its position in the batch. */
  function AuthorId(names: seq<string>, name: string): nat {
    if name in names then IndexOf(names, name) + 1 else 0
  }

  /** The book rows of `works`, the k-th with id k + 1 (titles are read as given; a null title never gets this far). */
  function ExpectedBooks(works: seq<Work>): seq<BookRow> {
    seq(|works|, i requires 0 <= i < |works| =>
      BookRow(i + 1, if works[i].title.Text? then works[i].title.s else "", StoredIsbn(works[i]), works[i].description))
  }

  /** One link from `bookId` to each of `authors`. */
  function LinksFor(names: seq<string>, bookId: nat, authors: seq<string>): seq<LinkRow> {
    seq(|authors|, j requires 0 <= j < |authors| => LinkRow(bookId, AuthorId(names, authors[j])))
  }

  /** The links of `works`: those of the k-th work carry book id k + 1. */
  function ExpectedLinks(names: seq<string>, works: seq<Work>): seq<LinkRow> {
    if |works| == 0 then []
    else ExpectedLinks(names, works[..|works| - 1]) + LinksFor(names, |works|, works[|works| - 1].authors)
  }

  /** The store after loading the author batch `names` and then `works` into empty tables. */
  function Loaded(names: seq<string>, works: seq<Work>): Store {
    Store(AllTables, ExpectedBooks(works), AuthorRows(0, names), ExpectedLinks(names, works), |works|, |names|)
  }

  // ---------------------------------------------------------------------------
  // Looking authors up and linking them.
  // ---------------------------------------------------------------------------

  /** In the rows of a batch without repeats, a name is found exactly when it was in the batch, with its batch id. */
  lemma FindAuthorInBatch(names: seq<string>, name: string)
    requires NoDuplicates(names)
    ensures FindAuthor(AuthorRows(0, names), name) == if name in names then Some(AuthorId(names, name)) else None
  {
    var rows := AuthorRows(0, names);
    assert HasName(rows, name) <==> name in names by {
      if name in names {
        assert rows[IndexOf(names, name)].name == name;
      }
    }
    if name in names {
      var i :| 0 <= i < |rows| && rows[i] == AuthorRow(FindAuthor(rows, name).value, name) && !HasName(rows[..i], name);
      IndexOfNoDuplicates(names, i);
    }
  }

  /** Distinct names of a batch get distinct ids. */
  lemma AuthorIdInjective(names: seq<string>, a: string, b: string)
    requires a in names && b in names
    requires AuthorId(names, a) == AuthorId(names, b)
    ensures a == b
  {
  }

  /** The state `LinkAuthors` expects: authors loaded from the batch `names`, book `bookId` present and not yet linked. */
  predicate ReadyToLink(s: Store, names: seq<string>, bookId: nat) {
    && BooksAuthors in s.tables
    && Authors in s.tables
    && NoDuplicates(names)
    && s.authors == AuthorRows(0, names)
    && HasBookId(s.books, bookId)
    && (forall i :: 0 <= i < |s.links| ==> s.links[i].bookId != bookId)
  }

  /** Once the first authors of a work are linked, the link to one more is present exactly when it is among them. */
  lemma LinkPresent(s: Store, names: seq<string>, bookId: nat, done: seq<string>, a: string)
    requires ReadyToLink(s, names, bookId)
    requires a in names && forall x :: x in done ==> x in names
    ensures LinkRow(bookId, AuthorId(names, a)) in s.links + LinksFor(names, bookId, done) <==> a in done
  {
    var row := LinkRow(bookId, AuthorId(names, a));
    var links := LinksFor(names, bookId, done);
    if row in links {
      var j :| 0 <= j < |links| && links[j] == row;
      AuthorIdInjective(names, a, done[j]);
    }
    if a in done {
      var j := IndexOf(done, a);
      assert links[j] == row;
      assert (s.links + links)[|s.links| + j] == row;
    }
  }

  /** One more author: its link is refused by the primary key when it is already linked, and appended otherwise. */
  lemma LinkAuthorStep(s: Store, bookId: nat, names: seq<string>, done: seq<string>, a: string)
    requires ReadyToLink(s, names, bookId)
    requires a in names && forall x :: x in done ==> x in names
    ensures var s1 := s.(links := s.links + LinksFor(names, bookId, done));
      LinkAuthor(s1, bookId, a) ==
        if a in done then Err(Fatal(LinkInsertError, UniqueViolation(BooksAuthorsPkey), s1))
        else Ok(s.(links := s.links + LinksFor(names, bookId, done + [a])))
  {
    var s1 := s.(links := s.links + LinksFor(names, bookId, done));
    var id := AuthorId(names, a);
    FindAuthorInBatch(names, a);
    LinkPresent(s, names, bookId, done, a);
    assert SelectAuthorId(s1, a) == Ok(Some(id));
    assert HasAuthorId(s1.authors, id) by {
      assert s1.authors[IndexOf(names, a)].authorId == id;
    }
    if a !in done {
      assert LinksFor(names, bookId, done + [a]) == LinksFor(names, bookId, done) + [LinkRow(bookId, id)];
      assert s1.links + [LinkRow(bookId, id)] == s.links + LinksFor(names, bookId, done + [a]);
    }
  }

  /**
   * Linking the authors of one work: it succeeds exactly when the work lists
   * no author twice, and then adds one link per author; otherwise the second
   * mention of an author hits the primary key of `books_authors`, and the
   * links made before it stay committed.
   */
  lemma {:induction false} LinkAuthorsOutcome(s: Store, bookId: nat, names: seq<string>, authors: seq<string>)
    requires ReadyToLink(s, names, bookId)
    requires forall a :: a in authors ==> a in names
    ensures LinkAuthors(s, bookId, authors).Ok? <==> NoDuplicates(authors)
    ensures LinkAuthors(s, bookId, authors).Ok? ==>
      LinkAuthors(s, bookId, authors).value == s.(links := s.links + LinksFor(names, bookId, authors))
    ensures LinkAuthors(s, bookId, authors).Err? ==>
      && LinkAuthors(s, bookId, authors).error.message == LinkInsertError
      && LinkAuthors(s, bookId, authors).error.cause == UniqueViolation(BooksAuthorsPkey)
      && LinkAuthors(s, bookId, authors).error.committed.books == s.books
      && LinkAuthors(s, bookId, authors).error.committed.authors == s.authors
      && s.links <= LinkAuthors(s, bookId, authors).error.committed.links
    decreases |authors|
  {
    if |authors| == 0 {
      assert LinksFor(names, bookId, authors) == [];
      assert s.links + [] == s.links;
    } else {
      var done := authors[..|authors| - 1];
      var a := authors[|authors| - 1];
      assert authors == done + [a];
      assert forall x :: x in done ==> x in authors;
      LinkAuthorsOutcome(s, bookId, names, done);
      NoDuplicatesSnoc(done, a);
      var r := LinkAuthors(s, bookId, done);
      if r.Ok? {
        assert LinkAuthors(s, bookId, authors) == LinkAuthor(r.value, bookId, a);
        LinkAuthorStep(s, bookId, names, done, a);
      } else {
        assert LinkAuthors(s, bookId, authors) == r;
      }
    }
  }

  // ---------------------------------------------------------------------------
  // Loading books, and the whole run.
  // ---------------------------------------------------------------------------

  lemma MentionsSnoc(works: seq<Work>, w: Work)
    ensures Mentions(works + [w]) == Mentions(works) + w.authors
  {
    assert (works + [w])[..|works|] == works;
  }

  lemma ExpectedLinksBookIds(names: seq<string>, works: seq<Work>)
    ensures forall i :: 0 <= i < |ExpectedLinks(names, works)| ==> 1 <= ExpectedLinks(names, works)[i].bookId <= |works|
  {
    if |works| > 0 {
      ExpectedLinksBookIds(names, works[..|works| - 1]);
    }
  }

  /**
   * Loading one more work after `works`: a null title is refused by `books`
   * and nothing of the work is kept; otherwise the book row is committed and
   * the work's links follow, which fail exactly when it lists an author twice.
   */
  lemma DumpWorkOutcome(names: seq<string>, works: seq<Work>, w: Work)
    requires NoDuplicates(names)
    requires forall a :: a in w.authors ==> a in names
    ensures DumpWork(Loaded(names, works), w).Ok? <==> Loadable(w)
    ensures DumpWork(Loaded(names, works), w).Ok? ==> DumpWork(Loaded(names, works), w).value == Loaded(names, works + [w])
    ensures w.title.Null? ==>
      DumpWork(Loaded(names, works), w) == Err(Fatal(BooksInsertError, NotNullViolation("title"), Loaded(names, works)))
    ensures w.title.Text? && DumpWork(Loaded(names, works), w).Err? ==>
      && DumpWork(Loaded(names, works), w).error.message == LinkInsertError
      && DumpWork(Loaded(names, works), w).error.cause == UniqueViolation(BooksAuthorsPkey)
      && DumpWork(Loaded(names, works), w).error.committed.books == ExpectedBooks(works + [w])
      && DumpWork(Loaded(names, works), w).error.committed.authors == AuthorRows(0, names)
  {
    var l := Loaded(names, works);
    if w.title.Text? {
      var id := |works| + 1;
      var row := BookRow(id, w.title.s, StoredIsbn(w), w.description);
      var s1 := l.(books := l.books + [row], bookSerial := id);
      assert InsertBook(l, w.title, StoredIsbn(w), w.description) == Ok((s1, id));
      assert s1.books == ExpectedBooks(works + [w]);
      assert HasBookId(s1.books, id) by {
        assert s1.books[|works|].bookId == id;
      }
      ExpectedLinksBookIds(names, works);
      LinkAuthorsOutcome(s1, id, names, w.authors);
      assert DumpWork(l, w) == LinkAuthors(s1, id, w.authors);
      assert (works + [w])[..|works|] == works;
      assert ExpectedLinks(names, works + [w]) == l.links + LinksFor(names, id, w.authors);
    }
  }

  lemma AllLoadableSnoc(works: seq<Work>, w: Work)
    ensures AllLoadable(works + [w]) <==> AllLoadable(works) && Loadable(w)
  {
    assert forall k :: 0 <= k < |works| ==> (works + [w])[k] == works[k];
    assert (works + [w])[|works|] == w;
  }

  /**
   * Loading the works after the author batch `names`: it succeeds exactly
   * when every work is loadable, and then ends in `Loaded(names, works)`.
   */
  lemma {:induction false} DumpBooksOutcome(names: seq<string>, works: seq<Work>)
    requires NoDuplicates(names)
    requires Covers(names, works)
    ensures DumpBooks(Loaded(names, []), works).Ok? <==> AllLoadable(works)
    ensures AllLoadable(works) ==> DumpBooks(Loaded(names, []), works) == Ok(Loaded(names, works))
    decreases |works|
  {
    if |works| > 0 {
      var front := works[..|works| - 1];
      var w := works[|works| - 1];
      assert works == front + [w];
      MentionsSnoc(front, w);
      DumpBooksOutcome(names, front);
      AllLoadableSnoc(front, w);
      var r := DumpBooks(Loaded(names, []), front);
      if r.Ok? {
        DumpWorkOutcome(names, front, w);
        assert DumpBooks(Loaded(names, []), works) == DumpWork(r.value, w);
      } else {
        assert DumpBooks(Loaded(names, []), works) == r;
      }
    }
  }

  /** After the reset, the author batch always goes in: the normalised names never clash. */
  lemma DumpAuthorsAfterReset(works: seq<Work>)
    ensures DumpAuthors(Empty, works) == Ok(Loaded(Normalize(works), []))
  {
    var names := Normalize(works);
    assert [] + AuthorRows(0, names) == AuthorRows(0, names);
    assert ExpectedBooks([]) == [];
    assert InsertAuthors(Empty, names) == Ok(Empty.(authors := AuthorRows(0, names), authorSerial := |names|));
  }

  /**
   * A run, from any prior store, succeeds exactly when every work has a title
   * and lists no author twice, and then leaves exactly `Loaded(Normalize(works), works)`.
   */
  lemma RunOutcome(s: Store, works: seq<Work>)
    ensures Run(s, works).Ok? <==> AllLoadable(works)
    ensures AllLoadable(works) ==> Run(s, works) == Ok(Loaded(Normalize(works), works))
  {
    DumpAuthorsAfterReset(works);
    DumpBooksOutcome(Normalize(works), works);
  }

  // ---------------------------------------------------------------------------
  // What a successful run leaves: books, authors, links.
  // ---------------------------------------------------------------------------

  /**
   * One book row per work, in order, with ids 1, 2, ...; the title and
   * description as given, and the isbn as given or the sentinel "0" when the
   * entry has none.
   */
  lemma RunBookRows(s: Store, works: seq<Work>)
    requires AllLoadable(works)
    ensures Run(s, works).Ok?
    ensures |Run(s, works).value.books| == |works|
    ensures forall i :: 0 <= i < |works| ==>
      && Run(s, works).value.books[i].bookId == i + 1
      && Run(s, works).value.books[i].title == works[i].title.s
      && Run(s, works).value.books[i].description == works[i].description
      && (works[i].isbn.None? ==> Run(s, works).value.books[i].isbn == Text("0"))
      && (works[i].isbn.Some? ==> Run(s, works).value.books[i].isbn == works[i].isbn.value)
  {
    RunOutcome(s, works);
  }

  /** One author row per distinct name, in first-seen order, the i-th with id i + 1. */
  lemma RunAuthorRows(s: Store, works: seq<Work>)
    requires AllLoadable(works)
    ensures Run(s, works).Ok?
    ensures |Run(s, works).value.authors| == |Normalize(works)|
    ensures forall i :: 0 <= i < |Normalize(works)| ==>
      Run(s, works).value.authors[i] == AuthorRow(i + 1, Normalize(works)[i])
  {
    RunOutcome(s, works);
  }

  lemma {:induction false} ExpectedLinksCount(names: seq<string>, works: seq<Work>)
    ensures |ExpectedLinks(names, works)| == |Mentions(works)|
    decreases |works|
  {
    if |works| > 0 {
      ExpectedLinksCount(names, works[..|works| - 1]);
    }
  }

  lemma LinksForMembership(names: seq<string>, bookId: nat, authors: seq<string>, b: nat, a: nat)
    requires NoDuplicates(names)
    requires forall x :: x in authors ==> x in names
    ensures LinkRow(b, a) in LinksFor(names, bookId, authors) <==>
      b == bookId && 1 <= a <= |names| && names[a - 1] in authors
  {
    var links := LinksFor(names, bookId, authors);
    if b == bookId && 1 <= a <= |names| && names[a - 1] in authors {
      var j := IndexOf(authors, names[a - 1]);
      IndexOfNoDuplicates(names, a - 1);
      assert links[j] == LinkRow(b, a);
    }
  }

  lemma {:induction false} ExpectedLinksMembership(names: seq<string>, works: seq<Work>, b: nat, a: nat)
    requires NoDuplicates(names)
    requires Covers(names, works)
    ensures LinkRow(b, a) in ExpectedLinks(names, works) <==>
      1 <= b <= |works| && 1 <= a <= |names| && names[a - 1] in works[b - 1].authors
    decreases |works|
  {
    if |works| > 0 {
      var front := works[..|works| - 1];
      var w := works[|works| - 1];
      assert works == front + [w];
      MentionsSnoc(front, w);
      ExpectedLinksMembership(names, front, b, a);
      LinksForMembership(names, |works|, w.authors, b, a);
      if 1 <= b < |works| {
        assert works[b - 1] == front[b - 1];
      }
    }
  }

  /**
   * One link per author mention, and a link (b, a) exists exactly when the
   * b-th work lists the name of the author row with id a: every link points
   * at the work's book and at the author row carrying that name.
   */
  lemma RunLinkRows(s: Store, works: seq<Work>)
    requires AllLoadable(works)
    ensures Run(s, works).Ok?
    ensures |Run(s, works).value.links| == |Mentions(works)|
    ensures forall b: nat, a: nat :: LinkRow(b, a) in Run(s, works).value.links <==>
      && 1 <= b <= |works|
      && 1 <= a <= |Run(s, works).value.authors|
      && Run(s, works).value.authors[a - 1].name in works[b - 1].authors
  {
    RunOutcome(s, works);
    var names := Normalize(works);
    ExpectedLinksCount(names, works);
    forall b: nat, a: nat ensures LinkRow(b, a) in ExpectedLinks(names, works) <==>
      1 <= b <= |works| && 1 <= a <= |names| && names[a - 1] in works[b - 1].authors
    {
      ExpectedLinksMembership(names, works, b, a);
    }
  }

  /** Looking a name up after a run finds the row of that name exactly when some work lists it. */
  lemma RunLookup(s: Store, works: seq<Work>, name: string)
    requires AllLoadable(works)
    ensures Run(s, works).Ok?
    ensures SelectAuthorId(Run(s, works).value, name).Ok?
    ensures SelectAuthorId(Run(s, works).value, name).value.Some? <==> exists k :: 0 <= k < |works| && name in works[k].authors
    ensures SelectAuthorId(Run(s, works).value, name).value.Some? ==>
      AuthorRow(SelectAuthorId(Run(s, works).value, name).value.value, name) in Run(s, works).value.authors
  {
    RunOutcome(s, works);
    var names := Normalize(works);
    FindAuthorInBatch(names, name);
    MentionsComplete(works, name);
    if name in names {
      assert AuthorRows(0, names)[IndexOf(names, name)] == AuthorRow(AuthorId(names, name), name);
    }
  }
}
