/**
 * The fail-fast policy: the first failing statement ends the run, nothing
 * after it is attempted, and everything committed before it stays, still
 * satisfying every constraint of the schema.
 */
module FailFast {
  import opened Results
  import opened Seqs
  import opened Schema
  import opened Catalog
  import opened Bootstrap
  import opened LoaderProofs

  /** `t` holds everything `s` holds: the same tables, and the rows of `s` as a prefix of those of `t`. */
  predicate Extends(s: Store, t: Store) {
    && t.tables == s.tables
    && s.books <= t.books
    && s.authors <= t.authors
    && s.links <= t.links
  }

  lemma ExtendsTransitive(s: Store, t: Store, u: Store)
    requires Extends(s, t) && Extends(t, u)
    ensures Extends(s, u)
  {
  }

  /**
   * What a step starting from `s` may leave behind, on success or failure:
   * an extension of `s` that keeps the constraints whenever `s` did.
   */
  predicate KeepsCommitted(s: Store, r: Result<Store, Fatal>) {
    match r
    case Ok(t) => Extends(s, t) && (Valid(s) ==> Valid(t))
    case Err(f) => Extends(s, f.committed) && (Valid(s) ==> Valid(f.committed))
  }

  lemma LinkAuthorCommits(s: Store, bookId: nat, name: string)
    ensures KeepsCommitted(s, LinkAuthor(s, bookId, name))
  {
    if SelectAuthorId(s, name).Ok? {
      var authorId := SelectAuthorId(s, name).value;
      if Valid(s) {
        InsertLinkPreservesValid(s, bookId, authorId);
      }
    }
  }

  lemma {:induction false} LinkAuthorsCommits(s: Store, bookId: nat, names: seq<string>)
    ensures KeepsCommitted(s, LinkAuthors(s, bookId, names))
    decreases |names|
  {
    if |names| > 0 {
      var done := names[..|names| - 1];
      LinkAuthorsCommits(s, bookId, done);
      var r := LinkAuthors(s, bookId, done);
      if r.Ok? {
        var last := LinkAuthor(r.value, bookId, names[|names| - 1]);
        LinkAuthorCommits(r.value, bookId, names[|names| - 1]);
        assert LinkAuthors(s, bookId, names) == last;
        match last
        case Ok(t) => ExtendsTransitive(s, r.value, t);
        case Err(f) => ExtendsTransitive(s, r.value, f.committed);
      }
    }
  }

  lemma DumpWorkCommits(s: Store, w: Work)
    ensures KeepsCommitted(s, DumpWork(s, w))
  {
    var inserted := InsertBook(s, w.title, StoredIsbn(w), w.description);
    if inserted.Ok? {
      var s1 := inserted.value.0;
      if Valid(s) {
        InsertBookPreservesValid(s, w.title, StoredIsbn(w), w.description);
      }
      LinkAuthorsCommits(s1, inserted.value.1, w.authors);
      assert DumpWork(s, w) == LinkAuthors(s1, inserted.value.1, w.authors);
      match DumpWork(s, w)
      case Ok(t) => ExtendsTransitive(s, s1, t);
      case Err(f) => ExtendsTransitive(s, s1, f.committed);
    }
  }

  /** Loading works from any store keeps what was committed before, on success and on failure. */
  lemma {:induction false} DumpBooksCommits(s: Store, works: seq<Work>)
    ensures KeepsCommitted(s, DumpBooks(s, works))
    decreases |works|
  {
    if |works| > 0 {
      var front := works[..|works| - 1];
      DumpBooksCommits(s, front);
      var r := DumpBooks(s, front);
      if r.Ok? {
        DumpWorkCommits(r.value, works[|works| - 1]);
        match DumpWork(r.value, works[|works| - 1])
        case Ok(t) => ExtendsTransitive(s, r.value, t);
        case Err(f) => ExtendsTransitive(s, r.value, f.committed);
      }
    }
  }

  /** Once loading some works has failed, loading more after them changes nothing: the run has ended. */
  lemma {:induction false} DumpBooksStopsAtError(s: Store, works: seq<Work>, rest: seq<Work>)
    requires DumpBooks(s, works).Err?
    ensures DumpBooks(s, works + rest) == DumpBooks(s, works)
    decreases |rest|
  {
    if |rest| == 0 {
      assert works + rest == works;
    } else {
      var front := rest[..|rest| - 1];
      DumpBooksStopsAtError(s, works, front);
      assert (works + rest)[..|works + rest| - 1] == works + front;
    }
  }

  /** The run begins with the reset and the author batch, which cannot fail. */
  lemma RunAfterAuthors(s: Store, works: seq<Work>)
    ensures Run(s, works) == DumpBooks(Loaded(Normalize(works), []), works)
  {
    DumpAuthorsAfterReset(works);
  }

  /**
   * Whatever the works, a run ends in a store that meets every constraint of
   * the schema (unique names, composite primary key, foreign keys); when it
   * fails, the reset and the author batch remain committed.
   */
  lemma RunKeepsConstraints(s: Store, works: seq<Work>)
    ensures Run(s, works).Ok? ==> Valid(Run(s, works).value)
    ensures Run(s, works).Err? ==>
      && Valid(Run(s, works).error.committed)
      && Extends(Loaded(Normalize(works), []), Run(s, works).error.committed)
  {
    var names := Normalize(works);
    var l0 := Loaded(names, []);
    RunAfterAuthors(s, works);
    assert Valid(l0) by {
      DumpAuthorsAfterReset(works);
      InsertAuthorsPreservesValid(Empty, names);
    }
    DumpBooksCommits(l0, works);
  }

  lemma WorkAuthorsNormalized(works: seq<Work>, k: nat)
    requires k < |works|
    ensures forall a :: a in works[k].authors ==> a in Normalize(works)
  {
    forall a | a in works[k].authors ensures a in Normalize(works) {
      MentionsComplete(works, a);
    }
  }

  /** When the works before the k-th load cleanly and the k-th fails, the run ends with that failure. */
  lemma RunReachesWork(s: Store, works: seq<Work>, k: nat)
    requires k < |works|
    requires AllLoadable(works[..k])
    requires DumpWork(Loaded(Normalize(works), works[..k]), works[k]).Err?
    ensures Run(s, works) == DumpWork(Loaded(Normalize(works), works[..k]), works[k])
  {
    var names := Normalize(works);
    var l0 := Loaded(names, []);
    var before := works[..k];
    var upTo := works[..k + 1];
    RunAfterAuthors(s, works);
    MentionsPrefix(works, k);
    DumpBooksOutcome(names, before);
    assert upTo[..|upTo| - 1] == before && upTo[|upTo| - 1] == works[k];
    assert DumpBooks(l0, upTo) == DumpWork(Loaded(names, before), works[k]);
    DumpBooksStopsAtError(l0, upTo, works[k + 1..]);
    assert upTo + works[k + 1..] == works;
  }

  /**
   * A work listing an author twice ends the run at its second link: the
   * composite primary key of `books_authors` refuses it.  Everything the
   * works before it loaded stays committed, and so does the book row of that
   * work; later works are never reached.
   */
  lemma DuplicateAuthorAborts(s: Store, works: seq<Work>, k: nat)
    requires k < |works|
    requires AllLoadable(works[..k])
    requires works[k].title.Text? && !NoDuplicates(works[k].authors)
    ensures Run(s, works).Err?
    ensures Run(s, works).error.message == LinkInsertError
    ensures Run(s, works).error.cause == UniqueViolation(BooksAuthorsPkey)
    ensures Run(s, works).error.committed.books == ExpectedBooks(works[..k + 1])
    ensures Run(s, works).error.committed.authors == AuthorRows(0, Normalize(works))
    ensures Extends(Loaded(Normalize(works), works[..k]), Run(s, works).error.committed)
  {
    var names := Normalize(works);
    WorkAuthorsNormalized(works, k);
    DuplicateAuthorStep(names, works[..k], works[k]);
    assert works[..k] + [works[k]] == works[..k + 1];
    RunReachesWork(s, works, k);
  }

  /** The work-level half of `DuplicateAuthorAborts`: loading one work that repeats an author. */
  lemma DuplicateAuthorStep(names: seq<string>, works: seq<Work>, w: Work)
    requires NoDuplicates(names)
    requires forall a :: a in w.authors ==> a in names
    requires w.title.Text? && !NoDuplicates(w.authors)
    ensures DumpWork(Loaded(names, works), w).Err?
    ensures DumpWork(Loaded(names, works), w).error.message == LinkInsertError
    ensures DumpWork(Loaded(names, works), w).error.cause == UniqueViolation(BooksAuthorsPkey)
    ensures DumpWork(Loaded(names, works), w).error.committed.books == ExpectedBooks(works + [w])
    ensures DumpWork(Loaded(names, works), w).error.committed.authors == AuthorRows(0, names)
    ensures Extends(Loaded(names, works), DumpWork(Loaded(names, works), w).error.committed)
  {
    DumpWorkOutcome(names, works, w);
    DumpWorkCommits(Loaded(names, works), w);
  }

  /**
   * A work whose title is null ends the run at its book insert (`title` is
   * NOT NULL); exactly the works before it stay committed.
   */
  lemma UntitledWorkAborts(s: Store, works: seq<Work>, k: nat)
    requires k < |works|
    requires AllLoadable(works[..k])
    requires works[k].title.Null?
    ensures Run(s, works) == Err(Fatal(BooksInsertError, NotNullViolation("title"), Loaded(Normalize(works), works[..k])))
  {
    var names := Normalize(works);
    WorkAuthorsNormalized(works, k);
    DumpWorkOutcome(names, works[..k], works[k]);
    RunReachesWork(s, works, k);
  }

  /**
   * An author name with no row is not skipped: the lookup finds nothing, the
   * link is inserted with a NULL author id, and the primary key's NOT NULL
   * ends the run.
   */
  lemma UnknownAuthorIsFatal(s: Store, bookId: nat, name: string)
    requires BooksAuthors in s.tables && Authors in s.tables
    requires !HasName(s.authors, name)
    ensures LinkAuthor(s, bookId, name) == Err(Fatal(LinkInsertError, NotNullViolation("author_id"), s))
  {
  }
}
