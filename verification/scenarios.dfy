/** Concrete runs: what the general lemmas say about small catalogs. */
module Scenarios {
  import opened Results
  import opened Seqs
  import opened Schema
  import opened Catalog
  import opened Bootstrap
  import opened LoaderProofs

  /** Resetting twice leaves the same three empty relations as resetting once. */
  lemma ResetIdempotent(s: Store)
    ensures CreateTables(s).Ok? && CreateTables(CreateTables(s).value) == CreateTables(s)
    ensures CreateTables(s).value.tables == AllTables
    ensures CreateTables(s).value.books == [] && CreateTables(s).value.authors == [] && CreateTables(s).value.links == []
  {
  }

  /**
   * A single work with one author gives one book, one author and one link
   * between them.  The work is a parameter pinned by the precondition rather
   * than a literal in the postcondition, so that the verifier reasons from
   * the general lemmas instead of evaluating the whole run on a constant.
   */
  lemma SingleWork(s: Store, w: Work)
    requires w == Work(Text("Fluent Python"), Some(Text("9781491946008")), Text("..."), ["Luciano Ramalho"])
    ensures Run(s, [w])
      == Ok(Store(AllTables,
                  [BookRow(1, "Fluent Python", Text("9781491946008"), Text("..."))],
                  [AuthorRow(1, "Luciano Ramalho")],
                  [LinkRow(1, 1)],
                  1, 1))
  {
    var ws := [w];
    assert ws[..0] == [];
    assert Mentions(ws) == ["Luciano Ramalho"];
    assert ["Luciano Ramalho"][..0] == [];
    assert Normalize(ws) == ["Luciano Ramalho"];
    assert AllLoadable(ws);
    RunOutcome(s, ws);
    SingleWorkLoaded(w);
  }

  /** The closed-form final store of the "Fluent Python" run, spelled out row by row. */
  lemma SingleWorkLoaded(w: Work)
    requires w == Work(Text("Fluent Python"), Some(Text("9781491946008")), Text("..."), ["Luciano Ramalho"])
    ensures Loaded(["Luciano Ramalho"], [w])
      == Store(AllTables,
               [BookRow(1, "Fluent Python", Text("9781491946008"), Text("..."))],
               [AuthorRow(1, "Luciano Ramalho")],
               [LinkRow(1, 1)],
               1, 1)
  {
    var names := ["Luciano Ramalho"];
    var ws := [w];
    assert ws[..0] == [];
    assert AuthorId(names, "Luciano Ramalho") == 1;
    assert LinksFor(names, 1, w.authors) == [LinkRow(1, 1)];
    assert ExpectedLinks(names, ws) == [LinkRow(1, 1)];
    assert ExpectedBooks(ws) == [BookRow(1, "Fluent Python", Text("9781491946008"), Text("..."))];
    assert AuthorRows(0, names) == [AuthorRow(1, "Luciano Ramalho")];
  }

  /** Two titled works by "Jane Doe" alone share one author row and get one link each, to that row; the first, without an isbn, stores "0". */
  lemma SharedAuthor(s: Store, w1: Work, w2: Work)
    requires w1.title.Text? && w2.title.Text? && w1.isbn.None?
    requires w1.authors == ["Jane Doe"] && w2.authors == ["Jane Doe"]
    ensures var r := Run(s, [w1, w2]);
      && r.Ok?
      && r.value.authors == [AuthorRow(1, "Jane Doe")]
      && r.value.links == [LinkRow(1, 1), LinkRow(2, 1)]
      && r.value.books[0].isbn == Text("0")
  {
    var ws := [w1, w2];
    SharedAuthorNormalized(w1, w2);
    assert AllLoadable(ws);
    RunOutcome(s, ws);
    SharedAuthorLoaded(w1, w2);
  }

  lemma SharedAuthorLoaded(w1: Work, w2: Work)
    requires w1.authors == ["Jane Doe"] && w2.authors == ["Jane Doe"] && w1.isbn.None?
    ensures Loaded(["Jane Doe"], [w1, w2]).authors == [AuthorRow(1, "Jane Doe")]
    ensures Loaded(["Jane Doe"], [w1, w2]).links == [LinkRow(1, 1), LinkRow(2, 1)]
    ensures Loaded(["Jane Doe"], [w1, w2]).books[0].isbn == Text("0")
  {
    SharedAuthorLinks(w1, w2);
    assert AuthorRows(0, ["Jane Doe"]) == [AuthorRow(1, "Jane Doe")];
  }

  lemma SharedAuthorNormalized(w1: Work, w2: Work)
    requires w1.authors == ["Jane Doe"] && w2.authors == ["Jane Doe"]
    ensures Normalize([w1, w2]) == ["Jane Doe"]
  {
    var ws := [w1, w2];
    assert ws[..1] == [w1];
    assert [w1][..0] == [];
    assert Mentions([w1]) == ["Jane Doe"];
    assert Mentions(ws) == ["Jane Doe", "Jane Doe"];
    assert ["Jane Doe", "Jane Doe"][..1] == ["Jane Doe"];
    assert ["Jane Doe"][..0] == [];
  }

  lemma SharedAuthorLinks(w1: Work, w2: Work)
    requires w1.authors == ["Jane Doe"] && w2.authors == ["Jane Doe"]
    ensures ExpectedLinks(["Jane Doe"], [w1, w2]) == [LinkRow(1, 1), LinkRow(2, 1)]
  {
    var names := ["Jane Doe"];
    var ws := [w1, w2];
    assert ws[..1] == [w1];
    assert [w1][..0] == [];
    assert AuthorId(names, "Jane Doe") == 1;
    assert LinksFor(names, 1, w1.authors) == [LinkRow(1, 1)];
    assert LinksFor(names, 2, w2.authors) == [LinkRow(2, 1)];
    assert ExpectedLinks(names, [w1]) == [LinkRow(1, 1)];
  }

  /** Lookup after loading a titled work by "Jane Doe" alone is by exact name: a different capitalisation finds nothing. */
  lemma CaseSensitiveLookup(s: Store, w: Work)
    requires w.title.Text? && w.authors == ["Jane Doe"]
    ensures var r := Run(s, [w]);
      && r.Ok?
      && SelectAuthorId(r.value, "Jane Doe") == Ok(Some(1))
      && SelectAuthorId(r.value, "jane doe") == Ok(None)
  {
    var ws := [w];
    assert ws[..0] == [];
    assert Mentions(ws) == ["Jane Doe"];
    assert ["Jane Doe"][..0] == [];
    assert Normalize(ws) == ["Jane Doe"];
    assert AllLoadable(ws);
    RunOutcome(s, ws);
    FindAuthorInBatch(["Jane Doe"], "Jane Doe");
    FindAuthorInBatch(["Jane Doe"], "jane doe");
    assert "jane doe" !in ["Jane Doe"];
  }
}
