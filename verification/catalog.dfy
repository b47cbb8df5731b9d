/**
 * Catalog entries and the author normaliser: the first-seen-order,
 * exact-equality deduplication of the author names of all works.
 */
module Catalog {
  import opened Results
  import opened Seqs
  import opened Schema

  /**
   * One entry of the catalog's `results` array.  `isbn` is None when the
   * entry has no `isbn` key; `title` and `description` may be JSON null.
   */
  datatype Work = Work(title: Cell, isbn: Option<Cell>, description: Cell, authors: seq<string>)

  /** Every author mention, work after work, each work's list in its own order. */
  function Mentions(works: seq<Work>): seq<string> {
    if |works| == 0 then [] else Mentions(works[..|works| - 1]) + works[|works| - 1].authors
  }

  /** A name is mentioned exactly when some work lists it. */
  lemma {:induction false} MentionsComplete(works: seq<Work>, name: string)
    ensures name in Mentions(works) <==> exists k :: 0 <= k < |works| && name in works[k].authors
  {
    if |works| > 0 {
      var front := works[..|works| - 1];
      MentionsComplete(front, name);
      if name in Mentions(front) {
        var k :| 0 <= k < |front| && name in front[k].authors;
        assert works[k] == front[k];
      }
      if exists k :: 0 <= k < |works| && name in works[k].authors {
        var k :| 0 <= k < |works| && name in works[k].authors;
        if k < |front| {
          assert works[k] == front[k];
        }
      }
    }
  }

  /** The mentions of a prefix of the works are mentions of all of them. */
  lemma MentionsPrefix(works: seq<Work>, k: nat)
    requires k <= |works|
    ensures forall name :: name in Mentions(works[..k]) ==> name in Mentions(works)
  {
    forall name | name in Mentions(works[..k]) ensures name in Mentions(works) {
      MentionsComplete(works[..k], name);
      MentionsComplete(works, name);
      var j :| 0 <= j < k && name in works[..k][j].authors;
      assert works[j] == works[..k][j];
    }
  }

  /**
   * Each distinct name once, in the order of first occurrence, by exact
   * string equality.  A name is kept when it is not among those already kept.
   */
  function Dedup(names: seq<string>): (d: seq<string>)
    ensures NoDuplicates(d)
    ensures forall x :: x in d <==> x in names
    ensures |d| <= |names|
  {
    if |names| == 0 then []
    else
      var kept := Dedup(names[..|names| - 1]);
      var last := names[|names| - 1];
      assert names == names[..|names| - 1] + [last];
      NoDuplicatesSnoc(kept, last);
      if last in kept then kept else kept + [last]
  }

  /** The author list the script inserts: every name of every work, deduplicated. */
  function Normalize(works: seq<Work>): seq<string> {
    Dedup(Mentions(works))
  }

  /** Names that occur in a prefix keep their first position when the sequence grows. */
  lemma IndexOfPrefix(names: seq<string>, k: nat, x: string)
    requires k <= |names| && x in names[..k]
    ensures IndexOf(names, x) == IndexOf(names[..k], x)
  {
    var p := IndexOf(names[..k], x);
    assert names[..k][..p] == names[..p];
    IndexOfUnique(names, p, x);
  }

  /** `Dedup` lists the names in the order in which they are first seen. */
  lemma {:induction false} DedupFirstSeenOrder(names: seq<string>)
    ensures forall i, j :: 0 <= i < j < |Dedup(names)| ==>
      IndexOf(names, Dedup(names)[i]) < IndexOf(names, Dedup(names)[j])
  {
    if |names| > 0 {
      var front := names[..|names| - 1];
      var last := names[|names| - 1];
      var d := Dedup(names);
      var kept := Dedup(front);
      DedupFirstSeenOrder(front);
      forall x | x in kept ensures IndexOf(names, x) == IndexOf(front, x) < |front| {
        IndexOfPrefix(names, |front|, x);
      }
      if last !in kept {
        assert last !in front;
        assert IndexOf(names, last) == |front| by {
          assert names[..|front|] == front;
        }
      }
      forall i, j | 0 <= i < j < |d| ensures IndexOf(names, d[i]) < IndexOf(names, d[j]) {
        assert d[i] == kept[i] && d[i] in kept;
        if j < |kept| {
          assert d[j] == kept[j] && d[j] in kept;
        }
      }
    }
  }

  lemma DedupSnoc(names: seq<string>, x: string)
    ensures Dedup(names + [x]) == if x in Dedup(names) then Dedup(names) else Dedup(names) + [x]
  {
    assert (names + [x])[..|names|] == names;
  }

  lemma MentionsStep(works: seq<Work>, i: nat)
    requires i < |works|
    ensures Mentions(works[..i + 1]) == Mentions(works[..i]) + works[i].authors
  {
    assert works[..i + 1][..i] == works[..i];
  }

  /** The inner loop of the normaliser: append each of `names` not yet collected. */
  method AppendNew(authors: seq<string>, names: seq<string>, ghost before: seq<string>) returns (r: seq<string>)
    requires authors == Dedup(before)
    ensures r == Dedup(before + names)
  {
    r := authors;
    var j := 0;
    assert before + names[..0] == before;
    while j < |names|
      invariant 0 <= j <= |names|
      invariant r == Dedup(before + names[..j])
    {
      assert before + names[..j + 1] == (before + names[..j]) + [names[j]];
      DedupSnoc(before + names[..j], names[j]);
      if names[j] !in r {
        r := r + [names[j]];
      }
      j := j + 1;
    }
    assert names[..j] == names;
  }

  /**
   * The author normaliser as the script writes it: two nested loops over the
   * works and their author lists, appending each name not yet collected.
   */
  method CollectAuthors(works: seq<Work>) returns (authors: seq<string>)
    ensures authors == Normalize(works)
  {
    authors := [];
    var i := 0;
    while i < |works|
      invariant 0 <= i <= |works|
      invariant authors == Dedup(Mentions(works[..i]))
    {
      authors := AppendNew(authors, works[i].authors, Mentions(works[..i]));
      MentionsStep(works, i);
      i := i + 1;
    }
    assert works[..i] == works;
  }

  /**
   * What the normaliser promises: no repeats, exactly the names some work
   * lists, no longer than the number of mentions, in first-seen order.
   */
  lemma NormalizeSpec(works: seq<Work>)
    ensures NoDuplicates(Normalize(works))
    ensures forall name :: name in Normalize(works) <==> exists k :: 0 <= k < |works| && name in works[k].authors
    ensures |Normalize(works)| <= |Mentions(works)|
    ensures forall i, j :: 0 <= i < j < |Normalize(works)| ==>
      IndexOf(Mentions(works), Normalize(works)[i]) < IndexOf(Mentions(works), Normalize(works)[j])
  {
    forall name ensures name in Normalize(works) <==> exists k :: 0 <= k < |works| && name in works[k].authors {
      MentionsComplete(works, name);
    }
    DedupFirstSeenOrder(Mentions(works));
  }

  /** Names differing only in case or surrounding whitespace are different authors. */
  lemma ExactNameEquality()
    ensures Normalize([
      Work(Text("A"), None, Null, ["Jane Doe", "jane doe"]),
      Work(Text("B"), None, Null, ["Jane Doe ", "Jane Doe"])])
      == ["Jane Doe", "jane doe", "Jane Doe "]
  {
    var w1 := Work(Text("A"), None, Null, ["Jane Doe", "jane doe"]);
    var w2 := Work(Text("B"), None, Null, ["Jane Doe ", "Jane Doe"]);
    var ws := [w1, w2];
    assert ws[..1] == [w1];
    assert [w1][..0] == [];
    assert Mentions([w1]) == w1.authors;
    assert Mentions(ws) == Mentions([w1]) + w2.authors;
    assert Mentions(ws) == ["Jane Doe", "jane doe", "Jane Doe ", "Jane Doe"];
    var m := Mentions(ws);
    assert m[..1] == ["Jane Doe"];
    assert m[..2] == ["Jane Doe", "jane doe"];
    assert m[..3] == ["Jane Doe", "jane doe", "Jane Doe "];
    assert ["Jane Doe"][..0] == [];
    assert ["Jane Doe", "jane doe"][..1] == ["Jane Doe"];
    assert ["Jane Doe", "jane doe", "Jane Doe "][..2] == ["Jane Doe", "jane doe"];
    assert "Jane Doe" != "jane doe";
    assert "Jane Doe " != "Jane Doe" && "Jane Doe " != "jane doe";
  }
}
