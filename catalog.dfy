/**
 * The one client of the tree: the book scraper fills a single tree, keyed by
 * title, from the rows of several list pages, and then exports its in-order
 * traversal as one database record per book. Only the tree-facing part of
 * that program is modelled: a scraped row comes in with its four fields
 * already extracted, the string "N/A" standing for a field that was missing,
 * and only rows with all four fields present reach the tree. Because insert
 * overwrites an existing title, the tree deduplicates the rows by title, the
 * last complete row of a title giving its data.
 */
module Catalog {
  import opened KeyOrder
  import opened TreeModel
  import opened Bst

  /** What a scraped table row yields; each field is "N/A" when missing. */
  datatype Row = Row(title: string, author: string, rating: string, numRatings: string)

  /** The data stored under a title. */
  datatype Book = Book(author: string, rating: string, numRatings: string)

  /** One exported database row: the title followed by the book's fields. */
  datatype Record = Record(title: string, author: string, rating: string, numRatings: string)

  const Missing: string := "N/A"

  /** A row is inserted only when none of its four fields is missing. */
  predicate Complete(row: Row)
  {
    row.title != Missing && row.author != Missing &&
    row.rating != Missing && row.numRatings != Missing
  }

  function BookOf(row: Row): Book
  {
    Book(row.author, row.rating, row.numRatings)
  }

  function Flatten(title: string, b: Book): Record
  {
    Record(title, b.author, b.rating, b.numRatings)
  }

  /** What one row does to the tree: a complete row adds its title. */
  function Step(t: Tree<Book>, row: Row): (r: Tree<Book>)
    ensures Keys(r) == if Complete(row) then Keys(t) + {row.title} else Keys(t)
  {
    if Complete(row) then Insert(t, row.title, BookOf(row)) else t
  }

  /** The tree after the rows have been handled one after the other. Its
      titles are the titles it had plus those of every complete row, and no
      others: an incomplete row is dropped. */
  function Build(t: Tree<Book>, rows: seq<Row>): (r: Tree<Book>)
    decreases |rows|
    ensures Keys(r) == Keys(t) + Titles(rows)
  {
    if |rows| == 0 then t
    else
      var init, last := rows[..|rows| - 1], rows[|rows| - 1];
      assert forall i :: 0 <= i < |init| ==> init[i] == rows[i];
      assert Titles(rows) == Titles(init) + (if Complete(last) then {last.title} else {});
      Step(Build(t, init), last)
  }

  /** The rows of several pages, page after page. */
  function Concat(pages: seq<seq<Row>>): seq<Row>
    decreases |pages|
  {
    if |pages| == 0 then []
    else Concat(pages[..|pages| - 1]) + pages[|pages| - 1]
  }

  /** The titles of the complete rows. */
  function Titles(rows: seq<Row>): set<string>
  {
    set i | 0 <= i < |rows| && Complete(rows[i]) :: rows[i].title
  }

  /** Row `i` is complete and no later complete row has its title. */
  predicate LastComplete(rows: seq<Row>, i: int)
  {
    0 <= i < |rows| && Complete(rows[i]) &&
    forall j :: i < j < |rows| && Complete(rows[j]) ==> rows[j].title != rows[i].title
  }

  /** The exported records, one per pair, in traversal order. */
  function Records(pairs: seq<(string, Book)>): seq<Record>
  {
    seq(|pairs|, i requires 0 <= i < |pairs| => Flatten(pairs[i].0, pairs[i].1))
  }

  /** The records of a tree: one per node, each titled with a key of the
      tree. */
  function Export(t: Tree<Book>): (r: seq<Record>)
    ensures |r| == Size(t)
    ensures forall i :: 0 <= i < |r| ==> r[i].title in Keys(t)
  {
    Records(Inorder(t))
  }

  // ---------------------------------------------------------------------
  // Lemmas about loading rows

  lemma {:induction false} BuildOrdered(t: Tree<Book>, rows: seq<Row>)
    requires Ordered(t)
    ensures Ordered(Build(t, rows))
    decreases |rows|
  {
    if |rows| > 0 {
      BuildOrdered(t, rows[..|rows| - 1]);
      InsertOrdered(Build(t, rows[..|rows| - 1]), rows[|rows| - 1].title, BookOf(rows[|rows| - 1]));
    }
  }

  /** Last write wins: the last complete row of a title decides its data. */
  lemma {:induction false} LastWins(t: Tree<Book>, rows: seq<Row>, i: int)
    requires Ordered(t) && LastComplete(rows, i)
    ensures rows[i].title in Contents(Build(t, rows))
    ensures Contents(Build(t, rows))[rows[i].title] == BookOf(rows[i])
    decreases |rows|
  {
    var n := |rows| - 1;
    var init := rows[..n];
    BuildOrdered(t, init);
    var before := Build(t, init);
    if i == n {
      InsertContents(before, rows[n].title, BookOf(rows[n]));
    } else {
      assert LastComplete(init, i) by {
        assert forall j :: 0 <= j < n ==> init[j] == rows[j];
      }
      LastWins(t, init, i);
      if Complete(rows[n]) {
        InsertContents(before, rows[n].title, BookOf(rows[n]));
      }
    }
  }

  /** A title no complete row carries keeps whatever the tree held for it. */
  lemma {:induction false} Untouched(t: Tree<Book>, rows: seq<Row>, title: string)
    requires Ordered(t)
    requires forall i :: 0 <= i < |rows| && Complete(rows[i]) ==> rows[i].title != title
    ensures (title in Contents(Build(t, rows))) == (title in Contents(t))
    ensures title in Contents(t) ==> Contents(Build(t, rows))[title] == Contents(t)[title]
    decreases |rows|
  {
    if |rows| > 0 {
      var n := |rows| - 1;
      var init := rows[..n];
      assert forall i :: 0 <= i < n ==> init[i] == rows[i];
      Untouched(t, init, title);
      BuildOrdered(t, init);
      if Complete(rows[n]) {
        InsertContents(Build(t, init), rows[n].title, BookOf(rows[n]));
      }
    }
  }

  /** Loading the rows of two pages one after the other is loading the rows
      of both at once. */
  lemma {:induction false} BuildAppend(t: Tree<Book>, a: seq<Row>, b: seq<Row>)
    ensures Build(t, a + b) == Build(Build(t, a), b)
    decreases |b|
  {
    if |b| == 0 {
      assert a + b == a;
    } else {
      var n := |b| - 1;
      assert (a + b)[..|a + b| - 1] == a + b[..n];
      BuildAppend(t, a, b[..n]);
    }
  }

  // ---------------------------------------------------------------------
  // Lemmas about the export

  /** A record is exported exactly when its title and book form one of the
      traversal's pairs. */
  lemma RecordMembership(pairs: seq<(string, Book)>, rec: Record)
    ensures rec in Records(pairs) <==> (rec.title, Book(rec.author, rec.rating, rec.numRatings)) in pairs
  {
    var e := Records(pairs);
    var p := (rec.title, Book(rec.author, rec.rating, rec.numRatings));
    if rec in e {
      var i :| 0 <= i < |e| && e[i] == rec;
      assert pairs[i] == p;
    }
    if p in pairs {
      var i :| 0 <= i < |pairs| && pairs[i] == p;
      assert e[i] == rec;
    }
  }

  /** The records are exactly the tree's entries, one per title, in strictly
      ascending title order. */
  lemma ExportEntries(t: Tree<Book>)
    requires Ordered(t)
    ensures |Export(t)| == |Keys(t)|
    ensures forall i, j :: 0 <= i < j < |Export(t)| ==> Less(Export(t)[i].title, Export(t)[j].title)
    ensures forall rec :: rec in Export(t) <==> rec.title in Contents(t) && Flatten(rec.title, Contents(t)[rec.title]) == rec
  {
    var s := Inorder(t);
    InorderAscending(t);
    InorderPairs(t);
    SizeIsKeyCount(t);
    forall rec ensures rec in Export(t) <==> rec.title in Contents(t) && Flatten(rec.title, Contents(t)[rec.title]) == rec {
      RecordMembership(s, rec);
    }
  }

  // ---------------------------------------------------------------------
  // The scraper, on a heap tree

  /** Handle one row: a complete row is inserted, any other is skipped. */
  method LoadRow(tree: BinarySearchTree<Book>, row: Row)
    requires tree.Valid()
    modifies tree, tree.Nodes()
    ensures tree.Valid()
    ensures tree.Model() == Step(old(tree.Model()), row)
    ensures old(tree.Nodes()) <= tree.Nodes() && fresh(tree.Nodes() - old(tree.Nodes()))
  {
    if row.title != Missing && row.author != Missing && row.rating != Missing && row.numRatings != Missing {
      tree.Insert(row.title, Book(row.author, row.rating, row.numRatings));
    }
  }

  /** Handle the rows of one page: every complete row is inserted, in order. */
  method LoadRows(tree: BinarySearchTree<Book>, rows: seq<Row>)
    requires tree.Valid()
    modifies tree, tree.Nodes()
    ensures tree.Valid()
    ensures tree.Model() == Build(old(tree.Model()), rows)
    ensures old(tree.Nodes()) <= tree.Nodes() && fresh(tree.Nodes() - old(tree.Nodes()))
  {
    var i := 0;
    while i < |rows|
      invariant 0 <= i <= |rows|
      invariant tree.Valid()
      invariant tree.Model() == Build(old(tree.Model()), rows[..i])
      invariant old(tree.Nodes()) <= tree.Nodes() && fresh(tree.Nodes() - old(tree.Nodes()))
    {
      assert rows[..i + 1][..i] == rows[..i];
      ghost var nodes := tree.Nodes();
      label BeforeRow:
      LoadRow(tree, rows[i]);
      forall n | n in tree.Nodes() && n !in old(tree.Nodes()) ensures !old(allocated(n)) {
        if n !in nodes {
          assert !old@BeforeRow(allocated(n));
        }
      }
      i := i + 1;
    }
    assert rows[..i] == rows;
  }

  /** Handle the pages in turn, all into the same tree. */
  method LoadPages(tree: BinarySearchTree<Book>, pages: seq<seq<Row>>)
    requires tree.Valid()
    modifies tree, tree.Nodes()
    ensures tree.Valid()
    ensures tree.Model() == Build(old(tree.Model()), Concat(pages))
    ensures old(tree.Nodes()) <= tree.Nodes() && fresh(tree.Nodes() - old(tree.Nodes()))
  {
    var k := 0;
    while k < |pages|
      invariant 0 <= k <= |pages|
      invariant tree.Valid()
      invariant tree.Model() == Build(old(tree.Model()), Concat(pages[..k]))
      invariant old(tree.Nodes()) <= tree.Nodes() && fresh(tree.Nodes() - old(tree.Nodes()))
    {
      assert pages[..k + 1][..k] == pages[..k];
      BuildAppend(old(tree.Model()), Concat(pages[..k]), pages[k]);
      ghost var nodes := tree.Nodes();
      label BeforePage:
      LoadRows(tree, pages[k]);
      forall n | n in tree.Nodes() && n !in old(tree.Nodes()) ensures !old(allocated(n)) {
        if n !in nodes {
          assert !old@BeforePage(allocated(n));
        }
      }
      k := k + 1;
    }
    assert pages[..k] == pages;
  }

  /** What the export of the rows holds: one record per title of a complete
      row, in strictly ascending title order, each carrying the data of the
      last complete row with that title. */
  lemma CollectedRecords(rows: seq<Row>)
    ensures forall i, j :: 0 <= i < j < |Export(Build(Leaf, rows))| ==>
              Less(Export(Build(Leaf, rows))[i].title, Export(Build(Leaf, rows))[j].title)
    ensures forall rec :: rec in Export(Build(Leaf, rows)) ==> rec.title in Titles(rows)
    ensures |Export(Build(Leaf, rows))| == |Titles(rows)|
    ensures forall i :: LastComplete(rows, i) ==> Flatten(rows[i].title, BookOf(rows[i])) in Export(Build(Leaf, rows))
  {
    var t := Build(Leaf, rows);
    BuildOrdered(Leaf, rows);
    ExportEntries(t);
    KeysAreContentsKeys(t);
    forall i | LastComplete(rows, i) ensures Flatten(rows[i].title, BookOf(rows[i])) in Export(t) {
      LastWins(Leaf, rows, i);
    }
  }

  /** The whole run: a fresh tree is filled from the pages in turn and its
      traversal is exported. */
  method CollectBooks(pages: seq<seq<Row>>) returns (records: seq<Record>)
    ensures records == Export(Build(Leaf, Concat(pages)))
    ensures forall i, j :: 0 <= i < j < |records| ==> Less(records[i].title, records[j].title)
    ensures forall rec :: rec in records ==> rec.title in Titles(Concat(pages))
    ensures |records| == |Titles(Concat(pages))|
    ensures forall i :: LastComplete(Concat(pages), i) ==>
              Flatten(Concat(pages)[i].title, BookOf(Concat(pages)[i])) in records
  {
    var tree := new BinarySearchTree<Book>();
    LoadPages(tree, pages);
    var pairs := tree.Inorder();
    records := Records(pairs);
    CollectedRecords(Concat(pages));
  }

  // ---------------------------------------------------------------------
  // A worked example

  /** Two "Dune" rows and a "Foundation" row: the traversal holds one "Dune"
      entry, with the later row's data, before "Foundation". */
  lemma DuneAndFoundation()
    ensures var dune1 := Row("Dune", "Herbert", "4.3", "900000");
            var foundation := Row("Foundation", "Asimov", "4.2", "500000");
            var dune2 := Row("Dune", "Herbert", "4.5", "950000");
            Inorder(Build(Leaf, [dune1, foundation, dune2])) ==
              [("Dune", Book("Herbert", "4.5", "950000")), ("Foundation", Book("Asimov", "4.2", "500000"))]
  {
    var dune1 := Row("Dune", "Herbert", "4.3", "900000");
    var foundation := Row("Foundation", "Asimov", "4.2", "500000");
    var dune2 := Row("Dune", "Herbert", "4.5", "950000");
    var rows := [dune1, foundation, dune2];
    assert rows[..2] == [dune1, foundation] && rows[..2][..1] == [dune1] && [dune1][..0] == [];
    assert Complete(dune1) && Complete(foundation) && Complete(dune2);
    var f := Branch(Leaf, "Foundation", BookOf(foundation), Leaf);
    assert Build(Leaf, [dune1]) == Branch(Leaf, "Dune", BookOf(dune1), Leaf);
    assert Less("Dune", "Foundation");
    assert Build(Leaf, rows[..2]) == Branch(Leaf, "Dune", BookOf(dune1), f);
    Irreflexive("Dune");
    assert Build(Leaf, rows) == Branch(Leaf, "Dune", BookOf(dune2), f);
  }
}
