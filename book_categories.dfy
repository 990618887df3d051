/** The `book_category` link table of book_app/models.py:196-230: the rule
    that a book has at most one primary category, checked by
    `BookCategory.clean` and enforced again by the table's constraints when
    `save` writes the row. */
module BookCategories {
  import opened Wrappers

  type Pk = nat

  /** A persisted link row. `relevance` is the float score column. */
  datatype BookCategory = BookCategory(pk: Pk, book: nat, category: nat, primary: bool, relevance: real)

  /** A row about to be saved: `pk` is `None` until the row is first
      inserted. */
  datatype Draft = Draft(pk: Option<Pk>, book: nat, category: nat, primary: bool, relevance: real)

  datatype BookCategoryError =
    | MultiplePrimaryCategories   // raised by `clean`
    | IntegrityError              // raised by the database on write

  /** Some stored row other than the one with primary key `exclude` is the
      primary row of `book`. Excluding `pk = None` excludes no row. */
  predicate PrimaryElsewhere(rows: seq<BookCategory>, book: nat, exclude: Option<Pk>)
  {
    exists i :: 0 <= i < |rows| && rows[i].book == book && rows[i].primary && Some(rows[i].pk) != exclude
  }

  /** `BookCategory.clean`: a primary row is refused while the book has
      another primary row; a non-primary row always passes. */
  function CleanPrimary(rows: seq<BookCategory>, d: Draft): (r: Outcome<BookCategoryError>)
    ensures r.Fail? <==> d.primary && exists i :: 0 <= i < |rows| && rows[i].book == d.book && rows[i].primary && Some(rows[i].pk) != d.pk
    ensures r.Fail? ==> r.error == MultiplePrimaryCategories
    ensures !d.primary ==> r.Pass?
  {
    if d.primary && PrimaryElsewhere(rows, d.book, d.pk) then Fail(MultiplePrimaryCategories) else Pass
  }

  predicate HasPk(rows: seq<BookCategory>, pk: Pk)
  {
    exists i :: 0 <= i < |rows| && rows[i].pk == pk
  }

  /** No two rows share a primary key. */
  predicate DistinctPks(rows: seq<BookCategory>)
  {
    forall i, j :: 0 <= i < |rows| && 0 <= j < |rows| && i != j ==> rows[i].pk != rows[j].pk
  }

  /** `unique_primary_category_per_book`: no two rows of one book are both
      primary. */
  predicate AtMostOnePrimary(rows: seq<BookCategory>)
  {
    forall i, j :: 0 <= i < |rows| && 0 <= j < |rows| && i != j && rows[i].book == rows[j].book ==>
      !(rows[i].primary && rows[j].primary)
  }

  /** `unique_together = ['book', 'category']`. */
  predicate UniquePairs(rows: seq<BookCategory>)
  {
    forall i, j :: 0 <= i < |rows| && 0 <= j < |rows| && i != j ==>
      (rows[i].book, rows[i].category) != (rows[j].book, rows[j].category)
  }

  /** `relevance_score_range`: every score lies in 0 .. 10. */
  predicate RelevanceInRange(rows: seq<BookCategory>)
  {
    forall i :: 0 <= i < |rows| ==> 0.0 <= rows[i].relevance <= 10.0
  }

  /** Every constraint the database enforces on the table. */
  predicate Constraints(rows: seq<BookCategory>)
  {
    AtMostOnePrimary(rows) && UniquePairs(rows) && RelevanceInRange(rows)
  }

  /** The row a draft becomes once its primary key is known. */
  function AsRow(pk: Pk, d: Draft): BookCategory
  {
    BookCategory(pk, d.book, d.category, d.primary, d.relevance)
  }

  /** The write of `save`: the row replaces the stored row with its primary
      key (an update), or joins the table (an insert). */
  function Upsert(rows: seq<BookCategory>, row: BookCategory): (r: seq<BookCategory>)
    ensures forall x :: x in r <==> x == row || (x in rows && x.pk != row.pk)
    ensures HasPk(rows, row.pk) ==> |r| == |rows|
    ensures !HasPk(rows, row.pk) ==> r == rows + [row]
    ensures DistinctPks(rows) ==> DistinctPks(r)
  {
    if HasPk(rows, row.pk) then
      var r := seq(|rows|, i requires 0 <= i < |rows| => if rows[i].pk == row.pk then row else rows[i]);
      assert forall x :: x in r <==> x == row || (x in rows && x.pk != row.pk) by {
        forall x ensures x in r <==> x == row || (x in rows && x.pk != row.pk) {
          if x == row {
            var k :| 0 <= k < |rows| && rows[k].pk == row.pk;
            assert r[k] == row;
          } else if x in rows && x.pk != row.pk {
            var k :| 0 <= k < |rows| && rows[k] == x;
            assert r[k] == x;
          }
        }
      }
      r
    else
      rows + [row]
  }

  /** Over a table with at most one primary row per book and distinct keys,
      writing a row keeps at most one primary row per book exactly when
      `clean` lets it through: `clean` refuses only the writes that would
      break the rule. */
  lemma CleanDecidesPrimaryRule(rows: seq<BookCategory>, row: BookCategory)
    requires AtMostOnePrimary(rows) && DistinctPks(rows)
    ensures AtMostOnePrimary(Upsert(rows, row)) <==>
              !(row.primary && PrimaryElsewhere(rows, row.book, Some(row.pk)))
  {
    var r := Upsert(rows, row);
    if row.primary && PrimaryElsewhere(rows, row.book, Some(row.pk)) {
      var k :| 0 <= k < |rows| && rows[k].book == row.book && rows[k].primary && rows[k].pk != row.pk;
      assert rows[k] in r;
      assert row in r;
      var a :| 0 <= a < |r| && r[a] == rows[k];
      var b :| 0 <= b < |r| && r[b] == row;
      assert a != b;
    } else {
      forall i, j | 0 <= i < |r| && 0 <= j < |r| && i != j && r[i].book == r[j].book
        ensures !(r[i].primary && r[j].primary)
      {
        assert r[i] in r && r[j] in r;
      }
    }
  }

  /** The key a save writes under: the draft's own, or the next free one. */
  function AssignedPk(d: Draft, nextPk: Pk): Pk
  {
    if d.pk.Some? then d.pk.value else nextPk
  }

  class BookCategoryTable {
    var rows: seq<BookCategory>
    var nextPk: Pk

    /** The stored rows meet every constraint, have distinct keys, and lie
        below the next key to hand out. */
    ghost predicate Valid()
      reads this
    {
      Constraints(rows) && DistinctPks(rows) && forall i :: 0 <= i < |rows| ==> rows[i].pk < nextPk
    }

    constructor ()
      ensures Valid() && rows == [] && nextPk == 1
    {
      rows := [];
      nextPk := 1;
    }

    /** `BookCategory.save`: `clean` first, then the write, which the
        database refuses when the resulting table breaks a constraint. */
    method Save(d: Draft) returns (r: Result<Pk, BookCategoryError>)
      requires Valid()
      modifies this
      ensures Valid()
      ensures r == Err(MultiplePrimaryCategories) <==> d.primary && PrimaryElsewhere(old(rows), d.book, d.pk)
      ensures r == Err(IntegrityError) <==>
                CleanPrimary(old(rows), d).Pass? &&
                !Constraints(Upsert(old(rows), AsRow(AssignedPk(d, old(nextPk)), d)))
      ensures r.Err? ==> rows == old(rows) && nextPk == old(nextPk)
      ensures r.Ok? ==> r.value == AssignedPk(d, old(nextPk)) && rows == Upsert(old(rows), AsRow(r.value, d))
      ensures r == Err(IntegrityError) ==>
                var updated := Upsert(old(rows), AsRow(AssignedPk(d, old(nextPk)), d));
                !UniquePairs(updated) || !RelevanceInRange(updated)
    {
      var verdict := CleanPrimary(rows, d);
      if verdict.Fail? {
        return Err(verdict.error);
      }
      var pk := AssignedPk(d, nextPk);
      var updated := Upsert(rows, AsRow(pk, d));
      assert PrimaryElsewhere(rows, d.book, d.pk) <==> PrimaryElsewhere(rows, d.book, Some(pk));
      CleanDecidesPrimaryRule(rows, AsRow(pk, d));
      if !Constraints(updated) {
        return Err(IntegrityError);
      }
      Write(AsRow(pk, d));
      r := Ok(pk);
    }

    /** Stores an accepted row and moves the key counter past its key. */
    method Write(row: BookCategory)
      requires Valid() && Constraints(Upsert(rows, row))
      modifies this
      ensures Valid()
      ensures rows == Upsert(old(rows), row)
      ensures nextPk == if row.pk < old(nextPk) then old(nextPk) else row.pk + 1
    {
      var updated := Upsert(rows, row);
      var n := if row.pk < nextPk then nextPk else row.pk + 1;
      forall i | 0 <= i < |updated| ensures updated[i].pk < n {
        assert updated[i] in updated;
        if updated[i] != row {
          var k :| 0 <= k < |rows| && rows[k] == updated[i];
        }
      }
      rows := updated;
      nextPk := n;
    }
  }

  /** A book with a primary Sci-Fi link cannot take a second primary link
      to Thriller; once the Sci-Fi link is saved as non-primary, it can, and
      the table still meets every constraint. */
  lemma PrimarySwapScenario()
    ensures var sciFi := [BookCategory(1, 1, 10, true, 5.0)];
            var thriller := Draft(None, 1, 11, true, 5.0);
            var demoted := Upsert(sciFi, BookCategory(1, 1, 10, false, 5.0));
            CleanPrimary(sciFi, thriller) == Fail(MultiplePrimaryCategories) &&
            demoted == [BookCategory(1, 1, 10, false, 5.0)] &&
            CleanPrimary(demoted, thriller) == Pass &&
            Constraints(Upsert(demoted, AsRow(2, thriller)))
  {
    var sciFi := [BookCategory(1, 1, 10, true, 5.0)];
    var thriller := Draft(None, 1, 11, true, 5.0);
    assert PrimaryElsewhere(sciFi, 1, None) by {
      assert sciFi[0].book == 1 && sciFi[0].primary;
    }
    var demoted := Upsert(sciFi, BookCategory(1, 1, 10, false, 5.0));
    assert HasPk(sciFi, 1) by {
      assert sciFi[0].pk == 1;
    }
    assert demoted == [BookCategory(1, 1, 10, false, 5.0)];
    assert !HasPk(demoted, 2);
    assert Upsert(demoted, AsRow(2, thriller)) == [BookCategory(1, 1, 10, false, 5.0), BookCategory(2, 1, 11, true, 5.0)];
  }
}
