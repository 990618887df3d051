/** The category table behind `Category`: saving a draft after its field
    validators and its `clean` have run (the full-clean-then-save path of
    book_app/models.py:53-127). The table uses the corrected parent check,
    and so keeps the categories a forest. */
module CategoryStore {
  import opened Wrappers
  import opened Chains
  import opened CategoryNames
  import opened Hierarchy
  import Traversal

  /** The errors `full_clean` gathers: the name field's errors, and the
      error of `clean`, which runs even when the name has failed. */
  datatype SaveError = Invalid(nameErrors: seq<NameError>, cleanError: Option<CategoryError>)

  /** The error report of `full_clean` for a name's errors and a verdict. */
  function Report(nameErrors: seq<NameError>, verdict: Outcome<CategoryError>): SaveError
  {
    Invalid(nameErrors, if verdict.Fail? then Some(verdict.error) else None)
  }

  /** Every stored name passes the `name` field's validators. */
  ghost predicate NamesValid(s: Categories)
  {
    forall x :: x in s ==> ValidateName(s[x].name) == []
  }

  /** On a table of valid names that forms a forest, every stored category
      has a full path, and that path holds one `>` per ancestor. */
  lemma StoredPathSeparators(s: Categories, x: Id)
    requires Forest(s) && NamesValid(s) && x in s
    ensures ReachesRoot(s, x)
    ensures Traversal.CountChar(Traversal.FullPath(s, x), '>') == Traversal.Depth(s, x) - 1
  {
    forall y, i | y in s && 0 <= i < |s[y].name| ensures s[y].name[i] != '>' {
      ValidNameHasNoSeparator(s[y].name);
    }
    Traversal.FullPathSeparators(s, x);
  }

  /** A validated, accepted draft written under id `x` keeps the table's
      invariant. */
  lemma SaveKeepsInvariant(s: Categories, nextId: nat, x: Id, d: CategoryDraft)
    requires Forest(s) && NamesValid(s) && forall y :: y in s ==> y < nextId
    requires d.id == Some(x) || (d.id.None? && x == nextId)
    requires ValidateName(d.name) == [] && CorrectedVerdict(s, d) == Pass
    ensures var t := Persist(s, x, d);
            var n := if x < nextId then nextId else x + 1;
            Forest(t) && NamesValid(t) && forall y :: y in t ==> y < n
  {
    CorrectedSaveKeepsForest(s, x, d);
  }

  class CategoryTable {
    var rows: Categories
    var nextId: nat

    ghost predicate Valid()
      reads this
    {
      Forest(rows) && NamesValid(rows) && 0 < nextId && forall x :: x in rows ==> x < nextId
    }

    constructor ()
      ensures Valid() && rows == map[] && nextId == 1
    {
      rows := map[];
      nextId := 1;
    }

    /** Validate the name and run the corrected `clean`, as `full_clean`
        does, then write the row: an update when the draft has an id, an
        insert under the next id when it has none. A rejected draft leaves
        the table unchanged. */
    method Save(d: CategoryDraft) returns (r: Result<Id, SaveError>)
      requires Valid()
      modifies this
      ensures Valid()
      ensures r.Err? <==> ValidateName(d.name) != [] || CorrectedVerdict(old(rows), d).Fail?
      ensures r.Err? ==> r.error.nameErrors == ValidateName(d.name)
      ensures r.Err? ==> (r.error.cleanError.Some? <==> CorrectedVerdict(old(rows), d).Fail?)
      ensures r.Err? && r.error.cleanError.Some? ==> Fail(r.error.cleanError.value) == CorrectedVerdict(old(rows), d)
      ensures r.Err? ==> rows == old(rows) && nextId == old(nextId)
      ensures r.Ok? ==> rows == Persist(old(rows), r.value, d)
      ensures r.Ok? && d.id.Some? ==> r.value == d.id.value
      ensures r.Ok? && d.id.None? ==> r.value !in old(rows)
    {
      var errors := ValidateName(d.name);
      var verdict := CleanCorrected(rows, d);
      if errors != [] || verdict.Fail? {
        return Err(Report(errors, verdict));
      }
      var x := if d.id.Some? then d.id.value else nextId;
      Write(x, d);
      return Ok(x);
    }

    /** The row update or insert itself, for a draft already accepted. */
    method Write(x: Id, d: CategoryDraft)
      requires Valid()
      requires d.id == Some(x) || (d.id.None? && x == nextId)
      requires ValidateName(d.name) == [] && CorrectedVerdict(rows, d) == Pass
      modifies this
      ensures Valid()
      ensures rows == Persist(old(rows), x, d)
      ensures nextId == if x < old(nextId) then old(nextId) else x + 1
    {
      SaveKeepsInvariant(rows, nextId, x, d);
      rows := Persist(rows, x, d);
      nextId := if x < nextId then nextId else x + 1;
    }
  }
}
