# Catalog data-layer rules, modelled in Dafny

This project models the validation and traversal core of the book catalog's
data layer (`book_app/models.py`): how a category name is validated, how a
category's parent assignment and deactivation are checked, how a category's
full path and its subcategory listing are derived, and how the rule "a book
has at most one primary category" is kept by `BookCategory.save`. Beside
these sit `Book.is_long_book` and the check and uniqueness constraints of
the `book`, `book_category` and `review` tables.

The stored categories are a finite map from id to a row
`{name, parent, active}` (`Chains.Categories`). Every hierarchy property is
stated through `Chains.Anc(s, x, k)`, the k-th node of the ancestor chain
that starts at `x`. Book-category links are a sequence of rows
`{pk, book, category, primary, relevance}`.

Modules, one file each:

- `wrappers.dfy` (`Wrappers`): `Option`, `Outcome` (pass or fail with an
  error) and `Result`.
- `names.dfy` (`CategoryNames`): `validate_no_special_chars` and the
  validators of the category `name` field.
- `chains.dfy` (`Chains`): ancestor chains, cycles, roots and forests. It
  also decides exactly when the source's ancestor walk stops.
- `hierarchy.dfy` (`Hierarchy`): `validate_hierarchical_integrity` as a
  loop, `Category.clean`, and a corrected parent check.
- `traversal.dfy` (`Traversal`): `get_full_path` and
  `get_all_subcategories`.
- `category_table.dfy` (`CategoryStore`): a category table whose `Save`
  runs the field validators and the corrected `clean` before writing. Its
  invariant is "the categories form a forest of valid names".
- `books.dfy` (`Books`): `is_long_book` and the book and review constraints.
- `book_categories.dfy` (`BookCategories`): `BookCategory.clean`, and
  `save` as a table update that the database constraints may refuse.

`Hierarchy.ValidateHierarchicalIntegrity` is the ancestor walk of
`book_app/models.py:17-27` as written. `Hierarchy.ValidateParentAssignment`
is a corrected walk. It also stops at the category being saved, and it gives
up after as many steps as there are stored categories, so it ends on every
table (see Findings).

## Model

| member | source | states |
|---|---|---|
| CategoryNames.SearchSpecialChar | book_app/models.py:11 | `re.search` over the blacklist: the result is the leftmost blacklisted position, and no position before it is blacklisted; `None` means no character of the value is blacklisted |
| CategoryNames.ValidateNoSpecialChars | book_app/models.py:10-15 | fails with `SpecialCharacters` exactly when some character is one of `!@#$%^&*()_+=[]{}\|\;:"<>?`, and otherwise passes |
| CategoryNames.ValidateName | book_app/models.py:54-64 | the name field reports no error exactly when the name is 2 to 100 characters drawn from ASCII letters, digits, `-` and Python's Unicode whitespace; the empty name reports only the blank error, and only the empty name reports it |
| CategoryNames.WhitelistExcludesSpecials | book_app/models.py:58-62 | a name that matches the whitelist pattern always passes `validate_no_special_chars`, so that validator never adds an error to a valid name |
| CategoryNames.NameCharNotSpecial | book_app/models.py:11 | no character of the name whitelist `[A-Za-z0-9\s\-]` is in the blacklist of `validate_no_special_chars` |
| CategoryNames.ValidNameHasNoSeparator | book_app/models.py:54-64 | a valid category name contains no `>`, the character of the path separator |
| Chains.ForestWalkEnds | book_app/models.py:23-27 | on a table that forms a forest, the walk from any stored category stops, and that category is not on a cycle |
| Chains.DivergentWalkEntersCycle | book_app/models.py:23-27 | a chain of stored rows that never reaches a root runs into a cycle: some ancestor lies on a cycle |
| Chains.AncestorOnCycleNeverEnds | book_app/models.py:24-27 | a chain that meets a node on a cycle never reaches a root |
| Chains.LongChainNeverEnds | book_app/models.py:24-27 | a chain of stored rows that is still going after as many steps as there are rows never reaches a root, so that many steps decide whether the walk ends |
| Chains.CycleAboveIsMissed | book_app/models.py:24-27 | when an ancestor of the walk's start lies on a cycle that avoids the start, the walk neither reaches a root nor returns to the start, so the loop never ends |
| Chains.WalkDivergesExactly | book_app/models.py:23-27 | on a stored table, the walk runs forever exactly when the start is not on a cycle and some ancestor of it is |
| Hierarchy.ValidateHierarchicalIntegrity | book_app/models.py:17-27 | `None` passes; otherwise the walk fails with a circular reference exactly when the parent lies on a cycle of parent links, and passes otherwise |
| Hierarchy.HasActiveChild | book_app/models.py:101 | `self.subcategories.filter(is_active=True).exists()`: some stored row whose parent is the category is active |
| Hierarchy.PreventSelfParent | book_app/models.py:122-127 | the check constraint `prevent_self_parent`: a row's parent is not the row itself; a NULL parent passes, as a SQL check whose condition is NULL does |
| Hierarchy.CleanVerdict | book_app/models.py:90-102 | the verdict of `clean` on a draft against the stored table, with its checks in the source's order |
| Hierarchy.Clean | book_app/models.py:90-102 | `clean` gives, in the source's order, the self-parent error (an id that Python reads as true, equal to the parent id), the missing-parent error, the circular-reference error of the walk, and the deactivation error (an id, inactive, some direct child active); otherwise it passes |
| Hierarchy.Persist | book_app/models.py:53-127 | writing a draft under id `x` sets row `x` from the draft's fields and leaves every other row unchanged |
| Hierarchy.UndetectedCycleExample | book_app/models.py:23-27 | on the forest Fiction (1) over Mystery (2), giving Fiction the parent Mystery passes `clean` yet puts Fiction on a cycle; the corrected check rejects the same draft |
| Hierarchy.ValidateParentAssignment | book_app/models.py:17-27 | the corrected walk ends on every well-formed table; `None` passes; otherwise it fails exactly when the chain from the parent never reaches a root (it runs into a cycle) or the category itself is the parent or one of its ancestors |
| Hierarchy.LoopAboveVerseChain | book_app/models.py:24-27 | on the table where Drama and Poetry are each other's parent and Verse sits under Drama, every step up from Verse lands on Drama or Poetry |
| Hierarchy.LoopAboveVerseExample | book_app/models.py:17-27 | on that table the source's walk from Verse never ends, while the corrected check ends and rejects Verse as a parent |
| Hierarchy.CorrectedVerdict | book_app/models.py:90-102 | the verdict of the corrected `clean`: the source's checks in the source's order, with the circular-reference error given for every parent whose chain runs into a cycle or contains the category |
| Hierarchy.CleanCorrected | book_app/models.py:90-102 | `clean` with the corrected walk: the same errors in the same order, with the circular-reference error extended to parents whose chain runs into any cycle or contains the category |
| Hierarchy.AbsentIsNoAncestor | book_app/models.py:23-27 | an id that is not stored is never on the chain of a stored row, so a new category can never close a cycle |
| Hierarchy.CorrectedSaveKeepsForest | book_app/models.py:90-102 | writing a draft that the corrected `clean` accepts, as an update of its own row or as an insert under a fresh id, keeps the table a forest |
| Hierarchy.RecheckUnchanged | book_app/models.py:90-102 | re-running `clean` on a stored row of a forest, unchanged, passes under both walks unless the row is inactive with an active direct child |
| Hierarchy.DeactivationScenario | book_app/models.py:100-102 | deactivating Electronics fails while its child Laptops is active, and passes once Laptops is inactive |
| Hierarchy.GrandchildrenNotInspected | book_app/models.py:100-102 | an active grandchild under an inactive child does not block deactivating the grandparent |
| Hierarchy.SelfParentRuleMatchesConstraint | book_app/models.py:93-94 | `clean` fails with the self-parent error exactly when the draft has a non-zero id and breaks `prevent_self_parent` |
| Hierarchy.ForestMeetsSelfParentCheck | book_app/models.py:122-127 | every row of a forest meets the `prevent_self_parent` check constraint |
| Traversal.Depth | book_app/models.py:104-108 | a chain that reaches a root has a unique length, at least 1, counting the category itself |
| Traversal.DepthStep | book_app/models.py:106-107 | a child sits exactly one level below its parent |
| Traversal.FullPath | book_app/models.py:104-108 | `get_full_path`: a root's path is its name; otherwise the parent's path, `" > "` and the own name |
| Traversal.FullPathJoinsChain | book_app/models.py:104-108 | `get_full_path` is the names of the chain, root first, joined by `" > "`, and the last of those names is the category's own |
| Traversal.FullPathSeparators | book_app/models.py:104-108 | when no stored name contains `>`, the full path holds exactly one separator per ancestor |
| Traversal.Children | book_app/models.py:113 | `self.subcategories.all()`: the stored rows whose parent is the category |
| Traversal.ChildFacts | book_app/models.py:113-115 | a direct child of a category off every cycle is itself off every cycle, and has strictly fewer descendants |
| Traversal.CoveredChildren | book_app/models.py:110-116 | the descendants of a category are its direct children together with their descendants |
| Traversal.AllSubcategories | book_app/models.py:110-116 | for every order of siblings, the listing holds each proper descendant exactly once, and each child is followed at once by its own descendants (pre-order) |
| CategoryStore.StoredPathSeparators | book_app/models.py:104-108 | in a valid category table every stored category has a full path, with one `>` per ancestor |
| CategoryStore.SaveKeepsInvariant | book_app/models.py:53-127 | an accepted, validated draft written under its own or a fresh id keeps the table a forest of valid names |
| CategoryStore.CategoryTable.Save | book_app/models.py:53-127 | as `full_clean` then `save`: the save is refused exactly when the name fails its validators or the corrected `clean` fails; the refusal reports the name's errors and the `clean` error together, and leaves the table unchanged; otherwise it writes the draft's row and keeps the forest invariant |
| CategoryStore.CategoryTable.Write | book_app/models.py:53-127 | writing an accepted row keeps the invariant and moves the id counter past the written id |
| CategoryStore.CategoryTable.constructor | book_app/models.py:53-127 | the empty table meets the invariant |
| Books.IsLongBook | book_app/models.py:163-167 | true exactly when the page count is present and above 500; a long book always meets `page_count_positive` |
| Books.IsbnWellFormed | book_app/models.py:178 | the check constraint `isbn_length`: the ISBN is exactly thirteen digits |
| Books.RatingInRange | book_app/models.py:179 | the check constraint `rating_range`: the rating lies in 0 to 5, or is NULL |
| Books.PriceNonNegative | book_app/models.py:180 | the check constraint `price_non_negative`: the price is at least 0, or is NULL |
| Books.PageCountPositive | book_app/models.py:182-183 | the check constraint `page_count_positive`: at least one page, or no page count |
| Books.LanguageAllowed | book_app/models.py:130-151 | the `language` field's choices: one of EN, FR, ES, DE, ZH, JA and AR |
| Books.BookTableUnique | book_app/models.py:177 | `unique_book` on (title, author), together with the unique `isbn` column of line 144: no two stored books share either |
| Books.ReviewRatingInRange | book_app/models.py:248-249 | the check constraint `review_rating_range`: a review's rating lies in 1 to 5 |
| Books.AppendKeepsUnique | book_app/models.py:177 | adding a book keeps `unique_book` and the unique ISBN column of line 144 exactly when no stored book shares its (title, author) pair or its ISBN |
| BookCategories.CleanPrimary | book_app/models.py:207-210 | `clean` fails, with the multiple-primary error, exactly when the row is primary and another row of the same book, with a different pk, is primary; a non-primary row always passes |
| BookCategories.Upsert | book_app/models.py:212-214 | the write replaces the row with the same pk, or appends the row; afterwards the table holds the new row and every old row with another pk, and keys stay distinct |
| BookCategories.AtMostOnePrimary | book_app/models.py:225-230 | the constraint `unique_primary_category_per_book`: no two rows of one book are both primary |
| BookCategories.UniquePairs | book_app/models.py:218 | `unique_together`: no two rows share a (book, category) pair |
| BookCategories.RelevanceInRange | book_app/models.py:223-224 | the check constraint `relevance_score_range`: every score lies in 0 to 10 |
| BookCategories.CleanDecidesPrimaryRule | book_app/models.py:207-214 | on a table with at most one primary row per book, writing a row keeps that rule exactly when `clean` would let the row through |
| BookCategories.PrimarySwapScenario | book_app/models.py:207-214 | with a primary Sci-Fi link, a primary Thriller link is refused; after Sci-Fi is saved as non-primary, the Thriller link passes and the table meets every constraint |
| BookCategories.BookCategoryTable.Save | book_app/models.py:212-230 | `clean` runs before the write: the multiple-primary error comes exactly from `clean`, the database refuses only tables that break `unique_together` or the relevance range, a refusal leaves the table unchanged, and every successful save keeps at most one primary row per book |
| BookCategories.BookCategoryTable.Write | book_app/models.py:212-230 | writing a row that meets the constraints keeps the table's invariant and moves the key counter past the row's key |
| BookCategories.BookCategoryTable.constructor | book_app/models.py:196-230 | the empty link table meets the invariant |

## Left out

- Django persistence, querysets, `auto_now`/`auto_now_add` timestamps, image uploads, slugs, descriptions and `display_order`: the rules modelled read none of them.
- `book_app/serializers.py`, `book_app/views.py` and `book_app/urls.py` are not part of this model. They are framework glue with no rules of their own. The serializers copy each model field's validators, so API input runs them; they do not call `Category.clean`.
- Database ordering (`ordering` on each model) and indexes. `Traversal.AllSubcategories` takes the siblings in any order and is proved for every order.
- Concurrency: the gap between `clean` and the write in `save` is not modelled. Each save is one sequential step.
- Translated error messages: each error is a constructor of an error datatype.
- Float and decimal columns (`rating`, `price`, `relevance_score`) are `real`, and only compared. No float arithmetic is modelled.
- The ISBN pattern `^\d{13}$` is modelled with ASCII digits only. Python's and some databases' `\d` also match other Unicode digits.
- The field validators of the book's rating, the link's relevance, the book's language choices and the review's rating appear as predicates. `full_clean` and the serializers run them; neither caller is part of this model.
- Foreign keys from links to books and categories, `on_delete` (`SET_NULL`, `CASCADE`) and deletion are not modelled.
- `get_authors_display` and `__str__` are string formatting over related rows, and are left out.
- Hierarchy.ValidateHierarchicalIntegrity: requires that the walk stops. The source loop runs forever otherwise, and `Chains.WalkDivergesExactly` states exactly when that happens.
- Hierarchy.Clean: requires the same when the walk is reached, for the same reason.
- Traversal.FullPath: requires that the chain reaches a root. On a cycle the source's recursion raises `RecursionError`, and that error is not modelled. Neither is the `RecursionError` of a chain deeper than Python's recursion limit.
- Traversal.AllSubcategories: requires that the category is off every cycle. Otherwise the source's recursion raises `RecursionError`, which is not modelled. Neither is Python's recursion limit on a deep tree.
- Django's `Model.save` does not call `Category.clean`. `CategoryStore.CategoryTable.Save` models the path that runs the field validators and `clean` first, and it uses the corrected walk.
- CategoryStore.CategoryTable.Save: the `parent` field's own foreign-key validation is not modelled. A missing parent is reported by `clean` as a missing-parent error.
- CategoryNames.ValidateName: stops at the blank check and then lists each failing validator once. Django's full error aggregation (including the `max_length` message order) is simplified.
- BookCategories.BookCategoryTable.Save: the key counter is moved past any key written explicitly. A database sequence may not do this.
- The check constraint `prevent_self_parent` is stated as a predicate and proved of every forest. The category table keeps a forest, so it never writes a row that breaks the constraint.

## Findings

| source | as written | input that shows it | evidently intended | confidence | as-written member | corrected member |
|---|---|---|---|---|---|---|
| book_app/models.py:23-27 | the walk compares each node's parent with the new parent only, never with the category being saved | Fiction (1, root), Mystery (2, parent 1); saving Fiction with parent Mystery passes and makes the cycle 1 → 2 → 1 | reject a parent whose chain contains the category being saved | high, not executed | Hierarchy.UndetectedCycleExample | Hierarchy.CorrectedSaveKeepsForest |
| book_app/models.py:24-27 | the loop only stops at a root or at a node whose parent is the start | Drama (1) and Poetry (2) each other's parent, Verse (3) under Drama; `validate_hierarchical_integrity(Verse)` never returns | the walk ends on every table, reporting any cycle it meets | high, not executed | Hierarchy.LoopAboveVerseExample | Hierarchy.ValidateParentAssignment |
