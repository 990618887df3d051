/** The category hierarchy checks of book_app/models.py:
    `validate_hierarchical_integrity` (lines 17-27) and `Category.clean`
    (lines 90-102), together with the database constraint
    `prevent_self_parent` (lines 122-127).

    Both checks read the persisted table `s`; the category being saved is a
    draft whose fields may differ from its stored row. */
module Hierarchy {
  import opened Wrappers
  import opened Chains

  /** The in-memory category instance that `clean` is called on. */
  datatype CategoryDraft = CategoryDraft(id: Option<Id>, name: string, parent: Option<Id>, active: bool)

  datatype CategoryError =
    | SelfParent            // "A category cannot be its own parent."
    | ParentDoesNotExist    // `self.parent` names no stored row
    | CircularReference     // raised by validate_hierarchical_integrity
    | ActiveSubcategories   // "Cannot deactivate a category that has active subcategories."

  /** Python truthiness of `self.id`: absent and 0 both count as false. */
  predicate HasId(d: CategoryDraft)
  {
    d.id.Some? && d.id.value != 0
  }

  /** `self.subcategories.filter(is_active=True).exists()`: some stored row
      whose parent is `x` is active. */
  predicate HasActiveChild(s: Categories, x: Id)
  {
    exists c :: c in s && s[c].parent == Some(x) && s[c].active
  }

  /** The check constraint `prevent_self_parent`, `~Q(id=F('parent'))`.
      SQL passes a check whose comparison is NULL, so a root always passes. */
  predicate PreventSelfParent(id: Id, parent: Option<Id>)
  {
    parent != Some(id)
  }

  /** `validate_hierarchical_integrity(parent)`: walks the stored ancestor
      chain from `parent` and fails when some node's parent link is `parent`.
      The source's loop runs forever when the chain enters a cycle that
      avoids `parent` (see Chains.WalkDivergesExactly); this method is
      defined for the inputs on which it stops. It fails exactly when
      `parent` lies on a cycle. */
  method ValidateHierarchicalIntegrity(s: Categories, parent: Option<Id>) returns (r: Outcome<CategoryError>)
    requires WellFormed(s)
    requires parent.Some? ==> parent.value in s && WalkEnds(s, parent.value)
    ensures r == (if parent.Some? && OnCycle(s, parent.value) then Fail(CircularReference) else Pass)
  {
    if parent.None? {
      return Pass;
    }
    var p := parent.value;
    ghost var n: nat :| Anc(s, p, n) == None || (0 < n && Anc(s, p, n) == Some(p));
    var current := Some(p);
    ghost var i: nat := 0;
    while current.Some?
      invariant current == Anc(s, p, i)
      invariant current.Some? ==> current.value in s
      invariant forall j: nat :: 0 < j <= i ==> Anc(s, p, j) != Some(p)
      invariant i <= n
      decreases n - i
    {
      var c := current.value;
      if s[c].parent == Some(p) {
        assert Anc(s, p, i + 1) == Some(p);
        return Fail(CircularReference);
      }
      current := s[c].parent;
      i := i + 1;
    }
    forall k: nat | 0 < k ensures Anc(s, p, k) != Some(p) {
      if k > i {
        AncAfterRoot(s, p, i, k);
      }
    }
    return Pass;
  }

  /** What `Category.clean` decides for draft `d` against the stored table. */
  ghost function CleanVerdict(s: Categories, d: CategoryDraft): Outcome<CategoryError>
  {
    if HasId(d) && d.parent == d.id then Fail(SelfParent)
    else if d.parent.Some? && d.parent.value !in s then Fail(ParentDoesNotExist)
    else if d.parent.Some? && OnCycle(s, d.parent.value) then Fail(CircularReference)
    else if HasId(d) && !d.active && HasActiveChild(s, d.id.value) then Fail(ActiveSubcategories)
    else Pass
  }

  /** The source reaches the walk, and the walk stops. */
  ghost predicate CleanStops(s: Categories, d: CategoryDraft)
  {
    !(HasId(d) && d.parent == d.id) && d.parent.Some? && d.parent.value in s ==> WalkEnds(s, d.parent.value)
  }

  /** `Category.clean`: the self-parent check, the walk from the parent, then
      the deactivation check over the direct subcategories only. */
  method Clean(s: Categories, d: CategoryDraft) returns (r: Outcome<CategoryError>)
    requires WellFormed(s) && CleanStops(s, d)
    ensures r == CleanVerdict(s, d)
  {
    if HasId(d) && d.parent == d.id {
      return Fail(SelfParent);
    }
    if d.parent.Some? {
      if d.parent.value !in s {
        return Fail(ParentDoesNotExist);
      }
      r := ValidateHierarchicalIntegrity(s, d.parent);
      if r.Fail? {
        return;
      }
    }
    if HasId(d) && !d.active && HasActiveChild(s, d.id.value) {
      return Fail(ActiveSubcategories);
    }
    return Pass;
  }

  /** Writing draft `d` into the table under id `x` (the row update or insert
      of `save`). */
  function Persist(s: Categories, x: Id, d: CategoryDraft): (t: Categories)
    ensures t.Keys == s.Keys + {x} && t[x] == Category(d.name, d.parent, d.active)
    ensures forall y :: y in s && y != x ==> t[y] == s[y]
  {
    s[x := Category(d.name, d.parent, d.active)]
  }

  /** A concrete store on which `clean` lets a cycle through. Fiction (1) is a
      root and Mystery (2) its child; saving Fiction with parent Mystery
      passes `clean`, because the walk from Mystery only asks whether some
      stored parent link points back at Mystery. The saved table has the
      cycle 1 -> 2 -> 1. The corrected check rejects the same draft. */
  lemma UndetectedCycleExample()
    ensures var s := map[1 := Category("Fiction", None, true), 2 := Category("Mystery", Some(1), true)];
            var d := CategoryDraft(Some(1), "Fiction", Some(2), true);
            && Forest(s)
            && CleanVerdict(s, d) == Pass
            && OnCycle(Persist(s, 1, d), 1)
            && CorrectedVerdict(s, d) == Fail(CircularReference)
  {
    var s := map[1 := Category("Fiction", None, true), 2 := Category("Mystery", Some(1), true)];
    var d := CategoryDraft(Some(1), "Fiction", Some(2), true);
    assert Anc(s, 1, 1) == None;
    assert Anc(s, 2, 2) == None;
    RootedNotOnCycle(s, 2);
    var t := Persist(s, 1, d);
    assert Anc(t, 1, 1) == Some(2);
    assert Anc(t, 1, 2) == Some(1);
    assert Anc(s, 2, 1) == Some(1);
  }

  /** The corrected walk: the source's loop, which also stops with a
      circular reference when it meets the category being saved, and which
      gives up after |s| steps, since a chain still going by then has run
      into a cycle. It ends on every table. */
  method ValidateParentAssignment(s: Categories, self: Option<Id>, parent: Option<Id>) returns (r: Outcome<CategoryError>)
    requires WellFormed(s)
    requires parent.Some? ==> parent.value in s
    ensures r == (if parent.Some? && (!ReachesRoot(s, parent.value) || (self.Some? && IsAncestorOrSelf(s, self.value, parent.value)))
                  then Fail(CircularReference) else Pass)
  {
    if parent.None? {
      return Pass;
    }
    var p := parent.value;
    var current := p;
    var i := 0;
    while i < |s|
      invariant i <= |s|
      invariant Anc(s, p, i) == Some(current) && current in s
      invariant self.Some? ==> forall j: nat :: j < i ==> Anc(s, p, j) != self
      decreases |s| - i
    {
      if Some(current) == self {
        return Fail(CircularReference);
      }
      match s[current].parent {
        case None =>
          assert Anc(s, p, i + 1) == None;
          if self.Some? {
            forall k: nat ensures Anc(s, p, k) != self {
              if k > i {
                AncAfterRoot(s, p, i + 1, k);
              }
            }
          }
          return Pass;
        case Some(q) =>
          if q == p {
            assert Anc(s, p, i + 1) == Some(p);
            AncestorOnCycleNeverEnds(s, p, 0);
            return Fail(CircularReference);
          }
          current := q;
          i := i + 1;
      }
    }
    LongChainNeverEnds(s, p);
    return Fail(CircularReference);
  }

  /** A table in which Drama (1) and Poetry (2) are each other's parent and
      Verse (3) sits under Drama. */
  const LoopAboveVerse: Categories :=
    map[1 := Category("Drama", Some(2), true), 2 := Category("Poetry", Some(1), true), 3 := Category("Verse", Some(1), true)]

  /** Every step up from Verse lands on Drama or Poetry. */
  lemma {:induction false} LoopAboveVerseChain(k: nat)
    requires 1 <= k
    ensures Anc(LoopAboveVerse, 3, k) == Some(1) || Anc(LoopAboveVerse, 3, k) == Some(2)
  {
    if k > 1 {
      LoopAboveVerseChain(k - 1);
    }
  }

  /** On that table the source's walk from Verse never ends, while the
      corrected walk ends and rejects Verse as a parent. */
  lemma LoopAboveVerseExample()
    ensures WellFormed(LoopAboveVerse)
    ensures !WalkEnds(LoopAboveVerse, 3)
    ensures CorrectedVerdict(LoopAboveVerse, CategoryDraft(None, "Sonnets", Some(3), true)) == Fail(CircularReference)
  {
    var s := LoopAboveVerse;
    assert Anc(s, 1, 2) == Some(1);
    assert Anc(s, 3, 1) == Some(1);
    forall k: nat | 0 < k ensures Anc(s, 3, k) != Some(3) {
      LoopAboveVerseChain(k);
    }
    CycleAboveIsMissed(s, 3, 1);
  }

  /** What the corrected `clean` decides: the source's checks, with the walk
      rejecting a parent whose chain runs into any cycle or contains the
      category itself. */
  ghost function CorrectedVerdict(s: Categories, d: CategoryDraft): Outcome<CategoryError>
  {
    if HasId(d) && d.parent == d.id then Fail(SelfParent)
    else if d.parent.Some? && d.parent.value !in s then Fail(ParentDoesNotExist)
    else if d.parent.Some? && (!ReachesRoot(s, d.parent.value) || (d.id.Some? && IsAncestorOrSelf(s, d.id.value, d.parent.value)))
      then Fail(CircularReference)
    else if HasId(d) && !d.active && HasActiveChild(s, d.id.value) then Fail(ActiveSubcategories)
    else Pass
  }

  /** The corrected `clean`, used by the category table of CategoryStore. */
  method CleanCorrected(s: Categories, d: CategoryDraft) returns (r: Outcome<CategoryError>)
    requires WellFormed(s)
    ensures r == CorrectedVerdict(s, d)
  {
    if HasId(d) && d.parent == d.id {
      return Fail(SelfParent);
    }
    if d.parent.Some? {
      if d.parent.value !in s {
        return Fail(ParentDoesNotExist);
      }
      r := ValidateParentAssignment(s, d.id, d.parent);
      if r.Fail? {
        return;
      }
    }
    if HasId(d) && !d.active && HasActiveChild(s, d.id.value) {
      return Fail(ActiveSubcategories);
    }
    return Pass;
  }

  /** A chain that avoids `x` is the same after row `x` is rewritten. */
  lemma {:induction false} AncAvoiding(s: Categories, x: Id, rec: Category, y: Id, k: nat)
    requires forall j: nat :: j < k ==> Anc(s, y, j) != Some(x)
    ensures Anc(s[x := rec], y, k) == Anc(s, y, k)
  {
    if k > 0 {
      AncAvoiding(s, x, rec, y, k - 1);
    }
  }

  /** After row `x` is rewritten, every row that reached a root still does,
      provided `x` itself does. */
  lemma {:induction false} RootedAfterRewrite(s: Categories, x: Id, rec: Category, y: Id, k: nat)
    requires Anc(s, y, k) == None
    requires ReachesRoot(s[x := rec], x)
    ensures ReachesRoot(s[x := rec], y)
    decreases k
  {
    var t := s[x := rec];
    if y != x {
      match Parent(s, y)
      case None =>
        assert Anc(t, y, 1) == None;
      case Some(z) =>
        AncShift(s, y, 1, k - 1);
        RootedAfterRewrite(s, x, rec, z, k - 1);
        var kz: nat :| Anc(t, z, kz) == None;
        AncShift(t, y, 1, kz);
        assert Anc(t, y, 1 + kz) == None;
    }
  }

  /** No stored chain contains an id that is not stored. */
  lemma AbsentIsNoAncestor(s: Categories, x: Id, p: Id)
    requires WellFormed(s) && p in s && x !in s
    ensures !IsAncestorOrSelf(s, x, p)
  {
    forall k: nat ensures Anc(s, p, k) != Some(x) {
      AncStored(s, p, k);
    }
  }

  /** The intended property of the parent check: on a forest, saving a draft
      the corrected `clean` accepts leaves a forest, whether the draft updates
      row `x` or inserts it under a fresh id. */
  lemma CorrectedSaveKeepsForest(s: Categories, x: Id, d: CategoryDraft)
    requires Forest(s)
    requires d.id == Some(x) || (d.id.None? && x !in s)
    requires CorrectedVerdict(s, d) == Pass
    ensures Forest(Persist(s, x, d))
  {
    var rec := Category(d.name, d.parent, d.active);
    var t := s[x := rec];
    assert t == Persist(s, x, d);
    match d.parent {
      case None =>
        assert Anc(t, x, 1) == None;
      case Some(p) =>
        if d.id.None? {
          AbsentIsNoAncestor(s, x, p);
        }
        var kp: nat :| Anc(s, p, kp) == None;
        AncAvoiding(s, x, rec, p, kp);
        AncShift(t, x, 1, kp);
        assert Anc(t, x, 1 + kp) == None;
    }
    forall y | y in t ensures ReachesRoot(t, y) {
      if y != x {
        var k: nat :| Anc(s, y, k) == None;
        RootedAfterRewrite(s, x, rec, y, k);
      }
    }
  }

  /** Re-checking a stored row without changes: on a forest the parent checks
      always pass, as-written and corrected alike; only the deactivation rule
      can still fail, when an active child was saved under an inactive row. */
  lemma RecheckUnchanged(s: Categories, x: Id)
    requires Forest(s) && x in s
    ensures var d := CategoryDraft(Some(x), s[x].name, s[x].parent, s[x].active);
            var expected := if x != 0 && !s[x].active && HasActiveChild(s, x) then Fail(ActiveSubcategories) else Pass;
            CleanVerdict(s, d) == expected && CorrectedVerdict(s, d) == expected
  {
    match s[x].parent {
      case None =>
      case Some(p) =>
        assert Anc(s, x, 1) == Some(p);
        RootedNotOnCycle(s, x);
        RootedNotOnCycle(s, p);
        if IsAncestorOrSelf(s, x, p) {
          var k: nat :| Anc(s, p, k) == Some(x);
          AncShift(s, x, 1, k);
          assert false;
        }
    }
  }

  /** Electronics (1) has the active child Laptops (2): deactivating
      Electronics fails; once Laptops has been saved inactive, it passes. */
  lemma DeactivationScenario()
    ensures var s := map[1 := Category("Electronics", None, true), 2 := Category("Laptops", Some(1), true)];
            var off := CategoryDraft(Some(1), "Electronics", None, false);
            var t := Persist(s, 2, CategoryDraft(Some(2), "Laptops", Some(1), false));
            CleanVerdict(s, off) == Fail(ActiveSubcategories) && CleanVerdict(t, off) == Pass
  {
    var s := map[1 := Category("Electronics", None, true), 2 := Category("Laptops", Some(1), true)];
    assert s[2].parent == Some(1) && s[2].active;
    var t := Persist(s, 2, CategoryDraft(Some(2), "Laptops", Some(1), false));
    assert t.Keys == {1, 2};
  }

  /** Only direct subcategories are inspected: an active grandchild does not
      stop the deactivation of its grandparent. */
  lemma GrandchildrenNotInspected()
    ensures var s := map[1 := Category("Electronics", None, true),
                         2 := Category("Laptops", Some(1), false),
                         3 := Category("Gaming", Some(2), true)];
            && IsProperAncestor(s, 1, 3) && s[3].active
            && CleanVerdict(s, CategoryDraft(Some(1), "Electronics", None, false)) == Pass
  {
    var s := map[1 := Category("Electronics", None, true),
                 2 := Category("Laptops", Some(1), false),
                 3 := Category("Gaming", Some(2), true)];
    assert s.Keys == {1, 2, 3};
    assert Anc(s, 3, 1) == Some(2);
    assert Anc(s, 3, 2) == Some(1);
  }

  /** `clean` refuses a self-parent exactly where `prevent_self_parent`
      would, except for id 0, which Python reads as no id at all. */
  lemma SelfParentRuleMatchesConstraint(s: Categories, d: CategoryDraft)
    ensures CleanVerdict(s, d) == Fail(SelfParent) <==>
              d.id.Some? && d.id.value != 0 && !PreventSelfParent(d.id.value, d.parent)
  {
  }

  /** Every row of a forest meets `prevent_self_parent`: a row that is its own
      parent is a cycle of length one. */
  lemma ForestMeetsSelfParentCheck(s: Categories)
    requires Forest(s)
    ensures forall x :: x in s ==> PreventSelfParent(x, s[x].parent)
  {
    forall x | x in s ensures PreventSelfParent(x, s[x].parent) {
      RootedNotOnCycle(s, x);
      assert s[x].parent == Some(x) ==> Anc(s, x, 1) == Some(x);
    }
  }
}
