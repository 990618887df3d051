/** The category table and its parent relation, seen as chains of ancestors.

    The table is a finite map from category id to the persisted row. A row's
    `parent` is the self-referential foreign key of book_app/models.py. Every
    property of the hierarchy is stated through `Anc(s, x, k)`, the k-th node
    of the chain that starts at `x` and follows parent links. */
module Chains {
  import opened Wrappers

  type Id = nat

  /** A persisted category row: the fields the validation logic reads. */
  datatype Category = Category(name: string, parent: Option<Id>, active: bool)

  type Categories = map<Id, Category>

  /** The foreign key holds: every parent reference names a stored row. */
  ghost predicate WellFormed(s: Categories)
  {
    forall x :: x in s && s[x].parent.Some? ==> s[x].parent.value in s
  }

  /** The parent link of `x`, as `x.parent_id` reads it. */
  function Parent(s: Categories, x: Id): Option<Id>
  {
    if x in s then s[x].parent else None
  }

  /** The k-th node of the ancestor chain from `x`: `x` itself at k = 0,
      `None` once the chain has stepped past a root. */
  ghost function Anc(s: Categories, x: Id, k: nat): Option<Id>
  {
    if k == 0 then Some(x)
    else match Anc(s, x, k - 1)
      case None => None
      case Some(y) => Parent(s, y)
  }

  /** `x` lies on a cycle of parent links: following parents leads back to `x`. */
  ghost predicate OnCycle(s: Categories, x: Id)
  {
    exists k: nat :: 0 < k && Anc(s, x, k) == Some(x)
  }

  /** Following parents from `x` reaches a root after finitely many steps. */
  ghost predicate ReachesRoot(s: Categories, x: Id)
  {
    exists k: nat :: Anc(s, x, k) == None
  }

  /** `a` is `x` or one of its ancestors. */
  ghost predicate IsAncestorOrSelf(s: Categories, a: Id, x: Id)
  {
    exists k: nat :: Anc(s, x, k) == Some(a)
  }

  /** `a` is a proper ancestor of `y`: `y` is a descendant of `a`. */
  ghost predicate IsProperAncestor(s: Categories, a: Id, y: Id)
  {
    exists k: nat :: 0 < k && Anc(s, y, k) == Some(a)
  }

  /** The categories form a forest: every chain ends at a root. */
  ghost predicate Forest(s: Categories)
  {
    WellFormed(s) && forall x :: x in s ==> ReachesRoot(s, x)
  }

  /** The walk of validate_hierarchical_integrity started at `p` stops:
      either the chain reaches a root or it comes back to `p`. */
  ghost predicate WalkEnds(s: Categories, p: Id)
  {
    ReachesRoot(s, p) || OnCycle(s, p)
  }

  /** The chain from a stored row stays inside the table. */
  lemma {:induction false} AncStored(s: Categories, x: Id, k: nat)
    requires WellFormed(s) && x in s
    ensures Anc(s, x, k).Some? ==> Anc(s, x, k).value in s
  {
    if k > 0 {
      AncStored(s, x, k - 1);
    }
  }

  /** Once the chain has passed a root it stays ended. */
  lemma {:induction false} AncAfterRoot(s: Categories, x: Id, j: nat, k: nat)
    requires j <= k && Anc(s, x, j) == None
    ensures Anc(s, x, k) == None
    decreases k - j
  {
    if j < k {
      AncAfterRoot(s, x, j, k - 1);
    }
  }

  /** Walking i steps and then j steps is walking i + j steps. */
  lemma {:induction false} AncShift(s: Categories, x: Id, i: nat, j: nat)
    requires Anc(s, x, i).Some?
    ensures Anc(s, x, i + j) == Anc(s, Anc(s, x, i).value, j)
  {
    if j > 0 {
      AncShift(s, x, i, j - 1);
    }
  }

  /** A node on a cycle has an endless chain: no root is ever reached. */
  lemma {:induction false} CycleNeverEnds(s: Categories, x: Id, c: nat, j: nat)
    requires 0 < c && Anc(s, x, c) == Some(x)
    ensures Anc(s, x, j).Some?
    decreases j
  {
    if j < c {
      if Anc(s, x, j).None? {
        AncAfterRoot(s, x, j, c);
      }
    } else {
      CycleNeverEnds(s, x, c, j - c);
      AncShift(s, x, c, j - c);
    }
  }

  /** A node whose chain reaches a root is not on a cycle. */
  lemma RootedNotOnCycle(s: Categories, x: Id)
    requires ReachesRoot(s, x)
    ensures !OnCycle(s, x)
  {
    if OnCycle(s, x) {
      var k: nat :| Anc(s, x, k) == None;
      var c: nat :| 0 < c && Anc(s, x, c) == Some(x);
      CycleNeverEnds(s, x, c, k);
    }
  }

  /** On a forest, the walk from any stored category stops at a root and
      never finds a cycle. */
  lemma ForestWalkEnds(s: Categories, p: Id)
    requires Forest(s) && p in s
    ensures WalkEnds(s, p) && !OnCycle(s, p)
  {
    RootedNotOnCycle(s, p);
  }

  /** The ids found at positions 0 .. n-1 of the chain from `x`. */
  ghost function ChainIds(s: Categories, x: Id, n: nat): set<Id>
  {
    if n == 0 then {}
    else ChainIds(s, x, n - 1) + (if Anc(s, x, n - 1).Some? then {Anc(s, x, n - 1).value} else {})
  }

  /** Every id in `ChainIds(s, x, n)` sits at some position below n. */
  lemma {:induction false} ChainIdsMembers(s: Categories, x: Id, n: nat, y: Id)
    requires y in ChainIds(s, x, n)
    ensures exists i: nat :: i < n && Anc(s, x, i) == Some(y)
  {
    if y !in ChainIds(s, x, n - 1) {
      assert Anc(s, x, n - 1) == Some(y);
    } else {
      ChainIdsMembers(s, x, n - 1, y);
      var i: nat :| i < n - 1 && Anc(s, x, i) == Some(y);
      assert i < n;
    }
  }

  /** Distinct, defined chain positions give as many ids as positions. */
  lemma {:induction false} ChainIdsCard(s: Categories, x: Id, n: nat)
    requires forall i: nat :: i < n ==> Anc(s, x, i).Some?
    requires forall i: nat, j: nat :: i < j < n ==> Anc(s, x, i) != Anc(s, x, j)
    ensures |ChainIds(s, x, n)| == n
  {
    if n > 0 {
      ChainIdsCard(s, x, n - 1);
      var y := Anc(s, x, n - 1).value;
      if y in ChainIds(s, x, n - 1) {
        ChainIdsMembers(s, x, n - 1, y);
        assert false;
      }
      assert ChainIds(s, x, n) == ChainIds(s, x, n - 1) + {y};
    }
  }

  /** A subset is no larger than its superset. */
  lemma {:induction false} SubsetCard(a: set<Id>, b: set<Id>)
    requires a <= b
    ensures |a| <= |b|
    decreases |b|
  {
    if a != {} {
      var y :| y in a;
      SubsetCard(a - {y}, b - {y});
    }
  }

  /** Pigeonhole: |s| + 1 stored nodes on one chain include a repetition,
      at positions i < j. */
  lemma PigeonholeOnChain(s: Categories, x: Id) returns (i: nat, j: nat)
    requires forall k: nat :: k <= |s| ==> Anc(s, x, k).Some? && Anc(s, x, k).value in s
    ensures i < j <= |s| && Anc(s, x, i) == Anc(s, x, j)
  {
    if forall a: nat, b: nat :: a < b <= |s| ==> Anc(s, x, a) != Anc(s, x, b) {
      ChainIdsCard(s, x, |s| + 1);
      forall y | y in ChainIds(s, x, |s| + 1) ensures y in s.Keys {
        ChainIdsMembers(s, x, |s| + 1, y);
      }
      SubsetCard(ChainIds(s, x, |s| + 1), s.Keys);
      assert false;
    }
    i, j :| i < j <= |s| && Anc(s, x, i) == Anc(s, x, j);
  }

  /** A chain that never reaches a root stays among the stored rows. */
  lemma EndlessChainStored(s: Categories, p: Id)
    requires WellFormed(s) && p in s && !ReachesRoot(s, p)
    ensures forall i: nat :: i <= |s| ==> Anc(s, p, i).Some? && Anc(s, p, i).value in s
  {
    forall i: nat | i <= |s| ensures Anc(s, p, i).Some? && Anc(s, p, i).value in s {
      AncStored(s, p, i);
    }
  }

  /** A node met twice along a chain lies on a cycle. */
  lemma RepeatIsCycle(s: Categories, p: Id, i: nat, j: nat)
    requires i < j && Anc(s, p, i).Some? && Anc(s, p, i) == Anc(s, p, j)
    ensures OnCycle(s, Anc(s, p, i).value)
  {
    var a := Anc(s, p, i).value;
    AncShift(s, p, i, j - i);
    assert Anc(s, a, j - i) == Some(a);
  }

  /** A chain that never reaches a root runs into a cycle: some ancestor of
      `p` (possibly `p` itself) lies on a cycle. */
  lemma DivergentWalkEntersCycle(s: Categories, p: Id)
    requires WellFormed(s) && p in s && !ReachesRoot(s, p)
    ensures exists m: nat :: Anc(s, p, m).Some? && OnCycle(s, Anc(s, p, m).value)
  {
    EndlessChainStored(s, p);
    var i, j := PigeonholeOnChain(s, p);
    RepeatIsCycle(s, p, i, j);
  }

  /** A chain that meets a cycle never reaches a root. */
  lemma AncestorOnCycleNeverEnds(s: Categories, p: Id, m: nat)
    requires Anc(s, p, m).Some? && OnCycle(s, Anc(s, p, m).value)
    ensures !ReachesRoot(s, p)
  {
    var a := Anc(s, p, m).value;
    var c: nat :| 0 < c && Anc(s, a, c) == Some(a);
    forall k: nat ensures Anc(s, p, k).Some? {
      if k <= m {
        if Anc(s, p, k).None? {
          AncAfterRoot(s, p, k, m);
        }
      } else {
        CycleNeverEnds(s, a, c, k - m);
        AncShift(s, p, m, k - m);
      }
    }
  }

  /** A chain of stored rows still going after |s| steps never reaches a
      root: |s| steps are enough to decide whether a walk ends. */
  lemma LongChainNeverEnds(s: Categories, p: Id)
    requires WellFormed(s) && p in s && Anc(s, p, |s|).Some?
    ensures !ReachesRoot(s, p)
  {
    forall k: nat | k <= |s| ensures Anc(s, p, k).Some? && Anc(s, p, k).value in s {
      if Anc(s, p, k).None? {
        AncAfterRoot(s, p, k, |s|);
      }
      AncStored(s, p, k);
    }
    var i, j := PigeonholeOnChain(s, p);
    RepeatIsCycle(s, p, i, j);
    AncestorOnCycleNeverEnds(s, p, i);
  }

  /** The cycles the walk misses: if some ancestor of `p` lies on a cycle
      that avoids `p`, the chain never reaches a root nor returns to `p`. */
  lemma CycleAboveIsMissed(s: Categories, p: Id, m: nat)
    requires Anc(s, p, m).Some? && OnCycle(s, Anc(s, p, m).value) && !OnCycle(s, p)
    ensures !WalkEnds(s, p)
  {
    AncestorOnCycleNeverEnds(s, p, m);
  }

  /** Exactly which cycles stop the walk from `p`: it ends unless an
      ancestor of `p` lies on a cycle that avoids `p`. */
  lemma WalkDivergesExactly(s: Categories, p: Id)
    requires WellFormed(s) && p in s
    ensures !WalkEnds(s, p) <==>
              !OnCycle(s, p) && exists m: nat :: Anc(s, p, m).Some? && OnCycle(s, Anc(s, p, m).value)
  {
    if !WalkEnds(s, p) {
      DivergentWalkEntersCycle(s, p);
    } else if !OnCycle(s, p) && exists m: nat :: Anc(s, p, m).Some? && OnCycle(s, Anc(s, p, m).value) {
      var m: nat :| Anc(s, p, m).Some? && OnCycle(s, Anc(s, p, m).value);
      CycleAboveIsMissed(s, p, m);
    }
  }
}
