/** The derived read operations of `Category` (book_app/models.py:104-116):
    `get_full_path`, recursive over the parent link, and
    `get_all_subcategories`, a loop over the direct subcategories that
    appends each one and then extends the result with its own listing. */
module Traversal {
  import opened Wrappers
  import opened Chains

  /** `m` is the number of categories on the chain from `x` to its root,
      `x` and the root included. */
  ghost predicate IsDepth(s: Categories, x: Id, m: nat)
  {
    Anc(s, x, m) == None && forall j: nat :: j < m ==> Anc(s, x, j).Some?
  }

  lemma {:induction false} DepthExists(s: Categories, x: Id, k: nat)
    requires Anc(s, x, k) == None
    ensures exists m: nat :: IsDepth(s, x, m)
    decreases k
  {
    if !IsDepth(s, x, k) {
      var j: nat :| j < k && Anc(s, x, j).None?;
      DepthExists(s, x, j);
    }
  }

  lemma DepthUnique(s: Categories, x: Id, m1: nat, m2: nat)
    requires IsDepth(s, x, m1) && IsDepth(s, x, m2)
    ensures m1 == m2
  {
  }

  /** The length of the chain from `x` to its root. */
  ghost function Depth(s: Categories, x: Id): (m: nat)
    requires ReachesRoot(s, x)
    ensures IsDepth(s, x, m) && m >= 1
  {
    var k: nat :| Anc(s, x, k) == None;
    DepthExists(s, x, k);
    var m: nat :| IsDepth(s, x, m);
    m
  }

  /** A child is one level deeper than its parent. */
  lemma DepthStep(s: Categories, x: Id, p: Id)
    requires ReachesRoot(s, x) && Parent(s, x) == Some(p)
    ensures ReachesRoot(s, p) && Depth(s, x) == Depth(s, p) + 1
  {
    var m := Depth(s, x);
    assert Anc(s, x, 1) == Some(p);
    AncShift(s, x, 1, m - 1);
    forall j: nat | j < m - 1 ensures Anc(s, p, j).Some? {
      AncShift(s, x, 1, j);
    }
    assert IsDepth(s, p, m - 1);
    DepthUnique(s, p, m - 1, Depth(s, p));
  }

  const Separator: string := " > "

  /** `get_full_path`: the parent's path, the separator and the own name; a
      root's path is its name. The source's recursion raises `RecursionError`
      when the chain never reaches a root; the precondition excludes that
      case. */
  function FullPath(s: Categories, x: Id): string
    requires WellFormed(s) && x in s && ReachesRoot(s, x)
    decreases Depth(s, x)
  {
    match s[x].parent
    case None => s[x].name
    case Some(p) =>
      DepthStep(s, x, p);
      FullPath(s, p) + Separator + s[x].name
  }

  function NameAt(s: Categories, a: Option<Id>): string
  {
    if a.Some? && a.value in s then s[a.value].name else ""
  }

  /** The names along the ancestor chain, root first and `x` last. */
  ghost function PathNames(s: Categories, x: Id): (names: seq<string>)
    requires ReachesRoot(s, x)
    ensures |names| == Depth(s, x)
  {
    var d := Depth(s, x);
    seq(d, i requires 0 <= i < d => NameAt(s, Anc(s, x, d - 1 - i)))
  }

  /** `" > ".join(parts)`. */
  function Join(parts: seq<string>): string
  {
    if |parts| == 0 then ""
    else if |parts| == 1 then parts[0]
    else Join(parts[..|parts| - 1]) + Separator + parts[|parts| - 1]
  }

  /** The full path is the names of the ancestor chain, root first, joined
      by the separator; it ends with the category's own name. */
  lemma {:induction false} FullPathJoinsChain(s: Categories, x: Id)
    requires WellFormed(s) && x in s && ReachesRoot(s, x)
    ensures PathNames(s, x)[Depth(s, x) - 1] == s[x].name
    ensures FullPath(s, x) == Join(PathNames(s, x))
    decreases Depth(s, x)
  {
    assert Anc(s, x, 0) == Some(x);
    assert PathNames(s, x)[Depth(s, x) - 1] == NameAt(s, Anc(s, x, 0));
    match s[x].parent
    case None =>
      assert Anc(s, x, 1) == None;
      DepthUnique(s, x, 1, Depth(s, x));
      assert PathNames(s, x) == [s[x].name];
    case Some(p) =>
      DepthStep(s, x, p);
      FullPathJoinsChain(s, p);
      var nx := PathNames(s, x);
      var np := PathNames(s, p);
      forall i | 0 <= i < |np| ensures nx[i] == np[i] {
        AncShift(s, x, 1, Depth(s, p) - 1 - i);
      }
      assert nx[..|nx| - 1] == np;
  }

  /** How often `c` occurs in `t`. */
  function CountChar(t: string, c: char): nat
  {
    if |t| == 0 then 0 else (if t[0] == c then 1 else 0) + CountChar(t[1..], c)
  }

  lemma {:induction false} CountCharConcat(a: string, b: string, c: char)
    ensures CountChar(a + b, c) == CountChar(a, c) + CountChar(b, c)
  {
    if |a| == 0 {
      assert a + b == b;
    } else {
      assert (a + b)[1..] == a[1..] + b;
      CountCharConcat(a[1..], b, c);
    }
  }

  lemma {:induction false} CountCharAbsent(t: string, c: char)
    requires forall i :: 0 <= i < |t| ==> t[i] != c
    ensures CountChar(t, c) == 0
  {
    if |t| > 0 {
      CountCharAbsent(t[1..], c);
    }
  }

  /** When no stored name contains `>`, the full path holds one separator
      per ancestor. */
  lemma {:induction false} FullPathSeparators(s: Categories, x: Id)
    requires WellFormed(s) && x in s && ReachesRoot(s, x)
    requires forall y, i :: y in s && 0 <= i < |s[y].name| ==> s[y].name[i] != '>'
    ensures CountChar(FullPath(s, x), '>') == Depth(s, x) - 1
    decreases Depth(s, x)
  {
    CountCharAbsent(s[x].name, '>');
    match s[x].parent
    case None =>
      assert Anc(s, x, 1) == None;
      DepthUnique(s, x, 1, Depth(s, x));
    case Some(p) =>
      DepthStep(s, x, p);
      FullPathSeparators(s, p);
      CountCharConcat(FullPath(s, p), Separator, '>');
      CountCharConcat(FullPath(s, p) + Separator, s[x].name, '>');
      assert CountChar(Separator, '>') == 1;
  }

  /** `self.subcategories.all()`: the stored rows whose parent is `x`. */
  function Children(s: Categories, x: Id): set<Id>
  {
    set c | c in s && s[c].parent == Some(x)
  }

  /** The proper descendants of `x` among the stored rows. */
  ghost function Descendants(s: Categories, x: Id): set<Id>
  {
    set y | y in s && IsProperAncestor(s, x, y)
  }

  /** The categories a listing covers after the children in `cs` were done:
      each child together with its descendants. */
  ghost function Covered(s: Categories, cs: set<Id>): set<Id>
  {
    set y | y in s && exists c :: c in cs && (y == c || y in Descendants(s, c))
  }

  function Elems(r: seq<Id>): set<Id>
  {
    set y | y in r
  }

  predicate Distinct(r: seq<Id>)
  {
    forall i, j :: 0 <= i < j < |r| ==> r[i] != r[j]
  }

  /** Entry `r[i]` is followed at once by exactly its own descendants. */
  ghost predicate BlockAt(s: Categories, r: seq<Id>, i: nat)
    requires i < |r|
  {
    var n := |Descendants(s, r[i])|;
    i + n < |r| && Elems(r[i + 1 .. i + 1 + n]) == Descendants(s, r[i])
  }

  /** A pre-order listing: every entry is immediately followed by its own
      descendants. */
  ghost predicate Preorder(s: Categories, r: seq<Id>)
  {
    forall i: nat :: i < |r| ==> BlockAt(s, r, i)
  }

  lemma {:induction false} ElemsCard(r: seq<Id>)
    requires Distinct(r)
    ensures |Elems(r)| == |r|
  {
    if |r| > 0 {
      var init := r[..|r| - 1];
      ElemsCard(init);
      assert Elems(r) == Elems(init) + {r[|r| - 1]};
    }
  }

  lemma ProperSubsetCard(a: set<Id>, b: set<Id>, y: Id)
    requires a <= b && y in b && y !in a
    ensures |a| < |b|
  {
    SubsetCard(a, b - {y});
  }

  /** A child of a category that is on no cycle is on no cycle either, and
      its descendants are strictly fewer than its parent's. */
  lemma ChildFacts(s: Categories, x: Id, c: Id)
    requires c in Children(s, x) && !OnCycle(s, x)
    ensures !OnCycle(s, c)
    ensures c in Descendants(s, x) && Descendants(s, c) < Descendants(s, x)
    ensures |Descendants(s, c)| < |Descendants(s, x)|
  {
    assert Anc(s, c, 1) == Some(x);
    if OnCycle(s, c) {
      var m: nat :| 0 < m && Anc(s, c, m) == Some(c);
      AncShift(s, c, m, 1);
      AncShift(s, c, 1, m);
      assert false;
    }
    forall y | y in Descendants(s, c) ensures y in Descendants(s, x) {
      var k: nat :| 0 < k && Anc(s, y, k) == Some(c);
      AncShift(s, y, k, 1);
      assert Anc(s, y, k + 1) == Some(x);
    }
    assert c in Descendants(s, x);
    ProperSubsetCard(Descendants(s, c), Descendants(s, x), c);
  }

  /** Two different children of `x` whose subtrees meet put `x` on a cycle. */
  lemma SiblingChains(s: Categories, x: Id, c1: Id, c2: Id, y: Id, k1: nat, k2: nat)
    requires Parent(s, c1) == Some(x) && Parent(s, c2) == Some(x)
    requires Anc(s, y, k1) == Some(c1) && Anc(s, y, k2) == Some(c2) && k1 < k2
    ensures OnCycle(s, x)
  {
    var m := k2 - k1;
    AncShift(s, y, k1, m);
    assert Anc(s, c1, m) == Some(c2);
    AncShift(s, c1, m, 1);
    assert Anc(s, c1, 1) == Some(x);
    AncShift(s, c1, 1, m);
    assert Anc(s, x, m) == Some(x);
  }

  /** The subtrees of the children already listed do not meet the subtree of
      a further child. */
  lemma CoveredDisjoint(s: Categories, x: Id, done: set<Id>, c: Id)
    requires done <= Children(s, x) && c in Children(s, x) && c !in done && !OnCycle(s, x)
    ensures Covered(s, done) !! ({c} + Descendants(s, c))
  {
    forall y | y in Covered(s, done) && y in {c} + Descendants(s, c) ensures false {
      var c' :| c' in done && (y == c' || y in Descendants(s, c'));
      var k1: nat := 0;
      if y != c' {
        k1 :| 0 < k1 && Anc(s, y, k1) == Some(c');
      }
      var k2: nat := 0;
      if y != c {
        k2 :| 0 < k2 && Anc(s, y, k2) == Some(c);
      }
      assert Anc(s, y, k1) == Some(c') && Anc(s, y, k2) == Some(c);
      if k1 < k2 {
        SiblingChains(s, x, c', c, y, k1, k2);
      } else if k2 < k1 {
        SiblingChains(s, x, c, c', y, k2, k1);
      }
    }
  }

  /** The children with their subtrees cover exactly the descendants. */
  lemma CoveredChildren(s: Categories, x: Id)
    ensures Covered(s, Children(s, x)) == Descendants(s, x)
  {
    forall y | y in Covered(s, Children(s, x)) ensures y in Descendants(s, x) {
      var c :| c in Children(s, x) && (y == c || y in Descendants(s, c));
      if y == c {
        assert Anc(s, y, 1) == Some(x);
      } else {
        var k: nat :| 0 < k && Anc(s, y, k) == Some(c);
        AncShift(s, y, k, 1);
        assert Anc(s, y, k + 1) == Some(x);
      }
    }
    forall y | y in Descendants(s, x) ensures y in Covered(s, Children(s, x)) {
      var k: nat :| 0 < k && Anc(s, y, k) == Some(x);
      var c := Anc(s, y, k - 1).value;
      assert c in Children(s, x);
      if k - 1 > 0 {
        assert y in Descendants(s, c);
      }
    }
  }

  /** Appending a child and its own pre-order listing keeps a pre-order. */
  lemma PreorderAppend(s: Categories, r: seq<Id>, c: Id, sub: seq<Id>)
    requires Preorder(s, r) && Preorder(s, sub) && Distinct(sub)
    requires Elems(sub) == Descendants(s, c)
    ensures Preorder(s, r + [c] + sub)
  {
    var q := r + [c] + sub;
    ElemsCard(sub);
    forall i: nat | i < |q| ensures BlockAt(s, q, i) {
      if i < |r| {
        assert BlockAt(s, r, i);
        var n := |Descendants(s, r[i])|;
        assert q[i + 1 .. i + 1 + n] == r[i + 1 .. i + 1 + n];
      } else if i == |r| {
        assert q[i + 1 .. i + 1 + |sub|] == sub;
      } else {
        var k: nat := i - |r| - 1;
        assert BlockAt(s, sub, k);
        var n := |Descendants(s, sub[k])|;
        assert q[i + 1 .. i + 1 + n] == sub[k + 1 .. k + 1 + n];
      }
    }
  }

  lemma DistinctAppend(r: seq<Id>, c: Id, sub: seq<Id>)
    requires Distinct(r) && Distinct(sub) && c !in r && c !in sub && Elems(r) !! Elems(sub)
    ensures Distinct(r + [c] + sub)
  {
    var q := r + [c] + sub;
    forall i, j | 0 <= i < j < |q| ensures q[i] != q[j] {
      if j < |r| {
      } else if i < |r| {
        assert q[i] in Elems(r);
        if j > |r| {
          assert q[j] in Elems(sub);
        }
      } else if i == |r| {
        assert q[j] in sub;
      } else {
        assert q[i] == sub[i - |r| - 1] && q[j] == sub[j - |r| - 1];
      }
    }
  }

  lemma CoveredStep(s: Categories, done: set<Id>, c: Id)
    requires c in s
    ensures Covered(s, done + {c}) == Covered(s, done) + ({c} + Descendants(s, c))
  {
  }

  /** One turn of the listing loop keeps its invariant. */
  lemma ListingStep(s: Categories, x: Id, r: seq<Id>, done: set<Id>, c: Id, sub: seq<Id>)
    requires !OnCycle(s, x) && done <= Children(s, x) && c in Children(s, x) && c !in done
    requires Elems(r) == Covered(s, done) && Distinct(r) && Preorder(s, r)
    requires Elems(sub) == Descendants(s, c) && Distinct(sub) && Preorder(s, sub)
    ensures Elems(r + [c] + sub) == Covered(s, done + {c})
    ensures Distinct(r + [c] + sub) && Preorder(s, r + [c] + sub)
  {
    ChildFacts(s, x, c);
    CoveredDisjoint(s, x, done, c);
    PreorderAppend(s, r, c, sub);
    CoveredStep(s, done, c);
    assert Elems(r + [c] + sub) == Elems(r) + {c} + Elems(sub);
    assert c !in Elems(r) && c !in Elems(sub);
    DistinctAppend(r, c, sub);
  }

  /** `get_all_subcategories`: for each direct subcategory, append it and
      then its own listing. Siblings are taken in whatever order the
      database returns them; the contract holds for every such order. The
      result lists every proper descendant exactly once, each followed at
      once by its own descendants. When `x` is on a cycle the source's
      recursion raises `RecursionError`; the precondition excludes that
      case. */
  method AllSubcategories(s: Categories, x: Id) returns (r: seq<Id>)
    requires !OnCycle(s, x)
    ensures Elems(r) == Descendants(s, x)
    ensures Distinct(r)
    ensures Preorder(s, r)
    decreases |Descendants(s, x)|
  {
    r := [];
    var pending := Children(s, x);
    ghost var done: set<Id> := {};
    while pending != {}
      invariant pending + done == Children(s, x) && pending !! done
      invariant Elems(r) == Covered(s, done)
      invariant Distinct(r) && Preorder(s, r)
      decreases |pending|
    {
      var c :| c in pending;
      ChildFacts(s, x, c);
      var sub := AllSubcategories(s, c);
      ListingStep(s, x, r, done, c, sub);
      r := r + [c] + sub;
      pending := pending - {c};
      done := done + {c};
    }
    CoveredChildren(s, x);
  }
}
