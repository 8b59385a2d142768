/**
 * The scope tree the backend stores on assignments (division -> parts -> work
 * types) and the overlap test rework detection runs on it
 * (`checkScopeOverlap`, backend/db.js:171-188).
 */
module Scope {

  import opened Wrappers
  import opened Types
  import Lists

  /**
   * A scope column as read back from the database: either a parsed scope tree of
   * well-formed items or text that does not give an array (JSON.parse throws, or
   * the value is not a list).
   */
  datatype StoredScope = Tree(items: seq<ScopeItem>) | Malformed

  /** `f` is the position `aScope.find(i => i.division === d)` lands on. */
  ghost predicate IsFirstWithDivision(a: seq<ScopeItem>, f: int, d: string) {
    0 <= f < |a| && a[f].division == d && forall g :: 0 <= g < f ==> a[g].division != d
  }

  /** `a.find(i => i.division === d)`: the first item of that division, if any. */
  function FindDivision(a: seq<ScopeItem>, d: string): (r: Option<ScopeItem>)
    ensures r.None? <==> forall i :: 0 <= i < |a| ==> a[i].division != d
    ensures r.Some? ==> exists f :: IsFirstWithDivision(a, f, d) && a[f] == r.value
  {
    if a == [] then None
    else if a[0].division == d then
      assert IsFirstWithDivision(a, 0, d);
      Some(a[0])
    else
      var r := FindDivision(a[1..], d);
      assert r.Some? ==> exists f :: IsFirstWithDivision(a, f, d) && a[f] == r.value by {
        if r.Some? {
          var f :| IsFirstWithDivision(a[1..], f, d) && a[1..][f] == r.value;
          assert IsFirstWithDivision(a, f + 1, d);
        }
      }
      r
  }

  /** `parts.some(p => p.name === name)`. */
  function HasPart(parts: seq<ScopePart>, name: string): (r: bool)
    ensures r <==> exists k :: 0 <= k < |parts| && parts[k].name == name
  {
    if parts == [] then false
    else parts[0].name == name || HasPart(parts[1..], name)
  }

  /** The inner loop: some rework part is also a part of `aItem`. */
  function SharesPart(aItem: ScopeItem, rParts: seq<ScopePart>): (r: bool)
    ensures r <==> exists j :: 0 <= j < |rParts| && HasPart(aItem.parts, rParts[j].name)
  {
    if rParts == [] then false
    else HasPart(aItem.parts, rParts[0].name) || SharesPart(aItem, rParts[1..])
  }

  /** The outer loop over the rework items, returning true at the first hit. */
  function OverlapItems(a: seq<ScopeItem>, r: seq<ScopeItem>): (b: bool)
    ensures b <==> exists i :: 0 <= i < |r| && ItemOverlaps(a, r[i])
  {
    if r == [] then false
    else ItemOverlaps(a, r[0]) || OverlapItems(a, r[1..])
  }

  /** One rework item hits the assignment: its division's first item shares a part name. */
  predicate ItemOverlaps(a: seq<ScopeItem>, rItem: ScopeItem) {
    match FindDivision(a, rItem.division)
    case None => false
    case Some(aItem) => SharesPart(aItem, rItem.parts)
  }

  /**
   * Division+part granularity: rework item `i`'s part `j` is among the parts of
   * the first assignment item of the same division.
   */
  ghost predicate PartHit(a: seq<ScopeItem>, rItem: ScopeItem, j: int) {
    0 <= j < |rItem.parts|
    && exists f, k :: IsFirstWithDivision(a, f, rItem.division)
         && 0 <= k < |a[f].parts| && a[f].parts[k].name == rItem.parts[j].name
  }

  /**
   * `checkScopeOverlap(assignmentScope, reworkScope)`: true exactly when some
   * (division, part name) of the rework scope is found in the assignment's
   * scope, looking only at the first assignment item of that division; work
   * types play no part, and a stored scope that is not an array never overlaps.
   */
  function CheckScopeOverlap(assignment: StoredScope, rework: seq<ScopeItem>): (b: bool)
    ensures assignment.Malformed? ==> !b
    ensures assignment.Tree? ==>
      (b <==> exists i, j :: 0 <= i < |rework| && PartHit(assignment.items, rework[i], j))
  {
    match assignment
    case Malformed => false
    case Tree(a) =>
      var b := OverlapItems(a, rework);
      OverlapMeansPartHit(a, rework);
      b
  }

  lemma OverlapMeansPartHit(a: seq<ScopeItem>, rework: seq<ScopeItem>)
    ensures OverlapItems(a, rework) <==>
      exists i, j :: 0 <= i < |rework| && PartHit(a, rework[i], j)
  {
    if OverlapItems(a, rework) {
      var i :| 0 <= i < |rework| && ItemOverlaps(a, rework[i]);
      ItemOverlapsMeansPartHit(a, rework[i]);
      var j :| PartHit(a, rework[i], j);
    }
    if exists i, j :: 0 <= i < |rework| && PartHit(a, rework[i], j) {
      var i, j :| 0 <= i < |rework| && PartHit(a, rework[i], j);
      ItemOverlapsMeansPartHit(a, rework[i]);
    }
  }

  lemma ItemOverlapsMeansPartHit(a: seq<ScopeItem>, rItem: ScopeItem)
    ensures ItemOverlaps(a, rItem) <==> exists j :: PartHit(a, rItem, j)
  {
    var d := rItem.division;
    var found := FindDivision(a, d);
    if found.Some? {
      var f :| IsFirstWithDivision(a, f, d) && a[f] == found.value;
      assert forall f' :: IsFirstWithDivision(a, f', d) ==> f' == f;
      if ItemOverlaps(a, rItem) {
        var j :| 0 <= j < |rItem.parts| && HasPart(a[f].parts, rItem.parts[j].name);
        var k :| 0 <= k < |a[f].parts| && a[f].parts[k].name == rItem.parts[j].name;
        assert PartHit(a, rItem, j);
      }
      if exists j :: PartHit(a, rItem, j) {
        var j :| PartHit(a, rItem, j);
        var f', k :| IsFirstWithDivision(a, f', d) && 0 <= k < |a[f'].parts| && a[f'].parts[k].name == rItem.parts[j].name;
        assert HasPart(a[f].parts, rItem.parts[j].name);
      }
    } else {
      forall j ensures !PartHit(a, rItem, j) {
        assert forall f :: !IsFirstWithDivision(a, f, d);
      }
    }
  }

  /** One scope item with every work-type list emptied. */
  function EraseItem(item: ScopeItem): (r: ScopeItem)
    ensures r.division == item.division && |r.parts| == |item.parts|
    ensures forall k :: 0 <= k < |item.parts| ==> r.parts[k] == ScopePart(item.parts[k].name, [])
  {
    ScopeItem(item.division, seq(|item.parts|, k requires 0 <= k < |item.parts| => ScopePart(item.parts[k].name, [])))
  }

  /** The scope tree with every work-type list emptied. */
  function WithoutWorkTypes(s: seq<ScopeItem>): (r: seq<ScopeItem>)
    ensures |r| == |s|
    ensures forall i :: 0 <= i < |s| ==> r[i] == EraseItem(s[i])
  {
    seq(|s|, i requires 0 <= i < |s| => EraseItem(s[i]))
  }

  /** Erasing work types keeps the positions of the first items of every division. */
  lemma FirstWithDivisionErased(a: seq<ScopeItem>, f: int, d: string)
    ensures IsFirstWithDivision(WithoutWorkTypes(a), f, d) <==> IsFirstWithDivision(a, f, d)
  {
    var a' := WithoutWorkTypes(a);
    if 0 <= f < |a| {
      assert forall g :: 0 <= g < |a| ==> a'[g].division == a[g].division;
    }
  }

  /** A single (division, part) hit does not depend on work types. */
  lemma PartHitErased(a: seq<ScopeItem>, rItem: ScopeItem, j: int)
    ensures PartHit(WithoutWorkTypes(a), EraseItem(rItem), j) <==> PartHit(a, rItem, j)
  {
    var a', rItem' := WithoutWorkTypes(a), EraseItem(rItem);
    if PartHit(a, rItem, j) {
      var f, k :| IsFirstWithDivision(a, f, rItem.division)
        && 0 <= k < |a[f].parts| && a[f].parts[k].name == rItem.parts[j].name;
      FirstWithDivisionErased(a, f, rItem.division);
      assert a'[f].parts[k].name == rItem'.parts[j].name;
    }
    if PartHit(a', rItem', j) {
      var f, k :| IsFirstWithDivision(a', f, rItem'.division)
        && 0 <= k < |a'[f].parts| && a'[f].parts[k].name == rItem'.parts[j].name;
      FirstWithDivisionErased(a, f, rItem.division);
      assert a[f].parts[k].name == rItem.parts[j].name;
    }
  }

  /** Work types are ignored: erasing them on either side never changes the answer. */
  lemma OverlapIgnoresWorkTypes(a: seq<ScopeItem>, r: seq<ScopeItem>)
    ensures CheckScopeOverlap(Tree(WithoutWorkTypes(a)), WithoutWorkTypes(r)) == CheckScopeOverlap(Tree(a), r)
  {
    AnyHitErased(a, r);
  }

  lemma AnyHitErased(a: seq<ScopeItem>, r: seq<ScopeItem>)
    ensures (exists i, j :: 0 <= i < |r| && PartHit(WithoutWorkTypes(a), WithoutWorkTypes(r)[i], j))
      <==> (exists i, j :: 0 <= i < |r| && PartHit(a, r[i], j))
  {
    var a', r' := WithoutWorkTypes(a), WithoutWorkTypes(r);
    if exists i, j :: 0 <= i < |r| && PartHit(a, r[i], j) {
      var i, j :| 0 <= i < |r| && PartHit(a, r[i], j);
      PartHitErased(a, r[i], j);
      assert PartHit(a', r'[i], j);
    }
    if exists i, j :: 0 <= i < |r| && PartHit(a', r'[i], j) {
      var i, j :| 0 <= i < |r| && PartHit(a', r'[i], j);
      PartHitErased(a, r[i], j);
      assert PartHit(a, r[i], j);
    }
  }

  /** Scopes whose divisions are disjoint never overlap. */
  lemma DisjointDivisionsNoOverlap(a: seq<ScopeItem>, r: seq<ScopeItem>)
    requires forall i, k :: 0 <= i < |a| && 0 <= k < |r| ==> a[i].division != r[k].division
    ensures !CheckScopeOverlap(Tree(a), r)
  {
    forall i, j | 0 <= i < |r| ensures !PartHit(a, r[i], j) {
      assert forall f :: !IsFirstWithDivision(a, f, r[i].division);
    }
  }

  /** The same one-division, one-part scope on both sides overlaps. */
  lemma SameSinglePartOverlaps(d: string, p: string, wa: seq<string>, wr: seq<string>)
    ensures CheckScopeOverlap(Tree([ScopeItem(d, [ScopePart(p, wa)])]), [ScopeItem(d, [ScopePart(p, wr)])])
  {
    var a := [ScopeItem(d, [ScopePart(p, wa)])];
    var r := [ScopeItem(d, [ScopePart(p, wr)])];
    assert IsFirstWithDivision(a, 0, d);
    assert a[0].parts[0].name == r[0].parts[0].name;
    assert PartHit(a, r[0], 0);
  }

  /** All division names of a scope tree, first occurrence first. */
  function Divisions(s: seq<ScopeItem>): (r: seq<string>)
    ensures Lists.Distinct(r)
    ensures forall d :: d in r <==> exists i :: 0 <= i < |s| && s[i].division == d
  {
    var all := seq(|s|, i requires 0 <= i < |s| => s[i].division);
    assert forall d :: d in all <==> exists i :: 0 <= i < |s| && s[i].division == d by {
      forall d ensures d in all <==> exists i :: 0 <= i < |s| && s[i].division == d {
        if exists i :: 0 <= i < |s| && s[i].division == d {
          var i :| 0 <= i < |s| && s[i].division == d;
          assert all[i] == d;
        }
      }
    }
    Lists.Dedup(all)
  }

  /** All part names of a scope tree, first occurrence first. */
  function PartNames(s: seq<ScopeItem>): (r: seq<string>)
    ensures Lists.Distinct(r)
    ensures forall p :: p in r <==> exists i, j :: 0 <= i < |s| && 0 <= j < |s[i].parts| && s[i].parts[j].name == p
  {
    var all := AllPartNames(s);
    Lists.Dedup(all)
  }

  function AllPartNames(s: seq<ScopeItem>): (r: seq<string>)
    ensures forall p :: p in r <==> exists i, j :: 0 <= i < |s| && 0 <= j < |s[i].parts| && s[i].parts[j].name == p
  {
    if s == [] then []
    else
      var here := seq(|s[0].parts|, j requires 0 <= j < |s[0].parts| => s[0].parts[j].name);
      var rest := AllPartNames(s[1..]);
      assert forall p :: p in rest <==> exists i, j :: 1 <= i < |s| && 0 <= j < |s[i].parts| && s[i].parts[j].name == p by {
        forall p ensures p in rest <==> exists i, j :: 1 <= i < |s| && 0 <= j < |s[i].parts| && s[i].parts[j].name == p {
          if p in rest {
            var i, j :| 0 <= i < |s[1..]| && 0 <= j < |s[1..][i].parts| && s[1..][i].parts[j].name == p;
            assert s[i + 1].parts[j].name == p;
          }
          if exists i, j :: 1 <= i < |s| && 0 <= j < |s[i].parts| && s[i].parts[j].name == p {
            var i, j :| 1 <= i < |s| && 0 <= j < |s[i].parts| && s[i].parts[j].name == p;
            assert s[1..][i - 1].parts[j].name == p;
          }
        }
      }
      assert forall p :: p in here <==> exists j :: 0 <= j < |s[0].parts| && s[0].parts[j].name == p by {
        forall p ensures p in here <==> exists j :: 0 <= j < |s[0].parts| && s[0].parts[j].name == p {
          if exists j :: 0 <= j < |s[0].parts| && s[0].parts[j].name == p {
            var j :| 0 <= j < |s[0].parts| && s[0].parts[j].name == p;
            assert here[j] == p;
          }
        }
      }
      here + rest
  }

  /** All work-type names of a scope tree, first occurrence first. */
  function WorkTypeNames(s: seq<ScopeItem>): (r: seq<string>)
    ensures Lists.Distinct(r)
    ensures forall w :: w in r <==> exists i, j :: 0 <= i < |s| && 0 <= j < |s[i].parts| && w in s[i].parts[j].workTypes
  {
    Lists.Dedup(AllWorkTypes(s))
  }

  function AllWorkTypes(s: seq<ScopeItem>): (r: seq<string>)
    ensures forall w :: w in r <==> exists i, j :: 0 <= i < |s| && 0 <= j < |s[i].parts| && w in s[i].parts[j].workTypes
  {
    if s == [] then []
    else
      var here := PartWorkTypes(s[0].parts);
      var rest := AllWorkTypes(s[1..]);
      assert forall w :: w in rest <==> exists i, j :: 1 <= i < |s| && 0 <= j < |s[i].parts| && w in s[i].parts[j].workTypes by {
        forall w ensures w in rest <==> exists i, j :: 1 <= i < |s| && 0 <= j < |s[i].parts| && w in s[i].parts[j].workTypes {
          if w in rest {
            var i, j :| 0 <= i < |s[1..]| && 0 <= j < |s[1..][i].parts| && w in s[1..][i].parts[j].workTypes;
            assert w in s[i + 1].parts[j].workTypes;
          }
          if exists i, j :: 1 <= i < |s| && 0 <= j < |s[i].parts| && w in s[i].parts[j].workTypes {
            var i, j :| 1 <= i < |s| && 0 <= j < |s[i].parts| && w in s[i].parts[j].workTypes;
            assert w in s[1..][i - 1].parts[j].workTypes;
          }
        }
      }
      here + rest
  }

  function PartWorkTypes(parts: seq<ScopePart>): (r: seq<string>)
    ensures forall w :: w in r <==> exists j :: 0 <= j < |parts| && w in parts[j].workTypes
  {
    if parts == [] then []
    else
      var rest := PartWorkTypes(parts[1..]);
      assert forall w :: w in rest <==> exists j :: 1 <= j < |parts| && w in parts[j].workTypes by {
        forall w ensures w in rest <==> exists j :: 1 <= j < |parts| && w in parts[j].workTypes {
          if w in rest {
            var j :| 0 <= j < |parts[1..]| && w in parts[1..][j].workTypes;
            assert w in parts[j + 1].workTypes;
          }
          if exists j :: 1 <= j < |parts| && w in parts[j].workTypes {
            var j :| 1 <= j < |parts| && w in parts[j].workTypes;
            assert w in parts[1..][j - 1].workTypes;
          }
        }
      }
      parts[0].workTypes + rest
  }
}
