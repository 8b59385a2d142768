/**
 * What both dashboards know about assignments and how they decide that work is
 * done. The dashboards read flat `divisions` / `partNos` / `workTypes` lists on
 * every project and assignment; one work unit is a (division, part, work type)
 * triple, and a triple is covered when some COMPLETED member assignment of the
 * group assignment lists all three of its values. `isItemComplete` is the same
 * code in components/PMDashboard.tsx:102-126 and components/TLDashboard.tsx:47-53.
 */
module Completion {

  import opened Wrappers
  import opened Types

  /** A project as the dashboards see it. */
  datatype ProjectView = ProjectView(
    id: int, name: string, status: ProjectStatus,
    divisions: seq<string>, partNos: seq<string>, workTypes: seq<string>)

  /** A group assignment as the dashboards see it. */
  datatype GroupView = GroupView(
    id: int, projectId: int, teamId: int, status: Status,
    divisions: seq<string>, partNos: seq<string>, workTypes: seq<string>,
    completionTime: Option<int>)

  /** A member assignment as the dashboards see it. */
  datatype MemberView = MemberView(
    id: int, groupAssignmentId: int, status: Status,
    divisions: seq<string>, partNos: seq<string>, workTypes: seq<string>)

  /** Work units of a scope: the size of the product of its three lists. */
  function Units(ds: seq<string>, ps: seq<string>, ws: seq<string>): (n: int)
    ensures n >= 0
  {
    NatProduct(|ds|, |ps|) * |ws|
  }

  function NatProduct(a: nat, b: nat): (n: nat) {
    a * b
  }

  /** The list a group assignment holds on one axis. */
  function AxisList(ga: GroupView, axis: Axis): seq<string> {
    match axis
    case Div => ga.divisions
    case Part => ga.partNos
    case WorkType => ga.workTypes
  }

  /**
   * `state.memberAssignments.filter(ma => ma.groupAssignmentId === ga.id &&
   * ma.status === 'COMPLETED')`, order kept.
   */
  function CompletedFor(ms: seq<MemberView>, gaId: int): (r: seq<MemberView>)
    ensures |r| <= |ms|
    ensures forall m :: m in r <==> m in ms && m.groupAssignmentId == gaId && m.status == Completed
  {
    if ms == [] then []
    else
      var rest := CompletedFor(ms[1..], gaId);
      assert forall m :: m in ms <==> m == ms[0] || m in ms[1..] by {
        assert ms == [ms[0]] + ms[1..];
      }
      if ms[0].groupAssignmentId == gaId && ms[0].status == Completed then [ms[0]] + rest else rest
  }

  /** The member assignment lists all three values of the triple. */
  predicate Covers(m: MemberView, d: string, p: string, w: string) {
    d in m.divisions && p in m.partNos && w in m.workTypes
  }

  /** `completedMAs.some(ma => ...)`: some completed member assignment covers the triple. */
  function IsCovered(done: seq<MemberView>, d: string, p: string, w: string): (b: bool)
    ensures b <==> exists i :: 0 <= i < |done| && Covers(done[i], d, p, w)
  {
    if done == [] then false
    else
      var rest := IsCovered(done[1..], d, p, w);
      assert rest <==> exists i :: 1 <= i < |done| && Covers(done[i], d, p, w) by {
        if rest {
          var i :| 0 <= i < |done[1..]| && Covers(done[1..][i], d, p, w);
          assert Covers(done[i + 1], d, p, w);
        }
        if exists i :: 1 <= i < |done| && Covers(done[i], d, p, w) {
          var i :| 1 <= i < |done| && Covers(done[i], d, p, w);
          assert Covers(done[1..][i - 1], d, p, w);
        }
      }
      Covers(done[0], d, p, w) || rest
  }

  /** `reqWTs.every(wt => covered(d, p, wt))`. */
  function AllCoveredW(done: seq<MemberView>, d: string, p: string, ws: seq<string>): (b: bool)
    ensures b <==> forall w :: w in ws ==> IsCovered(done, d, p, w)
  {
    if ws == [] then true
    else
      var rest := AllCoveredW(done, d, p, ws[1..]);
      assert forall w :: w in ws <==> w == ws[0] || w in ws[1..] by {
        assert ws == [ws[0]] + ws[1..];
      }
      assert IsCovered(done, d, p, ws[0]) && rest ==> forall w :: w in ws ==> IsCovered(done, d, p, w) by {
        if IsCovered(done, d, p, ws[0]) && rest {
          forall w | w in ws ensures IsCovered(done, d, p, w) {
            if w != ws[0] { assert w in ws[1..]; }
          }
        }
      }
      IsCovered(done, d, p, ws[0]) && rest
  }

  /** `reqParts.every(p => reqWTs.every(...))`. */
  function AllCoveredP(done: seq<MemberView>, d: string, ps: seq<string>, ws: seq<string>): (b: bool)
    ensures b <==> forall p, w :: p in ps && w in ws ==> IsCovered(done, d, p, w)
  {
    if ps == [] then true
    else
      var first := AllCoveredW(done, d, ps[0], ws);
      var rest := AllCoveredP(done, d, ps[1..], ws);
      assert forall p :: p in ps <==> p == ps[0] || p in ps[1..] by {
        assert ps == [ps[0]] + ps[1..];
      }
      assert first && rest ==> forall p, w :: p in ps && w in ws ==> IsCovered(done, d, p, w) by {
        if first && rest {
          forall p, w | p in ps && w in ws ensures IsCovered(done, d, p, w) {
            if p != ps[0] { assert p in ps[1..]; }
          }
        }
      }
      first && rest
  }

  /** Every triple of the product `ds` x `ps` x `ws` is covered. */
  ghost predicate ProductCovered(done: seq<MemberView>, ds: seq<string>, ps: seq<string>, ws: seq<string>) {
    forall d, p, w :: d in ds && p in ps && w in ws ==> IsCovered(done, d, p, w)
  }

  /** `reqDivs.every(d => ...)`: every triple of the product is covered. */
  function AllCovered(done: seq<MemberView>, ds: seq<string>, ps: seq<string>, ws: seq<string>): (b: bool)
    ensures b <==> ProductCovered(done, ds, ps, ws)
  {
    if ds == [] then true
    else
      var first := AllCoveredP(done, ds[0], ps, ws);
      var rest := AllCovered(done, ds[1..], ps, ws);
      assert forall d :: d in ds <==> d == ds[0] || d in ds[1..] by {
        assert ds == [ds[0]] + ds[1..];
      }
      assert first && rest ==> forall d, p, w :: d in ds && p in ps && w in ws ==> IsCovered(done, d, p, w) by {
        if first && rest {
          forall d, p, w | d in ds && p in ps && w in ws ensures IsCovered(done, d, p, w) {
            if d != ds[0] { assert d in ds[1..]; }
          }
        }
      }
      first && rest
  }

  /** The requirement list on axis `which` when checking value `v` on axis `axis`. */
  function Required(ga: GroupView, axis: Axis, v: string, which: Axis): seq<string> {
    if axis == which then [v] else AxisList(ga, which)
  }

  /**
   * `isItemComplete(ga, type, value)`: every triple of {value} x (the group
   * assignment's lists on the other two axes) is covered by a COMPLETED member
   * assignment of that group assignment.
   */
  function IsItemComplete(ga: GroupView, ms: seq<MemberView>, axis: Axis, v: string): (b: bool)
    ensures b <==> ProductCovered(CompletedFor(ms, ga.id),
      Required(ga, axis, v, Div), Required(ga, axis, v, Part), Required(ga, axis, v, WorkType))
  {
    AllCovered(CompletedFor(ms, ga.id), Required(ga, axis, v, Div), Required(ga, axis, v, Part), Required(ga, axis, v, WorkType))
  }

  /** A division is complete exactly when each of its (part, work type) pairs is covered. */
  lemma DivisionCompleteMeans(ga: GroupView, ms: seq<MemberView>, v: string)
    ensures IsItemComplete(ga, ms, Div, v) <==>
      forall p, w :: p in ga.partNos && w in ga.workTypes ==> IsCovered(CompletedFor(ms, ga.id), v, p, w)
  {
    if forall p, w :: p in ga.partNos && w in ga.workTypes ==> IsCovered(CompletedFor(ms, ga.id), v, p, w) {
      forall d, p, w | d in [v] && p in ga.partNos && w in ga.workTypes
        ensures IsCovered(CompletedFor(ms, ga.id), d, p, w)
      {
        assert d == v;
      }
    }
  }

  /** An item is trivially complete when one of the other two axes is empty. */
  lemma ItemCompleteVacuous(ga: GroupView, ms: seq<MemberView>, axis: Axis, v: string, other: Axis)
    requires other != axis && AxisList(ga, other) == []
    ensures IsItemComplete(ga, ms, axis, v)
  {
  }

  /** An item with no completed member assignment and non-empty other axes is incomplete. */
  lemma ItemIncompleteWithoutWork(ga: GroupView, ms: seq<MemberView>, v: string)
    requires ga.partNos != [] && ga.workTypes != []
    requires CompletedFor(ms, ga.id) == []
    ensures !IsItemComplete(ga, ms, Div, v)
  {
    assert v in [v] && ga.partNos[0] in ga.partNos && ga.workTypes[0] in ga.workTypes;
    assert !IsCovered(CompletedFor(ms, ga.id), v, ga.partNos[0], ga.workTypes[0]);
  }

  /** Completing one more member assignment never makes a complete item incomplete. */
  lemma ItemCompleteMonotone(ga: GroupView, ms: seq<MemberView>, m: MemberView, axis: Axis, v: string)
    requires IsItemComplete(ga, ms, axis, v)
    ensures IsItemComplete(ga, ms + [m], axis, v)
  {
    CompletedCoversMore(ms, m, ga.id);
  }

  /** Every unit covered by `before` is covered by `after`. */
  ghost predicate CoversMore(before: seq<MemberView>, after: seq<MemberView>) {
    forall d, p, w :: IsCovered(before, d, p, w) ==> IsCovered(after, d, p, w)
  }

  /** One more member assignment covers at least what the completed ones covered. */
  lemma CompletedCoversMore(ms: seq<MemberView>, m: MemberView, gaId: int)
    ensures CoversMore(CompletedFor(ms, gaId), CompletedFor(ms + [m], gaId))
  {
    var before := CompletedFor(ms, gaId);
    var after := CompletedFor(ms + [m], gaId);
    forall d, p, w | IsCovered(before, d, p, w) ensures IsCovered(after, d, p, w) {
      var i :| 0 <= i < |before| && Covers(before[i], d, p, w);
      assert before[i] in ms + [m];
      assert before[i] in after;
      var j :| 0 <= j < |after| && after[j] == before[i];
    }
  }

  // ---------------------------------------------------------------------------
  // Percentages

  /** `Math.round(x)`: the nearest integer, halves rounded up. */
  function Round(x: real): (r: int)
    ensures r as real <= x + 0.5 < r as real + 1.0
  {
    (x + 0.5).Floor
  }

  /** `total > 0 ? Math.round((part / total) * 100) : 0`. */
  function Percent(part: real, total: int): (r: int)
    ensures total <= 0 ==> r == 0
    ensures total > 0 ==> r == Round(part / total as real * 100.0)
  {
    if total > 0 then Round(part / total as real * 100.0) else 0
  }

  /** Rounding never reverses an order. */
  lemma RoundMonotone(x: real, y: real)
    requires x <= y
    ensures Round(x) <= Round(y)
  {
  }

  /** A share of the total is a percentage between 0 and 100. */
  lemma PercentBounds(part: real, total: int)
    requires 0.0 <= part <= total as real
    ensures 0 <= Percent(part, total) <= 100
  {
    if total > 0 {
      var x := part / total as real * 100.0;
      assert part / total as real <= 1.0;
      assert 0.0 <= x <= 100.0;
      RoundMonotone(0.0, x);
      RoundMonotone(x, 100.0);
    }
  }

  /** A larger share never shows a smaller percentage. */
  lemma PercentMonotone(a: real, b: real, total: int)
    requires a <= b
    ensures Percent(a, total) <= Percent(b, total)
  {
    if total > 0 {
      var t := total as real;
      assert a / t <= b / t;
      assert a / t * 100.0 <= b / t * 100.0;
      RoundMonotone(a / t * 100.0, b / t * 100.0);
    }
  }
}
