/**
 * The team leader's dashboard logic (components/TLDashboard.tsx): the list of
 * work units of a group assignment that no completed member assignment covers,
 * the progress figure built on it, the tab filter of the team's assignment list
 * and the guard of the "Submit to PM" action.
 */
module TLDashboard {

  import opened Wrappers
  import opened Types
  import opened Completion
  import Database

  /** One work unit: a (division, part, work type) triple. */
  datatype Unit = Unit(d: string, p: string, w: string)

  /** `${div} - ${part} - ${wt}`: how a missing unit is shown. */
  function Label(u: Unit): (s: string)
  {
    u.d + " - " + u.p + " - " + u.w
  }

  /** The labels of a list of units, in order. */
  function Labels(us: seq<Unit>): (r: seq<string>)
    ensures |r| == |us|
  {
    if us == [] then []
    else Labels(us[..|us| - 1]) + [Label(us[|us| - 1])]
  }

  /** The k-th label names the k-th unit. */
  lemma {:induction false} LabelsAt(us: seq<Unit>)
    ensures forall k :: 0 <= k < |us| ==> Labels(us)[k] == Label(us[k])
  {
    if us != [] {
      LabelsAt(us[..|us| - 1]);
    }
  }

  /** The uncovered units (d, p, w) for w in `ws`, in the order of `ws`. */
  function MissingW(done: seq<MemberView>, d: string, p: string, ws: seq<string>): (r: seq<Unit>)
    ensures |r| <= |ws|
  {
    if ws == [] then []
    else
      var w := ws[|ws| - 1];
      MissingW(done, d, p, ws[..|ws| - 1]) + (if IsCovered(done, d, p, w) then [] else [Unit(d, p, w)])
  }

  /** The uncovered units (d, p, w) for p in `ps` and w in `ws`, parts outermost. */
  function MissingP(done: seq<MemberView>, d: string, ps: seq<string>, ws: seq<string>): (r: seq<Unit>)
  {
    if ps == [] then []
    else MissingP(done, d, ps[..|ps| - 1], ws) + MissingW(done, d, ps[|ps| - 1], ws)
  }

  /**
   * The uncovered units of the product `ds` x `ps` x `ws`, in the order of the
   * three nested loops of `getMissingScopeItems`.
   */
  function Missing(done: seq<MemberView>, ds: seq<string>, ps: seq<string>, ws: seq<string>): (r: seq<Unit>)
  {
    if ds == [] then []
    else Missing(done, ds[..|ds| - 1], ps, ws) + MissingP(done, ds[|ds| - 1], ps, ws)
  }

  lemma {:induction false} MissingPWithinUnits(done: seq<MemberView>, d: string, ps: seq<string>, ws: seq<string>)
    ensures |MissingP(done, d, ps, ws)| <= NatProduct(|ps|, |ws|)
  {
    if ps != [] {
      MissingPWithinUnits(done, d, ps[..|ps| - 1], ws);
      assert NatProduct(|ps| - 1, |ws|) + |ws| == NatProduct(|ps|, |ws|);
    }
  }

  /** No more units are missing than the product has. */
  lemma {:induction false} MissingWithinUnits(done: seq<MemberView>, ds: seq<string>, ps: seq<string>, ws: seq<string>)
    ensures |Missing(done, ds, ps, ws)| <= Units(ds, ps, ws)
  {
    if ds != [] {
      MissingWithinUnits(done, ds[..|ds| - 1], ps, ws);
      MissingPWithinUnits(done, ds[|ds| - 1], ps, ws);
      ProductStep(|ds|, |ps|, |ws|);
    }
  }

  lemma {:induction false} MissingWMembers(done: seq<MemberView>, d: string, p: string, ws: seq<string>)
    ensures forall u :: u in MissingW(done, d, p, ws) <==>
      u.d == d && u.p == p && u.w in ws && !IsCovered(done, u.d, u.p, u.w)
  {
    if ws != [] {
      var w := ws[|ws| - 1];
      MissingWMembers(done, d, p, ws[..|ws| - 1]);
      assert ws == ws[..|ws| - 1] + [w];
    }
  }

  lemma {:induction false} MissingPMembers(done: seq<MemberView>, d: string, ps: seq<string>, ws: seq<string>)
    ensures forall u :: u in MissingP(done, d, ps, ws) <==>
      u.d == d && u.p in ps && u.w in ws && !IsCovered(done, u.d, u.p, u.w)
  {
    if ps != [] {
      MissingPMembers(done, d, ps[..|ps| - 1], ws);
      MissingWMembers(done, d, ps[|ps| - 1], ws);
      assert ps == ps[..|ps| - 1] + [ps[|ps| - 1]];
    }
  }

  /** A unit is listed as missing exactly when it lies in the product and is not covered. */
  lemma {:induction false} MissingMembers(done: seq<MemberView>, ds: seq<string>, ps: seq<string>, ws: seq<string>)
    ensures forall u :: u in Missing(done, ds, ps, ws) <==>
      u.d in ds && u.p in ps && u.w in ws && !IsCovered(done, u.d, u.p, u.w)
  {
    if ds != [] {
      MissingMembers(done, ds[..|ds| - 1], ps, ws);
      MissingPMembers(done, ds[|ds| - 1], ps, ws);
      assert ds == ds[..|ds| - 1] + [ds[|ds| - 1]];
    }
  }

  lemma ProductStep(a: nat, b: nat, c: nat)
    requires a > 0
    ensures NatProduct(a - 1, b) * c + NatProduct(b, c) == NatProduct(a, b) * c
  {
    calc {
      NatProduct(a - 1, b) * c + NatProduct(b, c);
      ((a - 1) * b) * c + b * c;
      { assert ((a - 1) * b) * c == a * b * c - b * c; }
      (a * b) * c;
    }
  }

  /** Nothing is missing exactly when every unit of the product is covered. */
  lemma NothingMissingMeansCovered(done: seq<MemberView>, ds: seq<string>, ps: seq<string>, ws: seq<string>)
    ensures Missing(done, ds, ps, ws) == [] <==> AllCovered(done, ds, ps, ws)
  {
    var r := Missing(done, ds, ps, ws);
    MissingMembers(done, ds, ps, ws);
    if r == [] {
      forall d, p, w | d in ds && p in ps && w in ws ensures IsCovered(done, d, p, w) {
        assert Unit(d, p, w) !in r;
      }
    }
    assert r != [] ==> r[0] in r;
  }

  /**
   * `getMissingScopeItems(ga)`: three nested loops over the group assignment's
   * divisions, parts and work types push the label of every unit that no
   * COMPLETED member assignment of the group assignment covers.
   */
  method GetMissingScopeItems(ga: GroupView, ms: seq<MemberView>) returns (missing: seq<string>)
    ensures missing == Labels(Missing(CompletedFor(ms, ga.id), ga.divisions, ga.partNos, ga.workTypes))
  {
    var completed := CompletedFor(ms, ga.id);
    var ds, ps, ws := ga.divisions, ga.partNos, ga.workTypes;
    missing := [];
    ghost var found: seq<Unit> := [];
    var i := 0;
    while i < |ds|
      invariant 0 <= i <= |ds|
      invariant found == Missing(completed, ds[..i], ps, ws)
      invariant missing == Labels(found)
    {
      var labels := MissingOfDivision(completed, ds[i], ps, ws);
      LabelsAppend(found, MissingP(completed, ds[i], ps, ws));
      missing := missing + labels;
      found := found + MissingP(completed, ds[i], ps, ws);
      MissingStep(completed, ds, ps, ws, i);
      i := i + 1;
    }
    assert ds[..i] == ds;
  }

  /** The body of the division loop: the part loop for one division. */
  method MissingOfDivision(completed: seq<MemberView>, d: string, ps: seq<string>, ws: seq<string>) returns (missing: seq<string>)
    ensures missing == Labels(MissingP(completed, d, ps, ws))
  {
    missing := [];
    ghost var found: seq<Unit> := [];
    var j := 0;
    assert ps[..0] == [];
    while j < |ps|
      invariant 0 <= j <= |ps|
      invariant found == MissingP(completed, d, ps[..j], ws)
      invariant missing == Labels(found)
    {
      var labels := MissingOfPart(completed, d, ps[j], ws);
      LabelsAppend(found, MissingW(completed, d, ps[j], ws));
      missing := missing + labels;
      found := found + MissingW(completed, d, ps[j], ws);
      MissingPStep(completed, d, ps, ws, j);
      j := j + 1;
    }
    assert ps[..j] == ps;
  }

  /** The body of the part loop: the work type loop for one (division, part). */
  method MissingOfPart(completed: seq<MemberView>, d: string, p: string, ws: seq<string>) returns (missing: seq<string>)
    ensures missing == Labels(MissingW(completed, d, p, ws))
  {
    missing := [];
    ghost var found: seq<Unit> := [];
    var k := 0;
    assert ws[..0] == [];
    while k < |ws|
      invariant 0 <= k <= |ws|
      invariant found == MissingW(completed, d, p, ws[..k])
      invariant missing == Labels(found)
    {
      var isCovered := IsCovered(completed, d, p, ws[k]);
      MissingWStep(completed, d, p, ws, k);
      if !isCovered {
        var u := Unit(d, p, ws[k]);
        LabelsSnoc(found, u);
        missing := missing + [Label(u)];
        found := found + [u];
      }
      k := k + 1;
    }
    assert ws[..k] == ws;
  }

  lemma MissingWStep(done: seq<MemberView>, d: string, p: string, ws: seq<string>, k: int)
    requires 0 <= k < |ws|
    ensures MissingW(done, d, p, ws[..k + 1])
         == MissingW(done, d, p, ws[..k]) + (if IsCovered(done, d, p, ws[k]) then [] else [Unit(d, p, ws[k])])
  {
    assert ws[..k + 1][..k] == ws[..k];
  }

  lemma MissingPStep(done: seq<MemberView>, d: string, ps: seq<string>, ws: seq<string>, j: int)
    requires 0 <= j < |ps|
    ensures MissingP(done, d, ps[..j + 1], ws) == MissingP(done, d, ps[..j], ws) + MissingW(done, d, ps[j], ws)
  {
    assert ps[..j + 1][..j] == ps[..j];
  }

  lemma MissingStep(done: seq<MemberView>, ds: seq<string>, ps: seq<string>, ws: seq<string>, i: int)
    requires 0 <= i < |ds|
    ensures Missing(done, ds[..i + 1], ps, ws) == Missing(done, ds[..i], ps, ws) + MissingP(done, ds[i], ps, ws)
  {
    assert ds[..i + 1][..i] == ds[..i];
  }

  lemma {:induction false} LabelsAppend(a: seq<Unit>, b: seq<Unit>)
    ensures Labels(a + b) == Labels(a) + Labels(b)
  {
    if b != [] {
      var b' := b[..|b| - 1];
      assert (a + b)[..|a + b| - 1] == a + b';
      LabelsAppend(a, b');
    } else {
      assert a + b == a;
    }
  }

  lemma LabelsSnoc(us: seq<Unit>, u: Unit)
    ensures Labels(us + [u]) == Labels(us) + [Label(u)]
  {
    assert (us + [u])[..|us|] == us;
  }

  /** What `getGroupStats(ga)` returns. */
  datatype GroupStats = GroupStats(progress: int, isFullyComplete: bool)

  /** The covered share of the group's units as a rounded percentage. */
  function GroupProgress(ga: GroupView, ms: seq<MemberView>): (r: int)
    ensures Units(ga.divisions, ga.partNos, ga.workTypes) == 0 ==> r == 0
  {
    var total := Units(ga.divisions, ga.partNos, ga.workTypes);
    Percent((total - |Missing(CompletedFor(ms, ga.id), ga.divisions, ga.partNos, ga.workTypes)|) as real, total)
  }

  /** `missingItems.length === 0`: no unit of the product is missing. */
  predicate FullyComplete(ga: GroupView, ms: seq<MemberView>) {
    Missing(CompletedFor(ms, ga.id), ga.divisions, ga.partNos, ga.workTypes) == []
  }

  /** The group's figures: its progress and whether nothing is missing. */
  function GroupStatsOf(ga: GroupView, ms: seq<MemberView>): GroupStats {
    GroupStats(GroupProgress(ga, ms), FullyComplete(ga, ms))
  }

  /** `getGroupStats(ga)`: built on the list of missing units. */
  method GetGroupStats(ga: GroupView, ms: seq<MemberView>) returns (s: GroupStats)
    ensures s == GroupStatsOf(ga, ms)
    ensures 0 <= s.progress <= 100
  {
    var totalCombinations := Units(ga.divisions, ga.partNos, ga.workTypes);
    var missing := GetMissingScopeItems(ga, ms);
    var missingCount := |missing|;
    var completedCount := totalCombinations - missingCount;
    s := GroupStats(Percent(completedCount as real, totalCombinations), missingCount == 0);
    assert missingCount == 0 <==> FullyComplete(ga, ms);
    GroupProgressBounds(ga, ms);
  }

  /** The progress of a group assignment lies between 0 and 100. */
  lemma GroupProgressBounds(ga: GroupView, ms: seq<MemberView>)
    ensures 0 <= GroupProgress(ga, ms) <= 100
  {
    var total := Units(ga.divisions, ga.partNos, ga.workTypes);
    var missingCount := |Missing(CompletedFor(ms, ga.id), ga.divisions, ga.partNos, ga.workTypes)|;
    MissingWithinUnits(CompletedFor(ms, ga.id), ga.divisions, ga.partNos, ga.workTypes);
    PercentBounds((total - missingCount) as real, total);
  }

  /**
   * A group assignment is fully complete exactly when every unit of its
   * product is covered by one of its COMPLETED member assignments.
   */
  lemma FullyCompleteMeans(ga: GroupView, ms: seq<MemberView>)
    ensures FullyComplete(ga, ms) <==>
      forall d, p, w :: d in ga.divisions && p in ga.partNos && w in ga.workTypes
        ==> IsCovered(CompletedFor(ms, ga.id), d, p, w)
  {
    NothingMissingMeansCovered(CompletedFor(ms, ga.id), ga.divisions, ga.partNos, ga.workTypes);
  }

  /** A fully complete group assignment with at least one unit shows 100%. */
  lemma FullyCompleteIsHundred(ga: GroupView, ms: seq<MemberView>)
    requires FullyComplete(ga, ms)
    requires Units(ga.divisions, ga.partNos, ga.workTypes) > 0
    ensures GroupProgress(ga, ms) == 100
  {
    var total := Units(ga.divisions, ga.partNos, ga.workTypes);
    assert GroupProgress(ga, ms) == Percent(total as real, total);
    SelfRatio(total as real);
  }

  lemma SelfRatio(x: real)
    requires x > 0.0
    ensures x / x * 100.0 == 100.0
  {
  }

  /** A group assignment with an empty scope list counts as fully complete while showing 0%. */
  lemma EmptyScopeIsComplete(ga: GroupView, ms: seq<MemberView>)
    requires ga.divisions == [] || ga.partNos == [] || ga.workTypes == []
    ensures GroupStatsOf(ga, ms) == GroupStats(0, true)
  {
    assert Units(ga.divisions, ga.partNos, ga.workTypes) == 0;
    MissingWithinUnits(CompletedFor(ms, ga.id), ga.divisions, ga.partNos, ga.workTypes);
  }

  /** A fully complete group assignment has completed every item it lists, on every axis. */
  lemma FullyCompleteItems(ga: GroupView, ms: seq<MemberView>, axis: Axis, v: string)
    requires FullyComplete(ga, ms)
    requires v in AxisList(ga, axis)
    ensures IsItemComplete(ga, ms, axis, v)
  {
    FullyCompleteMeans(ga, ms);
    CoveredProductItems(ga, CompletedFor(ms, ga.id), axis, v);
  }

  /** Each item of a covered product has its whole slice covered. */
  lemma CoveredProductItems(ga: GroupView, done: seq<MemberView>, axis: Axis, v: string)
    requires v in AxisList(ga, axis)
    requires forall d, p, w :: d in ga.divisions && p in ga.partNos && w in ga.workTypes ==> IsCovered(done, d, p, w)
    ensures forall d, p, w ::
      d in Required(ga, axis, v, Div) && p in Required(ga, axis, v, Part) && w in Required(ga, axis, v, WorkType)
      ==> IsCovered(done, d, p, w)
  {
    forall d, p, w | d in Required(ga, axis, v, Div) && p in Required(ga, axis, v, Part) && w in Required(ga, axis, v, WorkType)
      ensures IsCovered(done, d, p, w)
    {
      assert d in ga.divisions && p in ga.partNos && w in ga.workTypes;
    }
  }

  lemma {:induction false} MissingWShrinks(before: seq<MemberView>, after: seq<MemberView>, d: string, p: string, ws: seq<string>)
    requires CoversMore(before, after)
    ensures |MissingW(after, d, p, ws)| <= |MissingW(before, d, p, ws)|
  {
    if ws != [] {
      MissingWShrinks(before, after, d, p, ws[..|ws| - 1]);
    }
  }

  lemma {:induction false} MissingPShrinks(before: seq<MemberView>, after: seq<MemberView>, d: string, ps: seq<string>, ws: seq<string>)
    requires CoversMore(before, after)
    ensures |MissingP(after, d, ps, ws)| <= |MissingP(before, d, ps, ws)|
  {
    if ps != [] {
      MissingPShrinks(before, after, d, ps[..|ps| - 1], ws);
      MissingWShrinks(before, after, d, ps[|ps| - 1], ws);
    }
  }

  /** More covered units never leave more units missing. */
  lemma {:induction false} MissingShrinks(before: seq<MemberView>, after: seq<MemberView>, ds: seq<string>, ps: seq<string>, ws: seq<string>)
    requires CoversMore(before, after)
    ensures |Missing(after, ds, ps, ws)| <= |Missing(before, ds, ps, ws)|
  {
    if ds != [] {
      MissingShrinks(before, after, ds[..|ds| - 1], ps, ws);
      MissingPShrinks(before, after, ds[|ds| - 1], ps, ws);
    }
  }

  /** Completing one more member assignment never lowers a group's progress. */
  lemma ProgressMonotone(ga: GroupView, ms: seq<MemberView>, m: MemberView)
    ensures GroupProgress(ga, ms) <= GroupProgress(ga, ms + [m])
  {
    var before := CompletedFor(ms, ga.id);
    var after := CompletedFor(ms + [m], ga.id);
    CompletedCoversMore(ms, m, ga.id);
    var ds, ps, ws := ga.divisions, ga.partNos, ga.workTypes;
    MissingShrinks(before, after, ds, ps, ws);
    var total := Units(ds, ps, ws);
    var coveredBefore := (total - |Missing(before, ds, ps, ws)|) as real;
    var coveredAfter := (total - |Missing(after, ds, ps, ws)|) as real;
    assert coveredBefore <= coveredAfter;
    assert GroupProgress(ga, ms) == Percent(coveredBefore, total);
    assert GroupProgress(ga, ms + [m]) == Percent(coveredAfter, total);
    PercentMonotone(coveredBefore, coveredAfter, total);
  }

  // ---------------------------------------------------------------------------
  // Assignment list tabs

  /** `k` is the position of the first project in `ps` with the id. */
  ghost predicate IsFirstWithId(ps: seq<ProjectView>, k: int, id: int) {
    0 <= k < |ps| && ps[k].id == id && forall j :: 0 <= j < k ==> ps[j].id != id
  }

  /** `state.projects.find(p => p.id === id)`: the first project with that id. */
  function FindProject(ps: seq<ProjectView>, id: int): (r: Option<ProjectView>)
    ensures r.None? <==> forall p :: p in ps ==> p.id != id
    ensures r.Some? ==> r.value in ps && r.value.id == id
    ensures r.Some? ==> exists k :: IsFirstWithId(ps, k, id) && ps[k] == r.value
  {
    if ps == [] then None
    else if ps[0].id == id then
      assert IsFirstWithId(ps, 0, id);
      Some(ps[0])
    else
      assert forall p :: p in ps <==> p == ps[0] || p in ps[1..] by {
        assert ps == [ps[0]] + ps[1..];
      }
      var r := FindProject(ps[1..], id);
      assert r.Some? ==> exists k :: IsFirstWithId(ps, k, id) && ps[k] == r.value by {
        if r.Some? {
          var k :| IsFirstWithId(ps[1..], k, id) && ps[1..][k] == r.value;
          assert IsFirstWithId(ps, k + 1, id);
        }
      }
      r
  }

  /** `proj?.status === 'ON_HOLD'`: a missing project is not on hold. */
  predicate ProjectOnHold(proj: Option<ProjectView>) {
    proj.Some? && proj.value.status == OnHold
  }

  /** One day in milliseconds: the window of the recent tab. */
  const MsPerDay: int := 86400000

  /**
   * The tab rule of `getFilteredGroups`; `now` is the clock reading. A missing
   * completion time reads as the epoch, as `new Date(null)` does.
   */
  predicate GroupTabMatch(tab: Tab, ga: GroupView, proj: Option<ProjectView>, now: int) {
    match tab
    case HoldTab => ProjectOnHold(proj)
    case CompletedTab => ga.status == Completed
    case Ongoing => ga.status != Completed && !ProjectOnHold(proj)
    case Recent => ga.status == Completed && ga.completionTime.GetOr(0) > now - MsPerDay
  }

  /** Completed and ongoing never overlap, recent ones are completed, and every assignment of a project not on hold is completed or ongoing. */
  lemma GroupTabsPartition(ga: GroupView, proj: Option<ProjectView>, now: int)
    ensures !(GroupTabMatch(CompletedTab, ga, proj, now) && GroupTabMatch(Ongoing, ga, proj, now))
    ensures GroupTabMatch(Recent, ga, proj, now) ==> GroupTabMatch(CompletedTab, ga, proj, now)
    ensures !ProjectOnHold(proj) ==> GroupTabMatch(CompletedTab, ga, proj, now) || GroupTabMatch(Ongoing, ga, proj, now)
    ensures GroupTabMatch(HoldTab, ga, proj, now) ==> !GroupTabMatch(Ongoing, ga, proj, now)
  {
  }

  /**
   * `getFilteredGroups()` with an empty search box: the group assignments of
   * the leader's own team (none without a team) that match the tab.
   */
  function FilterGroups(tab: Tab, gs: seq<GroupView>, ps: seq<ProjectView>, myTeamId: Option<int>, now: int): (r: seq<GroupView>)
    ensures |r| <= |gs|
    ensures forall g :: g in r <==>
      g in gs && myTeamId == Some(g.teamId) && GroupTabMatch(tab, g, FindProject(ps, g.projectId), now)
  {
    if gs == [] then []
    else
      var rest := FilterGroups(tab, gs[1..], ps, myTeamId, now);
      assert forall g :: g in gs <==> g == gs[0] || g in gs[1..] by {
        assert gs == [gs[0]] + gs[1..];
      }
      var g := gs[0];
      if myTeamId == Some(g.teamId) && GroupTabMatch(tab, g, FindProject(ps, g.projectId), now) then [g] + rest else rest
  }

  /** A leader without a team sees no assignment on any tab. */
  lemma {:induction false} NoTeamSeesNothing(tab: Tab, gs: seq<GroupView>, ps: seq<ProjectView>, now: int)
    ensures FilterGroups(tab, gs, ps, None, now) == []
  {
    if gs != [] {
      NoTeamSeesNothing(tab, gs[1..], ps, now);
    }
  }

  // ---------------------------------------------------------------------------
  // Submitting to the project manager

  /**
   * The "Submit to PM" action is offered on the ongoing tab, for an assignment
   * not COMPLETED, REJECTED, REJECTION_REQ or PENDING_ACK, once nothing is missing.
   */
  predicate CanSubmitToPM(tab: Tab, ga: GroupView, ms: seq<MemberView>) {
    && tab == Ongoing
    && ga.status != Completed && ga.status != Rejected
    && ga.status != RejectionReq && ga.status != PendingAck
    && FullyComplete(ga, ms)
  }

  /** The update the action sends: status PENDING_ACK and completionTime = now, nothing else. */
  function SubmitUpdate(now: int): (u: Database.GroupUpdate)
    ensures !Database.Scores(u.status, u.rating)
  {
    Database.NoGroupChange(false).(status := Some(PendingAck), completionTime := Some(now))
  }

  /** Submitting moves the stored row to PENDING_ACK with the submission time and leaves every other column alone. */
  lemma SubmitWrites(row: Database.GroupRow, now: int)
    ensures Database.CoalesceGroup(row, Database.EffectiveGroupUpdate(SubmitUpdate(now), now))
         == row.(status := PendingAck, completionTime := Some(now))
  {
  }

  /** Only fully covered work can be submitted, and a submitted assignment cannot be submitted again. */
  lemma SubmitOnce(tab: Tab, ga: GroupView, ms: seq<MemberView>, now: int)
    requires CanSubmitToPM(tab, ga, ms)
    ensures forall d, p, w :: (d in ga.divisions && p in ga.partNos && w in ga.workTypes
      ==> IsCovered(CompletedFor(ms, ga.id), d, p, w))
    ensures !CanSubmitToPM(tab, ga.(status := PendingAck, completionTime := Some(now)), ms)
  {
    FullyCompleteMeans(ga, ms);
  }
}
