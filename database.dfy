/**
 * The data layer of backend/db.js as a class over its tables: scoring
 * (`applyScore`), pausing and resuming projects (`toggleHold`), rework
 * (`triggerRework`), the status-driven assignment updates with their
 * COALESCE writes, the revokes and the cascading deletes. Every table is a map
 * from row id to row. Times are integer milliseconds since the epoch.
 */
module Database {

  import opened Wrappers
  import opened Types
  import opened Scoring
  import opened SqlArgs
  import Scope

  /** The score columns of a `users` or `teams` row. */
  datatype Account = Account(bonusPoints: real, blackmarks: real)

  /** A `projects` row; the three scope lists are the decoded JSON columns. */
  datatype ProjectRow = ProjectRow(
    name: string, date: string,
    divisions: seq<string>, partNos: seq<string>, workTypes: seq<string>,
    status: ProjectStatus, remarks: string,
    holdStartTime: Option<int>, totalHoldDuration: int)

  /** A `groupAssignments` row: the work of one project given to one team. */
  datatype GroupRow = GroupRow(
    projectId: int, teamId: int, scope: Scope.StoredScope, fileSize: string,
    assignedTime: int, eta: int, status: Status, remarks: string,
    completionTime: Option<int>, rating: int, rejectionReason: Option<string>)

  /** A `memberAssignments` row: part of a group assignment given to one member. */
  datatype MemberRow = MemberRow(
    groupAssignmentId: int, memberId: int, scope: Scope.StoredScope,
    assignedTime: int, eta: int, completionTime: Option<int>, status: Status,
    remarks: string, reworkFromId: Option<int>,
    bonusAwarded: real, blackmarksAwarded: real, rating: int,
    rejectionReason: Option<string>, screenshot: Option<string>)

  /**
   * The `updates` object of `updateGroupAssignment` as the statement binds it:
   * None is a NULL parameter, which COALESCE turns into "leave unchanged".
   */
  datatype GroupUpdate = GroupUpdate(
    projectId: Option<int>, teamId: Option<int>, scope: Option<seq<ScopeItem>>,
    fileSize: Option<string>, assignedTime: Option<int>, eta: Option<int>,
    status: Option<Status>, remarks: Option<string>, completionTime: Option<int>,
    rating: Option<int>, rejectionReason: Option<string>, overrideBlackmark: bool)

  /** The `updates` object of `updateMemberAssignment`, bound the same way. */
  datatype MemberUpdate = MemberUpdate(
    groupAssignmentId: Option<int>, memberId: Option<int>, scope: Option<seq<ScopeItem>>,
    assignedTime: Option<int>, eta: Option<int>, completionTime: Option<int>,
    status: Option<Status>, remarks: Option<string>, reworkFromId: Option<int>,
    bonusAwarded: Option<real>, blackmarksAwarded: Option<real>, rating: Option<int>,
    rejectionReason: Option<string>, screenshot: Option<string>, overrideBlackmark: bool)

  /** How a call ends: normally, or with the exception the JavaScript would throw. */
  datatype Outcome = Done | Failed(reason: string)

  // ---------------------------------------------------------------------------
  // Ledgers

  /**
   * `UPDATE ... SET bonusPoints = bonusPoints + ?, blackmarks = blackmarks + ?
   * WHERE id = ?`: exactly the award is added to row `id`, no other row changes,
   * and a missing row is not created.
   */
  function Credit(ledger: map<int, Account>, id: int, a: Award): (r: map<int, Account>)
    ensures r.Keys == ledger.Keys
    ensures forall k :: k in ledger && k != id ==> r[k] == ledger[k]
    ensures id in ledger ==>
      r[id].bonusPoints == ledger[id].bonusPoints + a.bonus
      && r[id].blackmarks == ledger[id].blackmarks + a.blackmark
  {
    if id in ledger then
      ledger[id := Account(ledger[id].bonusPoints + a.bonus, ledger[id].blackmarks + a.blackmark)]
    else ledger
  }

  /** Two credits to the same row add up to one credit of the summed award. */
  lemma CreditTwice(ledger: map<int, Account>, id: int, a: Award, b: Award)
    ensures Credit(Credit(ledger, id, a), id, b)
         == Credit(ledger, id, Award(a.bonus + b.bonus, a.blackmark + b.blackmark))
  {
    var lhs := Credit(Credit(ledger, id, a), id, b);
    var rhs := Credit(ledger, id, Award(a.bonus + b.bonus, a.blackmark + b.blackmark));
    assert forall k :: k in lhs ==> lhs[k] == rhs[k];
  }

  /** Credits commute, so the order in which penalties are booked does not matter. */
  lemma CreditsCommute(ledger: map<int, Account>, i: int, j: int, a: Award, b: Award)
    ensures Credit(Credit(ledger, i, a), j, b) == Credit(Credit(ledger, j, b), i, a)
  {
    var lhs := Credit(Credit(ledger, i, a), j, b);
    var rhs := Credit(Credit(ledger, j, b), i, a);
    assert forall k :: k in lhs ==> lhs[k] == rhs[k];
  }

  // ---------------------------------------------------------------------------
  // Hold and resume

  /**
   * `diffMins` of `toggleHold`: the whole minutes elapsed since the hold began
   * (floored), or 0 when no hold start is recorded.
   */
  function HoldMinutes(holdStart: Option<int>, now: int): (m: int)
    ensures holdStart.None? ==> m == 0
    ensures holdStart.Some? ==>
      m * MsPerMinute <= now - holdStart.value < (m + 1) * MsPerMinute
  {
    match holdStart
    case None => 0
    case Some(t) => (now - t) / MsPerMinute
  }

  /** The project paused at `now`: ON_HOLD with the hold start recorded. */
  function HeldRow(p: ProjectRow, now: int): (r: ProjectRow)
    ensures r.status == OnHold && r.holdStartTime == Some(now)
    ensures r.(status := p.status, holdStartTime := p.holdStartTime) == p
  {
    p.(status := OnHold, holdStartTime := Some(now))
  }

  /** The project resumed after `mins` minutes: ACTIVE, no hold start, the minutes added. */
  function ResumedRow(p: ProjectRow, mins: int): (r: ProjectRow)
    ensures r.status == Active && r.holdStartTime.None?
    ensures r.totalHoldDuration == p.totalHoldDuration + mins
    ensures r.(status := p.status, holdStartTime := p.holdStartTime, totalHoldDuration := p.totalHoldDuration) == p
  {
    p.(status := Active, holdStartTime := None, totalHoldDuration := p.totalHoldDuration + mins)
  }

  /** `extendProjectEta`: pushes back the eta of every non-COMPLETED group assignment of a project. */
  function ShiftGroupEtas(gs: map<int, GroupRow>, projectId: int, mins: int): (r: map<int, GroupRow>)
    ensures r.Keys == gs.Keys
    ensures forall g :: g in gs && gs[g].projectId == projectId && gs[g].status != Completed ==>
      r[g] == gs[g].(eta := gs[g].eta + mins * MsPerMinute)
    ensures forall g :: g in gs && (gs[g].projectId != projectId || gs[g].status == Completed) ==>
      r[g] == gs[g]
  {
    map g | g in gs :: if gs[g].projectId == projectId && gs[g].status != Completed
      then gs[g].(eta := gs[g].eta + mins * MsPerMinute) else gs[g]
  }

  /** The group assignment `g` exists and belongs to project `projectId`. */
  predicate InProject(gs: map<int, GroupRow>, g: int, projectId: int) {
    g in gs && gs[g].projectId == projectId
  }

  /**
   * `extendMemberEta`: pushes back the eta of every non-COMPLETED member
   * assignment whose group assignment belongs to the project.
   */
  function ShiftMemberEtas(ms: map<int, MemberRow>, gs: map<int, GroupRow>, projectId: int, mins: int): (r: map<int, MemberRow>)
    ensures r.Keys == ms.Keys
    ensures forall m :: m in ms && InProject(gs, ms[m].groupAssignmentId, projectId) && ms[m].status != Completed ==>
      r[m] == ms[m].(eta := ms[m].eta + mins * MsPerMinute)
    ensures forall m :: m in ms && (!InProject(gs, ms[m].groupAssignmentId, projectId) || ms[m].status == Completed) ==>
      r[m] == ms[m]
  {
    map m | m in ms :: if InProject(gs, ms[m].groupAssignmentId, projectId) && ms[m].status != Completed
      then ms[m].(eta := ms[m].eta + mins * MsPerMinute) else ms[m]
  }

  /** Two successive shifts are one shift by the summed minutes. */
  lemma ShiftGroupEtasAdditive(gs: map<int, GroupRow>, projectId: int, a: int, b: int)
    ensures ShiftGroupEtas(ShiftGroupEtas(gs, projectId, a), projectId, b) == ShiftGroupEtas(gs, projectId, a + b)
  {
    var lhs := ShiftGroupEtas(ShiftGroupEtas(gs, projectId, a), projectId, b);
    var rhs := ShiftGroupEtas(gs, projectId, a + b);
    forall g | g in lhs ensures lhs[g] == rhs[g] {
      if gs[g].projectId == projectId && gs[g].status != Completed {
        assert gs[g].eta + a * MsPerMinute + b * MsPerMinute == gs[g].eta + (a + b) * MsPerMinute;
      }
    }
  }

  /** Two successive member shifts are one shift by the summed minutes. */
  lemma ShiftMemberEtasAdditive(ms: map<int, MemberRow>, gs: map<int, GroupRow>, projectId: int, a: int, b: int)
    ensures ShiftMemberEtas(ShiftMemberEtas(ms, gs, projectId, a), gs, projectId, b) == ShiftMemberEtas(ms, gs, projectId, a + b)
  {
    var lhs := ShiftMemberEtas(ShiftMemberEtas(ms, gs, projectId, a), gs, projectId, b);
    var rhs := ShiftMemberEtas(ms, gs, projectId, a + b);
    forall m | m in lhs ensures lhs[m] == rhs[m] {
      if InProject(gs, ms[m].groupAssignmentId, projectId) && ms[m].status != Completed {
        assert ms[m].eta + a * MsPerMinute + b * MsPerMinute == ms[m].eta + (a + b) * MsPerMinute;
      }
    }
  }

  /**
   * Pausing at `t0` and resuming at `t1` gives the project back ACTIVE, with no
   * hold start and the whole minutes in between added to its hold total.
   */
  lemma HoldRoundTrip(p: ProjectRow, t0: int, t1: int)
    ensures var mins := HoldMinutes(HeldRow(p, t0).holdStartTime, t1);
      mins == (t1 - t0) / MsPerMinute
      && ResumedRow(HeldRow(p, t0), mins)
         == p.(status := Active, holdStartTime := None, totalHoldDuration := p.totalHoldDuration + (t1 - t0) / MsPerMinute)
  {
  }

  /** A hold of 45 minutes and 30 seconds adds 45 minutes. */
  lemma HoldOfFortyFiveAndAHalfMinutes(p: ProjectRow, t0: int)
    ensures ResumedRow(HeldRow(p, t0), HoldMinutes(Some(t0), t0 + 45 * MsPerMinute + 30000)).totalHoldDuration
         == p.totalHoldDuration + 45
  {
    assert HoldMinutes(Some(t0), t0 + 45 * MsPerMinute + 30000) == 45;
  }

  // ---------------------------------------------------------------------------
  // Rework

  /**
   * The member assignment `m` is a culprit of a rework of `projectId` with
   * scope `rework`: it belongs to the project and its scope overlaps.
   */
  predicate IsCulprit(ms: map<int, MemberRow>, gs: map<int, GroupRow>, m: int, projectId: int, rework: seq<ScopeItem>) {
    m in ms && InProject(gs, ms[m].groupAssignmentId, projectId)
    && Scope.CheckScopeOverlap(ms[m].scope, rework)
  }

  /** The member assignments a rework of `projectId` with scope `rework` penalises. */
  function Culprits(ms: map<int, MemberRow>, gs: map<int, GroupRow>, projectId: int, rework: seq<ScopeItem>): (cs: set<int>)
    ensures cs <= ms.Keys
    ensures forall m :: m in cs <==> IsCulprit(ms, gs, m, projectId, rework)
  {
    set m | m in ms && IsCulprit(ms, gs, m, projectId, rework)
  }

  /** The ids in `cs` below `bound`: the rows a scan in id order has passed. */
  function Below(cs: set<int>, bound: int): (r: set<int>)
    ensures forall c :: c in r <==> c in cs && c < bound
  {
    set c | c in cs && c < bound
  }

  /** How many of the assignments `cs` belong to member `u`: one penalty each. */
  function PenaltyCount(ms: map<int, MemberRow>, cs: set<int>, u: int): (n: nat)
    ensures cs == {} ==> n == 0
  {
    var own := set c | c in cs && c in ms && ms[c].memberId == u;
    assert cs == {} ==> own == {};
    |own|
  }

  /**
   * The ledger after the rework penalties for the assignments `cs`: every user
   * gets `rate` blackmarks per assignment of theirs in `cs` and no bonus.
   */
  function Penalized(ledger: map<int, Account>, ms: map<int, MemberRow>, cs: set<int>, rate: real): (r: map<int, Account>)
    ensures r.Keys == ledger.Keys
    ensures forall u :: u in ledger ==> r[u].bonusPoints == ledger[u].bonusPoints
  {
    map u | u in ledger :: Account(ledger[u].bonusPoints, ledger[u].blackmarks + Times(PenaltyCount(ms, cs, u), rate))
  }

  lemma PenalizedNothing(ledger: map<int, Account>, ms: map<int, MemberRow>, rate: real)
    ensures Penalized(ledger, ms, {}, rate) == ledger
  {
    var r := Penalized(ledger, ms, {}, rate);
    forall u | u in ledger ensures r[u] == ledger[u] {
      assert PenaltyCount(ms, {}, u) == 0;
    }
  }

  /** Booking one more culprit is one more credit of `rate` blackmarks to its member. */
  lemma PenalizedStep(ledger: map<int, Account>, ms: map<int, MemberRow>, cs: set<int>, c: int, rate: real)
    requires c in ms && c !in cs
    ensures Credit(Penalized(ledger, ms, cs, rate), ms[c].memberId, Award(0.0, rate))
         == Penalized(ledger, ms, cs + {c}, rate)
  {
    var lhs := Credit(Penalized(ledger, ms, cs, rate), ms[c].memberId, Award(0.0, rate));
    var rhs := Penalized(ledger, ms, cs + {c}, rate);
    forall u | u in ledger ensures lhs[u] == rhs[u] {
      PenalizedStepAt(ledger, ms, cs, c, rate, u);
    }
  }

  lemma PenalizedStepAt(ledger: map<int, Account>, ms: map<int, MemberRow>, cs: set<int>, c: int, rate: real, u: int)
    requires c in ms && c !in cs && u in ledger
    ensures Credit(Penalized(ledger, ms, cs, rate), ms[c].memberId, Award(0.0, rate))[u]
         == Penalized(ledger, ms, cs + {c}, rate)[u]
  {
    PenaltyCountStep(ms, cs, c, u);
  }

  /** `n` repeated additions of `rate`: the penalties of `n` culprit assignments. */
  function Times(n: nat, rate: real): (t: real)
    ensures n == 0 ==> t == 0.0
  {
    if n == 0 then 0.0 else Times(n - 1, rate) + rate
  }

  /** Repeated addition is multiplication. */
  lemma {:induction false} TimesIsProduct(n: nat, rate: real)
    ensures Times(n, rate) == n as real * rate
  {
    if n > 0 {
      TimesIsProduct(n - 1, rate);
      assert n as real * rate == (n - 1) as real * rate + rate;
    }
  }

  /** Adding one assignment to the counted set adds one penalty to its member only. */
  lemma PenaltyCountStep(ms: map<int, MemberRow>, cs: set<int>, c: int, u: int)
    requires c in ms && c !in cs
    ensures PenaltyCount(ms, cs + {c}, u) == PenaltyCount(ms, cs, u) + (if ms[c].memberId == u then 1 else 0)
  {
    var before := set x | x in cs && x in ms && ms[x].memberId == u;
    var after := set x | x in cs + {c} && x in ms && ms[x].memberId == u;
    if ms[c].memberId == u {
      assert after == before + {c};
    } else {
      assert after == before;
    }
  }

  /** The penalties of a set of culprits split over two disjoint parts of it. */
  lemma {:induction false} PenaltyCountSplit(ms: map<int, MemberRow>, a: set<int>, b: set<int>, u: int)
    requires a !! b
    ensures PenaltyCount(ms, a + b, u) == PenaltyCount(ms, a, u) + PenaltyCount(ms, b, u)
  {
    var sa := set x | x in a && x in ms && ms[x].memberId == u;
    var sb := set x | x in b && x in ms && ms[x].memberId == u;
    var sab := set x | x in a + b && x in ms && ms[x].memberId == u;
    assert sab == sa + sb;
    assert sa !! sb;
  }

  // ---------------------------------------------------------------------------
  // Assignment updates

  /** `updates.status === 'COMPLETED' && updates.rating`: the update that scores. */
  predicate Scores(status: Option<Status>, rating: Option<int>) {
    status == Some(Completed) && rating.Some? && rating.value != 0
  }

  /** `COALESCE(?, col)` on every column of a group assignment row. */
  function CoalesceGroup(row: GroupRow, u: GroupUpdate): (r: GroupRow)
    ensures r.projectId == Coalesce(u.projectId, row.projectId) && r.teamId == Coalesce(u.teamId, row.teamId)
    ensures u.scope.None? ==> r.scope == row.scope
    ensures u.scope.Some? ==> r.scope == Scope.Tree(u.scope.value)
    ensures r.fileSize == Coalesce(u.fileSize, row.fileSize) && r.assignedTime == Coalesce(u.assignedTime, row.assignedTime)
    ensures r.eta == Coalesce(u.eta, row.eta) && r.status == Coalesce(u.status, row.status)
    ensures r.remarks == Coalesce(u.remarks, row.remarks) && r.rating == Coalesce(u.rating, row.rating)
    ensures r.completionTime == (if u.completionTime.Some? then u.completionTime else row.completionTime)
    ensures r.rejectionReason == (if u.rejectionReason.Some? then u.rejectionReason else row.rejectionReason)
  {
    GroupRow(
      Coalesce(u.projectId, row.projectId), Coalesce(u.teamId, row.teamId),
      if u.scope.Some? then Scope.Tree(u.scope.value) else row.scope,
      Coalesce(u.fileSize, row.fileSize), Coalesce(u.assignedTime, row.assignedTime),
      Coalesce(u.eta, row.eta), Coalesce(u.status, row.status), Coalesce(u.remarks, row.remarks),
      if u.completionTime.Some? then u.completionTime else row.completionTime,
      Coalesce(u.rating, row.rating),
      if u.rejectionReason.Some? then u.rejectionReason else row.rejectionReason)
  }

  /** The update that binds NULL everywhere. */
  function NoGroupChange(overrideBlackmark: bool): GroupUpdate {
    GroupUpdate(None, None, None, None, None, None, None, None, None, None, None, overrideBlackmark)
  }

  /** A NULL in every parameter leaves the row as it was. */
  lemma CoalesceGroupNothing(row: GroupRow, o: bool)
    ensures CoalesceGroup(row, NoGroupChange(o)) == row
  {
  }

  /** Repeating the same update changes nothing more. */
  lemma CoalesceGroupIdempotent(row: GroupRow, u: GroupUpdate)
    ensures CoalesceGroup(CoalesceGroup(row, u), u) == CoalesceGroup(row, u)
  {
  }

  /** `COALESCE(?, col)` on every column of a member assignment row. */
  function CoalesceMember(row: MemberRow, u: MemberUpdate): (r: MemberRow)
    ensures r.groupAssignmentId == Coalesce(u.groupAssignmentId, row.groupAssignmentId)
    ensures r.memberId == Coalesce(u.memberId, row.memberId)
    ensures u.scope.None? ==> r.scope == row.scope
    ensures u.scope.Some? ==> r.scope == Scope.Tree(u.scope.value)
    ensures r.assignedTime == Coalesce(u.assignedTime, row.assignedTime) && r.eta == Coalesce(u.eta, row.eta)
    ensures r.completionTime == (if u.completionTime.Some? then u.completionTime else row.completionTime)
    ensures r.status == Coalesce(u.status, row.status) && r.remarks == Coalesce(u.remarks, row.remarks)
    ensures r.reworkFromId == (if u.reworkFromId.Some? then u.reworkFromId else row.reworkFromId)
    ensures r.bonusAwarded == Coalesce(u.bonusAwarded, row.bonusAwarded)
    ensures r.blackmarksAwarded == Coalesce(u.blackmarksAwarded, row.blackmarksAwarded)
    ensures r.rating == Coalesce(u.rating, row.rating)
    ensures r.rejectionReason == (if u.rejectionReason.Some? then u.rejectionReason else row.rejectionReason)
    ensures r.screenshot == (if u.screenshot.Some? then u.screenshot else row.screenshot)
  {
    MemberRow(
      Coalesce(u.groupAssignmentId, row.groupAssignmentId), Coalesce(u.memberId, row.memberId),
      if u.scope.Some? then Scope.Tree(u.scope.value) else row.scope,
      Coalesce(u.assignedTime, row.assignedTime), Coalesce(u.eta, row.eta),
      if u.completionTime.Some? then u.completionTime else row.completionTime,
      Coalesce(u.status, row.status), Coalesce(u.remarks, row.remarks),
      if u.reworkFromId.Some? then u.reworkFromId else row.reworkFromId,
      Coalesce(u.bonusAwarded, row.bonusAwarded), Coalesce(u.blackmarksAwarded, row.blackmarksAwarded),
      Coalesce(u.rating, row.rating),
      if u.rejectionReason.Some? then u.rejectionReason else row.rejectionReason,
      if u.screenshot.Some? then u.screenshot else row.screenshot)
  }

  /** Repeating the same member update changes nothing more. */
  lemma CoalesceMemberIdempotent(row: MemberRow, u: MemberUpdate)
    ensures CoalesceMember(CoalesceMember(row, u), u) == CoalesceMember(row, u)
  {
  }

  /**
   * The group update as written after the status branch: a scoring update
   * also carries completionTime = now.
   */
  function EffectiveGroupUpdate(u: GroupUpdate, now: int): (e: GroupUpdate)
    ensures Scores(u.status, u.rating) ==> e == u.(completionTime := Some(now))
    ensures !Scores(u.status, u.rating) ==> e == u
  {
    if Scores(u.status, u.rating) then u.(completionTime := Some(now)) else u
  }

  /**
   * The member update as written after the status branch: a scoring update
   * also records the award it booked.
   */
  function EffectiveMemberUpdate(u: MemberUpdate, a: Award): (e: MemberUpdate)
    ensures Scores(u.status, u.rating) ==>
      e == u.(bonusAwarded := Some(a.bonus), blackmarksAwarded := Some(a.blackmark))
    ensures !Scores(u.status, u.rating) ==> e == u
  {
    if Scores(u.status, u.rating)
    then u.(bonusAwarded := Some(a.bonus), blackmarksAwarded := Some(a.blackmark))
    else u
  }

  /**
   * The member score the COMPLETED branch books: against the completion time
   * already stored on the row (`new Date(null)` is the epoch), not the one in
   * the update.
   */
  function MemberAward(cfg: Config, row: MemberRow, rating: int, overrideBlackmark: bool): (a: Award)
    ensures row.completionTime.Some? ==>
      a == Score(cfg, row.eta, row.completionTime.value, rating, overrideBlackmark)
    ensures row.completionTime.None? && row.eta >= 0 ==>
      a.blackmark == 0.0 && a.bonus == Setting(cfg, BonusOnTimeKey, 3.0) + StarBonus(cfg, rating)
  {
    Score(cfg, row.eta, row.completionTime.GetOr(0), rating, overrideBlackmark)
  }

  /**
   * The update text of a member review that scores records exactly the award
   * booked to the member's ledger.
   */
  lemma MemberRecordsBookedAward(cfg: Config, row: MemberRow, u: MemberUpdate)
    requires Scores(u.status, u.rating)
    ensures var a := MemberAward(cfg, row, u.rating.value, u.overrideBlackmark);
      var r := CoalesceMember(row, EffectiveMemberUpdate(u, a));
      r.bonusAwarded == a.bonus && r.blackmarksAwarded == a.blackmark && r.status == Completed
  {
  }

  // ---------------------------------------------------------------------------
  // Revokes

  /** `SET status = 'IN_PROGRESS', completionTime = NULL` on a group row. */
  function RevokedGroupWork(row: GroupRow): (r: GroupRow)
    ensures r.status == InProgress && r.completionTime.None?
    ensures r.(status := row.status, completionTime := row.completionTime) == row
  {
    row.(status := InProgress, completionTime := None)
  }

  /** `SET status = 'IN_PROGRESS', rejectionReason = NULL` on a group row. */
  function RevokedGroupRejection(row: GroupRow): (r: GroupRow)
    ensures r.status == InProgress && r.rejectionReason.None?
    ensures r.(status := row.status, rejectionReason := row.rejectionReason) == row
  {
    row.(status := InProgress, rejectionReason := None)
  }

  /** `SET status = 'IN_PROGRESS', completionTime = NULL` on a member row. */
  function RevokedMemberWork(row: MemberRow): (r: MemberRow)
    ensures r.status == InProgress && r.completionTime.None?
    ensures r.(status := row.status, completionTime := row.completionTime) == row
  {
    row.(status := InProgress, completionTime := None)
  }

  /** `SET status = 'IN_PROGRESS', rejectionReason = NULL` on a member row. */
  function RevokedMemberRejection(row: MemberRow): (r: MemberRow)
    ensures r.status == InProgress && r.rejectionReason.None?
    ensures r.(status := row.status, rejectionReason := row.rejectionReason) == row
  {
    row.(status := InProgress, rejectionReason := None)
  }

  /**
   * Revoking an accepted member review keeps the award it recorded: the
   * ledgers are never touched, and the row still shows the booked award.
   */
  lemma RevokeKeepsRecordedAward(row: MemberRow)
    ensures RevokedMemberWork(row).bonusAwarded == row.bonusAwarded
    ensures RevokedMemberWork(row).blackmarksAwarded == row.blackmarksAwarded
    ensures RevokedMemberWork(row).rating == row.rating
  {
  }

  // ---------------------------------------------------------------------------
  // Cascading deletes

  /** Every group assignment names an existing project, every member assignment an existing group assignment. */
  predicate Integrity(ps: map<int, ProjectRow>, gs: map<int, GroupRow>, ms: map<int, MemberRow>) {
    (forall g :: g in gs ==> gs[g].projectId in ps)
    && (forall m :: m in ms ==> ms[m].groupAssignmentId in gs)
  }

  /** `DELETE FROM groupAssignments WHERE projectId = ?`. */
  function GroupsOutsideProject(gs: map<int, GroupRow>, projectId: int): (r: map<int, GroupRow>)
    ensures forall g :: g in r <==> g in gs && gs[g].projectId != projectId
    ensures forall g :: g in r ==> r[g] == gs[g]
  {
    map g | g in gs && gs[g].projectId != projectId :: gs[g]
  }

  /** `DELETE FROM memberAssignments WHERE groupAssignmentId IN (SELECT id FROM groupAssignments WHERE projectId = ?)`. */
  function MembersOutsideProject(ms: map<int, MemberRow>, gs: map<int, GroupRow>, projectId: int): (r: map<int, MemberRow>)
    ensures forall m :: m in r <==> m in ms && !InProject(gs, ms[m].groupAssignmentId, projectId)
    ensures forall m :: m in r ==> r[m] == ms[m]
  {
    map m | m in ms && !InProject(gs, ms[m].groupAssignmentId, projectId) :: ms[m]
  }

  /** `DELETE FROM memberAssignments WHERE groupAssignmentId = ?`. */
  function MembersOutsideGroup(ms: map<int, MemberRow>, groupId: int): (r: map<int, MemberRow>)
    ensures forall m :: m in r <==> m in ms && ms[m].groupAssignmentId != groupId
    ensures forall m :: m in r ==> r[m] == ms[m]
  {
    map m | m in ms && ms[m].groupAssignmentId != groupId :: ms[m]
  }

  /** Deleting rows never puts an id at or above its table's next id. */
  lemma FewerRowsStayBelow<V>(kept: map<int, V>, all: map<int, V>, next: int)
    requires kept.Keys <= all.Keys
    requires forall k :: k in all ==> k < next
    ensures forall k :: k in kept ==> k < next
  {
  }

  /** Deleting a project with its cascade leaves no dangling reference behind. */
  lemma DeleteProjectKeepsIntegrity(ps: map<int, ProjectRow>, gs: map<int, GroupRow>, ms: map<int, MemberRow>, projectId: int)
    requires Integrity(ps, gs, ms)
    ensures Integrity(ps - {projectId}, GroupsOutsideProject(gs, projectId), MembersOutsideProject(ms, gs, projectId))
  {
    var gs' := GroupsOutsideProject(gs, projectId);
    var ms' := MembersOutsideProject(ms, gs, projectId);
    forall m | m in ms' ensures ms'[m].groupAssignmentId in gs' {
      var g := ms[m].groupAssignmentId;
      assert g in gs && !InProject(gs, g, projectId);
    }
  }

  /** Deleting a group assignment with its members leaves no dangling reference behind. */
  lemma DeleteGroupKeepsIntegrity(ps: map<int, ProjectRow>, gs: map<int, GroupRow>, ms: map<int, MemberRow>, groupId: int)
    requires Integrity(ps, gs, ms)
    ensures Integrity(ps, gs - {groupId}, MembersOutsideGroup(ms, groupId))
  {
  }

  /** Without the cascade, deleting a group assignment can leave orphaned member rows. */
  lemma DeleteGroupWithoutCascadeOrphans(ps: map<int, ProjectRow>, gs: map<int, GroupRow>, ms: map<int, MemberRow>, m: int)
    requires m in ms && ms[m].groupAssignmentId in gs
    ensures !Integrity(ps, gs - {ms[m].groupAssignmentId}, ms)
  {
    assert ms[m].groupAssignmentId !in gs - {ms[m].groupAssignmentId};
  }

  // ---------------------------------------------------------------------------
  // Statement arity

  /** The placeholders of `updateProject` and `insertProject`. */
  const UpdateProjectParams: nat := 10
  const InsertProjectParams: nat := 7

  /** The AUTOINCREMENT id the seeded admin row receives in an empty `users` table. */
  const AdminId: int := 1

  /** The seeded `system_config` rows: the scoring amounts and the two feature switches. */
  const SeededConfig: Config := Defaults["ALLOW_TIME_EDIT" := 0.0]["ALLOW_SIGNUP" := 1.0]

  /**
   * One `stmt.run(...)` of the SQLite driver: it refuses to run, writing
   * nothing, unless exactly as many values are bound as there are placeholders.
   */
  function RunArity(params: nat, bound: nat): (r: Outcome)
    ensures r.Done? <==> bound == params
  {
    if bound < params then Failed("Too few parameter values were provided")
    else if bound > params then Failed("Too many parameter values were provided")
    else Done
  }

  // ---------------------------------------------------------------------------
  // The database

  class Db {
    var users: map<int, Account>
    var teams: map<int, Account>
    var projects: map<int, ProjectRow>
    var groups: map<int, GroupRow>
    var members: map<int, MemberRow>
    var config: Config
    /** The next AUTOINCREMENT ids of `projects` and `groupAssignments`. */
    var nextProjectId: int
    var nextGroupId: int
    /** One past the largest `memberAssignments` id handed out so far. */
    var nextMemberId: int

    /** Every row id lies below the next id its table will hand out. */
    ghost predicate Valid()
      reads this
    {
      (forall p :: p in projects ==> p < nextProjectId)
      && (forall g :: g in groups ==> g < nextGroupId)
      && 0 <= nextMemberId && (forall m :: m in members ==> 0 <= m < nextMemberId)
    }

    /**
     * A fresh database: the seeded admin account (row 1, an empty ledger), no
     * other rows, and the seeded configuration.
     */
    constructor ()
      ensures Valid()
      ensures users == map[AdminId := Account(0.0, 0.0)] && teams == map[] && projects == map[] && groups == map[] && members == map[]
      ensures config == SeededConfig
    {
      users := map[AdminId := Account(0.0, 0.0)];
      teams, projects, groups, members := map[], map[], map[], map[];
      config := SeededConfig;
      nextProjectId, nextGroupId, nextMemberId := 1, 1, 1;
    }

    /**
     * `applyScore`: works out the award and adds exactly it to the team row
     * (isTeam) or the user row, leaving every other row alone.
     */
    method ApplyScore(isTeam: bool, id: int, eta: int, completedAt: int, rating: int, overrideBlackmark: bool)
      returns (a: Award)
      modifies this`users, this`teams
      ensures a == Score(config, eta, completedAt, rating, overrideBlackmark)
      ensures isTeam ==> teams == Credit(old(teams), id, a) && users == old(users)
      ensures !isTeam ==> users == Credit(old(users), id, a) && teams == old(teams)
    {
      var bonus := 0.0;
      var blackmark := 0.0;
      var delay := completedAt - eta;
      if delay <= 0 {
        bonus := bonus + Setting(config, BonusOnTimeKey, 3.0);
      }
      if rating == 3 {
        bonus := bonus + Setting(config, BonusStar3Key, 1.0);
      } else if rating == 4 {
        bonus := bonus + Setting(config, BonusStar4Key, 2.0);
      } else if rating == 5 {
        bonus := bonus + Setting(config, BonusStar5Key, 3.0);
      }
      if delay > MsPerHour && !overrideBlackmark {
        blackmark := blackmark + PerHour(delay / MsPerHour, Setting(config, BmDelayPerHrKey, 1.0));
      }
      a := Award(bonus, blackmark);
      assert a.bonus == Score(config, eta, completedAt, rating, overrideBlackmark).bonus;
      assert a.blackmark == Score(config, eta, completedAt, rating, overrideBlackmark).blackmark;
      if isTeam {
        teams := Credit(teams, id, a);
      } else {
        users := Credit(users, id, a);
      }
    }

    /**
     * `toggleHold`: pausing marks the project ON_HOLD from `now`; resuming marks
     * it ACTIVE, adds the whole hold minutes to its total and, when there are
     * any, pushes back the eta of its non-COMPLETED assignments by as much.
     * A missing project fails before anything is written.
     */
    method ToggleHold(projectId: int, isHold: bool, now: int) returns (r: Outcome)
      requires Valid()
      modifies this`projects, this`groups, this`members
      ensures Valid()
      ensures r.Failed? <==> projectId !in old(projects)
      ensures r.Failed? ==> projects == old(projects) && groups == old(groups) && members == old(members)
      ensures r.Done? && isHold ==>
        projects == old(projects)[projectId := HeldRow(old(projects)[projectId], now)]
        && groups == old(groups) && members == old(members)
      ensures r.Done? && !isHold ==>
        var mins := HoldMinutes(old(projects)[projectId].holdStartTime, now);
        projects == old(projects)[projectId := ResumedRow(old(projects)[projectId], mins)]
        && (mins > 0 ==> groups == ShiftGroupEtas(old(groups), projectId, mins)
                         && members == ShiftMemberEtas(old(members), old(groups), projectId, mins))
        && (mins <= 0 ==> groups == old(groups) && members == old(members))
    {
      if projectId !in projects {
        return Failed("project not found");
      }
      var p := projects[projectId];
      if isHold {
        projects := projects[projectId := HeldRow(p, now)];
      } else {
        var diffMins := HoldMinutes(p.holdStartTime, now);
        projects := projects[projectId := ResumedRow(p, diffMins)];
        if diffMins > 0 {
          groups := ShiftGroupEtas(groups, projectId, diffMins);
          members := ShiftMemberEtas(members, groups, projectId, diffMins);
        }
      }
      r := Done;
    }

    /**
     * `triggerRework`: books BM_REWORK blackmarks (default 5) once for every
     * member assignment of the project whose scope overlaps the rework scope,
     * then inserts the shadow project "<name> R" (ACTIVE, "REWORK Generated")
     * and one PENDING group assignment for it ("REWORK ORDER", rating 0).
     * A missing project fails after the penalties are booked.
     */
    method TriggerRework(projectId: int, teamId: int, scope: seq<ScopeItem>,
                         assignedTime: int, eta: int, fileSize: string, today: string)
      returns (r: Result<(int, int), string>)
      requires Valid()
      modifies this
      ensures Valid()
      ensures teams == old(teams) && members == old(members) && config == old(config)
      ensures nextMemberId == old(nextMemberId)
      ensures users == Penalized(old(users), members, Culprits(members, old(groups), projectId, scope),
                                 Setting(config, BmReworkKey, 5.0))
      ensures r.Err? <==> projectId !in old(projects)
      ensures r.Err? ==>
        (projects == old(projects) && groups == old(groups)
         && nextProjectId == old(nextProjectId) && nextGroupId == old(nextGroupId))
      ensures r.Ok? ==>
        var p := old(projects)[projectId];
        r.value == (old(nextProjectId), old(nextGroupId))
        && projects == old(projects)[old(nextProjectId) := ProjectRow(
             p.name + " R", today, Scope.Divisions(scope), Scope.PartNames(scope), Scope.WorkTypeNames(scope),
             Active, "REWORK Generated", None, 0)]
        && groups == old(groups)[old(nextGroupId) := GroupRow(
             old(nextProjectId), teamId, Scope.Tree(scope), fileSize, assignedTime, eta,
             Pending, "REWORK ORDER", None, 0, None)]
        && old(nextProjectId) !in old(projects) && old(nextGroupId) !in old(groups)
        && nextProjectId == old(nextProjectId) + 1 && nextGroupId == old(nextGroupId) + 1
    {
      BookPenalties(Culprits(members, groups, projectId, scope), Setting(config, BmReworkKey, 5.0));
      if projectId !in projects {
        return Err("project not found");
      }
      var p := projects[projectId];
      var newProjectId := nextProjectId;
      projects := projects[newProjectId := ProjectRow(
        p.name + " R", today, Scope.Divisions(scope), Scope.PartNames(scope), Scope.WorkTypeNames(scope),
        Active, "REWORK Generated", None, 0)];
      nextProjectId := nextProjectId + 1;
      var newGroupId := nextGroupId;
      groups := groups[newGroupId := GroupRow(
        newProjectId, teamId, Scope.Tree(scope), fileSize, assignedTime, eta,
        Pending, "REWORK ORDER", None, 0, None)];
      nextGroupId := nextGroupId + 1;
      r := Ok((newProjectId, newGroupId));
    }

    /**
     * `toggleHold` as written: a missing project fails on `p.name`, and both
     * branches bind 8 values to `updateProject`'s 10 placeholders, so the
     * statement is refused and nothing is written, in either direction.
     */
    method ToggleHoldAsWritten(projectId: int, isHold: bool) returns (r: Outcome)
      ensures r.Failed?
    {
      if projectId !in projects {
        return Failed("project not found");
      }
      // The pause and the resume both bind the same 8 values.
      r := RunArity(UpdateProjectParams, 8);
    }

    /**
     * `triggerRework` as written: the penalties are booked, then `insertProject`
     * is given 5 values for its 7 placeholders and refused, so no shadow project
     * or group assignment is ever created (`insertGroupAssignment`, with 9 values
     * for 8 placeholders, is never reached).
     */
    method TriggerReworkAsWritten(projectId: int, scope: seq<ScopeItem>) returns (r: Outcome)
      requires Valid()
      modifies this`users
      ensures r.Failed?
      ensures users == Penalized(old(users), members, Culprits(members, groups, projectId, scope),
                                 Setting(config, BmReworkKey, 5.0))
    {
      BookPenalties(Culprits(members, groups, projectId, scope), Setting(config, BmReworkKey, 5.0));
      if projectId !in projects {
        return Failed("project not found");
      }
      r := RunArity(InsertProjectParams, 5);
    }

    /**
     * The penalty loop of `triggerRework`: `rate` blackmarks and no bonus for
     * the member of every culprit assignment, once per assignment.
     */
    method BookPenalties(culprits: set<int>, rate: real)
      requires Valid() && culprits <= members.Keys
      modifies this`users
      ensures users == Penalized(old(users), members, culprits, rate)
    {
      var id := 0;
      PenalizedNothing(users, members, rate);
      assert Below(culprits, 0) == {};
      while id < nextMemberId
        invariant 0 <= id <= nextMemberId
        invariant users == Penalized(old(users), members, Below(culprits, id), rate)
      {
        if id in culprits {
          PenalizedStep(old(users), members, Below(culprits, id), id, rate);
          users := Credit(users, members[id].memberId, Award(0.0, rate));
          assert Below(culprits, id + 1) == Below(culprits, id) + {id};
        } else {
          assert Below(culprits, id + 1) == Below(culprits, id);
        }
        id := id + 1;
      }
      assert Below(culprits, id) == culprits;
    }

    /** The group assignment `id` and the project and team it joins with all exist. */
    ghost predicate GroupJoined(id: int)
      reads this
    {
      id in groups && groups[id].projectId in projects && groups[id].teamId in teams
    }

    /**
     * `updateGroupAssignment`: a COMPLETED update with a non-zero rating scores
     * the team against the stored eta and `now` (whatever the previous status)
     * and stamps completionTime = now; then every non-NULL field is written.
     * Without the joined row the COMPLETED, REJECTED and, when some manager
     * exists to notify, PENDING_ACK / REJECTION_REQ branches fail before writing.
     */
    method UpdateGroupAssignment(id: int, u: GroupUpdate, now: int, managersExist: bool) returns (r: Outcome)
      requires Valid()
      modifies this`groups, this`teams, this`users
      ensures Valid()
      ensures users == old(users)
      ensures r.Failed? <==>
        (!old(GroupJoined(id)) &&
         (Scores(u.status, u.rating) || u.status == Some(Rejected)
          || (managersExist && (u.status == Some(PendingAck) || u.status == Some(RejectionReq)))))
      ensures r.Failed? ==> groups == old(groups) && teams == old(teams)
      ensures r.Done? ==>
        groups == (if id in old(groups)
                   then old(groups)[id := CoalesceGroup(old(groups)[id], EffectiveGroupUpdate(u, now))]
                   else old(groups))
      ensures r.Done? && Scores(u.status, u.rating) ==>
        teams == Credit(old(teams), old(groups)[id].teamId,
                        Score(config, old(groups)[id].eta, now, u.rating.value, u.overrideBlackmark))
      ensures r.Done? && !Scores(u.status, u.rating) ==> teams == old(teams)
    {
      var joined := id in groups && groups[id].projectId in projects && groups[id].teamId in teams;
      if Scores(u.status, u.rating) {
        if !joined {
          return Failed("group assignment not found");
        }
        var ga := groups[id];
        var _ := ApplyScore(true, ga.teamId, ga.eta, now, u.rating.value, u.overrideBlackmark);
      } else if u.status == Some(PendingAck) || u.status == Some(RejectionReq) {
        if !joined && managersExist {
          return Failed("group assignment not found");
        }
      } else if u.status == Some(Rejected) {
        if !joined {
          return Failed("group assignment not found");
        }
      }
      var e := EffectiveGroupUpdate(u, now);
      if id in groups {
        groups := groups[id := CoalesceGroup(groups[id], e)];
      }
      r := Done;
    }

    /** The member assignment `id` and the user and group assignment it joins with all exist. */
    ghost predicate MemberJoined(id: int)
      reads this
    {
      id in members && members[id].memberId in users && members[id].groupAssignmentId in groups
    }

    /**
     * `updateMemberAssignment`: a COMPLETED update with a non-zero rating scores
     * the member against the stored eta and the stored completionTime and
     * records the award on the row; then every non-NULL field is written.
     * Without the joined row the COMPLETED, PENDING_ACK, REJECTION_REQ and
     * REJECTED branches fail before writing.
     */
    method UpdateMemberAssignment(id: int, u: MemberUpdate) returns (r: Outcome)
      requires Valid()
      modifies this`members, this`users, this`teams
      ensures Valid()
      ensures teams == old(teams)
      ensures r.Failed? <==>
        (!old(MemberJoined(id)) &&
         (Scores(u.status, u.rating) || u.status == Some(PendingAck)
          || u.status == Some(RejectionReq) || u.status == Some(Rejected)))
      ensures r.Failed? ==> members == old(members) && users == old(users)
      ensures r.Done? && Scores(u.status, u.rating) ==>
        var a := MemberAward(config, old(members)[id], u.rating.value, u.overrideBlackmark);
        users == Credit(old(users), old(members)[id].memberId, a)
        && members == old(members)[id := CoalesceMember(old(members)[id], EffectiveMemberUpdate(u, a))]
      ensures r.Done? && !Scores(u.status, u.rating) ==>
        users == old(users)
        && members == (if id in old(members) then old(members)[id := CoalesceMember(old(members)[id], u)] else old(members))
    {
      var joined := id in members && members[id].memberId in users && members[id].groupAssignmentId in groups;
      var e := u;
      if Scores(u.status, u.rating) {
        if !joined {
          return Failed("member assignment not found");
        }
        var ma := members[id];
        var a := ApplyScore(false, ma.memberId, ma.eta, ma.completionTime.GetOr(0), u.rating.value, u.overrideBlackmark);
        e := EffectiveMemberUpdate(u, a);
      } else if u.status == Some(PendingAck) || u.status == Some(RejectionReq) || u.status == Some(Rejected) {
        if !joined {
          return Failed("member assignment not found");
        }
      }
      if id in members {
        members := members[id := CoalesceMember(members[id], e)];
      }
      r := Done;
    }

    /** `revokeGroupWork`: back to IN_PROGRESS with the completion time cleared; nothing else changes. */
    method RevokeGroupWork(id: int)
      requires Valid()
      modifies this`groups
      ensures Valid()
      ensures groups == if id in old(groups) then old(groups)[id := RevokedGroupWork(old(groups)[id])] else old(groups)
    {
      if id in groups {
        groups := groups[id := RevokedGroupWork(groups[id])];
      }
    }

    /** `revokeGroupRejection`: back to IN_PROGRESS with the rejection reason cleared. */
    method RevokeGroupRejection(id: int)
      requires Valid()
      modifies this`groups
      ensures Valid()
      ensures groups == if id in old(groups) then old(groups)[id := RevokedGroupRejection(old(groups)[id])] else old(groups)
    {
      if id in groups {
        groups := groups[id := RevokedGroupRejection(groups[id])];
      }
    }

    /** `revokeMemberWork`: back to IN_PROGRESS with the completion time cleared. */
    method RevokeMemberWork(id: int)
      requires Valid()
      modifies this`members
      ensures Valid()
      ensures members == if id in old(members) then old(members)[id := RevokedMemberWork(old(members)[id])] else old(members)
    {
      if id in members {
        members := members[id := RevokedMemberWork(members[id])];
      }
    }

    /** `revokeMemberRejection`: back to IN_PROGRESS with the rejection reason cleared. */
    method RevokeMemberRejection(id: int)
      requires Valid()
      modifies this`members
      ensures Valid()
      ensures members == if id in old(members) then old(members)[id := RevokedMemberRejection(old(members)[id])] else old(members)
    {
      if id in members {
        members := members[id := RevokedMemberRejection(members[id])];
      }
    }

    /**
     * `deleteProject`: removes the project, its group assignments and their
     * member assignments; an id `safeInt` cannot read (NULL or NaN) matches
     * nothing.
     */
    method DeleteProject(id: JsValue)
      requires Valid()
      modifies this`projects, this`groups, this`members
      ensures Valid()
      ensures AsSqlInt(SafeInt(id)).None? ==>
        projects == old(projects) && groups == old(groups) && members == old(members)
      ensures AsSqlInt(SafeInt(id)).Some? ==>
        var pid := AsSqlInt(SafeInt(id)).value;
        members == MembersOutsideProject(old(members), old(groups), pid)
        && groups == GroupsOutsideProject(old(groups), pid)
        && projects == old(projects) - {pid}
    {
      DeleteProjectWhere(AsSqlInt(SafeInt(id)));
    }

    /** The three DELETE statements of `deleteProject` with the bound id. */
    method DeleteProjectWhere(safeId: Option<int>)
      requires Valid()
      modifies this`projects, this`groups, this`members
      ensures Valid()
      ensures safeId.None? ==> projects == old(projects) && groups == old(groups) && members == old(members)
      ensures safeId.Some? ==>
        members == MembersOutsideProject(old(members), old(groups), safeId.value)
        && groups == GroupsOutsideProject(old(groups), safeId.value)
        && projects == old(projects) - {safeId.value}
    {
      if safeId.Some? {
        var pid := safeId.value;
        var remainingMembers := MembersOutsideProject(members, groups, pid);
        var remainingGroups := GroupsOutsideProject(groups, pid);
        assert remainingMembers.Keys <= members.Keys;
        assert remainingGroups.Keys <= groups.Keys;
        FewerRowsStayBelow(remainingGroups, groups, nextGroupId);
        FewerRowsStayBelow(remainingMembers, members, nextMemberId);
        members := remainingMembers;
        groups := remainingGroups;
        projects := projects - {pid};
      }
    }

    /** `deleteGroupAssignment`: removes the group assignment and its member assignments. */
    method DeleteGroupAssignment(id: JsValue)
      requires Valid()
      modifies this`groups, this`members
      ensures Valid()
      ensures AsSqlInt(SafeInt(id)).None? ==> groups == old(groups) && members == old(members)
      ensures AsSqlInt(SafeInt(id)).Some? ==>
        var gid := AsSqlInt(SafeInt(id)).value;
        members == MembersOutsideGroup(old(members), gid) && groups == old(groups) - {gid}
    {
      DeleteGroupAssignmentWhere(AsSqlInt(SafeInt(id)));
    }

    /** The two DELETE statements of `deleteGroupAssignment` with the bound id. */
    method DeleteGroupAssignmentWhere(safeId: Option<int>)
      requires Valid()
      modifies this`groups, this`members
      ensures Valid()
      ensures safeId.None? ==> groups == old(groups) && members == old(members)
      ensures safeId.Some? ==>
        members == MembersOutsideGroup(old(members), safeId.value) && groups == old(groups) - {safeId.value}
    {
      if safeId.Some? {
        var remaining := MembersOutsideGroup(members, safeId.value);
        assert remaining.Keys <= members.Keys;
        FewerRowsStayBelow(remaining, members, nextMemberId);
        members := remaining;
        groups := groups - {safeId.value};
      }
    }

    /** `deleteMemberAssignment`: removes that one member assignment. */
    method DeleteMemberAssignment(id: JsValue)
      requires Valid()
      modifies this`members
      ensures Valid()
      ensures AsSqlInt(SafeInt(id)).None? ==> members == old(members)
      ensures AsSqlInt(SafeInt(id)).Some? ==> members == old(members) - {AsSqlInt(SafeInt(id)).value}
    {
      var safeId := AsSqlInt(SafeInt(id));
      if safeId.Some? {
        members := members - {safeId.value};
      }
    }
  }
}
