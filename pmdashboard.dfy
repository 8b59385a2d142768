/**
 * The project manager's dashboard logic (components/PMDashboard.tsx): the scope
 * list builders of the project form, project-wide completion of one scope item,
 * the allocation / progress figures of a project and the tab filter of the
 * project list.
 */
module PMDashboard {

  import opened Wrappers
  import opened Types
  import opened JsText
  import opened Lists
  import opened Completion

  // ---------------------------------------------------------------------------
  // Scope list builders

  /** `parseInt(count) || 0`: NaN and 0 both give 0. */
  function CountOf(count: string): (c: int)
    ensures c != 0 <==> ParseInt(count).Some? && ParseInt(count).value != 0
    ensures c != 0 ==> ParseInt(count) == Some(c)
  {
    ParseInt(count).GetOr(0)
  }

  /** `parseInt(start) || 1`: NaN and 0 both give 1. */
  function StartOf(start: string): (s: int)
    ensures s != 0
    ensures ParseInt(start).Some? && ParseInt(start).value != 0 ==> s == ParseInt(start).value
    ensures ParseInt(start).None? || ParseInt(start) == Some(0) ==> s == 1
  {
    match ParseInt(start)
    case Some(v) => if v != 0 then v else 1
    case None => 1
  }

  /**
   * `generateItems(prefix, count, start)`: nothing for an empty prefix or a
   * count that is not positive, otherwise `count` names `prefix` followed by the
   * decimal numbers start, start + 1, ...
   */
  function GenerateItems(prefix: string, count: string, start: string): (r: seq<string>)
    ensures prefix == [] || CountOf(count) <= 0 ==> r == []
    ensures prefix != [] && CountOf(count) > 0 ==> |r| == CountOf(count)
    ensures forall i :: 0 <= i < |r| ==> r[i] == prefix + IntToString(StartOf(start) + i)
  {
    var c := CountOf(count);
    if prefix == [] || c <= 0 then [] else Numbered(prefix, StartOf(start), c)
  }

  /** `Array.from({ length: c }, (_, i) => `${prefix}${s + i}`)`. */
  function Numbered(prefix: string, s: int, c: nat): (r: seq<string>)
    ensures |r| == c
    ensures forall i :: 0 <= i < c ==> r[i] == prefix + IntToString(s + i)
  {
    seq(c, i requires 0 <= i < c => prefix + IntToString(s + i))
  }

  /** The generated names are pairwise different. */
  lemma GeneratedDistinct(prefix: string, count: string, start: string)
    ensures Distinct(GenerateItems(prefix, count, start))
  {
    NumberedDistinct(prefix, StartOf(start), GenerateItems(prefix, count, start));
  }

  /** Names numbered consecutively after one prefix are pairwise different. */
  lemma NumberedDistinct(prefix: string, start: int, r: seq<string>)
    requires forall i :: 0 <= i < |r| ==> r[i] == prefix + IntToString(start + i)
    ensures Distinct(r)
  {
    forall i, j | 0 <= i < j < |r| ensures r[i] != r[j] {
      NumberedPairDiffers(prefix, start, r[i], r[j], i, j);
    }
  }

  lemma NumberedPairDiffers(prefix: string, start: int, x: string, y: string, i: int, j: int)
    requires x == prefix + IntToString(start + i) && y == prefix + IntToString(start + j)
    requires i != j
    ensures x != y
  {
    NamesInjective(prefix, start + i, start + j);
  }

  /** Different numbers give different names. */
  lemma NamesInjective(prefix: string, a: int, b: int)
    ensures prefix + IntToString(a) == prefix + IntToString(b) ==> a == b
  {
    if prefix + IntToString(a) == prefix + IntToString(b) {
      assert (prefix + IntToString(a))[|prefix|..] == IntToString(a);
      assert (prefix + IntToString(b))[|prefix|..] == IntToString(b);
      IntToStringInjective(a, b);
    }
  }

  /** Every generated name carries its number: stripping the prefix parses back to it. */
  lemma GeneratedNumbers(prefix: string, count: string, start: string, i: int)
    requires 0 <= i < |GenerateItems(prefix, count, start)|
    ensures var r := GenerateItems(prefix, count, start);
      |prefix| <= |r[i]| && r[i][..|prefix|] == prefix
      && ParseInt(r[i][|prefix|..]) == Some(StartOf(start) + i)
  {
    NameReadsBack(prefix, StartOf(start) + i);
  }

  /** The name `prefix + n` starts with the prefix, and parsing what follows gives `n` back. */
  lemma NameReadsBack(prefix: string, n: int)
    ensures var name := prefix + IntToString(n);
      |prefix| <= |name| && name[..|prefix|] == prefix && ParseInt(name[|prefix|..]) == Some(n)
  {
    var name := prefix + IntToString(n);
    assert name[|prefix|..] == IntToString(n);
    ParseIntRoundTrip(n);
  }

  /**
   * Numbers typed into the count and start fields give exactly `n` names,
   * numbered from the start on.
   */
  lemma GenerateFromTypedNumbers(prefix: string, n: int, start: int)
    requires prefix != [] && n > 0 && start != 0
    ensures var r := GenerateItems(prefix, IntToString(n), IntToString(start));
      && |r| == n
      && (forall i :: 0 <= i < n ==> r[i] == prefix + IntToString(start + i))
  {
    TypedNumber(n);
    TypedNumber(start);
  }

  /** A number typed into a field reads back as itself, for the count as for the start. */
  lemma TypedNumber(n: int)
    ensures CountOf(IntToString(n)) == n
    ensures n != 0 ==> StartOf(IntToString(n)) == n
  {
    ParseIntRoundTrip(n);
  }

  /** A blank start field numbers the names from 1. */
  lemma GenerateFromBlankStart(prefix: string, count: string)
    ensures forall i :: 0 <= i < |GenerateItems(prefix, count, "")| ==>
      GenerateItems(prefix, count, "")[i] == prefix + IntToString(1 + i)
  {
    assert ParseInt("") == None;
  }

  /** A count that is not a number generates nothing. */
  lemma GenerateWithoutCount(prefix: string)
    ensures GenerateItems(prefix, "abc", "1") == []
  {
    ParseIntOfLetter("abc");
  }

  /**
   * `addGenerated*`: when something was generated, the list becomes
   * `Array.from(new Set([...list, ...newItems]))`, otherwise it is left alone.
   * A list without duplicates keeps its order and gains exactly the generated
   * names it did not hold.
   */
  function AddGenerated(list: seq<string>, prefix: string, count: string, start: string): (r: seq<string>)
    ensures GenerateItems(prefix, count, start) == [] ==> r == list
    ensures Distinct(list) ==>
      && |list| <= |r| && r[..|list|] == list && Distinct(r)
      && (forall y :: y in r[|list|..] <==> y in GenerateItems(prefix, count, start) && y !in list)
  {
    var items := GenerateItems(prefix, count, start);
    if |items| > 0 then
      assert Distinct(list) ==> var r := Dedup(list + items);
        && |list| <= |r| && r[..|list|] == list && Distinct(r)
        && (forall y :: y in r[|list|..] <==> y in items && y !in list) by {
        if Distinct(list) { MergeKeepsPrefix(list, items); }
      }
      Dedup(list + items)
    else list
  }

  /** Generating names none of which is already listed adds all `count` of them. */
  lemma AddGeneratedFresh(list: seq<string>, prefix: string, count: string, start: string)
    requires Distinct(list)
    requires forall y :: y in GenerateItems(prefix, count, start) ==> y !in list
    ensures AddGenerated(list, prefix, count, start) == list + GenerateItems(prefix, count, start)
  {
    var items := GenerateItems(prefix, count, start);
    GeneratedDistinct(prefix, count, start);
    if |items| > 0 {
      DistinctAppend(list, items);
      DedupDistinct(list + items);
    }
  }

  /**
   * `addManual*`: the trimmed entry is merged in when it is not blank. A list
   * without duplicates gains the entry at its end unless it already holds it.
   */
  function AddManual(list: seq<string>, entry: string): (r: seq<string>)
    ensures Trim(entry) == [] ==> r == list
    ensures Distinct(list) && Trim(entry) != [] ==>
      r == if Trim(entry) in list then list else list + [Trim(entry)]
  {
    var t := Trim(entry);
    if t != [] then
      assert Distinct(list) ==> Dedup(list + [t]) == if t in list then list else list + [t] by {
        if Distinct(list) { MergeSingle(list, t); }
      }
      Dedup(list + [t])
    else list
  }

  lemma MergeSingle(list: seq<string>, t: string)
    requires Distinct(list)
    ensures Dedup(list + [t]) == if t in list then list else list + [t]
  {
    if t in list {
      DedupDistinct(list);
      assert (list + [t])[..|list|] == list;
    } else {
      DistinctAppend(list, [t]);
      DedupDistinct(list + [t]);
    }
  }

  /** Adding the same manual entry twice is the same as adding it once. */
  lemma AddManualIdempotent(list: seq<string>, entry: string)
    requires Distinct(list)
    ensures AddManual(AddManual(list, entry), entry) == AddManual(list, entry)
  {
    var t := Trim(entry);
    if t != [] && t !in list {
      DistinctAppend(list, [t]);
    }
  }

  // ---------------------------------------------------------------------------
  // Project-wide completion of one scope item

  /** The group assignment belongs to the project and lists `v` on the axis. */
  predicate Relevant(ga: GroupView, projectId: int, axis: Axis, v: string) {
    ga.projectId == projectId && v in AxisList(ga, axis)
  }

  /** `relevantGAs`: the project's group assignments that were given the item. */
  function RelevantGroups(gs: seq<GroupView>, projectId: int, axis: Axis, v: string): (r: seq<GroupView>)
    ensures forall g :: g in r <==> g in gs && Relevant(g, projectId, axis, v)
  {
    if gs == [] then []
    else
      var rest := RelevantGroups(gs[1..], projectId, axis, v);
      assert forall g :: g in gs <==> g == gs[0] || g in gs[1..] by {
        assert gs == [gs[0]] + gs[1..];
      }
      if Relevant(gs[0], projectId, axis, v) then [gs[0]] + rest else rest
  }

  /** `relevantGAs.every(ga => isItemComplete(ga, type, value))`. */
  function AllItemComplete(rs: seq<GroupView>, ms: seq<MemberView>, axis: Axis, v: string): (b: bool)
    ensures b <==> forall g :: g in rs ==> IsItemComplete(g, ms, axis, v)
  {
    if rs == [] then true
    else
      var rest := AllItemComplete(rs[1..], ms, axis, v);
      assert forall g :: g in rs <==> g == rs[0] || g in rs[1..] by {
        assert rs == [rs[0]] + rs[1..];
      }
      IsItemComplete(rs[0], ms, axis, v) && rest
  }

  /**
   * `isProjectItemComplete(projectId, type, value)`: some group assignment of
   * the project was given the item, and every one that was has completed it.
   */
  function IsProjectItemComplete(gs: seq<GroupView>, ms: seq<MemberView>, projectId: int, axis: Axis, v: string): (b: bool)
    ensures b <==> (
      && (exists g :: g in gs && Relevant(g, projectId, axis, v))
      && (forall g :: g in gs && Relevant(g, projectId, axis, v) ==> IsItemComplete(g, ms, axis, v)))
  {
    var rs := RelevantGroups(gs, projectId, axis, v);
    if |rs| == 0 then false
    else
      assert rs[0] in rs;
      AllItemComplete(rs, ms, axis, v)
  }

  /** An item given to a single team is complete for the project exactly when that team completed it. */
  lemma ProjectItemSingleTeam(ga: GroupView, others: seq<GroupView>, ms: seq<MemberView>, axis: Axis, v: string)
    requires Relevant(ga, ga.projectId, axis, v)
    requires forall g :: g in others ==> !Relevant(g, ga.projectId, axis, v)
    ensures IsProjectItemComplete([ga] + others, ms, ga.projectId, axis, v) <==> IsItemComplete(ga, ms, axis, v)
  {
    assert ga in [ga] + others;
  }

  /** Completing more member work never makes a project item incomplete again. */
  lemma ProjectItemCompleteMonotone(gs: seq<GroupView>, ms: seq<MemberView>, m: MemberView, projectId: int, axis: Axis, v: string)
    requires IsProjectItemComplete(gs, ms, projectId, axis, v)
    ensures IsProjectItemComplete(gs, ms + [m], projectId, axis, v)
  {
    forall g | g in gs && Relevant(g, projectId, axis, v) ensures IsItemComplete(g, ms + [m], axis, v) {
      ItemCompleteMonotone(g, ms, m, axis, v);
    }
  }

  // ---------------------------------------------------------------------------
  // Project statistics

  function GroupUnits(ga: GroupView): int {
    Units(ga.divisions, ga.partNos, ga.workTypes)
  }

  /** `state.groupAssignments.filter(ga => ga.projectId === p.id)`. */
  function Assigns(gs: seq<GroupView>, projectId: int): (r: seq<GroupView>)
    ensures forall g :: g in r <==> g in gs && g.projectId == projectId
  {
    if gs == [] then []
    else
      var rest := Assigns(gs[1..], projectId);
      assert forall g :: g in gs <==> g == gs[0] || g in gs[1..] by {
        assert gs == [gs[0]] + gs[1..];
      }
      if gs[0].projectId == projectId then [gs[0]] + rest else rest
  }

  /** `state.memberAssignments.filter(ma => ma.groupAssignmentId === ga.id)`: every status. */
  function MembersOf(ms: seq<MemberView>, gaId: int): (r: seq<MemberView>)
    ensures forall m :: m in r <==> m in ms && m.groupAssignmentId == gaId
  {
    if ms == [] then []
    else
      var rest := MembersOf(ms[1..], gaId);
      assert forall m :: m in ms <==> m == ms[0] || m in ms[1..] by {
        assert ms == [ms[0]] + ms[1..];
      }
      if ms[0].groupAssignmentId == gaId then [ms[0]] + rest else rest
  }

  /** Filtering a concatenation filters each half: order and multiplicity are kept. */
  lemma {:induction false} AssignsAppend(a: seq<GroupView>, b: seq<GroupView>, projectId: int)
    ensures Assigns(a + b, projectId) == Assigns(a, projectId) + Assigns(b, projectId)
  {
    if a != [] {
      var head := if a[0].projectId == projectId then [a[0]] else [];
      assert (a + b)[0] == a[0];
      assert (a + b)[1..] == a[1..] + b;
      AssignsAppend(a[1..], b, projectId);
      assert Assigns(a + b, projectId) == head + Assigns(a[1..] + b, projectId);
      assert head + (Assigns(a[1..], projectId) + Assigns(b, projectId))
          == (head + Assigns(a[1..], projectId)) + Assigns(b, projectId);
    } else {
      assert a + b == b;
    }
  }

  /** Filtering a concatenation filters each half, so `members.length` counts every matching row once. */
  lemma {:induction false} MembersOfAppend(a: seq<MemberView>, b: seq<MemberView>, gaId: int)
    ensures MembersOf(a + b, gaId) == MembersOf(a, gaId) + MembersOf(b, gaId)
  {
    if a != [] {
      var head := if a[0].groupAssignmentId == gaId then [a[0]] else [];
      assert (a + b)[0] == a[0];
      assert (a + b)[1..] == a[1..] + b;
      MembersOfAppend(a[1..], b, gaId);
      assert MembersOf(a + b, gaId) == head + MembersOf(a[1..] + b, gaId);
      assert head + (MembersOf(a[1..], gaId) + MembersOf(b, gaId))
          == (head + MembersOf(a[1..], gaId)) + MembersOf(b, gaId);
    } else {
      assert a + b == b;
    }
  }

  /** The completed member assignments are among all member assignments of the group. */
  lemma {:induction false} CompletedAmongMembers(ms: seq<MemberView>, gaId: int)
    ensures |CompletedFor(ms, gaId)| <= |MembersOf(ms, gaId)|
  {
    if ms != [] {
      CompletedAmongMembers(ms[1..], gaId);
    }
  }

  /**
   * The completed units one group assignment contributes: all of its units
   * when it is COMPLETED, otherwise its units in proportion to its completed
   * member assignments (none when it has no member assignment).
   */
  function GroupShare(ga: GroupView, ms: seq<MemberView>): real {
    var units := GroupUnits(ga) as real;
    if ga.status == Completed then units
    else
      var members := |MembersOf(ms, ga.id)|;
      var done := |CompletedFor(ms, ga.id)|;
      if members > 0 then Proportion(done, members, units) else 0.0
  }

  /** `(memDone / members.length) * units`. */
  function Proportion(done: int, members: int, units: real): (r: real)
    requires members > 0
    ensures done == 0 ==> r == 0.0
    ensures done == members ==> r == units
  {
    (done as real / members as real) * units
  }

  /** A part of the members never earns more than all the units. */
  lemma ProportionBounds(done: int, members: int, units: real)
    requires 0 <= done <= members && members > 0 && units >= 0.0
    ensures 0.0 <= Proportion(done, members, units) <= units
  {
    var f := done as real / members as real;
    assert 0.0 <= f <= 1.0;
    assert f * units <= 1.0 * units;
  }

  /** A group assignment never contributes more than the units it was given. */
  lemma ShareBounds(ga: GroupView, ms: seq<MemberView>)
    ensures 0.0 <= GroupShare(ga, ms) <= GroupUnits(ga) as real
  {
    var members := |MembersOf(ms, ga.id)|;
    if ga.status != Completed && members > 0 {
      CompletedAmongMembers(ms, ga.id);
      ProportionBounds(|CompletedFor(ms, ga.id)|, members, GroupUnits(ga) as real);
    }
  }

  /** `allocatedUnits` after the loop: the units of all listed group assignments. */
  function AllocSum(assigns: seq<GroupView>): (n: int)
    ensures n >= 0
  {
    if assigns == [] then 0
    else AllocSum(assigns[..|assigns| - 1]) + GroupUnits(assigns[|assigns| - 1])
  }

  /** `completedUnits` after the loop: the shares of all listed group assignments. */
  function DoneSum(assigns: seq<GroupView>, ms: seq<MemberView>): real {
    if assigns == [] then 0.0
    else DoneSum(assigns[..|assigns| - 1], ms) + GroupShare(assigns[|assigns| - 1], ms)
  }

  /** Completed work never exceeds allocated work. */
  lemma {:induction false} DoneWithinAllocated(assigns: seq<GroupView>, ms: seq<MemberView>)
    ensures 0.0 <= DoneSum(assigns, ms) <= AllocSum(assigns) as real
  {
    if assigns != [] {
      DoneWithinAllocated(assigns[..|assigns| - 1], ms);
      ShareBounds(assigns[|assigns| - 1], ms);
    }
  }

  /** The two figures of a project card. */
  datatype Stats = Stats(progress: int, allocation: int)

  /** What `getProjectStats(p)` returns, as a function of the shown state. */
  function ProjectStats(p: ProjectView, gs: seq<GroupView>, ms: seq<MemberView>): Stats {
    var total := Units(p.divisions, p.partNos, p.workTypes);
    var assigns := Assigns(gs, p.id);
    Stats(Percent(DoneSum(assigns, ms), total), Percent(AllocSum(assigns) as real, total))
  }

  /**
   * `getProjectStats(p)`: one pass over the project's group assignments that
   * accumulates allocated and completed units, then both as rounded
   * percentages of the project's own units.
   */
  method GetProjectStats(p: ProjectView, gs: seq<GroupView>, ms: seq<MemberView>) returns (progress: int, allocation: int)
    ensures Stats(progress, allocation) == ProjectStats(p, gs, ms)
    ensures 0 <= progress <= allocation
  {
    var totalUnits := Units(p.divisions, p.partNos, p.workTypes);
    var assigns := Assigns(gs, p.id);
    var completedUnits: real := 0.0;
    var allocatedUnits: int := 0;
    var i := 0;
    while i < |assigns|
      invariant 0 <= i <= |assigns|
      invariant allocatedUnits == AllocSum(assigns[..i])
      invariant completedUnits == DoneSum(assigns[..i], ms)
    {
      var ga := assigns[i];
      var units := Units(ga.divisions, ga.partNos, ga.workTypes);
      allocatedUnits := allocatedUnits + units;
      if ga.status == Completed {
        completedUnits := completedUnits + units as real;
      } else {
        var members := MembersOf(ms, ga.id);
        var memDone := |CompletedFor(ms, ga.id)|;
        if |members| > 0 {
          completedUnits := completedUnits + Proportion(memDone, |members|, units as real);
        }
      }
      assert assigns[..i + 1][..i] == assigns[..i];
      i := i + 1;
    }
    assert assigns[..i] == assigns;
    progress := Percent(completedUnits, totalUnits);
    allocation := Percent(allocatedUnits as real, totalUnits);
    ProgressWithinAllocation(p, gs, ms);
  }

  /** A project never shows more progress than allocation, and neither is negative. */
  lemma ProgressWithinAllocation(p: ProjectView, gs: seq<GroupView>, ms: seq<MemberView>)
    ensures 0 <= ProjectStats(p, gs, ms).progress <= ProjectStats(p, gs, ms).allocation
  {
    var total := Units(p.divisions, p.partNos, p.workTypes);
    var assigns := Assigns(gs, p.id);
    DoneWithinAllocated(assigns, ms);
    PercentMonotone(0.0, DoneSum(assigns, ms), total);
    PercentMonotone(DoneSum(assigns, ms), AllocSum(assigns) as real, total);
  }

  /** While no more units are allocated than the project has, both figures stay within 0..100. */
  lemma StatsWithinHundred(p: ProjectView, gs: seq<GroupView>, ms: seq<MemberView>)
    requires AllocSum(Assigns(gs, p.id)) <= Units(p.divisions, p.partNos, p.workTypes)
    ensures 0 <= ProjectStats(p, gs, ms).progress <= ProjectStats(p, gs, ms).allocation <= 100
  {
    var total := Units(p.divisions, p.partNos, p.workTypes);
    var assigns := Assigns(gs, p.id);
    ProgressWithinAllocation(p, gs, ms);
    PercentBounds(AllocSum(assigns) as real, total);
  }

  /**
   * A worked example: a project with divisions D1 and D2, part
   * P1 and work type WT1 has two units. Team A is given D1/P1/WT1 and its one
   * member assignment is COMPLETED: 50% allocated, 50% done. Team B is then
   * given D2/P1/WT1 and is IN_PROGRESS without member work: 100% allocated,
   * still 50% done.
   */
  lemma TwoTeamScenario()
    ensures var p := ProjectView(1, "P", Active, ["D1", "D2"], ["P1"], ["WT1"]);
      var a := GroupView(10, 1, 100, InProgress, ["D1"], ["P1"], ["WT1"], None);
      var b := GroupView(11, 1, 200, InProgress, ["D2"], ["P1"], ["WT1"], None);
      var ma := MemberView(20, 10, Completed, ["D1"], ["P1"], ["WT1"]);
      && ProjectStats(p, [a], [ma]) == Stats(50, 50)
      && ProjectStats(p, [a, b], [ma]) == Stats(50, 100)
  {
    var p := ProjectView(1, "P", Active, ["D1", "D2"], ["P1"], ["WT1"]);
    var a := GroupView(10, 1, 100, InProgress, ["D1"], ["P1"], ["WT1"], None);
    var b := GroupView(11, 1, 200, InProgress, ["D2"], ["P1"], ["WT1"], None);
    var ma := MemberView(20, 10, Completed, ["D1"], ["P1"], ["WT1"]);
    assert Assigns([a], 1) == [a];
    assert Assigns([a, b], 1) == [a, b] by {
      assert [a, b][1..] == [b];
      assert Assigns([b], 1) == [b];
    }
    assert GroupShare(a, [ma]) == 1.0 by {
      assert MembersOf([ma], 10) == [ma];
      assert CompletedFor([ma], 10) == [ma];
    }
    assert GroupShare(b, [ma]) == 0.0 by {
      assert MembersOf([ma], 11) == [];
    }
    assert [a, b][..1] == [a];
    assert Round(50.0) == 50 && Round(100.0) == 100;
  }

  /** Two teams given the same full scope show 200% allocation. */
  lemma OverAllocation()
    ensures var p := ProjectView(1, "P", Active, ["D1"], ["P1"], ["WT1"]);
      var a := GroupView(10, 1, 100, Pending, ["D1"], ["P1"], ["WT1"], None);
      var b := GroupView(11, 1, 200, Pending, ["D1"], ["P1"], ["WT1"], None);
      ProjectStats(p, [a, b], []).allocation == 200
  {
    var p := ProjectView(1, "P", Active, ["D1"], ["P1"], ["WT1"]);
    var a := GroupView(10, 1, 100, Pending, ["D1"], ["P1"], ["WT1"], None);
    var b := GroupView(11, 1, 200, Pending, ["D1"], ["P1"], ["WT1"], None);
    assert Assigns([a, b], 1) == [a, b] by {
      assert [a, b][1..] == [b];
      assert Assigns([b], 1) == [b];
    }
    assert [a, b][..1] == [a];
    assert GroupUnits(a) == 1 && GroupUnits(b) == 1 by {
      assert NatProduct(1, 1) == 1;
    }
    assert AllocSum([a]) == 1 by {
      assert [a][..0] == [];
    }
    assert AllocSum([a, b]) == 2;
    assert Round(200.0) == 200;
  }

  // ---------------------------------------------------------------------------
  // Project list tabs

  /** The tab rule of `getFilteredProjects` for a project's status and progress. */
  predicate ProjectTabMatch(tab: Tab, status: ProjectStatus, progress: int) {
    match tab
    case HoldTab => status == OnHold
    case CompletedTab => progress >= 100 && status != OnHold
    case Ongoing => progress < 100 && status != OnHold
    case Recent => progress >= 100
  }

  /** Every project is on exactly one of the hold, completed and ongoing tabs; completed ones are also recent. */
  lemma ProjectTabsPartition(status: ProjectStatus, progress: int)
    ensures ProjectTabMatch(HoldTab, status, progress)
         != (ProjectTabMatch(CompletedTab, status, progress) || ProjectTabMatch(Ongoing, status, progress))
    ensures !(ProjectTabMatch(CompletedTab, status, progress) && ProjectTabMatch(Ongoing, status, progress))
    ensures ProjectTabMatch(CompletedTab, status, progress) ==> ProjectTabMatch(Recent, status, progress)
  {
  }

  /** A project is shown on the tab by its status and its current progress. */
  predicate OnTab(tab: Tab, p: ProjectView, gs: seq<GroupView>, ms: seq<MemberView>) {
    ProjectTabMatch(tab, p.status, ProjectStats(p, gs, ms).progress)
  }

  /**
   * `getFilteredProjects()` with an empty search box: the projects whose status
   * and progress match the tab, in their order.
   */
  function FilterProjects(tab: Tab, ps: seq<ProjectView>, gs: seq<GroupView>, ms: seq<MemberView>): (r: seq<ProjectView>)
    ensures |r| <= |ps|
    ensures forall p :: p in r <==> p in ps && OnTab(tab, p, gs, ms)
  {
    if ps == [] then []
    else
      var rest := FilterProjects(tab, ps[1..], gs, ms);
      assert forall p :: p in ps <==> p == ps[0] || p in ps[1..] by {
        assert ps == [ps[0]] + ps[1..];
      }
      if OnTab(tab, ps[0], gs, ms) then [ps[0]] + rest else rest
  }

  /** The filter of a list with one more project in front. */
  lemma FilterProjectsCons(tab: Tab, p: ProjectView, rest: seq<ProjectView>, gs: seq<GroupView>, ms: seq<MemberView>)
    ensures FilterProjects(tab, [p] + rest, gs, ms)
         == (if OnTab(tab, p, gs, ms) then [p] else []) + FilterProjects(tab, rest, gs, ms)
  {
    assert ([p] + rest)[0] == p;
    assert ([p] + rest)[1..] == rest;
  }

  /** Filtering a concatenation filters each half: the projects keep their order. */
  lemma {:induction false} FilterProjectsAppend(tab: Tab, a: seq<ProjectView>, b: seq<ProjectView>, gs: seq<GroupView>, ms: seq<MemberView>)
    ensures FilterProjects(tab, a + b, gs, ms) == FilterProjects(tab, a, gs, ms) + FilterProjects(tab, b, gs, ms)
  {
    if a != [] {
      var head := if OnTab(tab, a[0], gs, ms) then [a[0]] else [];
      assert a == [a[0]] + a[1..];
      assert a + b == [a[0]] + (a[1..] + b);
      FilterProjectsCons(tab, a[0], a[1..] + b, gs, ms);
      FilterProjectsCons(tab, a[0], a[1..], gs, ms);
      FilterProjectsAppend(tab, a[1..], b, gs, ms);
      assert head + (FilterProjects(tab, a[1..], gs, ms) + FilterProjects(tab, b, gs, ms))
          == (head + FilterProjects(tab, a[1..], gs, ms)) + FilterProjects(tab, b, gs, ms);
    } else {
      assert a + b == b;
    }
  }

  /** Putting a project on hold moves it to the hold tab and off the ongoing and completed tabs. */
  lemma HeldProjectOnlyOnHoldTab(p: ProjectView, gs: seq<GroupView>, ms: seq<MemberView>)
    requires p.status == OnHold
    ensures p in FilterProjects(HoldTab, [p], gs, ms)
    ensures p !in FilterProjects(Ongoing, [p], gs, ms) && p !in FilterProjects(CompletedTab, [p], gs, ms)
  {
  }
}
