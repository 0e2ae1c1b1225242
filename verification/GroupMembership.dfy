/** Group membership in ground control, and what follows from it in the registry: the projects a
    satellite's robot account may read, and the state artifact that lists its groups. */
module GroupMembership {
  import opened Wrappers

  const SATELLITE_PROJECT: string := "satellite"

  /** A row of the membership table. */
  datatype Row = Row(satellite: string, group: string)

  /** A satellite's state artifact: the states of its groups, and the state of its config. */
  datatype Artifact = Artifact(states: seq<string>, config: string)

  /** `groups` has the projects of every group, `robots` the projects every satellite's robot may read,
      `configs` the name of every satellite's config, `artifacts` the satellites' state artifacts, and
      `groupArtifacts` the groups that have a state artifact of their own. */
  datatype State = State(
    groups: map<string, seq<string>>, rows: seq<Row>, robots: map<string, seq<string>>, configs: map<string, string>,
    artifacts: map<string, Artifact>, groupArtifacts: set<string>)

  datatype RequestError = InvalidName | SatelliteNotFound | GroupNotFound | ArtifactNotDeleted

  predicate IsNameStart(c: char) {
    'a' <= c <= 'z' || '0' <= c <= '9'
  }

  /** Lower-case letters, digits, dots, underscores and hyphens, with a letter or digit first. */
  predicate IsValidName(name: string) {
    && 1 <= |name| <= 255 && IsNameStart(name[0])
    && forall c <- name :: IsNameStart(c) || c == '.' || c == '_' || c == '-'
  }

  function AssembleGroupState(group: string): string {
    "/satellite/group-state/" + group + "/state:latest"
  }

  function AssembleConfigState(config: string): string {
    "/satellite/config-state/" + config + "/state:latest"
  }

  // ---------------------------------------------------------------- queries

  /** The groups of a satellite, in table order. */
  function GroupsOf(rows: seq<Row>, satellite: string): (list: seq<string>)
    ensures forall g :: g in list <==> Row(satellite, g) in rows
  {
    if rows == [] then []
    else
      var last, before := rows[|rows| - 1], GroupsOf(rows[..|rows| - 1], satellite);
      assert forall r :: r in rows <==> r in rows[..|rows| - 1] || r == last;
      if last.satellite == satellite then before + [last.group] else before
  }

  /** The satellites of a group, in table order. */
  function SatellitesOf(rows: seq<Row>, group: string): (list: seq<string>)
    ensures forall s :: s in list <==> Row(s, group) in rows
  {
    if rows == [] then []
    else
      var last, before := rows[|rows| - 1], SatellitesOf(rows[..|rows| - 1], group);
      assert forall r :: r in rows <==> r in rows[..|rows| - 1] || r == last;
      if last.group == group then before + [last.satellite] else before
  }

  /** Both lists are in table order, and have an entry for every row. */
  lemma {:induction false} ListsAreInTableOrder(rows: seq<Row>, more: seq<Row>, satellite: string, group: string)
    ensures GroupsOf(rows + more, satellite) == GroupsOf(rows, satellite) + GroupsOf(more, satellite)
    ensures SatellitesOf(rows + more, group) == SatellitesOf(rows, group) + SatellitesOf(more, group)
  {
    if more == [] {
      assert rows + more == rows;
    } else {
      assert (rows + more)[..|rows + more| - 1] == rows + more[..|more| - 1];
      ListsAreInTableOrder(rows, more[..|more| - 1], satellite, group);
    }
  }

  lemma {:induction false} EveryRowIsListedOnce(rows: seq<Row>, satellite: string, group: string)
    ensures multiset(GroupsOf(rows, satellite))[group] == multiset(rows)[Row(satellite, group)]
    ensures multiset(SatellitesOf(rows, group))[satellite] == multiset(rows)[Row(satellite, group)]
  {
    if rows != [] {
      var init, last := rows[..|rows| - 1], rows[|rows| - 1];
      assert rows == init + [last];
      EveryRowIsListedOnce(init, satellite, group);
    }
  }

  function WithoutRow(rows: seq<Row>, row: Row): (rest: seq<Row>)
    ensures forall r :: r in rest <==> r in rows && r != row
  {
    if rows == [] then []
    else
      var last, before := rows[|rows| - 1], WithoutRow(rows[..|rows| - 1], row);
      assert forall r :: r in rows <==> r in rows[..|rows| - 1] || r == last;
      if last == row then before else before + [last]
  }

  function ProjectsOf(groups: map<string, seq<string>>, list: seq<string>): seq<string>
    requires forall g | g in list :: g in groups
  {
    if list == [] then [] else ProjectsOf(groups, list[..|list| - 1]) + groups[list[|list| - 1]]
  }

  function GroupStates(list: seq<string>): (states: seq<string>)
    ensures |states| == |list|
  {
    if list == [] then [] else GroupStates(list[..|list| - 1]) + [AssembleGroupState(list[|list| - 1])]
  }

  // ---------------------------------------------------------------- requests

  /** Every row names a known satellite and a known group, and every satellite has a name and a config. */
  ghost predicate WellFormed(s: State) {
    && (forall r | r in s.rows :: r.satellite in s.robots && r.group in s.groups)
    && s.robots.Keys <= s.configs.Keys && "" !in s.robots
  }

  /** Rewrites the robot and the state artifact of a satellite from its groups. Without any group no
      artifact is written, and an old one stays. */
  function Refresh(s: State, satellite: string): State
    requires WellFormed(s) && satellite in s.robots
  {
    var list := GroupsOf(s.rows, satellite);
    var t := s.(robots := s.robots[satellite := ProjectsOf(s.groups, list) + [SATELLITE_PROJECT]]);
    if list == [] then t
    else
      var artifact := Artifact(GroupStates(list), AssembleConfigState(s.configs[satellite]));
      t.(artifacts := t.artifacts[satellite := artifact])
  }

  function Added(s: State, satellite: string, group: string): State
    requires WellFormed(s) && satellite in s.robots && group in s.groups
  {
    if Row(satellite, group) in s.rows then s
    else Refresh(s.(rows := s.rows + [Row(satellite, group)]), satellite)
  }

  function Removed(s: State, satellite: string, group: string): (t: State)
    requires WellFormed(s) && satellite in s.robots
    ensures WellFormed(t) && t.groups == s.groups && t.robots.Keys == s.robots.Keys
    ensures forall r :: r in t.rows <==> r in s.rows && r != Row(satellite, group)
  {
    Refresh(s.(rows := WithoutRow(s.rows, Row(satellite, group))), satellite)
  }

  function RemovedFromAll(s: State, satellites: seq<string>, group: string): (t: State)
    requires WellFormed(s) && forall x | x in satellites :: x in s.robots
    ensures WellFormed(t) && t.groups == s.groups && t.robots.Keys == s.robots.Keys
    ensures forall r :: r in t.rows <==> r in s.rows && !(r.group == group && r.satellite in satellites)
  {
    if satellites == [] then s
    else
      var last, before := satellites[|satellites| - 1], satellites[..|satellites| - 1];
      assert forall x :: x in satellites <==> x in before || x == last;
      Removed(RemovedFromAll(s, before, group), last, group)
  }

  /** `deleted` says whether the registry deletes the group's own artifact; by then the rest is done. */
  function WithoutGroup(s: State, group: string, deleted: bool): (t: State)
    requires WellFormed(s)
    ensures WellFormed(t)
    ensures forall r :: r in t.rows <==> r in s.rows && r.group != group
  {
    var t := RemovedFromAll(s, SatellitesOf(s.rows, group), group);
    t.(groups := t.groups - {group}, groupArtifacts := if deleted then t.groupArtifacts - {group} else t.groupArtifacts)
  }

  class GroundControl {
    var groups: map<string, seq<string>>
    var rows: seq<Row>
    var robots: map<string, seq<string>>
    var configs: map<string, string>
    var artifacts: map<string, Artifact>
    var groupArtifacts: set<string>

    ghost function Contents(): State
      reads this
    {
      State(groups, rows, robots, configs, artifacts, groupArtifacts)
    }

    method UpdateRobotProjects(satellite: string, projects: seq<string>)
      modifies this`robots
      ensures robots == old(robots)[satellite := projects + [SATELLITE_PROJECT]]
    {
      robots := robots[satellite := projects + [SATELLITE_PROJECT]];
    }

    method CreateOrUpdateSatStateArtifact(satellite: string, states: seq<string>, config: string) returns (ok: bool)
      modifies this`artifacts
      ensures ok <==> satellite != ""
      ensures
        artifacts == if !ok || states == [] then old(artifacts)
                     else old(artifacts)[satellite := Artifact(states, AssembleConfigState(config))]
    {
      if satellite == "" {
        return false;
      }
      if |states| == 0 {
        return true;
      }
      artifacts := artifacts[satellite := Artifact(states, AssembleConfigState(config))];
      return true;
    }

    /** What every request does after it has changed the rows of a satellite. */
    method RefreshSatellite(satellite: string)
      requires WellFormed(Contents()) && satellite in robots
      modifies this`robots, this`artifacts
      ensures Contents() == Refresh(old(Contents()), satellite)
    {
      var groupList := GroupsOf(rows, satellite);
      assert forall g | g in groupList :: Row(satellite, g).group in groups;
      var projects, groupStates := [], [];
      for i := 0 to |groupList|
        invariant forall g | g in groupList[..i] :: g in groups
        invariant projects == ProjectsOf(groups, groupList[..i]) && groupStates == GroupStates(groupList[..i])
      {
        assert groupList[i] in groupList;
        projects := projects + groups[groupList[i]];
        groupStates := groupStates + [AssembleGroupState(groupList[i])];
        assert groupList[..i + 1][..i] == groupList[..i];
      }
      assert groupList[..|groupList|] == groupList;
      UpdateRobotProjects(satellite, projects);
      var ok := CreateOrUpdateSatStateArtifact(satellite, groupStates, configs[satellite]);
      assert ok;
    }

    method RemoveRow(satellite: string, group: string)
      requires WellFormed(Contents()) && satellite in robots
      modifies this
      ensures Contents() == Removed(old(Contents()), satellite, group)
    {
      rows := WithoutRow(rows, Row(satellite, group));
      RefreshSatellite(satellite);
    }

    method AddSatelliteToGroup(satellite: string, group: string) returns (error: Option<RequestError>)
      requires WellFormed(Contents())
      modifies this
      ensures error == if !IsValidName(satellite) then Some(InvalidName)
                       else if satellite !in old(robots) then Some(SatelliteNotFound)
                       else if group !in old(groups) then Some(GroupNotFound) else None
      ensures Contents() == if error == None then Added(old(Contents()), satellite, group) else old(Contents())
    {
      if !IsValidName(satellite) {
        return Some(InvalidName);
      }
      if satellite !in robots {
        return Some(SatelliteNotFound);
      }
      if group !in groups {
        return Some(GroupNotFound);
      }
      if Row(satellite, group) in rows {
        return None;
      }
      rows := rows + [Row(satellite, group)];
      RefreshSatellite(satellite);
      return None;
    }

    method RemoveSatelliteFromGroup(satellite: string, group: string) returns (error: Option<RequestError>)
      requires WellFormed(Contents())
      modifies this
      ensures error == if satellite !in old(robots) then Some(SatelliteNotFound)
                       else if group !in old(groups) then Some(GroupNotFound) else None
      ensures Contents() == if error == None then Removed(old(Contents()), satellite, group) else old(Contents())
    {
      if satellite !in robots {
        return Some(SatelliteNotFound);
      }
      if group !in groups {
        return Some(GroupNotFound);
      }
      RemoveRow(satellite, group);
      return None;
    }

    /** Removes the group from one satellite after the other. */
    method RemoveFromAll(satellites: seq<string>, group: string)
      requires WellFormed(Contents()) && forall x | x in satellites :: x in robots
      modifies this
      ensures Contents() == RemovedFromAll(old(Contents()), satellites, group)
    {
      ghost var before := Contents();
      for i := 0 to |satellites|
        invariant forall x | x in satellites[..i] :: x in before.robots
        invariant Contents() == RemovedFromAll(before, satellites[..i], group)
      {
        assert satellites[..i + 1][..i] == satellites[..i] && satellites[i] in satellites;
        RemoveRow(satellites[i], group);
      }
      assert satellites[..|satellites|] == satellites;
    }

    /** The group's own artifact is deleted last, after the commit: when that fails, the request fails and
        the group is gone all the same. */
    method DeleteGroup(group: string, deleted: bool) returns (error: Option<RequestError>)
      requires WellFormed(Contents())
      modifies this
      ensures error == if group !in old(groups) then Some(GroupNotFound)
                       else if !deleted then Some(ArtifactNotDeleted) else None
      ensures
        Contents() == if group in old(groups) then WithoutGroup(old(Contents()), group, deleted) else old(Contents())
    {
      if group !in groups {
        return Some(GroupNotFound);
      }
      var satellites := SatellitesOf(rows, group);
      assert forall x | x in satellites :: Row(x, group).satellite in robots;
      RemoveFromAll(satellites, group);
      groups := groups - {group};
      if !deleted {
        return Some(ArtifactNotDeleted);
      }
      groupArtifacts := groupArtifacts - {group};
      return None;
    }
  }

  // ---------------------------------------------------------------- permissions

  /** Some current group of the satellite has the project. */
  ghost predicate Granted(s: State, satellite: string, project: string) {
    exists g :: Row(satellite, g) in s.rows && g in s.groups && project in s.groups[g]
  }

  /** The robot may read a project exactly when a current group of the satellite has it, or it is the
      project for state artifacts. */
  ghost predicate RightProject(s: State, satellite: string, project: string) {
    satellite in s.robots ==>
      (project in s.robots[satellite] <==> project == "satellite" || Granted(s, satellite, project))
  }

  /** A satellite that has a group has an artifact, and the artifact names its config and lists exactly its
      groups. */
  ghost predicate RightArtifact(s: State, satellite: string) {
    GroupsOf(s.rows, satellite) != [] ==>
      && satellite in s.artifacts && satellite in s.configs
      && s.artifacts[satellite].states == GroupStates(GroupsOf(s.rows, satellite))
      && s.artifacts[satellite].config == AssembleConfigState(s.configs[satellite])
  }

  lemma {:induction false} ProjectOfSomeGroup(groups: map<string, seq<string>>, list: seq<string>, project: string)
    requires forall g | g in list :: g in groups
    ensures project in ProjectsOf(groups, list) <==> exists g :: g in list && g in groups && project in groups[g]
  {
    if list != [] {
      var last, before := list[|list| - 1], list[..|list| - 1];
      ProjectOfSomeGroup(groups, before, project);
      assert forall g :: g in list <==> g in before || g == last;
    }
  }

  lemma RefreshIsRight(s: State, satellite: string, project: string)
    requires WellFormed(s) && satellite in s.robots
    ensures RightProject(Refresh(s, satellite), satellite, project) && RightArtifact(Refresh(s, satellite), satellite)
  {
    ProjectOfSomeGroup(s.groups, GroupsOf(s.rows, satellite), project);
  }

  lemma {:induction false} GroupsOfAnother(rows: seq<Row>, row: Row, satellite: string)
    requires row.satellite != satellite
    ensures GroupsOf(WithoutRow(rows, row), satellite) == GroupsOf(rows, satellite)
    ensures GroupsOf(rows + [row], satellite) == GroupsOf(rows, satellite)
  {
    assert (rows + [row])[..|rows|] == rows;
    if rows != [] {
      var last, before := rows[|rows| - 1], rows[..|rows| - 1];
      GroupsOfAnother(before, row, satellite);
      if last != row {
        assert (WithoutRow(before, row) + [last])[..|WithoutRow(before, row)|] == WithoutRow(before, row);
      }
    }
  }

  lemma AddingKeepsOthersRight(s: State, satellite: string, group: string, other: string, project: string)
    requires WellFormed(s) && satellite in s.robots && group in s.groups && other != satellite
    requires RightProject(s, other, project) && RightArtifact(s, other)
    ensures
      var t := Refresh(s.(rows := s.rows + [Row(satellite, group)]), satellite);
      RightProject(t, other, project) && RightArtifact(t, other)
  {
    var rows := s.rows + [Row(satellite, group)];
    GroupsOfAnother(s.rows, Row(satellite, group), other);
    assert forall g :: Row(other, g) in rows <==> Row(other, g) in s.rows;
    assert Granted(s.(rows := rows), other, project) <==> Granted(s, other, project);
  }

  lemma AddedIsRight(s: State, satellite: string, group: string, other: string, project: string)
    requires WellFormed(s) && satellite in s.robots && group in s.groups
    requires RightProject(s, other, project) && RightArtifact(s, other)
    ensures
      var t := Added(s, satellite, group);
      WellFormed(t) && RightProject(t, other, project) && RightArtifact(t, other)
  {
    if Row(satellite, group) !in s.rows {
      if other == satellite {
        RefreshIsRight(s.(rows := s.rows + [Row(satellite, group)]), satellite, project);
      } else {
        AddingKeepsOthersRight(s, satellite, group, other, project);
      }
    }
  }

  lemma RemovedIsRight(s: State, satellite: string, group: string, other: string, project: string)
    requires WellFormed(s) && satellite in s.robots
    requires RightProject(s, other, project) && RightArtifact(s, other)
    ensures
      var t := Removed(s, satellite, group);
      RightProject(t, other, project) && RightArtifact(t, other)
  {
    var t, row := Removed(s, satellite, group), Row(satellite, group);
    if other == satellite {
      RefreshIsRight(s.(rows := WithoutRow(s.rows, row)), satellite, project);
    } else {
      GroupsOfAnother(s.rows, row, other);
      assert Granted(t, other, project) <==> Granted(s, other, project);
    }
  }

  lemma {:induction false} RemovedFromAllIsRight(
      s: State, satellites: seq<string>, group: string, other: string, project: string)
    requires WellFormed(s) && forall x | x in satellites :: x in s.robots
    requires RightProject(s, other, project) && RightArtifact(s, other)
    ensures
      var t := RemovedFromAll(s, satellites, group);
      RightProject(t, other, project) && RightArtifact(t, other)
  {
    if satellites != [] {
      var last, before := satellites[|satellites| - 1], satellites[..|satellites| - 1];
      RemovedFromAllIsRight(s, before, group, other, project);
      RemovedIsRight(RemovedFromAll(s, before, group), last, group, other, project);
    }
  }

  lemma WithoutGroupIsRight(s: State, group: string, deleted: bool, other: string, project: string)
    requires WellFormed(s) && RightProject(s, other, project) && RightArtifact(s, other)
    ensures
      var t := WithoutGroup(s, group, deleted);
      RightProject(t, other, project) && RightArtifact(t, other)
  {
    var satellites := SatellitesOf(s.rows, group);
    RemovedFromAllIsRight(s, satellites, group, other, project);
    var t := RemovedFromAll(s, satellites, group);
    assert Granted(t, other, project) <==> Granted(WithoutGroup(s, group, deleted), other, project);
  }

  // ---------------------------------------------------------------- runs

  datatype Request =
    | Add(satellite: string, group: string)
    | Remove(satellite: string, group: string)
    | Delete(group: string, deleted: bool)

  /** A request that names something unknown changes nothing, nor does an addition with a name in a wrong form. */
  function Handled(s: State, request: Request): State
    requires WellFormed(s)
  {
    match request
    case Add(x, g) => if IsValidName(x) && x in s.robots && g in s.groups then Added(s, x, g) else s
    case Remove(x, g) => if x in s.robots && g in s.groups then Removed(s, x, g) else s
    case Delete(g, deleted) => if g in s.groups then WithoutGroup(s, g, deleted) else s
  }

  lemma HandledIsRight(s: State, request: Request, satellite: string, project: string)
    requires WellFormed(s) && RightProject(s, satellite, project) && RightArtifact(s, satellite)
    ensures
      var t := Handled(s, request);
      WellFormed(t) && RightProject(t, satellite, project) && RightArtifact(t, satellite)
  {
    match request
    case Add(x, g) =>
      if IsValidName(x) && x in s.robots && g in s.groups {
        AddedIsRight(s, x, g, satellite, project);
      }
    case Remove(x, g) =>
      if x in s.robots && g in s.groups {
        RemovedIsRight(s, x, g, satellite, project);
      }
    case Delete(g, deleted) =>
      if g in s.groups {
        WithoutGroupIsRight(s, g, deleted, satellite, project);
      }
  }

  function Run(start: State, requests: seq<Request>): (s: State)
    requires WellFormed(start)
    ensures WellFormed(s)
  {
    if requests == [] then start else Handled(Run(start, requests[..|requests| - 1]), requests[|requests| - 1])
  }

  /** After any run of requests, every satellite's robot may read exactly the projects of the satellite's
      current groups and the state project, and every satellite that has a group has a state artifact
      that lists exactly its groups. */
  lemma {:induction false} PermissionsFollowMembership(start: State, requests: seq<Request>, satellite: string,
                                                       project: string)
    requires WellFormed(start) && RightProject(start, satellite, project) && RightArtifact(start, satellite)
    ensures
      var s := Run(start, requests);
      RightProject(s, satellite, project) && RightArtifact(s, satellite)
  {
    if requests != [] {
      var before := requests[..|requests| - 1];
      PermissionsFollowMembership(start, before, satellite, project);
      HandledIsRight(Run(start, before), requests[|requests| - 1], satellite, project);
    }
  }

  // ---------------------------------------------------------------- the last group

  /** The groups a satellite's artifact lists; none if there is no artifact. */
  function Listed(s: State, satellite: string): seq<string> {
    if satellite in s.artifacts then s.artifacts[satellite].states else []
  }

  /** Leaving a group keeps the artifact in step with membership exactly when the satellite has another group:
      leaving the last one leaves the artifact as it was, with that group still in it. */
  lemma {:induction false} LeavingTheLastGroup(s: State, satellite: string, group: string)
    requires WellFormed(s) && satellite in s.robots && Row(satellite, group) in s.rows && RightArtifact(s, satellite)
    ensures
      var t := Removed(s, satellite, group);
      Listed(t, satellite) == GroupStates(GroupsOf(t.rows, satellite)) <==>
      exists other :: other != group && Row(satellite, other) in s.rows
  {
    var t := Removed(s, satellite, group);
    assert group in GroupsOf(s.rows, satellite);
    if GroupsOf(t.rows, satellite) != [] {
      var other := GroupsOf(t.rows, satellite)[0];
      assert other in GroupsOf(t.rows, satellite) && Row(satellite, other) in t.rows;
    }
    if other :| other != group && Row(satellite, other) in s.rows {
      assert other in GroupsOf(t.rows, satellite);
    }
  }

  // ---------------------------------------------------------------- the membership table

  /** Nothing but what the registry has for the satellite is different. */
  ghost predicate OthersAreUntouched(s: State, t: State, satellite: string) {
    && t.configs == s.configs && t.groupArtifacts == s.groupArtifacts
    && t.robots.Keys == s.robots.Keys
    && forall other | other != satellite ::
         && (other in s.robots ==> t.robots[other] == s.robots[other])
         && (other in t.artifacts <==> other in s.artifacts)
         && (other in s.artifacts ==> t.artifacts[other] == s.artifacts[other])
  }

  lemma RefreshTouchesOne(s: State, satellite: string)
    requires WellFormed(s) && satellite in s.robots
    ensures
      var t := Refresh(s, satellite);
      t.rows == s.rows && t.groups == s.groups && OthersAreUntouched(s, t, satellite)
  {}

  /** An addition puts exactly its row into the table, once, and touches no group, no config and nothing of another
      satellite. */
  lemma AdditionPutsItsRow(s: State, satellite: string, group: string)
    requires WellFormed(s) && satellite in s.robots && group in s.groups
    ensures
      var t, row := Added(s, satellite, group), Row(satellite, group);
      && (row in s.rows ==> t == s)
      && (row !in s.rows ==> t.rows[..|s.rows|] == s.rows && t.rows[|s.rows|..] == [row])
      && t.groups == s.groups && OthersAreUntouched(s, t, satellite)
  {
    if Row(satellite, group) !in s.rows {
      RefreshTouchesOne(s.(rows := s.rows + [Row(satellite, group)]), satellite);
    }
  }

  lemma {:induction false} RowsWithout(rows: seq<Row>, row: Row, r: Row)
    ensures multiset(WithoutRow(rows, row))[r] == if r == row then 0 else multiset(rows)[r]
  {
    if rows != [] {
      var init, last := rows[..|rows| - 1], rows[|rows| - 1];
      assert rows == init + [last];
      RowsWithout(init, row, r);
    }
  }

  /** A removal takes exactly its row out. */
  lemma RemovalTakesItsRow(s: State, satellite: string, group: string, r: Row)
    requires WellFormed(s) && satellite in s.robots
    ensures
      var t, row := Removed(s, satellite, group), Row(satellite, group);
      && multiset(t.rows)[r] == (if r == row then 0 else multiset(s.rows)[r])
      && t.groups == s.groups && OthersAreUntouched(s, t, satellite)
  {
    RefreshTouchesOne(s.(rows := WithoutRow(s.rows, Row(satellite, group))), satellite);
    RowsWithout(s.rows, Row(satellite, group), r);
  }

  lemma {:induction false} RemovingFromAllLeavesOthers(s: State, satellites: seq<string>, group: string, other: string)
    requires WellFormed(s) && (forall x | x in satellites :: x in s.robots) && other !in satellites
    ensures
      var t := RemovedFromAll(s, satellites, group);
      && t.configs == s.configs && t.groupArtifacts == s.groupArtifacts
      && (other in s.robots ==> t.robots[other] == s.robots[other])
      && (other in t.artifacts <==> other in s.artifacts)
      && (other in s.artifacts ==> t.artifacts[other] == s.artifacts[other])
  {
    if satellites != [] {
      var last, before := satellites[|satellites| - 1], satellites[..|satellites| - 1];
      assert last in satellites && forall x | x in before :: x in satellites;
      RemovingFromAllLeavesOthers(s, before, group, other);
      RemovalTakesItsRow(RemovedFromAll(s, before, group), last, group, Row(last, group));
    }
  }

  /** A deleted group is gone with all its rows, and with its artifact if that could be deleted; every other group is
      as before, and so is all that belongs to a satellite that was not in the group. */
  lemma DeletedGroupIsGone(s: State, group: string, deleted: bool, other: string)
    requires WellFormed(s)
    ensures
      var t := WithoutGroup(s, group, deleted);
      && t.groups == s.groups - {group} && (forall x :: Row(x, group) !in t.rows)
      && t.groupArtifacts == (if deleted then s.groupArtifacts - {group} else s.groupArtifacts)
      && t.configs == s.configs && t.robots.Keys == s.robots.Keys
      && (Row(other, group) !in s.rows ==>
            && (other in s.robots ==> t.robots[other] == s.robots[other])
            && (other in t.artifacts <==> other in s.artifacts)
            && (other in s.artifacts ==> t.artifacts[other] == s.artifacts[other]))
  {
    var satellites := SatellitesOf(s.rows, group);
    RemovingFromAllLeavesOthers(s, [], group, other);
    ConfigsStay(s, satellites, group);
    if Row(other, group) !in s.rows {
      RemovingFromAllLeavesOthers(s, satellites, group, other);
    }
  }

  lemma {:induction false} ConfigsStay(s: State, satellites: seq<string>, group: string)
    requires WellFormed(s) && forall x | x in satellites :: x in s.robots
    ensures RemovedFromAll(s, satellites, group).configs == s.configs
    ensures RemovedFromAll(s, satellites, group).groupArtifacts == s.groupArtifacts
  {
    if satellites != [] {
      var before := satellites[..|satellites| - 1];
      assert forall x | x in before :: x in satellites;
      ConfigsStay(s, before, group);
    }
  }

  /** The request gets past its checks. */
  predicate Accepted(s: State, request: Request) {
    match request
    case Add(x, g) => IsValidName(x) && x in s.robots && g in s.groups
    case Remove(x, g) => x in s.robots && g in s.groups
    case Delete(g, _) => g in s.groups
  }

  predicate Concerns(request: Request, satellite: string, group: string) {
    request.group == group && (request.Delete? || request.satellite == satellite)
  }

  /** Request `j` of the run is accepted, and about the satellite and the group. */
  predicate Decides(start: State, requests: seq<Request>, satellite: string, group: string, j: nat)
    requires WellFormed(start) && j < |requests|
  {
    Accepted(Run(start, requests[..j]), requests[j]) && Concerns(requests[j], satellite, group)
  }

  lemma OneRequest(s: State, request: Request, satellite: string, group: string)
    requires WellFormed(s)
    ensures
      var t, row := Handled(s, request), Row(satellite, group);
      if Accepted(s, request) && Concerns(request, satellite, group) then row in t.rows <==> request.Add?
      else row in t.rows <==> row in s.rows
  {
    if Accepted(s, request) && request.Add? {
      AdditionPutsItsRow(s, request.satellite, request.group);
      var rows := Handled(s, request).rows;
      assert Row(request.satellite, request.group) !in s.rows ==> rows == rows[..|s.rows|] + rows[|s.rows|..];
    }
  }

  lemma DecidesBefore(start: State, before: seq<Request>, last: Request, satellite: string, group: string, j: nat)
    requires WellFormed(start) && j < |before|
    ensures Decides(start, before + [last], satellite, group, j) <==> Decides(start, before, satellite, group, j)
  {
    assert (before + [last])[..j] == before[..j];
  }

  lemma DecidesLast(start: State, before: seq<Request>, last: Request, satellite: string, group: string)
    requires WellFormed(start)
    ensures
      var requests, row := before + [last], Row(satellite, group);
      if Decides(start, requests, satellite, group, |before|) then row in Run(start, requests).rows <==> last.Add?
      else row in Run(start, requests).rows <==> row in Run(start, before).rows
  {
    assert (before + [last])[..|before|] == before;
    OneRequest(Run(start, before), last, satellite, group);
  }

  /** In every run, a satellite is in a group exactly when the last accepted request about the two was its addition, or
      there was none and it was in the group at the start. A deletion of the group is about all satellites. */
  lemma {:induction false} LastRequestDecides(start: State, requests: seq<Request>, satellite: string, group: string)
      returns (k: nat)
    requires WellFormed(start)
    ensures k <= |requests| && (k > 0 ==> Decides(start, requests, satellite, group, k - 1))
    ensures forall j | k <= j < |requests| :: !Decides(start, requests, satellite, group, j)
    ensures
      Row(satellite, group) in Run(start, requests).rows <==>
      if k > 0 then requests[k - 1].Add? else Row(satellite, group) in start.rows
  {
    if requests == [] {
      return 0;
    }
    var before, last := requests[..|requests| - 1], requests[|requests| - 1];
    assert requests == before + [last];
    DecidesLast(start, before, last, satellite, group);
    if Decides(start, requests, satellite, group, |before|) {
      return |requests|;
    }
    k := LastRequestDecides(start, before, satellite, group);
    forall j | 0 <= j < |before|
      ensures Decides(start, requests, satellite, group, j) <==> Decides(start, before, satellite, group, j)
    {
      DecidesBefore(start, before, last, satellite, group, j);
    }
  }

  /** A group that has been deleted is unknown from then on: no request about it is accepted any more. */
  lemma {:induction false} DeletedGroupsStayUnknown(start: State, requests: seq<Request>, k: nat, request: Request)
    requires WellFormed(start) && k < |requests| && requests[k].Delete? && request.group == requests[k].group
    ensures requests[k].group !in Run(start, requests).groups && !Accepted(Run(start, requests), request)
    decreases |requests|
  {
    var before, last := requests[..|requests| - 1], requests[|requests| - 1];
    var s := Run(start, before);
    if k < |before| {
      DeletedGroupsStayUnknown(start, before, k, request);
    }
    match last
    case Add(x, g) =>
    case Remove(x, g) =>
    case Delete(g, deleted) => DeletedGroupIsGone(s, g, deleted, "");
  }

  // ---------------------------------------------------------------- names of states and satellites

  lemma SameMiddle(before: string, a: string, b: string, after: string)
    requires before + a + after == before + b + after
    ensures a == b
  {
    var s := before + a + after;
    assert a == s[|before|..|s| - |after|] && b == s[|before|..|s| - |after|];
  }

  /** A state tells which group or which config it belongs to. */
  lemma StatesTellWhoseTheyAre(a: string, b: string)
    ensures AssembleGroupState(a) == AssembleGroupState(b) ==> a == b
    ensures AssembleConfigState(a) == AssembleConfigState(b) ==> a == b
    ensures AssembleGroupState(a) != AssembleConfigState(b)
  {
    if AssembleGroupState(a) == AssembleGroupState(b) {
      SameMiddle("/satellite/group-state/", a, b, "/state:latest");
    }
    if AssembleConfigState(a) == AssembleConfigState(b) {
      SameMiddle("/satellite/config-state/", a, b, "/state:latest");
    }
    assert AssembleGroupState(a)[11] == 'g' && AssembleConfigState(b)[11] == 'c';
  }

  lemma StatesInFull()
    ensures AssembleGroupState("edge") == "/satellite/group-state/edge/state:latest"
    ensures AssembleConfigState("default") == "/satellite/config-state/default/state:latest"
  {}

  /** So the list in an artifact tells the groups, in order. */
  lemma {:induction false} GroupStatesTellTheGroups(a: seq<string>, b: seq<string>)
    ensures GroupStates(a) == GroupStates(b) ==> a == b
  {
    if GroupStates(a) == GroupStates(b) && a != [] {
      var n := |a| - 1;
      assert GroupStates(a)[..n] == GroupStates(a[..n]) && GroupStates(b)[..n] == GroupStates(b[..n]);
      assert GroupStates(a)[n] == AssembleGroupState(a[n]) && GroupStates(b)[n] == AssembleGroupState(b[n]);
      StatesTellWhoseTheyAre(a[n], b[n]);
      GroupStatesTellTheGroups(a[..n], b[..n]);
      assert a == a[..n] + [a[n]] && b == b[..n] + [b[n]];
    }
  }

  const LETTERS := "abcdefghijklmnopqrstuvwxyz"
  const FIGURES := "0123456789"

  /** A name has 1 to 255 of these letters, digits, dots, underscores and hyphens, and the first is one of the
      former two. */
  lemma NamesOf(name: string)
    ensures
      IsValidName(name) <==>
      && 0 < |name| < 256 && (name[0] in LETTERS || name[0] in FIGURES)
      && forall c <- name :: c in LETTERS || c in FIGURES || c in "._-"
  {
    forall c: char
      ensures IsNameStart(c) <==> c in LETTERS || c in FIGURES
    {
      Letters(c);
      Figures(c);
    }
  }

  lemma Letters(c: char)
    ensures 'a' <= c <= 'z' <==> c in LETTERS
  {
    if 'a' <= c <= 'z' {
      assert LETTERS[c as int - 'a' as int] == c;
    }
  }

  lemma Figures(c: char)
    ensures '0' <= c <= '9' <==> c in FIGURES
  {
    if '0' <= c <= '9' {
      assert FIGURES[c as int - '0' as int] == c;
    }
  }
}
