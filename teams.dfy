/** backend/src/team.rs: teams, memberships and the access check. */
module Teams {
  import opened Wrappers
  import opened Seqs
  import opened Db
  import opened Types

  function NamedBy(name: string, owner: int): Team -> bool {
    (t: Team) => t.name == name && t.owner == owner
  }

  function HasTeamId(id: int): Team -> bool {
    (t: Team) => t.id == Some(id)
  }

  function OwnedByUser(userId: int): Team -> bool {
    (t: Team) => t.owner == userId
  }

  function OfUser(userId: int): TeamUser -> bool {
    (m: TeamUser) => m.user == userId
  }

  function Grants(team: int, user: int): TeamUser -> bool {
    (m: TeamUser) => m.team == team && m.user == user
  }

  function OwnedByTeam(teamId: int): TeamBoard -> bool {
    (b: TeamBoard) => b.owner == teamId
  }

  /** `Team::get_name_id`: the id of the lowest-id team with that name and owner, or None
      (also when the read fails). */
  function GetNameId(db: Connection, name: string, owner: int): (r: Option<int>)
    reads db`teams
    requires db.TeamsKeyed()
    ensures r.Some? <==> TeamsTable !in db.failing &&
                         exists t :: t in db.teams && t.name == name && t.owner == owner
    ensures r.Some? ==> exists t :: t in db.teams && t.name == name && t.owner == owner && t.id == Some(r.value)
    ensures r.Some? ==> forall t :: t in db.teams && t.name == name && t.owner == owner ==>
                          r.value <= t.id.value
  {
    if TeamsTable in db.failing then None
    else
      var p := NamedBy(name, owner);
      assert forall t :: p(t) <==> t.name == name && t.owner == owner;
      var matching := Filter(db.teams, p);
      if matching == [] then None
      else
        FilterPairwise(db.teams, p, TeamBefore);
        HeadFirst(matching, TeamBefore);
        Some(matching[0].id.value)
  }

  /** As written, a second team with the same name and owner as an older one is not the
      one `get_name_id` finds: the members meant for the new team go to the older one. */
  lemma SameNameResolvesToOldest(db: Connection, name: string, owner: int, k: nat)
    requires db.TeamsKeyed() && TeamsTable !in db.failing
    requires k < |db.teams| - 1
    requires db.teams[k].name == name && db.teams[k].owner == owner
    requires db.teams[|db.teams| - 1].name == name && db.teams[|db.teams| - 1].owner == owner
    ensures GetNameId(db, name, owner) != db.teams[|db.teams| - 1].id
  {
    var newest := db.teams[|db.teams| - 1];
    assert db.teams[k] in db.teams;
    assert TeamBefore(db.teams[k], newest);
  }

  /** `Team::has_access`: the lowest-id membership row for (team, user); NotFound when
      there is none. */
  function HasAccess(db: Connection, team: int, user: int): (r: QueryResult<TeamUser>)
    reads db`teamUsers
    requires db.TeamUsersKeyed()
    ensures r.Ok? <==> TeamUsersTable !in db.failing &&
                       exists m :: m in db.teamUsers && m.team == team && m.user == user
    ensures r.Ok? ==> r.value in db.teamUsers && r.value.team == team && r.value.user == user
    ensures r.Ok? ==> forall m :: m in db.teamUsers && m.team == team && m.user == user ==>
                        m.id.Some? && r.value.id.value <= m.id.value
    ensures r.Err? ==> r.error == if TeamUsersTable in db.failing then StoreFailure else NotFound
  {
    if TeamUsersTable in db.failing then Err(StoreFailure)
    else
      var p := Grants(team, user);
      assert forall m :: p(m) <==> m.team == team && m.user == user;
      var matching := Filter(db.teamUsers, p);
      if matching == [] then Err(NotFound)
      else
        FilterPairwise(db.teamUsers, p, TeamUserBefore);
        HeadFirst(matching, TeamUserBefore);
        Ok(matching[0])
  }

  /** `Team::get_owned`: exactly the teams the user owns. */
  function GetOwned(db: Connection, userId: int): (r: QueryResult<seq<Team>>)
    reads db`teams
    ensures r.Err? <==> TeamsTable in db.failing
    ensures r.Ok? ==> forall t :: t in r.value <==> t in db.teams && t.owner == userId
    ensures r.Ok? ==> forall t :: multiset(r.value)[t] == if t.owner == userId
                                                          then multiset(db.teams)[t] else 0
  {
    if TeamsTable in db.failing then Err(StoreFailure)
    else
      FilterMultiset(db.teams, OwnedByUser(userId));
      Ok(Filter(db.teams, OwnedByUser(userId)))
  }

  /** `Team::add`: one membership row when both ids are present; otherwise, or when the
      insert fails (its error is dropped), nothing changes. */
  method Add(db: Connection, teamId: Option<int>, userId: Option<int>)
    requires db.Valid()
    modifies db`teamUsers, db`nextId
    ensures db.Valid()
    ensures if teamId.Some? && userId.Some? && TeamUsersTable !in db.failing
            then db.teamUsers == old(db.teamUsers) + [TeamUser(Some(old(db.nextId)), teamId.value, userId.value)]
                 && db.nextId == old(db.nextId) + 1
            else db.teamUsers == old(db.teamUsers) && db.nextId == old(db.nextId)
  {
    if teamId.Some? && userId.Some? && TeamUsersTable !in db.failing {
      var row := TeamUser(Some(db.nextId), teamId.value, userId.value);
      AppendFreshMembership(db.teamUsers, row);
      db.teamUsers := db.teamUsers + [row];
      db.nextId := db.nextId + 1;
    }
  }

  lemma AppendFreshMembership(s: seq<TeamUser>, row: TeamUser)
    requires row.id.Some?
    requires Pairwise(s, TeamUserBefore)
    requires forall m :: m in s ==> Below(m.id, row.id.value)
    ensures Pairwise(s + [row], TeamUserBefore)
  {
    var t := s + [row];
    forall i, j | 0 <= i < j < |t| ensures TeamUserBefore(t[i], t[j]) {
      assert t[i] == s[i] && s[i] in s;
      if j < |s| {
        assert t[j] == s[j];
      }
    }
  }

  /** The user ids among `members` that are present, in order. */
  function PresentIds(members: seq<Option<int>>): (r: seq<int>)
    ensures forall u :: u in r <==> Some(u) in members
    ensures |r| <= |members|
    ensures (forall m :: m in members ==> m.Some?) ==>
              |r| == |members| && forall i :: 0 <= i < |r| ==> members[i] == Some(r[i])
    decreases |members|
  {
    if members == [] then []
    else
      var init := members[..|members| - 1];
      assert members == init + [members[|members| - 1]];
      match members[|members| - 1]
      case None => assert members[|members| - 1] in members; PresentIds(init)
      case Some(u) => PresentIds(init) + [u]
  }

  /** `after` is `before` followed by one (team, user) membership per id of `users`. */
  ghost predicate AddedMemberships(before: seq<TeamUser>, after: seq<TeamUser>, team: int, users: seq<int>) {
    && |after| == |before| + |users|
    && after[..|before|] == before
    && forall k :: |before| <= k < |after| ==> after[k].team == team && after[k].user == users[k - |before|]
  }

  /** Every member added to `team` has access to it. */
  lemma AddedMembersHaveAccess(db: Connection, before: seq<TeamUser>, team: int, users: seq<int>)
    requires db.TeamUsersKeyed() && TeamUsersTable !in db.failing
    requires AddedMemberships(before, db.teamUsers, team, users)
    ensures forall u :: u in users ==> HasAccess(db, team, u).Ok?
  {
    forall u | u in users ensures HasAccess(db, team, u).Ok? {
      var k :| 0 <= k < |users| && users[k] == u;
      assert db.teamUsers[|before| + k] in db.teamUsers;
    }
  }

  /** The loop of `Team::create`: `add` for each member in order. */
  method AddAll(db: Connection, teamId: Option<int>, members: seq<Option<int>>)
    requires db.Valid()
    modifies db`teamUsers, db`nextId
    ensures db.Valid()
    ensures if teamId.Some? && TeamUsersTable !in db.failing
            then AddedMemberships(old(db.teamUsers), db.teamUsers, teamId.value, PresentIds(members))
            else db.teamUsers == old(db.teamUsers)
  {
    var i := 0;
    while i < |members|
      invariant 0 <= i <= |members|
      invariant db.Valid()
      invariant if teamId.Some? && TeamUsersTable !in db.failing
                then AddedMemberships(old(db.teamUsers), db.teamUsers, teamId.value, PresentIds(members[..i]))
                else db.teamUsers == old(db.teamUsers)
    {
      ghost var before := db.teamUsers;
      PresentIdsSnoc(members, i);
      Add(db, teamId, members[i]);
      if teamId.Some? && TeamUsersTable !in db.failing && members[i].Some? {
        assert db.teamUsers == before + [db.teamUsers[|db.teamUsers| - 1]];
        AddedMembershipsSnoc(old(db.teamUsers), before, teamId.value, PresentIds(members[..i]),
                             db.teamUsers[|db.teamUsers| - 1]);
      }
      i := i + 1;
    }
    assert members[..i] == members;
  }

  /** One more member adds its id at the end when present, and nothing otherwise. */
  lemma PresentIdsSnoc(members: seq<Option<int>>, i: nat)
    requires i < |members|
    ensures PresentIds(members[..i + 1]) ==
            PresentIds(members[..i]) + (if members[i].Some? then [members[i].value] else [])
  {
    assert members[..i + 1][..i] == members[..i];
  }

  lemma AddedMembershipsSnoc(before: seq<TeamUser>, after: seq<TeamUser>, team: int, users: seq<int>, row: TeamUser)
    requires AddedMemberships(before, after, team, users) && row.team == team
    ensures AddedMemberships(before, after + [row], team, users + [row.user])
  {
    var a := after + [row];
    var us := users + [row.user];
    assert a[..|before|] == after[..|before|];
    forall k | |before| <= k < |a| ensures a[k].team == team && a[k].user == us[k - |before|] {
      if k < |after| {
        assert a[k] == after[k] && us[k - |before|] == users[k - |before|];
      }
    }
  }

  /** The insert of `Team::create`. */
  method Insert(db: Connection, name: string, owner: int) returns (r: QueryResult<nat>)
    requires db.Valid()
    modifies db`teams, db`nextId
    ensures db.Valid()
    ensures r == if TeamsTable in db.failing then Err(StoreFailure) else Ok(1)
    ensures db.teams == old(db.teams) + (if r.Ok? then [Team(Some(old(db.nextId)), name, owner)] else [])
    ensures db.nextId == old(db.nextId) + (if r.Ok? then 1 else 0)
  {
    if TeamsTable in db.failing {
      return Err(StoreFailure);
    }
    var row := Team(Some(db.nextId), name, owner);
    var t := db.teams + [row];
    forall i, j | 0 <= i < j < |t| ensures TeamBefore(t[i], t[j]) {
      assert t[i] == db.teams[i] && db.teams[i] in db.teams;
      if j < |db.teams| {
        assert t[j] == db.teams[j];
      }
    }
    db.teams := t;
    db.nextId := db.nextId + 1;
    r := Ok(1);
  }

  /** `Team::create` as written: insert the team, look its id up again by name and owner,
      add every present member to the team found, and return the insert's own result. */
  method Create(db: Connection, members: seq<Option<int>>, name: string, owner: int) returns (r: QueryResult<nat>)
    requires db.Valid()
    modifies db`teams, db`teamUsers, db`nextId
    ensures db.Valid()
    ensures r == if TeamsTable in db.failing then Err(StoreFailure) else Ok(1)
    ensures db.teams == old(db.teams) + (if r.Ok? then [Team(Some(old(db.nextId)), name, owner)] else [])
    ensures var found := GetNameId(db, name, owner);
            if found.Some? && TeamUsersTable !in db.failing
            then AddedMemberships(old(db.teamUsers), db.teamUsers, found.value, PresentIds(members))
            else db.teamUsers == old(db.teamUsers)
  {
    r := Insert(db, name, owner);
    var teamId := GetNameId(db, name, owner);
    AddAll(db, teamId, members);
  }

  /** `Team::create` with the members attached to the team the insert created. */
  method CreateCorrected(db: Connection, members: seq<Option<int>>, name: string, owner: int)
    returns (r: QueryResult<nat>)
    requires db.Valid()
    modifies db`teams, db`teamUsers, db`nextId
    ensures db.Valid()
    ensures r == if TeamsTable in db.failing then Err(StoreFailure) else Ok(1)
    ensures db.teams == old(db.teams) + (if r.Ok? then [Team(Some(old(db.nextId)), name, owner)] else [])
    ensures if r.Ok? && TeamUsersTable !in db.failing
            then AddedMemberships(old(db.teamUsers), db.teamUsers, old(db.nextId), PresentIds(members))
            else db.teamUsers == old(db.teamUsers)
    ensures r.Ok? && TeamUsersTable !in db.failing ==>
              forall u :: Some(u) in members ==> HasAccess(db, old(db.nextId), u).Ok?
  {
    var newId := db.nextId;
    r := Insert(db, name, owner);
    AddAll(db, if r.Ok? then Some(newId) else None, members);
    if r.Ok? && TeamUsersTable !in db.failing {
      AddedMembersHaveAccess(db, old(db.teamUsers), newId, PresentIds(members));
    }
  }

  /** The teams of the memberships, one `team.id = membership.team` selection per
      membership, concatenated in order. */
  function MemberTeams(teams: seq<Team>, memberships: seq<TeamUser>): (r: seq<Team>)
    ensures forall t :: t in r ==> t.id.Some?
    ensures forall t :: t in r <==> t in teams && exists m :: m in memberships && t.id == Some(m.team)
    decreases |memberships|
  {
    if memberships == [] then []
    else
      var init := memberships[..|memberships| - 1];
      var last := memberships[|memberships| - 1];
      assert memberships == init + [last];
      MemberTeams(teams, init) + Filter(teams, HasTeamId(last.team))
  }

  /** Each team's boards tagged with the team's name, concatenated in order. */
  function BoardsOfTeams(boards: seq<TeamBoard>, ts: seq<Team>): (r: seq<TeamBoardWithName>)
    requires forall t :: t in ts ==> t.id.Some?
    ensures forall x :: x in r <==>
              exists t, b :: t in ts && b in boards && b.owner == t.id.value && x == Tagged(b, t.name)
    decreases |ts|
  {
    if ts == [] then []
    else
      var init := ts[..|ts| - 1];
      var last := ts[|ts| - 1];
      assert ts == init + [last];
      var own := Filter(boards, OwnedByTeam(last.id.value));
      NewMembers(own, last.name);
      BoardsOfTeams(boards, init) + New(own, last.name)
  }

  /** What `get_teams_boards` returns: an error as soon as a read fails. */
  function TeamsBoards(db: Connection, userId: int): (r: QueryResult<seq<TeamBoardWithName>>)
    reads db`teamUsers, db`teams, db`teamBoards
  {
    if TeamUsersTable in db.failing then Err(StoreFailure)
    else
      var memberships := Filter(db.teamUsers, OfUser(userId));
      if memberships != [] && TeamsTable in db.failing then Err(StoreFailure)
      else
        var ts := MemberTeams(db.teams, memberships);
        if ts != [] && TeamBoardsTable in db.failing then Err(StoreFailure)
        else Ok(BoardsOfTeams(db.teamBoards, ts))
  }

  /** The first loop of `get_teams_boards`: the teams of each membership. */
  method LoadMemberTeams(db: Connection, memberships: seq<TeamUser>) returns (r: QueryResult<seq<Team>>)
    ensures r == if memberships != [] && TeamsTable in db.failing then Err(StoreFailure)
                 else Ok(MemberTeams(db.teams, memberships))
  {
    var teams: seq<Team> := [];
    var i := 0;
    while i < |memberships|
      invariant 0 <= i <= |memberships|
      invariant i > 0 ==> TeamsTable !in db.failing
      invariant teams == MemberTeams(db.teams, memberships[..i])
    {
      if TeamsTable in db.failing {
        return Err(StoreFailure);
      }
      assert memberships[..i + 1][..i] == memberships[..i];
      teams := teams + Filter(db.teams, HasTeamId(memberships[i].team));
      i := i + 1;
    }
    assert memberships[..i] == memberships;
    r := Ok(teams);
  }

  /** The second loop of `get_teams_boards`: each team's boards, tagged with its name. */
  method LoadBoards(db: Connection, teams: seq<Team>) returns (r: QueryResult<seq<TeamBoardWithName>>)
    requires forall t :: t in teams ==> t.id.Some?
    ensures r == if teams != [] && TeamBoardsTable in db.failing then Err(StoreFailure)
                 else Ok(BoardsOfTeams(db.teamBoards, teams))
  {
    var boards: seq<TeamBoardWithName> := [];
    var j := 0;
    while j < |teams|
      invariant 0 <= j <= |teams|
      invariant j > 0 ==> TeamBoardsTable !in db.failing
      invariant boards == BoardsOfTeams(db.teamBoards, teams[..j])
    {
      if TeamBoardsTable in db.failing {
        return Err(StoreFailure);
      }
      assert teams[..j + 1][..j] == teams[..j];
      assert teams[j] in teams;
      boards := boards + New(Filter(db.teamBoards, OwnedByTeam(teams[j].id.value)), teams[j].name);
      j := j + 1;
    }
    assert teams[..j] == teams;
    r := Ok(boards);
  }

  /** `Team::get_teams_boards`: for each of the user's memberships in load order, the
      teams with that id; then for each such team its boards, tagged with its name. */
  method GetTeamsBoards(db: Connection, userId: int) returns (r: QueryResult<seq<TeamBoardWithName>>)
    ensures r == TeamsBoards(db, userId)
  {
    if TeamUsersTable in db.failing {
      return Err(StoreFailure);
    }
    var memberships := Filter(db.teamUsers, OfUser(userId));
    var teams := LoadMemberTeams(db, memberships);
    if teams.Err? {
      return Err(teams.error);
    }
    r := LoadBoards(db, teams.value);
  }

  /** Listing one more team appends that team's tagged boards. */
  lemma BoardsOfTeamsSnoc(boards: seq<TeamBoard>, ts: seq<Team>, t: Team)
    requires forall u :: u in ts ==> u.id.Some?
    requires t.id.Some?
    ensures BoardsOfTeams(boards, ts + [t]) ==
            BoardsOfTeams(boards, ts) + New(Filter(boards, OwnedByTeam(t.id.value)), t.name)
  {
    assert (ts + [t])[..|ts|] == ts;
  }

  /** Listing a concatenation of teams lists the boards of each part in turn. */
  lemma {:induction false} BoardsOfTeamsAppend(boards: seq<TeamBoard>, a: seq<Team>, b: seq<Team>)
    requires forall t :: t in a ==> t.id.Some?
    requires forall t :: t in b ==> t.id.Some?
    ensures BoardsOfTeams(boards, a + b) == BoardsOfTeams(boards, a) + BoardsOfTeams(boards, b)
    decreases |b|
  {
    if b == [] {
      assert a + b == a;
    } else {
      var init, last := b[..|b| - 1], b[|b| - 1];
      assert b == init + [last];
      assert a + b == (a + init) + [last];
      assert last in b;
      BoardsOfTeamsAppend(boards, a, init);
      BoardsOfTeamsSnoc(boards, a + init, last);
      BoardsOfTeamsSnoc(boards, init, last);
      ConcatRegroup(BoardsOfTeams(boards, a), BoardsOfTeams(boards, init),
                    New(Filter(boards, OwnedByTeam(last.id.value)), last.name));
    }
  }

  /** The boards `get_teams_boards` lists for one membership row: those of the teams with
      the row's team id. */
  function MembershipBoards(db: Connection, m: TeamUser): seq<TeamBoardWithName>
    reads db`teams, db`teamBoards
  {
    BoardsOfTeams(db.teamBoards, MemberTeams(db.teams, [m]))
  }

  /** One block of boards per membership row, in order. */
  function Blocks(db: Connection, memberships: seq<TeamUser>): seq<TeamBoardWithName>
    reads db`teams, db`teamBoards
    decreases |memberships|
  {
    if memberships == [] then []
    else Blocks(db, memberships[..|memberships| - 1]) + MembershipBoards(db, memberships[|memberships| - 1])
  }

  lemma {:induction false} BoardsOfMemberTeamsAreBlocks(db: Connection, memberships: seq<TeamUser>)
    ensures BoardsOfTeams(db.teamBoards, MemberTeams(db.teams, memberships)) == Blocks(db, memberships)
    decreases |memberships|
  {
    if memberships != [] {
      var init := memberships[..|memberships| - 1];
      var last := memberships[|memberships| - 1];
      assert [last][..0] == [];
      assert MemberTeams(db.teams, [last]) == Filter(db.teams, HasTeamId(last.team));
      BoardsOfTeamsAppend(db.teamBoards, MemberTeams(db.teams, init), MemberTeams(db.teams, [last]));
      BoardsOfMemberTeamsAreBlocks(db, init);
    }
  }

  /** `get_teams_boards` lists the boards of a team once per membership row of the user in
      it: a caller who also named themselves among the members sees each board twice. */
  lemma TeamsBoardsPerMembership(db: Connection, userId: int)
    requires TeamsBoards(db, userId).Ok?
    ensures TeamsBoards(db, userId).value == Blocks(db, Filter(db.teamUsers, OfUser(userId)))
  {
    BoardsOfMemberTeamsAreBlocks(db, Filter(db.teamUsers, OfUser(userId)));
  }

  /** A user sees exactly the boards of the teams they are a member of, and nothing when
      they have no membership. */
  lemma TeamsBoardsExactly(db: Connection, userId: int)
    requires TeamsBoards(db, userId).Ok?
    ensures forall x :: x in TeamsBoards(db, userId).value <==>
              exists m, t, b :: m in db.teamUsers && m.user == userId && t in db.teams &&
                                t.id == Some(m.team) && b in db.teamBoards && b.owner == m.team &&
                                x == Tagged(b, t.name)
    ensures (forall m :: m in db.teamUsers ==> m.user != userId) ==> TeamsBoards(db, userId).value == []
  {
    var memberships := Filter(db.teamUsers, OfUser(userId));
    var ts := MemberTeams(db.teams, memberships);
    var r := TeamsBoards(db, userId).value;
    forall x | x in r ensures exists m, t, b :: m in db.teamUsers && m.user == userId && t in db.teams &&
                                t.id == Some(m.team) && b in db.teamBoards && b.owner == m.team &&
                                x == Tagged(b, t.name) {
      var t, b :| t in ts && b in db.teamBoards && b.owner == t.id.value && x == Tagged(b, t.name);
      var m :| m in memberships && t.id == Some(m.team);
    }
    forall m, t, b | m in db.teamUsers && m.user == userId && t in db.teams &&
                     t.id == Some(m.team) && b in db.teamBoards && b.owner == m.team
      ensures Tagged(b, t.name) in r {
      assert m in memberships;
      assert t in ts;
    }
    if forall m :: m in db.teamUsers ==> m.user != userId {
      assert memberships == [];
    }
  }

  /** Every board listed to a user belongs to a team the user has access to. */
  lemma ListedBoardsAreAccessible(db: Connection, userId: int)
    requires db.TeamUsersKeyed()
    requires TeamsBoards(db, userId).Ok?
    ensures forall x :: x in TeamsBoards(db, userId).value ==> HasAccess(db, x.owner, userId).Ok?
  {
    TeamsBoardsExactly(db, userId);
  }
}
