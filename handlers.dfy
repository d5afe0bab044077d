/** backend/src/main.rs: the HTTP handlers whose decisions go beyond forwarding. The
    caller is the username recovered from the request's token; a handler answers with a
    JSON value, 404 Not Found, or 500 when an `unwrap` panics. */
module Handlers {
  import opened Wrappers
  import opened Seqs
  import opened Db
  import opened Types
  import Users
  import Teams
  import Boards
  import Timers

  datatype Reply<T> = Json(value: T) | Missing | ServerError

  /** `str::split`: the pieces between the separators, so that `k` separators give `k + 1`
      pieces and the empty string gives one empty piece. */
  function Split(s: string, sep: char): (r: seq<string>)
    ensures |r| >= 1
    ensures forall k :: 0 <= k < |r| ==> sep !in r[k]
    decreases |s|
  {
    if s == [] then [[]]
    else
      var rest := Split(s[1..], sep);
      if s[0] == sep then [[]] + rest
      else [[s[0]] + rest[0]] + rest[1..]
  }

  /** The pieces joined with the separator between them. */
  function Join(parts: seq<string>, sep: char): string
    requires |parts| >= 1
    decreases |parts|
  {
    if |parts| == 1 then parts[0] else parts[0] + [sep] + Join(parts[1..], sep)
  }

  /** Splitting loses nothing: the pieces join back to the input. */
  lemma {:induction false} SplitJoin(s: string, sep: char)
    ensures Join(Split(s, sep), sep) == s
    decreases |s|
  {
    if s != [] {
      SplitJoin(s[1..], sep);
      var rest := Split(s[1..], sep);
      if s[0] == sep {
        assert ([[]] + rest)[1..] == rest;
      } else if |rest| > 1 {
        assert ([[s[0]] + rest[0]] + rest[1..])[1..] == rest[1..];
        assert Join(rest, sep) == rest[0] + [sep] + Join(rest[1..], sep);
      }
    }
  }

  /** A join whose first piece is not empty starts with that piece's first character,
      followed by the join with that character dropped. */
  lemma JoinFirstChar(parts: seq<string>, sep: char)
    requires |parts| >= 1 && parts[0] != []
    ensures Join(parts, sep) == [parts[0][0]] + Join([parts[0][1..]] + parts[1..], sep)
  {
    var shorter := [parts[0][1..]] + parts[1..];
    assert shorter[0] == parts[0][1..] && shorter[1..] == parts[1..];
    assert parts[0] == [parts[0][0]] + parts[0][1..];
  }

  /** Splitting a join of separator-free pieces gives the pieces back. */
  lemma {:induction false} JoinSplit(parts: seq<string>, sep: char)
    requires |parts| >= 1 && forall k :: 0 <= k < |parts| ==> sep !in parts[k]
    ensures Split(Join(parts, sep), sep) == parts
    decreases |parts|, |parts[0]|
  {
    var j := Join(parts, sep);
    if parts[0] == [] {
      if |parts| > 1 {
        var tail := parts[1..];
        assert forall k :: 0 <= k < |tail| ==> sep !in tail[k] by {
          forall k | 0 <= k < |tail| ensures sep !in tail[k] { assert tail[k] == parts[k + 1]; }
        }
        JoinSplit(tail, sep);
        assert j == [sep] + Join(tail, sep);
        assert j[1..] == Join(tail, sep);
        assert parts == [[]] + tail;
      }
    } else {
      var head := parts[0];
      var shorter := [head[1..]] + parts[1..];
      assert sep !in head[1..] by {
        assert forall c :: c in head[1..] ==> c in head;
      }
      assert forall k :: 0 <= k < |shorter| ==> sep !in shorter[k] by {
        forall k | 0 <= k < |shorter| ensures sep !in shorter[k] {
          if k > 0 { assert shorter[k] == parts[k]; }
        }
      }
      JoinSplit(shorter, sep);
      JoinFirstChar(parts, sep);
      assert j[0] == head[0] && j[1..] == Join(shorter, sep);
      var rest := Split(j[1..], sep);
      assert rest == shorter;
      assert Split(j, sep) == [[head[0]] + rest[0]] + rest[1..];
      assert [head[0]] + head[1..] == head;
      assert shorter[1..] == parts[1..];
      assert parts == [head] + parts[1..];
    }
  }

  /** `login`: a token for the lowest-id user with those credentials; Missing when there
      is none (also when the users cannot be read); 500 when signing fails. Signing the
      claims for a username is the parameter `sign`. */
  function Login(db: Connection, username: string, password: string, sign: string -> Option<string>)
    : (r: Reply<TokenResponse>)
    reads db`users
    requires db.UsersKeyed()
    ensures r.Missing? <==> !(UsersTable !in db.failing &&
                               exists u :: u in db.users && u.username == username && u.password == password)
    ensures r.ServerError? ==> sign(username).None?
    ensures r.Json? ==> sign(username).Some? && r.value == TokenResponse(true, sign(username).value) &&
                        exists u :: u in db.users && u.username == username && u.password == password
  {
    match Users.ByUsernameAndPassword(db, username, password)
    case None => Missing
    case Some(user) =>
      match sign(user.username)
      case None => ServerError
      case Some(token) => Json(TokenResponse(true, token))
  }

  /** `register`: stores the submitted credentials under a fresh key (a submitted id is
      ignored); Missing when the insert fails. A registered user can log in at once. */
  method Register(db: Connection, data: User) returns (r: Reply<bool>)
    requires db.Valid()
    modifies db`users, db`nextId
    ensures db.Valid()
    ensures r == if UsersTable in db.failing then Missing else Json(true)
    ensures db.users == old(db.users) +
              (if r.Json? then [User(Some(old(db.nextId)), data.username, data.password)] else [])
    ensures r.Json? ==> Users.ByUsernameAndPassword(db, data.username, data.password).Some?
  {
    var created := Users.Create(db, data.(id := None));
    r := if created.Ok? then Json(true) else Missing;
    if r.Json? {
      assert db.users[|db.users| - 1] in db.users;
    }
  }

  /** `private_board`: a board named `name` owned by the caller; Missing without writing
      when the caller is unknown or the insert fails. */
  method PrivateBoardCreate(db: Connection, caller: string, name: string) returns (r: Reply<bool>)
    requires db.Valid()
    modifies db`privateBoards, db`nextId
    ensures db.Valid()
    ensures Users.GetUsernameId(db, caller).None? ==>
              r == Missing && db.privateBoards == old(db.privateBoards)
    ensures Users.GetUsernameId(db, caller).Some? ==>
              r == (if PrivateBoardsTable in db.failing then Missing else Json(true)) &&
              db.privateBoards == old(db.privateBoards) +
                (if r.Json? then [PrivateBoard(Some(old(db.nextId)), name, Users.GetUsernameId(db, caller).value)] else [])
  {
    var userId := Users.GetUsernameId(db, caller);
    if userId.None? {
      return Missing;
    }
    var created := Boards.CreatePrivate(db, PrivateBoard(None, name, userId.value));
    r := if created.Ok? then Json(created.value > 0) else Missing;
  }

  /** `team_board`: a board for team `data.owner`, only for a member of that team. An
      unknown caller is a 500 (`unwrap` on no id); a caller without a membership gets
      Missing and nothing is written. */
  method TeamBoardCreate(db: Connection, caller: string, data: TeamBoardData) returns (r: Reply<bool>)
    requires db.Valid()
    modifies db`teamBoards, db`nextId
    ensures db.Valid()
    ensures Users.GetUsernameId(db, caller).None? ==> r == ServerError && db.teamBoards == old(db.teamBoards)
    ensures Users.GetUsernameId(db, caller).Some? &&
            Teams.HasAccess(db, data.owner, Users.GetUsernameId(db, caller).value).Err? ==>
              r == Missing && db.teamBoards == old(db.teamBoards)
    ensures Users.GetUsernameId(db, caller).Some? &&
            Teams.HasAccess(db, data.owner, Users.GetUsernameId(db, caller).value).Ok? ==>
              r == (if TeamBoardsTable in db.failing then Missing else Json(true)) &&
              db.teamBoards == old(db.teamBoards) +
                (if r.Json? then [TeamBoard(Some(old(db.nextId)), data.name, data.owner)] else [])
    ensures db.teamBoards != old(db.teamBoards) ==>
              exists m :: m in db.teamUsers && m.team == data.owner && Some(m.user) == Users.GetUsernameId(db, caller)
  {
    var userId := Users.GetUsernameId(db, caller);
    if userId.None? {
      return ServerError;
    }
    if Teams.HasAccess(db, data.owner, userId.value).Err? {
      return Missing;
    }
    var created := Boards.CreateTeam(db, TeamBoard(None, data.name, data.owner));
    r := if created.Ok? then Json(created.value > 0) else Missing;
  }

  /** The ids the usernames resolve to, in order; None for an unknown username. */
  function Resolved(db: Connection, names: seq<string>): (r: seq<Option<int>>)
    reads db`users
    requires db.UsersKeyed()
    ensures |r| == |names|
    ensures forall k :: 0 <= k < |names| ==> r[k] == Users.GetUsernameId(db, names[k])
    decreases |names|
  {
    if names == [] then []
    else Resolved(db, names[..|names| - 1]) + [Users.GetUsernameId(db, names[|names| - 1])]
  }

  /** The member lookups of `team_create`, one per ';'-separated username, in order. */
  method ResolveMembers(db: Connection, members: string) returns (r: seq<Option<int>>)
    requires db.UsersKeyed()
    ensures r == Resolved(db, Split(members, ';'))
  {
    var names := Split(members, ';');
    r := [];
    var i := 0;
    while i < |names|
      invariant 0 <= i <= |names|
      invariant r == Resolved(db, names[..i])
    {
      assert names[..i + 1][..i] == names[..i];
      r := r + [Users.GetUsernameId(db, names[i])];
      i := i + 1;
    }
    assert names[..i] == names;
  }

  /** No stored team has this name and owner. */
  predicate NameFree(teams: seq<Team>, name: string, owner: int) {
    forall t :: t in teams ==> !(t.name == name && t.owner == owner)
  }

  /** `team_create` as written: the members are the ids of the ';'-separated usernames, in
      order, followed by the caller's own id; an unknown caller is a 500 before anything is
      written. `Team::create` attaches the members to the team its name-and-owner lookup
      finds, which is the new team only when the caller owned no team of that name before;
      otherwise it is an older one, and the new team gets no members. */
  method TeamCreate(db: Connection, caller: string, data: TeamData) returns (r: Reply<bool>)
    requires db.Valid()
    modifies db`teams, db`teamUsers, db`nextId
    ensures db.Valid()
    ensures Users.GetUsernameId(db, caller).None? ==>
              r == ServerError && db.teams == old(db.teams) && db.teamUsers == old(db.teamUsers)
    ensures Users.GetUsernameId(db, caller).Some? ==>
              var owner := Users.GetUsernameId(db, caller).value;
              var members := Resolved(db, Split(data.members, ';')) + [Some(owner)];
              var found := Teams.GetNameId(db, data.name, owner);
              && r == (if TeamsTable in db.failing then Missing else Json(true))
              && db.teams == old(db.teams) + (if r.Json? then [Team(Some(old(db.nextId)), data.name, owner)] else [])
              && (if found.Some? && TeamUsersTable !in db.failing
                  then Teams.AddedMemberships(old(db.teamUsers), db.teamUsers, found.value, Teams.PresentIds(members))
                       && Teams.HasAccess(db, found.value, owner).Ok?
                       && forall u :: Some(u) in members ==> Teams.HasAccess(db, found.value, u).Ok?
                  else db.teamUsers == old(db.teamUsers))
    ensures Users.GetUsernameId(db, caller).Some? && r.Json? ==>
              var owner := Users.GetUsernameId(db, caller).value;
              (NameFree(old(db.teams), data.name, owner) <==>
                 Teams.GetNameId(db, data.name, owner) == Some(old(db.nextId)))
  {
    var members := ResolveMembers(db, data.members);
    var userId := Users.GetUsernameId(db, caller);
    members := members + [userId];
    if userId.None? {
      return ServerError;
    }
    assert Some(userId.value) in members;
    ghost var before := db.teamUsers;
    var created := Teams.Create(db, members, data.name, userId.value);
    r := if created.Ok? then Json(created.value > 0) else Missing;
    var found := Teams.GetNameId(db, data.name, userId.value);
    if found.Some? && TeamUsersTable !in db.failing {
      Teams.AddedMembersHaveAccess(db, before, found.value, Teams.PresentIds(members));
    }
    if r.Json? {
      NewTeamFoundIffNameFree(db, old(db.teams), data.name, userId.value, old(db.nextId));
    }
  }

  /** After a team is appended with key `k` above every stored key, the name-and-owner
      lookup finds it exactly when no earlier team had that name and owner. */
  lemma NewTeamFoundIffNameFree(db: Connection, before: seq<Team>, name: string, owner: int, k: int)
    requires db.TeamsKeyed() && TeamsTable !in db.failing
    requires db.teams == before + [Team(Some(k), name, owner)]
    requires forall t :: t in before ==> Below(t.id, k)
    ensures NameFree(before, name, owner) <==> Teams.GetNameId(db, name, owner) == Some(k)
  {
    var row := Team(Some(k), name, owner);
    assert row in db.teams;
    var found := Teams.GetNameId(db, name, owner);
    if NameFree(before, name, owner) {
      var t :| t in db.teams && t.name == name && t.owner == owner && t.id == Some(found.value);
      assert t == row;
    } else {
      var t :| t in before && t.name == name && t.owner == owner;
      assert t in db.teams;
    }
  }

  /** `team_create` with the handler calling the corrected `Team::create`: the caller and
      every resolved member get access to the new team. */
  method TeamCreateCorrected(db: Connection, caller: string, data: TeamData) returns (r: Reply<bool>)
    requires db.Valid()
    modifies db`teams, db`teamUsers, db`nextId
    ensures db.Valid()
    ensures Users.GetUsernameId(db, caller).None? ==>
              r == ServerError && db.teams == old(db.teams) && db.teamUsers == old(db.teamUsers)
    ensures Users.GetUsernameId(db, caller).Some? ==>
              var owner := Users.GetUsernameId(db, caller).value;
              var members := Resolved(db, Split(data.members, ';')) + [Some(owner)];
              && r == (if TeamsTable in db.failing then Missing else Json(true))
              && db.teams == old(db.teams) + (if r.Json? then [Team(Some(old(db.nextId)), data.name, owner)] else [])
              && (r.Json? && TeamUsersTable !in db.failing ==>
                    Teams.AddedMemberships(old(db.teamUsers), db.teamUsers, old(db.nextId), Teams.PresentIds(members))
                    && Teams.HasAccess(db, old(db.nextId), owner).Ok?
                    && forall u :: Some(u) in members ==> Teams.HasAccess(db, old(db.nextId), u).Ok?)
  {
    var members := ResolveMembers(db, data.members);
    var userId := Users.GetUsernameId(db, caller);
    members := members + [userId];
    if userId.None? {
      return ServerError;
    }
    assert Some(userId.value) in members;
    var created := Teams.CreateCorrected(db, members, data.name, userId.value);
    r := if created.Ok? then Json(created.value > 0) else Missing;
  }

  /** `timer_create`: an active timer with no seconds yet, started now, owned by the
      caller; Missing without writing when the caller is unknown. */
  method TimerCreate(db: Connection, caller: string, name: string, now: int) returns (r: Reply<bool>)
    requires db.Valid()
    modifies db`timers, db`nextId
    ensures db.Valid()
    ensures Users.GetUsernameId(db, caller).None? ==> r == Missing && db.timers == old(db.timers)
    ensures Users.GetUsernameId(db, caller).Some? ==>
              r == (if TimersTable in db.failing then Missing else Json(true)) &&
              db.timers == old(db.timers) +
                (if r.Json?
                 then [Timer(Some(old(db.nextId)), name, Users.GetUsernameId(db, caller).value, Timers.Active, 0, Some(now))]
                 else [])
  {
    var userId := Users.GetUsernameId(db, caller);
    if userId.None? {
      return Missing;
    }
    var created := Timers.Create(db, Timer(None, name, userId.value, Timers.Active, 0, Some(now)));
    r := if created.Ok? then Json(created.value > 0) else Missing;
  }

  /** `timer_update`: toggles the stored timer with that key. Missing without writing when
      there is none; a 500 without writing when it is active but has no start. A found
      timer's own row always changes, so success answers true. */
  method TimerUpdate(db: Connection, id: int, now1: int, now2: int) returns (r: Reply<bool>)
    requires db.Valid()
    modifies db`timers
    ensures db.Valid()
    ensures old(Timers.GetById(db, id)).Err? ==> r == Missing && db.timers == old(db.timers)
    ensures r == ServerError ==>
              db.timers == old(db.timers) && old(Timers.GetById(db, id)).Ok?
    ensures old(Timers.GetById(db, id)).Ok? ==>
              var t := old(Timers.GetById(db, id)).value;
              if t.status == Timers.Active && t.start.None? then r == ServerError
              else r == Json(true) && db.timers == Timers.ToggleRows(old(db.timers), t, now1, now2)
  {
    var found := Timers.GetById(db, id);
    if found.Err? {
      return Missing;
    }
    var t := found.value;
    if t.status == Timers.Active && t.start.None? {
      return ServerError;
    }
    assert t in Filter(db.timers, Timers.HasTimerId(id));
    var updated := Timers.Update(db, t, now1, now2);
    r := if updated.Ok? then Json(updated.value > 0) else Missing;
  }
}
