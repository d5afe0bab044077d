/** The relational store (the tables of the schema and the connection every operation is
    handed), modelled as one object with one sequence per table. */
module Db {
  import opened Wrappers
  import opened Seqs

  datatype User = User(id: Option<int>, username: string, password: string)
  datatype Team = Team(id: Option<int>, name: string, owner: int)
  datatype TeamUser = TeamUser(id: Option<int>, team: int, user: int)
  datatype PrivateBoard = PrivateBoard(id: Option<int>, name: string, owner: int)
  datatype TeamBoard = TeamBoard(id: Option<int>, name: string, owner: int)
  datatype List = List(id: Option<int>, name: string, board: int, boardType: string)
  datatype Task = Task(id: Option<int>, name: string, list: int, note: Option<string>,
                       place: Option<string>, members: Option<string>, deadline: string,
                       subtasks: string, points: int, tags: string, done: int,
                       milestone: Option<int>)
  datatype Milestone = Milestone(id: Option<int>, name: string, boardId: int, boardType: string)
  datatype Log = Log(id: Option<int>, name: string, list: int, note: Option<string>,
                     place: Option<string>, members: Option<string>, timestamp: string,
                     action: string, taskId: int, deadline: string, subtasks: string,
                     points: int, tags: string)
  datatype Timer = Timer(id: Option<int>, name: string, userId: int, status: string,
                         time: int, start: Option<int>)

  datatype Table =
    | UsersTable | TeamsTable | TeamUsersTable | PrivateBoardsTable | TeamBoardsTable
    | ListsTable | TasksTable | MilestonesTable | LogsTable | TimersTable

  /** A stored primary key: present, and below the next id the store hands out. */
  predicate Below(id: Option<int>, next: int) {
    id.Some? && id.value < next
  }

  /** `a` sorts strictly before `b` by primary key. */
  predicate Before(a: Option<int>, b: Option<int>) {
    a.Some? && b.Some? && a.value < b.value
  }

  predicate UserBefore(a: User, b: User) { Before(a.id, b.id) }
  predicate TeamBefore(a: Team, b: Team) { Before(a.id, b.id) }
  predicate TeamUserBefore(a: TeamUser, b: TeamUser) { Before(a.id, b.id) }
  predicate ListKeysDiffer(a: List, b: List) { a.id != b.id }

  /** The key an insert stores: the explicit one, or the next fresh one. */
  function InsertedKey(requested: Option<int>, nextId: int): int {
    if requested.Some? then requested.value else nextId
  }

  /** The next fresh id once key `k` is in use. */
  function NextAfter(nextId: int, k: int): (n: int)
    ensures n >= nextId && n > k
    ensures k < nextId ==> n == nextId
  {
    if k < nextId then nextId else k + 1
  }

  /** An in-memory SQLite database. `failing` names the tables whose every read
      and write errors; it stands for the store failures behind `QueryResult`. */
  class Connection {
    const failing: set<Table>
    var users: seq<User>
    var teams: seq<Team>
    var teamUsers: seq<TeamUser>
    var privateBoards: seq<PrivateBoard>
    var teamBoards: seq<TeamBoard>
    var lists: seq<List>
    var tasks: seq<Task>
    var milestones: seq<Milestone>
    var logs: seq<Log>
    var timers: seq<Timer>
    var nextId: int

    /** Primary keys are present and below `nextId`; the tables that only ever get
        generated keys are in ascending key order; list keys are distinct. */
    ghost predicate Valid()
      reads this
    {
      && UsersKeyed() && TeamsKeyed() && TeamUsersKeyed() && ListsKeyed() && MilestonesKeyed()
      && (forall x :: x in users ==> Below(x.id, nextId))
      && (forall x :: x in teams ==> Below(x.id, nextId))
      && (forall x :: x in teamUsers ==> Below(x.id, nextId))
      && (forall x :: x in privateBoards ==> Below(x.id, nextId))
      && (forall x :: x in teamBoards ==> Below(x.id, nextId))
      && (forall x :: x in lists ==> Below(x.id, nextId))
      && (forall x :: x in tasks ==> Below(x.id, nextId))
      && (forall x :: x in milestones ==> Below(x.id, nextId))
      && (forall x :: x in logs ==> Below(x.id, nextId))
      && (forall x :: x in timers ==> Below(x.id, nextId))
    }

    /** The per-table parts of Valid() that queries rely on; each reads one table only. */
    ghost predicate UsersKeyed()
      reads this`users
    {
      (forall x :: x in users ==> x.id.Some?) && Pairwise(users, UserBefore)
    }

    ghost predicate TeamsKeyed()
      reads this`teams
    {
      (forall x :: x in teams ==> x.id.Some?) && Pairwise(teams, TeamBefore)
    }

    ghost predicate TeamUsersKeyed()
      reads this`teamUsers
    {
      (forall x :: x in teamUsers ==> x.id.Some?) && Pairwise(teamUsers, TeamUserBefore)
    }

    ghost predicate ListsKeyed()
      reads this`lists
    {
      (forall x :: x in lists ==> x.id.Some?) && Pairwise(lists, ListKeysDiffer)
    }

    ghost predicate MilestonesKeyed()
      reads this`milestones
    {
      forall x :: x in milestones ==> x.id.Some?
    }

    /** A fresh, empty database. */
    constructor (failing: set<Table>)
      ensures Valid() && this.failing == failing && nextId == 1
      ensures users == [] && teams == [] && teamUsers == [] && privateBoards == []
      ensures teamBoards == [] && lists == [] && tasks == [] && milestones == []
      ensures logs == [] && timers == []
    {
      this.failing := failing;
      users, teams, teamUsers, privateBoards, teamBoards := [], [], [], [], [];
      lists, tasks, milestones, logs, timers := [], [], [], [], [];
      nextId := 1;
    }
  }
}
