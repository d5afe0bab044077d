# Kanban board backend: a Dafny model

This project models the data layer and the main decision logic of a kanban-board web
application. The backend is written in Rust (Rocket with Diesel over SQLite); the frontend
is written in Rust with Yew. These are the entities:

- **users**, who own **private boards**;
- **teams**, whose members (the `team_user` table) share **team boards**;
- **lists** on a board, identified by board id plus board type (`"private"` or `"team"`);
- **tasks** on a list;
- **milestones** that group tasks;
- **logs**, which are snapshots of a task;
- **timers**, which a user can stop and start.

## How the store is modelled

The SQLite database is the class `Db.Connection`:

- Each table is a `seq` field in storage order.
- All tables share one key counter, `nextId`.
- The constant set `failing` names the tables whose every read and write fails. This is how each Diesel `QueryResult` error path is modelled.

`Connection.Valid()` holds the store invariants:

- every stored key is `Some` and below `nextId`;
- users, teams and memberships only ever get generated keys, so they are kept in ascending key order;
- list keys are distinct.

Each repository function is modelled in one of two ways:

- A query is a function that `reads` only the tables it queries. It states what it returns in terms of those tables. Where the source loops over query results (`Team::get_teams_boards`, `Milestone::get`, `Milestone::get_stats`), the query is a method that reads through the connection and is proved equal to such a function.
- A write is a method that `modifies` only the tables it writes and, when it inserts, the counter. It preserves `Valid()` and states its result: a count of affected rows, a boolean for `is_ok()` (`User::update`, `User::delete`), or nothing where the source drops the result (`Team::add`).
- Most writes state the whole new table. The membership rows added by the loop of `Team::create` (and its corrected variant) are stated by their team and user only; their keys and the counter's new value are left open.

An insert with an explicit key that is already in use returns a unique-constraint error. This is how SQLite behaves.

Loops in the source are methods with invariants. Each is proved equal to a recursive specification function:

- the loop of `Team::create`;
- `Team::get_teams_boards`;
- `Milestone::get`;
- `Milestone::get_stats`;
- the member lookup of the `team_create` handler.

The properties of the source are lemmas about those functions.

What the HTTP handlers decide is modelled in `Handlers`, with the reply type `Reply`:

- `Json(value)` is a successful reply;
- `Missing` is a reply of 404;
- `ServerError` is a reply of 500, which is what the source produces when an `unwrap` panics.

The handler's caller is the username carried in the request's token.

## Model

| member | source | states |
|---|---|---|
| Users.Create | backend/src/user.rs:22-33 | appends one user with a fresh key, ignoring any id the caller supplied; on error nothing changes; ascending key order is preserved |
| Users.Read | backend/src/user.rs:35-41 | id 0 returns every user, in ascending key order; any other id returns exactly the users with that key, each as often as it is stored; an error exactly when the table fails |
| Users.ByUsernameAndPassword | backend/src/user.rs:43-61 | Some exactly when a user with both that name and that password exists; the result is that user, with the lowest key among the matches |
| Users.GetPrivateBoards | backend/src/user.rs:63-74 | exactly the private boards the user owns, each as often as it is stored |
| Users.Update | backend/src/user.rs:76-81 | true exactly when the write succeeds; the rows with that key get the new username and password; all other rows stay as they were |
| Users.Delete | backend/src/user.rs:83-87 | true exactly when the write succeeds; removes exactly the rows with that key |
| Users.GetUsernameId | backend/src/user.rs:89-102 | Some exactly when a user with that name exists; the result is the lowest key among them |
| Teams.GetNameId | backend/src/team.rs:54-68 | Some exactly when a team with that name and owner exists; the result is the lowest key among them |
| Teams.SameNameResolvesToOldest | backend/src/team.rs:30-68 | after a second team with the same name and owner is inserted, the lookup does not return the key of the new team |
| Teams.HasAccess | backend/src/team.rs:70-84 | Ok exactly when a membership row for that team and user exists; the row returned is the one with the lowest key; not-found versus store error otherwise |
| Teams.GetOwned | backend/src/team.rs:86-94 | exactly the teams the user owns, each as often as it is stored |
| Teams.Add | backend/src/team.rs:96-106 | inserts one membership when both ids are present and the table is writable; otherwise nothing changes |
| Teams.AddAll | backend/src/team.rs:47-49 | one membership per present member id, in order; absent ids are skipped; with no team id nothing is written |
| Teams.PresentIds | backend/src/team.rs:47-49 | holds exactly the ids that are present in the member list and is no longer than the list; when every member is present, it lists their ids in the list's order |
| Teams.PresentIdsSnoc | backend/src/team.rs:47-49 | one more member adds its id at the end when present and nothing otherwise, so order and repeats are kept |
| Teams.AddedMembersHaveAccess | backend/src/team.rs:70-106 | after the memberships are added, `has_access` succeeds for every added user |
| Teams.Insert | backend/src/team.rs:37-43 | appends the team row with a fresh key |
| Teams.Create | backend/src/team.rs:30-52 | as written: inserts the team, then attaches the members to whatever key the name-and-owner lookup gives back |
| Teams.CreateCorrected | backend/src/team.rs:30-52 | inserts the team and attaches the members to the new team's own key; every present member then has access to it |
| Teams.MemberTeams | backend/src/team.rs:114-123 | exactly the teams that have a membership row for the user |
| Teams.BoardsOfTeams | backend/src/team.rs:124-131 | exactly the boards of those teams, each tagged with its team's name |
| Teams.LoadMemberTeams | backend/src/team.rs:114-123 | the loop computes the member teams; it fails only when there is at least one lookup to make and the teams table fails |
| Teams.LoadBoards | backend/src/team.rs:124-131 | the loop computes the tagged boards; it fails only when there is at least one team and the boards table fails |
| Teams.GetTeamsBoards | backend/src/team.rs:108-135 | equal to the specification `TeamsBoards` |
| Teams.TeamsBoardsPerMembership | backend/src/team.rs:108-135 | the listing is one block of boards per membership row of the user, in load order, so a user with two membership rows in a team sees each of its boards twice |
| Teams.TeamsBoardsExactly | backend/src/team.rs:108-135 | a tagged board is listed exactly when its team has a membership row for the user; a user with no memberships gets an empty list |
| Teams.ListedBoardsAreAccessible | backend/src/team.rs:70-135 | the user has access to the team of every board listed |
| Types.New | backend/src/types.rs:26-36 | one tagged board per board, in order, each carrying the board's fields and the team name |
| Types.NewMembers | backend/src/types.rs:26-36 | a value is in the result exactly when it is some board tagged with the name |
| Boards.CreatePrivate | backend/src/board.rs:29-37 | inserts the board; a key already in use is a unique-constraint error; on error nothing changes |
| Boards.CreateTeam | backend/src/board.rs:65-73 | inserts the board; a key already in use is a unique-constraint error; on error nothing changes |
| Boards.UpdatePrivate | backend/src/board.rs:49-61 | renames exactly the boards with that key and counts them; owner and key are unchanged |
| Boards.UpdateTeam | backend/src/board.rs:85-97 | renames exactly the boards with that key and counts them; owner and key are unchanged |
| Boards.DeletePrivate | backend/src/board.rs:39-47 | removes the board; on success also every private list on that board id; team lists stay; after a board failure nothing has changed, after a list failure only the board is gone |
| Boards.DeleteTeam | backend/src/board.rs:75-83 | removes the board; on success also every team list on that board id; private lists stay; after a board failure nothing has changed, after a list failure only the board is gone |
| Lists.Create | backend/src/list.rs:19-24 | inserts the list; a key already in use is a unique-constraint error |
| Lists.Get | backend/src/list.rs:26-39 | exactly the lists of that board and board type, each with its multiplicity in the table |
| Lists.Delete | backend/src/list.rs:41-45 | removes exactly the lists with that key; the count is the number removed |
| Lists.DeleteByBoard | backend/src/list.rs:47-62 | removes exactly the lists of that board and type; the count is the number removed |
| Lists.DeleteByBoardEmptiesBoard | backend/src/list.rs:47-62 | afterwards the board has no lists of that type |
| Lists.DeleteByBoardSparesOtherType | backend/src/list.rs:47-62 | the lists of the same board id under the other board type are unchanged |
| Tasks.Create | backend/src/task.rs:23-27 | inserts the task; a key already in use is a unique-constraint error |
| Tasks.Update | backend/src/task.rs:29-37 | each row with the task's key gets overwritten with the given fields, except absent optional ones; other rows are unchanged; the count is the number of rows with that key |
| Tasks.Get | backend/src/task.rs:39-43 | exactly the tasks on that list, each with its multiplicity in the table |
| Tasks.Delete | backend/src/task.rs:45-49 | removes exactly the tasks with that key |
| Tasks.GetSingle | backend/src/task.rs:51-55 | Ok exactly when a task with that key exists; the result is such a task; not-found versus store error otherwise |
| Tasks.UpdateThenRead | backend/src/task.rs:29-55 | after an update, reading the row with that key gives back its overwritten version |
| Milestones.Create | backend/src/milestone.rs:34-38 | inserts the milestone; a key already in use is a unique-constraint error |
| Milestones.TasksOnLists | backend/src/milestone.rs:57-61 | only tasks from the table are gathered |
| Milestones.GatherTasks | backend/src/milestone.rs:57-61 | the loop appends the tasks of each list in turn, giving `TasksOnLists`; it fails with a store error exactly when there is a list and the tasks table fails |
| Milestones.GetStats | backend/src/milestone.rs:54-73 | the loop computes the specification `StatsResult` |
| Milestones.StatsOfAll | backend/src/milestone.rs:45-49 | the loop computes the specification `Responses`, stopping at the first failure |
| Milestones.Get | backend/src/milestone.rs:41-51 | equal to the specification `GetResult` |
| Milestones.ResponsesPerMilestone | backend/src/milestone.rs:41-51 | fails with a store error exactly when some milestone's statistics fail; on success gives one response per milestone, in order |
| Milestones.TasksOnListsMultiset | backend/src/milestone.rs:54-61 | the gathered tasks are, as a multiset, the tasks that lie on one of the lists |
| Milestones.StatsCountBoardTasks | backend/src/milestone.rs:54-73 | total counts the board's tasks in the milestone, and done counts those of them with done set; 0 <= done <= total; the identifying fields are copied |
| Milestones.OtherBoardTypeNotCounted | backend/src/milestone.rs:54-73 | a task on a list of another board type is counted in neither total nor done |
| Milestones.FreshMilestoneIsEmpty | backend/src/milestone.rs:54-73 | a milestone with no tasks reports 0 of 0 |
| Milestones.GetFailsIff | backend/src/milestone.rs:41-51 | failure comes exactly from the milestones table, or from one statistics query of the board's milestones |
| Milestones.GetReportsBoardMilestones | backend/src/milestone.rs:41-51 | on success gives one response per milestone of that board and type, in order, each with that board's id and type |
| Logs.FromTask | backend/src/log.rs:43-45 | the log carries no key, the given task id, action and time, and every field of the task, so that the task can be rebuilt from the log |
| Logs.Create | backend/src/log.rs:30-34 | inserts the log; a key already in use is a unique-constraint error |
| Logs.TextLeqTotal | backend/src/log.rs:37-41 | timestamps compared as text form a total order |
| Logs.TextLeqTrans | backend/src/log.rs:37-41 | the text order is transitive |
| Logs.InsertByTime | backend/src/log.rs:37-41 | inserting into a list sorted newest-first keeps it sorted and adds exactly that log |
| Logs.SortByTime | backend/src/log.rs:37-41 | the result is sorted newest-first and is a permutation of the input |
| Logs.Get | backend/src/log.rs:37-41 | exactly the task's logs with their multiplicities, and no timestamp comes before a later one |
| Timers.Create | backend/src/timer.rs:22-30 | inserts the timer; a key already in use is a unique-constraint error |
| Timers.Update | backend/src/timer.rs:32-42 | every row with the timer's key flips status, adds the elapsed seconds when it was active, and restarts at the second clock reading; the count is the number of such rows, and 0 when the key is absent |
| Timers.ToggleTouchesOnlyItsRow | backend/src/timer.rs:32-42 | rows with other keys are unchanged by a toggle |
| Timers.StopStartStop | backend/src/timer.rs:32-42 | starting a stopped timer and then stopping it again adds exactly the seconds it ran |
| Timers.ToggleKeepsTime | backend/src/timer.rs:32-42 | a toggle never lowers the accumulated seconds |
| Timers.GetTimers | backend/src/timer.rs:44-48 | exactly the user's timers, each as often as it is stored |
| Timers.GetById | backend/src/timer.rs:50-54 | Ok exactly when a timer with that key exists; the result is such a timer; not-found versus store error otherwise |
| Timers.Delete | backend/src/timer.rs:56-62 | removes exactly the timers with that key |
| Frontend.GetTime | frontend/src/types.rs:94-105 | a stopped timer shows its stored seconds; an active one shows the stored seconds plus the time since its start |
| Frontend.GetTimeMonotone | frontend/src/types.rs:94-105 | the shown time never decreases as the clock advances |
| Frontend.GetTimeAtLeastStored | frontend/src/types.rs:94-105 | the shown time is at least the stored seconds |
| Frontend.ShownTimeIsStoppedTime | frontend/src/types.rs:94-105 | the time the frontend shows at a moment equals the seconds the backend stores when the timer is toggled at that moment |
| Frontend.NewTimerShowsZero | frontend/src/types.rs:94-105 | a timer just created shows 0 |
| Handlers.Split | backend/src/main.rs:140-142 | `str::split` on one character: at least one piece, and no piece contains the separator |
| Handlers.SplitJoin | backend/src/main.rs:140-142 | joining the pieces gives back the input |
| Handlers.JoinSplit | backend/src/main.rs:140-142 | splitting a join of pieces that contain no separator gives back the pieces |
| Handlers.Login | backend/src/main.rs:50-74 | not found exactly when no user has those credentials; a 500 only when signing fails; otherwise a successful token response |
| Handlers.Register | backend/src/main.rs:76-86 | stores the credentials under a fresh key; once registered, the credentials log in |
| Handlers.PrivateBoardCreate | backend/src/main.rs:88-108 | an unknown caller gets not found and nothing is written; otherwise the board is created, owned by the caller |
| Handlers.TeamBoardCreate | backend/src/main.rs:110-132 | an unknown caller gets a 500; a caller who is not a member gets not found; a board is written only for a member of the owning team |
| Handlers.Resolved | backend/src/main.rs:140-145 | one lookup result per username, in order |
| Handlers.ResolveMembers | backend/src/main.rs:140-145 | the loop computes the lookups of the ';'-separated usernames |
| Handlers.TeamCreate | backend/src/main.rs:134-152 | as written: an unknown caller gets a 500 and nothing is written; otherwise the team is created and the caller and every resolved member gain access to the team the name-and-owner lookup finds; that team is the new one exactly when the caller owned no team of that name before |
| Handlers.NewTeamFoundIffNameFree | backend/src/team.rs:37-68 | after the insert, the name-and-owner lookup returns the new team's key exactly when no earlier team had that name and owner |
| Handlers.TeamCreateCorrected | backend/src/main.rs:134-152 | the handler with the corrected `Team::create`: the caller and every resolved member have access to the new team |
| Handlers.TimerCreate | backend/src/main.rs:359-372 | an unknown caller gets not found; otherwise an active timer with zero seconds, started now, owned by the caller |
| Handlers.TimerUpdate | backend/src/main.rs:382-392 | an unknown key gets not found and nothing is written; an active timer with no start gets a 500; otherwise the one toggle and a reply of true |

## Left out

- Integer widths are not modelled. In the backend, keys, points, `done`, timer seconds and the clock (`get_time` in backend/src/utils.rs) are all `i32`; the frontend's displayed time is `u64`. The model uses unbounded integers, so `i32` overflow, the panic in `get_time` once the clock passes the `i32` range, and the frontend's `u64` underflow are not modelled.
- Frontend.GetTime: requires the start to be no later than the current time plus the stored seconds. Otherwise the source's unsigned subtraction underflows (a panic or a wrap-around), and that case is not modelled.
- Frontend.GetTime: requires an active timer to carry a start time. For an active timer with no start, frontend/src/types.rs:100 unwraps `None` and panics; that case is not modelled.
- Timers.Update: `timer.time + get_time() - timer.start` is signed `i32` arithmetic, and its overflow is not modelled; the arithmetic is on unbounded integers.
- Timers.Update: requires an active timer to carry a start time. For an active timer with no start, backend/src/timer.rs:34 unwraps `None` and panics. The `timer_update` handler model covers this case as a 500 (`Handlers.TimerUpdate`).
- Tasks.Update: requires the task to carry a key. Without one, backend/src/task.rs:32 unwraps `None` and panics, which Rocket answers with a 500; this case is not modelled.
- Concurrency: `join_all` in `team_create` and the async connection pool are modelled as sequential calls, in list order.
- The clock is modelled as parameters (`now`, `now1`, `now2`). `Timer::update` reads the clock twice, so two readings are passed.
- JWT signing is modelled as the parameter `sign`. The token format, the secret key and the verification in `auth.rs` are not modelled.
- The values of generated keys are not modelled. Every table draws from one shared counter, whereas SQLite keeps a separate rowid sequence per table. Keys are also never reused in the model: the counter only grows.
- Key reuse is not modelled. The backend/src/schema.rs keys are SQLite rowids, and nothing shows AUTOINCREMENT, so after the newest row of a table is deleted, the next insert can get the same key again. `List::delete` and `Task::delete` do not cascade. A new list can therefore pick up the tasks of a deleted list, which `Task::get` and `Milestone::get_stats` would then report, and a new task can pick up a deleted task's logs. The model's counter never hands out a key twice, so it shows none of this.
- Store failures are per table and permanent: in the model, a table listed in `failing` fails on every access and any other table on none. So the model cannot show an insert into `team` that fails while the lookup by name and owner that follows it succeeds. In that case `Team::create` (backend/src/team.rs:36-49) attaches the members to an older team of the same name and owner.
- Storage order is not modelled exactly. Queries without ORDER BY return rows in insertion order, which is how SQLite usually behaves but does not promise.
- Logs.SortByTime: the relative order of logs with equal timestamps is left open. The source sorts in the database, and its tie order is not specified.
- `Task::filter` and the `filter_tasks` handler are not modelled. They build a dynamic Diesel query over the optional filter fields.
- For the remaining handlers only the repository function is modelled, not the handler around it. Those handlers behave as follows:
  - get_logs, new_list, get_list, get_tasks, get_task, create_task, update_task, update_private, update_team, delete_list, timer_delete, get_milestones and milestone_create forward to their repository function and answer 404 on any error. The writes among them answer `cnt > 0`.
  - owned, get_private_boards and get_team_boards (backend/src/main.rs:154-188) look the caller up with `get_username_id` and `unwrap` the result, so an unknown caller gets a 500 rather than a 404.
  - get_timers (backend/src/main.rs:394-404) answers 404 for an unknown caller before it queries the timers.
  - delete_private, delete_team_board and delete_task (backend/src/main.rs:263-293) answer `true` on any success, even when no row was removed.
- The handlers do not check that a timer belongs to its caller before updating or deleting it, and neither does the model.
- Passwords are stored and compared in plain text, as in the source.
- `println!` calls, migrations, the Rocket launch, and the Yew components other than the timer's displayed time are not modelled.
- Tasks.Update assumes Diesel's `AsChangeset` default: a `None` optional field leaves the column unchanged, and the key is never written.

## Notes on the source

- The `Task` struct in backend/src/task.rs:11-20 lists only eight fields. The tests in backend/src/test.rs:335-348 build tasks with `points`, `tags`, `done` and `milestone` as well, and `milestone.rs` reads `done` and `milestone`. The model uses that fuller field set.
- The `create_task` and `update_task` handlers (backend/src/main.rs:295-323) write no log entry. The model follows the code: logs appear only through `Log::create`.
- `Timer::update` sets `start` on every toggle, so a stopped timer also carries a start time.

## Findings

| source | as written | input that shows it | evidently intended | confidence | as-written member | corrected member |
|---|---|---|---|---|---|---|
| backend/src/team.rs:30-52 | after inserting the team, `Team::create` looks up the team's key by name and owner. That lookup returns the oldest team with that name and owner, and the members are attached to it | create a team "A" owned by user 1, then create a second team "A" owned by user 1 with member 2: user 2 becomes a member of the first team, and the second team gets no members | attach the members to the row just inserted | not executed | Teams.Create, Teams.SameNameResolvesToOldest, Handlers.TeamCreate | Teams.CreateCorrected, Handlers.TeamCreateCorrected |
