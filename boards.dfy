/** backend/src/board.rs: private boards (owned by a user) and team boards (owned by a
    team), and the cascade from a deleted board to its lists. */
module Boards {
  import opened Wrappers
  import opened Seqs
  import opened Db
  import Lists

  const PrivateType := "private"
  const TeamType := "team"

  function HasPrivateId(id: int): PrivateBoard -> bool {
    (b: PrivateBoard) => b.id == Some(id)
  }

  function NotPrivateId(id: int): PrivateBoard -> bool {
    (b: PrivateBoard) => b.id != Some(id)
  }

  function HasTeamBoardId(id: int): TeamBoard -> bool {
    (b: TeamBoard) => b.id == Some(id)
  }

  function NotTeamBoardId(id: int): TeamBoard -> bool {
    (b: TeamBoard) => b.id != Some(id)
  }

  /** `PrivateBoard::create`: one row, with the given key or a fresh one; a key already in
      use is a unique-constraint error and leaves the table unchanged. */
  method CreatePrivate(db: Connection, board: PrivateBoard) returns (r: QueryResult<nat>)
    requires db.Valid()
    modifies db`privateBoards, db`nextId
    ensures db.Valid()
    ensures r == if PrivateBoardsTable in db.failing then Err(StoreFailure)
                 else if board.id.Some? && exists b :: b in old(db.privateBoards) && b.id == board.id
                 then Err(UniqueViolation)
                 else Ok(1)
    ensures var k := InsertedKey(board.id, old(db.nextId));
            if r.Ok?
            then db.privateBoards == old(db.privateBoards) + [board.(id := Some(k))]
                 && db.nextId == NextAfter(old(db.nextId), k)
            else db.privateBoards == old(db.privateBoards) && db.nextId == old(db.nextId)
  {
    if PrivateBoardsTable in db.failing {
      return Err(StoreFailure);
    }
    if board.id.Some? && exists b :: b in db.privateBoards && b.id == board.id {
      return Err(UniqueViolation);
    }
    var k := InsertedKey(board.id, db.nextId);
    db.privateBoards := db.privateBoards + [board.(id := Some(k))];
    db.nextId := NextAfter(db.nextId, k);
    r := Ok(1);
  }

  /** `TeamBoard::create`, as `CreatePrivate`. */
  method CreateTeam(db: Connection, board: TeamBoard) returns (r: QueryResult<nat>)
    requires db.Valid()
    modifies db`teamBoards, db`nextId
    ensures db.Valid()
    ensures r == if TeamBoardsTable in db.failing then Err(StoreFailure)
                 else if board.id.Some? && exists b :: b in old(db.teamBoards) && b.id == board.id
                 then Err(UniqueViolation)
                 else Ok(1)
    ensures var k := InsertedKey(board.id, old(db.nextId));
            if r.Ok?
            then db.teamBoards == old(db.teamBoards) + [board.(id := Some(k))]
                 && db.nextId == NextAfter(old(db.nextId), k)
            else db.teamBoards == old(db.teamBoards) && db.nextId == old(db.nextId)
  {
    if TeamBoardsTable in db.failing {
      return Err(StoreFailure);
    }
    if board.id.Some? && exists b :: b in db.teamBoards && b.id == board.id {
      return Err(UniqueViolation);
    }
    var k := InsertedKey(board.id, db.nextId);
    db.teamBoards := db.teamBoards + [board.(id := Some(k))];
    db.nextId := NextAfter(db.nextId, k);
    r := Ok(1);
  }

  /** `PrivateBoard::update`: renames the boards with that key, nothing else; reports
      how many. */
  method UpdatePrivate(db: Connection, name: string, id: int) returns (r: QueryResult<nat>)
    requires db.Valid()
    modifies db`privateBoards
    ensures db.Valid()
    ensures r.Err? <==> PrivateBoardsTable in db.failing
    ensures r.Err? ==> r.error == StoreFailure && db.privateBoards == old(db.privateBoards)
    ensures r.Ok? ==> r.value == |Filter(old(db.privateBoards), HasPrivateId(id))|
    ensures |db.privateBoards| == |old(db.privateBoards)|
    ensures forall k :: 0 <= k < |db.privateBoards| ==>
              db.privateBoards[k] == if r.Ok? && old(db.privateBoards[k]).id == Some(id)
                                     then old(db.privateBoards[k]).(name := name)
                                     else old(db.privateBoards[k])
  {
    if PrivateBoardsTable in db.failing {
      return Err(StoreFailure);
    }
    var before := db.privateBoards;
    r := Ok(|Filter(before, HasPrivateId(id))|);
    db.privateBoards := seq(|before|, k requires 0 <= k < |before| =>
                          if before[k].id == Some(id) then before[k].(name := name) else before[k]);
    forall x | x in db.privateBoards ensures Below(x.id, db.nextId) {
      var k :| 0 <= k < |db.privateBoards| && db.privateBoards[k] == x;
      assert before[k] in before;
    }
  }

  /** `TeamBoard::update`, as `UpdatePrivate`. */
  method UpdateTeam(db: Connection, name: string, id: int) returns (r: QueryResult<nat>)
    requires db.Valid()
    modifies db`teamBoards
    ensures db.Valid()
    ensures r.Err? <==> TeamBoardsTable in db.failing
    ensures r.Err? ==> r.error == StoreFailure && db.teamBoards == old(db.teamBoards)
    ensures r.Ok? ==> r.value == |Filter(old(db.teamBoards), HasTeamBoardId(id))|
    ensures |db.teamBoards| == |old(db.teamBoards)|
    ensures forall k :: 0 <= k < |db.teamBoards| ==>
              db.teamBoards[k] == if r.Ok? && old(db.teamBoards[k]).id == Some(id)
                                  then old(db.teamBoards[k]).(name := name)
                                  else old(db.teamBoards[k])
  {
    if TeamBoardsTable in db.failing {
      return Err(StoreFailure);
    }
    var before := db.teamBoards;
    r := Ok(|Filter(before, HasTeamBoardId(id))|);
    db.teamBoards := seq(|before|, k requires 0 <= k < |before| =>
                       if before[k].id == Some(id) then before[k].(name := name) else before[k]);
    forall x | x in db.teamBoards ensures Below(x.id, db.nextId) {
      var k :| 0 <= k < |db.teamBoards| && db.teamBoards[k] == x;
      assert before[k] in before;
    }
  }

  /** `PrivateBoard::delete`: removes the board, then the lists of ("private", id). A
      failed board delete changes nothing; a failed list delete leaves the board removed
      and the lists in place. The count is the number of boards removed. Tasks, team
      boards and the lists of team boards are outside the frame. */
  method DeletePrivate(db: Connection, id: int) returns (r: QueryResult<nat>)
    requires db.Valid()
    modifies db`privateBoards, db`lists
    ensures db.Valid()
    ensures PrivateBoardsTable in db.failing ==>
              r == Err(StoreFailure) && db.privateBoards == old(db.privateBoards) && db.lists == old(db.lists)
    ensures PrivateBoardsTable !in db.failing ==>
              db.privateBoards == Filter(old(db.privateBoards), NotPrivateId(id))
    ensures PrivateBoardsTable !in db.failing && ListsTable in db.failing ==>
              r == Err(StoreFailure) && db.lists == old(db.lists)
    ensures PrivateBoardsTable !in db.failing && ListsTable !in db.failing ==>
              r == Ok(|Filter(old(db.privateBoards), HasPrivateId(id))|)
              && db.lists == Filter(old(db.lists), Lists.OffBoard(PrivateType, id))
              && Lists.OfBoard(db.lists, PrivateType, id) == []
              && Lists.OfBoard(db.lists, TeamType, id) == Lists.OfBoard(old(db.lists), TeamType, id)
    ensures forall l :: l in old(db.lists) && l.boardType != PrivateType ==> l in db.lists
  {
    if PrivateBoardsTable in db.failing {
      return Err(StoreFailure);
    }
    FilterComplementCount(db.privateBoards, HasPrivateId(id), NotPrivateId(id));
    var cnt := |Filter(db.privateBoards, HasPrivateId(id))|;
    db.privateBoards := Filter(db.privateBoards, NotPrivateId(id));
    ghost var lists := db.lists;
    var removed := Lists.DeleteByBoard(db, PrivateType, id);
    Lists.DeleteByBoardEmptiesBoard(lists, PrivateType, id);
    Lists.DeleteByBoardSparesOtherType(lists, PrivateType, TeamType, id);
    if removed.Err? {
      return Err(removed.error);
    }
    r := Ok(cnt);
  }

  /** `TeamBoard::delete`, as `DeletePrivate` with the lists of ("team", id). */
  method DeleteTeam(db: Connection, id: int) returns (r: QueryResult<nat>)
    requires db.Valid()
    modifies db`teamBoards, db`lists
    ensures db.Valid()
    ensures TeamBoardsTable in db.failing ==>
              r == Err(StoreFailure) && db.teamBoards == old(db.teamBoards) && db.lists == old(db.lists)
    ensures TeamBoardsTable !in db.failing ==>
              db.teamBoards == Filter(old(db.teamBoards), NotTeamBoardId(id))
    ensures TeamBoardsTable !in db.failing && ListsTable in db.failing ==>
              r == Err(StoreFailure) && db.lists == old(db.lists)
    ensures TeamBoardsTable !in db.failing && ListsTable !in db.failing ==>
              r == Ok(|Filter(old(db.teamBoards), HasTeamBoardId(id))|)
              && db.lists == Filter(old(db.lists), Lists.OffBoard(TeamType, id))
              && Lists.OfBoard(db.lists, TeamType, id) == []
              && Lists.OfBoard(db.lists, PrivateType, id) == Lists.OfBoard(old(db.lists), PrivateType, id)
    ensures forall l :: l in old(db.lists) && l.boardType != TeamType ==> l in db.lists
  {
    if TeamBoardsTable in db.failing {
      return Err(StoreFailure);
    }
    FilterComplementCount(db.teamBoards, HasTeamBoardId(id), NotTeamBoardId(id));
    var cnt := |Filter(db.teamBoards, HasTeamBoardId(id))|;
    db.teamBoards := Filter(db.teamBoards, NotTeamBoardId(id));
    ghost var lists := db.lists;
    var removed := Lists.DeleteByBoard(db, TeamType, id);
    Lists.DeleteByBoardEmptiesBoard(lists, TeamType, id);
    Lists.DeleteByBoardSparesOtherType(lists, TeamType, PrivateType, id);
    if removed.Err? {
      return Err(removed.error);
    }
    r := Ok(cnt);
  }
}
