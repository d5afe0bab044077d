/** backend/src/list.rs: the lists of a board. A list belongs to a board through the
    pair (board type, board id); "private" and "team" boards number their ids apart. */
module Lists {
  import opened Wrappers
  import opened Seqs
  import opened Db

  function OnBoard(boardType: string, board: int): List -> bool {
    (l: List) => l.boardType == boardType && l.board == board
  }

  function OffBoard(boardType: string, board: int): List -> bool {
    (l: List) => !(l.boardType == boardType && l.board == board)
  }

  function HasListId(id: int): List -> bool {
    (l: List) => l.id == Some(id)
  }

  function NotListId(id: int): List -> bool {
    (l: List) => l.id != Some(id)
  }

  /** Whether a stored list already has primary key `k`. */
  predicate ListKeyTaken(lists: seq<List>, k: int) {
    exists l :: l in lists && l.id == Some(k)
  }

  /** `List::create`: one row, with the given key or a fresh one; a key already in use
      is a unique-constraint error and leaves the table unchanged. */
  method Create(db: Connection, list: List) returns (r: QueryResult<nat>)
    requires db.Valid()
    modifies db`lists, db`nextId
    ensures db.Valid()
    ensures r == if ListsTable in db.failing then Err(StoreFailure)
                 else if list.id.Some? && ListKeyTaken(old(db.lists), list.id.value) then Err(UniqueViolation)
                 else Ok(1)
    ensures var k := InsertedKey(list.id, old(db.nextId));
            if r.Ok?
            then db.lists == old(db.lists) + [list.(id := Some(k))] && db.nextId == NextAfter(old(db.nextId), k)
            else db.lists == old(db.lists) && db.nextId == old(db.nextId)
  {
    if ListsTable in db.failing {
      return Err(StoreFailure);
    }
    if list.id.Some? && exists l :: l in db.lists && l.id == list.id {
      return Err(UniqueViolation);
    }
    var k := InsertedKey(list.id, db.nextId);
    var row := list.(id := Some(k));
    var t := db.lists + [row];
    forall i, j | 0 <= i < j < |t| ensures ListKeysDiffer(t[i], t[j]) {
      assert t[i] == db.lists[i] && db.lists[i] in db.lists;
      if j < |db.lists| {
        assert t[j] == db.lists[j];
      }
    }
    db.lists := t;
    db.nextId := NextAfter(db.nextId, k);
    r := Ok(1);
  }

  /** `List::get`: exactly the lists of (board type, board id), in storage order. */
  function Get(db: Connection, boardType: string, board: int): (r: QueryResult<seq<List>>)
    reads db`lists
    ensures r.Err? <==> ListsTable in db.failing
    ensures r.Ok? ==> forall l :: l in r.value <==> l in db.lists && l.boardType == boardType && l.board == board
    ensures r.Ok? ==> forall l :: multiset(r.value)[l] == if l.boardType == boardType && l.board == board
                                                          then multiset(db.lists)[l] else 0
  {
    if ListsTable in db.failing then Err(StoreFailure)
    else
      FilterMultiset(db.lists, OnBoard(boardType, board));
      Ok(Filter(db.lists, OnBoard(boardType, board)))
  }

  /** Removing rows keeps the table's keys valid. */
  lemma FilterKeepsListsValid(db: Connection, p: List -> bool)
    requires db.ListsKeyed()
    ensures (forall x :: x in Filter(db.lists, p) ==> x.id.Some?) && Pairwise(Filter(db.lists, p), ListKeysDiffer)
  {
    FilterPairwise(db.lists, p, ListKeysDiffer);
  }

  /** `List::delete`: removes exactly the lists with that key and reports how many. */
  method Delete(db: Connection, id: int) returns (r: QueryResult<nat>)
    requires db.Valid()
    modifies db`lists
    ensures db.Valid()
    ensures r.Err? <==> ListsTable in db.failing
    ensures r.Err? ==> r.error == StoreFailure && db.lists == old(db.lists)
    ensures r.Ok? ==> db.lists == Filter(old(db.lists), NotListId(id))
                      && r.value == |Filter(old(db.lists), HasListId(id))|
                      && r.value == |old(db.lists)| - |db.lists|
    ensures forall l :: l in db.lists <==> l in old(db.lists) && !(r.Ok? && l.id == Some(id))
  {
    if ListsTable in db.failing {
      return Err(StoreFailure);
    }
    FilterKeepsListsValid(db, NotListId(id));
    FilterComplementCount(db.lists, HasListId(id), NotListId(id));
    r := Ok(|Filter(db.lists, HasListId(id))|);
    db.lists := Filter(db.lists, NotListId(id));
  }

  /** `List::delete_by_board`: removes exactly the lists of (board type, board id) and
      reports how many; a list of the other board type with the same id stays. */
  method DeleteByBoard(db: Connection, boardType: string, board: int) returns (r: QueryResult<nat>)
    requires db.Valid()
    modifies db`lists
    ensures db.Valid()
    ensures r.Err? <==> ListsTable in db.failing
    ensures r.Err? ==> r.error == StoreFailure && db.lists == old(db.lists)
    ensures r.Ok? ==> db.lists == Filter(old(db.lists), OffBoard(boardType, board))
                      && r.value == |Filter(old(db.lists), OnBoard(boardType, board))|
                      && r.value == |old(db.lists)| - |db.lists|
    ensures forall l :: l in db.lists <==>
              l in old(db.lists) && !(r.Ok? && l.boardType == boardType && l.board == board)
  {
    if ListsTable in db.failing {
      return Err(StoreFailure);
    }
    FilterKeepsListsValid(db, OffBoard(boardType, board));
    FilterComplementCount(db.lists, OnBoard(boardType, board), OffBoard(boardType, board));
    r := Ok(|Filter(db.lists, OnBoard(boardType, board))|);
    db.lists := Filter(db.lists, OffBoard(boardType, board));
  }

  /** The lists of a board within a sequence of lists. */
  function OfBoard(lists: seq<List>, boardType: string, board: int): seq<List> {
    Filter(lists, OnBoard(boardType, board))
  }

  /** After a cascade, the board has no lists left. */
  lemma DeleteByBoardEmptiesBoard(before: seq<List>, boardType: string, board: int)
    ensures OfBoard(Filter(before, OffBoard(boardType, board)), boardType, board) == []
  {
  }

  /** A cascade on one board type leaves the lists of every other board type, with the same
      numeric board id, exactly as they were. */
  lemma {:induction false} DeleteByBoardSparesOtherType(before: seq<List>, boardType: string, other: string, board: int)
    requires other != boardType
    ensures OfBoard(Filter(before, OffBoard(boardType, board)), other, board) == OfBoard(before, other, board)
    decreases |before|
  {
    if before != [] {
      DeleteByBoardSparesOtherType(before[1..], boardType, other, board);
    }
  }
}
