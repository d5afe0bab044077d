/** backend/src/user.rs: the users table and the credential lookups. */
module Users {
  import opened Wrappers
  import opened Seqs
  import opened Db

  function HasUsername(username: string): User -> bool {
    (u: User) => u.username == username
  }

  function HasCredentials(username: string, password: string): User -> bool {
    (u: User) => u.username == username && u.password == password
  }

  function HasUserId(id: int): User -> bool {
    (u: User) => u.id == Some(id)
  }

  function OwnedBy(userId: int): PrivateBoard -> bool {
    (b: PrivateBoard) => b.owner == userId
  }

  /** `ORDER BY id` then `first`: the lowest-id user satisfying `p`, or None when there
      is none or the read fails. */
  function FirstUser(db: Connection, p: User -> bool): (r: Option<User>)
    reads db`users
    requires db.UsersKeyed()
    ensures r.Some? <==> UsersTable !in db.failing && exists u :: u in db.users && p(u)
    ensures r.Some? ==> r.value in db.users && p(r.value) && r.value.id.Some?
    ensures r.Some? ==> forall u :: u in db.users && p(u) ==>
                          u.id.Some? && r.value.id.value <= u.id.value
  {
    if UsersTable in db.failing then None
    else
      var matching := Filter(db.users, p);
      if matching == [] then None
      else
        FilterPairwise(db.users, p, UserBefore);
        HeadFirst(matching, UserBefore);
        Some(matching[0])
  }

  /** `User::create`: stores the username and password as given, under a fresh id. */
  method Create(db: Connection, user: User) returns (r: QueryResult<nat>)
    requires db.Valid()
    modifies db`users, db`nextId
    ensures db.Valid()
    ensures r == if UsersTable in db.failing then Err(StoreFailure) else Ok(1)
    ensures db.users == old(db.users) +
              (if r.Ok? then [User(Some(old(db.nextId)), user.username, user.password)] else [])
    ensures db.nextId == old(db.nextId) + (if r.Ok? then 1 else 0)
  {
    if UsersTable in db.failing {
      return Err(StoreFailure);
    }
    var row := User(Some(db.nextId), user.username, user.password);
    AppendFresh(db.users, row);
    db.users := db.users + [row];
    db.nextId := db.nextId + 1;
    r := Ok(1);
  }

  lemma AppendFresh(s: seq<User>, row: User)
    requires Pairwise(s, UserBefore)
    requires row.id.Some?
    requires forall u :: u in s ==> Below(u.id, row.id.value)
    ensures Pairwise(s + [row], UserBefore)
  {
    var t := s + [row];
    forall i, j | 0 <= i < j < |t| ensures UserBefore(t[i], t[j]) {
      assert t[i] == s[i] && s[i] in s;
      if j < |s| {
        assert t[j] == s[j];
      }
    }
  }

  /** `User::read`: id 0 reads the whole table in id order; any other id reads the rows
      with that id. */
  function Read(db: Connection, id: int): (r: QueryResult<seq<User>>)
    reads db`users
    requires db.UsersKeyed()
    ensures r.Err? <==> UsersTable in db.failing
    ensures r.Ok? && id == 0 ==> r.value == db.users && Pairwise(r.value, UserBefore)
    ensures r.Ok? && id != 0 ==> forall u :: u in r.value <==> u in db.users && u.id == Some(id)
    ensures r.Ok? && id != 0 ==> forall u :: multiset(r.value)[u] == if u.id == Some(id)
                                                                     then multiset(db.users)[u] else 0
  {
    if UsersTable in db.failing then Err(StoreFailure)
    else if id != 0 then
      FilterMultiset(db.users, HasUserId(id));
      Ok(Filter(db.users, HasUserId(id)))
    else Ok(db.users)
  }

  /** `User::by_username_and_password`: the lowest-id user with both that username and
      that password. */
  function ByUsernameAndPassword(db: Connection, username: string, password: string): (r: Option<User>)
    reads db`users
    requires db.UsersKeyed()
    ensures r.Some? <==> UsersTable !in db.failing &&
                         exists u :: u in db.users && u.username == username && u.password == password
    ensures r.Some? ==> r.value in db.users && r.value.username == username && r.value.password == password
    ensures r.Some? ==> forall u :: u in db.users && u.username == username && u.password == password ==>
                          r.value.id.value <= u.id.value
  {
    var p := HasCredentials(username, password);
    assert forall u :: p(u) <==> u.username == username && u.password == password;
    FirstUser(db, p)
  }

  /** `User::get_private_boards`: exactly the private boards owned by the user. */
  function GetPrivateBoards(db: Connection, userId: int): (r: QueryResult<seq<PrivateBoard>>)
    reads db`privateBoards
    ensures r.Err? <==> PrivateBoardsTable in db.failing
    ensures r.Ok? ==> forall b :: b in r.value <==> b in db.privateBoards && b.owner == userId
    ensures r.Ok? ==> forall b :: multiset(r.value)[b] == if b.owner == userId
                                                          then multiset(db.privateBoards)[b] else 0
  {
    if PrivateBoardsTable in db.failing then Err(StoreFailure)
    else
      FilterMultiset(db.privateBoards, OwnedBy(userId));
      Ok(Filter(db.privateBoards, OwnedBy(userId)))
  }

  /** `User::update`: overwrites username and password of the row with that id (the
      primary key is not part of the change set); true unless the store fails. */
  method Update(db: Connection, id: int, user: User) returns (ok: bool)
    requires db.Valid()
    modifies db`users
    ensures db.Valid()
    ensures ok <==> UsersTable !in db.failing
    ensures |db.users| == |old(db.users)|
    ensures forall i :: 0 <= i < |db.users| ==>
              db.users[i] == if ok && old(db.users[i]).id == Some(id)
                             then old(db.users[i]).(username := user.username, password := user.password)
                             else old(db.users[i])
  {
    if UsersTable in db.failing {
      return false;
    }
    var before := db.users;
    db.users := seq(|before|, i requires 0 <= i < |before| =>
                  if before[i].id == Some(id)
                  then before[i].(username := user.username, password := user.password)
                  else before[i]);
    forall x | x in db.users ensures Below(x.id, db.nextId) {
      var i :| 0 <= i < |db.users| && db.users[i] == x;
      assert before[i] in before;
    }
    assert Pairwise(db.users, UserBefore) by {
      forall i, j | 0 <= i < j < |db.users| ensures UserBefore(db.users[i], db.users[j]) {
        assert UserBefore(before[i], before[j]);
      }
    }
    ok := true;
  }

  /** `User::delete`: removes the rows with that id; true unless the store fails. */
  method Delete(db: Connection, id: int) returns (ok: bool)
    requires db.Valid()
    modifies db`users
    ensures db.Valid()
    ensures ok <==> UsersTable !in db.failing
    ensures db.users == if ok then Filter(old(db.users), (u: User) => u.id != Some(id)) else old(db.users)
    ensures forall u :: u in db.users <==> u in old(db.users) && !(ok && u.id == Some(id))
  {
    if UsersTable in db.failing {
      return false;
    }
    FilterPairwise(db.users, (u: User) => u.id != Some(id), UserBefore);
    db.users := Filter(db.users, (u: User) => u.id != Some(id));
    ok := true;
  }

  /** `User::get_username_id`: the id of the lowest-id user with that username, or None. */
  function GetUsernameId(db: Connection, username: string): (r: Option<int>)
    reads db`users
    requires db.UsersKeyed()
    ensures r.Some? <==> UsersTable !in db.failing && exists u :: u in db.users && u.username == username
    ensures r.Some? ==> exists u :: u in db.users && u.username == username && u.id == Some(r.value)
    ensures r.Some? ==> forall u :: u in db.users && u.username == username ==> r.value <= u.id.value
  {
    var p := HasUsername(username);
    assert forall u :: p(u) <==> u.username == username;
    match FirstUser(db, p)
    case None => None
    case Some(u) => Some(u.id.value)
  }
}
