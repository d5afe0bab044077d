/** backend/src/types.rs: request and response shapes that carry logic. */
module Types {
  import opened Wrappers
  import opened Db

  /** A team board as listed to a member, tagged with its team's name. */
  datatype TeamBoardWithName = TeamBoardWithName(id: Option<int>, name: string, owner: int, teamName: string)

  /** The login reply; `TokenResponse::new` is this constructor. */
  datatype TokenResponse = TokenResponse(success: bool, token: string)

  /** Body of a team-board creation request. */
  datatype TeamBoardData = TeamBoardData(name: string, owner: int)

  /** Body of a team creation request: `members` is a ';'-separated list of usernames. */
  datatype TeamData = TeamData(name: string, members: string)

  function Tagged(b: TeamBoard, teamName: string): TeamBoardWithName {
    TeamBoardWithName(b.id, b.name, b.owner, teamName)
  }

  /** `TeamBoardWithName::new`: the boards, in order, each tagged with `name`. */
  function New(boards: seq<TeamBoard>, name: string): (r: seq<TeamBoardWithName>)
    ensures |r| == |boards|
    ensures forall i :: 0 <= i < |boards| ==>
              r[i].id == boards[i].id && r[i].name == boards[i].name &&
              r[i].owner == boards[i].owner && r[i].teamName == name
  {
    if boards == [] then []
    else [Tagged(boards[0], name)] + New(boards[1..], name)
  }

  /** What `New` lists is exactly the tagged input boards. */
  lemma NewMembers(boards: seq<TeamBoard>, name: string)
    ensures forall x :: x in New(boards, name) <==> exists b :: b in boards && x == Tagged(b, name)
  {
    var r := New(boards, name);
    forall x | x in r ensures exists b :: b in boards && x == Tagged(b, name) {
      var i :| 0 <= i < |r| && r[i] == x;
      assert x == Tagged(boards[i], name);
    }
    forall b | b in boards ensures Tagged(b, name) in r {
      var i :| 0 <= i < |boards| && boards[i] == b;
      assert r[i] == Tagged(b, name);
    }
  }
}
