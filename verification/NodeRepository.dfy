/** The node table behind its repository, and the two handlers that issue and recover tokens. */
module NodeRepository {
  import opened Prelude
  import opened Tokens
  import Base64
  import Codec

  /** The table after further statements by other requests; a failing one changes nothing. */
  function ExecutedAll(table: Table, statements: seq<Statement>): Table {
    if statements == [] then table
    else
      var before := ExecutedAll(table, statements[..|statements| - 1]);
      var after := Executed(before, statements[|statements| - 1]);
      if after.None? then before else after.value
  }

  /** The first row of a listing whose hash accepts the token. */
  function FirstAccepting(env: Env, table: Table, listing: seq<NodeId>, token: Bytes): Option<NodeId>
    requires forall id | id in listing :: id in table
  {
    if listing == [] then None
    else if env.accepts(token, table[listing[0]].authTokenHash) then Some(listing[0])
    else FirstAccepting(env, table, listing[1..], token)
  }

  /** Nil exactly when no listed row accepts; otherwise a row that accepts while none before it does. */
  lemma {:induction false} FirstAcceptingMeaning(env: Env, table: Table, listing: seq<NodeId>, token: Bytes)
    requires forall id | id in listing :: id in table
    ensures var found := FirstAccepting(env, table, listing, token);
            if found.None? then forall id | id in listing :: !env.accepts(token, table[id].authTokenHash)
            else exists i :: 0 <= i < |listing| && listing[i] == found.value
                   && env.accepts(token, table[listing[i]].authTokenHash)
                   && forall j | 0 <= j < i :: !env.accepts(token, table[listing[j]].authTokenHash)
  {
    if listing == [] || env.accepts(token, table[listing[0]].authTokenHash) {
    } else {
      var rest := listing[1..];
      FirstAcceptingMeaning(env, table, rest, token);
      var found := FirstAccepting(env, table, rest, token);
      if found.Some? {
        var i :| 0 <= i < |rest| && rest[i] == found.value
              && env.accepts(token, table[rest[i]].authTokenHash)
              && forall j | 0 <= j < i :: !env.accepts(token, table[rest[j]].authTokenHash);
        assert listing[i + 1] == rest[i];
        assert forall j | 1 <= j < i + 1 :: listing[j] == rest[j - 1];
      } else {
        assert forall id | id in listing :: id == listing[0] || id in rest;
      }
    }
  }

  /** The row at a place of the listing is found exactly if it accepts and none before it does. */
  lemma {:induction false} FoundIff(env: Env, table: Table, listing: seq<NodeId>, token: Bytes, i: nat)
    requires (forall id | id in listing :: id in table) && Distinct(listing) && i < |listing|
    ensures FirstAccepting(env, table, listing, token) == Some(listing[i]) <==>
              && env.accepts(token, table[listing[i]].authTokenHash)
              && forall j | 0 <= j < i :: !env.accepts(token, table[listing[j]].authTokenHash)
  {
    if i == 0 {
      FirstAcceptingMeaning(env, table, listing, token);
    } else {
      var rest := listing[1..];
      assert forall j | 0 <= j < |rest| :: rest[j] == listing[j + 1];
      FoundIff(env, table, rest, token, i - 1);
      assert (forall j | 0 <= j < i :: !env.accepts(token, table[listing[j]].authTokenHash)) <==>
             && !env.accepts(token, table[listing[0]].authTokenHash)
             && (forall j | 0 <= j < i - 1 :: !env.accepts(token, table[rest[j]].authTokenHash)) by {
        forall j | 1 <= j < i ensures table[listing[j]] == table[rest[j - 1]] {}
      }
    }
  }

  /**
   In every reachable table, the token recovered for a node finds some node, and finds this one
   exactly if no earlier row of the listing accepts it too.
   */
  lemma RecoveredTokenIsFound(env: Env, s: State, listing: seq<NodeId>, i: nat) returns (token: Bytes)
    requires env.Lawful() && Reachable(env, s) && Visits(listing, s.table.Keys) && i < |listing|
    ensures listing[i] in s.table && Recovered(env, s.table[listing[i]]) == Ok(token)
    ensures FirstAccepting(env, s.table, listing, token).Some?
    ensures FirstAccepting(env, s.table, listing, token) == Some(listing[i])
            <==> forall j | 0 <= j < i ::
                   listing[j] in s.table && !env.accepts(token, s.table[listing[j]].authTokenHash)
  {
    assert forall j | 0 <= j < |listing| :: listing[j] in listing;
    token := RecoveredTokenAccepted(env, s, listing[i]);
    FirstAcceptingMeaning(env, s.table, listing, token);
    FoundIff(env, s.table, listing, token, i);
  }

  // ----- listings -----

  /** The database's order of names: any total preorder. */
  ghost predicate IsCollation(precedes: (string, string) -> bool) {
    && (forall a, b :: precedes(a, b) || precedes(b, a))
    && (forall a, b, c | precedes(a, b) && precedes(b, c) :: precedes(a, c))
  }

  ghost predicate InNameOrder(table: Table, listing: seq<NodeId>, precedes: (string, string) -> bool)
    requires forall id | id in listing :: id in table
  {
    forall i, j | 0 <= i < j < |listing| :: precedes(table[listing[i]].name, table[listing[j]].name)
  }

  /** A row put behind all that precede it and before all that it precedes. */
  lemma InsertedInOrder(
    table: Table, listing: seq<NodeId>, k: nat, id: NodeId, precedes: (string, string) -> bool, longer: seq<NodeId>)
    requires k <= |listing| && longer == listing[..k] + [id] + listing[k..]
    requires id in table && forall other | other in listing :: other in table
    requires InNameOrder(table, listing, precedes)
    requires forall i | 0 <= i < k :: precedes(table[listing[i]].name, table[id].name)
    requires forall i | k <= i < |listing| :: precedes(table[id].name, table[listing[i]].name)
    ensures (forall other | other in longer :: other in table) && InNameOrder(table, longer, precedes)
  {
  }

  lemma InsertedOnce(listing: seq<NodeId>, k: nat, id: NodeId, longer: seq<NodeId>)
    requires k <= |listing| && longer == listing[..k] + [id] + listing[k..]
    requires Distinct(listing) && id !in listing
    ensures Distinct(longer) && forall other :: other in longer <==> other == id || other in listing
  {
    assert listing == listing[..k] + listing[k..];
  }

  method InsertByName(table: Table, listing: seq<NodeId>, id: NodeId, precedes: (string, string) -> bool)
    returns (longer: seq<NodeId>)
    requires IsCollation(precedes) && id in table && id !in listing && Distinct(listing)
    requires (forall other | other in listing :: other in table) && InNameOrder(table, listing, precedes)
    ensures |longer| == |listing| + 1 && Distinct(longer)
    ensures forall other :: other in longer <==> other == id || other in listing
    ensures forall other | other in longer :: other in table
    ensures InNameOrder(table, longer, precedes)
  {
    var k := 0;
    while k < |listing| && precedes(table[listing[k]].name, table[id].name)
      invariant 0 <= k <= |listing|
      invariant forall i | 0 <= i < k :: precedes(table[listing[i]].name, table[id].name)
    {
      k := k + 1;
    }
    longer := listing[..k] + [id] + listing[k..];
    forall i | k <= i < |listing| ensures precedes(table[id].name, table[listing[i]].name) {
      assert precedes(table[id].name, table[listing[k]].name);
    }
    InsertedOnce(listing, k, id, longer);
    InsertedInOrder(table, listing, k, id, precedes, longer);
  }

  /** ORDER BY name: the rows in some order, sorted by insertion. */
  method ListByName(table: Table, precedes: (string, string) -> bool) returns (listing: seq<NodeId>)
    requires IsCollation(precedes)
    ensures Visits(listing, table.Keys) && InNameOrder(table, listing, precedes)
  {
    var rows := AnyOrder(table.Keys);
    listing := [];
    for i := 0 to |rows|
      invariant |listing| == i && Distinct(listing)
      invariant forall id :: id in listing <==> id in rows[..i]
      invariant forall id | id in listing :: id in table
      invariant InNameOrder(table, listing, precedes)
    {
      assert rows[i] in rows && rows[i] !in rows[..i];
      assert rows[..i + 1] == rows[..i] + [rows[i]];
      listing := InsertByName(table, listing, rows[i], precedes);
    }
    assert rows[..|rows|] == rows;
  }

  // ----- the repository -----

  /** The database did not answer. */
  datatype DbError = DbError

  /** An error comes back before a statement takes effect, or after. */
  datatype Fault = NoFault | Refused | ReplyLost

  class NodeRepository {
    var rows: Table

    constructor ()
      ensures rows == map[]
    {
      rows := map[];
    }

    /** Issues one statement. A failing one leaves the table as it was; a lost reply reads as a failure. */
    method Exec(statement: Statement, fault: Fault) returns (err: bool)
      modifies this
      ensures err <==> !fault.NoFault? || Executed(old(rows), statement).None?
      ensures rows == if fault.Refused? || Executed(old(rows), statement).None? then old(rows)
                      else Executed(old(rows), statement).value
    {
      var after := Executed(rows, statement);
      err := !fault.NoFault? || after.None?;
      if !fault.Refused? && after.Some? {
        rows := after.value;
      }
    }

    /** No such row is not an error. */
    method GetByID(id: NodeId, down: bool) returns (node: Result<Option<Node>, DbError>)
      ensures node == if down then Err(DbError) else Ok(if id in rows then Some(rows[id]) else None)
    {
      if down {
        return Err(DbError);
      }
      node := Ok(if id in rows then Some(rows[id]) else None);
    }

    method ValidateNodeToken(env: Env, id: NodeId, token: Bytes, down: bool) returns (valid: Result<bool, DbError>)
      ensures valid.Err? <==> down
      ensures valid.Ok? ==> (valid.value <==> id in rows && env.accepts(token, rows[id].authTokenHash))
    {
      if down {
        return Err(DbError);
      }
      if id !in rows {
        return Ok(false);
      }
      valid := Ok(env.accepts(token, rows[id].authTokenHash));
    }

    /** Goes through the rows in the order of their names; equal names come in any order. */
    method FindByToken(env: Env, token: Bytes, precedes: (string, string) -> bool, down: bool)
      returns (found: Result<Option<NodeId>, DbError>, listing: seq<NodeId>)
      requires IsCollation(precedes)
      ensures Visits(listing, rows.Keys) && InNameOrder(rows, listing, precedes)
      ensures found == if down then Err(DbError) else Ok(FirstAccepting(env, rows, listing, token))
    {
      listing := ListByName(rows, precedes);
      if down {
        return Err(DbError), listing;
      }
      for i := 0 to |listing|
        invariant FirstAccepting(env, rows, listing, token) == FirstAccepting(env, rows, listing[i..], token)
      {
        if env.accepts(token, rows[listing[i]].authTokenHash) {
          return Ok(Some(listing[i])), listing;
        }
        assert listing[i..][1..] == listing[i + 1..];
      }
      found := Ok(None);
    }
  }

  /** Other requests run between a handler's statements. */
  method Interleave(repo: NodeRepository, statements: seq<Statement>)
    modifies repo
    ensures repo.rows == ExecutedAll(old(repo.rows), statements)
  {
    for i := 0 to |statements|
      invariant repo.rows == ExecutedAll(old(repo.rows), statements[..i])
    {
      assert statements[..i + 1][..i] == statements[..i];
      var err := repo.Exec(statements[i], NoFault);
    }
    assert statements[..|statements|] == statements;
  }

  // ----- the two handlers -----

  datatype RegisterAnswer = BadRequest | Answered(response: Response)

  /** What registration does once it knows whether the node exists. */
  method WriteNode(repo: NodeRepository, env: Env, session: Session, draw: Draw, fault: Fault)
    returns (response: Response)
    modifies repo
    ensures var (after, answer) := Written(env, old(repo.rows), session, draw);
            && repo.rows == (if fault.Refused? then old(repo.rows) else after)
            && response == if fault.NoFault? then answer else InternalError
  {
    var request, node := session.request, session.found;
    if node.None? {
      var nodeID := request.nodeID;
      if nodeID == "" {
        nodeID := draw.nodeID;
      }
      var authToken := request.authToken;
      if authToken == [] {
        authToken := draw.token;
      }
      var created := NewNode(env, request, draw);
      if created.None? {
        return InternalError;
      }
      var err := repo.Exec(Insert(nodeID, created.value), fault);
      if err {
        return InternalError;
      }
      return Registered(nodeID, authToken);
    }
    var err := repo.Exec(Overwrite(request.nodeID, RefreshedNode(env, node.value, request, draw.now)), fault);
    response := if err then InternalError else Refreshed(request.nodeID);
  }

  /**
   Registration reads, other requests do whatever `between` says, then it writes: the
   outcome is the read step and the write step of the protocol around theirs. A request
   that cannot be bound, lacks a name or cannot be looked up changes nothing; a write that
   fails answers an error, whether it took effect or not.
   */
  method HandleRegisterNode(
    repo: NodeRepository?, env: Env, body: Option<Request>, draw: Draw, down: bool, between: seq<Statement>,
        fault: Fault)
    returns (answer: RegisterAnswer)
    modifies repo
    ensures repo == null ==> answer == Answered(InternalError)
    ensures repo != null && (body.None? || body.value.name == "")
        ==> answer == BadRequest && repo.rows == old(repo.rows)
    ensures repo != null && body.Some? && body.value.name != "" && body.value.nodeID != "" && down
            ==> answer == Answered(InternalError) && repo.rows == old(repo.rows)
    ensures repo != null && body.Some? && body.value.name != "" && (body.value.nodeID == "" || !down) ==>
              var before := ExecutedAll(old(repo.rows), between);
              var (after, response) := Written(env, before, LookedUp(old(repo.rows), body.value), draw);
              && repo.rows == (if fault.Refused? then before else after)
              && answer == Answered(if fault.NoFault? then response else InternalError)
    ensures repo != null && answer.Answered? && answer.response.Registered? ==>
              var id := answer.response.id;
              && (body.value.nodeID == "" || body.value.nodeID !in old(repo.rows))
              && id in repo.rows && IsNewRow(repo.rows[id], env, body.value, draw)
    ensures repo != null && answer.Answered? && answer.response.Refreshed? ==>
              var id := answer.response.id;
              && id == body.value.nodeID && id in old(repo.rows) && id in repo.rows
              && IsRefreshedRow(repo.rows[id], old(repo.rows)[id], env, body.value, draw.now)
  {
    if repo == null {
      return Answered(InternalError);
    }
    if body.None? || body.value.name == "" {
      return BadRequest;
    }
    var request := body.value;
    var node: Option<Node> := None;
    if request.nodeID != "" {
      var found := repo.GetByID(request.nodeID, down);
      if found.Err? {
        return Answered(InternalError);
      }
      node := found.value;
    }
    Interleave(repo, between);
    WriteMeaning(env, repo.rows, Session(request, node), draw);
    var response := WriteNode(repo, env, Session(request, node), draw, fault);
    answer := Answered(response);
  }

  datatype TokenAnswer = NoNodeID | NotFound | ServerError | Token(token: Bytes)

  /** The token endpoint, stage by stage. */
  method HandleGetNodeToken(repo: NodeRepository?, env: Env, nodeID: NodeId, down: bool) returns (answer: TokenAnswer)
    ensures answer == if nodeID == "" then NoNodeID
                      else if repo == null || down then ServerError
                      else if nodeID !in repo.rows then NotFound
                      else match Recovered(env, repo.rows[nodeID])
                           case Ok(token) => Token(token)
                           case Err(NoToken) => NotFound
                           case Err(_) => ServerError
    ensures answer.Token? ==>
              && repo != null && nodeID in repo.rows
              && var column := Base64.Decode(repo.rows[nodeID].encryptedAuthToken);
              && column.Some? && Codec.Decrypted(env.primitives, env.SystemKey(), column.value) == Some(answer.token)
    ensures nodeID != "" && repo != null && !down ==>
              (answer == NotFound <==> nodeID !in repo.rows || repo.rows[nodeID].encryptedAuthToken == [])
  {
    if nodeID == "" {
      return NoNodeID;
    }
    if repo == null {
      return ServerError;
    }
    var found := repo.GetByID(nodeID, down);
    if found.Err? {
      return ServerError;
    }
    var node := found.value;
    if node.None? || node.value.encryptedAuthToken == [] {
      return NotFound;
    }
    var encryptedBytes := Base64.Decode(node.value.encryptedAuthToken);
    if encryptedBytes.None? {
      return ServerError;
    }
    var service := new Codec.EncryptionService("aes-256-gcm");
    var decryptedBytes := service.Decrypt(env.primitives, encryptedBytes.value, env.SystemKey());
    answer := if decryptedBytes.None? then ServerError else Token(decryptedBytes.value);
  }
}
