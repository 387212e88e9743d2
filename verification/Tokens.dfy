/**
 The life of a node's token at the control plane: its bcrypt hash and its encrypted
 copy, written when the node registers and carried through every later write, however
 read-then-write registrations interleave.
 */
module Tokens {
  import opened Prelude
  import Base64
  import Codec

  /** The foreign functions, the configured system key and the default node configuration. */
  datatype Env = Env(
    primitives: Codec.Primitives,
    hash: (Bytes, Bytes) -> Option<Bytes>,  // bcrypt of a token under a salt; refuses long tokens
    accepts: (Bytes, Bytes) -> bool,        // does a token match a hash?
    configuredKey: Bytes,
    defaultConfiguration: NodeType -> Fields)
  {
    ghost predicate Lawful() {
      && primitives.SealingLaws()
      && forall token, salt | hash(token, salt).Some? :: accepts(token, hash(token, salt).value)
    }

    function SystemKey(): Bytes {
      if configuredKey == [] then DefaultKey() else configuredKey
    }
  }

  function DefaultKey(): (key: Bytes)
    ensures key != []
  {
    var text := "syslens-default-encryption-key-2023";
    seq(|text|, i requires 0 <= i < |text| => text[i] as int % 256)
  }

  datatype NodeType = Agent | FixedService

  datatype NodeStatus = Pending | Active | Inactive

  datatype Node = Node(
    name: string,
    authTokenHash: Bytes,
    encryptedAuthToken: Bytes,
    labels: Fields,
    configuration: Fields,
    kind: NodeType,
    status: NodeStatus,
    groupID: Option<string>,
    serviceID: Option<string>,
    description: Option<string>,
    registeredAt: int,
    lastActiveAt: int)

  type Table = map<NodeId, Node>

  /** A registration request; absent strings are empty. */
  datatype Request = Request(
    nodeID: NodeId,
    name: string,
    labels: Option<Fields>,
    kind: string,
    groupID: string,
    serviceID: string,
    description: string,
    authToken: Bytes)

  /** What a registration draws at random or from the clock. */
  datatype Draw = Draw(nodeID: NodeId, token: Bytes, salt: Bytes, nonce: Bytes, now: int)

  datatype Response = Registered(id: NodeId, token: Bytes) | Refreshed(id: NodeId) | InternalError

  // ----- rows -----

  function EncryptedToken(env: Env, nonce: Bytes, token: Bytes): Bytes {
    Base64.Encode(Codec.Encrypted(env.primitives, env.SystemKey(), nonce, token))
  }

  function Given(text: string, otherwise: Option<string>): Option<string> {
    if text != "" then Some(text) else otherwise
  }

  function TokenOf(request: Request, draw: Draw): Bytes {
    if request.authToken == [] then draw.token else request.authToken
  }

  function NewNode(env: Env, request: Request, draw: Draw): Option<Node> {
    var token := TokenOf(request, draw);
    var hash := env.hash(token, draw.salt);
    if hash.None? then None
    else
      var kind := if request.kind == "fixed-service" then FixedService else Agent;
      Some(Node(
        request.name, hash.value, EncryptedToken(env, draw.nonce, token),
        if request.labels.Some? then request.labels.value else map[],
        env.defaultConfiguration(kind), kind, Pending,
        Given(request.groupID, None), Given(request.serviceID, None), Given(request.description, None),
        draw.now, draw.now))
  }

  function RefreshedNode(env: Env, node: Node, request: Request, now: int): Node {
    node.(
      name := request.name,
      labels := if request.labels.Some? then request.labels.value else node.labels,
      groupID := Given(request.groupID, node.groupID),
      serviceID := Given(request.serviceID, node.serviceID),
      description := Given(request.description, node.description),
      status := if node.status.Inactive? then Pending else node.status,
      lastActiveAt := now,
      configuration := if node.configuration == map[] then env.defaultConfiguration(node.kind) else node.configuration)
  }

  /** An environment in which the hash is the token itself meets the contract. */
  function ToyEnv(): Env {
    Env(Codec.Toy(), (token, salt) => if |token| > 72 then None else Some(token),
        (token, hash) => token == hash, [], _ => map[])
  }

  lemma ToyEnvIsLawful()
    ensures ToyEnv().Lawful()
  {
    Codec.ToyIsLawful();
  }

  // ----- statements -----

  /** One SQL statement on the nodes table. */
  datatype Statement =
    | Insert(id: NodeId, node: Node)
    | Overwrite(id: NodeId, node: Node)
    | SetStatus(id: NodeId, status: NodeStatus)
    | SetLastActive(id: NodeId, time: int)
    | SetConfiguration(id: NodeId, configuration: Fields)
    | Delete(id: NodeId)

  /** `None` is an error: a duplicate key, or no such row. */
  function Executed(table: Table, statement: Statement): Option<Table> {
    match statement
    case Insert(id, node) => if id in table then None else Some(table[id := node])
    case Overwrite(id, node) =>
      if id in table then Some(table[id := node]) else None
    case SetStatus(id, status) => if id in table then Some(table[id := table[id].(status := status)]) else None
    case SetLastActive(id, time) => if id in table then Some(table[id := table[id].(lastActiveAt := time)]) else None
    case SetConfiguration(id, c) => if id in table then Some(table[id := table[id].(configuration := c)]) else None
    case Delete(id) => if id in table then Some(table - {id}) else None
  }

  // ----- registration: a read, then a write -----

  datatype Session = Session(request: Request, found: Option<Node>)

  function LookedUp(table: Table, request: Request): Session {
    Session(request, if request.nodeID != "" && request.nodeID in table then Some(table[request.nodeID]) else None)
  }

  function Written(env: Env, table: Table, session: Session, draw: Draw): (Table, Response) {
    var request := session.request;
    if session.found.None? then
      var id := if request.nodeID == "" then draw.nodeID else request.nodeID;
      var node := NewNode(env, request, draw);
      if node.None? || Executed(table, Insert(id, node.value)).None? then (table, InternalError)
      else (Executed(table, Insert(id, node.value)).value, Registered(id, TokenOf(request, draw)))
    else
      var overwrite := Overwrite(request.nodeID, RefreshedNode(env, session.found.value, request, draw.now));
      if Executed(table, overwrite).None? then (table, InternalError)
      else (Executed(table, overwrite).value, Refreshed(request.nodeID))
  }

  datatype RecoveryError = NoToken | Undecodable | Undecryptable

  /** What the token endpoint answers for a row. */
  function Recovered(env: Env, node: Node): Result<Bytes, RecoveryError> {
    if node.encryptedAuthToken == [] then Err(NoToken)
    else
      var decoded := Base64.Decode(node.encryptedAuthToken);
      if decoded.None? then Err(Undecodable)
      else
        var token := Codec.Decrypted(env.primitives, env.SystemKey(), decoded.value);
        if token.None? then Err(Undecryptable) else Ok(token.value)
  }

  // ----- runs -----

  /** A row was created for this identifier, and this token handed out. */
  datatype Creation = Creation(id: NodeId, token: Bytes)

  /**
   `creations` is the history of successful registrations of new nodes. `row` and `seen` say
   which of them the contents of a row, or of what a running registration read, go back to.
   No statement looks at these three.
   */
  datatype State = State(
    table: Table, sessions: map<nat, Session>,
    creations: seq<Creation>, row: map<NodeId, nat>, seen: map<nat, nat>)

  const EMPTY := State(map[], map[], [], map[], map[])

  /** The last creation of this identifier. */
  function LastOf(creations: seq<Creation>, id: NodeId): (n: Option<nat>)
    ensures n.Some? ==>
              && n.value < |creations| && creations[n.value].id == id
              && forall j | n.value < j < |creations| :: creations[j].id != id
    ensures n.None? ==> forall j | 0 <= j < |creations| :: creations[j].id != id
  {
    if creations == [] then None
    else
      var last := |creations| - 1;
      if creations[last].id == id then Some(last) else LastOf(creations[..last], id)
  }

  /** The token last handed out for an identifier. */
  function Issued(s: State, id: NodeId): Option<Bytes> {
    var n := LastOf(s.creations, id);
    if n.Some? then Some(s.creations[n.value].token) else None
  }

  function TagOf<K>(tags: map<K, nat>, k: K): nat {
    if k in tags then tags[k] else 0
  }

  datatype Step =
    | Lookup(session: nat, request: Request)
    | Write(session: nat, draw: Draw)
    | Other(statement: Statement)

  predicate Enabled(s: State, step: Step) {
    match step
    case Lookup(_, _) => true
    case Write(k, draw) => k in s.sessions && |draw.nonce| == Codec.NONCE_SIZE
    case Other(statement) => !statement.Insert? && !statement.Overwrite?
  }

  function Apply(env: Env, s: State, step: Step): State
    requires Enabled(s, step)
  {
    match step
    case Lookup(k, request) =>
      s.(sessions := s.sessions[k := LookedUp(s.table, request)], seen := s.seen[k := TagOf(s.row, request.nodeID)])
    case Write(k, draw) =>
      var (table, response) := Written(env, s.table, s.sessions[k], draw);
      var after := s.(table := table, sessions := s.sessions - {k});
      (match response
       case Registered(id, token) =>
         after.(creations := s.creations + [Creation(id, token)], row := s.row[id := |s.creations|])
       case Refreshed(id) => after.(row := s.row[id := TagOf(s.seen, k)])
       case InternalError => after)
    case Other(statement) =>
      var table := Executed(s.table, statement);
      if table.None? then s
      else s.(table := table.value, row := if statement.Delete? then s.row - {statement.id} else s.row)
  }

  ghost predicate Leads(env: Env, s: State, steps: seq<Step>, t: State)
    decreases |steps|
  {
    if steps == [] then s == t
    else Enabled(s, steps[0]) && Leads(env, Apply(env, s, steps[0]), steps[1..], t)
  }

  ghost predicate Reachable(env: Env, s: State) {
    exists steps :: Leads(env, EMPTY, steps, s)
  }

  // ----- the pair -----

  /** Both columns come from this token. */
  ghost predicate PairedWith(env: Env, node: Node, token: Bytes) {
    && (exists salt :: env.hash(token, salt) == Some(node.authTokenHash))
    && (exists nonce | |nonce| == Codec.NONCE_SIZE :: node.encryptedAuthToken == EncryptedToken(env, nonce, token))
  }

  lemma NewNodePaired(env: Env, request: Request, draw: Draw)
    requires NewNode(env, request, draw).Some? && |draw.nonce| == Codec.NONCE_SIZE
    ensures PairedWith(env, NewNode(env, request, draw).value, TokenOf(request, draw))
  {
    var node := NewNode(env, request, draw).value;
    assert env.hash(TokenOf(request, draw), draw.salt) == Some(node.authTokenHash);
    assert node.encryptedAuthToken == EncryptedToken(env, draw.nonce, TokenOf(request, draw));
  }

  ghost predicate SameColumns(node: Node, other: Node) {
    node.authTokenHash == other.authTokenHash && node.encryptedAuthToken == other.encryptedAuthToken
  }

  /** Only the two columns matter. */
  lemma SamePair(env: Env, node: Node, other: Node, token: Bytes)
    requires SameColumns(node, other) && PairedWith(env, node, token)
    ensures PairedWith(env, other, token)
  {
  }

  /** Every statement but the two that write whole rows keeps the two columns of every row it leaves. */
  lemma OtherStatementsKeepColumns(table: Table, statement: Statement, id: NodeId)
    requires !statement.Insert? && !statement.Overwrite?
    requires Executed(table, statement).Some? && id in Executed(table, statement).value
    ensures id in table && SameColumns(table[id], Executed(table, statement).value[id])
    ensures !statement.Delete? ==> Executed(table, statement).value.Keys == table.Keys
  {
  }

  /** The three ways a registration's write can end. */
  lemma WriteOutcomes(env: Env, table: Table, session: Session, draw: Draw)
    requires |draw.nonce| == Codec.NONCE_SIZE
    ensures var (after, response) := Written(env, table, session, draw);
            match response
            case Registered(id, token) =>
              session.found.None? && id !in table && after.Keys == table.Keys + {id}
              && after == table[id := after[id]] && PairedWith(env, after[id], token)
            case Refreshed(id) =>
              session.found.Some? && id == session.request.nodeID && id in table && after.Keys == table.Keys
              && after == table[id := after[id]] && SameColumns(session.found.value, after[id])
            case InternalError => after == table
  {
    if session.found.None? && NewNode(env, session.request, draw).Some? {
      NewNodePaired(env, session.request, draw);
    }
  }

  // ----- the other columns -----

  /** An optional text of a request: set when it is not empty, and else as it was. */
  predicate IsGiven(column: Option<string>, text: string, was: Option<string>) {
    if text == "" then column == was else column == Some(text)
  }

  /** The row of a node registered for the first time. */
  ghost predicate IsNewRow(row: Node, env: Env, request: Request, draw: Draw) {
    && row.name == request.name
    && Some(row.authTokenHash) == env.hash(if request.authToken == [] then draw.token else request.authToken, draw.salt)
    && Base64.Decode(row.encryptedAuthToken)
       == Some(Codec.Encrypted(env.primitives, env.SystemKey(), draw.nonce,
                               if request.authToken == [] then draw.token else request.authToken))
    && row.labels == (if request.labels.Some? then request.labels.value else map[])
    && (row.kind.FixedService? <==> request.kind == "fixed-service")
    && row.configuration == env.defaultConfiguration(row.kind)
    && row.status.Pending? && row.registeredAt == row.lastActiveAt == draw.now
    && IsGiven(row.groupID, request.groupID, None) && IsGiven(row.serviceID, request.serviceID, None)
    && IsGiven(row.description, request.description, None)
  }

  /** The row of a node registered again: what the request leaves out stays. */
  ghost predicate IsRefreshedRow(row: Node, was: Node, env: Env, request: Request, now: int) {
    && row.name == request.name && row.lastActiveAt == now
    && row.authTokenHash == was.authTokenHash && row.encryptedAuthToken == was.encryptedAuthToken
    && row.kind == was.kind && row.registeredAt == was.registeredAt
    && row.labels == (if request.labels.Some? then request.labels.value else was.labels)
    && IsGiven(row.groupID, request.groupID, was.groupID) && IsGiven(row.serviceID, request.serviceID, was.serviceID)
    && IsGiven(row.description, request.description, was.description)
    && (if was.status.Inactive? then row.status.Pending? else row.status == was.status)
    && (if was.configuration == map[] then row.configuration == env.defaultConfiguration(was.kind)
        else row.configuration == was.configuration)
  }

  /** What a registration's write leaves in its row, what it answers, and exactly when it fails. */
  lemma WriteMeaning(env: Env, table: Table, session: Session, draw: Draw)
    ensures var (after, response) := Written(env, table, session, draw);
            var request := session.request;
            match response
            case Registered(id, token) =>
              && id in after && IsNewRow(after[id], env, request, draw)
              && id == (if request.nodeID == "" then draw.nodeID else request.nodeID)
              && token == (if request.authToken == [] then draw.token else request.authToken)
            case Refreshed(id) =>
              session.found.Some? && id in after &&
              IsRefreshedRow(after[id], session.found.value, env, request, draw.now)
            case InternalError =>
              if session.found.Some? then request.nodeID !in table
              else
                || (if request.nodeID == "" then draw.nodeID else request.nodeID) in table
                || env.hash(if request.authToken == [] then draw.token else request.authToken, draw.salt).None?
  {
    Base64.RoundTrip(Codec.Encrypted(env.primitives, env.SystemKey(), draw.nonce, TokenOf(session.request, draw)));
  }

  /** Which column each statement writes, and when it fails. */
  lemma StatementMeaning(table: Table, statement: Statement)
    ensures var after := Executed(table, statement);
            match statement
            case Insert(id, node) => after == if id in table then None else Some(table[id := node])
            case Overwrite(id, node) => after == if id in table then Some(table[id := node]) else None
            case Delete(id) =>
              && (after.None? <==> id !in table)
              && (after.Some? ==> after.value.Keys == table.Keys - {id})
              && (after.Some? ==> forall other | other in after.value :: after.value[other] == table[other])
            case _ =>
              && (after.None? <==> statement.id !in table)
              && (after.Some? ==> after.value.Keys == table.Keys)
              && (after.Some? ==> forall id | id in table && id != statement.id :: after.value[id] == table[id])
              && (after.Some? ==>
                    var row, was := after.value[statement.id], table[statement.id];
                    match statement
                    case SetStatus(_, status) => row == was.(status := status)
                    case SetLastActive(_, time) => row == was.(lastActiveAt := time)
                    case SetConfiguration(_, c) => row == was.(configuration := c)
                    case _ => true)
  {
  }

  /** Without a configured key, the built-in one. */
  lemma SystemKeyMeaning(env: Env)
    ensures env.configuredKey != [] ==> env.SystemKey() == env.configuredKey
    ensures env.configuredKey == [] ==>
              var text := "syslens-default-encryption-key-2023";
              |env.SystemKey()| == |text| &&
              forall i | 0 <= i < |text| :: env.SystemKey()[i] as int == text[i] as int % 256
  {
  }

  lemma RecoversItsToken(env: Env, node: Node, token: Bytes)
    requires env.Lawful() && PairedWith(env, node, token)
    ensures Recovered(env, node) == Ok(token)
    ensures env.accepts(token, node.authTokenHash)
  {
    var nonce :| |nonce| == Codec.NONCE_SIZE && node.encryptedAuthToken == EncryptedToken(env, nonce, token);
    var key := env.SystemKey();
    Base64.RoundTrip(Codec.Encrypted(env.primitives, key, nonce, token));
    Codec.DecryptInverts(env.primitives, key, key, nonce, token);
    Codec.CiphertextIsForeign(env.primitives, key, nonce, token);
    Base64.EncodedLonger(Codec.Encrypted(env.primitives, key, nonce, token));
  }

  // ----- the token handed out -----

  /** A row is paired with the token of the creation its tag names. */
  ghost predicate RowTagged(env: Env, s: State, id: NodeId) {
    id in s.table ==>
      && id in s.row && s.row[id] < |s.creations| && s.creations[s.row[id]].id == id
      && PairedWith(env, s.table[id], s.creations[s.row[id]].token)
  }

  /** So is a row that a running registration has read. */
  ghost predicate SessionTagged(env: Env, s: State, k: nat) {
    k in s.sessions && s.sessions[k].found.Some? ==>
      && k in s.seen && s.seen[k] < |s.creations| && s.creations[s.seen[k]].id == s.sessions[k].request.nodeID
      && PairedWith(env, s.sessions[k].found.value, s.creations[s.seen[k]].token)
  }

  ghost predicate Tagged(env: Env, s: State) {
    (forall id :: RowTagged(env, s, id)) && (forall k: nat :: SessionTagged(env, s, k))
  }

  lemma RowWhenWritten(env: Env, s: State, k: nat, draw: Draw, id: NodeId)
    requires RowTagged(env, s, id) && SessionTagged(env, s, k) && Enabled(s, Write(k, draw))
    ensures RowTagged(env, Apply(env, s, Write(k, draw)), id)
  {
    var t := Apply(env, s, Write(k, draw));
    WriteOutcomes(env, s.table, s.sessions[k], draw);
    if Written(env, s.table, s.sessions[k], draw).1 == Refreshed(id) {
      SamePair(env, s.sessions[k].found.value, t.table[id], s.creations[s.seen[k]].token);
    }
  }

  lemma RowWhenUpdated(env: Env, s: State, statement: Statement, id: NodeId)
    requires RowTagged(env, s, id) && Enabled(s, Other(statement))
    ensures RowTagged(env, Apply(env, s, Other(statement)), id)
  {
    var t := Apply(env, s, Other(statement));
    if Executed(s.table, statement).Some? && id in t.table {
      OtherStatementsKeepColumns(s.table, statement, id);
      SamePair(env, s.table[id], t.table[id], s.creations[s.row[id]].token);
    }
  }

  lemma RowStep(env: Env, s: State, step: Step, id: NodeId)
    requires RowTagged(env, s, id) && Enabled(s, step)
    requires step.Write? ==> SessionTagged(env, s, step.session)
    ensures RowTagged(env, Apply(env, s, step), id)
  {
    match step
    case Lookup(_, _) =>
    case Write(k, draw) => RowWhenWritten(env, s, k, draw, id);
    case Other(statement) => RowWhenUpdated(env, s, statement, id);
  }

  lemma SessionStep(env: Env, s: State, step: Step, k: nat)
    requires SessionTagged(env, s, k) && Enabled(s, step)
    requires step.Lookup? ==> RowTagged(env, s, step.request.nodeID)
    ensures SessionTagged(env, Apply(env, s, step), k)
  {
  }

  lemma TaggedStep(env: Env, s: State, step: Step)
    requires Tagged(env, s) && Enabled(s, step)
    ensures Tagged(env, Apply(env, s, step))
  {
    forall id ensures RowTagged(env, Apply(env, s, step), id) {
      RowStep(env, s, step, id);
    }
    forall k: nat ensures SessionTagged(env, Apply(env, s, step), k) {
      SessionStep(env, s, step, k);
    }
  }

  lemma {:induction false} TaggedRun(env: Env, s: State, steps: seq<Step>, t: State)
    requires Tagged(env, s) && Leads(env, s, steps, t)
    ensures Tagged(env, t)
    decreases |steps|
  {
    if steps == [] {
    } else {
      TaggedStep(env, s, steps[0]);
      TaggedRun(env, Apply(env, s, steps[0]), steps[1..], t);
    }
  }

  /** The issued token is the one recovered from the row and accepted by it. */
  ghost predicate Works(env: Env, s: State, id: NodeId) {
    && id in s.table && Issued(s, id).Some?
    && Recovered(env, s.table[id]) == Ok(Issued(s, id).value)
    && env.accepts(Issued(s, id).value, s.table[id].authTokenHash)
  }

  /**
   In every reachable state a row goes back to one creation of its identifier and yields the
   token handed out then. So the issued token works exactly when that creation is the last
   one, or handed out the same token.
   */
  lemma WorksIff(env: Env, s: State, id: NodeId)
    requires env.Lawful() && Tagged(env, s) && id in s.table
    ensures id in s.row && s.row[id] < |s.creations| && Issued(s, id).Some?
    ensures Recovered(env, s.table[id]) == Ok(s.creations[s.row[id]].token)
    ensures Works(env, s, id) <==>
              s.row[id] == LastOf(s.creations, id).value || s.creations[s.row[id]].token == Issued(s, id).value
  {
    assert RowTagged(env, s, id);
    RecoversItsToken(env, s.table[id], s.creations[s.row[id]].token);
  }

  lemma ReachableTagged(env: Env, s: State)
    requires Reachable(env, s)
    ensures Tagged(env, s)
  {
    var steps :| Leads(env, EMPTY, steps, s);
    TaggedRun(env, EMPTY, steps, s);
  }

  /**
   In every reachable table, even with rows deleted and created anew under a running
   registration, each row's encrypted copy decrypts to a token its own hash accepts.
   */
  lemma RecoveredTokenAccepted(env: Env, s: State, id: NodeId) returns (token: Bytes)
    requires env.Lawful() && Reachable(env, s) && id in s.table
    ensures Recovered(env, s.table[id]) == Ok(token)
    ensures env.accepts(token, s.table[id].authTokenHash)
  {
    ReachableTagged(env, s);
    assert RowTagged(env, s, id);
    token := s.creations[s.row[id]].token;
    RecoversItsToken(env, s.table[id], token);
  }

  /** The step is a registration's write that overwrites the row of `id`. */
  predicate IsRefresh(env: Env, s: State, step: Step, id: NodeId)
    requires Enabled(s, step)
  {
    step.Write? && Written(env, s.table, s.sessions[step.session], step.draw).1 == Refreshed(id)
  }

  /** A row keeps its tag and the issued token, and so works on, unless it is written. */
  lemma UnwrittenWorksOn(env: Env, s: State, t: State, id: NodeId)
    requires env.Lawful() && Tagged(env, s) && Tagged(env, t) && id in s.table && id in t.table
    requires id in s.row && id in t.row && t.row[id] == s.row[id]
    requires s.creations <= t.creations && LastOf(t.creations, id) == LastOf(s.creations, id)
    ensures Works(env, t, id) <==> Works(env, s, id)
  {
    WorksIff(env, s, id);
    WorksIff(env, t, id);
  }

  lemma LastAppends(creations: seq<Creation>, c: Creation, id: NodeId)
    ensures LastOf(creations + [c], id) == if c.id == id then Some(|creations|) else LastOf(creations, id)
  {
    assert (creations + [c])[..|creations|] == creations;
  }

  /** After a refresh the row works if and only if the creation it had read handed out the issued token. */
  ghost predicate RefreshOutcome(env: Env, s: State, k: nat, t: State, id: NodeId) {
    && k in s.seen && s.seen[k] < |s.creations| && Issued(s, id).Some?
    && (Works(env, t, id) <==> s.creations[s.seen[k]].token == Issued(s, id).value)
  }

  lemma RefreshWorksIff(env: Env, s: State, k: nat, draw: Draw, id: NodeId)
    requires env.Lawful() && Tagged(env, s) && Enabled(s, Write(k, draw)) && IsRefresh(env, s, Write(k, draw), id)
    ensures RefreshOutcome(env, s, k, Apply(env, s, Write(k, draw)), id)
  {
    var t := Apply(env, s, Write(k, draw));
    TaggedStep(env, s, Write(k, draw));
    assert RowTagged(env, t, id) && SessionTagged(env, s, k);
    WriteOutcomes(env, s.table, s.sessions[k], draw);
    WorksIff(env, t, id);
  }

  lemma CreationWorks(env: Env, s: State, k: nat, draw: Draw, id: NodeId)
    requires env.Lawful() && Tagged(env, s) && Enabled(s, Write(k, draw))
    requires id !in s.table && id in Apply(env, s, Write(k, draw)).table
    ensures Works(env, Apply(env, s, Write(k, draw)), id)
  {
    var t := Apply(env, s, Write(k, draw));
    TaggedStep(env, s, Write(k, draw));
    WriteOutcomes(env, s.table, s.sessions[k], draw);
    LastAppends(s.creations, Creation(id, Written(env, s.table, s.sessions[k], draw).1.token), id);
    WorksIff(env, t, id);
  }

  lemma OtherWriteWorksOn(env: Env, s: State, k: nat, draw: Draw, id: NodeId)
    requires env.Lawful() && Tagged(env, s) && Enabled(s, Write(k, draw)) && !IsRefresh(env, s, Write(k, draw), id)
    requires id in s.table && id in Apply(env, s, Write(k, draw)).table
    ensures Works(env, Apply(env, s, Write(k, draw)), id) <==> Works(env, s, id)
  {
    TaggedStep(env, s, Write(k, draw));
    WriteOutcomes(env, s.table, s.sessions[k], draw);
    assert RowTagged(env, s, id);
    var response := Written(env, s.table, s.sessions[k], draw).1;
    if response.Registered? {
      LastAppends(s.creations, Creation(response.id, response.token), id);
    }
    UnwrittenWorksOn(env, s, Apply(env, s, Write(k, draw)), id);
  }

  /**
   What one step does: a new row works. A row that stays works on if it did, and only then,
   except under a refresh: after that it works exactly if the creation that the refresh had
   read handed out the issued token.
   */
  lemma StepWorksIff(env: Env, s: State, step: Step, id: NodeId)
    requires env.Lawful() && Tagged(env, s) && Enabled(s, step)
    requires id in Apply(env, s, step).table
    ensures var t := Apply(env, s, step);
            if id !in s.table then Works(env, t, id)
            else if IsRefresh(env, s, step, id) then RefreshOutcome(env, s, step.session, t, id)
            else Works(env, t, id) <==> Works(env, s, id)
  {
    var t := Apply(env, s, step);
    match step
    case Write(k, draw) =>
      if id !in s.table {
        CreationWorks(env, s, k, draw, id);
      } else if IsRefresh(env, s, step, id) {
        RefreshWorksIff(env, s, k, draw, id);
      } else {
        OtherWriteWorksOn(env, s, k, draw, id);
      }
    case _ =>
      TaggedStep(env, s, step);
      assert RowTagged(env, s, id) && RowTagged(env, t, id);
      UnwrittenWorksOn(env, s, t, id);
  }

  lemma NoneBehindLast(creations: seq<Creation>, id: NodeId, n: nat)
    requires n < |creations| && creations[n].id == id
    ensures LastOf(creations, id).Some? && n <= LastOf(creations, id).value
  {
  }

  /**
   A running refresh has read some creation of its identifier; an outdated token means an earlier
   one than the last.
   */
  lemma StaleReadIsEarlier(env: Env, s: State, k: nat, id: NodeId)
    requires SessionTagged(env, s, k) && k in s.sessions && s.sessions[k].found.Some?
    requires id == s.sessions[k].request.nodeID
    ensures k in s.seen && s.seen[k] < |s.creations| && LastOf(s.creations, id).Some?
    ensures s.creations[s.seen[k]].token != Issued(s, id).value ==> s.seen[k] < LastOf(s.creations, id).value
  {
    var n := s.seen[k];
    NoneBehindLast(s.creations, id, n);
    var last := LastOf(s.creations, id).value;
    assert Issued(s, id).value == s.creations[last].token;
  }

  // ----- a node that is never deleted -----

  predicate IsDeleteOf(step: Step, id: NodeId) {
    step.Other? && step.statement.Delete? && step.statement.id == id
  }

  ghost predicate NoDeleteOf(steps: seq<Step>, id: NodeId) {
    forall i | 0 <= i < |steps| :: !IsDeleteOf(steps[i], id)
  }

  /** The identifier has been created once if it has a row, else not at all. */
  ghost predicate CreatedOnce(s: State, id: NodeId) {
    && (id in s.table <==> Issued(s, id).Some?)
    && forall i, j | 0 <= i < j < |s.creations| :: s.creations[i].id != id || s.creations[j].id != id
  }

  lemma CreatedOnceStep(env: Env, s: State, step: Step, id: NodeId)
    requires Tagged(env, s) && CreatedOnce(s, id) && Enabled(s, step) && !IsDeleteOf(step, id)
    ensures CreatedOnce(Apply(env, s, step), id)
  {
    var t := Apply(env, s, step);
    if step.Write? {
      WriteOutcomes(env, s.table, s.sessions[step.session], step.draw);
      var response := Written(env, s.table, s.sessions[step.session], step.draw).1;
      if response.Registered? {
        LastAppends(s.creations, Creation(response.id, response.token), id);
      }
    }
  }

  lemma {:induction false} CreatedOnceRun(env: Env, s: State, steps: seq<Step>, t: State, id: NodeId)
    requires Tagged(env, s) && CreatedOnce(s, id) && Leads(env, s, steps, t) && NoDeleteOf(steps, id)
    ensures CreatedOnce(t, id)
    decreases |steps|
  {
    if steps == [] {
    } else {
      assert !IsDeleteOf(steps[0], id);
      assert forall i | 0 <= i < |steps[1..]| :: steps[1..][i] == steps[i + 1];
      CreatedOnceStep(env, s, steps[0], id);
      TaggedStep(env, s, steps[0]);
      CreatedOnceRun(env, Apply(env, s, steps[0]), steps[1..], t, id);
    }
  }

  /**
   While a node's own row is not deleted, the token its registration answered with stays the
   one that validates and the one recovered, whatever happens to this and other rows.
   */
  lemma IssuedTokenKeepsWorking(env: Env, steps: seq<Step>, s: State, id: NodeId)
    requires env.Lawful() && Leads(env, EMPTY, steps, s) && NoDeleteOf(steps, id)
    requires Issued(s, id).Some?
    ensures Works(env, s, id)
  {
    TaggedRun(env, EMPTY, steps, s);
    CreatedOnceRun(env, EMPTY, steps, s, id);
    WorksIff(env, s, id);
    var n, last := s.row[id], LastOf(s.creations, id).value;
    assert RowTagged(env, s, id);
    assert s.creations[n].id == id && s.creations[last].id == id;
    assert n == last;
  }

  // ----- deleted and created anew under a running refresh -----

  /** A registration reads row `id`; the row is deleted; another registration creates it anew. */
  lemma RecreatedUnderSession(env: Env, s: State, k: nat, other: nat, request: Request, draw: Draw) returns (t: State)
    requires request.nodeID in s.table && request.nodeID != "" && k != other
    requires |draw.nonce| == Codec.NONCE_SIZE && env.hash(TokenOf(request, draw), draw.salt).Some?
    ensures Leads(env, s, [Lookup(k, request), Other(Delete(request.nodeID)), Lookup(other, request),
        Write(other, draw)], t)
    ensures k in t.sessions && t.sessions[k] == Session(request, Some(s.table[request.nodeID]))
    ensures request.nodeID in t.table && Issued(t, request.nodeID) == Some(TokenOf(request, draw))
  {
    var id := request.nodeID;
    var s1 := Apply(env, s, Lookup(k, request));
    var s2 := Apply(env, s1, Other(Delete(id)));
    var s3 := Apply(env, s2, Lookup(other, request));
    assert s3.sessions[k] == Session(request, Some(s.table[id])) && s3.sessions[other] == Session(request, None);
    assert id !in s3.table;
    t := Apply(env, s3, Write(other, draw));
    LastAppends(s3.creations, Creation(id, TokenOf(request, draw)), id);
    assert [Write(other, draw)][1..] == [];
    assert Leads(env, s3, [Write(other, draw)], t);
    assert [Lookup(other, request), Write(other, draw)][1..] == [Write(other, draw)];
    assert Leads(env, s2, [Lookup(other, request), Write(other, draw)], t);
    assert [Other(Delete(id)), Lookup(other, request), Write(other, draw)][1..]
        == [Lookup(other, request), Write(other, draw)];
    assert Leads(env, s1, [Other(Delete(id)), Lookup(other, request), Write(other, draw)], t);
    assert [Lookup(k, request), Other(Delete(id)), Lookup(other, request), Write(other, draw)][1..]
           == [Other(Delete(id)), Lookup(other, request), Write(other, draw)];
  }

  /**
   It does happen: from any state with a row, a refresh that reads it before it is deleted and
   created anew brings the old token back under the new registration.
   */
  lemma StaleRefreshRevivesToken(env: Env, s: State, k: nat, other: nat, request: Request, draw: Draw, later: Draw)
    returns (u: State, t: State)
    requires env.Lawful() && Tagged(env, s)
    requires request.nodeID in s.table && request.nodeID != "" && k != other
    requires |draw.nonce| == |later.nonce| == Codec.NONCE_SIZE && env.hash(TokenOf(request, draw), draw.salt).Some?
    ensures Leads(env, s, [Lookup(k, request), Other(Delete(request.nodeID)), Lookup(other, request),
        Write(other, draw)], u)
    ensures Leads(env, u, [Write(k, later)], t)
    ensures Issued(t, request.nodeID) == Some(TokenOf(request, draw))
    ensures request.nodeID in t.table && Recovered(env, t.table[request.nodeID])
        == Recovered(env, s.table[request.nodeID])
  {
    var id := request.nodeID;
    u := RecreatedUnderSession(env, s, k, other, request, draw);
    t := Apply(env, u, Write(k, later));
    assert [Write(k, later)][1..] == [];
    WriteOutcomes(env, u.table, u.sessions[k], later);
    assert RowTagged(env, s, id);
    var token := s.creations[s.row[id]].token;
    SamePair(env, s.table[id], t.table[id], token);
    RecoversItsToken(env, s.table[id], token);
    RecoversItsToken(env, t.table[id], token);
  }
}
