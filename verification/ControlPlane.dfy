/**
 The control plane as a state machine: each JSON API handler, the token exchange and
 each registry RPC is one step on the tables.

 A step carries what its handler read from outside: the clock, the bearer token, the
 request body, the password hash and the outcome of the password comparison.
 */
module ControlPlane {
  import opened GoStrings
  import opened Tables
  import opened ResourceIds
  import opened Service

  datatype Code = GrpcOk | InvalidArgument | PermissionDenied | Internal | Unauthenticated

  datatype Reply = Http(status: nat, token: Option<Claims>) | Grpc(code: Code, grpcToken: Option<Claims>)

  /** Requests behind requireAPIAdmin. */
  datatype AdminOp =
    | RegistrationToggle(open: bool)
    | UsersCreate(username: string, password: string, displayName: string, isAdmin: bool, pwHash: string)
    | UsersDelete(name: string)
    | UsersSetPassword(name: string, password: string, pwHash: string)
    | UsersSetAdmin(name: string, isAdmin: bool)
    | ResourceCreate(resourceId: string, name: string)
    | ResourceDelete(resourceId: string)
    | GrantAdd(username: string, resourceId: string, permission: string)
    | GrantRemove(username: string, resourceId: string, permission: string)

  datatype Op =
    | Setup(username: string, password: string, displayName: string, pwHash: string)
    | Login(username: string, password: string, passwordMatches: bool)
    | Register(username: string, password: string, pwHash: string)
    | MePassword(bearer: Option<Claims>, current: string, currentMatches: bool, next: string, pwHash: string)
    | Admin(bearer: Option<Claims>, request: AdminOp)
    | Exchange(bearer: Option<Claims>)
    | RebacCreate(bearer: Option<Claims>, resourceId: string, name: string)
    | RebacDelete(bearer: Option<Claims>, resourceId: string)

  datatype Call = Call(now: int, op: Op)

  // ---------- checks ----------

  predicate ValidPassword(password: string) {
    12 <= Utf8Len(password) <= 1024
  }

  predicate ValidPermission(permission: string) {
    TrimSpace(permission) in PERMISSIONS
  }

  /** requireAPIAuth: a missing, foreign, lapsed or revoked token is 401. */
  function ApiAuth(cfg: Config, t: DB, now: int, bearer: Option<Claims>): Result<Claims, nat> {
    if bearer.None? then Err(401)
    else
      match VerifyAuthn(cfg, t, now, bearer.value)
      case Err(_) => Err(401)
      case Ok(claims) => Ok(claims)
  }

  /** requireAPIAdmin: a good token whose subject is not an admin is 403. */
  function ApiAdmin(cfg: Config, t: DB, now: int, bearer: Option<Claims>): Result<Claims, nat> {
    match ApiAuth(cfg, t, now, bearer)
    case Err(status) => Err(status)
    case Ok(claims) =>
      match Tables.GetUser(t, claims.subject)
      case Err(_) => Err(403)
      case Ok(u) => if u.isAdmin then Ok(claims) else Err(403)
  }

  function VerifiedCaller(cfg: Config, t: DB, now: int, bearer: Option<Claims>): Option<string> {
    if bearer.None? then None
    else
      match VerifyAuthn(cfg, t, now, bearer.value)
      case Err(_) => None
      case Ok(claims) => Some(claims.subject)
  }

  // ---------- handlers, behind their gates ----------

  function Status(status: nat): Reply {
    Http(status, None)
  }

  function MintReply(cfg: Config, t: DB, now: int, norm: string, displayName: string, status: nat): Reply {
    match MintFor(cfg, t, now, norm, if displayName == "" then norm else displayName)
    case Err(_) => Status(500)
    case Ok(m) => Http(status, Some(m.token))
  }

  /** The status of a failed write: a missing row and a taken key have their own. */
  function ErrorStatus(e: StoreError): nat {
    match e
    case UserExists => 409
    case EmptyUsername => 400
    case InvalidUsername => 400
    case _ => 500
  }

  function HandleSetup(cfg: Config, t: DB, now: int, username: string, password: string, displayName: string,
                       pwHash: string): (DB, Reply)
  {
    if !ValidPassword(password) then (t, Status(400))
    else
      match Tables.CreateFirstAdmin(t, username, displayName, pwHash, now / NANOS)
      case Err(_) => (t, Status(400))
      case Ok((t', created)) =>
        if !created then (t', Status(409))
        else (t', MintReply(cfg, t', now, NormalizeUsername(username), "", 201))
  }

  function HandleLogin(cfg: Config, t: DB, now: int, username: string, password: string, passwordMatches: bool): Reply {
    if Utf8Len(password) > 1024 then Status(400)
    else if Tables.GetUser(t, username).Err? || !passwordMatches then Status(401)
    else
      var norm := NormalizeUsername(username);
      var name := match Tables.GetUser(t, norm) case Ok(u) => u.displayName case Err(_) => "";
      MintReply(cfg, t, now, norm, name, 200)
  }

  function HandleRegister(cfg: Config, t: DB, now: int, username: string, password: string, pwHash: string)
    : (DB, Reply)
  {
    var norm := NormalizeUsername(username);
    if !Tables.RegistrationOpen(t) then (t, Status(403))
    else if !(3 <= Utf8Len(norm) <= 32) || !ValidPassword(password) then (t, Status(400))
    else
      match Tables.AddUser(t, norm, norm, pwHash, false, now / NANOS)
      case Err(e) => (t, Status(ErrorStatus(e)))
      case Ok(t') => (t', MintReply(cfg, t', now, norm, norm, 201))
  }

  function HandleMePassword(t: DB, now: int, claims: Claims, current: string, currentMatches: bool, next: string,
                            pwHash: string): (DB, Reply)
  {
    if !ValidPassword(next) then (t, Status(400))
    else if Tables.GetUser(t, claims.subject).Err? || !currentMatches then (t, Status(401))
    else if next == current then (t, Status(400))
    else
      match Tables.SetPassword(t, claims.subject, pwHash, now / NANOS)
      case Err(_) => (t, Status(500))
      case Ok(t') => (t', Status(200))
  }

  function HandleUsersCreate(t: DB, now: int, username: string, password: string, displayName: string, isAdmin: bool,
                             pwHash: string): (DB, Reply)
  {
    if !ValidPassword(password) then (t, Status(400))
    else
      match Tables.AddUser(t, username, displayName, pwHash, isAdmin, now / NANOS)
      case Err(e) => (t, Status(ErrorStatus(e)))
      case Ok(t') => (t', Status(201))
  }

  function HandleUsersDelete(t: DB, name: string): (DB, Reply) {
    match Tables.GetUser(t, name)
    case Err(_) => (t, Status(404))
    case Ok(u) =>
      if u.isAdmin && |Admins(t)| <= 1 then (t, Status(409))
      else
        match Tables.DeleteUser(t, name)
        case Err(e) => (t, Status(if e.UserNotFound? then 404 else 500))
        case Ok(t') => (t', Status(200))
  }

  function HandleUsersSetPassword(t: DB, now: int, name: string, password: string, pwHash: string): (DB, Reply) {
    if !ValidPassword(password) then (t, Status(400))
    else
      match Tables.SetPassword(t, name, pwHash, now / NANOS)
      case Err(e) => (t, Status(if e.UserNotFound? then 404 else 500))
      case Ok(t') => (t', Status(200))
  }

  function HandleUsersSetAdmin(t: DB, now: int, name: string, isAdmin: bool): (DB, Reply) {
    var u := Tables.GetUser(t, name);
    if !isAdmin && u.Err? then (t, Status(404))
    else if !isAdmin && u.value.isAdmin && |Admins(t)| <= 1 then (t, Status(409))
    else
      match Tables.SetAdmin(t, name, isAdmin, now / NANOS)
      case Err(e) => (t, Status(if e.UserNotFound? then 404 else 500))
      case Ok(t') => (t', Status(200))
  }

  /** Registers the id and grants the caller its owner set; false when the grant fails part-way. */
  function RegisterResource(t: DB, now: int, caller: string, id: string, name: string): (DB, bool) {
    match Tables.UpsertResource(t, id, name, now / NANOS)
    case Err(_) => (t, false)
    case Ok(t') =>
      var (t'', err) := Tables.GrantOwner(t', caller, id);
      (t'', err.None?)
  }

  function HandleResourceCreate(t: DB, now: int, claims: Claims, resourceId: string, name: string): (DB, Reply) {
    match NormalizeResourceId(resourceId)
    case None => (t, Status(400))
    case Some(id) =>
      var (t', ok) := RegisterResource(t, now, claims.subject, id, TrimSpace(name));
      (t', Status(if ok then 201 else 500))
  }

  function HandleResourceDelete(t: DB, resourceId: string): (DB, Reply) {
    match NormalizeResourceId(resourceId)
    case None => (t, Status(400))
    case Some(id) =>
      match Tables.DeleteResource(t, id)
      case Err(_) => (t, Status(500))
      case Ok(t') => (t', Status(200))
  }

  function HandleGrantAdd(t: DB, username: string, resourceId: string, permission: string): (DB, Reply) {
    if !ValidPermission(permission) then (t, Status(400))
    else if Tables.GetUser(t, username).Err? || TrimSpace(resourceId) !in t.resources then (t, Status(404))
    else
      match Tables.AddGrant(t, username, resourceId, permission)
      case Err(_) => (t, Status(500))
      case Ok(t') => (t', Status(201))
  }

  function HandleGrantRemove(t: DB, username: string, resourceId: string, permission: string): (DB, Reply) {
    if !ValidPermission(permission) then (t, Status(400))
    else (Tables.RemoveGrant(t, username, resourceId, permission), Status(200))
  }

  // ---------- registry RPCs ----------

  function GrpcStatus(code: Code): Reply {
    Grpc(code, None)
  }

  function HandleExchange(cfg: Config, t: DB, now: int, bearer: Option<Claims>): Reply {
    match ApiAuth(cfg, t, now, bearer)
    case Err(_) => GrpcStatus(Unauthenticated)
    case Ok(claims) =>
      match MintFor(cfg, t, now, claims.subject, DisplayNameFor(claims))
      case Err(UnknownSubject) => GrpcStatus(PermissionDenied)
      case Err(ExpiredAtMint) => GrpcStatus(Internal)
      case Ok(m) => Grpc(GrpcOk, Some(m.token))
  }

  function DisplayNameFor(claims: Claims): string {
    if TrimSpace(claims.name) != "" then claims.name
    else if TrimSpace(claims.preferredUsername) != "" then claims.preferredUsername
    else claims.subject
  }

  function HandleRebacCreate(cfg: Config, t: DB, now: int, bearer: Option<Claims>, resourceId: string, name: string)
    : (DB, Reply)
  {
    match VerifiedCaller(cfg, t, now, bearer)
    case None => (t, GrpcStatus(Unauthenticated))
    case Some(creator) =>
      match NormalizeResourceId(resourceId)
      case None => (t, GrpcStatus(InvalidArgument))
      case Some(id) =>
        var (t', ok) := RegisterResource(t, now, creator, id, name);
        (t', GrpcStatus(if ok then GrpcOk else Internal))
  }

  predicate IsAdmin(t: DB, username: string) {
    Tables.GetUser(t, username).Ok? && Tables.GetUser(t, username).value.isAdmin
  }

  predicate Owns(t: DB, username: string, id: string) {
    NormalizeUsername(username) != "" && Grant(NormalizeUsername(username), id, "owner") in t.grants
  }

  function HandleRebacDelete(cfg: Config, t: DB, now: int, bearer: Option<Claims>, resourceId: string): (DB, Reply) {
    match VerifiedCaller(cfg, t, now, bearer)
    case None => (t, GrpcStatus(Unauthenticated))
    case Some(caller) =>
      match NormalizeResourceId(resourceId)
      case None => (t, GrpcStatus(InvalidArgument))
      case Some(id) =>
        if !IsAdmin(t, caller) && !Owns(t, caller, id) then (t, GrpcStatus(PermissionDenied))
        else
          match Tables.DeleteResource(t, id)
          case Err(_) => (t, GrpcStatus(Internal))
          case Ok(t') => (t', GrpcStatus(GrpcOk))
  }

  // ---------- one step, and runs ----------

  function HandleAdmin(t: DB, now: int, claims: Claims, request: AdminOp): (DB, Reply) {
    match request
    case RegistrationToggle(open) => (Tables.SetRegistrationOpen(t, open), Status(200))
    case UsersCreate(u, p, d, a, h) => HandleUsersCreate(t, now, u, p, d, a, h)
    case UsersDelete(n) => HandleUsersDelete(t, n)
    case UsersSetPassword(n, p, h) => HandleUsersSetPassword(t, now, n, p, h)
    case UsersSetAdmin(n, a) => HandleUsersSetAdmin(t, now, n, a)
    case ResourceCreate(id, n) => HandleResourceCreate(t, now, claims, id, n)
    case ResourceDelete(id) => HandleResourceDelete(t, id)
    case GrantAdd(u, id, p) => HandleGrantAdd(t, u, id, p)
    case GrantRemove(u, id, p) => HandleGrantRemove(t, u, id, p)
  }

  function Handle(cfg: Config, t: DB, now: int, op: Op): (DB, Reply) {
    match op
    case Setup(u, p, d, h) => HandleSetup(cfg, t, now, u, p, d, h)
    case Login(u, p, m) => (t, HandleLogin(cfg, t, now, u, p, m))
    case Register(u, p, h) => HandleRegister(cfg, t, now, u, p, h)
    case MePassword(b, c, m, n, h) =>
      (match ApiAuth(cfg, t, now, b)
       case Err(status) => (t, Status(status))
       case Ok(claims) => HandleMePassword(t, now, claims, c, m, n, h))
    case Admin(b, request) =>
      (match ApiAdmin(cfg, t, now, b)
       case Err(status) => (t, Status(status))
       case Ok(claims) => HandleAdmin(t, now, claims, request))
    case Exchange(b) => (t, HandleExchange(cfg, t, now, b))
    case RebacCreate(b, id, n) => HandleRebacCreate(cfg, t, now, b, id, n)
    case RebacDelete(b, id) => HandleRebacDelete(cfg, t, now, b, id)
  }

  function Next(cfg: Config, t: DB, call: Call): DB {
    Handle(cfg, t, call.now, call.op).0
  }

  function ReplyTo(cfg: Config, t: DB, call: Call): Reply {
    Handle(cfg, t, call.now, call.op).1
  }

  function Run(cfg: Config, t: DB, calls: seq<Call>): DB
    decreases |calls|
  {
    if calls == [] then t else Run(cfg, Next(cfg, t, calls[0]), calls[1..])
  }

  // ---------- bearers that the run itself handed out ----------

  function BearerOf(op: Op): Option<Claims> {
    match op
    case MePassword(b, _, _, _, _) => b
    case Admin(b, _) => b
    case Exchange(b) => b
    case RebacCreate(b, _, _) => b
    case RebacDelete(b, _) => b
    case _ => None
  }

  function HandedOut(reply: Reply): set<Claims> {
    match reply
    case Http(_, token) => if token.Some? then {token.value} else {}
    case Grpc(_, token) => if token.Some? then {token.value} else {}
  }

  /** Every call presents no token, or one held at the start or handed out by an earlier reply of the run. */
  predicate Honest(cfg: Config, t: DB, calls: seq<Call>, held: set<Claims>)
    decreases |calls|
  {
    calls == [] ||
    ((BearerOf(calls[0].op).Some? ==> BearerOf(calls[0].op).value in held)
     && Honest(cfg, Next(cfg, t, calls[0]), calls[1..], held + HandedOut(ReplyTo(cfg, t, calls[0]))))
  }

  lemma {:induction false} HoldingMoreIsHonest(
    cfg: Config, t: DB, calls: seq<Call>, held: set<Claims>, more: set<Claims>)
    requires Honest(cfg, t, calls, held) && held <= more
    ensures Honest(cfg, t, calls, more)
    decreases |calls|
  {
    if calls != [] {
      var handed := HandedOut(ReplyTo(cfg, t, calls[0]));
      HoldingMoreIsHonest(cfg, Next(cfg, t, calls[0]), calls[1..], held + handed, more + handed);
    }
  }

  lemma {:induction false} HonestRunsJoin(
    cfg: Config, t: DB, first: seq<Call>, second: seq<Call>, joined: seq<Call>, held: set<Claims>)
    requires Honest(cfg, t, first, held) && Honest(cfg, Run(cfg, t, first), second, held)
    requires joined == first + second
    ensures Honest(cfg, t, joined, held)
    decreases |first|
  {
    if first == [] {
      assert joined == second;
    } else {
      FirstOfJoined(first, second, joined);
      var t', held' := AfterFirst(cfg, t, first, joined, held);
      HoldingMoreIsHonest(cfg, Run(cfg, t', first[1..]), second, held, held');
      HonestRunsJoin(cfg, t', first[1..], second, joined[1..], held');
    }
  }

  lemma FirstOfJoined(first: seq<Call>, second: seq<Call>, joined: seq<Call>)
    requires first != [] && joined == first + second
    ensures joined != [] && joined[0] == first[0] && joined[1..] == first[1..] + second
  {
  }

  /** Two runs with one first call: where it leads, and what is held there. */
  lemma AfterFirst(cfg: Config, t: DB, a: seq<Call>, b: seq<Call>, held: set<Claims>)
    returns (t': DB, held': set<Claims>)
    requires a != [] && b != [] && a[0] == b[0] && Honest(cfg, t, a, held)
    ensures held <= held' && Honest(cfg, t', a[1..], held') && Run(cfg, t, a) == Run(cfg, t', a[1..])
    ensures Honest(cfg, t', b[1..], held') ==> Honest(cfg, t, b, held)
  {
    t', held' := Next(cfg, t, a[0]), held + HandedOut(ReplyTo(cfg, t, a[0]));
  }

  lemma HonestAfter(cfg: Config, t: DB, call: Call, rest: seq<Call>, held: set<Claims>, more: set<Claims>)
    requires BearerOf(call.op).Some? ==> BearerOf(call.op).value in held
    requires more <= held + HandedOut(ReplyTo(cfg, t, call)) && Honest(cfg, Next(cfg, t, call), rest, more)
    ensures Honest(cfg, t, [call] + rest, held)
  {
    HoldingMoreIsHonest(cfg, Next(cfg, t, call), rest, more, held + HandedOut(ReplyTo(cfg, t, call)));
    assert ([call] + rest)[1..] == rest;
  }

  /** Calls that present only tokens held at the start. */
  lemma {:induction false} HeldTokensAreHonest(cfg: Config, t: DB, calls: seq<Call>, held: set<Claims>)
    requires forall c | c in calls && BearerOf(c.op).Some? :: BearerOf(c.op).value in held
    ensures Honest(cfg, t, calls, held)
    decreases |calls|
  {
    if calls != [] {
      HeldTokensAreHonest(cfg, Next(cfg, t, calls[0]), calls[1..], held);
      HoldingMoreIsHonest(cfg, Next(cfg, t, calls[0]), calls[1..], held,
                          held + HandedOut(ReplyTo(cfg, t, calls[0])));
    }
  }
}
