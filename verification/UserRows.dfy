/** What one step does to one user's row. */
module UserRows {
  import opened GoStrings
  import opened Tables
  import opened Service
  import opened ControlPlane
  import ResourceIds

  predicate TargetsVersion(request: AdminOp, who: string) {
    match request
    case UsersSetPassword(name, _, _) => NormalizeUsername(name) == who
    case UsersSetAdmin(name, _) => NormalizeUsername(name) == who
    case _ => false
  }

  /** The call is a successful SetPassword or SetAdmin on `who`. */
  predicate Bumps(cfg: Config, t: DB, call: Call, who: string) {
    && ReplyTo(cfg, t, call) == Status(200)
    && match call.op
       case MePassword(b, _, _, _, _) => NormalizeUsername(b.value.subject) == who
       case Admin(_, request) => TargetsVersion(request, who)
       case _ => false
  }

  predicate DeletesUser(cfg: Config, t: DB, call: Call, who: string) {
    who in t.users && who !in Next(cfg, t, call).users
  }

  /**
   A surviving row moves its version by one exactly on a bump, its admin flag and password only on a bump, and its
   display name and created time never; a new row starts at 0.
   */
  predicate RowStep(t: DB, t': DB, who: string, bumped: bool) {
    && (who in t.users && who in t'.users ==>
          var u, u' := t.users[who], t'.users[who];
          && u'.tokenVersion == u.tokenVersion + (if bumped then 1 else 0)
          && ((u'.isAdmin == u.isAdmin && u'.argon2id == u.argon2id) || bumped)
          && u'.displayName == u.displayName && u'.created == u.created)
    && (who !in t.users && who in t'.users ==> t'.users[who].tokenVersion == 0)
    && (who !in t.users ==> !bumped)
  }

  lemma GrantAllKeepsUsers(t: DB, username: string, id: string, perms: seq<string>)
    ensures GrantAll(t, username, id, perms).0.users == t.users
    decreases |perms|
  {
  }

  lemma RegistrationKeepsUsers(t: DB, now: int, caller: string, id: string, name: string)
    ensures RegisterResource(t, now, caller, id, name).0.users == t.users
  {
    var r := Tables.UpsertResource(t, id, name, now / NANOS);
    if r.Ok? { GrantAllKeepsUsers(r.value, caller, id, OWNER_PERMISSIONS); }
  }

  /** The users table is untouched by everything on resources, grants and config. */
  predicate OnUsers(request: AdminOp) {
    request.UsersCreate? || request.UsersDelete? || request.UsersSetPassword? || request.UsersSetAdmin?
  }

  lemma OtherRequestsKeepUsers(t: DB, now: int, claims: Claims, request: AdminOp)
    requires !OnUsers(request)
    ensures HandleAdmin(t, now, claims, request).0.users == t.users
  {
    match request
    case ResourceCreate(id, n) =>
      var r := ResourceIds.NormalizeResourceId(id);
      if r.Some? { RegistrationKeepsUsers(t, now, claims.subject, r.value, TrimSpace(n)); }
    case _ =>
  }

  lemma RegistryKeepsUsers(cfg: Config, t: DB, call: Call)
    requires call.op.Exchange? || call.op.RebacCreate? || call.op.RebacDelete? || call.op.Login?
    ensures Next(cfg, t, call).users == t.users
  {
    match call.op
    case RebacCreate(b, id, n) => RebacCreateKeepsUsers(cfg, t, call.now, b, id, n);
    case _ =>
  }

  lemma RebacCreateKeepsUsers(cfg: Config, t: DB, now: int, b: Option<Claims>, id: string, n: string)
    ensures HandleRebacCreate(cfg, t, now, b, id, n).0.users == t.users
  {
    var r, caller := ResourceIds.NormalizeResourceId(id), VerifiedCaller(cfg, t, now, b);
    if r.Some? && caller.Some? { RegistrationKeepsUsers(t, now, caller.value, r.value, n); }
  }

  lemma UserRequestOnRow(t: DB, now: int, claims: Claims, request: AdminOp, who: string)
    requires OnUsers(request)
    ensures var (t', reply) := HandleAdmin(t, now, claims, request);
            && RowStep(t, t', who, TargetsVersion(request, who) && reply == Status(200))
            && (who in t.users && who !in t'.users ==> request.UsersDelete?)
  {
  }

  lemma AdminStepOnRow(cfg: Config, t: DB, call: Call, who: string)
    requires call.op.Admin?
    ensures RowStep(t, Next(cfg, t, call), who, Bumps(cfg, t, call, who))
    ensures DeletesUser(cfg, t, call, who) ==> call.op.request.UsersDelete?
  {
    var gate := ApiAdmin(cfg, t, call.now, call.op.bearer);
    if gate.Ok? {
      if OnUsers(call.op.request) {
        UserRequestOnRow(t, call.now, gate.value, call.op.request, who);
      } else {
        OtherRequestsKeepUsers(t, call.now, gate.value, call.op.request);
      }
    }
  }

  lemma MePasswordOnRow(cfg: Config, t: DB, call: Call, who: string)
    requires call.op.MePassword?
    ensures RowStep(t, Next(cfg, t, call), who, Bumps(cfg, t, call, who)) && !DeletesUser(cfg, t, call, who)
  {
  }

  lemma StepOnRow(cfg: Config, t: DB, call: Call, who: string)
    ensures RowStep(t, Next(cfg, t, call), who, Bumps(cfg, t, call, who))
    ensures DeletesUser(cfg, t, call, who) ==> call.op.Admin? && call.op.request.UsersDelete?
  {
    if call.op.Admin? {
      AdminStepOnRow(cfg, t, call, who);
    } else if call.op.MePassword? {
      MePasswordOnRow(cfg, t, call, who);
    } else if !call.op.Setup? && !call.op.Register? {
      RegistryKeepsUsers(cfg, t, call);
    }
  }
}
