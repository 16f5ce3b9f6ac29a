/** How privileges come and go: which steps can change an admin flag or a grant row, and what each leaves. */
module Privileges {
  import opened GoStrings
  import opened Tables
  import opened ResourceIds
  import opened Service
  import opened ControlPlane
  import opened UserRows
  import opened ControlInvariants
  import opened Registry

  predicate AdminRow(t: DB, who: string) {
    who in t.users && t.users[who].isAdmin
  }

  predicate FromAdmin(cfg: Config, t: DB, now: int, bearer: Option<Claims>) {
    ApiAdmin(cfg, t, now, bearer).Ok? && IsAdmin(t, ApiAdmin(cfg, t, now, bearer).value.subject)
  }

  // ---------- the admin flag ----------

  /** First setup, or an admin's request to create or promote `who`. */
  predicate MayPromote(cfg: Config, t: DB, call: Call, who: string) {
    match call.op
    case Setup(u, _, _, _) => t.users == map[] && NormalizeUsername(u) == who
    case Admin(b, UsersCreate(u, _, _, isAdmin, _)) =>
      isAdmin && NormalizeUsername(u) == who && FromAdmin(cfg, t, call.now, b)
    case Admin(b, UsersSetAdmin(u, isAdmin)) => isAdmin && NormalizeUsername(u) == who && FromAdmin(cfg, t, call.now, b)
    case _ => false
  }

  /** An admin's request to demote or delete `who`, with another admin remaining. */
  predicate MayDemote(cfg: Config, t: DB, call: Call, who: string) {
    match call.op
    case Admin(b, UsersSetAdmin(u, isAdmin)) =>
      !isAdmin && NormalizeUsername(u) == who && FromAdmin(cfg, t, call.now, b) && |Admins(t)| > 1
    case Admin(b, UsersDelete(u)) =>
      NormalizeUsername(u) == who && FromAdmin(cfg, t, call.now, b) && |Admins(t)| > 1
    case _ => false
  }

  lemma UserRequestOnFlag(cfg: Config, t: DB, call: Call, who: string)
    requires call.op.Admin? && OnUsers(call.op.request) && FromAdmin(cfg, t, call.now, call.op.bearer)
    ensures !AdminRow(t, who) && AdminRow(Next(cfg, t, call), who) ==> MayPromote(cfg, t, call, who)
    ensures AdminRow(t, who) && !AdminRow(Next(cfg, t, call), who) ==> MayDemote(cfg, t, call, who)
  {
  }

  /** An admin flag changes in one step only by first setup or at an admin's request, and never the last one's. */
  lemma FlagChangeIsEntitled(cfg: Config, t: DB, call: Call, who: string)
    ensures !AdminRow(t, who) && AdminRow(Next(cfg, t, call), who) ==> MayPromote(cfg, t, call, who)
    ensures AdminRow(t, who) && !AdminRow(Next(cfg, t, call), who) ==> MayDemote(cfg, t, call, who)
  {
    match call.op
    case Setup(_, _, _, _) =>
    case Register(_, _, _) =>
    case MePassword(_, _, _, _, _) => MePasswordKeepsFlag(cfg, t, call, who);
    case Admin(b, request) =>
      if ApiAdmin(cfg, t, call.now, b).Ok? {
        if OnUsers(request) {
          UserRequestOnFlag(cfg, t, call, who);
        } else {
          OtherRequestsKeepUsers(t, call.now, ApiAdmin(cfg, t, call.now, b).value, request);
        }
      }
    case _ => RegistryKeepsUsers(cfg, t, call);
  }

  lemma MePasswordKeepsFlag(cfg: Config, t: DB, call: Call, who: string)
    requires call.op.MePassword?
    ensures AdminRow(Next(cfg, t, call), who) <==> AdminRow(t, who)
  {
  }

  /** Whoever became an admin during a run was made one by first setup or by someone who was an admin then. */
  lemma {:induction false} PromotionHasAnEntitledStep(cfg: Config, t: DB, calls: seq<Call>, who: string)
    returns (i: nat)
    requires !AdminRow(t, who) && AdminRow(Run(cfg, t, calls), who)
    ensures i < |calls| && MayPromote(cfg, Run(cfg, t, calls[..i]), calls[i], who)
    decreases |calls|
  {
    var t' := Next(cfg, t, calls[0]);
    if AdminRow(t', who) {
      FlagChangeIsEntitled(cfg, t, calls[0], who);
      i := 0;
      assert calls[..0] == [];
    } else {
      var k := PromotionHasAnEntitledStep(cfg, t', calls[1..], who);
      i := k + 1;
      assert calls[..i][0] == calls[0] && calls[..i][1..] == calls[1..][..k];
    }
  }

  /** A successful request does what it asks: the flag is as requested, and nobody else's moves. */
  lemma SetAdminTakesEffect(t: DB, now: int, name: string, isAdmin: bool, other: string)
    requires HandleUsersSetAdmin(t, now, name, isAdmin).1 == Status(200)
    ensures var t' := HandleUsersSetAdmin(t, now, name, isAdmin).0;
            && NormalizeUsername(name) in t.users
            && (AdminRow(t', NormalizeUsername(name)) <==> isAdmin)
            && (other != NormalizeUsername(name) ==> (AdminRow(t', other) <==> AdminRow(t, other)))
            && t'.users.Keys == t.users.Keys && t'.grants == t.grants
  {
  }

  /** The password stored is the new one, under the same flag and one version up; nothing else moves. */
  predicate PasswordReplaced(t: DB, t': DB, who: string, pwHash: string) {
    && who in t.users && t'.users.Keys == t.users.Keys
    && t'.users[who].argon2id == pwHash && t'.users[who].isAdmin == t.users[who].isAdmin
    && t'.users[who].tokenVersion == t.users[who].tokenVersion + 1
    && (forall u | u in t.users && u != who :: t'.users[u] == t.users[u])
    && t'.grants == t.grants && t'.resources == t.resources && t'.config == t.config
  }

  /** Both ways to set a password do just that on a 200, and nothing otherwise; one's own needs the old one. */
  lemma SetPasswordTakesEffect(
    t: DB, now: int, claims: Claims, current: string, matches: bool, next: string, name: string, pwHash: string)
    ensures var (t', reply) := HandleMePassword(t, now, claims, current, matches, next, pwHash);
            if reply == Status(200)
            then PasswordReplaced(t, t', NormalizeUsername(claims.subject), pwHash) && matches && next != current
            else t' == t
    ensures var (t', reply) := HandleUsersSetPassword(t, now, name, next, pwHash);
            if reply == Status(200) then PasswordReplaced(t, t', NormalizeUsername(name), pwHash) else t' == t
  {
  }

  // ---------- grant rows ----------

  /** The request grants exactly this row, or registers its resource for the requesting subject. */
  predicate RequestGrants(subject: string, request: AdminOp, g: Grant) {
    match request
    case GrantAdd(u, id, p) => g == Grant(NormalizeUsername(u), TrimSpace(id), TrimSpace(p))
    case ResourceCreate(input, _) => ComesWith(subject, input, g)
    case _ => false
  }

  /** The request removes exactly this row, or deletes its resource. */
  predicate RequestRevokes(request: AdminOp, g: Grant) {
    match request
    case GrantRemove(u, id, p) => g == Grant(NormalizeUsername(u), TrimSpace(id), TrimSpace(p))
    case ResourceDelete(input) => NormalizeResourceId(input) == Some(g.resourceId)
    case _ => false
  }

  /** An admin's request that grants this row, or the owner set of whoever registers the resource. */
  predicate MayGrant(cfg: Config, t: DB, call: Call, g: Grant) {
    match call.op
    case Admin(b, request) =>
      FromAdmin(cfg, t, call.now, b) && RequestGrants(ApiAdmin(cfg, t, call.now, b).value.subject, request, g)
    case RebacCreate(b, input, _) =>
      VerifiedCaller(cfg, t, call.now, b).Some? && ComesWith(VerifiedCaller(cfg, t, call.now, b).value, input, g)
    case _ => false
  }

  /** An admin's request that removes this row, its resource's removal by whoever may, or the deletion of its user. */
  predicate MayRevoke(cfg: Config, t: DB, call: Call, g: Grant) {
    || DeletesUser(cfg, t, call, g.username)
    || MayRemove(cfg, t, call, g.resourceId)
    || (call.op.Admin? && FromAdmin(cfg, t, call.now, call.op.bearer) && RequestRevokes(call.op.request, g))
  }

  lemma UserRequestOnGrant(t: DB, now: int, claims: Claims, request: AdminOp, g: Grant)
    requires SchemaHolds(t) && (OnUsers(request) || request.RegistrationToggle?)
    ensures var t' := HandleAdmin(t, now, claims, request).0;
            g in t'.grants <==> g in t.grants && (g.username in t'.users || g.username !in t.users)
  {
  }

  /** An admin's registration always succeeds on a well-formed id, and grants the admin the owner set. */
  lemma ResourceCreateOutcome(t: DB, now: int, claims: Claims, input: string, name: string)
    requires Tables.GetUser(t, claims.subject).Ok?
    ensures var (t', reply), id := HandleResourceCreate(t, now, claims, input, name), NormalizeResourceId(input);
            && (id.None? ==> t' == t && reply == Status(400))
            && (id.Some? ==>
                  t' == Registered(t, now, claims.subject, id.value, TrimSpace(name)) && reply == Status(201))
  {
    var id := NormalizeResourceId(input);
    if id.Some? { RegisterResourceRegisters(t, now, claims.subject, id.value, TrimSpace(name)); }
  }

  /** The caller's owner set on the resource, and no other row, comes with registering it. */
  predicate ComesWith(caller: string, input: string, g: Grant) {
    NormalizeResourceId(input) == Some(g.resourceId) && g in OwnerGrants(NormalizeUsername(caller), g.resourceId)
  }

  lemma RegisteredOnGrant(t: DB, now: int, caller: string, input: string, name: string, g: Grant)
    requires NormalizeResourceId(input).Some?
    ensures g in Registered(t, now, caller, NormalizeResourceId(input).value, name).grants
            <==> g in t.grants || ComesWith(caller, input, g)
  {
  }

  lemma ResourceCreateOnGrant(t: DB, now: int, claims: Claims, input: string, name: string, g: Grant)
    requires Tables.GetUser(t, claims.subject).Ok?
    ensures g in HandleResourceCreate(t, now, claims, input, name).0.grants
            <==> g in t.grants || ComesWith(claims.subject, input, g)
  {
    ResourceCreateOutcome(t, now, claims, input, name);
    if NormalizeResourceId(input).Some? { RegisteredOnGrant(t, now, claims.subject, input, TrimSpace(name), g); }
  }

  lemma ResourceDeleteOnGrant(t: DB, input: string, g: Grant)
    ensures g in HandleResourceDelete(t, input).0.grants
            <==> g in t.grants && NormalizeResourceId(input) != Some(g.resourceId)
  {
    var id := NormalizeResourceId(input);
    if id.Some? { CanonicalIsTrimmed(id.value); }
  }

  lemma GrantAddOnGrant(t: DB, u: string, id: string, p: string, g: Grant)
    ensures var t' := HandleGrantAdd(t, u, id, p).0;
            && (g in t.grants ==> g in t'.grants)
            && (g in t'.grants ==> g in t.grants || g == Grant(NormalizeUsername(u), TrimSpace(id), TrimSpace(p)))
  {
    GrantAddOutcome(t, u, id, p);
  }

  lemma GrantRemoveOnGrant(t: DB, u: string, id: string, p: string, g: Grant)
    ensures var t' := HandleGrantRemove(t, u, id, p).0;
            && (g in t'.grants ==> g in t.grants)
            && (g in t.grants ==> g in t'.grants || g == Grant(NormalizeUsername(u), TrimSpace(id), TrimSpace(p)))
  {
  }

  /** Why the row may have appeared or disappeared between two states. */
  predicate Explained(t: DB, t': DB, subject: string, request: AdminOp, g: Grant) {
    && (g !in t.grants && g in t'.grants ==> RequestGrants(subject, request, g))
    && (g in t.grants && g !in t'.grants ==>
          (g.username in t.users && g.username !in t'.users) || RequestRevokes(request, g))
  }

  lemma ResourceRequestOnGrant(t: DB, now: int, claims: Claims, request: AdminOp, g: Grant)
    requires Tables.GetUser(t, claims.subject).Ok? && (request.ResourceCreate? || request.ResourceDelete?)
    ensures Explained(t, HandleAdmin(t, now, claims, request).0, claims.subject, request, g)
  {
    match request
    case ResourceCreate(input, name) => ResourceCreateOnGrant(t, now, claims, input, name, g);
    case ResourceDelete(input) => ResourceDeleteOnGrant(t, input, g);
  }

  lemma GrantRequestOnGrant(t: DB, now: int, claims: Claims, request: AdminOp, g: Grant)
    requires request.GrantAdd? || request.GrantRemove?
    ensures Explained(t, HandleAdmin(t, now, claims, request).0, claims.subject, request, g)
  {
    match request
    case GrantAdd(u, id, p) => GrantAddOnGrant(t, u, id, p, g);
    case GrantRemove(u, id, p) => GrantRemoveOnGrant(t, u, id, p, g);
  }

  /** Only such a request makes the row appear or disappear. */
  lemma AdminRequestOnGrant(t: DB, now: int, claims: Claims, request: AdminOp, g: Grant)
    requires Inv(t) && Tables.GetUser(t, claims.subject).Ok?
    ensures Explained(t, HandleAdmin(t, now, claims, request).0, claims.subject, request, g)
  {
    if request.ResourceCreate? || request.ResourceDelete? {
      ResourceRequestOnGrant(t, now, claims, request, g);
    } else if request.GrantAdd? || request.GrantRemove? {
      GrantRequestOnGrant(t, now, claims, request, g);
    } else {
      UserRequestOnGrant(t, now, claims, request, g);
    }
  }

  lemma AdminCallIsTheRequest(cfg: Config, t: DB, call: Call)
    requires call.op.Admin?
    ensures var gate := ApiAdmin(cfg, t, call.now, call.op.bearer);
            && (gate.Err? ==> Next(cfg, t, call) == t)
            && (gate.Ok? ==>
                  && FromAdmin(cfg, t, call.now, call.op.bearer) && Tables.GetUser(t, gate.value.subject).Ok?
                  && Next(cfg, t, call) == HandleAdmin(t, call.now, gate.value, call.op.request).0)
  {
  }

  lemma AdminCallOnGrant(cfg: Config, t: DB, call: Call, g: Grant)
    requires Inv(t) && call.op.Admin?
    ensures g !in t.grants && g in Next(cfg, t, call).grants ==> MayGrant(cfg, t, call, g)
    ensures g in t.grants && g !in Next(cfg, t, call).grants ==> MayRevoke(cfg, t, call, g)
  {
    AdminCallIsTheRequest(cfg, t, call);
    var gate := ApiAdmin(cfg, t, call.now, call.op.bearer);
    if gate.Ok? { AdminRequestOnGrant(t, call.now, gate.value, call.op.request, g); }
  }

  lemma RebacCreateOnGrant(cfg: Config, t: DB, call: Call, g: Grant)
    requires call.op.RebacCreate?
    ensures g in t.grants ==> g in Next(cfg, t, call).grants
    ensures g !in t.grants && g in Next(cfg, t, call).grants ==> MayGrant(cfg, t, call, g)
  {
    var op := call.op;
    var caller := VerifiedCaller(cfg, t, call.now, op.bearer);
    CreateSucceeds(cfg, t, call.now, op.bearer, op.resourceId, op.name);
    if caller.Some? && NormalizeResourceId(op.resourceId).Some? {
      RegisteredOnGrant(t, call.now, caller.value, op.resourceId, op.name, g);
    }
  }

  lemma RebacDeleteOnGrant(cfg: Config, t: DB, call: Call, g: Grant)
    requires call.op.RebacDelete?
    ensures g in Next(cfg, t, call).grants ==> g in t.grants
    ensures g in t.grants && g !in Next(cfg, t, call).grants ==> MayRemove(cfg, t, call, g.resourceId)
  {
    DeleteOutcome(cfg, t, call.now, call.op.bearer, call.op.resourceId);
  }

  /** A grant row appears or disappears in one step only for one of these reasons. */
  lemma GrantChangeIsEntitled(cfg: Config, t: DB, call: Call, g: Grant)
    requires Inv(t)
    ensures g !in t.grants && g in Next(cfg, t, call).grants ==> MayGrant(cfg, t, call, g)
    ensures g in t.grants && g !in Next(cfg, t, call).grants ==> MayRevoke(cfg, t, call, g)
  {
    if call.op.Admin? {
      AdminCallOnGrant(cfg, t, call, g);
    } else if call.op.RebacCreate? {
      RebacCreateOnGrant(cfg, t, call, g);
    } else if call.op.RebacDelete? {
      RebacDeleteOnGrant(cfg, t, call, g);
    } else {
      OthersKeepGrants(cfg, t, call);
    }
  }

  lemma OthersKeepGrants(cfg: Config, t: DB, call: Call)
    requires !call.op.Admin? && !call.op.RebacCreate? && !call.op.RebacDelete?
    ensures Next(cfg, t, call).grants == t.grants
  {
  }

  /** A grant held at the end of a run that began without it was given at some step by someone entitled to. */
  lemma {:induction false} GrantHasAnEntitledStep(cfg: Config, t: DB, calls: seq<Call>, g: Grant) returns (i: nat)
    requires Inv(t) && g !in t.grants && g in Run(cfg, t, calls).grants
    ensures i < |calls| && MayGrant(cfg, Run(cfg, t, calls[..i]), calls[i], g)
    decreases |calls|
  {
    var t' := Next(cfg, t, calls[0]);
    if g in t'.grants {
      GrantChangeIsEntitled(cfg, t, calls[0], g);
      i := 0;
      assert calls[..0] == [];
    } else {
      StepKeepsInv(cfg, t, calls[0]);
      var k := GrantHasAnEntitledStep(cfg, t', calls[1..], g);
      i := k + 1;
      assert calls[..i][0] == calls[0] && calls[..i][1..] == calls[1..][..k];
    }
  }

  /** With the user and resource there, an admin's grant always lands, and lands alone; otherwise nothing changes. */
  lemma GrantAddOutcome(t: DB, username: string, resourceId: string, permission: string)
    ensures var (t', reply) := HandleGrantAdd(t, username, resourceId, permission);
            var g := Grant(NormalizeUsername(username), TrimSpace(resourceId), TrimSpace(permission));
            var granted := ValidPermission(permission) && Tables.GetUser(t, username).Ok?
                           && TrimSpace(resourceId) in t.resources && TrimSpace(resourceId) != "";
            && (reply == Status(201) <==> granted)
            && (granted ==> t' == t.(grants := t.grants + {g}))
            && (!granted ==> t' == t)
  {
    var g := Grant(NormalizeUsername(username), TrimSpace(resourceId), TrimSpace(permission));
    assert g in t.grants ==> t.grants + {g} == t.grants;
  }

  /** Granting shows in what the user may do, and removing the grant again undoes it. */
  lemma GrantThenRemove(t: DB, username: string, resourceId: string, permission: string)
    requires HandleGrantAdd(t, username, resourceId, permission).1 == Status(201)
    requires !IsAdmin(t, username)
    ensures var t1 := HandleGrantAdd(t, username, resourceId, permission).0;
            var t2 := HandleGrantRemove(t1, username, resourceId, permission).0;
            var (id, p) := (TrimSpace(resourceId), TrimSpace(permission));
            && EffectiveResources(t1, username).Some? && Allows(EffectiveResources(t1, username).value, id, p)
            && EffectiveResources(t2, username).Some? && !Allows(EffectiveResources(t2, username).value, id, p)
            && (!Allows(EffectiveResources(t, username).value, id, p) ==> t2 == t)
  {
    var t1 := HandleGrantAdd(t, username, resourceId, permission).0;
    var t2 := HandleGrantRemove(t1, username, resourceId, permission).0;
    var id, p := TrimSpace(resourceId), TrimSpace(permission);
    GrantAddOutcome(t, username, resourceId, permission);
    NonAdminAllowsIffGranted(t, username, id, p);
    NonAdminAllowsIffGranted(t1, username, id, p);
    NonAdminAllowsIffGranted(t2, username, id, p);
    var g := Grant(NormalizeUsername(username), id, p);
    assert g !in t.grants ==> (t.grants + {g}) - {g} == t.grants;
  }

  // ---------- the registration switch ----------

  lemma GrantAllKeepsConfig(t: DB, username: string, id: string, perms: seq<string>)
    ensures GrantAll(t, username, id, perms).0.config == t.config
    decreases |perms|
  {
  }

  lemma RegistrationKeepsConfig(t: DB, now: int, caller: string, id: string, name: string)
    ensures RegisterResource(t, now, caller, id, name).0.config == t.config
  {
    var r := Tables.UpsertResource(t, id, name, now / NANOS);
    if r.Ok? { GrantAllKeepsConfig(r.value, caller, id, OWNER_PERMISSIONS); }
  }

  lemma RequestOnSwitch(t: DB, now: int, claims: Claims, request: AdminOp)
    ensures var t' := HandleAdmin(t, now, claims, request).0;
            if request.RegistrationToggle? then Tables.RegistrationOpen(t') == request.open else t'.config == t.config
  {
    match request
    case ResourceCreate(input, name) =>
      var id := NormalizeResourceId(input);
      if id.Some? { RegistrationKeepsConfig(t, now, claims.subject, id.value, TrimSpace(name)); }
    case RegistrationToggle(open) => SwitchDecides(t, open);
    case _ =>
  }

  lemma OtherCallOnSwitch(cfg: Config, t: DB, call: Call)
    requires !call.op.Admin?
    ensures var t' := Next(cfg, t, call);
            if SetupTakesEffect(cfg, t, call) then !Tables.RegistrationOpen(t') else t'.config == t.config
  {
    match call.op
    case RebacCreate(b, input, name) =>
      var caller, id := VerifiedCaller(cfg, t, call.now, b), NormalizeResourceId(input);
      if caller.Some? && id.Some? { RegistrationKeepsConfig(t, call.now, caller.value, id.value, name); }
    case _ =>
  }

  /** Registration is open after a call exactly if an admin's toggle opened it, or it was open and is left so. */
  lemma SwitchFollowsTheToggle(cfg: Config, t: DB, call: Call)
    ensures Tables.RegistrationOpen(Next(cfg, t, call))
         == if call.op.Admin? && call.op.request.RegistrationToggle? && FromAdmin(cfg, t, call.now, call.op.bearer)
            then call.op.request.open
            else Tables.RegistrationOpen(t) && !SetupTakesEffect(cfg, t, call)
  {
    if call.op.Admin? {
      AdminCallIsTheRequest(cfg, t, call);
      var gate := ApiAdmin(cfg, t, call.now, call.op.bearer);
      if gate.Ok? { RequestOnSwitch(t, call.now, gate.value, call.op.request); }
    } else {
      OtherCallOnSwitch(cfg, t, call);
    }
  }

  /** Register is forbidden exactly while the switch is off, and then changes nothing; it never makes an admin. */
  lemma RegisterObeysTheSwitch(
    cfg: Config, t: DB, now: int, username: string, password: string, pwHash: string, who: string)
    ensures var (t', reply) := HandleRegister(cfg, t, now, username, password, pwHash);
            && (reply.status == 403 <==> !Tables.RegistrationOpen(t))
            && (reply.status == 403 ==> t' == t)
            && (AdminRow(t', who) <==> AdminRow(t, who))
  {
  }
}
