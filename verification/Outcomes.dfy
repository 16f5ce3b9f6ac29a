/** Each handler behind its gate: which request gets which answer, and which row it leaves. */
module Outcomes {
  import opened GoStrings
  import opened Tables
  import opened ResourceIds
  import opened Service
  import opened ControlPlane
  import opened ControlInvariants
  import opened Recreation
  import opened Registry

  predicate GoodPassword(password: string) {
    Utf8Len(password) >= 12 && Utf8Len(password) <= 1024
  }

  /** The name shown for a user: the one asked for, unless it is blank. */
  predicate ShownAs(u: User, displayName: string, norm: string) {
    && (TrimSpace(displayName) != "" ==> u.displayName == displayName)
    && (TrimSpace(displayName) == "" ==> u.displayName == norm)
  }

  /** One new row, under its normal form and at version 0, and no other row touched. */
  predicate UserAdded(t: DB, t': DB, norm: string, displayName: string, pwHash: string, isAdmin: bool, now: int) {
    && ValidUsername(norm) && norm !in t.users && t'.users.Keys == t.users.Keys + {norm}
    && (forall u | u in t.users :: t'.users[u] == t.users[u])
    && (var row := t'.users[norm];
        && row.argon2id == pwHash && row.isAdmin == isAdmin && row.tokenVersion == 0
        && row.created == now / NANOS && row.updated == now / NANOS && ShownAs(row, displayName, norm))
    && t'.resources == t.resources && t'.grants == t.grants
  }

  // ---------- accounts ----------

  /** Setup succeeds exactly for a good password and a valid name on an empty table. */
  lemma SetupAnswers(cfg: Config, t: DB, now: int, u: string, p: string, d: string, h: string)
    ensures var reply, norm := HandleSetup(cfg, t, now, u, p, d, h).1, NormalizeUsername(u);
            var good := GoodPassword(p) && ValidUsername(norm);
            && (reply.status == 400 <==> !good)
            && (reply.status == 409 <==> good && t.users != map[])
            && (reply.status == 201 <==> good && t.users == map[] && Mints(cfg, now))
  {
    NormalForms(u);
  }

  /** Then it makes an admin and closes registration; otherwise it changes nothing. */
  lemma SetupOutcome(cfg: Config, t: DB, now: int, u: string, p: string, d: string, h: string)
    ensures var t', norm := HandleSetup(cfg, t, now, u, p, d, h).0, NormalizeUsername(u);
            if GoodPassword(p) && ValidUsername(norm) && t.users == map[] then
              && UserAdded(t, t', norm, d, h, true, now) && !Tables.RegistrationOpen(t')
              && (forall key | key != REGISTRATION_OPEN && key in t.config ::
                    key in t'.config && t'.config[key] == t.config[key])
            else t' == t
  {
  }

  /** While open, registration makes the row of a new, short enough name; a taken one gets 409 and no token. */
  lemma RegisterOutcome(cfg: Config, t: DB, now: int, u: string, p: string, h: string)
    ensures var (t', reply), norm := HandleRegister(cfg, t, now, u, p, h), NormalizeUsername(u);
            var good := Utf8Len(norm) >= 3 && Utf8Len(norm) <= 32 && GoodPassword(p) && ValidUsername(norm);
            && (reply.status == 403 <==> !Tables.RegistrationOpen(t))
            && (reply.status == 400 <==> Tables.RegistrationOpen(t) && !good)
            && (reply.status == 409 <==> Tables.RegistrationOpen(t) && good && norm in t.users)
            && (reply.status == 201 <==>
                  Tables.RegistrationOpen(t) && good && norm !in t.users && Mints(cfg, now))
            && (reply.status == 201 || reply.status == 500 ==>
                  UserAdded(t, t', norm, norm, h, false, now) && t'.config == t.config)
            && (reply.status == 403 || reply.status == 400 || reply.status == 409 ==>
                  t' == t && reply.token.None?)
            && (reply.status == 201 || reply.status == 500 || reply.status == 403 || reply.status == 400
                || reply.status == 409)
  {
    NormalForms(u);
    if ValidUsername(NormalizeUsername(u)) { PlainName(NormalizeUsername(u)); }
  }

  /** An admin may make any valid new user, in either role. */
  lemma UsersCreateOutcome(t: DB, now: int, u: string, p: string, d: string, isAdmin: bool, h: string)
    ensures var (t', reply), norm := HandleUsersCreate(t, now, u, p, d, isAdmin, h), NormalizeUsername(u);
            var good := GoodPassword(p) && ValidUsername(norm);
            && (reply == Status(400) <==> !good) && (reply == Status(409) <==> good && norm in t.users)
            && (reply == Status(201) <==> good && norm !in t.users)
            && (if reply == Status(201) then UserAdded(t, t', norm, d, h, isAdmin, now) && t'.config == t.config
                else t' == t)
  {
  }

  /** A login succeeds exactly for a standing user, a matching password of at most 1024 bytes, and while mints do. */
  lemma LoginIff(cfg: Config, t: DB, now: int, u: string, p: string, matches: bool)
    ensures var reply, norm := HandleLogin(cfg, t, now, u, p, matches), NormalizeUsername(u);
            && (reply.status == 400 <==> Utf8Len(p) > 1024)
            && (reply.status == 401 <==> Utf8Len(p) <= 1024 && !(norm in t.users && norm != "" && matches))
            && (reply.status == 200 <==>
                  Utf8Len(p) <= 1024 && norm in t.users && norm != "" && matches && Mints(cfg, now))
            && (reply.status == 200 <==> reply.token.Some?)
            && (reply.status == 200 ==>
                  && reply.token.value.subject == norm
                  && reply.token.value.tokenVersion == t.users[norm].tokenVersion
                  && Some(reply.token.value.resources) == EffectiveResources(t, norm)
                  && (t.users[norm].displayName != "" ==> reply.token.value.name == t.users[norm].displayName)
                  && (t.users[norm].displayName == "" ==> reply.token.value.name == norm))
  {
    NormalForms(u);
  }

  /** Changing one's own password: first the new one is judged, then the old one shown, then that they differ. */
  lemma OwnPasswordOutcome(t: DB, now: int, claims: Claims, current: string, matches: bool, next: string, h: string)
    ensures var (t', reply) := HandleMePassword(t, now, claims, current, matches, next, h);
            var who := NormalizeUsername(claims.subject);
            var shown := who != "" && who in t.users && matches;
            && (reply == Status(401) <==> GoodPassword(next) && !shown)
            && (reply == Status(400) <==> !GoodPassword(next) || (shown && next == current))
            && (reply == Status(200) <==> GoodPassword(next) && shown && next != current && ValidUsername(who))
            && (reply == Status(500) <==> GoodPassword(next) && shown && next != current && !ValidUsername(who))
            && (reply == Status(200) ==>
                  who in t'.users && t'.users[who].argon2id == h && t'.users[who].updated == now / NANOS)
            && (reply != Status(200) ==> t' == t)
  {
  }

  lemma AdminPasswordOutcome(t: DB, now: int, name: string, p: string, h: string)
    requires SchemaHolds(t)
    ensures var (t', reply), who := HandleUsersSetPassword(t, now, name, p, h), NormalizeUsername(name);
            && (reply == Status(400) <==> !GoodPassword(p))
            && (reply == Status(200) <==> GoodPassword(p) && who in t.users)
            && (reply == Status(404) <==> GoodPassword(p) && ValidUsername(who) && who !in t.users)
            && (reply == Status(500) <==> GoodPassword(p) && !ValidUsername(who))
            && (reply == Status(200) ==>
                  who in t'.users && t'.users[who].argon2id == h && t'.users[who].updated == now / NANOS)
            && (reply != Status(200) ==> t' == t)
  {
  }

  /** A user is deleted unless missing or the only admin. */
  lemma UsersDeleteOutcome(t: DB, name: string)
    requires SchemaHolds(t)
    ensures var (t', reply), who := HandleUsersDelete(t, name), NormalizeUsername(name);
            && (reply == Status(404) <==> who !in t.users)
            && (reply == Status(409) <==> who in t.users && Admins(t) == {who})
            && (reply == Status(200) <==> who in t.users && Admins(t) != {who})
            && (if reply == Status(200) then t'.users.Keys == t.users.Keys - {who} else t' == t)
  {
    OnlyAdminIff(t, NormalizeUsername(name));
  }

  /** A role is set unless the user is missing or it would take the only admin's. */
  lemma UsersSetAdminOutcome(t: DB, now: int, name: string, isAdmin: bool)
    requires SchemaHolds(t)
    ensures var (t', reply), who := HandleUsersSetAdmin(t, now, name, isAdmin), NormalizeUsername(name);
            && (reply == Status(409) <==> !isAdmin && who in t.users && Admins(t) == {who})
            && (reply == Status(200) <==> who in t.users && (isAdmin || Admins(t) != {who}))
            && (reply == Status(404) <==> who !in t.users && (isAdmin ==> ValidUsername(who)))
            && (reply == Status(500) <==> isAdmin && !ValidUsername(who))
            && (reply == Status(200) ==>
                  && t'.users == t.users[who := t.users[who].(isAdmin := isAdmin, updated := now / NANOS,
                                                              tokenVersion := t.users[who].tokenVersion + 1)])
            && (reply != Status(200) ==> t' == t)
  {
    OnlyAdminIff(t, NormalizeUsername(name));
  }

  lemma OnlyAdminIff(t: DB, who: string)
    ensures who in Admins(t) && |Admins(t)| <= 1 <==> Admins(t) == {who}
  {
    if who in Admins(t) && |Admins(t)| <= 1 {
      assert |Admins(t) - {who}| == 0;
      assert Admins(t) - {who} == {};
    }
  }

  // ---------- resources and grants ----------

  /** A resource is set under its trimmed id, keeping the created time of one that stands there. */
  lemma UpsertOutcome(t: DB, resourceId: string, name: string, now: int)
    ensures var r, id := Tables.UpsertResource(t, resourceId, name, now), TrimSpace(resourceId);
            && (r.Err? <==> id == "") && (r.Err? ==> r.error == EmptyResourceId)
            && (r.Ok? ==>
                  && var t' := r.value;
                  && t'.resources.Keys == t.resources.Keys + {id} && t'.resources[id].name == name
                  && t'.resources[id].created == (if id in t.resources then t.resources[id].created else now)
                  && (forall k | k in t.resources && k != id :: t'.resources[k] == t.resources[k])
                  && t'.users == t.users && t'.grants == t.grants && t'.config == t.config)
  {
  }

  lemma ResourceDeleteOutcome(t: DB, input: string)
    ensures var (t', reply), id := HandleResourceDelete(t, input), NormalizeResourceId(input);
            && (reply == Status(400) <==> id.None?) && (reply == Status(200) <==> id.Some?)
            && (id.None? ==> t' == t)
            && (id.Some? ==>
                  && t'.resources.Keys == t.resources.Keys - {id.value} && t'.users == t.users && t'.config == t.config
                  && (forall r | r in t'.resources :: t'.resources[r] == t.resources[r])
                  && (forall g :: g in t'.grants <==> g in t.grants && g.resourceId != id.value))
  {
    var id := NormalizeResourceId(input);
    if id.Some? { CanonicalIsTrimmed(id.value); }
  }

  /** Removing a grant answers 200 for any known permission, there or not, and takes just that row. */
  lemma GrantRemoveOutcome(t: DB, u: string, id: string, p: string)
    ensures var (t', reply) := HandleGrantRemove(t, u, id, p);
            var row := Grant(NormalizeUsername(u), TrimSpace(id), TrimSpace(p));
            && (reply == Status(200) <==> TrimSpace(p) in PERMISSIONS)
            && (reply == Status(400) <==> TrimSpace(p) !in PERMISSIONS)
            && (forall g :: g in t'.grants <==> g in t.grants && !(g == row && reply == Status(200)))
            && t'.users == t.users && t'.resources == t.resources && t'.config == t.config
  {
  }

  /** Which of its errors a grant statement gives: the first blank field, or a missing parent of a new checked row. */
  lemma AddGrantErrors(t: DB, u: string, id: string, p: string)
    ensures var r := Tables.AddGrant(t, u, id, p);
            var row := Grant(NormalizeUsername(u), TrimSpace(id), TrimSpace(p));
            && (r == Err(UserNotFound) <==> row.username == "")
            && (r == Err(EmptyResourceId) <==> row.username != "" && row.resourceId == "")
            && (r == Err(EmptyPermission) <==> row.username != "" && row.resourceId != "" && row.permission == "")
            && (r == Err(ForeignKeyViolation) <==>
                  && row.username != "" && row.resourceId != "" && row.permission in PERMISSIONS && row !in t.grants
                  && (row.username !in t.users || row.resourceId !in t.resources))
  {
  }

  /** Ids are accepted in any case and padding, with or without the prefix, and nothing else is. */
  lemma NormalizesExactly(input: string)
    ensures var s := ToLower(TrimSpace(input));
            var digits := if PREFIX <= s then s[4..] else s;
            NormalizeResourceId(input)
            == if |digits| == 32 && (forall i | 0 <= i < 32 :: HexChar(digits[i])) then Some("urc-" + digits) else None
  {
    var s := ToLower(TrimSpace(input));
    var digits := if PREFIX <= s then s[4..] else s;
    if |digits| == 32 {
      assert AllHex(digits) <==> forall i | 0 <= i < 32 :: HexChar(digits[i]);
    }
  }

  /** The name a token is shown under after an exchange: its own, or the preferred one, or the subject. */
  lemma ExchangeKeepsTheName(cfg: Config, t: DB, now: int, claims: Claims)
    ensures var reply := HandleExchange(cfg, t, now, Some(claims));
            reply.grpcToken.Some? ==>
              && (TrimSpace(claims.name) != "" ==> reply.grpcToken.value.name == claims.name)
              && (TrimSpace(claims.name) == "" && TrimSpace(claims.preferredUsername) != "" ==>
                    reply.grpcToken.value.name == claims.preferredUsername)
              && (TrimSpace(claims.name) == "" && TrimSpace(claims.preferredUsername) == "" ==>
                    reply.grpcToken.value.name == claims.subject)
  {
    assert TrimSpace("") == "";
  }

  /** Names of one to 64 small letters, digits, dots, underscores and dashes are valid; an empty one is told apart. */
  lemma UsernameRules(username: string)
    ensures var norm := NormalizeUsername(username);
            var plain := forall i | 0 <= i < |norm| ::
              ('a' <= norm[i] <= 'z') || ('0' <= norm[i] <= '9') || norm[i] == '.' || norm[i] == '_' || norm[i] == '-';
            ValidateUsername(username)
            == if |norm| == 0 then Err(EmptyUsername)
               else if |norm| > 64 || !plain then Err(InvalidUsername)
               else Ok(norm)
  {
    var norm := NormalizeUsername(username);
    assert (forall i | 0 <= i < |norm| :: UsernameChar(norm[i])) <==> forall c | c in norm :: UsernameChar(c);
  }

  lemma KnownPermissions(permission: string)
    ensures var p := TrimSpace(permission);
            ValidPermission(permission)
            <==> p == "read" || p == "write" || p == "owner" || p == "admin" || p == "obliterate" || p == "migrate"
  {
  }

  // ---------- the codes of the RPCs ----------

  lemma RebacCreateAnswers(cfg: Config, t: DB, now: int, bearer: Option<Claims>, input: string, name: string)
    ensures HandleRebacCreate(cfg, t, now, bearer, input, name).1
         == GrpcStatus(if VerifiedCaller(cfg, t, now, bearer).None? then Unauthenticated
                       else if NormalizeResourceId(input).None? then InvalidArgument
                       else GrpcOk)
  {
    CreateSucceeds(cfg, t, now, bearer, input, name);
  }

  lemma RebacDeleteAnswers(cfg: Config, t: DB, now: int, bearer: Option<Claims>, input: string)
    ensures var caller, id := VerifiedCaller(cfg, t, now, bearer), NormalizeResourceId(input);
            HandleRebacDelete(cfg, t, now, bearer, input).1
            == GrpcStatus(if caller.None? then Unauthenticated
                          else if id.None? then InvalidArgument
                          else if IsAdmin(t, caller.value) || Owns(t, caller.value, id.value) then GrpcOk
                          else PermissionDenied)
  {
    DeleteOutcome(cfg, t, now, bearer, input);
  }

  lemma ExchangeAnswers(cfg: Config, t: DB, now: int, bearer: Option<Claims>)
    ensures HandleExchange(cfg, t, now, bearer).code
         == if VerifiedCaller(cfg, t, now, bearer).None? then Unauthenticated
            else if Mints(cfg, now) then GrpcOk
            else Internal
  {
  }
}
