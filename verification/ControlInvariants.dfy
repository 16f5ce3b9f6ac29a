/** What every step, and so every run, of the control plane keeps. */
module ControlInvariants {
  import opened GoStrings
  import opened Tables
  import opened ResourceIds
  import opened Service
  import opened ControlPlane
  import opened UserRows

  /** Rows reference existing rows, ids are canonical, someone is an admin, and only then may others register. */
  ghost predicate Inv(t: DB) {
    && SchemaHolds(t)
    && (forall id | id in t.resources :: Canonical(id))
    && (t.users != map[] ==> Admins(t) != {})
    && (Tables.RegistrationOpen(t) ==> t.users != map[])
  }

  // ---------- owner grants ----------

  function OwnerGrants(norm: string, id: string): set<Grant> {
    {Grant(norm, id, "owner"), Grant(norm, id, "read"), Grant(norm, id, "write")}
  }

  lemma GrantAdds(t: DB, username: string, id: string, perm: string)
    requires NormalizeUsername(username) != "" && NormalizeUsername(username) in t.users
    requires id in t.resources && Trimmed(id) && id != "" && perm in PERMISSIONS && Trimmed(perm) && perm != ""
    ensures Tables.AddGrant(t, username, id, perm)
         == Ok(t.(grants := t.grants + {Grant(NormalizeUsername(username), id, perm)}))
  {
    TrimSpaceTrims(id);
    TrimSpaceTrims(perm);
    var g := Grant(NormalizeUsername(username), id, perm);
    assert g in t.grants ==> t.grants + {g} == t.grants;
  }

  /** With both parent rows present the three grants all land. */
  lemma GrantOwnerAdds(t: DB, username: string, id: string)
    requires NormalizeUsername(username) != "" && NormalizeUsername(username) in t.users
    requires id in t.resources && Trimmed(id) && id != ""
    ensures Tables.GrantOwner(t, username, id)
         == (t.(grants := t.grants + OwnerGrants(NormalizeUsername(username), id)), None)
  {
    var norm := NormalizeUsername(username);
    var t1 := t.(grants := t.grants + {Grant(norm, id, "owner")});
    var t2 := t1.(grants := t1.grants + {Grant(norm, id, "read")});
    var t3 := t2.(grants := t2.grants + {Grant(norm, id, "write")});
    GrantAdds(t, username, id, "owner");
    GrantAdds(t1, username, id, "read");
    GrantAdds(t2, username, id, "write");
    assert t3.grants == t.grants + OwnerGrants(norm, id);
    calc {
      GrantAll(t, username, id, ["owner", "read", "write"]);
    == { assert ["owner", "read", "write"][1..] == ["read", "write"]; }
      GrantAll(t1, username, id, ["read", "write"]);
    == { assert ["read", "write"][1..] == ["write"]; }
      GrantAll(t2, username, id, ["write"]);
    == { assert ["write"][1..] == []; }
      (t3, None);
    }
  }

  /** What registering a resource leaves: the row with its first created time, and its registrant's three grants. */
  function Registered(t: DB, now: int, caller: string, id: string, name: string): DB {
    var created := if id in t.resources then t.resources[id].created else now / NANOS;
    t.(resources := t.resources[id := Resource(name, created)],
       grants := t.grants + OwnerGrants(NormalizeUsername(caller), id))
  }

  lemma RegisterResourceRegisters(t: DB, now: int, caller: string, id: string, name: string)
    requires Canonical(id) && Tables.GetUser(t, caller).Ok?
    ensures RegisterResource(t, now, caller, id, name) == (Registered(t, now, caller, id, name), true)
  {
    CanonicalIsTrimmed(id);
    TrimSpaceTrims(id);
    GrantOwnerAdds(Tables.UpsertResource(t, id, name, now / NANOS).value, caller, id);
  }

  // ---------- the invariant, op by op ----------

  lemma SetupKeepsInv(cfg: Config, t: DB, now: int, u: string, p: string, d: string, h: string)
    requires Inv(t)
    ensures Inv(HandleSetup(cfg, t, now, u, p, d, h).0)
  {
    UserStatementsKeepSchema(t, u, d, h, true, now / NANOS);
    var r := Tables.CreateFirstAdmin(t, u, d, h, now / NANOS);
    if r.Ok? && r.value.1 {
      assert NormalizeUsername(u) in Admins(r.value.0);
    }
  }

  lemma AddUserKeepsInv(t: DB, u: string, d: string, h: string, isAdmin: bool, now: int)
    requires Inv(t) && t.users != map[]
    ensures Tables.AddUser(t, u, d, h, isAdmin, now).Ok? ==> Inv(Tables.AddUser(t, u, d, h, isAdmin, now).value)
  {
    UserStatementsKeepSchema(t, u, d, h, isAdmin, now);
    var r := Tables.AddUser(t, u, d, h, isAdmin, now);
    if r.Ok? {
      var a :| a in Admins(t);
      assert a in Admins(r.value);
    }
  }

  lemma SetPasswordKeepsInv(t: DB, u: string, h: string, now: int)
    requires Inv(t)
    ensures Tables.SetPassword(t, u, h, now).Ok? ==> Inv(Tables.SetPassword(t, u, h, now).value)
  {
    UserStatementsKeepSchema(t, u, "", h, true, now);
    var r := Tables.SetPassword(t, u, h, now);
    if r.Ok? {
      assert Admins(r.value) == Admins(t);
    }
  }

  lemma TwoMembers(s: set<string>, x: string)
    requires |s| > 1
    ensures s - {x} != {}
  {
    assert x in s ==> |s - {x}| == |s| - 1;
    assert x !in s ==> s - {x} == s;
  }

  lemma DeleteKeepsInv(t: DB, name: string)
    requires Inv(t)
    ensures Inv(HandleUsersDelete(t, name).0)
    ensures t.users != map[] ==> HandleUsersDelete(t, name).0.users != map[]
  {
    UserStatementsKeepSchema(t, name, "", "", true, 0);
    var t' := HandleUsersDelete(t, name).0;
    if t' != t {
      var norm := NormalizeUsername(name);
      assert Admins(t') == Admins(t) - {norm};
      if t.users[norm].isAdmin {
        TwoMembers(Admins(t), norm);
      } else {
        assert Admins(t') == Admins(t);
      }
      var a :| a in Admins(t');
      assert a in t'.users;
    }
  }

  lemma SetAdminKeepsInv(t: DB, now: int, name: string, isAdmin: bool)
    requires Inv(t)
    ensures Inv(HandleUsersSetAdmin(t, now, name, isAdmin).0)
  {
    UserStatementsKeepSchema(t, name, "", "", isAdmin, now / NANOS);
    var t' := HandleUsersSetAdmin(t, now, name, isAdmin).0;
    if t' != t {
      var norm := NormalizeUsername(name);
      if isAdmin {
        assert norm in Admins(t');
      } else {
        assert Admins(t') == Admins(t) - {norm};
        if t.users[norm].isAdmin {
          TwoMembers(Admins(t), norm);
        } else {
          assert Admins(t') == Admins(t);
        }
      }
    }
  }

  lemma RegisteredKeepsInv(t: DB, now: int, caller: string, id: string, name: string)
    requires Inv(t) && Canonical(id) && Tables.GetUser(t, caller).Ok?
    ensures Inv(Registered(t, now, caller, id, name))
  {
    var t', norm := Registered(t, now, caller, id, name), NormalizeUsername(caller);
    forall g | g in t'.grants
      ensures g.username in t'.users && g.resourceId in t'.resources && g.permission in PERMISSIONS
    {
      assert g in t.grants || g in OwnerGrants(norm, id);
    }
    assert SchemaHolds(t');
    assert Admins(t') == Admins(t);
  }

  lemma RegisterKeepsInv(t: DB, now: int, caller: string, id: string, name: string)
    requires Inv(t) && Canonical(id) && Tables.GetUser(t, caller).Ok?
    ensures Inv(RegisterResource(t, now, caller, id, name).0)
  {
    RegisterResourceRegisters(t, now, caller, id, name);
    RegisteredKeepsInv(t, now, caller, id, name);
  }

  lemma DeleteResourceKeepsInv(t: DB, id: string)
    requires Inv(t)
    ensures Tables.DeleteResource(t, id).Ok? ==> Inv(Tables.DeleteResource(t, id).value)
  {
    ResourceStatementsKeepSchema(t, "", id, "", 0);
    assert Tables.DeleteResource(t, id).Ok? ==> Admins(Tables.DeleteResource(t, id).value) == Admins(t);
  }

  lemma GrantOpsKeepInv(t: DB, u: string, id: string, p: string)
    requires Inv(t)
    ensures Inv(HandleGrantAdd(t, u, id, p).0)
    ensures Inv(HandleGrantRemove(t, u, id, p).0)
  {
    var a, r := HandleGrantAdd(t, u, id, p).0, HandleGrantRemove(t, u, id, p).0;
    assert Admins(a) == Admins(t) && Admins(r) == Admins(t);
  }

  lemma ToggleKeepsInv(t: DB, open: bool)
    requires Inv(t) && t.users != map[]
    ensures Inv(Tables.SetRegistrationOpen(t, open))
  {
    assert Admins(Tables.SetRegistrationOpen(t, open)) == Admins(t);
  }

  /** A call that gets past a gate proves that its subject has a row. */
  lemma GateNeedsUser(cfg: Config, t: DB, now: int, bearer: Option<Claims>)
    ensures ApiAuth(cfg, t, now, bearer).Ok? ==> Tables.GetUser(t, ApiAuth(cfg, t, now, bearer).value.subject).Ok?
    ensures VerifiedCaller(cfg, t, now, bearer).Some?
            ==> Tables.GetUser(t, VerifiedCaller(cfg, t, now, bearer).value).Ok?
    ensures ApiAdmin(cfg, t, now, bearer).Ok? ==> IsAdmin(t, ApiAdmin(cfg, t, now, bearer).value.subject)
    ensures ApiAuth(cfg, t, now, bearer).Ok? || VerifiedCaller(cfg, t, now, bearer).Some? ==> t.users != map[]
  {
  }

  lemma PublicStepKeepsInv(cfg: Config, t: DB, call: Call)
    requires Inv(t) && (call.op.Setup? || call.op.Login? || call.op.Register? || call.op.MePassword?)
    ensures Inv(Next(cfg, t, call))
  {
    var now := call.now;
    match call.op
    case Setup(u, p, d, h) => SetupKeepsInv(cfg, t, now, u, p, d, h);
    case Login(_, _, _) =>
    case Register(u, p, h) =>
      if Tables.RegistrationOpen(t) {
        AddUserKeepsInv(t, NormalizeUsername(u), NormalizeUsername(u), h, false, now / NANOS);
      }
    case MePassword(b, _, _, _, h) =>
      if ApiAuth(cfg, t, now, b).Ok? {
        SetPasswordKeepsInv(t, ApiAuth(cfg, t, now, b).value.subject, h, now / NANOS);
      }
  }

  lemma RegistryStepKeepsInv(cfg: Config, t: DB, call: Call)
    requires Inv(t) && (call.op.Exchange? || call.op.RebacCreate? || call.op.RebacDelete?)
    ensures Inv(Next(cfg, t, call))
  {
    var now := call.now;
    match call.op
    case Exchange(_) =>
    case RebacCreate(b, id, n) =>
      GateNeedsUser(cfg, t, now, b);
      if VerifiedCaller(cfg, t, now, b).Some? && NormalizeResourceId(id).Some? {
        RegisterKeepsInv(t, now, VerifiedCaller(cfg, t, now, b).value, NormalizeResourceId(id).value, n);
      }
    case RebacDelete(b, id) =>
      if NormalizeResourceId(id).Some? {
        DeleteResourceKeepsInv(t, NormalizeResourceId(id).value);
      }
  }

  /** An admin-gated handler keeps the invariant once let through. */
  lemma AdminStepKeepsInv(t: DB, now: int, claims: Claims, request: AdminOp)
    requires Inv(t) && IsAdmin(t, claims.subject)
    ensures Inv(HandleAdmin(t, now, claims, request).0)
  {
    match request
    case RegistrationToggle(open) => ToggleKeepsInv(t, open);
    case UsersCreate(u, p, d, a, h) => AddUserKeepsInv(t, u, d, h, a, now / NANOS);
    case UsersDelete(n) => DeleteKeepsInv(t, n);
    case UsersSetPassword(n, _, h) => SetPasswordKeepsInv(t, n, h, now / NANOS);
    case UsersSetAdmin(n, a) => SetAdminKeepsInv(t, now, n, a);
    case ResourceCreate(id, n) =>
      if NormalizeResourceId(id).Some? {
        RegisterKeepsInv(t, now, claims.subject, NormalizeResourceId(id).value, TrimSpace(n));
      }
    case ResourceDelete(id) =>
      if NormalizeResourceId(id).Some? {
        DeleteResourceKeepsInv(t, NormalizeResourceId(id).value);
      }
    case GrantAdd(u, id, p) => GrantOpsKeepInv(t, u, id, p);
    case GrantRemove(u, id, p) => GrantOpsKeepInv(t, u, id, p);
  }

  lemma StepKeepsInv(cfg: Config, t: DB, call: Call)
    requires Inv(t)
    ensures Inv(Next(cfg, t, call))
  {
    if call.op.Setup? || call.op.Login? || call.op.Register? || call.op.MePassword? {
      PublicStepKeepsInv(cfg, t, call);
    } else if call.op.Admin? {
      GateNeedsUser(cfg, t, call.now, call.op.bearer);
      if ApiAdmin(cfg, t, call.now, call.op.bearer).Ok? {
        AdminStepKeepsInv(t, call.now, ApiAdmin(cfg, t, call.now, call.op.bearer).value, call.op.request);
      }
    } else {
      RegistryStepKeepsInv(cfg, t, call);
    }
  }

  /** No call empties the user table. */
  lemma StepKeepsUsers(cfg: Config, t: DB, call: Call)
    requires Inv(t) && t.users != map[]
    ensures Next(cfg, t, call).users != map[]
  {
    if call.op.Admin? && call.op.request.UsersDelete? {
      DeleteKeepsInv(t, call.op.request.name);
    } else {
      var u :| u in t.users;
      StepOnRow(cfg, t, call, u);
    }
  }

  lemma {:induction false} RunKeepsInv(cfg: Config, t: DB, calls: seq<Call>)
    requires Inv(t)
    ensures Inv(Run(cfg, t, calls))
    decreases |calls|
  {
    if calls != [] {
      StepKeepsInv(cfg, t, calls[0]);
      RunKeepsInv(cfg, Next(cfg, t, calls[0]), calls[1..]);
    }
  }

  /** From empty tables, in every reachable state: an admin exists once users do, and registration needs users. */
  lemma ReachableStates(cfg: Config, calls: seq<Call>)
    ensures var t := Run(cfg, EMPTY, calls);
            && (t.users != map[] ==> exists a :: a in t.users && t.users[a].isAdmin)
            && (Tables.RegistrationOpen(t) ==> t.users != map[])
            && (forall g | g in t.grants :: g.username in t.users && g.resourceId in t.resources)
            && (forall id | id in t.resources :: Canonical(id))
  {
    RunKeepsInv(cfg, EMPTY, calls);
    var t := Run(cfg, EMPTY, calls);
    if t.users != map[] {
      var a :| a in Admins(t);
      assert a in t.users && t.users[a].isAdmin;
    }
  }

  // ---------- setup ----------

  predicate SetupTakesEffect(cfg: Config, t: DB, call: Call) {
    call.op.Setup? && Next(cfg, t, call) != t
  }

  function Setups(cfg: Config, t: DB, calls: seq<Call>): nat
    decreases |calls|
  {
    if calls == [] then 0
    else (if SetupTakesEffect(cfg, t, calls[0]) then 1 else 0) + Setups(cfg, Next(cfg, t, calls[0]), calls[1..])
  }

  lemma {:induction false} NoSetupOnceUsersExist(cfg: Config, t: DB, calls: seq<Call>)
    requires Inv(t) && t.users != map[]
    ensures Setups(cfg, t, calls) == 0
    decreases |calls|
  {
    if calls != [] {
      StepKeepsInv(cfg, t, calls[0]);
      StepKeepsUsers(cfg, t, calls[0]);
      NoSetupOnceUsersExist(cfg, Next(cfg, t, calls[0]), calls[1..]);
    }
  }

  /** In a whole run setup takes effect at most once, and it answers 201 only when it does. */
  lemma {:induction false} SetupAtMostOnce(cfg: Config, t: DB, calls: seq<Call>)
    requires Inv(t)
    ensures Setups(cfg, t, calls) <= 1
    decreases |calls|
  {
    if calls != [] {
      var t' := Next(cfg, t, calls[0]);
      StepKeepsInv(cfg, t, calls[0]);
      if SetupTakesEffect(cfg, t, calls[0]) {
        SetupAnswersCreatedOnlyWhenItTakesEffect(cfg, t, calls[0]);
        NoSetupOnceUsersExist(cfg, t', calls[1..]);
      } else {
        SetupAtMostOnce(cfg, t', calls[1..]);
      }
    }
  }

  lemma SetupAnswersCreatedOnlyWhenItTakesEffect(cfg: Config, t: DB, call: Call)
    requires call.op.Setup?
    ensures ReplyTo(cfg, t, call).status == 201 ==> SetupTakesEffect(cfg, t, call)
    ensures SetupTakesEffect(cfg, t, call)
            ==> t.users == map[] && IsAdmin(Next(cfg, t, call), call.op.username)
                && !Tables.RegistrationOpen(Next(cfg, t, call))
  {
  }
}
