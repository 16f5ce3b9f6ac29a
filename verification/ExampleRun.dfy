/**
 A small reachable state, an admin and one other user, and the admin's requests on it: the stage for the
 counterexamples. Its names and password are parameters; SomeCast is one choice of them.
 */
module ExampleRun {
  import opened GoStrings
  import opened Tables
  import opened Service
  import opened ControlPlane

  datatype Cast = Cast(admin: string, user: string, password: string)

  predicate ValidCast(c: Cast) {
    ValidUsername(c.admin) && ValidUsername(c.user) && c.admin != c.user && ValidPassword(c.password)
  }

  function SomeCast(): Cast {
    Cast("root", "bob", seq(12, _ => 'x'))
  }

  lemma CastIsValid()
    ensures ValidCast(SomeCast())
  {
    AsciiUtf8Len(SomeCast().password);
    assert |SomeCast().admin| != |SomeCast().user|;
  }

  const CONFIG := Config("issuer", "audience", 100 * NANOS)

  function Carried(isAdmin: bool): seq<ResourceEntry> {
    if isAdmin then [ResourceEntry(WILDCARD, WILDCARD_PERMISSIONS)] else []
  }

  /** What is minted at time 0 for a row of version 0 while there are no resources. */
  function FirstToken(name: string, isAdmin: bool): Claims {
    Claims(name, "issuer", "audience", 100, name, name, Carried(isAdmin), 0)
  }

  function SetupCall(c: Cast): Call {
    Call(0, Setup(c.admin, c.password, c.admin, "h"))
  }

  function AsAdmin(c: Cast, request: AdminOp): Call {
    Call(0, Admin(Some(FirstToken(c.admin, true)), request))
  }

  function CreateUser(c: Cast, isAdmin: bool): Call {
    AsAdmin(c, UsersCreate(c.user, c.password, c.user, isAdmin, "h"))
  }

  function ChangePassword(c: Cast): Call {
    AsAdmin(c, UsersSetPassword(c.user, c.password, "h2"))
  }

  function DropUser(c: Cast): Call {
    AsAdmin(c, UsersDelete(c.user))
  }

  function DemoteUser(c: Cast): Call {
    AsAdmin(c, UsersSetAdmin(c.user, false))
  }

  function LogUserIn(c: Cast): Call {
    Call(0, Login(c.user, c.password, true))
  }

  /** First setup, then the admin creates the user, who logs in. */
  function Opening(c: Cast, isAdmin: bool): seq<Call> {
    [SetupCall(c), CreateUser(c, isAdmin), LogUserIn(c)]
  }

  function NewRow(name: string, isAdmin: bool): User {
    User(name, "h", isAdmin, 0, 0, 0)
  }

  function ChangedRow(name: string, isAdmin: bool): User {
    User(name, "h2", isAdmin, 1, 0, 0)
  }

  /** The tables with the admin, and the user if there is one. */
  function State(c: Cast, user: Option<User>): DB {
    var alone := map[c.admin := NewRow(c.admin, true)];
    EMPTY.(users := if user.Some? then alone[c.user := user.value] else alone,
           config := map[REGISTRATION_OPEN := "false"])
  }

  /** The admin's requests pass the gate. */
  lemma AdminIsServed(c: Cast, user: Option<User>, request: AdminOp)
    requires ValidCast(c)
    ensures Handle(CONFIG, State(c, user), 0, AsAdmin(c, request).op)
         == HandleAdmin(State(c, user), 0, FirstToken(c.admin, true), request)
  {
    PlainName(c.admin);
    assert ApiAdmin(CONFIG, State(c, user), 0, Some(FirstToken(c.admin, true))) == Ok(FirstToken(c.admin, true));
  }

  lemma SetupCreatesTheAdmin(c: Cast)
    requires ValidCast(c)
    ensures Next(CONFIG, EMPTY, SetupCall(c)) == State(c, None)
    ensures ReplyTo(CONFIG, EMPTY, SetupCall(c)) == Http(201, Some(FirstToken(c.admin, true)))
  {
    PlainName(c.admin);
    TokenOfTheAdmin(c);
  }

  lemma TokenOfTheAdmin(c: Cast)
    requires ValidCast(c)
    ensures MintFor(CONFIG, State(c, None), 0, c.admin, c.admin) == Ok(Minted(FirstToken(c.admin, true), 100, 100_000))
  {
    PlainName(c.admin);
    assert OrderBy(State(c, None).resources.Keys) == [];
    assert FullEntries(OrderBy(State(c, None).resources.Keys)) + Carried(true) == Carried(true);
  }

  lemma UserIsCreated(c: Cast, isAdmin: bool)
    requires ValidCast(c)
    ensures Next(CONFIG, State(c, None), CreateUser(c, isAdmin)) == State(c, Some(NewRow(c.user, isAdmin)))
  {
    AdminIsServed(c, None, CreateUser(c, isAdmin).op.request);
    PlainName(c.user);
  }

  lemma PasswordRequest(c: Cast, row: User)
    requires ValidCast(c)
    ensures HandleUsersSetPassword(State(c, Some(row)), 0, c.user, c.password, "h2")
         == (State(c, Some(row.(argon2id := "h2", updated := 0, tokenVersion := row.tokenVersion + 1))), Status(200))
  {
    PlainName(c.user);
    var row' := row.(argon2id := "h2", updated := 0, tokenVersion := row.tokenVersion + 1);
    assert State(c, Some(row)).users[c.user := row'] == State(c, Some(row')).users;
  }

  lemma PasswordIsChanged(c: Cast, row: User)
    requires ValidCast(c)
    ensures Next(CONFIG, State(c, Some(row)), ChangePassword(c))
         == State(c, Some(row.(argon2id := "h2", updated := 0, tokenVersion := row.tokenVersion + 1)))
    ensures ReplyTo(CONFIG, State(c, Some(row)), ChangePassword(c)) == Status(200)
  {
    AdminIsServed(c, Some(row), ChangePassword(c).op.request);
    PasswordRequest(c, row);
  }

  lemma UserIsDemoted(c: Cast)
    requires ValidCast(c)
    ensures Next(CONFIG, State(c, Some(NewRow(c.user, true))), DemoteUser(c))
         == State(c, Some(NewRow(c.user, false).(tokenVersion := 1)))
  {
    AdminIsServed(c, Some(NewRow(c.user, true)), DemoteUser(c).op.request);
    DemotionRequest(c);
  }

  lemma DemotionRequest(c: Cast)
    requires ValidCast(c)
    ensures HandleUsersSetAdmin(State(c, Some(NewRow(c.user, true))), 0, c.user, false).0
         == State(c, Some(NewRow(c.user, false).(tokenVersion := 1)))
  {
    PlainName(c.user);
    var t, row := State(c, Some(NewRow(c.user, true))), NewRow(c.user, false).(tokenVersion := 1);
    assert Admins(t) == {c.admin, c.user};
    assert t.users[c.user := row] == State(c, Some(row)).users;
  }

  lemma UserIsDeleted(c: Cast, row: User)
    requires ValidCast(c)
    ensures Next(CONFIG, State(c, Some(row)), DropUser(c)) == State(c, None)
  {
    AdminIsServed(c, Some(row), DropUser(c).op.request);
    PlainName(c.user);
    if row.isAdmin { assert Admins(State(c, Some(row))) == {c.admin, c.user}; }
    assert State(c, Some(row)).users - {c.user} == State(c, None).users;
  }

  lemma OpeningReaches(c: Cast, isAdmin: bool)
    requires ValidCast(c)
    ensures Run(CONFIG, EMPTY, Opening(c, isAdmin)) == State(c, Some(NewRow(c.user, isAdmin)))
  {
    assert Opening(c, isAdmin) == [SetupCall(c)] + ([CreateUser(c, isAdmin)] + ([LogUserIn(c)] + []));
    RunAfter(CONFIG, EMPTY, SetupCall(c), [CreateUser(c, isAdmin)] + ([LogUserIn(c)] + []));
    SetupCreatesTheAdmin(c);
    RunAfterCreate(c, isAdmin, [LogUserIn(c)] + []);
    RunAfter(CONFIG, State(c, Some(NewRow(c.user, isAdmin))), LogUserIn(c), []);
    UserLogsIn(c, isAdmin);
  }

  lemma UserLogsIn(c: Cast, isAdmin: bool)
    requires ValidCast(c)
    ensures var t := State(c, Some(NewRow(c.user, isAdmin)));
            && Next(CONFIG, t, LogUserIn(c)) == t
            && ReplyTo(CONFIG, t, LogUserIn(c)) == Http(200, Some(FirstToken(c.user, isAdmin)))
  {
    PlainName(c.user);
    FirstTokenIsMinted(c, isAdmin);
  }

  /** The admin has the token of first setup, the user that of the login: calls that present no others are honest. */
  lemma OpeningIsHonest(c: Cast, isAdmin: bool, rest: seq<Call>)
    requires ValidCast(c)
    requires forall call | call in rest && BearerOf(call.op).Some? ::
               BearerOf(call.op).value in {FirstToken(c.admin, true), FirstToken(c.user, isAdmin)}
    ensures Honest(CONFIG, EMPTY, Opening(c, isAdmin) + rest, {})
  {
    var admins, all := {FirstToken(c.admin, true)}, {FirstToken(c.admin, true), FirstToken(c.user, isAdmin)};
    var last, middle := [LogUserIn(c)] + rest, [CreateUser(c, isAdmin)] + ([LogUserIn(c)] + rest);
    var t := State(c, Some(NewRow(c.user, isAdmin)));
    HeldTokensAreHonest(CONFIG, t, rest, all);
    UserLogsIn(c, isAdmin);
    HonestAfter(CONFIG, t, LogUserIn(c), rest, admins, all);
    UserIsCreated(c, isAdmin);
    HonestAfter(CONFIG, State(c, None), CreateUser(c, isAdmin), last, admins, admins);
    SetupCreatesTheAdmin(c);
    HonestAfter(CONFIG, EMPTY, SetupCall(c), middle, {}, admins);
    assert Opening(c, isAdmin) + rest == [SetupCall(c)] + middle;
  }

  /** The user's first token carries the wildcard exactly for an admin. */
  lemma FirstTokenIsMinted(c: Cast, isAdmin: bool)
    requires ValidCast(c)
    ensures MintFor(CONFIG, State(c, Some(NewRow(c.user, isAdmin))), 0, c.user, c.user)
         == Ok(Minted(FirstToken(c.user, isAdmin), 100, 100_000))
  {
    var t := State(c, Some(NewRow(c.user, isAdmin)));
    PlainName(c.user);
    if isAdmin {
      assert OrderBy(t.resources.Keys) == [];
      assert FullEntries(OrderBy(t.resources.Keys)) + Carried(true) == Carried(true);
    } else {
      var grants := Tables.GrantsFor(t, c.user);
      assert grants.Keys == {};
      assert OrderBy(grants.Keys) == [];
      assert Entries(OrderBy(grants.Keys), grants) == [];
    }
    assert EffectiveResources(t, c.user) == Some(Carried(isAdmin));
  }

  /** The user's first token on any row of the user. */
  lemma FirstTokenOn(c: Cast, wasAdmin: bool, row: User)
    requires ValidCast(c)
    ensures var token := FirstToken(c.user, wasAdmin);
            VerifyAuthn(CONFIG, State(c, Some(row)), 0, token)
            == if row.tokenVersion == 0 then Ok(token) else Err(Revoked)
    ensures IsAdmin(State(c, Some(row)), c.user) == row.isAdmin
  {
    PlainName(c.user);
  }

  // ---------- runs that begin with one of these calls ----------

  lemma RunAfter(cfg: Config, t: DB, call: Call, rest: seq<Call>)
    ensures Run(cfg, t, [call] + rest) == Run(cfg, Next(cfg, t, call), rest)
  {
    assert ([call] + rest)[1..] == rest;
  }

  lemma RunAfterChange(c: Cast, isAdmin: bool, rest: seq<Call>)
    requires ValidCast(c)
    ensures Run(CONFIG, State(c, Some(NewRow(c.user, isAdmin))), [ChangePassword(c)] + rest)
         == Run(CONFIG, State(c, Some(ChangedRow(c.user, isAdmin))), rest)
  {
    RunAfter(CONFIG, State(c, Some(NewRow(c.user, isAdmin))), ChangePassword(c), rest);
    PasswordIsChanged(c, NewRow(c.user, isAdmin));
  }

  lemma RunAfterDrop(c: Cast, row: User, rest: seq<Call>)
    requires ValidCast(c)
    ensures Run(CONFIG, State(c, Some(row)), [DropUser(c)] + rest) == Run(CONFIG, State(c, None), rest)
  {
    RunAfter(CONFIG, State(c, Some(row)), DropUser(c), rest);
    UserIsDeleted(c, row);
  }

  lemma RunAfterCreate(c: Cast, isAdmin: bool, rest: seq<Call>)
    requires ValidCast(c)
    ensures Run(CONFIG, State(c, None), [CreateUser(c, isAdmin)] + rest)
         == Run(CONFIG, State(c, Some(NewRow(c.user, isAdmin))), rest)
  {
    RunAfter(CONFIG, State(c, None), CreateUser(c, isAdmin), rest);
    UserIsCreated(c, isAdmin);
  }
}
