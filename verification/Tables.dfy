/**
 The control plane's four tables as values, and each statement the store runs on
 them as a function: primary keys are map keys, the grants table is a set of rows,
 ON DELETE CASCADE is a set difference.
 */
module Tables {
  import opened GoStrings

  datatype User = User(
    displayName: string, argon2id: string, isAdmin: bool, tokenVersion: nat, created: int, updated: int)

  datatype Resource = Resource(name: string, created: int)

  datatype Grant = Grant(username: string, resourceId: string, permission: string)

  datatype DB = DB(
    users: map<string, User>, resources: map<string, Resource>, grants: set<Grant>, config: map<string, string>)

  const EMPTY := DB(map[], map[], {}, map[])

  datatype StoreError =
    | EmptyUsername | InvalidUsername | UserExists | UserNotFound
    | EmptyResourceId | EmptyPermission | ForeignKeyViolation

  const PERMISSIONS: set<string> := {"read", "write", "owner", "admin", "obliterate", "migrate"}

  const REGISTRATION_OPEN := "registration_open"

  // ---------- identifiers ----------

  function NormalizeUsername(username: string): string {
    ToLower(TrimSpace(username))
  }

  predicate UsernameChar(c: char) {
    'a' <= c <= 'z' || '0' <= c <= '9' || c == '.' || c == '_' || c == '-'
  }

  predicate ValidUsername(norm: string) {
    1 <= |norm| <= 64 && forall c | c in norm :: UsernameChar(c)
  }

  function ValidateUsername(username: string): Result<string, StoreError> {
    var norm := NormalizeUsername(username);
    if norm == "" then Err(EmptyUsername)
    else if !ValidUsername(norm) then Err(InvalidUsername)
    else Ok(norm)
  }

  /** Normal forms are trimmed, hold no ASCII capital and are their own normal forms; padding and case do not matter. */
  lemma NormalForms(username: string)
    ensures var norm := NormalizeUsername(username);
            && Trimmed(norm) && NormalizeUsername(norm) == norm && TrimSpace(norm) == norm
            && |norm| == |TrimSpace(username)|
            && (forall i | 0 <= i < |norm| :: !('A' <= norm[i] <= 'Z'))
    ensures NormalizeUsername(TrimSpace(username)) == NormalizeUsername(username)
  {
    var norm := NormalizeUsername(username);
    TrimSpaceTrims(username);
    ToLowerFolds(TrimSpace(username));
    TrimSpaceTrims(norm);
    TrimSpaceTrims(TrimSpace(username));
  }

  /** Two names, trimmed and equal up to ASCII case, are one user's. */
  lemma CaseDoesNotMatter(a: string, b: string)
    requires Trimmed(a) && Trimmed(b) && |a| == |b|
    requires forall i | 0 <= i < |a| ::
               a[i] == b[i] || ('A' <= a[i] <= 'Z' && b[i] as int == a[i] as int - 'A' as int + 'a' as int)
    ensures NormalizeUsername(a) == NormalizeUsername(b)
  {
    TrimSpaceTrims(a);
    TrimSpaceTrims(b);
    forall i | 0 <= i < |a| ensures Lower(a[i]) == Lower(b[i]) {}
    assert ToLower(a) == ToLower(b);
  }

  /** A valid username is its own normal form. */
  lemma PlainName(name: string)
    requires ValidUsername(name)
    ensures TrimSpace(name) == name && name != ""
    ensures NormalizeUsername(name) == name && ValidateUsername(name) == Ok(name)
  {
    assert name[0] in name && name[|name| - 1] in name;
    TrimSpaceTrims(name);
    forall i | 0 <= i < |name| ensures Lower(name[i]) == name[i] {
      assert name[i] in name;
    }
  }

  predicate HexChar(c: char) {
    '0' <= c <= '9' || 'a' <= c <= 'f'
  }

  /** The form every registered resource id has: "urc-" and 32 lower-case hex digits. */
  predicate Canonical(id: string) {
    |id| == 36 && id[..4] == "urc-" && forall c | c in id[4..] :: HexChar(c)
  }

  // ---------- statements on users ----------

  function DisplayNameOr(displayName: string, norm: string): string {
    if TrimSpace(displayName) == "" then norm else displayName
  }

  function AddUser(t: DB, username: string, displayName: string, pwHash: string, isAdmin: bool, now: int)
    : Result<DB, StoreError>
  {
    match ValidateUsername(username)
    case Err(e) => Err(e)
    case Ok(norm) =>
      if norm in t.users then Err(UserExists)
      else Ok(t.(users := t.users[norm := User(DisplayNameOr(displayName, norm), pwHash, isAdmin, 0, now, now)]))
  }

  function GetUser(t: DB, username: string): Result<User, StoreError> {
    var norm := NormalizeUsername(username);
    if norm != "" && norm in t.users then Ok(t.users[norm]) else Err(UserNotFound)
  }

  function SetPassword(t: DB, username: string, pwHash: string, now: int): Result<DB, StoreError> {
    match ValidateUsername(username)
    case Err(e) => Err(e)
    case Ok(norm) =>
      if norm !in t.users then Err(UserNotFound)
      else
        var u := t.users[norm];
        Ok(t.(users := t.users[norm := u.(argon2id := pwHash, updated := now, tokenVersion := u.tokenVersion + 1)]))
  }

  function SetAdmin(t: DB, username: string, isAdmin: bool, now: int): Result<DB, StoreError> {
    match ValidateUsername(username)
    case Err(e) => Err(e)
    case Ok(norm) =>
      if norm !in t.users then Err(UserNotFound)
      else
        var u := t.users[norm];
        Ok(t.(users := t.users[norm := u.(isAdmin := isAdmin, updated := now, tokenVersion := u.tokenVersion + 1)]))
  }

  function DeleteUser(t: DB, username: string): Result<DB, StoreError> {
    match ValidateUsername(username)
    case Err(e) => Err(e)
    case Ok(norm) =>
      if norm !in t.users then Err(UserNotFound)
      else Ok(t.(users := t.users - {norm}, grants := set g | g in t.grants && g.username != norm))
  }

  /** The flag tells whether this call created the first user. */
  function CreateFirstAdmin(t: DB, username: string, displayName: string, pwHash: string, now: int)
    : Result<(DB, bool), StoreError>
  {
    match ValidateUsername(username)
    case Err(e) => Err(e)
    case Ok(norm) =>
      if t.users != map[] then Ok((t, false))
      else
        var u := User(DisplayNameOr(displayName, norm), pwHash, true, 0, now, now);
        Ok((t.(users := t.users[norm := u], config := t.config[REGISTRATION_OPEN := "false"]), true))
  }

  function Admins(t: DB): set<string> {
    set u | u in t.users && t.users[u].isAdmin
  }

  // ---------- statements on resources and grants ----------

  function UpsertResource(t: DB, resourceId: string, name: string, now: int): Result<DB, StoreError> {
    var id := TrimSpace(resourceId);
    if id == "" then Err(EmptyResourceId)
    else
      var created := if id in t.resources then t.resources[id].created else now;
      Ok(t.(resources := t.resources[id := Resource(name, created)]))
  }

  function DeleteResource(t: DB, resourceId: string): Result<DB, StoreError> {
    var id := TrimSpace(resourceId);
    if id == "" then Err(EmptyResourceId)
    else Ok(t.(resources := t.resources - {id}, grants := set g | g in t.grants && g.resourceId != id))
  }

  /** INSERT OR IGNORE skips a row that repeats a key or fails the permission CHECK, but not one without its parents. */
  function AddGrant(t: DB, username: string, resourceId: string, permission: string): Result<DB, StoreError> {
    var norm, id, perm := NormalizeUsername(username), TrimSpace(resourceId), TrimSpace(permission);
    if norm == "" then Err(UserNotFound)
    else if id == "" then Err(EmptyResourceId)
    else if perm == "" then Err(EmptyPermission)
    else if perm !in PERMISSIONS || Grant(norm, id, perm) in t.grants then Ok(t)
    else if norm !in t.users || id !in t.resources then Err(ForeignKeyViolation)
    else Ok(t.(grants := t.grants + {Grant(norm, id, perm)}))
  }

  const OWNER_PERMISSIONS := ["owner", "read", "write"]

  /** Grants the listed permissions in order and stops at the first error, keeping what was granted before it. */
  function GrantAll(t: DB, username: string, resourceId: string, perms: seq<string>): (DB, Option<StoreError>)
    decreases |perms|
  {
    if perms == [] then (t, None)
    else
      match AddGrant(t, username, resourceId, perms[0])
      case Err(e) => (t, Some(e))
      case Ok(t') => GrantAll(t', username, resourceId, perms[1..])
  }

  function GrantOwner(t: DB, username: string, resourceId: string): (DB, Option<StoreError>) {
    GrantAll(t, username, resourceId, OWNER_PERMISSIONS)
  }

  function RemoveGrant(t: DB, username: string, resourceId: string, permission: string): DB {
    t.(grants := t.grants - {Grant(NormalizeUsername(username), TrimSpace(resourceId), TrimSpace(permission))})
  }

  function GrantedIds(t: DB, norm: string): set<string> {
    set g | g in t.grants && g.username == norm :: g.resourceId
  }

  function PermissionsOn(t: DB, norm: string, id: string): set<string> {
    set g | g in t.grants && g.username == norm && g.resourceId == id :: g.permission
  }

  function GrantsFor(t: DB, username: string): map<string, seq<string>> {
    var norm := NormalizeUsername(username);
    if norm == "" then map[]
    else map id | id in GrantedIds(t, norm) :: OrderBy(PermissionsOn(t, norm, id))
  }

  // ---------- config ----------

  predicate RegistrationOpen(t: DB) {
    REGISTRATION_OPEN in t.config && t.config[REGISTRATION_OPEN] == "true"
  }

  function SetRegistrationOpen(t: DB, open: bool): DB {
    t.(config := t.config[REGISTRATION_OPEN := if open then "true" else "false"])
  }

  /** Setting the switch is what opens or closes registration. */
  lemma SwitchDecides(t: DB, open: bool)
    ensures RegistrationOpen(SetRegistrationOpen(t, open)) <==> open
    ensures SetRegistrationOpen(t, open).(config := t.config) == t
  {
  }

  // ---------- what the statements keep ----------

  /** The schema's constraints: user keys are valid, each grant row has both its parents and a checked permission. */
  ghost predicate SchemaHolds(t: DB) {
    && (forall u | u in t.users :: ValidUsername(u))
    && (forall g | g in t.grants ::
          g.username in t.users && g.resourceId in t.resources && g.permission in PERMISSIONS)
  }

  /** A row-level write of users or grants keeps the schema constraints; DELETEs cascade. */
  lemma UserStatementsKeepSchema(t: DB, username: string, text: string, pwHash: string, flag: bool, now: int)
    requires SchemaHolds(t)
    ensures AddUser(t, username, text, pwHash, flag, now).Ok?
            ==> SchemaHolds(AddUser(t, username, text, pwHash, flag, now).value)
    ensures SetPassword(t, username, pwHash, now).Ok? ==> SchemaHolds(SetPassword(t, username, pwHash, now).value)
    ensures SetAdmin(t, username, flag, now).Ok? ==> SchemaHolds(SetAdmin(t, username, flag, now).value)
    ensures DeleteUser(t, username).Ok? ==> SchemaHolds(DeleteUser(t, username).value)
    ensures CreateFirstAdmin(t, username, text, pwHash, now).Ok?
            ==> SchemaHolds(CreateFirstAdmin(t, username, text, pwHash, now).value.0)
  {
  }

  lemma ResourceStatementsKeepSchema(t: DB, username: string, id: string, text: string, now: int)
    requires SchemaHolds(t)
    ensures UpsertResource(t, id, text, now).Ok? ==> SchemaHolds(UpsertResource(t, id, text, now).value)
    ensures DeleteResource(t, id).Ok? ==> SchemaHolds(DeleteResource(t, id).value)
    ensures AddGrant(t, username, id, text).Ok? ==> SchemaHolds(AddGrant(t, username, id, text).value)
    ensures SchemaHolds(RemoveGrant(t, username, id, text))
  {
  }

  /** DeleteUser removes one user and exactly that user's grants. */
  lemma DeleteUserRemovesExactlyTheDependents(t: DB, username: string)
    requires SchemaHolds(t) && DeleteUser(t, username).Ok?
    ensures var norm, t' := NormalizeUsername(username), DeleteUser(t, username).value;
            && norm !in t'.users
            && (forall g :: g in t'.grants <==> g in t.grants && g.username != norm)
            && (forall u | NormalizeUsername(u) != norm :: GrantsFor(t', u) == GrantsFor(t, u))
            && (forall u | u in t.users && u != norm :: u in t'.users && t'.users[u] == t.users[u])
            && t'.resources == t.resources && t'.config == t.config
  {
    var norm, t' := NormalizeUsername(username), DeleteUser(t, username).value;
    forall u | NormalizeUsername(u) != norm ensures GrantsFor(t', u) == GrantsFor(t, u) {
      var v := NormalizeUsername(u);
      assert GrantedIds(t', v) == GrantedIds(t, v);
      forall id ensures PermissionsOn(t', v, id) == PermissionsOn(t, v, id) {}
    }
  }

  /** DeleteResource removes one resource and exactly the grants on it. */
  lemma DeleteResourceRemovesExactlyTheDependents(t: DB, resourceId: string)
    requires SchemaHolds(t) && DeleteResource(t, resourceId).Ok?
    ensures var id, t' := TrimSpace(resourceId), DeleteResource(t, resourceId).value;
            && id !in t'.resources
            && (forall u :: PermissionsOn(t', u, id) == {})
            && (forall u, r | r != id :: PermissionsOn(t', u, r) == PermissionsOn(t, u, r))
            && (forall r | r in t.resources && r != id :: r in t'.resources && t'.resources[r] == t.resources[r])
            && t'.users == t.users && t'.config == t.config
  {
    var id, t' := TrimSpace(resourceId), DeleteResource(t, resourceId).value;
    forall u, r | r != id ensures PermissionsOn(t', u, r) == PermissionsOn(t, u, r) {}
  }
}
