/**
 The handlers as they run: each drives the store's methods in sequence, and each is
 proved to be the step of the same name in ControlPlane.
 */
module Server {
  import opened GoStrings
  import opened Tables
  import opened StoreModule
  import opened ResourceIds
  import opened Service
  import opened ControlPlane

  class AuthServer {
    const cfg: Config
    const store: Store

    constructor (cfg: Config, store: Store)
      ensures this.cfg == cfg && this.store == store
    {
      this.cfg, this.store := cfg, store;
    }

    method Setup(now: int, username: string, password: string, displayName: string, pwHash: string)
      returns (reply: Reply)
      modifies store
      ensures (store.Contents(), reply)
           == HandleSetup(cfg, old(store.Contents()), now, username, password, displayName, pwHash)
    {
      if !ValidPassword(password) { return Status(400); }
      var created := store.CreateFirstAdmin(username, displayName, pwHash, now / NANOS);
      if created.Err? { return Status(400); }
      if !created.value { return Status(409); }
      reply := MintReply(cfg, store.Contents(), now, NormalizeUsername(username), "", 201);
    }

    method Register(now: int, username: string, password: string, pwHash: string) returns (reply: Reply)
      modifies store
      ensures (store.Contents(), reply) == HandleRegister(cfg, old(store.Contents()), now, username, password, pwHash)
    {
      if !Tables.RegistrationOpen(store.Contents()) { return Status(403); }
      var norm := NormalizeUsername(username);
      if Utf8Len(norm) < 3 || Utf8Len(norm) > 32 { return Status(400); }
      if !ValidPassword(password) { return Status(400); }
      var err := store.AddUser(norm, norm, pwHash, false, now / NANOS);
      if err.Some? { return Status(ErrorStatus(err.value)); }
      reply := MintReply(cfg, store.Contents(), now, norm, norm, 201);
    }

    method MePassword(now: int, claims: Claims, current: string, currentMatches: bool, next: string, pwHash: string)
      returns (reply: Reply)
      modifies store
      ensures (store.Contents(), reply)
           == HandleMePassword(old(store.Contents()), now, claims, current, currentMatches, next, pwHash)
    {
      if !ValidPassword(next) { return Status(400); }
      var hash := Tables.GetUser(store.Contents(), claims.subject);
      if hash.Err? { return Status(401); }
      if !currentMatches { return Status(401); }
      if next == current { return Status(400); }
      var err := store.SetPassword(claims.subject, pwHash, now / NANOS);
      reply := Status(if err.Some? then 500 else 200);
    }

    method UsersCreate(now: int, username: string, password: string, displayName: string, isAdmin: bool, pwHash: string)
      returns (reply: Reply)
      modifies store
      ensures (store.Contents(), reply)
           == HandleUsersCreate(old(store.Contents()), now, username, password, displayName, isAdmin, pwHash)
    {
      if !ValidPassword(password) { return Status(400); }
      var err := store.AddUser(username, displayName, pwHash, isAdmin, now / NANOS);
      if err.Some? { return Status(ErrorStatus(err.value)); }
      var u := Tables.GetUser(store.Contents(), username);
      assert u.Ok?;  // the row just inserted is there
      reply := Status(201);
    }

    method UsersDelete(name: string) returns (reply: Reply)
      modifies store
      ensures (store.Contents(), reply) == HandleUsersDelete(old(store.Contents()), name)
    {
      var u := Tables.GetUser(store.Contents(), name);
      if u.Err? { return Status(404); }
      if u.value.isAdmin {
        var n := |Admins(store.Contents())|;
        if n <= 1 { return Status(409); }
      }
      var err := store.DeleteUser(name);
      if err.Some? { return Status(if err.value.UserNotFound? then 404 else 500); }
      reply := Status(200);
    }

    method UsersSetPassword(now: int, name: string, password: string, pwHash: string) returns (reply: Reply)
      modifies store
      ensures (store.Contents(), reply) == HandleUsersSetPassword(old(store.Contents()), now, name, password, pwHash)
    {
      if !ValidPassword(password) { return Status(400); }
      var err := store.SetPassword(name, pwHash, now / NANOS);
      if err.Some? { return Status(if err.value.UserNotFound? then 404 else 500); }
      reply := Status(200);
    }

    method UsersSetAdmin(now: int, name: string, isAdmin: bool) returns (reply: Reply)
      modifies store
      ensures (store.Contents(), reply) == HandleUsersSetAdmin(old(store.Contents()), now, name, isAdmin)
    {
      if !isAdmin {
        var u := Tables.GetUser(store.Contents(), name);
        if u.Err? { return Status(404); }
        if u.value.isAdmin {
          var n := |Admins(store.Contents())|;
          if n <= 1 { return Status(409); }
        }
      }
      var err := store.SetAdmin(name, isAdmin, now / NANOS);
      if err.Some? { return Status(if err.value.UserNotFound? then 404 else 500); }
      reply := Status(200);
    }

    method ResourceCreate(now: int, claims: Claims, resourceId: string, name: string) returns (reply: Reply)
      modifies store
      ensures (store.Contents(), reply) == HandleResourceCreate(old(store.Contents()), now, claims, resourceId, name)
    {
      var id := NormalizeResourceId(resourceId);
      if id.None? { return Status(400); }
      var err := store.UpsertResource(id.value, TrimSpace(name), now / NANOS);
      if err.Some? { return Status(500); }
      err := store.GrantOwner(claims.subject, id.value);
      if err.Some? { return Status(500); }
      reply := Status(201);
    }

    method ResourceDelete(resourceId: string) returns (reply: Reply)
      modifies store
      ensures (store.Contents(), reply) == HandleResourceDelete(old(store.Contents()), resourceId)
    {
      var id := NormalizeResourceId(resourceId);
      if id.None? { return Status(400); }
      var err := store.DeleteResource(id.value);
      reply := Status(if err.Some? then 500 else 200);
    }

    method GrantAdd(username: string, resourceId: string, permission: string) returns (reply: Reply)
      modifies store
      ensures (store.Contents(), reply) == HandleGrantAdd(old(store.Contents()), username, resourceId, permission)
    {
      if !ValidPermission(permission) { return Status(400); }
      if Tables.GetUser(store.Contents(), username).Err? { return Status(404); }
      var resources, wanted, found := OrderBy(store.resources.Keys), TrimSpace(resourceId), false;
      for n := 0 to |resources|
        invariant !found && wanted !in resources[..n]
      {
        if resources[n] == wanted {
          found := true;
          break;
        }
      }
      if !found { return Status(404); }
      var err := store.AddGrant(username, resourceId, permission);
      reply := Status(if err.Some? then 500 else 201);
    }

    method GrantRemove(username: string, resourceId: string, permission: string) returns (reply: Reply)
      modifies store
      ensures (store.Contents(), reply) == HandleGrantRemove(old(store.Contents()), username, resourceId, permission)
    {
      if !ValidPermission(permission) { return Status(400); }
      store.RemoveGrant(username, resourceId, permission);
      reply := Status(200);
    }

    /** The routes behind requireAPIAdmin. */
    method ServeAdmin(now: int, bearer: Option<Claims>, request: AdminOp) returns (reply: Reply)
      modifies store
      ensures (store.Contents(), reply) == Handle(cfg, old(store.Contents()), now, Admin(bearer, request))
    {
      var gate := ApiAdmin(cfg, store.Contents(), now, bearer);
      if gate.Err? { return Status(gate.error); }
      match request
      case RegistrationToggle(open) => { store.SetRegistrationOpen(open); reply := Status(200); }
      case UsersCreate(u, p, d, a, h) => { reply := UsersCreate(now, u, p, d, a, h); }
      case UsersDelete(n) => { reply := UsersDelete(n); }
      case UsersSetPassword(n, p, h) => { reply := UsersSetPassword(now, n, p, h); }
      case UsersSetAdmin(n, a) => { reply := UsersSetAdmin(now, n, a); }
      case ResourceCreate(id, n) => { reply := ResourceCreate(now, gate.value, id, n); }
      case ResourceDelete(id) => { reply := ResourceDelete(id); }
      case GrantAdd(u, id, p) => { reply := GrantAdd(u, id, p); }
      case GrantRemove(u, id, p) => { reply := GrantRemove(u, id, p); }
    }

    // ---------- registry RPCs ----------

    method RebacCreate(now: int, bearer: Option<Claims>, resourceId: string, name: string) returns (reply: Reply)
      modifies store
      ensures (store.Contents(), reply)
           == HandleRebacCreate(cfg, old(store.Contents()), now, bearer, resourceId, name)
    {
      var creator := VerifiedCaller(cfg, store.Contents(), now, bearer);
      if creator.None? { return GrpcStatus(Unauthenticated); }
      var id := NormalizeResourceId(resourceId);
      if id.None? { return GrpcStatus(InvalidArgument); }
      var err := store.UpsertResource(id.value, name, now / NANOS);
      if err.Some? { return GrpcStatus(Internal); }
      err := store.GrantOwner(creator.value, id.value);
      if err.Some? { return GrpcStatus(Internal); }
      reply := GrpcStatus(GrpcOk);
    }

    /** Scans the caller's permissions on the resource for "owner". */
    method CallerMayDelete(caller: string, id: string) returns (may: bool)
      ensures may <==> IsAdmin(store.Contents(), caller) || Owns(store.Contents(), caller, id)
    {
      var u := Tables.GetUser(store.Contents(), caller);
      if u.Ok? && u.value.isAdmin { return true; }
      var grants := store.GrantsFor(caller);
      OwnerIsListed(store.Contents(), caller, id);
      var perms := if id in grants then grants[id] else [];
      for n := 0 to |perms|
        invariant "owner" !in perms[..n]
      {
        if perms[n] == "owner" { return true; }
      }
      return false;
    }

    method RebacDelete(now: int, bearer: Option<Claims>, resourceId: string) returns (reply: Reply)
      modifies store
      ensures (store.Contents(), reply) == HandleRebacDelete(cfg, old(store.Contents()), now, bearer, resourceId)
    {
      var caller := VerifiedCaller(cfg, store.Contents(), now, bearer);
      if caller.None? { return GrpcStatus(Unauthenticated); }
      var id := NormalizeResourceId(resourceId);
      if id.None? { return GrpcStatus(InvalidArgument); }
      var may := CallerMayDelete(caller.value, id.value);
      if !may { return GrpcStatus(PermissionDenied); }
      var err := store.DeleteResource(id.value);
      reply := GrpcStatus(if err.Some? then Internal else GrpcOk);
    }
  }

  lemma OwnerIsListed(t: DB, caller: string, id: string)
    ensures var grants := Tables.GrantsFor(t, caller);
            (id in grants && "owner" in grants[id]) <==> Owns(t, caller, id)
  {
    var norm := NormalizeUsername(caller);
    if Owns(t, caller, id) {
      assert id in GrantedIds(t, norm);
      assert "owner" in PermissionsOn(t, norm, id);
    }
  }
}
