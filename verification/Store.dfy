/**
 The store as the program holds it: four tables updated in place by one writer at a
 time. Every method is proved against the statement of the same name in Tables.
 */
module StoreModule {
  import opened GoStrings
  import opened Tables

  /** The tables after an attempt: the new ones on success, the old ones on error. */
  function Settled(before: DB, r: Result<DB, StoreError>): DB {
    match r case Ok(t) => t case Err(_) => before
  }

  function ErrorOf<T>(r: Result<T, StoreError>): Option<StoreError> {
    match r case Ok(_) => None case Err(e) => Some(e)
  }

  class Store {
    var users: map<string, User>
    var resources: map<string, Resource>
    var grants: set<Grant>
    var config: map<string, string>

    function Contents(): (t: DB)
      reads this
    {
      DB(users, resources, grants, config)
    }

    constructor ()
      ensures Contents() == EMPTY
    {
      users, resources, grants, config := map[], map[], {}, map[];
    }

    method AddUser(username: string, displayName: string, pwHash: string, isAdmin: bool, now: int)
      returns (err: Option<StoreError>)
      modifies this
      ensures var r := Tables.AddUser(old(Contents()), username, displayName, pwHash, isAdmin, now);
              err == ErrorOf(r) && Contents() == Settled(old(Contents()), r)
    {
      var v := ValidateUsername(username);
      if v.Err? { return Some(v.error); }
      var norm := v.value;
      if norm in users { return Some(UserExists); }
      users := users[norm := User(DisplayNameOr(displayName, norm), pwHash, isAdmin, 0, now, now)];
      err := None;
    }

    method SetPassword(username: string, pwHash: string, now: int) returns (err: Option<StoreError>)
      modifies this
      ensures var r := Tables.SetPassword(old(Contents()), username, pwHash, now);
              err == ErrorOf(r) && Contents() == Settled(old(Contents()), r)
    {
      var v := ValidateUsername(username);
      if v.Err? { return Some(v.error); }
      var norm := v.value;
      if norm !in users { return Some(UserNotFound); }
      var u := users[norm];
      users := users[norm := u.(argon2id := pwHash, updated := now, tokenVersion := u.tokenVersion + 1)];
      err := None;
    }

    method SetAdmin(username: string, isAdmin: bool, now: int) returns (err: Option<StoreError>)
      modifies this
      ensures var r := Tables.SetAdmin(old(Contents()), username, isAdmin, now);
              err == ErrorOf(r) && Contents() == Settled(old(Contents()), r)
    {
      var v := ValidateUsername(username);
      if v.Err? { return Some(v.error); }
      var norm := v.value;
      if norm !in users { return Some(UserNotFound); }
      var u := users[norm];
      users := users[norm := u.(isAdmin := isAdmin, updated := now, tokenVersion := u.tokenVersion + 1)];
      err := None;
    }

    method DeleteUser(username: string) returns (err: Option<StoreError>)
      modifies this
      ensures var r := Tables.DeleteUser(old(Contents()), username);
              err == ErrorOf(r) && Contents() == Settled(old(Contents()), r)
    {
      var v := ValidateUsername(username);
      if v.Err? { return Some(v.error); }
      var norm := v.value;
      if norm !in users { return Some(UserNotFound); }
      users := users - {norm};
      grants := set g | g in grants && g.username != norm;
      err := None;
    }

    method CreateFirstAdmin(username: string, displayName: string, pwHash: string, now: int)
      returns (r: Result<bool, StoreError>)
      modifies this
      ensures match Tables.CreateFirstAdmin(old(Contents()), username, displayName, pwHash, now)
              case Err(e) => r == Err(e) && Contents() == old(Contents())
              case Ok(p) => r == Ok(p.1) && Contents() == p.0
    {
      var v := ValidateUsername(username);
      if v.Err? { return Err(v.error); }
      var norm := v.value;
      if users != map[] { return Ok(false); }
      users := users[norm := User(DisplayNameOr(displayName, norm), pwHash, true, 0, now, now)];
      config := config[REGISTRATION_OPEN := "false"];
      r := Ok(true);
    }

    method UpsertResource(resourceId: string, name: string, now: int) returns (err: Option<StoreError>)
      modifies this
      ensures var r := Tables.UpsertResource(old(Contents()), resourceId, name, now);
              err == ErrorOf(r) && Contents() == Settled(old(Contents()), r)
    {
      var id := TrimSpace(resourceId);
      if id == "" { return Some(EmptyResourceId); }
      if id in resources {
        resources := resources[id := resources[id].(name := name)];
      } else {
        resources := resources[id := Resource(name, now)];
      }
      err := None;
    }

    method DeleteResource(resourceId: string) returns (err: Option<StoreError>)
      modifies this
      ensures var r := Tables.DeleteResource(old(Contents()), resourceId);
              err == ErrorOf(r) && Contents() == Settled(old(Contents()), r)
    {
      var id := TrimSpace(resourceId);
      if id == "" { return Some(EmptyResourceId); }
      resources := resources - {id};
      grants := set g | g in grants && g.resourceId != id;
      err := None;
    }

    method AddGrant(username: string, resourceId: string, permission: string) returns (err: Option<StoreError>)
      modifies this
      ensures var r := Tables.AddGrant(old(Contents()), username, resourceId, permission);
              err == ErrorOf(r) && Contents() == Settled(old(Contents()), r)
    {
      var norm := NormalizeUsername(username);
      if norm == "" { return Some(UserNotFound); }
      var id := TrimSpace(resourceId);
      if id == "" { return Some(EmptyResourceId); }
      var perm := TrimSpace(permission);
      if perm == "" { return Some(EmptyPermission); }
      if perm in PERMISSIONS && Grant(norm, id, perm) !in grants {
        if norm !in users || id !in resources { return Some(ForeignKeyViolation); }
        grants := grants + {Grant(norm, id, perm)};
      }
      err := None;
    }

    method GrantOwner(username: string, resourceId: string) returns (err: Option<StoreError>)
      modifies this
      ensures Tables.GrantOwner(old(Contents()), username, resourceId) == (Contents(), err)
    {
      var i := 0;
      while i < |OWNER_PERMISSIONS|
        invariant 0 <= i <= |OWNER_PERMISSIONS|
        invariant GrantAll(old(Contents()), username, resourceId, OWNER_PERMISSIONS)
               == GrantAll(Contents(), username, resourceId, OWNER_PERMISSIONS[i..])
      {
        err := AddGrant(username, resourceId, OWNER_PERMISSIONS[i]);
        if err.Some? { return err; }
        i := i + 1;
      }
      err := None;
    }

    method RemoveGrant(username: string, resourceId: string, permission: string)
      modifies this
      ensures Contents() == Tables.RemoveGrant(old(Contents()), username, resourceId, permission)
    {
      grants := grants - {Grant(NormalizeUsername(username), TrimSpace(resourceId), TrimSpace(permission))};
    }

    method SetRegistrationOpen(open: bool)
      modifies this
      ensures Contents() == Tables.SetRegistrationOpen(old(Contents()), open)
    {
      config := config[REGISTRATION_OPEN := if open then "true" else "false"];
    }

    /** SELECT resource_id, permission ... ORDER BY resource_id, permission. */
    method QueryGrants(norm: string) returns (rows: seq<(string, string)>)
      ensures rows == GrantRows(Contents(), norm, OrderBy(GrantedIds(Contents(), norm)))
    {
      rows := [];
      var ids := OrderBy(GrantedIds(Contents(), norm));
      for n := 0 to |ids|
        invariant rows == GrantRows(Contents(), norm, ids[..n])
      {
        GrantRowsSnoc(Contents(), norm, ids, n);
        rows := rows + RowsOf(ids[n], OrderBy(PermissionsOn(Contents(), norm, ids[n])));
      }
      assert ids[..|ids|] == ids;
    }

    /** Scans the ordered rows, appending each permission to its resource's list. */
    method GrantsFor(username: string) returns (out: map<string, seq<string>>)
      ensures out == Tables.GrantsFor(Contents(), username)
    {
      out := map[];
      var norm := NormalizeUsername(username);
      if norm == "" { return; }
      var rows := QueryGrants(norm);
      for n := 0 to |rows|
        invariant out == Grouped(rows[..n])
      {
        GroupedSnoc(rows, n);
        var (id, perm) := rows[n];
        out := out[id := (if id in out then out[id] else []) + [perm]];
      }
      assert rows[..|rows|] == rows;
      GroupingRecoversGrants(Contents(), norm);
    }
  }

  function RowsOf(id: string, perms: seq<string>): (r: seq<(string, string)>) {
    seq(|perms|, i requires 0 <= i < |perms| => (id, perms[i]))
  }

  /** One block of rows for each id, each block in permission order. */
  function GrantRows(t: DB, norm: string, ids: seq<string>): seq<(string, string)> {
    if ids == [] then []
    else
      var n := |ids| - 1;
      GrantRows(t, norm, ids[..n]) + RowsOf(ids[n], OrderBy(PermissionsOn(t, norm, ids[n])))
  }

  lemma GrantRowsSnoc(t: DB, norm: string, ids: seq<string>, n: nat)
    requires n < |ids|
    ensures GrantRows(t, norm, ids[..n + 1])
         == GrantRows(t, norm, ids[..n]) + RowsOf(ids[n], OrderBy(PermissionsOn(t, norm, ids[n])))
  {
    assert ids[..n + 1][..n] == ids[..n];
  }

  /** What the scan builds: every id with the permissions of its rows, in row order. */
  function Grouped(rows: seq<(string, string)>): map<string, seq<string>> {
    if rows == [] then map[]
    else
      var n := |rows| - 1;
      var m := Grouped(rows[..n]);
      var (id, perm) := rows[n];
      m[id := (if id in m then m[id] else []) + [perm]]
  }

  lemma GroupedSnoc(rows: seq<(string, string)>, n: nat)
    requires n < |rows|
    ensures var m, (id, perm) := Grouped(rows[..n]), rows[n];
            Grouped(rows[..n + 1]) == m[id := (if id in m then m[id] else []) + [perm]]
  {
    assert rows[..n + 1] == rows[..n] + [rows[n]];
    GroupedAppend(rows[..n], rows[n]);
  }

  lemma GroupedAppend(rows: seq<(string, string)>, row: (string, string))
    ensures var m := Grouped(rows);
            Grouped(rows + [row]) == m[row.0 := (if row.0 in m then m[row.0] else []) + [row.1]]
  {
    assert (rows + [row])[..|rows|] == rows;
  }

  lemma RowsOfSnoc(id: string, perms: seq<string>)
    requires perms != []
    ensures var n := |perms| - 1; RowsOf(id, perms) == RowsOf(id, perms[..n]) + [(id, perms[n])]
  {
  }

  lemma {:induction false} GroupedBlock(rows: seq<(string, string)>, id: string, perms: seq<string>)
    requires id !in Grouped(rows) && perms != []
    ensures Grouped(rows + RowsOf(id, perms)) == Grouped(rows)[id := perms]
    decreases |perms|
  {
    var n := |perms| - 1;
    var front := rows + RowsOf(id, perms[..n]);
    RowsOfSnoc(id, perms);
    assert rows + RowsOf(id, perms) == front + [(id, perms[n])];
    GroupedAppend(front, (id, perms[n]));
    assert perms == perms[..n] + [perms[n]];
    if n > 0 {
      GroupedBlock(rows, id, perms[..n]);
    } else {
      assert front == rows;
    }
  }

  function Listed(t: DB, norm: string, ids: seq<string>): map<string, seq<string>> {
    map id | id in ids :: OrderBy(PermissionsOn(t, norm, id))
  }

  lemma LastIsNew(ids: seq<string>)
    requires StrictlyIncreasing(ids) && ids != []
    ensures StrictlyIncreasing(ids[..|ids| - 1]) && ids[|ids| - 1] !in ids[..|ids| - 1]
  {
    LessTrichotomy(ids[|ids| - 1], ids[|ids| - 1]);
  }

  lemma GrantedIdHasRow(t: DB, norm: string, id: string)
    requires id in GrantedIds(t, norm)
    ensures OrderBy(PermissionsOn(t, norm, id)) != []
  {
    var g :| g in t.grants && g.username == norm && g.resourceId == id;
    assert g.permission in OrderBy(PermissionsOn(t, norm, id));
  }

  lemma {:induction false} GroupedRows(t: DB, norm: string, ids: seq<string>)
    requires StrictlyIncreasing(ids)
    requires forall id | id in ids :: id in GrantedIds(t, norm)
    ensures Grouped(GrantRows(t, norm, ids)) == Listed(t, norm, ids)
    decreases |ids|
  {
    if ids != [] {
      var n := |ids| - 1;
      LastIsNew(ids);
      GroupedRows(t, norm, ids[..n]);
      GrantedIdHasRow(t, norm, ids[n]);
      GroupedBlock(GrantRows(t, norm, ids[..n]), ids[n], OrderBy(PermissionsOn(t, norm, ids[n])));
      ListedSnoc(t, norm, ids);
    }
  }

  lemma ListedSnoc(t: DB, norm: string, ids: seq<string>)
    requires ids != []
    ensures var n := |ids| - 1;
            Listed(t, norm, ids) == Listed(t, norm, ids[..n])[ids[n] := OrderBy(PermissionsOn(t, norm, ids[n]))]
  {
    var n := |ids| - 1;
    assert ids == ids[..n] + [ids[n]];
  }

  /** Grouping the ordered rows gives back, for every granted id, its permissions in order. */
  lemma GroupingRecoversGrants(t: DB, norm: string)
    ensures Grouped(GrantRows(t, norm, OrderBy(GrantedIds(t, norm))))
         == map id | id in GrantedIds(t, norm) :: OrderBy(PermissionsOn(t, norm, id))
  {
    GroupedRows(t, norm, OrderBy(GrantedIds(t, norm)));
  }
}
