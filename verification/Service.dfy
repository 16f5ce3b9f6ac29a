/**
 What a subject may do, and the tokens that say so: effective resources, the single
 mint site, and the verification gate with its revocation check.

 A signed token is its claims; a bearer string that this service did not sign has none.
 Times are integers in nanoseconds, expiries in whole seconds as NumericDate keeps them.
 */
module Service {
  import opened GoStrings
  import opened Tables
  import opened StoreModule

  datatype ResourceEntry = ResourceEntry(resourceId: string, permission: seq<string>)

  datatype Config = Config(issuer: string, audience: string, ttl: int)

  datatype Claims = Claims(
    subject: string, issuer: string, audience: string, expSec: int,
    name: string, preferredUsername: string, resources: seq<ResourceEntry>, tokenVersion: nat)

  datatype Minted = Minted(token: Claims, expSec: int, expMs: int)

  datatype AuthError = Rejected | SubjectNotFound | Revoked

  datatype MintError = UnknownSubject | ExpiredAtMint

  const NANOS := 1_000_000_000

  const WILDCARD := "urc-*"

  const FULL_PERMISSIONS := ["read", "write", "owner", "admin", "obliterate", "migrate"]

  const WILDCARD_PERMISSIONS := ["read", "write", "migrate", "obliterate"]

  // ---------- effective resources ----------

  function Entries(ids: seq<string>, perms: map<string, seq<string>>): (r: seq<ResourceEntry>)
    requires forall id | id in ids :: id in perms
  {
    seq(|ids|, i requires 0 <= i < |ids| => ResourceEntry(ids[i], perms[ids[i]]))
  }

  function FullEntries(ids: seq<string>): seq<ResourceEntry> {
    seq(|ids|, i requires 0 <= i < |ids| => ResourceEntry(ids[i], FULL_PERMISSIONS))
  }

  /** None for a subject without a row: callers must not mint for it. */
  function EffectiveResources(t: DB, username: string): Option<seq<ResourceEntry>> {
    match Tables.GetUser(t, username)
    case Err(_) => None
    case Ok(u) =>
      if u.isAdmin then
        Some(FullEntries(OrderBy(t.resources.Keys)) + [ResourceEntry(WILDCARD, WILDCARD_PERMISSIONS)])
      else
        var grants := Tables.GrantsFor(t, username);
        Some(Entries(OrderBy(grants.Keys), grants))
  }

  lemma FullEntriesSnoc(ids: seq<string>, n: nat)
    requires n < |ids|
    ensures FullEntries(ids[..n + 1]) == FullEntries(ids[..n]) + [ResourceEntry(ids[n], FULL_PERMISSIONS)]
  {
  }

  lemma EntriesSnoc(ids: seq<string>, n: nat, perms: map<string, seq<string>>)
    requires n < |ids| && forall id | id in ids :: id in perms
    ensures Entries(ids[..n + 1], perms) == Entries(ids[..n], perms) + [ResourceEntry(ids[n], perms[ids[n]])]
  {
  }

  method ComputeEffectiveResources(store: Store, username: string) returns (r: Option<seq<ResourceEntry>>)
    ensures r == EffectiveResources(store.Contents(), username)
  {
    var u := Tables.GetUser(store.Contents(), username);
    if u.Err? { return None; }
    var entries: seq<ResourceEntry> := [];
    if u.value.isAdmin {
      var resources := OrderBy(store.resources.Keys);
      for n := 0 to |resources|
        invariant entries == FullEntries(resources[..n])
      {
        FullEntriesSnoc(resources, n);
        entries := entries + [ResourceEntry(resources[n], FULL_PERMISSIONS)];
      }
      assert resources[..|resources|] == resources;
      entries := entries + [ResourceEntry(WILDCARD, WILDCARD_PERMISSIONS)];
      return Some(entries);
    }

    var grants := store.GrantsFor(username);
    var ids := CollectKeys(grants);
    ids := SortStrings(ids);
    SortedKeys(ids, grants.Keys);
    for n := 0 to |ids|
      invariant entries == Entries(ids[..n], grants)
    {
      EntriesSnoc(ids, n, grants);
      entries := entries + [ResourceEntry(ids[n], grants[ids[n]])];
    }
    assert ids[..|ids|] == ids;
    return Some(entries);
  }

  /** Ranging over a map visits its keys once each, in no particular order. */
  method CollectKeys(m: map<string, seq<string>>) returns (ids: seq<string>)
    ensures multiset(ids) == multiset(m.Keys)
  {
    ids := [];
    var left := m.Keys;
    while left != {}
      invariant left <= m.Keys
      invariant multiset(ids) + multiset(left) == multiset(m.Keys)
      decreases left
    {
      var id :| id in left;
      left := left - {id};
      ids := ids + [id];
    }
  }

  lemma SortedKeys(ids: seq<string>, keys: set<string>)
    requires Ascending(ids) && multiset(ids) == multiset(keys)
    ensures ids == OrderBy(keys)
    ensures forall id | id in ids :: id in keys
  {
    forall x ensures x in ids <==> x in keys {
      assert x in ids <==> x in multiset(ids);
      assert x in keys <==> x in multiset(keys);
    }
    forall i, j | 0 <= i < j < |ids| ensures ids[i] != ids[j] {
      RepeatedTwice(ids, i, j);
      assert multiset(keys)[ids[i]] <= 1;
    }
    SortedKeysAreOrdered(ids, keys);
  }

  lemma RepeatedTwice(ids: seq<string>, i: nat, j: nat)
    requires i < j < |ids|
    ensures ids[i] == ids[j] ==> multiset(ids)[ids[i]] >= 2
  {
    assert ids == ids[..i] + [ids[i]] + ids[i + 1..j] + [ids[j]] + ids[j + 1..];
  }

  predicate Lists(entries: seq<ResourceEntry>, id: string) {
    exists i | 0 <= i < |entries| :: entries[i].resourceId == id
  }

  predicate Allows(entries: seq<ResourceEntry>, id: string, permission: string) {
    exists i | 0 <= i < |entries| :: entries[i].resourceId == id && permission in entries[i].permission
  }

  /** Both kinds of list are in id order without repeats. */
  predicate InIdOrder(entries: seq<ResourceEntry>) {
    forall i, j | 0 <= i < j < |entries| :: Less(entries[i].resourceId, entries[j].resourceId)
  }

  lemma NonAdminEntryAt(t: DB, username: string, i: nat)
    requires Tables.GetUser(t, username).Ok? && !Tables.GetUser(t, username).value.isAdmin
    requires i < |EffectiveResources(t, username).value|
    ensures var e, norm := EffectiveResources(t, username).value[i], NormalizeUsername(username);
            && e.resourceId in GrantedIds(t, norm)
            && e.permission == OrderBy(PermissionsOn(t, norm, e.resourceId))
            && e.permission != []
  {
    var ids := OrderBy(Tables.GrantsFor(t, username).Keys);
    assert ids[i] in ids;
    GrantedIdHasRow(t, NormalizeUsername(username), ids[i]);
  }

  lemma NonAdminAllowsIffGranted(t: DB, username: string, id: string, p: string)
    requires Tables.GetUser(t, username).Ok? && !Tables.GetUser(t, username).value.isAdmin
    ensures Allows(EffectiveResources(t, username).value, id, p)
            <==> Grant(NormalizeUsername(username), id, p) in t.grants
  {
    var norm, es := NormalizeUsername(username), EffectiveResources(t, username).value;
    if Allows(es, id, p) {
      var i :| 0 <= i < |es| && es[i].resourceId == id && p in es[i].permission;
      NonAdminEntryAt(t, username, i);
    }
    if Grant(norm, id, p) in t.grants {
      assert id in GrantedIds(t, norm);
      var ids := OrderBy(Tables.GrantsFor(t, username).Keys);
      assert id in ids;
      var i :| 0 <= i < |ids| && ids[i] == id;
      NonAdminEntryAt(t, username, i);
    }
  }

  /** A non-admin's entries are its grant rows, no more and no less, in order and without repeats. */
  lemma NonAdminEntriesAreTheGrantRows(t: DB, username: string)
    requires Tables.GetUser(t, username).Ok? && !Tables.GetUser(t, username).value.isAdmin
    ensures EffectiveResources(t, username).Some?
    ensures var es := EffectiveResources(t, username).value;
            && (forall id, p :: Allows(es, id, p) <==> Grant(NormalizeUsername(username), id, p) in t.grants)
            && InIdOrder(es)
            && (forall i | 0 <= i < |es| :: StrictlyIncreasing(es[i].permission) && es[i].permission != [])
  {
    var es := EffectiveResources(t, username).value;
    forall id, p ensures Allows(es, id, p) <==> Grant(NormalizeUsername(username), id, p) in t.grants {
      NonAdminAllowsIffGranted(t, username, id, p);
    }
    forall i | 0 <= i < |es| ensures StrictlyIncreasing(es[i].permission) && es[i].permission != [] {
      NonAdminEntryAt(t, username, i);
    }
  }

  lemma FullEntriesListTheIds(ids: seq<string>)
    requires StrictlyIncreasing(ids)
    ensures InIdOrder(FullEntries(ids))
    ensures forall id :: Lists(FullEntries(ids), id) <==> id in ids
  {
    forall id | id in ids ensures Lists(FullEntries(ids), id) {
      var i :| 0 <= i < |ids| && ids[i] == id;
      assert FullEntries(ids)[i].resourceId == id;
    }
  }

  /** An admin's entries are every registered resource in full, in order, and then the wildcard. */
  lemma AdminEntriesAreEveryResource(t: DB, username: string) returns (repos: seq<ResourceEntry>)
    requires Tables.GetUser(t, username).Ok? && Tables.GetUser(t, username).value.isAdmin
    ensures EffectiveResources(t, username)
         == Some(repos + [ResourceEntry("urc-*", ["read", "write", "migrate", "obliterate"])])
    ensures forall id :: Lists(repos, id) <==> id in t.resources
    ensures InIdOrder(repos)
    ensures forall i | 0 <= i < |repos| ::
              repos[i].permission == ["read", "write", "owner", "admin", "obliterate", "migrate"]
  {
    FullEntriesListTheIds(OrderBy(t.resources.Keys));
    repos := FullEntries(OrderBy(t.resources.Keys));
  }

  /** A subject without a row has no effective resources, so nothing is minted for it. */
  lemma UnknownSubjectGetsNothing(cfg: Config, t: DB, now: int, username: string, name: string)
    ensures EffectiveResources(t, username).None?
            <==> (NormalizeUsername(username) == "" || NormalizeUsername(username) !in t.users)
    ensures EffectiveResources(t, username).None?
            <==> MintFor(cfg, t, now, username, name) == Err(UnknownSubject)
  {
  }

  // ---------- minting and verification ----------

  function MintFor(cfg: Config, t: DB, now: int, subject: string, displayName: string): Result<Minted, MintError> {
    match EffectiveResources(t, subject)
    case None => Err(UnknownSubject)
    case Some(entries) =>
      match Tables.GetUser(t, subject)
      case Err(_) => Err(UnknownSubject)
      case Ok(u) =>
        var expSec := (now + cfg.ttl) / NANOS;
        var name := if displayName == "" then subject else displayName;
        // The expiry is read back from the signed token, and parsing refuses a lapsed one.
        if now >= expSec * NANOS then Err(ExpiredAtMint)
        else
          Ok(Minted(
            Claims(subject, cfg.issuer, cfg.audience, expSec, name, subject, entries, u.tokenVersion),
            expSec, expSec * 1000))
  }

  function VerifyAuthnToken(cfg: Config, now: int, token: Claims): Result<Claims, AuthError> {
    if now < token.expSec * NANOS && token.issuer == cfg.issuer && token.audience == cfg.audience
       && TrimSpace(token.subject) != ""
    then Ok(token) else Err(Rejected)
  }

  function VerifyAuthn(cfg: Config, t: DB, now: int, token: Claims): Result<Claims, AuthError> {
    match VerifyAuthnToken(cfg, now, token)
    case Err(e) => Err(e)
    case Ok(claims) =>
      match Tables.GetUser(t, claims.subject)
      case Err(_) => Err(SubjectNotFound)
      case Ok(u) => if u.tokenVersion != claims.tokenVersion then Err(Revoked) else Ok(claims)
  }

  /** A freshly minted token is accepted, by anyone, until its expiry while the tables stand. */
  lemma MintedTokenVerifies(cfg: Config, t: DB, mintedAt: int, subject: string, name: string, now: int)
    requires MintFor(cfg, t, mintedAt, subject, name).Ok?
    ensures var m := MintFor(cfg, t, mintedAt, subject, name).value;
            && m.expMs == m.expSec * 1000
            && (VerifyAuthn(cfg, t, now, m.token) == Ok(m.token) <==> now < m.expSec * NANOS)
            && VerifyAuthn(cfg, t, mintedAt, m.token) == Ok(m.token)
  {
  }

  /** Where only canonical ids are granted, the wildcard entry marks exactly the admins. */
  lemma CanonicalGrantsLeaveTheWildcard(t: DB, username: string)
    requires forall g | g in t.grants :: Canonical(g.resourceId)
    requires EffectiveResources(t, username).Some?
    ensures Lists(EffectiveResources(t, username).value, WILDCARD)
            <==> Tables.GetUser(t, username).value.isAdmin
  {
    var es := EffectiveResources(t, username).value;
    if Tables.GetUser(t, username).value.isAdmin {
      assert es[|es| - 1].resourceId == WILDCARD;
    } else if Lists(es, WILDCARD) {
      var i :| 0 <= i < |es| && es[i].resourceId == WILDCARD;
      NonAdminEntryAt(t, username, i);
    }
  }

  /** Only registered ids can be granted, and those are canonical. */
  lemma WildcardMarksAdmins(t: DB, username: string)
    requires SchemaHolds(t) && forall id | id in t.resources :: Canonical(id)
    requires EffectiveResources(t, username).Some?
    ensures Lists(EffectiveResources(t, username).value, WILDCARD)
            <==> Tables.GetUser(t, username).value.isAdmin
  {
    CanonicalGrantsLeaveTheWildcard(t, username);
  }
}
