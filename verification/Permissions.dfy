/** The two permission queries: the split of a requested list, and the listing it must agree with. */
module Permissions {
  import opened GoStrings
  import opened Tables
  import opened StoreModule
  import opened Service
  import opened ControlPlane
  import opened ControlInvariants

  /** A token as it arrives: none at all, one this service did not sign, or one it did. */
  datatype Presented = Absent | Foreign | Signed(claims: Claims)

  datatype Verdicts = Verdicts(allowed: seq<ResourceEntry>, denied: seq<ResourceEntry>)

  // ---------- the lookup tables built from the entries ----------

  function ById(entries: seq<ResourceEntry>): map<string, seq<string>> {
    if entries == [] then map[]
    else
      var n := |entries| - 1;
      var m := ById(entries[..n]);
      if entries[n].resourceId == WILDCARD then m else m[entries[n].resourceId := entries[n].permission]
  }

  function WildcardOf(entries: seq<ResourceEntry>): Option<seq<string>> {
    if entries == [] then None
    else
      var n := |entries| - 1;
      if entries[n].resourceId == WILDCARD then Some(entries[n].permission) else WildcardOf(entries[..n])
  }

  /** The permissions an id gets: its own entry's, else the wildcard's, else none. */
  function PermissionsFor(entries: seq<ResourceEntry>, id: string): Option<seq<string>> {
    if id in ById(entries) then Some(ById(entries)[id]) else WildcardOf(entries)
  }

  function Split(entries: seq<ResourceEntry>, requested: seq<string>): Verdicts {
    if requested == [] then Verdicts([], [])
    else
      var n := |requested| - 1;
      var v, id := Split(entries, requested[..n]), requested[n];
      match PermissionsFor(entries, id)
      case Some(perms) => v.(allowed := v.allowed + [ResourceEntry(id, perms)])
      case None => v.(denied := v.denied + [ResourceEntry(id, [])])
  }

  method SplitRequested(entries: seq<ResourceEntry>, requested: seq<string>) returns (v: Verdicts)
    ensures v == Split(entries, requested)
  {
    var byId: map<string, seq<string>> := map[];
    var wildcard: Option<seq<string>> := None;
    for i := 0 to |entries|
      invariant byId == ById(entries[..i]) && wildcard == WildcardOf(entries[..i])
    {
      assert entries[..i + 1][..i] == entries[..i];
      if entries[i].resourceId == WILDCARD {
        wildcard := Some(entries[i].permission);
      } else {
        byId := byId[entries[i].resourceId := entries[i].permission];
      }
    }
    assert entries[..|entries|] == entries;

    v := Verdicts([], []);
    for i := 0 to |requested|
      invariant v == Split(entries, requested[..i])
    {
      assert requested[..i + 1][..i] == requested[..i];
      var id := requested[i];
      if id in byId {
        v := v.(allowed := v.allowed + [ResourceEntry(id, byId[id])]);
      } else if wildcard.Some? {
        v := v.(allowed := v.allowed + [ResourceEntry(id, wildcard.value)]);
      } else {
        v := v.(denied := v.denied + [ResourceEntry(id, [])]);
      }
    }
    assert requested[..|requested|] == requested;
  }

  // ---------- the RPCs ----------

  function Verified(cfg: Config, t: DB, now: int, token: Presented): Option<string> {
    if !token.Signed? then None
    else
      match VerifyAuthn(cfg, t, now, token.claims)
      case Err(_) => None
      case Ok(claims) => Some(claims.subject)
  }

  /** A target token, when given, is the one that is verified; a bearer must still be present. */
  function CheckSubject(cfg: Config, t: DB, now: int, bearer: Presented, target: Presented): Option<string> {
    if bearer.Absent? then None
    else if !target.Absent? then Verified(cfg, t, now, target)
    else Verified(cfg, t, now, bearer)
  }

  function EntriesOf(t: DB, subject: string): seq<ResourceEntry> {
    match EffectiveResources(t, subject) case Some(entries) => entries case None => []
  }

  /** None is Unauthenticated. */
  function CheckUserPermission(cfg: Config, t: DB, now: int, bearer: Presented, target: Presented,
                               requested: seq<string>): Option<Verdicts>
  {
    match CheckSubject(cfg, t, now, bearer, target)
    case None => None
    case Some(subject) => Some(Split(EntriesOf(t, subject), requested))
  }

  method ServeCheckUserPermission(cfg: Config, store: Store, now: int, bearer: Presented, target: Presented,
                                  requested: seq<string>) returns (r: Option<Verdicts>)
    ensures r == CheckUserPermission(cfg, store.Contents(), now, bearer, target, requested)
  {
    var subject := CheckSubject(cfg, store.Contents(), now, bearer, target);
    if subject.None? { return None; }
    var entries := ComputeEffectiveResources(store, subject.value);
    var v := SplitRequested(if entries.Some? then entries.value else [], requested);
    return Some(v);
  }

  function Matching(entries: seq<ResourceEntry>, filter: string): seq<ResourceEntry> {
    if entries == [] then []
    else
      var n := |entries| - 1;
      Matching(entries[..n], filter) + if filter <= entries[n].resourceId then [entries[n]] else []
  }

  function LookupUserPermissions(cfg: Config, t: DB, now: int, bearer: Presented, filter: string)
    : Option<seq<ResourceEntry>>
  {
    match Verified(cfg, t, now, bearer)
    case None => None
    case Some(subject) => Some(Matching(EntriesOf(t, subject), filter))
  }

  method ServeLookupUserPermissions(cfg: Config, store: Store, now: int, bearer: Presented, filter: string)
    returns (r: Option<seq<ResourceEntry>>)
    ensures r == LookupUserPermissions(cfg, store.Contents(), now, bearer, filter)
  {
    var subject := Verified(cfg, store.Contents(), now, bearer);
    if subject.None? { return None; }
    var entries := ComputeEffectiveResources(store, subject.value);
    if entries.None? { return Some([]); }
    var out := [];
    for i := 0 to |entries.value|
      invariant out == Matching(entries.value[..i], filter)
    {
      assert entries.value[..i + 1][..i] == entries.value[..i];
      if filter <= entries.value[i].resourceId {
        out := out + [entries.value[i]];
      }
    }
    assert entries.value[..|entries.value|] == entries.value;
    return Some(out);
  }

  // ---------- what the split keeps ----------

  function Ids(entries: seq<ResourceEntry>): seq<string> {
    seq(|entries|, i requires 0 <= i < |entries| => entries[i].resourceId)
  }

  /** The requested ids whose fate is `fate`, in request order and as often as requested. */
  function Pick(entries: seq<ResourceEntry>, requested: seq<string>, fate: bool): seq<string> {
    if requested == [] then []
    else
      var n := |requested| - 1;
      Pick(entries, requested[..n], fate)
      + if PermissionsFor(entries, requested[n]).Some? == fate then [requested[n]] else []
  }

  lemma {:induction false} SplitPicks(entries: seq<ResourceEntry>, requested: seq<string>)
    ensures Ids(Split(entries, requested).allowed) == Pick(entries, requested, true)
    ensures Ids(Split(entries, requested).denied) == Pick(entries, requested, false)
  {
    if requested != [] {
      var n := |requested| - 1;
      SplitPicks(entries, requested[..n]);
      var before, v := Split(entries, requested[..n]), Split(entries, requested);
      if PermissionsFor(entries, requested[n]).Some? {
        assert Ids(v.allowed) == Ids(before.allowed) + [requested[n]];
      } else {
        assert Ids(v.denied) == Ids(before.denied) + [requested[n]];
      }
    }
  }

  lemma {:induction false} PicksPartition(entries: seq<ResourceEntry>, requested: seq<string>)
    ensures multiset(Pick(entries, requested, true)) + multiset(Pick(entries, requested, false)) == multiset(requested)
  {
    if requested != [] {
      PicksPartition(entries, requested[..|requested| - 1]);
      assert requested == requested[..|requested| - 1] + [requested[|requested| - 1]];
    }
  }

  lemma {:induction false} SplitFates(entries: seq<ResourceEntry>, requested: seq<string>)
    ensures forall e | e in Split(entries, requested).allowed ::
              PermissionsFor(entries, e.resourceId) == Some(e.permission)
    ensures forall e | e in Split(entries, requested).denied ::
              PermissionsFor(entries, e.resourceId) == None && e.permission == []
  {
    if requested != [] {
      SplitFates(entries, requested[..|requested| - 1]);
    }
  }

  /** An id goes by its own fate alone; both lists keep request order, and together they are the request. */
  lemma SplitKeepsOrderAndMultiplicity(entries: seq<ResourceEntry>, requested: seq<string>)
    ensures var v := Split(entries, requested);
            && Ids(v.allowed) == Pick(entries, requested, true)
            && Ids(v.denied) == Pick(entries, requested, false)
            && multiset(Ids(v.allowed)) + multiset(Ids(v.denied)) == multiset(requested)
            && (forall e | e in v.allowed :: PermissionsFor(entries, e.resourceId) == Some(e.permission))
            && (forall e | e in v.denied :: PermissionsFor(entries, e.resourceId) == None && e.permission == [])
  {
    SplitPicks(entries, requested);
    PicksPartition(entries, requested);
    SplitFates(entries, requested);
  }

  lemma {:induction false} PickedAreRequested(entries: seq<ResourceEntry>, requested: seq<string>, id: string)
    ensures id in Pick(entries, requested, true) <==> id in requested && PermissionsFor(entries, id).Some?
    ensures id in Pick(entries, requested, false) <==> id in requested && PermissionsFor(entries, id).None?
  {
    if requested != [] {
      PickedAreRequested(entries, requested[..|requested| - 1], id);
      assert requested == requested[..|requested| - 1] + [requested[|requested| - 1]];
    }
  }

  /** Entry by entry: a requested id is allowed with exactly the permissions it is looked up to have. */
  lemma AllowedIff(entries: seq<ResourceEntry>, requested: seq<string>, e: ResourceEntry)
    requires e.resourceId in requested
    ensures e in Split(entries, requested).allowed <==> PermissionsFor(entries, e.resourceId) == Some(e.permission)
  {
    var v := Split(entries, requested);
    SplitKeepsOrderAndMultiplicity(entries, requested);
    PickedAreRequested(entries, requested, e.resourceId);
    if PermissionsFor(entries, e.resourceId) == Some(e.permission) {
      assert e.resourceId in Ids(v.allowed);
      var i :| 0 <= i < |v.allowed| && v.allowed[i].resourceId == e.resourceId;
      assert v.allowed[i] in v.allowed;
    }
  }

  lemma {:induction false} NothingDeniedUnderWildcard(entries: seq<ResourceEntry>, requested: seq<string>)
    requires WildcardOf(entries).Some?
    ensures Split(entries, requested).denied == []
  {
    if requested != [] {
      NothingDeniedUnderWildcard(entries, requested[..|requested| - 1]);
    }
  }

  /** An admin is denied nothing. */
  lemma AdminIsDeniedNothing(cfg: Config, t: DB, now: int, bearer: Presented, target: Presented, requested: seq<string>)
    requires CheckSubject(cfg, t, now, bearer, target).Some?
    requires IsAdmin(t, CheckSubject(cfg, t, now, bearer, target).value)
    ensures CheckUserPermission(cfg, t, now, bearer, target, requested).value.denied == []
  {
    var subject := CheckSubject(cfg, t, now, bearer, target).value;
    var repos := AdminEntriesAreEveryResource(t, subject);
    var entries := EntriesOf(t, subject);
    NothingDeniedUnderWildcard(entries, requested);
  }

  // ---------- agreement with the listing ----------

  lemma {:induction false} EmptyFilterListsEverything(entries: seq<ResourceEntry>)
    ensures Matching(entries, "") == entries
  {
    if entries != [] {
      EmptyFilterListsEverything(entries[..|entries| - 1]);
    }
  }

  lemma {:induction false} ByIdOfDistinct(entries: seq<ResourceEntry>, e: ResourceEntry)
    requires InIdOrder(entries) && !Lists(entries, WILDCARD)
    ensures e in entries <==> e.resourceId in ById(entries) && ById(entries)[e.resourceId] == e.permission
    ensures WildcardOf(entries) == None
    ensures e.resourceId in ById(entries) ==> Lists(entries, e.resourceId)
  {
    if entries != [] {
      var n := |entries| - 1;
      var front, last := entries[..n], entries[n];
      assert entries == front + [last];
      forall i | 0 <= i < n ensures front[i].resourceId != last.resourceId {
        assert front[i] == entries[i];
        LessTrichotomy(entries[i].resourceId, last.resourceId);
      }
      assert last.resourceId != WILDCARD;
      assert !Lists(front, WILDCARD) by {
        forall i | 0 <= i < n ensures front[i].resourceId != WILDCARD { assert entries[i] == front[i]; }
      }
      ByIdOfDistinct(front, e);
      ByIdOfDistinct(front, ResourceEntry(last.resourceId, e.permission));
      if e.resourceId in ById(front) {
        var i :| 0 <= i < |front| && front[i].resourceId == e.resourceId;
        assert entries[i].resourceId == e.resourceId;
      }
    }
  }

  /** A non-admin is allowed a requested id exactly when the unfiltered listing shows it, with the same permissions. */
  lemma NonAdminCheckAgreesWithLookup(
    cfg: Config, t: DB, now: int, bearer: Presented, requested: seq<string>, e: ResourceEntry)
    requires Inv(t)
    requires Verified(cfg, t, now, bearer).Some? && !IsAdmin(t, Verified(cfg, t, now, bearer).value)
    requires e.resourceId in requested
    ensures e in CheckUserPermission(cfg, t, now, bearer, Absent, requested).value.allowed
            <==> e in LookupUserPermissions(cfg, t, now, bearer, "").value
  {
    var subject := Verified(cfg, t, now, bearer).value;
    var entries := EntriesOf(t, subject);
    NonAdminEntriesAreTheGrantRows(t, subject);
    WildcardMarksAdmins(t, subject);
    EmptyFilterListsEverything(entries);
    ByIdOfDistinct(entries, e);
    AllowedIff(entries, requested, e);
  }

  // ---------- what a check answers, on the tables ----------

  /** An id that is listed once is looked up to its own entry, whatever the wildcard gives. */
  lemma {:induction false} ByIdOfUnique(entries: seq<ResourceEntry>, i: nat)
    requires i < |entries| && entries[i].resourceId != WILDCARD
    requires forall j | 0 <= j < |entries| && j != i :: entries[j].resourceId != entries[i].resourceId
    ensures entries[i].resourceId in ById(entries) && ById(entries)[entries[i].resourceId] == entries[i].permission
  {
    var n := |entries| - 1;
    if i < n {
      ByIdOfUnique(entries[..n], i);
    }
  }

  lemma {:induction false} ByIdOfAbsent(entries: seq<ResourceEntry>, id: string)
    requires !Lists(entries, id) || id == WILDCARD
    ensures id !in ById(entries)
  {
    if entries != [] {
      var n := |entries| - 1;
      assert entries[n].resourceId == id ==> Lists(entries, id);
      assert Lists(entries[..n], id) ==> Lists(entries, id) by {
        if Lists(entries[..n], id) {
          var i :| 0 <= i < n && entries[..n][i].resourceId == id;
          assert entries[i].resourceId == id;
        }
      }
      ByIdOfAbsent(entries[..n], id);
    }
  }

  /** An admin's registered resources carry the six permissions, and every other id the wildcard's four. */
  lemma AdminPermissionsFor(t: DB, username: string, id: string)
    requires Inv(t) && IsAdmin(t, username)
    ensures PermissionsFor(EntriesOf(t, username), id)
         == Some(if id in t.resources then ["read", "write", "owner", "admin", "obliterate", "migrate"]
                 else ["read", "write", "migrate", "obliterate"])
  {
    var repos := AdminEntriesAreEveryResource(t, username);
    var entries := EntriesOf(t, username);
    assert entries == repos + [ResourceEntry(WILDCARD, WILDCARD_PERMISSIONS)];
    assert entries[..|repos|] == repos;
    if id in t.resources {
      assert id != WILDCARD;
      var i :| 0 <= i < |repos| && repos[i].resourceId == id;
      forall j | 0 <= j < |entries| && j != i ensures entries[j].resourceId != id {
        if j < |repos| { LessTrichotomy(repos[i].resourceId, repos[j].resourceId); }
      }
      ByIdOfUnique(entries, i);
    } else {
      NotListed(entries, repos, id);
      ByIdOfAbsent(entries, id);
    }
  }

  lemma NotListed(entries: seq<ResourceEntry>, repos: seq<ResourceEntry>, id: string)
    requires entries == repos + [ResourceEntry(WILDCARD, WILDCARD_PERMISSIONS)] && !Lists(repos, id)
    ensures !Lists(entries, id) || id == WILDCARD
  {
  }

  /** The permissions of a user's grant rows on one resource, in order. */
  ghost predicate HeldOn(t: DB, norm: string, id: string, perms: seq<string>) {
    StrictlyIncreasing(perms) && forall p :: p in perms <==> Grant(norm, id, p) in t.grants
  }

  /** A non-admin has exactly the permissions of the grant rows on an id, and none without one. */
  lemma NonAdminPermissionsFor(t: DB, username: string, id: string)
    requires Inv(t) && Tables.GetUser(t, username).Ok? && !IsAdmin(t, username)
    ensures var perms, norm := PermissionsFor(EntriesOf(t, username), id), NormalizeUsername(username);
            && (perms.Some? <==> exists p :: Grant(norm, id, p) in t.grants)
            && (perms.Some? ==> HeldOn(t, norm, id, perms.value))
  {
    var entries, norm := EntriesOf(t, username), NormalizeUsername(username);
    NonAdminEntriesAreTheGrantRows(t, username);
    WildcardMarksAdmins(t, username);
    ByIdOfDistinct(entries, ResourceEntry(id, OrderBy(PermissionsOn(t, norm, id))));
    if Lists(entries, id) {
      var i :| 0 <= i < |entries| && entries[i].resourceId == id;
      NonAdminEntryAt(t, username, i);
      var p := entries[i].permission[0];
      assert p in entries[i].permission;
      assert Allows(entries, id, p);
      assert entries[i] == ResourceEntry(id, OrderBy(PermissionsOn(t, norm, id)));
      assert entries[i] in entries;
    } else {
      ByIdOfAbsent(entries, id);
      forall p ensures Grant(norm, id, p) !in t.grants { assert !Allows(entries, id, p); }
    }
  }

  /**
   What a check answers about any subject with a row, in terms of the tables alone: of an admin, every requested id is
   allowed, with six permissions if it is registered and four if not; of anyone else, exactly the ids with a grant
   row are, with just the permissions of those rows. Ids of both lists keep their order and number.
   */
  lemma CheckOnTheTables(
    cfg: Config, t: DB, now: int, bearer: Presented, target: Presented, requested: seq<string>, e: ResourceEntry)
    requires Inv(t) && CheckSubject(cfg, t, now, bearer, target).Some? && e.resourceId in requested
    ensures var v, subject := CheckUserPermission(cfg, t, now, bearer, target, requested).value,
                              CheckSubject(cfg, t, now, bearer, target).value;
            var norm := NormalizeUsername(subject);
            && (IsAdmin(t, subject) ==>
                  (e in v.allowed <==>
                     e.permission == if e.resourceId in t.resources
                                     then ["read", "write", "owner", "admin", "obliterate", "migrate"]
                                     else ["read", "write", "migrate", "obliterate"]))
            && (!IsAdmin(t, subject) ==>
                  (e in v.allowed <==>
                     HeldOn(t, norm, e.resourceId, e.permission)
                     && exists p :: Grant(norm, e.resourceId, p) in t.grants))
  {
    var subject := CheckSubject(cfg, t, now, bearer, target).value;
    var entries := EntriesOf(t, subject);
    AllowedIff(entries, requested, e);
    if IsAdmin(t, subject) {
      AdminPermissionsFor(t, subject, e.resourceId);
    } else {
      NonAdminPermissionsFor(t, subject, e.resourceId);
      var perms := PermissionsFor(entries, e.resourceId);
      if perms.Some? && HeldOn(t, NormalizeUsername(subject), e.resourceId, e.permission) {
        IncreasingListUnique(perms.value, e.permission);
      }
    }
  }

  // ---------- the filtered listing ----------

  /** A filter keeps just the entries whose id begins with it. */
  lemma {:induction false} MatchingKeeps(entries: seq<ResourceEntry>, filter: string, e: ResourceEntry)
    ensures e in Matching(entries, filter)
            <==> e in entries && |filter| <= |e.resourceId| && e.resourceId[..|filter|] == filter
  {
    if entries != [] {
      var n := |entries| - 1;
      MatchingKeeps(entries[..n], filter, e);
      assert entries == entries[..n] + [entries[n]];
    }
  }

  /** And keeps them in id order, without repeats. */
  lemma {:induction false} MatchingKeepsOrder(entries: seq<ResourceEntry>, filter: string)
    requires InIdOrder(entries)
    ensures InIdOrder(Matching(entries, filter))
  {
    if entries != [] {
      var n := |entries| - 1;
      var kept := Matching(entries[..n], filter);
      MatchingKeepsOrder(entries[..n], filter);
      forall i | 0 <= i < |kept| ensures Less(kept[i].resourceId, entries[n].resourceId) {
        MatchingKeeps(entries[..n], filter, kept[i]);
        var j :| 0 <= j < n && entries[..n][j] == kept[i];
        assert entries[j] == kept[i];
      }
    }
  }
}
