/** The repository registry: who may make a resource disappear, and what repeating a request does. */
module Registry {
  import opened GoStrings
  import opened Tables
  import opened ResourceIds
  import opened Service
  import opened ControlPlane
  import opened ExampleRun
  import opened ControlInvariants

  /** The call comes from someone entitled to remove `id` at that moment. */
  predicate MayRemove(cfg: Config, t: DB, call: Call, id: string) {
    match call.op
    case RebacDelete(b, input) =>
      && NormalizeResourceId(input) == Some(id)
      && VerifiedCaller(cfg, t, call.now, b).Some?
      && (var caller := VerifiedCaller(cfg, t, call.now, b).value; IsAdmin(t, caller) || Owns(t, caller, id))
    case Admin(b, ResourceDelete(input)) =>
      && NormalizeResourceId(input) == Some(id)
      && ApiAdmin(cfg, t, call.now, b).Ok? && IsAdmin(t, ApiAdmin(cfg, t, call.now, b).value.subject)
    case _ => false
  }

  lemma GrantAllKeepsResources(t: DB, username: string, id: string, perms: seq<string>)
    ensures GrantAll(t, username, id, perms).0.resources == t.resources
    decreases |perms|
  {
  }

  lemma RegistrationKeepsIds(t: DB, now: int, caller: string, id: string, name: string)
    ensures t.resources.Keys <= RegisterResource(t, now, caller, id, name).0.resources.Keys
  {
    var r := Tables.UpsertResource(t, id, name, now / NANOS);
    if r.Ok? { GrantAllKeepsResources(r.value, caller, id, OWNER_PERMISSIONS); }
  }

  lemma AdminRequestKeepsIds(t: DB, now: int, claims: Claims, request: AdminOp)
    requires !request.ResourceDelete?
    ensures t.resources.Keys <= HandleAdmin(t, now, claims, request).0.resources.Keys
  {
    match request
    case ResourceCreate(input, name) =>
      var id := NormalizeResourceId(input);
      if id.Some? { RegistrationKeepsIds(t, now, claims.subject, id.value, TrimSpace(name)); }
    case _ =>
  }

  lemma AdminRemovalIsEntitled(cfg: Config, t: DB, call: Call, id: string)
    requires Inv(t) && call.op.Admin?
    requires id in t.resources && id !in Next(cfg, t, call).resources
    ensures MayRemove(cfg, t, call, id)
  {
    var request, gate := call.op.request, ApiAdmin(cfg, t, call.now, call.op.bearer);
    GateNeedsUser(cfg, t, call.now, call.op.bearer);
    if !request.ResourceDelete? {
      AdminRequestKeepsIds(t, call.now, gate.value, request);
    } else if NormalizeResourceId(request.resourceId).Some? {
      CanonicalIsTrimmed(NormalizeResourceId(request.resourceId).value);
    }
  }

  lemma RemovalIsEntitled(cfg: Config, t: DB, call: Call, id: string)
    requires Inv(t)
    requires id in t.resources && id !in Next(cfg, t, call).resources
    ensures MayRemove(cfg, t, call, id)
  {
    match call.op
    case Admin(_, _) => AdminRemovalIsEntitled(cfg, t, call, id);
    case RebacCreate(b, input, name) =>
      var caller, id' := VerifiedCaller(cfg, t, call.now, b), NormalizeResourceId(input);
      if caller.Some? && id'.Some? { RegistrationKeepsIds(t, call.now, caller.value, id'.value, name); }
    case RebacDelete(b, input) =>
      if NormalizeResourceId(input).Some? { CanonicalIsTrimmed(NormalizeResourceId(input).value); }
    case _ =>
  }

  /** A resource gone at the end of a run was removed by an entitled caller at some step of it. */
  lemma {:induction false} DisappearanceHasAnEntitledStep(cfg: Config, t: DB, calls: seq<Call>, id: string)
    returns (i: nat)
    requires Inv(t) && id in t.resources && id !in Run(cfg, t, calls).resources
    ensures i < |calls|
    ensures var before := Run(cfg, t, calls[..i]);
            id in before.resources && MayRemove(cfg, before, calls[i], id)
    decreases |calls|
  {
    var t' := Next(cfg, t, calls[0]);
    if id !in t'.resources {
      RemovalIsEntitled(cfg, t, calls[0], id);
      i := 0;
      assert calls[..0] == [];
    } else {
      StepKeepsInv(cfg, t, calls[0]);
      var k := DisappearanceHasAnEntitledStep(cfg, t', calls[1..], id);
      i := k + 1;
      assert calls[..i][0] == calls[0] && calls[..i][1..] == calls[1..][..k];
    }
  }

  // ---------- creating ----------

  /** A verified caller with a well-formed id always succeeds, whether or not the resource existed. */
  lemma CreateSucceeds(cfg: Config, t: DB, now: int, bearer: Option<Claims>, input: string, name: string)
    ensures var (t', reply) := HandleRebacCreate(cfg, t, now, bearer, input, name);
            && (reply.code == GrpcOk
                <==> VerifiedCaller(cfg, t, now, bearer).Some? && NormalizeResourceId(input).Some?)
            && reply.code != Internal
            && (reply.code == GrpcOk ==>
                  t' == Registered(t, now, VerifiedCaller(cfg, t, now, bearer).value,
                                   NormalizeResourceId(input).value, name))
            && (reply.code != GrpcOk ==> t' == t)
  {
    var caller, id := VerifiedCaller(cfg, t, now, bearer), NormalizeResourceId(input);
    if caller.Some? && id.Some? {
      GateNeedsUser(cfg, t, now, bearer);
      RegisterResourceRegisters(t, now, caller.value, id.value, name);
    }
  }

  /** In any state a create changes nothing exactly when the row has its name and the caller its three grants. */
  lemma CreateChangesNothingIff(cfg: Config, t: DB, now: int, bearer: Option<Claims>, input: string, name: string)
    requires VerifiedCaller(cfg, t, now, bearer).Some? && NormalizeResourceId(input).Some?
    ensures var caller, id := VerifiedCaller(cfg, t, now, bearer).value, NormalizeResourceId(input).value;
            HandleRebacCreate(cfg, t, now, bearer, input, name) == (t, GrpcStatus(GrpcOk))
            <==> id in t.resources && t.resources[id].name == name
                 && OwnerGrants(NormalizeUsername(caller), id) <= t.grants
  {
    CreateSucceeds(cfg, t, now, bearer, input, name);
    var caller, id := VerifiedCaller(cfg, t, now, bearer).value, NormalizeResourceId(input).value;
    var t' := Registered(t, now, caller, id, name);
    assert id in t'.resources && t'.resources[id].name == name;
    if id in t.resources && t.resources[id].name == name && OwnerGrants(NormalizeUsername(caller), id) <= t.grants {
      assert t'.resources == t.resources && t'.grants == t.grants;
    }
  }

  /**
   The same caller's repeat of a successful create, with whatever token and spelling of the id, succeeds and changes
   nothing, the created time included.
   */
  lemma RepeatedCreateChangesNothing(
    cfg: Config, t: DB, bearer: Option<Claims>, input: string, name: string, now: int,
    bearer': Option<Claims>, input': string, later: int)
    requires HandleRebacCreate(cfg, t, now, bearer, input, name).1.code == GrpcOk
    requires NormalizeResourceId(input') == NormalizeResourceId(input)
    requires var t' := HandleRebacCreate(cfg, t, now, bearer, input, name).0;
             && VerifiedCaller(cfg, t', later, bearer').Some? && VerifiedCaller(cfg, t, now, bearer).Some?
             && NormalizeUsername(VerifiedCaller(cfg, t', later, bearer').value)
                == NormalizeUsername(VerifiedCaller(cfg, t, now, bearer).value)
    ensures var t' := HandleRebacCreate(cfg, t, now, bearer, input, name).0;
            HandleRebacCreate(cfg, t', later, bearer', input', name) == (t', GrpcStatus(GrpcOk))
  {
    CreateSucceeds(cfg, t, now, bearer, input, name);
    CreateChangesNothingIff(cfg, HandleRebacCreate(cfg, t, now, bearer, input, name).0, later, bearer', input', name);
  }

  /** The resource stands under its new name and time, and only its registrant holds anything on it. */
  predicate StartsClean(t: DB, now: int, caller: string, id: string, name: string) {
    && id in t.resources && t.resources[id] == Resource(name, now / NANOS)
    && (set g | g in t.grants && g.resourceId == id) == OwnerGrants(NormalizeUsername(caller), id)
  }

  lemma RegisteredStartsClean(t: DB, now: int, caller: string, id: string, name: string)
    requires SchemaHolds(t) && id !in t.resources
    ensures StartsClean(Registered(t, now, caller, id, name), now, caller, id, name)
  {
  }

  /** A resource that was absent starts with exactly its creator's grants, whatever stood under its id before. */
  lemma CreatedResourceStartsClean(
    cfg: Config, t: DB, now: int, bearer: Option<Claims>, input: string, name: string)
    requires Inv(t)
    requires VerifiedCaller(cfg, t, now, bearer).Some? && NormalizeResourceId(input).Some?
    requires NormalizeResourceId(input).value !in t.resources
    ensures StartsClean(HandleRebacCreate(cfg, t, now, bearer, input, name).0, now,
                        VerifiedCaller(cfg, t, now, bearer).value, NormalizeResourceId(input).value, name)
  {
    CreateSucceeds(cfg, t, now, bearer, input, name);
    RegisteredStartsClean(t, now, VerifiedCaller(cfg, t, now, bearer).value, NormalizeResourceId(input).value, name);
  }

  // ---------- deleting ----------

  /** Refused callers change nothing; entitled ones remove the row and its grants, present or not. */
  lemma DeleteOutcome(cfg: Config, t: DB, now: int, bearer: Option<Claims>, input: string)
    ensures var (t', reply) := HandleRebacDelete(cfg, t, now, bearer, input);
            && (reply.code != GrpcOk ==> t' == t)
            && (reply.code == GrpcOk <==>
                  && VerifiedCaller(cfg, t, now, bearer).Some? && NormalizeResourceId(input).Some?
                  && (var caller := VerifiedCaller(cfg, t, now, bearer).value;
                      IsAdmin(t, caller) || Owns(t, caller, NormalizeResourceId(input).value)))
            && (reply.code == GrpcOk ==>
                  && NormalizeResourceId(input).value !in t'.resources
                  && (forall g :: g in t'.grants <==> g in t.grants && g.resourceId != NormalizeResourceId(input).value)
                  && t'.users == t.users)
  {
    if NormalizeResourceId(input).Some? { CanonicalIsTrimmed(NormalizeResourceId(input).value); }
  }

  /**
   Repeating a successful delete changes nothing. While the token still verifies it succeeds again exactly for an
   admin: an owner's grant went with the resource.
   */
  lemma RepeatedDelete(cfg: Config, t: DB, bearer: Option<Claims>, input: string, now: int, later: int)
    requires Inv(t)
    requires HandleRebacDelete(cfg, t, now, bearer, input).1.code == GrpcOk
    ensures var t' := HandleRebacDelete(cfg, t, now, bearer, input).0;
            var (t'', reply) := HandleRebacDelete(cfg, t', later, bearer, input);
            && t'' == t'
            && (VerifiedCaller(cfg, t', later, bearer).Some? ==>
                  reply.code == if IsAdmin(t, bearer.value.subject) then GrpcOk else PermissionDenied)
  {
    var t' := HandleRebacDelete(cfg, t, now, bearer, input).0;
    var id := NormalizeResourceId(input).value;
    DeleteOutcome(cfg, t, now, bearer, input);
    DeleteOutcome(cfg, t', later, bearer, input);
    CanonicalIsTrimmed(id);
    assert t'.resources - {id} == t'.resources;
    assert (set g | g in t'.grants && g.resourceId != id) == t'.grants;
  }

  /** The replies to a create and to two deletes after it, by one caller at one instant. */
  function Replies(cfg: Config, t: DB, now: int, bearer: Option<Claims>, input: string, name: string): seq<Reply> {
    var (t1, created) := HandleRebacCreate(cfg, t, now, bearer, input, name);
    var (t2, deleted) := HandleRebacDelete(cfg, t1, now, bearer, input);
    [created, deleted, HandleRebacDelete(cfg, t2, now, bearer, input).1]
  }

  /** Whoever creates a resource without being an admin may delete it, once: the repeat is refused. */
  lemma OwnerDeletesOnce(cfg: Config, t: DB, now: int, bearer: Option<Claims>, input: string, name: string)
    requires Inv(t) && NormalizeResourceId(input).Some?
    requires VerifiedCaller(cfg, t, now, bearer).Some? && !IsAdmin(t, bearer.value.subject)
    ensures Replies(cfg, t, now, bearer, input, name)
         == [GrpcStatus(GrpcOk), GrpcStatus(GrpcOk), GrpcStatus(PermissionDenied)]
  {
    CreatorOwns(cfg, t, bearer, input, name, now);
    OwnerIsRefusedNext(cfg, HandleRebacCreate(cfg, t, now, bearer, input, name).0, now, bearer, input);
  }

  lemma OwnerIsRefusedNext(cfg: Config, t: DB, now: int, bearer: Option<Claims>, input: string)
    requires Inv(t) && NormalizeResourceId(input).Some? && VerifiedCaller(cfg, t, now, bearer).Some?
    requires !IsAdmin(t, bearer.value.subject) && Owns(t, bearer.value.subject, NormalizeResourceId(input).value)
    ensures var (t', deleted) := HandleRebacDelete(cfg, t, now, bearer, input);
            deleted == GrpcStatus(GrpcOk)
            && HandleRebacDelete(cfg, t', now, bearer, input).1 == GrpcStatus(PermissionDenied)
  {
    DeleteOutcome(cfg, t, now, bearer, input);
    RepeatedDelete(cfg, t, bearer, input, now, now);
  }

  lemma CreatorOwns(cfg: Config, t: DB, bearer: Option<Claims>, input: string, name: string, now: int)
    requires Inv(t) && NormalizeResourceId(input).Some? && VerifiedCaller(cfg, t, now, bearer).Some?
    ensures var (t1, reply) := HandleRebacCreate(cfg, t, now, bearer, input, name);
            && reply == GrpcStatus(GrpcOk) && Inv(t1) && t1.users == t.users
            && Owns(t1, bearer.value.subject, NormalizeResourceId(input).value)
  {
    var caller, id := bearer.value.subject, NormalizeResourceId(input).value;
    GateNeedsUser(cfg, t, now, bearer);
    CreateSucceeds(cfg, t, now, bearer, input, name);
    RegisteredKeepsInv(t, now, caller, id, name);
  }

  function ExampleId(): string {
    PREFIX + seq(32, _ => '0')
  }

  lemma ExampleIdIsWellFormed()
    ensures NormalizeResourceId(ExampleId()) == Some(ExampleId())
  {
    assert ExampleId()[..4] == PREFIX && ExampleId()[4..] == seq(32, _ => '0');
    CanonicalIsFixed(ExampleId());
  }

  /** The user has a token that is accepted, and is no admin. */
  lemma StageIsSet(c: Cast)
    requires ValidCast(c)
    ensures var t, bearer := Run(CONFIG, EMPTY, Opening(c, false)), Some(FirstToken(c.user, false));
            Inv(t) && VerifiedCaller(CONFIG, t, 0, bearer).Some? && !IsAdmin(t, c.user)
  {
    OpeningReaches(c, false);
    RunKeepsInv(CONFIG, EMPTY, Opening(c, false));
    FirstTokenOn(c, false, NewRow(c.user, false));
  }

  function OwnersDelete(c: Cast): Call {
    Call(0, RebacDelete(Some(FirstToken(c.user, false)), ExampleId()))
  }

  function OwnersCalls(c: Cast, name: string): seq<Call> {
    [Call(0, RebacCreate(Some(FirstToken(c.user, false)), ExampleId(), name)), OwnersDelete(c), OwnersDelete(c)]
  }

  /** One such run from empty tables, whoever its cast: the user creates a resource, deletes it, and is then refused. */
  lemma SecondDeleteIsRefused(c: Cast, name: string)
    requires ValidCast(c)
    ensures var t := Run(CONFIG, EMPTY, Opening(c, false));
            Replies(CONFIG, t, 0, Some(FirstToken(c.user, false)), ExampleId(), name)
            == [GrpcStatus(GrpcOk), GrpcStatus(GrpcOk), GrpcStatus(PermissionDenied)]
    ensures Honest(CONFIG, EMPTY, Opening(c, false) + OwnersCalls(c, name), {})
  {
    OpeningIsHonest(c, false, OwnersCalls(c, name));
    StageIsSet(c);
    ExampleIdIsWellFormed();
    var t := Run(CONFIG, EMPTY, Opening(c, false));
    OwnerDeletesOnce(CONFIG, t, 0, Some(FirstToken(c.user, false)), ExampleId(), name);
  }
}
