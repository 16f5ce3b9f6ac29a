/**
 The authorization-token cache beside the exchange it speeds up: a hit stands for an exchange made earlier, and this
 is when an exchange made now would carry the same resources.
 */
module CachedViews {
  import opened GoStrings
  import opened Tables
  import opened Service
  import opened ControlPlane
  import opened ControlInvariants
  import opened Revocation
  import opened Recreation

  /** What the exchanged token carries; None if the exchange is refused. */
  function ExchangedView(cfg: Config, t: DB, now: int, identity: Claims): Option<seq<ResourceEntry>> {
    match HandleExchange(cfg, t, now, Some(identity))
    case Grpc(GrpcOk, Some(token)) => Some(token.resources)
    case _ => None
  }

  /** An exchange goes through for an accepted identity while mints do, and carries its subject's current view. */
  lemma ExchangeCarriesTheView(cfg: Config, t: DB, now: int, identity: Claims)
    ensures ExchangedView(cfg, t, now, identity)
         == if VerifyAuthn(cfg, t, now, identity).Ok? && Mints(cfg, now)
            then EffectiveResources(t, identity.subject) else None
  {
  }

  /**
   Of a token exchanged in one reachable state and still cached in a later one: exchanging again would give the same
   resources exactly when the identity is still accepted, mints go through, the subject has its role, and, for an
   admin, the same resources are registered, for anyone else, the subject has the same grant rows. What is cached is
   the current view under the last two conditions alone, while the subject has a row.
   */
  lemma HitAgreesWithExchangeIff(
    cfg: Config, before: seq<Call>, exchangedAt: int, identity: Claims, after: seq<Call>, later: int)
    requires ExchangedView(cfg, Run(cfg, EMPTY, before), exchangedAt, identity).Some?
    ensures var t, end := Run(cfg, EMPTY, before), Run(cfg, EMPTY, before + after);
            var norm := NormalizeUsername(identity.subject);
            ExchangedView(cfg, end, later, identity) == ExchangedView(cfg, t, exchangedAt, identity)
            <==> && VerifyAuthn(cfg, end, later, identity).Ok? && Mints(cfg, later)
                 && IsAdmin(t, identity.subject) == IsAdmin(end, identity.subject)
                 && (if IsAdmin(t, identity.subject) then t.resources.Keys == end.resources.Keys
                     else RowsOfUser(t, norm) == RowsOfUser(end, norm))
    ensures var t, end := Run(cfg, EMPTY, before), Run(cfg, EMPTY, before + after);
            var norm := NormalizeUsername(identity.subject);
            EffectiveResources(end, identity.subject) == ExchangedView(cfg, t, exchangedAt, identity)
            <==> && Tables.GetUser(end, identity.subject).Ok?
                 && IsAdmin(t, identity.subject) == IsAdmin(end, identity.subject)
                 && (if IsAdmin(t, identity.subject) then t.resources.Keys == end.resources.Keys
                     else RowsOfUser(t, norm) == RowsOfUser(end, norm))
  {
    var t, end := Run(cfg, EMPTY, before), Run(cfg, EMPTY, before + after);
    RunKeepsInv(cfg, EMPTY, before);
    RunSplits(cfg, EMPTY, before, after);
    RunKeepsInv(cfg, t, after);
    ExchangeCarriesTheView(cfg, t, exchangedAt, identity);
    ExchangeCarriesTheView(cfg, end, later, identity);
    if Tables.GetUser(end, identity.subject).Ok? { ViewsAgreeIff(t, end, identity.subject); }
  }

  /**
   One such disagreement: removing a grant leaves the identity accepted, and so the cache key as it was, while the view
   exchanged before allows what one exchanged after does not.
   */
  lemma RemovedGrantIsStillCached(
    cfg: Config, t: DB, now: int, identity: Claims, bearer: Option<Claims>, id: string, p: string)
    requires ExchangedView(cfg, t, now, identity).Some? && !IsAdmin(t, identity.subject)
    requires ApiAdmin(cfg, t, now, bearer).Ok? && ValidPermission(p)
    requires Grant(NormalizeUsername(identity.subject), TrimSpace(id), TrimSpace(p)) in t.grants
    ensures var t' := Next(cfg, t, Call(now, Admin(bearer, GrantRemove(identity.subject, id, p))));
            && VerifyAuthn(cfg, t', now, identity) == Ok(identity)
            && Allows(ExchangedView(cfg, t, now, identity).value, TrimSpace(id), TrimSpace(p))
            && ExchangedView(cfg, t', now, identity).Some?
            && !Allows(ExchangedView(cfg, t', now, identity).value, TrimSpace(id), TrimSpace(p))
  {
    var t' := Tables.RemoveGrant(t, identity.subject, id, p);
    RemovalIsServed(cfg, t, now, bearer, identity.subject, id, p);
    ExchangeCarriesTheView(cfg, t, now, identity);
    ExchangeCarriesTheView(cfg, t', now, identity);
    AcceptanceReadsUsers(cfg, t, t', now, identity);
    var g := Grant(NormalizeUsername(identity.subject), TrimSpace(id), TrimSpace(p));
    LostRowLeavesTheView(t, t', identity.subject, g);
  }

  /** After a password or role change of its subject an identity exchanges for nothing; what was cached is served on. */
  lemma RevokedIdentityExchangesNothing(
    cfg: Config, t: DB, mintedAt: int, subject: string, name: string, calls: seq<Call>, now: int)
    requires MintFor(cfg, t, mintedAt, subject, name).Ok?
    requires now < MintFor(cfg, t, mintedAt, subject, name).value.expSec * NANOS
    requires NeverDeleted(cfg, t, calls, NormalizeUsername(subject))
    ensures var identity := MintFor(cfg, t, mintedAt, subject, name).value.token;
            ExchangedView(cfg, Run(cfg, t, calls), now, identity).Some?
            <==> BumpCount(cfg, t, calls, NormalizeUsername(subject)) == 0 && Mints(cfg, now)
  {
    var identity := MintFor(cfg, t, mintedAt, subject, name).value.token;
    RevocationIsExact(cfg, t, mintedAt, subject, name, calls, now);
    RowAfterRun(cfg, t, calls, NormalizeUsername(subject));
    ExchangeCarriesTheView(cfg, Run(cfg, t, calls), now, identity);
  }
}
