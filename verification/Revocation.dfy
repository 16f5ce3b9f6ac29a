/** Tokens over whole runs: which ones the gate still accepts, and what an accepted one may claim. */
module Revocation {
  import opened GoStrings
  import opened Tables
  import opened Service
  import opened ControlPlane
  import opened UserRows
  import opened ControlInvariants

  /** How often SetPassword or SetAdmin succeeded on `who` during the run. */
  function BumpCount(cfg: Config, t: DB, calls: seq<Call>, who: string): nat
    decreases |calls|
  {
    if calls == [] then 0
    else (if Bumps(cfg, t, calls[0], who) then 1 else 0) + BumpCount(cfg, Next(cfg, t, calls[0]), calls[1..], who)
  }

  predicate NeverDeleted(cfg: Config, t: DB, calls: seq<Call>, who: string)
    decreases |calls|
  {
    calls == [] || (!DeletesUser(cfg, t, calls[0], who) && NeverDeleted(cfg, Next(cfg, t, calls[0]), calls[1..], who))
  }

  lemma {:induction false} RowAfterRun(cfg: Config, t: DB, calls: seq<Call>, who: string)
    requires who in t.users && NeverDeleted(cfg, t, calls, who)
    ensures who in Run(cfg, t, calls).users
    ensures var u, u' := t.users[who], Run(cfg, t, calls).users[who];
            && u'.tokenVersion == u.tokenVersion + BumpCount(cfg, t, calls, who)
            && (BumpCount(cfg, t, calls, who) == 0 ==> u'.isAdmin == u.isAdmin)
    decreases |calls|
  {
    if calls != [] {
      StepOnRow(cfg, t, calls[0], who);
      RowAfterRun(cfg, Next(cfg, t, calls[0]), calls[1..], who);
    }
  }

  /** An unexpired token is accepted after a run exactly when nothing changed its subject's password or admin flag. */
  lemma RevocationIsExact(
    cfg: Config, t: DB, mintedAt: int, subject: string, name: string, calls: seq<Call>, now: int)
    requires MintFor(cfg, t, mintedAt, subject, name).Ok?
    requires now < MintFor(cfg, t, mintedAt, subject, name).value.expSec * NANOS
    requires NeverDeleted(cfg, t, calls, NormalizeUsername(subject))
    ensures var token := MintFor(cfg, t, mintedAt, subject, name).value.token;
            VerifyAuthn(cfg, Run(cfg, t, calls), now, token)
            == if BumpCount(cfg, t, calls, NormalizeUsername(subject)) == 0 then Ok(token) else Err(Revoked)
  {
    MintedTokenVerifies(cfg, t, mintedAt, subject, name, now);
    RowAfterRun(cfg, t, calls, NormalizeUsername(subject));
  }

  lemma {:induction false} RunSplits(cfg: Config, t: DB, first: seq<Call>, second: seq<Call>)
    ensures Run(cfg, t, first + second) == Run(cfg, Run(cfg, t, first), second)
    decreases |first|
  {
    if first == [] {
      assert first + second == second;
    } else {
      assert (first + second)[0] == first[0] && (first + second)[1..] == first[1..] + second;
      RunSplits(cfg, Next(cfg, t, first[0]), first[1..], second);
    }
  }

  lemma {:induction false} BumpsAdd(cfg: Config, t: DB, first: seq<Call>, second: seq<Call>, who: string)
    ensures BumpCount(cfg, t, first + second, who)
         == BumpCount(cfg, t, first, who) + BumpCount(cfg, Run(cfg, t, first), second, who)
    ensures NeverDeleted(cfg, t, first + second, who)
         <==> NeverDeleted(cfg, t, first, who) && NeverDeleted(cfg, Run(cfg, t, first), second, who)
    decreases |first|
  {
    if first == [] {
      assert first + second == second;
    } else {
      assert (first + second)[0] == first[0] && (first + second)[1..] == first[1..] + second;
      BumpsAdd(cfg, Next(cfg, t, first[0]), first[1..], second, who);
    }
  }

  /** Refused once as revoked, refused for good. */
  lemma RevokedForever(
    cfg: Config, t: DB, mintedAt: int, subject: string, name: string,
    first: seq<Call>, refusedAt: int, second: seq<Call>, later: int)
    requires MintFor(cfg, t, mintedAt, subject, name).Ok?
    requires NeverDeleted(cfg, t, first + second, NormalizeUsername(subject))
    requires var token := MintFor(cfg, t, mintedAt, subject, name).value.token;
             VerifyAuthn(cfg, Run(cfg, t, first), refusedAt, token) == Err(Revoked)
    ensures var token := MintFor(cfg, t, mintedAt, subject, name).value.token;
            VerifyAuthn(cfg, Run(cfg, t, first + second), later, token).Err?
  {
    var who := NormalizeUsername(subject);
    BumpsAdd(cfg, t, first, second, who);
    RevocationIsExact(cfg, t, mintedAt, subject, name, first, refusedAt);
    if later < MintFor(cfg, t, mintedAt, subject, name).value.expSec * NANOS {
      RevocationIsExact(cfg, t, mintedAt, subject, name, first + second, later);
    }
  }

  /**
   In every reachable state, for a token minted at any earlier point whose subject was not deleted since: if the
   gate still accepts it, it carries the wildcard exactly when its subject is an admin now.
   */
  lemma AcceptedTokensAreFresh(
    cfg: Config, before: seq<Call>, mintedAt: int, subject: string, name: string, after: seq<Call>, now: int)
    requires var t := Run(cfg, EMPTY, before);
             && MintFor(cfg, t, mintedAt, subject, name).Ok?
             && NeverDeleted(cfg, t, after, NormalizeUsername(subject))
    ensures var t := Run(cfg, EMPTY, before);
            var token := MintFor(cfg, t, mintedAt, subject, name).value.token;
            VerifyAuthn(cfg, Run(cfg, EMPTY, before + after), now, token).Ok? ==>
              (Lists(token.resources, WILDCARD) <==> IsAdmin(Run(cfg, EMPTY, before + after), subject))
  {
    var t := Run(cfg, EMPTY, before);
    RunSplits(cfg, EMPTY, before, after);
    RunKeepsInv(cfg, EMPTY, before);
    WildcardMarksAdmins(t, subject);
    RowAfterRun(cfg, t, after, NormalizeUsername(subject));
  }

  // ---------- the rest of the list ----------

  function RowsOfUser(t: DB, norm: string): set<Grant> {
    set g | g in t.grants && g.username == norm
  }

  /** Two states give a subject the same view exactly when it has the same role and, by role, the same rows to see. */
  lemma ViewsAgreeIff(t: DB, t': DB, subject: string)
    requires Inv(t) && Inv(t') && Tables.GetUser(t, subject).Ok? && Tables.GetUser(t', subject).Ok?
    ensures EffectiveResources(t, subject) == EffectiveResources(t', subject)
            <==> IsAdmin(t, subject) == IsAdmin(t', subject)
                 && (if IsAdmin(t, subject) then t.resources.Keys == t'.resources.Keys
                     else RowsOfUser(t, NormalizeUsername(subject)) == RowsOfUser(t', NormalizeUsername(subject)))
  {
    WildcardMarksAdmins(t, subject);
    WildcardMarksAdmins(t', subject);
    if IsAdmin(t, subject) != IsAdmin(t', subject) {
    } else if IsAdmin(t, subject) {
      AdminViewsAgreeIff(t, t', subject);
    } else {
      NonAdminViewsAgreeIff(t, t', subject);
    }
  }

  lemma AdminViewsAgreeIff(t: DB, t': DB, subject: string)
    requires IsAdmin(t, subject) && IsAdmin(t', subject)
    ensures EffectiveResources(t, subject) == EffectiveResources(t', subject) <==> t.resources.Keys == t'.resources.Keys
  {
    var repos := AdminEntriesAreEveryResource(t, subject);
    var repos' := AdminEntriesAreEveryResource(t', subject);
    if EffectiveResources(t, subject) == EffectiveResources(t', subject) {
      var view, view' := EffectiveResources(t, subject).value, EffectiveResources(t', subject).value;
      assert repos == view[..|view| - 1] && repos' == view'[..|view'| - 1];
      forall id ensures id in t.resources.Keys <==> id in t'.resources.Keys {
        assert Lists(repos, id) <==> id in t.resources;
      }
    }
  }

  lemma NonAdminViewsAgreeIff(t: DB, t': DB, subject: string)
    requires Tables.GetUser(t, subject).Ok? && !IsAdmin(t, subject)
    requires Tables.GetUser(t', subject).Ok? && !IsAdmin(t', subject)
    ensures EffectiveResources(t, subject) == EffectiveResources(t', subject)
            <==> RowsOfUser(t, NormalizeUsername(subject)) == RowsOfUser(t', NormalizeUsername(subject))
  {
    var norm := NormalizeUsername(subject);
    if EffectiveResources(t, subject) == EffectiveResources(t', subject) {
      forall g: Grant | g.username == norm ensures g in t.grants <==> g in t'.grants {
        NonAdminAllowsIffGranted(t, subject, g.resourceId, g.permission);
        NonAdminAllowsIffGranted(t', subject, g.resourceId, g.permission);
        assert g == Grant(norm, g.resourceId, g.permission);
      }
    }
    if RowsOfUser(t, norm) == RowsOfUser(t', norm) {
      forall g: Grant | g.username == norm ensures g in t.grants <==> g in t'.grants {
        assert g in RowsOfUser(t, norm) <==> g in RowsOfUser(t', norm);
      }
      assert GrantedIds(t, norm) == GrantedIds(t', norm);
      forall id ensures PermissionsOn(t, norm, id) == PermissionsOn(t', norm, id) {}
      assert Tables.GrantsFor(t, subject) == Tables.GrantsFor(t', subject);
    }
  }

  /**
   The whole list of a token still accepted is its subject's current view exactly when, for an admin, the same
   resources are registered, and for anyone else, the subject's grant rows are the same. Neither changes the version.
   */
  lemma AcceptedListIsCurrentIff(
    cfg: Config, before: seq<Call>, mintedAt: int, subject: string, name: string, after: seq<Call>, now: int)
    requires var t, end := Run(cfg, EMPTY, before), Run(cfg, EMPTY, before + after);
             && MintFor(cfg, t, mintedAt, subject, name).Ok?
             && NeverDeleted(cfg, t, after, NormalizeUsername(subject))
             && VerifyAuthn(cfg, end, now, MintFor(cfg, t, mintedAt, subject, name).value.token).Ok?
    ensures var t, end, norm := Run(cfg, EMPTY, before), Run(cfg, EMPTY, before + after), NormalizeUsername(subject);
            EffectiveResources(end, subject) == Some(MintFor(cfg, t, mintedAt, subject, name).value.token.resources)
            <==> if IsAdmin(t, subject) then t.resources.Keys == end.resources.Keys
                 else RowsOfUser(t, norm) == RowsOfUser(end, norm)
  {
    var t := Run(cfg, EMPTY, before);
    RunSplits(cfg, EMPTY, before, after);
    RunKeepsInv(cfg, EMPTY, before);
    RunKeepsInv(cfg, t, after);
    RowAfterRun(cfg, t, after, NormalizeUsername(subject));
    ViewsAgreeIff(t, Run(cfg, t, after), subject);
  }

  /** So a removed grant lingers in the tokens minted before: accepted as ever, they carry what the view has lost. */
  lemma RemovedGrantLingers(
    cfg: Config, t: DB, mintedAt: int, subject: string, name: string, bearer: Option<Claims>, id: string, p: string,
    now: int)
    requires MintFor(cfg, t, mintedAt, subject, name).Ok? && !IsAdmin(t, subject)
    requires now < MintFor(cfg, t, mintedAt, subject, name).value.expSec * NANOS
    requires ApiAdmin(cfg, t, now, bearer).Ok? && ValidPermission(p)
    requires Grant(NormalizeUsername(subject), TrimSpace(id), TrimSpace(p)) in t.grants
    ensures var token := MintFor(cfg, t, mintedAt, subject, name).value.token;
            var t' := Next(cfg, t, Call(now, Admin(bearer, GrantRemove(subject, id, p))));
            && VerifyAuthn(cfg, t', now, token) == Ok(token)
            && Allows(token.resources, TrimSpace(id), TrimSpace(p))
            && EffectiveResources(t', subject).Some?
            && !Allows(EffectiveResources(t', subject).value, TrimSpace(id), TrimSpace(p))
  {
    RemovalIsServed(cfg, t, now, bearer, subject, id, p);
    MintedTokenVerifies(cfg, t, mintedAt, subject, name, now);
    var t' := Tables.RemoveGrant(t, subject, id, p);
    AcceptanceReadsUsers(cfg, t, t', now, MintFor(cfg, t, mintedAt, subject, name).value.token);
    LostRowLeavesTheView(t, t', subject, Grant(NormalizeUsername(subject), TrimSpace(id), TrimSpace(p)));
  }

  lemma RemovalIsServed(cfg: Config, t: DB, now: int, bearer: Option<Claims>, username: string, id: string, p: string)
    requires ApiAdmin(cfg, t, now, bearer).Ok? && ValidPermission(p)
    ensures Next(cfg, t, Call(now, Admin(bearer, GrantRemove(username, id, p))))
         == Tables.RemoveGrant(t, username, id, p)
  {
  }

  lemma AcceptanceReadsUsers(cfg: Config, t: DB, t': DB, now: int, token: Claims)
    requires t.users == t'.users
    ensures VerifyAuthn(cfg, t, now, token) == VerifyAuthn(cfg, t', now, token)
  {
  }

  lemma LostRowLeavesTheView(t: DB, t': DB, subject: string, g: Grant)
    requires t.users == t'.users && Tables.GetUser(t, subject).Ok? && !IsAdmin(t, subject)
    requires g in t.grants && g !in t'.grants && g.username == NormalizeUsername(subject)
    ensures EffectiveResources(t', subject).Some?
    ensures Allows(EffectiveResources(t, subject).value, g.resourceId, g.permission)
    ensures !Allows(EffectiveResources(t', subject).value, g.resourceId, g.permission)
  {
    assert g == Grant(NormalizeUsername(subject), g.resourceId, g.permission);
    NonAdminAllowsIffGranted(t, subject, g.resourceId, g.permission);
    NonAdminAllowsIffGranted(t', subject, g.resourceId, g.permission);
  }
}
