/**
 Runs in which a token's subject may be deleted and created again: what the claims of Revocation come to there,
 exactly, and why they cannot be had without a condition.
 */
module Recreation {
  import opened GoStrings
  import opened Tables
  import opened Service
  import opened ControlPlane
  import opened UserRows
  import opened ControlInvariants
  import opened Revocation
  import opened ExampleRun
  import opened Privileges

  // ---------- splitting a run where the standing row was created ----------

  /** The longest prefix of the run that leaves `who` without a row; None if a row stood throughout. */
  function LastAbsence(cfg: Config, t: DB, calls: seq<Call>, who: string): Option<nat>
    decreases |calls|
  {
    var rest := if calls == [] then None else LastAbsence(cfg, Next(cfg, t, calls[0]), calls[1..], who);
    match rest
    case Some(n) => Some(n + 1)
    case None => if who in t.users then None else Some(0)
  }

  lemma {:induction false} LastAbsenceIsLast(cfg: Config, t: DB, calls: seq<Call>, who: string)
    ensures LastAbsence(cfg, t, calls, who) == None ==>
              forall n | 0 <= n <= |calls| :: who in Run(cfg, t, calls[..n]).users
    ensures LastAbsence(cfg, t, calls, who).Some? ==>
              var last := LastAbsence(cfg, t, calls, who).value;
              && last <= |calls| && who !in Run(cfg, t, calls[..last]).users
              && (forall n | last < n <= |calls| :: who in Run(cfg, t, calls[..n]).users)
    decreases |calls|
  {
    if calls != [] {
      LastAbsenceIsLast(cfg, Next(cfg, t, calls[0]), calls[1..], who);
      forall n | 0 < n <= |calls|
        ensures Run(cfg, t, calls[..n]) == Run(cfg, Next(cfg, t, calls[0]), calls[1..][..n - 1])
      {
        assert calls[..n][0] == calls[0] && calls[..n][1..] == calls[1..][..n - 1];
      }
    }
    assert calls[..0] == [] && Run(cfg, t, []) == t;
  }

  lemma {:induction false} KeptIffNeverDeleted(cfg: Config, t: DB, calls: seq<Call>, who: string)
    requires who in t.users
    ensures LastAbsence(cfg, t, calls, who) == None <==> NeverDeleted(cfg, t, calls, who)
    decreases |calls|
  {
    if calls != [] && who in Next(cfg, t, calls[0]).users {
      KeptIffNeverDeleted(cfg, Next(cfg, t, calls[0]), calls[1..], who);
    } else if calls != [] {
      LastAbsenceIsLast(cfg, Next(cfg, t, calls[0]), calls[1..], who);
      assert calls[1..][..0] == [];
    }
  }

  /** What became of a row over a run, with the number of password and role changes it has had since. */
  datatype Fate = Kept(changes: nat) | Gone | Remade(changes: nat)

  function FateOf(cfg: Config, t: DB, calls: seq<Call>, who: string): Fate {
    match LastAbsence(cfg, t, calls, who)
    case None => Kept(BumpCount(cfg, t, calls, who))
    case Some(n) =>
      if n >= |calls| then Gone else Remade(BumpCount(cfg, Run(cfg, t, calls[..n]), calls[n..], who))
  }

  function VersionOf(t: DB, who: string): Option<nat> {
    if who in t.users then Some(t.users[who].tokenVersion) else None
  }

  /** A first call counts only for a row that is kept through it and after it. */
  function Preceded(stood: bool, bumped: bool, rest: Fate): Fate {
    if !rest.Kept? then rest
    else if !stood then Remade(rest.changes)
    else Kept(rest.changes + if bumped then 1 else 0)
  }

  lemma FateOfFirstCall(cfg: Config, t: DB, calls: seq<Call>, who: string)
    requires calls != []
    ensures FateOf(cfg, t, calls, who)
         == Preceded(who in t.users, Bumps(cfg, t, calls[0], who), FateOf(cfg, Next(cfg, t, calls[0]), calls[1..], who))
  {
    var t', rest := Next(cfg, t, calls[0]), calls[1..];
    LastAbsenceIsLast(cfg, t', rest, who);
    var last := LastAbsence(cfg, t', rest, who);
    if last.Some? {
      var n := last.value;
      assert calls[..n + 1][0] == calls[0] && calls[..n + 1][1..] == rest[..n] && calls[n + 1..] == rest[n..];
    } else {
      StepOnRow(cfg, t, calls[0], who);
      assert calls[..0] == [] && calls[0..] == calls;
    }
  }

  lemma VersionAfterCall(cfg: Config, t: DB, call: Call, who: string)
    ensures VersionOf(Next(cfg, t, call), who).Some? ==>
              VersionOf(Next(cfg, t, call), who).value
              == match VersionOf(t, who)
                 case Some(v) => v + (if Bumps(cfg, t, call, who) then 1 else 0)
                 case None => 0
  {
    StepOnRow(cfg, t, call, who);
  }

  /** The version a row ends with: its changes since it was created, on top of what it had if it was kept. */
  function VersionOfFate(fate: Fate, v: Option<nat>): Option<nat> {
    match fate
    case Kept(changes) => if v.Some? then Some(v.value + changes) else None
    case Gone => None
    case Remade(changes) => Some(changes)
  }

  lemma {:induction false} VersionCountsChangesOfTheStandingRow(cfg: Config, t: DB, calls: seq<Call>, who: string)
    ensures VersionOf(Run(cfg, t, calls), who) == VersionOfFate(FateOf(cfg, t, calls, who), VersionOf(t, who))
    decreases |calls|
  {
    if calls != [] {
      FateOfFirstCall(cfg, t, calls, who);
      VersionCountsChangesOfTheStandingRow(cfg, Next(cfg, t, calls[0]), calls[1..], who);
      VersionAfterCall(cfg, t, calls[0], who);
      KeptRowIsThere(cfg, Next(cfg, t, calls[0]), calls[1..], who);
      VersionPreceded(VersionOf(t, who), Bumps(cfg, t, calls[0], who), VersionOf(Next(cfg, t, calls[0]), who),
                      FateOf(cfg, Next(cfg, t, calls[0]), calls[1..], who));
    }
  }

  lemma VersionPreceded(v: Option<nat>, bumped: bool, v': Option<nat>, rest: Fate)
    requires rest.Kept? ==> v'.Some?
    requires v'.Some? ==> v'.value == match v case Some(n) => n + (if bumped then 1 else 0) case None => 0
    ensures VersionOfFate(Preceded(v.Some?, bumped, rest), v) == VersionOfFate(rest, v')
  {
  }

  lemma KeptRowIsThere(cfg: Config, t: DB, calls: seq<Call>, who: string)
    ensures FateOf(cfg, t, calls, who).Kept? ==> VersionOf(t, who).Some?
  {
    LastAbsenceIsLast(cfg, t, calls, who);
    assert calls[..0] == [];
  }

  lemma {:induction false} ChangesSinceAreChanges(cfg: Config, t: DB, calls: seq<Call>, who: string)
    ensures FateOf(cfg, t, calls, who).Remade? ==> FateOf(cfg, t, calls, who).changes <= BumpCount(cfg, t, calls, who)
  {
    LastAbsenceIsLast(cfg, t, calls, who);
    var last := LastAbsence(cfg, t, calls, who);
    if last.Some? {
      assert calls == calls[..last.value] + calls[last.value..];
      BumpsAdd(cfg, t, calls[..last.value], calls[last.value..], who);
    }
  }

  // ---------- the claims over all runs ----------

  /** Over every run: an unexpired token is accepted exactly when the standing row has the changes its stamp says. */
  lemma AcceptanceIsExact(
    cfg: Config, t: DB, mintedAt: int, subject: string, name: string, calls: seq<Call>, now: int)
    requires MintFor(cfg, t, mintedAt, subject, name).Ok?
    requires now < MintFor(cfg, t, mintedAt, subject, name).value.expSec * NANOS
    ensures var token := MintFor(cfg, t, mintedAt, subject, name).value.token;
            VerifyAuthn(cfg, Run(cfg, t, calls), now, token)
            == match FateOf(cfg, t, calls, NormalizeUsername(subject))
               case Kept(changes) => if changes == 0 then Ok(token) else Err(Revoked)
               case Gone => Err(SubjectNotFound)
               case Remade(changes) => if changes == token.tokenVersion then Ok(token) else Err(Revoked)
  {
    MintedTokenVerifies(cfg, t, mintedAt, subject, name, now);
    VersionCountsChangesOfTheStandingRow(cfg, t, calls, NormalizeUsername(subject));
  }

  /**
   When "accepted if and only if nothing changed the password or the flag since" holds of a run. Always if the row
   was kept. If it is gone, if there was a change. If it was made anew: for a stamp of 0, if the new row has been
   changed, or nothing was changed at all; for any other, if there was a change but not as many to the new row.
   */
  predicate ChangesDecide(fate: Fate, stamp: nat, changes: nat) {
    match fate
    case Kept(_) => true
    case Gone => changes > 0
    case Remade(since) => if stamp == 0 then since > 0 || changes == 0 else since != stamp && changes > 0
  }

  lemma RevocationHoldsIff(
    cfg: Config, t: DB, mintedAt: int, subject: string, name: string, calls: seq<Call>, now: int)
    requires MintFor(cfg, t, mintedAt, subject, name).Ok?
    requires now < MintFor(cfg, t, mintedAt, subject, name).value.expSec * NANOS
    ensures var token, who := MintFor(cfg, t, mintedAt, subject, name).value.token, NormalizeUsername(subject);
            (VerifyAuthn(cfg, Run(cfg, t, calls), now, token).Ok? <==> BumpCount(cfg, t, calls, who) == 0)
            <==> ChangesDecide(FateOf(cfg, t, calls, who), token.tokenVersion, BumpCount(cfg, t, calls, who))
  {
    AcceptanceIsExact(cfg, t, mintedAt, subject, name, calls, now);
    ChangesSinceAreChanges(cfg, t, calls, NormalizeUsername(subject));
  }

  /** A token refused as revoked is refused after more calls too, unless it is unexpired and its row is at the stamp. */
  lemma StillRefusedIff(
    cfg: Config, t: DB, mintedAt: int, subject: string, name: string,
    first: seq<Call>, refusedAt: int, second: seq<Call>, later: int)
    requires MintFor(cfg, t, mintedAt, subject, name).Ok?
    requires VerifyAuthn(cfg, Run(cfg, t, first), refusedAt, MintFor(cfg, t, mintedAt, subject, name).value.token)
          == Err(Revoked)
    ensures var m, who := MintFor(cfg, t, mintedAt, subject, name).value, NormalizeUsername(subject);
            var t1 := Run(cfg, t, first);
            && who in t1.users
            && (VerifyAuthn(cfg, Run(cfg, t, first + second), later, m.token).Err?
                <==> later >= m.expSec * NANOS
                     || match FateOf(cfg, t1, second, who)
                        case Kept(changes) => t1.users[who].tokenVersion + changes != m.token.tokenVersion
                        case Gone => true
                        case Remade(changes) => changes != m.token.tokenVersion)
  {
    var who, t1 := NormalizeUsername(subject), Run(cfg, t, first);
    MintedTokenVerifies(cfg, t, mintedAt, subject, name, later);
    RunSplits(cfg, t, first, second);
    VersionCountsChangesOfTheStandingRow(cfg, t1, second, who);
  }

  /**
   Over every run from a reachable state: an accepted token carries the wildcard exactly when its subject is an
   admin, unless the row was made anew in another role and has come to the stamp.
   */
  lemma FreshnessHoldsIff(
    cfg: Config, before: seq<Call>, mintedAt: int, subject: string, name: string, after: seq<Call>, now: int)
    requires MintFor(cfg, Run(cfg, EMPTY, before), mintedAt, subject, name).Ok?
    ensures var t, end := Run(cfg, EMPTY, before), Run(cfg, EMPTY, before + after);
            var m := MintFor(cfg, t, mintedAt, subject, name).value;
            var fate := FateOf(cfg, t, after, NormalizeUsername(subject));
            (VerifyAuthn(cfg, end, now, m.token).Ok? ==>
               (Lists(m.token.resources, WILDCARD) <==> IsAdmin(end, subject)))
            <==> (now >= m.expSec * NANOS || !fate.Remade? || fate.changes != m.token.tokenVersion
                  || IsAdmin(end, subject) == IsAdmin(t, subject))
  {
    var t, who := Run(cfg, EMPTY, before), NormalizeUsername(subject);
    RunSplits(cfg, EMPTY, before, after);
    RunKeepsInv(cfg, EMPTY, before);
    WildcardMarksAdmins(t, subject);
    MintedTokenVerifies(cfg, t, mintedAt, subject, name, now);
    if now < MintFor(cfg, t, mintedAt, subject, name).value.expSec * NANOS {
      AcceptanceIsExact(cfg, t, mintedAt, subject, name, after, now);
    }
    if FateOf(cfg, t, after, who).Kept? {
      KeptIffNeverDeleted(cfg, t, after, who);
      RowAfterRun(cfg, t, after, who);
    }
  }

  // ---------- every token can be brought back ----------

  /** A mint at `now` is not expired by the time it is read back. */
  predicate Mints(cfg: Config, now: int) {
    now < (now + cfg.ttl) / NANOS * NANOS
  }

  /** The token a login of `who` hands out at `now`. */
  function TokenOf(cfg: Config, t: DB, who: string, now: int): Claims
    requires who in t.users && ValidUsername(who) && Mints(cfg, now)
  {
    PlainName(who);
    var name := t.users[who].displayName;
    MintFor(cfg, t, now, who, if name == "" then who else name).value.token
  }

  lemma TokenOfIsAccepted(cfg: Config, t: DB, who: string, now: int)
    requires who in t.users && ValidUsername(who) && Mints(cfg, now)
    ensures var token := TokenOf(cfg, t, who, now);
            ApiAuth(cfg, t, now, Some(token)) == Ok(token) && token.subject == who
    ensures NormalizeUsername(who) == who && Tables.GetUser(t, who) == Ok(t.users[who])
  {
    PlainName(who);
  }

  function SomePassword(): string {
    seq(12, _ => 'x')
  }

  lemma SomePasswordIsValid()
    ensures ValidPassword(SomePassword()) && SomePassword() != ""
    ensures Utf8Len(SomePassword()) == 12
  {
    AsciiUtf8Len(SomePassword());
  }

  function LoginOf(who: string, now: int): Call {
    Call(now, Login(who, SomePassword(), true))
  }

  lemma LoginHandsTheTokenOut(cfg: Config, t: DB, who: string, now: int)
    requires who in t.users && ValidUsername(who) && Mints(cfg, now)
    ensures Next(cfg, t, LoginOf(who, now)) == t
    ensures ReplyTo(cfg, t, LoginOf(who, now)) == Http(200, Some(TokenOf(cfg, t, who, now)))
  {
    PlainName(who);
    SomePasswordIsValid();
  }

  predicate AllAt(calls: seq<Call>, now: int) {
    forall c | c in calls :: c.now == now
  }

  /** `who` logs in and makes one call with the token. */
  function Visit(who: string, now: int, op: Op): seq<Call> {
    [LoginOf(who, now), Call(now, op)]
  }

  lemma VisitIsItsCall(cfg: Config, t: DB, who: string, now: int, op: Op)
    requires who in t.users && ValidUsername(who) && Mints(cfg, now)
    requires BearerOf(op) == Some(TokenOf(cfg, t, who, now))
    ensures Run(cfg, t, Visit(who, now, op)) == Next(cfg, t, Call(now, op))
    ensures Honest(cfg, t, Visit(who, now, op), {})
    ensures AllAt(Visit(who, now, op), now)
  {
    LoginHandsTheTokenOut(cfg, t, who, now);
    var calls, call := Visit(who, now, op), Call(now, op);
    assert calls[1..] == [call] && [call][1..] == [];
    assert Run(cfg, t, [call]) == Run(cfg, Next(cfg, t, call), []);
    assert Honest(cfg, Next(cfg, t, call), [], {TokenOf(cfg, t, who, now)} + HandedOut(ReplyTo(cfg, t, call)));
    assert Honest(cfg, t, [call], {TokenOf(cfg, t, who, now)});
    assert {} + {TokenOf(cfg, t, who, now)} == {TokenOf(cfg, t, who, now)};
  }

  function OwnChange(cfg: Config, t: DB, who: string, now: int): Op
    requires who in t.users && ValidUsername(who) && Mints(cfg, now)
  {
    MePassword(Some(TokenOf(cfg, t, who, now)), "", true, SomePassword(), "h")
  }

  lemma OwnChangeIsServed(cfg: Config, t: DB, who: string, now: int)
    requires who in t.users && ValidUsername(who) && Mints(cfg, now)
    ensures var (t', reply) := Handle(cfg, t, now, OwnChange(cfg, t, who, now));
            reply == Status(200) && PasswordReplaced(t, t', who, "h")
  {
    TokenOfIsAccepted(cfg, t, who, now);
    OwnChangeWithToken(cfg, t, now, TokenOf(cfg, t, who, now));
  }

  lemma OwnChangeWithToken(cfg: Config, t: DB, now: int, token: Claims)
    requires ApiAuth(cfg, t, now, Some(token)) == Ok(token)
    requires ValidUsername(token.subject) && token.subject in t.users
    ensures var (t', reply) := Handle(cfg, t, now, MePassword(Some(token), "", true, SomePassword(), "h"));
            reply == Status(200) && PasswordReplaced(t, t', token.subject, "h")
  {
    PlainName(token.subject);
    SomePasswordIsValid();
  }

  lemma OwnVisitBumps(cfg: Config, t: DB, who: string, now: int)
    requires who in t.users && ValidUsername(who) && Mints(cfg, now)
    ensures var calls := Visit(who, now, OwnChange(cfg, t, who, now));
            && BumpCount(cfg, t, calls, who) == 1 && NeverDeleted(cfg, t, calls, who)
            && PasswordReplaced(t, Run(cfg, t, calls), who, "h")
  {
    var op := OwnChange(cfg, t, who, now);
    OwnChangeIsServed(cfg, t, who, now);
    VisitIsItsCall(cfg, t, who, now, op);
    LoginTouchesNoRow(cfg, t, who, now);
    assert NormalizeUsername(TokenOf(cfg, t, who, now).subject) == who by { TokenOfIsAccepted(cfg, t, who, now); }
    ServedChangeBumps(cfg, t, Call(now, op), who);
    ChangesOfTwoCalls(cfg, t, LoginOf(who, now), Call(now, op), who);
  }

  lemma LoginTouchesNoRow(cfg: Config, t: DB, who: string, now: int)
    ensures Next(cfg, t, LoginOf(who, now)) == t
    ensures !Bumps(cfg, t, LoginOf(who, now), who) && !DeletesUser(cfg, t, LoginOf(who, now), who)
  {
  }

  lemma ChangesOfTwoCalls(cfg: Config, t: DB, a: Call, b: Call, who: string)
    requires Next(cfg, t, a) == t && !Bumps(cfg, t, a, who) && !DeletesUser(cfg, t, a, who)
    ensures BumpCount(cfg, t, [a, b], who) == if Bumps(cfg, t, b, who) then 1 else 0
    ensures NeverDeleted(cfg, t, [a, b], who) <==> !DeletesUser(cfg, t, b, who)
  {
    assert [a, b][1..] == [b] && [b][1..] == [];
    assert BumpCount(cfg, Next(cfg, t, b), [], who) == 0 && NeverDeleted(cfg, Next(cfg, t, b), [], who);
    assert BumpCount(cfg, t, [b], who) == if Bumps(cfg, t, b, who) then 1 else 0;
    assert NeverDeleted(cfg, t, [b], who) <==> !DeletesUser(cfg, t, b, who);
  }

  lemma ServedChangeBumps(cfg: Config, t: DB, call: Call, who: string)
    requires call.op.MePassword? && call.op.bearer.Some? && NormalizeUsername(call.op.bearer.value.subject) == who
    requires ReplyTo(cfg, t, call) == Status(200) && who in Next(cfg, t, call).users
    ensures Bumps(cfg, t, call, who) && !DeletesUser(cfg, t, call, who)
  {
  }

  /** Anyone may change their own password, as often as they like. */
  lemma {:induction false} PasswordChanges(cfg: Config, t: DB, who: string, count: nat, now: int)
    returns (calls: seq<Call>)
    requires who in t.users && ValidUsername(who) && Mints(cfg, now)
    ensures NeverDeleted(cfg, t, calls, who) && BumpCount(cfg, t, calls, who) == count
    ensures who in Run(cfg, t, calls).users
    ensures Run(cfg, t, calls).users[who].isAdmin == t.users[who].isAdmin
    ensures Honest(cfg, t, calls, {}) && AllAt(calls, now)
    decreases count
  {
    if count == 0 {
      calls := [];
    } else {
      var first := Visit(who, now, OwnChange(cfg, t, who, now));
      OwnVisitBumps(cfg, t, who, now);
      VisitIsItsCall(cfg, t, who, now, OwnChange(cfg, t, who, now));
      var t' := Run(cfg, t, first);
      var rest := PasswordChanges(cfg, t', who, count - 1, now);
      calls := first + rest;
      BumpsAdd(cfg, t, first, rest, who);
      RunSplits(cfg, t, first, rest);
      HonestRunsJoin(cfg, t, first, rest, first + rest, {});
    }
  }

  predicate HasAdmin(t: DB, a: string) {
    a in t.users && t.users[a].isAdmin
  }

  /** `admin` logs in and makes one request. */
  function AdminVisit(cfg: Config, t: DB, admin: string, now: int, request: AdminOp): seq<Call>
    requires admin in t.users && ValidUsername(admin) && Mints(cfg, now)
  {
    Visit(admin, now, Admin(Some(TokenOf(cfg, t, admin, now)), request))
  }

  lemma AdminVisitIsServed(cfg: Config, t: DB, admin: string, now: int, request: AdminOp)
    requires HasAdmin(t, admin) && ValidUsername(admin) && Mints(cfg, now)
    ensures var calls := AdminVisit(cfg, t, admin, now, request);
            && Run(cfg, t, calls) == HandleAdmin(t, now, TokenOf(cfg, t, admin, now), request).0
            && Honest(cfg, t, calls, {}) && AllAt(calls, now)
  {
    var op := Admin(Some(TokenOf(cfg, t, admin, now)), request);
    TokenOfIsAccepted(cfg, t, admin, now);
    VisitIsItsCall(cfg, t, admin, now, op);
    AdminCallIsTheRequest(cfg, t, Call(now, op));
  }

  /** There is, or can be made, an admin besides `who`. */
  lemma AnotherAdmin(cfg: Config, t: DB, who: string, now: int) returns (calls: seq<Call>, admin: string)
    requires Inv(t) && t.users != map[] && Mints(cfg, now)
    ensures admin != who && HasAdmin(Run(cfg, t, calls), admin)
    ensures Honest(cfg, t, calls, {}) && AllAt(calls, now)
  {
    if a :| a in Admins(t) && a != who {
      calls, admin := [], a;
    } else {
      var a :| a in Admins(t);
      assert a == who;
      var request;
      request, admin := RequestForAnother(t, who, now, TokenOf(cfg, t, who, now));
      calls := AdminVisit(cfg, t, who, now, request);
      AdminVisitIsServed(cfg, t, who, now, request);
    }
  }

  lemma RequestForAnother(t: DB, who: string, now: int, claims: Claims) returns (request: AdminOp, admin: string)
    requires Inv(t)
    ensures admin != who && HasAdmin(HandleAdmin(t, now, claims, request).0, admin)
  {
    if u :| u in t.users && u != who {
      request, admin := UsersSetAdmin(u, true), u;
      PromotionMakesAnAdmin(t, now, u);
    } else {
      admin := if who == "a" then "b" else "a";
      request := UsersCreate(admin, SomePassword(), admin, true, "h");
      CreationMakesAnAdmin(t, now, admin);
    }
  }

  lemma PromotionMakesAnAdmin(t: DB, now: int, u: string)
    requires u in t.users && ValidUsername(u)
    ensures HasAdmin(HandleUsersSetAdmin(t, now, u, true).0, u)
  {
    PlainName(u);
  }

  lemma CreationMakesAnAdmin(t: DB, now: int, u: string)
    requires u !in t.users && ValidUsername(u)
    ensures HasAdmin(HandleUsersCreate(t, now, u, SomePassword(), u, true, "h").0, u)
  {
    PlainName(u);
    SomePasswordIsValid();
  }

  lemma Removed(cfg: Config, t: DB, who: string, admin: string, now: int) returns (calls: seq<Call>)
    requires Inv(t) && admin != who && HasAdmin(t, admin) && Mints(cfg, now)
    ensures who !in Run(cfg, t, calls).users && HasAdmin(Run(cfg, t, calls), admin)
    ensures Honest(cfg, t, calls, {}) && AllAt(calls, now)
  {
    if who !in t.users {
      calls := [];
    } else {
      calls := AdminVisit(cfg, t, admin, now, UsersDelete(who));
      AdminVisitIsServed(cfg, t, admin, now, UsersDelete(who));
      DeleteLeavesTheOther(t, who, admin);
    }
  }

  lemma DeleteLeavesTheOther(t: DB, who: string, admin: string)
    requires who in t.users && ValidUsername(who) && admin != who && HasAdmin(t, admin)
    ensures var t' := HandleUsersDelete(t, who).0; who !in t'.users && HasAdmin(t', admin)
  {
    PlainName(who);
    if t.users[who].isAdmin { TwoApart(Admins(t), admin, who); }
  }

  lemma TwoApart(s: set<string>, x: string, y: string)
    requires x in s && y in s && x != y
    ensures |s| > 1
  {
    assert y in s - {x};
    assert |s - {x}| == |s| - 1;
  }

  lemma Created(cfg: Config, t: DB, who: string, admin: string, isAdmin: bool, now: int) returns (calls: seq<Call>)
    requires Inv(t) && HasAdmin(t, admin) && who !in t.users && ValidUsername(who) && Mints(cfg, now)
    ensures var t' := Run(cfg, t, calls);
            who in t'.users && t'.users[who].isAdmin == isAdmin && t'.users[who].tokenVersion == 0
    ensures Honest(cfg, t, calls, {}) && AllAt(calls, now)
  {
    var request := UsersCreate(who, SomePassword(), who, isAdmin, "h");
    calls := AdminVisit(cfg, t, admin, now, request);
    AdminVisitIsServed(cfg, t, admin, now, request);
    PlainName(who);
    SomePasswordIsValid();
  }

  /**
   From any state that has users, calls at one instant can give `who` a row of any role and any version, each made
   with a token that an earlier one of them handed out.
   */
  lemma AnyRowCanBeMade(cfg: Config, t: DB, who: string, isAdmin: bool, version: nat, now: int)
    returns (calls: seq<Call>)
    requires Inv(t) && t.users != map[] && ValidUsername(who) && Mints(cfg, now)
    ensures var end := Run(cfg, t, calls);
            && who in end.users && end.users[who].isAdmin == isAdmin && end.users[who].tokenVersion == version
    ensures Honest(cfg, t, calls, {}) && AllAt(calls, now)
  {
    var first, admin := AnotherAdmin(cfg, t, who, now);
    RunKeepsInv(cfg, t, first);
    var t1 := Run(cfg, t, first);
    var second := Removed(cfg, t1, who, admin, now);
    RunKeepsInv(cfg, t1, second);
    var t2 := Run(cfg, t1, second);
    var third := Created(cfg, t2, who, admin, isAdmin, now);
    var t3 := Run(cfg, t2, third);
    var rest := PasswordChanges(cfg, t3, who, version, now);
    RowAfterRun(cfg, t3, rest, who);
    calls := first + (second + (third + rest));
    RunsJoin(cfg, t2, third, rest);
    RunsJoin(cfg, t1, second, third + rest);
    RunsJoin(cfg, t, first, second + (third + rest));
  }

  lemma RunsJoin(cfg: Config, t: DB, first: seq<Call>, second: seq<Call>)
    requires Honest(cfg, t, first, {}) && Honest(cfg, Run(cfg, t, first), second, {})
    ensures Run(cfg, t, first + second) == Run(cfg, Run(cfg, t, first), second)
    ensures Honest(cfg, t, first + second, {})
  {
    RunSplits(cfg, t, first, second);
    HonestRunsJoin(cfg, t, first, second, first + second, {});
  }

  /** Once something was minted that has not expired, mints still succeed. */
  lemma LaterMints(cfg: Config, t: DB, mintedAt: int, subject: string, name: string, now: int)
    requires MintFor(cfg, t, mintedAt, subject, name).Ok? && mintedAt <= now
    requires now < MintFor(cfg, t, mintedAt, subject, name).value.expSec * NANOS
    ensures Mints(cfg, now)
  {
    assert (mintedAt + cfg.ttl) / NANOS <= (now + cfg.ttl) / NANOS;
  }

  /**
   So no token is dead before its expiry, nor sure to be fresh: from every reachable state after its minting there
   are further calls after which it is accepted, whether or not it was revoked in between, and with its subject in
   either role. The calls are all made at `now`, by users who log in first.
   */
  lemma NoTokenIsRevokedForGood(
    cfg: Config, before: seq<Call>, mintedAt: int, subject: string, name: string, after: seq<Call>, now: int,
    isAdmin: bool)
    returns (more: seq<Call>)
    requires MintFor(cfg, Run(cfg, EMPTY, before), mintedAt, subject, name).Ok? && mintedAt <= now
    requires now < MintFor(cfg, Run(cfg, EMPTY, before), mintedAt, subject, name).value.expSec * NANOS
    ensures var token := MintFor(cfg, Run(cfg, EMPTY, before), mintedAt, subject, name).value.token;
            var end := Run(cfg, EMPTY, before + after + more);
            VerifyAuthn(cfg, end, now, token) == Ok(token) && IsAdmin(end, subject) == isAdmin
    ensures Honest(cfg, Run(cfg, EMPTY, before + after), more, {}) && AllAt(more, now)
  {
    var t, t1, who := Run(cfg, EMPTY, before), Run(cfg, EMPTY, before + after), NormalizeUsername(subject);
    RunKeepsInv(cfg, EMPTY, before);
    RunSplits(cfg, EMPTY, before, after);
    RunKeepsInv(cfg, t, after);
    MintedTokenVerifies(cfg, t, mintedAt, subject, name, now);
    LaterMints(cfg, t, mintedAt, subject, name, now);
    UsersRemain(cfg, t, after);
    more := AnyRowCanBeMade(cfg, t1, who, isAdmin, t.users[who].tokenVersion, now);
    RunSplits(cfg, EMPTY, before + after, more);
  }

  lemma {:induction false} UsersRemain(cfg: Config, t: DB, calls: seq<Call>)
    requires Inv(t) && t.users != map[]
    ensures Run(cfg, t, calls).users != map[]
    decreases |calls|
  {
    if calls != [] {
      StepKeepsInv(cfg, t, calls[0]);
      StepKeepsUsers(cfg, t, calls[0]);
      UsersRemain(cfg, Next(cfg, t, calls[0]), calls[1..]);
    }
  }

  /**
   The token is refused after every continuation without deletion of its subject: of all, or, if `honest`, of those
   at the one instant whose calls present only tokens they handed out.
   */
  ghost predicate RefusedThroughout(cfg: Config, t: DB, who: string, token: Claims, instant: int, honest: bool) {
    forall second, later |
      && NeverDeleted(cfg, t, second, who)
      && (honest ==> later == instant && Honest(cfg, t, second, {}) && AllAt(second, instant))
      :: VerifyAuthn(cfg, Run(cfg, t, second), later, token).Err?
  }

  /** Short of deletion, a refused token is refused for good exactly when the row's version is past its stamp. */
  lemma RefusedForGoodIff(
    cfg: Config, t: DB, mintedAt: int, subject: string, name: string, first: seq<Call>, refusedAt: int, honest: bool)
    requires Inv(t) && MintFor(cfg, t, mintedAt, subject, name).Ok? && mintedAt <= refusedAt
    requires VerifyAuthn(cfg, Run(cfg, t, first), refusedAt, MintFor(cfg, t, mintedAt, subject, name).value.token)
          == Err(Revoked)
    ensures var token, who := MintFor(cfg, t, mintedAt, subject, name).value.token, NormalizeUsername(subject);
            var t1 := Run(cfg, t, first);
            && who in t1.users
            && (RefusedThroughout(cfg, t1, who, token, refusedAt, honest)
                <==> token.tokenVersion < t1.users[who].tokenVersion)
  {
    var token, who := MintFor(cfg, t, mintedAt, subject, name).value.token, NormalizeUsername(subject);
    var t1 := Run(cfg, t, first);
    RunKeepsInv(cfg, t, first);
    if token.tokenVersion < t1.users[who].tokenVersion {
      forall second, later | NeverDeleted(cfg, t1, second, who)
        ensures VerifyAuthn(cfg, Run(cfg, t1, second), later, token).Err?
      {
        RowAfterRun(cfg, t1, second, who);
      }
    } else {
      LaterMints(cfg, t, mintedAt, subject, name, refusedAt);
      var missing := token.tokenVersion - t1.users[who].tokenVersion;
      var second := PasswordChanges(cfg, t1, who, missing, refusedAt);
      RowAfterRun(cfg, t1, second, who);
      assert VerifyAuthn(cfg, Run(cfg, t1, second), refusedAt, token) == Ok(token);
    }
  }

  // ---------- one such run ----------

  /**
   Without the condition on deletion all three claims fail of one run, whoever its cast. From two first calls the
   user's password is changed, which revokes the token; the user is deleted and created again as no admin, and the
   token is accepted although there was a change, although it was refused before, and, if the user was an admin,
   although it carries the wildcard. Every token presented was handed out by an earlier reply of the run.
   */
  lemma DeletionConditionIsNeeded(c: Cast, isAdmin: bool)
    requires ValidCast(c)
    ensures var t := Run(CONFIG, EMPTY, Opening(c, isAdmin));
            var calls := [ChangePassword(c), DropUser(c), CreateUser(c, false)];
            var token, end := FirstToken(c.user, isAdmin), Run(CONFIG, t, calls);
            && MintFor(CONFIG, t, 0, c.user, c.user) == Ok(Minted(token, 100, 100_000))
            && Honest(CONFIG, EMPTY, Opening(c, isAdmin) + calls, {})
            && BumpCount(CONFIG, t, calls, c.user) > 0
            && VerifyAuthn(CONFIG, Run(CONFIG, t, calls[..1]), 0, token) == Err(Revoked)
            && VerifyAuthn(CONFIG, end, 0, token) == Ok(token)
            && (isAdmin ==> Lists(token.resources, WILDCARD) && !IsAdmin(end, c.user))
  {
    OpeningReaches(c, isAdmin);
    FirstTokenIsMinted(c, isAdmin);
    OpeningIsHonest(c, isAdmin, [ChangePassword(c), DropUser(c), CreateUser(c, false)]);
    CallsOfTheRun(c, isAdmin);
    FirstTokenOn(c, isAdmin, ChangedRow(c.user, isAdmin));
    FirstTokenOn(c, isAdmin, NewRow(c.user, false));
    var calls := [ChangePassword(c), DropUser(c), CreateUser(c, false)];
    assert calls[..1] == [ChangePassword(c)];
    ChangeBumps(c, NewRow(c.user, isAdmin));
    FirstBumpCounts(CONFIG, State(c, Some(NewRow(c.user, isAdmin))), calls, c.user);
    if isAdmin { assert FirstToken(c.user, isAdmin).resources[0].resourceId == WILDCARD; }
  }

  lemma CallsOfTheRun(c: Cast, isAdmin: bool)
    requires ValidCast(c)
    ensures var t := State(c, Some(NewRow(c.user, isAdmin)));
            && Run(CONFIG, t, [ChangePassword(c)]) == State(c, Some(ChangedRow(c.user, isAdmin)))
            && Run(CONFIG, t, [ChangePassword(c), DropUser(c), CreateUser(c, false)])
               == State(c, Some(NewRow(c.user, false)))
  {
    var last := [CreateUser(c, false)] + [];
    RunAfterChange(c, isAdmin, []);
    RunAfterChange(c, isAdmin, [DropUser(c)] + last);
    RunAfterDrop(c, ChangedRow(c.user, isAdmin), last);
    RunAfterCreate(c, false, []);
    assert [ChangePassword(c)] + [] == [ChangePassword(c)];
    assert [ChangePassword(c)] + ([DropUser(c)] + last) == [ChangePassword(c), DropUser(c), CreateUser(c, false)];
  }

  lemma ChangeBumps(c: Cast, row: User)
    requires ValidCast(c)
    ensures Bumps(CONFIG, State(c, Some(row)), ChangePassword(c), c.user)
  {
    PasswordIsChanged(c, row);
    PlainName(c.user);
  }

  lemma FirstBumpCounts(cfg: Config, t: DB, calls: seq<Call>, who: string)
    requires calls != [] && Bumps(cfg, t, calls[0], who)
    ensures BumpCount(cfg, t, calls, who) > 0
  {
  }

  /** There is such a cast, so the claims do fail. */
  lemma SomeRunRefutes(isAdmin: bool) returns (who: string, calls: seq<Call>, c: Cast)
    ensures var t, token := Run(CONFIG, EMPTY, Opening(c, isAdmin)), FirstToken(who, isAdmin);
            && MintFor(CONFIG, t, 0, who, who) == Ok(Minted(token, 100, 100_000))
            && BumpCount(CONFIG, t, calls, who) > 0 && VerifyAuthn(CONFIG, Run(CONFIG, t, calls), 0, token) == Ok(token)
            && Honest(CONFIG, EMPTY, Opening(c, isAdmin) + calls, {})
  {
    c := SomeCast();
    CastIsValid();
    who, calls := c.user, [ChangePassword(c), DropUser(c), CreateUser(c, false)];
    DeletionConditionIsNeeded(c, isAdmin);
  }
}
