/**
 Mints and guarded removals as the several store calls they are: what they come to with other calls in between, and
 that it is the one-step form when nothing falls between.
 */
module Interleaved {
  import opened GoStrings
  import opened Tables
  import opened Service
  import opened ControlPlane
  import opened UserRows
  import opened ControlInvariants
  import opened Revocation
  import opened ExampleRun

  // ---------- a mint reads three times ----------

  /** The mint reads the role in one state, the rows in a second and the stamp in a third; None is any failure. */
  function MintApart(cfg: Config, role: DB, rows: DB, stamp: DB, now: int, subject: string, displayName: string)
    : Option<Minted>
  {
    match (EffectiveResources(rows.(users := role.users), subject), Tables.GetUser(stamp, subject))
    case (Some(entries), Ok(u)) =>
      var expSec := (now + cfg.ttl) / NANOS;
      var name := if displayName == "" then subject else displayName;
      if now >= expSec * NANOS then None
      else
        Some(Minted(
          Claims(subject, cfg.issuer, cfg.audience, expSec, name, subject, entries, u.tokenVersion),
          expSec, expSec * 1000))
    case _ => None
  }

  lemma MintAtOnce(cfg: Config, t: DB, now: int, subject: string, displayName: string)
    ensures MintApart(cfg, t, t, t, now, subject, displayName)
         == match MintFor(cfg, t, now, subject, displayName) case Ok(m) => Some(m) case Err(_) => None
  {
    assert t.(users := t.users) == t;
  }

  lemma ApartCarries(cfg: Config, role: DB, rows: DB, stamp: DB, mintedAt: int, subject: string, name: string)
    requires Inv(rows) && MintApart(cfg, role, rows, stamp, mintedAt, subject, name).Some?
    ensures var m := MintApart(cfg, role, rows, stamp, mintedAt, subject, name).value;
            && (Lists(m.token.resources, WILDCARD) <==> IsAdmin(role, subject))
            && NormalizeUsername(subject) in stamp.users
            && m.token.tokenVersion == stamp.users[NormalizeUsername(subject)].tokenVersion
  {
    CanonicalGrantsLeaveTheWildcard(rows.(users := role.users), subject);
  }

  /** However the reads fall, the token is accepted exactly until the first change after the last of them. */
  lemma AcceptedApartIff(
    cfg: Config, role: DB, rows: DB, stamp: DB, mintedAt: int, subject: string, name: string, after: seq<Call>,
    now: int)
    requires Inv(rows) && MintApart(cfg, role, rows, stamp, mintedAt, subject, name).Some?
    requires NeverDeleted(cfg, stamp, after, NormalizeUsername(subject))
    ensures var m := MintApart(cfg, role, rows, stamp, mintedAt, subject, name).value;
            VerifyAuthn(cfg, Run(cfg, stamp, after), now, m.token).Ok?
            <==> now < m.expSec * NANOS && BumpCount(cfg, stamp, after, NormalizeUsername(subject)) == 0
  {
    SubjectIsNamed(stamp, subject);
    RowAfterRun(cfg, stamp, after, NormalizeUsername(subject));
  }

  lemma SubjectIsNamed(t: DB, subject: string)
    requires Tables.GetUser(t, subject).Ok?
    ensures TrimSpace(subject) != "" && NormalizeUsername(subject) in t.users
  {
    assert |NormalizeUsername(subject)| == |TrimSpace(subject)|;
  }

  /**
   In every reachable state, a token still accepted carries the wildcard exactly when its subject is an admin now, if
   and only if the role was the same at the first read and at the last.
   */
  lemma FreshApartIff(
    cfg: Config, before: seq<Call>, toRows: seq<Call>, toStamp: seq<Call>, after: seq<Call>,
    mintedAt: int, subject: string, name: string, now: int)
    requires var t1 := Run(cfg, EMPTY, before);
             var t2 := Run(cfg, t1, toRows);
             var t3 := Run(cfg, t2, toStamp);
             && MintApart(cfg, t1, t2, t3, mintedAt, subject, name).Some?
             && NeverDeleted(cfg, t3, after, NormalizeUsername(subject))
             && VerifyAuthn(cfg, Run(cfg, t3, after), now,
                            MintApart(cfg, t1, t2, t3, mintedAt, subject, name).value.token).Ok?
    ensures var t1 := Run(cfg, EMPTY, before);
            var t2 := Run(cfg, t1, toRows);
            var t3 := Run(cfg, t2, toStamp);
            var token := MintApart(cfg, t1, t2, t3, mintedAt, subject, name).value.token;
            (Lists(token.resources, WILDCARD) <==> IsAdmin(Run(cfg, t3, after), subject))
            <==> IsAdmin(t1, subject) == IsAdmin(t3, subject)
  {
    var t1 := Run(cfg, EMPTY, before);
    var t2 := Run(cfg, t1, toRows);
    var t3 := Run(cfg, t2, toStamp);
    RunKeepsInv(cfg, EMPTY, before);
    RunKeepsInv(cfg, t1, toRows);
    ApartCarries(cfg, t1, t2, t3, mintedAt, subject, name);
    AcceptedApartIff(cfg, t1, t2, t3, mintedAt, subject, name, after, now);
    RowAfterRun(cfg, t3, after, NormalizeUsername(subject));
  }

  /**
   One such run: the user is demoted after the role is read and before the stamp is. The token carries the wildcard
   under the new version, and is accepted although its subject is no admin.
   */
  lemma DemotionBetweenTheReads(c: Cast)
    requires ValidCast(c)
    ensures var t := Run(CONFIG, EMPTY, Opening(c, true));
            var t' := Run(CONFIG, t, [DemoteUser(c)]);
            var m := MintApart(CONFIG, t, t, t', 0, c.user, c.user);
            && m.Some? && Lists(m.value.token.resources, WILDCARD)
            && VerifyAuthn(CONFIG, t', 0, m.value.token) == Ok(m.value.token) && !IsAdmin(t', c.user)
    ensures Honest(CONFIG, EMPTY, Opening(c, true) + [DemoteUser(c)], {})
  {
    var t, row' := State(c, Some(NewRow(c.user, true))), NewRow(c.user, false).(tokenVersion := 1);
    OpeningIsHonest(c, true, [DemoteUser(c)]);
    OpeningReaches(c, true);
    UserIsDemoted(c);
    RunAfter(CONFIG, t, DemoteUser(c), []);
    assert [DemoteUser(c)] + [] == [DemoteUser(c)];
    MintedAcrossTheDemotion(c, State(c, Some(row')));
  }

  lemma MintedAcrossTheDemotion(c: Cast, t': DB)
    requires ValidCast(c) && t' == State(c, Some(NewRow(c.user, false).(tokenVersion := 1)))
    ensures var t := State(c, Some(NewRow(c.user, true)));
            var m := MintApart(CONFIG, t, t, t', 0, c.user, c.user);
            && m.Some? && Lists(m.value.token.resources, WILDCARD)
            && VerifyAuthn(CONFIG, t', 0, m.value.token) == Ok(m.value.token) && !IsAdmin(t', c.user)
  {
    var t := State(c, Some(NewRow(c.user, true)));
    FirstTokenIsMinted(c, true);
    PlainName(c.user);
    assert t.(users := t.users) == t;
    assert EffectiveResources(t, c.user) == Some(Carried(true));
    assert Carried(true)[0].resourceId == WILDCARD;
  }

  // ---------- a guarded removal reads, then writes ----------

  /** An admin's request that may take an admin away. */
  datatype Removal = Demotion(name: string) | Deletion(name: string)

  /** What the handler reads before it writes. */
  predicate Guard(t: DB, r: Removal) {
    Tables.GetUser(t, r.name).Ok? && !(Tables.GetUser(t, r.name).value.isAdmin && |Admins(t)| <= 1)
  }

  /** The write on its own: a refused one changes nothing. */
  function Write(t: DB, r: Removal, now: int): DB {
    var result := match r
      case Demotion(name) => Tables.SetAdmin(t, name, false, now / NANOS)
      case Deletion(name) => Tables.DeleteUser(t, name);
    if result.Ok? then result.value else t
  }

  lemma GuardThenWriteIsTheHandler(t: DB, name: string, now: int)
    ensures HandleUsersSetAdmin(t, now, name, false).0
         == if Guard(t, Demotion(name)) then Write(t, Demotion(name), now) else t
    ensures HandleUsersDelete(t, name).0 == if Guard(t, Deletion(name)) then Write(t, Deletion(name), now) else t
  {
  }

  function WriteAll(t: DB, rs: seq<Removal>, now: int): DB {
    if rs == [] then t else Write(WriteAll(t, rs[..|rs| - 1], now), rs[|rs| - 1], now)
  }

  function Targets(rs: seq<Removal>): set<string> {
    set r | r in rs :: NormalizeUsername(r.name)
  }

  lemma WriteTakesItsTarget(t: DB, r: Removal, now: int)
    requires SchemaHolds(t)
    ensures SchemaHolds(Write(t, r, now))
    ensures Admins(Write(t, r, now)) == Admins(t) - {NormalizeUsername(r.name)}
  {
    UserStatementsKeepSchema(t, r.name, "", "", false, now / NANOS);
  }

  lemma {:induction false} WritesTakeTheirTargets(t: DB, rs: seq<Removal>, now: int)
    requires SchemaHolds(t)
    ensures SchemaHolds(WriteAll(t, rs, now)) && Admins(WriteAll(t, rs, now)) == Admins(t) - Targets(rs)
  {
    if rs != [] {
      var n := |rs| - 1;
      WritesTakeTheirTargets(t, rs[..n], now);
      WriteTakesItsTarget(WriteAll(t, rs[..n], now), rs[n], now);
      assert rs == rs[..n] + [rs[n]];
      assert Targets(rs) == Targets(rs[..n]) + {NormalizeUsername(rs[n].name)};
    }
  }

  /**
   Requests that all pass their guards in one state and then write, in any order, leave an admin exactly when some
   admin of that state is nobody's target. A single one always does.
   */
  lemma GuardsApartKeepAnAdminIff(t: DB, rs: seq<Removal>, now: int)
    requires Inv(t) && t.users != map[] && forall r | r in rs :: Guard(t, r)
    ensures Admins(WriteAll(t, rs, now)) != {} <==> !(Admins(t) <= Targets(rs))
    ensures |rs| <= 1 ==> Admins(WriteAll(t, rs, now)) != {}
  {
    WritesTakeTheirTargets(t, rs, now);
    NothingLeftIff(Admins(t), Targets(rs));
    if rs == [] {
      assert Targets(rs) == {};
    } else if |rs| == 1 {
      assert rs == [rs[0]];
      assert Targets(rs) == {NormalizeUsername(rs[0].name)};
      GuardedTargetIsNotAll(t, rs[0]);
    }
  }

  lemma NothingLeftIff(s: set<string>, taken: set<string>)
    ensures s - taken == {} <==> s <= taken
  {
    if s - taken == {} {
      forall x | x in s ensures x in taken { assert x !in s - taken; }
    }
  }

  lemma GuardedTargetIsNotAll(t: DB, r: Removal)
    requires Inv(t) && t.users != map[] && Guard(t, r)
    ensures Admins(t) - {NormalizeUsername(r.name)} != {}
  {
    var norm := NormalizeUsername(r.name);
    if norm in Admins(t) {
      TwoMembers(Admins(t), norm);
    } else {
      assert Admins(t) - {norm} == Admins(t);
    }
  }

  /** One such pair: both admins are demoted at once, each guard counting the other, and no admin is left. */
  lemma TwoDemotionsLeaveNoAdmin(c: Cast)
    requires ValidCast(c)
    ensures var t, rs := Run(CONFIG, EMPTY, Opening(c, true)), [Demotion(c.admin), Demotion(c.user)];
            && Guard(t, rs[0]) && Guard(t, rs[1])
            && Admins(WriteAll(t, rs, 0)) == {} && WriteAll(t, rs, 0).users != map[]
  {
    OpeningReaches(c, true);
    var t, rs := State(c, Some(NewRow(c.user, true))), [Demotion(c.admin), Demotion(c.user)];
    TwoAdmins(c);
    WritesTakeTheirTargets(t, rs, 0);
    assert rs[0] in rs && rs[1] in rs;
    NothingLeftIff(Admins(t), Targets(rs));
    DemotionsKeepUsers(t, rs);
    assert c.admin in t.users.Keys;
  }

  lemma TwoAdmins(c: Cast)
    requires ValidCast(c)
    ensures var t := State(c, Some(NewRow(c.user, true)));
            && SchemaHolds(t) && Admins(t) == {c.admin, c.user}
            && NormalizeUsername(c.admin) == c.admin && NormalizeUsername(c.user) == c.user
            && Guard(t, Demotion(c.admin)) && Guard(t, Demotion(c.user))
  {
    PlainName(c.admin);
    PlainName(c.user);
    assert Admins(State(c, Some(NewRow(c.user, true)))) == {c.admin, c.user};
  }

  lemma {:induction false} DemotionsKeepUsers(t: DB, rs: seq<Removal>)
    requires forall r | r in rs :: r.Demotion?
    ensures WriteAll(t, rs, 0).users.Keys == t.users.Keys
  {
    if rs != [] {
      DemotionsKeepUsers(t, rs[..|rs| - 1]);
    }
  }
}
