/**
 Who gets past each gate and who is handed a token: what the handlers' answers mean in terms of the tokens presented
 and the rows that stand.
 */
module Gates {
  import opened GoStrings
  import opened Tables
  import opened ResourceIds
  import opened Service
  import opened ControlPlane
  import opened UserRows
  import opened ControlInvariants
  import opened Revocation
  import opened Recreation
  import opened Permissions

  /**
   The gate accepts a token while it is unexpired, from this issuer for this audience, and its subject's row stands at
   the version stamped; the refusal tells which of these failed first.
   */
  lemma AcceptedIff(cfg: Config, t: DB, now: int, token: Claims)
    ensures var signedForUs := now < token.expSec * NANOS && token.issuer == cfg.issuer
                               && token.audience == cfg.audience && TrimSpace(token.subject) != "";
            var who := NormalizeUsername(token.subject);
            VerifyAuthn(cfg, t, now, token)
            == if !signedForUs then Err(Rejected)
               else if who !in t.users then Err(SubjectNotFound)
               else if t.users[who].tokenVersion != token.tokenVersion then Err(Revoked)
               else Ok(token)
  {
    assert |NormalizeUsername(token.subject)| == |TrimSpace(token.subject)|;
  }

  predicate Accepted(cfg: Config, t: DB, now: int, bearer: Option<Claims>) {
    bearer.Some? && VerifyAuthn(cfg, t, now, bearer.value).Ok?
  }

  // ---------- no way past a refused token ----------

  /** An admin request answers 401 exactly without an accepted token, 403 exactly to an accepted non-admin. */
  lemma AdminGateIff(cfg: Config, t: DB, call: Call)
    requires call.op.Admin?
    ensures ReplyTo(cfg, t, call) == Status(401) <==> !Accepted(cfg, t, call.now, call.op.bearer)
    ensures ReplyTo(cfg, t, call) == Status(403)
            <==> Accepted(cfg, t, call.now, call.op.bearer) && !IsAdmin(t, call.op.bearer.value.subject)
    ensures ReplyTo(cfg, t, call) == Status(401) || ReplyTo(cfg, t, call) == Status(403) ==> Next(cfg, t, call) == t
  {
    var claims := ApiAdmin(cfg, t, call.now, call.op.bearer);
    if claims.Ok? { RequestIsNotAGate(t, call.now, claims.value, call.op.request); }
  }

  lemma RequestIsNotAGate(t: DB, now: int, claims: Claims, request: AdminOp)
    ensures HandleAdmin(t, now, claims, request).1 != Status(401)
    ensures HandleAdmin(t, now, claims, request).1 != Status(403)
  {
  }

  /** One's own password changes, and anything but 401 is answered, only with an accepted token. */
  lemma OwnPasswordGate(cfg: Config, t: DB, call: Call)
    requires call.op.MePassword? && !Accepted(cfg, t, call.now, call.op.bearer)
    ensures ReplyTo(cfg, t, call) == Status(401) && Next(cfg, t, call) == t
  {
  }

  /** The registry and exchange RPCs answer Unauthenticated exactly without an accepted token. */
  lemma RpcGateIff(cfg: Config, t: DB, call: Call)
    requires call.op.RebacCreate? || call.op.RebacDelete? || call.op.Exchange?
    ensures ReplyTo(cfg, t, call) == GrpcStatus(Unauthenticated)
            <==> !Accepted(cfg, t, call.now, BearerOf(call.op))
    ensures ReplyTo(cfg, t, call) == GrpcStatus(Unauthenticated) ==> Next(cfg, t, call) == t
  {
    match call.op
    case RebacCreate(b, input, name) =>
      if Accepted(cfg, t, call.now, b) { RebacCreateIsNotAGate(cfg, t, call.now, b, input, name); }
    case _ =>
  }

  lemma RebacCreateIsNotAGate(cfg: Config, t: DB, now: int, b: Option<Claims>, input: string, name: string)
    requires Accepted(cfg, t, now, b)
    ensures HandleRebacCreate(cfg, t, now, b, input, name).1 != GrpcStatus(Unauthenticated)
  {
  }

  /** The bearer of a check must be there; a target token, if given, is the one to be accepted and asked about. */
  lemma CheckGateIff(cfg: Config, t: DB, now: int, bearer: Presented, target: Presented, requested: seq<string>)
    ensures CheckUserPermission(cfg, t, now, bearer, target, requested).Some?
            <==> && bearer != Absent
                 && (var asked := if target == Absent then bearer else target;
                     asked.Signed? && VerifyAuthn(cfg, t, now, asked.claims).Ok?)
    ensures CheckSubject(cfg, t, now, bearer, target).Some? ==>
              CheckSubject(cfg, t, now, bearer, target)
              == Some((if target == Absent then bearer else target).claims.subject)
  {
  }

  lemma LookupGateIff(cfg: Config, t: DB, now: int, bearer: Presented, filter: string)
    ensures LookupUserPermissions(cfg, t, now, bearer, filter).Some?
            <==> bearer.Signed? && VerifyAuthn(cfg, t, now, bearer.claims).Ok?
  {
  }

  /** The answer of a gate that refuses. */
  predicate Refused(op: Op, reply: Reply) {
    if op.Admin? || op.MePassword? then reply == Status(401) else reply == GrpcStatus(Unauthenticated)
  }

  lemma UnacceptedIsRefused(cfg: Config, t: DB, call: Call)
    requires call.op.Admin? || call.op.MePassword? || call.op.RebacCreate? || call.op.RebacDelete? || call.op.Exchange?
    requires !Accepted(cfg, t, call.now, BearerOf(call.op))
    ensures Refused(call.op, ReplyTo(cfg, t, call)) && Next(cfg, t, call) == t
  {
    if call.op.Admin? {
      AdminGateIff(cfg, t, call);
    } else if call.op.MePassword? {
      OwnPasswordGate(cfg, t, call);
    } else {
      RpcGateIff(cfg, t, call);
    }
  }

  /**
   Once its subject's password or role has changed, in a run that does not delete the subject, every request with a
   token minted before is refused and changes nothing.
   */
  lemma RevokedTokenDoesNothing(
    cfg: Config, t: DB, mintedAt: int, subject: string, name: string, calls: seq<Call>, call: Call)
    requires MintFor(cfg, t, mintedAt, subject, name).Ok?
    requires NeverDeleted(cfg, t, calls, NormalizeUsername(subject))
    requires BumpCount(cfg, t, calls, NormalizeUsername(subject)) > 0
    requires BearerOf(call.op) == Some(MintFor(cfg, t, mintedAt, subject, name).value.token)
    ensures Refused(call.op, ReplyTo(cfg, Run(cfg, t, calls), call))
    ensures Next(cfg, Run(cfg, t, calls), call) == Run(cfg, t, calls)
  {
    RefusedAfterChange(cfg, t, mintedAt, subject, name, calls, call.now);
    UnacceptedIsRefused(cfg, Run(cfg, t, calls), call);
  }

  /** And neither permission query answers it, or answers about it. */
  lemma RevokedTokenLearnsNothing(
    cfg: Config, t: DB, mintedAt: int, subject: string, name: string, calls: seq<Call>, now: int,
    other: Presented, requested: seq<string>, filter: string)
    requires MintFor(cfg, t, mintedAt, subject, name).Ok?
    requires NeverDeleted(cfg, t, calls, NormalizeUsername(subject))
    requires BumpCount(cfg, t, calls, NormalizeUsername(subject)) > 0
    ensures var token, end := Signed(MintFor(cfg, t, mintedAt, subject, name).value.token), Run(cfg, t, calls);
            && CheckUserPermission(cfg, end, now, token, Absent, requested).None?
            && CheckUserPermission(cfg, end, now, other, token, requested).None?
            && LookupUserPermissions(cfg, end, now, token, filter).None?
  {
    var token, end := MintFor(cfg, t, mintedAt, subject, name).value.token, Run(cfg, t, calls);
    RefusedAfterChange(cfg, t, mintedAt, subject, name, calls, now);
    CheckGateIff(cfg, end, now, Signed(token), Absent, requested);
    CheckGateIff(cfg, end, now, other, Signed(token), requested);
    LookupGateIff(cfg, end, now, Signed(token), filter);
  }

  lemma RefusedAfterChange(
    cfg: Config, t: DB, mintedAt: int, subject: string, name: string, calls: seq<Call>, now: int)
    requires MintFor(cfg, t, mintedAt, subject, name).Ok?
    requires NeverDeleted(cfg, t, calls, NormalizeUsername(subject))
    requires BumpCount(cfg, t, calls, NormalizeUsername(subject)) > 0
    ensures VerifyAuthn(cfg, Run(cfg, t, calls), now, MintFor(cfg, t, mintedAt, subject, name).value.token).Err?
  {
    RowAfterRun(cfg, t, calls, NormalizeUsername(subject));
  }

  // ---------- who is handed a token ----------

  /** What a mint stamps: the subject as given, the name shown or else the subject, and the expiry in whole seconds. */
  lemma MintedClaims(cfg: Config, t: DB, now: int, subject: string, name: string)
    requires MintFor(cfg, t, now, subject, name).Ok?
    ensures var m, who := MintFor(cfg, t, now, subject, name).value, NormalizeUsername(subject);
            && m.token.subject == subject && m.token.preferredUsername == subject
            && (name != "" ==> m.token.name == name) && (name == "" ==> m.token.name == subject)
            && m.token.expSec == m.expSec && m.expSec * NANOS <= now + cfg.ttl < (m.expSec + 1) * NANOS
            && who in t.users && m.token.tokenVersion == t.users[who].tokenVersion
            && Some(m.token.resources) == EffectiveResources(t, subject)
  {
  }

  /** The token is current in `t`: accepted now, at the row's version, with the subject's view. */
  predicate Current(cfg: Config, t: DB, now: int, token: Claims) {
    && VerifyAuthn(cfg, t, now, token) == Ok(token)
    && Some(token.resources) == EffectiveResources(t, token.subject)
  }

  /** The call shows a credential of `who`, or makes the row. */
  predicate Credential(t: DB, op: Op, who: string) {
    match op
    case Login(u, p, matches) => matches && Utf8Len(p) <= 1024 && NormalizeUsername(u) == who && who in t.users
    case Setup(u, _, _, _) => NormalizeUsername(u) == who && t.users == map[]
    case Register(u, _, _) => NormalizeUsername(u) == who && who !in t.users && Tables.RegistrationOpen(t)
    case _ => false
  }

  lemma MintReplyHands(cfg: Config, t: DB, now: int, norm: string, name: string, status: nat, token: Claims)
    requires token in HandedOut(MintReply(cfg, t, now, norm, name, status))
    ensures token.subject == norm && Current(cfg, t, now, token)
  {
  }

  lemma LoginHands(cfg: Config, t: DB, now: int, u: string, p: string, matches: bool, token: Claims)
    requires token in HandedOut(HandleLogin(cfg, t, now, u, p, matches))
    ensures Current(cfg, t, now, token) && Credential(t, Login(u, p, matches), NormalizeUsername(token.subject))
  {
    NormalForms(u);
    var norm := NormalizeUsername(u);
    MintReplyHands(cfg, t, now, norm, t.users[norm].displayName, 200, token);
  }

  lemma SetupHands(cfg: Config, t: DB, now: int, u: string, p: string, d: string, h: string, token: Claims)
    requires token in HandedOut(HandleSetup(cfg, t, now, u, p, d, h).1)
    ensures Current(cfg, HandleSetup(cfg, t, now, u, p, d, h).0, now, token)
    ensures Credential(t, Setup(u, p, d, h), NormalizeUsername(token.subject))
  {
    NormalForms(u);
    MintReplyHands(cfg, HandleSetup(cfg, t, now, u, p, d, h).0, now, NormalizeUsername(u), "", 201, token);
  }

  lemma RegisterHands(cfg: Config, t: DB, now: int, u: string, p: string, h: string, token: Claims)
    requires token in HandedOut(HandleRegister(cfg, t, now, u, p, h).1)
    ensures Current(cfg, HandleRegister(cfg, t, now, u, p, h).0, now, token)
    ensures Credential(t, Register(u, p, h), NormalizeUsername(token.subject))
  {
    NormalForms(u);
    var norm := NormalizeUsername(u);
    MintReplyHands(cfg, HandleRegister(cfg, t, now, u, p, h).0, now, norm, norm, 201, token);
  }

  lemma ExchangeHands(cfg: Config, t: DB, now: int, b: Option<Claims>, token: Claims)
    requires token in HandedOut(HandleExchange(cfg, t, now, b))
    ensures Current(cfg, t, now, token) && Accepted(cfg, t, now, b) && b.value.subject == token.subject
  {
  }

  lemma OthersHandNothing(cfg: Config, t: DB, call: Call)
    requires !call.op.Setup? && !call.op.Login? && !call.op.Register? && !call.op.Exchange?
    ensures HandedOut(ReplyTo(cfg, t, call)) == {}
  {
    if call.op.Admin? && ApiAdmin(cfg, t, call.now, call.op.bearer).Ok? {
      RequestHandsNothing(t, call.now, ApiAdmin(cfg, t, call.now, call.op.bearer).value, call.op.request);
    }
  }

  lemma RequestHandsNothing(t: DB, now: int, claims: Claims, request: AdminOp)
    ensures HandedOut(HandleAdmin(t, now, claims, request).1) == {}
  {
  }

  /**
   A token is handed out only to a login of its subject with a matching password, to the setup or registration that
   creates the row, or to an exchange of an accepted token of the same subject; and it is current when it is.
   */
  lemma HandedOutOnlyFor(cfg: Config, t: DB, call: Call, token: Claims)
    requires var reply := ReplyTo(cfg, t, call);
             (reply.Http? && reply.token == Some(token)) || (reply.Grpc? && reply.grpcToken == Some(token))
    ensures token in HandedOut(ReplyTo(cfg, t, call))
    ensures Current(cfg, Next(cfg, t, call), call.now, token)
    ensures || Credential(t, call.op, NormalizeUsername(token.subject))
            || (call.op.Exchange? && Accepted(cfg, t, call.now, call.op.bearer)
                && call.op.bearer.value.subject == token.subject)
  {
    match call.op
    case Setup(u, p, d, h) => SetupHands(cfg, t, call.now, u, p, d, h, token);
    case Login(u, p, m) => LoginHands(cfg, t, call.now, u, p, m, token);
    case Register(u, p, h) => RegisterHands(cfg, t, call.now, u, p, h, token);
    case Exchange(b) => ExchangeHands(cfg, t, call.now, b, token);
    case _ => OthersHandNothing(cfg, t, call);
  }

  lemma {:induction false} PresentedWasHanded(cfg: Config, t: DB, calls: seq<Call>, held: set<Claims>, i: nat)
    returns (j: int)
    requires Honest(cfg, t, calls, held) && i < |calls| && BearerOf(calls[i].op).Some?
    ensures j < i && (j < 0 ==> BearerOf(calls[i].op).value in held)
    ensures j >= 0 ==> BearerOf(calls[i].op).value in HandedOut(ReplyTo(cfg, Run(cfg, t, calls[..j]), calls[j]))
    decreases |calls|
  {
    if i == 0 {
      j := -1;
    } else {
      var handed := HandedOut(ReplyTo(cfg, t, calls[0]));
      j := PresentedWasHanded(cfg, Next(cfg, t, calls[0]), calls[1..], held + handed, i - 1);
      if j >= 0 {
        assert calls[..j + 1][0] == calls[0] && calls[..j + 1][1..] == calls[1..][..j];
        j := j + 1;
      } else if BearerOf(calls[i].op).value in handed {
        j := 0;
        assert calls[..0] == [];
      }
    }
  }

  /**
   In a run whose callers hold no tokens at first and present only what they are handed, every token handed out goes
   back to a credential of its subject shown earlier in the run, or at that call.
   */
  lemma {:induction false} TokensGoBackToCredentials(cfg: Config, t: DB, calls: seq<Call>, i: nat, token: Claims)
    returns (j: nat)
    requires Honest(cfg, t, calls, {}) && i < |calls|
    requires token in HandedOut(ReplyTo(cfg, Run(cfg, t, calls[..i]), calls[i]))
    ensures j <= i && Credential(Run(cfg, t, calls[..j]), calls[j].op, NormalizeUsername(token.subject))
    decreases i
  {
    var t' := Run(cfg, t, calls[..i]);
    HandedOutOnlyFor(cfg, t', calls[i], token);
    if Credential(t', calls[i].op, NormalizeUsername(token.subject)) {
      j := i;
    } else {
      var k := PresentedWasHanded(cfg, t, calls, {}, i);
      j := TokensGoBackToCredentials(cfg, t, calls, k, calls[i].op.bearer.value);
    }
  }

  /** So does every token presented: what an honest run does in a user's name began with that user's credential. */
  lemma CallersShowedCredentials(cfg: Config, t: DB, calls: seq<Call>, i: nat) returns (j: nat)
    requires Honest(cfg, t, calls, {}) && i < |calls| && BearerOf(calls[i].op).Some?
    ensures j < i
    ensures Credential(Run(cfg, t, calls[..j]), calls[j].op, NormalizeUsername(BearerOf(calls[i].op).value.subject))
  {
    var k := PresentedWasHanded(cfg, t, calls, {}, i);
    j := TokensGoBackToCredentials(cfg, t, calls, k, BearerOf(calls[i].op).value);
  }
}
