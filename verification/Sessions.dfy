/**
 The interactive-login handshake: one shared map of sessions, every operation one
 locked step. A session code is a fresh value the caller of Create supplies, and each
 step reads the clock once.
 */
module Sessions {
  import opened GoStrings

  datatype SessionStatus = Pending | Complete

  datatype Session = Session(
    clientState: string, status: SessionStatus, username: string, mintedToken: string, expiresAtMs: int, created: int)

  datatype CompleteError = UnknownSession | SessionExpired | NotPending

  datatype Delivery = Delivery(token: string, expiresAtMs: int)

  type Table = map<string, Session>

  const NANOS := 1_000_000_000

  const DEFAULT_TTL := 600 * NANOS

  // ---------- the locked steps as functions of the table ----------

  predicate Expired(s: Session, ttl: int, now: int) {
    now - s.created > ttl
  }

  function CreateStep(m: Table, code: string, clientState: string, now: int): Table {
    m[code := Session(clientState, Pending, "", "", 0, now)]
  }

  function GetStep(m: Table, ttl: int, code: string, now: int): (Table, Option<Session>) {
    if code !in m then (m, None)
    else if Expired(m[code], ttl, now) then (m - {code}, None)
    else (m, Some(m[code]))
  }

  function Completed(s: Session, username: string, token: string, expiresAtMs: int): Session {
    s.(status := Complete, username := username, mintedToken := token, expiresAtMs := expiresAtMs)
  }

  function CompleteStep(m: Table, ttl: int, code: string, username: string, token: string, expiresAtMs: int, now: int)
    : (Table, Option<CompleteError>)
  {
    if code !in m then (m, Some(UnknownSession))
    else if Expired(m[code], ttl, now) then (m - {code}, Some(SessionExpired))
    else if m[code].status != Pending then (m, Some(NotPending))
    else (m[code := Completed(m[code], username, token, expiresAtMs)], None)
  }

  function TakeStep(m: Table, ttl: int, code: string, clientState: string, now: int): (Table, Option<Delivery>) {
    if code !in m then (m, None)
    else if Expired(m[code], ttl, now) then (m - {code}, None)
    else if m[code].clientState != clientState || m[code].status != Complete then (m, None)
    else (m - {code}, Some(Delivery(m[code].mintedToken, m[code].expiresAtMs)))
  }

  function SweepStep(m: Table, ttl: int, reading: int): Table {
    map code | code in m && !Expired(m[code], ttl, reading) :: m[code]
  }

  // ---------- the store ----------

  class SessionStore {
    var sessions: Table
    const ttl: int

    constructor (ttl: int)
      ensures sessions == map[] && this.ttl > 0
      ensures this.ttl == if ttl <= 0 then 600_000_000_000 else ttl
    {
      sessions := map[];
      this.ttl := if ttl <= 0 then DEFAULT_TTL else ttl;
    }

    method Create(clientState: string, code: string, now: int)
      modifies this
      ensures sessions == CreateStep(old(sessions), code, clientState, now)
    {
      sessions := sessions[code := Session(clientState, Pending, "", "", 0, now)];
    }

    method Get(code: string, now: int) returns (s: Option<Session>)
      modifies this
      ensures (sessions, s) == GetStep(old(sessions), ttl, code, now)
    {
      if code !in sessions { return None; }
      if Expired(sessions[code], ttl, now) {
        sessions := sessions - {code};
        return None;
      }
      return Some(sessions[code]);
    }

    method Complete(code: string, username: string, token: string, expiresAtMs: int, now: int)
      returns (err: Option<CompleteError>)
      modifies this
      ensures (sessions, err) == CompleteStep(old(sessions), ttl, code, username, token, expiresAtMs, now)
    {
      if code !in sessions { return Some(UnknownSession); }
      var s := sessions[code];
      if Expired(s, ttl, now) {
        sessions := sessions - {code};
        return Some(SessionExpired);
      }
      if s.status != Pending { return Some(NotPending); }
      s := s.(status := SessionStatus.Complete);
      s := s.(username := username);
      s := s.(mintedToken := token);
      s := s.(expiresAtMs := expiresAtMs);
      sessions := sessions[code := s];
      err := None;
    }

    method Take(code: string, clientState: string, now: int) returns (d: Option<Delivery>)
      modifies this
      ensures (sessions, d) == TakeStep(old(sessions), ttl, code, clientState, now)
    {
      if code !in sessions { return None; }
      var s := sessions[code];
      if Expired(s, ttl, now) {
        sessions := sessions - {code};
        return None;
      }
      if s.clientState != clientState { return None; }
      if s.status != SessionStatus.Complete { return None; }
      d := Some(Delivery(s.mintedToken, s.expiresAtMs));
      sessions := sessions - {code};
    }

    /** Ranges over the sessions in no particular order; each dead code is listed once. */
    method CollectDead(reading: int) returns (dead: seq<string>)
      ensures multiset(dead) == multiset(DeadCodes(sessions, ttl, reading))
    {
      dead := [];
      var left := sessions.Keys;
      while left != {}
        invariant left <= sessions.Keys
        invariant multiset(dead) == multiset(set code | code in DeadCodes(sessions, ttl, reading) && code !in left)
        decreases left
      {
        var code :| code in left;
        ghost var listed := set c | c in DeadCodes(sessions, ttl, reading) && c !in left;
        left := left - {code};
        if Expired(sessions[code], ttl, reading) {
          dead := dead + [code];
          assert (set c | c in DeadCodes(sessions, ttl, reading) && c !in left) == listed + {code};
        } else {
          assert (set c | c in DeadCodes(sessions, ttl, reading) && c !in left) == listed;
        }
      }
      assert (set c | c in DeadCodes(sessions, ttl, reading) && c !in left) == DeadCodes(sessions, ttl, reading);
    }

    /** Collects the dead codes, then deletes them; the count is the number removed, and nothing dead stays. */
    method SweepExpired(reading: int) returns (removed: nat)
      modifies this
      ensures sessions == SweepStep(old(sessions), ttl, reading)
      ensures removed == |old(sessions)| - |sessions|
      ensures forall code | code in sessions :: !Expired(sessions[code], ttl, reading)
    {
      ghost var before := sessions;
      var dead := CollectDead(reading);
      for i := 0 to |dead|
        invariant sessions == before - Members(dead[..i])
      {
        MembersSnoc(before, dead, i);
        sessions := sessions - {dead[i]};
      }
      assert dead[..|dead|] == dead;
      MembersOfDistinct(dead, DeadCodes(before, ttl, reading));
      SweepCounts(before, ttl, reading);
      removed := |dead|;
    }
  }

  function DeadCodes(m: Table, ttl: int, reading: int): set<string> {
    set code | code in m && Expired(m[code], ttl, reading)
  }

  ghost function Members(codes: seq<string>): set<string> {
    set code | code in codes
  }

  lemma MembersSnoc(m: Table, codes: seq<string>, i: nat)
    requires i < |codes|
    ensures m - Members(codes[..i + 1]) == (m - Members(codes[..i])) - {codes[i]}
  {
    assert codes[..i + 1] == codes[..i] + [codes[i]];
    assert Members(codes[..i + 1]) == Members(codes[..i]) + {codes[i]};
  }

  lemma MembersOfDistinct(codes: seq<string>, s: set<string>)
    requires multiset(codes) == multiset(s)
    ensures Members(codes) == s && |codes| == |s|
  {
    forall c ensures c in Members(codes) <==> c in s {
      assert c in codes <==> c in multiset(codes);
      assert c in s <==> c in multiset(s);
    }
    assert |multiset(codes)| == |codes| && |multiset(s)| == |s|;
  }

  lemma SweepCounts(m: Table, ttl: int, reading: int)
    ensures m - DeadCodes(m, ttl, reading) == SweepStep(m, ttl, reading)
    ensures |m| - |SweepStep(m, ttl, reading)| == |DeadCodes(m, ttl, reading)|
  {
    var kept := SweepStep(m, ttl, reading);
    assert m.Keys == kept.Keys + DeadCodes(m, ttl, reading);
    assert kept.Keys * DeadCodes(m, ttl, reading) == {};
    assert |m| == |m.Keys| && |kept| == |kept.Keys|;
  }

  // ---------- runs ----------

  datatype Event =
    | CreateEvent(code: string, clientState: string, now: int)
    | GetEvent(code: string, now: int)
    | CompleteEvent(code: string, username: string, token: string, expiresAtMs: int, now: int)
    | TakeEvent(code: string, clientState: string, now: int)
    | SweepEvent(reading: int)

  datatype Outcome =
    | Created
    | Got(session: Option<Session>)
    | Done(err: Option<CompleteError>)
    | Took(delivery: Option<Delivery>)
    | Swept

  function Step(m: Table, ttl: int, e: Event): (Table, Outcome) {
    match e
    case CreateEvent(code, cs, now) => (CreateStep(m, code, cs, now), Created)
    case GetEvent(code, now) => var (m', s) := GetStep(m, ttl, code, now); (m', Got(s))
    case CompleteEvent(code, u, t, x, now) => var (m', err) := CompleteStep(m, ttl, code, u, t, x, now); (m', Done(err))
    case TakeEvent(code, cs, now) => var (m', d) := TakeStep(m, ttl, code, cs, now); (m', Took(d))
    case SweepEvent(reading) => (SweepStep(m, ttl, reading), Swept)
  }

  /** The table after the first `n` events of a run that starts empty. */
  function TableAt(ttl: int, run: seq<Event>, n: nat): Table
    requires n <= |run|
  {
    if n == 0 then map[] else Step(TableAt(ttl, run, n - 1), ttl, run[n - 1]).0
  }

  function OutcomeAt(ttl: int, run: seq<Event>, n: nat): Outcome
    requires n < |run|
  {
    Step(TableAt(ttl, run, n), ttl, run[n]).1
  }

  /** Codes are 256-bit random values: no two Creates of a run share one. */
  predicate FreshCodes(run: seq<Event>) {
    forall i, j | 0 <= i < j < |run| && run[i].CreateEvent? && run[j].CreateEvent? :: run[i].code != run[j].code
  }

  predicate CompletesAt(ttl: int, run: seq<Event>, j: nat, code: string)
    requires j < |run|
  {
    run[j].CompleteEvent? && run[j].code == code && OutcomeAt(ttl, run, j) == Done(None)
  }

  predicate DeliversAt(ttl: int, run: seq<Event>, i: nat, code: string)
    requires i < |run|
  {
    run[i].TakeEvent? && run[i].code == code && OutcomeAt(ttl, run, i).delivery.Some?
  }

  /** The event that made this session is run[k]. */
  predicate MadeAt(run: seq<Event>, k: int, code: string, s: Session) {
    0 <= k < |run| && run[k] == CreateEvent(code, s.clientState, s.created)
  }

  predicate StampedAt(ttl: int, run: seq<Event>, j: int, code: string, s: Session) {
    0 <= j < |run| && CompletesAt(ttl, run, j, code)
    && run[j].token == s.mintedToken && run[j].expiresAtMs == s.expiresAtMs && run[j].username == s.username
  }

  /** A session standing at time `n` was made before `n`, and is complete exactly when it was stamped before `n`. */
  lemma {:induction false} SessionHasHistory(ttl: int, run: seq<Event>, n: nat, code: string) returns (k: int, j: int)
    requires n <= |run| && FreshCodes(run) && code in TableAt(ttl, run, n)
    ensures var s := TableAt(ttl, run, n)[code];
            && k < n && MadeAt(run, k, code, s)
            && (s.status == Complete ==> k < j < n && StampedAt(ttl, run, j, code, s))
            && (s.status == Pending ==> forall i | k <= i < n :: !CompletesAt(ttl, run, i, code))
  {
    var m, e := TableAt(ttl, run, n - 1), run[n - 1];
    if e.CreateEvent? && e.code == code {
      k, j := n - 1, 0;
    } else {
      k, j := SessionHasHistory(ttl, run, n - 1, code);
      if CompletesAt(ttl, run, n - 1, code) {
        j := n - 1;
      }
    }
  }

  /** Before its Create a code names nothing; after it is gone it never comes back. */
  lemma {:induction false} AbsentBeforeCreate(ttl: int, run: seq<Event>, k: nat, n: nat, code: string)
    requires n <= k < |run| && FreshCodes(run) && run[k].CreateEvent? && run[k].code == code
    ensures code !in TableAt(ttl, run, n)
  {
    if n > 0 {
      AbsentBeforeCreate(ttl, run, k, n - 1, code);
    }
  }

  lemma {:induction false} AbsentStaysAbsent(ttl: int, run: seq<Event>, k: nat, from: nat, n: nat, code: string)
    requires k < from <= n <= |run| && FreshCodes(run) && run[k].CreateEvent? && run[k].code == code
    requires code !in TableAt(ttl, run, from)
    ensures code !in TableAt(ttl, run, n)
  {
    if n > from {
      AbsentStaysAbsent(ttl, run, k, from, n - 1, code);
    }
  }

  /** A session delivers at most once: the taking step removes it, and its code is never created again. */
  lemma DeliveredAtMostOnce(ttl: int, run: seq<Event>, i: nat, i': nat, code: string)
    requires i < i' < |run| && FreshCodes(run)
    ensures !(DeliversAt(ttl, run, i, code) && DeliversAt(ttl, run, i', code))
  {
    if DeliversAt(ttl, run, i, code) {
      var k, _ := SessionHasHistory(ttl, run, i, code);
      AbsentStaysAbsent(ttl, run, k, i + 1, i', code);
    }
  }

  /** Completes succeed at most once per code. */
  lemma {:induction false} CompletedStaysUnavailable(ttl: int, run: seq<Event>, j: nat, n: nat, code: string)
    requires j < n <= |run| && FreshCodes(run) && CompletesAt(ttl, run, j, code)
    ensures code in TableAt(ttl, run, n) ==> TableAt(ttl, run, n)[code].status == Complete
  {
    if n > j + 1 {
      CompletedStaysUnavailable(ttl, run, j, n - 1, code);
      if run[n - 1].CreateEvent? && run[n - 1].code == code {
        AbsentBeforeCreate(ttl, run, n - 1, j, code);
      }
    }
  }

  lemma CompletedAtMostOnce(ttl: int, run: seq<Event>, j: nat, j': nat, code: string)
    requires j < j' < |run| && FreshCodes(run)
    ensures !(CompletesAt(ttl, run, j, code) && CompletesAt(ttl, run, j', code))
  {
    if CompletesAt(ttl, run, j, code) {
      CompletedStaysUnavailable(ttl, run, j, j', code);
    }
  }

  /**
   What a Take delivers is the token and expiry of the one Complete of that code, to a caller showing the
   client state given at its Create, and no later than the TTL after it.
   */
  lemma DeliveryIsTheCompletion(ttl: int, run: seq<Event>, i: nat, code: string) returns (k: int, j: int)
    requires i < |run| && FreshCodes(run) && DeliversAt(ttl, run, i, code)
    ensures 0 <= k < j < i
    ensures run[k].CreateEvent? && run[k].code == code && run[k].clientState == run[i].clientState
    ensures run[i].now - run[k].now <= ttl
    ensures CompletesAt(ttl, run, j, code)
    ensures OutcomeAt(ttl, run, i) == Took(Some(Delivery(run[j].token, run[j].expiresAtMs)))
    ensures forall j' | 0 <= j' < |run| && CompletesAt(ttl, run, j', code) :: j' == j
    ensures forall i' | 0 <= i' < |run| && DeliversAt(ttl, run, i', code) :: i' == i
  {
    k, j := SessionHasHistory(ttl, run, i, code);
    forall j' | 0 <= j' < |run| && CompletesAt(ttl, run, j', code) ensures j' == j {
      if j' < j { CompletedAtMostOnce(ttl, run, j', j, code); }
      if j < j' { CompletedAtMostOnce(ttl, run, j, j', code); }
    }
    forall i' | 0 <= i' < |run| && DeliversAt(ttl, run, i', code) ensures i' == i {
      if i' < i { DeliveredAtMostOnce(ttl, run, i', i, code); }
      if i < i' { DeliveredAtMostOnce(ttl, run, i, i', code); }
    }
  }

  // ---------- sweeping is invisible ----------

  /** The smaller table lacks only sessions that are past the TTL from `clock` on. */
  ghost predicate OnlyDeadMissing(m: Table, m': Table, ttl: int, clock: int) {
    && (forall code | code in m' :: code in m && m[code] == m'[code])
    && (forall code | code in m && code !in m' :: Expired(m[code], ttl, clock))
  }

  function RunFrom(m: Table, ttl: int, run: seq<Event>): Table
    decreases |run|
  {
    if run == [] then m else RunFrom(Step(m, ttl, run[0]).0, ttl, run[1..])
  }

  function Outcomes(m: Table, ttl: int, run: seq<Event>): seq<Outcome>
    decreases |run|
  {
    if run == [] then [] else [Step(m, ttl, run[0]).1] + Outcomes(Step(m, ttl, run[0]).0, ttl, run[1..])
  }

  /** Locked steps read the clock under the lock, so after a point none reads an earlier time; sweeps read it before. */
  predicate ReadsFrom(run: seq<Event>, clock: int) {
    forall e | e in run :: e.SweepEvent? || e.now >= clock
  }

  /** The same outcome, except that a Complete refused as expired may be refused as unknown instead. */
  predicate Agree(o: Outcome, o': Outcome) {
    o == o' || (o == Done(Some(SessionExpired)) && o' == Done(Some(UnknownSession)))
  }

  ghost predicate AllAgree(os: seq<Outcome>, os': seq<Outcome>) {
    |os| == |os'| && forall i | 0 <= i < |os| :: Agree(os[i], os'[i])
  }

  lemma StepHidesMissing(m: Table, m': Table, ttl: int, e: Event, clock: int)
    requires OnlyDeadMissing(m, m', ttl, clock) && (e.SweepEvent? || e.now >= clock)
    ensures Agree(Step(m, ttl, e).1, Step(m', ttl, e).1)
    ensures OnlyDeadMissing(Step(m, ttl, e).0, Step(m', ttl, e).0, ttl, clock)
  {
    if !e.SweepEvent? {
      assert e.code in m && e.code !in m' ==> Expired(m[e.code], ttl, e.now);
    }
  }

  lemma {:induction false} RunHidesMissing(m: Table, m': Table, ttl: int, run: seq<Event>, clock: int)
    requires OnlyDeadMissing(m, m', ttl, clock) && ReadsFrom(run, clock)
    ensures AllAgree(Outcomes(m, ttl, run), Outcomes(m', ttl, run))
    ensures OnlyDeadMissing(RunFrom(m, ttl, run), RunFrom(m', ttl, run), ttl, clock)
    decreases |run|
  {
    if run != [] {
      StepHidesMissing(m, m', ttl, run[0], clock);
      RunHidesMissing(Step(m, ttl, run[0]).0, Step(m', ttl, run[0]).0, ttl, run[1..], clock);
    }
  }

  predicate Touches(e: Event, code: string) {
    !e.SweepEvent? && e.code == code
  }

  predicate SweepsAway(e: Event, s: Session, ttl: int) {
    e.SweepEvent? && Expired(s, ttl, e.reading)
  }

  /** The larger table still has the session when it comes to event `i`: nothing touched or swept it on the way. */
  predicate Lingers(m: Table, ttl: int, run: seq<Event>, i: nat, code: string)
    requires i <= |run|
  {
    code in m && forall j | 0 <= j < i :: !Touches(run[j], code) && !SweepsAway(run[j], m[code], ttl)
  }

  /** A step closes the difference on a code exactly by touching it or sweeping it away, and opens none. */
  lemma StepOnDifference(m: Table, m': Table, ttl: int, e: Event, clock: int, code: string)
    requires OnlyDeadMissing(m, m', ttl, clock) && (e.SweepEvent? || e.now >= clock)
    ensures var (n, n') := (Step(m, ttl, e).0, Step(m', ttl, e).0);
            && (code in n && code !in n'
                <==> code in m && code !in m' && !Touches(e, code) && !SweepsAway(e, m[code], ttl))
            && (code in n && code !in n' ==> n[code] == m[code])
  {
  }

  lemma {:induction false} OutcomesDifferIff(m: Table, m': Table, ttl: int, run: seq<Event>, clock: int, i: nat)
    requires OnlyDeadMissing(m, m', ttl, clock) && ReadsFrom(run, clock) && i < |run|
    ensures |Outcomes(m, ttl, run)| == |Outcomes(m', ttl, run)| == |run|
    ensures Outcomes(m, ttl, run)[i] != Outcomes(m', ttl, run)[i]
            <==> run[i].CompleteEvent? && run[i].code !in m' && Lingers(m, ttl, run, i, run[i].code)
    decreases |run|
  {
    var e, rest := run[0], run[1..];
    var n, n' := Step(m, ttl, e).0, Step(m', ttl, e).0;
    StepHidesMissing(m, m', ttl, e, clock);
    OutcomesCount(n, ttl, rest);
    OutcomesCount(n', ttl, rest);
    if i > 0 {
      OutcomesDifferIff(n, n', ttl, rest, clock, i - 1);
      assert rest[i - 1] == run[i];
      if run[i].CompleteEvent? { DifferenceLingers(m, m', ttl, run, clock, i, run[i].code); }
    }
  }

  lemma {:induction false} OutcomesCount(m: Table, ttl: int, run: seq<Event>)
    ensures |Outcomes(m, ttl, run)| == |run|
    decreases |run|
  {
    if run != [] { OutcomesCount(Step(m, ttl, run[0]).0, ttl, run[1..]); }
  }

  lemma DifferenceLingers(m: Table, m': Table, ttl: int, run: seq<Event>, clock: int, i: nat, code: string)
    requires OnlyDeadMissing(m, m', ttl, clock) && ReadsFrom(run, clock) && 0 < i <= |run|
    ensures var (n, n') := (Step(m, ttl, run[0]).0, Step(m', ttl, run[0]).0);
            code !in n' && Lingers(n, ttl, run[1..], i - 1, code) <==> code !in m' && Lingers(m, ttl, run, i, code)
  {
    var n, n' := Step(m, ttl, run[0]).0, Step(m', ttl, run[0]).0;
    StepOnDifference(m, m', ttl, run[0], clock, code);
    if code in n && code !in n' {
      LingersStep(m, n, ttl, run, i, code);
    }
  }

  lemma LingersStep(m: Table, n: Table, ttl: int, run: seq<Event>, i: nat, code: string)
    requires 0 < i <= |run| && code in m && code in n && n[code] == m[code]
    requires !Touches(run[0], code) && !SweepsAway(run[0], m[code], ttl)
    ensures Lingers(m, ttl, run, i, code) <==> Lingers(n, ttl, run[1..], i - 1, code)
  {
    assert forall j | 0 <= j < i - 1 :: run[1..][j] == run[j + 1];
    if Lingers(n, ttl, run[1..], i - 1, code) {
      forall j | 0 <= j < i ensures !Touches(run[j], code) && !SweepsAway(run[j], m[code], ttl) {
        if j > 0 { assert run[j] == run[1..][j - 1]; }
      }
    }
  }

  /**
   A sweep put anywhere in a run, reading a time no later step precedes, changes no later success and no later
   result. What it changes is the wording of a refusal, and exactly where: at a Complete that is the first later
   event on a code this sweep removed, before another sweep would have removed it too.
   */
  lemma SweepIsInvisible(m: Table, ttl: int, before: seq<Event>, reading: int, after: seq<Event>)
    requires ReadsFrom(after, reading)
    ensures var mid := RunFrom(m, ttl, before);
            var os, os' := Outcomes(mid, ttl, after),
                           Outcomes(RunFrom(m, ttl, before + [SweepEvent(reading)]), ttl, after);
            && AllAgree(os, os') && |os| == |after|
            && (forall i | 0 <= i < |after| ::
                  os[i] != os'[i]
                  <==> after[i].CompleteEvent? && after[i].code in mid && Expired(mid[after[i].code], ttl, reading)
                       && Lingers(mid, ttl, after, i, after[i].code))
  {
    var mid := RunFrom(m, ttl, before);
    RunThenSweep(m, ttl, before, reading);
    RunHidesMissing(mid, SweepStep(mid, ttl, reading), ttl, after, reading);
    OutcomesCount(mid, ttl, after);
    forall i | 0 <= i < |after|
      ensures Outcomes(mid, ttl, after)[i] != Outcomes(SweepStep(mid, ttl, reading), ttl, after)[i]
              <==> after[i].CompleteEvent? && after[i].code in mid && Expired(mid[after[i].code], ttl, reading)
                   && Lingers(mid, ttl, after, i, after[i].code)
    {
      OutcomesDifferIff(mid, SweepStep(mid, ttl, reading), ttl, after, reading, i);
    }
  }

  lemma {:induction false} RunThenSweep(m: Table, ttl: int, before: seq<Event>, reading: int)
    ensures RunFrom(m, ttl, before + [SweepEvent(reading)]) == SweepStep(RunFrom(m, ttl, before), ttl, reading)
    decreases |before|
  {
    var run := before + [SweepEvent(reading)];
    if before == [] {
      assert run[0] == SweepEvent(reading) && run[1..] == [];
      assert RunFrom(Step(m, ttl, run[0]).0, ttl, run[1..]) == Step(m, ttl, run[0]).0;
    } else {
      assert run[0] == before[0] && run[1..] == before[1..] + [SweepEvent(reading)];
      RunThenSweep(Step(m, ttl, before[0]).0, ttl, before[1..], reading);
    }
  }
}
