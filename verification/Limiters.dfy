/**
 The two limiters that are deployed, each a token bucket that forgets some of its
 buckets, and how far forgetting can be seen.
 */
module Limiters {
  import opened TokenBucket

  /** A limiter's changing state. */
  datatype State = State(buckets: Buckets, lastTrim: real)

  // ---------- the web tier's login throttle ----------

  const SOFT_LIMIT := 1024

  predicate BackAtCapacity(p: Params, b: Bucket, now: real)
    requires p.refill > 0.0
  {
    b.tokens + (now - b.last) / p.refill >= p.burst as real
  }

  function MaybeTrim(p: Params, s: State, now: real): State
    requires p.refill > 0.0
  {
    if |s.buckets| < SOFT_LIMIT && now - s.lastTrim < 10.0 * p.refill then s
    else State(map k | k in s.buckets && !BackAtCapacity(p, s.buckets[k], now) :: s.buckets[k], now)
  }

  function ThrottleStep(p: Params, s: State, key: string, now: real): (State, bool)
    requires p.refill > 0.0
  {
    var s' := MaybeTrim(p, s, now);
    var (m, ok) := Spend(p, s'.buckets, key, now);
    (State(m, s'.lastTrim), ok)
  }

  class LoginThrottle {
    var buckets: Buckets
    var lastTrim: real
    const params: Params

    ghost predicate Valid()
    {
      params.refill > 0.0
    }

    function Contents(): State
      reads this
    {
      State(buckets, lastTrim)
    }

    constructor (burst: int, refill: real, now: real)
      requires refill > 0.0
      ensures Valid() && params == Params(burst, refill) && Contents() == State(map[], now)
    {
      buckets, lastTrim, params := map[], now, Params(burst, refill);
    }

    method Allow(key: string, now: real) returns (ok: bool)
      requires Valid()
      modifies this
      ensures (Contents(), ok) == ThrottleStep(params, old(Contents()), key, now)
    {
      Trim(now);
      var b: Bucket;
      if key !in buckets {
        b := Bucket(params.burst as real, now);
      } else {
        b := buckets[key];
        var tokens := b.tokens + (now - b.last) / params.refill;
        if tokens > params.burst as real {
          tokens := params.burst as real;
        }
        b := Bucket(tokens, now);
      }
      if b.tokens < 1.0 {
        buckets := buckets[key := b];
        return false;
      }
      buckets := buckets[key := b.(tokens := b.tokens - 1.0)];
      return true;
    }

    method Trim(now: real)
      requires Valid()
      modifies this
      ensures Contents() == MaybeTrim(params, old(Contents()), now)
    {
      if |buckets| < SOFT_LIMIT && now - lastTrim < 10.0 * params.refill { return; }
      ghost var before := buckets;
      var left := buckets.Keys;
      while left != {}
        invariant left <= before.Keys && lastTrim == old(lastTrim)
        invariant buckets == map k | k in before && (k in left || !BackAtCapacity(params, before[k], now)) :: before[k]
        decreases left
      {
        var k :| k in left;
        left := left - {k};
        if BackAtCapacity(params, buckets[k], now) {
          buckets := buckets - {k};
        }
      }
      lastTrim := now;
    }
  }

  function ThrottleAnswers(p: Params, s: State, run: seq<Request>): (r: seq<bool>)
    requires p.refill > 0.0
    ensures |r| == |run|
    decreases |run|
  {
    if run == [] then []
    else
      var (s', ok) := ThrottleStep(p, s, run[0].key, run[0].now);
      [ok] + ThrottleAnswers(p, s', run[1..])
  }

  lemma MaybeTrimIsTrimmed(p: Params, m: Buckets, s: State, now: real)
    requires p.refill > 0.0 && Trimmed(p, m, s.buckets, now)
    ensures Trimmed(p, m, MaybeTrim(p, s, now).buckets, now)
  {
  }

  /** The throttle answers every call of every run as if it never forgot a bucket. */
  lemma {:induction false} ThrottleIsTheReference(p: Params, m: Buckets, s: State, run: seq<Request>, clock: real)
    requires p.refill > 0.0 && Clocked(run, clock) && Trimmed(p, m, s.buckets, clock)
    ensures ThrottleAnswers(p, s, run) == Answers(p, m, run)
    decreases |run|
  {
    if run != [] {
      var key, now := run[0].key, run[0].now;
      TrimmedLater(p, m, s.buckets, clock, now);
      MaybeTrimIsTrimmed(p, m, s, now);
      SpendOnTrimmed(p, m, MaybeTrim(p, s, now).buckets, key, now, now);
      ThrottleIsTheReference(p, Spend(p, m, key, now).0, ThrottleStep(p, s, key, now).0, run[1..], now);
    }
  }

  // ---------- the auth service's rate limiter ----------

  const TRIM_EVERY := 300.0

  const IDLE_AFTER := 600.0

  function TrimLocked(s: State, now: real): State {
    if now - s.lastTrim < TRIM_EVERY then s
    else State(map k | k in s.buckets && !(s.buckets[k].last < now - IDLE_AFTER) :: s.buckets[k], now)
  }

  function RateStep(p: Params, s: State, key: string, now: real): (State, bool)
    requires p.refill > 0.0
  {
    var s' := TrimLocked(s, now);
    var (m, ok) := Spend(p, s'.buckets, key, now);
    (State(m, s'.lastTrim), ok)
  }

  class RateLimiter {
    var buckets: Buckets
    var lastTrim: real
    const params: Params

    ghost predicate Valid()
    {
      params.refill > 0.0
    }

    function Contents(): State
      reads this
    {
      State(buckets, lastTrim)
    }

    constructor (burst: int, refill: real, now: real)
      requires refill > 0.0
      ensures Valid() && params == Params(burst, refill) && Contents() == State(map[], now)
    {
      buckets, lastTrim, params := map[], now, Params(burst, refill);
    }

    method Allow(key: string, now: real) returns (ok: bool)
      requires Valid()
      modifies this
      ensures (Contents(), ok) == RateStep(params, old(Contents()), key, now)
    {
      Trim(now);
      ghost var kept := buckets;
      if key !in buckets {
        buckets := buckets[key := Bucket(params.burst as real, now)];
      }
      var b := buckets[key];
      DivMonotone(0.0, 0.0, params.refill);
      var tokens := b.tokens + (now - b.last) / params.refill;
      if tokens > params.burst as real {
        tokens := params.burst as real;
      }
      buckets := buckets[key := Bucket(tokens, now)];
      assert tokens == Level(params, kept, key, now) && buckets == kept[key := Bucket(tokens, now)];
      if tokens < 1.0 { return false; }
      buckets := buckets[key := Bucket(tokens - 1.0, now)];
      assert buckets == kept[key := Bucket(tokens - 1.0, now)];
      return true;
    }

    /** Two passes: collect the idle keys, then delete them. */
    method Trim(now: real)
      modifies this
      ensures Contents() == TrimLocked(old(Contents()), now)
    {
      if now - lastTrim < TRIM_EVERY { return; }
      lastTrim := now;
      ghost var before := buckets;
      var idle := now - IDLE_AFTER;
      var dead: set<string> := {};
      var left := buckets.Keys;
      while left != {}
        invariant left <= buckets.Keys && buckets == before && lastTrim == now
        invariant dead == set k | k in before.Keys - left && before[k].last < idle
        decreases left
      {
        var k :| k in left;
        left := left - {k};
        if buckets[k].last < idle {
          dead := dead + {k};
        }
      }
      while dead != {}
        invariant buckets == map k | k in before && (k in dead || !(before[k].last < idle)) :: before[k]
        invariant dead <= buckets.Keys && lastTrim == now && forall k | k in dead :: before[k].last < idle
        decreases dead
      {
        var k :| k in dead;
        dead := dead - {k};
        buckets := buckets - {k};
      }
    }
  }

  function RateAnswers(p: Params, s: State, run: seq<Request>): (r: seq<bool>)
    requires p.refill > 0.0
    ensures |r| == |run|
    decreases |run|
  {
    if run == [] then []
    else
      var (s', ok) := RateStep(p, s, run[0].key, run[0].now);
      [ok] + RateAnswers(p, s', run[1..])
  }

  /** An idle bucket is full when the whole burst flows back within the idle cut-off. */
  lemma IdleIsFull(p: Params, b: Bucket, now: real)
    requires p.refill > 0.0 && p.burst as real * p.refill <= IDLE_AFTER
    requires Capped(p, 0.0) <= b.tokens <= p.burst as real && b.last < now - IDLE_AFTER
    ensures Refilled(p, b, now) == p.burst as real
  {
    DivMonotone(0.0, now - b.last, p.refill);
    DivMonotone(p.burst as real * p.refill, now - b.last, p.refill);
    assert p.burst as real * p.refill / p.refill == p.burst as real;
  }

  lemma TrimLockedIsTrimmed(p: Params, m: Buckets, s: State, now: real)
    requires p.refill > 0.0 && p.burst as real * p.refill <= IDLE_AFTER
    requires Trimmed(p, m, s.buckets, now) && Sound(p, m, now)
    ensures Trimmed(p, m, TrimLocked(s, now).buckets, now)
  {
    forall k | k in s.buckets && s.buckets[k].last < now - IDLE_AFTER ensures Level(p, m, k, now) == p.burst as real {
      IdleIsFull(p, s.buckets[k], now);
    }
  }

  lemma {:induction false} RateLimiterIsTheReference(p: Params, m: Buckets, s: State, run: seq<Request>, clock: real)
    requires p.refill > 0.0 && p.burst as real * p.refill <= IDLE_AFTER
    requires Clocked(run, clock) && Trimmed(p, m, s.buckets, clock) && Sound(p, m, clock)
    ensures RateAnswers(p, s, run) == Answers(p, m, run)
    decreases |run|
  {
    if run != [] {
      var key, now := run[0].key, run[0].now;
      TrimmedLater(p, m, s.buckets, clock, now);
      assert Sound(p, m, now);
      TrimLockedIsTrimmed(p, m, s, now);
      SpendOnTrimmed(p, m, TrimLocked(s, now).buckets, key, now, now);
      SpendKeepsSound(p, m, key, now, now);
      RateLimiterIsTheReference(p, Spend(p, m, key, now).0, RateStep(p, s, key, now).0, run[1..], now);
    }
  }

  // ---------- beyond the cut-off forgetting shows ----------

  function Repeat(key: string, now: real, n: nat): (r: seq<Request>)
    ensures |r| == n && forall i | 0 <= i < n :: r[i] == Request(key, now)
  {
    seq(n, i => Request(key, now))
  }

  function After(p: Params, m: Buckets, run: seq<Request>): Buckets
    requires p.refill > 0.0
    decreases |run|
  {
    if run == [] then m else After(p, Spend(p, m, run[0].key, run[0].now).0, run[1..])
  }

  function RateAfter(p: Params, s: State, run: seq<Request>): State
    requires p.refill > 0.0
    decreases |run|
  {
    if run == [] then s else RateAfter(p, RateStep(p, s, run[0].key, run[0].now).0, run[1..])
  }

  lemma {:induction false} AnswersSplit(p: Params, m: Buckets, first: seq<Request>, second: seq<Request>)
    requires p.refill > 0.0
    ensures Answers(p, m, first + second) == Answers(p, m, first) + Answers(p, After(p, m, first), second)
    decreases |first|
  {
    if first == [] {
      assert first + second == second;
    } else {
      assert (first + second)[0] == first[0] && (first + second)[1..] == first[1..] + second;
      AnswersSplit(p, Spend(p, m, first[0].key, first[0].now).0, first[1..], second);
    }
  }

  lemma {:induction false} RateAnswersSplit(p: Params, s: State, first: seq<Request>, second: seq<Request>)
    requires p.refill > 0.0
    ensures RateAnswers(p, s, first + second)
         == RateAnswers(p, s, first) + RateAnswers(p, RateAfter(p, s, first), second)
    decreases |first|
  {
    if first == [] {
      assert first + second == second;
    } else {
      assert (first + second)[0] == first[0] && (first + second)[1..] == first[1..] + second;
      RateAnswersSplit(p, RateStep(p, s, first[0].key, first[0].now).0, first[1..], second);
    }
  }

  /** A burst at one instant is admitted as far as the level goes, and lowers it by as much. */
  lemma {:induction false} BurstSpends(p: Params, m: Buckets, key: string, now: real, n: nat)
    requires p.refill > 0.0 && n >= 1 && Level(p, m, key, now) >= (n - 1) as real
    ensures var run := Repeat(key, now, n);
            && (Answers(p, m, run)[n - 1] <==> Level(p, m, key, now) >= n as real)
            && (Level(p, m, key, now) >= n as real ==>
                  After(p, m, run) == m[key := Bucket(Level(p, m, key, now) - n as real, now)])
    decreases n
  {
    var run, m' := Repeat(key, now, n), Spend(p, m, key, now).0;
    DivMonotone(0.0, 0.0, p.refill);
    assert run[1..] == Repeat(key, now, n - 1);
    if n == 1 {
      assert run[1..] == [];
    } else {
      assert Level(p, m', key, now) == Level(p, m, key, now) - 1.0;
      BurstSpends(p, m', key, now, n - 1);
      assert Answers(p, m, run)[n - 1] == Answers(p, m', run[1..])[n - 2];
    }
  }

  /** Between trims the limiter is the reference on its own buckets. */
  lemma {:induction false} NoTrimAtOneInstant(p: Params, s: State, key: string, now: real, n: nat)
    requires p.refill > 0.0 && now - s.lastTrim < TRIM_EVERY
    ensures var run := Repeat(key, now, n);
            && RateAnswers(p, s, run) == Answers(p, s.buckets, run)
            && RateAfter(p, s, run) == State(After(p, s.buckets, run), s.lastTrim)
    decreases n
  {
    if n > 0 {
      var run := Repeat(key, now, n);
      assert run[1..] == Repeat(key, now, n - 1);
      NoTrimAtOneInstant(p, RateStep(p, s, key, now).0, key, now, n - 1);
    }
  }

  /** A burst, a pause longer than the cut-off but too short to refill, and a burst again. */
  function Witness(p: Params, start: real, pause: real): seq<Request>
    requires p.burst >= 1
  {
    Repeat(IDLE_KEY, start, p.burst) + Repeat(IDLE_KEY, start + pause, p.burst)
  }

  /** A pause that is too short to refill the burst, though nearly long enough. */
  predicate TooShort(p: Params, pause: real) {
    p.refill > 0.0 && p.burst >= 1 && 0.0 <= pause && (p.burst - 1) as real <= pause / p.refill < p.burst as real
  }

  const IDLE_KEY := "k"

  lemma FirstBurstEmpties(p: Params, start: real)
    requires p.refill > 0.0 && p.burst >= 1
    ensures After(p, map[], Repeat(IDLE_KEY, start, p.burst)) == map[IDLE_KEY := Bucket(0.0, start)]
  {
    BurstSpends(p, map[], IDLE_KEY, start, p.burst);
  }

  lemma ReferenceRefusesTheLast(p: Params, start: real, pause: real)
    requires TooShort(p, pause)
    ensures !Answers(p, map[], Witness(p, start, pause))[2 * p.burst - 1]
  {
    var n, later := p.burst, start + pause;
    var m := map[IDLE_KEY := Bucket(0.0, start)];
    AnswersSplit(p, map[], Repeat(IDLE_KEY, start, n), Repeat(IDLE_KEY, later, n));
    FirstBurstEmpties(p, start);
    BurstSpends(p, m, IDLE_KEY, later, n);
  }

  lemma TrimForgets(p: Params, start: real, later: real, n: nat)
    requires p.refill > 0.0 && p.burst >= 1 && IDLE_AFTER < later - start && n == p.burst
    ensures RateAnswers(p, State(map[IDLE_KEY := Bucket(0.0, start)], start), Repeat(IDLE_KEY, later, n))[n - 1]
  {
    var s, emptied := State(map[IDLE_KEY := Bucket(0.0, start)], start), State(map[], later);
    var run := Repeat(IDLE_KEY, later, n);
    assert TrimLocked(s, later) == emptied;
    assert RateStep(p, s, IDLE_KEY, later) == RateStep(p, emptied, IDLE_KEY, later);
    assert RateAnswers(p, s, run) == RateAnswers(p, emptied, run);
    NoTrimAtOneInstant(p, emptied, IDLE_KEY, later, n);
    BurstSpends(p, map[], IDLE_KEY, later, n);
  }

  lemma ForgettingShows(p: Params, start: real, pause: real)
    requires TooShort(p, pause) && IDLE_AFTER < pause
    ensures Answers(p, map[], Witness(p, start, pause)) != RateAnswers(p, State(map[], start), Witness(p, start, pause))
  {
    var n, later := p.burst, start + pause;
    var first, second := Repeat(IDLE_KEY, start, n), Repeat(IDLE_KEY, later, n);
    ReferenceRefusesTheLast(p, start, pause);
    RateAnswersSplit(p, State(map[], start), first, second);
    NoTrimAtOneInstant(p, State(map[], start), IDLE_KEY, start, n);
    FirstBurstEmpties(p, start);
    TrimForgets(p, start, later, n);
    assert RateAnswers(p, State(map[], start), first + second)[n + (n - 1)];
  }

  /** A pause past the cut-off, within one interval of refilling the whole burst. */
  lemma PauseExists(p: Params) returns (pause: real)
    requires p.refill > 0.0 && p.burst as real * p.refill > IDLE_AFTER
    ensures p.burst >= 1 && IDLE_AFTER < pause
    ensures (p.burst - 1) as real <= pause / p.refill < p.burst as real
  {
    var whole := p.burst as real * p.refill;
    var least := if (p.burst - 1) as real * p.refill > IDLE_AFTER then (p.burst - 1) as real * p.refill else IDLE_AFTER;
    pause := (least + whole) / 2.0;
    assert least < whole;
    QuotientBetween(p.burst - 1, p.burst, pause, p.refill);
  }

  lemma QuotientBetween(lo: int, hi: int, x: real, d: real)
    requires d > 0.0 && lo as real * d <= x < hi as real * d
    ensures lo as real <= x / d < hi as real
  {
    assert x == (x / d) * d;
    OrderOfProducts(lo as real, x / d, d);
    OrderOfProducts(hi as real, x / d, d);
  }

  lemma OrderOfProducts(a: real, b: real, d: real)
    requires d > 0.0
    ensures a <= b <==> a * d <= b * d
  {
    assert b * d - a * d == (b - a) * d;
  }

  /**
   From start-up, the rate limiter answers every run as the reference does, exactly when a whole burst refills within
   the cut-off.
   */
  lemma TrimmingInvisibleIff(p: Params, start: real)
    requires p.refill > 0.0
    ensures (forall run | Clocked(run, start) :: RateAnswers(p, State(map[], start), run) == Answers(p, map[], run))
            <==> p.burst as real * p.refill <= IDLE_AFTER
  {
    if p.burst as real * p.refill <= IDLE_AFTER {
      forall run | Clocked(run, start) ensures RateAnswers(p, State(map[], start), run) == Answers(p, map[], run) {
        RateLimiterIsTheReference(p, map[], State(map[], start), run, start);
      }
    } else {
      var pause := PauseExists(p);
      ForgettingShows(p, start, pause);
      assert Clocked(Witness(p, start, pause), start);
    }
  }

  // ---------- both limiters, as deployed ----------

  /** Started together with equal parameters within the cut-off, the two limiters answer every call alike. */
  lemma LimitersAgree(p: Params, start: real, run: seq<Request>)
    requires p.refill > 0.0 && p.burst as real * p.refill <= IDLE_AFTER && Clocked(run, start)
    ensures ThrottleAnswers(p, State(map[], start), run) == RateAnswers(p, State(map[], start), run)
  {
    ThrottleIsTheReference(p, map[], State(map[], start), run, start);
    RateLimiterIsTheReference(p, map[], State(map[], start), run, start);
  }

  /** Other keys never affect a key's answers. */
  lemma ThrottleKeysAreIndependent(p: Params, start: real, run: seq<Request>, key: string)
    requires p.refill > 0.0 && Clocked(run, start)
    ensures AnswersTo(run, ThrottleAnswers(p, State(map[], start), run), key)
         == ThrottleAnswers(p, State(map[], start), OfKey(run, key))
  {
    OfKeyIsClocked(run, key, start);
    ThrottleIsTheReference(p, map[], State(map[], start), run, start);
    ThrottleIsTheReference(p, map[], State(map[], start), OfKey(run, key), start);
    KeysAreIndependent(p, map[], map[], run, key);
  }

  lemma RateKeysAreIndependent(p: Params, start: real, run: seq<Request>, key: string)
    requires p.refill > 0.0 && p.burst as real * p.refill <= IDLE_AFTER && Clocked(run, start)
    ensures AnswersTo(run, RateAnswers(p, State(map[], start), run), key)
         == RateAnswers(p, State(map[], start), OfKey(run, key))
  {
    OfKeyIsClocked(run, key, start);
    LimitersAgree(p, start, run);
    LimitersAgree(p, start, OfKey(run, key));
    ThrottleKeysAreIndependent(p, start, run, key);
  }

  lemma {:induction false} OfKeyIsClocked(run: seq<Request>, key: string, start: real)
    requires Clocked(run, start)
    ensures Clocked(OfKey(run, key), start)
    decreases |run|
  {
    if run != [] {
      OfKeyIsClocked(run[1..], key, run[0].now);
    }
  }

  lemma {:induction false} SoundAfter(p: Params, m: Buckets, run: seq<Request>, clock: real, until: real)
    requires p.refill > 0.0 && Sound(p, m, clock) && Clocked(run, clock) && clock <= until
    requires forall i | 0 <= i < |run| :: run[i].now <= until
    ensures Sound(p, After(p, m, run), until)
    decreases |run|
  {
    if run != [] {
      SpendKeepsSound(p, m, run[0].key, run[0].now, clock);
      SoundAfter(p, Spend(p, m, run[0].key, run[0].now).0, run[1..], run[0].now, until);
    }
  }

  /**
   In a whole run of the throttle, a window between t0 and t1 admits a key at most burst + (t1 - t0) / refill
   times, though buckets are trimmed and made again inside it.
   */
  lemma ThrottleWindowBound(
    p: Params, start: real, before: seq<Request>, window: seq<Request>, key: string, t0: real, t1: real)
    requires p.refill > 0.0 && Clocked(before + window, start) && start <= t0 <= t1
    requires forall i | 0 <= i < |before| :: before[i].now <= t0
    requires forall i | 0 <= i < |window| :: t0 <= window[i].now <= t1
    ensures Admitted(window, ThrottleAnswers(p, State(map[], start), before + window)[|before|..], key) as real
            <= (if p.burst < 0 then 0 else p.burst) as real + (t1 - t0) / p.refill
  {
    var run := before + window;
    ThrottleIsTheReference(p, map[], State(map[], start), run, start);
    AnswersSplit(p, map[], before, window);
    forall i | 0 <= i < |before| ensures start <= before[i].now { assert run[i] == before[i]; }
    forall i, j | 0 <= i < j < |before| ensures before[i].now <= before[j].now {
      assert run[i] == before[i] && run[j] == before[j];
    }
    forall i, j | 0 <= i < j < |window| ensures window[i].now <= window[j].now {
      assert run[|before| + i] == window[i] && run[|before| + j] == window[j];
    }
    SoundAfter(p, map[], before, start, t0);
    WindowBound(p, After(p, map[], before), window, key, t0, t0, t1);
  }

  /** A caller of the throttle that waits at least `refill` after each of its requests is never refused. */
  lemma ThrottleNeverRefusesThePatient(p: Params, start: real, run: seq<Request>, i: nat)
    requires p.refill > 0.0 && p.burst >= 1 && Clocked(run, start) && i < |run|
    requires forall j | 0 <= j < i && run[j].key == run[i].key :: run[i].now - run[j].now >= p.refill
    ensures ThrottleAnswers(p, State(map[], start), run)[i]
  {
    ThrottleIsTheReference(p, map[], State(map[], start), run, start);
    PatientCallerIsNeverRefused(p, map[], run, i, start);
  }

  // ---------- what trimming removes ----------

  /** A trim is due when the map is large or the last one old; it keeps just the buckets that are not full again. */
  lemma ThrottleTrims(p: Params, s: State, now: real)
    requires p.refill > 0.0
    ensures var s', due := MaybeTrim(p, s, now), |s.buckets| >= 1024 || now - s.lastTrim >= 10.0 * p.refill;
            && (!due ==> s' == s)
            && (due ==> s'.lastTrim == now
                        && forall k :: k in s'.buckets
                                       <==> k in s.buckets && Refilled(p, s.buckets[k], now) < p.burst as real)
            && (forall k | k in s'.buckets :: s'.buckets[k] == s.buckets[k])
  {
  }

  /** The rate limiter trims every five minutes, and keeps just the buckets used within ten. */
  lemma RateLimiterTrims(s: State, now: real)
    ensures var s', due := TrimLocked(s, now), now - s.lastTrim >= 300.0;
            && (!due ==> s' == s)
            && (due ==> s'.lastTrim == now
                        && forall k :: k in s'.buckets <==> k in s.buckets && now - s.buckets[k].last <= 600.0)
            && (forall k | k in s'.buckets :: s'.buckets[k] == s.buckets[k])
  {
  }

  /** A call trims first, then spends from its own bucket alone. */
  lemma ThrottleStepLeaves(p: Params, s: State, key: string, now: real)
    requires p.refill > 0.0
    ensures var (s', ok) := ThrottleStep(p, s, key, now);
            var due := |s.buckets| >= 1024 || now - s.lastTrim >= 10.0 * p.refill;
            var level := if key in s.buckets then Refilled(p, s.buckets[key], now) else p.burst as real;
            && (ok <==> level >= 1.0)
            && s'.lastTrim == (if due then now else s.lastTrim)
            && key in s'.buckets && s'.buckets[key] == Bucket(if ok then level - 1.0 else level, now)
            && (forall k | k != key ::
                  k in s'.buckets
                  <==> k in s.buckets && (due ==> Refilled(p, s.buckets[k], now) < p.burst as real))
            && (forall k | k != key && k in s'.buckets :: s'.buckets[k] == s.buckets[k])
  {
    ThrottleTrims(p, s, now);
  }

  /** The rate limiter too; a bucket idle past the cut-off starts over full. */
  lemma RateStepLeaves(p: Params, s: State, key: string, now: real)
    requires p.refill > 0.0
    ensures var (s', ok), due := RateStep(p, s, key, now), now - s.lastTrim >= 300.0;
            var stands := key in s.buckets && !(due && now - s.buckets[key].last > 600.0);
            var level := if stands then Refilled(p, s.buckets[key], now) else p.burst as real;
            && (ok <==> level >= 1.0)
            && s'.lastTrim == (if due then now else s.lastTrim)
            && key in s'.buckets && s'.buckets[key] == Bucket(if ok then level - 1.0 else level, now)
            && (forall k | k != key ::
                  k in s'.buckets <==> k in s.buckets && (due ==> now - s.buckets[k].last <= 600.0))
            && (forall k | k != key && k in s'.buckets :: s'.buckets[k] == s.buckets[k])
  {
    RateLimiterTrims(s, now);
  }
}
