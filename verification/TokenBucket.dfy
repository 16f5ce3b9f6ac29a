/**
 The reference limiter: one token bucket per key, never forgotten. Tokens are reals
 and times are seconds.

 `burst` may be any integer, as in both programs; `refill` is a positive interval,
 since both divide by it.
 */
module TokenBucket {

  datatype Bucket = Bucket(tokens: real, last: real)

  datatype Params = Params(burst: int, refill: real)

  type Buckets = map<string, Bucket>

  datatype Request = Request(key: string, now: real)

  function Capped(p: Params, tokens: real): real {
    if tokens > p.burst as real then p.burst as real else tokens
  }

  function Refilled(p: Params, b: Bucket, now: real): real
    requires p.refill > 0.0
  {
    Capped(p, b.tokens + (now - b.last) / p.refill)
  }

  /** What a key may spend at `now`: an unknown key starts with a full burst. */
  function Level(p: Params, m: Buckets, key: string, now: real): real
    requires p.refill > 0.0
  {
    if key in m then Refilled(p, m[key], now) else p.burst as real
  }

  /** Spend one token if there is one; either way the bucket is settled at `now`. */
  function Spend(p: Params, m: Buckets, key: string, now: real): (Buckets, bool)
    requires p.refill > 0.0
  {
    var level := Level(p, m, key, now);
    if level < 1.0 then (m[key := Bucket(level, now)], false)
    else (m[key := Bucket(level - 1.0, now)], true)
  }

  // ---------- runs ----------

  /** The clock of a run does not go back, and starts no earlier than `from`. */
  predicate Clocked(run: seq<Request>, from: real) {
    && (forall i | 0 <= i < |run| :: from <= run[i].now)
    && (forall i, j | 0 <= i < j < |run| :: run[i].now <= run[j].now)
  }

  function Answers(p: Params, m: Buckets, run: seq<Request>): (r: seq<bool>)
    requires p.refill > 0.0
    ensures |r| == |run|
    decreases |run|
  {
    if run == [] then []
    else
      var (m', ok) := Spend(p, m, run[0].key, run[0].now);
      [ok] + Answers(p, m', run[1..])
  }

  /** Every bucket was settled by `clock` and holds no debt. */
  ghost predicate Sound(p: Params, m: Buckets, clock: real) {
    forall k | k in m ::
      m[k].last <= clock && Capped(p, 0.0) <= m[k].tokens <= p.burst as real
  }

  lemma DivMonotone(x: real, y: real, d: real)
    requires d > 0.0
    ensures x <= y ==> x / d <= y / d
    ensures (x + y) / d == x / d + y / d
    ensures 0.0 / d == 0.0
    ensures d / d == 1.0
  {
    if x <= y {
      assert (y - x) / d >= 0.0;
      assert y / d == x / d + (y - x) / d;
    }
  }

  lemma SpendKeepsSound(p: Params, m: Buckets, key: string, now: real, clock: real)
    requires p.refill > 0.0 && Sound(p, m, clock) && clock <= now
    ensures Sound(p, Spend(p, m, key, now).0, now)
    ensures Capped(p, 0.0) <= Level(p, m, key, now) <= p.burst as real
  {
    if key in m {
      DivMonotone(0.0, now - m[key].last, p.refill);
    }
  }

  // ---------- no request of another key matters ----------

  function OfKey(run: seq<Request>, key: string): (r: seq<Request>)
    decreases |run|
  {
    if run == [] then [] else (if run[0].key == key then [run[0]] else []) + OfKey(run[1..], key)
  }

  function AnswersTo(run: seq<Request>, answers: seq<bool>, key: string): seq<bool>
    requires |run| == |answers|
    decreases |run|
  {
    if run == [] then []
    else (if run[0].key == key then [answers[0]] else []) + AnswersTo(run[1..], answers[1..], key)
  }

  /** The answers a key gets are those it would get were it alone. */
  lemma {:induction false} KeysAreIndependent(p: Params, m: Buckets, m': Buckets, run: seq<Request>, key: string)
    requires p.refill > 0.0
    requires (key in m <==> key in m') && (key in m ==> m[key] == m'[key])
    ensures AnswersTo(run, Answers(p, m, run), key) == Answers(p, m', OfKey(run, key))
    decreases |run|
  {
    if run != [] {
      var next := Spend(p, m, run[0].key, run[0].now);
      assert Answers(p, m, run)[1..] == Answers(p, next.0, run[1..]);
      if run[0].key == key {
        var next' := Spend(p, m', key, run[0].now);
        KeysAreIndependent(p, next.0, next'.0, run[1..], key);
        assert OfKey(run, key)[0] == run[0] && OfKey(run, key)[1..] == OfKey(run[1..], key);
      } else {
        KeysAreIndependent(p, next.0, m', run[1..], key);
        assert OfKey(run, key) == OfKey(run[1..], key);
      }
    }
  }

  // ---------- how many are admitted ----------

  function Admitted(run: seq<Request>, answers: seq<bool>, key: string): nat
    requires |run| == |answers|
    decreases |run|
  {
    if run == [] then 0
    else (if run[0].key == key && answers[0] then 1 else 0) + Admitted(run[1..], answers[1..], key)
  }

  lemma LevelRises(p: Params, m: Buckets, key: string, t0: real, t1: real)
    requires p.refill > 0.0 && t0 <= t1
    ensures Level(p, m, key, t1) <= Level(p, m, key, t0) + (t1 - t0) / p.refill
  {
    DivMonotone(0.0, t1 - t0, p.refill);
    if key in m {
      DivMonotone(t0 - m[key].last, t1 - t0, p.refill);
    }
  }

  /** Admissions are paid for by the level at the start and by what flows in until `until`. */
  lemma {:induction false} AdmissionsArePaidFor(
    p: Params, m: Buckets, run: seq<Request>, key: string, from: real, until: real)
    requires p.refill > 0.0 && Sound(p, m, from) && Clocked(run, from) && from <= until
    requires forall i | 0 <= i < |run| :: run[i].now <= until
    ensures var paid := Level(p, m, key, from) + (until - from) / p.refill;
            Admitted(run, Answers(p, m, run), key) as real <= if paid < 0.0 then 0.0 else paid
    decreases |run|
  {
    DivMonotone(0.0, until - from, p.refill);
    if run != [] {
      var r := run[0];
      var (m', ok) := Spend(p, m, r.key, r.now);
      SpendKeepsSound(p, m, r.key, r.now, from);
      AdmissionsArePaidFor(p, m', run[1..], key, r.now, until);
      assert Answers(p, m, run)[1..] == Answers(p, m', run[1..]);
      assert Answers(p, m, run)[0] == ok;
      SpendIsPaidFor(p, m, r, key, from, until);
    }
  }

  lemma LevelAfterSpend(p: Params, m: Buckets, spender: string, key: string, now: real, clock: real)
    requires p.refill > 0.0 && Sound(p, m, clock) && clock <= now
    ensures var (m', ok) := Spend(p, m, spender, now);
            Level(p, m', key, now) == Level(p, m, key, now) - (if ok && spender == key then 1.0 else 0.0)
  {
    DivMonotone(0.0, 0.0, p.refill);
    SpendKeepsSound(p, m, spender, now, clock);
  }

  /** One request: what it spends leaves the level that much lower, and a key spends only a whole token. */
  lemma SpendIsPaidFor(p: Params, m: Buckets, r: Request, key: string, from: real, until: real)
    requires p.refill > 0.0 && Sound(p, m, from) && from <= r.now <= until
    ensures var (m', ok) := Spend(p, m, r.key, r.now);
            var (before, after) := (Level(p, m, key, from), Level(p, m', key, r.now));
            && after + (until - r.now) / p.refill + (if ok && r.key == key then 1.0 else 0.0)
               <= before + (until - from) / p.refill
            && (ok && r.key == key ==> after >= 0.0)
            && (until - r.now) / p.refill >= 0.0
  {
    LevelRises(p, m, key, from, r.now);
    DivMonotone(r.now - from, until - r.now, p.refill);
    DivMonotone(0.0, until - r.now, p.refill);
    LevelAfterSpend(p, m, r.key, key, r.now, from);
  }

  /** In any window a key is admitted at most a burst and one more for each refill interval. */
  lemma WindowBound(p: Params, m: Buckets, window: seq<Request>, key: string, clock: real, t0: real, t1: real)
    requires p.refill > 0.0 && Sound(p, m, clock) && clock <= t0 <= t1
    requires Clocked(window, t0) && forall i | 0 <= i < |window| :: window[i].now <= t1
    ensures Admitted(window, Answers(p, m, window), key) as real
            <= (if p.burst < 0 then 0 else p.burst) as real + (t1 - t0) / p.refill
  {
    assert Sound(p, m, t0);
    AdmissionsArePaidFor(p, m, window, key, t0, t1);
    DivMonotone(0.0, t1 - t0, p.refill);
    if key in m {
      SpendKeepsSound(p, m, key, t0, clock);
    }
  }

  /** A key whose last settled time is a refill interval back finds a token. */
  lemma WaitingKeyIsAdmitted(p: Params, m: Buckets, key: string, now: real, clock: real)
    requires p.refill > 0.0 && p.burst >= 1 && Sound(p, m, clock) && clock <= now
    requires key in m ==> now - m[key].last >= p.refill
    ensures Spend(p, m, key, now).1
  {
    if key in m {
      DivMonotone(p.refill, now - m[key].last, p.refill);
    }
  }

  /** A caller that waits at least `refill` after each of its earlier requests is not refused, whatever others do. */
  lemma {:induction false} PatientCallerIsNeverRefused(p: Params, m: Buckets, run: seq<Request>, i: nat, clock: real)
    requires p.refill > 0.0 && p.burst >= 1 && Sound(p, m, clock) && Clocked(run, clock) && i < |run|
    requires forall j | 0 <= j < i && run[j].key == run[i].key :: run[i].now - run[j].now >= p.refill
    requires run[i].key in m ==> run[i].now - m[run[i].key].last >= p.refill
    ensures Answers(p, m, run)[i]
    decreases |run|
  {
    if i == 0 {
      WaitingKeyIsAdmitted(p, m, run[0].key, run[0].now, clock);
    } else {
      var m' := Spend(p, m, run[0].key, run[0].now).0;
      SpendKeepsSound(p, m, run[0].key, run[0].now, clock);
      assert run[1..][i - 1] == run[i];
      PatientCallerIsNeverRefused(p, m', run[1..], i - 1, run[0].now);
    }
  }

  // ---------- forgetting full buckets ----------

  /** `m'` is `m` without some buckets that are full at `clock`. */
  ghost predicate Trimmed(p: Params, m: Buckets, m': Buckets, clock: real)
    requires p.refill > 0.0
  {
    && (forall k | k in m' :: k in m && m'[k] == m[k])
    && (forall k | k in m && k !in m' :: Level(p, m, k, clock) == p.burst as real)
  }

  lemma FullStaysFull(p: Params, m: Buckets, key: string, t0: real, t1: real)
    requires p.refill > 0.0 && t0 <= t1 && Level(p, m, key, t0) == p.burst as real
    ensures Level(p, m, key, t1) == p.burst as real
  {
    if key in m {
      DivMonotone(t0 - m[key].last, t1 - m[key].last, p.refill);
    }
  }

  lemma TrimmedLater(p: Params, m: Buckets, m': Buckets, t0: real, t1: real)
    requires p.refill > 0.0 && t0 <= t1 && Trimmed(p, m, m', t0)
    ensures Trimmed(p, m, m', t1)
    ensures forall k :: Level(p, m, k, t1) == Level(p, m', k, t1)
  {
    forall k | k in m && k !in m' ensures Level(p, m, k, t1) == p.burst as real {
      FullStaysFull(p, m, k, t0, t1);
    }
  }

  lemma SpendOnTrimmed(p: Params, m: Buckets, m': Buckets, key: string, clock: real, now: real)
    requires p.refill > 0.0 && clock <= now && Trimmed(p, m, m', clock)
    ensures Spend(p, m, key, now).1 == Spend(p, m', key, now).1
    ensures Trimmed(p, Spend(p, m, key, now).0, Spend(p, m', key, now).0, now)
  {
    TrimmedLater(p, m, m', clock, now);
    var n, n' := Spend(p, m, key, now).0, Spend(p, m', key, now).0;
    forall k | k in n && k !in n' ensures Level(p, n, k, now) == p.burst as real {
      assert k != key && Level(p, n, k, now) == Level(p, m, k, now);
    }
  }
}
