/**
 The whole login handshake over runs: which events a session survives, when its Complete succeeds and when a Take
 delivers, all read off the events alone.
 */
module Handshake {
  import opened GoStrings
  import opened Sessions

  predicate CompleteOn(e: Event, code: string) {
    e.CompleteEvent? && e.code == code
  }

  /** The poll of whoever created the session. */
  predicate OwnPoll(e: Event, code: string, clientState: string) {
    e.TakeEvent? && e.code == code && e.clientState == clientState
  }

  /** The event finds the session of `code` past its time: an access to it, or a sweep. */
  predicate FindsLapsed(e: Event, code: string, created: int, ttl: int) {
    if e.SweepEvent? then e.reading - created > ttl else e.code == code && e.now - created > ttl
  }

  predicate CreatedAt(run: seq<Event>, k: nat, code: string) {
    k < |run| && run[k].CreateEvent? && run[k].code == code
  }

  /** The first Complete of the code among the events after `k` and before `n`. */
  function FirstComplete(run: seq<Event>, code: string, k: nat, n: nat): Option<nat>
    requires k < n <= |run|
    decreases n
  {
    if n == k + 1 then None
    else
      match FirstComplete(run, code, k, n - 1)
      case Some(j) => Some(j)
      case None => if CompleteOn(run[n - 1], code) then Some(n - 1) else None
  }

  lemma {:induction false} FirstCompleteIsFirst(run: seq<Event>, code: string, k: nat, n: nat)
    requires k < n <= |run|
    ensures match FirstComplete(run, code, k, n)
            case None => forall m | k < m < n :: !CompleteOn(run[m], code)
            case Some(j) => k < j < n && CompleteOn(run[j], code) && forall m | k < m < j :: !CompleteOn(run[m], code)
    decreases n
  {
    if n > k + 1 {
      FirstCompleteIsFirst(run, code, k, n - 1);
    }
  }

  /** No event after `k` and before `n` found the session past its time. */
  predicate InTime(ttl: int, run: seq<Event>, code: string, k: nat, n: nat)
    requires k < n <= |run| && run[k].CreateEvent?
  {
    forall m | k < m < n :: !FindsLapsed(run[m], code, run[k].now, ttl)
  }

  /** None of them was the creator's poll after a Complete. */
  predicate NotTaken(run: seq<Event>, code: string, k: nat, n: nat)
    requires k < n <= |run| && run[k].CreateEvent?
  {
    forall m | k < m < n :: OwnPoll(run[m], code, run[k].clientState) ==> FirstComplete(run, code, k, m).None?
  }

  /** The session as its Create made it, stamped by the first Complete if there was one. */
  function SessionOf(run: seq<Event>, code: string, k: nat, n: nat): Session
    requires k < n <= |run| && run[k].CreateEvent?
  {
    FirstCompleteIsFirst(run, code, k, n);
    match FirstComplete(run, code, k, n)
    case None => Session(run[k].clientState, Pending, "", "", 0, run[k].now)
    case Some(j) =>
      Session(run[k].clientState, Complete, run[j].username, run[j].token, run[j].expiresAtMs, run[k].now)
  }

  /**
   A created session stands exactly while nothing found it past its time and its creator has not polled it after a
   Complete. Polls before that, others' polls, repeated Completes and early sweeps leave it as it is.
   */
  lemma {:induction false} SessionStandsIff(ttl: int, run: seq<Event>, k: nat, n: nat, code: string)
    requires CreatedAt(run, k, code) && k < n <= |run| && FreshCodes(run)
    ensures code in TableAt(ttl, run, n) <==> InTime(ttl, run, code, k, n) && NotTaken(run, code, k, n)
    ensures code in TableAt(ttl, run, n) ==> TableAt(ttl, run, n)[code] == SessionOf(run, code, k, n)
    decreases n
  {
    if n > k + 1 {
      SessionStandsIff(ttl, run, k, n - 1, code);
      SessionStep(ttl, run, k, n, code);
    }
  }

  lemma SessionStep(ttl: int, run: seq<Event>, k: nat, n: nat, code: string)
    requires CreatedAt(run, k, code) && k + 1 < n <= |run| && FreshCodes(run)
    requires code in TableAt(ttl, run, n - 1) <==> InTime(ttl, run, code, k, n - 1) && NotTaken(run, code, k, n - 1)
    requires code in TableAt(ttl, run, n - 1) ==> TableAt(ttl, run, n - 1)[code] == SessionOf(run, code, k, n - 1)
    ensures code in TableAt(ttl, run, n) <==> InTime(ttl, run, code, k, n) && NotTaken(run, code, k, n)
    ensures code in TableAt(ttl, run, n) ==> TableAt(ttl, run, n)[code] == SessionOf(run, code, k, n)
  {
    var e, m := run[n - 1], TableAt(ttl, run, n - 1);
    var created, cs := run[k].now, run[k].clientState;
    assert !(e.CreateEvent? && e.code == code);
    FirstCompleteIsFirst(run, code, k, n - 1);
    var completed := FirstComplete(run, code, k, n - 1).Some?;
    assert InTime(ttl, run, code, k, n)
      <==> InTime(ttl, run, code, k, n - 1) && !FindsLapsed(e, code, created, ttl);
    assert NotTaken(run, code, k, n)
      <==> NotTaken(run, code, k, n - 1) && !(OwnPoll(e, code, cs) && completed);
  }

  /** A Complete succeeds exactly if it is the first of its code, in time, and nothing found the session lapsed. */
  lemma CompletesIff(ttl: int, run: seq<Event>, k: nat, n: nat, code: string)
    requires CreatedAt(run, k, code) && k < n < |run| && FreshCodes(run) && CompleteOn(run[n], code)
    ensures CompletesAt(ttl, run, n, code)
            <==> && run[n].now - run[k].now <= ttl && InTime(ttl, run, code, k, n)
                 && (forall m | k < m < n :: !CompleteOn(run[m], code))
  {
    SessionStandsIff(ttl, run, k, n, code);
    FirstCompleteIsFirst(run, code, k, n);
    NotTakenIff(run, code, k, n);
  }

  /**
   A Take delivers exactly if it shows the creator's client state in time, after a first Complete, with no such poll
   between the two and nothing that found the session lapsed; and it delivers what that Complete stamped.
   */
  lemma DeliversIff(ttl: int, run: seq<Event>, k: nat, i: nat, code: string)
    requires CreatedAt(run, k, code) && k < i < |run| && FreshCodes(run)
    requires run[i].TakeEvent? && run[i].code == code
    ensures var first := FirstComplete(run, code, k, i);
            && (first.Some? ==> k < first.value < i && run[first.value].CompleteEvent?)
            && (DeliversAt(ttl, run, i, code)
                <==> && run[i].clientState == run[k].clientState && run[i].now - run[k].now <= ttl
                     && InTime(ttl, run, code, k, i) && first.Some?
                     && (forall m | first.value < m < i :: !OwnPoll(run[m], code, run[k].clientState)))
            && (DeliversAt(ttl, run, i, code) ==>
                  OutcomeAt(ttl, run, i)
                  == Took(Some(Delivery(run[first.value].token, run[first.value].expiresAtMs))))
  {
    SessionStandsIff(ttl, run, k, i, code);
    FirstCompleteIsFirst(run, code, k, i);
    NotTakenIff(run, code, k, i);
  }

  lemma NotTakenIff(run: seq<Event>, code: string, k: nat, n: nat)
    requires k < n <= |run| && run[k].CreateEvent?
    ensures NotTaken(run, code, k, n)
            <==> match FirstComplete(run, code, k, n)
                 case None => true
                 case Some(j) => k < j && forall m | j < m < n :: !OwnPoll(run[m], code, run[k].clientState)
  {
    FirstCompleteIsFirst(run, code, k, n);
    forall m | k < m < n
      ensures FirstComplete(run, code, k, m).Some?
              <==> FirstComplete(run, code, k, n).Some? && FirstComplete(run, code, k, n).value < m
    {
      FirstCompleteIsFirst(run, code, k, m);
    }
  }

  /** A Get returns the session as it stands, exactly while it stands and is in time. */
  lemma GetsIff(ttl: int, run: seq<Event>, k: nat, n: nat, code: string)
    requires CreatedAt(run, k, code) && k < n < |run| && FreshCodes(run)
    requires run[n].GetEvent? && run[n].code == code
    ensures OutcomeAt(ttl, run, n)
         == Got(if run[n].now - run[k].now <= ttl && InTime(ttl, run, code, k, n) && NotTaken(run, code, k, n)
                then Some(SessionOf(run, code, k, n)) else None)
  {
    SessionStandsIff(ttl, run, k, n, code);
  }

  /** A code that was never created is unknown to every operation. */
  lemma {:induction false} NothingWithoutCreate(ttl: int, run: seq<Event>, n: nat, code: string)
    requires n <= |run| && forall k | 0 <= k < n :: !CreatedAt(run, k, code)
    ensures code !in TableAt(ttl, run, n)
  {
    if n > 0 {
      NothingWithoutCreate(ttl, run, n - 1, code);
      assert !CreatedAt(run, n - 1, code);
    }
  }
}
