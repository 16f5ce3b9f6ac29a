/**
 The web tier's authorization-token cache: one process-wide map, two locked sections
 per miss, and the exchange with the auth service between them. Times are epoch
 milliseconds.
 */
module AuthzCache {
  import opened GoStrings

  datatype Entry = Entry(token: string, expMs: int)

  type Cache = map<string, Entry>

  const SKEW_MS := 60_000

  const NUL: char := '\0'

  function CacheKey(identity: string, resource: string): string {
    identity + [NUL] + resource
  }

  // ---------- the locked sections ----------

  function Lookup(c: Cache, key: string, nowMs: int): Option<string> {
    if key in c && nowMs < c[key].expMs - SKEW_MS then Some(c[key].token) else None
  }

  function Pruned(c: Cache, nowMs: int): Cache {
    map k | k in c && !(c[k].expMs < nowMs) :: c[k]
  }

  function Stored(c: Cache, key: string, e: Entry, nowMs: int): Cache {
    Pruned(c, nowMs)[key := e]
  }

  class Client {
    var authzCache: Cache

    constructor ()
      ensures authzCache == map[]
    {
      authzCache := map[];
    }

    method StoreToken(key: string, token: string, expMs: int, nowMs: int)
      modifies this
      ensures authzCache == Stored(old(authzCache), key, Entry(token, expMs), nowMs)
    {
      ghost var before := authzCache;
      var left := authzCache.Keys;
      while left != {}
        invariant left <= before.Keys
        invariant authzCache == map k | k in before && (k in left || !(before[k].expMs < nowMs)) :: before[k]
        decreases left
      {
        var k :| k in left;
        left := left - {k};
        if authzCache[k].expMs < nowMs {
          authzCache := authzCache - {k};
        }
      }
      authzCache := authzCache[key := Entry(token, expMs)];
    }

    /** `exchanged` is what the auth service would answer; it is consulted only on a miss. */
    method ResourceAuthzToken(identity: string, resource: string, nowMs: int, exchanged: Result<Entry, string>)
      returns (r: Result<string, string>)
      modifies this
      ensures var key, before := CacheKey(identity, resource), old(authzCache);
              if identity == "" then r == Ok("") && authzCache == before
              else if Lookup(before, key, nowMs).Some? then
                r == Ok(Lookup(before, key, nowMs).value) && authzCache == before
              else match exchanged
                   case Err(e) => r == Err(e) && authzCache == before
                   case Ok(entry) => r == Ok(entry.token) && authzCache == Stored(before, key, entry, nowMs)
    {
      if identity == "" { return Ok(""); }
      var key := CacheKey(identity, resource);
      if key in authzCache {
        var cached := authzCache[key];
        if nowMs < cached.expMs - SKEW_MS { return Ok(cached.token); }
      }
      if exchanged.Err? { return Err(exchanged.error); }
      StoreToken(key, exchanged.value.token, exchanged.value.expMs, nowMs);
      return Ok(exchanged.value.token);
    }
  }

  // ---------- the key ----------

  lemma NulSplitsOnce(i: string, r: string, i': string, r': string)
    requires NUL !in i && NUL !in i' && CacheKey(i, r) == CacheKey(i', r')
    ensures i == i' && r == r'
  {
    var k := CacheKey(i, r);
    assert forall p | 0 <= p < |i| :: k[p] == i[p];
    assert forall p | 0 <= p < |i'| :: k[p] == i'[p];
    assert k[|i|] == NUL && k[|i'|] == NUL;
    assert k[..|i|] == i && k[..|i'|] == i' && k[|i| + 1..] == r && k[|i'| + 1..] == r';
  }

  /** A pair shares its key with no other pair exactly when neither part contains NUL. */
  lemma KeyIsUniqueIff(i: string, r: string)
    ensures (forall i', r' | CacheKey(i', r') == CacheKey(i, r) :: i' == i && r' == r) <==> NUL !in i && NUL !in r
  {
    if NUL !in i && NUL !in r {
      forall i', r' | CacheKey(i', r') == CacheKey(i, r) ensures i' == i && r' == r {
        KeyHasOneNul(i, r, i', r');
        NulSplitsOnce(i, r, i', r');
      }
    } else if NUL in i {
      var p :| 0 <= p < |i| && i[p] == NUL;
      assert i == i[..p] + [NUL] + i[p + 1..];
      assert CacheKey(i[..p], i[p + 1..] + [NUL] + r) == CacheKey(i, r);
    } else {
      var p :| 0 <= p < |r| && r[p] == NUL;
      assert r == r[..p] + [NUL] + r[p + 1..];
      assert CacheKey(i + [NUL] + r[..p], r[p + 1..]) == CacheKey(i, r);
    }
  }

  lemma KeyHasOneNul(i: string, r: string, i': string, r': string)
    requires NUL !in i && NUL !in r && CacheKey(i', r') == CacheKey(i, r)
    ensures NUL !in i'
  {
    var k := CacheKey(i, r);
    assert forall p | 0 <= p < |i| :: k[p] == i[p];
    assert forall p | |i| < p < |k| :: k[p] == r[p - |i| - 1];
    assert forall p | 0 <= p < |i'| :: k[p] == i'[p];
    assert k[|i'|] == NUL;
  }

  // ---------- many callers at once ----------

  datatype Exchange = Exchange(identity: string, resource: string, entry: Entry)

  /** Where one call of ResourceAuthzToken stands. */
  datatype Caller =
    | Looking(identity: string, resource: string, nowMs: int)
    | Exchanging(identity: string, resource: string, nowMs: int)
    | Storing(identity: string, resource: string, nowMs: int, entry: Entry)
    | Returned(identity: string, resource: string, nowMs: int, token: string, hit: bool)
    | Failed

  /** `exchanges` records every answer the auth service gave, and for which pair. */
  datatype World = World(cache: Cache, callers: map<nat, Caller>, exchanges: set<Exchange>)

  datatype Action =
    | Call(id: nat, identity: string, resource: string, nowMs: int)
    | DoLookup(id: nat)
    | DoExchange(id: nat, answer: Option<Entry>)
    | DoStore(id: nat)

  /** An action out of turn changes nothing. */
  function Act(w: World, a: Action): World {
    match a
    case Call(id, identity, resource, nowMs) =>
      if id in w.callers || identity == "" then w
      else w.(callers := w.callers[id := Looking(identity, resource, nowMs)])
    case DoLookup(id) =>
      if id !in w.callers || !w.callers[id].Looking? then w
      else
        var c := w.callers[id];
        var next := match Lookup(w.cache, CacheKey(c.identity, c.resource), c.nowMs)
          case Some(token) => Returned(c.identity, c.resource, c.nowMs, token, true)
          case None => Exchanging(c.identity, c.resource, c.nowMs);
        w.(callers := w.callers[id := next])
    case DoExchange(id, answer) =>
      if id !in w.callers || !w.callers[id].Exchanging? then w
      else
        var c := w.callers[id];
        (match answer
         case None => w.(callers := w.callers[id := Failed])
         case Some(entry) =>
           w.(callers := w.callers[id := Storing(c.identity, c.resource, c.nowMs, entry)],
              exchanges := w.exchanges + {Exchange(c.identity, c.resource, entry)}))
    case DoStore(id) =>
      if id !in w.callers || !w.callers[id].Storing? then w
      else
        var c := w.callers[id];
        w.(callers := w.callers[id := Returned(c.identity, c.resource, c.nowMs, c.entry.token, false)],
           cache := Stored(w.cache, CacheKey(c.identity, c.resource), c.entry, c.nowMs))
  }

  function Interleave(w: World, actions: seq<Action>): World
    decreases |actions|
  {
    if actions == [] then w else Interleave(Act(w, actions[0]), actions[1..])
  }

  const START := World(map[], map[], {})

  /** Identity tokens are signed tokens in base64url and dots, so they contain no NUL. */
  predicate NulFree(actions: seq<Action>) {
    forall a | a in actions && a.Call? :: NUL !in a.identity
  }

  /** The entry under a key came from an exchange for a pair with that key. */
  ghost predicate EntryIsFrom(exchanges: set<Exchange>, key: string, e: Entry) {
    exists x | x in exchanges :: x.entry == e && CacheKey(x.identity, x.resource) == key && NUL !in x.identity
  }

  ghost predicate CallerOk(exchanges: set<Exchange>, c: Caller) {
    match c
    case Storing(i, r, _, e) => NUL !in i && Exchange(i, r, e) in exchanges
    case Returned(i, r, now, token, hit) =>
      exists x | x in exchanges ::
        x.identity == i && x.resource == r && x.entry.token == token && (hit ==> x.entry.expMs - now > SKEW_MS)
    case Failed => true
    case _ => NUL !in c.identity
  }

  ghost predicate WorldOk(w: World) {
    && (forall k | k in w.cache :: EntryIsFrom(w.exchanges, k, w.cache[k]))
    && (forall id | id in w.callers :: CallerOk(w.exchanges, w.callers[id]))
  }

  lemma LookupIsFromOwnPair(w: World, id: nat)
    requires WorldOk(w) && id in w.callers && w.callers[id].Looking?
    ensures WorldOk(Act(w, DoLookup(id)))
  {
    var c := w.callers[id];
    var key := CacheKey(c.identity, c.resource);
    if Lookup(w.cache, key, c.nowMs).Some? {
      var e := w.cache[key];
      assert EntryIsFrom(w.exchanges, key, e);
      var x :| x in w.exchanges && x.entry == e && CacheKey(x.identity, x.resource) == key && NUL !in x.identity;
      NulSplitsOnce(x.identity, x.resource, c.identity, c.resource);
      assert CallerOk(w.exchanges, Returned(c.identity, c.resource, c.nowMs, e.token, true));
    }
  }

  lemma MoreExchangesKeep(xs: set<Exchange>, ys: set<Exchange>)
    requires xs <= ys
    ensures forall k, e :: EntryIsFrom(xs, k, e) ==> EntryIsFrom(ys, k, e)
    ensures forall c :: CallerOk(xs, c) ==> CallerOk(ys, c)
  {
    forall k, e | EntryIsFrom(xs, k, e) ensures EntryIsFrom(ys, k, e) {
      var x :| x in xs && x.entry == e && CacheKey(x.identity, x.resource) == k && NUL !in x.identity;
      assert x in ys;
    }
    forall c | CallerOk(xs, c) ensures CallerOk(ys, c) {
      if c.Returned? {
        var x :| x in xs && x.identity == c.identity && x.resource == c.resource && x.entry.token == c.token
                 && (c.hit ==> x.entry.expMs - c.nowMs > SKEW_MS);
        assert x in ys;
      }
    }
  }

  lemma StoreKeepsWorld(w: World, id: nat)
    requires WorldOk(w) && id in w.callers && w.callers[id].Storing?
    ensures WorldOk(Act(w, DoStore(id)))
  {
    var c := w.callers[id];
    var x := Exchange(c.identity, c.resource, c.entry);
    assert CallerOk(w.exchanges, c);
    assert x in w.exchanges;
    assert EntryIsFrom(w.exchanges, CacheKey(c.identity, c.resource), c.entry);
    assert CallerOk(w.exchanges, Returned(c.identity, c.resource, c.nowMs, c.entry.token, false));
  }

  lemma ActKeepsWorld(w: World, a: Action)
    requires WorldOk(w) && (a.Call? ==> NUL !in a.identity)
    ensures WorldOk(Act(w, a))
  {
    match a
    case Call(_, _, _, _) =>
    case DoLookup(id) => if id in w.callers && w.callers[id].Looking? { LookupIsFromOwnPair(w, id); }
    case DoExchange(id, answer) => MoreExchangesKeep(w.exchanges, Act(w, a).exchanges);
    case DoStore(id) => if id in w.callers && w.callers[id].Storing? { StoreKeepsWorld(w, id); }
  }

  lemma {:induction false} InterleavingKeepsWorld(w: World, actions: seq<Action>)
    requires WorldOk(w) && NulFree(actions)
    ensures WorldOk(Interleave(w, actions))
    decreases |actions|
  {
    if actions != [] {
      ActKeepsWorld(w, actions[0]);
      InterleavingKeepsWorld(Act(w, actions[0]), actions[1..]);
    }
  }

  /**
   Under every interleaving of any number of callers, the token a caller is handed came from an exchange for
   exactly its identity and resource, and one handed from the cache has more than the skew left at its reading.
   */
  lemma TokensComeFromTheirOwnExchange(actions: seq<Action>, id: nat) returns (x: Exchange)
    requires NulFree(actions)
    requires id in Interleave(START, actions).callers && Interleave(START, actions).callers[id].Returned?
    ensures var w := Interleave(START, actions);
            var c := w.callers[id];
            && x in w.exchanges && x.identity == c.identity && x.resource == c.resource && x.entry.token == c.token
            && (c.hit ==> x.entry.expMs - c.nowMs > 60_000)
  {
    InterleavingKeepsWorld(START, actions);
    var w := Interleave(START, actions);
    var c := w.callers[id];
    assert CallerOk(w.exchanges, c);
    x :| x in w.exchanges && x.identity == c.identity && x.resource == c.resource && x.entry.token == c.token
         && (c.hit ==> x.entry.expMs - c.nowMs > SKEW_MS);
  }

  /** One caller's actions in a row do as the method does: nothing, a hit, or the answer stored or given up on. */
  lemma AloneLikeTheMethod(w: World, id: nat, identity: string, resource: string, nowMs: int, answer: Option<Entry>)
    requires id !in w.callers
    ensures var key := CacheKey(identity, resource);
            var call := Call(id, identity, resource, nowMs);
            var end := Interleave(w, [call, DoLookup(id), DoExchange(id, answer), DoStore(id)]);
            if identity == "" then end == w
            else
              && id in end.callers
              && match Lookup(w.cache, key, nowMs)
                 case Some(token) =>
                   end.cache == w.cache && end.callers[id] == Returned(identity, resource, nowMs, token, true)
                 case None =>
                   match answer
                   case None => end.cache == w.cache && end.callers[id] == Failed
                   case Some(e) =>
                     && end.cache == Stored(w.cache, key, e, nowMs)
                     && end.callers[id] == Returned(identity, resource, nowMs, e.token, false)
  {
    var a, b, c, d := Call(id, identity, resource, nowMs), DoLookup(id), DoExchange(id, answer), DoStore(id);
    var w1 := Act(w, a);
    var w2 := Act(w1, b);
    var w3 := Act(w2, c);
    FourActions(w, a, b, c, d);
    if identity != "" {
      assert w1.callers[id] == Looking(identity, resource, nowMs);
      assert w1.cache == w.cache && w2.cache == w.cache && w3.cache == w.cache;
    }
  }

  lemma FourActions(w: World, a: Action, b: Action, c: Action, d: Action)
    ensures Interleave(w, [a, b, c, d]) == Act(Act(Act(Act(w, a), b), c), d)
  {
    assert [a, b, c, d][1..] == [b, c, d] && [b, c, d][1..] == [c, d] && [c, d][1..] == [d] && [d][1..] == [];
    var w1 := Act(w, a);
    var w2 := Act(w1, b);
    var w3 := Act(w2, c);
    assert Interleave(w3, [d]) == Interleave(Act(w3, d), []);
    assert Interleave(w2, [c, d]) == Interleave(w3, [d]);
    assert Interleave(w1, [b, c, d]) == Interleave(w2, [c, d]);
  }

  // ---------- pruning is invisible ----------

  /** After a store, only the entry just written may already have lapsed. */
  lemma OnlyTheNewEntryMayHaveLapsed(c: Cache, key: string, e: Entry, nowMs: int)
    ensures var c' := Stored(c, key, e, nowMs);
            && key in c' && c'[key] == e
            && (forall k | k in c' && k != key :: k in c && c'[k] == c[k] && c'[k].expMs >= nowMs)
            && (forall k | k in c && c[k].expMs >= nowMs && k != key :: k in c' && c'[k] == c[k])
  {
  }

  /** One caller's store: what it exchanged, for which pair, and its clock reading. */
  datatype StoreOf = StoreOf(identity: string, resource: string, entry: Entry, nowMs: int)

  /** A cache of the program: what a sequence of stores leaves. */
  function CacheAfter(stores: seq<StoreOf>): Cache {
    if stores == [] then map[]
    else
      var last := stores[|stores| - 1];
      Stored(CacheAfter(stores[..|stores| - 1]), CacheKey(last.identity, last.resource), last.entry, last.nowMs)
  }

  ghost predicate Invisible(c: Cache, prunerMs: int, nowMs: int) {
    forall key :: Lookup(Pruned(c, prunerMs), key, nowMs) == Lookup(c, key, nowMs)
  }

  /**
   A prune at `prunerMs` can change no lookup at `nowMs`, in any cache the program builds, exactly when the reading is
   at most a skew and a millisecond older; then it can change none in any cache at all.
   */
  lemma PruneInvisibleIff(prunerMs: int, nowMs: int)
    ensures (forall stores, i, r ::
               Lookup(Pruned(CacheAfter(stores), prunerMs), CacheKey(i, r), nowMs)
               == Lookup(CacheAfter(stores), CacheKey(i, r), nowMs))
            <==> prunerMs <= nowMs + 60_000 + 1
    ensures (forall c: Cache :: Invisible(c, prunerMs, nowMs)) <==> prunerMs <= nowMs + 60_000 + 1
  {
    if prunerMs > nowMs + SKEW_MS + 1 {
      var stores := [StoreOf("i", "r", Entry("t", prunerMs - 1), nowMs)];
      FirstStore(stores);
      var c, key := CacheAfter(stores), CacheKey("i", "r");
      assert Lookup(c, key, nowMs) == Some("t") && Lookup(Pruned(c, prunerMs), key, nowMs) == None;
      assert !Invisible(c, prunerMs, nowMs);
    } else {
      forall c: Cache ensures Invisible(c, prunerMs, nowMs) {}
    }
  }

  lemma FirstStore(stores: seq<StoreOf>)
    requires |stores| == 1
    ensures CacheAfter(stores) == map[CacheKey(stores[0].identity, stores[0].resource) := stores[0].entry]
  {
    assert CacheAfter(stores[..0]) == map[];
  }

  /** An entry is served, unchanged, by every lookup until the skew, if no later store is for its key. */
  lemma {:induction false} ServedUntilTheSkew(stores: seq<StoreOf>, i: nat, nowMs: int)
    requires i < |stores| && nowMs < stores[i].entry.expMs - 60_000
    requires forall j | i < j < |stores| ::
               CacheKey(stores[j].identity, stores[j].resource) != CacheKey(stores[i].identity, stores[i].resource)
               && stores[j].nowMs <= nowMs
    ensures Lookup(CacheAfter(stores), CacheKey(stores[i].identity, stores[i].resource), nowMs)
         == Some(stores[i].entry.token)
  {
    var n := |stores| - 1;
    if i < n {
      ServedUntilTheSkew(stores[..n], i, nowMs);
    }
  }

  datatype CacheOp = LookupOp(key: string, nowMs: int) | StoreOp(key: string, entry: Entry, nowMs: int)

  /** Every lookup reads a time no more than the skew older than any earlier pruner's. */
  predicate ReadingsInOrder(ops: seq<CacheOp>, prunedTo: int)
    decreases |ops|
  {
    ops == [] ||
    match ops[0]
    case LookupOp(_, now) => prunedTo <= now + SKEW_MS + 1 && ReadingsInOrder(ops[1..], prunedTo)
    case StoreOp(_, _, now) => ReadingsInOrder(ops[1..], if prunedTo < now then now else prunedTo)
  }

  function Hits(c: Cache, ops: seq<CacheOp>, prune: bool): seq<Option<string>>
    decreases |ops|
  {
    if ops == [] then []
    else
      match ops[0]
      case LookupOp(key, now) => [Lookup(c, key, now)] + Hits(c, ops[1..], prune)
      case StoreOp(key, e, now) => Hits(if prune then Stored(c, key, e, now) else c[key := e], ops[1..], prune)
  }

  /** `c'` lacks only entries that lapsed before `prunedTo`. */
  ghost predicate OnlyLapsedMissing(c: Cache, c': Cache, prunedTo: int) {
    && (forall k | k in c' :: k in c && c[k] == c'[k])
    && (forall k | k in c && k !in c' :: c[k].expMs < prunedTo)
  }

  /** Over a whole history of locked sections every lookup hits or misses as in a cache that never prunes. */
  lemma {:induction false} PruningIsInvisible(c: Cache, c': Cache, ops: seq<CacheOp>, prunedTo: int)
    requires OnlyLapsedMissing(c, c', prunedTo) && ReadingsInOrder(ops, prunedTo)
    ensures Hits(c', ops, true) == Hits(c, ops, false)
    decreases |ops|
  {
    if ops != [] {
      match ops[0]
      case LookupOp(_, _) =>
        PruningIsInvisible(c, c', ops[1..], prunedTo);
      case StoreOp(key, e, now) =>
        var next := if prunedTo < now then now else prunedTo;
        PruningIsInvisible(c[key := e], Stored(c', key, e, now), ops[1..], next);
    }
  }
}
