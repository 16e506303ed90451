/** The response cache (middleware/cache.go): a map with expiry times, swept in the background.
    Sweeping is invisible, and a hit replays the latest response stored under its key. */
module Cache {
  import opened Bytes

  datatype Response = Response(status: int, contentType: Str, body: Str)
  datatype Entry = Entry(response: Response, expiresAt: int)

  type Store = map<Str, Entry>

  datatype Event = Get(key: Str, now: int) | Set(key: Str, entry: Entry, now: int) | Evict(now: int)

  predicate Ordered(es: seq<Event>, from: int) {
    if es == [] then true else from <= es[0].now && Ordered(es[1..], es[0].now)
  }

  function Lookup(s: Store, key: Str, now: int): Option<Entry> {
    if key !in s || now > s[key].expiresAt then None else Some(s[key])
  }

  function Swept(s: Store, now: int): Store {
    map k | k in s && !(now > s[k].expiresAt) :: s[k]
  }

  /** A sweep drops exactly the expired entries. */
  lemma SweptIs(s: Store, now: int, key: Str)
    ensures key in Swept(s, now) <==> key in s && now <= s[key].expiresAt
    ensures key in Swept(s, now) ==> Swept(s, now)[key] == s[key]
  {
  }

  function Apply(s: Store, e: Event): Store {
    match e
    case Get(_, _) => s
    case Set(k, entry, _) => s[k := entry]
    case Evict(now) => Swept(s, now)
  }

  /** The answers to the gets of a run, in order. */
  function Answers(s: Store, es: seq<Event>): seq<Option<Entry>>
    decreases |es|
  {
    if es == [] then []
    else (if es[0].Get? then [Lookup(s, es[0].key, es[0].now)] else []) + Answers(Apply(s, es[0]), es[1..])
  }

  function WithoutEvictions(es: seq<Event>): seq<Event> {
    if es == [] then [] else (if es[0].Evict? then [] else [es[0]]) + WithoutEvictions(es[1..])
  }

  /** The same store up to entries that have expired. */
  ghost predicate Agree(swept: Store, kept: Store, now: int) {
    && (forall k :: k in swept ==> k in kept && swept[k] == kept[k])
    && (forall k :: k in kept && k !in swept ==> now > kept[k].expiresAt)
  }

  lemma Cons(s: Store, e: Event, rest: seq<Event>)
    ensures Answers(s, [e] + rest) ==
            (if e.Get? then [Lookup(s, e.key, e.now)] else []) + Answers(Apply(s, e), rest)
  {
    assert ([e] + rest)[1..] == rest;
  }

  lemma {:induction false} AgreementLasts(swept: Store, kept: Store, es: seq<Event>, now: int)
    requires Ordered(es, now) && Agree(swept, kept, now)
    ensures Answers(swept, es) == Answers(kept, WithoutEvictions(es))
    decreases |es|
  {
    if es != [] {
      var e, rest := es[0], es[1..];
      if e.Evict? {
        AgreementLasts(Apply(swept, e), kept, rest, e.now);
        assert WithoutEvictions(es) == WithoutEvictions(rest);
      } else {
        AgreementLasts(Apply(swept, e), Apply(kept, e), rest, e.now);
        assert WithoutEvictions(es) == [e] + WithoutEvictions(rest);
        Cons(kept, e, WithoutEvictions(rest));
      }
    }
  }

  /** For any interleaving of gets, sets and evictions at non-decreasing times, every get answers
      as a store that never evicts would. */
  lemma EvictionIsInvisible(es: seq<Event>, now: int)
    requires Ordered(es, now)
    ensures Answers(map[], es) == Answers(map[], WithoutEvictions(es))
  {
    AgreementLasts(map[], map[], es, now);
  }

  // ---------- what a hit replays ----------

  function Run(es: seq<Event>): Store {
    if es == [] then map[] else Apply(Run(es[..|es| - 1]), es[|es| - 1])
  }

  /** Position of the latest set of a key; |es| when there is none. */
  function LastSet(es: seq<Event>, key: Str): (i: nat)
    ensures i <= |es|
    ensures i < |es| ==> es[i].Set? && es[i].key == key
    ensures forall j :: i < j < |es| ==> !(es[j].Set? && es[j].key == key)
    ensures i == |es| ==> forall j :: 0 <= j < |es| ==> !(es[j].Set? && es[j].key == key)
  {
    if es == [] then 0
    else
      var n := |es| - 1;
      if es[n].Set? && es[n].key == key then n
      else
        var i := LastSet(es[..n], key);
        assert forall j :: 0 <= j < n ==> es[..n][j] == es[j];
        if i == n then |es| else i
  }

  lemma {:induction false} StoreHoldsLastSet(es: seq<Event>, key: Str)
    ensures key in Run(es) ==> LastSet(es, key) < |es| && Run(es)[key] == es[LastSet(es, key)].entry
  {
    if es != [] {
      StoreHoldsLastSet(es[..|es| - 1], key);
    }
  }

  /** Sets as the middleware makes them: 2xx responses only, expiring ttl after their time. */
  predicate FromMiddleware(es: seq<Event>, ttl: int) {
    forall i :: 0 <= i < |es| && es[i].Set? ==>
      200 <= es[i].entry.response.status < 300 && es[i].entry.expiresAt == es[i].now + ttl
  }

  /** A hit replays the latest 2xx response stored under its key, no more than ttl after it was
      stored. */
  lemma {:induction false} HitsReplayTheLatest(es: seq<Event>, ttl: int, key: Str, now: int)
    requires FromMiddleware(es, ttl)
    ensures var hit := Lookup(Run(es), key, now);
      hit.Some? ==>
        var i := LastSet(es, key);
        && i < |es| && hit.value.response == es[i].entry.response
        && 200 <= hit.value.response.status < 300
        && now <= es[i].now + ttl
  {
    StoreHoldsLastSet(es, key);
  }

  lemma {:induction false} FreshSurvives(es: seq<Event>, key: Str, now: int)
    requires LastSet(es, key) < |es| && es[LastSet(es, key)].entry.expiresAt >= now
    requires forall j :: LastSet(es, key) < j < |es| ==> es[j].now <= now
    ensures key in Run(es)
  {
    var n := |es| - 1;
    if LastSet(es, key) < n {
      assert forall j :: 0 <= j < n ==> es[..n][j] == es[j];
      assert LastSet(es[..n], key) == LastSet(es, key);
      FreshSurvives(es[..n], key, now);
      StoreHoldsLastSet(es[..n], key);
    }
  }

  /** Conversely, a response stored no more than ttl ago is found, whatever was swept since. */
  lemma {:induction false} FreshIsHit(es: seq<Event>, ttl: int, key: Str, now: int)
    requires FromMiddleware(es, ttl) && LastSet(es, key) < |es|
    requires now <= es[LastSet(es, key)].now + ttl
    requires forall j :: LastSet(es, key) < j < |es| ==> es[j].now <= now
    ensures Lookup(Run(es), key, now) == Some(es[LastSet(es, key)].entry)
  {
    FreshSurvives(es, key, now);
    StoreHoldsLastSet(es, key);
  }

  // ---------- the store and the middleware ----------

  class CacheStore {
    var entries: Store

    constructor ()
      ensures entries == map[]
    {
      entries := map[];
    }

    method Get(key: Str, now: int) returns (e: Option<Entry>)
      ensures e == Lookup(entries, key, now)
    {
      if key !in entries || now > entries[key].expiresAt {
        return None;
      }
      return Some(entries[key]);
    }

    method Set(key: Str, e: Entry)
      modifies this
      ensures entries == old(entries)[key := e]
    {
      entries := entries[key := e];
    }

    method Evict(now: int)
      modifies this
      ensures entries == Swept(old(entries), now)
    {
      var left := entries.Keys;
      while left != {}
        invariant left <= entries.Keys <= old(entries).Keys
        invariant forall k :: k in entries ==> entries[k] == old(entries)[k]
        invariant forall k :: k in old(entries) && k !in left ==>
          (k in entries <==> !(now > old(entries)[k].expiresAt))
        decreases left
      {
        var k :| k in left;
        if now > entries[k].expiresAt {
          entries := entries - {k};
        }
        left := left - {k};
      }
    }
  }

  datatype Served = Bypass | Hit(replayed: Response) | Miss | Failed

  class CacheMiddleware {
    const ttl: int
    const methods: set<Str>
    const store: CacheStore

    constructor (ttl: int, methods: set<Str>, store: CacheStore)
      ensures this.ttl == (if ttl == 0 then 30_000_000_000 else ttl) && this.methods == methods && this.store == store
    {
      this.ttl := if ttl == 0 then 30_000_000_000 else ttl;
      this.methods, this.store := methods, store;
    }

    /** One request. `next` is what the rest of the chain answers, None if it fails; the clock
        reads `now` at the lookup and `later` when a response is stored. Requests of other methods
        and requests with credentials never touch the store. */
    method Serve(verb: Str, authorized: bool, key: Str, next: Option<Response>, now: int, later: int)
      returns (r: Served)
      modifies store
      ensures verb !in methods || authorized ==> r == Bypass && store.entries == old(store.entries)
      ensures verb in methods && !authorized ==>
        match Lookup(old(store.entries), key, now)
        case Some(e) => r == Hit(e.response) && store.entries == old(store.entries)
        case None =>
          if next.None? then r == Failed && store.entries == old(store.entries)
          else
            && r == Miss
            && store.entries ==
                 if 200 <= next.value.status < 300
                 then old(store.entries)[key := Entry(next.value, later + ttl)] else old(store.entries)
    {
      if verb !in methods || authorized {
        return Bypass;
      }
      var e := store.Get(key, now);
      if e.Some? {
        return Hit(e.value.response);
      }
      if next.None? {
        return Failed;
      }
      if 200 <= next.value.status < 300 {
        store.Set(key, Entry(next.value, later + ttl));
      }
      return Miss;
    }
  }
}
