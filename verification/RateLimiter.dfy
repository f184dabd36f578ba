/** `ratelimit.go`: the limiter as the middleware uses it. */
module RateLimiter {
  import opened TokenBucket
  import opened ClientTable
  import Routing

  class Limiter {
    var clients: Table
    var rate: real
    var burst: int
    var routes: seq<Routing.Route>
    const idleTTL: nat

    constructor (rate: real, burst: int, routes: seq<Routing.Route>, ttl: int)
      ensures clients == map[] && this.rate == rate && this.burst == burst && this.routes == routes
      ensures idleTTL == if ttl <= 0 then TEN_MINUTES else ttl
    {
      clients, this.rate, this.burst, this.routes := map[], rate, burst, routes;
      idleTTL := if ttl <= 0 then TEN_MINUTES else ttl;
    }

    /** One request: choose the limits for the path, find or create the client's limiter, ask it. */
    method Request(ip: string, path: string, now: int) returns (ok: bool, ghost key: Key)
      modifies this`clients
      ensures key.ip == ip
      ensures Routing.Limits(key.rate, key.burst) ==
        match Routing.ScanAll(routes, path).rateOverride
        case Some(l) => l
        case None => Routing.Limits(rate, burst)
      ensures ok == Admits(old(clients), idleTTL, key, now)
      ensures clients == Apply(old(clients), idleTTL, Visit(key, now))
    {
      var limits, prefix := Routing.LimitsForPath(routes, Routing.Limits(rate, burst), path);
      key := Key(ip, limits.rate, limits.burst);
      ok := Hit(Key(ip, limits.rate, limits.burst), now);
    }

    /** `getLimiter` followed by `Allow`. */
    method Hit(key: Key, now: int) returns (ok: bool)
      modifies this`clients
      ensures ok == Admits(old(clients), idleTTL, key, now)
      ensures clients == Apply(old(clients), idleTTL, Visit(key, now))
    {
      if key in clients {
        if now - clients[key].lastSeen > idleTTL / 2 {
          clients := clients[key := clients[key].(lastSeen := now)];
        }
      } else {
        clients := clients[key := Client(Full(key, now), now)];
      }
      var bucket := clients[key].bucket;
      ok := HasToken(key, bucket, now);
      clients := clients[key := clients[key].(bucket := Take(key, bucket, now))];
    }

    /** First phase of a pass: the idle keys, each once, in some order. */
    method Expiring(now: int) returns (expired: seq<Key>)
      ensures forall k :: k in expired <==> Expired(clients, k, idleTTL, now)
      ensures forall i, j | 0 <= i < j < |expired| :: expired[i] != expired[j]
    {
      expired := [];
      var left := clients.Keys;
      while left != {}
        invariant left <= clients.Keys
        invariant forall k :: k in expired <==> k in clients && k !in left && Idle(clients[k], idleTTL, now)
        invariant forall i, j | 0 <= i < j < |expired| :: expired[i] != expired[j]
        decreases left
      {
        var k :| k in left;
        if Idle(clients[k], idleTTL, now) {
          expired := expired + [k];
        }
        left := left - {k};
      }
    }

    /** One write-locked batch: each key is re-checked before it is deleted. */
    method PurgeBatch(keys: seq<Key>, now: int) returns (evicted: nat)
      modifies this`clients
      ensures clients == Apply(old(clients), idleTTL, Purge(keys, now))
      ensures evicted == |old(clients)| - |clients|
    {
      evicted := 0;
      PurgeNothing(clients, idleTTL, now);
      for i := 0 to |keys|
        invariant clients == Apply(old(clients), idleTTL, Purge(keys[..i], now))
        invariant evicted == |old(clients)| - |clients|
      {
        assert keys[..i + 1] == keys[..i] + [keys[i]];
        PurgeMore(old(clients), idleTTL, keys[..i], [keys[i]], now);
        PurgeOne(clients, idleTTL, keys[i], now);
        if keys[i] in clients && Idle(clients[keys[i]], idleTTL, now) {
          clients := clients - {keys[i]};
          evicted := evicted + 1;
        }
      }
      assert keys[..|keys|] == keys;
    }

    /** A whole pass with nothing in between is one filter of the table; it reports how many it removed. */
    method EvictOnce(now: int) returns (evicted: nat)
      modifies this`clients
      ensures clients == map k | k in old(clients) && !Idle(old(clients)[k], idleTTL, now) :: old(clients)[k]
      ensures evicted == |old(clients)| - |clients|
    {
      var expired := Expiring(now);
      evicted := 0;
      var start := 0;
      PurgeNothing(clients, idleTTL, now);
      while start < |expired|
        invariant 0 <= start <= |expired|
        invariant clients == Apply(old(clients), idleTTL, Purge(expired[..start], now))
        invariant evicted == |old(clients)| - |clients|
      {
        var end := if start + BATCH > |expired| then |expired| else start + BATCH;
        assert expired[..end] == expired[..start] + expired[start..end];
        PurgeMore(old(clients), idleTTL, expired[..start], expired[start..end], now);
        var n := PurgeBatch(expired[start..end], now);
        evicted := evicted + n;
        start := end;
      }
      assert expired[..|expired|] == expired;
    }

    static lemma PurgeNothing(t: Table, ttl: nat, now: int)
      ensures Apply(t, ttl, Purge([], now)) == t
    {
    }

    /** Two batches of one pass act like one bigger batch. */
    static lemma PurgeMore(t: Table, ttl: nat, a: seq<Key>, b: seq<Key>, now: int)
      ensures Apply(Apply(t, ttl, Purge(a, now)), ttl, Purge(b, now)) == Apply(t, ttl, Purge(a + b, now))
    {
    }

    static lemma PurgeOne(t: Table, ttl: nat, k: Key, now: int)
      ensures Apply(t, ttl, Purge([k], now)) == if k in t && Idle(t[k], ttl, now) then t - {k} else t
      ensures k in t ==> |t - {k}| == |t| - 1
    {
      assert (t - {k}).Keys == t.Keys - {k};
      assert |(t - {k}).Keys| == |t - {k}| && |t.Keys| == |t|;
    }

    /** Hot reload forgets every client and keeps the idle TTL. */
    method UpdateConfig(rate: real, burst: int, routes: seq<Routing.Route>)
      modifies this
      ensures forall now :: clients == Apply(old(clients), idleTTL, Update(now))
      ensures clients == map[] && this.rate == rate && this.burst == burst && this.routes == routes
    {
      this.rate, this.burst, this.routes := rate, burst, routes;
      clients := map[];
    }
  }
}
