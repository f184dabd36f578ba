/** The per-client limiter table with lazy refresh and idle eviction, compared with a table that
    never evicts. */
module ClientTable {
  import opened TokenBucket
  import Int64

  datatype Client = Client(bucket: Bucket, lastSeen: int)

  type Table = map<Key, Client>

  /** `Visit` is one whole request: `getLimiter` and the `Allow` on what it returned. `Purge` is one
      write-locked janitor batch carrying the time captured at the start of its pass. `Update` is a
      configuration update, which forgets every client. */
  datatype Event = Visit(key: Key, now: int) | Purge(keys: seq<Key>, now: int) | Update(now: int)

  predicate Idle(c: Client, ttl: int, now: int) {
    now - c.lastSeen > ttl
  }

  /** `getLimiter`: refresh `lastSeen` only when it is older than half the TTL. */
  function Lookup(t: Table, ttl: nat, k: Key, now: int): Client {
    if k in t then
      if now - t[k].lastSeen > ttl / 2 then t[k].(lastSeen := now) else t[k]
    else Client(Full(k, now), now)
  }

  function Apply(t: Table, ttl: nat, e: Event): Table {
    match e
    case Visit(k, now) =>
      var c := Lookup(t, ttl, k, now);
      t[k := c.(bucket := Take(k, c.bucket, now))]
    case Purge(keys, now) => map k | k in t && !(k in keys && Idle(t[k], ttl, now)) :: t[k]
    case Update(_) => map[]
  }

  function Run(t: Table, ttl: nat, ev: seq<Event>): Table {
    if ev == [] then t else Apply(Run(t, ttl, ev[..|ev| - 1]), ttl, ev[|ev| - 1])
  }

  /** Does the table admit a request of `k` at `now`? */
  predicate Admits(t: Table, ttl: nat, k: Key, now: int) {
    HasToken(k, Lookup(t, ttl, k, now).bucket, now)
  }

  /** The reference limiter: one bucket per key, created on first use and kept until the next update. */
  function RunForever(ev: seq<Event>): map<Key, Bucket> {
    if ev == [] then map[] else
    var m := RunForever(ev[..|ev| - 1]);
    match ev[|ev| - 1]
    case Visit(k, now) => m[k := Take(k, BucketOf(m, k, now), now)]
    case Purge(_, _) => m
    case Update(_) => map[]
  }

  function BucketOf(m: map<Key, Bucket>, k: Key, now: int): Bucket {
    if k in m then m[k] else Full(k, now)
  }

  /** Every request and every update happens no earlier than anything that happened before it. A purge may
      carry an older time than requests that slipped in since its scan. */
  predicate Clocked(ev: seq<Event>) {
    forall i, j | 0 <= i < j < |ev| && !ev[j].Purge? :: ev[i].now <= ev[j].now
  }

  /** An entry can be evicted only this long after its bucket was last used. */
  function MinGap(ttl: nat): int {
    ttl - ttl / 2 + 1
  }

  /** The bucket refills completely in the shortest time that allows eviction. */
  predicate RefillsBeforeEviction(k: Key, ttl: nat) {
    k.burst as real <= Refill(k, MinGap(ttl))
  }

  // ---------- Eviction does not change who is admitted ----------

  /** What an observer at time `now` would find in the two tables. */
  function TableLevel(t: Table, k: Key, now: int): real {
    if k in t then Level(k, t[k].bucket, now) else k.burst as real
  }

  function ForeverLevel(m: map<Key, Bucket>, k: Key, now: int): real {
    if k in m then Level(k, m[k], now) else k.burst as real
  }

  /** Neither table has touched the bucket of `k` after `now`. */
  predicate UsedBy(k: Key, t: Table, m: map<Key, Bucket>, now: int) {
    (k in t ==> t[k].bucket.at <= now) && (k in m ==> m[k].at <= now)
  }

  ghost predicate Related(k: Key, ttl: nat, t: Table, m: map<Key, Bucket>, now: int) {
    && TableLevel(t, k, now) == ForeverLevel(m, k, now)
    && (k in t ==> WellFormed(k, t[k].bucket) && t[k].bucket.at <= t[k].lastSeen + ttl / 2)
    && (k in m ==> WellFormed(k, m[k]))
    && UsedBy(k, t, m, now)
  }

  lemma RelatedLater(k: Key, ttl: nat, t: Table, m: map<Key, Bucket>, now: int, later: int)
    requires k.rate >= 0.0 && Related(k, ttl, t, m, now) && now <= later
    ensures Related(k, ttl, t, m, later)
  {
    RefillNone(k);
    RefillMonotone(k, 0, later - now);
    if k in t {
      LevelAdvances(k, t[k].bucket, now, later);
    }
    if k in m {
      LevelAdvances(k, m[k], now, later);
    }
  }

  lemma FullLevel(k: Key, now: int)
    ensures Level(k, Full(k, now), now) == k.burst as real
  {
    RefillNone(k);
  }

  lemma VisitKeepsRelated(k: Key, ttl: nat, t: Table, m: map<Key, Bucket>, now: int)
    requires k.rate >= 0.0 && Related(k, ttl, t, m, now)
    ensures Admits(t, ttl, k, now) <==> HasToken(k, BucketOf(m, k, now), now)
    ensures Related(k, ttl, Apply(t, ttl, Visit(k, now)), m[k := Take(k, BucketOf(m, k, now), now)], now)
  {
    FullLevel(k, now);
    var b, b' := Lookup(t, ttl, k, now).bucket, BucketOf(m, k, now);
    LevelAfterTake(k, b, now);
    LevelAfterTake(k, b', now);
    TakeKeepsWellFormed(k, b, now);
    TakeKeepsWellFormed(k, b', now);
  }

  /** An idle entry's bucket is full again, so forgetting it is harmless. */
  lemma PurgeKeepsRelated(k: Key, ttl: nat, t: Table, m: map<Key, Bucket>, keys: seq<Key>, now: int)
    requires k.rate >= 0.0 && RefillsBeforeEviction(k, ttl) && Related(k, ttl, t, m, now)
    ensures Related(k, ttl, Apply(t, ttl, Purge(keys, now)), m, now)
  {
    if k in t && k in keys && Idle(t[k], ttl, now) {
      var b := t[k].bucket;
      RefillMonotone(k, MinGap(ttl), now - b.at);
      assert Level(k, b, now) == k.burst as real;
    }
  }

  /** The latest time mentioned so far. */
  function Clock(ev: seq<Event>): int {
    if ev == [] then 0 else
    var c := Clock(ev[..|ev| - 1]);
    if |ev| == 1 || c < ev[|ev| - 1].now then ev[|ev| - 1].now else c
  }

  lemma {:induction false} ClockBounds(ev: seq<Event>, i: nat)
    requires i < |ev|
    ensures ev[i].now <= Clock(ev)
    ensures exists j :: 0 <= j < |ev| && Clock(ev) == ev[j].now
  {
    if |ev| > 1 {
      var before := ev[..|ev| - 1];
      ClockBounds(before, if i < |before| then i else 0);
      var j :| 0 <= j < |before| && Clock(before) == before[j].now;
      assert ev[j].now == Clock(before);
    }
  }

  lemma {:induction false} RunsStayRelated(k: Key, ttl: nat, ev: seq<Event>)
    requires k.rate >= 0.0 && RefillsBeforeEviction(k, ttl) && Clocked(ev)
    ensures Related(k, ttl, Run(map[], ttl, ev), RunForever(ev), Clock(ev))
  {
    if ev != [] {
      var before, last := ev[..|ev| - 1], ev[|ev| - 1];
      RunsStayRelated(k, ttl, before);
      var t, m := Run(map[], ttl, before), RunForever(before);
      if before == [] {
        assert Related(k, ttl, t, m, last.now);
      } else {
        RelatedLater(k, ttl, t, m, Clock(before), Clock(ev));
        ClockBounds(before, 0);
      }
      if last.Visit? {
        assert Clock(ev) == last.now;
        if last.key == k {
          VisitKeepsRelated(k, ttl, t, m, last.now);
        }
      } else if last.Purge? {
        PurgeAtClock(k, ttl, t, m, last.keys, last.now, Clock(ev));
      }
    }
  }

  /** A purge that runs late, with the time captured at its scan, is still harmless. */
  lemma PurgeAtClock(k: Key, ttl: nat, t: Table, m: map<Key, Bucket>, keys: seq<Key>, now: int, clock: int)
    requires k.rate >= 0.0 && RefillsBeforeEviction(k, ttl) && now <= clock && Related(k, ttl, t, m, clock)
    ensures Related(k, ttl, Apply(t, ttl, Purge(keys, now)), m, clock)
  {
    if k in t && k in keys && Idle(t[k], ttl, now) {
      PurgeKeepsRelated(k, ttl, t, m, keys, clock);
      assert Idle(t[k], ttl, clock);
    }
  }

  /** The decision at event `i`, by the evicting table and by the reference. */
  predicate SameDecision(ttl: nat, ev: seq<Event>, i: nat)
    requires i < |ev| && ev[i].Visit?
  {
    Admits(Run(map[], ttl, ev[..i]), ttl, ev[i].key, ev[i].now)
    <==> HasToken(ev[i].key, BucketOf(RunForever(ev[..i]), ev[i].key, ev[i].now), ev[i].now)
  }

  /** Eviction transparency: under every interleaving of requests, janitor batches and updates, a key whose
      bucket refills before it can be evicted is admitted and denied exactly as if nothing were evicted. */
  lemma EvictionIsTransparent(ttl: nat, ev: seq<Event>, i: nat)
    requires Clocked(ev) && i < |ev| && ev[i].Visit?
    requires ev[i].key.rate >= 0.0 && RefillsBeforeEviction(ev[i].key, ttl)
    ensures SameDecision(ttl, ev, i)
  {
    var k, now, before := ev[i].key, ev[i].now, ev[..i];
    RunsStayRelated(k, ttl, before);
    var t, m := Run(map[], ttl, before), RunForever(before);
    if before == [] {
      assert Related(k, ttl, t, m, now);
    } else {
      ClockBounds(before, 0);
      RelatedLater(k, ttl, t, m, Clock(before), now);
    }
    VisitKeepsRelated(k, ttl, t, m, now);
  }

  // ---------- ... and the condition is exact ----------

  /** Every run, whatever it contains, treats `k` as the reference does. */
  ghost predicate Transparent(k: Key, ttl: nat) {
    forall ev: seq<Event>, i: nat | Clocked(ev) && i < |ev| && ev[i] == Visit(k, ev[i].now) ::
      SameDecision(ttl, ev, i)
  }

  /** `n` requests of `k` at the same instant. */
  function Repeat(k: Key, now: int, n: nat): (ev: seq<Event>)
    ensures |ev| == n && forall i | 0 <= i < n :: ev[i] == Visit(k, now)
  {
    seq(n, _ => Visit(k, now))
  }

  /** Level left after `n` attempts at one instant. */
  function Drain(level: real, n: nat): real {
    if n == 0 then level else
    var l := Drain(level, n - 1);
    if l >= 1.0 then l - 1.0 else l
  }

  lemma {:induction false} DrainAll(level: real, n: nat)
    ensures level >= n as real ==> Drain(level, n) == level - n as real
    ensures n > 0 && level < n as real ==> Drain(level, n - 1) < 1.0
  {
    if n > 0 {
      DrainAll(level, n - 1);
    }
  }

  lemma DrainStep(level: real, n: nat)
    requires n > 0
    ensures Drain(level, n) == Drain(Drain(level, n - 1), 1)
    ensures Drain(level, 1) == if level >= 1.0 then level - 1.0 else level
  {
    assert Drain(level, 0) == level;
    assert Drain(Drain(level, n - 1), 0) == Drain(level, n - 1);
  }

  lemma VisitDrainsOne(k: Key, ttl: nat, t: Table, m: map<Key, Bucket>, now: int)
    requires k.rate >= 0.0 && UsedBy(k, t, m, now)
    ensures var t', m' := Apply(t, ttl, Visit(k, now)), m[k := Take(k, BucketOf(m, k, now), now)];
            && UsedBy(k, t', m', now)
            && TableLevel(t', k, now) == Drain(TableLevel(t, k, now), 1)
            && ForeverLevel(m', k, now) == Drain(ForeverLevel(m, k, now), 1)
  {
    FullLevel(k, now);
    LevelAfterTake(k, Lookup(t, ttl, k, now).bucket, now);
    LevelAfterTake(k, BucketOf(m, k, now), now);
    DrainStep(TableLevel(t, k, now), 1);
    DrainStep(ForeverLevel(m, k, now), 1);
  }

  lemma RepeatStep(k: Key, ttl: nat, ev: seq<Event>, now: int, n: nat)
    requires n > 0
    ensures Run(map[], ttl, ev + Repeat(k, now, n)) == Apply(Run(map[], ttl, ev + Repeat(k, now, n - 1)), ttl, Visit(k, now))
    ensures RunForever(ev + Repeat(k, now, n)) ==
      var m := RunForever(ev + Repeat(k, now, n - 1)); m[k := Take(k, BucketOf(m, k, now), now)]
  {
    var all := ev + Repeat(k, now, n);
    assert all[..|all| - 1] == ev + Repeat(k, now, n - 1);
    assert all[|all| - 1] == Visit(k, now);
  }

  lemma {:induction false} RepeatDrains(k: Key, ttl: nat, ev: seq<Event>, now: int, n: nat)
    requires k.rate >= 0.0 && UsedBy(k, Run(map[], ttl, ev), RunForever(ev), now)
    ensures var t, m := Run(map[], ttl, ev), RunForever(ev);
            var t', m' := Run(map[], ttl, ev + Repeat(k, now, n)), RunForever(ev + Repeat(k, now, n));
            && UsedBy(k, t', m', now)
            && TableLevel(t', k, now) == Drain(TableLevel(t, k, now), n)
            && ForeverLevel(m', k, now) == Drain(ForeverLevel(m, k, now), n)
  {
    if n == 0 {
      assert ev + Repeat(k, now, 0) == ev;
    } else {
      RepeatDrains(k, ttl, ev, now, n - 1);
      RepeatStep(k, ttl, ev, now, n);
      var before := ev + Repeat(k, now, n - 1);
      VisitDrainsOne(k, ttl, Run(map[], ttl, before), RunForever(before), now);
      DrainStep(TableLevel(Run(map[], ttl, ev), k, now), n);
      DrainStep(ForeverLevel(RunForever(ev), k, now), n);
    }
  }

  /** Let the janitor take the entry at `evict` and ask `n` more times at that instant. */
  function Evicted(k: Key, ev: seq<Event>, evict: int, n: nat): seq<Event> {
    ev + [Purge([k], evict)] + Repeat(k, evict, n)
  }

  /** A run that last touched `k` at `now` and last refreshed it at `seen`, leaving `level` in the reference bucket. */
  datatype Setup = Setup(ev: seq<Event>, now: int, seen: int, level: real)

  ghost predicate Prepared(k: Key, ttl: nat, p: Setup) {
    var t, m := Run(map[], ttl, p.ev), RunForever(p.ev);
    && UsedBy(k, t, m, p.now) && k in t && t[k].lastSeen == p.seen
    && k in m && WellFormed(k, m[k]) && ForeverLevel(m, k, p.now) == p.level
  }

  predicate EndsBy(ev: seq<Event>, now: int) {
    Clocked(ev) && forall i | 0 <= i < |ev| :: ev[i].now <= now
  }

  /** The eviction leaves a full bucket on one side and what has refilled on the other. */
  lemma EvictionResets(k: Key, ttl: nat, p: Setup, wait: nat)
    requires k.rate >= 0.0 && Prepared(k, ttl, p)
    requires p.now + wait - p.seen > ttl && p.level + Refill(k, wait) < k.burst as real
    ensures var evict, ev := p.now + wait, p.ev + [Purge([k], p.now + wait)];
            var t, m := Run(map[], ttl, ev), RunForever(ev);
            && UsedBy(k, t, m, evict)
            && TableLevel(t, k, evict) == k.burst as real && ForeverLevel(m, k, evict) == p.level + Refill(k, wait)
  {
    var evict, m := p.now + wait, RunForever(p.ev);
    assert (p.ev + [Purge([k], evict)])[..|p.ev|] == p.ev;
    assert k !in Apply(Run(map[], ttl, p.ev), ttl, Purge([k], evict));
    LevelAdvances(k, m[k], p.now, evict);
  }

  lemma LevelsDecide(k: Key, ttl: nat, t: Table, m: map<Key, Bucket>, now: int)
    ensures Admits(t, ttl, k, now) <==> TableLevel(t, k, now) >= 1.0
    ensures HasToken(k, BucketOf(m, k, now), now) <==> ForeverLevel(m, k, now) >= 1.0
  {
    FullLevel(k, now);
  }

  /** Once all but one of a full burst are used up, the table still admits and the reference does not. */
  lemma AfterEviction(k: Key, ttl: nat, ev: seq<Event>, now: int, level: real)
    requires k.rate >= 0.0 && k.burst > 0 && level < k.burst as real
    requires var t, m := Run(map[], ttl, ev), RunForever(ev);
             && UsedBy(k, t, m, now) && TableLevel(t, k, now) == k.burst as real && ForeverLevel(m, k, now) == level
    ensures var after := ev + Repeat(k, now, k.burst - 1);
            && Admits(Run(map[], ttl, after), ttl, k, now)
            && !HasToken(k, BucketOf(RunForever(after), k, now), now)
  {
    var n := k.burst - 1;
    var after := ev + Repeat(k, now, n);
    RepeatDrains(k, ttl, ev, now, n);
    DrainAll(k.burst as real, n);
    DrainAll(level, k.burst);
    LevelsDecide(k, ttl, Run(map[], ttl, after), RunForever(after), now);
  }

  /** Whenever the reference bucket is not full at an eviction, the eviction is observable. */
  lemma EvictionShows(k: Key, ttl: nat, p: Setup, wait: nat)
    requires k.rate >= 0.0 && k.burst > 0 && Ready(k, ttl, p)
    requires p.now + wait - p.seen > ttl && p.level + Refill(k, wait) < k.burst as real
    ensures !Transparent(k, ttl)
  {
    var evict := p.now + wait;
    EvictionResets(k, ttl, p, wait);
    AfterEviction(k, ttl, p.ev + [Purge([k], evict)], evict, p.level + Refill(k, wait));
    EvictedClocked(k, p.ev, p.now, evict, k.burst);
    assert Evicted(k, p.ev, evict, k.burst - 1) + [Visit(k, evict)] == Evicted(k, p.ev, evict, k.burst);
    OneDifference(k, ttl, Evicted(k, p.ev, evict, k.burst - 1), evict);
  }

  lemma OneDifference(k: Key, ttl: nat, before: seq<Event>, now: int)
    requires Clocked(before + [Visit(k, now)])
    requires Admits(Run(map[], ttl, before), ttl, k, now) != HasToken(k, BucketOf(RunForever(before), k, now), now)
    ensures !Transparent(k, ttl)
  {
    var all, i := before + [Visit(k, now)], |before|;
    assert all[..i] == before && all[i] == Visit(k, all[i].now);
    assert !SameDecision(ttl, all, i);
  }

  lemma EvictedClocked(k: Key, ev: seq<Event>, now: int, evict: int, n: nat)
    requires EndsBy(ev, now) && now <= evict
    ensures Clocked(Evicted(k, ev, evict, n))
  {
    var all := Evicted(k, ev, evict, n);
    assert forall i | 0 <= i < |all| :: all[i].now == if i < |ev| then ev[i].now else evict;
    assert forall i | 0 <= i < |ev| :: all[i] == ev[i];
  }

  // A run that leaves the reference bucket as empty as possible when the entry may be evicted.

  /** Level of a bucket after an attempt that comes `wait` after the one that left `level`. */
  function NextLevel(k: Key, level: real, wait: nat): real {
    AfterOne(k.burst, level + Refill(k, wait))
  }

  /** At most `burst` tokens, minus one if there is one. */
  function AfterOne(burst: int, x: real): real {
    var capped := if x > burst as real then burst as real else x;
    if capped >= 1.0 then capped - 1.0 else capped
  }

  /** One more request, `wait` later. */
  function Next(k: Key, ttl: nat, p: Setup, wait: nat): Setup {
    var at := p.now + wait;
    Setup(p.ev + [Visit(k, at)], at, if at - p.seen > ttl / 2 then at else p.seen, NextLevel(k, p.level, wait))
  }

  /** The tables are as `p` says, and its events are in order. */
  ghost predicate Ready(k: Key, ttl: nat, p: Setup) {
    Prepared(k, ttl, p) && EndsBy(p.ev, p.now)
  }

  lemma NextReady(k: Key, ttl: nat, p: Setup, wait: nat)
    requires k.rate >= 0.0 && Ready(k, ttl, p)
    ensures Ready(k, ttl, Next(k, ttl, p, wait))
  {
    NextPrepared(k, ttl, p, wait);
    NextEndsBy(k, p.ev, p.now, p.now + wait);
  }

  lemma NextPrepared(k: Key, ttl: nat, p: Setup, wait: nat)
    requires k.rate >= 0.0 && Prepared(k, ttl, p)
    ensures Prepared(k, ttl, Next(k, ttl, p, wait))
  {
    var m, at := RunForever(p.ev), p.now + wait;
    assert (p.ev + [Visit(k, at)])[..|p.ev|] == p.ev;
    LevelAdvances(k, m[k], p.now, at);
    LevelAfterTake(k, m[k], at);
    TakeKeepsWellFormed(k, m[k], at);
  }

  lemma NextEndsBy(k: Key, ev: seq<Event>, now: int, at: int)
    requires EndsBy(ev, now) && now <= at
    ensures EndsBy(ev + [Visit(k, at)], at)
  {
  }

  /** `n` more requests at once. */
  function Again(k: Key, ttl: nat, p: Setup, n: nat): Setup {
    if n == 0 then p else Next(k, ttl, Again(k, ttl, p, n - 1), 0)
  }

  lemma {:induction false} AgainReady(k: Key, ttl: nat, p: Setup, n: nat)
    requires k.rate >= 0.0 && Ready(k, ttl, p)
    ensures Ready(k, ttl, Again(k, ttl, p, n))
  {
    if n > 0 {
      AgainReady(k, ttl, p, n - 1);
      NextReady(k, ttl, Again(k, ttl, p, n - 1), 0);
    }
  }

  /** They take whole tokens as long as there are any. */
  lemma {:induction false} AgainTakes(k: Key, ttl: nat, p: Setup, n: nat)
    requires 0.0 <= p.level <= k.burst as real
    ensures var q := Again(k, ttl, p, n);
            && q.now == p.now && (p.now - p.seen <= ttl / 2 ==> q.seen == p.seen)
            && q.level == p.level - (if n < p.level.Floor then n else p.level.Floor) as real
  {
    if n > 0 {
      AgainTakes(k, ttl, p, n - 1);
      RefillNone(k);
    }
  }

  function Frac(x: real): real {
    x - x.Floor as real
  }

  /** Use up every whole token. */
  function Drained(k: Key, ttl: nat, p: Setup): Setup
    requires k.burst >= 0
  {
    Again(k, ttl, p, k.burst)
  }

  lemma DrainedLevel(k: Key, ttl: nat, p: Setup)
    requires k.burst >= 0 && 0.0 <= p.level <= k.burst as real && p.now - p.seen <= ttl / 2
    ensures var q := Drained(k, ttl, p); q.now == p.now && q.seen == p.seen && q.level == Frac(p.level)
  {
    AgainTakes(k, ttl, p, k.burst);
  }

  lemma NextDrained(k: Key, ttl: nat, p: Setup, wait: nat)
    requires k.burst >= 0 && 0.0 <= NextLevel(k, p.level, wait) <= k.burst as real
    ensures var q, at := Drained(k, ttl, Next(k, ttl, p, wait)), p.now + wait;
            && q.now == at && q.seen == (if at - p.seen > ttl / 2 then at else p.seen)
            && q.level == Frac(NextLevel(k, p.level, wait))
  {
    DrainedLevel(k, ttl, Next(k, ttl, p, wait));
  }

  /** Create the entry at time 0. */
  function Created(k: Key): Setup {
    Setup([Visit(k, 0)], 0, 0, (k.burst - 1) as real)
  }

  lemma CreatedReady(k: Key, ttl: nat)
    requires k.rate >= 0.0 && k.burst > 0
    ensures Ready(k, ttl, Created(k))
  {
    assert [Visit(k, 0)][..0] == [];
    assert Run(map[], ttl, []) == map[] && RunForever([]) == map[];
    FullLevel(k, 0);
    LevelAfterTake(k, Full(k, 0), 0);
    TakeKeepsWellFormed(k, Full(k, 0), 0);
  }

  /** Half a TTL after the last refresh a request does not refresh; at the next chance to refresh, and half a
      TTL later, use up every token again. */
  function Period(k: Key, ttl: nat, p: Setup): Setup
    requires k.burst >= 0
  {
    var refreshed := Drained(k, ttl, Next(k, ttl, p, MinGap(ttl) - ttl / 2));
    Drained(k, ttl, Next(k, ttl, refreshed, ttl / 2))
  }

  /** What an empty bucket lacks of a burst when its entry may be evicted. */
  function Missing(k: Key, ttl: nat): real {
    k.burst as real - Refill(k, MinGap(ttl))
  }

  function Times(n: nat, d: real): real {
    if n == 0 then 0.0 else Times(n - 1, d) + d
  }

  /** Half a TTL after a refresh, with less left than refills in that time. */
  predicate HalfWay(k: Key, ttl: nat, p: Setup) {
    p.now == p.seen + ttl / 2 && 0.0 <= p.level <= Refill(k, ttl / 2)
  }

  /** A period takes a whole burst and refills less, so the level drops by what is missing. */
  lemma PeriodLowers(k: Key, ttl: nat, p: Setup)
    requires k.rate >= 0.0 && k.burst > 0 && Refill(k, ttl / 2) < 1.0 && HalfWay(k, ttl, p)
    requires 0.0 < Missing(k, ttl) <= p.level
    ensures HalfWay(k, ttl, Period(k, ttl, p))
    ensures Period(k, ttl, p).level <= p.level - Missing(k, ttl)
  {
    var h, wait := ttl / 2, MinGap(ttl) - ttl / 2;
    RefillAdds(k, wait, h);
    RefillGrows(k, wait);
    WholeTokensVanish(k.burst, p.level, Refill(k, wait), Refill(k, h));
    NextDrained(k, ttl, p, wait);
    NextDrained(k, ttl, Drained(k, ttl, Next(k, ttl, p, wait)), h);
  }

  lemma FracShift(x: real, n: int)
    ensures Frac(x + n as real) == Frac(x)
    ensures 0.0 <= Frac(x) < 1.0
  {
    assert (x + n as real).Floor == x.Floor + n;
  }

  lemma AfterOneKeepsFrac(burst: int, x: real)
    requires 0.0 <= x <= burst as real
    ensures 0.0 <= AfterOne(burst, x) <= burst as real
    ensures Frac(AfterOne(burst, x)) == Frac(x)
  {
    FracShift(x, -1);
  }

  lemma WholeTokensVanish(burst: int, level: real, r: real, s: real)
    requires burst >= 1 && 0.0 <= level <= s < 1.0 && 0.0 <= r && r + s < burst as real <= level + r + s
    ensures 0.0 <= AfterOne(burst, level + r) <= burst as real
    ensures 0.0 <= AfterOne(burst, Frac(AfterOne(burst, level + r)) + s) <= burst as real
    ensures 0.0 <= Frac(AfterOne(burst, Frac(AfterOne(burst, level + r)) + s)) <= level + r + s - burst as real
  {
    var x := level + r;
    AfterOneKeepsFrac(burst, x);
    FracShift(x, 0);
    var z := Frac(x) + s;
    if burst == 1 {
      assert x.Floor == 0;
      assert AfterOne(1, z) == 0.0;
    } else {
      AfterOneKeepsFrac(burst, z);
      FracShift(x + s - burst as real, burst - x.Floor);
      assert z == (x + s - burst as real) + (burst - x.Floor) as real;
      assert (x + s - burst as real).Floor == 0;
    }
  }

  lemma PeriodReady(k: Key, ttl: nat, p: Setup)
    requires k.rate >= 0.0 && k.burst >= 0 && Ready(k, ttl, p)
    ensures Ready(k, ttl, Period(k, ttl, p))
  {
    var a := Next(k, ttl, p, MinGap(ttl) - ttl / 2);
    NextReady(k, ttl, p, MinGap(ttl) - ttl / 2);
    AgainReady(k, ttl, a, k.burst);
    NextReady(k, ttl, Drained(k, ttl, a), ttl / 2);
    AgainReady(k, ttl, Next(k, ttl, Drained(k, ttl, a), ttl / 2), k.burst);
  }

  /** Sooner or later the level is so low that the bucket is not full when the entry may be evicted. */
  lemma {:induction false} PeriodsDiffer(k: Key, ttl: nat, p: Setup, n: nat)
    requires k.rate >= 0.0 && k.burst > 0 && Refill(k, ttl / 2) < 1.0 && !RefillsBeforeEviction(k, ttl)
    requires Ready(k, ttl, p) && HalfWay(k, ttl, p)
    requires p.level < Times(n, Missing(k, ttl))
    ensures !Transparent(k, ttl)
    decreases n
  {
    if p.level < Missing(k, ttl) {
      EvictionShows(k, ttl, p, MinGap(ttl));
    } else {
      PeriodReady(k, ttl, p);
      PeriodLowers(k, ttl, p);
      PeriodsDiffer(k, ttl, Period(k, ttl, p), n - 1);
    }
  }

  lemma Archimedes(x: real, d: real) returns (n: nat)
    requires x >= 0.0 && d > 0.0
    ensures x < Times(n, d)
  {
    var q := x / d;
    assert q * d == x && q >= 0.0;
    n := q.Floor + 1;
    MulStrict(d, q, n as real);
    TimesIsProduct(n, d);
  }

  lemma {:induction false} TimesIsProduct(n: nat, d: real)
    ensures Times(n, d) == d * n as real
  {
    if n > 0 {
      TimesIsProduct(n - 1, d);
      assert d * ((n - 1) as real + 1.0) == d * (n - 1) as real + d;
    }
  }

  /** A key that earns no token in half a TTL: start with an empty bucket and repeat the period. */
  lemma SlowKeyDiffers(k: Key, ttl: nat)
    requires k.rate >= 0.0 && k.burst > 0 && Refill(k, ttl / 2) < 1.0 && !RefillsBeforeEviction(k, ttl)
    ensures !Transparent(k, ttl)
  {
    var empty := Drained(k, ttl, Created(k));
    CreatedReady(k, ttl);
    AgainReady(k, ttl, Created(k), k.burst);
    DrainedLevel(k, ttl, Created(k));
    var p := Next(k, ttl, empty, ttl / 2);
    NextReady(k, ttl, empty, ttl / 2);
    RefillGrows(k, ttl / 2);
    assert HalfWay(k, ttl, p);
    var n := Archimedes(p.level, Missing(k, ttl));
    PeriodsDiffer(k, ttl, p, n);
  }

  /** A key that earns a token in half a TTL: use it up half a TTL after its creation. */
  lemma FastKeyDiffers(k: Key, ttl: nat)
    requires k.rate >= 0.0 && k.burst > 0 && Refill(k, ttl / 2) >= 1.0 && !RefillsBeforeEviction(k, ttl)
    ensures !Transparent(k, ttl)
  {
    var full := Next(k, ttl, Created(k), ttl / 2);
    CreatedReady(k, ttl);
    NextReady(k, ttl, Created(k), ttl / 2);
    AgainReady(k, ttl, full, k.burst);
    DrainedLevel(k, ttl, full);
    EvictionShows(k, ttl, Drained(k, ttl, full), MinGap(ttl));
  }

  /** For every key and every TTL, eviction is transparent exactly when the bucket refills in the shortest
      time that allows eviction. */
  lemma TransparentExactlyWhenRefilled(k: Key, ttl: nat)
    requires k.rate >= 0.0
    ensures Transparent(k, ttl) <==> k.burst as real <= Earned(k, ttl - ttl / 2 + 1)
  {
    EarnedIsRefill(k, MinGap(ttl));
    if RefillsBeforeEviction(k, ttl) {
      forall ev: seq<Event>, i: nat | Clocked(ev) && i < |ev| && ev[i] == Visit(k, ev[i].now)
        ensures SameDecision(ttl, ev, i)
      {
        EvictionIsTransparent(ttl, ev, i);
      }
    } else {
      RefillGrows(k, MinGap(ttl));
      if Refill(k, ttl / 2) >= 1.0 {
        FastKeyDiffers(k, ttl);
      } else {
        SlowKeyDiffers(k, ttl);
      }
    }
  }

  /** The documented margin, a full refill within half the TTL, is enough. */
  lemma HalfTtlSuffices(k: Key, ttl: nat)
    requires k.rate >= 0.0 && 2.0 * k.burst as real <= Earned(k, ttl)
    ensures RefillsBeforeEviction(k, ttl)
  {
    EarnedIsRefill(k, ttl);
    RefillAdds(k, MinGap(ttl), MinGap(ttl));
    RefillMonotone(k, ttl, MinGap(ttl) + MinGap(ttl));
  }

  // ---------- What is admitted ----------

  /** Tokens earned in `nanos` nanoseconds at the key's rate per second. */
  function Earned(k: Key, nanos: int): real {
    k.rate * (nanos as real / 1000000000.0)
  }

  lemma EarnedIsRefill(k: Key, nanos: int)
    ensures Earned(k, nanos) == Refill(k, nanos)
  {
  }

  lemma {:induction false} TableWellFormed(k: Key, ttl: nat, ev: seq<Event>)
    requires k.rate >= 0.0
    ensures var t := Run(map[], ttl, ev); k in t ==> WellFormed(k, t[k].bucket)
  {
    if ev != [] {
      var before, last := ev[..|ev| - 1], ev[|ev| - 1];
      TableWellFormed(k, ttl, before);
      if last == Visit(k, last.now) {
        TakeKeepsWellFormed(k, Lookup(Run(map[], ttl, before), ttl, k, last.now).bucket, last.now);
      }
    }
  }

  /** Of requests at one instant, a key that is not in the table has exactly its burst admitted. */
  lemma BurstIsAdmitted(k: Key, ttl: nat, ev: seq<Event>, now: int, i: nat)
    requires k.rate >= 0.0 && k.burst >= 0 && k !in Run(map[], ttl, ev) && UsedBy(k, map[], RunForever(ev), now)
    ensures Admits(Run(map[], ttl, ev + Repeat(k, now, i)), ttl, k, now) <==> i < k.burst
  {
    var after := ev + Repeat(k, now, i);
    RepeatDrains(k, ttl, ev, now, i);
    LevelsDecide(k, ttl, Run(map[], ttl, after), RunForever(after), now);
    if i < k.burst {
      DrainAll(k.burst as real, i);
    } else {
      DrainAll(k.burst as real, i + 1);
    }
  }

  /** After that burst the next request is admitted exactly when a whole token has been earned since. */
  lemma NextTokenExactlyWhen(k: Key, ttl: nat, ev: seq<Event>, now: int, wait: nat)
    requires k.rate >= 0.0 && k.burst >= 1 && k !in Run(map[], ttl, ev) && UsedBy(k, map[], RunForever(ev), now)
    ensures Admits(Run(map[], ttl, ev + Repeat(k, now, k.burst)), ttl, k, now + wait) <==>
      Earned(k, wait) >= 1.0
  {
    EarnedIsRefill(k, wait);
    var after := ev + Repeat(k, now, k.burst);
    var t := Run(map[], ttl, after);
    EmptiedByBurst(k, ttl, ev, now);
    WaitedLevel(k, ttl, t, now, wait);
    LevelsDecide(k, ttl, t, map[], now + wait);
  }

  lemma EmptiedByBurst(k: Key, ttl: nat, ev: seq<Event>, now: int)
    requires k.rate >= 0.0 && k.burst >= 1 && k !in Run(map[], ttl, ev) && UsedBy(k, map[], RunForever(ev), now)
    ensures var t := Run(map[], ttl, ev + Repeat(k, now, k.burst));
            k in t && t[k].bucket.at <= now && WellFormed(k, t[k].bucket) && TableLevel(t, k, now) == 0.0
  {
    RepeatDrains(k, ttl, ev, now, k.burst);
    DrainAll(k.burst as real, k.burst);
    TableWellFormed(k, ttl, ev + Repeat(k, now, k.burst));
  }

  lemma WaitedLevel(k: Key, ttl: nat, t: Table, now: int, wait: nat)
    requires k.rate >= 0.0 && k.burst >= 1
    requires k in t && t[k].bucket.at <= now && WellFormed(k, t[k].bucket) && TableLevel(t, k, now) == 0.0
    ensures TableLevel(t, k, now + wait) >= 1.0 <==> Refill(k, wait) >= 1.0
  {
    assert now + wait - now == wait;
    LevelAdvances(k, t[k].bucket, now, now + wait);
  }

  // ---------- The admission bound ----------

  /** Number of requests of `k` admitted at times in [from, to] by the evicting table. */
  function Admitted(k: Key, ttl: nat, ev: seq<Event>, from: int, to: int): nat {
    if ev == [] then 0 else
    var before, last := ev[..|ev| - 1], ev[|ev| - 1];
    Admitted(k, ttl, before, from, to)
    + if last == Visit(k, last.now) && from <= last.now <= to && Admits(Run(map[], ttl, before), ttl, k, last.now)
      then 1 else 0
  }

  function AdmittedForever(k: Key, ev: seq<Event>, from: int, to: int): nat {
    if ev == [] then 0 else
    var before, last := ev[..|ev| - 1], ev[|ev| - 1];
    AdmittedForever(k, before, from, to)
    + if last == Visit(k, last.now) && from <= last.now <= to
         && HasToken(k, BucketOf(RunForever(before), k, last.now), last.now)
      then 1 else 0
  }

  /** Does the event concern the bucket of `k`? */
  predicate Concerns(k: Key, e: Event) {
    e == Visit(k, e.now) || e.Update?
  }

  predicate UsedUntil(k: Key, ev: seq<Event>, now: int) {
    forall i | 0 <= i < |ev| :: Concerns(k, ev[i]) ==> ev[i].now <= now
  }

  /** Number of updates at times in [from, to]. */
  function Updates(ev: seq<Event>, from: int, to: int): nat {
    if ev == [] then 0 else
    Updates(ev[..|ev| - 1], from, to) + if ev[|ev| - 1].Update? && from <= ev[|ev| - 1].now <= to then 1 else 0
  }

  /** One burst to begin with and one for each update. */
  function Bursts(k: Key, updates: nat): real {
    (k.burst * (updates + 1)) as real
  }

  lemma OneMoreBurst(k: Key, updates: nat)
    ensures Bursts(k, updates + 1) == Bursts(k, updates) + k.burst as real
    ensures k.burst >= 0 ==> k.burst as real <= Bursts(k, updates)
  {
    assert k.burst * (updates + 2) == k.burst * (updates + 1) + k.burst;
    assert k.burst >= 0 ==> k.burst * updates >= 0;
    assert k.burst * (updates + 1) == k.burst * updates + k.burst;
  }

  lemma {:induction false} ForeverWellFormed(k: Key, ev: seq<Event>, now: int)
    requires k.rate >= 0.0 && UsedUntil(k, ev, now)
    ensures k in RunForever(ev) ==> WellFormed(k, RunForever(ev)[k]) && RunForever(ev)[k].at <= now
  {
    if ev != [] {
      var before, last := ev[..|ev| - 1], ev[|ev| - 1];
      ForeverWellFormed(k, before, now);
      if last == Visit(k, last.now) {
        TakeKeepsWellFormed(k, BucketOf(RunForever(before), k, last.now), last.now);
      }
    }
  }

  lemma RefillGrows(k: Key, nanos: nat)
    requires k.rate >= 0.0
    ensures Refill(k, nanos) >= 0.0
  {
    RefillNone(k);
    RefillMonotone(k, 0, nanos);
  }

  lemma ForeverLevelBounds(k: Key, ev: seq<Event>, now: int)
    requires k.rate >= 0.0 && k.burst >= 0 && UsedUntil(k, ev, now)
    ensures 0.0 <= ForeverLevel(RunForever(ev), k, now) <= k.burst as real
  {
    ForeverWellFormed(k, ev, now);
    if k in RunForever(ev) {
      RefillGrows(k, now - RunForever(ev)[k].at);
    }
  }

  lemma {:induction false} NoneAdmittedBefore(k: Key, ev: seq<Event>, from: int, to: int)
    requires UsedUntil(k, ev, from - 1)
    ensures AdmittedForever(k, ev, from, to) == 0
  {
    if ev != [] {
      NoneAdmittedBefore(k, ev[..|ev| - 1], from, to);
    }
  }

  /** Requests admitted since `from` plus tokens left never exceed one burst, one more for each update, and
      the refill since. */
  lemma {:induction false} TokensAreConserved(k: Key, ev: seq<Event>, from: int, to: int, now: int)
    requires k.rate >= 0.0 && k.burst >= 0 && Clocked(ev) && UsedUntil(k, ev, now) && from <= now <= to
    ensures 0.0 <= ForeverLevel(RunForever(ev), k, now)
    ensures AdmittedForever(k, ev, from, to) as real + ForeverLevel(RunForever(ev), k, now)
         <= Bursts(k, Updates(ev, from, to)) + Refill(k, now - from)
    decreases |ev|, 0
  {
    RefillGrows(k, now - from);
    ForeverLevelBounds(k, ev, now);
    OneMoreBurst(k, Updates(ev, from, to));
    if ev != [] {
      var before, last := ev[..|ev| - 1], ev[|ev| - 1];
      if !Concerns(k, last) {
        TokensAreConserved(k, before, from, to, now);
      } else if last.now < from {
        assert UsedUntil(k, ev, from - 1);
        NoneAdmittedBefore(k, ev, from, to);
      } else if last.Update? {
        UpdateConserves(k, before, from, to, last.now, now);
        assert ev == before + [last];
      } else {
        AttemptConserves(k, before, from, to, last.now, now);
        assert ev == before + [last];
      }
    }
  }

  lemma {:induction false} UpdateConserves(k: Key, before: seq<Event>, from: int, to: int, at: int, now: int)
    requires k.rate >= 0.0 && k.burst >= 0 && Clocked(before) && UsedUntil(k, before, at) && from <= at <= now <= to
    ensures var ev := before + [Update(at)];
            AdmittedForever(k, ev, from, to) as real + k.burst as real
            <= Bursts(k, Updates(ev, from, to)) + Refill(k, now - from)
    ensures RunForever(before + [Update(at)]) == map[]
    decreases |before|, 1
  {
    assert (before + [Update(at)])[..|before|] == before;
    TokensAreConserved(k, before, from, to, at);
    OneMoreBurst(k, Updates(before, from, to));
    RefillMonotone(k, at - from, now - from);
  }

  lemma {:induction false} AttemptConserves(k: Key, before: seq<Event>, from: int, to: int, at: int, now: int)
    requires k.rate >= 0.0 && k.burst >= 0 && Clocked(before) && UsedUntil(k, before, at) && from <= at <= now <= to
    ensures AdmittedForever(k, before + [Visit(k, at)], from, to) as real
            + ForeverLevel(RunForever(before + [Visit(k, at)]), k, now)
            <= Bursts(k, Updates(before + [Visit(k, at)], from, to)) + Refill(k, now - from)
    decreases |before|, 1
  {
    var ev := before + [Visit(k, at)];
    assert ev[..|ev| - 1] == before;
    TokensAreConserved(k, before, from, to, at);
    var m := RunForever(before);
    ForeverWellFormed(k, before, at);
    FullLevel(k, at);
    var b := BucketOf(m, k, at);
    LevelAfterTake(k, b, at);
    TakeKeepsWellFormed(k, b, at);
    LevelAdvances(k, Take(k, b, at), at, now);
    RefillAdds(k, at - from, now - at);
  }

  lemma {:induction false} ForeverBound(k: Key, ev: seq<Event>, from: int, to: int)
    requires k.rate >= 0.0 && k.burst >= 0 && Clocked(ev) && from <= to
    ensures AdmittedForever(k, ev, from, to) as real <= Bursts(k, Updates(ev, from, to)) + Refill(k, to - from)
  {
    if UsedUntil(k, ev, to) {
      TokensAreConserved(k, ev, from, to, to);
    } else {
      var i :| 0 <= i < |ev| && Concerns(k, ev[i]) && ev[i].now > to;
      var before, last := ev[..|ev| - 1], ev[|ev| - 1];
      ForeverBound(k, before, from, to);
      assert !last.Purge? ==> to < ev[i].now <= last.now;
      OneMoreBurst(k, Updates(before, from, to));
    }
  }

  lemma {:induction false} SameCount(k: Key, ttl: nat, ev: seq<Event>, from: int, to: int)
    requires k.rate >= 0.0 && RefillsBeforeEviction(k, ttl) && Clocked(ev)
    ensures Admitted(k, ttl, ev, from, to) == AdmittedForever(k, ev, from, to)
  {
    if ev != [] {
      SameCount(k, ttl, ev[..|ev| - 1], from, to);
      if ev[|ev| - 1] == Visit(k, ev[|ev| - 1].now) {
        EvictionIsTransparent(ttl, ev, |ev| - 1);
      }
    }
  }

  /** In any window of length `to - from`, eviction or not, a key gets at most its burst, once more for each
      update in the window, plus what refills in the window. */
  lemma AdmissionBound(k: Key, ttl: nat, ev: seq<Event>, from: int, to: int)
    requires k.rate >= 0.0 && k.burst >= 0 && RefillsBeforeEviction(k, ttl) && Clocked(ev) && from <= to
    ensures Admitted(k, ttl, ev, from, to) as real
         <= Bursts(k, Updates(ev, from, to)) + Earned(k, to - from)
  {
    EarnedIsRefill(k, to - from);
    SameCount(k, ttl, ev, from, to);
    ForeverBound(k, ev, from, to);
  }

  // ---------- The configured default ----------

  const TEN_MINUTES: int := 600_000_000_000

  /** The time in nanoseconds a burst takes to refill. */
  function BurstRefill(k: Key): real
    requires k.rate > 0.0
  {
    k.burst as real / k.rate * NANOS_PER_SECOND
  }

  /** Ten truncated refill times, as int64 arithmetic computes them. Converting a float64 beyond int64 gives
      whatever the platform gives, here `junk`. */
  function TenRefills(k: Key, junk: int): int
    requires k.rate > 0.0
  {
    Int64.Wrap((if Int64.Fits(BurstRefill(k).Floor) then BurstRefill(k).Floor else junk) * 10)
  }

  /** `applyDefaults`: ten minutes, or ten refill times if that is longer. */
  function DefaultIdleTtl(k: Key, junk: int): nat
    requires k.rate > 0.0
  {
    if TenRefills(k, junk) > TEN_MINUTES then TenRefills(k, junk) else TEN_MINUTES
  }

  lemma RefillTimeDecides(k: Key, nanos: nat)
    requires k.rate > 0.0
    ensures k.burst as real <= Refill(k, nanos) <==> BurstRefill(k) <= nanos as real
  {
    var q, y := k.burst as real / k.rate, nanos as real / NANOS_PER_SECOND;
    assert k.rate * q == k.burst as real;
    assert BurstRefill(k) == q * NANOS_PER_SECOND && nanos as real == y * NANOS_PER_SECOND;
    if q <= y {
      MulMonotone(k.rate, q, y);
    } else {
      MulStrict(k.rate, y, q);
    }
  }

  lemma MulStrict(r: real, x: real, y: real)
    requires r > 0.0 && x < y
    ensures r * x < r * y
  {
  }

  /** Ten refill times fit int64, or their int64 product wraps exactly once to a value between 2^62 and 2^63. */
  predicate DefaultSuffices(k: Key)
    requires k.rate > 0.0
  {
    var n := BurstRefill(k).Floor;
    n * 10 <= Int64.MAX || (0x2000_0000_0000_0000 <= n && n * 10 <= 0x1_7fff_ffff_ffff_ffff)
  }

  /** A defaulted idle TTL meets the transparency condition for the global rate exactly when ten
      refill times fit int64, or lie between 1.25 and 1.5 times 2^64 nanoseconds; below 2^64 that is exactly
      when they fit. Past int64 the converted value does not matter. */
  lemma DefaultTtlIsTransparentExactlyWhen(k: Key, junk: int)
    requires k.rate > 0.0 && k.burst > 0 && Int64.Fits(junk)
    ensures DefaultIdleTtl(k, junk) >= 600 * 1_000_000_000
    ensures RefillsBeforeEviction(k, DefaultIdleTtl(k, junk)) <==> DefaultSuffices(k)
    ensures BurstRefill(k).Floor * 10 <= 0xffff_ffff_ffff_ffff ==>
      (RefillsBeforeEviction(k, DefaultIdleTtl(k, junk)) <==> BurstRefill(k).Floor * 10 <= Int64.MAX)
  {
    var x, ttl := BurstRefill(k), DefaultIdleTtl(k, junk);
    TenRefillsCases(k, junk);
    RefillTimeDecides(k, MinGap(ttl));
    GapIsLongEnough(x.Floor, TenRefills(k, junk));
  }

  /** How `n` compares with the shortest eviction gap of the TTL computed from it. */
  lemma GapIsLongEnough(n: nat, product: int)
    requires Int64.Fits(product) && (n <= Int64.MAX ==> product == Int64.Wrap(n * 10))
    ensures var gap := MinGap(if product > TEN_MINUTES then product else TEN_MINUTES);
            if n * 10 <= Int64.MAX || (0x2000_0000_0000_0000 <= n && n * 10 <= 0x1_7fff_ffff_ffff_ffff)
            then n + 1 <= gap else gap < n
  {
  }

  lemma TenRefillsCases(k: Key, junk: int)
    requires k.rate > 0.0 && k.burst > 0 && Int64.Fits(junk)
    ensures Int64.Fits(TenRefills(k, junk)) && BurstRefill(k) > 0.0
    ensures var n := BurstRefill(k).Floor;
            && (n * 10 <= Int64.MAX ==> TenRefills(k, junk) == n * 10)
            && (Int64.MAX < n * 10 <= 0xffff_ffff_ffff_ffff ==> TenRefills(k, junk) < 0)
            && (n <= Int64.MAX ==> TenRefills(k, junk) == Int64.Wrap(n * 10))
  {
    DivPositive(k.burst as real, k.rate);
    var n := BurstRefill(k).Floor;
    assert 0 <= n;
    if Int64.MAX < n * 10 <= 0xffff_ffff_ffff_ffff {
      assert TenRefills(k, junk) == n * 10 - 0x1_0000_0000_0000_0000;
    }
  }

  lemma DivPositive(a: real, b: real)
    requires a > 0.0 && b > 0.0
    ensures a / b > 0.0
  {
  }

  /** The condition can fail: one token per 10^9 seconds wraps around to a ten-minute TTL. */
  lemma DefaultTtlCanOverflow(junk: int)
    requires Int64.Fits(junk)
    ensures var k := Key("", 0.000000001, 1);
            DefaultIdleTtl(k, junk) == TEN_MINUTES && !RefillsBeforeEviction(k, TEN_MINUTES)
  {
    var k := Key("", 0.000000001, 1);
    assert 1.0 / 0.000000001 == 1000000000.0;
    assert BurstRefill(k).Floor == 1_000_000_000_000_000_000;
  }

  // ---------- One janitor pass among running requests ----------

  predicate Updated(ev: seq<Event>) {
    exists i :: 0 <= i < |ev| && ev[i].Update?
  }

  /** Was `k` requested since the last update? */
  predicate Visited(k: Key, ev: seq<Event>) {
    exists i :: 0 <= i < |ev| && ev[i] == Visit(k, ev[i].now) && !Updated(ev[i..])
  }

  predicate Purged(k: Key, ev: seq<Event>) {
    exists i :: 0 <= i < |ev| && ev[i].Purge? && k in ev[i].keys
  }

  /** Everything between the scan at `now` and the end of the pass: requests at or after `now`, and
      batches that all carry the scan's `now`. */
  predicate WithinPass(ev: seq<Event>, now: int) {
    forall i | 0 <= i < |ev| :: if ev[i].Purge? then ev[i].now == now else now <= ev[i].now
  }

  predicate Expired(t: Table, k: Key, ttl: nat, now: int) {
    k in t && Idle(t[k], ttl, now)
  }

  /** After part of a pass that led from `t` to `u`: whether `k` is present, and why. */
  predicate Explained(t: Table, u: Table, ttl: nat, ev: seq<Event>, now: int, k: Key) {
    && (k in u <==> Visited(k, ev) || (k in t && !Updated(ev) && !(Expired(t, k, ttl, now) && Purged(k, ev))))
    && (k in u && Visited(k, ev) ==> !Idle(u[k], ttl, now))
    && (k in u && !Visited(k, ev) ==> u[k] == t[k])
  }

  lemma ExplainedStep(t: Table, u: Table, ttl: nat, before: seq<Event>, last: Event, now: int, k: Key)
    requires Explained(t, u, ttl, before, now, k)
    requires if last.Purge? then last.now == now else now <= last.now
    ensures Explained(t, Apply(u, ttl, last), ttl, before + [last], now, k)
  {
    LastEventMatters(k, before, last);
  }

  lemma {:induction false} DuringPass(t: Table, ttl: nat, ev: seq<Event>, now: int, k: Key)
    requires WithinPass(ev, now)
    ensures Explained(t, Run(t, ttl, ev), ttl, ev, now, k)
  {
    if ev != [] {
      var before, last := ev[..|ev| - 1], ev[|ev| - 1];
      DuringPass(t, ttl, before, now, k);
      ExplainedStep(t, Run(t, ttl, before), ttl, before, last, now, k);
      assert ev == before + [last];
    }
  }

  lemma LastEventMatters(k: Key, before: seq<Event>, last: Event)
    ensures Updated(before + [last]) <==> Updated(before) || last.Update?
    ensures Visited(k, before + [last]) <==> !last.Update? && (Visited(k, before) || last == Visit(k, last.now))
    ensures Purged(k, before + [last]) <==> Purged(k, before) || (last.Purge? && k in last.keys)
  {
    var ev := before + [last];
    assert ev[|before|] == last;
    assert forall i | 0 <= i < |before| :: ev[i] == before[i];
    UpdatedStep(before, last);
    forall i | 0 <= i <= |before| ensures Updated(ev[i..]) <==> Updated(before[i..]) || last.Update? {
      assert ev[i..] == before[i..] + [last];
      UpdatedStep(before[i..], last);
    }
  }

  lemma UpdatedStep(before: seq<Event>, last: Event)
    ensures Updated(before + [last]) <==> Updated(before) || last.Update?
  {
    var ev := before + [last];
    assert ev[|before|] == last;
    assert forall i | 0 <= i < |before| :: ev[i] == before[i];
  }

  const BATCH: nat := 256

  /** The batches of a pass, in order. */
  function Batches(pending: seq<Key>): (bs: seq<seq<Key>>)
    ensures forall b | b in bs :: 0 < |b| <= BATCH
  {
    if pending == [] then [] else
    var n := if |pending| < BATCH then |pending| else BATCH;
    [pending[..n]] + Batches(pending[n..])
  }

  function Flatten(bs: seq<seq<Key>>): seq<Key> {
    if bs == [] then [] else bs[0] + Flatten(bs[1..])
  }

  /** The batches visit each scanned key once, in scan order. */
  lemma {:induction false} BatchesCover(pending: seq<Key>)
    ensures Flatten(Batches(pending)) == pending
    ensures forall k | k in pending :: exists b :: b in Batches(pending) && k in b
  {
    if pending != [] {
      var n := if |pending| < BATCH then |pending| else BATCH;
      BatchesCover(pending[n..]);
      assert pending == pending[..n] + pending[n..];
      forall k | k in pending ensures exists b :: b in Batches(pending) && k in b {
        if k in pending[..n] {
          assert Batches(pending)[0] == pending[..n];
        } else {
          assert k in pending[n..];
          var b :| b in Batches(pending[n..]) && k in b;
          assert b in Batches(pending);
        }
      }
    }
  }

  /** The write-locked batches occurring in `ev`, in order. */
  function PurgesOf(ev: seq<Event>): seq<seq<Key>> {
    if ev == [] then [] else
    PurgesOf(ev[..|ev| - 1]) + if ev[|ev| - 1].Purge? then [ev[|ev| - 1].keys] else []
  }

  lemma {:induction false} PurgesOccur(ev: seq<Event>, b: seq<Key>)
    requires b in PurgesOf(ev)
    ensures exists i :: 0 <= i < |ev| && ev[i].Purge? && ev[i].keys == b
  {
    var before, last := ev[..|ev| - 1], ev[|ev| - 1];
    if b in PurgesOf(before) {
      PurgesOccur(before, b);
      var i :| 0 <= i < |before| && before[i].Purge? && before[i].keys == b;
      assert ev[i].Purge? && ev[i].keys == b;
    } else {
      assert last.Purge? && last.keys == b;
    }
  }

  /** If event `i` of the pass removes `k`, it is an update, or a batch and `k` is idle. */
  predicate DeletesOnlyIdle(t: Table, ttl: nat, ev: seq<Event>, now: int, k: Key, i: nat)
    requires i < |ev|
  {
    k in Run(t, ttl, ev[..i]) && k !in Run(t, ttl, ev[..i + 1]) ==>
      ev[i].Update? || (ev[i].Purge? && Idle(Run(t, ttl, ev[..i])[k], ttl, now))
  }

  /** A complete pass interleaved with any requests and updates: a key is in the table afterwards exactly when
      it was requested during the pass, since the last update if there was one, or there was none and it was
      not idle at the scan. So nothing in use is lost and every key that stayed idle is gone. Survivors without requests are untouched, and whatever a batch deletes has
      been idle past the TTL since before the scan, hence also when it is deleted. */
  lemma PassRemovesExactlyIdleKeys(t: Table, ttl: nat, pending: seq<Key>, ev: seq<Event>, now: int, k: Key)
    requires forall x :: x in pending <==> Expired(t, x, ttl, now)
    requires WithinPass(ev, now) && PurgesOf(ev) == Batches(pending)
    ensures var u := Run(t, ttl, ev);
            && (k in u <==> Visited(k, ev) || (k in t && !Updated(ev) && !Idle(t[k], ttl, now)))
            && (k in u && !Visited(k, ev) ==> u[k] == t[k])
    ensures forall i | 0 <= i < |ev| :: DeletesOnlyIdle(t, ttl, ev, now, k, i)
  {
    forall i | 0 <= i < |ev| ensures DeletesOnlyIdle(t, ttl, ev, now, k, i) {
      assert ev[..i + 1][..i] == ev[..i];
    }
    DuringPass(t, ttl, ev, now, k);
    if k in pending {
      BatchesCover(pending);
      var b :| b in Batches(pending) && k in b;
      PurgesOccur(ev, b);
    }
  }
}
