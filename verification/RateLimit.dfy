/** The token-bucket limiter of internal/middleware/ratelimit.go. Instants and durations are whole
    nanoseconds, tokens and rates are reals. */
module RateLimit {

  datatype Config = Config(rate: real, burst: int, idleTTL: int)

  /** What configuration loading and the janitor's ticker demand. */
  predicate ValidConfig(c: Config) {
    c.rate > 0.0 && c.burst >= 1 && c.idleTTL > 0
  }

  datatype Bucket = Bucket(tokens: real, lastSeen: int)

  type Buckets = map<string, Bucket>

  datatype Answer = Admitted | Rejected(retryAfter: int)

  const SECOND: int := 1_000_000_000

  function Seconds(d: int): real {
    d as real / SECOND as real
  }

  function Refill(c: Config, d: int): real {
    Seconds(d) * c.rate
  }

  function Min(a: real, b: real): real {
    if a < b then a else b
  }

  /** The tokens of a bucket brought up to date. A clock that stepped back refills nothing. */
  function Refilled(c: Config, b: Bucket, now: int): real {
    if now > b.lastSeen then Min(c.burst as real, b.tokens + Refill(c, now - b.lastSeen)) else b.tokens
  }

  /** The exact wait for one whole token, in nanoseconds; the answer truncates it. */
  function ExactWait(c: Config, tokens: real): real
    requires c.rate > 0.0
  {
    (1.0 - tokens) / c.rate * SECOND as real
  }

  function AllowAnswer(c: Config, bs: Buckets, key: string, now: int): Answer
    requires c.rate > 0.0
  {
    if key !in bs then Admitted
    else
      var tokens := Refilled(c, bs[key], now);
      if tokens < 1.0 then Rejected(ExactWait(c, tokens).Floor) else Admitted
  }

  function AllowBuckets(c: Config, bs: Buckets, key: string, now: int): Buckets {
    if key !in bs then bs[key := Bucket(c.burst as real - 1.0, now)]
    else
      var tokens := Refilled(c, bs[key], now);
      bs[key := Bucket(if tokens < 1.0 then tokens else tokens - 1.0, now)]
  }

  predicate Idle(c: Config, b: Bucket, now: int) {
    b.lastSeen < now - c.idleTTL
  }

  function Evicted(c: Config, bs: Buckets, now: int): Buckets {
    map k | k in bs && !Idle(c, bs[k], now) :: bs[k]
  }

  class RateLimiter {
    const config: Config
    var buckets: Buckets

    constructor (config: Config)
      requires ValidConfig(config)
      ensures this.config == config && buckets == map[]
    {
      this.config := config;
      buckets := map[];
    }

    method Allow(key: string, now: int) returns (allowed: bool, retryAfter: int)
      requires ValidConfig(config)
      modifies this
      ensures buckets == AllowBuckets(config, old(buckets), key, now)
      ensures AllowAnswer(config, old(buckets), key, now) == if allowed then Admitted else Rejected(retryAfter)
      ensures allowed ==> retryAfter == 0
      ensures forall k | k != key :: k in buckets <==> k in old(buckets)
      ensures forall k | k != key && k in buckets :: buckets[k] == old(buckets)[k]
    {
      if key !in buckets {
        buckets := buckets[key := Bucket(config.burst as real - 1.0, now)];
        return true, 0;
      }
      ghost var level := Refilled(config, buckets[key], now);
      var tokens := buckets[key].tokens;
      var elapsed := Seconds(now - buckets[key].lastSeen);
      if elapsed > 0.0 {
        tokens := Min(config.burst as real, tokens + elapsed * config.rate);
      }
      assert tokens == level;
      buckets := buckets[key := Bucket(tokens, now)];
      if tokens < 1.0 {
        var deficit := 1.0 - tokens;
        return false, (deficit / config.rate * SECOND as real).Floor;
      }
      buckets := buckets[key := Bucket(tokens - 1.0, now)];
      return true, 0;
    }

    method EvictIdle(now: int)
      modifies this
      ensures buckets == Evicted(config, old(buckets), now)
      ensures forall k :: k in buckets <==> k in old(buckets) && old(buckets)[k].lastSeen >= now - config.idleTTL
      ensures forall k | k in buckets :: buckets[k] == old(buckets)[k]
    {
      var cutoff := now - config.idleTTL;
      var unseen := buckets.Keys;
      while unseen != {}
        invariant unseen <= buckets.Keys <= old(buckets).Keys
        invariant forall k | k in old(buckets) && k !in unseen ::
          (k in buckets <==> !Idle(config, old(buckets)[k], now))
        invariant forall k | k in buckets :: buckets[k] == old(buckets)[k]
        decreases unseen
      {
        var k :| k in unseen;
        unseen := unseen - {k};
        if buckets[k].lastSeen < cutoff {
          buckets := buckets - {k};
        }
      }
    }
  }

  // ---- Refills compose ----

  lemma RefillAdds(c: Config, a: int, b: int)
    ensures Refill(c, a) + Refill(c, b) == Refill(c, a + b)
  {
    assert Seconds(a) + Seconds(b) == Seconds(a + b);
    assert Seconds(a) * c.rate + Seconds(b) * c.rate == (Seconds(a) + Seconds(b)) * c.rate;
  }

  lemma RefillMonotone(c: Config, a: int, b: int)
    requires c.rate > 0.0
    ensures a < b ==> Refill(c, a) < Refill(c, b)
    ensures Refill(c, 0) == 0.0
  {
    if a < b {
      var x, y, r := Seconds(a), Seconds(b), c.rate;
      assert x < y;
      assert (y - x) * r > 0.0;
      assert y * r - x * r == (y - x) * r;
    }
  }

  // ---- Runs of requests over any number of keys ----

  datatype Request = Request(key: string, now: int)

  function After(c: Config, reqs: seq<Request>, n: nat): Buckets
    requires n <= |reqs|
  {
    if n == 0 then map[] else AllowBuckets(c, After(c, reqs, n - 1), reqs[n - 1].key, reqs[n - 1].now)
  }

  predicate Admits(c: Config, reqs: seq<Request>, m: nat)
    requires c.rate > 0.0 && m < |reqs|
  {
    AllowAnswer(c, After(c, reqs, m), reqs[m].key, reqs[m].now).Admitted?
  }

  /** How many of the requests j..m-1 of the key were admitted. */
  function AdmittedIn(c: Config, reqs: seq<Request>, key: string, j: nat, m: nat): nat
    requires c.rate > 0.0 && m <= |reqs|
  {
    if m <= j then 0
    else AdmittedIn(c, reqs, key, j, m - 1) + (if reqs[m - 1].key == key && Admits(c, reqs, m - 1) then 1 else 0)
  }

  predicate KeyClockMonotone(reqs: seq<Request>, key: string) {
    forall i, j | 0 <= i < j < |reqs| && reqs[i].key == key && reqs[j].key == key :: reqs[i].now <= reqs[j].now
  }

  /** The window opening at request j leaves room for n admissions up to the instant t. */
  function Room(c: Config, reqs: seq<Request>, key: string, j: nat, m: nat, t: int): real
    requires c.rate > 0.0 && j < |reqs| && m <= |reqs|
  {
    c.burst as real + Refill(c, t - reqs[j].now) - AdmittedIn(c, reqs, key, j, m) as real
  }

  /** The tokens in a bucket are the tightest window's room. */
  ghost predicate LevelIsTightestWindow(c: Config, reqs: seq<Request>, key: string, m: nat, level: real, t: int)
    requires c.rate > 0.0 && m <= |reqs|
  {
    && (forall j | 0 <= j < m && reqs[j].key == key :: reqs[j].now <= t && level <= Room(c, reqs, key, j, m, t))
    && (exists j :: 0 <= j < m && reqs[j].key == key && level == Room(c, reqs, key, j, m, t))
  }

  lemma {:induction false} TokensBounded(c: Config, reqs: seq<Request>, key: string, n: nat)
    requires ValidConfig(c) && n <= |reqs|
    ensures key in After(c, reqs, n) <==> exists j :: 0 <= j < n && reqs[j].key == key
    ensures key in After(c, reqs, n) ==> 0.0 <= After(c, reqs, n)[key].tokens <= c.burst as real
  {
    if n > 0 {
      TokensBounded(c, reqs, key, n - 1);
      var bs, r := After(c, reqs, n - 1), reqs[n - 1];
      if r.key == key {
        if key in bs {
          RefillMonotone(c, 0, r.now - bs[key].lastSeen);
        }
      } else {
        assert key in After(c, reqs, n) <==> key in bs;
      }
    }
  }

  lemma RoomMoves(c: Config, reqs: seq<Request>, key: string, j: nat, m: nat, t: int, t': int)
    requires c.rate > 0.0 && j < |reqs| && m <= |reqs|
    ensures Room(c, reqs, key, j, m, t') == Room(c, reqs, key, j, m, t) + Refill(c, t' - t)
  {
    RefillAdds(c, t - reqs[j].now, t' - t);
  }

  lemma RoomOfNewWindow(c: Config, reqs: seq<Request>, m: nat)
    requires ValidConfig(c) && m < |reqs|
    ensures Room(c, reqs, reqs[m].key, m, m, reqs[m].now) == c.burst as real
    ensures Admits(c, reqs, m) ==> Room(c, reqs, reqs[m].key, m, m + 1, reqs[m].now) == c.burst as real - 1.0
  {
    RefillMonotone(c, 0, 0);
    assert AdmittedIn(c, reqs, reqs[m].key, m, m) == 0;
  }

  /** Moving the clock on by a refill and capping at the burst keeps the level the tightest window,
      now counting the window that opens with the new request. */
  lemma LevelAtRequest(c: Config, reqs: seq<Request>, m: nat)
    requires ValidConfig(c) && m < |reqs| && KeyClockMonotone(reqs, reqs[m].key)
    requires reqs[m].key in After(c, reqs, m)
    requires var b := After(c, reqs, m)[reqs[m].key];
      LevelIsTightestWindow(c, reqs, reqs[m].key, m, b.tokens, b.lastSeen)
    ensures LevelOpens(c, reqs, m, Refilled(c, After(c, reqs, m)[reqs[m].key], reqs[m].now))
  {
    var key, t := reqs[m].key, reqs[m].now;
    var b := After(c, reqs, m)[key];
    TokensBounded(c, reqs, key, m);
    LastSeenIsARequest(c, reqs, key, m);
    LevelAfterRefill(c, reqs, m, b);
  }

  /** LevelIsTightestWindow at the instant of request m, its own window included. */
  ghost predicate LevelOpens(c: Config, reqs: seq<Request>, m: nat, level: real)
    requires c.rate > 0.0 && m < |reqs|
  {
    && (forall j | 0 <= j <= m && reqs[j].key == reqs[m].key :: level <= Room(c, reqs, reqs[m].key, j, m, reqs[m].now))
    && (exists j :: 0 <= j <= m && reqs[j].key == reqs[m].key && level == Room(c, reqs, reqs[m].key, j, m, reqs[m].now))
  }

  lemma LevelAfterRefill(c: Config, reqs: seq<Request>, m: nat, b: Bucket)
    requires ValidConfig(c) && m < |reqs| && b.tokens <= c.burst as real && b.lastSeen <= reqs[m].now
    requires LevelIsTightestWindow(c, reqs, reqs[m].key, m, b.tokens, b.lastSeen)
    ensures LevelOpens(c, reqs, m, Refilled(c, b, reqs[m].now))
  {
    var key, t := reqs[m].key, reqs[m].now;
    RoomOfNewWindow(c, reqs, m);
    RefilledIsCapped(c, b, t);
    var level := Refilled(c, b, t);
    forall j | 0 <= j < m && reqs[j].key == key ensures level <= Room(c, reqs, key, j, m, t) {
      RoomAtRequest(c, reqs, key, j, m, b, t);
    }
    var tight :| 0 <= tight < m && reqs[tight].key == key && b.tokens == Room(c, reqs, key, tight, m, b.lastSeen);
    RoomAtRequest(c, reqs, key, tight, m, b, t);
    var tightest := if level < c.burst as real then tight else m;
    assert level == Room(c, reqs, key, tightest, m, t);
  }

  lemma RoomAtRequest(c: Config, reqs: seq<Request>, key: string, j: nat, m: nat, b: Bucket, t: int)
    requires ValidConfig(c) && j < |reqs| && m <= |reqs| && b.tokens <= c.burst as real && b.lastSeen <= t
    requires b.tokens <= Room(c, reqs, key, j, m, b.lastSeen)
    ensures Refilled(c, b, t) <= Room(c, reqs, key, j, m, t)
    ensures b.tokens == Room(c, reqs, key, j, m, b.lastSeen) && Refilled(c, b, t) < c.burst as real ==>
      Refilled(c, b, t) == Room(c, reqs, key, j, m, t)
  {
    RefilledIsCapped(c, b, t);
    RoomMoves(c, reqs, key, j, m, b.lastSeen, t);
  }

  lemma RefilledIsCapped(c: Config, b: Bucket, t: int)
    requires ValidConfig(c) && b.tokens <= c.burst as real && b.lastSeen <= t
    ensures Refilled(c, b, t) == Min(c.burst as real, b.tokens + Refill(c, t - b.lastSeen)) <= c.burst as real
  {
    RefillMonotone(c, 0, 0);
  }

  lemma {:induction false} LastSeenIsARequest(c: Config, reqs: seq<Request>, key: string, n: nat)
    requires n <= |reqs| && key in After(c, reqs, n)
    ensures exists j :: 0 <= j < n && reqs[j].key == key && reqs[j].now == After(c, reqs, n)[key].lastSeen
  {
    if reqs[n - 1].key != key {
      LastSeenIsARequest(c, reqs, key, n - 1);
    }
  }

  /** Counting request n-1 itself: the room of every window shrinks by one exactly if it was admitted. */
  lemma RoomCountsRequest(c: Config, reqs: seq<Request>, key: string, j: nat, n: nat, t: int)
    requires c.rate > 0.0 && 0 < n <= |reqs| && j < n
    ensures Room(c, reqs, key, j, n, t) == Room(c, reqs, key, j, n - 1, t)
      - (if reqs[n - 1].key == key && Admits(c, reqs, n - 1) then 1.0 else 0.0)
  {
  }

  lemma LevelAfterAnswer(c: Config, reqs: seq<Request>, n: nat, level: real, tokens: real)
    requires ValidConfig(c) && 0 < n <= |reqs| && KeyClockMonotone(reqs, reqs[n - 1].key)
    requires LevelOpens(c, reqs, n - 1, level)
    requires tokens == level - (if Admits(c, reqs, n - 1) then 1.0 else 0.0)
    ensures LevelIsTightestWindow(c, reqs, reqs[n - 1].key, n, tokens, reqs[n - 1].now)
  {
    var key, t := reqs[n - 1].key, reqs[n - 1].now;
    forall j | 0 <= j < n && reqs[j].key == key ensures reqs[j].now <= t && tokens <= Room(c, reqs, key, j, n, t) {
      RoomCountsRequest(c, reqs, key, j, n, t);
    }
    var tight :| 0 <= tight <= n - 1 && reqs[tight].key == key && level == Room(c, reqs, key, tight, n - 1, t);
    RoomCountsRequest(c, reqs, key, tight, n, t);
  }

  lemma LevelOfOtherKey(c: Config, reqs: seq<Request>, key: string, n: nat, b: Bucket)
    requires c.rate > 0.0 && 0 < n <= |reqs| && reqs[n - 1].key != key
    requires LevelIsTightestWindow(c, reqs, key, n - 1, b.tokens, b.lastSeen)
    ensures LevelIsTightestWindow(c, reqs, key, n, b.tokens, b.lastSeen)
  {
    forall j | 0 <= j < n - 1 ensures Room(c, reqs, key, j, n, b.lastSeen) == Room(c, reqs, key, j, n - 1, b.lastSeen) {
      RoomCountsRequest(c, reqs, key, j, n, b.lastSeen);
    }
    var tight :| 0 <= tight < n - 1 && reqs[tight].key == key
      && b.tokens == Room(c, reqs, key, tight, n - 1, b.lastSeen);
    assert b.tokens == Room(c, reqs, key, tight, n, b.lastSeen);
  }

  /** The first request of a key finds a full bucket. */
  lemma FirstLevelOpens(c: Config, reqs: seq<Request>, m: nat)
    requires ValidConfig(c) && m < |reqs| && reqs[m].key !in After(c, reqs, m)
    ensures LevelOpens(c, reqs, m, c.burst as real)
  {
    TokensBounded(c, reqs, reqs[m].key, m);
    RoomOfNewWindow(c, reqs, m);
    assert c.burst as real == Room(c, reqs, reqs[m].key, m, m, reqs[m].now);
  }

  lemma {:induction false} LevelThroughout(c: Config, reqs: seq<Request>, key: string, n: nat)
    requires ValidConfig(c) && n <= |reqs| && KeyClockMonotone(reqs, key)
    ensures key in After(c, reqs, n) ==>
      var b := After(c, reqs, n)[key]; LevelIsTightestWindow(c, reqs, key, n, b.tokens, b.lastSeen)
  {
    if n > 0 {
      LevelThroughout(c, reqs, key, n - 1);
      var bs, t := After(c, reqs, n - 1), reqs[n - 1].now;
      if reqs[n - 1].key == key && key in bs {
        LevelAtRequest(c, reqs, n - 1);
        LevelAfterAnswer(c, reqs, n, Refilled(c, bs[key], t), After(c, reqs, n)[key].tokens);
      } else if reqs[n - 1].key == key {
        FirstLevelOpens(c, reqs, n - 1);
        LevelAfterAnswer(c, reqs, n, c.burst as real, After(c, reqs, n)[key].tokens);
      } else if key in bs {
        LevelOfOtherKey(c, reqs, key, n, bs[key]);
      }
    }
  }

  /** The lazy bucket is the greedy admitter for the bound over all windows: a request is admitted exactly when,
      for every earlier request of its key, the admissions from there on counting this one stay within
      burst plus the rate times the time since. */
  lemma GreedyOverAllWindows(c: Config, reqs: seq<Request>, m: nat)
    requires ValidConfig(c) && m < |reqs| && KeyClockMonotone(reqs, reqs[m].key)
    ensures Admits(c, reqs, m) <==>
      forall j | 0 <= j <= m && reqs[j].key == reqs[m].key ::
        AdmittedIn(c, reqs, reqs[m].key, j, m) as real + 1.0 <= c.burst as real + Refill(c, reqs[m].now - reqs[j].now)
  {
    var key, t := reqs[m].key, reqs[m].now;
    AdmitsIffRoomEverywhere(c, reqs, m);
    forall j | 0 <= j <= m {
      RoomForOneIff(c, reqs, key, j, m, t);
    }
  }

  lemma RoomForOneIff(c: Config, reqs: seq<Request>, key: string, j: nat, m: nat, t: int)
    requires c.rate > 0.0 && j < |reqs| && m <= |reqs|
    ensures RoomForOne(c, reqs, key, j, m, t)
      <==> AdmittedIn(c, reqs, key, j, m) as real + 1.0 <= c.burst as real + Refill(c, t - reqs[j].now)
  {
  }

  predicate RoomForOne(c: Config, reqs: seq<Request>, key: string, j: nat, m: nat, t: int)
    requires c.rate > 0.0 && j < |reqs| && m <= |reqs|
  {
    Room(c, reqs, key, j, m, t) >= 1.0
  }

  lemma AdmitsIffRoomEverywhere(c: Config, reqs: seq<Request>, m: nat)
    requires ValidConfig(c) && m < |reqs| && KeyClockMonotone(reqs, reqs[m].key)
    ensures Admits(c, reqs, m) <==>
      forall j | 0 <= j <= m && reqs[j].key == reqs[m].key :: RoomForOne(c, reqs, reqs[m].key, j, m, reqs[m].now)
  {
    var key, t, bs := reqs[m].key, reqs[m].now, After(c, reqs, m);
    TokensBounded(c, reqs, key, m);
    if key in bs {
      LevelThroughout(c, reqs, key, m);
      LevelAtRequest(c, reqs, m);
      var level := Refilled(c, bs[key], t);
      assert Admits(c, reqs, m) <==> level >= 1.0;
      var tight :| 0 <= tight <= m && reqs[tight].key == key && level == Room(c, reqs, key, tight, m, t);
      assert RoomForOne(c, reqs, key, tight, m, t) <==> level >= 1.0;
    } else {
      RoomOfNewWindow(c, reqs, m);
    }
  }

  // ---- A clock that may step back ----

  function LatestReading(reqs: seq<Request>, key: string, n: nat, default: int): int
    requires n <= |reqs|
  {
    if n == 0 then default
    else if reqs[n - 1].key == key then reqs[n - 1].now
    else LatestReading(reqs, key, n - 1, default)
  }

  /** The sum of the forward moves between consecutive readings taken for the key. */
  function ForwardMoves(reqs: seq<Request>, key: string, n: nat): nat
    requires n <= |reqs|
  {
    if n == 0 then 0
    else
      var t := reqs[n - 1].now;
      var moved := t - LatestReading(reqs, key, n - 1, t);
      ForwardMoves(reqs, key, n - 1) + (if reqs[n - 1].key == key && moved > 0 then moved else 0)
  }

  lemma {:induction false} LastSeenIsLatest(c: Config, reqs: seq<Request>, key: string, n: nat, default: int)
    requires n <= |reqs|
    ensures key in After(c, reqs, n) ==> After(c, reqs, n)[key].lastSeen == LatestReading(reqs, key, n, default)
    ensures key !in After(c, reqs, n) ==> LatestReading(reqs, key, n, default) == default
  {
    if n > 0 {
      LastSeenIsLatest(c, reqs, key, n - 1, default);
    }
  }

  /** Whatever the clock does, tokens are conserved: what a key was admitted plus what its bucket still holds
      never exceeds the burst plus the refill for the forward moves. */
  lemma {:induction false} TokensConserved(c: Config, reqs: seq<Request>, key: string, n: nat)
    requires ValidConfig(c) && n <= |reqs|
    ensures key !in After(c, reqs, n) ==> AdmittedIn(c, reqs, key, 0, n) == 0 && ForwardMoves(reqs, key, n) == 0
    ensures key in After(c, reqs, n) ==>
      AdmittedIn(c, reqs, key, 0, n) as real + After(c, reqs, n)[key].tokens
        <= c.burst as real + Refill(c, ForwardMoves(reqs, key, n))
  {
    RefillMonotone(c, 0, 0);
    if n > 0 {
      TokensConserved(c, reqs, key, n - 1);
      var t := reqs[n - 1].now;
      LastSeenIsLatest(c, reqs, key, n - 1, t);
      RefillAdds(c, ForwardMoves(reqs, key, n - 1), t - LatestReading(reqs, key, n - 1, t));
    }
  }

  lemma AdmissionsBoundedUnderAnyClock(c: Config, reqs: seq<Request>, key: string, n: nat)
    requires ValidConfig(c) && n <= |reqs|
    ensures AdmittedIn(c, reqs, key, 0, n) as real <= c.burst as real + Refill(c, ForwardMoves(reqs, key, n))
    ensures key in After(c, reqs, n) ==> 0.0 <= After(c, reqs, n)[key].tokens <= c.burst as real
  {
    TokensConserved(c, reqs, key, n);
    TokensBounded(c, reqs, key, n);
    RefillMonotone(c, 0, ForwardMoves(reqs, key, n));
  }

  // ---- Retrying ----

  /** Requests m+1..i-1 of the key of request m were all rejected. */
  predicate OnlyRejectedBetween(c: Config, reqs: seq<Request>, m: nat, i: nat)
    requires c.rate > 0.0 && m < i <= |reqs|
  {
    forall j | m < j < i && reqs[j].key == reqs[m].key :: !Admits(c, reqs, j)
  }

  function TokensAt(c: Config, reqs: seq<Request>, m: nat): real
    requires m < |reqs| && reqs[m].key in After(c, reqs, m)
  {
    Refilled(c, After(c, reqs, m)[reqs[m].key], reqs[m].now)
  }

  lemma RefillReaches(c: Config, deficit: real, d: int)
    requires c.rate > 0.0
    ensures Refill(c, d) >= deficit <==> d as real >= deficit / c.rate * SECOND as real
  {
    var wait := deficit / c.rate;
    assert wait * c.rate == deficit;
    var s := Seconds(d);
    assert s * SECOND as real == d as real;
    if s >= wait {
      assert (s - wait) * c.rate >= 0.0;
      assert s * c.rate - wait * c.rate == (s - wait) * c.rate;
    } else {
      assert (wait - s) * c.rate > 0.0;
      assert wait * c.rate - s * c.rate == (wait - s) * c.rate;
    }
  }

  /** Rejected probes leave no trace but the clock: their refills compose. */
  lemma {:induction false} ProbesCompose(c: Config, reqs: seq<Request>, m: nat, i: nat)
    requires ValidConfig(c) && m < i <= |reqs| && KeyClockMonotone(reqs, reqs[m].key)
    requires !Admits(c, reqs, m) && OnlyRejectedBetween(c, reqs, m, i)
    ensures reqs[m].key in After(c, reqs, m) && reqs[m].key in After(c, reqs, i)
    ensures var b := After(c, reqs, i)[reqs[m].key];
      && b.tokens == TokensAt(c, reqs, m) + Refill(c, b.lastSeen - reqs[m].now)
      && b.tokens < 1.0 && reqs[m].now <= b.lastSeen
      && (exists j :: m <= j < i && reqs[j].key == reqs[m].key && reqs[j].now == b.lastSeen)
    decreases i
  {
    var key := reqs[m].key;
    RefillMonotone(c, 0, 0);
    if i == m + 1 {
      assert After(c, reqs, i)[key].lastSeen == reqs[m].now;
    } else {
      ProbesCompose(c, reqs, m, i - 1);
      if reqs[i - 1].key == key {
        var b, t := After(c, reqs, i - 1)[key], reqs[i - 1].now;
        RefillAdds(c, b.lastSeen - reqs[m].now, t - b.lastSeen);
        assert After(c, reqs, i)[key] == Bucket(Refilled(c, b, t), t);
      }
    }
  }

  /** A rejected caller is rejected again exactly until the exact wait has passed, however often it asks. */
  lemma AdmittedOnceExactWaitPassed(c: Config, reqs: seq<Request>, m: nat, i: nat)
    requires ValidConfig(c) && m < i < |reqs| && reqs[i].key == reqs[m].key && KeyClockMonotone(reqs, reqs[m].key)
    requires !Admits(c, reqs, m) && OnlyRejectedBetween(c, reqs, m, i)
    ensures reqs[m].key in After(c, reqs, m)
    ensures Admits(c, reqs, i) <==> (reqs[i].now - reqs[m].now) as real >= ExactWait(c, TokensAt(c, reqs, m))
  {
    ProbesCompose(c, reqs, m, i);
    var b := After(c, reqs, i)[reqs[m].key];
    var tokens, d := TokensAt(c, reqs, m), reqs[i].now - reqs[m].now;
    RefillAdds(c, b.lastSeen - reqs[m].now, reqs[i].now - b.lastSeen);
    RefillReaches(c, 1.0 - tokens, d);
    RefillMonotone(c, 0, 0);
    assert Refilled(c, b, reqs[i].now) == Min(c.burst as real, tokens + Refill(c, d));
  }

  /** The answer's retryAfter: too early before it, and soon enough one nanosecond after it. */
  lemma RetryAfterIsTight(c: Config, reqs: seq<Request>, m: nat, i: nat)
    requires ValidConfig(c) && m < i < |reqs| && reqs[i].key == reqs[m].key && KeyClockMonotone(reqs, reqs[m].key)
    requires !Admits(c, reqs, m) && OnlyRejectedBetween(c, reqs, m, i)
    ensures var retryAfter := AllowAnswer(c, After(c, reqs, m), reqs[m].key, reqs[m].now).retryAfter;
      && retryAfter >= 0
      && (reqs[i].now < reqs[m].now + retryAfter ==> !Admits(c, reqs, i))
      && (reqs[i].now >= reqs[m].now + retryAfter + 1 ==> Admits(c, reqs, i))
  {
    AdmittedOnceExactWaitPassed(c, reqs, m, i);
    RefillReaches(c, 1.0 - TokensAt(c, reqs, m), 0);
    RefillMonotone(c, 0, 0);
  }

  /** The Retry-After header: whole seconds, rounded up, at least one. */
  function RetrySeconds(retryAfter: int): int {
    var seconds := (retryAfter + SECOND - 1) / SECOND;
    if seconds < 1 then 1 else seconds
  }

  lemma RetrySecondsRoundsUp(retryAfter: int)
    requires retryAfter >= 0
    ensures RetrySeconds(retryAfter) * SECOND >= retryAfter && RetrySeconds(retryAfter) >= 1
    ensures RetrySeconds(retryAfter) > 1 ==> (RetrySeconds(retryAfter) - 1) * SECOND < retryAfter
  {
  }

  /** A caller that waits exactly the header's seconds is admitted, except when truncation to nanoseconds
      lost a fraction and what was left is a whole number of seconds. */
  lemma WaitingTheHeaderIsEnough(c: Config, reqs: seq<Request>, m: nat, i: nat)
    requires ValidConfig(c) && m < i < |reqs| && reqs[i].key == reqs[m].key && KeyClockMonotone(reqs, reqs[m].key)
    requires !Admits(c, reqs, m) && OnlyRejectedBetween(c, reqs, m, i)
    requires reqs[i].now
      == reqs[m].now + RetrySeconds(AllowAnswer(c, After(c, reqs, m), reqs[m].key, reqs[m].now).retryAfter) * SECOND
    ensures reqs[m].key in After(c, reqs, m)
    ensures var exact := ExactWait(c, TokensAt(c, reqs, m));
      Admits(c, reqs, i) <==> !(exact.Floor >= SECOND && exact.Floor % SECOND == 0 && exact > exact.Floor as real)
  {
    AdmittedOnceExactWaitPassed(c, reqs, m, i);
    RetryAfterIsTight(c, reqs, m, i);
    var exact := ExactWait(c, TokensAt(c, reqs, m));
    RetrySecondsRoundsUp(exact.Floor);
  }

  /** Such a caller: the exact wait is one second and half a nanosecond, the header says one second. */
  lemma HeaderCanFallShort()
    ensures var c := Config(2_000_000_000.0 / 2_000_000_001.0, 1, SECOND);
      var reqs := [Request("", 0), Request("", 0), Request("", SECOND)];
      && ValidConfig(c)
      && AllowAnswer(c, After(c, reqs, 1), "", 0) == Rejected(SECOND) && RetrySeconds(SECOND) == 1
      && !Admits(c, reqs, 2)
  {
    var c := Config(2_000_000_000.0 / 2_000_000_001.0, 1, SECOND);
    var reqs := [Request("", 0), Request("", 0), Request("", SECOND)];
    assert After(c, reqs, 0) == map[];
    assert After(c, reqs, 1) == map["" := Bucket(0.0, 0)];
    assert 1.0 / c.rate * SECOND as real == 1_000_000_000.5;
    assert After(c, reqs, 2) == map["" := Bucket(0.0, 0)];
    assert Refill(c, SECOND) == c.rate;
  }

  // ---- The janitor ----

  datatype Op = Ask(key: string, now: int) | Sweep(now: int)

  predicate ClockMonotoneFrom(ops: seq<Op>, t: int) {
    ops == [] || (t <= ops[0].now && ClockMonotoneFrom(ops[1..], ops[0].now))
  }

  /** The answers of a limiter that carries out the sweeps, or of one that ignores them. */
  function Answers(c: Config, bs: Buckets, ops: seq<Op>, evicting: bool): seq<Answer>
    requires c.rate > 0.0
    decreases |ops|
  {
    if ops == [] then []
    else match ops[0]
      case Ask(key, now) =>
        [AllowAnswer(c, bs, key, now)] + Answers(c, AllowBuckets(c, bs, key, now), ops[1..], evicting)
      case Sweep(now) => Answers(c, if evicting then Evicted(c, bs, now) else bs, ops[1..], evicting)
  }

  predicate Full(c: Config, b: Bucket, t: int) {
    b.lastSeen < t && b.tokens + Refill(c, t - b.lastSeen) >= c.burst as real
  }

  /** The swept map lacks only buckets that would be full at the next request. */
  ghost predicate Covers(c: Config, kept: Buckets, swept: Buckets, t: int) {
    && swept.Keys <= kept.Keys
    && (forall k | k in swept :: swept[k] == kept[k])
    && (forall k | k in kept :: kept[k].lastSeen <= t && kept[k].tokens >= 0.0)
    && (forall k | k in kept && k !in swept :: Full(c, kept[k], t))
  }

  lemma FullLater(c: Config, b: Bucket, t: int, t': int)
    requires c.rate > 0.0 && t <= t' && Full(c, b, t)
    ensures Full(c, b, t')
  {
    RefillMonotone(c, t - b.lastSeen, t' - b.lastSeen);
  }

  lemma AskKeepsCovers(c: Config, kept: Buckets, swept: Buckets, t: int, key: string, now: int)
    requires ValidConfig(c) && t <= now && Covers(c, kept, swept, t)
    ensures AllowAnswer(c, kept, key, now) == AllowAnswer(c, swept, key, now)
    ensures Covers(c, AllowBuckets(c, kept, key, now), AllowBuckets(c, swept, key, now), now)
  {
    forall k | k in kept && k !in swept ensures Full(c, kept[k], now) {
      FullLater(c, kept[k], t, now);
    }
    if key in kept {
      RefillMonotone(c, 0, now - kept[key].lastSeen);
    }
  }

  lemma SweepKeepsCovers(c: Config, kept: Buckets, swept: Buckets, t: int, now: int)
    requires ValidConfig(c) && Refill(c, c.idleTTL + 1) >= c.burst as real
    requires t <= now && Covers(c, kept, swept, t)
    ensures Covers(c, kept, Evicted(c, swept, now), now)
  {
    forall k | k in kept && k !in Evicted(c, swept, now) ensures Full(c, kept[k], now) {
      if k in swept {
        RefillMonotone(c, c.idleTTL + 1, now - kept[k].lastSeen);
      } else {
        FullLater(c, kept[k], t, now);
      }
    }
  }

  lemma {:induction false} SweepsInvisible(c: Config, kept: Buckets, swept: Buckets, t: int, ops: seq<Op>)
    requires ValidConfig(c) && Refill(c, c.idleTTL + 1) >= c.burst as real
    requires Covers(c, kept, swept, t) && ClockMonotoneFrom(ops, t)
    ensures Answers(c, swept, ops, true) == Answers(c, kept, ops, false)
    decreases |ops|
  {
    if ops != [] {
      match ops[0]
      case Ask(key, now) =>
        AskKeepsCovers(c, kept, swept, t, key, now);
        SweepsInvisible(c, AllowBuckets(c, kept, key, now), AllowBuckets(c, swept, key, now), now, ops[1..]);
      case Sweep(now) =>
        SweepKeepsCovers(c, kept, swept, t, now);
        SweepsInvisible(c, kept, Evicted(c, swept, now), now, ops[1..]);
    }
  }

  function Burst(n: nat, t: int): seq<Op> {
    if n == 0 then [] else [Ask("", t)] + Burst(n - 1, t)
  }

  predicate AllAdmitted(answers: seq<Answer>) {
    forall i | 0 <= i < |answers| :: answers[i].Admitted?
  }

  lemma AllAdmittedCons(a: Answer, answers: seq<Answer>)
    ensures AllAdmitted([a] + answers) <==> a.Admitted? && AllAdmitted(answers)
  {
    if AllAdmitted([a] + answers) {
      assert ([a] + answers)[0] == a;
      forall i | 0 <= i < |answers| ensures answers[i].Admitted? {
        assert ([a] + answers)[i + 1] == answers[i];
      }
    }
  }

  lemma {:induction false} BurstAdmitted(c: Config, b: Bucket, n: nat, t: int, rest: seq<Op>, evicting: bool)
    requires ValidConfig(c) && 1 <= n && n as real <= Refilled(c, b, t)
    ensures AllAdmitted(Answers(c, map["" := b], Burst(n, t) + rest, evicting))
      <==> AllAdmitted(Answers(c, map["" := Bucket(Refilled(c, b, t) - n as real, t)], rest, evicting))
    decreases n
  {
    var after := Bucket(Refilled(c, b, t) - 1.0, t);
    assert (Burst(n, t) + rest)[1..] == Burst(n - 1, t) + rest;
    assert AllowBuckets(c, map["" := b], "", t) == map["" := after];
    AllAdmittedCons(Admitted, Answers(c, map["" := after], Burst(n - 1, t) + rest, evicting));
    if n == 1 {
      assert Burst(0, t) + rest == rest;
    } else {
      BurstAdmitted(c, after, n - 1, t, rest, evicting);
    }
  }

  lemma {:induction false} BurstRejected(c: Config, b: Bucket, n: nat, t: int, evicting: bool)
    requires ValidConfig(c) && Refilled(c, b, t) < n as real && 1 <= n
    ensures !AllAdmitted(Answers(c, map["" := b], Burst(n, t), evicting))
    decreases n
  {
    var x := Refilled(c, b, t);
    assert Burst(n, t)[1..] == Burst(n - 1, t);
    AllAdmittedCons(AllowAnswer(c, map["" := b], "", t),
                    Answers(c, AllowBuckets(c, map["" := b], "", t), Burst(n - 1, t), evicting));
    if x >= 1.0 {
      assert AllowBuckets(c, map["" := b], "", t) == map["" := Bucket(x - 1.0, t)];
      BurstRejected(c, Bucket(x - 1.0, t), n - 1, t, evicting);
    }
  }

  lemma FreshIsFull(c: Config, n: nat, t: int, rest: seq<Op>, evicting: bool)
    requires ValidConfig(c) && 1 <= n
    ensures Answers(c, map[], Burst(n, t) + rest, evicting)
         == Answers(c, map["" := Bucket(c.burst as real, t)], Burst(n, t) + rest, evicting)
  {
    assert (Burst(n, t) + rest)[0] == Ask("", t);
    assert AllowBuckets(c, map[], "", t) == AllowBuckets(c, map["" := Bucket(c.burst as real, t)], "", t);
  }

  lemma {:induction false} BurstMonotone(n: nat, t: int, from: int, rest: seq<Op>)
    requires from <= t && ClockMonotoneFrom(rest, t)
    ensures ClockMonotoneFrom(Burst(n, t) + rest, from)
  {
    if n == 0 {
      assert Burst(n, t) + rest == rest;
    } else {
      assert (Burst(n, t) + rest)[1..] == Burst(n - 1, t) + rest;
      BurstMonotone(n - 1, t, t, rest);
    }
  }

  /** Empty the bucket, sweep as soon as it is idle, ask for a whole burst again. */
  function Revealing(c: Config): seq<Op>
    requires ValidConfig(c)
  {
    Burst(c.burst, 0) + ([Sweep(c.idleTTL + 1)] + Burst(c.burst, c.idleTTL + 1))
  }

  lemma SweepShows(c: Config)
    requires ValidConfig(c) && Refill(c, c.idleTTL + 1) < c.burst as real
    ensures ClockMonotoneFrom(Revealing(c), 0)
    ensures Answers(c, map[], Revealing(c), true) != Answers(c, map[], Revealing(c), false)
  {
    var n: nat, t := c.burst, c.idleTTL + 1;
    var second := Burst(n, t);
    var tail := [Sweep(t)] + second;
    assert second + [] == second;
    BurstMonotone(n, t, t, []);
    BurstMonotone(n, 0, 0, tail);
    var full, empty := Bucket(n as real, 0), Bucket(0.0, 0);
    forall evicting: bool
      ensures AllAdmitted(Answers(c, map[], Revealing(c), evicting)) <==>
        AllAdmitted(Answers(c, map["" := empty], tail, evicting))
    {
      FreshIsFull(c, n, 0, tail, evicting);
      BurstAdmitted(c, full, n, 0, tail, evicting);
    }
    assert tail[1..] == second;
    assert Evicted(c, map["" := empty], t) == map[];
    FreshIsFull(c, n, t, [], true);
    BurstAdmitted(c, Bucket(n as real, t), n, t, [], true);
    BurstRejected(c, empty, n, t, false);
  }

  ghost predicate SweepsNeverShow(c: Config)
    requires c.rate > 0.0
  {
    forall ops, t | ClockMonotoneFrom(ops, t) :: Answers(c, map[], ops, true) == Answers(c, map[], ops, false)
  }

  /** Evictions inserted anywhere are invisible, for every key and every run with a clock that does not step
      back, exactly when a bucket left alone for longer than idleTTL has refilled completely. */
  lemma EvictionInvisibleIff(c: Config)
    requires ValidConfig(c)
    ensures SweepsNeverShow(c) <==> Refill(c, c.idleTTL + 1) >= c.burst as real
  {
    if Refill(c, c.idleTTL + 1) >= c.burst as real {
      forall ops, t | ClockMonotoneFrom(ops, t) ensures Answers(c, map[], ops, true) == Answers(c, map[], ops, false) {
        SweepsInvisible(c, map[], map[], t, ops);
      }
    } else {
      SweepShows(c);
    }
  }

  /** The bound an operator would check: rate times idleTTL covers the burst. */
  lemma RateTimesTTLSuffices(c: Config, ops: seq<Op>, t: int)
    requires ValidConfig(c) && c.rate * Seconds(c.idleTTL) >= c.burst as real && ClockMonotoneFrom(ops, t)
    ensures Answers(c, map[], ops, true) == Answers(c, map[], ops, false)
  {
    RefillMonotone(c, c.idleTTL, c.idleTTL + 1);
    SweepsInvisible(c, map[], map[], t, ops);
  }
}
