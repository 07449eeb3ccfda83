/** Admission control: a token bucket per client address. Time is measured
    in integer milliseconds; the refill Go computes in floating point as
    `int(elapsed.Minutes() * rate)` is `(elapsedMs * rate) / 60000` truncated
    toward zero. Each lock-guarded section of the Go code is one atomic method. */
module RateLimiter {
  import opened Http

  const MinuteMs := 60_000
  /** Clients idle for longer than this are evicted. */
  const IdleLimitMs := 10 * MinuteMs

  /** The abstract state of one `ClientLimiter`. */
  datatype Bucket = Bucket(tokens: int, lastSeen: int)

  /** Go's integer conversion of a quotient: truncation toward zero. */
  function TruncDiv(a: int, b: int): (q: int)
    requires b > 0
    ensures 0 <= a < b ==> q == 0
    ensures a >= b ==> q >= 1
    ensures a <= 0 ==> q <= 0
    ensures a >= 0 ==> q * b <= a < (q + 1) * b
    ensures a < 0 ==> (q - 1) * b < a <= q * b
  {
    if a >= 0 then
      DivBounds(a, b);
      a / b
    else
      var n := -a;
      DivBounds(n, b);
      var m := n / b;
      assert (-m - 1) * b == -((m + 1) * b) && -m * b == -(m * b);
      -m
  }

  /** The Euclidean quotient of a non-negative `n` brackets it. */
  lemma DivBounds(n: int, d: int)
    requires n >= 0 && d > 0
    ensures (n / d) * d <= n < (n / d + 1) * d
    ensures n / d >= 0
    ensures n < d ==> n / d == 0
    ensures n >= d ==> n / d >= 1
  {
    var q, r := n / d, n % d;
    assert n == d * q + r && 0 <= r < d;
    assert (q + 1) * d == q * d + d;
  }

  /** Whole tokens earned by `elapsedMs` at `rate` tokens per minute. */
  function TokensToAdd(elapsedMs: int, rate: int): int
  {
    TruncDiv(elapsedMs * rate, MinuteMs)
  }

  /** The bucket invariant: never above `burst`, and never negative unless
      `burst` itself is (then the bucket is pinned at `burst`). */
  predicate InBounds(tokens: int, burst: int)
  {
    tokens <= burst && (0 <= tokens || tokens == burst)
  }

  /** Token count after crediting the elapsed time: only a positive whole
      number of tokens is added, and the result is capped at `burst`. */
  function Refill(tokens: int, elapsedMs: int, rate: int, burst: int): (t: int)
    ensures TokensToAdd(elapsedMs, rate) <= 0 ==> t == tokens
    ensures TokensToAdd(elapsedMs, rate) > 0 && tokens + TokensToAdd(elapsedMs, rate) <= burst ==>
              t == tokens + TokensToAdd(elapsedMs, rate)
    ensures TokensToAdd(elapsedMs, rate) > 0 && tokens + TokensToAdd(elapsedMs, rate) > burst ==> t == burst
    ensures InBounds(tokens, burst) ==> InBounds(t, burst) && tokens <= t
  {
    var add := TokensToAdd(elapsedMs, rate);
    if add > 0 then (if tokens + add > burst then burst else tokens + add) else tokens
  }

  datatype Admission = Admission(allowed: bool, bucket: Bucket)

  /** One request against one bucket at time `now`: refill, stamp `now`,
      then deny when no token is left or consume exactly one. */
  function Admit(b: Bucket, now: int, rate: int, burst: int): (a: Admission)
    ensures a.bucket.lastSeen == now
    ensures a.allowed <==> Refill(b.tokens, now - b.lastSeen, rate, burst) > 0
    ensures a.allowed ==> a.bucket.tokens == Refill(b.tokens, now - b.lastSeen, rate, burst) - 1
    ensures !a.allowed ==> a.bucket.tokens == Refill(b.tokens, now - b.lastSeen, rate, burst)
    ensures InBounds(b.tokens, burst) ==> InBounds(a.bucket.tokens, burst)
  {
    var t := Refill(b.tokens, now - b.lastSeen, rate, burst);
    if t <= 0 then Admission(false, Bucket(t, now)) else Admission(true, Bucket(t - 1, now))
  }

  predicate AllInBounds(clients: map<string, Bucket>, burst: int)
  {
    forall ip :: ip in clients ==> InBounds(clients[ip].tokens, burst)
  }

  /** The whole table's view of one request from `ip`: a first-time client
      gets a full bucket stamped `now`, then the request is charged. */
  function Request(clients: map<string, Bucket>, ip: string, now: int, rate: int, burst: int)
    : (r: (Verdict, map<string, Bucket>))
    ensures r.1.Keys == clients.Keys + {ip}
    ensures forall other :: other in clients && other != ip ==> r.1[other] == clients[other]
    ensures r.0 == Continue || r.0 == Abort(StatusTooManyRequests)
    ensures var b := if ip in clients then clients[ip] else Bucket(burst, now);
      && r.1[ip] == Admit(b, now, rate, burst).bucket
      && (r.0 == Continue <==> Admit(b, now, rate, burst).allowed)
    ensures AllInBounds(clients, burst) ==> AllInBounds(r.1, burst)
  {
    var b := if ip in clients then clients[ip] else Bucket(burst, now);
    var a := Admit(b, now, rate, burst);
    (if a.allowed then Continue else Abort(StatusTooManyRequests), clients[ip := a.bucket])
  }

  predicate Idle(b: Bucket, now: int)
  {
    now - b.lastSeen > IdleLimitMs
  }

  /** The clients kept by one cleanup pass at `now`. */
  function Evict(clients: map<string, Bucket>, now: int): (r: map<string, Bucket>)
    ensures forall ip :: ip in r <==> ip in clients && !Idle(clients[ip], now)
    ensures forall ip :: ip in r ==> r[ip] == clients[ip]
  {
    map ip | ip in clients && !Idle(clients[ip], now) :: clients[ip]
  }

  /** The allow/deny flags of `n` requests, the first `d` ms after the
      bucket was last seen and each following one `d` ms after the previous. */
  function Pace(b: Bucket, d: int, n: nat, rate: int, burst: int): (v: seq<bool>)
    ensures |v| == n
    decreases n
  {
    if n == 0 then []
    else
      var a := Admit(b, b.lastSeen + d, rate, burst);
      [a.allowed] + Pace(a.bucket, d, n - 1, rate, burst)
  }

  /** Requests arriving at the same instant as the last one earn nothing:
      exactly the tokens already in the bucket are admitted. */
  lemma {:induction false} SameInstant(b: Bucket, n: nat, rate: int, burst: int)
    requires 0 <= b.tokens
    ensures forall i :: 0 <= i < n ==> Pace(b, 0, n, rate, burst)[i] == (i < b.tokens)
    decreases n
  {
    if n > 0 {
      var a := Admit(b, b.lastSeen, rate, burst);
      assert TokensToAdd(0, rate) == 0;
      SameInstant(a.bucket, n - 1, rate, burst);
      var v := Pace(b, 0, n, rate, burst);
      assert v == [a.allowed] + Pace(a.bucket, 0, n - 1, rate, burst);
      forall i | 0 <= i < n
        ensures v[i] == (i < b.tokens)
      {
        if i > 0 {
          assert v[i] == Pace(a.bucket, 0, n - 1, rate, burst)[i - 1];
        }
      }
    }
  }

  /** From a full bucket, `burst + 1` simultaneous requests admit exactly
      `burst` and deny the last one. */
  lemma BurstThenDeny(now: int, rate: int, burst: nat)
    ensures Pace(Bucket(burst, now), 0, burst + 1, rate, burst) == seq(burst, _ => true) + [false]
  {
    var v := Pace(Bucket(burst, now), 0, burst + 1, rate, burst);
    SameInstant(Bucket(burst, now), burst + 1, rate, burst);
    assert forall i :: 0 <= i < burst + 1 ==> v[i] == (seq(burst, _ => true) + [false])[i];
  }

  /** After `60000 / rate` ms (one token's worth) a bucket within bounds
      admits at least one request, provided `burst` allows any. */
  lemma OneIntervalRefills(b: Bucket, now: int, rate: int, burst: int)
    requires InBounds(b.tokens, burst) && burst >= 1 && rate > 0
    requires (now - b.lastSeen) * rate >= MinuteMs
    ensures Admit(b, now, rate, burst).allowed
  {
    assert TokensToAdd(now - b.lastSeen, rate) >= 1;
  }

  /** `lastSeen` moves to `now` on every request, so credit worth less than
      one token is thrown away: an empty bucket polled more often than once
      per token interval is denied forever, however long the polling lasts. */
  lemma {:induction false} FractionalCreditLost(b: Bucket, d: int, n: nat, rate: int, burst: int)
    requires b.tokens == 0 && 0 <= d && 0 <= rate && d * rate < MinuteMs
    ensures forall i :: 0 <= i < n ==> !Pace(b, d, n, rate, burst)[i]
    decreases n
  {
    if n > 0 {
      var a := Admit(b, b.lastSeen + d, rate, burst);
      assert TokensToAdd(d, rate) == 0;
      FractionalCreditLost(a.bucket, d, n - 1, rate, burst);
      var v := Pace(b, d, n, rate, burst);
      assert v == [a.allowed] + Pace(a.bucket, d, n - 1, rate, burst);
      forall i | 0 < i < n
        ensures !v[i]
      {
        assert v[i] == Pace(a.bucket, d, n - 1, rate, burst)[i - 1];
      }
    }
  }

  /** `ClientLimiter`: one client's bucket, updated in place. */
  class ClientLimiter {
    var tokens: int
    var lastSeen: int

    constructor (tokens: int, lastSeen: int)
      ensures this.tokens == tokens && this.lastSeen == lastSeen
    {
      this.tokens := tokens;
      this.lastSeen := lastSeen;
    }

    /** The section of `Middleware` run under the client's own lock: refill,
        stamp `now`, then deny or consume one token. */
    method Take(now: int, rate: int, burst: int) returns (allowed: bool)
      modifies this
      ensures Bucket(tokens, lastSeen) == Admit(old(Bucket(tokens, lastSeen)), now, rate, burst).bucket
      ensures allowed == Admit(old(Bucket(tokens, lastSeen)), now, rate, burst).allowed
    {
      var tokensToAdd := TokensToAdd(now - lastSeen, rate);
      if tokensToAdd > 0 {
        tokens := tokens + tokensToAdd;
        if tokens > burst {
          tokens := burst;
        }
      }
      lastSeen := now;
      if tokens <= 0 {
        allowed := false;
      } else {
        tokens := tokens - 1;
        allowed := true;
      }
    }
  }

  /** `RateLimiter`: the client table plus the fixed `rate` (tokens per
      minute) and `burst` (bucket size). */
  lemma MapsEqual(a: map<string, Bucket>, b: map<string, Bucket>)
    requires forall k :: k in a <==> k in b
    requires forall k :: k in a ==> a[k] == b[k]
    ensures a == b
  {
  }

  lemma OverwriteTwice(m: map<string, Bucket>, k: string, x: Bucket, y: Bucket)
    ensures m[k := x][k := y] == m[k := y]
  {
  }

  class RateLimiter {
    var clients: map<string, ClientLimiter>
    const rate: int
    const burst: int

    /** Distinct addresses own distinct limiters, and every bucket is in bounds. */
    ghost predicate Valid()
      reads this, clients.Values
    {
      && (forall a, b :: a in clients && b in clients && a != b ==> clients[a] != clients[b])
      && (forall ip :: ip in clients ==> InBounds(clients[ip].tokens, burst))
    }

    ghost function View(): (m: map<string, Bucket>)
      reads this, clients.Values
      ensures m.Keys == clients.Keys
    {
      map ip | ip in clients :: Bucket(clients[ip].tokens, clients[ip].lastSeen)
    }

    /** `NewRateLimiter(rate, burst)`: an empty client table. */
    constructor (rate: int, burst: int)
      ensures Valid() && View() == map[]
      ensures this.rate == rate && this.burst == burst
    {
      clients := map[];
      this.rate := rate;
      this.burst := burst;
    }

    /** The map section of `Middleware`: find the client's limiter, or
        insert a full one stamped `now` for a first-time client. */
    method LimiterFor(clientIP: string, now: int) returns (limiter: ClientLimiter)
      requires Valid()
      modifies this
      ensures Valid()
      ensures clientIP in clients && clients[clientIP] == limiter
      ensures clientIP in old(clients) ==> limiter == old(clients)[clientIP]
      ensures clientIP !in old(clients) ==> fresh(limiter)
      ensures forall ip :: ip in clients && ip != clientIP ==> clients[ip] != limiter
      ensures View() == old(View())[clientIP := if clientIP in old(View()) then old(View())[clientIP] else Bucket(burst, now)]
    {
      if clientIP in clients {
        limiter := clients[clientIP];
      } else {
        limiter := new ClientLimiter(burst, now);
        clients := clients[clientIP := limiter];
      }
    }

    /** The request-admission body of `Middleware` for the client at
        `clientIP`, arriving at `now`. */
    method Middleware(clientIP: string, now: int) returns (v: Verdict)
      requires Valid()
      modifies this, clients.Values
      ensures Valid()
      ensures (v, View()) == Request(old(View()), clientIP, now, rate, burst)
    {
      ghost var before := View();
      ghost var oldClients := clients;
      var limiter := LimiterFor(clientIP, now);
      assert clientIP in oldClients ==> limiter in oldClients.Values;
      ghost var mid := View();
      ghost var b := mid[clientIP];

      var allowed := limiter.Take(now, rate, burst);
      v := if allowed then Continue else Abort(StatusTooManyRequests);

      ghost var a := Admit(b, now, rate, burst);
      forall ip | ip in clients
        ensures View()[ip] == mid[clientIP := a.bucket][ip]
      {
        if ip != clientIP {
          assert View()[ip] == mid[ip];
        }
      }
      MapsEqual(View(), mid[clientIP := a.bucket]);
      OverwriteTwice(before, clientIP, b, a.bucket);
      assert b == if clientIP in before then before[clientIP] else Bucket(burst, now);
    }

    /** One pass of `CleanupExpiredClients` at `now`: every client idle for
        more than ten minutes is removed while the table is walked. */
    method CleanupExpiredClients(now: int)
      requires Valid()
      modifies this
      ensures Valid()
      ensures View() == Evict(old(View()), now)
    {
      ghost var before := View();
      var remaining := clients.Keys;
      while remaining != {}
        invariant remaining <= clients.Keys <= old(clients).Keys
        invariant forall ip :: ip in clients ==> clients[ip] == old(clients)[ip]
        invariant forall ip :: ip in old(clients) && ip !in remaining ==>
                    (ip in clients <==> now - old(clients)[ip].lastSeen <= IdleLimitMs)
        decreases remaining
      {
        var ip :| ip in remaining;
        if now - clients[ip].lastSeen > IdleLimitMs {
          clients := clients - {ip};
        }
        remaining := remaining - {ip};
      }
      var evicted := Evict(before, now);
      forall ip
        ensures ip in View() <==> ip in evicted
        ensures ip in View() ==> View()[ip] == evicted[ip]
      {
        if ip in old(clients) {
          assert before[ip].lastSeen == old(clients)[ip].lastSeen;
        }
      }
      MapsEqual(View(), evicted);
    }
  }
}
