/**
  * The per-client limiter: a sliding log of request instants, a connection count and a
  * token bucket for messages. Instants are nanoseconds since the earliest instant the
  * clock can represent, so subtracting a duration fails exactly when the result is negative.
  */
module RateLimiter {
  const MAX_TRACKED_CLIENTS: nat := 100_000
  const NANOS_PER_SECOND: real := 1_000_000_000.0
  const TWO_TO_32: nat := 0x1_0000_0000

  type U32 = n: int | 0 <= n < 0x1_0000_0000
  type Ip = nat

  datatype Config = Config(
    maxRequests: U32, window: nat, maxConnections: nat, maxFrame: nat, rate: U32, burst: U32)

  datatype Verdict =
    | Allowed
    | LimitExceeded(limit: nat, window: nat)
    | ConnectionLimitExceeded(current: nat, max: nat)
    | FrameSizeExceeded(size: nat, max: nat)
    | CapacityExceeded(max: nat)

  datatype Client = Client(requests: seq<nat>, connections: nat, tokens: real, lastRefill: nat)

  type Clients = map<Ip, Client>

  /** What one call leaves behind: the new table and the answer to the caller. */
  datatype Reply = Reply(clients: Clients, verdict: Verdict)

  // ---------------------------------------------------------------- one client

  function NewClient(config: Config, now: nat): Client {
    Client([], 0, config.burst as real, now)
  }

  /** The entry a call works on: the tracked one, or a new one. */
  function Entry(config: Config, clients: Clients, ip: Ip, now: nat): Client {
    if ip in clients then clients[ip] else NewClient(config, now)
  }

  /** The instants strictly later than `start`, in their order. */
  function After(ts: seq<nat>, start: int): seq<nat> {
    if ts == [] then []
    else
      var kept := After(ts[..|ts| - 1], start);
      if ts[|ts| - 1] > start then kept + [ts[|ts| - 1]] else kept
  }

  /** Trims the log to the window, or leaves it alone when the window start underflows. */
  function Trim(config: Config, requests: seq<nat>, now: nat): seq<nat> {
    if now < config.window then requests else After(requests, now - config.window)
  }

  function Min(a: real, b: real): real { if a <= b then a else b }

  /** Tokens that accrue over a number of nanoseconds. */
  function Gain(config: Config, nanos: nat): real {
    nanos as real * config.rate as real / NANOS_PER_SECOND
  }

  /** The bucket's size: a 32-bit sum, which wraps around. */
  function Cap(config: Config): nat { (config.rate + config.burst) % TWO_TO_32 }

  function Elapsed(since: nat, now: nat): nat { if now < since then 0 else now - since }

  /** The tokens a refill at `now` would find. */
  function Level(config: Config, client: Client, now: nat): real {
    Min(client.tokens + Gain(config, Elapsed(client.lastRefill, now)), Cap(config) as real)
  }

  // ---------------------------------------------------------------- the calls

  predicate Admissible(clients: Clients, ip: Ip) {
    ip in clients || |clients| < MAX_TRACKED_CLIENTS
  }

  function RequestStep(config: Config, clients: Clients, ip: Ip, now: nat): Reply {
    if !Admissible(clients, ip) then Reply(clients, CapacityExceeded(MAX_TRACKED_CLIENTS))
    else
      var client := Entry(config, clients, ip, now);
      var kept := Trim(config, client.requests, now);
      if |kept| >= config.maxRequests then
        Reply(clients[ip := client.(requests := kept)], LimitExceeded(config.maxRequests, config.window))
      else
        Reply(clients[ip := client.(requests := kept + [now])], Allowed)
  }

  function ConnectionStep(config: Config, clients: Clients, ip: Ip, now: nat): Reply {
    if !Admissible(clients, ip) then Reply(clients, CapacityExceeded(MAX_TRACKED_CLIENTS))
    else
      var client := Entry(config, clients, ip, now);
      if client.connections >= config.maxConnections then
        Reply(clients[ip := client], ConnectionLimitExceeded(client.connections, config.maxConnections))
      else
        Reply(clients[ip := client.(connections := client.connections + 1)], Allowed)
  }

  function CloseStep(clients: Clients, ip: Ip): Clients {
    if ip !in clients then clients
    else
      var open := clients[ip].connections;
      clients[ip := clients[ip].(connections := if open == 0 then 0 else open - 1)]
  }

  function MessageStep(config: Config, clients: Clients, ip: Ip, size: nat, now: nat): Reply {
    if size > config.maxFrame then Reply(clients, FrameSizeExceeded(size, config.maxFrame))
    else if ip !in clients then Reply(clients, Allowed)
    else
      var level := Level(config, clients[ip], now);
      if level >= 1.0 then
        Reply(clients[ip := clients[ip].(tokens := level - 1.0, lastRefill := now)], Allowed)
      else
        Reply(clients[ip := clients[ip].(tokens := level, lastRefill := now)],
              LimitExceeded(config.rate, 1_000_000_000))
  }

  /** A sweep drops a client with no connection and no request since `cutoff`. */
  predicate Expired(client: Client, cutoff: nat) {
    client.connections == 0 &&
    (client.requests == [] || client.requests[|client.requests| - 1] < cutoff)
  }

  function CleanupStep(config: Config, clients: Clients, now: nat): Clients {
    if now < config.window * 2 then clients
    else map ip | ip in clients && !Expired(clients[ip], now - config.window * 2) :: clients[ip]
  }

  /** Requests left in the window: the count is narrowed to 32 bits before the subtraction. */
  function Remaining(config: Config, clients: Clients, ip: Ip, now: nat): nat {
    if ip !in clients then config.maxRequests
    else
      var used := |Trim(config, clients[ip].requests, now)| % TWO_TO_32;
      if used >= config.maxRequests then 0 else config.maxRequests - used
  }

  /** The first instant later than `start`, if any. */
  function Earliest(ts: seq<nat>, start: int): (first: seq<nat>)
    ensures |first| <= 1
  {
    if ts == [] then [] else if ts[0] > start then [ts[0]] else Earliest(ts[1..], start)
  }

  /** The wait advertised to a rejected caller. */
  function Reset(config: Config, clients: Clients, ip: Ip, now: nat): nat {
    if ip !in clients then 0
    else if now < config.window then config.window
    else
      var first := Earliest(clients[ip].requests, now - config.window);
      if first == [] then 0
      else
        var age := Elapsed(first[0], now);
        if age >= config.window then 0 else config.window - age
  }

  // ---------------------------------------------------------------- the limiter object

  class WebSocketRateLimiter {
    const config: Config
    var clients: Clients

    constructor (config: Config)
      ensures this.config == config && clients == map[]
    {
      this.config := config;
      clients := map[];
    }

    method CheckRequest(ip: Ip, now: nat) returns (verdict: Verdict)
      modifies this`clients
      ensures Reply(clients, verdict) == RequestStep(config, old(clients), ip, now)
    {
      if ip !in clients && |clients| >= MAX_TRACKED_CLIENTS {
        return CapacityExceeded(MAX_TRACKED_CLIENTS);
      }
      if ip !in clients {
        clients := clients[ip := NewClient(config, now)];
      }
      var client := clients[ip];
      if config.window <= now {
        client := client.(requests := After(client.requests, now - config.window));
      }
      if |client.requests| >= config.maxRequests {
        verdict := LimitExceeded(config.maxRequests, config.window);
      } else {
        client := client.(requests := client.requests + [now]);
        verdict := Allowed;
      }
      clients := clients[ip := client];
    }

    method CheckConnection(ip: Ip, now: nat) returns (verdict: Verdict)
      modifies this`clients
      ensures Reply(clients, verdict) == ConnectionStep(config, old(clients), ip, now)
    {
      if ip !in clients && |clients| >= MAX_TRACKED_CLIENTS {
        return CapacityExceeded(MAX_TRACKED_CLIENTS);
      }
      if ip !in clients {
        clients := clients[ip := NewClient(config, now)];
      }
      var client := clients[ip];
      if client.connections >= config.maxConnections {
        verdict := ConnectionLimitExceeded(client.connections, config.maxConnections);
      } else {
        client := client.(connections := client.connections + 1);
        verdict := Allowed;
      }
      clients := clients[ip := client];
    }

    method CloseConnection(ip: Ip)
      modifies this`clients
      ensures clients == CloseStep(old(clients), ip)
    {
      if ip in clients {
        var client := clients[ip];
        if client.connections > 0 {
          client := client.(connections := client.connections - 1);
        }
        clients := clients[ip := client];
      }
    }

    method RefillTokens(ip: Ip, now: nat)
      requires ip in clients
      modifies this`clients
      ensures var client := old(clients)[ip];
              clients == old(clients)[ip := client.(tokens := Level(config, client, now), lastRefill := now)]
    {
      var client := clients[ip];
      var filled := client.tokens + Gain(config, Elapsed(client.lastRefill, now));
      var most := Cap(config) as real;
      clients := clients[ip := client.(tokens := if filled <= most then filled else most, lastRefill := now)];
    }

    method CheckMessage(ip: Ip, size: nat, now: nat) returns (verdict: Verdict)
      modifies this`clients
      ensures Reply(clients, verdict) == MessageStep(config, old(clients), ip, size, now)
    {
      if size > config.maxFrame {
        return FrameSizeExceeded(size, config.maxFrame);
      }
      if ip !in clients {
        return Allowed;
      }
      RefillTokens(ip, now);
      var client := clients[ip];
      if client.tokens >= 1.0 {
        clients := clients[ip := client.(tokens := client.tokens - 1.0)];
        verdict := Allowed;
      } else {
        verdict := LimitExceeded(config.rate, 1_000_000_000);
      }
    }

    method CleanupExpired(now: nat)
      modifies this`clients
      ensures clients == CleanupStep(config, old(clients), now)
    {
      if now < config.window * 2 {
        return;
      }
      var cutoff := now - config.window * 2;
      clients := map ip | ip in clients && !Expired(clients[ip], cutoff) :: clients[ip];
    }

    /** Counts the requests still inside the window. */
    method RemainingFor(ip: Ip, now: nat) returns (left: nat)
      ensures left == Remaining(config, clients, ip, now)
    {
      if ip !in clients {
        return config.maxRequests;
      }
      var requests := clients[ip].requests;
      var used := 0;
      for i := 0 to |requests|
        invariant used == |After(requests[..i], now - config.window)|
      {
        assert requests[..i + 1][..i] == requests[..i];
        if now < config.window || requests[i] > now - config.window {
          used := used + 1;
        }
      }
      assert requests[..|requests|] == requests;
      if now < config.window {
        AfterAll(requests, now - config.window);
      }
      used := used % TWO_TO_32;
      left := if used >= config.maxRequests then 0 else config.maxRequests - used;
    }

    /** Finds the oldest request still inside the window. */
    method ResetAfter(ip: Ip, now: nat) returns (wait: nat)
      ensures wait == Reset(config, clients, ip, now)
    {
      if ip !in clients {
        return 0;
      }
      if now < config.window {
        return config.window;
      }
      var requests := clients[ip].requests;
      var i := 0;
      while i < |requests| && requests[i] <= now - config.window
        invariant i <= |requests|
        invariant Earliest(requests, now - config.window) == Earliest(requests[i..], now - config.window)
      {
        i := i + 1;
      }
      if i == |requests| {
        return 0;
      }
      var age := Elapsed(requests[i], now);
      wait := if age >= config.window then 0 else config.window - age;
    }
  }

  // ---------------------------------------------------------------- facts about logs

  predicate Sorted(ts: seq<nat>) { forall i, j :: 0 <= i < j < |ts| ==> ts[i] <= ts[j] }

  predicate NoLaterThan(ts: seq<nat>, last: nat) { forall i :: 0 <= i < |ts| ==> ts[i] <= last }

  lemma {:induction false} AfterAll(ts: seq<nat>, start: int)
    requires forall i :: 0 <= i < |ts| ==> ts[i] > start
    ensures After(ts, start) == ts
  {
    if ts != [] { AfterAll(ts[..|ts| - 1], start); }
  }

  lemma {:induction false} AfterNone(ts: seq<nat>, start: nat)
    requires NoLaterThan(ts, start)
    ensures After(ts, start) == []
  {
    if ts != [] { AfterNone(ts[..|ts| - 1], start); }
  }

  lemma {:induction false} AfterSnoc(ts: seq<nat>, t: nat, start: int)
    ensures After(ts + [t], start) == if t > start then After(ts, start) + [t] else After(ts, start)
  {
    assert (ts + [t])[..|ts|] == ts;
  }

  /** A trimmed log keeps its order and its bound, and never grows. */
  lemma {:induction false} AfterKeeps(ts: seq<nat>, start: int, last: nat)
    requires Sorted(ts) && NoLaterThan(ts, last)
    ensures Sorted(After(ts, start)) && NoLaterThan(After(ts, start), last)
    ensures |After(ts, start)| <= |ts|
    ensures forall i :: 0 <= i < |After(ts, start)| ==> After(ts, start)[i] > start
  {
    if ts != [] {
      var n := |ts| - 1;
      AfterKeeps(ts[..n], start, ts[n]);
    }
  }

  /** Trimming twice is trimming once with the later start. */
  lemma {:induction false} AfterTwice(ts: seq<nat>, early: int, late: int)
    requires early <= late
    ensures After(After(ts, early), late) == After(ts, late)
  {
    if ts != [] {
      var n := |ts| - 1;
      AfterTwice(ts[..n], early, late);
      if ts[n] > early { AfterSnoc(After(ts[..n], early), ts[n], late); }
    }
  }

  lemma {:induction false} EarliestIsFirst(ts: seq<nat>, start: int)
    requires Sorted(ts)
    ensures Earliest(ts, start) == if After(ts, start) == [] then [] else [After(ts, start)[0]]
  {
    if ts != [] {
      if ts[0] > start {
        AfterAll(ts, start);
      } else {
        EarliestIsFirst(ts[1..], start);
        AfterDropsHead(ts, start);
      }
    }
  }

  lemma {:induction false} AfterDropsHead(ts: seq<nat>, start: int)
    requires ts != [] && ts[0] <= start
    ensures After(ts[1..], start) == After(ts, start)
  {
    if |ts| > 1 {
      var n := |ts| - 1;
      assert ts[..n][1..] == ts[1..][..n - 1];
      AfterDropsHead(ts[..n], start);
    }
  }

  /** How many instants fall in the half-open interval (from, to]. */
  function Count(ts: seq<nat>, from: int, to: int): nat {
    if ts == [] then 0
    else
      Count(ts[..|ts| - 1], from, to) + if from < ts[|ts| - 1] <= to then 1 else 0
  }

  lemma {:induction false} CountSnoc(ts: seq<nat>, t: nat, from: int, to: int)
    ensures Count(ts + [t], from, to) == Count(ts, from, to) + if from < t <= to then 1 else 0
  {
    assert (ts + [t])[..|ts|] == ts;
  }

  lemma {:induction false} CountAtMostAfter(ts: seq<nat>, from: int, to: int)
    ensures Count(ts, from, to) <= |After(ts, from)|
  {
    if ts != [] { CountAtMostAfter(ts[..|ts| - 1], from, to); }
  }

  lemma {:induction false} CountIsAfter(ts: seq<nat>, from: int, to: nat)
    requires NoLaterThan(ts, to)
    ensures Count(ts, from, to) == |After(ts, from)|
  {
    if ts != [] { CountIsAfter(ts[..|ts| - 1], from, to); }
  }

  lemma {:induction false} CountMonotone(ts: seq<nat>, from: int, to: int, from': int, to': int)
    requires from' <= from && to <= to'
    ensures Count(ts, from, to) <= Count(ts, from', to')
  {
    if ts != [] { CountMonotone(ts[..|ts| - 1], from, to, from', to'); }
  }

  lemma {:induction false} TrimIsAfter(config: Config, requests: seq<nat>, now: nat)
    ensures Trim(config, requests, now) == After(requests, now - config.window)
  {
    if now < config.window { AfterAll(requests, now - config.window); }
  }
}
