/** Retry hints, table capacity, live connections and the message bucket, over whole runs. */
module RateLimiterQuotas {
  import opened RateLimiter
  import opened RateLimiterRuns

  // ---------------------------------------------------------------- hints

  /**
    * For a tracked client the advertised remainder is the limit less the requests truly
    * accepted in the window, and a request passes exactly when it is positive.
    */
  lemma {:induction false} RemainingExact(config: Config, run: seq<Event>, ip: Ip, now: nat)
    requires Chronological(run, now) && ip in Final(config, map[], run)
    ensures Remaining(config, Final(config, map[], run), ip, now)
            == config.maxRequests - Count(Accepted(config, run, ip), now - config.window, now)
    ensures RequestStep(config, Final(config, map[], run), ip, now).verdict.Allowed?
       <==> Remaining(config, Final(config, map[], run), ip, now) > 0
  {
    LogStandsForHistory(config, run, ip, now);
    RemainingOfLog(config, Final(config, map[], run), ip, Accepted(config, run, ip), now);
  }

  lemma {:induction false} RemainingOfLog(config: Config, clients: Clients, ip: Ip, history: seq<nat>, now: nat)
    requires ip in clients && Agrees(config, clients[ip].requests, history, now)
    ensures Remaining(config, clients, ip, now) == config.maxRequests - Count(history, now - config.window, now)
    ensures RequestStep(config, clients, ip, now).verdict.Allowed? <==> Remaining(config, clients, ip, now) > 0
  {
    var kept := Trim(config, clients[ip].requests, now);
    AgreesTrimmed(config, clients[ip].requests, history, now);
    CountIsAfter(history, now - config.window, now);
    Narrow(|kept|);
  }

  lemma Narrow(n: nat)
    requires n < TWO_TO_32
    ensures n % TWO_TO_32 == n
  {
  }

  /** Calls that leave the request history of `ip` alone. */
  predicate NoRequestOf(run: seq<Event>, ip: Ip) {
    forall i :: 0 <= i < |run| ==> run[i].call != Request(ip)
  }

  lemma {:induction false} QuietKeepsHistory(config: Config, run: seq<Event>, later: seq<Event>, ip: Ip)
    requires NoRequestOf(later, ip)
    ensures Accepted(config, run + later, ip) == Accepted(config, run, ip)
  {
    if later == [] {
      assert run + later == run;
    } else {
      var n := |later| - 1;
      assert (run + later)[..|run| + n] == run + later[..n];
      assert (run + later)[|run| + n] == later[n];
      QuietKeepsHistory(config, run, later[..n], ip);
    }
  }

  /** A sorted log loses an entry exactly when its oldest one is out. */
  lemma {:induction false} AfterShorter(ts: seq<nat>, start: int)
    requires Sorted(ts) && ts != []
    ensures |After(ts, start)| < |ts| <==> ts[0] <= start
  {
    if ts[0] <= start {
      AfterDropsHead(ts, start);
      AfterKeeps(ts[1..], start, ts[|ts| - 1]);
    } else {
      AfterAll(ts, start);
    }
  }

  /** The hint in terms of the true history. */
  lemma {:induction false} ResetIsOldest(config: Config, run: seq<Event>, ip: Ip, now: nat)
    requires Chronological(run, now) && ip in Final(config, map[], run) && config.window <= now
    requires After(Accepted(config, run, ip), now - config.window) != []
    ensures var oldest := After(Accepted(config, run, ip), now - config.window)[0];
            && now - config.window < oldest <= now
            && Reset(config, Final(config, map[], run), ip, now) == oldest + config.window - now
  {
    LogStandsForHistory(config, run, ip, now);
    ResetOfLog(config, Final(config, map[], run), ip, Accepted(config, run, ip), now);
  }

  lemma {:induction false} ResetOfLog(config: Config, clients: Clients, ip: Ip, history: seq<nat>, now: nat)
    requires ip in clients && Agrees(config, clients[ip].requests, history, now) && config.window <= now
    requires After(history, now - config.window) != []
    ensures var oldest := After(history, now - config.window)[0];
            && now - config.window < oldest <= now
            && Reset(config, clients, ip, now) == oldest + config.window - now
  {
    EarliestIsFirst(clients[ip].requests, now - config.window);
    AfterKeeps(history, now - config.window, now);
  }

  /** A full window frees a place exactly when its oldest entry leaves. */
  lemma {:induction false} FreesWhenOldestLeaves(config: Config, history: seq<nat>, now: nat, d: nat)
    requires Sorted(history) && NoLaterThan(history, now)
    requires config.maxRequests > 0 && Count(history, now - config.window, now) == config.maxRequests
    ensures After(history, now - config.window) != []
    ensures Count(history, now + d - config.window, now + d) < config.maxRequests
       <==> After(history, now - config.window)[0] <= now + d - config.window
  {
    var full := After(history, now - config.window);
    CountIsAfter(history, now - config.window, now);
    CountIsAfter(history, now + d - config.window, now + d);
    AfterTwice(history, now - config.window, now + d - config.window);
    AfterKeeps(history, now - config.window, now);
    AfterShorter(full, now + d - config.window);
  }

  /**
    * The retry hint is exact. After a rejection at `now`, whatever other calls follow, a
    * retry after `d` by a client that can still be tracked passes exactly when `d` has
    * reached the hint; when the window start underflowed the hint is still sufficient.
    */
  lemma {:induction false} RetryHintExact(config: Config, run: seq<Event>, ip: Ip, now: nat, later: seq<Event>, d: nat)
    requires Chronological(run, now) && config.maxRequests > 0
    requires RequestStep(config, Final(config, map[], run), ip, now).verdict.LimitExceeded?
    requires var rejected := run + [Event(now, Request(ip))];
             && NoRequestOf(later, ip) && Chronological(rejected + later, now + d)
             && Admissible(Final(config, map[], rejected + later), ip)
    ensures var rejected := run + [Event(now, Request(ip))];
            var hint := Reset(config, Final(config, map[], rejected), ip, now);
            var retry := RequestStep(config, Final(config, map[], rejected + later), ip, now + d).verdict;
            && 0 < hint <= config.window
            && (d >= hint ==> retry.Allowed?)
            && (config.window <= now ==> (retry.Allowed? <==> d >= hint))
  {
    hide Final, Accepted, Chronological, Sorted, NoLaterThan, After, Count, RequestStep, Admissible, NoRequestOf;
    var rejected := run + [Event(now, Request(ip))];
    var history := Accepted(config, run, ip);
    RejectedFull(config, run, ip, now);
    QuietKeepsHistory(config, rejected, later, ip);
    FreesWhenOldestLeaves(config, history, now, d);
    RequestExact(config, rejected + later, ip, now + d);
    OldestRecent(config, history, now);
    if config.window <= now {
      ResetIsOldest(config, rejected, ip, now);
    }
  }

  lemma {:induction false} OldestRecent(config: Config, history: seq<nat>, now: nat)
    requires Sorted(history) && NoLaterThan(history, now) && After(history, now - config.window) != []
    ensures now - config.window < After(history, now - config.window)[0] <= now
  {
    AfterKeeps(history, now - config.window, now);
  }

  /** A rejected request leaves the history as it was, and found the window full. */
  lemma {:induction false} RejectedFull(config: Config, run: seq<Event>, ip: Ip, now: nat)
    requires Chronological(run, now) && config.maxRequests > 0
    requires RequestStep(config, Final(config, map[], run), ip, now).verdict.LimitExceeded?
    ensures var rejected := run + [Event(now, Request(ip))];
            var history := Accepted(config, run, ip);
            && Chronological(rejected, now)
            && Accepted(config, rejected, ip) == history && ip in Final(config, map[], rejected)
            && Sorted(history) && NoLaterThan(history, now)
            && Count(history, now - config.window, now) == config.maxRequests
            && config.window > 0
  {
    hide *;
    RejectedUnchanged(config, run, ip, now);
    RequestExact(config, run, ip, now);
    SlidingWindowBound(config, run, now, ip, now - config.window);
    HistoryOrdered(config, run, ip, now);
    EmptyWindow(Accepted(config, run, ip), now);
  }

  lemma {:induction false} HistoryOrdered(config: Config, run: seq<Event>, ip: Ip, last: nat)
    requires Chronological(run, last)
    ensures Sorted(Accepted(config, run, ip)) && NoLaterThan(Accepted(config, run, ip), last)
  {
    LogStandsForHistory(config, run, ip, last);
  }

  lemma {:induction false} RejectedUnchanged(config: Config, run: seq<Event>, ip: Ip, now: nat)
    requires Chronological(run, now)
    requires RequestStep(config, Final(config, map[], run), ip, now).verdict.LimitExceeded?
    ensures var rejected := run + [Event(now, Request(ip))];
            && Chronological(rejected, now) && Admissible(Final(config, map[], run), ip)
            && Accepted(config, rejected, ip) == Accepted(config, run, ip) && ip in Final(config, map[], rejected)
  {
    assert (run + [Event(now, Request(ip))])[..|run|] == run;
  }

  lemma {:induction false} EmptyWindow(history: seq<nat>, now: nat)
    requires NoLaterThan(history, now)
    ensures Count(history, now, now) == 0
  {
    CountIsAfter(history, now, now);
    AfterNone(history, now);
  }

  // ---------------------------------------------------------------- capacity and connections

  lemma GrowsByOne(clients: Clients, ip: Ip, client: Client)
    ensures |clients[ip := client]| == if ip in clients then |clients| else |clients| + 1
  {
    assert clients[ip := client].Keys == clients.Keys + {ip};
    assert |clients[ip := client].Keys| == |clients[ip := client]| && |clients.Keys| == |clients|;
  }

  lemma CleanupShrinks(config: Config, clients: Clients, now: nat)
    ensures CleanupStep(config, clients, now).Keys <= clients.Keys
    ensures |CleanupStep(config, clients, now)| <= |clients|
  {
    var swept := CleanupStep(config, clients, now);
    FewerKeys(swept.Keys, clients.Keys);
    assert |swept.Keys| == |swept| && |clients.Keys| == |clients|;
  }

  lemma {:induction false} FewerKeys(small: set<Ip>, large: set<Ip>)
    requires small <= large
    ensures |small| <= |large|
  {
    if small != {} {
      var ip :| ip in small;
      FewerKeys(small - {ip}, large - {ip});
    }
  }

  /** No run of calls makes the table outgrow its capacity. */
  lemma {:induction false} CapacityKept(config: Config, run: seq<Event>)
    ensures |Final(config, map[], run)| <= MAX_TRACKED_CLIENTS
  {
    if run != [] {
      var clients, e := Final(config, map[], run[..|run| - 1]), run[|run| - 1];
      CapacityKept(config, run[..|run| - 1]);
      if e.call.Cleanup? {
        CleanupShrinks(config, clients, e.now);
      } else if e.call.ip in Perform(config, clients, e).clients {
        GrowsByOne(clients, e.call.ip, Perform(config, clients, e).clients[e.call.ip]);
      }
    }
  }

  function Connections(clients: Clients, ip: Ip): nat {
    if ip in clients then clients[ip].connections else 0
  }

  /** Guards of `ip` alive after a run: one per accepted connection, gone when it closes. */
  function LiveGuards(config: Config, run: seq<Event>, ip: Ip): int {
    if run == [] then 0
    else
      var e := run[|run| - 1];
      LiveGuards(config, run[..|run| - 1], ip)
      + (if e.call == Open(ip) && Answer(config, map[], run).Allowed? then 1 else 0)
      - (if e.call == Close(ip) then 1 else 0)
  }

  /** Only a live guard closes a connection. */
  predicate ClosedByGuards(config: Config, run: seq<Event>, ip: Ip) {
    run == [] ||
    (ClosedByGuards(config, run[..|run| - 1], ip) &&
     (run[|run| - 1].call == Close(ip) ==> LiveGuards(config, run[..|run| - 1], ip) > 0))
  }

  /** The count kept for a client is the number of its live guards, eviction included. */
  lemma {:induction false} ConnectionsAreGuards(config: Config, run: seq<Event>, ip: Ip)
    requires ClosedByGuards(config, run, ip)
    ensures Connections(Final(config, map[], run), ip) == LiveGuards(config, run, ip) <= config.maxConnections
  {
    if run != [] { ConnectionsAreGuards(config, run[..|run| - 1], ip); }
  }

  /** A connection is accepted exactly when its client can be tracked and has a guard to spare. */
  lemma {:induction false} ConnectionExact(config: Config, run: seq<Event>, ip: Ip, now: nat)
    requires ClosedByGuards(config, run, ip)
    ensures ConnectionStep(config, Final(config, map[], run), ip, now).verdict.Allowed?
       <==> Admissible(Final(config, map[], run), ip) && LiveGuards(config, run, ip) < config.maxConnections
  {
    ConnectionsAreGuards(config, run, ip);
    assert Entry(config, Final(config, map[], run), ip, now).connections == Connections(Final(config, map[], run), ip);
  }

  // ---------------------------------------------------------------- the message bucket

  /** A bucket never in debt and never refilled in the future. */
  predicate Sane(clients: Clients, ip: Ip, now: nat) {
    ip in clients ==> clients[ip].tokens >= 0.0 && clients[ip].lastRefill <= now
  }

  lemma {:induction false} GainSplit(config: Config, a: nat, b: nat)
    ensures Gain(config, a + b) == Gain(config, a) + Gain(config, b)
    ensures Gain(config, a) >= 0.0
  {
    var r := config.rate as real;
    assert (a + b) as real == a as real + b as real;
    assert (a as real + b as real) * r == a as real * r + b as real * r;
    assert a as real * r >= 0.0;
  }

  lemma {:induction false} SaneStep(config: Config, clients: Clients, e: Event, ip: Ip, before: nat)
    requires Sane(clients, ip, before) && before <= e.now
    ensures Sane(Perform(config, clients, e).clients, ip, e.now)
  {
    if ip in clients {
      GainSplit(config, Elapsed(clients[ip].lastRefill, e.now), 0);
    }
  }

  lemma {:induction false} ReachableSane(config: Config, run: seq<Event>, ip: Ip, last: nat)
    requires Chronological(run, last)
    ensures Sane(Final(config, map[], run), ip, last)
  {
    if run != [] {
      var e := run[|run| - 1];
      ReachableSane(config, run[..|run| - 1], ip, e.now);
      SaneStep(config, Final(config, map[], run[..|run| - 1]), e, ip, e.now);
    }
  }

  /** The client is tracked before, during and after the run. */
  predicate TrackedThroughout(config: Config, clients: Clients, run: seq<Event>, ip: Ip) {
    ip in Final(config, clients, run) &&
    (run == [] || TrackedThroughout(config, clients, run[..|run| - 1], ip))
  }

  predicate IsMessageOf(e: Event, ip: Ip) { e.call.Message? && e.call.ip == ip }

  /** Messages of `ip` a run lets through. */
  function Delivered(config: Config, clients: Clients, run: seq<Event>, ip: Ip): nat {
    if run == [] then 0
    else
      Delivered(config, clients, run[..|run| - 1], ip)
      + if IsMessageOf(run[|run| - 1], ip) && Answer(config, clients, run).Allowed? then 1 else 0
  }

  /** A call takes one token for each message it lets through, and nothing else. */
  lemma {:induction false} TokenStep(config: Config, clients: Clients, e: Event, ip: Ip)
    requires ip in clients && Sane(clients, ip, e.now) && ip in Perform(config, clients, e).clients
    ensures var reply := Perform(config, clients, e);
            Level(config, reply.clients[ip], e.now)
            + (if IsMessageOf(e, ip) && reply.verdict.Allowed? then 1.0 else 0.0)
            == Level(config, clients[ip], e.now)
  {
    GainSplit(config, 0, 0);
    var reply := Perform(config, clients, e);
    if IsMessageOf(e, ip) && e.call.size <= config.maxFrame {
      assert Level(config, clients[ip], e.now) <= Cap(config) as real;
      assert Elapsed(reply.clients[ip].lastRefill, e.now) == 0;
    } else {
      assert reply.clients[ip].tokens == clients[ip].tokens && reply.clients[ip].lastRefill == clients[ip].lastRefill;
    }
  }

  lemma {:induction false} LevelGrows(config: Config, client: Client, from: nat, to: nat)
    requires client.lastRefill <= from <= to
    ensures Level(config, client, to) <= Level(config, client, from) + Gain(config, to - from)
  {
    GainSplit(config, from - client.lastRefill, to - from);
    GainSplit(config, to - from, 0);
  }

  /** Messages let through plus tokens left never exceed tokens at the start plus accrual. */
  lemma {:induction false} BucketConserved(
    config: Config, clients: Clients, run: seq<Event>, ip: Ip, start: nat, end: nat)
    requires TrackedThroughout(config, clients, run, ip) && ip in clients && Sane(clients, ip, start)
    requires start <= end && Chronological(run, end) && forall i :: 0 <= i < |run| ==> start <= run[i].now
    ensures Sane(Final(config, clients, run), ip, end)
    ensures Delivered(config, clients, run, ip) as real + Level(config, Final(config, clients, run)[ip], end)
            <= Level(config, clients[ip], start) + Gain(config, end - start)
  {
    hide Level, Gain, Perform;
    if run == [] {
      LevelGrows(config, clients[ip], start, end);
    } else {
      var before, e := run[..|run| - 1], run[|run| - 1];
      BucketConserved(config, clients, before, ip, start, e.now);
      BucketStep(config, clients, before, e, ip, end);
      GainSplit(config, e.now - start, end - e.now);
      assert before + [e] == run;
    }
  }

  lemma {:induction false} BucketStep(config: Config, clients: Clients, before: seq<Event>, e: Event, ip: Ip, end: nat)
    requires ip in Final(config, clients, before) && Sane(Final(config, clients, before), ip, e.now) && e.now <= end
    requires ip in Final(config, clients, before + [e])
    ensures Sane(Final(config, clients, before + [e]), ip, end)
    ensures Delivered(config, clients, before + [e], ip) as real
            + Level(config, Final(config, clients, before + [e])[ip], end)
            <= Delivered(config, clients, before, ip) as real + Level(config, Final(config, clients, before)[ip], e.now)
               + Gain(config, end - e.now)
  {
    assert (before + [e])[..|before|] == before;
    var mid := Final(config, clients, before);
    SaneStep(config, mid, e, ip, e.now);
    TokenStep(config, mid, e, ip);
    LevelGrows(config, Perform(config, mid, e).clients[ip], e.now, end);
  }

  /**
    * The bucket bound: from any reachable state, while the client stays tracked, the messages
    * let through in an interval are at most the tokens at its start plus the rate times its
    * length, hence at most rate + burst + rate times length.
    */
  lemma {:induction false} TokenBucketBound(
    config: Config, past: seq<Event>, run: seq<Event>, ip: Ip, start: nat, length: nat)
    requires Chronological(past, start) && Chronological(run, start + length)
    requires forall i :: 0 <= i < |run| ==> start <= run[i].now
    requires ip in Final(config, map[], past) && TrackedThroughout(config, Final(config, map[], past), run, ip)
    ensures var clients := Final(config, map[], past);
            var sent := Delivered(config, clients, run, ip) as real;
            && sent <= Level(config, clients[ip], start) + Gain(config, length)
            && sent <= (config.rate + config.burst) as real + Gain(config, length)
  {
    var clients := Final(config, map[], past);
    ReachableSane(config, past, ip, start);
    BucketConserved(config, clients, run, ip, start, start + length);
    LevelNotNegative(config, Final(config, clients, run)[ip], start + length);
    assert Cap(config) <= config.rate + config.burst;
    assert Level(config, clients[ip], start) <= Cap(config) as real;
  }

  lemma {:induction false} LevelNotNegative(config: Config, client: Client, now: nat)
    requires client.tokens >= 0.0
    ensures Level(config, client, now) >= 0.0
  {
    GainSplit(config, Elapsed(client.lastRefill, now), 0);
  }

  /** The last refill is the one at the start or one at a message of the run. */
  ghost predicate RefilledAt(config: Config, clients: Clients, run: seq<Event>, ip: Ip, at: nat)
    requires ip in clients
  {
    at == clients[ip].lastRefill || exists i :: 0 <= i < |run| && IsMessageOf(run[i], ip) && run[i].now == at
  }

  lemma {:induction false} RefillTimes(config: Config, clients: Clients, run: seq<Event>, ip: Ip)
    requires ip in clients && TrackedThroughout(config, clients, run, ip)
    ensures RefilledAt(config, clients, run, ip, Final(config, clients, run)[ip].lastRefill)
  {
    if run != [] {
      var before, e := run[..|run| - 1], run[|run| - 1];
      RefillTimes(config, clients, before, ip);
      var at := Final(config, clients, run)[ip].lastRefill;
      if IsMessageOf(e, ip) && e.call.size <= config.maxFrame {
        assert at == run[|run| - 1].now;
      } else {
        assert at == Final(config, clients, before)[ip].lastRefill;
        if at != clients[ip].lastRefill {
          var i :| 0 <= i < |before| && IsMessageOf(before[i], ip) && before[i].now == at;
          assert IsMessageOf(run[i], ip) && run[i].now == at;
        }
      }
    }
  }

  /** Whoever keeps to the rate is never refused: one token's worth of time between messages. */
  lemma {:induction false} PacedMessagePasses(
    config: Config, clients: Clients, run: seq<Event>, ip: Ip, size: nat, now: nat)
    requires ip in clients && TrackedThroughout(config, clients, run, ip) && Sane(clients, ip, now)
    requires Chronological(run, now) && Cap(config) >= 1 && size <= config.maxFrame
    requires Gain(config, now - clients[ip].lastRefill) >= 1.0
    requires forall i :: 0 <= i < |run| && IsMessageOf(run[i], ip) ==> Gain(config, now - run[i].now) >= 1.0
    ensures MessageStep(config, Final(config, clients, run), ip, size, now).verdict.Allowed?
  {
    RefillTimes(config, clients, run, ip);
    var client := Final(config, clients, run)[ip];
    assert client.lastRefill <= now && Gain(config, now - client.lastRefill) >= 1.0;
    NeverInDebt(config, clients, run, ip);
  }

  lemma {:induction false} NeverInDebt(config: Config, clients: Clients, run: seq<Event>, ip: Ip)
    requires ip in clients && clients[ip].tokens >= 0.0 && TrackedThroughout(config, clients, run, ip)
    ensures Final(config, clients, run)[ip].tokens >= 0.0
  {
    if run != [] {
      var before, e := run[..|run| - 1], run[|run| - 1];
      NeverInDebt(config, clients, before, ip);
      LevelNotNegative(config, Final(config, clients, before)[ip], e.now);
    }
  }
}
