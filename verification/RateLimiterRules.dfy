/** What each call answers and what a sweep drops, stated on runs and in the configured numbers. */
module RateLimiterRules {
  import opened RateLimiter
  import opened RateLimiterRuns
  import opened RateLimiterQuotas

  // ---------------------------------------------------------------- answers

  /** A run and one more call. */
  lemma {:induction false} Extended(config: Config, run: seq<Event>, e: Event)
    ensures Final(config, map[], run + [e]) == Perform(config, Final(config, map[], run), e).clients
    ensures Answer(config, map[], run + [e]) == Perform(config, Final(config, map[], run), e).verdict
  {
    assert (run + [e])[..|run|] == run;
  }

  /** Every answer to a request: no room to track the client, too many accepted in the window, or
      allowed. A client there is no room for leaves the table as it was. */
  lemma {:induction false} RequestAnswers(config: Config, run: seq<Event>, ip: Ip, now: nat)
    requires Chronological(run, now)
    ensures var clients, longer := Final(config, map[], run), run + [Event(now, Request(ip))];
            var answer := Answer(config, map[], longer);
            var recent := Count(Accepted(config, run, ip), now - config.window, now);
            if ip !in clients && |clients| >= 100_000 then
              answer == CapacityExceeded(100_000) && Final(config, map[], longer) == clients
            else
              && answer == (if recent < config.maxRequests then Allowed
                            else LimitExceeded(config.maxRequests, config.window))
              && ip in Final(config, map[], longer)
  {
    Extended(config, run, Event(now, Request(ip)));
    RequestExact(config, run, ip, now);
  }

  /** Every answer to a new connection, in terms of the client's live guards. */
  lemma {:induction false} ConnectionAnswers(config: Config, run: seq<Event>, ip: Ip, now: nat)
    requires ClosedByGuards(config, run, ip)
    ensures var clients, longer := Final(config, map[], run), run + [Event(now, Open(ip))];
            var answer, live := Answer(config, map[], longer), LiveGuards(config, run, ip);
            if ip !in clients && |clients| >= 100_000 then
              answer == CapacityExceeded(100_000) && Final(config, map[], longer) == clients
            else
              && 0 <= live
              && answer == (if live < config.maxConnections then Allowed
                            else ConnectionLimitExceeded(live, config.maxConnections))
              && ip in Final(config, map[], longer)
  {
    Extended(config, run, Event(now, Open(ip)));
    ConnectionsAreGuards(config, run, ip);
    assert Entry(config, Final(config, map[], run), ip, now).connections == Connections(Final(config, map[], run), ip);
  }

  /** The tokens a client has at `now`: what it had, plus `rate` a second, at most the 32-bit sum of
      rate and burst. */
  function Tokens(config: Config, client: Client, now: nat): real
    requires client.lastRefill <= now
  {
    var full := ((config.rate + config.burst) % 0x1_0000_0000) as real;
    var refilled := client.tokens + (config.rate * (now - client.lastRefill)) as real / 1_000_000_000.0;
    if refilled <= full then refilled else full
  }

  lemma {:induction false} TokensAreLevel(config: Config, client: Client, now: nat)
    requires client.lastRefill <= now
    ensures Tokens(config, client, now) == Level(config, client, now)
  {
    var d := now - client.lastRefill;
    assert (config.rate * d) as real == d as real * config.rate as real;
  }

  /** Every answer to a message. A frame over the size limit is refused, tracked client or not, and
      takes no token; a frame that fits passes if its client is untracked or has a token, which it
      then gives up. Nothing else of the table changes. */
  lemma {:induction false} MessageAnswers(config: Config, run: seq<Event>, ip: Ip, size: nat, now: nat)
    requires Chronological(run, now)
    ensures var clients, longer := Final(config, map[], run), run + [Event(now, Message(ip, size))];
            var answer, after := Answer(config, map[], longer), Final(config, map[], longer);
            if size > config.maxFrame then
              answer == FrameSizeExceeded(size, config.maxFrame) && after == clients
            else if ip !in clients then
              answer == Allowed && after == clients
            else
              && clients[ip].lastRefill <= now
              && var tokens := Tokens(config, clients[ip], now);
                 && answer == (if tokens >= 1.0 then Allowed else LimitExceeded(config.rate, 1_000_000_000))
                 && after == clients[ip := clients[ip].(
                      tokens := if tokens >= 1.0 then tokens - 1.0 else tokens, lastRefill := now)]
  {
    Extended(config, run, Event(now, Message(ip, size)));
    ReachableSane(config, run, ip, now);
    if ip in Final(config, map[], run) {
      TokensAreLevel(config, Final(config, map[], run)[ip], now);
    }
  }

  // ---------------------------------------------------------------- the first burst

  /** `k` messages at one instant. */
  function Salvo(k: nat, ip: Ip, size: nat, now: nat): seq<Event> {
    if k == 0 then [] else Salvo(k - 1, ip, size, now) + [Event(now, Message(ip, size))]
  }

  function Least(a: nat, b: nat): nat { if a <= b then a else b }

  /** What a salvo leaves of a whole number of tokens. */
  lemma {:induction false} SalvoLeaves(
    config: Config, clients: Clients, k: nat, ip: Ip, size: nat, now: nat, first: nat)
    requires ip in clients && size <= config.maxFrame && Level(config, clients[ip], now) == first as real
    ensures var after := Final(config, clients, Salvo(k, ip, size, now));
            && ip in after && Delivered(config, clients, Salvo(k, ip, size, now), ip) == Least(k, first)
            && Level(config, after[ip], now) == (first - Least(k, first)) as real
  {
    NothingRun(config, clients, ip);
    hide Level, MessageStep, Perform, Final, Delivered;
    if k > 0 {
      var run := Salvo(k - 1, ip, size, now);
      SalvoLeaves(config, clients, k - 1, ip, size, now, first);
      MessageMore(config, clients, run, ip, size, now);
      OneOfSalvo(config, Final(config, clients, run), ip, size, now);
    }
  }

  lemma NothingRun(config: Config, clients: Clients, ip: Ip)
    ensures Final(config, clients, []) == clients && Delivered(config, clients, [], ip) == 0
  {
  }

  lemma FullBucket(config: Config, client: Client, now: nat)
    requires client.tokens == config.burst as real && client.lastRefill == now
    ensures Level(config, client, now)
            == Least(config.burst, (config.rate + config.burst) % 0x1_0000_0000) as real
  {
    assert Gain(config, 0) == 0.0;
  }

  lemma {:induction false} MessageMore(config: Config, clients: Clients, run: seq<Event>, ip: Ip, size: nat, now: nat)
    ensures var reply := MessageStep(config, Final(config, clients, run), ip, size, now);
            var longer := run + [Event(now, Message(ip, size))];
            && Final(config, clients, longer) == reply.clients
            && Delivered(config, clients, longer, ip)
               == Delivered(config, clients, run, ip) + if reply.verdict.Allowed? then 1 else 0
  {
    assert (run + [Event(now, Message(ip, size))])[..|run|] == run;
  }

  lemma {:induction false} OneOfSalvo(config: Config, clients: Clients, ip: Ip, size: nat, now: nat)
    requires ip in clients && size <= config.maxFrame
    ensures var level := Level(config, clients[ip], now);
            var reply := MessageStep(config, clients, ip, size, now);
            && ip in reply.clients && (reply.verdict.Allowed? <==> level >= 1.0)
            && Level(config, reply.clients[ip], now) == if level >= 1.0 then level - 1.0 else level
  {
    assert Gain(config, 0) == 0.0;
  }

  /** A client that becomes tracked may send as many messages at once as the smaller of the burst
      allowance and the bucket, and no more. */
  lemma {:induction false} FirstBurst(config: Config, run: seq<Event>, ip: Ip, opens: bool, k: nat, size: nat, now: nat)
    requires size <= config.maxFrame
    requires ip !in Final(config, map[], run) && |Final(config, map[], run)| < 100_000
    ensures var clients := Final(config, map[], run + [Event(now, if opens then Open(ip) else Request(ip))]);
            Delivered(config, clients, Salvo(k, ip, size, now), ip)
            == Least(k, Least(config.burst, (config.rate + config.burst) % 0x1_0000_0000))
  {
    var e := Event(now, if opens then Open(ip) else Request(ip));
    Extended(config, run, e);
    var clients := Final(config, map[], run + [e]);
    FullBucket(config, clients[ip], now);
    SalvoLeaves(config, clients, k, ip, size, now, Least(config.burst, (config.rate + config.burst) % 0x1_0000_0000));
  }

  // ---------------------------------------------------------------- what a sweep drops

  lemma {:induction false} AfterLast(ts: seq<nat>, start: int)
    requires Sorted(ts) && After(ts, start) != []
    ensures ts != [] && After(ts, start)[|After(ts, start)| - 1] == ts[|ts| - 1]
  {
    var n := |ts| - 1;
    assert After([], start) == [];
    if ts != [] && ts[n] <= start {
      AfterNone(ts, ts[n]);
      AfterTwice(ts, ts[n], start);
    }
  }

  /** The kept log ends with the last accepted request; an empty one means there was none, or none
      in two windows. */
  predicate EndsAlike(config: Config, log: seq<nat>, history: seq<nat>, last: nat) {
    if log == [] then history == [] || history[|history| - 1] + config.window * 2 < last
    else history != [] && history[|history| - 1] == log[|log| - 1]
  }

  lemma {:induction false} RequestKeepsEnd(config: Config, clients: Clients, ip: Ip, now: nat, history: seq<nat>)
    requires EndsAlike(config, Recorded(clients, ip), history, now) && Sorted(Recorded(clients, ip))
    requires config.maxRequests == 0 ==> history == []
    ensures var reply := RequestStep(config, clients, ip, now);
            EndsAlike(config, Recorded(reply.clients, ip),
                      if reply.verdict.Allowed? then history + [now] else history, now)
  {
    if Admissible(clients, ip) {
      var log := Recorded(clients, ip);
      assert Entry(config, clients, ip, now).requests == log;
      TrimIsAfter(config, log, now);
      if Trim(config, log, now) != [] {
        AfterLast(log, now - config.window);
      }
    }
  }

  lemma {:induction false} CallKeepsEnd(config: Config, clients: Clients, e: Event, ip: Ip, history: seq<nat>)
    requires EndsAlike(config, Recorded(clients, ip), history, e.now) && Sorted(Recorded(clients, ip))
    requires config.maxRequests == 0 ==> history == []
    ensures var reply := Perform(config, clients, e);
            EndsAlike(config, Recorded(reply.clients, ip),
                      if e.call == Request(ip) && reply.verdict.Allowed? then history + [e.now] else history, e.now)
  {
    hide Sorted;
    match e.call {
      case Request(who) => if who == ip { RequestKeepsEnd(config, clients, ip, e.now, history); }
      case Cleanup =>
      case Open(_) =>
      case Close(_) =>
      case Message(_, _) =>
    }
  }

  lemma {:induction false} EndsAlikeLater(config: Config, log: seq<nat>, history: seq<nat>, last: nat, later: nat)
    requires EndsAlike(config, log, history, last) && last <= later
    ensures EndsAlike(config, log, history, later)
  {
  }

  lemma {:induction false} LogSorted(config: Config, run: seq<Event>, ip: Ip, last: nat)
    requires Chronological(run, last)
    ensures Sorted(Recorded(Final(config, map[], run), ip))
  {
    LogStandsForHistory(config, run, ip, last);
  }

  lemma {:induction false} LastRequestKept(config: Config, run: seq<Event>, ip: Ip, last: nat)
    requires Chronological(run, last)
    ensures EndsAlike(config, Recorded(Final(config, map[], run), ip), Accepted(config, run, ip), last)
  {
    if run == [] {
      assert EndsAlike(config, [], [], last);
    } else {
      hide EndsAlike, Perform, Recorded, Sorted;
      var before, e := run[..|run| - 1], run[|run| - 1];
      LastRequestKept(config, before, ip, e.now);
      LogSorted(config, before, ip, e.now);
      if config.maxRequests == 0 {
        NothingAccepted(config, before, ip);
      }
      CallKeepsEnd(config, Final(config, map[], before), e, ip, Accepted(config, before, ip));
      EndsAlikeLater(config, Recorded(Final(config, map[], run), ip), Accepted(config, run, ip), e.now, last);
    }
  }

  /** Was a request of `ip` accepted at or after `cutoff`? */
  predicate AcceptedSince(history: seq<nat>, cutoff: int) {
    exists i :: 0 <= i < |history| && history[i] >= cutoff
  }

  /** A sweep keeps exactly the tracked clients with a live guard or with a request accepted in the
      last two windows, and keeps them as they are; before two windows have passed it keeps all. */
  lemma {:induction false} SweepExact(config: Config, run: seq<Event>, ip: Ip, now: nat)
    requires Chronological(run, now) && ClosedByGuards(config, run, ip)
    ensures var clients, swept := Final(config, map[], run), Final(config, map[], run + [Event(now, Cleanup)]);
            && (ip in swept <==>
                  ip in clients &&
                  (now < config.window * 2 || LiveGuards(config, run, ip) > 0
                   || AcceptedSince(Accepted(config, run, ip), now - config.window * 2)))
            && (ip in swept ==> swept[ip] == clients[ip])
  {
    Extended(config, run, Event(now, Cleanup));
    ConnectionsAreGuards(config, run, ip);
    LastRequestKept(config, run, ip, now);
    HistoryOrdered(config, run, ip, now);
    var history := Accepted(config, run, ip);
    if history != [] {
      assert AcceptedSince(history, now - config.window * 2) <==>
             history[|history| - 1] >= now - config.window * 2;
    }
  }
}
