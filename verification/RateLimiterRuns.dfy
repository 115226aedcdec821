/** What the limiter guarantees over whole runs of calls made at nondecreasing instants. */
module RateLimiterRuns {
  import opened RateLimiter

  datatype Call =
    | Request(ip: Ip)
    | Open(ip: Ip)
    | Close(ip: Ip)
    | Message(ip: Ip, size: nat)
    | Cleanup

  datatype Event = Event(now: nat, call: Call)

  function Perform(config: Config, clients: Clients, e: Event): Reply {
    match e.call
    case Request(ip) => RequestStep(config, clients, ip, e.now)
    case Open(ip) => ConnectionStep(config, clients, ip, e.now)
    case Close(ip) => Reply(CloseStep(clients, ip), Allowed)
    case Message(ip, size) => MessageStep(config, clients, ip, size, e.now)
    case Cleanup => Reply(CleanupStep(config, clients, e.now), Allowed)
  }

  /** The table a run leaves behind. */
  function Final(config: Config, clients: Clients, run: seq<Event>): Clients {
    if run == [] then clients
    else Perform(config, Final(config, clients, run[..|run| - 1]), run[|run| - 1]).clients
  }

  /** The verdict on the last call of a run. */
  function Answer(config: Config, clients: Clients, run: seq<Event>): Verdict
    requires run != []
  {
    Perform(config, Final(config, clients, run[..|run| - 1]), run[|run| - 1]).verdict
  }

  /** Calls come in the order of their instants, none later than `last`. */
  predicate Chronological(run: seq<Event>, last: nat) {
    (forall i, j :: 0 <= i < j < |run| ==> run[i].now <= run[j].now) &&
    (forall i :: 0 <= i < |run| ==> run[i].now <= last)
  }

  /** The instants at which a run accepted a request of `ip`: the history the limit is about. */
  function Accepted(config: Config, run: seq<Event>, ip: Ip): seq<nat> {
    if run == [] then []
    else
      var past := Accepted(config, run[..|run| - 1], ip);
      var e := run[|run| - 1];
      if e.call == Request(ip) && Answer(config, map[], run).Allowed? then past + [e.now] else past
  }

  // ---------------------------------------------------------------- the sliding window

  /** The log kept for `ip`; an untracked client has none. */
  function Recorded(clients: Clients, ip: Ip): seq<nat> {
    if ip in clients then clients[ip].requests else []
  }

  /**
    * The kept log and the true history agree on the window that ends at `last`, although the
    * log has been trimmed and its client possibly evicted.
    */
  predicate Agrees(config: Config, log: seq<nat>, history: seq<nat>, last: nat) {
    Sorted(log) && NoLaterThan(log, last) && |log| <= config.maxRequests &&
    Sorted(history) && NoLaterThan(history, last) &&
    After(log, last - config.window) == After(history, last - config.window)
  }

  lemma {:induction false} AgreesLater(config: Config, log: seq<nat>, history: seq<nat>, last: nat, now: nat)
    requires Agrees(config, log, history, last) && last <= now
    ensures Agrees(config, log, history, now)
  {
    AfterTwice(log, last - config.window, now - config.window);
    AfterTwice(history, last - config.window, now - config.window);
  }

  lemma {:induction false} AgreesTrimmed(config: Config, log: seq<nat>, history: seq<nat>, now: nat)
    requires Agrees(config, log, history, now)
    ensures Agrees(config, Trim(config, log, now), history, now)
    ensures Trim(config, log, now) == After(history, now - config.window)
  {
    hide After, Sorted, NoLaterThan;
    TrimIsAfter(config, log, now);
    AfterKeeps(log, now - config.window, now);
    AfterTwice(log, now - config.window, now - config.window);
  }

  lemma SortedSnoc(ts: seq<nat>, now: nat)
    requires Sorted(ts) && NoLaterThan(ts, now)
    ensures Sorted(ts + [now]) && NoLaterThan(ts + [now], now)
  {
  }

  lemma {:induction false} AgreesSnoc(config: Config, log: seq<nat>, history: seq<nat>, now: nat)
    requires Agrees(config, log, history, now) && |log| < config.maxRequests
    ensures Agrees(config, log + [now], history + [now], now)
  {
    SortedSnoc(log, now);
    SortedSnoc(history, now);
    AfterSnoc(log, now, now - config.window);
    AfterSnoc(history, now, now - config.window);
  }

  /** A client a sweep drops has nothing left in the window. */
  lemma {:induction false} AgreesEvicted(config: Config, client: Client, history: seq<nat>, now: nat)
    requires Agrees(config, client.requests, history, now)
    requires config.window * 2 <= now && Expired(client, now - config.window * 2)
    ensures Agrees(config, [], history, now)
  {
    AfterNone(client.requests, now - config.window);
  }

  lemma {:induction false} RequestKeepsAgreement(
    config: Config, clients: Clients, who: Ip, ip: Ip, now: nat, history: seq<nat>)
    requires Agrees(config, Recorded(clients, ip), history, now)
    ensures var reply := RequestStep(config, clients, who, now);
            Agrees(config, Recorded(reply.clients, ip),
                   if who == ip && reply.verdict.Allowed? then history + [now] else history, now)
  {
    if who == ip && Admissible(clients, ip) {
      var log := Recorded(clients, ip);
      assert Entry(config, clients, ip, now).requests == log;
      AgreesTrimmed(config, log, history, now);
      if |Trim(config, log, now)| < config.maxRequests {
        AgreesSnoc(config, Trim(config, log, now), history, now);
      }
    }
  }

  lemma {:induction false} CleanupKeepsAgreement(config: Config, clients: Clients, ip: Ip, now: nat, history: seq<nat>)
    requires Agrees(config, Recorded(clients, ip), history, now)
    ensures Agrees(config, Recorded(CleanupStep(config, clients, now), ip), history, now)
  {
    if config.window * 2 <= now && ip in clients && Expired(clients[ip], now - config.window * 2) {
      AgreesEvicted(config, clients[ip], history, now);
    }
  }

  lemma {:induction false} CallKeepsAgreement(config: Config, clients: Clients, e: Event, ip: Ip, history: seq<nat>)
    requires Agrees(config, Recorded(clients, ip), history, e.now)
    ensures var reply := Perform(config, clients, e);
            Agrees(config, Recorded(reply.clients, ip),
                   if e.call == Request(ip) && reply.verdict.Allowed? then history + [e.now] else history, e.now)
  {
    hide Agrees, RequestStep, CleanupStep;
    match e.call {
      case Request(who) => RequestKeepsAgreement(config, clients, who, ip, e.now, history);
      case Cleanup => CleanupKeepsAgreement(config, clients, ip, e.now, history);
      case Open(_) =>
      case Close(_) =>
      case Message(_, _) =>
    }
  }

  /** In every reachable state the kept log stands for the true history. */
  lemma {:induction false} LogStandsForHistory(config: Config, run: seq<Event>, ip: Ip, last: nat)
    requires Chronological(run, last)
    ensures Agrees(config, Recorded(Final(config, map[], run), ip), Accepted(config, run, ip), last)
  {
    if run == [] {
      assert Agrees(config, [], [], last);
    } else {
      hide Agrees, Perform, Recorded;
      var before, e := run[..|run| - 1], run[|run| - 1];
      LogStandsForHistory(config, before, ip, e.now);
      CallKeepsAgreement(config, Final(config, map[], before), e, ip, Accepted(config, before, ip));
      AgreesLater(config, Recorded(Final(config, map[], run), ip), Accepted(config, run, ip), e.now, last);
    }
  }

  /**
    * Exactness: in every reachable state a request is accepted exactly when its client is
    * tracked or there is room to track it, and fewer than the limit were accepted in the
    * window that ends now.
    */
  lemma {:induction false} RequestExact(config: Config, run: seq<Event>, ip: Ip, now: nat)
    requires Chronological(run, now)
    ensures RequestStep(config, Final(config, map[], run), ip, now).verdict.Allowed?
       <==> Admissible(Final(config, map[], run), ip)
            && Count(Accepted(config, run, ip), now - config.window, now) < config.maxRequests
  {
    var clients := Final(config, map[], run);
    LogStandsForHistory(config, run, ip, now);
    AgreesTrimmed(config, Recorded(clients, ip), Accepted(config, run, ip), now);
    CountIsAfter(Accepted(config, run, ip), now - config.window, now);
    assert Entry(config, clients, ip, now).requests == Recorded(clients, ip);
  }

  /** Any interval (from, from + window] holds at most the limit of accepted requests. */
  lemma {:induction false} SlidingWindowBound(config: Config, run: seq<Event>, last: nat, ip: Ip, from: int)
    requires Chronological(run, last)
    ensures Count(Accepted(config, run, ip), from, from + config.window) <= config.maxRequests
  {
    if run != [] {
      var before, e := run[..|run| - 1], run[|run| - 1];
      SlidingWindowBound(config, before, e.now, ip, from);
      if e.call == Request(ip) && Answer(config, map[], run).Allowed? {
        AcceptKeepsBound(config, before, ip, e.now, from);
      }
    }
  }

  lemma {:induction false} AcceptKeepsBound(config: Config, run: seq<Event>, ip: Ip, now: nat, from: int)
    requires Chronological(run, now)
    requires RequestStep(config, Final(config, map[], run), ip, now).verdict.Allowed?
    requires Count(Accepted(config, run, ip), from, from + config.window) <= config.maxRequests
    ensures Count(Accepted(config, run, ip) + [now], from, from + config.window) <= config.maxRequests
  {
    var history := Accepted(config, run, ip);
    CountSnoc(history, now, from, from + config.window);
    RequestExact(config, run, ip, now);
    LogStandsForHistory(config, run, ip, now);
    if from < now <= from + config.window {
      WindowEndsLatest(history, from, from + config.window, now, config.window);
    }
  }

  lemma {:induction false} WindowEndsLatest(history: seq<nat>, from: int, to: int, now: nat, window: nat)
    requires NoLaterThan(history, now) && now <= to == from + window
    ensures Count(history, from, to) <= Count(history, now - window, now)
  {
    CountAtMostAfter(history, from, to);
    CountIsAfter(history, from, now);
    CountMonotone(history, from, now, now - window, now);
  }

  /** One interval of one run holds at most the limit. */
  predicate Within(config: Config, run: seq<Event>, ip: Ip, from: int, span: nat) {
    Count(Accepted(config, run, ip), from, from + span) <= config.maxRequests
  }

  /** No run puts more than the limit of accepted requests of one client in a span. */
  ghost predicate SpanBounded(config: Config, span: nat) {
    forall run, last, ip, from :: Chronological(run, last) ==> Within(config, run, ip, from, span)
  }

  /**
    * The window is the longest span the limit holds for: a span one nanosecond longer takes
    * in both a full burst and the request its expiry admits.
    */
  lemma {:induction false} SpanBoundedIff(config: Config, span: nat)
    ensures SpanBounded(config, span) <==> span <= config.window || config.maxRequests == 0
  {
    if span <= config.window || config.maxRequests == 0 {
      forall run, last, ip, from | Chronological(run, last)
        ensures Within(config, run, ip, from, span)
      {
        ShorterSpan(config, run, last, ip, from, span);
      }
    } else {
      LongerSpan(config, span);
    }
  }

  lemma {:induction false} ShorterSpan(config: Config, run: seq<Event>, last: nat, ip: Ip, from: int, span: nat)
    requires Chronological(run, last)
    requires span <= config.window || config.maxRequests == 0
    ensures Within(config, run, ip, from, span)
  {
    if span <= config.window {
      SlidingWindowBound(config, run, last, ip, from);
      CountMonotone(Accepted(config, run, ip), from, from + span, from, from + config.window);
    } else {
      NothingAccepted(config, run, ip);
    }
  }

  lemma {:induction false} NothingAccepted(config: Config, run: seq<Event>, ip: Ip)
    requires config.maxRequests == 0
    ensures Accepted(config, run, ip) == []
  {
    if run != [] { NothingAccepted(config, run[..|run| - 1], ip); }
  }

  /** Client 0 alone makes `n` requests at instant 0, all accepted. */
  lemma {:induction false} Burst(config: Config, n: nat) returns (run: seq<Event>)
    requires n <= config.maxRequests
    ensures Chronological(run, 0)
    ensures |Accepted(config, run, 0)| == n
    ensures Final(config, map[], run).Keys <= {0}
  {
    run := [];
    if n > 0 {
      var before := Burst(config, n - 1);
      CountAtMostLength(Accepted(config, before, 0), 0 - config.window, 0);
      run := OneMore(config, before, 0, 0);
    }
  }

  /** Extends a run of client 0 alone by one request that is due. */
  lemma {:induction false} OneMore(config: Config, run: seq<Event>, last: nat, now: nat) returns (longer: seq<Event>)
    requires Chronological(run, last) && last <= now && Final(config, map[], run).Keys <= {0}
    requires Count(Accepted(config, run, 0), now - config.window, now) < config.maxRequests
    ensures Chronological(longer, now)
    ensures Accepted(config, longer, 0) == Accepted(config, run, 0) + [now]
    ensures Final(config, map[], longer).Keys <= {0}
  {
    longer := run + [Event(now, Request(0))];
    assert longer[..|run|] == run;
    SmallTable(Final(config, map[], run));
    RequestExact(config, run, 0, now);
  }

  lemma SmallTable(clients: Clients)
    requires clients.Keys <= {0}
    ensures Admissible(clients, 0)
  {
    if 0 !in clients { assert clients.Keys == {}; assert |clients| == |clients.Keys|; }
  }

  lemma {:induction false} CountAtMostLength(ts: seq<nat>, from: int, to: int)
    ensures Count(ts, from, to) <= |ts|
  {
    if ts != [] { CountAtMostLength(ts[..|ts| - 1], from, to); }
  }

  /** A full burst at instant 0, then the request admitted when it expires. */
  lemma {:induction false} LongerSpan(config: Config, span: nat)
    requires span > config.window && config.maxRequests > 0
    ensures !SpanBounded(config, span)
  {
    var run := Burst(config, config.maxRequests);
    var history := Accepted(config, run, 0);
    LogStandsForHistory(config, run, 0, 0);
    BurstCounts(history, config.window, span);
    var longer := OneMore(config, run, 0, config.window);
    CountSnoc(history, config.window, -1, -1 + span);
    assert !Within(config, longer, 0, -1, span);
  }

  lemma {:induction false} BurstCounts(history: seq<nat>, window: nat, span: nat)
    requires NoLaterThan(history, 0) && span > window
    ensures Count(history, 0, window) == 0
    ensures Count(history, -1, -1 + span) == |history|
  {
    CountIsAfter(history, 0, window);
    AfterNone(history, 0);
    CountIsAfter(history, -1, -1 + span);
    AfterAll(history, -1);
  }
}
