/** The sliding-window limiter of the REST API. Instants are nanoseconds of a monotone clock. */
module RateLimiter {

  const WINDOW: int := 60_000_000_000

  datatype Endpoint = General | Upload | Cado | Health

  datatype Config = Config(general: nat, upload: nat, cado: nat, health: nat, enabled: bool) {
    function Limit(e: Endpoint): nat {
      match e
      case General => general
      case Upload => upload
      case Cado => cado
      case Health => health
    }
  }

  datatype Request = Request(client: string, endpoint: Endpoint, now: int)

  /** The entries no older than the window, in order. */
  function Recent(now: int, log: seq<int>): seq<int> {
    if log == [] then []
    else
      var n := |log| - 1;
      if now - log[n] <= WINDOW then Recent(now, log[..n]) + [log[n]] else Recent(now, log[..n])
  }

  function Lookup(clients: map<string, seq<int>>, client: string): seq<int> {
    if client in clients then clients[client] else []
  }

  function Admit(config: Config, clients: map<string, seq<int>>, r: Request): bool {
    !config.enabled || |Recent(r.now, Lookup(clients, r.client))| < config.Limit(r.endpoint)
  }

  /** The requesting client's log pruned, with the request appended if it is let in. */
  function After(config: Config, clients: map<string, seq<int>>, r: Request): map<string, seq<int>> {
    if !config.enabled then clients
    else
      var kept := Recent(r.now, Lookup(clients, r.client));
      clients[r.client := if Admit(config, clients, r) then kept + [r.now] else kept]
  }

  class RateLimitState {
    var clients: map<string, seq<int>>
    const config: Config

    constructor (config: Config)
      ensures clients == map[] && this.config == config
    {
      this.clients := map[];
      this.config := config;
    }

    method IsAllowed(client: string, endpoint: Endpoint, now: int) returns (allowed: bool)
      modifies this
      ensures allowed == Admit(config, old(clients), Request(client, endpoint, now))
      ensures clients == After(config, old(clients), Request(client, endpoint, now))
    {
      if !config.enabled {
        return true;
      }
      var maxRequests := config.Limit(endpoint);
      var log := Lookup(clients, client);
      var kept: seq<int> := [];
      for i := 0 to |log|
        invariant kept == Recent(now, log[..i])
      {
        assert log[..i + 1][..i] == log[..i];
        if now - log[i] <= WINDOW {
          kept := kept + [log[i]];
        }
      }
      assert log[..|log|] == log;
      if |kept| < maxRequests {
        clients := clients[client := kept + [now]];
        allowed := true;
      } else {
        clients := clients[client := kept];
        allowed := false;
      }
    }
  }

  // ----- Whole runs, against the unpruned history -----

  /** The limiter's state after serving `reqs` from the start. */
  function Serve(config: Config, reqs: seq<Request>): map<string, seq<int>> {
    if reqs == [] then map[]
    else After(config, Serve(config, reqs[..|reqs| - 1]), reqs[|reqs| - 1])
  }

  /** The reference: accept when fewer than the limit of this client's accepted requests lie in the window. */
  predicate Deserves(config: Config, past: seq<Request>, r: Request)
    decreases |past|, 1
  {
    !config.enabled || |Recent(r.now, History(config, past, r.client))| < config.Limit(r.endpoint)
  }

  /** All instants at which the client was accepted, nothing ever pruned. */
  function History(config: Config, past: seq<Request>, client: string): seq<int>
    decreases |past|, 0
  {
    if past == [] then []
    else
      var n := |past| - 1;
      var r := past[n];
      var before := History(config, past[..n], client);
      if r.client == client && Deserves(config, past[..n], r) then before + [r.now] else before
  }

  /** The requests come in clock order, none after `now`. */
  ghost predicate InOrder(reqs: seq<Request>, now: int) {
    && (forall i, j :: 0 <= i < j < |reqs| ==> reqs[i].now <= reqs[j].now)
    && (forall i :: 0 <= i < |reqs| ==> reqs[i].now <= now)
  }

  /** Pruning earlier does not change what is recent later. */
  lemma {:induction false} RecentOfRecent(earlier: int, later: int, log: seq<int>)
    requires earlier <= later
    ensures Recent(later, Recent(earlier, log)) == Recent(later, log)
    decreases |log|
  {
    if log != [] {
      var n := |log| - 1;
      RecentOfRecent(earlier, later, log[..n]);
      RecentSnoc(later, Recent(earlier, log[..n]), log[n]);
    }
  }

  lemma RecentSnoc(now: int, log: seq<int>, t: int)
    ensures Recent(now, log + [t]) == if now - t <= WINDOW then Recent(now, log) + [t] else Recent(now, log)
  {
    assert (log + [t])[..|log|] == log;
  }

  lemma Unfold(config: Config, reqs: seq<Request>, client: string)
    requires config.enabled && reqs != []
    ensures var n := |reqs| - 1;
            var before := History(config, reqs[..n], client);
            && Serve(config, reqs) == After(config, Serve(config, reqs[..n]), reqs[n])
            && History(config, reqs, client) ==
               if reqs[n].client == client && |Recent(reqs[n].now, before)| < config.Limit(reqs[n].endpoint)
               then before + [reqs[n].now] else before
  {
  }

  /** One request of the client itself: agreement now and at the request carries over. */
  lemma StepAgrees(config: Config, clients: map<string, seq<int>>, history: seq<int>, r: Request, now: int)
    requires config.enabled && r.now <= now
    requires Recent(now, Lookup(clients, r.client)) == Recent(now, history)
    requires Recent(r.now, Lookup(clients, r.client)) == Recent(r.now, history)
    ensures Recent(now, Lookup(After(config, clients, r), r.client)) ==
            Recent(now, if |Recent(r.now, history)| < config.Limit(r.endpoint) then history + [r.now] else history)
  {
    var log := Lookup(clients, r.client);
    RecentOfRecent(r.now, now, log);
    RecentSnoc(now, Recent(r.now, log), r.now);
    RecentSnoc(now, history, r.now);
  }

  lemma OthersKeepLog(config: Config, clients: map<string, seq<int>>, r: Request, client: string)
    requires r.client != client
    ensures Lookup(After(config, clients, r), client) == Lookup(clients, client)
  {
  }

  lemma InOrderBefore(reqs: seq<Request>, now: int)
    requires InOrder(reqs, now) && reqs != []
    ensures var n := |reqs| - 1;
            InOrder(reqs[..n], now) && InOrder(reqs[..n], reqs[n].now) && reqs[n].now <= now
  {
  }

  /** At any instant not before the last request, pruned log and full history look the same. */
  lemma {:induction false} PrunedLogAgrees(config: Config, reqs: seq<Request>, client: string, now: int)
    requires config.enabled && InOrder(reqs, now)
    ensures Recent(now, Lookup(Serve(config, reqs), client)) == Recent(now, History(config, reqs, client))
    decreases |reqs|
  {
    if reqs != [] {
      var n := |reqs| - 1;
      var past, r := reqs[..n], reqs[n];
      var clients, history := Serve(config, past), History(config, past, client);
      InOrderBefore(reqs, now);
      PrunedLogAgrees(config, past, client, now);
      Unfold(config, reqs, client);
      if r.client == client {
        PrunedLogAgrees(config, past, client, r.now);
        StepAgrees(config, clients, history, r, now);
      } else {
        OthersKeepLog(config, clients, r, client);
      }
    }
  }

  /**
   Over any run of a monotone clock, the limiter accepts a request exactly when fewer than its limit
   of the client's accepted requests lie in the last sixty seconds.
   */
  lemma VerdictsAgreeWithHistory(config: Config, past: seq<Request>, r: Request)
    requires InOrder(past, r.now)
    ensures Admit(config, Serve(config, past), r) <==> Deserves(config, past, r)
  {
    if config.enabled {
      PrunedLogAgrees(config, past, r.client, r.now);
    }
  }

  /** The instants at which the limiter itself let the client in. */
  function Admitted(config: Config, reqs: seq<Request>, client: string): seq<int> {
    if reqs == [] then []
    else
      var n := |reqs| - 1;
      var r := reqs[n];
      var before := Admitted(config, reqs[..n], client);
      if r.client == client && Admit(config, Serve(config, reqs[..n]), r) then before + [r.now] else before
  }

  ghost predicate Monotone(reqs: seq<Request>) {
    forall i, j :: 0 <= i < j < |reqs| ==> reqs[i].now <= reqs[j].now
  }

  /** Over any run of a monotone clock, what the limiter admits is what the history says. */
  lemma {:induction false} AdmittedIsHistory(config: Config, reqs: seq<Request>, client: string)
    requires Monotone(reqs)
    ensures Admitted(config, reqs, client) == History(config, reqs, client)
    decreases |reqs|
  {
    if reqs != [] {
      var n := |reqs| - 1;
      AdmittedIsHistory(config, reqs[..n], client);
      VerdictsAgreeWithHistory(config, reqs[..n], reqs[n]);
    }
  }

  function CountBetween(log: seq<int>, lo: int, hi: int): nat {
    if log == [] then 0
    else CountBetween(log[..|log| - 1], lo, hi) + if lo <= log[|log| - 1] <= hi then 1 else 0
  }

  /** Whatever lies in an interval of window length ending no earlier than `now` is recent at `now`. */
  lemma {:induction false} CountBetweenRecent(log: seq<int>, lo: int, now: int)
    requires now <= lo + WINDOW
    ensures CountBetween(log, lo, lo + WINDOW) <= |Recent(now, log)|
    decreases |log|
  {
    if log != [] {
      CountBetweenRecent(log[..|log| - 1], lo, now);
    }
  }

  // ----- Counting the requests themselves -----

  /** Request `i` of the run is the client's, was let in, and came between two instants. */
  ghost predicate AdmittedAt(config: Config, reqs: seq<Request>, client: string, lo: int, hi: int, i: nat) {
    i < |reqs| && reqs[i].client == client && Admit(config, Serve(config, reqs[..i]), reqs[i]) && lo <= reqs[i].now <= hi
  }

  /** The requests of `client` that the limiter let in between two instants, by position in the run. */
  ghost function AdmittedBetween(config: Config, reqs: seq<Request>, client: string, lo: int, hi: int): set<nat> {
    set i | 0 <= i < |reqs| && AdmittedAt(config, reqs, client, lo, hi, i)
  }

  lemma AdmittedSnoc(config: Config, reqs: seq<Request>, client: string, lo: int, hi: int)
    requires reqs != []
    ensures var n := |reqs| - 1;
            var before := AdmittedBetween(config, reqs[..n], client, lo, hi);
            && n !in before
            && AdmittedBetween(config, reqs, client, lo, hi) ==
               if AdmittedAt(config, reqs, client, lo, hi, n) then before + {n} else before
  {
    var n := |reqs| - 1;
    forall i | 0 <= i < n
      ensures AdmittedAt(config, reqs[..n], client, lo, hi, i) <==> AdmittedAt(config, reqs, client, lo, hi, i)
    {
      assert reqs[..n][..i] == reqs[..i];
    }
  }

  lemma {:induction false} AdmittedAreCounted(config: Config, reqs: seq<Request>, client: string, lo: int, hi: int)
    ensures |AdmittedBetween(config, reqs, client, lo, hi)| == CountBetween(Admitted(config, reqs, client), lo, hi)
    decreases |reqs|
  {
    if reqs != [] {
      var n := |reqs| - 1;
      AdmittedAreCounted(config, reqs[..n], client, lo, hi);
      AdmittedSnoc(config, reqs, client, lo, hi);
      CountSnoc(Admitted(config, reqs[..n], client), reqs[n].now, lo, hi);
    }
  }

  lemma CountSnoc(log: seq<int>, t: int, lo: int, hi: int)
    ensures CountBetween(log + [t], lo, hi) == CountBetween(log, lo, hi) + if lo <= t <= hi then 1 else 0
  {
    assert (log + [t])[..|log|] == log;
  }

  lemma {:induction false} RecentIsCount(log: seq<int>, now: int)
    requires forall i :: 0 <= i < |log| ==> log[i] <= now
    ensures |Recent(now, log)| == CountBetween(log, now - 60_000_000_000, now)
  {
    if log != [] {
      RecentIsCount(log[..|log| - 1], now);
    }
  }

  lemma {:induction false} AdmittedNotLater(config: Config, reqs: seq<Request>, client: string, now: int)
    requires forall i :: 0 <= i < |reqs| ==> reqs[i].now <= now
    ensures forall i :: 0 <= i < |Admitted(config, reqs, client)| ==> Admitted(config, reqs, client)[i] <= now
    decreases |reqs|
  {
    if reqs != [] {
      AdmittedNotLater(config, reqs[..|reqs| - 1], client, now);
    }
  }

  /** What the limiter compares with the limit: how many of the client's requests it let in in the last minute. */
  lemma LogCountsLastMinute(config: Config, past: seq<Request>, client: string, now: int)
    requires config.enabled && InOrder(past, now)
    ensures |Recent(now, Lookup(Serve(config, past), client))| == |AdmittedBetween(config, past, client, now - 60_000_000_000, now)|
  {
    PrunedLogAgrees(config, past, client, now);
    AdmittedIsHistory(config, past, client);
    AdmittedNotLater(config, past, client, now);
    RecentIsCount(Admitted(config, past, client), now);
    AdmittedAreCounted(config, past, client, now - 60_000_000_000, now);
  }

  /**
   Each kind of request against its own limit: it is admitted exactly when fewer than that many of the
   client's requests were let in during the last sixty seconds.
   */
  lemma EachEndpointHasItsLimit(config: Config, past: seq<Request>, client: string, now: int)
    requires config.enabled && InOrder(past, now)
    ensures var clients, recent := Serve(config, past), |AdmittedBetween(config, past, client, now - 60_000_000_000, now)|;
            && (Admit(config, clients, Request(client, General, now)) <==> recent < config.general)
            && (Admit(config, clients, Request(client, Upload, now)) <==> recent < config.upload)
            && (Admit(config, clients, Request(client, Cado, now)) <==> recent < config.cado)
            && (Admit(config, clients, Request(client, Health, now)) <==> recent < config.health)
  {
    LogCountsLastMinute(config, past, client, now);
  }

  /** With the limiter switched off everything is admitted and nothing is recorded. */
  lemma SwitchedOffAdmitsAll(config: Config, reqs: seq<Request>, r: Request)
    requires !config.enabled
    ensures Admit(config, Serve(config, reqs), r)
  {
  }

  /** No interval of sixty seconds holds more admitted requests of one client than the largest limit. */
  lemma NoIntervalExceedsLimit(config: Config, reqs: seq<Request>, client: string, lo: int, m: nat)
    requires config.enabled && Monotone(reqs) && forall i :: 0 <= i < |reqs| ==> config.Limit(reqs[i].endpoint) <= m
    ensures |AdmittedBetween(config, reqs, client, lo, lo + 60_000_000_000)| <= m
  {
    AdmittedIsHistory(config, reqs, client);
    HistoryStaysWithinLimit(config, reqs, client, lo, m);
    AdmittedAreCounted(config, reqs, client, lo, lo + 60_000_000_000);
  }

  /** Among requests of one kind, no more than that kind's own limit. */
  lemma NoIntervalExceedsOwnLimit(config: Config, reqs: seq<Request>, client: string, lo: int, endpoint: Endpoint)
    requires config.enabled && Monotone(reqs) && forall i :: 0 <= i < |reqs| ==> reqs[i].endpoint == endpoint
    ensures |AdmittedBetween(config, reqs, client, lo, lo + 60_000_000_000)| <=
            match endpoint case General => config.general case Upload => config.upload case Cado => config.cado case Health => config.health
  {
    NoIntervalExceedsLimit(config, reqs, client, lo, config.Limit(endpoint));
  }

  lemma {:induction false} HistoryStaysWithinLimit(config: Config, reqs: seq<Request>, client: string, lo: int, m: nat)
    requires config.enabled && forall i :: 0 <= i < |reqs| ==> config.Limit(reqs[i].endpoint) <= m
    ensures CountBetween(History(config, reqs, client), lo, lo + WINDOW) <= m
    decreases |reqs|
  {
    if reqs != [] {
      var n := |reqs| - 1;
      var past, r := reqs[..n], reqs[n];
      var before := History(config, past, client);
      HistoryStaysWithinLimit(config, past, client, lo, m);
      if r.client == client && Deserves(config, past, r) {
        assert (before + [r.now])[..|before|] == before;
        if lo <= r.now <= lo + WINDOW {
          CountBetweenRecent(before, lo, r.now);
        }
      }
    }
  }

  function OnlyClient(reqs: seq<Request>, client: string): seq<Request> {
    if reqs == [] then []
    else
      var n := |reqs| - 1;
      var before := OnlyClient(reqs[..n], client);
      if reqs[n].client == client then before + [reqs[n]] else before
  }

  lemma {:induction false} HistoryIsOwn(config: Config, reqs: seq<Request>, client: string)
    ensures History(config, reqs, client) == History(config, OnlyClient(reqs, client), client)
    decreases |reqs|
  {
    if reqs != [] {
      var n := |reqs| - 1;
      HistoryIsOwn(config, reqs[..n], client);
      if reqs[n].client == client {
        var own := OnlyClient(reqs[..n], client);
        assert (own + [reqs[n]])[..|own|] == own;
      }
    }
  }

  /** Other clients' requests never change a verdict. */
  lemma ClientsAreIndependent(config: Config, past: seq<Request>, r: Request)
    requires InOrder(past, r.now)
    ensures Admit(config, Serve(config, past), r) <==> Admit(config, Serve(config, OnlyClient(past, r.client)), r)
  {
    VerdictsAgreeWithHistory(config, past, r);
    HistoryIsOwn(config, past, r.client);
    OnlyClientInOrder(past, r.client, r.now);
    VerdictsAgreeWithHistory(config, OnlyClient(past, r.client), r);
  }

  lemma {:induction false} OnlyClientInOrder(past: seq<Request>, client: string, now: int)
    requires InOrder(past, now)
    ensures InOrder(OnlyClient(past, client), now)
    decreases |past|
  {
    if past != [] {
      var n := |past| - 1;
      OnlyClientInOrder(past[..n], client, past[n].now);
    }
  }
}
