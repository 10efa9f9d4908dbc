/**
 The token-bucket rate limiter: one bucket per client address, refilled with time, spent by
 cost, forgotten after a time without requests. Time is read before the lock is taken and
 subtraction of instants saturates at zero.
 */
module RateLimiter {
  type Address = string

  datatype Config = Config(rate: real, burst: nat, ttl: real)

  predicate Sane(cfg: Config) {
    cfg.rate >= 0.0 && cfg.ttl >= 0.0
  }

  datatype TokenBucket = TokenBucket(tokens: real, lastRefill: real)

  datatype Attempt = Attempt(allowed: bool, bucket: TokenBucket)

  function Capacity(cfg: Config): real {
    cfg.burst as real
  }

  function Elapsed(now: real, since: real): real {
    if now > since then now - since else 0.0
  }

  function Refilled(cfg: Config, b: TokenBucket, now: real): real {
    var tokens := b.tokens + cfg.rate * Elapsed(now, b.lastRefill);
    if tokens < Capacity(cfg) then tokens else Capacity(cfg)
  }

  function TryConsume(cfg: Config, b: TokenBucket, now: real, cost: real): Attempt {
    var tokens := Refilled(cfg, b, now);
    if tokens >= cost then Attempt(true, TokenBucket(tokens - cost, now)) else Attempt(false, TokenBucket(tokens, now))
  }

  // ---------------------------------------------------------------------------
  // One bucket
  // ---------------------------------------------------------------------------

  datatype Request = Request(time: real, cost: nat)

  predicate InOrder(h: seq<Request>) {
    forall i, j :: 0 <= i < j < |h| ==> h[i].time <= h[j].time
  }

  /** The bucket after a history of requests; it is created full by the first one. */
  function BucketAfter(cfg: Config, h: seq<Request>): TokenBucket
    requires h != []
    decreases |h|, 0
  {
    var r := h[|h| - 1];
    TryConsumeLevel(Level(cfg, h[..|h| - 1], r.time), r)
  }

  function TryConsumeLevel(level: real, r: Request): TokenBucket {
    TokenBucket(if level >= r.cost as real then level - r.cost as real else level, r.time)
  }

  /** What a request at time `now` finds in the bucket. */
  function Level(cfg: Config, h: seq<Request>, now: real): real
    decreases |h|, 1
  {
    if h == [] then Capacity(cfg) else Refilled(cfg, BucketAfter(cfg, h), now)
  }

  predicate Admitted(cfg: Config, h: seq<Request>, i: nat)
    requires i < |h|
  {
    Level(cfg, h[..i], h[i].time) >= h[i].cost as real
  }

  /** The cost admitted by the requests from index j on. */
  function Spent(cfg: Config, h: seq<Request>, j: nat): real
    requires j <= |h|
  {
    if j == |h| then 0.0
    else Spent(cfg, h[..|h| - 1], j) + if Admitted(cfg, h, |h| - 1) then h[|h| - 1].cost as real else 0.0
  }

  /** The time that passed forwards from request j to now. The refill counts each step between
      two requests as its length, or as nothing when the clock was read out of order. */
  function Travel(h: seq<Request>, j: nat, now: real): (r: real)
    requires j <= |h|
    ensures r >= 0.0
  {
    if j == |h| then 0.0
    else Travel(h[..|h| - 1], j, h[|h| - 1].time) + Elapsed(now, h[|h| - 1].time)
  }

  /** What a window of the given length may admit. */
  function Allowance(cfg: Config, length: real): real {
    Capacity(cfg) + cfg.rate * length
  }

  /** What the window starting at request j still allows at time `now`. */
  function Budget(cfg: Config, h: seq<Request>, j: nat, now: real): real
    requires j <= |h|
  {
    Allowance(cfg, Travel(h, j, now)) - Spent(cfg, h, j)
  }

  /** What the last request of the history was charged. */
  function Charged(cfg: Config, h: seq<Request>): real
    requires h != []
  {
    if Admitted(cfg, h, |h| - 1) then h[|h| - 1].cost as real else 0.0
  }

  lemma Distribute(rate: real, a: real, b: real)
    ensures rate * (a + b) == rate * a + rate * b
  {
  }

  /** A further request takes its cost out of every window that contains it. */
  lemma BudgetStep(cfg: Config, h: seq<Request>, j: nat, now: real)
    requires h != [] && j < |h|
    ensures var r, h' := h[|h| - 1], h[..|h| - 1];
            Budget(cfg, h, j, now) == Budget(cfg, h', j, r.time) + cfg.rate * Elapsed(now, r.time) - Charged(cfg, h)
  {
    var r, h' := h[|h| - 1], h[..|h| - 1];
    Distribute(cfg.rate, Travel(h', j, r.time), Elapsed(now, r.time));
  }

  /** Between two requests the bucket gains rate * time and is cut off at the capacity. */
  lemma LevelStep(cfg: Config, h: seq<Request>, now: real)
    requires h != []
    ensures var r, h' := h[|h| - 1], h[..|h| - 1];
            var gained := Level(cfg, h', r.time) - Charged(cfg, h) + cfg.rate * Elapsed(now, r.time);
            Level(cfg, h, now) == if gained < Capacity(cfg) then gained else Capacity(cfg)
  {
    var r, h' := h[|h| - 1], h[..|h| - 1];
    assert BucketAfter(cfg, h) == TokenBucket(Level(cfg, h', r.time) - Charged(cfg, h), r.time);
  }

  lemma {:induction false} LevelAtMostBudget(cfg: Config, h: seq<Request>, now: real, j: nat)
    requires j <= |h|
    ensures Level(cfg, h, now) <= Budget(cfg, h, j, now)
    decreases |h|
  {
    if h != [] {
      LevelStep(cfg, h, now);
      if j < |h| {
        LevelAtMostBudget(cfg, h[..|h| - 1], h[|h| - 1].time, j);
        BudgetStep(cfg, h, j, now);
      }
    }
  }

  lemma {:induction false} LevelIsSomeBudget(cfg: Config, h: seq<Request>, now: real) returns (best: nat)
    ensures best <= |h| && Level(cfg, h, now) == Budget(cfg, h, best, now)
    decreases |h|
  {
    best := |h|;
    if h != [] {
      LevelStep(cfg, h, now);
      if Level(cfg, h, now) != Capacity(cfg) {
        best := LevelIsSomeBudget(cfg, h[..|h| - 1], h[|h| - 1].time);
        BudgetStep(cfg, h, best, now);
      }
    }
  }

  /** The window from request j to the one being decided stays within burst + rate * length. */
  predicate WithinWindow(cfg: Config, h: seq<Request>, now: real, cost: nat, j: nat)
    requires j <= |h|
  {
    Spent(cfg, h, j) + cost as real <= Allowance(cfg, Travel(h, j, now))
  }

  /** A request is admitted exactly when every window that ends with it stays within
      burst + rate * length, in whatever order the clock was read. */
  lemma AdmittedIff(cfg: Config, h: seq<Request>, now: real, cost: nat)
    ensures Level(cfg, h, now) >= cost as real <==> forall j :: 0 <= j <= |h| ==> WithinWindow(cfg, h, now, cost, j)
  {
    var best := LevelIsSomeBudget(cfg, h, now);
    assert WithinWindow(cfg, h, now, cost, best) <==> Level(cfg, h, now) >= cost as real;
    if Level(cfg, h, now) >= cost as real {
      forall j | 0 <= j <= |h| ensures WithinWindow(cfg, h, now, cost, j) {
        LevelAtMostBudget(cfg, h, now, j);
      }
    }
  }

  lemma NotNegative(rate: real, a: real)
    requires rate >= 0.0 && a >= 0.0
    ensures rate * a >= 0.0
  {
  }

  lemma Monotone(rate: real, a: real, b: real)
    requires rate >= 0.0 && a <= b
    ensures rate * a <= rate * b
  {
  }

  lemma AllowanceGrows(cfg: Config, a: real, b: real)
    requires Sane(cfg) && 0.0 <= a <= b
    ensures 0.0 <= Allowance(cfg, a) <= Allowance(cfg, b)
  {
    NotNegative(cfg.rate, a);
    Monotone(cfg.rate, a, b);
  }

  lemma WindowOfAdmitted(cfg: Config, h: seq<Request>, i: nat)
    requires i < |h| && Admitted(cfg, h, |h| - 1)
    ensures Spent(cfg, h, i) <= Allowance(cfg, Travel(h, i, h[|h| - 1].time))
  {
    var last, h' := h[|h| - 1], h[..|h| - 1];
    AdmittedIff(cfg, h', last.time, last.cost);
    assert WithinWindow(cfg, h', last.time, last.cost, i);
    assert Travel(h, i, last.time) == Travel(h', i, last.time);
  }

  /** No window of any history admits more than burst + rate * the time that passed forwards
      during it. */
  lemma {:induction false} WindowBound(cfg: Config, h: seq<Request>, i: nat)
    requires Sane(cfg) && i < |h|
    ensures Spent(cfg, h, i) <= Allowance(cfg, Travel(h, i, h[|h| - 1].time))
    decreases |h|
  {
    if Admitted(cfg, h, |h| - 1) {
      WindowOfAdmitted(cfg, h, i);
    } else {
      var h' := h[..|h| - 1];
      assert Spent(cfg, h, i) == Spent(cfg, h', i);
      if i < |h'| {
        WindowBound(cfg, h', i);
        EarlierTravel(h, i);
        AllowanceGrows(cfg, Travel(h', i, h'[|h'| - 1].time), Travel(h, i, h[|h| - 1].time));
      } else {
        AllowanceGrows(cfg, 0.0, Travel(h, i, h[|h| - 1].time));
      }
    }
  }

  lemma EarlierTravel(h: seq<Request>, i: nat)
    requires i < |h| - 1
    ensures var h' := h[..|h| - 1]; Travel(h', i, h'[|h'| - 1].time) <= Travel(h, i, h[|h| - 1].time)
  {
    var h', r := h[..|h| - 1], h[|h| - 1];
    assert Travel(h, i, r.time) == Travel(h', i, r.time) + Elapsed(r.time, r.time);
    assert Travel(h', i, h'[|h'| - 1].time) == Travel(h'[..|h'| - 1], i, h'[|h'| - 1].time);
  }

  // ---------------------------------------------------------------------------
  // A clock that is read in order
  // ---------------------------------------------------------------------------

  /** The times from request j on, and now, are in order. */
  predicate InOrderFrom(h: seq<Request>, j: nat, now: real) {
    && (forall i, i' :: j <= i < i' < |h| ==> h[i].time <= h[i'].time)
    && forall i :: j <= i < |h| ==> h[i].time <= now
  }

  lemma OrderStep(h: seq<Request>, j: nat, now: real)
    requires j < |h| - 1
    ensures var last := h[|h| - 1].time;
            InOrderFrom(h, j, now) <==> InOrderFrom(h[..|h| - 1], j, last) && last <= now
  {
    var h', last := h[..|h| - 1], h[|h| - 1].time;
    if InOrderFrom(h', j, last) && last <= now {
      assert forall i :: j <= i < |h'| ==> h[i].time == h'[i].time;
    }
    if InOrderFrom(h, j, now) {
      assert forall i :: j <= i < |h'| ==> h'[i].time == h[i].time;
    }
  }

  /** At least the plain time passes forwards, and exactly that if and only if the clock was
      read in order. */
  lemma {:induction false} TravelInOrder(h: seq<Request>, j: nat, now: real)
    requires j < |h|
    ensures Travel(h, j, now) >= now - h[j].time
    ensures Travel(h, j, now) == now - h[j].time <==> InOrderFrom(h, j, now)
    decreases |h|
  {
    if j < |h| - 1 {
      TravelInOrder(h[..|h| - 1], j, h[|h| - 1].time);
      OrderStep(h, j, now);
    } else {
      assert Travel(h[..j], j, h[j].time) == 0.0;
    }
  }

  /** So a window of a history taken in order admits at most burst + rate * its length. */
  lemma WindowBoundInOrder(cfg: Config, h: seq<Request>, i: nat)
    requires Sane(cfg) && InOrder(h) && i < |h|
    ensures Spent(cfg, h, i) <= Allowance(cfg, h[|h| - 1].time - h[i].time)
  {
    WindowBound(cfg, h, i);
    TravelInOrder(h, i, h[|h| - 1].time);
  }

  // ---------------------------------------------------------------------------
  // A clock that is read out of order
  // ---------------------------------------------------------------------------

  /** Three requests whose times were read in one order and took the lock in another. */
  function OutOfOrder(cfg: Config, t: real): seq<Request> {
    [Request(t, cfg.burst), Request(0.0, cfg.burst), Request(t, cfg.burst)]
  }

  /** The plain bound needs the order: a request whose time was read earlier moves the refill
      time back, and the next one finds the bucket full again. */
  lemma OutOfOrderBreaksBound(cfg: Config, t: real)
    requires Sane(cfg) && cfg.burst > 0 && t > 0.0 && cfg.rate * t >= Capacity(cfg)
    ensures var h := OutOfOrder(cfg, t);
            !InOrder(h) && Spent(cfg, h, 0) > Allowance(cfg, h[2].time - h[0].time)
  {
    var h := OutOfOrder(cfg, t);
    var h0, h1, h2: seq<Request> := [], [h[0]], [h[0], h[1]];
    assert h[..2] == h2 && h2[..1] == h1 && h1[..0] == h0 && h[..1] == h1 && h[..0] == h0;
    assert BucketAfter(cfg, h1) == TokenBucket(0.0, t);
    assert Level(cfg, h1, 0.0) == 0.0;
    assert BucketAfter(cfg, h2) == TokenBucket(0.0, 0.0);
    assert Elapsed(t, 0.0) == t;
    assert Level(cfg, h2, t) == Capacity(cfg);
    assert Admitted(cfg, h, 2) && Admitted(cfg, h1, 0) && !Admitted(cfg, h2, 1);
    assert Spent(cfg, h1, 0) == Spent(cfg, h0, 0) + Capacity(cfg);
    assert Spent(cfg, h2, 0) == Spent(cfg, h1, 0);
    assert Spent(cfg, h, 0) == Spent(cfg, h2, 0) + Capacity(cfg);
    assert h[0].time > h[1].time;
  }

  // ---------------------------------------------------------------------------
  // The limiter
  // ---------------------------------------------------------------------------

  datatype Entry = Entry(bucket: TokenBucket, lastAccess: real)

  datatype Event = Check(address: Address, now: real, cost: nat) | Cleanup(now: real)

  /** Whether a request is admitted by the buckets as they are. */
  predicate Decision(cfg: Config, buckets: map<Address, Entry>, address: Address, now: real, cost: nat) {
    Available(cfg, buckets, address, now) >= cost as real
  }

  /** What a request finds: the refilled bucket, or a full one when there is none. */
  function Available(cfg: Config, buckets: map<Address, Entry>, address: Address, now: real): real {
    if address in buckets then Refilled(cfg, buckets[address].bucket, now) else Capacity(cfg)
  }

  function Checked(cfg: Config, buckets: map<Address, Entry>, address: Address, now: real, cost: nat)
    : map<Address, Entry>
  {
    buckets[address := Entry(TryConsumeLevel(Available(cfg, buckets, address, now), Request(now, cost)), now)]
  }

  function Cleaned(cfg: Config, buckets: map<Address, Entry>, now: real): map<Address, Entry> {
    map a | a in buckets && Elapsed(now, buckets[a].lastAccess) < cfg.ttl :: buckets[a]
  }

  function After(cfg: Config, events: seq<Event>): map<Address, Entry> {
    if events == [] then map[]
    else
      var before := After(cfg, events[..|events| - 1]);
      match events[|events| - 1]
      case Check(address, now, cost) => Checked(cfg, before, address, now, cost)
      case Cleanup(now) => Cleaned(cfg, before, now)
  }

  class Limiter {
    const cfg: Config
    var buckets: map<Address, Entry>

    constructor (cfg: Config)
      ensures this.cfg == cfg && buckets == map[]
    {
      this.cfg, buckets := cfg, map[];
    }

    /** `created` is the later instant a new bucket records for itself. */
    method CheckWithCost(address: Address, now: real, created: real, cost: nat) returns (allowed: bool)
      requires Sane(cfg)
      modifies this
      ensures allowed == Decision(cfg, old(buckets), address, now, cost)
      ensures buckets == Checked(cfg, old(buckets), address, now, cost)
    {
      if address !in buckets {
        NotNegative(cfg.rate, Elapsed(now, created));
        buckets := buckets[address := Entry(TokenBucket(Capacity(cfg), created), now)];
      }
      var attempt := TryConsume(cfg, buckets[address].bucket, now, cost as real);
      buckets := buckets[address := Entry(attempt.bucket, now)];
      allowed := attempt.allowed;
    }

    method CleanupExpired(now: real)
      modifies this
      ensures buckets == Cleaned(cfg, old(buckets), now)
    {
      buckets := map a | a in buckets && Elapsed(now, buckets[a].lastAccess) < cfg.ttl :: buckets[a];
    }
  }

  // ---------------------------------------------------------------------------
  // Forgetting is invisible
  // ---------------------------------------------------------------------------

  /** The requests one address has made, in order. */
  function History(events: seq<Event>, address: Address): seq<Request> {
    if events == [] then []
    else
      var h, ev := History(events[..|events| - 1], address), events[|events| - 1];
      if ev.Check? && ev.address == address then h + [Request(ev.now, ev.cost)] else h
  }

  /** No request of the address takes the lock after a cleanup that read a later clock. Requests
      may be in any order among themselves. */
  predicate CleanupsBehind(events: seq<Event>, address: Address) {
    forall i, j :: 0 <= i < j < |events| && events[i].Cleanup? && events[j].Check? && events[j].address == address ==>
      events[i].now <= events[j].now
  }

  /** No cleanup has read a clock later than `now`. */
  predicate CleanedBy(now: real, events: seq<Event>) {
    forall ev :: ev in events && ev.Cleanup? ==> ev.now <= now
  }

  /** An address is either remembered exactly, or forgotten when its bucket is full anyway. */
  ghost predicate Remembers(cfg: Config, buckets: map<Address, Entry>, h: seq<Request>, address: Address, since: real) {
    if address in buckets then
      && h != [] && buckets[address].bucket == BucketAfter(cfg, h)
      && buckets[address].lastAccess == BucketAfter(cfg, h).lastRefill
    else forall now :: now >= since ==> Level(cfg, h, now) == Capacity(cfg)
  }

  lemma TokensNotNegative(cfg: Config, h: seq<Request>)
    requires Sane(cfg) && h != []
    ensures BucketAfter(cfg, h).tokens >= 0.0
    decreases |h|
  {
    var h', now := h[..|h| - 1], h[|h| - 1].time;
    if h' != [] {
      TokensNotNegative(cfg, h');
      var e := Elapsed(now, BucketAfter(cfg, h').lastRefill);
      NotNegative(cfg.rate, e);
    }
  }

  /** A bucket untouched for the time to live is full, and stays full. */
  lemma IdleIsFull(cfg: Config, h: seq<Request>, cleaned: real, now: real)
    requires Sane(cfg) && cfg.rate * cfg.ttl >= Capacity(cfg)
    requires h != [] && Elapsed(cleaned, BucketAfter(cfg, h).lastRefill) >= cfg.ttl && now >= cleaned
    ensures Level(cfg, h, now) == Capacity(cfg)
  {
    TokensNotNegative(cfg, h);
    FullAgain(cfg, BucketAfter(cfg, h), now);
  }

  lemma FullAgain(cfg: Config, b: TokenBucket, now: real)
    requires cfg.rate >= 0.0 && cfg.rate * cfg.ttl >= Capacity(cfg)
    requires b.tokens >= 0.0 && Elapsed(now, b.lastRefill) >= cfg.ttl
    ensures Refilled(cfg, b, now) == Capacity(cfg)
  {
    Monotone(cfg.rate, cfg.ttl, Elapsed(now, b.lastRefill));
  }

  lemma {:induction false} LimiterRemembers(cfg: Config, events: seq<Event>, address: Address, since: real)
    requires Sane(cfg) && cfg.rate * cfg.ttl >= Capacity(cfg)
    requires CleanupsBehind(events, address) && CleanedBy(since, events)
    ensures Remembers(cfg, After(cfg, events), History(events, address), address, since)
    decreases |events|
  {
    if events != [] {
      var events', ev := events[..|events| - 1], events[|events| - 1];
      assert ev in events;
      var h := History(events', address);
      if ev.Check? && ev.address == address {
        forall x | x in events' && x.Cleanup? ensures x.now <= ev.now {
          var i :| 0 <= i < |events'| && events'[i] == x;
          assert events[i] == x;
        }
        LimiterRemembers(cfg, events', address, ev.now);
        CheckRemembers(cfg, After(cfg, events'), h, address, ev.now, ev.cost);
      } else {
        LimiterRemembers(cfg, events', address, since);
        if ev.Cleanup? && address in After(cfg, events') && address !in After(cfg, events) {
          forall later | later >= since ensures Level(cfg, h, later) == Capacity(cfg) {
            IdleIsFull(cfg, h, ev.now, later);
          }
        }
      }
    }
  }

  lemma CheckRemembers(cfg: Config, buckets: map<Address, Entry>,
                       h: seq<Request>, address: Address, now: real, cost: nat)
    requires Remembers(cfg, buckets, h, address, now)
    ensures Remembers(cfg, Checked(cfg, buckets, address, now, cost), h + [Request(now, cost)], address, now)
    ensures Decision(cfg, buckets, address, now, cost) <==> Level(cfg, h, now) >= cost as real
  {
    var h' := h + [Request(now, cost)];
    assert h'[..|h'| - 1] == h;
    assert Available(cfg, buckets, address, now) == Level(cfg, h, now);
  }

  /** A decision is that of a limiter which keeps the whole history of every address. */
  predicate Unaffected(cfg: Config, events: seq<Event>, address: Address, now: real, cost: nat) {
    Decision(cfg, After(cfg, events), address, now, cost) <==> Level(cfg, History(events, address), now) >= cost as real
  }

  /** Cleanup changes no decision on a request that does not come after a cleanup that read a
      later clock. */
  lemma CleanupInvisible(cfg: Config, events: seq<Event>, address: Address, now: real, cost: nat)
    requires Sane(cfg) && cfg.rate * cfg.ttl >= Capacity(cfg)
    requires CleanupsBehind(events, address) && CleanedBy(now, events)
    ensures Unaffected(cfg, events, address, now, cost)
  {
    LimiterRemembers(cfg, events, address, now);
    CheckRemembers(cfg, After(cfg, events), History(events, address), address, now, cost);
  }

  /** One request for the whole burst, and a cleanup when its time to live is over. */
  function ForgetfulRun(cfg: Config, address: Address): seq<Event> {
    [Check(address, 0.0, cfg.burst), Cleanup(cfg.ttl)]
  }

  lemma ForgetfulState(cfg: Config, address: Address)
    requires Sane(cfg)
    ensures var events := ForgetfulRun(cfg, address);
            address !in After(cfg, events) && History(events, address) == [Request(0.0, cfg.burst)]
  {
    var first, events := Check(address, 0.0, cfg.burst), ForgetfulRun(cfg, address);
    assert events[..1] == [first] && [first][..0] == [];
    assert After(cfg, [first]) == Checked(cfg, After(cfg, []), address, 0.0, cfg.burst);
    assert History([first], address) == History([], address) + [Request(0.0, cfg.burst)];
  }

  /** After that run a request for the whole burst is admitted at any time t, and a limiter that
      forgets nothing admits it only once rate * t has filled the bucket again. */
  lemma ForgetfulDecision(cfg: Config, address: Address, t: real)
    requires Sane(cfg) && t >= 0.0
    ensures var events := ForgetfulRun(cfg, address);
            Unaffected(cfg, events, address, t, cfg.burst) <==> cfg.rate * t >= Capacity(cfg)
  {
    ForgetfulState(cfg, address);
    var h := [Request(0.0, cfg.burst)];
    assert h[..0] == [];
    assert BucketAfter(cfg, h) == TokenBucket(0.0, 0.0);
    assert Elapsed(t, 0.0) == t;
    assert Level(cfg, h, t) == if cfg.rate * t < Capacity(cfg) then cfg.rate * t else Capacity(cfg);
  }

  /** With a shorter time to live some run in order is decided differently. */
  lemma CleanupVisible(cfg: Config, address: Address)
    requires Sane(cfg) && cfg.rate * cfg.ttl < Capacity(cfg)
    ensures var events := ForgetfulRun(cfg, address);
            && CleanupsBehind(events, address) && CleanedBy(cfg.ttl, events)
            && !Unaffected(cfg, events, address, cfg.ttl, cfg.burst)
  {
    ForgetfulDecision(cfg, address, cfg.ttl);
  }

  /** The order is needed: whatever the time to live, a request whose clock was read before the
      bucket could have refilled, and which takes the lock after the cleanup, is decided
      differently. */
  lemma LateRequestDiffers(cfg: Config, address: Address, t: real)
    requires Sane(cfg) && 0.0 <= t && cfg.rate * t < Capacity(cfg)
    ensures var events := ForgetfulRun(cfg, address);
            CleanupsBehind(events, address) && !Unaffected(cfg, events, address, t, cfg.burst)
    ensures cfg.rate * cfg.ttl >= Capacity(cfg) ==> !CleanedBy(t, ForgetfulRun(cfg, address))
  {
    ForgetfulDecision(cfg, address, t);
    var events := ForgetfulRun(cfg, address);
    assert events[1] in events;
    if t >= cfg.ttl {
      Monotone(cfg.rate, cfg.ttl, t);
    }
  }

  /** With requests not behind cleanups, cleanup is invisible in every run if and only if an
      idle bucket refills within the time to live. */
  lemma CleanupInvisibleIff(cfg: Config)
    requires Sane(cfg)
    ensures (forall events, address, now, cost: nat :: CleanupsBehind(events, address) && CleanedBy(now, events) ==>
               Unaffected(cfg, events, address, now, cost)) <==>
            cfg.rate * cfg.ttl >= Capacity(cfg)
  {
    if cfg.rate * cfg.ttl >= Capacity(cfg) {
      forall events, address, now, cost: nat | CleanupsBehind(events, address) && CleanedBy(now, events)
        ensures Unaffected(cfg, events, address, now, cost)
      {
        CleanupInvisible(cfg, events, address, now, cost);
      }
    } else {
      CleanupVisible(cfg, "");
    }
  }
}
