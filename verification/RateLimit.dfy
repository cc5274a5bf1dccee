/** The per-IP fixed-window rate limiter: buckets that requests fill and a cleanup that drops. */
module RateLimit {

  /** A point in time or a duration, in nanoseconds. */
  type Nanos = int

  const SECOND: Nanos := 1_000_000_000

  datatype Config = Config(limit: int, window: Nanos) {
    /** How many requests a window admits: the first one always, whatever the limit. */
    function Quota(): nat { if limit < 1 then 1 else limit }
  }

  /** A bucket exists because of a request, so it has counted at least one. */
  type Positive = n: nat | n > 0 witness 1

  datatype Bucket = Bucket(count: Positive, start: Nanos)

  type Buckets = map<string, Bucket>

  datatype Answer = Answer(allowed: bool, remaining: int, resetUnix: int)

  /** The window of `b` has ended at `now`. */
  predicate Expired(c: Config, b: Bucket, now: Nanos) { now - b.start >= c.window }

  function AnswerFor(c: Config, b: Bucket): Answer {
    var reset := (b.start + c.window) / SECOND;
    if b.count > 1 && b.count > c.limit then Answer(false, 0, reset)
    else Answer(true, c.limit - b.count, reset)
  }

  /** The bucket of `ip` after a request at `now`. */
  function Hit(c: Config, bs: Buckets, ip: string, now: Nanos): Bucket {
    if ip !in bs || Expired(c, bs[ip], now) then Bucket(1, now)
    else bs[ip].(count := bs[ip].count + 1)
  }

  function Cleaned(c: Config, bs: Buckets, now: Nanos): Buckets {
    map ip | ip in bs && !Expired(c, bs[ip], now) :: bs[ip]
  }

  /** The limiter object, with its bucket map updated in place. */
  class Limiter {
    const config: Config
    var buckets: Buckets

    constructor (limit: int, window: Nanos)
      ensures config == Config(limit, window) && buckets == map[]
    {
      config := Config(limit, window);
      buckets := map[];
    }

    method Allow(ip: string, now: Nanos) returns (r: Answer)
      modifies this
      ensures buckets == old(buckets)[ip := Hit(config, old(buckets), ip, now)]
      ensures r == AnswerFor(config, buckets[ip])
    {
      if ip !in buckets || now - buckets[ip].start >= config.window {
        buckets := buckets[ip := Bucket(1, now)];
        return Answer(true, config.limit - 1, (now + config.window) / SECOND);
      }
      var b := buckets[ip].(count := buckets[ip].count + 1);
      buckets := buckets[ip := b];
      var remaining := config.limit - b.count;
      var reset := (b.start + config.window) / SECOND;
      if b.count > config.limit {
        return Answer(false, 0, reset);
      }
      if remaining < 0 {
        remaining := 0;
      }
      r := Answer(true, remaining, reset);
    }

    method Cleanup(now: Nanos)
      modifies this
      ensures buckets == Cleaned(config, old(buckets), now)
    {
      var unseen := buckets.Keys;
      while unseen != {}
        invariant unseen <= buckets.Keys <= old(buckets).Keys
        invariant forall ip :: ip in buckets ==> buckets[ip] == old(buckets)[ip]
        invariant forall ip :: ip in old(buckets) ==>
                    (ip in buckets <==> ip in unseen || !Expired(config, old(buckets)[ip], now))
        decreases unseen
      {
        var ip :| ip in unseen;
        if now - buckets[ip].start >= config.window {
          buckets := buckets - {ip};
        }
        unseen := unseen - {ip};
      }
    }
  }

  // ---- runs ------------------------------------------------------------------------------------

  datatype Event = Request(ip: string, at: Nanos) | Sweep(at: Nanos)

  /** The clock never goes back. */
  predicate Ordered(es: seq<Event>) { forall i, j :: 0 <= i < j < |es| ==> es[i].at <= es[j].at }

  /** The answers to the requests of a run, in order. */
  function Answers(c: Config, bs: Buckets, es: seq<Event>): seq<Answer>
    decreases |es|
  {
    if es == [] then []
    else
      match es[0]
      case Request(ip, at) =>
        var b := Hit(c, bs, ip, at);
        [AnswerFor(c, b)] + Answers(c, bs[ip := b], es[1..])
      case Sweep(at) => Answers(c, Cleaned(c, bs, at), es[1..])
  }

  function Requests(es: seq<Event>): seq<Event> {
    if es == [] then []
    else if es[0].Request? then [es[0]] + Requests(es[1..])
    else Requests(es[1..])
  }

  // ---- cleanup cannot be observed --------------------------------------------------------------

  /** The two maps hold the same unexpired buckets at `now`. */
  ghost predicate Alike(c: Config, a: Buckets, b: Buckets, now: Nanos) {
    forall ip ::
      && (ip in a && !Expired(c, a[ip], now) ==> ip in b && b[ip] == a[ip])
      && (ip in b && !Expired(c, b[ip], now) ==> ip in a && a[ip] == b[ip])
  }

  lemma {:induction false} AlikeAnswers(c: Config, a: Buckets, b: Buckets, es: seq<Event>, now: Nanos)
    requires Ordered(es) && Alike(c, a, b, now) && (es != [] ==> now <= es[0].at)
    ensures Answers(c, a, es) == Answers(c, b, Requests(es))
    decreases |es|
  {
    if es != [] {
      var at := es[0].at;
      assert es[1..] != [] ==> es[1..][0] == es[1];
      match es[0]
      case Request(ip, _) =>
        var h := Hit(c, a, ip, at);
        assert h == Hit(c, b, ip, at);
        assert Alike(c, a[ip := h], b[ip := h], at);
        AlikeAnswers(c, a[ip := h], b[ip := h], es[1..], at);
        assert Requests(es)[1..] == Requests(es[1..]);
      case Sweep(_) =>
        assert Alike(c, Cleaned(c, a, at), b, at);
        AlikeAnswers(c, Cleaned(c, a, at), b, es[1..], at);
    }
  }

  /** Cleanups inserted anywhere in a run change no answer. */
  lemma CleanupIsInvisible(c: Config, es: seq<Event>)
    requires Ordered(es)
    ensures Answers(c, map[], es) == Answers(c, map[], Requests(es))
  {
    if es != [] {
      AlikeAnswers(c, map[], map[], es, es[0].at);
    }
  }

  // ---- how much is admitted --------------------------------------------------------------------

  predicate Within(t: Nanos, from: Nanos, length: Nanos) { from <= t < from + length }

  /** How many of the requests of `ip` in the window-long interval from `from` were allowed. */
  function Admitted(c: Config, rs: seq<Event>, answers: seq<Answer>, ip: string, from: Nanos): nat
    requires |rs| == |answers|
  {
    if rs == [] then 0
    else
      (if rs[0].Request? && rs[0].ip == ip && Within(rs[0].at, from, c.window) && answers[0].allowed
       then 1 else 0)
      + Admitted(c, rs[1..], answers[1..], ip, from)
  }

  predicate OnlyRequests(es: seq<Event>) { forall i :: 0 <= i < |es| ==> es[i].Request? }

  /** The same count, taken while running. */
  function Count(c: Config, bs: Buckets, rs: seq<Event>, ip: string, from: Nanos): nat
    requires OnlyRequests(rs)
    decreases |rs|
  {
    if rs == [] then 0
    else
      var b := Hit(c, bs, rs[0].ip, rs[0].at);
      (if rs[0].ip == ip && Within(rs[0].at, from, c.window) && AnswerFor(c, b).allowed then 1 else 0)
      + Count(c, bs[rs[0].ip := b], rs[1..], ip, from)
  }

  lemma {:induction false} CountIsAdmitted(c: Config, bs: Buckets, rs: seq<Event>, ip: string, from: Nanos)
    requires OnlyRequests(rs)
    ensures |Answers(c, bs, rs)| == |rs|
    ensures Admitted(c, rs, Answers(c, bs, rs), ip, from) == Count(c, bs, rs, ip, from)
    decreases |rs|
  {
    if rs != [] {
      var b := Hit(c, bs, rs[0].ip, rs[0].at);
      CountIsAdmitted(c, bs[rs[0].ip := b], rs[1..], ip, from);
    }
  }

  predicate NotBefore(es: seq<Event>, t: Nanos) { forall i :: 0 <= i < |es| ==> t <= es[i].at }

  lemma {:induction false} RequestsNotBefore(es: seq<Event>, t: Nanos)
    requires NotBefore(es, t)
    ensures NotBefore(Requests(es), t)
  {
    if es != [] {
      RequestsNotBefore(es[1..], t);
    }
  }

  lemma {:induction false} RequestsOnly(es: seq<Event>)
    requires Ordered(es)
    ensures OnlyRequests(Requests(es)) && Ordered(Requests(es))
  {
    if es != [] {
      RequestsOnly(es[1..]);
      RequestsNotBefore(es[1..], es[0].at);
    }
  }

  function Monus(a: int, b: int): nat { if a > b then a - b else 0 }

  /** What can still be admitted to `ip` in the interval from `from`, given its bucket. */
  function Ceiling(c: Config, bs: Buckets, ip: string, from: Nanos): nat {
    var q := c.Quota();
    if ip !in bs || bs[ip].start + c.window <= from then 2 * q - 1
    else if bs[ip].start < from then Monus(q, bs[ip].count) + q
    else if bs[ip].start < from + c.window then Monus(q, bs[ip].count)
    else 0
  }

  lemma {:induction false} CountBelowCeiling(c: Config, bs: Buckets, rs: seq<Event>, ip: string, from: Nanos)
    requires OnlyRequests(rs) && Ordered(rs) && c.window > 0
    requires ip in bs && rs != [] ==> bs[ip].start <= rs[0].at
    ensures Count(c, bs, rs, ip, from) <= Ceiling(c, bs, ip, from)
    decreases |rs|
  {
    if rs != [] {
      var b := Hit(c, bs, rs[0].ip, rs[0].at);
      assert rs[1..] != [] ==> rs[1..][0] == rs[1];
      CountBelowCeiling(c, bs[rs[0].ip := b], rs[1..], ip, from);
    }
  }

  /**
   Whatever the run, every half-open interval of one window length admits at most twice the quota
   minus one of an IP's requests.
   */
  lemma IntervalAdmitsAtMost(c: Config, es: seq<Event>, ip: string, from: Nanos)
    requires Ordered(es)
    ensures |Answers(c, map[], es)| == |Requests(es)|
    ensures Admitted(c, Requests(es), Answers(c, map[], es), ip, from) <= 2 * c.Quota() - 1
  {
    var rs := Requests(es);
    CleanupIsInvisible(c, es);
    RequestsOnly(es);
    CountIsAdmitted(c, map[], rs, ip, from);
    if c.window > 0 {
      CountBelowCeiling(c, map[], rs, ip, from);
    } else {
      EmptyInterval(c, map[], rs, ip, from);
    }
  }

  lemma {:induction false} EmptyInterval(c: Config, bs: Buckets, rs: seq<Event>, ip: string, from: Nanos)
    requires OnlyRequests(rs) && c.window <= 0
    ensures Count(c, bs, rs, ip, from) == 0
    decreases |rs|
  {
    if rs != [] {
      EmptyInterval(c, bs[rs[0].ip := Hit(c, bs, rs[0].ip, rs[0].at)], rs[1..], ip, from);
    }
  }

  /** How many requests of `ip` fall into the interval, allowed or not. */
  function Asked(c: Config, rs: seq<Event>, ip: string, from: Nanos): nat
    requires OnlyRequests(rs)
  {
    if rs == [] then 0
    else (if rs[0].ip == ip && Within(rs[0].at, from, c.window) then 1 else 0) + Asked(c, rs[1..], ip, from)
  }

  function Min(a: nat, b: nat): nat { if a < b then a else b }

  lemma {:induction false} RestOfWindow(c: Config, bs: Buckets, rs: seq<Event>, ip: string)
    requires OnlyRequests(rs) && Ordered(rs) && ip in bs && c.window > 0
    requires rs != [] ==> bs[ip].start <= rs[0].at
    ensures Count(c, bs, rs, ip, bs[ip].start)
            == Min(Asked(c, rs, ip, bs[ip].start), Monus(c.Quota(), bs[ip].count))
    decreases |rs|
  {
    if rs != [] {
      var b := Hit(c, bs, rs[0].ip, rs[0].at);
      var next := bs[rs[0].ip := b];
      assert rs[1..] != [] ==> rs[1..][0] == rs[1];
      if rs[0].ip == ip && Expired(c, bs[ip], rs[0].at) {
        WindowOver(c, next, rs[1..], ip, bs[ip].start, rs[0].at);
      } else {
        RestOfWindow(c, next, rs[1..], ip);
      }
    }
  }

  /** Nothing after `now` falls into an interval that has ended by then. */
  lemma {:induction false} WindowOver(c: Config, bs: Buckets, rs: seq<Event>, ip: string, from: Nanos, now: Nanos)
    requires OnlyRequests(rs) && Ordered(rs) && from + c.window <= now && (rs != [] ==> now <= rs[0].at)
    ensures Count(c, bs, rs, ip, from) == 0 && Asked(c, rs, ip, from) == 0
    decreases |rs|
  {
    if rs != [] {
      assert rs[1..] != [] ==> rs[1..][0] == rs[1];
      WindowOver(c, bs[rs[0].ip := Hit(c, bs, rs[0].ip, rs[0].at)], rs[1..], ip, from, now);
    }
  }

  /**
   A request that opens a window starts an interval in which exactly the first requests are
   admitted: as many as were asked for, up to the quota.
   */
  lemma WindowAdmitsExactly(c: Config, bs: Buckets, rs: seq<Event>)
    requires OnlyRequests(rs) && Ordered(rs) && rs != [] && c.window > 0
    requires rs[0].ip in bs ==> Expired(c, bs[rs[0].ip], rs[0].at)
    ensures Count(c, bs, rs, rs[0].ip, rs[0].at) == Min(Asked(c, rs, rs[0].ip, rs[0].at), c.Quota())
  {
    var b := Hit(c, bs, rs[0].ip, rs[0].at);
    assert rs[1..] != [] ==> rs[1..][0] == rs[1];
    RestOfWindow(c, bs[rs[0].ip := b], rs[1..], rs[0].ip);
  }

  // ---- what an answer tells the client -------------------------------------------------------------

  /** The remaining number is what the quota leaves exactly when the limit admits anything, or after the first. */
  lemma RemainingIff(c: Config, b: Bucket)
    ensures AnswerFor(c, b).remaining == Monus(c.Quota(), b.count) <==> c.limit >= 1 || b.count > 1
    ensures AnswerFor(c, b).allowed <==> b.count <= c.Quota()
  {
  }

  /**
   An answer's remaining number is kept: from then on the same window admits that many more of the client's
   requests, if it makes as many.
   */
  lemma RemainingIsAdmitted(c: Config, bs: Buckets, rs: seq<Event>, ip: string)
    requires OnlyRequests(rs) && Ordered(rs) && ip in bs && c.window > 0 && c.limit >= 1
    requires rs != [] ==> bs[ip].start <= rs[0].at
    ensures 0 <= AnswerFor(c, bs[ip]).remaining
    ensures Count(c, bs, rs, ip, bs[ip].start)
            == Min(Asked(c, rs, ip, bs[ip].start), AnswerFor(c, bs[ip]).remaining)
  {
    RestOfWindow(c, bs, rs, ip);
    RemainingIff(c, bs[ip]);
  }

  /** The reset time is the second in which the window ends: requests open a new one from its end on. */
  lemma ResetIsWindowEnd(c: Config, bs: Buckets, ip: string, at: Nanos)
    requires ip in bs
    ensures var reset, end := AnswerFor(c, bs[ip]).resetUnix * 1_000_000_000, bs[ip].start + c.window;
            && reset <= end < reset + 1_000_000_000
            && (at >= end ==> Hit(c, bs, ip, at) == Bucket(1, at))
            && (at < end ==> Hit(c, bs, ip, at) == Bucket(bs[ip].count + 1, bs[ip].start))
  {
  }

  // ---- the bound is met ------------------------------------------------------------------------

  function Burst(ip: string, at: Nanos, n: nat): (rs: seq<Event>)
    ensures |rs| == n && forall i :: 0 <= i < n ==> rs[i] == Request(ip, at)
  {
    seq(n, i => Request(ip, at))
  }

  lemma {:induction false} BurstThen(c: Config, bs: Buckets, ip: string, at: Nanos, n: nat, rest: seq<Event>, from: Nanos)
    requires OnlyRequests(rest) && c.window > 0 && Within(at, from, c.window)
    requires ip in bs && !Expired(c, bs[ip], at) && bs[ip].count + n <= c.Quota()
    ensures OnlyRequests(Burst(ip, at, n) + rest)
    ensures Count(c, bs, Burst(ip, at, n) + rest, ip, from)
            == n + Count(c, bs[ip := bs[ip].(count := bs[ip].count + n)], rest, ip, from)
    decreases n
  {
    if n == 0 {
      assert Burst(ip, at, n) + rest == rest;
      assert bs[ip := bs[ip].(count := bs[ip].count + n)] == bs;
    } else {
      var b := Hit(c, bs, ip, at);
      var rs := Burst(ip, at, n) + rest;
      assert rs[1..] == Burst(ip, at, n - 1) + rest;
      BurstThen(c, bs[ip := b], ip, at, n - 1, rest, from);
      assert bs[ip := b][ip := b.(count := b.count + (n - 1))] == bs[ip := bs[ip].(count := bs[ip].count + n)];
    }
  }

  /** A window opened at `at`, filled at once up to the quota. */
  function Fill(c: Config, ip: string, at: Nanos): seq<Event> {
    [Request(ip, at)] + (Burst(ip, at, c.Quota() - 1) + [])
  }

  lemma FillCounts(c: Config, bs: Buckets, ip: string, at: Nanos, from: Nanos)
    requires c.window > 0 && Within(at, from, c.window)
    requires ip in bs ==> Expired(c, bs[ip], at)
    ensures OnlyRequests(Fill(c, ip, at))
    ensures Count(c, bs, Fill(c, ip, at), ip, from) == c.Quota()
  {
    var rs := Fill(c, ip, at);
    assert rs[1..] == Burst(ip, at, c.Quota() - 1) + [];
    BurstThen(c, bs[ip := Bucket(1, at)], ip, at, c.Quota() - 1, [], from);
  }

  /** One request, then a burst at the end of its window and a full one at the start of the next. */
  function WorstCase(c: Config, ip: string): seq<Event> {
    [Request(ip, 0)] + (Burst(ip, c.window - 1, c.Quota() - 1) + Fill(c, ip, c.window))
  }

  lemma WorstCaseOrdered(c: Config, ip: string)
    requires c.window > 1
    ensures OnlyRequests(WorstCase(c, ip)) && Ordered(WorstCase(c, ip))
  {
  }

  /** The bound is tight: for every quota and window there is a run that meets it. */
  lemma BoundIsMet(c: Config, ip: string)
    requires c.window > 1
    ensures OnlyRequests(WorstCase(c, ip)) && Ordered(WorstCase(c, ip))
    ensures Count(c, map[], WorstCase(c, ip), ip, c.window - 1) == 2 * c.Quota() - 1
  {
    WorstCaseOrdered(c, ip);
    var q := c.Quota();
    var rs := WorstCase(c, ip);
    var first := map[ip := Bucket(1, 0)];
    assert rs[1..] == Burst(ip, c.window - 1, q - 1) + Fill(c, ip, c.window);
    BurstThen(c, first, ip, c.window - 1, q - 1, Fill(c, ip, c.window), c.window - 1);
    FillCounts(c, first[ip := first[ip].(count := 1 + (q - 1))], ip, c.window, c.window - 1);
  }

  // ---- clock readings that come late -----------------------------------------------------------

  /**
   A reading is taken before the lock is waited for, so it may be older than one that was used before
   it, by up to `lag`.
   */
  predicate Lagging(es: seq<Event>, lag: Nanos) {
    forall i, j :: 0 <= i < j < |es| ==> es[i].at <= es[j].at + lag
  }

  /** The admitted requests of `ip` in the interval, with cleanups in the run. */
  function CountAll(c: Config, bs: Buckets, es: seq<Event>, ip: string, from: Nanos): nat
    decreases |es|
  {
    if es == [] then 0
    else
      match es[0]
      case Request(who, at) =>
        var b := Hit(c, bs, who, at);
        (if who == ip && Within(at, from, c.window) && AnswerFor(c, b).allowed then 1 else 0)
        + CountAll(c, bs[who := b], es[1..], ip, from)
      case Sweep(at) => CountAll(c, Cleaned(c, bs, at), es[1..], ip, from)
  }

  lemma {:induction false} CountAllIsAdmitted(c: Config, bs: Buckets, es: seq<Event>, ip: string, from: Nanos)
    ensures |Answers(c, bs, es)| == |Requests(es)|
    ensures Admitted(c, Requests(es), Answers(c, bs, es), ip, from) == CountAll(c, bs, es, ip, from)
    decreases |es|
  {
    if es != [] {
      match es[0]
      case Request(who, at) =>
        CountAllIsAdmitted(c, bs[who := Hit(c, bs, who, at)], es[1..], ip, from);
        assert Requests(es)[1..] == Requests(es[1..]);
      case Sweep(at) => CountAllIsAdmitted(c, Cleaned(c, bs, at), es[1..], ip, from);
    }
  }

  function Later(a: Nanos, b: Nanos): Nanos { if a < b then b else a }

  /** What windows can admit in the interval when the next one opens at `x` or later. */
  function Coming(c: Config, x: Nanos, from: Nanos, lag: Nanos): nat
    requires 0 <= lag < c.window
    decreases from + c.window + lag - x
  {
    if x >= from + c.window + lag then 0 else c.Quota() + Coming(c, x + c.window - lag, from, lag)
  }

  /** Windows that are over before the interval begins do not matter. */
  function Ahead(c: Config, x: Nanos, from: Nanos, lag: Nanos): nat
    requires 0 <= lag < c.window
  {
    Coming(c, Later(x, from - c.window + 1), from, lag)
  }

  /** What can still be admitted in the interval, given the bucket and the latest reading so far. */
  function Room(c: Config, bs: Buckets, ip: string, from: Nanos, now: Nanos, lag: Nanos): nat
    requires 0 <= lag < c.window
  {
    if ip !in bs then Ahead(c, now - lag, from, lag)
    else
      var start := bs[ip].start;
      (if from - c.window < start < from + c.window + lag then Monus(c.Quota(), bs[ip].count) else 0)
      + Ahead(c, start + c.window - lag, from, lag)
  }

  lemma {:induction false} ComingShrinks(c: Config, x: Nanos, y: Nanos, from: Nanos, lag: Nanos)
    requires 0 <= lag < c.window && x <= y
    ensures Coming(c, y, from, lag) <= Coming(c, x, from, lag)
    decreases from + c.window + lag - x
  {
    if y < from + c.window + lag {
      ComingShrinks(c, x + c.window - lag, y + c.window - lag, from, lag);
    }
  }

  lemma AheadShrinks(c: Config, x: Nanos, y: Nanos, from: Nanos, lag: Nanos)
    requires 0 <= lag < c.window && x <= y
    ensures Ahead(c, y, from, lag) <= Ahead(c, x, from, lag)
  {
    ComingShrinks(c, Later(x, from - c.window + 1), Later(y, from - c.window + 1), from, lag);
  }

  /** A window that opens at `at` takes its quota from what was ahead. */
  lemma OpeningTakesQuota(c: Config, from: Nanos, lag: Nanos, at: Nanos)
    requires 0 <= lag < c.window
    ensures var serves := from - c.window < at < from + c.window + lag;
            (if serves then c.Quota() else 0) + Ahead(c, at + c.window - lag, from, lag) <= Ahead(c, at, from, lag)
  {
    AheadShrinks(c, at, at + c.window - lag, from, lag);
  }

  lemma RequestTakesRoom(c: Config, bs: Buckets, ip: string, from: Nanos, now: Nanos, lag: Nanos, at: Nanos)
    requires 0 <= lag < c.window && now - lag <= at && (ip in bs ==> bs[ip].start <= now)
    ensures var b := Hit(c, bs, ip, at);
            && b.start <= Later(now, at)
            && (if Within(at, from, c.window) && AnswerFor(c, b).allowed then 1 else 0)
               + Room(c, bs[ip := b], ip, from, Later(now, at), lag)
               <= Room(c, bs, ip, from, now, lag)
  {
    OpeningTakesQuota(c, from, lag, at);
    if ip !in bs {
      AheadShrinks(c, now - lag, at, from, lag);
    } else if Expired(c, bs[ip], at) {
      AheadShrinks(c, bs[ip].start + c.window - lag, at, from, lag);
    }
  }

  lemma SweepLeavesRoom(c: Config, bs: Buckets, ip: string, from: Nanos, now: Nanos, lag: Nanos, at: Nanos)
    requires 0 <= lag < c.window && (ip in bs ==> bs[ip].start <= now)
    ensures Room(c, Cleaned(c, bs, at), ip, from, Later(now, at), lag) <= Room(c, bs, ip, from, now, lag)
  {
    if ip !in bs {
      AheadShrinks(c, now - lag, Later(now, at) - lag, from, lag);
    } else if Expired(c, bs[ip], at) {
      AheadShrinks(c, bs[ip].start + c.window - lag, Later(now, at) - lag, from, lag);
    }
  }

  lemma OtherLeavesRoom(c: Config, bs: Buckets, next: Buckets, ip: string, from: Nanos, now: Nanos, lag: Nanos, later: Nanos)
    requires 0 <= lag < c.window && now <= later
    requires (ip in next <==> ip in bs) && (ip in bs ==> next[ip] == bs[ip])
    ensures Room(c, next, ip, from, later, lag) <= Room(c, bs, ip, from, now, lag)
  {
    AheadShrinks(c, now - lag, later - lag, from, lag);
  }

  lemma {:induction false} CountWithinRoom(c: Config, bs: Buckets, es: seq<Event>, ip: string, from: Nanos, now: Nanos, lag: Nanos)
    requires 0 <= lag < c.window
    requires Lagging(es, lag) && NotBefore(es, now - lag) && (ip in bs ==> bs[ip].start <= now)
    ensures CountAll(c, bs, es, ip, from) <= Room(c, bs, ip, from, now, lag)
    decreases |es|
  {
    if es != [] {
      var at := es[0].at;
      var later := Later(now, at);
      assert NotBefore(es[1..], later - lag);
      match es[0]
      case Request(who, _) =>
        var next := bs[who := Hit(c, bs, who, at)];
        if who == ip {
          RequestTakesRoom(c, bs, ip, from, now, lag, at);
        } else {
          OtherLeavesRoom(c, bs, next, ip, from, now, lag, later);
        }
        CountWithinRoom(c, next, es[1..], ip, from, later, lag);
      case Sweep(_) =>
        SweepLeavesRoom(c, bs, ip, from, now, lag, at);
        CountWithinRoom(c, Cleaned(c, bs, at), es[1..], ip, from, later, lag);
    }
  }

  lemma {:induction false} ComingWindows(c: Config, x: Nanos, from: Nanos, lag: Nanos, windows: nat)
    requires 0 <= lag < c.window && x + windows * (c.window - lag) >= from + c.window + lag
    ensures Coming(c, x, from, lag) <= windows * c.Quota()
    decreases windows
  {
    if x < from + c.window + lag {
      assert windows > 0;
      assert (windows - 1) * (c.window - lag) == windows * (c.window - lag) - (c.window - lag);
      assert (windows - 1) * c.Quota() == windows * c.Quota() - c.Quota();
      ComingWindows(c, x + c.window - lag, from, lag, windows - 1);
    }
  }

  /**
   With readings up to `lag` late, less than a window, and cleanups anywhere, an interval of one window
   length admits at most the quota of as many windows as can share it: three for up to a quarter of a
   window.
   */
  lemma DelayedIntervalAdmitsAtMost(c: Config, es: seq<Event>, ip: string, from: Nanos, lag: Nanos, windows: nat)
    requires 0 <= lag < c.window && Lagging(es, lag)
    requires windows * (c.window - lag) >= 2 * c.window + lag - 1
    ensures |Answers(c, map[], es)| == |Requests(es)|
    ensures Admitted(c, Requests(es), Answers(c, map[], es), ip, from) <= windows * c.Quota()
  {
    CountAllIsAdmitted(c, map[], es, ip, from);
    if es != [] {
      assert NotBefore(es, es[0].at - lag);
      CountWithinRoom(c, map[], es, ip, from, es[0].at, lag);
      ComingShrinks(c, from - c.window + 1, Later(es[0].at - lag, from - c.window + 1), from, lag);
      ComingWindows(c, from - c.window + 1, from, lag, windows);
    }
  }

  /** Requests that are all as late as the window is long, each after a cleanup. */
  function VeryLate(c: Config, ip: string, n: nat): seq<Event> {
    if n == 0 then [] else [Request(ip, 0), Sweep(c.window)] + VeryLate(c, ip, n - 1)
  }

  lemma {:induction false} VeryLateTimes(c: Config, ip: string, n: nat, i: nat)
    requires i < |VeryLate(c, ip, n)|
    ensures VeryLate(c, ip, n)[i].at == 0 || VeryLate(c, ip, n)[i].at == c.window
    decreases n
  {
    if n > 0 && i >= 2 {
      VeryLateTimes(c, ip, n - 1, i - 2);
    }
  }

  lemma {:induction false} VeryLateCounts(c: Config, ip: string, n: nat)
    requires c.window > 0
    ensures CountAll(c, map[], VeryLate(c, ip, n), ip, 0) == n
  {
    if n > 0 {
      var es, bs := VeryLate(c, ip, n), map[ip := Bucket(1, 0)];
      assert es[1..][0] == Sweep(c.window) && es[1..][1..] == VeryLate(c, ip, n - 1);
      assert Cleaned(c, bs, c.window) == map[];
      VeryLateCounts(c, ip, n - 1);
    }
  }

  /** Readings that may be a whole window late leave no bound. */
  lemma NoBoundWhenVeryLate(c: Config, ip: string, n: nat)
    requires c.window > 0
    ensures Lagging(VeryLate(c, ip, n), c.window) && CountAll(c, map[], VeryLate(c, ip, n), ip, 0) == n
  {
    var es := VeryLate(c, ip, n);
    forall i | 0 <= i < |es| ensures es[i].at == 0 || es[i].at == c.window {
      VeryLateTimes(c, ip, n, i);
    }
    VeryLateCounts(c, ip, n);
  }

  lemma CountStep(c: Config, bs: Buckets, ip: string, at: Nanos, rest: seq<Event>, from: Nanos)
    ensures var b := Hit(c, bs, ip, at);
            CountAll(c, bs, [Request(ip, at)] + rest, ip, from)
            == (if Within(at, from, c.window) && AnswerFor(c, b).allowed then 1 else 0)
               + CountAll(c, bs[ip := b], rest, ip, from)
  {
    assert ([Request(ip, at)] + rest)[1..] == rest;
  }

  /** Three windows share an interval because the last reading is two units late. */
  function LateRun(ip: string): seq<Event> {
    [Request(ip, 1)] + ([Request(ip, 8)] + LateEnd(ip))
  }

  function LateEnd(ip: string): seq<Event> {
    [Request(ip, 9)] + ([Request(ip, 9)] + ([Request(ip, 17)] + ([Request(ip, 15)] + [])))
  }

  lemma LateEndCounts(c: Config, bs: Buckets, ip: string)
    requires c == Config(2, 8) && ip in bs && bs[ip].start == 1
    ensures CountAll(c, bs, LateEnd(ip), ip, 8) == 3
  {
    var third := [Request(ip, 17)] + ([Request(ip, 15)] + []);
    var b1 := bs[ip := Bucket(1, 9)];
    var b2 := b1[ip := Bucket(2, 9)];
    CountStep(c, bs, ip, 9, [Request(ip, 9)] + third, 8);
    CountStep(c, b1, ip, 9, third, 8);
    LastCounts(c, b2, ip);
  }

  lemma LastCounts(c: Config, bs: Buckets, ip: string)
    requires c == Config(2, 8) && ip in bs && bs[ip].start == 9
    ensures CountAll(c, bs, [Request(ip, 17)] + ([Request(ip, 15)] + []), ip, 8) == 1
  {
    CountStep(c, bs, ip, 17, [Request(ip, 15)] + [], 8);
    CountStep(c, bs[ip := Bucket(1, 17)], ip, 15, [], 8);
  }

  lemma LateRunLags(ip: string)
    ensures Lagging(LateRun(ip), 2)
  {
    var rs := LateRun(ip);
    assert |rs| == 6 && rs[0].at == 1 && rs[1].at == 8 && rs[2].at == 9 && rs[3].at == 9 && rs[4].at == 17 && rs[5].at == 15;
  }

  lemma LateRunCounts(c: Config, bs: Buckets, ip: string)
    requires c == Config(2, 8) && ip !in bs
    ensures CountAll(c, bs, LateRun(ip), ip, 8) == 4
  {
    var b1 := bs[ip := Bucket(1, 1)];
    var b2 := b1[ip := Bucket(2, 1)];
    CountStep(c, bs, ip, 1, [Request(ip, 8)] + LateEnd(ip), 8);
    CountStep(c, b1, ip, 8, LateEnd(ip), 8);
    LateEndCounts(c, b2, ip);
  }

  /** Late readings do break the bound for readings in order. */
  lemma LateReadingsExceed(c: Config, ip: string)
    requires c == Config(2, 8)
    ensures Lagging(LateRun(ip), 2) && CountAll(c, map[], LateRun(ip), ip, 8) > 2 * c.Quota() - 1
  {
    LateRunLags(ip);
    LateRunCounts(c, map[], ip);
  }

  lemma AnswersStep(c: Config, bs: Buckets, e: Event, rest: seq<Event>)
    ensures e.Request? ==> Answers(c, bs, [e] + rest)
                           == [AnswerFor(c, Hit(c, bs, e.ip, e.at))]
                              + Answers(c, bs[e.ip := Hit(c, bs, e.ip, e.at)], rest)
    ensures e.Sweep? ==> Answers(c, bs, [e] + rest) == Answers(c, Cleaned(c, bs, e.at), rest)
    ensures Requests([e] + rest) == (if e.Request? then [e] else []) + Requests(rest)
  {
    assert ([e] + rest)[1..] == rest;
  }

  /** A reading from before a cleanup, used after it. */
  function LateAfterSweep(ip: string): seq<Event> {
    [Request(ip, 0)] + ([Sweep(8)] + ([Request(ip, 7)] + []))
  }

  lemma LateAnswers(c: Config, ip: string)
    requires c == Config(1, 8)
    ensures Answers(c, map[], LateAfterSweep(ip)) == [AnswerFor(c, Bucket(1, 0)), AnswerFor(c, Bucket(1, 7))]
    ensures Requests(LateAfterSweep(ip)) == [Request(ip, 0)] + ([Request(ip, 7)] + [])
  {
    var bs := map[ip := Bucket(1, 0)];
    AnswersStep(c, map[], Request(ip, 0), [Sweep(8)] + ([Request(ip, 7)] + []));
    AnswersStep(c, bs, Sweep(8), [Request(ip, 7)] + []);
    assert Cleaned(c, bs, 8) == map[];
    AnswersStep(c, map[], Request(ip, 7), []);
  }

  lemma UnsweptAnswers(c: Config, ip: string)
    requires c == Config(1, 8)
    ensures Answers(c, map[], [Request(ip, 0)] + ([Request(ip, 7)] + []))
            == [AnswerFor(c, Bucket(1, 0)), AnswerFor(c, Bucket(2, 0))]
  {
    var bs := map[ip := Bucket(1, 0)];
    AnswersStep(c, map[], Request(ip, 0), [Request(ip, 7)] + []);
    AnswersStep(c, bs, Request(ip, 7), []);
  }

  /** Late readings let a cleanup show: it has a request allowed that is refused without it. */
  lemma LateReadingsShowCleanup(c: Config, ip: string)
    requires c == Config(1, 8)
    ensures var es := LateAfterSweep(ip);
            Lagging(es, 1) && Answers(c, map[], es) != Answers(c, map[], Requests(es))
  {
    LateAnswers(c, ip);
    UnsweptAnswers(c, ip);
  }
}
