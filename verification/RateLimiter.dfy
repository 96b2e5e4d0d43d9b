/**
 The fixed-window rate limiter that guards the OIDC login endpoints.

 Times are integers (nanoseconds) and 0 is the zero time. `Next` is one call of
 `Allow` on the table as a value, `IpRateLimiter` is the object that updates its
 table in place, and the lemmas speak about whole sequences of requests.
 */
module RateLimiter {

  datatype Entry = Entry(started: int, count: int)

  datatype Config = Config(limit: int, window: int, maxEntries: int)

  datatype Verdict = Verdict(allowed: bool, retryAfter: int)

  type Table = map<string, Entry>

  datatype Request = Request(key: string, now: int)

  const ALLOW := Verdict(true, 0)

  // A missing key reads as the zero entry.
  function Lookup(t: Table, key: string): Entry {
    if key in t then t[key] else Entry(0, 0)
  }

  function Unexpired(cfg: Config, t: Table, now: int): Table {
    map k | k in t && now - t[k].started < cfg.window :: t[k]
  }

  function Next(cfg: Config, t: Table, key: string, now: int): (Table, Verdict) {
    var entry := Lookup(t, key);
    if entry.started == 0 || now - entry.started >= cfg.window then
      if entry.started == 0 && |t| >= cfg.maxEntries then
        var kept := Unexpired(cfg, t, now);
        if |kept| >= cfg.maxEntries then (kept, Verdict(false, cfg.window))
        else (kept[key := Entry(now, 1)], ALLOW)
      else (t[key := Entry(now, 1)], ALLOW)
    else if entry.count >= cfg.limit then
      (t, Verdict(false, cfg.window - (now - entry.started)))
    else
      (t[key := Entry(entry.started, entry.count + 1)], ALLOW)
  }

  class IpRateLimiter {
    const limit: int
    const window: int
    const maxEntries: int
    var entries: Table

    constructor (limit: int, window: int)
      ensures this.limit == limit && this.window == window
      ensures maxEntries == 10000 && entries == map[]
    {
      this.limit := limit;
      this.window := window;
      maxEntries := 10000;
      entries := map[];
    }

    function Settings(): Config {
      Config(limit, window, maxEntries)
    }

    method Sweep(now: int)
      modifies this`entries
      ensures entries == Unexpired(Settings(), old(entries), now)
    {
      var pending := entries.Keys;
      while pending != {}
        invariant pending <= entries.Keys
        invariant entries.Keys == pending + Unexpired(Settings(), old(entries), now).Keys
        invariant forall k | k in entries :: k in old(entries) && entries[k] == old(entries)[k]
        decreases |pending|
      {
        var candidate :| candidate in pending;
        if now - entries[candidate].started >= window {
          entries := entries - {candidate};
        }
        pending := pending - {candidate};
      }
    }

    method Allow(key: string, now: int) returns (allowed: bool, retryAfter: int)
      modifies this`entries
      ensures (entries, Verdict(allowed, retryAfter)) == Next(Settings(), old(entries), key, now)
    {
      var entry := Lookup(entries, key);
      if entry.started == 0 || now - entry.started >= window {
        if entry.started == 0 && |entries| >= maxEntries {
          Sweep(now);
          if |entries| >= maxEntries {
            return false, window;
          }
        }
        entries := entries[key := Entry(now, 1)];
        return true, 0;
      }
      if entry.count >= limit {
        return false, window - (now - entry.started);
      }
      entries := entries[key := Entry(entry.started, entry.count + 1)];
      return true, 0;
    }
  }

  // ---------- whole runs ----------

  function Run(cfg: Config, t: Table, reqs: seq<Request>): (verdicts: seq<Verdict>)
    ensures |verdicts| == |reqs|
    decreases |reqs|
  {
    if reqs == [] then []
    else
      var (t', v) := Next(cfg, t, reqs[0].key, reqs[0].now);
      [v] + Run(cfg, t', reqs[1..])
  }

  function After(cfg: Config, t: Table, reqs: seq<Request>): Table
    decreases |reqs|
  {
    if reqs == [] then t
    else After(cfg, Next(cfg, t, reqs[0].key, reqs[0].now).0, reqs[1..])
  }

  // Requests arrive at real (nonzero) times that never go back past `clock`.
  predicate Ordered(clock: int, reqs: seq<Request>)
    decreases |reqs|
  {
    && 1 <= clock
    && (reqs != [] ==> clock <= reqs[0].now && Ordered(reqs[0].now, reqs[1..]))
  }

  // How often `key` is let through at a time in [from, to).
  function AllowedIn(reqs: seq<Request>, verdicts: seq<Verdict>, key: string, from: int, to: int): nat
    requires |reqs| == |verdicts|
  {
    if reqs == [] then 0
    else
      (if verdicts[0].allowed && reqs[0].key == key && from <= reqs[0].now < to then 1 else 0)
      + AllowedIn(reqs[1..], verdicts[1..], key, from, to)
  }

  lemma AllowedStep(cfg: Config, t: Table, reqs: seq<Request>, key: string, from: int, to: int)
    requires reqs != []
    ensures var r := reqs[0];
            var (t', v) := Next(cfg, t, r.key, r.now);
            AllowedIn(reqs, Run(cfg, t, reqs), key, from, to)
            == (if v.allowed && r.key == key && from <= r.now < to then 1 else 0)
               + AllowedIn(reqs[1..], Run(cfg, t', reqs[1..]), key, from, to)
  {
    var t' := Next(cfg, t, reqs[0].key, reqs[0].now).0;
    assert Run(cfg, t, reqs)[1..] == Run(cfg, t', reqs[1..]);
  }

  // The table never outgrows its bound, whatever the times are.
  lemma {:induction false} TableStaysBounded(cfg: Config, t: Table, reqs: seq<Request>)
    requires |t| <= cfg.maxEntries
    ensures |After(cfg, t, reqs)| <= cfg.maxEntries
    decreases |reqs|
  {
    if reqs != [] {
      NextBounded(cfg, t, reqs[0].key, reqs[0].now);
      TableStaysBounded(cfg, Next(cfg, t, reqs[0].key, reqs[0].now).0, reqs[1..]);
    }
  }

  lemma NextBounded(cfg: Config, t: Table, key: string, now: int)
    requires |t| <= cfg.maxEntries
    ensures |Next(cfg, t, key, now).0| <= cfg.maxEntries
  {
    UnexpiredSmaller(cfg, t, now);
    var kept := Unexpired(cfg, t, now);
    InsertSize(t, key, Entry(now, 1));
    InsertSize(kept, key, Entry(now, 1));
    InsertSize(t, key, Entry(Lookup(t, key).started, Lookup(t, key).count + 1));
  }

  lemma UnexpiredSmaller(cfg: Config, t: Table, now: int)
    ensures |Unexpired(cfg, t, now)| <= |t|
  {
    SubsetSize(Unexpired(cfg, t, now).Keys, t.Keys);
  }

  lemma InsertSize(t: Table, key: string, e: Entry)
    ensures |t[key := e]| == if key in t then |t| else |t| + 1
  {
    assert t[key := e].Keys == t.Keys + {key};
  }

  lemma SubsetSize<T>(small: set<T>, large: set<T>)
    requires small <= large
    ensures |small| <= |large|
  {
    assert large == small + (large - small);
  }

  // ---------- the sliding bound ----------

  // Times at which one key was let through, and where its current window begins.
  datatype Track = Track(times: seq<int>, begin: nat)

  predicate Sorted(s: seq<int>) {
    forall i, j | 0 <= i <= j < |s| :: s[i] <= s[j]
  }

  // Any 2 * limit consecutive admissions span at least one window length.
  predicate Spread(cfg: Config, s: seq<int>) {
    forall i, j | 0 <= i < j < |s| && j - i >= 2 * cfg.limit - 1 :: s[i] + cfg.window <= s[j]
  }

  predicate TrackInv(cfg: Config, t: Table, key: string, tr: Track, clock: int) {
    && cfg.limit >= 1 && clock >= 1
    && Sorted(tr.times)
    && (forall i | 0 <= i < |tr.times| :: 1 <= tr.times[i] <= clock)
    && Spread(cfg, tr.times)
    && (tr.times == [] ==> key !in t)
    && (tr.times != [] ==>
          && tr.begin < |tr.times|
          && |tr.times| - tr.begin <= cfg.limit
          && (forall i | 0 <= i <= tr.begin - cfg.limit :: tr.times[i] + cfg.window <= tr.times[tr.begin])
          && (if key in t then t[key] == Entry(tr.times[tr.begin], |tr.times| - tr.begin)
              else tr.times[tr.begin] + cfg.window <= clock))
  }

  function Advance(cfg: Config, t: Table, key: string, tr: Track, r: Request): Track {
    if r.key != key || !Next(cfg, t, key, r.now).1.allowed then tr
    else if key !in t || r.now - t[key].started >= cfg.window then Track(tr.times + [r.now], |tr.times|)
    else Track(tr.times + [r.now], tr.begin)
  }

  lemma OtherKeyKept(cfg: Config, t: Table, key: string, tr: Track, clock: int, r: Request)
    requires TrackInv(cfg, t, key, tr, clock) && clock <= r.now && r.key != key
    ensures TrackInv(cfg, Next(cfg, t, r.key, r.now).0, key, tr, r.now)
  {
    var t' := Next(cfg, t, r.key, r.now).0;
    assert key in t' ==> key in t && t'[key] == t[key];
    assert key in t && key !in t' ==> r.now - t[key].started >= cfg.window;
  }

  // A request that opens a new window comes a full window after the last one opened.
  lemma NewWindowKept(cfg: Config, t: Table, key: string, tr: Track, clock: int, now: int)
    requires TrackInv(cfg, t, key, tr, clock) && clock <= now
    requires key in t ==> now - t[key].started >= cfg.window
    ensures forall t': Table | key in t' && t'[key] == Entry(now, 1) ::
              TrackInv(cfg, t', key, Track(tr.times + [now], |tr.times|), now)
  {
    var n := |tr.times|;
    forall i | 0 <= i < n && i <= n - cfg.limit
      ensures tr.times[i] + cfg.window <= now
    {
      assert i <= tr.begin;
      assert tr.times[i] <= tr.times[tr.begin];
    }
    SpreadAppend(cfg, tr.times, now);
  }

  lemma SameWindowKept(cfg: Config, t: Table, key: string, tr: Track, clock: int, now: int)
    requires TrackInv(cfg, t, key, tr, clock) && clock <= now
    requires key in t && t[key].count < cfg.limit
    ensures TrackInv(cfg, t[key := Entry(t[key].started, t[key].count + 1)], key, Track(tr.times + [now], tr.begin),
              now)
  {
    var n := |tr.times|;
    forall i | 0 <= i < n && n - i >= 2 * cfg.limit - 1
      ensures tr.times[i] + cfg.window <= now
    {
      assert i <= tr.begin - cfg.limit;
      assert tr.times[tr.begin] <= now;
    }
    SpreadAppend(cfg, tr.times, now);
  }

  lemma SpreadAppend(cfg: Config, s: seq<int>, now: int)
    requires cfg.limit >= 1 && Sorted(s) && Spread(cfg, s) && forall i | 0 <= i < |s| :: s[i] <= now
    requires forall i | 0 <= i < |s| && |s| - i >= 2 * cfg.limit - 1 :: s[i] + cfg.window <= now
    ensures Sorted(s + [now]) && Spread(cfg, s + [now])
  {
  }

  lemma DeniedKept(cfg: Config, t: Table, key: string, tr: Track, clock: int, now: int)
    requires TrackInv(cfg, t, key, tr, clock) && clock <= now && !Next(cfg, t, key, now).1.allowed
    ensures TrackInv(cfg, Next(cfg, t, key, now).0, key, tr, now)
  {
    var t' := Next(cfg, t, key, now).0;
    assert key in t' ==> key in t && t'[key] == t[key];
  }

  lemma AdvanceKeeps(cfg: Config, t: Table, key: string, tr: Track, clock: int, r: Request)
    requires TrackInv(cfg, t, key, tr, clock) && clock <= r.now
    ensures TrackInv(cfg, Next(cfg, t, r.key, r.now).0, key, Advance(cfg, t, key, tr, r), r.now)
  {
    var (t', v) := Next(cfg, t, r.key, r.now);
    if r.key != key {
      OtherKeyKept(cfg, t, key, tr, clock, r);
    } else if !v.allowed {
      DeniedKept(cfg, t, key, tr, clock, r.now);
    } else if key !in t || r.now - t[key].started >= cfg.window {
      NewWindowKept(cfg, t, key, tr, clock, r.now);
    } else {
      SameWindowKept(cfg, t, key, tr, clock, r.now);
    }
  }

  function CountIn(s: seq<int>, from: int, to: int): nat {
    if s == [] then 0
    else CountIn(s[..|s| - 1], from, to) + (if from <= s[|s| - 1] < to then 1 else 0)
  }

  // In a sorted sequence the members of [from, to) are consecutive.
  lemma {:induction false} CountIsBlock(s: seq<int>, from: int, to: int) returns (lo: nat, hi: nat)
    requires Sorted(s)
    ensures lo <= hi <= |s| && hi - lo == CountIn(s, from, to)
    ensures forall i | lo <= i < hi :: from <= s[i] < to
    ensures lo == hi || forall i | hi <= i < |s| :: to <= s[i]
  {
    if s == [] {
      lo, hi := 0, 0;
    } else {
      var n := |s| - 1;
      var front := s[..n];
      lo, hi := CountIsBlock(front, from, to);
      assert forall i | 0 <= i < n :: front[i] == s[i];
      if from <= s[n] < to {
        if lo == hi {
          lo, hi := n, n + 1;
        } else {
          hi := hi + 1;
        }
      } else if lo < hi {
        assert s[hi - 1] <= s[n];
      }
    }
  }

  lemma CountBounded(cfg: Config, s: seq<int>, from: int)
    requires cfg.limit >= 1 && Sorted(s) && Spread(cfg, s)
    ensures CountIn(s, from, from + cfg.window) <= 2 * cfg.limit - 1
  {
    var lo, hi := CountIsBlock(s, from, from + cfg.window);
    if lo < hi {
      var first, last := s[lo], s[hi - 1];
      if hi - lo >= 2 * cfg.limit {
        assert false;
      }
    }
  }

  lemma {:induction false} BoundFrom(cfg: Config, t: Table, reqs: seq<Request>, clock: int, key: string, tr: Track,
                                     from: int)
    requires TrackInv(cfg, t, key, tr, clock) && Ordered(clock, reqs)
    ensures CountIn(tr.times, from, from + cfg.window)
         + AllowedIn(reqs, Run(cfg, t, reqs), key, from, from + cfg.window) <= 2 * cfg.limit - 1
    decreases |reqs|
  {
    if reqs == [] {
      CountBounded(cfg, tr.times, from);
    } else {
      var r := reqs[0];
      var (t', v) := Next(cfg, t, r.key, r.now);
      var tr' := Advance(cfg, t, key, tr, r);
      AdvanceKeeps(cfg, t, key, tr, clock, r);
      BoundFrom(cfg, t', reqs[1..], r.now, key, tr', from);
      AllowedStep(cfg, t, reqs, key, from, from + cfg.window);
      if v.allowed && r.key == key {
        assert tr'.times[..|tr'.times| - 1] == tr.times;
      }
    }
  }

  // In any half-open interval as long as the window, a key is let through at
  // most 2 * limit - 1 times, however many other keys come and go.
  lemma SlidingBound(cfg: Config, reqs: seq<Request>, key: string, from: int)
    requires cfg.limit >= 1 && Ordered(1, reqs)
    ensures AllowedIn(reqs, Run(cfg, map[], reqs), key, from, from + cfg.window) <= 2 * cfg.limit - 1
  {
    BoundFrom(cfg, map[], reqs, 1, key, Track([], 0), from);
  }

  // Once a key has opened a window, the admissions counted by its entry and all
  // further ones inside that window are at most `limit`.
  lemma {:induction false} WindowBound(cfg: Config, t: Table, clock: int, reqs: seq<Request>, key: string)
    requires key in t && 1 <= t[key].started <= clock && t[key].count <= cfg.limit && Ordered(clock, reqs)
    ensures var from := t[key].started;
            t[key].count + AllowedIn(reqs, Run(cfg, t, reqs), key, from, from + cfg.window) <= cfg.limit
    decreases |reqs|
  {
    var from := t[key].started;
    if reqs != [] {
      var r := reqs[0];
      var t' := Next(cfg, t, r.key, r.now).0;
      AllowedStep(cfg, t, reqs, key, from, from + cfg.window);
      if r.now < from + cfg.window {
        WindowBound(cfg, t', r.now, reqs[1..], key);
      } else {
        NoneLater(reqs[1..], Run(cfg, t', reqs[1..]), r.now, key, from, from + cfg.window);
      }
    }
  }

  lemma {:induction false} NoneLater(reqs: seq<Request>, verdicts: seq<Verdict>, clock: int, key: string, from: int,
                                     to: int)
    requires |reqs| == |verdicts| && to <= clock && Ordered(clock, reqs)
    ensures AllowedIn(reqs, verdicts, key, from, to) == 0
    decreases |reqs|
  {
    if reqs != [] {
      NoneLater(reqs[1..], verdicts[1..], reqs[0].now, key, from, to);
    }
  }

  // ---------- the bound is sharp ----------

  // `n` requests of one key at one time.
  function Burst(key: string, now: int, n: nat): (reqs: seq<Request>)
    ensures |reqs| == n
  {
    seq(n, _ => Request(key, now))
  }

  // A burst inside an open window is let through until the count reaches the limit.
  lemma {:induction false} BurstRuns(cfg: Config, key: string, started: int, count: int, now: int, n: nat,
                                     rest: seq<Request>, from: int, to: int)
    requires 1 <= started <= now < started + cfg.window && count + n <= cfg.limit && from <= now < to
    ensures var t := map[key := Entry(started, count)];
            var reqs := Burst(key, now, n) + rest;
            AllowedIn(reqs, Run(cfg, t, reqs), key, from, to)
            == n + AllowedIn(rest, Run(cfg, map[key := Entry(started, count + n)], rest), key, from, to)
    decreases n
  {
    var t := map[key := Entry(started, count)];
    var reqs := Burst(key, now, n) + rest;
    if n == 0 {
      assert reqs == rest;
    } else {
      assert reqs[1..] == Burst(key, now, n - 1) + rest;
      var t' := Next(cfg, t, key, now).0;
      assert t' == map[key := Entry(started, count + 1)];
      AllowedStep(cfg, t, reqs, key, from, to);
      BurstRuns(cfg, key, started, count + 1, now, n - 1, rest, from, to);
    }
  }

  // One request at time 1, then limit - 1 at the end of its window and limit
  // more as the next window opens: 2 * limit - 1 of them within one window length.
  lemma SlidingBoundIsSharp(cfg: Config, key: string) returns (reqs: seq<Request>)
    requires cfg.limit >= 1 && cfg.window >= 2 && cfg.maxEntries >= 1
    ensures Ordered(1, reqs)
    ensures AllowedIn(reqs, Run(cfg, map[], reqs), key, 2, 2 + cfg.window) == 2 * cfg.limit - 1
  {
    var w, from, to := cfg.window, 2, 2 + cfg.window;
    var second := Burst(key, 1 + w, cfg.limit);
    var tail := Burst(key, w, cfg.limit - 1) + second;
    reqs := [Request(key, 1)] + tail;
    assert reqs[1..] == tail;
    AllowedStep(cfg, map[], reqs, key, from, to);
    assert Next(cfg, map[], key, 1).0 == map[key := Entry(1, 1)];
    BurstRuns(cfg, key, 1, 1, w, cfg.limit - 1, second, from, to);
    ReopenRuns(cfg, key, 1, 1 + w, from, to);
    BurstOrdered(key, 1 + w, cfg.limit, 1 + w, []);
    assert second + [] == second;
    BurstOrdered(key, w, cfg.limit - 1, 1, second);
  }

  // As the next window opens, a full burst is let through.
  lemma ReopenRuns(cfg: Config, key: string, started: int, now: int, from: int, to: int)
    requires cfg.limit >= 1 && cfg.window >= 1 && cfg.maxEntries >= 1 && started >= 1 && now == started + cfg.window
    requires from <= now < to
    ensures var full, reqs := map[key := Entry(started, cfg.limit)], Burst(key, now, cfg.limit);
            AllowedIn(reqs, Run(cfg, full, reqs), key, from, to) == cfg.limit
  {
    var full, reqs, late := map[key := Entry(started, cfg.limit)], Burst(key, now, cfg.limit),
        Burst(key, now, cfg.limit - 1);
    AllowedStep(cfg, full, reqs, key, from, to);
    assert reqs[1..] == late == late + [];
    assert Next(cfg, full, key, now).0 == map[key := Entry(now, 1)];
    BurstRuns(cfg, key, now, 1, now, cfg.limit - 1, [], from, to);
  }

  lemma {:induction false} BurstOrdered(key: string, now: int, n: nat, clock: int, rest: seq<Request>)
    requires 1 <= clock <= now && Ordered(now, rest)
    ensures Ordered(clock, Burst(key, now, n) + rest)
    decreases n
  {
    var reqs := Burst(key, now, n) + rest;
    if n == 0 {
      assert reqs == rest;
    } else {
      assert reqs[1..] == Burst(key, now, n - 1) + rest;
      BurstOrdered(key, now, n - 1, now, rest);
    }
  }

  // ---------- what a denial promises ----------

  // Whatever comes next, `key` is refused at every time before `until`.
  ghost predicate RefusedUntil(cfg: Config, t: Table, key: string, clock: int, until: int) {
    forall reqs | Ordered(clock, reqs) :: RefusedIn(cfg, t, key, until, reqs)
  }

  predicate RefusedIn(cfg: Config, t: Table, key: string, until: int, reqs: seq<Request>) {
    var verdicts := Run(cfg, t, reqs);
    forall i | 0 <= i < |reqs| :: reqs[i].key == key && reqs[i].now < until ==> !verdicts[i].allowed
  }

  // `key` has used up a window that is still open.
  predicate WindowFull(cfg: Config, t: Table, key: string, until: int) {
    key in t && t[key].started >= 1 && t[key].count >= cfg.limit && t[key].started + cfg.window == until
  }

  // No slot is free for `key` and none comes free before `until`.
  predicate NoSlot(cfg: Config, t: Table, key: string, until: int) {
    && key !in t && |t| >= cfg.maxEntries
    && (cfg.maxEntries > 0 ==> forall k | k in t :: t[k].started >= 1 && t[k].started + cfg.window >= until)
  }

  lemma BlockedStep(cfg: Config, t: Table, key: string, until: int, r: Request)
    requires WindowFull(cfg, t, key, until) || NoSlot(cfg, t, key, until)
    requires 1 <= r.now < until
    ensures r.key == key ==> !Next(cfg, t, r.key, r.now).1.allowed
    ensures var t' := Next(cfg, t, r.key, r.now).0; WindowFull(cfg, t', key, until) || NoSlot(cfg, t', key, until)
  {
    if !WindowFull(cfg, t, key, until) && cfg.maxEntries > 0 {
      assert Unexpired(cfg, t, r.now) == t;
      InsertSize(t, r.key, Entry(Lookup(t, r.key).started, Lookup(t, r.key).count + 1));
    }
  }

  lemma {:induction false} BlockedRun(cfg: Config, t: Table, key: string, clock: int, until: int, reqs: seq<Request>)
    requires WindowFull(cfg, t, key, until) || NoSlot(cfg, t, key, until)
    requires Ordered(clock, reqs)
    ensures RefusedIn(cfg, t, key, until, reqs)
    decreases |reqs|
  {
    if reqs != [] {
      var r := reqs[0];
      if r.now < until {
        BlockedStep(cfg, t, key, until, r);
        var t' := Next(cfg, t, r.key, r.now).0;
        BlockedRun(cfg, t', key, r.now, until, reqs[1..]);
        var rest := Run(cfg, t', reqs[1..]);
        assert forall i | 1 <= i < |reqs| :: reqs[i] == reqs[1..][i - 1] && Run(cfg, t, reqs)[i] == rest[i - 1];
      } else {
        LaterThan(r.now, reqs);
      }
    }
  }

  lemma {:induction false} LaterThan(clock: int, reqs: seq<Request>)
    requires Ordered(clock, reqs)
    ensures forall i | 0 <= i < |reqs| :: clock <= reqs[i].now
    decreases |reqs|
  {
    if reqs != [] {
      LaterThan(reqs[0].now, reqs[1..]);
      assert forall i | 1 <= i < |reqs| :: reqs[i] == reqs[1..][i - 1];
    }
  }

  /** The retry time of a denial is a promise (the key is refused until then, whatever
      happens) exactly when the key itself used up its window, or the table has no
      capacity at all, or every stored window opened at this very instant. A denial
      for a full table is otherwise lifted early, as soon as another entry expires. */
  lemma RetryIsPromise(cfg: Config, t: Table, key: string, now: int)
    requires cfg.limit >= 1 && now >= 1 && (cfg.maxEntries >= 0 ==> |t| <= cfg.maxEntries)
    requires forall k | k in t :: 1 <= t[k].started <= now && t[k].count >= 1
    requires !Next(cfg, t, key, now).1.allowed
    ensures var (t', v) := Next(cfg, t, key, now);
            RefusedUntil(cfg, t', key, now, now + v.retryAfter)
            <==> (|| key in t
                  || cfg.maxEntries <= 0
                  || forall k | k in t && now - t[k].started < cfg.window :: t[k].started == now)
  {
    var (t', v) := Next(cfg, t, key, now);
    var until := now + v.retryAfter;
    if WindowFull(cfg, t', key, until) || NoSlot(cfg, t', key, until) {
      forall reqs | Ordered(now, reqs) ensures RefusedIn(cfg, t', key, until, reqs) {
        BlockedRun(cfg, t', key, now, until, reqs);
      }
      if key !in t && cfg.maxEntries > 0 {
        forall k | k in t && now - t[k].started < cfg.window ensures t[k].started == now {
          assert t' == Unexpired(cfg, t, now) && k in t';
        }
      }
    } else {
      var k :| k in t' && t'[k].started < now;
      var probe := [Request(key, t'[k].started + cfg.window)];
      UnexpiredSmaller(cfg, t, now);
      var kept := Unexpired(cfg, t', probe[0].now);
      SubsetSize(kept.Keys, t'.Keys - {k});
      assert Run(cfg, t', probe)[0].allowed;
      assert Ordered(now, probe);
      assert !RefusedIn(cfg, t', key, until, probe);
    }
  }

  // ---------- tables that requests can reach ----------

  // Every entry has been opened, not later than `clock`, and counts its request.
  predicate Sound(t: Table, clock: int) {
    forall k | k in t :: 1 <= t[k].started <= clock && t[k].count >= 1
  }

  function LastTime(clock: int, reqs: seq<Request>): int {
    if reqs == [] then clock else reqs[|reqs| - 1].now
  }

  lemma {:induction false} TablesAreSound(cfg: Config, t: Table, clock: int, reqs: seq<Request>)
    requires Sound(t, clock) && Ordered(clock, reqs)
    ensures Sound(After(cfg, t, reqs), LastTime(clock, reqs)) && clock <= LastTime(clock, reqs)
    decreases |reqs|
  {
    if reqs != [] {
      var r := reqs[0];
      TablesAreSound(cfg, Next(cfg, t, r.key, r.now).0, r.now, reqs[1..]);
      assert LastTime(r.now, reqs[1..]) == LastTime(clock, reqs);
    }
  }

  // What a denial's retry time is worth, in every table that requests can lead to.
  lemma RetryIsPromiseInRuns(cfg: Config, reqs: seq<Request>, key: string, now: int)
    requires cfg.limit >= 1 && Ordered(1, reqs) && LastTime(1, reqs) <= now
    requires !Next(cfg, After(cfg, map[], reqs), key, now).1.allowed
    ensures var t := After(cfg, map[], reqs);
            var (t', v) := Next(cfg, t, key, now);
            RefusedUntil(cfg, t', key, now, now + v.retryAfter)
            <==> (|| key in t
                  || cfg.maxEntries <= 0
                  || forall k | k in t && now - t[k].started < cfg.window :: t[k].started == now)
  {
    TablesAreSound(cfg, map[], 1, reqs);
    if cfg.maxEntries >= 0 {
      TableStaysBounded(cfg, map[], reqs);
    }
    RetryIsPromise(cfg, After(cfg, map[], reqs), key, now);
  }
}
