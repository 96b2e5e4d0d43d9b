/**
 What the limiter answers, read off the history of requests and answers alone: a request is
 turned away for its own requests or for a full table, and for nothing else.
 */
module RateHistory {
  import opened Wrappers
  import opened RateLimiter

  // When the key's latest window opened: at the first request let through, and again at each one
  // let through a window length or more after the last opening.
  function Opened(cfg: Config, reqs: seq<Request>, verdicts: seq<Verdict>, key: string): Option<int>
    requires |reqs| == |verdicts|
  {
    if reqs == [] then None
    else
      var n := |reqs| - 1;
      var w := Opened(cfg, reqs[..n], verdicts[..n], key);
      if !verdicts[n].allowed || reqs[n].key != key then w
      else if w.Some? && reqs[n].now - w.value < cfg.window then w
      else Some(reqs[n].now)
  }

  predicate Live(cfg: Config, reqs: seq<Request>, verdicts: seq<Verdict>, key: string, now: int)
    requires |reqs| == |verdicts|
  {
    var w := Opened(cfg, reqs, verdicts, key);
    w.Some? && now - w.value < cfg.window
  }

  // The keys whose latest window is still open.
  function LiveKeys(cfg: Config, reqs: seq<Request>, verdicts: seq<Verdict>, now: int): set<string>
    requires |reqs| == |verdicts|
  {
    set i | 0 <= i < |reqs| && Live(cfg, reqs, verdicts, reqs[i].key, now) :: reqs[i].key
  }

  // ---------- one more request ----------

  lemma {:induction false} RunSnoc(cfg: Config, t: Table, reqs: seq<Request>, r: Request)
    ensures After(cfg, t, reqs + [r]) == Next(cfg, After(cfg, t, reqs), r.key, r.now).0
    ensures Run(cfg, t, reqs + [r]) == Run(cfg, t, reqs) + [Next(cfg, After(cfg, t, reqs), r.key, r.now).1]
    decreases |reqs|
  {
    if reqs == [] {
      assert [] + [r] == [r] && [r][1..] == [];
    } else {
      var t' := Next(cfg, t, reqs[0].key, reqs[0].now).0;
      RunSnoc(cfg, t', reqs[1..], r);
      assert (reqs + [r])[1..] == reqs[1..] + [r];
    }
  }

  lemma {:induction false} AllowedSnoc(reqs: seq<Request>, verdicts: seq<Verdict>, r: Request, v: Verdict, key: string,
                                       from: int, to: int)
    requires |reqs| == |verdicts|
    ensures AllowedIn(reqs + [r], verdicts + [v], key, from, to)
            == AllowedIn(reqs, verdicts, key, from, to) +
               (if v.allowed && r.key == key && from <= r.now < to then 1 else 0)
    decreases |reqs|
  {
    if reqs == [] {
      assert [] + [r] == [r] && [] + [v] == [v];
    } else {
      AllowedSnoc(reqs[1..], verdicts[1..], r, v, key, from, to);
      assert (reqs + [r])[1..] == reqs[1..] + [r] && (verdicts + [v])[1..] == verdicts[1..] + [v];
    }
  }

  lemma {:induction false} OrderedSnoc(clock: int, reqs: seq<Request>, r: Request)
    requires Ordered(clock, reqs + [r])
    ensures Ordered(clock, reqs) && LastTime(clock, reqs) <= r.now && LastTime(clock, reqs + [r]) == r.now
    decreases |reqs|
  {
    if reqs == [] {
      assert [] + [r] == [r];
    } else {
      assert (reqs + [r])[1..] == reqs[1..] + [r];
      OrderedSnoc(reqs[0].now, reqs[1..], r);
      assert LastTime(reqs[0].now, reqs[1..]) == LastTime(clock, reqs);
    }
  }

  lemma OpenedSnoc(cfg: Config, reqs: seq<Request>, verdicts: seq<Verdict>, r: Request, v: Verdict, key: string)
    requires |reqs| == |verdicts|
    ensures var w := Opened(cfg, reqs, verdicts, key);
            Opened(cfg, reqs + [r], verdicts + [v], key) ==
            if !v.allowed || r.key != key then w
            else if w.Some? && r.now - w.value < cfg.window then w
            else Some(r.now)
  {
    assert (reqs + [r])[..|reqs|] == reqs && (verdicts + [v])[..|verdicts|] == verdicts;
  }

  // ---------- the table is the history ----------

  // What has been let through since the latest window opened, and that it was all of it in it.
  ghost predicate Counted(cfg: Config, reqs: seq<Request>, verdicts: seq<Verdict>, key: string, clock: int, count: int)
    requires |reqs| == |verdicts|
  {
    var w := Opened(cfg, reqs, verdicts, key);
    && (w.None? ==> forall from, to :: AllowedIn(reqs, verdicts, key, from, to) == 0)
    && (w.Some? ==>
          && 1 <= w.value <= clock
          && (forall from, to | from >= w.value + cfg.window :: AllowedIn(reqs, verdicts, key, from, to) == 0)
          && (forall to | to > clock :: AllowedIn(reqs, verdicts, key, w.value, to) == count))
  }

  lemma CountedSnoc(cfg: Config, reqs: seq<Request>, verdicts: seq<Verdict>, r: Request, v: Verdict, key: string,
                    clock: int, count: int)
    requires |reqs| == |verdicts| && cfg.window >= 1 && clock <= r.now && 1 <= r.now
    requires Counted(cfg, reqs, verdicts, key, clock, count)
    ensures var w := Opened(cfg, reqs, verdicts, key);
            Counted(cfg, reqs + [r], verdicts + [v], key, r.now,
                    if !v.allowed || r.key != key then count
                    else if w.Some? && r.now - w.value < cfg.window then count + 1
                    else 1)
  {
    OpenedSnoc(cfg, reqs, verdicts, r, v, key);
    forall from, to
      ensures AllowedIn(reqs + [r], verdicts + [v], key, from, to)
              == AllowedIn(reqs, verdicts, key, from, to) +
                 (if v.allowed && r.key == key && from <= r.now < to then 1 else 0)
    {
      AllowedSnoc(reqs, verdicts, r, v, key, from, to);
    }
  }

  // The key's entry is its latest window, and it is only ever dropped once that is over.
  ghost predicate Mirrors(cfg: Config, reqs: seq<Request>, verdicts: seq<Verdict>, t: Table, key: string, clock: int)
    requires |reqs| == |verdicts|
  {
    var w := Opened(cfg, reqs, verdicts, key);
    && (w.Some? ==> 1 <= w.value <= clock)
    && (key in t ==> w == Some(t[key].started))
    && (key !in t && w.Some? ==> w.value + cfg.window <= clock)
    && (cfg.window >= 1 ==>
          exists count ::
            Counted(cfg, reqs, verdicts, key, clock, count) && (key in t ==> t[key].count == count))
  }

  lemma MirrorsSnoc(cfg: Config, reqs: seq<Request>, verdicts: seq<Verdict>, t: Table, key: string, clock: int,
                    r: Request)
    requires |reqs| == |verdicts| && clock <= r.now && 1 <= r.now && Mirrors(cfg, reqs, verdicts, t, key, clock)
    ensures var (t', v) := Next(cfg, t, r.key, r.now);
            Mirrors(cfg, reqs + [r], verdicts + [v], t', key, r.now)
  {
    var (t', v) := Next(cfg, t, r.key, r.now);
    OpenedSnoc(cfg, reqs, verdicts, r, v, key);
    if cfg.window >= 1 {
      var count :| Counted(cfg, reqs, verdicts, key, clock, count) && (key in t ==> t[key].count == count);
      CountedSnoc(cfg, reqs, verdicts, r, v, key, clock, count);
    }
  }

  lemma {:induction false} AlwaysMirrors(cfg: Config, reqs: seq<Request>, key: string)
    requires Ordered(1, reqs)
    ensures Mirrors(cfg, reqs, Run(cfg, map[], reqs), After(cfg, map[], reqs), key, LastTime(1, reqs))
    decreases |reqs|
  {
    if reqs == [] {
      assert Counted(cfg, reqs, [], key, 1, 0);
    } else {
      var front, r := reqs[..|reqs| - 1], reqs[|reqs| - 1];
      assert reqs == front + [r];
      OrderedSnoc(1, front, r);
      LastIsLate(1, front);
      AlwaysMirrors(cfg, front, key);
      RunSnoc(cfg, map[], front, r);
      MirrorsSnoc(cfg, front, Run(cfg, map[], front), After(cfg, map[], front), key, LastTime(1, front), r);
    }
  }

  lemma {:induction false} LastIsLate(clock: int, reqs: seq<Request>)
    requires Ordered(clock, reqs)
    ensures 1 <= clock <= LastTime(clock, reqs)
    decreases |reqs|
  {
    if reqs != [] {
      LastIsLate(reqs[0].now, reqs[1..]);
      assert LastTime(reqs[0].now, reqs[1..]) == LastTime(clock, reqs);
    }
  }

  // ---------- the answers ----------

  lemma {:induction false} OpenedByRequest(cfg: Config, reqs: seq<Request>, verdicts: seq<Verdict>, key: string)
    requires |reqs| == |verdicts| && Opened(cfg, reqs, verdicts, key).Some?
    ensures exists i | 0 <= i < |reqs| :: reqs[i].key == key
  {
    var n := |reqs| - 1;
    if verdicts[n].allowed && reqs[n].key == key {
    } else {
      OpenedByRequest(cfg, reqs[..n], verdicts[..n], key);
      var i :| 0 <= i < n && reqs[..n][i].key == key;
      assert reqs[i].key == key;
    }
  }

  // Sweeping leaves exactly the keys with an open window.
  lemma UnexpiredAreLive(cfg: Config, reqs: seq<Request>, now: int)
    requires Ordered(1, reqs) && LastTime(1, reqs) <= now
    ensures Unexpired(cfg, After(cfg, map[], reqs), now).Keys == LiveKeys(cfg, reqs, Run(cfg, map[], reqs), now)
  {
    var t, h := After(cfg, map[], reqs), Run(cfg, map[], reqs);
    var kept, live := Unexpired(cfg, t, now), LiveKeys(cfg, reqs, h, now);
    forall k ensures k in kept <==> k in live {
      AlwaysMirrors(cfg, reqs, k);
      if k in kept {
        OpenedByRequest(cfg, reqs, h, k);
      }
    }
  }

  /** The answer to the next request, after any requests of any keys. A key whose window is open
      is turned away exactly when it has been let through `limit` times since the window opened,
      until the window is over. Any other key is turned away exactly when it has no entry and
      the windows of as many keys as the table holds are open. */
  lemma VerdictExactly(cfg: Config, reqs: seq<Request>, key: string, now: int)
    requires Ordered(1, reqs) && LastTime(1, reqs) <= now
    ensures var t, h := After(cfg, map[], reqs), Run(cfg, map[], reqs);
            var w := Opened(cfg, reqs, h, key);
            Next(cfg, t, key, now).1 ==
            if Live(cfg, reqs, h, key, now) then
              if AllowedIn(reqs, h, key, w.value, now + 1) >= cfg.limit then
                Verdict(false, w.value + cfg.window - now)
              else Verdict(true, 0)
            else if key !in t && |LiveKeys(cfg, reqs, h, now)| >= cfg.maxEntries then Verdict(false, cfg.window)
            else Verdict(true, 0)
  {
    var t, h := After(cfg, map[], reqs), Run(cfg, map[], reqs);
    AlwaysMirrors(cfg, reqs, key);
    LastIsLate(1, reqs);
    if key !in t {
      UnexpiredAreLive(cfg, reqs, now);
      UnexpiredSmaller(cfg, t, now);
      assert |Unexpired(cfg, t, now)| == |Unexpired(cfg, t, now).Keys|;
    }
    if Live(cfg, reqs, h, key, now) {
      var count :| Counted(cfg, reqs, h, key, LastTime(1, reqs), count) && (key in t ==> t[key].count == count);
      assert AllowedIn(reqs, h, key, Opened(cfg, reqs, h, key).value, now + 1) == count;
    }
  }

  // Up to its i-th request a run is the run of the requests before it.
  lemma {:induction false} RunAt(cfg: Config, t: Table, reqs: seq<Request>, i: nat)
    requires i < |reqs|
    ensures Run(cfg, t, reqs)[..i] == Run(cfg, t, reqs[..i])
    ensures Run(cfg, t, reqs)[i] == Next(cfg, After(cfg, t, reqs[..i]), reqs[i].key, reqs[i].now).1
    decreases |reqs|
  {
    if i > 0 {
      var t' := Next(cfg, t, reqs[0].key, reqs[0].now).0;
      RunAt(cfg, t', reqs[1..], i - 1);
      assert reqs[1..][..i - 1] == reqs[..i][1..];
      assert Run(cfg, t, reqs)[..i] == [Run(cfg, t, reqs)[0]] + Run(cfg, t', reqs[1..])[..i - 1];
    } else {
      assert reqs[..0] == [];
    }
  }

  lemma {:induction false} OrderedAt(clock: int, reqs: seq<Request>, i: nat)
    requires Ordered(clock, reqs) && i < |reqs|
    ensures Ordered(clock, reqs[..i]) && LastTime(clock, reqs[..i]) <= reqs[i].now
    decreases |reqs|
  {
    if i > 0 {
      OrderedAt(reqs[0].now, reqs[1..], i - 1);
      assert reqs[1..][..i - 1] == reqs[..i][1..];
      assert LastTime(reqs[0].now, reqs[..i][1..]) == LastTime(clock, reqs[..i]);
    }
  }

  /** In every run, whoever else is served: a request is denied only if its own key was let
      through `limit` times in a window that is still open, or if it has no open window and
      `maxEntries` other keys have one. */
  lemma DenialsAreEarned(cfg: Config, reqs: seq<Request>, i: nat)
    requires Ordered(1, reqs) && i < |reqs| && !Run(cfg, map[], reqs)[i].allowed
    ensures var past, h, r := reqs[..i], Run(cfg, map[], reqs)[..i], reqs[i];
            var w := Opened(cfg, past, h, r.key);
            || (&& w.Some? && r.now - w.value < cfg.window
                && AllowedIn(past, h, r.key, w.value, r.now + 1) >= cfg.limit)
            || (&& (w.Some? ==> r.now - w.value >= cfg.window)
                && r.key !in LiveKeys(cfg, past, h, r.now) && |LiveKeys(cfg, past, h, r.now)| >= cfg.maxEntries)
  {
    RunAt(cfg, map[], reqs, i);
    OrderedAt(1, reqs, i);
    VerdictExactly(cfg, reqs[..i], reqs[i].key, reqs[i].now);
  }
}
