/**
 Web sessions with a sliding idle expiry and a fixed absolute one.

 Authentication checks the stored expiries first and extends the idle expiry later, in a
 statement of its own, so two requests on one session can interleave. Times are
 nanoseconds on one clock that never goes back.
 */
module Sessions {

  import opened Wrappers

  const SECOND := 1_000_000_000

  // The row in web_sessions. Its hash stands for the one session value it was computed from,
  // and the idle lifetime is stored in whole seconds.
  datatype Row = Row(hashed: string, active: bool, idleSeconds: nat, idleExpires: int, absoluteExpires: int)

  function Min(a: int, b: int): int {
    if a < b then a else b
  }

  datatype Options = Options(userId: int, issuer: string, idleTTL: int, absoluteTTL: int)

  // CreateSession with the session value `raw` drawn for it.
  function Create(raw: string, now: int, o: Options): Option<Row> {
    if o.userId == 0 || o.issuer == "" || o.idleTTL <= 0 || o.absoluteTTL <= 0 || o.idleTTL > o.absoluteTTL then None
    else Some(Row(raw, true, o.idleTTL / SECOND, now + o.idleTTL, now + o.absoluteTTL))
  }

  // The two expiries are compared with two readings of the clock.
  predicate Admits(row: Row, raw: string, first: int, second: int) {
    raw == row.hashed && row.active && first <= row.idleExpires && second <= row.absoluteExpires
  }

  function Touch(row: Row, now: int): Row {
    row.(idleExpires := Min(row.absoluteExpires, now + row.idleSeconds * SECOND))
  }

  class Session {
    var row: Row

    constructor (raw: string, now: int, o: Options)
      requires Create(raw, now, o).Some?
      ensures Create(raw, now, o) == Some(row)
    {
      row := Row(raw, true, o.idleTTL / SECOND, now + o.idleTTL, now + o.absoluteTTL);
    }

    // An undisturbed request: check, then extend. The extension itself may fail unnoticed.
    method Authenticate(raw: string, first: int, second: int, third: int, extended: bool) returns (ok: bool)
      modifies this
      ensures forall s: State | s.row == old(row) && s.pending == 0 ::
                && (ok <==> Accepts(s, Check(raw, first, second)))
                && Run(s, Undisturbed(raw, first, second, third, extended)).row == row
    {
      ok := raw == row.hashed && row.active && first <= row.idleExpires && second <= row.absoluteExpires;
      if ok && extended {
        row := row.(idleExpires := Min(row.absoluteExpires, third + row.idleSeconds * SECOND));
      }
      forall s: State | s.row == old(row) && s.pending == 0
        ensures (ok <==> Accepts(s, Check(raw, first, second))) &&
                  Run(s, Undisturbed(raw, first, second, third, extended)).row == row
      {
        UndisturbedRun(s, raw, first, second, third, extended);
      }
    }

    method Revoke() returns (ok: bool)
      modifies this
      ensures ok == old(row).active && row == old(row).(active := false)
    {
      ok := row.active;
      row := row.(active := false);
    }
  }

  // ---------- interleaved requests ----------

  /** The row, the clock, how many requests have been admitted but have not extended the row
      yet, the last time the session was created or extended, whether it was extended at all,
      and the last time it was created or a request accepted. */
  datatype State = State(row: Row, clock: int, pending: nat, seen: int, extended: bool, last: int)

  datatype Event = Check(raw: string, first: int, second: int) | Extend(at: int) | Abandon(at: int) | Revoke(at: int)

  function Ends(e: Event): int {
    if e.Check? then e.second else e.at
  }

  predicate Timely(clock: int, e: Event) {
    if e.Check? then clock <= e.first <= e.second else clock <= e.at
  }

  predicate Accepts(s: State, e: Event) {
    e.Check? && Admits(s.row, e.raw, e.first, e.second)
  }

  function Apply(s: State, e: Event): State {
    var s := s.(clock := Ends(e));
    match e
    case Check(raw, first, second) => if Admits(s.row, raw, first, second)
        then s.(pending := s.pending + 1, last := second) else s
    case Extend(at) =>
      if s.pending == 0 then s else s.(row := Touch(s.row, at), pending := s.pending - 1, seen := at, extended := true)
    case Abandon(_) => if s.pending == 0 then s else s.(pending := s.pending - 1)
    case Revoke(_) => s.(row := s.row.(active := false))
  }

  function Run(s: State, es: seq<Event>): State
    decreases |es|
  {
    if es == [] then s else Run(Apply(s, es[0]), es[1..])
  }

  predicate Ordered(clock: int, es: seq<Event>)
    decreases |es|
  {
    es == [] || (Timely(clock, es[0]) && Ordered(Ends(es[0]), es[1..]))
  }

  // The session as it was created.
  function Start(now: int, row: Row): State {
    State(row, now, 0, now, false, now)
  }

  // What holds of a session created at `born` with these lifetimes, in every run.
  predicate Inv(s: State, raw: string, born: int, o: Options) {
    && s.row.hashed == raw
    && born <= s.seen <= s.clock && born <= s.last <= s.clock
    && s.row.idleExpires == (if s.extended then Touch(s.row, s.seen).idleExpires else born + o.idleTTL)
    && (!s.extended ==> s.seen == born)
    && s.row.absoluteExpires == born + o.absoluteTTL
    && s.row.idleExpires <= s.row.absoluteExpires
    && s.row.idleExpires <= s.seen + o.idleTTL
    && s.row.idleSeconds == o.idleTTL / SECOND
    && s.row.idleSeconds * SECOND <= o.idleTTL
  }

  lemma StartInv(raw: string, now: int, o: Options)
    requires Create(raw, now, o).Some?
    ensures Inv(Start(now, Create(raw, now, o).value), raw, now, o)
  {
  }

  lemma {:induction false} RunInv(s: State, es: seq<Event>, raw: string, born: int, o: Options)
    requires Inv(s, raw, born, o) && Ordered(s.clock, es)
    ensures Inv(Run(s, es), raw, born, o)
    decreases |es|
  {
    if es != [] {
      RunInv(Apply(s, es[0]), es[1..], raw, born, o);
    }
  }

  /** After any run the idle expiry is no later than the absolute one, and a request is
      accepted only within the absolute lifetime and within the idle lifetime of the creation
      or the last extension. */
  lemma AcceptedWithinLifetimes(raw: string, now: int, o: Options, es: seq<Event>, e: Event)
    requires Create(raw, now, o).Some?
    requires Ordered(now, es)
    ensures var s := Run(Start(now, Create(raw, now, o).value), es);
            && s.row.idleExpires <= s.row.absoluteExpires
            && (Accepts(s, e) ==> e.raw == raw && e.second <= now + o.absoluteTTL && e.first <= s.seen + o.idleTTL)
  {
    var s0 := Start(now, Create(raw, now, o).value);
    StartInv(raw, now, o);
    RunInv(s0, es, raw, now, o);
  }

  predicate Revoked(es: seq<Event>) {
    exists i | 0 <= i < |es| :: es[i].Revoke?
  }

  lemma {:induction false} ActiveExactly(s: State, es: seq<Event>)
    ensures Run(s, es).row.active <==> s.row.active && !Revoked(es)
    decreases |es|
  {
    if es != [] {
      ActiveExactly(Apply(s, es[0]), es[1..]);
      assert forall i | 1 <= i < |es| :: es[i] == es[1..][i - 1];
      if Revoked(es) && !es[0].Revoke? {
        var i :| 0 <= i < |es| && es[i].Revoke?;
        assert es[1..][i - 1].Revoke?;
      }
    }
  }

  /** And every such request is accepted: the session's own value, unless it was revoked, until the
      absolute expiry and until the idle lifetime since the creation is over or, once extended,
      the whole seconds of it since the last extension. */
  lemma AcceptedExactly(raw: string, now: int, o: Options, es: seq<Event>, e: Event)
    requires Create(raw, now, o).Some? && Ordered(now, es) && e.Check?
    ensures var s := Run(Start(now, Create(raw, now, o).value), es);
            Accepts(s, e) <==>
              && e.raw == raw && !Revoked(es) && e.second <= now + o.absoluteTTL
              && (if s.extended then e.first <= now + o.absoluteTTL && e.first <= s.seen + o.idleTTL / SECOND * SECOND
                  else e.first <= now + o.idleTTL)
  {
    var s0 := Start(now, Create(raw, now, o).value);
    StartInv(raw, now, o);
    RunInv(s0, es, raw, now, o);
    ActiveExactly(s0, es);
  }

  // ---------- the last acceptance ----------

  // Every request accepted next comes within the idle lifetime of the last acceptance.
  ghost predicate WithinLastAcceptance(s: State, o: Options) {
    forall e | Timely(s.clock, e) && Accepts(s, e) :: e.first <= s.last + o.idleTTL
  }

  /** The last extension came so long after the last accepted check that what it stored
      outlasts the idle lifetime counted from that check. */
  predicate ExtendedLate(s: State, o: Options) {
    && s.extended
    && s.seen + s.row.idleSeconds * SECOND > s.last + o.idleTTL
    && s.row.absoluteExpires > s.last + o.idleTTL
  }

  /** After any run: the next acceptance is within the idle lifetime of the creation or the last
      acceptance exactly when the last extension was not late, or nothing can be accepted any
      more because the session is revoked or its idle expiry has passed. */
  lemma LastAcceptanceExactly(raw: string, now: int, o: Options, es: seq<Event>)
    requires Create(raw, now, o).Some? && Ordered(now, es)
    ensures var s := Run(Start(now, Create(raw, now, o).value), es);
            WithinLastAcceptance(s, o) <==> !s.row.active || s.row.idleExpires < s.clock || !ExtendedLate(s, o)
  {
    StartInv(raw, now, o);
    RunInv(Start(now, Create(raw, now, o).value), es, raw, now, o);
    var s := Run(Start(now, Create(raw, now, o).value), es);
    if s.row.active && s.row.idleExpires >= s.clock && ExtendedLate(s, o) {
      var e := Check(raw, s.row.idleExpires, s.row.idleExpires);
      assert Timely(s.clock, e) && Accepts(s, e);
    }
  }

  // In particular it is when no extension ran later than the latest accepted check.
  lemma PromptExtensions(s: State, o: Options)
    requires s.seen <= s.last && s.row.idleSeconds * SECOND <= o.idleTTL
    ensures !ExtendedLate(s, o)
  {
  }

  /** Checked at 9 seconds and extended at 12, a session with an idle lifetime of 10 seconds is
      accepted at 20, which is 11 seconds after its last acceptance. */
  lemma LateExtensionOutlasts(raw: string) returns (s: State, es: seq<Event>, e: Event)
    ensures var o := Options(1, "https://issuer", 10 * SECOND, 100 * SECOND);
            && s == Run(Start(0, Create(raw, 0, o).value), es) && Ordered(0, es)
            && Timely(s.clock, e) && Accepts(s, e) && e.first - s.last == 11 * SECOND && ExtendedLate(s, o)
  {
    var o := Options(1, "https://issuer", 10 * SECOND, 100 * SECOND);
    var start := Start(0, Create(raw, 0, o).value);
    var a, b := Check(raw, 9 * SECOND, 9 * SECOND), Extend(12 * SECOND);
    es, e := [a, b], Check(raw, 20 * SECOND, 20 * SECOND);
    assert es[1..] == [b] && [b][1..] == [];
    assert Run(Apply(start, a), [b]) == Apply(Apply(start, a), b);
    assert Ordered(9 * SECOND, [b]);
    s := Apply(Apply(start, a), b);
  }

  // ---------- undisturbed requests ----------

  // One request with nothing in between; the extension is made or lost.
  function Undisturbed(raw: string, first: int, second: int, third: int, extended: bool): seq<Event> {
    [Check(raw, first, second), if extended then Extend(third) else Abandon(third)]
  }

  lemma UndisturbedRun(s: State, raw: string, first: int, second: int, third: int, extended: bool)
    requires s.pending == 0
    ensures var after := Run(s, Undisturbed(raw, first, second, third, extended));
            && after.pending == 0 && after.clock == third
            && after.row == if Admits(s.row, raw, first, second) && extended then Touch(s.row, third) else s.row
  {
    var es := Undisturbed(raw, first, second, third, extended);
    var mid := Apply(s, es[0]);
    assert es[1..] == [es[1]] && [es[1]][1..] == [];
    assert Run(mid, [es[1]]) == Apply(mid, es[1]);
  }

  /** Using a session keeps it alive: after an undisturbed request at `third` the next one is
      accepted exactly until the stored idle lifetime from then, or the absolute expiry. */
  lemma UseKeepsAlive(s: State, first: int, second: int, third: int, next: Event)
    requires s.pending == 0 && Accepts(s, Check(s.row.hashed, first, second)) && next.Check?
    ensures var after := Run(s, Undisturbed(s.row.hashed, first, second, third, true));
            Accepts(after, next) <==>
              && next.raw == s.row.hashed && next.second <= s.row.absoluteExpires
              && next.first <= s.row.absoluteExpires && next.first <= third + s.row.idleSeconds * SECOND
  {
    UndisturbedRun(s, s.row.hashed, first, second, third, true);
  }

  /** Without interleaving a rejection of the session's own value is final: no later request is
      ever accepted. */
  lemma UndisturbedRejectionIsFinal(s: State, first: int, second: int, third: int, extended: bool)
    requires s.pending == 0 && s.row.idleExpires <= s.row.absoluteExpires
    requires s.clock <= first <= second <= third && !Accepts(s, Check(s.row.hashed, first, second))
    ensures Dead(Run(s, Undisturbed(s.row.hashed, first, second, third, extended)))
  {
    UndisturbedRun(s, s.row.hashed, first, second, third, extended);
    DeadExactly(Run(s, Undisturbed(s.row.hashed, first, second, third, extended)));
  }

  // ---------- when a rejection is final ----------

  predicate NoneAccepted(s: State, es: seq<Event>)
    decreases |es|
  {
    es == [] || (!Accepts(s, es[0]) && NoneAccepted(Apply(s, es[0]), es[1..]))
  }

  ghost predicate Dead(s: State) {
    forall es | Ordered(s.clock, es) :: NoneAccepted(s, es)
  }

  predicate Final(s: State) {
    || !s.row.active
    || s.row.absoluteExpires < s.clock
    || (s.row.idleExpires < s.clock && s.pending == 0)
  }

  lemma {:induction false} FinalRejects(s: State, es: seq<Event>)
    requires Final(s) && s.row.idleExpires <= s.row.absoluteExpires && Ordered(s.clock, es)
    ensures NoneAccepted(s, es)
    decreases |es|
  {
    if es != [] {
      FinalRejects(Apply(s, es[0]), es[1..]);
    }
  }

  /** A session is dead - no later request can ever be accepted - exactly when it is revoked,
      past its absolute lifetime, or past its idle lifetime with no admitted request still to
      extend it. */
  lemma DeadExactly(s: State)
    requires s.row.idleExpires <= s.row.absoluteExpires
    ensures Dead(s) <==> Final(s)
  {
    if Final(s) {
      forall es | Ordered(s.clock, es) ensures NoneAccepted(s, es) {
        FinalRejects(s, es);
      }
    } else {
      var check := Check(s.row.hashed, s.clock, s.clock);
      var es := if s.clock <= s.row.idleExpires then [check] else [Extend(s.clock), check];
      assert es[1..] == if s.clock <= s.row.idleExpires then [] else [check];
      assert Ordered(s.clock, es);
      if s.row.idleExpires < s.clock {
        var s' := Apply(s, es[0]);
        assert Accepts(s', check);
        assert !NoneAccepted(s', es[1..]);
      }
      assert !NoneAccepted(s, es);
    }
  }

  /** So a request turned away for being idle too long can be followed by an accepted one, if
      another request was admitted before the expiry and extends the row after it. */
  lemma IdleRejectionCanBeUndone(raw: string) returns (s: State, es: seq<Event>)
    ensures s == Start(0, Create(raw, 0, Options(1, "https://issuer", 10 * SECOND, 100 * SECOND)).value)
    ensures Ordered(0, es)
    ensures |es| == 4
    ensures Accepts(s, es[0])
    ensures es[1].Check? && !Accepts(Run(s, es[..1]), es[1])
    ensures Accepts(Run(s, es[..3]), es[3])
  {
    s := Start(0, Create(raw, 0, Options(1, "https://issuer", 10 * SECOND, 100 * SECOND)).value);
    var a, b, c, d := Check(raw, 9 * SECOND, 9 * SECOND), Check(raw, 11 * SECOND, 11 * SECOND),
               Extend(12 * SECOND), Check(raw, 13 * SECOND, 13 * SECOND);
    es := [a, b, c, d];
    var s1, s2, s3 := Apply(s, a), Apply(Apply(s, a), b), Apply(Apply(Apply(s, a), b), c);
    assert es[1..] == [b, c, d] && [b, c, d][1..] == [c, d] && [c, d][1..] == [d];
    assert es[..1] == [a] && [a][1..] == [];
    assert Run(s, [a]) == s1;
    assert es[..3] == [a, b, c] && [a, b, c][1..] == [b, c] && [b, c][1..] == [c] && [c][1..] == [];
    assert Run(s2, [c]) == s3;
    assert Run(s1, [b, c]) == s3;
    assert Run(s, [a, b, c]) == s3;
    assert Ordered(12 * SECOND, [d]);
    assert Ordered(11 * SECOND, [c, d]);
    assert Ordered(9 * SECOND, [b, c, d]);
  }
}
