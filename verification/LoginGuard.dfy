/** Locking an account after repeated wrong passwords, and the number of guesses it lets
    through.  A password attempt is a check, an asynchronous hash, and then a registration, so
    several attempts can be between their check and their registration at once. */
module LoginGuards {
  import opened Options
  import opened TtlStores

  const MAX_FAILS := 5
  const MINUTE := 60 * 1000
  const HOUR := 60 * MINUTE
  const FORGET_MS := HOUR

  /** `LOCK_STEPS_MS[Math.min(level, 3)]` */
  function LockStep(level: nat): int {
    if level == 0 then MINUTE else if level == 1 then 5 * MINUTE else if level == 2 then 15 * MINUTE else HOUR
  }

  datatype Record = Record(fails: nat, lockedUntil: int, level: nat, seen: int)

  /** The record after one more failure at `now`. */
  function Bumped(prev: Option<Record>, now: int): Record {
    var rec := if prev.None? then Record(0, 0, 0, now) else prev.value;
    var start := if now - rec.seen > FORGET_MS then rec.(fails := 0, level := 0) else rec;
    if start.fails + 1 >= MAX_FAILS
    then Record(0, now + LockStep(start.level), start.level + 1, now)
    else start.(fails := start.fails + 1, seen := now)
  }

  function TtlFor(rec: Record, now: int): int {
    if rec.lockedUntil - now > FORGET_MS then rec.lockedUntil - now else FORGET_MS
  }

  function Registered(prev: Option<Record>, now: int): Stamped<Record> {
    var rec := Bumped(prev, now);
    Stamped(rec, now + TtlFor(rec, now))
  }

  predicate LockedAt(rec: Option<Record>, now: int) {
    rec.Some? && rec.value.lockedUntil > now
  }

  /** The guard over the ideal expiring store, which both real stores agree with. */
  class LoginGuard {
    var attempts: Rows<Record>

    constructor ()
      ensures attempts == map[]
    {
      attempts := map[];
    }

    /** Is the account locked right now, and for how many more seconds? */
    method LockState(key: string, now: int) returns (locked: bool, retryAfter: int)
      ensures locked <==> LockedAt(Lookup(attempts, key, now), now)
      ensures !locked ==> retryAfter == 0
      ensures locked ==> (retryAfter - 1) * 1000 < attempts[key].value.lockedUntil - now <= retryAfter * 1000
    {
      var rec := Lookup(attempts, key, now);
      if rec.None? { return false, 0; }
      var left := rec.value.lockedUntil - now;
      if left > 0 { return true, (left + 999) / 1000; }
      return false, 0;
    }

    /** Records a wrong password; no other account is touched. */
    method RegisterFail(key: string, now: int) returns (locked: bool, remaining: nat)
      modifies this`attempts
      ensures attempts == old(attempts)[key := Registered(Lookup(old(attempts), key, now), now)]
      ensures locked <==> attempts[key].value.fails == 0
      ensures !locked ==> remaining + attempts[key].value.fails == MAX_FAILS
    {
      var prev := Lookup(attempts, key, now);
      var rec := if prev.None? then Record(0, 0, 0, now) else prev.value;
      if now - rec.seen > FORGET_MS { rec := rec.(fails := 0, level := 0); }
      rec := rec.(fails := rec.fails + 1, seen := now);
      if rec.fails >= MAX_FAILS {
        rec := rec.(lockedUntil := now + LockStep(rec.level), level := rec.level + 1, fails := 0);
        locked, remaining := true, 0;
      } else {
        locked, remaining := false, MAX_FAILS - rec.fails;
      }
      attempts := attempts[key := Stamped(rec, now + TtlFor(rec, now))];
    }

    method RegisterSuccess(key: string)
      modifies this`attempts
      ensures attempts == old(attempts) - {key}
    {
      attempts := attempts - {key};
    }
  }

  // ---------------------------------------------------------------- a streak of failures

  function Current(row: Option<Stamped<Record>>, now: int): Option<Record> {
    if row.Some? && row.value.expiresAt > now then Some(row.value.value) else None
  }

  /** The row after failures at these times. */
  function Failures(row: Option<Stamped<Record>>, times: seq<int>): Option<Stamped<Record>> {
    if times == [] then row
    else
      var n := |times| - 1;
      Some(Registered(Current(Failures(row, times[..n]), times[n]), times[n]))
  }

  /** How many minutes the k-th lock of a streak lasts. */
  function Minutes(k: nat): int {
    match k
    case 1 => 1
    case 2 => 5
    case 3 => 15
    case _ => 60
  }

  /** Each failure comes less than an hour after the one before. */
  ghost predicate Streak(times: seq<int>) {
    && (forall i | 0 <= i < |times| :: times[i] >= 0)
    && (forall i | 0 < i < |times| :: times[i-1] <= times[i] < times[i-1] + HOUR)
  }

  /** From a fresh account a streak of n failures counts n modulo five, and every fifth of them has
      started a lock; the later ones last longer. */
  lemma {:induction false} StreakCounts(times: seq<int>)
    requires Streak(times) && times != []
    ensures var n, row := |times|, Failures(None, times);
            && row.Some? && row.value.expiresAt >= times[n-1] + HOUR
            && var rec := row.value.value;
               && rec.fails == n % 5 && rec.level == n / 5 && rec.seen == times[n-1]
               && rec.lockedUntil == (if n < 5 then 0 else times[5 * (n / 5) - 1] + Minutes(n / 5) * 60 * 1000)
               && row.value.expiresAt >= rec.lockedUntil
  {
    var n := |times| - 1;
    hide Registered;
    if n == 0 {
      assert times[..0] == [];
      FirstFailure(times[0]);
    } else {
      StreakCounts(times[..n]);
      OneMoreFailure(Failures(None, times[..n]).value, n, times[n]);
      FifthBefore(n);
    }
  }

  lemma FirstFailure(at: int)
    requires at >= 0
    ensures Registered(None, at) == Stamped(Record(1, 0, 0, at), at + HOUR)
  {
  }

  lemma OneMoreFailure(row: Stamped<Record>, n: nat, at: int)
    requires row.value.fails == n % 5 && row.value.level == n / 5
    requires row.value.seen <= at < row.value.seen + HOUR <= row.expiresAt
    ensures var stamped := Registered(Current(Some(row), at), at);
            var rec := stamped.value;
            && rec.fails == (n + 1) % 5 && rec.level == (n + 1) / 5 && rec.seen == at
            && rec.lockedUntil == (if n % 5 == 4 then at + Minutes(n / 5 + 1) * 60 * 1000 else row.value.lockedUntil)
            && stamped.expiresAt >= at + HOUR && stamped.expiresAt >= rec.lockedUntil
  {
  }

  lemma FifthBefore(n: nat)
    ensures n % 5 == 4 ==> 5 * ((n + 1) / 5) - 1 == n && (n + 1) / 5 == n / 5 + 1
    ensures n % 5 != 4 ==> (n + 1) / 5 == n / 5
  {
  }

  /** The guard's answer after a streak: locked exactly until the lock of its last full five ends. */
  lemma LockedExactlyWhen(times: seq<int>, now: int)
    requires Streak(times) && now >= 0
    ensures LockedAt(Current(Failures(None, times), now), now) <==>
              |times| >= 5 && now < times[5 * (|times| / 5) - 1] + Minutes(|times| / 5) * 60 * 1000
  {
    hide Failures;
    if times != [] { StreakCounts(times); } else { NoFailures(); }
  }

  lemma NoFailures()
    ensures Failures(None, []) == None
  {
  }

  // ---------------------------------------------------------------- one account over time

  /** A check of the guard, the registration of a failure, the registration of a success. */
  datatype Event = Check(at: int) | Fail(at: int) | Success(at: int)

  /** The account's row, and how many attempts have passed the guard but not yet registered. */
  datatype Account = Account(row: Option<Stamped<Record>>, inFlight: nat)

  /** One account's row of the guard's table, read as the guard reads it. */
  lemma RowIsLookup(attempts: Rows<Record>, key: string, now: int)
    ensures Current(if key in attempts then Some(attempts[key]) else None, now) == Lookup(attempts, key, now)
  {
  }

  predicate Passes(a: Account, e: Event) {
    e.Check? && !LockedAt(Current(a.row, e.at), e.at)
  }

  function Next(a: Account, e: Event): Account {
    match e
    case Check(_) => if Passes(a, e) then a.(inFlight := a.inFlight + 1) else a
    case Fail(at) => if a.inFlight > 0 then Account(Some(Registered(Current(a.row, at), at)), a.inFlight - 1) else a
    case Success(_) => if a.inFlight > 0 then Account(None, a.inFlight - 1) else a
  }

  function After(start: Account, es: seq<Event>): Account {
    if es == [] then start else Next(After(start, es[..|es|-1]), es[|es|-1])
  }

  /** Attempts let through in the half-open interval [from, to). */
  function PassedIn(start: Account, es: seq<Event>, from: int, to: int): nat {
    if es == [] then 0
    else
      var n := |es| - 1;
      PassedIn(start, es[..n], from, to)
      + if from <= es[n].at < to && Passes(After(start, es[..n]), es[n]) then 1 else 0
  }

  /** Failures registered in it. */
  function FailedIn(start: Account, es: seq<Event>, from: int, to: int): nat {
    if es == [] then 0
    else
      var n := |es| - 1;
      FailedIn(start, es[..n], from, to)
      + if from <= es[n].at < to && es[n].Fail? && After(start, es[..n]).inFlight > 0 then 1 else 0
  }

  ghost predicate InOrder(es: seq<Event>) {
    forall i, j | 0 <= i < j < |es| :: es[i].at <= es[j].at
  }

  ghost predicate NoSuccessIn(es: seq<Event>, from: int, to: int) {
    forall i | 0 <= i < |es| :: es[i].Success? ==> !(from <= es[i].at < to)
  }

  /** At no moment are more than `c` attempts in flight. */
  ghost predicate AtMostInFlight(start: Account, es: seq<Event>, c: nat) {
    forall k | 0 <= k <= |es| :: After(start, es[..k]).inFlight <= c
  }

  /** Rows as the guard writes them: the row outlives both the lock and the memory of it. */
  predicate Sound(row: Option<Stamped<Record>>) {
    row.Some? ==>
      && row.value.value.fails < MAX_FAILS
      && row.value.expiresAt >= row.value.value.seen + HOUR
      && row.value.expiresAt >= row.value.value.lockedUntil
  }

  /** Store expiry never precedes the end of a lock. */
  lemma {:induction false} RowsStaySound(start: Account, es: seq<Event>)
    requires Sound(start.row)
    ensures Sound(After(start, es).row)
  {
    if es != [] {
      RowsStaySound(start, es[..|es|-1]);
    }
  }

  /** No lock lasts longer than an hour from the last failure, and none is in the future. */
  predicate Recent(row: Option<Stamped<Record>>, now: int) {
    row.Some? ==> row.value.value.seen <= now && row.value.value.lockedUntil <= row.value.value.seen + HOUR
  }

  lemma {:induction false} RowsStayRecent(es: seq<Event>, now: int)
    requires InOrder(es) && (forall e | e in es :: 0 <= e.at <= now)
    ensures Recent(After(Account(None, 0), es).row, now)
  {
    if es != [] {
      var n := |es| - 1;
      assert forall e | e in es[..n] :: e in es && e.at <= es[n].at by {
        assert forall i | 0 <= i < n :: es[i].at <= es[n].at;
      }
      assert es[n] in es;
      RowsStayRecent(es[..n], es[n].at);
      hide After, LockStep;
      OneMoreRecent(After(Account(None, 0), es[..n]), es[n]);
      OneMoreEvent(Account(None, 0), es, 0, 0);
    }
  }

  lemma OneMoreRecent(a: Account, e: Event)
    requires Recent(a.row, e.at) && e.at >= 0
    ensures Recent(Next(a, e).row, e.at)
  {
  }

  /** More than an hour after whatever happened last, the account is as good as new: not locked, and
      the next failure counts as the first. */
  lemma ForgetsAfterAnHour(es: seq<Event>, last: int, now: int)
    requires InOrder(es) && (forall e | e in es :: 0 <= e.at <= last) && 0 <= last && last + HOUR < now
    ensures var row := After(Account(None, 0), es).row;
            && !LockedAt(Current(row, now), now)
            && Registered(Current(row, now), now).value.fails == 1
            && Registered(Current(row, now), now).value.level == 0
  {
    RowsStayRecent(es, last);
    hide After;
  }

  /** A registered success clears the account at once. */
  lemma SuccessClears(a: Account, at: int, now: int)
    requires a.inFlight > 0
    ensures var row := Next(a, Success(at)).row;
            && !LockedAt(Current(row, now), now)
            && Registered(Current(row, now), now).value.fails == 1
            && Registered(Current(row, now), now).value.level == 0
  {
  }

  /** What `r` failures registered since `from`, less than an hour ago, have made of the row. */
  predicate Escalated(row: Option<Stamped<Record>>, from: int, r: nat) {
    r > 0 ==>
      && row.Some? && row.value.value.seen >= from
      && 5 * row.value.value.level + row.value.value.fails >= r
      && (row.value.value.level >= 4 && r > row.value.value.fails ==> row.value.value.lockedUntil >= from + HOUR)
  }

  lemma FailEscalates(row: Option<Stamped<Record>>, from: int, r: nat, at: int)
    requires Sound(row) && Escalated(row, from, r) && from <= at < from + HOUR
    ensures Escalated(Some(Registered(Current(row, at), at)), from, r + 1)
  {
  }

  /** Twenty failures within the hour leave the account locked to the end of it. */
  lemma TwentyLock(row: Option<Stamped<Record>>, from: int, r: nat, at: int)
    requires Sound(row) && Escalated(row, from, r) && r >= 20 && from <= at < from + HOUR
    ensures LockedAt(Current(row, at), at)
  {
  }

  /** The counts, one event at a time. */
  lemma OneMoreEvent(start: Account, es: seq<Event>, from: int, to: int)
    requires es != []
    ensures var n := |es| - 1;
            var before, e := After(start, es[..n]), es[n];
            && After(start, es) == Next(before, e)
            && PassedIn(start, es, from, to)
               == PassedIn(start, es[..n], from, to) + (if from <= e.at < to && Passes(before, e) then 1 else 0)
            && FailedIn(start, es, from, to)
               == FailedIn(start, es[..n], from, to)
                  + (if from <= e.at < to && e.Fail? && before.inFlight > 0 then 1 else 0)
  {
  }

  lemma PrefixInFlight(start: Account, es: seq<Event>, c: nat)
    requires AtMostInFlight(start, es, c)
    ensures After(start, es).inFlight <= c
    ensures es != [] ==> AtMostInFlight(start, es[..|es|-1], c)
  {
    assert es[..|es|] == es;
    if es != [] {
      var n := |es| - 1;
      forall k | 0 <= k <= n ensures After(start, es[..n][..k]).inFlight <= c {
        assert es[..n][..k] == es[..k];
      }
    }
  }

  /** What the hour from `from` has seen so far. */
  ghost predicate HourSoFar(start: Account, es: seq<Event>, from: int, c: nat) {
    var a := After(start, es);
    var passed, failed := PassedIn(start, es, from, from + HOUR), FailedIn(start, es, from, from + HOUR);
    && passed <= 19 + c
    && (es == [] || es[|es|-1].at < from + HOUR ==> passed <= failed + a.inFlight && Escalated(a.row, from, failed))
  }

  lemma {:induction false} HourInvariant(start: Account, es: seq<Event>, from: int, c: nat)
    requires Sound(start.row) && InOrder(es) && NoSuccessIn(es, from, from + HOUR) && AtMostInFlight(start, es, c)
    ensures HourSoFar(start, es, from, c)
  {
    if es != [] {
      var n := |es| - 1;
      var before, e := After(start, es[..n]), es[n];
      PrefixInFlight(start, es, c);
      HourInvariant(start, es[..n], from, c);
      RowsStaySound(start, es[..n]);
      OneMoreEvent(start, es, from, from + HOUR);
      hide After, PassedIn, FailedIn, AtMostInFlight, LockedAt, Registered, Sound;
      if e.at < from {
        NothingYet(start, es, from, from + HOUR);
      } else if e.at < from + HOUR {
        assert n == 0 || es[n-1].at <= e.at;
        OneMoreInHour(before, e, from, FailedIn(start, es[..n], from, from + HOUR));
      }
    }
  }

  /** One event of the hour keeps the record as strict as the failures so far make it, and
      passes only before the twentieth. */
  lemma OneMoreInHour(before: Account, e: Event, from: int, r: nat)
    requires Sound(before.row) && Escalated(before.row, from, r)
    requires from <= e.at < from + HOUR && !e.Success?
    ensures Escalated(Next(before, e).row, from, if e.Fail? && before.inFlight > 0 then r + 1 else r)
    ensures Passes(before, e) ==> r < 20
  {
    hide LockedAt, Registered, Sound, Escalated;
    if e.Fail? && before.inFlight > 0 {
      FailEscalates(before.row, from, r, e.at);
    }
    if e.Check? && r >= 20 {
      TwentyLock(before.row, from, r, e.at);
    }
  }

  lemma {:induction false} NothingYet(start: Account, es: seq<Event>, from: int, to: int)
    requires InOrder(es) && es != [] && es[|es|-1].at < from
    ensures PassedIn(start, es, from, to) == 0 && FailedIn(start, es, from, to) == 0
  {
    var n := |es| - 1;
    if n > 0 {
      assert es[n-1].at <= es[n].at;
      NothingYet(start, es[..n], from, to);
    }
  }

  /** With at most `c` attempts in flight, no hour without a success lets through more than
      19 + c of them, wherever the hour starts and whatever came before. */
  lemma GuessesPerHour(start: Account, es: seq<Event>, from: int, c: nat)
    requires Sound(start.row) && InOrder(es) && NoSuccessIn(es, from, from + HOUR) && AtMostInFlight(start, es, c)
    ensures PassedIn(start, es, from, from + HOUR) <= 19 + c
  {
    HourInvariant(start, es, from, c);
  }

  lemma {:induction false} PassedSplits(start: Account, es: seq<Event>, from: int, mid: int, to: int)
    requires from <= mid <= to
    ensures PassedIn(start, es, from, to) == PassedIn(start, es, from, mid) + PassedIn(start, es, mid, to)
  {
    if es != [] {
      PassedSplits(start, es[..|es|-1], from, mid, to);
    }
  }

  /** Over any number of hours; with one attempt at a time this is 20 an hour. */
  lemma {:induction false} GuessesOverHours(start: Account, es: seq<Event>, from: int, hours: nat, c: nat)
    requires Sound(start.row) && InOrder(es) && AtMostInFlight(start, es, c)
    requires NoSuccessIn(es, from, from + hours * HOUR)
    ensures PassedIn(start, es, from, from + hours * HOUR) <= hours * (19 + c)
  {
    if hours == 0 {
      PassedSplits(start, es, from, from, from);
    } else {
      var last := from + (hours - 1) * HOUR;
      GuessesOverHours(start, es, from, hours - 1, c);
      GuessesPerHour(start, es, last, c);
      PassedSplits(start, es, from, last, last + HOUR);
      assert hours * (19 + c) == (hours - 1) * (19 + c) + (19 + c);
    }
  }

  function Checks(n: nat): seq<Event> { seq(n, _ => Check(0)) }

  /** Without a bound on attempts in flight there is no bound on guesses: any number of checks
      made before the first registration all pass. */
  lemma {:induction false} SimultaneousGuessesAllPass(n: nat)
    ensures PassedIn(Account(None, 0), Checks(n), 0, HOUR) == n
    ensures After(Account(None, 0), Checks(n)) == Account(None, n)
  {
    if n > 0 {
      SimultaneousGuessesAllPass(n - 1);
      assert Checks(n)[..n-1] == Checks(n - 1);
    }
  }

  // ---------------------------------------------------------------- the bound is attained

  const FRESH := Account(None, 0)

  /** When the i-th of nineteen wrong guesses is made: as soon as the lock before it has ended. */
  function TimeOf(i: nat): nat {
    if i < 5 then 0 else if i < 10 then MINUTE else if i < 15 then 6 * MINUTE else 21 * MINUTE
  }

  /** The first `n` of them, each checked and registered in turn. */
  function Spent(n: nat): seq<Event> {
    if n == 0 then [] else Spent(n - 1) + [Check(TimeOf(n - 1)), Fail(TimeOf(n - 1))]
  }

  /** When the lock that `level` rounds of five have earned ends. */
  function LockEnd(level: nat): nat { if level == 0 then 0 else TimeOf(5 * level) }

  /** A run from a fresh account: in order, without success, within the hour, with `passed`
      attempts let through and at most `c` in flight. */
  ghost predicate Legal(es: seq<Event>, until: int, passed: nat, c: nat) {
    && InOrder(es) && (forall e | e in es :: 0 <= e.at <= until && !e.Success?)
    && AtMostInFlight(FRESH, es, c) && PassedIn(FRESH, es, 0, HOUR) == passed
  }

  lemma LegalMore(es: seq<Event>, until: int, passed: nat, c: nat, e: Event)
    requires Legal(es, until, passed, c) && 0 <= until <= e.at < HOUR && !e.Success?
    requires Next(After(FRESH, es), e).inFlight <= c
    ensures After(FRESH, es + [e]) == Next(After(FRESH, es), e)
    ensures Legal(es + [e], e.at, passed + if Passes(After(FRESH, es), e) then 1 else 0, c)
  {
    var all := es + [e];
    assert all[..|es|] == es;
    OneMoreEvent(FRESH, all, 0, HOUR);
    hide After, PassedIn, FailedIn, Next, Passes;
    InFlightMore(es, e, c);
    hide AtMostInFlight;
    InOrderMore(es, e);
  }

  lemma InFlightMore(es: seq<Event>, e: Event, c: nat)
    requires AtMostInFlight(FRESH, es, c) && After(FRESH, es + [e]).inFlight <= c
    ensures AtMostInFlight(FRESH, es + [e], c)
  {
    hide After;
    var all := es + [e];
    assert all[..|all|] == all;
    forall k | 0 <= k <= |all| ensures After(FRESH, all[..k]).inFlight <= c {
      if k <= |es| { assert all[..k] == es[..k]; }
    }
  }

  lemma InOrderMore(es: seq<Event>, e: Event)
    requires InOrder(es) && forall d | d in es :: d.at <= e.at
    ensures InOrder(es + [e])
  {
    var all := es + [e];
    forall i, j | 0 <= i < j < |all| ensures all[i].at <= all[j].at {
      if j == |es| { assert all[i] in es; } else { assert es[i].at <= es[j].at; }
    }
  }

  /** Where the account stands after `n` of the guesses. */
  predicate StandsAt(a: Account, n: nat) {
    && a.inFlight == 0
    && (n == 0 ==> a.row.None?)
    && (n > 0 ==>
          && a.row.Some? && a.row.value.expiresAt >= a.row.value.value.seen + HOUR
          && a.row.value.value == Record(n % 5, LockEnd(n / 5), n / 5, TimeOf(n - 1)))
  }

  lemma OneMoreGuess(a: Account, n: nat)
    requires StandsAt(a, n) && n < 19
    ensures Passes(a, Check(TimeOf(n)))
    ensures StandsAt(Next(Next(a, Check(TimeOf(n))), Fail(TimeOf(n))), n + 1)
  {
  }

  /** All nineteen pass. */
  lemma {:induction false} SpentPasses(n: nat)
    requires n <= 19
    ensures Legal(Spent(n), if n == 0 then 0 else TimeOf(n - 1), n, 1)
    ensures StandsAt(After(FRESH, Spent(n)), n)
  {
    if n > 0 {
      var t := TimeOf(n - 1);
      var es := Spent(n - 1);
      SpentPasses(n - 1);
      hide Spent, Legal, StandsAt, Next, Passes, After;
      OneMoreGuess(After(FRESH, es), n - 1);
      GuessInFlight(After(FRESH, es), n - 1);
      LegalMore(es, if n == 1 then 0 else TimeOf(n - 2), n - 1, 1, Check(t));
      LegalMore(es + [Check(t)], t, n, 1, Fail(t));
      SpentStep(n - 1);
    }
  }

  lemma SpentStep(n: nat)
    ensures Spent(n + 1) == Spent(n) + [Check(TimeOf(n))] + [Fail(TimeOf(n))]
  {
  }

  lemma GuessInFlight(a: Account, n: nat)
    requires StandsAt(a, n) && n < 19
    ensures Next(a, Check(TimeOf(n))).inFlight == 1
    ensures Next(Next(a, Check(TimeOf(n))), Fail(TimeOf(n))).inFlight == 0
    ensures !Passes(Next(a, Check(TimeOf(n))), Fail(TimeOf(n)))
  {
    OneMoreGuess(a, n);
  }

  /** The nineteen, and then `c` guesses checked at once. */
  function Burst(c: nat): seq<Event> {
    if c == 0 then Spent(19) else Burst(c - 1) + [Check(21 * MINUTE)]
  }

  lemma {:induction false} BurstPasses(c: nat, most: nat)
    requires c <= most && most >= 1
    ensures Legal(Burst(c), 21 * MINUTE, 19 + c, most)
    ensures StandsAt(After(FRESH, Burst(c)).(inFlight := 0), 19) && After(FRESH, Burst(c)).inFlight == c
  {
    hide Spent, Burst, Legal, After, Next, Passes, StandsAt;
    if c == 0 {
      NoBurst();
      SpentPasses(19);
      StandsIdle(After(FRESH, Spent(19)), 19);
      LegalLoosens(Spent(19), 21 * MINUTE, 19, 1, most);
    } else {
      BurstPasses(c - 1, most);
      var a := After(FRESH, Burst(c - 1));
      var t := 21 * MINUTE;
      BurstStep(c - 1);
      BurstGuess(a);
      LegalMore(Burst(c - 1), t, 19 + (c - 1), most, Check(t));
    }
  }

  lemma BurstGuess(a: Account)
    requires StandsAt(a.(inFlight := 0), 19)
    ensures Passes(a, Check(21 * MINUTE)) && Next(a, Check(21 * MINUTE)) == a.(inFlight := a.inFlight + 1)
  {
  }

  lemma NoBurst()
    ensures Burst(0) == Spent(19)
  {
    hide Spent;
  }

  lemma StandsIdle(a: Account, n: nat)
    requires StandsAt(a, n)
    ensures a.inFlight == 0 && a.(inFlight := 0) == a
  {
  }

  lemma BurstStep(c: nat)
    ensures Burst(c + 1) == Burst(c) + [Check(21 * MINUTE)]
  {
  }

  lemma LegalLoosens(es: seq<Event>, until: int, passed: nat, c: nat, most: nat)
    requires Legal(es, until, passed, c) && c <= most
    ensures Legal(es, until, passed, most)
  {
  }

  /** The bound is attained: with `c` attempts in flight, 19 + c pass within one hour. */
  lemma BoundAttained(c: nat)
    requires c >= 1
    ensures InOrder(Burst(c)) && NoSuccessIn(Burst(c), 0, HOUR) && AtMostInFlight(FRESH, Burst(c), c)
    ensures PassedIn(FRESH, Burst(c), 0, HOUR) == 19 + c
  {
    BurstPasses(c, c);
  }

  /** If it is a run with at most `c` in flight and the hour has no success, at most twenty
      guesses pass in it. */
  ghost predicate AtMostTwenty(es: seq<Event>, from: int, c: nat) {
    InOrder(es) && NoSuccessIn(es, from, from + HOUR) && AtMostInFlight(FRESH, es, c) ==>
      PassedIn(FRESH, es, from, from + HOUR) <= 20
  }

  /** Twenty an hour is what the guard gives exactly when attempts follow one another. */
  lemma TwentyAnHourIff(c: nat)
    ensures (forall es, from :: AtMostTwenty(es, from, c)) <==> c <= 1
  {
    if c <= 1 {
      forall es, from ensures AtMostTwenty(es, from, c) {
        if InOrder(es) && NoSuccessIn(es, from, from + HOUR) && AtMostInFlight(FRESH, es, c) {
          GuessesPerHour(FRESH, es, from, c);
        }
      }
    } else {
      BoundAttained(c);
      assert !AtMostTwenty(Burst(c), 0, c);
    }
  }
}
