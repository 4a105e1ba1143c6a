/** Time-based one-time codes (RFC 6238): the window search, and the rule that a time step is
    accepted once, kept by a record that itself expires after five minutes. */
module Mfa {
  import opened Options
  import opened TtlStores

  const STEP_MS := 30 * 1000
  const DIGITS := 6
  const WINDOW := 1
  const RECORD_TTL_MS := 5 * 60 * 1000

  datatype Verdict = Accepted(step: nat) | Malformed | Mismatch | Replay

  /** The largest step of the window around `current` whose code is `code`. */
  ghost predicate IsBestMatch(codeAt: nat -> string, code: string, current: nat, match_: Option<nat>) {
    && (match_.Some? ==> current - WINDOW <= match_.value <= current + WINDOW && codeAt(match_.value) == code)
    && forall c: nat | current - WINDOW <= c <= current + WINDOW && codeAt(c) == code ::
         match_.Some? && c <= match_.value
  }

  /** `verify` of the code generator; `codeAt` is HOTP with the user's key. */
  method FindStep(codeAt: nat -> string, code: string, at: nat) returns (found: Option<nat>)
    ensures IsBestMatch(codeAt, code, at / STEP_MS, found)
  {
    var current := at / STEP_MS;
    found := None;
    for delta := -WINDOW to WINDOW + 1
      invariant found.Some? ==> current - WINDOW <= found.value < current + delta && codeAt(found.value) == code
      invariant forall c: nat | current - WINDOW <= c < current + delta && codeAt(c) == code ::
          found.Some? && c <= found.value
    {
      var counter := current + delta;
      if counter >= 0 {
        if codeAt(counter) == code && (found.None? || counter > found.value) {
          found := Some(counter);
        }
      }
    }
  }

  /** What the accepted-step record becomes: the new step if it is beyond the old one, and
      otherwise the old one again, with its life renewed. */
  function Recorded(cur: Option<nat>, step: nat, now: int): Stamped<nat> {
    Stamped(if cur.Some? && step <= cur.value then cur.value else step, now + RECORD_TTL_MS)
  }

  class SecondFactor {
    var usedSteps: Rows<nat>

    constructor ()
      ensures usedSteps == map[]
    {
      usedSteps := map[];
    }

    /** `at` is the clock the code is checked against, `now` the clock of the store. */
    method VerifyCode(userId: string, codeAt: nat -> string, code: string, at: nat, now: int) returns (v: Verdict)
      modifies this`usedSteps
      ensures v.Malformed? <==> |code| != 6
      ensures v.Accepted? ==>
                && IsBestMatch(codeAt, code, at / STEP_MS, Some(v.step))
                && !(Lookup(old(usedSteps), userId, now).Some? && v.step <= Lookup(old(usedSteps), userId, now).value)
                && usedSteps == old(usedSteps)[userId := Recorded(Lookup(old(usedSteps), userId, now), v.step, now)]
      ensures v.Replay? ==>
                && Lookup(old(usedSteps), userId, now).Some?
                && var kept := Lookup(old(usedSteps), userId, now).value;
                && (exists s: nat :: IsBestMatch(codeAt, code, at / STEP_MS, Some(s)) && s <= kept)
                && usedSteps == old(usedSteps)[userId := Stamped(kept, now + RECORD_TTL_MS)]
      ensures v.Mismatch? || v.Malformed? ==> usedSteps == old(usedSteps)
      ensures v.Mismatch? ==> IsBestMatch(codeAt, code, at / STEP_MS, None)
    {
      if |code| != DIGITS { return Malformed; }
      var found := FindStep(codeAt, code, at);
      if found.None? { return Mismatch; }
      var cur := Lookup(usedSteps, userId, now);
      usedSteps := usedSteps[userId := Recorded(cur, found.value, now)];
      if cur.Some? && found.value <= cur.value { return Replay; }
      return Accepted(found.value);
    }
  }

  // ---------------------------------------------------------------- one user over time

  /** An attempt with a right code: the two clocks, and the step the code belongs to. */
  datatype Attempt = Attempt(at: nat, now: int, step: nat)

  function Current(row: Option<Stamped<nat>>, now: int): Option<nat> {
    if row.Some? && row.value.expiresAt > now then Some(row.value.value) else None
  }

  predicate Accepts(row: Option<Stamped<nat>>, a: Attempt) {
    !(Current(row, a.now).Some? && a.step <= Current(row, a.now).value)
  }

  function RowAfter(attempts: seq<Attempt>): Option<Stamped<nat>> {
    if attempts == [] then None
    else
      var a := attempts[|attempts|-1];
      Some(Recorded(Current(RowAfter(attempts[..|attempts|-1]), a.now), a.step, a.now))
  }

  function AcceptedSteps(attempts: seq<Attempt>): seq<nat> {
    if attempts == [] then []
    else
      var n := |attempts| - 1;
      AcceptedSteps(attempts[..n]) + if Accepts(RowAfter(attempts[..n]), attempts[n]) then [attempts[n].step] else []
  }

  /** Each code is inside the window of its own clock, the store's clock never runs back, and
      the store sees the attempt at most `lag` after the clock the code was checked against. */
  ghost predicate Timely(attempts: seq<Attempt>, lag: int) {
    && (forall i | 0 <= i < |attempts| ::
          && attempts[i].at / STEP_MS - WINDOW <= attempts[i].step <= attempts[i].at / STEP_MS + WINDOW
          && attempts[i].at <= attempts[i].now <= attempts[i].at + lag)
    && (forall i, j | 0 <= i < j < |attempts| :: attempts[i].now <= attempts[j].now)
  }

  /** A record lives five minutes; the window reaches two steps past any remembered step by
      the time it dies, if the clocks are within three and a half minutes of one another. */
  const MAX_LAG := RECORD_TTL_MS - 3 * STEP_MS

  /** The remembered step is at most one past the step in which the record was last written. */
  predicate Fresh(row: Option<Stamped<nat>>) {
    row.Some? ==> row.value.value <= (row.value.expiresAt - RECORD_TTL_MS) / STEP_MS + WINDOW
  }

  lemma {:induction false} RowStaysFresh(attempts: seq<Attempt>)
    requires Timely(attempts, MAX_LAG)
    ensures Fresh(RowAfter(attempts))
    ensures attempts != [] ==> RowAfter(attempts).value.expiresAt == attempts[|attempts|-1].now + RECORD_TTL_MS
  {
    if attempts != [] {
      var n := |attempts| - 1;
      RowStaysFresh(attempts[..n]);
      FreshStep(RowAfter(attempts[..n]), attempts[n]);
    }
  }

  lemma FreshStep(row: Option<Stamped<nat>>, a: Attempt)
    requires Fresh(row) && a.at <= a.now && a.step <= a.at / STEP_MS + WINDOW
    requires row.Some? ==> row.value.expiresAt - RECORD_TTL_MS <= a.now
    ensures Fresh(Some(Recorded(Current(row, a.now), a.step, a.now)))
  {
    assert a.at / STEP_MS <= a.now / STEP_MS;
    if row.Some? {
      assert (row.value.expiresAt - RECORD_TTL_MS) / STEP_MS <= a.now / STEP_MS;
    }
  }

  /** By the time the record has expired, the window has moved past the step it remembered. */
  lemma WindowHasMovedOn(row: Option<Stamped<nat>>, a: Attempt)
    requires row.Some? && Fresh(row) && row.value.expiresAt <= a.now <= a.at + MAX_LAG
    requires a.at / STEP_MS - WINDOW <= a.step
    ensures a.step > row.value.value
  {
    var written := row.value.expiresAt - RECORD_TTL_MS;
    assert written + 3 * STEP_MS <= a.at;
    assert written / STEP_MS + 3 == (written + 3 * STEP_MS) / STEP_MS <= a.at / STEP_MS;
  }

  /** Accepted steps strictly increase over the whole run, through every expiry of the record:
      no code is ever good twice. */
  lemma {:induction false} AcceptedStepsIncrease(attempts: seq<Attempt>)
    requires Timely(attempts, MAX_LAG)
    ensures var steps := AcceptedSteps(attempts);
            && (forall i, j | 0 <= i < j < |steps| :: steps[i] < steps[j])
            && (attempts != [] ==> steps != [] && RowAfter(attempts).value.value == steps[|steps|-1])
  {
    if attempts != [] {
      var n := |attempts| - 1;
      AcceptedStepsIncrease(attempts[..n]);
      RowStaysFresh(attempts[..n]);
      var row, a := RowAfter(attempts[..n]), attempts[n];
      if row.Some? && row.value.expiresAt <= a.now {
        WindowHasMovedOn(row, a);
      }
    }
  }

  /** The margin is exact: one millisecond more between the clocks, and a code is accepted again. */
  lemma LongerLagAllowsReplay()
    ensures var twice := [Attempt(0, 0, 1), Attempt(89999, 300000, 1)];
            Timely(twice, MAX_LAG + 1) && AcceptedSteps(twice) == [1, 1]
  {
    var twice := [Attempt(0, 0, 1), Attempt(89999, 300000, 1)];
    assert twice[..1] == [twice[0]] && twice[..1][..0] == [];
    assert RowAfter([]) == None && AcceptedSteps([]) == [];
    assert RowAfter(twice[..1]) == Some(Stamped(1, 300000));
    assert AcceptedSteps(twice[..1]) == [1];
  }
}
