/** Guessing one phone's text-message code in a cluster: a worker reads the row, counts the
    attempt, and then compares or burns the code, and the workers' statements interleave.  The
    attempts are counted without a lock, so the bound depends on how many are under way. */
module OtpGuesses {
  import opened Options

  const OTP_TTL_MS := 2 * 60 * 1000
  const MAX_ATTEMPTS := 5

  /** The phone's row; `serial` numbers the codes sent. */
  datatype Row = Row(serial: nat, expiresAt: int, attempts: nat)

  /** An attempt under way: what it read, and whether it has counted itself yet. */
  datatype Attempt = Attempt(serial: nat, attempts: nat, counted: bool)

  /** `admitted`, `compared` and `signedIn` list, by serial, the attempts that read a live row
      with attempts left, the comparisons made, and the right ones. */
  datatype World = World(
    row: Option<Row>, issued: nat, underWay: seq<Attempt>,
    admitted: multiset<nat>, compared: multiset<nat>, signedIn: multiset<nat>)

  datatype Event = Request(now: int) | Read(now: int) | Count(k: nat) | Finish(k: nat, right: bool)

  /** The attempt will get to compare. */
  predicate Compares(a: Attempt) {
    a.attempts + 1 <= MAX_ATTEMPTS
  }

  function Dropped(xs: seq<Attempt>, k: nat): seq<Attempt>
    requires k < |xs|
  {
    xs[..k] + xs[k+1..]
  }

  /** One statement of one worker.  Counting, burning and deleting name the phone only, so they
      hit whichever code is in the row by then. */
  function Next(w: World, e: Event): World {
    match e
    case Request(now) => w.(row := Some(Row(w.issued, now + OTP_TTL_MS, 0)), issued := w.issued + 1)
    case Read(now) =>
      if w.row.None? then w
      else if now > w.row.value.expiresAt then w.(row := None)
      else
        var a := Attempt(w.row.value.serial, w.row.value.attempts, false);
        w.(underWay := w.underWay + [a],
           admitted := if Compares(a) then w.admitted + multiset{a.serial} else w.admitted)
    case Count(k) =>
      if k >= |w.underWay| || w.underWay[k].counted then w
      else
        w.(underWay := w.underWay[k := w.underWay[k].(counted := true)],
           row := if w.row.None? then None else Some(w.row.value.(attempts := w.row.value.attempts + 1)))
    case Finish(k, right) =>
      if k >= |w.underWay| || !w.underWay[k].counted then w
      else
        var a := w.underWay[k];
        World(if Compares(a) && !right then w.row else None, w.issued, Dropped(w.underWay, k), w.admitted,
              if Compares(a) then w.compared + multiset{a.serial} else w.compared,
              if Compares(a) && right then w.signedIn + multiset{a.serial} else w.signedIn)
  }

  const START := World(None, 0, [], multiset{}, multiset{}, multiset{})

  function After(es: seq<Event>): World {
    if es == [] then START else Next(After(es[..|es|-1]), es[|es|-1])
  }

  /** At no moment are more than `c` attempts under way. */
  ghost predicate AtMostUnderWay(es: seq<Event>, c: nat) {
    forall k | 0 <= k <= |es| :: |After(es[..k]).underWay| <= c
  }

  // ---------------------------------------------------------------- counting attempts under way

  /** Whether the attempt will compare with code `s`; with `open`, only if not yet counted. */
  function Is(a: Attempt, s: nat, open: bool): nat {
    if a.serial == s && Compares(a) && (open ==> !a.counted) then 1 else 0
  }

  function Number(xs: seq<Attempt>, s: nat, open: bool): (n: nat)
    ensures n <= |xs|
  {
    if xs == [] then 0 else Number(xs[..|xs|-1], s, open) + Is(xs[|xs|-1], s, open)
  }

  lemma NumberMore(xs: seq<Attempt>, a: Attempt, s: nat, open: bool)
    ensures Number(xs + [a], s, open) == Number(xs, s, open) + Is(a, s, open)
  {
    assert (xs + [a])[..|xs|] == xs;
  }

  lemma {:induction false} NumberReplaced(xs: seq<Attempt>, k: nat, a: Attempt, s: nat, open: bool)
    requires k < |xs|
    ensures Number(xs[k := a], s, open) + Is(xs[k], s, open) == Number(xs, s, open) + Is(a, s, open)
  {
    hide Is;
    var n := |xs| - 1;
    if k == n {
      assert xs[k := a][..n] == xs[..n];
    } else {
      NumberReplaced(xs[..n], k, a, s, open);
      assert xs[k := a][..n] == xs[..n][k := a];
    }
  }

  lemma {:induction false} NumberDropped(xs: seq<Attempt>, k: nat, s: nat, open: bool)
    requires k < |xs|
    ensures Number(Dropped(xs, k), s, open) + Is(xs[k], s, open) == Number(xs, s, open)
  {
    hide Is;
    var n := |xs| - 1;
    if k == n {
      assert Dropped(xs, k) == xs[..n];
    } else {
      NumberDropped(xs[..n], k, s, open);
      assert Dropped(xs, k) == Dropped(xs[..n], k) + [xs[n]];
      NumberMore(Dropped(xs[..n], k), xs[n], s, open);
    }
  }

  /** Nobody has seen the code. */
  lemma {:induction false} NumberNone(xs: seq<Attempt>, s: nat, open: bool)
    requires forall a | a in xs :: a.serial != s
    ensures Number(xs, s, open) == 0
  {
    if xs != [] {
      assert xs[|xs|-1] in xs;
      NumberNone(xs[..|xs|-1], s, open);
    }
  }

  // ---------------------------------------------------------------- the bound

  predicate InRow(w: World, s: nat) { w.row.Some? && w.row.value.serial == s }

  /** The account of code `s`, with at most `c` attempts ever under way. */
  ghost predicate Accounted(w: World, s: nat, c: nat) {
    && w.admitted[s] == w.compared[s] + Number(w.underWay, s, false)
    && w.admitted[s] <= MAX_ATTEMPTS - 1 + c
    && (InRow(w, s) ==> w.signedIn[s] == 0 && w.admitted[s] <= w.row.value.attempts + Number(w.underWay, s, true))
    && (!InRow(w, s) ==> w.signedIn[s] + Number(w.underWay, s, false) <= c)
    && w.signedIn[s] <= c
  }

  /** Codes not yet sent have not been seen. */
  ghost predicate Sent(w: World) {
    && (w.row.Some? ==> w.row.value.serial < w.issued)
    && (forall a | a in w.underWay :: a.serial < w.issued)
    && (forall s | s >= w.issued :: w.admitted[s] == 0 && w.compared[s] == 0 && w.signedIn[s] == 0)
  }

  lemma StepSent(w: World, e: Event)
    requires Sent(w)
    ensures Sent(Next(w, e))
  {
  }

  lemma StepAccounted(w: World, e: Event, s: nat, c: nat)
    requires Sent(w) && Accounted(w, s, c) && |w.underWay| <= c && |Next(w, e).underWay| <= c
    ensures Accounted(Next(w, e), s, c)
  {
    hide Number, Dropped;
    match e
    case Request(now) =>
      if s == w.issued {
        NumberNone(w.underWay, s, false);
        NumberNone(w.underWay, s, true);
      }
    case Read(now) =>
      if w.row.Some? && now <= w.row.value.expiresAt {
        var a := Attempt(w.row.value.serial, w.row.value.attempts, false);
        NumberMore(w.underWay, a, s, false);
        NumberMore(w.underWay, a, s, true);
      }
    case Count(k) =>
      if k < |w.underWay| {
        var a := w.underWay[k].(counted := true);
        NumberReplaced(w.underWay, k, a, s, false);
        NumberReplaced(w.underWay, k, a, s, true);
      }
    case Finish(k, _) =>
      if k < |w.underWay| {
        NumberDropped(w.underWay, k, s, false);
        NumberDropped(w.underWay, k, s, true);
      }
  }

  lemma UnderWayBefore(es: seq<Event>, c: nat)
    requires AtMostUnderWay(es, c)
    ensures |After(es).underWay| <= c
    ensures es != [] ==> AtMostUnderWay(es[..|es|-1], c)
  {
    hide After;
    assert es[..|es|] == es;
    if es != [] {
      var before := es[..|es|-1];
      forall k | 0 <= k <= |before| ensures |After(before[..k]).underWay| <= c {
        assert before[..k] == es[..k];
      }
    }
  }

  lemma {:induction false} AlwaysAccounted(es: seq<Event>, s: nat, c: nat)
    requires AtMostUnderWay(es, c)
    ensures Sent(After(es)) && Accounted(After(es), s, c)
  {
    UnderWayBefore(es, c);
    if es != [] {
      var before := es[..|es|-1];
      AlwaysAccounted(before, s, c);
      UnderWayBefore(before, c);
      hide Sent, Accounted, Next;
      StepSent(After(before), es[|es|-1]);
      StepAccounted(After(before), es[|es|-1], s, c);
    }
  }

  /** With at most `c` attempts under way, each code is compared at most 4 + c times and signs in
      at most `c` browsers, however the workers' statements interleave. */
  lemma ComparesPerCode(es: seq<Event>, s: nat, c: nat)
    requires AtMostUnderWay(es, c)
    ensures After(es).compared[s] <= After(es).admitted[s] <= MAX_ATTEMPTS - 1 + c
    ensures After(es).signedIn[s] <= c
  {
    AlwaysAccounted(es, s, c);
  }

  // ---------------------------------------------------------------- the bound is attained

  /** The row is some request's, and lives two minutes from it. */
  ghost predicate IsSent(es: seq<Event>, row: Row) {
    exists k :: 0 <= k < |es| && SentAt(es, k, row)
  }

  ghost predicate SentAt(es: seq<Event>, k: nat, row: Row)
    requires k < |es|
  {
    es[k].Request? && row.expiresAt == es[k].now + 2 * 60 * 1000 && row.serial == After(es[..k]).issued
  }

  lemma {:induction false} RowIsSent(es: seq<Event>)
    ensures After(es).row.Some? ==> IsSent(es, After(es).row.value)
  {
    if es != [] && After(es).row.Some? {
      var n := |es| - 1;
      RowIsSent(es[..n]);
      var row := After(es).row.value;
      if es[n].Request? {
        assert SentAt(es, n, row);
      } else {
        var before := After(es[..n]).row.value;
        hide After;
        var k :| 0 <= k < n && SentAt(es[..n], k, before);
        assert es[..n][..k] == es[..k];
        assert SentAt(es, k, row);
      }
    }
  }

  /** A code is read for comparison only within two minutes of being sent, and with fewer than five
      tries counted; and then it is. */
  lemma ReadInTime(es: seq<Event>, now: int, s: nat)
    ensures var w, w' := After(es), After(es + [Read(now)]);
            && (w'.admitted[s] > w.admitted[s] <==>
                  w.row.Some? && w.row.value.serial == s && now <= w.row.value.expiresAt && w.row.value.attempts < 5)
            && (w.row.Some? ==> IsSent(es, w.row.value))
  {
    RowIsSent(es);
    assert (es + [Read(now)])[..|es|] == es;
  }

  /** A right comparison, or an attempt that finds five counted, removes the code. */
  lemma SpentIsGone(w: World, k: nat, right: bool)
    requires k < |w.underWay| && w.underWay[k].counted && (right || w.underWay[k].attempts >= 5)
    ensures Next(w, Finish(k, right)).row.None?
  {
  }

  /** And then none is read for comparison until the next is sent. */
  lemma {:induction false} NoneUntilNextSent(es: seq<Event>, more: seq<Event>)
    requires After(es).row.None? && forall e | e in more :: !e.Request?
    ensures After(es + more).row.None? && After(es + more).admitted == After(es).admitted
  {
    if more == [] {
      assert es + more == es;
    } else {
      var n := |more| - 1;
      NoneUntilNextSent(es, more[..n]);
      assert (es + more)[..|es| + n] == es + more[..n];
      assert more[n] in more;
    }
  }

  /** A code sent, and `n` wrong guesses in turn. */
  function InTurn(n: nat): seq<Event> {
    if n == 0 then [Request(0)] else InTurn(n - 1) + [Read(0)] + [Count(0)] + [Finish(0, false)]
  }

  /** Four in turn, then `c` read at once. */
  function Crowd(c: nat): seq<Event> {
    if c == 0 then InTurn(4) else Crowd(c - 1) + [Read(0)]
  }

  /** The code, with `n` attempts counted and none under way. */
  function Guessed(n: nat): World {
    World(Some(Row(0, OTP_TTL_MS, n)), 1, [], multiset{}[0 := n], multiset{}[0 := n], multiset{})
  }

  lemma AfterOneMore(es: seq<Event>, e: Event)
    ensures After(es + [e]) == Next(After(es), e)
  {
    assert (es + [e])[..|es|] == es;
  }

  lemma AfterMore(es: seq<Event>, e: Event, c: nat)
    requires AtMostUnderWay(es, c) && |Next(After(es), e).underWay| <= c
    ensures After(es + [e]) == Next(After(es), e) && AtMostUnderWay(es + [e], c)
  {
    hide Next, After;
    AfterOneMore(es, e);
    var all := es + [e];
    forall k | 0 <= k <= |all| ensures |After(all[..k]).underWay| <= c {
      if k <= |es| { assert all[..k] == es[..k]; } else { assert all[..k] == all; }
    }
  }

  lemma {:induction false} AfterInTurn(n: nat)
    requires n <= 4
    ensures AtMostUnderWay(InTurn(n), 1) && After(InTurn(n)) == Guessed(n)
  {
    if n == 0 {
      NothingUnderWay();
      AfterMore([], Request(0), 1);
      assert [] + [Request(0)] == [Request(0)];
      assert Guessed(0).admitted == multiset{};
    } else {
      AfterInTurn(n - 1);
      TurnSteps(n - 1);
      hide Next, Guessed, After, AtMostUnderWay;
      var es := InTurn(n - 1);
      AfterMore(es, Read(0), 1);
      AfterMore(es + [Read(0)], Count(0), 1);
      AfterMore(es + [Read(0)] + [Count(0)], Finish(0, false), 1);
    }
  }

  lemma NothingUnderWay()
    ensures AtMostUnderWay([], 1) && After([]) == START
  {
    var none: seq<Event> := [];
    assert none[..0] == none;
  }

  lemma TurnSteps(n: nat)
    requires n < 4
    ensures var read := Next(Guessed(n), Read(0));
            var counted := Next(read, Count(0));
            |read.underWay| == 1 && |counted.underWay| == 1 && Next(counted, Finish(0, false)) == Guessed(n + 1)
  {
    var a := Attempt(0, n, true);
    assert Dropped([a], 0) == [];
    assert multiset{}[0 := n] + multiset{0} == multiset{}[0 := n + 1];
  }

  /** `n` attempts that all read the code with four attempts counted. */
  function Reading(n: nat): seq<Attempt> {
    seq(n, _ => Attempt(0, 4, false))
  }

  lemma {:induction false} AfterCrowd(c: nat, most: nat)
    requires c <= most && most >= 1
    ensures AtMostUnderWay(Crowd(c), most) && After(Crowd(c)).underWay == Reading(c)
    ensures After(Crowd(c)).row == Some(Row(0, OTP_TTL_MS, 4))
    ensures After(Crowd(c)).compared[0] == 4 && After(Crowd(c)).signedIn[0] == 0
  {
    hide InTurn, Guessed, Next, After, AtMostUnderWay;
    if c == 0 {
      AfterInTurn(4);
      GuessedIs(4);
      MoreAllowed(InTurn(4), 1, most);
    } else {
      AfterCrowd(c - 1, most);
      OneReads(After(Crowd(c - 1)), c - 1);
      AfterMore(Crowd(c - 1), Read(0), most);
    }
  }

  lemma MoreAllowed(es: seq<Event>, c: nat, most: nat)
    requires AtMostUnderWay(es, c) && c <= most
    ensures AtMostUnderWay(es, most)
  {
    hide After;
  }

  lemma OneReads(w: World, n: nat)
    requires w.row == Some(Row(0, OTP_TTL_MS, 4)) && w.underWay == Reading(n)
    ensures var read := Next(w, Read(0));
            && read.row == w.row && read.compared == w.compared && read.signedIn == w.signedIn
            && |read.underWay| == n + 1 && read.underWay == Reading(n + 1)
  {
  }

  lemma GuessedIs(n: nat)
    ensures Guessed(n).row == Some(Row(0, OTP_TTL_MS, n)) && Guessed(n).underWay == Reading(0)
    ensures Guessed(n).compared[0] == n && Guessed(n).signedIn[0] == 0
  {
  }

  /** Then `n` of the `c` count themselves and compare, one after the other. */
  function Landed(c: nat, n: nat, right: bool): seq<Event> {
    if n == 0 then Crowd(c) else Landed(c, n - 1, right) + [Count(0)] + [Finish(0, right)]
  }

  /** The first of the readers counts itself and compares, whatever has become of the row. */
  lemma OneLands(w: World, n: nat, right: bool)
    requires w.underWay == Reading(n + 1)
    ensures var counted := Next(w, Count(0));
            var done := Next(counted, Finish(0, right));
            && |counted.underWay| == n + 1 && done.underWay == Reading(n)
            && done.compared[0] == w.compared[0] + 1
            && done.signedIn[0] == w.signedIn[0] + if right then 1 else 0
  {
    var counted := w.underWay[0 := Attempt(0, 4, true)];
    assert Dropped(counted, 0) == Reading(n);
  }

  lemma {:induction false} AfterLanded(c: nat, n: nat, right: bool)
    requires n <= c && c >= 1
    ensures AtMostUnderWay(Landed(c, n, right), c) && After(Landed(c, n, right)).underWay == Reading(c - n)
    ensures After(Landed(c, n, right)).compared[0] == 4 + n
    ensures After(Landed(c, n, right)).signedIn[0] == if right then n else 0
  {
    hide Next, Crowd, After, AtMostUnderWay;
    if n == 0 {
      AfterCrowd(c, c);
    } else {
      AfterLanded(c, n - 1, right);
      var es := Landed(c, n - 1, right);
      OneLands(After(es), c - n, right);
      AfterMore(es, Count(0), c);
      AfterMore(es + [Count(0)], Finish(0, right), c);
    }
  }

  /** If it is a run with at most `c` attempts under way, any one code is compared at most five
      times in it. */
  ghost predicate AtMostFive(es: seq<Event>, s: nat, c: nat) {
    AtMostUnderWay(es, c) ==> After(es).compared[s] <= MAX_ATTEMPTS
  }

  /** Five comparisons per code is what the counter gives exactly when attempts follow one another. */
  lemma FivePerCodeIff(c: nat)
    ensures (forall es, s :: AtMostFive(es, s, c)) <==> c <= 1
  {
    if c <= 1 {
      forall es, s ensures AtMostFive(es, s, c) {
        if AtMostUnderWay(es, c) { ComparesPerCode(es, s, c); }
      }
    } else {
      AfterLanded(c, c, false);
      assert !AtMostFive(Landed(c, c, false), 0, c);
    }
  }

  /** If it is such a run, any one code signs in at most one browser. */
  ghost predicate AtMostOneSignIn(es: seq<Event>, s: nat, c: nat) {
    AtMostUnderWay(es, c) ==> After(es).signedIn[s] <= 1
  }

  /** A code is good for one sign-in exactly when attempts follow one another. */
  lemma OneSignInPerCodeIff(c: nat)
    ensures (forall es, s :: AtMostOneSignIn(es, s, c)) <==> c <= 1
  {
    if c <= 1 {
      forall es, s ensures AtMostOneSignIn(es, s, c) {
        if AtMostUnderWay(es, c) { ComparesPerCode(es, s, c); }
      }
    } else {
      AfterLanded(c, c, true);
      assert !AtMostOneSignIn(Landed(c, c, true), 0, c);
    }
  }

  /** Both bounds are attained for every `c`. */
  lemma BothBoundsAttained(c: nat)
    requires c >= 1
    ensures exists es :: AtMostUnderWay(es, c) && After(es).compared[0] == MAX_ATTEMPTS - 1 + c
    ensures exists es :: AtMostUnderWay(es, c) && After(es).signedIn[0] == c
  {
    AfterLanded(c, c, false);
    AfterLanded(c, c, true);
  }
}
