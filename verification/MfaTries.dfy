/** The five tries at a second factor when several requests of one session are served at once.
    The count travels with the session: each request loads the whole session when it starts and
    writes back what it changed when it ends, so a slow request overwrites what faster ones counted. */
module MfaTries {

  const MAX_MFA_ATTEMPTS := 5

  /** What the store holds under the session's identifier: a sign-in waiting for its second factor
      with the tries counted, a signed-in user, or nothing. */
  datatype Session = Pending(tried: nat) | SignedIn | Absent

  /** `underWay` is what each request under way has loaded; `checks` the second factors checked
      since the first factor. */
  datatype World = World(stored: Session, underWay: seq<Session>, checks: nat)

  /** A request starts; one that brings a second factor ends; one that destroys the session ends
      (a logout, or a second factor that comes too late); one that writes the session with another
      field changed ends. */
  datatype Event = Load | Answer(k: nat, right: bool) | Destroy(k: nat) | Carry(k: nat)

  function Dropped<T>(xs: seq<T>, k: nat): seq<T>
    requires k < |xs|
  {
    xs[..k] + xs[k+1..]
  }

  function Answered(held: Session, right: bool): Session
    requires held.Pending?
  {
    if held.tried + 1 > MAX_MFA_ATTEMPTS then Absent else if right then SignedIn else Pending(held.tried + 1)
  }

  function Next(w: World, e: Event): World {
    if e.Load? then w.(underWay := w.underWay + [w.stored])
    else if e.k >= |w.underWay| then w
    else
      var held, rest := w.underWay[e.k], Dropped(w.underWay, e.k);
      match e
      case Answer(_, right) =>
        if !held.Pending? then w.(underWay := rest)
        else
          World(Answered(held, right), rest, w.checks + if held.tried + 1 > MAX_MFA_ATTEMPTS then 0 else 1)
      case Destroy(_) => World(if held.Absent? then w.stored else Absent, rest, w.checks)
      case Carry(_) => World(if held.Absent? then w.stored else held, rest, w.checks)
  }

  const START := World(Pending(0), [], 0)

  function Run(w: World, es: seq<Event>): World
    decreases |es|
  {
    if es == [] then w else Run(Next(w, es[0]), es[1..])
  }

  /** At no moment are more than `c` requests of the session under way. */
  predicate AtMostUnderWay(w: World, es: seq<Event>, c: nat)
    decreases |es|
  {
    |w.underWay| <= c && (es == [] || AtMostUnderWay(Next(w, es[0]), es[1..], c))
  }

  lemma {:induction false} RunJoined(w: World, a: seq<Event>, b: seq<Event>, c: nat)
    ensures Run(w, a + b) == Run(Run(w, a), b)
    ensures AtMostUnderWay(w, a, c) && AtMostUnderWay(Run(w, a), b, c) ==> AtMostUnderWay(w, a + b, c)
    decreases |a|
  {
    hide Next;
    if a == [] {
      assert a + b == b;
    } else {
      RunJoined(Next(w, a[0]), a[1..], b, c);
      assert (a + b)[1..] == a[1..] + b;
    }
  }

  // ---------------------------------------------------------------- counting configurations

  /** The ways to place `m` like requests on `k` counts. */
  function Ways(k: nat, m: nat): nat {
    if m == 0 then 1 else if k == 0 then 0 else Ways(k - 1, m) + Ways(k, m - 1)
  }

  /** Those with fewer than `i` on the first of `k + 1` counts. */
  function Below(k: nat, m: nat, i: nat): nat {
    if i == 0 then 0 else Ways(k, m) + if m == 0 then 0 else Below(k, m - 1, i - 1)
  }

  lemma {:induction false} BelowNext(k: nat, m: nat, i: nat)
    requires i <= m
    ensures Below(k, m, i + 1) == Below(k, m, i) + Ways(k, m - i)
  {
    if i > 0 { BelowNext(k, m - 1, i - 1); }
  }

  lemma {:induction false} BelowGrows(k: nat, m: nat, i: nat, j: nat)
    requires i <= j
    ensures Below(k, m, i) <= Below(k, m, j)
  {
    if i > 0 && m > 0 { BelowGrows(k, m - 1, i - 1, j - 1); }
  }

  lemma {:induction false} BelowAll(k: nat, m: nat)
    ensures Below(k, m, m + 1) == Ways(k + 1, m)
  {
    if m > 0 { BelowAll(k, m - 1); }
  }

  function Sum(ns: seq<nat>): nat {
    if ns == [] then 0 else ns[0] + Sum(ns[1..])
  }

  /** How many placements come before this one, those with fewer requests on low counts first. */
  function Rank(ns: seq<nat>): nat {
    if |ns| <= 1 then 0 else Below(|ns| - 1, Sum(ns), ns[0]) + Rank(ns[1..])
  }

  lemma {:induction false} WaysPositive(k: nat, m: nat)
    requires k > 0
    ensures Ways(k, m) >= 1
  {
    if m > 0 { WaysPositive(k, m - 1); }
  }

  lemma {:induction false} RankBelowWays(ns: seq<nat>)
    requires ns != []
    ensures Rank(ns) < Ways(|ns|, Sum(ns))
  {
    var k, m := |ns| - 1, Sum(ns);
    if k == 0 {
      WaysPositive(1, m);
    } else {
      RankBelowWays(ns[1..]);
      BelowNext(k, m, ns[0]);
      BelowGrows(k, m, ns[0] + 1, m + 1);
      BelowAll(k, m);
    }
  }

  /** At the first count on which they differ, `a` has fewer requests. */
  predicate Ahead(a: seq<nat>, b: seq<nat>) {
    && a != [] && b != [] && |a| == |b|
    && (a[0] < b[0] || (a[0] == b[0] && Ahead(a[1..], b[1..])))
  }

  lemma LastIsSum(a: seq<nat>)
    ensures |a| == 1 ==> Sum(a) == a[0]
  {
    if |a| == 1 { assert a[1..] == []; }
  }

  lemma {:induction false} AheadRanksLower(a: seq<nat>, b: seq<nat>)
    requires Ahead(a, b) && Sum(a) == Sum(b)
    ensures |a| > 1 && Rank(a) < Rank(b)
  {
    var k, m := |a| - 1, Sum(a);
    LastIsSum(a);
    LastIsSum(b);
    if k == 0 {
      assert false;
    } else if a[0] < b[0] {
      RankBelowWays(a[1..]);
      BelowNext(k, m, a[0]);
      BelowGrows(k, m, a[0] + 1, b[0]);
    } else {
      AheadRanksLower(a[1..], b[1..]);
    }
  }

  lemma {:induction false} AheadFrom(a: seq<nat>, b: seq<nat>, v: nat)
    requires |a| == |b| && v < |a| && a[v] < b[v] && forall x | 0 <= x < v :: a[x] == b[x]
    ensures Ahead(a, b)
  {
    if v > 0 { AheadFrom(a[1..], b[1..], v - 1); }
  }

  // ---------------------------------------------------------------- the workers' configuration

  function More(ns: seq<nat>, v: nat, n: nat): seq<nat>
    requires v < |ns|
  {
    ns[v := ns[v] + n]
  }

  lemma {:induction false} SumMore(ns: seq<nat>, v: nat, n: nat)
    requires v < |ns|
    ensures Sum(More(ns, v, n)) == Sum(ns) + n
  {
    if v > 0 {
      SumMore(ns[1..], v - 1, n);
      assert More(ns, v, n)[1..] == More(ns[1..], v - 1, n);
    } else {
      assert More(ns, v, n)[1..] == ns[1..];
    }
  }

  /** The count a session stands on; one that allows no more checks stands on 5. */
  function Level(s: Session): (v: nat)
    ensures v <= 5
  {
    if s.Pending? && s.tried < MAX_MFA_ATTEMPTS then s.tried else MAX_MFA_ATTEMPTS
  }

  /** A request that has loaded no pending sign-in checks and counts nothing. */
  function Add(ns: seq<nat>, s: Session): (r: seq<nat>)
    requires |ns| == 6
    ensures |r| == 6
  {
    if s.Pending? then More(ns, Level(s), 1) else ns
  }

  const NONE: seq<nat> := [0, 0, 0, 0, 0, 0]

  /** How many requests have loaded a pending sign-in on each count. */
  function Tally(xs: seq<Session>): (ns: seq<nat>)
    ensures |ns| == 6
  {
    if xs == [] then NONE else Add(Tally(xs[..|xs|-1]), xs[|xs|-1])
  }

  lemma {:induction false} SumZeros(n: nat)
    ensures Sum(seq(n, _ => 0)) == 0
  {
    if n > 0 {
      SumZeros(n - 1);
      assert seq(n, _ => 0)[1..] == seq(n - 1, _ => 0);
    }
  }

  lemma {:induction false} TallySum(xs: seq<Session>)
    ensures Sum(Tally(xs)) <= |xs|
  {
    hide Sum;
    if xs == [] {
      SumZeros(6);
      assert NONE == seq(6, _ => 0);
    } else {
      var n := |xs| - 1;
      TallySum(xs[..n]);
      SumMore(Tally(xs[..n]), Level(xs[n]), 1);
    }
  }

  lemma {:induction false} TallyDropped(xs: seq<Session>, k: nat)
    requires k < |xs|
    ensures Tally(xs) == Add(Tally(Dropped(xs, k)), xs[k])
  {
    hide More, Level;
    var n := |xs| - 1;
    if k == n {
      assert Dropped(xs, k) == xs[..n];
    } else {
      TallyDropped(xs[..n], k);
      var rest := Dropped(xs[..n], k);
      assert Dropped(xs, k) == rest + [xs[n]];
      assert Dropped(xs, k)[..n-1] == rest;
      AddsCommute(Tally(rest), xs[k], xs[n]);
    }
  }

  lemma AddsCommute(ns: seq<nat>, s: Session, t: Session)
    requires |ns| == 6
    ensures Add(Add(ns, s), t) == Add(Add(ns, t), s)
  {
  }

  /** The workers with nothing to count. */
  function Idle(w: World, c: nat): nat
    requires |w.underWay| <= c
  {
    TallySum(w.underWay);
    c - Sum(Tally(w.underWay))
  }

  /** `c` workers: those with a request to count stand where it started, the idle ones on what is stored. */
  function Config(w: World, c: nat): (ns: seq<nat>)
    requires |w.underWay| <= c
    ensures |ns| == 6
  {
    More(Tally(w.underWay), Level(w.stored), Idle(w, c))
  }

  lemma ConfigSum(w: World, c: nat)
    requires |w.underWay| <= c
    ensures Sum(Config(w, c)) == c
  {
    hide Tally, Sum, More;
    SumMore(Tally(w.underWay), Level(w.stored), Idle(w, c));
  }

  // ---------------------------------------------------------------- the bound

  /** The checks made so far and the placements still ahead are fewer than all placements. */
  predicate Accounted(w: World, c: nat) {
    |w.underWay| <= c && w.checks + Rank(Config(w, c)) < Ways(6, c)
  }

  /** A counted request that ends with `next` stored moves on, and takes the idle workers along. */
  lemma CountedAhead(rest: seq<nat>, tried: nat, stored: nat, next: nat, idle: nat)
    requires |rest| == 6 && stored <= 5 && tried <= next <= 5 && (tried == next ==> next == 5)
    ensures var a, b := More(rest, next, idle + 1), More(More(rest, tried, 1), stored, idle);
            Ahead(a, b) || (a == b && tried == 5)
  {
    var a, b := More(rest, next, idle + 1), More(More(rest, tried, 1), stored, idle);
    if stored < tried && idle > 0 {
      AheadFrom(a, b, stored);
    } else if tried < 5 {
      AheadFrom(a, b, tried);
    }
  }

  /** Idle workers move on when the session ends. */
  lemma IdleAhead(rest: seq<nat>, stored: nat, idle: nat)
    requires |rest| == 6 && stored <= 5
    ensures var a, b := More(rest, 5, idle), More(rest, stored, idle);
            Ahead(a, b) || a == b
  {
    var a, b := More(rest, 5, idle), More(rest, stored, idle);
    if stored < 5 && idle > 0 { AheadFrom(a, b, stored); }
  }

  /** A request that ends without carrying the session over moves no worker back, and moves one on
      if it checks a second factor. */
  lemma EndMovesOn(w: World, e: Event, c: nat)
    requires |w.underWay| <= c && (e.Answer? || e.Destroy?) && e.k < |w.underWay|
    ensures |Next(w, e).underWay| <= c
    ensures var w' := Next(w, e);
            Ahead(Config(w', c), Config(w, c)) || (Config(w', c) == Config(w, c) && w'.checks == w.checks)
  {
    hide Tally, Sum, Ahead, More;
    var w', held, rest := Next(w, e), w.underWay[e.k], Dropped(w.underWay, e.k);
    TallyDropped(w.underWay, e.k);
    SumMore(Tally(rest), Level(held), 1);
    if held.Pending? {
      CountedAhead(Tally(rest), Level(held), Level(w.stored), Level(w'.stored), Idle(w, c));
    } else {
      IdleAhead(Tally(rest), Level(w.stored), Idle(w, c));
    }
  }

  lemma EndAccounted(w: World, e: Event, c: nat)
    requires Accounted(w, c) && (e.Answer? || e.Destroy?)
    ensures Accounted(Next(w, e), c)
  {
    hide Rank, Config, Ahead, Ways, Sum;
    if e.k < |w.underWay| {
      var w' := Next(w, e);
      EndMovesOn(w, e, c);
      ConfigSum(w, c);
      ConfigSum(w', c);
      if Ahead(Config(w', c), Config(w, c)) { AheadRanksLower(Config(w', c), Config(w, c)); }
    }
  }

  /** Starting a request moves nobody. */
  lemma LoadAccounted(w: World, c: nat)
    requires Accounted(w, c) && |w.underWay| < c
    ensures Accounted(Next(w, Load), c)
  {
    hide Rank, Sum, Ways;
    var all := w.underWay + [w.stored];
    assert all[..|w.underWay|] == w.underWay;
    SumMore(Tally(w.underWay), Level(w.stored), 1);
    assert Config(Next(w, Load), c) == Config(w, c);
  }

  predicate NoneCarries(es: seq<Event>) {
    forall e | e in es :: !e.Carry?
  }

  lemma {:induction false} AlwaysAccounted(w: World, es: seq<Event>, c: nat)
    requires Accounted(w, c) && AtMostUnderWay(w, es, c) && NoneCarries(es)
    ensures Accounted(Run(w, es), c)
    decreases |es|
  {
    hide Accounted;
    if es != [] {
      var e := es[0];
      assert e in es && |Next(w, e).underWay| <= c;
      if e.Load? {
        LoadAccounted(w, c);
      } else {
        EndAccounted(w, e, c);
      }
      AlwaysAccounted(Next(w, e), es[1..], c);
    }
  }

  /** With at most `c` requests of the session under way, each of them a second factor or the end of
      the session, fewer second factors are checked after one first factor than there are ways to
      place `c` requests on the counts 0 to 5: at most five for one, twenty for two. */
  lemma ChecksBound(es: seq<Event>, c: nat)
    requires AtMostUnderWay(START, es, c) && NoneCarries(es)
    ensures Run(START, es).checks < Ways(6, c)
  {
    ConfigSum(START, c);
    RankBelowWays(Config(START, c));
    hide Ways, Rank, Config;
    AlwaysAccounted(START, es, c);
  }

  /** Nobody holds a pending sign-in. */
  predicate Over(w: World) {
    !w.stored.Pending? && forall s | s in w.underWay :: !s.Pending?
  }

  /** Once nobody does, no second factor is ever checked again; and a right one, with tries left,
      leaves a signed-in session behind. */
  lemma {:induction false} OverForGood(w: World, es: seq<Event>)
    requires Over(w)
    ensures Run(w, es).checks == w.checks && Over(Run(w, es))
    decreases |es|
  {
    if es != [] {
      hide Run;
      OneMoreOver(w, es[0]);
      RunStep(w, es);
      OverForGood(Next(w, es[0]), es[1..]);
    }
  }

  lemma RunStep(w: World, es: seq<Event>)
    ensures Run(w, es) == if es == [] then w else Run(Next(w, es[0]), es[1..])
  {
  }

  lemma OneMoreOver(w: World, e: Event)
    requires Over(w)
    ensures Over(Next(w, e)) && Next(w, e).checks == w.checks
  {
    if !e.Load? && e.k < |w.underWay| {
      assert w.underWay[e.k] in w.underWay;
      assert forall s | s in Dropped(w.underWay, e.k) :: s in w.underWay;
    }
  }

  lemma RightAnswerSignsIn(w: World, k: nat)
    requires k < |w.underWay| && w.underWay[k].Pending? && w.underWay[k].tried < 5
    ensures Next(w, Answer(k, true)).stored.SignedIn? && Next(w, Answer(k, true)).checks == w.checks + 1
  {
  }

  // ---------------------------------------------------------------- the bound is attained

  /** With `c` workers free and `v` counted: one keeps what is stored while the others do all they
      can, answers last, and then all start again from one more. */
  function Squeeze(c: nat, v: nat, held: nat): seq<Event>
    decreases c, 5 - v
  {
    if c == 0 || v >= 5 then []
    else [Load] + Squeeze(c - 1, v, held + 1) + [Answer(held, false)] + Squeeze(c, v + 1, held)
  }

  lemma {:induction false} NoneCarriesSqueeze(c: nat, v: nat, held: nat)
    ensures NoneCarries(Squeeze(c, v, held))
    decreases c, 5 - v
  {
    if c > 0 && v < 5 {
      NoneCarriesSqueeze(c - 1, v, held + 1);
      NoneCarriesSqueeze(c, v + 1, held);
    }
  }

  lemma {:induction false} SqueezeChecks(w: World, c: nat, v: nat, most: nat)
    requires w.stored == Pending(v) && v <= 5 && |w.underWay| + c <= most
    ensures var es := Squeeze(c, v, |w.underWay|);
            && AtMostUnderWay(w, es, most)
            && Run(w, es).stored == Pending(if c == 0 then v else 5) && Run(w, es).underWay == w.underWay
            && Run(w, es).checks + 1 == w.checks + Ways(6 - v, c)
    decreases c, 5 - v
  {
    var held := |w.underWay|;
    hide Run, AtMostUnderWay, Ways, Next;
    if c > 0 && v < 5 {
      var loaded := World(Pending(v), w.underWay + [Pending(v)], w.checks);
      SqueezeChecks(loaded, c - 1, v, most);
      var inner := Run(loaded, Squeeze(c - 1, v, held + 1));
      var answered := World(Pending(v + 1), w.underWay, inner.checks + 1);
      SqueezeChecks(answered, c, v + 1, most);
      LoadAndAnswer(w, inner, v, most);
      RunJoined(w, [Load], Squeeze(c - 1, v, held + 1), most);
      RunJoined(w, [Load] + Squeeze(c - 1, v, held + 1), [Answer(held, false)], most);
      RunJoined(w, [Load] + Squeeze(c - 1, v, held + 1) + [Answer(held, false)], Squeeze(c, v + 1, held), most);
      WaysStep(6 - v, c);
    } else {
      OneWay(c);
      NoEvents(w, most);
    }
  }

  lemma LoadAndAnswer(w: World, inner: World, v: nat, c: nat)
    requires w.stored == Pending(v) && v < 5 && |w.underWay| < c && inner.underWay == w.underWay + [Pending(v)]
    ensures Run(w, [Load]) == w.(underWay := w.underWay + [Pending(v)]) && AtMostUnderWay(w, [Load], c)
    ensures var es := [Answer(|w.underWay|, false)];
            && AtMostUnderWay(inner, es, c)
            && Run(inner, es) == World(Pending(v + 1), w.underWay, inner.checks + 1)
  {
    hide Run, AtMostUnderWay;
    assert Dropped(inner.underWay, |w.underWay|) == w.underWay;
    OneEvent(w, Load, c);
    OneEvent(inner, Answer(|w.underWay|, false), c);
  }

  lemma NoEvents(w: World, c: nat)
    ensures Run(w, []) == w && (AtMostUnderWay(w, [], c) <==> |w.underWay| <= c)
  {
  }

  lemma OneEvent(w: World, e: Event, c: nat)
    requires |w.underWay| <= c && |Next(w, e).underWay| <= c
    ensures Run(w, [e]) == Next(w, e) && AtMostUnderWay(w, [e], c)
  {
    hide Next;
    assert [e][1..] == [];
    NoEvents(Next(w, e), c);
  }

  lemma WaysStep(k: nat, m: nat)
    requires k > 0 && m > 0
    ensures Ways(k, m) == Ways(k - 1, m) + Ways(k, m - 1)
  {
  }

  lemma {:induction false} OneWay(m: nat)
    ensures Ways(1, m) == 1 && (m == 0 ==> forall k :: Ways(k, m) == 1)
  {
    if m > 0 { OneWay(m - 1); }
  }

  /** The bound is exact for every number of requests under way. */
  lemma BoundAttained(c: nat)
    ensures var es := Squeeze(c, 0, 0);
            && AtMostUnderWay(START, es, c) && NoneCarries(es)
            && Run(START, es).checks == Ways(6, c) - 1
  {
    SqueezeChecks(START, c, 0, c);
    NoneCarriesSqueeze(c, 0, 0);
  }

  // ---------------------------------------------------------------- exactly five

  /** If it is a run with at most `c` requests of the session under way, whatever they do, at most
      five second factors are checked in it. */
  predicate AtMostFive(es: seq<Event>, c: nat) {
    AtMostUnderWay(START, es, c) ==> Run(START, es).checks <= MAX_MFA_ATTEMPTS
  }

  lemma {:induction false} OneAtATime(w: World, es: seq<Event>)
    requires AtMostUnderWay(w, es, 1) && w.checks <= Level(w.stored)
    requires w.underWay == [] || w.underWay == [w.stored]
    ensures Run(w, es).checks <= MAX_MFA_ATTEMPTS
    decreases |es|
  {
    if es != [] {
      OneAtATime(Next(w, es[0]), es[1..]);
    }
  }

  lemma {:induction false} FewerUnderWay(w: World, es: seq<Event>, c: nat, most: nat)
    requires AtMostUnderWay(w, es, c) && c <= most
    ensures AtMostUnderWay(w, es, most)
    decreases |es|
  {
    hide Next;
    if es != [] { FewerUnderWay(Next(w, es[0]), es[1..], c, most); }
  }

  /** Five checks per first factor is what the count gives exactly when the session's requests
      follow one another. */
  lemma FiveChecksIff(c: nat)
    ensures (forall es :: AtMostFive(es, c)) <==> c <= 1
  {
    if c <= 1 {
      forall es ensures AtMostFive(es, c) {
        if AtMostUnderWay(START, es, c) {
          FewerUnderWay(START, es, c, 1);
          OneAtATime(START, es);
        }
      }
    } else {
      BoundAttained(2);
      TwentyForTwo();
      FewerUnderWay(START, Squeeze(2, 0, 0), 2, c);
      assert !AtMostFive(Squeeze(2, 0, 0), c);
    }
  }

  lemma TwentyForTwo()
    ensures Ways(6, 1) == 6 && Ways(6, 2) == 21
  {
    OneWay(2);
    assert Ways(2, 1) == 2 && Ways(3, 1) == 3 && Ways(4, 1) == 4 && Ways(5, 1) == 5 && Ways(6, 1) == 6;
    assert Ways(2, 2) == 3;
    assert Ways(3, 2) == 6;
    assert Ways(4, 2) == 10;
    assert Ways(5, 2) == 15;
  }

  /** `n` times over, a request that changes the cart is under way while a second factor is tried. */
  function Carried(n: nat): seq<Event> {
    if n == 0 then [] else Carried(n - 1) + [Load, Load, Answer(1, false), Carry(0)]
  }

  /** With two requests at once of which one only carries the session over, there is no bound. */
  lemma {:induction false} NoBoundWithCarry(n: nat)
    ensures AtMostUnderWay(START, Carried(n), 2)
    ensures Run(START, Carried(n)) == World(Pending(0), [], n)
  {
    if n > 0 {
      NoBoundWithCarry(n - 1);
      OneRound(n - 1);
      hide Run, AtMostUnderWay;
      RunJoined(START, Carried(n - 1), [Load, Load, Answer(1, false), Carry(0)], 2);
    }
  }

  lemma OneRound(n: nat)
    ensures var w, es := World(Pending(0), [], n), [Load, Load, Answer(1, false), Carry(0)];
            AtMostUnderWay(w, es, 2) && Run(w, es) == World(Pending(0), [], n + 1)
  {
    var p, es := Pending(0), [Load, Load, Answer(1, false), Carry(0)];
    var w, one, two, tried := World(p, [], n), World(p, [p], n), World(p, [p, p], n), World(Pending(1), [p], n + 1);
    assert Next(w, Load) == one && Next(one, Load) == two;
    assert Dropped([p, p], 1) == [p] && Dropped([p], 0) == [];
    assert Next(two, Answer(1, false)) == tried && Next(tried, Carry(0)) == World(p, [], n + 1);
    hide Next;
    assert es[1..] == [Load, Answer(1, false), Carry(0)] && es[1..][1..] == [Answer(1, false), Carry(0)];
    OneEvent(tried, Carry(0), 2);
    assert [Answer(1, false), Carry(0)][1..] == [Carry(0)];
    assert Run(two, [Answer(1, false), Carry(0)]) == Run(tried, [Carry(0)]);
    assert Run(one, es[1..]) == Run(two, es[1..][1..]);
  }
}
