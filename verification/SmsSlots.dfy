/** The daily cap on login messages: a slot is reserved in one SQL statement, the message is
    sent, and a failed send gives its slot back, with any number of processes interleaving. */
module SmsSlots {

  /** The `sms_counter` setting: absent, or a local date and a count. */
  datatype Counter = Unset | Counter(day: int, n: int)

  function Used(c: Counter, day: int): int {
    if c.Counter? && c.day == day then c.n else 0
  }

  /** The INSERT ... ON CONFLICT DO UPDATE ... WHERE: an absent row is inserted unconditionally. */
  predicate MayReserve(c: Counter, cap: int, day: int) {
    c.Unset? || Used(c, day) < cap
  }

  class SmsCounter {
    var counter: Counter

    constructor ()
      ensures counter == Unset
    {
      counter := Unset;
    }

    method ReserveSmsSlot(cap: int, day: int) returns (ok: bool, count: int)
      modifies this
      ensures ok <==> MayReserve(old(counter), cap, day)
      ensures counter == if ok then Counter(day, Used(old(counter), day) + 1) else old(counter)
      ensures ok ==> count == Used(counter, day)
    {
      if counter.Unset? {
        counter := Counter(day, 1);
      } else {
        var n := if counter.day == day then counter.n else 0;
        if n >= cap { return false, 0; }
        counter := if counter.day == day then Counter(counter.day, counter.n + 1) else Counter(day, 1);
      }
      return true, counter.n;
    }

    method ReleaseSmsSlot(day: int) returns (changed: bool)
      modifies this
      ensures changed <==> Used(old(counter), day) > 0
      ensures counter == if changed then Counter(day, old(counter).n - 1) else old(counter)
    {
      changed := counter.Counter? && counter.day == day && counter.n > 0;
      if changed { counter := counter.(n := counter.n - 1); }
    }

    /** Reserve, send, and give the slot back if sending fails; `dayAfter` is the date by then.
        Within one day a failed message costs nothing, and a sent one costs one slot. */
    method SendOtpSms(cap: int, day: int, delivered: bool, dayAfter: int) returns (ok: bool)
      requires Used(counter, day) >= 0
      modifies this
      ensures ok <==> MayReserve(old(counter), cap, day) && delivered
      ensures day == dayAfter ==> Used(counter, day) == Used(old(counter), day) + if ok then 1 else 0
    {
      var reserved, _ := ReserveSmsSlot(cap, day);
      if !reserved { return false; }
      if delivered { return true; }
      var _ := ReleaseSmsSlot(dayAfter);
      return false;
    }
  }

  // ---------------------------------------------------------------- all processes over time

  /** `inFlight` and `sent` list the day on which each message reserved its slot; `today` is the
      day of the latest event. */
  datatype World = World(counter: Counter, inFlight: seq<int>, sent: seq<int>, today: int)

  datatype Event = Reserve(day: int) | Sent(k: nat, day: int) | Failed(k: nat, day: int)

  function Dropped(xs: seq<int>, k: nat): seq<int>
    requires k < |xs|
  {
    xs[..k] + xs[k+1..]
  }

  function Next(w: World, cap: int, e: Event): World {
    match e
    case Reserve(day) =>
      if MayReserve(w.counter, cap, day)
      then World(Counter(day, Used(w.counter, day) + 1), w.inFlight + [day], w.sent, day)
      else w.(today := day)
    case Sent(k, day) =>
      if k < |w.inFlight|
      then World(w.counter, Dropped(w.inFlight, k), w.sent + [w.inFlight[k]], day)
      else w.(today := day)
    case Failed(k, day) =>
      if k < |w.inFlight|
      then World(if Used(w.counter, day) > 0 then Counter(day, w.counter.n - 1) else w.counter,
                 Dropped(w.inFlight, k), w.sent, day)
      else w.(today := day)
  }

  function Start(today: int): World { World(Unset, [], [], today) }

  function After(today: int, cap: int, es: seq<Event>): World {
    if es == [] then Start(today) else Next(After(today, cap, es[..|es|-1]), cap, es[|es|-1])
  }

  ghost predicate InOrder(es: seq<Event>) {
    forall i, j | 0 <= i < j < |es| :: es[i].day <= es[j].day
  }

  function On(days: seq<int>, day: int): nat { multiset(days)[day] }

  lemma DroppedOn(xs: seq<int>, k: nat, day: int)
    requires k < |xs|
    ensures On(Dropped(xs, k), day) == On(xs, day) - if xs[k] == day then 1 else 0
    ensures forall d | d in Dropped(xs, k) :: d in xs
  {
    assert xs == xs[..k] + [xs[k]] + xs[k+1..];
    assert multiset(xs) == multiset(xs[..k]) + multiset{xs[k]} + multiset(xs[k+1..]);
    assert multiset(Dropped(xs, k)) == multiset(xs[..k]) + multiset(xs[k+1..]);
  }

  lemma AddedOn(xs: seq<int>, x: int, day: int)
    ensures On(xs + [x], day) == On(xs, day) + if x == day then 1 else 0
    ensures forall d | d in xs + [x] :: d in xs || d == x
  {
  }

  lemma NoneOn(xs: seq<int>, day: int)
    requires forall d | d in xs :: d < day
    ensures On(xs, day) == 0
  {
    assert day !in xs;
  }

  /** The messages of the day: those on their way and those sent. */
  function MessagesOn(w: World, day: int): nat { On(w.inFlight, day) + On(w.sent, day) }

  /** A message that reserved on one day fails on another, on which a slot is in use: that slot
      is given back for it. */
  predicate Steals(w: World, e: Event) {
    e.Failed? && e.k < |w.inFlight| && w.inFlight[e.k] != e.day && Used(w.counter, e.day) > 0
  }

  /** How many of the events do that on the given day. */
  function StealsOn(today: int, cap: int, es: seq<Event>, day: int): nat {
    if es == [] then 0
    else
      var n := |es| - 1;
      StealsOn(today, cap, es[..n], day)
      + if es[n].day == day && Steals(After(today, cap, es[..n]), es[n]) then 1 else 0
  }

  /** Today's messages are no fewer than the counter, and no more than it and the slots of today
      stolen; the counter is within the cap; and every message is of a day the counter has seen. */
  ghost predicate Accounted(w: World, cap: int, stolen: nat) {
    && Used(w.counter, w.today) <= MessagesOn(w, w.today) <= Used(w.counter, w.today) + stolen
    && (w.counter.Counter? ==> 0 <= w.counter.n <= cap && w.counter.day <= w.today)
    && (forall d | d in w.inFlight || d in w.sent :: w.counter.Counter? && d <= w.counter.day)
  }

  /** Today's messages are exactly the counter. */
  predicate Balanced(w: World) {
    MessagesOn(w, w.today) == Used(w.counter, w.today)
  }

  lemma StepAccounted(w: World, cap: int, e: Event, stolen: nat)
    requires Accounted(w, cap, stolen) && cap >= 1 && w.today <= e.day
    ensures var before := if e.day == w.today then stolen else 0;
            Accounted(Next(w, cap, e), cap, before + if Steals(w, e) then 1 else 0)
    ensures Balanced(w) ==> (Balanced(Next(w, cap, e)) <==> !Steals(w, e))
  {
    hide On, Dropped;
    if !(w.counter.Counter? && w.counter.day == e.day) {
      NoneOn(w.inFlight, e.day);
      NoneOn(w.sent, e.day);
    }
    match e
    case Reserve(day) => AddedOn(w.inFlight, day, day);
    case Sent(k, day) =>
      if k < |w.inFlight| {
        assert w.inFlight[k] in w.inFlight;
        DroppedOn(w.inFlight, k, day);
        AddedOn(w.sent, w.inFlight[k], day);
      }
    case Failed(k, day) =>
      if k < |w.inFlight| {
        DroppedOn(w.inFlight, k, day);
      }
  }

  /** Over every interleaving of any number of processes, with days that never run back: the
      counter stays within the cap, today's messages are never fewer than it, and they exceed it
      by at most the number of events that stole a slot of today. */
  lemma {:induction false} SlotsAccounted(today: int, cap: int, es: seq<Event>)
    requires cap >= 1 && InOrder(es) && (es != [] ==> today <= es[0].day)
    ensures var w := After(today, cap, es);
            && w.today == (if es == [] then today else es[|es|-1].day)
            && Accounted(w, cap, StealsOn(today, cap, es, w.today))
  {
    if es != [] {
      var n := |es| - 1;
      var w, e := After(today, cap, es[..n]), es[n];
      SlotsAccounted(today, cap, es[..n]);
      StepAccounted(w, cap, e, StealsOn(today, cap, es[..n], w.today));
      if e.day != w.today { NoStealsYet(today, cap, es[..n], e.day); }
      NextDay(w, cap, e);
      hide Accounted, Steals, Next, Balanced;
    } else {
      assert MessagesOn(Start(today), today) == 0;
    }
  }

  lemma NextDay(w: World, cap: int, e: Event)
    ensures Next(w, cap, e).today == e.day
  {
  }

  lemma {:induction false} NoStealsYet(today: int, cap: int, es: seq<Event>, day: int)
    requires InOrder(es) && (es != [] ==> es[|es|-1].day < day)
    ensures StealsOn(today, cap, es, day) == 0
  {
    if es != [] {
      var n := |es| - 1;
      assert n > 0 ==> es[n-1].day <= es[n].day;
      NoStealsYet(today, cap, es[..n], day);
    }
  }

  /** The cap is exceeded by at most the slots stolen on the day. */
  lemma ExcessIsStolen(today: int, cap: int, es: seq<Event>)
    requires cap >= 1 && InOrder(es) && (es != [] ==> today <= es[0].day)
    ensures var w := After(today, cap, es);
            MessagesOn(w, w.today) <= cap + StealsOn(today, cap, es, w.today)
  {
    SlotsAccounted(today, cap, es);
  }

  ghost predicate AlwaysBalanced(today: int, cap: int, es: seq<Event>) {
    forall k | 0 <= k <= |es| :: Balanced(After(today, cap, es[..k]))
  }

  ghost predicate NeverSteals(today: int, cap: int, es: seq<Event>) {
    forall k | 0 <= k < |es| :: !Steals(After(today, cap, es[..k]), es[k])
  }

  lemma OneMoreBalanced(today: int, cap: int, es: seq<Event>)
    requires es != []
    ensures AlwaysBalanced(today, cap, es)
            <==> AlwaysBalanced(today, cap, es[..|es|-1]) && Balanced(After(today, cap, es))
  {
    hide After, Balanced;
    var n := |es| - 1;
    assert es[..n+1] == es;
    assert forall k | 0 <= k <= n :: es[..n][..k] == es[..k];
    if AlwaysBalanced(today, cap, es) {
      forall k | 0 <= k <= n ensures Balanced(After(today, cap, es[..n][..k])) {
        assert Balanced(After(today, cap, es[..k]));
      }
      assert Balanced(After(today, cap, es[..n+1]));
    } else {
      var j :| 0 <= j <= n + 1 && !Balanced(After(today, cap, es[..j]));
      if j <= n { assert !Balanced(After(today, cap, es[..n][..j])); }
    }
  }

  lemma OneMoreSteal(today: int, cap: int, es: seq<Event>)
    requires es != []
    ensures var n := |es| - 1;
            NeverSteals(today, cap, es)
            <==> NeverSteals(today, cap, es[..n]) && !Steals(After(today, cap, es[..n]), es[n])
  {
    hide After, Steals;
    var n := |es| - 1;
    assert forall k | 0 <= k <= n :: es[..n][..k] == es[..k];
    if NeverSteals(today, cap, es) {
      forall k | 0 <= k < n ensures !Steals(After(today, cap, es[..n][..k]), es[..n][k]) {
        assert !Steals(After(today, cap, es[..k]), es[k]);
      }
    } else {
      var j :| 0 <= j <= n && Steals(After(today, cap, es[..j]), es[j]);
      if j < n { assert Steals(After(today, cap, es[..n][..j]), es[..n][j]); }
    }
  }

  /** The counter equals today's messages, in flight and sent, at every moment of a run exactly
      when no event of the run is a failure that gives a slot back for another day's message. */
  lemma {:induction false} AlwaysBalancedIffNoSteal(today: int, cap: int, es: seq<Event>)
    requires cap >= 1 && InOrder(es) && (es != [] ==> today <= es[0].day)
    ensures AlwaysBalanced(today, cap, es) <==> NeverSteals(today, cap, es)
  {
    if es == [] {
      StartBalanced(today);
      assert es[..0] == [];
    } else {
      var n := |es| - 1;
      var w := After(today, cap, es[..n]);
      AlwaysBalancedIffNoSteal(today, cap, es[..n]);
      SlotsAccounted(today, cap, es[..n]);
      StepAccounted(w, cap, es[n], StealsOn(today, cap, es[..n], w.today));
      OneMoreBalanced(today, cap, es);
      OneMoreSteal(today, cap, es);
      LastBalanced(today, cap, es[..n]);
      hide AlwaysBalanced, NeverSteals, Balanced, Steals;
    }
  }

  lemma LastBalanced(today: int, cap: int, es: seq<Event>)
    ensures AlwaysBalanced(today, cap, es) ==> Balanced(After(today, cap, es))
  {
    hide After, Balanced;
    assert es[..|es|] == es;
  }

  lemma StartBalanced(today: int)
    ensures Balanced(Start(today))
  {
  }

  /** In particular, in a run in which every failure comes on the day its message reserved, the
      counter is exact and the cap holds. */
  lemma SameDayFailuresKeepCap(today: int, cap: int, es: seq<Event>)
    requires cap >= 1 && InOrder(es) && (es != [] ==> today <= es[0].day)
    requires forall k | 0 <= k < |es| && es[k].Failed? ::
               var w := After(today, cap, es[..k]);
               es[k].k < |w.inFlight| ==> w.inFlight[es[k].k] == es[k].day
    ensures Balanced(After(today, cap, es)) && MessagesOn(After(today, cap, es), After(today, cap, es).today) <= cap
  {
    forall k | 0 <= k < |es| ensures !Steals(After(today, cap, es[..k]), es[k]) {}
    AlwaysBalancedIffNoSteal(today, cap, es);
    SlotsAccounted(today, cap, es);
    LastBalanced(today, cap, es);
  }

  /** And then a message is refused exactly when the cap's worth of the day's have been sent or are on
      their way. */
  lemma RefusedExactlyAtCap(today: int, cap: int, es: seq<Event>, day: int)
    requires cap >= 1 && InOrder(es) && (es != [] ==> today <= es[0].day)
    requires NeverSteals(today, cap, es) && After(today, cap, es).today <= day
    ensures var w := After(today, cap, es);
            MayReserve(w.counter, cap, day) <==> MessagesOn(w, day) < cap
  {
    AlwaysBalancedIffNoSteal(today, cap, es);
    SlotsAccounted(today, cap, es);
    LastBalanced(today, cap, es);
    var w := After(today, cap, es);
    if !(w.counter.Counter? && w.counter.day == day) {
      NoneOn(w.inFlight, day);
      NoneOn(w.sent, day);
    }
  }

  /** A send that fails after midnight lets the new day exceed its cap. */
  lemma MidnightExceedsCap()
    ensures var es := [Reserve(1), Reserve(2), Failed(0, 2), Reserve(2)];
            InOrder(es) && MessagesOn(After(1, 1, es), 2) == 2
  {
    hide After, Next;
    FourEvents(1, 1, [Reserve(1), Reserve(2), Failed(0, 2), Reserve(2)]);
    MidnightSteps();
  }

  lemma FourEvents(today: int, cap: int, es: seq<Event>)
    requires |es| == 4
    ensures After(today, cap, es) ==
            Next(Next(Next(Next(Start(today), cap, es[0]), cap, es[1]), cap, es[2]), cap, es[3])
  {
    hide Next;
    var three, two, one := es[..3], es[..2], es[..1];
    assert three[..2] == two && two[..1] == one && one[..0] == [];
    assert After(today, cap, one) == Next(Start(today), cap, es[0]);
    assert After(today, cap, two) == Next(After(today, cap, one), cap, es[1]);
    assert After(today, cap, three) == Next(After(today, cap, two), cap, es[2]);
  }

  lemma MidnightSteps()
    ensures Next(Start(1), 1, Reserve(1)) == World(Counter(1, 1), [1], [], 1)
    ensures Next(World(Counter(1, 1), [1], [], 1), 1, Reserve(2)) == World(Counter(2, 1), [1, 2], [], 2)
    ensures Next(World(Counter(2, 1), [1, 2], [], 2), 1, Failed(0, 2)) == World(Counter(2, 0), [2], [], 2)
    ensures Next(World(Counter(2, 0), [2], [], 2), 1, Reserve(2)) == World(Counter(2, 1), [2, 2], [], 2)
  {
    assert Dropped([1, 2], 0) == [2];
  }
}
