/** The payment gateway's verdicts and the two parties that ask for them: the customer's
    browser coming back, and the periodic reconciler.  Every question is split from its
    answer, so anything may happen to the shop while the gateway is thinking. */
module Payments {
  import opened Options
  import opened Orders

  /** What comes back from the gateway's verify endpoint: a body with a result code, a body
      without one, or nothing usable (network error, timeout, broken JSON). */
  datatype Reply = Code(n: int) | OtherBody | NoReply

  /** The codes that say money was taken: now (100) or already before (101). */
  predicate Confirms(reply: Reply) {
    reply == Code(100) || reply == Code(101)
  }

  predicate IsTest(authority: string) {
    "TEST-" <= authority
  }

  datatype Verification = Ok | NotOk(retriable: bool)

  function VerifyPayment(live: bool, authority: string, reply: Reply): Verification {
    if !live && IsTest(authority) then Ok
    else if live && IsTest(authority) then NotOk(false)
    else if !live then NotOk(true)
    else if Confirms(reply) then Ok
    else NotOk(reply.NoReply?)
  }

  datatype Verdict = SaysPaid | SaysUnpaid | Unknown

  function InquirePayment(live: bool, authority: string, reply: Reply): Verdict {
    if !live then SaysUnpaid
    else if IsTest(authority) then SaysUnpaid
    else
      match VerifyPayment(live, authority, reply)
      case Ok => SaysPaid
      case NotOk(retriable) => if retriable then Unknown else SaysUnpaid
  }

  const GIVE_UP_AFTER_MS := 24 * 60 * 60 * 1000
  const MAX_PER_RUN := 20

  // ---------------------------------------------------------------- asking and answering

  datatype Asker = Customer | Reconciler

  /** A question on its way to the gateway, with what the asker had read of the order. */
  datatype Ask = Ask(who: Asker, id: nat, authority: string, expiresAt: int)

  /** `confirmed` records every order for which a live gateway has answered 100 or 101. */
  datatype World = World(db: Db, asks: seq<Ask>, confirmed: set<nat>)

  datatype Event =
    | Shop(action: Action)
    | CallbackRefused(id: nat, authority: string)
    | CallbackAsks(id: nat, authority: string)
    | ReconcilerAsks(now: int)
    | Answered(k: nat, reply: Reply, now: int)

  /** The database steps that do not come from the gateway.  Only the checkout that created an
      order records its authority, once, or marks it failed directly, when payment could not be
      started; so both meet an order without an authority. */
  predicate Direct(db: Db, a: Action) {
    match a
    case MarkPaid(_) => false
    case MarkFailed(id) => id < |db.orders| && db.orders[id].authority == ""
    case SetPayment(id, authority) => id < |db.orders| && db.orders[id].authority == "" && authority != ""
    case _ => true
  }

  predicate CallbackMatches(db: Db, id: nat, authority: string) {
    && id < |db.orders| && db.orders[id].status.PendingPayment?
    && authority != "" && authority == db.orders[id].authority
  }

  predicate Stale(o: Order, now: int) {
    o.status.PendingPayment? && o.expiresAt.Some? && o.expiresAt.value < now && o.authority != ""
  }

  /** Overdue orders that went to the gateway, oldest id first. */
  function Queue(orders: seq<Order>, now: int): seq<nat> {
    Select(orders, |orders|, o => Stale(o, now))
  }

  function FirstRows(ids: seq<nat>): seq<nat> {
    ids[..if |ids| < MAX_PER_RUN then |ids| else MAX_PER_RUN]
  }

  function Questions(orders: seq<Order>, ids: seq<nat>): seq<Ask>
    requires forall id | id in ids :: id < |orders| && orders[id].expiresAt.Some?
  {
    seq(|ids|, i requires 0 <= i < |ids| =>
      assert ids[i] in ids;
      Ask(Reconciler, ids[i], orders[ids[i]].authority, orders[ids[i]].expiresAt.value))
  }

  /** What the asker does with the reply. */
  function Reaction(live: bool, ask: Ask, reply: Reply, now: int): (r: Option<Action>)
    ensures r.Some? ==> r.value == MarkPaid(ask.id) || r.value == MarkFailed(ask.id)
  {
    match ask.who
    case Customer => (
      match VerifyPayment(live, ask.authority, reply)
      case Ok => Some(MarkPaid(ask.id))
      case NotOk(retriable) => if retriable then None else Some(MarkFailed(ask.id)))
    case Reconciler =>
      match InquirePayment(live, ask.authority, reply)
      case SaysPaid => Some(MarkPaid(ask.id))
      case SaysUnpaid => Some(MarkFailed(ask.id))
      case Unknown => if now - ask.expiresAt > GIVE_UP_AFTER_MS then Some(MarkFailed(ask.id)) else None
  }

  /** The database action an event amounts to, if any. */
  function Effect(live: bool, w: World, e: Event): Option<Action> {
    match e
    case Shop(action) => if Direct(w.db, action) then Some(action) else None
    case CallbackRefused(id, authority) =>
      if CallbackMatches(w.db, id, authority) then Some(MarkFailed(id)) else None
    case CallbackAsks(_, _) => None
    case ReconcilerAsks(_) => None
    case Answered(k, reply, now) => if k < |w.asks| then Reaction(live, w.asks[k], reply, now) else None
  }

  function NewAsks(w: World, e: Event): seq<Ask> {
    match e
    case CallbackAsks(id, authority) =>
      if CallbackMatches(w.db, id, authority) then [Ask(Customer, id, authority, 0)] else []
    case ReconcilerAsks(now) => Questions(w.db.orders, FirstRows(Queue(w.db.orders, now)))
    case _ => []
  }

  function NewlyConfirmed(live: bool, w: World, e: Event): set<nat> {
    match e
    case Answered(k, reply, _) =>
      if k < |w.asks| && live && Confirms(reply) && !IsTest(w.asks[k].authority) then {w.asks[k].id} else {}
    case _ => {}
  }

  function Next(live: bool, w: World, e: Event): World {
    var effect := Effect(live, w, e);
    World(if effect.Some? then Step(w.db, effect.value) else w.db,
          w.asks + NewAsks(w, e),
          w.confirmed + NewlyConfirmed(live, w, e))
  }

  function Events(live: bool, w: World, es: seq<Event>): World {
    if es == [] then w else Next(live, Events(live, w, es[..|es|-1]), es[|es|-1])
  }

  /** The database actions a history of events amounts to. */
  function Actions(live: bool, w: World, es: seq<Event>): seq<Action> {
    if es == [] then []
    else
      var n := |es| - 1;
      var effect := Effect(live, Events(live, w, es[..n]), es[n]);
      Actions(live, w, es[..n]) + if effect.Some? then [effect.value] else []
  }

  /** So whatever is proved of every run of actions holds of every interleaving of events. */
  lemma {:induction false} EventsRunActions(live: bool, w: World, es: seq<Event>)
    ensures Events(live, w, es).db == Run(w.db, Actions(live, w, es))
  {
    hide Step, Effect, NewAsks, NewlyConfirmed;
    if es != [] {
      var n := |es| - 1;
      EventsRunActions(live, w, es[..n]);
      var effect := Effect(live, Events(live, w, es[..n]), es[n]);
      var before := Actions(live, w, es[..n]);
      if effect.Some? {
        assert (before + [effect.value])[..|before|] == before;
      } else {
        assert before + [] == before;
      }
    }
  }

  // ---------------------------------------------------------------- paid only if charged

  predicate BeyondPending(o: Order) {
    !o.status.PendingPayment? && !o.status.Failed?
  }

  /** Every order that counts as bought was confirmed by the gateway or entered by hand. */
  ghost predicate Charged(w: World) {
    forall id | 0 <= id < |w.db.orders| ::
      BeyondPending(w.db.orders[id]) ==> w.db.orders[id].manual || id in w.confirmed
  }

  lemma PaidByMarkOnly(db: Db, a: Action, id: nat)
    requires id < |Step(db, a).orders| && BeyondPending(Step(db, a).orders[id])
    ensures a == MarkPaid(id) || Step(db, a).orders[id].manual || (id < |db.orders| && BeyondPending(db.orders[id]))
  {
    hide FailAll, OneOrder;
    StepMoves(db, a, id);
    if id < |db.orders| {
      if db.orders[id].status.PendingPayment? { MovesExactlyWhen(db, a, id, Paid); }
    } else if Single(a) {
      OneOrderMoves(db, a, id);
    }
  }

  /** In live mode no order is ever paid, shipped, delivered, returned or cancelled after
      payment unless the gateway confirmed it, whatever the customers, the administrators, the
      expirer and the reconciler do, and in whatever order the gateway's answers arrive. */
  lemma {:induction false} PaidMeansConfirmed(w: World, es: seq<Event>)
    requires Charged(w)
    ensures Charged(Events(true, w, es))
  {
    if es != [] {
      var n := |es| - 1;
      PaidMeansConfirmed(w, es[..n]);
      hide Next;
      EventKeepsCharged(Events(true, w, es[..n]), es[n]);
    }
  }

  lemma EventKeepsCharged(w: World, e: Event)
    requires Charged(w)
    ensures Charged(Next(true, w, e))
  {
    hide Step;
    var after := Next(true, w, e);
    var effect := Effect(true, w, e);
    forall id | 0 <= id < |after.db.orders|
      ensures BeyondPending(after.db.orders[id]) ==> after.db.orders[id].manual || id in after.confirmed
    {
      if BeyondPending(after.db.orders[id]) && effect.Some? {
        PaidByMarkOnly(w.db, effect.value, id);
        StepMoves(w.db, effect.value, id);
      }
    }
  }

  // ---------------------------------------------------------------- failing an order

  /** The reasons for which an event may fail a pending order. */
  predicate Cause(live: bool, w: World, e: Event, id: nat)
    requires id < |w.db.orders|
  {
    var o := w.db.orders[id];
    match e
    case Shop(Expire(now)) => o.authority == "" && o.expiresAt.Some? && o.expiresAt.value < now
    case Shop(MarkFailed(i)) => i == id && o.authority == ""
    case Shop(_) => false
    case CallbackRefused(i, authority) => i == id && authority == o.authority && authority != ""
    case CallbackAsks(_, _) => false
    case ReconcilerAsks(_) => false
    case Answered(k, reply, now) =>
      && k < |w.asks| && w.asks[k].id == id
      && var ask := w.asks[k];
         if live && !IsTest(ask.authority) then
           && !Confirms(reply)
           && (reply.NoReply? ==> ask.who.Reconciler? && now - ask.expiresAt > GIVE_UP_AFTER_MS)
         else
           live || ask.who.Reconciler?
  }

  /** Exactly when an event fails a pending order.  In particular an unanswered question never
      fails one, except that the reconciler gives up more than 24 hours after expiry, and the
      expirer only fails orders that never reached the gateway. */
  lemma FailsExactlyWhen(live: bool, w: World, e: Event, id: nat)
    requires id < |w.db.orders| && w.db.orders[id].status.PendingPayment?
    ensures id < |Next(live, w, e).db.orders|
    ensures Next(live, w, e).db.orders[id].status.Failed? <==> Cause(live, w, e, id)
  {
    hide Step;
    var effect := Effect(live, w, e);
    if effect.Some? { MovesExactlyWhen(w.db, effect.value, id, Failed); }
  }

  /** The reasons for which an event may pay a pending order. */
  predicate Pays(live: bool, w: World, e: Event, id: nat) {
    && e.Answered? && e.k < |w.asks| && w.asks[e.k].id == id
    && if live then !IsTest(w.asks[e.k].authority) && (e.reply == Code(100) || e.reply == Code(101))
       else w.asks[e.k].who.Customer? && IsTest(w.asks[e.k].authority)
  }

  /** Exactly when an event pays a pending order: a live gateway confirms it, whoever asked; or, in
      test mode, a customer comes back from a test payment. */
  lemma PaysExactlyWhen(live: bool, w: World, e: Event, id: nat)
    requires id < |w.db.orders| && w.db.orders[id].status.PendingPayment?
    ensures id < |Next(live, w, e).db.orders|
    ensures Next(live, w, e).db.orders[id].status.Paid? <==> Pays(live, w, e, id)
  {
    hide Step;
    var effect := Effect(live, w, e);
    if effect.Some? { MovesExactlyWhen(w.db, effect.value, id, Paid); }
  }

  // ---------------------------------------------------------------- failing over whole runs

  /** An authority the gateway itself issued. */
  predicate Real(authority: string) {
    authority != "" && !IsTest(authority)
  }

  /** What the steps of others leave alone: the authority, and while it is pending the expiry. */
  predicate SameGateway(o: Order, o': Order) {
    && o'.authority == o.authority
    && (o'.status.PendingPayment? ==> o.status.PendingPayment? && o'.expiresAt == o.expiresAt)
  }

  lemma OneOrderKeepsGateway(db: Db, a: Action, id: nat)
    requires Single(a) && id < |db.orders| && !(a.SetPayment? && a.id == id)
    ensures id < |OneOrder(db, a).orders| && SameGateway(db.orders[id], OneOrder(db, a).orders[id])
  {
    hide Demand;
  }

  lemma {:induction false} FailAllKeepsGateway(db: Db, ids: seq<nat>, id: nat)
    requires id < |db.orders|
    ensures SameGateway(db.orders[id], FailAll(db, ids).orders[id])
  {
    hide OneOrder;
    if ids != [] {
      var n := |ids| - 1;
      FailAllKeepsGateway(db, ids[..n], id);
      OneOrderKeepsGateway(FailAll(db, ids[..n]), MarkFailed(ids[n]), id);
    }
  }

  lemma StepKeepsGateway(db: Db, a: Action, id: nat)
    requires id < |db.orders| && !(a.SetPayment? && a.id == id)
    ensures id < |Step(db, a).orders| && SameGateway(db.orders[id], Step(db, a).orders[id])
  {
    hide FailAll, OneOrder, Demand;
    if a.Expire? {
      FailAllKeepsGateway(db, Select(db.orders, |db.orders|, o => Abandoned(o, a.now)), id);
    } else if Single(a) {
      OneOrderKeepsGateway(db, a, id);
    }
  }

  /** No event changes an authority once it is there, or the expiry of a pending order that
      has one. */
  lemma EventKeepsGateway(live: bool, w: World, e: Event, id: nat)
    requires id < |w.db.orders| && w.db.orders[id].authority != ""
    ensures id < |Next(live, w, e).db.orders| && SameGateway(w.db.orders[id], Next(live, w, e).db.orders[id])
  {
    hide Step;
    var effect := Effect(live, w, e);
    if effect.Some? { StepKeepsGateway(w.db, effect.value, id); }
  }

  /** A question carries its order's own authority and, while the order is pending, expiry. */
  predicate Matches(ask: Ask, orders: seq<Order>) {
    && ask.id < |orders| && ask.authority != "" && orders[ask.id].authority == ask.authority
    && (ask.who.Reconciler? && orders[ask.id].status.PendingPayment? ==>
          orders[ask.id].expiresAt == Some(ask.expiresAt))
  }

  ghost predicate AsksMatch(w: World) {
    forall ask | ask in w.asks :: Matches(ask, w.db.orders)
  }

  lemma NewAsksMatch(w: World, e: Event)
    ensures forall ask | ask in NewAsks(w, e) :: Matches(ask, w.db.orders)
  {
    match e
    case ReconcilerAsks(now) =>
      var queue := Queue(w.db.orders, now);
      var rows := FirstRows(queue);
      forall ask | ask in NewAsks(w, e) ensures Matches(ask, w.db.orders) {
        var i :| 0 <= i < |rows| && NewAsks(w, e)[i] == ask;
        assert rows[i] == queue[i] && queue[i] in queue;
      }
    case _ =>
  }

  lemma {:induction false} AsksStayMatched(live: bool, w: World, es: seq<Event>)
    requires AsksMatch(w)
    ensures AsksMatch(Events(live, w, es))
  {
    if es != [] {
      var n := |es| - 1;
      AsksStayMatched(live, w, es[..n]);
      var before, after := Events(live, w, es[..n]), Events(live, w, es);
      NewAsksMatch(before, es[n]);
      hide NewAsks, Effect, NewlyConfirmed, Step;
      forall ask | ask in after.asks ensures Matches(ask, after.db.orders) {
        assert Matches(ask, before.db.orders);
        EventKeepsGateway(live, before, es[n], ask.id);
      }
    }
  }

  lemma {:induction false} AuthorityStays(live: bool, w: World, es: seq<Event>, id: nat)
    requires id < |w.db.orders| && w.db.orders[id].authority != ""
    ensures id < |Events(live, w, es).db.orders|
    ensures Events(live, w, es).db.orders[id].authority == w.db.orders[id].authority
  {
    hide Next;
    if es != [] {
      var n := |es| - 1;
      AuthorityStays(live, w, es[..n], id);
      EventKeepsGateway(live, Events(live, w, es[..n]), es[n], id);
    }
  }

  /** The event is a callback that reports a refused payment, an answer with a code other than
      those for taken money, or the reconciler's unanswered question more than 24 hours after
      the order's expiry. */
  predicate Refuses(w: World, e: Event, id: nat)
    requires id < |w.db.orders|
  {
    var o := w.db.orders[id];
    match e
    case CallbackRefused(i, authority) => i == id && authority == o.authority
    case Answered(k, reply, now) =>
      && k < |w.asks| && w.asks[k].id == id && !Confirms(reply)
      && (reply.NoReply? ==>
            w.asks[k].who.Reconciler? && o.expiresAt.Some? && now - o.expiresAt.value > GIVE_UP_AFTER_MS)
    case _ => false
  }

  /** An order that has left `pending_payment` for good or ill stays there. */
  lemma EndingStays(live: bool, w: World, e: Event, id: nat)
    requires id < |w.db.orders|
    ensures id < |Next(live, w, e).db.orders|
    ensures w.db.orders[id].status.Failed? ==> Next(live, w, e).db.orders[id].status.Failed?
    ensures BeyondPending(w.db.orders[id]) ==> BeyondPending(Next(live, w, e).db.orders[id])
  {
    hide Step;
    var effect := Effect(live, w, e);
    if effect.Some? { StepMoves(w.db, effect.value, id); }
  }

  /** At its k-th event the run fails the pending order, and that event refuses it. */
  ghost predicate RefusedAt(w: World, es: seq<Event>, k: nat, id: nat)
    requires k < |es|
  {
    var before := Events(true, w, es[..k]);
    && id < |before.db.orders| && before.db.orders[id].status.PendingPayment?
    && Refuses(before, es[k], id)
  }

  lemma OneEventEnds(w: World, e: Event, id: nat)
    requires AsksMatch(w) && id < |w.db.orders| && Real(w.db.orders[id].authority)
    ensures id < |Next(true, w, e).db.orders|
    ensures Next(true, w, e).db.orders[id].status.Failed? <==>
              w.db.orders[id].status.Failed? || (w.db.orders[id].status.PendingPayment? && Refuses(w, e, id))
    ensures BeyondPending(Next(true, w, e).db.orders[id]) <==>
              BeyondPending(w.db.orders[id]) || (w.db.orders[id].status.PendingPayment? && Confirmed(w, e, id))
  {
    EndingStays(true, w, e, id);
    if e.Answered? && e.k < |w.asks| { assert Matches(w.asks[e.k], w.db.orders); }
    if w.db.orders[id].status.PendingPayment? {
      NeverCancelledFromPending(true, w, e, id);
      hide Next, Matches;
      FailsExactlyWhen(true, w, e, id);
      PaysExactlyWhen(true, w, e, id);
    }
  }

  lemma NeverCancelledFromPending(live: bool, w: World, e: Event, id: nat)
    requires id < |w.db.orders| && w.db.orders[id].status.PendingPayment?
    ensures id < |Next(live, w, e).db.orders|
    ensures var s := Next(live, w, e).db.orders[id].status; s.PendingPayment? || s.Failed? || s.Paid?
  {
    hide Step;
    var effect := Effect(live, w, e);
    if effect.Some? { StepMoves(w.db, effect.value, id); }
  }

  /** The event is an answer about the order with a code for taken money. */
  predicate Confirmed(w: World, e: Event, id: nat) {
    && e.Answered? && e.k < |w.asks| && w.asks[e.k].id == id
    && (e.reply == Code(100) || e.reply == Code(101))
  }

  /** At its k-th event the run pays the pending order, and that event confirms it. */
  ghost predicate ConfirmedAt(w: World, es: seq<Event>, k: nat, id: nat)
    requires k < |es|
  {
    var before := Events(true, w, es[..k]);
    && id < |before.db.orders| && before.db.orders[id].status.PendingPayment?
    && Confirmed(before, es[k], id)
  }

  ghost predicate SomeRefusal(w: World, es: seq<Event>, id: nat) {
    exists k :: 0 <= k < |es| && RefusedAt(w, es, k, id)
  }

  ghost predicate SomeConfirmation(w: World, es: seq<Event>, id: nat) {
    exists k :: 0 <= k < |es| && ConfirmedAt(w, es, k, id)
  }

  /** Looking for such an event among the first ones, and then at the last. */
  lemma OneEventMore(w: World, es: seq<Event>, id: nat)
    requires es != []
    ensures var n := |es| - 1;
            && (SomeRefusal(w, es, id) <==> SomeRefusal(w, es[..n], id) || RefusedAt(w, es, n, id))
            && (SomeConfirmation(w, es, id) <==> SomeConfirmation(w, es[..n], id) || ConfirmedAt(w, es, n, id))
  {
    hide Events, Refuses, Confirmed;
    var n := |es| - 1;
    forall k | 0 <= k < n
      ensures RefusedAt(w, es[..n], k, id) == RefusedAt(w, es, k, id)
      ensures ConfirmedAt(w, es[..n], k, id) == ConfirmedAt(w, es, k, id)
    {
      assert es[..n][..k] == es[..k];
    }
  }

  /** The headline promises over every run in live mode, from any moment at which an order waits
      with an authority of the gateway's.  It ends up failed exactly when, while it waited, there
      came a refused callback, a refusing answer, or the reconciler's silence more than 24 hours
      overdue: neither the checkout nor the expirer nor a lost answer ever fails it.  And it ends
      up bought exactly when the gateway confirmed it while it waited. */
  lemma {:induction false} EndsAsAnswered(w: World, es: seq<Event>, id: nat)
    requires AsksMatch(w)
    requires id < |w.db.orders| && w.db.orders[id].status.PendingPayment? && Real(w.db.orders[id].authority)
    ensures id < |Events(true, w, es).db.orders|
    ensures Events(true, w, es).db.orders[id].status.Failed? <==> SomeRefusal(w, es, id)
    ensures BeyondPending(Events(true, w, es).db.orders[id]) <==> SomeConfirmation(w, es, id)
  {
    hide Next, Refuses, Confirmed, SomeRefusal, SomeConfirmation;
    if es == [] {
      NothingYet(w, id);
    } else {
      var n := |es| - 1;
      AuthorityStays(true, w, es[..n], id);
      AsksStayMatched(true, w, es[..n]);
      EndsAsAnswered(w, es[..n], id);
      OneEventEnds(Events(true, w, es[..n]), es[n], id);
      OneEventMore(w, es, id);
    }
  }

  lemma NothingYet(w: World, id: nat)
    ensures !SomeRefusal(w, [], id) && !SomeConfirmation(w, [], id)
  {
  }

  lemma {:induction false} AsksStay(live: bool, w: World, es: seq<Event>)
    ensures w.asks <= Events(live, w, es).asks
  {
    hide Step, Effect, NewAsks, NewlyConfirmed;
    if es != [] { AsksStay(live, w, es[..|es|-1]); }
  }

  /** The customer comes back with the order's authority; whatever happens before the gateway's
      answer to that question arrives, if it confirms and the order still waits, it is paid. */
  lemma ConfirmedCallbackPays(w: World, id: nat, authority: string, es: seq<Event>, reply: Reply, now: int)
    requires id < |w.db.orders| && w.db.orders[id].status.PendingPayment?
    requires w.db.orders[id].authority == authority && Real(authority)
    requires reply == Code(100) || reply == Code(101)
    ensures var met := Events(true, Next(true, w, CallbackAsks(id, authority)), es);
            id < |met.db.orders| && met.db.orders[id].status.PendingPayment? ==>
              var after := Next(true, met, Answered(|w.asks|, reply, now));
              id < |after.db.orders| && after.db.orders[id].status.Paid?
  {
    var asked := Next(true, w, CallbackAsks(id, authority));
    var met := Events(true, asked, es);
    AsksStay(true, asked, es);
    assert asked.asks[|w.asks|] == Ask(Customer, id, authority, 0) == met.asks[|w.asks|];
    hide Next, Events;
    if id < |met.db.orders| && met.db.orders[id].status.PendingPayment? {
      PaysExactlyWhen(true, met, Answered(|w.asks|, reply, now), id);
    }
  }

  // ---------------------------------------------------------------- reconciler runs

  /** An overdue pending order is in exactly one pair of hands: the expirer fails it if it never
      reached the gateway, and the reconciler has it in its queue if it did. */
  lemma OverdueHasOneKeeper(db: Db, now: int, id: nat)
    requires id < |db.orders| && db.orders[id].status.PendingPayment?
    ensures var o := db.orders[id];
            var overdue := o.expiresAt.Some? && o.expiresAt.value < now;
            && (id in Queue(db.orders, now) <==> overdue && o.authority != "")
            && id < |Step(db, Expire(now)).orders|
            && (Step(db, Expire(now)).orders[id].status.Failed? <==> overdue && o.authority == "")
  {
    hide Step;
    MovesExactlyWhen(db, Expire(now), id, Failed);
  }

  /** The reconciler asks about the first twenty of its queue, each with its own authority and
      expiry, and about nothing else. */
  lemma AsksFirstTwenty(w: World, now: int, id: nat)
    ensures var queue := Queue(w.db.orders, now);
            (exists ask :: ask in NewAsks(w, ReconcilerAsks(now)) && ask.id == id)
            <==> id in queue[..if |queue| < 20 then |queue| else 20]
    ensures forall ask | ask in NewAsks(w, ReconcilerAsks(now)) ::
              && ask.id < |w.db.orders| && ask.who.Reconciler? && ask.authority == w.db.orders[ask.id].authority
              && w.db.orders[ask.id].expiresAt == Some(ask.expiresAt)
  {
    var queue := Queue(w.db.orders, now);
    var rows, asks := FirstRows(queue), NewAsks(w, ReconcilerAsks(now));
    forall i | 0 <= i < |rows| ensures asks[i].id == rows[i] && rows[i] in queue {
      assert rows[i] == queue[i];
    }
    if id in rows {
      var i :| 0 <= i < |rows| && rows[i] == id;
      assert asks[i] in asks;
    }
  }

  /** The gateway's answer about one order, when it arrives, and what the rest of the shop did
      while it was awaited. */
  datatype Answer = Answer(reply: Reply, at: int, meanwhile: seq<Action>)

  /** The shop as an answer finds it: the try was counted, then the others had their turn. */
  function Met(db: Db, ask: Ask, answer: Answer): (r: Db)
    ensures |r.orders| >= |db.orders|
  {
    var counted := Step(db, BumpTries(ask.id));
    ReleasedAtMostOnce(counted, answer.meanwhile, ask.id);
    Run(counted, answer.meanwhile)
  }

  /** One row of a reconciler run. */
  function Reconciled(live: bool, db: Db, ask: Ask, answer: Answer): (r: Db)
    ensures |r.orders| >= |db.orders|
  {
    var met := Met(db, ask, answer);
    var reaction := Reaction(live, ask, answer.reply, answer.at);
    if reaction.Some? then Step(met, reaction.value) else met
  }

  /** What a row comes to, if its order is still pending when the answer arrives: in live mode a
      confirmed order is paid, a refused one fails, and an unanswered one waits unless it is more
      than 24 hours overdue; a test payment, or a shop not in live mode, fails it. */
  lemma RowFollowsAnswer(live: bool, db: Db, ask: Ask, answer: Answer)
    requires ask.who.Reconciler? && ask.id < |db.orders|
    requires Met(db, ask, answer).orders[ask.id].status.PendingPayment?
    ensures Reconciled(live, db, ask, answer).orders[ask.id].status ==
            if !live || IsTest(ask.authority) then Failed
            else if answer.reply == Code(100) || answer.reply == Code(101) then Paid
            else if answer.reply.NoReply? && answer.at - ask.expiresAt <= 24 * 60 * 60 * 1000 then PendingPayment
            else Failed
    ensures answer.meanwhile == [] ==> Met(db, ask, answer).orders[ask.id].tries == db.orders[ask.id].tries + 1
  {
    hide Step;
    var met, reaction := Met(db, ask, answer), Reaction(live, ask, answer.reply, answer.at);
    ColumnsChangeExactlyWhen(db, BumpTries(ask.id), ask.id);
    if reaction.Some? {
      MovesExactlyWhen(met, reaction.value, ask.id, Paid);
      MovesExactlyWhen(met, reaction.value, ask.id, Failed);
    }
  }

  function ReconciledAll(live: bool, db: Db, asks: seq<Ask>, answers: nat -> Answer): (r: Db)
    ensures |r.orders| >= |db.orders|
  {
    if asks == [] then db
    else
      var last := asks[|asks|-1];
      Reconciled(live, ReconciledAll(live, db, asks[..|asks|-1], answers), last, answers(last.id))
  }

  function ReconcilerRun(live: bool, db: Db, now: int, answers: nat -> Answer): (r: Db)
    ensures |r.orders| >= |db.orders|
  {
    ReconciledAll(live, db, Questions(db.orders, FirstRows(Queue(db.orders, now))), answers)
  }

  /** Nothing else happens during the run. */
  ghost predicate Quiet(answers: nat -> Answer) {
    forall id :: answers(id).meanwhile == []
  }

  /** Every order waiting at the gateway is more than 24 hours overdue. */
  ghost predicate AllOverdue(db: Db, now: int) {
    forall id | 0 <= id < |db.orders| ::
      var o := db.orders[id];
      o.status.PendingPayment? && o.authority != "" && o.expiresAt.Some? ==> now - o.expiresAt.value > GIVE_UP_AFTER_MS
  }

  /** What a run does to one order, whatever the gateway answers: an overdue order asked about
      is no longer pending, even if others were at work meanwhile; and if they were not, an
      order not asked about is as it was. */
  lemma {:induction false} RunSettles(live: bool, db: Db, asks: seq<Ask>, answers: nat -> Answer, id: nat)
    requires forall ask | ask in asks ::
               ask.who.Reconciler? && answers(ask.id).at - ask.expiresAt > GIVE_UP_AFTER_MS
    requires forall ask | ask in asks :: ask.id < |db.orders|
    requires id < |db.orders|
    ensures Quiet(answers) && (forall ask | ask in asks :: ask.id != id) ==>
              ReconciledAll(live, db, asks, answers).orders[id] == db.orders[id]
    ensures (exists ask :: ask in asks && ask.id == id) || !db.orders[id].status.PendingPayment? ==>
              !ReconciledAll(live, db, asks, answers).orders[id].status.PendingPayment?
  {
    hide Reconciled;
    if asks != [] {
      var n := |asks| - 1;
      RunSettles(live, db, asks[..n], answers, id);
      assert asks == asks[..n] + [asks[n]];
      var before := ReconciledAll(live, db, asks[..n], answers);
      OneRowSettles(live, before, asks[n], answers(asks[n].id), id);
    }
  }

  lemma OneRowSettles(live: bool, db: Db, ask: Ask, answer: Answer, id: nat)
    requires ask.who.Reconciler? && answer.at - ask.expiresAt > GIVE_UP_AFTER_MS
    requires id < |db.orders|
    ensures answer.meanwhile == [] && ask.id != id ==> Reconciled(live, db, ask, answer).orders[id] == db.orders[id]
    ensures ask.id == id || !db.orders[id].status.PendingPayment? ==>
              !Reconciled(live, db, ask, answer).orders[id].status.PendingPayment?
  {
    var met := Met(db, ask, answer);
    hide Demand;
    if !db.orders[id].status.PendingPayment? {
      PendingOnlyOnce(Step(db, BumpTries(ask.id)), answer.meanwhile, id);
    }
    hide Run;
  }

  predicate Settled(db: Db, db': Db, rows: seq<nat>, id: nat)
    requires id < |db.orders| == |db'.orders|
  {
    if id in rows then !db'.orders[id].status.PendingPayment? else db'.orders[id] == db.orders[id]
  }

  lemma {:induction false} QuietSize(live: bool, db: Db, asks: seq<Ask>, answers: nat -> Answer)
    requires Quiet(answers)
    ensures |ReconciledAll(live, db, asks, answers).orders| == |db.orders|
  {
    hide OneOrder;
    if asks != [] {
      var n := |asks| - 1;
      QuietSize(live, db, asks[..n], answers);
      QuietRowSize(live, ReconciledAll(live, db, asks[..n], answers), asks[n], answers(asks[n].id));
    }
  }

  lemma QuietRowSize(live: bool, db: Db, ask: Ask, answer: Answer)
    requires answer.meanwhile == []
    ensures |Reconciled(live, db, ask, answer).orders| == |db.orders|
  {
  }

  lemma RunOnOrder(live: bool, db: Db, now: int, answers: nat -> Answer, id: nat)
    requires AllOverdue(db, now) && id < |db.orders| && Quiet(answers) && forall id :: answers(id).at >= now
    ensures |ReconcilerRun(live, db, now, answers).orders| == |db.orders|
    ensures Settled(db, ReconcilerRun(live, db, now, answers), FirstRows(Queue(db.orders, now)), id)
  {
    hide ReconciledAll, Select, Reaction;
    var queue := Queue(db.orders, now);
    var rows := FirstRows(queue);
    var asks := Questions(db.orders, rows);
    forall ask | ask in asks
      ensures ask.id in rows && ask.who.Reconciler? && answers(ask.id).at - ask.expiresAt > GIVE_UP_AFTER_MS
    {
      var i :| 0 <= i < |asks| && asks[i] == ask;
      assert rows[i] == queue[i] && queue[i] in queue;
    }
    if id in rows {
      var i :| 0 <= i < |rows| && rows[i] == id;
      assert asks[i].id == id && asks[i] in asks;
    }
    RunSettles(live, db, asks, answers, id);
    QuietSize(live, db, asks, answers);
  }

  lemma StillQueued(db: Db, db': Db, start: int, now: int, later: int, rows: seq<nat>, id: nat)
    requires AllOverdue(db, start) && start <= now <= later && |db.orders| == |db'.orders|
    requires id < |db.orders| ==> Settled(db, db', rows, id)
    ensures id in Queue(db'.orders, later) <==> id in Queue(db.orders, now) && id !in rows
  {
    hide Select;
  }

  /** With nothing new arriving, one run takes the first twenty orders off the queue, whatever the
      gateway answers, and leaves the rest of the queue as it was. */
  lemma RunShortensQueue(live: bool, db: Db, start: int, now: int, answers: nat -> Answer, later: int)
    requires AllOverdue(db, start) && start <= now <= later && Quiet(answers) && forall id :: answers(id).at >= now
    ensures AllOverdue(ReconcilerRun(live, db, now, answers), start)
    ensures Queue(ReconcilerRun(live, db, now, answers).orders, later)
            == Queue(db.orders, now)[|FirstRows(Queue(db.orders, now))|..]
  {
    var queue := Queue(db.orders, now);
    var rows := FirstRows(queue);
    var db' := ReconcilerRun(live, db, now, answers);
    QuietSize(live, db, Questions(db.orders, rows), answers);
    var queue' := Queue(db'.orders, later);
    assert Ascending(queue) && Ascending(queue') && Ascending(queue[|rows|..]) && rows == queue[..|rows|];
    assert AllOverdue(db, now);
    hide ReconcilerRun, Quiet, Queue, FirstRows, AllOverdue, Settled, Ascending;
    forall id: nat | id < |db.orders| ensures Settled(db, db', rows, id) {
      RunOnOrder(live, db, now, answers, id);
    }
    OverdueStays(db, db', start, rows);
    forall id: nat ensures id in queue[|rows|..] <==> id in queue' {
      SplitAscending(queue, |rows|, id);
      StillQueued(db, db', start, now, later, rows, id);
    }
    SameAscending(queue', queue[|rows|..]);
  }

  lemma OverdueStays(db: Db, db': Db, start: int, rows: seq<nat>)
    requires AllOverdue(db, start) && |db.orders| == |db'.orders|
    requires forall id: nat | id < |db.orders| :: Settled(db, db', rows, id)
    ensures AllOverdue(db', start)
  {
    forall id: nat | id < |db.orders|
      ensures !db'.orders[id].status.PendingPayment? || db'.orders[id] == db.orders[id]
    {
      assert Settled(db, db', rows, id);
    }
  }

  lemma SplitAscending(xs: seq<nat>, k: nat, x: nat)
    requires k <= |xs| && Ascending(xs)
    ensures x in xs[k..] <==> x in xs && x !in xs[..k]
  {
    assert xs == xs[..k] + xs[k..];
    assert forall i, j | 0 <= i < k && 0 <= j < |xs| - k :: xs[..k][i] < xs[k..][j];
  }

  ghost predicate Ascending(xs: seq<nat>) {
    forall i, j | 0 <= i < j < |xs| :: xs[i] < xs[j]
  }

  lemma LastIsGreatest(xs: seq<nat>, x: nat)
    requires xs != [] && Ascending(xs)
    ensures Ascending(xs[..|xs|-1])
    ensures x in xs ==> x <= xs[|xs|-1]
    ensures x in xs[..|xs|-1] <==> x in xs && x < xs[|xs|-1]
  {
  }

  /** Two ascending lists with the same members are the same list. */
  lemma {:induction false} SameAscending(xs: seq<nat>, ys: seq<nat>)
    requires Ascending(xs) && Ascending(ys)
    requires forall x: nat :: x in xs <==> x in ys
    ensures xs == ys
  {
    assert xs != [] ==> xs[0] in xs;
    assert ys != [] ==> ys[0] in ys;
    if xs != [] {
      hide Ascending;
      var m, n := |xs| - 1, |ys| - 1;
      assert xs[m] in xs && ys[n] in ys;
      LastIsGreatest(xs, ys[n]);
      LastIsGreatest(ys, xs[m]);
      forall x: nat ensures x in xs[..m] <==> x in ys[..n] {
        LastIsGreatest(xs, x);
        LastIsGreatest(ys, x);
      }
      SameAscending(xs[..m], ys[..n]);
      assert xs == xs[..m] + [xs[m]] && ys == ys[..n] + [ys[n]];
    }
  }

  /** Successive runs at the given times. */
  function Runs(live: bool, db: Db, times: seq<int>, answers: nat -> nat -> Answer): Db {
    if times == [] then db
    else
      var n := |times| - 1;
      ReconcilerRun(live, Runs(live, db, times[..n], answers), times[n], answers(n))
  }

  function Remaining(queued: nat, runs: nat): nat {
    if queued <= MAX_PER_RUN * runs then 0 else queued - MAX_PER_RUN * runs
  }

  /** Progress: with nothing new arriving, after `k` runs exactly the first 20k of the overdue
      orders are gone, whatever the gateway answered; so ceil(n/20) runs empty a queue of n. */
  lemma {:induction false} RunsEmptyQueue(live: bool, db: Db, start: int, times: seq<int>,
                                          answers: nat -> nat -> Answer, later: int)
    requires forall i | 0 <= i < |times| :: Quiet(answers(i))
    requires AllOverdue(db, start) && start <= later
    requires forall i | 0 <= i < |times| :: start <= times[i] <= later
    requires forall i: nat, id: nat | i < |times| :: answers(i)(id).at >= times[i]
    ensures AllOverdue(Runs(live, db, times, answers), start)
    ensures |Queue(Runs(live, db, times, answers).orders, later)| == Remaining(|Queue(db.orders, later)|, |times|)
  {
    hide ReconcilerRun, Queue;
    if times != [] {
      var n := |times| - 1;
      var before := Runs(live, db, times[..n], answers);
      RunsEmptyQueue(live, db, start, times[..n], answers, later);
      RunShortensQueue(live, before, start, times[n], answers(n), later);
      SameQueue(before, start, times[n], later);
    }
  }

  lemma SameQueue(db: Db, start: int, now: int, later: int)
    requires AllOverdue(db, start) && start <= now <= later
    ensures Queue(db.orders, now) == Queue(db.orders, later)
  {
    SameAscending(Queue(db.orders, now), Queue(db.orders, later));
  }
}
