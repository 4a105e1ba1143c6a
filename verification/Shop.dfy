/** The shop's database connection with the operations that touch stock and orders, written
    as the source writes them: loops over lines and rows that update the tables in place.
    Each is proved against its step in `Orders` or `Payments`. */
module Shops {
  import opened Options
  import opened Orders
  import opened Payments

  datatype Reservation = Reserved | BadQty | Short(shortages: seq<Shortage>)

  datatype Creation = Created(id: nat) | Rejected(why: Reservation) | ConstraintFailed

  datatype Tally = Tally(checked: nat, paid: nat, failed: nat, unknown: nat)

  class Shop {
    var stock: Stock
    var orders: seq<Order>
    ghost var released: multiset<nat>

    ghost function State(): Db
      reads this
    {
      Db(stock, orders, released)
    }

    constructor (products: Stock)
      ensures State() == Db(products, [], multiset{})
    {
      stock, orders, released := products, [], multiset{};
    }

    /** `cleanQtyItems`: the whole list is refused if it is empty or any line is unsound. */
    method CleanQtyItems(items: seq<Line>) returns (ok: bool)
      ensures ok == Clean(items)
      ensures ok <==>
                items != [] && forall line | line in items ::
                  && line.Line? && line.qty.Whole? && 1 <= line.qty.n <= 1000
                  && line.productId.Whole? && line.productId.n > 0
    {
      if items == [] { return false; }
      for k := 0 to |items|
        invariant forall line | line in items[..k] :: Sound(line)
      {
        assert items[..k+1] == items[..k] + [items[k]];
        assert items[k] in items;
        var it := items[k];
        if it.NotAnObject? { return false; }
        if !it.qty.Whole? || it.qty.n < 1 || it.qty.n > MAX_LINE_QTY { return false; }
        if !it.productId.Whole? || it.productId.n < 1 { return false; }
      }
      assert items[..|items|] == items;
      return true;
    }

    /** Succeeds exactly when every product has what all the lines together ask of it, and then
        takes exactly that; otherwise the transaction is rolled back and nothing changes, and
        the products reported are exactly those the lines ask too much of. */
    method ReserveStock(items: seq<Line>) returns (r: Reservation)
      modifies this`stock
      ensures r.BadQty? <==> !Clean(items)
      ensures r.Reserved? <==> Clean(items) && Fits(old(stock), items)
      ensures stock == if r.Reserved? then Taken(old(stock), items) else old(stock)
      ensures r.Short? ==>
                && r.shortages == Walked(old(stock), items).shortages
                && forall line | line in items ::
                     var p := line.productId.n;
                     Reported(r.shortages, p) <==> p !in old(stock) || Demand(items, p) > old(stock)[p]
    {
      var before := stock;
      var clean := CleanQtyItems(items);
      if !clean { return BadQty; }
      var shortages: seq<Shortage> := [];
      for k := 0 to |items|
        invariant Walk(stock, shortages) == Walked(before, items[..k])
      {
        hide Walked;
        WalkedStep(before, items, k);
        var it := items[k];
        assert it in items;
        var p, qty := it.productId.n, it.qty.n;
        if p in stock && stock[p] >= qty {
          stock := stock[p := stock[p] - qty];
        } else {
          shortages := shortages + [Shortage(p, if p in stock then stock[p] else 0)];
        }
      }
      assert items[..|items|] == items;
      hide Walked, Reported, Demand;
      ReportsExactly(before, items);
      if shortages != [] {
        stock := before;
        return Short(shortages);
      }
      return Reserved;
    }

    /** Never refuses: a line that makes no sense is skipped, the others go back. */
    method ReleaseStock(items: seq<Line>)
      modifies this`stock
      ensures stock == GivenBack(old(stock), items)
    {
      hide GivenBack;
      ghost var before := stock;
      GivenNothing(before);
      assert items[..0] == [];
      for k := 0 to |items|
        invariant stock.Keys == before.Keys && stock == GivenBack(before, items[..k])
      {
        GivenBackStep(before, items, k);
        var it := items[k];
        if Sound(it) && it.productId.n in stock {
          stock := stock[it.productId.n := stock[it.productId.n] + it.qty.n];
        }
      }
      assert items[..|items|] == items;
    }

    method CreateOrderTx(userId: int, items: seq<Line>, total: int, key: Option<string>, now: int) returns (r: Creation)
      modifies this
      ensures State() == Step(old(State()), Create(userId, items, total, key, now))
      ensures r.Created? <==> Insertable(old(State()), items, total, userId, key)
      ensures r.Rejected? <==> !Clean(items) || !Fits(old(stock), items)
      ensures r.ConstraintFailed? <==>
                && Clean(items) && Fits(old(stock), items)
                && (total <= 0 || (key.Some? && exists o :: o in old(orders) && o.userId == userId && o.key == key))
      ensures !r.Created? ==> stock == old(stock) && orders == old(orders)
      ensures r.Created? ==>
                && r.id == |old(orders)| && |orders| == r.id + 1 && orders[..r.id] == old(orders)
                && var o := orders[r.id];
                   && o.userId == userId && o.items == items && o.total == total && o.key == key
                   && o.status.PendingPayment? && !o.manual && o.authority == "" && o.tries == 0
                   && o.expiresAt == Some(now + ORDER_TTL_MS)
                   && forall p | p in old(stock) :: p in stock && stock[p] == old(stock)[p] - Demand(items, p)
    {
      var before := stock;
      var reserved := ReserveStock(items);
      if !reserved.Reserved? { return Rejected(reserved); }
      assert KeyTaken(orders, userId, key) <==>
          key.Some? && exists o :: o in orders && o.userId == userId && o.key == key;
      if total <= 0 || KeyTaken(orders, userId, key) {
        stock := before;
        return ConstraintFailed;
      }
      forall p | p in before ensures Demand(items, p) <= before[p] { FittingDemand(before, items, p); }
      orders := orders + [Order(userId, items, total, PendingPayment, false, "", Some(now + ORDER_TTL_MS), 0, key)];
      return Created(|orders| - 1);
    }

    method CreateManualOrderTx(userId: int, items: seq<Line>, total: int) returns (r: Creation)
      modifies this
      ensures State() == Step(old(State()), CreateManual(userId, items, total))
      ensures r.Created? <==> Clean(items) && Fits(old(stock), items) && total > 0
      ensures !r.Created? ==> stock == old(stock) && orders == old(orders)
      ensures r.Created? ==>
                && r.id == |old(orders)| && |orders| == r.id + 1 && orders[..r.id] == old(orders)
                && var o := orders[r.id];
                   && o.userId == userId && o.items == items && o.total == total && o.key.None?
                   && o.status.Paid? && o.manual && o.authority == "" && o.tries == 0 && o.expiresAt.None?
                   && forall p | p in old(stock) :: p in stock && stock[p] == old(stock)[p] - Demand(items, p)
    {
      var before := stock;
      var reserved := ReserveStock(items);
      if !reserved.Reserved? { return Rejected(reserved); }
      if total <= 0 {
        stock := before;
        return ConstraintFailed;
      }
      forall p | p in before ensures Demand(items, p) <= before[p] { FittingDemand(before, items, p); }
      orders := orders + [Order(userId, items, total, Paid, true, "", None, 0, None)];
      return Created(|orders| - 1);
    }

    method SetPaymentDetails(id: nat, authority: string)
      modifies this`orders
      ensures State() == Step(old(State()), SetPayment(id, authority))
      ensures orders == if id >= |old(orders)| then old(orders)
                        else old(orders)[id := old(orders)[id].(authority := authority)]
    {
      if id < |orders| { orders := orders[id := orders[id].(authority := authority)]; }
    }

    method MarkOrderPaid(id: nat) returns (changed: bool)
      modifies this`orders
      ensures State() == Step(old(State()), MarkPaid(id))
      ensures changed <==> id < |old(orders)| && old(orders)[id].status.PendingPayment?
      ensures if changed then orders[id].status.Paid? && orders[id].expiresAt.None? else orders == old(orders)
      ensures |orders| == |old(orders)| && forall i | 0 <= i < |orders| && i != id :: orders[i] == old(orders)[i]
    {
      changed := id < |orders| && orders[id].status.PendingPayment?;
      if changed { orders := orders[id := orders[id].(status := Paid, expiresAt := None)]; }
    }

    method MarkOrderFailedTx(id: nat) returns (changed: bool)
      modifies this
      ensures State() == Step(old(State()), MarkFailed(id))
      ensures changed <==> id < |old(orders)| && old(orders)[id].status.PendingPayment?
      ensures if changed then orders[id].status.Failed? && orders[id].expiresAt.None? else orders == old(orders)
      ensures stock == if changed then GivenBack(old(stock), old(orders)[id].items) else old(stock)
      ensures |orders| == |old(orders)| && forall i | 0 <= i < |orders| && i != id :: orders[i] == old(orders)[i]
    {
      changed := id < |orders| && orders[id].status.PendingPayment?;
      if changed {
        orders := orders[id := orders[id].(status := Failed, expiresAt := None)];
        ReleaseStock(orders[id].items);
        released := released + multiset{id};
      }
    }

    method FailEach(ids: seq<nat>)
      modifies this
      ensures State() == FailAll(old(State()), ids)
    {
      ghost var before := State();
      assert State() == FailAll(before, ids[..0]);
      hide FailAll, Step;
      for k := 0 to |ids|
        invariant State() == FailAll(before, ids[..k])
      {
        FailAllStep(before, ids, k);
        var _ := MarkOrderFailedTx(ids[k]);
      }
      assert ids[..|ids|] == ids;
    }

    method ExpireStaleOrders(now: int) returns (n: nat)
      modifies this
      ensures State() == Step(old(State()), Expire(now))
      ensures n == |Select(old(orders), |old(orders)|, o => Abandoned(o, now))|
      ensures |orders| == |old(orders)|
      ensures forall i: nat | i < |orders| ::
                var o := old(orders)[i];
                orders[i] ==
                if o.status.PendingPayment? && o.authority == "" && o.expiresAt.Some? && o.expiresAt.value < now
                then o.(status := Failed, expiresAt := None) else o
    {
      var stale := Select(orders, |orders|, o => Abandoned(o, now));
      forall i: nat | i < |orders|
        ensures FailAll(State(), stale).orders[i] ==
                if Abandoned(orders[i], now) then orders[i].(status := Failed, expiresAt := None) else orders[i]
      {
        FailAllMoves(State(), stale, i);
      }
      FailEach(stale);
      return |stale|;
    }

    method BumpReconcileTries(id: nat) returns (changed: bool)
      modifies this`orders
      ensures State() == Step(old(State()), BumpTries(id))
      ensures changed <==> id < |old(orders)|
      ensures |orders| == |old(orders)| && forall i | 0 <= i < |orders| && i != id :: orders[i] == old(orders)[i]
      ensures changed ==> orders[id] == old(orders)[id].(tries := old(orders)[id].tries + 1)
    {
      changed := id < |orders|;
      if changed { orders := orders[id := orders[id].(tries := orders[id].tries + 1)]; }
    }

    method AdminSetOrderStatus(id: nat, from: Status, to: Status) returns (changed: bool)
      modifies this`orders
      ensures State() == Step(old(State()), AdminSet(id, from, to))
      ensures changed <==> AdminFlow(from, to) && id < |old(orders)| && old(orders)[id].status == from
      ensures orders == if changed then old(orders)[id := old(orders)[id].(status := to)] else old(orders)
    {
      changed := AdminFlow(from, to) && id < |orders| && orders[id].status == from;
      if changed { orders := orders[id := orders[id].(status := to)]; }
    }

    /** The order has ended and its lines are back in stock; nothing else has changed. */
    ghost predicate Closed(before: Db, id: nat, to: Status)
      reads this
    {
      && id < |before.orders| && orders == before.orders[id := before.orders[id].(status := to)]
      && stock == GivenBack(before.stock, before.orders[id].items)
    }

    method AdminCancelOrderTx(id: nat) returns (changed: bool)
      modifies this
      ensures State() == Step(old(State()), AdminCancel(id))
      ensures changed <==>
                id < |old(orders)| && !old(orders)[id].status.PendingPayment? && !Ended(old(orders)[id].status)
      ensures if changed then Closed(old(State()), id, Canceled) else State() == old(State())
    {
      hide GivenBack;
      changed := id < |orders| && (orders[id].status.Paid? || orders[id].status.Shipped?
                                   || orders[id].status.Delivered? || orders[id].status.ReturnRequested?);
      if changed { End(id, Canceled); }
    }

    method AdminAcceptReturnTx(id: nat) returns (changed: bool)
      modifies this
      ensures State() == Step(old(State()), AcceptReturn(id))
      ensures changed <==> id < |old(orders)| && old(orders)[id].status.ReturnRequested?
      ensures if changed then Closed(old(State()), id, Returned) else State() == old(State())
    {
      changed := id < |orders| && orders[id].status.ReturnRequested?;
      if changed { End(id, Returned); }
    }

    method UserCancelOrderTx(id: nat, userId: int) returns (changed: bool)
      modifies this
      ensures State() == Step(old(State()), UserCancel(id, userId))
      ensures changed <==> id < |old(orders)| && old(orders)[id].userId == userId && old(orders)[id].status.Paid?
      ensures if changed then Closed(old(State()), id, Canceled) else State() == old(State())
    {
      changed := id < |orders| && orders[id].userId == userId && orders[id].status.Paid?;
      if changed { End(id, Canceled); }
    }

    method UserRequestReturn(id: nat, userId: int) returns (changed: bool)
      modifies this`orders
      ensures State() == Step(old(State()), UserReturn(id, userId))
      ensures changed <==> id < |old(orders)| && old(orders)[id].userId == userId && old(orders)[id].status.Delivered?
      ensures orders == if changed then old(orders)[id := old(orders)[id].(status := ReturnRequested)] else old(orders)
    {
      changed := id < |orders| && orders[id].userId == userId && orders[id].status.Delivered?;
      if changed { orders := orders[id := orders[id].(status := ReturnRequested)]; }
    }

    /** The tail the cancelling transactions share: new status, then the lines go back. */
    method End(id: nat, to: Status)
      requires id < |orders|
      modifies this
      ensures orders == old(orders)[id := old(orders)[id].(status := to)]
      ensures stock == GivenBack(old(stock), old(orders)[id].items)
      ensures released == old(released) + multiset{id}
    {
      orders := orders[id := orders[id].(status := to)];
      ReleaseStock(orders[id].items);
      released := released + multiset{id};
    }

    /** Any one operation, for what other handlers do while the reconciler waits. */
    method Perform(a: Action)
      modifies this
      ensures State() == Step(old(State()), a)
    {
      match a
      case Create(userId, items, total, key, now) => var _ := CreateOrderTx(userId, items, total, key, now);
      case CreateManual(userId, items, total) => var _ := CreateManualOrderTx(userId, items, total);
      case SetPayment(id, authority) => SetPaymentDetails(id, authority);
      case MarkPaid(id) => var _ := MarkOrderPaid(id);
      case MarkFailed(id) => var _ := MarkOrderFailedTx(id);
      case Expire(now) => var _ := ExpireStaleOrders(now);
      case BumpTries(id) => var _ := BumpReconcileTries(id);
      case AdminSet(id, from, to) => var _ := AdminSetOrderStatus(id, from, to);
      case AdminCancel(id) => var _ := AdminCancelOrderTx(id);
      case AcceptReturn(id) => var _ := AdminAcceptReturnTx(id);
      case UserCancel(id, userId) => var _ := UserCancelOrderTx(id, userId);
      case UserReturn(id, userId) => var _ := UserRequestReturn(id, userId);
    }

    /** The time between a question and its answer. */
    method Await(meanwhile: seq<Action>)
      modifies this
      ensures State() == Run(old(State()), meanwhile)
    {
      hide Step;
      ghost var before := State();
      assert meanwhile[..0] == [];
      for k := 0 to |meanwhile|
        invariant State() == Run(before, meanwhile[..k])
      {
        assert meanwhile[..k+1][..k] == meanwhile[..k];
        Perform(meanwhile[k]);
      }
      assert meanwhile[..|meanwhile|] == meanwhile;
    }

    /** One row of a reconciler run: count the try, ask, wait, act on the verdict.  If a callback
        or another handler has settled the order by then, nothing happens to it and neither
        `paid` nor `failed` counts it. */
    method SettleRow(live: bool, ask: Ask, answer: Answer, tally: Tally) returns (t: Tally)
      requires ask.who.Reconciler?
      modifies this
      ensures State() == Reconciled(live, old(State()), ask, answer)
      ensures t == CountedOnce(tally, live, old(State()), ask, answer)
    {
      hide Step, Run, Demand, FailAll, Select;
      t := tally.(checked := tally.checked + 1);
      var _ := BumpReconcileTries(ask.id);
      Await(answer.meanwhile);
      var verdict := InquirePayment(live, ask.authority, answer.reply);
      if verdict.SaysPaid? {
        var changed := MarkOrderPaid(ask.id);
        if changed { t := t.(paid := t.paid + 1); }
        return;
      }
      if verdict.SaysUnpaid? {
        var changed := MarkOrderFailedTx(ask.id);
        if changed { t := t.(failed := t.failed + 1); }
        return;
      }
      t := t.(unknown := t.unknown + 1);
      if answer.at - ask.expiresAt > GIVE_UP_AFTER_MS {
        var changed := MarkOrderFailedTx(ask.id);
        if changed { t := t.(failed := t.failed + 1); }
      }
    }

    /** One run of the reconciler; `answers` says what the gateway replies about each order, when,
        and what happens meanwhile.  The rows are read once, at the start.  The tally counts
        outcomes: an order given up after 24 hours is both `unknown` and `failed`. */
    method ReconcileStaleOrders(live: bool, now: int, answers: nat -> Answer) returns (tally: Tally)
      modifies this
      ensures State() == ReconcilerRun(live, old(State()), now, answers)
      ensures tally == Counted(live, old(State()), Questions(old(orders), FirstRows(Queue(old(orders), now))), answers)
    {
      ghost var before := State();
      var queue := Queue(orders, now);
      var rows := Questions(orders, FirstRows(queue));
      tally := Tally(0, 0, 0, 0);
      assert rows[..0] == [];
      for k := 0 to |rows|
        invariant State() == ReconciledAll(live, before, rows[..k], answers)
        invariant tally == Counted(live, before, rows[..k], answers)
      {
        hide Reconciled, CountedOnce, ReconciledAll, Counted;
        OneMoreRow(live, before, rows, k, answers);
        tally := SettleRow(live, rows[k], answers(rows[k].id), tally);
      }
      assert rows[..|rows|] == rows;
    }
  }

  datatype Ending = BecamePaid | BecameFailed | Left

  /** What an answered reconciler row comes to: nothing, if its order was settled meanwhile. */
  function Outcome(live: bool, db: Db, ask: Ask, answer: Answer): Ending {
    var met := Met(db, ask, answer);
    if ask.id >= |met.orders| || !met.orders[ask.id].status.PendingPayment? then Left
    else
      match Reaction(live, ask, answer.reply, answer.at)
      case None => Left
      case Some(a) => if a.MarkPaid? then BecamePaid else BecameFailed
  }

  function CountedOnce(t: Tally, live: bool, db: Db, ask: Ask, answer: Answer): Tally {
    var outcome := Outcome(live, db, ask, answer);
    Tally(t.checked + 1,
          t.paid + if outcome.BecamePaid? then 1 else 0,
          t.failed + if outcome.BecameFailed? then 1 else 0,
          t.unknown + if InquirePayment(live, ask.authority, answer.reply).Unknown? then 1 else 0)
  }

  function Counted(live: bool, db: Db, rows: seq<Ask>, answers: nat -> Answer): Tally {
    if rows == [] then Tally(0, 0, 0, 0)
    else
      var n := |rows| - 1;
      CountedOnce(Counted(live, db, rows[..n], answers), live,
                  ReconciledAll(live, db, rows[..n], answers), rows[n], answers(rows[n].id))
  }

  lemma OneMoreRow(live: bool, db: Db, rows: seq<Ask>, k: nat, answers: nat -> Answer)
    requires k < |rows|
    ensures var before, answer := ReconciledAll(live, db, rows[..k], answers), answers(rows[k].id);
            && ReconciledAll(live, db, rows[..k+1], answers) == Reconciled(live, before, rows[k], answer)
            && Counted(live, db, rows[..k+1], answers)
               == CountedOnce(Counted(live, db, rows[..k], answers), live, before, rows[k], answer)
  {
    hide Reconciled, CountedOnce;
    assert rows[..k+1][..k] == rows[..k];
  }

  lemma OutcomeIsChange(live: bool, db: Db, ask: Ask, answer: Answer)
    requires ask.id < |db.orders|
    ensures var met, after := Met(db, ask, answer).orders[ask.id], Reconciled(live, db, ask, answer).orders[ask.id];
            && (Outcome(live, db, ask, answer).BecamePaid? <==> met.status.PendingPayment? && after.status.Paid?)
            && (Outcome(live, db, ask, answer).BecameFailed? <==> met.status.PendingPayment? && after.status.Failed?)
  {
    hide Met, Demand;
  }

  /** The rows whose order was pending when the answer came and has status `to` right after. */
  function Moved(live: bool, db: Db, rows: seq<Ask>, answers: nat -> Answer, to: Status): nat
    requires forall row | row in rows :: row.id < |db.orders|
  {
    if rows == [] then 0
    else
      var n := |rows| - 1;
      var before, row := ReconciledAll(live, db, rows[..n], answers), rows[n];
      var met, after := Met(before, row, answers(row.id)), Reconciled(live, before, row, answers(row.id));
      Moved(live, db, rows[..n], answers, to)
      + if met.orders[row.id].status.PendingPayment? && after.orders[row.id].status == to then 1 else 0
  }

  /** The rows about which a live gateway was asked and gave no usable reply. */
  function Unanswered(live: bool, rows: seq<Ask>, answers: nat -> Answer): nat {
    if rows == [] then 0
    else
      var n := |rows| - 1;
      Unanswered(live, rows[..n], answers)
      + if live && !IsTest(rows[n].authority) && answers(rows[n].id).reply.NoReply? then 1 else 0
  }

  /** The tally of a run is true: every row was checked, `paid` and `failed` number the orders
      the run itself moved from pending to that status, whatever others did meanwhile, and
      `unknown` the questions without an answer. */
  lemma {:induction false} TallyIsTrue(live: bool, db: Db, rows: seq<Ask>, answers: nat -> Answer)
    requires forall row | row in rows :: row.id < |db.orders|
    ensures var t := Counted(live, db, rows, answers);
            && t.checked == |rows|
            && t.paid == Moved(live, db, rows, answers, Paid)
            && t.failed == Moved(live, db, rows, answers, Failed)
            && t.unknown == Unanswered(live, rows, answers)
  {
    if rows != [] {
      var n := |rows| - 1;
      TallyIsTrue(live, db, rows[..n], answers);
      OutcomeIsChange(live, ReconciledAll(live, db, rows[..n], answers), rows[n], answers(rows[n].id));
      UnknownIsUnanswered(live, rows[n].authority, answers(rows[n].id).reply);
      hide Met, Reconciled, ReconciledAll, Outcome, InquirePayment;
    }
  }

  lemma UnknownIsUnanswered(live: bool, authority: string, reply: Reply)
    ensures InquirePayment(live, authority, reply).Unknown? <==> live && !IsTest(authority) && reply.NoReply?
  {
  }
}
