/** Orders and the stock they hold, as values: what each database operation of the shop does
    to the `products.stock` column and the `orders` table, and what every run of them keeps. */
module Orders {
  import opened Options

  // ---------------------------------------------------------------- order lines

  const MAX_LINE_QTY := 1000

  /** A field of an order line after `Number(String(x).trim())`. */
  datatype Field = Whole(n: int) | NotWhole

  datatype Line = Line(productId: Field, qty: Field) | NotAnObject

  predicate Sound(line: Line) {
    && line.Line?
    && line.qty.Whole? && 1 <= line.qty.n <= MAX_LINE_QTY
    && line.productId.Whole? && line.productId.n >= 1
  }

  /** What `cleanQtyItems` lets through. */
  predicate Clean(items: seq<Line>) {
    items != [] && forall line | line in items :: Sound(line)
  }

  function Wanted(line: Line, p: int): nat {
    if Sound(line) && line.productId.n == p then line.qty.n else 0
  }

  /** How much of product `p` the sound lines ask for, duplicates added up. */
  function Demand(items: seq<Line>, p: int): nat {
    if items == [] then 0 else Demand(items[..|items|-1], p) + Wanted(items[|items|-1], p)
  }

  lemma DemandStep(items: seq<Line>, k: nat, p: int)
    requires k < |items|
    ensures Demand(items[..k+1], p) == Demand(items[..k], p) + Wanted(items[k], p)
  {
    assert items[..k+1][..k] == items[..k];
  }

  // ---------------------------------------------------------------- stock

  type Stock = map<int, nat>

  /** Every line names an existing product, and no product is asked for more than it has. */
  predicate Fits(stock: Stock, items: seq<Line>) {
    forall line | line in items && Sound(line) ::
      line.productId.n in stock && Demand(items, line.productId.n) <= stock[line.productId.n]
  }

  lemma {:induction false} DemandedIsNamed(items: seq<Line>, p: int)
    requires Demand(items, p) > 0
    ensures exists line :: line in items && Sound(line) && line.productId.n == p
  {
    var last := items[|items|-1];
    if Wanted(last, p) == 0 {
      DemandedIsNamed(items[..|items|-1], p);
      var line :| line in items[..|items|-1] && Sound(line) && line.productId.n == p;
      assert line in items;
    }
  }

  lemma FittingDemand(stock: Stock, items: seq<Line>, p: int)
    requires Fits(stock, items) && p in stock
    ensures Demand(items, p) <= stock[p]
  {
    if Demand(items, p) > 0 {
      DemandedIsNamed(items, p);
    }
  }

  function Taken(stock: Stock, items: seq<Line>): Stock {
    map p | p in stock :: if Demand(items, p) <= stock[p] then stock[p] - Demand(items, p) else 0
  }

  function GivenBack(stock: Stock, items: seq<Line>): Stock {
    map p | p in stock :: stock[p] + Demand(items, p)
  }

  lemma GivenBackStep(stock: Stock, items: seq<Line>, k: nat)
    requires k < |items|
    ensures var g, it := GivenBack(stock, items[..k]), items[k];
            GivenBack(stock, items[..k+1]) ==
            if Sound(it) && it.productId.n in stock
            then g[it.productId.n := g[it.productId.n] + it.qty.n] else g
  {
    hide Demand;
    forall p: int ensures Demand(items[..k+1], p) == Demand(items[..k], p) + Wanted(items[k], p) {
      DemandStep(items, k, p);
    }
  }

  lemma GivenNothing(stock: Stock)
    ensures GivenBack(stock, []) == stock
  {
  }

  // ---------------------------------------------------------------- reserving line by line

  datatype Shortage = Shortage(productId: int, available: nat)

  /** The stock and the shortages collected so far, part of the way through the lines. */
  datatype Walk = Walk(stock: Stock, shortages: seq<Shortage>)

  function WalkLine(w: Walk, line: Line): Walk {
    if !Sound(line) then w
    else
      var p, qty := line.productId.n, line.qty.n;
      if p in w.stock && w.stock[p] >= qty then w.(stock := w.stock[p := w.stock[p] - qty])
      else w.(shortages := w.shortages + [Shortage(p, if p in w.stock then w.stock[p] else 0)])
  }

  function Walked(stock: Stock, items: seq<Line>): Walk {
    if items == [] then Walk(stock, []) else WalkLine(Walked(stock, items[..|items|-1]), items[|items|-1])
  }

  lemma WalkedStep(stock: Stock, items: seq<Line>, k: nat)
    requires k < |items|
    ensures Walked(stock, items[..k+1]) == WalkLine(Walked(stock, items[..k]), items[k])
  {
    assert items[..k+1][..k] == items[..k];
  }

  predicate Reported(shortages: seq<Shortage>, p: int) {
    exists i :: 0 <= i < |shortages| && shortages[i].productId == p
  }

  /** One product's stock after the walk: not reported, it has lost exactly the demand; reported,
      the demand is more than there was. */
  lemma {:induction false} WalkAccount(stock: Stock, items: seq<Line>, p: int)
    ensures var w := Walked(stock, items);
            && w.stock.Keys == stock.Keys
            && (Reported(w.shortages, p) ==> Demand(items, p) > 0)
            && (p !in stock ==> (Reported(w.shortages, p) <==> Demand(items, p) > 0))
            && (p in stock ==>
                  && stock[p] - Demand(items, p) <= w.stock[p] <= stock[p]
                  && (if Reported(w.shortages, p) then Demand(items, p) > stock[p]
                      else w.stock[p] == stock[p] - Demand(items, p)))
  {
    if items != [] {
      var n := |items| - 1;
      WalkAccount(stock, items[..n], p);
      ReportedMore(Walked(stock, items[..n]), items[n], p);
    }
  }

  lemma ReportedMore(w: Walk, line: Line, p: int)
    ensures Reported(WalkLine(w, line).shortages, p) <==>
              Reported(w.shortages, p)
              || (Sound(line) && line.productId.n == p && !(p in w.stock && w.stock[p] >= line.qty.n))
  {
    var was, now := w.shortages, WalkLine(w, line).shortages;
    assert forall i | 0 <= i < |was| :: now[i] == was[i];
    if |now| > |was| { assert now[|was|].productId == line.productId.n; }
  }

  /** Each reported number is what was left of the product when a line asked for more. */
  lemma {:induction false} ReportsAreReal(stock: Stock, items: seq<Line>)
    ensures forall s | s in Walked(stock, items).shortages ::
              if s.productId in stock then s.available <= stock[s.productId] else s.available == 0
  {
    if items != [] {
      var n := |items| - 1;
      ReportsAreReal(stock, items[..n]);
      if Sound(items[n]) { WalkAccount(stock, items[..n], items[n].productId.n); }
    }
  }

  lemma {:induction false} ReportsStay(stock: Stock, items: seq<Line>, k: nat)
    requires k <= |items|
    ensures Walked(stock, items[..k]).shortages <= Walked(stock, items).shortages
  {
    if k == |items| {
      assert items[..k] == items;
    } else {
      var n := |items| - 1;
      ReportsStay(stock, items[..n], k);
      assert items[..n][..k] == items[..k];
    }
  }

  /** A product is first reported at the line with which the demand exceeds the stock, and with
      exactly what the lines before it leave. */
  lemma FirstReportIsExact(stock: Stock, items: seq<Line>, p: int, k: nat)
    requires k < |items| && p in stock
    requires Demand(items[..k], p) <= stock[p] < Demand(items[..k+1], p)
    ensures var before, all := Walked(stock, items[..k]).shortages, Walked(stock, items).shortages;
            && |before| < |all| && all[|before|] == Shortage(p, stock[p] - Demand(items[..k], p))
            && forall i | 0 <= i < |before| :: all[i].productId != p
  {
    hide Demand;
    DemandStep(items, k, p);
    WalkAccount(stock, items[..k], p);
    WalkedStep(stock, items, k);
    ReportsStay(stock, items, k + 1);
    var before, all := Walked(stock, items[..k]).shortages, Walked(stock, items).shortages;
    assert Walked(stock, items[..k+1]).shortages[|before|] == all[|before|];
    assert !Reported(before, p);
    forall i | 0 <= i < |before| ensures all[i].productId != p {
      assert before[i] == Walked(stock, items[..k+1]).shortages[i] == all[i];
    }
  }

  /** The walk reports exactly the products the lines together ask too much of; without reports
      it has taken exactly what they ask, and there are none exactly when everything fits. */
  lemma ReportsExactly(stock: Stock, items: seq<Line>)
    ensures forall line | line in items && Sound(line) ::
              var p := line.productId.n;
              Reported(Walked(stock, items).shortages, p) <==> p !in stock || Demand(items, p) > stock[p]
    ensures Walked(stock, items).shortages == [] <==> Fits(stock, items)
    ensures Walked(stock, items).shortages == [] ==> Walked(stock, items).stock == Taken(stock, items)
  {
    hide Demand;
    var w := Walked(stock, items);
    forall line | line in items && Sound(line)
      ensures Reported(w.shortages, line.productId.n) <==>
                line.productId.n !in stock || Demand(items, line.productId.n) > stock[line.productId.n]
    {
      NamedIsDemanded(items, line);
      WalkAccount(stock, items, line.productId.n);
    }
    if w.shortages != [] {
      var p := w.shortages[0].productId;
      assert Reported(w.shortages, p);
      WalkAccount(stock, items, p);
      DemandedIsNamed(items, p);
    } else {
      forall p | p in stock ensures w.stock[p] == Taken(stock, items)[p] { WalkAccount(stock, items, p); }
      WalkAccount(stock, items, 0);
    }
  }

  lemma {:induction false} NamedIsDemanded(items: seq<Line>, line: Line)
    requires line in items && Sound(line)
    ensures Demand(items, line.productId.n) > 0
  {
    var n := |items| - 1;
    if items[n] != line {
      assert line in items[..n];
      NamedIsDemanded(items[..n], line);
    }
  }

  // ---------------------------------------------------------------- orders

  datatype Status =
    | PendingPayment | Paid | Shipped | Delivered | ReturnRequested
    | Failed | Canceled | Returned

  /** The three statuses in which an order no longer holds stock. */
  predicate Ended(s: Status) {
    s.Failed? || s.Canceled? || s.Returned?
  }

  datatype Order = Order(
    userId: int, items: seq<Line>, total: int, status: Status, manual: bool,
    authority: string, expiresAt: Option<int>, tries: nat, key: Option<string>)

  /** `released` records whose lines have been handed to `releaseStock`, with multiplicity.
      An order's id is its position. */
  datatype Db = Db(stock: Stock, orders: seq<Order>, released: multiset<nat>)

  const ORDER_TTL_MS := 30 * 60 * 1000

  /** The unique index on (user, idempotency key). */
  predicate KeyTaken(orders: seq<Order>, userId: int, key: Option<string>) {
    key.Some? && exists i | 0 <= i < |orders| :: orders[i].userId == userId && orders[i].key == key
  }

  predicate AdminFlow(from: Status, to: Status) {
    match from
    case Paid => to.Shipped? || to.Canceled?
    case Shipped => to.Delivered? || to.Paid? || to.Canceled?
    case Delivered => to.Shipped?
    case ReturnRequested => to.Delivered?
    case _ => false
  }

  datatype Action =
    | Create(userId: int, items: seq<Line>, total: int, key: Option<string>, now: int)
    | CreateManual(userId: int, items: seq<Line>, total: int)
    | SetPayment(id: nat, authority: string)
    | MarkPaid(id: nat)
    | MarkFailed(id: nat)
    | Expire(now: int)
    | BumpTries(id: nat)
    | AdminSet(id: nat, from: Status, to: Status)
    | AdminCancel(id: nat)
    | AcceptReturn(id: nat)
    | UserCancel(id: nat, userId: int)
    | UserReturn(id: nat, userId: int)

  predicate Insertable(db: Db, items: seq<Line>, total: int, userId: int, key: Option<string>) {
    Clean(items) && Fits(db.stock, items) && total > 0 && !KeyTaken(db.orders, userId, key)
  }

  function Placed(db: Db, order: Order): Db {
    db.(stock := Taken(db.stock, order.items), orders := db.orders + [order])
  }

  /** The actions that concern one order, named by its id. */
  predicate Single(a: Action) {
    !a.Create? && !a.CreateManual? && !a.Expire?
  }

  /** What such an action makes of the order it names; where its UPDATE matches no row, nothing. */
  function Changed(o: Order, a: Action): Order
    requires Single(a)
  {
    match a
    case SetPayment(_, authority) => o.(authority := authority)
    case MarkPaid(_) => if o.status.PendingPayment? then o.(status := Paid, expiresAt := None) else o
    case MarkFailed(_) => if o.status.PendingPayment? then o.(status := Failed, expiresAt := None) else o
    case BumpTries(_) => o.(tries := o.tries + 1)
    case AdminSet(_, from, to) => if AdminFlow(from, to) && o.status == from then o.(status := to) else o
    case AdminCancel(_) =>
      if o.status.Paid? || o.status.Shipped? || o.status.Delivered? || o.status.ReturnRequested?
      then o.(status := Canceled) else o
    case AcceptReturn(_) => if o.status.ReturnRequested? then o.(status := Returned) else o
    case UserCancel(_, userId) => if o.status.Paid? && o.userId == userId then o.(status := Canceled) else o
    case UserReturn(_, userId) => if o.status.Delivered? && o.userId == userId then o.(status := ReturnRequested) else o
  }

  /** The operations that call `releaseStock`, which they do when their UPDATE matched. */
  predicate GivesBack(o: Order, a: Action)
    requires Single(a)
  {
    (a.MarkFailed? || a.AdminCancel? || a.AcceptReturn? || a.UserCancel?) && Changed(o, a).status != o.status
  }

  function OneOrder(db: Db, a: Action): Db
    requires Single(a)
  {
    if a.id < |db.orders| then
      var o := db.orders[a.id];
      Db(if GivesBack(o, a) then GivenBack(db.stock, o.items) else db.stock,
         db.orders[a.id := Changed(o, a)],
         if GivesBack(o, a) then db.released + multiset{a.id} else db.released)
    else db
  }

  /** Expired, unpaid, and never sent to the payment gateway. */
  predicate Abandoned(o: Order, now: int) {
    o.status.PendingPayment? && o.expiresAt.Some? && o.expiresAt.value < now && o.authority == ""
  }

  /** The ids, in order, whose orders satisfy `p`: a SELECT over the first `n` rows. */
  function Select(orders: seq<Order>, n: nat, p: Order -> bool): (ids: seq<nat>)
    requires n <= |orders|
    ensures forall id: nat :: id in ids <==> id < n && p(orders[id])
    ensures forall i | 0 <= i < |ids| :: ids[i] < n
    ensures forall i, j | 0 <= i < j < |ids| :: ids[i] < ids[j]
  {
    if n == 0 then []
    else
      var ids := Select(orders, n - 1, p);
      if p(orders[n-1]) then ids + [n-1] else ids
  }

  function FailAll(db: Db, ids: seq<nat>): (r: Db)
    ensures |r.orders| == |db.orders|
    ensures r.stock.Keys == db.stock.Keys
  {
    if ids == [] then db else OneOrder(FailAll(db, ids[..|ids|-1]), MarkFailed(ids[|ids|-1]))
  }

  lemma FailAllStep(db: Db, ids: seq<nat>, k: nat)
    requires k < |ids|
    ensures FailAll(db, ids[..k+1]) == Step(FailAll(db, ids[..k]), MarkFailed(ids[k]))
  {
    assert ids[..k+1][..k] == ids[..k];
  }

  function Step(db: Db, a: Action): Db {
    match a
    case Create(userId, items, total, key, now) =>
      if Insertable(db, items, total, userId, key)
      then Placed(db, Order(userId, items, total, PendingPayment, false, "", Some(now + ORDER_TTL_MS), 0, key))
      else db
    case CreateManual(userId, items, total) =>
      if Insertable(db, items, total, userId, None)
      then Placed(db, Order(userId, items, total, Paid, true, "", None, 0, None))
      else db
    case Expire(now) => FailAll(db, Select(db.orders, |db.orders|, o => Abandoned(o, now)))
    case _ => OneOrder(db, a)
  }

  function Run(db: Db, run: seq<Action>): Db {
    if run == [] then db else Step(Run(db, run[..|run|-1]), run[|run|-1])
  }

  // ---------------------------------------------------------------- conservation

  /** What `orders[..n]` hold of product `p`. */
  function Held(orders: seq<Order>, p: int): nat {
    if orders == [] then 0
    else
      var last := orders[|orders|-1];
      Held(orders[..|orders|-1], p) + HeldBy(last, p)
  }

  function HeldBy(o: Order, p: int): nat {
    if Ended(o.status) then 0 else Demand(o.items, p)
  }

  lemma {:induction false} HeldUpdate(orders: seq<Order>, id: nat, o: Order, p: int)
    requires id < |orders|
    ensures Held(orders[id := o], p) + HeldBy(orders[id], p) == Held(orders, p) + HeldBy(o, p)
  {
    var n := |orders| - 1;
    if id == n {
      assert orders[id := o][..n] == orders[..n];
    } else {
      HeldUpdate(orders[..n], id, o, p);
      assert orders[id := o][..n] == orders[..n][id := o];
    }
  }

  /** The plain status step to `canceled`, accepted: the one step that ends an order without
      giving its lines back. */
  predicate Leaks(db: Db, a: Action, id: nat) {
    && a.AdminSet? && a.id == id && a.to.Canceled? && AdminFlow(a.from, a.to)
    && id < |db.orders| && db.orders[id].status == a.from
  }

  function Lost(db: Db, a: Action, p: int): nat {
    if a.AdminSet? && Leaks(db, a, a.id) then Demand(db.orders[a.id].items, p) else 0
  }

  function Total(db: Db, p: int): nat
    requires p in db.stock
  {
    db.stock[p] + Held(db.orders, p)
  }

  lemma OneOrderConserves(db: Db, a: Action, p: int)
    requires p in db.stock && Single(a)
    ensures OneOrder(db, a).stock.Keys == db.stock.Keys
    ensures Total(OneOrder(db, a), p) + Lost(db, a, p) == Total(db, p)
  {
    hide Held, Demand;
    if a.id < |db.orders| {
      HeldUpdate(db.orders, a.id, Changed(db.orders[a.id], a), p);
    }
  }

  lemma {:induction false} FailAllKeepsTotal(db: Db, ids: seq<nat>, p: int)
    requires p in db.stock
    ensures FailAll(db, ids).stock.Keys == db.stock.Keys && Total(FailAll(db, ids), p) == Total(db, p)
  {
    if ids != [] {
      FailAllKeepsTotal(db, ids[..|ids|-1], p);
      OneOrderConserves(FailAll(db, ids[..|ids|-1]), MarkFailed(ids[|ids|-1]), p);
    }
  }

  lemma PlacedKeepsTotal(db: Db, o: Order, p: int)
    requires p in db.stock && Fits(db.stock, o.items) && !Ended(o.status)
    ensures Total(Placed(db, o), p) == Total(db, p)
  {
    FittingDemand(db.stock, o.items, p);
    assert (db.orders + [o])[..|db.orders|] == db.orders;
  }

  /** One step: stock plus what live orders hold changes only by what a leaking step loses. */
  lemma StepConserves(db: Db, a: Action, p: int)
    requires p in db.stock
    ensures Step(db, a).stock.Keys == db.stock.Keys
    ensures Total(Step(db, a), p) + Lost(db, a, p) == Total(db, p)
  {
    hide Held, Demand, FailAll, OneOrder;
    match a
    case Create(userId, items, total, key, now) =>
      if Insertable(db, items, total, userId, key) {
        var expiresAt := Some(now + ORDER_TTL_MS);
        PlacedKeepsTotal(db, Order(userId, items, total, PendingPayment, false, "", expiresAt, 0, key), p);
      }
    case CreateManual(userId, items, total) =>
      if Insertable(db, items, total, userId, None) {
        PlacedKeepsTotal(db, Order(userId, items, total, Paid, true, "", None, 0, None), p);
      }
    case Expire(now) => FailAllKeepsTotal(db, Select(db.orders, |db.orders|, o => Abandoned(o, now)), p);
    case _ => OneOrderConserves(db, a, p);
  }

  /** What the plain cancellations of a whole run lose of product `p`. */
  function LostIn(db: Db, run: seq<Action>, p: int): nat {
    if run == [] then 0
    else
      var n := |run| - 1;
      LostIn(db, run[..n], p) + Lost(Run(db, run[..n]), run[n], p)
  }

  /** Conservation over every run, with the exact account of what leaks. */
  lemma {:induction false} RunConserves(db: Db, run: seq<Action>, p: int)
    requires p in db.stock
    ensures Run(db, run).stock.Keys == db.stock.Keys
    ensures Total(Run(db, run), p) + LostIn(db, run, p) == Total(db, p)
  {
    hide Step, Lost, Held;
    if run != [] {
      var n := |run| - 1;
      RunConserves(db, run[..n], p);
      StepConserves(Run(db, run[..n]), run[n], p);
    }
  }

  /** At every moment of a run at which `adminSetOrderStatus` accepts a move to `canceled`,
      the order has no line for `p`. */
  ghost predicate NoLeakOf(db: Db, run: seq<Action>, p: int) {
    forall k | 0 <= k < |run| :: Lost(Run(db, run[..k]), run[k], p) == 0
  }

  lemma {:induction false} LostAtLeast(db: Db, run: seq<Action>, p: int, k: nat)
    requires k < |run|
    ensures Lost(Run(db, run[..k]), run[k], p) <= LostIn(db, run, p)
  {
    hide Run, Lost;
    var n := |run| - 1;
    if k < n {
      LostAtLeast(db, run[..n], p, k);
      assert run[..n][..k] == run[..k];
    }
  }

  lemma {:induction false} LostNothing(db: Db, run: seq<Action>, p: int)
    requires NoLeakOf(db, run, p)
    ensures LostIn(db, run, p) == 0
  {
    hide Run, Lost;
    if run != [] {
      var n := |run| - 1;
      forall k | 0 <= k < n ensures Lost(Run(db, run[..n][..k]), run[..n][k], p) == 0 {
        assert run[..n][..k] == run[..k];
      }
      LostNothing(db, run[..n], p);
    }
  }

  /** The documented promise, that stock and live orders always account for the same goods,
      holds of a run exactly when none of its plain cancellations touches the product. */
  lemma ConservedIffNoLeak(db: Db, run: seq<Action>, p: int)
    requires p in db.stock
    ensures Run(db, run).stock.Keys == db.stock.Keys
    ensures Total(Run(db, run), p) == Total(db, p) <==> NoLeakOf(db, run, p)
  {
    RunConserves(db, run, p);
    if NoLeakOf(db, run, p) {
      LostNothing(db, run, p);
    } else {
      var k :| 0 <= k < |run| && Lost(Run(db, run[..k]), run[k], p) != 0;
      LostAtLeast(db, run, p, k);
    }
  }

  /** ... and it does fail: three units ordered by telephone, then moved from `paid` to
      `canceled` through the status form, are gone. */
  lemma PlainCancelLosesStock()
    ensures var order := [Line(Whole(7), Whole(3))];
            var db := Db(map[7 := 5], [], multiset{});
            var run := [CreateManual(1, order, 100), AdminSet(0, Paid, Canceled)];
            7 in Run(db, run).stock && Total(db, 7) == 5 && Total(Run(db, run), 7) == 2
  {
    var order := [Line(Whole(7), Whole(3))];
    var db := Db(map[7 := 5], [], multiset{});
    var run := [CreateManual(1, order, 100), AdminSet(0, Paid, Canceled)];
    var o := Order(1, order, 100, Paid, true, "", None, 0, None);
    assert Demand(order, 7) == 3 by {
      assert order[..0] == [];
    }
    hide Held, OneOrder, Demand;
    assert Step(db, run[0]) == Placed(db, o);
    StepConserves(db, run[0], 7);
    StepConserves(Placed(db, o), run[1], 7);
    assert run[..1] == [run[0]] && run[..1][..0] == [];
    TwoSteps(db, run);
    HeldNothing(7);
  }

  lemma TwoSteps(db: Db, run: seq<Action>)
    requires |run| == 2
    ensures Run(db, run) == Step(Step(db, run[0]), run[1])
  {
    hide Step;
    assert run[..1][..0] == [];
    assert Run(db, run[..1]) == Step(db, run[0]);
  }

  lemma HeldNothing(p: int)
    ensures Held([], p) == 0
  {
  }

  // ---------------------------------------------------------------- life of one order

  /** The moves an order's status can make. */
  predicate Edge(from: Status, to: Status) {
    match from
    case PendingPayment => to.Paid? || to.Failed?
    case Paid => to.Shipped? || to.Canceled?
    case Shipped => to.Delivered? || to.Paid? || to.Canceled?
    case Delivered => to.Shipped? || to.ReturnRequested? || to.Canceled?
    case ReturnRequested => to.Delivered? || to.Returned? || to.Canceled?
    case _ => false
  }

  function SettledAt(db: Db, id: nat): nat {
    if id < |db.orders| && Ended(db.orders[id].status) then 1 else 0
  }

  /** How two databases compare on one order after one step. */
  ghost predicate OneMove(db: Db, db': Db, id: nat, leak: bool) {
    && |db.orders| <= |db'.orders|
    && (id < |db.orders| ==>
          && db'.orders[id].items == db.orders[id].items
          && db'.orders[id].userId == db.orders[id].userId
          && db'.orders[id].key == db.orders[id].key
          && db'.orders[id].manual == db.orders[id].manual
          && (db'.orders[id].status == db.orders[id].status || Edge(db.orders[id].status, db'.orders[id].status)))
    && db'.released[id] + SettledAt(db, id) + (if leak then 1 else 0) == db.released[id] + SettledAt(db', id)
  }

  lemma OneOrderMoves(db: Db, a: Action, id: nat)
    requires Single(a)
    ensures OneMove(db, OneOrder(db, a), id, Leaks(db, a, id))
    ensures |OneOrder(db, a).orders| == |db.orders|
    ensures id < |db.orders| && (a.id != id || (a.MarkFailed? && !db.orders[id].status.PendingPayment?)) ==>
              OneOrder(db, a).orders[id] == db.orders[id]
    ensures id < |db.orders| && a == MarkFailed(id) && db.orders[id].status.PendingPayment? ==>
              OneOrder(db, a).orders[id] == db.orders[id].(status := Failed, expiresAt := None)
  {
    hide Demand;
  }

  lemma {:induction false} FailAllMoves(db: Db, ids: seq<nat>, id: nat)
    ensures OneMove(db, FailAll(db, ids), id, false)
    ensures id < |db.orders| ==>
              var o := db.orders[id];
              FailAll(db, ids).orders[id] ==
              if id in ids && o.status.PendingPayment? then o.(status := Failed, expiresAt := None) else o
  {
    hide OneOrder;
    if ids != [] {
      var n := |ids| - 1;
      FailAllMoves(db, ids[..n], id);
      assert ids == ids[..n] + [ids[n]];
      OneOrderMoves(FailAll(db, ids[..n]), MarkFailed(ids[n]), id);
    }
  }

  /** Every step moves every order along one edge at most, never changes what it ordered, and
      gives its lines back exactly when it ends it, except for the leaking step. */
  lemma StepMoves(db: Db, a: Action, id: nat)
    ensures OneMove(db, Step(db, a), id, Leaks(db, a, id))
  {
    hide FailAll, OneOrder, Demand;
    if a.Expire? {
      FailAllMoves(db, Select(db.orders, |db.orders|, o => Abandoned(o, a.now)), id);
    } else if Single(a) {
      OneOrderMoves(db, a, id);
    }
  }

  /** All the ways in which an order comes to have status `to`, and by whose hand. */
  predicate Reaches(o: Order, a: Action, id: nat, to: Status) {
    var from := o.status;
    match to
    case PendingPayment => false
    case Paid =>
      (a == MarkPaid(id) && from.PendingPayment?) || (a == AdminSet(id, Shipped, Paid) && from.Shipped?)
    case Shipped => a == AdminSet(id, from, Shipped) && (from.Paid? || from.Delivered?)
    case Delivered => a == AdminSet(id, from, Delivered) && (from.Shipped? || from.ReturnRequested?)
    case ReturnRequested => a == UserReturn(id, o.userId) && from.Delivered?
    case Returned => a == AcceptReturn(id) && from.ReturnRequested?
    case Failed =>
      && from.PendingPayment?
      && (a == MarkFailed(id)
          || (a.Expire? && o.authority == "" && o.expiresAt.Some? && o.expiresAt.value < a.now))
    case Canceled =>
      || (a == AdminCancel(id) && !from.PendingPayment? && !Ended(from))
      || (a == UserCancel(id, o.userId) && from.Paid?)
      || (a == AdminSet(id, from, Canceled) && (from.Paid? || from.Shipped?))
  }

  /** Exactly when a step gives an order a new status.  In particular only its owner asks for a
      return, or cancels it without the administrator. */
  lemma MovesExactlyWhen(db: Db, a: Action, id: nat, to: Status)
    requires id < |db.orders| && db.orders[id].status != to
    ensures id < |Step(db, a).orders|
    ensures Step(db, a).orders[id].status == to <==> Reaches(db.orders[id], a, id, to)
  {
    hide FailAll, OneOrder, Demand;
    if a.Expire? {
      FailAllMoves(db, Select(db.orders, |db.orders|, o => Abandoned(o, a.now)), id);
    } else if Single(a) {
      OneMovesExactlyWhen(db, a, id, to);
    }
  }

  lemma OneMovesExactlyWhen(db: Db, a: Action, id: nat, to: Status)
    requires Single(a) && id < |db.orders| && db.orders[id].status != to
    ensures id < |OneOrder(db, a).orders|
    ensures OneOrder(db, a).orders[id].status == to <==> Reaches(db.orders[id], a, id, to)
  {
    hide Demand;
  }

  /** The other columns: only the checkout records an authority, only the reconciler counts a
      try, and the expiry goes exactly when the order leaves `pending_payment`. */
  lemma ColumnsChangeExactlyWhen(db: Db, a: Action, id: nat)
    requires id < |db.orders|
    ensures id < |Step(db, a).orders|
    ensures var o, o' := db.orders[id], Step(db, a).orders[id];
            && o'.authority == (if a.SetPayment? && a.id == id then a.authority else o.authority)
            && o'.tries == (if a == BumpTries(id) then o.tries + 1 else o.tries)
            && o'.expiresAt == (if o.status.PendingPayment? && !o'.status.PendingPayment? then None else o.expiresAt)
            && o'.total == o.total && o'.items == o.items && o'.userId == o.userId && o'.key == o.key
  {
    hide FailAll, OneOrder, Demand;
    if a.Expire? {
      FailAllMoves(db, Select(db.orders, |db.orders|, o => Abandoned(o, a.now)), id);
    } else if Single(a) {
      OneColumnsChange(db, a, id);
    }
  }

  lemma OneColumnsChange(db: Db, a: Action, id: nat)
    requires Single(a) && id < |db.orders|
    ensures id < |OneOrder(db, a).orders|
    ensures var o, o' := db.orders[id], OneOrder(db, a).orders[id];
            && o'.authority == (if a.SetPayment? && a.id == id then a.authority else o.authority)
            && o'.tries == (if a == BumpTries(id) then o.tries + 1 else o.tries)
            && o'.expiresAt == (if o.status.PendingPayment? && !o'.status.PendingPayment? then None else o.expiresAt)
            && o'.total == o.total && o'.items == o.items && o'.userId == o.userId && o'.key == o.key
  {
    hide Demand;
  }

  /** Nobody can cancel or send back an order that is not his: the whole database stays as it is. */
  lemma OnlyTheOwner(db: Db, id: nat, userId: int)
    requires id < |db.orders| && db.orders[id].userId != userId
    ensures Step(db, UserCancel(id, userId)) == db && Step(db, UserReturn(id, userId)) == db
  {
    assert db.orders[id := db.orders[id]] == db.orders;
  }

  /** From checkout to expiry: an order is stored as it was placed, and if it never reaches the
      gateway, a sweep fails it exactly when it comes more than thirty minutes later. */
  lemma UnpaidOrderExpires(db: Db, a: Action, later: int)
    requires a.Create? && Insertable(db, a.items, a.total, a.userId, a.key)
    ensures var id, swept := |db.orders|, Step(Step(db, a), Expire(later));
            && id < |swept.orders|
            && swept.orders[id].status == (if later > a.now + 30 * 60 * 1000 then Failed else PendingPayment)
            && swept.orders[id].userId == a.userId && swept.orders[id].items == a.items
            && swept.orders[id].total == a.total && swept.orders[id].key == a.key
            && !swept.orders[id].manual && swept.orders[id].authority == "" && swept.orders[id].tries == 0
  {
    hide FailAll, Demand, Insertable;
    var placed, id := Step(db, a), |db.orders|;
    assert placed.orders[id].expiresAt == Some(a.now + ORDER_TTL_MS);
    FailAllMoves(placed, Select(placed.orders, |placed.orders|, o => Abandoned(o, later)), id);
    ColumnsChangeExactlyWhen(placed, Expire(later), id);
  }

  function LeaksIn(db: Db, run: seq<Action>, id: nat): nat {
    if run == [] then 0
    else
      var n := |run| - 1;
      LeaksIn(db, run[..n], id) + if Leaks(Run(db, run[..n]), run[n], id) then 1 else 0
  }

  /** Over every run: releases of an order, plus its leaks, number exactly one if the run ends
      it and zero otherwise.  So no order's lines are ever given back twice. */
  lemma {:induction false} ReleasedAtMostOnce(db: Db, run: seq<Action>, id: nat)
    ensures |db.orders| <= |Run(db, run).orders|
    ensures Run(db, run).released[id] + LeaksIn(db, run, id) + SettledAt(db, id)
            == db.released[id] + SettledAt(Run(db, run), id)
    ensures Run(db, run).released[id] <= db.released[id] + 1
    ensures SettledAt(db, id) == 1 ==>
              Run(db, run).released[id] == db.released[id] && Run(db, run).orders[id].status == db.orders[id].status
  {
    hide Step;
    if run != [] {
      var n := |run| - 1;
      ReleasedAtMostOnce(db, run[..n], id);
      StepMoves(Run(db, run[..n]), run[n], id);
    }
  }

  /** An order leaves `pending_payment` at most once: having left it, it never returns. */
  lemma {:induction false} PendingOnlyOnce(db: Db, run: seq<Action>, id: nat)
    requires id < |db.orders| && !db.orders[id].status.PendingPayment?
    ensures id < |Run(db, run).orders| && !Run(db, run).orders[id].status.PendingPayment?
  {
    hide Step;
    if run != [] {
      var n := |run| - 1;
      PendingOnlyOnce(db, run[..n], id);
      StepMoves(Run(db, run[..n]), run[n], id);
    }
  }

  // ---------------------------------------------------------------- idempotency keys

  ghost predicate UniqueKeys(orders: seq<Order>) {
    forall i, j | 0 <= i < j < |orders| ::
      orders[i].key.Some? && orders[i].userId == orders[j].userId ==> orders[i].key != orders[j].key
  }

  lemma StepAppends(db: Db, a: Action)
    ensures var db' := Step(db, a);
            |db'.orders| == |db.orders| ||
            (|db'.orders| == |db.orders| + 1 &&
             !KeyTaken(db.orders, db'.orders[|db.orders|].userId, db'.orders[|db.orders|].key))
  {
  }

  /** Over every run no user has two orders with one idempotency key. */
  lemma {:induction false} KeysStayUnique(db: Db, run: seq<Action>)
    requires UniqueKeys(db.orders)
    ensures UniqueKeys(Run(db, run).orders)
  {
    hide Step;
    if run != [] {
      var n := |run| - 1;
      KeysStayUnique(db, run[..n]);
      var before, after := Run(db, run[..n]), Run(db, run);
      StepAppends(before, run[n]);
      forall i, j | 0 <= i < j < |after.orders|
        ensures after.orders[i].key.Some? && after.orders[i].userId == after.orders[j].userId ==>
                  after.orders[i].key != after.orders[j].key
      {
        StepMoves(before, run[n], i);
        StepMoves(before, run[n], j);
      }
    }
  }

  /** A repeated request, at any later time and whatever happened in between, changes nothing. */
  lemma RepeatedCreateChangesNothing(db: Db, first: Action, between: seq<Action>, again: Action)
    requires first.Create? && again.Create? && first.key.Some?
    requires first.userId == again.userId && first.key == again.key
    requires Insertable(db, first.items, first.total, first.userId, first.key)
    ensures var db' := Run(Step(db, first), between);
            Step(db', again) == db'
  {
    var placed := Step(db, first);
    var id := |db.orders|;
    assert placed.orders[id].key == first.key && placed.orders[id].userId == first.userId;
    KeepsOwner(placed, between, id);
  }

  lemma {:induction false} KeepsOwner(db: Db, run: seq<Action>, id: nat)
    requires id < |db.orders|
    ensures id < |Run(db, run).orders|
    ensures Run(db, run).orders[id].userId == db.orders[id].userId
    ensures Run(db, run).orders[id].key == db.orders[id].key
    ensures Run(db, run).orders[id].manual == db.orders[id].manual
  {
    hide Step;
    if run != [] {
      var n := |run| - 1;
      KeepsOwner(db, run[..n], id);
      StepMoves(Run(db, run[..n]), run[n], id);
    }
  }
}
