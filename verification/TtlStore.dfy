/** The short-lived key/value stores behind the login guard and the one-time codes: a
    JavaScript `Map` in a single process, a shared SQLite table in a cluster.  Both are
    compared with one notion, a map whose records carry an expiry time. */
module TtlStores {
  import opened Options

  datatype Stamped<V> = Stamped(value: V, expiresAt: int)

  type Rows<V> = map<string, Stamped<V>>

  /** The records that have not expired at `now`; nothing else is ever observable. */
  function AliveAt<V>(rows: Rows<V>, now: int): Rows<V> {
    map k | k in rows && rows[k].expiresAt > now :: rows[k]
  }

  function Lookup<V>(rows: Rows<V>, key: string, now: int): Option<V> {
    if key in rows && rows[key].expiresAt > now then Some(rows[key].value) else None
  }

  datatype Op<!V> =
    | Get(key: string)
    | Set(key: string, value: V, ttl: int)
    | Delete(key: string)
    | Mutate(key: string, change: Option<V> -> Option<V>, ttlOf: V -> int)
    | Sweep
    | Size
    | Clear

  datatype Reply<V> = Got(found: Option<V>) | Count(n: nat) | Quiet

  datatype Step<V> = Step(rows: Rows<V>, reply: Reply<V>)

  /** The common meaning: no capacity, records vanish when they expire. */
  function Ideal<V>(rows: Rows<V>, op: Op<V>, now: int): Step<V> {
    match op
    case Get(key) => Step(rows, Got(Lookup(rows, key, now)))
    case Set(key, value, ttl) => Step(rows[key := Stamped(value, now + ttl)], Quiet)
    case Delete(key) => Step(rows - {key}, Quiet)
    case Mutate(key, change, ttlOf) =>
      var next := change(Lookup(rows, key, now));
      Step(Replaced(rows, key, next, now, ttlOf), Got(next))
    case Sweep => Step(rows, Quiet)
    case Size => Step(rows, Count(|AliveAt(rows, now)|))
    case Clear => Step(map[], Quiet)
  }

  function Replaced<V>(rows: Rows<V>, key: string, next: Option<V>, now: int, ttlOf: V -> int): Rows<V> {
    match next
    case None => rows - {key}
    case Some(v) => rows[key := Stamped(v, now + ttlOf(v))]
  }

  function TenthOf(maxKeys: nat): nat { (maxKeys + 9) / 10 }

  // ---------------------------------------------------------------- the Map store

  /** A JavaScript Map: its records and its keys in insertion order. */
  datatype JsMap<V> = JsMap(order: seq<string>, rows: Rows<V>)

  ghost predicate WellFormed<V>(m: JsMap<V>) {
    && (forall i, j | 0 <= i < j < |m.order| :: m.order[i] != m.order[j])
    && (forall k :: k in m.order <==> k in m.rows)
  }

  function Without(order: seq<string>, gone: set<string>): (r: seq<string>)
    ensures forall k :: k in r <==> k in order && k !in gone
    ensures (forall i, j | 0 <= i < j < |order| :: order[i] != order[j]) ==>
              forall i, j | 0 <= i < j < |r| :: r[i] != r[j]
  {
    if order == [] then []
    else
      var last := order[|order|-1];
      var rest := Without(order[..|order|-1], gone);
      if last in gone then rest else rest + [last]
  }

  function Removed<V>(m: JsMap<V>, gone: set<string>): JsMap<V> {
    JsMap(Without(m.order, gone), m.rows - gone)
  }

  function Put<V>(m: JsMap<V>, key: string, s: Stamped<V>): JsMap<V> {
    JsMap(if key in m.rows then m.order else m.order + [key], m.rows[key := s])
  }

  function Expired<V>(rows: Rows<V>, now: int): set<string> {
    set k | k in rows && rows[k].expiresAt <= now
  }

  function Swept<V>(m: JsMap<V>, now: int): JsMap<V> { Removed(m, Expired(m.rows, now)) }

  function KeySet(order: seq<string>): set<string> { set k | k in order }

  function Oldest<V>(m: JsMap<V>, n: nat): set<string> {
    KeySet(m.order[..if n < |m.order| then n else |m.order|])
  }

  function Evicted<V>(m: JsMap<V>, maxKeys: nat, now: int): JsMap<V> {
    if maxKeys == 0 || |m.rows| < maxKeys then m
    else
      var s := Swept(m, now);
      if |s.rows| < maxKeys then s else Removed(s, Oldest(s, TenthOf(maxKeys)))
  }

  /** What `get` leaves behind: an expired record is deleted on sight. */
  function Looked<V>(m: JsMap<V>, key: string, now: int): JsMap<V> {
    if key in m.rows && m.rows[key].expiresAt <= now then Removed(m, {key}) else m
  }

  class MapStore<V(==)> {
    const ttlMs: int
    const maxKeys: nat
    var m: JsMap<V>

    constructor (ttlMs: int, maxKeys: nat)
      ensures this.ttlMs == ttlMs && this.maxKeys == maxKeys && m == JsMap([], map[])
    {
      this.ttlMs, this.maxKeys := ttlMs, maxKeys;
      m := JsMap([], map[]);
    }

    method SweepExpired(now: int)
      requires WellFormed(m)
      modifies this`m
      ensures WellFormed(m) && m == Swept(old(m), now)
    {
      hide WellFormed, Removed;
      ghost var was, gone := m, {};
      RemoveNone(was);
      var keys := m.order;
      for i := 0 to |keys|
        invariant m == Removed(was, gone)
        invariant gone == set k | k in Expired(was.rows, now) && k in keys[..i]
      {
        var k := keys[i];
        assert keys[..i+1] == keys[..i] + [k];
        OrderIsKeys(was, i);
        RemovedRows(was, gone);
        if m.rows[k].expiresAt <= now {
          RemoveTwice(was, gone, {k});
          gone := gone + {k};
          m := Removed(m, {k});
        }
      }
      assert keys[..|keys|] == keys;
      AllKeys(was);
      assert gone == Expired(was.rows, now);
      RemovedWellFormed(was, gone);
    }

    method EvictIfFull(now: int)
      requires WellFormed(m)
      modifies this`m
      ensures WellFormed(m) && m == Evicted(old(m), maxKeys, now)
    {
      hide WellFormed, Removed, Swept;
      if maxKeys == 0 || |m.rows| < maxKeys { return; }
      SweepExpired(now);
      if |m.rows| < maxKeys { return; }
      ghost var was := m;
      RemoveNone(was);
      var keys := m.order;
      assert KeySet(keys[..0]) == {};
      var drop := TenthOf(maxKeys);
      var i := 0;
      while i < |keys| && drop > 0
        invariant i <= |keys| && 0 <= drop && drop + i == TenthOf(maxKeys)
        invariant m == Removed(was, KeySet(keys[..i]))
      {
        RemoveTwice(was, KeySet(keys[..i]), {keys[i]});
        assert keys[..i+1] == keys[..i] + [keys[i]];
        assert KeySet(keys[..i+1]) == KeySet(keys[..i]) + {keys[i]};
        m := Removed(m, {keys[i]});
        i, drop := i + 1, drop - 1;
      }
      RemovedWellFormed(was, KeySet(keys[..i]));
      assert i == if TenthOf(maxKeys) < |keys| then TenthOf(maxKeys) else |keys|;
    }

    method Get(key: string, now: int) returns (r: Option<V>)
      requires WellFormed(m)
      modifies this`m
      ensures WellFormed(m) && m == MapStep(old(m), maxKeys, Op.Get(key), now).0
      ensures Got(r) == MapStep(old(m), maxKeys, Op.Get(key), now).1
      ensures r == if key in old(m).rows && old(m).rows[key].expiresAt > now then Some(old(m).rows[key].value)
                   else None
      ensures key in m.rows <==> r.Some?
    {
      hide WellFormed, Removed;
      RemovedWellFormed(m, {key});
      RemovedRows(m, {key});
      if key !in m.rows { return None; }
      if m.rows[key].expiresAt <= now {
        m := Removed(m, {key});
        return None;
      }
      return Some(m.rows[key].value);
    }

    method Set(key: string, value: V, ttl: int, now: int)
      requires WellFormed(m)
      modifies this`m
      ensures WellFormed(m) && m == MapStep(old(m), maxKeys, Op.Set(key, value, ttl), now).0
    {
      hide WellFormed, Put, Evicted;
      EvictIfFull(now);
      PutWellFormed(m, key, Stamped(value, now + ttl));
      m := Put(m, key, Stamped(value, now + ttl));
    }

    method Mutate(key: string, change: Option<V> -> Option<V>, ttlOf: V -> int, now: int) returns (next: Option<V>)
      requires WellFormed(m)
      modifies this`m
      ensures WellFormed(m) && m == MapStep(old(m), maxKeys, Op.Mutate(key, change, ttlOf), now).0
      ensures Got(next) == MapStep(old(m), maxKeys, Op.Mutate(key, change, ttlOf), now).1
    {
      hide WellFormed, Put, Evicted, Removed, Looked, Lookup;
      var cur := Get(key, now);
      next := change(cur);
      if next == None {
        RemovedWellFormed(m, {key});
        m := Removed(m, {key});
        return;
      }
      EvictIfFull(now);
      PutWellFormed(m, key, Stamped(next.value, now + ttlOf(next.value)));
      m := Put(m, key, Stamped(next.value, now + ttlOf(next.value)));
    }

    method SizeNow(now: int) returns (n: nat)
      requires WellFormed(m)
      modifies this`m
      ensures WellFormed(m) && m == Swept(old(m), now) && n == |m.rows|
    {
      SweepExpired(now);
      n := |m.rows|;
    }
  }

  function MapStep<V>(m: JsMap<V>, maxKeys: nat, op: Op<V>, now: int): (JsMap<V>, Reply<V>) {
    match op
    case Get(key) => (Looked(m, key, now), Got(Lookup(m.rows, key, now)))
    case Set(key, value, ttl) => (Put(Evicted(m, maxKeys, now), key, Stamped(value, now + ttl)), Quiet)
    case Delete(key) => (Removed(m, {key}), Quiet)
    case Mutate(key, change, ttlOf) =>
      var next := change(Lookup(m.rows, key, now));
      var looked := Looked(m, key, now);
      (match next
       case None => Removed(looked, {key})
       case Some(v) => Put(Evicted(looked, maxKeys, now), key, Stamped(v, now + ttlOf(v))),
       Got(next))
    case Sweep => (Swept(m, now), Quiet)
    case Size => (Swept(m, now), Count(|Swept(m, now).rows|))
    case Clear => (JsMap([], map[]), Quiet)
  }

  lemma {:induction false} WithoutTwice(order: seq<string>, a: set<string>, b: set<string>)
    ensures Without(Without(order, a), b) == Without(order, a + b)
  {
    if order != [] {
      var n := |order| - 1;
      WithoutTwice(order[..n], a, b);
      var rest := Without(order[..n], a);
      if order[n] !in a {
        assert (rest + [order[n]])[..|rest|] == rest;
      }
    }
  }

  lemma RemoveTwice<V>(m: JsMap<V>, a: set<string>, b: set<string>)
    ensures Removed(Removed(m, a), b) == Removed(m, a + b)
  {
    WithoutTwice(m.order, a, b);
    assert m.rows - a - b == m.rows - (a + b);
  }

  lemma WithoutStep(order: seq<string>, gone: set<string>)
    ensures Without(order, gone) ==
            if order == [] then []
            else Without(order[..|order|-1], gone) + if order[|order|-1] in gone then [] else [order[|order|-1]]
  {
  }

  lemma {:induction false} WithoutNone(order: seq<string>)
    ensures Without(order, {}) == order
  {
    hide Without;
    WithoutStep(order, {});
    if order != [] {
      WithoutNone(order[..|order|-1]);
      assert order == order[..|order|-1] + [order[|order|-1]];
    }
  }

  lemma RemoveNone<V>(m: JsMap<V>)
    ensures Removed(m, {}) == m
  {
    WithoutNone(m.order);
    assert m.rows - {} == m.rows;
  }

  lemma RemovedRows<V>(m: JsMap<V>, gone: set<string>)
    ensures Removed(m, gone).rows == m.rows - gone
  {
  }

  lemma RemovedWellFormed<V>(m: JsMap<V>, gone: set<string>)
    requires WellFormed(m)
    ensures WellFormed(Removed(m, gone))
  {
  }

  lemma PutWellFormed<V>(m: JsMap<V>, key: string, s: Stamped<V>)
    requires WellFormed(m)
    ensures WellFormed(Put(m, key, s))
  {
  }

  lemma OrderIsKeys<V>(m: JsMap<V>, i: nat)
    requires WellFormed(m) && i < |m.order|
    ensures m.order[i] in m.rows && m.order[i] !in m.order[..i]
  {
  }

  lemma AllKeys<V>(m: JsMap<V>)
    requires WellFormed(m)
    ensures forall k | k in m.rows :: k in m.order
  {
  }

  // ---------------------------------------------------------------- the SQLite store

  /** `ORDER BY expires_at LIMIT n`, then deleted; ties fall as the engine likes. */
  ghost function WithoutOldest<V>(rows: Rows<V>, n: nat): (r: Rows<V>)
    ensures |r| == if n < |rows| then |rows| - n else 0
    ensures forall k | k in r :: k in rows && r[k] == rows[k]
    decreases n
  {
    if n == 0 then rows
    else if |rows| == 0 then rows
    else
      var k := OldestKey(rows);
      assert (rows - {k}).Keys == rows.Keys - {k};
      WithoutOldest(rows - {k}, n - 1)
  }

  ghost function OldestKey<V>(rows: Rows<V>): (k: string)
    requires |rows| > 0
    ensures k in rows && forall j | j in rows :: rows[k].expiresAt <= rows[j].expiresAt
  {
    SomeOldest(rows, rows.Keys);
    var k :| k in rows.Keys && forall j | j in rows.Keys :: rows[k].expiresAt <= rows[j].expiresAt;
    k
  }

  lemma {:induction false} SomeOldest<V>(rows: Rows<V>, among: set<string>)
    requires among != {} && among <= rows.Keys
    ensures exists k :: k in among && forall j | j in among :: rows[k].expiresAt <= rows[j].expiresAt
    decreases |among|
  {
    var first :| first in among;
    var rest := among - {first};
    var best := first;
    if rest != {} {
      SomeOldest(rows, rest);
      var k :| k in rest && forall j | j in rest :: rows[k].expiresAt <= rows[j].expiresAt;
      if rows[k].expiresAt < rows[first].expiresAt { best := k; }
    }
    assert forall j | j in among :: j == first || j in rest;
    assert best in among && forall j | j in among :: rows[best].expiresAt <= rows[j].expiresAt;
  }

  ghost function SqliteEvicted<V>(rows: Rows<V>, maxKeys: nat, now: int): Rows<V> {
    if maxKeys == 0 || |AliveAt(rows, now)| < maxKeys then rows
    else WithoutOldest(AliveAt(rows, now), TenthOf(maxKeys))
  }

  function SqliteLooked<V>(rows: Rows<V>, key: string, now: int): Rows<V> {
    if key in rows && rows[key].expiresAt <= now then rows - {key} else rows
  }

  /** One operation of the SQLite store.  Unlike the Map store's, its `mutate` never evicts. */
  ghost function SqliteStep<V>(rows: Rows<V>, maxKeys: nat, op: Op<V>, now: int): Step<V> {
    match op
    case Get(key) => Step(SqliteLooked(rows, key, now), Got(Lookup(rows, key, now)))
    case Set(key, value, ttl) => Step(SqliteEvicted(rows, maxKeys, now)[key := Stamped(value, now + ttl)], Quiet)
    case Delete(key) => Step(rows - {key}, Quiet)
    case Mutate(key, change, ttlOf) =>
      var next := change(Lookup(rows, key, now));
      Step(Replaced(SqliteLooked(rows, key, now), key, next, now, ttlOf), Got(next))
    case Sweep => Step(AliveAt(rows, now), Quiet)
    case Size => Step(AliveAt(rows, now), Count(|AliveAt(rows, now)|))
    case Clear => Step(map[], Quiet)
  }

  // ---------------------------------------------------------------- refinement

  datatype Timed<!V> = Timed(op: Op<V>, at: int)

  ghost predicate InOrder<V>(ops: seq<Timed<V>>) {
    forall i, j | 0 <= i < j < |ops| :: ops[i].at <= ops[j].at
  }

  function IdealRun<V>(ops: seq<Timed<V>>): (Rows<V>, seq<Reply<V>>) {
    if ops == [] then (map[], [])
    else
      var (rows, replies) := IdealRun(ops[..|ops|-1]);
      var step := Ideal(rows, ops[|ops|-1].op, ops[|ops|-1].at);
      (step.rows, replies + [step.reply])
  }

  function MapRun<V>(maxKeys: nat, ops: seq<Timed<V>>): (JsMap<V>, seq<Reply<V>>) {
    if ops == [] then (JsMap([], map[]), [])
    else
      var (m, replies) := MapRun(maxKeys, ops[..|ops|-1]);
      var step := MapStep(m, maxKeys, ops[|ops|-1].op, ops[|ops|-1].at);
      (step.0, replies + [step.1])
  }

  ghost function SqliteRun<V>(maxKeys: nat, ops: seq<Timed<V>>): (Rows<V>, seq<Reply<V>>) {
    if ops == [] then (map[], [])
    else
      var (rows, replies) := SqliteRun(maxKeys, ops[..|ops|-1]);
      var step := SqliteStep(rows, maxKeys, ops[|ops|-1].op, ops[|ops|-1].at);
      (step.rows, replies + [step.reply])
  }

  lemma AliveLater<V>(a: Rows<V>, b: Rows<V>, now: int, later: int)
    requires AliveAt(a, now) == AliveAt(b, now) && now <= later
    ensures AliveAt(a, later) == AliveAt(b, later)
  {
    AliveTwice(a, now, later);
    AliveTwice(b, now, later);
  }

  lemma AliveTwice<V>(rows: Rows<V>, now: int, later: int)
    requires now <= later
    ensures AliveAt(AliveAt(rows, now), later) == AliveAt(rows, later)
  {
  }

  lemma AlivePut<V>(rows: Rows<V>, key: string, s: Stamped<V>, now: int)
    ensures AliveAt(rows[key := s], now) ==
            if s.expiresAt > now then AliveAt(rows, now)[key := s] else AliveAt(rows, now) - {key}
  {
  }

  lemma AliveRemove<V>(rows: Rows<V>, gone: set<string>, now: int)
    ensures AliveAt(rows - gone, now) == AliveAt(rows, now) - gone
  {
  }

  lemma AliveDropExpired<V>(rows: Rows<V>, gone: set<string>, now: int)
    requires gone <= Expired(rows, now)
    ensures AliveAt(rows - gone, now) == AliveAt(rows, now)
  {
  }

  lemma LookupAlive<V>(rows: Rows<V>, key: string, now: int)
    ensures Lookup(rows, key, now) == if key in AliveAt(rows, now) then Some(AliveAt(rows, now)[key].value) else None
  {
  }

  lemma ReplacedAgrees<V>(a: Rows<V>, b: Rows<V>, key: string, next: Option<V>, now: int, ttlOf: V -> int)
    requires AliveAt(a, now) == AliveAt(b, now)
    ensures AliveAt(Replaced(a, key, next, now, ttlOf), now) == AliveAt(Replaced(b, key, next, now, ttlOf), now)
  {
    hide AliveAt;
    match next
    case None =>
      AliveRemove(a, {key}, now);
      AliveRemove(b, {key}, now);
    case Some(v) =>
      AlivePut(a, key, Stamped(v, now + ttlOf(v)), now);
      AlivePut(b, key, Stamped(v, now + ttlOf(v)), now);
  }

  /** Stores that agree on what is alive answer alike and keep agreeing. */
  lemma IdealStepAgrees<V>(a: Rows<V>, b: Rows<V>, op: Op<V>, now: int)
    requires AliveAt(a, now) == AliveAt(b, now)
    ensures Ideal(a, op, now).reply == Ideal(b, op, now).reply
    ensures AliveAt(Ideal(a, op, now).rows, now) == AliveAt(Ideal(b, op, now).rows, now)
  {
    hide AliveAt, Lookup, Replaced;
    match op
    case Get(key) => LookupAlive(a, key, now); LookupAlive(b, key, now);
    case Set(key, value, ttl) =>
      AlivePut(a, key, Stamped(value, now + ttl), now);
      AlivePut(b, key, Stamped(value, now + ttl), now);
    case Delete(key) => AliveRemove(a, {key}, now); AliveRemove(b, {key}, now);
    case Mutate(key, change, ttlOf) =>
      LookupAlive(a, key, now);
      LookupAlive(b, key, now);
      ReplacedAgrees(a, b, key, change(Lookup(a, key, now)), now, ttlOf);
    case _ =>
  }

  lemma LookedAgrees<V>(rows: Rows<V>, key: string, now: int)
    ensures AliveAt(SqliteLooked(rows, key, now), now) == AliveAt(rows, now)
  {
    if key in rows && rows[key].expiresAt <= now {
      AliveDropExpired(rows, {key}, now);
    }
  }

  /** Without a capacity, one step of either store is an ideal step on what is alive. */
  lemma SqliteStepIsIdeal<V>(rows: Rows<V>, op: Op<V>, now: int)
    ensures SqliteStep(rows, 0, op, now).reply == Ideal(rows, op, now).reply
    ensures AliveAt(SqliteStep(rows, 0, op, now).rows, now) == AliveAt(Ideal(rows, op, now).rows, now)
  {
    hide AliveAt, Lookup, Replaced, SqliteLooked;
    AliveTwice(rows, now, now);
    match op
    case Get(key) => LookedAgrees(rows, key, now);
    case Mutate(key, change, ttlOf) =>
      LookedAgrees(rows, key, now);
      ReplacedAgrees(SqliteLooked(rows, key, now), rows, key, change(Lookup(rows, key, now)), now, ttlOf);
    case _ =>
  }

  lemma MapMutateRows<V>(m: JsMap<V>, key: string, change: Option<V> -> Option<V>, ttlOf: V -> int, now: int)
    ensures MapStep(m, 0, Mutate(key, change, ttlOf), now).0.rows
            == Replaced(SqliteLooked(m.rows, key, now), key, change(Lookup(m.rows, key, now)), now, ttlOf)
  {
    hide AliveAt, Lookup, Expired, Without;
    var looked := Looked(m, key, now);
    assert looked.rows == SqliteLooked(m.rows, key, now);
    assert Evicted(looked, 0, now) == looked;
  }

  /** The Map store keeps the same rows the SQLite table does. */
  lemma MapStepRows<V>(m: JsMap<V>, op: Op<V>, now: int)
    ensures MapStep(m, 0, op, now).0.rows == SqliteStep(m.rows, 0, op, now).rows
    ensures MapStep(m, 0, op, now).1 == SqliteStep(m.rows, 0, op, now).reply
  {
    hide AliveAt, Lookup, Expired, Without, Replaced;
    match op
    case Mutate(key, change, ttlOf) => MapMutateRows(m, key, change, ttlOf, now);
    case Sweep => SweptRows(m.rows, now);
    case Size => SweptRows(m.rows, now);
    case _ =>
  }

  lemma SweptRows<V>(rows: Rows<V>, now: int)
    ensures rows - Expired(rows, now) == AliveAt(rows, now)
  {
  }

  /** Under every sequence of operations over time, the Map store, the SQLite store and the
      ideal store give the same replies and hold the same live records. */
  lemma {:induction false} StoresAgree<V>(ops: seq<Timed<V>>, later: int)
    requires InOrder(ops) && (ops != [] ==> ops[|ops|-1].at <= later)
    ensures MapRun(0, ops).1 == IdealRun(ops).1 == SqliteRun(0, ops).1
    ensures AliveAt(MapRun(0, ops).0.rows, later) == AliveAt(IdealRun(ops).0, later)
    ensures AliveAt(SqliteRun(0, ops).0, later) == AliveAt(IdealRun(ops).0, later)
  {
    if ops != [] {
      hide Ideal, MapStep, SqliteStep, AliveAt;
      var n := |ops| - 1;
      var now := ops[n].at;
      StoresAgree(ops[..n], now);
      var ideal, js, sql := IdealRun(ops[..n]).0, MapRun(0, ops[..n]).0, SqliteRun(0, ops[..n]).0;
      IdealStepAgrees(js.rows, ideal, ops[n].op, now);
      IdealStepAgrees(sql, ideal, ops[n].op, now);
      MapStepRows(js, ops[n].op, now);
      SqliteStepIsIdeal(js.rows, ops[n].op, now);
      SqliteStepIsIdeal(sql, ops[n].op, now);
      AliveLater(MapRun(0, ops).0.rows, IdealRun(ops).0, now, later);
      AliveLater(SqliteRun(0, ops).0, IdealRun(ops).0, now, later);
    }
  }

  // ---------------------------------------------------------------- capacity

  lemma {:induction false} OrderSize<V>(m: JsMap<V>)
    requires WellFormed(m)
    ensures |m.order| == |m.rows|
  {
    DistinctSize(m.order);
    assert KeySet(m.order) == m.rows.Keys;
  }

  lemma {:induction false} DistinctSize(order: seq<string>)
    requires forall i, j | 0 <= i < j < |order| :: order[i] != order[j]
    ensures |KeySet(order)| == |order|
  {
    if order != [] {
      var n := |order| - 1;
      DistinctSize(order[..n]);
      assert order == order[..n] + [order[n]];
      assert KeySet(order) == KeySet(order[..n]) + {order[n]};
    }
  }

  lemma {:induction false} WithoutFirst(order: seq<string>, n: nat)
    requires n <= |order| && forall i, j | 0 <= i < j < |order| :: order[i] != order[j]
    ensures Without(order, KeySet(order[..n])) == order[n..]
  {
    hide Without, KeySet;
    WithoutStep(order, KeySet(order[..n]));
    KeySetHas(order[..n]);
    if order != [] {
      var last := |order| - 1;
      if n <= last {
        WithoutFirst(order[..last], n);
        assert order[..last][..n] == order[..n];
        assert order[n..] == order[..last][n..] + [order[last]];
        assert order[last] !in order[..n];
      } else {
        assert order[..n] == order;
        AllGone(order, KeySet(order));
      }
    }
  }

  lemma KeySetHas(order: seq<string>)
    ensures forall k :: k in KeySet(order) <==> k in order
  {
  }

  lemma {:induction false} AllGone(order: seq<string>, gone: set<string>)
    requires forall k | k in order :: k in gone
    ensures Without(order, gone) == []
  {
    if order != [] { AllGone(order[..|order|-1], gone); }
  }

  /** What an eviction does, by the numbers: nothing while there is room; the expired records go
      first; and if that is not enough, the oldest tenth, rounded up, of those left. */
  lemma EvictsOldestTenth<V>(m: JsMap<V>, maxKeys: nat, now: int, n: nat)
    requires WellFormed(m) && maxKeys > 0 && 10 * (n - 1) < maxKeys <= 10 * n
    ensures var e, live := Evicted(m, maxKeys, now), AliveAt(m.rows, now);
            var order := Without(m.order, Expired(m.rows, now));
            && (|m.rows| < maxKeys ==> e == m)
            && (|m.rows| >= maxKeys && |live| < maxKeys ==> e.rows == live && e.order == order)
            && (|live| >= maxKeys ==>
                  && |order| == |live| && e.order == order[n..] && |e.rows| == |live| - n
                  && forall k | k in e.rows :: k in live && e.rows[k] == live[k])
  {
    hide WellFormed;
    var live, s := AliveAt(m.rows, now), Swept(m, now);
    assert n == TenthOf(maxKeys);
    SweptRows(m.rows, now);
    RemovedWellFormed(m, Expired(m.rows, now));
    OrderSize(s);
    SubsetSize(live.Keys, m.rows.Keys);
    if |live| >= maxKeys {
      OldestSize(s, n);
      DistinctOrder(s);
      WithoutFirst(s.order, n);
    }
  }

  lemma DistinctOrder<V>(m: JsMap<V>)
    requires WellFormed(m)
    ensures forall i, j | 0 <= i < j < |m.order| :: m.order[i] != m.order[j]
  {
  }

  /** A record stored again keeps its place in the queue; a new one goes to the end. */
  lemma SetKeepsPlace<V>(m: JsMap<V>, op: Op<V>, now: int)
    requires op.Set?
    ensures MapStep(m, 0, op, now).0.order == if op.key in m.rows then m.order else m.order + [op.key]
    ensures MapStep(m, 0, op, now).0.rows == m.rows[op.key := Stamped(op.value, now + op.ttl)]
  {
  }

  /** An expired record is deleted by whoever looks it up, in either store. */
  lemma LookedUpIsGone<V>(m: JsMap<V>, rows: Rows<V>, maxKeys: nat, key: string, now: int)
    ensures key in MapStep(m, maxKeys, Op.Get(key), now).0.rows <==> key in AliveAt(m.rows, now)
    ensures key in SqliteStep(rows, maxKeys, Op.Get(key), now).rows <==> key in AliveAt(rows, now)
  {
  }

  /** Of the SQLite store's live records the same number go, none of which would have outlived one
      that stays. */
  lemma SqliteEvictsOldestTenth<V>(rows: Rows<V>, maxKeys: nat, now: int, n: nat)
    requires maxKeys > 0 && 10 * (n - 1) < maxKeys <= 10 * n
    ensures var e, live := SqliteEvicted(rows, maxKeys, now), AliveAt(rows, now);
            if |live| < maxKeys then e == rows
            else
              && |e| == |live| - n && (forall k | k in e :: k in live && e[k] == live[k])
              && forall gone, kept | gone in live && gone !in e && kept in e ::
                   live[gone].expiresAt <= live[kept].expiresAt
  {
    assert n == TenthOf(maxKeys);
    hide AliveAt;
    forall gone, kept | gone in AliveAt(rows, now) && gone !in WithoutOldest(AliveAt(rows, now), n)
                        && kept in WithoutOldest(AliveAt(rows, now), n)
      ensures AliveAt(rows, now)[gone].expiresAt <= AliveAt(rows, now)[kept].expiresAt
    {
      OldestGo(AliveAt(rows, now), n, gone, kept);
    }
  }

  lemma {:induction false} OldestGo<V>(rows: Rows<V>, n: nat, gone: string, kept: string)
    requires gone in rows && gone !in WithoutOldest(rows, n) && kept in WithoutOldest(rows, n)
    ensures rows[gone].expiresAt <= rows[kept].expiresAt
    decreases n
  {
    hide OldestKey;
    var k := OldestKey(rows);
    if gone != k { OldestGo(rows - {k}, n - 1, gone, kept); }
  }

  lemma EvictedMakesRoom<V>(m: JsMap<V>, maxKeys: nat, now: int)
    requires WellFormed(m) && maxKeys > 0 && |m.rows| <= maxKeys
    ensures WellFormed(Evicted(m, maxKeys, now)) && |Evicted(m, maxKeys, now).rows| < maxKeys
  {
    hide WellFormed, Removed;
    var s := Swept(m, now);
    RemovedWellFormed(m, Expired(m.rows, now));
    RemovedSize(m, Expired(m.rows, now));
    if |m.rows| >= maxKeys && |s.rows| >= maxKeys {
      OldestSize(s, TenthOf(maxKeys));
      RemovedWellFormed(s, Oldest(s, TenthOf(maxKeys)));
    }
  }

  lemma RemovedSize<V>(m: JsMap<V>, gone: set<string>)
    ensures |Removed(m, gone).rows| <= |m.rows|
  {
    assert (m.rows - gone).Keys == m.rows.Keys - gone;
    SubsetSize(m.rows.Keys - gone, m.rows.Keys);
  }

  lemma OldestSize<V>(m: JsMap<V>, n: nat)
    requires WellFormed(m) && 0 < n <= |m.rows|
    ensures |Removed(m, Oldest(m, n)).rows| == |m.rows| - n
  {
    OrderSize(m);
    DistinctSize(m.order[..n]);
    var gone := Oldest(m, n);
    assert (m.rows - gone).Keys == m.rows.Keys - gone;
    assert gone <= m.rows.Keys;
  }

  lemma SubsetSize<T>(a: set<T>, b: set<T>)
    requires a <= b
    ensures |a| <= |b|
  {
    assert b == a + (b - a);
  }

  /** The Map store never holds more than `maxKeys` records, whatever is done to it. */
  lemma {:induction false} MapStoreBounded<V>(maxKeys: nat, ops: seq<Timed<V>>)
    requires maxKeys > 0
    ensures WellFormed(MapRun(maxKeys, ops).0) && |MapRun(maxKeys, ops).0.rows| <= maxKeys
  {
    hide MapStep, WellFormed;
    NothingWellFormed<V>();
    if ops != [] {
      var n := |ops| - 1;
      MapStoreBounded(maxKeys, ops[..n]);
      MapStepBounded(MapRun(maxKeys, ops[..n]).0, maxKeys, ops[n].op, ops[n].at);
    }
  }

  lemma PutSize<V>(m: JsMap<V>, key: string, s: Stamped<V>)
    ensures |Put(m, key, s).rows| <= |m.rows| + 1
  {
    assert Put(m, key, s).rows.Keys == m.rows.Keys + {key};
  }

  lemma MapStepBounded<V>(m: JsMap<V>, maxKeys: nat, op: Op<V>, now: int)
    requires WellFormed(m) && maxKeys > 0 && |m.rows| <= maxKeys
    ensures WellFormed(MapStep(m, maxKeys, op, now).0) && |MapStep(m, maxKeys, op, now).0.rows| <= maxKeys
  {
    hide WellFormed, Removed, Put, Evicted, Lookup;
    match op
    case Get(key) => RemovedWellFormed(m, {key}); RemovedSize(m, {key});
    case Set(key, value, ttl) =>
      EvictedMakesRoom(m, maxKeys, now);
      PutWellFormed(Evicted(m, maxKeys, now), key, Stamped(value, now + ttl));
      PutSize(Evicted(m, maxKeys, now), key, Stamped(value, now + ttl));
    case Delete(key) => RemovedWellFormed(m, {key}); RemovedSize(m, {key});
    case Mutate(key, change, ttlOf) =>
      RemovedWellFormed(m, {key});
      RemovedSize(m, {key});
      var looked := Looked(m, key, now);
      RemovedWellFormed(looked, {key});
      RemovedSize(looked, {key});
      EvictedMakesRoom(looked, maxKeys, now);
      var next := change(Lookup(m.rows, key, now));
      if next.Some? {
        PutWellFormed(Evicted(looked, maxKeys, now), key, Stamped(next.value, now + ttlOf(next.value)));
        PutSize(Evicted(looked, maxKeys, now), key, Stamped(next.value, now + ttlOf(next.value)));
      }
    case Clear => NothingWellFormed<V>();
    case _ =>
      RemovedWellFormed(m, Expired(m.rows, now));
      RemovedSize(m, Expired(m.rows, now));
  }

  lemma NothingWellFormed<V>()
    ensures WellFormed<V>(JsMap([], map[]))
  {
  }

  /** When one operation of a full SQLite store adds a live record without making room. */
  predicate Overflows<V>(rows: Rows<V>, maxKeys: nat, op: Op<V>, now: int) {
    && op.Mutate?
    && op.key !in AliveAt(rows, now) && |AliveAt(rows, now)| == maxKeys
    && var next := op.change(None); next.Some? && op.ttlOf(next.value) > 0
  }

  /** One operation at a time, the SQLite store keeps its live records within `maxKeys` exactly
      until a `mutate` adds a key to a full store: that operation, the only one the login guard and the one-time codes
      write with, does not evict. */
  lemma SqliteBoundedExactlyWhen<V>(rows: Rows<V>, maxKeys: nat, op: Op<V>, now: int)
    requires maxKeys > 0 && |AliveAt(rows, now)| <= maxKeys
    ensures |AliveAt(SqliteStep(rows, maxKeys, op, now).rows, now)| <= maxKeys <==> !Overflows(rows, maxKeys, op, now)
  {
    hide AliveAt, SqliteLooked;
    var alive := AliveAt(rows, now);
    match op
    case Get(key) => LookedAgrees(rows, key, now);
    case Set(key, value, ttl) =>
      var room := SqliteEvicted(rows, maxKeys, now);
      RoomAlive(rows, maxKeys, now);
      AlivePut(room, key, Stamped(value, now + ttl), now);
      AddOne(AliveAt(room, now), AliveAt(room[key := Stamped(value, now + ttl)], now), key);
    case Delete(key) =>
      AliveRemove(rows, {key}, now);
      AddOne(alive - {key}, alive - {key}, key);
      SubsetSize((alive - {key}).Keys, alive.Keys);
    case Mutate(key, change, ttlOf) => MutateBoundedExactlyWhen(rows, maxKeys, op, now);
    case Sweep => AliveTwice(rows, now, now);
    case Size => AliveTwice(rows, now, now);
    case Clear => assert |AliveAt<V>(map[], now)| == 0 by { NothingAlive<V>(now); }
  }

  lemma PutRowsSize<V>(rows: Rows<V>, key: string, s: Stamped<V>)
    ensures |rows[key := s]| == if key in rows then |rows| else |rows| + 1
  {
    assert rows[key := s].Keys == rows.Keys + {key};
  }

  lemma MutateBoundedExactlyWhen<V>(rows: Rows<V>, maxKeys: nat, op: Op<V>, now: int)
    requires op.Mutate? && |AliveAt(rows, now)| <= maxKeys
    ensures |AliveAt(SqliteStep(rows, maxKeys, op, now).rows, now)| <= maxKeys <==> !Overflows(rows, maxKeys, op, now)
  {
    hide AliveAt, SqliteLooked, Lookup;
    var alive, key := AliveAt(rows, now), op.key;
    LookedAgrees(rows, key, now);
    LookupAlive(rows, key, now);
    var looked := SqliteLooked(rows, key, now);
    var next := op.change(Lookup(rows, key, now));
    AliveRemove(looked, {key}, now);
    SubsetSize((alive - {key}).Keys, alive.Keys);
    if next.Some? {
      var s := Stamped(next.value, now + op.ttlOf(next.value));
      AlivePut(looked, key, s, now);
      PutRowsSize(alive, key, s);
    }
  }

  lemma NothingAlive<V>(now: int)
    ensures AliveAt<V>(map[], now) == map[]
  {
  }

  lemma RoomAlive<V>(rows: Rows<V>, maxKeys: nat, now: int)
    requires maxKeys > 0 && |AliveAt(rows, now)| <= maxKeys
    ensures |AliveAt(SqliteEvicted(rows, maxKeys, now), now)| < maxKeys
  {
    var room := SqliteEvicted(rows, maxKeys, now);
    SubsetSize(AliveAt(room, now).Keys, room.Keys);
  }

  lemma AddOne<V>(a: Rows<V>, b: Rows<V>, key: string)
    requires b.Keys <= a.Keys + {key}
    ensures |b| <= |a| + 1
  {
    SubsetSize(b.Keys, a.Keys + {key});
  }

  // ---------------------------------------------------------------- capacity over whole runs

  /** After the k-th operation, at its time, at most `maxKeys` records are live. */
  ghost predicate BoundedAt<V>(maxKeys: nat, ops: seq<Timed<V>>, k: nat)
    requires k < |ops|
  {
    |AliveAt(SqliteRun(maxKeys, ops[..k+1]).0, ops[k].at)| <= maxKeys
  }

  ghost predicate OverflowsAt<V>(maxKeys: nat, ops: seq<Timed<V>>, k: nat)
    requires k < |ops|
  {
    Overflows(SqliteRun(maxKeys, ops[..k]).0, maxKeys, ops[k].op, ops[k].at)
  }

  ghost predicate StaysBounded<V>(maxKeys: nat, ops: seq<Timed<V>>) {
    forall k | 0 <= k < |ops| :: BoundedAt(maxKeys, ops, k)
  }

  ghost predicate NeverOverflows<V>(maxKeys: nat, ops: seq<Timed<V>>) {
    forall k | 0 <= k < |ops| :: !OverflowsAt(maxKeys, ops, k)
  }

  lemma SamePrefix<V>(maxKeys: nat, ops: seq<Timed<V>>, n: nat, k: nat)
    requires k < n <= |ops|
    ensures BoundedAt(maxKeys, ops[..n], k) == BoundedAt(maxKeys, ops, k)
    ensures OverflowsAt(maxKeys, ops[..n], k) == OverflowsAt(maxKeys, ops, k)
  {
    hide SqliteRun, AliveAt, Overflows;
    assert ops[..n][..k+1] == ops[..k+1] && ops[..n][..k] == ops[..k];
  }

  lemma OneMoreOperation<V>(maxKeys: nat, ops: seq<Timed<V>>)
    requires ops != []
    ensures var n := |ops| - 1;
            && (StaysBounded(maxKeys, ops) <==> StaysBounded(maxKeys, ops[..n]) && BoundedAt(maxKeys, ops, n))
            && (NeverOverflows(maxKeys, ops) <==> NeverOverflows(maxKeys, ops[..n]) && !OverflowsAt(maxKeys, ops, n))
  {
    hide BoundedAt, OverflowsAt;
    var n := |ops| - 1;
    forall k: nat | k < n
      ensures BoundedAt(maxKeys, ops[..n], k) == BoundedAt(maxKeys, ops, k)
      ensures OverflowsAt(maxKeys, ops[..n], k) == OverflowsAt(maxKeys, ops, k)
    {
      SamePrefix(maxKeys, ops, n, k);
    }
  }

  /** Records only die as time passes. */
  lemma AliveShrinks<V>(rows: Rows<V>, now: int, later: int)
    requires now <= later
    ensures |AliveAt(rows, later)| <= |AliveAt(rows, now)|
  {
    SubsetSize(AliveAt(rows, later).Keys, AliveAt(rows, now).Keys);
  }

  /** Over every run of the SQLite store from empty, one operation after the other: its live
      records stay within `maxKeys` throughout exactly when no `mutate` of the run adds a live key
      to a full store. */
  lemma {:induction false} SqliteStaysBoundedIff<V>(maxKeys: nat, ops: seq<Timed<V>>)
    requires maxKeys > 0 && InOrder(ops)
    ensures StaysBounded(maxKeys, ops) <==> NeverOverflows(maxKeys, ops)
  {
    if ops != [] {
      var n := |ops| - 1;
      SqliteStaysBoundedIff(maxKeys, ops[..n]);
      OneMoreOperation(maxKeys, ops);
      if StaysBounded(maxKeys, ops[..n]) {
        BoundedNow(maxKeys, ops[..n], ops[n].at);
        assert ops[..n+1] == ops;
        hide StaysBounded, NeverOverflows, AliveAt, Overflows, SqliteStep;
        SqliteBoundedExactlyWhen(SqliteRun(maxKeys, ops[..n]).0, maxKeys, ops[n].op, ops[n].at);
      }
    }
  }

  lemma BoundedNow<V>(maxKeys: nat, ops: seq<Timed<V>>, now: int)
    requires StaysBounded(maxKeys, ops) && (ops != [] ==> ops[|ops|-1].at <= now)
    ensures |AliveAt(SqliteRun(maxKeys, ops).0, now)| <= maxKeys
  {
    if ops == [] {
      NothingAlive<V>(now);
    } else {
      var n := |ops| - 1;
      assert ops[..n+1] == ops && BoundedAt(maxKeys, ops, n);
      hide SqliteRun, AliveAt;
      AliveShrinks(SqliteRun(maxKeys, ops).0, ops[n].at, now);
    }
  }

  /** ... and it does fail: with room for one record, two `mutate`s leave two live. */
  lemma TwoMutatesOverflow()
    ensures var first := Op.Mutate("a", (v: Option<int>) => Some(0), (v: int) => 10);
            var second := Op.Mutate("b", (v: Option<int>) => Some(0), (v: int) => 10);
            |AliveAt(SqliteRun(1, [Timed(first, 0), Timed(second, 1)]).0, 1)| == 2
  {
    var first := Op.Mutate("a", (v: Option<int>) => Some(0), (v: int) => 10);
    var second := Op.Mutate("b", (v: Option<int>) => Some(0), (v: int) => 10);
    var ops := [Timed(first, 0), Timed(second, 1)];
    assert ops[..1] == [ops[0]] && ops[..1][..0] == [];
    assert SqliteRun(1, ops[..1]).0 == map["a" := Stamped(0, 10)];
    assert SqliteRun(1, ops).0 == map["a" := Stamped(0, 10), "b" := Stamped(0, 11)];
    assert AliveAt(SqliteRun(1, ops).0, 1) == SqliteRun(1, ops).0;
  }
}
