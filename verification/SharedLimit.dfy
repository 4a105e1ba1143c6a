/** The capacity of the SQLite store when several workers write to it: `set` counts, evicts and
    inserts with separate statements outside any transaction, so workers can count the same
    store and then all insert.  How far the capacity is exceeded depends on how many workers
    there are, and on whether they are more than one eviction removes. */
module SharedLimits {
  import TtlStores

  type Key = nat

  /** A `set` under way: it has found the store full and will select the oldest keys, or it has
      these left to delete before it inserts; none if it found room. */
  datatype Job = Full(key: Key) | Evicting(key: Key, todo: set<Key>)

  /** `live` are the keys of the records that have not expired. */
  datatype World = World(live: set<Key>, underWay: seq<Job>)

  /** The statements of `set` (count, count again after the sweep, select, delete one, insert); a
      `mutate`, which is one transaction; and a record that expires or is deleted. */
  datatype Event =
    | Count(key: Key)
    | Recount(j: nat)
    | Select(j: nat, oldest: set<Key>)
    | Drop(j: nat, key: Key)
    | Insert(j: nat)
    | Mutate(key: Key)
    | Gone(key: Key)

  function Dropped(jobs: seq<Job>, j: nat): seq<Job>
    requires j < |jobs|
  {
    jobs[..j] + jobs[j+1..]
  }

  /** `LIMIT ceil(maxKeys / 10)`: that many keys, or all of them. */
  predicate Selectable(live: set<Key>, max: nat, oldest: set<Key>) {
    oldest <= live && (|oldest| == TtlStores.TenthOf(max) || (oldest == live && |live| < TtlStores.TenthOf(max)))
  }

  function Next(w: World, max: nat, e: Event): World {
    match e
    case Count(key) => w.(underWay := w.underWay + [if |w.live| < max then Evicting(key, {}) else Full(key)])
    case Recount(j) =>
      if j < |w.underWay| && w.underWay[j].Full? && |w.live| < max
      then w.(underWay := w.underWay[j := Evicting(w.underWay[j].key, {})]) else w
    case Select(j, oldest) =>
      if j < |w.underWay| && w.underWay[j].Full? && Selectable(w.live, max, oldest)
      then w.(underWay := w.underWay[j := Evicting(w.underWay[j].key, oldest)]) else w
    case Drop(j, key) =>
      if j < |w.underWay| && w.underWay[j].Evicting? && key in w.underWay[j].todo
      then World(w.live - {key}, w.underWay[j := Evicting(w.underWay[j].key, w.underWay[j].todo - {key})]) else w
    case Insert(j) =>
      if j < |w.underWay| && w.underWay[j].Evicting? && w.underWay[j].todo == {}
      then World(w.live + {w.underWay[j].key}, Dropped(w.underWay, j)) else w
    case Mutate(key) => w.(live := w.live + {key})
    case Gone(key) => w.(live := w.live - {key})
  }

  const START := World({}, [])

  function After(max: nat, es: seq<Event>): World {
    if es == [] then START else Next(After(max, es[..|es|-1]), max, es[|es|-1])
  }

  /** The event can happen with `c` workers, each at one operation at a time, and is not a `mutate`
      that adds a key to a full store. */
  predicate Allowed(w: World, max: nat, e: Event, c: nat) {
    && |Next(w, max, e).underWay| <= c
    && (e.Mutate? ==> |w.underWay| < c && (e.key in w.live || |w.live| < max))
  }

  ghost predicate Legal(max: nat, es: seq<Event>, c: nat) {
    forall k | 0 <= k < |es| :: Allowed(After(max, es[..k]), max, es[k], c)
  }

  // ---------------------------------------------------------------- the account

  /** How much of the excess a set under way may still cause, in units of 1/c records: nothing
      while it has `c` live keys to delete or is yet to select them. */
  function Owed(job: Job, live: set<Key>, c: nat): nat {
    if job.Full? || |job.todo * live| >= c then 0 else c - |job.todo * live|
  }

  function Owing(jobs: seq<Job>, live: set<Key>, c: nat): (n: nat)
    ensures n <= |jobs| * c
  {
    if jobs == [] then 0
    else
      var m := |jobs| - 1;
      assert |jobs| * c == m * c + c;
      Owing(jobs[..m], live, c) + Owed(jobs[m], live, c)
  }

  lemma OwingMore(jobs: seq<Job>, job: Job, live: set<Key>, c: nat)
    ensures Owing(jobs + [job], live, c) == Owing(jobs, live, c) + Owed(job, live, c)
  {
    assert (jobs + [job])[..|jobs|] == jobs;
  }

  lemma {:induction false} OwingReplaced(jobs: seq<Job>, j: nat, job: Job, live: set<Key>, c: nat)
    requires j < |jobs|
    ensures Owing(jobs[j := job], live, c) + Owed(jobs[j], live, c) == Owing(jobs, live, c) + Owed(job, live, c)
  {
    hide Owed;
    var n := |jobs| - 1;
    if j == n {
      assert jobs[j := job][..n] == jobs[..n];
    } else {
      OwingReplaced(jobs[..n], j, job, live, c);
      assert jobs[j := job][..n] == jobs[..n][j := job];
    }
  }

  lemma {:induction false} OwingDropped(jobs: seq<Job>, j: nat, live: set<Key>, c: nat)
    requires j < |jobs|
    ensures Owing(Dropped(jobs, j), live, c) + Owed(jobs[j], live, c) == Owing(jobs, live, c)
  {
    hide Owed;
    var n := |jobs| - 1;
    if j == n {
      assert Dropped(jobs, j) == jobs[..n];
    } else {
      OwingDropped(jobs[..n], j, live, c);
      assert Dropped(jobs, j) == Dropped(jobs[..n], j) + [jobs[n]];
      OwingMore(Dropped(jobs[..n], j), jobs[n], live, c);
    }
  }

  lemma SubsetSmaller(a: set<Key>, b: set<Key>)
    requires a <= b
    ensures |a| <= |b|
  {
    TtlStores.SubsetSize(a, b);
  }

  /** A record that goes costs each set under way at most one unit ... */
  lemma OwedGone(job: Job, live: set<Key>, key: Key, c: nat)
    ensures Owed(job, live - {key}, c) <= Owed(job, live, c) + if key in live then 1 else 0
  {
    if job.Evicting? {
      var before, after := job.todo * live, job.todo * (live - {key});
      if key in before {
        assert after == before - {key};
      } else {
        assert after == before;
      }
    }
  }

  /** ... and a record that comes costs nothing. */
  lemma OwedCome(job: Job, live: set<Key>, key: Key, c: nat)
    ensures Owed(job, live + {key}, c) <= Owed(job, live, c)
  {
    if job.Evicting? { SubsetSmaller(job.todo * live, job.todo * (live + {key})); }
  }

  lemma {:induction false} OwingGone(jobs: seq<Job>, live: set<Key>, key: Key, c: nat)
    ensures Owing(jobs, live - {key}, c) <= Owing(jobs, live, c) + if key in live then |jobs| else 0
  {
    hide Owed;
    if jobs != [] {
      var n := |jobs| - 1;
      OwingGone(jobs[..n], live, key, c);
      OwedGone(jobs[n], live, key, c);
    }
  }

  lemma {:induction false} OwingCome(jobs: seq<Job>, live: set<Key>, key: Key, c: nat)
    ensures Owing(jobs, live + {key}, c) <= Owing(jobs, live, c)
  {
    hide Owed;
    if jobs != [] {
      var n := |jobs| - 1;
      OwingCome(jobs[..n], live, key, c);
      OwedCome(jobs[n], live, key, c);
    }
  }

  // ---------------------------------------------------------------- the bound

  /** The live records beyond maxKeys - 1, in units of 1/c. */
  function Excess(live: set<Key>, max: nat, c: nat): int {
    c * (|live| - (max - 1))
  }

  function Budget(c: nat): nat { c * c }

  /** What is in excess and what the sets under way owe come to at most `c` records. */
  predicate Accounted(w: World, max: nat, c: nat) {
    |w.underWay| <= c && Excess(w.live, max, c) + Owing(w.underWay, w.live, c) <= Budget(c)
  }

  lemma TimesMonotone(a: int, b: int, c: nat)
    requires a <= b
    ensures a * c <= b * c && c * a <= c * b
  {
    assert (b - a) * c >= 0;
  }

  lemma OneFewer(live: set<Key>, key: Key, max: nat, c: nat)
    ensures Excess(live - {key}, max, c) == Excess(live, max, c) - if key in live then c else 0
  {
    if key in live {
      assert |live - {key}| == |live| - 1;
      assert c * (|live| - 1 - (max - 1)) == c * (|live| - (max - 1)) - c;
    } else {
      assert live - {key} == live;
    }
  }

  lemma OneMore(live: set<Key>, key: Key, max: nat, c: nat)
    ensures Excess(live + {key}, max, c) == Excess(live, max, c) + if key in live then 0 else c
  {
    if key in live {
      assert live + {key} == live;
    } else {
      assert c * (|live| + 1 - (max - 1)) == c * (|live| - (max - 1)) + c;
    }
  }

  /** With at most `n` sets under way and room for all but `c - n` records beyond, the account
      holds whatever is owed. */
  lemma RoomAccounted(w: World, max: nat, c: nat)
    requires |w.underWay| <= c && (|w.live| < max || (|w.live| == max && |w.underWay| < c))
    ensures Accounted(w, max, c)
  {
    var over := |w.live| - (max - 1);
    TimesMonotone(over, if |w.live| < max then 0 else 1, c);
    TimesMonotone(|w.underWay| + if |w.live| < max then 0 else 1, c, c);
    assert (|w.underWay| + 1) * c == |w.underWay| * c + c;
  }

  lemma StepAccounted(w: World, max: nat, e: Event, c: nat)
    requires Accounted(w, max, c) && 1 <= c <= TtlStores.TenthOf(max) && Allowed(w, max, e, c)
    ensures Accounted(Next(w, max, e), max, c)
  {
    var w' := Next(w, max, e);
    if |w'.live| < max {
      RoomAccounted(w', max, c);
    } else {
      hide Excess, Budget, Owing;
      match e
      case Count(key) => CountAccounted(w, max, key, c);
      case Recount(j) =>
      case Select(j, oldest) => SelectAccounted(w, max, j, oldest, c);
      case Drop(j, key) => DropAccounted(w, max, j, key, c);
      case Insert(j) => InsertAccounted(w, max, j, c);
      case Mutate(key) => MutateAccounted(w, max, key, c);
      case Gone(key) => GoneAccounted(w, max, key, c);
    }
  }

  lemma CountAccounted(w: World, max: nat, key: Key, c: nat)
    requires Accounted(w, max, c) && |w.underWay| < c && |w.live| >= max
    ensures Accounted(Next(w, max, Count(key)), max, c)
  {
    hide Excess, Budget, Owing;
    OwingMore(w.underWay, Full(key), w.live, c);
  }

  lemma SelectAccounted(w: World, max: nat, j: nat, oldest: set<Key>, c: nat)
    requires Accounted(w, max, c) && c <= TtlStores.TenthOf(max) && |w.live| >= max
    ensures Accounted(Next(w, max, Select(j, oldest)), max, c)
  {
    hide Excess, Budget, Owing;
    if j < |w.underWay| && w.underWay[j].Full? && Selectable(w.live, max, oldest) {
      var job := Evicting(w.underWay[j].key, oldest);
      assert oldest * w.live == oldest;
      OwingReplaced(w.underWay, j, job, w.live, c);
    }
  }

  lemma DropAccounted(w: World, max: nat, j: nat, key: Key, c: nat)
    requires Accounted(w, max, c)
    ensures Accounted(Next(w, max, Drop(j, key)), max, c)
  {
    hide Excess, Budget, Owing;
    if j < |w.underWay| && w.underWay[j].Evicting? && key in w.underWay[j].todo {
      var before := w.underWay[j];
      var job := Evicting(before.key, before.todo - {key});
      var live := w.live - {key};
      assert job.todo * live == before.todo * live;
      OwingReplaced(w.underWay, j, job, live, c);
      OwingGone(w.underWay, w.live, key, c);
      OneFewer(w.live, key, max, c);
    }
  }

  lemma GoneAccounted(w: World, max: nat, key: Key, c: nat)
    requires Accounted(w, max, c)
    ensures Accounted(Next(w, max, Gone(key)), max, c)
  {
    hide Excess, Budget, Owing;
    OwingGone(w.underWay, w.live, key, c);
    OneFewer(w.live, key, max, c);
  }

  lemma InsertAccounted(w: World, max: nat, j: nat, c: nat)
    requires Accounted(w, max, c)
    ensures Accounted(Next(w, max, Insert(j)), max, c)
  {
    hide Excess, Budget, Owing;
    if j < |w.underWay| && w.underWay[j].Evicting? && w.underWay[j].todo == {} {
      var key := w.underWay[j].key;
      assert w.underWay[j].todo * w.live == {};
      OwingDropped(w.underWay, j, w.live, c);
      OwingCome(Dropped(w.underWay, j), w.live, key, c);
      OneMore(w.live, key, max, c);
    }
  }

  lemma MutateAccounted(w: World, max: nat, key: Key, c: nat)
    requires Accounted(w, max, c) && |w.underWay| < c && (key in w.live || |w.live| < max)
    ensures Accounted(Next(w, max, Mutate(key)), max, c)
  {
    if key in w.live {
      assert w.live + {key} == w.live;
    } else {
      assert |w.live + {key}| == |w.live| + 1;
      RoomAccounted(Next(w, max, Mutate(key)), max, c);
    }
  }

  lemma LegalBefore(max: nat, es: seq<Event>, c: nat)
    requires Legal(max, es, c) && es != []
    ensures var n := |es| - 1; Legal(max, es[..n], c) && Allowed(After(max, es[..n]), max, es[n], c)
  {
    hide After, Allowed;
    var n := |es| - 1;
    forall k | 0 <= k < n ensures Allowed(After(max, es[..n][..k]), max, es[..n][k], c) {
      assert es[..n][..k] == es[..k];
    }
  }

  lemma {:induction false} AlwaysAccounted(max: nat, es: seq<Event>, c: nat)
    requires Legal(max, es, c) && 1 <= c <= TtlStores.TenthOf(max)
    ensures Accounted(After(max, es), max, c)
  {
    if es == [] {
      RoomAccounted(START, max, c);
    } else {
      var n := |es| - 1;
      LegalBefore(max, es, c);
      AlwaysAccounted(max, es[..n], c);
      hide Accounted, Allowed, Next;
      StepAccounted(After(max, es[..n]), max, es[n], c);
    }
  }

  /** With `c` workers, no more than one eviction removes, and no overflowing `mutate`, the store
      never holds more than maxKeys - 1 + c live records. */
  lemma LimitWithWorkers(max: nat, es: seq<Event>, c: nat)
    requires Legal(max, es, c) && 1 <= c <= TtlStores.TenthOf(max)
    ensures |After(max, es).live| <= max - 1 + c
  {
    AlwaysAccounted(max, es, c);
    WithinBudget(After(max, es).live, max, c);
  }

  lemma WithinBudget(live: set<Key>, max: nat, c: nat)
    requires c >= 1 && Excess(live, max, c) <= Budget(c)
    ensures |live| <= max - 1 + c
  {
    var over := |live| - (max - 1);
    assert c * (c + 1) == c * c + c;
    if over > c { TimesMonotone(c + 1, over, c); }
  }

  // ---------------------------------------------------------------- the bound is attained

  lemma AfterOneMore(max: nat, es: seq<Event>, e: Event)
    ensures After(max, es + [e]) == Next(After(max, es), max, e)
  {
    assert (es + [e])[..|es|] == es;
  }

  /** The run leads legally from the empty store to `w`. */
  ghost predicate Leads(max: nat, es: seq<Event>, c: nat, w: World) {
    Legal(max, es, c) && After(max, es) == w
  }

  lemma LeadsOn(max: nat, es: seq<Event>, c: nat, w: World, e: Event, w': World)
    requires Leads(max, es, c, w) && Allowed(w, max, e, c) && Next(w, max, e) == w'
    ensures Leads(max, es + [e], c, w')
  {
    hide After, Allowed, Next;
    AfterOneMore(max, es, e);
    var all := es + [e];
    forall k | 0 <= k < |all| ensures Allowed(After(max, all[..k]), max, all[k], c) {
      assert all[..k] == es[..k];
      if k == |es| { assert es[..k] == es; }
    }
  }

  function UpTo(n: nat): set<Key> {
    if n == 0 then {} else UpTo(n - 1) + {n - 1}
  }

  lemma {:induction false} UpToIs(n: nat, k: Key)
    ensures k in UpTo(n) <==> k < n
  {
    if n > 0 { UpToIs(n - 1, k); }
  }

  lemma {:induction false} UpToSize(n: nat)
    ensures |UpTo(n)| == n
  {
    if n > 0 {
      UpToSize(n - 1);
      UpToIs(n - 1, n - 1);
    }
  }

  /** The keys one eviction removes. */
  function Oldest(max: nat): set<Key> { UpTo(TtlStores.TenthOf(max)) }

  lemma OldestSize(max: nat, n: nat)
    requires 1 <= max <= n
    ensures Oldest(max) <= UpTo(n) && |Oldest(max)| == TtlStores.TenthOf(max) && |UpTo(n)| == n
    ensures |UpTo(n) - Oldest(max)| == n - TtlStores.TenthOf(max)
  {
    hide UpTo;
    var tenth := TtlStores.TenthOf(max);
    UpToSize(n);
    UpToSize(tenth);
    forall k | k in UpTo(tenth) ensures k in UpTo(n) {
      UpToIs(tenth, k);
      UpToIs(n, k);
    }
    assert UpTo(n) == UpTo(tenth) + (UpTo(n) - UpTo(tenth));
  }

  /** Sets of `n` new keys from `first` on that all have the same keys left to delete. */
  function Alike(first: Key, n: nat, todo: set<Key>): (jobs: seq<Job>)
    ensures |jobs| == n
    decreases n
  {
    if n == 0 then [] else [Evicting(first, todo)] + Alike(first + 1, n - 1, todo)
  }

  lemma {:induction false} AlikeMore(first: Key, n: nat, todo: set<Key>)
    ensures Alike(first, n, todo) + [Evicting(first + n, todo)] == Alike(first, n + 1, todo)
    decreases n
  {
    if n > 0 {
      AlikeMore(first + 1, n - 1, todo);
      assert Alike(first, n, todo) + [Evicting(first + n, todo)]
          == [Evicting(first, todo)] + (Alike(first + 1, n - 1, todo) + [Evicting(first + n, todo)]);
    }
  }

  lemma DroppedFirst(job: Job, jobs: seq<Job>)
    ensures Dropped([job] + jobs, 0) == jobs
  {
  }

  /** Counting a store with room. */
  lemma CountRoom(live: set<Key>, max: nat, first: Key, n: nat, c: nat)
    requires |live| < max && n < c
    ensures var w := World(live, Alike(first, n, {}));
            Allowed(w, max, Count(first + n), c)
            && Next(w, max, Count(first + n)) == World(live, Alike(first, n + 1, {}))
  {
    AlikeMore(first, n, {});
  }

  /** The first set, with nothing left to delete, inserts. */
  lemma InsertFirst(live: set<Key>, max: nat, key: Key, jobs: seq<Job>, c: nat)
    requires |jobs| < c
    ensures var w := World(live, [Evicting(key, {})] + jobs);
            Allowed(w, max, Insert(0), c) && Next(w, max, Insert(0)) == World(live + {key}, jobs)
  {
    DroppedFirst(Evicting(key, {}), jobs);
  }

  /** `n` keys set one after the other. */
  function Fill(n: nat): seq<Event> {
    if n == 0 then [] else Fill(n - 1) + [Count(n - 1)] + [Insert(0)]
  }

  lemma FillStep(max: nat, n: nat, c: nat, es: seq<Event>)
    requires n < max && c >= 1 && Leads(max, es, c, World(UpTo(n), []))
    ensures Leads(max, es + [Count(n)] + [Insert(0)], c, World(UpTo(n + 1), []))
  {
    hide Next, Allowed, Leads;
    UpToSize(n);
    CountRoom(UpTo(n), max, n, 0, c);
    InsertFirst(UpTo(n), max, n, [], c);
    var w := World(UpTo(n), [Evicting(n, {})] + []);
    assert Alike(n, 1, {}) == [Evicting(n, {})] + [];
    assert UpTo(n + 1) == UpTo(n) + {n};
    hide UpTo, Alike;
    LeadsOn(max, es, c, World(UpTo(n), []), Count(n), w);
    LeadsOn(max, es + [Count(n)], c, w, Insert(0), World(UpTo(n + 1), []));
  }

  lemma {:induction false} AfterFill(max: nat, n: nat, c: nat)
    requires n <= max && c >= 1
    ensures Leads(max, Fill(n), c, World(UpTo(n), []))
  {
    hide Leads, UpTo;
    if n == 0 {
      NothingLeads(max, c);
    } else {
      AfterFill(max, n - 1, c);
      FillStep(max, n - 1, c, Fill(n - 1));
    }
  }

  lemma NothingLeads(max: nat, c: nat)
    ensures Leads(max, [], c, World(UpTo(0), []))
  {
    hide Allowed;
  }

  /** The store one short of full, counted by `n` workers at once. */
  function Gather(max: nat, n: nat): seq<Event>
    requires max >= 1
  {
    if n == 0 then Fill(max - 1) else Gather(max, n - 1) + [Count(max - 1 + n - 1)]
  }

  lemma {:induction false} AfterGather(max: nat, n: nat, c: nat)
    requires max >= 1 && n <= c && c >= 1
    ensures Leads(max, Gather(max, n), c, World(UpTo(max - 1), Alike(max - 1, n, {})))
  {
    hide Next, Allowed, Leads, Fill, UpTo;
    if n == 0 {
      AfterFill(max, max - 1, c);
    } else {
      AfterGather(max, n - 1, c);
      UpToSize(max - 1);
      CountRoom(UpTo(max - 1), max, max - 1, n - 1, c);
      LeadsOn(max, Gather(max, n - 1), c, World(UpTo(max - 1), Alike(max - 1, n - 1, {})), Count(max - 1 + n - 1),
              World(UpTo(max - 1), Alike(max - 1, n, {})));
    }
  }

  /** `n` of the `c` workers insert. */
  function Landed(max: nat, c: nat, n: nat): seq<Event>
    requires max >= 1
  {
    if n == 0 then Gather(max, c) else Landed(max, c, n - 1) + [Insert(0)]
  }

  lemma {:induction false} AfterLanded(max: nat, c: nat, n: nat)
    requires max >= 1 && n <= c && c >= 1
    ensures Leads(max, Landed(max, c, n), c, World(UpTo(max - 1 + n), Alike(max - 1 + n, c - n, {})))
  {
    hide Next, Allowed, Leads, Gather;
    if n == 0 {
      AfterGather(max, c, c);
    } else {
      var first := max - 1 + n - 1;
      AfterLanded(max, c, n - 1);
      InsertFirst(UpTo(first), max, first, Alike(first + 1, c - n, {}), c);
      LeadsOn(max, Landed(max, c, n - 1), c, World(UpTo(first), Alike(first, c - n + 1, {})), Insert(0),
              World(UpTo(first + 1), Alike(first + 1, c - n, {})));
    }
  }

  /** `c` workers can leave maxKeys - 1 + c live records: they all count before any inserts. */
  lemma LimitAttained(max: nat, c: nat)
    requires max >= 1 && c >= 1
    ensures Legal(max, Landed(max, c, c), c) && |After(max, Landed(max, c, c)).live| == max - 1 + c
  {
    hide Landed, After, Legal;
    AfterLanded(max, c, c);
    UpToSize(max - 1 + c);
  }

  // ---------------------------------------------------------------- more workers than one eviction removes

  /** The store left with maxKeys - 1 + c records, found full by `n` workers that all select the
      same oldest keys. */
  function Found(max: nat, c: nat, n: nat): seq<Event>
    requires max >= 1
  {
    if n == 0 then Landed(max, c, c)
    else Found(max, c, n - 1) + [Count(max - 1 + c + n - 1)] + [Select(n - 1, Oldest(max))]
  }

  /** Counting a full store and selecting the keys the others have selected. */
  lemma SelectSame(live: set<Key>, max: nat, first: Key, n: nat, todo: set<Key>, c: nat)
    requires |live| >= max && n < c && todo <= live && |todo| == TtlStores.TenthOf(max)
    ensures var w := World(live, Alike(first, n, todo));
            var counted := World(live, Alike(first, n, todo) + [Full(first + n)]);
            && Allowed(w, max, Count(first + n), c) && Next(w, max, Count(first + n)) == counted
            && Allowed(counted, max, Select(n, todo), c)
            && Next(counted, max, Select(n, todo)) == World(live, Alike(first, n + 1, todo))
  {
    AlikeMore(first, n, todo);
    var jobs := Alike(first, n, todo);
    assert (jobs + [Full(first + n)])[n := Evicting(first + n, todo)] == jobs + [Evicting(first + n, todo)];
  }

  function FoundBy(max: nat, c: nat, n: nat): World
    requires max >= 1
  {
    World(UpTo(max - 1 + c), Alike(max - 1 + c, n, Oldest(max)))
  }

  lemma FoundStep(max: nat, c: nat, n: nat, es: seq<Event>)
    requires max >= 1 && n < c && Leads(max, es, c, FoundBy(max, c, n))
    ensures Leads(max, es + [Count(max - 1 + c + n)] + [Select(n, Oldest(max))], c, FoundBy(max, c, n + 1))
  {
    hide Next, Allowed, Leads, UpTo, Oldest, Alike;
    var big, todo := max - 1 + c, Oldest(max);
    assert |UpTo(big)| >= max && todo <= UpTo(big) && |todo| == TtlStores.TenthOf(max) by {
      OldestSize(max, big);
    }
    SelectSame(UpTo(big), max, big, n, todo, c);
    var counted := World(UpTo(big), Alike(big, n, todo) + [Full(big + n)]);
    LeadsOn(max, es, c, FoundBy(max, c, n), Count(big + n), counted);
    LeadsOn(max, es + [Count(big + n)], c, counted, Select(n, todo), FoundBy(max, c, n + 1));
  }

  lemma {:induction false} AfterFound(max: nat, c: nat, n: nat)
    requires max >= 1 && n <= c && c >= 1
    ensures Leads(max, Found(max, c, n), c, FoundBy(max, c, n))
  {
    hide Leads, Landed;
    if n == 0 {
      hide UpTo, Oldest;
      AfterLanded(max, c, c);
    } else {
      hide FoundBy;
      AfterFound(max, c, n - 1);
      FoundStep(max, c, n - 1, Found(max, c, n - 1));
    }
  }

  /** Then `m` of them have finished, and the next has deleted `d` of its keys. */
  function Cleared(max: nat, c: nat, m: nat, d: nat): seq<Event>
    requires max >= 1
    decreases m, d
  {
    if d > 0 then Cleared(max, c, m, d - 1) + [Drop(0, d - 1)]
    else if m == 0 then Found(max, c, c)
    else Cleared(max, c, m - 1, TtlStores.TenthOf(max)) + [Insert(0)]
  }

  function ClearedTo(max: nat, c: nat, m: nat, d: nat): World
    requires max >= 1 && m < c
  {
    var big := max - 1 + c;
    World(UpTo(big + m) - if m == 0 then UpTo(d) else Oldest(max),
          [Evicting(big + m, Oldest(max) - UpTo(d))] + Alike(big + m + 1, c - m - 1, Oldest(max)))
  }

  /** The first set deletes one of its keys. */
  lemma DropFirst(live: set<Key>, max: nat, key: Key, todo: set<Key>, jobs: seq<Job>, k: Key, c: nat)
    requires k in todo && |jobs| < c
    ensures var w := World(live, [Evicting(key, todo)] + jobs);
            && Allowed(w, max, Drop(0, k), c)
            && Next(w, max, Drop(0, k)) == World(live - {k}, [Evicting(key, todo - {k})] + jobs)
  {
    assert ([Evicting(key, todo)] + jobs)[0 := Evicting(key, todo - {k})] == [Evicting(key, todo - {k})] + jobs;
  }

  lemma WithoutMore(keys: set<Key>, d: nat)
    ensures keys - UpTo(d + 1) == keys - UpTo(d) - {d}
  {
  }

  lemma NextOldest(max: nat, d: nat)
    requires d < TtlStores.TenthOf(max)
    ensures d in Oldest(max) && d in Oldest(max) - UpTo(d)
  {
    UpToIs(TtlStores.TenthOf(max), d);
    UpToIs(d, d);
  }

  lemma DropNext(max: nat, c: nat, m: nat, d: nat)
    requires max >= 1 && m < c && d < TtlStores.TenthOf(max)
    ensures var w := ClearedTo(max, c, m, d);
            Allowed(w, max, Drop(0, d), c) && Next(w, max, Drop(0, d)) == ClearedTo(max, c, m, d + 1)
  {
    hide Next, Allowed, Alike, UpTo, Oldest;
    var big := max - 1 + c;
    var live := UpTo(big + m) - if m == 0 then UpTo(d) else Oldest(max);
    NextOldest(max, d);
    WithoutMore(Oldest(max), d);
    WithoutMore(UpTo(big + m), d);
    assert m > 0 ==> live - {d} == live;
    DropFirst(live, max, big + m, Oldest(max) - UpTo(d), Alike(big + m + 1, c - m - 1, Oldest(max)), d, c);
  }

  /** When the first of them inserts, the others are as they were. */
  lemma InsertNext(max: nat, c: nat, m: nat)
    requires max >= 1 && m < c
    ensures var w, big := ClearedTo(max, c, m, TtlStores.TenthOf(max)), max - 1 + c;
            && Allowed(w, max, Insert(0), c)
            && Next(w, max, Insert(0))
               == World(UpTo(big + m + 1) - Oldest(max), Alike(big + m + 1, c - m - 1, Oldest(max)))
  {
    var big := max - 1 + c;
    assert UpTo(TtlStores.TenthOf(max)) == Oldest(max);
    assert UpTo(big + m + 1) == UpTo(big + m) + {big + m};
    assert big + m !in Oldest(max) by { UpToIs(TtlStores.TenthOf(max), big + m); }
    hide Next, Allowed, UpTo, Oldest, Alike;
    var live := UpTo(big + m) - Oldest(max);
    assert UpTo(big + m + 1) - Oldest(max) == live + {big + m};
    assert Oldest(max) - Oldest(max) == {};
    InsertFirst(live, max, big + m, Alike(big + m + 1, c - m - 1, Oldest(max)), c);
  }

  lemma NextCleared(max: nat, c: nat, m: nat)
    requires max >= 1 && 0 < m < c
    ensures var big := max - 1 + c;
            ClearedTo(max, c, m, 0) == World(UpTo(big + m) - Oldest(max), Alike(big + m, c - m, Oldest(max)))
  {
    hide Oldest;
    assert Oldest(max) - UpTo(0) == Oldest(max);
  }

  lemma {:induction false} AfterCleared(max: nat, c: nat, m: nat, d: nat)
    requires max >= 1 && m < c && d <= TtlStores.TenthOf(max)
    ensures Leads(max, Cleared(max, c, m, d), c, ClearedTo(max, c, m, d))
    decreases m, d
  {
    hide Next, Allowed, Leads, Found, ClearedTo, UpTo, Oldest, Alike;
    if d > 0 {
      AfterCleared(max, c, m, d - 1);
      DropNext(max, c, m, d - 1);
      LeadsOn(max, Cleared(max, c, m, d - 1), c, ClearedTo(max, c, m, d - 1), Drop(0, d - 1), ClearedTo(max, c, m, d));
    } else if m == 0 {
      AfterFound(max, c, c);
      NothingCleared(max, c);
    } else {
      var tenth := TtlStores.TenthOf(max);
      AfterCleared(max, c, m - 1, tenth);
      InsertNext(max, c, m - 1);
      NextCleared(max, c, m);
      LeadsOn(max, Cleared(max, c, m - 1, tenth), c, ClearedTo(max, c, m - 1, tenth), Insert(0),
              ClearedTo(max, c, m, 0));
    }
  }

  lemma NothingCleared(max: nat, c: nat)
    requires max >= 1 && c >= 1
    ensures ClearedTo(max, c, 0, 0) == FoundBy(max, c, c)
  {
    assert UpTo(max - 1 + c) - UpTo(0) == UpTo(max - 1 + c) && Oldest(max) - UpTo(0) == Oldest(max);
    hide UpTo, Oldest;
  }

  lemma AllCleared(max: nat, c: nat)
    requires max >= 1 && c >= 1
    ensures Leads(max, Cleared(max, c, c, 0), c, World(UpTo(max - 1 + c + c) - Oldest(max), []))
  {
    hide Leads, Next, Allowed, UpTo, Oldest, ClearedTo;
    var big, tenth := max - 1 + c, TtlStores.TenthOf(max);
    AfterCleared(max, c, c - 1, tenth);
    InsertNext(max, c, c - 1);
    LeadsOn(max, Cleared(max, c, c - 1, tenth), c, ClearedTo(max, c, c - 1, tenth), Insert(0),
            World(UpTo(big + c) - Oldest(max), Alike(big + c, 0, Oldest(max))));
  }

  /** Workers that select the same keys delete them once and insert once each: more workers than
      keys in one eviction leave the store larger still. */
  lemma LimitPassed(max: nat, c: nat)
    requires max >= 1 && c > TtlStores.TenthOf(max)
    ensures var es := Cleared(max, c, c, 0);
            Legal(max, es, c) && |After(max, es).live| == max - 1 + c + (c - TtlStores.TenthOf(max))
  {
    hide After, Legal, UpTo, Oldest, Cleared;
    AllCleared(max, c);
    OldestSize(max, max - 1 + c + c);
  }

  // ---------------------------------------------------------------- the exact conditions

  /** If the run is legal for `c` workers, it ends with at most maxKeys - 1 + c live records. */
  ghost predicate WithinWorkers(max: nat, es: seq<Event>, c: nat) {
    Legal(max, es, c) ==> |After(max, es).live| <= max - 1 + c
  }

  /** All runs of `c` workers keep to maxKeys - 1 + c exactly when one eviction removes at least as
      many keys as there are workers. */
  lemma LimitHoldsIff(max: nat, c: nat)
    requires max >= 1 && c >= 1
    ensures (forall es :: WithinWorkers(max, es, c)) <==> c <= TtlStores.TenthOf(max)
  {
    hide After, Legal, Cleared;
    if c <= TtlStores.TenthOf(max) {
      forall es ensures WithinWorkers(max, es, c) {
        if Legal(max, es, c) { LimitWithWorkers(max, es, c); }
      }
    } else {
      LimitPassed(max, c);
      assert !WithinWorkers(max, Cleared(max, c, c, 0), c);
    }
  }

  /** If the run is legal for `c` workers, it ends with at most maxKeys live records. */
  ghost predicate WithinMaxKeys(max: nat, es: seq<Event>, c: nat) {
    Legal(max, es, c) ==> |After(max, es).live| <= max
  }

  /** All runs of `c` workers keep to maxKeys itself exactly when there is only one worker. */
  lemma MaxKeysHoldsIff(max: nat, c: nat)
    requires max >= 1 && c >= 1
    ensures (forall es :: WithinMaxKeys(max, es, c)) <==> c == 1
  {
    hide After, Legal, Landed;
    if c == 1 {
      forall es ensures WithinMaxKeys(max, es, c) {
        if Legal(max, es, c) { LimitWithWorkers(max, es, c); }
      }
    } else {
      LimitAttained(max, c);
      assert !WithinMaxKeys(max, Landed(max, c, c), c);
    }
  }
}
