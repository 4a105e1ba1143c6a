/** One record of the shared store in a cluster.  A read-modify-write opens an immediate
    transaction, reads, computes, writes and commits; single statements write it outright; it
    expires; and a reader that finds it expired deletes it by key in a second statement.  All
    these steps interleave freely, held back only by the write lock. */
module LockedMutate {
  import opened Options

  /** Where a worker is inside its transaction. */
  datatype Phase<V> = Idle | Begun | HasRead(seen: Option<V>) | HasWritten(next: Option<V>)

  /** `Store` is a single-statement write: `set`, or `delete` with None.  `Lapse` is the moment the
      record expires.  `Look` and `Purge` are the two statements of a read outside a transaction. */
  datatype Event<V> =
    | Begin(worker: nat)
    | Read(worker: nat)
    | Write(worker: nat)
    | Commit(worker: nat)
    | Rollback(worker: nat)
    | Store(next: Option<V>)
    | Lapse
    | Look(reader: nat)
    | Purge(reader: nat)

  /** What has happened to the record: some worker's mutation, a single write, or its expiry. */
  datatype Change<V> = Mutated(worker: nat) | Stored(next: Option<V>) | Lapsed

  datatype Record<V> = Record(value: V, expired: bool)

  /** `cell` is the committed row, `readers` have found it expired and will delete it, and
      `history` lists the changes so far, in order. */
  datatype System<V> =
    System(cell: Option<Record<V>>, lock: Option<nat>, phases: map<nat, Phase<V>>, readers: set<nat>,
           history: seq<Change<V>>)

  function PhaseOf<V>(s: System<V>, w: nat): Phase<V> {
    if w in s.phases then s.phases[w] else Idle
  }

  /** What the row counts for. */
  function Alive<V>(cell: Option<Record<V>>): Option<V> {
    if cell.Some? && !cell.value.expired then Some(cell.value.value) else None
  }

  function Fresh<V>(next: Option<V>): Option<Record<V>> {
    if next.Some? then Some(Record(next.value, false)) else None
  }

  type Update<!V> = Option<V> -> Option<V>

  /** One event; what the lock or the worker's own position forbids does not happen.  A
      transaction judges expiry once, when it reads. */
  function Next<V>(s: System<V>, update: nat -> Update<V>, e: Event<V>): System<V> {
    match e
    case Begin(w) =>
      if s.lock.None? && PhaseOf(s, w).Idle? then s.(lock := Some(w), phases := s.phases[w := Begun]) else s
    case Read(w) =>
      if PhaseOf(s, w).Begun? then s.(phases := s.phases[w := HasRead(Alive(s.cell))]) else s
    case Write(w) =>
      if PhaseOf(s, w).HasRead? then s.(phases := s.phases[w := HasWritten(update(w)(PhaseOf(s, w).seen))]) else s
    case Commit(w) =>
      if PhaseOf(s, w).HasWritten?
      then s.(cell := Fresh(PhaseOf(s, w).next), lock := None, phases := s.phases[w := Idle],
              history := s.history + [Mutated(w)])
      else s
    case Rollback(w) =>
      if PhaseOf(s, w).Idle? then s else s.(lock := None, phases := s.phases[w := Idle])
    case Store(next) =>
      if s.lock.None? then s.(cell := Fresh(next), history := s.history + [Stored(next)]) else s
    case Lapse =>
      if s.lock.None? && Alive(s.cell).Some?
      then s.(cell := Some(s.cell.value.(expired := true)), history := s.history + [Lapsed]) else s
    case Look(r) =>
      if s.cell.Some? && s.cell.value.expired then s.(readers := s.readers + {r}) else s
    case Purge(r) =>
      if r in s.readers && s.lock.None? then s.(cell := None, readers := s.readers - {r}) else s
  }

  function Start<V>(cell: Option<V>): System<V> {
    System(Fresh(cell), None, map[], {}, [])
  }

  function Run<V>(cell: Option<V>, update: nat -> Update<V>, events: seq<Event<V>>): System<V> {
    if events == [] then Start(cell)
    else Next(Run(cell, update, events[..|events|-1]), update, events[|events|-1])
  }

  function Apply<V>(value: Option<V>, update: nat -> Update<V>, c: Change<V>): Option<V> {
    match c
    case Mutated(w) => update(w)(value)
    case Stored(next) => next
    case Lapsed => None
  }

  /** The changes, one after the other. */
  function Applied<V>(value: Option<V>, update: nat -> Update<V>, history: seq<Change<V>>): Option<V> {
    if history == [] then value
    else Apply(Applied(value, update, history[..|history|-1]), update, history[|history|-1])
  }

  lemma AppliedOneMore<V>(value: Option<V>, update: nat -> Update<V>, history: seq<Change<V>>, c: Change<V>)
    ensures Applied(value, update, history + [c]) == Apply(Applied(value, update, history), update, c)
  {
    assert (history + [c])[..|history|] == history;
  }

  // ---------------------------------------------------------------- serializability

  /** Only the lock holder is in a transaction, and what it has read is still what is there. */
  ghost predicate Coherent<V>(s: System<V>, update: nat -> Update<V>) {
    forall w: nat ::
      && (PhaseOf(s, w).Idle? <==> s.lock != Some(w))
      && (PhaseOf(s, w).HasRead? ==> PhaseOf(s, w).seen == Alive(s.cell))
      && (PhaseOf(s, w).HasWritten? ==> PhaseOf(s, w).next == update(w)(Alive(s.cell)))
  }

  /** A reader's DELETE finds a live record, committed since its SELECT. */
  predicate Strays<V>(s: System<V>, e: Event<V>) {
    e.Purge? && e.reader in s.readers && s.lock.None? && Alive(s.cell).Some?
  }

  lemma StepCoherent<V>(s: System<V>, update: nat -> Update<V>, e: Event<V>)
    requires Coherent(s, update)
    ensures Coherent(Next(s, update, e), update)
  {
    var s' := Next(s, update, e);
    if e.Begin? || e.Read? || e.Write? || e.Commit? || e.Rollback? {
      assert forall v: nat | v != e.worker :: PhaseOf(s', v) == PhaseOf(s, v);
      assert PhaseOf(s, e.worker).Idle? <==> s.lock != Some(e.worker);
    } else {
      assert forall v: nat :: PhaseOf(s', v) == PhaseOf(s, v);
    }
  }

  /** A step makes the change it records, and no other unless it strays. */
  lemma StepApplies<V>(s: System<V>, update: nat -> Update<V>, e: Event<V>)
    requires Coherent(s, update)
    ensures var s' := Next(s, update, e);
            if |s'.history| > |s.history|
            then var c := s'.history[|s.history|];
                 && s'.history == s.history + [c] && Alive(s'.cell) == Apply(Alive(s.cell), update, c)
                 && (c.Stored? ==> e == Store(c.next))
            else s'.history == s.history && Alive(s'.cell) == if Strays(s, e) then None else Alive(s.cell)
  {
    if e.Commit? {
      var phase := PhaseOf(s, e.worker);
      assert phase.HasWritten? ==> phase.next == update(e.worker)(Alive(s.cell));
    }
  }

  /** The record is what its history makes of it. */
  ghost predicate Serial<V>(cell: Option<V>, update: nat -> Update<V>, s: System<V>) {
    Alive(s.cell) == Applied(cell, update, s.history)
  }

  ghost predicate AlwaysSerial<V>(cell: Option<V>, update: nat -> Update<V>, events: seq<Event<V>>) {
    forall k | 0 <= k <= |events| :: Serial(cell, update, Run(cell, update, events[..k]))
  }

  ghost predicate NeverStrays<V>(cell: Option<V>, update: nat -> Update<V>, events: seq<Event<V>>) {
    forall k | 0 <= k < |events| :: !Strays(Run(cell, update, events[..k]), events[k])
  }

  lemma StepSerial<V>(cell: Option<V>, update: nat -> Update<V>, s: System<V>, e: Event<V>)
    requires Coherent(s, update) && Serial(cell, update, s)
    ensures Serial(cell, update, Next(s, update, e)) <==> !Strays(s, e)
  {
    StepApplies(s, update, e);
    hide Coherent;
    var s' := Next(s, update, e);
    if |s'.history| > |s.history| {
      AppliedOneMore(cell, update, s.history, s'.history[|s.history|]);
    }
  }

  lemma {:induction false} AlwaysCoherent<V>(cell: Option<V>, update: nat -> Update<V>, events: seq<Event<V>>)
    ensures Coherent(Run(cell, update, events), update)
  {
    if events != [] {
      var n := |events| - 1;
      AlwaysCoherent(cell, update, events[..n]);
      hide Next, Coherent;
      StepCoherent(Run(cell, update, events[..n]), update, events[n]);
    }
  }

  lemma OneMoreEvent<V>(cell: Option<V>, update: nat -> Update<V>, events: seq<Event<V>>)
    requires events != []
    ensures var n := |events| - 1;
            && (AlwaysSerial(cell, update, events)
                <==> AlwaysSerial(cell, update, events[..n]) && Serial(cell, update, Run(cell, update, events)))
            && (NeverStrays(cell, update, events)
                <==> NeverStrays(cell, update, events[..n]) && !Strays(Run(cell, update, events[..n]), events[n]))
  {
    hide Run, Serial, Strays;
    var n := |events| - 1;
    assert events[..n+1] == events;
    assert forall k | 0 <= k <= n :: events[..n][..k] == events[..k];
    if AlwaysSerial(cell, update, events) {
      forall k | 0 <= k <= n ensures Serial(cell, update, Run(cell, update, events[..n][..k])) {
        assert Serial(cell, update, Run(cell, update, events[..k]));
      }
      assert Serial(cell, update, Run(cell, update, events[..n+1]));
    } else {
      var j :| 0 <= j <= n + 1 && !Serial(cell, update, Run(cell, update, events[..j]));
      if j <= n { assert !Serial(cell, update, Run(cell, update, events[..n][..j])); }
    }
    if NeverStrays(cell, update, events) {
      forall k | 0 <= k < n ensures !Strays(Run(cell, update, events[..n][..k]), events[..n][k]) {
        assert !Strays(Run(cell, update, events[..k]), events[k]);
      }
    } else {
      var j :| 0 <= j <= n && Strays(Run(cell, update, events[..j]), events[j]);
      if j < n { assert Strays(Run(cell, update, events[..n][..j]), events[..n][j]); }
    }
  }

  lemma LastSerial<V>(cell: Option<V>, update: nat -> Update<V>, events: seq<Event<V>>)
    requires AlwaysSerial(cell, update, events)
    ensures Serial(cell, update, Run(cell, update, events))
  {
    hide Run, Serial;
    assert events[..|events|] == events;
  }

  /** Over every interleaving: at every moment the record is what the committed mutations, the
      single writes and the expiries make of it, one at a time in order (none lost, none applied
      twice, none on a half-done other), exactly when no reader's DELETE finds a record committed
      since its SELECT. */
  lemma {:induction false} SerialIffNoStray<V>(cell: Option<V>, update: nat -> Update<V>, events: seq<Event<V>>)
    ensures AlwaysSerial(cell, update, events) <==> NeverStrays(cell, update, events)
  {
    if events == [] {
      assert events[..0] == [];
      assert Serial(cell, update, Run(cell, update, []));
    } else {
      var n := |events| - 1;
      SerialIffNoStray(cell, update, events[..n]);
      AlwaysCoherent(cell, update, events[..n]);
      OneMoreEvent(cell, update, events);
      hide Serial, Strays, NeverStrays, Coherent, Next;
      if AlwaysSerial(cell, update, events[..n]) {
        LastSerial(cell, update, events[..n]);
        StepSerial(cell, update, Run(cell, update, events[..n]), events[n]);
      }
    }
  }

  /** The transactions and single writes alone, without readers, are serializable outright. */
  lemma {:induction false} Serializable<V>(cell: Option<V>, update: nat -> Update<V>, events: seq<Event<V>>)
    requires forall e | e in events :: !e.Look?
    ensures Serial(cell, update, Run(cell, update, events)) && Run(cell, update, events).readers == {}
  {
    if events != [] {
      var n := |events| - 1;
      Serializable(cell, update, events[..n]);
      AlwaysCoherent(cell, update, events[..n]);
      hide Serial, Coherent;
      StepSerial(cell, update, Run(cell, update, events[..n]), events[n]);
    }
  }

  // ---------------------------------------------------------------- a shared counter

  function Increment(value: Option<nat>): Option<nat> {
    Some(if value.Some? then value.value + 1 else 1)
  }

  /** Nothing stands in the way of a worker that finds the lock free: its four steps put its change
      of the live value in the record, deletion included, and free the lock again.  A single
      write takes effect outright. */
  lemma AloneItCommits<V>(s: System<V>, update: nat -> Update<V>, w: nat)
    requires s.lock.None? && PhaseOf(s, w).Idle?
    ensures var begun := Next(s, update, Begin(w));
            var written := Next(Next(begun, update, Read(w)), update, Write(w));
            var done := Next(written, update, Commit(w));
            && begun.lock == Some(w) && written.lock == Some(w) && written.cell == s.cell
            && done.lock.None? && PhaseOf(done, w).Idle? && done.history == s.history + [Mutated(w)]
            && Alive(done.cell) == update(w)(Alive(s.cell)) && (done.cell.Some? ==> Alive(done.cell).Some?)
    ensures forall next :: Alive(Next(s, update, Store(next)).cell) == next
  {
  }

  /** Every worker's change is the increment. */
  function Incrementing(w: nat): Update<nat> { (value: Option<nat>) => Increment(value) }

  /** The increments since the counter last expired, over its start if it never did. */
  function Increments(start: nat, history: seq<Change<nat>>): nat {
    if history == [] then start
    else if history[|history|-1].Lapsed? then 0
    else Increments(start, history[..|history|-1]) + 1
  }

  lemma {:induction false} AppliedIncrements(start: nat, history: seq<Change<nat>>)
    requires forall c | c in history :: !c.Stored?
    ensures var value := Applied(Some(start), Incrementing, history);
            Increments(start, history) == if value.Some? then value.value else 0
  {
    if history != [] {
      var n := |history| - 1;
      AppliedIncrements(start, history[..n]);
      var before := Applied(Some(start), Incrementing, history[..n]);
      assert history[n] in history;
      assert history[n].Mutated? ==> Apply(before, Incrementing, history[n]) == Increment(before);
    }
  }

  lemma {:induction false} NothingStored(cell: Option<nat>, events: seq<Event<nat>>)
    requires forall e | e in events :: !e.Store?
    ensures forall c | c in Run(cell, Incrementing, events).history :: !c.Stored?
  {
    if events != [] {
      var n := |events| - 1;
      NothingStored(cell, events[..n]);
      AlwaysCoherent(cell, Incrementing, events[..n]);
      hide Coherent, Next;
      StepApplies(Run(cell, Incrementing, events[..n]), Incrementing, events[n]);
    }
  }

  /** In every interleaving of workers that each increment a counter, with no stray DELETE, it
      stands at the number of increments committed since it last expired. */
  lemma NoLostIncrement(start: nat, events: seq<Event<nat>>)
    requires forall e | e in events :: !e.Store?
    requires NeverStrays(Some(start), Incrementing, events)
    ensures var s := Run(Some(start), Incrementing, events);
            Increments(start, s.history) == if Alive(s.cell).Some? then Alive(s.cell).value else 0
  {
    hide Run, Alive;
    SerialIffNoStray(Some(start), Incrementing, events);
    LastSerial(Some(start), Incrementing, events);
    NothingStored(Some(start), events);
    AppliedIncrements(start, Run(Some(start), Incrementing, events).history);
  }

  /** A reader finds the counter expired, a worker increments it, and the reader deletes it. */
  lemma StrayDeleteLosesIncrement()
    ensures var s := Run(Some(5), Incrementing, [Lapse, Look(9), Begin(1), Read(1), Write(1), Commit(1), Purge(9)]);
            s.history == [Lapsed, Mutated(1)] && s.cell == None
  {
    hide Next, Run;
    StraySteps();
    RunNothing(Some(5));
    var none: seq<Event<nat>> := [];
    var all := [Lapse, Look(9), Begin(1), Read(1), Write(1), Commit(1), Purge(9)];
    assert all == none + [all[0]] + [all[1]] + [all[2]] + [all[3]] + [all[4]] + [all[5]] + [all[6]];
    RunMore(Some(5), none, all[0]);
    RunMore(Some(5), none + [all[0]], all[1]);
    RunMore(Some(5), none + [all[0]] + [all[1]], all[2]);
    RunMore(Some(5), none + [all[0]] + [all[1]] + [all[2]], all[3]);
    RunMore(Some(5), none + [all[0]] + [all[1]] + [all[2]] + [all[3]], all[4]);
    RunMore(Some(5), none + [all[0]] + [all[1]] + [all[2]] + [all[3]] + [all[4]], all[5]);
    RunMore(Some(5), none + [all[0]] + [all[1]] + [all[2]] + [all[3]] + [all[4]] + [all[5]], all[6]);
  }

  lemma RunNothing(cell: Option<nat>)
    ensures Run(cell, Incrementing, []) == Start(cell)
  {
  }

  lemma RunMore(cell: Option<nat>, events: seq<Event<nat>>, e: Event<nat>)
    ensures Run(cell, Incrementing, events + [e]) == Next(Run(cell, Incrementing, events), Incrementing, e)
  {
    assert (events + [e])[..|events|] == events;
  }

  lemma StraySteps()
    ensures var old5, new1 := Some(Record(5, true)), Some(Record(1, false));
            var s1 := System(old5, None, map[], {}, [Lapsed]);
            var s2 := System(old5, None, map[], {9}, [Lapsed]);
            var s3 := System(old5, Some(1), map[1 := Begun], {9}, [Lapsed]);
            var s4 := System(old5, Some(1), map[1 := HasRead(None)], {9}, [Lapsed]);
            var s5 := System(old5, Some(1), map[1 := HasWritten(Some(1))], {9}, [Lapsed]);
            var s6 := System(new1, None, map[1 := Idle], {9}, [Lapsed, Mutated(1)]);
            && Next(Start(Some(5)), Incrementing, Lapse) == s1 && Next(s1, Incrementing, Look(9)) == s2
            && Next(s2, Incrementing, Begin(1)) == s3 && Next(s3, Incrementing, Read(1)) == s4
            && Next(s4, Incrementing, Write(1)) == s5 && Next(s5, Incrementing, Commit(1)) == s6
            && Next(s6, Incrementing, Purge(9)) == System(None, None, map[1 := Idle], {}, [Lapsed, Mutated(1)])
  {
  }
}
