/** The nested transaction combinator, over a command-level model of the database engine:
    BEGIN, SAVEPOINT, RELEASE, ROLLBACK TO, COMMIT and ROLLBACK act on a stack of named
    marks.  The combinator is shown to give plain all-or-nothing nesting, whichever of the
    commands it issues fail. */
module Transactions {

  /** Which commands of one `transaction(fn)` call fail.
      `opening`: BEGIN or SAVEPOINT.  `closing`: COMMIT or RELEASE; after a failed COMMIT the
      transaction is either still open or, with `aborted`, already rolled back by the engine.
      `stuck`: the RELEASE that follows a ROLLBACK TO. */
  datatype Faults = Faults(opening: bool, closing: bool, aborted: bool, stuck: bool)

  /** What a request handler does to the database.  `Update` is a statement that succeeds,
      `Throw` an exception, `Abort` a statement error on which the engine rolls the whole open
      transaction back by itself, `Guard` a try/catch, and `Tx` a call of a function wrapped by
      `transaction`. */
  datatype Program<!S> =
    | Update(change: S -> S)
    | Throw
    | Abort
    | Seq(first: Program<S>, second: Program<S>)
    | Branch(test: S -> bool, yes: Program<S>, no: Program<S>)
    | Guard(body: Program<S>, handler: Program<S>)
    | Tx(body: Program<S>, faults: Faults)

  datatype Result<S> = Result(data: S, ok: bool)

  /** The meaning callers rely on: a transaction that throws, or cannot be begun or closed,
      has no effect; everything else takes effect where it stands. */
  function Atomic<S>(p: Program<S>, data: S): Result<S> {
    match p
    case Update(change) => Result(change(data), true)
    case Throw => Result(data, false)
    case Abort => Result(data, false)
    case Seq(first, second) =>
      var r := Atomic(first, data);
      if r.ok then Atomic(second, r.data) else r
    case Branch(test, yes, no) => if test(data) then Atomic(yes, data) else Atomic(no, data)
    case Guard(body, handler) =>
      var r := Atomic(body, data);
      if r.ok then r else Atomic(handler, r.data)
    case Tx(body, faults) =>
      if faults.opening then Result(data, false) else
      var r := Atomic(body, data);
      if r.ok && !faults.closing then r else Result(data, false)
  }

  /** No RELEASE inside an undo fails anywhere in `p`. */
  predicate NeverStuck<S>(p: Program<S>) {
    match p
    case Update(_) => true
    case Throw => true
    case Abort => true
    case Seq(first, second) => NeverStuck(first) && NeverStuck(second)
    case Branch(_, yes, no) => NeverStuck(yes) && NeverStuck(no)
    case Guard(body, handler) => NeverStuck(body) && NeverStuck(handler)
    case Tx(body, faults) => NeverStuck(body) && !faults.stuck
  }

  predicate MayAbort<S>(p: Program<S>) {
    match p
    case Update(_) => false
    case Throw => false
    case Abort => true
    case Seq(first, second) => MayAbort(first) || MayAbort(second)
    case Branch(_, yes, no) => MayAbort(yes) || MayAbort(no)
    case Guard(body, handler) => MayAbort(body) || MayAbort(handler)
    case Tx(body, _) => MayAbort(body)
  }

  /** Inside a transaction, no try/catch stands around a statement that may abort. */
  predicate AbortsEscape<S>(p: Program<S>, inside: bool) {
    match p
    case Update(_) => true
    case Throw => true
    case Abort => true
    case Seq(first, second) => AbortsEscape(first, inside) && AbortsEscape(second, inside)
    case Branch(_, yes, no) => AbortsEscape(yes, inside) && AbortsEscape(no, inside)
    case Guard(body, handler) =>
      AbortsEscape(body, inside) && AbortsEscape(handler, inside) && (inside ==> !MayAbort(body))
    case Tx(body, _) => AbortsEscape(body, true)
  }

  datatype Name = Begun | Sp(level: nat)

  datatype Mark<S> = Mark(name: Name, saved: S)

  /** The engine resolves a savepoint name to the most recent mark carrying it. */
  function Latest<S>(marks: seq<Mark<S>>, name: Name): (k: int)
    ensures -1 <= k < |marks|
    ensures k >= 0 ==> marks[k].name == name
    ensures forall j | k < j < |marks| :: marks[j].name != name
  {
    if marks == [] then -1
    else if marks[|marks|-1].name == name then |marks| - 1
    else Latest(marks[..|marks|-1], name)
  }

  /** Savepoints that an undo could not release: all deeper than the transaction they are left in. */
  ghost predicate Leftover<S>(extra: seq<Mark<S>>, depth: nat) {
    forall m | m in extra :: m.name.Sp? && m.name.level >= depth
  }

  lemma OwnSavepointIsLatest<S>(before: seq<Mark<S>>, own: Mark<S>, extra: seq<Mark<S>>)
    requires own.name.Sp? && Leftover(extra, own.name.level + 1)
    ensures Latest(before + [own] + extra, own.name) == |before|
  {
    var marks := before + [own] + extra;
    var k := Latest(marks, own.name);
    assert marks[|before|] == own;
    assert forall j | |before| < j < |marks| :: marks[j] == extra[j - |before| - 1] && marks[j] in extra;
  }

  /** One database connection: the engine's state and the combinator's depth counter. */
  class Connection<S> {
    var data: S
    var marks: seq<Mark<S>>
    var txDepth: nat

    /** Outside every call the engine has no transaction open, inside one it has. */
    ghost predicate Valid()
      reads this
    {
      txDepth == 0 <==> marks == []
    }

    constructor (initial: S)
      ensures Valid() && data == initial && txDepth == 0
    {
      data, marks, txDepth := initial, [], 0;
    }

    // ---- engine commands; `fails` says that the command reports an error ----

    method Begin(fails: bool) returns (ok: bool)
      modifies this`marks
      ensures ok == (!fails && old(marks) == [])
      ensures marks == if ok then [Mark(Begun, data)] else old(marks)
    {
      ok := !fails && marks == [];
      if ok { marks := [Mark(Begun, data)]; }
    }

    method Savepoint(name: Name, fails: bool) returns (ok: bool)
      modifies this`marks
      ensures ok == !fails
      ensures marks == if ok then old(marks) + [Mark(name, data)] else old(marks)
    {
      ok := !fails;
      if ok { marks := marks + [Mark(name, data)]; }
    }

    method Release(name: Name, fails: bool) returns (ok: bool)
      modifies this`marks
      ensures ok == (!fails && Latest(old(marks), name) >= 0)
      ensures marks == if ok then old(marks)[..Latest(old(marks), name)] else old(marks)
    {
      var k := Latest(marks, name);
      ok := !fails && k >= 0;
      if ok { marks := marks[..k]; }
    }

    method RollbackTo(name: Name) returns (ok: bool)
      modifies this`data, this`marks
      ensures ok == (Latest(old(marks), name) >= 0)
      ensures ok ==> var k := Latest(old(marks), name); marks == old(marks)[..k+1] && data == old(marks)[k].saved
      ensures !ok ==> marks == old(marks) && data == old(data)
    {
      var k := Latest(marks, name);
      ok := k >= 0;
      if ok { data, marks := marks[k].saved, marks[..k+1]; }
    }

    method Commit(fails: bool, aborts: bool) returns (ok: bool)
      modifies this`data, this`marks
      ensures ok == (!fails && old(marks) != [])
      ensures ok ==> marks == [] && data == old(data)
      ensures !ok && !(aborts && old(marks) != []) ==> marks == old(marks) && data == old(data)
      ensures !ok && aborts && old(marks) != [] ==> marks == [] && data == old(marks)[0].saved
    {
      ok := !fails && marks != [];
      if ok {
        marks := [];
      } else if aborts && marks != [] {
        data, marks := marks[0].saved, [];
      }
    }

    method Rollback() returns (ok: bool)
      modifies this`data, this`marks
      ensures ok == (old(marks) != [])
      ensures marks == []
      ensures data == if ok then old(marks)[0].saved else old(data)
    {
      ok := marks != [];
      if ok { data, marks := marks[0].saved, []; }
    }

    /** The engine's own rollback; outside a transaction the failed statement just has no effect. */
    method AbortStatement()
      modifies this`data, this`marks
      ensures marks == [] && data == if old(marks) == [] then old(data) else old(marks)[0].saved
    {
      if marks != [] { data, marks := marks[0].saved, []; }
    }

    // ---- the combinator ----

    /** Errors of the undo commands themselves are swallowed. */
    method Undo(level: nat, stuck: bool)
      modifies this`data, this`marks
      ensures level == 0 ==> marks == [] && data == if old(marks) == [] then old(data) else old(marks)[0].saved
      ensures old(marks) == [] ==> marks == [] && data == old(data)
      ensures level > 0 && Latest(old(marks), Sp(level)) >= 0 ==>
                var k := Latest(old(marks), Sp(level));
                data == old(marks)[k].saved && marks == old(marks)[..if stuck then k + 1 else k]
    {
      if level == 0 {
        var _ := Rollback();
      } else {
        var restored := RollbackTo(Sp(level));
        if restored {
          var _ := Release(Sp(level), stuck);
        }
      }
    }

    /** The part of `transaction` after the wrapped function has returned or thrown.  With `gone`
        the engine has already rolled everything back. */
    method Leave(level: nat, returned: bool, faults: Faults, ghost gone: bool,
                 ghost before: seq<Mark<S>>, ghost own: Mark<S>, ghost extra: seq<Mark<S>>)
      returns (ok: bool)
      requires txDepth == level + 1
      requires if gone then !returned && marks == [] else marks == before + [own] + extra
      requires level == 0 <==> before == []
      requires level > 0 ==> own.name == Sp(level) && Leftover(extra, level + 1)
      modifies this
      ensures txDepth == level && ok == (returned && !faults.closing)
      ensures gone ==> marks == [] && data == old(data)
      ensures !gone ==> data == if ok then old(data) else own.saved
      ensures !gone ==> before <= marks && (level == 0 || !faults.stuck ==> marks == before)
      ensures !gone ==> marks == before || marks == before + [own]
    {
      if level > 0 && !gone { OwnSavepointIsLatest(before, own, extra); }
      txDepth := txDepth - 1;
      if !returned {
        Undo(level, faults.stuck);
        return false;
      }
      var closed;
      if level == 0 {
        closed := Commit(faults.closing, faults.aborted);
      } else {
        closed := Release(Sp(level), faults.closing);
      }
      if !closed {
        Undo(level, faults.stuck);
        return false;
      }
      return true;
    }

    /** What a handler leaves: its atomic meaning and the marks it found, or, when the engine has
        aborted under it (`gone`), an exception with everything rolled back to the outermost BEGIN. */
    twostate predicate Refines(p: Program<S>, ok: bool, gone: bool)
      reads this
    {
      if gone then
        && txDepth > 0 && old(marks) != [] && marks == [] && data == old(marks)[0].saved
        && !ok && MayAbort(p) && !Atomic(p, old(data)).ok
      else
        && Valid() && old(marks) <= marks && Leftover(marks[|old(marks)|..], txDepth)
        && (NeverStuck(p) ==> marks == old(marks))
        && Result(data, ok) == Atomic(p, old(data))
    }

    /** `transaction(body)()`. */
    method Transaction(body: Program<S>, faults: Faults) returns (ok: bool, ghost gone: bool)
      requires Valid() && AbortsEscape(body, true)
      modifies this
      ensures txDepth == old(txDepth) && Refines(Tx(body, faults), ok, gone)
      decreases body, 1
    {
      gone := false;
      var level := txDepth;
      var begun;
      if level == 0 {
        begun := Begin(faults.opening);
      } else {
        begun := Savepoint(Sp(level), faults.opening);
      }
      if !begun { return false, false; }
      txDepth := txDepth + 1;

      ghost var before := old(marks);
      ghost var own := Mark(if level == 0 then Begun else Sp(level), data);
      assert marks == before + [own];

      var returned;
      returned, gone := Run(body);

      ghost var extra := if gone then [] else marks[|before| + 1..];
      assert !gone ==> marks == before + [own] + extra;
      ok := Leave(level, returned, faults, gone, before, own, extra);
      if level == 0 { gone := false; }
    }

    /** A handler run against the connection refines its atomic meaning: the depth counter and
        the marks it found are as before, and the data and outcome are exactly `Atomic`'s.
        Outside a transaction there is no other case. */
    method Run(p: Program<S>) returns (ok: bool, ghost gone: bool)
      requires Valid() && AbortsEscape(p, txDepth > 0)
      modifies this
      ensures txDepth == old(txDepth) && Refines(p, ok, gone)
      ensures txDepth == 0 ==> !gone
      decreases p, 0
    {
      gone := false;
      match p
      case Update(change) => data := change(data); return true, false;
      case Throw => return false, false;
      case Abort =>
        gone := txDepth > 0;
        AbortStatement();
        return false, gone;
      case Seq(first, second) =>
        ok, gone := Run(first);
        if ok { ok, gone := Run(second); }
      case Branch(test, yes, no) =>
        if test(data) { ok, gone := Run(yes); } else { ok, gone := Run(no); }
      case Guard(body, handler) =>
        ok, gone := Run(body);
        if !ok { ok, gone := Run(handler); }
      case Tx(body, faults) =>
        ok, gone := Transaction(body, faults);
    }
  }

  const NO_FAULTS := Faults(false, false, false, false)

  /** A transaction that catches an abort and writes on. */
  function WritesOn(): Program<int> {
    Tx(Seq(Guard(Abort, Update((x: int) => x)), Update((x: int) => x + 1)), NO_FAULTS)
  }

  /** The commands `transaction` issues for it: the later write is made outside any transaction,
      COMMIT and ROLLBACK fail, and the call throws with the write kept, which its atomic meaning
      never does.  So the condition on aborts is needed. */
  method CaughtAbortKeepsLaterWrites(c: Connection<int>) returns (ok: bool)
    requires c.Valid() && c.txDepth == 0
    modifies c
    ensures c.Valid() && c.txDepth == 0 && !AbortsEscape(WritesOn(), false)
    ensures !ok && c.data == old(c.data) + 1 && Atomic(WritesOn(), old(c.data)) == Result(old(c.data) + 1, true)
  {
    var begun := c.Begin(false);
    c.txDepth := c.txDepth + 1;
    c.AbortStatement();
    c.data := c.data + 1;
    c.txDepth := c.txDepth - 1;
    ok := c.Commit(false, false);
    if !ok { c.Undo(0, false); }
  }

  // ---- laws of the atomic meaning ----

  /** `p` neither catches exceptions nor meets a failing command. */
  predicate Plain<S>(p: Program<S>) {
    match p
    case Update(_) => true
    case Throw => true
    case Abort => true
    case Seq(first, second) => Plain(first) && Plain(second)
    case Branch(_, yes, no) => Plain(yes) && Plain(no)
    case Guard(_, _) => false
    case Tx(body, faults) => Plain(body) && !faults.opening && !faults.closing
  }

  /** `p` with every inner transaction replaced by its body. */
  function Flatten<S>(p: Program<S>): Program<S> {
    match p
    case Update(_) => p
    case Throw => p
    case Abort => p
    case Seq(first, second) => Seq(Flatten(first), Flatten(second))
    case Branch(test, yes, no) => Branch(test, Flatten(yes), Flatten(no))
    case Guard(body, handler) => Guard(Flatten(body), Flatten(handler))
    case Tx(body, _) => Flatten(body)
  }

  lemma {:induction false} FlattenKeepsOutcome<S>(p: Program<S>, data: S)
    requires Plain(p)
    ensures Atomic(Flatten(p), data).ok == Atomic(p, data).ok
    ensures Atomic(p, data).ok ==> Atomic(Flatten(p), data) == Atomic(p, data)
  {
    match p
    case Update(_) =>
    case Throw =>
    case Abort =>
    case Seq(first, second) =>
      FlattenKeepsOutcome(first, data);
      FlattenKeepsOutcome(second, Atomic(first, data).data);
    case Branch(test, yes, no) =>
      FlattenKeepsOutcome(yes, data);
      FlattenKeepsOutcome(no, data);
    case Tx(body, _) =>
      FlattenKeepsOutcome(body, data);
  }

  /** Inside a transaction, nesting is invisible as long as nobody catches: creating an order
      may call the stock reservation, itself a transaction, as if it were inlined. */
  lemma NestingIsTransparent<S>(body: Program<S>, faults: Faults, data: S)
    requires Plain(body)
    ensures Atomic(Tx(Flatten(body), faults), data) == Atomic(Tx(body, faults), data)
  {
    FlattenKeepsOutcome(body, data);
  }

  /** Without the enclosing transaction that is false: here the inner write survives. */
  lemma FlatteningNeedsTheOuterTransaction()
    ensures var p := Tx(Seq(Update((x: int) => x + 1), Throw), NO_FAULTS);
            Plain(p) && Atomic(Flatten(p), 0) != Atomic(p, 0)
  {
    var p := Tx(Seq(Update((x: int) => x + 1), Throw), NO_FAULTS);
    assert Atomic(Flatten(p), 0).data == 1;
  }
}
