/** The bounded Damerau (optimal string alignment) distance behind the typo-tolerant
    catalogue search.  `Distance` fills three rotating rows and gives up early; the
    reference notion is the cheapest edit script between the two words. */
module EditDistance {

  /** One edit.  A transposition swaps two neighbouring letters and costs one edit. */
  datatype Edit = Keep | Substitute | Insert | Delete | Transpose

  /** A script, read from its last edit backwards. */
  datatype Script = Done | Then(before: Script, edit: Edit)

  function Cost(s: Script): nat {
    match s
    case Done => 0
    case Then(before, edit) => Cost(before) + if edit.Keep? then 0 else 1
  }

  /** `s` turns the first `i` letters of `a` into the first `j` letters of `b`. */
  predicate Turns(s: Script, a: string, b: string, i: nat, j: nat)
    requires i <= |a| && j <= |b|
  {
    match s
    case Done => i == 0 && j == 0
    case Then(before, Keep) => i > 0 && j > 0 && a[i-1] == b[j-1] && Turns(before, a, b, i-1, j-1)
    case Then(before, Substitute) => i > 0 && j > 0 && Turns(before, a, b, i-1, j-1)
    case Then(before, Insert) => j > 0 && Turns(before, a, b, i, j-1)
    case Then(before, Delete) => i > 0 && Turns(before, a, b, i-1, j)
    case Then(before, Transpose) =>
      i > 1 && j > 1 && a[i-1] == b[j-2] && a[i-2] == b[j-1] && Turns(before, a, b, i-2, j-2)
  }

  /** `d` is the optimal-string-alignment distance: the least cost of a script from `a` to `b`. */
  ghost predicate IsLeastCost(a: string, b: string, d: nat) {
    && (exists s :: Turns(s, a, b, |a|, |b|) && Cost(s) == d)
    && (forall s :: Turns(s, a, b, |a|, |b|) ==> d <= Cost(s))
  }

  function Min(x: nat, y: nat): nat { if x < y then x else y }

  function Least(x: nat, y: nat, z: nat): nat { Min(Min(x, y), z) }

  predicate Swapped(a: string, b: string, i: nat, j: nat)
    requires i <= |a| && j <= |b|
  {
    i > 1 && j > 1 && a[i-1] == b[j-2] && a[i-2] == b[j-1]
  }

  /** What one step of the inner loop stores, given the three neighbours of the cell and the
      cell a transposition reaches back to. */
  function Stored(a: string, b: string, i: nat, j: nat, up: nat, left: nat, diag: nat, far: nat): nat
    requires 1 <= i <= |a| && 1 <= j <= |b|
  {
    var v := Least(up + 1, left + 1, diag + if a[i-1] == b[j-1] then 0 else 1);
    if Swapped(a, b, i, j) then Min(v, far + 1) else v
  }

  /** The cell in row `i`, column `j` of the table the source fills. */
  function Cell(a: string, b: string, i: nat, j: nat): nat
    requires i <= |a| && j <= |b|
  {
    if i == 0 then j
    else if j == 0 then i
    else
      Stored(a, b, i, j, Cell(a, b, i-1, j), Cell(a, b, i, j-1), Cell(a, b, i-1, j-1),
             if i > 1 && j > 1 then Cell(a, b, i-2, j-2) else 0)
  }

  /** The table's recurrence, one step of it.  The proofs below hide `Cell` and use this. */
  lemma CellStep(a: string, b: string, i: nat, j: nat)
    requires i <= |a| && j <= |b|
    ensures i == 0 ==> Cell(a, b, i, j) == j
    ensures j == 0 ==> Cell(a, b, i, j) == i
    ensures i > 0 && j > 0 ==>
              Cell(a, b, i, j) ==
              Stored(a, b, i, j, Cell(a, b, i-1, j), Cell(a, b, i, j-1), Cell(a, b, i-1, j-1),
                     if i > 1 && j > 1 then Cell(a, b, i-2, j-2) else 0)
  {
  }

  /** The cell is at most one edit from each neighbour a script can come from, and reaches the
      value of one of them. */
  lemma CellNeighbours(a: string, b: string, i: nat, j: nat)
    requires i <= |a| && j <= |b|
    ensures i > 0 ==> Cell(a, b, i, j) <= Cell(a, b, i-1, j) + 1
    ensures j > 0 ==> Cell(a, b, i, j) <= Cell(a, b, i, j-1) + 1
    ensures i > 0 && j > 0 ==>
              Cell(a, b, i, j) <= Cell(a, b, i-1, j-1) + if a[i-1] == b[j-1] then 0 else 1
    ensures Swapped(a, b, i, j) ==> Cell(a, b, i, j) <= Cell(a, b, i-2, j-2) + 1
    ensures i == 0 && j == 0 ==> Cell(a, b, i, j) == 0
    ensures i > 0 || j > 0 ==>
              || (i > 0 && Cell(a, b, i, j) == Cell(a, b, i-1, j) + 1)
              || (j > 0 && Cell(a, b, i, j) == Cell(a, b, i, j-1) + 1)
              || (Swapped(a, b, i, j) && Cell(a, b, i, j) == Cell(a, b, i-2, j-2) + 1)
              || (i > 0 && j > 0
                  && Cell(a, b, i, j) == Cell(a, b, i-1, j-1) + if a[i-1] == b[j-1] then 0 else 1)
  {
    hide Cell;
    CellStep(a, b, i, j);
    if i > 0 { CellStep(a, b, i-1, j); }
    if j > 0 { CellStep(a, b, i, j-1); }
  }

  /** Some script reaches the cell's value ... */
  lemma {:induction false} CheapestScript(a: string, b: string, i: nat, j: nat) returns (s: Script)
    requires i <= |a| && j <= |b|
    ensures Turns(s, a, b, i, j) && Cost(s) == Cell(a, b, i, j)
    decreases i + j
  {
    hide Cell;
    CellNeighbours(a, b, i, j);
    var d := Cell(a, b, i, j);
    if i == 0 && j == 0 {
      s := Done;
    } else if i > 0 && d == Cell(a, b, i-1, j) + 1 {
      var t := CheapestScript(a, b, i-1, j);
      s := Then(t, Delete);
    } else if j > 0 && d == Cell(a, b, i, j-1) + 1 {
      var t := CheapestScript(a, b, i, j-1);
      s := Then(t, Insert);
    } else if Swapped(a, b, i, j) && d == Cell(a, b, i-2, j-2) + 1 {
      var t := CheapestScript(a, b, i-2, j-2);
      s := Then(t, Transpose);
    } else {
      var t := CheapestScript(a, b, i-1, j-1);
      s := Then(t, if a[i-1] == b[j-1] then Keep else Substitute);
    }
  }

  /** ... and no script beats it. */
  lemma {:induction false} NoCheaperScript(s: Script, a: string, b: string, i: nat, j: nat)
    requires i <= |a| && j <= |b| && Turns(s, a, b, i, j)
    ensures Cell(a, b, i, j) <= Cost(s)
  {
    hide Cell;
    CellNeighbours(a, b, i, j);
    match s
    case Done =>
    case Then(before, Keep) => NoCheaperScript(before, a, b, i-1, j-1);
    case Then(before, Substitute) => NoCheaperScript(before, a, b, i-1, j-1);
    case Then(before, Insert) => NoCheaperScript(before, a, b, i, j-1);
    case Then(before, Delete) => NoCheaperScript(before, a, b, i-1, j);
    case Then(before, Transpose) => NoCheaperScript(before, a, b, i-2, j-2);
  }

  /** The corner of the table is the optimal-string-alignment distance, and nothing else is. */
  lemma CornerIsLeastCost(a: string, b: string, d: nat)
    ensures IsLeastCost(a, b, d) <==> d == Cell(a, b, |a|, |b|)
  {
    var best := CheapestScript(a, b, |a|, |b|);
    forall s | Turns(s, a, b, |a|, |b|)
      ensures Cell(a, b, |a|, |b|) <= Cost(s)
    {
      NoCheaperScript(s, a, b, |a|, |b|);
    }
  }

  /** Each letter of length difference costs an edit: the length cut-off is sound. */
  lemma {:induction false} LengthBound(a: string, b: string, i: nat, j: nat)
    requires i <= |a| && j <= |b|
    ensures i - j <= Cell(a, b, i, j) && j - i <= Cell(a, b, i, j)
    decreases i + j
  {
    hide Cell;
    CellStep(a, b, i, j);
    if i > 0 && j > 0 {
      LengthBound(a, b, i-1, j);
      LengthBound(a, b, i, j-1);
      LengthBound(a, b, i-1, j-1);
      if Swapped(a, b, i, j) {
        LengthBound(a, b, i-2, j-2);
      }
    }
  }

  ghost predicate RowAbove(a: string, b: string, i: nat, max: nat)
    requires i <= |a|
  {
    forall j: nat | j <= |b| :: Cell(a, b, i, j) > max
  }

  /** The early exit: once a whole row exceeds `max`, so does the next one.  A transposition
      looks two rows back, past the exceeding row, but the cell it reads is at most one
      below its lower neighbour, which is in the exceeding row. */
  lemma {:induction false} NextRowAbove(a: string, b: string, i: nat, j: nat, max: nat)
    requires i < |a| && j <= |b| && RowAbove(a, b, i, max)
    ensures Cell(a, b, i+1, j) > max
  {
    hide Cell;
    CellStep(a, b, i+1, j);
    assert Cell(a, b, i, j) > max;
    if j == 0 {
      CellStep(a, b, i, 0);
    } else {
      NextRowAbove(a, b, i, j-1, max);
      assert Cell(a, b, i, j-1) > max;
      if Swapped(a, b, i+1, j) {
        assert Cell(a, b, i, j-2) > max;
        CellStep(a, b, i, j-2);
        CellStep(a, b, i-1, j-2);
        assert Cell(a, b, i, j-2) <= Cell(a, b, i-1, j-2) + 1;
      }
    }
  }

  lemma {:induction false} AllLaterRowsAbove(a: string, b: string, i: nat, k: nat, max: nat)
    requires i <= k <= |a| && RowAbove(a, b, i, max)
    ensures RowAbove(a, b, k, max)
    decreases k - i
  {
    if i < k {
      var next := i + 1;
      forall j: nat | j <= |b| ensures Cell(a, b, next, j) > max {
        NextRowAbove(a, b, i, j, max);
      }
      AllLaterRowsAbove(a, b, next, k, max);
    }
  }

  /** Identical words are at distance zero, and only they are. */
  lemma {:induction false} ZeroIffEqual(a: string, b: string, i: nat, j: nat)
    requires i <= |a| && j <= |b|
    ensures Cell(a, b, i, j) == 0 <==> i == j && forall k | 0 <= k < i :: a[k] == b[k]
    decreases i
  {
    hide Cell;
    CellStep(a, b, i, j);
    LengthBound(a, b, i, j);
    if i > 0 && j > 0 {
      ZeroIffEqual(a, b, i-1, j-1);
    }
  }

  /** The distance does not depend on which word is the query. */
  lemma {:induction false} Symmetric(a: string, b: string, i: nat, j: nat)
    requires i <= |a| && j <= |b|
    ensures Cell(a, b, i, j) == Cell(b, a, j, i)
    decreases i + j
  {
    hide Cell;
    CellStep(a, b, i, j);
    CellStep(b, a, j, i);
    if i > 0 && j > 0 {
      Symmetric(a, b, i-1, j);
      Symmetric(a, b, i, j-1);
      Symmetric(a, b, i-1, j-1);
      assert Swapped(a, b, i, j) == Swapped(b, a, j, i);
      if Swapped(a, b, i, j) {
        Symmetric(a, b, i-2, j-2);
      }
    }
  }

  ghost predicate HoldsRow(row: array<nat>, a: string, b: string, i: nat)
    requires i <= |a|
    reads row
  {
    row.Length == |b| + 1 && forall j: nat {:trigger row[j]} | j <= |b| :: row[j] == Cell(a, b, i, j)
  }

  ghost predicate Follows(cur: array<nat>, prev: array<nat>, prev2: array<nat>, a: string, b: string, i: nat, j: nat)
    requires 1 <= i <= |a| && j <= |b| < cur.Length == prev.Length == prev2.Length
    reads cur, prev, prev2
  {
    cur[j] == if j == 0 then i else
      Stored(a, b, i, j, prev[j], cur[j-1], prev[j-1], if j > 1 then prev2[j-2] else 0)
  }

  lemma {:induction false} FollowingRow(cur: array<nat>, prev: array<nat>, prev2: array<nat>,
                                        a: string, b: string, i: nat, j: nat)
    requires 1 <= i <= |a| && j <= |b| && cur.Length == prev.Length == prev2.Length == |b| + 1
    requires forall k: nat | k <= |b| :: Follows(cur, prev, prev2, a, b, i, k)
    requires HoldsRow(prev, a, b, i - 1)
    requires i > 1 ==> HoldsRow(prev2, a, b, i - 2)
    ensures cur[j] == Cell(a, b, i, j)
  {
    hide Cell;
    CellStep(a, b, i, j);
    assert Follows(cur, prev, prev2, a, b, i, j);
    if j > 0 {
      FollowingRow(cur, prev, prev2, a, b, i, j - 1);
      assert prev[j] == Cell(a, b, i-1, j) && prev[j-1] == Cell(a, b, i-1, j-1);
      if Swapped(a, b, i, j) {
        assert prev2[j-2] == Cell(a, b, i-2, j-2);
      }
    }
  }

  /** One row of the table from the two rows before it, with the least value in it. */
  method FillRow(a: string, b: string, i: nat, prev2: array<nat>, prev: array<nat>, cur: array<nat>)
    returns (rowBest: nat)
    requires 1 <= i <= |a|
    requires cur != prev && cur != prev2 && cur.Length == prev.Length == prev2.Length == |b| + 1
    modifies cur
    ensures forall j: nat | j <= |b| :: Follows(cur, prev, prev2, a, b, i, j)
    ensures forall j: nat | j <= |b| :: rowBest <= cur[j]
    ensures exists j: nat :: j <= |b| && rowBest == cur[j]
  {
    hide Least, Min;
    cur[0] := i;
    rowBest := i;
    ghost var least := 0;
    for j := 1 to |b| + 1
      invariant forall k: nat | k < j :: Follows(cur, prev, prev2, a, b, i, k)
      invariant forall k: nat | k < j :: rowBest <= cur[k]
      invariant least < j && rowBest == cur[least]
    {
      var cost := if a[i-1] == b[j-1] then 0 else 1;
      var v := Least(prev[j] + 1, cur[j-1] + 1, prev[j-1] + cost);
      if i > 1 && j > 1 && a[i-1] == b[j-2] && a[i-2] == b[j-1] {
        v := Min(v, prev2[j-2] + 1);
      }
      label Before:
      cur[j] := v;
      assert forall k: nat | k < j ::
          old@Before(Follows(cur, prev, prev2, a, b, i, k)) ==> Follows(cur, prev, prev2, a, b, i, k);
      if v < rowBest { rowBest := v; least := j; }
    }
  }

  /** The bounded search: the exact distance when it is at most `max`, and otherwise some
      number above `max`. */
  method Distance(a: string, b: string, max: nat) returns (r: nat)
    ensures r <= max ==> IsLeastCost(a, b, r)
    ensures r > max ==> forall s :: Turns(s, a, b, |a|, |b|) ==> Cost(s) > max
  {
    hide Cell;
    CellStep(a, b, |a|, |b|);
    CornerIsLeastCost(a, b, Cell(a, b, |a|, |b|));
    if a == b {
      ZeroIffEqual(a, b, |a|, |b|);
      return 0;
    }
    var la, lb := |a|, |b|;
    if la == 0 { return if lb > max then max + 1 else lb; }
    if lb == 0 { return if la > max then max + 1 else la; }
    LengthBound(a, b, la, lb);
    if (if la > lb then la - lb else lb - la) > max { return max + 1; }

    var prev2 := new nat[lb + 1](_ => 0);
    var prev := new nat[lb + 1](_ => 0);
    var cur := new nat[lb + 1](_ => 0);
    for j := 0 to lb + 1
      invariant prev.Length == lb + 1
      invariant forall k: nat | k < j :: prev[k] == Cell(a, b, 0, k)
    {
      CellStep(a, b, 0, j);
      prev[j] := j;
    }

    for i := 1 to la + 1
      invariant prev2 != prev && prev != cur && cur != prev2
      invariant fresh(prev2) && fresh(prev) && fresh(cur)
      invariant HoldsRow(prev, a, b, i - 1)
      invariant prev2.Length == cur.Length == lb + 1
      invariant i > 1 ==> HoldsRow(prev2, a, b, i - 2)
    {
      var rowBest := FillRow(a, b, i, prev2, prev, cur);
      forall j: nat | j <= lb ensures cur[j] == Cell(a, b, i, j) {
        FollowingRow(cur, prev, prev2, a, b, i, j);
      }
      if rowBest > max {
        forall j: nat | j <= lb ensures Cell(a, b, i, j) > max {
          assert cur[j] == Cell(a, b, i, j);
        }
        AllLaterRowsAbove(a, b, i, la, max);
        return max + 1;
      }
      var spare := prev2;
      prev2 := prev;
      prev := cur;
      cur := spare;
    }
    return prev[lb];
  }
}
