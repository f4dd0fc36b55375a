/**
 * The candidate-maintenance engine of the Sudoku front end.
 *
 * Three 9x9 matrices are kept side by side: the candidate list of every
 * cell, the value assigned to it (or null) and the given value (or null).
 * As in the source, a matrix is indexed `[row j, column i]` and a cell is
 * named by its coordinates `(i, j)`, column first.
 */
module Sudoku {
  import opened Nullable
  import opened Lists

  /** The selected cell: column `i`, row `j`. */
  datatype Cell = Cell(i: int, j: int)

  /**
   * A key press. `Other(n)` carries `Number(event.key)` when that is an
   * integer, and `None` when it is `NaN`.
   */
  datatype Key = Backspace | Other(asNumber: Option<int>)

  /** The two directions of `updateDomains`. */
  datatype Action = Add | Remove

  /** The candidate list every cell starts with. */
  const FullDomain: seq<int> := [1, 2, 3, 4, 5, 6, 7, 8, 9]

  predicate InGrid(i: int, j: int)
  {
    0 <= i < 9 && 0 <= j < 9
  }

  /** `Math.floor(i / 3) * 3` for a non-negative coordinate: the multiple of 3 at or below `i`. */
  function BoxStart(i: int): (s: int)
    requires 0 <= i
    ensures 0 <= s <= i < s + 3 && s % 3 == 0
    ensures i < 9 ==> s + 3 <= 9
  {
    (i / 3) * 3
  }

  /** `(x, y)` lies in the 3x3 box of `(i, j)`. */
  predicate InBox(i: int, j: int, x: int, y: int)
    requires 0 <= i && 0 <= j
  {
    BoxStart(i) <= x < BoxStart(i) + 3 && BoxStart(j) <= y < BoxStart(j) + 3
  }

  /** `(x, y)` lies in row `j`, in column `i` or in the box of `(i, j)`; `(i, j)` itself included. */
  predicate InRegion(i: int, j: int, x: int, y: int)
    requires 0 <= i && 0 <= j
  {
    y == j || x == i || InBox(i, j, x, y)
  }

  /**
   * How often `removeValueFromAffectedDomains(i, j, _)` reaches `(x, y)`:
   * once from the row loop, once from the column loop, once from the box loop.
   */
  function Visits(i: int, j: int, x: int, y: int): nat
    requires 0 <= i && 0 <= j
  {
    (if y == j then 1 else 0) + (if x == i then 1 else 0) + (if InBox(i, j, x, y) then 1 else 0)
  }

  /** Visits made by the first `k` rounds of the row-and-column loop. */
  function LineVisits(i: int, j: int, k: int, x: int, y: int): nat
  {
    (if y == j && x < k then 1 else 0) + (if x == i && y < k then 1 else 0)
  }

  /** Visits made by the box loop before it reaches `(bx, bY)`. */
  function BoxVisits(i: int, j: int, bx: int, bY: int, x: int, y: int): nat
    requires 0 <= i && 0 <= j
  {
    if InBox(i, j, x, y) && (x < bx || (x == bx && y < bY)) then 1 else 0
  }

  /** The list `restoreValueToDomain` leaves: `v` is appended when absent and the scan allows it. */
  function Restored(d: seq<int>, v: int, allowed: bool): seq<int>
  {
    if allowed then AddIfAbsent(d, v) else d
  }

  /**
   * A restore keeps a duplicate-free list duplicate-free and brings in
   * nothing but `v`, and `v` only when the scan allows it.
   */
  lemma RestoredKeepsDistinct(d: seq<int>, v: int, allowed: bool)
    requires Distinct(d)
    ensures Distinct(Restored(d, v, allowed))
    ensures forall w :: w in Restored(d, v, allowed) <==> w in d || (allowed && w == v)
  {
  }

  /** `Number(event.key)`; the name "Backspace" is not a number. */
  function KeyNumber(key: Key): Option<int>
  {
    match key
    case Backspace => None
    case Other(n) => n
  }

  /**
   * The scan of `canRestoreValue(i, j, _)` covers the region of `(j, i)`.
   * Whenever `i != j` that region misses a cell of the row of `(i, j)`.
   */
  lemma TransposedScanMissesPeer(i: int, j: int)
    requires InGrid(i, j) && i != j
    ensures exists x, y :: InGrid(x, y) && InRegion(i, j, x, y) && !InRegion(j, i, x, y)
  {
    var x := (BoxStart(j) + 3) % 9;
    assert x / 3 != j / 3;
    assert InGrid(x, j) && InRegion(i, j, x, j) && !InRegion(j, i, x, j);
  }

  class Grid {
    /** `cellDomains[j][i]`: the candidate list of cell `(i, j)`. */
    const cellDomains: array2<seq<int>>
    /** `cellValues[j][i]`: the value assigned to `(i, j)`, or null. */
    const cellValues: array2<Option<int>>
    /** `originalValues[j][i]`: the given value of `(i, j)`, or null. */
    const originalValues: array2<Option<int>>

    ghost predicate Valid()
    {
      && cellDomains.Length0 == 9 && cellDomains.Length1 == 9
      && cellValues.Length0 == 9 && cellValues.Length1 == 9
      && originalValues.Length0 == 9 && originalValues.Length1 == 9
      && cellValues != originalValues
    }

    /** Every candidate list is duplicate-free over 1..9 and every assigned value lies in 1..9. */
    ghost predicate WellFormed()
      requires Valid()
      reads cellDomains, cellValues
    {
      forall x, y | InGrid(x, y) ::
        && Distinct(cellDomains[y, x])
        && (forall w | w in cellDomains[y, x] :: 1 <= w <= 9)
        && (cellValues[y, x].Some? ==> 1 <= cellValues[y, x].value <= 9)
    }

    /** No cell of row `j`, column `i` or the box of `(i, j)` is assigned `v`. */
    ghost predicate NoneAssignedInRegion(i: int, j: int, v: int)
      requires Valid() && InGrid(i, j)
      reads cellValues
    {
      forall x, y | InGrid(x, y) && InRegion(i, j, x, y) :: cellValues[y, x] != Some(v)
    }

    /** Only the value of `(i, j)` changed, and it is now `val`. */
    twostate predicate ValuesSetAt(i: int, j: int, val: Option<int>)
      requires Valid() && InGrid(i, j)
      reads cellValues
    {
      && cellValues[j, i] == val
      && forall x, y | InGrid(x, y) && !(x == i && y == j) :: cellValues[y, x] == old(cellValues[y, x])
    }

    /** The candidate lists after `removeValueFromAffectedDomains(i, j, v)`. */
    twostate predicate DomainsRemoved(i: int, j: int, v: int)
      requires Valid() && InGrid(i, j)
      reads cellDomains
    {
      forall x, y | InGrid(x, y) ::
        cellDomains[y, x] == RemoveN(old(cellDomains[y, x]), v, Visits(i, j, x, y))
    }

    /**
     * The candidate lists after `restoreValueInAffectedDomains(i, j, v)`:
     * each cell `(x, y)` of the region regains `v` when the scan of the
     * region of `(y, x)` finds no assigned `v`; the other cells keep theirs.
     */
    twostate predicate DomainsRestored(i: int, j: int, v: int)
      requires Valid() && InGrid(i, j)
      reads cellDomains, cellValues
    {
      forall x, y | InGrid(x, y) ::
        cellDomains[y, x] ==
          if InRegion(i, j, x, y) then Restored(old(cellDomains[y, x]), v, NoneAssignedInRegion(y, x, v))
          else old(cellDomains[y, x])
    }

    /** The effect of `toggle(v)` on the selected cell `(i, j)`, case by case. */
    twostate predicate Toggled(i: int, j: int, v: int)
      requires Valid() && InGrid(i, j)
      reads cellDomains, cellValues, originalValues
    {
      if originalValues[j, i].Some? then
        unchanged(cellDomains, cellValues)
      else if old(cellValues[j, i]) == Some(v) then
        ValuesSetAt(i, j, None) && DomainsRestored(i, j, v)
      else if old(cellValues[j, i]).Some? then
        unchanged(cellDomains, cellValues)
      else if v in old(cellDomains[j, i]) then
        ValuesSetAt(i, j, Some(v)) && DomainsRemoved(i, j, v)
      else
        unchanged(cellDomains, cellValues)
    }

    /**
     * The effect of Backspace on the selected cell `(i, j)`: a non-given
     * assigned cell ends up null, and its value `w` went back into the
     * region's lists as the scan judged it while `(i, j)` still held `w`.
     */
    twostate predicate Erased(i: int, j: int)
      requires Valid() && InGrid(i, j)
      reads cellDomains, cellValues, originalValues
    {
      if originalValues[j, i].Some? || old(cellValues[j, i]).None? then
        unchanged(cellDomains, cellValues)
      else
        var w := old(cellValues[j, i]).value;
        && ValuesSetAt(i, j, None)
        && forall x, y | InGrid(x, y) ::
             cellDomains[y, x] ==
               if InRegion(i, j, x, y) then Restored(old(cellDomains[y, x]), w, old(NoneAssignedInRegion(y, x, w)))
               else old(cellDomains[y, x])
    }

    /** Every list is `[1, ..., 9]`, every value and every given is null. */
    constructor ()
      ensures Valid() && fresh(cellDomains) && fresh(cellValues) && fresh(originalValues)
      ensures forall x, y | InGrid(x, y) ::
        cellDomains[y, x] == FullDomain && cellValues[y, x] == None && originalValues[y, x] == None
      ensures WellFormed()
    {
      var domains := new seq<int>[9, 9];
      var values := new Option<int>[9, 9];
      var originals := new Option<int>[9, 9];
      for j := 0 to 9
        invariant forall x, y | InGrid(x, y) && y < j ::
          domains[y, x] == FullDomain && values[y, x] == None && originals[y, x] == None
      {
        forall i | 0 <= i < 9 {
          domains[j, i] := FullDomain;
        }
        forall i | 0 <= i < 9 {
          values[j, i] := None;
        }
        forall i | 0 <= i < 9 {
          originals[j, i] := None;
        }
      }
      cellDomains, cellValues, originalValues := domains, values, originals;
      assert Distinct(FullDomain) by {
        forall p, q | 0 <= p < q < 9 ensures FullDomain[p] != FullDomain[q] {
          assert FullDomain[p] == p + 1 && FullDomain[q] == q + 1;
        }
      }
    }

    /** `removeValueFromDomain`: `indexOf`, then `splice` out that entry. */
    method RemoveValueFromDomain(i: int, j: int, v: int)
      requires Valid() && InGrid(i, j)
      modifies cellDomains
      ensures cellDomains[j, i] == RemoveFirst(old(cellDomains[j, i]), v)
      ensures forall x, y | InGrid(x, y) && !(x == i && y == j) :: cellDomains[y, x] == old(cellDomains[y, x])
    {
      var d := cellDomains[j, i];
      var index := IndexOf(d, v);
      if index != -1 {
        SpliceAtIndexOf(d, v);
        cellDomains[j, i] := d[..index] + d[index + 1..];
      } else {
        RemoveFirstAbsent(d, v);
      }
    }

    /**
     * `canRestoreValue`: true exactly when no cell of the region of the
     * transposed cell `(j, i)` holds `v`. The loops read `cellValues[k][j]`,
     * `cellValues[i][k]` and `cellValues[x][y]` with `x` from the box start of
     * `i`, that is: column `j`, row `i` and the box of `(j, i)`.
     */
    method CanRestoreValue(i: int, j: int, v: int) returns (b: bool)
      requires Valid() && InGrid(i, j)
      ensures b <==> NoneAssignedInRegion(j, i, v)
    {
      var startI := BoxStart(i);
      var startJ := BoxStart(j);
      for k := 0 to 9
        invariant forall c | 0 <= c < k :: cellValues[c, j] != Some(v) && cellValues[i, c] != Some(v)
      {
        if cellValues[k, j] == Some(v) || cellValues[i, k] == Some(v) {
          return false;
        }
      }
      for x := startI to startI + 3
        invariant forall r, c | startI <= r < x && startJ <= c < startJ + 3 :: cellValues[r, c] != Some(v)
      {
        for y := startJ to startJ + 3
          invariant forall r, c | startI <= r < x && startJ <= c < startJ + 3 :: cellValues[r, c] != Some(v)
          invariant forall c | startJ <= c < y :: cellValues[x, c] != Some(v)
        {
          if cellValues[x, y] == Some(v) {
            return false;
          }
        }
      }
      return true;
    }

    /** `restoreValueToDomain`: append `v` when it is absent and `canRestoreValue` allows it. */
    method RestoreValueToDomain(i: int, j: int, v: int)
      requires Valid() && InGrid(i, j)
      modifies cellDomains
      ensures cellDomains[j, i] == Restored(old(cellDomains[j, i]), v, NoneAssignedInRegion(j, i, v))
      ensures forall x, y | InGrid(x, y) && !(x == i && y == j) :: cellDomains[y, x] == old(cellDomains[y, x])
    {
      if v !in cellDomains[j, i] {
        var allowed := CanRestoreValue(i, j, v);
        if allowed {
          cellDomains[j, i] := cellDomains[j, i] + [v];
        }
      }
    }

    /** The row and column loop of `removeValueFromAffectedDomains`. */
    method RemoveValueFromLines(i: int, j: int, v: int)
      requires Valid() && InGrid(i, j)
      modifies cellDomains
      ensures forall x, y | InGrid(x, y) ::
        cellDomains[y, x] == RemoveN(old(cellDomains[y, x]), v, LineVisits(i, j, 9, x, y))
    {
      for k := 0 to 9
        invariant forall x, y | InGrid(x, y) ::
          cellDomains[y, x] == RemoveN(old(cellDomains[y, x]), v, LineVisits(i, j, k, x, y))
      {
        RemoveValueFromDomain(k, j, v); // same row
        RemoveValueFromDomain(i, k, v); // same column
      }
    }

    /** The box loop of `removeValueFromAffectedDomains`. */
    method RemoveValueFromBox(i: int, j: int, v: int)
      requires Valid() && InGrid(i, j)
      modifies cellDomains
      ensures forall x, y | InGrid(x, y) ::
        cellDomains[y, x] == RemoveN(old(cellDomains[y, x]), v, if InBox(i, j, x, y) then 1 else 0)
    {
      var startI := BoxStart(i);
      var startJ := BoxStart(j);
      for x := startI to startI + 3
        invariant forall cx, cy | InGrid(cx, cy) ::
          cellDomains[cy, cx] == RemoveN(old(cellDomains[cy, cx]), v, BoxVisits(i, j, x, startJ, cx, cy))
      {
        for y := startJ to startJ + 3
          invariant forall cx, cy | InGrid(cx, cy) ::
            cellDomains[cy, cx] == RemoveN(old(cellDomains[cy, cx]), v, BoxVisits(i, j, x, y, cx, cy))
        {
          RemoveValueFromDomain(x, y, v);
        }
      }
    }

    /**
     * `removeValueFromAffectedDomains`: one first-occurrence removal per
     * visit of the row, column and box loops.
     */
    method RemoveValueFromAffectedDomains(i: int, j: int, v: int)
      requires Valid() && InGrid(i, j)
      modifies cellDomains
      ensures DomainsRemoved(i, j, v)
      ensures old(WellFormed()) ==> WellFormed()
      ensures old(WellFormed()) ==> forall x, y | InGrid(x, y) && InRegion(i, j, x, y) :: v !in cellDomains[y, x]
    {
      RemoveValueFromLines(i, j, v);
      label Lines:
      RemoveValueFromBox(i, j, v);
      forall x, y | InGrid(x, y)
        ensures cellDomains[y, x] == RemoveN(old(cellDomains[y, x]), v, Visits(i, j, x, y))
      {
        RemoveNAdd(old(cellDomains[y, x]), v, LineVisits(i, j, 9, x, y), if InBox(i, j, x, y) then 1 else 0);
      }
      forall x, y | InGrid(x, y)
        ensures old(WellFormed()) ==> Distinct(cellDomains[y, x])
        ensures old(WellFormed()) && InRegion(i, j, x, y) ==> v !in cellDomains[y, x]
        ensures forall w | w in cellDomains[y, x] :: w in old(cellDomains[y, x])
      {
        var d := old(cellDomains[y, x]);
        RemoveNSubset(d, v, Visits(i, j, x, y));
        assert forall w | w in cellDomains[y, x] :: w in multiset(d);
        if old(WellFormed()) && Visits(i, j, x, y) > 0 {
          RemoveNOfDistinct(d, v, Visits(i, j, x, y));
        }
      }
    }

    /** The row and column loop of `restoreValueInAffectedDomains`. */
    method RestoreValueInLines(i: int, j: int, v: int)
      requires Valid() && InGrid(i, j)
      modifies cellDomains
      ensures forall x, y | InGrid(x, y) ::
        cellDomains[y, x] ==
          if y == j || x == i then Restored(old(cellDomains[y, x]), v, NoneAssignedInRegion(y, x, v))
          else old(cellDomains[y, x])
    {
      for k := 0 to 9
        invariant forall x, y | InGrid(x, y) ::
          cellDomains[y, x] ==
            if (y == j && x < k) || (x == i && y < k)
            then Restored(old(cellDomains[y, x]), v, NoneAssignedInRegion(y, x, v))
            else old(cellDomains[y, x])
      {
        RestoreValueToDomain(k, j, v); // same row
        RestoreValueToDomain(i, k, v); // same column
      }
    }

    /** The box loop of `restoreValueInAffectedDomains`. */
    method RestoreValueInBox(i: int, j: int, v: int)
      requires Valid() && InGrid(i, j)
      modifies cellDomains
      ensures forall x, y | InGrid(x, y) ::
        cellDomains[y, x] ==
          if InBox(i, j, x, y) then Restored(old(cellDomains[y, x]), v, NoneAssignedInRegion(y, x, v))
          else old(cellDomains[y, x])
    {
      var startI := BoxStart(i);
      var startJ := BoxStart(j);
      for x := startI to startI + 3
        invariant forall cx, cy | InGrid(cx, cy) ::
          cellDomains[cy, cx] ==
            if InBox(i, j, cx, cy) && cx < x
            then Restored(old(cellDomains[cy, cx]), v, NoneAssignedInRegion(cy, cx, v))
            else old(cellDomains[cy, cx])
      {
        for y := startJ to startJ + 3
          invariant forall cx, cy | InGrid(cx, cy) ::
            cellDomains[cy, cx] ==
              if InBox(i, j, cx, cy) && (cx < x || (cx == x && cy < y))
              then Restored(old(cellDomains[cy, cx]), v, NoneAssignedInRegion(cy, cx, v))
              else old(cellDomains[cy, cx])
        {
          RestoreValueToDomain(x, y, v);
        }
      }
    }

    /**
     * `restoreValueInAffectedDomains`: `restoreValueToDomain` on every cell
     * of the row, column and box; a second visit of a cell changes nothing.
     */
    method RestoreValueInAffectedDomains(i: int, j: int, v: int)
      requires Valid() && InGrid(i, j)
      modifies cellDomains
      ensures DomainsRestored(i, j, v)
      ensures old(WellFormed()) && 1 <= v <= 9 ==> WellFormed()
    {
      RestoreValueInLines(i, j, v);
      RestoreValueInBox(i, j, v);
      if old(WellFormed()) {
        forall x, y | InGrid(x, y) && InRegion(i, j, x, y)
          ensures Distinct(cellDomains[y, x])
          ensures forall w | w in cellDomains[y, x] :: w in old(cellDomains[y, x]) || w == v
        {
          RestoredKeepsDistinct(old(cellDomains[y, x]), v, NoneAssignedInRegion(y, x, v));
        }
      }
    }

    /** `updateDomains`: "add" strips `v` from the region, "remove" puts it back. */
    method UpdateDomains(i: int, j: int, v: int, action: Action)
      requires Valid() && InGrid(i, j)
      modifies cellDomains
      ensures action == Add ==> DomainsRemoved(i, j, v)
      ensures action == Remove ==> DomainsRestored(i, j, v)
      ensures old(WellFormed()) && 1 <= v <= 9 ==> WellFormed()
    {
      if action == Add {
        RemoveValueFromAffectedDomains(i, j, v);
      } else {
        RestoreValueInAffectedDomains(i, j, v);
      }
    }

    /** `toggle(v)` on the selected cell `(i, j)`: clear first, then restore; or assign, then remove. */
    method Toggle(i: int, j: int, v: int)
      requires Valid() && InGrid(i, j)
      modifies cellDomains, cellValues
      ensures Toggled(i, j, v)
      ensures old(WellFormed()) && 1 <= v <= 9 ==> WellFormed()
    {
      if originalValues[j, i] != None {
        return;
      }
      if cellValues[j, i] == Some(v) {
        cellValues[j, i] := None;
        UpdateDomains(i, j, v, Remove);
      } else if cellValues[j, i] != None {
        return;
      } else if v in cellDomains[j, i] {
        cellValues[j, i] := Some(v);
        UpdateDomains(i, j, v, Add);
      }
    }

    /** The Backspace branch of the `keydown` handler: restore first, then clear. */
    method Erase(i: int, j: int)
      requires Valid() && InGrid(i, j)
      modifies cellDomains, cellValues
      ensures Erased(i, j)
      ensures old(WellFormed()) ==> WellFormed()
      /* Restoring before clearing: when the column and the row of `(i, j)`
         fall in the same third, the scan sees the erased value at `(i, j)` itself,
         so that cell's own list does not get it back. */
      ensures originalValues[j, i].None? && old(cellValues[j, i]).Some? && BoxStart(i) == BoxStart(j) ==>
        cellDomains[j, i] == old(cellDomains[j, i])
    {
      if originalValues[j, i] != None {
        return;
      }
      if cellValues[j, i] != None {
        var value := cellValues[j, i].value;
        UpdateDomains(i, j, value, Remove);
        cellValues[j, i] := None;
      }
    }

    /** The `keydown` handler: Backspace erases, a key reading as 1..9 toggles. */
    method KeyDown(key: Key, selected: Option<Cell>)
      requires Valid()
      requires selected.Some? ==> InGrid(selected.value.i, selected.value.j)
      modifies cellDomains, cellValues
      ensures key.Backspace? && selected.Some? ==> Erased(selected.value.i, selected.value.j)
      ensures key.Other? && selected.Some? && KeyNumber(key).Some? && 1 <= KeyNumber(key).value <= 9 ==>
        Toggled(selected.value.i, selected.value.j, KeyNumber(key).value)
      ensures selected.None? || (key.Other? && !(KeyNumber(key).Some? && 1 <= KeyNumber(key).value <= 9)) ==>
        unchanged(cellDomains, cellValues)
      ensures old(WellFormed()) ==> WellFormed()
    {
      if key.Backspace? && selected.Some? {
        Erase(selected.value.i, selected.value.j);
        return;
      }
      var number := KeyNumber(key);
      if number.Some? && 1 <= number.value <= 9 && selected.Some? {
        Toggle(selected.value.i, selected.value.j, number.value);
      }
    }
  }

  /** A new grid with 5 assigned to `(3, 4)`: column 3 loses 5, cell `(1, 0)` keeps it. */
  method FiveAtThreeFour() returns (g: Grid)
    ensures g.Valid() && fresh(g.cellDomains) && fresh(g.cellValues)
    ensures forall x, y | InGrid(x, y) :: g.originalValues[y, x] == None
    ensures forall x, y | InGrid(x, y) :: g.cellValues[y, x] == if x == 3 && y == 4 then Some(5) else None
    ensures 5 in g.cellDomains[0, 1]
  {
    g := new Grid();
    assert g.cellValues[4, 3] == None && 5 in g.cellDomains[4, 3];
    label Fresh:
    g.Toggle(3, 4, 5);
    assert g.DomainsRemoved@Fresh(3, 4, 5);
    assert Visits(3, 4, 1, 0) == 0;
  }

  /**
   * The transposed scan lets a clear put back a value that a cell of the
   * same column still holds. On a new grid: assign 5 to `(3, 4)`, then
   * assign 5 to `(1, 0)` and clear it again. The list of `(3, 0)` holds 5
   * once more, although `(3, 4)`, in column 3 as well, is still 5.
   */
  method ClearReadmitsValueHeldInColumn() returns (g: Grid)
    ensures g.Valid()
    ensures g.cellValues[4, 3] == Some(5) && 5 in g.cellDomains[0, 3]
  {
    g := FiveAtThreeFour();
    g.Toggle(1, 0, 5);
    assert forall x, y | InGrid(x, y) :: g.cellValues[y, x] == if (x == 3 && y == 4) || (x == 1 && y == 0) then Some(5) else None;
    g.Toggle(1, 0, 5);
    assert forall x, y | InGrid(x, y) :: g.cellValues[y, x] == if x == 3 && y == 4 then Some(5) else None;
    assert g.NoneAssignedInRegion(0, 3, 5);
  }
}
