# Sudoku candidate engine (JSalgo front end) in Dafny

This project models the part of the JSalgo Sudoku front end that keeps the
candidate lists of the grid up to date, and proves properties of that model.

The engine keeps three 9x9 matrices, each indexed `[row j][column i]`:

- `cellDomains`: the candidate list of every cell, `[1..9]` at the start.
- `cellValues`: the value assigned to a cell, or null.
- `originalValues`: the given value of a cell, or null.

Assigning `v` to a cell (`toggle`) strips `v` from every list in the cell's
row, column and 3x3 box, the cell's own list included. Clearing a cell (a
second `toggle` with the same digit, or Backspace) puts `v` back into those
lists. A list gets `v` back only when `v` is absent from it and a scan
(`canRestoreValue`) finds no cell holding `v`.

`Sudoku.Grid` is a class over three `array2` fields. Each of its methods
follows one function of the source, loops included. Each method's result is
stated through a two-state predicate:

- `DomainsRemoved` and `DomainsRestored` describe a whole region operation.
- `Toggled` and `Erased` describe the two clear/assign paths.

The removal is modelled exactly:

- The row-and-column loop and the box loop together reach a cell up to three
  times (`Visits`).
- Every visit takes out the first occurrence of `v` (`RemoveN`).
- When every list is duplicate-free, one visit removes `v` entirely, and the
  model proves this (`Lists.RemoveNOfDistinct`).

The generic containers `Domain<T>` and `Variable<T>` from `src/frontend/io`
are classes as well:

- A `Domain` stores its JavaScript `Set` as a duplicate-free sequence in
  insertion order. That order is what `toJSON` and `copy` iterate in.
  `hasValue` is the function `Domaines.Domain.HasValue`, membership in that
  sequence; the contracts of the other operations are stated through it.
- A `Variable` holds an optional value and a reference to a shared `Domain`.

The model follows the code where it departs from the Sudoku peer rule
(a value assigned to a cell is excluded from the row, the column and the
box of that cell, and comes back when nothing there holds it any more):

- **The restore scan is transposed.** `canRestoreValue(i, j, v)` reads
  `cellValues[k][j]`, `cellValues[i][k]` and `cellValues[x][y]`, with `x`
  starting at the box start of `i`. Every other access uses `[j][i]`. The scan
  therefore covers column `j`, row `i` and the box of the transposed cell
  `(j, i)`, not the peers of `(i, j)`. `Sudoku.Grid.CanRestoreValue` states
  exactly that. `Sudoku.TransposedScanMissesPeer` shows that off the diagonal
  the scanned region misses a real peer.
- **The two clear paths run in different orders.** `toggle` clears the cell
  and then restores. Backspace restores while the cell still holds its value,
  and clears afterwards. `Sudoku.Grid.Erase` proves one consequence: when `i`
  and `j` fall in the same third, the erased cell's own list does not get the
  value back.
- **The cell itself is part of its region.** The removal and the restore
  include the cell `(i, j)` itself.
- **There is no given-cell setup.** No code fills `originalValues`, so every
  given is null from the start.
- **Invariants are only what the code keeps.** "A list never holds a value
  assigned to one of the cell's peers" is not kept by this code, because the
  transposed scan can put a value back while a peer still holds it.
  `Sudoku.ClearReadmitsValueHeldInColumn` exhibits this on a new grid. The
  restore-before-clear order of Backspace cannot cause that: it makes the scan
  stricter, since the erased cell still counts. Instead it can withhold a value
  that is legal again. The model proves only what the code does keep: every
  list stays a duplicate-free list of values in 1..9, and every assigned value
  lies in 1..9 (`WellFormed`).

Files:

- `nullable.dfy`: `Option`, for `T | null`.
- `lists.dfy`: `indexOf`, `splice`, `push` and `Set` insertion on sequences, with their lemmas.
- `domaines.dfy`: `Domain<T>`.
- `variable.dfy`: `Variable<T>`.
- `grid.dfy`: the matrices and the candidate operations.

## Model

| member | source | states |
|---|---|---|
| Lists.IndexOf | src/frontend/index.ts:120 | the result is -1 exactly when `v` is absent; otherwise it is a position holding `v` with no earlier `v` |
| Lists.SpliceAtIndexOf | src/frontend/index.ts:119-124 | splicing out the entry at `indexOf(v)` removes exactly the first occurrence of `v`, keeping the order of the rest |
| Lists.RemoveFirstAbsent | src/frontend/index.ts:121 | removing an absent value leaves the list as it was |
| Lists.RemoveFirstMultiset | src/frontend/index.ts:122 | one removal takes out one copy of `v`, if any, and changes nothing else |
| Lists.RemoveNAdd | src/frontend/index.ts:150-164 | removals made by the line loop and then by the box loop compose into the sum of their visits |
| Lists.RemoveNOfDistinct | src/frontend/index.ts:150-164 | on a duplicate-free list, one or more visits leave the list without `v`, duplicate-free and in the old order |
| Lists.RemoveNSubset | src/frontend/index.ts:150-164 | removals never bring in a value |
| Lists.AddIfAbsentDistinct | src/frontend/index.ts:145-146 | appending `v` when absent keeps the list duplicate-free, and the members are the old ones plus `v` |
| Lists.Filter | src/frontend/io/domaines.ts:20-22 | the result lacks `v`, keeps every other member and brings in nothing |
| Lists.FilterDistinct | src/frontend/io/domaines.ts:20-22 | deleting from a duplicate-free list keeps it duplicate-free |
| Lists.RemoveFirstOfDistinct | src/frontend/io/domaines.ts:20-22 | in a duplicate-free list, removing the first occurrence is deleting every occurrence |
| Lists.FilterOfAbsent | src/frontend/io/domaines.ts:20-22 | deleting an absent member changes nothing |
| Lists.FilterIdempotent | src/frontend/io/domaines.ts:20-22 | deleting twice is deleting once |
| Lists.AddAllMembers | src/frontend/io/domaines.ts:36-42 | adding a list's entries in order gives exactly the old members and the entries |
| Lists.AddAllDistinct | src/frontend/io/domaines.ts:36-42 | adding entries one by one keeps a domain duplicate-free |
| Lists.AddAllOfDistinct | src/frontend/io/domaines.ts:24-42 | adding the members of a domain, in order, to an empty one gives the same members in the same order, so `copy` and `fromJSON(toJSON())` reproduce a domain |
| Sudoku.BoxStart | src/frontend/index.ts:127-128 | `Math.floor(i / 3) * 3` is the multiple of 3 at or below `i` and its box ends inside the grid |
| Sudoku.RestoredKeepsDistinct | src/frontend/index.ts:144-148 | a restore keeps a list duplicate-free and brings in only `v`, and only when the scan allows it |
| Sudoku.TransposedScanMissesPeer | src/frontend/index.ts:126-142 | for `i != j` some cell of the row, column or box of `(i, j)` lies outside the region the scan reads |
| Sudoku.Grid.constructor | src/frontend/index.ts:25-33 | every list is `[1, ..., 9]`, every value and every given is null, and the grid is well formed |
| Sudoku.Grid.RemoveValueFromDomain | src/frontend/index.ts:119-124 | the list of `(i, j)` loses its first `v`, order kept, with no change when `v` is absent; no other cell changes |
| Sudoku.Grid.CanRestoreValue | src/frontend/index.ts:126-142 | true exactly when no cell of column `j`, row `i` or the box of `(j, i)` holds `v` |
| Sudoku.Grid.RestoreValueToDomain | src/frontend/index.ts:144-148 | `v` is appended to the list of `(i, j)` exactly when it is absent and the scan allows it; no other cell changes |
| Sudoku.Grid.RemoveValueFromLines | src/frontend/index.ts:151-154 | each cell loses one first occurrence of `v` per line loop visit |
| Sudoku.Grid.RemoveValueFromBox | src/frontend/index.ts:156-163 | each cell of the box loses one first occurrence of `v`; cells outside keep their lists |
| Sudoku.Grid.RemoveValueFromAffectedDomains | src/frontend/index.ts:150-164 | one first-occurrence removal per visit, cells outside the region unchanged; on a well-formed grid `v` leaves every list of the region and the grid stays well formed |
| Sudoku.Grid.RestoreValueInLines | src/frontend/index.ts:167-170 | each cell of row `j` and column `i` is restored once; other cells keep their lists |
| Sudoku.Grid.RestoreValueInBox | src/frontend/index.ts:172-179 | each cell of the box is restored; other cells keep their lists |
| Sudoku.Grid.RestoreValueInAffectedDomains | src/frontend/index.ts:166-180 | every cell of the region is restored as its own scan judges, the rest unchanged; a value in 1..9 keeps the grid well formed |
| Sudoku.Grid.UpdateDomains | src/frontend/index.ts:182-188 | "add" is the region removal, "remove" the region restore, and both keep a well-formed grid well formed for a value in 1..9 |
| Sudoku.Grid.Toggle | src/frontend/index.ts:197-214 | the five cases: a given cell, an occupied cell with a different value, and an empty cell lacking `v` stay unchanged; a cell holding `v` is cleared and then restored; an empty cell with `v` among its candidates is assigned and its region stripped; a digit in 1..9 keeps the grid well formed |
| Sudoku.Grid.Erase | src/frontend/index.ts:248-261 | a given or empty cell is unchanged; otherwise the region is restored with the scan run while the cell still holds its value, then the cell becomes null; in the same-third case the erased cell's own list stays as it was; well-formedness is kept |
| Sudoku.ClearReadmitsValueHeldInColumn | src/frontend/index.ts:126-142 | after assigning 5 to (3, 4), then assigning 5 to (1, 0) and clearing it, the list of (3, 0) holds 5 while (3, 4) in the same column still holds 5 |
| Sudoku.Grid.KeyDown | src/frontend/index.ts:247-267 | Backspace with a selected cell erases it; a key reading as 1..9 with a selected cell toggles it; anything else changes nothing; well-formedness is kept |
| Domaines.Domain.constructor | src/frontend/io/domaines.ts:8-10 | a new domain has no members |
| Domaines.Domain.AddValue | src/frontend/io/domaines.ts:12-18 | afterwards `hasValue(x)` holds, every other membership is unchanged, and a new member goes last |
| Domaines.Domain.DeleteValue | src/frontend/io/domaines.ts:16-22 | afterwards `hasValue(x)` is false, every other membership is unchanged, and the order of the rest is kept |
| Domaines.Domain.Copy | src/frontend/io/domaines.ts:24-30 | a fresh domain with the same members in the same order; the receiver is unchanged |
| Domaines.Domain.ToJSON | src/frontend/io/domaines.ts:32-34 | lists each member exactly once and nothing else |
| Domaines.Domain.RoundTrip | src/frontend/io/domaines.ts:32-42 | `fromJSON(toJSON())` is a fresh domain with the same members in the same order |
| Domaines.Domain.FromJSON | src/frontend/io/domaines.ts:36-42 | a fresh domain whose members are exactly the entries of `arr`, duplicates collapsed, in first-occurrence order |
| Variables.Variable.constructor | src/frontend/io/variable.ts:8-11 | a new variable is null and refers to the given domain itself |
| Variables.Variable.SetValue | src/frontend/io/variable.ts:13-17 | the value becomes `x` when the domain holds `x` and is unchanged otherwise; the domain is untouched |
| Variables.Variable.UnsetValue | src/frontend/io/variable.ts:19-21 | the value becomes null |
| Variables.Variable.ToJSON | src/frontend/io/variable.ts:23-25 | decoding the result against the variable's own domain gives the value back when it is null or a member, and null otherwise |
| Variables.Variable.FromJSON | src/frontend/io/variable.ts:27-33 | a fresh variable bound to `d`, holding `j.value` when it is non-null and in `d`, and null otherwise; `d` is unchanged |
| Variables.Variable.RoundTrip | src/frontend/io/variable.ts:23-33 | `fromJSON(toJSON(), domain)` is a fresh variable on the same domain with the same value, whenever that value is null or a member |

## Left out

- The WebSocket live-reload client (src/frontend/index.ts:4-22) and the backend server (src/backend/index.ts): network and file-system I/O.
- All canvas drawing (`clearCanvas`, `drawCell`, `drawGroup`, `drawDomain`, `drawDomains`, `drawEmptyGrid`, `highlightCell`), including the draw calls inside `toggle` and the Backspace branch: graphics only, with no effect on the matrices.
- The mouse handlers (src/frontend/index.ts:218-245), which map pixel offsets to `selectedCell`. `Toggle` takes the selected cell as in-range coordinates `(i, j)`. `KeyDown` takes it as `Option<Cell>`.
- Sudoku.Grid.KeyDown: a key is modelled by `Number(event.key)` when that is an integer or `NaN`. A key such as "1.5" reads as a fraction between 1 and 9 and would reach `toggle`; the model does not cover it.
- The idealised invariant that no empty cell's domain holds a value assigned to one of its peers. The code does not keep it, because of the transposed scan, so no lemma claims it; `Sudoku.ClearReadmitsValueHeldInColumn` shows a grid where it fails.
- The aliasing of the 81 lists. In Dafny a candidate list is a sequence value, so the 81 lists cannot share storage. That is what `Array(9).fill([]).map(...)` achieves by giving each cell its own array.
- The unused `import { Variable }` and the `CellDomain`/`PossibleValue` type aliases of src/frontend/io/domaines.ts:1-3, which have no run-time behaviour.
- Value equality in `Set` follows JavaScript's SameValueZero. The model uses Dafny's `==`, which agrees with it for the integers the grid stores.
