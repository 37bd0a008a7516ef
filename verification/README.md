# Minesweeper deduction engine, modelled in Dafny

This project models the deduction core of a Minesweeper helper. The helper
reads a screenshot into a rectangular grid of cells and then works on
integers only. Each cell is Unknown (`'_'`, value -3), Flag (`'f'`, value -1)
or Revealed with a count from 0 to 8. Four rules run over the grid and
report cells that are certainly mines and cells that are certainly safe:

- **mine saturation** (`FindBoom`);
- **safe saturation** (`FindNum`);
- **the pairwise subset-difference rule** (`FindDiff`/`diff`);
- **the cluster prober** (`FindWa`, with `GetRelBig`, `Wa`, `wa2`, `wa3`, `Count`, `Cmn`).

The solve loop `finder` runs the four rules, flags every mine they report,
and starts again until a round reports no mine.

The modules follow the program's layers:

| file | module | models |
|---|---|---|
| `cell.dfy` | `Cells` | `biz/cell/cell.go`: points, `GetSub`/`GetRel`, `Index`, the cell state and its transitions |
| `view.dfy` | `Views` | `biz/view/view.go`: the board, addressing, the list filters, `Sub`/`And`, `SetFlag`/`Reset` |
| `saturation.dfy` | `Saturation` | `FindBoom`, `FindNum` |
| `differ.dfy` | `Differ` | `FindDiff`, `diff` |
| `combos.dfy` | `Combos` | `Count`, `Cmn` |
| `cluster.dfy` | `Cluster` | `FindWa`, `Wa`, `wa2`, `wa3`, `GetRelBig` |
| `solver.dfy` | `Solver` | `finder` in `main.go` |

The board is a `View`: a row-major `seq<State>` and a positive width. Cells are
identified by position. Every rule returns a `set<Point>` where the Go code
returns a slice, so the model drops the order of the reports and any
repetition. `FindBoom` and `FindNum`, for instance, append in scan order and
repeat a cell that two saturated centres share. For `Sub`, `And` and `wa3` the
Go order is not even fixed, because they collect through maps.

Two kinds of property are proved.

- **Exactness.** Some steps are shown to compute a definition written in terms
  of neighbour sets: the loop bodies of `FindBoom` and `FindNum`
  (`BoomAtExact`, `NumAtExact`), `diff` (`DiffExact`), `wa2` and `wa3`, one
  hypothesis of `Wa` (`WaOneExact`), the half-window of `GetRelBig`, and the
  map helpers `Sub` and `And`, which are set difference and intersection. For
  example, `FindBoom` reports exactly the unknown neighbours of mine-saturated
  cells. The scans `FindDiff` and `FindWa` are covered by soundness only.
- **Soundness.** `Consistent(v, sol)` says that a mine placement `sol` agrees
  with the board. For every such placement, each rule, one round and `finder`
  itself only report mines that are in `sol` and safe cells that are not.

## Model

| member | source | states |
|---|---|---|
| `Cells.Point.GetSub` | biz/cell/cell.go:36-52 | nine points with the point itself at index 4; every point is within one row and one column, and every such point is listed |
| `Cells.Point.GetRel` | biz/cell/cell.go:18-34 | thirteen points with the point itself at index 0; the other twelve are exactly the half-window: columns +1, +2 on the same row, and columns -2..+2 on the two rows below |
| `Cells.GetSubDistinct` | biz/cell/cell.go:44-50 | the nine block points are pairwise distinct, and the eight other than index 4 are exactly the neighbours |
| `Cells.PairCoveredOnce` | biz/cell/cell.go:18-34 | of two distinct points at most two rows and two columns apart, exactly one lies in the other's half-window, so the pair scan meets each pair once |
| `Cells.TimesProduct` | biz/cell/cell.go:140-142 | the repeated-addition product used for `x*base` is multiplication |
| `Cells.IndexInverse` | biz/cell/cell.go:140-146 | for a column in `[0, base)`, division and remainder by `base` recover the row and column from the index |
| `Cells.IndexInjective` | biz/cell/cell.go:140-146 | within a row width, two positions share an index exactly when they are equal |
| `Cells.IndexOf` | biz/cell/cell.go:140-142 | every index is the index of its quotient row and remainder column |
| `Cells.StatePredicates` | biz/cell/cell.go:103-117 | untapped iff flag or unknown; flag and unknown exclusive; untapped iff the value is negative; glyph `'0'` iff value 0 for a revealed cell |
| `Cells.SetFlagProperties` | biz/cell/cell.go:119-123 | the cell becomes a flag with value -1 at the same position, and a second call changes nothing |
| `Cells.SetUnknownProperties` | biz/cell/cell.go:125-129 | the cell becomes unknown with value -3 at the same position |
| `Views.GetIndexInRange` | biz/view/view.go:41-50 | an on-board position's linear index addresses an existing cell |
| `Views.View.GetSub` | biz/view/view.go:53-58 | nine cells, each the board's cell at the matching block point |
| `Views.View.GetRel` | biz/view/view.go:61-66 | thirteen cells, each the board's cell at the matching half-window point |
| `Views.View.SetFlag` | biz/view/view.go:188-191 | the cell at the position becomes a flag and every other cell keeps its state |
| `Views.View.Reset` | biz/view/view.go:308-311 | the cell at the position becomes unknown and every other cell keeps its state |
| `Views.View.FlagAll` | main.go:526-529 | flagging a set of positions makes exactly those cells flags and leaves the rest |
| `Views.FlagAllStep` | main.go:527-529 | flagging a set at once equals flagging one member with `SetFlag` after the rest, so the order of the loop does not matter |
| `Views.FlagAllUnknowns` | main.go:526-530 | flagging a set of unknown cells removes exactly those from the unknown cells, so their number drops by the set's size |
| `Views.FilterPrefixMembers` | biz/view/view.go:347-355 | after `n` iterations, a filter loop holds exactly the cells of its kind among the first `n` |
| `Views.FilterMembers` | biz/view/view.go:338-355 | `filterFlag`/`filterUnKnown` keep exactly the cells of their kind |
| `Views.FilterPrefixDistinct` | biz/view/view.go:338-355 | filtering a list without repeated positions leaves such a list |
| `Views.AroundFacts` | biz/view/view.go:333-336 | dropping index 4 of the block leaves eight cells read from the board, at distinct positions, which are exactly the neighbours |
| `Views.AroundUnknown` | biz/view/view.go:347-355 | the unknown cells around a cell sit at exactly its unknown neighbours, each once |
| `Views.AroundFlag` | biz/view/view.go:338-345 | the flagged cells around a cell sit at exactly its flagged neighbours, each once |
| `Views.AroundUnTap` | biz/view/view.go:170-179 | the untapped cells counted around a cell are exactly its untapped neighbours |
| `Views.MarkUnTapSpec` | biz/view/view.go:287-299 | the two marking loops of `Sub` add the untapped positions as keys with the given value and keep every other key |
| `Views.MarkAllSpec` | biz/view/view.go:314-318 | the first loop of `And` adds every position as a key set to false |
| `Views.MarkPresentSpec` | biz/view/view.go:319-324 | the second loop of `And` sets to true exactly the existing keys met in the second list |
| `Views.SubSpec` | biz/view/view.go:286-306 | `Sub` is the untapped positions of the first list minus those of the second |
| `Views.AndSpec` | biz/view/view.go:313-331 | `And` is the intersection of the positions of the two lists |
| `Saturation.BoomAtExact` | biz/view/view.go:159-182 | a centre's loop body emits its unknown neighbours exactly when it is a nonzero number whose untapped neighbours equal its number, and nothing otherwise |
| `Saturation.NumAtExact` | biz/view/view.go:203-225 | a centre's loop body emits its unknown neighbours exactly when it is a nonzero number whose flagged neighbours equal its number, and nothing otherwise |
| `Saturation.FindBoom` | biz/view/view.go:148-186 | a position is reported iff it is unknown and a neighbour of some mine-saturated interior cell |
| `Saturation.FindNum` | biz/view/view.go:193-229 | a position is reported iff it is unknown and a neighbour of some safe-saturated interior cell |
| `Saturation.MineSaturatedSound` | biz/view/view.go:149-150 | with as many untapped neighbours as its number, every unknown neighbour is a mine of any consistent placement |
| `Saturation.SafeSaturatedSound` | biz/view/view.go:194-195 | with as many flagged neighbours as its number, no unknown neighbour is a mine of any consistent placement |
| `Saturation.FindBoomSound` | biz/view/view.go:148-186 | every position `FindBoom` reports is a mine of any consistent placement |
| `Saturation.FindNumSound` | biz/view/view.go:193-229 | no position `FindNum` reports is a mine of any consistent placement |
| `Differ.Order` | biz/view/view.go:263-266 | the swap returns the same two cells with the smaller value first |
| `Differ.Diff` | biz/view/view.go:263-284 | reported mines are unknown cells, and no cell is reported both as a mine and as safe |
| `Differ.DiffExact` | biz/view/view.go:263-284 | with `A`/`C` the untapped neighbours only the lower/higher cell has: when `m - n == C`, mines are the unknown cells of `C` and safe is `A`; otherwise nothing |
| `Differ.DifferenceArgument` | biz/view/view.go:232-235 | if the two sets hold `n` and `m` mines and `m - n` is the size of `C`, then `C` is all mines and `A` holds none |
| `Differ.DiffSound` | biz/view/view.go:263-284 | for two revealed interior cells, the reports are right about any consistent placement |
| `Differ.RelInterior` | biz/view/view.go:242-248 | within `FindDiff`'s loop ranges the half-window and each of its cells' blocks are on the board |
| `Differ.PairAt` | biz/view/view.go:250-256 | the pair's reported mines are unknown cells |
| `Differ.PairsFrom` | biz/view/view.go:249-257 | the inner loop's pooled mines are unknown cells |
| `Differ.PairsStep` | biz/view/view.go:249-257 | one inner-loop step's pooled mines are unknown cells |
| `Differ.DiffAt` | biz/view/view.go:244-257 | one centre's reported mines are unknown cells |
| `Differ.FindDiff` | biz/view/view.go:231-261 | every reported mine is an unknown cell |
| `Differ.PairAtSound` | biz/view/view.go:250-256 | one pair's reports are right about any consistent placement |
| `Differ.PairsFromAgrees` | biz/view/view.go:249-257 | the inner loop's pooled reports are right when every pair's are |
| `Differ.DiffAtSound` | biz/view/view.go:244-257 | one centre's reports are right about any consistent placement |
| `Differ.FindDiffSound` | biz/view/view.go:231-261 | every mine and safe cell `FindDiff` reports is right about any consistent placement |
| `Combos.CountSpec` | biz/view/view.go:489-500 | the count is the number of set bits in the list, and the list is the shortest little-endian spelling of `x` (empty for `x <= 0`, ending in a set bit otherwise) |
| `Combos.BitLength` | biz/view/view.go:489-500 | the list's length is the bit length: `2^(len-1) <= x < 2^len` |
| `Combos.CmnFrom` | biz/view/view.go:505-510 | the loop keeps, in increasing order, exactly the numbers in its range with `n` set bits |
| `Combos.Cmn` | biz/view/view.go:502-512 | every pattern has at most `m` bits, `n` of them set, and a value in `[1, 2^m)`; the values increase; every such number's pattern is listed |
| `Combos.CmnSize` | biz/view/view.go:502-512 | for `n >= 1`, `Cmn(m, n)` lists C(m, n) patterns |
| `Combos.TallyBinomial` | biz/view/view.go:505-510 | exactly C(m, n) numbers below `2^m` have `n` set bits |
| `Cluster.Strike` | biz/view/view.go:452-460 | the pass fails iff some position of `sub` is not a key; otherwise it keeps the keys and clears exactly the positions of `sub` |
| `Cluster.Wa3` | biz/view/view.go:445-467 | the strict subtraction fails iff some position of `sub` is not in `list`, and otherwise returns `list` minus those positions |
| `Cluster.UnknownAroundSpec` | biz/view/view.go:473-480 | `wa2`'s list for a cell holds unknown cells at exactly its unknown neighbours, each once |
| `Cluster.PacksStep` | biz/view/view.go:476-485 | one step of `wa2`: the cells pack into `acc` iff the first fits and the rest pack into what it leaves |
| `Cluster.Strip` | biz/view/view.go:476-485 | the subtraction loop succeeds iff the cells' unknown neighbours lie in `acc` and are pairwise disjoint; then it returns `acc` minus their union |
| `Cluster.Wa2` | biz/view/view.go:469-487 | `wa2` succeeds iff the chosen cells' unknown neighbours lie among the centre's and do not overlap; then it returns the centre's unknown neighbours minus theirs |
| `Cluster.StripMeet` | biz/view/view.go:476-485 | after a successful subtraction the residual holds as many members of any set as `acc` did, less those in each cell's unknown neighbours |
| `Cluster.BudgetMines` | biz/view/view.go:420-425 | a revealed cell's number less its flags is the number of mines among its unknown neighbours in any consistent placement |
| `Cluster.BudgetSumMines` | biz/view/view.go:417-423 | the chosen cells' summed budgets are the summed mine counts of their unknown neighbours |
| `Cluster.Chosen` | biz/view/view.go:417-423 | the chosen cells are as many as the set bits, each a cell of `sub` |
| `Cluster.ChosenPick` | biz/view/view.go:417-423 | position k of the chosen cells is the cell of `sub` at the set bit with k set bits before it |
| `Cluster.ChosenHit` | biz/view/view.go:417-423 | every set bit i puts `sub[i]` into the chosen cells, at the position counting the set bits before i |
| `Cluster.ChosenPicks` | biz/view/view.go:417-423 | the chosen cells are exactly the cells of `sub` at the set bits, in order, each once per set bit |
| `Cluster.Verdict` | biz/view/view.go:426-440 | a hypothesis never reports both mines and safe cells, and reports something only when the budget does not overflow and the subtraction succeeds, and then it reports the residual |
| `Cluster.VerdictAgrees` | biz/view/view.go:426-440 | if the residual holds exactly the mines the budget leaves, the verdict is right |
| `Cluster.WaOne` | biz/view/view.go:413-441 | one hypothesis reports only unknown neighbours of the centre, and never both mines and safe cells |
| `Cluster.Wa` | biz/view/view.go:403-443 | every position `Wa` reports is an unknown neighbour of the centre |
| `Cluster.ResidualMines` | biz/view/view.go:425-435 | when `wa2` succeeds, the residual holds exactly `mainCount - sum` mines of any consistent placement |
| `Cluster.WaOneExact` | biz/view/view.go:417-440 | a hypothesis reports the residual as mines exactly when the chosen cells pack into the centre's unknown neighbours, their budget fits and the residual has room for exactly the rest; and as safe exactly when they pack, the budgets are equal and the residual is non-empty |
| `Cluster.WaOneSound` | biz/view/view.go:413-441 | one hypothesis about a revealed centre and revealed cells is right about any consistent placement |
| `Cluster.OffsetRoundTrip` | biz/view/view.go:551-553 | every window position is visited at a step in `[0, 25)` that maps back to it |
| `Cluster.SharedSpec` | biz/view/view.go:567-569 | pruning steps 1 and 2 measure how many unknown neighbours the two cells share |
| `Cluster.OutsideSpec` | biz/view/view.go:578 | pruning step 3 measures how many unknown neighbours of the cell lie outside the centre's |
| `Cluster.KeepCellExact` | biz/view/view.go:563-583 | the pruning keeps a cell iff it is a nonzero number sharing at least two unknown neighbours with the centre and having none outside the centre's |
| `Cluster.SkippedCorners` | biz/view/view.go:555-559 | the product test skips exactly the four corners and the centre of the 5×5 window |
| `Cluster.VisitKeeps` | biz/view/view.go:555-583 | the loop body keeps the window cell iff it is a probe: in the window, revealed, nonzero, with at least two unknown neighbours, all among the centre's |
| `Cluster.ScanIsWindow` | biz/view/view.go:551-584 | the loop keeps exactly the probes, in step order |
| `Cluster.WindowSound` | biz/view/view.go:551-584 | every kept cell is read from the board at a kept position in the window |
| `Cluster.WindowComplete` | biz/view/view.go:551-584 | every kept position in the window is kept |
| `Cluster.WindowOrdered` | biz/view/view.go:551-584 | the kept cells are in strictly increasing step order |
| `Cluster.ProbesFacts` | biz/view/view.go:551-584 | the loop's result lists each probe once, in step order, each a revealed cell read from the board |
| `Cluster.GetRelBigAnswers` | biz/view/view.go:539-589 | `GetRelBig` answers iff the centre is a nonzero number with at least five unknown neighbours and at least two probes |
| `Cluster.GetRelBigProbes` | biz/view/view.go:539-589 | an answer lists every probe once, in step order, each a revealed cell read from the board |
| `Cluster.WaFrom` | biz/view/view.go:385-397 | the subset-size loop reports only unknown neighbours of the centre |
| `Cluster.WaAt` | biz/view/view.go:368-397 | one centre's reports are unknown neighbours of it |
| `Cluster.FindWa` | biz/view/view.go:357-401 | every reported mine and safe cell is unknown |
| `Cluster.WaSound` | biz/view/view.go:403-443 | every hypothesis of one subset size is right about any consistent placement |
| `Cluster.WaFromSound` | biz/view/view.go:385-397 | the subset-size loop's reports are right about any consistent placement |
| `Cluster.FindWaSound` | biz/view/view.go:357-401 | every mine and safe cell `FindWa` reports is right about any consistent placement |
| `Solver.Round` | main.go:512-524 | a round's mines are unknown cells, and it pools the four rules' reports |
| `Solver.RoundSound` | main.go:512-524 | a round's reports are right about any consistent placement |
| `Solver.RoundMinesUnknown` | main.go:526-529 | a round's mines are among the board's unknown cells, so flagging them shrinks the unknown cells |
| `Solver.Finder` | main.go:511-542 | `finder` keeps the board's shape; it terminates because each recursing round flags at least one unknown cell |
| `Solver.FinderFirstRound` | main.go:526-541 | `finder` keeps the first round's reports; it reports no mine iff the first round reports none, and then it leaves the board unchanged |
| `Solver.FinderMinesUnknown` | main.go:526-532 | every mine `finder` reports was an unknown cell |
| `Solver.FinderFlags` | main.go:526-532 | the board `finder` leaves has every reported mine flagged and every other cell as it was |
| `Solver.FinderFixedPoint` | main.go:526-534 | a further round on the board `finder` leaves reports no mine |
| `Solver.FlagMinesConsistent` | main.go:526-530 | flagging mines of a consistent placement keeps the placement consistent |
| `Solver.FinderSound` | main.go:511-542 | on a board with a consistent placement, every mine `finder` reports is a mine and every safe cell is not |

## Left out

- The image pipeline in `main.go` and all of `img/img.go` are left out: colour quantisation, grid detection and the OpenCV calls. The model starts from the classified grid.
- Printing is left out: `Show`, `Show2`, `Show3`, `showCell`, `String`, `S`, and the print in `SetFlag`, `SetUnknown` and `Tap`. `Tap` only prints, so a safe cell changes nothing on the board.
- The cell's image fields (`mat`, `centerX`, `centerY`) and the methods `Step` and `Point` are left out. Only position and classification remain.
- Output order and repetition are left out. Every rule returns a set of positions, so neither the order of the Go slices nor a cell reported twice is modelled. `FindBoom` and `FindNum` append in a fixed scan order. `Sub`, `And` and `wa3` range over a Go map, whose order varies, and `FindDiff` and `FindWa` inherit that order.
- The Go maps are keyed by the linear index `Index(row, col, cols)`; the model keys them by position. `Cells.IndexInjective` shows the two keyings agree on on-board cells.
- Out-of-range reads: `GetCell` (biz/view/view.go:46-50) indexes `list[x*cols+y]` without a bounds check. An off-grid position whose index is outside the list panics, and one whose index is inside reads another cell: (1, -1) reads (0, cols-1). No caller reaches either case. The model makes an on-board position a precondition, and every caller discharges it from the loop ranges.
- `append(sub[:4], sub[5:]...)` in `FindBoom`/`FindNum` reuses `sub`'s storage. The model drops index 4, as `filterAround` does, because `sub` is not read again.
- `int(math.Pow(2, float64(m)))` in `Cmn` is modelled as the exact integer `2^m`; for the sizes used (at most 20) the float is exact.
- Flagging cell by cell: the model flags a whole set at once with `Views.View.FlagAll`, where `finder` calls `SetFlag` on each cell. `Views.FlagAllStep` shows the two agree in any order.
- Accumulated safe cells: the safe list pools every round's safe cells (main.go:530-532), and the model does the same. On a board with a consistent placement, `Solver.FinderSound` shows that no pooled safe cell is a mine.
- Differ.PairAt: the contract states only that reported mines are unknown. Which pairs are skipped is fixed by the body; `Differ.PairAtSound` states what the report means.
- Differ.PairsFrom: the contract states only that pooled mines are unknown; `Differ.PairsFromAgrees` carries its soundness.
- Differ.PairsStep: the contract states only that pooled mines are unknown; it is one step of `Differ.PairsFrom`.
- Differ.DiffAt: the contract states only that reported mines are unknown; `Differ.DiffAtSound` carries its soundness.
- Differ.FindDiff: the contract states only that reported mines are unknown. It is not characterised as a set of neighbour positions the way `FindBoom` is; `Differ.FindDiffSound` carries its soundness.
- Cluster.Verdict: the contract does not state the exact firing conditions (mines when the residual's size is the budget left, safe when no budget is left and the residual is non-empty). It states that a hypothesis never reports both, and reports only the residual of a successful subtraction; `Cluster.VerdictAgrees` shows each report is right, and `Cluster.WaOneExact` states the exact firing conditions of the hypothesis that calls it.
- Cluster.Wa: the contract states only that reports are unknown neighbours of the centre; `Cluster.WaSound` carries its soundness.
- Cluster.WaFrom: the contract states only that reports are unknown neighbours of the centre; `Cluster.WaFromSound` carries its soundness.
- Cluster.WaAt: the contract states only that reports are unknown neighbours of the centre; `Cluster.FindWaSound` carries its soundness.
- Cluster.FindWa: the contract states only that reports are unknown cells; `Cluster.FindWaSound` carries its soundness.
- Solver.Round: the contract states that a round contains each rule's report and that its mines are unknown. That the round is exactly the union of the four reports is fixed by its body.
- Cells.Point.GetSub: the contract fixes index 4 and the set of points, not the row-major order of the other eight. No caller depends on that order.
- Cells.Point.GetRel: the contract fixes index 0 and the set of points, not the order of the other twelve. The pair scan pools its reports into sets, so the order does not matter.
