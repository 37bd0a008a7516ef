/** The pairwise differencer: for two numbered cells whose blocks overlap,
    the generalised subset-difference rule, tried on every pair the
    half-window scan meets. */
module Differ {
  import opened Cells
  import opened Views

  /** The conditional swap at the start of diff: the pair comes back with
      the smaller value first. */
  function Order(c1: Cell, c2: Cell): (r: (Cell, Cell))
    ensures r.0.Int() <= r.1.Int()
    ensures r == (c1, c2) || r == (c2, c1)
  {
    if c1.Gt(c2) then (c2, c1) else (c1, c2)
  }

  /** The subset-difference rule for one pair. With `n <= m` the two values,
      `A` the untapped neighbours only the lower cell has and `C` those only
      the higher cell has: when `m - n == |C|` the unknown cells of `C` are
      mines and all of `A` is safe. */
  function Diff(v: View, cell1: Cell, cell2: Cell): (r: Found)
    requires v.Interior(cell1.Pt()) && v.Interior(cell2.Pt())
    ensures forall p :: p in r.mines ==> v.UnknownAt(p)
    ensures r.mines !! r.safe
  {
    var (c1, c2) := Order(cell1, cell2);
    var sub1 := v.GetSub(c1);
    var sub2 := v.GetSub(c2);
    var n := sub1[4].Int();
    var m := sub2[4].Int();
    var list1 := FilterAround(sub1);
    var list2 := FilterAround(sub2);
    var a := Sub(list1, list2);
    var c := Sub(list2, list1);
    SubSpec(list1, list2);
    SubSpec(list2, list1);
    if m - n == |c| then Found((set p | p in c && v.UnknownAt(p)), a)
    else Found({}, {})
  }

  /** Diff in terms of neighbour sets: the lower and higher cell of the pair
      contribute their untapped neighbours, and the rule fires exactly when
      the value gap equals the number of untapped cells only the higher one
      sees. */
  lemma DiffExact(v: View, cell1: Cell, cell2: Cell)
    requires v.Interior(cell1.Pt()) && v.Interior(cell2.Pt())
    ensures var (lo, hi) := Order(cell1, cell2);
            var n1, n2 := UnTapNbrs(v, lo.Pt()), UnTapNbrs(v, hi.Pt());
            var n, m := v.GetCell(lo.row, lo.col).Int(), v.GetCell(hi.row, hi.col).Int();
            Diff(v, cell1, cell2) ==
              if m - n == |n2 - n1| then Found((set p | p in n2 - n1 && v.UnknownAt(p)), n1 - n2)
              else Found({}, {})
  {
    var (lo, hi) := Order(cell1, cell2);
    AroundUnTap(v, lo);
    AroundUnTap(v, hi);
    SubSpec(Around(v, lo), Around(v, hi));
    SubSpec(Around(v, hi), Around(v, lo));
    assert v.GetSub(lo)[4] == v.GetCell(lo.row, lo.col);
    assert v.GetSub(hi)[4] == v.GetCell(hi.row, hi.col);
  }

  /** A revealed interior cell counts exactly the mines among its untapped
      neighbours. */
  lemma CountsUnTapped(v: View, sol: set<Point>, c: Point)
    requires Consistent(v, sol) && v.Interior(c) && v.StateAt(c).Revealed?
    ensures |sol * UnTapNbrs(v, c)| == v.StateAt(c).count
  {
    assert sol * Neighbours(c) == sol * UnTapNbrs(v, c) by {
      forall q | q in sol * Neighbours(c) ensures q in UnTapNbrs(v, c) {
        assert v.UnTapAt(q);
      }
    }
  }

  /** The members of `x` among `sol` split into those outside `y` and
      those inside it. */
  lemma SplitCount<T>(sol: set<T>, x: set<T>, y: set<T>)
    ensures |sol * x| == |sol * (x - y)| + |sol * (x * y)|
  {
    assert sol * x == sol * (x - y) + sol * (x * y);
    assert sol * (x - y) !! sol * (x * y);
  }

  /** A set splits into its members in `sol` and the rest. */
  lemma SplitBy<T>(c: set<T>, sol: set<T>)
    ensures |c| == |sol * c| + |c - sol|
  {
    assert c == sol * c + (c - sol);
    assert sol * c !! c - sol;
  }

  /** The counting argument behind the rule: with `n1`, `n2` holding `n`
      and `m` mines, a gap `m - n` equal to the size of `n2 - n1` forces
      every cell of `n2 - n1` to be a mine and none of `n1 - n2`. */
  lemma DifferenceArgument(sol: set<Point>, n1: set<Point>, n2: set<Point>, n: int, m: int)
    requires |sol * n1| == n && |sol * n2| == m && m - n == |n2 - n1|
    ensures n2 - n1 <= sol && (n1 - n2) !! sol
  {
    SplitCount(sol, n1, n2);
    SplitCount(sol, n2, n1);
    assert n2 * n1 == n1 * n2;
    SplitBy(n2 - n1, sol);
    assert (n2 - n1) - sol == {};
    assert sol * (n1 - n2) == {};
    forall q | q in n2 - n1 ensures q in sol {
      assert q !in (n2 - n1) - sol;
    }
    forall q | q in n1 - n2 ensures q !in sol {
      assert q !in sol * (n1 - n2);
    }
  }

  /** On a board with a consistent mine placement, the mines Diff reports
      are mines and the safe cells it reports are not, for any two revealed
      interior cells. */
  lemma DiffSound(v: View, sol: set<Point>, cell1: Cell, cell2: Cell)
    requires Consistent(v, sol)
    requires v.Interior(cell1.Pt()) && v.Interior(cell2.Pt())
    requires v.StateAt(cell1.Pt()).Revealed? && v.StateAt(cell2.Pt()).Revealed?
    ensures Diff(v, cell1, cell2).Agrees(sol)
  {
    DiffExact(v, cell1, cell2);
    var (lo, hi) := Order(cell1, cell2);
    var n1, n2 := UnTapNbrs(v, lo.Pt()), UnTapNbrs(v, hi.Pt());
    var n, m := v.GetCell(lo.row, lo.col).Int(), v.GetCell(hi.row, hi.col).Int();
    if m - n == |n2 - n1| {
      CountsUnTapped(v, sol, lo.Pt());
      CountsUnTapped(v, sol, hi.Pt());
      DifferenceArgument(sol, n1, n2, n, m);
    }
  }

  /** A pair the scan meets: skipped unless the other cell is a nonzero
      number. */
  function PairAt(v: View, main: Cell, cell: Cell): (r: Found)
    requires v.Interior(main.Pt()) && v.Interior(cell.Pt())
    ensures forall p :: p in r.mines ==> v.UnknownAt(p)
  {
    if cell.IsUnTap() || cell.Int() == 0 then Found({}, {}) else Diff(v, main, cell)
  }

  /** Away from the margins FindDiff leaves, the half-window of `p` and
      the 3×3 block of each of its cells are on the board. */
  lemma RelInterior(v: View, p: Point)
    requires 1 <= p.x < v.Rows() - 3 && 3 <= p.y < v.Cols() - 3
    ensures v.Interior(p) && v.RelInBounds(p)
    ensures forall k :: 1 <= k < 13 ==> v.Interior(p.GetRel()[k])
  {
  }

  /** The inner loop of FindDiff from position `k` of the half-window
      `list` on: the reports of every pair the centre forms with a cell
      there, pooled. */
  function PairsFrom(v: View, main: Cell, list: seq<Cell>, k: int): (r: Found)
    requires v.Interior(main.Pt()) && 1 <= k <= |list| == 13
    requires forall t :: 1 <= t < 13 ==> v.Interior(list[t].Pt())
    ensures forall p :: p in r.mines ==> v.UnknownAt(p)
    decreases 13 - k, 1
  {
    if k == 13 then Found({}, {}) else PairsStep(v, main, list, k)
  }

  /** Position `k` of the inner loop: the pair with the cell there, pooled
      with the rest of the loop. */
  function PairsStep(v: View, main: Cell, list: seq<Cell>, k: int): (r: Found)
    requires v.Interior(main.Pt()) && 1 <= k < |list| == 13
    requires forall t :: 1 <= t < 13 ==> v.Interior(list[t].Pt())
    ensures forall p :: p in r.mines ==> v.UnknownAt(p)
    decreases 13 - k, 0
  {
    PairAt(v, main, list[k]).Plus(PairsFrom(v, main, list, k + 1))
  }

  /** What FindDiff's loop body adds for the centre at row `i`, column `j`:
      the rule for the centre and each of the twelve other cells of its
      half-window. */
  function DiffAt(v: View, i: int, j: int): (r: Found)
    requires 1 <= i < v.Rows() - 3 && 3 <= j < v.Cols() - 3
    ensures forall p :: p in r.mines ==> v.UnknownAt(p)
  {
    var main := v.GetCell(i, j);
    if main.IsUnTap() || main.Int() == 0 then Found({}, {})
    else
      RelInterior(v, main.Pt());
      PairsFrom(v, main, v.GetRel(main), 1)
  }

  /** The pairwise rule over every centre in rows 1 up to four before the
      last and columns 3 up to four before the last; these margins keep the
      half-window and both 3×3 blocks on the board. */
  function FindDiff(v: View): (r: Found)
    ensures forall p :: p in r.mines ==> v.UnknownAt(p)
  {
    Found(set i, j, p | 1 <= i < v.Rows() - 3 && 3 <= j < v.Cols() - 3 && p in DiffAt(v, i, j).mines :: p,
          set i, j, p | 1 <= i < v.Rows() - 3 && 3 <= j < v.Cols() - 3 && p in DiffAt(v, i, j).safe :: p)
  }

  /** On a board with a consistent placement, the pair a revealed centre
      forms with a cell read from the board reports rightly. */
  lemma PairAtSound(v: View, sol: set<Point>, main: Cell, cell: Cell)
    requires Consistent(v, sol)
    requires v.Interior(main.Pt()) && v.Interior(cell.Pt())
    requires v.StateAt(main.Pt()).Revealed? && cell == v.GetCell(cell.row, cell.col)
    ensures PairAt(v, main, cell).Agrees(sol)
  {
    StatePredicates(cell);
    if !(cell.IsUnTap() || cell.Int() == 0) {
      DiffSound(v, sol, main, cell);
    }
  }

  /** The inner loop's pooled report is right about `sol` when the report
      of every pair from position `k` on is. */
  lemma {:induction false} PairsFromAgrees(v: View, sol: set<Point>, main: Cell, list: seq<Cell>, k: int)
    requires v.Interior(main.Pt()) && 1 <= k <= |list| == 13
    requires forall t :: 1 <= t < 13 ==> v.Interior(list[t].Pt())
    requires forall t :: k <= t < 13 ==> PairAt(v, main, list[t]).Agrees(sol)
    ensures PairsFrom(v, main, list, k).Agrees(sol)
    decreases 13 - k
  {
    if k < 13 {
      PairsFromAgrees(v, sol, main, list, k + 1);
    }
  }

  /** On a board with a consistent placement, the centre at row `i`,
      column `j` reports rightly with every cell of its half-window. */
  lemma DiffAtSound(v: View, sol: set<Point>, i: int, j: int)
    requires Consistent(v, sol)
    requires 1 <= i < v.Rows() - 3 && 3 <= j < v.Cols() - 3
    ensures DiffAt(v, i, j).Agrees(sol)
  {
    var main := v.GetCell(i, j);
    StatePredicates(main);
    if !(main.IsUnTap() || main.Int() == 0) {
      RelInterior(v, main.Pt());
      var list := v.GetRel(main);
      forall t | 1 <= t < 13 ensures PairAt(v, main, list[t]).Agrees(sol) {
        PairAtSound(v, sol, main, list[t]);
      }
      PairsFromAgrees(v, sol, main, list, 1);
    }
  }

  /** Every mine and safe cell FindDiff reports is right about any
      consistent placement. */
  lemma FindDiffSound(v: View, sol: set<Point>)
    requires Consistent(v, sol)
    ensures FindDiff(v).Agrees(sol)
  {
    forall i, j | 1 <= i < v.Rows() - 3 && 3 <= j < v.Cols() - 3
      ensures DiffAt(v, i, j).Agrees(sol)
    {
      DiffAtSound(v, sol, i, j);
    }
  }
}
