/** The cluster prober (FindWa): around a numbered centre with at least
    five unknown neighbours, pick two or three nearby numbered cells whose
    unknown neighbours all lie around the centre, hypothesise that they
    cover disjoint parts of the centre's unknown cells, and draw a
    conclusion about the cells left over. */
module Cluster {
  import opened Cells
  import opened Views
  import opened Combos

  /** A partial result: the strict subtraction can fail. */
  datatype Result<T> = Ok(value: T) | Fail

  /** The second pass of wa3: every position of `sub` must already be a
      key, and is then set to false. */
  function Strike(dic: map<Point, bool>, sub: seq<Cell>): (r: Result<map<Point, bool>>)
    ensures r.Fail? <==> !(Pts(sub) <= dic.Keys)
    ensures r.Ok? ==> r.value.Keys == dic.Keys
    ensures r.Ok? ==> forall p :: p in r.value ==> r.value[p] == (dic[p] && p !in Pts(sub))
    decreases |sub|
  {
    if sub == [] then Ok(dic)
    else
      assert Pts(sub) == {sub[0].Pt()} + Pts(sub[1..]) by {
        assert forall c :: c in sub <==> c == sub[0] || c in sub[1..];
      }
      if sub[0].Pt() !in dic then Fail
      else Strike(dic[sub[0].Pt() := false], sub[1..])
  }

  /** Strict subtraction: the positions of `list` minus those of `sub`,
      failing when some position of `sub` is not in `list`. */
  function Wa3(list: set<Point>, sub: seq<Cell>): (r: Result<set<Point>>)
    ensures r.Fail? <==> !(Pts(sub) <= list)
    ensures r.Ok? ==> r.value == list - Pts(sub)
  {
    var dic := map p | p in list :: true;
    match Strike(dic, sub)
    case Fail => Fail
    case Ok(d) => Ok(TrueKeys(d))
  }

  /** The unknown cells around `c`, as wa2 collects them. */
  function UnknownAround(v: View, c: Cell): seq<Cell>
    requires v.Interior(c.Pt())
  {
    FilterUnknown(Around(v, c))
  }

  /** wa2's list for a cell holds unknown cells only, at exactly the
      cell's unknown neighbours, each once. */
  lemma UnknownAroundSpec(v: View, c: Cell)
    requires v.Interior(c.Pt())
    ensures Pts(UnknownAround(v, c)) == UnknownNbrs(v, c.Pt())
    ensures |UnknownAround(v, c)| == |UnknownNbrs(v, c.Pt())|
    ensures forall d :: d in UnknownAround(v, c) ==> d.IsUnknown()
  {
    AroundUnknown(v, c);
    FilterMembers(Around(v, c), Unknowns);
  }

  predicate AllInterior(v: View, cs: seq<Cell>) {
    forall k :: 0 <= k < |cs| ==> v.Interior(cs[k].Pt())
  }

  /** The unknown neighbours of the cells of `cs`, all together. */
  function UnionNbrs(v: View, cs: seq<Cell>): set<Point> {
    if cs == [] then {} else UnknownNbrs(v, cs[0].Pt()) + UnionNbrs(v, cs[1..])
  }

  /** The unknown neighbours of the cells of `cs` lie inside `acc` and do
      not overlap one another. */
  predicate Packs(v: View, acc: set<Point>, cs: seq<Cell>) {
    && (forall k :: 0 <= k < |cs| ==> UnknownNbrs(v, cs[k].Pt()) <= acc)
    && (forall a, b :: 0 <= a < b < |cs| ==> UnknownNbrs(v, cs[a].Pt()) !! UnknownNbrs(v, cs[b].Pt()))
  }

  /** Packing into `acc` is packing the head, then the rest into what the
      head leaves. */
  lemma PacksStep(v: View, acc: set<Point>, cs: seq<Cell>)
    requires cs != []
    ensures Packs(v, acc, cs) <==>
            UnknownNbrs(v, cs[0].Pt()) <= acc && Packs(v, acc - UnknownNbrs(v, cs[0].Pt()), cs[1..])
  {
    var u := UnknownNbrs(v, cs[0].Pt());
    var t := cs[1..];
    if Packs(v, acc, cs) {
      forall k | 0 <= k < |t| ensures UnknownNbrs(v, t[k].Pt()) <= acc - u {
        assert t[k] == cs[k + 1];
      }
      forall a, b | 0 <= a < b < |t| ensures UnknownNbrs(v, t[a].Pt()) !! UnknownNbrs(v, t[b].Pt()) {
        assert t[a] == cs[a + 1] && t[b] == cs[b + 1];
      }
    }
    if u <= acc && Packs(v, acc - u, t) {
      forall k | 0 <= k < |cs| ensures UnknownNbrs(v, cs[k].Pt()) <= acc {
        if k > 0 {
          assert cs[k] == t[k - 1];
        }
      }
      forall a, b | 0 <= a < b < |cs| ensures UnknownNbrs(v, cs[a].Pt()) !! UnknownNbrs(v, cs[b].Pt()) {
        assert cs[b] == t[b - 1];
        if a > 0 {
          assert cs[a] == t[a - 1];
        }
      }
    }
  }

  /** The loop of wa2 after the centre: subtract each cell's unknown
      neighbours in turn, stopping at the first failure. */
  function Strip(v: View, acc: set<Point>, cs: seq<Cell>): (r: Result<set<Point>>)
    requires AllInterior(v, cs)
    ensures r.Ok? <==> Packs(v, acc, cs)
    ensures r.Ok? ==> r.value == acc - UnionNbrs(v, cs)
    decreases |cs|
  {
    if cs == [] then Ok(acc)
    else
      PacksStep(v, acc, cs);
      assert AllInterior(v, cs[1..]) by {
        forall k | 0 <= k < |cs[1..]| ensures v.Interior(cs[1..][k].Pt()) {
          assert cs[1..][k] == cs[k + 1];
        }
      }
      UnknownAroundSpec(v, cs[0]);
      match Wa3(acc, UnknownAround(v, cs[0]))
      case Fail => Fail
      case Ok(rest) => Strip(v, rest, cs[1..])
  }

  /** wa2: start from the centre's unknown neighbours and strictly subtract
      each chosen cell's unknown neighbours. */
  function Wa2(v: View, main: Cell, cs: seq<Cell>): (r: Result<set<Point>>)
    requires v.Interior(main.Pt()) && AllInterior(v, cs)
    ensures r.Ok? <==> Packs(v, UnknownNbrs(v, main.Pt()), cs)
    ensures r.Ok? ==> r.value == UnknownNbrs(v, main.Pt()) - UnionNbrs(v, cs)
  {
    UnknownAroundSpec(v, main);
    Strip(v, Pts(UnknownAround(v, main)), cs)
  }

  /** The sum, over `cs`, of how many members of `s` each cell's unknown
      neighbours hold. */
  function SumMeet(v: View, s: set<Point>, cs: seq<Cell>): int {
    if cs == [] then 0 else |s * UnknownNbrs(v, cs[0].Pt())| + SumMeet(v, s, cs[1..])
  }

  /** When the strict subtraction succeeds, the residual holds as many
      members of any set `s` as `acc` does, less those in the cells'
      unknown neighbours. */
  lemma {:induction false} StripMeet(v: View, acc: set<Point>, cs: seq<Cell>, s: set<Point>)
    requires AllInterior(v, cs) && Strip(v, acc, cs).Ok?
    ensures |s * Strip(v, acc, cs).value| == |s * acc| - SumMeet(v, s, cs)
    decreases |cs|
  {
    if cs != [] {
      var u := UnknownNbrs(v, cs[0].Pt());
      UnknownAroundSpec(v, cs[0]);
      PacksStep(v, acc, cs);
      assert AllInterior(v, cs[1..]) by {
        forall k | 0 <= k < |cs[1..]| ensures v.Interior(cs[1..][k].Pt()) {
          assert cs[1..][k] == cs[k + 1];
        }
      }
      assert Strip(v, acc, cs) == Strip(v, acc - u, cs[1..]);
      StripMeet(v, acc - u, cs[1..], s);
      assert s * acc == (s * (acc - u)) + (s * u) && (s * (acc - u)) !! (s * u);
    }
  }

  /** The mines a numbered cell still has to place: its number less its
      flagged neighbours. */
  function Budget(v: View, c: Cell): int
    requires v.Interior(c.Pt())
  {
    c.Int() - |FilterFlag(Around(v, c))|
  }

  function BudgetSum(v: View, cs: seq<Cell>): int
    requires AllInterior(v, cs)
    decreases |cs|
  {
    if cs == [] then 0
    else
      assert AllInterior(v, cs[1..]) by {
        forall k | 0 <= k < |cs[1..]| ensures v.Interior(cs[1..][k].Pt()) {
          assert cs[1..][k] == cs[k + 1];
        }
      }
      Budget(v, cs[0]) + BudgetSum(v, cs[1..])
  }

  /** On a board with a consistent placement, a revealed interior cell's
      budget is the number of mines among its unknown neighbours. */
  lemma BudgetMines(v: View, sol: set<Point>, c: Cell)
    requires Consistent(v, sol) && v.Interior(c.Pt()) && c == v.GetCell(c.row, c.col)
    requires c.state.Revealed?
    ensures Budget(v, c) == |sol * UnknownNbrs(v, c.Pt())|
  {
    var p := c.Pt();
    AroundFlag(v, c);
    var u, f := UnknownNbrs(v, p), FlagNbrs(v, p);
    assert sol * Neighbours(p) == (sol * u) + f && (sol * u) !! f by {
      forall q | q in sol * Neighbours(p) ensures q in (sol * u) + f {
        assert v.UnTapAt(q);
      }
      forall q | q in f ensures q in sol * Neighbours(p) {
        assert v.FlagAt(q);
      }
    }
    assert v.StateAt(p).Revealed? && |sol * Neighbours(p)| == c.Int();
    DisjointCount(sol * u, f);
  }

  /** The size of a union of disjoint sets is the sum of their sizes. */
  lemma DisjointCount(a: set<Point>, b: set<Point>)
    requires a !! b
    ensures |a + b| == |a| + |b|
  {
    assert a * b == {};
  }

  /** The cells of `cs` that are revealed and read from the board. */
  predicate RevealedCells(v: View, cs: seq<Cell>) {
    forall k :: 0 <= k < |cs| ==> v.Interior(cs[k].Pt()) && cs[k] == v.GetCell(cs[k].row, cs[k].col) && cs[k].state.Revealed?
  }

  lemma {:induction false} BudgetSumMines(v: View, sol: set<Point>, cs: seq<Cell>)
    requires Consistent(v, sol) && RevealedCells(v, cs)
    ensures AllInterior(v, cs) && BudgetSum(v, cs) == SumMeet(v, sol, cs)
    decreases |cs|
  {
    if cs != [] {
      assert RevealedCells(v, cs[1..]) by {
        forall k | 0 <= k < |cs[1..]|
          ensures v.Interior(cs[1..][k].Pt()) && cs[1..][k] == v.GetCell(cs[1..][k].row, cs[1..][k].col) && cs[1..][k].state.Revealed?
        {
          assert cs[1..][k] == cs[k + 1];
        }
      }
      BudgetSumMines(v, sol, cs[1..]);
      BudgetMines(v, sol, cs[0]);
    }
  }

  /** The cells of `sub` whose bit is set in `one`, in order. */
  function Chosen(sub: seq<Cell>, one: seq<bool>): (r: seq<Cell>)
    requires |one| <= |sub|
    ensures |r| == Ones(one)
    ensures forall k :: 0 <= k < |r| ==> r[k] in sub
  {
    if one == [] then []
    else
      var rest := Chosen(sub[1..], one[1..]);
      var r := (if one[0] then [sub[0]] else []) + rest;
      assert forall k :: 0 <= k < |rest| ==> rest[k] in sub[1..];
      r
  }

  /** `x` is the cell of `sub` at the set bit of `one` that has `k` set
      bits before it. */
  predicate AtSetBit(sub: seq<Cell>, one: seq<bool>, k: int, x: Cell)
    requires |one| <= |sub|
  {
    exists i :: 0 <= i < |one| && one[i] && Ones(one[..i]) == k && x == sub[i]
  }

  /** Position `k` of the chosen cells is the cell of `sub` at the set bit
      with `k` set bits before it. */
  lemma {:induction false} ChosenPick(sub: seq<Cell>, one: seq<bool>, k: int)
    requires |one| <= |sub| && 0 <= k < Ones(one)
    ensures AtSetBit(sub, one, k, Chosen(sub, one)[k])
    decreases |one|
  {
    var rest := Chosen(sub[1..], one[1..]);
    var b := if one[0] then 1 else 0;
    assert Chosen(sub, one) == (if one[0] then [sub[0]] else []) + rest;
    if one[0] && k == 0 {
      assert one[..0] == [];
    } else {
      ChosenPick(sub[1..], one[1..], k - b);
      var j :| 0 <= j < |one[1..]| && one[1..][j] && Ones(one[1..][..j]) == k - b && rest[k - b] == sub[1..][j];
      assert one[..j + 1][1..] == one[1..][..j];
      assert one[j + 1] && sub[j + 1] == sub[1..][j];
      assert Ones(one[..j + 1]) == k;
    }
  }

  /** Every set bit `i` puts `sub[i]` into the chosen cells, after the
      cells of the set bits before it. */
  lemma {:induction false} ChosenHit(sub: seq<Cell>, one: seq<bool>, i: int)
    requires |one| <= |sub| && 0 <= i < |one| && one[i]
    ensures Ones(one[..i]) < |Chosen(sub, one)| && Chosen(sub, one)[Ones(one[..i])] == sub[i]
    decreases |one|
  {
    var rest := Chosen(sub[1..], one[1..]);
    var b := if one[0] then 1 else 0;
    assert Chosen(sub, one) == (if one[0] then [sub[0]] else []) + rest;
    if i == 0 {
      assert one[..0] == [];
    } else {
      ChosenHit(sub[1..], one[1..], i - 1);
      assert one[..i][1..] == one[1..][..i - 1];
      assert Ones(one[..i]) == b + Ones(one[1..][..i - 1]);
    }
  }

  /** The chosen cells are exactly the cells of `sub` at the set bits, in
      the order of `sub`: each position comes from one set bit, and each
      set bit lands at the position counting the set bits before it. */
  lemma ChosenPicks(sub: seq<Cell>, one: seq<bool>)
    requires |one| <= |sub|
    ensures forall k :: 0 <= k < |Chosen(sub, one)| ==> AtSetBit(sub, one, k, Chosen(sub, one)[k])
    ensures forall i :: 0 <= i < |one| && one[i] ==>
      Ones(one[..i]) < |Chosen(sub, one)| && Chosen(sub, one)[Ones(one[..i])] == sub[i]
  {
    forall k | 0 <= k < |Chosen(sub, one)| ensures AtSetBit(sub, one, k, Chosen(sub, one)[k]) {
      ChosenPick(sub, one, k);
    }
    forall i | 0 <= i < |one| && one[i]
      ensures Ones(one[..i]) < |Chosen(sub, one)| && Chosen(sub, one)[Ones(one[..i])] == sub[i]
    {
      ChosenHit(sub, one, i);
    }
  }

  /** The verdict of one hypothesis, from the strict subtraction's
      outcome `res`, the centre's budget and the chosen cells' total
      budget: when the budget does not overflow and the subtraction
      succeeds, the residual is all mines if it has room for exactly the
      rest of the budget, and all safe if nothing of the budget is left. */
  function Verdict(res: Result<set<Point>>, budget: int, sum: int): (r: Found)
    ensures r.mines == {} || r.safe == {}
    ensures r.mines != {} || r.safe != {} ==> res.Ok? && budget >= sum && r.mines + r.safe == res.value
  {
    if budget < sum then Found({}, {})
    else
      match res
      case Fail => Found({}, {})
      case Ok(empty) =>
        Found(if |empty| == budget - sum then empty else {},
              if budget == sum && |empty| > 0 then empty else {})
  }

  /** A verdict is right about `sol` when the residual holds exactly as
      many mines of `sol` as the budget leaves. */
  lemma VerdictAgrees(res: Result<set<Point>>, budget: int, sum: int, sol: set<Point>)
    requires res.Ok? ==> |sol * res.value| == budget - sum
    ensures Verdict(res, budget, sum).Agrees(sol)
  {
    if res.Ok? {
      CountForces(sol, res.value);
    }
  }

  /** One hypothesis of Wa: the chosen cells take `sum` of the centre's
      budget `mainCount` between them, and the residual of the centre's
      unknown neighbours is judged by Verdict. */
  function WaOne(v: View, main: Cell, sub: seq<Cell>, one: seq<bool>): (r: Found)
    requires v.Interior(main.Pt()) && AllInterior(v, sub) && |one| <= |sub|
    ensures r.mines <= UnknownNbrs(v, main.Pt()) && r.safe <= UnknownNbrs(v, main.Pt())
    ensures r.mines == {} || r.safe == {}
  {
    var tmp := Chosen(sub, one);
    ChosenInterior(v, sub, one);
    Verdict(Wa2(v, main, tmp), Budget(v, main), BudgetSum(v, tmp))
  }

  /** The chosen cells of interior cells are interior. */
  lemma ChosenInterior(v: View, sub: seq<Cell>, one: seq<bool>)
    requires AllInterior(v, sub) && |one| <= |sub|
    ensures AllInterior(v, Chosen(sub, one))
  {
    var tmp := Chosen(sub, one);
    forall k | 0 <= k < |tmp| ensures v.Interior(tmp[k].Pt()) {
      var d :| d in sub && d == tmp[k];
    }
  }

  /** When a hypothesis fires: with `u` the centre's unknown neighbours and
      `rest` what the chosen cells' unknown neighbours leave of it, the
      residual is reported as mines exactly when the chosen cells pack into
      `u`, their total budget fits the centre's, and `rest` has room for
      exactly the remainder; and as safe exactly when they pack, the
      budgets are equal and `rest` is non-empty. */
  lemma WaOneExact(v: View, main: Cell, sub: seq<Cell>, one: seq<bool>)
    requires v.Interior(main.Pt()) && AllInterior(v, sub) && |one| <= |sub|
    ensures AllInterior(v, Chosen(sub, one))
    ensures var tmp := Chosen(sub, one);
            var u := UnknownNbrs(v, main.Pt());
            var rest := u - UnionNbrs(v, tmp);
            var fits := Packs(v, u, tmp) && Budget(v, main) >= BudgetSum(v, tmp);
            WaOne(v, main, sub, one)
            == Found(if fits && |rest| == Budget(v, main) - BudgetSum(v, tmp) then rest else {},
                     if fits && Budget(v, main) == BudgetSum(v, tmp) && |rest| > 0 then rest else {})
  {
    ChosenInterior(v, sub, one);
  }

  /** Every hypothesis that picks `w` of the cells of `sub`. */
  function Wa(v: View, main: Cell, w: int, sub: seq<Cell>): (r: Found)
    requires v.Interior(main.Pt()) && AllInterior(v, sub)
    ensures r.mines <= UnknownNbrs(v, main.Pt()) && r.safe <= UnknownNbrs(v, main.Pt())
  {
    var list := Cmn(|sub|, w);
    Found(set k, p | 0 <= k < |list| && p in WaOne(v, main, sub, list[k]).mines :: p,
          set k, p | 0 <= k < |list| && p in WaOne(v, main, sub, list[k]).safe :: p)
  }

  /** A set holding exactly `n` members of `s` lies inside `s` when it has
      `n` members, and outside it when `n` is zero. */
  lemma CountForces(s: set<Point>, e: set<Point>)
    ensures |s * e| == |e| ==> e <= s
    ensures |s * e| == 0 ==> e !! s
  {
    assert e == (s * e) + (e - s) && (s * e) !! (e - s);
    if |s * e| == 0 {
      assert s * e == {};
    }
  }

  /** When the strict subtraction succeeds for a revealed centre and
      revealed chosen cells, the residual holds exactly the mines the
      centre's budget leaves after the chosen cells' budgets. */
  lemma ResidualMines(v: View, sol: set<Point>, main: Cell, tmp: seq<Cell>)
    requires Consistent(v, sol)
    requires v.Interior(main.Pt()) && main == v.GetCell(main.row, main.col) && main.state.Revealed?
    requires RevealedCells(v, tmp)
    ensures AllInterior(v, tmp)
    ensures Wa2(v, main, tmp).Ok? ==> |sol * Wa2(v, main, tmp).value| == Budget(v, main) - BudgetSum(v, tmp)
  {
    BudgetSumMines(v, sol, tmp);
    BudgetMines(v, sol, main);
    if Wa2(v, main, tmp).Ok? {
      UnknownAroundSpec(v, main);
      StripMeet(v, Pts(UnknownAround(v, main)), tmp, sol);
    }
  }

  /** The chosen cells of revealed cells are revealed. */
  lemma ChosenRevealed(v: View, sub: seq<Cell>, one: seq<bool>)
    requires RevealedCells(v, sub) && |one| <= |sub|
    ensures RevealedCells(v, Chosen(sub, one))
  {
    var tmp := Chosen(sub, one);
    forall k | 0 <= k < |tmp|
      ensures v.Interior(tmp[k].Pt()) && tmp[k] == v.GetCell(tmp[k].row, tmp[k].col) && tmp[k].state.Revealed?
    {
      var i :| 0 <= i < |sub| && sub[i] == tmp[k];
    }
  }

  /** On a board with a consistent placement, a hypothesis about a revealed
      centre and revealed cells is right whenever it concludes anything. */
  lemma WaOneSound(v: View, sol: set<Point>, main: Cell, sub: seq<Cell>, one: seq<bool>)
    requires Consistent(v, sol)
    requires v.Interior(main.Pt()) && main == v.GetCell(main.row, main.col) && main.state.Revealed?
    requires RevealedCells(v, sub) && |one| <= |sub|
    ensures AllInterior(v, sub) && WaOne(v, main, sub, one).Agrees(sol)
  {
    var tmp := Chosen(sub, one);
    ChosenRevealed(v, sub, one);
    ResidualMines(v, sol, main, tmp);
    VerdictAgrees(Wa2(v, main, tmp), Budget(v, main), BudgetSum(v, tmp), sol);
  }

  /** The 5×5 window around `p` without its four corners and `p` itself. */
  predicate InBigWindow(p: Point, q: Point) {
    Near(p, q, 2) && q != p && !((q.x - p.x == 2 || p.x - q.x == 2) && (q.y - p.y == 2 || p.y - q.y == 2))
  }

  /** The whole 5×5 window around `p`, and the 3×3 block of each of its
      cells, is on the board. */
  predicate BigInBounds(v: View, p: Point) {
    3 <= p.x < v.Rows() - 3 && 3 <= p.y < v.Cols() - 3
  }

  /** A cell GetRelBig keeps around the centre `p`: a nonzero number in the
      window whose unknown neighbours, at least two of them, all lie among
      the centre's. */
  predicate Probe(v: View, p: Point, q: Point) {
    && InBigWindow(p, q) && v.InBounds(q)
    && v.StateAt(q).Revealed? && v.StateAt(q).count > 0
    && UnknownNbrs(v, q) <= UnknownNbrs(v, p)
    && |UnknownNbrs(v, q)| >= 2
  }

  /** The window position scanned at step `off`. */
  function OffsetPoint(p: Point, off: int): Point {
    Point(p.x + off / 5 - 2, p.y + off % 5 - 2)
  }

  /** The step at which the window position `q` is scanned. */
  function OffsetOf(p: Point, q: Point): int {
    5 * (q.x - p.x + 2) + (q.y - p.y + 2)
  }

  lemma OffsetRoundTrip(p: Point, q: Point)
    requires Near(p, q, 2)
    ensures 0 <= OffsetOf(p, q) < 25 && OffsetPoint(p, OffsetOf(p, q)) == q
  {
    var o := OffsetOf(p, q);
    assert o / 5 == q.x - p.x + 2 && o % 5 == q.y - p.y + 2;
  }

  /** Sub keeps only untapped cells, and a list of unknown cells is all
      untapped. */
  lemma UnknownsUnTapped(cs: seq<Cell>)
    requires forall d :: d in cs ==> d.IsUnknown()
    ensures Pts(FilterUnTap(cs)) == Pts(cs)
  {
    var f := FilterUnTap(cs);
    FilterMembers(cs, UnTapped);
    forall d | d in cs ensures d in f {
      StatePredicates(d);
    }
  }

  /** Pruning steps 1 and 2 of GetRelBig measure how many unknown cells
      the two cells share. */
  function Shared(v: View, main: Cell, cell: Cell): int
    requires v.Interior(main.Pt()) && v.Interior(cell.Pt())
  {
    |And(UnknownAround(v, main), UnknownAround(v, cell))|
  }

  /** The first measure is the number of unknown cells the two share. */
  lemma SharedSpec(v: View, main: Cell, cell: Cell)
    requires v.Interior(main.Pt()) && v.Interior(cell.Pt())
    ensures Shared(v, main, cell) == |UnknownNbrs(v, cell.Pt()) * UnknownNbrs(v, main.Pt())|
  {
    UnknownAroundSpec(v, main);
    UnknownAroundSpec(v, cell);
    assert UnknownNbrs(v, main.Pt()) * UnknownNbrs(v, cell.Pt()) == UnknownNbrs(v, cell.Pt()) * UnknownNbrs(v, main.Pt());
    AndSpec(UnknownAround(v, main), UnknownAround(v, cell));
  }

  /** Pruning step 3 of GetRelBig counts the unknown cells around `cell`
      that are not around `main`. */
  function Outside(v: View, main: Cell, cell: Cell): int
    requires v.Interior(main.Pt()) && v.Interior(cell.Pt())
  {
    |Sub(UnknownAround(v, cell), UnknownAround(v, main))|
  }

  /** The second measure is the number of unknown cells around `cell` that
      are not around `main`. */
  lemma OutsideSpec(v: View, main: Cell, cell: Cell)
    requires v.Interior(main.Pt()) && v.Interior(cell.Pt())
    ensures Outside(v, main, cell) == |UnknownNbrs(v, cell.Pt()) - UnknownNbrs(v, main.Pt())|
  {
    var mainList := UnknownAround(v, main);
    var subList := UnknownAround(v, cell);
    UnknownAroundSpec(v, main);
    UnknownAroundSpec(v, cell);
    UnknownsUnTapped(subList);
    UnknownsUnTapped(mainList);
    SubSpec(subList, mainList);
  }

  /** The pruning of GetRelBig for one window cell: skip it unless it is a
      nonzero number sharing at least two unknown cells with the centre and
      having none outside the centre's. */
  predicate KeepCell(v: View, main: Cell, cell: Cell)
    requires v.Interior(main.Pt()) && v.Interior(cell.Pt())
  {
    if cell.IsUnTap() || cell.Byte() == '0' then false
    else
      var sub1 := Shared(v, main, cell);
      if sub1 == 0 then false
      else if sub1 == 1 then false
      else Outside(v, main, cell) == 0
  }

  lemma KeepCellUnfold(v: View, main: Cell, cell: Cell)
    requires v.Interior(main.Pt()) && v.Interior(cell.Pt())
    ensures KeepCell(v, main, cell) <==>
            !(cell.IsUnTap() || cell.Byte() == '0') && Shared(v, main, cell) >= 2 && Outside(v, main, cell) == 0
  {
  }

  lemma EmptyDiff(u: set<Point>, w: set<Point>)
    ensures |u - w| == 0 <==> u <= w
  {
    if u <= w {
      assert u - w == {};
    } else {
      var x :| x in u && x !in w;
      assert x in u - w;
    }
  }

  /** The pruning keeps a cell exactly when it is a nonzero number whose
      unknown neighbours, at least two of them shared with the centre, all
      lie around the centre. */
  lemma KeepCellExact(v: View, main: Cell, cell: Cell)
    requires v.Interior(main.Pt()) && v.Interior(cell.Pt())
    ensures KeepCell(v, main, cell) <==>
            && cell.state.Revealed? && cell.state.count > 0
            && |UnknownNbrs(v, cell.Pt()) * UnknownNbrs(v, main.Pt())| >= 2
            && UnknownNbrs(v, cell.Pt()) <= UnknownNbrs(v, main.Pt())
  {
    StatePredicates(cell);
    KeepCellUnfold(v, main, cell);
    SharedSpec(v, main, cell);
    OutsideSpec(v, main, cell);
    EmptyDiff(UnknownNbrs(v, cell.Pt()), UnknownNbrs(v, main.Pt()));
  }

  /** A window cell other than a corner or the centre is on the board, and
      the pruning keeps it exactly when it is a probe. */
  lemma VisitProbe(v: View, main: Cell, q: Point)
    requires BigInBounds(v, main.Pt()) && Near(main.Pt(), q, 2)
    ensures InBigWindow(main.Pt(), q) ==> v.Interior(q)
    ensures (InBigWindow(main.Pt(), q) && KeepCell(v, main, v.GetCell(q.x, q.y))) <==> Probe(v, main.Pt(), q)
  {
    if InBigWindow(main.Pt(), q) {
      var cell := v.GetCell(q.x, q.y);
      KeepCellExact(v, main, cell);
      assert cell.Pt() == q && cell.state == v.StateAt(q);
      var u, w := UnknownNbrs(v, q), UnknownNbrs(v, main.Pt());
      if u <= w {
        assert u * w == u;
      }
    }
  }

  /** The loop body of GetRelBig for the window cell at row `row`, column
      `col`: that cell, read from the board, if the pruning keeps it. */
  function Visit(v: View, main: Cell, row: int, col: int): seq<Cell>
    requires BigInBounds(v, main.Pt()) && Near(main.Pt(), Point(row, col), 2)
  {
    if Skipped(row - main.row, col - main.col) then []
    else
      SkippedCorners(main, row, col);
      WindowInterior(v, main.Pt(), Point(row, col));
      Prune(v, main, v.GetCell(row, col))
  }

  /** The pruning of GetRelBig applied to one window cell: the cell alone
      if kept, nothing otherwise. */
  function Prune(v: View, main: Cell, cell: Cell): seq<Cell>
    requires v.Interior(main.Pt()) && v.Interior(cell.Pt())
  {
    if KeepCell(v, main, cell) then [cell] else []
  }

  /** The loop body's test on the offsets of a window cell from the
      centre: a product of 4 or -4, or both offsets zero. */
  predicate Skipped(rowOffset: int, colOffset: int) {
    var c := Times(rowOffset, colOffset);
    c == 4 || c == -4 || (rowOffset == 0 && colOffset == 0)
  }

  /** Within the window the test skips exactly the four corners and the
      centre. */
  lemma SkippedCorners(main: Cell, row: int, col: int)
    requires Near(main.Pt(), Point(row, col), 2)
    ensures Skipped(row - main.row, col - main.col) <==> !InBigWindow(main.Pt(), Point(row, col))
  {
    TimesProduct(row - main.row, col - main.col);
    CornerProduct(row - main.row, col - main.col);
  }

  /** The window positions around `p` that hold probes. */
  function ProbeSet(v: View, p: Point): set<Point> {
    set o | 0 <= o < 25 && Probe(v, p, OffsetPoint(p, o)) :: OffsetPoint(p, o)
  }

  /** A position is among the probe positions exactly when it holds a
      probe. */
  lemma ProbeSetMember(v: View, p: Point, q: Point)
    ensures q in ProbeSet(v, p) <==> Probe(v, p, q)
  {
    if Probe(v, p, q) {
      OffsetRoundTrip(p, q);
    }
  }

  /** The probe at `q`, read from the board, if `q` is one. */
  function ProbeAt(v: View, p: Point, q: Point): (r: seq<Cell>)
    requires v.InBounds(q)
  {
    if q in ProbeSet(v, p) then [v.GetCell(q.x, q.y)] else []
  }

  /** Two offsets within two of zero multiply to 4 or -4 exactly when both
      are 2 or -2: the product test picks out the window's corners. */
  lemma CornerProduct(a: int, b: int)
    requires -2 <= a <= 2 && -2 <= b <= 2
    ensures (a * b == 4 || a * b == -4) <==> ((a == 2 || a == -2) && (b == 2 || b == -2))
  {
    if a == 2 {
    } else if a == -2 {
    } else if a == 1 {
    } else if a == -1 {
    } else {
      assert a == 0;
    }
  }

  /** The loop body skips the corners and the centre of the window. */
  lemma VisitSkips(v: View, main: Cell, row: int, col: int)
    requires BigInBounds(v, main.Pt()) && Near(main.Pt(), Point(row, col), 2)
    requires !InBigWindow(main.Pt(), Point(row, col))
    ensures Visit(v, main, row, col) == []
  {
    SkippedCorners(main, row, col);
    assert Skipped(row - main.row, col - main.col);
  }

  /** Everywhere else in the window the loop body applies the pruning. */
  lemma VisitPrunes(v: View, main: Cell, row: int, col: int)
    requires BigInBounds(v, main.Pt()) && Near(main.Pt(), Point(row, col), 2)
    requires InBigWindow(main.Pt(), Point(row, col))
    ensures v.Interior(Point(row, col))
    ensures Visit(v, main, row, col) == Prune(v, main, v.GetCell(row, col))
  {
    WindowInterior(v, main.Pt(), Point(row, col));
    SkippedCorners(main, row, col);
    assert !Skipped(row - main.row, col - main.col);
  }

  /** The loop body keeps the window cell exactly when it is a probe. */
  lemma VisitKeeps(v: View, main: Cell, row: int, col: int)
    requires BigInBounds(v, main.Pt()) && Near(main.Pt(), Point(row, col), 2)
    ensures v.InBounds(Point(row, col))
    ensures Visit(v, main, row, col) == if Probe(v, main.Pt(), Point(row, col)) then [v.GetCell(row, col)] else []
  {
    var q := Point(row, col);
    VisitProbe(v, main, q);
    if InBigWindow(main.Pt(), q) {
      WindowInterior(v, main.Pt(), q);
      VisitPrunes(v, main, row, col);
    } else {
      VisitSkips(v, main, row, col);
    }
    assert v.GetCell(row, col) == v.GetCell(q.x, q.y);
  }

  /** The probe lookup yields the cell exactly when it is a probe. */
  lemma ProbeAtIs(v: View, p: Point, q: Point)
    requires v.InBounds(q)
    ensures ProbeAt(v, p, q) == if Probe(v, p, q) then [v.GetCell(q.x, q.y)] else []
  {
    ProbeSetMember(v, p, q);
  }

  /** The loop body computes the probe lookup. */
  lemma VisitIs(v: View, main: Cell, row: int, col: int)
    requires BigInBounds(v, main.Pt()) && Near(main.Pt(), Point(row, col), 2)
    ensures v.InBounds(Point(row, col))
    ensures Visit(v, main, row, col) == ProbeAt(v, main.Pt(), Point(row, col))
  {
    VisitKeeps(v, main, row, col);
    ProbeAtIs(v, main.Pt(), Point(row, col));
  }

  /** The loop of GetRelBig from step `off` on: the kept window cells in
      step order. */
  function Scan(v: View, main: Cell, off: int): seq<Cell>
    requires BigInBounds(v, main.Pt()) && 0 <= off <= 25
    decreases 25 - off, 1
  {
    if off == 25 then [] else Step(v, main, off)
  }

  /** Step `off` of the loop: the window cell there if kept, then the rest
      of the loop. */
  function Step(v: View, main: Cell, off: int): seq<Cell>
    requires BigInBounds(v, main.Pt()) && 0 <= off < 25
    decreases 25 - off, 0
  {
    var q := OffsetPoint(main.Pt(), off);
    StepNear(main.Pt(), off);
    Visit(v, main, q.x, q.y) + Scan(v, main, off + 1)
  }

  /** The cells at the positions of `keep` in the window around `p`, at
      steps `off` and later, in step order: with `keep` the probe positions,
      the reference the loop is measured against. */
  function Window(v: View, p: Point, keep: set<Point>, off: int): seq<Cell>
    decreases 25 - off
  {
    if off >= 25 then []
    else
      var q := OffsetPoint(p, off);
      (if q in keep && v.InBounds(q) then [v.GetCell(q.x, q.y)] else []) + Window(v, p, keep, off + 1)
  }

  /** The loop computes the reference: it keeps exactly the probes, in step
      order. */
  lemma {:induction false} ScanIsWindow(v: View, main: Cell, off: int)
    requires BigInBounds(v, main.Pt()) && 0 <= off <= 25
    ensures Scan(v, main, off) == Window(v, main.Pt(), ProbeSet(v, main.Pt()), off)
    decreases 25 - off
  {
    if off < 25 {
      ScanIsWindow(v, main, off + 1);
      var q := OffsetPoint(main.Pt(), off);
      StepNear(main.Pt(), off);
      VisitIs(v, main, q.x, q.y);
      assert Step(v, main, off) == ProbeAt(v, main.Pt(), q) + Scan(v, main, off + 1);
    }
  }

  /** Every cell of the window filter from step `off` is read from the board
      at a position of `keep`, at step `off` or later. */
  lemma {:induction false} WindowSound(v: View, p: Point, keep: set<Point>, off: int)
    requires 0 <= off <= 25
    ensures forall d :: d in Window(v, p, keep, off) ==>
              && d.Pt() in keep && Near(p, d.Pt(), 2) && v.InBounds(d.Pt())
              && d == v.GetCell(d.row, d.col) && off <= OffsetOf(p, d.Pt()) < 25
    decreases 25 - off
  {
    if off < 25 {
      WindowSound(v, p, keep, off + 1);
      ScanStep(p, off);
    }
  }

  /** The window filter from step `off` holds every position of `keep` in
      the window at step `off` or later. */
  lemma {:induction false} WindowComplete(v: View, p: Point, keep: set<Point>, off: int)
    requires 0 <= off <= 25
    ensures forall q :: q in keep && v.InBounds(q) && Near(p, q, 2) && off <= OffsetOf(p, q) ==> q in Pts(Window(v, p, keep, off))
    decreases 25 - off
  {
    if off == 25 {
      forall t | Near(p, t, 2) ensures OffsetOf(p, t) < 25 {
        OffsetRoundTrip(p, t);
      }
    } else {
      WindowComplete(v, p, keep, off + 1);
      var q := OffsetPoint(p, off);
      ScanStep(p, off);
      var rest := Window(v, p, keep, off + 1);
      var r := Window(v, p, keep, off);
      var here := if q in keep && v.InBounds(q) then [v.GetCell(q.x, q.y)] else [];
      assert r == here + rest;
      forall t | t in keep && v.InBounds(t) && Near(p, t, 2) && off <= OffsetOf(p, t) ensures t in Pts(r) {
        if OffsetOf(p, t) == off {
          assert t == q;
          assert here[0] in r;
        } else {
          var d :| d in rest && d.Pt() == t;
          assert d in r;
        }
      }
    }
  }

  /** The cells of `s` are in strictly increasing step order around `p`. */
  predicate InStepOrder(p: Point, s: seq<Cell>) {
    forall a, b :: 0 <= a < b < |s| ==> OffsetOf(p, s[a].Pt()) < OffsetOf(p, s[b].Pt())
  }

  /** Step `off` of the window filter adds at most the one cell at that
      step in front of the later steps. */
  lemma WindowHead(v: View, p: Point, keep: set<Point>, off: int)
    requires 0 <= off < 25
    ensures var r, rest := Window(v, p, keep, off), Window(v, p, keep, off + 1);
      r == rest || (|r| > 0 && OffsetOf(p, r[0].Pt()) == off && r == [r[0]] + rest)
  {
    ScanStep(p, off);
  }

  /** Putting a cell at step `off` in front of cells at later steps keeps
      the step order. */
  lemma InStepOrderCons(p: Point, r: seq<Cell>, rest: seq<Cell>, off: int)
    requires r == rest || (|r| > 0 && OffsetOf(p, r[0].Pt()) == off && r == [r[0]] + rest)
    requires forall d :: d in rest ==> off + 1 <= OffsetOf(p, d.Pt())
    requires InStepOrder(p, rest)
    ensures InStepOrder(p, r)
    ensures forall d :: d in r ==> off <= OffsetOf(p, d.Pt())
  {
    if r != rest {
      forall a, b | 0 <= a < b < |r| ensures OffsetOf(p, r[a].Pt()) < OffsetOf(p, r[b].Pt()) {
        assert r[b] == rest[b - 1];
        assert rest[b - 1] in rest;
        if a >= 1 {
          assert r[a] == rest[a - 1];
        }
      }
    }
  }

  /** The window filter from step `off` lists its cells in strictly
      increasing step order, all at step `off` or later, so no window
      position appears twice. */
  lemma {:induction false} WindowOrdered(v: View, p: Point, keep: set<Point>, off: int)
    requires 0 <= off <= 25
    ensures InStepOrder(p, Window(v, p, keep, off))
    ensures forall d :: d in Window(v, p, keep, off) ==> off <= OffsetOf(p, d.Pt())
    decreases 25 - off
  {
    if off < 25 {
      WindowOrdered(v, p, keep, off + 1);
      WindowHead(v, p, keep, off);
      InStepOrderCons(p, Window(v, p, keep, off), Window(v, p, keep, off + 1), off);
    }
  }

  /** Step `off` visits a position of the 5×5 window. */
  lemma StepNear(p: Point, off: int)
    requires 0 <= off < 25
    ensures Near(p, OffsetPoint(p, off), 2)
  {
  }

  /** A window position other than a corner or the centre has its whole
      3×3 block on the board. */
  lemma WindowInterior(v: View, p: Point, q: Point)
    requires BigInBounds(v, p) && InBigWindow(p, q)
    ensures v.Interior(q)
  {
  }

  /** The window position step `off` visits, and that no other step visits
      it. */
  lemma ScanStep(p: Point, off: int)
    requires 0 <= off < 25
    ensures Near(p, OffsetPoint(p, off), 2) && OffsetOf(p, OffsetPoint(p, off)) == off
    ensures forall t :: Near(p, t, 2) && OffsetOf(p, t) == off ==> t == OffsetPoint(p, off)
  {
    forall t | Near(p, t, 2) && OffsetOf(p, t) == off ensures t == OffsetPoint(p, off) {
      OffsetRoundTrip(p, t);
    }
  }

  /** Cells in strictly increasing step order sit at distinct positions. */
  lemma StepOrderDistinct(p: Point, s: seq<Cell>)
    requires InStepOrder(p, s)
    ensures DistinctPts(s)
  {
  }

  /** The loop's reference holds each probe exactly once, every one of them
      a revealed interior cell read from the board. */
  lemma ProbesFacts(v: View, p: Point)
    requires BigInBounds(v, p)
    ensures var r := Window(v, p, ProbeSet(v, p), 0);
      && Pts(r) == ProbeSet(v, p) && |r| == |ProbeSet(v, p)|
      && InStepOrder(p, r) && RevealedCells(v, r)
  {
    ProbesExact(v, p);
    ProbesRevealed(v, p);
  }

  /** The loop's reference holds each probe exactly once, in step order. */
  lemma ProbesExact(v: View, p: Point)
    requires BigInBounds(v, p)
    ensures var r := Window(v, p, ProbeSet(v, p), 0);
      Pts(r) == ProbeSet(v, p) && |r| == |ProbeSet(v, p)| && InStepOrder(p, r)
  {
    var r := Window(v, p, ProbeSet(v, p), 0);
    ProbesPts(v, p);
    WindowOrdered(v, p, ProbeSet(v, p), 0);
    StepOrderDistinct(p, r);
    CardPts(r);
  }

  /** The positions of the loop's reference are the probe positions. */
  lemma ProbesPts(v: View, p: Point)
    requires BigInBounds(v, p)
    ensures Pts(Window(v, p, ProbeSet(v, p), 0)) == ProbeSet(v, p)
  {
    var keep := ProbeSet(v, p);
    var r := Window(v, p, keep, 0);
    WindowSound(v, p, keep, 0);
    WindowComplete(v, p, keep, 0);
    forall q | q in keep ensures q in Pts(r) {
      ProbeSetMember(v, p, q);
      OffsetRoundTrip(p, q);
    }
  }

  /** Every cell of the loop's reference is a revealed interior cell read
      from the board. */
  lemma ProbesRevealed(v: View, p: Point)
    requires BigInBounds(v, p)
    ensures RevealedCells(v, Window(v, p, ProbeSet(v, p), 0))
  {
    var keep := ProbeSet(v, p);
    var r := Window(v, p, keep, 0);
    WindowSound(v, p, keep, 0);
    forall k | 0 <= k < |r|
      ensures v.Interior(r[k].Pt()) && r[k] == v.GetCell(r[k].row, r[k].col) && r[k].state.Revealed?
    {
      assert r[k] in r;
      ProbeSetMember(v, p, r[k].Pt());
      WindowInterior(v, p, r[k].Pt());
    }
  }

  /** GetRelBig: the probes around a numbered centre with at least five
      unknown neighbours, in step order, or nothing when there are fewer
      than two. */
  function GetRelBig(v: View, x: int, y: int): (r: seq<Cell>)
    requires BigInBounds(v, Point(x, y))
  {
    var main := v.GetCell(x, y);
    if main.IsUnTap() || main.Byte() == '0' then []
    else
      var mainList := UnknownAround(v, main);
      if |mainList| < 5 then []
      else
        var sub := Scan(v, main, 0);
        if |sub| < 2 then [] else sub
  }

  /** The three sizes GetRelBig tests: the centre's state, its unknown
      neighbours, and the probes the loop collects. */
  lemma GetRelBigMeasures(v: View, x: int, y: int)
    requires BigInBounds(v, Point(x, y))
    ensures var main := v.GetCell(x, y);
      && (main.IsUnTap() || main.Byte() == '0' <==> !(v.StateAt(main.Pt()).Revealed? && v.StateAt(main.Pt()).count > 0))
      && |UnknownAround(v, main)| == |UnknownNbrs(v, main.Pt())|
      && Scan(v, main, 0) == Window(v, main.Pt(), ProbeSet(v, main.Pt()), 0)
  {
    var main := v.GetCell(x, y);
    StatePredicates(main);
    AroundUnknown(v, main);
    ScanIsWindow(v, main, 0);
  }

  /** GetRelBig answers exactly for a revealed nonzero centre with at least
      five unknown neighbours and at least two probes. */
  lemma GetRelBigAnswers(v: View, x: int, y: int)
    requires BigInBounds(v, Point(x, y))
    ensures var p := Point(x, y);
            GetRelBig(v, x, y) != [] <==>
              && v.StateAt(p).Revealed? && v.StateAt(p).count > 0
              && |UnknownNbrs(v, p)| >= 5 && |ProbeSet(v, p)| >= 2
  {
    GetRelBigMeasures(v, x, y);
    ProbesFacts(v, Point(x, y));
  }

  /** An answer of GetRelBig lists every probe once, in step order, each a
      revealed cell read from the board. */
  lemma GetRelBigProbes(v: View, x: int, y: int)
    requires BigInBounds(v, Point(x, y))
    ensures GetRelBig(v, x, y) != [] ==>
              && Pts(GetRelBig(v, x, y)) == ProbeSet(v, Point(x, y))
              && |GetRelBig(v, x, y)| == |ProbeSet(v, Point(x, y))|
              && InStepOrder(Point(x, y), GetRelBig(v, x, y))
              && RevealedCells(v, GetRelBig(v, x, y))
  {
    GetRelBigWindow(v, x, y);
    ProbesFacts(v, Point(x, y));
  }

  /** An answer of GetRelBig is the whole reference list of probes. */
  lemma GetRelBigWindow(v: View, x: int, y: int)
    requires BigInBounds(v, Point(x, y))
    ensures GetRelBig(v, x, y) == [] || GetRelBig(v, x, y) == Window(v, Point(x, y), ProbeSet(v, Point(x, y)), 0)
  {
    GetRelBigMeasures(v, x, y);
    assert v.GetCell(x, y).Pt() == Point(x, y);
  }

  /** The loop of FindWa over `w` from `w` up to `max`: the union of every
      hypothesis picking that many cells of `sub`. */
  function WaFrom(v: View, main: Cell, w: int, max: int, sub: seq<Cell>): (r: Found)
    requires v.Interior(main.Pt()) && AllInterior(v, sub)
    ensures r.mines <= UnknownNbrs(v, main.Pt()) && r.safe <= UnknownNbrs(v, main.Pt())
    decreases max - w
  {
    if w > max then Found({}, {}) else Wa(v, main, w, sub).Plus(WaFrom(v, main, w + 1, max, sub))
  }

  /** What FindWa's loop body adds for the centre at row `i`, column `j`:
      hypotheses picking two, then (when there are that many) three of the
      probes. */
  function WaAt(v: View, i: int, j: int): (r: Found)
    requires BigInBounds(v, Point(i, j))
    ensures r.mines <= UnknownNbrs(v, Point(i, j)) && r.safe <= UnknownNbrs(v, Point(i, j))
  {
    var sub := GetRelBig(v, i, j);
    if |sub| == 0 then Found({}, {})
    else
      GetRelBigAnswers(v, i, j);
      GetRelBigProbes(v, i, j);
      var max := if |sub| < 3 then |sub| else 3;
      WaFrom(v, v.GetCell(i, j), 2, max, sub)
  }

  /** The cluster rule over every centre in rows and columns 3 up to four
      before the last; these margins keep the window and the 3×3 block of
      each of its cells on the board. */
  function FindWa(v: View): (r: Found)
    ensures forall p :: p in r.mines ==> v.UnknownAt(p)
    ensures forall p :: p in r.safe ==> v.UnknownAt(p)
  {
    Found(set i, j, p | 3 <= i < v.Rows() - 3 && 3 <= j < v.Cols() - 3 && p in WaAt(v, i, j).mines :: p,
          set i, j, p | 3 <= i < v.Rows() - 3 && 3 <= j < v.Cols() - 3 && p in WaAt(v, i, j).safe :: p)
  }

  /** Every hypothesis about a revealed centre and revealed cells that
      concludes anything is right about a consistent placement. */
  lemma WaSound(v: View, sol: set<Point>, main: Cell, w: int, sub: seq<Cell>)
    requires Consistent(v, sol)
    requires v.Interior(main.Pt()) && main == v.GetCell(main.row, main.col) && main.state.Revealed?
    requires RevealedCells(v, sub)
    ensures AllInterior(v, sub) && Wa(v, main, w, sub).Agrees(sol)
  {
    var list := Cmn(|sub|, w);
    var r := Wa(v, main, w, sub);
    forall p | p in r.mines ensures p in sol {
      var k :| 0 <= k < |list| && p in WaOne(v, main, sub, list[k]).mines;
      WaOneSound(v, sol, main, sub, list[k]);
    }
    forall p | p in r.safe ensures p !in sol {
      var k :| 0 <= k < |list| && p in WaOne(v, main, sub, list[k]).safe;
      WaOneSound(v, sol, main, sub, list[k]);
    }
  }

  lemma {:induction false} WaFromSound(v: View, sol: set<Point>, main: Cell, w: int, max: int, sub: seq<Cell>)
    requires Consistent(v, sol)
    requires v.Interior(main.Pt()) && main == v.GetCell(main.row, main.col) && main.state.Revealed?
    requires RevealedCells(v, sub)
    ensures AllInterior(v, sub) && WaFrom(v, main, w, max, sub).Agrees(sol)
    decreases max - w
  {
    if w <= max {
      WaSound(v, sol, main, w, sub);
      WaFromSound(v, sol, main, w + 1, max, sub);
    } else {
      WaSound(v, sol, main, w, sub);
    }
  }

  /** Every mine and safe cell FindWa reports is right about any consistent
      placement. */
  lemma FindWaSound(v: View, sol: set<Point>)
    requires Consistent(v, sol)
    ensures FindWa(v).Agrees(sol)
  {
    forall i, j | 3 <= i < v.Rows() - 3 && 3 <= j < v.Cols() - 3
      ensures WaAt(v, i, j).Agrees(sol)
    {
      var sub := GetRelBig(v, i, j);
      if |sub| != 0 {
        GetRelBigAnswers(v, i, j);
        GetRelBigProbes(v, i, j);
        var main := v.GetCell(i, j);
        var max := if |sub| < 3 then |sub| else 3;
        WaFromSound(v, sol, main, 2, max, sub);
      }
    }
  }
}
