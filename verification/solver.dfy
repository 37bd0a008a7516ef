/** The deduction driver: run every rule on the board, flag the mines they
    report, and start over until a round reports no mine. */
module Solver {
  import opened Cells
  import opened Views
  import opened Saturation
  import opened Differ
  import opened Cluster

  /** One round of finder: the four rules on the same board, their mines
      and their safe cells pooled. */
  function Round(v: View): (r: Found)
    ensures forall p :: p in r.mines ==> v.UnknownAt(p)
    ensures FindBoom(v) <= r.mines && FindNum(v) <= r.safe
    ensures FindDiff(v).mines <= r.mines && FindDiff(v).safe <= r.safe
    ensures FindWa(v).mines <= r.mines && FindWa(v).safe <= r.safe
  {
    Found(FindBoom(v), FindNum(v)).Plus(FindDiff(v)).Plus(FindWa(v))
  }

  /** Everything a round reports is right about any consistent placement. */
  lemma RoundSound(v: View, sol: set<Point>)
    requires Consistent(v, sol)
    ensures Round(v).Agrees(sol)
  {
    FindBoomSound(v, sol);
    FindNumSound(v, sol);
    FindDiffSound(v, sol);
    FindWaSound(v, sol);
  }

  /** The positions of a round's mines are Unknown cells of the board. */
  lemma RoundMinesUnknown(v: View)
    ensures Round(v).mines <= v.UnknownCells()
  {
    forall p | p in Round(v).mines ensures p in v.UnknownCells() {
      assert v.UnknownAt(p) && p == Point(p.x, p.y);
    }
  }

  /** What finder leaves behind: the board with every reported mine
      flagged, and all mines and safe cells reported in any round. */
  datatype Outcome = Outcome(view: View, mines: set<Point>, safe: set<Point>)

  /** finder: run a round; if it reports mines, flag them and recurse,
      pooling what every round reports. Each round that recurses flags at
      least one Unknown cell, so the number of Unknown cells bounds the
      rounds. */
  function Finder(v: View): (r: Outcome)
    ensures r.view.cols == v.cols && |r.view.list| == |v.list|
    decreases |v.UnknownCells()|
  {
    var f := Round(v);
    if f.mines == {} then Outcome(v, {}, f.safe)
    else
      RoundMinesUnknown(v);
      FlagAllUnknowns(v, f.mines);
      var rest := Finder(v.FlagAll(f.mines));
      Outcome(rest.view, f.mines + rest.mines, f.safe + rest.safe)
  }

  /** finder keeps everything its first round reports, and stops at once,
      leaving the board as it was, exactly when that round finds no mine. */
  lemma FinderFirstRound(v: View)
    ensures Round(v).mines <= Finder(v).mines && Round(v).safe <= Finder(v).safe
    ensures Finder(v).mines == {} <==> Round(v).mines == {}
    ensures Finder(v).mines == {} ==> Finder(v).view == v && Finder(v).safe == Round(v).safe
  {
  }

  /** finder only flags cells that were Unknown. */
  lemma {:induction false} FinderMinesUnknown(v: View)
    ensures Finder(v).mines <= v.UnknownCells()
    decreases |v.UnknownCells()|
  {
    var f := Round(v);
    if f.mines != {} {
      RoundMinesUnknown(v);
      FlagAllUnknowns(v, f.mines);
      var next := v.FlagAll(f.mines);
      FinderMinesUnknown(next);
      assert Finder(v).mines == f.mines + Finder(next).mines;
    }
  }

  /** The board `w` leaves `v.FlagAll(marks)` with the cells of `more`
      flagged; then it leaves `v` with the cells of both flagged. */
  lemma FlagThen(v: View, marks: set<Point>, w: View, more: set<Point>)
    requires var next := v.FlagAll(marks);
      w.cols == v.cols && |w.list| == |v.list| &&
      forall q :: next.InBounds(q) ==> w.StateAt(q) == if q in more then Flag else next.StateAt(q)
    ensures forall q :: v.InBounds(q) ==> w.StateAt(q) == if q in marks + more then Flag else v.StateAt(q)
  {
    var next := v.FlagAll(marks);
    assert next.Rows() == v.Rows();
    forall q | v.InBounds(q) ensures w.StateAt(q) == if q in marks + more then Flag else v.StateAt(q) {
      assert next.InBounds(q);
    }
  }

  /** The board finder leaves has every mine it reports flagged, and every
      other cell as it was. */
  lemma {:induction false} FinderFlags(v: View)
    ensures forall q :: v.InBounds(q) ==> Finder(v).view.StateAt(q) == if q in Finder(v).mines then Flag else v.StateAt(q)
    decreases |v.UnknownCells()|
  {
    var f := Round(v);
    if f.mines != {} {
      RoundMinesUnknown(v);
      FlagAllUnknowns(v, f.mines);
      var next := v.FlagAll(f.mines);
      FinderFlags(next);
      var rest := Finder(next);
      FlagThen(v, f.mines, rest.view, rest.mines);
      assert Finder(v) == Outcome(rest.view, f.mines + rest.mines, f.safe + rest.safe);
    }
  }

  /** finder stops at a fixed point: a further round on the board it leaves
      reports no mine. */
  lemma {:induction false} FinderFixedPoint(v: View)
    ensures Round(Finder(v).view).mines == {}
    decreases |v.UnknownCells()|
  {
    var f := Round(v);
    if f.mines != {} {
      RoundMinesUnknown(v);
      FlagAllUnknowns(v, f.mines);
      FinderFixedPoint(v.FlagAll(f.mines));
    }
  }

  /** Flagging cells that are mines of a consistent placement keeps the
      placement consistent with the board. */
  lemma FlagMinesConsistent(v: View, sol: set<Point>, marks: set<Point>)
    requires Consistent(v, sol) && marks <= sol && marks <= v.UnknownCells()
    ensures Consistent(v.FlagAll(marks), sol)
  {
    var w := v.FlagAll(marks);
    assert w.Rows() == v.Rows();
    forall q | q in sol ensures w.UnTapAt(q) {
      assert v.UnTapAt(q);
    }
    forall q | w.FlagAt(q) ensures q in sol {
      assert v.InBounds(q);
    }
    forall q | w.Interior(q) && w.StateAt(q).Revealed? ensures |sol * Neighbours(q)| == w.StateAt(q).count {
      assert v.InBounds(q) && w.StateAt(q) == v.StateAt(q);
    }
  }

  /** On a board with a consistent placement, every mine finder flags is a
      mine and every cell it reports safe is not. */
  lemma {:induction false} FinderSound(v: View, sol: set<Point>)
    requires Consistent(v, sol)
    ensures Finder(v).mines <= sol && Finder(v).safe !! sol
    decreases |v.UnknownCells()|
  {
    var f := Round(v);
    RoundSound(v, sol);
    if f.mines != {} {
      RoundMinesUnknown(v);
      FlagAllUnknowns(v, f.mines);
      FlagMinesConsistent(v, sol, f.mines);
      FinderSound(v.FlagAll(f.mines), sol);
    }
  }
}
