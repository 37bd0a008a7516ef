/** The local propagator: mine saturation (FindBoom) and safe saturation
    (FindNum), each tried on every cell whose 3×3 block lies on the board. */
module Saturation {
  import opened Cells
  import opened Views

  /** `c` is a nonzero number whose untapped neighbours are exactly as many
      as its number: all of them must be mines. */
  predicate MineSaturated(v: View, c: Point) {
    && v.Interior(c)
    && v.StateAt(c).Revealed? && v.StateAt(c).count > 0
    && |UnTapNbrs(v, c)| == v.StateAt(c).count
  }

  /** `c` is a nonzero number whose flagged neighbours are exactly as many
      as its number: its other unknown neighbours must be safe. */
  predicate SafeSaturated(v: View, c: Point) {
    && v.Interior(c)
    && v.StateAt(c).Revealed? && v.StateAt(c).count > 0
    && |FlagNbrs(v, c)| == v.StateAt(c).count
  }

  /** What FindBoom's loop body adds for the centre at row `i`, column `j`. */
  function BoomAt(v: View, i: int, j: int): set<Point>
    requires v.Interior(Point(i, j))
  {
    var main := v.GetCell(i, j);
    var list := Around(v, main);
    if main.IsUnTap() || main.Byte() == '0' then {}
    else if |FilterUnTap(list)| == main.Int() then Pts(FilterUnknown(list))
    else {}
  }

  /** What FindNum's loop body adds for the centre at row `i`, column `j`. */
  function NumAt(v: View, i: int, j: int): set<Point>
    requires v.Interior(Point(i, j))
  {
    var main := v.GetCell(i, j);
    var list := Around(v, main);
    if main.IsUnTap() || main.Byte() == '0' then {}
    else if |FilterFlag(list)| == main.Int() then Pts(FilterUnknown(list))
    else {}
  }

  /** The loop body of FindBoom emits the unknown neighbours of a
      mine-saturated centre and nothing otherwise. */
  lemma BoomAtExact(v: View, i: int, j: int)
    requires v.Interior(Point(i, j))
    ensures BoomAt(v, i, j) == if MineSaturated(v, Point(i, j)) then UnknownNbrs(v, Point(i, j)) else {}
  {
    var main := v.GetCell(i, j);
    StatePredicates(main);
    AroundUnknown(v, main);
    AroundUnTap(v, main);
  }

  /** The loop body of FindNum emits the unknown neighbours of a
      safe-saturated centre and nothing otherwise. */
  lemma NumAtExact(v: View, i: int, j: int)
    requires v.Interior(Point(i, j))
    ensures NumAt(v, i, j) == if SafeSaturated(v, Point(i, j)) then UnknownNbrs(v, Point(i, j)) else {}
  {
    var main := v.GetCell(i, j);
    StatePredicates(main);
    AroundUnknown(v, main);
    AroundFlag(v, main);
  }

  /** Mine saturation over every centre in rows and columns 1 up to one
      before the last. */
  function FindBoom(v: View): (r: set<Point>)
    ensures forall p :: p in r <==> v.UnknownAt(p) && exists c :: MineSaturated(v, c) && p in Neighbours(c)
  {
    var r := set i, j, p | 1 <= i < v.Rows() - 1 && 1 <= j < v.Cols() - 1 && p in BoomAt(v, i, j) :: p;
    forall p | p in r ensures v.UnknownAt(p) && exists c :: MineSaturated(v, c) && p in Neighbours(c) {
      var i, j :| 1 <= i < v.Rows() - 1 && 1 <= j < v.Cols() - 1 && p in BoomAt(v, i, j);
      BoomAtExact(v, i, j);
      assert MineSaturated(v, Point(i, j)) && p in Neighbours(Point(i, j));
    }
    forall p, c | v.UnknownAt(p) && MineSaturated(v, c) && p in Neighbours(c) ensures p in r {
      BoomAtExact(v, c.x, c.y);
      assert p in BoomAt(v, c.x, c.y);
    }
    r
  }

  /** Safe saturation over every centre in rows and columns 1 up to one
      before the last. */
  function FindNum(v: View): (r: set<Point>)
    ensures forall p :: p in r <==> v.UnknownAt(p) && exists c :: SafeSaturated(v, c) && p in Neighbours(c)
  {
    var r := set i, j, p | 1 <= i < v.Rows() - 1 && 1 <= j < v.Cols() - 1 && p in NumAt(v, i, j) :: p;
    forall p | p in r ensures v.UnknownAt(p) && exists c :: SafeSaturated(v, c) && p in Neighbours(c) {
      var i, j :| 1 <= i < v.Rows() - 1 && 1 <= j < v.Cols() - 1 && p in NumAt(v, i, j);
      NumAtExact(v, i, j);
      assert SafeSaturated(v, Point(i, j)) && p in Neighbours(Point(i, j));
    }
    forall p, c | v.UnknownAt(p) && SafeSaturated(v, c) && p in Neighbours(c) ensures p in r {
      NumAtExact(v, c.x, c.y);
      assert p in NumAt(v, c.x, c.y);
    }
    r
  }

  /** Of two finite sets, the smaller one inside the other of equal size is
      the other. */
  lemma SubsetSameSize<T>(a: set<T>, b: set<T>)
    requires a <= b && |a| == |b|
    ensures a == b
  {
    assert |b - a| == |b| - |a|;
  }

  /** On a board with a consistent mine placement, every unknown neighbour
      of a mine-saturated cell is a mine. */
  lemma MineSaturatedSound(v: View, sol: set<Point>, c: Point)
    requires Consistent(v, sol) && MineSaturated(v, c)
    ensures UnknownNbrs(v, c) <= sol
  {
    var s := sol * Neighbours(c);
    var u := UnTapNbrs(v, c);
    assert |s| == v.StateAt(c).count;
    assert s <= u by {
      forall q | q in s ensures q in u {
        assert v.UnTapAt(q);
      }
    }
    SubsetSameSize(s, u);
    forall q | q in UnknownNbrs(v, c) ensures q in sol {
      assert q in u;
    }
  }

  /** On a board with a consistent mine placement, no unknown neighbour of
      a safe-saturated cell is a mine. */
  lemma SafeSaturatedSound(v: View, sol: set<Point>, c: Point)
    requires Consistent(v, sol) && SafeSaturated(v, c)
    ensures UnknownNbrs(v, c) !! sol
  {
    var s := sol * Neighbours(c);
    var f := FlagNbrs(v, c);
    assert |s| == v.StateAt(c).count;
    assert f <= s by {
      forall q | q in f ensures q in s {
        assert v.FlagAt(q);
      }
    }
    SubsetSameSize(f, s);
    forall q | q in UnknownNbrs(v, c) ensures q !in sol {
      assert q !in f;
    }
  }

  /** Everything FindBoom reports is a mine in every consistent placement. */
  lemma FindBoomSound(v: View, sol: set<Point>)
    requires Consistent(v, sol)
    ensures FindBoom(v) <= sol
  {
    forall p | p in FindBoom(v) ensures p in sol {
      var c :| MineSaturated(v, c) && p in Neighbours(c);
      MineSaturatedSound(v, sol, c);
    }
  }

  /** Nothing FindNum reports is a mine in any consistent placement. */
  lemma FindNumSound(v: View, sol: set<Point>)
    requires Consistent(v, sol)
    ensures FindNum(v) !! sol
  {
    forall p | p in FindNum(v) ensures p !in sol {
      var c :| SafeSaturated(v, c) && p in Neighbours(c);
      SafeSaturatedSound(v, sol, c);
    }
  }
}
