/** The cell layer of the deduction engine: grid coordinates, the two
    neighbour offset patterns, the row-major index, and the classification
    state of one cell with its two state transitions. */
module Cells {

  /** A grid coordinate: `x` is the row and `y` the column. */
  datatype Point = Point(x: int, y: int) {

    /** The 3×3 block around this point, row by row; the point itself is
        at index 4. */
    function GetSub(): (r: seq<Point>)
      ensures |r| == 9 && r[4] == this
      ensures forall k :: 0 <= k < 9 ==> Near(this, r[k], 1)
      ensures forall q :: Near(this, q, 1) ==> q in r
    {
      var r := seq(9, k requires 0 <= k < 9 => Point(x + k / 3 - 1, y + k % 3 - 1));
      assert r == [Point(x - 1, y - 1), Point(x - 1, y), Point(x - 1, y + 1),
                   Point(x, y - 1), this, Point(x, y + 1),
                   Point(x + 1, y - 1), Point(x + 1, y), Point(x + 1, y + 1)];
      r
    }

    /** The 13-point half-window used to enumerate pairs: the point itself
        at index 0, the two points to its right, then the two five-wide rows
        below it. */
    function GetRel(): (r: seq<Point>)
      ensures |r| == 13 && r[0] == this
      ensures forall k :: 1 <= k < 13 ==> InHalfWindow(this, r[k])
      ensures forall q :: InHalfWindow(this, q) ==> q in r[1..]
    {
      var r := seq(13, k requires 0 <= k < 13 => Point(x + (k + 2) / 5, y + (k + 2) % 5 - 2));
      assert r == [this,
                   Point(x, y + 1), Point(x, y + 2),
                   Point(x + 1, y - 2), Point(x + 1, y - 1), Point(x + 1, y),
                   Point(x + 1, y + 1), Point(x + 1, y + 2),
                   Point(x + 2, y - 2), Point(x + 2, y - 1), Point(x + 2, y),
                   Point(x + 2, y + 1), Point(x + 2, y + 2)];
      r
    }
  }

  /** `q` is at most `d` rows and at most `d` columns away from `p`. */
  predicate Near(p: Point, q: Point, d: int) {
    -d <= q.x - p.x <= d && -d <= q.y - p.y <= d
  }

  /** The offsets GetRel reaches besides the point itself: one or two
      columns to the right on the same row, or one or two rows below and at
      most two columns either side. */
  predicate InHalfWindow(p: Point, q: Point) {
    || (q.x == p.x && 1 <= q.y - p.y <= 2)
    || (1 <= q.x - p.x <= 2 && -2 <= q.y - p.y <= 2)
  }

  /** The eight points adjacent to `p`. */
  function Neighbours(p: Point): (r: set<Point>)
    ensures forall q :: q in r <==> Near(p, q, 1) && q != p
  {
    set q | q in p.GetSub() && q != p
  }

  /** The nine points of GetSub are pairwise distinct, and the eight points
      other than index 4 are exactly the neighbours. */
  lemma GetSubDistinct(p: Point)
    ensures forall a, b :: 0 <= a < b < 9 ==> p.GetSub()[a] != p.GetSub()[b]
    ensures Neighbours(p) == set k | 0 <= k < 9 && k != 4 :: p.GetSub()[k]
  {
    var s := p.GetSub();
    forall a, b | 0 <= a < b < 9 ensures s[a] != s[b] {
      assert s[a] == Point(p.x + a / 3 - 1, p.y + a % 3 - 1);
      assert s[b] == Point(p.x + b / 3 - 1, p.y + b % 3 - 1);
    }
  }

  /** Pair coverage: of two distinct points at most two rows and two columns
      apart, exactly one lies in the other's half-window, so a scan over
      every cell's GetRel meets each such pair once. */
  lemma PairCoveredOnce(p: Point, q: Point)
    requires p != q && Near(p, q, 2)
    ensures (q in p.GetRel()[1..]) != (p in q.GetRel()[1..])
  {
    var rp, rq := p.GetRel(), q.GetRel();
    assert q in rp[1..] <==> InHalfWindow(p, q) by {
      if q in rp[1..] {
        var k :| 0 <= k < 12 && rp[1..][k] == q;
        assert rp[k + 1] == q;
      }
    }
    assert p in rq[1..] <==> InHalfWindow(q, p) by {
      if p in rq[1..] {
        var k :| 0 <= k < 12 && rq[1..][k] == p;
        assert rq[k + 1] == p;
      }
    }
  }

  /** Multiplication as repeated addition of `a`, `|b|` times. Written
      recursively so that a product of two unknowns is unfolded one step
      at a time rather than handed to the solver's nonlinear arithmetic;
      TimesProduct shows it is `a * b`. */
  function Times(a: int, b: int): int
    decreases if b < 0 then -b else b
  {
    if b == 0 then 0 else if b > 0 then Times(a, b - 1) + a else Times(a, b + 1) - a
  }

  lemma {:induction false} TimesProduct(a: int, b: int)
    ensures Times(a, b) == a * b
    decreases if b < 0 then -b else b
  {
    if b > 0 {
      TimesProduct(a, b - 1);
    } else if b < 0 {
      TimesProduct(a, b + 1);
    }
  }

  /** The row-major index of row `x`, column `y` in rows `base` wide:
      `x * base + y`. */
  function Index(x: int, y: int, base: int): int {
    Times(x, base) + y
  }

  /** Within a row width the linear index is injective, and division and
      remainder by the width recover the row and the column. */
  lemma IndexInverse(x: int, y: int, base: int)
    requires 0 <= y < base
    ensures Index(x, y, base) / base == x && Index(x, y, base) % base == y
  {
    TimesProduct(x, base);
    var i := Index(x, y, base);
    var q, r := i / base, i % base;
    assert base * q + r == base * x + y;
    var d := x - q;
    assert base * d == r - y;
  }

  lemma IndexInjective(x1: int, y1: int, x2: int, y2: int, base: int)
    requires 0 <= y1 < base && 0 <= y2 < base
    ensures Index(x1, y1, base) == Index(x2, y2, base) <==> x1 == x2 && y1 == y2
  {
    IndexInverse(x1, y1, base);
    IndexInverse(x2, y2, base);
  }

  /** Every linear index is the index of its quotient row and remainder
      column. */
  lemma IndexOf(k: int, base: int)
    requires base > 0
    ensures Index(k / base, k % base, base) == k
  {
    TimesProduct(k / base, base);
  }

  /** A revealed count: the number of mines among the eight neighbours. */
  type Digit = k: int | 0 <= k <= 8

  /** What the classifier saw in one cell. */
  datatype State = Unknown | Flag | Revealed(count: Digit)

  /** One cell of the board: its position and its classification. */
  datatype Cell = Cell(row: int, col: int, state: State) {

    function Pt(): Point {
      Point(row, col)
    }

    /** The classification glyph: '_' unknown, 'f' flag, or the digit. */
    function Byte(): char {
      match state
      case Unknown => '_'
      case Flag => 'f'
      case Revealed(k) => (48 + k) as char
    }

    /** The numeric classification: -3 unknown, -1 flag, or the count. */
    function Int(): int {
      match state
      case Unknown => -3
      case Flag => -1
      case Revealed(k) => k
    }

    predicate IsUnTap() {
      IsFlag() || IsUnknown()
    }

    predicate IsUnknown() {
      Byte() == '_'
    }

    predicate IsFlag() {
      Byte() == 'f'
    }

    function SetFlag(): Cell {
      this.(state := Flag)
    }

    function SetUnknown(): Cell {
      this.(state := Unknown)
    }

    /** `this` has a strictly larger numeric value than `b`. */
    predicate Gt(b: Cell) {
      Int() > b.Int()
    }
  }

  /** The glyph predicates agree with the state: untapped means unknown or
      flagged, the two are exclusive, and exactly the revealed cells carry
      a non-negative value. */
  lemma StatePredicates(c: Cell)
    ensures c.IsUnTap() <==> c.IsFlag() || c.IsUnknown()
    ensures !(c.IsFlag() && c.IsUnknown())
    ensures c.IsUnknown() <==> c.state == Unknown
    ensures c.IsFlag() <==> c.state == Flag
    ensures c.IsUnTap() <==> !c.state.Revealed?
    ensures c.IsUnTap() <==> c.Int() < 0
    ensures !c.IsUnTap() ==> (c.Byte() == '0' <==> c.Int() == 0)
  {
  }

  /** SetFlag yields a flag with value -1 at the same position, and a
      second application changes nothing. */
  lemma SetFlagProperties(c: Cell)
    ensures c.SetFlag().IsFlag() && c.SetFlag().Int() == -1
    ensures c.SetFlag().Pt() == c.Pt()
    ensures c.SetFlag().SetFlag() == c.SetFlag()
  {
  }

  /** SetUnknown yields an unknown cell with value -3 at the same position. */
  lemma SetUnknownProperties(c: Cell)
    ensures c.SetUnknown().IsUnknown() && c.SetUnknown().Int() == -3
    ensures c.SetUnknown().Pt() == c.Pt()
  {
  }
}
