/** The board as the rules see it: a row-major sequence of cell states of a
    fixed width, its addressing and neighbour queries, the list filters and
    the index-keyed set helpers the rules share, and the two single-cell
    mutations. */
module Views {
  import opened Cells

  /** A row width; a board is never zero columns wide. */
  type Width = c: int | c > 0 witness 1

  /** The cells of the board in row-major order, `cols` to a row. */
  datatype View = View(list: seq<State>, cols: Width) {

    function Rows(): int {
      |list| / cols
    }

    function Cols(): int {
      cols
    }

    predicate InBounds(p: Point) {
      0 <= p.x < Rows() && 0 <= p.y < Cols()
    }

    /** The whole 3×3 block around `p` is on the board. */
    predicate Interior(p: Point) {
      1 <= p.x < Rows() - 1 && 1 <= p.y < Cols() - 1
    }

    /** The whole half-window of `p` is on the board. */
    predicate RelInBounds(p: Point) {
      0 <= p.x < Rows() - 2 && 2 <= p.y < Cols() - 2
    }

    function GetIndex(x: int, y: int): int {
      Index(x, y, cols)
    }

    function StateAt(p: Point): State
      requires InBounds(p)
    {
      GetIndexInRange(this, p);
      list[GetIndex(p.x, p.y)]
    }

    predicate UnknownAt(p: Point) {
      InBounds(p) && StateAt(p) == Unknown
    }

    predicate FlagAt(p: Point) {
      InBounds(p) && StateAt(p) == Flag
    }

    predicate UnTapAt(p: Point) {
      UnknownAt(p) || FlagAt(p)
    }

    function GetCell(x: int, y: int): Cell
      requires InBounds(Point(x, y))
    {
      Cell(x, y, StateAt(Point(x, y)))
    }

    /** Every cell of `cs` is this board's cell at its own position. */
    predicate Faithful(cs: seq<Cell>) {
      forall k :: 0 <= k < |cs| ==> InBounds(cs[k].Pt()) && cs[k] == GetCell(cs[k].row, cs[k].col)
    }

    /** The board's cells at the nine points of `c`'s 3×3 block. */
    function GetSub(c: Cell): (r: seq<Cell>)
      requires Interior(c.Pt())
      ensures |r| == 9 && Faithful(r)
      ensures forall k :: 0 <= k < 9 ==> r[k].Pt() == c.Pt().GetSub()[k]
    {
      var ps := c.Pt().GetSub();
      seq(9, k requires 0 <= k < 9 => GetCell(ps[k].x, ps[k].y))
    }

    /** The board's cells at the thirteen points of `c`'s half-window. */
    function GetRel(c: Cell): (r: seq<Cell>)
      requires RelInBounds(c.Pt())
      ensures |r| == 13 && Faithful(r)
      ensures forall k :: 0 <= k < 13 ==> r[k].Pt() == c.Pt().GetRel()[k]
    {
      var ps := c.Pt().GetRel();
      seq(13, k requires 0 <= k < 13 => GetCell(ps[k].x, ps[k].y))
    }

    /** Flags the cell at row `x`, column `y`. */
    function SetFlag(x: int, y: int): (r: View)
      requires InBounds(Point(x, y))
      ensures r.cols == cols && |r.list| == |list|
      ensures r.StateAt(Point(x, y)) == Flag
      ensures forall q :: InBounds(q) && q != Point(x, y) ==> r.StateAt(q) == StateAt(q)
    {
      GetIndexInRange(this, Point(x, y));
      var r := this.(list := list[GetIndex(x, y) := GetCell(x, y).SetFlag().state]);
      forall q | InBounds(q) && q != Point(x, y) ensures r.StateAt(q) == StateAt(q) {
        GetIndexInRange(this, q);
        IndexInjective(q.x, q.y, x, y, cols);
      }
      r
    }

    /** Forces the cell at row `x`, column `y` back to Unknown. */
    function Reset(x: int, y: int): (r: View)
      requires InBounds(Point(x, y))
      ensures r.cols == cols && |r.list| == |list|
      ensures r.StateAt(Point(x, y)) == Unknown
      ensures forall q :: InBounds(q) && q != Point(x, y) ==> r.StateAt(q) == StateAt(q)
    {
      GetIndexInRange(this, Point(x, y));
      var r := this.(list := list[GetIndex(x, y) := GetCell(x, y).SetUnknown().state]);
      forall q | InBounds(q) && q != Point(x, y) ensures r.StateAt(q) == StateAt(q) {
        GetIndexInRange(this, q);
        IndexInjective(q.x, q.y, x, y, cols);
      }
      r
    }

    /** Flags every cell of `marks` at once: the net effect of calling
        SetFlag on each of them in turn. */
    function FlagAll(marks: set<Point>): (r: View)
      ensures r.cols == cols && |r.list| == |list|
      ensures forall q :: InBounds(q) ==> r.StateAt(q) == if q in marks then Flag else StateAt(q)
    {
      var r := this.(list := seq(|list|, k requires 0 <= k < |list| =>
        if Point(k / cols, k % cols) in marks then Flag else list[k]));
      forall q | InBounds(q) ensures r.StateAt(q) == if q in marks then Flag else StateAt(q) {
        GetIndexInRange(this, q);
        IndexInverse(q.x, q.y, cols);
      }
      r
    }

    /** The positions of all Unknown cells. */
    function UnknownCells(): set<Point> {
      set x, y | 0 <= x < Rows() && 0 <= y < Cols() && StateAt(Point(x, y)) == Unknown :: Point(x, y)
    }
  }

  /** The linear index of an on-board point addresses an existing cell. */
  lemma GetIndexInRange(v: View, p: Point)
    requires v.InBounds(p)
    ensures 0 <= v.GetIndex(p.x, p.y) < |v.list|
  {
    TimesProduct(p.x, v.cols);
    RowBound(p.x, p.y, v.cols, |v.list|);
  }

  /** A row below `len / cols` and a column below `cols` give an index
      below `len`. */
  lemma RowBound(x: int, y: int, cols: int, len: int)
    requires cols > 0 && 0 <= x < len / cols && 0 <= y < cols
    ensures x * cols + y < len
  {
    var rows := len / cols;
    assert rows * cols <= len;
    var d := rows - (x + 1);
    assert d * cols >= 0;
    assert rows * cols == (x + 1) * cols + d * cols;
  }

  /** Drops index 4 (the centre) from a 3×3 block. */
  function FilterAround(a: seq<Cell>): seq<Cell>
    requires |a| == 9
  {
    seq(8, i requires 0 <= i < 8 => a[if i < 4 then i else i + 1])
  }

  /** The eight cells around `c`. */
  function Around(v: View, c: Cell): seq<Cell>
    requires v.Interior(c.Pt())
  {
    FilterAround(v.GetSub(c))
  }

  /** The positions of a list of cells. */
  function Pts(cs: seq<Cell>): set<Point> {
    set c | c in cs :: c.Pt()
  }

  /** No two cells of `cs` share a position. */
  predicate DistinctPts(cs: seq<Cell>) {
    forall a, b :: 0 <= a < b < |cs| ==> cs[a].Pt() != cs[b].Pt()
  }

  /** The three classes of cell the rules filter a list on. */
  datatype Kind = Unknowns | Flags | UnTapped

  predicate OfKind(c: Cell, k: Kind) {
    match k
    case Unknowns => c.IsUnknown()
    case Flags => c.IsFlag()
    case UnTapped => c.IsUnTap()
  }

  /** A filtering loop over `cs` after its first `n` iterations: each cell
      of kind `k` is appended in turn. */
  function FilterPrefix(cs: seq<Cell>, k: Kind, n: int): seq<Cell>
    requires 0 <= n <= |cs|
  {
    if n == 0 then []
    else FilterPrefix(cs, k, n - 1) + (if OfKind(cs[n - 1], k) then [cs[n - 1]] else [])
  }

  /** The cells of `cs` that are flags, in order. */
  function FilterFlag(cs: seq<Cell>): seq<Cell> {
    FilterPrefix(cs, Flags, |cs|)
  }

  /** The cells of `cs` that are unknown, in order. */
  function FilterUnknown(cs: seq<Cell>): seq<Cell> {
    FilterPrefix(cs, Unknowns, |cs|)
  }

  /** The cells of `cs` that are untapped (unknown or flag), in order; its
      length is the count FindBoom's loop keeps. */
  function FilterUnTap(cs: seq<Cell>): seq<Cell> {
    FilterPrefix(cs, UnTapped, |cs|)
  }

  /** After `n` iterations the loop holds exactly the cells of kind `k`
      among the first `n` cells. */
  lemma {:induction false} FilterPrefixMembers(cs: seq<Cell>, k: Kind, n: int)
    requires 0 <= n <= |cs|
    ensures forall c :: c in FilterPrefix(cs, k, n) <==> OfKind(c, k) && exists j :: 0 <= j < n && cs[j] == c
  {
    if n > 0 {
      FilterPrefixMembers(cs, k, n - 1);
    }
  }

  /** A filter keeps exactly the cells of its kind. */
  lemma FilterMembers(cs: seq<Cell>, k: Kind)
    ensures forall c :: c in FilterPrefix(cs, k, |cs|) <==> c in cs && OfKind(c, k)
  {
    FilterPrefixMembers(cs, k, |cs|);
  }

  /** Filtering a list without repeated positions leaves such a list. */
  lemma {:induction false} FilterPrefixDistinct(cs: seq<Cell>, k: Kind, n: int)
    requires DistinctPts(cs) && 0 <= n <= |cs|
    ensures DistinctPts(FilterPrefix(cs, k, n))
  {
    if n > 0 {
      var rest := FilterPrefix(cs, k, n - 1);
      FilterPrefixDistinct(cs, k, n - 1);
      if OfKind(cs[n - 1], k) {
        FilterPrefixMembers(cs, k, n - 1);
        var r := rest + [cs[n - 1]];
        forall a, b | 0 <= a < b < |r| ensures r[a].Pt() != r[b].Pt() {
          if b == |rest| {
            assert r[a] in rest;
          } else {
            assert r[a] == rest[a] && r[b] == rest[b];
          }
        }
      }
    }
  }

  /** With no position repeated, a list has as many positions as cells. */
  lemma {:induction false} CardPts(cs: seq<Cell>)
    requires DistinctPts(cs)
    ensures |Pts(cs)| == |cs|
  {
    if cs != [] {
      var rest := cs[1..];
      assert DistinctPts(rest) by {
        forall a, b | 0 <= a < b < |rest| ensures rest[a].Pt() != rest[b].Pt() {
          assert rest[a] == cs[a + 1] && rest[b] == cs[b + 1];
        }
      }
      CardPts(rest);
      assert Pts(cs) == {cs[0].Pt()} + Pts(rest);
    }
  }

  /** The eight cells around an interior cell are the board's cells at
      exactly its eight neighbours, each once. */
  lemma AroundFacts(v: View, c: Cell)
    requires v.Interior(c.Pt())
    ensures |Around(v, c)| == 8 && v.Faithful(Around(v, c)) && DistinctPts(Around(v, c))
    ensures Pts(Around(v, c)) == Neighbours(c.Pt())
  {
    AroundDistinct(v, c);
    AroundNeighbours(v, c);
  }

  /** The eight cells around an interior cell are read from the board at
      eight different positions. */
  lemma AroundDistinct(v: View, c: Cell)
    requires v.Interior(c.Pt())
    ensures |Around(v, c)| == 8 && v.Faithful(Around(v, c)) && DistinctPts(Around(v, c))
  {
    var s := v.GetSub(c);
    var a := Around(v, c);
    var ps := c.Pt().GetSub();
    GetSubDistinct(c.Pt());
    forall i, j | 0 <= i < j < 8 ensures a[i].Pt() != a[j].Pt() {
      var si, sj := if i < 4 then i else i + 1, if j < 4 then j else j + 1;
      assert a[i] == s[si] && a[j] == s[sj];
    }
  }

  /** The positions of the eight cells around an interior cell are its
      neighbours. */
  lemma AroundNeighbours(v: View, c: Cell)
    requires v.Interior(c.Pt())
    ensures Pts(Around(v, c)) == Neighbours(c.Pt())
  {
    var s := v.GetSub(c);
    var a := Around(v, c);
    var ps := c.Pt().GetSub();
    forall q | q in Neighbours(c.Pt()) ensures q in Pts(a) {
      var k :| 0 <= k < 9 && k != 4 && ps[k] == q;
      var i := if k < 4 then k else k - 1;
      assert a[i] == s[k];
    }
    forall q | q in Pts(a) ensures q in Neighbours(c.Pt()) {
      var d :| d in a && d.Pt() == q;
      var i :| 0 <= i < 8 && a[i] == d;
      var k := if i < 4 then i else i + 1;
      assert a[i] == s[k];
    }
  }

  /** A cell of a faithful list is the board's cell at its position. */
  lemma FaithfulMember(v: View, a: seq<Cell>, d: Cell)
    requires v.Faithful(a) && d in a
    ensures v.InBounds(d.Pt()) && d == v.GetCell(d.row, d.col)
  {
    var i :| 0 <= i < |a| && a[i] == d;
  }

  /** A position of a faithful list carries the board's cell there. */
  lemma FaithfulPoint(v: View, a: seq<Cell>, q: Point)
    requires v.Faithful(a) && q in Pts(a)
    ensures v.InBounds(q) && v.GetCell(q.x, q.y) in a
  {
    var d :| d in a && d.Pt() == q;
    FaithfulMember(v, a, d);
  }

  /** The unknown, flagged and untapped neighbours of `p`. */
  function UnknownNbrs(v: View, p: Point): set<Point> {
    set q | q in Neighbours(p) && v.UnknownAt(q)
  }

  function FlagNbrs(v: View, p: Point): set<Point> {
    set q | q in Neighbours(p) && v.FlagAt(q)
  }

  function UnTapNbrs(v: View, p: Point): set<Point> {
    set q | q in Neighbours(p) && v.UnTapAt(q)
  }

  /** The unknown cells around an interior cell sit at exactly its unknown
      neighbours, each once. */
  lemma AroundUnknown(v: View, c: Cell)
    requires v.Interior(c.Pt())
    ensures Pts(FilterUnknown(Around(v, c))) == UnknownNbrs(v, c.Pt())
    ensures |UnknownNbrs(v, c.Pt())| == |FilterUnknown(Around(v, c))|
  {
    var a := Around(v, c);
    var f := FilterUnknown(a);
    AroundFacts(v, c);
    FilterMembers(a, Unknowns);
    FilterPrefixDistinct(a, Unknowns, |a|);
    CardPts(f);
    forall q | q in Pts(f) ensures q in Neighbours(c.Pt()) && v.UnknownAt(q) {
      var d :| d in f && d.Pt() == q;
      FaithfulMember(v, a, d);
      StatePredicates(d);
    }
    forall q | q in Neighbours(c.Pt()) && v.UnknownAt(q) ensures q in Pts(f) {
      FaithfulPoint(v, a, q);
      StatePredicates(v.GetCell(q.x, q.y));
      assert v.GetCell(q.x, q.y) in f;
    }
  }

  /** The flagged cells around an interior cell sit at exactly its flagged
      neighbours, each once. */
  lemma AroundFlag(v: View, c: Cell)
    requires v.Interior(c.Pt())
    ensures Pts(FilterFlag(Around(v, c))) == FlagNbrs(v, c.Pt())
    ensures |FlagNbrs(v, c.Pt())| == |FilterFlag(Around(v, c))|
  {
    var a := Around(v, c);
    var f := FilterFlag(a);
    AroundFacts(v, c);
    FilterMembers(a, Flags);
    FilterPrefixDistinct(a, Flags, |a|);
    CardPts(f);
    forall q | q in Pts(f) ensures q in Neighbours(c.Pt()) && v.FlagAt(q) {
      var d :| d in f && d.Pt() == q;
      FaithfulMember(v, a, d);
      StatePredicates(d);
    }
    forall q | q in Neighbours(c.Pt()) && v.FlagAt(q) ensures q in Pts(f) {
      FaithfulPoint(v, a, q);
      StatePredicates(v.GetCell(q.x, q.y));
      assert v.GetCell(q.x, q.y) in f;
    }
  }

  /** The untapped cells around an interior cell sit at exactly its
      untapped neighbours, each once. */
  lemma AroundUnTap(v: View, c: Cell)
    requires v.Interior(c.Pt())
    ensures Pts(FilterUnTap(Around(v, c))) == UnTapNbrs(v, c.Pt())
    ensures |UnTapNbrs(v, c.Pt())| == |FilterUnTap(Around(v, c))|
  {
    var a := Around(v, c);
    var f := FilterUnTap(a);
    AroundFacts(v, c);
    FilterMembers(a, UnTapped);
    FilterPrefixDistinct(a, UnTapped, |a|);
    CardPts(f);
    forall q | q in Pts(f) ensures q in Neighbours(c.Pt()) && v.UnTapAt(q) {
      var d :| d in f && d.Pt() == q;
      FaithfulMember(v, a, d);
      StatePredicates(d);
    }
    forall q | q in Neighbours(c.Pt()) && v.UnTapAt(q) ensures q in Pts(f) {
      FaithfulPoint(v, a, q);
      StatePredicates(v.GetCell(q.x, q.y));
      assert v.GetCell(q.x, q.y) in f;
    }
  }

  /** Writes `val` under the position of every untapped cell of `cs`. */
  function MarkUnTap(dic: map<Point, bool>, cs: seq<Cell>, val: bool): map<Point, bool>
    decreases |cs|
  {
    if cs == [] then dic
    else MarkUnTap(if cs[0].IsUnTap() then dic[cs[0].Pt() := val] else dic, cs[1..], val)
  }

  /** MarkUnTap adds the untapped positions of `cs` as keys, maps them to
      `val`, and leaves every other key as it was. */
  lemma {:induction false} MarkUnTapSpec(dic: map<Point, bool>, cs: seq<Cell>, val: bool)
    ensures var r := MarkUnTap(dic, cs, val);
      && r.Keys == dic.Keys + Pts(FilterUnTap(cs))
      && forall p :: p in r ==> r[p] == if p in Pts(FilterUnTap(cs)) then val else dic[p]
    decreases |cs|
  {
    if cs != [] {
      var d := if cs[0].IsUnTap() then dic[cs[0].Pt() := val] else dic;
      MarkUnTapSpec(d, cs[1..], val);
      FilterMembers(cs, UnTapped);
      FilterMembers(cs[1..], UnTapped);
      assert Pts(FilterUnTap(cs)) == (if cs[0].IsUnTap() then {cs[0].Pt()} else {}) + Pts(FilterUnTap(cs[1..])) by {
        assert forall c :: c in cs <==> c == cs[0] || c in cs[1..];
      }
    }
  }

  /** Writes `val` under the position of every cell of `cs`. */
  function MarkAll(dic: map<Point, bool>, cs: seq<Cell>, val: bool): map<Point, bool>
    decreases |cs|
  {
    if cs == [] then dic else MarkAll(dic[cs[0].Pt() := val], cs[1..], val)
  }

  /** MarkAll adds the positions of `cs` as keys, maps them to `val`, and
      leaves every other key as it was. */
  lemma {:induction false} MarkAllSpec(dic: map<Point, bool>, cs: seq<Cell>, val: bool)
    ensures var r := MarkAll(dic, cs, val);
      && r.Keys == dic.Keys + Pts(cs)
      && forall p :: p in r ==> r[p] == if p in Pts(cs) then val else dic[p]
    decreases |cs|
  {
    if cs != [] {
      MarkAllSpec(dic[cs[0].Pt() := val], cs[1..], val);
      assert Pts(cs) == {cs[0].Pt()} + Pts(cs[1..]) by {
        assert forall c :: c in cs <==> c == cs[0] || c in cs[1..];
      }
    }
  }

  /** Sets to true every position of `cs` that is already a key. */
  function MarkPresent(dic: map<Point, bool>, cs: seq<Cell>): map<Point, bool>
    decreases |cs|
  {
    if cs == [] then dic
    else MarkPresent(if cs[0].Pt() in dic then dic[cs[0].Pt() := true] else dic, cs[1..])
  }

  /** MarkPresent keeps the keys and turns on exactly the keys that are
      positions of `cs`. */
  lemma {:induction false} MarkPresentSpec(dic: map<Point, bool>, cs: seq<Cell>)
    ensures var r := MarkPresent(dic, cs);
      && r.Keys == dic.Keys
      && forall p :: p in r ==> r[p] == (dic[p] || p in Pts(cs))
    decreases |cs|
  {
    if cs != [] {
      MarkPresentSpec(if cs[0].Pt() in dic then dic[cs[0].Pt() := true] else dic, cs[1..]);
      assert Pts(cs) == {cs[0].Pt()} + Pts(cs[1..]) by {
        assert forall c :: c in cs <==> c == cs[0] || c in cs[1..];
      }
    }
  }

  /** The positions a dictionary maps to true. */
  function TrueKeys(dic: map<Point, bool>): set<Point> {
    set p | p in dic && dic[p]
  }

  /** Untapped positions of `l1` that are not untapped positions of `l2`:
      the dictionary marks the first list true, then the second false. */
  function Sub(l1: seq<Cell>, l2: seq<Cell>): set<Point> {
    TrueKeys(MarkUnTap(MarkUnTap(map[], l1, true), l2, false))
  }

  /** Sub is set difference on the untapped positions of the two lists. */
  lemma SubSpec(l1: seq<Cell>, l2: seq<Cell>)
    ensures Sub(l1, l2) == Pts(FilterUnTap(l1)) - Pts(FilterUnTap(l2))
  {
    MarkUnTapSpec(map[], l1, true);
    MarkUnTapSpec(MarkUnTap(map[], l1, true), l2, false);
  }

  /** Positions common to both lists: the dictionary holds the first list's
      positions as false and turns those met in the second to true. */
  function And(l1: seq<Cell>, l2: seq<Cell>): set<Point> {
    TrueKeys(MarkPresent(MarkAll(map[], l1, false), l2))
  }

  /** And is intersection on the positions of the two lists. */
  lemma AndSpec(l1: seq<Cell>, l2: seq<Cell>)
    ensures And(l1, l2) == Pts(l1) * Pts(l2)
  {
    MarkAllSpec(map[], l1, false);
    MarkPresentSpec(MarkAll(map[], l1, false), l2);
  }

  /** Flagging a set of unknown cells removes exactly them from the unknown
      cells, so the number of unknown cells drops by the size of the set. */
  lemma FlagAllUnknowns(v: View, marks: set<Point>)
    requires marks <= v.UnknownCells()
    ensures v.FlagAll(marks).UnknownCells() == v.UnknownCells() - marks
    ensures |v.FlagAll(marks).UnknownCells()| == |v.UnknownCells()| - |marks|
  {
    var r := v.FlagAll(marks);
    assert r.Rows() == v.Rows();
    forall q | q in r.UnknownCells() ensures q in v.UnknownCells() - marks {
      assert r.InBounds(q);
    }
    forall q | q in v.UnknownCells() - marks ensures q in r.UnknownCells() {
      assert v.InBounds(q);
    }
  }

  /** Flagging a set all at once is flagging one member after the rest,
      so FlagAll agrees with SetFlag applied to each member in any order. */
  lemma FlagAllStep(v: View, marks: set<Point>, p: Point)
    requires p in marks && forall q :: q in marks ==> v.InBounds(q)
    ensures v.FlagAll(marks) == v.FlagAll(marks - {p}).SetFlag(p.x, p.y)
  {
    var a := v.FlagAll(marks);
    var m := v.FlagAll(marks - {p});
    var b := m.SetFlag(p.x, p.y);
    GetIndexInRange(v, p);
    IndexInverse(p.x, p.y, v.cols);
    var i := v.GetIndex(p.x, p.y);
    assert b.list == m.list[i := Flag];
    forall k | 0 <= k < |a.list| ensures a.list[k] == b.list[k] {
      var q := Point(k / v.cols, k % v.cols);
      IndexOf(k, v.cols);
      IndexInjective(q.x, q.y, p.x, p.y, v.cols);
    }
  }

  /** What a rule reports: cells that are certainly mines and cells that
      are certainly safe. */
  datatype Found = Found(mines: set<Point>, safe: set<Point>) {

    function Plus(other: Found): Found {
      Found(mines + other.mines, safe + other.safe)
    }

    /** The report is right about the mine placement `sol`. */
    predicate Agrees(sol: set<Point>) {
      mines <= sol && safe !! sol
    }
  }

  /** `sol` is a placement of mines that agrees with the board: mines lie
      only under untapped cells, every flag covers a mine, and each
      revealed interior cell counts exactly the mines around it. */
  ghost predicate Consistent(v: View, sol: set<Point>) {
    && (forall q :: q in sol ==> v.UnTapAt(q))
    && (forall q :: v.FlagAt(q) ==> q in sol)
    && (forall q :: v.Interior(q) && v.StateAt(q).Revealed? ==> |sol * Neighbours(q)| == v.StateAt(q).count)
  }
}
