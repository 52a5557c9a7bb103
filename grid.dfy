/** Pure part of the Minesweeper rules engine: cells, the neighbour table,
    counting over neighbours, and the relations between two boards that the
    operations of GamePlay (module Logic) establish. */
module Grid {

  /** A board position (x, y): column x, row y. Boards are indexed [y][x]. */
  type Coord = (int, int)

  /** One block of the board. `mine` and `flagged` are optional in the source;
      an absent value behaves as false everywhere it is read. */
  datatype Cell = Cell(x: int, y: int, adjacentMines: nat, revealed: bool, mine: bool, flagged: bool)

  type Board = seq<seq<Cell>>

  datatype Status = Play | Win | Lost

  /** The eight (dx, dy) offsets of the source's `directions` table, in its order. */
  const Directions: seq<Coord> := [(1, 1), (1, 0), (1, -1), (0, -1), (-1, -1), (-1, 0), (-1, 1), (0, 1)]

  function Abs(n: int): nat { if n < 0 then -n else n }

  predicate Distinct<T(==)>(s: seq<T>) {
    forall i, j | 0 <= i < j < |s| :: s[i] != s[j]
  }

  predicate InBounds(width: int, height: int, c: Coord) {
    0 <= c.0 < width && 0 <= c.1 < height
  }

  /** d is one of the eight positions around c (never c itself). */
  predicate Adjacent(c: Coord, d: Coord) {
    d != c && Abs(d.0 - c.0) <= 1 && Abs(d.1 - c.1) <= 1
  }

  /** d lies in the 3x3 square centred on c (c included). */
  predicate InArea(c: Coord, d: Coord) {
    Abs(c.0 - d.0) <= 1 && Abs(c.1 - d.1) <= 1
  }

  // ---------------------------------------------------------------------
  // Board shape and cell access

  /** The board has `height` rows of `width` cells. */
  predicate Shaped(b: Board, width: int, height: int) {
    |b| == height && forall y | 0 <= y < |b| :: |b[y]| == width
  }

  /** Every cell records its own position. */
  predicate Indexed(b: Board) {
    forall y, x | 0 <= y < |b| && 0 <= x < |b[y]| :: b[y][x].x == x && b[y][x].y == y
  }

  predicate OnBoard(b: Board, c: Coord) {
    0 <= c.1 < |b| && 0 <= c.0 < |b[c.1]|
  }

  predicate Covers(b: Board, cs: seq<Coord>) {
    forall c | c in cs :: OnBoard(b, c)
  }

  function At(b: Board, c: Coord): Cell
    requires OnBoard(b, c)
  {
    b[c.1][c.0]
  }

  /** b with the cell at c replaced by v. */
  function Put(b: Board, c: Coord, v: Cell): (r: Board)
    requires OnBoard(b, c)
    ensures |r| == |b| && forall y | 0 <= y < |b| :: |r[y]| == |b[y]|
    ensures At(r, c) == v
    ensures forall y, x | 0 <= y < |b| && 0 <= x < |b[y]| && (x, y) != c :: r[y][x] == b[y][x]
  {
    b[c.1 := b[c.1][c.0 := v]]
  }

  /** Writing a cell that keeps its position keeps the board's shape and positions. */
  lemma PutWellFormed(b: Board, width: int, height: int, c: Coord, v: Cell)
    requires Shaped(b, width, height) && Indexed(b) && OnBoard(b, c) && v.x == c.0 && v.y == c.1
    ensures Shaped(Put(b, c, v), width, height) && Indexed(Put(b, c, v))
  {
  }

  /** The board `reset` builds: rows built by `Array.from`. */
  function FreshBoard(width: nat, height: nat): (b: Board)
    ensures Shaped(b, width, height) && Indexed(b) && Pristine(b)
    ensures forall y, x | 0 <= y < height && 0 <= x < width :: !b[y][x].revealed && !b[y][x].flagged
  {
    seq(height, y => seq(width, x => Cell(x, y, 0, false, false, false)))
  }

  // ---------------------------------------------------------------------
  // Neighbours

  function Shift(c: Coord, o: Coord): Coord { (c.0 + o.0, c.1 + o.1) }
  function Unshift(c: Coord, d: Coord): Coord { (d.0 - c.0, d.1 - c.1) }

  /** Shifts c by each offset of ds and keeps the positions inside the board:
      the source's `directions.map(...).filter(Boolean)`. */
  function Offsets(ds: seq<Coord>, width: int, height: int, c: Coord): (r: seq<Coord>)
    ensures |r| <= |ds|
    ensures forall d | d in r :: InBounds(width, height, d)
  {
    if ds == [] then []
    else
      var d := Shift(c, ds[0]);
      (if InBounds(width, height, d) then [d] else []) + Offsets(ds[1..], width, height, c)
  }

  lemma {:induction false} OffsetsMembers(ds: seq<Coord>, width: int, height: int, c: Coord)
    ensures |Offsets(ds, width, height, c)| <= |ds|
    ensures forall o | o in ds && InBounds(width, height, Shift(c, o)) :: Shift(c, o) in Offsets(ds, width, height, c)
    ensures forall d | d in Offsets(ds, width, height, c) :: InBounds(width, height, d) && Unshift(c, d) in ds
  {
    if ds != [] {
      var tail := ds[1..];
      OffsetsMembers(tail, width, height, c);
      var d := Shift(c, ds[0]);
      var head := if InBounds(width, height, d) then [d] else [];
      var rest := Offsets(tail, width, height, c);
      assert Offsets(ds, width, height, c) == head + rest;
      forall o | o in ds && InBounds(width, height, Shift(c, o))
        ensures Shift(c, o) in head + rest
      {
        if o != ds[0] {
          assert o in tail;
        }
      }
      forall e | e in head + rest
        ensures InBounds(width, height, e) && Unshift(c, e) in ds
      {
        if e in rest {
          assert Unshift(c, e) in tail;
        } else {
          assert Unshift(c, e) == ds[0];
        }
      }
    }
  }

  lemma {:induction false} OffsetsDistinct(ds: seq<Coord>, width: int, height: int, c: Coord)
    requires Distinct(ds)
    ensures Distinct(Offsets(ds, width, height, c))
  {
    if ds != [] {
      var tail := ds[1..];
      assert Distinct(tail) by {
        forall i, j | 0 <= i < j < |tail| ensures tail[i] != tail[j] {
          assert tail[i] == ds[i + 1] && tail[j] == ds[j + 1];
        }
      }
      OffsetsDistinct(tail, width, height, c);
      OffsetsMembers(tail, width, height, c);
      var d := Shift(c, ds[0]);
      assert ds[0] !in tail by {
        forall k | 0 <= k < |tail| ensures tail[k] != ds[0] {
          assert tail[k] == ds[k + 1];
        }
      }
      assert Unshift(c, d) == ds[0];
      assert d !in Offsets(tail, width, height, c);
    }
  }

  /** Every offset of the table is a unit step other than (0, 0), and no offset repeats. */
  lemma DirectionsUnit()
    ensures Distinct(Directions)
    ensures forall o | o in Directions :: o != (0, 0) && Abs(o.0) <= 1 && Abs(o.1) <= 1
  {
  }

  /** Every unit step other than (0, 0) is in the table. */
  lemma UnitInDirections(o: Coord)
    requires o != (0, 0) && Abs(o.0) <= 1 && Abs(o.1) <= 1
    ensures o in Directions
  {
    var k := if o == (1, 1) then 0 else if o == (1, 0) then 1 else if o == (1, -1) then 2
             else if o == (0, -1) then 3 else if o == (-1, -1) then 4 else if o == (-1, 0) then 5
             else if o == (-1, 1) then 6 else 7;
    assert Directions[k] == o;
  }

  lemma SiblingsSound(width: int, height: int, c: Coord)
    ensures |Offsets(Directions, width, height, c)| <= 8
    ensures Distinct(Offsets(Directions, width, height, c))
    ensures forall d | d in Offsets(Directions, width, height, c) :: InBounds(width, height, d) && Adjacent(c, d)
  {
    DirectionsUnit();
    OffsetsMembers(Directions, width, height, c);
    OffsetsDistinct(Directions, width, height, c);
    forall d | d in Offsets(Directions, width, height, c)
      ensures InBounds(width, height, d) && Adjacent(c, d)
    {
      assert Unshift(c, d) in Directions;
    }
  }

  lemma SiblingsComplete(width: int, height: int, c: Coord)
    ensures forall d | InBounds(width, height, d) && Adjacent(c, d) :: d in Offsets(Directions, width, height, c)
  {
    OffsetsMembers(Directions, width, height, c);
    forall d | InBounds(width, height, d) && Adjacent(c, d)
      ensures d in Offsets(Directions, width, height, c)
    {
      var o := Unshift(c, d);
      assert o != (0, 0) && Abs(o.0) <= 1 && Abs(o.1) <= 1;
      UnitInDirections(o);
      assert Shift(c, o) == d && InBounds(width, height, Shift(c, o));
    }
  }

  /** The source's `getSiblings`: exactly the in-bounds cells around c, each once. */
  function Siblings(width: int, height: int, c: Coord): (r: seq<Coord>)
    ensures |r| <= 8
    ensures Distinct(r)
    ensures c !in r
    ensures forall d :: d in r <==> InBounds(width, height, d) && Adjacent(c, d)
  {
    SiblingsSound(width, height, c);
    SiblingsComplete(width, height, c);
    Offsets(Directions, width, height, c)
  }

  // ---------------------------------------------------------------------
  // Counting over a list of positions

  /** What the source counts over a block's siblings: mines (`updateNumbers`),
      flags, and blocks neither revealed nor flagged (both in `autoExpand`). */
  datatype Property = IsMine | IsFlagged | IsCovered

  predicate Holds(p: Property, v: Cell) {
    match p
    case IsMine => v.mine
    case IsFlagged => v.flagged
    case IsCovered => !v.revealed && !v.flagged
  }

  /** Number of positions of cs whose cell satisfies p (the source's
      `forEach`/`reduce` counters). */
  function CountWhere(b: Board, cs: seq<Coord>, p: Property): (n: nat)
    requires Covers(b, cs)
    ensures n <= |cs|
  {
    if cs == [] then 0
    else CountWhere(b, cs[..|cs| - 1], p) + (if Holds(p, At(b, cs[|cs| - 1])) then 1 else 0)
  }

  /** Counting one position further along cs, as a loop over cs does. */
  lemma CountStep(b: Board, cs: seq<Coord>, k: int, p: Property)
    requires Covers(b, cs) && 0 <= k < |cs|
    ensures Covers(b, cs[..k]) && Covers(b, cs[..k + 1]) && OnBoard(b, cs[k])
    ensures CountWhere(b, cs[..k + 1], p) == CountWhere(b, cs[..k], p) + if Holds(p, At(b, cs[k])) then 1 else 0
  {
    assert cs[..k + 1][..k] == cs[..k];
  }

  /** The positions of cs whose cell satisfies p. */
  function Matching(b: Board, cs: seq<Coord>, p: Property): set<Coord>
    requires Covers(b, cs)
  {
    set c | c in cs && Holds(p, At(b, c))
  }

  /** On a list without repetitions the count is the size of the set it counts. */
  lemma {:induction false} CountIsCardinality(b: Board, cs: seq<Coord>, p: Property)
    requires Covers(b, cs) && Distinct(cs)
    ensures CountWhere(b, cs, p) == |Matching(b, cs, p)|
  {
    if cs != [] {
      var front, last := cs[..|cs| - 1], cs[|cs| - 1];
      MatchingLast(b, cs, p);
      CountIsCardinality(b, front, p);
    }
  }

  /** Splitting off the last position of a list without repetitions. */
  lemma MatchingLast(b: Board, cs: seq<Coord>, p: Property)
    requires Covers(b, cs) && Distinct(cs) && cs != []
    ensures Covers(b, cs[..|cs| - 1]) && Distinct(cs[..|cs| - 1])
    ensures cs[|cs| - 1] !in Matching(b, cs[..|cs| - 1], p)
    ensures Matching(b, cs, p) ==
            Matching(b, cs[..|cs| - 1], p) + if Holds(p, At(b, cs[|cs| - 1])) then {cs[|cs| - 1]} else {}
  {
    var front, last := cs[..|cs| - 1], cs[|cs| - 1];
    assert last !in front by {
      forall k | 0 <= k < |front| ensures front[k] != last {
        assert front[k] == cs[k];
      }
    }
    assert cs == front + [last];
  }

  /** A count of zero means no position of cs satisfies p, and conversely. */
  lemma {:induction false} CountZero(b: Board, cs: seq<Coord>, p: Property)
    requires Covers(b, cs)
    ensures CountWhere(b, cs, p) == 0 <==> forall c | c in cs :: !Holds(p, At(b, c))
  {
    if cs != [] {
      var front := cs[..|cs| - 1];
      CountZero(b, front, p);
      assert cs == front + [cs[|cs| - 1]];
    }
  }

  /** The mines among the eight positions around c, defined from the
      coordinates directly rather than from the `directions` table. */
  function MineNeighbours(b: Board, width: int, height: int, c: Coord): set<Coord>
    requires Shaped(b, width, height)
  {
    set y, x | c.1 - 1 <= y <= c.1 + 1 && c.0 - 1 <= x <= c.0 + 1 && (x, y) != c
               && InBounds(width, height, (x, y)) && b[y][x].mine
      :: (x, y)
  }

  /** Counting mines over `getSiblings` counts exactly the mine neighbours. */
  lemma NeighbourMineCount(b: Board, width: int, height: int, c: Coord)
    requires Shaped(b, width, height)
    ensures Covers(b, Siblings(width, height, c))
    ensures CountWhere(b, Siblings(width, height, c), IsMine) == |MineNeighbours(b, width, height, c)|
  {
    var sibs := Siblings(width, height, c);
    CountIsCardinality(b, sibs, IsMine);
    var counted := Matching(b, sibs, IsMine);
    var around := MineNeighbours(b, width, height, c);
    forall d | d in counted ensures d in around {
      var (x, y) := d;
      assert (x, y) == d;
    }
    forall d | d in around ensures d in counted {
      var y, x :| c.1 - 1 <= y <= c.1 + 1 && c.0 - 1 <= x <= c.0 + 1 && (x, y) != c
                  && InBounds(width, height, (x, y)) && b[y][x].mine && d == (x, y);
      assert Adjacent(c, d);
    }
    assert counted == around;
  }

  // ---------------------------------------------------------------------
  // Whole-board predicates

  /** No mines and every count zero: a board on which mines were never generated. */
  predicate Pristine(b: Board) {
    forall y, x | 0 <= y < |b| && 0 <= x < |b[y]| :: !b[y][x].mine && b[y][x].adjacentMines == 0
  }

  /** Every mine cell has count 0 (updateNumbers skips mines) and every other
      cell counts exactly the mines around it. */
  predicate NumbersExact(b: Board, width: int, height: int)
    requires Shaped(b, width, height)
  {
    forall y, x | 0 <= y < height && 0 <= x < width ::
      b[y][x].adjacentMines == if b[y][x].mine then 0 else |MineNeighbours(b, width, height, (x, y))|
  }

  /** A non-mine cell with count 0 has no mine among its siblings. */
  ghost predicate ZeroMeansSafe(b: Board, width: int, height: int)
    requires Shaped(b, width, height)
  {
    forall c | InBounds(width, height, c) && !At(b, c).mine && At(b, c).adjacentMines == 0 ::
      forall d | d in Siblings(width, height, c) :: !At(b, d).mine
  }

  lemma ExactIsSafe(b: Board, width: int, height: int)
    requires Shaped(b, width, height)
    requires NumbersExact(b, width, height) || Pristine(b)
    ensures ZeroMeansSafe(b, width, height)
  {
    forall c | InBounds(width, height, c) && !At(b, c).mine && At(b, c).adjacentMines == 0
      ensures forall d | d in Siblings(width, height, c) :: !At(b, d).mine
    {
      if !Pristine(b) {
        var (x, y) := c;
        assert c == (x, y);
        NeighbourMineCount(b, width, height, c);
        CountZero(b, Siblings(width, height, c), IsMine);
      }
    }
  }

  /** The win test of `checkGameState`: every cell is revealed, flagged or a mine. */
  predicate AllCleared(b: Board) {
    forall y, x | 0 <= y < |b| && 0 <= x < |b[y]| :: b[y][x].revealed || b[y][x].flagged || b[y][x].mine
  }

  /** The inner test of `checkGameState`: some flag stands on a cell without a mine. */
  predicate Misflagged(b: Board) {
    exists y, x | 0 <= y < |b| && 0 <= x < |b[y]| :: b[y][x].flagged && !b[y][x].mine
  }

  predicate AllMinesShown(b: Board) {
    forall y, x | 0 <= y < |b| && 0 <= x < |b[y]| :: b[y][x].mine ==> b[y][x].revealed
  }

  /** No revealed block is a mine. */
  predicate NoMineShown(b: Board) {
    forall y, x | 0 <= y < |b| && 0 <= x < |b[y]| :: b[y][x].revealed ==> !b[y][x].mine
  }

  /** Positions of the mines. */
  function Mines(b: Board): set<Coord> {
    set y, x | 0 <= y < |b| && 0 <= x < |b[y]| && b[y][x].mine :: (x, y)
  }

  /** Positions not yet revealed: the measure that shrinks on every step of `expendZero`. */
  function Hidden(b: Board): set<Coord> {
    set y, x | 0 <= y < |b| && 0 <= x < |b[y]| && !b[y][x].revealed :: (x, y)
  }

  /** The candidates `placeRandom` would accept: on the board, outside the 3x3
      square around the first click, and not already a mine. */
  function Eligible(b: Board, initial: Coord, candidates: seq<Coord>): (r: set<Coord>)
    ensures r !! Mines(b)
    ensures forall c | c in r :: c in candidates && !InArea(initial, c)
  {
    set c | c in candidates && OnBoard(b, c) && !InArea(initial, c) && !At(b, c).mine
  }

  // ---------------------------------------------------------------------
  // Relations between the board before and after an operation

  predicate SameShape(b0: Board, b1: Board) {
    |b0| == |b1| && forall y | 0 <= y < |b0| :: |b0[y]| == |b1[y]|
  }

  /** Only `revealed` changes, and only from false to true. */
  predicate RevealOnly(b0: Board, b1: Board) {
    SameShape(b0, b1) &&
    forall y, x | 0 <= y < |b0| && 0 <= x < |b0[y]| ::
      b1[y][x] == b0[y][x].(revealed := b1[y][x].revealed) && (b0[y][x].revealed ==> b1[y][x].revealed)
  }

  /** Only `revealed` and `flagged` change, and each only from false to true. */
  predicate Grows(b0: Board, b1: Board) {
    SameShape(b0, b1) &&
    forall y, x | 0 <= y < |b0| && 0 <= x < |b0[y]| ::
      b1[y][x] == b0[y][x].(revealed := b1[y][x].revealed, flagged := b1[y][x].flagged) &&
      (b0[y][x].revealed ==> b1[y][x].revealed) && (b0[y][x].flagged ==> b1[y][x].flagged)
  }

  /** Mines and counts agree. */
  predicate SameLayout(b0: Board, b1: Board) {
    SameShape(b0, b1) &&
    forall y, x | 0 <= y < |b0| && 0 <= x < |b0[y]| ::
      b1[y][x].mine == b0[y][x].mine && b1[y][x].adjacentMines == b0[y][x].adjacentMines &&
      b1[y][x].x == b0[y][x].x && b1[y][x].y == b0[y][x].y
  }

  /** What depends only on mines and counts carries over to a board with the same layout. */
  lemma LayoutKept(b0: Board, b1: Board, width: int, height: int)
    requires Shaped(b0, width, height) && SameLayout(b0, b1)
    ensures Shaped(b1, width, height)
    ensures Indexed(b0) ==> Indexed(b1)
    ensures Pristine(b0) ==> Pristine(b1)
    ensures Mines(b1) == Mines(b0)
    ensures NumbersExact(b0, width, height) ==> NumbersExact(b1, width, height)
    ensures ZeroMeansSafe(b0, width, height) ==> ZeroMeansSafe(b1, width, height)
  {
    forall y, x | 0 <= y < height && 0 <= x < width
      ensures MineNeighbours(b0, width, height, (x, y)) == MineNeighbours(b1, width, height, (x, y))
    {
      MineNeighboursSame(b0, b1, width, height, (x, y));
    }
    if ZeroMeansSafe(b0, width, height) {
      forall c | InBounds(width, height, c) && !At(b1, c).mine && At(b1, c).adjacentMines == 0
        ensures forall d | d in Siblings(width, height, c) :: !At(b1, d).mine
      {
        assert !At(b0, c).mine && At(b0, c).adjacentMines == 0;
      }
    }
  }

  /** Changing only `revealed` never adds a hidden cell. */
  lemma RevealHidden(b0: Board, b1: Board)
    requires RevealOnly(b0, b1)
    ensures Hidden(b1) <= Hidden(b0)
  {
  }

  /** Revealing one more hidden cell strictly shrinks the hidden set. */
  lemma RevealShrinks(b0: Board, b1: Board, c: Coord)
    requires RevealOnly(b0, b1) && OnBoard(b1, c) && !At(b1, c).revealed
    ensures Hidden(Put(b1, c, At(b1, c).(revealed := true))) < Hidden(b0)
  {
    RevealHidden(b0, b1);
    assert c in Hidden(b1);
  }

  /** Mines are read from the `mine` field alone. */
  lemma MinesKept(b0: Board, b1: Board)
    requires SameShape(b0, b1)
    requires forall y, x | 0 <= y < |b0| && 0 <= x < |b0[y]| :: b1[y][x].mine == b0[y][x].mine
    ensures Mines(b1) == Mines(b0)
  {
  }

  /** One more candidate adds itself to the eligible set exactly when it is eligible. */
  lemma EligibleStep(b: Board, initial: Coord, cs: seq<Coord>, c: Coord)
    ensures Eligible(b, initial, cs + [c]) ==
            Eligible(b, initial, cs) + (if OnBoard(b, c) && !InArea(initial, c) && !At(b, c).mine then {c} else {})
  {
  }

  /** Progress of the mine placement of `generateMines` from b0 after drawing
      the positions cs: the positions drawn are remembered in `drawn`, the
      new mines are exactly the eligible positions among cs, and nothing but
      `mine` has changed. */
  predicate Sampled(b0: Board, initial: Coord, cs: seq<Coord>, drawn: set<Coord>, b: Board, added: set<Coord>) {
    SameShape(b0, b) &&
    drawn == (set c | c in cs) &&
    added == Eligible(b0, initial, cs) &&
    forall y, x | 0 <= y < |b0| && 0 <= x < |b0[y]| :: b[y][x] == b0[y][x].(mine := b0[y][x].mine || (x, y) in added)
  }

  /** While sampling, the mines are the old ones plus the added ones, which
      are new. */
  lemma SampledMines(b0: Board, initial: Coord, cs: seq<Coord>, drawn: set<Coord>, b: Board, added: set<Coord>)
    requires Sampled(b0, initial, cs, drawn, b, added)
    ensures added !! Mines(b0) && Mines(b) == Mines(b0) + added
  {
    forall c | c in added ensures c in Mines(b) && c !in Mines(b0) {
      var (x, y) := c;
      assert b[y][x].mine;
    }
  }

  /** One more draw at c: it becomes a mine exactly when it is eligible and
      was not drawn before, which keeps Sampled. */
  lemma SampleStep(b0: Board, initial: Coord, cs: seq<Coord>, drawn: set<Coord>, b: Board, added: set<Coord>,
                   c: Coord, cs': seq<Coord>, placed: bool, b': Board)
    requires Sampled(b0, initial, cs, drawn, b, added) && OnBoard(b0, c) && cs' == cs + [c]
    requires OnBoard(b, c) && (placed <==> c !in drawn && !InArea(initial, c) && !At(b, c).mine)
    requires b' == if placed then Put(b, c, At(b, c).(mine := true)) else b
    ensures placed ==> c !in added && |added + {c}| == |added| + 1
    ensures Sampled(b0, initial, cs', drawn + {c}, b', if placed then added + {c} else added)
  {
    EligibleStep(b0, initial, cs, c);
    assert (set d | d in cs + [c]) == drawn + {c};
    if c in drawn {
    } else if !InArea(initial, c) {
      assert c !in added;
      assert At(b, c).mine == At(b0, c).mine;
    }
  }

  /** Two boards with the same rows, cell by cell, are equal. */
  lemma BoardEq(b0: Board, b1: Board)
    requires SameShape(b0, b1)
    requires forall y, x | 0 <= y < |b0| && 0 <= x < |b0[y]| :: b1[y][x] == b0[y][x]
    ensures b0 == b1
  {
    assert forall y | 0 <= y < |b0| :: b0[y] == b1[y];
  }

  /** The cell at c after `updateNumbers`: a mine is left alone; any other cell
      has the number of mines among its siblings added to its count. */
  function Numbered(b: Board, width: int, height: int, c: Coord): (r: Cell)
    requires Shaped(b, width, height) && InBounds(width, height, c)
    ensures r.(adjacentMines := At(b, c).adjacentMines) == At(b, c)
    ensures At(b, c).adjacentMines <= r.adjacentMines
  {
    var v := At(b, c);
    if v.mine then v else v.(adjacentMines := v.adjacentMines + |MineNeighbours(b, width, height, c)|)
  }

  /** Progress of `updateNumbers` over b0: the blocks before (x, y) in row
      order are numbered, the others untouched. */
  predicate NumberedUpTo(b0: Board, b: Board, width: int, height: int, x: int, y: int) {
    Shaped(b0, width, height) && SameShape(b0, b) &&
    forall y', x' | 0 <= y' < height && 0 <= x' < width ::
      b[y'][x'] == if y' < y || (y' == y && x' < x) then Numbered(b0, width, height, (x', y')) else b0[y'][x']
  }

  lemma NumberedStep(b0: Board, b: Board, b1: Board, width: int, height: int, x: int, y: int)
    requires NumberedUpTo(b0, b, width, height, x, y) && 0 <= x < width && 0 <= y < height
    requires SameShape(b, b1) && b1[y][x] == Numbered(b0, width, height, (x, y))
    requires forall y', x' | 0 <= y' < height && 0 <= x' < width && (x', y') != (x, y) :: b1[y'][x'] == b[y'][x']
    ensures NumberedUpTo(b0, b1, width, height, x + 1, y)
  {
  }

  /** The mine neighbours depend on the `mine` fields alone. */
  lemma MineNeighboursSame(b0: Board, b1: Board, width: int, height: int, c: Coord)
    requires Shaped(b0, width, height) && Shaped(b1, width, height)
    requires forall y, x | 0 <= y < height && 0 <= x < width :: b1[y][x].mine == b0[y][x].mine
    ensures MineNeighbours(b1, width, height, c) == MineNeighbours(b0, width, height, c)
  {
  }

  /** Numbering a block reads only the mines around it, which numbering the
      earlier blocks has not touched. */
  lemma NumberedFrom(b0: Board, b: Board, width: int, height: int, x: int, y: int)
    requires NumberedUpTo(b0, b, width, height, x, y) && 0 <= x < width && 0 <= y < height
    ensures Numbered(b, width, height, (x, y)) == Numbered(b0, width, height, (x, y))
  {
    MineNeighboursSame(b0, b, width, height, (x, y));
  }

  lemma NumberedRow(b0: Board, b: Board, width: int, height: int, y: int)
    requires NumberedUpTo(b0, b, width, height, width, y)
    ensures NumberedUpTo(b0, b, width, height, 0, y + 1)
  {
  }

  /** Numbering a board laid from b0 (only `mine` changed) gives a board that
      differs from b0 in `mine` and, for non-mines, in the count, increased
      by the mines around the cell. */
  lemma NumberedOver(b0: Board, laid: Board, b: Board, width: int, height: int)
    requires Shaped(b0, width, height) && SameShape(b0, laid) && SameShape(laid, b)
    requires forall y, x | 0 <= y < height && 0 <= x < width :: laid[y][x] == b0[y][x].(mine := laid[y][x].mine)
    requires forall y, x | 0 <= y < height && 0 <= x < width :: b[y][x] == Numbered(laid, width, height, (x, y))
    ensures Mines(b) == Mines(laid)
    ensures forall y, x | 0 <= y < height && 0 <= x < width ::
              b[y][x].(mine := b0[y][x].mine, adjacentMines := b0[y][x].adjacentMines) == b0[y][x] &&
              b[y][x].adjacentMines == b0[y][x].adjacentMines + if b[y][x].mine then 0 else |MineNeighbours(b, width, height, (x, y))|
  {
    MinesKept(laid, b);
    forall y, x | 0 <= y < height && 0 <= x < width
      ensures MineNeighbours(laid, width, height, (x, y)) == MineNeighbours(b, width, height, (x, y))
    {
      MineNeighboursSame(laid, b, width, height, (x, y));
    }
  }

  /** `updateNumbers` keeps every field but the count, leaves a mine alone
      and adds to any other cell's count what counting mines over
      `getSiblings` gives. */
  lemma NumberedCount(b: Board, width: int, height: int, c: Coord)
    requires Shaped(b, width, height) && InBounds(width, height, c)
    ensures Numbered(b, width, height, c).(adjacentMines := At(b, c).adjacentMines) == At(b, c)
    ensures At(b, c).mine ==> Numbered(b, width, height, c) == At(b, c)
    ensures Covers(b, Siblings(width, height, c))
    ensures !At(b, c).mine ==>
      Numbered(b, width, height, c).adjacentMines == At(b, c).adjacentMines + CountWhere(b, Siblings(width, height, c), IsMine)
  {
    NeighbourMineCount(b, width, height, c);
  }

  /** Counts laid on a pristine board by `updateNumbers` are the exact mine counts. */
  lemma GeneratedExact(b0: Board, b: Board, width: int, height: int)
    requires Shaped(b0, width, height) && Shaped(b, width, height) && Pristine(b0)
    requires forall y, x | 0 <= y < height && 0 <= x < width ::
               b[y][x].adjacentMines ==
               b0[y][x].adjacentMines + if b[y][x].mine then 0 else |MineNeighbours(b, width, height, (x, y))|
    ensures NumbersExact(b, width, height)
  {
  }

  /** The first click is safe: no mine is laid in the 3x3 square around it. */
  lemma FirstClickSafe(b0: Board, b: Board, initial: Coord, candidates: seq<Coord>)
    requires Pristine(b0) && SameShape(b0, b)
    requires Mines(b) - Mines(b0) <= Eligible(b0, initial, candidates)
    ensures forall y, x | 0 <= y < |b| && 0 <= x < |b[y]| && InArea(initial, (x, y)) :: !b[y][x].mine
  {
    forall y, x | 0 <= y < |b| && 0 <= x < |b[y]| && InArea(initial, (x, y))
      ensures !b[y][x].mine
    {
      assert (x, y) !in Eligible(b0, initial, candidates);
      assert (x, y) !in Mines(b0);
      assert (x, y) !in Mines(b);
    }
  }

  /** `onRightClick` on the block at c: its flag toggled, nothing else changed. */
  function Flip(b: Board, c: Coord): (r: Board)
    requires OnBoard(b, c)
    ensures SameShape(b, r) && At(r, c).flagged == !At(b, c).flagged
    ensures At(r, c).(flagged := At(b, c).flagged) == At(b, c)
    ensures forall y, x | 0 <= y < |b| && 0 <= x < |b[y]| && (x, y) != c :: r[y][x] == b[y][x]
  {
    Put(b, c, At(b, c).(flagged := !At(b, c).flagged))
  }

  /** Revealing one block keeps the board's shape, positions, mines and counts. */
  lemma RevealCell(b: Board, width: int, height: int, c: Coord)
    requires Shaped(b, width, height) && Indexed(b) && InBounds(width, height, c)
    ensures var b1 := Put(b, c, At(b, c).(revealed := true));
            Shaped(b1, width, height) && Indexed(b1) && RevealOnly(b, b1) &&
            (!At(b, c).mine ==> SafeReveals(b, b1)) &&
            (Pristine(b) ==> Pristine(b1)) &&
            (NumbersExact(b, width, height) ==> NumbersExact(b1, width, height))
  {
    var b1 := Put(b, c, At(b, c).(revealed := true));
    PutWellFormed(b, width, height, c, At(b, c).(revealed := true));
    RevealOne(b, c);
    RevealLayout(b, b1);
    LayoutKept(b, b1, width, height);
  }

  /** Toggling a flag keeps the layout, the positions and every revealed block. */
  lemma FlipKeeps(b: Board, width: int, height: int, c: Coord)
    requires Shaped(b, width, height) && Indexed(b) && InBounds(width, height, c)
    ensures var b1 := Flip(b, c);
            Shaped(b1, width, height) && Indexed(b1) &&
            (AllMinesShown(b) ==> AllMinesShown(b1)) &&
            (Pristine(b) ==> Pristine(b1)) &&
            (NumbersExact(b, width, height) ==> NumbersExact(b1, width, height))
  {
    assert SameLayout(b, Flip(b, c));
    LayoutKept(b, Flip(b, c), width, height);
  }

  /** Toggling a flag twice restores the board. */
  lemma FlipTwice(b: Board, c: Coord)
    requires OnBoard(b, c)
    ensures Flip(Flip(b, c), c) == b
  {
    BoardEq(Flip(Flip(b, c), c), b);
  }

  /** The board `showAllMines` leaves: every mine revealed, nothing else changed. */
  function Exposed(b: Board): (r: Board)
    ensures RevealOnly(b, r) && AllMinesShown(r)
    ensures forall y, x | 0 <= y < |b| && 0 <= x < |b[y]| :: r[y][x].revealed == (b[y][x].revealed || b[y][x].mine)
  {
    seq(|b|, y requires 0 <= y < |b| =>
      seq(|b[y]|, x requires 0 <= x < |b[y]| => b[y][x].(revealed := b[y][x].revealed || b[y][x].mine)))
  }

  // ---------------------------------------------------------------------
  // Flood reveal

  predicate Zero(b: Board, c: Coord) {
    OnBoard(b, c) && At(b, c).adjacentMines == 0
  }

  /** order[k] was reached from `start` through a cell with count zero: its
      predecessor is `start` itself or an earlier position of `order`, that
      predecessor has count 0, and the two are adjacent. */
  predicate Reached(b: Board, start: Coord, order: seq<Coord>, k: int)
    requires 0 <= k < |order|
  {
    (Zero(b, start) && Adjacent(start, order[k])) ||
    exists j | 0 <= j < k :: Zero(b, order[j]) && Adjacent(order[j], order[k])
  }

  /** Every position of `order` was reached from `start` through cells with count zero. */
  predicate Cascade(b: Board, start: Coord, order: seq<Coord>) {
    forall k | 0 <= k < |order| :: Reached(b, start, order, k)
  }

  /** A cascade from `start` through its sibling s, followed by a cascade from s,
      is a cascade from `start`. */
  lemma CascadeAppend(b: Board, start: Coord, order: seq<Coord>, s: Coord, sub: seq<Coord>)
    requires Cascade(b, start, order) && Cascade(b, s, sub)
    requires Zero(b, start) && Adjacent(start, s)
    ensures Cascade(b, start, order + [s] + sub)
  {
    var all := order + [s] + sub;
    forall k | 0 <= k < |all| ensures Reached(b, start, all, k) {
      if k < |order| {
        assert all[k] == order[k];
        assert Reached(b, start, order, k);
        if !(Zero(b, start) && Adjacent(start, all[k])) {
          var j :| 0 <= j < k && Zero(b, order[j]) && Adjacent(order[j], order[k]);
          assert all[j] == order[j];
        }
      } else if k > |order| {
        var m := k - |order| - 1;
        assert all[k] == sub[m];
        assert Reached(b, s, sub, m);
        if Zero(b, s) && Adjacent(s, sub[m]) {
          assert all[|order|] == s;
        } else {
          var j :| 0 <= j < m && Zero(b, sub[j]) && Adjacent(sub[j], sub[m]);
          assert all[|order| + 1 + j] == sub[j];
        }
      }
    }
  }

  /** A cascade only reads counts, so it survives any change that keeps them. */
  lemma CascadeKept(b0: Board, b1: Board, start: Coord, order: seq<Coord>)
    requires SameLayout(b0, b1) && Cascade(b0, start, order)
    ensures Cascade(b1, start, order)
  {
    forall c | OnBoard(b0, c) ensures Zero(b1, c) == Zero(b0, c) {
    }
    forall c | !OnBoard(b0, c) ensures !Zero(b1, c) {
    }
    forall k | 0 <= k < |order| ensures Reached(b1, start, order, k) {
      assert Reached(b0, start, order, k);
      if !(Zero(b0, start) && Adjacent(start, order[k])) {
        var j :| 0 <= j < k && Zero(b0, order[j]) && Adjacent(order[j], order[k]);
        assert Zero(b1, order[j]);
      }
    }
  }

  /** A cascade that starts at a non-mine never reaches a mine, as long as
      count 0 on a non-mine means no mine around it. */
  lemma {:induction false} CascadeMineFreeAt(b: Board, width: int, height: int, start: Coord, order: seq<Coord>, k: nat)
    requires Shaped(b, width, height) && ZeroMeansSafe(b, width, height)
    requires InBounds(width, height, start) && !At(b, start).mine
    requires forall i | 0 <= i < |order| :: InBounds(width, height, order[i])
    requires Cascade(b, start, order)
    requires k < |order|
    ensures !At(b, order[k]).mine
  {
    assert Reached(b, start, order, k);
    if Zero(b, start) && Adjacent(start, order[k]) {
      assert order[k] in Siblings(width, height, start);
    } else {
      var j :| 0 <= j < k && Zero(b, order[j]) && Adjacent(order[j], order[k]);
      CascadeMineFreeAt(b, width, height, start, order, j);
      assert order[j] in order;
      assert order[k] in Siblings(width, height, order[j]);
    }
  }

  lemma CascadeMineFree(b: Board, width: int, height: int, start: Coord, order: seq<Coord>)
    requires Shaped(b, width, height) && ZeroMeansSafe(b, width, height)
    requires InBounds(width, height, start) && !At(b, start).mine
    requires forall d | d in order :: InBounds(width, height, d)
    requires Cascade(b, start, order)
    ensures forall d | d in order :: !At(b, d).mine
  {
    forall d | d in order ensures !At(b, d).mine {
      var k :| 0 <= k < |order| && order[k] == d;
      CascadeMineFreeAt(b, width, height, start, order, k);
    }
  }

  /** The upper bound on a cascade: it never leaves a region that holds its
      start and, with every block of count 0 in it, all that block's
      neighbours. */
  lemma {:induction false} CascadeWithinAt(b: Board, start: Coord, order: seq<Coord>, region: iset<Coord>, k: nat)
    requires start in region
    requires forall c, d | c in region && Zero(b, c) && Adjacent(c, d) :: d in region
    requires Cascade(b, start, order) && k < |order|
    ensures order[k] in region
  {
    assert Reached(b, start, order, k);
    if !(Zero(b, start) && Adjacent(start, order[k])) {
      var j :| 0 <= j < k && Zero(b, order[j]) && Adjacent(order[j], order[k]);
      CascadeWithinAt(b, start, order, region, j);
    }
  }

  lemma CascadeWithin(b: Board, start: Coord, order: seq<Coord>, region: iset<Coord>)
    requires start in region
    requires forall c, d | c in region && Zero(b, c) && Adjacent(c, d) :: d in region
    requires Cascade(b, start, order)
    ensures forall d | d in order :: d in region
  {
    forall d | d in order ensures d in region {
      var k :| 0 <= k < |order| && order[k] == d;
      CascadeWithinAt(b, start, order, region, k);
    }
  }

  /** Every cell with count 0 that became revealed between b0 and b has all
      its siblings revealed in b. */
  predicate Closed(b0: Board, b: Board, width: int, height: int)
    requires Shaped(b0, width, height) && SameShape(b0, b)
  {
    forall y, x | 0 <= y < height && 0 <= x < width &&
                  !b0[y][x].revealed && b[y][x].revealed && b0[y][x].adjacentMines == 0 ::
      forall d | d in Siblings(width, height, (x, y)) :: b[d.1][d.0].revealed
  }

  /** `order` lists the cells revealed between b0 and b, each reached from
      `start` through cells with count 0: they were hidden in b0 and are
      revealed in b, and every cell so revealed is listed. */
  predicate Traced(b0: Board, b: Board, width: int, height: int, start: Coord, order: seq<Coord>)
    requires Shaped(b0, width, height) && SameShape(b0, b)
  {
    Cascade(b0, start, order) &&
    (forall i | 0 <= i < |order| ::
       InBounds(width, height, order[i]) && !b0[order[i].1][order[i].0].revealed && b[order[i].1][order[i].0].revealed) &&
    (forall y, x | 0 <= y < height && 0 <= x < width && !b0[y][x].revealed && b[y][x].revealed :: (x, y) in order)
  }

  /** What `expendZero` from `start` leaves: only `revealed` changed; nothing
      when the start has a nonzero count; otherwise every sibling of the start,
      and every sibling of each newly revealed cell with count 0, is revealed. */
  predicate Flood(b0: Board, b1: Board, width: int, height: int, start: Coord)
    requires Shaped(b0, width, height) && InBounds(width, height, start)
  {
    RevealOnly(b0, b1) &&
    (At(b0, start).adjacentMines != 0 ==> b1 == b0) &&
    (At(b0, start).adjacentMines == 0 ==>
       forall d | d in Siblings(width, height, start) :: b1[d.1][d.0].revealed) &&
    Closed(b0, b1, width, height)
  }

  /** Revealing one cell changes only `revealed`, from false to true. */
  lemma RevealOne(b: Board, s: Coord)
    requires OnBoard(b, s)
    ensures RevealOnly(b, Put(b, s, At(b, s).(revealed := true)))
    ensures !At(b, s).mine ==> SafeReveals(b, Put(b, s, At(b, s).(revealed := true)))
  {
  }

  /** Changing only `revealed` keeps mines and counts. */
  lemma RevealLayout(b0: Board, b1: Board)
    requires RevealOnly(b0, b1)
    ensures SameLayout(b1, b0)
  {
  }

  lemma RevealTrans(b0: Board, b1: Board, b2: Board)
    requires RevealOnly(b0, b1) && RevealOnly(b1, b2)
    ensures RevealOnly(b0, b2)
  {
  }

  /** One iteration of `expendZero`'s loop: revealing the hidden sibling s of
      `start` and flooding from it extends the flood from `start`. */
  lemma FloodStep(b0: Board, b: Board, b1: Board, b2: Board, width: int, height: int,
                  start: Coord, order: seq<Coord>, s: Coord, sub: seq<Coord>)
    requires Shaped(b0, width, height) && InBounds(width, height, start) && Zero(b0, start)
    requires RevealOnly(b0, b) && Closed(b0, b, width, height) && Traced(b0, b, width, height, start, order)
    requires s in Siblings(width, height, start) && !b[s.1][s.0].revealed
    requires b1 == Put(b, s, At(b, s).(revealed := true))
    requires Flood(b1, b2, width, height, s) && Traced(b1, b2, width, height, s, sub)
    ensures RevealOnly(b0, b2) && RevealOnly(b, b2) && b2[s.1][s.0].revealed
    ensures Closed(b0, b2, width, height)
    ensures Traced(b0, b2, width, height, start, order + [s] + sub)
  {
    RevealOne(b, s);
    RevealTrans(b, b1, b2);
    RevealTrans(b0, b, b1);
    RevealTrans(b0, b1, b2);
    StepClosed(b0, b, b1, b2, width, height, s);
    StepListed(b0, b, b1, b2, width, height, start, order, s, sub);
    RevealLayout(b0, b1);
    CascadeKept(b1, b0, s, sub);
    CascadeAppend(b0, start, order, s, sub);
  }

  lemma StepClosed(b0: Board, b: Board, b1: Board, b2: Board, width: int, height: int, s: Coord)
    requires Shaped(b0, width, height) && RevealOnly(b0, b) && Closed(b0, b, width, height)
    requires OnBoard(b, s) && b1 == Put(b, s, At(b, s).(revealed := true))
    requires RevealOnly(b1, b2) && Closed(b1, b2, width, height)
    requires At(b1, s).adjacentMines == 0 ==> forall d | d in Siblings(width, height, s) :: b2[d.1][d.0].revealed
    ensures SameShape(b0, b2) && Closed(b0, b2, width, height)
  {
    forall y, x | 0 <= y < height && 0 <= x < width &&
                  !b0[y][x].revealed && b2[y][x].revealed && b0[y][x].adjacentMines == 0
      ensures forall d | d in Siblings(width, height, (x, y)) :: b2[d.1][d.0].revealed
    {
      if b[y][x].revealed {
        assert forall d | d in Siblings(width, height, (x, y)) :: b[d.1][d.0].revealed;
      } else if (x, y) == s {
      } else {
        assert !b1[y][x].revealed;
      }
    }
  }

  lemma StepListed(b0: Board, b: Board, b1: Board, b2: Board, width: int, height: int,
                   start: Coord, order: seq<Coord>, s: Coord, sub: seq<Coord>)
    requires Shaped(b0, width, height) && RevealOnly(b0, b) && Traced(b0, b, width, height, start, order)
    requires InBounds(width, height, s) && !b[s.1][s.0].revealed
    requires b1 == Put(b, s, At(b, s).(revealed := true))
    requires RevealOnly(b1, b2) && Traced(b1, b2, width, height, s, sub)
    ensures forall i | 0 <= i < |order + [s] + sub| ::
              InBounds(width, height, (order + [s] + sub)[i]) &&
              !b0[(order + [s] + sub)[i].1][(order + [s] + sub)[i].0].revealed &&
              b2[(order + [s] + sub)[i].1][(order + [s] + sub)[i].0].revealed
    ensures forall y, x | 0 <= y < height && 0 <= x < width && !b0[y][x].revealed && b2[y][x].revealed ::
              (x, y) in order + [s] + sub
  {
    var all := order + [s] + sub;
    forall i | 0 <= i < |all|
      ensures InBounds(width, height, all[i]) && !b0[all[i].1][all[i].0].revealed && b2[all[i].1][all[i].0].revealed
    {
      if i < |order| {
        assert all[i] == order[i];
      } else if i == |order| {
        assert all[i] == s;
      } else {
        assert all[i] == sub[i - |order| - 1];
      }
    }
    forall y, x | 0 <= y < height && 0 <= x < width && !b0[y][x].revealed && b2[y][x].revealed
      ensures (x, y) in all
    {
      if b[y][x].revealed {
        assert (x, y) in order;
      } else if (x, y) == s {
      } else {
        assert !b1[y][x].revealed;
        assert (x, y) in sub;
      }
    }
  }

  /** Every position of cs is on the board and revealed. */
  predicate AllRevealed(b: Board, cs: seq<Coord>) {
    forall d | d in cs :: OnBoard(b, d) && At(b, d).revealed
  }

  /** Revealing never hides: what was revealed stays revealed, and one more
      revealed position can be added. */
  lemma AllRevealedMore(b: Board, b2: Board, cs: seq<Coord>, i: int)
    requires 0 <= i < |cs| && AllRevealed(b, cs[..i]) && RevealOnly(b, b2)
    requires OnBoard(b2, cs[i]) && At(b2, cs[i]).revealed
    ensures AllRevealed(b2, cs[..i + 1])
  {
    assert cs[..i + 1] == cs[..i] + [cs[i]];
  }

  /** The loop of `expendZero` has revealed every sibling of `start`: the
      flood from `start` is complete. */
  lemma FloodDone(b0: Board, b: Board, width: int, height: int, start: Coord)
    requires Shaped(b0, width, height) && InBounds(width, height, start) && Zero(b0, start)
    requires RevealOnly(b0, b) && Closed(b0, b, width, height)
    requires AllRevealed(b, Siblings(width, height, start))
    ensures Flood(b0, b, width, height, start)
  {
  }

  // ---------------------------------------------------------------------
  // Chording (`autoExpand`)

  /** Every block revealed between b0 and b is safe. */
  predicate SafeReveals(b0: Board, b: Board)
    requires SameShape(b0, b)
  {
    forall y, x | 0 <= y < |b0| && 0 <= x < |b0[y]| && !b0[y][x].revealed && b[y][x].revealed :: !b[y][x].mine
  }

  /** Revealing blocks keeps every mine shown, and revealing only safe blocks keeps every mine hidden. */
  lemma RevealKeeps(b0: Board, b1: Board)
    requires RevealOnly(b0, b1)
    ensures AllMinesShown(b0) ==> AllMinesShown(b1)
    ensures NoMineShown(b0) && SafeReveals(b0, b1) ==> NoMineShown(b1)
  {
  }

  lemma SafeTrans(b0: Board, b: Board, b2: Board)
    requires RevealOnly(b0, b) && RevealOnly(b, b2) && SafeReveals(b0, b) && SafeReveals(b, b2)
    ensures RevealOnly(b0, b2) && SafeReveals(b0, b2)
  {
  }

  lemma ClosedTrans(b0: Board, b: Board, b2: Board, width: int, height: int)
    requires Shaped(b0, width, height) && RevealOnly(b0, b) && RevealOnly(b, b2)
    requires Closed(b0, b, width, height) && Closed(b, b2, width, height)
    ensures RevealOnly(b0, b2) && Closed(b0, b2, width, height)
  {
    forall y, x | 0 <= y < height && 0 <= x < width &&
                  !b0[y][x].revealed && b2[y][x].revealed && b0[y][x].adjacentMines == 0
      ensures forall d | d in Siblings(width, height, (x, y)) :: b2[d.1][d.0].revealed
    {
      if b[y][x].revealed {
        assert forall d | d in Siblings(width, height, (x, y)) :: b[d.1][d.0].revealed;
      }
    }
  }

  /** Each position of cs is revealed in b or was flagged in b0. */
  predicate Settled(b0: Board, b: Board, cs: seq<Coord>) {
    forall d | d in cs :: OnBoard(b0, d) && OnBoard(b, d) && (At(b, d).revealed || At(b0, d).flagged)
  }

  lemma SettledMore(b0: Board, b: Board, b2: Board, cs: seq<Coord>, i: int)
    requires 0 <= i < |cs| && Settled(b0, b, cs[..i]) && RevealOnly(b, b2)
    requires OnBoard(b0, cs[i]) && OnBoard(b2, cs[i]) && (At(b2, cs[i]).revealed || At(b0, cs[i]).flagged)
    ensures Settled(b0, b2, cs[..i + 1])
  {
    assert cs[..i + 1] == cs[..i] + [cs[i]];
  }

  /** Some position of cs holds a mine that is neither revealed nor flagged. */
  predicate CoveredMine(b: Board, cs: seq<Coord>) {
    exists d | d in cs :: OnBoard(b, d) && Holds(IsCovered, At(b, d)) && At(b, d).mine
  }

  lemma CoveredMineMore(b: Board, cs: seq<Coord>, i: int)
    requires 0 <= i < |cs|
    ensures CoveredMine(b, cs[..i + 1]) ==
            (CoveredMine(b, cs[..i]) || (OnBoard(b, cs[i]) && Holds(IsCovered, At(b, cs[i])) && At(b, cs[i]).mine))
  {
    assert cs[..i + 1] == cs[..i] + [cs[i]];
  }

  /** Without a mine revealed since b0, a block is a covered mine in b exactly when it was one in b0. */
  lemma CoveredMineKept(b0: Board, b: Board, s: Coord)
    requires RevealOnly(b0, b) && SafeReveals(b0, b) && OnBoard(b0, s)
    ensures (Holds(IsCovered, At(b, s)) && At(b, s).mine) == (Holds(IsCovered, At(b0, s)) && At(b0, s).mine)
  {
  }

  /** d is a block of `starts` neither revealed nor flagged in b, or lies on
      a cascade in b from such a block. */
  ghost predicate FromCovered(b: Board, starts: seq<Coord>, d: Coord) {
    exists s, order | s in starts && OnBoard(b, s) && Holds(IsCovered, At(b, s)) && Cascade(b, s, order) ::
      d == s || d in order
  }

  /** Every block revealed between b0 and b comes from a covered block of
      `starts` (see `FromCovered`) or, when `mines` holds, is a mine. */
  ghost predicate OpenedFrom(b0: Board, b: Board, starts: seq<Coord>, mines: bool)
    requires SameShape(b0, b)
  {
    forall y, x | 0 <= y < |b0| && 0 <= x < |b0[y]| && !b0[y][x].revealed && b[y][x].revealed ::
      FromCovered(b0, starts, (x, y)) || (mines && b0[y][x].mine)
  }

  /** One step of the first loop of `autoExpand` keeps the bound on what is
      revealed. From b the step leaves a revealed or flagged sibling s alone;
      a covered one it reveals, floods from (giving `flooded`, which reveals
      exactly the cascade `order`), and, if s is a mine, shows all mines. */
  lemma OpenedStep(b0: Board, b: Board, b2: Board, width: int, height: int, sibs: seq<Coord>, i: int,
                   mines: bool, flooded: Board, order: seq<Coord>, mines2: bool)
    requires Shaped(b0, width, height) && 0 <= i < |sibs| && InBounds(width, height, sibs[i])
    requires RevealOnly(b0, b) && OpenedFrom(b0, b, sibs[..i], mines)
    requires !Holds(IsCovered, At(b, sibs[i])) ==> b2 == b && mines2 == mines
    requires Holds(IsCovered, At(b, sibs[i])) ==>
               var b1 := Put(b, sibs[i], At(b, sibs[i]).(revealed := true));
               RevealOnly(b1, flooded) && Traced(b1, flooded, width, height, sibs[i], order) &&
               b2 == (if At(b, sibs[i]).mine then Exposed(flooded) else flooded) &&
               mines2 == (mines || At(b, sibs[i]).mine)
    ensures RevealOnly(b0, b2) && OpenedFrom(b0, b2, sibs[..i + 1], mines2)
  {
    var s := sibs[i];
    assert sibs[..i + 1] == sibs[..i] + [s];
    if !Holds(IsCovered, At(b, s)) {
      forall y, x | 0 <= y < |b0| && 0 <= x < |b0[y]| && !b0[y][x].revealed && b2[y][x].revealed
        ensures FromCovered(b0, sibs[..i + 1], (x, y)) || (mines2 && b0[y][x].mine)
      {
        FromCoveredMore(b0, sibs, i, (x, y));
      }
      return;
    }
    var b1 := Put(b, s, At(b, s).(revealed := true));
    RevealOne(b, s);
    RevealTrans(b0, b, b1);
    RevealTrans(b0, b1, flooded);
    RevealTrans(b0, flooded, b2);
    RevealLayout(b0, b1);
    CascadeKept(b1, b0, s, order);
    assert Cascade(b0, s, []);
    forall y, x | 0 <= y < |b0| && 0 <= x < |b0[y]| && !b0[y][x].revealed && b2[y][x].revealed
      ensures FromCovered(b0, sibs[..i + 1], (x, y)) || (mines2 && b0[y][x].mine)
    {
      if b[y][x].revealed {
        FromCoveredMore(b0, sibs, i, (x, y));
      } else if (x, y) == s {
        assert FromCovered(b0, sibs[..i + 1], (x, y)) by {
          assert s in sibs[..i + 1] && Cascade(b0, s, []);
        }
      } else if flooded[y][x].revealed {
        assert !b1[y][x].revealed;
        assert (x, y) in order;
        assert s in sibs[..i + 1];
      } else {
        assert b0[y][x].mine;
      }
    }
  }

  /** What the first loop of `autoExpand` has done from b0 after the
      siblings cs: only reveals; each of cs revealed or flagged before; the
      game lost exactly when it was lost already (`wasLost`) or cs held a
      covered mine; while not lost, safe and closed reveals; and every
      reveal bounded as `OpenedFrom` says. */
  ghost predicate Chorded(b0: Board, b: Board, width: int, height: int, cs: seq<Coord>, wasLost: bool, lost: bool,
                          p: Board)
    requires Shaped(b0, width, height)
  {
    RevealOnly(b0, b) && Settled(b0, b, cs) &&
    lost == (wasLost || CoveredMine(b0, cs)) &&
    (!lost ==> Closed(b0, b, width, height) && SafeReveals(b0, b)) &&
    OpenedFrom(b0, b, cs, lost) &&
    FloodedBy(b0, b, p, width, height, cs, wasLost, lost)
  }

  /** What the first loop of `autoExpand` over the siblings cs does, from
      board b0 and status st0 to board b and status st: `Chorded` holds, with
      p the board of floods, and the game is lost exactly when it was lost
      already or cs held a covered mine; otherwise the status is kept. */
  ghost predicate ChordOutcome(b0: Board, b: Board, width: int, height: int, cs: seq<Coord>,
                               st0: Status, st: Status, p: Board)
    requires Shaped(b0, width, height)
  {
    st == (if CoveredMine(b0, cs) then Lost else st0) &&
    Chorded(b0, b, width, height, cs, st0 == Lost, st == Lost, p)
  }

  /** Before the first loop of `autoExpand` nothing has happened; a game
      already lost already shows every mine. */
  lemma ChordedStart(b0: Board, width: int, height: int, st0: Status)
    requires Shaped(b0, width, height) && (st0 == Lost ==> AllMinesShown(b0))
    ensures ChordOutcome(b0, b0, width, height, [], st0, st0, b0)
  {
    if st0 == Lost {
      ExposedShown(b0);
    }
  }

  /** One step of the first loop of `autoExpand` on the sibling s, from
      board b and status st to board b2 and status st2. Only `revealed`
      changes and s ends up revealed or flagged. A revealed or flagged s
      changes nothing. A covered s is revealed and flooded from, which gives
      `flooded`, whose new reveals are exactly the cascade `order`; if s is
      a mine, the game is lost and every mine is shown. While the game is
      not lost, the reveals are safe and no new zero keeps a hidden sibling. */
  ghost predicate ChordStep(b: Board, b2: Board, width: int, height: int, s: Coord, st: Status, st2: Status,
                            flooded: Board, order: seq<Coord>)
    requires Shaped(b, width, height) && InBounds(width, height, s)
  {
    RevealOnly(b, b2) && (At(b2, s).revealed || At(b2, s).flagged) &&
    st2 == (if Holds(IsCovered, At(b, s)) && At(b, s).mine then Lost else st) &&
    (st2 != Lost ==> Closed(b, b2, width, height) && SafeReveals(b, b2)) &&
    (!Holds(IsCovered, At(b, s)) ==> b2 == b) &&
    (Holds(IsCovered, At(b, s)) ==>
       Flood(Put(b, s, At(b, s).(revealed := true)), flooded, width, height, s) &&
       Traced(Put(b, s, At(b, s).(revealed := true)), flooded, width, height, s, order) &&
       b2 == (if At(b, s).mine then Exposed(flooded) else flooded))
  }

  /** One step of the first loop of `autoExpand`, on the sibling s, from
      board b and status st to b2 and st2, extends `ChordOutcome` by s. */
  lemma ChordOutcomeStep(b0: Board, b: Board, b2: Board, width: int, height: int, sibs: seq<Coord>, i: int,
                         st0: Status, st: Status, st2: Status, flooded: Board, order: seq<Coord>, p: Board)
    returns (p2: Board)
    requires Shaped(b0, width, height) && ZeroMeansSafe(b0, width, height)
    requires 0 <= i < |sibs| && InBounds(width, height, sibs[i])
    requires ChordOutcome(b0, b, width, height, sibs[..i], st0, st, p)
    requires Shaped(b, width, height) && ChordStep(b, b2, width, height, sibs[i], st, st2, flooded, order)
    ensures ChordOutcome(b0, b2, width, height, sibs[..i + 1], st0, st2, p2)
  {
    if st != Lost {
      CoveredMineKept(b0, b, sibs[i]);
    }
    CoveredMineMore(b0, sibs, i);
    p2 := ChordedStep(b0, b, b2, width, height, sibs, i, st0 == Lost, st == Lost, st2 == Lost, flooded, order, p);
  }

  /** One step of the first loop of `autoExpand`, on the sibling s, extends
      `Chorded` by s. */
  lemma ChordedStep(b0: Board, b: Board, b2: Board, width: int, height: int, sibs: seq<Coord>, i: int,
                    wasLost: bool, lost: bool, lost2: bool, flooded: Board, order: seq<Coord>, p: Board)
    returns (p2: Board)
    requires Shaped(b0, width, height) && ZeroMeansSafe(b0, width, height)
    requires 0 <= i < |sibs| && InBounds(width, height, sibs[i])
    requires Chorded(b0, b, width, height, sibs[..i], wasLost, lost, p)
    requires RevealOnly(b, b2) && (At(b2, sibs[i]).revealed || At(b2, sibs[i]).flagged)
    requires lost2 == (lost || (Holds(IsCovered, At(b, sibs[i])) && At(b, sibs[i]).mine))
    requires !lost2 ==> Closed(b, b2, width, height) && SafeReveals(b, b2)
    requires !Holds(IsCovered, At(b, sibs[i])) ==> b2 == b
    requires Holds(IsCovered, At(b, sibs[i])) ==>
               var b1 := Put(b, sibs[i], At(b, sibs[i]).(revealed := true));
               Flood(b1, flooded, width, height, sibs[i]) && Traced(b1, flooded, width, height, sibs[i], order) &&
               b2 == (if At(b, sibs[i]).mine then Exposed(flooded) else flooded)
    ensures Chorded(b0, b2, width, height, sibs[..i + 1], wasLost, lost2, p2)
  {
    var s := sibs[i];
    p2 := FloodedStep(b0, b, b2, width, height, sibs, i, wasLost, lost, lost2, p, flooded);
    OpenedStep(b0, b, b2, width, height, sibs, i, lost, flooded, order, lost2);
    SettledMore(b0, b, b2, sibs, i);
    CoveredMineMore(b0, sibs, i);
    if !lost {
      CoveredMineKept(b0, b, s);
    }
    if !lost2 {
      ClosedTrans(b0, b, b2, width, height);
      SafeTrans(b0, b, b2);
    }
  }

  /** Exposing a board that already shows every mine changes nothing. */
  lemma ExposedShown(b: Board)
    requires AllMinesShown(b)
    ensures Exposed(b) == b
  {
    BoardEq(Exposed(b), b);
  }

  /** p with every block revealed between b and f revealed as well. */
  function Merge(p: Board, b: Board, f: Board): (r: Board)
    requires SameShape(p, b) && SameShape(b, f)
    ensures SameShape(p, r)
    ensures forall y, x | 0 <= y < |p| && 0 <= x < |p[y]| ::
              r[y][x] == p[y][x].(revealed := p[y][x].revealed || (!b[y][x].revealed && f[y][x].revealed))
  {
    seq(|p|, y requires 0 <= y < |p| =>
      seq(|p[y]|, x requires 0 <= x < |p[y]| =>
        p[y][x].(revealed := p[y][x].revealed || (!b[y][x].revealed && f[y][x].revealed))))
  }

  /** The floods of the first loop of `autoExpand` from b0 over the siblings
      cs, as they stand before the mines are shown: p changes only
      `revealed` and leaves no newly revealed block of count 0 with a hidden
      sibling, and b is p with every mine shown once the game is lost
      (`lost`). Each of cs is revealed in p, was flagged, or is a mine the
      loss showed; and when the loop itself lost the game, a covered mine of
      cs was revealed and flooded from. */
  ghost predicate FloodedBy(b0: Board, b: Board, p: Board, width: int, height: int, cs: seq<Coord>,
                            wasLost: bool, lost: bool)
    requires Shaped(b0, width, height)
  {
    RevealOnly(b0, p) && Closed(b0, p, width, height) &&
    b == (if lost then Exposed(p) else p) &&
    (forall d | d in cs :: OnBoard(b0, d) && OnBoard(p, d) &&
       (At(p, d).revealed || At(b0, d).flagged || (lost && At(b0, d).mine))) &&
    (lost && !wasLost ==> LostOn(b0, p, cs))
  }

  /** A mine of cs neither revealed nor flagged in b0 is revealed in p. */
  ghost predicate LostOn(b0: Board, p: Board, cs: seq<Coord>) {
    exists d | d in cs :: OnBoard(b0, d) && OnBoard(p, d) && Holds(IsCovered, At(b0, d)) && At(b0, d).mine && At(p, d).revealed
  }

  /** Merging what a step revealed into p, and then showing the mines, gives
      the board the step left. */
  lemma MergeExposed(p: Board, b: Board, f: Board)
    requires b == Exposed(p) && RevealOnly(b, f)
    ensures RevealOnly(p, Merge(p, b, f)) && f == Exposed(Merge(p, b, f))
  {
    BoardEq(f, Exposed(Merge(p, b, f)));
  }

  /** After the loss every mine shows, so the covered block s of b is safe;
      the flood from it, merged into p, leaves no newly revealed block of
      count 0 with a hidden sibling. */
  lemma MergeClosed(b0: Board, p: Board, b: Board, b1: Board, f: Board, width: int, height: int, s: Coord)
    requires Shaped(b0, width, height) && ZeroMeansSafe(b0, width, height) && InBounds(width, height, s)
    requires RevealOnly(b0, p) && Closed(b0, p, width, height) && b == Exposed(p)
    requires RevealOnly(b0, b) && !At(b, s).revealed && b1 == Put(b, s, At(b, s).(revealed := true))
    requires Shaped(b1, width, height) && RevealOnly(b1, f) && Closed(b1, f, width, height)
    requires At(b1, s).adjacentMines == 0 ==> forall d | d in Siblings(width, height, s) :: f[d.1][d.0].revealed
    ensures SameShape(p, b) && SameShape(b, f) && Closed(b0, Merge(p, b, f), width, height)
  {
    var m: Board := Merge(p, b, f);
    forall y, x | 0 <= y < height && 0 <= x < width &&
                  !b0[y][x].revealed && m[y][x].revealed && b0[y][x].adjacentMines == 0
      ensures forall d | d in Siblings(width, height, (x, y)) :: m[d.1][d.0].revealed
    {
      if !p[y][x].revealed {
        assert !b[y][x].revealed && !b0[y][x].mine;
        assert At(b0, (x, y)).adjacentMines == 0;
        if (x, y) != s {
          assert !b1[y][x].revealed;
        }
        forall d | d in Siblings(width, height, (x, y)) ensures m[d.1][d.0].revealed {
          assert !At(b0, d).mine;
          assert f[d.1][d.0].revealed;
        }
      }
    }
  }

  /** `FloodedBy` grows by one sibling s once the new board of floods p2
      extends p, keeps the closure, gives b2 by showing the mines when lost,
      and covers s. */
  lemma FloodedExtend(b0: Board, b2: Board, width: int, height: int, sibs: seq<Coord>, i: int,
                      wasLost: bool, lost: bool, lost2: bool, p: Board, p2: Board, b: Board)
    requires Shaped(b0, width, height) && 0 <= i < |sibs|
    requires FloodedBy(b0, b, p, width, height, sibs[..i], wasLost, lost)
    requires RevealOnly(p, p2) && RevealOnly(b0, p2) && Closed(b0, p2, width, height)
    requires b2 == (if lost2 then Exposed(p2) else p2) && (lost ==> lost2)
    requires OnBoard(b0, sibs[i]) && OnBoard(p2, sibs[i])
    requires At(p2, sibs[i]).revealed || At(b0, sibs[i]).flagged || (lost2 && At(b0, sibs[i]).mine)
    requires lost2 && !lost ==> Holds(IsCovered, At(b0, sibs[i])) && At(b0, sibs[i]).mine && At(p2, sibs[i]).revealed
    ensures FloodedBy(b0, b2, p2, width, height, sibs[..i + 1], wasLost, lost2)
  {
    var s := sibs[i];
    assert sibs[..i + 1] == sibs[..i] + [s];
    forall d | d in sibs[..i + 1]
      ensures OnBoard(b0, d) && OnBoard(p2, d) && (At(p2, d).revealed || At(b0, d).flagged || (lost2 && At(b0, d).mine))
    {
      if d != s {
        assert d in sibs[..i];
      }
    }
    if lost2 && !wasLost {
      if lost {
        var d :| d in sibs[..i] && OnBoard(b0, d) && OnBoard(p, d) && Holds(IsCovered, At(b0, d)) && At(b0, d).mine && At(p, d).revealed;
        assert d in sibs[..i + 1];
      } else {
        assert s in sibs[..i + 1];
      }
    }
  }

  /** One step of the first loop of `autoExpand` extends `FloodedBy` by the
      sibling s, giving the new board of floods. */
  lemma FloodedStep(b0: Board, b: Board, b2: Board, width: int, height: int, sibs: seq<Coord>, i: int,
                    wasLost: bool, lost: bool, lost2: bool, p: Board, flooded: Board)
    returns (p2: Board)
    requires Shaped(b0, width, height) && ZeroMeansSafe(b0, width, height)
    requires 0 <= i < |sibs| && InBounds(width, height, sibs[i])
    requires RevealOnly(b0, b) && FloodedBy(b0, b, p, width, height, sibs[..i], wasLost, lost)
    requires lost2 == (lost || (Holds(IsCovered, At(b, sibs[i])) && At(b, sibs[i]).mine))
    requires !Holds(IsCovered, At(b, sibs[i])) ==> b2 == b
    requires Holds(IsCovered, At(b, sibs[i])) ==>
               Flood(Put(b, sibs[i], At(b, sibs[i]).(revealed := true)), flooded, width, height, sibs[i]) &&
               b2 == (if At(b, sibs[i]).mine then Exposed(flooded) else flooded)
    ensures FloodedBy(b0, b2, p2, width, height, sibs[..i + 1], wasLost, lost2)
  {
    var s := sibs[i];
    if !Holds(IsCovered, At(b, s)) {
      p2 := p;
      assert At(b, s).revealed ==> At(p, s).revealed || At(b0, s).mine;
    } else {
      var b1 := Put(b, s, At(b, s).(revealed := true));
      RevealOne(b, s);
      RevealTrans(b, b1, flooded);
      if !lost {
        RevealTrans(b0, b, flooded);
        StepClosed(b0, b, b1, flooded, width, height, s);
        p2 := flooded;
      } else {
        assert !At(b, s).mine;
        MergeClosed(b0, p, b, b1, flooded, width, height, s);
        MergeExposed(p, b, flooded);
        p2 := Merge(p, b, flooded);
        RevealTrans(b0, p, p2);
      }
    }
    FloodedExtend(b0, b2, width, height, sibs, i, wasLost, lost, lost2, p, p2, b);
  }

  /** A block that comes from the first i starts comes from the first i + 1. */
  lemma FromCoveredMore(b: Board, starts: seq<Coord>, i: int, d: Coord)
    requires 0 <= i < |starts|
    ensures FromCovered(b, starts[..i], d) ==> FromCovered(b, starts[..i + 1], d)
  {
    if FromCovered(b, starts[..i], d) {
      var s, order :| s in starts[..i] && OnBoard(b, s) && Holds(IsCovered, At(b, s)) && Cascade(b, s, order) &&
                      (d == s || d in order);
      assert s in starts[..i + 1];
    }
  }

  /** b is b0 with every block of cs that is not revealed flagged: the effect
      of the second loop of `autoExpand` over cs. */
  predicate FlaggedOver(b0: Board, b: Board, cs: seq<Coord>) {
    SameShape(b0, b) &&
    forall y, x | 0 <= y < |b0| && 0 <= x < |b0[y]| ::
      b[y][x] == b0[y][x].(flagged := b0[y][x].flagged || ((x, y) in cs && !b0[y][x].revealed))
  }

  lemma FlagStep(b0: Board, b: Board, cs: seq<Coord>, d: Coord)
    requires FlaggedOver(b0, b, cs) && OnBoard(b, d)
    ensures var b2 := if !At(b, d).revealed && !At(b, d).flagged then Put(b, d, At(b, d).(flagged := true)) else b;
            FlaggedOver(b0, b2, cs + [d])
  {
  }

  /** Flagging over cs changes nothing once every block of cs is revealed or flagged. */
  lemma FlaggedNone(b0: Board, b: Board, cs: seq<Coord>)
    requires FlaggedOver(b0, b, cs) && Touched(b0, cs)
    ensures b == b0
  {
    forall y, x | 0 <= y < |b0| && 0 <= x < |b0[y]| ensures b[y][x] == b0[y][x] {
      if (x, y) in cs {
        assert OnBoard(b0, (x, y));
      }
    }
    BoardEq(b, b0);
  }

  /** Every block of cs is revealed or flagged in b. */
  predicate Touched(b: Board, cs: seq<Coord>) {
    forall d | d in cs :: OnBoard(b, d) && (At(b, d).revealed || At(b, d).flagged)
  }

  /** Sibling by sibling, the first loop of `autoExpand` leaves each of cs revealed or flagged. */
  lemma SettledTouched(b0: Board, b: Board, cs: seq<Coord>)
    requires RevealOnly(b0, b) && Settled(b0, b, cs)
    ensures Touched(b, cs)
  {
  }

  lemma FlaggedKeeps(b0: Board, b: Board, cs: seq<Coord>)
    requires FlaggedOver(b0, b, cs)
    ensures Grows(b0, b) && SameLayout(b0, b)
    ensures Indexed(b0) ==> Indexed(b)
    ensures AllMinesShown(b0) ==> AllMinesShown(b)
  {
  }

  // ---------------------------------------------------------------------
  // Why the chording rules are sound

  /** Every flag among cs is on a mine. */
  predicate FlagsRight(b: Board, cs: seq<Coord>) {
    forall d | d in cs :: OnBoard(b, d) && (At(b, d).flagged ==> At(b, d).mine)
  }

  lemma SubsetSameSize(a: set<Coord>, b: set<Coord>)
    requires a <= b && |a| == |b|
    ensures a == b
  {
    assert b * a == a;
    assert |b - a| == 0;
  }

  /** With exact counts and right flags, when the flags around a safe block
      match its number, none of its covered siblings is a mine: the first loop
      of `autoExpand` cannot lose the game. */
  lemma ChordSafe(b: Board, width: int, height: int, c: Coord)
    requires Shaped(b, width, height) && NumbersExact(b, width, height)
    requires InBounds(width, height, c) && !At(b, c).mine
    requires FlagsRight(b, Siblings(width, height, c))
    requires CountWhere(b, Siblings(width, height, c), IsFlagged) == At(b, c).adjacentMines
    ensures !CoveredMine(b, Siblings(width, height, c))
  {
    var sibs := Siblings(width, height, c);
    var (x, y) := c;
    assert c == (x, y);
    NeighbourMineCount(b, width, height, c);
    CountIsCardinality(b, sibs, IsMine);
    CountIsCardinality(b, sibs, IsFlagged);
    SubsetSameSize(Matching(b, sibs, IsFlagged), Matching(b, sibs, IsMine));
    forall d | d in sibs && At(b, d).mine ensures At(b, d).flagged {
      assert d in Matching(b, sibs, IsMine);
    }
  }

  /** With exact counts, right flags and no mine shown, when the covered
      siblings of a safe block are as many as its mines still unflagged, every
      one of them is a mine: the second loop of `autoExpand` flags only mines. */
  lemma AutoFlagSound(b: Board, width: int, height: int, c: Coord)
    requires Shaped(b, width, height) && NumbersExact(b, width, height) && NoMineShown(b)
    requires InBounds(width, height, c) && !At(b, c).mine
    requires FlagsRight(b, Siblings(width, height, c))
    requires CountWhere(b, Siblings(width, height, c), IsCovered) ==
             At(b, c).adjacentMines - CountWhere(b, Siblings(width, height, c), IsFlagged)
    ensures forall d | d in Siblings(width, height, c) && Holds(IsCovered, At(b, d)) :: At(b, d).mine
  {
    var sibs := Siblings(width, height, c);
    var (x, y) := c;
    assert c == (x, y);
    NeighbourMineCount(b, width, height, c);
    CountIsCardinality(b, sibs, IsMine);
    CountIsCardinality(b, sibs, IsFlagged);
    CountIsCardinality(b, sibs, IsCovered);
    var mined, flagged, covered := Matching(b, sibs, IsMine), Matching(b, sibs, IsFlagged), Matching(b, sibs, IsCovered);
    assert flagged <= mined;
    assert mined * flagged == flagged;
    assert |mined - flagged| == |mined| - |flagged|;
    forall d | d in mined - flagged ensures d in covered {
      assert !b[d.1][d.0].revealed;
    }
    SubsetSameSize(mined - flagged, covered);
    forall d | d in sibs && Holds(IsCovered, At(b, d)) ensures At(b, d).mine {
      assert d in covered;
    }
  }

  // ---------------------------------------------------------------------
  // The win test of `checkGameState`

  /** Without a wrong flag, a cleared board has every safe block revealed. */
  lemma ClearedRevealsSafe(b: Board)
    requires AllCleared(b) && !Misflagged(b)
    ensures forall y, x | 0 <= y < |b| && 0 <= x < |b[y]| && !b[y][x].mine :: b[y][x].revealed
  {
  }

  /** The win test accepts a wrong flag: a single safe block, flagged and never
      revealed, counts as cleared. */
  lemma ClearedWithWrongFlag()
    ensures var b: Board := [[Cell(0, 0, 0, false, false, true)]];
            AllCleared(b) && Misflagged(b) && !b[0][0].revealed && !b[0][0].mine
  {
    var b: Board := [[Cell(0, 0, 0, false, false, true)]];
    assert b[0][0].flagged && !b[0][0].mine;
  }
}
