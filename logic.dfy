/** The rules engine itself: class GamePlay of src/composables/logic.ts. A
    block of the board is named by its coordinates; the board is a sequence
    of rows that every operation replaces. */
module Logic {
  import opened Grid

  class GamePlay {
    var width: nat
    var height: nat
    var mines: nat
    var board: Board
    var status: Status
    var mineGenerated: bool

    /** The board has the configured size and every block knows its position. */
    ghost predicate WellFormed()
      reads this
    {
      Shaped(board, width, height) && Indexed(board)
    }

    /** The counts: all 0 before the first click, exact afterwards. */
    ghost predicate Counted()
      reads this
    {
      WellFormed() &&
      (!mineGenerated ==> Pristine(board)) &&
      (mineGenerated ==> NumbersExact(board, width, height))
    }

    /** What every public operation keeps: the counts are right (see
        `Counted`) and a lost game shows all its mines. */
    ghost predicate Valid()
      reads this
    {
      Counted() &&
      (status == Lost ==> AllMinesShown(board))
    }

    constructor (width: nat, height: nat, mines: nat)
      ensures Valid()
      ensures this.width == width && this.height == height && this.mines == mines
      ensures board == FreshBoard(width, height) && status == Play && !mineGenerated
    {
      new;
      Reset(width, height, mines);
    }

    /** Starts a new game: a fresh `height` x `width` board, status play, no mines yet. */
    method Reset(width: nat, height: nat, mines: nat)
      modifies this
      ensures Valid()
      ensures this.width == width && this.height == height && this.mines == mines
      ensures board == FreshBoard(width, height) && status == Play && !mineGenerated
    {
      this.width, this.height, this.mines := width, height, mines;
      status := Play;
      mineGenerated := false;
      board := FreshBoard(width, height);
    }

    /** One attempt of the rejection sampler at `candidate` (the position the
        source draws at random). It fails on a position drawn before, on one in
        the 3x3 square around the first click, and on a mine; otherwise it puts
        a mine there. Every drawn position is remembered. */
    method PlaceRandom(initial: Coord, candidate: Coord, randomSet: set<Coord>)
      returns (placed: bool, randomSet': set<Coord>)
      requires WellFormed() && InBounds(width, height, candidate)
      modifies this`board
      ensures WellFormed()
      ensures randomSet' == randomSet + {candidate}
      ensures placed <==> candidate !in randomSet && !InArea(initial, candidate) && !At(old(board), candidate).mine
      ensures board == if placed then Put(old(board), candidate, At(old(board), candidate).(mine := true)) else old(board)
    {
      var block := At(board, candidate);
      if candidate in randomSet {
        return false, randomSet + {candidate};
      }
      randomSet' := randomSet + {candidate};
      if Abs(initial.0 - block.x) <= 1 && Abs(initial.1 - block.y) <= 1 {
        return false, randomSet';
      }
      if block.mine {
        return false, randomSet';
      }
      board := Put(board, candidate, block.(mine := true));
      placed := true;
    }

    /** Places `mines` mines by drawing from `candidates` in order, then
        computes the counts. The mines added are eligible candidates (never in
        the 3x3 square around `initial`); there are `mines` of them unless the
        candidates run out first, in which case every eligible candidate became
        a mine. */
    method GenerateMines(initial: Coord, candidates: seq<Coord>)
      requires WellFormed()
      requires forall c | c in candidates :: InBounds(width, height, c)
      modifies this`board
      ensures WellFormed()
      ensures Mines(old(board)) <= Mines(board)
      ensures Mines(board) - Mines(old(board)) <= Eligible(old(board), initial, candidates)
      ensures |Mines(board) - Mines(old(board))| <= mines
      ensures |Mines(board) - Mines(old(board))| < mines ==>
                Mines(board) - Mines(old(board)) == Eligible(old(board), initial, candidates)
      ensures exists k | 0 <= k <= |candidates| ::
                Mines(board) - Mines(old(board)) == Eligible(old(board), initial, candidates[..k])
      ensures mines <= |Eligible(old(board), initial, candidates)| ==> |Mines(board) - Mines(old(board))| == mines
      ensures forall y, x | 0 <= y < height && 0 <= x < width ::
                board[y][x].(mine := old(board)[y][x].mine, adjacentMines := old(board)[y][x].adjacentMines) == old(board)[y][x] &&
                board[y][x].adjacentMines ==
                old(board)[y][x].adjacentMines + if board[y][x].mine then 0 else |MineNeighbours(board, width, height, (x, y))|
    {
      ghost var b0 := board;
      PlaceMines(initial, candidates);
      ghost var laid := board;
      UpdateNumbers();
      NumberedOver(b0, laid, board, width, height);
    }

    /** The placement loop of `generateMines`: for each of the `mines` mines,
        draw until `placeRandom` succeeds. */
    method PlaceMines(initial: Coord, candidates: seq<Coord>)
      requires WellFormed()
      requires forall c | c in candidates :: InBounds(width, height, c)
      modifies this`board
      ensures WellFormed() && SameShape(old(board), board)
      ensures Mines(old(board)) <= Mines(board)
      ensures Mines(board) - Mines(old(board)) <= Eligible(old(board), initial, candidates)
      ensures |Mines(board) - Mines(old(board))| <= mines
      ensures |Mines(board) - Mines(old(board))| < mines ==>
                Mines(board) - Mines(old(board)) == Eligible(old(board), initial, candidates)
      ensures exists k | 0 <= k <= |candidates| ::
                Mines(board) - Mines(old(board)) == Eligible(old(board), initial, candidates[..k])
      ensures forall y, x | 0 <= y < height && 0 <= x < width :: board[y][x] == old(board)[y][x].(mine := board[y][x].mine)
    {
      ghost var b0 := board;
      ghost var added: set<Coord> := {};
      var randomSet: set<Coord> := {};
      var next := 0;
      var count := 0;
      assert candidates[..0] == [];
      while count < mines && next < |candidates|
        invariant 0 <= next <= |candidates| && count <= mines && |added| == count
        invariant WellFormed() && Shaped(b0, width, height) && Sampled(b0, initial, candidates[..next], randomSet, board, added)
        decreases |candidates| - next
      {
        var placed;
        placed, next, randomSet, added := DrawUntilPlaced(initial, candidates, next, randomSet, b0, added);
        if placed {
          count := count + 1;
        }
      }
      assert count < mines ==> candidates[..next] == candidates;
      SampledMines(b0, initial, candidates[..next], randomSet, board, added);
      assert Mines(board) - Mines(b0) == added == Eligible(b0, initial, candidates[..next]);
    }

    /** `while (!placed) placed = placeRandom()`: draws candidates from `next`
        on until one is placed or the candidates run out. */
    method DrawUntilPlaced(initial: Coord, candidates: seq<Coord>, next: nat, randomSet: set<Coord>,
                           ghost b0: Board, ghost added: set<Coord>)
      returns (placed: bool, next': nat, randomSet': set<Coord>, ghost added': set<Coord>)
      requires WellFormed() && Shaped(b0, width, height) && next <= |candidates|
      requires forall c | c in candidates :: InBounds(width, height, c)
      requires Sampled(b0, initial, candidates[..next], randomSet, board, added)
      modifies this`board
      ensures WellFormed() && next <= next' <= |candidates| && (placed || next' == |candidates|)
      ensures placed ==> next < next'
      ensures Sampled(b0, initial, candidates[..next'], randomSet', board, added')
      ensures |added'| == if placed then |added| + 1 else |added|
      ensures placed ==> Eligible(b0, initial, candidates[..next' - 1]) == added
    {
      placed, next', randomSet', added' := false, next, randomSet, added;
      while !placed && next' < |candidates|
        invariant next <= next' <= |candidates| && (placed ==> next < next')
        invariant |added'| == if placed then |added| + 1 else |added|
        invariant !placed ==> added' == added
        invariant placed ==> Eligible(b0, initial, candidates[..next' - 1]) == added
        invariant WellFormed() && Sampled(b0, initial, candidates[..next'], randomSet', board, added')
        decreases |candidates| - next', if placed then 0 else 1
      {
        placed, randomSet', added' := Draw(initial, candidates, next', randomSet', b0, added');
        next' := next' + 1;
      }
    }

    /** One `placeRandom` call on the candidate at `next`. */
    method Draw(initial: Coord, candidates: seq<Coord>, next: nat, randomSet: set<Coord>,
                ghost b0: Board, ghost added: set<Coord>)
      returns (placed: bool, randomSet': set<Coord>, ghost added': set<Coord>)
      requires WellFormed() && Shaped(b0, width, height) && next < |candidates|
      requires forall c | c in candidates :: InBounds(width, height, c)
      requires Sampled(b0, initial, candidates[..next], randomSet, board, added)
      modifies this`board
      ensures WellFormed() && Sampled(b0, initial, candidates[..next + 1], randomSet', board, added')
      ensures |added'| == if placed then |added| + 1 else |added|
      ensures added' == if placed then added + {candidates[next]} else added
    {
      var c := candidates[next];
      assert InBounds(width, height, c) && OnBoard(b0, c) && OnBoard(board, c);
      assert candidates[..next + 1] == candidates[..next] + [c];
      ghost var before := board;
      placed, randomSet' := PlaceRandom(initial, c, randomSet);
      SampleStep(b0, initial, candidates[..next], randomSet, before, added, c, candidates[..next + 1], placed, board);
      added' := if placed then added + {c} else added;
    }

    /** Adds to every non-mine block's count the number of its siblings that
        are mines; mines keep their count. */
    method UpdateNumbers()
      requires WellFormed()
      modifies this`board
      ensures WellFormed() && SameShape(old(board), board)
      ensures forall y, x | 0 <= y < height && 0 <= x < width ::
                board[y][x] == Numbered(old(board), width, height, (x, y))
    {
      ghost var b0 := board;
      var y := 0;
      while y < height
        invariant 0 <= y <= height
        invariant WellFormed() && NumberedUpTo(b0, board, width, height, 0, y)
      {
        var x := 0;
        while x < width
          invariant 0 <= x <= width
          invariant WellFormed() && NumberedUpTo(b0, board, width, height, x, y)
        {
          ghost var row := board;
          NumberedFrom(b0, row, width, height, x, y);
          NumberBlock((x, y));
          NumberedStep(b0, row, board, width, height, x, y);
          x := x + 1;
        }
        NumberedRow(b0, board, width, height, y);
        y := y + 1;
      }
    }

    /** The body of `updateNumbers` for the block at c: unless it is a mine,
        its count goes up by one for each sibling that is a mine. The block is
        a value here, so the updated block is written back. */
    method NumberBlock(c: Coord)
      requires WellFormed() && InBounds(width, height, c)
      modifies this`board
      ensures WellFormed() && SameShape(old(board), board)
      ensures At(board, c) == Numbered(old(board), width, height, c)
      ensures forall y, x | 0 <= y < height && 0 <= x < width && (x, y) != c :: board[y][x] == old(board)[y][x]
    {
      var block := At(board, c);
      if block.mine {
        return;
      }
      var siblings := Siblings(width, height, (block.x, block.y));
      assert Covers(board, siblings);
      block := AddMines(block, siblings);
      NumberedCount(board, width, height, c);
      PutWellFormed(board, width, height, c, block);
      board := Put(board, c, block);
    }

    /** The inner `forEach` of `updateNumbers` over the block's siblings:
        one more for each of them that is a mine. */
    method AddMines(block: Cell, siblings: seq<Coord>) returns (r: Cell)
      requires Covers(board, siblings)
      ensures r == block.(adjacentMines := block.adjacentMines + CountWhere(board, siblings, IsMine))
    {
      r := block;
      var k := 0;
      while k < |siblings|
        invariant 0 <= k <= |siblings|
        invariant r == block.(adjacentMines := block.adjacentMines + CountWhere(board, siblings[..k], IsMine))
      {
        CountStep(board, siblings, k, IsMine);
        if At(board, siblings[k]).mine {
          r := r.(adjacentMines := r.adjacentMines + 1);
        }
        k := k + 1;
      }
      assert siblings[..k] == siblings;
    }

    /** Flood reveal from `start`: nothing when its count is nonzero;
        otherwise every hidden sibling is revealed and flooded from in turn.
        The ghost result lists the cells revealed, in order. */
    method ExpendZero(start: Coord) returns (ghost order: seq<Coord>)
      requires WellFormed() && InBounds(width, height, start)
      modifies this`board
      ensures WellFormed()
      ensures Flood(old(board), board, width, height, start)
      ensures Traced(old(board), board, width, height, start, order)
      decreases Hidden(board), 1
    {
      var block := At(board, start);
      order := [];
      if block.adjacentMines != 0 {
        return;
      }
      ghost var b0 := board;
      var siblings := Siblings(width, height, (block.x, block.y));
      assert siblings[..0] == [];
      var i := 0;
      while i < |siblings|
        invariant 0 <= i <= |siblings|
        invariant WellFormed() && RevealOnly(b0, board) && Closed(b0, board, width, height)
        invariant Traced(b0, board, width, height, start, order)
        invariant AllRevealed(board, siblings[..i])
      {
        var s := siblings[i];
        ghost var b := board;
        RevealHidden(b0, board);
        order := RevealSibling(s, b0, start, order);
        AllRevealedMore(b, board, siblings, i);
        i := i + 1;
      }
      assert siblings[..i] == siblings;
      FloodDone(b0, board, width, height, start);
    }

    /** The body of `expendZero`'s loop for the sibling s of `start`: a hidden
        s is revealed and flooded from. The ghost parameters carry the flood
        from `start` so far; the result extends `order` by what was revealed. */
    method RevealSibling(s: Coord, ghost b0: Board, ghost start: Coord, ghost order: seq<Coord>)
      returns (ghost order': seq<Coord>)
      requires WellFormed() && Shaped(b0, width, height) && InBounds(width, height, start) && Zero(b0, start)
      requires s in Siblings(width, height, start)
      requires RevealOnly(b0, board) && Closed(b0, board, width, height) && Traced(b0, board, width, height, start, order)
      modifies this`board
      ensures WellFormed() && RevealOnly(old(board), board) && board[s.1][s.0].revealed
      ensures old(board)[s.1][s.0].revealed ==> board == old(board)
      ensures RevealOnly(b0, board) && Closed(b0, board, width, height) && Traced(b0, board, width, height, start, order')
      decreases Hidden(board), 0
    {
      order' := order;
      if At(board, s).revealed {
        return;
      }
      ghost var b := board;
      assert RevealOnly(board, board);
      RevealShrinks(board, board, s);
      PutWellFormed(board, width, height, s, At(board, s).(revealed := true));
      board := Put(board, s, At(board, s).(revealed := true));
      ghost var b1 := board;
      var sub := ExpendZero(s);
      FloodStep(b0, b, b1, board, width, height, start, order, s, sub);
      order' := order + [s] + sub;
    }

    /** Reveals every mine. */
    method ShowAllMines()
      requires WellFormed()
      modifies this`board
      ensures WellFormed() && board == Exposed(old(board))
    {
      ghost var b0 := board;
      ghost var goal := Exposed(b0);
      var y := 0;
      while y < height
        invariant 0 <= y <= height
        invariant WellFormed() && SameShape(b0, board)
        invariant forall y', x' | 0 <= y' < height && 0 <= x' < width ::
                    board[y'][x'] == if y' < y then goal[y'][x'] else b0[y'][x']
      {
        var x := 0;
        while x < width
          invariant 0 <= x <= width
          invariant WellFormed() && SameShape(b0, board)
          invariant forall y', x' | 0 <= y' < height && 0 <= x' < width ::
                      board[y'][x'] == if y' < y || (y' == y && x' < x) then goal[y'][x'] else b0[y'][x']
        {
          if board[y][x].mine {
            PutWellFormed(board, width, height, (x, y), board[y][x].(revealed := true));
            board := Put(board, (x, y), board[y][x].(revealed := true));
          }
          x := x + 1;
        }
        y := y + 1;
      }
      BoardEq(board, goal);
    }

    /** Ends the game with status s; a lost game shows all mines. */
    method OnGameOver(s: Status)
      requires WellFormed()
      modifies this`status, this`board
      ensures WellFormed() && status == s
      ensures board == if s == Lost then Exposed(old(board)) else old(board)
      ensures old(Counted()) ==> Valid()
    {
      ghost var b0 := board;
      status := s;
      if s == Lost {
        ShowAllMines();
        RevealLayout(b0, board);
        LayoutKept(b0, board, width, height);
      }
    }

    /** Toggles the flag on a hidden block while the game is on. */
    method OnRightClick(c: Coord)
      requires Valid() && InBounds(width, height, c)
      modifies this`board
      ensures Valid()
      ensures board == if status != Play || At(old(board), c).revealed then old(board) else Flip(old(board), c)
    {
      if status != Play {
        return;
      }
      if At(board, c).revealed {
        return;
      }
      FlipKeeps(board, width, height, c);
      board := Flip(board, c);
    }

    /** Declares the game won once mines exist and every block is revealed,
        flagged or a mine; both inner branches declare a win. */
    method CheckGameState()
      requires WellFormed()
      modifies this`status, this`board
      ensures WellFormed() && board == old(board)
      ensures status == if mineGenerated && AllCleared(board) then Win else old(status)
      ensures old(Valid()) ==> Valid()
    {
      if !mineGenerated {
        return;
      }
      if AllCleared(board) {
        if Misflagged(board) {
          OnGameOver(Win);
        } else {
          OnGameOver(Win);
        }
      }
    }

    /** A left click on the block at c. The first click lays the mines (drawn
        from `candidates`) away from c; then c is revealed, and either the game
        is lost or the zero region around c is opened. `laid` is the board just
        before c is revealed, and `order` lists the blocks the flood then
        reveals. */
    method OnClick(c: Coord, candidates: seq<Coord>) returns (ghost laid: Board, ghost order: seq<Coord>)
      requires Valid() && InBounds(width, height, c)
      requires forall d | d in candidates :: InBounds(width, height, d)
      modifies this`board, this`status, this`mineGenerated
      ensures Valid()
      ensures old(status) != Play ==>
                board == old(board) && status == old(status) && mineGenerated == old(mineGenerated)
      ensures old(status) == Play ==> mineGenerated && SameShape(old(board), laid)
      ensures old(status) == Play ==>
                forall y, x | 0 <= y < height && 0 <= x < width ::
                  laid[y][x].(mine := old(board)[y][x].mine, adjacentMines := old(board)[y][x].adjacentMines) == old(board)[y][x]
      ensures old(status) == Play && old(mineGenerated) ==> laid == old(board)
      ensures old(status) == Play && !old(mineGenerated) ==>
                |Mines(laid)| <= mines && Mines(laid) <= Eligible(old(board), c, candidates) &&
                (|Mines(laid)| < mines ==> Mines(laid) == Eligible(old(board), c, candidates)) &&
                (exists k | 0 <= k <= |candidates| :: Mines(laid) == Eligible(old(board), c, candidates[..k])) &&
                NumbersExact(laid, width, height) && status == Play
      ensures old(status) == Play ==> (status == Lost <==> At(laid, c).mine)
      ensures old(status) == Play && At(laid, c).mine ==>
                board == Exposed(Put(laid, c, At(laid, c).(revealed := true)))
      ensures old(status) == Play && !At(laid, c).mine ==>
                status == Play &&
                Flood(Put(laid, c, At(laid, c).(revealed := true)), board, width, height, c) &&
                Traced(Put(laid, c, At(laid, c).(revealed := true)), board, width, height, c, order) &&
                RevealOnly(laid, board) && SafeReveals(laid, board)
    {
      laid, order := board, [];
      if status != Play {
        return;
      }
      if !mineGenerated {
        LayMines(c, candidates);
      }
      laid := board;
      order := Open(c);
    }

    /** The first-click branch of `onClick`: mines are laid away from c and
        numbered. */
    method LayMines(c: Coord, candidates: seq<Coord>)
      requires Valid() && status == Play && !mineGenerated && InBounds(width, height, c)
      requires forall d | d in candidates :: InBounds(width, height, d)
      modifies this`board, this`mineGenerated
      ensures Valid() && mineGenerated && SameShape(old(board), board)
      ensures |Mines(board)| <= mines && Mines(board) <= Eligible(old(board), c, candidates)
      ensures |Mines(board)| < mines ==> Mines(board) == Eligible(old(board), c, candidates)
      ensures exists k | 0 <= k <= |candidates| :: Mines(board) == Eligible(old(board), c, candidates[..k])
      ensures NumbersExact(board, width, height) && !At(board, c).mine
      ensures forall y, x | 0 <= y < height && 0 <= x < width ::
                board[y][x].(mine := old(board)[y][x].mine, adjacentMines := old(board)[y][x].adjacentMines) == old(board)[y][x]
    {
      ghost var b0 := board;
      GenerateMines(c, candidates);
      mineGenerated := true;
      GeneratedExact(b0, board, width, height);
      assert Mines(b0) == {};
      FirstClickSafe(b0, board, c, candidates);
      assert InArea(c, (c.0, c.1));
    }

    /** Reveals the clicked block at c: a mine loses the game, any other block
        opens its zero region, which never reveals a mine. */
    method Open(c: Coord) returns (ghost order: seq<Coord>)
      requires Valid() && mineGenerated && status == Play && InBounds(width, height, c)
      modifies this`board, this`status
      ensures Valid()
      ensures status == Lost <==> At(old(board), c).mine
      ensures At(old(board), c).mine ==> board == Exposed(Put(old(board), c, At(old(board), c).(revealed := true)))
      ensures !At(old(board), c).mine ==>
                status == Play &&
                Flood(Put(old(board), c, At(old(board), c).(revealed := true)), board, width, height, c) &&
                Traced(Put(old(board), c, At(old(board), c).(revealed := true)), board, width, height, c, order) &&
                RevealOnly(old(board), board) && SafeReveals(old(board), board)
    {
      order := [];
      if At(board, c).mine {
        Explode(c);
      } else {
        ghost var b0 := board;
        order := RevealAndOpen(c);
        RevealKeeps(b0, board);
      }
    }

    /** Clicking a mine: it is revealed and the game is lost. */
    method Explode(c: Coord)
      requires Counted() && InBounds(width, height, c) && At(board, c).mine
      modifies this`board, this`status
      ensures Valid() && status == Lost
      ensures board == Exposed(Put(old(board), c, At(old(board), c).(revealed := true)))
    {
      RevealBlock(c);
      Lose();
    }

    /** Revealing the block at c and running `expendZero` from it: no revealed
        zero is left with a hidden sibling, every block the flood reveals is
        listed in `order` and reached from c through blocks with count 0, and
        from a block that is not a mine no mine is revealed. */
    method RevealAndOpen(c: Coord) returns (ghost order: seq<Coord>)
      requires Counted() && InBounds(width, height, c)
      modifies this`board
      ensures Counted()
      ensures Flood(Put(old(board), c, At(old(board), c).(revealed := true)), board, width, height, c)
      ensures Traced(Put(old(board), c, At(old(board), c).(revealed := true)), board, width, height, c, order)
      ensures RevealOnly(old(board), board) && Closed(old(board), board, width, height)
      ensures !At(old(board), c).mine ==> SafeReveals(old(board), board)
    {
      ghost var b0 := board;
      RevealBlock(c);
      ghost var b1 := board;
      order := OpenRegion(c);
      RevealTrans(b0, b1, board);
      StepClosed(b0, b0, b1, board, width, height, c);
      if !At(b0, c).mine {
        SafeTrans(b0, b1, board);
      }
    }

    /** `block.revealed = true` on the block at c. */
    method RevealBlock(c: Coord)
      requires Counted() && InBounds(width, height, c)
      modifies this`board
      ensures Counted() && board == Put(old(board), c, At(old(board), c).(revealed := true))
      ensures RevealOnly(old(board), board)
      ensures !At(old(board), c).mine ==> SafeReveals(old(board), board)
    {
      RevealCell(board, width, height, c);
      board := Put(board, c, At(board, c).(revealed := true));
    }

    /** An `expendZero` call: it reveals exactly the blocks of `order`, a
        cascade from c, and from a block that is not a mine no mine. */
    method OpenRegion(c: Coord) returns (ghost order: seq<Coord>)
      requires Counted() && InBounds(width, height, c)
      modifies this`board
      ensures Counted()
      ensures Flood(old(board), board, width, height, c)
      ensures Traced(old(board), board, width, height, c, order)
      ensures !At(old(board), c).mine ==> SafeReveals(old(board), board)
    {
      ghost var b0 := board;
      order := ExpendZero(c);
      if !At(b0, c).mine {
        ExactIsSafe(b0, width, height);
        CascadeMineFree(b0, width, height, c, order);
      }
      RevealLayout(b0, board);
      LayoutKept(b0, board, width, height);
    }

    /** A double click on the block at c. When its flagged siblings match its
        number, every sibling neither revealed nor flagged is revealed (and
        opened; a mine loses the game), and `flooded` is the board those floods
        leave before the mines are shown. When its covered siblings match the
        mines still unflagged, they are all flagged. */
    method AutoExpand(c: Coord) returns (ghost flooded: Board)
      requires Valid() && InBounds(width, height, c)
      modifies this`board, this`status
      ensures Valid() && Grows(old(board), board)
      ensures var sibs := Siblings(width, height, c);
              var flags := CountWhere(old(board), sibs, IsFlagged);
              flags == At(old(board), c).adjacentMines ==>
                ChordOutcome(old(board), board, width, height, sibs, old(status), status, flooded)
      ensures var sibs := Siblings(width, height, c);
              var flags := CountWhere(old(board), sibs, IsFlagged);
              var covered := CountWhere(old(board), sibs, IsCovered);
              flags != At(old(board), c).adjacentMines ==>
                status == old(status) &&
                forall y, x | 0 <= y < height && 0 <= x < width ::
                  board[y][x] == old(board)[y][x].(flagged := old(board)[y][x].flagged ||
                    (covered == At(old(board), c).adjacentMines - flags && (x, y) in sibs && !old(board)[y][x].revealed))
    {
      var siblings := Siblings(width, height, c);
      var block := At(board, c);
      var flags := CountWhere(board, siblings, IsFlagged);
      var notRevealed := CountWhere(board, siblings, IsCovered);
      ghost var b0 := board;
      flooded := board;
      if flags == block.adjacentMines {
        flooded := ChordAll(siblings);
      }
      var missingFlags := block.adjacentMines - flags;
      if notRevealed == missingFlags {
        FlagAll(siblings);
      }
    }

    /** The first loop of `autoExpand`, over the siblings `sibs`: each of
        them ends up revealed or was flagged, and every block revealed is a
        covered sibling, lies on a cascade from one, or is a mine shown when
        the game is lost. `flooded` is the board the floods leave before the
        mines are shown (see `FloodedBy`). */
    method ChordAll(sibs: seq<Coord>) returns (ghost flooded: Board)
      requires Valid() && forall d | d in sibs :: InBounds(width, height, d)
      modifies this`board, this`status
      ensures Valid() && ChordOutcome(old(board), board, width, height, sibs, old(status), status, flooded)
      ensures Touched(board, sibs)
    {
      ghost var b0 := board;
      ghost var st0 := status;
      ExactIsSafe(b0, width, height);
      ChordedStart(b0, width, height, st0);
      flooded := b0;
      assert sibs[..0] == [];
      var i := 0;
      while i < |sibs|
        invariant 0 <= i <= |sibs|
        invariant Valid() && ChordOutcome(b0, board, width, height, sibs[..i], st0, status, flooded)
      {
        flooded := ChordNext(sibs, i, b0, st0, flooded);
        i := i + 1;
      }
      assert sibs[..i] == sibs;
      SettledTouched(b0, board, sibs);
    }

    /** One turn of the first loop of `autoExpand`: `ChordReveal` on sibs[i]
        extends what the loop has done from board b0 and status st0 over
        sibs[..i] to sibs[..i + 1]. */
    method ChordNext(sibs: seq<Coord>, i: int, ghost b0: Board, ghost st0: Status, ghost p: Board)
      returns (ghost p2: Board)
      requires Valid() && 0 <= i < |sibs| && InBounds(width, height, sibs[i])
      requires Shaped(b0, width, height) && ZeroMeansSafe(b0, width, height)
      requires ChordOutcome(b0, board, width, height, sibs[..i], st0, status, p)
      modifies this`board, this`status
      ensures Valid() && ChordOutcome(b0, board, width, height, sibs[..i + 1], st0, status, p2)
    {
      ghost var b := board;
      ghost var st := status;
      ghost var f, order := ChordReveal(sibs[i]);
      p2 := ChordOutcomeStep(b0, b, board, width, height, sibs, i, st0, st, status, f, order, p);
    }

    /** One step of the first loop of `autoExpand`: a revealed or flagged
        sibling s is skipped; any other is revealed and flooded from (giving
        `flooded`, which reveals exactly the cascade `order`), and a mine then
        loses the game. */
    method ChordReveal(s: Coord) returns (ghost flooded: Board, ghost order: seq<Coord>)
      requires Valid() && InBounds(width, height, s)
      modifies this`board, this`status
      ensures Valid() && ChordStep(old(board), board, width, height, s, old(status), status, flooded, order)
    {
      flooded, order := board, [];
      var block := At(board, s);
      if block.revealed || block.flagged {
        return;
      }
      if block.mine {
        ghost var b0 := board;
        order := RevealAndOpen(s);
        flooded := board;
        Lose();
        RevealTrans(b0, flooded, board);
      } else {
        ghost var b0 := board;
        order := RevealAndOpen(s);
        flooded := board;
        RevealKeeps(b0, board);
      }
    }

    /** `onGameOver('lost')` keeps the board's layout and shows every mine. */
    method Lose()
      requires Counted()
      modifies this`board, this`status
      ensures Valid() && status == Lost && board == Exposed(old(board)) && RevealOnly(old(board), board)
    {
      ghost var b0 := board;
      OnGameOver(Lost);
      RevealLayout(b0, board);
    }

    /** The second loop of `autoExpand`: every sibling neither revealed nor flagged is flagged. */
    method FlagAll(sibs: seq<Coord>)
      requires Valid() && forall d | d in sibs :: InBounds(width, height, d)
      modifies this`board
      ensures Valid() && FlaggedOver(old(board), board, sibs)
      ensures Touched(old(board), sibs) ==> board == old(board)
    {
      ghost var b0 := board;
      assert sibs[..0] == [];
      var i := 0;
      while i < |sibs|
        invariant 0 <= i <= |sibs|
        invariant FlaggedOver(b0, board, sibs[..i])
      {
        var d := sibs[i];
        assert InBounds(width, height, d) && OnBoard(board, d);
        assert sibs[..i + 1] == sibs[..i] + [d];
        FlagStep(b0, board, sibs[..i], d);
        var block := At(board, d);
        if !block.revealed && !block.flagged {
          board := Put(board, d, block.(flagged := true));
        }
        i := i + 1;
      }
      assert sibs[..i] == sibs;
      FlaggedKeeps(b0, board, sibs);
      LayoutKept(b0, board, width, height);
      if Touched(b0, sibs) {
        FlaggedNone(b0, board, sibs);
      }
    }
  }
}
