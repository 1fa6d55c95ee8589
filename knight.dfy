// The knight-path counter: a board of optional symbols, a list of move
// deltas, a set of restricted symbols and two limits; `Solve` adds up, over
// every valid start cell, the number of depth-first move sequences of
// exactly `maxMoves` moves that never bring the running count of restricted
// cells to `maxRestrictedCharacters`.

module Knight {

  /** A board cell holds a symbol, or nothing (`null` on the board). */
  datatype Option<T> = None | Some(value: T)

  /** Rows may have different lengths. */
  type Board = seq<seq<Option<string>>>

  /** (row, column); not necessarily on the board. */
  type Position = (int, int)

  /** (row offset, column offset). */
  type Delta = (int, int)

  /** The constructor's configuration object; nothing in it changes later. */
  datatype Config = Config(
    board: Board,
    moveDeltas: seq<Delta>,
    restrictedCharacters: set<string>,
    maxMoves: int,
    maxRestrictedCharacters: int)

  // ---------------------------------------------------------------------
  // Geometry and cell predicates

  /** What JavaScript yields for `board[x]?.[y]`: `undefined` off the board
      (a missing row or a missing column), `null` for an empty cell. */
  datatype JsValue = Undefined | Null | Str(s: string)

  function Lookup(board: Board, position: Position): JsValue
  {
    var (x, y) := position;
    if 0 <= x < |board| && 0 <= y < |board[x]| then
      match board[x][y]
      case None => Null
      case Some(s) => Str(s)
    else
      Undefined
  }

  /** JavaScript's `!!v`: `undefined`, `null` and the empty string are falsy. */
  predicate Truthy(v: JsValue)
  {
    v.Str? && v.s != ""
  }

  /** A position is valid when the lookup of its cell is truthy, which is
      exactly: in range of the board and of its own row, and a non-empty
      symbol there. */
  function IsValidPosition(board: Board, position: Position): (valid: bool)
    ensures valid <==>
      && 0 <= position.0 < |board|
      && 0 <= position.1 < |board[position.0]|
      && board[position.0][position.1].Some?
      && board[position.0][position.1].value != ""
  {
    Truthy(Lookup(board, position))
  }

  /** Componentwise addition; the result may lie off the board. */
  function NextPosition(position: Position, delta: Delta): Position
  {
    (position.0 + delta.0, position.1 + delta.1)
  }

  /** Moving by a delta and then by its opposite returns to the start, so a
      move never loses track of where it came from, on or off the board. */
  lemma NextPositionUndo(position: Position, delta: Delta)
    ensures NextPosition(NextPosition(position, delta), (-delta.0, -delta.1)) == position
  {
  }

  /** The symbol at a valid position belongs to the restricted set. The cell
      is dereferenced as non-null, so the position must be valid; the symbol
      tested is the string the JavaScript lookup of that cell yields. */
  function IsRestrictedCharacter(board: Board, restrictedCharacters: set<string>, position: Position): (restricted: bool)
    requires IsValidPosition(board, position)
    ensures Lookup(board, position).Str?
    ensures restricted <==> Lookup(board, position).s in restrictedCharacters
  {
    board[position.0][position.1].value in restrictedCharacters
  }

  /** 1 for a valid restricted cell, 0 for any other position. */
  function Hit(board: Board, restrictedCharacters: set<string>, position: Position): (r: nat)
    ensures r == 1 <==> IsValidPosition(board, position) && IsRestrictedCharacter(board, restrictedCharacters, position)
    ensures r <= 1
  {
    if IsValidPosition(board, position) && IsRestrictedCharacter(board, restrictedCharacters, position) then 1 else 0
  }

  // ---------------------------------------------------------------------
  // The depth-first count, as functions

  /** The number of paths the depth-first search counts from `position`,
      having made `totalMoves` moves and met `badCharacterCount` restricted
      cells before this one. The restricted threshold is tested before the
      move limit, and by equality. */
  function Count(cfg: Config, position: Position, totalMoves: int, badCharacterCount: int): nat
    requires IsValidPosition(cfg.board, position)
    requires totalMoves <= cfg.maxMoves
    decreases cfg.maxMoves - totalMoves, |cfg.moveDeltas| + 1
  {
    var hits := badCharacterCount + Hit(cfg.board, cfg.restrictedCharacters, position);
    if hits == cfg.maxRestrictedCharacters then 0
    else if totalMoves == cfg.maxMoves then 1
    else Branches(cfg, position, totalMoves, hits, |cfg.moveDeltas|)
  }

  /** The sum, over the first `i` move deltas in order, of the counts from
      the valid positions they lead to, each carrying `hits` by value. */
  function Branches(cfg: Config, position: Position, totalMoves: int, hits: int, i: nat): nat
    requires totalMoves < cfg.maxMoves
    requires i <= |cfg.moveDeltas|
    decreases cfg.maxMoves - totalMoves, i
  {
    if i == 0 then 0
    else
      var next := NextPosition(position, cfg.moveDeltas[i - 1]);
      Branches(cfg, position, totalMoves, hits, i - 1) +
      if IsValidPosition(cfg.board, next) then Count(cfg, next, totalMoves + 1, hits) else 0
  }

  /** The threshold is checked before the move limit: a cell that brings the
      count to the threshold yields 0 even when no moves are left. */
  lemma CountThresholdFirst(cfg: Config, position: Position, totalMoves: int, badCharacterCount: int)
    requires IsValidPosition(cfg.board, position)
    requires totalMoves <= cfg.maxMoves
    requires badCharacterCount + Hit(cfg.board, cfg.restrictedCharacters, position) == cfg.maxRestrictedCharacters
    ensures Count(cfg, position, totalMoves, badCharacterCount) == 0
  {
  }

  /** With no moves left and the threshold not reached, exactly one path. */
  lemma CountAtLeaf(cfg: Config, position: Position, badCharacterCount: int)
    requires IsValidPosition(cfg.board, position)
    requires badCharacterCount + Hit(cfg.board, cfg.restrictedCharacters, position) != cfg.maxRestrictedCharacters
    ensures Count(cfg, position, cfg.maxMoves, badCharacterCount) == 1
  {
  }

  /** A move list that leads nowhere valid gives 0 below the leaf. */
  lemma {:induction false} BranchesStuck(cfg: Config, position: Position, totalMoves: int, hits: int, i: nat)
    requires totalMoves < cfg.maxMoves
    requires i <= |cfg.moveDeltas|
    requires forall j :: 0 <= j < i ==> !IsValidPosition(cfg.board, NextPosition(position, cfg.moveDeltas[j]))
    ensures Branches(cfg, position, totalMoves, hits, i) == 0
  {
    if i > 0 {
      BranchesStuck(cfg, position, totalMoves, hits, i - 1);
    }
  }

  /** The depth of the call tree of the search below one call, that call
      included: the recursion ends after at most `maxMoves - totalMoves`
      further nested calls. */
  function Depth(cfg: Config, position: Position, totalMoves: int, badCharacterCount: int): (d: nat)
    requires IsValidPosition(cfg.board, position)
    requires totalMoves <= cfg.maxMoves
    ensures 1 <= d <= cfg.maxMoves - totalMoves + 1
    decreases cfg.maxMoves - totalMoves, |cfg.moveDeltas| + 1
  {
    var hits := badCharacterCount + Hit(cfg.board, cfg.restrictedCharacters, position);
    if hits == cfg.maxRestrictedCharacters || totalMoves == cfg.maxMoves then 1
    else 1 + BranchDepth(cfg, position, totalMoves, hits, |cfg.moveDeltas|)
  }

  /** The deepest call tree among the valid moves by the first `i` deltas. */
  function BranchDepth(cfg: Config, position: Position, totalMoves: int, hits: int, i: nat): (d: nat)
    requires totalMoves < cfg.maxMoves
    requires i <= |cfg.moveDeltas|
    ensures d <= cfg.maxMoves - totalMoves
    decreases cfg.maxMoves - totalMoves, i
  {
    if i == 0 then 0
    else
      var next := NextPosition(position, cfg.moveDeltas[i - 1]);
      var rest := BranchDepth(cfg, position, totalMoves, hits, i - 1);
      if IsValidPosition(cfg.board, next) then
        var below := Depth(cfg, next, totalMoves + 1, hits);
        if rest < below then below else rest
      else rest
  }

  // ---------------------------------------------------------------------
  // The whole-board total

  /** `p` comes before `q` in row-major order. */
  predicate Before(p: Position, q: Position)
  {
    p.0 < q.0 || (p.0 == q.0 && p.1 < q.1)
  }

  predicate RowMajor(cells: seq<Position>)
  {
    forall a, b :: 0 <= a < b < |cells| ==> Before(cells[a], cells[b])
  }

  /** The valid cells of row `x` among its first `y` columns, left to right. */
  function RowCells(board: Board, x: nat, y: nat): seq<Position>
    requires x < |board| && y <= |board[x]|
  {
    if y == 0 then []
    else RowCells(board, x, y - 1) + if IsValidPosition(board, (x, y - 1)) then [(x, y - 1)] else []
  }

  lemma {:induction false} RowCellsMembers(board: Board, x: nat, y: nat)
    requires x < |board| && y <= |board[x]|
    ensures forall c :: c in RowCells(board, x, y) <==> c.0 == x && 0 <= c.1 < y && IsValidPosition(board, c)
  {
    if y > 0 {
      RowCellsMembers(board, x, y - 1);
    }
  }

  /** The valid cells of the first `x` rows, row after row, each row scanned
      up to its own length. */
  function BoardCells(board: Board, x: nat): seq<Position>
    requires x <= |board|
  {
    if x == 0 then [] else BoardCells(board, x - 1) + RowCells(board, x - 1, |board[x - 1]|)
  }

  lemma {:induction false} BoardCellsMembers(board: Board, x: nat)
    requires x <= |board|
    ensures forall c :: c in BoardCells(board, x) <==> c.0 < x && IsValidPosition(board, c)
  {
    if x > 0 {
      BoardCellsMembers(board, x - 1);
      RowCellsMembers(board, x - 1, |board[x - 1]|);
    }
  }

  /** Every valid cell of the board, each exactly once. */
  function ValidCells(board: Board): (cells: seq<Position>)
    ensures forall c :: c in cells <==> IsValidPosition(board, c)
  {
    BoardCellsMembers(board, |board|);
    BoardCells(board, |board|)
  }

  lemma {:induction false} RowCellsOrdered(board: Board, x: nat, y: nat)
    requires x < |board| && y <= |board[x]|
    ensures RowMajor(RowCells(board, x, y))
  {
    if y > 0 {
      RowCellsOrdered(board, x, y - 1);
      RowCellsMembers(board, x, y - 1);
    }
  }

  lemma {:induction false} BoardCellsOrdered(board: Board, x: nat)
    requires x <= |board|
    ensures RowMajor(BoardCells(board, x))
  {
    if x > 0 {
      var upper, row := BoardCells(board, x - 1), RowCells(board, x - 1, |board[x - 1]|);
      BoardCellsOrdered(board, x - 1);
      RowCellsOrdered(board, x - 1, |board[x - 1]|);
      BoardCellsMembers(board, x - 1);
      RowCellsMembers(board, x - 1, |board[x - 1]|);
      forall a, b | 0 <= a < b < |upper + row|
        ensures Before((upper + row)[a], (upper + row)[b])
      {
        if b < |upper| {
          assert (upper + row)[a] == upper[a] && (upper + row)[b] == upper[b];
        } else if a >= |upper| {
          assert (upper + row)[a] == row[a - |upper|] && (upper + row)[b] == row[b - |upper|];
        } else {
          assert (upper + row)[a] == upper[a] && upper[a] in upper;
          assert (upper + row)[b] == row[b - |upper|] && row[b - |upper|] in row;
        }
      }
    }
  }

  /** The valid cells come in strictly increasing row-major order, so none
      is listed twice. */
  lemma ValidCellsOrdered(board: Board)
    ensures RowMajor(ValidCells(board))
  {
    BoardCellsOrdered(board, |board|);
  }

  /** The count from the start of a search at `c`, or 0 off the valid cells. */
  function StartCount(cfg: Config, c: Position): nat
    requires 0 <= cfg.maxMoves
  {
    if IsValidPosition(cfg.board, c) then Count(cfg, c, 0, 0) else 0
  }

  /** The start counts of the first `y` cells of row `x`. */
  function RowSum(cfg: Config, x: nat, y: nat): nat
    requires x < |cfg.board| && y <= |cfg.board[x]|
    requires 0 <= cfg.maxMoves
  {
    if y == 0 then 0 else RowSum(cfg, x, y - 1) + StartCount(cfg, (x, y - 1))
  }

  /** The start counts of the first `x` rows, each up to its own length. */
  function BoardSum(cfg: Config, x: nat): nat
    requires x <= |cfg.board|
    requires 0 <= cfg.maxMoves
  {
    if x == 0 then 0 else BoardSum(cfg, x - 1) + RowSum(cfg, x - 1, |cfg.board[x - 1]|)
  }

  /** What `solve()` returns: the start counts of every cell, row by row. */
  function Paths(cfg: Config): nat
    requires 0 <= cfg.maxMoves
  {
    BoardSum(cfg, |cfg.board|)
  }

  /** The sum of the counts from the start of a search at each of `cells`. */
  function SumCounts(cfg: Config, cells: seq<Position>): nat
    requires 0 <= cfg.maxMoves
  {
    if cells == [] then 0
    else SumCounts(cfg, cells[..|cells| - 1]) + StartCount(cfg, cells[|cells| - 1])
  }

  lemma {:induction false} SumCountsConcat(cfg: Config, a: seq<Position>, b: seq<Position>)
    requires 0 <= cfg.maxMoves
    ensures SumCounts(cfg, a + b) == SumCounts(cfg, a) + SumCounts(cfg, b)
    decreases |b|
  {
    if b == [] {
      assert a + b == a;
    } else {
      var b' := b[..|b| - 1];
      assert (a + b)[..|a + b| - 1] == a + b';
      SumCountsConcat(cfg, a, b');
    }
  }

  lemma {:induction false} RowSumOverCells(cfg: Config, x: nat, y: nat)
    requires x < |cfg.board| && y <= |cfg.board[x]|
    requires 0 <= cfg.maxMoves
    ensures RowSum(cfg, x, y) == SumCounts(cfg, RowCells(cfg.board, x, y))
  {
    if y > 0 {
      RowSumOverCells(cfg, x, y - 1);
      var before := RowCells(cfg.board, x, y - 1);
      if IsValidPosition(cfg.board, (x, y - 1)) {
        assert (before + [(x, y - 1)])[..|before|] == before;
      } else {
        assert before + [] == before;
      }
    }
  }

  lemma {:induction false} BoardSumOverCells(cfg: Config, x: nat)
    requires x <= |cfg.board|
    requires 0 <= cfg.maxMoves
    ensures BoardSum(cfg, x) == SumCounts(cfg, BoardCells(cfg.board, x))
  {
    if x > 0 {
      BoardSumOverCells(cfg, x - 1);
      RowSumOverCells(cfg, x - 1, |cfg.board[x - 1]|);
      SumCountsConcat(cfg, BoardCells(cfg.board, x - 1), RowCells(cfg.board, x - 1, |cfg.board[x - 1]|));
    }
  }

  /** `solve()` adds up, once each, the counts from exactly the valid cells,
      taken in row-major order. */
  lemma PathsOverValidCells(cfg: Config)
    requires 0 <= cfg.maxMoves
    ensures Paths(cfg) == SumCounts(cfg, ValidCells(cfg.board))
  {
    BoardSumOverCells(cfg, |cfg.board|);
  }

  /** A board without a valid cell has no paths. */
  lemma PathsNoValidCells(cfg: Config)
    requires 0 <= cfg.maxMoves
    requires forall p :: !IsValidPosition(cfg.board, p)
    ensures Paths(cfg) == 0
  {
    PathsOverValidCells(cfg);
    SumCountsNoneValid(cfg, ValidCells(cfg.board));
  }

  lemma {:induction false} SumCountsNoneValid(cfg: Config, cells: seq<Position>)
    requires 0 <= cfg.maxMoves
    requires forall c :: c in cells ==> !IsValidPosition(cfg.board, c)
    ensures SumCounts(cfg, cells) == 0
  {
    if cells != [] {
      SumCountsNoneValid(cfg, cells[..|cells| - 1]);
    }
  }

  // ---------------------------------------------------------------------
  // The class

  class YeakelRobert {
    const board: Board
    const moveDeltas: seq<Delta>
    const restrictedCharacters: set<string>
    const maxMoves: int
    const maxRestrictedCharacters: int

    /** The configuration the object was built from. */
    function Setup(): Config
    {
      Config(board, moveDeltas, restrictedCharacters, maxMoves, maxRestrictedCharacters)
    }

    constructor (config: Config)
      ensures Setup() == config
    {
      board := config.board;
      moveDeltas := config.moveDeltas;
      restrictedCharacters := config.restrictedCharacters;
      maxMoves := config.maxMoves;
      maxRestrictedCharacters := config.maxRestrictedCharacters;
    }

    /** The recursive search: the restricted count is a value parameter, and
        the paths found through each move delta, in order, are accumulated. */
    method KnightDfs(position: Position, totalMoves: int, badCharacterCount: int) returns (totalPaths: nat)
      requires IsValidPosition(board, position)
      requires totalMoves <= maxMoves
      ensures totalPaths == Count(Setup(), position, totalMoves, badCharacterCount)
      decreases maxMoves - totalMoves
    {
      var hits := badCharacterCount;
      if IsRestrictedCharacter(board, restrictedCharacters, position) {
        hits := hits + 1;
      }
      if hits == maxRestrictedCharacters {
        return 0;
      }
      if totalMoves == maxMoves {
        return 1;
      }
      totalPaths := 0;
      for i := 0 to |moveDeltas|
        invariant totalPaths == Branches(Setup(), position, totalMoves, hits, i)
      {
        var nextPosition := NextPosition(position, moveDeltas[i]);
        if IsValidPosition(board, nextPosition) {
          var paths := KnightDfs(nextPosition, totalMoves + 1, hits);
          totalPaths := totalPaths + paths;
        }
      }
    }

    /** The paths from one start cell: a search with no moves made and no
        restricted cell met. */
    method CalculateTotalPaths(position: Position) returns (paths: nat)
      requires IsValidPosition(board, position)
      requires 0 <= maxMoves
      ensures paths == Count(Setup(), position, 0, 0)
    {
      paths := KnightDfs(position, 0, 0);
    }

    /** Visits every cell in row-major order, each row up to its own length,
        and adds the paths from each valid one. */
    method Solve() returns (totalPathsForAllCells: nat)
      requires 0 <= maxMoves
      ensures totalPathsForAllCells == Paths(Setup())
    {
      totalPathsForAllCells := 0;
      for x := 0 to |board|
        invariant totalPathsForAllCells == BoardSum(Setup(), x)
      {
        var row := board[x];
        for y := 0 to |row|
          invariant totalPathsForAllCells == BoardSum(Setup(), x) + RowSum(Setup(), x, y)
        {
          var position := (x, y);
          if IsValidPosition(board, position) {
            var paths := CalculateTotalPaths(position);
            totalPathsForAllCells := totalPathsForAllCells + paths;
          }
        }
      }
    }
  }
}
