/** Tic-tac-toe: the rules of a 3x3 board (whose turn it is, the legal
    moves, the board after a move, the winner, the end of the game and its
    value) and the minimax search over them. The rule functions are the
    specification; the board-scanning loops of the program are methods
    proved equal to them. */
module TicTacToe {
  import opened Wrappers

  datatype Mark = X | O

  /** A square holds a mark or is empty (Python's None). */
  type Square = Option<Mark>

  type Board = seq<seq<Square>>

  type Action = (int, int)

  /** What `player` returns: the mark to move, or the string sentinel for a
      finished game. */
  datatype Turn = Move(mark: Mark) | FinishedGame

  /** What `actions` returns: the set of free squares, or the string
      sentinel for a finished game. */
  datatype Actions = Available(moves: set<Action>) | GameFinished

  predicate Shaped(b: Board) {
    |b| == 3 && forall i :: 0 <= i < 3 ==> |b[i]| == 3
  }

  function InitialState(): (r: Board)
    ensures Shaped(r)
    ensures forall i, j :: 0 <= i < 3 && 0 <= j < 3 ==> r[i][j] == None
  {
    [[None, None, None], [None, None, None], [None, None, None]]
  }

  // ---------------------------------------------------------------- counts

  /** How many of the first n squares of `row` equal `s`. */
  function CountRow(row: seq<Square>, s: Square, n: nat): (r: nat)
    requires n <= |row|
    ensures r <= n
  {
    if n == 0 then 0 else CountRow(row, s, n - 1) + (if row[n - 1] == s then 1 else 0)
  }

  /** How many squares of the first n rows equal `s`. */
  function CountRows(b: Board, s: Square, n: nat): (r: nat)
    requires Shaped(b) && n <= 3
    ensures r <= 3 * n
  {
    if n == 0 then 0 else CountRows(b, s, n - 1) + CountRow(b[n - 1], s, 3)
  }

  function Count(b: Board, s: Square): (r: nat)
    requires Shaped(b)
    ensures r <= 9
  {
    CountRows(b, s, 3)
  }

  /** Every square is empty, X or O, so the three counts add up. */
  lemma {:induction false} CountRowSum(row: seq<Square>, n: nat)
    requires n <= |row|
    ensures CountRow(row, None, n) + CountRow(row, Some(X), n) + CountRow(row, Some(O), n) == n
  {
    if n > 0 {
      CountRowSum(row, n - 1);
      match row[n - 1]
      case None =>
      case Some(m) => assert m == X || m == O;
    }
  }

  lemma {:induction false} CountRowsSum(b: Board, n: nat)
    requires Shaped(b) && n <= 3
    ensures CountRows(b, None, n) + CountRows(b, Some(X), n) + CountRows(b, Some(O), n) == 3 * n
  {
    if n > 0 {
      CountRowsSum(b, n - 1);
      CountRowSum(b[n - 1], 3);
    }
  }

  /** The number of empty squares is zero exactly when no square is empty. */
  lemma {:induction false} CountRowZero(row: seq<Square>, s: Square, n: nat)
    requires n <= |row|
    ensures CountRow(row, s, n) == 0 <==> forall j :: 0 <= j < n ==> row[j] != s
  {
    if n > 0 {
      CountRowZero(row, s, n - 1);
    }
  }

  lemma {:induction false} CountRowsZero(b: Board, s: Square, n: nat)
    requires Shaped(b) && n <= 3
    ensures CountRows(b, s, n) == 0 <==> forall i, j :: 0 <= i < n && 0 <= j < 3 ==> b[i][j] != s
  {
    if n > 0 {
      CountRowsZero(b, s, n - 1);
      CountRowZero(b[n - 1], s, 3);
    }
  }

  /** Filling one empty square removes exactly one empty square. */
  lemma {:induction false} CountRowFill(row: seq<Square>, j: int, m: Mark, n: nat)
    requires 0 <= j < |row| && row[j] == None && n <= |row|
    ensures CountRow(row[j := Some(m)], None, n) == CountRow(row, None, n) - (if j < n then 1 else 0)
  {
    if n > 0 {
      CountRowFill(row, j, m, n - 1);
    }
  }

  lemma {:induction false} CountRowsFill(b: Board, a: Action, m: Mark, n: nat)
    requires Shaped(b) && 0 <= a.0 < 3 && 0 <= a.1 < 3 && b[a.0][a.1] == None && n <= 3
    ensures Shaped(b[a.0 := b[a.0][a.1 := Some(m)]])
    ensures CountRows(b[a.0 := b[a.0][a.1 := Some(m)]], None, n) == CountRows(b, None, n) - (if a.0 < n then 1 else 0)
  {
    if n > 0 {
      CountRowsFill(b, a, m, n - 1);
      if n - 1 == a.0 {
        CountRowFill(b[a.0], a.1, m, 3);
      }
    }
  }

  // ---------------------------------------------------------------- winner

  type Line = seq<Action>

  /** The eight lines in the order `winner` checks them: the three columns,
      the three rows, the main diagonal, the other diagonal. */
  function Lines(): (r: seq<Line>)
    ensures |r| == 8
    ensures forall k :: 0 <= k < 8 ==> OnBoard(r[k])
  {
    [[(0, 0), (1, 0), (2, 0)], [(0, 1), (1, 1), (2, 1)], [(0, 2), (1, 2), (2, 2)],
     [(0, 0), (0, 1), (0, 2)], [(1, 0), (1, 1), (1, 2)], [(2, 0), (2, 1), (2, 2)],
     [(0, 0), (1, 1), (2, 2)], [(0, 2), (1, 1), (2, 0)]]
  }

  predicate OnBoard(line: Line) {
    |line| == 3 && forall p :: 0 <= p < 3 ==> 0 <= line[p].0 < 3 && 0 <= line[p].1 < 3
  }

  /** How many of the first n squares of `line` hold `m`. */
  function LineCount(b: Board, line: Line, m: Mark, n: nat): (r: nat)
    requires Shaped(b) && OnBoard(line) && n <= 3
    ensures r <= n
  {
    if n == 0 then 0
    else LineCount(b, line, m, n - 1) + (if b[line[n - 1].0][line[n - 1].1] == Some(m) then 1 else 0)
  }

  /** All three squares of `line` hold `m`. */
  predicate Full(b: Board, line: Line, m: Mark)
    requires Shaped(b) && OnBoard(line)
  {
    forall p :: 0 <= p < 3 ==> b[line[p].0][line[p].1] == Some(m)
  }

  lemma {:induction false} LineCountFull(b: Board, line: Line, m: Mark, n: nat)
    requires Shaped(b) && OnBoard(line) && n <= 3
    ensures LineCount(b, line, m, n) == n <==> forall p :: 0 <= p < n ==> b[line[p].0][line[p].1] == Some(m)
  {
    if n > 0 {
      LineCountFull(b, line, m, n - 1);
    }
  }

  /** The verdict of one line: X if it is full of X, else O if it is full
      of O, else none. */
  function LineWinner(b: Board, line: Line): (r: Option<Mark>)
    requires Shaped(b) && OnBoard(line)
    ensures r == Some(X) <==> Full(b, line, X)
    ensures r == Some(O) <==> Full(b, line, O) && !Full(b, line, X)
  {
    LineCountFull(b, line, X, 3);
    LineCountFull(b, line, O, 3);
    if LineCount(b, line, X, 3) == 3 then Some(X)
    else if LineCount(b, line, O, 3) == 3 then Some(O)
    else None
  }

  /** Neither mark fills line k. */
  predicate Open(b: Board, k: int)
    requires Shaped(b) && 0 <= k < 8
  {
    !Full(b, Lines()[k], X) && !Full(b, Lines()[k], O)
  }

  /** The verdict of the first decided line from line k on. */
  function WinnerFrom(b: Board, k: nat): (r: Option<Mark>)
    requires Shaped(b) && k <= 8
    ensures r.None? <==> forall l :: k <= l < 8 ==> Open(b, l)
    ensures r.Some? ==> exists l :: k <= l < 8 && Full(b, Lines()[l], r.value) &&
                                  (r.value == O ==> !Full(b, Lines()[l], X)) &&
                                  forall l' :: k <= l' < l ==> Open(b, l')
    decreases 8 - k
  {
    if k == 8 then None
    else
      var w := LineWinner(b, Lines()[k]);
      if w.Some? then assert !Open(b, k); w else WinnerFrom(b, k + 1)
  }

  /** `winner(board)`: the verdict of the first line, in checking order, that
      one mark fills; None when no line is full. */
  function WinnerOf(b: Board): (r: Option<Mark>)
    requires Shaped(b)
    ensures r.None? <==> forall l :: 0 <= l < 8 ==> Open(b, l)
    ensures r.Some? ==> exists l :: 0 <= l < 8 && Full(b, Lines()[l], r.value) &&
                                   (r.value == O ==> !Full(b, Lines()[l], X))
  {
    WinnerFrom(b, 0)
  }

  /** The counting loop `winner` runs over one line. */
  method CountLine(b: Board, line: Line) returns (xs: nat, os: nat)
    requires Shaped(b) && OnBoard(line)
    ensures xs == LineCount(b, line, X, 3) && os == LineCount(b, line, O, 3)
  {
    xs, os := 0, 0;
    for p := 0 to 3
      invariant xs == LineCount(b, line, X, p) && os == LineCount(b, line, O, p)
    {
      var (i, j) := line[p];
      if b[i][j] == Some(X) {
        xs := xs + 1;
      } else if b[i][j] == Some(O) {
        os := os + 1;
      }
    }
  }

  /** The counts of line k decide `WinnerFrom` at k. */
  lemma LineDecides(b: Board, k: nat, xs: nat, os: nat)
    requires Shaped(b) && k < 8
    requires xs == LineCount(b, Lines()[k], X, 3) && os == LineCount(b, Lines()[k], O, 3)
    ensures xs == 3 ==> WinnerFrom(b, k) == Some(X)
    ensures xs != 3 && os == 3 ==> WinnerFrom(b, k) == Some(O)
    ensures xs != 3 && os != 3 ==> WinnerFrom(b, k) == WinnerFrom(b, k + 1)
  {
  }

  method Winner(b: Board) returns (r: Option<Mark>)
    requires Shaped(b)
    ensures r == WinnerOf(b)
  {
    // columns
    for index := 0 to 3
      invariant WinnerFrom(b, 0) == WinnerFrom(b, index)
    {
      var xs, os := CountLine(b, Lines()[index]);
      LineDecides(b, index, xs, os);
      if xs == 3 {
        return Some(X);
      } else if os == 3 {
        return Some(O);
      }
    }
    // rows
    for row := 0 to 3
      invariant WinnerFrom(b, 0) == WinnerFrom(b, 3 + row)
    {
      var xs, os := CountLine(b, Lines()[3 + row]);
      LineDecides(b, 3 + row, xs, os);
      if xs == 3 {
        return Some(X);
      } else if os == 3 {
        return Some(O);
      }
    }
    // the two diagonals
    var xs, os := CountLine(b, Lines()[6]);
    LineDecides(b, 6, xs, os);
    if xs == 3 {
      return Some(X);
    } else if os == 3 {
      return Some(O);
    }
    xs, os := CountLine(b, Lines()[7]);
    LineDecides(b, 7, xs, os);
    if xs == 3 {
      return Some(X);
    } else if os == 3 {
      return Some(O);
    }
    return None;
  }

  // ---------------------------------------------------------------- rules

  /** `terminal(board)`: some line is won, or no square is empty. */
  function TerminalOf(b: Board): (r: bool)
    requires Shaped(b)
    ensures r <==> WinnerOf(b).Some? || forall i, j :: 0 <= i < 3 && 0 <= j < 3 ==> b[i][j] != None
  {
    CountRowsZero(b, None, 3);
    WinnerOf(b).Some? || Count(b, None) == 0
  }

  /** The counting loop over the squares followed by the winner test. */
  method Terminal(b: Board) returns (r: bool)
    requires Shaped(b)
    ensures r == TerminalOf(b)
  {
    var numEmpty := 0;
    for i := 0 to 3
      invariant numEmpty == CountRows(b, None, i)
    {
      for j := 0 to 3
        invariant numEmpty == CountRows(b, None, i) + CountRow(b[i], None, j)
      {
        if b[i][j] == None {
          numEmpty := numEmpty + 1;
        }
      }
    }
    var w := Winner(b);
    r := w.Some? || numEmpty == 0;
  }

  /** `player(board)`: the sentinel on a finished board, otherwise X when the
      board is empty or both marks are equally many, otherwise O. On a board
      in play the emptiness test is redundant: X moves exactly when X and O
      are equally many. */
  function PlayerOf(b: Board): (r: Turn)
    requires Shaped(b)
    ensures r == FinishedGame <==> TerminalOf(b)
    ensures !TerminalOf(b) ==> (r == Move(X) <==> Count(b, Some(X)) == Count(b, Some(O)))
  {
    CountRowsSum(b, 3);
    if TerminalOf(b) then FinishedGame
    else if Count(b, None) == 9 || Count(b, Some(X)) == Count(b, Some(O)) then Move(X)
    else Move(O)
  }

  /** The counting loop of `player`: empty squares, Xs and Os. */
  method CountSquares(b: Board) returns (numEmpty: nat, numXs: nat, numOs: nat)
    requires Shaped(b)
    ensures numEmpty == Count(b, None) && numXs == Count(b, Some(X)) && numOs == Count(b, Some(O))
  {
    numEmpty, numXs, numOs := 0, 0, 0;
    for i := 0 to 3
      invariant numEmpty == CountRows(b, None, i)
      invariant numXs == CountRows(b, Some(X), i) && numOs == CountRows(b, Some(O), i)
    {
      for j := 0 to 3
        invariant numEmpty == CountRows(b, None, i) + CountRow(b[i], None, j)
        invariant numXs == CountRows(b, Some(X), i) + CountRow(b[i], Some(X), j)
        invariant numOs == CountRows(b, Some(O), i) + CountRow(b[i], Some(O), j)
      {
        if b[i][j] == None {
          numEmpty := numEmpty + 1;
        } else if b[i][j] == Some(X) {
          numXs := numXs + 1;
        } else if b[i][j] == Some(O) {
          numOs := numOs + 1;
        }
      }
    }
  }

  method Player(b: Board) returns (r: Turn)
    requires Shaped(b)
    ensures r == PlayerOf(b)
  {
    var t := Terminal(b);
    if t {
      return FinishedGame;
    }
    var numEmpty, numXs, numOs := CountSquares(b);
    if numEmpty == 9 || numXs == numOs {
      r := Move(X);
    } else {
      r := Move(O);
    }
  }

  /** The empty squares of the board. */
  function EmptySquares(b: Board): (r: set<Action>)
    requires Shaped(b)
    ensures forall a :: a in r <==> 0 <= a.0 < 3 && 0 <= a.1 < 3 && b[a.0][a.1] == None
  {
    set i, j | 0 <= i < 3 && 0 <= j < 3 && b[i][j] == None :: (i, j)
  }

  /** `actions(board)`: the sentinel on a finished board, otherwise the empty
      squares. */
  function ActionsOf(b: Board): (r: Actions)
    requires Shaped(b)
    ensures r.GameFinished? <==> TerminalOf(b)
    ensures r.Available? ==> r.moves != {}
    ensures r.Available? ==> forall a :: a in r.moves <==> 0 <= a.0 < 3 && 0 <= a.1 < 3 && b[a.0][a.1] == None
  {
    if TerminalOf(b) then GameFinished else Available(EmptySquares(b))
  }

  /** `a` is an empty square of the board. */
  predicate Free(b: Board, a: Action) {
    0 <= a.0 < |b| && 0 <= a.1 < |b[a.0]| && b[a.0][a.1] == None
  }

  /** `a` comes before square (row, cell) in row-major order. */
  predicate Scanned(a: Action, row: int, cell: int) {
    a.0 < row || (a.0 == row && a.1 < cell)
  }

  /** The scan of `actions` over the rows and columns of the board. */
  method EmptySquaresLoop(b: Board) returns (listOfActions: set<Action>)
    requires Shaped(b)
    ensures listOfActions == EmptySquares(b)
  {
    listOfActions := {};
    for row := 0 to 3
      invariant forall a :: a in listOfActions <==> Free(b, a) && Scanned(a, row, 0)
    {
      for cell := 0 to 3
        invariant forall a :: a in listOfActions <==> Free(b, a) && Scanned(a, row, cell)
      {
        if b[row][cell] == None {
          listOfActions := listOfActions + {(row, cell)};
        }
      }
    }
  }

  method GetActions(b: Board) returns (r: Actions)
    requires Shaped(b)
    ensures r == ActionsOf(b)
  {
    var t := Terminal(b);
    if t {
      return GameFinished;
    }
    var listOfActions := EmptySquaresLoop(b);
    r := Available(listOfActions);
  }

  /** `result(board, action)`: a finished board makes the membership test
      raise TypeError (the actions are a string there), an action that is
      not legal raises, and otherwise the mover's mark is written into a copy
      of the board. */
  function ResultOf(b: Board, a: Action): (r: Result<Board, PyError>)
    requires Shaped(b)
    ensures TerminalOf(b) ==> r == Err(TypeError)
    ensures !TerminalOf(b) ==> (r.Ok? <==> a in EmptySquares(b))
    ensures r.Err? ==> TerminalOf(b) || r == Err(Exception)
    ensures r.Ok? ==> Shaped(r.value) && r.value[a.0][a.1] == Some(PlayerOf(b).mark)
    ensures r.Ok? ==> forall i, j :: 0 <= i < 3 && 0 <= j < 3 && (i, j) != a ==> r.value[i][j] == b[i][j]
  {
    match ActionsOf(b)
    case GameFinished => Err(TypeError)
    case Available(moves) =>
      if a !in moves then Err(Exception)
      else Ok(b[a.0 := b[a.0][a.1 := Some(PlayerOf(b).mark)]])
  }

  /** A legal move fills exactly one empty square. */
  lemma {:induction false} ResultFillsOne(b: Board, a: Action)
    requires Shaped(b) && ResultOf(b, a).Ok?
    ensures Count(ResultOf(b, a).value, None) == Count(b, None) - 1
  {
    CountRowsFill(b, a, PlayerOf(b).mark, 3);
  }

  /** `utility(board)`: 1 when X has won, -1 when O has, 0 otherwise. */
  function Utility(b: Board): (r: int)
    requires Shaped(b)
    ensures r == 1 <==> WinnerOf(b) == Some(X)
    ensures r == -1 <==> WinnerOf(b) == Some(O)
    ensures r == 0 <==> WinnerOf(b).None?
  {
    match WinnerOf(b)
    case None => 0
    case Some(X) => 1
    case Some(O) => -1
  }

  // ---------------------------------------------------------------- minimax

  /** The nine squares in the order the program scans them. */
  function AllSquares(): (r: seq<Action>)
    ensures forall i, j :: 0 <= i < 3 && 0 <= j < 3 ==> (i, j) in r
    ensures forall a :: a in r ==> 0 <= a.0 < 3 && 0 <= a.1 < 3
  {
    [(0, 0), (0, 1), (0, 2), (1, 0), (1, 1), (1, 2), (2, 0), (2, 1), (2, 2)]
  }

  /** The empty squares among `squares`, in their order. */
  function EmptyAmong(b: Board, squares: seq<Action>): (r: seq<Action>)
    requires Shaped(b)
    requires forall a :: a in squares ==> 0 <= a.0 < 3 && 0 <= a.1 < 3
    ensures forall a :: a in r <==> a in squares && b[a.0][a.1] == None
  {
    if squares == [] then []
    else
      var rest := EmptyAmong(b, squares[1..]);
      if b[squares[0].0][squares[0].1] == None then [squares[0]] + rest else rest
  }

  /** The legal moves in the order the search visits them. */
  function ActionList(b: Board): (r: seq<Action>)
    requires Shaped(b)
    ensures forall a :: a in r <==> a in EmptySquares(b)
  {
    EmptyAmong(b, AllSquares())
  }

  /** A board still in play has a legal move. */
  lemma {:induction false} InPlayHasMove(b: Board)
    requires Shaped(b) && !TerminalOf(b)
    ensures ActionList(b) != []
  {
    var i, j :| 0 <= i < 3 && 0 <= j < 3 && b[i][j] == None;
    assert (i, j) in EmptySquares(b);
  }

  /** The board after the legal move `a`. */
  function Child(b: Board, a: Action): (r: Board)
    requires Shaped(b) && !TerminalOf(b) && a in EmptySquares(b)
    ensures Shaped(r) && Count(r, None) < Count(b, None)
  {
    ResultFillsOne(b, a);
    ResultOf(b, a).value
  }

  predicate Legal(b: Board, acts: seq<Action>)
    requires Shaped(b)
  {
    forall a :: a in acts ==> a in EmptySquares(b)
  }

  /** `getMaxValue`: the utility of a finished board, otherwise the best
      value X can force, starting below every value as the program starts at
      minus infinity. */
  function GetMaxValue(b: Board): (r: int)
    requires Shaped(b)
    ensures -1 <= r <= 1
    decreases Count(b, None), 1
  {
    if TerminalOf(b) then Utility(b)
    else
      InPlayHasMove(b);
      MaxOver(b, ActionList(b), -2)
  }

  /** `getMinValue`: the utility of a finished board, otherwise the best
      value O can force, starting above every value. */
  function GetMinValue(b: Board): (r: int)
    requires Shaped(b)
    ensures -1 <= r <= 1
    decreases Count(b, None), 1
  {
    if TerminalOf(b) then Utility(b)
    else
      InPlayHasMove(b);
      MinOver(b, ActionList(b), 2)
  }

  /** The loop of `getMaxValue` over the moves `acts`, from `value` on. */
  function MaxOver(b: Board, acts: seq<Action>, value: int): (r: int)
    requires Shaped(b) && !TerminalOf(b) && Legal(b, acts)
    requires -2 <= value <= 1
    ensures value <= r <= 1
    ensures acts != [] ==> -1 <= r
    decreases Count(b, None), 0, |acts|
  {
    if acts == [] then value
    else
      var v := GetMinValue(Child(b, acts[0]));
      MaxOver(b, acts[1..], if v > value then v else value)
  }

  /** The loop of `getMinValue` over the moves `acts`, from `value` on. */
  function MinOver(b: Board, acts: seq<Action>, value: int): (r: int)
    requires Shaped(b) && !TerminalOf(b) && Legal(b, acts)
    requires -1 <= value <= 2
    ensures -1 <= r <= value
    ensures acts != [] ==> r <= 1
    decreases Count(b, None), 0, |acts|
  {
    if acts == [] then value
    else
      var v := GetMaxValue(Child(b, acts[0]));
      MinOver(b, acts[1..], if v < value then v else value)
  }

  /** The loop of `getMaxValue` computes a maximum: no move does better, and
      the result is the starting value or the value of some move. */
  lemma {:induction false} MaxOverIsMax(b: Board, acts: seq<Action>, value: int)
    requires Shaped(b) && !TerminalOf(b) && Legal(b, acts) && -2 <= value <= 1
    ensures forall a :: a in acts ==> GetMinValue(Child(b, a)) <= MaxOver(b, acts, value)
    ensures MaxOver(b, acts, value) == value ||
            exists a :: a in acts && GetMinValue(Child(b, a)) == MaxOver(b, acts, value)
    decreases |acts|
  {
    if acts != [] {
      var v := GetMinValue(Child(b, acts[0]));
      MaxOverIsMax(b, acts[1..], if v > value then v else value);
      assert forall a :: a in acts ==> a == acts[0] || a in acts[1..];
    }
  }

  /** The loop of `getMinValue` computes a minimum. */
  lemma {:induction false} MinOverIsMin(b: Board, acts: seq<Action>, value: int)
    requires Shaped(b) && !TerminalOf(b) && Legal(b, acts) && -1 <= value <= 2
    ensures forall a :: a in acts ==> MinOver(b, acts, value) <= GetMaxValue(Child(b, a))
    ensures MinOver(b, acts, value) == value ||
            exists a :: a in acts && GetMaxValue(Child(b, a)) == MinOver(b, acts, value)
    decreases |acts|
  {
    if acts != [] {
      var v := GetMaxValue(Child(b, acts[0]));
      MinOverIsMin(b, acts[1..], if v < value then v else value);
      assert forall a :: a in acts ==> a == acts[0] || a in acts[1..];
    }
  }

  /** The X branch of `minimax`: scans `acts`, keeping the first move whose
      value beats the best so far. */
  function ArgMax(b: Board, acts: seq<Action>, value: int, best: Option<Action>): (r: (int, Option<Action>))
    requires Shaped(b) && !TerminalOf(b) && Legal(b, acts)
    requires best.None? ==> value == -2
    requires best.Some? ==> best.value in EmptySquares(b) && GetMinValue(Child(b, best.value)) == value
    ensures r.0 == MaxOver(b, acts, value)
    ensures r.1.Some? ==> r.1.value in EmptySquares(b) && GetMinValue(Child(b, r.1.value)) == r.0
    ensures acts != [] ==> r.1.Some?
    decreases |acts|
  {
    if acts == [] then (value, best)
    else
      var v := GetMinValue(Child(b, acts[0]));
      if v > value then ArgMax(b, acts[1..], v, Some(acts[0]))
      else ArgMax(b, acts[1..], value, best)
  }

  /** The O branch of `minimax`. */
  function ArgMin(b: Board, acts: seq<Action>, value: int, best: Option<Action>): (r: (int, Option<Action>))
    requires Shaped(b) && !TerminalOf(b) && Legal(b, acts)
    requires best.None? ==> value == 2
    requires best.Some? ==> best.value in EmptySquares(b) && GetMaxValue(Child(b, best.value)) == value
    ensures r.0 == MinOver(b, acts, value)
    ensures r.1.Some? ==> r.1.value in EmptySquares(b) && GetMaxValue(Child(b, r.1.value)) == r.0
    ensures acts != [] ==> r.1.Some?
    decreases |acts|
  {
    if acts == [] then (value, best)
    else
      var v := GetMaxValue(Child(b, acts[0]));
      if v < value then ArgMin(b, acts[1..], v, Some(acts[0]))
      else ArgMin(b, acts[1..], value, best)
  }

  /** `minimax(board)` on a board still in play: a legal move that is best
      for the player to move, judged by the opponent's best reply. */
  function Minimax(b: Board): (r: Action)
    requires Shaped(b) && !TerminalOf(b)
    ensures r in EmptySquares(b)
    ensures PlayerOf(b) == Move(X) ==>
      GetMinValue(Child(b, r)) == GetMaxValue(b) &&
      forall a :: a in EmptySquares(b) ==> GetMinValue(Child(b, a)) <= GetMinValue(Child(b, r))
    ensures PlayerOf(b) == Move(O) ==>
      GetMaxValue(Child(b, r)) == GetMinValue(b) &&
      forall a :: a in EmptySquares(b) ==> GetMaxValue(Child(b, r)) <= GetMaxValue(Child(b, a))
  {
    InPlayHasMove(b);
    var acts := ActionList(b);
    if PlayerOf(b) == Move(X) then
      MaxOverIsMax(b, acts, -2);
      ArgMax(b, acts, -2, None).1.value
    else
      MinOverIsMin(b, acts, 2);
      ArgMin(b, acts, 2, None).1.value
  }
}
