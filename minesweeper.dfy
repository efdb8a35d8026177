/** The Minesweeper board, the propositional sentences the AI player keeps
    about it, and the parts of the AI's knowledge base that update those
    sentences. A cell is a (row, column) pair. */
module Minesweeper {
  import opened Wrappers

  type Cell = (int, int)

  /** The nine cells of the 3x3 block centred on `cell`, the cell included. */
  function Block(cell: Cell): (r: set<Cell>)
    ensures cell in r && |r| <= 9
  {
    var (i, j) := cell;
    {(i - 1, j - 1), (i - 1, j), (i - 1, j + 1),
     (i, j - 1), (i, j), (i, j + 1),
     (i + 1, j - 1), (i + 1, j), (i + 1, j + 1)}
  }

  /** `c` is on a height x width board, within one row and one column of
      `cell`, and is not `cell` itself. */
  predicate Around(cell: Cell, height: int, width: int, c: Cell) {
    0 <= c.0 < height && 0 <= c.1 < width &&
    cell.0 - 1 <= c.0 <= cell.0 + 1 && cell.1 - 1 <= c.1 <= cell.1 + 1 &&
    c != cell
  }

  /** The in-bounds neighbours of `cell`. */
  function Neighbourhood(cell: Cell, height: int, width: int): (r: set<Cell>)
    ensures forall c :: c in r <==> Around(cell, height, width, c)
  {
    set c | c in Block(cell) && Around(cell, height, width, c)
  }

  lemma SubsetCard<T>(a: set<T>, b: set<T>)
    requires a <= b
    ensures |a| <= |b|
    decreases b
  {
    if a != {} {
      var x :| x in a;
      SubsetCard(a - {x}, b - {x});
    }
  }

  /** A cell has at most eight neighbours. */
  lemma {:induction false} NeighbourhoodAtMostEight(cell: Cell, height: int, width: int)
    ensures |Neighbourhood(cell, height, width)| <= 8
  {
    SubsetCard(Neighbourhood(cell, height, width), Block(cell) - {cell});
  }

  /** A sentence `cells = count` is true of the mine set `mines` when
      exactly `count` of its cells are mines. */
  predicate Holds(cells: set<Cell>, count: int, mines: set<Cell>) {
    |cells * mines| == count
  }

  lemma SubsetSameCard<T>(a: set<T>, b: set<T>)
    requires a <= b && |a| == |b|
    ensures a == b
    decreases b
  {
    if a != {} {
      var x :| x in a;
      SubsetSameCard(a - {x}, b - {x});
      assert a == (a - {x}) + {x} && b == (b - {x}) + {x};
    }
  }

  /** An `add_knowledge` sentence is true: the clue counts the mines around
      `cell`, and the cells left out of the sentence are known not to be
      mines. */
  lemma {:induction false} ClueHolds(cell: Cell, height: int, width: int, known: set<Cell>,
                                     mines: set<Cell>, count: int)
    requires count == |Neighbourhood(cell, height, width) * mines|
    requires known * mines == {}
    ensures Holds(Neighbourhood(cell, height, width) - known, count, mines)
  {
    var n := Neighbourhood(cell, height, width);
    assert (n - known) * mines == n * mines by {
      forall c | c in n * mines ensures c in (n - known) * mines {
        assert c !in known by { assert c !in known * mines; }
      }
    }
  }

  /** One logical statement: exactly `count` of `cells` are mines. */
  class Sentence {
    var cells: set<Cell>
    var count: int

    constructor (cells: set<Cell>, count: int)
      ensures this.cells == cells && this.count == count
    {
      this.cells := cells;
      this.count := count;
    }

    /** Python's `__eq__`: two sentences are equal when their cells and
        counts are. */
    function Equals(other: Sentence): (r: bool)
      reads this, other
      ensures other == this ==> r
      ensures r ==> KnownMines() == other.KnownMines() && KnownSafes() == other.KnownSafes()
    {
      cells == other.cells && count == other.count
    }

    /** The cells known to be mines: all of them when there are as many
        cells as mines, otherwise none. */
    function KnownMines(): (r: set<Cell>)
      reads this
      ensures |cells| == count ==> r == cells
      ensures |cells| != count ==> r == {}
    {
      if |cells| == count then cells else {}
    }

    /** The cells known to be safe: all of them when the count is zero,
        otherwise none. */
    function KnownSafes(): (r: set<Cell>)
      reads this
      ensures count == 0 ==> r == cells
      ensures count != 0 ==> r == {}
    {
      if count == 0 then cells else {}
    }

    /** Learning that `cell` is a mine removes it and lowers the count. */
    method MarkMine(cell: Cell)
      modifies this
      ensures cell in old(cells) ==> cells == old(cells) - {cell} && count == old(count) - 1
      ensures cell !in old(cells) ==> cells == old(cells) && count == old(count)
    {
      if cell in cells {
        cells := cells - {cell};
        count := count - 1;
      }
    }

    /** Learning that `cell` is safe removes it and keeps the count. */
    method MarkSafe(cell: Cell)
      modifies this
      ensures cells == old(cells) - {cell} && count == old(count)
    {
      if cell in cells {
        cells := cells - {cell};
      }
    }
  }

  /** What `known_mines` reports of a true sentence are mines. */
  lemma {:induction false} KnownMinesSound(s: Sentence, mines: set<Cell>)
    requires Holds(s.cells, s.count, mines)
    ensures s.KnownMines() <= mines
  {
    if |s.cells| == s.count {
      SubsetSameCard(s.cells * mines, s.cells);
    }
  }

  /** What `known_safes` reports of a true sentence are not mines. */
  lemma KnownSafesSound(s: Sentence, mines: set<Cell>)
    requires Holds(s.cells, s.count, mines)
    ensures s.KnownSafes() * mines == {}
  {
  }

  /** Marking a real mine keeps a true sentence true. */
  lemma {:induction false} MarkMineKeepsTruth(cells: set<Cell>, count: int, cell: Cell, mines: set<Cell>)
    requires Holds(cells, count, mines) && cell in mines
    ensures cell in cells ==> Holds(cells - {cell}, count - 1, mines)
    ensures cell !in cells ==> Holds(cells, count, mines)
  {
    if cell in cells {
      assert (cells - {cell}) * mines == cells * mines - {cell};
    }
  }

  /** Marking a really safe cell keeps a true sentence true. */
  lemma {:induction false} MarkSafeKeepsTruth(cells: set<Cell>, count: int, cell: Cell, mines: set<Cell>)
    requires Holds(cells, count, mines) && cell !in mines
    ensures Holds(cells - {cell}, count, mines)
  {
    assert (cells - {cell}) * mines == cells * mines;
  }

  /** The game board: `board[i][j]` says whether (i, j) holds a mine, and
      `minesFound` is the set of cells the player has flagged. Mine placement
      is random in the program; here the mine set is given. */
  class Minesweeper {
    const height: nat
    const width: nat
    const mines: set<Cell>
    const board: seq<seq<bool>>
    var minesFound: set<Cell>

    /** The board is height x width and marks exactly the cells of `mines`. */
    ghost predicate Valid()
      reads this
    {
      |board| == height &&
      (forall i :: 0 <= i < height ==> |board[i]| == width) &&
      (forall m :: m in mines ==> 0 <= m.0 < height && 0 <= m.1 < width) &&
      (forall i, j :: 0 <= i < height && 0 <= j < width ==> (board[i][j] <==> (i, j) in mines))
    }

    constructor (height: nat, width: nat, mines: set<Cell>)
      requires forall m :: m in mines ==> 0 <= m.0 < height && 0 <= m.1 < width
      ensures Valid()
      ensures this.height == height && this.width == width && this.mines == mines
      ensures minesFound == {}
    {
      this.height := height;
      this.width := width;
      this.mines := mines;
      this.board := seq(height, i => seq(width, j => (i, j) in mines));
      this.minesFound := {};
    }

    /** `board[i][j]` with Python's indexing: a negative index counts from
        the end, one out of range raises IndexError. */
    function IsMine(cell: Cell): (r: Result<bool, PyError>)
      reads this
      requires Valid()
      ensures 0 <= cell.0 < height && 0 <= cell.1 < width ==> r == Ok(cell in mines)
      ensures r.Err? <==> !(-(height as int) <= cell.0 < height && -(width as int) <= cell.1 < width)
      ensures r.Ok? ==> r.value == ((if cell.0 < 0 then cell.0 + height else cell.0,
                                     if cell.1 < 0 then cell.1 + width else cell.1) in mines)
    {
      match PyIndex(cell.0, |board|)
      case None => Err(IndexError)
      case Some(i) =>
        match PyIndex(cell.1, |board[i]|)
        case None => Err(IndexError)
        case Some(j) => Ok(board[i][j])
    }

    /** The number of mines among the in-bounds neighbours of `cell`. */
    method NearbyMines(cell: Cell) returns (count: nat)
      requires Valid()
      ensures count == |Neighbourhood(cell, height, width) * mines|
      ensures count <= 8
    {
      count := 0;
      ghost var found: set<Cell> := {};
      for i := cell.0 - 1 to cell.0 + 2
        invariant count == |found|
        invariant forall c :: c in found <==> c in mines && Around(cell, height, width, c) && c.0 < i
      {
        for j := cell.1 - 1 to cell.1 + 2
          invariant count == |found|
          invariant forall c :: c in found <==>
            c in mines && Around(cell, height, width, c) && (c.0 < i || (c.0 == i && c.1 < j))
        {
          if (i, j) == cell {
            continue;
          }
          if 0 <= i < height && 0 <= j < width {
            if board[i][j] {
              found := found + {(i, j)};
              count := count + 1;
            }
          }
        }
      }
      assert found == Neighbourhood(cell, height, width) * mines;
      NeighbourhoodAtMostEight(cell, height, width);
      SubsetCard(found, Neighbourhood(cell, height, width));
    }

    /** The game is won when the flagged cells are exactly the mines. */
    function Won(): (r: bool)
      reads this
      ensures r <==> minesFound <= mines && mines <= minesFound
    {
      minesFound == mines
    }
  }

  /** The AI player's knowledge: cells moved on, cells known to be mines or
      safe, and the list of sentences it believes. */
  class MinesweeperAI {
    const height: nat
    const width: nat
    var movesMade: set<Cell>
    var mines: set<Cell>
    var safes: set<Cell>
    var knowledge: seq<Sentence>

    /** The sentence objects of the knowledge list. */
    ghost function Sentences(): set<Sentence>
      reads this
    {
      set s | s in knowledge
    }

    constructor (height: nat, width: nat)
      ensures this.height == height && this.width == width
      ensures movesMade == {} && mines == {} && safes == {} && knowledge == []
    {
      this.height := height;
      this.width := width;
      movesMade := {};
      mines := {};
      safes := {};
      knowledge := [];
    }

    /** Records `cell` as a mine and marks it in every sentence. */
    method MarkMine(cell: Cell)
      modifies this, Sentences()
      ensures mines == old(mines) + {cell}
      ensures safes == old(safes) && movesMade == old(movesMade) && knowledge == old(knowledge)
      ensures forall s :: s in knowledge ==>
        s.cells == old(s.cells) - {cell} &&
        s.count == (if cell in old(s.cells) then old(s.count) - 1 else old(s.count))
      ensures forall s :: s in knowledge ==> cell !in s.cells
    {
      mines := mines + {cell};
      for n := 0 to |knowledge|
        invariant mines == old(mines) + {cell}
        invariant safes == old(safes) && movesMade == old(movesMade) && knowledge == old(knowledge)
        invariant forall s :: s in knowledge[..n] ==>
          s.cells == old(s.cells) - {cell} &&
          s.count == (if cell in old(s.cells) then old(s.count) - 1 else old(s.count))
        invariant forall s :: s in knowledge && s !in knowledge[..n] ==>
          s.cells == old(s.cells) && s.count == old(s.count)
      {
        knowledge[n].MarkMine(cell);
        assert knowledge[..n + 1] == knowledge[..n] + [knowledge[n]];
      }
      assert knowledge[..|knowledge|] == knowledge;
    }

    /** Records `cell` as safe and marks it in every sentence. */
    method MarkSafe(cell: Cell)
      modifies this, Sentences()
      ensures safes == old(safes) + {cell}
      ensures mines == old(mines) && movesMade == old(movesMade) && knowledge == old(knowledge)
      ensures forall s :: s in knowledge ==>
        s.cells == old(s.cells) - {cell} && s.count == old(s.count)
      ensures forall s :: s in knowledge ==> cell !in s.cells
    {
      safes := safes + {cell};
      for n := 0 to |knowledge|
        invariant safes == old(safes) + {cell}
        invariant mines == old(mines) && movesMade == old(movesMade) && knowledge == old(knowledge)
        invariant forall s :: s in knowledge[..n] ==>
          s.cells == old(s.cells) - {cell} && s.count == old(s.count)
        invariant forall s :: s in knowledge && s !in knowledge[..n] ==>
          s.cells == old(s.cells) && s.count == old(s.count)
      {
        knowledge[n].MarkSafe(cell);
        assert knowledge[..n + 1] == knowledge[..n] + [knowledge[n]];
      }
      assert knowledge[..|knowledge|] == knowledge;
    }

    /** The in-bounds neighbours of `cell`, collected by scanning the
        clamped 3x3 block. */
    method SurroundingCells(cell: Cell) returns (cells: set<Cell>)
      ensures cells == Neighbourhood(cell, height, width)
      ensures |cells| <= 8
    {
      cells := {};
      var lo := if 0 < cell.0 - 1 then cell.0 - 1 else 0;
      var hi := if height < cell.0 + 2 then height else cell.0 + 2;
      var i := lo;
      while i < hi
        invariant forall c :: c in cells <==> Around(cell, height, width, c) && c.0 < i
      {
        var jlo := if 0 < cell.1 - 1 then cell.1 - 1 else 0;
        var jhi := if width < cell.1 + 2 then width else cell.1 + 2;
        var j := jlo;
        while j < jhi
          invariant forall c :: c in cells <==>
            Around(cell, height, width, c) && (c.0 < i || (c.0 == i && c.1 < j))
        {
          if (i, j) != cell {
            cells := cells + {(i, j)};
          }
          j := j + 1;
        }
        i := i + 1;
      }
      NeighbourhoodAtMostEight(cell, height, width);
    }

    /** The steps of `add_knowledge` before inference: `cell` is a move made
        and safe, and the sentence "`count` of the unknown neighbours of
        `cell` are mines" joins the knowledge. */
    method AddKnowledge(cell: Cell, count: int)
      modifies this, Sentences()
      ensures movesMade == old(movesMade) + {cell} && safes == old(safes) + {cell}
      ensures mines == old(mines)
      ensures |knowledge| == |old(knowledge)| + 1 && knowledge[..|old(knowledge)|] == old(knowledge)
      ensures fresh(knowledge[|old(knowledge)|])
      ensures knowledge[|old(knowledge)|].cells == Neighbourhood(cell, height, width) - safes - movesMade
      ensures knowledge[|old(knowledge)|].count == count
      ensures forall s :: s in old(knowledge) ==>
        s.cells == old(s.cells) - {cell} && s.count == old(s.count)
    {
      movesMade := movesMade + {cell};
      MarkSafe(cell);
      var around := SurroundingCells(cell);
      var s := new Sentence(around - safes - movesMade, count);
      knowledge := knowledge + [s];
    }

    /** A cell known to be safe that has not been moved on, if any; the
        knowledge is left as it is. */
    method MakeSafeMove() returns (m: Option<Cell>)
      ensures m.Some? ==> m.value in safes && m.value !in movesMade
      ensures m.None? <==> safes <= movesMade
    {
      var remaining := safes;
      while remaining != {}
        invariant remaining <= safes
        invariant forall c :: c in safes && c !in remaining ==> c in movesMade
        decreases |remaining|
      {
        var c :| c in remaining;
        if c !in movesMade {
          return Some(c);
        }
        remaining := remaining - {c};
      }
      return None;
    }
  }
}
