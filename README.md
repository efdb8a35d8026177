# CS50 AI projects: a verified model of the search and inference cores

This project models, in Dafny, the algorithmic cores of five CS50 AI
assignments and proves properties of them.

- **Crossword generation** (`generate.py`, modules `CrosswordGrid` and
  `Generate`). A crossword is a constraint satisfaction problem. Its
  variables are slots of the grid; its unary constraint is word length;
  its binary constraints are agreement at overlapping cells and distinct
  words. `CrosswordCreator` keeps a domain map from slots to candidate
  words. The operations are node consistency, `revise`, AC-3, the
  consistency test, the minimum-remaining-values / degree variable
  choice, backtracking, and the letter grid of an assignment.
- **Minesweeper** (`minesweeper.py`, module `Minesweeper`):
  - the game board: mine test, neighbouring-mine count, win test;
  - the knowledge-base `Sentence` (a set of cells and a mine count);
  - the AI's bookkeeping of known mines, safe cells and moves made.
- **Tic-tac-toe** (`tictactoe.py`, module `TicTacToe`): the board, the
  player to move, available actions, move result, winner, terminal test,
  utility and minimax.
- **Degrees of separation** (`degrees.py`, module `Degrees`): co-star
  neighbours from a people/movies database, and the breadth-first search
  that returns a path of (movie, person) pairs.
- **Parser** (`parser.py`, module `Parser`): noun-phrase chunk extraction
  from a parse tree.

`Wrappers` holds `Option`, `Result` and `PyError`. `PyError` stands for the
Python exceptions the code can raise on reachable inputs. Where the Python
raises, the model returns `Err(...)` instead of requiring the input away.
Examples: `len(None)` inside `consistent`, `.label()` on a leaf in
`np_chunk`, a missing key in `neighbors_for_person`, `action in "GAME
FINISHED"` in `result`.

Modelling choices:

- The `crossword.py` structure (slots, overlaps, word set) is an input
  datatype, `CrosswordGrid.Crossword`. Its `Valid()` predicate holds the
  invariants that its construction establishes. `Geometric()` is the cell
  meaning of the overlap table. `crossword.py` is not part of this model.
- Iteration over a Python set is a nondeterministic choice (`:|`) in
  methods. When a result depends on iteration order, a fixed sequence
  stands for the set's order:
  - `Crossword.variables` in `SelectUnassignedVariable`;
  - row-major board order in `Minimax`.
- The `assignment` dict that `backtrack` mutates and shares across
  recursive calls is a value `Generate.Assignment`. It holds the key
  insertion order and a map to `Option<Word>`, and `Backtrack` takes it in
  and hands it back.
  - After a failed subtree, the source writes `assignment[var] = None`
    (generate.py:283) and never removes the key. A later `consistent` call
    on that dict raises `TypeError` (`len(None)`), unless it has already
    returned False at an earlier row. The model keeps this behaviour.
- `select_unassigned_variable` starts from the sentinel `[]` with
  `math.inf`. The model uses `Option<Variable>`. `None` is returned
  exactly when the source would return the sentinel, which happens when
  every slot is assigned.
- `solve` ignores the result of `ac3` (generate.py:95). So does `Solve`.
- In `shortest_path`, the test `neighbor not in exploredNodes`
  (degrees.py:108) compares a (movie, person) tuple with a set of `Node`
  objects, so it is always true. The model leaves the explored set out.
  `frontier.remove()` on an empty frontier raises; that is
  `Raised(Exception)`.
- `shortest_path` never returns None, despite its docstring. When the
  target is unreachable, the search raises once the frontier runs empty.
  Otherwise it runs forever, because people already removed from the
  frontier can be queued again. The model bounds the number of removals
  by a `fuel` parameter, and running out gives `OutOfFuel`.
- `ac3` returns True whenever no revision empties a domain. A domain that
  was already empty, for a slot that crosses no other slot, is never
  revised, so True does not by itself mean every domain is non-empty. The
  model's contract states what the code guarantees.
- In `result`, a finished board makes `actions` return the string
  `"GAME FINISHED"`. The membership test `action not in` that string then
  raises `TypeError`, which the model returns as `Err(TypeError)`. An
  illegal move on a live board raises `Exception`.
- Mine placement in `Minesweeper.__init__` is random. The model takes the
  mine set as a constructor parameter.

## Model

| member | source | states |
|---|---|---|
| Generate.CrosswordCreator.constructor | Week3_Optimization/crossword/generate.py:10-18 | every slot's domain starts as the full word set |
| Generate.CrosswordCreator.RemoveValues | Week3_Optimization/crossword/generate.py:111-112 | removes exactly the given words from one domain; all other domains unchanged |
| Generate.CrosswordCreator.EnforceNodeConsistency | Week3_Optimization/crossword/generate.py:98-112 | each new domain is exactly the old words whose length is the slot length; the key set is unchanged |
| Generate.NodeConsistencyKeepsSolutions | Week3_Optimization/crossword/generate.py:98-112 | filtering by length loses no solution |
| Generate.FindPartner | Week3_Optimization/crossword/generate.py:131-136 | the inner loop finds a partner iff some y word differs from x and agrees at the overlap |
| Generate.CrosswordCreator.Revise | Week3_Optimization/crossword/generate.py:114-146 | x's new domain is exactly the old values with a supporting y value; nothing else changes; no overlap means no revision; the result is true iff x's domain changed |
| Generate.SolutionSupports | Week3_Optimization/crossword/generate.py:134 | in a solution, two crossing slots hold different words that agree at the overlap |
| Generate.ReviseKeepsSolution | Week3_Optimization/crossword/generate.py:127-144 | a solution inside the old domains stays inside the revised ones |
| Generate.ReviseKeepsSolutions | Week3_Optimization/crossword/generate.py:114-146 | revise loses no solution |
| Generate.UnrevisedSame | Week3_Optimization/crossword/generate.py:138-146 | if x's domain did not change, no domain changed |
| Generate.FootprintShrinks | Week3_Optimization/crossword/generate.py:166-175 | a revision that shrinks a domain strictly shrinks the set of (slot, word) pairs, which bounds the AC-3 loop |
| Generate.CrosswordCreator.InitialArcs | Week3_Optimization/crossword/generate.py:157-162 | the initial queue is exactly the ordered pairs of crossing slots |
| Generate.CrosswordCreator.EnqueueNeighbors | Week3_Optimization/crossword/generate.py:174-175 | adds (z, x) for every neighbour z of x, nothing else, and keeps the queue |
| Generate.NeighborArcsPending | Week3_Optimization/crossword/generate.py:174-175 | after re-queueing, every crossing arc into x is pending |
| Generate.ArcOkAfterRevise | Week3_Optimization/crossword/generate.py:170-175 | an arc that was consistent stays consistent after revising (x, y), unless it points into a changed x |
| Generate.ArcsAfterRevise | Week3_Optimization/crossword/generate.py:166-175 | the AC-3 loop invariant survives one step: every arc not in the queue is consistent |
| Generate.CrosswordCreator.ReviseArc | Week3_Optimization/crossword/generate.py:167-175 | one loop step shrinks the domains and loses no solution; it reports an emptied domain, or makes progress and keeps the invariant; on arc-consistent domains it only drops the arc from the queue |
| Generate.ReviseArcConsistent | Week3_Optimization/crossword/generate.py:114-146 | revising an arc that is already consistent removes nothing |
| Generate.CrosswordCreator.AC3 | Week3_Optimization/crossword/generate.py:148-176 | domains only shrink and no solution is lost; False means some domain is empty; True from the full arc set means every domain is arc consistent; on domains that are already arc consistent it returns True and changes nothing |
| Generate.AssignmentComplete | Week3_Optimization/crossword/generate.py:178-189 | true iff every slot is a key of the assignment |
| Generate.CheckPair | Week3_Optimization/crossword/generate.py:201-213 | the same slot passes; TypeError only when the partner's value is None; IndexError only when the partner's word is shorter than its slot; no other error |
| Generate.CheckPartners | Week3_Optimization/crossword/generate.py:201-213 | the inner loop over partners errs only with TypeError from a None partner or IndexError from a partner word of the wrong length |
| Generate.CheckFrom | Week3_Optimization/crossword/generate.py:196-215 | the outer loop errs only with TypeError, which needs a None value, or IndexError, which needs a word of the wrong length |
| Generate.Consistent | Week3_Optimization/crossword/generate.py:191-215 | `consistent` raises only TypeError, when some value is None, or IndexError, when some word does not fit its slot |
| Generate.CheckPairMeaning | Week3_Optimization/crossword/generate.py:201-213 | the inner check of one pair returns True iff the slots are the same or hold different words agreeing at their overlap |
| Generate.CheckPartnersMeaning | Week3_Optimization/crossword/generate.py:201-213 | the inner loop returns True iff every pair from x passes |
| Generate.CheckFromMeaning | Week3_Optimization/crossword/generate.py:196-215 | the outer loop returns True iff every row has the right length and passes all pairs |
| Generate.PartnersOkCons | Week3_Optimization/crossword/generate.py:201-213 | the all-pairs condition splits into head and tail |
| Generate.RowsOkIsConsistent | Week3_Optimization/crossword/generate.py:196-215 | passing every row means all values are words and the words are consistent |
| Generate.RowsOkAgree | Week3_Optimization/crossword/generate.py:207-213 | passing every row means crossing slots agree at their overlap |
| Generate.RowsOkDistinct | Week3_Optimization/crossword/generate.py:202-205 | passing every row means no two slots hold the same word |
| Generate.ConsistentPairOk | Week3_Optimization/crossword/generate.py:201-213 | a consistent assignment passes each pair test |
| Generate.ConsistentIsRowsOk | Week3_Optimization/crossword/generate.py:196-215 | a consistent word assignment passes every row |
| Generate.ConsistentMeaning | Week3_Optimization/crossword/generate.py:191-215 | `consistent` returns True iff every value is a word and the words have the right lengths, are distinct and agree at every overlap; a None value makes it raise or return False, never True |
| Generate.SelectFromChosen | Week3_Optimization/crossword/generate.py:238-251 | the scan invariant: the candidate has minimal domain size among unassigned slots seen so far, with the degree tie-break |
| Generate.ChosenStep | Week3_Optimization/crossword/generate.py:240-251 | one loop step keeps the scan invariant |
| Generate.SelectUnassignedVariable | Week3_Optimization/crossword/generate.py:227-253 | returns None iff every slot is assigned; otherwise an unassigned slot of minimal domain size, no unassigned slot of equal size has more neighbours, and every earlier tie has strictly fewer |
| Generate.Assignment.Set | Week3_Optimization/crossword/generate.py:271 | `assignment[var] = value`: the map gets the new value; a new key goes to the end of the key order |
| Generate.SetSound | Week3_Optimization/crossword/generate.py:270-271 | assigning a domain value keeps every assigned value inside its slot's domain |
| Generate.UnassignedShrinks | Week3_Optimization/crossword/generate.py:267-277 | the recursive call has strictly fewer unassigned slots |
| Generate.SolvedIsSolution | Week3_Optimization/crossword/generate.py:264-277 | a complete assignment that passed `consistent` and is drawn from word-list domains is a solution |
| Generate.CrosswordCreator.Backtrack | Week3_Optimization/crossword/generate.py:255-284 | keeps values inside the domains and never drops a key; a success is complete and either the input or an assignment `consistent` accepted |
| Generate.CrosswordCreator.Solve | Week3_Optimization/crossword/generate.py:90-96 | domains end node consistent and lose no solution; a success is a solution using only words of the word list |
| Generate.EmptyGrid | Week3_Optimization/crossword/generate.py:24-27 | a height by width grid of None |
| Generate.CellFormula | Week3_Optimization/crossword/generate.py:29-32 | letter k of a slot sits at (i + k, j) when Down and at (i, j + k) when Across |
| Generate.WriteCellInGrid | Week3_Optimization/crossword/generate.py:33 | writing an in-grid cell succeeds, sets that cell and changes no other |
| Generate.PaintFromInGrid | Week3_Optimization/crossword/generate.py:30-33 | painting a slot that lies in the grid writes each of its letters and nothing else |
| Generate.PaintWord | Week3_Optimization/crossword/generate.py:30-33 | the loop over k paints one word with Python list indexing, so a negative index wraps and one outside the list raises IndexError |
| Generate.SharedCellAgrees | Week3_Optimization/crossword/generate.py:28-33 | in a consistent geometric assignment, two slots covering the same cell put the same letter there |
| Generate.FitsAgree | Week3_Optimization/crossword/generate.py:28-33 | such an assignment never writes two letters to one cell |
| Generate.FitsInGrid | Week3_Optimization/crossword/generate.py:28-33 | such an assignment writes only cells inside the grid |
| Generate.ShowsStep | Week3_Optimization/crossword/generate.py:28-33 | painting one more slot keeps earlier slots' letters visible |
| Generate.PaintAllShows | Week3_Optimization/crossword/generate.py:28-33 | painting all remaining slots succeeds and shows every painted letter |
| Generate.LetterGridShows | Week3_Optimization/crossword/generate.py:20-34 | for a consistent geometric assignment, the grid shows each slot's letter at each of its cells and None elsewhere |
| Generate.CrosswordCreator.LetterGrid | Week3_Optimization/crossword/generate.py:20-34 | the nested loops build the grid that painting every slot in key order gives |
| Minesweeper.Minesweeper.constructor | Week1/minesweeper/minesweeper.py:10-34 | the board has the given size and mines, and no mine has been found |
| Minesweeper.Minesweeper.IsMine | Week1/minesweeper/minesweeper.py:51-53 | in bounds, the result is whether the cell is a mine; negative indices wrap as in Python; outside that range it raises IndexError |
| Minesweeper.Neighbourhood | Week1/minesweeper/minesweeper.py:62-78 | the in-bounds cells within one row and column of the cell, other than the cell itself |
| Minesweeper.NeighbourhoodAtMostEight | Week1/minesweeper/minesweeper.py:62-78 | a cell has at most eight neighbours |
| Minesweeper.Minesweeper.NearbyMines | Week1/minesweeper/minesweeper.py:55-78 | the count is the number of mines among the neighbours, at most eight |
| Minesweeper.Minesweeper.Won | Week1/minesweeper/minesweeper.py:80-84 | true iff the flagged cells are exactly the mines |
| Minesweeper.Sentence.constructor | Week1/minesweeper/minesweeper.py:94-96 | stores the cells and the count |
| Minesweeper.Sentence.Equals | Week1/minesweeper/minesweeper.py:98-99 | a sentence equals itself, and equal sentences infer the same known mines and safes |
| Minesweeper.Sentence.KnownMines | Week1/minesweeper/minesweeper.py:104-111 | all cells when their number equals the count, else none |
| Minesweeper.KnownMinesSound | Week1/minesweeper/minesweeper.py:104-111 | a true sentence's known mines are mines |
| Minesweeper.Sentence.KnownSafes | Week1/minesweeper/minesweeper.py:113-120 | all cells when the count is zero, else none |
| Minesweeper.KnownSafesSound | Week1/minesweeper/minesweeper.py:113-120 | a true sentence's known safes are not mines |
| Minesweeper.Sentence.MarkMine | Week1/minesweeper/minesweeper.py:122-129 | a member cell leaves the set and the count drops by one; otherwise nothing changes |
| Minesweeper.MarkMineKeepsTruth | Week1/minesweeper/minesweeper.py:122-129 | marking a real mine keeps a true sentence true |
| Minesweeper.Sentence.MarkSafe | Week1/minesweeper/minesweeper.py:131-137 | the cell leaves the set and the count is kept |
| Minesweeper.MarkSafeKeepsTruth | Week1/minesweeper/minesweeper.py:131-137 | marking a real safe cell keeps a true sentence true |
| Minesweeper.MinesweeperAI.constructor | Week1/minesweeper/minesweeper.py:145-159 | no moves, mines, safes or sentences known |
| Minesweeper.MinesweeperAI.MarkMine | Week1/minesweeper/minesweeper.py:161-168 | the cell joins the known mines and every sentence marks it, so no sentence still holds it |
| Minesweeper.MinesweeperAI.MarkSafe | Week1/minesweeper/minesweeper.py:170-177 | the cell joins the known safes and every sentence drops it with its count kept |
| Minesweeper.MinesweeperAI.SurroundingCells | Week1/minesweeper/minesweeper.py:241-261 | the cell's neighbourhood inside the board, at most eight cells |
| Minesweeper.ClueHolds | Week1/minesweeper/minesweeper.py:194-201 | a revealed count makes the new sentence true, since the known safe cells removed from it hold no mine |
| Minesweeper.MinesweeperAI.AddKnowledge | Week1/minesweeper/minesweeper.py:179-201 | records the move and the safe cell, drops the cell from every sentence, and appends a new sentence with the unknown neighbours and the count |
| Minesweeper.MinesweeperAI.MakeSafeMove | Week1/minesweeper/minesweeper.py:263-277 | returns a known safe cell not yet played, and None exactly when every safe cell has been played |
| TicTacToe.InitialState | Week0/tictactoe/tictactoe.py:13-19 | a 3 by 3 board of empty squares |
| TicTacToe.CountRowsSum | Week0/tictactoe/tictactoe.py:33-40 | empty, X and O counts add up to the squares scanned |
| TicTacToe.CountRowsZero | Week0/tictactoe/tictactoe.py:33-40 | a count is zero iff no scanned square holds that value |
| TicTacToe.CountSquares | Week0/tictactoe/tictactoe.py:26-40 | the loops count the empty, X and O squares |
| TicTacToe.PlayerOf | Week0/tictactoe/tictactoe.py:22-45 | the game is finished iff the board is terminal; otherwise X moves iff X and O have made equally many moves |
| TicTacToe.Player | Week0/tictactoe/tictactoe.py:22-45 | the counting loops compute the turn PlayerOf characterises |
| TicTacToe.EmptySquares | Week0/tictactoe/tictactoe.py:57-60 | exactly the on-board squares that are empty |
| TicTacToe.EmptySquaresLoop | Week0/tictactoe/tictactoe.py:57-62 | the nested loops collect exactly the empty squares |
| TicTacToe.ActionsOf | Week0/tictactoe/tictactoe.py:48-62 | "GAME FINISHED" iff the board is terminal; otherwise a non-empty set holding exactly the empty squares |
| TicTacToe.GetActions | Week0/tictactoe/tictactoe.py:48-62 | "GAME FINISHED" on a terminal board, otherwise the empty squares |
| TicTacToe.ResultOf | Week0/tictactoe/tictactoe.py:65-81 | TypeError on a finished board; on a live board it succeeds iff the move is an empty square, otherwise it raises; the mover's mark appears at the move and nothing else changes |
| TicTacToe.ResultFillsOne | Week0/tictactoe/tictactoe.py:65-81 | a move fills exactly one empty square |
| TicTacToe.Lines | Week0/tictactoe/tictactoe.py:85-159 | the eight lines checked, all on the board |
| TicTacToe.LineCountFull | Week0/tictactoe/tictactoe.py:85-159 | a line's count of a mark is 3 iff all three squares hold it |
| TicTacToe.LineWinner | Week0/tictactoe/tictactoe.py:85-159 | X iff the line is full of X; O iff full of O and not of X |
| TicTacToe.WinnerFrom | Week0/tictactoe/tictactoe.py:85-159 | no winner iff no remaining line is full; otherwise a full line of the winner's mark, with every earlier line open |
| TicTacToe.WinnerOf | Week0/tictactoe/tictactoe.py:85-159 | no winner iff every line is open; a winner fills some line, and O wins only on a line X does not fill |
| TicTacToe.CountLine | Week0/tictactoe/tictactoe.py:85-159 | counts the X and O marks on one line |
| TicTacToe.Winner | Week0/tictactoe/tictactoe.py:85-159 | the scan in the source's line order gives the winner WinnerFrom characterises |
| TicTacToe.TerminalOf | Week0/tictactoe/tictactoe.py:161-176 | terminal iff someone has won or no square is empty |
| TicTacToe.Terminal | Week0/tictactoe/tictactoe.py:161-176 | the loop computes the terminal test |
| TicTacToe.Utility | Week0/tictactoe/tictactoe.py:179-191 | 1 iff X won, -1 iff O won, 0 iff there is no winner |
| TicTacToe.ActionList | Week0/tictactoe/tictactoe.py:57-62 | the row-major list of moves holds exactly the empty squares |
| TicTacToe.InPlayHasMove | Week0/tictactoe/tictactoe.py:206 | a board that is not terminal has a move |
| TicTacToe.Child | Week0/tictactoe/tictactoe.py:207 | a child board has strictly fewer empty squares, which bounds the recursion |
| TicTacToe.GetMaxValue | Week0/tictactoe/tictactoe.py:222-231 | the game value lies in [-1, 1] |
| TicTacToe.GetMinValue | Week0/tictactoe/tictactoe.py:234-243 | the game value lies in [-1, 1] |
| TicTacToe.MaxOverIsMax | Week0/tictactoe/tictactoe.py:226-231 | the loop value bounds every child's min-value and is attained by some child, or is the start value |
| TicTacToe.MinOverIsMin | Week0/tictactoe/tictactoe.py:238-243 | the loop value is below every child's max-value and is attained by some child, or is the start value |
| TicTacToe.ArgMax | Week0/tictactoe/tictactoe.py:204-210 | the loop keeps the best value and a legal move reaching it |
| TicTacToe.ArgMin | Week0/tictactoe/tictactoe.py:211-217 | the loop keeps the least value and a legal move reaching it |
| TicTacToe.Minimax | Week0/tictactoe/tictactoe.py:200-219 | returns a legal move; for X no move has a greater min-value, and for O no move has a smaller max-value |
| Degrees.NeighborsOf | Week0/degrees/degrees.py:156-166 | KeyError iff the person or one of their movies is unknown; otherwise exactly the (movie, star) pairs of the person's movies |
| Degrees.NeighborsForPerson | Week0/degrees/degrees.py:156-166 | the nested loops compute NeighborsOf |
| Degrees.ValidFromSnoc | Week0/degrees/degrees.py:118-121 | extending a path by one pair is valid iff the pair's movie has both the last person and the new person |
| Degrees.Reverse | Week0/degrees/degrees.py:121 | the slice `[::-1]` |
| Degrees.WalkFrom | Week0/degrees/degrees.py:118-120 | the back-walk collects at most one step per parent link, and nothing from a node for the source |
| Degrees.WalkIsPath | Week0/degrees/degrees.py:118-121 | walking parent links and reversing gives a valid path from the source to the node's person |
| Degrees.ScanNeighbors | Week0/degrees/degrees.py:107-126 | either reaches the target through a child of the current node, or extends the frontier with children of the current node whose people are new and are not the target, after which every co-star of the current person is queued |
| Degrees.BuildPath | Week0/degrees/degrees.py:116-121 | the back-walk loop returns the reversed walk |
| Degrees.PathSplit | Week0/degrees/degrees.py:118-121 | a non-empty valid path is a shorter valid path followed by one co-star step |
| Degrees.LayeredStep | Week0/degrees/degrees.py:101-126 | one expansion keeps the FIFO frontier sorted by depth, spanning at most two adjacent levels |
| Degrees.ClosedStep | Week0/degrees/degrees.py:101-126 | after an expansion, every co-star of an expanded person is expanded or queued |
| Degrees.CoveredStep | Week0/degrees/degrees.py:101-126 | after an expansion, every person reachable within the next node's depth is expanded or queued at no greater depth |
| Degrees.UnseenStep | Week0/degrees/degrees.py:107-126 | an expansion that does not find the target leaves it ungenerated |
| Degrees.FoundShortest | Week0/degrees/degrees.py:101-121 | when the target is generated from the node at the head of the frontier, no valid path to it is shorter than the walk back |
| Degrees.ShortestPath | Week0/degrees/degrees.py:87-126 | a returned path is a valid chain of co-star steps from source to target read off a parent chain, and no valid path from source to target is shorter; errors are KeyError or the empty-frontier Exception |
| Parser.Height | Week6_Language/parser/parser.py:100 | every tree has height at least 1 |
| Parser.Subtrees | Week6_Language/parser/parser.py:92 | pre-order subtrees, the tree itself first |
| Parser.ProperSubtrees | Week6_Language/parser/parser.py:92-93 | the subtrees with the tree itself removed |
| Parser.ContainsNP | Week6_Language/parser/parser.py:106-111 | true iff some tree in the list is labelled NP |
| Parser.SubtreesSmaller | Week6_Language/parser/parser.py:92-93 | a proper subtree is strictly smaller |
| Parser.NpChunk | Week6_Language/parser/parser.py:80-103 | as written: every returned tree is an NP chunk and a proper subtree of the input; the only error is AttributeError, and a leaf child always raises it |
| Parser.NpChunkFrom | Week6_Language/parser/parser.py:89-101 | the loop over children returns chunks from the remaining children; a leaf among them raises AttributeError |
| Parser.RootNotReturned | Week6_Language/parser/parser.py:89-101 | the input tree is never among its own chunks |
| Parser.Chunks | Week6_Language/parser/parser.py:81-86 | the intended meaning: the NP trees of a list with no NP below them |
| Parser.ChunksAppend | Week6_Language/parser/parser.py:81-86 | chunk filtering distributes over concatenation |
| Parser.NoNPNoChunks | Week6_Language/parser/parser.py:95-97 | a list with no NP has no chunks |
| Parser.FixedNpChunk | Week6_Language/parser/parser.py:81-86 | the corrected traversal returns only NP chunks that are proper subtrees of the input |
| Parser.FixedNpChunkFrom | Week6_Language/parser/parser.py:89-101 | the corrected loop returns only chunks from the remaining children's subtrees |
| Parser.FixedNpChunkIsChunks | Week6_Language/parser/parser.py:81-86 | the corrected recursion returns exactly the chunks among the proper subtrees, in pre-order |
| Parser.FixedNpChunkFromIsChunks | Week6_Language/parser/parser.py:89-101 | the corrected loop over children returns exactly the chunks among their subtrees |
| Parser.FixedPartIsChunks | Week6_Language/parser/parser.py:90-101 | one child's contribution is exactly the chunks among its subtrees |
| Parser.NpChunkSound | Week6_Language/parser/parser.py:80-103 | the code as written returns only chunks the corrected version returns |
| Parser.Preterminal | Week6_Language/parser/parser.py:100 | a tag over a single word has height 2 and no chunks, which is why the height guard may skip it |
| Parser.NestedNPMissed | Week6_Language/parser/parser.py:90-97 | "holmes in home sat": the code as written returns no chunk |
| Parser.NestedNPFound | Week6_Language/parser/parser.py:81-86 | on the same tree the corrected version returns the chunk "home" |

## Left out

- Printing, saving the grid as an image, and the command-line `main`
  functions of every project are I/O, so they are not modelled.
- `crossword.py` (reading the structure and word files, computing
  overlaps) is not part of this model.
  `CrosswordGrid.Crossword.Valid` and `Geometric` state what that
  construction is assumed to provide.
- `order_domain_values` returns the domain unchanged (its body is a
  placeholder), so `Backtrack` iterates the domain directly.
- `ac3(arcs)` with caller-given arcs uses the caller's set object itself
  as its queue. The model copies it, so aliasing with the caller's set is
  not captured.
- `Revise` and `AC3` require node-consistent domains. On a word shorter
  than an overlap index, the source raises IndexError; `solve` always
  establishes node consistency first.
- Generate.CrosswordCreator.Backtrack: proves only soundness of a
  success. It does not prove that NoSolution means no solution exists.
  Such a proof fails for the source anyway, because entries left as None
  make later `consistent` calls raise or fail.
- Generate.CrosswordCreator.AC3: with caller-given arcs, the result also
  depends on arcs not in that set, so arc consistency is stated only for
  the full initial arc set.
- Minesweeper: random mine placement, `print`, `make_random_move` and
  `getRandomCell` depend on randomness or I/O and are left out.
- Minesweeper.MinesweeperAI.AddKnowledge: models lines 179-201 (record the
  move, mark it safe, add the new sentence). The inference passes on lines
  203-238 are not modelled.
- `Sentence.__str__` is output only, and is left out.
- TicTacToe.Minimax: requires a non-terminal board. The source's terminal
  branch (tictactoe.py:198-199) returns the undefined name `NONE`, which
  raises NameError.
- TicTacToe.Minimax: among equally good moves, the source picks the first
  in Python's set iteration order. The model scans moves in row-major
  order, so it may pick a different one of the tied moves.
- Degrees: `load_data`, `person_id_for_name` and `main` read CSV files
  and standard input, so they are not modelled.
- Degrees.ShortestPath: the unbounded search loop is cut off by `fuel`,
  so a run that goes on forever in the source ends with `OutOfFuel`. The
  model does not characterise when the source raises or never stops.
- Parser: `preprocess` (tokenising with nltk), the grammar and `main` are
  library calls and I/O, so they are not modelled.

## Findings

| source | as written | input that shows it | evidently intended | confidence | as-written member | corrected member |
|---|---|---|---|---|---|---|
| Week6_Language/parser/parser.py:90-97 | an NP child that has an NP below it is neither returned nor searched, so the NP chunks nested inside it are lost | the tree S(NP(N holmes, PP(P in, NP(N home))), VP(V sat)) for "holmes in home sat" | every NP subtree with no NP below it is a chunk, as the docstring on lines 81-86 says; this tree has the chunk NP(N home) | not executed | Parser.NestedNPMissed | Parser.FixedNpChunkIsChunks |
