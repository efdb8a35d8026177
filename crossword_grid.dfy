/** The crossword structure the solver consumes: its slots ("variables"),
    the grid cells they cover, how pairs of slots cross, and the word pool.
    Building these from a structure file and a word file is done elsewhere
    in the repository; here they are inputs with the invariants that
    construction establishes. */
module CrosswordGrid {
  import opened Wrappers

  datatype Direction = Across | Down

  /** A slot of the grid: start row i, start column j, direction, length. */
  datatype Variable = Variable(i: int, j: int, direction: Direction, length: nat)

  type Word = string

  /** The grid cell holding letter k of a slot. */
  function CellOf(v: Variable, k: int): (int, int)
  {
    if v.direction == Down then (v.i + k, v.j) else (v.i, v.j + k)
  }

  /** An overlap read from the other slot's side. */
  function Flip(o: Option<(nat, nat)>): Option<(nat, nat)>
  {
    match o
    case None => None
    case Some((a, b)) => Some((b, a))
  }

  /** `variables` lists the slot set in its (fixed) iteration order;
      `overlaps` has one entry per ordered pair of distinct slots, giving the
      letter index in each slot of the cell they share, or None. */
  datatype Crossword = Crossword(
    height: nat,
    width: nat,
    variables: seq<Variable>,
    overlaps: map<(Variable, Variable), Option<(nat, nat)>>,
    words: set<Word>)
  {
    /** The invariants of a constructed crossword. */
    ghost predicate Valid()
    {
      && (forall a, b | 0 <= a < b < |variables| :: variables[a] != variables[b])
      && (forall p :: p in overlaps <==> p.0 in variables && p.1 in variables && p.0 != p.1)
      && (forall p | p in overlaps && overlaps[p].Some? ::
            overlaps[p].value.0 < p.0.length && overlaps[p].value.1 < p.1.length)
      && (forall p | p in overlaps :: (p.1, p.0) in overlaps && overlaps[(p.1, p.0)] == Flip(overlaps[p]))
    }

    /** The geometric meaning of the overlap table: every slot lies inside
        the grid, and two distinct slots share the cell at letters a and b
        exactly when their overlap is (a, b). */
    ghost predicate Geometric()
    {
      && (forall v, k | v in variables && 0 <= k < v.length ::
            0 <= CellOf(v, k).0 < height && 0 <= CellOf(v, k).1 < width)
      && (forall p, a, b | p in overlaps && 0 <= a < p.0.length && 0 <= b < p.1.length ::
            CellOf(p.0, a) == CellOf(p.1, b) <==> overlaps[p] == Some((a, b)))
    }

    /** The slots that cross v. */
    function Neighbors(v: Variable): (r: set<Variable>)
      requires Valid() && v in variables
      ensures forall u :: u in r <==> (v, u) in overlaps && overlaps[(v, u)].Some?
    {
      set u | u in variables && u != v && overlaps[(u, v)].Some?
    }
  }
}
