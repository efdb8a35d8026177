/** The crossword CSP solver: node consistency, arc consistency (AC-3) and
    backtracking search over partial assignments. */
module Generate {
  import opened Wrappers
  import opened CrosswordGrid

  /** A Python dict from slots to words: its keys in insertion order and
      its values, where None stands for Python's None. */
  datatype Assignment = Assignment(order: seq<Variable>, values: map<Variable, Option<Word>>)
  {
    ghost predicate Valid()
    {
      && (forall a, b | 0 <= a < b < |order| :: order[a] != order[b])
      && (forall v :: v in values <==> v in order)
    }

    /** `assignment[v] = w`: an existing key keeps its place, a new key goes last. */
    function Set(v: Variable, w: Option<Word>): (r: Assignment)
      requires Valid()
      ensures r.Valid() && r.values == values[v := w]
      ensures v in values ==> r.order == order
      ensures v !in values ==> r.order == order + [v]
    {
      if v in values then Assignment(order, values[v := w]) else Assignment(order + [v], values[v := w])
    }
  }

  const EmptyAssignment: Assignment := Assignment([], map[])

  /** The words of an assignment, leaving out keys bound to None. */
  function Words(a: Assignment): map<Variable, Word>
  {
    map v | v in a.values && a.values[v].Some? :: a.values[v].value
  }

  /** No key is bound to None. */
  predicate AllSome(a: Assignment)
  {
    forall v | v in a.values :: a.values[v].Some?
  }

  /** Two words agree at overlap (i, j): word x has letter i, word y has
      letter j, and they are the same letter. */
  predicate Agree(x: Word, y: Word, ov: (nat, nat))
  {
    ov.0 < |x| && ov.1 < |y| && x[ov.0] == y[ov.1]
  }

  /** The three constraints of the puzzle on a set of chosen words: each word
      fits its slot, distinct slots hold distinct words, crossing slots agree. */
  ghost predicate IsConsistent(cw: Crossword, s: map<Variable, Word>)
  {
    && (forall v | v in s :: |s[v]| == v.length)
    && (forall u, v | u in s && v in s && u != v :: s[u] != s[v])
    && (forall p | p in cw.overlaps && p.0 in s && p.1 in s && cw.overlaps[p].Some? ::
          Agree(s[p.0], s[p.1], cw.overlaps[p].value))
  }

  /** A full solution of the puzzle: every slot filled, all constraints met. */
  ghost predicate IsSolution(cw: Crossword, s: map<Variable, Word>)
  {
    && (forall v :: v in s <==> v in cw.variables)
    && IsConsistent(cw, s)
  }

  // ---------------------------------------------------------------------
  // assignment_complete

  /** The scan of `assignment_complete` over the slots vs. */
  function CompleteOver(vs: seq<Variable>, a: Assignment): (r: bool)
    ensures r <==> forall v | v in vs :: v in a.values
  {
    if vs == [] then true
    else if vs[0] !in a.values then false
    else CompleteOver(vs[1..], a)
  }

  /** `assignment_complete`: every slot of the crossword is a key. */
  function AssignmentComplete(cw: Crossword, a: Assignment): (r: bool)
    ensures r <==> forall v | v in cw.variables :: v in a.values
  {
    CompleteOver(cw.variables, a)
  }

  // ---------------------------------------------------------------------
  // consistent

  /** The keys of an assignment are slots of the crossword. */
  ghost predicate KeysAreSlots(cw: Crossword, a: Assignment)
  {
    forall v | v in a.values :: v in cw.variables
  }

  /** One turn of the inner loop of `consistent`: slot xv holds word x (whose
      length already matched) and key yv is compared with it. Ok(true) means
      the loop goes on. */
  function CheckPair(cw: Crossword, a: Assignment, xv: Variable, x: Word, yv: Variable): (r: Result<bool, PyError>)
    requires cw.Valid() && KeysAreSlots(cw, a) && xv in cw.variables && |x| == xv.length
    requires yv in a.values
    ensures xv == yv ==> r == Ok(true)
    ensures r.Err? ==> r.error == TypeError || r.error == IndexError
    ensures r == Err(TypeError) ==> a.values[yv].None?
    ensures r == Err(IndexError) ==> a.values[yv].Some? && |a.values[yv].value| < yv.length
  {
    if xv == yv then Ok(true)
    else
      var yw := a.values[yv];
      if yw == Some(x) then Ok(false)
      else
        match cw.overlaps[(xv, yv)]
        case None => Ok(true)
        case Some(ov) =>
          if yw.None? then Err(TypeError)              // None[...] is not subscriptable
          else if ov.1 >= |yw.value| then Err(IndexError)
          else Ok(x[ov.0] == yw.value[ov.1])
  }

  /** The inner loop of `consistent` over the keys ys. */
  function CheckPartners(cw: Crossword, a: Assignment, xv: Variable, x: Word, ys: seq<Variable>): (r: Result<bool, PyError>)
    requires cw.Valid() && KeysAreSlots(cw, a) && xv in cw.variables && |x| == xv.length
    requires forall y | y in ys :: y in a.values
    ensures r.Err? ==> r.error == TypeError || r.error == IndexError
    ensures r == Err(TypeError) ==> exists y | y in ys :: a.values[y].None?
    ensures r == Err(IndexError) ==> exists y | y in ys :: a.values[y].Some? && |a.values[y].value| != y.length
  {
    if ys == [] then Ok(true)
    else
      match CheckPair(cw, a, xv, x, ys[0])
      case Ok(true) => CheckPartners(cw, a, xv, x, ys[1..])
      case other => other
  }

  /** The outer loop of `consistent` over the keys xs. */
  function CheckFrom(cw: Crossword, a: Assignment, xs: seq<Variable>): (r: Result<bool, PyError>)
    requires cw.Valid() && a.Valid() && KeysAreSlots(cw, a)
    requires forall x | x in xs :: x in a.values
    ensures r.Err? ==> r.error == TypeError || r.error == IndexError
    ensures r == Err(TypeError) ==> exists v | v in a.values :: a.values[v].None?
    ensures r == Err(IndexError) ==> exists v | v in a.values :: a.values[v].Some? && |a.values[v].value| != v.length
  {
    if xs == [] then Ok(true)
    else
      var xv := xs[0];
      var xw := a.values[xv];
      if xw.None? then Err(TypeError)                   // len(None)
      else if xv.length != |xw.value| then Ok(false)
      else
        match CheckPartners(cw, a, xv, xw.value, a.order)
        case Ok(true) => CheckFrom(cw, a, xs[1..])
        case other => other
  }

  /** `consistent`: the keys are visited in insertion order, so a None value
      or a too-short word may raise before a conflict is found. */
  function Consistent(cw: Crossword, a: Assignment): (r: Result<bool, PyError>)
    requires cw.Valid() && a.Valid() && KeysAreSlots(cw, a)
    ensures r.Err? ==> r.error == TypeError || r.error == IndexError
    ensures r == Err(TypeError) ==> exists v | v in a.values :: a.values[v].None?
    ensures r == Err(IndexError) ==> exists v | v in a.values :: a.values[v].Some? && |a.values[v].value| != v.length
  {
    CheckFrom(cw, a, a.order)
  }

  /** What the inner loop asks of one other key y: it does not hold x either,
      and if its slot crosses xv it holds a word that agrees with x. */
  ghost predicate PartnerOk(cw: Crossword, a: Assignment, xv: Variable, x: Word, y: Variable)
    requires cw.Valid() && KeysAreSlots(cw, a) && xv in cw.variables && y in a.values && y != xv
  {
    && a.values[y] != Some(x)
    && (cw.overlaps[(xv, y)].Some? ==>
          a.values[y].Some? && Agree(x, a.values[y].value, cw.overlaps[(xv, y)].value))
  }

  /** What the inner loop accepts: every key other than xv passes PartnerOk. */
  ghost predicate PartnersOk(cw: Crossword, a: Assignment, xv: Variable, x: Word, ys: seq<Variable>)
    requires cw.Valid() && KeysAreSlots(cw, a) && xv in cw.variables
    requires forall y | y in ys :: y in a.values
  {
    forall y | y in ys && y != xv :: PartnerOk(cw, a, xv, x, y)
  }

  lemma PartnersOkCons(cw: Crossword, a: Assignment, xv: Variable, x: Word, ys: seq<Variable>)
    requires cw.Valid() && KeysAreSlots(cw, a) && xv in cw.variables
    requires forall y | y in ys :: y in a.values
    requires ys != []
    ensures PartnersOk(cw, a, xv, x, ys) <==>
              (ys[0] == xv || PartnerOk(cw, a, xv, x, ys[0])) && PartnersOk(cw, a, xv, x, ys[1..])
  {
    assert forall y :: y in ys <==> y == ys[0] || y in ys[1..];
  }

  /** One step of the inner loop carries on exactly when the key passes. */
  lemma CheckPairMeaning(cw: Crossword, a: Assignment, xv: Variable, x: Word, yv: Variable)
    requires cw.Valid() && KeysAreSlots(cw, a) && xv in cw.variables && |x| == xv.length
    requires yv in a.values
    ensures CheckPair(cw, a, xv, x, yv) == Ok(true) <==> yv == xv || PartnerOk(cw, a, xv, x, yv)
  {
    if xv == yv {
    } else if a.values[yv] == Some(x) {
      assert !PartnerOk(cw, a, xv, x, yv);
    } else if cw.overlaps[(xv, yv)].None? {
      assert PartnerOk(cw, a, xv, x, yv);
    } else if a.values[yv].None? {
      assert !PartnerOk(cw, a, xv, x, yv);
    } else {
      var ov := cw.overlaps[(xv, yv)].value;
      var y := a.values[yv].value;
      assert ov.0 < |x|;
      assert PartnerOk(cw, a, xv, x, yv) <==> Agree(x, y, ov);
      assert CheckPair(cw, a, xv, x, yv) == if ov.1 >= |y| then Err(IndexError) else Ok(x[ov.0] == y[ov.1]);
    }
  }

  lemma {:induction false} CheckPartnersMeaning(cw: Crossword, a: Assignment, xv: Variable, x: Word, ys: seq<Variable>)
    requires cw.Valid() && KeysAreSlots(cw, a) && xv in cw.variables && |x| == xv.length
    requires forall y | y in ys :: y in a.values
    ensures CheckPartners(cw, a, xv, x, ys) == Ok(true) <==> PartnersOk(cw, a, xv, x, ys)
  {
    if ys != [] {
      CheckPartnersMeaning(cw, a, xv, x, ys[1..]);
      PartnersOkCons(cw, a, xv, x, ys);
      CheckPairMeaning(cw, a, xv, x, ys[0]);
    }
  }

  ghost predicate RowsOk(cw: Crossword, a: Assignment, xs: seq<Variable>)
    requires cw.Valid() && a.Valid() && KeysAreSlots(cw, a)
    requires forall x | x in xs :: x in a.values
  {
    forall xv | xv in xs ::
      && a.values[xv].Some?
      && |a.values[xv].value| == xv.length
      && PartnersOk(cw, a, xv, a.values[xv].value, a.order)
  }

  lemma {:induction false} CheckFromMeaning(cw: Crossword, a: Assignment, xs: seq<Variable>)
    requires cw.Valid() && a.Valid() && KeysAreSlots(cw, a)
    requires forall x | x in xs :: x in a.values
    ensures CheckFrom(cw, a, xs) == Ok(true) <==> RowsOk(cw, a, xs)
  {
    if xs != [] {
      CheckFromMeaning(cw, a, xs[1..]);
      assert forall y :: y in xs <==> y == xs[0] || y in xs[1..];
      var xw := a.values[xs[0]];
      if xw.Some? && xs[0].length == |xw.value| {
        CheckPartnersMeaning(cw, a, xs[0], xw.value, a.order);
      }
    }
  }

  lemma RowsOkIsConsistent(cw: Crossword, a: Assignment)
    requires cw.Valid() && a.Valid() && KeysAreSlots(cw, a)
    requires RowsOk(cw, a, a.order)
    ensures AllSome(a) && IsConsistent(cw, Words(a))
  {
    RowsOkAgree(cw, a);
    RowsOkDistinct(cw, a);
  }

  lemma RowsOkAgree(cw: Crossword, a: Assignment)
    requires cw.Valid() && a.Valid() && KeysAreSlots(cw, a)
    requires RowsOk(cw, a, a.order)
    ensures forall p | p in cw.overlaps && p.0 in Words(a) && p.1 in Words(a) && cw.overlaps[p].Some? ::
              Agree(Words(a)[p.0], Words(a)[p.1], cw.overlaps[p].value)
  {
    var s := Words(a);
    forall p | p in cw.overlaps && p.0 in s && p.1 in s && cw.overlaps[p].Some?
      ensures Agree(s[p.0], s[p.1], cw.overlaps[p].value)
    {
      assert PartnersOk(cw, a, p.0, s[p.0], a.order);
      assert PartnerOk(cw, a, p.0, s[p.0], p.1);
    }
  }

  lemma RowsOkDistinct(cw: Crossword, a: Assignment)
    requires cw.Valid() && a.Valid() && KeysAreSlots(cw, a)
    requires RowsOk(cw, a, a.order)
    ensures forall u, v | u in Words(a) && v in Words(a) && u != v :: Words(a)[u] != Words(a)[v]
  {
    var s := Words(a);
    forall u, v | u in s && v in s && u != v
      ensures s[u] != s[v]
    {
      assert PartnersOk(cw, a, u, s[u], a.order);
      assert PartnerOk(cw, a, u, s[u], v);
    }
  }

  lemma ConsistentPairOk(cw: Crossword, a: Assignment, xv: Variable, y: Variable)
    requires cw.Valid() && a.Valid() && KeysAreSlots(cw, a)
    requires AllSome(a) && IsConsistent(cw, Words(a))
    requires xv in a.values && y in a.values && xv != y
    ensures a.values[y] != Some(a.values[xv].value)
    ensures cw.overlaps[(xv, y)].Some? ==>
              a.values[y].Some? && Agree(a.values[xv].value, a.values[y].value, cw.overlaps[(xv, y)].value)
  {
    var s := Words(a);
    assert xv in s && y in s;
    assert (xv, y) in cw.overlaps;
  }

  lemma ConsistentIsRowsOk(cw: Crossword, a: Assignment)
    requires cw.Valid() && a.Valid() && KeysAreSlots(cw, a)
    requires AllSome(a) && IsConsistent(cw, Words(a))
    ensures RowsOk(cw, a, a.order)
  {
    var s := Words(a);
    forall xv | xv in a.order
      ensures |a.values[xv].value| == xv.length
      ensures PartnersOk(cw, a, xv, a.values[xv].value, a.order)
    {
      assert xv in s;
      forall y | y in a.order && y != xv
        ensures a.values[y] != Some(a.values[xv].value)
        ensures cw.overlaps[(xv, y)].Some? ==>
                  a.values[y].Some? && Agree(a.values[xv].value, a.values[y].value, cw.overlaps[(xv, y)].value)
      {
        ConsistentPairOk(cw, a, xv, y);
      }
    }
  }

  /** `consistent` returns True exactly when no key is bound to None and the
      chosen words meet the three constraints of the puzzle. */
  lemma ConsistentMeaning(cw: Crossword, a: Assignment)
    requires cw.Valid() && a.Valid() && KeysAreSlots(cw, a)
    ensures Consistent(cw, a) == Ok(true) <==> AllSome(a) && IsConsistent(cw, Words(a))
  {
    CheckFromMeaning(cw, a, a.order);
    if RowsOk(cw, a, a.order) {
      RowsOkIsConsistent(cw, a);
    }
    if AllSome(a) && IsConsistent(cw, Words(a)) {
      ConsistentIsRowsOk(cw, a);
    }
  }

  // ---------------------------------------------------------------------
  // select_unassigned_variable

  /** Maps every slot of the crossword to its candidate words. */
  ghost predicate Covers(cw: Crossword, domains: map<Variable, set<Word>>)
  {
    forall v | v in cw.variables :: v in domains
  }

  /** One iteration of the scan of `select_unassigned_variable`: slot v
      replaces the current choice best (None stands for "minLength = inf")
      when it is unassigned and has fewer candidates, or as many candidates
      and more neighbours. */
  function Step(cw: Crossword, domains: map<Variable, set<Word>>, a: Assignment,
                best: Option<Variable>, v: Variable): Option<Variable>
    requires cw.Valid() && Covers(cw, domains)
    requires v in cw.variables
    requires best.Some? ==> best.value in cw.variables
  {
    if v in a.values then best
    else if best.None? || |domains[v]| < |domains[best.value]| then Some(v)
    else if |domains[v]| == |domains[best.value]|
         && |cw.Neighbors(v)| > |cw.Neighbors(best.value)| then Some(v)
    else best
  }

  /** The scan of `select_unassigned_variable` over the slots vs. */
  function SelectFrom(cw: Crossword, domains: map<Variable, set<Word>>, a: Assignment,
                      vs: seq<Variable>, best: Option<Variable>): Option<Variable>
    requires cw.Valid() && Covers(cw, domains)
    requires forall v | v in vs :: v in cw.variables
    requires best.Some? ==> best.value in cw.variables
  {
    if vs == [] then best
    else SelectFrom(cw, domains, a, vs[1..], Step(cw, domains, a, best, vs[0]))
  }

  ghost predicate Distinct<T>(s: seq<T>)
  {
    forall k, l | 0 <= k < l < |s| :: s[k] != s[l]
  }

  /** Slot b has the fewest candidates among the unassigned slots of pre, and
      the most neighbours among those with as few. */
  ghost predicate MinChoice(cw: Crossword, domains: map<Variable, set<Word>>, a: Assignment,
                            pre: seq<Variable>, b: Variable)
    requires cw.Valid() && Covers(cw, domains)
    requires forall v | v in pre :: v in cw.variables
    requires b in cw.variables
  {
    forall u | u in pre && u !in a.values ::
      && |domains[b]| <= |domains[u]|
      && (|domains[u]| == |domains[b]| ==> |cw.Neighbors(u)| <= |cw.Neighbors(b)|)
  }

  /** Slot b has strictly more neighbours than every unassigned slot with as
      few candidates that comes before it in pre. */
  ghost predicate FirstTie(cw: Crossword, domains: map<Variable, set<Word>>, a: Assignment,
                           pre: seq<Variable>, b: Variable)
    requires cw.Valid() && Covers(cw, domains)
    requires forall v | v in pre :: v in cw.variables
    requires b in cw.variables
  {
    forall k, l | 0 <= k < l < |pre| && pre[l] == b && pre[k] !in a.values
                  && |domains[pre[k]]| == |domains[b]| ::
      |cw.Neighbors(pre[k])| < |cw.Neighbors(b)|
  }

  /** What the scan has established after visiting the slots pre: the choice
      is an unassigned slot of pre with the fewest candidates, the most
      neighbours among those, and strictly more neighbours than every such
      tie visited before it. */
  ghost predicate Chosen(cw: Crossword, domains: map<Variable, set<Word>>, a: Assignment,
                         pre: seq<Variable>, best: Option<Variable>)
    requires cw.Valid() && Covers(cw, domains)
    requires forall v | v in pre :: v in cw.variables
  {
    && (best.None? <==> forall v | v in pre :: v in a.values)
    && (best.Some? ==>
          && best.value in pre
          && best.value !in a.values
          && MinChoice(cw, domains, a, pre, best.value)
          && FirstTie(cw, domains, a, pre, best.value))
  }

  lemma DistinctSplit<T>(pre: seq<T>, vs: seq<T>)
    requires Distinct(pre + vs) && vs != []
    ensures vs[0] !in pre
    ensures pre + vs == (pre + [vs[0]]) + vs[1..]
  {
    forall k | 0 <= k < |pre| ensures pre[k] != vs[0] {
      assert (pre + vs)[k] == pre[k] && (pre + vs)[|pre|] == vs[0];
    }
    assert pre + vs == (pre + [vs[0]]) + vs[1..];
  }

  lemma {:induction false} SelectFromChosen(cw: Crossword, domains: map<Variable, set<Word>>, a: Assignment,
                                            pre: seq<Variable>, vs: seq<Variable>, best: Option<Variable>)
    requires cw.Valid() && Covers(cw, domains)
    requires forall v | v in pre + vs :: v in cw.variables
    requires Distinct(pre + vs)
    requires best.Some? ==> best.value in cw.variables
    requires Chosen(cw, domains, a, pre, best)
    ensures Chosen(cw, domains, a, pre + vs, SelectFrom(cw, domains, a, vs, best))
    decreases |vs|
  {
    if vs == [] {
      assert pre + vs == pre;
    } else {
      DistinctSplit(pre, vs);
      assert forall u | u in pre :: u in pre + vs;
      assert vs[0] in pre + vs;
      ChosenStep(cw, domains, a, pre, vs[0], best);
      SelectFromChosen(cw, domains, a, pre + [vs[0]], vs[1..], Step(cw, domains, a, best, vs[0]));
    }
  }

  lemma ChosenStep(cw: Crossword, domains: map<Variable, set<Word>>, a: Assignment,
                   pre: seq<Variable>, v: Variable, best: Option<Variable>)
    requires cw.Valid() && Covers(cw, domains)
    requires forall u | u in pre :: u in cw.variables
    requires v in cw.variables && v !in pre
    requires best.Some? ==> best.value in cw.variables
    requires Chosen(cw, domains, a, pre, best)
    ensures Chosen(cw, domains, a, pre + [v], Step(cw, domains, a, best, v))
  {
    var pre' := pre + [v];
    assert forall u :: u in pre' <==> u in pre || u == v;
    var next := Step(cw, domains, a, best, v);
    if next == best {
      if best.Some? {
        var b := best.value;
        KeepMin(cw, domains, a, pre, v, b);
        KeepFirst(cw, domains, a, pre, v, b);
      }
    } else {
      assert v !in a.values;
      TakeMin(cw, domains, a, pre, v, best);
      TakeStrict(cw, domains, a, pre, v, best);
      TakeFirst(cw, domains, a, pre, v);
    }
  }

  /** A slot the step passes over keeps b minimal. */
  lemma KeepMin(cw: Crossword, domains: map<Variable, set<Word>>, a: Assignment,
                pre: seq<Variable>, v: Variable, b: Variable)
    requires cw.Valid() && Covers(cw, domains)
    requires forall u | u in pre :: u in cw.variables
    requires v in cw.variables && b in cw.variables
    requires MinChoice(cw, domains, a, pre, b)
    requires Step(cw, domains, a, Some(b), v) == Some(b)
    ensures forall u | u in pre + [v] :: u in cw.variables
    ensures MinChoice(cw, domains, a, pre + [v], b)
  {
    assert forall u :: u in pre + [v] <==> u in pre || u == v;
  }

  /** Appending a slot other than b keeps b's position and its ties. */
  lemma KeepFirst(cw: Crossword, domains: map<Variable, set<Word>>, a: Assignment,
                  pre: seq<Variable>, v: Variable, b: Variable)
    requires cw.Valid() && Covers(cw, domains)
    requires forall u | u in pre :: u in cw.variables
    requires v in cw.variables && b in cw.variables && v != b
    requires FirstTie(cw, domains, a, pre, b)
    ensures forall u | u in pre + [v] :: u in cw.variables
    ensures FirstTie(cw, domains, a, pre + [v], b)
  {
    var pre' := pre + [v];
    assert forall u :: u in pre' <==> u in pre || u == v;
    forall k, l | 0 <= k < l < |pre'| && pre'[l] == b && pre'[k] !in a.values
                  && |domains[pre'[k]]| == |domains[b]|
      ensures |cw.Neighbors(pre'[k])| < |cw.Neighbors(b)|
    {
      assert l < |pre|;
      assert pre'[k] == pre[k] && pre'[l] == pre[l];
    }
  }

  /** A slot the step takes is minimal over pre and itself. */
  lemma TakeMin(cw: Crossword, domains: map<Variable, set<Word>>, a: Assignment,
                pre: seq<Variable>, v: Variable, best: Option<Variable>)
    requires cw.Valid() && Covers(cw, domains)
    requires forall u | u in pre :: u in cw.variables
    requires v in cw.variables && v !in a.values
    requires best.Some? ==> best.value in cw.variables
    requires Chosen(cw, domains, a, pre, best)
    requires Step(cw, domains, a, best, v) == Some(v) && best != Some(v)
    ensures forall u | u in pre + [v] :: u in cw.variables
    ensures MinChoice(cw, domains, a, pre + [v], v)
  {
    assert forall u :: u in pre + [v] <==> u in pre || u == v;
  }

  /** A slot the step takes beats every earlier unassigned tie strictly. */
  lemma TakeStrict(cw: Crossword, domains: map<Variable, set<Word>>, a: Assignment,
                   pre: seq<Variable>, v: Variable, best: Option<Variable>)
    requires cw.Valid() && Covers(cw, domains)
    requires forall u | u in pre :: u in cw.variables
    requires v in cw.variables && v !in a.values
    requires best.Some? ==> best.value in cw.variables
    requires Chosen(cw, domains, a, pre, best)
    requires Step(cw, domains, a, best, v) == Some(v) && best != Some(v)
    ensures forall u | u in pre && u !in a.values && |domains[u]| == |domains[v]| ::
              |cw.Neighbors(u)| < |cw.Neighbors(v)|
  {
  }

  lemma TakeFirst(cw: Crossword, domains: map<Variable, set<Word>>, a: Assignment,
                  pre: seq<Variable>, v: Variable)
    requires cw.Valid() && Covers(cw, domains)
    requires forall u | u in pre :: u in cw.variables
    requires v in cw.variables && v !in pre
    requires forall u | u in pre && u !in a.values && |domains[u]| == |domains[v]| ::
               |cw.Neighbors(u)| < |cw.Neighbors(v)|
    ensures forall u | u in pre + [v] :: u in cw.variables
    ensures FirstTie(cw, domains, a, pre + [v], v)
  {
    var pre' := pre + [v];
    assert forall u :: u in pre' <==> u in pre || u == v;
    forall k, l | 0 <= k < l < |pre'| && pre'[l] == v && pre'[k] !in a.values
                  && |domains[pre'[k]]| == |domains[v]|
      ensures |cw.Neighbors(pre'[k])| < |cw.Neighbors(v)|
    {
      assert pre'[k] == pre[k];
      assert pre[k] in pre;
    }
  }

  /** `select_unassigned_variable`, by minimum remaining values and then by
      degree; a remaining tie goes to the slot visited first. */
  function SelectUnassignedVariable(cw: Crossword, domains: map<Variable, set<Word>>, a: Assignment): (r: Option<Variable>)
    requires cw.Valid() && Covers(cw, domains)
    ensures r.None? <==> forall v | v in cw.variables :: v in a.values
    ensures r.Some? ==> r.value in cw.variables && r.value !in a.values
    ensures r.Some? ==> forall u | u in cw.variables && u !in a.values ::
              && |domains[r.value]| <= |domains[u]|
              && (|domains[u]| == |domains[r.value]| ==>
                    |cw.Neighbors(u)| <= |cw.Neighbors(r.value)|)
    ensures r.Some? ==> forall k, l | 0 <= k < l < |cw.variables| && cw.variables[l] == r.value
                                      && cw.variables[k] !in a.values
                                      && |domains[cw.variables[k]]| == |domains[r.value]| ::
              |cw.Neighbors(cw.variables[k])| < |cw.Neighbors(r.value)|
  {
    assert [] + cw.variables == cw.variables;
    SelectFromChosen(cw, domains, a, [], cw.variables, None);
    SelectFrom(cw, domains, a, cw.variables, None)
  }

  // ---------------------------------------------------------------------
  // Domains

  /** Every candidate word has its slot's length (node consistency). */
  ghost predicate NodeConsistent(domains: map<Variable, set<Word>>)
  {
    forall v, w | v in domains && w in domains[v] :: |w| == v.length
  }

  /** Word w of slot x has a partner in ys: a different word that agrees
      with it at the overlap ov. */
  ghost predicate Supported(w: Word, ys: set<Word>, ov: (nat, nat))
  {
    exists u | u in ys :: u != w && Agree(w, u, ov)
  }

  /** Arc p is consistent: each word of p.0 has a partner among the words of p.1. */
  ghost predicate ArcOk(cw: Crossword, domains: map<Variable, set<Word>>, p: (Variable, Variable))
  {
    p in cw.overlaps && cw.overlaps[p].Some? && p.0 in domains && p.1 in domains ==>
      forall w | w in domains[p.0] :: Supported(w, domains[p.1], cw.overlaps[p].value)
  }

  /** Every arc of the crossword is consistent. */
  ghost predicate ArcConsistent(cw: Crossword, domains: map<Variable, set<Word>>)
    requires cw.Valid() && Covers(cw, domains)
  {
    forall p | p in cw.overlaps :: ArcOk(cw, domains, p)
  }

  /** Same slots, and each slot's candidates are a subset of before. */
  ghost predicate Shrunk(d0: map<Variable, set<Word>>, d1: map<Variable, set<Word>>)
  {
    d1.Keys == d0.Keys && forall v | v in d1 :: d1[v] <= d0[v]
  }

  /** Every word of s is a candidate of its slot. */
  ghost predicate Within(s: map<Variable, Word>, d: map<Variable, set<Word>>)
  {
    forall v | v in s :: v in d && s[v] in d[v]
  }

  /** No solution drawn from the candidates d0 is lost in d1. */
  ghost predicate KeepsSolutions(cw: Crossword, d0: map<Variable, set<Word>>, d1: map<Variable, set<Word>>)
  {
    forall s: map<Variable, Word> | IsSolution(cw, s) && Within(s, d0) :: Within(s, d1)
  }

  /** All (slot, candidate) pairs: the measure that AC-3 lowers. */
  ghost function Footprint(d: map<Variable, set<Word>>): set<(Variable, Word)>
  {
    set v, w | v in d && w in d[v] :: (v, w)
  }

  lemma FootprintShrinks(d0: map<Variable, set<Word>>, d1: map<Variable, set<Word>>, x: Variable)
    requires Shrunk(d0, d1) && x in d0 && d1[x] != d0[x]
    ensures Footprint(d1) < Footprint(d0)
  {
    var w :| w in d0[x] && w !in d1[x];
    assert (x, w) in Footprint(d0);
  }

  /** How `revise(x, y)` relates the candidates before and after. */
  ghost predicate RevisedFrom(cw: Crossword, d0: map<Variable, set<Word>>, d1: map<Variable, set<Word>>,
                              x: Variable, y: Variable)
    requires (x, y) in cw.overlaps && x in d0 && y in d0
  {
    && d1.Keys == d0.Keys
    && (forall v | v in d1 && v != x :: d1[v] == d0[v])
    && (cw.overlaps[(x, y)].None? ==> d1 == d0)
    && (cw.overlaps[(x, y)].Some? ==>
          forall w :: w in d1[x] <==> w in d0[x] && Supported(w, d0[y], cw.overlaps[(x, y)].value))
  }

  /** In a solution, the word of x has the word of y as its partner. */
  lemma SolutionSupports(cw: Crossword, s: map<Variable, Word>, x: Variable, y: Variable)
    requires cw.Valid() && IsSolution(cw, s)
    requires (x, y) in cw.overlaps && cw.overlaps[(x, y)].Some?
    ensures x in s && y in s
    ensures s[x] != s[y] && Agree(s[x], s[y], cw.overlaps[(x, y)].value)
  {
    assert x in s && y in s;
    assert (x, y) in cw.overlaps && (x, y).0 in s && (x, y).1 in s;
  }

  lemma ReviseKeepsSolution(cw: Crossword, d0: map<Variable, set<Word>>, d1: map<Variable, set<Word>>,
                            x: Variable, y: Variable, s: map<Variable, Word>)
    requires cw.Valid() && (x, y) in cw.overlaps && x in d0 && y in d0
    requires RevisedFrom(cw, d0, d1, x, y)
    requires IsSolution(cw, s) && Within(s, d0)
    ensures Within(s, d1)
  {
    forall v | v in s
      ensures v in d1 && s[v] in d1[v]
    {
      assert v in d0 && s[v] in d0[v];
      if v == x && cw.overlaps[(x, y)].Some? {
        var ov := cw.overlaps[(x, y)].value;
        SolutionSupports(cw, s, x, y);
        assert s[y] in d0[y] && s[y] != s[x] && Agree(s[x], s[y], ov);
        assert Supported(s[x], d0[y], ov);
      }
    }
  }

  /** Revising never discards a word that some solution uses. */
  lemma ReviseKeepsSolutions(cw: Crossword, d0: map<Variable, set<Word>>, d1: map<Variable, set<Word>>,
                             x: Variable, y: Variable)
    requires cw.Valid() && (x, y) in cw.overlaps && x in d0 && y in d0
    requires RevisedFrom(cw, d0, d1, x, y)
    ensures KeepsSolutions(cw, d0, d1)
  {
    forall s: map<Variable, Word> | IsSolution(cw, s) && Within(s, d0)
      ensures Within(s, d1)
    {
      ReviseKeepsSolution(cw, d0, d1, x, y, s);
    }
  }

  // ---------------------------------------------------------------------
  // The solver object

  datatype Outcome = Solved | NoSolution | Raised(error: PyError)

  /** The slots not yet keys of a. */
  ghost function Unassigned(cw: Crossword, a: Assignment): set<Variable>
  {
    set v | v in cw.variables && v !in a.values
  }

  /** Every word bound in a is a candidate of its slot. */
  ghost predicate Drawn(a: Assignment, domains: map<Variable, set<Word>>)
  {
    forall v | v in a.values && a.values[v].Some? :: v in domains && a.values[v].value in domains[v]
  }

  /** What every assignment the search builds satisfies: a well-formed dict
      whose keys are slots and whose words are candidates. */
  ghost predicate Sound(cw: Crossword, domains: map<Variable, set<Word>>, a: Assignment)
  {
    a.Valid() && KeysAreSlots(cw, a) && Drawn(a, domains)
  }

  lemma SetSound(cw: Crossword, domains: map<Variable, set<Word>>, a: Assignment, v: Variable, w: Option<Word>)
    requires Sound(cw, domains, a) && v in cw.variables
    requires w.Some? ==> v in domains && w.value in domains[v]
    ensures Sound(cw, domains, a.Set(v, w))
    ensures a.Set(v, w).values.Keys == a.values.Keys + {v}
  {
  }

  /** Binding a new slot leaves fewer slots unbound. */
  lemma UnassignedShrinks(cw: Crossword, a: Assignment, b: Assignment, v: Variable)
    requires a.values.Keys <= b.values.Keys && v in cw.variables && v in b.values && v !in a.values
    ensures Unassigned(cw, b) < Unassigned(cw, a)
  {
    assert v in Unassigned(cw, a) && v !in Unassigned(cw, b);
  }

  lemma KeepsSolutionsTrans(cw: Crossword, d0: map<Variable, set<Word>>, d1: map<Variable, set<Word>>,
                            d2: map<Variable, set<Word>>)
    requires KeepsSolutions(cw, d0, d1) && KeepsSolutions(cw, d1, d2)
    ensures KeepsSolutions(cw, d0, d2)
  {
  }

  lemma ShrunkTrans(d0: map<Variable, set<Word>>, d1: map<Variable, set<Word>>, d2: map<Variable, set<Word>>)
    requires Shrunk(d0, d1) && Shrunk(d1, d2)
    ensures Shrunk(d0, d2)
  {
  }

  lemma RevisedShrunk(cw: Crossword, d0: map<Variable, set<Word>>, d1: map<Variable, set<Word>>,
                      x: Variable, y: Variable)
    requires (x, y) in cw.overlaps && x in d0 && y in d0
    requires RevisedFrom(cw, d0, d1, x, y)
    ensures Shrunk(d0, d1)
  {
  }

  /** The worklist invariant of AC-3 (for the run over all arcs): every arc
      of the crossword is pending or consistent. */
  ghost predicate ArcsTracked(cw: Crossword, d: map<Variable, set<Word>>, pending: set<(Variable, Variable)>)
  {
    forall p | p in cw.overlaps :: p in pending || ArcOk(cw, d, p)
  }

  lemma TrackedSplit(cw: Crossword, d: map<Variable, set<Word>>, pending: set<(Variable, Variable)>,
                     pair: (Variable, Variable))
    requires ArcsTracked(cw, d, pending)
    ensures forall p | p in cw.overlaps && p !in pending - {pair} && p != pair :: ArcOk(cw, d, p)
  {
  }

  /** The worklist invariant of AC-3 survives one revision: every arc is
      either still pending or consistent. */
  lemma ArcsAfterRevise(cw: Crossword, d0: map<Variable, set<Word>>, d1: map<Variable, set<Word>>,
                        x: Variable, y: Variable, pending0: set<(Variable, Variable)>,
                        pending: set<(Variable, Variable)>)
    requires cw.Valid() && Covers(cw, d0) && (x, y) in cw.overlaps
    requires RevisedFrom(cw, d0, d1, x, y) && Shrunk(d0, d1)
    requires forall p | p in cw.overlaps && p !in pending0 && p != (x, y) :: ArcOk(cw, d0, p)
    requires pending0 <= pending
    requires d1[x] != d0[x] ==> forall z | z in cw.Neighbors(x) :: (z, x) in pending
    ensures Covers(cw, d1)
    ensures ArcsTracked(cw, d1, pending)
  {
    if d1[x] != d0[x] {
      NeighborArcsPending(cw, x, pending);
    }
    forall p | p in cw.overlaps && p !in pending
      ensures ArcOk(cw, d1, p)
    {
      assert p !in pending0;
      ArcOkAfterRevise(cw, d0, d1, x, y, p);
    }
  }

  /** One arc p that is not pending after the revision of (x, y) is
      consistent afterwards. */
  lemma ArcOkAfterRevise(cw: Crossword, d0: map<Variable, set<Word>>, d1: map<Variable, set<Word>>,
                         x: Variable, y: Variable, p: (Variable, Variable))
    requires cw.Valid() && Covers(cw, d0) && (x, y) in cw.overlaps && p in cw.overlaps
    requires RevisedFrom(cw, d0, d1, x, y) && Shrunk(d0, d1)
    requires p == (x, y) || ArcOk(cw, d0, p)
    requires p.1 == x && d1[x] != d0[x] ==> cw.overlaps[p].None?
    ensures ArcOk(cw, d1, p)
  {
    if p == (x, y) {
      assert d1[y] == d0[y];
    } else if p.1 == x && d1[x] == d0[x] {
      assert d1[p.0] == d0[p.0];
    } else if p.1 != x {
      assert d1[p.1] == d0[p.1];
    }
  }

  lemma NeighborArcsPending(cw: Crossword, x: Variable, pending: set<(Variable, Variable)>)
    requires cw.Valid() && x in cw.variables
    requires forall z | z in cw.Neighbors(x) :: (z, x) in pending
    ensures forall p | p in cw.overlaps && p.1 == x && cw.overlaps[p].Some? :: p in pending
  {
    forall p | p in cw.overlaps && p.1 == x && cw.overlaps[p].Some?
      ensures p in pending
    {
      assert (p.1, p.0) in cw.overlaps && cw.overlaps[(p.1, p.0)] == Flip(cw.overlaps[p]);
      assert p.0 in cw.Neighbors(x);
    }
  }

  /** Revising a consistent arc removes nothing. */
  lemma ReviseArcConsistent(cw: Crossword, d0: map<Variable, set<Word>>, d1: map<Variable, set<Word>>,
                            x: Variable, y: Variable)
    requires (x, y) in cw.overlaps && x in d0 && y in d0
    requires RevisedFrom(cw, d0, d1, x, y) && ArcOk(cw, d0, (x, y))
    ensures d1 == d0
  {
    if cw.overlaps[(x, y)].Some? {
      assert d1[x] == d0[x];
    }
  }

  /** A revision that changed nothing left every domain as it was. */
  lemma UnrevisedSame(cw: Crossword, d0: map<Variable, set<Word>>, d1: map<Variable, set<Word>>,
                      x: Variable, y: Variable)
    requires (x, y) in cw.overlaps && x in d0 && y in d0
    requires RevisedFrom(cw, d0, d1, x, y) && d1[x] == d0[x]
    ensures d1 == d0
  {
  }

  // ---------------------------------------------------------------------
  // letter_grid

  /** A grid of letters: rows of cells, None where nothing was written. */
  type Grid = seq<seq<Option<char>>>

  /** `[[None for _ in range(width)] for _ in range(height)]` */
  function EmptyGrid(height: nat, width: nat): (g: Grid)
    ensures |g| == height && forall r | 0 <= r < height :: |g[r]| == width
    ensures forall r, c | 0 <= r < height && 0 <= c < width :: g[r][c] == None
  {
    seq(height, _ => seq(width, _ => None))
  }

  /** The cell formula of `letter_grid`, one coordinate per direction. */
  lemma CellFormula(v: Variable, k: int)
    ensures CellOf(v, k) == (v.i + (if v.direction == Down then k else 0), v.j + (if v.direction == Across then k else 0))
  {
  }

  /** `letters[i][j] = ch` */
  function WriteCell(g: Grid, cell: (int, int), ch: char): (r: Result<Grid, PyError>)
  {
    match PyIndex(cell.0, |g|)
    case None => Err(IndexError)
    case Some(ri) =>
      match PyIndex(cell.1, |g[ri]|)
      case None => Err(IndexError)
      case Some(rj) => Ok(g[ri := g[ri][rj := Some(ch)]])
  }

  /** The inner loop of `letter_grid`: letters k.. of word w of slot v. */
  function PaintFrom(g: Grid, v: Variable, w: Word, k: nat): Result<Grid, PyError>
    requires k <= |w|
    decreases |w| - k
  {
    if k == |w| then Ok(g)
    else
      match WriteCell(g, CellOf(v, k), w[k])
      case Err(e) => Err(e)
      case Ok(g1) => PaintFrom(g1, v, w, k + 1)
  }

  /** The outer loop of `letter_grid` over the keys ks, in insertion order. */
  function PaintAll(g: Grid, a: Assignment, ks: seq<Variable>): Result<Grid, PyError>
    requires forall v | v in ks :: v in a.values
    decreases |ks|
  {
    if ks == [] then Ok(g)
    else
      match a.values[ks[0]]
      case None => Err(TypeError)                       // len(None)
      case Some(w) =>
        match PaintFrom(g, ks[0], w, 0)
        case Err(e) => Err(e)
        case Ok(g1) => PaintAll(g1, a, ks[1..])
  }

  /** The grid has the crossword's dimensions. */
  ghost predicate Shaped(cw: Crossword, g: Grid)
  {
    |g| == cw.height && forall r | 0 <= r < |g| :: |g[r]| == cw.width
  }

  ghost predicate InGrid(cw: Crossword, cell: (int, int))
  {
    0 <= cell.0 < cw.height && 0 <= cell.1 < cw.width
  }

  /** Writing a cell inside the grid changes that cell and no other. */
  lemma WriteCellInGrid(cw: Crossword, g: Grid, cell: (int, int), ch: char)
    requires Shaped(cw, g) && InGrid(cw, cell)
    ensures WriteCell(g, cell, ch).Ok?
    ensures Shaped(cw, WriteCell(g, cell, ch).value)
    ensures WriteCell(g, cell, ch).value[cell.0][cell.1] == Some(ch)
    ensures forall r, c | InGrid(cw, (r, c)) && (r, c) != cell ::
              WriteCell(g, cell, ch).value[r][c] == g[r][c]
  {
  }

  /** Painting a word whose cells all lie in the grid writes exactly its
      letters k.. and leaves every other cell alone. */
  lemma {:induction false} PaintFromInGrid(cw: Crossword, g: Grid, v: Variable, w: Word, k: nat)
    requires Shaped(cw, g) && k <= |w|
    requires forall j | k <= j < |w| :: InGrid(cw, CellOf(v, j))
    ensures PaintFrom(g, v, w, k).Ok?
    ensures Shaped(cw, PaintFrom(g, v, w, k).value)
    ensures forall j | k <= j < |w| && InGrid(cw, CellOf(v, j)) ::
              PaintFrom(g, v, w, k).value[CellOf(v, j).0][CellOf(v, j).1] == Some(w[j])
    ensures forall r, c | InGrid(cw, (r, c)) && (forall j | k <= j < |w| :: CellOf(v, j) != (r, c)) ::
              PaintFrom(g, v, w, k).value[r][c] == g[r][c]
    decreases |w| - k
  {
    if k < |w| {
      WriteCellInGrid(cw, g, CellOf(v, k), w[k]);
      var g1 := WriteCell(g, CellOf(v, k), w[k]).value;
      PaintFromInGrid(cw, g1, v, w, k + 1);
      forall j | k < j < |w| ensures CellOf(v, j) != CellOf(v, k) {
      }
    }
  }

  /** Under a consistent assignment whose keys done have been painted, every
      cell of every painted slot shows its letter and no other cell was
      written. */
  ghost predicate Shows(cw: Crossword, a: Assignment, g: Grid, done: seq<Variable>)
    requires Shaped(cw, g) && AllSome(a)
    requires forall v | v in done :: v in a.values
  {
    && (forall v, j | v in done && 0 <= j < |a.values[v].value| && InGrid(cw, CellOf(v, j)) ::
          g[CellOf(v, j).0][CellOf(v, j).1] == Some(a.values[v].value[j]))
    && (forall r, c | InGrid(cw, (r, c))
                      && (forall v, j | v in done && 0 <= j < |a.values[v].value| :: CellOf(v, j) != (r, c)) ::
          g[r][c] == None)
  }

  /** The setting of `letter_grid`'s partner lemma: a crossword whose overlaps
      match its geometry and a consistent assignment with no None value. */
  ghost predicate Fits(cw: Crossword, a: Assignment)
  {
    && cw.Valid() && cw.Geometric() && a.Valid() && KeysAreSlots(cw, a)
    && AllSome(a) && IsConsistent(cw, Words(a))
  }

  /** Every letter of the assignment falls inside the grid. */
  ghost predicate AllInGrid(cw: Crossword, a: Assignment)
    requires AllSome(a)
  {
    forall v, j | v in a.values && 0 <= j < |a.values[v].value| :: InGrid(cw, CellOf(v, j))
  }

  /** Two letters of the assignment written to the same cell are equal. */
  ghost predicate CellsAgree(a: Assignment)
    requires AllSome(a)
  {
    forall u, j, v, k | u in a.values && v in a.values && 0 <= j < |a.values[u].value| && 0 <= k < |a.values[v].value|
                        && CellOf(u, j) == CellOf(v, k) ::
      a.values[u].value[j] == a.values[v].value[k]
  }

  /** Two slots of a consistent assignment that share a cell write the same
      letter there. */
  lemma SharedCellAgrees(cw: Crossword, a: Assignment, u: Variable, j: nat, v: Variable, k: nat)
    requires Fits(cw, a) && u in a.values && v in a.values
    requires j < |a.values[u].value| && k < |a.values[v].value|
    requires CellOf(u, j) == CellOf(v, k)
    ensures a.values[u].value[j] == a.values[v].value[k]
  {
    var s := Words(a);
    assert u in s && v in s;
    if u == v {
      assert j == k;
    } else {
      assert (u, v) in cw.overlaps;
      assert cw.overlaps[(u, v)] == Some((j, k));
      assert Agree(s[u], s[v], (j, k));
    }
  }

  lemma FitsAgree(cw: Crossword, a: Assignment)
    requires Fits(cw, a)
    ensures CellsAgree(a)
  {
    forall u, j, v, k | u in a.values && v in a.values && 0 <= j < |a.values[u].value| && 0 <= k < |a.values[v].value|
                        && CellOf(u, j) == CellOf(v, k)
      ensures a.values[u].value[j] == a.values[v].value[k]
    {
      SharedCellAgrees(cw, a, u, j, v, k);
    }
  }

  lemma FitsInGrid(cw: Crossword, a: Assignment)
    requires Fits(cw, a)
    ensures AllInGrid(cw, a)
  {
    forall v, j | v in a.values && 0 <= j < |a.values[v].value|
      ensures InGrid(cw, CellOf(v, j))
    {
      assert v in Words(a);
    }
  }

  lemma ShowsStep(cw: Crossword, a: Assignment, g: Grid, done: seq<Variable>, v: Variable)
    requires AllSome(a) && AllInGrid(cw, a) && CellsAgree(a) && Shaped(cw, g)
    requires forall u | u in done :: u in a.values
    requires v in a.values && v !in done
    requires Shows(cw, a, g, done)
    ensures PaintFrom(g, v, a.values[v].value, 0).Ok?
    ensures Shaped(cw, PaintFrom(g, v, a.values[v].value, 0).value)
    ensures Shows(cw, a, PaintFrom(g, v, a.values[v].value, 0).value, done + [v])
  {
    var w := a.values[v].value;
    PaintFromInGrid(cw, g, v, w, 0);
    var g1 := PaintFrom(g, v, w, 0).value;
    assert forall u :: u in done + [v] <==> u in done || u == v;
    forall u, j | u in done + [v] && 0 <= j < |a.values[u].value| && InGrid(cw, CellOf(u, j))
      ensures g1[CellOf(u, j).0][CellOf(u, j).1] == Some(a.values[u].value[j])
    {
      if u != v {
        var cell := CellOf(u, j);
        if k :| 0 <= k < |w| && CellOf(v, k) == cell {
          assert a.values[u].value[j] == w[k];
        }
      }
    }
  }

  lemma PaintAllCons(g: Grid, a: Assignment, ks: seq<Variable>)
    requires forall v | v in ks :: v in a.values
    requires ks != [] && a.values[ks[0]].Some? && PaintFrom(g, ks[0], a.values[ks[0]].value, 0).Ok?
    ensures PaintAll(g, a, ks) == PaintAll(PaintFrom(g, ks[0], a.values[ks[0]].value, 0).value, a, ks[1..])
  {
  }

  lemma ConsTail<T>(d: seq<T>, ks: seq<T>)
    requires ks != []
    ensures (d + [ks[0]]) + ks[1..] == d + ks
  {
    assert ks == [ks[0]] + ks[1..];
  }

  lemma SliceCons<T>(s: seq<T>, n: nat)
    requires n < |s|
    ensures s[n..] != [] && s[n..][0] == s[n] && s[n..][1..] == s[n + 1..]
  {
  }

  lemma TailMembers(ks: seq<Variable>)
    requires Distinct(ks) && ks != []
    ensures Distinct(ks[1..])
    ensures forall u | u in ks[1..] :: u in ks && u != ks[0]
  {
    forall u | u in ks[1..] ensures u in ks && u != ks[0] {
      var l :| 0 <= l < |ks[1..]| && ks[1..][l] == u;
      assert ks[l + 1] == u;
    }
  }

  lemma {:induction false} PaintAllShows(cw: Crossword, a: Assignment, g: Grid, done: seq<Variable>, ks: seq<Variable>)
    requires AllSome(a) && AllInGrid(cw, a) && CellsAgree(a) && Shaped(cw, g)
    requires forall u | u in done :: u in a.values
    requires forall u | u in ks :: u in a.values && u !in done
    requires Distinct(ks)
    requires Shows(cw, a, g, done)
    ensures PaintAll(g, a, ks).Ok?
    ensures Shaped(cw, PaintAll(g, a, ks).value)
    ensures Shows(cw, a, PaintAll(g, a, ks).value, done + ks)
    decreases |ks|
  {
    if ks == [] {
      assert done + ks == done;
    } else {
      var v := ks[0];
      ShowsStep(cw, a, g, done, v);
      PaintAllCons(g, a, ks);
      TailMembers(ks);
      PaintAllShows(cw, a, PaintFrom(g, v, a.values[v].value, 0).value, done + [v], ks[1..]);
      ConsTail(done, ks);
    }
  }

  /** `letter_grid` on a consistent assignment with no None value: no
      exception, the crossword's dimensions, every slot's letters in its
      cells, and None in every cell no slot covers. */
  lemma LetterGridShows(cw: Crossword, a: Assignment)
    requires Fits(cw, a)
    ensures PaintAll(EmptyGrid(cw.height, cw.width), a, a.order).Ok?
    ensures Shaped(cw, PaintAll(EmptyGrid(cw.height, cw.width), a, a.order).value)
    ensures forall v, j | v in a.values && 0 <= j < |a.values[v].value| ::
              var cell := CellOf(v, j);
              PaintAll(EmptyGrid(cw.height, cw.width), a, a.order).value[cell.0][cell.1] == Some(a.values[v].value[j])
    ensures forall r, c | InGrid(cw, (r, c))
                          && (forall v, j | v in a.values && 0 <= j < |a.values[v].value| :: CellOf(v, j) != (r, c)) ::
              PaintAll(EmptyGrid(cw.height, cw.width), a, a.order).value[r][c] == None
  {
    var g := EmptyGrid(cw.height, cw.width);
    FitsAgree(cw, a);
    FitsInGrid(cw, a);
    PaintAllShows(cw, a, g, [], a.order);
    assert [] + a.order == a.order;
  }

  /** Dropping the words of the wrong length loses no solution. */
  lemma NodeConsistencyKeepsSolutions(cw: Crossword, d0: map<Variable, set<Word>>, d1: map<Variable, set<Word>>)
    requires d1.Keys == d0.Keys
    requires forall v | v in d1 :: forall w :: w in d1[v] <==> w in d0[v] && |w| == v.length
    ensures KeepsSolutions(cw, d0, d1)
  {
    forall s: map<Variable, Word> | IsSolution(cw, s) && Within(s, d0)
      ensures Within(s, d1)
    {
      forall v | v in s ensures v in d1 && s[v] in d1[v] {
        assert |s[v]| == v.length;
      }
    }
  }

  /** A complete assignment that `consistent` accepts (or the empty one of a
      crossword without slots) is a solution drawn from the candidates. */
  lemma SolvedIsSolution(cw: Crossword, domains: map<Variable, set<Word>>, a: Assignment)
    requires cw.Valid() && Sound(cw, domains, a)
    requires forall v | v in domains :: domains[v] <= cw.words
    requires AssignmentComplete(cw, a)
    requires a == EmptyAssignment || Consistent(cw, a) == Ok(true)
    ensures AllSome(a) && IsSolution(cw, Words(a))
    ensures forall v | v in Words(a) :: Words(a)[v] in cw.words
  {
    if a != EmptyAssignment {
      ConsistentMeaning(cw, a);
    }
  }

  /** The inner loop of `letter_grid`: write the letters of word w into
      the cells of slot v. */
  method PaintWord(g: Grid, v: Variable, w: Word) returns (r: Result<Grid, PyError>)
    ensures r == PaintFrom(g, v, w, 0)
  {
    var letters := g;
    for k := 0 to |w|
      invariant PaintFrom(letters, v, w, k) == PaintFrom(g, v, w, 0)
    {
      var i := v.i + (if v.direction == Down then k else 0);
      var j := v.j + (if v.direction == Across then k else 0);
      CellFormula(v, k);
      var ri := PyIndex(i, |letters|);
      if ri.None? {
        return Err(IndexError);
      }
      var rj := PyIndex(j, |letters[ri.value]|);
      if rj.None? {
        return Err(IndexError);
      }
      letters := letters[ri.value := letters[ri.value][rj.value := Some(w[k])]];
    }
    return Ok(letters);
  }

  /** The inner loop of `revise`: look through ys for a partner of xVal,
      stopping at the first one found. */
  method FindPartner(xVal: Word, ys: set<Word>, ov: (nat, nat)) returns (found: bool)
    requires ov.0 < |xVal| && forall u | u in ys :: ov.1 < |u|
    ensures found <==> Supported(xVal, ys, ov)
  {
    found := false;
    var rest := ys;
    while rest != {}
      invariant rest <= ys
      invariant forall u | u in ys - rest :: !(u != xVal && Agree(xVal, u, ov))
      decreases rest
    {
      var yVal :| yVal in rest;
      rest := rest - {yVal};
      if xVal[ov.0] == yVal[ov.1] && xVal != yVal {
        found := true;
        break;
      }
    }
  }

  class CrosswordCreator {
    const crossword: Crossword
    var domains: map<Variable, set<Word>>

    ghost predicate Valid()
      reads this
    {
      && crossword.Valid()
      && (forall v :: v in domains <==> v in crossword.variables)
      && (forall v | v in domains :: domains[v] <= crossword.words)
    }

    /** Every slot starts with the whole word pool. */
    constructor (crossword: Crossword)
      requires crossword.Valid()
      ensures Valid() && this.crossword == crossword
      ensures forall v | v in crossword.variables :: v in domains && domains[v] == crossword.words
    {
      this.crossword := crossword;
      domains := map v | v in crossword.variables :: crossword.words;
    }

    /** The removal loop shared by `enforce_node_consistency` and `revise`:
        `self.domains[v].remove(value)` for each value collected. */
    method RemoveValues(v: Variable, values: set<Word>)
      requires Valid() && v in domains && values <= domains[v]
      modifies this
      ensures Valid()
      ensures domains.Keys == old(domains).Keys
      ensures domains[v] == old(domains)[v] - values
      ensures forall u | u in domains && u != v :: domains[u] == old(domains)[u]
    {
      var rem := values;
      while rem != {}
        invariant Valid() && rem <= values
        invariant domains.Keys == old(domains).Keys
        invariant domains[v] == old(domains)[v] - (values - rem)
        invariant forall u | u in domains && u != v :: domains[u] == old(domains)[u]
        decreases rem
      {
        var value :| value in rem;
        domains := domains[v := domains[v] - {value}];
        rem := rem - {value};
      }
    }

    /** `enforce_node_consistency`: each slot keeps exactly its candidates
        of the right length. */
    method EnforceNodeConsistency()
      requires Valid()
      modifies this
      ensures Valid() && NodeConsistent(domains)
      ensures domains.Keys == old(domains).Keys
      ensures forall v | v in domains :: forall w :: w in domains[v] <==> w in old(domains)[v] && |w| == v.length
    {
      var todo := domains.Keys;
      while todo != {}
        invariant Valid()
        invariant todo <= domains.Keys && domains.Keys == old(domains).Keys
        invariant forall v | v in domains && v in todo :: domains[v] == old(domains)[v]
        invariant forall v | v in domains && v !in todo ::
                    forall w :: w in domains[v] <==> w in old(domains)[v] && |w| == v.length
        decreases todo
      {
        var variable :| variable in todo;
        var varsToRemove: set<Word> := {};
        var scan := domains[variable];
        while scan != {}
          invariant scan <= domains[variable]
          invariant forall w :: w in varsToRemove <==> w in domains[variable] - scan && |w| != variable.length
          decreases scan
        {
          var value :| value in scan;
          scan := scan - {value};
          if |value| != variable.length {
            varsToRemove := varsToRemove + {value};
          }
        }
        RemoveValues(variable, varsToRemove);
        todo := todo - {variable};
      }
    }

    /** `revise(x, y)`: drop from x every word with no partner in y. */
    method Revise(x: Variable, y: Variable) returns (revised: bool)
      requires Valid() && NodeConsistent(domains) && (x, y) in crossword.overlaps
      modifies this
      ensures Valid() && NodeConsistent(domains)
      ensures RevisedFrom(crossword, old(domains), domains, x, y)
      ensures crossword.overlaps[(x, y)].None? ==> !revised
      ensures revised <==> domains[x] != old(domains)[x]
    {
      var overlap := crossword.overlaps[(x, y)];
      if overlap == None {
        return false;
      }
      var ov := overlap.value;
      var valuesToRemove: set<Word> := {};
      revised := false;
      var xs := domains[x];
      while xs != {}
        invariant domains == old(domains)
        invariant xs <= domains[x]
        invariant valuesToRemove <= domains[x] - xs
        invariant forall w | w in domains[x] - xs :: w in valuesToRemove <==> !Supported(w, domains[y], ov)
        invariant revised <==> valuesToRemove != {}
        decreases xs
      {
        var xVal :| xVal in xs;
        xs := xs - {xVal};
        var found := FindPartner(xVal, domains[y], ov);
        if !found {
          valuesToRemove := valuesToRemove + {xVal};
          revised := true;
        }
      }
      RemoveValues(x, valuesToRemove);
    }

    /** The arcs AC-3 starts from when none are given: (a, b) for every
        slot a and every neighbour b of a. */
    method InitialArcs() returns (pairs: set<(Variable, Variable)>)
      requires Valid()
      ensures forall p :: p in pairs <==> p in crossword.overlaps && crossword.overlaps[p].Some?
    {
      pairs := {};
      for k := 0 to |crossword.variables|
        invariant forall p :: p in pairs <==>
                    p in crossword.overlaps && crossword.overlaps[p].Some? && p.0 in crossword.variables[..k]
      {
        var varA := crossword.variables[k];
        assert forall u :: u in crossword.variables[..k + 1] <==> u in crossword.variables[..k] || u == varA;
        var rest := crossword.Neighbors(varA);
        while rest != {}
          invariant rest <= crossword.Neighbors(varA)
          invariant forall p :: p in pairs <==>
                      || (p in crossword.overlaps && crossword.overlaps[p].Some? && p.0 in crossword.variables[..k])
                      || (p.0 == varA && p.1 in crossword.Neighbors(varA) - rest)
          decreases rest
        {
          var varB :| varB in rest;
          rest := rest - {varB};
          pairs := pairs + {(varA, varB)};
        }
      }
      assert crossword.variables[..|crossword.variables|] == crossword.variables;
    }

    /** Put the arc (z, x) on the worklist for every neighbour z of x. */
    method EnqueueNeighbors(x: Variable, pending: set<(Variable, Variable)>) returns (r: set<(Variable, Variable)>)
      requires Valid() && x in crossword.variables
      requires forall p | p in pending :: p in crossword.overlaps
      ensures forall p | p in r :: p in crossword.overlaps
      ensures pending <= r
      ensures forall p | p in r - pending :: p.1 == x && p.0 in crossword.Neighbors(x)
      ensures forall z | z in crossword.Neighbors(x) :: (z, x) in r
    {
      r := pending;
      var rest := crossword.Neighbors(x);
      while rest != {}
        invariant rest <= crossword.Neighbors(x)
        invariant pending <= r
        invariant forall p | p in r :: p in crossword.overlaps
        invariant forall p | p in r - pending :: p.1 == x && p.0 in crossword.Neighbors(x)
        invariant forall z | z in crossword.Neighbors(x) - rest :: (z, x) in r
        decreases rest
      {
        var neighbor :| neighbor in rest;
        assert (x, neighbor) in crossword.overlaps;
        rest := rest - {neighbor};
        r := r + {(neighbor, x)};
      }
    }

    /** One turn of the loop of `ac3`: revise the arc taken off the
        worklist and, when x lost candidates but still has some, put the
        arcs into x back on the worklist. */
    method ReviseArc(pair: (Variable, Variable), pending: set<(Variable, Variable)>)
      returns (r: set<(Variable, Variable)>, emptied: bool)
      requires Valid() && NodeConsistent(domains) && pair in pending
      requires forall p | p in pending :: p in crossword.overlaps
      modifies this
      ensures Valid() && NodeConsistent(domains)
      ensures Shrunk(old(domains), domains)
      ensures KeepsSolutions(crossword, old(domains), domains)
      ensures emptied ==> domains[pair.0] == {}
      ensures !emptied ==> pending - {pair} <= r && forall p | p in r :: p in crossword.overlaps
      ensures !emptied ==> Footprint(domains) < Footprint(old(domains)) || (domains == old(domains) && r == pending - {pair})
      ensures !emptied && ArcsTracked(crossword, old(domains), pending) ==> ArcsTracked(crossword, domains, r)
      ensures ArcConsistent(crossword, old(domains)) ==> !emptied && domains == old(domains) && r == pending - {pair}
    {
      var rest := pending - {pair};
      ghost var before := domains;
      var revised := Revise(pair.0, pair.1);
      if ArcConsistent(crossword, before) {
        assert ArcOk(crossword, before, pair);
        ReviseArcConsistent(crossword, before, domains, pair.0, pair.1);
      }
      ReviseKeepsSolutions(crossword, before, domains, pair.0, pair.1);
      RevisedShrunk(crossword, before, domains, pair.0, pair.1);
      r, emptied := rest, false;
      if revised {
        FootprintShrinks(before, domains, pair.0);
        if |domains[pair.0]| == 0 {
          return r, true;
        }
        r := EnqueueNeighbors(pair.0, rest);
      } else {
        UnrevisedSame(crossword, before, domains, pair.0, pair.1);
      }
      if ArcsTracked(crossword, before, pending) {
        TrackedSplit(crossword, before, pending, pair);
        ArcsAfterRevise(crossword, before, domains, pair.0, pair.1, rest, r);
      }
    }

    /** `ac3`: AC-3 over a worklist of arcs, taken out in arbitrary order. */
    method AC3(arcs: Option<set<(Variable, Variable)>>) returns (ok: bool)
      requires Valid() && NodeConsistent(domains)
      requires arcs.Some? ==> forall p | p in arcs.value :: p in crossword.overlaps
      modifies this
      ensures Valid() && NodeConsistent(domains)
      ensures Shrunk(old(domains), domains)
      ensures KeepsSolutions(crossword, old(domains), domains)
      ensures !ok ==> exists v | v in domains :: domains[v] == {}
      ensures ok && arcs.None? ==> ArcConsistent(crossword, domains)
      ensures ArcConsistent(crossword, old(domains)) ==> ok && domains == old(domains)
    {
      var pairsToProcess: set<(Variable, Variable)>;
      if arcs.None? {
        pairsToProcess := InitialArcs();
      } else {
        pairsToProcess := arcs.value;
      }
      ghost var stable := ArcConsistent(crossword, domains);
      while pairsToProcess != {}
        invariant Valid() && NodeConsistent(domains)
        invariant Shrunk(old(domains), domains)
        invariant KeepsSolutions(crossword, old(domains), domains)
        invariant forall p | p in pairsToProcess :: p in crossword.overlaps
        invariant arcs.None? ==> ArcsTracked(crossword, domains, pairsToProcess)
        invariant stable ==> domains == old(domains)
        decreases Footprint(domains), pairsToProcess
      {
        var pair :| pair in pairsToProcess;
        ghost var before := domains;
        var emptied;
        pairsToProcess, emptied := ReviseArc(pair, pairsToProcess);
        KeepsSolutionsTrans(crossword, old(domains), before, domains);
        ShrunkTrans(old(domains), before, domains);
        if emptied {
          return false;
        }
      }
      return true;
    }

    /** `letter_grid`: the grid of letters an assignment writes, keys in
        insertion order, with Python's list indexing. */
    method LetterGrid(a: Assignment) returns (r: Result<Grid, PyError>)
      requires a.Valid()
      ensures r == PaintAll(EmptyGrid(crossword.height, crossword.width), a, a.order)
    {
      var letters := EmptyGrid(crossword.height, crossword.width);
      ghost var spec := PaintAll(letters, a, a.order);
      for n := 0 to |a.order|
        invariant PaintAll(letters, a, a.order[n..]) == spec
      {
        var variable := a.order[n];
        SliceCons(a.order, n);
        var word := a.values[variable];
        if word.None? {
          return Err(TypeError);
        }
        var painted := PaintWord(letters, variable, word.value);
        if painted.Err? {
          return Err(painted.error);
        }
        letters := painted.value;
      }
      assert a.order[|a.order|..] == [];
      return Ok(letters);
    }

    /** `backtrack`: the search works on one dict, shared by every level of
        the recursion; `result` is that dict when the call returns. A key
        whose words all failed is left bound to None, or to its last
        inconsistent word, so a later `consistent` may raise. */
    method Backtrack(a: Assignment) returns (r: Outcome, result: Assignment)
      requires Valid() && Sound(crossword, domains, a)
      ensures Sound(crossword, domains, result)
      ensures a.values.Keys <= result.values.Keys
      ensures r.Solved? ==> AssignmentComplete(crossword, result)
      ensures r.Solved? ==> result == a || Consistent(crossword, result) == Ok(true)
      decreases Unassigned(crossword, a)
    {
      if AssignmentComplete(crossword, a) {
        return Solved, a;
      }
      var v := SelectUnassignedVariable(crossword, domains, a).value;
      var values := domains[v];                         // order_domain_values
      result := a;
      while values != {}
        invariant Sound(crossword, domains, result)
        invariant a.values.Keys <= result.values.Keys
        invariant values <= domains[v]
        decreases values
      {
        var value :| value in values;
        values := values - {value};
        SetSound(crossword, domains, result, v, Some(value));
        result := result.Set(v, Some(value));
        var c := Consistent(crossword, result);
        if c.Err? {
          return Raised(c.error), result;
        }
        if c.value {
          UnassignedShrinks(crossword, a, result, v);
          var sub, after := Backtrack(result);
          result := after;
          if sub.Solved? {
            return Solved, result;
          }
          if sub.Raised? {
            return sub, result;
          }
          SetSound(crossword, domains, result, v, None);
          result := result.Set(v, None);
        }
      }
      return NoSolution, result;
    }

    /** `solve`: node consistency, then AC-3 (whose answer is not looked
        at), then backtracking from an empty assignment. A solution it
        reports fills every slot with a word of the pool and meets all
        three constraints. */
    method Solve() returns (r: Outcome, a: Assignment)
      requires Valid()
      modifies this
      ensures Valid() && NodeConsistent(domains)
      ensures KeepsSolutions(crossword, old(domains), domains)
      ensures r.Solved? ==> AllSome(a) && IsSolution(crossword, Words(a))
      ensures r.Solved? ==> forall v | v in Words(a) :: Words(a)[v] in crossword.words
    {
      EnforceNodeConsistency();
      NodeConsistencyKeepsSolutions(crossword, old(domains), domains);
      ghost var mid := domains;
      var _ := AC3(None);
      KeepsSolutionsTrans(crossword, old(domains), mid, domains);
      r, a := Backtrack(EmptyAssignment);
      if r.Solved? {
        SolvedIsSolution(crossword, domains, a);
      }
    }
  }
}
