/** Noun-phrase chunking over a parse tree. A tree node has a label and a
    list of children, each a tree or a word; words have no label. A chunk
    is a subtree labelled "NP" with no other "NP" subtree below it. */
module Parser {
  import opened Wrappers

  datatype Tree = Node(tag: string, children: seq<Tree>) | Leaf(word: string)

  predicate IsNP(t: Tree) {
    t.Node? && t.tag == "NP"
  }

  /** The height of a tree, as the tree library counts it: a word counts
      one, a node one more than its highest child. */
  function Height(t: Tree): (r: nat)
    ensures r >= 1
    decreases t, 1
  {
    match t
    case Leaf(_) => 1
    case Node(_, _) => 1 + HeightFrom(t, 0)
  }

  /** The greatest height among the children of `t` from position i on. */
  function HeightFrom(t: Tree, i: nat): nat
    requires t.Node? && i <= |t.children|
    decreases t, 0, |t.children| - i
  {
    if i == |t.children| then 0
    else
      var h := Height(t.children[i]);
      var rest := HeightFrom(t, i + 1);
      if h > rest then h else rest
  }

  /** `t.subtrees()`: `t` and every tree below it, in pre-order; words are
      not trees and are skipped. */
  function Subtrees(t: Tree): (r: seq<Tree>)
    ensures t.Node? ==> |r| >= 1 && r[0] == t
    ensures t.Leaf? ==> r == []
    decreases t, 1
  {
    match t
    case Leaf(_) => []
    case Node(_, _) => [t] + SubtreesFrom(t, 0)
  }

  /** The subtrees of the children of `t` from position i on. */
  function SubtreesFrom(t: Tree, i: nat): seq<Tree>
    requires t.Node? && i <= |t.children|
    decreases t, 0, |t.children| - i
  {
    if i == |t.children| then [] else Subtrees(t.children[i]) + SubtreesFrom(t, i + 1)
  }

  /** `list(t.subtrees())` with `t` removed: removing the first element equal
      to `t` drops the head of the pre-order list. */
  function ProperSubtrees(t: Tree): (r: seq<Tree>)
    requires t.Node?
    ensures r == Subtrees(t)[1..]
  {
    SubtreesFrom(t, 0)
  }

  /** `containsNP(subtrees)`: the scan that stops at the first "NP". */
  function ContainsNP(ts: seq<Tree>): (r: bool)
    ensures r <==> exists k :: 0 <= k < |ts| && IsNP(ts[k])
  {
    if ts == [] then false
    else if IsNP(ts[0]) then true
    else
      assert forall k :: 1 <= k < |ts| ==> ts[k] == ts[1..][k - 1];
      ContainsNP(ts[1..])
  }

  /** A noun-phrase chunk: an "NP" tree with no "NP" strictly below it. */
  predicate IsChunk(t: Tree) {
    IsNP(t) && !ContainsNP(ProperSubtrees(t))
  }

  // ---------------------------------------------------------------- as written

  /** `np_chunk(tree)` as the program has it. Each child is asked for its
      label, so a word child raises AttributeError. An "NP" child is kept
      when no "NP" lies below it and is otherwise dropped without being
      searched; any other child is searched only when its height exceeds 2. */
  function NpChunk(t: Tree): (r: Result<seq<Tree>, PyError>)
    requires t.Node?
    ensures r.Ok? ==> forall c :: c in r.value ==> IsChunk(c) && c in ProperSubtrees(t)
    ensures r.Err? ==> r.error == AttributeError
    ensures (exists c :: c in t.children && c.Leaf?) ==> r.Err?
    decreases t, |t.children| + 1
  {
    NpChunkFrom(t, 0)
  }

  /** The loop of `np_chunk` over the children of `t` from position i on. */
  function NpChunkFrom(t: Tree, i: nat): (r: Result<seq<Tree>, PyError>)
    requires t.Node? && i <= |t.children|
    ensures r.Ok? ==> forall c :: c in r.value ==> IsChunk(c) && c in SubtreesFrom(t, i)
    ensures r.Err? ==> r.error == AttributeError
    ensures (exists k :: i <= k < |t.children| && t.children[k].Leaf?) ==> r.Err?
    decreases t, |t.children| - i
  {
    if i == |t.children| then Ok([])
    else
      var part := t.children[i];
      if part.Leaf? then Err(AttributeError)
      else
        assert (exists k :: i <= k < |t.children| && t.children[k].Leaf?) ==>
               exists k :: i + 1 <= k < |t.children| && t.children[k].Leaf?;
        var found: Result<seq<Tree>, PyError> :=
          if part.tag == "NP" then
            if !ContainsNP(ProperSubtrees(part)) then Ok([part]) else Ok([])
          else if Height(part) > 2 then NpChunk(part)
          else Ok([]);
        match found
        case Err(e) => Err(e)
        case Ok(cs) =>
          match NpChunkFrom(t, i + 1)
          case Err(e) => Err(e)
          case Ok(rest) => Ok(cs + rest)
  }

  /** A size that every proper subtree is smaller in. */
  function Size(t: Tree): (r: nat)
    ensures r >= 1
    decreases t, 1
  {
    match t
    case Leaf(_) => 1
    case Node(_, _) => 1 + SizeFrom(t, 0)
  }

  function SizeFrom(t: Tree, i: nat): nat
    requires t.Node? && i <= |t.children|
    decreases t, 0, |t.children| - i
  {
    if i == |t.children| then 0 else Size(t.children[i]) + SizeFrom(t, i + 1)
  }

  lemma {:induction false} SubtreesSmaller(t: Tree)
    ensures forall c :: c in Subtrees(t) ==> Size(c) <= Size(t)
    ensures t.Node? ==> forall c :: c in ProperSubtrees(t) ==> Size(c) < Size(t)
    decreases t, 1
  {
    if t.Node? {
      SubtreesFromSmaller(t, 0);
    }
  }

  lemma {:induction false} SubtreesFromSmaller(t: Tree, i: nat)
    requires t.Node? && i <= |t.children|
    ensures forall c :: c in SubtreesFrom(t, i) ==> Size(c) <= SizeFrom(t, i)
    decreases t, 0, |t.children| - i
  {
    if i < |t.children| {
      SubtreesSmaller(t.children[i]);
      SubtreesFromSmaller(t, i + 1);
    }
  }

  /** The tree handed to `np_chunk` is never one of its chunks; only trees
      below it are. */
  lemma {:induction false} RootNotReturned(t: Tree)
    requires t.Node? && NpChunk(t).Ok?
    ensures t !in NpChunk(t).value
  {
    SubtreesSmaller(t);
  }

  // ---------------------------------------------------------------- corrected

  /** Every chunk among `ts`, in order. */
  function Chunks(ts: seq<Tree>): (r: seq<Tree>)
    ensures forall c :: c in r <==> c in ts && IsChunk(c)
  {
    if ts == [] then []
    else (if IsChunk(ts[0]) then [ts[0]] else []) + Chunks(ts[1..])
  }

  lemma {:induction false} ChunksAppend(a: seq<Tree>, b: seq<Tree>)
    ensures Chunks(a + b) == Chunks(a) + Chunks(b)
    decreases |a|
  {
    if a != [] {
      assert (a + b)[0] == a[0] && (a + b)[1..] == a[1..] + b;
      ChunksAppend(a[1..], b);
    } else {
      assert a + b == b;
    }
  }

  /** A list with no "NP" in it has no chunk in it. */
  lemma {:induction false} NoNPNoChunks(ts: seq<Tree>)
    requires !ContainsNP(ts)
    ensures Chunks(ts) == []
    decreases |ts|
  {
    if ts != [] {
      assert !IsNP(ts[0]);
      assert forall k :: 0 <= k < |ts[1..]| ==> ts[1..][k] == ts[k + 1];
      NoNPNoChunks(ts[1..]);
    }
  }

  /** `np_chunk` with nested noun phrases searched: an "NP" child that has
      an "NP" below it is searched like any other child, and word children
      are skipped instead of being asked for a label. */
  function FixedNpChunk(t: Tree): (r: seq<Tree>)
    requires t.Node?
    ensures forall c :: c in r ==> IsChunk(c) && c in ProperSubtrees(t)
    decreases t, |t.children| + 1
  {
    FixedNpChunkFrom(t, 0)
  }

  /** The loop of the corrected traversal over the children from position i on. */
  function FixedNpChunkFrom(t: Tree, i: nat): (r: seq<Tree>)
    requires t.Node? && i <= |t.children|
    ensures forall c :: c in r ==> IsChunk(c) && c in SubtreesFrom(t, i)
    decreases t, |t.children| - i
  {
    if i == |t.children| then []
    else
      var part := t.children[i];
      var found :=
        if part.Leaf? then []
        else if IsNP(part) && !ContainsNP(ProperSubtrees(part)) then [part]
        else FixedNpChunk(part);
      found + FixedNpChunkFrom(t, i + 1)
  }

  /** The corrected traversal returns exactly the chunks strictly below the
      tree, in pre-order. */
  lemma {:induction false} FixedNpChunkIsChunks(t: Tree)
    requires t.Node?
    ensures FixedNpChunk(t) == Chunks(ProperSubtrees(t))
    decreases t, |t.children| + 1
  {
    FixedNpChunkFromIsChunks(t, 0);
  }

  lemma {:induction false} FixedNpChunkFromIsChunks(t: Tree, i: nat)
    requires t.Node? && i <= |t.children|
    ensures FixedNpChunkFrom(t, i) == Chunks(SubtreesFrom(t, i))
    decreases t, |t.children| - i
  {
    if i < |t.children| {
      var part := t.children[i];
      FixedNpChunkFromIsChunks(t, i + 1);
      ChunksAppend(Subtrees(part), SubtreesFrom(t, i + 1));
      if part.Node? {
        FixedPartIsChunks(part);
      }
    }
  }

  /** What the corrected loop collects for one tree child is the chunks
      among the child's subtrees. */
  lemma {:induction false} FixedPartIsChunks(part: Tree)
    requires part.Node?
    ensures (if IsNP(part) && !ContainsNP(ProperSubtrees(part)) then [part] else FixedNpChunk(part))
            == Chunks(Subtrees(part))
    decreases part, |part.children| + 2
  {
    assert Subtrees(part) == [part] + ProperSubtrees(part);
    ChunksAppend([part], ProperSubtrees(part));
    assert Chunks([part]) == if IsChunk(part) then [part] else [];
    if IsNP(part) && !ContainsNP(ProperSubtrees(part)) {
      NoNPNoChunks(ProperSubtrees(part));
    } else {
      FixedNpChunkIsChunks(part);
    }
  }

  /** Whatever the program reports is also reported by the corrected
      traversal. */
  lemma {:induction false} NpChunkSound(t: Tree)
    requires t.Node? && NpChunk(t).Ok?
    ensures forall c :: c in NpChunk(t).value ==> c in FixedNpChunk(t)
  {
    FixedNpChunkIsChunks(t);
  }

  /** A node whose only child is a word, such as the tag of one word. */
  lemma Preterminal(x: Tree)
    requires x.Node? && |x.children| == 1 && x.children[0].Leaf?
    ensures ProperSubtrees(x) == [] && Subtrees(x) == [x]
    ensures FixedNpChunk(x) == [] && Height(x) == 2
  {
    assert SubtreesFrom(x, 1) == [];
    assert FixedNpChunkFrom(x, 1) == [];
    assert HeightFrom(x, 1) == 0;
    assert HeightFrom(x, 0) == 1;
  }

  /** The noun phrase "home" of the example below. */
  function Home(): Tree {
    Node("NP", [Node("N", [Leaf("home")])])
  }

  /** The phrase "in home". */
  function InHome(): Tree {
    Node("PP", [Node("P", [Leaf("in")]), Home()])
  }

  /** The noun phrase "holmes in home", which has "home" below it. */
  function HolmesInHome(): Tree {
    Node("NP", [Node("N", [Leaf("holmes")]), InHome()])
  }

  /** The verb phrase "sat". */
  function Sat(): Tree {
    Node("VP", [Node("V", [Leaf("sat")])])
  }

  /** The sentence "holmes in home sat". */
  function Example(): Tree {
    Node("S", [HolmesInHome(), Sat()])
  }

  lemma HomeFacts()
    ensures Subtrees(Home()) == [Home(), Home().children[0]]
    ensures IsChunk(Home())
  {
    var n := Home().children[0];
    Preterminal(n);
    assert SubtreesFrom(Home(), 1) == [];
    assert ProperSubtrees(Home()) == [n];
    assert !IsNP([n][0]);
  }

  lemma InHomeFacts()
    ensures Subtrees(InHome()) == [InHome(), InHome().children[0], Home(), Home().children[0]]
    ensures FixedNpChunk(InHome()) == [Home()]
  {
    var p := InHome().children[0];
    Preterminal(p);
    HomeFacts();
    assert SubtreesFrom(InHome(), 2) == [];
    assert SubtreesFrom(InHome(), 1) == [Home(), Home().children[0]];
    assert FixedNpChunkFrom(InHome(), 2) == [];
    assert FixedNpChunkFrom(InHome(), 1) == [Home()];
  }

  lemma HolmesInHomeFacts()
    ensures ContainsNP(ProperSubtrees(HolmesInHome()))
    ensures FixedNpChunk(HolmesInHome()) == [Home()]
  {
    var n := HolmesInHome().children[0];
    Preterminal(n);
    InHomeFacts();
    assert SubtreesFrom(HolmesInHome(), 2) == [];
    assert IsNP(ProperSubtrees(HolmesInHome())[3]);
    assert FixedNpChunkFrom(HolmesInHome(), 2) == [];
    assert FixedNpChunkFrom(HolmesInHome(), 1) == [Home()];
  }

  lemma SatFacts()
    ensures Height(Sat()) == 3
    ensures NpChunk(Sat()) == Ok([])
    ensures FixedNpChunk(Sat()) == []
  {
    var v := Sat().children[0];
    Preterminal(v);
    assert HeightFrom(Sat(), 1) == 0;
    assert NpChunkFrom(Sat(), 1) == Ok([]);
    assert FixedNpChunkFrom(Sat(), 1) == [];
  }

  /** The program reports no chunk for the example sentence, since its
      subject noun phrase has a noun phrase below it and is not searched. */
  lemma NestedNPMissed()
    ensures NpChunk(Example()) == Ok([])
  {
    HolmesInHomeFacts();
    SatFacts();
    assert Example().children[1] == Sat() && Sat().tag != "NP";
    assert NpChunkFrom(Example(), 2) == Ok([]);
    assert NpChunkFrom(Example(), 1) == Ok([]);
    assert Example().children[0] == HolmesInHome() && HolmesInHome().tag == "NP";
  }

  /** The corrected traversal reports "home" for the example sentence. */
  lemma NestedNPFound()
    ensures FixedNpChunk(Example()) == [Home()]
  {
    HolmesInHomeFacts();
    SatFacts();
    assert Example().children[1] == Sat() && !IsNP(Sat());
    assert FixedNpChunkFrom(Example(), 2) == [];
    assert FixedNpChunkFrom(Example(), 1) == [];
    assert Example().children[0] == HolmesInHome();
  }
}
