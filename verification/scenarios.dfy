/**
 * A worked example of the two analyses together:
 *
 *   x = 1; y = x + 1; if (y > 5) a = 1; else a = 2; return a;
 *
 * in three-address form, where the literals 1 and 5 are first loaded into the
 * temporaries `c1` and `c5`.  The IN facts constant propagation leaves are
 * given below and shown to follow from one another by the transfer and meet
 * functions: `y` is 2 at the branch, whose condition folds to 0, and dead-code
 * detection applied to those facts reports `a = 1` alone.
 */
module Scenarios {
  import opened JavaInt
  import opened Lattice
  import opened Ir
  import opened Facts
  import opened ConstantPropagation
  import opened DeadCodeDetection

  const x := Var("x", Primitive(INT))
  const y := Var("y", Primitive(INT))
  const a := Var("a", Primitive(INT))
  const c1 := Var("c1", Primitive(INT))
  const c5 := Var("c5", Primitive(INT))

  /** Statements by index: 0 is the entry and 9 the exit. */
  function StmtAt(n: Node): Stmt {
    if n == 1 then Assign(LVar(x), IntLiteral(1))
    else if n == 2 then Assign(LVar(c1), IntLiteral(1))
    else if n == 3 then Assign(LVar(y), Binary(Arithmetic(ADD), x, c1))
    else if n == 4 then Assign(LVar(c5), IntLiteral(5))
    else if n == 5 then If(GT, y, c5)
    else if n == 6 then Assign(LVar(a), IntLiteral(2))
    else if n == 7 then Assign(LVar(a), IntLiteral(1))
    else Other
  }

  /** Out-edges by index: the branch at 5 jumps to 7 when true and falls through to 6. */
  function EdgesAt(n: Node): seq<Edge> {
    if n == 5 then [Edge(IfTrue, 7, 0), Edge(IfFalse, 6, 0)]
    else if n == 6 then [Edge(Goto, 8, 0)]
    else if n == 8 then [Edge(Return, 9, 0)]
    else if n == 9 then []
    else [Edge(FallThrough, n + 1, 0)]
  }

  function Graph(): Cfg {
    Cfg(0, 9, map n | 0 <= n <= 9 :: StmtAt(n), map n | 0 <= n <= 9 :: EdgesAt(n))
  }

  /** The IN facts along the straight-line prefix. */
  function F2(): Fact { map[x := Constant(1)] }
  function F3(): Fact { F2()[c1 := Constant(1)] }
  function F4(): Fact { F3()[y := Constant(2)] }
  function F5(): Fact { F4()[c5 := Constant(5)] }

  /** The IN fact of each statement, as the dataflow solver leaves it. */
  function InFact(n: Node): Fact {
    if n <= 1 then map[]
    else if n == 2 then F2()
    else if n == 3 then F3()
    else if n == 4 then F4()
    else if n <= 7 then F5()
    else F5()[a := NAC]
  }

  function InFacts(): map<Node, Fact> {
    map n | 0 <= n <= 9 :: InFact(n)
  }

  /** Every variable is live after every statement, so no assignment is dropped as dead. */
  function LiveAt(n: Node): set<Var> {
    {x, y, a, c1, c5}
  }

  function LiveVars(): map<Node, set<Var>> {
    map n | 0 <= n <= 9 :: LiveAt(n)
  }

  /**
   * The IN facts are the transfers of one another along the straight-line
   * prefix, and the branch condition folds to 0 on the fact the branch sees.
   */
  lemma BranchFactsFollow()
    ensures F2() == Transfer(StmtAt(1), map[])
    ensures F3() == Transfer(StmtAt(2), F2())
    ensures F4() == Transfer(StmtAt(3), F3())
    ensures F5() == Transfer(StmtAt(4), F4())
    ensures ConditionValue(GT, y, c5, F5()) == Constant(0)
  {
    assert Add(1, 1) == 2;
    assert Transfer(StmtAt(3), F3()) == (F3() - {y})[y := Constant(2)];
  }

  /**
   * The IN facts after the branch follow too: the branch passes its fact to
   * both arms unchanged, the fact at the join is the pointwise meet of the two
   * arms' OUT facts, so `a` (2 on one arm, 1 on the other) is not a constant,
   * and the return passes that fact on to the exit.
   */
  lemma JoinFactsFollow()
    ensures InFacts()[6] == Transfer(StmtAt(5), InFacts()[5]) && InFacts()[7] == InFacts()[6]
    ensures forall v :: Lookup(InFacts()[8], v) ==
                        Meet(Lookup(Transfer(StmtAt(6), InFacts()[6]), v), Lookup(Transfer(StmtAt(7), InFacts()[7]), v))
    ensures InFacts()[9] == Transfer(StmtAt(8), InFacts()[8])
  {
    assert InFacts()[5] == F5() && InFacts()[6] == F5() && InFacts()[7] == F5();
    forall v
      ensures Lookup(InFacts()[8], v) ==
              Meet(Lookup(Transfer(StmtAt(6), InFacts()[6]), v), Lookup(Transfer(StmtAt(7), InFacts()[7]), v))
    {
      assert InFacts()[8] == F5()[a := NAC];
    }
  }

  /** Applies the detector to the example: the `a = 1` branch alone is dead. */
  method BranchElimination() returns (deadCode: seq<Node>)
    ensures deadCode == [7]
  {
    var cfg, constants, liveVars := Graph(), InFacts(), LiveVars();
    GraphWellFormed();
    InputsCover();
    ghost var reached;
    deadCode, reached := Analyze(cfg, constants, liveVars, [1, 2, 3, 4, 5, 6, 7, 8]);
    SevenIsDead(deadCode, reached);
    OthersKept(deadCode, reached);
    IncreasingUnique(deadCode, [7]);
  }

  /** No chain of steps from the entry reaches `a = 1`, so it is reported. */
  lemma SevenIsDead(deadCode: seq<Node>, reached: set<Node>)
    requires WithinSteps(Graph(), InFacts(), reached)
    requires forall n :: n in deadCode <==> n in [1, 2, 3, 4, 5, 6, 7, 8] && !Kept(Graph(), LiveVars(), reached, n)
    ensures 7 in deadCode
  {
    SevenUnreached(reached);
    assert 7 in [1, 2, 3, 4, 5, 6, 7, 8];
  }

  lemma SevenUnreached(reached: set<Node>)
    requires WithinSteps(Graph(), InFacts(), reached)
    ensures 7 !in reached
  {
    OthersStepClosed();
  }

  /** Every other statement is reached along definite successors and kept. */
  lemma OthersKept(deadCode: seq<Node>, reached: set<Node>)
    requires Closed(Definite, Graph(), InFacts(), reached)
    requires forall n :: n in deadCode <==> n in [1, 2, 3, 4, 5, 6, 7, 8] && !Kept(Graph(), LiveVars(), reached, n)
    ensures forall n :: n in deadCode ==> n == 7
  {
    ReachedPrefix(reached);
    ReachedIsKept(reached);
  }

  lemma InputsCover()
    ensures forall n :: n in Graph().stmtOf ==> n in InFacts() && n in LiveVars()
  {
  }

  lemma GraphWellFormed()
    ensures WellFormed(Graph())
  {
  }

  /** The successors each statement leads to: the branch at 5 only to its false target. */
  function Expected(n: Node): set<Node> {
    if n == 5 then {6}
    else if n == 6 then {8}
    else if n == 9 then {}
    else {n + 1}
  }

  lemma SuccsAt(mode: Mode, n: Node)
    requires 0 <= n <= 9
    ensures Covered(Graph(), InFacts(), n)
    ensures Succs(mode, Graph(), InFacts(), n) == Expected(n)
  {
    var cfg := Graph();
    assert cfg.stmtOf[n] == StmtAt(n) && cfg.outEdges[n] == EdgesAt(n);
    if n == 5 {
      BranchSuccs(mode);
    } else if n == 9 {
      assert Targets([], AnyEdge) == {};
    } else {
      var e := EdgesAt(n)[0];
      TargetsSnoc([], e, AnyEdge);
      assert [] + [e] == EdgesAt(n);
    }
  }

  /** The branch folds to false, so it leads only to its IF_FALSE target. */
  lemma BranchSuccs(mode: Mode)
    ensures Succs(mode, Graph(), InFacts(), 5) == {6}
  {
    var cfg := Graph();
    assert cfg.stmtOf[5] == If(GT, y, c5) && cfg.outEdges[5] == EdgesAt(5);
    assert InFacts()[5] == F5();
    BranchFactsFollow();
    var e1, e2 := Edge(IfTrue, 7, 0), Edge(IfFalse, 6, 0);
    TargetsSnoc([], e1, OfKind(IfFalse));
    TargetsSnoc([e1], e2, OfKind(IfFalse));
    assert [e1] + [e2] == EdgesAt(5);
  }

  /** Whatever is closed under definite successors from the entry holds every statement but 7. */
  lemma ReachedPrefix(reached: set<Node>)
    requires Closed(Definite, Graph(), InFacts(), reached)
    ensures forall n :: 0 <= n <= 9 && n != 7 ==> n in reached
  {
    var chain := [0, 1, 2, 3, 4, 5, 6, 8, 9];
    for i := 0 to |chain| - 1
      invariant forall j :: 0 <= j <= i ==> chain[j] in reached
    {
      SuccsAt(Definite, chain[i]);
      assert chain[i + 1] in Expected(chain[i]);
    }
    forall n | 0 <= n <= 9 && n != 7
      ensures n in reached
    {
      assert chain[if n < 7 then n else n - 1] == n;
    }
  }

  /** Every assignment of the example defines a live variable, so every reached statement is kept. */
  lemma ReachedIsKept(reached: set<Node>)
    ensures forall n :: 0 <= n <= 9 && n in reached ==> Kept(Graph(), LiveVars(), reached, n)
  {
    forall n | 0 <= n <= 9 && n in reached
      ensures Kept(Graph(), LiveVars(), reached, n)
    {
      assert Graph().stmtOf[n] == StmtAt(n) && LiveVars()[n] == LiveAt(n);
    }
  }

  /** The statements other than 7 are closed under possible successors. */
  lemma OthersClosed()
    ensures Closed(Possible, Graph(), InFacts(), {0, 1, 2, 3, 4, 5, 6, 8, 9})
  {
    forall n | n in {0, 1, 2, 3, 4, 5, 6, 8, 9}
      ensures Covered(Graph(), InFacts(), n)
      ensures Succs(Possible, Graph(), InFacts(), n) <= {0, 1, 2, 3, 4, 5, 6, 8, 9}
    {
      SuccsAt(Possible, n);
    }
  }

  /** So they are closed under steps too. */
  lemma OthersStepClosed()
    ensures ClosedUnderSteps(Graph(), InFacts(), {0, 1, 2, 3, 4, 5, 6, 8, 9})
  {
    OthersClosed();
    PossibleClosedIsStepClosed(Graph(), InFacts(), {0, 1, 2, 3, 4, 5, 6, 8, 9});
  }
}
