/**
 * A worked example of a multi-way branch on a known discriminant:
 *
 *   x = 3;
 *   switch (x) { case 1: a = 1; break; case 2: a = 2; break;
 *                case 3: a = 3; break; default: a = 4; }
 *   return;
 *
 * The IN facts constant propagation leaves are given below and shown to follow
 * from one another by the transfer and meet functions: `x` is 3 at the branch,
 * so the walk takes the `case 3` edge, and since that case is still unreached
 * when the branch is dequeued it does not take the default edge either.  The
 * cases for 1 and 2 and the default arm are never reached, and dead-code
 * detection applied to those facts reports exactly those three statements.
 */
module SwitchScenario {
  import opened JavaInt
  import opened Lattice
  import opened Ir
  import opened Facts
  import opened ConstantPropagation
  import opened DeadCodeDetection

  const x := Var("x", Primitive(INT))
  const a := Var("a", Primitive(INT))

  /** Statements by index: 0 is the entry, 2 the branch, 3 to 6 its arms and 7 the exit. */
  function StmtAt(n: Node): Stmt {
    if n == 1 then Assign(LVar(x), IntLiteral(3))
    else if n == 2 then Switch(x, 6)
    else if 3 <= n <= 6 then Assign(LVar(a), IntLiteral(n - 2))
    else Other
  }

  /** The branch's case edges for 1, 2 and 3, then its default edge. */
  const BranchEdges := [Edge(SwitchCase, 3, 1), Edge(SwitchCase, 4, 2), Edge(SwitchCase, 5, 3), Edge(SwitchDefault, 6, 0)]

  /** Out-edges by index: every arm jumps to the exit. */
  function EdgesAt(n: Node): seq<Edge> {
    if n == 2 then BranchEdges
    else if 3 <= n <= 6 then [Edge(Goto, 7, 0)]
    else if n == 7 then []
    else [Edge(FallThrough, n + 1, 0)]
  }

  function Graph(): Cfg {
    Cfg(0, 7, map n | 0 <= n <= 7 :: StmtAt(n), map n | 0 <= n <= 7 :: EdgesAt(n))
  }

  /** The IN fact of each arm: `x` is 3. */
  function ArmFact(): Fact { map[x := Constant(3)] }

  /** The IN fact of each statement, as the dataflow solver leaves it. */
  function InFact(n: Node): Fact {
    if n <= 1 then map[]
    else if n <= 6 then ArmFact()
    else ArmFact()[a := NAC]
  }

  function InFacts(): map<Node, Fact> {
    map n | 0 <= n <= 7 :: InFact(n)
  }

  /** Both variables are live after every statement, so no assignment is dropped as dead. */
  function LiveAt(n: Node): set<Var> {
    {x, a}
  }

  function LiveVars(): map<Node, set<Var>> {
    map n | 0 <= n <= 7 :: LiveAt(n)
  }

  /**
   * The IN facts follow from one another: the assignment makes `x` the constant
   * 3 that the branch sees and passes on to every arm, and the fact at the exit
   * is the pointwise meet of the four arms' OUT facts, so `a` (1 to 4 on the
   * four arms) is not a constant there.
   */
  lemma SwitchFactsFollow()
    ensures InFacts()[2] == Transfer(StmtAt(1), InFacts()[1]) && Lookup(InFacts()[2], x) == Constant(3)
    ensures forall n :: 3 <= n <= 6 ==> InFacts()[n] == Transfer(StmtAt(2), InFacts()[2])
    ensures forall v :: Lookup(InFacts()[7], v) ==
                        Meet(Meet(Lookup(Transfer(StmtAt(3), ArmFact()), v), Lookup(Transfer(StmtAt(4), ArmFact()), v)),
                             Meet(Lookup(Transfer(StmtAt(5), ArmFact()), v), Lookup(Transfer(StmtAt(6), ArmFact()), v)))
  {
    assert InFacts()[1] == map[] && InFacts()[2] == ArmFact() && InFacts()[7] == ArmFact()[a := NAC];
  }

  /** Applies the detector to the example: the cases for 1 and 2 and the default arm are dead. */
  method SwitchElimination() returns (deadCode: seq<Node>)
    ensures deadCode == [3, 4, 6]
  {
    var cfg, constants, liveVars := Graph(), InFacts(), LiveVars();
    GraphWellFormed();
    InputsCover();
    ghost var reached;
    deadCode, reached := Analyze(cfg, constants, liveVars, [1, 2, 3, 4, 5, 6]);
    ArmsAreDead(deadCode, reached);
    OthersKept(deadCode, reached);
    IncreasingUnique(deadCode, [3, 4, 6]);
  }

  /**
   * No chain of steps from the entry reaches the unmatched arms: in particular
   * the default arm is unreached, because the matching case target 5 is still
   * unreached whenever the branch is dequeued.
   */
  lemma ArmsAreDead(deadCode: seq<Node>, reached: set<Node>)
    requires WithinSteps(Graph(), InFacts(), reached)
    requires forall n :: n in deadCode <==> n in [1, 2, 3, 4, 5, 6] && !Kept(Graph(), LiveVars(), reached, n)
    ensures 3 in deadCode && 4 in deadCode && 6 in deadCode
  {
    ArmsUnreached(reached);
    assert 3 in [1, 2, 3, 4, 5, 6] && 4 in [1, 2, 3, 4, 5, 6] && 6 in [1, 2, 3, 4, 5, 6];
  }

  lemma ArmsUnreached(reached: set<Node>)
    requires WithinSteps(Graph(), InFacts(), reached)
    ensures 3 !in reached && 4 !in reached && 6 !in reached
  {
    TakenClosed();
  }

  /** The statements on the taken path are reached along definite successors and kept. */
  lemma OthersKept(deadCode: seq<Node>, reached: set<Node>)
    requires Closed(Definite, Graph(), InFacts(), reached)
    requires forall n :: n in deadCode <==> n in [1, 2, 3, 4, 5, 6] && !Kept(Graph(), LiveVars(), reached, n)
    ensures forall n :: n in deadCode ==> n == 3 || n == 4 || n == 6
  {
    TakenReached(reached);
    ReachedIsKept(reached);
  }

  lemma InputsCover()
    ensures forall n :: n in Graph().stmtOf ==> n in InFacts() && n in LiveVars()
  {
  }

  lemma GraphWellFormed()
    ensures WellFormed(Graph())
  {
    assert BranchEdges[3].kind == SwitchDefault && BranchEdges[3].target == 6;
  }

  /** The branch's matching case target and, when it is unreached, its only other possible successor. */
  lemma BranchSuccs()
    ensures Covered(Graph(), InFacts(), 2)
    ensures CaseTargets(Graph(), InFacts(), 2) == {5}
    ensures Succs(Definite, Graph(), InFacts(), 2) == {5}
    ensures Succs(Possible, Graph(), InFacts(), 2) == {5, 6}
  {
    var cfg := Graph();
    assert cfg.stmtOf[2] == Switch(x, 6) && cfg.outEdges[2] == BranchEdges;
    assert InFacts()[2] == ArmFact();
    var e1, e2, e3, e4 := BranchEdges[0], BranchEdges[1], BranchEdges[2], BranchEdges[3];
    TargetsSnoc([], e1, CaseOf(3));
    TargetsSnoc([e1], e2, CaseOf(3));
    TargetsSnoc([e1, e2], e3, CaseOf(3));
    TargetsSnoc([e1, e2, e3], e4, CaseOf(3));
    assert [e1] == [] + [e1] && [e1, e2] == [e1] + [e2] && [e1, e2, e3] == [e1, e2] + [e3];
    assert BranchEdges == [e1, e2, e3] + [e4];
  }

  /** The one successor of each other statement on the taken path. */
  lemma SuccsAt(mode: Mode, n: Node)
    requires n in {0, 1, 5, 7}
    ensures Covered(Graph(), InFacts(), n)
    ensures Succs(mode, Graph(), InFacts(), n) == if n == 7 then {} else if n == 5 then {7} else {n + 1}
  {
    var cfg := Graph();
    assert cfg.stmtOf[n] == StmtAt(n) && cfg.outEdges[n] == EdgesAt(n);
    if n == 7 {
      assert Targets([], AnyEdge) == {};
    } else {
      var e := EdgesAt(n)[0];
      TargetsSnoc([], e, AnyEdge);
      assert [] + [e] == EdgesAt(n);
    }
  }

  /** Whatever is closed under definite successors from the entry holds the taken path. */
  lemma TakenReached(reached: set<Node>)
    requires Closed(Definite, Graph(), InFacts(), reached)
    ensures {0, 1, 2, 5, 7} <= reached
  {
    SuccsAt(Definite, 0);
    SuccsAt(Definite, 1);
    BranchSuccs();
    SuccsAt(Definite, 5);
  }

  /** Every arm assigns a live variable, so every reached statement is kept. */
  lemma ReachedIsKept(reached: set<Node>)
    ensures forall n :: 0 <= n <= 7 && n in reached ==> Kept(Graph(), LiveVars(), reached, n)
  {
    forall n | 0 <= n <= 7 && n in reached
      ensures Kept(Graph(), LiveVars(), reached, n)
    {
      assert Graph().stmtOf[n] == StmtAt(n) && LiveVars()[n] == LiveAt(n);
    }
  }

  /**
   * The taken path is closed under steps: the branch is fresh after the other
   * statements of the path, since none of them leads to its case target 5 but
   * 5 itself, so its step holds 5 alone.
   */
  lemma TakenClosed()
    ensures ClosedUnderSteps(Graph(), InFacts(), {0, 1, 2, 5, 7})
  {
    var cfg, constants, taken := Graph(), InFacts(), {0, 1, 2, 5, 7};
    BranchSuccs();
    SuccsAt(Possible, 0);
    SuccsAt(Possible, 1);
    SuccsAt(Possible, 5);
    SuccsAt(Possible, 7);
    assert !Seen(cfg, constants, taken - {2}, 5) by {
      forall m | m in taken - {2} && Covered(cfg, constants, m)
        ensures 5 !in Succs(Possible, cfg, constants, m)
      {
      }
    }
    assert Fresh(cfg, constants, 2, taken - {2});
    forall n | n in taken
      ensures Step(cfg, constants, n, taken - {n}) <= taken
    {
      StepBounds(cfg, constants, n, taken - {n});
    }
  }
}
