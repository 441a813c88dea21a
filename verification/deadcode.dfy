/**
 * Dead-code detection: one breadth-first walk from the CFG entry that follows
 * only the branch edges the constant-propagation IN facts leave open, keeps
 * every statement it reaches except dead assignments, and reports every other
 * statement, ordered by index.
 */
module DeadCodeDetection {
  import opened JavaInt
  import opened Lattice
  import opened Ir
  import opened Facts
  import CP = ConstantPropagation

  // ---------------------------------------------------------------------------
  // Control-flow graph

  datatype EdgeKind =
    | FallThrough | Goto | IfTrue | IfFalse | SwitchCase | SwitchDefault
    | Return | CaughtException | UncaughtException

  /** A CFG edge; `caseValue` is meaningful on `SwitchCase` edges only. */
  datatype Edge = Edge(kind: EdgeKind, target: Node, caseValue: Int32)

  /** The statements of one method and the out-edges of each, with its entry and exit nodes. */
  datatype Cfg = Cfg(entry: Node, exit: Node, stmtOf: map<Node, Stmt>, outEdges: map<Node, seq<Edge>>)

  /**
   * What the CFG builder guarantees: entry and exit are nodes, every node has
   * its out-edge list, every edge leads to a node, and every multi-way branch
   * has a default edge to its default target.
   */
  predicate WellFormed(cfg: Cfg) {
    && cfg.entry in cfg.stmtOf && cfg.exit in cfg.stmtOf
    && cfg.outEdges.Keys == cfg.stmtOf.Keys
    && (forall n, i :: n in cfg.outEdges && 0 <= i < |cfg.outEdges[n]| ==> cfg.outEdges[n][i].target in cfg.stmtOf)
    && (forall n :: n in cfg.stmtOf && cfg.stmtOf[n].Switch? ==>
          exists i :: 0 <= i < |cfg.outEdges[n]| && cfg.outEdges[n][i].kind == SwitchDefault &&
                      cfg.outEdges[n][i].target == cfg.stmtOf[n].defaultTarget)
  }

  /** Which out-edges a step follows. */
  datatype EdgeFilter = AnyEdge | OfKind(kind: EdgeKind) | CaseOf(value: Int32)

  predicate Selects(f: EdgeFilter, e: Edge) {
    match f
    case AnyEdge => true
    case OfKind(k) => e.kind == k
    case CaseOf(v) => e.kind == SwitchCase && e.caseValue == v
  }

  /** The targets of the edges the filter selects. */
  function Targets(edges: seq<Edge>, f: EdgeFilter): set<Node> {
    set i | 0 <= i < |edges| && Selects(f, edges[i]) :: edges[i].target
  }

  // ---------------------------------------------------------------------------
  // Side effects and dead assignments


  /** The observable effects the classifier guards against. */
  datatype Effect = HeapAllocation | ClassCastFault | ClassInitialization | NullDereference | IndexFault | DivideByZero

  /**
   * The effects evaluating an expression may have, by kind: allocation mutates
   * the heap, a cast may fail, a static field read may initialize its class, an
   * instance field or array read may dereference null (and an array read may
   * be out of bounds), and integer division or remainder may divide by zero.
   */
  function Effects(e: Exp): set<Effect> {
    match e
    case NewExp(_) => {HeapAllocation}
    case Cast(_, _) => {ClassCastFault}
    case FieldAccess(None, _) => {ClassInitialization}
    case FieldAccess(Some(_), _) => {NullDereference}
    case ArrayAccess(_, _) => {NullDereference, IndexFault}
    case Binary(op, _, _) => if CP.IsDivOrRem(op) then {DivideByZero} else {}
    case _ => {}
  }

  /**
   * hasNoSideEffect: the right-hand sides an unused assignment may be dropped
   * with, which are exactly those with none of the effects above.
   */
  function HasNoSideEffect(e: Exp): (r: bool)
    ensures r <==> Effects(e) == {}
  {
    match e
    case NewExp(_) => assert HeapAllocation in Effects(e); false
    case Cast(_, _) => assert ClassCastFault in Effects(e); false
    case FieldAccess(receiver, _) =>
      assert ClassInitialization in Effects(e) || NullDereference in Effects(e); false
    case ArrayAccess(_, _) => assert IndexFault in Effects(e); false
    case Binary(Arithmetic(aop), _, _) =>
      assert CP.IsDivOrRem(Arithmetic(aop)) ==> DivideByZero in Effects(e);
      aop != DIV && aop != REM
    case _ => true
  }

  /**
   * An assignment to a variable that is not live after it, whose right-hand
   * side has no side effect.  Calls and field or array stores are never dead
   * assignments.
   */
  function IsDeadAssignment(s: Stmt, live: set<Var>): (r: bool)
    ensures r <==> s.Assign? && DefinedVar(s).Some? && DefinedVar(s).value !in live && Effects(s.rvalue) == {}
  {
    s.Assign? && s.lvalue.LVar? && s.lvalue.lv !in live && HasNoSideEffect(s.rvalue)
  }

  // ---------------------------------------------------------------------------
  // Which successors a reached statement leads to

  /** The value of a conditional branch's condition on its IN fact. */
  function ConditionValue(cop: ConditionOp, left: Var, right: Var, fact: Fact): (r: Value)
    ensures r.Constant? ==> r.n == 0 || r.n == 1
  {
    CP.Evaluate(Binary(Condition(cop), left, right), fact)
  }

  /** Whether the successors asked for are the ones the walk must queue or the ones it may queue. */
  datatype Mode = Definite | Possible

  ghost predicate Covered(cfg: Cfg, constants: map<Node, Fact>, n: Node) {
    n in cfg.stmtOf && n in cfg.outEdges && n in constants
  }

  /**
   * The successors of a node the walk follows.  A branch whose condition is a
   * known constant follows only the edge it selects; a multi-way branch with a
   * known discriminant follows the matching case edges, or the default edge when
   * there are none.  In `Possible` mode the default target of such a multi-way
   * branch is always added, because the walk also queues it whenever all the
   * matching case targets happen to be reached already; `Step` below narrows
   * this by the order in which the walk reaches statements.
   */
  ghost function Succs(mode: Mode, cfg: Cfg, constants: map<Node, Fact>, n: Node): set<Node>
    requires Covered(cfg, constants, n)
  {
    var edges := cfg.outEdges[n];
    match cfg.stmtOf[n]
    case If(cop, l, r) =>
      var val := ConditionValue(cop, l, r, constants[n]);
      if val == Constant(1) then Targets(edges, OfKind(IfTrue))
      else if val == Constant(0) then Targets(edges, OfKind(IfFalse))
      else if val.Constant? then {}
      else Targets(edges, AnyEdge)
    case Switch(x, d) =>
      var c := Lookup(constants[n], x);
      if !c.Constant? then Targets(edges, AnyEdge)
      else if mode == Possible then Targets(edges, CaseOf(c.n)) + {d}
      else if Targets(edges, CaseOf(c.n)) == {} then {d}
      else Targets(edges, CaseOf(c.n))
    case _ => Targets(edges, AnyEdge)
  }

  /** A path from the entry along successor edges of the given mode. */
  ghost predicate IsPath(mode: Mode, cfg: Cfg, constants: map<Node, Fact>, p: seq<Node>) {
    && |p| > 0 && p[0] == cfg.entry
    && (forall i :: 0 <= i < |p| ==> Covered(cfg, constants, p[i]))
    && (forall i :: 0 <= i < |p| - 1 ==> p[i + 1] in Succs(mode, cfg, constants, p[i]))
  }

  /** `r` holds the entry and every successor of its members. */
  ghost predicate Closed(mode: Mode, cfg: Cfg, constants: map<Node, Fact>, r: set<Node>) {
    && cfg.entry in r
    && forall n :: n in r ==> Covered(cfg, constants, n) && Succs(mode, cfg, constants, n) <= r
  }

  /** A set closed under successors holds the end of every path. */
  lemma {:induction false} PathEndsInClosed(mode: Mode, cfg: Cfg, constants: map<Node, Fact>, r: set<Node>, p: seq<Node>)
    requires Closed(mode, cfg, constants, r) && IsPath(mode, cfg, constants, p)
    ensures p[|p| - 1] in r
  {
    if |p| > 1 {
      var q := p[..|p| - 1];
      assert IsPath(mode, cfg, constants, q);
      PathEndsInClosed(mode, cfg, constants, r, q);
      assert p[|p| - 1] in Succs(mode, cfg, constants, p[|p| - 2]);
    }
  }

  /** Every definite successor is a possible one, so definite paths are possible paths. */
  lemma DefiniteIsPossible(cfg: Cfg, constants: map<Node, Fact>, n: Node)
    requires Covered(cfg, constants, n)
    ensures Succs(Definite, cfg, constants, n) <= Succs(Possible, cfg, constants, n)
  {
  }

  // ---------------------------------------------------------------------------
  // The queue

  /**
   * The targets of the selected edges that are not yet reached, in edge order
   * (duplicated when two selected edges share a target).
   */
  function Pending(edges: seq<Edge>, f: EdgeFilter, reached: set<Node>): seq<Node> {
    if |edges| == 0 then []
    else
      var last := edges[|edges| - 1];
      Pending(edges[..|edges| - 1], f, reached) + (if Selects(f, last) && last.target !in reached then [last.target] else [])
  }

  /**
   * What is queued is exactly what should be: every entry is an unreached
   * selected target, every unreached selected target is queued, and nothing is
   * queued exactly when all selected targets are reached.
   */
  lemma {:induction false} PendingExactly(edges: seq<Edge>, f: EdgeFilter, reached: set<Node>)
    ensures var r := Pending(edges, f, reached);
      && (forall i :: 0 <= i < |r| ==> r[i] !in reached && r[i] in Targets(edges, f))
      && (forall t :: t in Targets(edges, f) && t !in reached ==> t in r)
      && (|r| == 0 <==> Targets(edges, f) <= reached)
  {
    if |edges| > 0 {
      var init, last := edges[..|edges| - 1], edges[|edges| - 1];
      assert init + [last] == edges;
      TargetsSnoc(init, last, f);
      PendingExactly(init, f, reached);
    }
  }

  lemma TargetsSnoc(init: seq<Edge>, last: Edge, f: EdgeFilter)
    ensures Targets(init + [last], f) == Targets(init, f) + (if Selects(f, last) then {last.target} else {})
  {
    var edges := init + [last];
    forall t | t in Targets(edges, f)
      ensures t in Targets(init, f) || (Selects(f, last) && t == last.target)
    {
      var i :| 0 <= i < |edges| && Selects(f, edges[i]) && edges[i].target == t;
      if i < |init| {
        assert init[i] == edges[i];
      }
    }
    forall t | t in Targets(init, f)
      ensures t in Targets(edges, f)
    {
      var i :| 0 <= i < |init| && Selects(f, init[i]) && init[i].target == t;
      assert edges[i] == init[i];
    }
    if Selects(f, last) {
      assert edges[|init|] == last;
    }
  }

  /**
   * Appends to `queue` the not-yet-reached targets of the selected out-edges,
   * reporting whether anything was appended.
   */
  method EnqueueTargets(queue: seq<Node>, edges: seq<Edge>, f: EdgeFilter, reached: set<Node>)
    returns (q: seq<Node>, matched: bool)
    ensures q == queue + Pending(edges, f, reached)
    ensures forall i :: |queue| <= i < |q| ==> q[i] !in reached && q[i] in Targets(edges, f)
    ensures forall t :: t in Targets(edges, f) && t !in reached ==> t in q[|queue|..]
    ensures matched <==> !(Targets(edges, f) <= reached)
  {
    q := queue;
    matched := false;
    for i := 0 to |edges|
      invariant q == queue + Pending(edges[..i], f, reached)
      invariant matched <==> |q| > |queue|
    {
      if Selects(f, edges[i]) && edges[i].target !in reached {
        matched := true;
        q := q + [edges[i].target];
      }
      assert edges[..i + 1] == edges[..i] + [edges[i]];
      assert edges[..i + 1][..i] == edges[..i];
    }
    assert edges[..|edges|] == edges;
    PendingExactly(edges, f, reached);
    assert q[|queue|..] == Pending(edges, f, reached);
  }

  /** What one step may append: unreached possible successors, covering every unreached definite one. */
  ghost predicate GoodStep(cfg: Cfg, constants: map<Node, Fact>, s: Node, reached: set<Node>, app: seq<Node>)
    requires Covered(cfg, constants, s)
  {
    && (forall i :: 0 <= i < |app| ==> app[i] !in reached && app[i] in Succs(Possible, cfg, constants, s))
    && (forall t :: t in Succs(Definite, cfg, constants, s) ==> t in reached || t in app)
  }

  /**
   * What the walk appends to the queue when it dequeues `s`, given the
   * statements already reached (`s` among them): the unreached targets of the
   * IF_TRUE or IF_FALSE edges of a branch whose condition is constant 1 or 0
   * (nothing for another constant); for a multi-way branch with a constant
   * discriminant, the unreached targets of the matching SWITCH_CASE edges,
   * followed by the default target when that is unreached and no case target
   * was queued; and the unreached targets of all out-edges otherwise.
   */
  function Queued(cfg: Cfg, constants: map<Node, Fact>, s: Node, reached: set<Node>): seq<Node>
    requires Covered(cfg, constants, s)
  {
    var edges := cfg.outEdges[s];
    match cfg.stmtOf[s]
    case If(cop, l, r) =>
      var val := ConditionValue(cop, l, r, constants[s]);
      if val == Constant(1) then Pending(edges, OfKind(IfTrue), reached)
      else if val == Constant(0) then Pending(edges, OfKind(IfFalse), reached)
      else if val.Constant? then []
      else Pending(edges, AnyEdge, reached)
    case Switch(x, d) =>
      var c := Lookup(constants[s], x);
      if c.Constant? then
        Pending(edges, CaseOf(c.n), reached) +
        (if Targets(edges, CaseOf(c.n)) <= reached && d !in reached then [d] else [])
      else Pending(edges, AnyEdge, reached)
    case _ => Pending(edges, AnyEdge, reached)
  }

  /**
   * One dequeue appends only unreached possible successors, and every unreached
   * definite successor among them.
   */
  lemma QueuedIsGoodStep(cfg: Cfg, constants: map<Node, Fact>, s: Node, reached: set<Node>)
    requires Covered(cfg, constants, s)
    ensures GoodStep(cfg, constants, s, reached, Queued(cfg, constants, s, reached))
  {
    var edges := cfg.outEdges[s];
    match cfg.stmtOf[s]
    case If(cop, l, r) =>
      PendingExactly(edges, OfKind(IfTrue), reached);
      PendingExactly(edges, OfKind(IfFalse), reached);
      PendingExactly(edges, AnyEdge, reached);
    case Switch(x, d) =>
      var c := Lookup(constants[s], x);
      if c.Constant? {
        var cases := Pending(edges, CaseOf(c.n), reached);
        PendingExactly(edges, CaseOf(c.n), reached);
        if Targets(edges, CaseOf(c.n)) <= reached && d !in reached {
          assert Queued(cfg, constants, s, reached) == cases + [d];
        } else {
          assert Queued(cfg, constants, s, reached) == cases;
        }
      } else {
        PendingExactly(edges, AnyEdge, reached);
      }
    case Assign(_, _) => PendingExactly(edges, AnyEdge, reached);
    case Invoke(_, _) => PendingExactly(edges, AnyEdge, reached);
    case Other => PendingExactly(edges, AnyEdge, reached);
  }

  /**
   * Queues the successors of the dequeued statement `s` that are still
   * unreached: only the IF_TRUE or IF_FALSE edge of a branch whose condition is
   * constant 1 or 0 (no edge for another constant), the matching SWITCH_CASE
   * edges of a multi-way branch with a constant discriminant (its default target
   * when none of them was queued), and all out-edges otherwise.
   */
  method EnqueueSuccessors(cfg: Cfg, constants: map<Node, Fact>, s: Node, reached: set<Node>, queue: seq<Node>)
    returns (q: seq<Node>)
    requires WellFormed(cfg) && Covered(cfg, constants, s)
    ensures q == queue + Queued(cfg, constants, s, reached)
    ensures GoodStep(cfg, constants, s, reached, q[|queue|..])
  {
    var edges := cfg.outEdges[s];
    var matched: bool;
    match cfg.stmtOf[s] {
    case If(cop, l, r) =>
      var val := CP.Evaluate(Binary(Condition(cop), l, r), constants[s]);
      assert val == ConditionValue(cop, l, r, constants[s]);
      if val.Constant? {
        if val.n == 1 {
          q, matched := EnqueueTargets(queue, edges, OfKind(IfTrue), reached);
        } else if val.n == 0 {
          q, matched := EnqueueTargets(queue, edges, OfKind(IfFalse), reached);
        } else {
          q := queue;
        }
      } else {
        q, matched := EnqueueTargets(queue, edges, AnyEdge, reached);
      }
    case Switch(x, d) =>
      var c := Lookup(constants[s], x);
      if c.Constant? {
        q, matched := EnqueueTargets(queue, edges, CaseOf(c.n), reached);
        ghost var cases := q[|queue|..];
        if !matched && d !in reached {
          q := q + [d];
          assert q == queue + (cases + [d]);
        }
      } else {
        q, matched := EnqueueTargets(queue, edges, AnyEdge, reached);
      }
    case _ =>
      q, matched := EnqueueTargets(queue, edges, AnyEdge, reached);
    }
    QueuedIsGoodStep(cfg, constants, s, reached);
    assert q[|queue|..] == Queued(cfg, constants, s, reached);
  }

  /** Number of queue entries whose node is in `r`. */
  function CountIn(q: seq<Node>, r: set<Node>): nat {
    if |q| == 0 then 0 else (if q[0] in r then 1 else 0) + CountIn(q[1..], r)
  }

  lemma {:induction false} CountInAppend(a: seq<Node>, b: seq<Node>, r: set<Node>)
    ensures CountIn(a + b, r) == CountIn(a, r) + CountIn(b, r)
  {
    if |a| > 0 {
      assert (a + b)[1..] == a[1..] + b;
      CountInAppend(a[1..], b, r);
    } else {
      assert a + b == b;
    }
  }

  lemma {:induction false} CountInNone(a: seq<Node>, r: set<Node>)
    requires forall i :: 0 <= i < |a| ==> a[i] !in r
    ensures CountIn(a, r) == 0
  {
    if |a| > 0 {
      CountInNone(a[1..], r);
    }
  }

  // ---------------------------------------------------------------------------
  // The ordered result

  predicate Increasing(s: seq<Node>) {
    forall i, j :: 0 <= i < j < |s| ==> s[i] < s[j]
  }

  /** Adding to a set ordered by index, as a sorted set does: no duplicates, order kept. */
  function InsertOrdered(xs: seq<Node>, x: Node): (r: seq<Node>)
    requires Increasing(xs)
    ensures Increasing(r)
    ensures forall y :: y in r <==> y in xs || y == x
  {
    if |xs| == 0 then [x]
    else if x < xs[0] then
      assert forall j :: 0 <= j < |xs| ==> x < xs[j] by {
        forall j | 0 < j < |xs|
          ensures xs[0] < xs[j]
        {
        }
      }
      [x] + xs
    else if x == xs[0] then xs
    else
      var rest := InsertOrdered(xs[1..], x);
      assert forall y :: y in rest ==> xs[0] < y by {
        forall y | y in rest
          ensures xs[0] < y
        {
          if y != x {
            var j :| 1 <= j < |xs| && xs[j] == y;
          }
        }
      }
      var r := [xs[0]] + rest;
      assert Increasing(r) by {
        forall i, j | 0 <= i < j < |r|
          ensures r[i] < r[j]
        {
          assert r[j] == rest[j - 1] && r[j] in rest;
          if i > 0 {
            assert r[i] == rest[i - 1];
          }
        }
      }
      r
  }

  /** An ordered sequence is fixed by its members: the reported list is determined by the dead set. */
  lemma {:induction false} IncreasingUnique(s: seq<Node>, t: seq<Node>)
    requires Increasing(s) && Increasing(t)
    requires forall n :: n in s <==> n in t
    ensures s == t
  {
    if |s| > 0 {
      assert s[0] in s;
    }
    if |t| > 0 {
      assert t[0] in t;
    }
    if |s| > 0 && |t| > 0 {
      HeadIsLeast(s, t[0]);
      HeadIsLeast(t, s[0]);
      TailMembers(s);
      TailMembers(t);
      IncreasingUnique(s[1..], t[1..]);
      assert s == [s[0]] + s[1..] && t == [t[0]] + t[1..];
    }
  }

  lemma HeadIsLeast(s: seq<Node>, n: Node)
    requires Increasing(s) && n in s
    ensures s[0] <= n
  {
    var j :| 0 <= j < |s| && s[j] == n;
  }

  lemma TailMembers(s: seq<Node>)
    requires Increasing(s) && |s| > 0
    ensures Increasing(s[1..])
    ensures forall n :: n in s[1..] <==> n in s && n != s[0]
  {
    forall n | n in s && n != s[0]
      ensures n in s[1..]
    {
      var j :| 0 <= j < |s| && s[j] == n;
      assert s[1..][j - 1] == n;
    }
    forall n | n in s[1..]
      ensures n != s[0]
    {
      var j :| 0 <= j < |s| - 1 && s[1..][j] == n;
      assert s[j + 1] == n;
    }
  }

  /**
   * Fills the sorted result with every statement of `stmts` outside `kept`.
   */
  method CollectDead(stmts: seq<Node>, kept: set<Node>) returns (deadCode: seq<Node>)
    ensures Increasing(deadCode)
    ensures forall n :: n in deadCode <==> n in stmts && n !in kept
  {
    deadCode := [];
    for i := 0 to |stmts|
      invariant Increasing(deadCode)
      invariant forall n :: n in deadCode <==> n in stmts[..i] && n !in kept
    {
      if stmts[i] !in kept {
        deadCode := InsertOrdered(deadCode, stmts[i]);
      }
      assert stmts[..i + 1] == stmts[..i] + [stmts[i]];
    }
    assert stmts[..|stmts|] == stmts;
  }

  // ---------------------------------------------------------------------------
  // The order in which the walk reaches statements

  /**
   * The targets of the SWITCH_CASE edges that match the known discriminant of a
   * multi-way branch; empty for every other statement.
   */
  ghost function CaseTargets(cfg: Cfg, constants: map<Node, Fact>, n: Node): set<Node> {
    if Covered(cfg, constants, n) && cfg.stmtOf[n].Switch? then
      var c := Lookup(constants[n], cfg.stmtOf[n].discriminant);
      if c.Constant? then Targets(cfg.outEdges[n], CaseOf(c.n)) else {}
    else {}
  }

  /** `t` is the entry or a possible successor of a member of `before`. */
  ghost predicate Seen(cfg: Cfg, constants: map<Node, Fact>, before: set<Node>, t: Node) {
    t == cfg.entry ||
    exists m :: m in before && Covered(cfg, constants, m) && t in Succs(Possible, cfg, constants, m)
  }

  /**
   * A multi-way branch with a known discriminant and a matching case, none of
   * whose matching case targets is the branch itself or was seen from the
   * statements in `before`.  When `before` holds the statements reached before
   * the branch was first dequeued, its case targets are queued behind every
   * queued copy of the branch, so each time the branch is dequeued one of them
   * is still unreached and its default target is not queued.
   */
  ghost predicate Fresh(cfg: Cfg, constants: map<Node, Fact>, n: Node, before: set<Node>) {
    && CaseTargets(cfg, constants, n) != {}
    && forall t :: t in CaseTargets(cfg, constants, n) ==> t != n && !Seen(cfg, constants, before, t)
  }

  /**
   * The successors `n` may queue, given the statements reached before it: its
   * possible successors, except that a fresh multi-way branch queues only its
   * matching case targets.
   */
  ghost function Step(cfg: Cfg, constants: map<Node, Fact>, n: Node, before: set<Node>): set<Node>
    requires Covered(cfg, constants, n)
  {
    if Fresh(cfg, constants, n, before) then CaseTargets(cfg, constants, n) else Succs(Possible, cfg, constants, n)
  }

  /** A step lies between the definite and the possible successors. */
  lemma StepBounds(cfg: Cfg, constants: map<Node, Fact>, n: Node, before: set<Node>)
    requires Covered(cfg, constants, n)
    ensures Succs(Definite, cfg, constants, n) <= Step(cfg, constants, n, before)
    ensures Step(cfg, constants, n, before) <= Succs(Possible, cfg, constants, n)
  {
  }

  lemma SeenMonotone(cfg: Cfg, constants: map<Node, Fact>, b1: set<Node>, b2: set<Node>, t: Node)
    requires b1 <= b2
    ensures Seen(cfg, constants, b1, t) ==> Seen(cfg, constants, b2, t)
  {
    if t != cfg.entry && Seen(cfg, constants, b1, t) {
      var m :| m in b1 && Covered(cfg, constants, m) && t in Succs(Possible, cfg, constants, m);
      assert m in b2;
    }
  }

  /** Knowing more statements reached before `n` can only widen its step. */
  lemma StepMonotone(cfg: Cfg, constants: map<Node, Fact>, n: Node, b1: set<Node>, b2: set<Node>)
    requires Covered(cfg, constants, n) && b1 <= b2
    ensures Step(cfg, constants, n, b1) <= Step(cfg, constants, n, b2)
  {
    StepBounds(cfg, constants, n, b1);
    if Fresh(cfg, constants, n, b2) {
      forall t | t in CaseTargets(cfg, constants, n)
        ensures !Seen(cfg, constants, b1, t)
      {
        SeenMonotone(cfg, constants, b1, b2, t);
      }
    }
  }

  /** `r` holds the entry and the step of each member, taken after the other members. */
  ghost predicate ClosedUnderSteps(cfg: Cfg, constants: map<Node, Fact>, r: set<Node>) {
    && cfg.entry in r
    && forall n :: n in r ==> Covered(cfg, constants, n) && Step(cfg, constants, n, r - {n}) <= r
  }

  /**
   * `reached` lies within every set that holds the entry and is closed under
   * steps: whatever no chain of steps from the entry leads to is unreached.
   */
  ghost predicate WithinSteps(cfg: Cfg, constants: map<Node, Fact>, reached: set<Node>) {
    forall r :: ClosedUnderSteps(cfg, constants, r) ==> reached <= r
  }

  /** A set closed under possible successors is closed under steps. */
  lemma PossibleClosedIsStepClosed(cfg: Cfg, constants: map<Node, Fact>, r: set<Node>)
    requires Closed(Possible, cfg, constants, r)
    ensures ClosedUnderSteps(cfg, constants, r)
  {
    forall n | n in r
      ensures Step(cfg, constants, n, r - {n}) <= r
    {
      StepBounds(cfg, constants, n, r - {n});
    }
  }

  /** The statements reached before `u` was first dequeued. */
  ghost function Before(rank: map<Node, nat>, u: Node): set<Node>
    requires u in rank
  {
    set m | m in rank && rank[m] < rank[u]
  }

  /** `rank` numbers the reached statements in the order the walk first dequeued them. */
  ghost predicate Ranked(rank: map<Node, nat>, visited: set<Node>) {
    rank.Keys == visited && forall m :: m in rank ==> rank[m] < |visited|
  }

  /** The reached statement `u` may have queued `v`. */
  ghost predicate Queues(cfg: Cfg, constants: map<Node, Fact>, rank: map<Node, nat>, u: Node, v: Node) {
    u in rank && Covered(cfg, constants, u) && v in Step(cfg, constants, u, Before(rank, u))
  }

  /** Every reached statement but the entry was queued by one reached before it. */
  ghost predicate Grounded(cfg: Cfg, constants: map<Node, Fact>, rank: map<Node, nat>) {
    forall v :: v in rank && v != cfg.entry ==>
      exists u :: Queues(cfg, constants, rank, u, v) && rank[u] < rank[v]
  }

  /**
   * The reached statements lie in every set that holds the entry and is closed
   * under steps.
   */
  lemma ReachedWithin(cfg: Cfg, constants: map<Node, Fact>, rank: map<Node, nat>)
    requires Grounded(cfg, constants, rank)
    ensures WithinSteps(cfg, constants, rank.Keys)
  {
    forall r, v | ClosedUnderSteps(cfg, constants, r) && v in rank
      ensures v in r
    {
      RankedWithin(cfg, constants, rank, r, rank[v] + 1);
    }
  }

  lemma {:induction false} RankedWithin(cfg: Cfg, constants: map<Node, Fact>, rank: map<Node, nat>, r: set<Node>, k: nat)
    requires Grounded(cfg, constants, rank) && ClosedUnderSteps(cfg, constants, r)
    ensures forall v :: v in rank && rank[v] < k ==> v in r
  {
    if k > 0 {
      RankedWithin(cfg, constants, rank, r, k - 1);
      forall v | v in rank && rank[v] == k - 1 && v != cfg.entry
        ensures v in r
      {
        var u :| Queues(cfg, constants, rank, u, v) && rank[u] < rank[v];
        QueuedWithin(cfg, constants, rank, r, u, v);
      }
    }
  }

  /** A statement queued by a member of `r` whose predecessors all lie in `r` is in `r`. */
  lemma QueuedWithin(cfg: Cfg, constants: map<Node, Fact>, rank: map<Node, nat>, r: set<Node>, u: Node, v: Node)
    requires ClosedUnderSteps(cfg, constants, r) && Queues(cfg, constants, rank, u, v)
    requires u in r && forall m :: m in rank && rank[m] < rank[u] ==> m in r
    ensures v in r
  {
    var before := Before(rank, u);
    forall m | m in before
      ensures m in r - {u}
    {
    }
    StepWithin(cfg, constants, r, u, before);
    assert v in Step(cfg, constants, u, before);
  }

  /** The step of a member of `r`, taken after fewer of the other members, stays in `r`. */
  lemma StepWithin(cfg: Cfg, constants: map<Node, Fact>, r: set<Node>, u: Node, before: set<Node>)
    requires ClosedUnderSteps(cfg, constants, r) && u in r && before <= r - {u}
    ensures Step(cfg, constants, u, before) <= r
  {
    StepMonotone(cfg, constants, u, before, r - {u});
  }

  // ---------------------------------------------------------------------------
  // The analysis

  /**
   * Kept statements: the entry and the exit, and every reached statement that is
   * not a dead assignment.
   */
  ghost predicate Kept(cfg: Cfg, liveVars: map<Node, set<Var>>, reached: set<Node>, n: Node) {
    n == cfg.entry || n == cfg.exit ||
    (n in reached && n in cfg.stmtOf && n in liveVars && !IsDeadAssignment(cfg.stmtOf[n], liveVars[n]))
  }

  /** Every definite successor of a reached node is reached or still queued. */
  ghost predicate ClosedUpTo(cfg: Cfg, constants: map<Node, Fact>, visited: set<Node>, queue: seq<Node>) {
    forall n :: n in visited ==>
      Covered(cfg, constants, n) &&
      forall t :: t in Succs(Definite, cfg, constants, n) ==> t in visited || t in queue
  }

  /** Every queued statement is the entry or was queued by a reached one. */
  ghost predicate Sourced(cfg: Cfg, constants: map<Node, Fact>, rank: map<Node, nat>, queue: seq<Node>) {
    forall i :: 0 <= i < |queue| ==> queue[i] == cfg.entry || exists u :: Queues(cfg, constants, rank, u, queue[i])
  }

  /** `pinned` holds every reached multi-way branch that was fresh when first dequeued. */
  ghost predicate FreshRecorded(cfg: Cfg, constants: map<Node, Fact>, rank: map<Node, nat>, pinned: set<Node>) {
    && pinned <= rank.Keys
    && forall u :: u in rank && Fresh(cfg, constants, u, Before(rank, u)) ==> u in pinned
  }

  /**
   * While a fresh branch is queued, none of its matching case targets is
   * reached, and every queued copy of one of them lies behind every queued copy
   * of the branch.
   */
  ghost predicate CasesBehind(cfg: Cfg, constants: map<Node, Fact>, pinned: set<Node>, visited: set<Node>, queue: seq<Node>) {
    forall u, i :: u in pinned && 0 <= i < |queue| && queue[i] == u ==>
      && (forall t :: t in CaseTargets(cfg, constants, u) ==> t !in visited)
      && (forall j :: 0 <= j < |queue| && queue[j] in CaseTargets(cfg, constants, u) ==> i < j)
  }

  /**
   * analyze: walks the CFG breadth-first from the entry, marking a statement
   * reached when it is dequeued and queuing only successors not yet reached,
   * then reports every statement of `stmts` that was not kept, ordered by index.
   *
   * The reached set is pinned between two bounds: it holds the entry and is
   * closed under definite successors, and it lies within every set that holds
   * the entry and is closed under steps.  The second bound is proved from the
   * order in which the walk first reaches statements: each one other than the
   * entry is queued by a step of a statement reached before it.
   */
  method Analyze(cfg: Cfg, constants: map<Node, Fact>, liveVars: map<Node, set<Var>>, stmts: seq<Node>)
    returns (deadCode: seq<Node>, ghost reached: set<Node>)
    requires WellFormed(cfg)
    requires forall n :: n in cfg.stmtOf ==> n in constants && n in liveVars
    ensures reached <= cfg.stmtOf.Keys
    ensures Closed(Definite, cfg, constants, reached)
    ensures WithinSteps(cfg, constants, reached)
    ensures Increasing(deadCode)
    ensures forall n :: n in deadCode <==> n in stmts && !Kept(cfg, liveVars, reached, n)
    ensures cfg.entry !in deadCode && cfg.exit !in deadCode
  {
    var queue := [cfg.entry];
    var reachable := {cfg.entry, cfg.exit};
    var visited: set<Node> := {};
    ghost var rank: map<Node, nat> := map[];
    ghost var pinned: set<Node> := {};
    WalkStart(cfg, constants, liveVars, reachable);
    while |queue| > 0
      invariant forall i :: 0 <= i < |queue| ==> queue[i] in cfg.stmtOf
      invariant visited <= cfg.stmtOf.Keys
      invariant cfg.entry in visited || (|queue| > 0 && queue[0] == cfg.entry)
      invariant ClosedUpTo(cfg, constants, visited, queue)
      invariant Ranked(rank, visited) && Grounded(cfg, constants, rank) && Sourced(cfg, constants, rank, queue)
      invariant FreshRecorded(cfg, constants, rank, pinned) && CasesBehind(cfg, constants, pinned, visited, queue)
      invariant forall n :: n in reachable <==> Kept(cfg, liveVars, visited, n)
      decreases |cfg.stmtOf.Keys - visited|, CountIn(queue, visited)
    {
      var s := queue[0];
      ghost var oldVisited := visited;
      visited := visited + {s};
      ghost var oldReachable := reachable;
      if !IsDeadAssignment(cfg.stmtOf[s], liveVars[s]) {
        reachable := reachable + {s};
      }
      KeptStep(cfg, liveVars, oldReachable, oldVisited, s, reachable);
      var next := EnqueueSuccessors(cfg, constants, s, visited, queue[1..]);
      ghost var app := next[|queue[1..]|..];
      SuccsAreNodes(Possible, cfg, constants, s);
      ClosureStep(cfg, constants, oldVisited, queue, app);
      rank, pinned := WalkStep(cfg, constants, rank, pinned, oldVisited, queue, app);
      QueueStep(cfg, constants, queue, app);
      MeasureStep(cfg.stmtOf.Keys, oldVisited, queue, app);
      queue := next;
    }
    reached := visited;
    DrainedWalk(cfg, constants, visited);
    ReachedWithin(cfg, constants, rank);
    deadCode := CollectDead(stmts, reachable);
  }

  /**
   * Unreachable code is dead: a statement outside some set that holds the entry
   * and is closed under steps (so the walk cannot reach it) is reported, unless
   * it is the entry or the exit.
   */
  lemma UnreachableIsDead(cfg: Cfg, constants: map<Node, Fact>, liveVars: map<Node, set<Var>>, stmts: seq<Node>,
                          deadCode: seq<Node>, reached: set<Node>, others: set<Node>, n: Node)
    requires WithinSteps(cfg, constants, reached)
    requires forall m :: m in deadCode <==> m in stmts && !Kept(cfg, liveVars, reached, m)
    requires ClosedUnderSteps(cfg, constants, others)
    requires n in stmts && n !in others && n != cfg.entry && n != cfg.exit
    ensures n in deadCode
  {
    assert reached <= others;
  }

  /**
   * Code reached along definite successors is live: such a statement is
   * reported only when it is a dead assignment.
   */
  lemma DefinitelyReachableIsKept(cfg: Cfg, constants: map<Node, Fact>, liveVars: map<Node, set<Var>>, stmts: seq<Node>,
                                  deadCode: seq<Node>, reached: set<Node>, p: seq<Node>)
    requires forall n :: n in cfg.stmtOf ==> n in liveVars
    requires Closed(Definite, cfg, constants, reached)
    requires forall m :: m in deadCode <==> m in stmts && !Kept(cfg, liveVars, reached, m)
    requires IsPath(Definite, cfg, constants, p)
    ensures var n := p[|p| - 1]; n in deadCode ==> IsDeadAssignment(cfg.stmtOf[n], liveVars[n])
  {
    PathEndsInClosed(Definite, cfg, constants, reached, p);
  }

  /** When the queue is empty, the reached set is closed under definite successors. */
  lemma DrainedWalk(cfg: Cfg, constants: map<Node, Fact>, visited: set<Node>)
    requires cfg.entry in visited && ClosedUpTo(cfg, constants, visited, [])
    ensures Closed(Definite, cfg, constants, visited)
  {
  }

  /** The state before the first step satisfies the walk's invariants. */
  lemma WalkStart(cfg: Cfg, constants: map<Node, Fact>, liveVars: map<Node, set<Var>>, reachable: set<Node>)
    requires WellFormed(cfg) && forall n :: n in cfg.stmtOf ==> n in constants && n in liveVars
    requires reachable == {cfg.entry, cfg.exit}
    ensures ClosedUpTo(cfg, constants, {}, [cfg.entry])
    ensures Sourced(cfg, constants, map[], [cfg.entry])
    ensures forall n :: n in reachable <==> Kept(cfg, liveVars, {}, n)
  {
  }

  /** Marking `s` reached keeps the kept set in step: `s` is kept unless it is a dead assignment. */
  lemma KeptStep(cfg: Cfg, liveVars: map<Node, set<Var>>, reachable: set<Node>, visited: set<Node>,
                 s: Node, reachable': set<Node>)
    requires s in cfg.stmtOf && s in liveVars
    requires forall n :: n in reachable <==> Kept(cfg, liveVars, visited, n)
    requires reachable' == if IsDeadAssignment(cfg.stmtOf[s], liveVars[s]) then reachable else reachable + {s}
    ensures forall n :: n in reachable' <==> Kept(cfg, liveVars, visited + {s}, n)
  {
  }

  /** The successors of a node are nodes of the graph. */
  lemma SuccsAreNodes(mode: Mode, cfg: Cfg, constants: map<Node, Fact>, n: Node)
    requires WellFormed(cfg) && Covered(cfg, constants, n)
    ensures Succs(mode, cfg, constants, n) <= cfg.stmtOf.Keys
  {
    var edges := cfg.outEdges[n];
    assert forall f :: Targets(edges, f) <= cfg.stmtOf.Keys;
    if cfg.stmtOf[n].Switch? {
      var i :| 0 <= i < |edges| && edges[i].kind == SwitchDefault && edges[i].target == cfg.stmtOf[n].defaultTarget;
    }
  }

  /** Dequeuing `queue[0]` and appending `app` keeps the reached set closed up to the queue. */
  lemma ClosureStep(cfg: Cfg, constants: map<Node, Fact>, visited: set<Node>, queue: seq<Node>, app: seq<Node>)
    requires |queue| > 0 && Covered(cfg, constants, queue[0])
    requires ClosedUpTo(cfg, constants, visited, queue)
    requires GoodStep(cfg, constants, queue[0], visited + {queue[0]}, app)
    ensures ClosedUpTo(cfg, constants, visited + {queue[0]}, queue[1..] + app)
  {
    var s := queue[0];
    var visited', queue' := visited + {s}, queue[1..] + app;
    forall n, t | n in visited' && t in Succs(Definite, cfg, constants, n)
      ensures t in visited' || t in queue'
    {
      if n != s {
        assert t in visited || t in queue;
        if t in queue && t != s {
          var i :| 0 <= i < |queue| && queue[i] == t;
          assert queue'[i - 1] == t;
        }
      } else if t !in visited' {
        var i :| 0 <= i < |app| && app[i] == t;
        assert queue'[|queue| - 1 + i] == t;
      }
    }
  }

  /**
   * One dequeue keeps the record of the walk's order: `rank` gains the
   * dequeued statement if it is new, every reached statement stays grounded,
   * every queued one stays sourced, and fresh branches stay ahead of their
   * case targets.
   */
  lemma WalkStep(cfg: Cfg, constants: map<Node, Fact>, rank: map<Node, nat>, pinned: set<Node>,
                 visited: set<Node>, queue: seq<Node>, app: seq<Node>)
    returns (rank': map<Node, nat>, pinned': set<Node>)
    requires |queue| > 0 && Covered(cfg, constants, queue[0])
    requires app == Queued(cfg, constants, queue[0], visited + {queue[0]})
    requires Ranked(rank, visited) && Grounded(cfg, constants, rank) && Sourced(cfg, constants, rank, queue)
    requires FreshRecorded(cfg, constants, rank, pinned) && CasesBehind(cfg, constants, pinned, visited, queue)
    ensures Ranked(rank', visited + {queue[0]}) && Grounded(cfg, constants, rank')
    ensures Sourced(cfg, constants, rank', queue[1..] + app)
    ensures FreshRecorded(cfg, constants, rank', pinned')
    ensures CasesBehind(cfg, constants, pinned', visited + {queue[0]}, queue[1..] + app)
  {
    var s := queue[0];
    var visited' := visited + {s};
    QueuedIsGoodStep(cfg, constants, s, visited');
    if s !in visited {
      RankStep(rank, visited, s);
      GroundedStep(cfg, constants, rank, visited, queue);
      FreshStep(cfg, constants, rank, visited, pinned, s);
      FreshTargetsUnseen(cfg, constants, rank, visited, queue, s);
      rank' := rank[s := |visited|];
      pinned' := if Fresh(cfg, constants, s, visited) then pinned + {s} else pinned;
    } else {
      rank', pinned' := rank, pinned;
      assert visited' == visited && queue[0] == s;
    }
    QueuedWithinStep(cfg, constants, s, visited', Before(rank', s));
    SourcedStep(cfg, constants, rank, rank', queue, app);
    OrderStep(cfg, constants, pinned, pinned', visited, queue, app);
  }

  /** Ranking a newly reached statement last leaves the earlier ranks' prefixes alone. */
  lemma RankStep(rank: map<Node, nat>, visited: set<Node>, s: Node)
    requires Ranked(rank, visited) && s !in visited
    ensures Ranked(rank[s := |visited|], visited + {s})
    ensures Before(rank[s := |visited|], s) == visited
    ensures forall u :: u in rank ==> Before(rank[s := |visited|], u) == Before(rank, u)
  {
    var rank' := rank[s := |visited|];
    assert |visited + {s}| == |visited| + 1;
    forall m | m in visited
      ensures m in Before(rank', s)
    {
      assert rank'[m] == rank[m] < |visited|;
    }
    forall u | u in rank
      ensures Before(rank', u) == Before(rank, u)
    {
      assert s !in Before(rank', u);
    }
  }

  /** A newly reached statement is grounded by the statement that queued it. */
  lemma GroundedStep(cfg: Cfg, constants: map<Node, Fact>, rank: map<Node, nat>, visited: set<Node>, queue: seq<Node>)
    requires Ranked(rank, visited) && |queue| > 0 && queue[0] !in visited
    requires Grounded(cfg, constants, rank) && Sourced(cfg, constants, rank, queue)
    ensures Grounded(cfg, constants, rank[queue[0] := |visited|])
  {
    var s := queue[0];
    var rank' := rank[s := |visited|];
    RankStep(rank, visited, s);
    forall v | v in rank' && v != cfg.entry
      ensures exists u :: Queues(cfg, constants, rank', u, v) && rank'[u] < rank'[v]
    {
      if v == s {
        var u :| Queues(cfg, constants, rank, u, s);
        assert Queues(cfg, constants, rank', u, v);
      } else {
        var u :| Queues(cfg, constants, rank, u, v) && rank[u] < rank[v];
        assert Queues(cfg, constants, rank', u, v);
      }
    }
  }

  lemma FreshStep(cfg: Cfg, constants: map<Node, Fact>, rank: map<Node, nat>, visited: set<Node>,
                  pinned: set<Node>, s: Node)
    requires Ranked(rank, visited) && s !in visited && FreshRecorded(cfg, constants, rank, pinned)
    ensures FreshRecorded(cfg, constants, rank[s := |visited|],
                          if Fresh(cfg, constants, s, visited) then pinned + {s} else pinned)
  {
    RankStep(rank, visited, s);
  }

  /** A reached statement other than the entry is a possible successor of an earlier one. */
  lemma ReachedIsSeen(cfg: Cfg, constants: map<Node, Fact>, rank: map<Node, nat>, visited: set<Node>, t: Node)
    requires Ranked(rank, visited) && Grounded(cfg, constants, rank)
    ensures t in visited ==> Seen(cfg, constants, visited, t)
  {
    if t in visited && t != cfg.entry {
      var u :| Queues(cfg, constants, rank, u, t) && rank[u] < rank[t];
      StepBounds(cfg, constants, u, Before(rank, u));
    }
  }

  /** A queued statement other than the entry is a possible successor of a reached one. */
  lemma QueuedIsSeen(cfg: Cfg, constants: map<Node, Fact>, rank: map<Node, nat>, visited: set<Node>,
                     queue: seq<Node>, t: Node)
    requires Ranked(rank, visited) && Sourced(cfg, constants, rank, queue)
    ensures t in queue ==> Seen(cfg, constants, visited, t)
  {
    if t in queue && t != cfg.entry {
      var i :| 0 <= i < |queue| && queue[i] == t;
      var u :| Queues(cfg, constants, rank, u, t);
      StepBounds(cfg, constants, u, Before(rank, u));
    }
  }

  /** The case targets of a branch fresh at its first dequeue are neither reached nor queued. */
  lemma FreshTargetsUnseen(cfg: Cfg, constants: map<Node, Fact>, rank: map<Node, nat>, visited: set<Node>,
                           queue: seq<Node>, s: Node)
    requires Ranked(rank, visited) && Grounded(cfg, constants, rank) && Sourced(cfg, constants, rank, queue)
    ensures Fresh(cfg, constants, s, visited) ==>
              forall t :: t in CaseTargets(cfg, constants, s) ==> t != s && t !in visited && t !in queue
  {
    forall t | t in CaseTargets(cfg, constants, s)
      ensures !Seen(cfg, constants, visited, t) ==> t !in visited && t !in queue
    {
      ReachedIsSeen(cfg, constants, rank, visited, t);
      QueuedIsSeen(cfg, constants, rank, visited, queue, t);
    }
  }

  /**
   * What a dequeue appends lies in the dequeued statement's step: a fresh
   * branch with an unreached case target queues no default target.
   */
  lemma QueuedWithinStep(cfg: Cfg, constants: map<Node, Fact>, s: Node, reached: set<Node>, before: set<Node>)
    requires Covered(cfg, constants, s)
    requires Fresh(cfg, constants, s, before) ==> forall t :: t in CaseTargets(cfg, constants, s) ==> t !in reached
    ensures forall i :: 0 <= i < |Queued(cfg, constants, s, reached)| ==>
              Queued(cfg, constants, s, reached)[i] in Step(cfg, constants, s, before)
  {
    QueuedIsGoodStep(cfg, constants, s, reached);
    if Fresh(cfg, constants, s, before) {
      assert cfg.stmtOf[s].Switch?;
      var c := Lookup(constants[s], cfg.stmtOf[s].discriminant);
      var edges := cfg.outEdges[s];
      var t :| t in Targets(edges, CaseOf(c.n));
      assert !(Targets(edges, CaseOf(c.n)) <= reached);
      PendingExactly(edges, CaseOf(c.n), reached);
    }
  }

  /** The queue stays sourced when what is appended lies in the dequeued statement's step. */
  lemma SourcedStep(cfg: Cfg, constants: map<Node, Fact>, rank: map<Node, nat>, rank': map<Node, nat>,
                    queue: seq<Node>, app: seq<Node>)
    requires |queue| > 0 && queue[0] in rank' && Covered(cfg, constants, queue[0])
    requires Sourced(cfg, constants, rank, queue)
    requires forall u :: u in rank ==> u in rank' && Before(rank', u) == Before(rank, u)
    requires forall i :: 0 <= i < |app| ==> app[i] in Step(cfg, constants, queue[0], Before(rank', queue[0]))
    ensures Sourced(cfg, constants, rank', queue[1..] + app)
  {
    var q' := queue[1..] + app;
    forall i | 0 <= i < |q'|
      ensures q'[i] == cfg.entry || exists u :: Queues(cfg, constants, rank', u, q'[i])
    {
      if i < |queue| - 1 {
        assert q'[i] == queue[i + 1];
        if queue[i + 1] != cfg.entry {
          var u :| Queues(cfg, constants, rank, u, queue[i + 1]);
          assert Queues(cfg, constants, rank', u, q'[i]);
        }
      } else {
        assert q'[i] == app[i - (|queue| - 1)];
        assert Queues(cfg, constants, rank', queue[0], q'[i]);
      }
    }
  }

  /**
   * Fresh branches stay ahead of their case targets: the dequeued statement
   * is none of their case targets, and whatever is appended lands behind them.
   */
  lemma OrderStep(cfg: Cfg, constants: map<Node, Fact>, pinned: set<Node>, pinned': set<Node>,
                  visited: set<Node>, queue: seq<Node>, app: seq<Node>)
    requires |queue| > 0
    requires pinned <= visited && CasesBehind(cfg, constants, pinned, visited, queue)
    requires forall i :: 0 <= i < |app| ==> app[i] !in visited + {queue[0]}
    requires pinned' == pinned ||
             (pinned' == pinned + {queue[0]} &&
              forall t :: t in CaseTargets(cfg, constants, queue[0]) ==> t !in visited + {queue[0]} && t !in queue)
    ensures CasesBehind(cfg, constants, pinned', visited + {queue[0]}, queue[1..] + app)
  {
    var s, visited', q' := queue[0], visited + {queue[0]}, queue[1..] + app;
    forall u, i | u in pinned' && 0 <= i < |q'| && q'[i] == u
      ensures forall t :: t in CaseTargets(cfg, constants, u) ==> t !in visited'
      ensures forall j :: 0 <= j < |q'| && q'[j] in CaseTargets(cfg, constants, u) ==> i < j
    {
      assert i < |queue| - 1;
      assert queue[i + 1] == u;
      forall j | 0 <= j < |q'|
        ensures j < |queue| - 1 ==> q'[j] == queue[j + 1]
      {
      }
      if u in pinned {
        assert queue[0] !in CaseTargets(cfg, constants, u);
      }
    }
  }

  /** The queue holds only nodes of the graph. */
  lemma QueueStep(cfg: Cfg, constants: map<Node, Fact>, queue: seq<Node>, app: seq<Node>)
    requires |queue| > 0 && forall i :: 0 <= i < |queue| ==> queue[i] in cfg.stmtOf
    requires forall i :: 0 <= i < |app| ==> Covered(cfg, constants, app[i])
    ensures forall i :: 0 <= i < |queue[1..] + app| ==> (queue[1..] + app)[i] in cfg.stmtOf
  {
    forall i | 0 <= i < |queue[1..] + app|
      ensures (queue[1..] + app)[i] in cfg.stmtOf
    {
      if i < |queue| - 1 {
        assert (queue[1..] + app)[i] == queue[i + 1];
      } else {
        assert (queue[1..] + app)[i] == app[i - (|queue| - 1)];
      }
    }
  }

  /** The walk's termination measure decreases lexicographically with each step. */
  lemma MeasureStep(nodes: set<Node>, visited: set<Node>, queue: seq<Node>, app: seq<Node>)
    requires |queue| > 0 && queue[0] in nodes
    requires forall i :: 0 <= i < |app| ==> app[i] !in visited + {queue[0]}
    ensures var visited' := visited + {queue[0]};
      |nodes - visited'| < |nodes - visited| ||
      (|nodes - visited'| == |nodes - visited| && CountIn(queue[1..] + app, visited') < CountIn(queue, visited))
  {
    var s := queue[0];
    if s in visited {
      assert visited + {s} == visited;
      CountDrop(visited, queue, app);
    } else {
      assert nodes - visited == (nodes - (visited + {s})) + {s};
    }
  }

  /** Dequeuing an already reached node and appending unreached ones lowers the count by one. */
  lemma CountDrop(visited: set<Node>, queue: seq<Node>, app: seq<Node>)
    requires |queue| > 0 && queue[0] in visited
    requires forall i :: 0 <= i < |app| ==> app[i] !in visited
    ensures CountIn(queue[1..] + app, visited) == CountIn(queue, visited) - 1
  {
    CountInAppend(queue[1..], app, visited);
    CountInNone(app, visited);
  }
}
