# Constant propagation and dead-code detection (Tai-e, assignment A3)

This project is a Dafny model of two cooperating intraprocedural analyses from
the Tai-e static-analysis framework for Java.

**Constant propagation** (`ConstantPropagation.java`) tracks which local
variables hold a known `int` value at each program point. A value is `Undef`,
`Constant(n)` for a 32-bit `n`, or `NAC` (not a constant). A fact maps variables
to values, and a missing key means `Undef`. The analysis supplies four pieces
that a generic forward dataflow solver drives:

- the boundary fact: the method's int-like parameters are `NAC`;
- the initial fact, which is empty;
- `meetInto`, which meets one fact into another;
- `transferNode`, which rebinds the int-like variable a statement defines to its
  right-hand side, evaluated on the IN fact.

The evaluator folds binary expressions with Java's own `int` semantics
(JLS 15.17 to 15.22).

**Dead-code detection** (`DeadCodeDetection.java`) makes one breadth-first walk
of the control-flow graph (CFG) from its entry.

- At a conditional branch whose condition folds to a constant under the
  constant-propagation IN fact, it follows only the edge that constant selects.
- At a switch whose discriminant is a known constant, it follows the matching
  case edges whose targets it has not yet dequeued. It follows the default
  edge when it queued no case target, which is also the case when a matching
  target was already dequeued.
- It keeps every statement it reaches, except dead assignments. A dead
  assignment writes a variable that is not live afterwards, and its right-hand
  side has no side effect.
- It reports every statement of the method it did not keep, ordered by index.

The model has eight modules, one file each:

| file | module | what it holds |
|---|---|---|
| `java_int.dfy` | `JavaInt` | `int` arithmetic: wrap-around, truncating `/` and `%`, masked shifts, bitwise operators, with JLS identities and worked values |
| `lattice.dfy` | `Lattice` | the value lattice and `meetValue` |
| `ir.dfy` | `Ir` | variables, types, expressions and statements of the three-address IR (intermediate representation) |
| `facts.dfy` | `Facts` | facts as maps, and the mutable `CPFact` class |
| `constprop.dfy` | `ConstantPropagation` | `canHoldInt`, `evaluate`, the transfer function, the JVM reference semantics, and the imperative `newBoundaryFact`, `newInitialFact`, `meetInto` and `transferNode` |
| `deadcode.dfy` | `DeadCodeDetection` | the CFG, `hasNoSideEffect`, the walk (`analyze`) and the sorted result |
| `scenarios.dfy` | `Scenarios` | the branch example: the IN facts are given and checked against `Transfer` and `Meet`, and `Analyze` is proved to report exactly `[7]` |
| `switch_scenario.dfy` | `SwitchScenario` | the switch example: the IN facts are given and checked against `Transfer` and `Meet`, and `Analyze` is proved to report exactly `[3, 4, 6]` |

How the model is proved:

- `evaluate` is proved sound against a reference semantics of Java `int`
  expressions. It is also proved monotone, and so is the transfer function.
- The imperative operations are proved against the pure functions they
  implement.
- `analyze` pins the reached set between two bounds:
  - the reached set holds the entry and is closed under the successors the walk
    must follow;
  - the reached set lies within every set that holds the entry and is closed
    under the steps the walk may take. A step is a statement's possible
    successors, except at a fresh switch: one with a known discriminant and
    matching case targets, none of which is the switch itself, the entry, or a
    possible successor of a statement reached before it. Such a switch steps
    only to those case targets, because the queue is first-in first-out and
    they are still unreached when it is dequeued.

  From these bounds it follows that unreachable statements are reported and
  that statements reached along forced edges are kept.

## Model

Source paths are relative to the repository root.
`CP` stands for `A3/tai-e/src/main/java/pascal/taie/analysis/dataflow/analysis/constprop/ConstantPropagation.java`
and `DC` for `A3/tai-e/src/main/java/pascal/taie/analysis/dataflow/analysis/DeadCodeDetection.java`.
The table spells both out.

| member | source | states |
|---|---|---|
| JavaInt.Wrap | A3/tai-e/src/main/java/pascal/taie/analysis/dataflow/analysis/constprop/ConstantPropagation.java:158-160 | The result is the `int` congruent to the argument modulo 2^32, and equals the argument when it is in range (JLS 4.2.2). |
| JavaInt.Add | A3/tai-e/src/main/java/pascal/taie/analysis/dataflow/analysis/constprop/ConstantPropagation.java:158 | `+` gives the mathematical sum modulo 2^32, and the exact sum when it does not overflow (JLS 15.18.2). |
| JavaInt.Sub | A3/tai-e/src/main/java/pascal/taie/analysis/dataflow/analysis/constprop/ConstantPropagation.java:159 | `-` gives the mathematical difference modulo 2^32, and the exact difference when it does not overflow. |
| JavaInt.Mul | A3/tai-e/src/main/java/pascal/taie/analysis/dataflow/analysis/constprop/ConstantPropagation.java:160 | `*` gives the low 32 bits of the mathematical product, and the exact product when it fits (JLS 15.17.1). |
| JavaInt.TruncDiv | A3/tai-e/src/main/java/pascal/taie/analysis/dataflow/analysis/constprop/ConstantPropagation.java:161 | The quotient rounds toward zero: `abs(b*q) <= abs(a) < abs(b)*(abs(q)+1)`. It is positive only when the signs agree, negative only when they differ, and non-zero when `abs(a) >= abs(b)`. |
| JavaInt.Div | A3/tai-e/src/main/java/pascal/taie/analysis/dataflow/analysis/constprop/ConstantPropagation.java:161 | `a / b` is the truncating quotient with the same bounds and signs as `TruncDiv`, except that `MIN_VALUE / -1` overflows back to `MIN_VALUE` (JLS 15.17.2). |
| JavaInt.Rem | A3/tai-e/src/main/java/pascal/taie/analysis/dataflow/analysis/constprop/ConstantPropagation.java:162 | `(a/b)*b + a%b == a` in `int` arithmetic. The remainder is zero or has the dividend's sign, and its magnitude is below the divisor's (JLS 15.17.3). |
| JavaInt.ShiftDistance | A3/tai-e/src/main/java/pascal/taie/analysis/dataflow/analysis/constprop/ConstantPropagation.java:175-177 | The distance used is the low five bits of the right operand: below 32 and equal to it modulo 32 (JLS 15.19). |
| JavaInt.Shl | A3/tai-e/src/main/java/pascal/taie/analysis/dataflow/analysis/constprop/ConstantPropagation.java:175 | `a << s` is `a * 2^k` modulo 2^32, for the masked distance `k`. |
| JavaInt.Shr | A3/tai-e/src/main/java/pascal/taie/analysis/dataflow/analysis/constprop/ConstantPropagation.java:176 | `a >> s` is the floor of `a / 2^k` and has the sign of `a` (sign extension). |
| JavaInt.Ushr | A3/tai-e/src/main/java/pascal/taie/analysis/dataflow/analysis/constprop/ConstantPropagation.java:177 | `a >>> s` is the unsigned 32-bit pattern of `a` divided by 2^k (zero fill) for `k > 0`, and `a` itself for `k = 0`. |
| JavaInt.UshrOfNonNegative | A3/tai-e/src/main/java/pascal/taie/analysis/dataflow/analysis/constprop/ConstantPropagation.java:176-177 | For non-negative `n`, `n >>> s == n >> s` (JLS 15.19). |
| JavaInt.UshrOfNegative | A3/tai-e/src/main/java/pascal/taie/analysis/dataflow/analysis/constprop/ConstantPropagation.java:176-177 | For negative `n`, `n >>> s == (n >> s) + (2 << ~s)`, the identity JLS 15.19 gives. |
| JavaInt.Bitwise | A3/tai-e/src/main/java/pascal/taie/analysis/dataflow/analysis/constprop/ConstantPropagation.java:180-184 | Each of the 32 bits of the result is the connective applied to the same bit of the two operands (JLS 15.22.1). |
| JavaInt.Or | A3/tai-e/src/main/java/pascal/taie/analysis/dataflow/analysis/constprop/ConstantPropagation.java:181 | `a \| b` is negative exactly when either operand is. |
| JavaInt.And | A3/tai-e/src/main/java/pascal/taie/analysis/dataflow/analysis/constprop/ConstantPropagation.java:182 | `a & b` is negative exactly when both operands are. |
| JavaInt.Xor | A3/tai-e/src/main/java/pascal/taie/analysis/dataflow/analysis/constprop/ConstantPropagation.java:183 | `a ^ b` is negative exactly when the operands' signs differ. |
| JavaInt.DivExamples | A3/tai-e/src/main/java/pascal/taie/analysis/dataflow/analysis/constprop/ConstantPropagation.java:161 | The JLS 15.17.2 worked values: `5/3 = 1`, `5/-3 = -1`, `-5/3 = -1`, `-5/-3 = 1`, and `MIN_VALUE / -1 = MIN_VALUE`. |
| JavaInt.RemExamples | A3/tai-e/src/main/java/pascal/taie/analysis/dataflow/analysis/constprop/ConstantPropagation.java:162 | The JLS 15.17.3 worked values: `5%3 = 2`, `5%-3 = 2`, `-5%3 = -2`, `-5%-3 = -2`. |
| JavaInt.AddExamples | A3/tai-e/src/main/java/pascal/taie/analysis/dataflow/analysis/constprop/ConstantPropagation.java:158-159 | `MAX_VALUE + 1 = MIN_VALUE` and `MIN_VALUE - 1 = MAX_VALUE`. |
| JavaInt.ShiftExamples | A3/tai-e/src/main/java/pascal/taie/analysis/dataflow/analysis/constprop/ConstantPropagation.java:175-177 | `1 << 33 = 2` (masked distance), `-8 >> 1 = -4` and `-1 >>> 28 = 15`. |
| Lattice.Meet | A3/tai-e/src/main/java/pascal/taie/analysis/dataflow/analysis/constprop/ConstantPropagation.java:76-85 | `meetValue` returns an upper bound of both arguments that lies below every other upper bound (`Undef` ⊑ constants ⊑ `NAC`). |
| Lattice.MeetSemilattice | A3/tai-e/src/main/java/pascal/taie/analysis/dataflow/analysis/constprop/ConstantPropagation.java:76-85 | `meetValue` is commutative, associative and idempotent. `Undef` is its identity, `NAC` absorbs, and `a ⊑ b` holds exactly when `meetValue(a, b) == b`. |
| Lattice.MeetMonotone | A3/tai-e/src/main/java/pascal/taie/analysis/dataflow/analysis/constprop/ConstantPropagation.java:76-85 | `meetValue` is monotone in both arguments. |
| Lattice.LeqPartialOrder | A3/tai-e/src/main/java/pascal/taie/analysis/dataflow/analysis/constprop/ConstantPropagation.java:76-85 | The order that `meetValue` joins in is reflexive, antisymmetric and transitive. |
| Lattice.LeqRaisesHeight | A3/tai-e/src/main/java/pascal/taie/analysis/dataflow/analysis/constprop/ConstantPropagation.java:76-85 | Every strict step up the order raises the height, which is at most 2. A variable's value can change at most twice, which bounds the solver. |
| Facts.Bind | A3/tai-e/src/main/java/pascal/taie/analysis/dataflow/analysis/constprop/ConstantPropagation.java:69 | After an update, looking up the updated variable gives the new value and every other lookup is unchanged. Binding `Undef` removes the key, so facts stay normalized. |
| Facts.NormalizedExtensional | A3/tai-e/src/main/java/pascal/taie/analysis/dataflow/analysis/constprop/ConstantPropagation.java:98 | Two normalized facts are equal exactly when every lookup agrees, so "the map changed" means "some variable's value changed". |
| Facts.CPFact.constructor | A3/tai-e/src/main/java/pascal/taie/analysis/dataflow/analysis/constprop/ConstantPropagation.java:52 | A new fact is empty. |
| Facts.CPFact.Update | A3/tai-e/src/main/java/pascal/taie/analysis/dataflow/analysis/constprop/ConstantPropagation.java:69 | `update` replaces the entries with `Bind` of the old ones and keeps them normalized. |
| Facts.CPFact.Remove | A3/tai-e/src/main/java/pascal/taie/analysis/dataflow/analysis/constprop/ConstantPropagation.java:93 | `remove` drops exactly one key. |
| Facts.CPFact.Copy | A3/tai-e/src/main/java/pascal/taie/analysis/dataflow/analysis/constprop/ConstantPropagation.java:89 | `copy` returns a fresh object with the same entries. |
| Facts.CPFact.CopyFrom | A3/tai-e/src/main/java/pascal/taie/analysis/dataflow/analysis/constprop/ConstantPropagation.java:98 | `copyFrom` makes the entries those of the other fact and reports whether they differ from the old ones. |
| ConstantPropagation.CanHoldInt | A3/tai-e/src/main/java/pascal/taie/analysis/dataflow/analysis/constprop/ConstantPropagation.java:104-117 | A variable is tracked exactly when its type is primitive, not floating point, and fits one 32-bit JVM slot. These are byte, short, int, char and boolean; long, float, double and reference types are not tracked. |
| ConstantPropagation.Evaluate | A3/tai-e/src/main/java/pascal/taie/analysis/dataflow/analysis/constprop/ConstantPropagation.java:126-191 | A binary expression is a constant only when both operands are constants in the IN fact, and a constant condition is 0 or 1. Two constant operands are folded by `FoldConstants`. |
| ConstantPropagation.FoldMatchesJvm | A3/tai-e/src/main/java/pascal/taie/analysis/dataflow/analysis/constprop/ConstantPropagation.java:149-187 | Folding two constant operands with `FoldConstants` gives the constant the JVM computes (`ConcreteBinary`), `Undef` for a division or remainder by zero, and `NAC` for the long/float/double comparisons. |
| ConstantPropagation.EvaluateLeaves | A3/tai-e/src/main/java/pascal/taie/analysis/dataflow/analysis/constprop/ConstantPropagation.java:127-130 | A variable evaluates to its value in the IN fact (`Undef` when absent), and an `int` literal to that constant. |
| ConstantPropagation.EvaluateStrict | A3/tai-e/src/main/java/pascal/taie/analysis/dataflow/analysis/constprop/ConstantPropagation.java:136-146 | If either operand is `NAC`, the result is `NAC`, unless the operator is `/` or `%` and the divisor is `Constant(0)`, which gives `Undef`. Otherwise an `Undef` operand gives `Undef`. |
| ConstantPropagation.EvaluateConstantsExact | A3/tai-e/src/main/java/pascal/taie/analysis/dataflow/analysis/constprop/ConstantPropagation.java:149-187 | With two constant operands the result is the constant the JVM computes (`ConcreteBinary`). Division or remainder by zero gives `Undef`, and the long/float/double comparison operators give `NAC`. |
| ConstantPropagation.EvaluateOtherIsNac | A3/tai-e/src/main/java/pascal/taie/analysis/dataflow/analysis/constprop/ConstantPropagation.java:185-190 | Every expression that is not a variable, an `int` literal or a binary expression evaluates to `NAC`. |
| ConstantPropagation.EvaluateSound | A3/tai-e/src/main/java/pascal/taie/analysis/dataflow/analysis/constprop/ConstantPropagation.java:126-191 | If the fact describes the current values of the variables, it describes the value the expression actually evaluates to. |
| ConstantPropagation.EvaluateMonotone | A3/tai-e/src/main/java/pascal/taie/analysis/dataflow/analysis/constprop/ConstantPropagation.java:126-191 | A pointwise larger fact gives a larger value. |
| ConstantPropagation.IntDef | A3/tai-e/src/main/java/pascal/taie/analysis/dataflow/analysis/constprop/ConstantPropagation.java:90-92 | It returns the defined variable exactly when the statement is a definition whose left-hand side is a variable that can hold an `int`. |
| ConstantPropagation.Transfer | A3/tai-e/src/main/java/pascal/taie/analysis/dataflow/analysis/constprop/ConstantPropagation.java:88-99 | OUT agrees with IN on every variable except the int-like variable the statement defines, which gets its right-hand side evaluated on the old IN (so `x = x + 1` reads the old `x`). Normalization is preserved. |
| ConstantPropagation.TransferMonotone | A3/tai-e/src/main/java/pascal/taie/analysis/dataflow/analysis/constprop/ConstantPropagation.java:88-99 | The transfer function is monotone, which the solver's termination relies on. |
| ConstantPropagation.TransferSound | A3/tai-e/src/main/java/pascal/taie/analysis/dataflow/analysis/constprop/ConstantPropagation.java:88-99 | If IN describes the values before the statement, OUT describes the values after it, with the defined variable holding the value of its right-hand side. When that right-hand side is one the analysis does not fold (a negation, a load, a cast, an array length or a call), OUT describes the values after it whatever value the defined variable receives. |
| ConstantPropagation.UntrackedComparison | A3/tai-e/src/main/java/pascal/taie/analysis/dataflow/analysis/constprop/ConstantPropagation.java:131-146 | An `int` variable assigned a long/float/double comparison of untracked operands is bound to `Undef`, and `Undef` describes no value. This is the gap named under "Left out". |
| ConstantPropagation.TransferIntOnly | A3/tai-e/src/main/java/pascal/taie/analysis/dataflow/analysis/constprop/ConstantPropagation.java:90-96 | Facts that mention only int-like variables keep that property through transfer. |
| ConstantPropagation.NewBoundaryFact | A3/tai-e/src/main/java/pascal/taie/analysis/dataflow/analysis/constprop/ConstantPropagation.java:51-59 | A variable is `NAC` exactly when it is a parameter that can hold an `int`; everything else is `Undef`. |
| ConstantPropagation.NewInitialFact | A3/tai-e/src/main/java/pascal/taie/analysis/dataflow/analysis/constprop/ConstantPropagation.java:61-64 | Every variable is `Undef`. |
| ConstantPropagation.MeetInto | A3/tai-e/src/main/java/pascal/taie/analysis/dataflow/analysis/constprop/ConstantPropagation.java:66-71 | Every variable of `target` becomes `meetValue` of its old value and its value in `fact`. Variables absent from `fact` keep their value, since `Undef` is the identity. `fact` is left unchanged. |
| ConstantPropagation.TransferNode | A3/tai-e/src/main/java/pascal/taie/analysis/dataflow/analysis/constprop/ConstantPropagation.java:87-99 | OUT becomes `Transfer` of the old IN, IN is left unchanged, and the result is true exactly when some variable's value in OUT changed. |
| DeadCodeDetection.HasNoSideEffect | A3/tai-e/src/main/java/pascal/taie/analysis/dataflow/analysis/DeadCodeDetection.java:168-186 | The classifier accepts exactly the right-hand sides with none of the effects it guards against: allocation, failing cast, class initialization, null dereference, index fault, and division by zero. |
| DeadCodeDetection.IsDeadAssignment | A3/tai-e/src/main/java/pascal/taie/analysis/dataflow/analysis/DeadCodeDetection.java:83-92 | A statement is a dead assignment exactly when it is an assignment to a variable that is not live afterwards, and its right-hand side has none of the guarded effects. |
| DeadCodeDetection.ConditionValue | A3/tai-e/src/main/java/pascal/taie/analysis/dataflow/analysis/DeadCodeDetection.java:100-102 | A branch condition that folds to a constant folds to 0 or 1. |
| DeadCodeDetection.PathEndsInClosed | A3/tai-e/src/main/java/pascal/taie/analysis/dataflow/analysis/DeadCodeDetection.java:78-157 | A set holding the entry and closed under the walk's successors holds the end of every path from the entry. |
| DeadCodeDetection.DefiniteIsPossible | A3/tai-e/src/main/java/pascal/taie/analysis/dataflow/analysis/DeadCodeDetection.java:124-148 | Every successor the walk must follow is one it may follow. The two differ only at a switch with a constant discriminant, whose default target is also queued when the matching case targets were already reached. |
| DeadCodeDetection.PendingExactly | A3/tai-e/src/main/java/pascal/taie/analysis/dataflow/analysis/DeadCodeDetection.java:95-97 | What is queued from a list of edges is exactly the selected targets not yet reached, and nothing is queued exactly when all of them are reached. |
| DeadCodeDetection.EnqueueTargets | A3/tai-e/src/main/java/pascal/taie/analysis/dataflow/analysis/DeadCodeDetection.java:131-138 | The queue grows by the unreached selected targets in edge order; each appended node is unreached and selected, and none is missed. The flag says whether anything was queued. |
| DeadCodeDetection.EnqueueSuccessors | A3/tai-e/src/main/java/pascal/taie/analysis/dataflow/analysis/DeadCodeDetection.java:95-156 | The queue grows at its tail by exactly `Queued`, the function that states what one dequeue appends, statement kind by statement kind. At a switch with a constant discriminant, that is the unreached matching case targets, followed by the default target exactly when every matching case target is already reached and the default is not. What it appends is only unreached possible successors, and it includes every unreached successor the walk must follow. |
| DeadCodeDetection.QueuedIsGoodStep | A3/tai-e/src/main/java/pascal/taie/analysis/dataflow/analysis/DeadCodeDetection.java:95-156 | What one dequeue appends is only unreached possible successors, and it includes every unreached definite one. |
| DeadCodeDetection.QueuedWithinStep | A3/tai-e/src/main/java/pascal/taie/analysis/dataflow/analysis/DeadCodeDetection.java:128-141 | When a switch is fresh and a matching case target is still unreached, it appends nothing outside its matching case targets, so no default. Otherwise it appends only possible successors. |
| DeadCodeDetection.StepBounds | A3/tai-e/src/main/java/pascal/taie/analysis/dataflow/analysis/DeadCodeDetection.java:124-148 | A step lies between the successors the walk must follow and those it may follow. |
| DeadCodeDetection.StepMonotone | A3/tai-e/src/main/java/pascal/taie/analysis/dataflow/analysis/DeadCodeDetection.java:124-148 | Knowing more earlier-reached statements can only widen a step, because a switch stops being fresh. |
| DeadCodeDetection.PossibleClosedIsStepClosed | A3/tai-e/src/main/java/pascal/taie/analysis/dataflow/analysis/DeadCodeDetection.java:124-148 | A set closed under possible successors is closed under steps. |
| DeadCodeDetection.ReachedWithin | A3/tai-e/src/main/java/pascal/taie/analysis/dataflow/analysis/DeadCodeDetection.java:78-157 | If each reached statement other than the entry was queued by a step of one reached before it, the reached set lies in every set that holds the entry and is closed under steps. The proof is by induction on the order in which statements were reached. |
| DeadCodeDetection.FreshTargetsUnseen | A3/tai-e/src/main/java/pascal/taie/analysis/dataflow/analysis/DeadCodeDetection.java:78-80 | When a switch is fresh at its first dequeue, its matching case targets are neither reached nor queued, and none is the switch itself. |
| DeadCodeDetection.OrderStep | A3/tai-e/src/main/java/pascal/taie/analysis/dataflow/analysis/DeadCodeDetection.java:78-79 | First-in first-out: every queued copy of a fresh switch stays ahead of every queued copy of its matching case targets, and those targets stay unreached while it is queued. |
| DeadCodeDetection.WalkStep | A3/tai-e/src/main/java/pascal/taie/analysis/dataflow/analysis/DeadCodeDetection.java:78-157 | One dequeue keeps the ranking of reached statements, their grounding in earlier steps, the sourcing of queued ones, and the order of fresh switches before their case targets. |
| DeadCodeDetection.InsertOrdered | A3/tai-e/src/main/java/pascal/taie/analysis/dataflow/analysis/DeadCodeDetection.java:67 | Adding to the index-ordered set keeps it strictly increasing, so there are no duplicates, and it adds exactly the new element. |
| DeadCodeDetection.IncreasingUnique | A3/tai-e/src/main/java/pascal/taie/analysis/dataflow/analysis/DeadCodeDetection.java:67 | Two index-ordered sequences with the same members are equal, so the reported list is fixed by the set of dead statements. |
| DeadCodeDetection.CollectDead | A3/tai-e/src/main/java/pascal/taie/analysis/dataflow/analysis/DeadCodeDetection.java:158-161 | The result is strictly increasing and holds exactly the statements not kept. |
| DeadCodeDetection.Analyze | A3/tai-e/src/main/java/pascal/taie/analysis/dataflow/analysis/DeadCodeDetection.java:57-163 | The walk terminates. The reached set holds the entry and is closed under the successors the walk must follow. It lies within every set that holds the entry and is closed under steps. A switch with a known discriminant is fresh when it has matching case targets and none of them is the switch itself, the entry, or a possible successor of a statement reached before it. A fresh switch steps only to its matching case targets: it does not itself lead to its default target, although the default can still be reached along another edge. The result is ordered by index and is exactly the statements not kept. Entry and exit are never reported. |
| DeadCodeDetection.UnreachableIsDead | A3/tai-e/src/main/java/pascal/taie/analysis/dataflow/analysis/DeadCodeDetection.java:71-80 | A statement outside some set that holds the entry and is closed under steps is reported, unless it is the entry or the exit. |
| DeadCodeDetection.DefinitelyReachableIsKept | A3/tai-e/src/main/java/pascal/taie/analysis/dataflow/analysis/DeadCodeDetection.java:81-98 | A statement at the end of a path of forced successors is reported only if it is a dead assignment. |
| DeadCodeDetection.MeasureStep | A3/tai-e/src/main/java/pascal/taie/analysis/dataflow/analysis/DeadCodeDetection.java:78-80 | Each step lowers the measure (unreached statements, then reached entries still queued) lexicographically. |
| Scenarios.BranchFactsFollow | A3/tai-e/src/main/java/pascal/taie/analysis/dataflow/analysis/constprop/ConstantPropagation.java:87-99 | On `x = 1; y = x + 1; if (y > 5) ...`, with the IN facts given, each IN fact of the prefix is the transfer of the previous one, and the condition folds to 0. |
| Scenarios.JoinFactsFollow | A3/tai-e/src/main/java/pascal/taie/analysis/dataflow/analysis/constprop/ConstantPropagation.java:66-99 | In the same example the branch passes its IN fact to both arms. The fact at the join is the pointwise `meetValue` of the two arms' OUT facts, and the return passes it on to the exit. |
| Scenarios.BranchElimination | A3/tai-e/src/main/java/pascal/taie/analysis/dataflow/analysis/DeadCodeDetection.java:99-117 | On that example the detector reports exactly `a = 1`, the statement behind the always-false branch. |
| SwitchScenario.SwitchFactsFollow | A3/tai-e/src/main/java/pascal/taie/analysis/dataflow/analysis/constprop/ConstantPropagation.java:66-99 | On `x = 3; switch (x) ...`, with the IN facts given, the fact at the switch is the transfer of the assignment, so `x` is 3 there. Each arm's IN fact is the switch's OUT fact. The fact at the exit is the pointwise `meetValue` of the four arms' OUT facts. |
| SwitchScenario.TakenClosed | A3/tai-e/src/main/java/pascal/taie/analysis/dataflow/analysis/DeadCodeDetection.java:124-141 | The path entry, `x = 3`, switch, `case 3`, exit is closed under steps. The switch is fresh there, so its step is its `case 3` target alone. |
| SwitchScenario.SwitchElimination | A3/tai-e/src/main/java/pascal/taie/analysis/dataflow/analysis/DeadCodeDetection.java:124-141 | On that example the detector reports exactly the arms for cases 1 and 2 and the default arm. |

## Left out

- The generic forward-dataflow solver, `isForward`, the constructors, `AnalysisConfig` and the `ID` strings are not modelled. They are framework plumbing around the operations above.
- Looking results up by name through `ir.getResult` is not modelled. The CFG, the constant-propagation IN facts, the live-variable sets and the statement list are parameters of `Analyze`, and the parameter list is a parameter of `NewBoundaryFact`.
- CFG construction and live-variable analysis are not modelled; their results are inputs. `WellFormed` states what `Analyze` needs of the CFG.
- The internals of `CPFact`, `Value`, `Edge`, `Stmt` and `Exp` belong to classes outside the two core files and are not part of this model. A fact is a map in which `update` with `Undef` removes the key, and `copyFrom` replaces the map and reports whether it changed.
- ConstantPropagation.Evaluate: when the first operand is `NAC`, the second is `Undef` and the operator is `/` or `%`, the code asks an `Undef` value for its constant. That behaviour lives in `Value`, which is not part of this model. `Defined` excludes this one case.
- `getSuccsOf` is modelled as the targets of the out-edge list. Two edges to the same target are kept as they are, so a node can be queued twice, as in the code.
- The iteration order of `fact.keySet()` in `meetInto` is left open: the loop picks any remaining key. The result does not depend on the order.
- The Java class hierarchy and its `instanceof` tests are replaced by datatype matching. The unused imports are not modelled.
- Only `int`-like values are tracked. Long, float, double, string and object constants are not folded.
- The long/float/double comparison operators (`lcmp`, `fcmpl`, ...) produce an `int`, but their operands are never tracked. So both operand values are `Undef`, and the evaluator returns `Undef` before it reaches its `NAC` case for them. The transfer function then binds the result variable to `Undef`, which describes no value. `UntrackedComparison` states this.
- ConstantPropagation.EvaluateSound: claims nothing for the comparison operators. `ConcreteEval` does not define them, so the `Undef` result above is outside its premise rather than proved sound.
- ConstantPropagation.TransferSound: claims nothing about the variable defined by a comparison, for the same reason. Its value after the statement is `Undef` (see `UntrackedComparison`).
- Behaviours of the code a reader might not expect, which the model keeps:
  - A switch with a constant discriminant queues every unreached matching case target. It queues its default target whenever no case target was newly queued, even when a matching case target had already been reached, not only when no case matches (DeadCodeDetection.java:139-141). `Succs` in `Possible` mode includes that default target. `Step` drops it for a fresh switch, and `Analyze` bounds the reached set by steps.
  - A statement is marked reached when it is dequeued, not when it is queued, so the queue can hold duplicates (DeadCodeDetection.java:78-79). The termination measure is the number of unreached statements, then the number of queue entries already reached.
  - When either operand is `NAC` the result is `NAC`, except that `/` and `%` give `Undef` when `value2` is the constant 0. Only `value2` is tested (ConstantPropagation.java:136-142).
  - Only assignments can be dead (DeadCodeDetection.java:80-92). A call with a result is a definition that constant propagation updates, but the detector always keeps it.
- DeadCodeDetection.HasNoSideEffect: the effect list mirrors the classifier's own comments. An array-length read, which can throw a null-pointer exception, is classified as side-effect free as in the code, and that effect is not in `Effects`.
- Conditional branches whose condition folds to a constant other than 0 or 1 queue nothing in the code. `ConditionValue` shows that this case cannot arise.
- An assignment whose right-hand side is a call expression is not excluded by the datatypes, and `HasNoSideEffect` would call it side-effect free. The IR represents every call as an `Invoke` statement, which is never a dead assignment.
