# Two CNF satisfiability procedures, modelled and proved in Dafny

The repository decides propositional satisfiability of formulas in
conjunctive normal form in two independent ways.

- `dp.py` saturates by binary resolution.
  - A literal (`Unitate`) is a variable number with a negation flag.
  - A clause (`Clauza`) is built canonically: duplicates removed, a tautology
    detected and emptied, the remaining literals sorted.
  - A formula (`Expresie`) drops its tautologies.
  - `aplica_rezolutie` adds resolvents round by round. It stops with
    "unsatisfiable" at the first empty resolvent and with "satisfiable" when
    a round adds nothing new.
- `dpll.py` runs the DPLL search.
  - A clause is a map from variable to required sign (+1 / -1).
  - An instance (`InstantaSAT`) holds a clause list and its declared variables.
  - `dpll_recursiv` runs unit propagation, then branches on the first open
    declared variable, trying +1 before -1.
  - `rezolva_dpll` runs the search on a copy and completes the result.

The model has four modules.

- `Clauses` (clauses.dfy): the literal, its order, the clause constructor,
  clause equality, the sort key, and the meaning of a clause under a valuation.
- `Resolution` (resolution.dfy):
  - the formula as the class `Formula`;
  - resolution saturation as the specification functions `Saturate` and `ResolutionSpec`,
    with its outcome, idempotence and soundness lemmas;
  - one round of the loop as the method `ResolutionRound`, which is proved
    against that specification;
  - `Formula.ApplyResolution`, the imperative procedure with its loop.
- `MapClauses` (mapclauses.dfy): the map form of clauses and the pure
  helpers of `InstantaSAT`. These are the literal-list constructor, the
  satisfaction check, the unit-clause search, the opposite-unit check and
  simplification.
- `Dpll` (dpll.dfy):
  - the search as the mutually recursive functions
    `Search`/`Propagate`/`Branch`/`TryFrom`, proved sound and complete;
  - the instance as the class `Instance`, whose `Simplify` reassigns the
    clause list;
  - `DpllRecursive`, the imperative search with its propagation loop and
    branch loop, proved equal to `Search`;
  - `Solve` (`rezolva_dpll`) and the declared-variable rule.

## Model

| member | source | states |
|---|---|---|
| Clauses.LessIsStrictTotalOrder | dp.py:11-19 | The literal order `Less` (variable first, then non-negated before negated) is irreflexive, asymmetric, transitive and total on distinct literals. |
| Clauses.DedupFrom | dp.py:41-47 | The deduplication pass yields a list without repetitions, holding exactly the input literals not seen before. |
| Clauses.ScanPolarity | dp.py:49-62 | The polarity scan reports a tautology iff some variable occurs with both signs. |
| Clauses.SortLits | dp.py:64-65 | Sorting a repetition-free list gives a strictly increasing list with the same literals. |
| Clauses.MakeClause | dp.py:34-65 | A built clause is well formed: it has no duplicates, is strictly sorted, and has an empty literal list if it is a tautology. It is a tautology iff the input holds a complementary pair. Otherwise it has exactly the input's literals. An empty input gives the empty non-tautological clause. |
| Clauses.SortedUnique | dp.py:64-65 | Two strictly sorted literal lists with the same elements are equal, so the sorted form is canonical. |
| Clauses.MakeClauseBySet | dp.py:34-65 | Construction depends only on the set of input literals, not on their order or repetitions. |
| Clauses.MakeClauseCanonical | dp.py:34-65 | Rebuilding a well-formed non-tautology from its own literals gives it back. |
| Clauses.SameClauseIsEquality | dp.py:74-81 | On built clauses, `Clauza.__eq__` (`SameClause`) coincides with value equality. All tautologies are equal, a tautology never equals a non-tautology, and otherwise the literal lists decide. |
| Clauses.SameClauseIgnoresOrder | dp.py:74-81 | Clauses built from the same literals in any order and multiplicity are equal under `Clauza.__eq__`. |
| Clauses.SortKeyOrder | dp.py:88-93 | Under the sort key `SortKey`, the empty clause comes first and tautologies last. Other clauses are ordered by length. A clause other than the empty clause whose key is at most a non-tautology's key is itself a non-empty non-tautology, and that non-tautology is non-empty too. |
| Clauses.MakeClauseMeaning | dp.py:34-65 | A built clause is true under a valuation iff some input literal is. |
| MapClauses.FromLiterals | dpll.py:13-18 | The map's keys are exactly the absolute values of the input literals, and every value is +1 or -1. |
| MapClauses.FromLiteralsLastOccurrence | dpll.py:15-18 | Each variable maps to the sign of its last occurrence in the input. |
| MapClauses.FromLiteralsLastWins | dpll.py:15-18 | The input `1 -1` gives `{1: -1}`, not a tautology. |
| MapClauses.IsSatisfied | dpll.py:108-118 | True iff every clause has a variable whose assigned value equals the clause's required sign. |
| MapClauses.IsSatisfiedMono | dpll.py:108-118 | Extending a satisfying assignment keeps it satisfying. |
| MapClauses.TheKey | dpll.py:123-124 | A one-entry clause is exactly the singleton map of its key. |
| MapClauses.FindUnit | dpll.py:120-126 | Returns `None` iff no clause has size 1. Otherwise it returns the entry of the first clause of size 1. |
| MapClauses.NoOppositeUnit | dpll.py:128-138 | False iff some unit clause has the unit's variable with the opposite sign. |
| MapClauses.HasEmptyUnsatisfied | dpll.py:210 | A list containing an empty clause is satisfied by no assignment. |
| MapClauses.ReduceContents | dpll.py:147-160 | After the simplification loop (`Reduce`), no clause mentions the variable. Every kept clause is an input clause that does not mention it, or one requiring the other sign with that entry removed. Clauses without the variable survive. Clauses requiring the other sign survive with that entry removed. |
| MapClauses.ReduceAppend | dpll.py:147-160 | The loop works clause by clause: on a concatenation it is the concatenation of its results, so the order is kept. |
| MapClauses.SimplifiedUnmentioned | dpll.py:140-167 | Simplifying by a variable no clause mentions changes nothing. |
| MapClauses.EmptiedIsOppositeUnit | dpll.py:152-157 | A clause emptied by the removal is the opposite unit clause itself. |
| MapClauses.ConflictNeedsOppositeUnit | dpll.py:155-163 | A conflict can arise only when the list holds the opposite unit clause and some unit clause exists. So the conflict marker is never produced on the propagation path, which checks for the opposite unit first. |
| MapClauses.NoUnitNoConflict | dpll.py:224-234 | With no unit clause left, simplification never meets a conflict, so branching never sees the conflict marker either. |
| MapClauses.SimplifiedVars | dpll.py:140-167 | The simplified list mentions only variables of the input other than the propagated one. |
| MapClauses.SimplifiedWellSigned | dpll.py:140-167 | Simplification keeps every required sign +1 or -1. |
| MapClauses.ReduceMeaning | dpll.py:147-160 | Under an assignment giving the variable the propagated sign, the simplified list is satisfied iff the original is. |
| MapClauses.SimplifiedMeaning | dpll.py:140-167 | The same holds for the full simplification `Simplified`, including the conflict case. |
| Resolution.DropTautologies | dp.py:96-98 | `Expresie.__init__` keeps exactly the non-tautological clauses and never grows the list. |
| Resolution.DropTautologiesAppend | dp.py:96-98 | The filter keeps the original order: on a concatenation it is the concatenation of its results. |
| Resolution.DropTautologiesKeeps | dp.py:96-98 | A list without tautologies is kept unchanged. |
| Resolution.Formula.constructor | dp.py:96-98 | The new formula holds the non-tautological clauses, and its verdict is unknown. |
| Resolution.ResolveSymmetric | dp.py:167-179 | The resolvent `Resolve` of `c1` with `c2` gives the same clause as resolving `c2` with `c1` on the same pair. |
| Resolution.PairResolventsSymmetric | dp.py:159-179 | The resolvents of a pair do not depend on which clause comes first in the sorted list. |
| Resolution.ResolventLits | dp.py:170-179 | A resolvent uses only literals of its parents. |
| Resolution.ResolveExample | dp.py:167-179 | {x,y} and {~x,z} give {y,z}, for example {1,2} and {~1,3} give {2,3}. |
| Resolution.NoResolventsWithEmpty | dp.py:161-165 | An empty clause has no resolvents, so skipping it loses nothing. |
| Resolution.NoSelfResolvents | dp.py:163 | A well-formed non-tautology has no resolvent with itself, so the loop can skip the pair i = j. |
| Resolution.GrowthStep | dp.py:187-194 | A round that adds clauses keeps the active set well formed, tautology-free and free of the empty clause. It stays within the input's literals and strictly shrinks the set of literal sets not yet present. |
| Resolution.SaturateOutcome | dp.py:152-194 | Saturation (`Saturate`) keeps every starting clause. It reports satisfiable iff the empty clause is absent. A satisfiable result is saturated. An unsatisfiable result is some grown set plus the empty clause, which is a resolvent of that set. |
| Resolution.ResolutionOutcome | dp.py:135-194 | The whole procedure (`ResolutionSpec`) contains every non-tautological input clause and reports satisfiable iff the empty clause is absent. A satisfiable result is saturated. With no non-tautological clause the result is satisfiable and empty. An empty input clause gives unsatisfiable at once, before any resolution. |
| Resolution.ResolutionIdempotent | dp.py:187-194 | Running the procedure again on a satisfiable result gives the same result. |
| Resolution.ResolventSound | dp.py:167-179 | A valuation satisfying both parents satisfies their resolvent. |
| Resolution.SaturateSound | dp.py:152-194 | Every clause saturation adds is entailed by the starting clauses. |
| Resolution.ResolutionSound | dp.py:181-185 | "Unsatisfiable" is reported only for inputs that no valuation satisfies. |
| Resolution.Enumerate | dp.py:156 | Listing the active set gives every clause of it exactly once. |
| Resolution.InsertByKey | dp.py:156 | Inserting into a list sorted by the key keeps it sorted and adds exactly the one clause. |
| Resolution.SortByKey | dp.py:156 | `sorted(..., key=...)` gives a key-sorted permutation of its input. |
| Resolution.ResolvePair | dp.py:167-188 | The literal loops over one pair report the empty clause iff it is a resolvent of the pair. Otherwise they stage exactly the pair's resolvents that are neither tautologies nor already active. |
| Resolution.ListPairsCoverSet | dp.py:159-165 | The pairs i < j of the listed active set produce exactly the resolvents of two different active clauses. |
| Resolution.ResolutionRound | dp.py:154-188 | One round reports the empty clause iff it is a resolvent of two active clauses. Otherwise it stages exactly the new non-tautological resolvents. |
| Resolution.Formula.ApplyResolution | dp.py:135-194 | The verdict and the final clause set (listed without repetitions) are those of the saturation specification. |
| Dpll.FirstUnassigned | dpll.py:213-221 | No open variable iff every declared variable is assigned. A found variable is declared and unassigned. |
| Dpll.FirstUnassignedIsFirst | dpll.py:213-217 | The chosen variable is the lowest-indexed open one: every variable declared before it is assigned. |
| Dpll.FindOpen | dpll.py:213-217 | The scan loop returns the first open declared variable. |
| Dpll.SearchSound | dpll.py:185-241 | An assignment returned by the search `Search` extends the starting assignment and satisfies every clause. |
| Dpll.PropagateSound | dpll.py:190-211 | The same for the propagation phase `Propagate`. |
| Dpll.BranchSound | dpll.py:213-241 | The same for the branching phase `Branch`. |
| Dpll.TryFromSound | dpll.py:224-241 | The same for the loop over the signs, `TryFrom`. |
| Dpll.SearchComplete | dpll.py:185-241 | Suppose every required sign is ±1, every clause variable is declared and unassigned, and some assignment satisfies the clauses. Then the search succeeds. |
| Dpll.PropagateComplete | dpll.py:190-211 | The same for the propagation phase. |
| Dpll.UnitPropagateComplete | dpll.py:191-211 | The same for a propagation step on a unit clause. |
| Dpll.UnitStepComplete | dpll.py:195-211 | Under those conditions a propagation step passes the opposite-unit check and the assignment check. It keeps the invariant, leaves no empty clause, and the satisfying assignment still satisfies the simplified list. |
| Dpll.UnitForced | dpll.py:191-196 | A satisfying assignment gives a unit clause's variable the clause's sign, and the opposite unit is then absent. |
| Dpll.BranchComplete | dpll.py:213-241 | The same completeness for the branching phase. |
| Dpll.TryFromComplete | dpll.py:224-241 | A sign list containing the satisfying assignment's value for the branch variable yields success. |
| Dpll.PropagateUnfold | dpll.py:198-211 | A propagation step strictly removes the propagated variable from the clause list and continues the search as lines 205-211 do. |
| Dpll.UndeclaredVariableFails | dpll.py:219-221 | Branching fails when every declared variable is assigned: the clause `{2:1, 3:1}` with declared variables `[1]` gives failure although it is satisfiable. |
| Dpll.Instance.constructor | dpll.py:32-34 | The instance holds the given clauses and declared variables. |
| Dpll.Instance.Copy | dpll.py:170 | The copy is a fresh instance with the same clauses and declared variables. |
| Dpll.Instance.Simplify | dpll.py:140-167 | The loop replaces the clause list by the simplified list, or by the single empty conflict clause, and leaves the declared variables unchanged. |
| Dpll.DpllRecursive | dpll.py:185-241 | The propagation loop, the scan and the branch loop return exactly what the search specification returns for the instance as given. The declared variables are unchanged. |
| Dpll.Complete | dpll.py:174-177 | The completion keeps every value of the search result and adds exactly the declared variables it left open, each with value 1. |
| Dpll.Solve | dpll.py:169-182 | `rezolva_dpll` leaves its instance untouched and fails iff the search fails. On success the result satisfies the original clauses, extends the search result, assigns every declared variable and gives the added variables value 1. Its keys are exactly the search result's keys plus the declared variables. It succeeds on every satisfiable instance whose signs are ±1 and whose variables are all declared. |
| Dpll.DeclaredVariables | dpll.py:87-99 | The declared variables are 1..n from a positive header. Without a positive header count they are 1..(largest variable seen), or none when no variable occurs. |
| Dpll.MaxOf | dpll.py:96 | `max` of a non-empty set is a member of it and bounds every member. |

## Left out

- `rez.py`: its solving is delegated to an external SAT solver library, so
  it is not part of this model.
- The file readers are left out because they do I/O.
  - `citeste_clauze_fisier` (dp.py) never exits. It warns about and skips
    a malformed `p` line, a clause line not ending in `0`, and a clause line
    with an embedded `0`. It drops only an invalid literal and keeps the rest
    of its clause, and it builds no clause from a line without a valid
    literal. It returns `None` when the file is missing or unreadable.
  - `incarca_din_fisier_dimacs` (dpll.py) exits only on a malformed `p` line
    or an unreadable file. It skips a clause that has a non-numeric literal.
  - Only the declared-variable rule that ends `incarca_din_fisier_dimacs`
    (dpll.py:87-99) is modelled, as Dpll.DeclaredVariables, with the header
    count and the clause list as parameters.
- Printing is left out: `tiparibil`, `tipareste`, `tiparibil_sumar`,
  `__str__`, `principal` and the `__main__` blocks.
- `__hash__` is left out: Dafny sets and value equality stand for the
  hash-based sets.
- The string-comparison fallback of `Unitate.__lt__` (dp.py:20-23) is left
  out: a variable is a `nat`.
- Clauses.SortKey: the tautology key `(2, inf)` is modelled as `(2, 0)`.
  This orders the keys that occur in the same way, since only the first
  component separates a tautology from the other clauses.
- Resolution.Formula.ApplyResolution: the order of the final clause list
  (Python's set iteration order) is not modelled. The contract states its
  contents and that it has no repetitions. Which witness resolvent is found
  first within a round depends on the order, but the verdict and the final
  set do not.
- Copies (`copy.deepcopy`, `dict.copy`) are modelled as value semantics:
  assignments are Dafny maps, and the branch instance is a fresh `Instance`.
  Aliasing between the caller's dict and the search's dict is not modelled.
- Dpll.Solve: the key ordering of the result (`OrderedDict(sorted(...))`)
  is not modelled, because a Dafny map has no order.
- The conflict marker `Clauza()` (dpll.py:163) has no `simboluri` attribute,
  so the checks at dpll.py:210 and dpll.py:234 would raise in Python if they
  ever saw it. It is modelled as the empty map.
  It is unreachable on both paths. MapClauses.ConflictNeedsOppositeUnit
  shows that the propagation path never produces it, since that path checks
  for the opposite unit first. MapClauses.NoUnitNoConflict shows that
  branching, which runs only when no unit clause is left, never produces it
  either.
- Dpll.DpllRecursive: the instance's final clause list is not stated. Both
  callers discard it: `rezolva_dpll` searches a deep copy, and the branch
  copies are dropped after the recursive call.
- Dpll.Solve: the search always returns in the model. The Python recursion
  at dpll.py:237 raises `RecursionError` once the nesting passes the
  interpreter's depth limit, which is not modelled.
- Resolution.ResolutionOutcome: refutation completeness is not proved. A
  "satisfiable" verdict is only shown to give a saturated set without the
  empty clause; that some valuation then satisfies the input is not proved.
  Resolution.ResolutionSound proves the other direction: "unsatisfiable" means
  no valuation satisfies the input.
- Dpll.Instance.Simplify takes the propagated unit as a variable–sign pair
  rather than a one-entry dict.
- Dpll.SearchComplete: completeness is stated only when every required sign
  is +1 or -1 and every clause variable is declared. Maps built from other
  sources are outside that statement, and Dpll.UndeclaredVariableFails shows
  that the second condition is needed.
- The unused `random` and `time` imports are left out.
