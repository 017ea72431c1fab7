/** The DPLL search of dpll.py: the instance object, `simplifica`,
    `dpll_recursiv`, `rezolva_dpll` and the declared-variable rule. */
module Dpll {
  import opened Clauses
  import opened MapClauses

  /** The first declared variable the assignment leaves open (the loop of
      lines 213-217). */
  function FirstUnassigned(D: seq<nat>, A: Assignment): (r: Option<nat>)
    ensures r.None? <==> forall i :: 0 <= i < |D| ==> D[i] in A
    ensures r.Some? ==> r.value in D && r.value !in A
  {
    if D == [] then None
    else if D[0] !in A then Some(D[0])
    else
      assert forall i :: 0 < i < |D| ==> D[i] == D[1..][i - 1];
      FirstUnassigned(D[1..], A)
  }

  /** The lowest-indexed open variable: every variable declared before it is
      assigned. */
  lemma {:induction false} FirstUnassignedIsFirst(D: seq<nat>, A: Assignment)
    requires FirstUnassigned(D, A).Some?
    ensures exists i :: 0 <= i < |D| && D[i] == FirstUnassigned(D, A).value
                        && forall j :: 0 <= j < i ==> D[j] in A
  {
    if D[0] in A {
      FirstUnassignedIsFirst(D[1..], A);
      var i :| 0 <= i < |D[1..]| && D[1..][i] == FirstUnassigned(D, A).value
               && forall j :: 0 <= j < i ==> D[1..][j] in A;
      assert D[i + 1] == FirstUnassigned(D, A).value;
      assert forall j :: 0 < j < i + 1 ==> D[j] == D[1..][j - 1];
    } else {
      assert D[0] == FirstUnassigned(D, A).value;
    }
  }

  /** `dpll_recursiv` as a function of the clause list `C`, the declared
      variables `D` and the assignment so far `A`: an empty list is
      satisfied, otherwise propagate. */
  function Search(C: seq<ClauseMap>, D: seq<nat>, A: Assignment): Option<Assignment>
    decreases Elems(D) - A.Keys, Vars(C), 3, 0
  {
    if C == [] then Some(A) else Propagate(C, D, A)
  }

  /** The unit-propagation loop of lines 190-211. */
  function Propagate(C: seq<ClauseMap>, D: seq<nat>, A: Assignment): Option<Assignment>
    requires C != []
    decreases Elems(D) - A.Keys, Vars(C), 2, 0
  {
    match FindUnit(C)
    case None => Branch(C, D, A)
    case Some(u) =>
      if !NoOppositeUnit(C, u) then None
      else if u.v in A && A[u.v] != u.sign then None
      else
        var C' := Simplified(C, u);
        var A' := A[u.v := u.sign];
        if C' == [] then Some(A')
        else if HasEmpty(C') then None
        else
          SimplifiedVars(C, u);
          assert u.v in Vars(C) by {
            var i :| 0 <= i < |C| && C[i] == map[u.v := u.sign];
          }
          assert Elems(D) - A'.Keys <= Elems(D) - A.Keys;
          Propagate(C', D, A')
  }

  /** Branching, lines 213-241: on the first open declared variable, or
      failure when there is none. */
  function Branch(C: seq<ClauseMap>, D: seq<nat>, A: Assignment): Option<Assignment>
    decreases Elems(D) - A.Keys, Vars(C), 1, 0
  {
    match FirstUnassigned(D, A)
    case None => None
    case Some(x) => TryFrom(C, D, A, x, [1, -1])
  }

  /** The loop over `[1, -1]`: try each sign on a simplified copy, skip a
      sign whose simplification leaves an empty clause, stop at the first
      success. */
  function TryFrom(C: seq<ClauseMap>, D: seq<nat>, A: Assignment, x: nat, signs: seq<int>): Option<Assignment>
    requires x in D && x !in A
    decreases Elems(D) - A.Keys, Vars(C), 0, |signs|
  {
    if signs == [] then None
    else
      assert x in Elems(D) - A.Keys && x !in Elems(D) - A[x := signs[0]].Keys;
      var C' := Simplified(C, Unit(x, signs[0]));
      var r := if HasEmpty(C') then None else Search(C', D, A[x := signs[0]]);
      if r.Some? then r else TryFrom(C, D, A, x, signs[1..])
  }

  /** Soundness: a returned assignment extends the one the search started
      from and satisfies the clause list. */
  lemma SearchSound(C: seq<ClauseMap>, D: seq<nat>, A: Assignment)
    requires Search(C, D, A).Some?
    ensures Extends(Search(C, D, A).value, A)
    ensures IsSatisfied(C, Search(C, D, A).value)
    decreases Elems(D) - A.Keys, Vars(C), 3, 0
  {
    if C != [] {
      PropagateSound(C, D, A);
    }
  }

  lemma PropagateSound(C: seq<ClauseMap>, D: seq<nat>, A: Assignment)
    requires C != [] && Propagate(C, D, A).Some?
    ensures Extends(Propagate(C, D, A).value, A)
    ensures IsSatisfied(C, Propagate(C, D, A).value)
    decreases Elems(D) - A.Keys, Vars(C), 2, 0
  {
    match FindUnit(C)
    case None => BranchSound(C, D, A);
    case Some(u) =>
      var C' := Simplified(C, u);
      var A' := A[u.v := u.sign];
      var B := Propagate(C, D, A).value;
      PropagateUnfold(C, D, A, u);
      assert Elems(D) - A'.Keys <= Elems(D) - A.Keys;
      if C' != [] {
        PropagateSound(C', D, A');
      }
      assert Extends(B, A');
      SimplifiedMeaning(C, u, B);
  }

  lemma BranchSound(C: seq<ClauseMap>, D: seq<nat>, A: Assignment)
    requires Branch(C, D, A).Some?
    ensures Extends(Branch(C, D, A).value, A)
    ensures IsSatisfied(C, Branch(C, D, A).value)
    decreases Elems(D) - A.Keys, Vars(C), 1, 0
  {
    var x := FirstUnassigned(D, A).value;
    TryFromSound(C, D, A, x, [1, -1]);
  }

  lemma TryFromSound(C: seq<ClauseMap>, D: seq<nat>, A: Assignment, x: nat, signs: seq<int>)
    requires x in D && x !in A
    requires TryFrom(C, D, A, x, signs).Some?
    ensures Extends(TryFrom(C, D, A, x, signs).value, A)
    ensures IsSatisfied(C, TryFrom(C, D, A, x, signs).value)
    decreases Elems(D) - A.Keys, Vars(C), 0, |signs|
  {
    var u := Unit(x, signs[0]);
    var C' := Simplified(C, u);
    var A' := A[x := signs[0]];
    assert x in Elems(D) - A.Keys && x !in Elems(D) - A'.Keys;
    if !HasEmpty(C') && Search(C', D, A').Some? {
      SearchSound(C', D, A');
      var B := Search(C', D, A').value;
      assert Extends(B, A');
      SimplifiedMeaning(C, u, B);
    } else {
      TryFromSound(C, D, A, x, signs[1..]);
    }
  }

  /** The search invariant: clause signs are +1 or -1, every variable in a
      clause is declared, and no variable in a clause is assigned yet. */
  predicate Consistent(C: seq<ClauseMap>, D: seq<nat>, A: Assignment)
  {
    AllWellSigned(C) && Vars(C) <= Elems(D) && Vars(C) * A.Keys == {}
  }

  /** Changing a variable that no clause can match does not matter: a
      variable with a value other than +1 or -1 may be set to `s`. */
  lemma RepairValue(C: seq<ClauseMap>, B: Assignment, x: nat, s: int)
    requires AllWellSigned(C) && IsSatisfied(C, B)
    requires x !in B || B[x] == s || (B[x] != 1 && B[x] != -1)
    ensures IsSatisfied(C, B[x := s])
  {
    forall i | 0 <= i < |C| ensures ClauseTrue(C[i], B[x := s]) {
      assert ClauseTrue(C[i], B);
      var w :| w in C[i] && w in B && B[w] == C[i][w];
      assert WellSigned(C[i]);
      assert B[x := s][w] == C[i][w];
    }
  }

  /** Completeness: when the invariant holds and some assignment satisfies
      the clause list, the search succeeds. */
  lemma SearchComplete(C: seq<ClauseMap>, D: seq<nat>, A: Assignment, B: Assignment)
    requires Consistent(C, D, A) && IsSatisfied(C, B)
    ensures Search(C, D, A).Some?
    decreases Elems(D) - A.Keys, Vars(C), 3, 0
  {
    if C != [] {
      PropagateComplete(C, D, A, B);
    }
  }

  lemma PropagateComplete(C: seq<ClauseMap>, D: seq<nat>, A: Assignment, B: Assignment)
    requires C != [] && Consistent(C, D, A) && IsSatisfied(C, B)
    ensures Propagate(C, D, A).Some?
    decreases Elems(D) - A.Keys, Vars(C), 2, 1
  {
    match FindUnit(C)
    case None => BranchComplete(C, D, A, B);
    case Some(u) => UnitPropagateComplete(C, D, A, B, u);
  }

  /** The unit-clause case of PropagateComplete: the step succeeds and the
      search goes on from a smaller clause list that B still satisfies. */
  lemma UnitPropagateComplete(C: seq<ClauseMap>, D: seq<nat>, A: Assignment, B: Assignment, u: Unit)
    requires C != [] && Consistent(C, D, A) && IsSatisfied(C, B) && FindUnit(C) == Some(u)
    ensures Propagate(C, D, A).Some?
    decreases Elems(D) - A.Keys, Vars(C), 2, 0
  {
    UnitStepComplete(C, D, A, B, u);
    PropagateUnfold(C, D, A, u);
    var C' := Simplified(C, u);
    var A' := A[u.v := u.sign];
    assert Elems(D) - A'.Keys <= Elems(D) - A.Keys;
    if C' != [] {
      PropagateComplete(C', D, A', B);
    }
  }

  /** One propagation step, unfolded: the variable leaves the clause list and
      the search goes on from the simplified list. */
  lemma PropagateUnfold(C: seq<ClauseMap>, D: seq<nat>, A: Assignment, u: Unit)
    requires C != [] && FindUnit(C) == Some(u)
    requires NoOppositeUnit(C, u) && !(u.v in A && A[u.v] != u.sign)
    ensures Vars(Simplified(C, u)) < Vars(C)
    ensures Propagate(C, D, A) ==
              var C' := Simplified(C, u);
              if C' == [] then Some(A[u.v := u.sign])
              else if HasEmpty(C') then None
              else Propagate(C', D, A[u.v := u.sign])
  {
    SimplifiedVars(C, u);
    assert u.v in Vars(C) by {
      var i :| 0 <= i < |C| && C[i] == map[u.v := u.sign];
    }
  }

  /** Under the invariant and a satisfying assignment, a propagation step
      passes both checks and keeps the invariant, and the satisfying
      assignment still satisfies the simplified list. */
  lemma UnitStepComplete(C: seq<ClauseMap>, D: seq<nat>, A: Assignment, B: Assignment, u: Unit)
    requires Consistent(C, D, A) && IsSatisfied(C, B) && FindUnit(C) == Some(u)
    ensures NoOppositeUnit(C, u) && u.v !in A
    ensures Consistent(Simplified(C, u), D, A[u.v := u.sign])
    ensures IsSatisfied(Simplified(C, u), B) && !HasEmpty(Simplified(C, u))
  {
    UnitForced(C, B, u);
    assert u.v in Vars(C) by {
      var i :| 0 <= i < |C| && C[i] == map[u.v := u.sign];
    }
    assert u.v !in A by {
      assert u.v !in Vars(C) * A.Keys;
    }
    var C' := Simplified(C, u);
    SimplifiedMeaning(C, u, B);
    SimplifiedVars(C, u);
    SimplifiedWellSigned(C, u);
    if HasEmpty(C') {
      HasEmptyUnsatisfied(C', B);
    }
  }

  /** A satisfying assignment gives a unit clause's variable the unit's
      sign, and then no opposite unit clause can exist. */
  lemma UnitForced(C: seq<ClauseMap>, B: Assignment, u: Unit)
    requires IsSatisfied(C, B)
    requires exists i :: 0 <= i < |C| && C[i] == map[u.v := u.sign]
    ensures u.v in B && B[u.v] == u.sign
    ensures NoOppositeUnit(C, u)
  {
    var i :| 0 <= i < |C| && C[i] == map[u.v := u.sign];
    assert ClauseTrue(C[i], B);
    forall k | 0 <= k < |C| ensures !OppositeUnit(C[k], u) {
      assert ClauseTrue(C[k], B);
      if |C[k]| == 1 && u.v in C[k] {
        var w := TheKey(C[k]);
        assert w == u.v;
      }
    }
  }

  lemma BranchComplete(C: seq<ClauseMap>, D: seq<nat>, A: Assignment, B: Assignment)
    requires C != [] && Consistent(C, D, A) && IsSatisfied(C, B)
    ensures Branch(C, D, A).Some?
    decreases Elems(D) - A.Keys, Vars(C), 1, 0
  {
    assert ClauseTrue(C[0], B);
    var w :| w in C[0] && w in B && B[w] == C[0][w];
    assert w in Vars(C);
    assert w in Elems(D);
    assert w !in A by {
      assert w !in Vars(C) * A.Keys;
    }
    var k :| 0 <= k < |D| && D[k] == w;
    assert D[k] !in A;
    var x := FirstUnassigned(D, A).value;
    var s := if x in B && B[x] == -1 then -1 else 1;
    var B' := B[x := s];
    RepairValue(C, B, x, s);
    TryFromComplete(C, D, A, x, [1, -1], B');
  }

  lemma TryFromComplete(C: seq<ClauseMap>, D: seq<nat>, A: Assignment, x: nat, signs: seq<int>, B: Assignment)
    requires x in D && x !in A
    requires Consistent(C, D, A) && IsSatisfied(C, B)
    requires x in B && B[x] in signs
    ensures TryFrom(C, D, A, x, signs).Some?
    decreases Elems(D) - A.Keys, Vars(C), 0, |signs|
  {
    var u := Unit(x, signs[0]);
    var C' := Simplified(C, u);
    var A' := A[x := signs[0]];
    assert x in Elems(D) - A.Keys && x !in Elems(D) - A'.Keys;
    if B[x] == signs[0] {
      SimplifiedMeaning(C, u, B);
      SimplifiedVars(C, u);
      SimplifiedWellSigned(C, u);
      if HasEmpty(C') {
        HasEmptyUnsatisfied(C', B);
      }
      SearchComplete(C', D, A', B);
    } else if TryFrom(C, D, A, x, signs).None? {
      TryFromComplete(C, D, A, x, signs[1..], B);
    }
  }

  /** A clause over undeclared variables only: branching finds every
      declared variable assigned while clauses remain, so the search fails
      although the clause list is satisfiable. */
  lemma UndeclaredVariableFails()
    ensures Search([map[2 := 1, 3 := 1]], [1], map[]) == None
    ensures IsSatisfied([map[2 := 1, 3 := 1]], map[2 := 1])
  {
    var c := map[2 := 1, 3 := 1];
    var C := [c];
    assert 2 in c && 2 in map[2 := 1] && map[2 := 1][2] == c[2];
    assert |c| == 2 by {
      assert c.Keys == {2, 3};
    }
    assert FindUnit(C).None?;
    assert 1 !in Vars(C);
    SimplifiedUnmentioned(C, Unit(1, 1));
    SimplifiedUnmentioned(C, Unit(1, -1));
    assert !HasEmpty(C);
    assert Search(C, [1], map[1 := 1]) == None by {
      assert FirstUnassigned([1], map[1 := 1]) == None;
      assert Propagate(C, [1], map[1 := 1]) == Branch(C, [1], map[1 := 1]);
    }
    assert Search(C, [1], map[1 := -1]) == None by {
      assert FirstUnassigned([1], map[1 := -1]) == None;
      assert Propagate(C, [1], map[1 := -1]) == Branch(C, [1], map[1 := -1]);
    }
    assert FirstUnassigned([1], map[]) == Some(1);
    assert [1, -1][1..] == [-1] && [-1][1..] == [];
  }

  /** The instance (`InstantaSAT`): its clause list and declared variables. */
  class Instance {
    var clauses: seq<ClauseMap>
    var declared: seq<nat>

    constructor (cs: seq<ClauseMap>, ds: seq<nat>)
      ensures clauses == cs && declared == ds
    {
      clauses := cs;
      declared := ds;
    }

    /** `copy.deepcopy(instanta)`. */
    method Copy() returns (inst: Instance)
      ensures fresh(inst)
      ensures inst.clauses == clauses && inst.declared == declared
    {
      inst := new Instance(clauses, declared);
    }

    /** `simplifica`: propagate `u` through the clause list, replacing the
        list by the single conflict clause when a clause would become
        empty. */
    method Simplify(u: Unit)
      modifies this
      ensures clauses == Simplified(old(clauses), u)
      ensures declared == old(declared)
    {
      var C := clauses;
      var kept: seq<ClauseMap> := [];
      var conflict := false;
      var i := 0;
      while i < |C|
        invariant 0 <= i <= |C|
        invariant declared == old(declared)
        invariant conflict ==> Conflict(C, u)
        invariant !conflict ==> !Conflict(C[..i], u) && kept == Reduce(C[..i], u)
      {
        var c := C[i];
        ReduceSnoc(C, i, u);
        if u.v in c {
          if c[u.v] != u.sign {
            var trimmed := c - {u.v};
            if trimmed == map[] {
              assert EmptiedBy(c, u);
              conflict := true;
              break;
            }
            kept := kept + [trimmed];
          }
        } else {
          kept := kept + [c];
        }
        i := i + 1;
      }
      if conflict {
        clauses := [map[]];
      } else {
        assert C[..i] == C;
        clauses := kept;
      }
    }
  }

  lemma ReduceSnoc(C: seq<ClauseMap>, i: nat, u: Unit)
    requires i < |C|
    ensures Reduce(C[..i + 1], u) == Reduce(C[..i], u) + Step(C[i], u)
    ensures Conflict(C[..i + 1], u) <==> Conflict(C[..i], u) || EmptiedBy(C[i], u)
  {
    assert C[..i + 1][..i] == C[..i];
    assert forall d :: d in C[..i + 1] <==> d in C[..i] || d == C[i];
  }

  /** `dpll_recursiv`: propagate on `inst` in place, then recurse on a
      fresh copy for each sign of the chosen variable. */
  method DpllRecursive(inst: Instance, A0: Assignment) returns (r: Option<Assignment>)
    modifies inst
    ensures r == Search(old(inst.clauses), old(inst.declared), A0)
    ensures inst.declared == old(inst.declared)
    decreases Elems(inst.declared) - A0.Keys
  {
    if inst.clauses == [] {
      return Some(A0);
    }
    ghost var C0 := inst.clauses;
    var D := inst.declared;
    var assign := A0;
    while true
      invariant inst.declared == D && inst.clauses != []
      invariant A0.Keys <= assign.Keys
      invariant Propagate(inst.clauses, D, assign) == Search(C0, D, A0)
      decreases Vars(inst.clauses)
    {
      var unit := FindUnit(inst.clauses);
      if unit.None? {
        break;
      }
      var u := unit.value;
      if !NoOppositeUnit(inst.clauses, u) {
        return None;
      }
      if u.v in assign && assign[u.v] != u.sign {
        return None;
      }
      PropagateUnfold(inst.clauses, D, assign, u);
      assign := assign[u.v := u.sign];
      inst.Simplify(u);
      if inst.clauses == [] {
        return Some(assign);
      }
      if HasEmpty(inst.clauses) {
        return None;
      }
    }
    // No unit clause is left: branch on the first open declared variable.
    var open := FindOpen(D, assign);
    if open.None? {
      return None;
    }
    var x := open.value;
    ghost var C := inst.clauses;
    assert Propagate(C, D, assign) == TryFrom(C, D, assign, x, [1, -1]);
    var signs := [1, -1];
    var t := 0;
    while t < |signs|
      invariant 0 <= t <= |signs|
      invariant inst.declared == D && inst.clauses == C
      invariant TryFrom(C, D, assign, x, signs[t..]) == Search(C0, D, A0)
    {
      var branch := inst.Copy();
      branch.Simplify(Unit(x, signs[t]));
      if !HasEmpty(branch.clauses) {
        assert x in Elems(D) - A0.Keys && x !in Elems(D) - assign[x := signs[t]].Keys;
        var res := DpllRecursive(branch, assign[x := signs[t]]);
        if res.Some? {
          return res;
        }
      }
      assert signs[t..][1..] == signs[t + 1..];
      t := t + 1;
    }
    return None;
  }

  /** The scan of lines 213-217 for the first declared variable the
      assignment leaves open. */
  method FindOpen(D: seq<nat>, A: Assignment) returns (r: Option<nat>)
    ensures r == FirstUnassigned(D, A)
  {
    var k := 0;
    while k < |D| && D[k] in A
      invariant 0 <= k <= |D|
      invariant FirstUnassigned(D, A) == FirstUnassigned(D[k..], A)
    {
      assert D[k..][1..] == D[k + 1..];
      k := k + 1;
    }
    if k == |D| {
      assert D[k..] == [];
      return None;
    }
    assert D[k..][0] == D[k];
    return Some(D[k]);
  }

  /** The completion loop of `rezolva_dpll`: every declared variable the
      search left open gets +1; nothing else changes. */
  method Complete(B: Assignment, D: seq<nat>) returns (R: Assignment)
    ensures R.Keys == B.Keys + Elems(D)
    ensures Extends(R, B)
    ensures forall v :: v in R && v !in B ==> R[v] == 1
  {
    R := B;
    var i := 0;
    while i < |D|
      invariant 0 <= i <= |D|
      invariant R.Keys == B.Keys + Elems(D[..i])
      invariant Extends(R, B)
      invariant forall v :: v in R && v !in B ==> R[v] == 1
    {
      assert D[..i + 1] == D[..i] + [D[i]];
      if D[i] !in R {
        R := R[D[i] := 1];
      }
      i := i + 1;
    }
    assert D[..i] == D;
  }

  /** `rezolva_dpll`: search on a copy from the empty assignment, then
      complete the result. The instance itself is left as it was. */
  method Solve(inst: Instance) returns (r: Option<Assignment>)
    ensures r.None? <==> Search(inst.clauses, inst.declared, map[]).None?
    ensures r.Some? ==> IsSatisfied(inst.clauses, r.value)
    ensures r.Some? ==> Extends(r.value, Search(inst.clauses, inst.declared, map[]).value)
    ensures r.Some? ==> forall v :: v in inst.declared ==> v in r.value
    ensures r.Some? ==> r.value.Keys == Search(inst.clauses, inst.declared, map[]).value.Keys + Elems(inst.declared)
    ensures r.Some? ==> forall v :: v in r.value && v !in Search(inst.clauses, inst.declared, map[]).value ==> r.value[v] == 1
    ensures (AllWellSigned(inst.clauses) && Vars(inst.clauses) <= Elems(inst.declared)
             && exists B :: IsSatisfied(inst.clauses, B)) ==> r.Some?
  {
    var work := inst.Copy();
    var found := DpllRecursive(work, map[]);
    if AllWellSigned(inst.clauses) && Vars(inst.clauses) <= Elems(inst.declared)
       && (exists B :: IsSatisfied(inst.clauses, B)) {
      var B :| IsSatisfied(inst.clauses, B);
      SearchComplete(inst.clauses, inst.declared, map[], B);
    }
    if found.None? {
      return None;
    }
    SearchSound(inst.clauses, inst.declared, map[]);
    var total := Complete(found.value, inst.declared);
    IsSatisfiedMono(inst.clauses, found.value, total);
    return Some(total);
  }

  /** The declared variables (lines 87-99): 1..n from a positive header
      count, otherwise 1..the largest variable any clause mentions, or none
      when no clause mentions a variable. */
  method DeclaredVariables(header: int, C: seq<ClauseMap>) returns (D: seq<nat>)
    ensures forall i :: 0 <= i < |D| ==> D[i] == i + 1
    ensures header > 0 ==> |D| == header
    ensures header <= 0 && Vars(C) == {} ==> D == []
    ensures header <= 0 && Vars(C) != {} ==> |D| in Vars(C) && forall v :: v in Vars(C) ==> v <= |D|
  {
    var n: nat := 0;
    if header > 0 {
      n := header;
    } else {
      var seen: set<nat> := {};
      var i := 0;
      while i < |C|
        invariant 0 <= i <= |C|
        invariant seen == Vars(C[..i])
      {
        assert forall v :: v in Vars(C[..i + 1]) <==> v in Vars(C[..i]) || v in C[i] by {
          assert forall j :: 0 <= j < i ==> C[..i + 1][j] == C[..i][j];
        }
        seen := seen + C[i].Keys;
        i := i + 1;
      }
      assert C[..i] == C;
      if seen != {} {
        n := MaxOf(seen);
      }
    }
    D := [];
    var k := 0;
    while k < n
      invariant 0 <= k <= n
      invariant |D| == k
      invariant forall i :: 0 <= i < k ==> D[i] == i + 1
    {
      D := D + [k + 1];
      k := k + 1;
    }
  }

  /** `max(...)` of a non-empty set of variables. */
  method MaxOf(s: set<nat>) returns (m: nat)
    requires s != {}
    ensures m in s && forall v :: v in s ==> v <= m
  {
    m :| m in s;
    var rest := s - {m};
    while rest != {}
      invariant rest <= s && m in s
      invariant forall v :: v in s - rest ==> v <= m
      decreases rest
    {
      var y :| y in rest;
      assert forall v :: v in s - (rest - {y}) ==> v in s - rest || v == y;
      if y > m {
        m := y;
      }
      rest := rest - {y};
    }
    assert s - rest == s;
  }
}
