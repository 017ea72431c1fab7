/** Map-form clauses of the DPLL engine: the `Clauza` class of dpll.py and
    the clause-list helpers of `InstantaSAT` that only compute a value. */
module MapClauses {

  datatype Option<T> = None | Some(value: T)

  /** A clause in map form: each variable it mentions, with the sign the
      clause requires of it (`Clauza.simboluri`). */
  type ClauseMap = map<nat, int>

  /** A partial assignment: variable to sign. */
  type Assignment = map<nat, int>

  /** A unit clause `{v: sign}` as the helpers pass it around. */
  datatype Unit = Unit(v: nat, sign: int)

  function Abs(x: int): nat
  {
    if x < 0 then -x else x
  }

  /** The sign of a literal as `din_lista_literali` computes it: zero counts
      as negative. */
  function SignOf(x: int): int
  {
    if x > 0 then 1 else -1
  }

  /** No later literal of `lits` than the `i`-th mentions its variable. */
  predicate LastOccurrence(lits: seq<int>, i: nat)
    requires i < |lits|
  {
    forall j :: i < j < |lits| ==> Abs(lits[j]) != Abs(lits[i])
  }

  /** Every sign is +1 or -1. */
  predicate WellSigned(c: ClauseMap)
  {
    forall v :: v in c ==> c[v] == 1 || c[v] == -1
  }

  predicate AllWellSigned(C: seq<ClauseMap>)
  {
    forall i :: 0 <= i < |C| ==> WellSigned(C[i])
  }

  /** `din_lista_literali`: one entry per variable of the input, each +1
      or -1. */
  function FromLiterals(lits: seq<int>): (m: ClauseMap)
    ensures m.Keys == set l | l in lits :: Abs(l)
    ensures WellSigned(m)
  {
    if lits == [] then map[]
    else
      var init := lits[..|lits| - 1];
      var last := lits[|lits| - 1];
      assert lits == init + [last];
      FromLiterals(init)[Abs(last) := SignOf(last)]
  }

  /** The last occurrence of a variable decides its sign. */
  lemma {:induction false} FromLiteralsLastOccurrence(lits: seq<int>, i: nat)
    requires i < |lits| && LastOccurrence(lits, i)
    ensures FromLiterals(lits)[Abs(lits[i])] == SignOf(lits[i])
    decreases |lits|
  {
    var init := lits[..|lits| - 1];
    if i < |lits| - 1 {
      assert Abs(lits[i]) != Abs(lits[|lits| - 1]);
      assert LastOccurrence(init, i) by {
        forall j | i < j < |init| ensures Abs(init[j]) != Abs(init[i]) {
          assert init[j] == lits[j];
        }
      }
      FromLiteralsLastOccurrence(init, i);
    }
  }

  /** The clause `1 -1 0` becomes `{1: -1}`, not a tautology. */
  lemma FromLiteralsLastWins()
    ensures FromLiterals([1, -1]) == map[1 := -1]
  {
    assert [1, -1][..1] == [1];
    assert [1][..0] == [];
  }

  /** Clause `c` holds under `A`: some variable is assigned the sign `c`
      requires of it. */
  predicate ClauseTrue(c: ClauseMap, A: Assignment)
  {
    exists v :: v in c && v in A && A[v] == c[v]
  }

  /** `este_satisfacuta`: every clause holds. */
  function IsSatisfied(C: seq<ClauseMap>, A: Assignment): (r: bool)
    ensures r <==> forall i :: 0 <= i < |C| ==> ClauseTrue(C[i], A)
  {
    if C == [] then true
    else
      assert forall i :: 0 < i < |C| ==> C[i] == C[1..][i - 1];
      ClauseTrue(C[0], A) && IsSatisfied(C[1..], A)
  }

  /** `B` agrees with `A` wherever `A` is defined. */
  predicate Extends(B: Assignment, A: Assignment)
  {
    forall v :: v in A ==> v in B && B[v] == A[v]
  }

  /** Assigning more variables never falsifies a satisfied clause list. */
  lemma IsSatisfiedMono(C: seq<ClauseMap>, A: Assignment, B: Assignment)
    requires Extends(B, A) && IsSatisfied(C, A)
    ensures IsSatisfied(C, B)
  {
    forall i | 0 <= i < |C| ensures ClauseTrue(C[i], B) {
      assert ClauseTrue(C[i], A);
      var v :| v in C[i] && v in A && A[v] == C[i][v];
      assert v in B && B[v] == C[i][v];
    }
  }

  lemma SingletonKey(c: ClauseMap)
    requires |c| == 1
    ensures exists v :: c.Keys == {v}
  {
    assert |c.Keys| == 1;
    var v :| v in c.Keys;
    assert |c.Keys - {v}| == 0;
    assert c.Keys == {v};
  }

  /** The one variable of a unit clause (`next(iter(...keys()))`). */
  function TheKey(c: ClauseMap): (v: nat)
    requires |c| == 1
    ensures v in c && c == map[v := c[v]]
  {
    SingletonKey(c);
    var v :| v in c.Keys;
    v
  }

  /** `gaseste_clauza_unitara`: the entry of the first clause of size 1, or
      nothing when there is none. */
  function FindUnit(C: seq<ClauseMap>): (r: Option<Unit>)
    ensures r.None? <==> forall i :: 0 <= i < |C| ==> |C[i]| != 1
    ensures r.Some? ==> exists i :: 0 <= i < |C| && C[i] == map[r.value.v := r.value.sign]
                          && forall j :: 0 <= j < i ==> |C[j]| != 1
  {
    if C == [] then None
    else if |C[0]| == 1 then
      var v := TheKey(C[0]);
      Some(Unit(v, C[0][v]))
    else
      var r := FindUnit(C[1..]);
      assert forall i :: 0 < i < |C| ==> C[i] == C[1..][i - 1];
      if r.Some? then
        var i :| 0 <= i < |C[1..]| && C[1..][i] == map[r.value.v := r.value.sign]
                 && forall j :: 0 <= j < i ==> |C[1..][j]| != 1;
        assert C[i + 1] == map[r.value.v := r.value.sign];
        r
      else
        r
  }

  /** A unit clause on `u.v` with the opposite sign. */
  predicate OppositeUnit(c: ClauseMap, u: Unit)
  {
    |c| == 1 && u.v in c && c[u.v] != u.sign
  }

  /** `nu_exista_clauza_unitara_opusa`. */
  function NoOppositeUnit(C: seq<ClauseMap>, u: Unit): (r: bool)
    ensures !r <==> exists i :: 0 <= i < |C| && OppositeUnit(C[i], u)
  {
    if C == [] then true
    else
      assert forall i :: 0 < i < |C| ==> C[i] == C[1..][i - 1];
      !OppositeUnit(C[0], u) && NoOppositeUnit(C[1..], u)
  }

  /** Some clause is empty (`any(not cl.simboluri ...)`). */
  predicate HasEmpty(C: seq<ClauseMap>)
  {
    exists i :: 0 <= i < |C| && C[i] == map[]
  }

  lemma HasEmptyUnsatisfied(C: seq<ClauseMap>, A: Assignment)
    requires HasEmpty(C)
    ensures !IsSatisfied(C, A)
  {
    var i :| 0 <= i < |C| && C[i] == map[];
    assert !ClauseTrue(C[i], A);
  }

  /** The variables some clause mentions. */
  function Vars(C: seq<ClauseMap>): (r: set<nat>)
    ensures forall v :: v in r <==> exists i :: 0 <= i < |C| && v in C[i]
  {
    set i, v | 0 <= i < |C| && v in C[i] :: v
  }

  /** What the loop of `simplifica` does to one clause when no conflict
      arises: drop it if it requires the propagated sign, remove the
      variable if it requires the other, keep it otherwise. */
  function Step(c: ClauseMap, u: Unit): seq<ClauseMap>
  {
    if u.v in c then
      if c[u.v] == u.sign then [] else [c - {u.v}]
    else [c]
  }

  /** `clauze_noi` once the loop of `simplifica` ran to the end. */
  function Reduce(C: seq<ClauseMap>, u: Unit): (r: seq<ClauseMap>)
    ensures |r| <= |C|
  {
    if C == [] then []
    else Reduce(C[..|C| - 1], u) + Step(C[|C| - 1], u)
  }

  /** What the reduced list holds: no clause mentions the variable; each
      clause is an input clause kept as it was or with the variable removed;
      every input clause not mentioning the variable is kept, and every one
      requiring the other sign appears without the variable. */
  lemma {:induction false} ReduceContents(C: seq<ClauseMap>, u: Unit)
    ensures forall c :: c in Reduce(C, u) ==> u.v !in c
    ensures forall c :: c in Reduce(C, u) ==>
              exists d :: d in C && (d == c || (u.v in d && d[u.v] != u.sign && c == d - {u.v}))
    ensures forall d :: d in C && u.v !in d ==> d in Reduce(C, u)
    ensures forall d :: d in C && u.v in d && d[u.v] != u.sign ==> d - {u.v} in Reduce(C, u)
    decreases |C|
  {
    if C != [] {
      var init := C[..|C| - 1];
      ReduceContents(init, u);
      assert forall d :: d in C <==> d in init || d == C[|C| - 1];
    }
  }

  /** Clauses are kept in their original order: reducing a concatenation
      reduces each part. */
  lemma {:induction false} ReduceAppend(A: seq<ClauseMap>, B: seq<ClauseMap>, u: Unit)
    ensures Reduce(A + B, u) == Reduce(A, u) + Reduce(B, u)
    decreases |B|
  {
    if B == [] {
      assert A + B == A;
    } else {
      var B0, b := B[..|B| - 1], B[|B| - 1];
      var AB := A + B;
      assert AB[..|AB| - 1] == A + B0;
      assert AB[|AB| - 1] == b;
      calc {
        Reduce(AB, u);
        Reduce(A + B0, u) + Step(b, u);
        { ReduceAppend(A, B0, u); }
        Reduce(A, u) + Reduce(B0, u) + Step(b, u);
        Reduce(A, u) + Reduce(B, u);
      }
    }
  }

  /** A clause that becomes empty once the variable is removed: it is a unit
      clause requiring the other sign. */
  predicate EmptiedBy(c: ClauseMap, u: Unit)
  {
    u.v in c && c[u.v] != u.sign && c - {u.v} == map[]
  }

  /** The loop of `simplifica` meets a clause it would empty and stops. */
  predicate Conflict(C: seq<ClauseMap>, u: Unit)
  {
    exists c :: c in C && EmptiedBy(c, u)
  }

  /** `simplifica`: on a conflict the clause list becomes the single empty
      conflict clause, otherwise the reduced list. */
  function Simplified(C: seq<ClauseMap>, u: Unit): seq<ClauseMap>
  {
    if Conflict(C, u) then [map[]] else Reduce(C, u)
  }

  /** Propagating a variable no clause mentions changes nothing. */
  lemma {:induction false} SimplifiedUnmentioned(C: seq<ClauseMap>, u: Unit)
    requires u.v !in Vars(C)
    ensures Simplified(C, u) == C
    decreases |C|
  {
    assert !Conflict(C, u) by {
      forall c | c in C ensures !EmptiedBy(c, u) {
        var i :| 0 <= i < |C| && C[i] == c;
      }
    }
    if C != [] {
      var init := C[..|C| - 1];
      assert u.v !in Vars(init) by {
        forall i | 0 <= i < |init| ensures u.v !in init[i] {
          assert init[i] == C[i];
        }
      }
      SimplifiedUnmentioned(init, u);
      assert u.v !in C[|C| - 1];
      assert C == init + [C[|C| - 1]];
    }
  }

  lemma EmptiedIsOppositeUnit(c: ClauseMap, u: Unit)
    requires EmptiedBy(c, u)
    ensures OppositeUnit(c, u)
    ensures c == map[u.v := c[u.v]]
  {
    forall w | w in c ensures w == u.v {
      assert w != u.v ==> w in c - {u.v};
    }
    assert c.Keys == {u.v};
    assert |c| == |c.Keys|;
  }

  /** The conflict marker needs an opposite unit clause in the list, so it
      never reaches the propagation loop (which checks for one first) nor
      the branching step (which runs only when no unit clause is left). */
  lemma ConflictNeedsOppositeUnit(C: seq<ClauseMap>, u: Unit)
    requires Conflict(C, u)
    ensures !NoOppositeUnit(C, u)
    ensures FindUnit(C).Some?
  {
    var c :| c in C && EmptiedBy(c, u);
    EmptiedIsOppositeUnit(c, u);
    var i :| 0 <= i < |C| && C[i] == c;
    assert OppositeUnit(C[i], u);
  }

  /** With no unit clause in the list, simplification never meets a
      conflict, so the branching path never sees the conflict marker. */
  lemma NoUnitNoConflict(C: seq<ClauseMap>, u: Unit)
    requires FindUnit(C).None?
    ensures !Conflict(C, u)
  {
    if Conflict(C, u) {
      ConflictNeedsOppositeUnit(C, u);
    }
  }

  /** Simplification removes the propagated variable and adds none. */
  lemma SimplifiedVars(C: seq<ClauseMap>, u: Unit)
    ensures Vars(Simplified(C, u)) <= Vars(C) - {u.v}
  {
    var S := Simplified(C, u);
    ReduceContents(C, u);
    if !Conflict(C, u) {
      forall v | v in Vars(S) ensures v in Vars(C) && v != u.v {
        var i :| 0 <= i < |S| && v in S[i];
        assert S[i] in Reduce(C, u);
        var d :| d in C && (d == S[i] || (u.v in d && d[u.v] != u.sign && S[i] == d - {u.v}));
        var k :| 0 <= k < |C| && C[k] == d;
      }
    } else {
      assert S == [map[]];
    }
  }

  lemma SimplifiedWellSigned(C: seq<ClauseMap>, u: Unit)
    requires AllWellSigned(C)
    ensures AllWellSigned(Simplified(C, u))
  {
    var S := Simplified(C, u);
    ReduceContents(C, u);
    if !Conflict(C, u) {
      forall i | 0 <= i < |S| ensures WellSigned(S[i]) {
        assert S[i] in Reduce(C, u);
        var d :| d in C && (d == S[i] || (u.v in d && d[u.v] != u.sign && S[i] == d - {u.v}));
        var k :| 0 <= k < |C| && C[k] == d;
      }
    }
  }

  lemma {:induction false} ReduceMeaning(C: seq<ClauseMap>, u: Unit, A: Assignment)
    requires u.v in A && A[u.v] == u.sign
    ensures IsSatisfied(Reduce(C, u), A) <==> IsSatisfied(C, A)
    decreases |C|
  {
    if C != [] {
      var init, c := C[..|C| - 1], C[|C| - 1];
      ReduceMeaning(init, u, A);
      assert C == init + [c];
      assert Reduce(C, u) == Reduce(init, u) + Step(c, u);
      assert ClauseTrue(c, A) <==> IsSatisfied(Step(c, u), A) by {
        if u.v in c && c[u.v] != u.sign {
          assert ClauseTrue(c, A) ==> ClauseTrue(c - {u.v}, A) by {
            if ClauseTrue(c, A) {
              var w :| w in c && w in A && A[w] == c[w];
              assert w in c - {u.v};
            }
          }
        }
      }
      SatisfiedAppend(Reduce(init, u), Step(c, u), A);
      SatisfiedAppend(init, [c], A);
    }
  }

  lemma SatisfiedAppend(C: seq<ClauseMap>, E: seq<ClauseMap>, A: Assignment)
    ensures IsSatisfied(C + E, A) <==> IsSatisfied(C, A) && IsSatisfied(E, A)
  {
    assert forall i :: 0 <= i < |E| ==> (C + E)[|C| + i] == E[i];
    assert forall i :: 0 <= i < |C| ==> (C + E)[i] == C[i];
  }

  /** Under an assignment that gives the propagated variable the propagated
      sign, simplification keeps the meaning of the clause list. */
  lemma SimplifiedMeaning(C: seq<ClauseMap>, u: Unit, A: Assignment)
    requires u.v in A && A[u.v] == u.sign
    ensures IsSatisfied(Simplified(C, u), A) <==> IsSatisfied(C, A)
  {
    if Conflict(C, u) {
      var c :| c in C && EmptiedBy(c, u);
      var i :| 0 <= i < |C| && C[i] == c;
      EmptiedIsOppositeUnit(c, u);
      assert !ClauseTrue(C[i], A);
      assert !ClauseTrue(Simplified(C, u)[0], A);
    } else {
      ReduceMeaning(C, u, A);
    }
  }
}
