/** The resolution engine of dp.py: the formula `Expresie` and its saturation
    by binary resolution, `aplica_rezolutie`. */
module Resolution {
  import opened Clauses

  /** `Expresie.satisfiabila`: None, True or False in the source. */
  datatype Verdict = Unknown | Satisfiable | Unsatisfiable

  /** What saturation ends with: the verdict and the final clause set. */
  datatype Outcome = Outcome(sat: bool, clauses: set<Clause>)

  /** The filter of `Expresie.__init__`. */
  function DropTautologies(cs: seq<Clause>): (r: seq<Clause>)
    ensures forall c :: c in r <==> c in cs && !c.taut
    ensures |r| <= |cs|
  {
    if cs == [] then []
    else if cs[0].taut then DropTautologies(cs[1..])
    else [cs[0]] + DropTautologies(cs[1..])
  }

  /** The filter keeps the clauses' order: it distributes over concatenation. */
  lemma {:induction false} DropTautologiesAppend(a: seq<Clause>, b: seq<Clause>)
    ensures DropTautologies(a + b) == DropTautologies(a) + DropTautologies(b)
  {
    if a == [] {
      assert a + b == b;
    } else {
      assert (a + b)[1..] == a[1..] + b;
      DropTautologiesAppend(a[1..], b);
    }
  }

  /** A list without tautologies passes through unchanged. */
  lemma {:induction false} DropTautologiesKeeps(cs: seq<Clause>)
    requires forall c :: c in cs ==> !c.taut
    ensures DropTautologies(cs) == cs
  {
    if cs != [] {
      DropTautologiesKeeps(cs[1..]);
    }
  }

  /** The clauses the engine works on: constructed and not tautologies. */
  ghost predicate Active(S: set<Clause>)
  {
    forall c :: c in S ==> WellFormed(c) && !c.taut
  }

  function RemoveAt(s: seq<Lit>, k: nat): (r: seq<Lit>)
    requires k < |s|
    ensures |r| == |s| - 1
  {
    s[..k] + s[k + 1..]
  }

  /** The resolvent of lines 170-179: the clause built from every literal of
      `c1` but its `p`-th, followed by every literal of `c2` but its `q`-th. */
  function Resolve(c1: Clause, p: nat, c2: Clause, q: nat): Clause
    requires p < |c1.lits| && q < |c2.lits|
  {
    MakeClause(RemoveAt(c1.lits, p) + RemoveAt(c2.lits, q))
  }

  /** All resolvents of `c1` with `c2`, over every complementary pair. */
  ghost function PairResolvents(c1: Clause, c2: Clause): set<Clause>
  {
    set p, q | 0 <= p < |c1.lits| && 0 <= q < |c2.lits| && Complementary(c1.lits[p], c2.lits[q])
      :: Resolve(c1, p, c2, q)
  }

  /** All resolvents of two different clauses of `S`. */
  ghost function Resolvents(S: set<Clause>): set<Clause>
  {
    set c1, c2, r | c1 in S && c2 in S && c1 != c2 && r in PairResolvents(c1, c2) :: r
  }

  /** The resolvents a round stages: not tautologies and not already present. */
  ghost function Fresh(R: set<Clause>, S: set<Clause>): set<Clause>
  {
    set r | r in R && !r.taut && r !in S
  }

  lemma FreshUnion(A: set<Clause>, B: set<Clause>, S: set<Clause>)
    ensures Fresh(A + B, S) == Fresh(A, S) + Fresh(B, S)
  {
  }

  lemma FreshSingleton(r: Clause, S: set<Clause>)
    ensures Fresh({r}, S) == if !r.taut && r !in S then {r} else {}
  {
  }

  ghost function NewResolvents(S: set<Clause>): set<Clause>
  {
    Fresh(Resolvents(S), S)
  }

  /** The state "a whole round adds nothing": no resolvent is the empty
      clause, and every resolvent that is not a tautology is present. */
  ghost predicate Saturated(S: set<Clause>)
  {
    EmptyClause !in Resolvents(S) && forall r :: r in Resolvents(S) && !r.taut ==> r in S
  }

  ghost function LitsOf(S: set<Clause>): set<Lit>
  {
    set c, l | c in S && l in c.lits :: l
  }

  ghost predicate Within(S: set<Clause>, U: set<Lit>)
  {
    forall c :: c in S ==> Elems(c.lits) <= U
  }

  ghost function LitSets(S: set<Clause>): set<set<Lit>>
  {
    set c | c in S :: Elems(c.lits)
  }

  ghost function PowerSet(U: set<Lit>): set<set<Lit>>
  {
    set L: set<Lit> | L <= U
  }

  /** Swapping the two parents gives the same resolvent. */
  lemma ResolveSymmetric(c1: Clause, p: nat, c2: Clause, q: nat)
    requires p < |c1.lits| && q < |c2.lits|
    ensures Resolve(c1, p, c2, q) == Resolve(c2, q, c1, p)
  {
    var x := RemoveAt(c1.lits, p) + RemoveAt(c2.lits, q);
    var y := RemoveAt(c2.lits, q) + RemoveAt(c1.lits, p);
    assert forall l :: l in x <==> l in y;
    MakeClauseBySet(x, y);
  }

  lemma PairResolventsSymmetric(c1: Clause, c2: Clause)
    ensures PairResolvents(c1, c2) == PairResolvents(c2, c1)
  {
    forall r | r in PairResolvents(c1, c2) ensures r in PairResolvents(c2, c1) {
      var p, q :| 0 <= p < |c1.lits| && 0 <= q < |c2.lits| && Complementary(c1.lits[p], c2.lits[q])
        && r == Resolve(c1, p, c2, q);
      ResolveSymmetric(c1, p, c2, q);
    }
    forall r | r in PairResolvents(c2, c1) ensures r in PairResolvents(c1, c2) {
      var q, p :| 0 <= q < |c2.lits| && 0 <= p < |c1.lits| && Complementary(c2.lits[q], c1.lits[p])
        && r == Resolve(c2, q, c1, p);
      ResolveSymmetric(c2, q, c1, p);
    }
  }

  /** The literals of a resolvent come from its parents. */
  lemma ResolventLits(c1: Clause, p: nat, c2: Clause, q: nat)
    requires p < |c1.lits| && q < |c2.lits|
    ensures Elems(Resolve(c1, p, c2, q).lits) <= Elems(c1.lits) + Elems(c2.lits)
  {
    var x := RemoveAt(c1.lits, p) + RemoveAt(c2.lits, q);
    assert forall l :: l in x ==> l in c1.lits || l in c2.lits;
  }

  /** A two-literal clause over distinct variables, listed in order, is
      already in canonical form. */
  lemma CanonicalPair(a: Lit, b: Lit)
    requires a.v < b.v
    ensures MakeClause([a, b]) == Clause([a, b], false)
  {
    assert !HasComplementary([a, b]) by {
      forall x, y | x in [a, b] && y in [a, b] ensures !Complementary(x, y) {
      }
    }
    MakeClauseCanonical(Clause([a, b], false));
  }

  /** Resolving {x, y} with {~x, z} on x gives {y, z}; with x, y, z = 1, 2,
      3 this is {1, 2} and {~1, 3} giving {2, 3}. */
  lemma ResolveExample(x: nat, y: nat, z: nat)
    requires x < y < z
    ensures var c1 := MakeClause([Lit(x, false), Lit(y, false)]);
            var c2 := MakeClause([Lit(x, true), Lit(z, false)]);
            |c1.lits| == 2 && |c2.lits| == 2 &&
            Complementary(c1.lits[0], c2.lits[0]) &&
            Resolve(c1, 0, c2, 0) == MakeClause([Lit(y, false), Lit(z, false)]) &&
            Resolve(c1, 0, c2, 0) == Clause([Lit(y, false), Lit(z, false)], false)
  {
    CanonicalPair(Lit(x, false), Lit(y, false));
    CanonicalPair(Lit(x, true), Lit(z, false));
    CanonicalPair(Lit(y, false), Lit(z, false));
    var a := Clause([Lit(x, false), Lit(y, false)], false);
    var b := Clause([Lit(x, true), Lit(z, false)], false);
    assert RemoveAt(a.lits, 0) + RemoveAt(b.lits, 0) == [Lit(y, false), Lit(z, false)] by {
      assert RemoveAt(a.lits, 0) == [Lit(y, false)];
      assert RemoveAt(b.lits, 0) == [Lit(z, false)];
    }
  }

  /** One round on a saturable set keeps the set's invariants and strictly
      grows the family of literal sets it covers inside `PowerSet(U)`. */
  lemma GrowthStep(S: set<Clause>, U: set<Lit>)
    requires Active(S) && Within(S, U) && EmptyClause !in S
    requires EmptyClause !in Resolvents(S)
    ensures var N := NewResolvents(S);
            Active(S + N) && Within(S + N, U) && EmptyClause !in S + N &&
            (N != {} ==> PowerSet(U) - LitSets(S + N) < PowerSet(U) - LitSets(S))
  {
    var N := NewResolvents(S);
    forall r | r in N ensures WellFormed(r) && !r.taut && Elems(r.lits) <= U {
      var c1, c2 :| c1 in S && c2 in S && c1 != c2 && r in PairResolvents(c1, c2);
      var p, q :| 0 <= p < |c1.lits| && 0 <= q < |c2.lits| && Complementary(c1.lits[p], c2.lits[q])
        && r == Resolve(c1, p, c2, q);
      ResolventLits(c1, p, c2, q);
    }
    if N != {} {
      var r :| r in N;
      assert Elems(r.lits) in PowerSet(U);
      assert Elems(r.lits) in LitSets(S + N);
      if Elems(r.lits) in LitSets(S) {
        var c :| c in S && Elems(c.lits) == Elems(r.lits);
        SortedUnique(c.lits, r.lits);
        assert false;
      }
    }
  }

  /** The saturation loop of lines 151-194 as a function of the active set:
      stop with "unsatisfiable" once the empty clause is a resolvent, with
      "satisfiable" once a round stages nothing, else add the staged
      resolvents and go on. */
  ghost function Saturate(S: set<Clause>, U: set<Lit>): Outcome
    requires Active(S) && Within(S, U) && EmptyClause !in S
    decreases PowerSet(U) - LitSets(S)
  {
    if EmptyClause in Resolvents(S) then Outcome(false, S + {EmptyClause})
    else
      var N := NewResolvents(S);
      if N == {} then Outcome(true, S)
      else
        GrowthStep(S, U);
        Saturate(S + N, U)
  }

  lemma LitsOfWithin(S: set<Clause>)
    ensures Within(S, LitsOf(S))
  {
  }

  /** `aplica_rezolutie` on the clause list `cs`: lines 138-149, then the loop. */
  ghost function ResolutionSpec(cs: seq<Clause>): Outcome
    requires forall c :: c in cs ==> WellFormed(c)
  {
    var S := set c | c in cs && !c.taut;
    if S == {} then Outcome(true, {})
    else if EmptyClause in S then Outcome(false, S)
    else
      LitsOfWithin(S);
      Saturate(S, LitsOf(S))
  }

  /** What saturation promises about its outcome. */
  lemma {:induction false} SaturateOutcome(S: set<Clause>, U: set<Lit>)
    requires Active(S) && Within(S, U) && EmptyClause !in S
    ensures var out := Saturate(S, U);
            && S <= out.clauses
            && Active(out.clauses - {EmptyClause})
            && Within(out.clauses, U)
            && (out.sat <==> EmptyClause !in out.clauses)
            && (out.sat ==> Saturated(out.clauses))
            && (!out.sat ==> exists F :: S <= F && out.clauses == F + {EmptyClause} && EmptyClause in Resolvents(F))
    decreases PowerSet(U) - LitSets(S)
  {
    if EmptyClause !in Resolvents(S) {
      var N := NewResolvents(S);
      if N != {} {
        GrowthStep(S, U);
        SaturateOutcome(S + N, U);
      } else {
        forall r | r in Resolvents(S) && !r.taut ensures r in S {
          assert r !in S ==> r in N;
        }
      }
    } else {
      assert Active(S + {EmptyClause} - {EmptyClause});
    }
  }

  /** The verdict and the final clauses of the whole procedure: the original
      non-tautological clauses are all kept; the verdict is "unsatisfiable"
      exactly when the empty clause is in the result; on "satisfiable" every
      non-tautological resolvent is already present (lines 136-194). */
  lemma ResolutionOutcome(cs: seq<Clause>)
    requires forall c :: c in cs ==> WellFormed(c)
    ensures var out := ResolutionSpec(cs);
            && (set c | c in cs && !c.taut) <= out.clauses
            && (out.sat <==> EmptyClause !in out.clauses)
            && (out.sat ==> Saturated(out.clauses) && Active(out.clauses))
            && ((set c | c in cs && !c.taut) == {} ==> out == Outcome(true, {}))
            && (EmptyClause in cs ==> out == Outcome(false, set c | c in cs && !c.taut))
  {
    var S := set c | c in cs && !c.taut;
    if S != {} && EmptyClause !in S {
      LitsOfWithin(S);
      SaturateOutcome(S, LitsOf(S));
    }
  }

  /** Re-running on the clauses of a "satisfiable" result changes nothing. */
  lemma ResolutionIdempotent(cs: seq<Clause>, again: seq<Clause>)
    requires forall c :: c in cs ==> WellFormed(c)
    requires ResolutionSpec(cs).sat && Elems(again) == ResolutionSpec(cs).clauses
    ensures forall c :: c in again ==> WellFormed(c)
    ensures ResolutionSpec(again) == ResolutionSpec(cs)
  {
    var out := ResolutionSpec(cs);
    ResolutionOutcome(cs);
    var S := set c | c in again && !c.taut;
    assert S == out.clauses;
    if S != {} {
      LitsOfWithin(S);
      assert NewResolvents(S) == {};
    }
  }

  /** The valuation `a` makes every clause of `S` true. */
  ghost predicate SatisfiesAll(a: Valuation, S: set<Clause>)
  {
    forall c :: c in S ==> Satisfies(a, c)
  }

  ghost predicate SatisfiesList(a: Valuation, cs: seq<Clause>)
  {
    forall c :: c in cs ==> Satisfies(a, c)
  }

  /** `c` holds under every assignment that satisfies `S0`. */
  ghost predicate Entails(S0: set<Clause>, c: Clause)
  {
    forall a: Valuation :: SatisfiesAll(a, S0) ==> Satisfies(a, c)
  }

  lemma InRemoveAt(s: seq<Lit>, k: nat, x: Lit)
    requires k < |s| && x in s && x != s[k]
    ensures x in RemoveAt(s, k)
  {
    var i :| 0 <= i < |s| && s[i] == x;
    if i < k {
      assert RemoveAt(s, k)[i] == x;
    } else {
      assert RemoveAt(s, k)[i - 1] == x;
    }
  }

  /** Binary resolution is sound. */
  lemma ResolventSound(c1: Clause, p: nat, c2: Clause, q: nat, a: Valuation)
    requires !c1.taut && !c2.taut
    requires p < |c1.lits| && q < |c2.lits| && Complementary(c1.lits[p], c2.lits[q])
    requires Satisfies(a, c1) && Satisfies(a, c2)
    ensures Satisfies(a, Resolve(c1, p, c2, q))
  {
    var x := RemoveAt(c1.lits, p) + RemoveAt(c2.lits, q);
    MakeClauseMeaning(x, a);
    var l1 :| l1 in c1.lits && Holds(a, l1);
    var l2 :| l2 in c2.lits && Holds(a, l2);
    if l1 != c1.lits[p] {
      InRemoveAt(c1.lits, p, l1);
      assert l1 in x;
    } else {
      assert l2 != c2.lits[q];
      InRemoveAt(c2.lits, q, l2);
      assert l2 in x;
    }
  }

  /** Every resolvent of clauses entailed by `S0` is entailed by `S0`. */
  lemma ResolventsEntailed(S0: set<Clause>, S: set<Clause>)
    requires Active(S) && forall c :: c in S ==> Entails(S0, c)
    ensures forall r :: r in Resolvents(S) ==> Entails(S0, r)
  {
    forall r, a: Valuation | r in Resolvents(S) && SatisfiesAll(a, S0) ensures Satisfies(a, r) {
      var c1, c2 :| c1 in S && c2 in S && c1 != c2 && r in PairResolvents(c1, c2);
      var p, q :| 0 <= p < |c1.lits| && 0 <= q < |c2.lits| && Complementary(c1.lits[p], c2.lits[q])
        && r == Resolve(c1, p, c2, q);
      ResolventSound(c1, p, c2, q, a);
    }
  }

  lemma {:induction false} SaturateSound(S0: set<Clause>, S: set<Clause>, U: set<Lit>)
    requires Active(S) && Within(S, U) && EmptyClause !in S
    requires forall c :: c in S ==> Entails(S0, c)
    ensures forall c :: c in Saturate(S, U).clauses ==> Entails(S0, c)
    decreases PowerSet(U) - LitSets(S)
  {
    ResolventsEntailed(S0, S);
    if EmptyClause !in Resolvents(S) {
      var N := NewResolvents(S);
      if N != {} {
        GrowthStep(S, U);
        SaturateSound(S0, S + N, U);
      }
    }
  }

  /** Soundness: an "unsatisfiable" verdict means that no assignment makes
      every input clause true. */
  lemma ResolutionSound(cs: seq<Clause>)
    requires forall c :: c in cs ==> WellFormed(c)
    ensures !ResolutionSpec(cs).sat ==> forall a: Valuation :: !SatisfiesList(a, cs)
  {
    var S := set c | c in cs && !c.taut;
    var out := ResolutionSpec(cs);
    ResolutionOutcome(cs);
    forall c | c in S ensures Entails(S, c) {
    }
    if S != {} && EmptyClause !in S {
      LitsOfWithin(S);
      SaturateSound(S, S, LitsOf(S));
    }
    if !out.sat {
      forall a: Valuation ensures !SatisfiesList(a, cs) {
        assert Entails(S, EmptyClause);
        assert !Satisfies(a, EmptyClause);
        assert !SatisfiesAll(a, S);
      }
    }
  }

  // ---------------------------------------------------------------------
  // The imperative engine: one round of lines 154-188, and the whole loop.
  // ---------------------------------------------------------------------

  /** `list(active_clauses)`: the clauses of a set, each once, in some order. */
  method Enumerate(S: set<Clause>) returns (L: seq<Clause>)
    ensures Elems(L) == S && NoDups(L)
  {
    L := [];
    var rest := S;
    while rest != {}
      invariant rest <= S && Elems(L) == S - rest && NoDups(L)
      decreases rest
    {
      var c :| c in rest;
      L := L + [c];
      rest := rest - {c};
    }
  }

  predicate KeySorted(L: seq<Clause>)
  {
    forall i, j :: 0 <= i < j < |L| ==> KeyLe(SortKey(L[i]), SortKey(L[j]))
  }

  lemma KeyLeTotal(x: (nat, nat), y: (nat, nat), z: (nat, nat))
    ensures KeyLe(x, y) || KeyLe(y, x)
    ensures KeyLe(x, y) && KeyLe(y, z) ==> KeyLe(x, z)
  {
  }

  lemma KeySortedCons(c: Clause, L: seq<Clause>)
    requires KeySorted(L)
    requires forall x :: x in L ==> KeyLe(SortKey(c), SortKey(x))
    ensures KeySorted([c] + L)
  {
    forall i, j | 0 <= i < j < |[c] + L|
      ensures KeyLe(SortKey(([c] + L)[i]), SortKey(([c] + L)[j]))
    {
      if i == 0 {
        assert ([c] + L)[j] == L[j - 1];
      } else {
        assert ([c] + L)[i] == L[i - 1] && ([c] + L)[j] == L[j - 1];
      }
    }
  }

  lemma KeyLeAll(c: Clause, L: seq<Clause>)
    requires KeySorted(L) && L != [] && KeyLe(SortKey(c), SortKey(L[0]))
    ensures forall x :: x in L ==> KeyLe(SortKey(c), SortKey(x))
  {
    forall x | x in L ensures KeyLe(SortKey(c), SortKey(x)) {
      var k :| 0 <= k < |L| && L[k] == x;
      KeyLeTotal(SortKey(c), SortKey(L[0]), SortKey(x));
    }
  }

  lemma HeadBelowInserted(c: Clause, L: seq<Clause>, rest: seq<Clause>)
    requires KeySorted(L) && L != [] && !KeyLe(SortKey(c), SortKey(L[0]))
    requires multiset(rest) == multiset(L[1..]) + multiset{c}
    ensures forall x :: x in rest ==> KeyLe(SortKey(L[0]), SortKey(x))
  {
    forall x | x in rest ensures KeyLe(SortKey(L[0]), SortKey(x)) {
      assert x in multiset(rest);
      KeyLeTotal(SortKey(c), SortKey(L[0]), SortKey(x));
      if x != c {
        assert x in multiset(L[1..]);
        var k :| 0 <= k < |L[1..]| && L[1..][k] == x;
        assert L[k + 1] == x;
      }
    }
  }

  function InsertByKey(c: Clause, L: seq<Clause>): (r: seq<Clause>)
    requires KeySorted(L)
    ensures KeySorted(r)
    ensures multiset(r) == multiset(L) + multiset{c}
  {
    if L == [] then [c]
    else if KeyLe(SortKey(c), SortKey(L[0])) then
      KeyLeAll(c, L);
      KeySortedCons(c, L);
      [c] + L
    else
      var rest := InsertByKey(c, L[1..]);
      HeadBelowInserted(c, L, rest);
      KeySortedCons(L[0], rest);
      assert L == [L[0]] + L[1..];
      [L[0]] + rest
  }

  lemma SameMultisetSameElems(a: seq<Clause>, b: seq<Clause>)
    requires multiset(a) == multiset(b)
    ensures Elems(a) == Elems(b)
  {
    forall c ensures c in a <==> c in b {
      assert c in a <==> c in multiset(a);
      assert c in b <==> c in multiset(b);
    }
  }

  /** `sorted(..., key=get_canonical_representation_for_sorting)` of line
      156: the same clauses, ordered by sort key. */
  function SortByKey(L: seq<Clause>): (r: seq<Clause>)
    ensures KeySorted(r)
    ensures multiset(r) == multiset(L)
  {
    if L == [] then []
    else
      assert L == [L[0]] + L[1..];
      InsertByKey(L[0], SortByKey(L[1..]))
  }

  /** The resolvents found on the literal pairs (p', q') of `ci` and `cj`
      that come before (p, q) in the order of the two inner loops. */
  ghost function ResolventsBefore(ci: Clause, cj: Clause, p: nat, q: nat): set<Clause>
  {
    set p', q' | 0 <= p' < |ci.lits| && 0 <= q' < |cj.lits| && (p' < p || (p' == p && q' < q))
      && Complementary(ci.lits[p'], cj.lits[q']) :: Resolve(ci, p', cj, q')
  }

  lemma ResolventsBeforeStep(ci: Clause, cj: Clause, p: nat, q: nat)
    requires p < |ci.lits| && q < |cj.lits|
    ensures ResolventsBefore(ci, cj, p, q + 1) ==
            ResolventsBefore(ci, cj, p, q) +
            (if Complementary(ci.lits[p], cj.lits[q]) then {Resolve(ci, p, cj, q)} else {})
  {
  }

  lemma ResolventOfPair(ci: Clause, p: nat, cj: Clause, q: nat)
    requires p < |ci.lits| && q < |cj.lits| && Complementary(ci.lits[p], cj.lits[q])
    ensures Resolve(ci, p, cj, q) in PairResolvents(ci, cj)
  {
  }

  lemma ResolventsBeforeRow(ci: Clause, cj: Clause, p: nat)
    requires p < |ci.lits|
    ensures ResolventsBefore(ci, cj, p, |cj.lits|) == ResolventsBefore(ci, cj, p + 1, 0)
  {
  }

  lemma ResolventsBeforeAll(ci: Clause, cj: Clause)
    ensures ResolventsBefore(ci, cj, |ci.lits|, 0) == PairResolvents(ci, cj)
  {
  }

  /** The two inner loops of lines 167-188 for one pair of clauses: report
      whether the empty clause is among their resolvents, and otherwise
      return the resolvents to stage. */
  method ResolvePair(ci: Clause, cj: Clause, S: set<Clause>) returns (found: bool, staged: set<Clause>)
    ensures found <==> EmptyClause in PairResolvents(ci, cj)
    ensures !found ==> staged == Fresh(PairResolvents(ci, cj), S)
  {
    staged := {};
    var p := 0;
    while p < |ci.lits|
      invariant 0 <= p <= |ci.lits|
      invariant EmptyClause !in ResolventsBefore(ci, cj, p, 0)
      invariant staged == Fresh(ResolventsBefore(ci, cj, p, 0), S)
    {
      var q := 0;
      while q < |cj.lits|
        invariant 0 <= q <= |cj.lits|
        invariant EmptyClause !in ResolventsBefore(ci, cj, p, q)
        invariant staged == Fresh(ResolventsBefore(ci, cj, p, q), S)
      {
        ResolventsBeforeStep(ci, cj, p, q);
        if ci.lits[p].v == cj.lits[q].v && ci.lits[p].neg != cj.lits[q].neg {
          var resolvent := Resolve(ci, p, cj, q);
          FreshUnion(ResolventsBefore(ci, cj, p, q), {resolvent}, S);
          FreshSingleton(resolvent, S);
          if resolvent.lits == [] && !resolvent.taut {
            ResolventOfPair(ci, p, cj, q);
            return true, staged;
          }
          if !resolvent.taut && resolvent !in S {
            staged := staged + {resolvent};
          }
        }
        q := q + 1;
      }
      ResolventsBeforeRow(ci, cj, p);
      p := p + 1;
    }
    ResolventsBeforeAll(ci, cj);
    found := false;
  }

  /** A clause without literals resolves with nothing. */
  lemma NoResolventsWithEmpty(c1: Clause, c2: Clause)
    requires c1.lits == [] || c2.lits == []
    ensures PairResolvents(c1, c2) == {}
  {
  }

  /** The resolvents of the pairs (a, b), a < b, of the list `L` that come
      before (i, j) in the order of the two outer loops. */
  ghost function PairsBefore(L: seq<Clause>, i: nat, j: nat): set<Clause>
  {
    set a, b, r | 0 <= a < b < |L| && (a < i || (a == i && b < j)) && r in PairResolvents(L[a], L[b]) :: r
  }

  lemma PairsBeforeStep(L: seq<Clause>, i: nat, j: nat)
    requires i < j < |L|
    ensures PairsBefore(L, i, j + 1) == PairsBefore(L, i, j) + PairResolvents(L[i], L[j])
  {
    forall r | r in PairResolvents(L[i], L[j]) ensures r in PairsBefore(L, i, j + 1) {
      assert 0 <= i < j < |L| && (i < i || (i == i && j < j + 1)) && r in PairResolvents(L[i], L[j]);
    }
    forall r | r in PairsBefore(L, i, j + 1) ensures r in PairsBefore(L, i, j) || r in PairResolvents(L[i], L[j]) {
      var a, b :| 0 <= a < b < |L| && (a < i || (a == i && b < j + 1)) && r in PairResolvents(L[a], L[b]);
      assert (a == i && b == j) || (a < i || (a == i && b < j));
    }
  }

  lemma PairsBeforeRow(L: seq<Clause>, i: nat)
    requires i < |L|
    ensures PairsBefore(L, i, |L|) == PairsBefore(L, i + 1, i + 2)
  {
  }

  lemma PairsBeforeAll(L: seq<Clause>)
    ensures PairsBefore(L, |L|, |L| + 1) == PairsBefore(L, |L|, 0)
  {
  }

  /** A constructed non-tautological clause does not resolve with itself. */
  lemma NoSelfResolvents(c: Clause)
    requires WellFormed(c) && !c.taut
    ensures PairResolvents(c, c) == {}
  {
    forall p, q | 0 <= p < |c.lits| && 0 <= q < |c.lits| ensures !Complementary(c.lits[p], c.lits[q]) {
      assert c.lits[p] in c.lits && c.lits[q] in c.lits;
    }
  }

  /** Enumerating the unordered pairs of a list of the set's clauses finds
      every resolvent of the set. */
  lemma ListPairsCoverSet(L: seq<Clause>, S: set<Clause>)
    requires Active(S) && Elems(L) == S
    ensures PairsBefore(L, |L|, 0) == Resolvents(S)
  {
    ListPairsWithin(L, S);
    SetPairsListed(L, S);
  }

  lemma ListPairsWithin(L: seq<Clause>, S: set<Clause>)
    requires Active(S) && Elems(L) == S
    ensures PairsBefore(L, |L|, 0) <= Resolvents(S)
  {
    forall r | r in PairsBefore(L, |L|, 0) ensures r in Resolvents(S) {
      var a, b :| 0 <= a < b < |L| && r in PairResolvents(L[a], L[b]);
      PairInResolvents(L, S, a, b);
    }
  }

  lemma SetPairsListed(L: seq<Clause>, S: set<Clause>)
    requires Elems(L) == S
    ensures Resolvents(S) <= PairsBefore(L, |L|, 0)
  {
    forall r | r in Resolvents(S) ensures r in PairsBefore(L, |L|, 0) {
      var c1, c2 :| c1 in S && c2 in S && c1 != c2 && r in PairResolvents(c1, c2);
      var a :| 0 <= a < |L| && L[a] == c1;
      var b :| 0 <= b < |L| && L[b] == c2;
      ListedPair(L, a, b, r);
    }
  }

  lemma ListedPair(L: seq<Clause>, a: nat, b: nat, r: Clause)
    requires a < |L| && b < |L| && a != b && r in PairResolvents(L[a], L[b])
    ensures r in PairsBefore(L, |L|, 0)
  {
    if b < a {
      PairResolventsSymmetric(L[a], L[b]);
      assert 0 <= b < a < |L| && r in PairResolvents(L[b], L[a]);
    } else {
      assert 0 <= a < b < |L| && r in PairResolvents(L[a], L[b]);
    }
  }

  /** The resolvents of two listed clauses are resolvents of the set. */
  lemma PairInResolvents(L: seq<Clause>, S: set<Clause>, i: nat, j: nat)
    requires Active(S) && Elems(L) == S && i < j < |L|
    ensures PairResolvents(L[i], L[j]) <= Resolvents(S)
  {
    if L[i] == L[j] {
      NoSelfResolvents(L[i]);
    }
  }

  /** One round of the saturation loop (lines 154-188) on the active set:
      `found` says the empty clause was derived; otherwise `staged` holds
      exactly the new non-tautological resolvents. */
  method ResolutionRound(S: set<Clause>) returns (found: bool, staged: set<Clause>)
    requires Active(S)
    ensures found <==> EmptyClause in Resolvents(S)
    ensures !found ==> staged == NewResolvents(S)
  {
    var unordered := Enumerate(S);
    var list := SortByKey(unordered);
    SameMultisetSameElems(list, unordered);
    staged := {};
    ghost var seen: set<Clause> := {};
    var i := 0;
    while i < |list|
      invariant 0 <= i <= |list|
      invariant seen == PairsBefore(list, i, i + 1)
      invariant EmptyClause !in seen && staged == Fresh(seen, S)
    {
      var j := i + 1;
      while j < |list|
        invariant i + 1 <= j <= |list|
        invariant seen == PairsBefore(list, i, j)
        invariant EmptyClause !in seen && staged == Fresh(seen, S)
      {
        ghost var pr := PairResolvents(list[i], list[j]);
        PairsBeforeStep(list, i, j);
        FreshUnion(seen, pr, S);
        if list[i].lits != [] && list[j].lits != [] {
          var pairFound, pairStaged := ResolvePair(list[i], list[j], S);
          if pairFound {
            PairInResolvents(list, S, i, j);
            return true, staged;
          }
          staged := staged + pairStaged;
        } else {
          NoResolventsWithEmpty(list[i], list[j]);
        }
        seen := seen + pr;
        j := j + 1;
      }
      PairsBeforeRow(list, i);
      i := i + 1;
    }
    PairsBeforeAll(list);
    ListPairsCoverSet(list, S);
    found := false;
  }

  /** The formula `Expresie`: its clause list and its verdict. */
  class Formula {
    var clauses: seq<Clause>
    var satisfiable: Verdict

    /** `Expresie.__init__`: drop the tautologies, verdict unknown. */
    constructor (cs: seq<Clause>)
      ensures clauses == DropTautologies(cs) && satisfiable == Unknown
    {
      clauses := DropTautologies(cs);
      satisfiable := Unknown;
    }

    /** `aplica_rezolutie`: saturate by resolution, then store the verdict and
        the final clause set (as a list without repetitions). */
    method ApplyResolution()
      requires forall c :: c in clauses ==> WellFormed(c)
      modifies this
      ensures var out := ResolutionSpec(old(clauses));
              && satisfiable == (if out.sat then Satisfiable else Unsatisfiable)
              && Elems(clauses) == out.clauses
              && NoDups(clauses)
    {
      satisfiable := Satisfiable;
      var active := set c | c in clauses && !c.taut;
      if active == {} {
        clauses := [];
        satisfiable := Satisfiable;
        return;
      }
      if EmptyClause in active {
        satisfiable := Unsatisfiable;
        clauses := Enumerate(active);
        return;
      }
      ghost var universe := LitsOf(active);
      LitsOfWithin(active);
      while true
        invariant Active(active) && Within(active, universe) && EmptyClause !in active
        invariant Saturate(active, universe) == ResolutionSpec(old(clauses))
        invariant satisfiable == Satisfiable
        decreases PowerSet(universe) - LitSets(active)
      {
        var found, staged := ResolutionRound(active);
        if found {
          satisfiable := Unsatisfiable;
          active := active + {EmptyClause};
          clauses := Enumerate(active);
          return;
        }
        if staged == {} {
          clauses := Enumerate(active);
          return;
        }
        GrowthStep(active, universe);
        active := active + staged;
      }
    }
  }
}
