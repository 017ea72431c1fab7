/** Literals and set-form clauses of the resolution engine: the `Unitate` and
    `Clauza` classes of dp.py. A clause is built once, by `MakeClause`, and is
    a value from then on. */
module Clauses {

  /** A literal: a variable number and a negation flag. */
  datatype Lit = Lit(v: nat, neg: bool)

  /** `Unitate.__lt__`: by variable number, then the positive literal first. */
  predicate Less(a: Lit, b: Lit)
  {
    a.v < b.v || (a.v == b.v && !a.neg && b.neg)
  }

  /** Two literals of one variable with opposite polarity. */
  predicate Complementary(a: Lit, b: Lit)
  {
    a.v == b.v && a.neg != b.neg
  }

  function Elems<T(!new)>(s: seq<T>): (r: set<T>)
    ensures forall x :: x in r <==> x in s
  {
    set x | x in s
  }

  predicate NoDups<T(==)>(s: seq<T>)
  {
    forall i, j :: 0 <= i < j < |s| ==> s[i] != s[j]
  }

  predicate StrictlySorted(s: seq<Lit>)
  {
    forall i, j :: 0 <= i < j < |s| ==> Less(s[i], s[j])
  }

  /** Some variable occurs in `s` with both polarities. */
  predicate HasComplementary(s: seq<Lit>)
  {
    exists x, y :: x in s && y in s && Complementary(x, y)
  }

  /** A clause: its literals and the tautology flag (`unitati`, `is_tautology`). */
  datatype Clause = Clause(lits: seq<Lit>, taut: bool)

  /** The empty, non-tautological clause: falsehood. */
  const EmptyClause := Clause([], false)

  /** What every clause built by `MakeClause` looks like: a tautology carries
      no literals; any other clause holds strictly sorted literals, no two of
      them complementary. */
  predicate WellFormed(c: Clause)
  {
    if c.taut then c.lits == [] else StrictlySorted(c.lits) && !HasComplementary(c.lits)
  }

  lemma LessIsStrictTotalOrder(a: Lit, b: Lit, c: Lit)
    ensures !Less(a, a)
    ensures Less(a, b) ==> !Less(b, a)
    ensures Less(a, b) && Less(b, c) ==> Less(a, c)
    ensures a != b ==> Less(a, b) || Less(b, a)
  {
  }

  /** The first loop of the constructor: keep the first occurrence of each
      literal, in input order; `seen` holds the literals already kept. */
  function DedupFrom(s: seq<Lit>, seen: set<Lit>): (r: seq<Lit>)
    ensures NoDups(r)
    ensures Elems(r) == Elems(s) - seen
    ensures |r| <= |s|
  {
    if s == [] then []
    else if s[0] in seen then DedupFrom(s[1..], seen)
    else
      var rest := DedupFrom(s[1..], seen + {s[0]});
      assert s[0] !in rest;
      [s[0]] + rest
  }

  /** Polarities recorded so far for one variable (`literali_map[v]`). */
  datatype Seen = Seen(pos: bool, neg: bool)

  /** Literal `l` has the polarity opposite to one already recorded in `m`. */
  predicate Clashes(l: Lit, m: map<nat, Seen>)
  {
    l.v in m && (if l.neg then m[l.v].pos else m[l.v].neg)
  }

  /** The second loop of the constructor: record each literal's polarity and
      stop with `true` as soon as a variable has both. */
  function ScanPolarity(u: seq<Lit>, m: map<nat, Seen>): (taut: bool)
    requires forall k :: k in m ==> !(m[k].pos && m[k].neg)
    ensures taut <==> (exists l :: l in u && Clashes(l, m)) || HasComplementary(u)
  {
    if u == [] then false
    else
      var l := u[0];
      var e := if l.v in m then m[l.v] else Seen(false, false);
      var e' := if l.neg then e.(neg := true) else e.(pos := true);
      if e'.pos && e'.neg then
        assert Clashes(l, m);
        true
      else
        var m' := m[l.v := e'];
        var r := ScanPolarity(u[1..], m');
        assert r <==> (exists x :: x in u && Clashes(x, m)) || HasComplementary(u) by {
          forall x | x in u[1..]
            ensures Clashes(x, m') <==> Clashes(x, m) || Complementary(x, l)
          {
          }
          assert !Clashes(l, m);
          assert forall x :: x in u <==> x == l || x in u[1..];
          if HasComplementary(u) && !HasComplementary(u[1..]) {
            var x, y :| x in u && y in u && Complementary(x, y);
            assert x == l || y == l;
          }
        }
        r
  }

  /** Insertion of a literal not yet present into a strictly sorted sequence. */
  function Insert(x: Lit, s: seq<Lit>): (r: seq<Lit>)
    requires StrictlySorted(s) && x !in s
    ensures StrictlySorted(r)
    ensures Elems(r) == Elems(s) + {x}
    ensures |r| == |s| + 1
  {
    if s == [] then [x]
    else if Less(x, s[0]) then
      LessChain(x, s);
      [x] + s
    else
      var rest := Insert(x, s[1..]);
      LessIsStrictTotalOrder(x, s[0], s[0]);
      assert forall y :: y in rest ==> Less(s[0], y) by {
        forall y | y in rest ensures Less(s[0], y) {
          if y != x {
            var i :| 1 <= i < |s| && s[i] == y;
          }
        }
      }
      [s[0]] + rest
  }

  lemma LessChain(x: Lit, s: seq<Lit>)
    requires StrictlySorted(s) && s != [] && Less(x, s[0])
    ensures forall i :: 0 <= i < |s| ==> Less(x, s[i])
  {
    forall i | 0 <= i < |s| ensures Less(x, s[i]) {
      LessIsStrictTotalOrder(x, s[0], s[i]);
    }
  }

  /** `sorted(...)` of the constructor, on literals without duplicates. */
  function SortLits(u: seq<Lit>): (r: seq<Lit>)
    requires NoDups(u)
    ensures StrictlySorted(r)
    ensures Elems(r) == Elems(u)
    ensures |r| == |u|
  {
    if u == [] then []
    else
      assert u[0] !in u[1..];
      Insert(u[0], SortLits(u[1..]))
  }

  /** The `Clauza` constructor: drop repeated literals, detect a tautology
      (and then keep no literals), otherwise sort the literals. */
  function MakeClause(s: seq<Lit>): (c: Clause)
    ensures WellFormed(c)
    ensures c.taut <==> HasComplementary(s)
    ensures !c.taut ==> Elems(c.lits) == Elems(s)
    ensures s == [] ==> c == EmptyClause
  {
    if s == [] then EmptyClause
    else
      var u := DedupFrom(s, {});
      assert forall x :: x in u <==> x in s;
      if ScanPolarity(u, map[]) then Clause([], true)
      else
        var sorted := SortLits(u);
        assert forall x :: x in sorted <==> x in s;
        Clause(sorted, false)
  }

  lemma {:induction false} SortedUnique(a: seq<Lit>, b: seq<Lit>)
    requires StrictlySorted(a) && StrictlySorted(b)
    requires Elems(a) == Elems(b)
    ensures a == b
    decreases |a|
  {
    assert a != [] ==> a[0] in b;
    assert b != [] ==> b[0] in a;
    if a != [] && b != [] {
      assert a[0] in Elems(b) && b[0] in Elems(a);
      var i :| 0 <= i < |b| && b[i] == a[0];
      var j :| 0 <= j < |a| && a[j] == b[0];
      if i != 0 {
        assert Less(b[0], a[0]);
        if j != 0 {
          LessIsStrictTotalOrder(a[0], b[0], b[0]);
        }
      }
      assert a[0] == b[0];
      assert Elems(a[1..]) == Elems(b[1..]) by {
        forall x ensures x in a[1..] <==> x in b[1..] {
          if x in a[1..] {
            var k :| 1 <= k < |a| && a[k] == x;
            assert x != a[0];
            assert x in b;
          }
          if x in b[1..] {
            var k :| 1 <= k < |b| && b[k] == x;
            assert x != b[0];
            assert x in a;
          }
        }
      }
      SortedUnique(a[1..], b[1..]);
      assert a == [a[0]] + a[1..];
      assert b == [b[0]] + b[1..];
    }
  }

  /** The constructor depends only on the set of input literals: input order
      and repeated literals make no difference. */
  lemma MakeClauseBySet(s: seq<Lit>, t: seq<Lit>)
    requires Elems(s) == Elems(t)
    ensures MakeClause(s) == MakeClause(t)
  {
    if s != [] && t != [] {
      assert HasComplementary(s) <==> HasComplementary(t) by {
        assert forall x :: x in s <==> x in t;
      }
      var cs, ct := MakeClause(s), MakeClause(t);
      if !cs.taut {
        SortedUnique(cs.lits, ct.lits);
      }
    }
  }

  /** A well-formed non-tautological clause is its own canonical form. */
  lemma MakeClauseCanonical(c: Clause)
    requires WellFormed(c) && !c.taut
    ensures MakeClause(c.lits) == c
  {
    SortedUnique(MakeClause(c.lits).lits, c.lits);
  }

  /** `Clauza.__eq__`: all tautologies are equal, a tautology never equals a
      non-tautology, otherwise compare the sorted literals. */
  predicate SameClause(a: Clause, b: Clause)
  {
    if a.taut && b.taut then true
    else if a.taut != b.taut then false
    else a.lits == b.lits
  }

  /** On constructed clauses `__eq__` is plain value equality, so a Dafny
      `set<Clause>` deduplicates exactly as the source's hash set does. */
  lemma SameClauseIsEquality(a: Clause, b: Clause)
    requires WellFormed(a) && WellFormed(b)
    ensures SameClause(a, b) <==> a == b
  {
  }

  /** Clauses built from the same literals in any order, with any repetition,
      are equal under `__eq__`. */
  lemma SameClauseIgnoresOrder(s: seq<Lit>, t: seq<Lit>)
    requires Elems(s) == Elems(t)
    ensures SameClause(MakeClause(s), MakeClause(t))
  {
    MakeClauseBySet(s, t);
  }

  /** `get_canonical_representation_for_sorting`. The source gives a
      tautology the key (2, infinity); (2, 0) orders every key that occurs
      in the same way, since all tautologies share it. */
  function SortKey(c: Clause): (nat, nat)
  {
    if c.taut then (2, 0)
    else if c.lits == [] then (0, 0)
    else (1, |c.lits|)
  }

  /** Python's tuple comparison, `<=`, on sort keys. */
  predicate KeyLe(x: (nat, nat), y: (nat, nat))
  {
    x.0 < y.0 || (x.0 == y.0 && x.1 <= y.1)
  }

  /** The sort key puts the empty clause first, tautologies last, and the
      other clauses by their number of literals. */
  lemma SortKeyOrder(a: Clause, b: Clause)
    ensures a == EmptyClause ==> KeyLe(SortKey(a), SortKey(b))
    ensures b.taut ==> KeyLe(SortKey(a), SortKey(b))
    ensures !a.taut && !b.taut && a.lits != [] && b.lits != [] ==>
              (KeyLe(SortKey(a), SortKey(b)) <==> |a.lits| <= |b.lits|)
    ensures !a.taut && b != EmptyClause && KeyLe(SortKey(b), SortKey(a)) ==> b.lits != [] && !b.taut && a.lits != []
  {
  }

  /** A truth assignment to variables. */
  type Valuation = nat -> bool

  ghost predicate Holds(a: Valuation, l: Lit)
  {
    a(l.v) != l.neg
  }

  /** A tautology holds under every assignment; any other clause holds when
      one of its literals does. */
  ghost predicate Satisfies(a: Valuation, c: Clause)
  {
    c.taut || exists l :: l in c.lits && Holds(a, l)
  }

  /** Construction keeps the meaning of the disjunction of its input. */
  lemma MakeClauseMeaning(s: seq<Lit>, a: Valuation)
    ensures Satisfies(a, MakeClause(s)) <==> exists l :: l in s && Holds(a, l)
  {
    var c := MakeClause(s);
    if c.taut {
      var x, y :| x in s && y in s && Complementary(x, y);
      assert Holds(a, x) || Holds(a, y);
    } else {
      assert forall l :: l in c.lits <==> l in s;
      if exists l :: l in s && Holds(a, l) {
        var l :| l in s && Holds(a, l);
        assert l in c.lits;
      }
    }
  }
}
