/**
 * Ground logical rules and the dissatisfaction potential built from them.
 *
 * A ground logical rule is a clause given in negated disjunctive normal form: a list of
 * positive literals and a list of negative literals (ground atoms). Its dissatisfaction
 * is the linear function
 *     sum of v(p) over positive p  -  sum of v(n) over negative n  +  1 - |pos|
 * clamped at zero (a hinge) when the clause has more than one literal.
 */
module GroundLogicalRules {
  import opened Wrappers

  /** Index of a ground atom in the atom store. */
  type Atom = nat

  /** Identity of the (non-ground) logical rule that a ground rule instantiates. */
  type RuleId = nat

  /** An assignment of truth values to atoms. */
  type Valuation = Atom -> real

  // ---------------------------------------------------------------------------
  // Potential functions

  /**
   * A linear potential sum(coefficients[i] * v(atoms[i])) + constant, clamped at zero
   * when nonNegative holds and squared when squared holds. maxSize is the capacity the
   * function was created with.
   */
  datatype GeneralFunction = GeneralFunction(
    nonNegative: bool,
    squared: bool,
    maxSize: nat,
    coefficients: seq<int>,
    atoms: seq<Atom>,
    constant: int)
  {
    ghost predicate Valid() {
      |coefficients| == |atoms|
    }
  }

  /** Adds the term coefficient * atom (GeneralFunction.add(float, atom)). */
  function AddTerm(f: GeneralFunction, coefficient: int, atom: Atom): GeneralFunction {
    f.(coefficients := f.coefficients + [coefficient], atoms := f.atoms + [atom])
  }

  /** Adds a constant; constants are merged into one (GeneralFunction.add(float)). */
  function AddConstant(f: GeneralFunction, c: int): GeneralFunction {
    f.(constant := f.constant + c)
  }

  function Repeat(c: int, n: nat): (r: seq<int>)
    ensures |r| == n
  {
    seq(n, _ => c)
  }

  function LinearSum(coefficients: seq<int>, atoms: seq<Atom>, v: Valuation): real
    requires |coefficients| == |atoms|
    decreases |atoms|
  {
    if atoms == [] then 0.0
    else coefficients[0] as real * v(atoms[0]) + LinearSum(coefficients[1..], atoms[1..], v)
  }

  /** The value of a potential under a valuation: hinge, then square. */
  function Evaluate(f: GeneralFunction, v: Valuation): real
    requires f.Valid()
  {
    var raw := LinearSum(f.coefficients, f.atoms, v) + f.constant as real;
    var hinged := if f.nonNegative && raw < 0.0 then 0.0 else raw;
    if f.squared then hinged * hinged else hinged
  }

  /**
   * f is the dissatisfaction function of the clause (pos, neg): hinged exactly when there is
   * more than one literal, never squared, one slot per literal, coefficient +1 for every
   * positive literal in order followed by -1 for every negative literal in order, and the
   * constant 1 - |pos|.
   */
  ghost predicate BuiltFrom(f: GeneralFunction, pos: seq<Atom>, neg: seq<Atom>) {
    && f.nonNegative == (|pos| + |neg| > 1)
    && !f.squared
    && f.maxSize == |pos| + |neg|
    && f.atoms == pos + neg
    && f.coefficients == Repeat(1, |pos|) + Repeat(-1, |neg|)
    && f.constant == 1 - |pos|
  }

  /** Builds the dissatisfaction function of the clause, literal by literal. */
  method GetFunction(pos: seq<Atom>, neg: seq<Atom>) returns (f: GeneralFunction)
    ensures f.Valid() && BuiltFrom(f, pos, neg)
  {
    var nonNegative := |pos| + |neg| > 1;
    f := GeneralFunction(nonNegative, false, |pos| + |neg|, [], [], 0);
    var i := 0;
    while i < |pos|
      invariant 0 <= i <= |pos|
      invariant f == GeneralFunction(nonNegative, false, |pos| + |neg|, Repeat(1, i), pos[..i], 0)
    {
      f := AddTerm(f, 1, pos[i]);
      assert pos[..i + 1] == pos[..i] + [pos[i]];
      assert Repeat(1, i) + [1] == Repeat(1, i + 1);
      i := i + 1;
    }
    assert pos[..|pos|] == pos;
    var j := 0;
    while j < |neg|
      invariant 0 <= j <= |neg|
      invariant f == GeneralFunction(nonNegative, false, |pos| + |neg|,
                                     Repeat(1, |pos|) + Repeat(-1, j), pos + neg[..j], 0)
    {
      f := AddTerm(f, -1, neg[j]);
      assert neg[..j + 1] == neg[..j] + [neg[j]];
      assert Repeat(-1, j) + [-1] == Repeat(-1, j + 1);
      j := j + 1;
    }
    assert neg[..|neg|] == neg;
    f := AddConstant(f, 1 - |pos|);
  }

  // ---------------------------------------------------------------------------
  // Ground rules: construction, size, atoms, equality, hashing

  /** The two HashCode.build overloads: one seeds from the rule, one folds in an atom. */
  datatype Hashing = Hashing(ofRule: RuleId -> int, combine: (int, Atom) -> int)

  /** Left fold of combine over atoms, starting at seed. */
  function HashFold(combine: (int, Atom) -> int, seed: int, atoms: seq<Atom>): int
    decreases |atoms|
  {
    if atoms == [] then seed
    else combine(HashFold(combine, seed, atoms[..|atoms| - 1]), atoms[|atoms| - 1])
  }

  datatype GroundLogicalRule = GroundLogicalRule(
    rule: RuleId,
    pos: seq<Atom>,
    neg: seq<Atom>,
    dissatisfaction: GeneralFunction,
    hashcode: int)

  /** g is what the constructor builds from its rule and literal lists under hashing h. */
  ghost predicate WellBuilt(g: GroundLogicalRule, h: Hashing) {
    && g.dissatisfaction.Valid()
    && BuiltFrom(g.dissatisfaction, g.pos, g.neg)
    && g.hashcode == HashFold(h.combine, h.ofRule(g.rule), g.pos + g.neg)
  }

  /** The constructor: copies the lists, builds the dissatisfaction and folds the hash code. */
  method NewGroundLogicalRule(rule: RuleId, pos: seq<Atom>, neg: seq<Atom>, h: Hashing)
    returns (g: GroundLogicalRule)
    ensures g.rule == rule && g.pos == pos && g.neg == neg
    ensures WellBuilt(g, h)
  {
    var dissatisfaction := GetFunction(pos, neg);
    var hash := h.ofRule(rule);
    var i := 0;
    while i < |pos|
      invariant 0 <= i <= |pos|
      invariant hash == HashFold(h.combine, h.ofRule(rule), pos[..i])
    {
      assert pos[..i + 1][..i] == pos[..i];
      hash := h.combine(hash, pos[i]);
      i := i + 1;
    }
    assert pos[..|pos|] == pos + neg[..0];
    var j := 0;
    while j < |neg|
      invariant 0 <= j <= |neg|
      invariant hash == HashFold(h.combine, h.ofRule(rule), pos + neg[..j])
    {
      assert (pos + neg[..j + 1])[..|pos| + j] == pos + neg[..j];
      hash := h.combine(hash, neg[j]);
      j := j + 1;
    }
    assert neg[..|neg|] == neg;
    g := GroundLogicalRule(rule, pos, neg, dissatisfaction, hash);
  }

  /** Number of literals: one per entry of the rendered clause. */
  function Size(g: GroundLogicalRule): (n: nat)
    ensures n == |ClauseLiterals(g.pos, g.neg)|
  {
    |g.pos| + |g.neg|
  }

  lemma SizeIsArity(g: GroundLogicalRule, h: Hashing)
    requires WellBuilt(g, h)
    ensures Size(g) == |g.dissatisfaction.atoms| == |g.dissatisfaction.coefficients|
    ensures Size(g) == g.dissatisfaction.maxSize
  {
  }

  /** The set of elements of a sequence. */
  function Elements(s: seq<Atom>): set<Atom> {
    set i | 0 <= i < |s| :: s[i]
  }

  /** Collects the distinct atoms of both literal lists. */
  method GetAtoms(g: GroundLogicalRule) returns (atoms: set<Atom>)
    ensures forall a :: a in atoms <==> a in g.pos || a in g.neg
    ensures atoms == Elements(g.pos) + Elements(g.neg)
  {
    atoms := {};
    var i := 0;
    while i < |g.pos|
      invariant 0 <= i <= |g.pos|
      invariant atoms == Elements(g.pos[..i])
    {
      assert Elements(g.pos[..i + 1]) == Elements(g.pos[..i]) + {g.pos[i]} by {
        assert g.pos[..i + 1] == g.pos[..i] + [g.pos[i]];
      }
      atoms := atoms + {g.pos[i]};
      i := i + 1;
    }
    assert g.pos[..|g.pos|] == g.pos;
    var j := 0;
    while j < |g.neg|
      invariant 0 <= j <= |g.neg|
      invariant atoms == Elements(g.pos) + Elements(g.neg[..j])
    {
      assert Elements(g.neg[..j + 1]) == Elements(g.neg[..j]) + {g.neg[j]} by {
        assert g.neg[..j + 1] == g.neg[..j] + [g.neg[j]];
      }
      atoms := atoms + {g.neg[j]};
      j := j + 1;
    }
    assert g.neg[..|g.neg|] == g.neg;
  }

  /** A sequence has at most as many distinct elements as it has entries. */
  lemma {:induction false} ElementsBound(s: seq<Atom>)
    ensures |Elements(s)| <= |s|
  {
    if s != [] {
      ElementsBound(s[..|s| - 1]);
      assert Elements(s) == Elements(s[..|s| - 1]) + {s[|s| - 1]};
    }
  }

  /** getAtoms never reports more atoms than size() counts literals. */
  lemma AtomsBoundedBySize(g: GroundLogicalRule)
    ensures |Elements(g.pos) + Elements(g.neg)| <= Size(g)
  {
    ElementsBound(g.pos);
    ElementsBound(g.neg);
  }

  /**
   * equals(other): true for the same object; false for null, for a non-rule and for a
   * different hash code; otherwise same source rule and equal ordered literal lists.
   * None stands for null or an object that is not a ground logical rule.
   */
  function Equals(g: GroundLogicalRule, other: Option<GroundLogicalRule>): (r: bool)
    ensures r ==> other.Some? && other.value.rule == g.rule && other.value.hashcode == g.hashcode
                  && other.value.pos == g.pos && other.value.neg == g.neg
    ensures other == Some(g) ==> r
  {
    match other
    case None => false
    case Some(o) =>
      if o == g then true
      else if g.hashcode != o.hashcode then false
      else g.rule == o.rule && g.pos == o.pos && g.neg == o.neg
  }

  /**
   * For rules built by the constructor, equals holds exactly when the source rules and the
   * ordered literal lists agree, and equal rules have equal hash codes.
   */
  lemma EqualsIffSameRuleAndLiterals(a: GroundLogicalRule, b: GroundLogicalRule, h: Hashing)
    requires WellBuilt(a, h) && WellBuilt(b, h)
    ensures Equals(a, Some(b)) <==> a.rule == b.rule && a.pos == b.pos && a.neg == b.neg
    ensures Equals(a, Some(b)) ==> a.hashcode == b.hashcode
    ensures Equals(a, Some(b)) == Equals(b, Some(a))
    ensures !Equals(a, None)
  {
  }

  // ---------------------------------------------------------------------------
  // Rendering (baseToString)

  /** The formula shapes baseToString produces. */
  datatype Formula =
    | Literal(atom: Atom)
    | Negation(negated: Atom)
    | Disjunction(literals: seq<Formula>)

  datatype RenderError = EmptyClause

  /** The clause re-negated: each positive literal negated, then each negative literal as is. */
  function ClauseLiterals(pos: seq<Atom>, neg: seq<Atom>): (r: seq<Formula>)
    ensures |r| == |pos| + |neg|
  {
    seq(|pos|, i requires 0 <= i < |pos| => Negation(pos[i]))
      + seq(|neg|, j requires 0 <= j < |neg| => Literal(neg[j]))
  }

  /** A disjunction of the literals, or the literal alone when there is just one. */
  function Rendering(pos: seq<Atom>, neg: seq<Atom>): Formula
    requires |pos| + |neg| >= 1
  {
    var literals := ClauseLiterals(pos, neg);
    if |literals| > 1 then Disjunction(literals) else literals[0]
  }

  /** Fills the literal array and renders it; an empty clause has no literals[0]. */
  method BaseToString(g: GroundLogicalRule) returns (r: Result<Formula, RenderError>)
    ensures Size(g) == 0 ==> r == Failure(EmptyClause)
    ensures Size(g) >= 1 ==> r == Success(Rendering(g.pos, g.neg))
  {
    var n := |g.pos| + |g.neg|;
    var literals := new Formula[n](_ => Literal(0));
    var i := 0;
    while i < |g.pos|
      invariant 0 <= i <= |g.pos|
      invariant literals[..i] == ClauseLiterals(g.pos, g.neg)[..i]
    {
      literals[i] := Negation(g.pos[i]);
      i := i + 1;
    }
    var j := 0;
    while j < |g.neg|
      invariant 0 <= j <= |g.neg|
      invariant i == |g.pos| + j
      invariant literals[..i] == ClauseLiterals(g.pos, g.neg)[..i]
    {
      literals[i] := Literal(g.neg[j]);
      i := i + 1;
      j := j + 1;
    }
    assert literals[..] == literals[..n];
    assert ClauseLiterals(g.pos, g.neg)[..n] == ClauseLiterals(g.pos, g.neg);
    if literals.Length > 1 {
      r := Success(Disjunction(literals[..]));
    } else if literals.Length == 1 {
      r := Success(literals[0]);
    } else {
      r := Failure(EmptyClause);
    }
  }

  /** The atoms under Negation, in order. */
  function NegatedAtoms(literals: seq<Formula>): seq<Atom>
    decreases |literals|
  {
    if literals == [] then []
    else
      var last := literals[|literals| - 1];
      NegatedAtoms(literals[..|literals| - 1]) + (if last.Negation? then [last.negated] else [])
  }

  /** The atoms appearing as plain literals, in order. */
  function PlainAtoms(literals: seq<Formula>): seq<Atom>
    decreases |literals|
  {
    if literals == [] then []
    else
      var last := literals[|literals| - 1];
      PlainAtoms(literals[..|literals| - 1]) + (if last.Literal? then [last.atom] else [])
  }

  /** Reads the clause (pos, neg) back from a rendered formula. */
  function Recover(f: Formula): (seq<Atom>, seq<Atom>) {
    match f
    case Literal(a) => ([], [a])
    case Negation(a) => ([a], [])
    case Disjunction(literals) => (NegatedAtoms(literals), PlainAtoms(literals))
  }

  lemma {:induction false} SplitPrefix(pos: seq<Atom>, neg: seq<Atom>, k: nat)
    requires k <= |pos| + |neg|
    ensures k <= |pos| ==> NegatedAtoms(ClauseLiterals(pos, neg)[..k]) == pos[..k]
    ensures k <= |pos| ==> PlainAtoms(ClauseLiterals(pos, neg)[..k]) == []
    ensures k >= |pos| ==> NegatedAtoms(ClauseLiterals(pos, neg)[..k]) == pos
    ensures k >= |pos| ==> PlainAtoms(ClauseLiterals(pos, neg)[..k]) == neg[..k - |pos|]
  {
    if k > 0 {
      var lits := ClauseLiterals(pos, neg);
      SplitPrefix(pos, neg, k - 1);
      assert lits[..k][..k - 1] == lits[..k - 1];
      if k <= |pos| {
        assert pos[..k] == pos[..k - 1] + [pos[k - 1]];
      } else {
        assert neg[..k - |pos|] == neg[..k - 1 - |pos|] + [neg[k - 1 - |pos|]];
        assert k - 1 == |pos| ==> pos[..k - 1] == pos;
      }
    }
  }

  /** Rendering loses nothing: the clause's literal lists can be read back from the formula. */
  lemma RenderingRoundTrip(pos: seq<Atom>, neg: seq<Atom>)
    requires |pos| + |neg| >= 1
    ensures Recover(Rendering(pos, neg)) == (pos, neg)
  {
    var lits := ClauseLiterals(pos, neg);
    if |lits| > 1 {
      SplitPrefix(pos, neg, |lits|);
      assert lits[..|lits|] == lits;
      assert pos[..|pos|] == pos && neg[..|neg|] == neg;
    } else if |pos| == 1 {
      assert pos == [pos[0]] && neg == [];
    } else {
      assert neg == [neg[0]] && pos == [];
    }
  }

  // ---------------------------------------------------------------------------
  // Meaning of the dissatisfaction function

  function SumValues(s: seq<Atom>, v: Valuation): real
    decreases |s|
  {
    if s == [] then 0.0 else v(s[0]) + SumValues(s[1..], v)
  }

  ghost predicate InUnitInterval(s: seq<Atom>, v: Valuation) {
    forall i :: 0 <= i < |s| ==> 0.0 <= v(s[i]) <= 1.0
  }

  ghost predicate IsBoolean(s: seq<Atom>, v: Valuation) {
    forall i :: 0 <= i < |s| ==> v(s[i]) == 0.0 || v(s[i]) == 1.0
  }

  /** The original clause is violated: every positive atom is true and every negative one false. */
  ghost predicate Violated(pos: seq<Atom>, neg: seq<Atom>, v: Valuation) {
    && (forall i :: 0 <= i < |pos| ==> v(pos[i]) == 1.0)
    && (forall j :: 0 <= j < |neg| ==> v(neg[j]) == 0.0)
  }

  lemma {:induction false} LinearSumAppend(c1: seq<int>, a1: seq<Atom>, c2: seq<int>, a2: seq<Atom>, v: Valuation)
    requires |c1| == |a1| && |c2| == |a2|
    ensures LinearSum(c1 + c2, a1 + a2, v) == LinearSum(c1, a1, v) + LinearSum(c2, a2, v)
    decreases |a1|
  {
    if a1 != [] {
      assert (c1 + c2)[1..] == c1[1..] + c2;
      assert (a1 + a2)[1..] == a1[1..] + a2;
      LinearSumAppend(c1[1..], a1[1..], c2, a2, v);
    } else {
      assert c1 + c2 == c2 && a1 + a2 == a2;
    }
  }

  lemma {:induction false} LinearSumUniform(c: int, s: seq<Atom>, v: Valuation)
    ensures LinearSum(Repeat(c, |s|), s, v) == c as real * SumValues(s, v)
    decreases |s|
  {
    if s != [] {
      assert Repeat(c, |s|)[1..] == Repeat(c, |s| - 1);
      LinearSumUniform(c, s[1..], v);
    }
  }

  /** Before the hinge, the potential is sum(pos) - sum(neg) + 1 - |pos|. */
  lemma RawValue(f: GeneralFunction, pos: seq<Atom>, neg: seq<Atom>, v: Valuation)
    requires BuiltFrom(f, pos, neg)
    ensures f.Valid()
    ensures LinearSum(f.coefficients, f.atoms, v) + f.constant as real
            == SumValues(pos, v) - SumValues(neg, v) + 1.0 - |pos| as real
  {
    LinearSumAppend(Repeat(1, |pos|), pos, Repeat(-1, |neg|), neg, v);
    LinearSumUniform(1, pos, v);
    LinearSumUniform(-1, neg, v);
  }

  lemma {:induction false} SumBounds(s: seq<Atom>, v: Valuation)
    requires InUnitInterval(s, v)
    ensures 0.0 <= SumValues(s, v) <= |s| as real
    decreases |s|
  {
    if s != [] {
      assert InUnitInterval(s[1..], v) by {
        forall i | 0 <= i < |s| - 1 ensures 0.0 <= v(s[1..][i]) <= 1.0 {
          assert s[1..][i] == s[i + 1];
        }
      }
      SumBounds(s[1..], v);
    }
  }

  lemma {:induction false} SumAllOnes(s: seq<Atom>, v: Valuation)
    requires forall i :: 0 <= i < |s| ==> v(s[i]) == 1.0
    ensures SumValues(s, v) == |s| as real
    decreases |s|
  {
    if s != [] {
      assert forall i :: 0 <= i < |s| - 1 ==> v(s[1..][i]) == 1.0 by {
        forall i | 0 <= i < |s| - 1 ensures v(s[1..][i]) == 1.0 {
          assert s[1..][i] == s[i + 1];
        }
      }
      SumAllOnes(s[1..], v);
    }
  }

  lemma {:induction false} SumAllZeros(s: seq<Atom>, v: Valuation)
    requires forall i :: 0 <= i < |s| ==> v(s[i]) == 0.0
    ensures SumValues(s, v) == 0.0
    decreases |s|
  {
    if s != [] {
      assert forall i :: 0 <= i < |s| - 1 ==> v(s[1..][i]) == 0.0 by {
        forall i | 0 <= i < |s| - 1 ensures v(s[1..][i]) == 0.0 {
          assert s[1..][i] == s[i + 1];
        }
      }
      SumAllZeros(s[1..], v);
    }
  }

  /** One false entry among values in [0,1] keeps the sum at least one below the length. */
  lemma {:induction false} SumWithZero(s: seq<Atom>, v: Valuation, k: nat)
    requires InUnitInterval(s, v)
    requires k < |s| && v(s[k]) == 0.0
    ensures SumValues(s, v) <= |s| as real - 1.0
    decreases |s|
  {
    assert InUnitInterval(s[1..], v) by {
      forall i | 0 <= i < |s| - 1 ensures 0.0 <= v(s[1..][i]) <= 1.0 {
        assert s[1..][i] == s[i + 1];
      }
    }
    if k == 0 {
      SumBounds(s[1..], v);
    } else {
      assert s[1..][k - 1] == s[k];
      SumWithZero(s[1..], v, k - 1);
    }
  }

  /** One true entry among values in [0,1] makes the sum at least one. */
  lemma {:induction false} SumWithOne(s: seq<Atom>, v: Valuation, k: nat)
    requires InUnitInterval(s, v)
    requires k < |s| && v(s[k]) == 1.0
    ensures SumValues(s, v) >= 1.0
    decreases |s|
  {
    assert InUnitInterval(s[1..], v) by {
      forall i | 0 <= i < |s| - 1 ensures 0.0 <= v(s[1..][i]) <= 1.0 {
        assert s[1..][i] == s[i + 1];
      }
    }
    if k == 0 {
      SumBounds(s[1..], v);
    } else {
      assert s[1..][k - 1] == s[k];
      SumWithOne(s[1..], v, k - 1);
    }
  }

  /** For truth values in [0,1] the dissatisfaction lies in [0,1]. */
  lemma DissatisfactionInUnitInterval(f: GeneralFunction, pos: seq<Atom>, neg: seq<Atom>, v: Valuation)
    requires BuiltFrom(f, pos, neg)
    requires InUnitInterval(pos, v) && InUnitInterval(neg, v)
    ensures f.Valid()
    ensures 0.0 <= Evaluate(f, v) <= 1.0
  {
    RawValue(f, pos, neg, v);
    SumBounds(pos, v);
    SumBounds(neg, v);
  }

  /**
   * On 0/1 truth values the dissatisfaction is 1 exactly when the original clause is
   * violated (every positive atom true, every negative atom false) and 0 otherwise.
   */
  lemma BooleanDissatisfaction(f: GeneralFunction, pos: seq<Atom>, neg: seq<Atom>, v: Valuation)
    requires BuiltFrom(f, pos, neg)
    requires IsBoolean(pos, v) && IsBoolean(neg, v)
    ensures f.Valid()
    ensures Evaluate(f, v) == if Violated(pos, neg, v) then 1.0 else 0.0
  {
    assert InUnitInterval(pos, v) && InUnitInterval(neg, v);
    RawValue(f, pos, neg, v);
    DissatisfactionInUnitInterval(f, pos, neg, v);
    SumBounds(pos, v);
    SumBounds(neg, v);
    if Violated(pos, neg, v) {
      SumAllOnes(pos, v);
      SumAllZeros(neg, v);
    } else if k :| 0 <= k < |pos| && v(pos[k]) != 1.0 {
      SumWithZero(pos, v, k);
    } else {
      var k :| 0 <= k < |neg| && v(neg[k]) != 0.0;
      SumWithOne(neg, v, k);
    }
  }
}
