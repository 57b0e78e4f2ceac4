/**
  Polynomials over real coefficients: a polynomial is a list of terms, a term
  is a coefficient times a list of symbol powers.  A raw polynomial may repeat
  a symbol inside a term, repeat a monomial across terms, carry zero
  coefficients and zero degrees; nothing here canonicalises.

  `Poly` is the mutable polynomial: `Substitute` rewrites its terms in place
  with the nested loop of the source, and is proved against the function
  `SubstituteTerms`.  The lemmas below state what substitution means: the
  shape is kept, matching degrees become zero, the coefficient picks up the
  substituted value raised to the summed matching degree, the operation is
  idempotent, it is the identity exactly when no matching degree is positive,
  and the value of the result at any point is the value of the original at
  that point with the symbol fixed.
*/
module Polynomial {

  /** `sym` raised to `deg`. */
  datatype PolyVar = PolyVar(sym: string, deg: nat)

  /** `coeff` times the product of `vars`. */
  datatype PolyTerm = PolyTerm(coeff: real, vars: seq<PolyVar>)

  /**
    Real multiplication under a name of its own.  The products that the
    recursive definitions below build are then compared by their factors
    before any arithmetic is done on them, which keeps the proofs cheap; the
    few arithmetic laws needed are the lemmas that follow.
  */
  function Mul(a: real, b: real): real
  {
    a * b
  }

  lemma MulLaws(a: real, b: real, c: real)
    ensures Mul(a, 1.0) == a && Mul(1.0, a) == a
    ensures Mul(a, b) == Mul(b, a)
    ensures Mul(a, Mul(b, c)) == Mul(Mul(a, b), c)
  {
  }

  /** `v` raised to the non-negative integer power `n` (`f64::powi`). */
  function Pow(v: real, n: nat): real
  {
    if n == 0 then 1.0 else Mul(v, Pow(v, n - 1))
  }

  lemma {:induction false} PowAdd(v: real, a: nat, b: nat)
    ensures Pow(v, a + b) == Mul(Pow(v, a), Pow(v, b))
  {
    if a == 0 {
      MulLaws(Pow(v, b), 1.0, 1.0);
    } else {
      PowAdd(v, a - 1, b);
      MulLaws(v, Pow(v, a - 1), Pow(v, b));
      assert Pow(v, a + b) == Mul(v, Pow(v, (a - 1) + b));
    }
  }

  // ---------------------------------------------------------------------------
  // Substitution, as a function of the old terms
  // ---------------------------------------------------------------------------

  /** The sum of the degrees of every occurrence of `sym` in `vars`. */
  function SymbolDegree(vars: seq<PolyVar>, sym: string): nat
  {
    if |vars| == 0 then 0
    else
      var last := vars[|vars| - 1];
      SymbolDegree(vars[..|vars| - 1], sym) + (if last.sym == sym then last.deg else 0)
  }

  /** `v` with its degree zeroed when its symbol is `sym`. */
  function EliminateVar(v: PolyVar, sym: string): PolyVar
  {
    if v.sym == sym then v.(deg := 0) else v
  }

  function EliminateVars(vars: seq<PolyVar>, sym: string): seq<PolyVar>
  {
    seq(|vars|, k requires 0 <= k < |vars| => EliminateVar(vars[k], sym))
  }

  function SubstituteTerm(t: PolyTerm, sym: string, val: real): PolyTerm
  {
    PolyTerm(Mul(t.coeff, Pow(val, SymbolDegree(t.vars, sym))), EliminateVars(t.vars, sym))
  }

  /** The terms after every occurrence of `sym` is replaced by `val`. */
  function SubstituteTerms(terms: seq<PolyTerm>, sym: string, val: real): seq<PolyTerm>
  {
    seq(|terms|, i requires 0 <= i < |terms| => SubstituteTerm(terms[i], sym, val))
  }

  // ---------------------------------------------------------------------------
  // The mutable polynomial
  // ---------------------------------------------------------------------------

  class Poly {
    var terms: seq<PolyTerm>

    constructor (terms: seq<PolyTerm>)
      ensures this.terms == terms
    {
      this.terms := terms;
    }

    /** Canonicalisation is not written yet: the method changes nothing. */
    method Simplify()
      modifies this
      ensures terms == old(terms)
    {
    }

    /**
      Replaces `sym` by `val` everywhere: for each matching variable of each
      term, the term's coefficient is multiplied by `val` to that variable's
      degree and the degree is set to 0, one variable at a time.
    */
    method Substitute(sym: string, val: real)
      modifies this
      ensures terms == SubstituteTerms(old(terms), sym, val)
    {
      var i := 0;
      while i < |terms|
        invariant 0 <= i <= |terms| == |old(terms)|
        invariant forall k :: 0 <= k < i ==> terms[k] == SubstituteTerm(old(terms)[k], sym, val)
        invariant forall k :: i <= k < |terms| ==> terms[k] == old(terms)[k]
      {
        SubstituteInTerm(i, sym, val);
        i := i + 1;
      }
    }

    /** The inner loop of `Substitute`: the variables of the term at index `i`. */
    method SubstituteInTerm(i: nat, sym: string, val: real)
      requires i < |terms|
      modifies this
      ensures terms == old(terms)[i := SubstituteTerm(old(terms)[i], sym, val)]
    {
      ghost var t0 := terms[i];
      var j := 0;
      while j < |terms[i].vars|
        invariant |terms| == |old(terms)|
        invariant forall k :: 0 <= k < |terms| && k != i ==> terms[k] == old(terms)[k]
        invariant |terms[i].vars| == |t0.vars| && 0 <= j <= |t0.vars|
        invariant forall k :: 0 <= k < j ==> terms[i].vars[k] == EliminateVar(t0.vars[k], sym)
        invariant forall k :: j <= k < |t0.vars| ==> terms[i].vars[k] == t0.vars[k]
        invariant terms[i].coeff == PartialCoefficient(t0, sym, val, j)
      {
        var term := terms[i];
        if term.vars[j].sym == sym {
          CoefficientStep(t0, sym, val, j);
          term := term.(coeff := term.coeff * Pow(val, term.vars[j].deg));
          term := term.(vars := term.vars[j := term.vars[j].(deg := 0)]);
          terms := terms[i := term];
        } else {
          CoefficientStep(t0, sym, val, j);
        }
        j := j + 1;
      }
      assert t0.vars[..j] == t0.vars;
      assert terms[i].coeff == SubstituteTerm(t0, sym, val).coeff;
      assert terms[i].vars == EliminateVars(t0.vars, sym);
      assert terms[i] == SubstituteTerm(t0, sym, val);
      assert forall k :: 0 <= k < |terms| ==> terms[k] == old(terms)[i := SubstituteTerm(t0, sym, val)][k];
    }
  }

  /** The coefficient of `t` once its first `j` variables have been substituted. */
  function PartialCoefficient(t: PolyTerm, sym: string, val: real, j: nat): real
    requires j <= |t.vars|
  {
    Mul(t.coeff, Pow(val, SymbolDegree(t.vars[..j], sym)))
  }

  /** One step of the inner loop of `Poly.Substitute`, on the coefficient. */
  lemma CoefficientStep(t: PolyTerm, sym: string, val: real, j: nat)
    requires j < |t.vars|
    ensures PartialCoefficient(t, sym, val, j + 1)
            == if t.vars[j].sym == sym
               then Mul(PartialCoefficient(t, sym, val, j), Pow(val, t.vars[j].deg))
               else PartialCoefficient(t, sym, val, j)
  {
    assert t.vars[..j + 1][..j] == t.vars[..j];
    var d := SymbolDegree(t.vars[..j], sym);
    if t.vars[j].sym == sym {
      PowAdd(val, d, t.vars[j].deg);
      MulLaws(t.coeff, Pow(val, d), Pow(val, t.vars[j].deg));
    }
  }

  // ---------------------------------------------------------------------------
  // What substitution does to the structure
  // ---------------------------------------------------------------------------

  /** Substitution keeps the number of terms and each term's number of variables. */
  lemma SubstituteLengths(terms: seq<PolyTerm>, sym: string, val: real)
    ensures |SubstituteTerms(terms, sym, val)| == |terms|
    ensures forall i :: 0 <= i < |terms| ==> |SubstituteTerms(terms, sym, val)[i].vars| == |terms[i].vars|
  {
  }

  /**
    Substitution keeps the variables' order and their symbols; a matching
    variable's degree becomes 0 and every other degree is kept.
  */
  lemma SubstituteShape(terms: seq<PolyTerm>, sym: string, val: real, i: nat, j: nat)
    requires i < |terms| && j < |terms[i].vars|
    ensures |SubstituteTerms(terms, sym, val)| == |terms|
    ensures |SubstituteTerms(terms, sym, val)[i].vars| == |terms[i].vars|
    ensures SubstituteTerms(terms, sym, val)[i].vars[j].sym == terms[i].vars[j].sym
    ensures SubstituteTerms(terms, sym, val)[i].vars[j].deg
            == if terms[i].vars[j].sym == sym then 0 else terms[i].vars[j].deg
  {
  }

  lemma {:induction false} SymbolDegreeAppend(a: seq<PolyVar>, b: seq<PolyVar>, sym: string)
    ensures SymbolDegree(a + b, sym) == SymbolDegree(a, sym) + SymbolDegree(b, sym)
  {
    if |b| > 0 {
      SymbolDegreeAppend(a, b[..|b| - 1], sym);
      assert (a + b)[..|a + b| - 1] == a + b[..|b| - 1];
    } else {
      assert a + b == a;
    }
  }

  /**
    A term's coefficient picks up `val` raised to the SUM of the degrees of
    all occurrences of `sym` in it: substituting into the term `vars`
    split as `a + b` multiplies by `val^deg(a)` and by `val^deg(b)`.
  */
  lemma {:induction false} SubstituteCoefficient(t: PolyTerm, sym: string, val: real, k: nat)
    requires k <= |t.vars|
    ensures SubstituteTerm(t, sym, val).coeff
            == Mul(Mul(t.coeff, Pow(val, SymbolDegree(t.vars[..k], sym))), Pow(val, SymbolDegree(t.vars[k..], sym)))
  {
    assert t.vars == t.vars[..k] + t.vars[k..];
    SymbolDegreeAppend(t.vars[..k], t.vars[k..], sym);
    PowAdd(val, SymbolDegree(t.vars[..k], sym), SymbolDegree(t.vars[k..], sym));
    MulLaws(t.coeff, Pow(val, SymbolDegree(t.vars[..k], sym)), Pow(val, SymbolDegree(t.vars[k..], sym)));
  }

  /** The summed degree of `sym` is zero exactly when every occurrence has degree zero. */
  lemma {:induction false} SymbolDegreeZero(vars: seq<PolyVar>, sym: string)
    ensures SymbolDegree(vars, sym) == 0
            <==> forall k :: 0 <= k < |vars| && vars[k].sym == sym ==> vars[k].deg == 0
  {
    if |vars| > 0 {
      var init := vars[..|vars| - 1];
      SymbolDegreeZero(init, sym);
      assert forall k :: 0 <= k < |init| ==> init[k] == vars[k];
    }
  }

  /** Substituting a symbol twice gives the same terms as substituting it once. */
  lemma {:induction false} SubstituteIdempotent(terms: seq<PolyTerm>, sym: string, val: real, val': real)
    ensures SubstituteTerms(SubstituteTerms(terms, sym, val), sym, val') == SubstituteTerms(terms, sym, val)
  {
    var once := SubstituteTerms(terms, sym, val);
    forall i | 0 <= i < |terms|
      ensures SubstituteTerm(once[i], sym, val') == once[i]
    {
      SymbolDegreeZero(once[i].vars, sym);
      assert EliminateVars(once[i].vars, sym) == once[i].vars;
    }
  }

  /**
    Substitution leaves the terms unchanged exactly when every occurrence of
    the symbol already has degree zero; in particular, substituting a symbol
    that occurs in no term changes nothing.
  */
  lemma {:induction false} SubstituteUnchanged(terms: seq<PolyTerm>, sym: string, val: real)
    ensures SubstituteTerms(terms, sym, val) == terms
            <==> forall i, k :: 0 <= i < |terms| && 0 <= k < |terms[i].vars| && terms[i].vars[k].sym == sym
                   ==> terms[i].vars[k].deg == 0
  {
    var r := SubstituteTerms(terms, sym, val);
    if forall i, k :: 0 <= i < |terms| && 0 <= k < |terms[i].vars| && terms[i].vars[k].sym == sym
         ==> terms[i].vars[k].deg == 0
    {
      forall i | 0 <= i < |terms|
        ensures r[i] == terms[i]
      {
        SymbolDegreeZero(terms[i].vars, sym);
        assert EliminateVars(terms[i].vars, sym) == terms[i].vars;
      }
    }
    if r == terms {
      forall i, k | 0 <= i < |terms| && 0 <= k < |terms[i].vars| && terms[i].vars[k].sym == sym
        ensures terms[i].vars[k].deg == 0
      {
        assert r[i].vars[k] == terms[i].vars[k];
      }
    }
  }

  // ---------------------------------------------------------------------------
  // What substitution means: the value of a polynomial at a point
  // ---------------------------------------------------------------------------

  /** The value of the product `vars` when each symbol `s` stands for `env(s)`. */
  ghost function VarsValue(vars: seq<PolyVar>, env: string -> real): real
  {
    if |vars| == 0 then 1.0
    else
      var last := vars[|vars| - 1];
      Mul(VarsValue(vars[..|vars| - 1], env), Pow(env(last.sym), last.deg))
  }

  ghost function TermValue(t: PolyTerm, env: string -> real): real
  {
    Mul(t.coeff, VarsValue(t.vars, env))
  }

  /** The value of the sum of `terms`. */
  ghost function PolyValue(terms: seq<PolyTerm>, env: string -> real): real
  {
    if |terms| == 0 then 0.0
    else PolyValue(terms[..|terms| - 1], env) + TermValue(terms[|terms| - 1], env)
  }

  /** `env'` is `env` with `sym` fixed to `val`. */
  ghost predicate Fixes(env': string -> real, env: string -> real, sym: string, val: real)
  {
    env'(sym) == val && forall x :: x != sym ==> env'(x) == env(x)
  }

  lemma EliminatePrefix(vars: seq<PolyVar>, sym: string, n: nat)
    requires n <= |vars|
    ensures EliminateVars(vars, sym)[..n] == EliminateVars(vars[..n], sym)
  {
  }

  /** The inductive step of `VarsValueSubstitute`. */
  lemma VarsValueSubstituteStep(vars: seq<PolyVar>, env: string -> real, env': string -> real, sym: string, val: real)
    requires Fixes(env', env, sym, val) && |vars| > 0
    requires Mul(VarsValue(EliminateVars(vars[..|vars| - 1], sym), env), Pow(val, SymbolDegree(vars[..|vars| - 1], sym)))
             == VarsValue(vars[..|vars| - 1], env')
    ensures Mul(VarsValue(EliminateVars(vars, sym), env), Pow(val, SymbolDegree(vars, sym))) == VarsValue(vars, env')
  {
    var n := |vars| - 1;
    var init, last := vars[..n], vars[n];
    var e := EliminateVars(vars, sym);
    EliminatePrefix(vars, sym, n);
    var a := VarsValue(EliminateVars(init, sym), env);
    var p := Pow(val, SymbolDegree(init, sym));
    var b := VarsValue(init, env');
    if last.sym == sym {
      var q := Pow(val, last.deg);
      MulLaws(a, 1.0, 1.0);
      assert VarsValue(e, env) == a;
      PowAdd(val, SymbolDegree(init, sym), last.deg);
      MulLaws(a, p, q);
    } else {
      var q := Pow(env(last.sym), last.deg);
      assert VarsValue(e, env) == Mul(a, q);
      MulLaws(a, q, p);
      MulLaws(a, p, q);
      MulLaws(q, p, 1.0);
    }
  }

  lemma {:induction false} VarsValueSubstitute(vars: seq<PolyVar>, env: string -> real, env': string -> real, sym: string, val: real)
    requires Fixes(env', env, sym, val)
    ensures Mul(VarsValue(EliminateVars(vars, sym), env), Pow(val, SymbolDegree(vars, sym))) == VarsValue(vars, env')
  {
    if |vars| == 0 {
      assert |EliminateVars(vars, sym)| == 0;
      MulLaws(1.0, 1.0, 1.0);
    } else {
      VarsValueSubstitute(vars[..|vars| - 1], env, env', sym, val);
      VarsValueSubstituteStep(vars, env, env', sym, val);
    }
  }

  /**
    At every point, the substituted terms take the value the original terms
    take once `sym` is fixed to `val`.
  */
  lemma {:induction false} SubstituteValue(terms: seq<PolyTerm>, env: string -> real, env': string -> real, sym: string, val: real)
    requires Fixes(env', env, sym, val)
    ensures PolyValue(SubstituteTerms(terms, sym, val), env) == PolyValue(terms, env')
  {
    var r := SubstituteTerms(terms, sym, val);
    if |terms| == 0 {
      assert |r| == 0;
    } else {
      var n := |terms| - 1;
      assert r[..n] == SubstituteTerms(terms[..n], sym, val);
      SubstituteValue(terms[..n], env, env', sym, val);
      var t := terms[n];
      VarsValueSubstitute(t.vars, env, env', sym, val);
      var c, p := t.coeff, Pow(val, SymbolDegree(t.vars, sym));
      var v := VarsValue(EliminateVars(t.vars, sym), env);
      MulLaws(c, p, v);
      MulLaws(v, p, 1.0);
      assert TermValue(r[n], env) == Mul(Mul(c, p), v);
    }
  }
}
