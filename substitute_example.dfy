/**
  The repository's own example: the polynomial x^2 - 2x^3(yy)z^2 + 10y^2,
  written out, then with 2 substituted for x and written out again.
*/
module SubstituteExample {
  import opened Polynomial
  import opened Render

  function Example(): seq<PolyTerm>
  {
    [ PolyTerm(1.0, [PolyVar("x", 2)]),
      PolyTerm(-2.0, [PolyVar("x", 3), PolyVar("yy", 1), PolyVar("z", 2)]),
      PolyTerm(10.0, [PolyVar("y", 2)]) ]
  }

  /** The example after 2 is substituted for x. */
  function Substituted(): seq<PolyTerm>
  {
    [ PolyTerm(4.0, [PolyVar("x", 0)]),
      PolyTerm(-16.0, [PolyVar("x", 0), PolyVar("yy", 1), PolyVar("z", 2)]),
      PolyTerm(10.0, [PolyVar("y", 2)]) ]
  }

  /** Substituting 2 for x multiplies the coefficients by 4 and 8 and sets the degrees of x to 0. */
  lemma ExampleSubstitute()
    ensures SubstituteTerms(Example(), "x", 2.0) == Substituted()
  {
    var e, r := Example(), SubstituteTerms(Example(), "x", 2.0);
    assert "yy" != "x" && "z" != "x" && "y" != "x";
    assert SymbolDegree(e[0].vars, "x") == 2;
    assert e[1].vars[..2] == [PolyVar("x", 3), PolyVar("yy", 1)];
    assert e[1].vars[..2][..1] == [PolyVar("x", 3)];
    assert SymbolDegree(e[1].vars, "x") == 3;
    assert SymbolDegree(e[2].vars, "x") == 0;
    assert Pow(2.0, 2) == 4.0 && Pow(2.0, 3) == 8.0;
    assert r[0] == Substituted()[0];
    assert r[1] == Substituted()[1];
    assert r[2] == Substituted()[2];
  }

  /** How the example is written, given how its coefficients are written. */
  lemma ExampleText(coeffText: real -> string)
    requires coeffText(-2.0) == "-2" && coeffText(10.0) == "10"
    ensures PolyText(Example(), coeffText) == "x2 -2x3(yy)z2 +10y2"
  {
    var e := Example();
    TextOfThree(e, coeffText);
    VarTexts();
    ConcatMapOne(e[0].vars, VarText);
    ConcatMapThree(e[1].vars, VarText);
    ConcatMapOne(e[2].vars, VarText);
    assert TermText(e[0], coeffText) == "x2";
    assert TermText(e[1], coeffText) == "-2" + ("x3" + "(yy)" + "z2");
    assert TermText(e[2], coeffText) == "10" + "y2";
    assert PolyText(e, coeffText) == "x2" + " " + "" + ("-2" + ("x3" + "(yy)" + "z2")) + (" " + "+" + ("10" + "y2"));
    ExampleLiteral();
  }

  lemma ExampleLiteral()
    ensures "x2" + " " + "" + ("-2" + ("x3" + "(yy)" + "z2")) + (" " + "+" + ("10" + "y2")) == "x2 -2x3(yy)z2 +10y2"
  {
  }

  /** How the example is written after 2 is substituted for x. */
  lemma SubstitutedText(coeffText: real -> string)
    requires coeffText(4.0) == "4" && coeffText(-16.0) == "-16" && coeffText(10.0) == "10"
    ensures PolyText(Substituted(), coeffText) == "4x0 -16x0(yy)z2 +10y2"
  {
    var e := Substituted();
    TextOfThree(e, coeffText);
    VarTexts();
    ConcatMapOne(e[0].vars, VarText);
    ConcatMapThree(e[1].vars, VarText);
    ConcatMapOne(e[2].vars, VarText);
    assert TermText(e[0], coeffText) == "4" + "x0";
    assert TermText(e[1], coeffText) == "-16" + ("x0" + "(yy)" + "z2");
    assert TermText(e[2], coeffText) == "10" + "y2";
    assert PolyText(e, coeffText) == "4" + "x0" + " " + "" + ("-16" + ("x0" + "(yy)" + "z2")) + (" " + "+" + ("10" + "y2"));
    SubstitutedLiteral();
  }

  lemma SubstitutedLiteral()
    ensures "4" + "x0" + " " + "" + ("-16" + ("x0" + "(yy)" + "z2")) + (" " + "+" + ("10" + "y2")) == "4x0 -16x0(yy)z2 +10y2"
  {
  }

  lemma VarTexts()
    ensures VarText(PolyVar("x", 0)) == "x0"
    ensures VarText(PolyVar("x", 2)) == "x2"
    ensures VarText(PolyVar("x", 3)) == "x3"
    ensures VarText(PolyVar("yy", 1)) == "(yy)"
    ensures VarText(PolyVar("z", 2)) == "z2"
    ensures VarText(PolyVar("y", 2)) == "y2"
  {
  }

  lemma TextOfThree(terms: seq<PolyTerm>, coeffText: real -> string)
    requires |terms| == 3
    ensures PolyText(terms, coeffText)
            == TermText(terms[0], coeffText) + " " + (if terms[1].coeff > 0.0 then "+" else "")
               + TermText(terms[1], coeffText) + (Separator(terms[2]) + TermText(terms[2], coeffText))
  {
    var first := TermText(terms[0], coeffText);
    assert PolyText(terms[..1], coeffText) == first by {
      assert terms[..1][1..] == [];
      assert PolyText(terms[..1], coeffText) == first + "";
    }
    assert TailText(terms[2..], coeffText) == Separator(terms[2]) + TermText(terms[2], coeffText) by {
      ConcatMapOne(terms[2..], (t: PolyTerm) => Separator(t) + TermText(t, coeffText));
    }
    PolyTextAt(terms, 1, coeffText);
  }

  lemma ConcatMapOne<T>(xs: seq<T>, text: T -> string)
    requires |xs| == 1
    ensures ConcatMap(xs, text) == text(xs[0])
  {
    assert ConcatMap(xs, text) == text(xs[0]) + ConcatMap(xs[1..], text);
  }

  lemma ConcatMapTwo<T>(xs: seq<T>, text: T -> string)
    requires |xs| == 2
    ensures ConcatMap(xs, text) == text(xs[0]) + text(xs[1])
  {
    ConcatMapOne(xs[1..], text);
  }

  lemma ConcatMapThree<T>(xs: seq<T>, text: T -> string)
    requires |xs| == 3
    ensures ConcatMap(xs, text) == text(xs[0]) + text(xs[1]) + text(xs[2])
  {
    ConcatMapTwo(xs[1..], text);
    AppendAssoc(text(xs[0]), text(xs[1]), text(xs[2]));
  }

  /**
    The example as the test drives it: build the polynomial, write it,
    substitute 2 for x in place, write it again.
  */
  method Run(coeffText: real -> string) returns (before: string, after: string)
    requires coeffText(-2.0) == "-2" && coeffText(10.0) == "10"
    requires coeffText(4.0) == "4" && coeffText(-16.0) == "-16"
    ensures before == "x2 -2x3(yy)z2 +10y2"
    ensures after == "4x0 -16x0(yy)z2 +10y2"
  {
    var p := new Poly(Example());
    ExampleText(coeffText);
    before := PolyText(p.terms, coeffText);
    p.Substitute("x", 2.0);
    ExampleSubstitute();
    SubstitutedText(coeffText);
    after := PolyText(p.terms, coeffText);
  }
}
