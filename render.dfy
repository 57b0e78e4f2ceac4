/**
  The textual form of a polynomial, as the three `Display` implementations
  write it.  Each `fmt` only appends text, so each becomes a function that
  returns the text.

  A polynomial is its terms separated by one space, with a `+` inserted
  before every later term whose coefficient is positive (a negative
  coefficient brings its own `-`).  A term is its coefficient, left out when
  it is exactly 1, followed by its variables.  A variable is its symbol,
  parenthesised unless the symbol is one byte long, followed by its degree
  in decimal unless the degree is exactly 1.

  How an `f64` coefficient is written is not modelled: the renderer takes
  that formatter as the parameter `coeffText`.
*/
module Render {
  import Utf8
  import opened Decimal
  import opened Polynomial

  /**
    A symbol as written: bare when its UTF-8 encoding is one byte long,
    otherwise in parentheses.  A string is one byte long exactly when it is
    one ASCII character, which is the test written here.
  */
  function SymbolText(sym: string): (r: string)
    ensures r == sym <==> Utf8.ByteLength(sym) == 1
    ensures Utf8.ByteLength(sym) != 1 ==> r == "(" + sym + ")"
  {
    Utf8.ByteLengthOne(sym);
    if |sym| == 1 && sym[0] as int < 0x80 then sym else "(" + sym + ")"
  }

  function VarText(v: PolyVar): (r: string)
    ensures |r| > 0
  {
    SymbolText(v.sym) + (if v.deg != 1 then NatToString(v.deg) else "")
  }

  /** The texts of the elements of `xs`, one after another, in order. */
  function ConcatMap<T>(xs: seq<T>, text: T -> string): string
  {
    if |xs| == 0 then "" else text(xs[0]) + ConcatMap(xs[1..], text)
  }

  function VarsText(vars: seq<PolyVar>): string
  {
    ConcatMap(vars, VarText)
  }

  /** A term as written: the coefficient unless it is 1, then the variables. */
  function TermText(t: PolyTerm, coeffText: real -> string): string
  {
    (if t.coeff != 1.0 then coeffText(t.coeff) else "") + VarsText(t.vars)
  }

  /** What goes before a term that is not the first. */
  function Separator(t: PolyTerm): string
  {
    " " + (if t.coeff > 0.0 then "+" else "")
  }

  /** Every term of `terms`, each after its separator. */
  function TailText(terms: seq<PolyTerm>, coeffText: real -> string): string
  {
    ConcatMap(terms, (t: PolyTerm) => Separator(t) + TermText(t, coeffText))
  }

  /** A polynomial as written. */
  function PolyText(terms: seq<PolyTerm>, coeffText: real -> string): string
  {
    if |terms| == 0 then "" else TermText(terms[0], coeffText) + TailText(terms[1..], coeffText)
  }

  // ---------------------------------------------------------------------------
  // Layout of the text
  // ---------------------------------------------------------------------------

  lemma AppendAssoc(x: string, y: string, z: string)
    ensures x + (y + z) == (x + y) + z
  {
  }

  lemma {:induction false} ConcatMapAppend<T>(a: seq<T>, b: seq<T>, text: T -> string)
    ensures ConcatMap(a + b, text) == ConcatMap(a, text) + ConcatMap(b, text)
  {
    if a == [] {
      assert a + b == b;
    } else {
      ConcatMapAppend(a[1..], b, text);
      assert (a + b)[1..] == a[1..] + b;
      assert (a + b)[0] == a[0];
      AppendAssoc(text(a[0]), ConcatMap(a[1..], text), ConcatMap(b, text));
    }
  }

  lemma {:induction false} ConcatMapEmpty<T>(xs: seq<T>, text: T -> string)
    ensures ConcatMap(xs, text) == "" <==> forall k :: 0 <= k < |xs| ==> text(xs[k]) == ""
  {
    if xs != [] {
      ConcatMapEmpty(xs[1..], text);
      assert forall k :: 1 <= k < |xs| ==> xs[k] == xs[1..][k - 1];
    }
  }

  /** The text of element `k` stands between the texts of those before and after it. */
  lemma ConcatMapAt<T>(xs: seq<T>, k: nat, text: T -> string)
    requires k < |xs|
    ensures ConcatMap(xs, text) == ConcatMap(xs[..k], text) + text(xs[k]) + ConcatMap(xs[k + 1..], text)
  {
    assert xs == xs[..k] + xs[k..];
    ConcatMapAppend(xs[..k], xs[k..], text);
    assert xs[k..][1..] == xs[k + 1..];
    AppendAssoc(ConcatMap(xs[..k], text), text(xs[k]), ConcatMap(xs[k + 1..], text));
  }

  /** No variable is written as the empty text, so only no variables are. */
  lemma VarsTextEmpty(vars: seq<PolyVar>)
    ensures VarsText(vars) == "" <==> vars == []
  {
    ConcatMapEmpty(vars, VarText);
    if vars != [] {
      assert VarText(vars[0]) != "";
    }
  }

  /** The text of variable `k` stands between the texts of those before and after it. */
  lemma VarsTextAt(vars: seq<PolyVar>, k: nat)
    requires k < |vars|
    ensures VarsText(vars) == VarsText(vars[..k]) + VarText(vars[k]) + VarsText(vars[k + 1..])
  {
    ConcatMapAt(vars, k, VarText);
  }

  lemma TailTextAt(terms: seq<PolyTerm>, k: nat, coeffText: real -> string)
    requires k < |terms|
    ensures TailText(terms, coeffText)
            == TailText(terms[..k], coeffText) + (Separator(terms[k]) + TermText(terms[k], coeffText))
               + TailText(terms[k + 1..], coeffText)
  {
    ConcatMapAt(terms, k, (t: PolyTerm) => Separator(t) + TermText(t, coeffText));
  }

  /**
    A polynomial is written as the empty text exactly when it has no terms,
    or one term that is written as the empty text; otherwise its text starts
    with that of its first term.
  */
  lemma PolyTextStart(terms: seq<PolyTerm>, coeffText: real -> string)
    ensures PolyText(terms, coeffText) == ""
            <==> terms == [] || (|terms| == 1 && TermText(terms[0], coeffText) == "")
    ensures terms != [] ==> TermText(terms[0], coeffText) <= PolyText(terms, coeffText)
  {
    if terms != [] {
      var head, tail := TermText(terms[0], coeffText), TailText(terms[1..], coeffText);
      assert PolyText(terms, coeffText) == head + tail;
      if |terms| > 1 {
        var text := (t: PolyTerm) => Separator(t) + TermText(t, coeffText);
        assert tail == text(terms[1..][0]) + ConcatMap(terms[2..], text);
        assert tail[0] == ' ';
      } else {
        assert tail == "";
      }
    }
  }

  /**
    A term is written as the empty text exactly when it has no variables and
    its coefficient is 1 (or is written as the empty text).
  */
  lemma TermTextEmpty(t: PolyTerm, coeffText: real -> string)
    ensures TermText(t, coeffText) == "" <==> (t.coeff == 1.0 || coeffText(t.coeff) == "") && t.vars == []
  {
    VarsTextEmpty(t.vars);
  }

  /**
    Every term after the first is written after exactly one space, then a
    `+` exactly when its coefficient is positive.
  */
  lemma PolyTextAt(terms: seq<PolyTerm>, i: nat, coeffText: real -> string)
    requires 0 < i < |terms|
    ensures PolyText(terms, coeffText)
            == PolyText(terms[..i], coeffText) + " " + (if terms[i].coeff > 0.0 then "+" else "")
               + TermText(terms[i], coeffText) + TailText(terms[i + 1..], coeffText)
  {
    var tail := terms[1..];
    TailTextAt(tail, i - 1, coeffText);
    assert tail[..i - 1] == terms[..i][1..];
    assert tail[i - 1] == terms[i];
    assert tail[i..] == terms[i + 1..];
    var head := TermText(terms[0], coeffText);
    var before := TailText(terms[..i][1..], coeffText);
    var sign := if terms[i].coeff > 0.0 then "+" else "";
    var term := TermText(terms[i], coeffText);
    var after := TailText(terms[i + 1..], coeffText);
    assert PolyText(terms, coeffText) == head + (before + (" " + sign + term) + after);
    assert PolyText(terms[..i], coeffText) == head + before;
    Regroup(head, before, " ", sign, term, after);
  }

  lemma Regroup(a: string, b: string, c: string, d: string, e: string, f: string)
    ensures a + (b + (c + d + e) + f) == a + b + c + d + e + f
  {
  }

  // ---------------------------------------------------------------------------
  // The variables' text can be read back
  // ---------------------------------------------------------------------------

  /**
    A symbol whose text cannot run into what follows: it holds no `)`, and
    when it is written bare it is neither a digit nor `(`.
  */
  ghost predicate Unambiguous(sym: string)
  {
    ')' !in sym && (|sym| == 1 && sym[0] as int < 0x80 ==> !IsDigit(sym[0]) && sym[0] != '(')
  }

  /** The index of the first `)` in `s`, or `|s|`. */
  function CloseIndex(s: string): (k: nat)
    ensures k <= |s|
  {
    if |s| == 0 || s[0] == ')' then 0 else 1 + CloseIndex(s[1..])
  }

  /** The length of the run of digits that `s` starts with. */
  function DigitRun(s: string): (k: nat)
    ensures k <= |s|
    ensures AllDigits(s[..k])
  {
    if |s| == 0 || !IsDigit(s[0]) then 0
    else
      var k := 1 + DigitRun(s[1..]);
      assert s[..k] == [s[0]] + s[1..][..k - 1];
      k
  }

  /**
    Reads one symbol off the front of non-empty `s`: the text up to the first
    `)` when `s` opens with `(`, otherwise the first character.  Also returns
    where the symbol's text ends.
  */
  function ParseSymbol(s: string): (r: (string, nat))
    requires |s| > 0
    ensures 0 < r.1 <= |s|
  {
    if s[0] == '(' then
      var close := 1 + CloseIndex(s[1..]);
      (s[1..close], if close < |s| then close + 1 else close)
    else
      (s[..1], 1)
  }

  /**
    Reads a degree off the front of `s`: the run of digits in decimal, or 1
    when there is none.  Also returns the length of the run.
  */
  function ParseDegree(s: string): (r: (nat, nat))
    ensures r.1 <= |s|
  {
    var n := DigitRun(s);
    (if n == 0 then 1 else DecimalValue(s[..n]), n)
  }

  /** Reads one variable off the front of non-empty `s`, and how much of `s` it takes. */
  function ParseVar(s: string): (r: (PolyVar, nat))
    requires |s| > 0
    ensures 0 < r.1 <= |s|
  {
    var symbol := ParseSymbol(s);
    var degree := ParseDegree(s[symbol.1..]);
    (PolyVar(symbol.0, degree.0), symbol.1 + degree.1)
  }

  /** Reads variables off the text `VarsText` writes. */
  function ParseVars(s: string): seq<PolyVar>
    decreases |s|
  {
    if |s| == 0 then [] else [ParseVar(s).0] + ParseVars(s[ParseVar(s).1..])
  }

  /** A run of digits followed by no digit is read whole. */
  lemma {:induction false} DigitRunExact(digits: string, rest: string)
    requires AllDigits(digits)
    requires rest == [] || !IsDigit(rest[0])
    ensures DigitRun(digits + rest) == |digits|
  {
    if digits != [] {
      assert (digits + rest)[1..] == digits[1..] + rest;
      DigitRunExact(digits[1..], rest);
    } else {
      assert digits + rest == rest;
    }
  }

  lemma {:induction false} CloseIndexSymbol(sym: string, rest: string)
    requires ')' !in sym
    ensures CloseIndex(sym + ")" + rest) == |sym|
  {
    var s := sym + ")" + rest;
    if sym != [] {
      assert s[0] == sym[0];
      assert s[1..] == sym[1..] + ")" + rest;
      CloseIndexSymbol(sym[1..], rest);
    }
  }

  /** A symbol's text reads back as the symbol, whatever follows it. */
  lemma ParseSymbolText(sym: string, tail: string)
    requires Unambiguous(sym)
    ensures ParseSymbol(SymbolText(sym) + tail) == (sym, |SymbolText(sym)|)
  {
    var s := SymbolText(sym) + tail;
    if SymbolText(sym) == sym {
      assert s[..1] == sym;
    } else {
      assert s[1..] == sym + ")" + tail;
      CloseIndexSymbol(sym, tail);
      assert s[1..1 + |sym|] == sym;
    }
  }

  /** A degree's text reads back as the degree when no digit follows it. */
  lemma ParseDegreeText(deg: nat, rest: string)
    requires rest == [] || !IsDigit(rest[0])
    ensures var degText := if deg != 1 then NatToString(deg) else "";
            ParseDegree(degText + rest) == (deg, |degText|)
  {
    if deg != 1 {
      var s := NatToString(deg) + rest;
      DigitRunExact(NatToString(deg), rest);
      DecimalRoundTrip(deg);
      assert s[..|NatToString(deg)|] == NatToString(deg);
    } else {
      assert "" + rest == rest;
    }
  }

  /** One variable's text, followed by text that starts with no digit, reads back. */
  lemma ParseVarText(v: PolyVar, rest: string)
    requires Unambiguous(v.sym)
    requires rest == [] || !IsDigit(rest[0])
    ensures ParseVar(VarText(v) + rest) == (v, |VarText(v)|)
  {
    var symText := SymbolText(v.sym);
    var degText := if v.deg != 1 then NatToString(v.deg) else "";
    var s := symText + (degText + rest);
    assert VarText(v) + rest == s && |VarText(v)| == |symText| + |degText| by {
      assert VarText(v) == symText + degText;
    }
    assert ParseSymbol(s) == (v.sym, |symText|) by {
      ParseSymbolText(v.sym, degText + rest);
    }
    assert ParseDegree(s[|symText|..]) == (v.deg, |degText|) by {
      assert s[|symText|..] == degText + rest;
      ParseDegreeText(v.deg, rest);
    }
    ParseVarPieces(s, |symText|, |degText|, v);
  }

  lemma ParseVarPieces(s: string, symLen: nat, degLen: nat, v: PolyVar)
    requires 0 < symLen <= |s|
    requires ParseSymbol(s) == (v.sym, symLen)
    requires ParseDegree(s[symLen..]) == (v.deg, degLen)
    ensures ParseVar(s) == (v, symLen + degLen)
  {
  }

  lemma {:induction false} ParseVarsText(vars: seq<PolyVar>)
    requires forall k :: 0 <= k < |vars| ==> Unambiguous(vars[k].sym)
    ensures ParseVars(VarsText(vars)) == vars
  {
    if vars != [] {
      var rest := VarsText(vars[1..]);
      assert VarsText(vars) == VarText(vars[0]) + rest;
      VarsTextStart(vars[1..]);
      ParseVarText(vars[0], rest);
      ParseVarsCons(VarText(vars[0]), rest, vars[0]);
      ParseVarsText(vars[1..]);
    }
  }

  /** The text of unambiguous variables never starts with a digit. */
  lemma VarsTextStart(vars: seq<PolyVar>)
    requires forall k :: 0 <= k < |vars| ==> Unambiguous(vars[k].sym)
    ensures VarsText(vars) == [] || !IsDigit(VarsText(vars)[0])
  {
    if vars != [] {
      assert VarsText(vars) == VarText(vars[0]) + VarsText(vars[1..]);
      assert VarsText(vars)[0] == SymbolText(vars[0].sym)[0];
    }
  }

  lemma ParseVarsCons(head: string, rest: string, v: PolyVar)
    requires |head| > 0
    requires ParseVar(head + rest) == (v, |head|)
    ensures ParseVars(head + rest) == [v] + ParseVars(rest)
  {
    assert (head + rest)[|head|..] == rest;
  }

  /** The degree is written after the symbol exactly when it is not 1, and reads back. */
  lemma VarTextDegree(v: PolyVar)
    ensures SymbolText(v.sym) <= VarText(v)
    ensures VarText(v) == SymbolText(v.sym) <==> v.deg == 1
    ensures v.deg != 1 ==> VarText(v)[|SymbolText(v.sym)|..] == NatToString(v.deg)
  {
    if v.deg != 1 {
      assert |VarText(v)| > |SymbolText(v.sym)|;
    }
  }

  /**
    A term's text is its coefficient's text, when the coefficient is not 1,
    and then text from which its variables read back.
  */
  lemma TermTextReads(t: PolyTerm, coeffText: real -> string)
    requires forall k :: 0 <= k < |t.vars| ==> Unambiguous(t.vars[k].sym)
    ensures var prefix := if t.coeff != 1.0 then coeffText(t.coeff) else "";
            prefix <= TermText(t, coeffText) && ParseVars(TermText(t, coeffText)[|prefix|..]) == t.vars
  {
    TermTextPrefix(t, coeffText);
    ParseVarsText(t.vars);
  }

  /**
    A term's text starts with its coefficient's text when the coefficient is
    not 1, and with nothing when it is; its variables' text follows.
  */
  lemma TermTextPrefix(t: PolyTerm, coeffText: real -> string)
    ensures var prefix := if t.coeff != 1.0 then coeffText(t.coeff) else "";
            prefix <= TermText(t, coeffText) && TermText(t, coeffText)[|prefix|..] == VarsText(t.vars)
  {
    var prefix := if t.coeff != 1.0 then coeffText(t.coeff) else "";
    assert TermText(t, coeffText)[|prefix|..] == VarsText(t.vars);
  }

  /**
    Without unambiguous symbols the text can lose information: `x` then the
    bare symbol `2` is written like `x` squared.
  */
  lemma AmbiguousVarsText()
    ensures VarsText([PolyVar("x", 1), PolyVar("2", 1)]) == VarsText([PolyVar("x", 2)]) == "x2"
  {
    assert VarText(PolyVar("x", 1)) == "x" && VarText(PolyVar("2", 1)) == "2";
    assert VarText(PolyVar("x", 2)) == "x2";
    assert VarsText([PolyVar("2", 1)]) == "2" + VarsText([]);
    assert VarsText([PolyVar("x", 1), PolyVar("2", 1)]) == "x" + VarsText([PolyVar("2", 1)]);
    assert VarsText([PolyVar("x", 2)]) == "x2" + VarsText([]);
  }

  /**
    Two lists of variables with unambiguous symbols that are written the same
    are the same: the parentheses and the omitted degree 1 lose nothing.
  */
  lemma VarsTextInjective(a: seq<PolyVar>, b: seq<PolyVar>)
    requires forall k :: 0 <= k < |a| ==> Unambiguous(a[k].sym)
    requires forall k :: 0 <= k < |b| ==> Unambiguous(b[k].sym)
    requires VarsText(a) == VarsText(b)
    ensures a == b
  {
    ParseVarsText(a);
    ParseVarsText(b);
  }
}
