# symba: raw polynomials, substitution and their text form

This project models the core of `src/lib.rs`. It has three parts.

- **Data types.** A polynomial `Poly` is a list of terms. A `PolyTerm` is a real coefficient times a list of `PolyVar`s. A `PolyVar` is a symbol raised to a non-negative degree.
- **Substitution.** `Poly::substitute(sym, val)` changes a polynomial in place. For every variable whose symbol is `sym`, it multiplies the term's coefficient by `val` raised to that variable's degree, then sets the degree to 0.
- **Rendering.** The `Display` implementations write a polynomial as text. The first term comes first. Every later term gets a space, then a `+` when its coefficient is positive. A term omits a coefficient of exactly 1. A symbol stays bare when its UTF-8 encoding is one byte long and is parenthesised otherwise. A degree is written after its symbol unless it is exactly 1.

Modules:

- `Polynomial` (`polynomial.dfy`): the datatypes and the class `Poly`.
  - `Poly.Substitute` keeps the source's nested loop. The inner loop is the method `SubstituteInTerm`. Both are proved against the function `SubstituteTerms`.
  - `SubstituteTerms` is in turn related to an independent meaning: the value of a polynomial at a point.
  - `Poly.Simplify` is an empty method, as in the source.
- `Render` (`render.dfy`): the three `Display` implementations as functions that return the text.
  - A reader `ParseVars` recovers the variables from their text. It shows that, for variables with unambiguous symbols (no `)`, and a bare symbol is neither a digit nor `(`), the parentheses and the omitted degree 1 lose no information. For other symbols they can: `x` followed by `2`, both of degree 1, is written `x2`, as is `x` of degree 2.
- `Utf8` (`utf8.dfy`): the UTF-8 encoding of a string (RFC 3629, section 3). `String::len` counts the bytes of this encoding.
- `Decimal` (`decimal.dfy`): the decimal text of a `usize` degree, and reading it back.
- `SubstituteExample` (`substitute_example.dfy`): the repository's own test, `x^2 - 2x^3(yy)z^2 + 10y^2` with `x := 2`.

Notes on `src/lib.rs`:

- `simplify` has an empty body, so it is modelled as a method that changes nothing.
- A symbol is tested by its byte length (`sym.len() == 1`), not by its number of characters. So a single non-ASCII character such as `é` is written in parentheses.
- The test prints the polynomial before and after the substitution, without simplifying. So the degree-0 occurrences of `x` stay in the second text: `x2 -2x3(yy)z2 +10y2`, then `4x0 -16x0(yy)z2 +10y2`.

## Model

| member | source | states |
|---|---|---|
| Polynomial.Poly.constructor | src/lib.rs:4 | a new polynomial holds exactly the given terms |
| Polynomial.Poly.Simplify | src/lib.rs:19-22 | the stub leaves the terms exactly as they were |
| Polynomial.Poly.Substitute | src/lib.rs:24-33 | after the in-place nested loop, the terms are `SubstituteTerms(old terms, sym, val)`: each term has its coefficient multiplied by `val` to the summed degree of `sym` in it and its matching degrees set to 0 |
| Polynomial.Poly.SubstituteInTerm | src/lib.rs:26-31 | the inner loop over one term's variables rewrites that term alone into its substituted form and leaves every other term unchanged |
| Polynomial.Pow | src/lib.rs:28 | `f64::powi` for a non-negative exponent, over exact reals: `v` multiplied by itself `n` times, and 1 for `n = 0`; `PowAdd` is its law |
| Polynomial.SymbolDegree | src/lib.rs:25-30 | the sum of the degrees of the occurrences of `sym` in a term, the exponent the loop's successive `powi` factors add up to (`SymbolDegreeAppend`, `PowAdd`) |
| Polynomial.EliminateVars | src/lib.rs:29 | each variable with symbol `sym` gets degree 0, and the others are kept, in order (`SubstituteShape`) |
| Polynomial.SubstituteTerm | src/lib.rs:25-31 | one term after the loop over its variables: coefficient times `val` to the symbol's summed degree, variables with matching degrees zeroed; the reference `Poly.SubstituteInTerm` is proved against |
| Polynomial.SubstituteTerms | src/lib.rs:24-33 | every term substituted, in order; the reference `Poly.Substitute` is proved against, with its meaning given by `SubstituteValue` |
| Polynomial.CoefficientStep | src/lib.rs:27-28 | one pass of the inner loop multiplies the running coefficient by `val^deg` exactly when the variable's symbol matches, and keeps it otherwise |
| Polynomial.PowAdd | src/lib.rs:28 | multiplying by `val^a` and then by `val^b` is multiplying by `val^(a+b)`, so repeated occurrences of a symbol contribute their summed degree |
| Polynomial.SubstituteLengths | src/lib.rs:25-26 | for every polynomial, substitution keeps the number of terms and each term's number of variables |
| Polynomial.SubstituteShape | src/lib.rs:25-30 | at every position, substitution keeps the variable's symbol; a matching degree becomes 0 and any other degree is kept |
| Polynomial.SubstituteCoefficient | src/lib.rs:25-30 | for any split of a term's variables into a prefix and a suffix, the new coefficient is the old one times `val` to the prefix's matching degree times `val` to the suffix's matching degree |
| Polynomial.SymbolDegreeAppend | src/lib.rs:26-28 | the summed degree of a symbol over two concatenated variable lists is the sum over each |
| Polynomial.SymbolDegreeZero | src/lib.rs:27-29 | the summed degree of a symbol is 0 exactly when each of its occurrences has degree 0 |
| Polynomial.SubstituteIdempotent | src/lib.rs:24-33 | substituting a symbol a second time, with any value, changes nothing more |
| Polynomial.SubstituteUnchanged | src/lib.rs:24-33 | substitution leaves the terms unchanged if and only if every occurrence of the symbol already has degree 0; so substituting an absent symbol is a no-op |
| Polynomial.SubstituteValue | src/lib.rs:24-33 | at every point, the substituted polynomial takes the value the original takes at that point with `sym` fixed to `val` |
| Utf8.EncodeChar | src/lib.rs:68 | a scalar value encodes to 1 to 4 bytes, and to one byte, itself, exactly when it is below 0x80 |
| Utf8.Encode | src/lib.rs:68 | a string's UTF-8 encoding is at least as long as the string |
| Utf8.ByteLength | src/lib.rs:68 | `String::len`: the length of the string's UTF-8 encoding, never less than its number of characters |
| Utf8.ByteLengthOne | src/lib.rs:68 | `String::len` is 1 exactly when the string is a single ASCII character |
| Decimal.NatToString | src/lib.rs:72-74 | a degree is written as a non-empty run of decimal digits, with a leading `0` only for 0, and one digit exactly when it is below 10 |
| Decimal.DecimalRoundTrip | src/lib.rs:72-74 | reading the written degree back as a decimal number gives the degree |
| Render.SymbolText | src/lib.rs:68-71 | a symbol is written bare exactly when its byte length (`String::len`) is 1, and otherwise as `(` symbol `)` |
| Render.VarText | src/lib.rs:66-77 | a variable as written: its symbol's text, then its degree in decimal unless the degree is 1 (`VarTextDegree`, `ParseVarText`) |
| Render.VarsText | src/lib.rs:59-61 | a term's variables as written: their texts one after another, in order (`VarsTextAt`, `VarsTextEmpty`) |
| Render.TermText | src/lib.rs:54-64 | a term as written: the coefficient's text unless the coefficient is 1, then the variables' text (`TermTextPrefix`, `TermTextEmpty`) |
| Render.Separator | src/lib.rs:42-45 | what precedes a later term: one space, then `+` exactly when the coefficient is positive (`PolyTextAt`) |
| Render.TailText | src/lib.rs:41-47 | the terms after the first, each as its separator and then its text, in order (`TailTextAt`) |
| Render.PolyText | src/lib.rs:36-52 | a polynomial as written: nothing for no terms, otherwise the first term's text and then the later terms (`PolyTextStart`, `PolyTextAt`) |
| Render.VarTextDegree | src/lib.rs:68-74 | a variable's text starts with its symbol's text; it is that text alone exactly when the degree is 1, and otherwise the degree's decimal text follows it |
| Render.VarsTextEmpty | src/lib.rs:59-61 | a term's variables are written as the empty text exactly when there are none |
| Render.VarsTextAt | src/lib.rs:59-61 | the variables are written in order: each variable's text sits between the texts of the variables before and after it |
| Render.TermTextEmpty | src/lib.rs:56-62 | a term is written as the empty text exactly when it has no variables and its coefficient is 1 or is written as the empty text |
| Render.TermTextPrefix | src/lib.rs:56-61 | for every term, the text starts with the coefficient's text when the coefficient is not 1 and with nothing when it is, and the variables' text makes up the rest |
| Render.TermTextReads | src/lib.rs:56-62 | for variables with unambiguous symbols (no `)`, and a bare symbol is neither a digit nor `(`), a term's text starts with its coefficient's text when the coefficient is not 1 and with nothing when it is, and the variables read back from the remainder |
| Render.PolyTextStart | src/lib.rs:38-50 | a polynomial is written as the empty text exactly when it has no terms or one term written as the empty text; otherwise its text starts with its first term's text |
| Render.TailTextAt | src/lib.rs:41-47 | the later terms are written in order, each as its separator and then its text |
| Render.PolyTextAt | src/lib.rs:41-47 | every term after the first is written after the text of the terms before it as one space, then `+` exactly when its coefficient is positive, then the term's own text |
| Render.ParseVarText | src/lib.rs:66-76 | one variable's text, followed by text that does not start with a digit, reads back as that variable and consumes exactly its own text |
| Render.ParseVarsText | src/lib.rs:59-61 | a list of variables with unambiguous symbols reads back from its text |
| Render.AmbiguousVarsText | src/lib.rs:66-77 | without the unambiguity condition the text loses information: `x` then `2`, both of degree 1, and `x` of degree 2 are both written `x2` |
| Render.VarsTextInjective | src/lib.rs:66-76 | two lists of variables with unambiguous symbols that are written the same are equal |
| SubstituteExample.ExampleSubstitute | src/lib.rs:85-120 | substituting 2 for `x` in the test's polynomial gives coefficients 4, -16 and 10, with every degree of `x` set to 0 and everything else kept |
| SubstituteExample.ExampleText | src/lib.rs:85-119 | the test's polynomial is written `x2 -2x3(yy)z2 +10y2` |
| SubstituteExample.SubstitutedText | src/lib.rs:120-121 | after the substitution it is written `4x0 -16x0(yy)z2 +10y2` |
| SubstituteExample.Run | src/lib.rs:84-122 | the test's sequence of building, writing, substituting in place and writing again yields those two texts |

## Left out

- Floating point: coefficients and `val` are exact reals. The rounding of `*=` and of `f64::powi`, infinities, NaN and negative zero are not modelled. NaN would change the `!= 1.` and `> 0.` tests.
- Polynomial.Poly.Substitute: does not model the `var.deg as i32` cast, which truncates degrees above `i32::MAX` before `powi`. The model raises `val` to the full degree.
- Render.TermText: the digits that `f64`'s `Display` writes for a coefficient are not modelled. The renderer takes that formatter as the parameter `coeffText`, and the example's lemmas state the few values they need as preconditions.
- Formatter plumbing: the `?` propagation of `fmt::Error` from `write!` is not modelled. Each `Display` is a function that returns its whole text.
- The derived `Debug`, `PartialEq` and `Clone` implementations, and the test's `println!`, are not modelled.
- Polynomial.Poly.Simplify: canonicalisation is not written in `src/lib.rs`, so there is nothing more to model. Addition, multiplication, differentiation and integration are not part of this file and are not part of this model.
- Render.ParseVars: this reader has no counterpart in the source. It exists only to state that variable text is unambiguous. That holds for symbols without `)` that, when written bare, are neither a digit nor `(`. Other symbols can be written ambiguously by the source.
