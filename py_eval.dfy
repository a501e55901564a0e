/**
 * Python's built-in `eval`, restricted to the one kind of text the duration
 * conversion can produce: a sum (`+`) of products (`*`) of decimal integer
 * literals, with blanks between the tokens. Every other text makes the model
 * fail, which stands for the exception `eval` raises on it.
 *
 * The text is split at `+` into terms and each term at `*` into operands;
 * an operand is a literal surrounded by optional blanks. Because `+` and `*`
 * are associative, evaluating in this order gives Python's result, and `*`
 * binds tighter than `+` by construction.
 */
module PyEval {
  import opened Wrappers
  import PyStr

  predicate IsDigit(c: char) { '0' <= c <= '9' }

  /** The blanks Python's tokenizer skips between tokens. */
  predicate IsBlank(c: char) { c == ' ' || c == '\t' }

  predicate AllDigits(s: string) { forall i :: 0 <= i < |s| ==> IsDigit(s[i]) }

  predicate AllBlank(s: string) { forall i :: 0 <= i < |s| ==> IsBlank(s[i]) }

  /** The characters that can occur in a text `Eval` accepts. */
  predicate IsExprChar(c: char) { IsDigit(c) || IsBlank(c) || c == '*' || c == '+' }

  /**
   * A Python 3 decimal integer literal (without `_` separators): a non-empty
   * run of digits that starts with a non-zero digit unless every digit is
   * `0`. So `0` and `00` are literals and `05` is a syntax error.
   */
  predicate IsLiteral(s: string) {
    && |s| > 0
    && AllDigits(s)
    && (s[0] == '0' ==> forall i :: 0 <= i < |s| ==> s[i] == '0')
  }

  function DigitValue(c: char): nat
    requires IsDigit(c)
  {
    c as int - '0' as int
  }

  /** The value of a run of decimal digits, most significant first. */
  function LiteralValue(s: string): nat
    requires AllDigits(s)
    decreases |s|
  {
    if |s| == 0 then 0 else LiteralValue(s[..|s| - 1]) * 10 + DigitValue(s[|s| - 1])
  }

  function StripLeft(s: string): string
    decreases |s|
  {
    if |s| > 0 && IsBlank(s[0]) then StripLeft(s[1..]) else s
  }

  function StripRight(s: string): string
    decreases |s|
  {
    if |s| > 0 && IsBlank(s[|s| - 1]) then StripRight(s[..|s| - 1]) else s
  }

  /** The text without its leading and trailing blanks. */
  function Strip(s: string): string {
    StripRight(StripLeft(s))
  }

  function Mul(a: Option<int>, b: Option<int>): Option<int> {
    if a.Some? && b.Some? then Some(a.value * b.value) else None
  }

  function Add(a: Option<int>, b: Option<int>): Option<int> {
    if a.Some? && b.Some? then Some(a.value + b.value) else None
  }

  /** One operand: a literal between optional blanks. */
  function EvalFactor(f: string): Option<int> {
    var t := Strip(f);
    if IsLiteral(t) then Some(LiteralValue(t)) else None
  }

  /** The product of the operands; an empty product is 1. */
  function EvalFactors(fs: seq<string>): (r: Option<int>)
    ensures r.Some? ==> r.value >= 0
    decreases |fs|
  {
    if |fs| == 0 then Some(1) else Mul(EvalFactor(fs[0]), EvalFactors(fs[1..]))
  }

  /** One term: operands separated by `*`. */
  function EvalProduct(p: string): Option<int> {
    EvalFactors(PyStr.Split(p, '*'))
  }

  /** The sum of the terms; an empty sum is 0. */
  function EvalTerms(ps: seq<string>): (r: Option<int>)
    ensures r.Some? ==> r.value >= 0
    decreases |ps|
  {
    if |ps| == 0 then Some(0) else Add(EvalProduct(ps[0]), EvalTerms(ps[1..]))
  }

  /**
   * `eval(s)` on the `+`/`*` integer subset. An empty text, a letter, a
   * literal with a leading zero, two adjacent literals or two adjacent
   * operators all give `None`.
   */
  function Eval(s: string): (r: Option<int>)
    ensures r.Some? ==> r.value >= 0
  {
    EvalTerms(PyStr.Split(s, '+'))
  }

  // ---------------------------------------------------------------------
  // Sums of products written out as text

  /** A product of integer literals with at least one operand. */
  datatype Product = Operand(lit: string) | Times(lit: string, rest: Product)

  /** A sum of products with at least one term. */
  datatype Sum = Term(p: Product) | Plus(p: Product, rest: Sum)

  /** Every operand is a literal Python accepts. */
  predicate ProductLiterals(p: Product) {
    match p
    case Operand(lit) => IsLiteral(lit)
    case Times(lit, rest) => IsLiteral(lit) && ProductLiterals(rest)
  }

  predicate SumLiterals(e: Sum) {
    match e
    case Term(p) => ProductLiterals(p)
    case Plus(p, rest) => ProductLiterals(p) && SumLiterals(rest)
  }

  function ProductValue(p: Product): nat
    requires ProductLiterals(p)
  {
    match p
    case Operand(lit) => LiteralValue(lit)
    case Times(lit, rest) => LiteralValue(lit) * ProductValue(rest)
  }

  function SumValue(e: Sum): nat
    requires SumLiterals(e)
  {
    match e
    case Term(p) => ProductValue(p)
    case Plus(p, rest) => ProductValue(p) + SumValue(rest)
  }

  /** `a * b * c`, the operands joined by `" * "`. */
  function RenderProduct(p: Product): string {
    match p
    case Operand(lit) => lit
    case Times(lit, rest) => lit + " * " + RenderProduct(rest)
  }

  /** `a * b + c`, the terms joined by `" + "`. */
  function RenderSum(e: Sum): string {
    match e
    case Term(p) => RenderProduct(p)
    case Plus(p, rest) => RenderProduct(p) + " + " + RenderSum(rest)
  }

  // ---------------------------------------------------------------------
  // Blanks

  lemma {:induction false} StripLeftPadded(pre: string, y: string)
    requires AllBlank(pre) && (|y| == 0 || !IsBlank(y[0]))
    ensures StripLeft(pre + y) == y
    decreases |pre|
  {
    if |pre| == 0 {
      assert pre + y == y;
    } else {
      assert (pre + y)[1..] == pre[1..] + y;
      StripLeftPadded(pre[1..], y);
    }
  }

  lemma {:induction false} StripRightPadded(y: string, post: string)
    requires AllBlank(post) && |y| > 0 && !IsBlank(y[|y| - 1])
    ensures StripRight(y + post) == y
    decreases |post|
  {
    if |post| == 0 {
      assert y + post == y;
    } else {
      assert (y + post)[..|y + post| - 1] == y + post[..|post| - 1];
      StripRightPadded(y, post[..|post| - 1]);
    }
  }

  /** Blanks around a text without blank ends are exactly what `Strip` drops. */
  lemma StripPadded(pre: string, x: string, post: string)
    requires AllBlank(pre) && AllBlank(post)
    requires |x| > 0 && !IsBlank(x[0]) && !IsBlank(x[|x| - 1])
    ensures Strip(pre + x + post) == x
  {
    assert pre + x + post == pre + (x + post);
    StripLeftPadded(pre, x + post);
    StripRightPadded(x, post);
  }

  /** `Strip` drops blanks only. */
  lemma {:induction false} StripKeeps(s: string, x: char)
    requires x in s && !IsBlank(x)
    ensures x in Strip(s)
  {
    StripLeftKeeps(s, x);
    StripRightKeeps(StripLeft(s), x);
  }

  lemma {:induction false} StripLeftKeeps(s: string, x: char)
    requires x in s && !IsBlank(x)
    ensures x in StripLeft(s)
    decreases |s|
  {
    if IsBlank(s[0]) {
      StripLeftKeeps(s[1..], x);
    }
  }

  lemma {:induction false} StripRightKeeps(s: string, x: char)
    requires x in s && !IsBlank(x)
    ensures x in StripRight(s)
    decreases |s|
  {
    if IsBlank(s[|s| - 1]) {
      assert s == s[..|s| - 1] + [s[|s| - 1]];
      StripRightKeeps(s[..|s| - 1], x);
    }
  }

  // ---------------------------------------------------------------------
  // Compositional evaluation

  lemma {:induction false} EvalFactorsConcat(a: seq<string>, b: seq<string>)
    ensures EvalFactors(a + b) == Mul(EvalFactors(a), EvalFactors(b))
    decreases |a|
  {
    if |a| == 0 {
      assert a + b == b;
    } else {
      assert (a + b)[0] == a[0];
      assert (a + b)[1..] == a[1..] + b;
      EvalFactorsConcat(a[1..], b);
      MulAssoc(EvalFactor(a[0]), EvalFactors(a[1..]), EvalFactors(b));
    }
  }

  lemma MulAssoc(x: Option<int>, y: Option<int>, z: Option<int>)
    ensures Mul(x, Mul(y, z)) == Mul(Mul(x, y), z)
  {
    if x.Some? && y.Some? && z.Some? {
      IntMulAssoc(x.value, y.value, z.value);
    }
  }

  lemma IntMulAssoc(a: int, b: int, c: int)
    ensures a * (b * c) == (a * b) * c
  {
  }

  lemma {:induction false} EvalTermsConcat(a: seq<string>, b: seq<string>)
    ensures EvalTerms(a + b) == Add(EvalTerms(a), EvalTerms(b))
    decreases |a|
  {
    if |a| == 0 {
      assert a + b == b;
    } else {
      assert (a + b)[0] == a[0];
      assert (a + b)[1..] == a[1..] + b;
      EvalTermsConcat(a[1..], b);
    }
  }

  /** `a * b` evaluates to the product of the values of its two sides. */
  lemma EvalProductTimes(a: string, b: string)
    ensures EvalProduct(a + "*" + b) == Mul(EvalProduct(a), EvalProduct(b))
  {
    PyStr.SplitConcat(a, b, '*');
    EvalFactorsConcat(PyStr.Split(a, '*'), PyStr.Split(b, '*'));
  }

  /** `a + b` evaluates to the sum of the values of its two sides. */
  lemma EvalPlus(a: string, b: string)
    ensures Eval(a + "+" + b) == Add(Eval(a), Eval(b))
  {
    PyStr.SplitConcat(a, b, '+');
    EvalTermsConcat(PyStr.Split(a, '+'), PyStr.Split(b, '+'));
  }

  lemma EvalProductSingle(s: string)
    requires '*' !in s
    ensures EvalProduct(s) == EvalFactor(s)
  {
    PyStr.SplitNone(s, '*');
    assert [s][1..] == [];
    assert EvalFactors([s]) == Mul(EvalFactor(s), Some(1));
  }

  lemma EvalSingle(s: string)
    requires '+' !in s
    ensures Eval(s) == EvalProduct(s)
  {
    PyStr.SplitNone(s, '+');
    assert [s][1..] == [];
    assert EvalTerms([s]) == Add(EvalProduct(s), Some(0));
  }

  /** A literal between blanks is one operand, worth the literal's value. */
  lemma EvalFactorLiteral(pre: string, lit: string, post: string)
    requires AllBlank(pre) && AllBlank(post) && IsLiteral(lit)
    ensures EvalFactor(pre + lit + post) == Some(LiteralValue(lit))
  {
    assert IsDigit(lit[0]) && IsDigit(lit[|lit| - 1]);
    StripPadded(pre, lit, post);
  }

  lemma {:induction false} RenderProductChars(p: Product, x: char)
    requires ProductLiterals(p) && x in RenderProduct(p)
    ensures IsDigit(x) || x == ' ' || x == '*'
  {
    match p
    case Operand(lit) =>
      var i :| 0 <= i < |lit| && lit[i] == x;
    case Times(lit, rest) =>
      if x in lit {
        var i :| 0 <= i < |lit| && lit[i] == x;
      } else if x !in " * " {
        RenderProductChars(rest, x);
      }
  }

  /** Regrouping `pre + x + " op " + y + post` around its operator. */
  lemma SplitAround(pre: string, x: string, op: string, y: string, post: string, c: char)
    requires op == [' ', c, ' ']
    ensures pre + (x + op + y) + post == (pre + x + " ") + [c] + (" " + y + post)
  {
  }

  lemma {:induction false} EvalProductRender(pre: string, p: Product, post: string)
    requires AllBlank(pre) && AllBlank(post) && ProductLiterals(p)
    ensures EvalProduct(pre + RenderProduct(p) + post) == Some(ProductValue(p))
    decreases p
  {
    match p
    case Operand(lit) =>
      var s := pre + lit + post;
      if '*' in s {
        RenderProductChars(p, '*');
      }
      EvalProductSingle(s);
      EvalFactorLiteral(pre, lit, post);
    case Times(lit, rest) =>
      var left := pre + lit + " ";
      var right := " " + RenderProduct(rest) + post;
      assert pre + RenderProduct(p) + post == left + "*" + right by {
        SplitAround(pre, lit, " * ", RenderProduct(rest), post, '*');
      }
      EvalProductTimes(left, right);
      if '*' in left {
        RenderProductChars(Operand(lit), '*');
      }
      EvalProductSingle(left);
      EvalFactorLiteral(pre, lit, " ");
      EvalProductRender(" ", rest, post);
  }

  lemma {:induction false} EvalSumRender(pre: string, e: Sum, post: string)
    requires AllBlank(pre) && AllBlank(post) && SumLiterals(e)
    ensures Eval(pre + RenderSum(e) + post) == Some(SumValue(e))
    decreases e
  {
    match e
    case Term(p) =>
      var s := pre + RenderProduct(p) + post;
      if '+' in s {
        RenderProductChars(p, '+');
      }
      EvalSingle(s);
      EvalProductRender(pre, p, post);
    case Plus(p, rest) =>
      var left := pre + RenderProduct(p) + " ";
      var right := " " + RenderSum(rest) + post;
      assert pre + RenderSum(e) + post == left + "+" + right by {
        SplitAround(pre, RenderProduct(p), " + ", RenderSum(rest), post, '+');
      }
      EvalPlus(left, right);
      if '+' in left {
        RenderProductChars(p, '+');
      }
      EvalSingle(left);
      EvalProductRender(pre, p, " ");
      EvalSumRender(" ", rest, post);
  }

  /** A sum of products written out as text evaluates to its value. */
  lemma EvalRenderSum(e: Sum)
    requires SumLiterals(e)
    ensures Eval(RenderSum(e)) == Some(SumValue(e))
  {
    assert "" + RenderSum(e) + "" == RenderSum(e);
    EvalSumRender("", e, "");
  }

  /** `EvalRenderSum` for a text already known to be the rendering of `e`. */
  lemma EvalRendered(t: string, e: Sum, v: int)
    requires SumLiterals(e) && t == RenderSum(e) && SumValue(e) == v
    ensures Eval(t) == Some(v)
  {
    EvalRenderSum(e);
  }

  // ---------------------------------------------------------------------
  // What Eval rejects

  lemma {:induction false} EvalFactorsEach(fs: seq<string>, k: nat)
    requires EvalFactors(fs).Some? && k < |fs|
    ensures EvalFactor(fs[k]).Some?
    decreases |fs|
  {
    if k > 0 {
      EvalFactorsEach(fs[1..], k - 1);
    }
  }

  lemma {:induction false} EvalTermsEach(ps: seq<string>, k: nat)
    requires EvalTerms(ps).Some? && k < |ps|
    ensures EvalProduct(ps[k]).Some?
    decreases |ps|
  {
    if k > 0 {
      EvalTermsEach(ps[1..], k - 1);
    }
  }

  /** A text `Eval` accepts holds only digits, blanks, `*` and `+`. */
  lemma EvalAlphabet(s: string, x: char)
    requires Eval(s).Some? && x in s
    ensures IsExprChar(x)
  {
    if x != '+' {
      var ps := PyStr.Split(s, '+');
      var k := PyStr.SplitCovers(s, '+', x);
      EvalTermsEach(ps, k);
      if x != '*' {
        var fs := PyStr.Split(ps[k], '*');
        var j := PyStr.SplitCovers(ps[k], '*', x);
        EvalFactorsEach(fs, j);
        if !IsBlank(x) {
          StripKeeps(fs[j], x);
        }
      }
    }
  }

  /** A text containing any other character, such as a letter, is rejected. */
  lemma EvalRejectsChar(s: string, x: char)
    requires x in s && !IsExprChar(x)
    ensures Eval(s) == None
  {
    if Eval(s).Some? {
      EvalAlphabet(s, x);
    }
  }

  /**
   * A run of digits evaluates to its value exactly when it is a literal: the
   * empty text and a leading zero before a non-zero digit are rejected.
   */
  lemma EvalDigits(s: string)
    requires AllDigits(s)
    ensures Eval(s) == if IsLiteral(s) then Some(LiteralValue(s)) else None
  {
    if |s| > 0 {
      assert '+' !in s && '*' !in s;
      EvalSingle(s);
      EvalProductSingle(s);
      assert IsDigit(s[0]) && IsDigit(s[|s| - 1]);
      StripPadded("", s, "");
      assert "" + s + "" == s;
    } else {
      assert PyStr.Split(s, '+') == [s];
      assert PyStr.Split(s, '*') == [s];
      assert Strip(s) == s;
    }
  }
}
