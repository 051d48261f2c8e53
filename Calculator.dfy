/**
 * The calculator-mode acceptance rule of the per-frame update (app.py,
 * `update_gui`, lines 108-130): which detected signs are appended to the
 * expression string, and the shape that this keeps the expression in.
 */
module Calculator {

  /** `allowed_symbols`: every character a calculator-mode sign may consist of. */
  const AllowedSymbols: set<char> :=
    {'0', '1', '2', '3', '4', '5', '6', '7', '8', '9', '+', '-', '*', '/', '(', ')', '.', '='}

  /** The delete sentinel the per-frame update compares against. */
  const DeleteSign: string := "[DEL]"

  predicate IsOperatorChar(c: char) {
    c == '+' || c == '-' || c == '*' || c == '/'
  }

  predicate IsDigitChar(c: char) {
    '0' <= c <= '9'
  }

  /** Characters the expression string can ever hold: digits, operators and the dot. */
  predicate InAlphabet(e: string) {
    forall i :: 0 <= i < |e| ==> IsDigitChar(e[i]) || IsOperatorChar(e[i]) || e[i] == '.'
  }

  /** Python's `s in t` on two strings: `s` occurs contiguously in `t`. */
  predicate Occurs(s: string, t: string)
    ensures Occurs(s, t) ==> |s| <= |t|
    decreases |t|
  {
    (|s| <= |t| && t[..|s|] == s) || (|t| > 0 && Occurs(s, t[1..]))
  }

  /**
   * `is_operator` applied to a whole sign: a substring test against the string
   * of the four operator characters. Even the empty sign passes it, and no
   * sign longer than four characters does.
   */
  predicate IsOperator(sign: string)
    ensures sign == "" ==> IsOperator(sign)
    ensures IsOperator(sign) ==> |sign| <= 4
  {
    assert "+-*/"[..0] == "";
    Occurs(sign, "+-*/")
  }

  /** `sign.isdigit()`, for signs that already passed the allowed-symbol guard. */
  predicate IsDigits(sign: string)
    ensures IsDigits(sign) ==> PassesGuard(sign)
  {
    |sign| > 0 && forall i :: 0 <= i < |sign| ==> IsDigitChar(sign[i])
  }

  /** The guard `detected_sign and all(char in allowed_symbols for char in detected_sign)`. */
  predicate PassesGuard(sign: string)
    ensures PassesGuard(sign) ==> sign != DeleteSign
  {
    assert DeleteSign[0] == '[';
    sign != "" && forall i :: 0 <= i < |sign| ==> sign[i] in AllowedSymbols
  }

  /** Python's `e[:-1]`, which leaves the empty string empty. */
  function DropLast(e: string): (r: string)
    ensures r <= e
    ensures |r| == if e == "" then 0 else |e| - 1
  {
    if e == "" then e else e[..|e| - 1]
  }

  /**
   * The last piece of `re.split` at every operator character (app.py line
   * 122): the longest suffix of `e` holding no operator.
   */
  function LastRun(e: string): (r: string)
    ensures |r| <= |e| && r == e[|e| - |r|..]
    ensures forall i :: 0 <= i < |r| ==> !IsOperatorChar(r[i])
    ensures |r| < |e| ==> IsOperatorChar(e[|e| - |r| - 1])
  {
    if e == "" then ""
    else if IsOperatorChar(e[|e| - 1]) then ""
    else
      var p := e[..|e| - 1];
      var q := LastRun(p);
      assert e[|e| - |q| - 1..] == p[|p| - |q|..] + [e[|e| - 1]];
      q + [e[|e| - 1]]
  }

  /**
   * The new `calc_expression` after a frame that detected `sign` while the
   * previous frame detected `lastDetected` (app.py lines 114-126).
   */
  function Accept(expr: string, sign: string, lastDetected: string): (r: string)
    ensures !PassesGuard(sign) ==> r == expr
    ensures sign == lastDetected && sign != DeleteSign ==> r == expr
    ensures r == expr || r == expr + sign || (sign == DeleteSign && r == DropLast(expr))
    ensures r != expr && sign != DeleteSign ==> IsOperator(sign) || sign == "." || IsDigits(sign)
  {
    if PassesGuard(sign) then
      if sign == DeleteSign then
        DropLast(expr)
      else if sign != lastDetected then
        if IsOperator(sign) then
          if expr != "" && !IsOperatorChar(expr[|expr| - 1]) then expr + sign else expr
        else if sign == "." then
          if '.' !in LastRun(expr) then expr + "." else expr
        else if IsDigits(sign) then
          expr + sign
        else
          expr
      else
        expr
    else
      expr
  }

  /**
   * The guard of the live evaluation (app.py line 130): the expression is
   * non-empty and `is_operator` rejects its last character.
   */
  predicate EvaluationAttempted(e: string)
    ensures EvaluationAttempted(e) <==> e != "" && !IsOperator([e[|e| - 1]])
  {
    if e == "" then false
    else
      SingleCharOperator(e[|e| - 1]);
      !IsOperatorChar(e[|e| - 1])
  }

  /** No two operators stand next to each other. */
  predicate NoAdjacentOperators(e: string) {
    forall i :: 0 <= i < |e| - 1 ==> !(IsOperatorChar(e[i]) && IsOperatorChar(e[i + 1]))
  }

  /** Every dot of `e` was appended while the trailing numeric run held none. */
  predicate OneDotPerRun(e: string)
    decreases |e|
  {
    e == "" || (OneDotPerRun(e[..|e| - 1]) && (e[|e| - 1] == '.' ==> '.' !in LastRun(e[..|e| - 1])))
  }

  /** The shape the acceptance rule keeps the expression string in. */
  predicate WellFormed(e: string) {
    InAlphabet(e) && (e != "" ==> !IsOperatorChar(e[0])) && NoAdjacentOperators(e) && OneDotPerRun(e)
  }

  /** A sign that is one character long, or that is not a run of operators. */
  predicate NotOperatorRun(sign: string) {
    |sign| <= 1 || !IsOperator(sign)
  }

  // ---------------------------------------------------------------------
  // Facts about the substring test

  lemma {:induction false} OccursSingle(c: char, t: string)
    ensures Occurs([c], t) <==> c in t
  {
    if |t| > 0 {
      OccursSingle(c, t[1..]);
      assert t == [t[0]] + t[1..];
    }
  }

  lemma {:induction false} OccursChars(s: string, t: string)
    requires Occurs(s, t)
    ensures forall i :: 0 <= i < |s| ==> s[i] in t
  {
    if |s| <= |t| && t[..|s|] == s {
      forall i | 0 <= i < |s| ensures s[i] in t {
        assert s[i] == t[i];
      }
    } else {
      OccursChars(s, t[1..]);
      forall i | 0 <= i < |s| ensures s[i] in t {
        assert s[i] in t[1..];
      }
    }
  }

  /** A one-character sign is an operator exactly when its character is one of the four operators. */
  lemma SingleCharOperator(c: char)
    ensures IsOperator([c]) <==> IsOperatorChar(c)
  {
    OccursSingle(c, "+-*/");
  }

  /** Every character of an operator sign is an operator character. */
  lemma OperatorSignChars(sign: string)
    requires IsOperator(sign)
    ensures forall i :: 0 <= i < |sign| ==> IsOperatorChar(sign[i])
  {
    OccursChars(sign, "+-*/");
  }

  // ---------------------------------------------------------------------
  // The acceptance rule, sign class by sign class

  /** The delete sentinel fails the allowed-symbol guard, so the calculator delete branch never runs. */
  lemma DeleteNeverPassesGuard()
    ensures !PassesGuard(DeleteSign)
    ensures forall e, last :: Accept(e, DeleteSign, last) == e
  {
    assert DeleteSign[0] == '[';
  }

  /** An operator is appended exactly when the expression is non-empty and does not end in an operator. */
  lemma OperatorRule(expr: string, o: char, lastDetected: string)
    requires IsOperatorChar(o) && [o] != lastDetected
    ensures Accept(expr, [o], lastDetected) == expr + [o] <==> expr != "" && !IsOperatorChar(expr[|expr| - 1])
    ensures Accept(expr, [o], lastDetected) != expr + [o] ==> Accept(expr, [o], lastDetected) == expr
  {
    SingleCharOperator(o);
  }

  /** A dot is appended exactly when the numeric run after the last operator has no dot. */
  lemma DotRule(expr: string, lastDetected: string)
    requires "." != lastDetected
    ensures Accept(expr, ".", lastDetected) == (if '.' !in LastRun(expr) then expr + "." else expr)
  {
    SingleCharOperator('.');
    assert PassesGuard(".") by {
      assert "."[0] == '.';
    }
    assert "." != DeleteSign;
  }

  /** A digit sign is never an operator sign. */
  lemma DigitsNotOperator(d: string)
    requires IsDigits(d)
    ensures !IsOperator(d)
  {
    assert IsDigitChar(d[0]);
    if IsOperator(d) {
      OperatorSignChars(d);
    }
  }

  /** A digit sign different from the previous frame's sign is always appended. */
  lemma DigitRule(expr: string, d: string, lastDetected: string)
    requires IsDigits(d) && d != lastDetected
    ensures Accept(expr, d, lastDetected) == expr + d
  {
    assert PassesGuard(d) by {
      forall i | 0 <= i < |d| ensures d[i] in AllowedSymbols {
        assert IsDigitChar(d[i]);
      }
    }
    assert d != DeleteSign by {
      assert DeleteSign[0] == '[';
    }
    DigitsNotOperator(d);
  }

  /** `(`, `)` and `=` pass the guard but match no branch, so they never change the expression. */
  lemma ParensAndEqualsIgnored(expr: string, c: char, lastDetected: string)
    requires c == '(' || c == ')' || c == '='
    ensures PassesGuard([c])
    ensures Accept(expr, [c], lastDetected) == expr
  {
    SingleCharOperator(c);
  }

  /** Repeating the previous frame's sign never changes the expression. */
  lemma RepeatedSignIgnored(expr: string, sign: string)
    ensures Accept(expr, sign, sign) == expr
  {
    if sign == DeleteSign {
      DeleteNeverPassesGuard();
    }
  }

  /** No double operator: "5+" stays "5+" when another "+" is detected. */
  lemma DoubleOperatorExample()
    ensures Accept("5+", "+", "") == "5+"
  {
    OperatorRule("5+", '+', "");
  }

  /** No second dot in a run: a digit followed by a dot keeps its single dot. */
  lemma SecondDotRejectedExample(a: char)
    requires IsDigitChar(a)
    ensures Accept([a, '.'], ".", "") == [a, '.']
  {
    var e := [a, '.'];
    DotRule(e, "");
    assert e[|e| - 1] == '.' && !IsOperatorChar(e[|e| - 1]);
    assert '.' in LastRun(e);
  }

  /** A digit, an operator and a digit start a new run, which takes a dot. */
  lemma NewRunDotExample(a: char, o: char, b: char)
    requires IsDigitChar(a) && IsOperatorChar(o) && IsDigitChar(b)
    ensures Accept([a, o, b], ".", "") == [a, o, b, '.']
  {
    var e := [a, o, b];
    DotRule(e, "");
    assert e[..|e| - 1] == [a, o];
    assert LastRun([a, o]) == [];
    assert LastRun(e) == [b];
  }

  // ---------------------------------------------------------------------
  // The shape of the expression string

  lemma {:induction false} AppendDotFree(e: string, d: string)
    requires OneDotPerRun(e)
    requires forall i :: 0 <= i < |d| ==> d[i] != '.'
    ensures OneDotPerRun(e + d)
    decreases |d|
  {
    if d != [] {
      var d' := d[..|d| - 1];
      AppendDotFree(e, d');
      var ed := e + d;
      assert ed[..|ed| - 1] == e + d';
      assert OneDotPerRun(ed[..|ed| - 1]);
      assert ed[|ed| - 1] == d[|d| - 1] != '.';
    } else {
      assert e + d == e;
    }
  }

  /** Only digits, operators and dots ever enter the expression; `(`, `)` and `=` never do. */
  lemma AcceptKeepsAlphabet(expr: string, sign: string, lastDetected: string)
    requires InAlphabet(expr)
    ensures InAlphabet(Accept(expr, sign, lastDetected))
  {
    var r := Accept(expr, sign, lastDetected);
    if sign == DeleteSign {
      assert forall i :: 0 <= i < |r| ==> r[i] == expr[i];
    } else if r != expr {
      if IsOperator(sign) {
        OperatorSignChars(sign);
      }
      assert forall i :: 0 <= i < |sign| ==> r[|expr| + i] == sign[i];
    }
  }

  /** Appending one operator character after a non-operator keeps the expression well formed. */
  lemma AppendOperatorKeepsWellFormed(expr: string, o: char)
    requires WellFormed(expr) && IsOperatorChar(o)
    requires expr != "" && !IsOperatorChar(expr[|expr| - 1])
    ensures WellFormed(expr + [o])
  {
    var r := expr + [o];
    assert r[..|r| - 1] == expr;
    assert forall i :: 0 <= i < |expr| ==> r[i] == expr[i];
  }

  /** Appending a non-operator character of the alphabet keeps the character-level shape. */
  lemma AppendOperandKeepsShape(expr: string, ch: char)
    requires InAlphabet(expr) && NoAdjacentOperators(expr) && (expr != "" ==> !IsOperatorChar(expr[0]))
    requires IsDigitChar(ch) || ch == '.'
    ensures InAlphabet(expr + [ch]) && NoAdjacentOperators(expr + [ch])
    ensures !IsOperatorChar((expr + [ch])[0])
  {
    var r := expr + [ch];
    forall i | 0 <= i < |expr| ensures r[i] == expr[i] {
    }
  }

  /** Appending a dot while the trailing run holds none keeps the expression well formed. */
  lemma AppendDotKeepsWellFormed(expr: string)
    requires WellFormed(expr) && '.' !in LastRun(expr)
    ensures WellFormed(expr + ".")
  {
    var r := expr + ".";
    assert r == expr + ['.'];
    AppendOperandKeepsShape(expr, '.');
    assert r[..|r| - 1] == expr;
  }

  /** Appending digits keeps the expression well formed. */
  lemma AppendDigitsKeepsWellFormed(expr: string, d: string)
    requires WellFormed(expr) && IsDigits(d)
    ensures WellFormed(expr + d)
  {
    var r := expr + d;
    AppendDotFree(expr, d);
    assert InAlphabet(r) by {
      forall i | 0 <= i < |r| ensures IsDigitChar(r[i]) || IsOperatorChar(r[i]) || r[i] == '.' {
        if i < |expr| {
          assert r[i] == expr[i];
        } else {
          assert r[i] == d[i - |expr|];
        }
      }
    }
    assert NoAdjacentOperators(r) by {
      forall i | 0 <= i < |r| - 1 ensures !(IsOperatorChar(r[i]) && IsOperatorChar(r[i + 1])) {
        if i < |expr| - 1 {
          assert r[i] == expr[i] && r[i + 1] == expr[i + 1];
        } else {
          assert r[i + 1] == d[i + 1 - |expr|];
        }
      }
    }
    assert r != "" ==> !IsOperatorChar(r[0]) by {
      if expr == "" {
        assert r[0] == d[0];
      } else {
        assert r[0] == expr[0];
      }
    }
  }

  /** A prefix of a well-formed expression, such as the one the delete branch leaves, is well formed. */
  lemma DropLastKeepsWellFormed(expr: string)
    requires WellFormed(expr)
    ensures WellFormed(DropLast(expr))
  {
    if expr != "" {
      var r := DropLast(expr);
      assert forall i :: 0 <= i < |r| ==> r[i] == expr[i];
    }
  }

  /**
   * Accepting a frame keeps the expression well formed: it never starts with
   * an operator, never holds two operators in a row and never holds two dots
   * in one numeric run. A multi-character operator sign such as "+-" would
   * break this; no recognizer label is one.
   */
  lemma AcceptKeepsWellFormed(expr: string, sign: string, lastDetected: string)
    requires WellFormed(expr)
    requires NotOperatorRun(sign)
    ensures WellFormed(Accept(expr, sign, lastDetected))
  {
    var r := Accept(expr, sign, lastDetected);
    if sign == DeleteSign {
      DropLastKeepsWellFormed(expr);
    } else if r != expr {
      if IsOperator(sign) {
        OperatorSignChars(sign);
        assert sign == [sign[0]];
        AppendOperatorKeepsWellFormed(expr, sign[0]);
      } else if sign == "." {
        SingleCharOperator('.');
        AppendDotKeepsWellFormed(expr);
      } else {
        AppendDigitsKeepsWellFormed(expr, sign);
      }
    }
  }

  /** A multi-character operator sign such as "+-" would put two operators in a row. */
  lemma OperatorRunBreaksWellFormed()
    ensures WellFormed("5")
    ensures Accept("5", "+-", "") == "5+-"
    ensures !WellFormed("5+-")
  {
    assert "+-*/"[..2] == "+-";
    assert IsOperator("+-");
    assert PassesGuard("+-") by {
      assert "+-"[0] == '+' && "+-"[1] == '-';
    }
    assert OneDotPerRun("5") by {
      assert "5"[..0] == "";
    }
    var r := "5+-";
    assert IsOperatorChar(r[1]) && IsOperatorChar(r[2]);
  }

  /**
   * Two dots of a well-formed expression always have an operator between
   * them: each numeric run holds at most one dot.
   */
  lemma {:induction false} DotsSeparatedByOperator(e: string, i: nat, j: nat)
    requires OneDotPerRun(e)
    requires i < j < |e| && e[i] == '.' && e[j] == '.'
    ensures exists k :: i < k < j && IsOperatorChar(e[k])
    decreases |e|
  {
    var p := e[..|e| - 1];
    if j < |e| - 1 {
      DotsSeparatedByOperator(p, i, j);
      var k :| i < k < j && IsOperatorChar(p[k]);
      assert e[k] == p[k];
    } else {
      var q := LastRun(p);
      assert '.' !in q;
      assert forall m :: |p| - |q| <= m < |p| ==> p[m] == q[m - (|p| - |q|)];
      assert i < |p| - |q|;
      var k := |p| - |q| - 1;
      assert IsOperatorChar(e[k]);
    }
  }

  /** A well-formed expression that passes the evaluation guard has operands around every operator. */
  lemma EvaluatedExpressionShape(e: string, k: int)
    requires WellFormed(e) && EvaluationAttempted(e)
    requires 0 <= k < |e| && IsOperatorChar(e[k])
    ensures 0 < k < |e| - 1
    ensures !IsOperatorChar(e[k - 1]) && !IsOperatorChar(e[k + 1])
  {
  }
}
