/**
 * The infix calculator of averenkov.eugene/S2/main.cpp: a tokenizer, a
 * shunting-yard converter from infix to postfix, and a postfix evaluator on
 * `long long` with overflow guards. The operator stack, the evaluation
 * stack and the output queue are sequences whose last element is the top
 * (for the stacks) and whose first element is the front (for the queue).
 */
module Expression {
  import opened Wrappers
  import opened CppInt

  // ---------------------------------------------------------------------
  // Characters

  /** std::isspace in the "C" locale. */
  predicate IsSpace(c: char)
  {
    c == ' ' || c == '\t' || c == '\n' || c == '\U{000B}' || c == '\U{000C}' || c == '\r'
  }

  /** std::isdigit. */
  predicate IsDigit(c: char)
  {
    '0' <= c <= '9'
  }

  /** isOperator. */
  predicate IsOperator(c: char)
  {
    c == '+' || c == '-' || c == '*' || c == '/' || c == '%'
  }

  /** precedenceFirst: whether the operator `first` on the stack is output before `second` is pushed. */
  function PrecedenceFirst(first: char, second: char): bool
  {
    !((first == '+' || first == '-') && (second == '*' || second == '/' || second == '%'))
  }

  /** The binding strength of an operator: multiplicative above additive. */
  function Rank(c: char): nat
  {
    if c == '*' || c == '/' || c == '%' then 2 else 1
  }

  /** The stacked operator goes first exactly when it binds at least as tightly: equal ranks pop, so operators associate to the left. */
  lemma PrecedenceByRank(first: char, second: char)
    requires IsOperator(first) && IsOperator(second)
    ensures PrecedenceFirst(first, second) <==> Rank(first) >= Rank(second)
  {
  }

  // ---------------------------------------------------------------------
  // Overflow of a product

  /** isOverflow: whether a * b leaves the range of `long long`, decided with truncating divisions of the limits. */
  function IsOverflow(a: int, b: int): bool
  {
    if a == 0 || b == 0 then false
    else if a > 0 then
      if b > 0 then a > TruncDiv(LLONG_MAX, b) else b < TruncDiv(LLONG_MIN, a)
    else
      if b > 0 then a < TruncDiv(LLONG_MIN, b) else a < TruncDiv(LLONG_MAX, b)
  }

  /** isOverflow is exact: it holds precisely when the mathematical product is not a `long long`. */
  lemma IsOverflowExact(a: Long, b: Long)
    ensures a == 0 || b == 0 ==> !IsOverflow(a, b)
    ensures IsOverflow(a, b) <==> !IsLong(a * b)
  {
    if a == 0 || b == 0 {
    } else if a > 0 && b > 0 {
      OverflowBothPositive(a, b);
    } else if a > 0 {
      OverflowMixedSigns(a, b);
    } else if b > 0 {
      OverflowMixedSigns(b, a);
      assert a * b == b * a;
    } else {
      OverflowBothNegative(a, b);
    }
  }

  lemma OverflowBothPositive(a: int, b: int)
    requires a > 0 && b > 0
    ensures a > TruncDiv(LLONG_MAX, b) <==> !IsLong(a * b)
  {
    assert TruncDiv(LLONG_MAX, b) == LLONG_MAX / b;
    AboveQuotient(a, LLONG_MAX, b);
    MulMonotone(0, a, b);
  }

  /** The two mixed-sign branches of isOverflow: p is the positive operand, n the negative one. */
  lemma OverflowMixedSigns(p: int, n: int)
    requires p > 0 && n < 0
    ensures n < TruncDiv(LLONG_MIN, p) <==> !IsLong(p * n)
  {
    var lo: nat := -LLONG_MIN;
    assert TruncDiv(LLONG_MIN, p) == -(lo / p);
    var m: int := -n;
    AboveQuotient(m, lo, p);
    assert m * p == -(p * n);
    MulMonotone(n, 0, p);
  }

  lemma OverflowBothNegative(a: int, b: int)
    requires a < 0 && b < 0
    ensures a < TruncDiv(LLONG_MAX, b) <==> !IsLong(a * b)
  {
    var na: int, nb: int := -a, -b;
    assert TruncDiv(LLONG_MAX, b) == -(LLONG_MAX / nb);
    AboveQuotient(na, LLONG_MAX, nb);
    assert na * nb == a * b;
    MulMonotone(0, na, nb);
  }

  // ---------------------------------------------------------------------
  // Tokens

  predicate IsTokenChar(c: char)
  {
    IsOperator(c) || c == '(' || c == ')' || IsDigit(c)
  }

  /** What readToken can return besides "": one operator or parenthesis, or a run of digits. */
  predicate IsToken(t: string)
  {
    (|t| == 1 && (IsOperator(t[0]) || t[0] == '(' || t[0] == ')'))
    || (|t| > 0 && forall i :: 0 <= i < |t| ==> IsDigit(t[i]))
  }

  /** The first position at or after pos that is not whitespace. */
  function SkipSpaces(s: string, pos: nat): (j: nat)
    ensures pos <= j && (j == pos || j <= |s|)
    ensures forall i :: pos <= i < j ==> IsSpace(s[i])
    ensures j < |s| ==> !IsSpace(s[j])
    decreases |s| - pos
  {
    if pos < |s| && IsSpace(s[pos]) then SkipSpaces(s, pos + 1) else pos
  }

  /** The end of the run of digits that starts at pos. */
  function DigitEnd(s: string, pos: nat): (e: nat)
    ensures pos <= e && (e == pos || e <= |s|)
    ensures forall i :: pos <= i < e ==> IsDigit(s[i])
    ensures e < |s| ==> !IsDigit(s[e])
    decreases |s| - pos
  {
    if pos < |s| && IsDigit(s[pos]) then DigitEnd(s, pos + 1) else pos
  }

  /**
   * What readToken returns for position pos: the token and the position
   * after it. Whitespace is skipped; at the end of the input the token is "".
   */
  function ReadTokenSpec(s: string, pos: nat): (r: Result<(string, nat)>)
    ensures r.Ok? ==> pos <= r.value.1 && (pos <= |s| ==> r.value.1 <= |s|)
    ensures r.Ok? && r.value.0 == [] ==> r.value.1 >= |s|
    ensures r.Ok? && r.value.0 != [] ==> r.value.1 > pos
    ensures r.Err? ==> r.message == "Error"
  {
    var j := SkipSpaces(s, pos);
    if j >= |s| then Ok(([], j))
    else if IsOperator(s[j]) || s[j] == '(' || s[j] == ')' then Ok(([s[j]], j + 1))
    else
      var e := DigitEnd(s, j);
      if e == j then Err("Error") else Ok((s[j..e], e))
  }

  /** readToken, which advances its by-reference position with two loops. */
  method ReadToken(s: string, start: nat) returns (r: Result<(string, nat)>)
    ensures r == ReadTokenSpec(s, start)
  {
    var pos := start;
    while pos < |s| && IsSpace(s[pos])
      invariant start <= pos && SkipSpaces(s, pos) == SkipSpaces(s, start)
      decreases |s| - pos
    {
      pos := pos + 1;
    }
    if pos >= |s| {
      return Ok(([], pos));
    }
    if IsOperator(s[pos]) || s[pos] == '(' || s[pos] == ')' {
      return Ok(([s[pos]], pos + 1));
    }
    var num: string := [];
    var first := pos;
    while pos < |s| && IsDigit(s[pos])
      invariant first <= pos <= |s| && num == s[first..pos] && DigitEnd(s, pos) == DigitEnd(s, first)
      decreases |s| - pos
    {
      num := num + [s[pos]];
      pos := pos + 1;
    }
    if num == [] {
      return Err("Error");
    }
    return Ok((num, pos));
  }

  function Prepend(t: string, r: Result<seq<string>>): Result<seq<string>>
  {
    if r.Ok? then Ok([t] + r.value) else r
  }

  /** The tokens infixToPostfix reads from pos on, stopping at the first error or at the end of the input. */
  function TokenizeFrom(s: string, pos: nat): Result<seq<string>>
    decreases |s| - pos
  {
    if pos >= |s| then Ok([])
    else
      match ReadTokenSpec(s, pos)
      case Err(e) => Err(e)
      case Ok(read) =>
        if read.0 == [] then Ok([]) else Prepend(read.0, TokenizeFrom(s, read.1))
  }

  function Tokenize(s: string): Result<seq<string>>
  {
    TokenizeFrom(s, 0)
  }

  /** The characters of s that are not whitespace. */
  function NonSpace(s: string): string
  {
    if s == [] then [] else (if IsSpace(s[0]) then [] else [s[0]]) + NonSpace(s[1..])
  }

  function Flatten(ts: seq<string>): string
  {
    if ts == [] then [] else ts[0] + Flatten(ts[1..])
  }

  lemma {:induction false} NonSpaceAppend(a: string, b: string)
    ensures NonSpace(a + b) == NonSpace(a) + NonSpace(b)
  {
    if a == [] {
      assert a + b == b;
    } else {
      assert (a + b)[1..] == a[1..] + b;
      NonSpaceAppend(a[1..], b);
    }
  }

  lemma {:induction false} NonSpaceOfSpaces(a: string)
    requires forall i :: 0 <= i < |a| ==> IsSpace(a[i])
    ensures NonSpace(a) == []
  {
    if a != [] {
      NonSpaceOfSpaces(a[1..]);
    }
  }

  lemma {:induction false} NonSpaceOfDigits(a: string)
    requires forall i :: 0 <= i < |a| ==> IsDigit(a[i])
    ensures NonSpace(a) == a
  {
    if a != [] {
      NonSpaceOfDigits(a[1..]);
    }
  }

  /** One readToken call consumes whitespace and then exactly its token. */
  lemma ReadTokenCovers(s: string, pos: nat)
    requires pos < |s|
    ensures var r := ReadTokenSpec(s, pos);
      (r.Ok? && r.value.0 == [] ==> NonSpace(s[pos..]) == [])
      && (r.Ok? && r.value.0 != [] ==> NonSpace(s[pos..]) == r.value.0 + NonSpace(s[r.value.1..]) && IsToken(r.value.0))
      && (r.Err? ==> !IsSpace(s[SkipSpaces(s, pos)]) && !IsTokenChar(s[SkipSpaces(s, pos)]))
  {
    var j := SkipSpaces(s, pos);
    SkipCovers(s, pos);
    if j >= |s| {
      assert s[j..] == [];
    } else if IsOperator(s[j]) || s[j] == '(' || s[j] == ')' {
      assert s[j..] == [s[j]] + s[j + 1..];
      NonSpaceAppend([s[j]], s[j + 1..]);
    } else if DigitEnd(s, j) != j {
      DigitsCover(s, j);
    }
  }

  /** The whitespace readToken skips adds nothing to the characters left. */
  lemma SkipCovers(s: string, pos: nat)
    requires pos < |s|
    ensures NonSpace(s[pos..]) == NonSpace(s[SkipSpaces(s, pos)..])
  {
    var j := SkipSpaces(s, pos);
    assert s[pos..] == s[pos..j] + s[j..];
    NonSpaceAppend(s[pos..j], s[j..]);
    NonSpaceOfSpaces(s[pos..j]);
  }

  /** A run of digits is kept whole by NonSpace. */
  lemma DigitsCover(s: string, j: nat)
    requires j < |s| && DigitEnd(s, j) != j
    ensures NonSpace(s[j..]) == s[j..DigitEnd(s, j)] + NonSpace(s[DigitEnd(s, j)..])
    ensures IsToken(s[j..DigitEnd(s, j)])
  {
    var e := DigitEnd(s, j);
    assert s[j..] == s[j..e] + s[e..];
    NonSpaceAppend(s[j..e], s[e..]);
    NonSpaceOfDigits(s[j..e]);
  }

  /**
   * The tokens cover the input: their concatenation is the input without its
   * whitespace, and each is an operator, a parenthesis or a digit run. An
   * error means the input holds a character that can start no token.
   */
  lemma {:induction false} TokenizeCovers(s: string, pos: nat)
    requires pos <= |s|
    ensures TokenizeFrom(s, pos).Ok? ==>
              Flatten(TokenizeFrom(s, pos).value) == NonSpace(s[pos..])
              && forall i :: 0 <= i < |TokenizeFrom(s, pos).value| ==> IsToken(TokenizeFrom(s, pos).value[i])
    ensures TokenizeFrom(s, pos).Err? ==> exists i :: pos <= i < |s| && !IsSpace(s[i]) && !IsTokenChar(s[i])
    decreases |s| - pos
  {
    if pos < |s| {
      ReadTokenCovers(s, pos);
      var r := ReadTokenSpec(s, pos);
      if r.Err? {
        var j := SkipSpaces(s, pos);
        assert pos <= j < |s| && !IsSpace(s[j]) && !IsTokenChar(s[j]);
      } else if r.value.0 != [] {
        TokenizeCovers(s, r.value.1);
        PrependTokens(r.value.0, TokenizeFrom(s, r.value.1));
      }
    }
  }

  lemma PrependTokens(t: string, r: Result<seq<string>>)
    ensures Prepend(t, r).Ok? <==> r.Ok?
    ensures r.Ok? ==> Flatten(Prepend(t, r).value) == t + Flatten(r.value)
    ensures r.Ok? ==> forall i :: 1 <= i < |Prepend(t, r).value| ==> Prepend(t, r).value[i] == r.value[i - 1]
    ensures r.Ok? ==> Prepend(t, r).value[0] == t
  {
    if r.Ok? {
      assert ([t] + r.value)[1..] == r.value;
    }
  }

  // ---------------------------------------------------------------------
  // Infix to postfix

  /** An operand token: a digit first, or a '-' followed by more characters (the test infixToPostfix and evaluatePostfix both use). */
  predicate IsOperand(t: string)
  {
    t != [] && (IsDigit(t[0]) || (t[0] == '-' && |t| > 1))
  }

  function Last(ops: seq<char>): char
    requires ops != []
  {
    ops[|ops| - 1]
  }

  /** The loop for ')': output the operators above the nearest '(' and drop it; no '(' is an error. */
  function PopToParen(ops: seq<char>, out: seq<string>): (r: Result<(seq<char>, seq<string>)>)
    ensures r.Err? ==> r.message == "Error"
    decreases |ops|
  {
    if ops == [] then Err("Error")
    else if Last(ops) == '(' then Ok((ops[..|ops| - 1], out))
    else PopToParen(ops[..|ops| - 1], out + [[Last(ops)]])
  }

  /** The loop for an operator c: output the stacked operators that go first, down to the nearest '('. */
  function PopWhile(ops: seq<char>, out: seq<string>, c: char): (seq<char>, seq<string>)
    decreases |ops|
  {
    if ops != [] && Last(ops) != '(' && PrecedenceFirst(Last(ops), c) then
      PopWhile(ops[..|ops| - 1], out + [[Last(ops)]], c)
    else (ops, out)
  }

  /** The final loop: output the remaining operators; a '(' left over is an error. */
  function FlushOps(ops: seq<char>, out: seq<string>): Result<seq<string>>
    decreases |ops|
  {
    if ops == [] then Ok(out)
    else if Last(ops) == '(' then Err("Error")
    else FlushOps(ops[..|ops| - 1], out + [[Last(ops)]])
  }

  /** What one iteration of infixToPostfix's main loop does with a token. */
  function Step(t: string, ops: seq<char>, out: seq<string>): (r: Result<(seq<char>, seq<string>)>)
    ensures r.Err? ==> r.message == "Error"
  {
    if t == [] then Ok((ops, out))
    else if IsOperand(t) then Ok((ops, out + [t]))
    else if t == "(" then Ok((ops + ['('], out))
    else if t == ")" then PopToParen(ops, out)
    else if IsOperator(t[0]) then
      var (o, u) := PopWhile(ops, out, t[0]);
      Ok((o + [t[0]], u))
    else Err("Error")
  }

  /** The conversion of the remaining tokens, given the operator stack and the output so far. */
  function ShuntFrom(ts: seq<string>, ops: seq<char>, out: seq<string>): Result<seq<string>>
    decreases |ts|
  {
    if ts == [] then FlushOps(ops, out)
    else
      match Step(ts[0], ops, out)
      case Err(e) => Err(e)
      case Ok(next) => ShuntFrom(ts[1..], next.0, next.1)
  }

  function Resume(r: Result<seq<string>>, ops: seq<char>, out: seq<string>): Result<seq<string>>
  {
    if r.Err? then Err("Error") else ShuntFrom(r.value, ops, out)
  }

  /** The queue infixToPostfix returns for an infix string. */
  function Postfix(infix: string): Result<seq<string>>
  {
    Resume(Tokenize(infix), [], [])
  }

  lemma ResumeStep(t: string, r: Result<seq<string>>, ops: seq<char>, out: seq<string>)
    ensures Step(t, ops, out).Err? ==> Resume(Prepend(t, r), ops, out) == Err("Error")
    ensures Step(t, ops, out).Ok? ==>
              Resume(Prepend(t, r), ops, out) == Resume(r, Step(t, ops, out).value.0, Step(t, ops, out).value.1)
  {
    if r.Ok? {
      assert ([t] + r.value)[0] == t && ([t] + r.value)[1..] == r.value;
    }
  }

  /** infixToPostfix: read tokens one at a time and move them between the operator stack and the output queue. */
  method InfixToPostfix(infix: string) returns (r: Result<seq<string>>)
    ensures r == Postfix(infix)
  {
    var ops: seq<char> := [];
    var out: seq<string> := [];
    var pos: nat := 0;
    while pos < |infix|
      invariant Postfix(infix) == Resume(TokenizeFrom(infix, pos), ops, out)
      decreases |infix| - pos
    {
      var read := ReadToken(infix, pos);
      if read.Err? {
        return Err("Error");
      }
      var token := read.value.0;
      if token != [] {
        assert TokenizeFrom(infix, pos) == Prepend(token, TokenizeFrom(infix, read.value.1));
        ResumeStep(token, TokenizeFrom(infix, read.value.1), ops, out);
      }
      ghost var ops0, out0 := ops, out;
      pos := read.value.1;
      if token == [] {
        continue;
      }
      if IsOperand(token) {
        out := out + [token];
      } else if token == "(" {
        ops := ops + ['('];
      } else if token == ")" {
        while ops != [] && Last(ops) != '('
          invariant PopToParen(ops, out) == PopToParen(ops0, out0)
          decreases |ops|
        {
          out := out + [[Last(ops)]];
          ops := ops[..|ops| - 1];
        }
        if ops == [] {
          return Err("Error");
        }
        ops := ops[..|ops| - 1];
      } else if IsOperator(token[0]) {
        while ops != [] && Last(ops) != '(' && PrecedenceFirst(Last(ops), token[0])
          invariant PopWhile(ops, out, token[0]) == PopWhile(ops0, out0, token[0])
          decreases |ops|
        {
          out := out + [[Last(ops)]];
          ops := ops[..|ops| - 1];
        }
        ops := ops + [token[0]];
      } else {
        return Err("Error");
      }
    }
    while ops != []
      invariant Postfix(infix) == FlushOps(ops, out)
      decreases |ops|
    {
      if Last(ops) == '(' {
        return Err("Error");
      }
      out := out + [[Last(ops)]];
      ops := ops[..|ops| - 1];
    }
    return Ok(out);
  }

  // ---------------------------------------------------------------------
  // What the conversion keeps

  /** The operator stack holds only '(' and operators. */
  ghost predicate OpsOk(ops: seq<char>)
  {
    forall i :: 0 <= i < |ops| ==> ops[i] == '(' || IsOperator(ops[i])
  }

  /** Every output token is an operand or a one-character operator: no parenthesis reaches the queue. */
  ghost predicate PostfixShape(out: seq<string>)
  {
    forall i :: 0 <= i < |out| ==> IsOperand(out[i]) || (|out[i]| == 1 && IsOperator(out[i][0]))
  }

  /** The number of '(' on the operator stack. */
  function Opens(ops: seq<char>): nat
  {
    if ops == [] then 0 else Opens(ops[..|ops| - 1]) + (if Last(ops) == '(' then 1 else 0)
  }

  /** The operand tokens of ts, in order. */
  function Operands(ts: seq<string>): seq<string>
  {
    if ts == [] then [] else (if IsOperand(ts[0]) then [ts[0]] else []) + Operands(ts[1..])
  }

  /** Whether the parentheses of ts close properly when d are already open. */
  function ParensOk(ts: seq<string>, d: nat): bool
  {
    if ts == [] then d == 0
    else if ts[0] == "(" then ParensOk(ts[1..], d + 1)
    else if ts[0] == ")" then d > 0 && ParensOk(ts[1..], d - 1)
    else ParensOk(ts[1..], d)
  }

  lemma {:induction false} OperandsAppend(a: seq<string>, b: seq<string>)
    ensures Operands(a + b) == Operands(a) + Operands(b)
  {
    if a == [] {
      assert a + b == b;
    } else {
      assert (a + b)[1..] == a[1..] + b;
      OperandsAppend(a[1..], b);
    }
  }

  /** Moving an operator c from the stack to the output. */
  lemma MoveOperator(ops: seq<char>, out: seq<string>)
    requires ops != [] && OpsOk(ops) && Last(ops) != '('
    ensures OpsOk(ops[..|ops| - 1]) && Opens(ops[..|ops| - 1]) == Opens(ops)
    ensures Operands(out + [[Last(ops)]]) == Operands(out)
    ensures PostfixShape(out) ==> PostfixShape(out + [[Last(ops)]])
  {
    OperandsAppend(out, [[Last(ops)]]);
    assert Operands([[Last(ops)]]) == [];
  }

  lemma {:induction false} PopToParenKeeps(ops: seq<char>, out: seq<string>)
    requires OpsOk(ops)
    ensures PopToParen(ops, out).Err? <==> Opens(ops) == 0
    ensures PopToParen(ops, out).Ok? ==>
              var (o, u) := PopToParen(ops, out).value;
              OpsOk(o) && Opens(o) == Opens(ops) - 1 && Operands(u) == Operands(out)
              && (PostfixShape(out) ==> PostfixShape(u))
    decreases |ops|
  {
    if ops != [] && Last(ops) != '(' {
      MoveOperator(ops, out);
      PopToParenKeeps(ops[..|ops| - 1], out + [[Last(ops)]]);
    }
  }

  lemma {:induction false} PopWhileKeeps(ops: seq<char>, out: seq<string>, c: char)
    requires OpsOk(ops)
    ensures var (o, u) := PopWhile(ops, out, c);
      OpsOk(o) && Opens(o) == Opens(ops) && Operands(u) == Operands(out)
      && (PostfixShape(out) ==> PostfixShape(u))
    decreases |ops|
  {
    if ops != [] && Last(ops) != '(' && PrecedenceFirst(Last(ops), c) {
      MoveOperator(ops, out);
      PopWhileKeeps(ops[..|ops| - 1], out + [[Last(ops)]], c);
    }
  }

  lemma {:induction false} FlushOpsKeeps(ops: seq<char>, out: seq<string>)
    requires OpsOk(ops)
    ensures FlushOps(ops, out).Err? <==> Opens(ops) > 0
    ensures FlushOps(ops, out).Ok? ==>
              Operands(FlushOps(ops, out).value) == Operands(out)
              && (PostfixShape(out) ==> PostfixShape(FlushOps(ops, out).value))
    decreases |ops|
  {
    if ops != [] && Last(ops) != '(' {
      MoveOperator(ops, out);
      FlushOpsKeeps(ops[..|ops| - 1], out + [[Last(ops)]]);
    }
  }

  /** One token of a well-formed input keeps the stack clean and moves operands to the output in order. */
  lemma StepKeeps(t: string, ops: seq<char>, out: seq<string>)
    requires IsToken(t) && OpsOk(ops)
    ensures Step(t, ops, out).Err? <==> t == ")" && Opens(ops) == 0
    ensures Step(t, ops, out).Ok? ==>
              var (o, u) := Step(t, ops, out).value;
              OpsOk(o) && Operands(u) == Operands(out) + Operands([t])
              && Opens(o) == (if t == "(" then Opens(ops) + 1 else if t == ")" then Opens(ops) - 1 else Opens(ops))
              && (PostfixShape(out) ==> PostfixShape(u))
  {
    assert Operands([t]) == (if IsOperand(t) then [t] else []);
    if IsOperand(t) {
      OperandsAppend(out, [t]);
    } else if t == "(" {
      assert (ops + ['('])[..|ops|] == ops;
    } else if t == ")" {
      PopToParenKeeps(ops, out);
    } else {
      PopWhileKeeps(ops, out, t[0]);
      var (o, u) := PopWhile(ops, out, t[0]);
      assert (o + [t[0]])[..|o|] == o;
    }
  }

  /**
   * The conversion of well-formed tokens fails exactly when their
   * parentheses do not match; when it succeeds the operands come out in
   * their input order and no parenthesis is output.
   */
  lemma {:induction false} ShuntKeeps(ts: seq<string>, ops: seq<char>, out: seq<string>)
    requires OpsOk(ops) && forall i :: 0 <= i < |ts| ==> IsToken(ts[i])
    ensures ShuntFrom(ts, ops, out).Ok? <==> ParensOk(ts, Opens(ops))
    ensures ShuntFrom(ts, ops, out).Ok? ==>
              Operands(ShuntFrom(ts, ops, out).value) == Operands(out) + Operands(ts)
              && (PostfixShape(out) ==> PostfixShape(ShuntFrom(ts, ops, out).value))
    decreases |ts|
  {
    if ts == [] {
      FlushOpsKeeps(ops, out);
    } else {
      var t := ts[0];
      StepKeeps(t, ops, out);
      assert ts == [t] + ts[1..];
      OperandsAppend([t], ts[1..]);
      if Step(t, ops, out).Ok? {
        var (o, u) := Step(t, ops, out).value;
        ShuntKeeps(ts[1..], o, u);
      }
    }
  }

  /**
   * infixToPostfix fails exactly when a character starts no token or the
   * parentheses do not match; otherwise the operands keep their order and
   * the queue holds only operands and operators.
   */
  lemma PostfixCorrect(infix: string)
    ensures Tokenize(infix).Err? ==> Postfix(infix).Err? && exists i :: 0 <= i < |infix| && !IsSpace(infix[i]) && !IsTokenChar(infix[i])
    ensures Tokenize(infix).Ok? ==> (Postfix(infix).Ok? <==> ParensOk(Tokenize(infix).value, 0))
    ensures Postfix(infix).Ok? ==>
              Operands(Postfix(infix).value) == Operands(Tokenize(infix).value) && PostfixShape(Postfix(infix).value)
  {
    TokenizeCovers(infix, 0);
    if Tokenize(infix).Ok? {
      ShuntKeeps(Tokenize(infix).value, [], []);
    }
  }

  // ---------------------------------------------------------------------
  // Evaluation

  /** The value evaluatePostfix accumulates for a run of digits, `num * 10 + (c - '0')` per character, before any range check. */
  function Accumulate(t: string): int
  {
    if t == [] then 0 else Accumulate(t[..|t| - 1]) * 10 + (t[|t| - 1] as int - '0' as int)
  }

  function Pow10(n: nat): nat
  {
    if n == 0 then 1 else 10 * Pow10(n - 1)
  }

  /** A run of n digits accumulates to a decimal value below 10^n. */
  lemma {:induction false} AccumulateDigits(t: string)
    requires forall i :: 0 <= i < |t| ==> IsDigit(t[i])
    ensures 0 <= Accumulate(t) < Pow10(|t|)
  {
    if t != [] {
      AccumulateDigits(t[..|t| - 1]);
    }
  }

  /** An operand token's value: an optional '-' and then the accumulated digits. */
  function LiteralValue(t: string): int
    requires t != []
  {
    if t[0] == '-' then -Accumulate(t[1..]) else Accumulate(t)
  }

  /** The result the code computes for `a op b`, read over the mathematical integers. */
  function Exact(op: char, a: int, b: int): int
    requires IsOperator(op) && ((op == '/' || op == '%') ==> b != 0)
  {
    match op
    case '+' => a + b
    case '-' => a - b
    case '*' => a * b
    case '/' => TruncDiv(a, b)
    case _ => TruncMod(TruncMod(a, b) + b, b)
  }

  /** `a % b + b`, the intermediate sum the '%' case forms. */
  function ModSum(a: int, b: int): int
    requires b != 0
  {
    TruncMod(a, b) + b
  }

  /** The switch of evaluatePostfix as written: the guards the code has, over the mathematical integers. */
  function ApplyAsWritten(op: char, a: int, b: int): Result<int>
  {
    if op == '+' then
      if a > 0 && b > 0 && a > LLONG_MAX - b then Err("Overflow error") else Ok(a + b)
    else if op == '-' then
      if b > 0 && a < LLONG_MIN + b then Err("Overflow error") else Ok(a - b)
    else if op == '*' then
      if IsOverflow(a, b) then Err("Overflow error") else Ok(a * b)
    else if op == '/' then
      if b == 0 then Err("Division by zero") else Ok(TruncDiv(a, b))
    else if op == '%' then
      if b == 0 then Err("Error") else Ok(TruncMod(ModSum(a, b), b))
    else Err("Error")
  }

  /** The '+' and '-' guards as written each catch overflow on one side only. */
  lemma AsWrittenGuardsOneSide(a: Long, b: Long)
    ensures ApplyAsWritten('+', a, b).Err? <==> a + b > LLONG_MAX
    ensures ApplyAsWritten('-', a, b).Err? <==> a - b < LLONG_MIN
    ensures ApplyAsWritten('*', a, b).Err? <==> !IsLong(a * b)
  {
    assert ApplyAsWritten('+', a, b).Err? <==> (a > 0 && b > 0 && a > LLONG_MAX - b);
    assert ApplyAsWritten('-', a, b).Err? <==> (b > 0 && a < LLONG_MIN + b);
    IsOverflowExact(a, b);
  }

  lemma AddMissesNegativeOverflow()
    ensures ApplyAsWritten('+', -LLONG_MAX, -LLONG_MAX) == Ok(-2 * LLONG_MAX)
    ensures !IsLong(-2 * LLONG_MAX)
  {
  }

  lemma SubMissesNegativeSubtrahend()
    ensures ApplyAsWritten('-', 1, -LLONG_MAX) == Ok(LLONG_MAX + 1)
    ensures !IsLong(LLONG_MAX + 1)
  {
  }

  lemma DivMissesMinByMinusOne()
    ensures ApplyAsWritten('/', LLONG_MIN, -1) == Ok(LLONG_MAX + 1)
  {
  }

  /**
   * '%' as written on LLONG_MIN and -1: C++ defines `a % b` only when
   * `a / b` is a `long long`, and here the quotient is LLONG_MAX + 1, so the
   * first step of `(a % b + b) % b` is already undefined; read over the
   * mathematical integers it would be 0.
   */
  lemma ModMinByMinusOneUndefined()
    ensures !IsLong(TruncDiv(LLONG_MIN, -1))
    ensures ApplyAsWritten('%', LLONG_MIN, -1) == Ok(0)
  {
  }

  lemma ModSumOverflows()
    ensures ModSum(1, LLONG_MAX) == LLONG_MAX + 1
    ensures ApplyAsWritten('%', 1, LLONG_MAX) == Ok(TruncMod(LLONG_MAX + 1, LLONG_MAX))
  {
  }

  lemma AccumulateSnoc(t: string, c: char)
    ensures Accumulate(t + [c]) == Accumulate(t) * 10 + (c as int - '0' as int)
  {
    assert (t + [c])[..|t|] == t;
  }

  /** The first nine digits of the literal one past LLONG_MAX. */
  lemma LiteralPrefix()
    ensures Accumulate("922337203") == 922337203
  {
    var t: string := "";
    AccumulateSnoc(t, '9'); t := t + ['9'];
    AccumulateSnoc(t, '2'); t := t + ['2'];
    AccumulateSnoc(t, '2'); t := t + ['2'];
    AccumulateSnoc(t, '3'); t := t + ['3'];
    AccumulateSnoc(t, '3'); t := t + ['3'];
    AccumulateSnoc(t, '7'); t := t + ['7'];
    AccumulateSnoc(t, '2'); t := t + ['2'];
    AccumulateSnoc(t, '0'); t := t + ['0'];
    AccumulateSnoc(t, '3'); t := t + ['3'];
    assert t == "922337203";
  }

  lemma LiteralOverflows()
    ensures Accumulate("9223372036854775808") == LLONG_MAX + 1
  {
    LiteralPrefix();
    var t: string := "922337203";
    AccumulateSnoc(t, '6'); t := t + ['6'];
    AccumulateSnoc(t, '8'); t := t + ['8'];
    AccumulateSnoc(t, '5'); t := t + ['5'];
    AccumulateSnoc(t, '4'); t := t + ['4'];
    AccumulateSnoc(t, '7'); t := t + ['7'];
    AccumulateSnoc(t, '7'); t := t + ['7'];
    AccumulateSnoc(t, '5'); t := t + ['5'];
    AccumulateSnoc(t, '8'); t := t + ['8'];
    AccumulateSnoc(t, '0'); t := t + ['0'];
    AccumulateSnoc(t, '8'); t := t + ['8'];
    assert t == "9223372036854775808";
  }

  /**
   * `(a % b + b) % b` computed without forming the sum: add b only to a
   * remainder whose sign differs from b's. A divisor of -1 leaves remainder
   * 0 without taking `a % b`, which C++ leaves undefined for LLONG_MIN.
   */
  function ModChecked(a: int, b: int): int
    requires b != 0
  {
    var m := if b == -1 then 0 else TruncMod(a, b);
    if m != 0 && (m < 0) != (b < 0) then m + b else m
  }

  /** The switch of evaluatePostfix with every guard exact: an error exactly when the result is not a `long long`. */
  function ApplyChecked(op: char, a: Long, b: Long): Result<Long>
  {
    if op == '+' then
      if (b > 0 && a > LLONG_MAX - b) || (b < 0 && a < LLONG_MIN - b) then Err("Overflow error") else Ok((a + b) as Long)
    else if op == '-' then
      if (b > 0 && a < LLONG_MIN + b) || (b < 0 && a > LLONG_MAX + b) then Err("Overflow error") else Ok((a - b) as Long)
    else if op == '*' then
      if IsOverflow(a, b) then Err("Overflow error") else IsOverflowExact(a, b); Ok((a * b) as Long)
    else if op == '/' then
      if b == 0 then Err("Division by zero")
      else if a == LLONG_MIN && b == -1 then Err("Overflow error")
      else DivInRange(a, b); Ok(TruncDiv(a, b))
    else if op == '%' then
      if b == 0 then Err("Error") else ModCheckedIsExact(a, b); Ok(ModChecked(a, b))
    else Err("Error")
  }

  /** A nonnegative quotient is at most the dividend, and at most half of it for a divisor of two or more. */
  lemma QuotientBound(n: nat, d: int)
    requires d >= 1
    ensures 0 <= n / d <= n
    ensures d >= 2 ==> 2 * (n / d) <= n
  {
    var q := n / d;
    assert n == d * q + n % d && 0 <= n % d;
    if q > 0 {
      MulMonotone(1, d, q);
      if d >= 2 {
        MulMonotone(2, d, q);
      }
    }
  }

  /** Quotients of a dividend below twice the divisor. */
  lemma SmallQuotient(n: nat, d: int)
    requires d >= 1
    ensures n < d ==> n / d == 0
    ensures d <= n < 2 * d ==> n / d == 1
  {
    var q := n / d;
    assert n == d * q + n % d && 0 <= n % d < d;
    if q >= 2 {
      MulMonotone(2, q, d);
    } else if q == 1 {
      assert d * q == d;
    } else {
      assert q == 0;
    }
  }

  lemma DivInRange(a: Long, b: Long)
    requires b != 0 && !(a == LLONG_MIN && b == -1)
    ensures IsLong(TruncDiv(a, b))
  {
    QuotientBound(Abs(a), Abs(b));
  }

  /** The sum-free remainder is the value `(a % b + b) % b` denotes, and it stays strictly between 0 and b. */
  lemma ModCheckedIsExact(a: int, b: int)
    requires b != 0
    ensures ModChecked(a, b) == TruncMod(TruncMod(a, b) + b, b)
    ensures Abs(ModChecked(a, b)) < Abs(b)
    ensures b > 0 ==> 0 <= ModChecked(a, b) < b
    ensures IsLong(b) ==> IsLong(ModChecked(a, b))
  {
    var m := TruncMod(a, b);
    TruncDivMod(a, b);
    var x := m + b;
    SmallQuotient(Abs(x), Abs(b));
    if m != 0 && (m < 0) != (b < 0) {
      assert Abs(x) < Abs(b);
      assert TruncDiv(x, b) == 0;
    } else {
      assert Abs(b) <= Abs(x) < 2 * Abs(b) && ((x < 0) == (b < 0));
      assert TruncDiv(x, b) == 1;
    }
  }

  /** The corrected '%' on LLONG_MIN and -1 gives remainder 0. */
  lemma ModMinByMinusOneChecked()
    ensures ApplyChecked('%', LLONG_MIN, -1) == Ok(0)
  {
  }

  /** The corrected guards are exact: the result is the mathematical one, and it is an error exactly when that is not a `long long`. */
  lemma ApplyCheckedExact(op: char, a: Long, b: Long)
    requires IsOperator(op)
    ensures (op == '/' && b == 0) ==> ApplyChecked(op, a, b) == Err("Division by zero")
    ensures (op == '%' && b == 0) ==> ApplyChecked(op, a, b) == Err("Error")
    ensures !((op == '/' || op == '%') && b == 0) ==>
              (ApplyChecked(op, a, b).Ok? <==> IsLong(Exact(op, a, b)))
              && (ApplyChecked(op, a, b).Ok? ==> ApplyChecked(op, a, b).value == Exact(op, a, b))
              && (ApplyChecked(op, a, b).Err? ==> ApplyChecked(op, a, b).message == "Overflow error")
  {
    if op == '*' {
      IsOverflowExact(a, b);
    } else if op == '%' && b != 0 {
      ModCheckedIsExact(a, b);
    }
  }

  /** evaluatePostfix on the rest of the queue with the given evaluation stack. */
  function Eval(ts: seq<string>, stack: seq<Long>): Result<Long>
    decreases |ts|
  {
    if ts == [] then
      if |stack| != 1 then Err("Expression error") else Ok(stack[0])
    else
      var t := ts[0];
      if IsOperand(t) then
        var v := LiteralValue(t);
        if !IsLong(v) then Err("Overflow error") else Eval(ts[1..], stack + [v])
      else if t != [] && IsOperator(t[0]) then
        if |stack| < 2 then Err("Error")
        else
          match ApplyChecked(t[0], stack[|stack| - 2], stack[|stack| - 1])
          case Err(e) => Err(e)
          case Ok(v) => Eval(ts[1..], stack[..|stack| - 2] + [v])
      else Err("Invalid token")
  }

  /** The stack discipline of a postfix queue: each operator finds two operands and exactly one value remains. */
  function Discipline(ts: seq<string>, n: nat): bool
  {
    if ts == [] then n == 1
    else if IsOperand(ts[0]) then Discipline(ts[1..], n + 1)
    else if ts[0] != [] && IsOperator(ts[0][0]) then n >= 2 && Discipline(ts[1..], n - 1)
    else false
  }

  /** evaluatePostfix succeeds only on a queue that keeps the stack discipline. */
  lemma {:induction false} EvalNeedsDiscipline(ts: seq<string>, stack: seq<Long>)
    ensures Eval(ts, stack).Ok? ==> Discipline(ts, |stack|)
    decreases |ts|
  {
    if ts != [] {
      var t := ts[0];
      if IsOperand(t) && IsLong(LiteralValue(t)) {
        EvalNeedsDiscipline(ts[1..], stack + [LiteralValue(t)]);
      } else if !IsOperand(t) && t != [] && IsOperator(t[0]) && |stack| >= 2 {
        var r := ApplyChecked(t[0], stack[|stack| - 2], stack[|stack| - 1]);
        if r.Ok? {
          EvalNeedsDiscipline(ts[1..], stack[..|stack| - 2] + [r.value]);
        }
      }
    }
  }

  /** evaluatePostfix: pop tokens from the front of the queue and evaluate them on a stack. */
  method EvaluatePostfix(queue: seq<string>) returns (r: Result<Long>)
    ensures r == Eval(queue, [])
  {
    var stack: seq<Long> := [];
    var q := queue;
    while q != []
      invariant Eval(queue, []) == Eval(q, stack)
      decreases |q|
    {
      var token := q[0];
      q := q[1..];
      if IsOperand(token) {
        var num := 0;
        var negative := false;
        var i := 0;
        if token[0] == '-' {
          negative := true;
          i := 1;
        }
        var first := i;
        while i < |token|
          invariant first <= i <= |token| && num == Accumulate(token[first..i])
          decreases |token| - i
        {
          assert token[first..i + 1][..i - first] == token[first..i];
          num := num * 10 + (token[i] as int - '0' as int);
          i := i + 1;
        }
        assert token[first..] == token[first..i];
        var v := if negative then -num else num;
        if !IsLong(v) {
          return Err("Overflow error");
        }
        stack := stack + [v];
      } else if token != [] && IsOperator(token[0]) {
        if |stack| < 2 {
          return Err("Error");
        }
        var b := stack[|stack| - 1];
        var a := stack[|stack| - 2];
        var result := ApplyChecked(token[0], a, b);
        if result.Err? {
          return Err(result.message);
        }
        stack := stack[..|stack| - 2] + [result.value];
      } else {
        return Err("Invalid token");
      }
    }
    if |stack| != 1 {
      return Err("Expression error");
    }
    return Ok(stack[0]);
  }

  /** The conversion of a queue whose first token the loop accepts goes on with the rest of the queue. */
  lemma ShuntCons(q: seq<string>, ops: seq<char>, out: seq<string>, next: (seq<char>, seq<string>))
    requires q != [] && Step(q[0], ops, out) == Ok(next)
    ensures ShuntFrom(q, ops, out) == ShuntFrom(q[1..], next.0, next.1)
  {
  }

  /** Equal precedence pops: subtraction associates to the left. */
  lemma LeftAssociative()
    ensures ShuntFrom(["1", "-", "2", "-", "3"], [], []) == Ok(["1", "2", "-", "3", "-"])
  {
    var n: seq<char> := [];
    var e: seq<string> := [];
    assert ShuntFrom(["1", "-", "2", "-", "3"], n, e) == ShuntFrom(["-", "2", "-", "3"], n, ["1"]) by {
      assert e + ["1"] == ["1"];
      ShuntCons(["1", "-", "2", "-", "3"], n, e, (n, ["1"]));
      assert ["1", "-", "2", "-", "3"][1..] == ["-", "2", "-", "3"];
    }
    assert ShuntFrom(["-", "2", "-", "3"], n, ["1"]) == ShuntFrom(["2", "-", "3"], ['-'], ["1"]) by {
      assert n + ['-'] == ['-'];
      ShuntCons(["-", "2", "-", "3"], n, ["1"], (['-'], ["1"]));
      assert ["-", "2", "-", "3"][1..] == ["2", "-", "3"];
    }
    assert ShuntFrom(["2", "-", "3"], ['-'], ["1"]) == ShuntFrom(["-", "3"], ['-'], ["1", "2"]) by {
      assert ["1"] + ["2"] == ["1", "2"];
      ShuntCons(["2", "-", "3"], ['-'], ["1"], (['-'], ["1", "2"]));
      assert ["2", "-", "3"][1..] == ["-", "3"];
    }
    assert ShuntFrom(["-", "3"], ['-'], ["1", "2"]) == ShuntFrom(["3"], ['-'], ["1", "2", "-"]) by {
      assert ['-'][..0] == n && Last(['-']) == '-';
      assert ["1", "2"] + [['-']] == ["1", "2", "-"];
      assert PopWhile(n, ["1", "2", "-"], '-') == (n, ["1", "2", "-"]);
      assert PopWhile(['-'], ["1", "2"], '-') == (n, ["1", "2", "-"]);
      assert n + ['-'] == ['-'];
      ShuntCons(["-", "3"], ['-'], ["1", "2"], (['-'], ["1", "2", "-"]));
      assert ["-", "3"][1..] == ["3"];
    }
    assert ShuntFrom(["3"], ['-'], ["1", "2", "-"]) == FlushOps(['-'], ["1", "2", "-", "3"]) by {
      assert ["1", "2", "-"] + ["3"] == ["1", "2", "-", "3"];
      ShuntCons(["3"], ['-'], ["1", "2", "-"], (['-'], ["1", "2", "-", "3"]));
      assert ["3"][1..] == [];
    }
    assert FlushOps(['-'], ["1", "2", "-", "3"]) == Ok(["1", "2", "-", "3", "-"]) by {
      assert ['-'][..0] == n && Last(['-']) == '-';
      assert ["1", "2", "-", "3"] + [['-']] == ["1", "2", "-", "3", "-"];
      assert FlushOps(['-'], ["1", "2", "-", "3"]) == FlushOps(n, ["1", "2", "-", "3", "-"]);
    }
  }

  /** `1 - 2 - 3` evaluates as `(1 - 2) - 3`. */
  lemma LeftAssociativeValue()
    ensures Eval(["1", "2", "-", "3", "-"], []) == Ok(-4)
  {
    assert Accumulate("1") == 1 && Accumulate("2") == 2 && Accumulate("3") == 3;
    assert Eval(["3", "-"], [-1]) == Eval(["-"], [-1, 3]);
    assert Eval(["-", "3", "-"], [1, 2]) == Eval(["3", "-"], [-1]);
    assert Eval(["1", "2", "-", "3", "-"], []) == Eval(["2", "-", "3", "-"], [1]);
    assert Eval(["2", "-", "3", "-"], [1]) == Eval(["-", "3", "-"], [1, 2]);
    assert Eval(["-"], [-1, 3]) == Eval([], [-4]);
    assert Eval([], [-4]) == Ok(-4);
  }

  /** Multiplication binds more tightly than addition. */
  lemma PrecedenceExample()
    ensures ShuntFrom(["2", "+", "3", "*", "4"], [], []) == Ok(["2", "3", "4", "*", "+"])
  {
    var n: seq<char> := [];
    var e: seq<string> := [];
    assert ShuntFrom(["2", "+", "3", "*", "4"], n, e) == ShuntFrom(["+", "3", "*", "4"], n, ["2"]) by {
      assert e + ["2"] == ["2"];
      ShuntCons(["2", "+", "3", "*", "4"], n, e, (n, ["2"]));
      assert ["2", "+", "3", "*", "4"][1..] == ["+", "3", "*", "4"];
    }
    assert ShuntFrom(["+", "3", "*", "4"], n, ["2"]) == ShuntFrom(["3", "*", "4"], ['+'], ["2"]) by {
      assert n + ['+'] == ['+'];
      ShuntCons(["+", "3", "*", "4"], n, ["2"], (['+'], ["2"]));
      assert ["+", "3", "*", "4"][1..] == ["3", "*", "4"];
    }
    assert ShuntFrom(["3", "*", "4"], ['+'], ["2"]) == ShuntFrom(["*", "4"], ['+'], ["2", "3"]) by {
      assert ["2"] + ["3"] == ["2", "3"];
      ShuntCons(["3", "*", "4"], ['+'], ["2"], (['+'], ["2", "3"]));
      assert ["3", "*", "4"][1..] == ["*", "4"];
    }
    assert ShuntFrom(["*", "4"], ['+'], ["2", "3"]) == ShuntFrom(["4"], ['+', '*'], ["2", "3"]) by {
      assert Last(['+']) == '+';
      assert PopWhile(['+'], ["2", "3"], '*') == (['+'], ["2", "3"]);
      assert ['+'] + ['*'] == ['+', '*'];
      ShuntCons(["*", "4"], ['+'], ["2", "3"], (['+', '*'], ["2", "3"]));
      assert ["*", "4"][1..] == ["4"];
    }
    assert ShuntFrom(["4"], ['+', '*'], ["2", "3"]) == FlushOps(['+', '*'], ["2", "3", "4"]) by {
      assert ["2", "3"] + ["4"] == ["2", "3", "4"];
      ShuntCons(["4"], ['+', '*'], ["2", "3"], (['+', '*'], ["2", "3", "4"]));
      assert ["4"][1..] == [];
    }
    assert FlushOps(['+', '*'], ["2", "3", "4"]) == FlushOps(['+'], ["2", "3", "4", "*"]) by {
      assert Last(['+', '*']) == '*' && ['+', '*'][..1] == ['+'];
      assert ["2", "3", "4"] + [['*']] == ["2", "3", "4", "*"];
    }
    assert FlushOps(['+'], ["2", "3", "4", "*"]) == Ok(["2", "3", "4", "*", "+"]) by {
      assert Last(['+']) == '+' && ['+'][..0] == n;
      assert ["2", "3", "4", "*"] + [['+']] == ["2", "3", "4", "*", "+"];
      assert FlushOps(['+'], ["2", "3", "4", "*"]) == FlushOps(n, ["2", "3", "4", "*", "+"]);
    }
  }

  /** The first four tokens of `(2 + 3) * 4` leave `2 3` output and `( +` stacked. */
  lemma ParenthesesOpened()
    ensures ShuntFrom(["(", "2", "+", "3", ")", "*", "4"], [], []) == ShuntFrom([")", "*", "4"], ['(', '+'], ["2", "3"])
  {
    var n: seq<char> := [];
    var e: seq<string> := [];
    assert ShuntFrom(["(", "2", "+", "3", ")", "*", "4"], n, e) == ShuntFrom(["2", "+", "3", ")", "*", "4"], ['('], e) by {
      assert n + ['('] == ['('];
      ShuntCons(["(", "2", "+", "3", ")", "*", "4"], n, e, (['('], e));
      assert ["(", "2", "+", "3", ")", "*", "4"][1..] == ["2", "+", "3", ")", "*", "4"];
    }
    assert ShuntFrom(["2", "+", "3", ")", "*", "4"], ['('], e) == ShuntFrom(["+", "3", ")", "*", "4"], ['('], ["2"]) by {
      assert e + ["2"] == ["2"];
      ShuntCons(["2", "+", "3", ")", "*", "4"], ['('], e, (['('], ["2"]));
      assert ["2", "+", "3", ")", "*", "4"][1..] == ["+", "3", ")", "*", "4"];
    }
    assert ShuntFrom(["+", "3", ")", "*", "4"], ['('], ["2"]) == ShuntFrom(["3", ")", "*", "4"], ['(', '+'], ["2"]) by {
      assert Last(['(']) == '(';
      assert PopWhile(['('], ["2"], '+') == (['('], ["2"]);
      assert ['('] + ['+'] == ['(', '+'];
      ShuntCons(["+", "3", ")", "*", "4"], ['('], ["2"], (['(', '+'], ["2"]));
      assert ["+", "3", ")", "*", "4"][1..] == ["3", ")", "*", "4"];
    }
    assert ShuntFrom(["3", ")", "*", "4"], ['(', '+'], ["2"]) == ShuntFrom([")", "*", "4"], ['(', '+'], ["2", "3"]) by {
      assert ["2"] + ["3"] == ["2", "3"];
      ShuntCons(["3", ")", "*", "4"], ['(', '+'], ["2"], (['(', '+'], ["2", "3"]));
      assert ["3", ")", "*", "4"][1..] == [")", "*", "4"];
    }
  }

  /** Parentheses override precedence. */
  lemma ParenthesesExample()
    ensures ShuntFrom(["(", "2", "+", "3", ")", "*", "4"], [], []) == Ok(["2", "3", "+", "4", "*"])
  {
    var n: seq<char> := [];
    ParenthesesOpened();
    assert ShuntFrom([")", "*", "4"], ['(', '+'], ["2", "3"]) == ShuntFrom(["*", "4"], n, ["2", "3", "+"]) by {
      assert Last(['(', '+']) == '+' && ['(', '+'][..1] == ['('] && ['('][..0] == n;
      assert ["2", "3"] + [['+']] == ["2", "3", "+"];
      assert PopToParen(['('], ["2", "3", "+"]) == Ok((n, ["2", "3", "+"]));
      assert PopToParen(['(', '+'], ["2", "3"]) == Ok((n, ["2", "3", "+"]));
      ShuntCons([")", "*", "4"], ['(', '+'], ["2", "3"], (n, ["2", "3", "+"]));
      assert [")", "*", "4"][1..] == ["*", "4"];
    }
    assert ShuntFrom(["*", "4"], n, ["2", "3", "+"]) == ShuntFrom(["4"], ['*'], ["2", "3", "+"]) by {
      assert n + ['*'] == ['*'];
      ShuntCons(["*", "4"], n, ["2", "3", "+"], (['*'], ["2", "3", "+"]));
      assert ["*", "4"][1..] == ["4"];
    }
    assert ShuntFrom(["4"], ['*'], ["2", "3", "+"]) == FlushOps(['*'], ["2", "3", "+", "4"]) by {
      assert ["2", "3", "+"] + ["4"] == ["2", "3", "+", "4"];
      ShuntCons(["4"], ['*'], ["2", "3", "+"], (['*'], ["2", "3", "+", "4"]));
      assert ["4"][1..] == [];
    }
    assert FlushOps(['*'], ["2", "3", "+", "4"]) == Ok(["2", "3", "+", "4", "*"]) by {
      assert Last(['*']) == '*' && ['*'][..0] == n;
      assert ["2", "3", "+", "4"] + [['*']] == ["2", "3", "+", "4", "*"];
      assert FlushOps(['*'], ["2", "3", "+", "4"]) == FlushOps(n, ["2", "3", "+", "4", "*"]);
    }
  }

  /** An operand the evaluator accepts is pushed, and evaluation goes on with the rest of the queue. */
  lemma EvalLiteral(ts: seq<string>, stack: seq<Long>, v: Long)
    requires ts != [] && IsOperand(ts[0]) && LiteralValue(ts[0]) == v
    ensures Eval(ts, stack) == Eval(ts[1..], stack + [v])
  {
  }

  /** An operator whose application succeeds replaces the top two values by its result. */
  lemma EvalOperator(ts: seq<string>, stack: seq<Long>, v: Long)
    requires ts != [] && !IsOperand(ts[0]) && ts[0] != [] && IsOperator(ts[0][0]) && |stack| >= 2
    requires ApplyChecked(ts[0][0], stack[|stack| - 2], stack[|stack| - 1]) == Ok(v)
    ensures Eval(ts, stack) == Eval(ts[1..], stack[..|stack| - 2] + [v])
  {
  }

  /** `2 + 3 * 4` is 14. */
  lemma PrecedenceValue()
    ensures Eval(["2", "3", "4", "*", "+"], []) == Ok(14)
  {
    var q: seq<string> := ["2", "3", "4", "*", "+"];
    assert Eval(q, []) == Eval(q[1..], [2]) by {
      assert Accumulate("2") == 2;
      EvalLiteral(q, [], 2);
    }
    assert Eval(q[1..], [2]) == Eval(q[2..], [2, 3]) by {
      assert Accumulate("3") == 3 && q[1..][1..] == q[2..];
      EvalLiteral(q[1..], [2], 3);
    }
    assert Eval(q[2..], [2, 3]) == Eval(q[3..], [2, 3, 4]) by {
      assert Accumulate("4") == 4 && q[2..][1..] == q[3..];
      EvalLiteral(q[2..], [2, 3], 4);
    }
    assert Eval(q[3..], [2, 3, 4]) == Eval(q[4..], [2, 12]) by {
      assert q[3..][1..] == q[4..] && [2, 3, 4][..1] + [12] == [2, 12];
      EvalOperator(q[3..], [2, 3, 4], 12);
    }
    assert Eval(q[4..], [2, 12]) == Eval([], [14]) by {
      assert q[4..][1..] == [] && [2, 12][..0] + [14] == [14];
      EvalOperator(q[4..], [2, 12], 14);
    }
  }

  /** `(2 + 3) * 4` is 20. */
  lemma ParenthesesValue()
    ensures Eval(["2", "3", "+", "4", "*"], []) == Ok(20)
  {
    var q: seq<string> := ["2", "3", "+", "4", "*"];
    assert Eval(q, []) == Eval(q[1..], [2]) by {
      assert Accumulate("2") == 2;
      EvalLiteral(q, [], 2);
    }
    assert Eval(q[1..], [2]) == Eval(q[2..], [2, 3]) by {
      assert Accumulate("3") == 3 && q[1..][1..] == q[2..];
      EvalLiteral(q[1..], [2], 3);
    }
    assert Eval(q[2..], [2, 3]) == Eval(q[3..], [5]) by {
      assert q[2..][1..] == q[3..] && [2, 3][..0] + [5] == [5];
      EvalOperator(q[2..], [2, 3], 5);
    }
    assert Eval(q[3..], [5]) == Eval(q[4..], [5, 4]) by {
      assert Accumulate("4") == 4 && q[3..][1..] == q[4..];
      EvalLiteral(q[3..], [5], 4);
    }
    assert Eval(q[4..], [5, 4]) == Eval([], [20]) by {
      assert q[4..][1..] == [] && [5, 4][..0] + [20] == [20];
      EvalOperator(q[4..], [5, 4], 20);
    }
  }

  /** The remainder as the code intends it lands in [0, b) for a positive divisor. */
  lemma ModExample()
    ensures Eval(["0", "7", "-", "3", "%"], []) == Ok(2)
  {
    assert Accumulate("0") == 0 && Accumulate("7") == 7 && Accumulate("3") == 3;
    assert Eval(["0", "7", "-", "3", "%"], []) == Eval(["7", "-", "3", "%"], [0]);
    assert Eval(["7", "-", "3", "%"], [0]) == Eval(["-", "3", "%"], [0, 7]);
    assert Eval(["-", "3", "%"], [0, 7]) == Eval(["3", "%"], [-7]);
    assert Eval(["3", "%"], [-7]) == Eval(["%"], [-7, 3]);
    assert TruncMod(-7, 3) == -1;
  }

  /** The literal one past LLONG_MAX, which the code accumulates without a check, is refused with an overflow error. */
  lemma LiteralRejected()
    ensures Eval(["9223372036854775808"], []) == Err("Overflow error")
  {
    LiteralOverflows();
  }
}
