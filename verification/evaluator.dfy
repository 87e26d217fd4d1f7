/**
 * The tree evaluator `eval`: a walk over the parse tree of a numeral
 * arithmetic program. `program`, `expr` and `group` pass their single child
 * through, `term` and `strong_term` fold their operands from left to right
 * with + - and * /, a `factor` applies an optional unary sign to a numeral
 * or a parenthesised group, and a `roman` leaf is decoded by the codec.
 *
 * Eval is the specification: it evaluates every operand of a chain and then
 * folds the values (FoldAdd, FoldMul). EvalTree is the evaluator as the
 * source writes it, evaluating each operand just before applying its
 * operator, and it is proved to compute Eval.
 */
module Evaluator {
  import opened RomanCodec
  import opened RomanCanonical

  datatype Option<T> = None | Some(value: T)

  /** The one way an evaluation can fail: a division whose divisor is 0. */
  datatype EvalError = DivisionByZero

  datatype Result<T> = Ok(value: T) | Err(error: EvalError)

  /** The operators of a `term`, of a `strong_term`, and the unary signs. */
  datatype AddOp = Add | Sub
  datatype MulOp = Mul | Div
  datatype UnaryOp = Pos | Neg

  /** A parse tree, one constructor per grammar rule the evaluator visits. */
  datatype Node =
    | Program(body: Node)
    | Expr(body: Node)
      /** A first operand, then operator/operand pairs of + and -. */
    | Term(first: Node, addRest: seq<Operand<AddOp>>)
      /** A first operand, then operator/operand pairs of * and /. */
    | StrongTerm(first: Node, mulRest: seq<Operand<MulOp>>)
    | Factor(sign: Option<UnaryOp>, atom: Atom)

  /** What a factor applies its sign to: a numeral or a parenthesised expression. */
  datatype Atom = Roman(span: string) | Group(body: Node)

  /** An operator followed by the operand it applies to. */
  datatype Operand<O> = Operand(op: O, arg: Node)

  /**
   * Division of i32 values in the source: the quotient of the magnitudes,
   * negated when exactly one operand is negative, so it truncates toward 0.
   */
  function TruncDiv(a: int, b: int): (q: int)
    requires b != 0
    ensures Abs(a - q * b) < Abs(b)
    ensures a - q * b == 0 || (a - q * b > 0 <==> a > 0)
  {
    var q := if (a < 0) == (b < 0) then Abs(a) / Abs(b) else -(Abs(a) / Abs(b));
    TruncDivFacts(a, b, q);
    q
  }

  /** The remainder left by the truncated quotient. */
  lemma TruncDivFacts(a: int, b: int, q: int)
    requires b != 0
    requires q == if (a < 0) == (b < 0) then Abs(a) / Abs(b) else -(Abs(a) / Abs(b))
    ensures Abs(a - q * b) < Abs(b)
    ensures a - q * b == 0 || (a - q * b > 0 <==> a > 0)
  {
    var m, r := MagnitudeDivision(Abs(a), Abs(b));
    TruncDivRemainder(a, b, m, r, q);
  }

  /** Quotient and remainder of two magnitudes. */
  lemma MagnitudeDivision(x: nat, y: nat) returns (m: int, r: int)
    requires y > 0
    ensures m == x / y && r == x % y
    ensures 0 <= m && x == m * y + r && 0 <= r < y
  {
    m, r := x / y, x % y;
  }

  /**
   * Given the quotient m and remainder r of the magnitudes, the truncated
   * quotient leaves the remainder r with the sign of the dividend.
   */
  lemma TruncDivRemainder(a: int, b: int, m: int, r: int, q: int)
    requires b != 0 && 0 <= m && Abs(a) == m * Abs(b) + r && 0 <= r < Abs(b)
    requires q == if (a < 0) == (b < 0) then m else -m
    ensures Abs(a - q * b) < Abs(b)
    ensures a - q * b == 0 || (a - q * b > 0 <==> a > 0)
  {
    var mb := m * Abs(b);
    assert mb >= 0;
    assert q * b == (if a < 0 then -mb else mb) by {
      if b < 0 {
        assert m * b == -mb;
      } else {
        assert m * b == mb;
      }
    }
  }

  function Abs(x: int): nat {
    if x < 0 then -x else x
  }

  /** One step of a `term`: add or subtract the next operand's value. */
  function ApplyAdd(op: AddOp, acc: int, rhs: int): int {
    match op
    case Add => acc + rhs
    case Sub => acc - rhs
  }

  /** One step of a `strong_term`: multiply, or divide unless the divisor is 0. */
  function ApplyMul(op: MulOp, acc: int, rhs: int): (r: Result<int>)
    ensures r.Err? <==> op == Div && rhs == 0
  {
    match op
    case Mul => Ok(acc * rhs)
    case Div => if rhs == 0 then Err(DivisionByZero) else Ok(TruncDiv(acc, rhs))
  }

  /** A unary sign: + leaves the value as it is, - negates it. */
  function ApplySign(sign: Option<UnaryOp>, v: int): int {
    if sign == Some(Neg) then -v else v
  }

  /** The left fold of a `term`: ((v0 op1 x1) op2 x2) ... */
  function FoldAdd(v0: int, ops: seq<(AddOp, int)>): int
  {
    if ops == [] then v0
    else
      var last := ops[|ops| - 1];
      ApplyAdd(last.0, FoldAdd(v0, ops[..|ops| - 1]), last.1)
  }

  /** The left fold of a `strong_term`, failing at the first division by 0. */
  function FoldMul(v0: int, ops: seq<(MulOp, int)>): Result<int>
  {
    if ops == [] then Ok(v0)
    else
      match FoldMul(v0, ops[..|ops| - 1])
      case Err(e) => Err(e)
      case Ok(acc) =>
        var last := ops[|ops| - 1];
        ApplyMul(last.0, acc, last.1)
  }

  /** The value of a tree. */
  function Eval(t: Node): Result<int>
    decreases t
  {
    match t
    case Program(body) => Eval(body)
    case Expr(body) => Eval(body)
    case Term(first, rest) =>
      (match Eval(first)
       case Err(e) => Err(e)
       case Ok(v0) =>
         match EvalOperands(rest)
         case Err(e) => Err(e)
         case Ok(ops) => Ok(FoldAdd(v0, ops)))
    case StrongTerm(first, rest) =>
      (match Eval(first)
       case Err(e) => Err(e)
       case Ok(v0) =>
         match EvalOperands(rest)
         case Err(e) => Err(e)
         case Ok(ops) => FoldMul(v0, ops))
    case Factor(sign, atom) =>
      match EvalAtom(atom)
      case Err(e) => Err(e)
      case Ok(v) => Ok(ApplySign(sign, v))
  }

  /** The value of a numeral or of a parenthesised expression. */
  function EvalAtom(a: Atom): Result<int>
    decreases a
  {
    match a
    case Roman(span) => Ok(Decode(span))
    case Group(body) => Eval(body)
  }

  /** The value of the operand of one operator/operand pair. */
  function EvalOperand<O>(o: Operand<O>): Result<int>
    decreases o
  {
    Eval(o.arg)
  }

  /**
   * The operators of a chain with the values of their operands, from left
   * to right; the first operand that fails makes the whole list fail.
   */
  function EvalOperands<O>(rest: seq<Operand<O>>): (r: Result<seq<(O, int)>>)
    ensures r.Ok? ==> |r.value| == |rest|
    decreases rest
  {
    if rest == [] then Ok([])
    else
      match EvalOperands(rest[..|rest| - 1])
      case Err(e) => Err(e)
      case Ok(done) =>
        var last := rest[|rest| - 1];
        match EvalOperand(last)
        case Err(e) => Err(e)
        case Ok(v) => Ok(done + [(last.op, v)])
  }

  /**
   * The evaluator as the source writes it: a recursive walk in which a
   * `term` or `strong_term` keeps a running value and, for each
   * operator/operand pair in turn, evaluates the operand and applies the
   * operator at once. A division by zero stops the evaluation.
   */
  method EvalTree(t: Node) returns (r: Result<int>)
    ensures r == Eval(t)
    decreases t, 1
  {
    match t
    case Program(body) =>
      r := EvalTree(body);
    case Expr(body) =>
      r := EvalTree(body);
    case Term(_, _) =>
      r := EvalSum(t);
    case StrongTerm(_, _) =>
      r := EvalProduct(t);
    case Factor(sign, atom) =>
      var v := EvalAtomTree(atom);
      if v.Err? {
        return v;
      }
      r := Ok(if sign == Some(Neg) then -v.value else v.value);
  }

  /** A `term`: the running value, updated by + and - operand by operand. */
  method EvalSum(t: Node) returns (r: Result<int>)
    requires t.Term?
    ensures r == Eval(t)
    decreases t, 0
  {
    var rest := t.addRest;
    var head := EvalTree(t.first);
    if head.Err? {
      return head;
    }
    var value := head.value;
    var i := 0;
    while i < |rest|
      invariant 0 <= i <= |rest|
      invariant EvalOperands(rest[..i]).Ok?
      invariant value == FoldAdd(head.value, EvalOperands(rest[..i]).value)
    {
      var rhs := EvalTree(rest[i].arg);
      OperandsStep(rest, i);
      if rhs.Err? {
        OperandsPrefixFails(rest, i + 1);
        return Err(rhs.error);
      }
      FoldAddSnoc(head.value, EvalOperands(rest[..i]).value, (rest[i].op, rhs.value));
      match rest[i].op {
        case Add => value := value + rhs.value;
        case Sub => value := value - rhs.value;
      }
      i := i + 1;
    }
    assert rest[..i] == rest;
    r := Ok(value);
  }

  /** A `strong_term`: the running value, updated by * and / operand by operand. */
  method EvalProduct(t: Node) returns (r: Result<int>)
    requires t.StrongTerm?
    ensures r == Eval(t)
    decreases t, 0
  {
    var rest := t.mulRest;
    var head := EvalTree(t.first);
    if head.Err? {
      return head;
    }
    var value := head.value;
    var i := 0;
    while i < |rest|
      invariant 0 <= i <= |rest|
      invariant EvalOperands(rest[..i]).Ok?
      invariant FoldMul(head.value, EvalOperands(rest[..i]).value) == Ok(value)
    {
      var rhs := EvalTree(rest[i].arg);
      OperandsStep(rest, i);
      if rhs.Err? {
        OperandsPrefixFails(rest, i + 1);
        return Err(rhs.error);
      }
      FoldMulSnoc(head.value, EvalOperands(rest[..i]).value, (rest[i].op, rhs.value));
      match rest[i].op {
        case Mul =>
          value := value * rhs.value;
        case Div =>
          if rhs.value == 0 {
            FoldMulPrefixFails(head.value, rest, i + 1);
            return Err(DivisionByZero);
          }
          value := TruncDiv(value, rhs.value);
      }
      i := i + 1;
    }
    assert rest[..i] == rest;
    r := Ok(value);
  }

  /** A numeral or a parenthesised group, as EvalTree evaluates it. */
  method EvalAtomTree(a: Atom) returns (r: Result<int>)
    ensures r == EvalAtom(a)
    decreases a
  {
    match a
    case Roman(span) =>
      var v := RomanToInt(span);
      r := Ok(v);
    case Group(body) =>
      r := EvalTree(body);
  }

  /** Evaluating the operands one more step extends the prefix by one pair. */
  lemma OperandsStep<O>(rest: seq<Operand<O>>, i: nat)
    requires i < |rest| && EvalOperands(rest[..i]).Ok?
    ensures EvalOperand(rest[i]).Ok? ==>
      EvalOperands(rest[..i + 1]) == Ok(EvalOperands(rest[..i]).value + [(rest[i].op, EvalOperand(rest[i]).value)])
    ensures EvalOperand(rest[i]).Err? ==> EvalOperands(rest[..i + 1]).Err?
  {
    assert rest[..i + 1][..i] == rest[..i];
  }

  /** Once a prefix of the operands fails, the whole list fails. */
  lemma {:induction false} OperandsPrefixFails<O>(rest: seq<Operand<O>>, j: nat)
    requires j <= |rest| && EvalOperands(rest[..j]).Err?
    ensures EvalOperands(rest).Err?
    decreases |rest| - j
  {
    if j < |rest| {
      assert rest[..j + 1][..j] == rest[..j];
      OperandsPrefixFails(rest, j + 1);
    } else {
      assert rest[..j] == rest;
    }
  }

  /** Folding one more pair into a `term`. */
  lemma FoldAddSnoc(v0: int, ops: seq<(AddOp, int)>, x: (AddOp, int))
    ensures FoldAdd(v0, ops + [x]) == ApplyAdd(x.0, FoldAdd(v0, ops), x.1)
  {
    assert (ops + [x])[..|ops|] == ops;
  }

  /** Folding one more pair into a `strong_term`. */
  lemma FoldMulSnoc(v0: int, ops: seq<(MulOp, int)>, x: (MulOp, int))
    ensures FoldMul(v0, ops + [x]) ==
      match FoldMul(v0, ops)
      case Err(e) => Err(e)
      case Ok(acc) => ApplyMul(x.0, acc, x.1)
  {
    assert (ops + [x])[..|ops|] == ops;
  }

  /**
   * Once the fold over the operands of a prefix fails, the `strong_term`
   * fails, whatever the remaining operands are.
   */
  lemma {:induction false} FoldMulPrefixFails(v0: int, rest: seq<Operand<MulOp>>, j: nat)
    requires j <= |rest| && EvalOperands(rest[..j]).Ok?
    requires FoldMul(v0, EvalOperands(rest[..j]).value).Err?
    ensures EvalOperands(rest).Err? || FoldMul(v0, EvalOperands(rest).value).Err?
    decreases |rest| - j
  {
    if j == |rest| {
      assert rest[..j] == rest;
    } else {
      OperandsStep(rest, j);
      if EvalOperand(rest[j]).Err? {
        OperandsPrefixFails(rest, j + 1);
      } else {
        FoldMulSnoc(v0, EvalOperands(rest[..j]).value, (rest[j].op, EvalOperand(rest[j]).value));
        FoldMulPrefixFails(v0, rest, j + 1);
      }
    }
  }

  /** The sum of the signed operands, accumulated from the right. */
  function SignedSum(ops: seq<(AddOp, int)>): int
  {
    if ops == [] then 0
    else (if ops[0].0 == Add then ops[0].1 else -ops[0].1) + SignedSum(ops[1..])
  }

  lemma {:induction false} SignedSumSnoc(ops: seq<(AddOp, int)>, x: (AddOp, int))
    ensures SignedSum(ops + [x]) == SignedSum(ops) + (if x.0 == Add then x.1 else -x.1)
  {
    if ops != [] {
      assert (ops + [x])[1..] == ops[1..] + [x];
      SignedSumSnoc(ops[1..], x);
    }
  }

  /**
   * A `term` adds up its operands: folding + and - from the left gives the
   * first value plus every operand, negated where its operator is -.
   */
  lemma {:induction false} FoldAddIsSum(v0: int, ops: seq<(AddOp, int)>)
    ensures FoldAdd(v0, ops) == v0 + SignedSum(ops)
  {
    if ops != [] {
      var prefix, last := ops[..|ops| - 1], ops[|ops| - 1];
      assert ops == prefix + [last];
      FoldAddIsSum(v0, prefix);
      SignedSumSnoc(prefix, last);
    }
  }

  /** The product of the operand values, accumulated from the right. */
  function Product(ops: seq<(MulOp, int)>): int
  {
    if ops == [] then 1 else ops[0].1 * Product(ops[1..])
  }

  lemma {:induction false} ProductSnoc(ops: seq<(MulOp, int)>, x: (MulOp, int))
    ensures Product(ops + [x]) == Product(ops) * x.1
  {
    if ops != [] {
      assert (ops + [x])[1..] == ops[1..] + [x];
      ProductSnoc(ops[1..], x);
      var a, p := ops[0].1, Product(ops[1..]);
      assert a * (p * x.1) == (a * p) * x.1;
    }
  }

  /**
   * A `strong_term` made only of multiplications never fails and gives the
   * first value times the product of the operands.
   */
  lemma {:induction false} FoldMulIsProduct(v0: int, ops: seq<(MulOp, int)>)
    requires forall k :: 0 <= k < |ops| ==> ops[k].0 == Mul
    ensures FoldMul(v0, ops) == Ok(v0 * Product(ops))
  {
    if ops != [] {
      var prefix, last := ops[..|ops| - 1], ops[|ops| - 1];
      assert ops == prefix + [last];
      FoldMulIsProduct(v0, prefix);
      ProductSnoc(prefix, last);
      assert (v0 * Product(prefix)) * last.1 == v0 * (Product(prefix) * last.1);
    }
  }

  /**
   * A `strong_term` fails exactly when one of its operators is / and the
   * value of the operand after it is 0.
   */
  lemma {:induction false} FoldMulFails(v0: int, ops: seq<(MulOp, int)>)
    ensures FoldMul(v0, ops).Err? <==> exists k :: 0 <= k < |ops| && ops[k] == (Div, 0)
  {
    if ops != [] {
      var prefix, last := ops[..|ops| - 1], ops[|ops| - 1];
      FoldMulFails(v0, prefix);
      if FoldMul(v0, ops).Err? {
        if FoldMul(v0, prefix).Err? {
          var k :| 0 <= k < |prefix| && prefix[k] == (Div, 0);
          assert ops[k] == prefix[k];
        } else {
          assert ops[|ops| - 1] == (Div, 0);
        }
      } else {
        forall k | 0 <= k < |ops|
          ensures ops[k] != (Div, 0)
        {
          if k < |prefix| {
            assert ops[k] == prefix[k];
          }
        }
      }
    }
  }

  /** If the magnitude of d * b is below that of b, then d is 0. */
  lemma MultipleBelow(d: int, b: int)
    requires b != 0 && Abs(d * b) < Abs(b)
    ensures d == 0
  {
    if d != 0 {
      ProductAtLeast(Abs(d), Abs(b));
    }
    AbsMul(d, b);
  }

  lemma ProductAtLeast(x: int, y: int)
    requires x >= 1 && y >= 1
    ensures x * y >= y
  {
    assert x * y == (x - 1) * y + y;
    assert (x - 1) * y >= 0;
  }

  /** The magnitude of a product is the product of the magnitudes. */
  lemma AbsMul(d: int, b: int)
    ensures Abs(d * b) == Abs(d) * Abs(b)
  {
    var x: int, y: int := Abs(d), Abs(b);
    assert x * y >= 0;
    if (d < 0) == (b < 0) {
      assert d * b == x * y;
    } else {
      assert d * b == -(x * y);
    }
  }

  /**
   * Truncated division is the only quotient whose remainder is smaller
   * than the divisor and has the sign of the dividend (or is 0).
   */
  lemma TruncDivUnique(a: int, b: int, q: int)
    requires b != 0
    requires Abs(a - q * b) < Abs(b)
    requires a - q * b == 0 || (a - q * b > 0 <==> a > 0)
    ensures q == TruncDiv(a, b)
  {
    var q0 := TruncDiv(a, b);
    var r, r0 := a - q * b, a - q0 * b;
    assert Abs(r0 - r) < Abs(b);
    assert r0 - r == (q - q0) * b;
    MultipleBelow(q - q0, b);
  }

  /**
   * Division truncates toward zero, as i32 division does: -7 / 2 is -3,
   * where Dafny's Euclidean `/` on int would give -4.
   */
  lemma TruncDivExamples()
    ensures TruncDiv(-7, 2) == -3 && TruncDiv(7, -2) == -3
    ensures TruncDiv(-7, -2) == 3 && TruncDiv(7, 2) == 3
  {
    TruncDivUnique(-7, 2, -3);
    TruncDivUnique(7, -2, -3);
    TruncDivUnique(-7, -2, 3);
    TruncDivUnique(7, 2, 3);
  }

  /**
   * When the operands of a chain all evaluate, the list holds each
   * operator with the value of its own operand, in order.
   */
  lemma {:induction false} OperandsValues<O>(rest: seq<Operand<O>>)
    requires EvalOperands(rest).Ok?
    ensures forall k :: 0 <= k < |rest| ==>
      Eval(rest[k].arg).Ok? && EvalOperands(rest).value[k] == (rest[k].op, Eval(rest[k].arg).value)
  {
    if rest != [] {
      var prefix := rest[..|rest| - 1];
      OperandsValues(prefix);
      forall k | 0 <= k < |rest|
        ensures Eval(rest[k].arg).Ok? && EvalOperands(rest).value[k] == (rest[k].op, Eval(rest[k].arg).value)
      {
        if k < |prefix| {
          assert rest[k] == prefix[k];
        }
      }
    }
  }

  /**
   * A `strong_term` whose operands all evaluate fails exactly when one of
   * its divisors evaluates to 0.
   */
  lemma StrongTermFails(first: Node, rest: seq<Operand<MulOp>>)
    requires Eval(first).Ok? && EvalOperands(rest).Ok?
    ensures Eval(StrongTerm(first, rest)).Err? <==>
      exists k :: 0 <= k < |rest| && rest[k].op == Div && Eval(rest[k].arg) == Ok(0)
  {
    var ops := EvalOperands(rest).value;
    OperandsValues(rest);
    FoldMulFails(Eval(first).value, ops);
    if exists k :: 0 <= k < |rest| && rest[k].op == Div && Eval(rest[k].arg) == Ok(0) {
      var k :| 0 <= k < |rest| && rest[k].op == Div && Eval(rest[k].arg) == Ok(0);
      assert ops[k] == (Div, 0);
    }
  }

  /** A tree without any division. */
  predicate DivisionFree(t: Node)
    decreases t
  {
    match t
    case Program(body) => DivisionFree(body)
    case Expr(body) => DivisionFree(body)
    case Term(first, rest) => DivisionFree(first) && OperandsDivisionFree(rest)
    case StrongTerm(first, rest) =>
      DivisionFree(first) && OperandsDivisionFree(rest) &&
      forall k :: 0 <= k < |rest| ==> rest[k].op == Mul
    case Factor(_, atom) => AtomDivisionFree(atom)
  }

  predicate AtomDivisionFree(a: Atom)
    decreases a
  {
    match a
    case Roman(_) => true
    case Group(body) => DivisionFree(body)
  }

  predicate OperandDivisionFree<O>(o: Operand<O>)
    decreases o
  {
    DivisionFree(o.arg)
  }

  predicate OperandsDivisionFree<O>(rest: seq<Operand<O>>)
    decreases rest
  {
    rest == [] ||
    (OperandsDivisionFree(rest[..|rest| - 1]) && OperandDivisionFree(rest[|rest| - 1]))
  }

  /** Division by zero is the only way an evaluation fails. */
  lemma {:induction false} DivisionFreeSucceeds(t: Node)
    requires DivisionFree(t)
    ensures Eval(t).Ok?
    decreases t
  {
    match t
    case Program(body) => DivisionFreeSucceeds(body);
    case Expr(body) => DivisionFreeSucceeds(body);
    case Term(first, rest) =>
      DivisionFreeSucceeds(first);
      OperandsSucceed(rest);
    case StrongTerm(first, rest) =>
      DivisionFreeSucceeds(first);
      OperandsSucceed(rest);
      var ops := EvalOperands(rest).value;
      OperandsValues(rest);
      FoldMulFails(Eval(first).value, ops);
      forall k | 0 <= k < |ops|
        ensures ops[k] != (Div, 0)
      {
        assert ops[k].0 == rest[k].op;
      }
    case Factor(_, atom) => AtomSucceeds(atom);
  }

  lemma {:induction false} AtomSucceeds(a: Atom)
    requires AtomDivisionFree(a)
    ensures EvalAtom(a).Ok?
    decreases a
  {
    match a
    case Roman(_) =>
    case Group(body) => DivisionFreeSucceeds(body);
  }

  lemma {:induction false} OperandSucceeds<O>(o: Operand<O>)
    requires OperandDivisionFree(o)
    ensures EvalOperand(o).Ok?
    decreases o
  {
    DivisionFreeSucceeds(o.arg);
  }

  lemma {:induction false} OperandsSucceed<O>(rest: seq<Operand<O>>)
    requires OperandsDivisionFree(rest)
    ensures EvalOperands(rest).Ok?
    decreases rest
  {
    if rest != [] {
      OperandsSucceed(rest[..|rest| - 1]);
      OperandSucceeds(rest[|rest| - 1]);
    }
  }

  /** A single factor standing as a whole `expr`: a one-operand term of a one-operand strong_term. */
  function AsExpr(f: Node): Node
  {
    Expr(Term(StrongTerm(f, []), []))
  }

  /** An `expr` made of a single factor has that factor's value. */
  lemma AsExprKeepsValue(f: Node)
    ensures Eval(AsExpr(f)) == Eval(f)
  {
    var ops: seq<(MulOp, int)>, sums: seq<(AddOp, int)> := [], [];
    assert EvalOperands<MulOp>([]) == Ok(ops);
    assert EvalOperands<AddOp>([]) == Ok(sums);
    assert Eval(StrongTerm(f, [])) == Eval(f) by {
      match Eval(f)
      case Err(_) =>
      case Ok(v) => assert FoldMul(v, ops) == Ok(v);
    }
    match Eval(f)
    case Err(_) =>
    case Ok(v) => assert FoldAdd(v, sums) == v;
  }

  /** An expression put in parentheses depth times, each time as a whole `expr`. */
  function Parenthesize(e: Node, depth: nat): Node
  {
    if depth == 0 then e
    else AsExpr(Factor(None, Group(Parenthesize(e, depth - 1))))
  }

  /**
   * `expr`, a one-operand `term` or `strong_term`, a sign-less `factor` and
   * a `group` all pass their value through, so redundant parentheses never
   * change a result.
   */
  lemma {:induction false} ParenthesesKeepValue(e: Node, depth: nat)
    ensures Eval(Parenthesize(e, depth)) == Eval(e)
  {
    if depth > 0 {
      ParenthesesKeepValue(e, depth - 1);
      AsExprKeepsValue(Factor(None, Group(Parenthesize(e, depth - 1))));
    }
  }

  /**
   * A unary - negates the value of its numeral or group, a unary + keeps
   * it, and either way a failure of the operand is passed on.
   */
  lemma UnarySign(sign: Option<UnaryOp>, atom: Atom)
    ensures Eval(Factor(sign, atom)).Err? <==> EvalAtom(atom).Err?
    ensures EvalAtom(atom).Ok? && sign == Some(Neg) ==>
      Eval(Factor(sign, atom)).value == -EvalAtom(atom).value
    ensures EvalAtom(atom).Ok? && sign != Some(Neg) ==>
      Eval(Factor(sign, atom)).value == EvalAtom(atom).value
  {
  }

  /** Two unary minus signs, the second inside a group, cancel out. */
  lemma DoubleNegation(atom: Atom)
    ensures Eval(Factor(Some(Neg), Group(AsExpr(Factor(Some(Neg), atom))))) == EvalAtom(atom)
  {
    AsExprKeepsValue(Factor(Some(Neg), atom));
  }

  /**
   * A `roman` leaf has the decoded value of its numeral; for a numeral the
   * grammar accepts, that value is between 1 and 3999 and the encoder
   * spells it back as the same numeral.
   */
  lemma NumeralLeaf(span: string)
    requires WellFormedNumeral(span)
    ensures Eval(Factor(None, Roman(span))).Ok?
    ensures var v := Eval(Factor(None, Roman(span))).value;
            1 <= v <= 3999 && Encode(v) == span
  {
    WellFormedNumeralRoundTrip(span);
  }

  /** A numeral with no sign, as a factor. */
  function Numeral(span: string): Node
  {
    Factor(None, Roman(span))
  }

  /** A `term` operand made of a single factor. */
  function Single(f: Node): Node
  {
    StrongTerm(f, [])
  }

  /** The operand list of a chain with one pair. */
  lemma OperandsOne<O>(o: Operand<O>, v: int)
    requires Eval(o.arg) == Ok(v)
    ensures EvalOperands([o]) == Ok([(o.op, v)])
  {
    var none: seq<(O, int)> := [];
    assert [o][..0] == [];
    assert EvalOperands<O>([]) == Ok(none);
    assert EvalOperand(o) == Ok(v);
    assert none + [(o.op, v)] == [(o.op, v)];
  }

  /** The operand list of a chain with two pairs. */
  lemma OperandsTwo<O>(o1: Operand<O>, v1: int, o2: Operand<O>, v2: int)
    requires Eval(o1.arg) == Ok(v1) && Eval(o2.arg) == Ok(v2)
    ensures EvalOperands([o1, o2]) == Ok([(o1.op, v1), (o2.op, v2)])
  {
    assert [o1, o2][..1] == [o1];
    OperandsOne(o1, v1);
    assert EvalOperand(o2) == Ok(v2);
    assert [(o1.op, v1)] + [(o2.op, v2)] == [(o1.op, v1), (o2.op, v2)];
  }

  /** A `term` whose first operand and operand list evaluate. */
  lemma TermValue(first: Node, rest: seq<Operand<AddOp>>, v0: int, ops: seq<(AddOp, int)>)
    requires Eval(first) == Ok(v0) && EvalOperands(rest) == Ok(ops)
    ensures Eval(Term(first, rest)) == Ok(v0 + SignedSum(ops))
  {
    FoldAddIsSum(v0, ops);
  }

  /** A `strong_term` whose first operand and operand list evaluate. */
  lemma StrongTermValue(first: Node, rest: seq<Operand<MulOp>>, v0: int, ops: seq<(MulOp, int)>)
    requires Eval(first) == Ok(v0) && EvalOperands(rest) == Ok(ops)
    ensures Eval(StrongTerm(first, rest)) == FoldMul(v0, ops)
  {
  }

  /** A sign-less group has the value of the expression inside it. */
  lemma GroupValue(e: Node)
    ensures Eval(Factor(None, Group(e))) == Eval(e)
    ensures Eval(Factor(None, Group(Expr(e)))) == Eval(e)
  {
    assert EvalAtom(Group(Expr(e))) == Eval(Expr(e)) == Eval(e);
  }

  /** A numeral leaf, alone or as a one-factor `strong_term`. */
  lemma NumeralValue(span: string, v: int)
    requires Decode(span) == v
    ensures Eval(Numeral(span)) == Ok(v) && Eval(Single(Numeral(span))) == Ok(v)
  {
    assert EvalOperands<MulOp>([]) == Ok([]);
  }

  /** C - L + X groups from the left: (100 - 50) + 10 is 60, not 40. */
  lemma LeftToRightSum()
    ensures Eval(Program(Expr(Term(Single(Numeral("C")),
      [Operand(Sub, Single(Numeral("L"))), Operand(Add, Single(Numeral("X")))])))) == Ok(60)
  {
    var c, l, x := Single(Numeral("C")), Single(Numeral("L")), Single(Numeral("X"));
    NumeralValue("C", 100);
    NumeralValue("L", 50);
    NumeralValue("X", 10);
    OperandsTwo(Operand(Sub, l), 50, Operand(Add, x), 10);
    TermValue(c, [Operand(Sub, l), Operand(Add, x)], 100, [(Sub, 50), (Add, 10)]);
  }

  /** X + V * II is 20: the product binds tighter than the sum. */
  lemma ProductBindsTighter()
    ensures Eval(Term(Single(Numeral("X")),
      [Operand(Add, StrongTerm(Numeral("V"), [Operand(Mul, Numeral("II"))]))])) == Ok(20)
  {
    var vii := StrongTerm(Numeral("V"), [Operand(Mul, Numeral("II"))]);
    NumeralValue("II", 2);
    NumeralValue("V", 5);
    NumeralValue("X", 10);
    OperandsOne(Operand(Mul, Numeral("II")), 2);
    StrongTermValue(Numeral("V"), [Operand(Mul, Numeral("II"))], 5, [(Mul, 2)]);
    FoldMulIsProduct(5, [(Mul, 2)]);
    OperandsOne(Operand(Add, vii), 10);
    TermValue(Single(Numeral("X")), [Operand(Add, vii)], 10, [(Add, 10)]);
  }

  /** (X + V) * II is 30: a group overrides the precedence. */
  lemma GroupOverridesPrecedence()
    ensures Eval(StrongTerm(
      Factor(None, Group(Expr(Term(Single(Numeral("X")), [Operand(Add, Single(Numeral("V")))])))),
      [Operand(Mul, Numeral("II"))])) == Ok(30)
  {
    var sum := Term(Single(Numeral("X")), [Operand(Add, Single(Numeral("V")))]);
    NumeralValue("II", 2);
    NumeralValue("V", 5);
    NumeralValue("X", 10);
    OperandsOne(Operand(Add, Single(Numeral("V"))), 5);
    TermValue(Single(Numeral("X")), [Operand(Add, Single(Numeral("V")))], 10, [(Add, 5)]);
    var group := Factor(None, Group(Expr(sum)));
    GroupValue(sum);
    OperandsOne(Operand(Mul, Numeral("II")), 2);
    StrongTermValue(group, [Operand(Mul, Numeral("II"))], 15, [(Mul, 2)]);
    FoldMulIsProduct(15, [(Mul, 2)]);
  }

  /** -(-I) is 1. */
  lemma MinusMinusOne()
    ensures Eval(Factor(Some(Neg), Group(AsExpr(Factor(Some(Neg), Roman("I")))))) == Ok(1)
  {
    DoubleNegation(Roman("I"));
    assert Decode("I") == 1;
  }

  /** M / II * V is 2500: division and multiplication group from the left. */
  lemma LeftToRightProduct()
    ensures Eval(StrongTerm(Numeral("M"), [Operand(Div, Numeral("II")), Operand(Mul, Numeral("V"))])) == Ok(2500)
  {
    var rest := [Operand(Div, Numeral("II")), Operand(Mul, Numeral("V"))];
    assert EvalOperands(rest) == Ok([(Div, 2), (Mul, 5)]) by {
      NumeralValue("II", 2);
      NumeralValue("V", 5);
      OperandsTwo(rest[0], 2, rest[1], 5);
    }
    assert FoldMul(1000, [(Div, 2), (Mul, 5)]) == Ok(2500) by {
      assert TruncDiv(1000, 2) == 500 by {
        TruncDivUnique(1000, 2, 500);
      }
      FoldMulSnoc(1000, [], (Div, 2));
      FoldMulSnoc(1000, [(Div, 2)], (Mul, 5));
    }
    NumeralValue("M", 1000);
    StrongTermValue(Numeral("M"), rest, 1000, [(Div, 2), (Mul, 5)]);
  }

  /** II * V is 10. */
  lemma TwoTimesFive()
    ensures Eval(StrongTerm(Numeral("II"), [Operand(Mul, Numeral("V"))])) == Ok(10)
  {
    NumeralValue("II", 2);
    NumeralValue("V", 5);
    OperandsOne(Operand(Mul, Numeral("V")), 5);
    StrongTermValue(Numeral("II"), [Operand(Mul, Numeral("V"))], 2, [(Mul, 5)]);
    FoldMulIsProduct(2, [(Mul, 5)]);
  }

  /** M / (II * V) is 100: the group is evaluated first. */
  lemma GroupedDivisor()
    ensures Eval(StrongTerm(Numeral("M"),
      [Operand(Div, Factor(None, Group(AsExpr(StrongTerm(Numeral("II"), [Operand(Mul, Numeral("V"))])))))]))
      == Ok(100)
  {
    var ten := StrongTerm(Numeral("II"), [Operand(Mul, Numeral("V"))]);
    var group := Factor(None, Group(AsExpr(ten)));
    assert Eval(group) == Ok(10) by {
      TwoTimesFive();
      AsExprKeepsValue(ten);
      GroupValue(AsExpr(ten));
    }
    NumeralValue("M", 1000);
    OperandsOne(Operand(Div, group), 10);
    StrongTermValue(Numeral("M"), [Operand(Div, group)], 1000, [(Div, 10)]);
    assert TruncDiv(1000, 10) == 100 by {
      TruncDivUnique(1000, 10, 100);
    }
    FoldMulSnoc(1000, [], (Div, 10));
  }

  /** X / (I - I) fails with a division by zero. */
  lemma DivideByZeroFails()
    ensures Eval(StrongTerm(Numeral("X"),
      [Operand(Div, Factor(None, Group(Expr(Term(Single(Numeral("I")), [Operand(Sub, Single(Numeral("I")))])))))]))
      == Err(DivisionByZero)
  {
    var zero := Term(Single(Numeral("I")), [Operand(Sub, Single(Numeral("I")))]);
    NumeralValue("I", 1);
    NumeralValue("X", 10);
    OperandsOne(Operand(Sub, Single(Numeral("I"))), 1);
    TermValue(Single(Numeral("I")), [Operand(Sub, Single(Numeral("I")))], 1, [(Sub, 1)]);
    var group := Factor(None, Group(Expr(zero)));
    GroupValue(zero);
    OperandsOne(Operand(Div, group), 0);
    StrongTermValue(Numeral("X"), [Operand(Div, group)], 10, [(Div, 0)]);
    FoldMulSnoc(10, [], (Div, 0));
  }

  /** -VII / II is -3: the quotient is truncated toward zero, not floored to -4. */
  lemma NegativeQuotientTruncates()
    ensures Eval(StrongTerm(Factor(Some(Neg), Roman("VII")), [Operand(Div, Numeral("II"))])) == Ok(-3)
  {
    assert Eval(Factor(Some(Neg), Roman("VII"))) == Ok(-7) by {
      assert Decode("VII") == 7;
    }
    NumeralValue("II", 2);
    OperandsOne(Operand(Div, Numeral("II")), 2);
    StrongTermValue(Factor(Some(Neg), Roman("VII")), [Operand(Div, Numeral("II"))], -7, [(Div, 2)]);
    TruncDivExamples();
    FoldMulSnoc(-7, [], (Div, 2));
  }
}
