// Expressions that select a plural form, and their evaluation
// (intl/plural-exp.h, intl/eval-plural.h).
module PluralExp {
  import opened Words

  // The two-argument members of enum operator
  datatype BinOp =
    | Mult | Divide | Module
    | Plus | Minus
    | LessThan | GreaterThan | LessOrEqual | GreaterOrEqual
    | Equal | NotEqual
    | Land
    | Lor

  // struct expression: each constructor stands for one value of nargs
  datatype Expr =
    | Var
    | Num(n: Word)
    | Lnot(arg: Expr)
    | Bin(op: BinOp, left: Expr, right: Expr)
    | Qmop(test: Expr, yes: Expr, no: Expr)

  // The operators that evaluate both operands; None stands for SIGFPE
  function Compute(op: BinOp, a: Word, b: Word): Option<Word>
    requires !op.Land? && !op.Lor?
  {
    match op
    case Mult => Some((a * b) % ULONG_MODULUS)
    case Divide => if b == 0 then None else Some(Quotient(a, b))
    case Module => if b == 0 then None else Some(a % b)
    case Plus => Some((a + b) % ULONG_MODULUS)
    case Minus => Some((a - b) % ULONG_MODULUS)
    case LessThan => Some(Truth(a < b))
    case GreaterThan => Some(Truth(a > b))
    case LessOrEqual => Some(Truth(a <= b))
    case GreaterOrEqual => Some(Truth(a >= b))
    case Equal => Some(Truth(a == b))
    case NotEqual => Some(Truth(a != b))
  }

  function Quotient(a: Word, b: Word): Word
    requires b != 0
  {
    QuotientFits(a, b);
    a / b
  }

  lemma ProductGrows(q: int, b: int)
    requires b >= 1
    ensures q >= 0 ==> q * b >= q
    ensures q < 0 ==> q * b < 0
    decreases b
  {
    if b > 1 {
      ProductGrows(q, b - 1);
      assert q * b == q * (b - 1) + q;
    }
  }

  lemma QuotientFits(a: nat, b: nat)
    requires b != 0
    ensures 0 <= a / b <= a
  {
    var q, r := a / b, a % b;
    assert a == q * b + r && 0 <= r < b;
    ProductGrows(q, b);
    ProductGrows(q + 1, b);
    assert (q + 1) * b == q * b + b;
  }

  // plural_eval
  function PluralEval(e: Expr, n: Word): Option<Word> {
    match e
    case Var => Some(n)
    case Num(k) => Some(k)
    case Lnot(arg) =>
      var a :- PluralEval(arg, n);
      Some(Truth(a == 0))
    case Bin(op, left, right) =>
      var a :- PluralEval(left, n);
      if op == Lor then
        if a != 0 then Some(1)
        else
          var b :- PluralEval(right, n);
          Some(Truth(b != 0))
      else if op == Land then
        if a == 0 then Some(0)
        else
          var b :- PluralEval(right, n);
          Some(Truth(b != 0))
      else
        var b :- PluralEval(right, n);
        Compute(op, a, b)
    case Qmop(test, yes, no) =>
      var a :- PluralEval(test, n);
      if a != 0 then PluralEval(yes, n) else PluralEval(no, n)
  }
}
