// What the operators of plural expressions compute, in terms of numbers
// (intl/eval-plural.h).
module PluralMeaning {
  import opened Words
  import opened PluralExp
  import opened PluralGrammar

  // The six comparisons compare numbers, and give 1 or 0
  lemma ComparisonsCompare(l: Expr, r: Expr, n: Word)
    requires PluralEval(l, n).Some? && PluralEval(r, n).Some?
    ensures var a, b := PluralEval(l, n).value, PluralEval(r, n).value;
            && PluralEval(Bin(LessThan, l, r), n) == Some(if a < b then 1 else 0)
            && PluralEval(Bin(GreaterThan, l, r), n) == Some(if a > b then 1 else 0)
            && PluralEval(Bin(LessOrEqual, l, r), n) == Some(if a <= b then 1 else 0)
            && PluralEval(Bin(GreaterOrEqual, l, r), n) == Some(if a >= b then 1 else 0)
            && PluralEval(Bin(Equal, l, r), n) == Some(if a == b then 1 else 0)
            && PluralEval(Bin(NotEqual, l, r), n) == Some(if a != b then 1 else 0)
  {
  }

  // Sums, differences and products are those of the integers modulo 2^32
  lemma SumIsModular(l: Expr, r: Expr, n: Word)
    requires PluralEval(l, n).Some? && PluralEval(r, n).Some?
    ensures var sum := PluralEval(Bin(Plus, l, r), n);
            sum.Some? && (PluralEval(l, n).value + PluralEval(r, n).value - sum.value) % 0x1_0000_0000 == 0
  {
    Reduced(PluralEval(l, n).value + PluralEval(r, n).value);
  }

  lemma DifferenceIsModular(l: Expr, r: Expr, n: Word)
    requires PluralEval(l, n).Some? && PluralEval(r, n).Some?
    ensures var difference := PluralEval(Bin(Minus, l, r), n);
            && difference.Some?
            && (PluralEval(l, n).value - PluralEval(r, n).value - difference.value) % 0x1_0000_0000 == 0
  {
    Reduced(PluralEval(l, n).value - PluralEval(r, n).value);
  }

  lemma {:induction false} ProductIsModular(l: Expr, r: Expr, n: Word)
    requires PluralEval(l, n).Some? && PluralEval(r, n).Some?
    ensures var product := PluralEval(Bin(Mult, l, r), n);
            product.Some? && (PluralEval(l, n).value * PluralEval(r, n).value - product.value) % 0x1_0000_0000 == 0
  {
    var product := PluralEval(l, n).value * PluralEval(r, n).value;
    Reduced(product);
    assert PluralEval(Bin(Mult, l, r), n) == Some(product % ULONG_MODULUS);
  }

  lemma Reduced(x: int)
    ensures (x - x % ULONG_MODULUS) % ULONG_MODULUS == 0
  {
  }

  // Dividing by zero has no value; otherwise the quotient and the remainder give the
  // dividend back
  lemma DivisionIsExact(l: Expr, r: Expr, n: Word)
    requires PluralEval(l, n).Some? && PluralEval(r, n).Some?
    ensures var a, b := PluralEval(l, n).value, PluralEval(r, n).value;
            var quotient, remainder := PluralEval(Bin(Divide, l, r), n), PluralEval(Bin(Module, l, r), n);
            if b == 0 then quotient == None && remainder == None
            else
              && quotient.Some? && remainder.Some? && remainder.value < b
              && quotient.value * b + remainder.value == a
  {
    hide Compute;
    if PluralEval(r, n).value != 0 {
      QuotientAndRemainder(PluralEval(l, n).value, PluralEval(r, n).value);
    } else {
      NoQuotient(PluralEval(l, n).value);
    }
  }

  lemma QuotientAndRemainder(a: Word, b: Word)
    requires b != 0
    ensures var quotient, remainder := Compute(Divide, a, b), Compute(Module, a, b);
            && quotient.Some? && remainder.Some? && remainder.value < b
            && quotient.value * b + remainder.value == a
  {
    var q, r := a / b, a % b;
    assert a == q * b + r && r < b;
    assert Compute(Divide, a, b) == Some(q) && Compute(Module, a, b) == Some(r);
  }

  lemma NoQuotient(a: Word)
    ensures Compute(Divide, a, 0) == None && Compute(Module, a, 0) == None
  {
  }

  // Both, either, not and the choice.  An operand that C does not evaluate may divide
  // by zero.
  lemma LogicIsLazy(l: Expr, r: Expr, other: Expr, n: Word)
    requires PluralEval(l, n).Some?
    ensures PluralEval(Lnot(l), n) == Some(if PluralEval(l, n).value == 0 then 1 else 0)
    ensures PluralEval(l, n).value == 0 ==>
              && PluralEval(Bin(Land, l, r), n) == Some(0)
              && PluralEval(Bin(Lor, l, r), n) == PluralEval(Lnot(Lnot(r)), n)
              && PluralEval(Qmop(l, r, other), n) == PluralEval(other, n)
    ensures PluralEval(l, n).value != 0 ==>
              && PluralEval(Bin(Lor, l, r), n) == Some(1)
              && PluralEval(Bin(Land, l, r), n) == PluralEval(Lnot(Lnot(r)), n)
              && PluralEval(Qmop(l, r, other), n) == PluralEval(r, n)
  {
    if PluralEval(r, n).Some? {
      assert PluralEval(Lnot(r), n) == Some(Truth(PluralEval(r, n).value == 0));
    }
  }

  // The rule of languages with a form for one and a form for all else, as text
  lemma GermanicRule(n: Word)
    ensures TokenValue([VAR, OP(NotEqual), NUMBER(1)], n) == Some(Some(if n == 1 then 0 else 1))
  {
    var c := CBin(NotEqual, CVar, CNum(1));
    assert Yield(c) == [VAR, OP(NotEqual), NUMBER(1)];
    EvalIsTokenValue(c, n);
    ComparisonsCompare(Var, Num(1), n);
  }

  // n%10 between two numbers, and n%100 outside of the teens
  const ENDS_IN_FEW: Expr :=
    Bin(Land, Bin(GreaterOrEqual, Bin(Module, Var, Num(10)), Num(2)),
        Bin(LessOrEqual, Bin(Module, Var, Num(10)), Num(4)))

  const NO_TEEN: Expr :=
    Bin(Lor, Bin(LessThan, Bin(Module, Var, Num(100)), Num(10)),
        Bin(GreaterOrEqual, Bin(Module, Var, Num(100)), Num(20)))

  lemma FewOf(n: Word)
    ensures PluralEval(ENDS_IN_FEW, n) == Some(if 2 <= n % 10 <= 4 then 1 else 0)
  {
    Remainders(n);
    ComparisonsCompare(Bin(Module, Var, Num(10)), Num(2), n);
    ComparisonsCompare(Bin(Module, Var, Num(10)), Num(4), n);
  }

  lemma TeenOf(n: Word)
    ensures PluralEval(NO_TEEN, n) == Some(if 10 <= n % 100 < 20 then 0 else 1)
  {
    Remainders(n);
    ComparisonsCompare(Bin(Module, Var, Num(100)), Num(10), n);
    ComparisonsCompare(Bin(Module, Var, Num(100)), Num(20), n);
  }

  lemma Remainders(n: Word)
    ensures PluralEval(Bin(Module, Var, Num(10)), n) == Some(n % 10)
    ensures PluralEval(Bin(Module, Var, Num(100)), n) == Some(n % 100)
  {
  }

  // The rule of Polish: n==1 ? 0 : n%10>=2 && n%10<=4 && (n%100<10 || n%100>=20) ? 1 : 2
  lemma PolishRule(n: Word)
    ensures PluralEval(Qmop(Bin(Equal, Var, Num(1)), Num(0), Qmop(Bin(Land, ENDS_IN_FEW, NO_TEEN), Num(1), Num(2))), n)
            == Some(if n == 1 then 0
                    else if 2 <= n % 10 <= 4 && !(10 <= n % 100 < 20) then 1
                    else 2)
  {
    FewOf(n);
    TeenOf(n);
    ComparisonsCompare(Var, Num(1), n);
    var test, few := Bin(Equal, Var, Num(1)), Bin(Land, ENDS_IN_FEW, NO_TEEN);
    LogicIsLazy(ENDS_IN_FEW, NO_TEEN, Num(0), n);
    LogicIsLazy(few, Num(1), Num(2), n);
    LogicIsLazy(test, Num(0), Qmop(few, Num(1), Num(2)), n);
  }
}
