/** Values of selection expressions and their operators (src/rec-sex.c). */
module SexValues {
  import opened Wrappers
  import opened RecData
  import opened Numbers
  import opened Foreign

  datatype Val = IntVal(i: CInt) | RealVal(r: real) | StrVal(s: string)

  datatype Op =
    | Add | Sub | Mul | Div | Mod
    | Eql | Neq | Mat | Lt | Lte | Gt | Gte
    | And | Or | Implies
    | Before | After | SameTime
    | Concat

  // ----- conversions of operands

  /** An operand taken as an integer. The source has no case for reals. */
  function AsInt(env: Env, v: Val, operand: nat): Option<CInt> {
    match v
    case IntVal(i) => Some(i)
    case RealVal(_) => Some(env.unset(operand))
    case StrVal(s) => if s == "" then Some(0) else Atoi(s)
  }

  function AsReal(env: Env, v: Val): Option<real> {
    match v
    case IntVal(i) => Some(i as real)
    case RealVal(r) => Some(r)
    case StrVal(s) => if s == "" then Some(0.0) else Atod(env, s)
  }

  function AsTime(env: Env, v: Val): Option<Time> {
    match v
    case StrVal(s) => env.date(s)
    case _ => None
  }

  predicate IsIntString(v: Val) { v.StrVal? && Atoi(v.s).Some? }

  predicate IsRealString(env: Env, v: Val) { v.StrVal? && Atod(env, v.s).Some? && Atoi(v.s).None? }

  /** `rec_sex_op_real_p`: whether the operation is done on reals. */
  function OpReal(env: Env, a: Val, b: Val): bool {
    var afterInt :=
      if a.IntVal? || IsIntString(a) then
        match b
        case IntVal(_) => false
        case RealVal(_) => true
        case StrVal(_) => IsRealString(env, b)
      else true;
    if a.RealVal? || IsRealString(env, a) then
      match b
      case IntVal(_) => true
      case RealVal(_) => true
      case StrVal(s) => Atod(env, s).Some?
    else afterInt
  }

  // ----- arithmetic

  function Abs(x: int): nat { if x < 0 then -x else x }

  lemma ProductNotNegative(x: nat, y: nat)
    ensures 0 <= x * y
  {
  }

  lemma NatQuotient(a: nat, b: nat)
    requires b != 0
    ensures 0 <= (a / b) * b <= a < (a / b) * b + b && a / b <= a
  {
    var q, r := a / b, a % b;
    assert a == q * b + r;
    ProductNotNegative(q, b);
    ProductNotNegative(q, b - 1);
    assert q * b == q + q * (b - 1);
  }

  lemma Signs(q: int, b: int)
    requires q >= 0
    ensures q * b == if b < 0 then -(q * Abs(b)) else q * Abs(b)
    ensures (-q) * b == -(q * b)
  {
  }

  function TowardsZero(a: int, b: int): int
    requires b != 0
  {
    var q := Abs(a) / Abs(b);
    if (a < 0) == (b < 0) then q else -q
  }

  lemma TruncatedProduct(a: int, b: int)
    requires b != 0
    ensures var q := TowardsZero(a, b);
            && q * b == (if a < 0 then -1 else 1) * ((Abs(a) / Abs(b)) * Abs(b))
            && Abs(q) == Abs(a) / Abs(b)
  {
    ghost var q: nat := Abs(a) / Abs(b);
    Signs(q, b);
  }

  /** Division that truncates towards zero. */
  function Quotient(a: int, b: int): (q: int)
    requires b != 0
    ensures Abs(q * b) <= Abs(a) && (a >= 0 ==> q * b >= 0) && (a <= 0 ==> q * b <= 0)
    ensures Abs(a - q * b) < Abs(b) && Abs(q) <= Abs(a)
  {
    NatQuotient(Abs(a), Abs(b));
    TruncatedProduct(a, b);
    TowardsZero(a, b)
  }

  /** The remainder that goes with it has the sign of the dividend. */
  function Remainder(a: int, b: int): (r: int)
    requires b != 0
    ensures Abs(r) <= Abs(a) && Abs(r) < Abs(b) && (a >= 0 ==> r >= 0) && (a <= 0 ==> r <= 0)
  {
    a - Quotient(a, b) * b
  }

  /** Arithmetic on `int`; overflow keeps the low 32 bits. */
  function IntArith(op: Op, x: CInt, y: CInt): Option<Val> {
    match op
    case Add => Some(IntVal(ToInt(x + y)))
    case Sub => Some(IntVal(ToInt(x - y)))
    case Mul => Some(IntVal(ToInt(x * y)))
    case Div => if y == 0 then None else Some(IntVal(ToInt(Quotient(x, y))))
    case Mod => if y == 0 then None else Some(IntVal(ToInt(Remainder(x, y))))
    case _ => None
  }

  /** Real subtraction computes with two integers that were never set. */
  function RealArith(env: Env, op: Op, x: real, y: real): Option<Val> {
    match op
    case Add => Some(RealVal(x + y))
    case Sub => Some(RealVal(ToInt(env.unset(1) - env.unset(2)) as real))
    case Mul => Some(RealVal(x * y))
    case Div => Some(RealVal(env.divide(x, y)))
    case _ => None
  }

  // ----- comparisons

  function Truth(b: bool): Val { IntVal(if b then 1 else 0) }

  predicate IntHolds(op: Op, x: int, y: int) {
    match op
    case Eql => x == y
    case Neq => x != y
    case Lt => x < y
    case Lte => x <= y
    case Gt => x > y
    case Gte => x >= y
    case _ => false
  }

  predicate RealHolds(op: Op, x: real, y: real) {
    match op
    case Eql => x == y
    case Neq => x != y
    case Lt => x < y
    case Lte => x <= y
    case Gt => x > y
    case Gte => x >= y
    case _ => false
  }

  predicate SameString(env: Env, a: string, b: string) {
    if env.caseInsensitive then env.sameFolded(a, b) else a == b
  }

  // ----- time

  predicate TimeHolds(op: Op, x: Time, y: Time) {
    var (diff, negative) := Subtract(x, y);
    match op
    case Before => negative
    case After => !negative && (diff.sec != 0 || diff.nsec != 0)
    case SameTime => diff.sec == 0 && diff.nsec == 0
    case _ => false
  }

  /** Exactly one of before, after and same time holds of two times. */
  lemma TimesOrdered(x: Time, y: Time)
    ensures TimeHolds(Before, x, y) <==> Total(x) < Total(y)
    ensures TimeHolds(After, x, y) <==> Total(y) < Total(x)
    ensures TimeHolds(SameTime, x, y) <==> Total(x) == Total(y)
  {
  }

  // ----- the operators

  predicate Logic(op: Op, x: bool, y: bool) {
    match op
    case And => x && y
    case Or => x || y
    case Implies => !x || (x && y)
    case _ => false
  }

  /** Arithmetic or comparison of two integers, from operands that convert. */
  function OnInts(env: Env, op: Op, a: Val, b: Val): Option<Val> {
    var x, y := AsInt(env, a, 1), AsInt(env, b, 2);
    if x.None? || y.None? then None
    else if op.Add? || op.Sub? || op.Mul? || op.Div? || op.Mod? then IntArith(op, x.value, y.value)
    else if op.And? || op.Or? || op.Implies? then Some(Truth(Logic(op, x.value != 0, y.value != 0)))
    else Some(Truth(IntHolds(op, x.value, y.value)))
  }

  function OnReals(env: Env, op: Op, a: Val, b: Val): Option<Val> {
    var x, y := AsReal(env, a), AsReal(env, b);
    if x.None? || y.None? then None
    else if op.Add? || op.Sub? || op.Mul? || op.Div? then RealArith(env, op, x.value, y.value)
    else Some(Truth(RealHolds(op, x.value, y.value)))
  }

  /** An operator applied to the values of its operands; None when the evaluation fails. */
  function Apply(env: Env, op: Op, a: Val, b: Val): Option<Val> {
    match op
    case Mod | And | Or | Implies => OnInts(env, op, a, b)
    case Mat => if a.StrVal? && b.StrVal? then Some(Truth(env.matches(a.s, b.s, env.caseInsensitive))) else None
    case Concat => if a.StrVal? && b.StrVal? then Some(StrVal(a.s + b.s)) else None
    case Before | After | SameTime =>
      var x, y := AsTime(env, a), AsTime(env, b);
      if x.None? || y.None? then None else Some(Truth(TimeHolds(op, x.value, y.value)))
    case Eql | Neq =>
      if a.StrVal? && b.StrVal? then Some(Truth(SameString(env, a.s, b.s) == op.Eql?))
      else if OpReal(env, a, b) then OnReals(env, op, a, b) else OnInts(env, op, a, b)
    case _ => if OpReal(env, a, b) then OnReals(env, op, a, b) else OnInts(env, op, a, b)
  }

  lemma AtLeastTwice(q: nat, y: int)
    ensures Abs(y) >= 2 ==> Abs(q * y) >= 2 * q
  {
    if Abs(y) >= 2 {
      Signs(q, y);
      ProductNotNegative(q, Abs(y) - 2);
      assert q * Abs(y) == 2 * q + q * (Abs(y) - 2);
    }
  }

  /** A quotient of two ints overflows exactly when the least of them is divided by -1, which
      C leaves undefined. */
  lemma QuotientOverflow(x: CInt, y: CInt)
    requires y != 0
    ensures var q := Quotient(x, y);
            && (INT_MIN <= q <= INT_MAX <==> !(x == INT_MIN && y == -1))
            && (x == INT_MIN && y == -1 ==> q == -INT_MIN)
            && INT_MIN <= q * y <= INT_MAX
  {
    var q := Quotient(x, y);
    hide Quotient;
    AtLeastTwice(Abs(q), y);
  }

  /** Dividing, multiplying back and adding the remainder gives the dividend, for every divisor
      other than zero. Where C leaves the quotient undefined, this is the low 32 bits. */
  lemma DivideBack(x: CInt, y: CInt)
    requires y != 0
    ensures var q, m := IntArith(Div, x, y), IntArith(Mod, x, y);
            && q.Some? && q.value.IntVal? && m.Some? && m.value.IntVal?
            && var p := IntArith(Mul, q.value.i, y);
               p.Some? && p.value.IntVal? && IntArith(Add, p.value.i, m.value.i) == Some(IntVal(x))
  {
    var q, r := Quotient(x, y), Remainder(x, y);
    QuotientOverflow(x, y);
    hide Quotient;
    assert q * y + r == x;
    if x == INT_MIN && y == -1 {
      assert ToInt(q) == INT_MIN && q * y == x && r == 0;
    } else {
      hide ToInt;
      assert ToInt(q) == q && ToInt(q * y) == q * y && ToInt(r) == r && ToInt(x) == x;
    }
  }

  /** Subtraction undoes addition. Where C leaves the sum undefined, this is the low 32
      bits. */
  lemma SubtractBack(x: CInt, y: CInt)
    ensures var s := IntArith(Add, x, y);
            s.Some? && s.value.IntVal? && IntArith(Sub, s.value.i, y) == Some(IntVal(x))
  {
  }

  function Negate(env: Env, a: Val): Option<Val> {
    var x := AsInt(env, a, 1);
    if x.None? then None else Some(Truth(x.value == 0))
  }

  /** The comparison that holds exactly when the given one does not. */
  function Opposite(op: Op): Op {
    match op
    case Eql => Neq
    case Neq => Eql
    case Lt => Gte
    case Gte => Lt
    case Gt => Lte
    case Lte => Gt
    case _ => op
  }

  predicate IsComparison(op: Op) { op.Eql? || op.Neq? || op.Lt? || op.Lte? || op.Gt? || op.Gte? }

  /** Opposite comparisons fail on the same operands and otherwise disagree. */
  lemma OppositeDisagrees(env: Env, op: Op, a: Val, b: Val)
    requires IsComparison(op)
    ensures var x, y := Apply(env, op, a, b), Apply(env, Opposite(op), a, b);
            if x.None? then y.None? else y.Some? && Negate(env, x.value) == y
  {
    hide Atoi;
    hide OnInts;
    hide OnReals;
    hide OpReal;
    OppositeNumbers(env, op, a, b);
  }

  lemma OppositeNumbers(env: Env, op: Op, a: Val, b: Val)
    requires IsComparison(op)
    ensures var x, y := OnInts(env, op, a, b), OnInts(env, Opposite(op), a, b);
            if x.None? then y.None? else y.Some? && Negate(env, x.value) == y
    ensures var x, y := OnReals(env, op, a, b), OnReals(env, Opposite(op), a, b);
            if x.None? then y.None? else y.Some? && Negate(env, x.value) == y
  {
    hide AsReal;
    hide Atoi;
  }

  /** `strtod` reads every number that `strtol` reads, as it does in C. */
  ghost predicate ReadsIntegers(env: Env) { forall s :: Atoi(s).Some? ==> env.strtod(s).Some? }

  predicate IsNumber(env: Env, v: Val) { !v.StrVal? || Atoi(v.s).Some? || Atod(env, v.s).Some? }

  /** With a missing field as one operand. */
  lemma MissingOperand(env: Env, op: Op, b: Val)
    requires (op.Add? || op.Mul?) && ReadsIntegers(env)
    ensures Apply(env, op, StrVal(""), b) == Apply(env, op, b, StrVal("")) <==> !IsNumber(env, b)
  {
    assert Atoi("").None?;
    hide Atoi;
    hide ToInt;
  }

  lemma PresentOperands(env: Env, op: Op, a: Val, b: Val)
    requires (op.Add? || op.Mul?) && ReadsIntegers(env) && a != StrVal("") && b != StrVal("")
    ensures Apply(env, op, a, b) == Apply(env, op, b, a)
  {
    hide Atoi;
    assert a.StrVal? && Atoi(a.s).Some? ==> Atod(env, a.s).Some?;
    assert b.StrVal? && Atoi(b.s).Some? ==> Atod(env, b.s).Some?;
    hide ReadsIntegers;
    hide IntArith;
    hide RealArith;
    var x, y, r, q := AsInt(env, a, 1), AsInt(env, b, 2), AsReal(env, a), AsReal(env, b);
    if x.Some? && y.Some? {
      IntsCommute(op, x.value, y.value);
    }
    if r.Some? && q.Some? {
      RealsCommute(env, op, r.value, q.value);
    }
  }

  /** Addition and multiplication commute exactly unless one operand is the empty string, as a
      missing field is, and the other is a number. */
  lemma CommutesIff(env: Env, op: Op, a: Val, b: Val)
    requires (op.Add? || op.Mul?) && ReadsIntegers(env)
    ensures Apply(env, op, a, b) == Apply(env, op, b, a) <==>
            !((a == StrVal("") && IsNumber(env, b)) || (b == StrVal("") && IsNumber(env, a)))
  {
    hide Apply;
    if a == StrVal("") {
      MissingOperand(env, op, b);
    } else if b == StrVal("") {
      MissingOperand(env, op, a);
    } else {
      PresentOperands(env, op, a, b);
    }
  }

  lemma IntsCommute(op: Op, x: CInt, y: CInt)
    requires op.Add? || op.Mul?
    ensures IntArith(op, x, y).Some? && IntArith(op, x, y).value.IntVal? && IntArith(op, x, y) == IntArith(op, y, x)
  {
    assert x * y == y * x;
  }

  lemma RealsCommute(env: Env, op: Op, x: real, y: real)
    requires op.Add? || op.Mul?
    ensures RealArith(env, op, x, y).Some? && RealArith(env, op, x, y).value.RealVal?
    ensures RealArith(env, op, x, y) == RealArith(env, op, y, x)
  {
    assert x * y == y * x;
  }

  /** How they differ: adding to a missing field gives a real, which selects nothing; adding a
      missing field to an integer gives an integer, and adding it to a string that is a real
      number fails. */
  lemma AddMissingField(env: Env, s: string, r: real)
    requires Atoi(s).None? && Atod(env, s) == Some(r)
    ensures Apply(env, Add, StrVal(""), IntVal(1)) == Some(RealVal(1.0))
    ensures Apply(env, Add, IntVal(1), StrVal("")) == Some(IntVal(1))
    ensures Apply(env, Add, StrVal(""), StrVal(s)) == Some(RealVal(r))
    ensures Apply(env, Add, StrVal(s), StrVal("")) == None
  {
    assert Atoi("").None?;
    hide Atoi;
  }
}
