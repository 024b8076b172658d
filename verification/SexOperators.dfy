/** What the operators of selection expressions mean in terms of numbers, strings and times, and
    what simple expressions select (src/rec-sex.c). */
module SexOperators {
  import opened Wrappers
  import opened RecData
  import opened Foreign
  import opened Lookups
  import opened Numbers
  import opened SexValues
  import opened Sex
  import opened SexMeaning

  // ----- operands

  /** The operand is that integer, as a value or as a string. */
  predicate IsInt(v: Val, x: CInt) { v == IntVal(x) || (v.StrVal? && Atoi(v.s) == Some(x)) }

  /** The operand is that integer, or zero because the field is missing. */
  predicate IsIntOrMissing(v: Val, x: CInt) { IsInt(v, x) || (v == StrVal("") && x == 0) }

  /** The operand is that real number and no integer. */
  predicate IsReal(env: Env, v: Val, x: real) {
    v == RealVal(x) || (v.StrVal? && Atoi(v.s).None? && Atod(env, v.s) == Some(x))
  }

  /** The operand is a number with that value as a real. */
  predicate IsAnyNumber(env: Env, v: Val, x: real) {
    IsReal(env, v, x) || (v.IntVal? && x == v.i as real) || (v.StrVal? && Atoi(v.s).Some? && Atod(env, v.s) == Some(x))
  }

  function Bit(b: bool): Option<Val> { Some(IntVal(if b then 1 else 0)) }

  lemma PrintedInt(x: CInt)
    ensures IsInt(StrVal(Dec(x)), x)
  {
    hide Atoi;
    AtoiPrinted(x);
  }

  lemma IntsAreNotReal(env: Env, a: Val, b: Val, x: CInt, y: CInt)
    requires IsInt(a, x) && IsInt(b, y)
    ensures !OpReal(env, a, b) && AsInt(env, a, 1) == Some(x) && AsInt(env, b, 2) == Some(y)
  {
    assert Atoi("").None?;
    hide Atoi;
  }

  // ----- comparisons

  /** The relation a comparison stands for. */
  predicate Related(op: Op, x: int, y: int) {
    match op
    case Lt => x < y
    case Lte => x <= y
    case Gt => x > y
    case Gte => x >= y
    case Eql => x == y
    case Neq => x != y
    case _ => false
  }

  lemma OnIntsCompares(env: Env, op: Op, a: Val, b: Val, x: CInt, y: CInt)
    requires IsComparison(op) && AsInt(env, a, 1) == Some(x) && AsInt(env, b, 2) == Some(y)
    ensures OnInts(env, op, a, b) == Bit(Related(op, x, y))
  {
    hide AsInt;
  }

  predicate RelatedReals(op: Op, x: real, y: real) {
    match op
    case Lt => x < y
    case Lte => x <= y
    case Gt => x > y
    case Gte => x >= y
    case Eql => x == y
    case Neq => x != y
    case _ => false
  }

  lemma OnRealsCompares(env: Env, op: Op, a: Val, b: Val, x: real, y: real)
    requires IsComparison(op) && AsReal(env, a) == Some(x) && AsReal(env, b) == Some(y)
    ensures OnReals(env, op, a, b) == Bit(RelatedReals(op, x, y))
  {
    hide AsReal;
  }

  /** Which comparison is made. */
  lemma ApplyCompares(env: Env, op: Op, a: Val, b: Val)
    requires IsComparison(op) && !((op.Eql? || op.Neq?) && a.StrVal? && b.StrVal?)
    ensures Apply(env, op, a, b) == if OpReal(env, a, b) then OnReals(env, op, a, b) else OnInts(env, op, a, b)
  {
    hide OpReal;
    hide OnInts;
    hide OnReals;
  }

  /** Integers, also as strings, compare as integers; but two strings are equal as strings. */
  lemma IntComparisons(env: Env, op: Op, a: Val, b: Val, x: CInt, y: CInt)
    requires IsInt(a, x) && IsInt(b, y)
    requires IsComparison(op) && !((op.Eql? || op.Neq?) && a.StrVal? && b.StrVal?)
    ensures Apply(env, op, a, b) == Bit(Related(op, x, y))
  {
    hide Apply;
    hide OnInts;
    hide OpReal;
    hide AsInt;
    hide Related;
    IntsAreNotReal(env, a, b, x, y);
    ApplyCompares(env, op, a, b);
    OnIntsCompares(env, op, a, b, x, y);
  }

  lemma RealsAreReal(env: Env, a: Val, b: Val, x: real, y: real)
    requires IsAnyNumber(env, a, x) && IsAnyNumber(env, b, y) && (IsReal(env, a, x) || IsReal(env, b, y))
    ensures OpReal(env, a, b) && AsReal(env, a) == Some(x) && AsReal(env, b) == Some(y)
  {
    hide Atoi;
  }

  /** If one number is no integer, both compare as reals. */
  lemma RealComparisons(env: Env, op: Op, a: Val, b: Val, x: real, y: real)
    requires IsAnyNumber(env, a, x) && IsAnyNumber(env, b, y) && (IsReal(env, a, x) || IsReal(env, b, y))
    requires IsComparison(op) && !((op.Eql? || op.Neq?) && a.StrVal? && b.StrVal?)
    ensures Apply(env, op, a, b) == Bit(RelatedReals(op, x, y))
  {
    hide Apply;
    hide OnReals;
    hide OpReal;
    hide AsReal;
    hide RelatedReals;
    RealsAreReal(env, a, b, x, y);
    ApplyCompares(env, op, a, b);
    OnRealsCompares(env, op, a, b, x, y);
  }

  lemma StringComparisons(env: Env, s: string, t: string)
    requires !env.caseInsensitive
    ensures Apply(env, Eql, StrVal(s), StrVal(t)) == Bit(s == t) && Apply(env, Neq, StrVal(s), StrVal(t)) == Bit(s != t)
  {
  }

  /** Two strings can be put in order exactly when they are numbers, or the first is missing, or
      the second is missing and the first an integer. */
  lemma ComparableIff(env: Env, op: Op, s: string, t: string)
    requires (op.Lt? || op.Lte? || op.Gt? || op.Gte?) && ReadsIntegers(env)
    ensures Apply(env, op, StrVal(s), StrVal(t)).Some? <==>
            if t == "" then s == "" || Atoi(s).Some?
            else (s == "" || Atod(env, s).Some?) && Atod(env, t).Some?
  {
    assert Atoi("").None?;
    hide Atoi;
    assert Atoi(s).Some? ==> Atod(env, s).Some?;
    assert Atoi(t).Some? ==> Atod(env, t).Some?;
    hide ReadsIntegers;
    OrderSucceeds(env, op, StrVal(s), StrVal(t));
    hide OnInts;
    hide OnReals;
    if OpReal(env, StrVal(s), StrVal(t)) {
      assert Apply(env, op, StrVal(s), StrVal(t)) == OnReals(env, op, StrVal(s), StrVal(t));
    } else {
      assert Apply(env, op, StrVal(s), StrVal(t)) == OnInts(env, op, StrVal(s), StrVal(t));
    }
  }

  lemma OrderSucceeds(env: Env, op: Op, a: Val, b: Val)
    requires op.Lt? || op.Lte? || op.Gt? || op.Gte?
    ensures OnInts(env, op, a, b).Some? <==> AsInt(env, a, 1).Some? && AsInt(env, b, 2).Some?
    ensures OnReals(env, op, a, b).Some? <==> AsReal(env, a).Some? && AsReal(env, b).Some?
  {
    hide AsInt;
    hide AsReal;
  }

  // ----- arithmetic and logic

  lemma IntArithmetic(env: Env, a: Val, b: Val, x: CInt, y: CInt)
    requires IsInt(a, x) && IsInt(b, y)
    ensures INT_MIN <= x + y <= INT_MAX ==> Apply(env, Add, a, b) == Some(IntVal(x + y))
    ensures INT_MIN <= x - y <= INT_MAX ==> Apply(env, Sub, a, b) == Some(IntVal(x - y))
    ensures INT_MIN <= x * y <= INT_MAX ==> Apply(env, Mul, a, b) == Some(IntVal(x * y))
    ensures y == 0 ==> Apply(env, Div, a, b) == None && Apply(env, Mod, a, b) == None
  {
    IntsAreNotReal(env, a, b, x, y);
    hide OpReal;
    hide AsInt;
    hide OnReals;
    hide IntArith;
    IntResults(x, y);
  }

  lemma IntResults(x: CInt, y: CInt)
    ensures INT_MIN <= x + y <= INT_MAX ==> IntArith(Add, x, y) == Some(IntVal(x + y))
    ensures INT_MIN <= x - y <= INT_MAX ==> IntArith(Sub, x, y) == Some(IntVal(x - y))
    ensures INT_MIN <= x * y <= INT_MAX ==> IntArith(Mul, x, y) == Some(IntVal(x * y))
    ensures y == 0 ==> IntArith(Div, x, y) == None && IntArith(Mod, x, y) == None
  {
    hide ToInt;
  }

  /** Division truncates: the remainder is smaller than the divisor and has the sign of the
      dividend. */
  lemma IntDivision(env: Env, a: Val, b: Val, x: CInt, y: CInt)
    requires IsInt(a, x) && IsInt(b, y) && y != 0 && !(x == INT_MIN && y == -1)
    ensures var q, m := Apply(env, Div, a, b), Apply(env, Mod, a, b);
            && q.Some? && q.value.IntVal? && m.Some? && m.value.IntVal?
            && x == q.value.i * y + m.value.i && Abs(m.value.i) < Abs(y)
            && (x >= 0 ==> m.value.i >= 0) && (x <= 0 ==> m.value.i <= 0)
  {
    IntsAreNotReal(env, a, b, x, y);
    QuotientOverflow(x, y);
    hide OpReal;
    hide AsInt;
    hide OnReals;
    hide Quotient;
    var q, r := Quotient(x, y), Remainder(x, y);
    assert x == q * y + r && ToInt(q) == q && ToInt(r) == r;
    hide ToInt;
    hide Remainder;
    assert Apply(env, Div, a, b) == Some(IntVal(q)) && Apply(env, Mod, a, b) == Some(IntVal(r));
  }

  lemma RealArithmetic(env: Env, a: Val, b: Val, x: real, y: real)
    requires IsAnyNumber(env, a, x) && IsAnyNumber(env, b, y) && (IsReal(env, a, x) || IsReal(env, b, y))
    ensures Apply(env, Add, a, b) == Some(RealVal(x + y)) && Apply(env, Mul, a, b) == Some(RealVal(x * y))
    ensures Apply(env, Div, a, b) == Some(RealVal(env.divide(x, y)))
  {
    RealsAreReal(env, a, b, x, y);
    hide OpReal;
    hide AsReal;
    hide OnInts;
    hide RealArith;
    RealResults(env, x, y);
  }

  lemma RealResults(env: Env, x: real, y: real)
    ensures RealArith(env, Add, x, y) == Some(RealVal(x + y))
    ensures RealArith(env, Mul, x, y) == Some(RealVal(x * y))
    ensures RealArith(env, Div, x, y) == Some(RealVal(env.divide(x, y)))
  {
  }

  lemma IntOrMissing(env: Env, v: Val, x: CInt, operand: nat)
    requires IsIntOrMissing(v, x)
    ensures AsInt(env, v, operand) == Some(x)
  {
    assert Atoi("").None?;
    hide Atoi;
  }

  /** Every integer but zero counts as true. */
  lemma LogicMeans(env: Env, a: Val, b: Val, x: CInt, y: CInt)
    requires IsIntOrMissing(a, x) && IsIntOrMissing(b, y)
    ensures Apply(env, And, a, b) == Bit(x != 0 && y != 0) && Apply(env, Or, a, b) == Bit(x != 0 || y != 0)
    ensures Apply(env, Implies, a, b) == Bit(x != 0 ==> y != 0) && Negate(env, a) == Bit(x == 0)
  {
    hide AsInt;
    hide IsIntOrMissing;
    IntOrMissing(env, a, x, 1);
    IntOrMissing(env, b, y, 2);
  }

  // ----- times and strings

  ghost predicate Earlier(x: Time, y: Time) { x.sec < y.sec || (x.sec == y.sec && x.nsec < y.nsec) }

  lemma TimeComparisons(env: Env, s: string, t: string, x: Time, y: Time)
    requires env.date(s) == Some(x) && env.date(t) == Some(y)
    ensures Apply(env, Before, StrVal(s), StrVal(t)) == Bit(Earlier(x, y))
    ensures Apply(env, After, StrVal(s), StrVal(t)) == Bit(Earlier(y, x))
    ensures Apply(env, SameTime, StrVal(s), StrVal(t)) == Bit(x == y)
  {
  }

  /** The first operand of a match is the text, the second the pattern; a concatenation has the
      first operand in front. */
  lemma StringOperators(env: Env, s: string, t: string)
    ensures Apply(env, Mat, StrVal(s), StrVal(t)) == Bit(env.matches(s, t, env.caseInsensitive))
    ensures var r := Apply(env, Concat, StrVal(s), StrVal(t));
            r.Some? && r.value.StrVal? && |r.value.s| == |s| + |t| && s <= r.value.s && r.value.s[|s|..] == t
  {
  }

  // ----- nodes

  /** A conditional takes its second operand if the first is true, and otherwise the third. */
  lemma ConditionalMeans(env: Env, orig: seq<Elem>, es: seq<Elem>, node: Node, v: Val, x: CInt)
    requires node.Cond? && Meaning(env, orig, es, node.test) == Some(v) && IsIntOrMissing(v, x)
    requires Meaning(env, orig, es, node.yes).Some? && Meaning(env, orig, es, node.no).Some?
    ensures Meaning(env, orig, es, node) ==
            if x != 0 then Meaning(env, orig, es, node.yes) else Meaning(env, orig, es, node.no)
  {
    assert Atoi("").None?;
    hide Atoi;
    hide Apply;
    hide Negate;
    hide Count;
    hide Read;
  }

  /** A name reads the first field of that name or, with a subscript, the one with that ordinal;
      a subname is joined to the name with an underscore. */
  lemma NameMeans(es: seq<Elem>, id: nat, name: string, sub: string, i: CInt)
    requires i >= 0
    ensures var vs := Values(es, name);
            && Read(es, Name(id, name, None, -1)) == (if vs == [] then "" else vs[0])
            && Read(es, Name(id, name, None, i)) == if i < |vs| then vs[i] else ""
    ensures var vs := Values(es, name + "_" + sub);
            && Read(es, Name(id, name, Some(sub), -1)) == (if vs == [] then "" else vs[0])
            && Read(es, Name(id, name, Some(sub), i)) == if i < |vs| then vs[i] else ""
  {
  }

  /** A tree without subscripts meets the condition for the existential reading. */
  lemma NoSubscripts(env: Env, ast: Node, es: seq<Elem>)
    requires Subscripted(ast) == {}
    ensures ReachedFirst(env, ast, es)
  {
  }

  // ----- what simple expressions select

  /** A field against a literal. */
  function Compared(name: string, op: Op, lit: Node): Node { Binary(op, Name(0, name, None, -1), lit) }

  predicate IsLiteral(lit: Node) { lit.IntLit? || lit.RealLit? || lit.StrLit? }

  function LiteralValue(lit: Node): Val
    requires IsLiteral(lit)
  {
    match lit
    case IntLit(n) => IntVal(n)
    case RealLit(r) => RealVal(r)
    case StrLit(s) => StrVal(s)
  }

  lemma ComparedIs(env: Env, orig: seq<Elem>, es: seq<Elem>, name: string, op: Op, lit: Node)
    requires IsLiteral(lit)
    ensures var vs := Values(es, name);
            Meaning(env, orig, es, Compared(name, op, lit)) ==
            Apply(env, op, StrVal(if vs == [] then "" else vs[0]), LiteralValue(lit))
  {
    hide Apply;
    hide Values;
    NameMeans(es, 0, name, "", 0);
    hide Read;
    var n := Name(0, name, None, -1);
    assert Meaning(env, orig, es, n) == Some(StrVal(Read(es, n)));
    assert Meaning(env, orig, es, lit) == Some(LiteralValue(lit));
  }

  lemma ComparedTries(es: seq<Elem>, name: string, op: Op, lit: Node, other: string)
    requires IsLiteral(lit)
    ensures Distinct(Compared(name, op, lit)) && Subscripted(Compared(name, op, lit)) == {}
    ensures Tried(Compared(name, op, lit), es, other) <==> other == name && NumNamed(es, name) > 1
  {
    var n, ast, nf := Name(0, name, None, -1), Compared(name, op, lit), NumNamed(es, other);
    assert Names(n) == {n} && Names(lit) == {} && Names(ast) == {n};
    assert Subscripted(n) == {} && Subscripted(lit) == {};
    hide Names;
    assert (NameP(n, other, nf) <==> other == name) && !NameP(lit, other, nf);
    assert !HashNameP(n, other) && !HashNameP(lit, other);
    assert NameP(ast, other, nf) <==> NameP(n, other, nf);
    assert !HashNameP(ast, other);
  }

  /** Comparing a field with a literal selects a record exactly when the operator holds of some
      field of that name, however many there are. */
  lemma SelectsSome(env: Env, es: seq<Elem>, name: string, op: Op, lit: Node)
    requires IsLiteral(lit) && Values(es, name) != []
    ensures Holds(Run(env, Compared(name, op, lit), es).val) <==>
            exists v :: v in Values(es, name) && Holds(Apply(env, op, StrVal(v), LiteralValue(lit)))
  {
    hide Holds;
    hide Meaning;
    hide Run;
    hide Tried;
    hide Values;
    hide Variant;
    hide Apply;
    hide NumNamed;
    hide LiteralValue;
    hide IsLiteral;
    hide ReachedFirst;
    var ast, vs, c := Compared(name, op, lit), Values(es, name), LiteralValue(lit);
    hide Compared;
    ComparedTries(es, name, op, lit, name);
    NoSubscripts(env, ast, es);
    SelectsIff(env, ast, es);
    ComparedIs(env, es, es, name, op, lit);
    CountedValues(es, name);
    forall j: nat | j < |vs|
      ensures Meaning(env, es, Variant(es, name, j), ast) == Apply(env, op, StrVal(vs[j]), c)
    {
      VariantValues(es, name, j, name);
      ComparedIs(env, es, Variant(es, name, j), name, op, lit);
    }
    forall other | Tried(ast, es, other)
      ensures other == name
    {
      ComparedTries(es, name, op, lit, other);
    }
    assert vs[0] in vs;
    if exists v :: v in vs && Holds(Apply(env, op, StrVal(v), c)) {
      var v :| v in vs && Holds(Apply(env, op, StrVal(v), c));
      var i: nat :| i < |vs| && vs[i] == v;
      assert |vs| == 1 ==> i == 0;
      assert |vs| > 1 ==> Tried(ast, es, name) && Holds(Meaning(env, es, Variant(es, name, i), ast));
    }
  }

  /** So a comparison with a number selects a record exactly when some field of that name stands
      in that relation to the number. */
  lemma SelectsByNumber(env: Env, es: seq<Elem>, name: string, op: Op, y: CInt, xs: seq<CInt>)
    requires IsComparison(op) && xs != [] && |xs| == |Values(es, name)|
    requires forall i :: 0 <= i < |xs| ==> Atoi(Values(es, name)[i]) == Some(xs[i])
    ensures Holds(Run(env, Compared(name, op, IntLit(y)), es).val) <==>
            exists i :: 0 <= i < |xs| && Related(op, xs[i], y)
  {
    hide Atoi;
    hide Run;
    hide Values;
    hide Apply;
    hide Related;
    var vs := Values(es, name);
    SelectsSome(env, es, name, op, IntLit(y));
    forall i | 0 <= i < |xs|
      ensures vs[i] in vs && Apply(env, op, StrVal(vs[i]), IntVal(y)) == Bit(Related(op, xs[i], y))
    {
      IntComparisons(env, op, StrVal(vs[i]), IntVal(y), xs[i], y);
    }
  }

  /** And equality with a text selects exactly the records that have a field of that name with
      that text, or, for the empty text, have no such field. */
  lemma SelectsByText(env: Env, es: seq<Elem>, name: string, t: string)
    requires !env.caseInsensitive
    ensures Holds(Run(env, Compared(name, Eql, StrLit(t)), es).val) <==>
            t in Values(es, name) || (t == "" && Values(es, name) == [])
  {
    hide Values;
    hide Meaning;
    hide Apply;
    var vs, ast := Values(es, name), Compared(name, Eql, StrLit(t));
    forall v
      ensures Holds(Apply(env, Eql, StrVal(v), StrVal(t))) <==> v == t
    {
      StringComparisons(env, v, t);
    }
    if vs != [] {
      hide Run;
      SelectsSome(env, es, name, Eql, StrLit(t));
    } else {
      hide Run;
      hide Tried;
      hide ReachedFirst;
      hide Variant;
      NoneSelected(env, es, name, Eql, StrLit(t));
    }
  }

  /** Without such a field there are no variants. */
  lemma NoneSelected(env: Env, es: seq<Elem>, name: string, op: Op, lit: Node)
    requires IsLiteral(lit) && Values(es, name) == []
    ensures Holds(Run(env, Compared(name, op, lit), es).val) <==>
            Holds(Apply(env, op, StrVal(""), LiteralValue(lit)))
  {
    hide Holds;
    hide Meaning;
    hide Run;
    hide Tried;
    hide Values;
    hide Variant;
    hide Apply;
    hide NumNamed;
    hide LiteralValue;
    hide IsLiteral;
    hide ReachedFirst;
    var ast := Compared(name, op, lit);
    hide Compared;
    ComparedTries(es, name, op, lit, name);
    NoSubscripts(env, ast, es);
    SelectsIff(env, ast, es);
    ComparedIs(env, es, es, name, op, lit);
    CountedValues(es, name);
    forall other
      ensures !Tried(ast, es, other)
    {
      ComparedTries(es, name, op, lit, other);
    }
  }

  lemma CountedValues(es: seq<Elem>, name: string)
    ensures NumNamed(es, name) == |Values(es, name)|
  {
    assert es[..|es|] == es;
    CountIsValues(es, name, |es|);
  }

  lemma ZeroRelated(op: Op, y: CInt)
    ensures RelatedReals(op, 0.0, y as real) <==> Related(op, 0, y)
  {
  }

  /** A missing field is selected as zero would be. */
  lemma MissingIsZero(env: Env, es: seq<Elem>, name: string, op: Op, y: CInt)
    requires IsComparison(op) && Values(es, name) == []
    ensures Holds(Run(env, Compared(name, op, IntLit(y)), es).val) <==> Related(op, 0, y)
  {
    hide Values;
    hide Apply;
    hide OpReal;
    hide OnReals;
    hide Run;
    hide Related;
    hide RelatedReals;
    NoneSelected(env, es, name, op, IntLit(y));
    MissingIsReal(env, y);
    ApplyCompares(env, op, StrVal(""), IntVal(y));
    OnRealsCompares(env, op, StrVal(""), IntVal(y), 0.0, y as real);
    ZeroRelated(op, y);
  }

  lemma MissingIsReal(env: Env, y: CInt)
    ensures OpReal(env, StrVal(""), IntVal(y))
  {
    assert Atoi("").None?;
    hide Atoi;
  }

  /** An integer selects every record unless it is zero; a real number or a text selects none. */
  lemma LiteralSelects(env: Env, es: seq<Elem>, lit: Node)
    requires IsLiteral(lit)
    ensures Holds(Run(env, lit, es).val) <==> lit.IntLit? && lit.n != 0
  {
    assert Names(lit) == {} && Subscripted(lit) == {};
    assert Meaning(env, es, es, lit) == Some(LiteralValue(lit));
    assert forall other, nf :: !NameP(lit, other, nf);
    hide Run;
    hide NameP;
    hide ReachedFirst;
    NoSubscripts(env, lit, es);
    SelectsIff(env, lit, es);
  }

  function Counted(name: string, k: CInt): Node { Binary(Eql, Hash(Name(0, name, None, -1)), IntLit(k)) }

  /** Counting the fields of a name selects by how many there are in the record itself: the
      counted name is not varied. */
  lemma SelectsByCount(env: Env, es: seq<Elem>, name: string, k: CInt)
    requires |Values(es, name)| <= INT_MAX
    ensures Holds(Run(env, Counted(name, k), es).val) <==> |Values(es, name)| == k
  {
    var ast := Counted(name, k);
    var n := Name(0, name, None, -1);
    assert Names(n) == {n} && Names(IntLit(k)) == {} && Names(Hash(n)) == {n} && Names(ast) == {n};
    assert Subscripted(Hash(n)) == {} && Subscripted(IntLit(k)) == {} && Subscripted(ast) == {};
    assert HashNameP(Hash(n), name) && HashNameP(ast, name);
    forall other
      ensures !Tried(ast, es, other)
    {
    }
    CountMeans(env, es, es, name, k);
    hide Meaning;
    hide Holds;
    hide Run;
    hide Tried;
    hide Values;
    hide ReachedFirst;
    NoSubscripts(env, ast, es);
    SelectsIff(env, ast, es);
  }

  lemma CountMeans(env: Env, orig: seq<Elem>, es: seq<Elem>, name: string, k: CInt)
    requires |Values(es, name)| <= INT_MAX
    ensures Holds(Meaning(env, orig, es, Counted(name, k))) <==> |Values(es, name)| == k
  {
    hide Values;
    var n := Name(0, name, None, -1);
    assert Meaning(env, orig, es, Hash(n)) == Some(IntVal(|Values(es, name)|));
    IntComparisons(env, Eql, IntVal(|Values(es, name)|), IntVal(k), |Values(es, name)|, k);
    hide Apply;
    hide Count;
  }
}
