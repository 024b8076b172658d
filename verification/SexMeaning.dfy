/** What selecting a record means: the run of src/rec-sex.c against an existential reading over
    repeated fields. */
module SexMeaning {
  import opened Wrappers
  import opened RecData
  import opened Foreign
  import opened RecordOps
  import opened Lookups
  import opened SexValues
  import opened Sex
  import Numbers

  // ----- variants

  lemma {:induction false} ValuesOfOccurrences(es: seq<Elem>, name: string, k: nat)
    requires k <= |es|
    ensures Values(es[..k], name) == seq(CountNamed(es, name, k),
        i requires 0 <= i < CountNamed(es, name, k) => OccurrenceValue(es, name, k, i))
  {
    if k == 0 {
      assert es[..0] == [];
    } else {
      ValuesOfOccurrences(es, name, k - 1);
      ValuesStep(es, name, k - 1);
    }
  }

  function OccurrenceValue(es: seq<Elem>, name: string, k: nat, i: nat): string
    requires k <= |es| && i < CountNamed(es, name, k)
  {
    var o := Occurrences(es, name, k)[i];
    if o.FieldElem? then o.field.value else ""
  }

  lemma {:induction false} OccurrenceNamed(es: seq<Elem>, name: string, k: nat, i: nat)
    requires k <= |es| && i < CountNamed(es, name, k)
    ensures Named(Occurrences(es, name, k)[i], name)
  {
    if i >= CountNamed(es, name, k - 1) {
    } else {
      OccurrenceNamed(es, name, k - 1, i);
    }
  }

  /** A variant has exactly one field of the name, with the value of the chosen occurrence, and
      the fields of every other name as they were. */
  lemma VariantValues(es: seq<Elem>, name: string, j: nat, other: string)
    requires j < NumNamed(es, name)
    ensures |Values(es, name)| == NumNamed(es, name)
    ensures Values(Variant(es, name, j), other) ==
            if other == name then [Values(es, name)[j]] else Values(es, other)
  {
    assert es[..|es|] == es;
    ValuesOfOccurrences(es, name, |es|);
    OccurrenceNamed(es, name, |es|, j);
    ValuesWithout(es, name, other);
    var o := Occurrences(es, name, |es|)[j];
    ValuesConcat(Without(es, name), [o], other);
    assert [o][1..] == [];
  }

  lemma {:induction false} InVariantsOf(es: seq<Elem>, name: string, j: nat, k: nat, rec: seq<Elem>)
    requires j <= NumNamed(es, name)
    ensures j <= k < NumNamed(es, name) && rec == Variant(es, name, k) ==> rec in VariantsOf(es, name, j)
    ensures rec in VariantsOf(es, name, j) ==> exists m: nat :: m < NumNamed(es, name) && rec == Variant(es, name, m)
    decreases NumNamed(es, name) - j
  {
    hide Variant;
    hide CountNamed;
    if j == NumNamed(es, name) {
    } else {
      InVariantsOf(es, name, j + 1, k, rec);
    }
  }

  /** A record is one of the variants of a name that is tried. */
  ghost predicate IsVariant(ast: Node, es: seq<Elem>, rec: seq<Elem>) {
    exists name, j: nat :: Tried(ast, es, name) && j < NumNamed(es, name) && rec == Variant(es, name, j)
  }

  lemma {:induction false} VariantsSound(ast: Node, es: seq<Elem>, p: nat, rec: seq<Elem>)
    requires p <= |es| && rec in Variants(ast, es, p)
    ensures IsVariant(ast, es, rec)
    decreases |es| - p
  {
    hide Tried;
    hide Variant;
    hide CountNamed;
    VariantsStep(ast, es, p);
    if rec in Variants(ast, es, p + 1) {
      VariantsSound(ast, es, p + 1, rec);
    } else {
      InVariantsOf(es, es[p].field.name, 0, 0, rec);
    }
  }

  /** From before its first occurrence on, every variant of a name that is tried is in the
      list. */
  lemma {:induction false} VariantsComplete(ast: Node, es: seq<Elem>, p: nat, name: string, j: nat)
    requires p <= |es| && Tried(ast, es, name) && j < NumNamed(es, name) && CountNamed(es, name, p) == 0
    ensures Variant(es, name, j) in Variants(ast, es, p)
    decreases |es| - p
  {
    hide Tried;
    hide Variant;
    VariantsStep(ast, es, p);
    if Named(es[p], name) {
      InVariantsOf(es, name, 0, j, Variant(es, name, j));
    } else {
      VariantsComplete(ast, es, p + 1, name, j);
    }
  }

  // ----- the run

  /** The outcome of going through records without state: the first one on which the expression
      holds, or else the last one, decides. */
  function Decides(env: Env, orig: seq<Elem>, ast: Node, recs: seq<seq<Elem>>, last: Option<Val>): Option<Val> {
    if recs == [] || Holds(last) then last
    else Decides(env, orig, ast, recs[1..], Meaning(env, orig, recs[0], ast))
  }

  lemma {:induction false} PassesDecide(env: Env, orig: seq<Elem>, ast: Node, recs: seq<seq<Elem>>, last: Outcome)
    requires Distinct(ast) && Agrees(last.fixed, orig, ast)
    requires forall i :: 0 <= i < |recs| ==> Steady(last.fixed, orig, recs[i], ast)
    ensures Passes(env, ast, recs, last).val == Decides(env, orig, ast, recs, last.val)
    decreases |recs|
  {
    hide Eval;
    hide Meaning;
    hide Holds;
    hide Read;
    hide Agrees;
    if recs == [] || Holds(last.val) {
    } else {
      EvalMeaning(env, orig, recs[0], ast, ast, last.fixed);
      PassesDecide(env, orig, ast, recs[1..], Eval(env, recs[0], ast, last.fixed));
    }
  }

  lemma {:induction false} DecidesIff(env: Env, orig: seq<Elem>, ast: Node, recs: seq<seq<Elem>>, last: Option<Val>)
    ensures Holds(Decides(env, orig, ast, recs, last)) <==>
            Holds(last) || exists rec :: rec in recs && Holds(Meaning(env, orig, rec, ast))
    decreases |recs|
  {
    hide Meaning;
    hide Holds;
    if recs == [] || Holds(last) {
    } else {
      var rest := recs[1..];
      DecidesIff(env, orig, ast, rest, Meaning(env, orig, recs[0], ast));
      assert recs == [recs[0]] + rest;
      assert recs[0] in recs && forall rec :: rec in recs <==> rec == recs[0] || rec in rest;
      assert Decides(env, orig, ast, recs, last) == Decides(env, orig, ast, rest, Meaning(env, orig, recs[0], ast));
    }
  }

  /** No subscripted name that is evaluated reads a field that is tried. */
  ghost predicate Unaffected(ast: Node, es: seq<Elem>) {
    forall n :: n in Subscripted(ast) ==> !Tried(ast, es, FieldName(n))
  }

  /** Every subscripted name that reads a field that is tried is reached by the first pass, even
      if that pass fails later on. */
  ghost predicate ReachedFirst(env: Env, ast: Node, es: seq<Elem>) {
    forall n :: n in Subscripted(ast) && Tried(ast, es, FieldName(n)) ==> n in Fixes(env, es, ast, map[])
  }

  /** So it is when the first pass succeeds, or when there are no such names. */
  lemma SuccessReaches(env: Env, ast: Node, es: seq<Elem>)
    requires Distinct(ast) && (Meaning(env, es, es, ast).Some? || Unaffected(ast, es))
    ensures ReachedFirst(env, ast, es)
  {
    hide Eval;
    hide Meaning;
    hide Read;
    hide Tried;
    hide Fixes;
    EvalMeaning(env, es, es, ast, ast, map[]);
    EvalExtends(env, es, ast, map[]);
    SubscriptedAreNames(ast);
    var fixed, ns := Eval(env, es, ast, map[]).fixed, Fixes(env, es, ast, map[]);
    if Meaning(env, es, es, ast).Some? {
      forall n | n in Subscripted(ast)
        ensures n in ns
      {
        assert n.id in fixed;
        var m :| m in ns && m.Name? && m.id == n.id;
        assert m in Subscripted(ast) && m in Names(ast) && n in Names(ast);
      }
    }
  }

  lemma VariantSteady(env: Env, ast: Node, es: seq<Elem>, rec: seq<Elem>)
    requires ReachedFirst(env, ast, es) && IsVariant(ast, es, rec)
    ensures Steady(Eval(env, es, ast, map[]).fixed, es, rec, ast)
  {
    hide Tried;
    hide Eval;
    hide Fixes;
    EvalExtends(env, es, ast, map[]);
    var name, j: nat :| Tried(ast, es, name) && j < NumNamed(es, name) && rec == Variant(es, name, j);
    hide Variant;
    hide CountNamed;
    forall n | n in Subscripted(ast)
      ensures n.id in Eval(env, es, ast, map[]).fixed || Read(rec, n) == Read(es, n)
    {
      VariantValues(es, name, j, FieldName(n));
    }
  }

  /** The value and the status of the whole run, without state: subscripted names always read
      the original record, and the first of the record and its variants on which the expression
      holds decides, or else the last. */
  lemma RunDecides(env: Env, ast: Node, es: seq<Elem>)
    requires Distinct(ast) && ReachedFirst(env, ast, es)
    ensures Run(env, ast, es).val == Decides(env, es, ast, Variants(ast, es, 0), Meaning(env, es, es, ast))
  {
    hide Eval;
    hide Meaning;
    hide Holds;
    hide Read;
    hide Passes;
    hide Variants;
    hide Decides;
    hide ReachedFirst;
    hide Steady;
    SteadyAtFirst(es, ast);
    EvalMeaning(env, es, es, ast, ast, map[]);
    var recs := Variants(ast, es, 0);
    forall i | 0 <= i < |recs|
      ensures Steady(Eval(env, es, ast, map[]).fixed, es, recs[i], ast)
    {
      VariantsSound(ast, es, 0, recs[i]);
      VariantSteady(env, ast, es, recs[i]);
    }
    PassesDecide(env, es, ast, recs, Eval(env, es, ast, map[]));
  }

  lemma SteadyAtFirst(es: seq<Elem>, ast: Node)
    ensures Steady(map[], es, es, ast) && Agrees(map[], es, ast)
  {
    hide Read;
  }

  /** So the record is selected exactly when the expression holds on it, or on some variant where
      all occurrences of one repeated, mentioned and uncounted name are replaced by a single one
      of them. */
  lemma SelectsIff(env: Env, ast: Node, es: seq<Elem>)
    requires Distinct(ast) && ReachedFirst(env, ast, es)
    ensures Holds(Run(env, ast, es).val) <==>
            || Holds(Meaning(env, es, es, ast))
            || exists name, j: nat ::
                 Tried(ast, es, name) && j < NumNamed(es, name) && Holds(Meaning(env, es, Variant(es, name, j), ast))
  {
    hide Meaning;
    hide Holds;
    hide Run;
    hide Decides;
    hide Variants;
    hide ReachedFirst;
    RunDecides(env, ast, es);
    DecidesIff(env, es, ast, Variants(ast, es, 0), Meaning(env, es, es, ast));
    VariantsExactly(env, ast, es);
  }

  lemma VariantsExactly(env: Env, ast: Node, es: seq<Elem>)
    ensures (exists rec :: rec in Variants(ast, es, 0) && Holds(Meaning(env, es, rec, ast))) <==>
            exists name, j: nat ::
              Tried(ast, es, name) && j < NumNamed(es, name) && Holds(Meaning(env, es, Variant(es, name, j), ast))
  {
    hide Meaning;
    hide Holds;
    hide Tried;
    hide Variant;
    hide Variants;
    if exists rec :: rec in Variants(ast, es, 0) && Holds(Meaning(env, es, rec, ast)) {
      var rec :| rec in Variants(ast, es, 0) && Holds(Meaning(env, es, rec, ast));
      VariantsSound(ast, es, 0, rec);
    }
    forall name, j: nat | Tried(ast, es, name) && j < NumNamed(es, name) &&
        Holds(Meaning(env, es, Variant(es, name, j), ast))
      ensures exists rec :: rec in Variants(ast, es, 0) && Holds(Meaning(env, es, rec, ast))
    {
      VariantsComplete(ast, es, 0, name, j);
    }
  }

  // ----- when the first pass fails

  function F(value: string): Elem { FieldElem(Field("A", value, NOWHERE)) }

  const PLAIN: Node := Name(0, "A", None, -1)
  const FIRST: Node := Name(1, "A", None, 0)

  /** A % 2 && A[0] = 'x' */
  const EXAMPLE: Node := Binary(And, Binary(Mod, PLAIN, IntLit(2)), Binary(Eql, FIRST, StrLit("x")))

  lemma ReadOne(v: string)
    ensures Read([F(v)], PLAIN) == v && Read([F(v)], FIRST) == v
  {
    assert [F(v)][1..] == [];
    assert Values([F(v)], "A") == [v];
  }

  lemma ValuesTwo(v: string, w: string)
    ensures Values([F(v), F(w)], "A") == [v, w] && Without([F(v), F(w)], "A") == []
  {
    var es := [F(v), F(w)];
    assert es[1..] == [F(w)] && [F(w)][1..] == [];
    assert Values([], "A") == [] && Without([], "A") == [];
    assert Values([F(w)], "A") == [w] && Without([F(w)], "A") == [];
    assert [v] + [w] == [v, w];
  }

  lemma CountTwo(v: string, w: string)
    ensures var es := [F(v), F(w)];
            && CountNamed(es, "A", 1) == 1 && NumNamed(es, "A") == 2
            && Occurrences(es, "A", 2) == [F(v), F(w)]
  {
    var es := [F(v), F(w)];
    assert CountNamed(es, "A", 0) == 0 && CountNamed(es, "A", 1) == 1 && CountNamed(es, "A", 2) == 2;
    assert Occurrences(es, "A", 0) == [] && Occurrences(es, "A", 1) == [F(v)];
    assert Occurrences(es, "A", 2) == [F(v)] + [F(w)];
  }

  lemma ReadTwo(v: string, w: string)
    ensures var es := [F(v), F(w)];
            && Values(es, "A") == [v, w] && NumNamed(es, "A") == 2
            && Read(es, PLAIN) == v && Read(es, FIRST) == v
            && Variant(es, "A", 0) == [F(v)] && Variant(es, "A", 1) == [F(w)]
            && CountNamed(es, "A", 1) == 1
  {
    hide Values;
    hide Without;
    hide Occurrences;
    hide CountNamed;
    ValuesTwo(v, w);
    CountTwo(v, w);
  }

  lemma OnStrings(env: Env, a: string, b: string)
    ensures !env.caseInsensitive ==> Apply(env, Eql, StrVal(a), StrVal(b)) == Some(Truth(a == b))
  {
  }

  lemma OddInt(env: Env, s: string, two: Numbers.CInt)
    requires s != "" && two == 2
    ensures Numbers.Atoi(s).None? ==> Apply(env, Mod, StrVal(s), IntVal(two)) == None
    ensures Numbers.Atoi(s) == Some(1) ==> Apply(env, Mod, StrVal(s), IntVal(two)) == Some(IntVal(1))
  {
    hide Numbers.Atoi;
  }

  lemma AtoiExamples()
    ensures Numbers.Atoi("x").None? && Numbers.Atoi("1") == Some(1)
  {
    assert Numbers.SkipSpace("x", 0) == 0;
    assert Numbers.Dec(1) == "1";
    Numbers.AtoiDec(1);
  }

  lemma BinaryStep(env: Env, es: seq<Elem>, orig: seq<Elem>, op: Op, l: Node, r: Node, fixed: Fixed)
    ensures var a := Eval(env, es, l, fixed);
            Eval(env, es, Binary(op, l, r), fixed) ==
            if a.val.None? then a
            else
              var b := Eval(env, es, r, a.fixed);
              if b.val.None? then b else Outcome(Apply(env, op, a.val.value, b.val.value), b.fixed)
    ensures var a, b := Meaning(env, orig, es, l), Meaning(env, orig, es, r);
            Meaning(env, orig, es, Binary(op, l, r)) == if a.None? || b.None? then
                None else Apply(env, op, a.value, b.value)
  {
    hide Apply;
  }

  lemma LeafStep(env: Env, es: seq<Elem>, orig: seq<Elem>, n: Node, fixed: Fixed)
    requires n.Name? && n.id !in fixed
    ensures var v := Read(es, n);
            Eval(env, es, n, fixed) == Outcome(Some(StrVal(v)), if n.index != -1 then fixed[n.id := v] else fixed)
    ensures Meaning(env, orig, es, n) == Some(StrVal(Read(if n.index != -1 then orig else es, n)))
  {
    hide Read;
  }

  lemma LitStep(env: Env, es: seq<Elem>, orig: seq<Elem>, i: Numbers.CInt, s: string, fixed: Fixed)
    ensures Eval(env, es, IntLit(i), fixed) == Outcome(Some(IntVal(i)), fixed)
    ensures Eval(env, es, StrLit(s), fixed) == Outcome(Some(StrVal(s)), fixed)
    ensures Meaning(env, orig, es, IntLit(i)) == Some(IntVal(i))
    ensures Meaning(env, orig, es, StrLit(s)) == Some(StrVal(s))
  {
  }

  lemma ExampleOn(env: Env, es: seq<Elem>, orig: seq<Elem>)
    requires !env.caseInsensitive && Read(es, PLAIN) == Read(es, FIRST) && Read(orig, FIRST) == "x"
    ensures Read(es, PLAIN) == "x" ==> Eval(env, es, EXAMPLE, map[]) == Outcome(None, map[])
    ensures Read(es, PLAIN) == "1" ==> Eval(env, es, EXAMPLE, map[]).val == Some(IntVal(0))
    ensures Read(es, PLAIN) == "1" ==> Meaning(env, orig, es, EXAMPLE) == Some(IntVal(1))
  {
    hide Eval;
    hide Meaning;
    hide Apply;
    hide Read;
    hide Numbers.Atoi;
    AtoiExamples();
    var v, fixed := Read(es, PLAIN), map[1 := Read(es, FIRST)];
    OddInt(env, "x", 2);
    OddInt(env, "1", 2);
    OnStrings(env, v, "x");
    OnStrings(env, "x", "x");
    AndInts(env, 1, 0);
    AndInts(env, 1, 1);
    LeafStep(env, es, orig, PLAIN, map[]);
    LeafStep(env, es, orig, FIRST, map[]);
    LitStep(env, es, orig, 2, "x", map[]);
    LitStep(env, es, orig, 2, "x", fixed);
    BinaryStep(env, es, orig, Mod, PLAIN, IntLit(2), map[]);
    BinaryStep(env, es, orig, Eql, FIRST, StrLit("x"), map[]);
    BinaryStep(env, es, orig, And, EXAMPLE.left, EXAMPLE.right, map[]);
  }

  lemma AndInts(env: Env, a: Numbers.CInt, b: Numbers.CInt)
    ensures Apply(env, And, IntVal(a), IntVal(b)) == Some(Truth(a != 0 && b != 0))
  {
  }

  /** Where the first pass fails before it reaches a subscripted name, that name is fixed later,
      from a variant: on the record A: x, A: 1 the expression A % 2 && A[0] = 'x' is not
      selected, although it holds on the variant A: 1 with A[0] read from the record. */
  lemma LateFixMisreads(env: Env)
    requires !env.caseInsensitive
    ensures var es := [F("x"), F("1")];
            && Distinct(EXAMPLE) && Meaning(env, es, es, EXAMPLE).None? && Tried(EXAMPLE, es, "A")
            && Holds(Meaning(env, es, Variant(es, "A", 1), EXAMPLE))
            && !Holds(Run(env, EXAMPLE, es).val)
  {
    var es := [F("x"), F("1")];
    ReadTwo("x", "1");
    ReadOne("x");
    ReadOne("1");
    ExampleOn(env, es, es);
    ExampleOn(env, [F("x")], es);
    ExampleOn(env, [F("1")], es);
    ExampleTried(es);
    hide Variant;
    hide Eval;
    EvalMeaning(env, es, es, EXAMPLE, EXAMPLE, map[]);
    hide Meaning;
    hide Read;
    hide Tried;
    assert VariantsOf(es, "A", 2) == [];
    assert VariantsOf(es, "A", 1) == [[F("1")]];
    assert VariantsOf(es, "A", 0) == [[F("x")], [F("1")]];
    assert Variants(EXAMPLE, es, 2) == [] && Variants(EXAMPLE, es, 1) == [];
    assert Variants(EXAMPLE, es, 0) == [[F("x")], [F("1")]];
    var none := Outcome(None, map[]);
    assert [[F("x")], [F("1")]][1..] == [[F("1")]];
    assert Passes(env, EXAMPLE, [[F("1")]], none) == Eval(env, [F("1")], EXAMPLE, map[]);
  }

  lemma ExampleTried(es: seq<Elem>)
    requires NumNamed(es, "A") == 2
    ensures Distinct(EXAMPLE) && Tried(EXAMPLE, es, "A")
  {
    assert PLAIN in Names(EXAMPLE);
  }

  // ----- laws of the expressions

  /** Denying a comparison is the opposite comparison, also in what it fixes. */
  lemma OppositeComparison(env: Env, es: seq<Elem>, op: Op, l: Node, r: Node, fixed: Fixed)
    requires IsComparison(op)
    ensures Eval(env, es, Not(Binary(op, l, r)), fixed) == Eval(env, es, Binary(Opposite(op), l, r), fixed)
  {
    hide Apply;
    hide Negate;
    var a := Eval(env, es, l, fixed);
    if a.val.Some? {
      var b := Eval(env, es, r, a.fixed);
      if b.val.Some? {
        OppositeDisagrees(env, op, a.val.value, b.val.value);
      }
    }
  }

  /** The operands of a logical operator are never reals, which the source cannot convert. */
  predicate NoReal(v: Option<Val>) { v.Some? ==> !v.value.RealVal? }

  /** An implication means that the first operand is denied or the second holds. */
  lemma ImpliesIsOrNot(env: Env, orig: seq<Elem>, es: seq<Elem>, l: Node, r: Node)
    ensures Meaning(env, orig, es, Binary(Implies, l, r)) == Meaning(env, orig, es, Binary(Or, Not(l), r))
  {
    hide Numbers.Atoi;
    assert Meaning(env, orig, es, Not(l)) ==
           var a := Meaning(env, orig, es, l); if a.None? then None else Negate(env, a.value);
  }

  lemma DeMorgan(env: Env, orig: seq<Elem>, es: seq<Elem>, l: Node, r: Node)
    requires NoReal(Meaning(env, orig, es, r))
    ensures Meaning(env, orig, es, Not(Binary(And, l, r))) == Meaning(env, orig, es, Binary(Or, Not(l), Not(r)))
  {
    hide Numbers.Atoi;
    assert Meaning(env, orig, es, Not(l)) ==
           var a := Meaning(env, orig, es, l); if a.None? then None else Negate(env, a.value);
    assert Meaning(env, orig, es, Not(r)) ==
           var b := Meaning(env, orig, es, r); if b.None? then None else Negate(env, b.value);
    assert Meaning(env, orig, es, Binary(And, l, r)) ==
           var a, b := Meaning(env, orig, es, l), Meaning(env, orig, es, r);
           if a.None? || b.None? then None else Apply(env, And, a.value, b.value);
  }
}
