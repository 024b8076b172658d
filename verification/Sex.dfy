/** Selection expressions: evaluation on a record (src/rec-sex.c, src/rec-sex-ast.c). */
module Sex {
  import opened Wrappers
  import opened RecData
  import opened Foreign
  import opened RecordOps
  import opened Lookups
  import opened SexValues
  import opened Numbers

  /** The syntax tree. A name node has an identity of its own, because evaluation can fix the
      node to a value; `index` is -1 when there is no subscript. */
  datatype Node =
    | Binary(op: Op, left: Node, right: Node)
    | Not(arg: Node)
    | Hash(arg: Node)
    | Cond(test: Node, yes: Node, no: Node)
    | IntLit(n: CInt)
    | RealLit(r: real)
    | StrLit(s: string)
    | Name(id: nat, name: string, subname: Option<string>, index: CInt)

  /** The values to which name nodes are fixed, by identity. */
  type Fixed = map<nat, string>

  function FieldName(n: Node): string
    requires n.Name?
  {
    if n.subname.Some? then n.name + "_" + n.subname.value else n.name
  }

  function Ordinal(n: Node): nat
    requires n.Name?
  {
    if n.index == -1 then 0 else AsSize(n.index)
  }

  /** The value of the field that a name node denotes; a missing field reads as empty. */
  function Read(es: seq<Elem>, n: Node): string
    requires n.Name?
  {
    var values := Values(es, FieldName(n));
    if Ordinal(n) < |values| then values[Ordinal(n)] else ""
  }

  // ----- evaluation as the code does it, with the fixed values passed along

  datatype Outcome = Outcome(val: Option<Val>, fixed: Fixed)

  function Eval(env: Env, es: seq<Elem>, node: Node, fixed: Fixed): Outcome {
    match node
    case Binary(op, left, right) =>
      var a := Eval(env, es, left, fixed);
      if a.val.None? then a
      else
        var b := Eval(env, es, right, a.fixed);
        if b.val.None? then b else Outcome(Apply(env, op, a.val.value, b.val.value), b.fixed)
    case Not(arg) =>
      var a := Eval(env, es, arg, fixed);
      if a.val.None? then a else Outcome(Negate(env, a.val.value), a.fixed)
    case Hash(arg) => Outcome(Count(es, arg), fixed)
    case Cond(test, yes, no) =>
      var a := Eval(env, es, test, fixed);
      if a.val.None? then a
      else
        var b := Eval(env, es, yes, a.fixed);
        if b.val.None? then b
        else
          var c := Eval(env, es, no, b.fixed);
          if c.val.None? then c else Outcome(Choose(env, a.val.value, b.val.value, c.val.value), c.fixed)
    case IntLit(n) => Outcome(Some(IntVal(n)), fixed)
    case RealLit(r) => Outcome(Some(RealVal(r)), fixed)
    case StrLit(s) => Outcome(Some(StrVal(s)), fixed)
    case Name(id, _, _, index) =>
      if id in fixed then Outcome(Some(StrVal(fixed[id])), fixed)
      else
        var v := Read(es, node);
        Outcome(Some(StrVal(v)), if index != -1 then fixed[id := v] else fixed)
  }

  /** The number of fields with a name: the operand must be a name. */
  function Count(es: seq<Elem>, arg: Node): Option<Val> {
    if arg.Name? then Some(IntVal(ToInt(|Values(es, FieldName(arg))|))) else None
  }

  function Choose(env: Env, test: Val, yes: Val, no: Val): Option<Val> {
    var x := AsInt(env, test, 1);
    if x.None? then None else if x.value != 0 then Some(yes) else Some(no)
  }

  /** The expression holds: it succeeded with an integer other than zero. */
  predicate Holds(v: Option<Val>) { v.Some? && v.value.IntVal? && v.value.i != 0 }

  // ----- evaluation as it is meant, without state

  /** The value of the expression on `es` when its subscripted names read `orig`. */
  function Meaning(env: Env, orig: seq<Elem>, es: seq<Elem>, node: Node): Option<Val> {
    match node
    case Binary(op, left, right) =>
      var a, b := Meaning(env, orig, es, left), Meaning(env, orig, es, right);
      if a.None? || b.None? then None else Apply(env, op, a.value, b.value)
    case Not(arg) =>
      var a := Meaning(env, orig, es, arg);
      if a.None? then None else Negate(env, a.value)
    case Hash(arg) => Count(es, arg)
    case Cond(test, yes, no) =>
      var a, b, c := Meaning(env, orig, es, test), Meaning(env, orig, es, yes), Meaning(env, orig, es, no);
      if a.None? || b.None? || c.None? then None else Choose(env, a.value, b.value, c.value)
    case IntLit(n) => Some(IntVal(n))
    case RealLit(r) => Some(RealVal(r))
    case StrLit(s) => Some(StrVal(s))
    case Name(_, _, _, index) => Some(StrVal(Read(if index != -1 then orig else es, node)))
  }

  /** The name nodes that evaluation can fix: subscripted, and not the operand of a count. */
  function Subscripted(node: Node): (ns: set<Node>)
    ensures forall n :: n in ns ==> n.Name? && n.index != -1
  {
    match node
    case Binary(_, left, right) => Subscripted(left) + Subscripted(right)
    case Not(arg) => Subscripted(arg)
    case Cond(test, yes, no) => Subscripted(test) + Subscripted(yes) + Subscripted(no)
    case Name(_, _, _, index) => if index != -1 then {node} else {}
    case _ => {}
  }

  function Names(node: Node): (ns: set<Node>)
    ensures forall n :: n in ns ==> n.Name?
  {
    match node
    case Binary(_, left, right) => Names(left) + Names(right)
    case Not(arg) => Names(arg)
    case Hash(arg) => Names(arg)
    case Cond(test, yes, no) => Names(test) + Names(yes) + Names(no)
    case Name(_, _, _, _) => {node}
    case _ => {}
  }

  lemma {:induction false} SubscriptedAreNames(node: Node)
    ensures Subscripted(node) <= Names(node)
  {
    match node
    case Binary(_, left, right) => SubscriptedAreNames(left); SubscriptedAreNames(right);
    case Not(arg) => SubscriptedAreNames(arg);
    case Cond(test, yes, no) => SubscriptedAreNames(test); SubscriptedAreNames(yes); SubscriptedAreNames(no);
    case _ =>
  }

  /** Name nodes are told apart by their identities, as distinct objects are. */
  ghost predicate Distinct(ast: Node) {
    forall m, n :: m in Names(ast) && n in Names(ast) && m.id == n.id ==> m == n
  }

  /** Only subscripted nodes are fixed, each to the value it has in `orig`. */
  ghost predicate Agrees(fixed: Fixed, orig: seq<Elem>, ast: Node) {
    forall n :: n in Names(ast) && n.id in fixed ==> n.index != -1 && fixed[n.id] == Read(orig, n)
  }

  /** Every subscripted node is fixed, or reads the same in `es` as in `orig`. */
  ghost predicate Steady(fixed: Fixed, orig: seq<Elem>, es: seq<Elem>, node: Node) {
    forall n :: n in Subscripted(node) ==> n.id in fixed || Read(es, n) == Read(orig, n)
  }

  ghost predicate AllFixed(fixed: Fixed, node: Node) {
    forall n :: n in Subscripted(node) ==> n.id in fixed
  }

  /** The evaluator computes the stateless meaning as long as the values that are not fixed yet
      read as in the original record; it keeps what is fixed right and, when it succeeds, has
      fixed every subscripted name. */
  lemma {:induction false} EvalMeaning(env: Env, orig: seq<Elem>, es: seq<Elem>, ast: Node, node: Node, fixed: Fixed)
    requires Distinct(ast) && Names(node) <= Names(ast)
    requires Agrees(fixed, orig, ast) && Steady(fixed, orig, es, node)
    ensures var r := Eval(env, es, node, fixed);
            && r.val == Meaning(env, orig, es, node)
            && fixed.Keys <= r.fixed.Keys
            && Agrees(r.fixed, orig, ast)
            && (r.val.Some? ==> AllFixed(r.fixed, node))
    decreases node
  {
    hide Apply;
    hide Negate;
    hide Choose;
    hide Count;
    hide Read;
    match node
    case Binary(_, left, right) =>
      EvalMeaning(env, orig, es, ast, left, fixed);
      var a := Eval(env, es, left, fixed);
      EvalMeaning(env, orig, es, ast, right, a.fixed);
    case Not(arg) => EvalMeaning(env, orig, es, ast, arg, fixed);
    case Cond(test, yes, no) =>
      EvalMeaning(env, orig, es, ast, test, fixed);
      var a := Eval(env, es, test, fixed);
      EvalMeaning(env, orig, es, ast, yes, a.fixed);
      var b := Eval(env, es, yes, a.fixed);
      EvalMeaning(env, orig, es, ast, no, b.fixed);
    case Name(_, _, _, _) => assert node in Names(ast);
    case _ =>
  }

  /** The name nodes that an evaluation fixes: the subscripted ones it reaches and that are not
      fixed yet. */
  function Fixes(env: Env, es: seq<Elem>, node: Node, fixed: Fixed): set<Node> {
    match node
    case Binary(_, left, right) =>
      var a := Eval(env, es, left, fixed);
      Fixes(env, es, left, fixed) + if a.val.Some? then Fixes(env, es, right, a.fixed) else {}
    case Not(arg) => Fixes(env, es, arg, fixed)
    case Cond(test, yes, no) =>
      var a := Eval(env, es, test, fixed);
      Fixes(env, es, test, fixed)
      + if a.val.None? then {}
        else
          var b := Eval(env, es, yes, a.fixed);
          Fixes(env, es, yes, a.fixed) + if b.val.Some? then Fixes(env, es, no, b.fixed) else {}
    case Name(id, _, _, index) => if id !in fixed && index != -1 then {node} else {}
    case _ => {}
  }

  /** What was fixed stays, and the new nodes are fixed to what they read. */
  ghost predicate Extends(fixed: Fixed, fixed': Fixed, es: seq<Elem>, ns: set<Node>) {
    && (forall id :: id in fixed ==> id in fixed' && fixed'[id] == fixed[id])
    && (forall n :: n in ns ==> n.Name? && n.id in fixed' && n.id !in fixed && fixed'[n.id] == Read(es, n))
    && forall id :: id in fixed' ==> id in fixed || exists n :: n in ns && n.Name? && n.id == id
  }

  lemma ExtendsTwice(fixed: Fixed, fixed': Fixed, fixed'': Fixed, es: seq<Elem>, ns: set<Node>, ms: set<Node>)
    requires Extends(fixed, fixed', es, ns) && Extends(fixed', fixed'', es, ms)
    ensures Extends(fixed, fixed'', es, ns + ms)
  {
    hide Read;
    forall id | id in fixed''
      ensures id in fixed || exists n :: n in ns + ms && n.Name? && n.id == id
    {
      if id in fixed' && id !in fixed {
        var n :| n in ns && n.Name? && n.id == id;
        assert n in ns + ms;
      } else if id !in fixed' {
        var n :| n in ms && n.Name? && n.id == id;
        assert n in ns + ms;
      }
    }
  }

  lemma {:induction false} EvalExtends(env: Env, es: seq<Elem>, node: Node, fixed: Fixed)
    ensures Extends(fixed, Eval(env, es, node, fixed).fixed, es, Fixes(env, es, node, fixed))
    ensures Fixes(env, es, node, fixed) <= Subscripted(node)
    decreases node
  {
    hide Apply;
    hide Negate;
    hide Choose;
    hide Count;
    hide Read;
    hide Extends;
    ExtendsNone(fixed, es);
    match node
    case Binary(_, left, right) =>
      var a := Eval(env, es, left, fixed);
      EvalExtends(env, es, left, fixed);
      EvalExtends(env, es, right, a.fixed);
      var b := Eval(env, es, right, a.fixed);
      ExtendsTwice(fixed, a.fixed, b.fixed, es, Fixes(env, es, left, fixed), Fixes(env, es, right, a.fixed));
      assert Fixes(env, es, left, fixed) + {} == Fixes(env, es, left, fixed);
    case Not(arg) => EvalExtends(env, es, arg, fixed);
    case Cond(test, yes, no) => CondExtends(env, es, test, yes, no, fixed);
    case Name(_, _, _, _) => ExtendsOne(fixed, es, node);
    case _ =>
  }

  lemma {:induction false} CondExtends(env: Env, es: seq<Elem>, test: Node, yes: Node, no: Node, fixed: Fixed)
    ensures var node := Cond(test, yes, no);
            && Extends(fixed, Eval(env, es, node, fixed).fixed, es, Fixes(env, es, node, fixed))
            && Fixes(env, es, node, fixed) <= Subscripted(node)
    decreases Cond(test, yes, no), 0
  {
    hide Eval;
    hide Fixes;
    hide Extends;
    var a := Eval(env, es, test, fixed);
    var b := Eval(env, es, yes, a.fixed);
    var c := Eval(env, es, no, b.fixed);
    CondEval(env, es, Cond(test, yes, no), fixed, a, b, c);
    CondFixes(env, es, Cond(test, yes, no), fixed, a, b);
    EvalExtends(env, es, test, fixed);
    EvalExtends(env, es, yes, a.fixed);
    EvalExtends(env, es, no, b.fixed);
    var ns, ms, ks := Fixes(env, es, test, fixed), Fixes(env, es, yes, a.fixed), Fixes(env, es, no, b.fixed);
    ExtendsTwice(fixed, a.fixed, b.fixed, es, ns, ms);
    ExtendsTwice(a.fixed, b.fixed, c.fixed, es, ms, ks);
    ExtendsTwice(fixed, a.fixed, c.fixed, es, ns, ms + ks);
  }

  /** How far the evaluation of a conditional gets, and what it fixes on the way. */
  lemma CondEval(env: Env, es: seq<Elem>, node: Node, fixed: Fixed, a: Outcome, b: Outcome, c: Outcome)
    requires node.Cond? && a == Eval(env, es, node.test, fixed)
    requires b == Eval(env, es, node.yes, a.fixed) && c == Eval(env, es, node.no, b.fixed)
    ensures a.val.None? ==> Eval(env, es, node, fixed) == a
    ensures a.val.Some? && b.val.None? ==> Eval(env, es, node, fixed) == b
    ensures a.val.Some? && b.val.Some? ==> Eval(env, es, node, fixed).fixed == c.fixed
  {
    hide Apply;
    hide Negate;
    hide Choose;
    hide Count;
    hide Read;
    hide Fixes;
  }

  lemma CondFixes(env: Env, es: seq<Elem>, node: Node, fixed: Fixed, a: Outcome, b: Outcome)
    requires node.Cond? && a == Eval(env, es, node.test, fixed) && b == Eval(env, es, node.yes, a.fixed)
    ensures a.val.None? ==> Fixes(env, es, node, fixed) == Fixes(env, es, node.test, fixed)
    ensures a.val.Some? && b.val.None? ==>
              Fixes(env, es, node, fixed) == Fixes(env, es, node.test, fixed) + Fixes(env, es, node.yes, a.fixed)
    ensures a.val.Some? && b.val.Some? ==>
              Fixes(env, es, node, fixed) ==
              Fixes(env, es, node.test, fixed) + (Fixes(env, es, node.yes, a.fixed) + Fixes(env, es, node.no, b.fixed))
  {
    hide Eval;
    var ns, ms := Fixes(env, es, node.test, fixed), Fixes(env, es, node.yes, a.fixed);
    assert ns + {} == ns && ms + {} == ms;
  }

  lemma ExtendsNone(fixed: Fixed, es: seq<Elem>)
    ensures Extends(fixed, fixed, es, {})
  {
  }

  lemma ExtendsOne(fixed: Fixed, es: seq<Elem>, n: Node)
    requires n.Name?
    ensures n.id !in fixed ==> Extends(fixed, fixed[n.id := Read(es, n)], es, {n})
  {
    hide Read;
    assert n in {n};
  }

  /** A pass leaves every fixed name with its value in the original record if and only if the
      names that this pass is the first to reach read the same in its record as in the
      original. */
  lemma FixesRightIff(env: Env, orig: seq<Elem>, es: seq<Elem>, ast: Node, fixed: Fixed)
    requires Distinct(ast) && Agrees(fixed, orig, ast)
    ensures Agrees(Eval(env, es, ast, fixed).fixed, orig, ast) <==>
            forall n :: n in Fixes(env, es, ast, fixed) ==> n.Name? && Read(es, n) == Read(orig, n)
  {
    hide Eval;
    hide Fixes;
    hide Read;
    EvalExtends(env, es, ast, fixed);
    SubscriptedAreNames(ast);
    var fixed', ns := Eval(env, es, ast, fixed).fixed, Fixes(env, es, ast, fixed);
    assert forall n :: n in ns ==> n in Names(ast) && n in Subscripted(ast);
    if forall n :: n in ns ==> n.Name? && Read(es, n) == Read(orig, n) {
      forall n | n in Names(ast) && n.id in fixed'
        ensures n.index != -1 && fixed'[n.id] == Read(orig, n)
      {
        if n.id !in fixed {
          var m :| m in ns && m.Name? && m.id == n.id;
          assert m in Names(ast) && m == n;
        }
      }
    }
  }

  // ----- which fields are tried

  /** `rec_sex_ast_name_p`: the tree has a name node with that name, not counting the subname,
      without subscript or with one below `idx`. */
  predicate NameP(node: Node, name: string, idx: nat)
    ensures NameP(node, name, idx) <==>
              exists n :: n in Names(node) && n.name == name && (n.index == -1 || AsSize(n.index) < idx)
  {
    match node
    case Binary(_, left, right) => NameP(left, name, idx) || NameP(right, name, idx)
    case Not(arg) => NameP(arg, name, idx)
    case Hash(arg) => NameP(arg, name, idx)
    case Cond(test, yes, no) => NameP(test, name, idx) || NameP(yes, name, idx) || NameP(no, name, idx)
    case Name(_, own, _, index) =>
      assert node in Names(node);
      (index == -1 || AsSize(index) < idx) && name == own
    case _ => false
  }

  /** `rec_sex_ast_hash_name_p`: the tree counts the fields with that name. */
  predicate HashNameP(node: Node, name: string) {
    match node
    case Binary(_, left, right) => HashNameP(left, name) || HashNameP(right, name)
    case Not(arg) => HashNameP(arg, name)
    case Hash(arg) => (arg.Name? && name == arg.name) || HashNameP(arg, name)
    case Cond(test, yes, no) => HashNameP(test, name) || HashNameP(yes, name) || HashNameP(no, name)
    case _ => false
  }

  /** The fields with that name among the first `k` elements. */
  function Occurrences(es: seq<Elem>, name: string, k: nat): (os: seq<Elem>)
    requires k <= |es|
    ensures |os| == CountNamed(es, name, k)
  {
    if k == 0 then []
    else Occurrences(es, name, k - 1) + if Named(es[k - 1], name) then [es[k - 1]] else []
  }

  function NumNamed(es: seq<Elem>, name: string): nat { CountNamed(es, name, |es|) }

  /** The name is repeated in the record, mentioned in the expression and not counted by it. */
  predicate Tried(ast: Node, es: seq<Elem>, name: string) {
    var nf := NumNamed(es, name);
    nf > 1 && NameP(ast, name, nf) && !HashNameP(ast, name)
  }

  /** The record with all fields of that name replaced by one of them, at the end. */
  function Variant(es: seq<Elem>, name: string, j: nat): seq<Elem>
    requires j < NumNamed(es, name)
  {
    Without(es, name) + [Occurrences(es, name, |es|)[j]]
  }

  /** The variants of one name from ordinal `j` on. */
  function VariantsOf(es: seq<Elem>, name: string, j: nat): seq<seq<Elem>>
    requires j <= NumNamed(es, name)
    decreases NumNamed(es, name) - j
  {
    if j == NumNamed(es, name) then [] else [Variant(es, name, j)] + VariantsOf(es, name, j + 1)
  }

  /** Each name is tried where it first occurs. */
  predicate Due(ast: Node, es: seq<Elem>, p: nat)
    requires p < |es|
  {
    es[p].FieldElem? && CountNamed(es, es[p].field.name, p) == 0 && Tried(ast, es, es[p].field.name)
  }

  function Variants(ast: Node, es: seq<Elem>, p: nat): seq<seq<Elem>>
    requires p <= |es|
    decreases |es| - p
  {
    if p == |es| then []
    else (if Due(ast, es, p) then VariantsOf(es, es[p].field.name, 0) else []) + Variants(ast, es, p + 1)
  }

  /** Evaluation goes through the records until the expression holds; the last outcome
      counts. */
  function Passes(env: Env, ast: Node, recs: seq<seq<Elem>>, last: Outcome): Outcome
    decreases |recs|
  {
    if recs == [] || Holds(last.val) then last
    else Passes(env, ast, recs[1..], Eval(env, recs[0], ast, last.fixed))
  }

  /** The whole run on a record: the record itself, then its variants. */
  function Run(env: Env, ast: Node, es: seq<Elem>): Outcome {
    Passes(env, ast, Variants(ast, es, 0), Eval(env, es, ast, map[]))
  }

  // ----- the code

  function Ids(node: Node): set<nat> { set n | n in Names(node) :: n.id }

  lemma EvalKeys(env: Env, es: seq<Elem>, node: Node, fixed: Fixed)
    ensures Eval(env, es, node, fixed).fixed.Keys <= fixed.Keys + Ids(node)
  {
    hide Eval;
    hide Fixes;
    hide Read;
    EvalExtends(env, es, node, fixed);
    SubscriptedAreNames(node);
  }

  class Selection {
    const env: Env
    const ast: Node
    var fixed: Fixed

    ghost predicate Valid()
      reads this
    {
      Distinct(ast) && fixed.Keys <= Ids(ast)
    }

    constructor (env: Env, ast: Node)
      requires Distinct(ast)
      ensures Valid() && this.env == env && this.ast == ast && fixed == map[]
    {
      this.env, this.ast, this.fixed := env, ast, map[];
    }

    /** `rec_sex_ast_node_unfix` */
    method Unfix(node: Node)
      modifies this
      ensures fixed == old(fixed) - Ids(node)
      decreases node
    {
      match node
      case Binary(_, left, right) =>
        Unfix(left);
        Unfix(right);
      case Not(arg) => Unfix(arg);
      case Hash(arg) => Unfix(arg);
      case Cond(test, yes, no) =>
        Unfix(test);
        Unfix(yes);
        Unfix(no);
      case Name(id, _, _, _) =>
        fixed := fixed - {id};
        assert Ids(node) == {id};
      case _ =>
    }

    /** `rec_sex_eval_node`: a node that fails always yields the integer 0. */
    method EvalNode(es: seq<Elem>, node: Node) returns (res: Val, status: bool)
      modifies this
      ensures var r := Eval(env, es, node, old(fixed));
              && fixed == r.fixed
              && status == r.val.Some?
              && res == if status then r.val.value else IntVal(0)
      decreases node
    {
      hide Apply;
      hide Negate;
      hide Choose;
      hide Values;
      res, status := IntVal(0), true;
      match node
      case Binary(op, left, right) =>
        var val1, val2;
        val1, status := EvalNode(es, left);
        if !status {
          return;
        }
        val2, status := EvalNode(es, right);
        if !status {
          return;
        }
        var v := Apply(env, op, val1, val2);
        if v.None? {
          status := false;
          return;
        }
        res := v.value;
      case Not(arg) =>
        var val1;
        val1, status := EvalNode(es, arg);
        if !status {
          return;
        }
        var v := Negate(env, val1);
        if v.None? {
          status := false;
          return;
        }
        res := v.value;
      case Hash(arg) =>
        if !arg.Name? {
          status := false;
          return;
        }
        var n := NumFieldsByName(es, FieldName(arg));
        res := IntVal(ToInt(n));
      case Cond(test, yes, no) =>
        var val1, val2, val3;
        val1, status := EvalNode(es, test);
        if !status {
          return;
        }
        val2, status := EvalNode(es, yes);
        if !status {
          return;
        }
        val3, status := EvalNode(es, no);
        if !status {
          return;
        }
        var v := Choose(env, val1, val2, val3);
        if v.None? {
          status := false;
          return;
        }
        res := v.value;
      case IntLit(n) => res := IntVal(n);
      case RealLit(r) => res := RealVal(r);
      case StrLit(s) => res := StrVal(s);
      case Name(id, _, _, index) =>
        if id in fixed {
          res := StrVal(fixed[id]);
        } else {
          var v := NthValue(es, FieldName(node), Ordinal(node));
          res := StrVal(if v.Some? then v.value else "");
          if index != -1 {
            fixed := fixed[id := res.s];
          }
        }
    }

    /** One pass: evaluate the tree and take its truth. */
    method Pass(es: seq<Elem>) returns (res: bool, status: bool)
      requires Valid()
      modifies this
      ensures Valid()
      ensures var r := Eval(env, es, ast, old(fixed));
              fixed == r.fixed && status == r.val.Some? && res == Holds(r.val)
    {
      hide Eval;
      var val;
      val, status := EvalNode(es, ast);
      EvalKeys(env, es, ast, old(fixed));
      res := val.IntVal? && val.i != 0;
    }

    /** `rec_sex_eval`: the outcome of the whole run. Marks on the fields keep a repeated name
        from being tried again at its later occurrences. */
    method Selects(record: RecordObj, marks: array<int>) returns (res: bool, status: bool)
      requires Valid() && marks.Length == |record.elems|
      modifies this, marks
      ensures Valid()
      ensures var r := Run(env, ast, record.elems);
              fixed == r.fixed && status == r.val.Some? && res == Holds(r.val)
    {
      hide Eval;
      hide NameP;
      hide HashNameP;
      hide CountNamed;
      hide Variants;
      hide Passes;
      hide Marked;
      var es := record.elems;
      Unfix(ast);
      assert fixed == map[];
      PassesEnd(env, ast, Variants(ast, es, 0), Eval(env, es, ast, map[]));
      res, status := Pass(es);
      ghost var cur := Eval(env, es, ast, map[]);
      if !res {
        ResetMarks(marks);
        MarkedNone(ast, es, marks[..]);
        var p := 0;
        while p < |es|
          invariant Valid() && p <= |es| && marks.Length == |es| && record.elems == es
          invariant Marked(ast, es, marks[..], p)
          invariant !res && cur.fixed == fixed && status == cur.val.Some? && !Holds(cur.val)
          invariant Run(env, ast, es) == Passes(env, ast, Variants(ast, es, p), cur)
        {
          ghost var rest := Variants(ast, es, p + 1);
          MarkedStep(ast, es, marks[..], p);
          VariantsStep(ast, es, p);
          if es[p].FieldElem? {
            var name := es[p].field.name;
            var nf := NumFieldsByName(es, name);
            if nf > 1 && marks[p] == 0 && NameP(ast, name, nf) && !HashNameP(ast, name) {
              ghost var before := marks[..];
              res, status, cur := TryName(record, marks, name, nf, status, rest, cur);
              if res {
                return;
              }
              MarkedName(ast, es, before, marks[..], p);
            }
          }
          p := p + 1;
        }
        VariantsEnd(ast, es);
        PassesEnd(env, ast, [], cur);
      }
      if !status {
        res := false;
      }
    }

    method ResetMarks(marks: array<int>)
      modifies marks
      ensures forall q :: 0 <= q < marks.Length ==> marks[q] == 0
    {
      var q := 0;
      while q < marks.Length
        invariant q <= marks.Length && forall i :: 0 <= i < q ==> marks[i] == 0
      {
        marks[q] := 0;
        q := q + 1;
      }
    }

    /** Try the occurrences of a name one after the other. */
    method TryName(record: RecordObj, marks: array<int>, name: string, nf: nat, was: bool,
        ghost rest: seq<seq<Elem>>, ghost last: Outcome)
      returns (res: bool, status: bool, ghost cur: Outcome)
      requires Valid() && marks.Length == |record.elems| && nf == NumNamed(record.elems, name)
      requires last.fixed == fixed && was == last.val.Some? && !Holds(last.val)
      modifies this, marks
      ensures Valid() && cur.fixed == fixed && status == cur.val.Some? && res == Holds(cur.val)
      ensures Passes(env, ast, VariantsOf(record.elems, name, 0) + rest, last) ==
                if res then cur else Passes(env, ast, rest, cur)
      ensures !res ==> forall q :: 0 <= q < marks.Length ==>
                marks[q] == if Named(record.elems[q], name) then 1 else old(marks[q])
    {
      hide Eval;
      hide CountNamed;
      hide Occurrences;
      hide Without;
      var es := record.elems;
      cur := last;
      res, status := false, was;
      var j := 0;
      while j < nf
        invariant Valid() && j <= nf && record.elems == es
        invariant !res && cur.fixed == fixed && status == cur.val.Some? && !Holds(cur.val)
        invariant Passes(env, ast, VariantsOf(es, name, 0) + rest, last) ==
            Passes(env, ast, VariantsOf(es, name, j) + rest, cur)
        invariant forall q :: 0 <= q < marks.Length ==>
                    marks[q] == if Named(es[q], name) && CountNamed(es, name, q) < j then 1 else old(marks[q])
      {
        var p := FieldByName(es, name, j);
        OneMark(es, name, j, p.value);
        marks[p.value] := 1;
        var wrec := RemoveFieldByName(es, name, -1);
        assert es[..|es|] == es;
        RemovedAll(es, name, |es|);
        wrec := wrec + [es[p.value]];
        assert wrec == Variant(es, name, j);
        PassesStep(env, ast, es, name, j, rest, cur);
        cur := Eval(env, wrec, ast, fixed);
        res, status := Pass(wrec);
        if res {
          return;
        }
        j := j + 1;
      }
      assert VariantsOf(es, name, nf) + rest == rest;
      CountsBelow(es, name);
    }
  }

  // ----- marks

  /** Before position `p`, the marked fields are those whose name was tried. */
  ghost predicate Marked(ast: Node, es: seq<Elem>, marks: seq<int>, p: nat)
    requires p <= |es|
  {
    && |marks| == |es|
    && forall q :: 0 <= q < |es| && es[q].FieldElem? ==>
         (marks[q] != 0 <==> Tried(ast, es, es[q].field.name) && CountNamed(es, es[q].field.name, p) > 0)
  }

  lemma MarkedNone(ast: Node, es: seq<Elem>, marks: seq<int>)
    requires |marks| == |es| && forall q :: 0 <= q < |marks| ==> marks[q] == 0
    ensures Marked(ast, es, marks, 0)
  {
  }

  /** A position that is not due changes nothing; one that is due has no mark yet. */
  lemma MarkedStep(ast: Node, es: seq<Elem>, marks: seq<int>, p: nat)
    requires p < |es| && Marked(ast, es, marks, p)
    ensures !Due(ast, es, p) ==> Marked(ast, es, marks, p + 1)
    ensures Due(ast, es, p) <==> es[p].FieldElem? && marks[p] == 0 && Tried(ast, es, es[p].field.name)
  {
    hide Tried;
  }

  lemma MarkedName(ast: Node, es: seq<Elem>, before: seq<int>, after: seq<int>, p: nat)
    requires p < |es| && Due(ast, es, p) && Marked(ast, es, before, p) && |after| == |es|
    requires forall q :: 0 <= q < |es| ==> after[q] == if Named(es[q], es[p].field.name) then 1 else before[q]
    ensures Marked(ast, es, after, p + 1)
  {
    hide Tried;
  }

  lemma OneMark(es: seq<Elem>, name: string, j: nat, p: nat)
    requires IsNth(es, name, j, p)
    ensures CountNamed(es, name, p) < NumNamed(es, name)
    ensures Occurrences(es, name, |es|)[j] == es[p]
    ensures forall q :: 0 <= q < |es| && Named(es[q], name) && CountNamed(es, name, q) == j ==> q == p
  {
    CountNamedMonotone(es, name, p, |es|);
    OccurrenceAt(es, name, p, |es|);
    forall q | 0 <= q < |es| && Named(es[q], name) && CountNamed(es, name, q) == j
      ensures q == p
    {
      NthUnique(es, name, j, p, q);
    }
  }

  lemma {:induction false} OccurrenceAt(es: seq<Elem>, name: string, p: nat, k: nat)
    requires p < k <= |es| && Named(es[p], name)
    ensures CountNamed(es, name, p) < CountNamed(es, name, k)
    ensures Occurrences(es, name, k)[CountNamed(es, name, p)] == es[p]
  {
    if p >= k - 1 {
    } else {
      OccurrenceAt(es, name, p, k - 1);
    }
  }

  lemma CountsBelow(es: seq<Elem>, name: string)
    ensures forall q :: 0 <= q < |es| && Named(es[q], name) ==> CountNamed(es, name, q) < NumNamed(es, name)
  {
    forall q | 0 <= q < |es| && Named(es[q], name)
      ensures CountNamed(es, name, q) < NumNamed(es, name)
    {
      CountNamedMonotone(es, name, q, |es|);
    }
  }

  lemma VariantsStep(ast: Node, es: seq<Elem>, p: nat)
    requires p < |es|
    ensures var rest := Variants(ast, es, p + 1);
            Variants(ast, es, p) == if Due(ast, es, p) then VariantsOf(es, es[p].field.name, 0) + rest else rest
  {
    hide Due;
  }

  lemma VariantsEnd(ast: Node, es: seq<Elem>)
    ensures Variants(ast, es, |es|) == []
  {
  }

  lemma PassesEnd(env: Env, ast: Node, recs: seq<seq<Elem>>, last: Outcome)
    ensures recs == [] || Holds(last.val) ==> Passes(env, ast, recs, last) == last
  {
  }

  lemma PassesStep(env: Env, ast: Node, es: seq<Elem>, name: string, j: nat, rest: seq<seq<Elem>>, last: Outcome)
    requires j < NumNamed(es, name) && !Holds(last.val)
    ensures var next := Eval(env, Variant(es, name, j), ast, last.fixed);
            var all := Passes(env, ast, VariantsOf(es, name, j) + rest, last);
            && all == Passes(env, ast, VariantsOf(es, name, j + 1) + rest, next)
            && (Holds(next.val) ==> all == next)
  {
    hide Eval;
    hide Variant;
    var all := VariantsOf(es, name, j) + rest;
    assert all[0] == Variant(es, name, j);
    assert all[1..] == VariantsOf(es, name, j + 1) + rest;
  }
}
