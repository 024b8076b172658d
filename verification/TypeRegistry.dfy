/** The type registry of src/rec-types.c: named types and synonyms, resolved recursively with
    visited flags that detect loops. */
module TypeRegistry {
  import opened Wrappers

  /** A type; only its optional name matters to the registry. */
  datatype Type = Type(name: Option<string>, id: nat)

  datatype Target = Is(type_: Type) | SynonymOf(toType: string)

  datatype Entry = Entry(name: string, target: Target, visited: bool)

  ghost predicate Distinct(es: seq<Entry>) {
    forall i, j :: 0 <= i < j < |es| ==> es[i].name != es[j].name
  }

  ghost predicate Clear(es: seq<Entry>) { forall i :: 0 <= i < |es| ==> !es[i].visited }

  function Cleared(es: seq<Entry>): seq<Entry> {
    seq(|es|, i requires 0 <= i < |es| => es[i].(visited := false))
  }

  /** The position of the first entry with that name, or the number of entries. */
  function IndexOf(es: seq<Entry>, name: string): (i: nat)
    ensures i <= |es|
    ensures forall j :: 0 <= j < i ==> es[j].name != name
    ensures i < |es| ==> es[i].name == name
  {
    if es == [] then 0
    else if es[0].name == name then 0
    else
      var i := IndexOf(es[1..], name);
      assert forall j :: 1 <= j < i + 1 ==> es[j] == es[1..][j - 1];
      i + 1
  }

  lemma IndexUnique(es: seq<Entry>, name: string, i: nat)
    requires i <= |es| && (i < |es| ==> es[i].name == name)
    requires forall j :: 0 <= j < i ==> es[j].name != name
    ensures IndexOf(es, name) == i
  {
    var k := IndexOf(es, name);
    assert k < |es| ==> es[k].name == name;
  }

  function Unvisited(es: seq<Entry>): nat {
    if es == [] then 0 else (if es[0].visited then 0 else 1) + Unvisited(es[1..])
  }

  function Visit(es: seq<Entry>, i: nat): (es': seq<Entry>)
    requires i < |es|
  {
    es[i := es[i].(visited := true)]
  }

  /** Marking an entry is progress. */
  lemma {:induction false} VisitDecreases(es: seq<Entry>, i: nat)
    requires i < |es| && !es[i].visited
    ensures Unvisited(Visit(es, i)) == Unvisited(es) - 1
  {
    if i == 0 {
      assert Visit(es, i)[1..] == es[1..];
    } else {
      VisitDecreases(es[1..], i - 1);
      assert Visit(es, i)[1..] == Visit(es[1..], i - 1);
    }
  }

  /** What `rec_type_reg_get` finds, given the flags set so far. */
  function Resolve(es: seq<Entry>, name: string): Option<Type>
    decreases Unvisited(es)
  {
    var i := IndexOf(es, name);
    if i == |es| then None
    else
      match es[i].target
      case Is(t) => Some(t)
      case SynonymOf(to) =>
        if es[i].visited then None
        else
          VisitDecreases(es, i);
          Resolve(Visit(es, i), to)
  }

  function Put(es: seq<Entry>, name: string, target: Target): (es': seq<Entry>)
    requires Distinct(es) && Clear(es)
    ensures Distinct(es') && Clear(es')
    ensures IndexOf(es', name) < |es'| && es'[IndexOf(es', name)].target == target
    ensures forall other :: other != name ==> Target_(es', other) == Target_(es, other)
  {
    var i := IndexOf(es, name);
    var e := Entry(name, target, false);
    var es' := if i == |es| then es + [e] else es[i := e];
    assert Distinct(es');
    IndexUnique(es', name, i);
    assert forall other :: other != name ==> Target_(es', other) == Target_(es, other) by {
      forall other | other != name
        ensures Target_(es', other) == Target_(es, other)
      {
        PutOther(es, es', i, e, other);
      }
    }
    es'
  }

  /** What a name stands for, if it is registered. */
  function Target_(es: seq<Entry>, name: string): Option<Target> {
    var i := IndexOf(es, name);
    if i == |es| then None else Some(es[i].target)
  }

  lemma PutOther(es: seq<Entry>, es': seq<Entry>, i: nat, e: Entry, other: string)
    requires Distinct(es) && Distinct(es') && i <= |es| && other != e.name
    requires i < |es| ==> es[i].name == e.name
    requires es' == if i == |es| then es + [e] else es[i := e]
    ensures Target_(es', other) == Target_(es, other)
  {
    var k := IndexOf(es, other);
    if k < |es| {
      assert es'[k] == es[k];
      IndexUnique(es', other, k);
    } else {
      hide Distinct;
      assert forall j :: 0 <= j < |es'| ==> es'[j].name == e.name || (j < |es| && es'[j] == es[j]);
    }
  }

  /** The registry object. Between calls names are distinct and no flag is set. */
  class Registry {
    var entries: seq<Entry>

    ghost predicate Valid()
      reads this
    {
      Distinct(entries) && Clear(entries)
    }

    constructor ()
      ensures Valid() && entries == []
    {
      entries := [];
    }

    method Store(name: string, target: Target)
      requires Valid()
      modifies this
      ensures Valid() && entries == Put(old(entries), name, target)
    {
      var i := 0;
      while i < |entries| && entries[i].name != name
        invariant 0 <= i <= |entries|
        invariant forall j :: 0 <= j < i ==> entries[j].name != name
      {
        i := i + 1;
      }
      assert i == IndexOf(entries, name);
      if i == |entries| {
        entries := entries + [Entry(name, target, false)];
      } else {
        entries := entries[i := Entry(name, target, false)];
      }
    }

    /** `rec_type_reg_add`: anonymous types are not registered. */
    method Add(type_: Type)
      requires Valid()
      modifies this
      ensures Valid()
      ensures entries == if type_.name.None? then old(entries) else Put(old(entries), type_.name.value, Is(type_))
    {
      if type_.name.Some? {
        Store(type_.name.value, Is(type_));
      }
    }

    /** `rec_type_reg_add_synonym` */
    method AddSynonym(name: string, toType: string)
      requires Valid()
      modifies this
      ensures Valid() && entries == Put(old(entries), name, SynonymOf(toType))
    {
      Store(name, SynonymOf(toType));
    }

    /** `rec_type_reg_get`, also in the states its own recursion creates, where some flags
        are set. It terminates on every registry because each level marks one more entry,
        and it leaves all flags clear. */
    method Get(name: string) returns (type_: Option<Type>)
      requires Distinct(entries)
      modifies this
      ensures type_ == Resolve(old(entries), name)
      ensures entries == Cleared(old(entries))
      decreases Unvisited(entries)
    {
      type_ := None;
      var i := 0;
      while i < |entries|
        invariant i <= |entries| == |old(entries)|
        invariant i <= IndexOf(old(entries), name) ==> entries == old(entries) && type_ == None
        invariant i > IndexOf(old(entries), name) ==>
                    Cleared(entries) == Cleared(old(entries)) && type_ == Resolve(old(entries), name)
        invariant forall j :: 0 <= j < |entries| ==> entries[j].name == old(entries)[j].name
      {
        if entries[i].name == name {
          assert i == IndexOf(old(entries), name) by {
            assert old(entries)[i].name == name;
          }
          match entries[i].target {
            case Is(t) =>
              type_ := Some(t);
              break;
            case SynonymOf(to) =>
              if entries[i].visited {
                break;
              }
              VisitDecreases(entries, i);
              entries := entries[i := entries[i].(visited := true)];
              assert entries == Visit(old(entries), i);
              type_ := Get(to);
          }
        }
        i := i + 1;
      }
      assert Cleared(entries) == Cleared(old(entries)) && type_ == Resolve(old(entries), name);
      ResetFlags();
    }

    method ResetFlags()
      modifies this
      ensures entries == Cleared(old(entries))
    {
      var i := 0;
      while i < |entries|
        invariant i <= |entries| == |old(entries)|
        invariant forall j :: 0 <= j < |entries| ==>
                    entries[j] == if j < i then old(entries)[j].(visited := false) else old(entries)[j]
      {
        entries := entries[i := entries[i].(visited := false)];
        i := i + 1;
      }
    }
  }

  // ----- what a lookup means

  /** The name reached after following `n` synonyms, if there are that many. */
  function Follow(es: seq<Entry>, name: string, n: nat): Option<string> {
    if n == 0 then Some(name)
    else
      var prev := Follow(es, name, n - 1);
      if prev.None? then None
      else
        match Target_(es, prev.value)
        case Some(SynonymOf(to)) => Some(to)
        case _ => None
  }

  lemma FollowStep(es: seq<Entry>, name: string, n: nat)
    requires Follow(es, name, n).Some?
    ensures var target := Target_(es, Follow(es, name, n).value);
            Follow(es, name, n + 1) ==
            if target.Some? && target.value.SynonymOf? then Some(target.value.toType) else None
  {
  }

  /** After `n` synonyms the chain stands at a name registered as type `t`. */
  ghost predicate EndsIn(es: seq<Entry>, name: string, n: nat, t: Type) {
    var x := Follow(es, name, n);
    x.Some? && Target_(es, x.value) == Some(Is(t))
  }

  ghost predicate EndsUnknown(es: seq<Entry>, name: string, n: nat) {
    var x := Follow(es, name, n);
    x.Some? && Target_(es, x.value) == None
  }

  ghost predicate Repeats(es: seq<Entry>, name: string, i: nat, j: nat) {
    i < j && Follow(es, name, i).Some? && Follow(es, name, i) == Follow(es, name, j)
  }

  ghost predicate Found(es: seq<Entry>, name: string, t: Type) { exists n: nat :: EndsIn(es, name, n, t) }

  ghost predicate Unknown(es: seq<Entry>, name: string) { exists n: nat :: EndsUnknown(es, name, n) }

  ghost predicate Cyclic(es: seq<Entry>, name: string) {
    exists i: nat, j: nat :: Repeats(es, name, i, j)
  }

  /** The flags are those set on the way along the first `k` names of the chain. */
  ghost predicate Marks(es0: seq<Entry>, es: seq<Entry>, name: string, k: nat) {
    && |es| == |es0|
    && (forall i :: 0 <= i < |es| ==> es[i].(visited := false) == es0[i].(visited := false))
    && forall i :: 0 <= i < |es| && es[i].visited ==>
         exists j: nat :: j < k && Follow(es0, name, j) == Some(es[i].name)
  }

  lemma {:induction false} SameIndex(es0: seq<Entry>, es: seq<Entry>, name: string)
    requires |es| == |es0| && forall i :: 0 <= i < |es| ==> es[i].(visited := false) == es0[i].(visited := false)
    ensures IndexOf(es, name) == IndexOf(es0, name)
  {
    var i0 := IndexOf(es0, name);
    assert forall i :: 0 <= i < |es| ==> es[i].(visited := false).name == es[i].name == es0[i].name;
    IndexUnique(es, name, i0);
  }

  /** Following the code from position `k` of the chain. */
  lemma {:induction false} ResolveFollows(es0: seq<Entry>, es: seq<Entry>, name: string, k: nat, cur: string)
    requires Marks(es0, es, name, k) && Follow(es0, name, k) == Some(cur)
    ensures match Resolve(es, cur)
            case Some(t) => Found(es0, name, t)
            case None => Unknown(es0, name) || Cyclic(es0, name)
    decreases Unvisited(es)
  {
    hide Follow;
    SameIndex(es0, es, cur);
    var i := IndexOf(es, cur);
    if i == |es| {
      assert EndsUnknown(es0, name, k);
    } else {
      assert es[i].(visited := false) == es0[i].(visited := false);
      match es[i].target {
        case Is(t) =>
          assert EndsIn(es0, name, k, t);
        case SynonymOf(to) =>
          if es[i].visited {
            var j: nat :| j < k && Follow(es0, name, j) == Some(es[i].name);
            assert Repeats(es0, name, j, k);
          } else {
            VisitDecreases(es, i);
            assert Marks(es0, Visit(es, i), name, k + 1) by {
              VisitMarks(es0, es, name, k, i);
            }
            FollowStep(es0, name, k);
            ResolveFollows(es0, Visit(es, i), name, k + 1, to);
          }
      }
    }
  }

  lemma VisitMarks(es0: seq<Entry>, es: seq<Entry>, name: string, k: nat, i: nat)
    requires Marks(es0, es, name, k) && i < |es| && Follow(es0, name, k) == Some(es[i].name)
    ensures Marks(es0, Visit(es, i), name, k + 1)
  {
    hide Follow;
    var es' := Visit(es, i);
    forall m | 0 <= m < |es'| && es'[m].visited
      ensures exists j: nat :: j < k + 1 && Follow(es0, name, j) == Some(es'[m].name)
    {
      if m == i {
        assert k < k + 1 && Follow(es0, name, k) == Some(es'[m].name);
      } else {
        assert es[m].visited;
        var j: nat :| j < k && Follow(es0, name, j) == Some(es[m].name);
        assert j < k + 1 && Follow(es0, name, j) == Some(es'[m].name);
      }
    }
  }

  lemma FollowNone(es: seq<Entry>, name: string)
    ensures Follow(es, name, 0) == Some(name)
  {
  }

  lemma FollowNext(es: seq<Entry>, name: string, n: nat)
    requires n > 0
    ensures var prev := Follow(es, name, n - 1);
            Follow(es, name, n) ==
            if prev.None? then None
            else
              match Target_(es, prev.value)
              case Some(SynonymOf(to)) => Some(to)
              case _ => None
  {
  }

  lemma {:induction false} FollowCompose(es: seq<Entry>, name: string, i: nat, m: nat)
    requires Follow(es, name, i).Some?
    ensures Follow(es, name, i + m) == Follow(es, Follow(es, name, i).value, m)
  {
    if m == 0 {
      FollowNone(es, Follow(es, name, i).value);
    } else {
      hide Follow;
      hide Target_;
      FollowCompose(es, name, i, m - 1);
      FollowNext(es, name, i + m);
      FollowNext(es, Follow(es, name, i).value, m);
    }
  }

  lemma {:induction false} FollowPrefix(es: seq<Entry>, name: string, i: nat, n: nat)
    requires i <= n && Follow(es, name, n).Some?
    ensures Follow(es, name, i).Some?
    decreases n - i
  {
    if i == n {
    } else {
      FollowPrefix(es, name, i + 1, n);
    }
  }

  /** A chain that repeats never stops. */
  lemma {:induction false} CycleNeverStops(es: seq<Entry>, name: string, i: nat, j: nat, n: nat)
    requires Repeats(es, name, i, j)
    ensures Follow(es, name, n).Some?
    decreases n
  {
    hide Follow;
    if n <= j {
      FollowPrefix(es, name, n, j);
    } else {
      CycleNeverStops(es, name, i, j, n - (j - i));
      FollowCompose(es, name, i, n - j);
      FollowCompose(es, name, j, n - j);
    }
  }

  /** A chain that ends does so at one place only. */
  lemma EndUnique(es: seq<Entry>, name: string, n: nat, m: nat)
    requires Follow(es, name, n).Some? && Follow(es, name, n + 1).None?
    requires Follow(es, name, m).Some? && Follow(es, name, m + 1).None?
    ensures n == m
  {
    hide Follow;
    if n < m {
      FollowPrefix(es, name, n + 1, m);
    } else if m < n {
      FollowPrefix(es, name, m + 1, n);
    }
  }

  /** The chain of a name finds at most one type, and a chain that finds one neither reaches
      an unknown name nor loops. */
  lemma OutcomesExclusive(es: seq<Entry>, name: string, t: Type)
    requires Found(es, name, t)
    ensures !Unknown(es, name) && !Cyclic(es, name)
    ensures forall t' :: Found(es, name, t') ==> t' == t
  {
    hide Follow;
    var n: nat :| EndsIn(es, name, n, t);
    FollowStep(es, name, n);
    if Unknown(es, name) {
      var m: nat :| EndsUnknown(es, name, m);
      FollowStep(es, name, m);
      EndUnique(es, name, n, m);
    }
    if Cyclic(es, name) {
      var i: nat, j: nat :| Repeats(es, name, i, j);
      CycleNeverStops(es, name, i, j, n + 1);
    }
    forall t' | Found(es, name, t')
      ensures t' == t
    {
      var m: nat :| EndsIn(es, name, m, t');
      FollowStep(es, name, m);
      EndUnique(es, name, n, m);
    }
  }

  /** A lookup in a registry with clear flags returns the type at the end of the chain of
      synonyms, and nothing exactly when the chain reaches an unknown name or a cycle. */
  lemma ResolveMeaning(es: seq<Entry>, name: string)
    requires Clear(es)
    ensures forall t :: Resolve(es, name) == Some(t) <==> Found(es, name, t)
    ensures Resolve(es, name) == None <==> Unknown(es, name) || Cyclic(es, name)
  {
    ResolveFollows(es, es, name, 0, name);
    forall t | Found(es, name, t)
      ensures Resolve(es, name) == Some(t)
    {
      OutcomesExclusive(es, name, t);
    }
    if Resolve(es, name).Some? {
      OutcomesExclusive(es, name, Resolve(es, name).value);
    }
  }
}
