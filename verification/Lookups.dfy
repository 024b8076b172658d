/** Lookups in the elements of a record by name and ordinal (src/rec-record.c). A field is
    identified by its position. */
module Lookups {
  import opened Wrappers
  import opened RecData

  /** How many of the first `k` elements are fields with that name. */
  function CountNamed(es: seq<Elem>, name: string, k: nat): nat
    requires k <= |es|
  {
    if k == 0 then 0 else CountNamed(es, name, k - 1) + if Named(es[k - 1], name) then 1 else 0
  }

  /** How many of the first `k` elements are fields. */
  function CountFields(es: seq<Elem>, k: nat): nat
    requires k <= |es|
  {
    if k == 0 then 0 else CountFields(es, k - 1) + if es[k - 1].FieldElem? then 1 else 0
  }

  /** The field at `p` is the one with that name and ordinal. */
  ghost predicate IsNth(es: seq<Elem>, name: string, n: nat, p: nat) {
    p < |es| && Named(es[p], name) && CountNamed(es, name, p) == n
  }

  lemma {:induction false} CountNamedMonotone(es: seq<Elem>, name: string, a: nat, b: nat)
    requires a <= b <= |es|
    ensures CountNamed(es, name, a) <= CountNamed(es, name, b)
    ensures a < b && Named(es[a], name) ==> CountNamed(es, name, a) < CountNamed(es, name, b)
  {
    if a == b {
    } else {
      CountNamedMonotone(es, name, a, b - 1);
    }
  }

  lemma {:induction false} CountFieldsMonotone(es: seq<Elem>, a: nat, b: nat)
    requires a <= b <= |es|
    ensures CountFields(es, a) <= CountFields(es, b)
    ensures a < b && es[a].FieldElem? ==> CountFields(es, a) < CountFields(es, b)
  {
    if a == b {
    } else {
      CountFieldsMonotone(es, a, b - 1);
    }
  }

  /** An ordinal belongs to one position only. */
  lemma NthUnique(es: seq<Elem>, name: string, n: nat, p: nat, q: nat)
    requires IsNth(es, name, n, p) && IsNth(es, name, n, q)
    ensures p == q
  {
    if p < q {
      CountNamedMonotone(es, name, p, q);
    } else if q < p {
      CountNamedMonotone(es, name, q, p);
    }
  }

  lemma {:induction false} NthExists(es: seq<Elem>, name: string, n: nat, k: nat)
    requires k <= |es| && n < CountNamed(es, name, k)
    ensures exists p :: IsNth(es, name, n, p)
  {
    if n < CountNamed(es, name, k - 1) {
      NthExists(es, name, n, k - 1);
    } else {
      assert IsNth(es, name, n, k - 1);
    }
  }

  lemma {:induction false} CountBound(es: seq<Elem>, name: string, k: nat)
    requires k <= |es|
    ensures CountNamed(es, name, k) <= k
  {
    if k == 0 {
    } else {
      CountBound(es, name, k - 1);
    }
  }

  /** The values of the fields with that name, in order. */
  function Values(es: seq<Elem>, name: string): seq<string> {
    if es == [] then []
    else (if Named(es[0], name) then [es[0].field.value] else []) + Values(es[1..], name)
  }

  lemma {:induction false} ValuesConcat(a: seq<Elem>, b: seq<Elem>, name: string)
    ensures Values(a + b, name) == Values(a, name) + Values(b, name)
  {
    if a == [] {
      assert a + b == b;
    } else {
      assert (a + b)[1..] == a[1..] + b;
      ValuesConcat(a[1..], b, name);
    }
  }

  lemma ValuesStep(es: seq<Elem>, name: string, i: nat)
    requires i < |es|
    ensures Values(es[..i + 1], name) ==
            Values(es[..i], name) + if Named(es[i], name) then [es[i].field.value] else []
    ensures Values(es, name) == Values(es[..i + 1], name) + Values(es[i + 1..], name)
  {
    assert es[..i + 1] == es[..i] + [es[i]];
    ValuesConcat(es[..i], [es[i]], name);
    assert Values([es[i]], name) == if Named(es[i], name) then [es[i].field.value] else [];
    assert es == es[..i + 1] + es[i + 1..];
    ValuesConcat(es[..i + 1], es[i + 1..], name);
  }

  /** The elements without the fields of that name. */
  function Without(es: seq<Elem>, name: string): seq<Elem> {
    if es == [] then [] else (if Named(es[0], name) then [] else [es[0]]) + Without(es[1..], name)
  }

  lemma {:induction false} WithoutConcat(a: seq<Elem>, b: seq<Elem>, name: string)
    ensures Without(a + b, name) == Without(a, name) + Without(b, name)
  {
    if a == [] {
      assert a + b == b;
    } else {
      assert (a + b)[1..] == a[1..] + b;
      WithoutConcat(a[1..], b, name);
    }
  }

  /** Removing a name removes its values and no others. */
  lemma {:induction false} ValuesWithout(es: seq<Elem>, name: string, other: string)
    ensures Values(Without(es, name), other) == if other == name then [] else Values(es, other)
  {
    if es == [] {
    } else {
      ValuesWithout(es[1..], name, other);
      var head := if Named(es[0], name) then [] else [es[0]];
      ValuesConcat(head, Without(es[1..], name), other);
      assert head != [] ==> head[1..] == [];
    }
  }

  /** The texts of the comments, in order. */
  function Comments(es: seq<Elem>): seq<string> {
    if es == [] then [] else (if es[0].CommentElem? then [es[0].text] else []) + Comments(es[1..])
  }

  lemma {:induction false} CommentsConcat(a: seq<Elem>, b: seq<Elem>)
    ensures Comments(a + b) == Comments(a) + Comments(b)
  {
    if a == [] {
      assert a + b == b;
    } else {
      assert (a + b)[1..] == a[1..] + b;
      CommentsConcat(a[1..], b);
    }
  }

  lemma {:induction false} CommentsWithout(es: seq<Elem>, name: string)
    ensures Comments(Without(es, name)) == Comments(es)
  {
    if es == [] {
    } else {
      CommentsWithout(es[1..], name);
      var head := if Named(es[0], name) then [] else [es[0]];
      CommentsConcat(head, Without(es[1..], name));
      assert head != [] ==> head[1..] == [];
    }
  }

  lemma {:induction false} CountIsValues(es: seq<Elem>, name: string, k: nat)
    requires k <= |es|
    ensures |Values(es[..k], name)| == CountNamed(es, name, k)
  {
    if k == 0 {
      assert es[..0] == [];
    } else {
      CountIsValues(es, name, k - 1);
      ValuesStep(es, name, k - 1);
    }
  }

  /** The field with an ordinal holds the value with that ordinal. */
  lemma NthIsValue(es: seq<Elem>, name: string, n: nat, p: nat)
    requires IsNth(es, name, n, p)
    ensures |Values(es, name)| == CountNamed(es, name, |es|)
    ensures n < |Values(es, name)| && Values(es, name)[n] == es[p].field.value
  {
    assert es[..|es|] == es;
    CountIsValues(es, name, |es|);
    CountIsValues(es, name, p);
    ValuesStep(es, name, p);
  }

  /** The first `k` elements without the field of that name and ordinal, or without all of
      that name if the ordinal is -1. */
  function Removed(es: seq<Elem>, name: string, n: int, k: nat): seq<Elem>
    requires k <= |es|
  {
    if k == 0 then []
    else
      Removed(es, name, n, k - 1)
      + if Named(es[k - 1], name) && (n == -1 || CountNamed(es, name, k - 1) == n) then [] else [es[k - 1]]
  }

  lemma WithoutStep(es: seq<Elem>, name: string, k: nat)
    requires k < |es|
    ensures Without(es[..k + 1], name) == Without(es[..k], name) + if Named(es[k], name) then [] else [es[k]]
  {
    assert es[..k + 1] == es[..k] + [es[k]];
    WithoutConcat(es[..k], [es[k]], name);
    assert [es[k]][1..] == [];
  }

  lemma {:induction false} RemovedAll(es: seq<Elem>, name: string, k: nat)
    requires k <= |es|
    ensures Removed(es, name, -1, k) == Without(es[..k], name)
  {
    if k == 0 {
      assert es[..0] == [];
    } else {
      RemovedAll(es, name, k - 1);
      WithoutStep(es, name, k - 1);
    }
  }

  lemma RemovedStep(es: seq<Elem>, name: string, n: int, k: nat)
    requires 0 < k <= |es|
    ensures Removed(es, name, n, k) ==
            if Named(es[k - 1], name) && (n == -1 || CountNamed(es, name, k - 1) == n) then Removed(es, name, n, k - 1)
            else Removed(es, name, n, k - 1) + [es[k - 1]]
  {
    hide CountNamed;
    assert Removed(es, name, n, k - 1) + [] == Removed(es, name, n, k - 1);
  }

  lemma WithoutSnoc(a: seq<Elem>, e: Elem, name: string)
    ensures Without(a + [e], name) == if Named(e, name) then Without(a, name) else Without(a, name) + [e]
  {
    WithoutConcat(a, [e], name);
    assert [e][1..] == [];
  }

  /** Removing one field takes one element away, if there is such a field, and leaves all
      elements of other names. */
  lemma {:induction false} RemovedOne(es: seq<Elem>, name: string, n: nat, k: nat)
    requires k <= |es|
    ensures |Removed(es, name, n, k)| == k - if n < CountNamed(es, name, k) then 1 else 0
    ensures Without(Removed(es, name, n, k), name) == Without(es[..k], name)
  {
    hide Removed;
    hide Without;
    if k == 0 {
      assert es[..0] == [];
      RemovedNone(es, name, n);
    } else {
      RemovedOne(es, name, n, k - 1);
      RemovedStep(es, name, n, k);
      assert es[..k] == es[..k - 1] + [es[k - 1]];
      WithoutSnoc(es[..k - 1], es[k - 1], name);
      WithoutSnoc(Removed(es, name, n, k - 1), es[k - 1], name);
    }
  }

  lemma RemovedNone(es: seq<Elem>, name: string, n: int)
    ensures Removed(es, name, n, 0) == []
  {
  }

  // ----- the code

  /** `rec_record_num_fields` */
  method NumFields(es: seq<Elem>) returns (n: nat)
    ensures n == CountFields(es, |es|)
  {
    n := 0;
    var i := 0;
    while i < |es|
      invariant i <= |es| && n == CountFields(es, i)
    {
      if es[i].FieldElem? {
        n := n + 1;
      }
      i := i + 1;
    }
  }

  /** `rec_record_get_num_fields_by_name` */
  method NumFieldsByName(es: seq<Elem>, name: string) returns (n: nat)
    ensures n == CountNamed(es, name, |es|) == |Values(es, name)|
  {
    n := 0;
    var i := 0;
    while i < |es|
      invariant i <= |es| && n == CountNamed(es, name, i)
    {
      if Named(es[i], name) {
        n := n + 1;
      }
      i := i + 1;
    }
    assert es[..i] == es;
    CountIsValues(es, name, i);
  }

  /** `rec_record_get_field_by_name`: the position of the field with that ordinal. */
  method FieldByName(es: seq<Elem>, name: string, n: nat) returns (p: Option<nat>)
    ensures p.Some? <==> n < CountNamed(es, name, |es|)
    ensures p.Some? ==> IsNth(es, name, n, p.value)
  {
    var num := 0;
    var i := 0;
    while i < |es|
      invariant i <= |es| && num == CountNamed(es, name, i) <= n
    {
      if Named(es[i], name) {
        if n == num {
          CountNamedMonotone(es, name, i, |es|);
          return Some(i);
        }
        num := num + 1;
      }
      i := i + 1;
    }
    return None;
  }

  /** The same, giving the value. */
  method NthValue(es: seq<Elem>, name: string, n: nat) returns (v: Option<string>)
    ensures v == if n < |Values(es, name)| then Some(Values(es, name)[n]) else None
  {
    var p := FieldByName(es, name, n);
    assert es[..|es|] == es;
    CountIsValues(es, name, |es|);
    if p.None? {
      return None;
    }
    NthIsValue(es, name, n, p.value);
    return Some(es[p.value].field.value);
  }

  /** `rec_record_remove_field_by_name`: the walk removes the element it stands on. */
  method RemoveFieldByName(es: seq<Elem>, name: string, n: int) returns (out: seq<Elem>)
    requires n >= -1
    ensures out == Removed(es, name, n, |es|)
  {
    out := es;
    ghost var q := 0;
    var cur := 0;
    var num := 0;
    while cur < |out|
      invariant q <= |es| && cur <= |out| && num == CountNamed(es, name, q)
      invariant out[..cur] == Removed(es, name, n, q) && out[cur..] == es[q..]
      decreases |es| - q
    {
      assert out[cur] == es[q] && out[cur + 1..] == es[q + 1..];
      if Named(out[cur], name) {
        if n == -1 || n == num {
          out := out[..cur] + out[cur + 1..];
        } else {
          cur := cur + 1;
        }
        num := num + 1;
      } else {
        cur := cur + 1;
      }
      q := q + 1;
    }
    assert out[..cur] == out;
  }

  /** `rec_record_get_field_index`: how many fields precede the one at `p`. */
  method FieldIndex(es: seq<Elem>, p: nat) returns (n: nat)
    requires p < |es| && es[p].FieldElem?
    ensures n == CountFields(es, p)
  {
    n := 0;
    var i := 0;
    while i < p
      invariant i <= p && n == CountFields(es, i)
    {
      if es[i].FieldElem? {
        n := n + 1;
      }
      i := i + 1;
    }
  }
}
