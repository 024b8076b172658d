/** Sorting a record set (src/rec-mset.c, src/rec-rset.c): every element is inserted into a
    sorted list by binary search, with comparison functions that never report equality. */
module Sorting {
  import opened RecData
  import opened Foreign
  import opened Ordering
  import Lookups

  /** `rec_mset_elem_compare_fn` with the two callbacks of a record set: a comment is before
      everything, and equal records count as ordered. */
  function ElemCmp(env: Env, fs: seq<SortField>, e1: RsetElem, e2: RsetElem): (c: int)
    ensures c != 0
  {
    match e1
    case NoteElem(_) => -1
    case RecordElem(r1) =>
      match e2
      case NoteElem(_) => 1
      case RecordElem(r2) =>
        var c := Compare(env, fs, r1, r2);
        if c == 0 then -1 else c
  }

  /** The order that the comparison decides: `a` may stand before `b`. */
  predicate Le(env: Env, fs: seq<SortField>, a: RsetElem, b: RsetElem) { ElemCmp(env, fs, a, b) < 0 }

  /** The order is transitive on these elements. */
  ghost predicate TransitiveOn(env: Env, fs: seq<SortField>, es: seq<RsetElem>) {
    forall a, b, c :: a in es && b in es && c in es && Le(env, fs, a, b) && Le(env, fs, b, c) ==> Le(env, fs, a, c)
  }

  /** It is so if and only if the records have no inversion: among records tied up to some sort
      field, no value of that field that does not convert to its type stands, as a string,
      between two that do and are the other way round. */
  lemma TransitiveIff(env: Env, fs: seq<SortField>, es: seq<RsetElem>)
    ensures TransitiveOn(env, fs, es) <==> NoInversion(env, fs, Records(es))
  {
    hide CompareFrom;
    hide NoInversion;
    hide Records;
    var rs := Records(es);
    RecordsTransitiveIff(env, fs, rs);
    forall r
      ensures r in rs <==> RecordElem(r) in es
    {
      InRecords(es, r);
    }
    if TransitiveOn(env, fs, es) {
      forall a, b, c | a in rs && b in rs && c in rs && Compare(env, fs, a, b) <= 0 && Compare(env, fs, b, c) <= 0
        ensures Compare(env, fs, a, c) <= 0
      {
        assert Le(env, fs, RecordElem(a), RecordElem(b)) && Le(env, fs, RecordElem(b), RecordElem(c));
        assert Le(env, fs, RecordElem(a), RecordElem(c));
      }
    }
    if TransitiveRecords(env, fs, rs) {
      forall a, b, c | a in es && b in es && c in es && Le(env, fs, a, b) && Le(env, fs, b, c)
        ensures Le(env, fs, a, c)
      {
        if a.RecordElem? && b.RecordElem? && c.RecordElem? {
          assert a.record in rs && b.record in rs && c.record in rs;
        }
      }
    }
  }

  lemma LeTotal(env: Env, fs: seq<SortField>, a: RsetElem, b: RsetElem)
    ensures Le(env, fs, a, b) || Le(env, fs, b, a)
  {
    if a.RecordElem? && b.RecordElem? {
      CompareTotal(env, fs, a.record, b.record, 0);
    }
  }

  // ----- the sorted order as a permutation of positions

  /** The elements at the given positions. */
  function Pick(es: seq<RsetElem>, perm: seq<nat>): seq<RsetElem>
    requires forall i :: 0 <= i < |perm| ==> perm[i] < |es|
  {
    seq(|perm|, i requires 0 <= i < |perm| => es[perm[i]])
  }

  /** Each of the first `n` positions occurs exactly once. */
  ghost predicate IsPermutation(perm: seq<nat>, n: nat) {
    && |perm| == n
    && (forall i :: 0 <= i < n ==> perm[i] < n)
    && (forall i, j :: 0 <= i < j < n ==> perm[i] != perm[j])
    && forall k: nat :: k < n ==> k in perm
  }

  /** A stable sort: the order is respected, and elements that are tied keep their original
      order. */
  ghost predicate StablySorted(env: Env, fs: seq<SortField>, es: seq<RsetElem>, perm: seq<nat>)
    requires forall i :: 0 <= i < |perm| ==> perm[i] < |es|
  {
    forall i, j :: 0 <= i < j < |perm| ==>
      && Le(env, fs, es[perm[i]], es[perm[j]])
      && (Le(env, fs, es[perm[j]], es[perm[i]]) ==> perm[i] < perm[j])
  }

  /** Where `e` goes: before the first element that must not stand before it. */
  ghost predicate GoesAt(env: Env, fs: seq<SortField>, list: seq<RsetElem>, e: RsetElem, k: nat) {
    && k <= |list|
    && (forall i :: 0 <= i < k ==> Le(env, fs, list[i], e))
    && forall i :: k <= i < |list| ==> !Le(env, fs, list[i], e)
  }

  lemma InsertKeepsPermutation(perm: seq<nat>, n: nat, k: nat)
    requires IsPermutation(perm, n) && k <= n
    ensures IsPermutation(perm[..k] + [n] + perm[k..], n + 1)
  {
    var perm' := perm[..k] + [n] + perm[k..];
    forall m: nat | m < n + 1
      ensures m in perm'
    {
      if m < n {
        assert m in perm;
        assert perm == perm[..k] + perm[k..];
      } else {
        assert perm'[k] == n;
      }
    }
  }

  lemma PickInsert(es: seq<RsetElem>, perm: seq<nat>, n: nat, k: nat)
    requires IsPermutation(perm, n) && k <= n < |es|
    ensures var perm' := perm[..k] + [n] + perm[k..];
            && (forall i :: 0 <= i < |perm'| ==> perm'[i] < |es|)
            && |perm| == n
            && Pick(es, perm') == Pick(es, perm)[..k] + [es[n]] + Pick(es, perm)[k..]
  {
  }

  /** Comparing the middle element of a sorted list decides one half of it. */
  lemma HalfDecided(env: Env, fs: seq<SortField>, es: seq<RsetElem>, perm: seq<nat>, e: RsetElem, mid: nat)
    requires TransitiveOn(env, fs, es) && e in es
    requires forall i :: 0 <= i < |perm| ==> perm[i] < |es|
    requires StablySorted(env, fs, es, perm) && mid < |perm|
    ensures var list := Pick(es, perm);
            if Le(env, fs, list[mid], e) then forall i :: 0 <= i <= mid ==> Le(env, fs, list[i], e)
            else forall i :: mid <= i < |list| ==> !Le(env, fs, list[i], e)
  {
    hide Le;
    var list := Pick(es, perm);
    assert forall i :: 0 <= i < |list| ==> list[i] == es[perm[i]] && list[i] in es;
    assert forall i :: 0 <= i < mid ==> Le(env, fs, list[i], list[mid]);
    assert forall i :: mid < i < |list| ==> Le(env, fs, list[mid], list[i]);
  }

  /** Inserting position `n` where its element goes keeps the list a stable sort. */
  lemma InsertKeepsSorted(env: Env, fs: seq<SortField>, es: seq<RsetElem>, perm: seq<nat>, n: nat, k: nat)
    requires n < |es| && IsPermutation(perm, n) && StablySorted(env, fs, es, perm)
    requires GoesAt(env, fs, Pick(es, perm), es[n], k)
    ensures var perm' := perm[..k] + [n] + perm[k..];
            IsPermutation(perm', n + 1) && StablySorted(env, fs, es, perm')
  {
    hide Le;
    var perm' := perm[..k] + [n] + perm[k..];
    InsertKeepsPermutation(perm, n, k);
    forall i, j | 0 <= i < j < |perm'|
      ensures Le(env, fs, es[perm'[i]], es[perm'[j]])
      ensures Le(env, fs, es[perm'[j]], es[perm'[i]]) ==> perm'[i] < perm'[j]
    {
      InsertedPair(env, fs, es, perm, n, k, i, j);
    }
  }

  lemma InsertedPair(env: Env, fs: seq<SortField>, es: seq<RsetElem>, perm: seq<nat>, n: nat, k: nat, i: nat, j: nat)
    requires n < |es| && IsPermutation(perm, n) && StablySorted(env, fs, es, perm)
    requires GoesAt(env, fs, Pick(es, perm), es[n], k)
    requires i < j < n + 1 && IsPermutation(perm[..k] + [n] + perm[k..], n + 1)
    ensures var perm' := perm[..k] + [n] + perm[k..];
            && Le(env, fs, es[perm'[i]], es[perm'[j]])
            && (Le(env, fs, es[perm'[j]], es[perm'[i]]) ==> perm'[i] < perm'[j])
  {
    hide Le;
    if i == k {
      assert Pick(es, perm)[j - 1] == es[perm[j - 1]];
      LeTotal(env, fs, es[n], es[perm[j - 1]]);
    } else if j == k {
      assert Pick(es, perm)[i] == es[perm[i]];
    }
  }

  /** Stable sorting has one result only. */
  lemma {:induction false} SortUnique(env: Env, fs: seq<SortField>, es: seq<RsetElem>, p: seq<nat>, q: seq<nat>, k: nat)
    requires IsPermutation(p, |es|) && IsPermutation(q, |es|)
    requires StablySorted(env, fs, es, p) && StablySorted(env, fs, es, q)
    requires k <= |es|
    ensures p[..k] == q[..k]
  {
    hide Le;
    if k == 0 {
    } else {
      SortUnique(env, fs, es, p, q, k - 1);
      if p[k - 1] != q[k - 1] {
        var i := NextPosition(p, q, k);
        var j := NextPosition(q, p, k);
        assert false;
      }
      assert p[..k] == p[..k - 1] + [p[k - 1]] && q[..k] == q[..k - 1] + [q[k - 1]];
    }
  }

  lemma NextPosition(p: seq<nat>, q: seq<nat>, k: nat) returns (i: nat)
    requires 0 < k <= |p| == |q| && p[..k - 1] == q[..k - 1] && p[k - 1] != q[k - 1]
    requires IsPermutation(p, |p|) && IsPermutation(q, |q|)
    ensures k <= i < |q| && q[i] == p[k - 1]
  {
    assert forall m :: 0 <= m < k - 1 ==> q[m] == q[..k - 1][m] == p[m];
    assert p[k - 1] in q;
    i :| 0 <= i < |q| && q[i] == p[k - 1];
  }

  class MultiSet {
    var elems: seq<RsetElem>

    constructor (es: seq<RsetElem>)
      ensures elems == es
    {
      elems := es;
    }

    /** The binary search of the sorted list: on a sorted list it ends where the element
        goes. */
    method FindPlace(env: Env, fs: seq<SortField>, e: RsetElem, ghost es: seq<RsetElem>, ghost perm: seq<nat>)
      returns (low: nat)
      requires e in es && (forall i :: 0 <= i < |perm| ==> perm[i] < |es|) && elems == Pick(es, perm)
      ensures low <= |elems|
      ensures TransitiveOn(env, fs, es) && StablySorted(env, fs, es, perm) ==> GoesAt(env, fs, elems, e, low)
    {
      hide Le;
      hide TransitiveOn;
      hide StablySorted;
      ghost var sorted := TransitiveOn(env, fs, es) && StablySorted(env, fs, es, perm);
      low := 0;
      var high := |elems|;
      while low < high
        invariant low <= high <= |elems|
        invariant sorted ==> forall i :: 0 <= i < low ==> Le(env, fs, elems[i], e)
        invariant sorted ==> forall i :: high <= i < |elems| ==> !Le(env, fs, elems[i], e)
      {
        var mid := low + (high - low) / 2;
        var before := CompareElems(env, fs, elems[mid], e);
        if sorted {
          HalfDecided(env, fs, es, perm, e, mid);
        }
        if before {
          low := mid + 1;
        } else {
          high := mid;
        }
      }
    }

    method CompareElems(env: Env, fs: seq<SortField>, e1: RsetElem, e2: RsetElem) returns (before: bool)
      ensures before == Le(env, fs, e1, e2)
    {
      if e1.NoteElem? {
        return true;
      }
      if e2.NoteElem? {
        return false;
      }
      var c := CompareRecords(env, fs, e1.record, e2.record);
      return c == 0 || c < 0;
    }

    /** `rec_mset_sort` on a record set: the result is always a permutation of the elements,
        and a stable sort whenever the order is transitive on them. */
    method Sort(env: Env, fs: seq<SortField>) returns (ghost perm: seq<nat>)
      modifies this
      ensures IsPermutation(perm, |old(elems)|) && elems == Pick(old(elems), perm)
      ensures TransitiveOn(env, fs, old(elems)) ==> StablySorted(env, fs, old(elems), perm)
    {
      hide TransitiveOn;
      hide StablySorted;
      hide IsPermutation;
      var old_ := elems;
      elems := [];
      perm := [];
      SortedNone(env, fs, old_);
      var i := 0;
      while i < |old_|
        invariant i <= |old_| && |perm| == i && IsPermutation(perm, i)
        invariant forall k :: 0 <= k < |perm| ==> perm[k] < |old_|
        invariant elems == Pick(old_, perm)
        invariant TransitiveOn(env, fs, old_) ==> StablySorted(env, fs, old_, perm)
      {
        var at := FindPlace(env, fs, old_[i], old_, perm);
        InsertKeepsPermutation(perm, i, at);
        PickInsert(old_, perm, i, at);
        if TransitiveOn(env, fs, old_) {
          InsertKeepsSorted(env, fs, old_, perm, i, at);
        }
        elems := elems[..at] + [old_[i]] + elems[at..];
        perm := perm[..at] + [i] + perm[at..];
        i := i + 1;
      }
    }
  }

  lemma SortedNone(env: Env, fs: seq<SortField>, es: seq<RsetElem>)
    ensures IsPermutation([], 0) && StablySorted(env, fs, es, []) && Pick(es, []) == []
  {
  }

  /** In a stable sort all comments come first, in their original order. */
  lemma CommentsFirst(env: Env, fs: seq<SortField>, es: seq<RsetElem>, perm: seq<nat>, i: nat, j: nat)
    requires IsPermutation(perm, |es|) && StablySorted(env, fs, es, perm)
    requires i < j < |perm| && es[perm[j]].NoteElem?
    ensures es[perm[i]].NoteElem? && perm[i] < perm[j]
  {
    assert Le(env, fs, es[perm[i]], es[perm[j]]);
  }

  /** And the records follow in the order of the sort fields, those that compare equal or both
      lack the deciding field in their original order. */
  lemma RecordsInOrder(env: Env, fs: seq<SortField>, es: seq<RsetElem>, perm: seq<nat>, i: nat, j: nat)
    requires IsPermutation(perm, |es|) && StablySorted(env, fs, es, perm)
    requires i < j < |perm| && es[perm[i]].RecordElem?
    ensures es[perm[j]].RecordElem?
    ensures var a, b := es[perm[i]].record, es[perm[j]].record;
            Compare(env, fs, a, b) <= 0 && (Compare(env, fs, b, a) <= 0 ==> perm[i] < perm[j])
  {
    assert Le(env, fs, es[perm[i]], es[perm[j]]);
  }

  /** So of two records in a stable sort the first comes before the second, or has the same
      values in all the sort fields. */
  lemma SortedMeans(env: Env, fs: seq<SortField>, es: seq<RsetElem>, perm: seq<nat>, i: nat, j: nat)
    requires IsPermutation(perm, |es|) && StablySorted(env, fs, es, perm)
    requires i < j < |perm| && es[perm[i]].RecordElem? && es[perm[j]].RecordElem?
    ensures var a, b := es[perm[i]].record, es[perm[j]].record;
            RecordBefore(env, fs, a, b) || SameFields(env, fs, a, b, |fs|)
  {
    hide Compare;
    hide RecordBefore;
    hide SameFields;
    RecordsInOrder(env, fs, es, perm, i, j);
    CompareMeans(env, fs, es[perm[i]].record, es[perm[j]].record);
  }

  /** In particular the records that lack the first sort field come first, and its values do not
      decrease after them. */
  lemma FirstFieldAscends(env: Env, fs: seq<SortField>, es: seq<RsetElem>, perm: seq<nat>, i: nat, j: nat)
    requires IsPermutation(perm, |es|) && StablySorted(env, fs, es, perm) && fs != []
    requires i < j < |perm| && es[perm[i]].RecordElem? && es[perm[j]].RecordElem?
    ensures var x := Lookups.Values(es[perm[i]].record.elems, fs[0].name);
            var y := Lookups.Values(es[perm[j]].record.elems, fs[0].name);
            x == [] || (y != [] && !ValueLess(env, fs[0].kind, y[0], x[0]))
  {
    hide StablySorted;
    var a, b := es[perm[i]].record, es[perm[j]].record;
    SortedMeans(env, fs, es, perm, i, j);
    var x, y := Lookups.Values(a.elems, fs[0].name), Lookups.Values(b.elems, fs[0].name);
    hide Lookups.Values;
    if RecordBefore(env, fs, a, b) {
      var k :| 0 <= k < |fs| && DecidedAt(env, fs, a, b, k);
      if k == 0 && x != [] {
        LessOneWay(env, fs[0].kind, x[0], y[0]);
      } else if k > 0 {
        assert SameFields(env, fs, a, b, k);
      }
    }
  }

  lemma LessOneWay(env: Env, kind: Kind, a: string, b: string)
    ensures !(ValueLess(env, kind, a, b) && ValueLess(env, kind, b, a))
  {
    hide ValuesCmp;
    hide ValueLess;
    ValuesCmpMeans(env, kind, a, b);
  }
}
