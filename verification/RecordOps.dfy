/** Records as objects (src/rec-record.c): lookups by name and ordinal, removal, and the
    rename, delete and comment-out actions of src/rec-db.c, which select fields by a field
    expression. A field is identified by its position. */
module RecordOps {
  import opened Wrappers
  import opened RecData
  import opened Lookups
  import RecWriter
  import opened Numbers

  // ----- subscripts of field expressions

  /** An element of a field expression: a name and two subscripts, -1 where absent. */
  datatype FexElem = FexElem(name: string, min: CInt, max: CInt)

  /** Assigning a C int to an unsigned size. */
  function AsSize(x: int): int { if x < 0 then x + SIZE_MOD else x }

  /** Whether the subscripts select ordinal `j`: no subscript selects all, one selects that
      one, two select the range. */
  predicate InRange(e: FexElem, j: nat) {
    if e.min == -1 then true
    else if e.max == -1 then j == AsSize(e.min)
    else AsSize(e.min) <= j <= AsSize(e.max)
  }

  /** The element is a field whose name and ordinal the expression element selects. */
  predicate SelectedBy(es: seq<Elem>, p: nat, e: FexElem)
    requires p < |es|
  {
    Named(es[p], e.name) && InRange(e, CountNamed(es, e.name, p))
  }

  predicate SelectedByFirst(es: seq<Elem>, p: nat, fex: seq<FexElem>, n: nat)
    requires p < |es| && n <= |fex|
  {
    exists i :: 0 <= i < n && SelectedBy(es, p, fex[i])
  }

  predicate Selected(es: seq<Elem>, p: nat, fex: seq<FexElem>)
    requires p < |es|
  {
    SelectedByFirst(es, p, fex, |fex|)
  }

  /** The first `k` elements after deleting, or turning into comments, exactly the selected
      fields; all else stays, in order. */
  function Pruned(es: seq<Elem>, fex: seq<FexElem>, commentOut: bool, k: nat): seq<Elem>
    requires k <= |es|
  {
    if k == 0 then []
    else
      var e := es[k - 1];
      Pruned(es, fex, commentOut, k - 1)
      + if !Selected(es, k - 1, fex) then [e]
        else if commentOut && e.FieldElem? then [CommentElem(RecWriter.FieldText(e.field))]
        else []
  }

  /** How many of the first `k` elements are selected. */
  function CountSelected(es: seq<Elem>, fex: seq<FexElem>, k: nat): nat
    requires k <= |es|
  {
    if k == 0 then 0 else CountSelected(es, fex, k - 1) + if Selected(es, k - 1, fex) then 1 else 0
  }

  lemma {:induction false} DeletedLength(es: seq<Elem>, fex: seq<FexElem>, k: nat)
    requires k <= |es|
    ensures |Pruned(es, fex, false, k)| == k - CountSelected(es, fex, k)
  {
    hide Selected;
    if k == 0 {
    } else {
      DeletedLength(es, fex, k - 1);
    }
  }

  /** Deleting drops the selected fields and nothing else: every other element is found again,
      moved forward by the number of fields deleted before it. */
  lemma {:induction false} DeletedExactly(es: seq<Elem>, fex: seq<FexElem>, k: nat, p: nat)
    requires p < k <= |es| && !Selected(es, p, fex)
    ensures |Pruned(es, fex, false, k)| == k - CountSelected(es, fex, k)
    ensures 0 <= p - CountSelected(es, fex, p) < |Pruned(es, fex, false, k)|
    ensures Pruned(es, fex, false, k)[p - CountSelected(es, fex, p)] == es[p]
  {
    hide Selected;
    DeletedLength(es, fex, k);
    DeletedLength(es, fex, k - 1);
    if p >= k - 1 {
    } else {
      DeletedExactly(es, fex, k - 1, p);
    }
  }

  /** Commenting out replaces the selected fields where they stand. */
  lemma {:induction false} CommentedExactly(es: seq<Elem>, fex: seq<FexElem>, k: nat)
    requires k <= |es|
    ensures |Pruned(es, fex, true, k)| == k
    ensures forall p :: 0 <= p < k ==>
              Pruned(es, fex, true, k)[p] ==
              if Selected(es, p, fex) then CommentElem(RecWriter.FieldText(es[p].field)) else es[p]
  {
    if k == 0 {
    } else {
      CommentedExactly(es, fex, k - 1);
    }
  }

  /** One element with the rename applied to the first `n` ordinals. */
  function RenamedElem(es: seq<Elem>, p: nat, e: FexElem, to: string, n: nat): Elem
    requires p < |es|
  {
    if SelectedBy(es, p, e) && CountNamed(es, e.name, p) < n then FieldElem(es[p].field.(name := to)) else es[p]
  }

  function Renamed(es: seq<Elem>, e: FexElem, to: string, n: nat): seq<Elem> {
    seq(|es|, p requires 0 <= p < |es| => RenamedElem(es, p, e, to, n))
  }

  /** How many of the first `n` ordinals are in the range. */
  function CountInRange(e: FexElem, n: nat): nat {
    if n == 0 then 0 else CountInRange(e, n - 1) + if InRange(e, n - 1) then 1 else 0
  }

  /** Renaming away from a name shifts the ordinals of the later fields of that name by the
      number already renamed. */
  lemma {:induction false} OrdinalsShift(es: seq<Elem>, e: FexElem, to: string, n: nat, p: nat)
    requires p <= |es| && to != e.name && CountNamed(es, e.name, p) <= n
    ensures CountNamed(Renamed(es, e, to, n), e.name, p) ==
            CountNamed(es, e.name, p) - CountInRange(e, CountNamed(es, e.name, p))
  {
    if p == 0 {
    } else {
      OrdinalsShift(es, e, to, n, p - 1);
    }
  }

  /** Renaming one more ordinal. */
  lemma RenameNext(es: seq<Elem>, e: FexElem, to: string, n: nat, p: nat)
    requires IsNth(es, e.name, n, p) && InRange(e, n)
    ensures Renamed(es, e, to, n + 1) == Renamed(es, e, to, n)[p := FieldElem(es[p].field.(name := to))]
  {
    forall q | 0 <= q < |es| && q != p
      ensures RenamedElem(es, q, e, to, n + 1) == RenamedElem(es, q, e, to, n)
    {
      if Named(es[q], e.name) && CountNamed(es, e.name, q) == n {
        NthUnique(es, e.name, n, p, q);
      }
    }
  }

  lemma RenameSkip(es: seq<Elem>, e: FexElem, to: string, n: nat)
    requires !InRange(e, n)
    ensures Renamed(es, e, to, n + 1) == Renamed(es, e, to, n)
  {
  }

  /** Renaming a field to its own name changes nothing. */
  lemma RenameToSelf(es: seq<Elem>, e: FexElem, n: nat)
    ensures Renamed(es, e, e.name, n) == es
  {
  }

  class RecordObj {
    var elems: seq<Elem>

    constructor (es: seq<Elem>)
      ensures elems == es
    {
      elems := es;
    }

    /** Rename the field whose original ordinal is `j`, when those selected before it have
        been renamed already. */
    method RenameNth(e: FexElem, to: string, j: nat, renamed: nat, ghost es: seq<Elem>)
      requires elems == Renamed(es, e, to, j) && renamed == CountInRange(e, j) <= j
      requires j < CountNamed(es, e.name, |es|) && InRange(e, j)
      modifies this
      ensures elems == Renamed(es, e, to, j + 1)
    {
      NthExists(es, e.name, j, |es|);
      ghost var p0 :| IsNth(es, e.name, j, p0);
      if to == e.name {
        RenameToSelf(es, e, j);
        RenameToSelf(es, e, j + 1);
      } else {
        OrdinalsShift(es, e, to, j, p0);
        CountNamedMonotone(elems, e.name, p0, |elems|);
        RenameNext(es, e, to, j, p0);
      }
      var p := FieldByName(elems, e.name, j - renamed);
      if p.Some? {
        if to != e.name {
          NthUnique(elems, e.name, j - renamed, p0, p.value);
        }
        elems := elems[p.value := FieldElem(elems[p.value].field.(name := to))];
      }
    }

    /** `rec_db_set_act_rename` on the record: although ordinals shift as names change, the
        fields renamed are exactly those whose original ordinals the subscripts select. */
    method Rename(e: FexElem, to: string)
      requires |elems| < SIZE_MOD - 1
      modifies this
      ensures |elems| == |old(elems)|
      ensures forall p :: 0 <= p < |elems| ==>
                elems[p] == if SelectedBy(old(elems), p, e) then FieldElem(old(elems)[p].field.(name := to))
                            else old(elems)[p]
    {
      ghost var es := elems;
      var num := NumFieldsByName(elems, e.name);
      CountBound(elems, e.name, |elems|);
      var min, max := Bounds(e, num);
      var renamed := 0;
      assert elems == Renamed(es, e, to, 0);
      for j := 0 to num
        invariant elems == Renamed(es, e, to, j)
        invariant renamed == CountInRange(e, j) <= j
      {
        if j >= min && j <= max {
          RenameNth(e, to, j, renamed, es);
          renamed := renamed + 1;
        } else {
          RenameSkip(es, e, to, j);
        }
      }
      forall p | 0 <= p < |es| && Named(es[p], e.name)
        ensures CountNamed(es, e.name, p) < num
      {
        CountNamedMonotone(es, e.name, p, |es|);
      }
    }

    /** The source's unsigned bounds for the subscripts of an element that `num` fields of the
        record match. */
    static method Bounds(e: FexElem, num: nat) returns (min: nat, max: nat)
      requires num < SIZE_MOD - 1
      ensures forall j: nat :: j < num ==> (InRange(e, j) <==> min <= j <= max)
    {
      min, max := AsSize(e.min), AsSize(e.max);
      if min == SIZE_MOD - 1 {
        min := 0;
        max := if num == 0 then SIZE_MOD - 1 else num - 1;
      }
      if max == SIZE_MOD - 1 {
        max := min;
      }
    }

    /** `rec_db_set_act_delete`: deletes, or turns into comments, exactly the fields whose
        name and original ordinal some element of the expression selects. */
    method Prune(fex: seq<FexElem>, commentOut: bool)
      requires |elems| < SIZE_MOD - 1
      modifies this
      ensures elems == Pruned(old(elems), fex, commentOut, |old(elems)|)
    {
      var n := NumFields(elems);
      var mask := new bool[n](_ => false);
      forall p | 0 <= p < |elems| && elems[p].FieldElem?
        ensures CountFields(elems, p) < n
      {
        CountFieldsMonotone(elems, p, |elems|);
      }
      var i := 0;
      while i < |fex|
        invariant i <= |fex| && elems == old(elems) && mask.Length == CountFields(elems, |elems|)
        invariant Marked(mask[..], elems, fex, i, 0)
      {
        MarkSelected(fex, i, mask);
        i := i + 1;
      }
      DropMarked(fex, mask, commentOut);
    }

    /** The mask, indexed by field number, marks what the first `n` elements of the expression
        select and what element `n` selects among the first `j` ordinals. */
    static ghost predicate Marked(mask: seq<bool>, es: seq<Elem>, fex: seq<FexElem>, n: nat, j: nat)
      requires n <= |fex|
    {
      && |mask| == CountFields(es, |es|)
      && forall p :: 0 <= p < |es| && es[p].FieldElem? ==>
           && CountFields(es, p) < |mask|
           && (mask[CountFields(es, p)] <==>
                 || SelectedByFirst(es, p, fex, n)
                 || (n < |fex| && SelectedBy(es, p, fex[n]) && CountNamed(es, fex[n].name, p) < j))
    }

    method MarkSelected(fex: seq<FexElem>, i: nat, mask: array<bool>)
      requires i < |fex| && |elems| < SIZE_MOD - 1
      requires Marked(mask[..], elems, fex, i, 0)
      modifies mask
      ensures Marked(mask[..], elems, fex, i + 1, 0)
    {
      var e := fex[i];
      var num := NumFieldsByName(elems, e.name);
      CountBound(elems, e.name, |elems|);
      var min, max := Bounds(e, num);
      for j := 0 to num
        invariant Marked(mask[..], elems, fex, i, j)
      {
        if j >= min && j <= max {
          var p := FieldByName(elems, e.name, j);
          MarkOne(fex, i, j, mask, p.value);
        } else {
          MarkNone(mask[..], fex, i, j);
        }
      }
      MarkedAll(mask[..], fex, i, num);
    }

    method MarkOne(fex: seq<FexElem>, i: nat, j: nat, mask: array<bool>, p: nat)
      requires i < |fex| && Marked(mask[..], elems, fex, i, j)
      requires IsNth(elems, fex[i].name, j, p) && InRange(fex[i], j)
      modifies mask
      ensures Marked(mask[..], elems, fex, i, j + 1)
    {
      var k := FieldIndex(elems, p);
      mask[k] := true;
      forall q | 0 <= q < |elems| && elems[q].FieldElem?
        ensures CountFields(elems, q) == k <==> q == p
        ensures SelectedBy(elems, q, fex[i]) && CountNamed(elems, fex[i].name, q) == j <==> q == p
      {
        if q < p {
          CountFieldsMonotone(elems, q, p);
        } else if p < q {
          CountFieldsMonotone(elems, p, q);
        }
        if Named(elems[q], fex[i].name) && CountNamed(elems, fex[i].name, q) == j {
          NthUnique(elems, fex[i].name, j, p, q);
        }
      }
    }

    lemma MarkNone(mask: seq<bool>, fex: seq<FexElem>, i: nat, j: nat)
      requires i < |fex| && Marked(mask, elems, fex, i, j) && !InRange(fex[i], j)
      ensures Marked(mask, elems, fex, i, j + 1)
    {
    }

    lemma MarkedAll(mask: seq<bool>, fex: seq<FexElem>, i: nat, num: nat)
      requires i < |fex| && Marked(mask, elems, fex, i, num)
      requires num == CountNamed(elems, fex[i].name, |elems|)
      ensures Marked(mask, elems, fex, i + 1, 0)
    {
      forall p | 0 <= p < |elems| && elems[p].FieldElem?
        ensures SelectedByFirst(elems, p, fex, i + 1) <==>
                SelectedByFirst(elems, p, fex, i) || (SelectedBy(elems, p, fex[i]) &&
                    CountNamed(elems, fex[i].name, p) < num)
      {
        CountNamedMonotone(elems, fex[i].name, p, |elems|);
        if SelectedByFirst(elems, p, fex, i + 1) {
          var m :| 0 <= m < i + 1 && SelectedBy(elems, p, fex[m]);
        }
      }
    }

    /** The second pass: walk over the fields and remove or replace the marked ones; the walk
        may remove the element it stands on. */
    method DropMarked(fex: seq<FexElem>, mask: array<bool>, commentOut: bool)
      requires Marked(mask[..], elems, fex, |fex|, 0)
      modifies this
      ensures elems == Pruned(old(elems), fex, commentOut, |old(elems)|)
    {
      hide Marked;
      hide Selected;
      hide Pruned;
      ghost var es := elems;
      ghost var q := 0;
      PrunedNone(es, fex, commentOut);
      var cur := 0;
      var i := 0;
      while cur < |elems|
        invariant q <= |es| && cur <= |elems| && i == CountFields(es, q)
        invariant elems[..cur] == Pruned(es, fex, commentOut, q) && elems[cur..] == es[q..]
        decreases |es| - q
      {
        assert elems[cur] == es[q] && elems[cur + 1..] == es[q + 1..];
        MarkedAt(mask[..], es, fex, q);
        PrunedStep(es, fex, commentOut, q);
        if elems[cur].FieldElem? {
          if mask[i] && commentOut {
            elems := elems[cur := CommentElem(RecWriter.FieldText(elems[cur].field))];
            cur := cur + 1;
          } else if mask[i] {
            elems := elems[..cur] + elems[cur + 1..];
          } else {
            cur := cur + 1;
          }
          i := i + 1;
        } else {
          cur := cur + 1;
        }
        q := q + 1;
      }
      assert elems[..cur] == elems;
    }

    static lemma MarkedAt(mask: seq<bool>, es: seq<Elem>, fex: seq<FexElem>, q: nat)
      requires Marked(mask, es, fex, |fex|, 0) && q < |es|
      ensures CountFields(es, q + 1) == CountFields(es, q) + if es[q].FieldElem? then 1 else 0
      ensures es[q].FieldElem? ==> CountFields(es, q) < |mask| && (mask[CountFields(es, q)] <==> Selected(es, q, fex))
      ensures !es[q].FieldElem? ==> !Selected(es, q, fex)
    {
    }
  }

  lemma PrunedNone(es: seq<Elem>, fex: seq<FexElem>, commentOut: bool)
    ensures Pruned(es, fex, commentOut, 0) == []
  {
  }

  lemma PrunedStep(es: seq<Elem>, fex: seq<FexElem>, commentOut: bool, q: nat)
    requires q < |es|
    ensures Pruned(es, fex, commentOut, q + 1) ==
            if !Selected(es, q, fex) then Pruned(es, fex, commentOut, q) + [es[q]]
            else if commentOut then Pruned(es, fex, commentOut, q) + [CommentElem(RecWriter.FieldText(es[q].field))]
            else Pruned(es, fex, commentOut, q)
  {
  }
}
