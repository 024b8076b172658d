/** What the delete, comment-out and rename actions (src/rec-db.c) do to the values of a record,
    by the subscripts of the field expression. */
module ActionValues {
  import opened RecData
  import opened Lookups
  import opened Numbers
  import opened RecordOps
  import RecWriter

  /** The element has no subscript, one, or two. */
  predicate Plain(e: FexElem) { e.min >= -1 && e.max >= -1 }

  ghost predicate AllPlain(fex: seq<FexElem>) { forall i :: 0 <= i < |fex| ==> Plain(fex[i]) }

  /** The expression takes value number `j` of the name: an element without subscript takes all,
      one with one subscript that one, one with two the range. */
  ghost predicate Taken(fex: seq<FexElem>, name: string, j: nat) {
    exists i :: 0 <= i < |fex| && fex[i].name == name && Reaches(fex[i], j)
  }

  predicate Reaches(e: FexElem, j: nat) {
    e.min == -1 || (e.max == -1 && j == e.min) || (e.max != -1 && e.min <= j <= e.max)
  }

  /** The values that are not taken, in order. */
  ghost function Left(vs: seq<string>, fex: seq<FexElem>, name: string): seq<string> {
    if vs == [] then []
    else Left(vs[..|vs| - 1], fex, name) + if Taken(fex, name, |vs| - 1) then [] else [vs[|vs| - 1]]
  }

  /** The values that are taken, in order. */
  ghost function Took(vs: seq<string>, fex: seq<FexElem>, name: string): seq<string> {
    if vs == [] then []
    else Took(vs[..|vs| - 1], fex, name) + if Taken(fex, name, |vs| - 1) then [vs[|vs| - 1]] else []
  }

  lemma TakenIsSelected(es: seq<Elem>, fex: seq<FexElem>, p: nat)
    requires p < |es| && es[p].FieldElem? && AllPlain(fex)
    ensures Selected(es, p, fex) <==> Taken(fex, es[p].field.name, CountNamed(es, es[p].field.name, p))
  {
    hide CountNamed;
    var name := es[p].field.name;
    var j := CountNamed(es, name, p);
    if Taken(fex, name, j) {
      var i :| 0 <= i < |fex| && fex[i].name == name && Reaches(fex[i], j);
      assert Plain(fex[i]) && SelectedBy(es, p, fex[i]);
    }
    if Selected(es, p, fex) {
      var i :| 0 <= i < |fex| && SelectedBy(es, p, fex[i]);
      assert Plain(fex[i]) && fex[i].name == name;
    }
  }

  // ----- deleting and commenting out

  lemma OneValue(e: Elem, name: string)
    ensures Values([e], name) == if Named(e, name) then [e.field.value] else []
    ensures Comments([e]) == if e.CommentElem? then [e.text] else []
  {
    assert [e][1..] == [];
  }

  /** Deleting or commenting out leaves exactly the values that the expression does not take, in
      order, for every name. */
  lemma {:induction false} PruneLeaves(es: seq<Elem>, fex: seq<FexElem>, commentOut: bool, k: nat, name: string)
    requires k <= |es| && AllPlain(fex)
    ensures Values(Pruned(es, fex, commentOut, k), name) == Left(Values(es[..k], name), fex, name)
  {
    hide Selected;
    hide Taken;
    hide CountNamed;
    hide Pruned;
    hide Left;
    hide Values;
    hide AllPlain;
    if k == 0 {
      assert es[..0] == [];
      PrunedNone(es, fex, commentOut);
      NoValues(fex, name);
    } else {
      PruneLeaves(es, fex, commentOut, k - 1, name);
      ValuesLast(es, name, k);
      CountIsValues(es, name, k - 1);
      PrunedTail(es, fex, commentOut, k, name);
      if Named(es[k - 1], name) {
        TakenIsSelected(es, fex, k - 1);
        LeftSnoc(Values(es[..k - 1], name), es[k - 1].field.value, fex, name);
      }
    }
  }

  lemma ValuesLast(es: seq<Elem>, name: string, k: nat)
    requires 0 < k <= |es|
    ensures Values(es[..k], name) ==
            if Named(es[k - 1], name) then Values(es[..k - 1], name) + [es[k - 1].field.value]
            else Values(es[..k - 1], name)
  {
    ValuesStep(es, name, k - 1);
  }

  lemma NoValues(fex: seq<FexElem>, name: string)
    ensures Values([], name) == [] && Left([], fex, name) == [] && Took([], fex, name) == []
  {
  }

  lemma PrunedTail(es: seq<Elem>, fex: seq<FexElem>, commentOut: bool, k: nat, name: string)
    requires 0 < k <= |es|
    ensures Values(Pruned(es, fex, commentOut, k), name) ==
            Values(Pruned(es, fex, commentOut, k - 1), name)
            + if Named(es[k - 1], name) && !Selected(es, k - 1, fex) then [es[k - 1].field.value] else []
  {
    hide Selected;
    var e := es[k - 1];
    var tail := if !Selected(es, k - 1, fex) then [e]
                else if commentOut && e.FieldElem? then [CommentElem(RecWriter.FieldText(e.field))]
                else [];
    ValuesConcat(Pruned(es, fex, commentOut, k - 1), tail, name);
    assert tail != [] ==> tail[1..] == [];
  }

  lemma LeftSnoc(vs: seq<string>, v: string, fex: seq<FexElem>, name: string)
    ensures Left(vs + [v], fex, name) == Left(vs, fex, name) + if Taken(fex, name, |vs|) then [] else [v]
    ensures Took(vs + [v], fex, name) == Took(vs, fex, name) + if Taken(fex, name, |vs|) then [v] else []
  {
    hide Taken;
    assert (vs + [v])[..|vs|] == vs;
  }

  /** Deleting keeps the comments; commenting out adds the written fields to them. */
  lemma {:induction false} DeleteKeepsComments(es: seq<Elem>, fex: seq<FexElem>, k: nat)
    requires k <= |es|
    ensures Comments(Pruned(es, fex, false, k)) == Comments(es[..k])
  {
    hide Selected;
    hide Pruned;
    hide Comments;
    if k == 0 {
      assert es[..0] == [];
      PrunedNone(es, fex, false);
    } else {
      DeleteKeepsComments(es, fex, k - 1);
      var e := es[k - 1];
      assert es[..k] == es[..k - 1] + [e];
      CommentsConcat(es[..k - 1], [e]);
      CommentsConcat(Pruned(es, fex, false, k - 1), [e]);
      OneValue(e, "");
      OnlyFieldsSelected(es, fex, k - 1);
      PrunedStep(es, fex, false, k - 1);
      assert Comments(es[..k - 1]) + [] == Comments(es[..k - 1]);
    }
  }

  lemma OnlyFieldsSelected(es: seq<Elem>, fex: seq<FexElem>, p: nat)
    requires p < |es|
    ensures Selected(es, p, fex) ==> es[p].FieldElem?
  {
  }

  // ----- the forms of subscripts

  lemma {:induction false} LeftAll(vs: seq<string>, name: string, max: CInt)
    ensures Left(vs, [FexElem(name, -1, max)], name) == [] && Took(vs, [FexElem(name, -1, max)], name) == vs
  {
    if vs == [] {
    } else {
      var fex := [FexElem(name, -1, max)];
      LeftAll(vs[..|vs| - 1], name, max);
      assert fex[0].name == name && Taken(fex, name, |vs| - 1);
      assert vs == vs[..|vs| - 1] + [vs[|vs| - 1]];
    }
  }

  lemma OneTaken(e: FexElem, j: nat)
    requires Plain(e) && e.min >= 0
    ensures Taken([e], e.name, j) <==> if e.max == -1 then j == e.min else e.min <= j <= e.max
  {
    assert [e][0] == e;
  }

  /** The first `n` values without those from `lo` up to `hi`. */
  lemma {:induction false} LeftRange(vs: seq<string>, fex: seq<FexElem>, name: string, lo: nat, hi: nat)
    requires lo <= hi && forall j: nat :: Taken(fex, name, j) <==> lo <= j < hi
    ensures Left(vs, fex, name) ==
            if |vs| <= lo then vs else if |vs| <= hi then vs[..lo] else vs[..lo] + vs[hi..]
    ensures Took(vs, fex, name) == if |vs| <= lo then [] else if |vs| <= hi then vs[lo..] else vs[lo..hi]
  {
    hide Taken;
    hide Left;
    hide Took;
    if vs == [] {
      NoValues(fex, name);
    } else {
      var n := |vs| - 1;
      var init := vs[..n];
      assert vs == init + [vs[n]];
      LeftRange(init, fex, name, lo, hi);
      LeftSnoc(init, vs[n], fex, name);
      if n < lo {
      } else if n < hi {
        assert init[..lo] == vs[..lo] && vs[lo..] == init[lo..] + [vs[n]];
      } else {
        RangeSnoc(vs, lo, hi);
      }
    }
  }

  lemma RangeSnoc(vs: seq<string>, lo: nat, hi: nat)
    requires lo <= hi < |vs|
    ensures var init := vs[..|vs| - 1];
            && vs[..lo] == init[..lo] && vs[hi..] == init[hi..] + [vs[|vs| - 1]] && vs[lo..hi] == init[lo..hi]
            && (|init| == hi ==> init[hi..] == [] && init[lo..] == vs[lo..hi])
  {
  }

  lemma NoneTaken(vs: seq<string>, fex: seq<FexElem>, name: string)
    requires forall j: nat :: !Taken(fex, name, j)
    ensures Left(vs, fex, name) == vs && Took(vs, fex, name) == []
  {
    hide Taken;
    LeftRange(vs, fex, name, 0, 0);
    assert vs[..0] + vs[0..] == vs;
  }

  /** Without a subscript all fields of the name go. */
  lemma PruneAll(es: seq<Elem>, name: string, commentOut: bool)
    ensures Values(Pruned(es, [FexElem(name, -1, -1)], commentOut, |es|), name) == []
  {
    hide Pruned;
    assert es[..|es|] == es;
    PruneLeaves(es, [FexElem(name, -1, -1)], commentOut, |es|, name);
    LeftAll(Values(es, name), name, -1);
  }

  /** With one subscript the field with that ordinal goes, if there is one. */
  lemma PruneOne(es: seq<Elem>, name: string, i: CInt, commentOut: bool)
    requires i >= 0
    ensures var vs := Values(es, name);
            Values(Pruned(es, [FexElem(name, i, -1)], commentOut, |es|), name) ==
            if i < |vs| then vs[..i] + vs[i + 1..] else vs
  {
    hide Pruned;
    hide Taken;
    var e := FexElem(name, i, -1);
    assert es[..|es|] == es;
    PruneLeaves(es, [e], commentOut, |es|, name);
    forall j: nat
      ensures Taken([e], name, j) <==> i <= j < i + 1
    {
      OneTaken(e, j);
    }
    LeftRange(Values(es, name), [e], name, i, i + 1);
  }

  /** With two subscripts the fields from the first to the second go. */
  lemma PruneRange(es: seq<Elem>, name: string, lo: CInt, hi: CInt, commentOut: bool)
    requires 0 <= lo <= hi
    ensures var vs := Values(es, name);
            Values(Pruned(es, [FexElem(name, lo, hi)], commentOut, |es|), name) ==
            if |vs| <= lo then vs else if |vs| <= hi then vs[..lo] else vs[..lo] + vs[hi + 1..]
  {
    hide Pruned;
    hide Taken;
    var e := FexElem(name, lo, hi);
    assert es[..|es|] == es;
    PruneLeaves(es, [e], commentOut, |es|, name);
    forall j: nat
      ensures Taken([e], name, j) <==> lo <= j < hi + 1
    {
      OneTaken(e, j);
    }
    LeftRange(Values(es, name), [e], name, lo, hi + 1);
  }

  /** Names that the expression does not mention keep their values. */
  lemma PruneOthers(es: seq<Elem>, fex: seq<FexElem>, commentOut: bool, name: string)
    requires AllPlain(fex) && forall i :: 0 <= i < |fex| ==> fex[i].name != name
    ensures Values(Pruned(es, fex, commentOut, |es|), name) == Values(es, name)
  {
    hide Pruned;
    assert es[..|es|] == es;
    PruneLeaves(es, fex, commentOut, |es|, name);
    NoneTaken(Values(es, name), fex, name);
  }

  // ----- renaming

  /** The record after the rename action, as its contract has it. */
  ghost predicate IsRenamed(es: seq<Elem>, es': seq<Elem>, e: FexElem, to: string) {
    && |es'| == |es|
    && forall p :: 0 <= p < |es| ==>
         es'[p] == if SelectedBy(es, p, e) then FieldElem(es[p].field.(name := to)) else es[p]
  }

  lemma SelectedByIsTaken(es: seq<Elem>, e: FexElem, p: nat)
    requires p < |es| && Plain(e)
    ensures SelectedBy(es, p, e) <==> Named(es[p], e.name) && Taken([e], e.name, CountNamed(es, e.name, p))
  {
    hide CountNamed;
    assert [e][0] == e;
  }

  /** Renaming takes the selected values away from the old name and gives them, in order, to the
      new one; all other names keep theirs. */
  lemma {:induction false} RenameMoves(es: seq<Elem>, es': seq<Elem>, e: FexElem, to: string, name: string, k: nat)
    requires IsRenamed(es, es', e, to) && Plain(e) && k <= |es| && to != e.name && Values(es[..k], to) == []
    ensures Values(es'[..k], name) ==
            if name == e.name then Left(Values(es[..k], name), [e], name)
            else if name == to then Took(Values(es[..k], e.name), [e], e.name)
            else Values(es[..k], name)
  {
    hide Taken;
    hide CountNamed;
    hide SelectedBy;
    if k == 0 {
      assert es[..0] == [] && es'[..0] == [];
    } else {
      ValuesLast(es, to, k);
      RenameMoves(es, es', e, to, name, k - 1);
      ValuesLast(es', name, k);
      ValuesLast(es, name, k);
      ValuesLast(es, e.name, k);
      CountIsValues(es, e.name, k - 1);
      SelectedByIsTaken(es, e, k - 1);
      if Named(es[k - 1], e.name) {
        LeftSnoc(Values(es[..k - 1], e.name), es[k - 1].field.value, [e], e.name);
      }
    }
  }

  /** Without a subscript all values move to the new name. */
  lemma RenameAll(es: seq<Elem>, es': seq<Elem>, name: string, to: string)
    requires IsRenamed(es, es', FexElem(name, -1, -1), to) && to != name && Values(es, to) == []
    ensures Values(es', name) == [] && Values(es', to) == Values(es, name)
  {
    var e := FexElem(name, -1, -1);
    RenameWhole(es, es', e, to);
    LeftAll(Values(es, name), name, -1);
  }

  /** With one subscript the value with that ordinal moves. */
  lemma RenameOne(es: seq<Elem>, es': seq<Elem>, name: string, i: CInt, to: string)
    requires IsRenamed(es, es', FexElem(name, i, -1), to) && to != name && Values(es, to) == []
    requires 0 <= i < |Values(es, name)|
    ensures var vs := Values(es, name);
            Values(es', name) == vs[..i] + vs[i + 1..] && Values(es', to) == [vs[i]]
  {
    hide Taken;
    hide Values;
    hide IsRenamed;
    var e := FexElem(name, i, -1);
    RenameWhole(es, es', e, to);
    forall j: nat
      ensures Taken([e], name, j) <==> i <= j < i + 1
    {
      OneTaken(e, j);
    }
    LeftRange(Values(es, name), [e], name, i, i + 1);
  }

  /** With two subscripts the values from the first to the second move. */
  lemma RenameRange(es: seq<Elem>, es': seq<Elem>, name: string, lo: CInt, hi: CInt, to: string)
    requires IsRenamed(es, es', FexElem(name, lo, hi), to) && to != name && Values(es, to) == []
    requires 0 <= lo <= hi < |Values(es, name)|
    ensures var vs := Values(es, name);
            Values(es', name) == vs[..lo] + vs[hi + 1..] && Values(es', to) == vs[lo..hi + 1]
  {
    hide Taken;
    hide Values;
    hide IsRenamed;
    var e := FexElem(name, lo, hi);
    RenameWhole(es, es', e, to);
    forall j: nat
      ensures Taken([e], name, j) <==> lo <= j < hi + 1
    {
      OneTaken(e, j);
    }
    LeftRange(Values(es, name), [e], name, lo, hi + 1);
  }

  lemma RenameWhole(es: seq<Elem>, es': seq<Elem>, e: FexElem, to: string)
    requires IsRenamed(es, es', e, to) && Plain(e) && to != e.name && Values(es, to) == []
    ensures Values(es', e.name) == Left(Values(es, e.name), [e], e.name)
    ensures Values(es', to) == Took(Values(es, e.name), [e], e.name)
    ensures forall name :: name != e.name && name != to ==> Values(es', name) == Values(es, name)
  {
    hide Values;
    hide Left;
    hide Took;
    hide SelectedBy;
    assert es[..|es|] == es && es'[..|es|] == es';
    hide IsRenamed;
    RenameMoves(es, es', e, to, e.name, |es|);
    RenameMoves(es, es', e, to, to, |es|);
    forall name | name != e.name && name != to
      ensures Values(es', name) == Values(es, name)
    {
      RenameMoves(es, es', e, to, name, |es|);
    }
  }
}
