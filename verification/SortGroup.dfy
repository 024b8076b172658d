/** Sorting a record set and then grouping it by the same fields, as src/rec-db.c does for a
    query. */
module SortGroup {
  import opened RecData
  import opened Foreign
  import opened Ordering
  import opened Sorting
  import opened Grouping

  // ----- a sorted set is in order

  ghost predicate ElemsInOrder(env: Env, fs: seq<SortField>, es: seq<RsetElem>) {
    forall i, j :: 0 <= i < j < |es| ==> Le(env, fs, es[i], es[j])
  }

  lemma {:induction false} RecordsFollowOrder(env: Env, fs: seq<SortField>, es: seq<RsetElem>)
    requires ElemsInOrder(env, fs, es)
    ensures InOrder(env, fs, Records(es))
  {
    hide CompareFrom;
    if es == [] {
    } else {
      var init, last := es[..|es| - 1], es[|es| - 1];
      RecordsFollowOrder(env, fs, init);
      if last.RecordElem? {
        forall r | r in Records(init)
          ensures Compare(env, fs, r, last.record) <= 0
        {
          InRecords(init, r);
          var i :| 0 <= i < |init| && init[i] == RecordElem(r);
          assert Le(env, fs, es[i], es[|es| - 1]);
        }
        assert forall k :: 0 <= k < |Records(init)| ==> Records(init)[k] in Records(init);
      }
    }
  }

  lemma SameRecords(es: seq<RsetElem>, perm: seq<nat>, r: Record)
    requires IsPermutation(perm, |es|)
    ensures r in Records(Pick(es, perm)) <==> r in Records(es)
  {
    InRecords(es, r);
    InRecords(Pick(es, perm), r);
    var sorted := Pick(es, perm);
    assert forall i :: 0 <= i < |sorted| ==> sorted[i] == es[perm[i]];
    if RecordElem(r) in es {
      var p :| 0 <= p < |es| && es[p] == RecordElem(r);
      assert p in perm;
      var i :| 0 <= i < |perm| && perm[i] == p;
      assert sorted[i] == RecordElem(r);
    }
  }

  /** The records of a sorted set are in the order that grouping needs. */
  lemma SortedForGrouping(env: Env, fs: seq<SortField>, es: seq<RsetElem>, perm: seq<nat>)
    requires IsPermutation(perm, |es|) && StablySorted(env, fs, es, perm) && TransitiveOn(env, fs, es)
    ensures InOrder(env, fs, Records(Pick(es, perm))) && TransitiveRecords(env, fs, Records(Pick(es, perm)))
    ensures TransitiveRecords(env, fs, Records(es))
  {
    hide Le;
    hide Compare;
    hide Records;
    assert ElemsInOrder(env, fs, Pick(es, perm));
    RecordsFollowOrder(env, fs, Pick(es, perm));
    TransitiveIff(env, fs, es);
    RecordsTransitiveIff(env, fs, Records(es));
    forall r
      ensures r in Records(Pick(es, perm)) <==> r in Records(es)
    {
      SameRecords(es, perm, r);
    }
  }

  /** Sorting by the group-by fields and grouping leaves no two records that are equal in those
      fields. */
  lemma SortThenGroup(env: Env, fs: seq<SortField>, es: seq<RsetElem>, perm: seq<nat>, k: nat, m: nat)
    requires IsPermutation(perm, |es|) && StablySorted(env, fs, es, perm) && TransitiveOn(env, fs, es)
    requires k < m < |Groups(env, fs, Records(Pick(es, perm)), 0)|
    ensures var out := Groups(env, fs, Records(Pick(es, perm)), 0); Compare(env, fs, out[k], out[m]) != 0
  {
    hide Compare;
    hide StablySorted;
    hide TransitiveOn;
    hide Groups;
    SortedForGrouping(env, fs, es, perm);
    OneRecordPerKey(env, fs, Records(Pick(es, perm)), k, m);
  }

  // ----- a stable sort keeps the order of the records with one key

  /** The records among the first `k` that are equal to `key` in the fields, in order. */
  function Matching(env: Env, fs: seq<SortField>, key: Record, rs: seq<Record>): seq<Record> {
    if rs == [] then []
    else
      var last := rs[|rs| - 1];
      Matching(env, fs, key, rs[..|rs| - 1]) + if Compare(env, fs, key, last) == 0 then [last] else []
  }

  /** The chosen positions, in the order of the list. */
  function Select(perm: seq<nat>, chosen: set<nat>): seq<nat> {
    if perm == [] then []
    else
      var last := perm[|perm| - 1];
      Select(perm[..|perm| - 1], chosen) + if last in chosen then [last] else []
  }

  ghost predicate Increasing(ps: seq<nat>) { forall i, j :: 0 <= i < j < |ps| ==> ps[i] < ps[j] }

  lemma {:induction false} SelectMember(perm: seq<nat>, chosen: set<nat>, p: nat)
    ensures p in Select(perm, chosen) <==> p in perm && p in chosen
  {
    if perm == [] {
    } else {
      var init, last := perm[..|perm| - 1], perm[|perm| - 1];
      SelectMember(init, chosen, p);
      assert perm == init + [last];
    }
  }

  lemma {:induction false} SelectIncreasing(perm: seq<nat>, chosen: set<nat>)
    requires forall i, j :: 0 <= i < j < |perm| && perm[i] in chosen && perm[j] in chosen ==> perm[i] < perm[j]
    ensures Increasing(Select(perm, chosen))
  {
    if perm == [] {
    } else {
      var init, last := perm[..|perm| - 1], perm[|perm| - 1];
      SelectIncreasing(init, chosen);
      var ps := Select(init, chosen);
      forall i | 0 <= i < |ps|
        ensures last in chosen ==> ps[i] < last
      {
        SelectMember(init, chosen, ps[i]);
        var m :| 0 <= m < |init| && init[m] == ps[i];
        assert perm[m] == ps[i] && perm[|perm| - 1] == last;
      }
    }
  }

  lemma LastIsLargest(a: seq<nat>)
    requires Increasing(a) && a != []
    ensures Increasing(a[..|a| - 1]) && a[|a| - 1] in a && forall p: nat :: p in a ==> p <= a[|a| - 1]
    ensures forall p: nat :: p in a[..|a| - 1] <==> p in a && p != a[|a| - 1]
  {
    var init, last := a[..|a| - 1], a[|a| - 1];
    assert a == init + [last];
    assert forall i :: 0 <= i < |init| ==> init[i] == a[i];
  }

  /** An increasing list is determined by its members. */
  lemma {:induction false} IncreasingUnique(a: seq<nat>, b: seq<nat>)
    requires Increasing(a) && Increasing(b) && forall p: nat :: p in a <==> p in b
    ensures a == b
    decreases |a|
  {
    hide Increasing;
    assert (a == [] || a[0] in a) && (b == [] || b[0] in b);
    if a == [] {
    } else {
      LastIsLargest(a);
      LastIsLargest(b);
      var x, y, init, init' := a[|a| - 1], b[|b| - 1], a[..|a| - 1], b[..|b| - 1];
      assert x == y;
      forall p: nat
        ensures p in init <==> p in init'
      {
        assert (p in init <==> p in a && p != x) && (p in init' <==> p in b && p != y) && (p in a <==> p in b);
      }
      IncreasingUnique(init, init');
      assert a == init + [x] && b == init' + [y];
    }
  }

  /** The positions of the records equal to `key`. */
  ghost function Equals(env: Env, fs: seq<SortField>, key: Record, es: seq<RsetElem>): (ps: set<nat>)
    ensures forall p: nat :: p in ps <==> p < |es| && es[p].RecordElem? && Compare(env, fs, key, es[p].record) == 0
  {
    set p: nat | p < |es| && es[p].RecordElem? && Compare(env, fs, key, es[p].record) == 0
  }

  function RecordsAt(es: seq<RsetElem>, ps: seq<nat>): seq<Record>
    requires forall i :: 0 <= i < |ps| ==> ps[i] < |es| && es[ps[i]].RecordElem?
  {
    seq(|ps|, i requires 0 <= i < |ps| => es[ps[i]].record)
  }

  lemma RecordsPickSnoc(es: seq<RsetElem>, perm: seq<nat>)
    requires perm != [] && forall i :: 0 <= i < |perm| ==> perm[i] < |es|
    ensures var e := es[perm[|perm| - 1]];
            Records(Pick(es, perm)) ==
            Records(Pick(es, perm[..|perm| - 1])) + if e.RecordElem? then [e.record] else []
  {
    assert Pick(es, perm)[..|perm| - 1] == Pick(es, perm[..|perm| - 1]);
  }

  lemma MatchingSnoc(env: Env, fs: seq<SortField>, key: Record, rs: seq<Record>, r: Record)
    ensures Matching(env, fs, key, rs + [r]) ==
            Matching(env, fs, key, rs) + if Compare(env, fs, key, r) == 0 then [r] else []
  {
    hide Compare;
    assert (rs + [r])[..|rs|] == rs;
  }

  lemma {:induction false} MatchingSelected(env: Env, fs: seq<SortField>, key: Record, es: seq<RsetElem>,
      perm: seq<nat>)
    requires forall i :: 0 <= i < |perm| ==> perm[i] < |es|
    ensures var ps := Select(perm, Equals(env, fs, key, es));
            && (forall i :: 0 <= i < |ps| ==> ps[i] < |es| && es[ps[i]].RecordElem?)
            && Matching(env, fs, key, Records(Pick(es, perm))) == RecordsAt(es, ps)
  {
    hide Compare;
    hide Matching;
    hide Records;
    hide Pick;
    if perm == [] {
      MatchingNone(env, fs, key, es);
    } else {
      var init, last := perm[..|perm| - 1], perm[|perm| - 1];
      MatchingSelected(env, fs, key, es, init);
      RecordsPickSnoc(es, perm);
      var before := Records(Pick(es, init));
      if es[last].RecordElem? {
        MatchingSnoc(env, fs, key, before, es[last].record);
      }
      assert before + [] == before;
    }
  }

  lemma MatchingNone(env: Env, fs: seq<SortField>, key: Record, es: seq<RsetElem>)
    ensures Matching(env, fs, key, Records(Pick(es, []))) == []
  {
  }

  /** Sorting keeps the records equal to a key in their original order. */
  lemma MatchingKept(env: Env, fs: seq<SortField>, es: seq<RsetElem>, perm: seq<nat>, key: Record)
    requires IsPermutation(perm, |es|) && StablySorted(env, fs, es, perm)
    requires TransitiveRecords(env, fs, Records(es)) && key in Records(es)
    ensures Matching(env, fs, key, Records(Pick(es, perm))) == Matching(env, fs, key, Records(es))
  {
    hide CompareFrom;
    hide Matching;
    hide Select;
    hide Records;
    var chosen := Equals(env, fs, key, es);
    var id := seq(|es|, i requires 0 <= i < |es| => i);
    assert Pick(es, id) == es;
    MatchingSelected(env, fs, key, es, perm);
    MatchingSelected(env, fs, key, es, id);
    forall i, j | 0 <= i < j < |perm| && perm[i] in chosen && perm[j] in chosen
      ensures perm[i] < perm[j]
    {
      EqualsTied(env, fs, es, key, perm[j], perm[i]);
    }
    SelectIncreasing(perm, chosen);
    SelectIncreasing(id, chosen);
    forall p: nat
      ensures p in Select(perm, chosen) <==> p in Select(id, chosen)
    {
      SelectMember(perm, chosen, p);
      SelectMember(id, chosen, p);
      assert p < |es| ==> id[p] == p && p in perm;
    }
    IncreasingUnique(Select(perm, chosen), Select(id, chosen));
  }

  lemma EqualsTied(env: Env, fs: seq<SortField>, es: seq<RsetElem>, key: Record, p: nat, q: nat)
    requires TransitiveRecords(env, fs, Records(es)) && key in Records(es)
    requires p in Equals(env, fs, key, es) && q in Equals(env, fs, key, es)
    ensures Le(env, fs, es[p], es[q])
  {
    hide CompareFrom;
    hide Records;
    hide TransitiveRecords;
    InRecords(es, es[p].record);
    InRecords(es, es[q].record);
    EqualNeedsFullKey(env, fs, key, es[p].record, 0);
    Transits(env, fs, Records(es), es[p].record, key, es[q].record);
  }

  // ----- what each group holds

  lemma {:induction false} GroupIsRun(env: Env, fs: seq<SortField>, rs: seq<Record>, i: nat, k: nat)
    requires i <= |rs| && k < |Groups(env, fs, rs, i)|
    ensures |Leaders(env, fs, rs, i)| == |Groups(env, fs, rs, i)| && Leaders(env, fs, rs, i)[k] < |rs|
    ensures var l := Leaders(env, fs, rs, i)[k];
            Groups(env, fs, rs, i)[k] == MergeRun(fs, rs, l, RunEnd(env, fs, rs, l, l + 1))
    decreases |rs| - i
  {
    hide CompareFrom;
    hide MergeRun;
    SurvivorsKeepKeys(env, fs, rs, i, k);
    if k == 0 {
    } else {
      GroupIsRun(env, fs, rs, RunEnd(env, fs, rs, i, i + 1), k - 1);
    }
  }

  lemma {:induction false} AllOthersSnoc(fs: seq<SortField>, rs: seq<Record>, r: Record, i: nat)
    requires i <= |rs|
    ensures AllOthers(fs, rs + [r], i) == AllOthers(fs, rs, i) + Others(fs, r.elems)
    decreases |rs| - i
  {
    hide Others;
    if i == |rs| {
      assert AllOthers(fs, rs + [r], i + 1) == [];
    } else {
      AllOthersSnoc(fs, rs, r, i + 1);
      var x, y, z := Others(fs, rs[i].elems), AllOthers(fs, rs, i + 1), Others(fs, r.elems);
      assert x + (y + z) == (x + y) + z;
    }
  }

  lemma {:induction false} RunHolds(fs: seq<SortField>, rs: seq<Record>, l: nat, e: nat)
    requires l < e <= |rs|
    ensures Others(fs, MergeRun(fs, rs, l, e).elems) == AllOthers(fs, rs[l..e], 0)
  {
    hide Others;
    if e == l + 1 {
      assert rs[l..e] == [rs[l]];
      assert AllOthers(fs, [rs[l]], 1) == [];
    } else {
      RunHolds(fs, rs, l, e - 1);
      MergeKeeps(fs, MergeRun(fs, rs, l, e - 1), rs[e - 1]);
      AllOthersSnoc(fs, rs[l..e - 1], rs[e - 1], 0);
      assert rs[l..e] == rs[l..e - 1] + [rs[e - 1]];
    }
  }

  lemma {:induction false} MatchingRange(env: Env, fs: seq<SortField>, key: Record, rs: seq<Record>,
                                         l: nat, e: nat, k: nat)
    requires l <= e <= |rs| && k <= |rs|
    requires forall j :: 0 <= j < |rs| ==> (Compare(env, fs, key, rs[j]) == 0 <==> l <= j < e)
    ensures Matching(env, fs, key, rs[..k]) == if k <= l then [] else if k <= e then rs[l..k] else rs[l..e]
  {
    hide Compare;
    hide Matching;
    if k == 0 {
      assert rs[..0] == [];
      MatchingEmpty(env, fs, key);
    } else {
      MatchingRange(env, fs, key, rs, l, e, k - 1);
      assert rs[..k] == rs[..k - 1] + [rs[k - 1]];
      MatchingSnoc(env, fs, key, rs[..k - 1], rs[k - 1]);
      if l < k <= e {
        assert rs[l..k] == (if k - 1 <= l then [] else rs[l..k - 1]) + [rs[k - 1]];
      }
    }
  }

  lemma MatchingEmpty(env: Env, fs: seq<SortField>, key: Record)
    ensures Matching(env, fs, key, []) == []
  {
  }

  lemma EqualThrough(env: Env, fs: seq<SortField>, rs: seq<Record>, a: Record, b: Record, c: Record)
    requires TransitiveRecords(env, fs, rs) && a in rs && b in rs && c in rs
    requires Compare(env, fs, a, b) == 0 && Compare(env, fs, c, b) == 0
    ensures Compare(env, fs, a, c) == 0
  {
    hide CompareFrom;
    hide TransitiveRecords;
    EqualNeedsFullKey(env, fs, a, b, 0);
    EqualNeedsFullKey(env, fs, c, b, 0);
    Transits(env, fs, rs, a, b, c);
    Transits(env, fs, rs, c, b, a);
    BetweenIsEqual(env, fs, a, c, 0);
  }

  /** A record before a leader differs from it. */
  lemma EarlierDiffers(env: Env, fs: seq<SortField>, rs: seq<Record>, k: nat, j: nat)
    requires InOrder(env, fs, rs) && TransitiveRecords(env, fs, rs)
    requires k < |Leaders(env, fs, rs, 0)| && j < Leaders(env, fs, rs, 0)[k] < |rs|
    ensures Compare(env, fs, rs[Leaders(env, fs, rs, 0)[k]], rs[j]) != 0
  {
    hide CompareFrom;
    hide Leaders;
    hide InOrder;
    hide TransitiveRecords;
    var ls := Leaders(env, fs, rs, 0);
    var m := EveryRecordIsGrouped(env, fs, rs, 0, j);
    if k < m {
      LeadersApart(env, fs, rs, 0, k, m);
    }
    assert m < k;
    LeadersApart(env, fs, rs, 0, m, k);
    hide RunEnd;
    PastRunDiffers(env, fs, rs, ls[m], ls[k]);
    if Compare(env, fs, rs[ls[k]], rs[j]) == 0 {
      EqualNeedsFullKey(env, fs, rs[ls[k]], rs[j], 0);
      if ls[m] != j {
        EqualThrough(env, fs, rs, rs[ls[m]], rs[j], rs[ls[k]]);
      }
      assert false;
    }
  }

  lemma {:induction false} SelfEqual(env: Env, fs: seq<SortField>, r: Record, i: nat)
    requires i <= |fs| && FullKey(fs, r)
    ensures CompareFrom(env, fs, r, r, i) == 0
    decreases |fs| - i
  {
    hide ValuesCmp;
    hide FirstValue;
    if i == |fs| {
    } else {
      var v := FirstValue(r, fs[i].name).value;
      ValuesCmpFlip(env, fs[i].kind, v, v);
      SelfEqual(env, fs, r, i + 1);
    }
  }

  lemma InRunIff(env: Env, fs: seq<SortField>, rs: seq<Record>, k: nat, j: nat)
    requires InOrder(env, fs, rs) && TransitiveRecords(env, fs, rs) && k < |Leaders(env, fs, rs, 0)| && j < |rs|
    requires Leaders(env, fs, rs, 0)[k] < |rs| && FullKey(fs, rs[Leaders(env, fs, rs, 0)[k]])
    ensures var l := Leaders(env, fs, rs, 0)[k];
            Compare(env, fs, rs[l], rs[j]) == 0 <==> l <= j < RunEnd(env, fs, rs, l, l + 1)
  {
    hide CompareFrom;
    hide Leaders;
    hide FullKey;
    hide InOrder;
    hide TransitiveRecords;
    var l := Leaders(env, fs, rs, 0)[k];
    if j < l {
      EarlierDiffers(env, fs, rs, k, j);
    } else if RunEnd(env, fs, rs, l, l + 1) <= j {
      PastRunDiffers(env, fs, rs, l, j);
    } else {
      SelfEqual(env, fs, rs[l], 0);
    }
  }

  /** In a sorted set the records equal to a leader with a full key are exactly its run. */
  lemma RunIsMatching(env: Env, fs: seq<SortField>, rs: seq<Record>, k: nat)
    requires InOrder(env, fs, rs) && TransitiveRecords(env, fs, rs) && k < |Leaders(env, fs, rs, 0)|
    requires Leaders(env, fs, rs, 0)[k] < |rs| && FullKey(fs, rs[Leaders(env, fs, rs, 0)[k]])
    ensures var l := Leaders(env, fs, rs, 0)[k];
            Matching(env, fs, rs[l], rs) == rs[l..RunEnd(env, fs, rs, l, l + 1)]
  {
    hide CompareFrom;
    hide Compare;
    hide Leaders;
    hide FullKey;
    hide Matching;
    hide InOrder;
    hide TransitiveRecords;
    var l := Leaders(env, fs, rs, 0)[k];
    var e := RunEnd(env, fs, rs, l, l + 1);
    forall j | 0 <= j < |rs|
      ensures Compare(env, fs, rs[l], rs[j]) == 0 <==> l <= j < e
    {
      InRunIff(env, fs, rs, k, j);
    }
    MatchingRange(env, fs, rs[l], rs, l, e, |rs|);
    assert rs[..|rs|] == rs && l < |rs|;
  }

  /** In a sorted set a group with a full key holds the other elements of exactly the records
      with that key; a group that lacks a field is one of the records. */
  lemma GroupOfSorted(env: Env, fs: seq<SortField>, rs: seq<Record>, k: nat) returns (key: Record)
    requires InOrder(env, fs, rs) && TransitiveRecords(env, fs, rs) && k < |Groups(env, fs, rs, 0)|
    ensures key in rs && KeyElems(fs, key.elems) == KeyElems(fs, Groups(env, fs, rs, 0)[k].elems)
    ensures FullKey(fs, key) ==>
              Others(fs, Groups(env, fs, rs, 0)[k].elems) == AllOthers(fs, Matching(env, fs, key, rs), 0)
    ensures !FullKey(fs, key) ==> Groups(env, fs, rs, 0)[k] == key
  {
    hide CompareFrom;
    hide InOrder;
    hide TransitiveRecords;
    hide Groups;
    hide Leaders;
    hide Others;
    hide KeyElems;
    hide Matching;
    hide FullKey;
    GroupIsRun(env, fs, rs, 0, k);
    SurvivorsKeepKeys(env, fs, rs, 0, k);
    var l := Leaders(env, fs, rs, 0)[k];
    key := rs[l];
    if FullKey(fs, key) {
      RunHolds(fs, rs, l, RunEnd(env, fs, rs, l, l + 1));
      RunIsMatching(env, fs, rs, k);
    } else {
      LonelyRun(env, fs, rs, l);
    }
  }

  /** After sorting and grouping, a record with a full key holds, beside its group-by fields, the
      other elements of exactly the original records with that key, in their original order; a
      record that lacks a group-by field is one of the original records, unchanged. */
  lemma GroupHolds(env: Env, fs: seq<SortField>, es: seq<RsetElem>, perm: seq<nat>, k: nat)
    requires IsPermutation(perm, |es|) && StablySorted(env, fs, es, perm) && TransitiveOn(env, fs, es)
    requires k < |Groups(env, fs, Records(Pick(es, perm)), 0)|
    ensures var r := Groups(env, fs, Records(Pick(es, perm)), 0)[k];
            if FullKey(fs, r) then Others(fs, r.elems) == AllOthers(fs, Matching(env, fs, r, Records(es)), 0)
            else RecordElem(r) in es
  {
    hide StablySorted;
    hide TransitiveOn;
    hide TransitiveRecords;
    hide InOrder;
    hide Records;
    hide Pick;
    hide Groups;
    hide Others;
    hide KeyElems;
    hide Matching;
    hide FullKey;
    SortedForGrouping(env, fs, es, perm);
    var key := GroupOfSorted(env, fs, Records(Pick(es, perm)), k);
    var r := Groups(env, fs, Records(Pick(es, perm)), 0)[k];
    SameKeyFull(fs, key, r);
    SameRecords(es, perm, key);
    InRecords(es, key);
    MatchingKept(env, fs, es, perm, key);
    SameKeyMatches(env, fs, key, r, Records(es));
  }

  lemma LonelyRun(env: Env, fs: seq<SortField>, rs: seq<Record>, l: nat)
    requires l < |rs| && !FullKey(fs, rs[l])
    ensures MergeRun(fs, rs, l, RunEnd(env, fs, rs, l, l + 1)) == rs[l]
  {
    hide CompareFrom;
    if RunEnd(env, fs, rs, l, l + 1) > l + 1 {
      LackingNeverMerged(env, fs, rs, l, l + 1);
      assert false;
    }
  }

  lemma SameKeyFull(fs: seq<SortField>, a: Record, b: Record)
    requires KeyElems(fs, a.elems) == KeyElems(fs, b.elems)
    ensures FullKey(fs, a) <==> FullKey(fs, b)
  {
    hide KeyElems;
    forall i | 0 <= i < |fs|
      ensures FirstValue(a, fs[i].name) == FirstValue(b, fs[i].name)
    {
      ValuesOfKeys(fs, a.elems, fs[i].name);
      ValuesOfKeys(fs, b.elems, fs[i].name);
    }
  }

  lemma {:induction false} SameKeyMatches(env: Env, fs: seq<SortField>, a: Record, b: Record, rs: seq<Record>)
    requires KeyElems(fs, a.elems) == KeyElems(fs, b.elems)
    ensures Matching(env, fs, a, rs) == Matching(env, fs, b, rs)
  {
    hide KeyElems;
    hide CompareFrom;
    if rs == [] {
    } else {
      SameKeyMatches(env, fs, a, b, rs[..|rs| - 1]);
      SameKeyCompares(env, fs, a, b, rs[|rs| - 1], 0);
    }
  }
}
