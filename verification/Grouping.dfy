/** Grouping the records of a set by fields (src/rec-rset.c). A set is given by its records in
    order; comments between them are not touched. */
module Grouping {
  import opened RecData
  import opened Foreign
  import opened Ordering
  import Lookups

  predicate GroupName(fs: seq<SortField>, name: string) { exists i :: 0 <= i < |fs| && fs[i].name == name }

  /** The element is one of the group-by fields. */
  predicate IsKeyElem(fs: seq<SortField>, e: Elem) { e.FieldElem? && GroupName(fs, e.field.name) }

  /** Everything but the group-by fields: the other fields and the comments, in order. */
  function Others(fs: seq<SortField>, es: seq<Elem>): seq<Elem> {
    if es == [] then [] else (if IsKeyElem(fs, es[0]) then [] else [es[0]]) + Others(fs, es[1..])
  }

  function KeyElems(fs: seq<SortField>, es: seq<Elem>): seq<Elem> {
    if es == [] then [] else (if IsKeyElem(fs, es[0]) then [es[0]] else []) + KeyElems(fs, es[1..])
  }

  /** `rec_rset_merge_records`: append everything but the group-by fields. */
  function Merge(fs: seq<SortField>, to: Record, from: Record): Record {
    to.(elems := to.elems + Others(fs, from.elems))
  }

  /** The record at `i` merged with the ones after it up to `j`. */
  function MergeRun(fs: seq<SortField>, rs: seq<Record>, i: nat, j: nat): Record
    requires i < j <= |rs|
  {
    if j == i + 1 then rs[i] else Merge(fs, MergeRun(fs, rs, i, j - 1), rs[j - 1])
  }

  /** Where the run of records equal to the one at `i` ends. */
  function RunEnd(env: Env, fs: seq<SortField>, rs: seq<Record>, i: nat, j: nat): (e: nat)
    requires i < j <= |rs|
    ensures j <= e <= |rs|
    ensures forall k :: j <= k < e ==> Compare(env, fs, rs[i], rs[k]) == 0
    ensures e < |rs| ==> Compare(env, fs, rs[i], rs[e]) != 0
    decreases |rs| - j
  {
    if j < |rs| && Compare(env, fs, rs[i], rs[j]) == 0 then RunEnd(env, fs, rs, i, j + 1) else j
  }

  /** The grouped set from record `i` on: one record for each run of equal records. */
  function Groups(env: Env, fs: seq<SortField>, rs: seq<Record>, i: nat): seq<Record>
    requires i <= |rs|
    decreases |rs| - i
  {
    if i == |rs| then []
    else
      var e := RunEnd(env, fs, rs, i, i + 1);
      [MergeRun(fs, rs, i, e)] + Groups(env, fs, rs, e)
  }

  lemma GroupsStep(env: Env, fs: seq<SortField>, rs: seq<Record>, i: nat)
    requires i < |rs|
    ensures var e := RunEnd(env, fs, rs, i, i + 1);
            Groups(env, fs, rs, i) == [MergeRun(fs, rs, i, e)] + Groups(env, fs, rs, e)
  {
    hide CompareFrom;
    hide MergeRun;
  }

  // ----- what merging keeps

  lemma {:induction false} OthersConcat(fs: seq<SortField>, a: seq<Elem>, b: seq<Elem>)
    ensures Others(fs, a + b) == Others(fs, a) + Others(fs, b)
  {
    hide IsKeyElem;
    if a == [] {
      assert a + b == b;
    } else {
      assert (a + b)[0] == a[0] && (a + b)[1..] == a[1..] + b;
      OthersConcat(fs, a[1..], b);
      var head := if IsKeyElem(fs, a[0]) then [] else [a[0]];
      assert head + (Others(fs, a[1..]) + Others(fs, b)) == (head + Others(fs, a[1..])) + Others(fs, b);
    }
  }

  lemma {:induction false} KeyElemsConcat(fs: seq<SortField>, a: seq<Elem>, b: seq<Elem>)
    ensures KeyElems(fs, a + b) == KeyElems(fs, a) + KeyElems(fs, b)
  {
    hide IsKeyElem;
    if a == [] {
      assert a + b == b;
    } else {
      assert (a + b)[0] == a[0] && (a + b)[1..] == a[1..] + b;
      KeyElemsConcat(fs, a[1..], b);
      var head := if IsKeyElem(fs, a[0]) then [a[0]] else [];
      assert head + (KeyElems(fs, a[1..]) + KeyElems(fs, b)) == (head + KeyElems(fs, a[1..])) + KeyElems(fs, b);
    }
  }

  lemma {:induction false} OthersOfOthers(fs: seq<SortField>, es: seq<Elem>)
    ensures Others(fs, Others(fs, es)) == Others(fs, es)
    ensures KeyElems(fs, Others(fs, es)) == []
  {
    hide IsKeyElem;
    if es == [] {
    } else {
      OthersOfOthers(fs, es[1..]);
      if !IsKeyElem(fs, es[0]) {
        assert Others(fs, es)[1..] == Others(fs, es[1..]);
      } else {
        assert Others(fs, es) == Others(fs, es[1..]);
      }
    }
  }

  lemma MergeKeeps(fs: seq<SortField>, to: Record, from: Record)
    ensures Others(fs, Merge(fs, to, from).elems) == Others(fs, to.elems) + Others(fs, from.elems)
    ensures KeyElems(fs, Merge(fs, to, from).elems) == KeyElems(fs, to.elems)
  {
    OthersConcat(fs, to.elems, Others(fs, from.elems));
    KeyElemsConcat(fs, to.elems, Others(fs, from.elems));
    OthersOfOthers(fs, from.elems);
  }

  /** Values of a group-by field are decided by the group-by fields alone. */
  lemma {:induction false} ValuesOfKeys(fs: seq<SortField>, es: seq<Elem>, name: string)
    requires GroupName(fs, name)
    ensures Lookups.Values(es, name) == Lookups.Values(KeyElems(fs, es), name)
  {
    if es == [] {
    } else {
      ValuesOfKeys(fs, es[1..], name);
      if IsKeyElem(fs, es[0]) {
        assert KeyElems(fs, es)[1..] == KeyElems(fs, es[1..]);
      } else {
        assert KeyElems(fs, es) == KeyElems(fs, es[1..]);
      }
    }
  }

  /** So a record compares the same before and after merging. */
  lemma {:induction false} SameKeyCompares(env: Env, fs: seq<SortField>, a: Record, a': Record, b: Record, i: nat)
    requires i <= |fs| && KeyElems(fs, a.elems) == KeyElems(fs, a'.elems)
    ensures CompareFrom(env, fs, a', b, i) == CompareFrom(env, fs, a, b, i)
    ensures CompareFrom(env, fs, b, a', i) == CompareFrom(env, fs, b, a, i)
    decreases |fs| - i
  {
    hide ValuesCmp;
    hide KeyElems;
    hide Lookups.Values;
    if i == |fs| {
    } else {
      SameKeyCompares(env, fs, a, a', b, i + 1);
      ValuesOfKeys(fs, a.elems, fs[i].name);
      ValuesOfKeys(fs, a'.elems, fs[i].name);
      assert FirstValue(a, fs[i].name) == FirstValue(a', fs[i].name);
    }
  }

  // ----- the code

  class GroupedSet {
    var records: seq<Record>

    constructor (rs: seq<Record>)
      ensures records == rs
    {
      records := rs;
    }

    /** What survives the second pass among the first `k` records. */
    static function Survivors(rs: seq<Record>, map_: seq<bool>, k: nat): seq<Record>
      requires k <= |rs| && k <= |map_|
    {
      if k == 0 then []
      else if map_[k - 1] then Survivors(rs, map_, k - 1) else Survivors(rs, map_, k - 1) + [rs[k - 1]]
    }

    static lemma {:induction false} SurvivorsAgree(rs: seq<Record>, rs': seq<Record>, m: seq<bool>, m': seq<bool>,
        k: nat)
      requires k <= |rs| && k <= |rs'| && k <= |m| && k <= |m'|
      requires forall i :: 0 <= i < k ==> m[i] == m'[i] && (!m[i] ==> rs[i] == rs'[i])
      ensures Survivors(rs, m, k) == Survivors(rs', m', k)
    {
      if k == 0 {
      } else {
        SurvivorsAgree(rs, rs', m, m', k - 1);
      }
    }

    static lemma {:induction false} SurvivorsSkip(rs: seq<Record>, m: seq<bool>, a: nat, b: nat)
      requires a <= b <= |rs| && b <= |m| && forall i :: a <= i < b ==> m[i]
      ensures Survivors(rs, m, b) == Survivors(rs, m, a)
    {
      if a == b {
      } else {
        SurvivorsSkip(rs, m, a, b - 1);
      }
    }

    method MergeInto(fs: seq<SortField>, to: nat, from: nat)
      requires to < |records| && from < |records| && to != from
      modifies this
      ensures records == old(records)[to := Merge(fs, old(records)[to], old(records)[from])]
    {
      var es := records[from].elems;
      var added := [];
      var i := 0;
      assert es[0..] == es;
      while i < |es|
        invariant i <= |es| && records == old(records)
        invariant added + Others(fs, es[i..]) == Others(fs, es)
      {
        assert es[i..][1..] == es[i + 1..];
        if !IsKeyElem(fs, es[i]) {
          added := added + [es[i]];
        }
        i := i + 1;
      }
      assert added == Others(fs, es);
      records := records[to := records[to].(elems := records[to].elems + added)];
    }

    /** Merge the run that starts at `num` into it and mark the others for deletion. */
    method MergeRunAt(env: Env, fs: seq<SortField>, num: nat, map_: array<bool>) returns (ghost end: nat)
      requires num < |records| == map_.Length
      requires forall k :: num <= k < map_.Length ==> !map_[k]
      modifies this, map_
      ensures |records| == |old(records)|
      ensures end == RunEnd(env, fs, old(records), num, num + 1)
      ensures records == old(records)[num := MergeRun(fs, old(records), num, end)]
      ensures forall k :: 0 <= k < map_.Length ==> map_[k] == if num < k < end then true else old(map_[k])
    {
      hide CompareFrom;
      ghost var rs := records;
      var j := num + 1;
      while j < |records|
        invariant num < j <= |records| == |rs|
        invariant RunEnd(env, fs, rs, num, num + 1) == RunEnd(env, fs, rs, num, j)
        invariant records == rs[num := MergeRun(fs, rs, num, j)]
        invariant KeyElems(fs, records[num].elems) == KeyElems(fs, rs[num].elems)
        invariant forall k :: 0 <= k < map_.Length ==> map_[k] == if num < k < j then true else old(map_[k])
      {
        var c := CompareRecords(env, fs, records[num], records[j]);
        SameKeyCompares(env, fs, rs[num], records[num], rs[j], 0);
        if c != 0 {
          break;
        }
        MergeKeeps(fs, records[num], rs[j]);
        MergeInto(fs, num, j);
        map_[j] := true;
        j := j + 1;
      }
      end := j;
    }

    /** The first pass has dealt with all runs before `bound`. */
    static ghost predicate Grouped(env: Env, fs: seq<SortField>, rs: seq<Record>, cur: seq<Record>, m: seq<bool>,
        bound: nat) {
      && bound <= |rs| == |cur| == |m|
      && (forall k :: bound <= k < |rs| ==> cur[k] == rs[k] && !m[k])
      && Survivors(cur, m, bound) + Groups(env, fs, rs, bound) == Groups(env, fs, rs, 0)
    }

    /** Dealing with one more run. */
    static lemma GroupedStep(env: Env, fs: seq<SortField>, rs: seq<Record>, cur: seq<Record>, m: seq<bool>,
                             cur': seq<Record>, m': seq<bool>, bound: nat)
      requires Grouped(env, fs, rs, cur, m, bound) && bound < |rs|
      requires var end := RunEnd(env, fs, cur, bound, bound + 1);
               && cur' == cur[bound := MergeRun(fs, cur, bound, end)]
               && |m'| == |m| && forall k :: 0 <= k < |m| ==> m'[k] == if bound < k < end then true else m[k]
      ensures Grouped(env, fs, rs, cur', m', RunEnd(env, fs, cur, bound, bound + 1))
    {
      hide CompareFrom;
      hide MergeRun;
      hide Groups;
      hide RunEnd;
      var end := RunEnd(env, fs, cur, bound, bound + 1);
      assert rs[bound..] == cur[bound..];
      SameSuffix(env, fs, rs, cur, bound);
      GroupsStep(env, fs, rs, bound);
      SurvivorsAgree(cur, cur', m, m', bound);
      SurvivorsSkip(cur', m', bound + 1, end);
      var before := Survivors(cur, m, bound);
      assert Survivors(cur', m', end) == before + [cur'[bound]];
      assert Groups(env, fs, rs, bound) == [cur'[bound]] + Groups(env, fs, rs, end);
      assert before + ([cur'[bound]] + Groups(env, fs, rs, end)) == before + [cur'[bound]] + Groups(env, fs, rs, end);
    }

    /** `rec_rset_group` */
    method Group(env: Env, fs: seq<SortField>)
      modifies this
      ensures records == Groups(env, fs, old(records), 0)
    {
      hide CompareFrom;
      hide MergeRun;
      hide Grouped;
      var map_ := new bool[|records|](_ => false);
      ghost var rs := records;
      ghost var bound := 0;
      GroupedStart(env, fs, rs, map_[..]);
      var num := 0;
      while num < |records|
        invariant num <= bound <= |records| == |rs| == map_.Length
        invariant forall k :: num <= k < bound ==> map_[k]
        invariant forall k :: bound <= k < map_.Length ==> !map_[k]
        invariant Grouped(env, fs, rs, records, map_[..], bound)
      {
        if !map_[num] {
          ghost var before, marks := records, map_[..];
          ghost var end := MergeRunAt(env, fs, num, map_);
          GroupedStep(env, fs, rs, before, marks, records, map_[..], bound);
          bound := end;
        }
        num := num + 1;
      }
      GroupedEnd(env, fs, rs, records, map_[..]);
      DropMarked(map_);
    }

    static lemma GroupedStart(env: Env, fs: seq<SortField>, rs: seq<Record>, m: seq<bool>)
      requires |m| == |rs| && forall k :: 0 <= k < |m| ==> !m[k]
      ensures Grouped(env, fs, rs, rs, m, 0)
    {
    }

    static lemma GroupedEnd(env: Env, fs: seq<SortField>, rs: seq<Record>, cur: seq<Record>, m: seq<bool>)
      requires Grouped(env, fs, rs, cur, m, |rs|)
      ensures |cur| == |m| == |rs| && Survivors(cur, m, |cur|) == Groups(env, fs, rs, 0)
    {
      assert Groups(env, fs, rs, |rs|) == [];
    }

    /** Runs and their merges depend on the records from there on only. */
    static lemma {:induction false} SameSuffix(env: Env, fs: seq<SortField>, rs: seq<Record>, rs': seq<Record>, i: nat)
      requires i < |rs| == |rs'| && rs[i..] == rs'[i..]
      ensures RunEnd(env, fs, rs', i, i + 1) == RunEnd(env, fs, rs, i, i + 1)
      ensures MergeRun(fs, rs', i, RunEnd(env, fs, rs', i, i + 1)) == MergeRun(fs, rs, i, RunEnd(env, fs, rs, i, i + 1))
    {
      hide CompareFrom;
      assert forall k :: i <= k < |rs| ==> rs[k] == rs[i..][k - i] == rs'[k];
      SameRunEnd(env, fs, rs, rs', i, i + 1);
      SameMerge(fs, rs, rs', i, RunEnd(env, fs, rs, i, i + 1));
    }

    static lemma {:induction false} SameRunEnd(env: Env, fs: seq<SortField>, rs: seq<Record>, rs': seq<Record>,
        i: nat, j: nat)
      requires i < j <= |rs| == |rs'| && forall k :: i <= k < |rs| ==> rs[k] == rs'[k]
      ensures RunEnd(env, fs, rs', i, j) == RunEnd(env, fs, rs, i, j)
      decreases |rs| - j
    {
      hide CompareFrom;
      if j == |rs| {
      } else {
        SameRunEnd(env, fs, rs, rs', i, j + 1);
      }
    }

    static lemma {:induction false} SameMerge(fs: seq<SortField>, rs: seq<Record>, rs': seq<Record>, i: nat, j: nat)
      requires i < j <= |rs| == |rs'| && forall k :: i <= k < |rs| ==> rs[k] == rs'[k]
      ensures MergeRun(fs, rs', i, j) == MergeRun(fs, rs, i, j)
    {
      if j <= i + 1 {
      } else {
        SameMerge(fs, rs, rs', i, j - 1);
      }
    }

    /** The second pass: the walk removes the record it stands on. */
    method DropMarked(map_: array<bool>)
      requires map_.Length == |records|
      modifies this
      ensures records == Survivors(old(records), map_[..], |old(records)|)
    {
      ghost var rs := records;
      var cur := 0;
      var num := 0;
      while cur < |records|
        invariant num <= |rs| && cur <= |records|
        invariant records[..cur] == Survivors(rs, map_[..], num) && records[cur..] == rs[num..]
        decreases |rs| - num
      {
        assert records[cur] == rs[num] && records[cur + 1..] == rs[num + 1..];
        if map_[num] {
          records := records[..cur] + records[cur + 1..];
        } else {
          cur := cur + 1;
        }
        num := num + 1;
      }
      assert records[..cur] == records;
    }
  }

  // ----- the results

  function AllOthers(fs: seq<SortField>, rs: seq<Record>, i: nat): seq<Elem>
    requires i <= |rs|
    decreases |rs| - i
  {
    if i == |rs| then [] else Others(fs, rs[i].elems) + AllOthers(fs, rs, i + 1)
  }

  lemma {:induction false} RunKeeps(fs: seq<SortField>, rs: seq<Record>, i: nat, j: nat)
    requires i < j <= |rs|
    ensures Others(fs, MergeRun(fs, rs, i, j).elems) + AllOthers(fs, rs, j) == AllOthers(fs, rs, i)
    ensures KeyElems(fs, MergeRun(fs, rs, i, j).elems) == KeyElems(fs, rs[i].elems)
  {
    hide Others;
    hide KeyElems;
    if j <= i + 1 {
    } else {
      RunKeeps(fs, rs, i, j - 1);
      MergeKeeps(fs, MergeRun(fs, rs, i, j - 1), rs[j - 1]);
      assert AllOthers(fs, rs, j - 1) == Others(fs, rs[j - 1].elems) + AllOthers(fs, rs, j);
    }
  }

  /** Grouping loses, adds and reorders nothing but group-by fields: the other fields and the
      comments of all records, concatenated in order, are the same before and after. */
  lemma {:induction false} GroupsConserve(env: Env, fs: seq<SortField>, rs: seq<Record>, i: nat)
    requires i <= |rs|
    ensures AllOthers(fs, Groups(env, fs, rs, i), 0) == AllOthers(fs, rs, i)
    decreases |rs| - i
  {
    hide CompareFrom;
    if i == |rs| {
    } else {
      var e := RunEnd(env, fs, rs, i, i + 1);
      var rest := Groups(env, fs, rs, e);
      GroupsConserve(env, fs, rs, e);
      RunKeeps(fs, rs, i, e);
      AllOthersCons(fs, MergeRun(fs, rs, i, e), rest);
    }
  }

  lemma AllOthersCons(fs: seq<SortField>, r: Record, rest: seq<Record>)
    ensures AllOthers(fs, [r] + rest, 0) == Others(fs, r.elems) + AllOthers(fs, rest, 0)
  {
    AllOthersShift(fs, [r] + rest, rest, 1, 0);
  }

  lemma {:induction false} AllOthersShift(fs: seq<SortField>, a: seq<Record>, b: seq<Record>, i: nat, j: nat)
    requires i <= |a| && j <= |b| && a[i..] == b[j..]
    ensures AllOthers(fs, a, i) == AllOthers(fs, b, j)
    decreases |a| - i
  {
    assert |a| - i == |a[i..]| == |b[j..]| == |b| - j;
    if i == |a| {
    } else {
      assert a[i] == a[i..][0] == b[j..][0] == b[j];
      assert a[i + 1..] == a[i..][1..] == b[j..][1..] == b[j + 1..];
      AllOthersShift(fs, a, b, i + 1, j + 1);
    }
  }

  /** The positions of the records that survive. */
  function Leaders(env: Env, fs: seq<SortField>, rs: seq<Record>, i: nat): seq<nat>
    requires i <= |rs|
    decreases |rs| - i
  {
    if i == |rs| then [] else [i] + Leaders(env, fs, rs, RunEnd(env, fs, rs, i, i + 1))
  }

  /** Each survivor keeps its own group-by fields. */
  lemma {:induction false} SurvivorsKeepKeys(env: Env, fs: seq<SortField>, rs: seq<Record>, i: nat, k: nat)
    requires i <= |rs| && k < |Groups(env, fs, rs, i)|
    ensures |Leaders(env, fs, rs, i)| == |Groups(env, fs, rs, i)|
    ensures i <= Leaders(env, fs, rs, i)[k] < |rs|
    ensures KeyElems(fs, Groups(env, fs, rs, i)[k].elems) == KeyElems(fs, rs[Leaders(env, fs, rs, i)[k]].elems)
    decreases |rs| - i
  {
    hide CompareFrom;
    hide KeyElems;
    hide MergeRun;
    var e := RunEnd(env, fs, rs, i, i + 1);
    RunKeeps(fs, rs, i, e);
    if k > 0 {
      SurvivorsKeepKeys(env, fs, rs, e, k - 1);
    } else if e < |rs| {
      SurvivorsKeepKeys(env, fs, rs, e, 0);
    }
  }

  /** A record that lacks a group-by field is merged with no other: it survives alone. */
  lemma LackingNeverMerged(env: Env, fs: seq<SortField>, rs: seq<Record>, i: nat, j: nat)
    requires i < |rs| && i < j < RunEnd(env, fs, rs, i, i + 1)
    ensures FullKey(fs, rs[i]) && FullKey(fs, rs[j])
  {
    hide CompareFrom;
    EqualNeedsFullKey(env, fs, rs[i], rs[j], 0);
  }

  /** The records are in the order of the group-by fields. */
  ghost predicate InOrder(env: Env, fs: seq<SortField>, rs: seq<Record>) {
    forall i, j :: 0 <= i < j < |rs| ==> Compare(env, fs, rs[i], rs[j]) <= 0
  }

  /** In a sorted set a record past the run of another differs from it. */
  lemma PastRunDiffers(env: Env, fs: seq<SortField>, rs: seq<Record>, i: nat, j: nat)
    requires InOrder(env, fs, rs) && TransitiveRecords(env, fs, rs)
    requires i < |rs| && RunEnd(env, fs, rs, i, i + 1) <= j < |rs|
    ensures Compare(env, fs, rs[i], rs[j]) != 0
  {
    hide CompareFrom;
    var e := RunEnd(env, fs, rs, i, i + 1);
    hide RunEnd;
    if e < j {
      assert Compare(env, fs, rs[i], rs[e]) <= 0 && Compare(env, fs, rs[e], rs[j]) <= 0;
      hide InOrder;
      SqueezedIsEqual(env, fs, rs, i, e, j);
    }
  }

  /** A record that stands between two equal ones is equal to them. */
  lemma SqueezedIsEqual(env: Env, fs: seq<SortField>, rs: seq<Record>, i: nat, e: nat, j: nat)
    requires TransitiveRecords(env, fs, rs) && i < |rs| && e < |rs| && j < |rs|
    requires Compare(env, fs, rs[i], rs[e]) <= 0 && Compare(env, fs, rs[e], rs[j]) <= 0
    ensures Compare(env, fs, rs[i], rs[j]) == 0 ==> Compare(env, fs, rs[i], rs[e]) == 0
  {
    hide CompareFrom;
    hide TransitiveRecords;
    if Compare(env, fs, rs[i], rs[j]) == 0 {
      EqualNeedsFullKey(env, fs, rs[i], rs[j], 0);
      Transits(env, fs, rs, rs[e], rs[j], rs[i]);
      BetweenIsEqual(env, fs, rs[i], rs[e], 0);
    }
  }

  lemma {:induction false} LeadersApart(env: Env, fs: seq<SortField>, rs: seq<Record>, i: nat, k: nat, m: nat)
    requires i <= |rs| && k < m < |Leaders(env, fs, rs, i)|
    ensures i <= Leaders(env, fs, rs, i)[k] < |rs|
    ensures RunEnd(env, fs, rs, Leaders(env, fs, rs, i)[k], Leaders(env, fs, rs, i)[k] + 1) <= Leaders(env, fs, rs,
        i)[m] < |rs|
    decreases |rs| - i
  {
    hide CompareFrom;
    var e := RunEnd(env, fs, rs, i, i + 1);
    LeaderRange(env, fs, rs, e, m - 1);
    if k == 0 {
    } else {
      LeadersApart(env, fs, rs, e, k - 1, m - 1);
    }
  }

  lemma {:induction false} LeaderRange(env: Env, fs: seq<SortField>, rs: seq<Record>, i: nat, k: nat)
    requires i <= |rs| && k < |Leaders(env, fs, rs, i)|
    ensures i <= Leaders(env, fs, rs, i)[k] < |rs|
    decreases |rs| - i
  {
    hide CompareFrom;
    if k == 0 {
    } else {
      LeaderRange(env, fs, rs, RunEnd(env, fs, rs, i, i + 1), k - 1);
    }
  }

  /** After sorting by the same fields, grouping leaves one record for each distinct full key:
      no two of the resulting records are equal in the group-by fields. */
  lemma OneRecordPerKey(env: Env, fs: seq<SortField>, rs: seq<Record>, k: nat, m: nat)
    requires InOrder(env, fs, rs) && TransitiveRecords(env, fs, rs)
    requires k < m < |Groups(env, fs, rs, 0)|
    ensures var out := Groups(env, fs, rs, 0); Compare(env, fs, out[k], out[m]) != 0
  {
    hide CompareFrom;
    hide Groups;
    hide Leaders;
    hide KeyElems;
    var out, ls := Groups(env, fs, rs, 0), Leaders(env, fs, rs, 0);
    SurvivorsKeepKeys(env, fs, rs, 0, k);
    SurvivorsKeepKeys(env, fs, rs, 0, m);
    LeadersApart(env, fs, rs, 0, k, m);
    PastRunDiffers(env, fs, rs, ls[k], ls[m]);
    SameKeyCompares(env, fs, rs[ls[k]], out[k], rs[ls[m]], 0);
    SameKeyCompares(env, fs, rs[ls[m]], out[m], out[k], 0);
  }

  /** No key disappears: every record is the one that survives or equal to it in the group-by
      fields. */
  lemma {:induction false} EveryRecordIsGrouped(env: Env, fs: seq<SortField>, rs: seq<Record>, i: nat,
      j: nat) returns (k: nat)
    requires i <= j < |rs|
    ensures k < |Leaders(env, fs, rs, i)|
    ensures var l := Leaders(env, fs, rs, i)[k];
            i <= l <= j && (l == j || Compare(env, fs, rs[l], rs[j]) == 0)
    decreases |rs| - i
  {
    hide CompareFrom;
    var e := RunEnd(env, fs, rs, i, i + 1);
    if j < e {
      k := 0;
    } else {
      var m := EveryRecordIsGrouped(env, fs, rs, e, j);
      k := m + 1;
    }
  }

  // ----- in terms of values and comments

  lemma OneElem(e: Elem, name: string)
    ensures Lookups.Values([e], name) == if Named(e, name) then [e.field.value] else []
    ensures Lookups.Comments([e]) == if e.CommentElem? then [e.text] else []
  {
    assert [e][1..] == [];
  }

  /** What is not a group-by field: the fields of all other names, and all comments. */
  lemma {:induction false} OthersHold(fs: seq<SortField>, es: seq<Elem>, name: string)
    requires forall i :: 0 <= i < |fs| ==> fs[i].name != name
    ensures Lookups.Values(Others(fs, es), name) == Lookups.Values(es, name)
    ensures Lookups.Comments(Others(fs, es)) == Lookups.Comments(es)
    ensures forall i :: 0 <= i < |fs| ==> Lookups.Values(Others(fs, es), fs[i].name) == []
  {
    if es == [] {
    } else {
      OthersHold(fs, es[1..], name);
      var head := if IsKeyElem(fs, es[0]) then [] else [es[0]];
      OneElem(es[0], name);
      Lookups.ValuesConcat(head, Others(fs, es[1..]), name);
      Lookups.CommentsConcat(head, Others(fs, es[1..]));
      forall i | 0 <= i < |fs|
        ensures Lookups.Values(Others(fs, es), fs[i].name) == []
      {
        OneElem(es[0], fs[i].name);
        Lookups.ValuesConcat(head, Others(fs, es[1..]), fs[i].name);
      }
    }
  }

  /** The values of a name in all records from `i` on, and the comments in them. */
  function AllValues(rs: seq<Record>, name: string, i: nat): seq<string>
    requires i <= |rs|
    decreases |rs| - i
  {
    if i == |rs| then [] else Lookups.Values(rs[i].elems, name) + AllValues(rs, name, i + 1)
  }

  function AllComments(rs: seq<Record>, i: nat): seq<string>
    requires i <= |rs|
    decreases |rs| - i
  {
    if i == |rs| then [] else Lookups.Comments(rs[i].elems) + AllComments(rs, i + 1)
  }

  lemma {:induction false} AllOthersHold(fs: seq<SortField>, rs: seq<Record>, name: string, i: nat)
    requires i <= |rs| && forall k :: 0 <= k < |fs| ==> fs[k].name != name
    ensures Lookups.Values(AllOthers(fs, rs, i), name) == AllValues(rs, name, i)
    ensures Lookups.Comments(AllOthers(fs, rs, i)) == AllComments(rs, i)
    decreases |rs| - i
  {
    hide Others;
    hide Lookups.Values;
    hide Lookups.Comments;
    if i == |rs| {
      NothingHeld(name);
    } else {
      AllOthersHold(fs, rs, name, i + 1);
      OthersHold(fs, rs[i].elems, name);
      Lookups.ValuesConcat(Others(fs, rs[i].elems), AllOthers(fs, rs, i + 1), name);
      Lookups.CommentsConcat(Others(fs, rs[i].elems), AllOthers(fs, rs, i + 1));
    }
  }

  lemma NothingHeld(name: string)
    ensures Lookups.Values([], name) == [] && Lookups.Comments([]) == []
  {
  }

  /** Grouping loses no value of any other field and no comment: listed record by record, they are
      the same before and after. */
  lemma GroupsConserveValues(env: Env, fs: seq<SortField>, rs: seq<Record>, name: string)
    requires forall k :: 0 <= k < |fs| ==> fs[k].name != name
    ensures AllValues(Groups(env, fs, rs, 0), name, 0) == AllValues(rs, name, 0)
    ensures AllComments(Groups(env, fs, rs, 0), 0) == AllComments(rs, 0)
  {
    hide Groups;
    hide AllOthers;
    hide AllValues;
    hide AllComments;
    GroupsConserve(env, fs, rs, 0);
    AllOthersHold(fs, rs, name, 0);
    AllOthersHold(fs, Groups(env, fs, rs, 0), name, 0);
  }

  /** And the values of a group-by field in a resulting record are those of the first record of
      its group, not those of the records merged into it. */
  lemma GroupsKeepKeyValues(env: Env, fs: seq<SortField>, rs: seq<Record>, k: nat, i: nat)
    requires k < |Groups(env, fs, rs, 0)| && i < |fs|
    ensures |Leaders(env, fs, rs, 0)| == |Groups(env, fs, rs, 0)| && Leaders(env, fs, rs, 0)[k] < |rs|
    ensures Lookups.Values(Groups(env, fs, rs, 0)[k].elems, fs[i].name) ==
            Lookups.Values(rs[Leaders(env, fs, rs, 0)[k]].elems, fs[i].name)
  {
    hide Groups;
    hide Leaders;
    hide KeyElems;
    hide Lookups.Values;
    SurvivorsKeepKeys(env, fs, rs, 0, k);
    ValuesOfKeys(fs, Groups(env, fs, rs, 0)[k].elems, fs[i].name);
    ValuesOfKeys(fs, rs[Leaders(env, fs, rs, 0)[k]].elems, fs[i].name);
  }
}
