/** Random selection of records in src/rec-db.c: an index list is a sequence of (min, max)
    pairs ended by a pair of REC_Q_NOINDEX. */
module RandomIndexes {
  const REC_Q_NOINDEX: nat := 0xFFFF_FFFF_FFFF_FFFF

  predicate IsEnd(min: nat, max: nat) { min == REC_Q_NOINDEX && max == REC_Q_NOINDEX }

  predicate InPair(min: nat, max: nat, num: nat) {
    if max == REC_Q_NOINDEX then num == min else min <= num <= max
  }

  /** The list has its ending pair. */
  predicate Terminated(s: seq<nat>) { |s| >= 2 && (IsEnd(s[0], s[1]) || Terminated(s[2..])) }

  /** Some pair before the ending one contains the number. */
  predicate Covers(s: seq<nat>, num: nat) {
    |s| >= 2 && !IsEnd(s[0], s[1]) && (InPair(s[0], s[1], num) || Covers(s[2..], num))
  }

  /** `rec_db_index_p`: reading never goes past the ending pair. */
  method IndexP(index: array<nat>, num: nat) returns (found: bool)
    requires Terminated(index[..])
    ensures found <==> Covers(index[..], num)
  {
    var k := 0;
    assert index[0..] == index[..];
    while index[k] != REC_Q_NOINDEX || index[k + 1] != REC_Q_NOINDEX
      invariant k + 2 <= index.Length
      invariant Terminated(index[k..])
      invariant Covers(index[..], num) <==> Covers(index[k..], num)
      decreases index.Length - k
    {
      var min, max := index[k], index[k + 1];
      assert index[k..][2..] == index[k + 2..];
      if max == REC_Q_NOINDEX {
        found := num == min;
      } else {
        found := num >= min && num <= max;
      }
      if found {
        return true;
      }
      k := k + 2;
    }
    return false;
  }

  /** A list that selects exactly the given numbers, one pair each. */
  function Pairs(vs: seq<nat>): seq<nat> {
    if vs == [] then [REC_Q_NOINDEX, REC_Q_NOINDEX] else [vs[0], REC_Q_NOINDEX] + Pairs(vs[1..])
  }

  lemma {:induction false} PairsCover(vs: seq<nat>, num: nat)
    requires forall i :: 0 <= i < |vs| ==> vs[i] < REC_Q_NOINDEX
    ensures Terminated(Pairs(vs)) && (Covers(Pairs(vs), num) <==> num in vs)
  {
    if vs == [] {
    } else {
      PairsCover(vs[1..], num);
      assert Pairs(vs)[2..] == Pairs(vs[1..]);
    }
  }

  /** Pairs after the ending one are never looked at. */
  lemma {:induction false} PaddingIgnored(vs: seq<nat>, pad: seq<nat>, num: nat)
    requires forall i :: 0 <= i < |vs| ==> vs[i] < REC_Q_NOINDEX
    ensures Terminated(Pairs(vs) + pad) && (Covers(Pairs(vs) + pad, num) <==> num in vs)
  {
    if vs == [] {
    } else {
      PaddingIgnored(vs[1..], pad, num);
      assert (Pairs(vs) + pad)[2..] == Pairs(vs[1..]) + pad;
    }
  }

  ghost predicate NoDuplicates(vs: seq<nat>) { forall i, j :: 0 <= i < j < |vs| ==> vs[i] != vs[j] }

  ghost function Elements(vs: seq<nat>): (e: set<nat>)
    ensures forall v :: v in e <==> v in vs
    ensures |e| <= |vs|
    ensures NoDuplicates(vs) ==> |e| == |vs|
  {
    if vs == [] then {} else {vs[0]} + Elements(vs[1..])
  }

  ghost function Below(limit: nat): (b: set<nat>)
    ensures forall v: nat :: v in b <==> v < limit
    ensures |b| == limit
  {
    if limit == 0 then {} else Below(limit - 1) + {limit - 1}
  }

  lemma SubsetCount(a: set<nat>, b: set<nat>)
    requires a <= b
    ensures |a| <= |b|
  {
    assert b == a + (b - a);
  }

  /** With fewer numbers chosen than there are, some number is free. */
  lemma SomeFree(vs: seq<nat>, limit: nat)
    requires |vs| < limit
    ensures exists i: nat :: i < limit && i !in vs
  {
    if forall i: nat :: i < limit ==> i in vs {
      SubsetCount(Below(limit), Elements(vs));
      assert false;
    }
  }

  /** No more distinct numbers can be chosen than there are. */
  lemma Pigeonhole(vs: seq<nat>, limit: nat)
    requires NoDuplicates(vs) && forall i :: 0 <= i < |vs| ==> vs[i] < limit
    ensures |vs| <= limit
  {
    SubsetCount(Elements(vs), Below(limit));
  }

  /** The numbers below the limit that a list selects. */
  ghost function Covered(s: seq<nat>, limit: nat): set<nat> { set n: nat | n < limit && Covers(s, n) }

  lemma CoveredCount(vs: seq<nat>, limit: nat)
    requires limit <= REC_Q_NOINDEX && forall i :: 0 <= i < |vs| ==> vs[i] < limit
    ensures Terminated(Pairs(vs)) && forall n: nat :: Covers(Pairs(vs), n) ==> n < limit
    ensures |Covered(Pairs(vs), limit)| <= limit
    ensures NoDuplicates(vs) ==> |Covered(Pairs(vs), limit)| == |vs|
  {
    ChosenExactly(vs, limit, 0);
    forall n: nat
      ensures Covers(Pairs(vs), n) <==> n in vs
    {
      ChosenExactly(vs, limit, n);
    }
    assert Covered(Pairs(vs), limit) == Elements(vs);
    SubsetCount(Elements(vs), Below(limit));
  }

  /** The random source: any number at all. */
  method Random() returns (r: nat)
  {
    r := *;
  }

  function Fill(n: nat): seq<nat> { seq(n, _ => REC_Q_NOINDEX) }

  lemma {:induction false} FilledPairs(vs: seq<nat>, v: nat, rest: nat)
    ensures var s := Pairs(vs) + Fill(2 * rest + 2);
            && |s| == 2 * |vs| + 2 * rest + 4
            && s[2 * |vs| := v][2 * |vs| + 1 := REC_Q_NOINDEX] == Pairs(vs + [v]) + Fill(2 * rest)
    decreases |vs|
  {
    var s := Pairs(vs) + Fill(2 * rest + 2);
    if vs == [] {
      assert Pairs([v]) == [v, REC_Q_NOINDEX] + Pairs([]);
      assert [] + [v] == [v];
    } else {
      FilledPairs(vs[1..], v, rest);
      var t := Pairs(vs[1..]) + Fill(2 * rest + 2);
      var n := 2 * |vs[1..]|;
      assert s == [vs[0], REC_Q_NOINDEX] + t;
      assert (vs + [v])[1..] == vs[1..] + [v];
      assert Pairs(vs + [v]) + Fill(2 * rest) == [vs[0], REC_Q_NOINDEX] + (Pairs(vs[1..] + [v]) + Fill(2 * rest));
      assert s[n + 2 := v][n + 3 := REC_Q_NOINDEX] == [vs[0], REC_Q_NOINDEX] + t[n := v][n + 1 := REC_Q_NOINDEX];
    }
  }

  /** `rec_db_add_random_indexes`: whatever the random source yields, the list is properly
      ended and selects `num` numbers below `limit`. They are pairwise different if and only
      if that many different numbers exist. */
  method AddRandomIndexes(num: nat, limit: nat) returns (index: array<nat>, ghost vs: seq<nat>)
    requires 0 < limit <= REC_Q_NOINDEX
    ensures |vs| == num && (forall i :: 0 <= i < |vs| ==> vs[i] < limit)
    ensures index[..] == Pairs(vs)
    ensures NoDuplicates(vs) <==> num <= limit
    ensures Terminated(index[..]) && (|Covered(index[..], limit)| == num <==> num <= limit)
    ensures forall n: nat :: Covers(index[..], n) ==> n < limit
  {
    hide Covers;
    hide Covered;
    hide Terminated;
    index := new nat[(num + 1) * 2](_ => REC_Q_NOINDEX);
    vs := [];
    assert index[..] == Pairs(vs) + Fill(2 * num);
    var i := 0;
    while i < num * 2
      invariant i <= num * 2 && i == 2 * |vs| && index.Length == (num + 1) * 2
      invariant forall k :: 0 <= k < |vs| ==> vs[k] < limit
      invariant index[..] == Pairs(vs) + Fill(2 * (num - |vs|))
      invariant |vs| <= limit ==> NoDuplicates(vs)
    {
      var value := Random();
      value := value % limit;
      value := Fresh(index, value, limit, vs, 2 * (num - |vs|));
      FilledPairs(vs, value, num - |vs| - 1);
      index[i] := value;
      index[i + 1] := REC_Q_NOINDEX;
      vs := vs + [value];
      i := i + 2;
    }
    assert index[..] == Pairs(vs);
    if NoDuplicates(vs) {
      Pigeonhole(vs, limit);
    }
    CoveredCount(vs, limit);
  }

  /** Replace a value already chosen by the first one that is free, if there is one. */
  method Fresh(index: array<nat>, random: nat, limit: nat, ghost vs: seq<nat>, ghost pad: nat) returns (value: nat)
    requires random < limit <= REC_Q_NOINDEX
    requires forall k :: 0 <= k < |vs| ==> vs[k] < limit
    requires index[..] == Pairs(vs) + Fill(pad)
    ensures value < limit
    ensures |vs| < limit ==> value !in vs
    ensures random !in vs ==> value == random
    ensures random in vs && |vs| < limit ==> forall k: nat :: k < value ==> k in vs
  {
    value := random;
    PaddingIgnored(vs, Fill(pad), random);
    var taken := IndexP(index, random);
    if taken {
      var i := 0;
      while i < limit
        invariant i <= limit && value == random
        invariant forall k: nat :: k < i ==> k in vs
      {
        PaddingIgnored(vs, Fill(pad), i);
        var used := IndexP(index, i);
        if !used {
          return i;
        }
        i := i + 1;
      }
      if |vs| < limit {
        SomeFree(vs, limit);
        assert false;
      }
    }
  }

  /** The finished list selects a record number exactly when it was chosen. */
  lemma ChosenExactly(vs: seq<nat>, limit: nat, num: nat)
    requires limit <= REC_Q_NOINDEX && forall i :: 0 <= i < |vs| ==> vs[i] < limit
    ensures Terminated(Pairs(vs)) && (Covers(Pairs(vs), num) <==> num in vs)
  {
    PairsCover(vs, num);
  }

  /** A pair of numbers covers the range from the first to the second, a pair with an open end
      just the first. */
  lemma PairCovers(min: nat, max: nat, rest: seq<nat>, num: nat)
    requires min < REC_Q_NOINDEX
    ensures Covers([min, max] + rest, num) <==>
            (num == min && max == REC_Q_NOINDEX) || (max != REC_Q_NOINDEX && min <= num <= max) || Covers(rest, num)
    ensures !Covers([REC_Q_NOINDEX, REC_Q_NOINDEX] + rest, num)
  {
    assert ([min, max] + rest)[2..] == rest;
  }
}
