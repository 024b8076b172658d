/** The join of two record sets in src/rec-db.c: TYPE1.Field = TYPE2.Key. A set is given by its
    records in order, as the record iterator visits them. */
module Join {
  import opened Wrappers
  import opened RecData
  import opened Lookups

  /** The fields, without comments, their names prefixed. */
  function Prefixed(es: seq<Elem>, prefix: string): seq<Elem> {
    if es == [] then []
    else
      (if es[0].FieldElem? then [FieldElem(es[0].field.(name := prefix + "_" + es[0].field.name))] else [])
      + Prefixed(es[1..], prefix)
  }

  /** The record joined from a pair: the left elements without the join field, then the right
      fields under their prefixed names. */
  function Joined(r1: Record, r2: Record, field: string): Record {
    Record(Without(r1.elems, field) + Prefixed(r2.elems, field), r1.at)
  }

  /** The first key of `r2` is one of the values of the join field of `r1`. */
  predicate Pairs(r1: Record, r2: Record, field: string, key: string) {
    var keys := Values(r2.elems, key);
    keys != [] && keys[0] in Values(r1.elems, field)
  }

  /** What a join should yield for one left record: its pairs, in the order of the right set. */
  function Matches(r1: Record, right: seq<Record>, field: string, key: string): seq<Record> {
    if right == [] then []
    else
      (if Pairs(r1, right[0], field, key) then [Joined(r1, right[0], field)] else [])
      + Matches(r1, right[1..], field, key)
  }

  /** The join as it should be: one record per pair, in left-major order. */
  function Product(left: seq<Record>, right: seq<Record>, field: string, key: string): seq<Record> {
    if left == [] then []
    else Matches(left[0], right, field, key) + Product(left[1..], right, field, key)
  }

  // ----- what the code does

  /** The inner loop for foreign key number `n`: it looks at key number `n` of each right
      record, and stops at the first record that has none. */
  function Scan(r1: Record, right: seq<Record>, field: string, key: string, n: nat): seq<Record> {
    if right == [] then []
    else
      var keys := Values(right[0].elems, key);
      if n >= |keys| then []
      else
        (if keys[n] in Values(r1.elems, field) then [Joined(r1, right[0], field)] else [])
        + Scan(r1, right[1..], field, key, n)
  }

  function Scans(r1: Record, right: seq<Record>, field: string, key: string, n: nat): seq<Record>
    decreases |Values(r1.elems, field)| - n
  {
    if n >= |Values(r1.elems, field)| then []
    else Scan(r1, right, field, key, n) + Scans(r1, right, field, key, n + 1)
  }

  function JoinResult(left: seq<Record>, right: seq<Record>, field: string, key: string): seq<Record> {
    if left == [] then []
    else Scans(left[0], right, field, key, 0) + JoinResult(left[1..], right, field, key)
  }

  method HasValue(es: seq<Elem>, name: string, value: string) returns (found: bool)
    ensures found <==> value in Values(es, name)
  {
    hide Values;
    var n := NumFieldsByName(es, name);
    var i := 0;
    while i < n
      invariant i <= n && value !in Values(es, name)[..i]
    {
      var v := NthValue(es, name, i);
      if v.value == value {
        return true;
      }
      i := i + 1;
    }
    assert Values(es, name)[..n] == Values(es, name);
    return false;
  }

  /** `rec_db_merge_records` */
  method MergeRecords(r1: Record, r2: Record, prefix: string) returns (elems: seq<Elem>)
    ensures elems == r1.elems + Prefixed(r2.elems, prefix)
  {
    elems := r1.elems;
    var i := 0;
    assert r2.elems[0..] == r2.elems;
    while i < |r2.elems|
      invariant i <= |r2.elems|
      invariant elems + Prefixed(r2.elems[i..], prefix) == r1.elems + Prefixed(r2.elems, prefix)
    {
      assert r2.elems[i..][1..] == r2.elems[i + 1..];
      if r2.elems[i].FieldElem? {
        elems := elems + [FieldElem(r2.elems[i].field.(name := prefix + "_" + r2.elems[i].field.name))];
      }
      i := i + 1;
    }
  }

  lemma {:induction false} NoValuesLeft(es: seq<Elem>, name: string)
    requires Values(es, name) == []
    ensures Without(es, name) == es
  {
    if es == [] {
    } else {
      NoValuesLeft(es[1..], name);
    }
  }

  /** Prefixed names are longer than the prefix, so they survive its removal. */
  lemma {:induction false} PrefixedStay(es: seq<Elem>, prefix: string)
    ensures Without(Prefixed(es, prefix), prefix) == Prefixed(es, prefix)
  {
    if es == [] {
    } else {
      PrefixedStay(es[1..], prefix);
      var head := if es[0].FieldElem? then [FieldElem(es[0].field.(name := prefix + "_" + es[0].field.name))] else [];
      WithoutConcat(head, Prefixed(es[1..], prefix), prefix);
      if es[0].FieldElem? {
        assert |prefix + "_" + es[0].field.name| > |prefix|;
        assert Without(head, prefix) == head;
      }
    }
  }

  /** Merge a pair and remove every occurrence of the join field. */
  method JoinPair(r1: Record, r2: Record, field: string) returns (r: Record)
    ensures r == Joined(r1, r2, field)
  {
    var elems := MergeRecords(r1, r2, field);
    WithoutConcat(r1.elems, Prefixed(r2.elems, field), field);
    PrefixedStay(r2.elems, field);
    ghost var goal := Joined(r1, r2, field).elems;
    var n := NumFieldsByName(elems, field);
    while n > 0
      invariant n == |Values(elems, field)| == CountNamed(elems, field, |elems|) && Without(elems, field) == goal
      decreases |elems|
    {
      assert elems[..|elems|] == elems;
      RemovedOne(elems, field, 0, |elems|);
      elems := RemoveFieldByName(elems, field, 0);
      n := NumFieldsByName(elems, field);
    }
    NoValuesLeft(elems, field);
    r := Record(elems, r1.at);
  }

  method ScanRight(r1: Record, right: seq<Record>, field: string, key: string, n: nat) returns (out: seq<Record>)
    ensures out == Scan(r1, right, field, key, n)
  {
    hide Joined;
    hide Values;
    hide Scan;
    out := [];
    ghost var goal := Scan(r1, right, field, key, n);
    var i := 0;
    assert right[0..] == right && out + goal == goal;
    while i < |right|
      invariant i <= |right|
      invariant out + Scan(r1, right[i..], field, key, n) == goal
    {
      ScanStep(r1, right, field, key, n, i, out);
      var keyField := NthValue(right[i].elems, key, n);
      if keyField == None {
        break;
      }
      var found := HasValue(r1.elems, field, keyField.value);
      if found {
        var record := JoinPair(r1, right[i], field);
        out := out + [record];
      }
      i := i + 1;
    }
    if i == |right| {
      ScanNone(r1, field, key, n);
      assert right[i..] == [] && out + [] == out;
    }
  }

  lemma ScanNone(r1: Record, field: string, key: string, n: nat)
    ensures Scan(r1, [], field, key, n) == []
  {
  }

  lemma ScanStep(r1: Record, right: seq<Record>, field: string, key: string, n: nat, i: nat, out: seq<Record>)
    requires i < |right|
    ensures var keys := Values(right[i].elems, key);
            out + Scan(r1, right[i..], field, key, n) ==
            if n >= |keys| then out
            else if keys[n] in Values(r1.elems, field) then
              out + [Joined(r1, right[i], field)] + Scan(r1, right[i + 1..], field, key, n)
            else out + Scan(r1, right[i + 1..], field, key, n)
  {
    hide Joined;
    hide Values;
    assert right[i..][1..] == right[i + 1..];
  }

  /** The loop over the foreign keys of one left record. */
  method JoinLeft(r1: Record, right: seq<Record>, field: string, key: string) returns (out: seq<Record>)
    ensures out == Scans(r1, right, field, key, 0)
  {
    hide Scan;
    hide Values;
    out := [];
    var num := NumFieldsByName(r1.elems, field);
    var n := 0;
    while n < num
      invariant n <= num
      invariant out + Scans(r1, right, field, key, n) == Scans(r1, right, field, key, 0)
    {
      var more := ScanRight(r1, right, field, key, n);
      out := out + more;
      n := n + 1;
    }
  }

  /** `rec_db_join`, the record loops. */
  method JoinSets(left: seq<Record>, right: seq<Record>, field: string, key: string) returns (join: seq<Record>)
    ensures join == JoinResult(left, right, field, key)
  {
    hide Scans;
    join := [];
    var i := 0;
    assert left[0..] == left;
    while i < |left|
      invariant i <= |left|
      invariant join + JoinResult(left[i..], right, field, key) == JoinResult(left, right, field, key)
    {
      assert left[i..][1..] == left[i + 1..];
      var more := JoinLeft(left[i], right, field, key);
      join := join + more;
      i := i + 1;
    }
  }

  // ----- when the code does what it should

  function Keys(r: Record, key: string): nat { |Values(r.elems, key)| }

  /** No record after one without a key has a key. */
  predicate KeyedFirst(right: seq<Record>, key: string) {
    forall i, j :: 0 <= i < j < |right| && Keys(right[i], key) == 0 ==> Keys(right[j], key) == 0
  }

  /** What a join relies on: keyless records, an integrity error, come last, and the first
      record does not have two keys. Exactly one key in every record is enough. */
  predicate Joinable(right: seq<Record>, key: string) {
    KeyedFirst(right, key) && (right != [] ==> Keys(right[0], key) <= 1)
  }

  lemma OneKeyEachIsJoinable(right: seq<Record>, key: string)
    requires forall i :: 0 <= i < |right| ==> Keys(right[i], key) == 1
    ensures Joinable(right, key)
  {
  }

  lemma KeyedFirstTail(right: seq<Record>, key: string)
    requires right != [] && KeyedFirst(right, key)
    ensures KeyedFirst(right[1..], key)
  {
    assert forall i :: 0 <= i < |right[1..]| ==> right[1..][i] == right[i + 1];
  }

  lemma {:induction false} NoneKeyed(r1: Record, right: seq<Record>, field: string, key: string)
    requires forall j :: 0 <= j < |right| ==> Keys(right[j], key) == 0
    ensures Matches(r1, right, field, key) == []
  {
    if right == [] {
    } else {
      NoneKeyed(r1, right[1..], field, key);
    }
  }

  lemma {:induction false} FirstScanMatches(r1: Record, right: seq<Record>, field: string, key: string)
    requires KeyedFirst(right, key)
    ensures Scan(r1, right, field, key, 0) == Matches(r1, right, field, key)
  {
    hide Joined;
    if right == [] {
    } else {
      KeyedFirstTail(right, key);
      FirstScanMatches(r1, right[1..], field, key);
      if Keys(right[0], key) == 0 {
        NoneKeyed(r1, right, field, key);
      }
    }
  }

  lemma {:induction false} LaterScansEmpty(r1: Record, right: seq<Record>, field: string, key: string, n: nat)
    requires Joinable(right, key) && n >= 1
    ensures Scans(r1, right, field, key, n) == []
    decreases |Values(r1.elems, field)| - n
  {
    if n >= |Values(r1.elems, field)| {
    } else {
      LaterScansEmpty(r1, right, field, key, n + 1);
    }
  }

  lemma {:induction false} NoForeignKeys(r1: Record, right: seq<Record>, field: string, key: string)
    requires Values(r1.elems, field) == []
    ensures Matches(r1, right, field, key) == []
  {
    if right == [] {
    } else {
      NoForeignKeys(r1, right[1..], field, key);
    }
  }

  /** No pair is missed or repeated, however many foreign keys a left record has. */
  lemma {:induction false} JoinIsProduct(left: seq<Record>, right: seq<Record>, field: string, key: string)
    requires Joinable(right, key)
    ensures JoinResult(left, right, field, key) == Product(left, right, field, key)
  {
    hide Scan;
    hide Matches;
    if left == [] {
    } else {
      JoinIsProduct(left[1..], right, field, key);
      FirstScanMatches(left[0], right, field, key);
      LaterScansEmpty(left[0], right, field, key, 1);
      if Values(left[0].elems, field) == [] {
        NoForeignKeys(left[0], right, field, key);
      }
    }
  }

  function Probe(field: string, values: seq<string>): Record {
    Record(seq(|values|, i requires 0 <= i < |values| => FieldElem(Field(field, values[i], NOWHERE))), NOWHERE)
  }

  lemma {:induction false} ProbeValues(field: string, values: seq<string>)
    ensures Values(Probe(field, values).elems, field) == values
  {
    if values == [] {
    } else {
      ProbeValues(field, values[1..]);
      assert Probe(field, values).elems[1..] == Probe(field, values[1..]).elems;
    }
  }

  lemma {:induction false} ScanShorter(r1: Record, right: seq<Record>, field: string, key: string)
    ensures |Scan(r1, right, field, key, 0)| <= |Matches(r1, right, field, key)|
  {
    if right == [] {
    } else {
      ScanShorter(r1, right[1..], field, key);
    }
  }

  lemma {:induction false} MatchCounted(r1: Record, right: seq<Record>, field: string, key: string, j: nat)
    requires j < |right| && Pairs(r1, right[j], field, key)
    ensures Matches(r1, right, field, key) != []
  {
    if j == 0 {
    } else {
      MatchCounted(r1, right[1..], field, key, j - 1);
    }
  }

  /** A pair behind a keyless record is missed. */
  lemma {:induction false} ScanMisses(r1: Record, right: seq<Record>, field: string, key: string, i: nat, j: nat)
    requires i < j < |right| && Keys(right[i], key) == 0 && Pairs(r1, right[j], field, key)
    ensures |Scan(r1, right, field, key, 0)| < |Matches(r1, right, field, key)|
    decreases i
  {
    if i == 0 {
      MatchCounted(r1, right, field, key, j);
    } else if Keys(right[0], key) == 0 {
      MatchCounted(r1, right, field, key, j);
    } else {
      ScanMisses(r1, right[1..], field, key, i - 1, j - 1);
    }
  }

  /** If a keyed record follows a keyless one, some left set loses a pair. */
  lemma MissingPair(right: seq<Record>, field: string, key: string)
    requires !KeyedFirst(right, key)
    ensures exists left :: JoinResult(left, right, field, key) != Product(left, right, field, key)
  {
    hide Scan;
    hide Matches;
    var i, j :| 0 <= i < j < |right| && Keys(right[i], key) == 0 && Keys(right[j], key) != 0;
    var r1 := Probe(field, [Values(right[j].elems, key)[0]]);
    ProbeValues(field, [Values(right[j].elems, key)[0]]);
    ScanMisses(r1, right, field, key, i, j);
    assert Scans(r1, right, field, key, 1) == [];
    assert |JoinResult([r1], right, field, key)| == |Scan(r1, right, field, key, 0)|;
    assert |Product([r1], right, field, key)| == |Matches(r1, right, field, key)|;
  }

  /** If the first right record has two keys, some left set gets a pair twice. */
  lemma RepeatedPair(right: seq<Record>, field: string, key: string)
    requires KeyedFirst(right, key) && right != [] && Keys(right[0], key) >= 2
    ensures exists left :: JoinResult(left, right, field, key) != Product(left, right, field, key)
  {
    hide Matches;
    var keys := Values(right[0].elems, key);
    var r1 := Probe(field, keys[..2]);
    ProbeValues(field, keys[..2]);
    FirstScanMatches(r1, right, field, key);
    assert keys[..2][1] == keys[1];
    assert Scan(r1, right, field, key, 1) != [];
    assert |Scans(r1, right, field, key, 1)| >= 1;
    assert |JoinResult([r1], right, field, key)| > |Matches(r1, right, field, key)|;
    assert |Product([r1], right, field, key)| == |Matches(r1, right, field, key)|;
  }

  /** The join yields exactly the product, for every left set, if and only if the right set
      has its keyless records last and its first record does not have two keys. */
  lemma JoinCorrectIff(right: seq<Record>, field: string, key: string)
    ensures (forall left :: JoinResult(left, right, field, key) == Product(left, right, field, key))
            <==> Joinable(right, key)
  {
    if Joinable(right, key) {
      forall left
        ensures JoinResult(left, right, field, key) == Product(left, right, field, key)
      {
        JoinIsProduct(left, right, field, key);
      }
    } else if !KeyedFirst(right, key) {
      MissingPair(right, field, key);
    } else {
      RepeatedPair(right, field, key);
    }
  }

  // ----- what a joined record holds

  lemma PrefixInjective(prefix: string, a: string, b: string)
    ensures prefix + "_" + a == prefix + "_" + b <==> a == b
  {
    assert (prefix + "_" + a)[|prefix| + 1..] == a && (prefix + "_" + b)[|prefix| + 1..] == b;
  }

  lemma {:induction false} PrefixedValues(es: seq<Elem>, prefix: string, n: string)
    ensures Values(Prefixed(es, prefix), prefix + "_" + n) == Values(es, n)
  {
    if es == [] {
    } else {
      PrefixedValues(es[1..], prefix, n);
      PrefixedHead(es, prefix, prefix + "_" + n);
      if es[0].FieldElem? {
        PrefixInjective(prefix, es[0].field.name, n);
      }
    }
  }

  lemma PrefixedHead(es: seq<Elem>, prefix: string, name: string)
    requires es != []
    ensures Values(Prefixed(es, prefix), name) ==
            (if es[0].FieldElem? && prefix + "_" + es[0].field.name == name then [es[0].field.value] else [])
            + Values(Prefixed(es[1..], prefix), name)
  {
    var head := if es[0].FieldElem? then [FieldElem(es[0].field.(name := prefix + "_" + es[0].field.name))] else [];
    ValuesConcat(head, Prefixed(es[1..], prefix), name);
    assert head != [] ==> head[1..] == [];
  }

  lemma {:induction false} PrefixedOthers(es: seq<Elem>, prefix: string, name: string)
    requires !(prefix + "_" <= name)
    ensures Values(Prefixed(es, prefix), name) == []
  {
    if es == [] {
    } else {
      PrefixedOthers(es[1..], prefix, name);
      PrefixedHead(es, prefix, name);
    }
  }

  /** Beside the values of its own prefixed names, a joined record has those of the right record
      under the name of the join field, an underscore and their own name. */
  lemma JoinedRight(r1: Record, r2: Record, field: string, n: string)
    ensures var name := field + "_" + n;
            Values(Joined(r1, r2, field).elems, name) == Values(r1.elems, name) + Values(r2.elems, n)
  {
    var name := field + "_" + n;
    ValuesConcat(Without(r1.elems, field), Prefixed(r2.elems, field), name);
    ValuesWithout(r1.elems, field, name);
    PrefixedValues(r2.elems, field, n);
    assert |name| > |field|;
  }

  /** The join field itself is gone, and every other name keeps the values of the left record. */
  lemma JoinedLeft(r1: Record, r2: Record, field: string, name: string)
    requires !(field + "_" <= name)
    ensures Values(Joined(r1, r2, field).elems, name) == if name == field then [] else Values(r1.elems, name)
  {
    ValuesConcat(Without(r1.elems, field), Prefixed(r2.elems, field), name);
    ValuesWithout(r1.elems, field, name);
    PrefixedOthers(r2.elems, field, name);
  }

  lemma {:induction false} PrefixedComments(es: seq<Elem>, prefix: string)
    ensures Comments(Prefixed(es, prefix)) == []
  {
    if es == [] {
    } else {
      PrefixedComments(es[1..], prefix);
      var head := if es[0].FieldElem? then [FieldElem(es[0].field.(name := prefix + "_" + es[0].field.name))] else [];
      CommentsConcat(head, Prefixed(es[1..], prefix));
      assert head != [] ==> head[1..] == [];
    }
  }

  /** The comments are those of the left record. */
  lemma JoinedComments(r1: Record, r2: Record, field: string)
    ensures Comments(Joined(r1, r2, field).elems) == Comments(r1.elems)
  {
    CommentsConcat(Without(r1.elems, field), Prefixed(r2.elems, field));
    CommentsWithout(r1.elems, field);
    PrefixedComments(r2.elems, field);
  }
}
