/** Comparing typed values (src/rec-types.c) and records by a list of fields (src/rec-rset.c). */
module Ordering {
  import opened Wrappers
  import opened RecData
  import Lookups
  import Numbers
  import opened Foreign

  /** The kinds of type that have an order of their own; all others compare as strings. */
  datatype Kind = IntKind | RealKind | BoolKind | DateKind | TextKind

  /** The sign of `strcmp`. */
  function StrCmp(a: string, b: string): (c: int)
    ensures -1 <= c <= 1
  {
    if a == "" && b == "" then 0
    else if a == "" then -1
    else if b == "" then 1
    else if a[0] < b[0] then -1
    else if a[0] > b[0] then 1
    else StrCmp(a[1..], b[1..])
  }

  function IntCmp(a: int, b: int): int { if a < b then -1 else if a > b then 1 else 0 }

  function RealCmp(a: real, b: real): int { if a < b then -1 else if a > b then 1 else 0 }

  function BoolCmp(a: bool, b: bool): int { if !a && b then -1 else if a == b then 0 else 1 }

  function TimeCmp(a: Time, b: Time): int { if a == b then 0 else if Subtract(a, b).1 then -1 else 1 }

  lemma TimeCmpIsOrder(a: Time, b: Time)
    ensures TimeCmp(a, b) == IntCmp(Total(a), Total(b))
  {
    SubtractIsDifference(a, b);
  }

  /** `rec_type_values_cmp`: values that do not both convert compare as strings. */
  function ValuesCmp(env: Env, kind: Kind, a: string, b: string): (c: int)
    ensures -1 <= c <= 1
  {
    match kind
    case IntKind =>
      var x, y := Numbers.Atoi(a), Numbers.Atoi(b);
      if x.Some? && y.Some? then IntCmp(x.value, y.value) else StrCmp(a, b)
    case RealKind =>
      var x, y := Atod(env, a), Atod(env, b);
      if x.Some? && y.Some? then RealCmp(x.value, y.value) else StrCmp(a, b)
    case BoolKind => BoolCmp(env.isTrue(a), env.isTrue(b))
    case DateKind =>
      var x, y := env.date(a), env.date(b);
      if x.Some? && y.Some? then TimeCmp(x.value, y.value) else StrCmp(a, b)
    case TextKind => StrCmp(a, b)
  }

  /** The value converts to its declared type. */
  predicate Converts(env: Env, kind: Kind, v: string) {
    match kind
    case IntKind => Numbers.Atoi(v).Some?
    case RealKind => Atod(env, v).Some?
    case DateKind => env.date(v).Some?
    case _ => true
  }

  lemma {:induction false} StrCmpFlip(a: string, b: string)
    ensures StrCmp(b, a) == -StrCmp(a, b)
  {
    if a == "" || b == "" {
    } else {
      StrCmpFlip(a[1..], b[1..]);
    }
  }

  lemma {:induction false} StrCmpTransitive(a: string, b: string, c: string)
    requires StrCmp(a, b) <= 0 && StrCmp(b, c) <= 0
    ensures StrCmp(a, c) <= 0
    ensures StrCmp(a, c) == 0 ==> StrCmp(a, b) == 0 && StrCmp(b, c) == 0
  {
    if a != "" && b != "" && c != "" && a[0] == b[0] == c[0] {
      StrCmpTransitive(a[1..], b[1..], c[1..]);
    }
  }

  /** Swapping the operands flips the result, whatever the values. */
  lemma ValuesCmpFlip(env: Env, kind: Kind, a: string, b: string)
    ensures ValuesCmp(env, kind, b, a) == -ValuesCmp(env, kind, a, b)
  {
    hide Numbers.Atoi;
    StrCmpFlip(a, b);
  }

  /** On values that convert, the order is transitive and its ties are ties. */
  lemma ValuesCmpTransitive(env: Env, kind: Kind, a: string, b: string, c: string)
    requires Converts(env, kind, a) && Converts(env, kind, b) && Converts(env, kind, c)
    requires ValuesCmp(env, kind, a, b) <= 0 && ValuesCmp(env, kind, b, c) <= 0
    ensures ValuesCmp(env, kind, a, c) <= 0
    ensures ValuesCmp(env, kind, a, c) == 0 <==> ValuesCmp(env, kind, a, b) == 0 && ValuesCmp(env, kind, b, c) == 0
  {
    hide Numbers.Atoi;
    hide StrCmp;
    if kind == TextKind {
      StrCmpTransitive(a, b, c);
      StrCmpZero(a, b);
      StrCmpZero(b, c);
      StrCmpZero(a, c);
    }
  }

  lemma {:induction false} StrCmpZero(a: string, b: string)
    ensures StrCmp(a, b) == 0 <==> a == b
  {
    if a == "" || b == "" {
    } else {
      StrCmpZero(a[1..], b[1..]);
      assert a == [a[0]] + a[1..] && b == [b[0]] + b[1..];
    }
  }

  /** As strings, a value that does not convert stands after `hi` and before `lo`, which both
      convert. */
  predicate Straddled(env: Env, kind: Kind, lo: string, hi: string, v: string) {
    && Converts(env, kind, lo) && Converts(env, kind, hi) && !Converts(env, kind, v)
    && StrCmp(hi, v) < 0 && StrCmp(v, lo) < 0
  }

  /** Such values spoil the order if `lo` does not come after `hi`. */
  predicate Clashes(env: Env, kind: Kind, lo: string, hi: string, v: string) {
    Straddled(env, kind, lo, hi, v) && ValuesCmp(env, kind, lo, hi) <= 0
  }

  lemma MixedTransitive(env: Env, kind: Kind, a: string, b: string, c: string)
    requires ValuesCmp(env, kind, a, b) <= 0 && ValuesCmp(env, kind, b, c) <= 0
    requires !Clashes(env, kind, a, b, c) && !Clashes(env, kind, b, c, a) && !Clashes(env, kind, c, a, b)
    ensures ValuesCmp(env, kind, a, c) <= 0
  {
    hide Numbers.Atoi;
    hide StrCmp;
    ValuesCmpFlip(env, kind, a, c);
    StrCmpFlip(a, c);
    StrCmpFlip(a, b);
    StrCmpFlip(b, c);
    StrCmpZero(a, c);
    StrCmpZero(a, b);
    StrCmpZero(b, c);
    if Converts(env, kind, a) && Converts(env, kind, b) && Converts(env, kind, c) {
      ValuesCmpTransitive(env, kind, a, b, c);
    } else if StrCmp(a, b) <= 0 && StrCmp(b, c) <= 0 {
      StrCmpTransitive(a, b, c);
    }
  }

  ghost predicate TransitiveOnValues(env: Env, kind: Kind, vs: set<string>) {
    forall a, b, c ::
      a in vs && b in vs && c in vs && ValuesCmp(env, kind, a, b) <= 0 && ValuesCmp(env, kind, b, c) <= 0 ==>
      ValuesCmp(env, kind, a, c) <= 0
  }

  /** The typed order is transitive on a set of values if and only if no value that does not
      convert stands, as a string, between two that do and are the other way round as typed
      values. */
  lemma ValuesTransitiveIff(env: Env, kind: Kind, vs: set<string>)
    ensures TransitiveOnValues(env, kind, vs) <==>
            forall lo, hi, v :: lo in vs && hi in vs && v in vs ==> !Clashes(env, kind, lo, hi, v)
  {
    hide ValuesCmp;
    hide Clashes;
    if TransitiveOnValues(env, kind, vs) {
      forall lo, hi, v | lo in vs && hi in vs && v in vs
        ensures !Clashes(env, kind, lo, hi, v)
      {
        ClashIsCircular(env, kind, lo, hi, v);
      }
    }
    if forall lo, hi, v :: lo in vs && hi in vs && v in vs ==> !Clashes(env, kind, lo, hi, v) {
      forall a, b, c | a in vs && b in vs && c in vs && ValuesCmp(env, kind, a, b) <= 0 &&
          ValuesCmp(env, kind, b, c) <= 0
        ensures ValuesCmp(env, kind, a, c) <= 0
      {
        MixedTransitive(env, kind, a, b, c);
      }
    }
  }

  lemma ClashIsCircular(env: Env, kind: Kind, lo: string, hi: string, v: string)
    ensures Clashes(env, kind, lo, hi, v) ==>
              ValuesCmp(env, kind, lo, hi) <= 0 && ValuesCmp(env, kind, hi, v) < 0 && ValuesCmp(env, kind, lo, v) > 0
  {
    hide Numbers.Atoi;
    StrCmpFlip(v, lo);
  }

  /** Without conversion the order can go round in a circle: as integers 9 is before 10, but as
      strings "10" is before "1a" and "1a" before "9". */
  lemma MixedOrderIsCircular(env: Env)
    ensures ValuesCmp(env, IntKind, "9", "10") < 0
    ensures ValuesCmp(env, IntKind, "10", "1a") < 0
    ensures ValuesCmp(env, IntKind, "1a", "9") < 0
    ensures Clashes(env, IntKind, "9", "10", "1a")
  {
    assert Numbers.Dec(9) == "9" && Numbers.Dec(10) == "10";
    Numbers.AtoiDec(9);
    Numbers.AtoiDec(10);
    assert Numbers.SkipSpace("1a", 0) == 0;
    assert Numbers.DigitsEnd("1a", 0, 10) == 1;
    assert Numbers.Atoi("1a").None?;
    assert "10"[1..] == "0" && "1a"[1..] == "a";
  }

  // ----- records

  datatype SortField = SortField(name: string, kind: Kind)

  function FirstValue(r: Record, name: string): Option<string> {
    var values := Lookups.Values(r.elems, name);
    if values == [] then None else Some(values[0])
  }

  /** `rec_rset_compare_typed_records` from field `i` on: a missing field comes first and ends
      the comparison, also when it is missing in both. */
  function CompareFrom(env: Env, fs: seq<SortField>, r1: Record, r2: Record, i: nat): (c: int)
    requires i <= |fs|
    ensures -1 <= c <= 1
    decreases |fs| - i
  {
    if i == |fs| then 0
    else
      var v1, v2 := FirstValue(r1, fs[i].name), FirstValue(r2, fs[i].name);
      if v1.Some? && v2.None? then 1
      else if v1.None? then -1
      else
        var c := ValuesCmp(env, fs[i].kind, v1.value, v2.value);
        if c != 0 then c else CompareFrom(env, fs, r1, r2, i + 1)
  }

  function Compare(env: Env, fs: seq<SortField>, r1: Record, r2: Record): int {
    CompareFrom(env, fs, r1, r2, 0)
  }

  method CompareRecords(env: Env, fs: seq<SortField>, r1: Record, r2: Record) returns (result: int)
    ensures result == Compare(env, fs, r1, r2)
  {
    hide FirstValue;
    hide ValuesCmp;
    result := 0;
    var i := 0;
    while i < |fs|
      invariant i <= |fs| && result == 0
      invariant Compare(env, fs, r1, r2) == CompareFrom(env, fs, r1, r2, i)
    {
      var v1 := GetFirst(r1, fs[i].name);
      var v2 := GetFirst(r2, fs[i].name);
      if v1.Some? && v2.None? {
        return 1;
      } else if v1.None? && v2.Some? {
        return -1;
      } else if v1.None? && v2.None? {
        return -1;
      }
      result := ValuesCmp(env, fs[i].kind, v1.value, v2.value);
      if result != 0 {
        return;
      }
      i := i + 1;
    }
  }

  method GetFirst(r: Record, name: string) returns (v: Option<string>)
    ensures v == FirstValue(r, name)
  {
    v := Lookups.NthValue(r.elems, name, 0);
  }

  /** The sort fields that a record has convert to their declared types. */
  predicate RecordConverts(env: Env, fs: seq<SortField>, r: Record) {
    forall i :: 0 <= i < |fs| ==>
      var v := FirstValue(r, fs[i].name);
      v.Some? ==> Converts(env, fs[i].kind, v.value)
  }

  /** Any two records are comparable. */
  lemma {:induction false} CompareTotal(env: Env, fs: seq<SortField>, a: Record, b: Record, i: nat)
    requires i <= |fs|
    ensures CompareFrom(env, fs, a, b, i) <= 0 || CompareFrom(env, fs, b, a, i) <= 0
    decreases |fs| - i
  {
    hide ValuesCmp;
    hide FirstValue;
    if i == |fs| {
    } else {
      CompareTotal(env, fs, a, b, i + 1);
      var va, vb := FirstValue(a, fs[i].name), FirstValue(b, fs[i].name);
      if va.Some? && vb.Some? {
        ValuesCmpFlip(env, fs[i].kind, va.value, vb.value);
      }
    }
  }

  /** The record has all the fields. */
  predicate FullKey(fs: seq<SortField>, r: Record) {
    forall i :: 0 <= i < |fs| ==> FirstValue(r, fs[i].name).Some?
  }

  /** Equality needs all the fields on both sides, and is symmetric. */
  lemma {:induction false} EqualNeedsFullKey(env: Env, fs: seq<SortField>, a: Record, b: Record, i: nat)
    requires i <= |fs| && CompareFrom(env, fs, a, b, i) == 0
    ensures CompareFrom(env, fs, b, a, i) == 0
    ensures forall j :: i <= j < |fs| ==> FirstValue(a, fs[j].name).Some? && FirstValue(b, fs[j].name).Some?
    decreases |fs| - i
  {
    hide ValuesCmp;
    hide FirstValue;
    if i == |fs| {
    } else {
      var va, vb := FirstValue(a, fs[i].name), FirstValue(b, fs[i].name);
      ValuesCmpFlip(env, fs[i].kind, va.value, vb.value);
      EqualNeedsFullKey(env, fs, a, b, i + 1);
    }
  }

  /** For a record with a full key, not being before and not being after is being equal. */
  lemma {:induction false} BetweenIsEqual(env: Env, fs: seq<SortField>, a: Record, b: Record, i: nat)
    requires i <= |fs| && FullKey(fs, a)
    requires CompareFrom(env, fs, a, b, i) <= 0 && CompareFrom(env, fs, b, a, i) <= 0
    ensures CompareFrom(env, fs, a, b, i) == 0
    decreases |fs| - i
  {
    hide ValuesCmp;
    hide FirstValue;
    if i == |fs| {
    } else {
      var va, vb := FirstValue(a, fs[i].name), FirstValue(b, fs[i].name);
      if vb.Some? {
        ValuesCmpFlip(env, fs[i].kind, va.value, vb.value);
        if ValuesCmp(env, fs[i].kind, va.value, vb.value) == 0 {
          BetweenIsEqual(env, fs, a, b, i + 1);
        }
      }
    }
  }

  // ----- when comparing records is transitive

  ghost predicate TransitiveRecords(env: Env, fs: seq<SortField>, rs: seq<Record>) {
    forall a, b, c :: a in rs && b in rs && c in rs && Compare(env, fs, a, b) <= 0 && Compare(env, fs, b, c) <= 0 ==>
      Compare(env, fs, a, c) <= 0
  }

  lemma Transits(env: Env, fs: seq<SortField>, rs: seq<Record>, a: Record, b: Record, c: Record)
    requires TransitiveRecords(env, fs, rs) && a in rs && b in rs && c in rs
    requires Compare(env, fs, a, b) <= 0 && Compare(env, fs, b, c) <= 0
    ensures Compare(env, fs, a, c) <= 0
  {
    hide CompareFrom;
  }

  /** Both records have the first `i` fields, with values that compare equal. */
  ghost predicate TiedBefore(env: Env, fs: seq<SortField>, a: Record, b: Record, i: nat)
    requires i <= |fs|
  {
    forall j :: 0 <= j < i ==>
      && FirstValue(a, fs[j].name).Some? && FirstValue(b, fs[j].name).Some?
      && ValuesCmp(env, fs[j].kind, FirstValue(a, fs[j].name).value, FirstValue(b, fs[j].name).value) == 0
  }

  /** Three records that are tied up to field `i`, where a value that does not convert stands, as
      a string, between two that do, and `lo` does not come after `hi`. */
  ghost predicate Inversion(env: Env, fs: seq<SortField>, lo: Record, hi: Record, v: Record, i: nat)
    requires i < |fs|
  {
    var x, y, z := FirstValue(lo, fs[i].name), FirstValue(hi, fs[i].name), FirstValue(v, fs[i].name);
    && TiedBefore(env, fs, lo, hi, i) && TiedBefore(env, fs, hi, v, i) && TiedBefore(env, fs, lo, v, i)
    && x.Some? && y.Some? && z.Some? && Straddled(env, fs[i].kind, x.value, y.value, z.value)
    && CompareFrom(env, fs, lo, hi, i) <= 0
  }

  ghost predicate NoInversion(env: Env, fs: seq<SortField>, rs: seq<Record>) {
    forall lo, hi, v, i :: lo in rs && hi in rs && v in rs && 0 <= i < |fs| ==> !Inversion(env, fs, lo, hi, v, i)
  }

  lemma TiedFlip(env: Env, fs: seq<SortField>, a: Record, b: Record, i: nat)
    requires i <= |fs|
    ensures TiedBefore(env, fs, a, b, i) <==> TiedBefore(env, fs, b, a, i)
  {
    hide ValuesCmp;
    hide FirstValue;
    forall j, x, y | 0 <= j < i
      ensures ValuesCmp(env, fs[j].kind, x, y) == -ValuesCmp(env, fs[j].kind, y, x)
    {
      ValuesCmpFlip(env, fs[j].kind, x, y);
    }
  }

  lemma {:induction false} TiedCompare(env: Env, fs: seq<SortField>, a: Record, b: Record, i: nat)
    requires i <= |fs| && TiedBefore(env, fs, a, b, i)
    ensures Compare(env, fs, a, b) == CompareFrom(env, fs, a, b, i)
  {
    hide ValuesCmp;
    hide FirstValue;
    if i == 0 {
    } else {
      TiedCompare(env, fs, a, b, i - 1);
    }
  }

  /** Not two of the three values convert while one does not. */
  predicate SameSort(env: Env, kind: Kind, a: string, b: string, c: string) {
    var x, y, z := Converts(env, kind, a), Converts(env, kind, b), Converts(env, kind, c);
    (x && y && z) || !((x && y) || (y && z) || (x && z))
  }

  lemma SameSortTransitive(env: Env, kind: Kind, a: string, b: string, c: string)
    requires SameSort(env, kind, a, b, c)
    requires ValuesCmp(env, kind, a, b) <= 0 && ValuesCmp(env, kind, b, c) <= 0
    ensures ValuesCmp(env, kind, a, c) <= 0
    ensures ValuesCmp(env, kind, a, c) == 0 ==> ValuesCmp(env, kind, a, b) == 0 && ValuesCmp(env, kind, b, c) == 0
  {
    hide Numbers.Atoi;
    hide StrCmp;
    if Converts(env, kind, a) && Converts(env, kind, b) && Converts(env, kind, c) {
      ValuesCmpTransitive(env, kind, a, b, c);
    } else {
      StrCmpTransitive(a, b, c);
    }
  }

  /** At field `i`, two values convert and one does not: the records still compare as they
      should, or they are an inversion. */
  lemma MixedStep(env: Env, fs: seq<SortField>, a: Record, b: Record, c: Record, i: nat)
    requires i < |fs|
    requires TiedBefore(env, fs, a, b, i) && TiedBefore(env, fs, b, c, i) && TiedBefore(env, fs, a, c, i)
    requires CompareFrom(env, fs, a, b, i) <= 0 && CompareFrom(env, fs, b, c, i) <= 0
    requires var x, y, z := FirstValue(a, fs[i].name), FirstValue(b, fs[i].name), FirstValue(c, fs[i].name);
             x.Some? && y.Some? && z.Some? && !SameSort(env, fs[i].kind, x.value, y.value, z.value)
    ensures CompareFrom(env, fs, a, c, i) <= 0 || Inversion(env, fs, a, b, c, i)
            || Inversion(env, fs, b, c, a, i) || Inversion(env, fs, c, a, b, i)
  {
    hide FirstValue;
    hide StrCmp;
    hide Numbers.Atoi;
    hide TiedBefore;
    var kind := fs[i].kind;
    var x, y, z := FirstValue(a, fs[i].name).value, FirstValue(b, fs[i].name).value, FirstValue(c, fs[i].name).value;
    TiedFlip(env, fs, a, b, i);
    TiedFlip(env, fs, b, c, i);
    TiedFlip(env, fs, a, c, i);
    CompareTotal(env, fs, a, c, i);
    StrCmpFlip(x, z);
    StrCmpZero(x, y);
    StrCmpZero(y, z);
    StrCmpZero(x, z);
  }

  lemma {:induction false} NoInversionTransitive(env: Env, fs: seq<SortField>, rs: seq<Record>, a: Record,
      b: Record, c: Record, i: nat)
    requires i <= |fs| && NoInversion(env, fs, rs) && a in rs && b in rs && c in rs
    requires TiedBefore(env, fs, a, b, i) && TiedBefore(env, fs, b, c, i) && TiedBefore(env, fs, a, c, i)
    requires CompareFrom(env, fs, a, b, i) <= 0 && CompareFrom(env, fs, b, c, i) <= 0
    ensures CompareFrom(env, fs, a, c, i) <= 0
    decreases |fs| - i
  {
    hide ValuesCmp;
    hide FirstValue;
    hide SameSort;
    hide Inversion;
    if i == |fs| || FirstValue(a, fs[i].name).None? {
    } else {
      var kind := fs[i].kind;
      var x, y, z := FirstValue(a, fs[i].name).value, FirstValue(b, fs[i].name).value, FirstValue(c, fs[i].name).value;
      if SameSort(env, kind, x, y, z) {
        SameSortTransitive(env, kind, x, y, z);
        if ValuesCmp(env, kind, x, z) == 0 {
          NoInversionTransitive(env, fs, rs, a, b, c, i + 1);
        }
      } else {
        MixedStep(env, fs, a, b, c, i);
      }
    }
  }

  /** An inversion goes round in a circle, one way or the other. */
  lemma InversionIsCircular(env: Env, fs: seq<SortField>, rs: seq<Record>, lo: Record, hi: Record, v: Record, i: nat)
    requires lo in rs && hi in rs && v in rs && i < |fs| && Inversion(env, fs, lo, hi, v, i)
    ensures !TransitiveRecords(env, fs, rs)
  {
    hide FirstValue;
    hide StrCmp;
    hide Numbers.Atoi;
    TiedCompare(env, fs, lo, hi, i);
    TiedCompare(env, fs, hi, v, i);
    TiedCompare(env, fs, lo, v, i);
    hide TiedBefore;
    StrCmpFlip(FirstValue(lo, fs[i].name).value, FirstValue(v, fs[i].name).value);
    assert Compare(env, fs, lo, hi) <= 0 && Compare(env, fs, hi, v) <= 0 && Compare(env, fs, lo, v) > 0;
  }

  /** Comparing the records of a set is transitive if and only if it has no inversion. */
  lemma RecordsTransitiveIff(env: Env, fs: seq<SortField>, rs: seq<Record>)
    ensures TransitiveRecords(env, fs, rs) <==> NoInversion(env, fs, rs)
  {
    hide Inversion;
    hide CompareFrom;
    if NoInversion(env, fs, rs) {
      forall a, b, c | a in rs && b in rs && c in rs && Compare(env, fs, a, b) <= 0 && Compare(env, fs, b, c) <= 0
        ensures Compare(env, fs, a, c) <= 0
      {
        NoInversionTransitive(env, fs, rs, a, b, c, 0);
      }
    } else {
      var lo, hi, v, i :| lo in rs && hi in rs && v in rs && 0 <= i < |fs| && Inversion(env, fs, lo, hi, v, i);
      InversionIsCircular(env, fs, rs, lo, hi, v, i);
    }
  }

  /** In particular it is transitive when all sort fields convert. */
  lemma ConvertedIsTransitive(env: Env, fs: seq<SortField>, rs: seq<Record>)
    requires forall r :: r in rs ==> RecordConverts(env, fs, r)
    ensures TransitiveRecords(env, fs, rs)
  {
    hide CompareFrom;
    hide ValuesCmp;
    hide StrCmp;
    hide FirstValue;
    hide Converts;
    RecordsTransitiveIff(env, fs, rs);
  }

  // ----- what the order is

  /** The strings agree before position `k`, where the first one ends or has the lesser
      character. */
  ghost predicate LessAt(a: string, b: string, k: nat) {
    k <= |a| && k < |b| && (forall i :: 0 <= i < k ==> a[i] == b[i]) && (k == |a| || a[k] < b[k])
  }

  /** Lexicographic order. */
  ghost predicate Precedes(a: string, b: string) { exists k: nat :: LessAt(a, b, k) }

  lemma {:induction false} StrCmpMeans(a: string, b: string)
    ensures StrCmp(a, b) < 0 <==> Precedes(a, b)
  {
    if a == "" || b == "" || a[0] != b[0] {
      assert StrCmp(a, b) < 0 <==> LessAt(a, b, 0);
    } else {
      StrCmpMeans(a[1..], b[1..]);
      PrecedesTail(a, b);
    }
  }

  lemma PrecedesTail(a: string, b: string)
    requires a != "" && b != "" && a[0] == b[0]
    ensures Precedes(a, b) <==> Precedes(a[1..], b[1..])
  {
    hide LessAt;
    if Precedes(a, b) {
      var k: nat :| LessAt(a, b, k);
      LessAtTail(a, b, k);
    }
    if Precedes(a[1..], b[1..]) {
      var k: nat :| LessAt(a[1..], b[1..], k);
      LessAtTail(a, b, k + 1);
    }
  }

  lemma LessAtTail(a: string, b: string, k: nat)
    requires a != "" && b != "" && a[0] == b[0]
    ensures k == 0 ==> !LessAt(a, b, k)
    ensures k > 0 ==> (LessAt(a, b, k) <==> LessAt(a[1..], b[1..], k - 1))
  {
    if k > 0 && LessAt(a[1..], b[1..], k - 1) {
      forall i | 0 <= i < k
        ensures a[i] == b[i]
      {
        assert i > 0 ==> a[i] == a[1..][i - 1] && b[i] == b[1..][i - 1];
      }
    }
  }

  /** What it means for a value to come before another: by integer, real, false before true, or
      time, where both convert, and otherwise as texts. */
  ghost predicate ValueLess(env: Env, kind: Kind, a: string, b: string) {
    match kind
    case IntKind =>
      var x, y := Numbers.Atoi(a), Numbers.Atoi(b);
      if x.Some? && y.Some? then x.value < y.value else Precedes(a, b)
    case RealKind =>
      var x, y := Atod(env, a), Atod(env, b);
      if x.Some? && y.Some? then x.value < y.value else Precedes(a, b)
    case BoolKind => !env.isTrue(a) && env.isTrue(b)
    case DateKind =>
      var x, y := env.date(a), env.date(b);
      if x.Some? && y.Some? then
        x.value.sec < y.value.sec || (x.value.sec == y.value.sec && x.value.nsec < y.value.nsec)
      else Precedes(a, b)
    case TextKind => Precedes(a, b)
  }

  lemma ValuesCmpMeans(env: Env, kind: Kind, a: string, b: string)
    ensures ValuesCmp(env, kind, a, b) < 0 <==> ValueLess(env, kind, a, b)
    ensures ValuesCmp(env, kind, a, b) > 0 <==> ValueLess(env, kind, b, a)
  {
    hide Numbers.Atoi;
    hide StrCmp;
    hide Precedes;
    StrCmpMeans(a, b);
    StrCmpMeans(b, a);
    StrCmpFlip(a, b);
  }

  /** Neither value comes before the other. */
  ghost predicate SameValue(env: Env, kind: Kind, a: string, b: string) {
    !ValueLess(env, kind, a, b) && !ValueLess(env, kind, b, a)
  }

  /** The records have all the first `k` fields, with the same values. */
  ghost predicate SameFields(env: Env, fs: seq<SortField>, a: Record, b: Record, k: nat)
    requires k <= |fs|
  {
    forall i :: 0 <= i < k ==>
      var x, y := Lookups.Values(a.elems, fs[i].name), Lookups.Values(b.elems, fs[i].name);
      x != [] && y != [] && SameValue(env, fs[i].kind, x[0], y[0])
  }

  /** At field `k` the first record comes before the second: it lacks the field, or has the
      lesser value. */
  ghost predicate DecidedAt(env: Env, fs: seq<SortField>, a: Record, b: Record, k: nat)
    requires k < |fs|
  {
    var x, y := Lookups.Values(a.elems, fs[k].name), Lookups.Values(b.elems, fs[k].name);
    SameFields(env, fs, a, b, k) && (x == [] || (y != [] && ValueLess(env, fs[k].kind, x[0], y[0])))
  }

  /** A record comes before another when the first field on which they do not agree decides
      so. */
  ghost predicate RecordBefore(env: Env, fs: seq<SortField>, a: Record, b: Record) {
    exists k :: 0 <= k < |fs| && DecidedAt(env, fs, a, b, k)
  }

  /** Where the comparison of two records from field `i` on comes from. */
  lemma {:induction false} CompareFromMeans(env: Env, fs: seq<SortField>, a: Record, b: Record, i: nat)
    requires i <= |fs| && SameFields(env, fs, a, b, i)
    ensures CompareFrom(env, fs, a, b, i) < 0 <==> exists k :: i <= k < |fs| && DecidedAt(env, fs, a, b, k)
    ensures CompareFrom(env, fs, a, b, i) == 0 <==> SameFields(env, fs, a, b, |fs|)
    decreases |fs| - i
  {
    hide ValuesCmp;
    hide ValueLess;
    hide Lookups.Values;
    if i == |fs| {
    } else {
      var x, y := Lookups.Values(a.elems, fs[i].name), Lookups.Values(b.elems, fs[i].name);
      if x != [] && y != [] {
        ValuesCmpMeans(env, fs[i].kind, x[0], y[0]);
      }
      if x != [] && y != [] && SameValue(env, fs[i].kind, x[0], y[0]) {
        CompareFromMeans(env, fs, a, b, i + 1);
        assert !DecidedAt(env, fs, a, b, i);
      } else {
        forall k | i < k < |fs|
          ensures !DecidedAt(env, fs, a, b, k)
        {
          NotSame(env, fs, a, b, i, k);
        }
        NotSame(env, fs, a, b, i, |fs|);
        assert CompareFrom(env, fs, a, b, i) < 0 <==> DecidedAt(env, fs, a, b, i);
      }
    }
  }

  lemma NotSame(env: Env, fs: seq<SortField>, a: Record, b: Record, i: nat, k: nat)
    requires i < k <= |fs|
    requires var x, y := Lookups.Values(a.elems, fs[i].name), Lookups.Values(b.elems, fs[i].name);
             !(x != [] && y != [] && SameValue(env, fs[i].kind, x[0], y[0]))
    ensures !SameFields(env, fs, a, b, k)
  {
    hide Lookups.Values;
    hide SameValue;
  }

  lemma CompareMeans(env: Env, fs: seq<SortField>, a: Record, b: Record)
    ensures Compare(env, fs, a, b) < 0 <==> RecordBefore(env, fs, a, b)
    ensures Compare(env, fs, a, b) == 0 <==> SameFields(env, fs, a, b, |fs|)
  {
    hide CompareFrom;
    CompareFromMeans(env, fs, a, b, 0);
  }
}
