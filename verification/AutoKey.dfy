/** Automatic integer keys (src/rec-rset.c, src/rec-db.c) and the key check (src/rec-int.c):
    a generator and a checker in different places that have to agree. */
module AutoKey {
  import opened Wrappers
  import opened RecData
  import Lookups
  import Numbers

  const INT_MAX: int := Numbers.INT_MAX
  const INT_MIN: int := Numbers.INT_MIN

  function KeyValues(r: Record, name: string): seq<string> { Lookups.Values(r.elems, name) }

  // ----- the generator

  /** The integer a value stands for in the generator: base ten, the whole string, no range
      error; a larger `long` is cut to `int`. */
  function IntValue(value: string): Option<int> {
    var r := Numbers.Strtol(value, 10);
    if !r.outOfRange && r.end == |value| then Some(Numbers.ToInt(r.value)) else None
  }

  /** A decimal number, with or without sign and leading zeros, counts as its value, limited to
      `int` by its low 32 bits; one beyond the range of `long` does not count. */
  lemma DecimalCounts(sign: string, digits: string)
    requires sign == "" || sign == "+" || sign == "-"
    requires digits != "" && forall i :: 0 <= i < |digits| ==> '0' <= digits[i] <= '9'
    ensures var n: int := Numbers.Fold(digits, 10, 0);
            var v := if sign == "-" then -n else n;
            IntValue(sign + digits) ==
            if Numbers.LONG_MIN <= v <= Numbers.LONG_MAX then Some(Numbers.ToInt(v)) else None
  {
    hide Numbers.Strtol;
    hide Numbers.Fold;
    hide Numbers.Clamp;
    hide IntValue;
    var n: int := Numbers.Fold(digits, 10, 0);
    var s := "" + (sign + digits);
    assert s == sign + digits;
    Numbers.DecimalRead("", sign, digits);
    ClampedCounts(s, if sign == "-" then -n else n);
  }

  lemma ClampedCounts(s: string, v: int)
    requires Numbers.Strtol(s, 10) == Numbers.Clamp(v, |s|)
    ensures IntValue(s) == if Numbers.LONG_MIN <= v <= Numbers.LONG_MAX then Some(Numbers.ToInt(v)) else None
  {
    hide Numbers.Strtol;
    hide Numbers.ToInt;
  }

  /** One more value has been seen. */
  function Bump(auto: int, value: string): int {
    var v := IntValue(value);
    if v.Some? && auto <= v.value then Numbers.ToInt(v.value + 1) else auto
  }

  function BumpAll(auto: int, values: seq<string>): int {
    if values == [] then auto else Bump(BumpAll(auto, values[..|values| - 1]), values[|values| - 1])
  }

  function AutoFrom(records: seq<Record>, name: string): int {
    if records == [] then 0
    else BumpAll(AutoFrom(records[..|records| - 1], name), KeyValues(records[|records| - 1], name))
  }

  lemma AutoSnoc(records: seq<Record>, r: Record, name: string)
    ensures AutoFrom(records + [r], name) == BumpAll(AutoFrom(records, name), KeyValues(r, name))
  {
    assert (records + [r])[..|records|] == records;
  }

  /** The values of the field in all records that the generator can count past. */
  ghost predicate BoundedValues(values: seq<string>, limit: int) {
    forall i :: 0 <= i < |values| && IntValue(values[i]).Some? ==> IntValue(values[i]).value <= limit
  }

  ghost predicate Bounded(records: seq<Record>, name: string, limit: int) {
    forall i :: 0 <= i < |records| ==> BoundedValues(KeyValues(records[i], name), limit)
  }

  lemma {:induction false} BumpAllExceeds(auto: int, values: seq<string>, limit: int)
    requires BoundedValues(values, limit) && limit < INT_MAX && 0 <= auto <= limit + 1
    ensures auto <= BumpAll(auto, values) <= limit + 1
    ensures BoundedValues(values, BumpAll(auto, values) - 1)
  {
    hide IntValue;
    if values == [] {
    } else {
      var init, last := values[..|values| - 1], values[|values| - 1];
      assert forall i :: 0 <= i < |init| ==> init[i] == values[i];
      BumpAllExceeds(auto, init, limit);
      assert values[|values| - 1] == last;
    }
  }

  /** A larger limit bounds as well. */
  lemma BoundedFurther(records: seq<Record>, name: string, limit: int, limit': int)
    requires Bounded(records, name, limit) && limit <= limit'
    ensures Bounded(records, name, limit')
  {
    hide KeyValues;
    hide IntValue;
    forall i | 0 <= i < |records|
      ensures BoundedValues(KeyValues(records[i], name), limit')
    {
      assert BoundedValues(KeyValues(records[i], name), limit);
    }
  }

  lemma BoundedSnoc(records: seq<Record>, r: Record, name: string, limit: int)
    ensures Bounded(records + [r], name, limit) <==>
            Bounded(records, name, limit) && BoundedValues(KeyValues(r, name), limit)
  {
    hide KeyValues;
    hide BoundedValues;
    var all := records + [r];
    assert all[|records|] == r && forall i :: 0 <= i < |records| ==> all[i] == records[i];
  }

  /** The generated value exceeds every convertible value there is, as long as none of them
      is the largest `int`. */
  lemma {:induction false} AutoExceeds(records: seq<Record>, name: string, limit: int)
    requires Bounded(records, name, limit) && -1 <= limit < INT_MAX
    ensures 0 <= AutoFrom(records, name) <= limit + 1
    ensures Bounded(records, name, AutoFrom(records, name) - 1)
  {
    hide KeyValues;
    hide BumpAll;
    hide BoundedValues;
    if records == [] {
    } else {
      var init, last := records[..|records| - 1], records[|records| - 1];
      assert records == init + [last];
      hide Bounded;
      BoundedSnoc(init, last, name, limit);
      AutoExceeds(init, name, limit);
      BumpAllExceeds(AutoFrom(init, name), KeyValues(last, name), limit);
      BoundedFurther(init, name, AutoFrom(init, name) - 1, AutoFrom(records, name) - 1);
      BoundedSnoc(init, last, name, AutoFrom(records, name) - 1);
    }
  }

  lemma {:induction false} BumpAllIsInt(auto: int, values: seq<string>)
    requires auto <= INT_MAX
    ensures BumpAll(auto, values) <= INT_MAX
  {
    hide IntValue;
    if values == [] {
    } else {
      BumpAllIsInt(auto, values[..|values| - 1]);
    }
  }

  lemma {:induction false} AutoIsInt(records: seq<Record>, name: string)
    ensures AutoFrom(records, name) <= INT_MAX
  {
    if records == [] {
    } else {
      AutoIsInt(records[..|records| - 1], name);
      BumpAllIsInt(AutoFrom(records[..|records| - 1], name), KeyValues(records[|records| - 1], name));
    }
  }

  /** The generated value exceeds every convertible value if and only if none of them is the
      largest `int`. */
  lemma AutoExceedsIff(records: seq<Record>, name: string)
    ensures Bounded(records, name, AutoFrom(records, name) - 1) <==> Bounded(records, name, INT_MAX - 1)
  {
    hide AutoFrom;
    hide IntValue;
    hide KeyValues;
    var auto := AutoFrom(records, name);
    AutoIsInt(records, name);
    if Bounded(records, name, INT_MAX - 1) {
      AutoExceeds(records, name, INT_MAX - 1);
    }
    if Bounded(records, name, auto - 1) {
      BoundedFurther(records, name, auto - 1, INT_MAX - 1);
    }
  }

  /** A printed value is converted back to itself. */
  lemma PrintedValue(n: nat)
    requires n <= INT_MAX
    ensures IntValue(Numbers.Dec(n)) == Some(n)
  {
    Numbers.StrtolDigits(n, "", 10);
    assert Numbers.Digits(n) + "" == Numbers.Digits(n);
  }

  // ----- the checker

  /** A key is sound if each record has exactly one such field and the values differ. */
  ghost predicate KeySound(records: seq<Record>, key: string) {
    && (forall i :: 0 <= i < |records| ==> |KeyValues(records[i], key)| == 1)
    && forall i, j :: 0 <= i < j < |records| ==> KeyValues(records[i], key) != KeyValues(records[j], key)
  }

  /** Some other record has this value in its first key field. */
  ghost predicate Duplicated(records: seq<Record>, i: nat, key: string, value: string) {
    exists j :: 0 <= j < |records| && j != i && KeyValues(records[j], key) != [] && KeyValues(records[j], key)[0] ==
        value
  }

  /** The record is at fault with respect to the key. */
  ghost predicate Faulty(records: seq<Record>, i: nat, key: string)
    requires i < |records|
  {
    var values := KeyValues(records[i], key);
    |values| != 1 || Duplicated(records, i, key, values[0])
  }

  /** `rec_int_check_record_key`: no error is counted exactly when the record is not at fault
      with respect to any key. A duplicated value ends the loop early. */
  method CheckRecordKey(records: seq<Record>, i: nat, keys: seq<string>) returns (errors: nat)
    requires i < |records|
    ensures errors == 0 <==> forall k :: 0 <= k < |keys| ==> !Faulty(records, i, keys[k])
  {
    errors := 0;
    var k := 0;
    while k < |keys|
      invariant k <= |keys|
      invariant errors == 0 <==> forall m :: 0 <= m < k ==> !Faulty(records, i, keys[m])
    {
      var n := Lookups.NumFieldsByName(records[i].elems, keys[k]);
      if n == 0 {
        errors := errors + 1;
      } else if n > 1 {
        errors := errors + 1;
      } else {
        var value := Lookups.NthValue(records[i].elems, keys[k], 0);
        var duplicated := FindDuplicate(records, i, keys[k], value.value);
        if duplicated {
          errors := errors + 1;
          assert Faulty(records, i, keys[k]);
          break;
        }
      }
      k := k + 1;
    }
  }

  method FindDuplicate(records: seq<Record>, i: nat, key: string, value: string) returns (duplicated: bool)
    ensures duplicated <==> Duplicated(records, i, key, value)
  {
    var j := 0;
    while j < |records|
      invariant j <= |records|
      invariant forall m :: 0 <= m < j && m != i ==>
                    KeyValues(records[m], key) == [] || KeyValues(records[m], key)[0] != value
    {
      if j != i {
        var other := Lookups.NthValue(records[j].elems, key, 0);
        if other.Some? && other.value == value {
          return true;
        }
      }
      j := j + 1;
    }
    return false;
  }

  /** The record loop of `rec_int_check_rset`, key errors only: the check is clean exactly
      when every key is sound. */
  method CheckKeys(records: seq<Record>, keys: seq<string>) returns (errors: nat)
    ensures errors == 0 <==> forall k :: 0 <= k < |keys| ==> KeySound(records, keys[k])
  {
    hide KeySound;
    hide Faulty;
    errors := 0;
    var i := 0;
    while i < |records|
      invariant i <= |records|
      invariant errors == 0 <==> forall m, k :: 0 <= m < i && 0 <= k < |keys| ==> !Faulty(records, m, keys[k])
    {
      var n := CheckRecordKey(records, i, keys);
      errors := errors + n;
      i := i + 1;
    }
    forall k | 0 <= k < |keys|
      ensures KeySound(records, keys[k]) <==> forall m :: 0 <= m < |records| ==> !Faulty(records, m, keys[k])
    {
      SoundIffFaultless(records, keys[k]);
    }
  }

  lemma SoundIffFaultless(records: seq<Record>, key: string)
    ensures KeySound(records, key) <==> forall i :: 0 <= i < |records| ==> !Faulty(records, i, key)
  {
    hide KeyValues;
    if KeySound(records, key) {
      assert forall i :: 0 <= i < |records| ==> KeyValues(records[i], key) == [KeyValues(records[i], key)[0]];
    }
    if forall i :: 0 <= i < |records| ==> !Faulty(records, i, key) {
      forall i | 0 <= i < |records|
        ensures |KeyValues(records[i], key)| == 1
      {
        assert !Faulty(records, i, key);
      }
      forall i, j | 0 <= i < j < |records|
        ensures KeyValues(records[i], key) != KeyValues(records[j], key)
      {
        assert !Faulty(records, i, key);
      }
    }
  }

  // ----- generator and checker together

  /** How an automatic field gets its value: the integer and range types count, dates and
      UUIDs come from outside, other types are ignored. */
  datatype AutoKind = Counter | Stamp(text: string) | Ignored

  datatype Auto = Auto(name: string, kind: AutoKind)

  function FieldNamed(name: string, value: string): Elem { FieldElem(Field(name, value, NOWHERE)) }

  /** One automatic field, put in front of the record unless it is present. */
  function AddAuto(records: seq<Record>, a: Auto, r: Record): Record {
    if KeyValues(r, a.name) != [] then r
    else
      match a.kind
      case Counter => r.(elems := [FieldNamed(a.name, Numbers.Dec(AutoFrom(records, a.name)))] + r.elems)
      case Stamp(text) => r.(elems := [FieldNamed(a.name, text)] + r.elems)
      case Ignored => r
  }

  function AddAutos(records: seq<Record>, autos: seq<Auto>, r: Record): Record {
    if autos == [] then r
    else AddAuto(records, autos[|autos| - 1], AddAutos(records, autos[..|autos| - 1], r))
  }

  class RecordSet {
    var elems: seq<RsetElem>
    const descriptorPos: nat
    const autos: seq<Auto>

    constructor (es: seq<RsetElem>, pos: nat, fields: seq<Auto>)
      ensures elems == es && descriptorPos == pos && autos == fields
    {
      elems := es;
      descriptorPos := pos;
      autos := fields;
    }

    /** `rec_rset_add_auto_field_int`, the search for the value */
    method AutoValue(name: string) returns (auto: int)
      ensures auto == AutoFrom(Records(elems), name)
    {
      auto := 0;
      var i := 0;
      while i < |elems|
        invariant i <= |elems| && auto == AutoFrom(Records(elems[..i]), name)
      {
        RecordsStep(elems, i);
        if elems[i].RecordElem? {
          AutoSnoc(Records(elems[..i]), elems[i].record, name);
          auto := BumpValues(elems[i].record, name, auto);
        }
        i := i + 1;
      }
      assert elems[..i] == elems;
    }

    static method BumpValues(r: Record, name: string, start: int) returns (auto: int)
      ensures auto == BumpAll(start, KeyValues(r, name))
    {
      hide Lookups.Values;
      auto := start;
      var n := Lookups.NumFieldsByName(r.elems, name);
      var i := 0;
      while i < n
        invariant i <= n && auto == BumpAll(start, KeyValues(r, name)[..i])
      {
        var v := Lookups.NthValue(r.elems, name, i);
        assert KeyValues(r, name)[..i + 1][..i] == KeyValues(r, name)[..i];
        var value := IntValue(v.value);
        if value.Some? && auto <= value.value {
          auto := Numbers.ToInt(value.value + 1);
        }
        i := i + 1;
      }
      assert KeyValues(r, name)[..n] == KeyValues(r, name);
    }

    /** `rec_rset_add_auto_fields` */
    method AddAutoFields(r: Record) returns (r': Record)
      ensures r' == AddAutos(Records(elems), autos, r)
    {
      hide Lookups.Values;
      r' := r;
      var i := 0;
      while i < |autos|
        invariant i <= |autos| && r' == AddAutos(Records(elems), autos[..i], r)
      {
        assert autos[..i + 1][..i] == autos[..i];
        var a := autos[i];
        var n := Lookups.NumFieldsByName(r'.elems, a.name);
        if n == 0 {
          match a.kind {
            case Counter =>
              var value := AutoValue(a.name);
              r' := r'.(elems := [FieldNamed(a.name, Numbers.Dec(value))] + r'.elems);
            case Stamp(text) =>
              r' := r'.(elems := [FieldNamed(a.name, text)] + r'.elems);
            case Ignored =>
          }
        }
        i := i + 1;
      }
      assert autos[..i] == autos;
    }

    /** The append branch of `rec_db_insert`: records without fields are discarded; the new
        record goes after the last one, or to the descriptor's place in an empty set. */
    method Append(r: Record)
      modifies this
      ensures Records(elems) == if HasAnyField(r) then Records(old(elems)) + [AddAutos(Records(old(elems)), autos, r)]
                                else Records(old(elems))
      ensures Notes(elems) == Notes(old(elems))
      ensures !HasAnyField(r) ==> elems == old(elems)
      ensures HasAnyField(r) ==> exists at: nat ::
                && AppendPlace(old(elems), descriptorPos, at)
                && elems == old(elems)[..at] + [RecordElem(AddAutos(Records(old(elems)), autos, r))] + old(elems)[at..]
    {
      if !HasAnyField(r) {
        return;
      }
      var r' := AddAutoFields(r);
      var last := LastRecord(elems);
      var at := if last.Some? then last.value + 1
                else if descriptorPos <= |elems| then descriptorPos else |elems|;
      InsertedLast(elems, at, r');
      assert AppendPlace(elems, descriptorPos, at);
      elems := elems[..at] + [RecordElem(r')] + elems[at..];
    }
  }

  /** Where a record is appended: right after the last record, or, in a set without records, at
      the place of the descriptor or at the end if that is sooner. */
  ghost predicate AppendPlace(es: seq<RsetElem>, descriptorPos: nat, at: nat) {
    && at <= |es| && (forall j :: at <= j < |es| ==> es[j].NoteElem?)
    && ((at > 0 && es[at - 1].RecordElem?) ||
        ((forall j :: 0 <= j < |es| ==> es[j].NoteElem?)
         && at == if descriptorPos <= |es| then descriptorPos else |es|))
  }

  predicate HasAnyField(r: Record) { exists i :: 0 <= i < |r.elems| && r.elems[i].FieldElem? }

  function Notes(es: seq<RsetElem>): seq<string> {
    if es == [] then []
    else Notes(es[..|es| - 1]) + if es[|es| - 1].NoteElem? then [es[|es| - 1].text] else []
  }

  method LastRecord(es: seq<RsetElem>) returns (last: Option<nat>)
    ensures last.Some? ==> last.value < |es| && es[last.value].RecordElem? && forall j :: last.value < j < |es| ==>
        es[j].NoteElem?
    ensures last.None? ==> forall j :: 0 <= j < |es| ==> es[j].NoteElem?
  {
    last := None;
    var i := 0;
    while i < |es|
      invariant i <= |es|
      invariant last.Some? ==> last.value < i && es[last.value].RecordElem? && forall j :: last.value < j < i ==>
          es[j].NoteElem?
      invariant last.None? ==> forall j :: 0 <= j < i ==> es[j].NoteElem?
    {
      if es[i].RecordElem? {
        last := Some(i);
      }
      i := i + 1;
    }
  }

  lemma RecordsStep(es: seq<RsetElem>, i: nat)
    requires i < |es|
    ensures Records(es[..i + 1]) == if es[i].RecordElem? then Records(es[..i]) + [es[i].record] else Records(es[..i])
  {
    assert es[..i + 1][..i] == es[..i];
  }

  lemma {:induction false} SplitConcat(a: seq<RsetElem>, b: seq<RsetElem>)
    ensures Records(a + b) == Records(a) + Records(b) && Notes(a + b) == Notes(a) + Notes(b)
  {
    if b == [] {
      assert a + b == a;
    } else {
      assert (a + b)[..|a + b| - 1] == a + b[..|b| - 1];
      SplitConcat(a, b[..|b| - 1]);
    }
  }

  lemma {:induction false} NotesOnly(es: seq<RsetElem>)
    requires forall j :: 0 <= j < |es| ==> es[j].NoteElem?
    ensures Records(es) == []
  {
    if es == [] {
    } else {
      NotesOnly(es[..|es| - 1]);
    }
  }

  /** Where only comments follow, the inserted record becomes the last one. */
  lemma InsertedLast(es: seq<RsetElem>, at: nat, r: Record)
    requires at <= |es| && forall j :: at <= j < |es| ==> es[j].NoteElem?
    ensures var es' := es[..at] + [RecordElem(r)] + es[at..];
            Records(es') == Records(es) + [r] && Notes(es') == Notes(es)
  {
    hide Records;
    hide Notes;
    var a, b := es[..at], es[at..];
    NotesOnly(b);
    JustOne(r);
    assert es == a + b;
    SplitConcat(a, b);
    SplitConcat(a, [RecordElem(r)]);
    SplitConcat(a + [RecordElem(r)], b);
  }

  lemma JustOne(r: Record)
    ensures Records([RecordElem(r)]) == [r] && Notes([RecordElem(r)]) == []
  {
    assert [RecordElem(r)][..0] == [];
  }

  // ----- histories of inserts

  /** The set after appending all the records in turn. */
  function AppendAll(records: seq<Record>, autos: seq<Auto>, inserts: seq<Record>): seq<Record> {
    if inserts == [] then records
    else
      var before := AppendAll(records, autos, inserts[..|inserts| - 1]);
      var r := inserts[|inserts| - 1];
      if HasAnyField(r) then before + [AddAutos(before, autos, r)] else before
  }

  /** A counter is declared for the key. */
  ghost predicate CountsKey(autos: seq<Auto>, key: string) {
    && (exists i :: 0 <= i < |autos| && autos[i] == Auto(key, Counter))
    && forall i :: 0 <= i < |autos| && autos[i].name == key ==> autos[i].kind == Counter
  }

  lemma ValuesCons(e: Elem, es: seq<Elem>, name: string)
    ensures Lookups.Values([e] + es, name) ==
            (if Named(e, name) then [e.field.value] else []) + Lookups.Values(es, name)
  {
    assert ([e] + es)[1..] == es;
  }

  /** A record without the key gets exactly one, with the generated value. */
  lemma {:induction false} AutosAddKey(records: seq<Record>, autos: seq<Auto>, r: Record, key: string)
    requires KeyValues(r, key) == []
    requires forall i :: 0 <= i < |autos| && autos[i].name == key ==> autos[i].kind == Counter
    ensures var values := KeyValues(AddAutos(records, autos, r), key);
            if exists i :: 0 <= i < |autos| && autos[i] == Auto(key, Counter)
            then values == [Numbers.Dec(AutoFrom(records, key))] else values == []
  {
    hide AutoFrom;
    if autos == [] {
    } else {
      var init, a := autos[..|autos| - 1], autos[|autos| - 1];
      assert forall i :: 0 <= i < |init| ==> init[i] == autos[i];
      AutosAddKey(records, init, r, key);
      var r' := AddAutos(records, init, r);
      ValuesCons(FieldNamed(a.name, Numbers.Dec(AutoFrom(records, a.name))), r'.elems, key);
      if a.kind.Stamp? {
        ValuesCons(FieldNamed(a.name, a.kind.text), r'.elems, key);
      }
      if a == Auto(key, Counter) {
        assert autos[|autos| - 1] == Auto(key, Counter);
      }
    }
  }

  /** Appending one record without the key keeps the key sound. */
  lemma AppendKeepsSound(records: seq<Record>, autos: seq<Auto>, r: Record, key: string, limit: int)
    requires KeySound(records, key) && CountsKey(autos, key) && KeyValues(r, key) == []
    requires -1 <= limit < INT_MAX && Bounded(records, key, limit)
    ensures var records' := records + [AddAutos(records, autos, r)];
            KeySound(records', key) && Bounded(records', key, limit + 1)
  {
    hide KeyValues;
    hide AddAutos;
    hide AutoFrom;
    hide IntValue;
    hide Numbers.Dec;
    var auto := AutoFrom(records, key);
    var r' := AddAutos(records, autos, r);
    AutoExceeds(records, key, limit);
    AutosAddKey(records, autos, r, key);
    PrintedValue(auto);
    assert KeyValues(r', key) == [Numbers.Dec(auto)];
    var records' := records + [r'];
    forall i | 0 <= i < |records|
      ensures KeyValues(records[i], key) != KeyValues(r', key)
    {
      var values := KeyValues(records[i], key);
      assert BoundedValues(values, auto - 1) && |values| == 1;
      assert IntValue(values[0]).Some? ==> IntValue(values[0]).value <= auto - 1;
    }
    forall i | 0 <= i < |records'|
      ensures BoundedValues(KeyValues(records'[i], key), limit + 1)
    {
      if i < |records| {
        assert BoundedValues(KeyValues(records[i], key), limit);
      }
    }
  }

  /** Over every history of appended records that lack the key, a set that passes the key
      check goes on passing it, as long as the values stay below the largest `int`. */
  lemma {:induction false} HistoryKeepsSound(records: seq<Record>, autos: seq<Auto>, inserts: seq<Record>,
      key: string, limit: int)
    requires KeySound(records, key) && CountsKey(autos, key)
    requires forall i :: 0 <= i < |inserts| ==> KeyValues(inserts[i], key) == []
    requires -1 <= limit && limit + |inserts| <= INT_MAX && Bounded(records, key, limit)
    ensures KeySound(AppendAll(records, autos, inserts), key)
    ensures Bounded(AppendAll(records, autos, inserts), key, limit + |inserts|)
  {
    hide KeySound;
    hide CountsKey;
    if inserts == [] {
    } else {
      var init, r := inserts[..|inserts| - 1], inserts[|inserts| - 1];
      assert forall i :: 0 <= i < |init| ==> init[i] == inserts[i];
      HistoryKeepsSound(records, autos, init, key, limit);
      var before := AppendAll(records, autos, init);
      if HasAnyField(r) {
        AppendKeepsSound(before, autos, r, key, limit + |init|);
      } else {
        forall i | 0 <= i < |before|
          ensures BoundedValues(KeyValues(before[i], key), limit + |inserts|)
        {
          assert BoundedValues(KeyValues(before[i], key), limit + |init|);
        }
      }
    }
  }

  /** The bound is needed: past the largest `int` the generator wraps around and its value no
      longer exceeds the existing one. */
  lemma WrapsAtLargest(r: Record, key: string)
    requires KeyValues(r, key) == [Numbers.Dec(INT_MAX)]
    ensures AutoFrom([r], key) == INT_MIN
  {
    hide Numbers.Dec;
    hide IntValue;
    PrintedValue(INT_MAX);
    AutoSnoc([], r, key);
    assert [] + [r] == [r];
    BumpOne(0, Numbers.Dec(INT_MAX));
  }

  lemma BumpOne(auto: int, value: string)
    ensures BumpAll(auto, [value]) == Bump(auto, value)
  {
    hide Bump;
    assert [value][..0] == [];
  }

  // ----- what is added to a record

  /** The value that an automatic field gets; none for the types that are ignored. */
  function AutoText(records: seq<Record>, a: Auto): Option<string> {
    match a.kind
    case Counter => Some(Numbers.Dec(AutoFrom(records, a.name)))
    case Stamp(text) => Some(text)
    case Ignored => None
  }

  /** The value of the first automatic field declared with that name. */
  function FirstText(records: seq<Record>, autos: seq<Auto>, name: string): Option<string> {
    if autos == [] then None
    else
      var before := FirstText(records, autos[..|autos| - 1], name);
      if before.Some? || autos[|autos| - 1].name != name then before else AutoText(records, autos[|autos| - 1])
  }

  lemma OneField(name: string, value: string, other: string)
    ensures Lookups.Values([FieldNamed(name, value)], other) == if other == name then [value] else []
  {
    assert [FieldNamed(name, value)][1..] == [];
  }

  /** The new fields: one for each name that the record lacks and that is declared with a type
      that has automatic values. */
  ghost predicate Supplies(records: seq<Record>, autos: seq<Auto>, r: Record, front: seq<Elem>) {
    && (forall i :: 0 <= i < |front| ==> front[i].FieldElem?)
    && forall name :: Lookups.Values(front, name) ==
         var text := FirstText(records, autos, name);
         if KeyValues(r, name) == [] && text.Some? then [text.value] else []
  }

  /** The record gets those fields in front of all its elements, which stay as they are. */
  lemma {:induction false} AutosInFront(records: seq<Record>, autos: seq<Auto>, r: Record) returns (front: seq<Elem>)
    ensures AddAutos(records, autos, r) == r.(elems := front + r.elems)
    ensures Supplies(records, autos, r, front)
  {
    hide AddAuto;
    if autos == [] {
      front := [];
      assert front + r.elems == r.elems;
    } else {
      hide Supplies;
      var a, init := autos[|autos| - 1], autos[..|autos| - 1];
      var before := AutosInFront(records, init, r);
      front := SupplyNext(records, autos, r, before);
      AddsOne(records, a, AddAutos(records, init, r));
    }
  }

  lemma SupplyNext(records: seq<Record>, autos: seq<Auto>, r: Record, before: seq<Elem>) returns (front: seq<Elem>)
    requires autos != [] && Supplies(records, autos[..|autos| - 1], r, before)
    ensures Supplies(records, autos, r, front)
    ensures var a, r' := autos[|autos| - 1], r.(elems := before + r.elems);
            var text := AutoText(records, a);
            front + r.elems ==
            if KeyValues(r', a.name) == [] && text.Some? then [FieldNamed(a.name, text.value)] + r'.elems else r'.elems
  {
    hide AutoText;
    hide Lookups.Values;
    var a := autos[|autos| - 1];
    var text := AutoText(records, a);
    Lookups.ValuesConcat(before, r.elems, a.name);
    if KeyValues(r.(elems := before + r.elems), a.name) == [] && text.Some? {
      var f := FieldNamed(a.name, text.value);
      front := [f] + before;
      assert [f] + (before + r.elems) == front + r.elems;
      forall name
        ensures Lookups.Values(front, name) ==
                if name == a.name then [text.value] + Lookups.Values(before, name) else Lookups.Values(before, name)
      {
        Lookups.ValuesConcat([f], before, name);
        OneField(a.name, text.value, name);
      }
    } else {
      front := before;
    }
  }

  lemma AddsOne(records: seq<Record>, a: Auto, r: Record)
    ensures var text := AutoText(records, a);
            AddAuto(records, a, r) ==
            if KeyValues(r, a.name) == [] && text.Some? then
              r.(elems := [FieldNamed(a.name, text.value)] + r.elems)
            else r
  {
    hide AutoFrom;
    hide Numbers.Dec;
    hide KeyValues;
  }
}
