/** Fields, records, record sets and databases as values (src/rec-field.c, src/rec-record.c,
    src/rec-rset.c, src/rec-db.c). An ordered multi-set of elements is a sequence. */
module RecData {
  import opened Wrappers

  /** Where something was found: the line number, and the offset as the source counts it. */
  datatype Location = Location(line: nat, offset: nat)

  const NOWHERE: Location := Location(0, 0)

  datatype Field = Field(name: string, value: string, at: Location)

  /** An element of a record. */
  datatype Elem = FieldElem(field: Field) | CommentElem(text: string)

  datatype Record = Record(elems: seq<Elem>, at: Location)

  /** An element of a record set. */
  datatype RsetElem = RecordElem(record: Record) | NoteElem(text: string)

  datatype Rset = Rset(descriptor: Option<Record>, descriptorPos: nat, elems: seq<RsetElem>)

  type Db = seq<Rset>

  const REC_NAME: string := "%rec"

  predicate Named(e: Elem, name: string) { e.FieldElem? && e.field.name == name }

  /** `rec_record_field_p` */
  predicate HasField(r: Record, name: string) { exists i :: 0 <= i < |r.elems| && Named(r.elems[i], name) }

  /** `rec_rset_num_records` */
  function NumRecords(elems: seq<RsetElem>): nat {
    if elems == [] then 0
    else NumRecords(elems[..|elems| - 1]) + if elems[|elems| - 1].RecordElem? then 1 else 0
  }

  /** The records among the elements of a set, in order. */
  function Records(es: seq<RsetElem>): seq<Record> {
    if es == [] then []
    else Records(es[..|es| - 1]) + if es[|es| - 1].RecordElem? then [es[|es| - 1].record] else []
  }

  lemma {:induction false} InRecords(es: seq<RsetElem>, r: Record)
    ensures r in Records(es) <==> RecordElem(r) in es
  {
    if es == [] {
    } else {
      var init, last := es[..|es| - 1], es[|es| - 1];
      InRecords(init, r);
      assert es == init + [last];
    }
  }

  // The same values with every location erased.

  function StripField(f: Field): Field { f.(at := NOWHERE) }

  function StripElem(e: Elem): Elem {
    match e
    case FieldElem(f) => FieldElem(StripField(f))
    case CommentElem(t) => e
  }

  function StripElems(es: seq<Elem>): seq<Elem> { seq(|es|, i requires 0 <= i < |es| => StripElem(es[i])) }

  function StripRecord(r: Record): Record { Record(StripElems(r.elems), NOWHERE) }

  function StripRsetElem(e: RsetElem): RsetElem {
    match e
    case RecordElem(r) => RecordElem(StripRecord(r))
    case NoteElem(_) => e
  }

  function StripRsetElems(es: seq<RsetElem>): seq<RsetElem> {
    seq(|es|, i requires 0 <= i < |es| => StripRsetElem(es[i]))
  }

  function StripDescriptor(d: Option<Record>): Option<Record> {
    match d
    case None => None
    case Some(r) => Some(StripRecord(r))
  }

  function StripRset(r: Rset): Rset {
    Rset(StripDescriptor(r.descriptor), r.descriptorPos, StripRsetElems(r.elems))
  }

  function StripDb(db: Db): Db { seq(|db|, i requires 0 <= i < |db| => StripRset(db[i])) }

  lemma StripElemsSnoc(es: seq<Elem>, e: Elem)
    ensures StripElems(es + [e]) == StripElems(es) + [StripElem(e)]
  {
  }

  lemma StripRsetElemsSnoc(es: seq<RsetElem>, e: RsetElem)
    ensures StripRsetElems(es + [e]) == StripRsetElems(es) + [StripRsetElem(e)]
  {
  }

  lemma NumRecordsSnoc(es: seq<RsetElem>, e: RsetElem)
    ensures NumRecords(es + [e]) == NumRecords(es) + if e.RecordElem? then 1 else 0
  {
    assert (es + [e])[..|es|] == es;
  }

  lemma {:induction false} NumRecordsStrip(es: seq<RsetElem>)
    ensures NumRecords(StripRsetElems(es)) == NumRecords(es)
  {
    if es == [] {
    } else {
      var init, last := es[..|es| - 1], es[|es| - 1];
      assert es == init + [last];
      NumRecordsStrip(init);
      StripRsetElemsSnoc(init, last);
      NumRecordsSnoc(StripRsetElems(init), StripRsetElem(last));
    }
  }

  /** Erasing locations hides nothing from a lookup by name. */
  lemma HasFieldStrip(r: Record, name: string)
    ensures HasField(StripRecord(r), name) <==> HasField(r, name)
  {
    forall i | 0 <= i < |r.elems|
      ensures Named(StripRecord(r).elems[i], name) <==> Named(r.elems[i], name)
    {
    }
    if HasField(r, name) {
      var i :| 0 <= i < |r.elems| && Named(r.elems[i], name);
      assert Named(StripRecord(r).elems[i], name);
    }
  }
}
