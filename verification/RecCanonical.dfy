/** What the parser can produce: every parsed database is in canonical form except that a
    value may hold a backslash before a newline or at its end. */
module RecCanonical {
  import opened Wrappers
  import opened RecData
  import opened RecGrammar
  import opened RecWriter
  import opened RecRoundTrip

  predicate LooseElem(e: Elem) { e.FieldElem? ==> ValidName(e.field.name) && e.field.at == NOWHERE }

  predicate CleanElem(e: Elem) { e.FieldElem? ==> Clean(e.field.value) }

  predicate LooseElems(es: seq<Elem>) {
    && es != [] && es[0].FieldElem?
    && (forall i :: 0 <= i < |es| ==> LooseElem(es[i]))
    && (forall i {:trigger es[i]} :: 0 < i < |es| && es[i].CommentElem? ==> es[i - 1].FieldElem?)
  }

  predicate LooseRecord(r: Record) { LooseElems(r.elems) && r.at == NOWHERE }

  predicate CleanRecord(r: Record) { forall i :: 0 <= i < |r.elems| ==> CleanElem(r.elems[i]) }

  predicate LooseRsetElem(e: RsetElem) { e.RecordElem? ==> LooseRecord(e.record) && !HasField(e.record, REC_NAME) }

  predicate CleanRsetElem(e: RsetElem) { e.RecordElem? ==> CleanRecord(e.record) }

  predicate LooseDescriptor(d: Record) { LooseRecord(d) && HasField(d, REC_NAME) }

  predicate LooseRset(r: Rset, first: bool) {
    && (forall i :: 0 <= i < |r.elems| ==> LooseRsetElem(r.elems[i]))
    && match r.descriptor
       case None => first && r.descriptorPos == 0 && NumRecords(r.elems) > 0
       case Some(d) =>
         && LooseDescriptor(d)
         && if first then r.descriptorPos <= |r.elems| && forall i :: 0 <= i < r.descriptorPos ==> r.elems[i].NoteElem?
            else r.descriptorPos == 0
  }

  predicate CleanRset(r: Rset) {
    && (r.descriptor.Some? ==> CleanRecord(r.descriptor.value))
    && forall i :: 0 <= i < |r.elems| ==> CleanRsetElem(r.elems[i])
  }

  /** Every value of the database is free of a backslash before a newline or at the end. */
  predicate CleanDb(db: Db) { forall i :: 0 <= i < |db| ==> CleanRset(db[i]) }

  predicate LooseDb(db: Db) { forall i :: 0 <= i < |db| ==> LooseRset(db[i], i == 0) }

  // ----- what each routine can return

  lemma {:induction false} NameTailValid(s: string, acc: string)
    requires ValidName(acc)
    ensures NameTail(s, acc).value.Some? ==> ValidName(NameTail(s, acc).value.value)
    decreases |s|
  {
    if s != "" && NameChar(s[0]) {
      NameTailValid(s[1..], acc + [s[0]]);
    }
  }

  lemma FieldLoose(s: string)
    ensures ParseField(s).value.Some? ==> LooseElem(FieldElem(ParseField(s).value.value))
  {
    hide ValueLoop;
    if s != "" && NameStart(s[0]) {
      NameTailValid(s[1..], [s[0]]);
    }
  }

  lemma {:induction false} CommentStops(s: string, acc: string)
    ensures NoHash(CommentLoop(s, acc).rest)
    decreases |s|
  {
    if s == "" || s == "\n" {
    } else if s[0] == '\n' {
      if s[1] == '#' {
        CommentStops(s[2..], acc + ['\n']);
      }
    } else {
      CommentStops(s[1..], acc + [s[0]]);
    }
  }

  /** Comment lines that touch are one comment, so two comments are never adjacent. */
  lemma {:induction false} RecordTailLoose(s: string, es: seq<Elem>)
    requires LooseElems(es) && (es[|es| - 1].CommentElem? ==> NoHash(s))
    ensures var r := RecordTail(s, es); r.value.Some? ==> LooseRecord(r.value.value)
    decreases |s|
  {
    hide ParseField;
    hide CommentLoop;
    if s == "" {
    } else {
      if s[0] == '#' {
        var c := CommentLoop(s[1..], "");
        CommentStops(s[1..], "");
        assert LooseElems(es + [CommentElem(c.value.value)]);
        RecordTailLoose(c.rest, es + [CommentElem(c.value.value)]);
      } else if s[0] != '\n' && !IsBlank(s[0]) {
        var f := ParseField(s);
        FieldLoose(s);
        if f.value.Some? {
          assert LooseElems(es + [FieldElem(f.value.value)]);
          RecordTailLoose(f.rest, es + [FieldElem(f.value.value)]);
        }
      }
    }
  }

  lemma RecordLoose(s: string)
    ensures ParseRecord(s).value.Some? ==> LooseRecord(ParseRecord(s).value.value)
  {
    hide ParseField;
    FieldLoose(s);
    var f := ParseField(s);
    if f.value.Some? {
      RecordTailLoose(f.rest, [FieldElem(f.value.value)]);
    }
  }

  /** The set being built by the loop: complete but for the requirement that a set without a
      descriptor has a record. */
  predicate Building(r: Rset, first: bool, comments: nat) {
    && comments + NumRecords(r.elems) == |r.elems|
    && (forall i :: 0 <= i < |r.elems| ==> LooseRsetElem(r.elems[i]))
    && match r.descriptor
       case None => first && r.descriptorPos == 0
       case Some(d) =>
         && LooseDescriptor(d)
         && if first then r.descriptorPos <= |r.elems| && forall i :: 0 <= i < r.descriptorPos ==> r.elems[i].NoteElem?
            else r.descriptorPos == 0
  }

  lemma {:induction false} NumRecordsBound(es: seq<RsetElem>)
    ensures NumRecords(es) <= |es|
    ensures NumRecords(es) == 0 ==> forall i :: 0 <= i < |es| ==> es[i].NoteElem?
  {
    if es == [] {
    } else {
      NumRecordsBound(es[..|es| - 1]);
    }
  }

  lemma BuildingElem(r: Rset, first: bool, comments: nat, e: RsetElem)
    requires Building(r, first, comments) && LooseRsetElem(e)
    ensures Building(r.(elems := r.elems + [e]), first, comments + Comments(e))
  {
    hide LooseRsetElem;
    hide LooseDescriptor;
    NumRecordsSnoc(r.elems, e);
  }

  lemma {:induction false} RsetTailLoose(s: string, r: Rset, comments: nat, first: bool)
    requires Building(r, first, comments)
    ensures var p := RsetTail(s, r, comments);
            && (p.rset.Some? ==> LooseRset(p.rset.value, first))
            && (p.pending.Some? ==> LooseDescriptor(p.pending.value))
    decreases |s|
  {
    hide ParseRecord;
    hide CommentLoop;
    hide LooseRecord;
    hide HasField;
    hide RsetTail;
    RsetTailStep(s, r, comments);
    if s == "" {
    } else if s[0] == '\n' || IsBlank(s[0]) {
      RsetTailLoose(s[1..], r, comments, first);
    } else if s[0] == '#' {
      var c := CommentLoop(s[1..], "");
      BuildingElem(r, first, comments, NoteElem(c.value.value));
      RsetTailLoose(c.rest, AddNote(r, c.value.value), comments + 1, first);
    } else {
      var p := ParseRecord(s);
      RecordLoose(s);
      if p.value.Some? {
        if !HasField(p.value.value, REC_NAME) {
          BuildingElem(r, first, comments, RecordElem(p.value.value));
          RsetTailLoose(p.rest, AddRecord(r, p.value.value), comments, first);
        } else if NumRecords(r.elems) == 0 && r.descriptor.None? {
          NumRecordsBound(r.elems);
          RsetTailLoose(p.rest, r.(descriptor := p.value, descriptorPos := comments), comments, first);
        }
      }
    }
  }

  lemma {:induction false} DbLoopLoose(s: string, pending: Option<Record>, db: Db)
    requires LooseDb(db) && (pending.Some? ==> LooseDescriptor(pending.value))
    requires db != [] ==> pending.Some? || s == ""
    ensures LooseDb(DbLoop(s, pending, db).db)
    decreases |s|, pending.Some?
  {
    hide RsetTail;
    hide LooseRset;
    hide LooseDescriptor;
    var start := Rset(pending, 0, []);
    var p := ParseRset(s, pending);
    StartBuilding(pending, db == []);
    if db == [] || pending.Some? {
      RsetTailLoose(s, start, 0, db == []);
    }
    if p.rset.Some? {
      PendingOrEnd(s, start, 0);
      assert LooseDb(db + [p.rset.value]);
      DbLoopLoose(p.rest, p.pending, db + [p.rset.value]);
    }
  }

  lemma StartBuilding(pending: Option<Record>, first: bool)
    requires pending.Some? ==> LooseDescriptor(pending.value)
    ensures first || pending.Some? ==> Building(Rset(pending, 0, []), first, 0)
  {
    hide LooseDescriptor;
  }

  /** A set that is not followed by a pending descriptor was the last one. */
  lemma {:induction false} PendingOrEnd(s: string, r: Rset, comments: nat)
    ensures var p := RsetTail(s, r, comments); p.rset.Some? ==> p.pending.Some? || p.rest == ""
    decreases |s|
  {
    hide ParseRecord;
    hide CommentLoop;
    hide HasField;
    if s == "" {
    } else if s[0] == '\n' || IsBlank(s[0]) {
      PendingOrEnd(s[1..], r, comments);
    } else if s[0] == '#' {
      var c := CommentLoop(s[1..], "");
      PendingOrEnd(c.rest, AddNote(r, c.value.value), comments + 1);
    } else {
      var p := ParseRecord(s);
      if p.value.Some? {
        if !HasField(p.value.value, REC_NAME) {
          PendingOrEnd(p.rest, AddRecord(r, p.value.value), comments);
        } else if NumRecords(r.elems) == 0 && r.descriptor.None? {
          PendingOrEnd(p.rest, r.(descriptor := p.value, descriptorPos := comments), comments);
        }
      }
    }
  }

  // ----- the results

  lemma RecordGoodIff(r: Record)
    requires LooseRecord(r)
    ensures GoodRecord(r) <==> CleanRecord(r)
    ensures StripRecord(r) == r
  {
    assert forall i :: 0 <= i < |r.elems| ==> (GoodElem(r.elems[i]) <==>
        LooseElem(r.elems[i]) && CleanElem(r.elems[i]));
    forall i | 0 <= i < |r.elems|
      ensures StripElem(r.elems[i]) == r.elems[i]
    {
      assert LooseElem(r.elems[i]);
    }
    assert StripElems(r.elems) == r.elems;
  }

  lemma RsetElemGoodIff(e: RsetElem)
    requires LooseRsetElem(e)
    ensures GoodRsetElem(e) <==> CleanRsetElem(e)
    ensures StripRsetElem(e) == e
  {
    hide LooseRecord;
    hide GoodRecord;
    hide CleanRecord;
    if e.RecordElem? {
      RecordGoodIff(e.record);
    }
  }

  lemma RsetGoodIff(r: Rset, first: bool)
    requires LooseRset(r, first)
    ensures GoodRset(r, first) <==> CleanRset(r)
    ensures StripRset(r) == r
  {
    hide LooseRecord;
    hide GoodRecord;
    hide CleanRecord;
    if r.descriptor.Some? {
      RecordGoodIff(r.descriptor.value);
    }
    forall i | 0 <= i < |r.elems|
      ensures (GoodRsetElem(r.elems[i]) <==> CleanRsetElem(r.elems[i])) && StripRsetElem(r.elems[i]) == r.elems[i]
    {
      assert LooseRsetElem(r.elems[i]);
      RsetElemGoodIff(r.elems[i]);
    }
    assert StripRsetElems(r.elems) == r.elems;
  }

  /** Whatever text is parsed, the database is canonical exactly when its values are clean. */
  lemma ParsedIsCanonicalIff(text: string)
    ensures var db := ParseDb(text).db;
            StripDb(db) == db && (Canonical(db) <==> CleanDb(db))
  {
    hide LooseRset;
    hide CleanRset;
    hide GoodRset;
    var db := ParseDb(text).db;
    DbLoopLoose(text, None, []);
    forall i | 0 <= i < |db|
      ensures (GoodRset(db[i], i == 0) <==> CleanRset(db[i])) && StripRset(db[i]) == db[i]
    {
      assert LooseRset(db[i], i == 0);
      RsetGoodIff(db[i], i == 0);
    }
    assert StripDb(db) == db;
  }

  /** So writing out a parsed database and parsing it again changes nothing if the values
      are clean, whatever layout the original text had. */
  lemma ReparseClean(text: string)
    requires CleanDb(ParseDb(text).db)
    ensures ParseDb(DbText(ParseDb(text).db)) == DbParsed(ParseDb(text).db, "", true, NoError)
  {
    hide ParseDb;
    hide DbText;
    hide CleanDb;
    ParsedIsCanonicalIff(text);
    DbRoundTrip(ParseDb(text).db);
  }

  /** The parser stops short of the end of its input only on an error. */
  lemma {:induction false} StopsOnlyOnError(s: string, pending: Option<Record>, db: Db)
    ensures var d := DbLoop(s, pending, db); d.error == NoError ==> d.eof && d.rest == ""
    decreases |s|, pending.Some?
  {
    var p := ParseRset(s, pending);
    RsetEofOrError(s, Rset(pending, 0, []), 0);
    if p.rset.Some? {
      StopsOnlyOnError(p.rest, p.pending, db + [p.rset.value]);
    }
  }

  lemma {:induction false} RsetEofOrError(s: string, r: Rset, comments: nat)
    ensures var p := RsetTail(s, r, comments); p.rset.None? && p.error == NoError ==> p.eof
    decreases |s|
  {
    hide ParseRecord;
    hide CommentLoop;
    hide HasField;
    if s == "" {
    } else if s[0] == '\n' || IsBlank(s[0]) {
      RsetEofOrError(s[1..], r, comments);
    } else if s[0] == '#' {
      var c := CommentLoop(s[1..], "");
      RsetEofOrError(c.rest, AddNote(r, c.value.value), comments + 1);
    } else {
      var p := ParseRecord(s);
      if p.value.Some? {
        if !HasField(p.value.value, REC_NAME) {
          RsetEofOrError(p.rest, AddRecord(r, p.value.value), comments);
        } else if NumRecords(r.elems) == 0 && r.descriptor.None? {
          RsetEofOrError(p.rest, r.(descriptor := p.value, descriptorPos := comments), comments);
        }
      }
    }
  }

  /** The converse fails: `rec_parse_db` reports success on the text "a: \\" although the
      record was rejected, because it only asks whether the end was reached. */
  lemma SuccessDespiteError()
    ensures ParseDb("a: \\") == DbParsed([], "", true, ERecord)
  {
    var s := "a: \\";
    assert s[1..] == ": \\" && s[1..][1..] == " \\";
    assert NameTail(s[1..], "a") == Parsed(Some("a"), "\\", false, NoError);
    assert ParseField(s) == Parsed(None, "", true, NoError);
    assert ParseRecord(s) == Parsed(None, "", true, EField);
    assert RsetTail(s, Rset(None, 0, []), 0) == RsetParsed(None, None, "", true, ERecord);
  }
}
