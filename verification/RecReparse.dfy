/** Writing out a parsed database and parsing it again gives the same database exactly when no
    value has a backslash before a newline or at its end. This module proves the half that is
    about the values that do. */
module RecReparse {
  import opened Wrappers
  import opened RecData
  import opened RecGrammar
  import opened RecWriter
  import opened RecRoundTrip
  import opened RecCanonical

  // ----- what has been read stays

  lemma {:induction false} RecordTailKeeps(s: string, elems: seq<Elem>)
    ensures var r := RecordTail(s, elems); r.value.Some? ==> elems <= r.value.value.elems
    decreases |s|
  {
    hide ParseField;
    hide CommentLoop;
    hide SkipBlanks;
    if s == "" {
    } else {
      if s[0] == '#' {
        var c := CommentLoop(s[1..], "");
        RecordTailKeeps(c.rest, elems + [CommentElem(c.value.value)]);
      } else if !IsBlank(s[0]) && s[0] != '\n' {
        var f := ParseField(s);
        if f.value.Some? {
          RecordTailKeeps(f.rest, elems + [FieldElem(f.value.value)]);
        }
      }
    }
  }

  /** The set only grows, a descriptor stays, and none is taken once there is a record. */
  ghost predicate Grown(r: Rset, r': Rset) {
    && r.elems <= r'.elems
    && (r.descriptor.Some? || NumRecords(r.elems) > 0 ==> r'.descriptor == r.descriptor)
  }

  lemma {:induction false} RsetTailGrows(s: string, r: Rset, comments: nat)
    ensures var p := RsetTail(s, r, comments); p.rset.Some? ==> Grown(r, p.rset.value)
    decreases |s|
  {
    hide ParseRecord;
    hide CommentLoop;
    hide HasField;
    if s == "" {
    } else if s[0] == '\n' || IsBlank(s[0]) {
      RsetTailGrows(s[1..], r, comments);
    } else if s[0] == '#' {
      var c := CommentLoop(s[1..], "");
      NumRecordsSnoc(r.elems, NoteElem(c.value.value));
      RsetTailGrows(c.rest, AddNote(r, c.value.value), comments + 1);
    } else {
      var p := ParseRecord(s);
      if p.value.Some? {
        if !HasField(p.value.value, REC_NAME) {
          NumRecordsSnoc(r.elems, RecordElem(p.value.value));
          RsetTailGrows(p.rest, AddRecord(r, p.value.value), comments);
        } else if NumRecords(r.elems) == 0 && r.descriptor.None? {
          RsetTailGrows(p.rest, r.(descriptor := p.value, descriptorPos := comments), comments);
        }
      }
    }
  }

  lemma {:induction false} DbLoopKeeps(s: string, pending: Option<Record>, db: Db)
    ensures db <= DbLoop(s, pending, db).db
    ensures pending.Some? ==>
              var d := DbLoop(s, pending, db).db; |d| > |db| ==> d[|db|].descriptor == pending
    decreases |s|, pending.Some?
  {
    hide RsetTail;
    var p := ParseRset(s, pending);
    RsetTailGrows(s, Rset(pending, 0, []), 0);
    if p.rset.Some? {
      DbLoopKeeps(p.rest, p.pending, db + [p.rset.value]);
    }
  }

  // ----- fields and records

  /** What follows an element starts with a name, a hash or a blank line. */
  predicate Plain(u: string) { u == "" || (u[0] != '+' && u[0] != '\\') }

  lemma FieldDiffers(f: Field, u: string)
    requires ValidName(f.name) && !Clean(f.value) && Plain(u)
    ensures ParseField(FieldText(f) + "\n" + u).value != Some(StripField(f))
  {
    hide ParseName;
    NameOfField(f, u);
    DirtyValueBack(f.value, u, "");
    assert "" + f.value == f.value;
  }

  lemma LooseFront(es: seq<Elem>, i: nat, u: string)
    requires LooseElems(es) && 0 < i <= |es| && AtGap(u)
    ensures var s := ElemsThen(es, i, u);
            Plain(s) && (es[i - 1].CommentElem? ==> NoHash(s))
  {
    if i < |es| {
      ElemsThenStep(es, i, u);
      assert LooseElem(es[i]);
      match es[i] {
        case FieldElem(f) => assert ElemText(es[i])[0] == f.name[0];
        case CommentElem(t) => assert ElemText(es[i])[0] == '#';
      }
    }
  }

  /** A dirty field in the middle of a record spoils the record. */
  lemma ElemDiffers(es: seq<Elem>, i: nat, next: string)
    requires i < |es| && LooseElem(es[i]) && !CleanElem(es[i]) && Plain(next)
    ensures var r := RecordTail(ElemText(es[i]) + "\n" + next, es[..i]);
            r.value.Some? ==> r.value.value.elems != es
  {
    hide ParseField;
    hide SkipBlanks;
    hide CommentLoop;
    var f := es[i].field;
    var s := ElemText(es[i]) + "\n" + next;
    assert s[0] == f.name[0];
    FieldDiffers(f, next);
    var p := ParseField(s);
    if p.value.Some? {
      RecordTailKeeps(p.rest, es[..i] + [FieldElem(p.value.value)]);
    }
  }

  lemma {:induction false} ElemsDiffer(es: seq<Elem>, i: nat, u: string, j: nat)
    requires LooseElems(es) && 0 < i <= j < |es| && AtGap(u) && !CleanElem(es[j])
    ensures var r := RecordTail(ElemsThen(es, i, u), es[..i]);
            r.value.Some? ==> r.value.value.elems != es
    decreases |es| - i
  {
    hide RecordTail;
    hide ElemText;
    hide ElemsText;
    var next := ElemsThen(es, i + 1, u);
    ElemsThenStep(es, i, u);
    LooseFront(es, i + 1, u);
    assert LooseElem(es[i]);
    if CleanElem(es[i]) {
      ElemBack(es[i], next, es[..i]);
      assert es[..i] + [StripElem(es[i])] == es[..i + 1];
      ElemsDiffer(es, i + 1, u, j);
    } else {
      ElemDiffers(es, i, next);
    }
  }

  /** A record with a dirty value is not read back. */
  lemma RecordDiffers(r: Record, u: string)
    requires LooseRecord(r) && !CleanRecord(r) && AtGap(u)
    ensures ParseRecord(RecordText(r) + "\n" + u).value != Some(r)
  {
    hide ParseField;
    hide RecordTail;
    var es := r.elems;
    var next := ElemsThen(es, 1, u);
    assert RecordText(r) + "\n" + u == ElemsThen(es, 0, u);
    ElemsThenStep(es, 0, u);
    LooseFront(es, 1, u);
    assert LooseElem(es[0]);
    var f := es[0].field;
    if Clean(f.value) {
      FieldRoundTrip(f, next);
      var j :| 0 <= j < |es| && !CleanElem(es[j]);
      assert [FieldElem(f)] == es[..1];
      ElemsDiffer(es, 1, u, j);
    } else {
      FieldDiffers(f, next);
      var p := ParseField(ElemText(es[0]) + "\n" + next);
      if p.value.Some? {
        RecordTailKeeps(p.rest, [FieldElem(p.value.value)]);
      }
    }
  }

  // ----- record sets

  lemma LooseNamedFront(r: Record, u: string)
    requires LooseRecord(r)
    ensures var s := RecordText(r) + "\n" + u; s != "" && NameStart(s[0])
  {
    assert LooseElem(r.elems[0]);
    ElemsThenStep(r.elems, 0, u);
    assert ElemText(r.elems[0])[0] == r.elems[0].field.name[0];
  }

  /** What the set loop does where a record should start. */
  lemma RecordStep(s: string, acc: Rset, c: nat)
    requires s != "" && NameStart(s[0])
    ensures var p := ParseRecord(s);
            RsetTail(s, acc, c) ==
            if p.value.None? then RsetParsed(None, None, p.rest, p.eof, ERecord)
            else if !HasField(p.value.value, REC_NAME) then RsetTail(p.rest, AddRecord(acc, p.value.value), c)
            else if !Keeps(acc) then RsetTail(p.rest, acc.(descriptor := p.value, descriptorPos := c), c)
            else RsetParsed(Some(acc), p.value, p.rest, p.eof, NoError)
  {
    hide ParseRecord;
    hide CommentLoop;
    hide HasField;
  }

  /** A dirty record of a set spoils the set: it is dropped, changed, taken for the descriptor
      or ends the set early. */
  lemma RecordSpoils(r: Rset, i: nat, u: string, acc: Rset, c: nat)
    requires i < |r.elems| && r.elems[i].RecordElem? && AtGap(u)
    requires LooseRecord(r.elems[i].record) && !CleanRecord(r.elems[i].record)
    requires acc.elems == r.elems[..i] && acc.descriptor == r.descriptor
    ensures RsetTail(RecordText(r.elems[i].record) + "\n" + u, acc, c).rset != Some(r)
  {
    var x := r.elems[i].record;
    var s := RecordText(x) + "\n" + u;
    RecordDiffers(x, u);
    LooseNamedFront(x, u);
    hide ParseRecord;
    hide RecordText;
    hide RsetTail;
    hide HasField;
    hide LooseRecord;
    hide CleanRecord;
    RecordStep(s, acc, c);
    var p := ParseRecord(s);
    if p.value.Some? {
      RsetTailGrows(p.rest, AddRecord(acc, p.value.value), c);
      assert AddRecord(acc, p.value.value).elems[i] != r.elems[i];
      RsetTailGrows(p.rest, acc.(descriptor := p.value, descriptorPos := c), c);
    }
  }

  /** A dirty descriptor is not the one that its set gets. */
  lemma DescriptorSpoils(d: Record, u: string, acc: Rset, c: nat)
    requires LooseRecord(d) && !CleanRecord(d) && AtGap(u)
    ensures var p := RsetTail(RecordText(d) + "\n" + u, acc, c);
            p.rset.Some? ==>
              if Keeps(acc) then |p.rset.value.elems| > |acc.elems| || p.pending != Some(d)
              else p.rset.value.descriptor != Some(d)
  {
    var s := RecordText(d) + "\n" + u;
    RecordDiffers(d, u);
    LooseNamedFront(d, u);
    hide ParseRecord;
    hide RecordText;
    hide RsetTail;
    hide HasField;
    hide LooseRecord;
    hide CleanRecord;
    RecordStep(s, acc, c);
    var p := ParseRecord(s);
    if p.value.Some? {
      NumRecordsSnoc(acc.elems, RecordElem(p.value.value));
      RsetTailGrows(p.rest, AddRecord(acc, p.value.value), c);
      RsetTailGrows(p.rest, acc.(descriptor := p.value, descriptorPos := c), c);
    }
  }

  /** A set with a dirty record at `j` is not read back from its element `k` on. */
  lemma {:induction false} SetDiffers(r: Rset, k: nat, v: string, acc: Rset, c: nat, j: nat)
    requires k <= j < |r.elems| && AtGap(v) && !CleanRsetElem(r.elems[j])
    requires forall i :: 0 <= i < |r.elems| ==> LooseRsetElem(r.elems[i])
    requires r.descriptor.Some? ==> r.descriptorPos <= k
    requires acc.elems == r.elems[..k] && acc.descriptor == r.descriptor
    ensures RsetTail(RsetElemText(r.elems[k]) + "\n" + RsetThen(r, k + 1, v), acc, c).rset != Some(r)
    decreases |r.elems| - k
  {
    hide RsetTail;
    hide RecordText;
    hide LooseRecord;
    hide CleanRecord;
    hide RsetThen;
    var u := RsetThen(r, k + 1, v);
    RsetThenGap(r, k + 1, v);
    assert LooseRsetElem(r.elems[k]);
    if CleanRsetElem(r.elems[k]) {
      RsetElemGoodIff(r.elems[k]);
      RsetElemBack(r.elems[k], u, acc, c);
      var acc' := acc.(elems := acc.elems + [r.elems[k]]);
      RsetThenStep(r, k + 1, v);
      SkipNewline(RsetElemText(r.elems[k + 1]) + "\n" + RsetThen(r, k + 2, v), acc', c + Comments(r.elems[k]));
      SetDiffers(r, k + 1, v, acc', c + Comments(r.elems[k]), j);
    } else {
      RecordSpoils(r, k, u, acc, c);
    }
  }

  /** The same with the descriptor just read. */
  lemma AfterDescriptorDiffers(r: Rset, k: nat, v: string, acc: Rset, c: nat, j: nat)
    requires k <= j < |r.elems| && AtGap(v) && !CleanRsetElem(r.elems[j])
    requires forall i :: 0 <= i < |r.elems| ==> LooseRsetElem(r.elems[i])
    requires r.descriptor.Some? ==> r.descriptorPos <= k
    requires acc.elems == r.elems[..k] && acc.descriptor == r.descriptor
    ensures RsetTail(AfterDescriptor(r, k, v), acc, c).rset != Some(r)
    ensures AtGap(AfterDescriptor(r, k, v))
  {
    hide RsetTail;
    hide RsetElemText;
    hide RsetThen;
    hide LooseRsetElem;
    hide CleanRsetElem;
    SkipNewline(RsetElemText(r.elems[k]) + "\n" + RsetThen(r, k + 1, v), acc, c);
    SetDiffers(r, k, v, acc, c, j);
  }

  /** A first set with a dirty value is not read back. */
  lemma FirstSetDiffers(r: Rset, v: string)
    requires LooseRset(r, true) && !CleanRset(r) && AtGap(v)
    ensures RsetTail(RsetText(r) + v, BLANK, 0).rset != Some(r)
  {
    hide RsetTail;
    hide RsetElemText;
    hide RecordText;
    hide LooseRecord;
    hide CleanRecord;
    match r.descriptor {
      case None =>
        var j :| 0 <= j < |r.elems| && !CleanRsetElem(r.elems[j]);
        assert RsetText(r) + v == RsetElemText(r.elems[0]) + "\n" + RsetThen(r, 1, v);
        SetDiffers(r, 0, v, BLANK, 0, j);
      case Some(d) =>
        RsetThenAtDescriptor(r, v);
        if r.descriptorPos == 0 {
          assert Notes(r, 0) == BLANK;
        } else {
          FirstNotesBack(r, v);
        }
        OnlyNotes(r, r.descriptorPos);
        DescribedSetDiffers(r, v);
    }
  }

  /** From the descriptor of a first set on. */
  lemma DescribedSetDiffers(r: Rset, v: string)
    requires LooseRset(r, true) && r.descriptor.Some? && !CleanRset(r) && AtGap(v)
    ensures var k := r.descriptorPos;
            RsetTail(RecordText(r.descriptor.value) + "\n" + AfterDescriptor(r, k, v), Notes(r, k), k).rset != Some(r)
  {
    hide RsetTail;
    hide RecordText;
    hide AfterDescriptor;
    hide LooseRecord;
    hide CleanRecord;
    hide GoodRecord;
    hide HasField;
    var d, k := r.descriptor.value, r.descriptorPos;
    OnlyNotes(r, k);
    AfterDescriptorGap(r, k, v);
    if CleanRecord(d) {
      RecordGoodIff(d);
      RsetGoodIff(r, true);
      DescriptorBack(d, AfterDescriptor(r, k, v), Notes(r, k), k);
      var j :| 0 <= j < |r.elems| && !CleanRsetElem(r.elems[j]);
      AfterDescriptorDiffers(r, k, v, Notes(r, k).(descriptor := r.descriptor, descriptorPos := k), k, j);
    } else {
      DescriptorSpoils(d, AfterDescriptor(r, k, v), Notes(r, k), k);
    }
  }

  // ----- databases

  /** The loop over the sets once a set has been parsed. */
  function Onward(p: RsetParsed, db: Db): Db {
    if p.rset.None? then db else DbLoop(p.rest, p.pending, db + [p.rset.value]).db
  }

  /** A set that comes out different makes the database different. */
  lemma SetMatters(db: Db, k: nat, p: RsetParsed)
    requires k < |db| && p.rset != Some(db[k])
    ensures Onward(p, db[..k]) != db
  {
    hide DbLoop;
    if p.rset.Some? {
      DbLoopKeeps(p.rest, p.pending, db[..k] + [p.rset.value]);
    }
  }

  /** And so does a different descriptor for the next set. */
  lemma PendingMatters(db: Db, k: nat, p: RsetParsed)
    requires 0 < k < |db| && p.rset == Some(db[k - 1]) && p.pending != db[k].descriptor
    requires p.pending.Some? || p.rest == ""
    ensures Onward(p, db[..k - 1]) != db
  {
    assert db[..k - 1] + [db[k - 1]] == db[..k];
    DbLoopKeeps(p.rest, p.pending, db[..k]);
  }

  ghost predicate DirtyFrom(db: Db, k: nat) { exists m :: k <= m < |db| && !CleanRset(db[m]) }

  ghost predicate DirtyElem(r: Rset) { exists j :: 0 <= j < |r.elems| && !CleanRsetElem(r.elems[j]) }

  lemma LooseLater(db: Db, k: nat)
    requires LooseDb(db) && 0 < k < |db|
    ensures LooseRset(db[k], false) && db[k].descriptor.Some? && db[k].descriptorPos == 0
    ensures CleanRecord(db[k].descriptor.value) ==> LedByDescriptor(db[k])
    ensures StripDescriptor(db[k].descriptor) == db[k].descriptor
  {
    hide LooseRecord;
    hide CleanRecord;
    hide GoodRecord;
    hide HasField;
    assert LooseRset(db[k], false);
    RecordGoodIff(db[k].descriptor.value);
  }

  /** Set `k - 1` is complete and a dirty value follows. */
  lemma {:induction false} RestDiffers(db: Db, k: nat, c: nat)
    requires LooseDb(db) && 0 < k < |db| && DirtyFrom(db, k) && Keeps(db[k - 1])
    ensures Onward(RsetTail(DbFrom(db, k), db[k - 1], c), db[..k - 1]) != db
    decreases |db| - k, 1
  {
    hide RsetTail;
    hide DbLoop;
    hide Unread;
    hide DbFrom;
    hide LooseDb;
    hide LooseRset;
    hide CleanRecord;
    hide DirtyFrom;
    hide Keeps;
    hide LedByDescriptor;
    LooseLater(db, k);
    var acc := db[k - 1];
    var p := RsetTail(DbFrom(db, k), acc, c);
    if CleanRecord(db[k].descriptor.value) {
      RsetEnd(db, k, acc, c);
      assert db[..k - 1] + [acc] == db[..k];
      PendingDiffers(db, k);
    } else {
      NextDescriptorDiffers(db, k, acc, c);
      PendingOrEnd(DbFrom(db, k), acc, c);
      if p.rset == Some(acc) {
        PendingMatters(db, k, p);
      } else {
        SetMatters(db, k - 1, p);
      }
    }
  }

  lemma NextDescriptorDiffers(db: Db, k: nat, acc: Rset, c: nat)
    requires LooseDb(db) && 0 < k < |db| && Keeps(acc) && db[k].descriptor.Some?
    requires !CleanRecord(db[k].descriptor.value)
    ensures var p := RsetTail(DbFrom(db, k), acc, c); p.rset == Some(acc) ==> p.pending != db[k].descriptor
  {
    hide RsetTail;
    hide RecordText;
    hide AfterDescriptor;
    hide LooseRecord;
    hide CleanRecord;
    hide HasField;
    var r, v := db[k], DbFrom(db, k + 1);
    assert LooseRset(r, false);
    DbFromGap(db, k + 1);
    RsetThenAtDescriptor(r, v);
    assert DbFrom(db, k) == "\n" + (RsetText(r) + v);
    SkipNewline(RsetText(r) + v, acc, c);
    AfterDescriptorGap(r, 0, v);
    DescriptorSpoils(r.descriptor.value, AfterDescriptor(r, 0, v), acc, c);
  }

  /** With the descriptor of set `k` pending, the loop goes on to parse the set. */
  lemma PendingStep(db: Db, k: nat)
    requires LooseDb(db) && 0 < k < |db|
    ensures var start, u := Rset(db[k].descriptor, 0, []), AfterDescriptor(db[k], 0, DbFrom(db, k + 1));
            DbLoop(Unread(db, k), db[k].descriptor, db[..k]).db == Onward(RsetTail(u, start, 0), db[..k])
  {
    hide RsetTail;
    hide DbFrom;
    hide AfterDescriptor;
    hide LooseDb;
    DbFromGap(db, k + 1);
    AfterDescriptorGap(db[k], 0, DbFrom(db, k + 1));
    GapIgnored(AfterDescriptor(db[k], 0, DbFrom(db, k + 1)), Rset(db[k].descriptor, 0, []), 0);
  }

  /** The elements of a set whose records are clean are read back. */
  lemma CleanElemsBack(r: Rset, v: string)
    requires LooseRset(r, false) && !DirtyElem(r) && CleanRecord(r.descriptor.value) && AtGap(v)
    ensures RsetTail(AfterDescriptor(r, 0, v), Rset(r.descriptor, 0, []), 0) ==
        RsetTail(v, r, CountComments(r.elems, 0))
  {
    hide RsetTail;
    hide AfterDescriptor;
    hide LooseRecord;
    hide CleanRecord;
    hide HasField;
    hide GoodRecord;
    var start := Rset(r.descriptor, 0, []);
    RsetGoodIff(r, false);
    AfterDescriptorBack(r, 0, v, start, 0);
    assert Completed(start, r, 0) == r;
  }

  /** The descriptor of set `k` is pending and right, and a dirty value follows. */
  lemma {:induction false} PendingDiffers(db: Db, k: nat)
    requires LooseDb(db) && 0 < k < |db| && DirtyFrom(db, k) && db[k].descriptor.Some?
    requires CleanRecord(db[k].descriptor.value)
    ensures DbLoop(Unread(db, k), db[k].descriptor, db[..k]).db != db
    decreases |db| - k, 0
  {
    hide RsetTail;
    hide DbFrom;
    hide DbLoop;
    hide AfterDescriptor;
    hide Onward;
    hide Unread;
    hide LooseRsetElem;
    hide CleanRecord;
    LooseLater(db, k);
    PendingStep(db, k);
    hide LooseDb;
    var r, v := db[k], DbFrom(db, k + 1);
    var start := Rset(r.descriptor, 0, []);
    DbFromGap(db, k + 1);
    if DirtyElem(r) {
      var j :| 0 <= j < |r.elems| && !CleanRsetElem(r.elems[j]);
      AfterDescriptorDiffers(r, 0, v, start, 0, j);
      SetMatters(db, k, RsetTail(AfterDescriptor(r, 0, v), start, 0));
    } else {
      CleanElemsBack(r, v);
      assert DirtyFrom(db, k + 1);
      RestDiffers(db, k + 1, CountComments(r.elems, 0));
    }
  }

  /** A database of the form that parsing yields is read back from its written form exactly
      when its values are clean. */
  lemma LooseRoundTripIff(db: Db)
    requires LooseDb(db)
    ensures ParseDb(DbText(db)).db == db <==> CleanDb(db)
  {
    hide DbLoop;
    hide DbText;
    hide LooseRset;
    hide CleanRset;
    hide GoodRset;
    forall i | 0 <= i < |db|
      ensures (GoodRset(db[i], i == 0) <==> CleanRset(db[i])) && StripRset(db[i]) == db[i]
    {
      assert LooseRset(db[i], i == 0);
      RsetGoodIff(db[i], i == 0);
    }
    assert StripDb(db) == db;
    if CleanDb(db) {
      DbRoundTrip(db);
    } else {
      DirtyDbDiffers(db);
    }
  }

  lemma DirtyDbDiffers(db: Db)
    requires LooseDb(db) && DirtyFrom(db, 0)
    ensures ParseDb(DbText(db)).db != db
  {
    hide RsetTail;
    hide RsetText;
    var r, v := db[0], DbFrom(db, 1);
    DbFromGap(db, 1);
    assert LooseRset(r, true);
    assert DbText(db) == RsetText(r) + v;
    var p := RsetTail(RsetText(r) + v, BLANK, 0);
    assert ParseDb(DbText(db)).db == Onward(p, db[..0]);
    if CleanRset(r) {
      RsetGoodIff(r, true);
      FirstRsetBack(r, v);
      var c: nat :| p == RsetTail(v, r, c);
      assert DirtyFrom(db, 1);
      RestDiffers(db, 1, c);
    } else {
      FirstSetDiffers(r, v);
      SetMatters(db, 0, p);
    }
  }

  /** Writing out a parsed database and parsing it again gives the same database if and only if
      no value has a backslash before a newline or at its end, whatever the text was. */
  lemma ReparseIff(text: string)
    ensures var db := ParseDb(text).db; ParseDb(DbText(db)).db == db <==> CleanDb(db)
  {
    DbLoopLoose(text, None, []);
    hide LooseDb;
    hide CleanDb;
    hide DbText;
    LooseRoundTripIff(ParseDb(text).db);
  }

  /** Such values do arise: an escaped newline may stand between a backslash and the end of the
      line. The text "a: ", two backslashes and two newlines gives the value of one backslash,
      which is written as a line that no longer ends. */
  lemma DirtyValuesArise()
    ensures var db := ParseDb("a: \\\\\n\n").db; !CleanDb(db) && ParseDb(DbText(db)).db != db
  {
    hide ParseField;
    hide DbText;
    hide ParseDb;
    var text := "a: \\\\\n\n";
    BackslashRead();
    assert "\\"[0] == '\\' && !Clean("\\");
    OneRecord(text, Field("a", "\\", NOWHERE));
    ReparseIff(text);
  }

  lemma BackslashRead()
    ensures ParseField("a: \\\\\n\n") == Parsed(Some(Field("a", "\\", NOWHERE)), "", true, NoError)
  {
    var text := "a: \\\\\n\n";
    var t := "\\\\\n\n";
    assert text[1..] == ": " + t && text[1..][1..] == " " + t && text[1..][1..][1..] == t;
    assert ParseName(text) == Parsed(Some("a"), t, false, NoError);
    hide ParseName;
    assert t[1..] == "\\\n\n" && t[1..][2..] == "\n" && "\n"[1..] == "";
    assert DropLast("\\\n") == "\\" && "" + ['\\'] == "\\" && "\\" + ['\n'] == "\\\n";
    assert ValueLoop("", "\\\n", true) == Parsed(Some("\\"), "", true, NoError);
    assert ValueLoop("\n", "\\", false) == Parsed(Some("\\"), "", true, NoError);
    assert ValueLoop("\\\n\n", "\\", false) == Parsed(Some("\\"), "", true, NoError);
    assert ValueLoop(t, "", false) == Parsed(Some("\\"), "", true, NoError);
  }

  /** A text that is one field is a database of one record. */
  lemma OneRecord(text: string, f: Field)
    requires text != "" && NameStart(text[0]) && f.name != REC_NAME
    requires ParseField(text) == Parsed(Some(f), "", true, NoError)
    ensures ParseDb(text).db == [Rset(None, 0, [RecordElem(Record([FieldElem(f)], NOWHERE))])]
    ensures !Clean(f.value) ==> !CleanDb(ParseDb(text).db)
  {
    hide ParseField;
    hide CommentLoop;
    var r := Record([FieldElem(f)], NOWHERE);
    assert ParseRecord(text) == Parsed(Some(r), "", true, NoError);
    hide ParseRecord;
    var set_ := Rset(None, 0, [RecordElem(r)]);
    assert AddRecord(BLANK, r) == set_ && Keeps(set_);
    assert RsetTail("", set_, 0) == RsetParsed(Some(set_), None, "", true, NoError);
    assert !Named(r.elems[0], REC_NAME) && !HasField(r, REC_NAME);
    hide HasField;
    RecordStep(text, BLANK, 0);
    assert RsetTail(text, BLANK, 0) == RsetParsed(Some(set_), None, "", true, NoError);
    assert DbLoop("", None, [set_]).db == [set_];
    assert [] + [set_] == [set_];
    if !Clean(f.value) {
      assert !CleanElem(r.elems[0]);
      assert !CleanRsetElem(set_.elems[0]);
      assert !CleanRset([set_][0]);
    }
  }
}
