/** The writer and the parser are inverse to each other: what is written is read back, field
    by field, record by record, and for whole databases in canonical form. */
module RecRoundTrip {
  import opened Wrappers
  import opened RecData
  import opened RecGrammar
  import opened RecWriter

  /** No backslash stands just before a newline or at the end. */
  predicate Clean(v: string) {
    forall i :: 0 <= i < |v| && v[i] == '\\' ==> i + 1 < |v| && v[i + 1] != '\n'
  }

  // ----- fields

  lemma {:induction false} NameBack(name: string, t: string, acc: string)
    requires forall i :: 0 <= i < |name| ==> NameChar(name[i])
    ensures NameTail(name + ":" + t, acc) == AfterColon(acc + name, t)
    decreases |name|
  {
    var s := name + ":" + t;
    if name == "" {
      assert s[1..] == t && acc + name == acc;
    } else {
      assert s[1..] == name[1..] + ":" + t;
      NameBack(name[1..], t, acc + [name[0]]);
      assert acc + [name[0]] + name[1..] == acc + name;
    }
  }

  predicate NoPlus(u: string) { u == "" || u[0] != '+' }

  /** One written newline of a value is read as a newline. */
  lemma ContinuationBack(t: string, acc: string)
    ensures ValueLoop("\n+ " + t, acc, false) == ValueLoop(t, acc + ['\n'], false)
  {
    var s := "\n+ " + t;
    assert s[1..] == "+ " + t;
    assert s[1..][2..] == t;
  }

  /** A clean value is read back and what follows it is left unread. */
  lemma {:induction false} ValueBack(v: string, u: string, acc: string)
    requires Clean(v) && NoPlus(u)
    ensures ValueLoop(Escaped(v) + "\n" + u, acc, false) == Parsed(Some(acc + v), u, u == "", NoError)
    decreases |v|
  {
    var s := Escaped(v) + "\n" + u;
    if v == "" {
      assert s == "\n" + u && s[1..] == u;
      assert DropLast(acc + ['\n']) == acc == acc + v;
    } else {
      var rest := Escaped(v[1..]) + "\n" + u;
      assert Clean(v[1..]) by {
        assert forall i :: 0 <= i < |v[1..]| ==> v[1..][i] == v[i + 1];
      }
      ValueBack(v[1..], u, acc + [v[0]]);
      assert acc + [v[0]] + v[1..] == acc + v;
      if v[0] == '\n' {
        assert s == "\n+ " + rest;
        ContinuationBack(rest, acc);
      } else {
        assert s == [v[0]] + rest && s[1..] == rest;
        if v[0] == '\\' {
          assert rest[0] == v[1];
        }
      }
    }
  }

  /** Whatever is in the buffer stays at the front of the value. */
  lemma {:induction false} ValueKeepsPrefix(s: string, acc: string, nl: bool)
    requires nl ==> acc != "" && acc[|acc| - 1] == '\n'
    ensures var r := ValueLoop(s, acc, nl);
            r.value.Some? ==> acc <= r.value.value || (nl && r.value.value == DropLast(acc))
    decreases |s|
  {
    if s == "" || (nl && s[0] != '+') {
    } else if s[0] == '\\' {
      if |s| > 1 {
        if s[1] == '\n' {
          ValueKeepsPrefix(s[2..], acc, false);
        } else {
          ValueKeepsPrefix(s[1..], acc + ['\\'], false);
        }
      }
    } else if s[0] == '+' && nl {
      if |s| > 1 {
        if s[1] == ' ' {
          ValueKeepsPrefix(s[2..], acc, false);
        } else {
          ValueKeepsPrefix(s[1..], acc, false);
        }
      }
    } else {
      ValueKeepsPrefix(s[1..], acc + [s[0]], s[0] == '\n');
      assert DropLast(acc + [s[0]]) == acc;
    }
  }

  /** A backslash at the end of a value swallows the line end. */
  lemma BackslashLast(u: string, acc: string)
    ensures var r := ValueLoop("\\\n" + u, acc, false);
            && (r.value != Some(acc + "\\") || r.rest != u)
            && (u == "" || u[0] != '\\' ==> r.value != Some(acc + "\\"))
  {
    var s := "\\\n" + u;
    assert s[2..] == u;
    if u != "" && u[0] != '\\' {
      ValueKeepsPrefix(u[1..], acc + [u[0]], u[0] == '\n');
      assert DropLast(acc + [u[0]]) == acc;
      assert (acc + "\\")[|acc|] == '\\' && (acc + [u[0]])[|acc|] == u[0];
    }
  }

  /** A backslash before a newline swallows the continuation, whose plus stays. */
  lemma BackslashNewline(v: string, t: string, acc: string)
    requires v != "" && v[0] == '\\'
    ensures ValueLoop("\\\n+" + t, acc, false).value != Some(acc + v)
  {
    var s := "\\\n+" + t;
    assert s[2..] == "+" + t && s[2..][1..] == t;
    ValueKeepsPrefix(t, acc + ['+'], false);
    assert (acc + v)[|acc|] == '\\' && (acc + ['+'])[|acc|] == '+';
  }

  /** Any other character is read as it stands. */
  lemma CharBack(c: char, rest: string, acc: string)
    requires c != '\n' && (c == '\\' ==> rest != "" && rest[0] != '\n')
    ensures ValueLoop([c] + rest, acc, false) == ValueLoop(rest, acc + [c], false)
  {
    assert ([c] + rest)[1..] == rest;
  }

  /** So a value with such a backslash is not read back: either the value or the position
      differs, and it is the value unless a backslash follows. */
  lemma {:induction false} DirtyValueBack(v: string, u: string, acc: string)
    requires !Clean(v)
    ensures var r := ValueLoop(Escaped(v) + "\n" + u, acc, false);
            && (r.value != Some(acc + v) || r.rest != u)
            && (u == "" || u[0] != '\\' ==> r.value != Some(acc + v))
    decreases |v|
  {
    hide ValueLoop;
    var s := Escaped(v) + "\n" + u;
    var rest := Escaped(v[1..]) + "\n" + u;
    if v[0] == '\\' && |v| == 1 {
      assert v == "\\" && Escaped(v[1..]) == "";
      assert s == "\\\n" + u;
      BackslashLast(u, acc);
    } else if v[0] == '\\' && v[1] == '\n' {
      var t := " " + Escaped(v[2..]) + "\n" + u;
      assert v[1..][1..] == v[2..];
      assert s == "\\\n+" + t;
      BackslashNewline(v, t, acc);
    } else {
      assert acc + [v[0]] + v[1..] == acc + v;
      TailDirty(v);
      DirtyValueBack(v[1..], u, acc + [v[0]]);
      if v[0] == '\n' {
        assert s == "\n+ " + rest;
        ContinuationBack(rest, acc);
      } else {
        assert s == [v[0]] + rest;
        assert v[0] == '\\' ==> rest[0] == v[1];
        CharBack(v[0], rest, acc);
      }
    }
  }

  lemma TailDirty(v: string)
    requires !Clean(v) && v != ""
    requires v[0] == '\\' ==> |v| > 1 && v[1] != '\n'
    ensures !Clean(v[1..])
  {
    var i :| 0 <= i < |v| && v[i] == '\\' && !(i + 1 < |v| && v[i + 1] != '\n');
    assert v[1..][i - 1] == '\\';
  }

  lemma NameOfField(f: Field, u: string)
    requires ValidName(f.name)
    ensures var s := FieldText(f) + "\n" + u;
            var n := ParseName(s);
            n.value == Some(f.name) && !n.eof && n.rest == Escaped(f.value) + "\n" + u
  {
    var s := FieldText(f) + "\n" + u;
    var t := (if f.value == "" then "" else " " + Escaped(f.value)) + "\n" + u;
    assert s == f.name + ":" + t;
    assert s[1..] == f.name[1..] + ":" + t;
    NameBack(f.name[1..], t, [f.name[0]]);
    assert [f.name[0]] + f.name[1..] == f.name;
    if f.value == "" {
      assert t == Escaped(f.value) + "\n" + u;
    } else {
      assert t[1..] == Escaped(f.value) + "\n" + u;
    }
  }

  /** A written field followed by a newline and anything that is not a continuation is read
      back, and exactly that rest is left unread, if and only if no backslash of its value
      stands before a newline or at the end. */
  lemma FieldRoundTrip(f: Field, u: string)
    requires ValidName(f.name) && NoPlus(u)
    ensures ParseField(FieldText(f) + "\n" + u) == Parsed(Some(StripField(f)), u, u == "", NoError)
            <==> Clean(f.value)
  {
    hide ParseName;
    NameOfField(f, u);
    if Clean(f.value) {
      ValueBack(f.value, u, "");
      assert "" + f.value == f.value;
    } else {
      DirtyValueBack(f.value, u, "");
      assert "" + f.value == f.value;
    }
  }

  // ----- comments

  predicate NoHash(u: string) { u == "" || u[0] != '#' }

  lemma CommentStep(c: char, rest: string, acc: string)
    ensures c != '\n' ==> CommentLoop([c] + rest, acc) == CommentLoop(rest, acc + [c])
    ensures CommentLoop("\n#" + rest, acc) == CommentLoop(rest, acc + ['\n'])
    ensures NoHash(rest) ==> CommentLoop("\n" + rest, acc) == Parsed(Some(acc), rest, rest == "", NoError)
  {
    assert ([c] + rest)[1..] == rest && ("\n#" + rest)[2..] == rest && ("\n" + rest)[1..] == rest;
  }

  /** A written comment is read back, whatever its text. */
  lemma {:induction false} CommentBack(t: string, u: string, acc: string)
    requires NoHash(u)
    ensures CommentLoop(HashLines(t) + "\n" + u, acc) == Parsed(Some(acc + t), u, u == "", NoError)
    decreases |t|
  {
    hide CommentLoop;
    var s := HashLines(t) + "\n" + u;
    if t == "" {
      assert s == "\n" + u && acc + t == acc;
      CommentStep('\n', u, acc);
    } else {
      var rest := HashLines(t[1..]) + "\n" + u;
      CommentBack(t[1..], u, acc + [t[0]]);
      assert acc + [t[0]] + t[1..] == acc + t;
      assert s == (if t[0] == '\n' then "\n#" else [t[0]]) + rest;
      CommentStep(t[0], rest, acc);
    }
  }

  // ----- records

  predicate GoodElem(e: Elem) { e.FieldElem? ==> ValidName(e.field.name) && Clean(e.field.value) }

  /** What a record must be like to be read back: it starts with a field, no two comments
      are adjacent, names are valid and values clean. */
  predicate GoodElems(es: seq<Elem>) {
    && es != [] && es[0].FieldElem?
    && (forall i :: 0 <= i < |es| ==> GoodElem(es[i]))
    && (forall i {:trigger es[i]} :: 0 < i < |es| && es[i].CommentElem? ==> es[i - 1].FieldElem?)
  }

  /** The text after a record's last line: nothing, or a blank line. */
  predicate AtGap(u: string) { u == "" || u[0] == '\n' }

  /** The gap with its newline taken. */
  function Past(u: string): string { if u == "" then "" else u[1..] }

  /** Elements `i` and following, and the gap. */
  function ElemsThen(es: seq<Elem>, i: nat, u: string): string
    requires i <= |es|
  {
    if i == |es| then u else ElemsText(es, i) + "\n" + u
  }

  lemma ElemsThenStep(es: seq<Elem>, i: nat, u: string)
    requires i < |es|
    ensures ElemsThen(es, i, u) == ElemText(es[i]) + "\n" + ElemsThen(es, i + 1, u)
  {
  }

  /** What follows an element never looks like its continuation. */
  lemma ElemsThenFront(es: seq<Elem>, i: nat, u: string)
    requires GoodElems(es) && 0 < i <= |es| && AtGap(u)
    ensures var s := ElemsThen(es, i, u);
            NoPlus(s) && (es[i - 1].CommentElem? ==> NoHash(s))
  {
    if i < |es| {
      ElemsThenStep(es, i, u);
      assert GoodElem(es[i]);
      match es[i] {
        case FieldElem(f) => assert ElemText(es[i])[0] == f.name[0];
        case CommentElem(t) => assert ElemText(es[i])[0] == '#';
      }
    }
  }

  /** A field or a comment of a record, read and added. */
  lemma RecordTailStep(s: string, acc: seq<Elem>)
    requires s != "" && (NameStart(s[0]) || s[0] == '#')
    ensures RecordTail(s, acc) ==
            if s[0] == '#' then
              var c := CommentLoop(s[1..], "");
              RecordTail(c.rest, acc + [CommentElem(c.value.value)])
            else
              var f := ParseField(s);
              if f.value.None? then Parsed(None, f.rest, f.eof, EField)
              else RecordTail(f.rest, acc + [FieldElem(f.value.value)])
  {
    hide ParseField;
    hide SkipBlanks;
    hide CommentLoop;
  }

  lemma FieldFrontChar(f: Field, next: string)
    requires f.name != ""
    ensures var s := FieldText(f) + "\n" + next; s != "" && s[0] == f.name[0]
  {
    hide Escaped;
    assert FieldText(f)[0] == f.name[0];
  }

  lemma CommentFrontChar(t: string, next: string)
    ensures var s := CommentText(t) + "\n" + next; s != "" && s[0] == '#' && s[1..] == HashLines(t) + "\n" + next
  {
    hide HashLines;
    var s := CommentText(t) + "\n" + next;
    assert s == "#" + (HashLines(t) + "\n" + next);
  }

  /** An element of a record is read back and added. */
  lemma ElemBack(e: Elem, next: string, acc: seq<Elem>)
    requires GoodElem(e) && NoPlus(next) && (e.CommentElem? ==> NoHash(next))
    ensures RecordTail(ElemText(e) + "\n" + next, acc) == RecordTail(next, acc + [StripElem(e)])
  {
    hide ParseField;
    hide RecordTail;
    hide CommentLoop;
    hide FieldText;
    hide CommentText;
    hide Clean;
    var s := ElemText(e) + "\n" + next;
    match e {
      case FieldElem(f) =>
        FieldRoundTrip(f, next);
        FieldFrontChar(f, next);
      case CommentElem(t) =>
        CommentBack(t, next, "");
        CommentFrontChar(t, next);
        assert "" + t == t;
    }
    RecordTailStep(s, acc);
  }

  lemma {:induction false} RecordTailBack(es: seq<Elem>, i: nat, u: string, acc: seq<Elem>)
    requires GoodElems(es) && 0 < i <= |es| && AtGap(u)
    ensures RecordTail(ElemsThen(es, i, u), acc) == RecordTail(u, acc + StripElems(es)[i..])
    decreases |es| - i
  {
    hide RecordTail;
    hide ElemText;
    hide ElemsText;
    if i == |es| {
      assert acc + StripElems(es)[i..] == acc;
    } else {
      ElemsThenStep(es, i, u);
      ElemsThenFront(es, i + 1, u);
      assert GoodElem(es[i]);
      ElemBack(es[i], ElemsThen(es, i + 1, u), acc);
      RecordTailBack(es, i + 1, u, acc + [StripElem(es[i])]);
      assert acc + [StripElem(es[i])] + StripElems(es)[i + 1..] == acc + StripElems(es)[i..];
    }
  }

  predicate GoodRecord(r: Record) { GoodElems(r.elems) }

  /** A written record followed by a gap is read back and the blank line is taken. */
  lemma RecordRoundTrip(r: Record, u: string)
    requires GoodRecord(r) && AtGap(u)
    ensures ParseRecord(RecordText(r) + "\n" + u) == Parsed(Some(StripRecord(r)), Past(u), u == "", NoError)
  {
    hide ParseField;
    var es := r.elems;
    assert RecordText(r) + "\n" + u == ElemsThen(es, 0, u);
    ElemsThenStep(es, 0, u);
    ElemsThenFront(es, 1, u);
    assert GoodElem(es[0]);
    FieldRoundTrip(es[0].field, ElemsThen(es, 1, u));
    RecordTailBack(es, 1, u, [StripElem(es[0])]);
    assert [StripElem(es[0])] + StripElems(es)[1..] == StripElems(es);
  }

  // ----- record sets

  predicate GoodRsetElem(e: RsetElem) { e.RecordElem? ==> GoodRecord(e.record) && !HasField(e.record, REC_NAME) }

  predicate GoodDescriptor(r: Record) { GoodRecord(r) && HasField(r, REC_NAME) }

  /** A record set as a parser could have read it, first in a database or later. */
  predicate GoodRset(r: Rset, first: bool) {
    && (forall i :: 0 <= i < |r.elems| ==> GoodRsetElem(r.elems[i]))
    && match r.descriptor
       case None => first && r.descriptorPos == 0 && NumRecords(r.elems) > 0
       case Some(d) =>
         && GoodDescriptor(d)
         && if first then r.descriptorPos <= |r.elems| && forall i :: 0 <= i < r.descriptorPos ==> r.elems[i].NoteElem?
            else r.descriptorPos == 0
  }

  /** The canonical form: only descriptors hold %rec; a first set without a descriptor has a
      record, and only comments precede the descriptor of a first set; every later set
      starts with its descriptor. */
  predicate Canonical(db: Db) { forall i :: 0 <= i < |db| ==> GoodRset(db[i], i == 0) }

  lemma GapIgnored(u: string, r: Rset, c: nat)
    requires AtGap(u)
    ensures RsetTail(Past(u), r, c) == RsetTail(u, r, c)
  {
  }

  lemma NamedFront(r: Record, u: string)
    requires GoodRecord(r)
    ensures var s := RecordText(r) + "\n" + u; s != "" && NameStart(s[0])
  {
    assert GoodElem(r.elems[0]);
    var f := r.elems[0].field;
    ElemsThenStep(r.elems, 0, u);
    assert ElemText(r.elems[0])[0] == f.name[0];
  }

  function Comments(e: RsetElem): nat { if e.NoteElem? then 1 else 0 }

  /** What the set loop does with a record it can parse. */
  lemma RsetRecordStep(s: string, record: Record, u: string, acc: Rset, c: nat)
    requires s != "" && NameStart(s[0]) && AtGap(u)
    requires ParseRecord(s) == Parsed(Some(record), Past(u), u == "", NoError)
    ensures RsetTail(s, acc, c) ==
            if !HasField(record, REC_NAME) then RsetTail(u, AddRecord(acc, record), c)
            else if NumRecords(acc.elems) == 0 && acc.descriptor.None? then
              RsetTail(u, acc.(descriptor := Some(record), descriptorPos := c), c)
            else RsetParsed(Some(acc), Some(record), Past(u), u == "", NoError)
  {
    hide ParseRecord;
    hide CommentLoop;
    hide HasField;
    GapIgnored(u, AddRecord(acc, record), c);
    GapIgnored(u, acc.(descriptor := Some(record), descriptorPos := c), c);
  }

  lemma RsetNoteStep(t: string, u: string, acc: Rset, c: nat)
    requires AtGap(u)
    ensures RsetTail(CommentText(t) + "\n" + u, acc, c) == RsetTail(u, AddNote(acc, t), c + 1)
  {
    hide ParseRecord;
    hide CommentLoop;
    var s := CommentText(t) + "\n" + u;
    CommentBack(t, u, "");
    assert s[1..] == HashLines(t) + "\n" + u;
    assert "" + t == t;
  }

  /** An element of a set is read back and added. */
  lemma RsetElemBack(e: RsetElem, u: string, acc: Rset, c: nat)
    requires GoodRsetElem(e) && AtGap(u)
    ensures RsetTail(RsetElemText(e) + "\n" + u, acc, c) ==
            RsetTail(u, acc.(elems := acc.elems + [StripRsetElem(e)]), c + Comments(e))
  {
    hide RsetTail;
    hide RecordText;
    hide CommentText;
    hide GoodRecord;
    match e {
      case RecordElem(r) =>
        RecordRoundTrip(r, u);
        NamedFront(r, u);
        HasFieldStrip(r, REC_NAME);
        RsetRecordStep(RecordText(r) + "\n" + u, StripRecord(r), u, acc, c);
      case NoteElem(t) =>
        RsetNoteStep(t, u, acc, c);
    }
  }

  /** A descriptor becomes the descriptor of the set if the set has neither one nor a record,
      and otherwise ends the set and is handed on. */
  lemma DescriptorBack(d: Record, u: string, acc: Rset, c: nat)
    requires GoodDescriptor(d) && AtGap(u)
    ensures RsetTail(RecordText(d) + "\n" + u, acc, c) ==
            if NumRecords(acc.elems) == 0 && acc.descriptor.None? then
              RsetTail(u, acc.(descriptor := Some(StripRecord(d)), descriptorPos := c), c)
            else RsetParsed(Some(acc), Some(StripRecord(d)), Past(u), u == "", NoError)
  {
    hide RsetTail;
    hide RecordText;
    hide GoodRecord;
    RecordRoundTrip(d, u);
    NamedFront(d, u);
    HasFieldStrip(d, REC_NAME);
    RsetRecordStep(RecordText(d) + "\n" + u, StripRecord(d), u, acc, c);
  }

  /** Elements `i` and following of a set whose descriptor is behind, and then `v`. */
  function RsetThen(r: Rset, i: nat, v: string): string
    requires i <= |r.elems|
  {
    RsetFrom(r, i) + v
  }

  function CountComments(es: seq<RsetElem>, i: nat): nat
    requires i <= |es|
    decreases |es| - i
  {
    if i == |es| then 0 else Comments(es[i]) + CountComments(es, i + 1)
  }

  lemma StripSlice(acc: seq<RsetElem>, es: seq<RsetElem>, i: nat)
    requires i < |es|
    ensures acc + [StripRsetElem(es[i])] + StripRsetElems(es)[i + 1..] == acc + StripRsetElems(es)[i..]
  {
    hide StripRsetElem;
    assert StripRsetElems(es)[i..] == [StripRsetElem(es[i])] + StripRsetElems(es)[i + 1..];
  }

  /** With the descriptor behind, the remaining elements are all read back. */
  lemma {:induction false} RsetFromBack(r: Rset, i: nat, v: string, acc: Rset, c: nat)
    requires 0 < i <= |r.elems| && AtGap(v)
    requires forall j :: 0 <= j < |r.elems| ==> GoodRsetElem(r.elems[j])
    requires r.descriptor.Some? ==> r.descriptorPos < i
    ensures RsetTail(RsetThen(r, i, v), acc, c) ==
            RsetTail(v, acc.(elems := acc.elems + StripRsetElems(r.elems)[i..]), c + CountComments(r.elems, i))
    decreases |r.elems| - i
  {
    hide RsetElemText;
    hide RsetTail;
    hide GoodRsetElem;
    hide StripRsetElem;
    var es := r.elems;
    if i == |es| {
      assert RsetThen(r, i, v) == v;
      assert acc.elems + StripRsetElems(es)[i..] == acc.elems;
    } else {
      OneMoreBack(r, i, v, acc, c);
      StripSlice(acc.elems, es, i);
      RsetFromBack(r, i + 1, v, acc.(elems := acc.elems + [StripRsetElem(es[i])]), c + Comments(es[i]));
    }
  }

  lemma OneMoreBack(r: Rset, i: nat, v: string, acc: Rset, c: nat)
    requires 0 < i < |r.elems| && AtGap(v) && GoodRsetElem(r.elems[i])
    requires r.descriptor.Some? ==> r.descriptorPos < i
    ensures RsetTail(RsetThen(r, i, v), acc, c) ==
            RsetTail(RsetThen(r, i + 1, v), acc.(elems := acc.elems + [StripRsetElem(r.elems[i])]),
                c + Comments(r.elems[i]))
  {
    hide RsetElemText;
    hide RsetTail;
    hide GoodRsetElem;
    hide StripRsetElem;
    hide RsetThen;
    var u := RsetThen(r, i + 1, v);
    RsetThenGap(r, i + 1, v);
    RsetThenStep(r, i, v);
    SkipNewline(RsetElemText(r.elems[i]) + "\n" + u, acc, c);
    RsetElemBack(r.elems[i], u, acc, c);
  }

  lemma SkipNewline(s: string, r: Rset, c: nat)
    ensures RsetTail("\n" + s, r, c) == RsetTail(s, r, c)
  {
    assert ("\n" + s)[1..] == s;
  }

  lemma RsetThenStep(r: Rset, i: nat, v: string)
    requires 0 < i < |r.elems| && (r.descriptor.Some? ==> r.descriptorPos != i)
    ensures RsetThen(r, i, v) == "\n" + (RsetElemText(r.elems[i]) + "\n" + RsetThen(r, i + 1, v))
  {
    hide RsetElemText;
  }

  lemma RsetThenGap(r: Rset, i: nat, v: string)
    requires 0 < i <= |r.elems| && AtGap(v)
    ensures AtGap(RsetThen(r, i, v))
  {
  }
  /** What follows the descriptor's last line when elements `k` and following come after it. */
  function AfterDescriptor(r: Rset, k: nat, v: string): string
    requires k <= |r.elems|
  {
    if k < |r.elems| then "\n" + (RsetElemText(r.elems[k]) + "\n" + RsetThen(r, k + 1, v)) else v
  }

  /** The set with its first `k` elements behind and the rest added. */
  function Completed(acc: Rset, r: Rset, k: nat): Rset
    requires k <= |r.elems|
  {
    acc.(elems := acc.elems + StripRsetElems(r.elems)[k..])
  }

  lemma AfterDescriptorBack(r: Rset, k: nat, v: string, acc: Rset, c: nat)
    requires k <= |r.elems| && AtGap(v)
    requires forall j :: 0 <= j < |r.elems| ==> GoodRsetElem(r.elems[j])
    requires r.descriptor.Some? ==> r.descriptorPos <= k
    ensures RsetTail(AfterDescriptor(r, k, v), acc, c) ==
            RsetTail(v, Completed(acc, r, k), c + CountComments(r.elems, k))
    ensures AtGap(AfterDescriptor(r, k, v))
  {
    hide RsetTail;
    hide RsetElemText;
    hide RsetThen;
    if k == |r.elems| {
      assert acc.elems + StripRsetElems(r.elems)[k..] == acc.elems;
    } else {
      SkipNewline(RsetElemText(r.elems[k]) + "\n" + RsetThen(r, k + 1, v), acc, c);
      FirstElemBack(r, k, v, acc, c);
    }
  }

  /** Element `k` written without a leading blank line, and the ones after it. */
  lemma FirstElemBack(r: Rset, k: nat, v: string, acc: Rset, c: nat)
    requires k < |r.elems| && AtGap(v)
    requires forall j :: 0 <= j < |r.elems| ==> GoodRsetElem(r.elems[j])
    requires r.descriptor.Some? ==> r.descriptorPos <= k
    ensures RsetTail(RsetElemText(r.elems[k]) + "\n" + RsetThen(r, k + 1, v), acc, c) ==
            RsetTail(v, Completed(acc, r, k), c + CountComments(r.elems, k))
  {
    hide RsetTail;
    hide RsetElemText;
    RsetThenGap(r, k + 1, v);
    RsetElemBack(r.elems[k], RsetThen(r, k + 1, v), acc, c);
    var acc' := acc.(elems := acc.elems + [StripRsetElem(r.elems[k])]);
    RsetFromBack(r, k + 1, v, acc', c + Comments(r.elems[k]));
    assert acc'.elems + StripRsetElems(r.elems)[k + 1..] == acc.elems + StripRsetElems(r.elems)[k..];
  }

  const BLANK: Rset := Rset(None, 0, [])

  /** The state before the descriptor: the comments read so far. */
  function Notes(r: Rset, i: nat): Rset
    requires i <= |r.elems|
  {
    Rset(None, 0, StripRsetElems(r.elems)[..i])
  }

  lemma {:induction false} OnlyNotes(r: Rset, i: nat)
    requires i <= |r.elems| && forall j :: 0 <= j < i ==> r.elems[j].NoteElem?
    ensures NumRecords(Notes(r, i).elems) == 0
  {
    if i == 0 {
    } else {
      OnlyNotes(r, i - 1);
      assert StripRsetElems(r.elems)[..i] == StripRsetElems(r.elems)[..i - 1] + [StripRsetElem(r.elems[i - 1])];
      NumRecordsSnoc(StripRsetElems(r.elems)[..i - 1], StripRsetElem(r.elems[i - 1]));
    }
  }

  /** The comments before the descriptor of a first set. */
  lemma {:induction false} NotesBack(r: Rset, i: nat, v: string)
    requires r.descriptor.Some? && 0 < i <= r.descriptorPos <= |r.elems| && AtGap(v)
    requires forall j :: 0 <= j < r.descriptorPos ==> r.elems[j].NoteElem?
    ensures RsetTail(RsetThen(r, i, v), Notes(r, i), i) ==
            RsetTail(RsetThen(r, r.descriptorPos, v), Notes(r, r.descriptorPos), r.descriptorPos)
    decreases r.descriptorPos - i
  {
    hide RsetTail;
    hide RsetElemText;
    if i == r.descriptorPos {
    } else {
      RsetThenStep(r, i, v);
      SkipNewline(RsetElemText(r.elems[i]) + "\n" + RsetThen(r, i + 1, v), Notes(r, i), i);
      NoteBack(r, i, v);
      NotesBack(r, i + 1, v);
    }
  }

  lemma NoteBack(r: Rset, i: nat, v: string)
    requires i < |r.elems| && r.elems[i].NoteElem? && AtGap(v)
    ensures RsetTail(RsetElemText(r.elems[i]) + "\n" + RsetThen(r, i + 1, v), Notes(r, i), i) ==
            RsetTail(RsetThen(r, i + 1, v), Notes(r, i + 1), i + 1)
  {
    hide RsetTail;
    hide RsetElemText;
    RsetThenGap(r, i + 1, v);
    RsetElemBack(r.elems[i], RsetThen(r, i + 1, v), Notes(r, i), i);
    assert StripRsetElems(r.elems)[..i + 1] == StripRsetElems(r.elems)[..i] + [StripRsetElem(r.elems[i])];
  }

  /** From the descriptor of a first set to its end. */
  lemma AtDescriptorBack(r: Rset, v: string)
    requires GoodRset(r, true) && r.descriptor.Some? && AtGap(v)
    ensures var k := r.descriptorPos;
            RsetTail(RecordText(r.descriptor.value) + "\n" + AfterDescriptor(r, k, v), Notes(r, k), k) ==
            RsetTail(v, StripRset(r), k + CountComments(r.elems, k))
  {
    hide RsetTail;
    hide RecordText;
    hide AfterDescriptor;
    hide GoodDescriptor;
    var k := r.descriptorPos;
    var d := Some(StripRecord(r.descriptor.value));
    OnlyNotes(r, k);
    var acc := Notes(r, k).(descriptor := d, descriptorPos := k);
    AfterDescriptorBack(r, k, v, acc, k);
    DescriptorBack(r.descriptor.value, AfterDescriptor(r, k, v), Notes(r, k), k);
    assert StripRsetElems(r.elems)[..k] + StripRsetElems(r.elems)[k..] == StripRsetElems(r.elems);
  }

  /** The text of a set from its descriptor on, as the lemmas above have it. */
  lemma RsetThenAtDescriptor(r: Rset, v: string)
    requires r.descriptor.Some? && r.descriptorPos <= |r.elems|
    ensures var k := r.descriptorPos;
            var text := RecordText(r.descriptor.value) + "\n" + AfterDescriptor(r, k, v);
            if k == 0 then RsetText(r) + v == text else RsetThen(r, k, v) == "\n" + text
  {
    hide RecordText;
    hide RsetElemText;
  }

  /** A first set is read back whole. */
  lemma FirstRsetBack(r: Rset, v: string)
    requires GoodRset(r, true) && AtGap(v)
    ensures exists c: nat :: RsetTail(RsetText(r) + v, BLANK, 0) == RsetTail(v, StripRset(r), c)
  {
    hide RsetTail;
    hide RsetElemText;
    hide RecordText;
    match r.descriptor {
      case None =>
        assert r.elems != [];
        assert RsetText(r) + v == RsetElemText(r.elems[0]) + "\n" + RsetThen(r, 1, v);
        FirstElemBack(r, 0, v, BLANK, 0);
        assert Completed(BLANK, r, 0) == StripRset(r);
      case Some(d) =>
        RsetThenAtDescriptor(r, v);
        AtDescriptorBack(r, v);
        if r.descriptorPos == 0 {
          assert Notes(r, 0) == BLANK;
        } else {
          FirstNotesBack(r, v);
        }
    }
  }

  lemma FirstNotesBack(r: Rset, v: string)
    requires r.descriptor.Some? && 0 < r.descriptorPos <= |r.elems| && AtGap(v)
    requires forall j :: 0 <= j < r.descriptorPos ==> r.elems[j].NoteElem?
    ensures var k := r.descriptorPos;
            RsetTail(RsetText(r) + v, BLANK, 0) ==
            RsetTail(RecordText(r.descriptor.value) + "\n" + AfterDescriptor(r, k, v), Notes(r, k), k)
  {
    hide RsetTail;
    hide RsetElemText;
    hide RecordText;
    hide AfterDescriptor;
    var k := r.descriptorPos;
    assert RsetText(r) + v == RsetElemText(r.elems[0]) + "\n" + RsetThen(r, 1, v);
    assert Notes(r, 0) == BLANK;
    NoteBack(r, 0, v);
    NotesBack(r, 1, v);
    RsetThenAtDescriptor(r, v);
    SkipNewline(RecordText(r.descriptor.value) + "\n" + AfterDescriptor(r, k, v), Notes(r, k), k);
  }

  // ----- databases

  /** What is unread once the descriptor of set `k` has been read past its gap. */
  function Unread(db: Db, k: nat): string
    requires k < |db|
  {
    Past(AfterDescriptor(db[k], 0, DbFrom(db, k + 1)))
  }

  lemma DbFromGap(db: Db, k: nat)
    requires 0 < k <= |db|
    ensures AtGap(DbFrom(db, k))
  {
  }

  lemma DbFromStep(db: Db, k: nat)
    requires 0 < k <= |db|
    ensures DbFrom(db, k) == if k == |db| then "" else "\n" + (RsetText(db[k]) + DbFrom(db, k + 1))
  {
    hide RsetText;
  }

  /** The set starts with a descriptor that can be read back. */
  predicate LedByDescriptor(r: Rset) {
    r.descriptor.Some? && GoodDescriptor(r.descriptor.value) && r.descriptorPos == 0
  }

  lemma AfterDescriptorGap(r: Rset, k: nat, v: string)
    requires k <= |r.elems| && AtGap(v)
    ensures AtGap(AfterDescriptor(r, k, v))
  {
  }

  /** A complete set ends at the end of the text or at the next descriptor. */
  lemma RsetEnd(db: Db, k: nat, acc: Rset, c: nat)
    requires 0 < k <= |db| && (k < |db| ==> LedByDescriptor(db[k])) && Keeps(acc)
    ensures var p := RsetTail(DbFrom(db, k), acc, c);
            && p.rset == Some(acc)
            && if k == |db| then p.pending == None && p.rest == ""
               else p.pending == StripDescriptor(db[k].descriptor) && p.rest == Unread(db, k)
  {
    hide RsetTail;
    hide RecordText;
    hide AfterDescriptor;
    hide GoodDescriptor;
    hide RsetText;
    hide DbFrom;
    DbFromStep(db, k);
    RsetTailStep("", acc, c);
    if k < |db| {
      var r := db[k];
      var v := DbFrom(db, k + 1);
      DbFromGap(db, k + 1);
      RsetThenAtDescriptor(r, v);
      SkipNewline(RsetText(r) + v, acc, c);
      AfterDescriptorGap(r, 0, v);
      DescriptorBack(r.descriptor.value, AfterDescriptor(r, 0, v), acc, c);
    }
  }

  /** With its descriptor pending, a set is read back and the next descriptor handed on. */
  lemma NextSetRead(db: Db, k: nat)
    requires Canonical(db) && 0 < k < |db|
    ensures var p := ParseRset(Unread(db, k), StripDescriptor(db[k].descriptor));
            && p.rset == Some(StripRset(db[k]))
            && if k + 1 == |db| then p.pending == None && p.rest == ""
               else p.pending == StripDescriptor(db[k + 1].descriptor) && p.rest == Unread(db, k + 1)
  {
    hide RsetTail;
    hide DbFrom;
    hide AfterDescriptor;
    hide GoodDescriptor;
    var r := db[k];
    assert GoodRset(r, false) && (k + 1 < |db| ==> GoodRset(db[k + 1], false));
    var v := DbFrom(db, k + 1);
    var start := Rset(StripDescriptor(r.descriptor), 0, []);
    DbFromGap(db, k + 1);
    AfterDescriptorBack(r, 0, v, start, 0);
    GapIgnored(AfterDescriptor(r, 0, v), start, 0);
    assert Completed(start, r, 0) == StripRset(r);
    RsetEnd(db, k + 1, StripRset(r), CountComments(r.elems, 0));
  }

  /** Sets `k` and following, read with the descriptor of set `k` pending. */
  lemma {:induction false} DbLoopBack(db: Db, k: nat, acc: Db)
    requires Canonical(db) && 0 < k < |db|
    ensures DbLoop(Unread(db, k), StripDescriptor(db[k].descriptor), acc) ==
            DbParsed(acc + StripDb(db)[k..], "", true, NoError)
    decreases |db| - k, 0
  {
    hide ParseRset;
    hide Unread;
    hide StripRset;
    hide GoodRset;
    NextSetRead(db, k);
    assert StripDb(db)[k..] == [StripRset(db[k])] + StripDb(db)[k + 1..];
    DbLoopRest(db, k + 1, acc + [StripRset(db[k])]);
  }

  /** After a set: either the next one is pending, or the input is used up. */
  lemma DbLoopRest(db: Db, k: nat, acc: Db)
    requires Canonical(db) && 0 < k <= |db|
    ensures (if k == |db| then DbLoop("", None, acc)
             else DbLoop(Unread(db, k), StripDescriptor(db[k].descriptor), acc)) ==
            DbParsed(acc + StripDb(db)[k..], "", true, NoError)
    decreases |db| - k, 1
  {
    if k == |db| {
      assert acc + StripDb(db)[k..] == acc;
    } else {
      DbLoopBack(db, k, acc);
    }
  }

  /** Parsing the written form of a whole database in canonical form gives the database
      back: the same sets, descriptors and their positions, records, fields and comments. */
  lemma DbRoundTrip(db: Db)
    requires Canonical(db)
    ensures ParseDb(DbText(db)) == DbParsed(StripDb(db), "", true, NoError)
  {
    hide ParseRset;
    hide Unread;
    hide StripRset;
    hide GoodRset;
    hide DbText;
    if db == [] {
      NothingBack();
    } else {
      var first := [] + [StripRset(db[0])];
      FirstSetRead(db);
      assert first + StripDb(db)[1..] == StripDb(db);
      DbLoopRest(db, 1, first);
    }
  }

  lemma NothingBack()
    ensures ParseDb(DbText([])) == DbParsed([], "", true, NoError) && StripDb([]) == []
  {
  }

  lemma FirstSetRead(db: Db)
    requires Canonical(db) && db != []
    ensures var p := ParseRset(DbText(db), None);
            && p.rset == Some(StripRset(db[0]))
            && if |db| == 1 then p.pending == None && p.rest == ""
               else p.pending == StripDescriptor(db[1].descriptor) && p.rest == Unread(db, 1)
  {
    hide RsetTail;
    hide RsetText;
    hide Unread;
    var v := DbFrom(db, 1);
    DbFromGap(db, 1);
    assert GoodRset(db[0], true);
    FirstRsetBack(db[0], v);
    var c: nat :| RsetTail(RsetText(db[0]) + v, BLANK, 0) == RsetTail(v, StripRset(db[0]), c);
    NumRecordsStrip(db[0].elems);
    assert |db| > 1 ==> GoodRset(db[1], false);
    RsetEnd(db, 1, StripRset(db[0]), c);
    assert DbText(db) == RsetText(db[0]) + v;
  }
}
