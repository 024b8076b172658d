/** The rec writer in its normal mode (src/rec-writer.c): the text of each kind of value as a
    function, and the writing routines, which append exactly that text to a buffer. */
module RecWriter {
  import opened RecData
  import opened RecBuf

  /** A comment line starts with a hash, so each newline of the text is followed by one. */
  function HashLines(text: string): string {
    if text == "" then ""
    else (if text[0] == '\n' then "\n#" else [text[0]]) + HashLines(text[1..])
  }

  function CommentText(text: string): string { "#" + HashLines(text) }

  /** A newline of a value is written as a continuation line. */
  function Escaped(value: string): string {
    if value == "" then ""
    else (if value[0] == '\n' then "\n+ " else [value[0]]) + Escaped(value[1..])
  }

  function FieldText(f: Field): string {
    f.name + ":" + if f.value == "" then "" else " " + Escaped(f.value)
  }

  function ElemText(e: Elem): string {
    match e
    case FieldElem(f) => FieldText(f)
    case CommentElem(t) => CommentText(t)
  }

  /** Elements `i` and following of a record, one newline between two of them. */
  function ElemsText(es: seq<Elem>, i: nat): string
    requires i <= |es|
    decreases |es| - i
  {
    if i == |es| then ""
    else if i + 1 == |es| then ElemText(es[i])
    else ElemText(es[i]) + "\n" + ElemsText(es, i + 1)
  }

  function RecordText(r: Record): string { ElemsText(r.elems, 0) }

  function RsetElemText(e: RsetElem): string {
    match e
    case RecordElem(r) => RecordText(r)
    case NoteElem(t) => CommentText(t)
  }

  /** What precedes element `i` of a set: a blank line, and the descriptor at its position. */
  function Lead(r: Rset, i: nat): string {
    (if i == 0 then "" else "\n")
    + if r.descriptor.Some? && r.descriptorPos == i then RecordText(r.descriptor.value) + "\n\n" else ""
  }

  function RsetFrom(r: Rset, i: nat): string
    requires i <= |r.elems|
    decreases |r.elems| - i
  {
    if i < |r.elems| then Lead(r, i) + RsetElemText(r.elems[i]) + "\n" + RsetFrom(r, i + 1)
    else if r.descriptor.Some? && r.descriptorPos >= |r.elems| then
      "\n" + RecordText(r.descriptor.value) + "\n"
    else ""
  }

  function RsetText(r: Rset): string {
    if r.elems == [] && r.descriptor.Some? then RecordText(r.descriptor.value) + "\n"
    else RsetFrom(r, 0)
  }

  /** Sets `i` and following of a database, a newline between two of them. */
  function DbFrom(db: Db, i: nat): string
    requires i <= |db|
    decreases |db| - i
  {
    if i == |db| then ""
    else (if i == 0 then "" else "\n") + RsetText(db[i]) + DbFrom(db, i + 1)
  }

  function DbText(db: Db): string { DbFrom(db, 0) }

  lemma {:induction false} HashLinesConcat(a: string, b: string)
    ensures HashLines(a + b) == HashLines(a) + HashLines(b)
  {
    if a == "" {
      assert a + b == b;
    } else {
      assert (a + b)[1..] == a[1..] + b;
      HashLinesConcat(a[1..], b);
    }
  }

  lemma {:induction false} HashLinesPlain(a: string)
    requires '\n' !in a
    ensures HashLines(a) == a
  {
    if a == "" {
    } else {
      HashLinesPlain(a[1..]);
    }
  }

  lemma {:induction false} EscapedSnoc(a: string, c: char)
    ensures Escaped(a + [c]) == Escaped(a) + if c == '\n' then "\n+ " else [c]
  {
    if a == "" {
      assert Escaped([c]) == if c == '\n' then "\n+ " else [c];
    } else {
      assert (a + [c])[1..] == a[1..] + [c];
      EscapedSnoc(a[1..], c);
    }
  }

  /** Where the line that starts at `i` ends: at the next newline or at the end. */
  method LineEnd(text: string, i: nat) returns (j: nat)
    requires i <= |text|
    ensures i <= j <= |text| && '\n' !in text[i..j] && (j < |text| ==> text[j] == '\n')
  {
    j := i;
    while j < |text| && text[j] != '\n'
      invariant i <= j <= |text| && '\n' !in text[i..j]
    {
      j := j + 1;
    }
  }

  /** The part of a comment written before the line that starts at `start`. */
  ghost function Before(text: string, start: nat): string
    requires start <= |text|
  {
    if start == 0 then "" else CommentText(text[..start - 1])
  }

  method WriteComment(buf: Buf, text: string)
    requires buf.Valid()
    modifies buf, buf.data
    ensures buf.Valid() && (buf.data == old(buf.data) || fresh(buf.data))
    ensures buf.Contents() == old(buf.Contents()) + CommentText(text)
  {
    hide CommentText;
    var start := 0;
    while true
      invariant start <= |text| && (start > 0 ==> text[start - 1] == '\n')
      invariant buf.Valid() && (buf.data == old(buf.data) || fresh(buf.data))
      invariant buf.Contents() == old(buf.Contents()) + Before(text, start)
      decreases |text| - start
    {
      var end := LineEnd(text, start);
      WriteLine(buf, text, start, end, old(buf.Contents()));
      if end == |text| {
        assert text[..end] == text;
        return;
      }
      start := end + 1;
    }
  }

  method WriteLine(buf: Buf, text: string, start: nat, end: nat, ghost before: string)
    requires buf.Valid() && start <= end <= |text| && '\n' !in text[start..end]
    requires start > 0 ==> text[start - 1] == '\n'
    requires buf.Contents() == before + Before(text, start)
    modifies buf, buf.data
    ensures buf.Valid() && (buf.data == old(buf.data) || fresh(buf.data))
    ensures buf.Contents() == before + CommentText(text[..end])
  {
    hide CommentText;
    hide Before;
    LineWritten(text, start, end);
    if start != 0 {
      buf.PutC('\n');
    }
    buf.PutC('#');
    buf.PutS(text[start..end]);
    Regroup(before, Before(text, start), if start == 0 then "" else "\n", "#", text[start..end]);
  }

  lemma LineWritten(text: string, start: nat, end: nat)
    requires start <= end <= |text| && '\n' !in text[start..end]
    requires start > 0 ==> text[start - 1] == '\n'
    ensures CommentText(text[..end]) ==
            Before(text, start) + (if start == 0 then "" else "\n") + "#" + text[start..end]
  {
    HashLinesPlain(text[start..end]);
    if start > 0 {
      assert text[..end] == text[..start - 1] + ("\n" + text[start..end]);
      HashLinesConcat(text[..start - 1], "\n" + text[start..end]);
      assert ("\n" + text[start..end])[1..] == text[start..end];
    }
  }

  method WriteField(buf: Buf, f: Field)
    requires buf.Valid()
    modifies buf, buf.data
    ensures buf.Valid() && (buf.data == old(buf.data) || fresh(buf.data))
    ensures buf.Contents() == old(buf.Contents()) + FieldText(f)
  {
    buf.PutS(f.name);
    buf.PutC(':');
    if |f.value| > 0 {
      buf.PutC(' ');
    }
    WriteValue(buf, f.value);
  }

  method WriteValue(buf: Buf, value: string)
    requires buf.Valid()
    modifies buf, buf.data
    ensures buf.Valid() && (buf.data == old(buf.data) || fresh(buf.data))
    ensures buf.Contents() == old(buf.Contents()) + Escaped(value)
  {
    var pos := 0;
    while pos < |value|
      invariant pos <= |value|
      invariant buf.Valid() && (buf.data == old(buf.data) || fresh(buf.data))
      invariant buf.Contents() == old(buf.Contents()) + Escaped(value[..pos])
    {
      assert value[..pos + 1] == value[..pos] + [value[pos]];
      EscapedSnoc(value[..pos], value[pos]);
      if value[pos] == '\n' {
        buf.PutS("\n+ ");
      } else {
        buf.PutC(value[pos]);
      }
      pos := pos + 1;
    }
    assert value[..pos] == value;
  }

  method WriteRecord(buf: Buf, r: Record)
    requires buf.Valid()
    modifies buf, buf.data
    ensures buf.Valid() && (buf.data == old(buf.data) || fresh(buf.data))
    ensures buf.Contents() == old(buf.Contents()) + RecordText(r)
  {
    hide ElemText;
    var numElem := 0;
    while numElem < |r.elems|
      invariant numElem <= |r.elems|
      invariant buf.Valid() && (buf.data == old(buf.data) || fresh(buf.data))
      invariant buf.Contents() + ElemsText(r.elems, numElem) == old(buf.Contents()) + RecordText(r)
    {
      WriteElem(buf, r.elems, numElem);
      numElem := numElem + 1;
    }
    assert buf.Contents() + "" == buf.Contents();
  }

  method WriteElem(buf: Buf, es: seq<Elem>, i: nat)
    requires buf.Valid() && i < |es|
    modifies buf, buf.data
    ensures buf.Valid() && (buf.data == old(buf.data) || fresh(buf.data))
    ensures buf.Contents() + ElemsText(es, i + 1) == old(buf.Contents()) + ElemsText(es, i)
  {
    hide ElemText;
    WriteOne(buf, es[i]);
    if i != |es| - 1 {
      buf.PutC('\n');
      Regroup(old(buf.Contents()), ElemText(es[i]), "", "\n", ElemsText(es, i + 1));
    }
  }

  method WriteOne(buf: Buf, e: Elem)
    requires buf.Valid()
    modifies buf, buf.data
    ensures buf.Valid() && (buf.data == old(buf.data) || fresh(buf.data))
    ensures buf.Contents() == old(buf.Contents()) + ElemText(e)
  {
    match e {
      case FieldElem(f) => WriteField(buf, f);
      case CommentElem(t) => WriteComment(buf, t);
    }
  }

  method WriteRset(buf: Buf, r: Rset)
    requires buf.Valid()
    modifies buf, buf.data
    ensures buf.Valid() && (buf.data == old(buf.data) || fresh(buf.data))
    ensures buf.Contents() == old(buf.Contents()) + RsetText(r)
  {
    hide RecordText;
    hide Lead;
    hide RsetElemText;
    if |r.elems| == 0 && r.descriptor.Some? {
      WriteRecord(buf, r.descriptor.value);
      buf.PutC('\n');
      return;
    }
    var wroteDescriptor := false;
    var position := 0;
    while position < |r.elems|
      invariant position <= |r.elems|
      invariant buf.Valid() && (buf.data == old(buf.data) || fresh(buf.data))
      invariant wroteDescriptor <==> r.descriptor.Some? && r.descriptorPos < position
      invariant buf.Contents() + RsetFrom(r, position) == old(buf.Contents()) + RsetFrom(r, 0)
    {
      wroteDescriptor := WriteNth(buf, r, position, wroteDescriptor);
      position := position + 1;
    }
    if !wroteDescriptor && r.descriptorPos >= |r.elems| && r.descriptor.Some? {
      WriteLateDescriptor(buf, r.descriptor.value);
    } else {
      assert buf.Contents() + "" == buf.Contents();
    }
  }

  /** A descriptor whose position is past the last element. */
  method WriteLateDescriptor(buf: Buf, d: Record)
    requires buf.Valid()
    modifies buf, buf.data
    ensures buf.Valid() && (buf.data == old(buf.data) || fresh(buf.data))
    ensures buf.Contents() == old(buf.Contents()) + ("\n" + RecordText(d) + "\n")
  {
    hide RecordText;
    buf.PutC('\n');
    WriteRecord(buf, d);
    buf.PutC('\n');
  }

  method WriteNth(buf: Buf, r: Rset, position: nat, wrote: bool) returns (wrote': bool)
    requires buf.Valid() && position < |r.elems|
    requires wrote <==> r.descriptor.Some? && r.descriptorPos < position
    modifies buf, buf.data
    ensures buf.Valid() && (buf.data == old(buf.data) || fresh(buf.data))
    ensures wrote' <==> r.descriptor.Some? && r.descriptorPos < position + 1
    ensures buf.Contents() + RsetFrom(r, position + 1) == old(buf.Contents()) + RsetFrom(r, position)
  {
    hide Lead;
    hide RsetElemText;
    wrote' := WriteLead(buf, r, position, wrote);
    WriteRsetElem(buf, r, position);
    Regroup(old(buf.Contents()), Lead(r, position), RsetElemText(r.elems[position]), "\n", RsetFrom(r, position + 1));
  }

  lemma Regroup(a: string, b: string, c: string, d: string, e: string)
    ensures a + b + c + d + e == a + (b + c + d + e)
  {
  }

  method WriteLead(buf: Buf, r: Rset, position: nat, wrote: bool) returns (wrote': bool)
    requires buf.Valid() && position < |r.elems|
    requires wrote <==> r.descriptor.Some? && r.descriptorPos < position
    modifies buf, buf.data
    ensures buf.Valid() && (buf.data == old(buf.data) || fresh(buf.data))
    ensures wrote' <==> r.descriptor.Some? && r.descriptorPos < position + 1
    ensures buf.Contents() == old(buf.Contents()) + Lead(r, position)
  {
    hide RecordText;
    wrote' := wrote;
    if position != 0 {
      buf.PutC('\n');
    }
    if position == r.descriptorPos && r.descriptor.Some? {
      WriteRecord(buf, r.descriptor.value);
      buf.PutS("\n\n");
      wrote' := true;
    }
  }

  method WriteRsetElem(buf: Buf, r: Rset, position: nat)
    requires buf.Valid() && position < |r.elems|
    modifies buf, buf.data
    ensures buf.Valid() && (buf.data == old(buf.data) || fresh(buf.data))
    ensures buf.Contents() == old(buf.Contents()) + RsetElemText(r.elems[position]) + "\n"
  {
    hide RecordText;
    hide CommentText;
    match r.elems[position] {
      case RecordElem(record) => WriteRecord(buf, record);
      case NoteElem(text) => WriteComment(buf, text);
    }
    buf.PutC('\n');
  }

  method WriteDb(buf: Buf, db: Db)
    requires buf.Valid()
    modifies buf, buf.data
    ensures buf.Valid() && (buf.data == old(buf.data) || fresh(buf.data))
    ensures buf.Contents() == old(buf.Contents()) + DbText(db)
  {
    hide RsetText;
    var i := 0;
    while i < |db|
      invariant i <= |db|
      invariant buf.Valid() && (buf.data == old(buf.data) || fresh(buf.data))
      invariant buf.Contents() + DbFrom(db, i) == old(buf.Contents()) + DbText(db)
    {
      ghost var before := buf.Contents();
      if i != 0 {
        buf.PutC('\n');
      }
      WriteRset(buf, db[i]);
      assert buf.Contents() + DbFrom(db, i + 1) == before + DbFrom(db, i);
      i := i + 1;
    }
    assert buf.Contents() + "" == buf.Contents();
  }
}
