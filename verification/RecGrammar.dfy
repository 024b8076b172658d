/** What the rec parser recognises (src/rec-parser.c), as functions on the unread text.

    A result carries the value if there is one, the text left unread, and the end-of-file and
    error flags the parser is left with. Locations are not part of these values. */
module RecGrammar {
  import opened Wrappers
  import opened RecData

  datatype Error = NoError | EUngetc | EFname | EField | ERecord

  datatype Parsed<T> = Parsed(value: Option<T>, rest: string, eof: bool, error: Error)

  predicate IsDigit(c: char) { '0' <= c <= '9' }

  predicate IsLetter(c: char) { 'A' <= c <= 'Z' || 'a' <= c <= 'z' }

  predicate NameStart(c: char) { IsLetter(c) || c == '%' }

  predicate NameChar(c: char) { IsLetter(c) || IsDigit(c) || c == '_' }

  /** A field name: [a-zA-Z%][a-zA-Z0-9_]* */
  predicate ValidName(name: string) {
    name != "" && NameStart(name[0]) && forall i :: 1 <= i < |name| ==> NameChar(name[i])
  }

  predicate IsBlank(c: char) { c == ' ' || c == '\t' }

  /** After the colon one blank is skipped; anything else belongs to the value. */
  function AfterColon(name: string, s: string): Parsed<string> {
    if s == "" then Parsed(Some(name), "", true, NoError)
    else if IsBlank(s[0]) then Parsed(Some(name), s[1..], false, NoError)
    else Parsed(Some(name), s, false, NoError)
  }

  function NameTail(s: string, acc: string): (r: Parsed<string>)
    ensures |r.rest| <= |s| && (r.eof ==> r.rest == "")
    ensures r.value.Some? ==> |r.rest| < |s| && r.error == NoError
    decreases |s|
  {
    if s == "" then Parsed(None, "", true, EFname)
    else if NameChar(s[0]) then NameTail(s[1..], acc + [s[0]])
    else if s[0] == ':' then AfterColon(acc, s[1..])
    else Parsed(None, s[1..], false, EFname)
  }

  /** `rec_parse_field_name` */
  function ParseName(s: string): (r: Parsed<string>)
    ensures |r.rest| <= |s| && (r.eof ==> r.rest == "")
    ensures r.value.Some? ==> |r.rest| < |s| && r.error == NoError
  {
    if s == "" then Parsed(None, "", true, NoError)
    else if NameStart(s[0]) then NameTail(s[1..], [s[0]])
    else Parsed(None, s[1..], false, EFname)
  }

  function DropLast(s: string): string
    requires s != ""
  {
    s[..|s| - 1]
  }

  /** The loop of `rec_parse_field_value`: `acc` is the buffer and `nl` says that its last
      character is a newline just read. */
  function ValueLoop(s: string, acc: string, nl: bool): (r: Parsed<string>)
    requires nl ==> acc != "" && acc[|acc| - 1] == '\n'
    ensures |r.rest| <= |s| && (r.eof ==> r.rest == "")
    ensures r.error == NoError && (r.value.None? ==> r.eof)
    ensures s != "" && !nl ==> |r.rest| < |s|
    decreases |s|
  {
    if s == "" then Parsed(Some(if nl then DropLast(acc) else acc), "", true, NoError)
    else if nl && s[0] != '+' then Parsed(Some(DropLast(acc)), s, false, NoError)
    else if s[0] == '\\' then
      if |s| == 1 then Parsed(None, "", true, NoError)
      else if s[1] == '\n' then ValueLoop(s[2..], acc, false)
      else ValueLoop(s[1..], acc + ['\\'], false)
    else if s[0] == '+' && nl then
      if |s| == 1 then Parsed(None, "", true, NoError)
      else if s[1] == ' ' then ValueLoop(s[2..], acc, false)
      else ValueLoop(s[1..], acc, false)
    else ValueLoop(s[1..], acc + [s[0]], s[0] == '\n')
  }

  /** One turn of that loop. */
  lemma ValueLoopStep(s: string, acc: string, nl: bool)
    requires nl ==> acc != "" && acc[|acc| - 1] == '\n'
    ensures ValueLoop(s, acc, nl) ==
            if s == "" then Parsed(Some(if nl then DropLast(acc) else acc), "", true, NoError)
            else if nl && s[0] != '+' then Parsed(Some(DropLast(acc)), s, false, NoError)
            else if s[0] == '\\' then
              if |s| == 1 then Parsed(None, "", true, NoError)
              else if s[1] == '\n' then ValueLoop(s[2..], acc, false)
              else ValueLoop(s[1..], acc + ['\\'], false)
            else if s[0] == '+' && nl then
              if |s| == 1 then Parsed(None, "", true, NoError)
              else if s[1] == ' ' then ValueLoop(s[2..], acc, false)
              else ValueLoop(s[1..], acc, false)
            else ValueLoop(s[1..], acc + [s[0]], s[0] == '\n')
  {
  }

  /** `rec_parse_field` */
  function ParseField(s: string): (r: Parsed<Field>)
    ensures |r.rest| <= |s| && (r.eof ==> r.rest == "")
    ensures r.value.Some? ==> |r.rest| < |s| && r.error == NoError
  {
    var name := ParseName(s);
    if name.value.None? then Parsed(None, name.rest, name.eof, name.error)
    else if name.eof then Parsed(None, name.rest, true, NoError)
    else
      var value := ValueLoop(name.rest, "", false);
      if value.value.None? then Parsed(None, value.rest, value.eof, value.error)
      else Parsed(Some(Field(name.value.value, value.value.value, NOWHERE)), value.rest, value.eof, NoError)
  }

  /** The loop of `rec_parse_comment`: lines starting with a hash are merged. */
  function CommentLoop(s: string, acc: string): (r: Parsed<string>)
    ensures r.value.Some? && r.error == NoError
    ensures |r.rest| <= |s| && (r.eof ==> r.rest == "")
    decreases |s|
  {
    if s == "" then Parsed(Some(acc), "", true, NoError)
    else if s[0] == '\n' then
      if |s| == 1 then Parsed(Some(acc), "", true, NoError)
      else if s[1] != '#' then Parsed(Some(acc), s[1..], false, NoError)
      else CommentLoop(s[2..], acc + ['\n'])
    else CommentLoop(s[1..], acc + [s[0]])
  }

  function SkipBlanks(s: string): (r: string)
    ensures |r| <= |s| && (r != "" ==> !IsBlank(r[0]))
  {
    if s != "" && IsBlank(s[0]) then SkipBlanks(s[1..]) else s
  }

  /** The loop of `rec_parse_record` after its first field. */
  function RecordTail(s: string, elems: seq<Elem>): (r: Parsed<Record>)
    ensures |r.rest| <= |s| && (r.eof ==> r.rest == "")
    ensures r.value.Some? <==> r.error == NoError
    decreases |s|
  {
    if s == "" then Parsed(Some(Record(elems, NOWHERE)), "", true, NoError)
    else if s[0] == '#' then
      var c := CommentLoop(s[1..], "");
      RecordTail(c.rest, elems + [CommentElem(c.value.value)])
    else if IsBlank(s[0]) then
      var b := SkipBlanks(s[1..]);
      if b == "" then Parsed(Some(Record(elems, NOWHERE)), "", true, NoError)
      else if b[0] == '\n' then Parsed(Some(Record(elems, NOWHERE)), b[1..], false, NoError)
      else Parsed(None, b[1..], false, EField)
    else if s[0] == '\n' then Parsed(Some(Record(elems, NOWHERE)), s[1..], false, NoError)
    else
      var f := ParseField(s);
      if f.value.None? then Parsed(None, f.rest, f.eof, EField)
      else RecordTail(f.rest, elems + [FieldElem(f.value.value)])
  }

  /** `rec_parse_record` */
  function ParseRecord(s: string): (r: Parsed<Record>)
    ensures |r.rest| <= |s| && (r.eof ==> r.rest == "")
    ensures r.value.Some? <==> r.error == NoError
    ensures r.value.Some? ==> |r.rest| < |s|
  {
    var f := ParseField(s);
    if f.value.None? then Parsed(None, f.rest, f.eof, EField)
    else RecordTail(f.rest, [FieldElem(f.value.value)])
  }

  /** A record set, and the descriptor that was read past its end. */
  datatype RsetParsed = RsetParsed(rset: Option<Rset>, pending: Option<Record>,
                                   rest: string, eof: bool, error: Error)

  /** A set counts if it has a descriptor or a record; lone comments are dropped. */
  predicate Keeps(r: Rset) { r.descriptor.Some? || NumRecords(r.elems) > 0 }

  function AddNote(r: Rset, text: string): Rset { r.(elems := r.elems + [NoteElem(text)]) }

  function AddRecord(r: Rset, record: Record): (r': Rset)
    ensures Keeps(r')
  {
    NumRecordsSnoc(r.elems, RecordElem(record));
    r.(elems := r.elems + [RecordElem(record)])
  }

  /** The loop of `rec_parse_rset`. */
  function RsetTail(s: string, r: Rset, comments: nat): (p: RsetParsed)
    ensures |p.rest| <= |s| && (p.eof ==> p.rest == "")
    ensures p.rset.Some? ==> p.error == NoError
    ensures p.pending.Some? ==> p.rset.Some? && |p.rest| < |s|
    ensures p.rset.Some? && |p.rest| == |s| ==> Keeps(r)
    decreases |s|
  {
    if s == "" then RsetParsed(if Keeps(r) then Some(r) else None, None, "", true, NoError)
    else if s[0] == '\n' || IsBlank(s[0]) then RsetTail(s[1..], r, comments)
    else if s[0] == '#' then
      var c := CommentLoop(s[1..], "");
      RsetTail(c.rest, AddNote(r, c.value.value), comments + 1)
    else
      var record := ParseRecord(s);
      if record.value.None? then RsetParsed(None, None, record.rest, record.eof, ERecord)
      else if !HasField(record.value.value, REC_NAME) then
        RsetTail(record.rest, AddRecord(r, record.value.value), comments)
      else if NumRecords(r.elems) == 0 && r.descriptor.None? then
        RsetTail(record.rest, r.(descriptor := record.value, descriptorPos := comments), comments)
      else RsetParsed(Some(r), record.value, record.rest, record.eof, NoError)
  }

  /** One turn of that loop. */
  lemma RsetTailStep(s: string, r: Rset, comments: nat)
    ensures RsetTail(s, r, comments) ==
            if s == "" then RsetParsed(if Keeps(r) then Some(r) else None, None, "", true, NoError)
            else if s[0] == '\n' || IsBlank(s[0]) then RsetTail(s[1..], r, comments)
            else if s[0] == '#' then
              var c := CommentLoop(s[1..], "");
              RsetTail(c.rest, AddNote(r, c.value.value), comments + 1)
            else
              var record := ParseRecord(s);
              if record.value.None? then RsetParsed(None, None, record.rest, record.eof, ERecord)
              else if !HasField(record.value.value, REC_NAME) then
                RsetTail(record.rest, AddRecord(r, record.value.value), comments)
              else if NumRecords(r.elems) == 0 && r.descriptor.None? then
                RsetTail(record.rest, r.(descriptor := record.value, descriptorPos := comments), comments)
              else RsetParsed(Some(r), record.value, record.rest, record.eof, NoError)
  {
  }

  /** `rec_parse_rset`: every success consumes input or uses up the pending descriptor. */
  function ParseRset(s: string, pending: Option<Record>): (p: RsetParsed)
    ensures |p.rest| <= |s| && (p.eof ==> p.rest == "")
    ensures p.rset.Some? ==> p.error == NoError
    ensures p.rset.Some? ==> |p.rest| < |s| || (pending.Some? && p.pending.None?)
  {
    RsetTail(s, Rset(pending, 0, []), 0)
  }

  datatype DbParsed = DbParsed(db: Db, rest: string, eof: bool, error: Error)

  /** The loop of `rec_parse_db`. */
  function DbLoop(s: string, pending: Option<Record>, db: Db): (d: DbParsed)
    decreases |s|, pending.Some?
  {
    var p := ParseRset(s, pending);
    if p.rset.None? then DbParsed(db, p.rest, p.eof, p.error)
    else DbLoop(p.rest, p.pending, db + [p.rset.value])
  }

  /** `rec_parse_db`, which reports success exactly when it got to the end of the input. */
  function ParseDb(s: string): DbParsed { DbLoop(s, None, []) }
}
