/** The stateful rec parser over a memory buffer (src/rec-parser.c): a character reader with
    one-character push-back, and the parsing routines, each proved to follow RecGrammar. */
module RecParser {
  import opened Wrappers
  import opened RecData
  import opened RecGrammar
  import opened RecBuf
  import Numbers

  /** The newlines before position `p`. */
  function Newlines(s: string, p: nat): nat
    requires p <= |s|
  {
    if p == 0 then 0 else Newlines(s, p - 1) + if s[p - 1] == '\n' then 1 else 0
  }

  /** The line and offset recorded for something that starts at position `p`. */
  function LocationAt(input: string, p: nat): Location
    requires p <= |input|
  {
    Location(1 + Newlines(input, p), if p == 0 then 0 else p + 1)
  }

  /** The recorded location of a field is where its name and colon stand in the input. */
  ghost predicate FieldLocated(f: Field, input: string) {
    exists p :: 0 <= p <= |input| && f.name + ":" <= input[p..] && f.at == LocationAt(input, p)
  }

  ghost predicate RecordLocated(r: Record, input: string) {
    && (forall i :: 0 <= i < |r.elems| && r.elems[i].FieldElem? ==> FieldLocated(r.elems[i].field, input))
    && exists p :: 0 <= p <= |input| && r.at == LocationAt(input, p)
  }

  ghost predicate RsetLocated(r: Rset, input: string) {
    && (r.descriptor.Some? ==> RecordLocated(r.descriptor.value, input))
    && forall i :: 0 <= i < |r.elems| && r.elems[i].RecordElem? ==> RecordLocated(r.elems[i].record, input)
  }

  /** A recognised name and its colon stand at the front of the text. */
  lemma {:induction false} NameTailFront(s: string, acc: string)
    ensures NameTail(s, acc).value.Some? ==> NameTail(s, acc).value.value + ":" <= acc + s
    decreases |s|
  {
    if s == "" {
    } else {
      if NameChar(s[0]) {
        NameTailFront(s[1..], acc + [s[0]]);
        assert acc + [s[0]] + s[1..] == acc + s;
      } else if s[0] == ':' {
        assert acc + ":" <= acc + s;
      }
    }
  }

  lemma FieldFront(s: string)
    ensures ParseField(s).value.Some? ==> ParseField(s).value.value.name + ":" <= s
  {
    if s != "" && NameStart(s[0]) {
      NameTailFront(s[1..], [s[0]]);
      assert [s[0]] + s[1..] == s;
    }
  }

  class Parser {
    const input: string
    var p: nat
    var eof: bool
    var error: Error
    var line: nat
    var character: nat
    var prevDescriptor: Option<Record>

    /** Over every run the statistics agree with the read position, end of file is only
        reported at the end, and no push-back has failed. */
    ghost predicate Valid()
      reads this
    {
      && p <= |input|
      && character == p
      && line == 1 + Newlines(input, p)
      && (eof ==> p == |input|)
      && error != EUngetc
    }

    ghost function Unread(): string
      requires p <= |input|
      reads this
    {
      input[p..]
    }

    /** The characters NUL and 0xFF are excluded: the first ends a C string, the second can
        be taken for the end of the file. */
    constructor (text: string)
      requires forall c :: c in text ==> c != '\0' && c != '\U{ff}'
      ensures Valid() && input == text && p == 0 && !eof && error == NoError && prevDescriptor == None
      ensures Unread() == text
    {
      input := text;
      p := 0;
      eof := false;
      error := NoError;
      line := 1;
      character := 0;
      prevDescriptor := None;
    }

    method GetC() returns (c: Option<char>)
      requires Valid()
      modifies this`p, this`eof, this`line, this`character
      ensures Valid()
      ensures old(p) == |input| ==> c == None && eof && p == old(p) && Unread() == ""
      ensures old(p) < |input| ==> c == Some(input[old(p)]) && p == old(p) + 1 && eof == old(eof)
      ensures old(p) < |input| ==> Unread() == old(Unread())[1..] && c == Some(old(Unread())[0])
    {
      if p == |input| {
        c := None;
        eof := true;
      } else {
        c := Some(input[p]);
        p := p + 1;
        character := character + 1;
        if c.value == '\n' {
          line := line + 1;
        }
      }
    }

    /** Pushing back the character just read undoes the read. At the very start of the
        buffer the push-back fails, after having spoilt the statistics. */
    method UngetC(c: char) returns (ok: bool)
      requires p <= |input|
      modifies this`p, this`error, this`line, this`character
      ensures ok <==> old(p) > 0
      ensures ok ==> p == old(p) - 1 && error == old(error)
      ensures old(Valid()) && old(p) > 0 && input[old(p) - 1] == c && !eof ==>
                Valid() && Unread() == [c] + old(Unread())
      ensures !ok ==> error == EUngetc && p == 0
      ensures !ok ==> character == if old(character) == 0 then Numbers.SIZE_MOD - 1 else old(character) - 1
    {
      character := if character == 0 then Numbers.SIZE_MOD - 1 else character - 1;
      if c == '\n' {
        line := if line == 0 then Numbers.SIZE_MOD - 1 else line - 1;
      }
      if p > 0 {
        ok := true;
        p := p - 1;
      } else {
        ok := false;
        error := EUngetc;
      }
    }

    /** What every push-back of the parser does: it undoes the read just made, and never
        fails. */
    method PushBack(c: char)
      requires Valid() && !eof && p > 0 && input[p - 1] == c
      modifies this`p, this`error, this`line, this`character
      ensures Valid() && p == old(p) - 1 && error == old(error)
    {
      var ok := UngetC(c);
      assert ok;
    }

    /** The parser is left as a result of RecGrammar says. */
    ghost predicate At(rest: string, atEof: bool, err: Error)
      reads this
    {
      Valid() && Unread() == rest && eof == atEof && error == err
    }

    ghost predicate Fresh()
      reads this
    {
      Valid() && !eof && error == NoError
    }

    method ParseName() returns (name: Option<string>)
      requires Valid()
      modifies this`p, this`eof, this`error, this`line, this`character
      ensures Valid()
      ensures !old(Fresh()) ==> name == None && unchanged(this)
      ensures old(Fresh()) ==>
                var r := RecGrammar.ParseName(old(Unread()));
                name == r.value && At(r.rest, r.eof, r.error)
    {
      if eof || error != NoError {
        return None;
      }
      var buf := new Buf();
      var c := GetC();
      if c == None {
        return None;
      }
      if !NameStart(c.value) {
        error := EFname;
        return None;
      }
      buf.PutC(c.value);
      assert buf.Contents() == [c.value];
      var ret := NameRest(buf);
      if !ret {
        return None;
      }
      var text := buf.Close();
      name := Some(text);
      c := GetC();
      if c != None && !IsBlank(c.value) {
        PushBack(c.value);
      }
    }

    /** The loop over the characters after the first one, up to and including the colon. */
    method NameRest(buf: Buf) returns (ret: bool)
      requires Fresh() && buf.Valid()
      modifies this`p, this`eof, this`error, this`line, this`character, buf, buf.data
      ensures buf.Valid() && (buf.data == old(buf.data) || fresh(buf.data))
      ensures var r := NameTail(old(Unread()), old(buf.Contents()));
              if ret then Fresh() && r == AfterColon(buf.Contents(), Unread())
              else r.value == None && At(r.rest, r.eof, r.error)
    {
      ghost var goal := NameTail(Unread(), buf.Contents());
      while true
        invariant Fresh() && buf.Valid() && (buf.data == old(buf.data) || fresh(buf.data))
        invariant NameTail(Unread(), buf.Contents()) == goal
        decreases |input| - p
      {
        var c := GetC();
        if c == None {
          error := EFname;
          return false;
        }
        if NameChar(c.value) {
          buf.PutC(c.value);
        } else if c.value == ':' {
          return true;
        } else {
          error := EFname;
          return false;
        }
      }
    }

    /** Both uses of the buffer's rewind take back a newline that really is the last
        character put. */
    method ParseValue() returns (value: Option<string>)
      requires Valid()
      modifies this`p, this`eof, this`error, this`line, this`character
      ensures Valid()
      ensures !old(Fresh()) ==> value == None && unchanged(this)
      ensures old(Fresh()) ==>
                var r := ValueLoop(old(Unread()), "", false);
                value == r.value && At(r.rest, r.eof, r.error)
    {
      if eof || error != NoError {
        return None;
      }
      var buf := new Buf();
      var ret := ValueRest(buf);
      if !ret {
        return None;
      }
      var text := buf.Close();
      return Some(text);
    }

    ghost predicate EndsInNewline(buf: Buf)
      requires buf.Valid()
      reads buf, buf.data
    {
      buf.Contents() != "" && buf.Contents()[|buf.Contents()| - 1] == '\n'
    }

    method TakeBackNewline(buf: Buf)
      requires buf.Valid() && EndsInNewline(buf)
      modifies buf
      ensures buf.Valid() && buf.data == old(buf.data) && buf.Contents() == DropLast(old(buf.Contents()))
    {
      buf.Rewind(1);
    }

    method ValueRest(buf: Buf) returns (ret: bool)
      requires Fresh() && buf.Valid() && buf.Contents() == ""
      modifies this`p, this`eof, this`error, this`line, this`character, buf, buf.data
      ensures buf.Valid()
      ensures var r := ValueLoop(old(Unread()), "", false);
              ret == r.value.Some? && (ret ==> buf.Contents() == r.value.value) && At(r.rest, r.eof, r.error)
    {
      hide Newlines;
      hide ValueLoop;
      ghost var goal := ValueLoop(Unread(), "", false);
      ghost var acc := "";
      var prevNewline := false;
      while true
        invariant Fresh() && buf.Valid() && (buf.data == old(buf.data) || fresh(buf.data))
        invariant acc == buf.Contents()
        invariant prevNewline ==> acc != "" && acc[|acc| - 1] == '\n'
        invariant ValueLoop(Unread(), acc, prevNewline) == goal
        decreases |input| - p
      {
        ghost var s := Unread();
        ValueLoopStep(s, acc, prevNewline);
        var c := GetC();
        if c == None {
          if prevNewline {
            TakeBackNewline(buf);
          }
          return true;
        }
        if prevNewline && c.value != '+' {
          PushBack(c.value);
          TakeBackNewline(buf);
          return true;
        }
        assert |s| > 1 ==> s[1..][1..] == s[2..];
        if c.value == '\\' {
          var ok := AfterBackslash(buf);
          if !ok {
            return false;
          }
          acc := buf.Contents();
          prevNewline := false;
        } else if c.value == '+' && prevNewline {
          var blank := Accept(' ');
          if blank == None {
            return false;
          }
          prevNewline := false;
        } else {
          buf.PutC(c.value);
          acc := acc + [c.value];
          prevNewline := c.value == '\n';
        }
      }
    }

    /** A backslash has been read: with the newline after it, it vanishes; otherwise it is
        an ordinary character. */
    method AfterBackslash(buf: Buf) returns (ok: bool)
      requires Fresh() && buf.Valid()
      modifies this`p, this`eof, this`error, this`line, this`character, buf, buf.data
      ensures buf.Valid() && (buf.data == old(buf.data) || fresh(buf.data))
      ensures var s := old(Unread());
              if s == "" then !ok && At("", true, NoError)
              else if s[0] == '\n' then ok && At(s[1..], false, NoError) && buf.Contents() == old(buf.Contents())
              else ok && At(s, false, NoError) && buf.Contents() == old(buf.Contents()) + ['\\']
    {
      var joined := Accept('\n');
      if joined == None {
        return false;
      }
      if !joined.value {
        buf.PutC('\\');
      }
      return true;
    }

    /** Read one character and push it back unless it is the wanted one; nothing to read
        is None. */
    method Accept(want: char) returns (found: Option<bool>)
      requires Fresh()
      modifies this`p, this`eof, this`error, this`line, this`character
      ensures var s := old(Unread());
              if s == "" then found == None && At("", true, NoError)
              else found == Some(s[0] == want) && At(if s[0] == want then s[1..] else s, false, NoError)
    {
      ghost var s := Unread();
      var c := GetC();
      if c == None {
        return None;
      }
      if c.value != want {
        PushBack(c.value);
      }
      return Some(c.value == want);
    }

    method ParseField() returns (field: Option<Field>)
      requires Valid()
      modifies this`p, this`eof, this`error, this`line, this`character
      ensures Valid()
      ensures !old(Fresh()) ==> field == None && unchanged(this)
      ensures old(Fresh()) ==>
                var r := RecGrammar.ParseField(old(Unread()));
                && field.Some? == r.value.Some? && At(r.rest, r.eof, r.error)
                && (field.Some? ==> StripField(field.value) == r.value.value
                                    && field.value.at == LocationAt(input, old(p)) && FieldLocated(field.value, input))
    {
      if eof || error != NoError {
        return None;
      }
      FieldFront(Unread());
      var location := line;
      var charLocation := character;
      if charLocation != 0 {
        charLocation := charLocation + 1;
      }
      var name := ParseName();
      if name == None {
        return None;
      }
      var value := ParseValue();
      if value == None {
        return None;
      }
      field := Some(Field(name.value, value.value, Location(location, charLocation)));
    }

    /** `rec_parse_comment`, called when a hash is next. */
    method ParseComment() returns (text: string)
      requires Fresh() && Unread() != "" && Unread()[0] == '#'
      modifies this`p, this`eof, this`error, this`line, this`character
      ensures var r := CommentLoop(old(Unread())[1..], "");
              text == r.value.value && At(r.rest, r.eof, NoError)
    {
      var buf := new Buf();
      var hash := GetC();
      ghost var goal := CommentLoop(Unread(), "");
      while true
        invariant Fresh() && buf.Valid() && fresh(buf) && fresh(buf.data)
        invariant CommentLoop(Unread(), buf.Contents()) == goal
        decreases |input| - p
      {
        var c := GetC();
        if c == None {
          break;
        }
        if c.value == '\n' {
          var c2 := GetC();
          if c2 == None {
            break;
          }
          if c2.value != '#' {
            PushBack(c2.value);
            break;
          }
          buf.PutC('\n');
        } else {
          buf.PutC(c.value);
        }
      }
      text := buf.Close();
    }

    method ParseRecord() returns (record: Option<Record>)
      requires Valid()
      modifies this`p, this`eof, this`error, this`line, this`character
      ensures Valid()
      ensures !old(Fresh()) ==> record == None && unchanged(this)
      ensures old(Fresh()) ==>
                var r := RecGrammar.ParseRecord(old(Unread()));
                && record.Some? == r.value.Some? && At(r.rest, r.eof, r.error)
                && (record.Some? ==> StripRecord(record.value) == r.value.value
                                     && record.value.at == LocationAt(input, old(p)) &&
                                         RecordLocated(record.value, input))
    {
      if eof || error != NoError {
        return None;
      }
      var at := Location(line, if character != 0 then character + 1 else 0);
      var field := ParseField();
      if field == None {
        error := EField;
        return None;
      }
      assert StripElems([FieldElem(field.value)]) == [FieldElem(StripField(field.value))];
      record := RecordRest([FieldElem(field.value)], at);
    }

    ghost predicate ElemsLocated(elems: seq<Elem>) {
      forall i :: 0 <= i < |elems| && elems[i].FieldElem? ==> FieldLocated(elems[i].field, input)
    }

    method RecordRest(first: seq<Elem>, at: Location) returns (record: Option<Record>)
      requires Valid() && error == NoError && ElemsLocated(first)
      modifies this`p, this`eof, this`error, this`line, this`character
      ensures var r := RecordTail(old(Unread()), StripElems(first));
              && record.Some? == r.value.Some? && At(r.rest, r.eof, r.error)
              && (record.Some? ==> StripRecord(record.value) == r.value.value
                                   && record.value.at == at && ElemsLocated(record.value.elems))
    {
      var elems := first;
      ghost var goal := RecordTail(Unread(), StripElems(elems));
      while true
        invariant Valid() && error == NoError && ElemsLocated(elems)
        invariant RecordTail(Unread(), StripElems(elems)) == goal
        decreases |input| - p
      {
        var done, ok, elems' := RecordTurn(elems);
        elems := elems';
        if done {
          return if ok then Some(Record(elems, at)) else None;
        }
      }
    }

    /** One turn of the record loop. */
    method RecordTurn(elems: seq<Elem>) returns (done: bool, ok: bool, elems': seq<Elem>)
      requires Valid() && error == NoError && ElemsLocated(elems)
      modifies this`p, this`eof, this`error, this`line, this`character
      ensures ElemsLocated(elems')
      ensures var goal := RecordTail(old(Unread()), StripElems(elems));
              if done then
                && At(goal.rest, goal.eof, goal.error)
                && goal.value == if ok then Some(Record(StripElems(elems'), NOWHERE)) else None
              else
                Valid() && error == NoError && p > old(p) && RecordTail(Unread(), StripElems(elems')) == goal
    {
      hide RecGrammar.ParseField;
      hide CommentLoop;
      hide SkipBlanks;
      hide Newlines;
      elems' := elems;
      var c := GetC();
      if c == None || c.value == '\n' {
        return true, true, elems;
      }
      if IsBlank(c.value) {
        ok := EndOfBlankLine(elems);
        return true, ok, elems;
      }
      PushBack(c.value);
      if c.value == '#' {
        elems' := AppendComment(elems);
        return false, true, elems';
      }
      var more := AppendField(elems);
      if more == None {
        return true, false, elems;
      }
      return false, true, more.value;
    }

    /** The record loop has come to a comment. */
    method AppendComment(elems: seq<Elem>) returns (elems': seq<Elem>)
      requires Fresh() && Unread() != "" && Unread()[0] == '#' && ElemsLocated(elems)
      modifies this`p, this`eof, this`error, this`line, this`character
      ensures ElemsLocated(elems') && Valid() && error == NoError && p > old(p)
      ensures RecordTail(Unread(), StripElems(elems')) == RecordTail(old(Unread()), StripElems(elems))
    {
      var text := ParseComment();
      StripElemsSnoc(elems, CommentElem(text));
      elems' := elems + [CommentElem(text)];
    }

    /** The record loop has come to something that must be a field. */
    method AppendField(elems: seq<Elem>) returns (elems': Option<seq<Elem>>)
      requires Fresh() && Unread() != "" && ElemsLocated(elems)
      requires Unread()[0] != '#' && Unread()[0] != '\n' && !IsBlank(Unread()[0])
      modifies this`p, this`eof, this`error, this`line, this`character
      ensures var goal := RecordTail(old(Unread()), StripElems(elems));
              match elems'
              case None => goal.value == None && At(goal.rest, goal.eof, goal.error)
              case Some(es) => ElemsLocated(es) && Valid() && error == NoError && p > old(p)
                               && RecordTail(Unread(), StripElems(es)) == goal
    {
      var field := ParseField();
      if field == None {
        error := EField;
        return None;
      }
      StripElemsSnoc(elems, FieldElem(field.value));
      elems' := Some(elems + [FieldElem(field.value)]);
    }

    /** The record loop has read a blank: a line of blanks ends the record, anything else
        after them is an error. */
    method EndOfBlankLine(elems: seq<Elem>) returns (ok: bool)
      requires Fresh() && p > 0 && IsBlank(input[p - 1])
      modifies this`p, this`eof, this`error, this`line, this`character
      ensures var goal := RecordTail(input[old(p) - 1..], StripElems(elems));
              && At(goal.rest, goal.eof, goal.error)
              && goal.value == if ok then Some(Record(StripElems(elems), NOWHERE)) else None
    {
      assert input[p - 1..][1..] == Unread();
      var c := SkipBlankLine();
      ok := c == None || c.value == '\n';
      if !ok {
        error := EField;
      }
    }

    /** Skip blanks and return the character after them, which is consumed. */
    method SkipBlankLine() returns (c: Option<char>)
      requires Fresh()
      modifies this`p, this`eof, this`line, this`character
      ensures var b := SkipBlanks(old(Unread()));
              if b == "" then c == None && At("", true, NoError)
              else c == Some(b[0]) && At(b[1..], false, NoError)
    {
      ghost var goal := SkipBlanks(Unread());
      while true
        invariant Fresh() && SkipBlanks(Unread()) == goal
        decreases |input| - p
      {
        c := GetC();
        if c == None || !IsBlank(c.value) {
          return;
        }
      }
    }

    /** The set being built stands for `spec`, with every location right. */
    ghost predicate Builds(new_: Rset, spec: Rset) {
      StripRset(new_) == spec && RsetLocated(new_, input)
    }

    ghost predicate PendingLocated()
      reads this
    {
      prevDescriptor.Some? ==> RecordLocated(prevDescriptor.value, input)
    }

    /** A failed call leaves no pending descriptor; a successful one may leave the next. */
    method ParseRset() returns (rset: Option<Rset>)
      requires Valid() && error == NoError && PendingLocated()
      modifies this
      ensures PendingLocated()
      ensures var r := RecGrammar.ParseRset(old(Unread()), StripDescriptor(old(prevDescriptor)));
              && rset.Some? == r.rset.Some? && At(r.rest, r.eof, r.error)
              && StripDescriptor(prevDescriptor) == r.pending
              && (rset.Some? ==> Builds(rset.value, r.rset.value))
    {
      var new_ := Rset(prevDescriptor, 0, []);
      prevDescriptor := None;
      assert StripRsetElems([]) == [];
      rset := RsetRest(new_);
    }

    method RsetRest(first: Rset) returns (rset: Option<Rset>)
      requires Valid() && error == NoError && prevDescriptor == None
      requires RsetLocated(first, input) && NumRecords(first.elems) == 0
      modifies this
      ensures PendingLocated()
      ensures var r := RsetTail(old(Unread()), StripRset(first), 0);
              && rset.Some? == r.rset.Some? && At(r.rest, r.eof, r.error)
              && StripDescriptor(prevDescriptor) == r.pending
              && (rset.Some? ==> Builds(rset.value, r.rset.value))
    {
      hide RecGrammar.ParseRecord;
      hide CommentLoop;
      hide RsetTail;
      hide HasField;
      hide Newlines;
      var new_ := first;
      var comments := 0;
      ghost var spec := StripRset(first);
      ghost var goal := RsetTail(Unread(), spec, 0);
      while true
        invariant Valid() && error == NoError && prevDescriptor == None
        invariant Builds(new_, spec)
        invariant RsetTail(Unread(), spec, comments) == goal
        decreases |input| - p
      {
        RsetTailStep(Unread(), spec, comments);
        var c := GetC();
        if c == None {
          NumRecordsStrip(new_.elems);
          return if new_.descriptor.Some? || NumRecords(new_.elems) > 0 then Some(new_) else None;
        }
        if c.value == '\n' || IsBlank(c.value) {
          continue;
        }
        PushBack(c.value);
        if c.value == '#' {
          var text := ParseComment();
          StripRsetElemsSnoc(new_.elems, NoteElem(text));
          new_ := AddNote(new_, text);
          spec := AddNote(spec, text);
          comments := comments + 1;
        } else {
          var next, stop := RsetRecord(new_, comments);
          if next == None {
            return None;
          }
          new_ := next.value;
          if stop {
            return Some(new_);
          }
          spec := StripRset(new_);
        }
      }
    }

    /** Parse a record and put it where it belongs: it becomes the descriptor, it is added,
        or it is kept as the descriptor of the next set and ends this one. */
    method RsetRecord(rset: Rset, comments: nat) returns (next: Option<Rset>, stop: bool)
      requires Fresh() && prevDescriptor == None && RsetLocated(rset, input)
      modifies this
      ensures PendingLocated() && (next.Some? ==> RsetLocated(next.value, input))
      ensures prevDescriptor.Some? ==> stop && next.Some?
      ensures var r := RecGrammar.ParseRecord(old(Unread()));
              var spec := StripRset(rset);
              if r.value.None? then next == None && At(r.rest, r.eof, ERecord)
              else
                && At(r.rest, r.eof, NoError) && next.Some?
                && if !HasField(r.value.value, REC_NAME) then
                     !stop && StripRset(next.value) == AddRecord(spec, r.value.value)
                   else if NumRecords(spec.elems) == 0 && spec.descriptor.None? then
                     !stop && StripRset(next.value) == spec.(descriptor := r.value, descriptorPos := comments)
                   else stop && next.value == rset && StripDescriptor(prevDescriptor) == r.value
    {
      hide RecGrammar.ParseRecord;
      hide Newlines;
      var record := ParseRecord();
      if record == None {
        error := ERecord;
        return None, false;
      }
      HasFieldStrip(record.value, REC_NAME);
      NumRecordsStrip(rset.elems);
      if !HasField(record.value, REC_NAME) {
        StripRsetElemsSnoc(rset.elems, RecordElem(record.value));
        return Some(AddRecord(rset, record.value)), false;
      } else if NumRecords(rset.elems) == 0 && rset.descriptor.None? {
        return Some(rset.(descriptor := record, descriptorPos := comments)), false;
      } else {
        prevDescriptor := record;
        return Some(rset), true;
      }
    }

    /** Success means that the end of the input was reached; the error flag is not looked
        at. Every turn of the loop consumes input or uses up the pending descriptor. */
    method ParseDb() returns (ok: bool, db: Db)
      requires Fresh() && prevDescriptor == None
      modifies this
      ensures var d := RecGrammar.ParseDb(old(Unread()));
              ok == d.eof && StripDb(db) == d.db && At(d.rest, d.eof, d.error)
      ensures forall i :: 0 <= i < |db| ==> RsetLocated(db[i], input)
    {
      hide RecGrammar.ParseRset;
      hide Newlines;
      db := [];
      ghost var goal := RecGrammar.ParseDb(Unread());
      assert StripDb(db) == [];
      while true
        invariant Valid() && error == NoError && PendingLocated()
        invariant DbLoop(Unread(), StripDescriptor(prevDescriptor), StripDb(db)) == goal
        invariant forall i :: 0 <= i < |db| ==> RsetLocated(db[i], input)
        decreases |input| - p, prevDescriptor.Some?
      {
        var rset := ParseRset();
        if rset == None {
          return eof, db;
        }
        assert StripDb(db + [rset.value]) == StripDb(db) + [StripRset(rset.value)];
        db := db + [rset.value];
      }
    }
  }
}
