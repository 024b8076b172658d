/** When the rec parser reports success although it gave up: only on a text that breaks off in the
    middle of a field. */
module RecUnfinished {
  import opened Wrappers
  import opened RecData
  import opened RecGrammar
  import opened RecCanonical

  // ----- values

  /** The newline at `i` is not joined to the next line by a backslash. */
  predicate BareNewline(t: string, i: nat) { i < |t| && t[i] == '\n' && (i == 0 || t[i - 1] != '\\') }

  /** The value ends at the newline at `i`: it is not continued. */
  predicate EndsAt(t: string, i: nat) { BareNewline(t, i) && (i + 1 == |t| || t[i + 1] != '+') }

  /** The last character is the plus of a continuation line. */
  predicate EndsInPlus(t: string) { |t| >= 2 && t[|t| - 1] == '+' && BareNewline(t, |t| - 2) }

  /** The value breaks off: no line end closes it, and its last character is a backslash or the
      plus of a continuation line. */
  ghost predicate CutOff(t: string) {
    && t != "" && (forall i :: 0 <= i < |t| ==> !EndsAt(t, i))
    && (t[|t| - 1] == '\\' || EndsInPlus(t))
  }

  /** Dropping characters from the front changes nothing if no line end is dropped and what
      follows does not depend on them. */
  lemma CutOffSuffix(t: string, k: nat)
    requires 0 < k < |t| && forall i :: 0 <= i < k ==> !EndsAt(t, i)
    requires t[k] == '\n' ==> t[k - 1] != '\\'
    requires t[k] == '+' ==> !BareNewline(t, k - 1)
    ensures CutOff(t[k..]) <==> CutOff(t)
  {
    var s := t[k..];
    forall i | 0 <= i < |s|
      ensures EndsAt(s, i) <==> EndsAt(t, i + k)
    {
      assert s[i] == t[i + k];
      assert i > 0 ==> s[i - 1] == t[i + k - 1];
      assert i + 1 < |s| ==> s[i + 1] == t[i + k + 1];
    }
    assert s[|s| - 1] == t[|t| - 1];
    assert |s| >= 2 ==> s[|s| - 2] == t[|t| - 2];
    assert |s| >= 3 ==> s[|s| - 3] == t[|t| - 3];
    if CutOff(s) {
      forall i | 0 <= i < |t|
        ensures !EndsAt(t, i)
      {
        if k <= i {
          assert EndsAt(s, i - k) <==> EndsAt(t, i);
        }
      }
    }
  }

  /** What the value loop sees: in the state after a newline, that newline is still open. */
  function Seen(s: string, nl: bool): string { if nl then "\n" + s else s }

  /** A value is rejected exactly when it breaks off. */
  lemma {:induction false} ValueRejectedIff(s: string, acc: string, nl: bool)
    requires nl ==> acc != "" && acc[|acc| - 1] == '\n'
    ensures ValueLoop(s, acc, nl).value.None? <==> CutOff(Seen(s, nl))
    decreases |s|
  {
    var t := Seen(s, nl);
    if s == "" {
      assert nl ==> EndsAt(t, 0);
    } else if nl {
      AfterNewline(s, acc);
    } else if s[0] == '\\' {
      AtBackslash(s, acc);
    } else if s[0] == '\n' {
      assert Seen(s[1..], true) == s;
      ValueRejectedIff(s[1..], acc + ['\n'], true);
    } else {
      ValueRejectedIff(s[1..], acc + [s[0]], false);
      if |s| > 1 {
        CutOffSuffix(s, 1);
      }
    }
  }

  lemma {:induction false} AfterNewline(s: string, acc: string)
    requires s != "" && acc != "" && acc[|acc| - 1] == '\n'
    ensures ValueLoop(s, acc, true).value.None? <==> CutOff("\n" + s)
    decreases |s|, 0
  {
    var t := "\n" + s;
    assert t[1] == s[0] && t[0] == '\n';
    if s[0] != '+' {
      assert EndsAt(t, 0);
    } else if |s| == 1 {
      assert t == "\n+";
    } else {
      var k := if s[1] == ' ' then 3 else 2;
      assert t[2] == s[1] && t[k..] == s[k - 1..];
      ValueRejectedIff(s[k - 1..], acc, false);
      if k < |t| {
        CutOffSuffix(t, k);
      } else {
        assert t[|t| - 1] == ' ';
      }
    }
  }

  lemma {:induction false} AtBackslash(s: string, acc: string)
    requires s != "" && s[0] == '\\'
    ensures ValueLoop(s, acc, false).value.None? <==> CutOff(s)
    decreases |s|, 0
  {
    if |s| == 1 {
    } else if s[1] == '\n' {
      ValueRejectedIff(s[2..], acc, false);
      if |s| > 2 {
        CutOffSuffix(s, 2);
      }
    } else {
      ValueRejectedIff(s[1..], acc + ['\\'], false);
      CutOffSuffix(s, 1);
    }
  }

  // ----- fields

  /** The value text after the colon: one blank is skipped. */
  function ValueText(s: string): string { if s != "" && IsBlank(s[0]) then s[1..] else s }

  /** The text from its name of length `k` on breaks off: after the name, after the colon, or in
      the value. */
  ghost predicate BreaksAfter(s: string, k: nat) {
    && 0 < k <= |s| && ValidName(s[..k])
    && (k == |s| || (s[k] == ':' && (k + 1 == |s| || CutOff(ValueText(s[k + 1..])))))
  }

  /** A field that breaks off. */
  ghost predicate Unfinished(s: string) { s == "" || exists k: nat :: BreaksAfter(s, k) }

  /** Where the name characters end. */
  function NameLength(s: string, i: nat): (k: nat)
    requires i <= |s|
    ensures i <= k <= |s| && (forall j :: i <= j < k ==> NameChar(s[j])) && (k < |s| ==> !NameChar(s[k]))
    decreases |s| - i
  {
    if i < |s| && NameChar(s[i]) then NameLength(s, i + 1) else i
  }

  lemma {:induction false} NameTailIs(s: string, acc: string)
    ensures var k := NameLength(s, 0);
            NameTail(s, acc) ==
            if k == |s| then Parsed(None, "", true, EFname)
            else if s[k] == ':' then AfterColon(acc + s[..k], s[k + 1..])
            else Parsed(None, s[k + 1..], false, EFname)
    decreases |s|
  {
    if s == "" || !NameChar(s[0]) {
      assert acc + s[..0] == acc;
    } else {
      NameTailIs(s[1..], acc + [s[0]]);
      NameLengthShift(s, 1);
      var k := NameLength(s, 0);
      assert s[1..][..k - 1] == s[1..k] && acc + [s[0]] + s[1..k] == acc + s[..k];
      assert k < |s| ==> s[1..][k - 1] == s[k] && s[1..][k..] == s[k + 1..];
    }
  }

  lemma {:induction false} NameLengthShift(s: string, i: nat)
    requires 0 < i <= |s|
    ensures NameLength(s, i) == NameLength(s[1..], i - 1) + 1
    decreases |s| - i
  {
    if i == |s| {
    } else {
      assert s[1..][i - 1] == s[i];
      if NameChar(s[i]) {
        NameLengthShift(s, i + 1);
      }
    }
  }

  /** A field is rejected at the end of the text exactly when it is unfinished. */
  lemma FieldRejectedAtEndIff(s: string)
    ensures var r := ParseField(s); r.value.None? && r.eof <==> Unfinished(s)
  {
    if s == "" {
    } else if !NameStart(s[0]) {
      forall k: nat
        ensures !BreaksAfter(s, k)
      {
      }
    } else {
      var k := NameLength(s, 1);
      NameTailIs(s[1..], [s[0]]);
      NameLengthShift(s, 1);
      assert [s[0]] + s[1..][..k - 1] == s[..k];
      assert k < |s| ==> s[1..][k - 1] == s[k] && s[1..][k..] == s[k + 1..];
      OnlyLength(s, k);
      ParsedAfterName(s, k);
    }
  }

  /** Only the whole name counts: a colon is no name character. */
  lemma OnlyLength(s: string, k: nat)
    requires s != "" && NameStart(s[0]) && k == NameLength(s, 1)
    ensures Unfinished(s) <==> BreaksAfter(s, k)
  {
    assert ValidName(s[..k]);
    forall m: nat | BreaksAfter(s, m)
      ensures m == k
    {
      assert forall j :: 1 <= j < m ==> s[j] == s[..m][j];
    }
  }

  lemma ParsedAfterName(s: string, k: nat)
    requires 0 < k <= |s| && ValidName(s[..k])
    requires ParseName(s) == if k == |s| then Parsed(None, "", true, EFname)
                             else if s[k] == ':' then AfterColon(s[..k], s[k + 1..])
                             else Parsed(None, s[k + 1..], false, EFname)
    ensures var r := ParseField(s); r.value.None? && r.eof <==> BreaksAfter(s, k)
  {
    hide ParseName;
    if k < |s| && s[k] == ':' {
      ValueRejectedIff(ValueText(s[k + 1..]), "", false);
    }
  }

  lemma NameLast(s: string)
    requires ValidName(s)
    ensures s[|s| - 1] != '\n'
  {
  }

  lemma CutOffLast(t: string)
    ensures CutOff(t) ==> t != "" && t[|t| - 1] != '\n'
  {
  }

  /** An unfinished field does not end in a newline. */
  lemma UnfinishedEnd(s: string)
    requires s != "" && Unfinished(s)
    ensures s[|s| - 1] != '\n'
  {
    hide CutOff;
    hide ValidName;
    var k: nat :| BreaksAfter(s, k);
    if k == |s| {
      assert s[..k] == s;
      NameLast(s);
    } else if k + 1 == |s| {
    } else {
      var v := ValueText(s[k + 1..]);
      CutOffLast(v);
      assert v == s[|s| - |v|..];
    }
  }

  // ----- the rest of the text

  ghost predicate Suffix(r: string, s: string) { |r| <= |s| && s[|s| - |r|..] == r }

  /** Somewhere in the text, from there to its end, there is an unfinished field. */
  ghost predicate BreaksOff(s: string) { exists k: nat :: k < |s| && Unfinished(s[k..]) }

  lemma BreaksOffLater(r: string, s: string)
    requires Suffix(r, s)
    ensures BreaksOff(r) ==> BreaksOff(s)
  {
    hide Unfinished;
    if BreaksOff(r) {
      var k: nat :| k < |r| && Unfinished(r[k..]);
      assert s[|s| - |r| + k..] == r[k..];
    }
  }

  lemma SuffixStep(r: string, s: string, n: nat)
    requires n <= |s| && Suffix(r, s[n..])
    ensures Suffix(r, s)
  {
    assert s[n..][|s| - n - |r|..] == s[|s| - |r|..];
  }

  lemma SuffixTrans(a: string, b: string, c: string)
    requires Suffix(a, b) && Suffix(b, c)
    ensures Suffix(a, c)
  {
    assert c[|c| - |b|..][|b| - |a|..] == c[|c| - |a|..];
  }

  lemma {:induction false} ValueSuffix(s: string, acc: string, nl: bool)
    requires nl ==> acc != "" && acc[|acc| - 1] == '\n'
    ensures Suffix(ValueLoop(s, acc, nl).rest, s)
    decreases |s|
  {
    if s == "" || (nl && s[0] != '+') {
    } else if s[0] == '\\' && |s| > 1 && s[1] == '\n' {
      ValueSuffix(s[2..], acc, false);
      SuffixStep(ValueLoop(s, acc, nl).rest, s, 2);
    } else if s[0] == '\\' && |s| > 1 {
      ValueSuffix(s[1..], acc + ['\\'], false);
      SuffixStep(ValueLoop(s, acc, nl).rest, s, 1);
    } else if s[0] == '+' && nl && |s| > 1 {
      var k := if s[1] == ' ' then 2 else 1;
      ValueSuffix(s[k..], acc, false);
      SuffixStep(ValueLoop(s, acc, nl).rest, s, k);
    } else if s[0] != '\\' && !nl {
      ValueSuffix(s[1..], acc + [s[0]], s[0] == '\n');
      SuffixStep(ValueLoop(s, acc, nl).rest, s, 1);
    }
  }

  lemma FieldSuffix(s: string)
    ensures Suffix(ParseField(s).rest, s)
  {
    if s == "" || !NameStart(s[0]) {
    } else {
      NameTailIs(s[1..], [s[0]]);
      var k := NameLength(s[1..], 0);
      var n := ParseName(s);
      hide ParseName;
      assert k < |s| - 1 ==> s[1..][k + 1..] == s[k + 2..];
      assert k + 2 < |s| ==> s[k + 2..][1..] == s[k + 3..];
      assert Suffix(n.rest, s);
      if n.value.Some? && !n.eof {
        ValueSuffix(n.rest, "", false);
        SuffixTrans(ParseField(s).rest, n.rest, s);
      }
    }
  }

  lemma {:induction false} CommentSuffix(s: string, acc: string)
    ensures Suffix(CommentLoop(s, acc).rest, s)
    decreases |s|
  {
    if s == "" || (s[0] == '\n' && (|s| == 1 || s[1] != '#')) {
    } else if s[0] == '\n' {
      CommentSuffix(s[2..], acc + ['\n']);
      SuffixStep(CommentLoop(s, acc).rest, s, 2);
    } else {
      CommentSuffix(s[1..], acc + [s[0]]);
      SuffixStep(CommentLoop(s, acc).rest, s, 1);
    }
  }

  lemma {:induction false} BlanksSuffix(s: string)
    ensures Suffix(SkipBlanks(s), s)
  {
    if s == "" || !IsBlank(s[0]) {
    } else {
      BlanksSuffix(s[1..]);
      SuffixStep(SkipBlanks(s), s, 1);
    }
  }

  lemma {:induction false} RecordTailBreaks(s: string, elems: seq<Elem>)
    ensures var r := RecordTail(s, elems); Suffix(r.rest, s) && (r.value.None? && r.eof ==> BreaksOff(s))
    decreases |s|
  {
    hide ParseField;
    hide CommentLoop;
    hide SkipBlanks;
    hide Unfinished;
    var r := RecordTail(s, elems);
    if s == "" {
    } else if s[0] == '#' {
      var c := CommentLoop(s[1..], "");
      CommentSuffix(s[1..], "");
      SuffixStep(c.rest, s, 1);
      RecordTailBreaks(c.rest, elems + [CommentElem(c.value.value)]);
      SuffixTrans(r.rest, c.rest, s);
      BreaksOffLater(c.rest, s);
    } else if IsBlank(s[0]) {
      var b := SkipBlanks(s[1..]);
      BlanksSuffix(s[1..]);
      SuffixStep(b, s, 1);
      if b != "" {
        assert Suffix(b[1..], b);
        SuffixTrans(b[1..], b, s);
      }
    } else if s[0] == '\n' {
    } else {
      FieldTurnBreaks(s, elems);
      var f := ParseField(s);
      if f.value.Some? {
        RecordTailBreaks(f.rest, elems + [FieldElem(f.value.value)]);
        SuffixTrans(r.rest, f.rest, s);
        BreaksOffLater(f.rest, s);
      }
    }
  }

  lemma FieldTurnBreaks(s: string, elems: seq<Elem>)
    requires s != ""
    ensures var f := ParseField(s); Suffix(f.rest, s) && (f.value.None? && f.eof ==> BreaksOff(s))
  {
    hide ParseField;
    hide Unfinished;
    FieldSuffix(s);
    FieldRejectedAtEndIff(s);
    assert s[0..] == s;
  }

  lemma RecordBreaks(s: string)
    requires s != ""
    ensures var r := ParseRecord(s); Suffix(r.rest, s) && (r.value.None? && r.eof ==> BreaksOff(s))
  {
    hide ParseField;
    hide RecordTail;
    hide BreaksOff;
    FieldTurnBreaks(s, []);
    var f := ParseField(s);
    if f.value.Some? {
      var first := [FieldElem(f.value.value)];
      RecordTailBreaks(f.rest, first);
      SuffixTrans(RecordTail(f.rest, first).rest, f.rest, s);
      BreaksOffLater(f.rest, s);
    }
  }

  lemma {:induction false} RsetTailBreaks(s: string, r: Rset, comments: nat)
    ensures var p := RsetTail(s, r, comments);
            Suffix(p.rest, s) && (p.eof && p.error != NoError ==> BreaksOff(s))
    decreases |s|
  {
    hide ParseRecord;
    hide CommentLoop;
    hide HasField;
    hide BreaksOff;
    var p := RsetTail(s, r, comments);
    if s == "" {
    } else if s[0] == '\n' || IsBlank(s[0]) {
      RsetTailBreaks(s[1..], r, comments);
      SuffixStep(p.rest, s, 1);
      BreaksOffLater(s[1..], s);
    } else if s[0] == '#' {
      var c := CommentLoop(s[1..], "");
      CommentSuffix(s[1..], "");
      SuffixStep(c.rest, s, 1);
      RsetTailBreaks(c.rest, AddNote(r, c.value.value), comments + 1);
      SuffixTrans(p.rest, c.rest, s);
      BreaksOffLater(c.rest, s);
    } else {
      var record := ParseRecord(s);
      RecordBreaks(s);
      BreaksOffLater(record.rest, s);
      if record.value.Some? {
        if !HasField(record.value.value, REC_NAME) {
          RsetTailBreaks(record.rest, AddRecord(r, record.value.value), comments);
          SuffixTrans(p.rest, record.rest, s);
        } else if NumRecords(r.elems) == 0 && r.descriptor.None? {
          RsetTailBreaks(record.rest, r.(descriptor := record.value, descriptorPos := comments), comments);
          SuffixTrans(p.rest, record.rest, s);
        }
      }
    }
  }

  lemma {:induction false} DbLoopBreaks(s: string, pending: Option<Record>, db: Db)
    ensures var d := DbLoop(s, pending, db); d.eof && d.error != NoError ==> BreaksOff(s)
    decreases |s|, pending.Some?
  {
    hide RsetTail;
    hide BreaksOff;
    var p := ParseRset(s, pending);
    RsetTailBreaks(s, Rset(pending, 0, []), 0);
    if p.rset.Some? {
      DbLoopBreaks(p.rest, p.pending, db + [p.rset.value]);
      BreaksOffLater(p.rest, s);
    }
  }

  /** Whatever the text: success is reported in spite of an error only if the text breaks off in
      the middle of a field. */
  lemma FalseSuccessBreaksOff(text: string)
    ensures var d := ParseDb(text); d.eof && d.error != NoError ==> BreaksOff(text)
  {
    hide BreaksOff;
    DbLoopBreaks(text, None, []);
  }

  /** On every text that is empty or ends in a newline, success and the absence of an error are
      the same. */
  lemma ClosedTextIff(text: string)
    requires text == "" || text[|text| - 1] == '\n'
    ensures ParseDb(text).eof <==> ParseDb(text).error == NoError
  {
    hide Unfinished;
    hide DbLoop;
    FalseSuccessBreaksOff(text);
    StopsOnlyOnError(text, None, []);
    if BreaksOff(text) {
      var k: nat :| k < |text| && Unfinished(text[k..]);
      UnfinishedEnd(text[k..]);
      assert false;
    }
  }

  /** And every unfinished field is a text on which success is reported in spite of an error. */
  lemma UnfinishedTextFails(text: string)
    requires text != "" && Unfinished(text)
    ensures ParseDb(text) == DbParsed([], "", true, ERecord)
  {
    hide ParseField;
    hide CommentLoop;
    FieldRejectedAtEndIff(text);
    var k: nat :| BreaksAfter(text, k);
    assert text[0] == text[..k][0];
    hide BreaksAfter;
    hide Unfinished;
    assert ParseRecord(text) == Parsed(None, "", true, EField);
    hide ParseRecord;
    RsetTailStep(text, Rset(None, 0, []), 0);
  }
}
