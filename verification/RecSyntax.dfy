/** The rec format as text: which names, separators, line breaks and blank lines the parser
    (src/rec-parser.c) accepts and what it makes of them, and what the writer (src/rec-writer.c)
    puts out. */
module RecSyntax {
  import opened Wrappers
  import opened RecData
  import opened RecGrammar
  import opened RecWriter
  import opened RecRoundTrip
  import RecUnfinished

  // ----- names

  /** A name: a letter or a percent sign, then letters, digits and underscores. */
  predicate IsName(n: string) {
    && n != "" && ('A' <= n[0] <= 'Z' || 'a' <= n[0] <= 'z' || n[0] == '%')
    && forall i :: 0 < i < |n| ==>
         'A' <= n[i] <= 'Z' || 'a' <= n[i] <= 'z' || '0' <= n[i] <= '9' || n[i] == '_'
  }

  /** Where a value starts: after the colon, and after one blank or tab if there is one. */
  function AfterBlank(t: string): string { if t != "" && (t[0] == ' ' || t[0] == '\t') then t[1..] else t }

  lemma NameCharsOnly(s: string, k: nat)
    requires 0 < k < |s| && s[k] == ':' && IsName(s[..k])
    ensures RecUnfinished.NameLength(s[1..], 0) == k - 1
  {
    var m := RecUnfinished.NameLength(s[1..], 0);
    assert forall i :: 0 <= i < k - 1 ==> s[1..][i] == s[..k][i + 1];
    assert s[1..][k - 1] == ':';
  }

  /** A name and a colon are read as that name. */
  lemma NameRead(s: string, k: nat)
    requires 0 < k < |s| && s[k] == ':' && IsName(s[..k])
    ensures var t := s[k + 1..]; ParseName(s) == Parsed(Some(s[..k]), AfterBlank(t), t == "", NoError)
  {
    NameCharsOnly(s, k);
    RecUnfinished.NameTailIs(s[1..], [s[0]]);
    assert s[..k][0] == s[0];
    assert [s[0]] + s[1..][..k - 1] == s[..k] && s[1..][k..] == s[k + 1..] && s[1..][k - 1] == s[k];
  }

  /** And nothing else is read as a name. */
  lemma NameReadOnly(s: string)
    requires ParseName(s).value.Some?
    ensures exists k: nat :: 0 < k < |s| && s[k] == ':' && IsName(s[..k])
  {
    RecUnfinished.NameTailIs(s[1..], [s[0]]);
    var k := RecUnfinished.NameLength(s[1..], 0) + 1;
    assert s[k] == s[1..][k - 1];
    assert forall i :: 0 < i < k ==> s[..k][i] == s[1..][i - 1];
    assert s[..k][0] == s[0] && IsName(s[..k]);
  }

  // ----- values

  /** How a value goes on to the next line: with a newline, after a plus and a blank or a plus
      alone, or without one, after a backslash. */
  datatype Glue = PlusBlank | Plus | Backslash

  datatype Part = Part(glue: Glue, line: string)

  function GlueText(g: Glue): string {
    match g
    case PlusBlank => "\n+ "
    case Plus => "\n+"
    case Backslash => "\\\n"
  }

  function GlueValue(g: Glue): string { if g.Backslash? then "" else "\n" }

  function PartsText(ps: seq<Part>): string {
    if ps == [] then "" else GlueText(ps[0].glue) + ps[0].line + PartsText(ps[1..])
  }

  /** The value: the lines, with a newline in place of every plus. */
  function PartsValue(ps: seq<Part>): string {
    if ps == [] then "" else GlueValue(ps[0].glue) + ps[0].line + PartsValue(ps[1..])
  }

  predicate IsLine(l: string) { '\n' !in l }

  /** A line may end in a backslash only if it is joined with another one to the next line. */
  predicate MayEnd(l: string, ps: seq<Part>) {
    l == "" || l[|l| - 1] != '\\' || (ps != [] && ps[0].glue.Backslash?)
  }

  ghost predicate GoodParts(ps: seq<Part>) {
    ps == [] ||
    (IsLine(ps[0].line) && (ps[0].glue.Plus? ==> ps[0].line == "" || ps[0].line[0] != ' ')
     && MayEnd(ps[0].line, ps[1..]) && GoodParts(ps[1..]))
  }

  lemma {:induction false} LineRead(l: string, rest: string, acc: string)
    requires IsLine(l) && rest != "" && (l != "" && l[|l| - 1] == '\\' ==> rest[0] != '\n')
    ensures ValueLoop(l + rest, acc, false) == ValueLoop(rest, acc + l, false)
    decreases |l|
  {
    hide ValueLoop;
    if l == "" {
      assert l + rest == rest && acc + l == acc;
    } else {
      assert l + rest == [l[0]] + (l[1..] + rest) && l[0] in l;
      assert forall c :: c in l[1..] ==> c in l;
      assert (l[1..] + rest)[0] == if |l| == 1 then rest[0] else l[1];
      assert |l| > 1 ==> l[1] in l;
      CharBack(l[0], l[1..] + rest, acc);
      LineRead(l[1..], rest, acc + [l[0]]);
      assert acc + [l[0]] + l[1..] == acc + l;
    }
  }

  lemma GlueRead(g: Glue, rest: string, acc: string)
    requires rest != "" && (g.Plus? ==> rest[0] != ' ')
    ensures ValueLoop(GlueText(g) + rest, acc, false) == ValueLoop(rest, acc + GlueValue(g), false)
  {
    var s := GlueText(g) + rest;
    match g {
      case PlusBlank => ContinuationBack(rest, acc);
      case Plus =>
        assert s[1..] == "+" + rest && s[1..][1..] == rest && acc + "\n" == acc + ['\n'];
      case Backslash =>
        assert s[2..] == rest && acc + "" == acc;
    }
  }

  /** A value is read as its lines, however they are broken, up to the line end that no plus
      follows. */
  lemma {:induction false} ValueRead(l: string, ps: seq<Part>, u: string, acc: string)
    requires IsLine(l) && MayEnd(l, ps) && GoodParts(ps) && NoPlus(u)
    ensures ValueLoop(l + PartsText(ps) + "\n" + u, acc, false) ==
            Parsed(Some(acc + l + PartsValue(ps)), u, u == "", NoError)
    decreases |ps|
  {
    hide ValueLoop;
    var rest := PartsText(ps) + "\n" + u;
    assert l + PartsText(ps) + "\n" + u == l + rest;
    if ps == [] {
      LastLine(u);
      LineRead(l, rest, acc);
      ValueBack("", u, acc + l);
      assert acc + l + "" == acc + l;
    } else {
      hide PartsText;
      hide PartsValue;
      hide GlueText;
      hide GlueValue;
      hide IsLine;
      var g, next := ps[0].glue, ps[0].line + PartsText(ps[1..]) + "\n" + u;
      PartsStep(ps, u, acc + l);
      LineRead(l, rest, acc);
      NextStart(ps, u);
      GlueRead(g, next, acc + l);
      ValueRead(ps[0].line, ps[1..], u, acc + l + GlueValue(g));
    }
  }

  lemma LastLine(u: string)
    ensures Escaped("") + "\n" + u == "\n" + u && PartsText([]) + "\n" + u == "\n" + u && PartsValue([]) == ""
  {
  }

  lemma PartsStep(ps: seq<Part>, u: string, x: string)
    requires ps != []
    ensures var rest := PartsText(ps) + "\n" + u;
            && rest == GlueText(ps[0].glue) + (ps[0].line + PartsText(ps[1..]) + "\n" + u)
            && rest != "" && rest[0] == if ps[0].glue.Backslash? then '\\' else '\n'
    ensures x + GlueValue(ps[0].glue) + ps[0].line + PartsValue(ps[1..]) == x + PartsValue(ps)
  {
    hide GlueText;
    hide GlueValue;
    GlueStart(ps[0].glue);
    TextAssoc(GlueText(ps[0].glue), ps[0].line, PartsText(ps[1..]), "\n" + u);
    TextAssoc(x, GlueValue(ps[0].glue), ps[0].line, PartsValue(ps[1..]));
    TextAssoc(PartsText(ps), "\n", u, "");
    TextAssoc(ps[0].line, PartsText(ps[1..]), "\n", u);
  }

  lemma GlueStart(g: Glue)
    ensures GlueText(g) != "" && GlueText(g)[0] == if g.Backslash? then '\\' else '\n'
  {
  }

  lemma TextAssoc(a: string, b: string, c: string, d: string)
    ensures a + b + c + d == a + (b + c + d) == a + (b + (c + d)) == (a + b) + (c + d)
  {
  }

  lemma NextStart(ps: seq<Part>, u: string)
    requires ps != [] && GoodParts(ps)
    ensures var next := ps[0].line + PartsText(ps[1..]) + "\n" + u;
            next != "" && (ps[0].glue.Plus? ==> next[0] != ' ')
  {
    var next := ps[0].line + PartsText(ps[1..]) + "\n" + u;
    if ps[0].line != "" {
      assert next[0] == ps[0].line[0];
    } else if ps[1..] != [] {
      assert next[0] == GlueText(ps[1].glue)[0];
    } else {
      assert next == "\n" + u;
    }
  }

  // ----- blank lines

  predicate Blanks(b: string) { forall c :: c in b ==> c == ' ' || c == '\t' }

  lemma {:induction false} BlanksSkipped(b: string, s: string)
    requires Blanks(b) && (s == "" || (s[0] != ' ' && s[0] != '\t'))
    ensures SkipBlanks(b + s) == s
  {
    if b == "" {
      assert b + s == s;
    } else {
      assert b[0] in b && (b + s)[1..] == b[1..] + s && forall c :: c in b[1..] ==> c in b;
      BlanksSkipped(b[1..], s);
    }
  }

  /** A line of blanks ends a record like an empty one; blanks before anything else are an
      error. */
  lemma BlankLineEnds(b: string, c: char, u: string, elems: seq<Elem>)
    requires Blanks(b) && c != ' ' && c != '\t'
    ensures RecordTail(b + "\n" + u, elems) == Parsed(Some(Record(elems, NOWHERE)), u, false, NoError)
    ensures b != "" && c != '\n' ==> RecordTail(b + [c] + u, elems) == Parsed(None, u, false, EField)
  {
    hide ParseField;
    hide CommentLoop;
    if b == "" {
      assert b + "\n" + u == "\n" + u && ("\n" + u)[1..] == u;
    } else {
      var s, t := "\n" + u, [c] + u;
      assert b + "\n" + u == b + s && b + [c] + u == b + t && b[0] in b;
      assert (b + s)[1..] == b[1..] + s && (b + t)[1..] == b[1..] + t && forall x :: x in b[1..] ==> x in b;
      BlanksSkipped(b[1..], s);
      BlanksSkipped(b[1..], t);
      assert s[1..] == u && t[1..] == u;
    }
  }

  /** Between records any number of blanks and newlines is skipped. */
  lemma {:induction false} GapsSkipped(w: string, s: string, r: Rset, comments: nat)
    requires forall c :: c in w ==> c == ' ' || c == '\t' || c == '\n'
    ensures RsetTail(w + s, r, comments) == RsetTail(s, r, comments)
  {
    hide ParseRecord;
    hide CommentLoop;
    hide HasField;
    if w == "" {
      assert w + s == s;
    } else {
      assert w[0] in w && (w + s)[1..] == w[1..] + s && forall c :: c in w[1..] ==> c in w;
      GapsSkipped(w[1..], s, r, comments);
    }
  }

  // ----- what is written

  lemma {:induction false} EscapedLine(v: string)
    requires IsLine(v)
    ensures Escaped(v) == v
  {
    if v == "" {
    } else {
      assert v[0] in v && forall c :: c in v[1..] ==> c in v;
      EscapedLine(v[1..]);
      assert v == [v[0]] + v[1..];
    }
  }

  lemma {:induction false} EscapedTwo(a: string, b: string)
    ensures Escaped(a + "\n" + b) == Escaped(a) + "\n+ " + Escaped(b)
  {
    var s := a + "\n" + b;
    if a == "" {
      assert s == "\n" + b && s[1..] == b;
    } else {
      assert s[1..] == a[1..] + "\n" + b && s[0] == a[0];
      EscapedTwo(a[1..], b);
      var head := if a[0] == '\n' then "\n+ " else [a[0]];
      assert head + (Escaped(a[1..]) + "\n+ " + Escaped(b)) == (head + Escaped(a[1..])) + "\n+ " + Escaped(b);
    }
  }

  lemma OneLineWritten(name: string, v: string)
    requires v != ""
    ensures FieldText(Field(name, v, NOWHERE)) == name + ": " + Escaped(v)
    ensures FieldText(Field(name, "", NOWHERE)) == name + ":"
  {
    hide Escaped;
    assert name + ":" + (" " + Escaped(v)) == name + ": " + Escaped(v);
    assert name + ":" + "" == name + ":";
  }

  /** A field is its name, a colon, a blank and the value, with a plus and a blank at the start of
      each further line; an empty value has no blank. */
  lemma FieldWritten(name: string, a: string, b: string)
    requires IsLine(a) && IsLine(b) && a != ""
    ensures FieldText(Field(name, "", NOWHERE)) == name + ":"
    ensures FieldText(Field(name, a, NOWHERE)) == name + ": " + a
    ensures FieldText(Field(name, a + "\n" + b, NOWHERE)) == name + ": " + (a + "\n+ " + b)
  {
    hide FieldText;
    hide Escaped;
    EscapedLine(a);
    EscapedLine(b);
    EscapedTwo(a, b);
    OneLineWritten(name, a);
    OneLineWritten(name, a + "\n" + b);
  }

  lemma {:induction false} HashLinesTwo(a: string, b: string)
    ensures HashLines(a + "\n" + b) == HashLines(a) + "\n#" + HashLines(b)
  {
    HashLinesConcat(a, "\n" + b);
    assert a + "\n" + b == a + ("\n" + b) && ("\n" + b)[1..] == b;
    assert HashLines(a) + ("\n#" + HashLines(b)) == HashLines(a) + "\n#" + HashLines(b);
  }

  /** A comment has a hash at the start of each line. */
  lemma CommentWritten(a: string, b: string)
    requires IsLine(a) && IsLine(b)
    ensures CommentText(a + "\n" + b) == "#" + a + "\n#" + b
  {
    HashLinesTwo(a, b);
    HashLinesPlain(a);
    HashLinesPlain(b);
  }

  /** Elements of a record stand on lines of their own; records, and the descriptor and the first
      record, have one empty line between them, and so have sets. */
  lemma LayoutWritten(e1: Elem, e2: Elem, r1: Record, r2: Record, d: Record, s1: Rset, s2: Rset)
    ensures RecordText(Record([e1, e2], NOWHERE)) == ElemText(e1) + "\n" + ElemText(e2)
    ensures RsetText(Rset(None, 0, [RecordElem(r1), RecordElem(r2)])) ==
            RecordText(r1) + "\n" + "\n" + RecordText(r2) + "\n"
    ensures RsetText(Rset(Some(d), 0, [RecordElem(r1)])) == RecordText(d) + "\n" + "\n" + RecordText(r1) + "\n"
    ensures DbText([s1, s2]) == RsetText(s1) + "\n" + RsetText(s2)
  {
    hide ElemText;
    TwoElems(e1, e2);
    TwoRecords(r1, r2);
    Described(d, r1);
    TwoSets(s1, s2);
  }

  lemma TwoElems(e1: Elem, e2: Elem)
    ensures RecordText(Record([e1, e2], NOWHERE)) == ElemText(e1) + "\n" + ElemText(e2)
  {
    hide ElemText;
    assert ElemsText([e1, e2], 1) == ElemText(e2);
  }

  lemma TwoRecords(r1: Record, r2: Record)
    ensures RsetText(Rset(None, 0, [RecordElem(r1), RecordElem(r2)])) ==
            RecordText(r1) + "\n" + "\n" + RecordText(r2) + "\n"
  {
    hide RecordText;
    var r := Rset(None, 0, [RecordElem(r1), RecordElem(r2)]);
    assert RsetFrom(r, 2) == "";
    assert RsetFrom(r, 1) == "\n" + RecordText(r2) + "\n";
    assert RsetFrom(r, 0) == RecordText(r1) + "\n" + ("\n" + RecordText(r2) + "\n");
  }

  lemma Described(d: Record, r1: Record)
    ensures RsetText(Rset(Some(d), 0, [RecordElem(r1)])) == RecordText(d) + "\n" + "\n" + RecordText(r1) + "\n"
  {
    hide RecordText;
    var r := Rset(Some(d), 0, [RecordElem(r1)]);
    assert RsetFrom(r, 1) == "";
    assert RsetFrom(r, 0) == RecordText(d) + "\n\n" + RecordText(r1) + "\n";
    assert RecordText(d) + "\n\n" == RecordText(d) + "\n" + "\n";
  }

  lemma TwoSets(s1: Rset, s2: Rset)
    ensures DbText([s1, s2]) == RsetText(s1) + "\n" + RsetText(s2)
  {
    hide RsetText;
    assert DbFrom([s1, s2], 2) == "";
    assert DbFrom([s1, s2], 1) == "\n" + RsetText(s2);
    assert RsetText(s1) + ("\n" + RsetText(s2)) == RsetText(s1) + "\n" + RsetText(s2);
  }
}
