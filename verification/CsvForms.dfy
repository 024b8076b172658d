/** What csv_parse (libcsv/libcsv.c) reports, in terms of the bytes it reads: cells with or without
    quotes, with blanks around them, and what follows a misplaced quote. */
module CsvForms {
  import opened Csv
  import opened CsvRoundTrip

  /** How a cell can be written: bare or in quotes, with blanks around it. */
  datatype Form =
    | Bare(lead: seq<Byte>, core: seq<Byte>, trail: seq<Byte>)
    | InQuotes(lead: seq<Byte>, cell: seq<Byte>, trail: seq<Byte>)

  function Text(f: Form, cfg: Config): seq<Byte> {
    match f
    case Bare(lead, core, trail) => lead + core + trail
    case InQuotes(lead, cell, trail) => lead + Quoted(cell, cfg.quote) + trail
  }

  /** The bytes that are meant: blanks around a cell do not count, quotes protect. */
  function Data(f: Form): seq<Byte> {
    match f
    case Bare(_, core, _) => core
    case InQuotes(_, cell, _) => cell
  }

  ghost predicate Blanks(cfg: Config, s: seq<Byte>) { forall c :: c in s ==> cfg.isSpace(c) && !cfg.isTerm(c) }

  /** A byte that can stand inside a bare cell; a quote only without strict checking. */
  predicate PlainByte(cfg: Config, c: Byte) { c != cfg.delim && !cfg.isTerm(c) && (cfg.strict ==> c != cfg.quote) }

  ghost predicate WellFormed(cfg: Config, f: Form) {
    && Blanks(cfg, f.lead) && Blanks(cfg, f.trail)
    && (f.Bare? ==>
          && (forall c :: c in f.core ==> PlainByte(cfg, c))
          && (f.core != [] ==>
                f.core[0] != cfg.quote && !cfg.isSpace(f.core[0]) && !cfg.isSpace(f.core[|f.core| - 1])))
  }

  /** Nothing but blanks. */
  predicate Empty(f: Form) { f.Bare? && f.core == [] }

  /** The state inside a bare cell that ends in `k` blanks so far. */
  function Within(acc: seq<Byte>, k: nat): Core { Core(FieldBegun, false, k, acc) }

  /** How many blanks the text ends in, when `k` came before it. */
  function Trailing(cfg: Config, s: seq<Byte>, k: nat): nat {
    if s == [] then k else Trailing(cfg, s[1..], if cfg.isSpace(s[0]) then k + 1 else 0)
  }

  lemma {:induction false} TrailingBlanks(cfg: Config, s: seq<Byte>, k: nat)
    requires Blanks(cfg, s)
    ensures Trailing(cfg, s, k) == k + |s|
    decreases |s|
  {
    if s == [] {
    } else {
      assert s[0] in s && forall c :: c in s[1..] ==> c in s;
      TrailingBlanks(cfg, s[1..], k + 1);
    }
  }

  lemma {:induction false} TrailingConcat(cfg: Config, a: seq<Byte>, b: seq<Byte>, k: nat)
    ensures Trailing(cfg, a + b, k) == Trailing(cfg, b, Trailing(cfg, a, k))
    decreases |a|
  {
    if a == [] {
      assert a + b == b;
    } else {
      assert (a + b)[1..] == a[1..] + b;
      TrailingConcat(cfg, a[1..], b, if cfg.isSpace(a[0]) then k + 1 else 0);
    }
  }

  lemma TrailingCore(cfg: Config, core: seq<Byte>, k: nat)
    requires core != [] && !cfg.isSpace(core[|core| - 1])
    ensures Trailing(cfg, core, k) == 0
  {
    var n := |core| - 1;
    assert core == core[..n] + [core[n]];
    TrailingConcat(cfg, core[..n], [core[n]], k);
    assert [core[n]][1..] == [];
  }

  lemma {:induction false} TrailingBound(cfg: Config, s: seq<Byte>, k: nat)
    ensures Trailing(cfg, s, k) <= k + |s|
    decreases |s|
  {
    if s == [] {
    } else {
      TrailingBound(cfg, s[1..], if cfg.isSpace(s[0]) then k + 1 else 0);
    }
  }

  // ----- what the parser does with the parts of a cell

  /** Going on after a part that reported nothing. */
  lemma GoesOn(cfg: Config, st: Core, s1: seq<Byte>, st1: Core, s2: seq<Byte>, st2: Core, events: seq<Event>)
    requires Inv(st) && Inv(st1) && Goes(cfg, st, s1, st1, []) && Goes(cfg, st1, s2, st2, events)
    ensures Goes(cfg, st, s1 + s2, st2, events)
  {
    hide Goes;
    GoesConcat(cfg, st, s1, st1, [], s2, st2, events);
    assert [] + events == events;
  }

  /** Blanks before a cell are skipped. */
  lemma {:induction false} GoesBlanks(cfg: Config, st: Core, s: seq<Byte>)
    requires Blanks(cfg, s) && (st == IDLE || st == BETWEEN)
    ensures Goes(cfg, st, s, st, [])
    decreases |s|
  {
    if s == [] {
    } else {
      assert s[0] in s && forall c :: c in s[1..] ==> c in s;
      GoesOne(cfg, st, s[0]);
      GoesBlanks(cfg, st, s[1..]);
      hide Goes;
      GoesOn(cfg, st, [s[0]], st, s[1..], st, []);
      assert [s[0]] + s[1..] == s;
    }
  }

  lemma GoesPlainByte(cfg: Config, acc: seq<Byte>, k: nat, c: Byte)
    requires WellSeparated(cfg) && k < |acc| && PlainByte(cfg, c)
    ensures Goes(cfg, Within(acc, k), [c], Within(acc + [c], if cfg.isSpace(c) then k + 1 else 0), [])
  {
    hide Goes;
    GoesOne(cfg, Within(acc, k), c);
  }

  lemma GoesNothing(cfg: Config, st: Core)
    requires Inv(st)
    ensures Goes(cfg, st, [], st, [])
  {
  }

  /** Inside a bare cell every plain byte is kept, blanks included. */
  lemma {:induction false} GoesPlain(cfg: Config, acc: seq<Byte>, k: nat, s: seq<Byte>)
    requires WellSeparated(cfg) && k < |acc| && forall c :: c in s ==> PlainByte(cfg, c)
    ensures Trailing(cfg, s, k) < |acc + s|
    ensures Goes(cfg, Within(acc, k), s, Within(acc + s, Trailing(cfg, s, k)), [])
    decreases |s|
  {
    hide Goes;
    TrailingBound(cfg, s, k);
    if s == [] {
      assert acc + s == acc;
      GoesNothing(cfg, Within(acc, k));
    } else {
      var k' := if cfg.isSpace(s[0]) then k + 1 else 0;
      assert s[0] in s && forall c :: c in s[1..] ==> c in s;
      GoesPlainByte(cfg, acc, k, s[0]);
      GoesPlain(cfg, acc + [s[0]], k', s[1..]);
      assert acc + [s[0]] + s[1..] == acc + s && [s[0]] + s[1..] == s;
      GoesOn(cfg, Within(acc, k), [s[0]], Within(acc + [s[0]], k'),
             s[1..], Within(acc + s, Trailing(cfg, s, k)), []);
    }
  }

  /** The state after a cell, before what ends it. */
  function After(cfg: Config, st: Core, f: Form): Core {
    match f
    case Bare(_, core, trail) => if core == [] then st else Within(core + trail, |trail|)
    case InQuotes(_, cell, trail) => Core(FieldMightHaveEnded, true, |trail|, cell + [cfg.quote] + trail)
  }

  lemma BlanksArePlain(cfg: Config, s: seq<Byte>)
    requires WellSeparated(cfg) && Blanks(cfg, s)
    ensures forall c :: c in s ==> PlainByte(cfg, c)
  {
  }

  lemma GoesBare(cfg: Config, st: Core, f: Form)
    requires WellSeparated(cfg) && WellFormed(cfg, f) && f.Bare? && f.core != [] && (st == IDLE || st == BETWEEN)
    ensures Goes(cfg, st, Text(f, cfg), After(cfg, st, f), [])
  {
    hide Goes;
    var c, rest := f.core[0], f.core[1..] + f.trail;
    GoesBlanks(cfg, st, f.lead);
    assert c in f.core && PlainByte(cfg, c);
    assert Step(cfg, st, c) == Next(Within([c], 0), []);
    GoesOne(cfg, st, c);
    BlanksArePlain(cfg, f.trail);
    assert forall b :: b in f.core[1..] ==> b in f.core;
    GoesPlain(cfg, [c], 0, rest);
    assert [c] + rest == f.core + f.trail;
    TrailingRest(cfg, f);
    GoesOn(cfg, st, f.lead, st, [c], Within([c], 0), []);
    GoesOn(cfg, st, f.lead + [c], Within([c], 0), rest, After(cfg, st, f), []);
    assert f.lead + [c] + rest == Text(f, cfg);
  }

  lemma TrailingRest(cfg: Config, f: Form)
    requires WellFormed(cfg, f) && f.Bare? && f.core != []
    ensures Trailing(cfg, f.core[1..] + f.trail, 0) == |f.trail|
  {
    TrailingConcat(cfg, f.core[1..], f.trail, 0);
    if |f.core| > 1 {
      TrailingCore(cfg, f.core[1..], 0);
    }
    TrailingBlanks(cfg, f.trail, 0);
  }

  /** Blanks after a closing quote are counted. */
  lemma {:induction false} GoesAfterQuote(cfg: Config, entry: seq<Byte>, k: nat, s: seq<Byte>)
    requires WellSeparated(cfg) && Blanks(cfg, s) && k < |entry|
    ensures Goes(cfg, Core(FieldMightHaveEnded, true, k, entry), s,
                 Core(FieldMightHaveEnded, true, k + |s|, entry + s), [])
    decreases |s|
  {
    var st := Core(FieldMightHaveEnded, true, k, entry);
    if s == [] {
      assert entry + s == entry;
    } else {
      var st1 := Core(FieldMightHaveEnded, true, k + 1, entry + [s[0]]);
      assert s[0] in s && forall c :: c in s[1..] ==> c in s;
      assert Step(cfg, st, s[0]) == Next(st1, []);
      GoesOne(cfg, st, s[0]);
      GoesAfterQuote(cfg, entry + [s[0]], k + 1, s[1..]);
      hide Goes;
      assert entry + [s[0]] + s[1..] == entry + s && [s[0]] + s[1..] == s;
      GoesOn(cfg, st, [s[0]], st1, s[1..], Core(FieldMightHaveEnded, true, k + |s|, entry + s), []);
    }
  }

  lemma GoesInQuotes(cfg: Config, st: Core, f: Form)
    requires WellSeparated(cfg) && WellFormed(cfg, f) && f.InQuotes? && (st == IDLE || st == BETWEEN)
    ensures Goes(cfg, st, Text(f, cfg), After(cfg, st, f), [])
  {
    hide Goes;
    GoesBlanks(cfg, st, f.lead);
    GoesQuoted(cfg, st, f.cell);
    GoesAfterQuote(cfg, f.cell + [cfg.quote], 0, f.trail);
    GoesOn(cfg, st, f.lead, st, Quoted(f.cell, cfg.quote), Closed(cfg, f.cell), []);
    GoesOn(cfg, st, f.lead + Quoted(f.cell, cfg.quote), Closed(cfg, f.cell), f.trail, After(cfg, st, f), []);
  }

  /** A cell takes the parser to the state after it, with nothing reported yet, and what would be
      submitted there is the data of the cell. */
  lemma GoesForm(cfg: Config, st: Core, f: Form)
    requires WellSeparated(cfg) && WellFormed(cfg, f) && (st == IDLE || st == BETWEEN)
    ensures Inv(After(cfg, st, f)) && Submitted(After(cfg, st, f)) == Data(f)
    ensures Goes(cfg, st, Text(f, cfg), After(cfg, st, f), [])
  {
    hide Goes;
    if Empty(f) {
      assert Text(f, cfg) == f.lead + f.trail;
      GoesBlanks(cfg, st, f.lead + f.trail);
    } else if f.Bare? {
      GoesBare(cfg, st, f);
      assert (f.core + f.trail)[..|f.core|] == f.core;
    } else {
      GoesInQuotes(cfg, st, f);
      assert (f.cell + [cfg.quote] + f.trail)[..|f.cell|] == f.cell;
    }
  }

  // ----- what is reported

  /** Before a delimiter exactly the data of the cell is reported. */
  lemma CellBeforeDelimiter(cfg: Config, st: Core, f: Form)
    requires WellSeparated(cfg) && WellFormed(cfg, f) && (st == IDLE || st == BETWEEN)
    ensures Goes(cfg, st, Text(f, cfg) + [cfg.delim], BETWEEN, [FieldEvent(Data(f))])
  {
    hide Goes;
    GoesForm(cfg, st, f);
    var mid := After(cfg, st, f);
    assert Step(cfg, mid, cfg.delim) == Next(BETWEEN, [FieldEvent(Data(f))]);
    GoesOne(cfg, mid, cfg.delim);
    GoesOn(cfg, st, Text(f, cfg), mid, [cfg.delim], BETWEEN, [FieldEvent(Data(f))]);
  }

  /** Before a row terminator the cell and the row are reported, unless there was nothing on the
      line but blanks. */
  lemma CellBeforeTerminator(cfg: Config, st: Core, f: Form, c: Byte)
    requires WellSeparated(cfg) && WellFormed(cfg, f) && cfg.isTerm(c) && !cfg.isSpace(c)
    requires st == BETWEEN || (st == IDLE && !Empty(f))
    ensures Goes(cfg, st, Text(f, cfg) + [c], IDLE, [FieldEvent(Data(f)), RowEvent(c as int)])
  {
    hide Goes;
    GoesForm(cfg, st, f);
    var mid, events := After(cfg, st, f), [FieldEvent(Data(f)), RowEvent(c as int)];
    assert Step(cfg, mid, c) == Next(IDLE, events);
    GoesOne(cfg, mid, c);
    GoesOn(cfg, st, Text(f, cfg), mid, [c], IDLE, events);
  }

  /** At the end of the input csv_fini reports them, and a cell whose closing quote is missing
      as far as it got. */
  lemma CellAtEnd(cfg: Config, st: Core, f: Form)
    requires WellSeparated(cfg) && WellFormed(cfg, f) && (st == BETWEEN || (st == IDLE && !Empty(f)))
    ensures Run(cfg, st, Text(f, cfg)).events == []
    ensures FiniEvents(Run(cfg, st, Text(f, cfg)).st) == [FieldEvent(Data(f)), RowEvent(-1)]
  {
    GoesForm(cfg, st, f);
    hide Run;
  }

  lemma UnclosedAtEnd(cfg: Config, st: Core, cell: seq<Byte>)
    requires WellSeparated(cfg) && (st == IDLE || st == BETWEEN)
    ensures var r := Run(cfg, st, [cfg.quote] + Doubled(cell, cfg.quote));
            && !r.failed && r.events == [] && FiniEvents(r.st) == [FieldEvent(cell), RowEvent(-1)]
            && (FiniRefuses(cfg, r.st) <==> cfg.strict && cfg.strictFini)
  {
    hide Run;
    GoesOne(cfg, st, cfg.quote);
    GoesDoubled(cfg, [], cell);
    assert [] + cell == cell && Step(cfg, st, cfg.quote) == Next(Open([]), []);
    GoesOn(cfg, st, [cfg.quote], Open([]), Doubled(cell, cfg.quote), Open(cell), []);
    assert Submitted(Open(cell)) == cell;
  }

  // ----- tables

  datatype Line = Line(cells: seq<Form>, term: Byte)

  ghost predicate GoodLine(cfg: Config, l: Line) {
    && l.cells != [] && (forall i :: 0 <= i < |l.cells| ==> WellFormed(cfg, l.cells[i]))
    && (|l.cells| == 1 ==> !Empty(l.cells[0])) && cfg.isTerm(l.term) && !cfg.isSpace(l.term)
  }

  function TextFrom(cfg: Config, l: Line, i: nat): seq<Byte>
    requires i < |l.cells|
    decreases |l.cells| - i
  {
    if i + 1 == |l.cells| then Text(l.cells[i], cfg) + [l.term]
    else Text(l.cells[i], cfg) + [cfg.delim] + TextFrom(cfg, l, i + 1)
  }

  function EventsFrom(l: Line, i: nat): seq<Event>
    requires i <= |l.cells|
    decreases |l.cells| - i
  {
    if i == |l.cells| then [RowEvent(l.term as int)] else [FieldEvent(Data(l.cells[i]))] + EventsFrom(l, i + 1)
  }

  lemma {:induction false} GoesLine(cfg: Config, st: Core, l: Line, i: nat)
    requires WellSeparated(cfg) && GoodLine(cfg, l) && i < |l.cells|
    requires st == BETWEEN || (st == IDLE && i == 0)
    ensures Goes(cfg, st, TextFrom(cfg, l, i), IDLE, EventsFrom(l, i))
    decreases |l.cells| - i
  {
    hide Goes;
    hide Text;
    hide WellFormed;
    var f := l.cells[i];
    if i + 1 == |l.cells| {
      CellBeforeTerminator(cfg, st, f, l.term);
      assert EventsFrom(l, i + 1) == [RowEvent(l.term as int)];
      assert EventsFrom(l, i) == [FieldEvent(Data(f)), RowEvent(l.term as int)];
    } else {
      CellBeforeDelimiter(cfg, st, f);
      GoesLine(cfg, BETWEEN, l, i + 1);
      GoesConcat(cfg, st, Text(f, cfg) + [cfg.delim], BETWEEN, [FieldEvent(Data(f))],
                 TextFrom(cfg, l, i + 1), IDLE, EventsFrom(l, i + 1));
    }
  }

  function TextOf(cfg: Config, ls: seq<Line>): seq<Byte>
    requires forall i :: 0 <= i < |ls| ==> ls[i].cells != []
  {
    if ls == [] then [] else TextFrom(cfg, ls[0], 0) + TextOf(cfg, ls[1..])
  }

  function EventsOf(ls: seq<Line>): seq<Event> {
    if ls == [] then [] else EventsFrom(ls[0], 0) + EventsOf(ls[1..])
  }

  /** Every table, whichever of its cells are bare or quoted and however many blanks surround
      them, is reported cell by cell and row by row, without error. */
  lemma {:induction false} AnyTableIsRead(cfg: Config, ls: seq<Line>)
    requires WellSeparated(cfg) && forall i :: 0 <= i < |ls| ==> ls[i].cells != [] && GoodLine(cfg, ls[i])
    ensures Goes(cfg, IDLE, TextOf(cfg, ls), IDLE, EventsOf(ls))
    decreases |ls|
  {
    if ls == [] {
    } else {
      hide Goes;
      hide GoodLine;
      GoesLine(cfg, IDLE, ls[0], 0);
      AnyTableIsRead(cfg, ls[1..]);
      GoesConcat(cfg, IDLE, TextFrom(cfg, ls[0], 0), IDLE, EventsFrom(ls[0], 0),
                 TextOf(cfg, ls[1..]), IDLE, EventsOf(ls[1..]));
    }
  }

  /** Every text without quote, delimiter and terminator is a bare cell: what is reported is the
      text without the blanks before and after it. */
  lemma {:induction false} TrimmedText(cfg: Config, s: seq<Byte>) returns (f: Form)
    requires WellSeparated(cfg) && forall c :: c in s ==> PlainByte(cfg, c) && c != cfg.quote
    ensures f.Bare? && WellFormed(cfg, f) && Text(f, cfg) == s
    ensures f.core == [] <==> forall c :: c in s ==> cfg.isSpace(c)
    decreases |s|
  {
    hide WellFormed;
    hide Text;
    var n := |s| - 1;
    if s == [] {
      f := Bare([], [], []);
      JustCore(cfg, []);
    } else if cfg.isSpace(s[0]) {
      assert s[0] in s && (forall c :: c in s[1..] ==> c in s) && s == [s[0]] + s[1..];
      var g := TrimmedText(cfg, s[1..]);
      f := Bare([s[0]] + g.lead, g.core, g.trail);
      BlankAround(cfg, g, s[0]);
    } else if cfg.isSpace(s[n]) {
      assert s[n] in s && (forall c :: c in s[..n] ==> c in s) && s == s[..n] + [s[n]];
      var g := TrimmedText(cfg, s[..n]);
      f := Bare(g.lead, g.core, g.trail + [s[n]]);
      BlankAround(cfg, g, s[n]);
    } else {
      assert s[0] in s;
      f := Bare([], s, []);
      JustCore(cfg, s);
    }
  }

  lemma JustCore(cfg: Config, s: seq<Byte>)
    requires forall c :: c in s ==> PlainByte(cfg, c) && c != cfg.quote
    requires s != [] ==> !cfg.isSpace(s[0]) && !cfg.isSpace(s[|s| - 1])
    ensures WellFormed(cfg, Bare([], s, [])) && Text(Bare([], s, []), cfg) == s
  {
    assert s != [] ==> s[0] in s;
  }

  lemma BlankAround(cfg: Config, g: Form, c: Byte)
    requires g.Bare? && WellFormed(cfg, g) && cfg.isSpace(c) && !cfg.isTerm(c)
    ensures var f := Bare([c] + g.lead, g.core, g.trail); WellFormed(cfg, f) && Text(f, cfg) == [c] + Text(g, cfg)
    ensures var f := Bare(g.lead, g.core, g.trail + [c]); WellFormed(cfg, f) && Text(f, cfg) == Text(g, cfg) + [c]
  {
    assert [c] + g.lead + g.core + g.trail == [c] + (g.lead + g.core + g.trail);
    assert g.lead + g.core + (g.trail + [c]) == g.lead + g.core + g.trail + [c];
  }

  // ----- misplaced quotes

  /** Under strict checking a quote inside a bare cell is an error, exactly there. */
  lemma StrictBareQuote(cfg: Config, st: Core, f: Form, rest: seq<Byte>)
    requires WellSeparated(cfg) && cfg.strict && WellFormed(cfg, f) && f.Bare? && f.core != []
    requires st == IDLE || st == BETWEEN
    ensures var r := Run(cfg, st, Text(f, cfg) + [cfg.quote] + rest);
            r.failed && r.used == |Text(f, cfg)| && r.events == []
  {
    GoesForm(cfg, st, f);
    assert Step(cfg, After(cfg, st, f), cfg.quote).StrictError?;
    FailsAt(cfg, st, Text(f, cfg), After(cfg, st, f), cfg.quote, rest);
  }

  lemma FailsAt(cfg: Config, st: Core, s: seq<Byte>, mid: Core, c: Byte, rest: seq<Byte>)
    requires Inv(st) && Inv(mid) && Goes(cfg, st, s, mid, []) && Step(cfg, mid, c).StrictError?
    ensures Run(cfg, st, s + [c] + rest) == RunResult(mid, [], |s|, true)
  {
    assert Run(cfg, mid, [c] + rest) == RunResult(mid, [], 0, true);
    hide Run;
    RunConcat(cfg, st, s, [c] + rest);
    assert s + ([c] + rest) == s + [c] + rest;
  }

  /** What may not follow a closing quote: any byte that neither ends the cell nor is blank, and
      a quote after blanks. */
  ghost predicate Misplaced(cfg: Config, f: Form, c: Byte) {
    c != cfg.delim && !cfg.isTerm(c) && !cfg.isSpace(c) && (c == cfg.quote ==> f.trail != [])
  }

  /** Under strict checking it is an error, exactly there. */
  lemma StrictAfterQuote(cfg: Config, st: Core, f: Form, c: Byte, rest: seq<Byte>)
    requires WellSeparated(cfg) && cfg.strict && WellFormed(cfg, f) && f.InQuotes? && Misplaced(cfg, f, c)
    requires st == IDLE || st == BETWEEN
    ensures var r := Run(cfg, st, Text(f, cfg) + [c] + rest);
            r.failed && r.used == |Text(f, cfg)| && r.events == []
  {
    GoesForm(cfg, st, f);
    assert Step(cfg, After(cfg, st, f), c).StrictError?;
    FailsAt(cfg, st, Text(f, cfg), After(cfg, st, f), c, rest);
  }

  /** Otherwise the closing quote and the blanks after it turn out to belong to the cell, which
      goes on: after a byte other than a quote as inside the quotes, after a quote as if that
      were the closing one. */
  lemma LenientAfterQuote(cfg: Config, st: Core, f: Form, c: Byte)
    requires WellSeparated(cfg) && !cfg.strict && WellFormed(cfg, f) && f.InQuotes? && Misplaced(cfg, f, c)
    requires st == IDLE || st == BETWEEN
    ensures var kept := f.cell + [cfg.quote] + f.trail;
            Goes(cfg, st, Text(f, cfg) + [c], if c == cfg.quote then Closed(cfg, kept) else Open(kept + [c]), [])
  {
    GoesForm(cfg, st, f);
    var mid, kept := After(cfg, st, f), f.cell + [cfg.quote] + f.trail;
    var end := if c == cfg.quote then Closed(cfg, kept) else Open(kept + [c]);
    assert Step(cfg, mid, c) == Next(end, []);
    GoesOne(cfg, mid, c);
    hide Goes;
    GoesOn(cfg, st, Text(f, cfg), mid, [c], end, []);
  }

  // ----- writing

  /** What the quoting writers put out: a quote before and after, every quote inside twice, and
      all other bytes as they are. */
  lemma QuotedMeans(a: seq<Byte>, b: seq<Byte>, quote: Byte)
    requires quote !in a
    ensures Quoted(a, quote) == [quote] + a + [quote]
    ensures Doubled(a + [quote] + b, quote) == a + [quote, quote] + Doubled(b, quote)
  {
    DoubledNone(a, quote);
    DoubledConcat(a, [quote] + b, quote);
    assert a + [quote] + b == a + ([quote] + b);
    assert ([quote] + b)[1..] == b;
  }

  lemma {:induction false} DoubledNone(a: seq<Byte>, quote: Byte)
    requires quote !in a
    ensures Doubled(a, quote) == a
  {
    if a == [] {
    } else {
      DoubledNone(a[1..], quote);
      assert a == [a[0]] + a[1..] && a[0] in a;
    }
  }
}
