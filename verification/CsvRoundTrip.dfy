/** The quoting writers of libcsv and the round trip through the parser
    (section 2 of RFC 4180), for tables as rec2csv writes them. */
module CsvRoundTrip {
  import opened Csv

  import opened Wrappers

  /** Every quote inside a cell is doubled. */
  function Doubled(cell: seq<Byte>, quote: Byte): seq<Byte> {
    if cell == [] then []
    else (if cell[0] == quote then [quote, quote] else [cell[0]]) + Doubled(cell[1..], quote)
  }

  function Quoted(cell: seq<Byte>, quote: Byte): seq<Byte> {
    [quote] + Doubled(cell, quote) + [quote]
  }

  lemma {:induction false} DoubledConcat(a: seq<Byte>, b: seq<Byte>, quote: Byte)
    ensures Doubled(a + b, quote) == Doubled(a, quote) + Doubled(b, quote)
  {
    if a == [] {
      assert a + b == b;
    } else {
      assert (a + b)[1..] == a[1..] + b;
      DoubledConcat(a[1..], b, quote);
    }
  }

  lemma DoubledSnoc(src: seq<Byte>, i: nat, quote: Byte)
    requires i < |src|
    ensures Doubled(src[..i + 1], quote) ==
            Doubled(src[..i], quote) + (if src[i] == quote then [quote, quote] else [src[i]])
  {
    assert src[..i + 1] == src[..i] + [src[i]];
    DoubledConcat(src[..i], [src[i]], quote);
    assert Doubled([src[i]], quote) == if src[i] == quote then [quote, quote] else [src[i]];
  }

  /** An output stream; writing to it never fails here. */
  class Output {
    var text: seq<Byte>

    constructor ()
      ensures text == []
    {
      text := [];
    }

    method PutC(c: Byte)
      modifies this
      ensures text == old(text) + [c]
    {
      text := text + [c];
    }

    /** `csv_fwrite2`; `csv_fwrite` is the instance with the double quote. */
    method FWrite(src: seq<Byte>, quote: Byte)
      modifies this
      ensures text == old(text) + Quoted(src, quote)
    {
      PutC(quote);
      var i := 0;
      while i < |src|
        invariant i <= |src|
        invariant text == old(text) + [quote] + Doubled(src[..i], quote)
      {
        DoubledSnoc(src, i, quote);
        if src[i] == quote {
          PutC(quote);
        }
        PutC(src[i]);
        i := i + 1;
      }
      assert src[..i] == src;
      PutC(quote);
    }

    /** One data row of rec2csv: present cells quoted, missing cells empty, a delimiter
        between cells and a line feed at the end. */
    method WriteRow(row: Row, cfg: Config)
      modifies this
      ensures text == old(text) + EncodeRow(row, cfg)
    {
      WriteCells(row, cfg);
      PutC(CSV_LF);
    }

    method WriteCells(row: Row, cfg: Config)
      modifies this
      ensures text == old(text) + EncodeCells(row, cfg)
    {
      var i := 0;
      while i < |row|
        invariant i <= |row|
        invariant text + Remaining(row, i, cfg) == old(text) + EncodeCells(row, cfg)
      {
        WriteNth(row, i, cfg);
        i := i + 1;
      }
      assert text + [] == text;
    }

    method WriteNth(row: Row, i: nat, cfg: Config)
      requires i < |row|
      modifies this
      ensures text + Remaining(row, i + 1, cfg) == old(text) + Remaining(row, i, cfg)
    {
      WriteCell(row[i], cfg, i == 0);
      RemainingStep(row, i, cfg);
      ghost var piece := (if i == 0 then [] else [cfg.delim]) + EncodeCell(row[i], cfg);
      Assoc(old(text), piece, Remaining(row, i + 1, cfg));
    }

    method WriteCell(cell: Option<seq<Byte>>, cfg: Config, first: bool)
      modifies this
      ensures text == old(text) + ((if first then [] else [cfg.delim]) + EncodeCell(cell, cfg))
    {
      if !first {
        PutC(cfg.delim);
      }
      if cell.Some? {
        FWrite(cell.value, cfg.quote);
      }
    }
  }

  lemma Assoc(a: seq<Byte>, b: seq<Byte>, c: seq<Byte>)
    ensures (a + b) + c == a + (b + c)
  {
  }

  /** What of a row is still to be written before cell `i`. */
  ghost function Remaining(row: Row, i: nat, cfg: Config): seq<Byte>
    requires i <= |row|
  {
    if i == |row| then []
    else if i == 0 then EncodeFrom(row, i, cfg)
    else [cfg.delim] + EncodeFrom(row, i, cfg)
  }

  lemma RemainingStep(row: Row, i: nat, cfg: Config)
    requires i < |row|
    ensures Remaining(row, i, cfg) ==
            (if i == 0 then [] else [cfg.delim]) + EncodeCell(row[i], cfg) + Remaining(row, i + 1, cfg)
  {
  }

  /** `csv_write2`: fill the destination as far as it goes and return the size the whole
      needs, saturated at SIZE_MAX. A null destination acts as one of size zero. */
  method WriteTo(dest: array<Byte>, src: seq<Byte>, quote: Byte) returns (chars: nat)
    requires dest.Length <= SIZE_MAX
    modifies dest
    ensures chars == Saturated(|Quoted(src, quote)|)
    ensures Holds(dest[..], Quoted(src, quote), old(dest[..]))
  {
    ghost var out := [quote];
    if dest.Length > 0 {
      dest[0] := quote;
    }
    chars := 1;
    var i := 0;
    while i < |src|
      invariant i <= |src| && chars == Saturated(|out|)
      invariant out == [quote] + Doubled(src[..i], quote)
      invariant Holds(dest[..], out, old(dest[..]))
    {
      DoubledSnoc(src, i, quote);
      if src[i] == quote {
        chars := PutAt(dest, chars, quote, out, old(dest[..]));
        out := out + [quote];
      }
      chars := PutAt(dest, chars, src[i], out, old(dest[..]));
      out := out + [src[i]];
      i := i + 1;
    }
    assert src[..i] == src;
    chars := PutAt(dest, chars, quote, out, old(dest[..]));
    assert out + [quote] == Quoted(src, quote);
  }

  function Saturated(n: nat): nat { if n < SIZE_MAX then n else SIZE_MAX }

  /** `dest` starts with as much of `out` as fits and is otherwise as it was. */
  ghost predicate Holds(dest: seq<Byte>, out: seq<Byte>, was: seq<Byte>) {
    && |dest| == |was|
    && forall k :: 0 <= k < |dest| ==> dest[k] == if k < |out| then out[k] else was[k]
  }

  method PutAt(dest: array<Byte>, chars: nat, c: Byte, ghost out: seq<Byte>, ghost was: seq<Byte>)
    returns (chars': nat)
    requires dest.Length <= SIZE_MAX
    requires chars == Saturated(|out|) && Holds(dest[..], out, was)
    modifies dest
    ensures chars' == Saturated(|out + [c]|) && Holds(dest[..], out + [c], was)
  {
    if dest.Length > chars {
      dest[chars] := c;
    }
    chars' := if chars < SIZE_MAX then chars + 1 else chars;
  }

  type Row = seq<Option<seq<Byte>>>

  function EncodeCell(cell: Option<seq<Byte>>, cfg: Config): seq<Byte> {
    match cell
    case None => []
    case Some(x) => Quoted(x, cfg.quote)
  }

  /** Cell `i` and the ones after it, with the delimiters between them. */
  function EncodeFrom(row: Row, i: nat, cfg: Config): seq<Byte>
    requires i < |row|
    decreases |row| - i
  {
    if i + 1 == |row| then EncodeCell(row[i], cfg)
    else EncodeCell(row[i], cfg) + [cfg.delim] + EncodeFrom(row, i + 1, cfg)
  }

  function EncodeCells(row: Row, cfg: Config): seq<Byte> {
    if row == [] then [] else EncodeFrom(row, 0, cfg)
  }

  function EncodeRow(row: Row, cfg: Config): seq<Byte> {
    EncodeCells(row, cfg) + [CSV_LF]
  }

  function EncodeTable(rows: seq<Row>, cfg: Config): seq<Byte> {
    if rows == [] then [] else EncodeRow(rows[0], cfg) + EncodeTable(rows[1..], cfg)
  }

  /** The quote, the delimiter and the row terminator cannot be confused. */
  ghost predicate WellSeparated(cfg: Config) {
    && cfg.quote != cfg.delim
    && !cfg.isSpace(cfg.quote) && !cfg.isTerm(cfg.quote)
    && !cfg.isSpace(cfg.delim) && !cfg.isTerm(cfg.delim)
    && cfg.isTerm(CSV_LF) && !cfg.isSpace(CSV_LF)
  }

  /** A row of no cells, or of one missing cell, is written as a bare line feed. */
  predicate BareLine(row: Row) { row == [] || row == [None] }

  function CellEvents(row: Row, i: nat): seq<Event>
    requires i <= |row|
    decreases |row| - i
  {
    if i == |row| then []
    else [FieldEvent(CellData(row[i]))] + CellEvents(row, i + 1)
  }

  /** What a reader should be told about a row: its cells, a missing one as empty, and its
      end. A bare line is a row only if the parser was asked to report all newlines. */
  function RowEvents(row: Row, cfg: Config): seq<Event> {
    if BareLine(row) then if cfg.reportAllNewlines then [RowEvent(CSV_LF as int)] else []
    else CellEvents(row, 0) + [RowEvent(CSV_LF as int)]
  }

  function TableEvents(rows: seq<Row>, cfg: Config): seq<Event> {
    if rows == [] then [] else RowEvents(rows[0], cfg) + TableEvents(rows[1..], cfg)
  }

  const BETWEEN: Core := Core(FieldNotBegun, false, 0, [])

  /** From `st` the parser takes all of `s` without error, reports `events` and ends in `st'`. */
  ghost predicate Goes(cfg: Config, st: Core, s: seq<Byte>, st': Core, events: seq<Event>)
    requires Inv(st)
  {
    Run(cfg, st, s) == RunResult(st', events, |s|, false)
  }

  lemma GoesConcat(cfg: Config, st: Core, s1: seq<Byte>, st1: Core, ev1: seq<Event>,
                   s2: seq<Byte>, st2: Core, ev2: seq<Event>)
    requires Inv(st) && Inv(st1)
    requires Goes(cfg, st, s1, st1, ev1) && Goes(cfg, st1, s2, st2, ev2)
    ensures Goes(cfg, st, s1 + s2, st2, ev1 + ev2)
  {
    hide Run;
    RunConcat(cfg, st, s1, s2);
  }

  lemma GoesOne(cfg: Config, st: Core, c: Byte)
    requires Inv(st) && Step(cfg, st, c).Next?
    ensures Goes(cfg, st, [c], Step(cfg, st, c).st, Step(cfg, st, c).events)
  {
    assert [c][1..] == [];
    assert Run(cfg, Step(cfg, st, c).st, []) == RunResult(Step(cfg, st, c).st, [], 0, false);
  }

  /** The state inside the quotes of a cell of which `acc` has been read. */
  function Open(acc: seq<Byte>): Core { Core(FieldBegun, true, 0, acc) }

  /** The state just after the closing quote of `cell`. */
  function Closed(cfg: Config, cell: seq<Byte>): Core {
    Core(FieldMightHaveEnded, true, 0, cell + [cfg.quote])
  }

  lemma GoesHead(cfg: Config, acc: seq<Byte>, c: Byte)
    requires WellSeparated(cfg)
    ensures Goes(cfg, Open(acc), if c == cfg.quote then [c, c] else [c], Open(acc + [c]), [])
  {
    hide Run;
    GoesOne(cfg, Open(acc), c);
    if c == cfg.quote {
      GoesOne(cfg, Closed(cfg, acc), c);
      GoesConcat(cfg, Open(acc), [c], Closed(cfg, acc), [], [c], Open(acc + [c]), []);
      assert [c] + [c] == [c, c];
    }
  }

  /** Inside quotes every byte of the cell is taken literally. */
  lemma {:induction false} GoesDoubled(cfg: Config, acc: seq<Byte>, cell: seq<Byte>)
    requires WellSeparated(cfg)
    ensures Goes(cfg, Open(acc), Doubled(cell, cfg.quote), Open(acc + cell), [])
    decreases |cell|
  {
    if cell == [] {
      assert acc + cell == acc;
    } else {
      GoesHead(cfg, acc, cell[0]);
      GoesDoubled(cfg, acc + [cell[0]], cell[1..]);
      assert acc + [cell[0]] + cell[1..] == acc + cell;
      GoesConcat(cfg, Open(acc), if cell[0] == cfg.quote then [cell[0], cell[0]] else [cell[0]],
                 Open(acc + [cell[0]]), [], Doubled(cell[1..], cfg.quote), Open(acc + cell), []);
    }
  }

  /** A quoted cell leaves the parser just after its closing quote, with nothing reported. */
  lemma GoesQuoted(cfg: Config, st: Core, cell: seq<Byte>)
    requires WellSeparated(cfg)
    requires st == IDLE || st == BETWEEN
    ensures Goes(cfg, st, Quoted(cell, cfg.quote), Closed(cfg, cell), [])
  {
    hide Run;
    var q := cfg.quote;
    GoesOne(cfg, st, q);
    GoesDoubled(cfg, [], cell);
    assert [] + cell == cell;
    GoesConcat(cfg, st, [q], Open([]), [], Doubled(cell, q), Open(cell), []);
    GoesOne(cfg, Open(cell), q);
    GoesConcat(cfg, st, [q] + Doubled(cell, q), Open(cell), [], [q], Closed(cfg, cell), []);
  }

  function CellData(cell: Option<seq<Byte>>): seq<Byte> {
    match cell
    case None => []
    case Some(x) => x
  }

  /** A delimiter submits the cell before it, present or missing. */
  lemma GoesCellDelim(cfg: Config, st: Core, cell: Option<seq<Byte>>)
    requires WellSeparated(cfg)
    requires st == IDLE || st == BETWEEN
    ensures Goes(cfg, st, EncodeCell(cell, cfg) + [cfg.delim], BETWEEN, [FieldEvent(CellData(cell))])
  {
    hide Run;
    match cell {
      case None =>
        GoesOne(cfg, st, cfg.delim);
        assert EncodeCell(cell, cfg) + [cfg.delim] == [cfg.delim];
      case Some(x) =>
        GoesQuoted(cfg, st, x);
        assert Submitted(Closed(cfg, x)) == x;
        GoesOne(cfg, Closed(cfg, x), cfg.delim);
        GoesConcat(cfg, st, Quoted(x, cfg.quote), Closed(cfg, x), [], [cfg.delim], BETWEEN, [FieldEvent(x)]);
    }
  }

  /** A line feed submits the last cell of a row and the row. */
  lemma GoesCellEnd(cfg: Config, st: Core, cell: Option<seq<Byte>>)
    requires WellSeparated(cfg)
    requires st == BETWEEN || (st == IDLE && cell.Some?)
    ensures Goes(cfg, st, EncodeCell(cell, cfg) + [CSV_LF], IDLE,
                 [FieldEvent(CellData(cell)), RowEvent(CSV_LF as int)])
  {
    hide Run;
    match cell {
      case None =>
        GoesOne(cfg, st, CSV_LF);
        assert EncodeCell(cell, cfg) + [CSV_LF] == [CSV_LF];
      case Some(x) =>
        GoesQuoted(cfg, st, x);
        assert Submitted(Closed(cfg, x)) == x;
        GoesOne(cfg, Closed(cfg, x), CSV_LF);
        GoesConcat(cfg, st, Quoted(x, cfg.quote), Closed(cfg, x), [],
                   [CSV_LF], IDLE, [FieldEvent(x), RowEvent(CSV_LF as int)]);
    }
  }

  /** Cell `i` and the ones after it, read from the start of the row or after a delimiter. */
  lemma {:induction false} GoesCells(cfg: Config, st: Core, row: Row, i: nat)
    requires WellSeparated(cfg)
    requires i < |row| && (st == BETWEEN || (st == IDLE && i == 0 && !BareLine(row)))
    ensures Goes(cfg, st, EncodeFrom(row, i, cfg) + [CSV_LF], IDLE, CellEvents(row, i) + [RowEvent(CSV_LF as int)])
    decreases |row| - i
  {
    hide Goes;
    if i + 1 == |row| {
      GoesLastCell(cfg, st, row, i);
    } else {
      CellsSplit(cfg, row, i);
      GoesCellDelim(cfg, st, row[i]);
      GoesCells(cfg, BETWEEN, row, i + 1);
      GoesConcat(cfg, st, EncodeCell(row[i], cfg) + [cfg.delim], BETWEEN, [FieldEvent(CellData(row[i]))],
                 EncodeFrom(row, i + 1, cfg) + [CSV_LF], IDLE, CellEvents(row, i + 1) + [RowEvent(CSV_LF as int)]);
    }
  }

  lemma GoesLastCell(cfg: Config, st: Core, row: Row, i: nat)
    requires WellSeparated(cfg)
    requires i + 1 == |row| && (st == BETWEEN || (st == IDLE && i == 0 && !BareLine(row)))
    ensures Goes(cfg, st, EncodeFrom(row, i, cfg) + [CSV_LF], IDLE, CellEvents(row, i) + [RowEvent(CSV_LF as int)])
  {
    hide Goes;
    assert i == 0 ==> row == [row[0]];
    assert CellEvents(row, i + 1) == [];
    GoesCellEnd(cfg, st, row[i]);
    assert CellEvents(row, i) + [RowEvent(CSV_LF as int)] == [FieldEvent(CellData(row[i])), RowEvent(CSV_LF as int)];
  }

  lemma CellsSplit(cfg: Config, row: Row, i: nat)
    requires i + 1 < |row|
    ensures EncodeFrom(row, i, cfg) + [CSV_LF] ==
            (EncodeCell(row[i], cfg) + [cfg.delim]) + (EncodeFrom(row, i + 1, cfg) + [CSV_LF])
    ensures CellEvents(row, i) + [RowEvent(CSV_LF as int)] ==
            [FieldEvent(CellData(row[i]))] + (CellEvents(row, i + 1) + [RowEvent(CSV_LF as int)])
  {
  }

  lemma GoesRow(cfg: Config, row: Row)
    requires WellSeparated(cfg)
    ensures Goes(cfg, IDLE, EncodeRow(row, cfg), IDLE, RowEvents(row, cfg))
  {
    if BareLine(row) {
      assert EncodeRow(row, cfg) == [CSV_LF];
      GoesOne(cfg, IDLE, CSV_LF);
    } else {
      GoesCells(cfg, IDLE, row, 0);
    }
  }

  /** The round trip, for every table and with strict checking on or off: the parser reports
      exactly the written rows, takes all the input without error, and `csv_fini` then adds
      nothing. */
  lemma {:induction false} TableRoundTrip(cfg: Config, rows: seq<Row>)
    requires WellSeparated(cfg)
    ensures var text := EncodeTable(rows, cfg);
            Run(cfg, IDLE, text) == RunResult(IDLE, TableEvents(rows, cfg), |text|, false)
    ensures !FiniRefuses(cfg, IDLE) && FiniEvents(IDLE) == []
    decreases |rows|
  {
    if rows == [] {
    } else {
      GoesRow(cfg, rows[0]);
      TableRoundTrip(cfg, rows[1..]);
      GoesConcat(cfg, IDLE, EncodeRow(rows[0], cfg), IDLE, RowEvents(rows[0], cfg),
                 EncodeTable(rows[1..], cfg), IDLE, TableEvents(rows[1..], cfg));
    }
  }

  /** A row is lost by default exactly when it was written as a bare line, so a table comes
      back row for row if and only if none of its rows is one. */
  lemma {:induction false} RowsSurviveIff(cfg: Config, rows: seq<Row>)
    requires WellSeparated(cfg) && !cfg.reportAllNewlines
    ensures RowCount(TableEvents(rows, cfg)) == |rows|
            <==> forall i :: 0 <= i < |rows| ==> !BareLine(rows[i])
    ensures RowCount(TableEvents(rows, cfg)) <= |rows|
    decreases |rows|
  {
    if rows == [] {
    } else {
      RowsSurviveIff(cfg, rows[1..]);
      RowCountConcat(RowEvents(rows[0], cfg), TableEvents(rows[1..], cfg));
      RowCountCells(rows[0], 0);
      RowCountConcat(CellEvents(rows[0], 0), [RowEvent(CSV_LF as int)]);
      assert forall i :: 0 < i < |rows| ==> rows[i] == rows[1..][i - 1];
      if forall i :: 0 <= i < |rows| ==> !BareLine(rows[i]) {
        assert forall i :: 0 <= i < |rows[1..]| ==> !BareLine(rows[1..][i]);
      }
    }
  }

  function RowCount(events: seq<Event>): nat {
    if events == [] then 0 else (if events[0].RowEvent? then 1 else 0) + RowCount(events[1..])
  }

  lemma {:induction false} RowCountConcat(a: seq<Event>, b: seq<Event>)
    ensures RowCount(a + b) == RowCount(a) + RowCount(b)
  {
    if a == [] {
      assert a + b == b;
    } else {
      assert (a + b)[1..] == a[1..] + b;
      RowCountConcat(a[1..], b);
    }
  }

  lemma {:induction false} RowCountCells(row: Row, i: nat)
    requires i <= |row|
    ensures RowCount(CellEvents(row, i)) == 0
    decreases |row| - i
  {
    if i == |row| {
    } else {
      RowCountCells(row, i + 1);
      assert CellEvents(row, i)[1..] == CellEvents(row, i + 1);
    }
  }

  /** In an unquoted field `spaces` counts exactly the maximal run of trailing blanks; after
      a possible closing quote the entry ends in that quote followed by `spaces` blanks. */
  ghost predicate Exact(cfg: Config, st: Core) {
    && Inv(st)
    && (st.pstate == FieldBegun && !st.quoted ==>
          && !Blank(cfg, st.entry[|st.entry| - st.spaces - 1])
          && forall i :: |st.entry| - st.spaces <= i < |st.entry| ==> Blank(cfg, st.entry[i]))
    && (st.pstate == FieldMightHaveEnded ==>
          && st.entry[|st.entry| - st.spaces - 1] == cfg.quote
          && forall i :: |st.entry| - st.spaces <= i < |st.entry| ==> cfg.isSpace(st.entry[i]))
  }

  lemma StepExact(cfg: Config, st: Core, c: Byte)
    requires Exact(cfg, st)
    ensures var r := Step(cfg, st, c); r.Next? ==> Exact(cfg, r.st)
  {
  }

  /** The bookkeeping is exact in every state a run reaches. */
  lemma {:induction false} RunExact(cfg: Config, st: Core, s: seq<Byte>)
    requires Exact(cfg, st)
    ensures Exact(cfg, Run(cfg, st, s).st)
    ensures Exact(cfg, IDLE)
    decreases |s|
  {
    if s == [] {
    } else {
      StepExact(cfg, st, s[0]);
      match Step(cfg, st, s[0])
      case StrictError =>
      case Next(st', _) => RunExact(cfg, st', s[1..]);
    }
  }

  /** A submission cuts exactly the trailing blanks of an unquoted field, the closing quote
      and what follows it of a quoted one, and nothing of an unterminated one. */
  ghost predicate CutsExactly(cfg: Config, st: Core)
    requires Inv(st)
  {
    var data := Submitted(st);
    var tail := st.entry[|data|..];
    && st.entry == data + tail
    && (st.pstate == FieldBegun && !st.quoted ==>
          data != [] && !Blank(cfg, data[|data| - 1]) && forall c :: c in tail ==> Blank(cfg, c))
    && (st.pstate == FieldMightHaveEnded ==>
          tail != [] && tail[0] == cfg.quote && forall c :: c in tail[1..] ==> cfg.isSpace(c))
    && (st.pstate == FieldBegun && st.quoted ==> tail == [])
  }

  lemma ExactCut(cfg: Config, st: Core)
    requires Exact(cfg, st)
    ensures CutsExactly(cfg, st)
  {
    var data := Submitted(st);
    var tail := st.entry[|data|..];
    assert st.entry == data + tail;
    if st.pstate == FieldMightHaveEnded {
      assert tail[1..] == st.entry[|data| + 1..];
    }
  }

  /** Whatever has been read, the next submission cuts exactly what it should. */
  lemma SubmissionCutsExactly(cfg: Config, s: seq<Byte>)
    ensures CutsExactly(cfg, Run(cfg, IDLE, s).st)
  {
    RunExact(cfg, IDLE, s);
    ExactCut(cfg, Run(cfg, IDLE, s).st);
  }
}
