/** The push parser and the quoting writers of the bundled libcsv (libcsv/libcsv.c).

    `Step` and `Run` are the meaning of one character and of a chunk of input; the class
    `CsvParser` is the buffer-managing implementation, proved to follow `Run` exactly.
 */
module Csv {
  newtype Byte = x: int | 0 <= x < 256

  const CSV_TAB: Byte := 0x09
  const CSV_SPACE: Byte := 0x20
  const CSV_CR: Byte := 0x0d
  const CSV_LF: Byte := 0x0a
  const CSV_COMMA: Byte := 0x2c
  const CSV_QUOTE: Byte := 0x22

  const SIZE_MAX: nat := 0xFFFF_FFFF_FFFF_FFFF
  const MEM_BLK_SIZE: nat := 128

  datatype PState = RowNotBegun | FieldNotBegun | FieldBegun | FieldMightHaveEnded

  datatype Status = Success | EParse | ENoMem | ETooBig

  /** What the two callbacks report: a field with its bytes, the end of a row with the
      terminator that ended it (-1 when `csv_fini` ended it). */
  datatype Event = FieldEvent(data: seq<Byte>) | RowEvent(term: int)

  /** Options, delimiter, quote and character classes; fixed while a chunk is parsed. */
  datatype Config = Config(strict: bool, reportAllNewlines: bool, strictFini: bool,
                           quote: Byte, delim: Byte, isSpace: Byte -> bool, isTerm: Byte -> bool)

  predicate DefaultSpace(c: Byte) { c == CSV_SPACE || c == CSV_TAB }

  predicate DefaultTerm(c: Byte) { c == CSV_CR || c == CSV_LF }

  /** The part of the parser that survives between characters. `entry` stands for the first
      `entry_pos` bytes of the entry buffer. */
  datatype Core = Core(pstate: PState, quoted: bool, spaces: nat, entry: seq<Byte>)

  const IDLE: Core := Core(RowNotBegun, false, 0, [])

  /** A byte that counts as a trailing blank of an unquoted field. */
  predicate Blank(cfg: Config, c: Byte) { cfg.isSpace(c) && c != cfg.quote }

  /** What the arithmetic of the parser needs: outside a field nothing is pending, inside a
      quoted field no blanks are counted, and what a submission cuts is really there. */
  ghost predicate Inv(st: Core) {
    match st.pstate
    case RowNotBegun => !st.quoted && st.spaces == 0 && st.entry == []
    case FieldNotBegun => !st.quoted && st.spaces == 0 && st.entry == []
    case FieldBegun => if st.quoted then st.spaces == 0 else st.spaces < |st.entry|
    case FieldMightHaveEnded => st.quoted && st.spaces < |st.entry|
  }

  /** How many bytes at the end of the entry do not belong to the submitted field. */
  function Cut(st: Core): nat {
    match st.pstate
    case FieldMightHaveEnded => st.spaces + 1
    case _ => if st.quoted then 0 else st.spaces
  }

  /** The bytes reported when the pending field is submitted. */
  function Submitted(st: Core): (data: seq<Byte>)
    requires Inv(st)
  {
    st.entry[..|st.entry| - Cut(st)]
  }

  datatype StepResult = Next(st: Core, events: seq<Event>) | StrictError

  function EndField(st: Core): StepResult
    requires Inv(st)
  {
    Next(Core(FieldNotBegun, false, 0, []), [FieldEvent(Submitted(st))])
  }

  function EndRow(st: Core, c: Byte): StepResult
    requires Inv(st)
  {
    Next(IDLE, [FieldEvent(Submitted(st)), RowEvent(c as int)])
  }

  function Push(st: Core, c: Byte, spaces: nat): StepResult {
    Next(st.(entry := st.entry + [c], spaces := spaces), [])
  }

  function StepOutside(cfg: Config, st: Core, c: Byte): StepResult
    requires Inv(st)
    requires st.pstate == RowNotBegun || st.pstate == FieldNotBegun
  {
    if cfg.isSpace(c) then Next(st, [])
    else if cfg.isTerm(c) then
      if st.pstate == FieldNotBegun then EndRow(st, c)
      else if cfg.reportAllNewlines then Next(IDLE, [RowEvent(c as int)])
      else Next(st, [])
    else if c == cfg.delim then EndField(st)
    else if c == cfg.quote then Next(st.(pstate := FieldBegun, quoted := true), [])
    else Push(st.(pstate := FieldBegun, quoted := false), c, 0)
  }

  function StepInside(cfg: Config, st: Core, c: Byte): StepResult
    requires Inv(st)
    requires st.pstate == FieldBegun
  {
    if st.quoted then
      if c == cfg.quote then Push(st.(pstate := FieldMightHaveEnded), c, 0)
      else Push(st, c, 0)
    else if c == cfg.quote then
      if cfg.strict then StrictError else Push(st, c, 0)
    else if c == cfg.delim then EndField(st)
    else if cfg.isTerm(c) then EndRow(st, c)
    else if cfg.isSpace(c) then Push(st, c, st.spaces + 1)
    else Push(st, c, 0)
  }

  function StepAfterQuote(cfg: Config, st: Core, c: Byte): StepResult
    requires Inv(st)
    requires st.pstate == FieldMightHaveEnded
  {
    if c == cfg.delim then EndField(st)
    else if cfg.isTerm(c) then EndRow(st, c)
    else if cfg.isSpace(c) then Push(st, c, st.spaces + 1)
    else if c == cfg.quote && st.spaces == 0 then Next(st.(pstate := FieldBegun), [])
    else if cfg.strict then StrictError
    else if c == cfg.quote then Push(st, c, 0)
    else Push(st.(pstate := FieldBegun), c, 0)
  }

  /** The effect of one character; every reachable state stays within the invariant. */
  function Step(cfg: Config, st: Core, c: Byte): (r: StepResult)
    requires Inv(st)
    ensures r.Next? ==> Inv(r.st)
    ensures r.Next? ==> |r.st.entry| <= |st.entry| + 1
    ensures r.StrictError? ==> cfg.strict
  {
    match st.pstate
    case RowNotBegun => StepOutside(cfg, st, c)
    case FieldNotBegun => StepOutside(cfg, st, c)
    case FieldBegun => StepInside(cfg, st, c)
    case FieldMightHaveEnded => StepAfterQuote(cfg, st, c)
  }

  /** The state reached, what was reported, how many characters were taken, and whether a
      strict-mode error stopped the run before the next one. */
  datatype RunResult = RunResult(st: Core, events: seq<Event>, used: nat, failed: bool)

  function Run(cfg: Config, st: Core, s: seq<Byte>): (r: RunResult)
    requires Inv(st)
    ensures Inv(r.st)
    ensures r.used <= |s|
    ensures r.failed ==> r.used < |s| && Step(cfg, r.st, s[r.used]).StrictError?
    ensures !r.failed ==> r.used == |s|
    decreases |s|
  {
    if s == [] then RunResult(st, [], 0, false)
    else
      match Step(cfg, st, s[0])
      case StrictError => RunResult(st, [], 0, true)
      case Next(st', events) =>
        var rest := Run(cfg, st', s[1..]);
        RunResult(rest.st, events + rest.events, 1 + rest.used, rest.failed)
  }

  function Then(a: RunResult, b: RunResult): RunResult {
    RunResult(b.st, a.events + b.events, a.used + b.used, b.failed)
  }

  lemma RunStep(cfg: Config, st: Core, s: seq<Byte>)
    requires Inv(st) && s != []
    ensures var step := Step(cfg, st, s[0]);
            Run(cfg, st, s) ==
            if step.StrictError? then RunResult(st, [], 0, true)
            else
              var rest := Run(cfg, step.st, s[1..]);
              RunResult(rest.st, step.events + rest.events, 1 + rest.used, rest.failed)
  {
    hide Step;
  }

  lemma RunNone(cfg: Config, st: Core)
    requires Inv(st)
    ensures Run(cfg, st, []) == RunResult(st, [], 0, false)
  {
  }

  /** Chunking does not matter: parsing `s1` and then `s2` reports and leaves behind exactly
      what parsing `s1 + s2` does; an error in `s1` hides `s2`. */
  lemma {:induction false} RunConcat(cfg: Config, st: Core, s1: seq<Byte>, s2: seq<Byte>)
    requires Inv(st)
    ensures var r1 := Run(cfg, st, s1);
            Run(cfg, st, s1 + s2) == if r1.failed then r1 else Then(r1, Run(cfg, r1.st, s2))
    decreases |s1|
  {
    hide Step;
    hide Run;
    if s1 == [] {
      RunNone(cfg, st);
      assert s1 + s2 == s2;
    } else {
      assert (s1 + s2)[0] == s1[0] && (s1 + s2)[1..] == s1[1..] + s2;
      RunStep(cfg, st, s1);
      RunStep(cfg, st, s1 + s2);
      match Step(cfg, st, s1[0])
      case StrictError =>
      case Next(st', events) =>
        RunConcat(cfg, st', s1[1..], s2);
        var r := Run(cfg, st', s1[1..]);
        var r2 := Run(cfg, r.st, s2);
        assert events + (r.events + r2.events) == (events + r.events) + r2.events;
    }
  }

  /** The count returned after a strict error is exactly the part of the input reflected in
      the saved state. */
  lemma {:induction false} RunUsedPrefix(cfg: Config, st: Core, s: seq<Byte>)
    requires Inv(st)
    ensures var r := Run(cfg, st, s);
            Run(cfg, st, s[..r.used]) == r.(failed := false)
    decreases |s|
  {
    hide Step;
    if s == [] {
    } else {
      match Step(cfg, st, s[0])
      case StrictError =>
      case Next(st', events) =>
        RunUsedPrefix(cfg, st', s[1..]);
        var r := Run(cfg, st, s);
        assert s[..r.used][1..] == s[1..][..r.used - 1];
    }
  }

  /** Stopping after any number of characters and resuming with the remaining ones, as after
      a failed buffer growth, neither loses nor repeats anything. */
  lemma ResumeLosesNothing(cfg: Config, st: Core, s: seq<Byte>, k: nat)
    requires Inv(st)
    requires k <= |s| && !Run(cfg, st, s[..k]).failed
    ensures var r1 := Run(cfg, st, s[..k]);
            Then(r1, Run(cfg, r1.st, s[k..])) == Run(cfg, st, s)
  {
    assert s == s[..k] + s[k..];
    RunConcat(cfg, st, s[..k], s[k..]);
  }

  lemma RunSnoc(cfg: Config, st: Core, s: seq<Byte>, k: nat)
    requires Inv(st)
    requires k < |s| && !Run(cfg, st, s[..k]).failed
    ensures var r := Run(cfg, st, s[..k]);
            var step := Step(cfg, r.st, s[k]);
            Run(cfg, st, s[..k + 1]) ==
            if step.StrictError? then r.(failed := true)
            else RunResult(step.st, r.events + step.events, k + 1, false)
  {
    assert s[..k + 1] == s[..k] + [s[k]];
    RunConcat(cfg, st, s[..k], [s[k]]);
  }

  lemma RunFailsEarly(cfg: Config, st: Core, s: seq<Byte>, k: nat)
    requires Inv(st)
    requires k <= |s| && Run(cfg, st, s[..k]).failed
    ensures Run(cfg, st, s) == Run(cfg, st, s[..k])
  {
    assert s == s[..k] + s[k..];
    RunConcat(cfg, st, s[..k], s[k..]);
  }

  /** What taking one more character does to a run and to the log of its reports. */
  lemma RunTakes(cfg: Config, st0: Core, log0: seq<Event>, s: seq<Byte>, pos: nat, step: StepResult)
    requires Inv(st0) && pos < |s|
    requires var r := Run(cfg, st0, s[..pos]); !r.failed && step == Step(cfg, r.st, s[pos])
    ensures var r := Run(cfg, st0, s[..pos]);
            if step.StrictError? then Run(cfg, st0, s) == r.(failed := true)
            else
              var r' := Run(cfg, st0, s[..pos + 1]);
              !r'.failed && r'.st == step.st && log0 + r'.events == log0 + r.events + step.events
  {
    RunSnoc(cfg, st0, s, pos);
    if step.StrictError? {
      RunFailsEarly(cfg, st0, s, pos + 1);
    }
  }

  /** `csv_fini` refuses only an unterminated quoted field, and only under both options. */
  predicate FiniRefuses(cfg: Config, st: Core) {
    st.pstate == FieldBegun && st.quoted && cfg.strict && cfg.strictFini
  }

  function FiniEvents(st: Core): seq<Event>
    requires Inv(st)
  {
    if st.pstate == RowNotBegun then [] else [FieldEvent(Submitted(st)), RowEvent(-1)]
  }

  /** The parser object. `log` is what the callbacks have been told so far. */
  class CsvParser {
    var pstate: PState
    var quoted: bool
    var spaces: nat
    var entryBuf: array?<Byte>
    var entryPos: nat
    var entrySize: nat
    var status: Status
    var cfg: Config
    var blkSize: nat
    var log: seq<Event>

    ghost predicate Valid()
      reads this, entryBuf
    {
      && entrySize == (if entryBuf == null then 0 else entryBuf.Length)
      && entryPos <= entrySize <= SIZE_MAX
      && blkSize <= SIZE_MAX
      && (entryBuf == null ==> pstate == RowNotBegun)
      && Inv(State())
    }

    ghost function State(): Core
      reads this, entryBuf
    {
      Core(pstate, quoted, spaces,
           if entryBuf == null || entryPos > entryBuf.Length then [] else entryBuf[..entryPos])
    }

    constructor (strict: bool, reportAllNewlines: bool, strictFini: bool)
      ensures Valid() && State() == IDLE && log == [] && status == Success
      ensures entryBuf == null && blkSize == MEM_BLK_SIZE
      ensures cfg == Config(strict, reportAllNewlines, strictFini,
                            CSV_QUOTE, CSV_COMMA, DefaultSpace, DefaultTerm)
      ensures cfg.quote == 0x22 && cfg.delim == 0x2c
      ensures forall c :: (cfg.isSpace(c) <==> c == 0x20 || c == 0x09) && (cfg.isTerm(c) <==> c == 0x0d || c == 0x0a)
    {
      entryBuf := null;
      pstate := RowNotBegun;
      quoted := false;
      spaces := 0;
      entryPos := 0;
      entrySize := 0;
      status := Success;
      cfg := Config(strict, reportAllNewlines, strictFini,
                    CSV_QUOTE, CSV_COMMA, DefaultSpace, DefaultTerm);
      blkSize := MEM_BLK_SIZE;
      log := [];
    }

    /** Whether the allocator grants a request is not under the parser's control. */
    method Realloc(size: nat) returns (ok: bool)
    {
      ok := *;
    }

    /** Growing keeps the pending bytes; on failure only `status` changes. */
    method IncreaseBuffer() returns (ok: bool)
      requires Valid()
      modifies this`entryBuf, this`entrySize, this`status
      ensures Valid() && State() == old(State())
      ensures ok ==> entryBuf != null && fresh(entryBuf) && entrySize > old(entrySize) && status == old(status)
      ensures ok ==> entrySize <= old(entrySize) + blkSize
      ensures !ok ==> entryBuf == old(entryBuf) && (status == ENoMem || status == ETooBig)
      ensures !ok ==> (status == ETooBig <==> blkSize == 0 || old(entrySize) == SIZE_MAX)
    {
      var toAdd := blkSize;
      if entrySize >= SIZE_MAX - toAdd {
        toAdd := SIZE_MAX - entrySize;
      }
      if toAdd == 0 {
        status := ETooBig;
        return false;
      }
      var granted := Realloc(entrySize + toAdd);
      while !granted
        invariant 0 < toAdd <= SIZE_MAX - entrySize && toAdd <= blkSize
        invariant Valid() && State() == old(State()) && status == old(status)
        invariant entryBuf == old(entryBuf) && entrySize == old(entrySize)
        decreases toAdd, !granted
      {
        toAdd := toAdd / 2;
        if toAdd == 0 {
          status := ENoMem;
          return false;
        }
        granted := Realloc(entrySize + toAdd);
      }
      var bigger := new Byte[entrySize + toAdd];
      forall i | 0 <= i < entryPos {
        bigger[i] := entryBuf[i];
      }
      assert bigger[..entryPos] == State().entry;
      entryBuf := bigger;
      entrySize := entrySize + toAdd;
      return true;
    }

    /** SUBMIT_FIELD: cut the blanks of an unquoted field, report, reset. */
    method SubmitField()
      requires entryBuf != null && entryPos <= entryBuf.Length
      requires Inv(State()) && pstate != FieldMightHaveEnded
      modifies this`log, this`pstate, this`entryPos, this`quoted, this`spaces
      ensures State() == Core(FieldNotBegun, false, 0, []) && entryPos == 0
      ensures log == old(log) + [FieldEvent(Submitted(old(State())))]
    {
      ghost var entry := State().entry;
      if !quoted {
        entryPos := entryPos - spaces;
      }
      assert entryBuf[..entryPos] == entry[..entryPos];
      log := log + [FieldEvent(entryBuf[..entryPos])];
      pstate := FieldNotBegun;
      entryPos := 0;
      quoted := false;
      spaces := 0;
    }

    /** The same after a possible closing quote: drop the blanks and the quote first. */
    method SubmitQuotedField()
      requires entryBuf != null && entryPos <= entryBuf.Length
      requires Inv(State()) && pstate == FieldMightHaveEnded
      modifies this`log, this`pstate, this`entryPos, this`quoted, this`spaces
      ensures State() == Core(FieldNotBegun, false, 0, []) && entryPos == 0
      ensures log == old(log) + [FieldEvent(Submitted(old(State())))]
    {
      ghost var entry := State().entry;
      entryPos := entryPos - (spaces + 1);
      assert entryBuf[..entryPos] == entry[..entryPos];
      log := log + [FieldEvent(entryBuf[..entryPos])];
      pstate := FieldNotBegun;
      entryPos := 0;
      quoted := false;
      spaces := 0;
    }

    /** SUBMIT_ROW. */
    method SubmitRow(c: int)
      modifies this`log, this`pstate, this`entryPos, this`quoted, this`spaces
      ensures State() == IDLE
      ensures entryPos == 0
      ensures log == old(log) + [RowEvent(c)]
    {
      log := log + [RowEvent(c)];
      pstate := RowNotBegun;
      entryPos := 0;
      quoted := false;
      spaces := 0;
    }

    /** SUBMIT_CHAR; the caller has made room. */
    method SubmitChar(c: Byte)
      requires entryBuf != null && entryPos < entryBuf.Length
      modifies this`entryPos, entryBuf
      ensures State() == old(State()).(entry := old(State().entry) + [c])
      ensures entryPos == old(entryPos) + 1
    {
      entryBuf[entryPos] := c;
      entryPos := entryPos + 1;
    }

    ghost predicate Ready()
      reads this, entryBuf
    {
      Valid() && entryBuf != null && entryPos < entrySize
    }

    twostate predicate Took(c: Byte, ok: bool)
      reads this, entryBuf
      requires old(Ready())
    {
      && Valid() && cfg == old(cfg)
      && var step := Step(cfg, old(State()), c);
      && ok == step.Next?
      && (ok ==> State() == step.st && log == old(log) + step.events && status == old(status))
      && (!ok ==> State() == old(State()) && log == old(log) && status == EParse)
    }

    method CharOutside(c: Byte) returns (ok: bool)
      requires Ready() && (pstate == RowNotBegun || pstate == FieldNotBegun)
      modifies this`log, this`pstate, this`entryPos, this`quoted, this`spaces, entryBuf
      ensures Took(c, ok)
    {
      ok := true;
      if cfg.isSpace(c) {
      } else if cfg.isTerm(c) {
        if pstate == FieldNotBegun {
          SubmitField();
          SubmitRow(c as int);
        } else if cfg.reportAllNewlines {
          SubmitRow(c as int);
        }
      } else if c == cfg.delim {
        SubmitField();
      } else if c == cfg.quote {
        pstate := FieldBegun;
        quoted := true;
      } else {
        pstate := FieldBegun;
        quoted := false;
        SubmitChar(c);
      }
    }

    method CharInside(c: Byte) returns (ok: bool)
      requires Ready() && pstate == FieldBegun
      modifies this`log, this`pstate, this`entryPos, this`quoted, this`spaces, this`status, entryBuf
      ensures Took(c, ok)
    {
      ok := true;
      if c == cfg.quote {
        if quoted {
          SubmitChar(c);
          pstate := FieldMightHaveEnded;
        } else {
          if cfg.strict {
            status := EParse;
            return false;
          }
          SubmitChar(c);
          spaces := 0;
        }
      } else if c == cfg.delim {
        if quoted {
          SubmitChar(c);
        } else {
          SubmitField();
        }
      } else if cfg.isTerm(c) {
        if !quoted {
          SubmitField();
          SubmitRow(c as int);
        } else {
          SubmitChar(c);
        }
      } else if !quoted && cfg.isSpace(c) {
        SubmitChar(c);
        spaces := spaces + 1;
      } else {
        SubmitChar(c);
        spaces := 0;
      }
    }

    method CharAfterQuote(c: Byte) returns (ok: bool)
      requires Ready() && pstate == FieldMightHaveEnded
      modifies this`log, this`pstate, this`entryPos, this`quoted, this`spaces, this`status, entryBuf
      ensures Took(c, ok)
    {
      ok := true;
      if c == cfg.delim {
        SubmitQuotedField();
      } else if cfg.isTerm(c) {
        SubmitQuotedField();
        SubmitRow(c as int);
        assert log == old(log) + [FieldEvent(Submitted(old(State()))), RowEvent(c as int)];
      } else if cfg.isSpace(c) {
        SubmitChar(c);
        spaces := spaces + 1;
      } else if c == cfg.quote {
        if spaces != 0 {
          if cfg.strict {
            status := EParse;
            return false;
          }
          spaces := 0;
          SubmitChar(c);
        } else {
          pstate := FieldBegun;
        }
      } else {
        if cfg.strict {
          status := EParse;
          return false;
        }
        pstate := FieldBegun;
        spaces := 0;
        SubmitChar(c);
      }
    }

    method TakeChar(c: Byte) returns (ok: bool)
      requires Ready()
      modifies this`log, this`pstate, this`entryPos, this`quoted, this`spaces, this`status, entryBuf
      ensures Took(c, ok)
    {
      match pstate {
        case RowNotBegun => ok := CharOutside(c);
        case FieldNotBegun => ok := CharOutside(c);
        case FieldBegun => ok := CharInside(c);
        case FieldMightHaveEnded => ok := CharAfterQuote(c);
      }
    }

    /** The parser is where `Run` is after the first `pos` characters of `s`. */
    ghost predicate Follows(st0: Core, log0: seq<Event>, s: seq<Byte>, pos: nat)
      requires Inv(st0)
      reads this, entryBuf
    {
      && Valid() && pos <= |s|
      && var r := Run(cfg, st0, s[..pos]);
      !r.failed && State() == r.st && log == log0 + r.events
    }

    /** One turn of the loop of `csv_parse`: grow the buffer if it is full, take a character. */
    method Advance(s: seq<Byte>, pos: nat, ghost st0: Core, ghost log0: seq<Event>) returns (ok: bool)
      requires Inv(st0) && Follows(st0, log0, s, pos) && pos < |s| && entryBuf != null
      modifies this`log, this`pstate, this`entryPos, this`quoted, this`spaces, this`status,
               this`entryBuf, this`entrySize, entryBuf
      ensures entryBuf != null && (entryBuf == old(entryBuf) || fresh(entryBuf))
      ensures ok ==> Follows(st0, log0, s, pos + 1) && status == old(status)
      ensures !ok ==> Follows(st0, log0, s, pos)
      ensures !ok ==> status == ENoMem || status == ETooBig ||
                      (status == EParse && Run(cfg, st0, s) == Run(cfg, st0, s[..pos]).(failed := true))
    {
      if entryPos == entrySize {
        var grown := IncreaseBuffer();
        if !grown {
          return false;
        }
      }
      ghost var before := State();
      ok := TakeChar(s[pos]);
      RunTakes(cfg, st0, log0, s, pos, Step(cfg, before, s[pos]));
    }

    /** `csv_parse`: feed a chunk and return how many characters were taken.

        Whatever stops the loop, the state and the reports are those of the characters
        counted. A short count is explained by `status`: a strict error at exactly the
        character `Run` rejects, or a failed buffer growth. */
    method Parse(s: seq<Byte>) returns (pos: nat)
      requires Valid()
      modifies this`log, this`pstate, this`entryPos, this`quoted, this`spaces, this`status,
               this`entryBuf, this`entrySize, entryBuf
      ensures Valid()
      ensures pos <= |s|
      ensures var r := Run(cfg, old(State()), s[..pos]);
              !r.failed && State() == r.st && log == old(log) + r.events
      ensures pos == |s| ==> status == old(status)
      ensures pos < |s| ==>
                || (status == EParse && Run(cfg, old(State()), s).failed && Run(cfg, old(State()), s).used == pos)
                || status == ENoMem || status == ETooBig
      ensures entryBuf == old(entryBuf) || fresh(entryBuf)
    {
      ghost var st0 := State();
      pos := 0;
      assert s[..0] == [];
      if entryBuf == null && pos < |s| {
        var grown := IncreaseBuffer();
        if !grown {
          return;
        }
      }
      while pos < |s|
        invariant Follows(st0, old(log), s, pos)
        invariant pos < |s| ==> entryBuf != null
        invariant status == old(status)
        invariant entryBuf == old(entryBuf) || fresh(entryBuf)
      {
        var ok := Advance(s, pos, st0, old(log));
        if !ok {
          return;
        }
        pos := pos + 1;
      }
      assert s[..pos] == s;
    }

    /** `csv_fini`: submit what is pending and return to the idle state. */
    method Fini() returns (ok: bool)
      requires Valid()
      modifies this`log, this`pstate, this`entryPos, this`quoted, this`spaces, this`status
      ensures Valid()
      ensures ok == !FiniRefuses(cfg, old(State()))
      ensures ok ==> State() == IDLE && status == Success && log == old(log) + FiniEvents(old(State()))
      ensures !ok ==> State() == old(State()) && status == EParse && log == old(log)
    {
      if pstate == FieldBegun && quoted && cfg.strict && cfg.strictFini {
        status := EParse;
        return false;
      }
      if pstate != RowNotBegun {
        if pstate == FieldMightHaveEnded {
          SubmitQuotedField();
        } else {
          SubmitField();
        }
        SubmitRow(-1);
        assert log == old(log) + FiniEvents(old(State()));
      }
      spaces := 0;
      quoted := false;
      entryPos := 0;
      status := Success;
      pstate := RowNotBegun;
      return true;
    }
  }
}
