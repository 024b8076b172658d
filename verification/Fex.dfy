/** Field expressions with subscripts (src/rec-fex.c): printing and parsing. */
module Fex {
  import opened Wrappers
  import opened RecData
  import opened RecordOps
  import opened Numbers
  import opened RecBuf
  import RecGrammar

  const REC_FEX_MAX_ELEMS: nat := 256

  /** An element with the name of the function applied to it and its rewrite rule, if any. */
  datatype Entry = Entry(elem: FexElem, call: Option<string>, rewrite: Option<string>)

  // ----- what is recognised: regular expressions and numbers

  /** The end of [a-zA-Z0-9_]* */
  function WordEnd(s: string, i: nat): (e: nat)
    requires i <= |s|
    ensures i <= e <= |s|
    ensures forall k :: i <= k < e ==> RecGrammar.NameChar(s[k])
    ensures e < |s| ==> !RecGrammar.NameChar(s[e])
    decreases |s| - i
  {
    if i < |s| && RecGrammar.NameChar(s[i]) then WordEnd(s, i + 1) else i
  }

  /** The end of the field name at `i`: [a-zA-Z%][a-zA-Z0-9_]* */
  function NameEnd(s: string, i: nat): (e: Option<nat>)
    requires i <= |s|
    ensures e.Some? ==> i < e.value <= |s|
  {
    if i < |s| && RecGrammar.NameStart(s[i]) then Some(WordEnd(s, i + 1)) else None
  }

  /** The end of the function name at the start: [a-zA-Z_][a-zA-Z0-9_]* */
  function FunctionEnd(s: string): (e: Option<nat>)
    ensures e.Some? ==> 0 < e.value <= |s|
  {
    if |s| > 0 && (RecGrammar.IsLetter(s[0]) || s[0] == '_') then Some(WordEnd(s, 1)) else None
  }

  predicate CharAt(s: string, i: nat, c: char) { i < |s| && s[i] == c }

  /** The string starts with a function call: a function name and, in parentheses, a field name
      that may have a subname. */
  predicate StartsWithCall(s: string) {
    var f := FunctionEnd(s);
    f.Some? && CharAt(s, f.value, '(') &&
    var n := NameEnd(s, f.value + 1);
    n.Some? &&
    (CharAt(s, n.value, ')') ||
     (CharAt(s, n.value, '.') && var m := NameEnd(s, n.value + 1); m.Some? && CharAt(s, m.value, ')')))
  }

  /** What may be in a number: digits of any base, the x of a prefix, and a leading minus. */
  predicate NumberChar(c: char, first: bool) {
    '0' <= c <= '9' || (first && c == '-') || 'a' <= c <= 'f' || 'A' <= c <= 'F' || c == 'x' || c == 'X'
  }

  function NumberEnd(s: string, b: nat, i: nat): (e: nat)
    requires b <= i <= |s|
    ensures i <= e <= |s|
    ensures forall k :: i <= k < e ==> NumberChar(s[k], k == b)
    ensures e < |s| ==> !NumberChar(s[e], e == b)
    decreases |s| - i
  {
    if i < |s| && NumberChar(s[i], i == b) then NumberEnd(s, b, i + 1) else i
  }

  /** `rec_parse_int`: the number at `i` and where it ends. */
  function ParseInt(s: string, i: nat): (r: Option<(CInt, nat)>)
    requires i <= |s|
    ensures r.Some? ==> i <= r.value.1 <= |s|
  {
    var e := NumberEnd(s, i, i);
    match Atoi(s[i..e])
    case None => None
    case Some(n) => Some((n, e))
  }

  // ----- parsing one element

  /** A field name; a subname is joined to it with an underscore. */
  function ParseName(s: string, i: nat): (r: Option<(string, nat)>)
    requires i <= |s|
    ensures r.Some? ==> i < r.value.1 <= |s|
  {
    var n := NameEnd(s, i);
    if n.None? then None
    else if CharAt(s, n.value, '.') then
      var m := NameEnd(s, n.value + 1);
      if m.None? then None else Some((s[i..n.value] + "_" + s[n.value + 1..m.value], m.value))
    else Some((s[i..n.value], n.value))
  }

  /** The optional subscripts: minimum, maximum (-1 where absent) and where they end. */
  function ParseSubscripts(s: string, i: nat): (r: Option<(CInt, CInt, nat)>)
    requires i <= |s|
    ensures r.Some? ==> i <= r.value.2 <= |s|
  {
    if !CharAt(s, i, '[') then Some((-1, -1, i))
    else
      match ParseInt(s, i + 1)
      case None => None
      case Some((min, j)) =>
        if CharAt(s, j, '-') then
          match ParseInt(s, j + 1)
          case None => None
          case Some((max, k)) => if CharAt(s, k, ']') then Some((min, max, k + 1)) else None
        else if CharAt(s, j, ']') then Some((min, -1, j + 1))
        else None
  }

  /** The optional rewrite rule, which must end the element. */
  function ParseRewrite(s: string, i: nat): Option<Option<string>>
    requires i <= |s|
  {
    if i == |s| then Some(None)
    else if s[i] == ':' then
      var n := NameEnd(s, i + 1);
      if n == Some(|s|) then Some(Some(s[i + 1..n.value])) else None
    else None
  }

  /** `rec_fex_parse_elem` */
  function ParseElem(s: string): Option<Entry> {
    var call := StartsWithCall(s);
    var f := if call then FunctionEnd(s).value else 0;
    match ParseName(s, if call then f + 1 else 0)
    case None => None
    case Some((name, i)) =>
      match ParseSubscripts(s, i)
      case None => None
      case Some((min, max, j)) =>
        CallClosed(s);
        match ParseRewrite(s, if call then j + 1 else j)
        case None => None
        case Some(rewrite) => Some(Entry(FexElem(name, min, max), if call then Some(s[..f]) else None, rewrite))
  }

  /** In a call the name ends at the closing parenthesis, so there are no subscripts and the
      skip over the parenthesis stays inside the string. */
  lemma CallClosed(s: string)
    ensures StartsWithCall(s) ==>
      var n := ParseName(s, FunctionEnd(s).value + 1);
      n.Some? && CharAt(s, n.value.1, ')') && ParseSubscripts(s, n.value.1) == Some((-1, -1, n.value.1))
  {
  }

  method ParseElemCode(str: string) returns (r: Option<Entry>)
    ensures r == ParseElem(str)
  {
    hide ParseName;
    hide ParseSubscripts;
    hide ParseRewrite;
    var p := 0;
    var call: Option<string> := None;
    var isCall := MatchCall(str);
    CallClosed(str);
    if isCall {
      p := ScanWord(str, 1);
      call := Some(str[..p]);
      p := p + 1;
    }
    hide StartsWithCall;
    hide WordEnd;
    var name := ScanName(str, p);
    if name.None? {
      return None;
    }
    var subscripts := ScanSubscripts(str, name.value.1);
    if subscripts.None? {
      return None;
    }
    var (min, max, next) := subscripts.value;
    p := if call.Some? then next + 1 else next;
    var rewrite := ScanRewrite(str, p);
    if rewrite.None? {
      return None;
    }
    return Some(Entry(FexElem(name.value.0, min, max), call, rewrite.value));
  }

  method ScanName(s: string, i: nat) returns (r: Option<(string, nat)>)
    requires i <= |s|
    ensures r == ParseName(s, i)
  {
    if i == |s| || !RecGrammar.NameStart(s[i]) {
      return None;
    }
    var e := ScanWord(s, i + 1);
    var name, p := s[i..e], e;
    if p < |s| && s[p] == '.' {
      p := p + 1;
      if p == |s| || !RecGrammar.NameStart(s[p]) {
        return None;
      }
      e := ScanWord(s, p + 1);
      name, p := name + "_" + s[p..e], e;
    }
    return Some((name, p));
  }

  method ScanRewrite(s: string, i: nat) returns (r: Option<Option<string>>)
    requires i <= |s|
    ensures r == ParseRewrite(s, i)
  {
    var rewrite, p := None, i;
    if p < |s| && s[p] == ':' {
      p := p + 1;
      if p == |s| || !RecGrammar.NameStart(s[p]) {
        return None;
      }
      var e := ScanWord(s, p + 1);
      rewrite, p := Some(s[p..e]), e;
    }
    if p != |s| {
      return None;
    }
    return Some(rewrite);
  }

  method ScanWord(s: string, i: nat) returns (e: nat)
    requires i <= |s|
    ensures e == WordEnd(s, i)
  {
    e := i;
    while e < |s| && RecGrammar.NameChar(s[e])
      invariant e <= |s| && WordEnd(s, i) == WordEnd(s, e)
    {
      e := e + 1;
    }
  }

  method MatchCall(s: string) returns (b: bool)
    ensures b == StartsWithCall(s)
  {
    if s == "" || !(RecGrammar.IsLetter(s[0]) || s[0] == '_') {
      return false;
    }
    var p := ScanWord(s, 1);
    if p == |s| || s[p] != '(' || p + 1 == |s| || !RecGrammar.NameStart(s[p + 1]) {
      return false;
    }
    p := ScanWord(s, p + 2);
    if p < |s| && s[p] == '.' && p + 1 < |s| && RecGrammar.NameStart(s[p + 1]) {
      p := ScanWord(s, p + 2);
    }
    return p < |s| && s[p] == ')';
  }

  method ScanInt(s: string, b: nat) returns (r: Option<(CInt, nat)>)
    requires b <= |s|
    ensures r == ParseInt(s, b)
  {
    hide Atoi;
    var p := b;
    while p < |s| && NumberChar(s[p], p == b)
      invariant b <= p <= |s| && NumberEnd(s, b, b) == NumberEnd(s, b, p)
    {
      p := p + 1;
    }
    var n := Atoi(s[b..p]);
    r := if n.Some? then Some((n.value, p)) else None;
  }

  method ScanSubscripts(s: string, i: nat) returns (r: Option<(CInt, CInt, nat)>)
    requires i <= |s|
    ensures r == ParseSubscripts(s, i)
  {
    hide ParseInt;
    if i == |s| || s[i] != '[' {
      return Some((-1, -1, i));
    }
    var first := ScanInt(s, i + 1);
    if first.None? {
      return None;
    }
    var (min, p) := first.value;
    var max: CInt := -1;
    if p < |s| && s[p] == '-' {
      var second := ScanInt(s, p + 1);
      if second.None? {
        return None;
      }
      max, p := second.value.0, second.value.1;
    }
    if p == |s| || s[p] != ']' {
      return None;
    }
    return Some((min, max, p + 1));
  }

  // ----- parsing the whole expression

  /** The next comma, or the end. */
  function CommaAt(s: string, i: nat): (e: nat)
    requires i <= |s|
    ensures i <= e <= |s|
    ensures forall k :: i <= k < e ==> s[k] != ','
    ensures e < |s| ==> s[e] == ','
    decreases |s| - i
  {
    if i < |s| && s[i] != ',' then CommaAt(s, i + 1) else i
  }

  /** The pieces between commas. */
  function Pieces(s: string, i: nat): (ps: seq<string>)
    requires i <= |s|
    ensures ps != []
    decreases |s| - i
  {
    var e := CommaAt(s, i);
    [s[i..e]] + if e == |s| then [] else Pieces(s, e + 1)
  }

  /** The elements of the first `k` pieces, if they all parse. */
  function ParseFirst(ps: seq<string>, k: nat): (r: Option<seq<Entry>>)
    requires k <= |ps|
    ensures r.Some? ==> |r.value| == k
  {
    if k == 0 then Some([])
    else
      var before := ParseFirst(ps, k - 1);
      if before.None? then None
      else
        var e := ParseElem(ps[k - 1]);
        if e.None? then None else Some(before.value + [e.value])
  }

  /** `rec_fex_parse_str_subscripts` */
  function Parse(s: string): Option<seq<Entry>> {
    var ps := Pieces(s, 0);
    ParseFirst(ps, |ps|)
  }

  lemma {:induction false} FailsOnwards(ps: seq<string>, k: nat, m: nat)
    requires k <= m <= |ps| && ParseFirst(ps, k).None?
    ensures ParseFirst(ps, m).None?
  {
    hide ParseElem;
    if k == m {
    } else {
      FailsOnwards(ps, k, m - 1);
    }
  }

  lemma PiecesStep(s: string, cur: nat, ps: seq<string>, n: nat)
    requires cur <= |s| && n < |ps| && Pieces(s, cur) == ps[n..]
    ensures var e := CommaAt(s, cur);
            && ps[n] == s[cur..e]
            && if e == |s| then n + 1 == |ps| else n + 1 < |ps| && Pieces(s, e + 1) == ps[n + 1..]
  {
    hide Pieces;
    hide CommaAt;
    PiecesUnfold(s, cur);
    assert ps[n] == ps[n..][0];
    assert ps[n + 1..] == ps[n..][1..];
  }

  class FieldExpression {
    const elems: array<Entry>
    var numElems: nat

    constructor ()
      ensures fresh(elems) && elems.Length == REC_FEX_MAX_ELEMS && numElems == 0
    {
      elems := new Entry[REC_FEX_MAX_ELEMS](_ => Entry(FexElem("", -1, -1), None, None));
      numElems := 0;
    }

    ghost predicate Valid()
      reads this
    {
      numElems <= elems.Length == REC_FEX_MAX_ELEMS
    }

    /** The elements go into a fixed array that is not guarded, so the callers must not pass
        more than fit before the first one that fails. */
    method ParseStr(str: string) returns (ok: bool)
      requires Valid() && numElems == 0
      requires var ps := Pieces(str, 0);
               forall k :: REC_FEX_MAX_ELEMS < k <= |ps| ==> ParseFirst(ps, k).None?
      modifies this, elems
      ensures Valid() && ok == Parse(str).Some?
      ensures ok ==> elems[..numElems] == Parse(str).value
    {
      hide ParseElem;
      hide Pieces;
      ghost var ps := Pieces(str, 0);
      var cur := 0;
      while true
        invariant cur <= |str| && numElems < |ps| && Pieces(str, cur) == ps[numElems..]
        invariant Valid() && ParseFirst(ps, numElems) == Some(elems[..numElems])
        decreases |str| - cur
      {
        var end := cur;
        while end < |str| && str[end] != ','
          invariant cur <= end <= |str| && CommaAt(str, cur) == CommaAt(str, end)
        {
          end := end + 1;
        }
        PiecesStep(str, cur, ps, numElems);
        var elem := ParseElemCode(str[cur..end]);
        if elem.None? {
          FailsOnwards(ps, numElems + 1, |ps|);
          return false;
        }
        assert ParseFirst(ps, numElems + 1) == Some(elems[..numElems] + [elem.value]);
        Append(elem.value);
        if end == |str| {
          return true;
        }
        cur := end + 1;
      }
    }

    method Append(e: Entry)
      requires Valid() && numElems < REC_FEX_MAX_ELEMS
      modifies this, elems
      ensures Valid() && elems[..numElems] == old(elems[..numElems]) + [e]
    {
      elems[numElems] := e;
      numElems := numElems + 1;
    }

    /** `rec_fex_str` with subscripts */
    method Str() returns (s: string)
      requires Valid()
      ensures s == Text(elems[..numElems], numElems)
    {
      hide ElemText;
      ghost var es := elems[..numElems];
      var buf := new Buf();
      var i := 0;
      while i < numElems
        invariant i <= numElems && elems[..numElems] == es
        invariant buf.Valid() && fresh(buf) && fresh(buf.data) && buf.Contents() == Text(es, i)
      {
        if i != 0 {
          buf.PutC(',');
        }
        PutElem(buf, elems[i]);
        i := i + 1;
      }
      s := buf.Close();
    }

    method PutElem(buf: Buf, e: Entry)
      requires buf.Valid()
      modifies buf, buf.data
      ensures buf.Valid() && (buf.data == old(buf.data) || fresh(buf.data))
      ensures buf.Contents() == old(buf.Contents()) + ElemText(e.elem)
    {
      hide Dec;
      buf.PutS(e.elem.name);
      if e.elem.min != -1 || e.elem.max != -1 {
        hide Subscripts;
        PutSubscripts(buf, e.elem.min, e.elem.max);
      }
    }

    method PutSubscripts(buf: Buf, min: int, max: int)
      requires buf.Valid() && (min != -1 || max != -1)
      modifies buf, buf.data
      ensures buf.Valid() && (buf.data == old(buf.data) || fresh(buf.data))
      ensures buf.Contents() == old(buf.Contents()) + Subscripts(min, max)
    {
      hide Dec;
      ghost var before := buf.Contents();
      ghost var first := if min != -1 then Dec(min) else "";
      ghost var second := if max != -1 then "-" + Dec(max) else "";
      buf.PutC('[');
      if min != -1 {
        buf.PutS(Dec(min));
      }
      assert buf.Contents() == before + ("[" + first);
      if max != -1 {
        buf.PutS("-" + Dec(max));
      }
      assert buf.Contents() == before + ("[" + first + second);
      buf.PutC(']');
      assert buf.Contents() == before + ("[" + first + second + "]");
    }
  }

  // ----- printing

  function Subscripts(min: int, max: int): string {
    if min == -1 && max == -1 then ""
    else "[" + (if min != -1 then Dec(min) else "") + (if max != -1 then "-" + Dec(max) else "") + "]"
  }

  function ElemText(e: FexElem): string { e.name + Subscripts(e.min, e.max) }

  /** The printed form of the first `k` elements. */
  function Text(es: seq<Entry>, k: nat): string
    requires k <= |es|
  {
    if k == 0 then ""
    else Text(es, k - 1) + (if k > 1 then "," else "") + ElemText(es[k - 1].elem)
  }

  // ----- reading back what was printed

  lemma DecIsNumber(n: CInt)
    ensures Dec(n) != "" && Atoi(Dec(n)) == Some(n as int)
    ensures forall k :: 0 <= k < |Dec(n)| ==> NumberChar(Dec(n)[k], k == 0) && Dec(n)[k] != ','
  {
    hide Atoi;
    var m: int := n;
    AtoiPrinted(m);
    DigitsFold(if m < 0 then -m else m);
    hide Digits;
  }

  /** The number scanner reads a printed number to its end and no further. */
  lemma NumberBack(s: string, i: nat, n: CInt, e: nat)
    requires i <= e <= |s| && s[i..e] == Dec(n)
    requires e < |s| && (s[e] == ']' || s[e] == '-')
    ensures ParseInt(s, i) == Some((n, e))
  {
    hide Atoi;
    hide Dec;
    DecIsNumber(n);
    assert forall k :: i <= k < e ==> s[k] == s[i..e][k - i];
    assert e > i;
    assert !NumberChar(s[e], e == i);
    var j := NumberEnd(s, i, i);
    assert j == e;
  }

  /** A lone minus sign is not a number. */
  lemma MinusIsNone(s: string, i: nat)
    requires i + 1 < |s| && s[i] == '-' && s[i + 1] == '-'
    ensures ParseInt(s, i).None?
  {
    var e := NumberEnd(s, i, i);
    assert NumberChar(s[i], true) && !NumberChar(s[i + 1], false);
    assert e == i + 1;
    assert s[i..e] == "-";
    assert SkipSpace("-", 0) == 0;
    assert Strtol("-", 0).end == 0;
  }

  /** What the printed subscripts are read back as. A maximum without a minimum is taken for a
      negative minimum, or rejected when it is itself negative. */
  function SubscriptsBack(min: CInt, max: CInt): Option<(CInt, CInt)> {
    if min != -1 || max == -1 then Some((min, max))
    else if max >= 0 then Some((-max, -1))
    else None
  }

  lemma OneBack(s: string, i: nat, min: CInt)
    requires i <= |s| && s[i..] == "[" + Dec(min) + "]"
    ensures var end: nat := |s|; ParseSubscripts(s, i) == Some((min, -1, end))
  {
    hide ParseInt;
    hide Dec;
    var rest, n := s[i..], |Dec(min)|;
    assert forall k :: 0 <= k < |rest| ==> rest[k] == s[i + k];
    assert rest[0] == '[' && rest[n + 1] == ']' && |rest| == n + 2;
    assert s[i + 1..i + 1 + n] == rest[1..1 + n] == Dec(min);
    NumberBack(s, i + 1, min, i + 1 + n);
  }

  lemma TwoBack(s: string, i: nat, min: CInt, max: CInt)
    requires i <= |s| && s[i..] == "[" + Dec(min) + "-" + Dec(max) + "]"
    ensures ParseSubscripts(s, i) == Some((min, max, |s|))
  {
    hide ParseInt;
    hide Dec;
    var rest, n, m := s[i..], |Dec(min)|, |Dec(max)|;
    assert forall k :: 0 <= k < |rest| ==> rest[k] == s[i + k];
    assert rest[0] == '[' && rest[n + 1] == '-' && rest[n + m + 2] == ']' && |rest| == n + m + 3;
    assert s[i + 1..i + 1 + n] == rest[1..1 + n] == Dec(min);
    assert s[i + n + 2..i + n + 2 + m] == rest[n + 2..n + 2 + m] == Dec(max);
    NumberBack(s, i + 1, min, i + 1 + n);
    NumberBack(s, i + n + 2, max, i + n + 2 + m);
  }

  lemma SubscriptsReadBack(name: string, min: CInt, max: CInt)
    ensures var s := name + Subscripts(min, max);
            var r := ParseSubscripts(s, |name|);
            match SubscriptsBack(min, max)
            case None => r.None?
            case Some((a, b)) => r == Some((a, b, |s|))
  {
    hide ParseInt;
    hide Dec;
    var sub := Subscripts(min, max);
    var s, i := name + sub, |name|;
    assert s[i..] == sub;
    if min == -1 && max != -1 {
      assert sub == "[" + ("-" + Dec(max) + "]");
      assert s[i + 1..] == sub[1..] == "-" + Dec(max) + "]";
      LoneMaximum(s, i + 1, max);
      assert s[i] == '[' && s[|s| - 1] == sub[|sub| - 1] == ']';
    } else if min != -1 && max == -1 {
      assert sub == "[" + Dec(min) + "]";
      OneBack(s, i, min);
    } else if min != -1 {
      assert sub == "[" + Dec(min) + "-" + Dec(max) + "]";
      TwoBack(s, i, min, max);
    }
  }

  lemma LoneMaximum(s: string, i: nat, max: CInt)
    requires i <= |s| && s[i..] == "-" + Dec(max) + "]"
    ensures max < 0 ==> ParseInt(s, i).None?
    ensures max >= 0 ==> ParseInt(s, i) == Some((-max, |s| - 1))
  {
    hide Atoi;
    hide Digits;
    var rest := s[i..];
    assert forall k :: 0 <= k < |rest| ==> rest[k] == s[i + k];
    if max < 0 {
      assert rest[1] == '-';
      MinusIsNone(s, i);
    } else {
      AtoiNegative(max);
      DigitsFold(max);
      var e := |s| - 1;
      assert s[i..e] == rest[..|rest| - 1] == "-" + Digits(max);
      assert forall k :: i < k < e ==> s[k] == s[i..e][k - i] == Digits(max)[k - i - 1];
      assert s[e] == ']';
      assert NumberEnd(s, i, i) == e;
    }
  }

  /** What a printed element is read back as. */
  function ElemBack(e: FexElem): Option<Entry> {
    match SubscriptsBack(e.min, e.max)
    case None => None
    case Some((min, max)) => Some(Entry(FexElem(e.name, min, max), None, None))
  }

  lemma ElemReadBack(e: FexElem)
    requires RecGrammar.ValidName(e.name)
    ensures ParseElem(ElemText(e)) == ElemBack(e)
  {
    hide ParseSubscripts;
    hide Dec;
    var s := ElemText(e);
    var n := |e.name|;
    assert s[..n] == e.name;
    assert forall k :: 0 <= k < n ==> s[k] == e.name[k];
    assert n < |s| ==> s[n] == '[';
    assert WordEnd(s, 1) == n;
    assert !StartsWithCall(s);
    assert ParseName(s, 0) == Some((e.name, n));
    SubscriptsReadBack(e.name, e.min, e.max);
  }

  lemma NoCommaInside(e: FexElem)
    requires RecGrammar.ValidName(e.name)
    ensures forall k :: 0 <= k < |ElemText(e)| ==> ElemText(e)[k] != ','
  {
    hide Dec;
    DecIsNumber(e.min);
    DecIsNumber(e.max);
  }

  lemma CommaKept(s: string, i: nat, last: string)
    requires i <= |s|
    ensures var e, t := CommaAt(s, i), s + "," + last; CommaAt(t, i) == e && t[i..e] == s[i..e]
  {
    var e, t := CommaAt(s, i), s + "," + last;
    assert t[e] == ',' && forall k :: i <= k < e ==> t[k] == s[k];
  }

  lemma PiecesUnfold(s: string, i: nat)
    requires i <= |s|
    ensures var e := CommaAt(s, i); Pieces(s, i) == [s[i..e]] + if e == |s| then [] else Pieces(s, e + 1)
  {
  }

  lemma {:induction false} PiecesSnoc(s: string, i: nat, last: string)
    requires i <= |s| && forall k :: 0 <= k < |last| ==> last[k] != ','
    ensures Pieces(s + "," + last, i) == Pieces(s, i) + [last]
    decreases |s| - i
  {
    hide Pieces;
    hide CommaAt;
    var t := s + "," + last;
    var e := CommaAt(s, i);
    CommaKept(s, i, last);
    PiecesUnfold(t, i);
    PiecesUnfold(s, i);
    if e < |s| {
      PiecesSnoc(s, e + 1, last);
      assert [s[i..e]] + (Pieces(s, e + 1) + [last]) == ([s[i..e]] + Pieces(s, e + 1)) + [last];
    } else {
      OnePiece(t, e + 1);
      assert t[e + 1..] == last;
    }
  }

  lemma OnePiece(t: string, i: nat)
    requires i <= |t| && forall k :: i <= k < |t| ==> t[k] != ','
    ensures Pieces(t, i) == [t[i..]]
  {
    assert CommaAt(t, i) == |t|;
    assert t[i..|t|] == t[i..];
    assert [t[i..]] + [] == [t[i..]];
  }

  ghost predicate NamesValid(es: seq<Entry>) {
    forall i :: 0 <= i < |es| ==> RecGrammar.ValidName(es[i].elem.name)
  }

  lemma {:induction false} PiecesOfText(es: seq<Entry>, k: nat)
    requires 0 < k <= |es| && NamesValid(es)
    ensures Pieces(Text(es, k), 0) == seq(k, i requires 0 <= i < k => ElemText(es[i].elem))
  {
    hide ElemText;
    hide Pieces;
    var last := ElemText(es[k - 1].elem);
    NoCommaInside(es[k - 1].elem);
    if k == 1 {
      assert Text(es, 0) == "" && Text(es, 1) == "" + "" + last == last;
      OnePiece(last, 0);
      assert last[0..] == last;
    } else {
      PiecesOfText(es, k - 1);
      PiecesSnoc(Text(es, k - 1), 0, last);
      assert Text(es, k) == Text(es, k - 1) + "," + last;
    }
  }

  /** The element survives printing: it has no call and no rewrite rule, which are not printed,
      and no maximum without a minimum. */
  predicate Printable(e: Entry) {
    e.call.None? && e.rewrite.None? && (e.elem.min == -1 ==> e.elem.max == -1)
  }

  lemma {:induction false} ParseFirstIff(es: seq<Entry>, ps: seq<string>, k: nat)
    requires NamesValid(es) && k <= |es| == |ps|
    requires forall i :: 0 <= i < |ps| ==> ps[i] == ElemText(es[i].elem)
    ensures ParseFirst(ps, k) == Some(es[..k]) <==> forall i :: 0 <= i < k ==> Printable(es[i])
  {
    hide ParseElem;
    hide ElemText;
    hide RecGrammar.ValidName;
    if k == 0 {
    } else {
      ParseFirstIff(es, ps, k - 1);
      ElemReadBack(es[k - 1].elem);
      assert es[..k] == es[..k - 1] + [es[k - 1]];
      assert ElemBack(es[k - 1].elem) == Some(es[k - 1]) <==> Printable(es[k - 1]);
      var before := ParseFirst(ps, k - 1);
      if before.Some? && ParseFirst(ps, k) == Some(es[..k]) {
        assert before.value == (before.value + [ParseElem(ps[k - 1]).value])[..k - 1] == es[..k - 1];
      }
    }
  }

  /** Parsing what was printed gives back the same elements exactly for the expressions that
      are not empty and whose elements all survive printing. */
  lemma FexRoundTripIff(es: seq<Entry>)
    requires NamesValid(es)
    ensures Parse(Text(es, |es|)) == Some(es) <==> es != [] && forall i :: 0 <= i < |es| ==> Printable(es[i])
  {
    hide ElemText;
    hide ParseElem;
    if es == [] {
      OnePiece("", 0);
    } else {
      PiecesOfText(es, |es|);
      ParseFirstIff(es, Pieces(Text(es, |es|), 0), |es|);
      assert es[..|es|] == es;
    }
  }

  // ----- subnames, calls and rewrite rules

  lemma WordEndsAt(s: string, i: nat, e: nat)
    requires i <= e <= |s| && (forall k :: i <= k < e ==> RecGrammar.NameChar(s[k]))
    requires e < |s| ==> !RecGrammar.NameChar(s[e])
    ensures WordEnd(s, i) == e
  {
  }

  /** A valid name inside a text, before something that is no name character. */
  lemma NameInside(s: string, i: nat, name: string)
    requires RecGrammar.ValidName(name) && i + |name| <= |s| && s[i..i + |name|] == name
    requires i + |name| < |s| ==> !RecGrammar.NameChar(s[i + |name|])
    ensures NameEnd(s, i) == Some(i + |name|)
  {
    assert forall k :: i <= k < i + |name| ==> s[k] == name[k - i];
    WordEndsAt(s, i + 1, i + |name|);
  }

  lemma StartsPlain(s: string, name: string, c: char)
    requires RecGrammar.ValidName(name) && |name| < |s| && s[..|name|] == name && s[|name|] == c
    requires !RecGrammar.NameChar(c) && c != '('
    ensures !StartsWithCall(s) && NameEnd(s, 0) == Some(|name|)
  {
    assert s[0..|name|] == name;
    NameInside(s, 0, name);
    assert forall k :: 0 <= k < |name| ==> s[k] == name[k];
    WordEndsAt(s, 1, |name|);
  }

  /** A subname is joined to the name with an underscore. */
  lemma SubnameRead(a: string, b: string)
    requires RecGrammar.ValidName(a) && RecGrammar.ValidName(b)
    ensures ParseElem(a + "." + b) == Some(Entry(FexElem(a + "_" + b, -1, -1), None, None))
  {
    var s := a + "." + b;
    var n := |a|;
    assert |s| == n + 1 + |b| && s[n] == '.';
    assert s[n + 1..n + 1 + |b|] == b;
    assert s[..n] == a && s[0..n] == a;
    StartsPlain(s, a, '.');
    assert n + 1 + |b| == |s|;
    NameInside(s, n + 1, b);
    hide StartsWithCall;
    hide NameEnd;
    assert ParseName(s, 0) == Some((a + "_" + b, n + 1 + |b|));
  }

  /** A rewrite rule is what follows a colon. */
  lemma RewriteRead(a: string, b: string)
    requires RecGrammar.ValidName(a) && RecGrammar.ValidName(b)
    ensures ParseElem(a + ":" + b) == Some(Entry(FexElem(a, -1, -1), None, Some(b)))
  {
    var s := a + ":" + b;
    var n := |a|;
    assert |s| == n + 1 + |b| && s[n] == ':';
    assert s[n + 1..n + 1 + |b|] == b;
    assert s[..n] == a && s[0..n] == a;
    StartsPlain(s, a, ':');
    assert n + 1 + |b| == |s|;
    NameInside(s, n + 1, b);
    hide StartsWithCall;
    hide NameEnd;
    assert ParseName(s, 0) == Some((a, n));
  }

  /** The name of a function: a letter or an underscore, then letters, digits and underscores. */
  predicate IsFunctionName(f: string) {
    f != "" && (RecGrammar.IsLetter(f[0]) || f[0] == '_') && forall i :: 1 <= i < |f| ==> RecGrammar.NameChar(f[i])
  }

  /** A call is a function name and a field name in parentheses. */
  lemma CallRead(f: string, a: string)
    requires IsFunctionName(f) && RecGrammar.ValidName(a)
    ensures ParseElem(f + "(" + a + ")") == Some(Entry(FexElem(a, -1, -1), Some(f), None))
  {
    var s := f + "(" + a + ")";
    var n, m := |f|, |f| + 1 + |a|;
    assert s[..n] == f && s[n] == '(' && s[n + 1..m] == a && s[m] == ')' && |s| == m + 1;
    assert forall k :: 0 <= k < n ==> s[k] == f[k];
    WordEndsAt(s, 1, n);
    NameInside(s, n + 1, a);
    assert FunctionEnd(s) == Some(n);
    hide FunctionEnd;
    hide NameEnd;
    assert StartsWithCall(s);
    assert ParseName(s, n + 1) == Some((a, m));
  }

  // ----- the written form

  /** Subscripts stand in brackets, a dash between the two; elements are separated by commas. */
  lemma SubscriptsWritten(name: string, min: CInt, max: CInt, e1: Entry, e2: Entry)
    requires min != -1 && max != -1
    ensures ElemText(FexElem(name, -1, -1)) == name
    ensures ElemText(FexElem(name, min, -1)) == name + "[" + Dec(min) + "]"
    ensures ElemText(FexElem(name, min, max)) == name + "[" + Dec(min) + "-" + Dec(max) + "]"
    ensures Text([e1, e2], 2) == ElemText(e1.elem) + "," + ElemText(e2.elem)
  {
    hide Dec;
    SubscriptForms(min, max);
    assert name + "" == name;
    assert name + ("[" + Dec(min) + "]") == name + "[" + Dec(min) + "]";
    assert name + ("[" + Dec(min) + "-" + Dec(max) + "]") == name + "[" + Dec(min) + "-" + Dec(max) + "]";
    TwoElems(e1, e2);
  }

  lemma SubscriptForms(min: CInt, max: CInt)
    requires min != -1 && max != -1
    ensures Subscripts(-1, -1) == "" && Subscripts(min, -1) == "[" + Dec(min) + "]"
    ensures Subscripts(min, max) == "[" + Dec(min) + "-" + Dec(max) + "]"
  {
    hide Dec;
    assert "[" + Dec(min) + "" + "]" == "[" + Dec(min) + "]";
    assert "[" + Dec(min) + ("-" + Dec(max)) + "]" == "[" + Dec(min) + "-" + Dec(max) + "]";
  }

  lemma TwoElems(e1: Entry, e2: Entry)
    ensures Text([e1, e2], 2) == ElemText(e1.elem) + "," + ElemText(e2.elem)
  {
    hide ElemText;
    assert Text([e1, e2], 0) == "" && Text([e1, e2], 1) == ElemText(e1.elem);
  }

  /** What may be in a number: digits, hexadecimal digits and the letter of their prefix, and a
      minus sign in front. It is converted as a whole. */
  lemma NumberRead(s: string, i: nat, e: nat)
    requires i <= e <= |s|
    requires forall k :: i <= k < e ==>
               || '0' <= s[k] <= '9' || 'a' <= s[k] <= 'f' || 'A' <= s[k] <= 'F'
               || s[k] == 'x' || s[k] == 'X' || (k == i && s[k] == '-')
    requires e < |s| ==> s[e] == ']' || (s[e] == '-' && e > i)
    ensures ParseInt(s, i).Some? <==> Atoi(s[i..e]).Some?
    ensures ParseInt(s, i).Some? ==> ParseInt(s, i) == Some((Atoi(s[i..e]).value, e))
  {
    hide Atoi;
    assert NumberEnd(s, i, i) == e;
  }
}
