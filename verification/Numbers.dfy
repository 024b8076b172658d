/** Decimal printing and `strtol`, as the C library defines them for 32-bit `int` and 64-bit
    `long`, and the conversions built on them (rec_atoi in src/rec-utils.c). */
module Numbers {
  import opened Wrappers

  const INT_MAX: int := 0x7FFF_FFFF
  const INT_MIN: int := -0x8000_0000
  const LONG_MAX: int := 0x7FFF_FFFF_FFFF_FFFF
  const LONG_MIN: int := -0x8000_0000_0000_0000

  /** One more than the largest value of the unsigned size type. */
  const SIZE_MOD: nat := 0x1_0000_0000_0000_0000

  type CInt = x: int | INT_MIN <= x <= INT_MAX

  /** Conversion to `int` keeps the low 32 bits. */
  function ToInt(x: int): (r: int)
    ensures INT_MIN <= r <= INT_MAX
    ensures INT_MIN <= x <= INT_MAX ==> r == x
  {
    var low := x % 0x1_0000_0000;
    if low > INT_MAX then low - 0x1_0000_0000 else low
  }

  /** It differs from the number by a multiple of that. */
  lemma ToIntCongruent(x: int)
    ensures (x - ToInt(x)) % 0x1_0000_0000 == 0
  {
  }

  // ----- printing

  function DigitChar(d: nat): char
    requires d < 10
  {
    "0123456789"[d]
  }

  function Digits(n: nat): (s: string)
    ensures s != ""
  {
    if n < 10 then [DigitChar(n)] else Digits(n / 10) + [DigitChar(n % 10)]
  }

  /** `%d` */
  function Dec(n: int): string { if n < 0 then "-" + Digits(-n) else Digits(n) }

  // ----- strtol

  predicate IsSpace(c: char) { c == ' ' || '\t' <= c <= '\r' }

  /** The value of a digit, in any base up to 36; 99 for what is not a digit. */
  function DigitValue(c: char): nat {
    if '0' <= c <= '9' then c as int - '0' as int
    else if 'a' <= c <= 'z' then c as int - 'a' as int + 10
    else if 'A' <= c <= 'Z' then c as int - 'A' as int + 10
    else 99
  }

  function SkipSpace(s: string, i: nat): (j: nat)
    requires i <= |s|
    ensures i <= j <= |s|
    decreases |s| - i
  {
    if i < |s| && IsSpace(s[i]) then SkipSpace(s, i + 1) else i
  }

  function DigitsEnd(s: string, i: nat, base: nat): (j: nat)
    requires i <= |s|
    ensures i <= j <= |s|
    decreases |s| - i
  {
    if i < |s| && DigitValue(s[i]) < base then DigitsEnd(s, i + 1, base) else i
  }

  function Fold(s: string, base: nat, acc: nat): nat {
    if s == "" then acc else Fold(s[1..], base, acc * base + DigitValue(s[0]))
  }

  /** The base and the place of the first digit: with base 0 a leading 0x means sixteen and a
      leading 0 means eight. */
  function BaseAt(s: string, j: nat, base: nat): (r: (nat, nat))
    requires j <= |s|
    ensures j <= r.1 <= |s|
  {
    if base != 0 then (base, j)
    else if j + 2 < |s| && s[j] == '0' && (s[j + 1] == 'x' || s[j + 1] == 'X') && DigitValue(s[j + 2]) < 16 then
        (16, j + 2)
    else if j < |s| && s[j] == '0' then (8, j)
    else (10, j)
  }

  /** The value, where conversion stopped, and whether the value was out of range. */
  datatype Converted = Converted(value: int, end: nat, outOfRange: bool)

  function Clamp(v: int, end: nat): Converted {
    if v > LONG_MAX then Converted(LONG_MAX, end, true)
    else if v < LONG_MIN then Converted(LONG_MIN, end, true)
    else Converted(v, end, false)
  }

  function Strtol(s: string, base: nat): (r: Converted)
    ensures r.end <= |s|
  {
    var i := SkipSpace(s, 0);
    var negative := i < |s| && s[i] == '-';
    var j := if negative || (i < |s| && s[i] == '+') then i + 1 else i;
    var (b, k) := BaseAt(s, j, base);
    var e := DigitsEnd(s, k, b);
    if e == k then Converted(0, 0, false)
    else
      var v: int := Fold(s[k..e], b, 0);
      Clamp(if negative then -v else v, e)
  }

  /** `rec_atoi`: the whole of a non-empty string, in any base, truncated to `int`. */
  function Atoi(s: string): (r: Option<int>)
    ensures r.Some? ==> INT_MIN <= r.value <= INT_MAX
  {
    var r := Strtol(s, 0);
    if s != "" && r.end == |s| then Some(ToInt(r.value)) else None
  }

  // ----- reading back what was printed

  lemma {:induction false} FoldConcat(a: string, b: string, base: nat, acc: nat)
    ensures Fold(a + b, base, acc) == Fold(b, base, Fold(a, base, acc))
    decreases |a|
  {
    if a == "" {
      assert a + b == b;
    } else {
      assert (a + b)[1..] == a[1..] + b;
      FoldConcat(a[1..], b, base, acc * base + DigitValue(a[0]));
    }
  }

  lemma FoldOne(d: nat, base: nat, acc: nat)
    requires d < 10
    ensures DigitValue(DigitChar(d)) == d && '0' <= DigitChar(d) <= '9' && (d > 0 ==> DigitChar(d) != '0')
    ensures Fold([DigitChar(d)], base, acc) == acc * base + d
  {
    assert [DigitChar(d)][1..] == "";
  }

  lemma {:induction false} DigitsFold(n: nat)
    ensures Fold(Digits(n), 10, 0) == n
    ensures forall i :: 0 <= i < |Digits(n)| ==> '0' <= Digits(n)[i] <= '9'
    ensures n > 0 ==> Digits(n)[0] != '0'
  {
    if n >= 10 {
      var q, d := n / 10, n % 10;
      DigitsFold(q);
      FoldConcat(Digits(q), [DigitChar(d)], 10, 0);
      FoldOne(d, 10, q);
    } else {
      FoldOne(n, 10, 0);
    }
  }

  lemma {:induction false} DigitsEndAt(s: string, i: nat, base: nat, j: nat)
    requires i <= j <= |s| && (forall k :: i <= k < j ==> DigitValue(s[k]) < base)
    requires j < |s| ==> DigitValue(s[j]) >= base
    ensures DigitsEnd(s, i, base) == j
    decreases j - i
  {
    if i == j {
    } else {
      DigitsEndAt(s, i + 1, base, j);
    }
  }

  /** Printing a non-negative number and converting it back, in base ten or in the base its
      form suggests, gives the number, up to the first character that is not a digit. */
  lemma StrtolDigits(n: nat, rest: string, base: nat)
    requires base == 0 || base == 10
    requires n <= LONG_MAX
    requires rest != "" ==> DigitValue(rest[0]) >= 16 && rest[0] != 'x' && rest[0] != 'X'
    ensures Strtol(Digits(n) + rest, base) == Converted(n, |Digits(n)|, false)
  {
    var d := Digits(n);
    var s := d + rest;
    DigitsFold(n);
    assert s[0] == d[0];
    assert SkipSpace(s, 0) == 0;
    var (b, k) := BaseAt(s, 0, base);
    assert b == 8 ==> n == 0 && d == "0";
    assert k == 0 && (b == 10 || n == 0);
    forall i | 0 <= i < |d|
      ensures DigitValue(s[i]) < b
    {
      assert s[i] == d[i];
    }
    assert |d| < |s| ==> s[|d|] == rest[0];
    DigitsEndAt(s, 0, b, |d|);
    assert s[0..|d|] == d;
    if b == 8 {
      FoldOne(0, 8, 0);
    }
  }

  /** The `int` conversion of a printed non-negative `int`. */
  lemma AtoiDec(n: nat)
    requires n <= INT_MAX
    ensures Atoi(Dec(n)) == Some(n)
  {
    StrtolDigits(n, "", 0);
    assert Digits(n) + "" == Digits(n);
  }

  /** The same for a number printed after a minus sign. */
  lemma StrtolNegative(n: int)
    requires 0 <= n <= -INT_MIN
    ensures var s := "-" + Digits(n); Strtol(s, 0) == Converted(-n, |s|, false)
  {
    var d := Digits(n);
    var s := "-" + d;
    DigitsFold(n);
    hide Fold;
    assert s[0] == '-' && s[1] == d[0];
    assert SkipSpace(s, 0) == 0;
    var b := if n == 0 then 8 else 10;
    assert n == 0 ==> d == "0";
    assert BaseAt(s, 1, 0) == (b, 1);
    hide Digits;
    assert forall i :: 1 <= i < |s| ==> s[i] == d[i - 1] && DigitValue(s[i]) < b;
    DigitsEndAt(s, 1, b, |s|);
    assert s[1..|s|] == d;
    if n == 0 {
      FoldOne(0, 8, 0);
    }
  }

  lemma AtoiNegative(n: int)
    requires 0 <= n <= -INT_MIN
    ensures Atoi("-" + Digits(n)) == Some(-n)
  {
    hide Strtol;
    StrtolNegative(n);
  }

  /** Printing any `int` and converting it back gives the `int`. */
  lemma AtoiPrinted(n: int)
    requires INT_MIN <= n <= INT_MAX
    ensures Atoi(Dec(n)) == Some(n)
  {
    if n < 0 {
      AtoiNegative(-n);
    } else {
      AtoiDec(n);
    }
  }

  // ----- the forms of a number

  lemma {:induction false} SpaceSkipped(ws: string, t: string, i: nat)
    requires i <= |ws| && (forall c :: c in ws ==> IsSpace(c)) && t != "" && !IsSpace(t[0])
    ensures SkipSpace(ws + t, i) == |ws|
    decreases |ws| - i
  {
    var s := ws + t;
    if i == |ws| {
      assert s[i] == t[0];
    } else {
      assert s[i] == ws[i] && ws[i] in ws;
      SpaceSkipped(ws, t, i + 1);
    }
  }

  /** A digit more multiplies by the base and adds the digit. */
  lemma FoldSnoc(digits: string, c: char, base: nat)
    ensures Fold(digits + [c], base, 0) == Fold(digits, base, 0) * base + DigitValue(c)
    ensures Fold("", base, 0) == 0
  {
    FoldConcat(digits, [c], base, 0);
    assert [c][1..] == "";
  }

  /** The base that a prefix stands for: none for ten, 0 for eight, 0x for sixteen. */
  predicate PrefixOf(prefix: string, digits: string, base: nat) {
    || (prefix == "" && base == 10 && digits != "" && digits[0] != '0')
    || (prefix == "0" && base == 8)
    || ((prefix == "0x" || prefix == "0X") && base == 16 && digits != "")
  }

  lemma PrefixRead(s: string, j: nat, prefix: string, digits: string, base: nat)
    requires j <= |s| && s[j..] == prefix + digits && PrefixOf(prefix, digits, base)
    requires forall i :: 0 <= i < |digits| ==> DigitValue(digits[i]) < base
    ensures var k := if prefix == "0" then j else j + |prefix|;
            && BaseAt(s, j, 0) == (base, k) && k < |s| && s[k..] == (if prefix == "0" then "0" + digits else digits)
            && !IsSpace(s[j]) && s[j] != '-' && s[j] != '+'
  {
    var t := prefix + digits;
    assert forall i :: 0 <= i < |t| ==> s[j + i] == t[i];
    assert |s| == j + |t|;
    if prefix == "0" {
      assert |digits| > 0 ==> s[j + 1] == digits[0];
    } else {
      assert s[j + |prefix|] == digits[0];
      assert s[j + |prefix|..] == digits;
    }
  }

  lemma DigitsRead(s: string, k: nat, digits: string, base: nat)
    requires k <= |s| && s[k..] == digits && forall i :: 0 <= i < |digits| ==> DigitValue(digits[i]) < base
    ensures DigitsEnd(s, k, base) == |s|
  {
    assert forall i :: k <= i < |s| ==> s[i] == digits[i - k];
    DigitsEndAt(s, k, base, |s|);
  }

  lemma ZeroFirst(digits: string)
    ensures Fold("0" + digits, 8, 0) == Fold(digits, 8, 0)
  {
    assert ("0" + digits)[1..] == digits;
  }

  lemma FormAt(s: string, i: nat, j: nat, prefix: string, digits: string, base: nat)
    requires i <= j <= |s| && i < |s| && SkipSpace(s, 0) == i && j == if s[i] == '-' || s[i] == '+' then i + 1 else i
    requires s[j..] == prefix + digits && PrefixOf(prefix, digits, base)
    requires forall n :: 0 <= n < |digits| ==> DigitValue(digits[n]) < base
    ensures var v: int := Fold(digits, base, 0); Strtol(s, 0) == Clamp(if s[i] == '-' then -v else v, |s|)
  {
    hide Strtol;
    hide BaseAt;
    hide Fold;
    hide DigitsEnd;
    hide SkipSpace;
    hide Clamp;
    hide PrefixOf;
    PrefixRead(s, j, prefix, digits, base);
    if prefix == "0" {
      BaseOfZero(prefix, digits, base);
      DigitsRead(s, j, "0" + digits, base);
      StrtolAt(s, i, j, j, base, 0);
      ZeroFirst(digits);
    } else {
      DigitsRead(s, j + |prefix|, digits, base);
      StrtolAt(s, i, j, j + |prefix|, base, 0);
    }
  }

  lemma BaseOfZero(prefix: string, digits: string, base: nat)
    requires PrefixOf(prefix, digits, base) && prefix == "0"
    ensures base == 8 && forall n :: 0 <= n < |digits| ==> ("0" + digits)[n + 1] == digits[n]
    ensures ("0" + digits)[0] == '0'
  {
  }

  /** Blanks, a sign, a prefix and digits are read to their end as the number they stand for in
      the base of the prefix, limited to the range of `long`. */
  lemma FormsRead(ws: string, sign: string, prefix: string, digits: string, base: nat)
    requires (forall c :: c in ws ==> IsSpace(c)) && (sign == "" || sign == "+" || sign == "-")
    requires PrefixOf(prefix, digits, base) && forall i :: 0 <= i < |digits| ==> DigitValue(digits[i]) < base
    ensures var s := ws + (sign + (prefix + digits));
            var v: int := Fold(digits, base, 0);
            Strtol(s, 0) == Clamp(if sign == "-" then -v else v, |s|)
  {
    hide Strtol;
    hide Fold;
    hide SkipSpace;
    hide Clamp;
    hide BaseAt;
    var t := prefix + digits;
    var s := ws + (sign + t);
    StartRead(prefix, digits, base);
    SignRead(ws, sign, t);
    SpaceSkipped(ws, sign + t, 0);
    FormAt(s, |ws|, |ws| + |sign|, prefix, digits, base);
  }

  lemma StartRead(prefix: string, digits: string, base: nat)
    requires PrefixOf(prefix, digits, base) && forall i :: 0 <= i < |digits| ==> DigitValue(digits[i]) < base
    ensures var t := prefix + digits; t != "" && !IsSpace(t[0]) && t[0] != '-' && t[0] != '+'
  {
  }

  lemma SignRead(ws: string, sign: string, t: string)
    requires t != "" && (sign == "" || sign == "+" || sign == "-")
    ensures var s := ws + (sign + t);
            && s[|ws| + |sign|..] == t && (sign + t)[0] == s[|ws|]
            && s[|ws|] == (if sign == "" then t[0] else sign[0])
            && (t[0] != '-' && t[0] != '+' ==> (s[|ws|] == '-' <==> sign == "-") && (s[|ws|] == '+' <==> sign == "+"))
  {
  }

  /** In base ten digits are digits: a leading zero has no meaning. */
  lemma DecimalRead(ws: string, sign: string, digits: string)
    requires (forall c :: c in ws ==> IsSpace(c)) && (sign == "" || sign == "+" || sign == "-")
    requires digits != "" && forall i :: 0 <= i < |digits| ==> '0' <= digits[i] <= '9'
    ensures var s := ws + (sign + digits);
            var v: int := Fold(digits, 10, 0);
            Strtol(s, 10) == Clamp(if sign == "-" then -v else v, |s|)
  {
    hide Strtol;
    hide Fold;
    hide SkipSpace;
    hide Clamp;
    hide DigitsEnd;
    var s := ws + (sign + digits);
    var j := |ws| + |sign|;
    SignRead(ws, sign, digits);
    SpaceSkipped(ws, sign + digits, 0);
    DigitsRead(s, j, digits, 10);
    StrtolAt(s, |ws|, j, j, 10, 10);
  }

  lemma StrtolAt(s: string, i: nat, j: nat, k: nat, base: nat, asked: nat)
    requires i <= j <= k < |s| && SkipSpace(s, 0) == i && j == if s[i] == '-' || s[i] == '+' then i + 1 else i
    requires BaseAt(s, j, asked) == (base, k) && DigitsEnd(s, k, base) == |s|
    ensures var v: int := Fold(s[k..], base, 0); Strtol(s, asked) == Clamp(if s[i] == '-' then -v else v, |s|)
  {
    hide BaseAt;
    hide Fold;
    hide DigitsEnd;
    hide SkipSpace;
    assert s[k..|s|] == s[k..];
  }
}
