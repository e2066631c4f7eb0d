// lsd/timestr.c: durations as text, [Xd][Xh][Xm][X][s].
module Timestr {
  import opened Base

  const INT_BOUND: int := 0x8000_0000                 // int is 32 bits wide
  const LONG_BOUND: int := 0x8000_0000_0000_0000      // long and time_t are 64
  const DAY: int := 86400
  const HOUR: int := 3600
  const MINUTE: int := 60
  const BUF: nat := 64

  // A C string without its NUL.
  type CString = s: seq<char> | '\0' !in s witness []

  // C's / and %, truncating towards zero.
  function Quot(a: int, b: int): int
    requires b > 0
  {
    if a >= 0 then a / b else -((-a) / b)
  }

  function Rem(a: int, b: int): int
    requires b > 0
  {
    a - b * Quot(a, b)
  }

  // Conversion of a long to int.
  function ToInt(x: int): (r: int)
    ensures -INT_BOUND <= r < INT_BOUND
    ensures r == x <==> -INT_BOUND <= x < INT_BOUND
  {
    (x + INT_BOUND) % (2 * INT_BOUND) - INT_BOUND
  }

  // ------------------------------------------------------------ numerals

  function Digit(n: nat): char
    requires n < 10
  {
    '0' + n as char
  }

  // The numeral of n, in base 10.
  function Numeral(n: nat): (s: CString)
    ensures s != []
  {
    if n < 10 then [Digit(n)] else Numeral(n / 10) + [Digit(n % 10)]
  }

  // printf's %d
  function Printed(n: int): (s: CString)
    ensures s != []
  {
    if n < 0 then "-" + Numeral(-n) else Numeral(n)
  }

  function DigitValue(c: char): nat {
    if '0' <= c <= '9' then c as nat - '0' as nat
    else if 'a' <= c <= 'z' then c as nat - 'a' as nat + 10
    else if 'A' <= c <= 'Z' then c as nat - 'A' as nat + 10
    else 36
  }

  // The value of the leading digits of s, after acc.
  function Digits(s: seq<char>, base: nat, acc: nat): nat {
    if s == [] || DigitValue(s[0]) >= base then acc
    else Digits(s[1..], base, acc * base + DigitValue(s[0]))
  }

  predicate Space(c: char) {
    c == ' ' || '\t' <= c <= '\r'
  }

  function Skip(s: seq<char>): seq<char> {
    if s != [] && Space(s[0]) then Skip(s[1..]) else s
  }

  // Base 0 takes the base from the prefix: 0x, 0 or none.
  function Magnitude(s: seq<char>): nat {
    if |s| > 2 && s[0] == '0' && (s[1] == 'x' || s[1] == 'X') && DigitValue(s[2]) < 16 then Digits(s[2..], 16, 0)
    else if s != [] && s[0] == '0' then Digits(s, 8, 0)
    else Digits(s, 10, 0)
  }

  function Clamp(x: int): (r: int)
    ensures -LONG_BOUND <= r < LONG_BOUND
  {
    if x < -LONG_BOUND then -LONG_BOUND else if x >= LONG_BOUND then LONG_BOUND - 1 else x
  }

  // strtol(s, NULL, 0), section 7.22.1.4 of ISO C11
  function Strtol(s: seq<char>): (r: int)
    ensures -LONG_BOUND <= r < LONG_BOUND
  {
    var t := Skip(s);
    if t != [] && t[0] == '-' then Clamp(0 - Magnitude(t[1..]))
    else if t != [] && t[0] == '+' then Clamp(Magnitude(t[1..]))
    else Clamp(Magnitude(t))
  }

  predicate AllDigits(s: seq<char>) {
    forall i :: 0 <= i < |s| ==> '0' <= s[i] <= '9'
  }

  lemma {:induction false} NumeralDigits(n: nat)
    ensures AllDigits(Numeral(n))
    ensures n > 0 ==> Numeral(n)[0] != '0'
  {
    if n >= 10 {
      NumeralDigits(n / 10);
    }
  }

  predicate InBase(s: seq<char>, base: nat) {
    forall i :: 0 <= i < |s| ==> DigitValue(s[i]) < base
  }

  lemma {:induction false} DigitsAppend(a: seq<char>, b: seq<char>, base: nat, acc: nat)
    requires InBase(a, base)
    ensures Digits(a + b, base, acc) == Digits(b, base, Digits(a, base, acc))
  {
    if a == [] {
      assert a + b == b;
    } else {
      assert (a + b)[1..] == a[1..] + b;
      DigitsAppend(a[1..], b, base, acc * base + DigitValue(a[0]));
    }
  }

  lemma {:induction false} DigitsOfNumeral(n: nat)
    ensures Digits(Numeral(n), 10, 0) == n
  {
    if n < 10 {
      assert Numeral(n)[1..] == [];
    } else {
      DigitsOfNumeral(n / 10);
      NumeralDigits(n / 10);
      DigitsAppend(Numeral(n / 10), [Digit(n % 10)], 10, 0);
      assert [Digit(n % 10)][1..] == [];
    }
  }

  // What ends a numeral.
  predicate Ends(rest: seq<char>) {
    rest == [] || DigitValue(rest[0]) >= 10
  }

  // The base that a prefix stands for.
  function Radix(prefix: seq<char>): nat {
    if prefix == "0x" || prefix == "0X" then 16 else if prefix == "0" then 8 else 10
  }

  // Prefix and digits make one number, ended by rest.
  predicate Number(prefix: seq<char>, w: seq<char>, rest: seq<char>) {
    && (prefix == "" || prefix == "0" || prefix == "0x" || prefix == "0X")
    && InBase(w, Radix(prefix)) && (rest == [] || DigitValue(rest[0]) >= Radix(prefix))
    && (prefix == "" ==> w != [] && w[0] != '0')
    && (|prefix| == 2 ==> w != [])
    && (prefix == "0" && w == [] && |rest| > 1 && DigitValue(rest[1]) < 16 ==> rest[0] != 'x' && rest[0] != 'X')
  }

  lemma MagnitudeOf(prefix: seq<char>, w: seq<char>, rest: seq<char>)
    requires Number(prefix, w, rest)
    ensures Magnitude(prefix + w + rest) == Digits(w, Radix(prefix), 0)
  {
    hide Digits, Magnitude;
    if |prefix| == 2 {
      Hexadecimal(prefix, w, rest);
    } else if prefix == "0" {
      Octal(w, rest);
    } else {
      assert prefix + w == w;
      DigitsEnd(w, rest, 10);
      NotPrefixed(w + rest);
    }
  }

  lemma DigitsEnd(w: seq<char>, rest: seq<char>, base: nat)
    requires InBase(w, base) && (rest == [] || DigitValue(rest[0]) >= base)
    ensures Digits(w + rest, base, 0) == Digits(w, base, 0)
  {
    DigitsAppend(w, rest, base, 0);
  }

  lemma NotPrefixed(t: seq<char>)
    requires t != [] && t[0] != '0'
    ensures Magnitude(t) == Digits(t, 10, 0)
  {
  }

  lemma Hexadecimal(prefix: seq<char>, w: seq<char>, rest: seq<char>)
    requires |prefix| == 2 && Number(prefix, w, rest)
    ensures Magnitude(prefix + w + rest) == Digits(w, 16, 0)
  {
    hide Digits;
    DigitsEnd(w, rest, 16);
    assert (prefix + w + rest)[2..] == w + rest;
    assert (prefix + w + rest)[2] == w[0];
  }

  lemma Octal(w: seq<char>, rest: seq<char>)
    requires Number("0", w, rest)
    ensures Magnitude("0" + w + rest) == Digits(w, 8, 0)
  {
    DigitsEnd(w, rest, 8);
    var t := "0" + w + rest;
    assert t[1..] == w + rest;
    if |t| > 1 {
      assert t[1] == if w == [] then rest[0] else w[0];
      assert |t| > 2 && w == [] ==> t[2] == rest[1];
    }
    assert Magnitude(t) == Digits(t, 8, 0) == Digits(t[1..], 8, 0);
  }

  lemma {:induction false} SkipBlank(blank: seq<char>, t: seq<char>)
    requires forall i :: 0 <= i < |blank| ==> Space(blank[i])
    requires t != [] && !Space(t[0])
    ensures Skip(blank + t) == t
  {
    if blank == [] {
      assert blank + t == t;
    } else {
      assert (blank + t)[1..] == blank[1..] + t;
      SkipBlank(blank[1..], t);
    }
  }

  // strtol with base 0 reads blanks, a sign, a prefix for the base and digits, and
  // clamps their value; anything after the digits is ignored.
  lemma StrtolReads(blank: seq<char>, sign: seq<char>, prefix: seq<char>, w: seq<char>, rest: seq<char>)
    requires forall i :: 0 <= i < |blank| ==> Space(blank[i])
    requires (sign == "" || sign == "-" || sign == "+") && Number(prefix, w, rest)
    ensures var n := Digits(w, Radix(prefix), 0);
      Strtol(blank + (sign + (prefix + w + rest))) == Clamp(if sign == "-" then 0 - n else n)
  {
    MagnitudeOf(prefix, w, rest);
    var u := prefix + w + rest;
    var t := sign + u;
    assert u != [] && DigitValue(u[0]) < 10;
    SkipBlank(blank, t);
    if sign == "" {
      assert t == u;
    } else {
      assert t[1..] == u;
    }
  }

  // Where no number follows the sign it gives 0.
  lemma StrtolReadsNothing(blank: seq<char>, sign: seq<char>, rest: seq<char>)
    requires forall i :: 0 <= i < |blank| ==> Space(blank[i])
    requires sign == "" || sign == "-" || sign == "+"
    requires Ends(rest) && (sign == "" && rest != [] ==> !Space(rest[0]) && rest[0] != '-' && rest[0] != '+')
    ensures Strtol(blank + (sign + rest)) == 0
  {
    var t := sign + rest;
    if t == [] {
      SkipAll(blank);
      assert blank + t == blank;
    } else {
      SkipBlank(blank, t);
      assert sign != "" ==> t[1..] == rest;
      assert sign == "" ==> t == rest;
    }
  }

  lemma {:induction false} SkipAll(blank: seq<char>)
    requires forall i :: 0 <= i < |blank| ==> Space(blank[i])
    ensures Skip(blank) == []
  {
    if blank != [] {
      SkipAll(blank[1..]);
    }
  }

  // strtol reads back what %d printed, whatever non-digit follows.
  lemma StrtolPrinted(n: int, rest: seq<char>)
    requires n != 0 && -LONG_BOUND <= n < LONG_BOUND && Ends(rest)
    ensures Strtol(Printed(n) + rest) == n
  {
    hide Digits, Numeral, Strtol;
    var m := if n < 0 then -n else n;
    var sign := if n < 0 then "-" else "";
    NumeralDigits(m);
    DigitsOfNumeral(m);
    StrtolReads([], sign, "", Numeral(m), rest);
    assert [] + (sign + ("" + Numeral(m) + rest)) == Printed(n) + rest;
  }

  function Pow10(k: nat): nat {
    if k == 0 then 1 else 10 * Pow10(k - 1)
  }

  lemma {:induction false} NumeralLength(n: nat, k: nat)
    requires k > 0 && n < Pow10(k)
    ensures |Numeral(n)| <= k
  {
    if n >= 10 {
      assert Pow10(k) == 10 * Pow10(k - 1);
      NumeralLength(n / 10, k - 1);
    }
  }

  // ------------------------------------------------------------ printing

  function Part(n: int, unit: char): (s: CString)
    requires unit != '\0'
  {
    if n == 0 then [] else Printed(n) + [unit]
  }

  function Parts(d: int, h: int, m: int, s: int): CString {
    Part(d, 'd') + Part(h, 'h') + Part(m, 'm') + Part(s, 's')
  }

  // The parts of a time; each has the sign of the time.
  function Days(t: int): int { Quot(t, DAY) }

  function Hours(t: int): int { Quot(Rem(t, DAY), HOUR) }

  function Minutes(t: int): int { Quot(Rem(Rem(t, DAY), HOUR), MINUTE) }

  function Seconds(t: int): int { Rem(Rem(Rem(t, DAY), HOUR), MINUTE) }

  // What time_to_timestr returns.
  function Text(t: int): CString {
    var text := Parts(ToInt(Days(t)), Hours(t), Minutes(t), Seconds(t));
    if text == [] then "0s" else text
  }

  lemma QuotRem(a: int, b: int)
    requires b > 0
    ensures a == b * Quot(a, b) + Rem(a, b) && -b < Rem(a, b) < b
    ensures (a >= 0 ==> 0 <= Rem(a, b)) && (a <= 0 ==> Rem(a, b) <= 0)
  {
    var m := if a >= 0 then a else -a;
    assert m == b * (m / b) + m % b;
    if a < 0 {
      assert b * -(m / b) == -(b * (m / b));
    }
  }

  lemma Remainders(t: int)
    ensures -24 < Hours(t) < 24 && -60 < Minutes(t) < 60 && -60 < Seconds(t) < 60
    ensures t == Days(t) * 86400 + Hours(t) * 3600 + Minutes(t) * 60 + Seconds(t)
  {
    hide Quot, Rem;
    QuotRem(t, DAY);
    QuotRem(Rem(t, DAY), HOUR);
    QuotRem(Rem(Rem(t, DAY), HOUR), MINUTE);
  }

  lemma PartLength(n: int, unit: char, k: nat)
    requires unit != '\0' && k > 0 && n < Pow10(k) && -n < Pow10(k)
    ensures |Part(n, unit)| <= k + 2
  {
    NumeralLength(if n < 0 then -n else n, k);
  }

  // The text always fits the buffer, with its NUL.
  lemma TextFits(d: int, h: int, m: int, s: int)
    requires -INT_BOUND <= d < INT_BOUND && -24 < h < 24 && -60 < m < 60 && -60 < s < 60
    ensures |Parts(d, h, m, s)| + 1 <= BUF
    ensures |Part(d, 'd')| <= 12 && |Part(h, 'h')| <= 4 && |Part(m, 'm')| <= 4 && |Part(s, 's')| <= 4
  {
    assert Pow10(2) == 100;
    assert Pow10(5) == 100000;
    assert Pow10(10) == 10000000000;
    PartLength(d, 'd', 10);
    PartLength(h, 'h', 2);
    PartLength(m, 'm', 2);
    PartLength(s, 's', 2);
  }

  // snprintf(rbuf + rlen, size, ...): the bound is the whole buffer's, not what is
  // left of it.
  method Snprintf(rbuf: array<char>, rlen: nat, size: nat, text: CString) returns (n: nat)
    requires rbuf.Length == BUF && |text| < size && rlen + |text| < BUF
    modifies rbuf
    ensures n == |text| && rbuf[..rlen + n] == old(rbuf[..rlen]) + text && rbuf[rlen + n] == '\0'
  {
    forall i | 0 <= i < |text| {
      rbuf[rlen + i] := text[i];
    }
    rbuf[rlen + |text|] := '\0';
    n := |text|;
  }

  method TimeToTimestr(time: int, rbuf: array<char>) returns (rlen: nat)
    requires rbuf.Length == BUF && -LONG_BOUND <= time < LONG_BOUND
    modifies rbuf
    ensures rlen < BUF && rbuf[..rlen] == Text(time) && rbuf[rlen] == '\0'
  {
    hide Quot, Rem, ToInt, Parts;
    var itime := time;
    var d := ToInt(Quot(itime, DAY));
    itime := Rem(itime, DAY);
    var h := Quot(itime, HOUR);
    itime := Rem(itime, HOUR);
    var m := Quot(itime, MINUTE);
    itime := Rem(itime, MINUTE);
    var s := itime;
    Remainders(time);
    assert d == ToInt(Days(time)) && h == Hours(time) && m == Minutes(time) && s == Seconds(time);
    rlen := WriteParts(d, h, m, s, rbuf);
    if rlen == 0 {
      rbuf[0] := '0';
      rbuf[1] := 's';
      rbuf[2] := '\0';
      assert rbuf[..2] == "0s";
      return 2;
    }
  }

  method WriteParts(d: int, h: int, m: int, s: int, rbuf: array<char>) returns (rlen: nat)
    requires rbuf.Length == BUF
    requires -INT_BOUND <= d < INT_BOUND && -24 < h < 24 && -60 < m < 60 && -60 < s < 60
    modifies rbuf
    ensures rlen < BUF && rbuf[..rlen] == Parts(d, h, m, s) && (rlen > 0 ==> rbuf[rlen] == '\0')
  {
    hide Part;
    TextFits(d, h, m, s);
    rlen := 0;
    rlen := WritePart(d, 'd', rbuf, rlen);
    rlen := WritePart(h, 'h', rbuf, rlen);
    rlen := WritePart(m, 'm', rbuf, rlen);
    rlen := WritePart(s, 's', rbuf, rlen);
  }

  method WritePart(n: int, unit: char, rbuf: array<char>, was: nat) returns (rlen: nat)
    requires rbuf.Length == BUF && unit != '\0' && was + |Part(n, unit)| < BUF
    requires was > 0 ==> rbuf[was] == '\0'
    modifies rbuf
    ensures rlen == was + |Part(n, unit)| && rbuf[..rlen] == old(rbuf[..was]) + Part(n, unit)
    ensures rlen > 0 ==> rbuf[rlen] == '\0'
  {
    rlen := was;
    if n != 0 {
      var k := Snprintf(rbuf, rlen, 64, Printed(n) + [unit]);
      rlen := rlen + k;
    }
  }

  // ------------------------------------------------------------ parsing

  function Lower(c: char): (r: char)
    ensures r == '\0' <==> c == '\0'
  {
    if 'A' <= c <= 'Z' then c + 'a' - 'A' else c
  }

  function Lowered(s: seq<char>): (r: seq<char>)
    ensures |r| == |s|
  {
    seq(|s|, i requires 0 <= i < |s| => Lower(s[i]))
  }

  // strchr: the first occurrence; the length if there is none.
  function Find(s: seq<char>, c: char): (k: nat)
    ensures k <= |s| && (k < |s| ==> s[k] == c)
    ensures forall i :: 0 <= i < k ==> s[i] != c
  {
    if s == [] || s[0] == c then 0 else 1 + Find(s[1..], c)
  }

  lemma FindIs(s: seq<char>, c: char, k: nat)
    requires k <= |s| && (k < |s| ==> s[k] == c)
    requires forall i :: 0 <= i < k ==> s[i] != c
    ensures Find(s, c) == k
  {
  }

  // The value of the part of s that ends at the unit, and what is left.
  function Value(s: seq<char>, unit: char, scale: int): int {
    if unit in s then Strtol(s[..Find(s, unit)]) * scale else 0
  }

  function Rest(s: seq<char>, unit: char): seq<char> {
    if unit in s then s[Find(s, unit) + 1..] else s
  }

  predicate Fits(x: int) {
    -LONG_BOUND <= x < LONG_BOUND
  }

  // ret += v; None once a product or a sum has overflowed.
  function Plus(ret: Option<int>, v: int): Option<int> {
    if ret.Some? && Fits(v) && Fits(ret.value + v) then Some(ret.value + v) else None
  }

  function Sum(d: int, h: int, m: int, s: int): Option<int> {
    Plus(Plus(Plus(Plus(Some(0), d), h), m), s)
  }

  // timestr_to_time on a string already in lower case.
  function Parsed(s: seq<char>): Option<int> {
    var h := Rest(s, 'd');
    var m := Rest(h, 'h');
    Sum(Value(s, 'd', DAY), Value(h, 'h', HOUR), Value(m, 'm', MINUTE), Strtol(Rest(m, 'm')))
  }

  function Time(str: Option<CString>, def: int): Option<int> {
    if str == None then Some(def) else Parsed(Lowered(str.value))
  }

  // None stands for the overflow of a signed long, which C leaves undefined.
  method TimestrToTime(str: Option<CString>, def: int) returns (r: Option<int>)
    ensures r == Time(str, def) && (str == None ==> r == Some(def))
  {
    if str == None {
      return Some(def);
    }
    hide Strtol, Value, Rest, Holds, Plus;
    var buf := LowerCopy(str.value);
    ghost var rest := Lowered(str.value);
    var v, s := TakePart(buf, 0, 'd', DAY, rest);
    r := Plus(Some(0), v);
    rest := Rest(rest, 'd');
    v, s := TakePart(buf, s, 'h', HOUR, rest);
    r := Plus(r, v);
    rest := Rest(rest, 'h');
    v, s := TakePart(buf, s, 'm', MINUTE, rest);
    r := Plus(r, v);
    rest := Rest(rest, 'm');
    HoldsString(buf[..], s, rest);
    r := Plus(r, Strtol(StringAt(buf[..], s)));
  }

  // strdup and the loop of tolower
  method LowerCopy(text: CString) returns (buf: array<char>)
    ensures fresh(buf) && Holds(buf[..], 0, Lowered(text))
  {
    buf := new char[|text| + 1](i requires 0 <= i <= |text| => if i < |text| then text[i] else '\0');
    var s2 := 0;
    while buf[s2] != '\0'
      invariant s2 <= |text| && buf[|text|] == '\0'
      invariant forall i :: 0 <= i < |text| ==> buf[i] == if i < s2 then Lower(text[i]) else text[i]
      decreases |text| - s2
    {
      buf[s2] := Lower(buf[s2]);
      s2 := s2 + 1;
    }
    assert s2 == |text|;
  }

  // The C string at index i of a.
  function StringAt(a: seq<char>, i: nat): seq<char>
    decreases |a| - i
  {
    if i < |a| && a[i] != '\0' then [a[i]] + StringAt(a, i + 1) else []
  }

  // From i on, a holds the string t and the last NUL.
  predicate Holds(a: seq<char>, i: nat, t: seq<char>) {
    '\0' !in t && i + |t| + 1 == |a| && a[i..] == t + "\0"
  }

  lemma {:induction false} StringIs(a: seq<char>, i: nat, k: nat)
    requires i + k < |a| && a[i + k] == '\0' && forall j :: i <= j < i + k ==> a[j] != '\0'
    ensures StringAt(a, i) == a[i..i + k]
    decreases k
  {
    if k > 0 {
      StringIs(a, i + 1, k - 1);
      assert a[i..i + k] == [a[i]] + a[i + 1..i + k];
    }
  }

  lemma HoldsString(a: seq<char>, i: nat, t: seq<char>)
    requires Holds(a, i, t)
    ensures StringAt(a, i) == t
  {
    assert forall j :: 0 <= j < |t| ==> a[i + j] == a[i..][j] == t[j];
    assert a[i + |t|] == a[i..][|t|];
    StringIs(a, i, |t|);
    assert a[i..i + |t|] == t;
  }

  // Writing a NUL at the unit splits the string there.
  lemma TakenAt(a: seq<char>, s: nat, rest: seq<char>, k: nat)
    requires Holds(a, s, rest) && k < |rest|
    ensures var b := a[s + k := '\0']; StringAt(b, s) == rest[..k] && Holds(b, s + k + 1, rest[k + 1..])
  {
    var b := a[s + k := '\0'];
    assert b[s + k + 1..] == a[s..][k + 1..] == rest[k + 1..] + "\0";
    assert forall j :: 0 <= j < k ==> b[s + j] == a[s..][j] == rest[j];
    StringIs(b, s, k);
    assert b[s..s + k] == rest[..k];
  }

  // One of the three blocks of timestr_to_time.
  method TakePart(buf: array<char>, s: nat, unit: char, scale: int, ghost rest: seq<char>) returns (v: int, s': nat)
    requires Holds(buf[..], s, rest) && unit != '\0'
    modifies buf
    ensures v == Value(rest, unit, scale) && Holds(buf[..], s', Rest(rest, unit))
  {
    hide Strtol;
    var s2 := s;
    while buf[s2] != unit && buf[s2] != '\0'
      invariant s <= s2 <= s + |rest|
      invariant forall i :: 0 <= i < s2 - s ==> rest[i] != unit
      decreases s + |rest| - s2
    {
      assert buf[s2] == buf[..][s..][s2 - s];
      s2 := s2 + 1;
    }
    ghost var k := s2 - s;
    assert buf[s2] == buf[..][s..][k];
    FindIs(rest, unit, k);
    if buf[s2] == '\0' {
      return 0, s;
    }
    assert rest[k] == unit;
    TakenAt(buf[..], s, rest, k);
    buf[s2] := '\0';
    v := Strtol(StringAt(buf[..], s)) * scale;
    s' := s2 + 1;
  }

  // ------------------------------------------------------------ round trips

  predicate IsDigit(c: char) {
    '0' <= c <= '9'
  }

  // The characters %d prints.
  predicate Numeric(c: char) {
    c == '-' || IsDigit(c)
  }

  predicate Plain(s: seq<char>) {
    forall i :: 0 <= i < |s| ==> Numeric(s[i])
  }

  lemma PrintedPlain(n: int)
    ensures Plain(Printed(n))
  {
    NumeralDigits(if n < 0 then -n else n);
  }

  // A printed part is read back, present or missing, if its unit does not occur later.
  lemma PartParsed(n: int, unit: char, rest: seq<char>, scale: int)
    requires 'a' <= unit <= 'z' && unit !in rest && -LONG_BOUND <= n < LONG_BOUND
    ensures Value(Part(n, unit) + rest, unit, scale) == n * scale
    ensures Rest(Part(n, unit) + rest, unit) == rest
  {
    var t := Part(n, unit) + rest;
    if n == 0 {
      assert t == rest;
    } else {
      var p := Printed(n);
      PrintedPlain(n);
      assert t[|p|] == unit;
      FindIs(t, unit, |p|);
      assert t[..|p|] == p + [];
      StrtolPrinted(n, []);
      assert t[|p| + 1..] == rest;
    }
  }

  predicate Letters(s: seq<char>, units: string) {
    forall i :: 0 <= i < |s| ==> Numeric(s[i]) || s[i] in units
  }

  lemma PartLetters(n: int, unit: char, rest: seq<char>, units: string)
    requires unit != '\0' && unit in units && Letters(rest, units)
    ensures Letters(Part(n, unit) + rest, units)
  {
    PrintedPlain(n);
  }

  // The seconds may be printed with or without their unit.
  function Last(s: int, suffix: bool): CString {
    if suffix then Part(s, 's') else if s == 0 then [] else Printed(s)
  }

  lemma LastParsed(s: int, suffix: bool)
    requires -LONG_BOUND <= s < LONG_BOUND
    ensures Strtol(Last(s, suffix)) == s && Letters(Last(s, suffix), "s") && Letters(Last(s, suffix), "ms")
  {
    PrintedPlain(s);
    if s != 0 {
      StrtolPrinted(s, if suffix then "s" else []);
      assert suffix || Last(s, suffix) == Printed(s) + [];
    }
  }

  lemma PartsParsed(d: int, h: int, m: int, s: int, suffix: bool)
    requires -LONG_BOUND <= d < LONG_BOUND && -LONG_BOUND <= h < LONG_BOUND
    requires -LONG_BOUND <= m < LONG_BOUND && -LONG_BOUND <= s < LONG_BOUND
    ensures var last := if suffix then Part(s, 's') else if s == 0 then [] else Printed(s);
      Parsed(Part(d, 'd') + (Part(h, 'h') + (Part(m, 'm') + last))) == Sum(d * 86400, h * 3600, m * 60, s)
  {
    hide Part, Strtol, Value, Rest, Sum;
    var last := Last(s, suffix);
    LastParsed(s, suffix);
    PartLetters(m, 'm', last, "ms");
    assert Letters(Part(m, 'm') + last, "hms");
    PartLetters(h, 'h', Part(m, 'm') + last, "hms");
    PartParsed(d, 'd', Part(h, 'h') + (Part(m, 'm') + last), DAY);
    PartParsed(h, 'h', Part(m, 'm') + last, HOUR);
    PartParsed(m, 'm', last, MINUTE);
  }

  // Without negative parts the sum is exact if and only if it fits a long.
  lemma SumIff(d: nat, h: nat, m: nat, s: nat)
    ensures Sum(d, h, m, s) == (if Fits(d + h + m + s) then Some(d + h + m + s) else None)
  {
  }

  lemma Associate(a: seq<char>, b: seq<char>, c: seq<char>, d: seq<char>)
    ensures a + b + c + d == a + (b + (c + d))
  {
  }

  lemma LowerLetters(s: seq<char>)
    requires Letters(s, "dhms")
    ensures Lowered(s) == s
  {
  }

  lemma PartsLetters(d: int, h: int, m: int, s: int)
    ensures Letters(Parts(d, h, m, s), "dhms")
  {
    PartLetters(s, 's', [], "dhms");
    assert Part(s, 's') + [] == Part(s, 's');
    PartLetters(m, 'm', Part(s, 's'), "dhms");
    PartLetters(h, 'h', Part(m, 'm') + Part(s, 's'), "dhms");
    PartLetters(d, 'd', Part(h, 'h') + (Part(m, 'm') + Part(s, 's')), "dhms");
    Associate(Part(d, 'd'), Part(h, 'h'), Part(m, 'm'), Part(s, 's'));
  }

  lemma ZeroParsed(def: int)
    ensures Time(Some("0s"), def) == Some(0)
  {
    assert Lowered("0s") == "0s";
    assert "0s"[1..] == "s";
  }

  // Reading back what was printed gives the time again exactly when its number of
  // days fits an int; otherwise the days have wrapped.
  lemma RoundTripIff(t: int, def: int)
    requires -LONG_BOUND <= t < LONG_BOUND
    ensures Time(Some(Text(t)), def) == Some(t) <==> -0x8000_0000 <= Days(t) < 0x8000_0000
    ensures Time(Some(Text(t)), def) == Some(t + (ToInt(Days(t)) - Days(t)) * 86400)
  {
    hide Days, Hours, Minutes, Seconds, ToInt, Time, Parts;
    Remainders(t);
    TimeOfParts(ToInt(Days(t)), Hours(t), Minutes(t), Seconds(t), def);
  }

  lemma TimeOfParts(d: int, h: int, m: int, s: int, def: int)
    requires -INT_BOUND <= d < INT_BOUND && -24 < h < 24 && -60 < m < 60 && -60 < s < 60
    ensures var text := Parts(d, h, m, s);
      Time(Some(if text == [] then "0s" else text), def) == Some(d * 86400 + h * 3600 + m * 60 + s)
  {
    hide Part, Parsed;
    PartsParsed(d, h, m, s, true);
    Associate(Part(d, 'd'), Part(h, 'h'), Part(m, 'm'), Part(s, 's'));
    PartsLetters(d, h, m, s);
    LowerLetters(Parts(d, h, m, s));
    if Parts(d, h, m, s) == [] {
      NoParts(d, h, m, s);
      ZeroParsed(def);
    }
  }

  lemma NoParts(d: int, h: int, m: int, s: int)
    requires Parts(d, h, m, s) == []
    ensures d == h == m == s == 0
  {
    assert |Parts(d, h, m, s)| == |Part(d, 'd')| + |Part(h, 'h')| + |Part(m, 'm')| + |Part(s, 's')|;
  }

  // The default is for NULL alone: a text without any number is worth 0.
  lemma DefaultIff(str: Option<CString>, def: int)
    ensures (forall other :: Time(str, other) == Time(str, def)) <==> str != None
    ensures Time(None, def) == Some(def) && Time(Some(""), def) == Some(0)
  {
    if str == None {
      assert Time(str, def + 1) != Time(str, def);
    }
    assert Lowered("") == "" && Time(Some(""), def) == Sum(0, 0, 0, Strtol(""));
  }

  // ------------------------------------------------------------ what is printed

  // The letters of s.
  function Units(s: seq<char>): seq<char> {
    if s == [] then [] else (if Numeric(s[0]) then [] else [s[0]]) + Units(s[1..])
  }

  lemma {:induction false} UnitsConcat(a: seq<char>, b: seq<char>)
    ensures Units(a + b) == Units(a) + Units(b)
  {
    if a == [] {
      assert a + b == b;
    } else {
      assert (a + b)[1..] == a[1..] + b;
      UnitsConcat(a[1..], b);
    }
  }

  lemma {:induction false} UnitsPlain(s: seq<char>)
    requires Plain(s)
    ensures Units(s) == []
  {
    if s != [] {
      UnitsPlain(s[1..]);
    }
  }

  lemma PartUnits(n: int, unit: char)
    requires unit in "dhms"
    ensures Units(Part(n, unit)) == if n == 0 then "" else [unit]
  {
    PrintedPlain(n);
    UnitsPlain(Printed(n));
    UnitsConcat(Printed(n), [unit]);
    assert [unit][1..] == [];
  }

  predicate IsUnit(c: char) {
    c == 'd' || c == 'h' || c == 'm' || c == 's'
  }

  // A sign is followed by a digit, a digit by another or by a unit, and there is nothing
  // else.
  predicate Closed(s: seq<char>) {
    forall i :: 0 <= i < |s| ==> ClosedAt(s, i)
  }

  predicate ClosedAt(s: seq<char>, i: nat)
    requires i < |s|
  {
    if s[i] == '-' then i + 1 < |s| && IsDigit(s[i + 1])
    else if IsDigit(s[i]) then i + 1 < |s| && (IsDigit(s[i + 1]) || IsUnit(s[i + 1]))
    else IsUnit(s[i])
  }

  lemma PartClosed(n: int, unit: char)
    requires IsUnit(unit)
    ensures Closed(Part(n, unit))
  {
    if n != 0 {
      var w := Numeral(if n < 0 then -n else n);
      var k := if n < 0 then 1 else 0;
      var t := Part(n, unit);
      NumeralDigits(if n < 0 then -n else n);
      assert forall i :: k <= i < k + |w| ==> t[i] == w[i - k];
      forall i | 0 <= i < |t|
        ensures ClosedAt(t, i)
      {
        assert i + 1 < |t| ==> t[i + 1] == if i + 1 < k + |w| then w[i + 1 - k] else unit;
      }
    }
  }

  lemma ClosedConcat(a: seq<char>, b: seq<char>)
    requires Closed(a) && Closed(b)
    ensures Closed(a + b)
  {
    var t := a + b;
    forall i | 0 <= i < |t|
      ensures ClosedAt(t, i)
    {
      if i < |a| {
        assert ClosedAt(a, i);
      } else {
        assert ClosedAt(b, i - |a|);
      }
    }
  }

  lemma PartsUnits(d: int, h: int, m: int, s: int)
    ensures Units(Parts(d, h, m, s)) ==
      (if d == 0 then "" else "d") + (if h == 0 then "" else "h")
      + (if m == 0 then "" else "m") + (if s == 0 then "" else "s")
    ensures Closed(Parts(d, h, m, s))
  {
    hide Part, Units, Closed;
    PartUnits(d, 'd');
    PartUnits(h, 'h');
    PartUnits(m, 'm');
    PartUnits(s, 's');
    UnitsConcat(Part(d, 'd'), Part(h, 'h'));
    UnitsConcat(Part(d, 'd') + Part(h, 'h'), Part(m, 'm'));
    UnitsConcat(Part(d, 'd') + Part(h, 'h') + Part(m, 'm'), Part(s, 's'));
    PartClosed(d, 'd');
    PartClosed(h, 'h');
    PartClosed(m, 'm');
    PartClosed(s, 's');
    ClosedConcat(Part(d, 'd'), Part(h, 'h'));
    ClosedConcat(Part(d, 'd') + Part(h, 'h'), Part(m, 'm'));
    ClosedConcat(Part(d, 'd') + Part(h, 'h') + Part(m, 'm'), Part(s, 's'));
  }

  lemma ZeroText(t: int)
    requires t == 0
    ensures Text(t) == "0s"
  {
    hide ToInt, Quot, Rem;
    QuotRem(t, DAY);
    QuotRem(t, HOUR);
    QuotRem(t, MINUTE);
    NoneZero();
  }

  lemma NoneZero()
    ensures Parts(0, 0, 0, 0) == [] && Units("0s") == "s"
  {
    assert "0s"[1..] == "s" && "s"[1..] == "";
  }

  // The units printed are those of the parts that are not zero, in the documented order,
  // each with its number in front, and the text ends in one; 0 is "0s".
  lemma TextUnits(t: int)
    ensures var d, h, m, s := ToInt(Days(t)), Hours(t), Minutes(t), Seconds(t);
      Units(Text(t)) == if d == h == m == s == 0 then "s" else
        (if d == 0 then "" else "d") + (if h == 0 then "" else "h")
        + (if m == 0 then "" else "m") + (if s == 0 then "" else "s")
    ensures Closed(Text(t)) && Text(t) != [] && IsUnit(Text(t)[|Text(t)| - 1])
    ensures t == 0 ==> Text(t) == "0s"
  {
    hide ToInt, Quot, Rem, Part, Units;
    if t == 0 {
      ZeroText(t);
    }
    var d, h, m, s := ToInt(Days(t)), Hours(t), Minutes(t), Seconds(t);
    PartsUnits(d, h, m, s);
    if Parts(d, h, m, s) == [] {
      NoParts(d, h, m, s);
    }
    NoneZero();
    assert ClosedAt(Text(t), |Text(t)| - 1);
  }

  // Either case is accepted.
  lemma CaseBlind(a: CString, b: CString, def: int)
    requires |a| == |b| && forall i :: 0 <= i < |a| ==> Lower(a[i]) == Lower(b[i])
    ensures Time(Some(a), def) == Time(Some(b), def)
  {
    assert Lowered(a) == Lowered(b);
  }

  // ------------------------------------------------------------ leading zeros

  lemma {:induction false} OctalLess(w: seq<char>, a: nat, b: nat)
    requires AllDigits(w) && a <= b
    ensures Digits(w, 8, a) <= Digits(w, 10, b) && b <= Digits(w, 10, b)
    ensures a < b || (a > 0 && w != []) ==> Digits(w, 8, a) < Digits(w, 10, b)
  {
    if w != [] {
      var v := DigitValue(w[0]);
      OctalLess(w[1..], if v < 8 then 8 * a + v else a, 10 * b + v);
    }
  }

  // Zeros, then one digit below 8.
  predicate OneOctalDigit(w: seq<char>) {
    w != [] && w[|w| - 1] < '8' && forall i :: 0 <= i < |w| - 1 ==> w[i] == '0'
  }

  lemma {:induction false} OctalIsDecimalIff(w: seq<char>)
    requires AllDigits(w) && w != []
    ensures Digits(w, 8, 0) == Digits(w, 10, 0) <==> OneOctalDigit(w)
  {
    var v := DigitValue(w[0]);
    if |w| == 1 {
      assert w[1..] == [];
    } else if v == 0 {
      OctalIsDecimalIff(w[1..]);
      assert OneOctalDigit(w[1..]) ==> forall i :: 1 <= i < |w| - 1 ==> w[i] == w[1..][i - 1];
      assert w[1..][|w| - 2] == w[|w| - 1];
    } else if v < 8 {
      OctalLess(w[1..], v, v);
    } else {
      OctalLess(w[1..], 0, v);
    }
  }

  // A part is read as the decimal number it spells exactly when it has no leading
  // zero, or is worth a single digit below 8: base 0 takes a leading zero as octal.
  lemma DecimalReadIff(w: seq<char>)
    requires AllDigits(w) && w != [] && Digits(w, 10, 0) < LONG_BOUND
    ensures Strtol(w) == Digits(w, 10, 0) <==> w[0] != '0' || OneOctalDigit(w)
  {
    assert Skip(w) == w;
    OctalIsDecimalIff(w);
    OctalLess(w, 0, 0);
  }

  lemma LeadingZeroExample()
    ensures Strtol("010") == 8 && Strtol("08") == 0
  {
    assert Skip("010") == "010" && Skip("08") == "08";
    assert "010"[1..] == "10" && "10"[1..] == "0" && "0"[1..] == [];
    assert "08"[1..] == "8";
    assert Digits("0", 8, 1) == 8;
    assert Digits("10", 8, 0) == 8;
  }
}
